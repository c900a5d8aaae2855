/** Where each value of a save state stands, byte by byte (src/common/state_wrapper.h:34-167), and what a
    truncated one gives back of it. */
module StateFormat {
  import opened Arithmetic
  import opened Common
  import opened SaveState
  import opened StateWrapper

  /** The bytes of some elements of this width, which stand one after the other from `at` on. */
  predicate ItemsAt(bytes: seq<Byte>, at: nat, items: seq<nat>, width: nat) {
    forall i, j :: 0 <= i < |items| && 0 <= j < width ==>
      at + ItemOffset(i, width, j) < |bytes| && bytes[at + ItemOffset(i, width, j)] == Digit(items[i], j)
  }

  function ItemOffset(i: nat, width: nat, j: nat): nat { i * width + j }

  /** The bytes of a field: a scalar has its digits, low ones first; a flag is one or zero; an array has its
      elements, and a vector or a queue the number of them before, in four bytes. */
  predicate FieldAt(bytes: seq<Byte>, f: Field) {
    match f
    case Scalar(w, v) => |bytes| == w && forall j :: 0 <= j < w ==> bytes[j] == Digit(v, j)
    case Flag(on) => bytes == [if on then 1 else 0]
    case Fixed(w, items) => |bytes| == |items| * w && ItemsAt(bytes, 0, items, w)
    case Vector(w, items) => Counted(bytes, items, w)
    case Fifo(w, items) => Counted(bytes, items, w)
  }

  predicate Counted(bytes: seq<Byte>, items: seq<nat>, width: nat) {
    |bytes| == 4 + |items| * width && (forall j :: 0 <= j < 4 ==> bytes[j] == Digit(|items|, j)) && ItemsAt(bytes, 4, items, width)
  }

  lemma OffsetInside(i: nat, width: nat, j: nat, n: nat)
    requires i < n && j < width
    ensures ItemOffset(i, width, j) < n * width
    ensures i > 0 ==> ItemOffset(i, width, j) == width + ItemOffset(i - 1, width, j)
  {
    RowBefore(i + 1, n, width);
    RowBefore(i, n, width);
    if i > 0 {
      RowBefore(i - 1, n, width);
    }
  }

  lemma {:induction false} ItemByte(items: seq<nat>, width: nat, i: nat, j: nat)
    requires i < |items| && j < width
    ensures ItemOffset(i, width, j) < |items| * width
    ensures EncodeItems(items, width)[ItemOffset(i, width, j)] == Digit(items[i], j)
    decreases i
  {
    hide Le, Digit;
    OffsetInside(i, width, j, |items|);
    if i == 0 {
      LeDigits(items[0], width, j);
    } else {
      ItemByte(items[1..], width, i - 1, j);
    }
  }

  /** This is what is saved. */
  lemma FieldBytes(f: Field)
    ensures FieldAt(f.Encode(), f)
  {
    hide Le, EncodeItems, Digit, ItemOffset;
    match f
    case Scalar(w, v) =>
      forall j | 0 <= j < w
        ensures Le(v, w)[j] == Digit(v, j)
      {
        LeDigits(v, w, j);
      }
    case Flag(_) =>
    case Fixed(w, items) => ItemsBytes([], items, w);
    case Vector(w, items) => CountedBytes(items, w);
    case Fifo(w, items) => CountedBytes(items, w);
  }

  lemma ItemsBytes(before: seq<Byte>, items: seq<nat>, width: nat)
    ensures ItemsAt(before + EncodeItems(items, width), |before|, items, width)
    ensures [] + EncodeItems(items, width) == EncodeItems(items, width)
  {
    hide EncodeItems, Digit, ItemOffset;
    forall i, j | 0 <= i < |items| && 0 <= j < width
      ensures ItemOffset(i, width, j) < |items| * width
      ensures EncodeItems(items, width)[ItemOffset(i, width, j)] == Digit(items[i], j)
    {
      ItemByte(items, width, i, j);
    }
  }

  lemma CountedBytes(items: seq<nat>, width: nat)
    ensures Counted(Le(|items|, 4) + EncodeItems(items, width), items, width)
  {
    hide EncodeItems, Digit, ItemsAt;
    ItemsBytes(Le(|items|, 4), items, width);
    forall j | 0 <= j < 4
      ensures Le(|items|, 4)[j] == Digit(|items|, j)
    {
      LeDigits(|items|, 4, j);
    }
  }

  // ---------------------------------------------------------------- lists of fields

  /** Where field k begins. */
  function StartOf(fs: seq<Field>, k: nat): nat
    requires k <= |fs|
  {
    if k == 0 then 0 else |fs[0].Encode()| + StartOf(fs[1..], k - 1)
  }

  /** The fields stand one after the other, and fill the state. */
  lemma {:induction false} FieldsFollow(fs: seq<Field>, k: nat)
    requires k < |fs|
    ensures StartOf(fs, k) + |fs[k].Encode()| <= |EncodeAll(fs)|
    ensures FieldAt(EncodeAll(fs)[StartOf(fs, k)..StartOf(fs, k) + |fs[k].Encode()|], fs[k])
    decreases k
  {
    hide Field.Encode, FieldAt;
    var e, rest := fs[0].Encode(), EncodeAll(fs[1..]);
    if k == 0 {
      FieldBytes(fs[0]);
      assert (e + rest)[..|e|] == e;
    } else {
      FieldsFollow(fs[1..], k - 1);
      var lo := StartOf(fs[1..], k - 1);
      var hi := lo + |fs[k].Encode()|;
      SliceBehind(e, rest, lo, hi);
    }
  }

  lemma SliceBehind(e: seq<Byte>, rest: seq<Byte>, lo: nat, hi: nat)
    requires lo <= hi <= |rest|
    ensures (e + rest)[|e| + lo..|e| + hi] == rest[lo..hi]
  {
  }

  // ---------------------------------------------------------------- truncated states

  /** Of elements of which only n bytes are there, those that fit are exact, and the others are zero. */
  lemma {:induction false} CutItemsAt(items: seq<nat>, width: nat, n: nat, i: nat)
    requires i < |items| && width > 0
    ensures CutItems(items, width, n)[i] == if (i + 1) * width <= n then items[i] else 0
    decreases i
  {
    var next := if width <= n then n - width else 0;
    if i > 0 {
      CutItemsAt(items[1..], width, next, i - 1);
      assert (i + 1) * width == i * width + width && i * width >= width;
    }
  }

  /** What is left of a field of which only n bytes are there. */
  predicate LeftOf(f: Field, g: Field, n: nat) {
    f.SameShape(g)
    && match f
       case Scalar(w, v) => g.value == if w <= n then v else 0
       case Flag(on) => g.on == (on && n > 0)
       case Fixed(w, items) => ItemsLeft(items, g.items, w, n)
       case Vector(w, items) => if n < 4 then g.items == [] else ItemsLeft(items, g.items, w, n - 4)
       case Fifo(w, items) => if n < 4 then g.items == [] else ItemsLeft(items, g.items, w, n - 4)
  }

  predicate ItemsLeft(items: seq<nat>, left: seq<nat>, width: nat, n: nat) {
    |left| == |items| && forall i :: 0 <= i < |items| ==> left[i] == if (i + 1) * width <= n then items[i] else 0
  }

  lemma CutIsLeft(f: Field, n: nat)
    requires f.Valid()
    ensures LeftOf(f, f.Cut(n), n)
  {
    hide CutItems, Pow256, ItemsLeft;
    match f
    case Scalar(_, _) =>
    case Flag(_) =>
    case Fixed(w, items) => CutItemsLeft(items, w, n);
    case Vector(w, items) => CutItemsLeft(items, w, if n < 4 then 0 else n - 4);
    case Fifo(w, items) => CutItemsLeft(items, w, if n < 4 then 0 else n - 4);
  }

  lemma CutItemsLeft(items: seq<nat>, width: nat, n: nat)
    requires width > 0
    ensures ItemsLeft(items, CutItems(items, width, n), width, n)
  {
    hide CutItems;
    forall i | 0 <= i < |items|
      ensures CutItems(items, width, n)[i] == if (i + 1) * width <= n then items[i] else 0
    {
      CutItemsAt(items, width, n, i);
    }
  }

  /** Of the first n bytes of a state, each field gets those that come after its start. */
  lemma {:induction false} CutAllAt(fs: seq<Field>, n: nat, k: nat)
    requires k < |fs| && fs[k].Valid()
    ensures LeftOf(fs[k], CutAll(fs, n)[k], if StartOf(fs, k) <= n then n - StartOf(fs, k) else 0)
    decreases k
  {
    hide Field.Encode, LeftOf, Field.Cut, Field.Valid;
    var size := |fs[0].Encode()|;
    if k == 0 {
      CutIsLeft(fs[0], n);
    } else {
      CutAllAt(fs[1..], if size <= n then n - size else 0, k - 1);
    }
  }

  /** So a field that fits is exact. */
  lemma LeftWhole(f: Field, g: Field, n: nat)
    requires f.Valid() && LeftOf(f, g, n) && n >= |f.Encode()|
    ensures g == f
  {
    hide Le, EncodeItems, Pow256, ItemsLeft;
    if f.Fixed? {
      AllItemsLeft(f.items, g.items, f.width, n);
    } else if f.Vector? || f.Fifo? {
      AllItemsLeft(f.items, g.items, f.width, n - 4);
    }
  }

  lemma AllItemsLeft(items: seq<nat>, left: seq<nat>, width: nat, n: nat)
    requires ItemsLeft(items, left, width, n) && n >= |items| * width
    ensures left == items
  {
    forall i | 0 <= i < |items|
      ensures left[i] == items[i]
    {
      RowBefore(i + 1, |items|, width);
    }
  }
}
