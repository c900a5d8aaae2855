/** The save-state wrapper of src/common/state_wrapper.h:34-167 and src/common/state_wrapper.cpp:15-44:
    one routine per type that writes the value or reads it back, with an error flag that sticks. */
module StateWrapper {
  import opened Arithmetic
  import opened Common
  import opened SaveState

  // ---------------------------------------------------------------- the format

  /** Little-endian bytes of a scalar. */
  function Le(value: nat, width: nat): (b: seq<Byte>)
    ensures |b| == width
  {
    if width == 0 then [] else [value % 256] + Le(value / 256, width - 1)
  }

  function FromLe(b: seq<Byte>): nat {
    if b == [] then 0 else b[0] + 256 * FromLe(b[1..])
  }

  function Pow256(n: nat): (p: nat)
    ensures p > 0
  {
    if n == 0 then 1 else 256 * Pow256(n - 1)
  }

  lemma {:induction false} LeRoundTrip(value: nat, width: nat)
    requires value < Pow256(width)
    ensures FromLe(Le(value, width)) == value
    decreases width
  {
    if width > 0 {
      LeRoundTrip(value / 256, width - 1);
      assert Le(value, width)[1..] == Le(value / 256, width - 1);
    }
  }

  /** The i-th of these bytes is the i-th digit to the base 256, the lowest first. */
  function Digit(value: nat, i: nat): nat { value / Pow256(i) % 256 }

  lemma {:induction false} LeDigits(value: nat, width: nat, i: nat)
    requires i < width
    ensures Le(value, width)[i] == Digit(value, i)
    decreases width
  {
    if i > 0 {
      LeDigits(value / 256, width - 1, i - 1);
      Quotients(value, Pow256(i - 1));
    }
  }

  lemma Quotients(v: nat, p: nat)
    requires p > 0
    ensures v / 256 / p == v / (256 * p)
  {
    var q, r := v / 256 / p, v / 256 % p;
    assert v / 256 == p * q + r;
    assert v == 256 * p * q + (256 * r + v % 256);
    assert 256 * r + v % 256 < 256 * p;
    DivMod(v, 256 * p, q, 256 * r + v % 256);
  }

  lemma {:induction false} FromLeDigits(b: seq<Byte>, i: nat)
    requires i < |b|
    ensures Digit(FromLe(b), i) == b[i]
    decreases |b|
  {
    var v := FromLe(b);
    assert v / 256 == FromLe(b[1..]);
    if i > 0 {
      FromLeDigits(b[1..], i - 1);
      Quotients(v, Pow256(i - 1));
    }
  }

  lemma {:induction false} FromLeBound(b: seq<Byte>)
    ensures FromLe(b) < Pow256(|b|)
    decreases |b|
  {
    if b != [] {
      FromLeBound(b[1..]);
    }
  }

  /** A piece of state, by its value. Enumerations and plain records are scalars of their width; a queue
      is saved from its head on, like a vector of its elements. */
  datatype Field =
    | Scalar(width: nat, value: nat)
    | Flag(on: bool)
    | Fixed(width: nat, items: seq<nat>)
    | Vector(width: nat, items: seq<nat>)
    | Fifo(width: nat, items: seq<nat>)
  {
    predicate Valid() {
      match this
      case Scalar(w, v) => w > 0 && v < Pow256(w)
      case Flag(_) => true
      case Fixed(w, items) => w > 0 && forall i :: 0 <= i < |items| ==> items[i] < Pow256(w)
      case Vector(w, items) => w > 0 && |items| < WORD_RANGE && forall i :: 0 <= i < |items| ==> items[i] < Pow256(w)
      case Fifo(w, items) => w > 0 && |items| < WORD_RANGE && forall i :: 0 <= i < |items| ==> items[i] < Pow256(w)
    }

    function Encode(): seq<Byte> {
      match this
      case Scalar(w, v) => Le(v, w)
      case Flag(on) => [if on then 1 else 0]
      case Fixed(w, items) => EncodeItems(items, w)
      case Vector(w, items) => Le(|items|, 4) + EncodeItems(items, w)
      case Fifo(w, items) => Le(|items|, 4) + EncodeItems(items, w)
    }

    /** Of the same type, but with any value; a fixed array keeps its length. */
    predicate SameShape(f: Field) {
      match this
      case Scalar(w, _) => f.Scalar? && f.width == w
      case Flag(_) => f.Flag?
      case Fixed(w, items) => f.Fixed? && f.width == w && |f.items| == |items|
      case Vector(w, _) => f.Vector? && f.width == w
      case Fifo(w, _) => f.Fifo? && f.width == w
    }

    /** What is left of the field when only its first n bytes can be read: what fits is exact, the rest
        is zero. */
    function Cut(n: nat): Field {
      match this
      case Scalar(w, v) => Scalar(w, if w <= n then v else 0)
      case Flag(on) => Flag(on && n >= 1)
      case Fixed(w, items) => Fixed(w, CutItems(items, w, n))
      case Vector(w, items) => Vector(w, if n < 4 then [] else CutItems(items, w, n - 4))
      case Fifo(w, items) => Fifo(w, if n < 4 then [] else CutItems(items, w, n - 4))
    }
  }

  function EncodeItems(items: seq<nat>, width: nat): (b: seq<Byte>)
    ensures |b| == |items| * width
  {
    if items == [] then []
    else
      assert |items| * width == (|items| - 1) * width + width;
      Le(items[0], width) + EncodeItems(items[1..], width)
  }

  function CutItems(items: seq<nat>, width: nat, n: nat): (r: seq<nat>)
    ensures |r| == |items|
  {
    if items == [] then []
    else if width <= n then [items[0]] + CutItems(items[1..], width, n - width)
    else [0] + CutItems(items[1..], width, 0)
  }

  function EncodeAll(fs: seq<Field>): seq<Byte> {
    if fs == [] then [] else fs[0].Encode() + EncodeAll(fs[1..])
  }

  function CutAll(fs: seq<Field>, n: nat): (r: seq<Field>)
    ensures |r| == |fs|
  {
    if fs == [] then []
    else [fs[0].Cut(n)] + CutAll(fs[1..], if |fs[0].Encode()| <= n then n - |fs[0].Encode()| else 0)
  }

  // ---------------------------------------------------------------- reading

  datatype Reader = Reader(data: seq<Byte>, position: nat, error: bool) {
    predicate Valid() { position <= |data| }

    function Left(): nat
      requires Valid()
    {
      if error then 0 else |data| - position
    }
  }

  /** Do on a scalar: zero once an error has occurred; a short read is an error and uses up the rest. */
  function ReadScalar(r: Reader, width: nat): (o: (nat, Reader))
    requires r.Valid()
    ensures o.1.Valid() && o.1.data == r.data
  {
    if r.error then (0, r)
    else if r.position + width <= |r.data| then
      (FromLe(r.data[r.position..r.position + width]), r.(position := r.position + width))
    else (0, Reader(r.data, |r.data|, true))
  }

  function ReadFlag(r: Reader): (o: (bool, Reader))
    requires r.Valid()
    ensures o.1.Valid() && o.1.data == r.data
  {
    if r.error then (false, r)
    else if r.position < |r.data| then (r.data[r.position] != 0, r.(position := r.position + 1))
    else (false, r.(error := true))
  }

  function ReadItems(r: Reader, width: nat, count: nat): (o: (seq<nat>, Reader))
    requires r.Valid()
    ensures o.1.Valid() && o.1.data == r.data && |o.0| == count
    decreases count
  {
    if count == 0 then ([], r)
    else
      var (v, s) := ReadScalar(r, width);
      var (rest, t) := ReadItems(s, width, count - 1);
      ([v] + rest, t)
  }

  function ReadField(r: Reader, shape: Field): (o: (Field, Reader))
    requires r.Valid()
    ensures o.1.Valid() && o.1.data == r.data
  {
    match shape
    case Scalar(w, _) => var (v, s) := ReadScalar(r, w); (Scalar(w, v), s)
    case Flag(_) => var (on, s) := ReadFlag(r); (Flag(on), s)
    case Fixed(w, items) => var (v, s) := ReadItems(r, w, |items|); (Fixed(w, v), s)
    case Vector(w, _) =>
      var (n, s) := ReadScalar(r, 4);
      var (v, t) := ReadItems(s, w, n);
      (Vector(w, v), t)
    case Fifo(w, _) =>
      var (n, s) := ReadScalar(r, 4);
      var (v, t) := ReadItems(s, w, n);
      (Fifo(w, v), t)
  }

  function ReadAll(r: Reader, shapes: seq<Field>): (o: (seq<Field>, Reader))
    requires r.Valid()
    ensures o.1.Valid() && o.1.data == r.data && |o.0| == |shapes|
    decreases |shapes|
  {
    if shapes == [] then ([], r)
    else
      var (f, s) := ReadField(r, shapes[0]);
      var (rest, t) := ReadAll(s, shapes[1..]);
      ([f] + rest, t)
  }

  // ---------------------------------------------------------------- what is read from a prefix

  /** The reader stands before the first n bytes of `bytes`; with an error, n is 0. */
  ghost predicate Before(r: Reader, bytes: seq<Byte>, n: nat) {
    r.Valid() && n == r.Left() && n <= |bytes| && (!r.error ==> r.data[r.position..] == bytes[..n])
  }

  /** After reading something of `size` bytes: the reader stands behind it, or has failed. */
  ghost predicate After(r: Reader, s: Reader, bytes: seq<Byte>, n: nat, size: nat) {
    && s.Valid() && s.data == r.data && size <= |bytes|
    && s.error == (r.error || n < size)
    && Before(s, bytes[size..], if s.error then 0 else n - size)
  }

  lemma ScalarCut(r: Reader, bytes: seq<Byte>, n: nat, width: nat, value: nat)
    requires Before(r, bytes, n) && width > 0 && value < Pow256(width)
    requires width <= |bytes| && bytes[..width] == Le(value, width)
    ensures var (v, s) := ReadScalar(r, width); v == (if width <= n then value else 0) && After(r, s, bytes, n, width)
  {
    hide FromLe, Le, Pow256;
    if !r.error && width <= n {
      assert r.data[r.position..r.position + width] == bytes[..n][..width] == bytes[..width];
      LeRoundTrip(value, width);
      assert r.data[r.position + width..] == r.data[r.position..][width..] == bytes[..n][width..] == bytes[width..][..n - width];
    }
  }

  lemma FlagCut(r: Reader, bytes: seq<Byte>, n: nat, on: bool)
    requires Before(r, bytes, n) && |bytes| >= 1 && bytes[0] == (if on then 1 else 0)
    ensures var (v, s) := ReadFlag(r); v == (on && n >= 1) && After(r, s, bytes, n, 1)
  {
    if !r.error && n >= 1 {
      assert r.data[r.position] == r.data[r.position..][0] == bytes[..n][0];
      assert r.data[r.position + 1..] == r.data[r.position..][1..] == bytes[..n][1..] == bytes[1..][..n - 1];
    }
  }

  lemma {:induction false} ItemsCut(r: Reader, bytes: seq<Byte>, n: nat, width: nat, items: seq<nat>)
    requires Before(r, bytes, n) && width > 0 && (forall i :: 0 <= i < |items| ==> items[i] < Pow256(width))
    requires |EncodeItems(items, width)| <= |bytes| && bytes[..|EncodeItems(items, width)|] == EncodeItems(items, width)
    ensures var (v, s) := ReadItems(r, width, |items|);
            v == CutItems(items, width, n) && After(r, s, bytes, n, |EncodeItems(items, width)|)
    decreases |items|
  {
    hide Le, Pow256, ReadScalar;
    if items == [] {
      assert bytes[0..] == bytes;
    } else {
      var e, rest := EncodeItems(items, width), EncodeItems(items[1..], width);
      assert e == Le(items[0], width) + rest;
      assert bytes[..width] == e[..width] == Le(items[0], width);
      ScalarCut(r, bytes, n, width, items[0]);
      var s := ReadScalar(r, width).1;
      var m := if s.error then 0 else n - width;
      assert bytes[width..][..|rest|] == bytes[..|e|][width..] == rest;
      ItemsCut(s, bytes[width..], m, width, items[1..]);
      assert bytes[width..][|rest|..] == bytes[|e|..];
      CutZero(items[1..], width);
    }
  }

  /** Nothing left: all items are zero, however often nothing is left. */
  lemma CutZero(items: seq<nat>, width: nat)
    requires width > 0
    ensures CutItems(items, width, 0) == seq(|items|, _ => 0)
  {
  }

  lemma FieldCut(r: Reader, bytes: seq<Byte>, n: nat, f: Field, shape: Field)
    requires Before(r, bytes, n) && f.Valid() && f.SameShape(shape)
    requires |f.Encode()| <= |bytes| && bytes[..|f.Encode()|] == f.Encode()
    ensures var (v, s) := ReadField(r, shape); v == f.Cut(n) && After(r, s, bytes, n, |f.Encode()|)
  {
    hide Le, Pow256, FromLe, EncodeItems, ReadItems, ReadScalar, CutItems, ReadFlag;
    match f
    case Scalar(w, v) => ScalarCut(r, bytes, n, w, v);
    case Flag(on) =>
      assert bytes[0] == bytes[..1][0];
      FlagCut(r, bytes, n, on);
    case Fixed(w, items) => ItemsCut(r, bytes, n, w, items);
    case Vector(w, items) => VectorCut(r, bytes, n, w, items);
    case Fifo(w, items) => VectorCut(r, bytes, n, w, items);
  }

  lemma VectorCut(r: Reader, bytes: seq<Byte>, n: nat, w: nat, items: seq<nat>)
    requires Before(r, bytes, n) && Vector(w, items).Valid()
    requires var e := Le(|items|, 4) + EncodeItems(items, w); |e| <= |bytes| && bytes[..|e|] == e
    ensures var (count, s) := ReadScalar(r, 4);
            var (v, t) := ReadItems(s, w, count);
            v == (if n < 4 then [] else CutItems(items, w, n - 4)) && After(r, t, bytes, n, 4 + |EncodeItems(items, w)|)
  {
    Pow256Four();
    hide Le, Pow256, FromLe, EncodeItems, ReadScalar, CutItems, ReadItems;
    var e := Le(|items|, 4) + EncodeItems(items, w);
    assert bytes[..4] == bytes[..|e|][..4] == Le(|items|, 4);
    ScalarCut(r, bytes, n, 4, |items|);
    var s := ReadScalar(r, 4).1;
    if n < 4 || r.error {
      NoItems(s, w);
      assert After(r, s, bytes, n, 4);
      SkipMore(r, s, bytes, n, 4, 4 + |EncodeItems(items, w)|);
    } else {
      assert bytes[4..][..|EncodeItems(items, w)|] == bytes[..|e|][4..] == EncodeItems(items, w);
      ItemsCut(s, bytes[4..], n - 4, w, items);
      assert bytes[4..][|EncodeItems(items, w)|..] == bytes[|e|..];
    }
  }

  lemma Pow256Four()
    ensures Pow256(4) == WORD_RANGE
  {
    assert Pow256(2) == 65536;
  }

  lemma NoItems(s: Reader, w: nat)
    requires s.Valid()
    ensures ReadItems(s, w, 0) == ([], s)
  {
  }

  /** A reader that has failed on a part has failed on the whole. */
  lemma SkipMore(r: Reader, s: Reader, bytes: seq<Byte>, n: nat, part: nat, whole: nat)
    requires After(r, s, bytes, n, part) && s.error && part <= whole <= |bytes| && (r.error || n < part)
    ensures After(r, s, bytes, n, whole)
  {
  }

  /** Reading back any prefix of what was written: every field comes out cut to the bytes that are there,
      and the error flag says whether anything is missing. */
  lemma {:induction false} PrefixRead(r: Reader, n: nat, fs: seq<Field>, shapes: seq<Field>)
    requires Before(r, EncodeAll(fs), n) && |shapes| == |fs|
    requires forall i :: 0 <= i < |fs| ==> fs[i].Valid() && fs[i].SameShape(shapes[i])
    ensures var (v, s) := ReadAll(r, shapes);
            v == CutAll(fs, n) && s.error == (r.error || n < |EncodeAll(fs)|)
    decreases |fs|
  {
    hide ReadField, Field.Encode, Field.Cut, Field.Valid, Field.SameShape;
    if fs != [] {
      var e, rest := fs[0].Encode(), EncodeAll(fs[1..]);
      var bytes := EncodeAll(fs);
      assert bytes[..|e|] == e && bytes[|e|..] == rest;
      FieldCut(r, bytes, n, fs[0], shapes[0]);
      var s := ReadField(r, shapes[0]).1;
      var m := if s.error then 0 else n - |e|;
      PrefixRead(s, m, fs[1..], shapes[1..]);
    }
  }

  lemma {:induction false} CutWhole(fs: seq<Field>)
    requires forall i :: 0 <= i < |fs| ==> fs[i].Valid()
    ensures CutAll(fs, |EncodeAll(fs)|) == fs
    decreases |fs|
  {
    if fs != [] {
      CutWholeField(fs[0], |EncodeAll(fs)|);
      CutWhole(fs[1..]);
    }
  }

  lemma CutWholeField(f: Field, n: nat)
    requires n >= |f.Encode()| && f.Valid()
    ensures f.Cut(n) == f
  {
    hide Le, EncodeItems, CutItems, Pow256;
    if f.Fixed? {
      CutWholeItems(f.items, f.width, n);
    } else if f.Vector? || f.Fifo? {
      CutWholeItems(f.items, f.width, n - 4);
    }
  }

  lemma {:induction false} CutWholeItems(items: seq<nat>, width: nat, n: nat)
    requires n >= |EncodeItems(items, width)|
    ensures CutItems(items, width, n) == items
    decreases |items|
  {
    if items != [] {
      CutWholeItems(items[1..], width, n - width);
    }
  }

  /** A whole state is restored exactly, without error, whatever the fields held before. */
  lemma RoundTrip(fs: seq<Field>, shapes: seq<Field>)
    requires |shapes| == |fs| && forall i :: 0 <= i < |fs| ==> fs[i].Valid() && fs[i].SameShape(shapes[i])
    ensures var (v, s) := ReadAll(Reader(EncodeAll(fs), 0, false), shapes); v == fs && !s.error
  {
    var r := Reader(EncodeAll(fs), 0, false);
    assert r.data[0..] == EncodeAll(fs)[..|EncodeAll(fs)|];
    PrefixRead(r, |EncodeAll(fs)|, fs, shapes);
    CutWhole(fs);
  }

  /** A truncated state is restored as far as it goes, and always reports an error. */
  lemma TruncatedRead(fs: seq<Field>, shapes: seq<Field>, n: nat)
    requires |shapes| == |fs| && forall i :: 0 <= i < |fs| ==> fs[i].Valid() && fs[i].SameShape(shapes[i])
    requires n < |EncodeAll(fs)|
    ensures var (v, s) := ReadAll(Reader(EncodeAll(fs)[..n], 0, false), shapes); v == CutAll(fs, n) && s.error
  {
    var r := Reader(EncodeAll(fs)[..n], 0, false);
    assert r.data[0..] == EncodeAll(fs)[..n];
    PrefixRead(r, n, fs, shapes);
  }

  // ---------------------------------------------------------------- values and queues

  /** An argument of Do: a variable, by its value, or a queue, which is updated in place. */
  datatype Piece = Value(field: Field) | Queue(width: nat, fifo: FifoQueue<nat>)

  ghost function ObjectsOf(p: Piece): set<object> { if p.Queue? then {p.fifo, p.fifo.data} else {} }

  ghost function Objects(ps: seq<Piece>): set<object> {
    if ps == [] then {} else ObjectsOf(ps[0]) + Objects(ps[1..])
  }

  ghost predicate ReadyOne(p: Piece)
    reads ObjectsOf(p)
  {
    match p
    case Value(f) => !f.Fifo? && (f.Flag? || f.width > 0)
    case Queue(width, fifo) => width > 0 && fifo.Valid()
  }

  /** The queues are valid and distinct. */
  ghost predicate Ready(ps: seq<Piece>)
    reads Objects(ps)
  {
    ps == [] || (ReadyOne(ps[0]) && Ready(ps[1..]) && ObjectsOf(ps[0]) !! Objects(ps[1..]))
  }

  /** The value of a piece. */
  ghost function View(p: Piece): Field
    requires ReadyOne(p)
    reads ObjectsOf(p)
  {
    match p
    case Value(f) => f
    case Queue(width, fifo) => Fifo(width, fifo.Contents())
  }

  ghost function Views(ps: seq<Piece>): (fs: seq<Field>)
    requires Ready(ps)
    reads Objects(ps)
    ensures |fs| == |ps|
  {
    if ps == [] then [] else [View(ps[0])] + Views(ps[1..])
  }

  function Shape(p: Piece): Field {
    match p
    case Value(f) => f
    case Queue(width, _) => Fifo(width, [])
  }

  function Shapes(ps: seq<Piece>): (fs: seq<Field>)
    ensures |fs| == |ps|
  {
    if ps == [] then [] else [Shape(ps[0])] + Shapes(ps[1..])
  }

  /** Every queue has room for the elements that it is to get. */
  predicate HaveRoom(ps: seq<Piece>, fs: seq<Field>)
    requires |fs| == |ps|
  {
    ps == [] || ((ps[0].Queue? ==> HasRoom(ps[0], fs[0])) && HaveRoom(ps[1..], fs[1..]))
  }

  predicate HasRoom(p: Piece, f: Field)
    requires p.Queue?
  {
    f.Fifo? && |f.items| <= p.fifo.data.Length
  }

  /** Queues stay the same objects, values stay values. */
  predicate SameQueues(ps: seq<Piece>, qs: seq<Piece>) {
    |qs| == |ps| && forall i :: 0 <= i < |ps| ==> SameQueue(ps[i], qs[i])
  }

  predicate SameQueue(p: Piece, q: Piece) { q.Queue? == p.Queue? && (p.Queue? ==> q == p) }

  lemma ViewsHead(ps: seq<Piece>)
    requires Ready(ps) && ps != []
    ensures Views(ps) == [View(ps[0])] + Views(ps[1..]) && Views(ps)[0] == View(ps[0])
    ensures Views(ps)[1..] == Views(ps[1..])
    ensures Shapes(ps) == [Shape(ps[0])] + Shapes(ps[1..])
  {
  }

  lemma ReadAllHead(r: Reader, shape: Field, shapes: seq<Field>)
    requires r.Valid()
    ensures var (f, s) := ReadField(r, shape);
            var (rest, t) := ReadAll(s, shapes);
            && ReadAll(r, [shape] + shapes) == ([f] + rest, t)
            && ([f] + rest)[0] == f && ([f] + rest)[1..] == rest
  {
    hide ReadField;
    assert ([shape] + shapes)[1..] == shapes;
  }

  /** The objects are those of the pieces. */
  lemma {:induction false} ObjectsKnown(ps: seq<Piece>)
    ensures forall o :: o in Objects(ps) ==> exists i :: 0 <= i < |ps| && o in ObjectsOf(ps[i])
    decreases |ps|
  {
    if ps != [] {
      ObjectsKnown(ps[1..]);
      forall o | o in Objects(ps[1..])
        ensures exists i :: 0 <= i < |ps| && o in ObjectsOf(ps[i])
      {
        var i :| 0 <= i < |ps[1..]| && o in ObjectsOf(ps[1..][i]);
        assert ps[1..][i] == ps[i + 1];
      }
    }
  }

  lemma SameObject(p: Piece, q: Piece)
    requires SameQueue(p, q)
    ensures ObjectsOf(q) == ObjectsOf(p)
  {
  }

  lemma {:induction false} SameObjects(ps: seq<Piece>, qs: seq<Piece>)
    requires SameQueues(ps, qs)
    ensures Objects(qs) == Objects(ps)
    decreases |ps|
  {
    if ps != [] {
      assert SameQueue(ps[0], qs[0]);
      assert forall i :: 0 <= i < |ps| - 1 ==> ps[1..][i] == ps[i + 1] && qs[1..][i] == qs[i + 1];
      SameObjects(ps[1..], qs[1..]);
    }
  }

  // ---------------------------------------------------------------- the wrapper

  class StateWrapper {
    const stream: ByteStream
    const reading: bool
    var error: bool

    ghost predicate Valid()
      reads this, stream
    {
      stream.Valid()
    }

    ghost function R(): Reader
      requires Valid()
      reads this, stream
    {
      Reader(stream.Contents(), stream.position, error)
    }

    constructor (stream: ByteStream, reading: bool)
      requires stream.Valid()
      ensures Valid() && this.stream == stream && this.reading == reading && !error
    {
      this.stream, this.reading, error := stream, reading, false;
    }

    /** Do for a scalar, an enumeration or a plain record. */
    method DoScalar(width: nat, value: nat) returns (r: nat)
      requires Valid() && width > 0
      modifies this`error, stream
      ensures Valid()
      ensures reading ==> (r, R()) == ReadScalar(old(R()), width)
      ensures reading ==> ScalarRead(old(R()), R(), width, r)
      ensures !reading ==> r == value && R() == Save(old(R()), stream.kind, Le(value, width))
      ensures !reading && !old(error) && stream.kind != ReadOnly ==> ScalarWritten(old(R()), R(), width, value)
    {
      hide Le, FromLe, ScalarRead, ScalarWritten;
      ReadIsDigits(R(), width);
      WrittenIsDigits(R(), stream.kind, width, value);
      r := value;
      if reading {
        r := 0;
        if !error {
          var bytes := stream.Read(width);
          error := |bytes| != width;
          if !error {
            r := FromLe(bytes);
          }
        }
      } else if !error {
        var ok := stream.Write(Le(value, width));
        error := !ok;
      }
    }

    /** Do for a bool: any byte but zero reads as true. */
    method DoFlag(on: bool) returns (r: bool)
      requires Valid()
      modifies this`error, stream
      ensures Valid()
      ensures reading ==> (r, R()) == ReadFlag(old(R()))
      ensures reading ==> var before := old(R());
                if before.error || before.position == |before.data| then !r && error
                else !error && (r <==> before.data[before.position] > 0)
      ensures !reading ==> r == on && R() == Save(old(R()), stream.kind, [if on then 1 else 0])
    {
      r := on;
      if reading {
        r := false;
        if !error {
          var bytes := stream.Read(1);
          error := |bytes| != 1;
          if !error {
            r := bytes[0] != 0;
          }
        }
      } else if !error {
        var ok := stream.Write([if on then 1 else 0]);
        error := !ok;
      }
    }

    /** DoArray. */
    method DoArray(width: nat, items: seq<nat>) returns (r: seq<nat>)
      requires Valid() && width > 0
      modifies this`error, stream
      ensures Valid()
      ensures reading ==> (r, R()) == ReadItems(old(R()), width, |items|)
      ensures !reading ==> r == items && R() == Save(old(R()), stream.kind, EncodeItems(items, width))
    {
      hide ReadScalar, ReadItems, Save, Le, EncodeItems;
      ghost var start := R();
      ItemsNone(start, stream.kind, items, width);
      r := [];
      for i := 0 to |items|
        invariant Valid() && |r| == i
        invariant reading ==> (r, R()) == ReadItems(start, width, i)
        invariant !reading ==> r == items[..i] && R() == Save(start, stream.kind, EncodeItems(items[..i], width))
      {
        ItemsNext(start, stream.kind, items, width, i);
        var v := DoScalar(width, items[i]);
        r := r + [v];
      }
      assert items[..|items|] == items;
    }

    /** Do for a vector: its length, then its elements. */
    method DoVector(width: nat, items: seq<nat>) returns (r: seq<nat>)
      requires Valid() && width > 0
      modifies this`error, stream
      ensures Valid()
      ensures reading ==> (Vector(width, r), R()) == ReadField(old(R()), Vector(width, items))
      ensures !reading ==> r == items && R() == Save(old(R()), stream.kind, Vector(width, items).Encode())
    {
      hide ReadScalar, ReadItems, Save, Le, EncodeItems;
      ghost var start := R();
      SaveTwice(start, stream.kind, Le(|items|, 4), EncodeItems(items, width));
      var length := DoScalar(4, |items|);
      r := items;
      if reading {
        r := seq(length, _ => 0);
      }
      r := DoArray(width, r);
    }

    /** Do for any value but a queue. */
    method DoField(f: Field) returns (g: Field)
      requires Valid() && !f.Fifo? && (f.Flag? || f.width > 0)
      modifies this`error, stream
      ensures Valid()
      ensures reading ==> (g, R()) == ReadField(old(R()), f)
      ensures !reading ==> g == f && R() == Save(old(R()), stream.kind, f.Encode())
    {
      hide ReadScalar, ReadItems, ReadFlag, Save, Le, EncodeItems;
      match f
      case Scalar(w, v) =>
        var r := DoScalar(w, v);
        g := Scalar(w, r);
      case Flag(on) =>
        var r := DoFlag(on);
        g := Flag(r);
      case Fixed(w, items) =>
        var r := DoArray(w, items);
        g := Fixed(w, r);
      case Vector(w, items) =>
        var r := DoVector(w, items);
        g := Vector(w, r);
    }

    /** Any list of values and queues, one after the other. A queue that is loaded has to have room for
        the elements that were saved. */
    method DoAll(ps: seq<Piece>) returns (qs: seq<Piece>)
      requires Valid() && Ready(ps) && this !in Objects(ps) && stream !in Objects(ps)
      requires reading ==> HaveRoom(ps, ReadAll(R(), Shapes(ps)).0)
      modifies this`error, stream, Objects(ps)
      ensures Valid() && SameQueues(ps, qs) && Ready(qs)
      ensures reading ==> (Views(qs), R()) == ReadAll(old(R()), Shapes(ps))
      ensures !reading ==>
                qs == ps && Views(qs) == old(Views(ps)) && R() == Save(old(R()), stream.kind, EncodeAll(old(Views(ps))))
      decreases |ps|
    {
      hide ReadField, Save, Field.Encode, View, ReadyOne, SameQueue, HasRoom, Shape;
      ObjectsKnown(ps);
      assert forall o :: o in Objects(ps) ==> allocated(o);
      hide ObjectsOf, ReadAll;
      ghost var start := R();
      AllNone(start, stream.kind, Views(ps));
      if ps == [] {
        return [];
      }
      SaveTwice(start, stream.kind, View(ps[0]).Encode(), EncodeAll(Views(ps[1..])));
      ViewsHead(ps);
      ReadAllHead(start, Shape(ps[0]), Shapes(ps[1..]));
      var q := DoPiece(ps[0]);
      var rest := DoAll(ps[1..]);
      SameObjects(ps[1..], rest);
      SameObject(ps[0], q);
      qs := [q] + rest;
      assert qs[1..] == rest;
      ViewsHead(qs);
    }

    /** Do for a value or a queue. */
    method DoPiece(p: Piece) returns (q: Piece)
      requires Valid() && ReadyOne(p) && this !in ObjectsOf(p) && stream !in ObjectsOf(p)
      requires reading && p.Queue? ==> HasRoom(p, ReadField(R(), Shape(p)).0)
      modifies this`error, stream, ObjectsOf(p)
      ensures Valid() && ReadyOne(q) && SameQueue(p, q)
      ensures reading ==> (View(q), R()) == ReadField(old(R()), Shape(p))
      ensures !reading ==>
                q == p && View(q) == old(View(p)) && R() == Save(old(R()), stream.kind, old(View(p)).Encode())
    {
      hide ReadScalar, ReadItems, ReadFlag, Save, Le, EncodeItems, FifoQueue.Valid, FifoQueue.Contents;
      match p
      case Value(f) =>
        var g := DoField(f);
        q := Value(g);
      case Queue(width, fifo) =>
        DoFifo(width, fifo);
        q := p;
    }

    /** Do for a ring queue: saved from wherever its head is, restored to an empty queue. The saved size is
        not checked: above the capacity the queue is broken afterwards, and above twice the capacity the
        source would write behind its storage. */
    method DoFifo(width: nat, queue: FifoQueue<nat>)
      requires Valid() && queue.Valid() && width > 0
      requires reading ==> ReadScalar(R(), 4).0 <= 2 * queue.data.Length
      modifies this`error, stream, queue, queue.data
      ensures Valid() && (queue.Valid() <==> reading ==> ReadScalar(old(R()), 4).0 <= queue.data.Length)
      ensures reading ==> R() == ReadField(old(R()), Fifo(width, [])).1
      ensures reading && queue.Valid() ==> Fifo(width, queue.Contents()) == ReadField(old(R()), Fifo(width, [])).0
      ensures !reading ==> queue.Contents() == old(queue.Contents())
                           && R() == Save(old(R()), stream.kind, Fifo(width, queue.Contents()).Encode())
    {
      hide ReadScalar, ReadItems, Save, Le, EncodeItems, Window, FifoQueue.Valid, FifoQueue.Contents;
      SizeOf(queue);
      var size := queue.size;
      ghost var start, items := R(), queue.Contents();
      SaveTwice(start, stream.kind, Le(size, 4), EncodeItems(items, width));
      size := DoScalar(4, size);
      if reading {
        var temp := DoArray(width, seq(size, _ => 0));
        RefillFifo(queue, temp);
      } else {
        SaveFifoItems(width, queue);
      }
    }

    /** The loop that saves a queue's elements from the head on. */
    method SaveFifoItems(width: nat, queue: FifoQueue<nat>)
      requires Valid() && queue.Valid() && width > 0 && !reading
      modifies this`error, stream
      ensures Valid() && R() == Save(old(R()), stream.kind, EncodeItems(queue.Contents(), width))
    {
      hide ReadScalar, ReadItems, Save, Le, EncodeItems, Window;
      ghost var start, items := R(), queue.Contents();
      ItemsNone(start, stream.kind, items, width);
      for i := 0 to queue.size
        invariant Valid() && R() == Save(start, stream.kind, EncodeItems(items[..i], width))
      {
        ItemsNext(start, stream.kind, items, width, i);
        var v := queue.PeekAt(i);
        v := DoScalar(width, v);
      }
      assert items[..|items|] == items;
    }
  }

  /** If the bytes are there, they are the digits of what is read; otherwise that is zero, and an error. */
  predicate ScalarRead(r: Reader, s: Reader, width: nat, value: nat)
    requires r.Valid()
  {
    if r.error || r.position + width > |r.data| then value == 0 && s.error
    else !s.error && s.position == r.position + width && value < Pow256(width)
         && forall i :: 0 <= i < width ==> Digit(value, i) == r.data[r.position + i]
  }

  /** The digits of the value are written; all other bytes stay. */
  predicate ScalarWritten(r: Reader, s: Reader, width: nat, value: nat)
    requires r.Valid()
  {
    && !s.error && s.position == r.position + width <= |s.data| && |s.data| >= |r.data|
    && (forall i :: 0 <= i < width ==> s.data[r.position + i] == Digit(value, i))
    && forall i :: 0 <= i < |r.data| && !(r.position <= i < r.position + width) ==> s.data[i] == r.data[i]
  }

  lemma ReadIsDigits(r: Reader, width: nat)
    requires r.Valid()
    ensures var (v, s) := ReadScalar(r, width); ScalarRead(r, s, width, v)
  {
    hide FromLe, Pow256, Digit;
    if !r.error && r.position + width <= |r.data| {
      var b := r.data[r.position..r.position + width];
      FromLeBound(b);
      forall i | 0 <= i < width
        ensures Digit(FromLe(b), i) == r.data[r.position + i]
      {
        FromLeDigits(b, i);
      }
    }
  }

  lemma WrittenIsDigits(r: Reader, kind: StreamKind, width: nat, value: nat)
    requires r.Valid() && width > 0
    ensures !r.error && kind != ReadOnly ==> ScalarWritten(r, Save(r, kind, Le(value, width)), width, value)
  {
    hide Le, Digit;
    forall i | 0 <= i < width
      ensures Le(value, width)[i] == Digit(value, i)
    {
      LeDigits(value, width, i);
    }
  }

  lemma SizeOf(queue: FifoQueue<nat>)
    requires queue.Valid()
    ensures |queue.Contents()| == queue.size
  {
  }

  /** Clear and PushRange. */
  method RefillFifo(queue: FifoQueue<nat>, items: seq<nat>)
    requires queue.Valid() && |items| <= 2 * queue.data.Length
    modifies queue, queue.data
    ensures queue.Valid() <==> |items| <= queue.data.Length
    ensures queue.Valid() ==> queue.Contents() == items
  {
    queue.Clear();
    queue.PushRange(items);
  }

  /** What saving `bytes` does: they are written, unless an error has occurred; a stream that cannot be
      written to is one. */
  function Save(r: Reader, kind: StreamKind, bytes: seq<Byte>): (s: Reader)
    requires r.Valid()
    ensures s.Valid()
  {
    if bytes == [] || r.error then r
    else if kind == ReadOnly then r.(error := true)
    else Reader(Overwrite(r.data, r.position, bytes), r.position + |bytes|, false)
  }

  lemma SaveTwice(r: Reader, kind: StreamKind, a: seq<Byte>, b: seq<Byte>)
    requires r.Valid()
    ensures Save(Save(r, kind, a), kind, b) == Save(r, kind, a + b)
  {
    OverwriteTwice(r.data, r.position, a, b);
    if a == [] {
      assert a + b == b;
    } else if b == [] {
      assert a + b == a;
    }
  }

  lemma ItemsNone(r: Reader, kind: StreamKind, items: seq<nat>, width: nat)
    requires r.Valid()
    ensures ReadItems(r, width, 0) == ([], r) && Save(r, kind, EncodeItems(items[..0], width)) == r
  {
  }

  lemma ItemsNext(r: Reader, kind: StreamKind, items: seq<nat>, width: nat, i: nat)
    requires r.Valid() && i < |items| && width > 0
    ensures var s := ReadItems(r, width, i);
            var (v, t) := ReadScalar(s.1, width);
            ReadItems(r, width, i + 1) == (s.0 + [v], t)
    ensures Save(Save(r, kind, EncodeItems(items[..i], width)), kind, Le(items[i], width))
            == Save(r, kind, EncodeItems(items[..i + 1], width))
  {
    hide Save;
    ReadItemsNext(r, width, i);
    EncodeItemsNext(items, width, i);
    SaveTwice(r, kind, EncodeItems(items[..i], width), Le(items[i], width));
  }

  lemma {:induction false} ReadItemsNext(r: Reader, width: nat, n: nat)
    requires r.Valid()
    ensures var s := ReadItems(r, width, n);
            var (v, t) := ReadScalar(s.1, width);
            ReadItems(r, width, n + 1) == (s.0 + [v], t)
    decreases n
  {
    hide ReadScalar;
    var (v, s) := ReadScalar(r, width);
    if n == 0 {
      assert [v] + [] == [] + [v];
    } else {
      ReadItemsNext(s, width, n - 1);
      var rest := ReadItems(s, width, n - 1);
      var w := ReadScalar(rest.1, width).0;
      assert [v] + (rest.0 + [w]) == [v] + rest.0 + [w];
    }
  }

  lemma {:induction false} EncodeItemsNext(items: seq<nat>, width: nat, i: nat)
    requires i < |items|
    ensures EncodeItems(items[..i + 1], width) == EncodeItems(items[..i], width) + Le(items[i], width)
    decreases i
  {
    hide Le;
    if i == 0 {
      assert items[..1][1..] == [] && items[..0] == [];
    } else {
      EncodeItemsNext(items[1..], width, i - 1);
      assert items[..i + 1][1..] == items[1..][..i] && items[..i][1..] == items[1..][..i - 1];
    }
  }

  lemma AllNone(r: Reader, kind: StreamKind, fs: seq<Field>)
    requires r.Valid()
    ensures ReadAll(r, fs[..0]) == ([], r) && Save(r, kind, EncodeAll(fs[..0])) == r
  {
  }

  /** The pieces of one list can be loaded into those of the other: `fs` is what the first ones hold. */
  predicate Loadable(fs: seq<Field>, to: seq<Piece>) {
    && |to| == |fs|
    && (forall i :: 0 <= i < |fs| ==> fs[i].Valid() && fs[i].SameShape(Shapes(to)[i]))
    && HaveRoom(to, fs)
  }

  /** Loading a prefix of what was saved: no queue gets more elements than were saved. */
  lemma {:induction false} CutHasRoom(fs: seq<Field>, to: seq<Piece>, n: nat)
    requires |to| == |fs| && HaveRoom(to, fs)
    ensures HaveRoom(to, CutAll(fs, n))
    decreases |fs|
  {
    hide Field.Encode;
    if fs != [] {
      CutHasRoom(fs[1..], to[1..], if |fs[0].Encode()| <= n then n - |fs[0].Encode()| else 0);
    }
  }

  /** Saving any list of values and queues to a growable stream, and loading the first n bytes of it into
      variables and queues that hold anything else, at any position of their heads: what fits comes back
      exactly, all later values are zero and all later queues empty, and the error flag says whether
      anything is missing. */
  method SaveAndLoad(from: seq<Piece>, to: seq<Piece>, n: nat) returns (loaded: seq<Piece>, error: bool)
    requires Ready(from) && Ready(to) && Objects(from) !! Objects(to) && Loadable(Views(from), to)
    requires n <= |EncodeAll(Views(from))|
    modifies Objects(from), Objects(to)
    ensures Ready(from) && Views(from) == old(Views(from)) && SameQueues(to, loaded) && Ready(loaded)
    ensures Views(loaded) == CutAll(old(Views(from)), n) && error == (n < |EncodeAll(old(Views(from)))|)
    ensures n == |EncodeAll(old(Views(from)))| ==> Views(loaded) == old(Views(from))
  {
    ghost var fs := Views(from);
    hide Ready, Views, Objects, EncodeAll, CutAll, Loadable;
    assert forall o :: o in Objects(from) ==> allocated(o) by {
      ObjectsKnown(from);
    }
    assert forall o :: o in Objects(to) ==> allocated(o) by {
      ObjectsKnown(to);
    }
    hide ObjectsOf;
    var bytes := SaveAll(from);
    loaded, error := LoadAll(fs, bytes[..n], to);
  }

  /** The bytes that a growable stream ends up with. */
  method SaveAll(from: seq<Piece>) returns (bytes: seq<Byte>)
    requires Ready(from)
    modifies Objects(from)
    ensures Ready(from) && Views(from) == old(Views(from)) && bytes == EncodeAll(old(Views(from)))
  {
    hide EncodeAll, Views, Ready, Objects;
    ghost var fs, objects := Views(from), Objects(from);
    ObjectsKnown(from);
    var file := new ByteStream.Growing(0);
    var writer := new StateWrapper(file, false);
    assert file !in objects && writer !in objects;
    NothingThere(fs);
    var _ := writer.DoAll(from);
    bytes := file.memory[..file.size];
  }

  lemma NothingThere(fs: seq<Field>)
    ensures Save(Reader([], 0, false), Growable, EncodeAll(fs)).data == EncodeAll(fs)
  {
  }

  /** Loading from a prefix of the bytes that were saved. */
  method LoadAll(ghost fs: seq<Field>, bytes: seq<Byte>, to: seq<Piece>) returns (loaded: seq<Piece>, error: bool)
    requires Ready(to) && Loadable(fs, to) && bytes <= EncodeAll(fs)
    modifies Objects(to)
    ensures SameQueues(to, loaded) && Ready(loaded)
    ensures Views(loaded) == CutAll(fs, |bytes|) && error == (|bytes| < |EncodeAll(fs)|)
    ensures |bytes| == |EncodeAll(fs)| ==> Views(loaded) == fs
  {
    hide EncodeAll, CutAll, ReadAll, Views, Ready, Objects, HaveRoom, Shapes;
    ghost var objects := Objects(to);
    ObjectsKnown(to);
    var source := new ByteStream.OnMemory(bytes);
    var reader := new StateWrapper(source, true);
    assert source !in objects && reader !in objects;
    PrefixLoads(fs, Shapes(to), |bytes|);
    assert EncodeAll(fs)[..|bytes|] == bytes;
    CutHasRoom(fs, to, |bytes|);
    loaded := reader.DoAll(to);
    error := reader.error;
  }

  lemma PrefixLoads(fs: seq<Field>, shapes: seq<Field>, n: nat)
    requires |shapes| == |fs| && forall i :: 0 <= i < |fs| ==> fs[i].Valid() && fs[i].SameShape(shapes[i])
    requires n <= |EncodeAll(fs)|
    ensures var (v, s) := ReadAll(Reader(EncodeAll(fs)[..n], 0, false), shapes);
            v == CutAll(fs, n) && s.error == (n < |EncodeAll(fs)|) && (n == |EncodeAll(fs)| ==> v == fs)
  {
    if n < |EncodeAll(fs)| {
      TruncatedRead(fs, shapes, n);
    } else {
      assert EncodeAll(fs)[..n] == EncodeAll(fs);
      RoundTrip(fs, shapes);
      CutWhole(fs);
    }
  }

  /** Copying a queue through a save state keeps its contents, wherever the two heads are. */
  method CopyQueue(width: nat, from: FifoQueue<nat>, to: FifoQueue<nat>)
    requires from.Valid() && to.Valid() && from != to && from.data != to.data && width > 0
    requires from.data.Length <= to.data.Length && from.data.Length < WORD_RANGE
    requires forall i :: 0 <= i < from.size ==> from.Contents()[i] < Pow256(width)
    modifies from, from.data, to, to.data
    ensures from.Valid() && to.Valid() && to.Contents() == from.Contents() == old(from.Contents())
  {
    hide ReadScalar, ReadItems, EncodeItems, Le, Window;
    ghost var items := from.Contents();
    var file := new ByteStream.Growing(0);
    var writer := new StateWrapper(file, false);
    writer.DoFifo(width, from);
    assert file.Contents() == Fifo(width, items).Encode();
    var source := new ByteStream.OnMemory(file.memory[..file.size]);
    var reader := new StateWrapper(source, true);
    QueueBack(width, items);
    reader.DoFifo(width, to);
  }

  lemma QueueBack(width: nat, items: seq<nat>)
    requires Fifo(width, items).Valid()
    ensures var r := Reader(Fifo(width, items).Encode(), 0, false);
            ReadField(r, Fifo(width, [])).0 == Fifo(width, items) && ReadScalar(r, 4).0 == |items|
  {
    var f := Fifo(width, items);
    var r := Reader(f.Encode(), 0, false);
    hide ReadItems, EncodeItems, Le;
    Pow256Four();
    assert r.data[0..] == f.Encode()[..|f.Encode()|];
    assert f.Encode()[..4] == Le(|items|, 4);
    FieldCut(r, f.Encode(), |f.Encode()|, f, Fifo(width, []));
    ScalarCut(r, f.Encode(), |f.Encode()|, 4, |items|);
    CutWholeField(f, |f.Encode()|);
  }
}
