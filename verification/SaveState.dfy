/** Save states: memory streams (src/common/byte_stream.cpp), the ring queue (src/common/fifo_queue.h)
    and the wrapper that runs the same code for saving and loading (src/common/state_wrapper.h). */
module SaveState {
  import opened Arithmetic
  import opened Common

  const WORD_RANGE: nat := 0x1_0000_0000

  // ---------------------------------------------------------------- memory streams

  /** `data` with the bytes of src put at position p, which may extend it. */
  function Overwrite(data: seq<Byte>, p: nat, src: seq<Byte>): seq<Byte>
    requires p <= |data|
  {
    data[..p] + src + (if p + |src| <= |data| then data[p + |src|..] else [])
  }

  /** Overwriting the first n bytes, and overwriting everything and taking the first bytes. */
  lemma OverwritePrefix(m: seq<Byte>, n: nat, p: nat, src: seq<Byte>, k: nat)
    requires p <= n <= |m| && p + |src| <= |m| && k == if n > p + |src| then n else p + |src|
    ensures (m[..p] + src + m[p + |src|..])[..k] == Overwrite(m[..n], p, src)
  {
  }

  lemma OverwriteTwice(data: seq<Byte>, p: nat, a: seq<Byte>, b: seq<Byte>)
    requires p <= |data|
    ensures p + |a| <= |Overwrite(data, p, a)|
    ensures Overwrite(Overwrite(data, p, a), p + |a|, b) == Overwrite(data, p, a + b)
    ensures Overwrite(data, p, []) == data
  {
  }

  datatype StreamKind = ReadOnly | Growable

  /** A memory stream; `memory` is the allocation, of which the first `size` bytes are the stream. */
  class ByteStream {
    const kind: StreamKind
    var memory: seq<Byte>
    var size: nat
    var position: nat

    ghost predicate Valid()
      reads this
    {
      position <= size <= |memory|
    }

    ghost function Contents(): seq<Byte>
      requires Valid()
      reads this
    {
      memory[..size]
    }

    constructor OnMemory(data: seq<Byte>)
      ensures Valid() && Contents() == data && position == 0 && kind == ReadOnly
    {
      kind, memory, size, position := ReadOnly, data, |data|, 0;
    }

    constructor Growing(initialMemory: nat)
      ensures Valid() && Contents() == [] && position == 0 && kind == Growable
    {
      var n := if initialMemory < 64 then 64 else initialMemory;
      kind, memory, size, position := Growable, seq(n, _ => 0), 0, 0;
    }

    /** Read: as many bytes as there are. */
    method Read(count: nat) returns (bytes: seq<Byte>)
      requires Valid()
      modifies this`position
      ensures Valid() && old(position) <= position && bytes == Contents()[old(position)..position]
      ensures position == if old(position) + count <= size then old(position) + count else size
    {
      var n := count;
      if position + count > size {
        n := size - position;
      }
      bytes := memory[position..position + n];
      assert bytes == memory[..size][position..position + n];
      position := position + n;
    }

    /** Write2: the whole of src at the position, or nothing on a read-only stream. */
    method Write(src: seq<Byte>) returns (ok: bool)
      requires Valid()
      modifies this`memory, this`size, this`position
      ensures Valid() && ok == (kind == Growable)
      ensures ok ==> Contents() == Overwrite(old(Contents()), old(position), src) && position == old(position) + |src|
      ensures !ok ==> Contents() == old(Contents()) && position == old(position)
    {
      if kind == ReadOnly {
        return false;
      }
      if position + |src| > |memory| {
        Grow(|src|);
      }
      ghost var grown := memory;
      memory := memory[..position] + src + memory[position + |src|..];
      position := position + |src|;
      size := if size > position then size else position;
      OverwritePrefix(grown, old(size), old(position), src, size);
      ok := true;
    }

    /** Grow: at least by the given amount, and at least to twice the size. */
    method Grow(minimum: nat)
      requires Valid()
      modifies this`memory
      ensures Valid() && |memory| >= |old(memory)| + minimum && Contents() == old(Contents())
    {
      var n := if |memory| + minimum > |memory| * 2 then |memory| + minimum else |memory| * 2;
      memory := memory + seq(n - |memory|, _ => 0);
    }
  }

  // ---------------------------------------------------------------- the ring queue

  /** A position of a ring of n slots, wrapped around once. */
  function Slot(x: nat, n: nat): nat { if x < n then x else x - n }

  /** The n elements of a ring from its head on. */
  function Window<T>(d: seq<T>, head: nat, n: nat): (w: seq<T>)
    requires head < |d| && n <= |d|
    ensures |w| == n && forall i :: 0 <= i < n ==> w[i] == d[Slot(head + i, |d|)]
  {
    if n == 0 then [] else Window(d, head, n - 1) + [d[Slot(head + n - 1, |d|)]]
  }

  /** A block copy of values to position `at` of d gives e. */
  ghost predicate Copied<T>(d: seq<T>, e: seq<T>, at: nat, values: seq<T>) {
    |e| == |d| && forall k :: 0 <= k < |d| ==> e[k] == if at <= k < at + |values| then values[k - at] else d[k]
  }

  lemma CopyNothing<T>(d: seq<T>, at: nat)
    ensures Copied(d, d, at, [])
  {
  }

  /** Two block copies at the end of the window, the second one from the start of the storage. */
  lemma WindowGrows<T>(d: seq<T>, c: seq<T>, e: seq<T>, head: nat, n: nat, values: seq<T>, beforeEnd: nat)
    requires head < |d| == |e| && n + |values| <= |d| && beforeEnd <= |values|
    requires var tail := Slot(head + n, |d|); beforeEnd <= |d| - tail && (beforeEnd < |values| ==> beforeEnd == |d| - tail)
    requires Copied(d, c, Slot(head + n, |d|), values[..beforeEnd]) && Copied(c, e, 0, values[beforeEnd..])
    ensures Window(e, head, n + |values|) == Window(d, head, n) + values
  {
    hide Window;
    var w, v := Window(e, head, n + |values|), Window(d, head, n) + values;
    forall i | 0 <= i < n + |values|
      ensures w[i] == v[i]
    {
      assert w[i] == e[Slot(head + i, |d|)];
    }
  }

  lemma TailInside(head: nat, n: nat, ring: nat)
    requires head < ring && n <= ring
    ensures Slot(head + n, ring) < ring
  {
  }

  /** Where the tail goes when k elements are put in at the end of a window of n, in two copies. */
  lemma TailMoves(head: nat, n: nat, k: nat, ring: nat)
    requires head < ring && n + k <= ring
    ensures var tail := Slot(head + n, ring);
            var beforeEnd := if k > ring - tail then ring - tail else k;
            && tail < ring && beforeEnd <= k
            && (beforeEnd == k ==> (tail + beforeEnd) % ring == Slot(head + n + k, ring))
            && (beforeEnd < k ==>
                  (tail + beforeEnd) % ring == 0 && k - beforeEnd == (k - beforeEnd) % ring == Slot(head + n + k, ring))
  {
    var tail := Slot(head + n, ring);
    var beforeEnd := if k > ring - tail then ring - tail else k;
    Wrap(tail + beforeEnd, ring);
    Wrap(k - beforeEnd, ring);
  }

  lemma WindowShrinks<T>(d: seq<T>, head: nat, n: nat)
    requires head < |d| && 0 < n <= |d|
    ensures Window(d, head, n) == [d[head]] + Window(d, Slot(head + 1, |d|), n - 1)
  {
    hide Window;
  }

  class FifoQueue<T(0)> {
    const data: array<T>
    var head: nat
    var tail: nat
    var size: nat

    ghost predicate Valid()
      reads this
    {
      data.Length > 0 && head < data.Length && size <= data.Length && tail == Slot(head + size, data.Length)
    }

    /** The elements from the head on. */
    ghost function Contents(): (s: seq<T>)
      requires Valid()
      reads this, data
    {
      Window(data[..], head, size)
    }

    constructor (capacity: nat)
      requires capacity > 0
      ensures Valid() && Contents() == [] && data.Length == capacity && fresh(data)
    {
      data := new T[capacity];
      head, tail, size := 0, 0, 0;
    }

    method Clear()
      requires data.Length > 0
      modifies this`head, this`tail, this`size
      ensures Valid() && Contents() == [] && head == tail == size == 0
    {
      head, tail, size := 0, 0, 0;
    }

    method Push(value: T)
      requires Valid() && size < data.Length
      modifies this`tail, this`size, data
      ensures Valid() && Contents() == old(Contents()) + [value]
    {
      hide Window;
      ghost var d := data[..];
      Wrap(tail + 1, data.Length);
      data[tail] := value;
      CopyNothing(data[..], 0);
      WindowGrows(d, data[..], data[..], head, size, [value], 1);
      tail := (tail + 1) % data.Length;
      size := size + 1;
    }

    /** PushRange: two block copies, the second one from the start of the storage. There is no check: with
        more elements than there is room for, the size no longer fits the storage, and if the second copy
        alone is longer than the storage it would run over its end. */
    method PushRange(values: seq<T>)
      requires Valid() && |values| <= 2 * data.Length - tail
      modifies this`tail, this`size, data
      ensures Valid() <==> old(size) + |values| <= data.Length
      ensures Valid() ==> Contents() == old(Contents()) + values
      ensures size == old(size) + |values|
    {
      hide Window, Copied, Slot;
      TailInside(head, size, data.Length);
      ghost var d := data[..];
      ghost var c := CopyTwice(values);
      if size + |values| <= data.Length {
        ghost var tail' := Slot(head + size, data.Length);
        TailMoves(head, size, |values|, data.Length);
        WindowGrows(d, c, data[..], head, size, values, if |values| > data.Length - tail' then data.Length - tail' else |values|);
      }
      size := size + |values|;
    }

    /** The copies of PushRange, with the storage in between. */
    method CopyTwice(values: seq<T>) returns (ghost between: seq<T>)
      requires tail < data.Length && |values| <= 2 * data.Length - tail
      modifies this`tail, data
      ensures var room := data.Length - old(tail);
              var n := if |values| > room then room else |values|;
              && Copied(old(data[..]), between, old(tail), values[..n]) && Copied(between, data[..], 0, values[n..])
              && tail == if |values| > room then (|values| - n) % data.Length else (old(tail) + n) % data.Length
    {
      hide Copied;
      var beforeEnd := if |values| > data.Length - tail then data.Length - tail else |values|;
      var afterEnd := |values| - beforeEnd;
      CopyIn(tail, values[..beforeEnd]);
      between := data[..];
      Wrap(tail + beforeEnd, data.Length);
      tail := (tail + beforeEnd) % data.Length;
      if afterEnd > 0 {
        assert tail == 0;
        CopyIn(tail, values[beforeEnd..]);
        tail := (tail + afterEnd) % data.Length;
      } else {
        assert values[beforeEnd..] == [];
        CopyNothing(between, 0);
      }
    }

    /** memcpy into the storage. */
    method CopyIn(at: nat, values: seq<T>)
      requires at + |values| <= data.Length
      modifies data
      ensures Copied(old(data[..]), data[..], at, values)
    {
      forall i | 0 <= i < |values| {
        data[at + i] := values[i];
      }
    }

    method Pop() returns (value: T)
      requires Valid() && size > 0
      modifies this`head, this`size
      ensures Valid() && [value] + Contents() == old(Contents())
    {
      hide Window;
      value := data[head];
      WindowShrinks(data[..], head, size);
      Wrap(head + 1, data.Length);
      head := (head + 1) % data.Length;
      size := size - 1;
    }

    /** PopRange. */
    method PopRange(count: nat) returns (values: seq<T>)
      requires Valid() && count <= size
      modifies this`head, this`size
      ensures Valid() && |values| == count && values + Contents() == old(Contents())
    {
      hide Window;
      values := [];
      for i := 0 to count
        invariant Valid() && |values| == i && size == old(size) - i && values + Contents() == old(Contents())
      {
        var v := Pop();
        values := values + [v];
      }
    }

    /** Remove. */
    method Remove(count: nat)
      requires Valid() && count <= size
      modifies this`head, this`size
      ensures Valid() && Contents() == old(Contents())[count..]
    {
      hide Window;
      ghost var dropped := [];
      for i := 0 to count
        invariant Valid() && |dropped| == i && size == old(size) - i && dropped + Contents() == old(Contents())
      {
        var v := Pop();
        dropped := dropped + [v];
      }
    }

    /** Peek at an offset from the head. */
    method PeekAt(offset: nat) returns (value: T)
      requires Valid() && offset < size
      ensures value == Contents()[offset]
    {
      Wrap(head + offset, data.Length);
      value := data[(head + offset) % data.Length];
    }

    /** PushFromQueue: elements move over until one queue is empty or the other is full. */
    method PushFromQueue(other: FifoQueue<T>)
      requires Valid() && other.Valid() && other != this && other.data != data
      modifies this`tail, this`size, data, other`head, other`size
      ensures Valid() && other.Valid()
      ensures var n := if old(other.size) < data.Length - old(size) then old(other.size) else data.Length - old(size);
              Contents() == old(Contents()) + old(other.Contents())[..n] && other.Contents() == old(other.Contents())[n..]
    {
      ghost var a, b := Contents(), other.Contents();
      ghost var k := 0;
      while other.size > 0 && size < data.Length
        invariant Valid() && other.Valid() && k <= |b| && size == |a| + k && other.size == |b| - k
        invariant Contents() == a + b[..k] && other.Contents() == b[k..]
        decreases other.size
      {
        var v := other.Pop();
        assert b[k..][0] == v && b[k..][1..] == b[k + 1..];
        Push(v);
        assert b[..k + 1] == b[..k] + [v];
        k := k + 1;
      }
    }
  }
}
