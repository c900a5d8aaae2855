/** The look-up table of directly accessible pages in src/core/bus.cpp:297-301, 398-426 and 457-524,
    in LUT mode with 2 MB of RAM. A slot holds an offset into RAM, or None for a null pointer. */
module FastmemLut {
  import opened CodeCacheModel
  import opened Common

  const LUT_PAGES: nat := 0x10_0000
  const CODE_PAGES: nat := 513
  const MIRRORS: seq<nat> := [
    0x0000_0000, 0x0020_0000, 0x0040_0000, 0x0060_0000,
    0x8000_0000, 0x8020_0000, 0x8040_0000, 0x8060_0000,
    0xA000_0000, 0xA020_0000, 0xA040_0000, 0xA060_0000]

  type Slot = Option<nat>

  /** First LUT page of the i-th window. */
  function Window(i: nat): nat
    requires i < |MIRRORS|
  {
    MIRRORS[i] / PAGE_SIZE
  }

  /** The windows that map RAM itself, not one of its mirrors. */
  predicate Unmirrored(i: nat) { i in {0, 4, 8} }

  /** Window i, page p, seen from another window: the same LUT page only one window further on, from
      a page behind the 2 MB. */
  lemma WindowsApart(i: nat, p: nat, j: nat, q: nat)
    requires i < |MIRRORS| && j < |MIRRORS| && p < 512 && q < PAGE_COUNT
    requires Window(i) + p == Window(j) + q && Unmirrored(i)
    ensures i == j && p == q
  {
  }

  lemma WindowsBounded(i: nat, p: nat)
    requires i < |MIRRORS| && p < PAGE_COUNT
    ensures Window(i) + p < LUT_PAGES && (MIRRORS[i] + p * PAGE_SIZE) / PAGE_SIZE == Window(i) + p
  {
  }

  /** The page that a CPU access to this address uses: address masked to RAM, divided by the page size. */
  function AccessPage(address: nat): nat { address % RAM_SIZE / PAGE_SIZE }

  /** LUT page k is page p of one of the first n windows. */
  predicate WindowPage(k: nat, p: nat, n: nat)
    requires n <= |MIRRORS|
  {
    exists i :: 0 <= i < n && k == Window(i) + p
  }

  lemma NotThatPage(i: nat, q: nat, p: nat)
    requires i < |MIRRORS| && Unmirrored(i) && q < 512 && p < PAGE_COUNT && q != p
    ensures !WindowPage(Window(i) + q, p, |MIRRORS|)
  {
    forall j | 0 <= j < |MIRRORS|
      ensures Window(i) + q != Window(j) + p
    {
      if Window(i) + q == Window(j) + p {
        WindowsApart(i, q, j, p);
      }
    }
  }

  lemma MappedApart(j: nat, q: nat, i: nat, p: nat)
    requires j <= i < |MIRRORS| && q < 512 && p < 512 && (j < i || q < p)
    ensures Window(j) + q != Window(i) + p
  {
  }

  /** Page p of window i: readable at its place in RAM, writable exactly if it holds no code. */
  predicate PageTrue(bits: seq<bool>, lut: seq<Slot>, i: nat, p: nat)
    requires |bits| == PAGE_COUNT && |lut| == 2 * LUT_PAGES && i < |MIRRORS| && p < PAGE_COUNT
  {
    WindowsBounded(i, p);
    && lut[Window(i) + p] == Some(p * PAGE_SIZE)
    && lut[LUT_PAGES + Window(i) + p] == if bits[p] then None else Some(p * PAGE_SIZE)
  }

  /** The unmirrored windows are true, except perhaps for pages from n on. */
  ghost predicate Tracks(bits: seq<bool>, lut: seq<Slot>, n: nat)
  {
    && |bits| == PAGE_COUNT && |lut| == 2 * LUT_PAGES
    && forall i, p :: 0 <= i < |MIRRORS| && Unmirrored(i) && 0 <= p < 512 && p < n ==> PageTrue(bits, lut, i, p)
  }

  /** The table after one page has been set in the first n windows. */
  function WithPage(lut: seq<Slot>, p: nat, writable: bool, n: nat): seq<Slot>
    requires n <= |MIRRORS|
  {
    seq(|lut|, k requires 0 <= k < |lut| =>
      if k < LUT_PAGES && WindowPage(k, p, n) then RamSlot(p, true)
      else if k >= LUT_PAGES && WindowPage(k - LUT_PAGES, p, n) then RamSlot(p, writable)
      else lut[k])
  }

  function RamSlot(p: nat, present: bool): Slot { if present then Some(p * PAGE_SIZE) else None }

  lemma WithPageAt(lut: seq<Slot>, p: nat, writable: bool, n: nat, k: nat)
    requires |lut| == 2 * LUT_PAGES && n <= |MIRRORS| && k < LUT_PAGES
    ensures var t := WithPage(lut, p, writable, n);
            && t[k] == (if WindowPage(k, p, n) then RamSlot(p, true) else lut[k])
            && t[LUT_PAGES + k] == (if WindowPage(k, p, n) then RamSlot(p, writable) else lut[LUT_PAGES + k])
  {
    var h := LUT_PAGES + k;
    assert h - LUT_PAGES == k;
  }

  /** Setting page p with its new bit keeps every other page and makes page p true. */
  lemma PageSet(old_: seq<bool>, bits: seq<bool>, lut: seq<Slot>, p: nat, n: nat)
    requires Tracks(old_, lut, n) && p < PAGE_COUNT && |bits| == PAGE_COUNT
    requires forall q :: 0 <= q < PAGE_COUNT && q != p ==> bits[q] == old_[q]
    ensures Tracks(bits, WithPage(lut, p, !bits[p], |MIRRORS|), if n == p then p + 1 else n)
  {
    var t := WithPage(lut, p, !bits[p], |MIRRORS|);
    forall i, q | 0 <= i < |MIRRORS| && Unmirrored(i) && 0 <= q < 512 && (q < n || q == p)
      ensures PageTrue(bits, t, i, q)
    {
      WindowsBounded(i, q);
      WithPageAt(lut, p, !bits[p], |MIRRORS|, Window(i) + q);
      if q == p {
        assert WindowPage(Window(i) + q, p, |MIRRORS|);
      } else {
        NotThatPage(i, q, p);
        assert PageTrue(old_, lut, i, q);
      }
    }
  }

  class FastmemLut {
    const bits: array<bool>
    const lut: array<Slot>

    ghost predicate Sized()
    {
      bits.Length == PAGE_COUNT && lut.Length == 2 * LUT_PAGES
    }

    ghost predicate Valid()
      reads bits, lut
    {
      Sized() && Tracks(bits[..], lut[..], 512)
    }

    /** No page holds code at first, and all of RAM is mapped. */
    constructor ()
      ensures Valid() && bits[..] == seq(PAGE_COUNT, _ => false) && fresh(bits) && fresh(lut)
    {
      bits := new bool[PAGE_COUNT](_ => false);
      lut := new Slot[2 * LUT_PAGES](_ => None);
      new;
      UpdateViews();
    }

    /** SetLUTFastmemPage. */
    method SetLutPage(address: nat, offset: nat, writable: bool)
      requires Sized() && address / PAGE_SIZE < LUT_PAGES
      modifies lut
      ensures lut[..] == old(lut[..])[address / PAGE_SIZE := Some(offset)]
                                     [LUT_PAGES + address / PAGE_SIZE := if writable then Some(offset) else None]
    {
      lut[address / PAGE_SIZE] := Some(offset);
      lut[LUT_PAGES + address / PAGE_SIZE] := if writable then Some(offset) else None;
    }

    /** One page in every window. */
    method SetInAllWindows(p: nat, writable: bool)
      requires Sized() && p < PAGE_COUNT
      modifies lut
      ensures lut[..] == WithPage(old(lut[..]), p, writable, |MIRRORS|)
    {
      ghost var s := lut[..];
      assert lut[..] == WithPage(s, p, writable, 0);
      for i := 0 to |MIRRORS|
        invariant lut[..] == WithPage(s, p, writable, i)
      {
        WindowsBounded(i, p);
        SetLutPage(MIRRORS[i] + p * PAGE_SIZE, p * PAGE_SIZE, writable);
        WithNextPage(s, p, writable, i);
      }
    }

    /** SetRAMCodePage. */
    method SetCodePage(p: nat)
      requires Valid() && p < PAGE_COUNT
      modifies bits, lut
      ensures Valid() && bits[..] == old(bits[..])[p := true]
    {
      if bits[p] {
        assert bits[..] == old(bits[..])[p := true];
        return;
      }
      ghost var b, s := bits[..], lut[..];
      bits[p] := true;
      SetInAllWindows(p, false);
      PageSet(b, bits[..], s, p, 512);
      TracksAll(bits[..], lut[..]);
    }

    /** ClearRAMCodePage. */
    method ClearCodePage(p: nat)
      requires Valid() && p < PAGE_COUNT
      modifies bits, lut
      ensures Valid() && bits[..] == old(bits[..])[p := false]
    {
      if !bits[p] {
        assert bits[..] == old(bits[..])[p := false];
        return;
      }
      ghost var b, s := bits[..], lut[..];
      bits[p] := false;
      SetInAllWindows(p, true);
      PageSet(b, bits[..], s, p, 512);
      TracksAll(bits[..], lut[..]);
    }

    /** ClearRAMCodePageFlags. It runs over 513 pages, one more than RAM has, which leaves the first
        page of every mirror window pointing behind RAM. */
    method ClearCodePages()
      requires Sized()
      modifies bits, lut
      ensures Valid() && bits[..] == seq(PAGE_COUNT, _ => false)
      ensures forall i :: 0 <= i < |MIRRORS| && !Unmirrored(i) ==>
                lut[Window(i)] == lut[LUT_PAGES + Window(i)] == Some(RAM_SIZE)
    {
      forall p | 0 <= p < PAGE_COUNT {
        bits[p] := false;
      }
      ghost var b := seq(PAGE_COUNT, _ => false);
      assert bits[..] == b;
      ghost var s := lut[..];
      for p := 0 to CODE_PAGES
        invariant bits[..] == b && |s| == lut.Length
        invariant Tracks(b, lut[..], p)
        invariant p > 0 ==> lut[..] == WithPage(s, p - 1, true, |MIRRORS|)
      {
        s := lut[..];
        SetInAllWindows(p, true);
        PageSet(b, b, s, p, p);
      }
      TracksAll(b, lut[..]);
      LastPageSet(s);
    }

    /** UpdateFastmemViews in LUT mode: maps RAM into every window. */
    method UpdateViews()
      requires Sized()
      modifies lut
      ensures Valid()
      ensures forall i, p :: 0 <= i < |MIRRORS| && 0 <= p < 512 ==> PageTrue(bits[..], lut[..], i, p)
    {
      for i := 0 to |MIRRORS|
        invariant Mapped(bits[..], lut[..], i, 0)
      {
        for p := 0 to 512
          invariant Mapped(bits[..], lut[..], i, p)
        {
          ghost var s := lut[..];
          WindowsBounded(i, p);
          SetLutPage(MIRRORS[i] + p * PAGE_SIZE, p * PAGE_SIZE, !bits[p]);
          MappedNext(bits[..], s, lut[..], i, p);
        }
      }
    }

    /** The entry that a direct write to this address uses. */
    ghost function WriteSlot(address: nat): Slot
      requires Sized() && address / PAGE_SIZE < LUT_PAGES
      reads lut
    {
      lut[LUT_PAGES + address / PAGE_SIZE]
    }

    /** A direct access through an unmirrored window reads and writes the byte that DoRAMAccess would,
        and it can write exactly if the page holds no code. */
    lemma DirectAccess(i: nat, address: nat)
      requires Valid() && i < |MIRRORS| && Unmirrored(i) && MIRRORS[i] <= address < MIRRORS[i] + RAM_SIZE
      ensures address / PAGE_SIZE < LUT_PAGES && AccessPage(address) < 512
      ensures lut[address / PAGE_SIZE] == Some(AccessPage(address) * PAGE_SIZE)
      ensures lut[LUT_PAGES + address / PAGE_SIZE] ==
              if bits[AccessPage(address)] then None else Some(AccessPage(address) * PAGE_SIZE)
      ensures AccessPage(address) * PAGE_SIZE + address % PAGE_SIZE == address % RAM_SIZE
    {
      var p := (address - MIRRORS[i]) / PAGE_SIZE;
      assert MIRRORS[i] % RAM_SIZE == 0;
      WindowsBounded(i, p);
      assert address - MIRRORS[i] == address % RAM_SIZE;
      assert PageTrue(bits[..], lut[..], i, p);
    }

    /** So a direct write never reaches a page that a valid block touches. */
    lemma NoDirectWriteToCode(s: State, i: nat, address: nat, id: Id)
      requires Inv(s) && Valid() && bits[..] == s.bits
      requires i < |MIRRORS| && Unmirrored(i) && MIRRORS[i] <= address < MIRRORS[i] + RAM_SIZE
      requires ValidBlock(s, id) && Overlaps(s, id, AccessPage(address))
      ensures address / PAGE_SIZE < LUT_PAGES && lut[LUT_PAGES + address / PAGE_SIZE] == None
    {
      DirectAccess(i, address);
      var p := AccessPage(address);
      assert bits[..][p] == bits[p];
      if !bits[p] {
        ClearBitNoBlock(s, p);
      }
    }
  }

  lemma TracksAll(bits: seq<bool>, lut: seq<Slot>)
    requires exists n :: n >= 512 && Tracks(bits, lut, n)
    ensures Tracks(bits, lut, 512)
  {
  }

  lemma WithNextPage(lut: seq<Slot>, p: nat, writable: bool, i: nat)
    requires |lut| == 2 * LUT_PAGES && i < |MIRRORS| && p < PAGE_COUNT
    ensures Window(i) + p < LUT_PAGES
    ensures WithPage(lut, p, writable, i + 1) ==
            WithPage(lut, p, writable, i)[Window(i) + p := Some(p * PAGE_SIZE)]
                                         [LUT_PAGES + (Window(i) + p) := if writable then Some(p * PAGE_SIZE) else None]
  {
    WindowsBounded(i, p);
    hide Window;
    forall k
      ensures WindowPage(k, p, i + 1) <==> WindowPage(k, p, i) || k == Window(i) + p
    {
      if WindowPage(k, p, i + 1) {
        var j :| 0 <= j < i + 1 && k == Window(j) + p;
        assert j < i || j == i;
      }
    }
    hide WindowPage;
    var s, t := WithPage(lut, p, writable, i), WithPage(lut, p, writable, i + 1);
    var u := s[Window(i) + p := RamSlot(p, true)][LUT_PAGES + (Window(i) + p) := RamSlot(p, writable)];
    forall k | 0 <= k < 2 * LUT_PAGES
      ensures t[k] == u[k]
    {
      var page := if k < LUT_PAGES then k else k - LUT_PAGES;
      WithPageAt(lut, p, writable, i, page);
      WithPageAt(lut, p, writable, i + 1, page);
      assert k < LUT_PAGES || k == LUT_PAGES + page;
    }
  }

  lemma LastPageSet(s: seq<Slot>)
    requires |s| == 2 * LUT_PAGES
    ensures forall i :: 0 <= i < |MIRRORS| && !Unmirrored(i) ==>
              Window(i) < LUT_PAGES
              && WithPage(s, 512, true, |MIRRORS|)[Window(i)] == Some(RAM_SIZE)
              && WithPage(s, 512, true, |MIRRORS|)[LUT_PAGES + Window(i)] == Some(RAM_SIZE)
  {
    forall i | 0 <= i < |MIRRORS| && !Unmirrored(i)
      ensures Window(i) < LUT_PAGES && WindowPage(Window(i), 512, |MIRRORS|)
    {
      assert Window(i) == Window(i - 1) + 512;
      WindowsBounded(i, 0);
    }
  }

  /** MapRAM has filled the first i windows, and p pages of window i. */
  ghost predicate Mapped(bits: seq<bool>, lut: seq<Slot>, i: nat, p: nat) {
    && |bits| == PAGE_COUNT && |lut| == 2 * LUT_PAGES && i <= |MIRRORS|
    && forall j, q :: 0 <= j < |MIRRORS| && 0 <= q < 512 && (j < i || (j == i && q < p)) ==> PageTrue(bits, lut, j, q)
  }

  lemma MappedNext(bits: seq<bool>, s: seq<Slot>, t: seq<Slot>, i: nat, p: nat)
    requires Mapped(bits, s, i, p) && i < |MIRRORS| && p < 512 && Window(i) + p < LUT_PAGES
    requires t == s[Window(i) + p := Some(p * PAGE_SIZE)]
                   [LUT_PAGES + (Window(i) + p) := if !bits[p] then Some(p * PAGE_SIZE) else None]
    ensures Mapped(bits, t, i, p + 1)
  {
    forall j, q | 0 <= j < |MIRRORS| && 0 <= q < 512 && (j < i || (j == i && q < p + 1))
      ensures PageTrue(bits, t, j, q)
    {
      WindowsBounded(j, q);
      if j < i || q < p {
        MappedApart(j, q, i, p);
        assert PageTrue(bits, s, j, q);
      }
    }
  }
}
