/** What stores to guest RAM do to the code cache: CPU stores (src/core/bus.cpp:534-615) and device
    transfers (src/core/dma.cpp:482-549), which write first and invalidate a page range afterwards. */
module CodeCacheStores {
  import opened CodeCacheModel
  import opened Common

  // ---------------------------------------------------------------- one page

  /** Bytes stored inside page p may leave the blocks of that page stale, and nothing else. */
  lemma WriteInv(s: State, offset: nat, bytes: seq<Byte>, stale: set<nat>)
    requires InvExcept(s, {}, stale) && offset + |bytes| <= RAM_SIZE
    requires forall o :: offset <= o < offset + |bytes| ==> o / PAGE_SIZE in stale
    ensures var t := Write(s, offset, bytes);
            && InvExcept(t, {}, stale) && t == s.(ram := t.ram)
            && forall x :: ValidBlock(t, x) <==> ValidBlock(s, x)
  {
    var t := Write(s, offset, bytes);
    WriteCoherent(s, offset, bytes, stale);
    RamOnly(s, t);
    hide Shape, Listed, Covered, Coherent, LinksMatched, LinksValid, SitesTrue, FastTrue;
  }

  /** Only Coherent looks at RAM. */
  lemma RamOnly(s: State, t: State)
    requires |s.pages| == |s.bits| && t == s.(ram := t.ram)
    requires Listed(s, {}) && Covered(s) && LinksMatched(s) && LinksValid(s) && SitesTrue(s) && FastTrue(s)
    ensures Listed(t, {}) && Covered(t) && LinksMatched(t) && LinksValid(t) && SitesTrue(t) && FastTrue(t)
  {
    RamOnlyPages(s, t);
    SameHeapLinks(s, t);
    FastKept(s, t);
    hide LinksMatched, FastTrue, Listed, Covered;
    assert forall h :: Recorded(s, h) ==> Recorded(t, h);
  }

  lemma RamOnlyPages(s: State, t: State)
    requires |s.pages| == |s.bits| && t == s.(ram := t.ram) && Listed(s, {}) && Covered(s)
    ensures Listed(t, {}) && Covered(t)
  {
    forall p, id | 0 <= p < |t.pages| && id in t.pages[p]
      ensures ListedOk(t, {}, id)
    {
      assert ListedOk(s, {}, id);
    }
    forall x, p | 0 <= p < |t.pages| && Overlaps(t, x, p) && ValidBlock(t, x)
      ensures x in t.pages[p]
    {
      assert Overlaps(s, x, p) && ValidBlock(s, x);
    }
  }

  /** A page without valid blocks is not stale. */
  lemma DropInv(t: State, p: nat, stale: set<nat>)
    requires InvExcept(t, {}, stale) && forall x :: ValidBlock(t, x) ==> !Overlaps(t, x, p)
    ensures InvExcept(t, {}, stale - {p})
  {
    StaleDropped(t, p, stale);
  }

  lemma ClearBitInv(t: State, p: nat, stale: set<nat>)
    requires InvExcept(t, {}, stale) && p < PAGE_COUNT && !t.bits[p]
    ensures InvExcept(t, {}, stale - {p})
    ensures forall x :: ValidBlock(t, x) ==> !Overlaps(t, x, p)
  {
    ClearBitNoBlock(t, p);
    DropInv(t, p, stale);
  }

  lemma WeakenStale(s: State, stale: set<nat>, more: set<nat>)
    requires InvExcept(s, {}, stale) && stale <= more
    ensures InvExcept(s, {}, more)
  {
    hide Overlaps, Listed, Covered, LinksMatched, LinksValid, SitesTrue, FastTrue;
  }

  predicate PagesInHeap(s: State) {
    forall p, id :: 0 <= p < |s.pages| && id in s.pages[p] ==> id in s.heap
  }

  lemma ListedInHeap(s: State, stale: set<nat>)
    requires InvExcept(s, {}, stale)
    ensures PagesInHeap(s) && MemoryOk(s) && |s.pages| == |s.bits| == PAGE_COUNT
  {
    forall p, id | 0 <= p < |s.pages| && id in s.pages[p]
      ensures id in s.heap
    {
      assert ListedOk(s, {}, id);
    }
  }

  // ---------------------------------------------------------------- a CPU store

  /** An aligned store of one, two or four bytes. With `skipRedundant` a store that changes nothing
      is dropped. */
  function Store(s: State, offset: nat, bytes: seq<Byte>, skipRedundant: bool, frame: nat): State
    requires MemoryOk(s) && |s.pages| == |s.bits| == PAGE_COUNT && Aligned(offset, bytes)
    requires PagesInHeap(s)
  {
    var p := offset / PAGE_SIZE;
    if skipRedundant && s.ram[offset..offset + |bytes|] == bytes then s
    else
      InvalidateOne(s, p, frame).(ram := Write(s, offset, bytes).ram)
  }

  predicate Aligned(offset: nat, bytes: seq<Byte>) {
    |bytes| in {1, 2, 4} && offset % |bytes| == 0 && offset < RAM_SIZE
  }

  lemma AlignedInPage(offset: nat, bytes: seq<Byte>)
    requires Aligned(offset, bytes)
    ensures offset + |bytes| <= RAM_SIZE && offset / PAGE_SIZE < 512
    ensures forall o :: offset <= o < offset + |bytes| ==> o / PAGE_SIZE == offset / PAGE_SIZE
  {
    forall o | offset <= o < offset + |bytes|
      ensures o / PAGE_SIZE == offset / PAGE_SIZE
    {
      SamePage(offset, |bytes|, o);
    }
    SamePage(offset, |bytes|, offset);
  }

  lemma SamePage(offset: nat, n: nat, o: nat)
    requires n in {1, 2, 4} && offset % n == 0 && offset <= o < offset + n && offset < RAM_SIZE
    ensures o / PAGE_SIZE == offset / PAGE_SIZE && offset + n <= RAM_SIZE
  {
    var q, r := offset / PAGE_SIZE, offset % PAGE_SIZE;
    assert offset == PAGE_SIZE * q + r;
    assert r % n == 0 && r + n <= PAGE_SIZE by {
      if n == 2 {
        assert r == 2 * (offset / 2 - 2048 * q);
      } else if n == 4 {
        assert r == 4 * (offset / 4 - 1024 * q);
      }
    }
  }

  /** Invalidate-then-write and write-then-invalidate agree: no valid block keeps stale words. */
  lemma StoreInv(s: State, offset: nat, bytes: seq<Byte>, skipRedundant: bool, frame: nat)
    requires Inv(s) && Aligned(offset, bytes)
    ensures PagesInHeap(s) && MemoryOk(s) && |s.pages| == |s.bits| == PAGE_COUNT && offset + |bytes| <= RAM_SIZE
    ensures var t := Store(s, offset, bytes, skipRedundant, frame);
            && Inv(t) && t.ram == Write(s, offset, bytes).ram && SameBlocks(s, t.(ram := s.ram))
            && (forall x :: ValidBlock(t, x) <==>
                  ValidBlock(s, x) && ((t.ram == s.ram && skipRedundant) || x !in s.pages[offset / PAGE_SIZE]))
  {
    AlignedInPage(offset, bytes);
    ListedInHeap(s, {});
    var p := offset / PAGE_SIZE;
    SliceWrite(s, offset, bytes);
    hide InvExcept, InvalidateOne, ValidBlock, SameBlocks, Write;
    if skipRedundant && s.ram[offset..offset + |bytes|] == bytes {
      SameBlocksRefl(s);
      assert s.(ram := s.ram) == s;
    } else {
      PageEmptied(s, p, frame);
      var t := InvalidateOne(s, p, frame);
      StoreAfter(t, offset, bytes);
      StoreOrders(s, offset, bytes, p, frame);
    }
  }

  /** Invalidation does not look at RAM, and a store looks at nothing else. */
  lemma StoreOrders(s: State, offset: nat, bytes: seq<Byte>, p: nat, frame: nat)
    requires MemoryOk(s) && |s.pages| == |s.bits| && p < |s.pages| && PagesInHeap(s) && offset + |bytes| <= RAM_SIZE
    ensures var w, i := Write(s, offset, bytes), InvalidateOne(s, p, frame);
            && PagesInHeap(w) && i.ram == s.ram
            && InvalidateOne(w, p, frame) == i.(ram := w.ram) == Write(i, offset, bytes)
  {
    var w := Write(s, offset, bytes);
    assert w == s.(ram := w.ram);
    assert s == s.(ram := s.ram);
    if s.bits[p] {
      InvalidateListRam(s, w.ram, s.pages[p], frame);
      hide InvalidateList;
    }
  }

  lemma {:induction false} InvalidateListRam(s: State, ram: seq<Byte>, ids: seq<Id>, frame: nat)
    requires forall id :: id in ids ==> id in s.heap
    ensures InvalidateList(s.(ram := ram), ids, frame) == InvalidateList(s, ids, frame).(ram := ram)
    decreases |ids|
  {
    hide Restore, Marked, UnlinkedBlock;
    if ids != [] {
      InvalidateListRam(s, ram, ids[..|ids| - 1], frame);
    }
  }

  lemma SliceWrite(s: State, offset: nat, bytes: seq<Byte>)
    requires MemoryOk(s) && offset + |bytes| <= RAM_SIZE
    ensures Write(s, offset, bytes).ram == s.ram <==> s.ram[offset..offset + |bytes|] == bytes
  {
    var w := Write(s, offset, bytes);
    assert w.ram[offset..offset + |bytes|] == bytes;
  }

  /** A page whose bit is clear needs no invalidation: either way no valid block touches it then. */
  lemma PageEmptied(s: State, p: nat, frame: nat)
    requires Inv(s) && p < PAGE_COUNT && PagesInHeap(s)
    ensures |s.pages| == |s.bits| == PAGE_COUNT
    ensures var t := InvalidateOne(s, p, frame);
            && Inv(t) && SameBlocks(s, t) && t.ram == s.ram
            && (forall x :: ValidBlock(t, x) <==> ValidBlock(s, x) && x !in s.pages[p])
            && (forall x :: ValidBlock(t, x) ==> !Overlaps(t, x, p))
  {
    BitOfPage(s, p, {});
    if s.bits[p] {
      InvalidatePageInv(s, p, frame, {});
    } else {
      ClearBitInv(s, p, {});
      hide InvExcept;
      SameBlocksRefl(s);
    }
  }

  lemma StoreAfter(t: State, offset: nat, bytes: seq<Byte>)
    requires Inv(t) && Aligned(offset, bytes) && offset + |bytes| <= RAM_SIZE
    requires forall x :: ValidBlock(t, x) ==> !Overlaps(t, x, offset / PAGE_SIZE)
    ensures offset + |bytes| <= |t.ram| && Inv(Write(t, offset, bytes))
    ensures forall x :: ValidBlock(Write(t, offset, bytes), x) <==> ValidBlock(t, x)
  {
    var p := offset / PAGE_SIZE;
    AlignedInPage(offset, bytes);
    ListedInHeap(t, {});
    hide InvExcept;
    WeakenStale(t, {}, {p});
    WriteInv(t, offset, bytes, {p});
    DropInv(Write(t, offset, bytes), p, {p});
    assert {p} - {p} == {};
  }

  // ---------------------------------------------------------------- a device transfer

  type Word = w: seq<Byte> | |w| == 4 witness [0, 0, 0, 0]

  /** Which way a device transfer goes. Table is the clearing of an ordering table, which goes down, too. */
  datatype Direction = Up | Down | Table

  /** The address of the first word, and the way from there. */
  datatype Start = Start(offset: nat, direction: Direction)

  function WordOffset(start: Start, i: nat): nat {
    (if start.direction.Up? then start.offset + 4 * i else start.offset - 4 * i) % RAM_SIZE
  }

  predicate Transfer(start: Start, n: nat) {
    start.offset % 4 == 0 && start.offset < RAM_SIZE && 0 < n <= RAM_SIZE / 4
  }

  lemma WordOffsetAligned(start: Start, n: nat, i: nat)
    requires Transfer(start, n)
    ensures WordOffset(start, i) % 4 == 0 && WordOffset(start, i) + 4 <= RAM_SIZE
    ensures WordOffset(start, i) / PAGE_SIZE < 512
    ensures forall o :: WordOffset(start, i) <= o < WordOffset(start, i) + 4 ==>
              o / PAGE_SIZE == WordOffset(start, i) / PAGE_SIZE
  {
    RamAligned(if start.direction.Up? then start.offset + 4 * i else start.offset - 4 * i);
    var w := WordOffset(start, i);
    assert w % 4 == 0 && w + 4 <= RAM_SIZE;
    hide WordOffset;
    forall o | w <= o < w + 4
      ensures o / PAGE_SIZE == w / PAGE_SIZE
    {
      SamePage(w, 4, o);
    }
  }

  lemma RamAligned(x: int)
    requires x % 4 == 0
    ensures x % RAM_SIZE % 4 == 0 && x % RAM_SIZE + 4 <= RAM_SIZE
  {
    assert x % RAM_SIZE == 4 * (x / 4 - 0x8_0000 * (x / RAM_SIZE));
  }

  /** The words go to consecutive addresses, wrapping around at the end of RAM. */
  function WriteWords(s: State, start: Start, words: seq<Word>): (t: State)
    requires MemoryOk(s) && Transfer(start, RAM_SIZE / 4)
    ensures MemoryOk(t) && t == s.(ram := t.ram)
    decreases |words|
  {
    if words == [] then s
    else
      var n := |words| - 1;
      WordOffsetAligned(start, RAM_SIZE / 4, n);
      Write(WriteWords(s, start, words[..n]), WordOffset(start, n), words[n])
  }

  function WrittenPages(start: Start, n: nat): set<nat> {
    set i | 0 <= i < n :: WordOffset(start, i) / PAGE_SIZE
  }

  lemma WrittenPagesNext(start: Start, n: nat)
    requires n > 0
    ensures WrittenPages(start, n) == WrittenPages(start, n - 1) + {WordOffset(start, n - 1) / PAGE_SIZE}
  {
    hide WordOffset;
    var w := WrittenPages(start, n);
    forall p | p in WrittenPages(start, n - 1) + {WordOffset(start, n - 1) / PAGE_SIZE}
      ensures p in w
    {
    }
    forall p | p in w
      ensures p in WrittenPages(start, n - 1) + {WordOffset(start, n - 1) / PAGE_SIZE}
    {
      var i :| 0 <= i < n && p == WordOffset(start, i) / PAGE_SIZE;
      assert i < n - 1 || i == n - 1;
    }
  }

  lemma {:induction false} WriteWordsInv(s: State, start: Start, words: seq<Word>)
    requires Inv(s) && Transfer(start, RAM_SIZE / 4)
    ensures MemoryOk(s)
    ensures InvExcept(WriteWords(s, start, words), {}, WrittenPages(start, |words|))
    ensures forall x :: ValidBlock(WriteWords(s, start, words), x) <==> ValidBlock(s, x)
    decreases |words|
  {
    if words == [] {
      assert WrittenPages(start, 0) == {};
    } else {
      var n := |words| - 1;
      var pages := WrittenPages(start, n + 1);
      WriteWordsInv(s, start, words[..n]);
      WrittenPagesNext(start, n + 1);
      WordOffsetAligned(start, RAM_SIZE / 4, n);
      hide InvExcept, WordOffset, WrittenPages;
      var t := WriteWords(s, start, words[..n]);
      WeakenStale(t, WrittenPages(start, n), pages);
      WriteInv(t, WordOffset(start, n), words[n], pages);
    }
  }

  /** InvalidateCodePages over n pages from `first`. */
  function InvalidateRange(s: State, first: nat, n: nat, frame: nat): (t: State)
    requires |s.pages| == |s.bits| && first + n <= |s.pages| && PagesInHeap(s)
    ensures |t.pages| == |t.bits| == |s.pages| && PagesInHeap(t)
  {
    if n == 0 then s else InvalidateOne(InvalidateRange(s, first, n - 1, frame), first + n - 1, frame)
  }

  function InvalidateOne(s: State, p: nat, frame: nat): (t: State)
    requires |s.pages| == |s.bits| && p < |s.pages| && PagesInHeap(s)
    ensures |t.pages| == |t.bits| == |s.pages| && PagesInHeap(t)
  {
    if s.bits[p] then InvalidatePage(s, p, frame) else s
  }

  /** On none of the n pages from `first`. */
  predicate Unlisted(s: State, x: Id, first: nat, n: nat)
    requires first + n <= |s.pages|
  {
    forall p :: first <= p < first + n ==> x !in s.pages[p]
  }

  lemma UnlistedNext(s: State, first: nat, n: nat)
    requires 0 < n && first + n <= |s.pages|
    ensures forall x :: Unlisted(s, x, first, n) <==> Unlisted(s, x, first, n - 1) && x !in s.pages[first + n - 1]
    ensures forall x :: Unlisted(s, x, first, 0)
  {
  }

  lemma PageRangeNext(stale: set<nat>, first: nat, n: nat)
    requires n > 0
    ensures stale - PageRange(first, n - 1) - {first + n - 1} == stale - PageRange(first, n)
  {
  }

  lemma InvalidateOneInv(s: State, p: nat, frame: nat, stale: set<nat>)
    requires InvExcept(s, {}, stale) && p < PAGE_COUNT
    ensures PagesInHeap(s) && MemoryOk(s) && |s.pages| == |s.bits| == PAGE_COUNT
    ensures var t := InvalidateOne(s, p, frame);
            && InvExcept(t, {}, stale - {p}) && SameBlocks(s, t)
            && (forall x :: ValidBlock(t, x) <==> ValidBlock(s, x) && x !in s.pages[p])
            && (forall q :: 0 <= q < PAGE_COUNT && q != p ==> t.pages[q] == s.pages[q])
  {
    ListedInHeap(s, stale);
    BitOfPage(s, p, stale);
    if s.bits[p] {
      InvalidatePageInv(s, p, frame, stale);
    } else {
      ClearBitInv(s, p, stale);
      SameBlocksRefl(s);
    }
  }

  lemma {:induction false} InvalidateRangeInv(s: State, first: nat, n: nat, frame: nat, stale: set<nat>)
    requires InvExcept(s, {}, stale) && first + n <= PAGE_COUNT
    ensures PagesInHeap(s) && MemoryOk(s) && |s.pages| == |s.bits| == PAGE_COUNT
    ensures var t := InvalidateRange(s, first, n, frame);
            && InvExcept(t, {}, stale - PageRange(first, n)) && SameBlocks(s, t)
            && (forall x :: ValidBlock(t, x) <==> ValidBlock(s, x) && Unlisted(s, x, first, n))
            && (forall q :: 0 <= q < PAGE_COUNT && (q < first || q >= first + n) ==> t.pages[q] == s.pages[q])
    decreases n
  {
    ListedInHeap(s, stale);
    hide InvExcept, SameBlocks, ValidBlock, PagesInHeap, MemoryOk, InvalidateOne, Unlisted, PageRange;
    if n == 0 {
      RangeEmpty(s, stale, first);
      SameBlocksRefl(s);
    } else {
      InvalidateRangeInv(s, first, n - 1, frame, stale);
      var r := InvalidateRange(s, first, n - 1, frame);
      InvalidateOneInv(r, first + n - 1, frame, stale - PageRange(first, n - 1));
      SameBlocksTrans(s, r, InvalidateRange(s, first, n, frame));
      PageRangeNext(stale, first, n);
      UnlistedNext(s, first, n);
    }
  }

  lemma RangeEmpty(s: State, stale: set<nat>, first: nat)
    ensures stale - PageRange(first, 0) == stale
    ensures first <= |s.pages| ==> forall x :: Unlisted(s, x, first, 0)
  {
    assert PageRange(first, 0) == {};
  }

  lemma BitOfPage(s: State, p: nat, stale: set<nat>)
    requires InvExcept(s, {}, stale) && p < PAGE_COUNT
    ensures |s.pages| == |s.bits| == PAGE_COUNT && (s.bits[p] <==> s.pages[p] != [])
  {
  }

  function PageRange(first: nat, n: nat): set<nat> {
    if n == 0 then {} else PageRange(first, n - 1) + {first + n - 1}
  }

  lemma {:induction false} InPageRange(first: nat, n: nat)
    ensures forall p :: p in PageRange(first, n) <==> first <= p < first + n
    decreases n
  {
    if n > 0 {
      InPageRange(first, n - 1);
    }
  }

  /** Where the invalidation starts. A transfer that reaches the end of RAM, or goes down, passes through a
      buffer, and by then the address has moved past the last word; the clearing of a table stops at it. */
  function InvalidatedFrom(start: Start, n: nat): nat {
    match start.direction
    case Up => if WordOffset(start, n) <= start.offset then WordOffset(start, n) else start.offset
    case Down => WordOffset(start, n)
    case Table => WordOffset(start, if n > 0 then n - 1 else 0)
  }

  function FirstPage(start: Start, n: nat): nat { InvalidatedFrom(start, n) / PAGE_SIZE }

  function LastPage(start: Start, n: nat): nat
    requires n > 0
  {
    (InvalidatedFrom(start, n) + 4 * n - 4) / PAGE_SIZE
  }

  /** TransferDeviceToMemory. */
  function Dma(s: State, start: Start, words: seq<Word>, frame: nat): State
    requires MemoryOk(s) && |s.pages| == |s.bits| == PAGE_COUNT && Transfer(start, |words|)
    requires PagesInHeap(s)
  {
    InvalidateTransfer(WriteWords(s, start, words), start, |words|, frame)
  }

  function InvalidateTransfer(s: State, start: Start, n: nat, frame: nat): State
    requires |s.pages| == |s.bits| == PAGE_COUNT && Transfer(start, n) && PagesInHeap(s)
  {
    LastPageBound(start, n);
    InvalidateRange(s, FirstPage(start, n), LastPage(start, n) - FirstPage(start, n) + 1, frame)
  }

  lemma LastPageBound(start: Start, n: nat)
    requires Transfer(start, n)
    ensures FirstPage(start, n) <= LastPage(start, n) < PAGE_COUNT
  {
  }

  /** Every page written is in the range that is invalidated. */
  ghost predicate Covers(start: Start, n: nat)
    requires n > 0
  {
    forall i :: 0 <= i < n ==> FirstPage(start, n) <= WordOffset(start, i) / PAGE_SIZE <= LastPage(start, n)
  }

  /** A transfer that ends before the end of RAM is covered. */
  lemma InsideCovers(start: Start, n: nat)
    requires Transfer(start, n) && start.direction.Up? && start.offset + 4 * n < RAM_SIZE
    ensures Covers(start, n)
  {
    assert WordOffset(start, n) == start.offset + 4 * n;
    forall i | 0 <= i < n
      ensures start.offset / PAGE_SIZE <= WordOffset(start, i) / PAGE_SIZE <= LastPage(start, n)
    {
      assert WordOffset(start, i) == start.offset + 4 * i;
    }
  }

  /** When the pages written are all invalidated. Upwards: if the transfer ends before the end of RAM, or
      if what wraps around stays on the first page while its length, added once more, reaches the last.
      Downwards the range lies one word too low: without wrapping around, only a first word at the start
      of a page is missed. The clearing of a table is covered unless it wraps around. What does wrap around
      downwards is covered only if it ends on the first page again. */
  predicate CoversRam(start: Start, n: nat)
    requires n > 0
  {
    match start.direction
    case Up =>
      var end := start.offset + 4 * n;
      end < RAM_SIZE || (end - RAM_SIZE < PAGE_SIZE && end - RAM_SIZE + 4 * n - 4 >= RAM_SIZE - PAGE_SIZE)
    case Down =>
      if 4 * n <= start.offset then start.offset % PAGE_SIZE != 0 else RAM_SIZE + start.offset - 4 * n < PAGE_SIZE
    case Table =>
      4 * n - 4 <= start.offset || RAM_SIZE + start.offset - (4 * n - 4) < PAGE_SIZE
  }

  lemma CoversExactly(start: Start, n: nat)
    requires Transfer(start, n)
    ensures Covers(start, n) <==> CoversRam(start, n)
  {
    match start.direction
    case Up => UpCovers(start, n);
    case Down => DownCovers(start, n);
    case Table => TableCovers(start, n);
  }

  lemma UpCovers(start: Start, n: nat)
    requires Transfer(start, n) && start.direction.Up?
    ensures Covers(start, n) <==> CoversRam(start, n)
  {
    var end := start.offset + 4 * n;
    if end < RAM_SIZE {
      InsideCovers(start, n);
    } else {
      var w := end - RAM_SIZE;
      assert WordOffset(start, n) == w && InvalidatedFrom(start, n) == w;
      assert WordOffset(start, 0) == start.offset;
      var top := (RAM_SIZE - 4 - start.offset) / 4;
      assert WordOffset(start, top) == RAM_SIZE - 4 && (RAM_SIZE - 4) / PAGE_SIZE == 511;
      if w > 0 {
        assert WordOffset(start, top + 1) == 0;
      }
      if CoversRam(start, n) {
        TopCovers(start, n);
      }
    }
  }

  /** A range from the first page to the last covers everything. */
  lemma TopCovers(start: Start, n: nat)
    requires Transfer(start, n) && InvalidatedFrom(start, n) < PAGE_SIZE
    requires InvalidatedFrom(start, n) + 4 * n - 4 >= RAM_SIZE - PAGE_SIZE
    ensures Covers(start, n)
  {
    forall i | 0 <= i < n
      ensures FirstPage(start, n) <= WordOffset(start, i) / PAGE_SIZE <= LastPage(start, n)
    {
      WordOffsetAligned(start, n, i);
    }
  }

  lemma DownCovers(start: Start, n: nat)
    requires Transfer(start, n) && start.direction.Down?
    ensures Covers(start, n) <==> CoversRam(start, n)
  {
    var o := start.offset;
    assert WordOffset(start, 0) == o;
    if 4 * n <= o {
      assert WordOffset(start, n) == o - 4 * n;
      DownInside(start, n);
      assert (o - 4) / PAGE_SIZE < o / PAGE_SIZE <==> o % PAGE_SIZE == 0;
    } else {
      assert WordOffset(start, n) == RAM_SIZE + o - 4 * n;
      assert WordOffset(start, o / 4) == 0;
      if CoversRam(start, n) {
        TopCovers(start, n);
      }
    }
  }

  /** Downwards without wrapping around, the first word is on the highest page. */
  lemma DownInside(start: Start, n: nat)
    requires Transfer(start, n) && start.direction.Down? && 4 * n <= start.offset
    ensures FirstPage(start, n) == (start.offset - 4 * n) / PAGE_SIZE && LastPage(start, n) == (start.offset - 4) / PAGE_SIZE
    ensures forall i :: 0 <= i < n ==>
              FirstPage(start, n) <= WordOffset(start, i) / PAGE_SIZE <= start.offset / PAGE_SIZE
  {
    assert WordOffset(start, n) == start.offset - 4 * n;
    forall i | 0 <= i < n
      ensures FirstPage(start, n) <= WordOffset(start, i) / PAGE_SIZE <= start.offset / PAGE_SIZE
    {
      assert WordOffset(start, i) == start.offset - 4 * i;
    }
  }

  lemma TableCovers(start: Start, n: nat)
    requires Transfer(start, n) && start.direction.Table?
    ensures Covers(start, n) <==> CoversRam(start, n)
  {
    var o := start.offset;
    if 4 * n - 4 <= o {
      assert WordOffset(start, n - 1) == o - (4 * n - 4);
      forall i | 0 <= i < n
        ensures FirstPage(start, n) <= WordOffset(start, i) / PAGE_SIZE <= LastPage(start, n)
      {
        assert WordOffset(start, i) == o - 4 * i;
      }
    } else {
      assert WordOffset(start, n - 1) == RAM_SIZE + o - (4 * n - 4);
      assert WordOffset(start, o / 4) == 0;
      if CoversRam(start, n) {
        TopCovers(start, n);
      }
    }
  }

  /** If the range covers the pages written, a transfer of any data keeps every state sound. */
  lemma DmaInv(s: State, start: Start, words: seq<Word>, frame: nat)
    requires Inv(s) && Transfer(start, |words|)
    ensures PagesInHeap(s) && MemoryOk(s) && |s.pages| == |s.bits| == PAGE_COUNT
    ensures var t, u := Dma(s, start, words, frame), WriteWords(s, start, words);
            && t.ram == u.ram && SameBlocks(u, t)
            && InvExcept(t, {}, Missed(start, |words|))
            && (CoversRam(start, |words|) ==> Inv(t))
  {
    CoversExactly(start, |words|);
    var n := |words|;
    var u := WriteWords(s, start, words);
    WriteWordsInv(s, start, words);
    ListedInHeap(u, WrittenPages(start, n));
    hide InvExcept, PagesInHeap, SameBlocks, Covers, CoversRam, Missed, WriteWords;
    RangeOfDma(u, start, n, frame);
    if Covers(start, n) {
      NothingMissed(start, n);
    }
  }

  lemma RangeOfDma(u: State, start: Start, n: nat, frame: nat)
    requires Transfer(start, n) && InvExcept(u, {}, WrittenPages(start, n))
    ensures PagesInHeap(u) && MemoryOk(u) && |u.pages| == |u.bits| == PAGE_COUNT
    ensures var t := InvalidateTransfer(u, start, n, frame);
            && InvExcept(t, {}, Missed(start, n)) && SameBlocks(u, t)
            && forall x :: ValidBlock(t, x) <==> ValidBlock(u, x) && RangeUnlisted(u, start, n, x)
  {
    LastPageBound(start, n);
    ListedInHeap(u, WrittenPages(start, n));
    var first := FirstPage(start, n);
    InvalidateRangeInv(u, first, LastPage(start, n) - first + 1, frame, WrittenPages(start, n));
    hide InvExcept, FirstPage, LastPage, InvalidateRange, PagesInHeap, SameBlocks;
  }

  predicate RangeUnlisted(s: State, start: Start, n: nat, x: Id)
    requires Transfer(start, n) && |s.pages| == PAGE_COUNT
  {
    LastPageBound(start, n);
    Unlisted(s, x, FirstPage(start, n), LastPage(start, n) - FirstPage(start, n) + 1)
  }

  lemma NothingMissed(start: Start, n: nat)
    requires Transfer(start, n) && Covers(start, n)
    ensures Missed(start, n) == {}
  {
    LastPageBound(start, n);
    InPageRange(FirstPage(start, n), LastPage(start, n) - FirstPage(start, n) + 1);
    hide WordOffset, FirstPage, LastPage, PageRange;
  }

  /** The pages written whose blocks are not invalidated. */
  function Missed(start: Start, n: nat): set<nat>
    requires Transfer(start, n)
  {
    LastPageBound(start, n);
    WrittenPages(start, n) - PageRange(FirstPage(start, n), LastPage(start, n) - FirstPage(start, n) + 1)
  }

  // ---------------------------------------------------------------- transfers that reach the end of RAM

  const ZERO_WORD: Word := [0, 0, 0, 0]
  const ONE_WORD: Word := [1, 0, 0, 0]

  /** RAM of zeros, and one valid block of n instructions at offset o. */
  function OneBlock(o: nat, n: nat): State {
    State(map[0 := Block(o, seq(n, _ => ZERO_WORD), 1, [], [], false, true, 0, 0, 0)], {}, map[o := Some(0)],
          seq(PAGE_COUNT, p requires 0 <= p < PAGE_COUNT => if o / PAGE_SIZE <= p <= (o + 4 * n) / PAGE_SIZE then [0] else []),
          seq(PAGE_COUNT, p requires 0 <= p < PAGE_COUNT => o / PAGE_SIZE <= p <= (o + 4 * n) / PAGE_SIZE),
          map[o := Code(1)], map[], seq(RAM_SIZE, _ => 0), seq(BIOS_SIZE, _ => 0))
  }

  lemma OneBlockInv(o: nat, n: nat)
    requires o % 4 == 0 && n > 0 && o + 4 * n <= RAM_SIZE
    ensures Inv(OneBlock(o, n)) && ValidBlock(OneBlock(o, n), 0)
  {
    var s := OneBlock(o, n);
    assert Physical(o) == o && Live(s, 0);
    assert Shape(s) && Covered(s);
    forall p, id | 0 <= p < |s.pages| && id in s.pages[p]
      ensures ListedOk(s, {}, id)
    {
    }
    assert Listed(s, {});
    forall i | 0 <= i < n
      ensures WordAt(s, o, i) == ZERO_WORD
    {
      assert WordAt(s, o, i) == s.ram[o + 4 * i..o + 4 * i + 4] == ZERO_WORD;
    }
    assert Coherent(s, {}) by {
      assert Current(s, s.heap[0]);
    }
    assert forall a, l :: !IsLink(s, a, l) && !IsBackLink(s, a, l);
    EmptyCounts();
    assert FastTrue(s);
  }

  /** Filling consecutive addresses with one word puts that word at each of them. */
  lemma {:induction false} FillAt(s: State, start: Start, n: nat, i: nat)
    requires MemoryOk(s) && Transfer(start, RAM_SIZE / 4) && i < n
    ensures WordOffset(start, i) + 4 <= RAM_SIZE
    ensures HoldsOne(WriteWords(s, start, Ones(n)), WordOffset(start, i))
    decreases n
  {
    var o, k := WordOffset(start, i), WordOffset(start, n - 1);
    WordOffsetAligned(start, RAM_SIZE / 4, i);
    WordOffsetAligned(start, RAM_SIZE / 4, n - 1);
    assert Ones(n)[..n - 1] == Ones(n - 1);
    hide WordOffset, WriteWords, Write;
    var r := WriteWords(s, start, Ones(n - 1));
    if i < n - 1 {
      FillAt(s, start, n - 1, i);
    }
    WriteOne(r, k, o);
    WriteWordsLast(s, start, Ones(n));
  }

  function Ones(n: nat): seq<Word> { seq(n, _ => ONE_WORD) }

  predicate HoldsOne(s: State, o: nat) { o + 4 <= |s.ram| && s.ram[o..o + 4] == ONE_WORD }

  lemma WriteOne(r: State, k: nat, o: nat)
    requires MemoryOk(r) && k % 4 == 0 && o % 4 == 0 && k + 4 <= RAM_SIZE && o + 4 <= RAM_SIZE
    requires o == k || HoldsOne(r, o)
    ensures HoldsOne(Write(r, k, ONE_WORD), o)
  {
    var t := Write(r, k, ONE_WORD);
    if o != k {
      assert o + 4 <= k || k + 4 <= o;
      assert t.ram[o..o + 4] == r.ram[o..o + 4];
    }
  }

  lemma WriteWordsLast(s: State, start: Start, words: seq<Word>)
    requires MemoryOk(s) && Transfer(start, RAM_SIZE / 4) && words != []
    ensures var n := |words| - 1;
            && WordOffset(start, n) + 4 <= RAM_SIZE
            && WriteWords(s, start, words) == Write(WriteWords(s, start, words[..n]), WordOffset(start, n), words[n])
  {
    WordOffsetAligned(start, RAM_SIZE / 4, |words| - 1);
    hide WordOffset, Write;
  }

  /** A written word on a page outside the range, whose page and successor are both outside. */
  lemma MissedWord(start: Start, n: nat) returns (i: nat)
    requires Transfer(start, n) && !Covers(start, n)
    ensures i < n && MissedAt(start, n, WordOffset(start, i))
  {
    if start.direction.Up? {
      i := MissedUp(start, n);
    } else {
      CoversExactly(start, n);
      i := MissedDown(start, n);
    }
  }

  predicate MissedAt(start: Start, n: nat, o: nat)
    requires n > 0
  {
    && o + 4 <= RAM_SIZE && o % 4 == 0
    && !(FirstPage(start, n) <= o / PAGE_SIZE <= LastPage(start, n))
    && !(FirstPage(start, n) <= (o + 4) / PAGE_SIZE <= LastPage(start, n))
  }

  /** Downwards, the first word is missed, or else the one at address 0. */
  lemma MissedDown(start: Start, n: nat) returns (i: nat)
    requires Transfer(start, n) && !start.direction.Up? && !CoversRam(start, n)
    ensures i < n && MissedAt(start, n, WordOffset(start, i))
  {
    var o := start.offset;
    if start.direction.Down? && 4 * n <= o {
      i := 0;
      DownInside(start, n);
      assert WordOffset(start, 0) == o && (o + 4) / PAGE_SIZE == o / PAGE_SIZE > (o - 4) / PAGE_SIZE;
      WordOffsetAligned(start, n, 0);
    } else {
      i := o / 4;
      assert WordOffset(start, i) == 0;
      var last := if start.direction.Down? then n else n - 1;
      assert WordOffset(start, last) == RAM_SIZE + o - 4 * last;
    }
  }

  lemma MissedUp(start: Start, n: nat) returns (i: nat)
    requires Transfer(start, n) && start.direction.Up? && !Covers(start, n)
    ensures i < n && MissedAt(start, n, WordOffset(start, i))
  {
    i :| 0 <= i < n && !(FirstPage(start, n) <= WordOffset(start, i) / PAGE_SIZE <= LastPage(start, n));
    WordOffsetAligned(start, n, i);
    var p := WordOffset(start, i) / PAGE_SIZE;
    if p + 1 == FirstPage(start, n) {
      BelowRange(start, n, i);
      i := (RAM_SIZE - start.offset) / 4 + 1024 * p;
      PageStart(start, n, i, p);
    } else {
      hide FirstPage, LastPage, WordOffset;
    }
  }

  lemma BelowRange(start: Start, n: nat, i: nat)
    requires Transfer(start, n) && start.direction.Up? && i < n
    requires WordOffset(start, i) / PAGE_SIZE + 1 == FirstPage(start, n)
    ensures InvalidatedFrom(start, n) == start.offset + 4 * n - RAM_SIZE
  {
    if start.offset + 4 * n < RAM_SIZE {
      InsideCovers(start, n);
      hide WordOffset, FirstPage, LastPage;
    }
  }

  lemma PageStart(start: Start, n: nat, i: nat, p: nat)
    requires Transfer(start, n) && start.direction.Up?
    requires p + 1 == FirstPage(start, n) && i == (RAM_SIZE - start.offset) / 4 + 1024 * p
    requires InvalidatedFrom(start, n) == start.offset + 4 * n - RAM_SIZE
    ensures i < n && MissedAt(start, n, WordOffset(start, i))
  {
    var from := InvalidatedFrom(start, n);
    hide InvalidatedFrom;
    assert start.offset + 4 * i == RAM_SIZE + PAGE_SIZE * p;
    assert PAGE_SIZE * p + PAGE_SIZE <= from;
    assert WordOffset(start, i) == PAGE_SIZE * p;
    assert (PAGE_SIZE * p + 4) / PAGE_SIZE == p;
  }

  /** If the range misses a page that is written, there are contents for which a valid block is left
      with words that memory no longer holds. */
  lemma DmaMisses(start: Start, n: nat, frame: nat) returns (s: State, words: seq<Word>)
    requires Transfer(start, n) && !CoversRam(start, n)
    ensures Inv(s) && |words| == n && MemoryOk(s) && |s.pages| == |s.bits| == PAGE_COUNT && PagesInHeap(s)
    ensures var t := Dma(s, start, words, frame);
            MemoryOk(t) && ValidBlock(t, 0) && Below2MB(t.heap[0]) && t.heap[0].pc % 4 == 0 && !Current(t, t.heap[0]) && !Inv(t)
  {
    CoversExactly(start, n);
    var i := MissedWord(start, n);
    var o := WordOffset(start, i);
    s, words := OneBlock(o, 1), Ones(n);
    OneBlockInv(o, 1);
    ListedInHeap(s, {});
    WriteWordsInv(s, start, words);
    FillAt(s, start, n, i);
    OneBlockPages(o, start, n);
    hide InvExcept, InvalidateTransfer, WriteWords, FirstPage, LastPage, WordOffset, OneBlock, Physical, MissedAt,
         RangeUnlisted;
    RangeOfDma(WriteWords(s, start, words), start, n, frame);
    StaleBlock(Dma(s, start, words, frame), o);
  }

  lemma OneBlockPages(o: nat, start: Start, n: nat)
    requires Transfer(start, n) && MissedAt(start, n, o)
    ensures forall s: State :: s.pages == OneBlock(o, 1).pages ==>
              |s.pages| == PAGE_COUNT && RangeUnlisted(s, start, n, 0)
    ensures 0 in OneBlock(o, 1).heap && OneBlock(o, 1).heap[0].pc == o && OneBlock(o, 1).heap[0].words == [ZERO_WORD]
  {
    LastPageBound(start, n);
    hide FirstPage, LastPage;
    var first, last := FirstPage(start, n), LastPage(start, n);
    forall p | first <= p <= last
      ensures OneBlock(o, 1).pages[p] == []
    {
      assert o / PAGE_SIZE <= (o + 4) / PAGE_SIZE <= o / PAGE_SIZE + 1;
    }
  }

  lemma StaleBlock(t: State, o: nat)
    requires o % 4 == 0 && o + 4 <= RAM_SIZE && MemoryOk(t) && HoldsOne(t, o)
    requires ValidBlock(t, 0) && t.heap[0].pc == o && t.heap[0].words == [ZERO_WORD]
    ensures Below2MB(t.heap[0]) && !Current(t, t.heap[0]) && !Inv(t)
  {
    var b := t.heap[0];
    assert ONE_WORD[0] != ZERO_WORD[0];
    assert WordAt(t, o, 0) == t.ram[o..o + 4];
    assert b.words[0] != WordAt(t, o, 0);
    assert Below2MB(b) && !Current(t, b);
  }

  /** One word written to the last word of RAM is enough. */
  lemma LastWordIsMissed()
    ensures var start := Start(RAM_SIZE - 4, Up); Transfer(start, 1) && !CoversRam(start, 1) && !Covers(start, 1)
  {
    CoversExactly(Start(RAM_SIZE - 4, Up), 1);
  }

  /** And so is one word written downwards, to the start of any page. */
  lemma PageStartIsMissed(p: nat)
    requires p < 512
    ensures var start := Start(PAGE_SIZE * p, Down); Transfer(start, 1) && !CoversRam(start, 1) && !Covers(start, 1)
  {
    CoversExactly(Start(PAGE_SIZE * p, Down), 1);
  }
}
