/** Which blocks the page lists of the code cache name (src/core/cpu_code_cache.cpp:774-832): a deleted
    block can be among them only if some block has claimed two pages. */
module PageLists {
  import opened CodeCacheModel
  import opened CodeCacheStores
  import opened Common

  /** A block in RAM that claims one page. */
  predicate OnePage(b: Block) { InRam(b) ==> StartPage(b) == EndPage(b) }

  ghost predicate AllOnePage(s: State) {
    forall id :: Live(s, id) ==> OnePage(s.heap[id])
  }

  /** Page lists name valid blocks only, each on the page where it starts. */
  ghost predicate Tidy(s: State) {
    forall p, id :: 0 <= p < |s.pages| && id in s.pages[p] ==> ListedHere(s, p, id)
  }

  predicate ListedHere(s: State, p: nat, id: Id) {
    ValidBlock(s, id) && InRam(s.heap[id]) && StartPage(s.heap[id]) == p
  }

  /** A page list that names a deleted block: invalidating this page follows a dangling pointer. */
  ghost predicate Dangling(s: State, p: nat) {
    p < |s.pages| && exists id :: id in s.pages[p] && id in s.retired
  }

  lemma TidyNotDangling(s: State, p: nat)
    requires Shape(s) && Tidy(s)
    ensures !Dangling(s, p)
  {
  }

  /** If the state was tidy, and mapped blocks claim one page each, it stays tidy. */
  ghost predicate StaysTidy(s: State, t: State) { Tidy(s) && AllOnePage(t) ==> Tidy(t) }

  /** Nothing happens to the lists, and to the blocks in them. */
  lemma TidyKept(s: State, t: State)
    requires t.pages == s.pages
    requires forall x :: ValidBlock(s, x) ==> ValidBlock(t, x) && t.heap[x].pc == s.heap[x].pc
    ensures Tidy(s) ==> Tidy(t)
  {
    if Tidy(s) {
      forall p, id | 0 <= p < |t.pages| && id in t.pages[p]
        ensures ListedHere(t, p, id)
      {
        assert ListedHere(s, p, id);
      }
    }
  }

  /** Only the mapped blocks and the lists matter. */
  lemma StaysTidyThen(s: State, t: State, u: State)
    requires StaysTidy(s, t) && u.pages == t.pages
    requires forall x :: ValidBlock(t, x) ==> ValidBlock(u, x) && u.heap[x].pc == t.heap[x].pc
    requires forall x :: Live(t, x) ==> Live(u, x) && u.heap[x].pc == t.heap[x].pc && u.heap[x].words == t.heap[x].words
    ensures StaysTidy(s, u)
  {
    TidyKept(t, u);
    hide Tidy, ValidBlock;
    if AllOnePage(u) {
      forall x | Live(t, x)
        ensures OnePage(t.heap[x])
      {
        assert OnePage(u.heap[x]);
      }
    }
  }

  /** A page's list goes when its blocks do, and they are on no other list. */
  lemma PageTidy(s: State, t: State, p: nat)
    requires |t.pages| == |s.pages| && p < |s.pages| && t.pages[p] == []
    requires forall q :: 0 <= q < |s.pages| && q != p ==> t.pages[q] == s.pages[q]
    requires forall x :: ValidBlock(s, x) && x !in s.pages[p] ==> ValidBlock(t, x) && t.heap[x].pc == s.heap[x].pc
    ensures Tidy(s) ==> Tidy(t)
  {
    if Tidy(s) {
      forall q, id | 0 <= q < |t.pages| && id in t.pages[q]
        ensures ListedHere(t, q, id)
      {
        assert ListedHere(s, q, id);
      }
    }
  }

  lemma InvalidateOneTidy(s: State, p: nat, frame: nat, stale: set<nat>)
    requires InvExcept(s, {}, stale) && p < PAGE_COUNT
    ensures PagesInHeap(s) && |s.pages| == |s.bits| == PAGE_COUNT
    ensures Tidy(s) ==> Tidy(InvalidateOne(s, p, frame))
    ensures forall q :: 0 <= q < PAGE_COUNT && q != p ==> InvalidateOne(s, p, frame).pages[q] == s.pages[q]
  {
    InvalidateOneInv(s, p, frame, stale);
    BitOfPage(s, p, stale);
    hide InvExcept;
    if s.bits[p] {
      hide InvalidateList;
      PageTidy(s, InvalidateOne(s, p, frame), p);
    }
  }

  lemma RangeKeepsInv(s: State, first: nat, n: nat, frame: nat, stale: set<nat>)
    requires InvExcept(s, {}, stale) && first + n <= PAGE_COUNT
    ensures PagesInHeap(s) && |s.pages| == |s.bits| == PAGE_COUNT
    ensures InvExcept(InvalidateRange(s, first, n, frame), {}, stale - PageRange(first, n))
  {
    InvalidateRangeInv(s, first, n, frame, stale);
  }

  lemma {:induction false} RangeTidy(s: State, first: nat, n: nat, frame: nat, stale: set<nat>)
    requires InvExcept(s, {}, stale) && first + n <= PAGE_COUNT
    ensures PagesInHeap(s) && |s.pages| == |s.bits| == PAGE_COUNT
    ensures Tidy(s) ==> Tidy(InvalidateRange(s, first, n, frame))
    decreases n
  {
    hide InvExcept, Tidy, InvalidateOne, PagesInHeap, PageRange, MemoryOk;
    ListedInHeap(s, stale);
    if n > 0 {
      RangeTidy(s, first, n - 1, frame, stale);
      RangeKeepsInv(s, first, n - 1, frame, stale);
      InvalidateOneTidy(InvalidateRange(s, first, n - 1, frame), first + n - 1, frame, stale - PageRange(first, n - 1));
    }
  }

  lemma StoreTidy(s: State, offset: nat, bytes: seq<Byte>, skipRedundant: bool, frame: nat)
    requires Inv(s) && Aligned(offset, bytes)
    ensures PagesInHeap(s) && MemoryOk(s) && |s.pages| == |s.bits| == PAGE_COUNT
    ensures Tidy(s) ==> Tidy(Store(s, offset, bytes, skipRedundant, frame))
    ensures forall q :: 0 <= q < PAGE_COUNT && q != offset / PAGE_SIZE ==>
              Store(s, offset, bytes, skipRedundant, frame).pages[q] == s.pages[q]
  {
    ListedInHeap(s, {});
    AlignedInPage(offset, bytes);
    var p := offset / PAGE_SIZE;
    InvalidateOneTidy(s, p, frame, {});
    StoreInv(s, offset, bytes, skipRedundant, frame);
    hide InvExcept, InvalidateOne;
    TidyKept(InvalidateOne(s, p, frame), InvalidateOne(s, p, frame).(ram := Write(s, offset, bytes).ram));
  }

  lemma DmaTidy(s: State, start: Start, words: seq<Word>, frame: nat)
    requires Inv(s) && Transfer(start, |words|)
    ensures PagesInHeap(s) && MemoryOk(s) && |s.pages| == |s.bits| == PAGE_COUNT
    ensures Tidy(s) ==> Tidy(Dma(s, start, words, frame))
  {
    var u := WriteWords(s, start, words);
    WriteWordsInv(s, start, words);
    ListedInHeap(s, {});
    TidyKept(s, u);
    LastPageBound(start, |words|);
    hide InvExcept, WriteWords, Tidy, WrittenPages;
    var first := FirstPage(start, |words|);
    RangeTidy(u, first, LastPage(start, |words|) - first + 1, frame, WrittenPages(start, |words|));
  }

  /** A block that is not valid is on no list of a tidy state, so only the new one enters. */
  lemma InstallTidy(s: State, id: Id, b: Block)
    requires Shape(s) && Installable(s, id, b)
    ensures StaysTidy(s, Install(s, id, b))
  {
    var t := Install(s, id, b);
    InstallFrame(s, id, b);
    if Tidy(s) && AllOnePage(t) {
      assert OnePage(b);
      hide Installable, Shape;
      forall p, x | 0 <= p < |t.pages| && x in t.pages[p]
        ensures ListedHere(t, p, x)
      {
        if x in s.pages[p] {
          assert ListedHere(s, p, x);
        }
      }
    }
  }

  lemma ForgetTidy(s: State, id: Id)
    requires Inv(s) && Live(s, id) && s.heap[id].invalidated
    ensures Tidy(s) ==> Tidy(Forget(s, id))
    ensures Forget(s, id).pages == s.pages
  {
    ForgetInv(s, id);
    DetachFrame(s, id, s.heap[id]);
    hide InvExcept, Detach;
    TidyKept(s, Forget(s, id));
  }

  lemma RetireTidy(s: State, id: Id)
    requires InvExcept(s, {id}, {}) && id in s.heap && s.heap[id].pc !in s.blocks
    ensures Tidy(s) ==> Tidy(Retire(s, id))
    ensures id in Retire(s, id).retired && Retire(s, id).pages == s.pages
  {
    RetireInv(s, id);
    hide InvExcept;
    TidyKept(s, Retire(s, id));
  }

  /** A store on one of the pages that a block claims leaves it on the lists of the others. */
  lemma StoreLeavesListed(s: State, id: Id, offset: nat, bytes: seq<Byte>, frame: nat)
    requires Inv(s) && Aligned(offset, bytes) && ValidBlock(s, id) && Overlaps(s, id, offset / PAGE_SIZE)
    ensures PagesInHeap(s) && MemoryOk(s) && |s.pages| == |s.bits| == PAGE_COUNT
    ensures var t := Store(s, offset, bytes, false, frame);
            && Inv(t) && Live(t, id) && t.heap[id].invalidated && MemoryOk(t) && |t.pages| == PAGE_COUNT
            && t.heap[id].pc == s.heap[id].pc && t.heap[id].words == s.heap[id].words
            && t.heap[id].recompileFrame == s.heap[id].recompileFrame && t.heap[id].recompileCount == s.heap[id].recompileCount
            && forall q :: 0 <= q < PAGE_COUNT && q != offset / PAGE_SIZE && Overlaps(s, id, q) ==> id in t.pages[q]
  {
    StoreTidy(s, offset, bytes, false, frame);
    StoreInv(s, offset, bytes, false, frame);
    AlignedInPage(offset, bytes);
    hide Store, Coherent, LinksMatched, LinksValid, SitesTrue, FastTrue, Listed;
  }
}
