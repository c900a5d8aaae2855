/** Whole runs of the code cache, and what its invariant means for the code that gets executed. */
module CodeCacheRuns {
  import opened BlockCounters
  import opened BlockDecoding
  import opened CodeCache
  import opened CodeCacheModel
  import opened CodeCacheStores
  import opened Common
  import opened PageLists
  import FastMap
  import FastmemLut

  /** Everything the emulator does to the cache. */
  datatype Op =
    | Lookup(pc: nat, allowFlush: bool, env: Env)
    | Next(from: Id, pc: nat, env: Env)
    | Resolve(from: Id, site: Site, pc: nat, env: Env)
    | CpuStore(address: nat, bytes: seq<Byte>, skipRedundant: bool, frame: nat)
    | FastmemStore(window: nat, offset: nat, bytes: seq<Byte>)
    | DeviceWrite(start: Start, words: seq<Word>, frame: nat)
    | DropAll(frame: nat)
    | FlushAll

  /** When the emulator does it: a running block is mapped, a branch is resolved once, accesses are
      aligned, a direct store goes through an unmirrored window to a page whose code bit is clear, and a
      transfer invalidates the pages it writes. */
  predicate Enabled(s: State, op: Op)
    requires |s.bits| == PAGE_COUNT
  {
    match op
    case Lookup(pc, _, _) => pc % 4 == 0
    case Next(from, pc, _) => ValidBlock(s, from) && pc % 4 == 0 && pc != s.heap[from].pc
    case Resolve(from, site, pc, _) =>
      Live(s, from) && pc % 4 == 0 && site.hostPc != 0 && (site.hostPc in s.sites ==> !s.sites[site.hostPc].Code?)
    case CpuStore(a, bytes, _, _) => Aligned(a % RAM_SIZE, bytes)
    case FastmemStore(window, offset, bytes) =>
      window < |FastmemLut.MIRRORS| && FastmemLut.Unmirrored(window) && Aligned(offset, bytes) && !s.bits[offset / PAGE_SIZE]
    case DeviceWrite(start, words, _) => Transfer(start, |words|) && CoversRam(start, |words|)
    case DropAll(_) => true
    case FlushAll => true
  }

  lemma BitsSized(s: State)
    requires Inv(s)
    ensures |s.bits| == |s.pages| == PAGE_COUNT && MemoryOk(s)
  {
  }

  method Step(c: CodeCache, op: Op)
    requires c.Valid() && |c.bits| == PAGE_COUNT && Enabled(c.S(), op)
    modifies c, c.dispatch.cells, c.lut.bits, c.lut.lut
    ensures c.Valid() && StaysTidy(old(c.S()), c.S())
  {
    hide InvExcept, CodeCache.Backed, Tidy, AllOnePage;
    match op
    case Lookup(pc, allowFlush, env) => var _ := c.LookupBlock(pc, allowFlush, env);
    case Next(from, pc, env) => var _ := c.NextBlock(from, pc, env);
    case Resolve(from, site, pc, env) => c.ResolveBranch(from, site, pc, env);
    case CpuStore(a, bytes, skip, frame) => c.WriteRam(a, bytes, skip, frame);
    case FastmemStore(window, offset, bytes) =>
      var address := FastmemLut.MIRRORS[window] + offset;
      WindowEntry(c, window, offset, bytes);
      c.DirectStore(window, address, bytes);
    case DeviceWrite(start, words, frame) => c.DmaWrite(start, words, frame);
    case DropAll(frame) => c.InvalidateAll(frame);
    case FlushAll => c.Flush();
  }

  /** Where the code bit is clear, the entry for a direct write is not null. */
  lemma WindowEntry(c: CodeCache, window: nat, offset: nat, bytes: seq<Byte>)
    requires c.Backed() && window < |FastmemLut.MIRRORS| && FastmemLut.Unmirrored(window) && Aligned(offset, bytes)
    requires |c.bits| == PAGE_COUNT && !c.bits[offset / PAGE_SIZE]
    ensures var address := FastmemLut.MIRRORS[window] + offset;
            && address % RAM_SIZE == offset && address < FastmemLut.MIRRORS[window] + RAM_SIZE
            && address / PAGE_SIZE < FastmemLut.LUT_PAGES && c.lut.WriteSlot(address).Some?
  {
    var address := FastmemLut.MIRRORS[window] + offset;
    WindowOffset(window, offset);
    c.lut.DirectAccess(window, address);
    c.CodeBit(offset / PAGE_SIZE);
  }

  lemma WindowOffset(window: nat, offset: nat)
    requires window < |FastmemLut.MIRRORS| && FastmemLut.Unmirrored(window) && offset < RAM_SIZE
    ensures (FastmemLut.MIRRORS[window] + offset) % RAM_SIZE == offset
  {
    assert FastmemLut.MIRRORS[window] % RAM_SIZE == 0;
  }

  /** The page lists that an operation may walk. */
  ghost predicate Walks(op: Op, p: nat) {
    match op
    case CpuStore(a, _, _, _) => p == a % RAM_SIZE / PAGE_SIZE
    case DeviceWrite(start, words, _) =>
      Transfer(start, |words|) && FirstPage(start, |words|) <= p <= LastPage(start, |words|)
    case _ => false
  }

  /** A deleted block is about to be used. From here on the source reads freed memory, while the model
      still has the deleted block as it was; up to here the model is what the source does. */
  ghost predicate UsesDeleted(s: State, op: Op) { exists p :: Walks(op, p) && Dangling(s, p) }

  /** A run from any state that satisfies the invariant, in which every step is enabled or skipped: at
      every point host code is only reachable if it was made from what memory holds now, and the tables
      that the host uses agree. If no block ever claims two pages, no deleted block is ever used. */
  method Run(c: CodeCache, ops: seq<Op>) returns (ghost trace: seq<State>)
    requires c.Valid()
    modifies c, c.dispatch.cells, c.lut.bits, c.lut.lut
    ensures |trace| == |ops| + 1 && trace[0] == old(c.S()) && trace[|ops|] == c.S()
    ensures forall i :: 0 <= i <= |ops| ==> Inv(trace[i]) && MemoryOk(trace[i]) && Sound(trace[i])
    ensures c.Valid() && TablesTrue(c)
    ensures Tidy(trace[0]) && (forall i :: 0 <= i <= |ops| ==> AllOnePage(trace[i])) ==>
              && (forall i, p :: 0 <= i <= |ops| ==> !Dangling(trace[i], p))
              && (forall i :: 0 <= i < |ops| ==> !UsesDeleted(trace[i], ops[i]))
  {
    hide InvExcept, Enabled, Sound, CodeCache.Backed, Tidy, AllOnePage, TablesTrue, Dangling;
    trace := [c.S()];
    BitsSized(c.S());
    InvIsSound(c.S());
    for i := 0 to |ops|
      invariant c.Valid() && |trace| == i + 1 && trace[0] == old(c.S()) && trace[i] == c.S()
      invariant forall j :: 0 <= j <= i ==> Inv(trace[j]) && MemoryOk(trace[j]) && Sound(trace[j])
      invariant Tidy(trace[0]) && OnePageUpTo(trace, i) ==> forall j :: 0 <= j <= i ==> Tidy(trace[j])
    {
      ghost var s := c.S();
      BitsSized(c.S());
      StaysTidyRefl(c.S());
      ViewDecides(c, ops[i]);
      if Enabled(EnablingView(c), ops[i]) {
        Step(c, ops[i]);
      }
      BitsSized(c.S());
      InvIsSound(c.S());
      assert StaysTidy(s, c.S());
      OnePageNext(trace, c.S());
      trace := trace + [c.S()];
    }
    TablesAreTrue(c);
    forall i, p | 0 <= i <= |ops| && Tidy(trace[i])
      ensures !Dangling(trace[i], p)
    {
      TidyIsSafe(trace[i], p);
    }
  }

  /** Mapped blocks claim one page each, in all states up to the i-th. */
  ghost predicate OnePageUpTo(trace: seq<State>, i: nat)
    requires i < |trace|
  {
    forall j :: 0 <= j <= i ==> AllOnePage(trace[j])
  }

  lemma OnePageNext(trace: seq<State>, s: State)
    requires trace != []
    ensures OnePageUpTo(trace + [s], |trace|) <==> OnePageUpTo(trace, |trace| - 1) && AllOnePage(s)
  {
    hide AllOnePage;
    var more := trace + [s];
    assert forall j :: 0 <= j < |trace| ==> more[j] == trace[j];
    assert more[|trace|] == s;
  }

  lemma TidyIsSafe(s: State, p: nat)
    requires Inv(s) && Tidy(s)
    ensures !Dangling(s, p)
  {
    TidyNotDangling(s, p);
  }

  /** What decides whether an operation is enabled: the state as it is at run time, with the code bits
      from their table. Which targets the dispatch table holds plays no part, so it is left empty. */
  function EnablingView(c: CodeCache): State
    reads c, c.lut.bits
  {
    State(c.heap, c.retired, c.blocks, c.pages, c.lut.bits[..], map[], c.sites, c.ram, c.bios)
  }

  lemma ViewDecides(c: CodeCache, op: Op)
    requires c.Valid() && |c.bits| == PAGE_COUNT
    ensures |EnablingView(c).bits| == PAGE_COUNT
    ensures Enabled(EnablingView(c), op) <==> Enabled(c.S(), op)
  {
  }

  /** The dispatch table of the host sends every aligned pc from which code can be fetched to the code of
      the valid block for it, or to the compiler, and any other to the invalid-code function. The table
      of directly accessible pages lets no write through to a page that a valid block touches. */
  ghost predicate TablesTrue(c: CodeCache)
    reads c, c.dispatch.tables, c.dispatch.cells, c.lut.bits, c.lut.lut
  {
    && c.dispatch.Allocation(|FastMap.RANGES|) && c.lut.Sized()
    && (forall pc: nat :: pc % 4 == 0 && pc < 0x1_0000_0000 ==>
          c.dispatch.Dispatch(pc) == if FastMap.Allocated(pc) then FastMap.To(FastExpected(c.S(), pc)) else FastMap.Invalid)
    && (forall window: nat, address: nat, id: Id ::
          DirectlyMapped(window, address) && ValidBlock(c.S(), id) && Overlaps(c.S(), id, FastmemLut.AccessPage(address)) ==>
            c.lut.WriteSlot(address) == None)
  }

  predicate DirectlyMapped(window: nat, address: nat) {
    && window < |FastmemLut.MIRRORS| && FastmemLut.Unmirrored(window) && address / PAGE_SIZE < FastmemLut.LUT_PAGES
    && FastmemLut.MIRRORS[window] <= address < FastmemLut.MIRRORS[window] + RAM_SIZE
  }

  lemma TablesAreTrue(c: CodeCache)
    requires c.Valid()
    ensures TablesTrue(c)
  {
    hide InvExcept, FastMap.Allocated;
    forall pc: nat | pc % 4 == 0 && pc < 0x1_0000_0000
      ensures c.dispatch.Dispatch(pc) == if FastMap.Allocated(pc) then FastMap.To(FastExpected(c.S(), pc)) else FastMap.Invalid
    {
      c.dispatch.DispatchesBlocks(c.S(), pc);
    }
    forall window: nat, address: nat, id: Id |
        DirectlyMapped(window, address) && ValidBlock(c.S(), id) && Overlaps(c.S(), id, FastmemLut.AccessPage(address))
      ensures c.lut.WriteSlot(address) == None
    {
      c.lut.NoDirectWriteToCode(c.S(), window, address, id);
    }
  }

  /** Host code h belongs to the valid block of key pc, and if that block lies below 2 MB or in the
      BIOS then its words are those in memory. If it is in RAM, a store to any of its pages is seen. */
  ghost predicate Fresh(s: State, h: nat, pc: nat)
    requires MemoryOk(s)
  {
    exists id :: Serves(s, id, pc) && s.heap[id].hostCode == h && pc % 4 == 0
      && (Below2MB(s.heap[id]) || InBios(s.heap[id]) ==> Current(s, s.heap[id]))
      && (forall p :: 0 <= p < |s.pages| && Overlaps(s, id, p) ==> p < |s.bits| && s.bits[p] && id in s.pages[p])
  }

  ghost predicate Sound(s: State)
    requires MemoryOk(s)
  {
    && (forall pc, h :: FastLookup(s, pc) == Code(h) ==> Fresh(s, h, pc))
    && (forall at, h :: at in s.sites && s.sites[at] == Code(h) ==> exists pc :: Fresh(s, h, pc))
  }

  /** The dispatch table and the patched branches lead to fresh code only. */
  lemma InvIsSound(s: State)
    requires Inv(s)
    ensures MemoryOk(s) && Sound(s)
  {
    forall pc, h | FastLookup(s, pc) == Code(h)
      ensures Fresh(s, h, pc)
    {
      assert FastLookup(s, pc) == FastExpected(s, pc);
      ValidIsFresh(s, s.blocks[pc].value);
    }
    forall at, h | at in s.sites && s.sites[at] == Code(h)
      ensures exists pc :: Fresh(s, h, pc)
    {
      var pc := SiteIsFresh(s, at, h);
    }
  }

  lemma SiteIsFresh(s: State, at: nat, h: nat) returns (pc: nat)
    requires Inv(s) && at in s.sites && s.sites[at] == Code(h)
    ensures MemoryOk(s) && Fresh(s, h, pc)
  {
    hide Listed, Covered, Coherent, FastTrue, Fresh;
    assert Recorded(s, at);
    var a, l :| IsLink(s, a, l) && l.site.hostPc == at;
    pc := s.heap[l.block].pc;
    ValidIsFresh(s, l.block);
  }

  lemma ValidIsFresh(s: State, id: Id)
    requires Inv(s) && ValidBlock(s, id)
    ensures MemoryOk(s) && Fresh(s, s.heap[id].hostCode, s.heap[id].pc)
  {
    hide LinksMatched, LinksValid, SitesTrue, FastTrue;
    assert Serves(s, id, s.heap[id].pc);
  }

  /** The number of links from a to b is the number of back links from b to a, and links lead to
      valid blocks only. */
  lemma LinkGraph(s: State, a: Id, b: Id)
    requires Inv(s) && a in s.heap && b in s.heap
    ensures CountTo(s.heap[a].succs, b) == CountTo(s.heap[b].preds, a)
    ensures CountTo(s.heap[a].succs, b) > 0 ==> Live(s, a) && ValidBlock(s, b) && a !in s.retired
  {
    hide Coherent, Covered, FastTrue;
    if CountTo(s.heap[a].succs, b) > 0 {
      CountZero(s.heap[a].succs, b);
      var l :| l in s.heap[a].succs && l.block == b;
      assert IsLink(s, a, l);
    }
  }

  // ---------------------------------------------------------------- deleted blocks in page lists

  /** A store on one page that a valid block claims, followed by its revalidation. If that fails, and
      nothing was flushed on the way, the block is deleted while all other pages it claims list it. */
  method StoreThenRevalidate(c: CodeCache, id: Id, a: nat, bytes: seq<Byte>, frame: nat, allowFlush: bool, env: Env)
    returns (ok: bool)
    requires c.Valid() && ValidBlock(c.S(), id) && Aligned(a % RAM_SIZE, bytes)
    requires Overlaps(c.S(), id, a % RAM_SIZE / PAGE_SIZE)
    modifies c, c.dispatch.cells, c.lut.bits, c.lut.lut
    ensures c.Valid() && MemoryOk(old(c.S())) && old(c.heap)[id].pc % 4 == 0
    ensures a % RAM_SIZE + |bytes| <= |old(c.S()).ram| && MemoryOk(Write(old(c.S()), a % RAM_SIZE, bytes))
    ensures var b, w := old(c.heap)[id], Write(old(c.S()), a % RAM_SIZE, bytes);
            ok <==> Current(w, b) || (!TooOften(b, env.frame) && Compiles(w.ram, w.bios, b.pc, allowFlush, env))
    ensures !ok && (!allowFlush || env.space) ==>
              id in c.retired
              && forall q :: 0 <= q < PAGE_COUNT && q != a % RAM_SIZE / PAGE_SIZE && Overlaps(old(c.S()), id, q) ==>
                   Dangling(c.S(), q)
  {
    hide InvExcept, CodeCache.Backed, Tidy, AllOnePage, Aligned, Store, TooOften, Compiles, Current;
    ghost var s := c.S();
    StoreLeaves(s, id, a % RAM_SIZE, bytes, frame);
    c.WriteRam(a, bytes, false, frame);
    ghost var t := c.S();
    ok := c.RevalidateBlock(id, allowFlush, env);
    BitsSized(c.S());
  }

  lemma StoreLeaves(s: State, id: Id, offset: nat, bytes: seq<Byte>, frame: nat)
    requires Inv(s) && Aligned(offset, bytes) && ValidBlock(s, id) && Overlaps(s, id, offset / PAGE_SIZE)
    ensures PagesInHeap(s) && MemoryOk(s) && |s.pages| == |s.bits| == PAGE_COUNT && offset + |bytes| <= |s.ram|
    ensures s.heap[id].pc % 4 == 0 && MemoryOk(Write(s, offset, bytes))
    ensures var t, w := Store(s, offset, bytes, false, frame), Write(s, offset, bytes);
            && Inv(t) && Live(t, id) && t.heap[id].invalidated && MemoryOk(t) && |t.pages| == PAGE_COUNT
            && t.ram == w.ram && t.bios == w.bios
            && t.heap[id].pc == s.heap[id].pc && (Current(t, t.heap[id]) <==> Current(w, s.heap[id]))
            && (forall now :: TooOften(t.heap[id], now) <==> TooOften(s.heap[id], now))
            && forall q :: 0 <= q < PAGE_COUNT && q != offset / PAGE_SIZE && Overlaps(s, id, q) ==> id in t.pages[q]
  {
    hide InvExcept, Store, Overlaps, ValidBlock, Live;
    StoreLeavesListed(s, id, offset, bytes, frame);
    StoreInv(s, offset, bytes, false, frame);
    LiveKnown(Store(s, offset, bytes, false, frame), id);
    BitsSized(s);
    SameCurrent(Store(s, offset, bytes, false, frame), Write(s, offset, bytes), s.heap[id]);
  }

  lemma SameCurrent(t: State, w: State, b: Block)
    requires MemoryOk(t) && MemoryOk(w) && t.ram == w.ram && t.bios == w.bios && b.pc % 4 == 0
    ensures Current(t, b) <==> Current(w, b)
    ensures forall c: Block :: c.pc == b.pc && c.words == b.words ==> (Current(t, c) <==> Current(w, b))
  {
    hide Fetch;
    assert forall i: nat :: WordAt(t, b.pc, i) == WordAt(w, b.pc, i);
  }

  /** A decoder that ends every block at its first word, and a code generator that works or not. */
  function OneWordEnv(frame: nat, generates: bool): Env {
    Env(frame, Decoder(w => true, w => false, w => true), true, generates, 1)
  }

  /** So every valid block that starts in RAM and claims two pages can come to be deleted and still
      listed: one byte stored over its first word, and a compilation that fails, are enough. */
  method TwoPagesCanDangle(c: CodeCache, id: Id, frame: nat)
    requires c.Valid() && ValidBlock(c.S(), id) && !OnePage(c.heap[id])
    modifies c, c.dispatch.cells, c.lut.bits, c.lut.lut
    ensures c.Valid() && Dangling(c.S(), EndPage(old(c.heap)[id]))
  {
    hide InvExcept, CodeCache.Backed, Dangling, Current, Write;
    var a := Physical(c.heap[id].pc);
    FirstByteStale(c.S(), id);
    var ok := StoreThenRevalidate(c, id, a, [OtherFirstByte(c.heap[id])], frame, false, OneWordEnv(frame, false));
  }

  /** A byte that is not the first one of the block. */
  function OtherFirstByte(b: Block): Byte {
    if b.words != [] && b.words[0] != [] && b.words[0][0] == 0 then 1 else 0
  }

  lemma FirstByteStale(s: State, id: Id)
    requires Inv(s) && ValidBlock(s, id) && !OnePage(s.heap[id])
    ensures var b := s.heap[id]; var a := Physical(b.pc);
            && MemoryOk(s) && a < RAM_SIZE && a % RAM_SIZE == a && b.pc % 4 == 0 && EndPage(b) < PAGE_COUNT
            && Overlaps(s, id, a / PAGE_SIZE) && Overlaps(s, id, EndPage(b)) && a / PAGE_SIZE != EndPage(b)
            && !Current(Write(s, a, [OtherFirstByte(b)]), b)
  {
    KnownShape(s, id);
    hide InvExcept;
    FirstByteChanged(s, s.heap[id]);
  }

  lemma KnownShape(s: State, id: Id)
    requires Inv(s) && id in s.heap
    ensures MemoryOk(s) && s.heap[id].pc % 4 == 0
    ensures InRam(s.heap[id]) ==> EndPage(s.heap[id]) < PAGE_COUNT
  {
    hide Listed, Covered, Coherent, LinksMatched, LinksValid, SitesTrue, FastTrue;
  }

  lemma FirstByteChanged(s: State, b: Block)
    requires MemoryOk(s) && b.pc % 4 == 0 && b.words != [] && InRam(b)
    ensures !Current(Write(s, Physical(b.pc), [OtherFirstByte(b)]), b)
  {
    var w := Write(s, Physical(b.pc), [OtherFirstByte(b)]);
    assert w.ram[Physical(b.pc)] == OtherFirstByte(b);
    hide Write;
    if Current(w, b) {
      FirstWord(w, b);
    }
  }

  lemma FirstWord(s: State, b: Block)
    requires MemoryOk(s) && b.pc % 4 == 0 && InRam(b) && b.words != [] && Current(s, b)
    ensures Physical(b.pc) + 4 <= RAM_SIZE && b.words[0] == s.ram[Physical(b.pc)..Physical(b.pc) + 4]
    ensures b.words[0][0] == s.ram[Physical(b.pc)]
  {
    PhysicalAligned(b.pc);
    assert b.words[0] == WordAt(s, b.pc, 0);
  }

  /** And such blocks there are: a block that ends on a page boundary claims the next page, too. */
  method DeletedBlockStaysListed() returns (c: CodeCache)
    ensures fresh(c) && c.Valid() && Dangling(c.S(), 1)
  {
    hide InvExcept, CodeCache.Backed, Dangling;
    c := new CodeCache(seq(RAM_SIZE, _ => 0), seq(BIOS_SIZE, _ => 0));
    var pc := PAGE_SIZE - 4;
    OneWordBlock(c.ram, c.bios, pc);
    var r := c.LookupBlock(pc, true, OneWordEnv(0, true));
    TwoPagesCanDangle(c, r.value, 0);
  }

  lemma OneWordBlock(ram: seq<Byte>, bios: seq<Byte>, pc: nat)
    requires |ram| == RAM_SIZE && |bios| == BIOS_SIZE && pc == PAGE_SIZE - 4
    ensures Collect(ram, bios, OneWordEnv(0, true).decoder, pc) == Some([Fetch(ram, bios, pc)])
  {
    assert Physical(pc) == pc;
  }
}
