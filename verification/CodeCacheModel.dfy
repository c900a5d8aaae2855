/** State, invariants and state transformers of the CPU code cache (src/core/cpu_code_cache.cpp)
    together with the RAM code-page tracking of src/core/bus.cpp. Blocks are named by identifiers
    into a heap map, so that `delete` and dangling page-list entries can be talked about. */
module CodeCacheModel {
  import opened Common

  const PAGE_SIZE: nat := 4096
  const RAM_SIZE: nat := 0x20_0000
  const RAM_MIRROR_END: nat := 0x80_0000
  const BIOS_BASE: nat := 0x1FC0_0000
  const BIOS_SIZE: nat := 0x8_0000
  const PAGE_COUNT: nat := 2049
  const FRAME_WRAP: nat := 0x1_0000_0000

  type Id = nat

  /** A branch in emitted code that can be patched: its address (0 for none) and its resolver. */
  datatype Site = Site(hostPc: nat, resolver: nat)

  /** CodeBlock::LinkInfo. */
  datatype Link = Link(block: Id, site: Site)

  /** CodeBlock. The instruction words are contiguous from `pc`. */
  datatype Block = Block(
    pc: nat, words: seq<seq<Byte>>, hostCode: nat,
    preds: seq<Link>, succs: seq<Link>,
    invalidated: bool, canLink: bool,
    recompileFrame: nat, recompileCount: nat, invalidateFrame: nat)

  /** Where a patchable branch, or an entry of the fast map, sends the host CPU. */
  datatype Target = Code(host: nat) | Resolver(at: nat) | Return | CompileStub

  datatype State = State(
    heap: map<Id, Block>,            // allocated blocks, and the storage of retired ones
    retired: set<Id>,                // deleted blocks that a page list may still name
    blocks: map<nat, Option<Id>>,    // s_blocks; None is the null entry of an interpreted block
    pages: seq<seq<Id>>,             // m_ram_block_map
    bits: seq<bool>,                 // m_ram_code_bits
    fast: map<nat, Target>,          // entries of the fast map that were ever set
    sites: map<nat, Target>,         // patched branches
    ram: seq<Byte>, bios: seq<Byte>)

  // ---------------------------------------------------------------- guest memory

  function Physical(pc: nat): nat { pc % 0x2000_0000 }

  lemma PhysicalAligned(pc: nat)
    requires pc % 4 == 0
    ensures Physical(pc) % 4 == 0
  {
    assert Physical(pc) == 4 * (pc / 4 - 0x800_0000 * (pc / 0x2000_0000));
  }

  predicate Readable(a: nat) {
    a < RAM_MIRROR_END || BIOS_BASE <= a < BIOS_BASE + BIOS_SIZE
  }

  /** SafeReadInstruction: RAM is mirrored, the BIOS is constant, anything else reads as zero. */
  function Fetch(ram: seq<Byte>, bios: seq<Byte>, a: nat): seq<Byte>
    requires |ram| == RAM_SIZE && |bios| == BIOS_SIZE && a % 4 == 0
  {
    if a < RAM_MIRROR_END then
      MirrorOffset(a);
      ram[a % RAM_SIZE..a % RAM_SIZE + 4]
    else if BIOS_BASE <= a < BIOS_BASE + BIOS_SIZE then
      bios[a - BIOS_BASE..a - BIOS_BASE + 4]
    else
      [0, 0, 0, 0]
  }

  lemma MirrorOffset(a: nat)
    requires a % 4 == 0
    ensures a % RAM_SIZE % 4 == 0 && a % RAM_SIZE + 4 <= RAM_SIZE
  {
    assert a % RAM_SIZE == 4 * (a / 4 - 0x8_0000 * (a / RAM_SIZE));
  }

  /** Instructions can be fetched at pc: from KUSEG, KSEG0 or KSEG1, out of RAM or the BIOS. */
  predicate Fetchable(pc: nat) { pc / 0x2000_0000 in {0, 4, 5} && Readable(Physical(pc)) }

  predicate MemoryOk(s: State) { |s.ram| == RAM_SIZE && |s.bios| == BIOS_SIZE }

  /** The words that compiling at `pc` collects: non-empty, readable, and equal to memory. */
  ghost predicate Decodes(s: State, pc: nat, words: seq<seq<Byte>>)
    requires MemoryOk(s) && pc % 4 == 0
  {
    && words != [] && pc / 0x2000_0000 in {0, 4, 5}
    && forall i :: 0 <= i < |words| ==> Readable(Physical(pc) + 4 * i) && words[i] == WordAt(s, pc, i)
  }

  ghost function WordAt(s: State, pc: nat, i: nat): seq<Byte>
    requires MemoryOk(s) && pc % 4 == 0
  {
    Fetch(s.ram, s.bios, Physical(pc) + 4 * i)
  }

  /** The stored instruction words equal current memory. */
  ghost predicate Current(s: State, b: Block)
    requires MemoryOk(s) && b.pc % 4 == 0
  {
    forall i :: 0 <= i < |b.words| ==> b.words[i] == WordAt(s, b.pc, i)
  }

  // ---------------------------------------------------------------- page ranges

  function StartPage(b: Block): nat { Physical(b.pc) / PAGE_SIZE }

  /** The end is exclusive of nothing: a block that ends on a page boundary also claims the next page. */
  function EndPage(b: Block): nat { (Physical(b.pc) + 4 * |b.words|) / PAGE_SIZE }

  predicate InRam(b: Block) { Physical(b.pc) < RAM_SIZE }

  /** Wholly inside the 2 MB of RAM. */
  predicate Below2MB(b: Block) { Physical(b.pc) + 4 * |b.words| <= RAM_SIZE }

  predicate InBios(b: Block) { Physical(b.pc) >= RAM_MIRROR_END }

  // ---------------------------------------------------------------- the invariant

  /** The block that the block map holds for its own key. */
  predicate Live(s: State, id: Id) {
    id in s.heap && s.heap[id].pc in s.blocks && s.blocks[s.heap[id].pc] == Some(id)
  }

  predicate ValidBlock(s: State, id: Id) { Live(s, id) && !s.heap[id].invalidated }

  /** A valid block that the map holds for this key. */
  predicate Serves(s: State, id: Id, pc: nat) { ValidBlock(s, id) && s.heap[id].pc == pc }

  /** Shapes, and: mapped blocks sit under their own key and have not been deleted. */
  ghost predicate Shape(s: State) {
    && MemoryOk(s) && |s.pages| == |s.bits| == PAGE_COUNT
    && s.retired <= s.heap.Keys
    && (forall id :: id in s.heap ==> s.heap[id].pc % 4 == 0 && Fetchable(s.heap[id].pc))
    && (forall id :: id in s.heap && InRam(s.heap[id]) ==> EndPage(s.heap[id]) < PAGE_COUNT)
    && (forall k :: k in s.blocks && s.blocks[k].Some? ==>
          s.blocks[k].value in s.heap && s.heap[s.blocks[k].value].pc == k && s.blocks[k].value !in s.retired)
  }

  /** A page's bit is set exactly if its list is non-empty. A listed block is mapped, or is a retired
      one whose key now maps to null; `pending` is the block that is being recompiled. */
  ghost predicate Listed(s: State, pending: set<Id>)
    requires |s.pages| == |s.bits|
  {
    && (forall p :: 0 <= p < |s.pages| ==> (s.bits[p] <==> s.pages[p] != []))
    && (forall p, id :: 0 <= p < |s.pages| && id in s.pages[p] ==> ListedOk(s, pending, id))
  }

  ghost predicate ListedOk(s: State, pending: set<Id>, id: Id) {
    id in s.heap && (id in pending || Live(s, id) || (s.heap[id].pc in s.blocks && s.blocks[s.heap[id].pc] == None))
  }

  predicate Overlaps(s: State, id: Id, p: nat) {
    id in s.heap && InRam(s.heap[id]) && StartPage(s.heap[id]) <= p <= EndPage(s.heap[id])
  }

  /** A valid block in RAM is listed on every page it touches. */
  ghost predicate Covered(s: State)
    requires |s.pages| == |s.bits|
  {
    forall id, p | 0 <= p < |s.pages| :: Overlaps(s, id, p) && ValidBlock(s, id) ==> id in s.pages[p]
  }

  /** Cache coherence: the words of a valid block below 2 MB, or in the BIOS, equal memory. `stale` is
      a page whose blocks are about to be invalidated. */
  ghost predicate Coherent(s: State, stale: set<nat>)
    requires Shape(s)
  {
    forall id :: ValidBlock(s, id) && (Below2MB(s.heap[id]) || InBios(s.heap[id])) ==>
      Current(s, s.heap[id]) || (exists p :: p in stale && Overlaps(s, id, p))
  }

  function CountTo(links: seq<Link>, id: Id): nat {
    if links == [] then 0 else CountTo(links[..|links| - 1], id) + (if links[|links| - 1].block == id then 1 else 0)
  }

  /** The link graph is symmetric, with multiplicity, and only mapped blocks are linked. */
  ghost predicate LinksMatched(s: State) {
    && (forall a, b :: a in s.heap && b in s.heap ==> CountTo(s.heap[a].succs, b) == CountTo(s.heap[b].preds, a))
    && (forall a, l :: IsLink(s, a, l) ==> Live(s, a) && Live(s, l.block) && IsBackLink(s, l.block, Link(a, l.site)))
    && (forall b, l :: IsBackLink(s, b, l) ==> Live(s, b) && Live(s, l.block) && IsLink(s, l.block, Link(b, l.site)))
  }

  predicate IsLink(s: State, a: Id, l: Link) { a in s.heap && l in s.heap[a].succs }

  predicate IsBackLink(s: State, b: Id, l: Link) { b in s.heap && l in s.heap[b].preds }

  /** No successor is invalidated. */
  ghost predicate LinksValid(s: State) {
    forall a, l :: IsLink(s, a, l) ==> l.block in s.heap && !s.heap[l.block].invalidated
  }

  /** One branch site belongs to at most one link, and is patched to that link's target; conversely
      every site patched to block code is recorded in a link. */
  ghost predicate SitesTrue(s: State) {
    && (forall a, l, a', l' :: IsLink(s, a, l) && IsLink(s, a', l') && l.site.hostPc == l'.site.hostPc != 0 ==>
          a == a' && l == l')
    && (forall a, l :: IsLink(s, a, l) && l.site.hostPc != 0 ==>
          l.block in s.heap && l.site.hostPc in s.sites && s.sites[l.site.hostPc] == Code(s.heap[l.block].hostCode))
    && (forall h :: h in s.sites && s.sites[h].Code? ==> Recorded(s, h))
  }

  /** A patched site that sends the host into block code belongs to a link. */
  ghost predicate Recorded(s: State, h: nat) {
    h != 0 && exists a, l :: IsLink(s, a, l) && l.site.hostPc == h
  }

  function FastLookup(s: State, pc: nat): Target {
    if pc in s.fast then s.fast[pc] else CompileStub
  }

  /** The fast map sends every pc to the code of the valid block mapped there, or to the compiler. */
  ghost predicate FastTrue(s: State) {
    forall pc :: FastLookup(s, pc) == FastExpected(s, pc)
  }

  function FastExpected(s: State, pc: nat): Target {
    if pc in s.blocks && s.blocks[pc].Some? && s.blocks[pc].value in s.heap && !s.heap[s.blocks[pc].value].invalidated
    then Code(s.heap[s.blocks[pc].value].hostCode) else CompileStub
  }

  ghost predicate Inv(s: State) { InvExcept(s, {}, {}) }

  ghost predicate InvExcept(s: State, pending: set<Id>, stale: set<nat>) {
    && Shape(s) && Listed(s, pending) && Covered(s) && Coherent(s, stale)
    && LinksMatched(s) && LinksValid(s) && SitesTrue(s) && FastTrue(s)
  }

  // ---------------------------------------------------------------- unlinking

  /** The links that do not mention `id`. */
  function Without(links: seq<Link>, id: Id): (r: seq<Link>)
    ensures forall l :: l in r <==> l in links && l.block != id
  {
    if links == [] then []
    else Without(links[..|links| - 1], id) + (if links[|links| - 1].block == id then [] else [links[|links| - 1]])
  }

  /** Every branch of the given links is pointed back at its resolver. */
  function Restore(sites: map<nat, Target>, links: seq<Link>): map<nat, Target> {
    if links == [] then sites
    else
      var r, l := Restore(sites, links[..|links| - 1]), links[|links| - 1];
      if l.site.hostPc != 0 then r[l.site.hostPc := Resolver(l.site.resolver)] else r
  }

  function UnlinkedBlock(b: Block, self: bool, id: Id): Block {
    if self then b.(preds := [], succs := []) else b.(preds := Without(b.preds, id), succs := Without(b.succs, id))
  }

  /** UnlinkBlock: all links that mention the block disappear, on both sides, and their branches
      are restored. */
  function Unlink(s: State, id: Id): State
    requires id in s.heap
  {
    var b := s.heap[id];
    s.(heap := map x | x in s.heap :: UnlinkedBlock(s.heap[x], x == id, id),
       sites := Restore(Restore(s.sites, b.preds), Without(b.succs, id)))
  }

  lemma {:induction false} CountWithout(links: seq<Link>, id: Id, x: Id)
    ensures CountTo(Without(links, id), x) == if x == id then 0 else CountTo(links, x)
    decreases |links|
  {
    if links != [] {
      var n := |links| - 1;
      CountWithout(links[..n], id, x);
      var w := Without(links[..n], id);
      if links[n].block != id {
        assert (w + [links[n]])[..|w|] == w;
      }
      assert w + [] == w;
    }
  }

  lemma {:induction false} CountZero(links: seq<Link>, id: Id)
    ensures CountTo(links, id) == 0 <==> forall l :: l in links ==> l.block != id
    ensures CountTo(links, id) == 0 ==> Without(links, id) == links
    decreases |links|
  {
    if links != [] {
      var n := |links| - 1;
      CountZero(links[..n], id);
      assert links == links[..n] + [links[n]];
    }
  }

  /** What the restored sites look like. */
  lemma {:induction false} RestoreAt(sites: map<nat, Target>, links: seq<Link>, h: nat)
    ensures (forall l :: l in links && l.site.hostPc != 0 ==> l.site.hostPc != h) ==>
              (h in Restore(sites, links) <==> h in sites)
              && (h in sites ==> Restore(sites, links)[h] == sites[h])
    ensures h != 0 && (exists l :: l in links && l.site.hostPc == h) ==>
              h in Restore(sites, links)
              && exists l :: l in links && l.site.hostPc == h && Restore(sites, links)[h] == Resolver(l.site.resolver)
    decreases |links|
  {
    if links != [] {
      var n := |links| - 1;
      RestoreAt(sites, links[..n], h);
      assert links == links[..n] + [links[n]];
      assert links[n] in links;
    }
  }

  /** The sites after unlinking: those of links that mention the block point to a resolver, all
      others are untouched. */
  lemma UnlinkSites(s: State, id: Id, h: nat)
    requires id in s.heap
    ensures var t := Unlink(s, id);
            var own := s.heap[id].preds + Without(s.heap[id].succs, id);
            if h != 0 && exists l :: l in own && l.site.hostPc == h
            then h in t.sites && t.sites[h].Resolver?
            else (h in t.sites <==> h in s.sites) && (h in s.sites ==> t.sites[h] == s.sites[h])
  {
    var b := s.heap[id];
    var r := Restore(s.sites, b.preds);
    RestoreAt(s.sites, b.preds, h);
    RestoreAt(r, Without(b.succs, id), h);
    var own := b.preds + Without(b.succs, id);
    assert forall l :: l in own <==> l in b.preds || l in Without(b.succs, id);
  }

  lemma UnlinkIsLink(s: State, id: Id)
    requires id in s.heap
    ensures forall a, l :: IsLink(Unlink(s, id), a, l) <==> IsLink(s, a, l) && a != id && l.block != id
    ensures forall b, l :: IsBackLink(Unlink(s, id), b, l) <==> IsBackLink(s, b, l) && b != id && l.block != id
    ensures forall x :: Live(Unlink(s, id), x) <==> Live(s, x)
  {
    hide Restore;
  }

  lemma UnlinkCounts(s: State, id: Id, a: Id, b: Id)
    requires id in s.heap && a in s.heap && b in s.heap
    requires CountTo(s.heap[a].succs, b) == CountTo(s.heap[b].preds, a)
    ensures var t := Unlink(s, id); CountTo(t.heap[a].succs, b) == CountTo(t.heap[b].preds, a)
  {
    hide Restore;
    CountWithout(s.heap[a].succs, id, b);
    CountWithout(s.heap[b].preds, id, a);
    assert CountTo([], a) == CountTo([], b) == 0;
  }

  lemma UnlinkLinks(s: State, id: Id)
    requires id in s.heap && LinksMatched(s)
    ensures LinksMatched(Unlink(s, id))
  {
    hide CountTo, Live, IsLink, IsBackLink;
    UnlinkIsLink(s, id);
    var t := Unlink(s, id);
    forall a, b | a in t.heap && b in t.heap
      ensures CountTo(t.heap[a].succs, b) == CountTo(t.heap[b].preds, a)
    {
      UnlinkCounts(s, id, a, b);
    }
  }

  // ---------------------------------------------------------------- steps that keep the blocks

  /** t differs from s at most in links, flags, counters, page lists, fast map and sites. */
  ghost predicate SameBlocks(s: State, t: State) {
    && t.heap.Keys == s.heap.Keys && t.blocks == s.blocks && t.retired == s.retired
    && t.ram == s.ram && t.bios == s.bios && |t.pages| == |s.pages| && |t.bits| == |s.bits|
    && forall id :: id in s.heap ==>
         && t.heap[id].pc == s.heap[id].pc && t.heap[id].words == s.heap[id].words && t.heap[id].hostCode == s.heap[id].hostCode
         && t.heap[id].recompileFrame == s.heap[id].recompileFrame && t.heap[id].recompileCount == s.heap[id].recompileCount
  }

  lemma SameBlocksKeep(s: State, t: State)
    requires Shape(s) && SameBlocks(s, t)
    ensures Shape(t)
    ensures forall id :: Live(t, id) <==> Live(s, id)
    ensures forall id, p :: Overlaps(t, id, p) <==> Overlaps(s, id, p)
  {
  }

  lemma CoherentKept(s: State, t: State, stale: set<nat>)
    requires Shape(s) && Shape(t) && SameBlocks(s, t) && Coherent(s, stale)
    requires forall id :: ValidBlock(t, id) ==> ValidBlock(s, id)
    requires forall id, p :: Overlaps(t, id, p) <==> Overlaps(s, id, p)
    ensures Coherent(t, stale)
  {
    hide Overlaps;
    forall id | ValidBlock(t, id) && (Below2MB(t.heap[id]) || InBios(t.heap[id])) && Current(s, s.heap[id])
      ensures Current(t, t.heap[id])
    {
      assert forall i: nat :: WordAt(t, t.heap[id].pc, i) == WordAt(s, s.heap[id].pc, i);
    }
  }

  /** The flag and linking logic of InvalidateBlock. */
  function Marked(b: Block, allowFrame: bool, frame: nat): Block {
    var m := b.(invalidated := true);
    if !b.canLink then m
    else if !allowFrame then m.(invalidateFrame := (frame + FRAME_WRAP - 11) % FRAME_WRAP)
    else if Passed(b.invalidateFrame, frame) <= 10 then m.(canLink := false)
    else m.(invalidateFrame := frame)
  }

  /** Frames from one frame number to a later one; the counter has 32 bits. */
  function Passed(before: nat, now: nat): nat { (now - before) % FRAME_WRAP }

  /** m is the block b, invalid, with other counters. */
  predicate InvalidCopy(b: Block, m: Block) {
    m == b.(invalidated := true, canLink := m.canLink, invalidateFrame := m.invalidateFrame)
  }

  /** Taking a block out of use: its record becomes m, its links go, the fast map forgets it. */
  function Detach(s: State, id: Id, m: Block): State
    requires id in s.heap
  {
    var t := Unlink(s.(heap := s.heap[id := m]), id);
    t.(fast := t.fast[s.heap[id].pc := CompileStub])
  }

  /** InvalidateBlock. */
  function Invalidate(s: State, id: Id, allowFrame: bool, frame: nat): State
    requires id in s.heap
  {
    Detach(s, id, Marked(s.heap[id], allowFrame, frame))
  }

  lemma DetachFrame(s: State, id: Id, m: Block)
    requires id in s.heap && InvalidCopy(s.heap[id], m)
    ensures var t := Detach(s, id, m);
            && SameBlocks(s, t) && t.pages == s.pages && t.bits == s.bits
            && (forall x :: x in s.heap ==> t.heap[x].invalidated == (s.heap[x].invalidated || x == id))
  {
    hide Restore;
  }

  /** Once a block is out of every link, dropping its links changes no other block. */
  lemma MarkKeepsLinks(s: State, id: Id, b: Block)
    requires id in s.heap && LinksMatched(s)
    requires b.pc == s.heap[id].pc && b.preds == s.heap[id].preds && b.succs == s.heap[id].succs
    ensures var m := s.(heap := s.heap[id := b]);
            && LinksMatched(m)
            && (forall a, l :: IsLink(m, a, l) <==> IsLink(s, a, l))
  {
    hide CountTo;
    var m := s.(heap := s.heap[id := b]);
    assert forall x :: x in s.heap ==> m.heap[x].preds == s.heap[x].preds && m.heap[x].succs == s.heap[x].succs;
    assert forall x :: Live(m, x) <==> Live(s, x);
    assert forall a, l :: IsLink(m, a, l) <==> IsLink(s, a, l);
    assert forall a, l :: IsBackLink(m, a, l) <==> IsBackLink(s, a, l);
  }

  lemma DetachLinks(s: State, id: Id, m: Block)
    requires id in s.heap && InvalidCopy(s.heap[id], m) && LinksMatched(s) && LinksValid(s)
    ensures var t := Detach(s, id, m);
            && LinksMatched(t) && LinksValid(t)
            && (forall a, l :: IsLink(t, a, l) <==> IsLink(s, a, l) && a != id && l.block != id)
  {
    hide LinksMatched, Restore, IsLink;
    var r := s.(heap := s.heap[id := m]);
    MarkKeepsLinks(s, id, m);
    UnlinkLinks(r, id);
    UnlinkIsLink(r, id);
    var u := Unlink(r, id);
    var t := Detach(s, id, m);
    SameHeapLinks(u, t);
  }

  lemma MarkedIsCopy(b: Block, allowFrame: bool, frame: nat)
    ensures InvalidCopy(b, Marked(b, allowFrame, frame))
  {
  }

  lemma SameHeapLinks(s: State, t: State)
    requires t.heap == s.heap && t.blocks == s.blocks && LinksMatched(s)
    ensures LinksMatched(t)
    ensures forall a, l :: IsLink(t, a, l) <==> IsLink(s, a, l)
  {
    hide CountTo;
    assert forall x :: Live(t, x) <==> Live(s, x);
    assert forall a, l :: IsLink(t, a, l) <==> IsLink(s, a, l);
    assert forall a, l :: IsBackLink(t, a, l) <==> IsBackLink(s, a, l);
    forall a, b | a in t.heap && b in t.heap
      ensures CountTo(t.heap[a].succs, b) == CountTo(t.heap[b].preds, a)
    {
      assert CountTo(s.heap[a].succs, b) == CountTo(s.heap[b].preds, a);
    }
  }

  /** Sites after a block has been unlinked: what is left of the links is still patched, and no
      branch is left that sends the host into the code of the unlinked block. */
  lemma DetachSites(s: State, id: Id, m: Block)
    requires id in s.heap && InvalidCopy(s.heap[id], m) && LinksMatched(s) && LinksValid(s) && SitesTrue(s)
    ensures SitesTrue(Detach(s, id, m))
  {
    hide LinksMatched, LinksValid, Restore, Live, CountTo;
    var t := Detach(s, id, m);
    DetachLinks(s, id, m);
    DetachFrame(s, id, m);
    hide Detach;
    forall a, l | IsLink(t, a, l) && l.site.hostPc != 0
      ensures l.block in t.heap && l.site.hostPc in t.sites && t.sites[l.site.hostPc] == Code(t.heap[l.block].hostCode)
    {
      OwnSiteOnly(s, id, a, l);
      DetachSitesAt(s, id, m, l.site.hostPc);
    }
    forall h | h in t.sites && t.sites[h].Code?
      ensures Recorded(t, h)
    {
      DetachSitesAt(s, id, m, h);
      StillRecorded(s, t, id, h);
    }
  }

  /** A branch that belongs to a link, but to none that mentions the block, still belongs to one. */
  lemma StillRecorded(s: State, t: State, id: Id, h: nat)
    requires id in s.heap && LinksMatched(s) && Recorded(s, h) && !OwnSite(s, id, h)
    requires forall a, l :: IsLink(t, a, l) <==> IsLink(s, a, l) && a != id && l.block != id
    ensures Recorded(t, h)
  {
    hide LinksMatched, IsLink;
    var a, l :| IsLink(s, a, l) && l.site.hostPc == h;
    if a == id || l.block == id {
      MentionIsOwn(s, id, a, l);
      assert false;
    }
    assert IsLink(t, a, l);
  }

  ghost predicate OwnSite(s: State, id: Id, h: nat)
    requires id in s.heap
  {
    || (exists l :: l in s.heap[id].preds && l.site.hostPc == h)
    || (exists l :: l in s.heap[id].succs && l.block != id && l.site.hostPc == h)
  }

  lemma DetachSitesAt(s: State, id: Id, m: Block, h: nat)
    requires id in s.heap && InvalidCopy(s.heap[id], m)
    ensures var t := Detach(s, id, m);
            if h != 0 && OwnSite(s, id, h) then h in t.sites && t.sites[h].Resolver?
            else (h in t.sites <==> h in s.sites) && (h in s.sites ==> t.sites[h] == s.sites[h])
  {
    hide Restore;
    var r := s.(heap := s.heap[id := m]);
    UnlinkSites(r, id, h);
    var own := s.heap[id].preds + Without(s.heap[id].succs, id);
    assert forall l :: l in own <==> l in s.heap[id].preds || (l in s.heap[id].succs && l.block != id);
  }

  /** A link that mentions the block is recorded at the block itself. */
  lemma MentionIsOwn(s: State, id: Id, a: Id, l: Link)
    requires id in s.heap && LinksMatched(s) && IsLink(s, a, l) && (a == id || l.block == id)
    ensures OwnSite(s, id, l.site.hostPc)
  {
    hide CountTo, Live;
    if l.block == id {
      assert IsBackLink(s, id, Link(a, l.site));
    }
  }

  /** A link that does not mention the block shares no branch with one that does. */
  lemma OwnSiteOnly(s: State, id: Id, a: Id, l: Link)
    requires id in s.heap && LinksMatched(s) && SitesTrue(s)
    requires IsLink(s, a, l) && a != id && l.block != id && l.site.hostPc != 0
    ensures !OwnSite(s, id, l.site.hostPc)
  {
    hide CountTo, Live, Recorded;
    forall k | k in s.heap[id].preds
      ensures k.site.hostPc != l.site.hostPc
    {
      assert IsBackLink(s, id, k);
    }
    forall k | k in s.heap[id].succs && k.block != id
      ensures k.site.hostPc != l.site.hostPc
    {
      assert IsLink(s, id, k);
    }
  }

  /** Invalidating a listed block keeps the whole invariant and makes exactly that block invalid. */
  lemma DetachInv(s: State, id: Id, m: Block, stale: set<nat>)
    requires InvExcept(s, {}, stale) && ListedOk(s, {}, id) && InvalidCopy(s.heap[id], m)
    ensures var t := Detach(s, id, m);
            && InvExcept(t, {}, stale)
            && SameBlocks(s, t) && t.pages == s.pages && t.bits == s.bits
            && (forall x :: ValidBlock(t, x) <==> ValidBlock(s, x) && x != id)
  {
    hide LinksMatched, LinksValid, SitesTrue, Coherent, Listed, Covered, FastTrue, Overlaps;
    var t := Detach(s, id, m);
    DetachFrame(s, id, m);
    SameBlocksKeep(s, t);
    hide Detach;
    DetachLinks(s, id, m);
    DetachSites(s, id, m);
    CoherentKept(s, t, stale);
    DetachFast(s, id, m);
    PagesKept(s, t);
  }

  /** InvalidateBlock on a listed block. */
  lemma InvalidateInv(s: State, id: Id, allowFrame: bool, frame: nat, stale: set<nat>)
    requires InvExcept(s, {}, stale) && ListedOk(s, {}, id)
    ensures var t := Invalidate(s, id, allowFrame, frame);
            && InvExcept(t, {}, stale)
            && SameBlocks(s, t) && t.pages == s.pages && t.bits == s.bits
            && (forall x :: ValidBlock(t, x) <==> ValidBlock(s, x) && x != id)
  {
    hide InvExcept, Detach;
    MarkedIsCopy(s.heap[id], allowFrame, frame);
    DetachInv(s, id, Marked(s.heap[id], allowFrame, frame), stale);
  }

  lemma PagesKept(s: State, t: State)
    requires Shape(s) && SameBlocks(s, t) && t.pages == s.pages && t.bits == s.bits && Listed(s, {}) && Covered(s)
    requires forall id :: ValidBlock(t, id) ==> ValidBlock(s, id)
    ensures Listed(t, {}) && Covered(t)
  {
    SameBlocksKeep(s, t);
    forall p, id | 0 <= p < |t.pages| && id in t.pages[p]
      ensures ListedOk(t, {}, id)
    {
      assert ListedOk(s, {}, id);
    }
  }

  lemma DetachFast(s: State, id: Id, m: Block)
    requires Shape(s) && FastTrue(s) && ListedOk(s, {}, id) && InvalidCopy(s.heap[id], m)
    ensures FastTrue(Detach(s, id, m))
  {
    hide Restore;
    var t := Detach(s, id, m);
    DetachFrame(s, id, m);
    forall pc
      ensures FastLookup(t, pc) == FastExpected(t, pc)
    {
      assert FastLookup(s, pc) == FastExpected(s, pc);
    }
  }

  /** Invalidating a list of blocks in order. */
  function InvalidateList(s: State, ids: seq<Id>, frame: nat): (t: State)
    requires forall id :: id in ids ==> id in s.heap
    ensures t.heap.Keys == s.heap.Keys
  {
    if ids == [] then s
    else
      var r := InvalidateList(s, ids[..|ids| - 1], frame);
      Invalidate(r, ids[|ids| - 1], true, frame)
  }

  lemma {:induction false} InvalidateListInv(s: State, ids: seq<Id>, frame: nat, stale: set<nat>)
    requires InvExcept(s, {}, stale) && forall id :: id in ids ==> ListedOk(s, {}, id)
    ensures forall id :: id in ids ==> id in s.heap
    ensures var t := InvalidateList(s, ids, frame);
            && InvExcept(t, {}, stale)
            && SameBlocks(s, t) && t.pages == s.pages && t.bits == s.bits
            && (forall x :: ValidBlock(t, x) <==> ValidBlock(s, x) && x !in ids)
    decreases |ids|
  {
    hide InvExcept, Invalidate, SameBlocks;
    if ids != [] {
      var n := |ids| - 1;
      InvalidateListInv(s, ids[..n], frame, stale);
      var r := InvalidateList(s, ids[..n], frame);
      ListedOkKept(s, r, ids[n]);
      InvalidateInv(r, ids[n], true, frame, stale);
      SameBlocksTrans(s, r, InvalidateList(s, ids, frame));
      assert ids == ids[..n] + [ids[n]];
    } else {
      SameBlocksRefl(s);
    }
  }

  lemma ListedOkKept(s: State, t: State, id: Id)
    requires SameBlocks(s, t) && ListedOk(s, {}, id)
    ensures ListedOk(t, {}, id)
  {
  }

  lemma SameBlocksRefl(s: State)
    ensures SameBlocks(s, s)
  {
  }

  lemma SameBlocksTrans(s: State, t: State, u: State)
    requires SameBlocks(s, t) && SameBlocks(t, u)
    ensures SameBlocks(s, u)
  {
  }

  /** InvalidateBlocksWithPageIndex: afterwards no valid block touches the page. */
  function InvalidatePage(s: State, p: nat, frame: nat): State
    requires p < |s.pages| == |s.bits| && forall id :: id in s.pages[p] ==> id in s.heap
  {
    var t := InvalidateList(s, s.pages[p], frame);
    s.(heap := t.heap, sites := t.sites, fast := t.fast, pages := s.pages[p := []], bits := s.bits[p := false])
  }

  lemma InvalidateListRest(s: State, ids: seq<Id>, frame: nat)
    requires forall id :: id in ids ==> id in s.heap
    ensures var t := InvalidateList(s, ids, frame); t == s.(heap := t.heap, sites := t.sites, fast := t.fast)
    decreases |ids|
  {
    hide Restore, Marked, UnlinkedBlock;
    if ids != [] {
      InvalidateListRest(s, ids[..|ids| - 1], frame);
    }
  }

  lemma InvalidatePageInv(s: State, p: nat, frame: nat, stale: set<nat>)
    requires InvExcept(s, {}, stale) && p < PAGE_COUNT
    ensures forall id :: id in s.pages[p] ==> id in s.heap
    ensures var t := InvalidatePage(s, p, frame);
            && InvExcept(t, {}, stale - {p})
            && SameBlocks(s, t)
            && (forall x :: ValidBlock(t, x) <==> ValidBlock(s, x) && x !in s.pages[p])
            && (forall x :: ValidBlock(t, x) ==> !Overlaps(t, x, p))
            && (forall q :: 0 <= q < PAGE_COUNT ==> t.pages[q] == if q == p then [] else s.pages[q])
  {
    AllListedOk(s, p, stale);
    hide InvExcept, ListedOk, SameBlocks, Overlaps, InvalidateList;
    var u := InvalidateList(s, s.pages[p], frame);
    InvalidateListInv(s, s.pages[p], frame, stale);
    InvalidateListRest(s, s.pages[p], frame);
    PageCleared(u, p, stale);
    var t := InvalidatePage(s, p, frame);
    assert t == u.(pages := u.pages[p := []], bits := u.bits[p := false]);
    SameBlocksTrans(s, u, t);
  }

  lemma AllListedOk(s: State, p: nat, stale: set<nat>)
    requires InvExcept(s, {}, stale) && p < PAGE_COUNT
    ensures |s.pages| == |s.bits| == PAGE_COUNT
    ensures forall id :: id in s.pages[p] ==> ListedOk(s, {}, id)
  {
    hide Covered, Coherent, LinksMatched, LinksValid, SitesTrue, FastTrue;
  }

  /** Emptying the list of a page that no valid block touches any more. */
  lemma PageCleared(u: State, p: nat, stale: set<nat>)
    requires InvExcept(u, {}, stale) && p < PAGE_COUNT
    requires forall x :: ValidBlock(u, x) ==> x !in u.pages[p]
    ensures var t := u.(pages := u.pages[p := []], bits := u.bits[p := false]);
            InvExcept(t, {}, stale - {p}) && SameBlocks(u, t)
            && (forall x :: ValidBlock(t, x) <==> ValidBlock(u, x))
            && (forall x :: ValidBlock(t, x) ==> !Overlaps(t, x, p))
  {
    hide CountTo, Overlaps;
    var t := u.(pages := u.pages[p := []], bits := u.bits[p := false]);
    SameBlocksKeep(u, t);
    SameHeapLinks(u, t);
    CoherentKept(u, t, stale);
    StaleDropped(t, p, stale);
    FastKept(u, t);
    forall q, id | 0 <= q < |t.pages| && id in t.pages[q]
      ensures ListedOk(t, {}, id)
    {
      assert id in u.pages[q] && ListedOk(u, {}, id);
    }
  }

  lemma StaleDropped(t: State, p: nat, stale: set<nat>)
    requires Shape(t) && Coherent(t, stale) && forall x :: ValidBlock(t, x) ==> !Overlaps(t, x, p)
    ensures Coherent(t, stale - {p})
  {
    hide Overlaps;
    forall id | ValidBlock(t, id) && (Below2MB(t.heap[id]) || InBios(t.heap[id])) && !Current(t, t.heap[id])
      ensures exists q :: q in stale - {p} && Overlaps(t, id, q)
    {
      var q :| q in stale && Overlaps(t, id, q);
      assert q in stale - {p};
    }
  }

  lemma FastKept(s: State, t: State)
    requires FastTrue(s) && t.fast == s.fast && t.blocks == s.blocks && t.heap == s.heap
    ensures FastTrue(t)
  {
    forall pc
      ensures FastLookup(t, pc) == FastExpected(t, pc)
    {
      assert FastLookup(s, pc) == FastExpected(s, pc);
    }
  }

  // ---------------------------------------------------------------- writing guest RAM

  /** Bytes stored inside one page of RAM. */
  function Write(s: State, offset: nat, bytes: seq<Byte>): State
    requires offset + |bytes| <= |s.ram|
  {
    s.(ram := s.ram[..offset] + bytes + s.ram[offset + |bytes|..])
  }

  /** A store can only change words on the pages it touches, so only blocks that overlap those pages
      go stale. */
  lemma WriteCoherent(s: State, offset: nat, bytes: seq<Byte>, stale: set<nat>)
    requires Shape(s) && Coherent(s, stale) && offset + |bytes| <= RAM_SIZE
    requires forall o :: offset <= o < offset + |bytes| ==> o / PAGE_SIZE in stale
    ensures Shape(Write(s, offset, bytes)) && Coherent(Write(s, offset, bytes), stale)
  {
    var t := Write(s, offset, bytes);
    forall id | ValidBlock(t, id) && (Below2MB(t.heap[id]) || InBios(t.heap[id])) && !Current(t, t.heap[id])
      ensures exists p :: p in stale && Overlaps(t, id, p)
    {
      assert ValidBlock(s, id);
      if Current(s, s.heap[id]) {
        var b := s.heap[id];
        var i :| 0 <= i < |b.words| && WordAt(t, b.pc, i) != WordAt(s, b.pc, i);
        var o := WordChanged(s, offset, bytes, b, i);
        assert Overlaps(t, id, o / PAGE_SIZE);
      } else {
        var p :| p in stale && Overlaps(s, id, p);
        assert Overlaps(t, id, p);
      }
    }
  }

  /** A word that a store changes lies in RAM and contains one of the stored bytes. */
  lemma WordChanged(s: State, offset: nat, bytes: seq<Byte>, b: Block, i: nat) returns (o: nat)
    requires MemoryOk(s) && offset + |bytes| <= RAM_SIZE && b.pc % 4 == 0 && i < |b.words|
    requires Below2MB(b) || InBios(b)
    requires WordAt(Write(s, offset, bytes), b.pc, i) != WordAt(s, b.pc, i)
    ensures Below2MB(b) && offset <= o < offset + |bytes|
    ensures Physical(b.pc) + 4 * i <= o < Physical(b.pc) + 4 * i + 4
  {
    var a := Physical(b.pc) + 4 * i;
    var t := Write(s, offset, bytes);
    assert a < RAM_SIZE && a + 4 <= RAM_SIZE && Below2MB(b);
    assert t.ram[a..a + 4] != s.ram[a..a + 4];
    hide Fetch, WordAt, Physical;
    o := ByteChanged(s.ram, t.ram, a);
  }

  lemma ByteChanged(x: seq<Byte>, y: seq<Byte>, a: nat) returns (o: nat)
    requires |x| == |y| && a + 4 <= |x| && x[a..a + 4] != y[a..a + 4]
    ensures a <= o < a + 4 && x[o] != y[o]
  {
    var k :| 0 <= k < 4 && x[a..a + 4][k] != y[a..a + 4][k];
    o := a + k;
  }

  // ---------------------------------------------------------------- bringing a block into use

  /** AddBlockToPageMap. */
  function AddToPages(s: State, id: Id): State
    requires id in s.heap && |s.pages| == |s.bits|
  {
    s.(pages := seq(|s.pages|, p requires 0 <= p < |s.pages| => if Overlaps(s, id, p) then s.pages[p] + [id] else s.pages[p]),
       bits := seq(|s.bits|, p requires 0 <= p < |s.bits| => Overlaps(s, id, p) || s.bits[p]))
  }

  /** A block enters the map under its key: page lists, fast map, block map and flag. */
  function Install(s: State, id: Id, b: Block): State
    requires |s.pages| == |s.bits|
  {
    var t := AddToPages(s.(heap := s.heap[id := b]), id);
    t.(fast := t.fast[b.pc := Code(b.hostCode)], blocks := t.blocks[b.pc := Some(id)])
  }

  /** The block under compilation is in no list, link or map that the rest of the state needs. */
  ghost predicate Installable(s: State, id: Id, b: Block) {
    && b.pc % 4 == 0 && Fetchable(b.pc) && !b.invalidated && id !in s.retired
    && (InRam(b) ==> EndPage(b) < PAGE_COUNT)
    && (id in s.heap ==> b.pc == s.heap[id].pc && b.preds == s.heap[id].preds && b.succs == s.heap[id].succs)
    && (id !in s.heap ==> b.preds == b.succs == [])
    && (b.pc !in s.blocks
        || (s.blocks[b.pc] == Some(id) && id in s.heap && s.heap[id].invalidated && b.hostCode == s.heap[id].hostCode))
  }

  lemma InstallFrame(s: State, id: Id, b: Block)
    requires Shape(s) && Installable(s, id, b)
    ensures var t := Install(s, id, b);
            && Shape(t)
            && (forall x :: x in t.heap <==> x in s.heap || x == id)
            && (forall x :: x in s.heap && x != id ==> t.heap[x] == s.heap[x])
            && t.heap[id] == b && Live(t, id)
            && (forall x :: x != id ==> (Live(t, x) <==> Live(s, x)))
            && (forall x :: Live(s, x) ==> Live(t, x))
            && (forall x :: ValidBlock(t, x) <==> ValidBlock(s, x) || x == id)
            && (forall x, p :: x != id ==> (Overlaps(t, x, p) <==> Overlaps(s, x, p)))
  {
  }

  lemma InstallPages(s: State, id: Id, b: Block)
    requires Shape(s) && Installable(s, id, b) && Listed(s, {id}) && Covered(s)
    ensures var t := Install(s, id, b); Listed(t, {}) && Covered(t)
  {
    var t := Install(s, id, b);
    InstallFrame(s, id, b);
    hide Overlaps, InRam, Installable;
    forall p, x | 0 <= p < |t.pages| && x in t.pages[p]
      ensures ListedOk(t, {}, x)
    {
      if x != id {
        assert x in s.pages[p] && ListedOk(s, {id}, x);
      }
    }
    forall x, p | 0 <= p < |t.pages| && Overlaps(t, x, p) && ValidBlock(t, x)
      ensures x in t.pages[p]
    {
    }
  }

  lemma InstallCoherent(s: State, id: Id, b: Block, stale: set<nat>)
    requires Shape(s) && Installable(s, id, b) && Coherent(s, stale) && Current(s, b)
    ensures Shape(Install(s, id, b)) && Coherent(Install(s, id, b), stale)
  {
    var t := Install(s, id, b);
    InstallFrame(s, id, b);
    hide Overlaps, Installable;
    forall x | ValidBlock(t, x) && (Below2MB(t.heap[x]) || InBios(t.heap[x])) && !Current(t, t.heap[x])
      ensures exists p :: p in stale && Overlaps(t, x, p)
    {
      assert forall i: nat :: WordAt(t, t.heap[x].pc, i) == WordAt(s, t.heap[x].pc, i);
      assert x != id;
      assert ValidBlock(s, x) && !Current(s, s.heap[x]);
      var p :| p in stale && Overlaps(s, x, p);
      assert Overlaps(t, x, p);
    }
  }

  lemma InstallIsLink(s: State, id: Id, b: Block)
    requires Shape(s) && Installable(s, id, b) && LinksMatched(s) && LinksValid(s)
    ensures var t := Install(s, id, b);
            && (forall a, l :: IsLink(t, a, l) <==> IsLink(s, a, l))
            && (forall a, l :: IsBackLink(t, a, l) <==> IsBackLink(s, a, l))
            && (forall a, l :: IsLink(s, a, l) ==> l.block != id)
  {
    InstallFrame(s, id, b);
    hide CountTo, Overlaps, Shape;
  }

  lemma InstallMatched(s: State, id: Id, b: Block)
    requires Shape(s) && Installable(s, id, b) && LinksMatched(s) && LinksValid(s)
    ensures LinksMatched(Install(s, id, b))
  {
    hide Overlaps, IsLink, IsBackLink, Install, Installable, CountTo, LinksValid;
    var t := Install(s, id, b);
    InstallFrame(s, id, b);
    InstallIsLink(s, id, b);
    hide Overlaps, Live, Shape, IsLink, IsBackLink;
    forall x, y | x in t.heap && y in t.heap
      ensures CountTo(t.heap[x].succs, y) == CountTo(t.heap[y].preds, x)
    {
      InstallCounts(s, id, b, x, y);
    }
  }

  lemma InstallSites(s: State, id: Id, b: Block)
    requires Shape(s) && Installable(s, id, b) && LinksMatched(s) && LinksValid(s) && SitesTrue(s)
    ensures var t := Install(s, id, b); LinksValid(t) && SitesTrue(t)
  {
    var t := Install(s, id, b);
    InstallFrame(s, id, b);
    InstallIsLink(s, id, b);
    hide Overlaps, Live, Shape, IsLink, IsBackLink, LinksMatched;
    assert forall h :: Recorded(s, h) ==> Recorded(t, h);
  }

  lemma InstallCounts(s: State, id: Id, b: Block, x: Id, y: Id)
    requires Installable(s, id, b) && LinksMatched(s) && (x in s.heap || x == id) && (y in s.heap || y == id)
    ensures var t := s.heap[id := b]; CountTo(t[x].succs, y) == CountTo(t[y].preds, x)
  {
    hide Live;
    var t := s.heap[id := b];
    if x !in s.heap {
      CountZero(t[y].preds, x);
      forall l | l in t[y].preds
        ensures l.block != x
      {
        assert y in s.heap && IsBackLink(s, y, l);
        assert IsLink(s, l.block, Link(y, l.site));
      }
    } else if y !in s.heap {
      CountZero(t[x].succs, y);
      forall l | l in t[x].succs
        ensures l.block != y
      {
        assert IsLink(s, x, l);
        assert IsBackLink(s, l.block, Link(x, l.site));
      }
    }
  }

  lemma InstallFast(s: State, id: Id, b: Block)
    requires Shape(s) && Installable(s, id, b) && FastTrue(s)
    ensures FastTrue(Install(s, id, b))
  {
    var t := Install(s, id, b);
    InstallFrame(s, id, b);
    forall pc
      ensures FastLookup(t, pc) == FastExpected(t, pc)
    {
      assert FastLookup(s, pc) == FastExpected(s, pc);
    }
  }

  /** Installing a block whose words are current gives a state in which everything holds. */
  lemma InstallInv(s: State, id: Id, b: Block)
    requires InvExcept(s, {id}, {}) && Installable(s, id, b) && Current(s, b)
    ensures Inv(Install(s, id, b)) && ValidBlock(Install(s, id, b), id)
    ensures forall x :: ValidBlock(Install(s, id, b), x) <==> ValidBlock(s, x) || x == id
  {
    InstallFrame(s, id, b);
    hide Install, Installable, Shape, Listed, Covered, Coherent, LinksMatched, LinksValid, SitesTrue, FastTrue, Current;
    InstallPages(s, id, b);
    InstallCoherent(s, id, b, {});
    InstallMatched(s, id, b);
    InstallSites(s, id, b);
    InstallFast(s, id, b);
  }

  // ---------------------------------------------------------------- taking a block out of the map

  /** RemoveReferencesToBlock on an invalidated block. */
  function Forget(s: State, id: Id): State
    requires id in s.heap
  {
    var t := Detach(s, id, s.heap[id]);
    t.(blocks := t.blocks - {s.heap[id].pc})
  }

  lemma ForgetInv(s: State, id: Id)
    requires Inv(s) && Live(s, id) && s.heap[id].invalidated
    ensures var t := Forget(s, id);
            && InvExcept(t, {id}, {})
            && t.heap.Keys == s.heap.Keys && t.retired == s.retired && t.ram == s.ram && t.bios == s.bios
            && t.blocks == s.blocks - {s.heap[id].pc}
            && t.heap[id] == s.heap[id].(preds := [], succs := [])
            && (forall x :: ValidBlock(t, x) <==> ValidBlock(s, x))
  {
    var u := Detach(s, id, s.heap[id]);
    DetachInv(s, id, s.heap[id], {});
    DetachLinks(s, id, s.heap[id]);
    assert u.heap[id] == s.heap[id].(preds := [], succs := []) by {
      hide Restore;
    }
    hide Detach;
    EraseKeyInv(u, id);
  }

  /** Dropping the key of an invalid, unlinked block. */
  lemma EraseKeyInv(u: State, id: Id)
    requires Inv(u) && Live(u, id) && u.heap[id].invalidated
    requires forall a, l :: IsLink(u, a, l) ==> a != id && l.block != id
    ensures InvExcept(u.(blocks := u.blocks - {u.heap[id].pc}), {id}, {})
    ensures forall x :: ValidBlock(u.(blocks := u.blocks - {u.heap[id].pc}), x) <==> ValidBlock(u, x)
  {
    var t := u.(blocks := u.blocks - {u.heap[id].pc});
    assert forall x :: x != id ==> (Live(t, x) <==> Live(u, x));
    EraseKeyLinks(u, id);
    EraseKeyPages(u, id);
    forall pc
      ensures FastLookup(t, pc) == FastExpected(t, pc)
    {
      assert FastLookup(u, pc) == FastExpected(u, pc);
    }
    hide Overlaps, LinksMatched, LinksValid, SitesTrue, Listed, Covered;
    CoherentSameMemory(u, t);
  }

  lemma CoherentSameMemory(s: State, t: State)
    requires Shape(s) && Shape(t) && Coherent(s, {}) && t.ram == s.ram && t.bios == s.bios
    requires forall x :: ValidBlock(t, x) ==>
               ValidBlock(s, x) && t.heap[x].pc == s.heap[x].pc && t.heap[x].words == s.heap[x].words
    ensures Coherent(t, {})
  {
    forall x | ValidBlock(t, x) && (Below2MB(t.heap[x]) || InBios(t.heap[x]))
      ensures Current(t, t.heap[x])
    {
      assert Current(s, s.heap[x]);
      assert forall i: nat :: WordAt(t, t.heap[x].pc, i) == WordAt(s, s.heap[x].pc, i);
    }
  }

  lemma EraseKeyLinks(u: State, id: Id)
    requires Shape(u) && LinksMatched(u) && LinksValid(u) && SitesTrue(u) && Live(u, id)
    requires forall a, l :: IsLink(u, a, l) ==> a != id && l.block != id
    ensures var t := u.(blocks := u.blocks - {u.heap[id].pc}); LinksMatched(t) && LinksValid(t) && SitesTrue(t)
  {
    hide CountTo;
    var t := u.(blocks := u.blocks - {u.heap[id].pc});
    assert forall x :: x != id ==> (Live(t, x) <==> Live(u, x));
    assert forall a, l :: IsLink(t, a, l) <==> IsLink(u, a, l);
    assert forall a, l :: IsBackLink(t, a, l) <==> IsBackLink(u, a, l);
    forall b, l | IsBackLink(u, b, l)
      ensures b != id && l.block != id
    {
      assert IsLink(u, l.block, Link(b, l.site));
    }
    assert forall h :: Recorded(u, h) ==> Recorded(t, h);
  }

  lemma EraseKeyPages(u: State, id: Id)
    requires Shape(u) && Listed(u, {}) && Covered(u) && Live(u, id) && u.heap[id].invalidated
    ensures var t := u.(blocks := u.blocks - {u.heap[id].pc}); Listed(t, {id}) && Covered(t)
  {
    var t := u.(blocks := u.blocks - {u.heap[id].pc});
    assert forall x :: x != id ==> (Live(t, x) <==> Live(u, x));
    forall p, x | 0 <= p < |t.pages| && x in t.pages[p]
      ensures ListedOk(t, {id}, x)
    {
      assert ListedOk(u, {}, x);
    }
    hide Overlaps;
    forall x, p | 0 <= p < |t.pages| && Overlaps(t, x, p) && ValidBlock(t, x)
      ensures x in t.pages[p]
    {
      assert Overlaps(u, x, p) && ValidBlock(u, x);
    }
  }

  /** FallbackExistingBlockToInterpreter: the key maps to null from now on. */
  function Retire(s: State, id: Id): State
    requires id in s.heap
  {
    s.(blocks := s.blocks[s.heap[id].pc := None], retired := s.retired + {id})
  }

  lemma RetireInv(s: State, id: Id)
    requires InvExcept(s, {id}, {}) && id in s.heap && s.heap[id].pc !in s.blocks
    ensures Inv(Retire(s, id))
    ensures forall x :: ValidBlock(Retire(s, id), x) <==> ValidBlock(s, x)
  {
    hide LinksMatched, LinksValid, SitesTrue, Overlaps, FastTrue, Covered, Listed, Coherent;
    var t := Retire(s, id);
    assert forall x :: Live(t, x) <==> Live(s, x);
    RetireRest(s, id);
    RetireListed(s, id);
    RetireFast(s, id);
    CoherentSameMemory(s, t);
    RetireCovered(s, id);
  }

  lemma RetireListed(s: State, id: Id)
    requires Shape(s) && Listed(s, {id}) && id in s.heap && s.heap[id].pc !in s.blocks
    ensures Listed(Retire(s, id), {})
  {
    var t := Retire(s, id);
    assert forall x :: Live(t, x) <==> Live(s, x);
    forall p, x | 0 <= p < |t.pages| && x in t.pages[p]
      ensures ListedOk(t, {}, x)
    {
      assert ListedOk(s, {id}, x);
    }
  }

  lemma RetireFast(s: State, id: Id)
    requires FastTrue(s) && id in s.heap && s.heap[id].pc !in s.blocks
    ensures FastTrue(Retire(s, id))
  {
    var t := Retire(s, id);
    forall pc
      ensures FastLookup(t, pc) == FastExpected(t, pc)
    {
      assert FastLookup(s, pc) == FastExpected(s, pc);
    }
  }

  lemma RetireCovered(s: State, id: Id)
    requires Shape(s) && Covered(s) && id in s.heap && s.heap[id].pc !in s.blocks
    ensures Covered(Retire(s, id))
  {
    var t := Retire(s, id);
    forall x, p | 0 <= p < |t.pages| && Overlaps(t, x, p) && ValidBlock(t, x)
      ensures x in t.pages[p]
    {
      assert Overlaps(s, x, p) && ValidBlock(s, x);
    }
  }

  lemma RetireRest(s: State, id: Id)
    requires Shape(s) && LinksMatched(s) && LinksValid(s) && SitesTrue(s) && id in s.heap && s.heap[id].pc !in s.blocks
    ensures var t := Retire(s, id); LinksMatched(t) && LinksValid(t) && SitesTrue(t)
  {
    hide CountTo;
    var t := Retire(s, id);
    assert forall x :: Live(t, x) <==> Live(s, x);
    assert forall a, l :: IsLink(t, a, l) <==> IsLink(s, a, l);
    assert forall a, l :: IsBackLink(t, a, l) <==> IsBackLink(s, a, l);
    assert forall h :: Recorded(s, h) ==> Recorded(t, h);
  }

  /** ClearState: every mapped block is deleted and every table emptied. A block that is in no map,
      because it is being recompiled, survives. */
  function Clear(s: State): State {
    s.(heap := map x | x in s.heap && !Live(s, x) && x !in s.retired :: s.heap[x], retired := {}, blocks := map[],
       pages := seq(|s.pages|, _ => []), bits := seq(|s.bits|, _ => false), fast := map[], sites := map[])
  }

  lemma ClearInv(s: State, pending: set<Id>)
    requires InvExcept(s, pending, {})
    ensures InvExcept(Clear(s), {}, {})
    ensures forall x :: !ValidBlock(Clear(s), x)
  {
    hide Overlaps, CountTo;
    var t := Clear(s);
    assert forall a, l :: IsLink(t, a, l) ==> IsLink(s, a, l);
    forall x | x in t.heap
      ensures t.heap[x].succs == [] && t.heap[x].preds == []
    {
      assert forall l :: l in t.heap[x].succs ==> IsLink(s, x, l);
      assert forall l :: l in t.heap[x].preds ==> IsBackLink(s, x, l);
      NoneIn(t.heap[x].succs);
      NoneIn(t.heap[x].preds);
    }
    assert forall a, l :: !IsLink(t, a, l) && !IsBackLink(t, a, l);
    EmptyCounts();
  }

  lemma NoneIn(links: seq<Link>)
    requires forall l :: l !in links
    ensures links == []
  {
    if links != [] {
      HeadIn(links);
    }
  }

  lemma HeadIn(links: seq<Link>)
    requires links != []
    ensures links[0] in links
  {
  }

  lemma EmptyCounts()
    ensures forall id: Id :: CountTo([], id) == 0
  {
  }

  // ---------------------------------------------------------------- linking

  function AddLink(s: State, a: Id, b: Id, site: Site): State
    requires a in s.heap && b in s.heap
  {
    var h1 := s.heap[a := s.heap[a].(succs := s.heap[a].succs + [Link(b, site)])];
    var h2 := h1[b := h1[b].(preds := h1[b].preds + [Link(a, site)])];
    s.(heap := h2, sites := if site.hostPc != 0 then s.sites[site.hostPc := Code(s.heap[b].hostCode)] else s.sites)
  }

  lemma {:induction false} CountAppend(links: seq<Link>, l: Link, id: Id)
    ensures CountTo(links + [l], id) == CountTo(links, id) + (if l.block == id then 1 else 0)
  {
    assert (links + [l])[..|links|] == links;
  }

  lemma AddLinkFrame(s: State, a: Id, b: Id, site: Site)
    requires a in s.heap && b in s.heap
    ensures var t := AddLink(s, a, b, site);
            && SameBlocks(s, t) && t.pages == s.pages && t.bits == s.bits && t.fast == s.fast && t.heap.Keys == s.heap.Keys
            && t.sites == (if site.hostPc != 0 then s.sites[site.hostPc := Code(s.heap[b].hostCode)] else s.sites)
            && (forall x :: x in s.heap ==> t.heap[x].invalidated == s.heap[x].invalidated)
            && (forall x :: x in s.heap ==>
                  t.heap[x].succs == if x == a then s.heap[x].succs + [Link(b, site)] else s.heap[x].succs)
            && (forall x :: x in s.heap ==>
                  t.heap[x].preds == if x == b then s.heap[x].preds + [Link(a, site)] else s.heap[x].preds)
  {
  }

  lemma AddLinkIsLink(s: State, a: Id, b: Id, site: Site)
    requires a in s.heap && b in s.heap
    ensures var t := AddLink(s, a, b, site);
            && (forall x, l :: IsLink(t, x, l) <==> IsLink(s, x, l) || (x == a && l == Link(b, site)))
            && (forall x, l :: IsBackLink(t, x, l) <==> IsBackLink(s, x, l) || (x == b && l == Link(a, site)))
  {
    AddLinkFrame(s, a, b, site);
    hide AddLink, SameBlocks;
    var t := AddLink(s, a, b, site);
  }

  lemma AddLinkMatched(s: State, a: Id, b: Id, site: Site)
    requires LinksMatched(s) && Live(s, a) && Live(s, b)
    ensures LinksMatched(AddLink(s, a, b, site))
  {
    hide AddLink, SameBlocks, IsLink, IsBackLink, CountTo;
    var t := AddLink(s, a, b, site);
    AddLinkFrame(s, a, b, site);
    AddLinkEnds(s, a, b, site);
    forall x, y | x in t.heap && y in t.heap
      ensures CountTo(t.heap[x].succs, y) == CountTo(t.heap[y].preds, x)
    {
      AddLinkCounts(s, a, b, site, x, y);
    }
  }

  lemma AddLinkEnds(s: State, a: Id, b: Id, site: Site)
    requires LinksMatched(s) && Live(s, a) && Live(s, b)
    ensures var t := AddLink(s, a, b, site);
            && (forall x, l :: IsLink(t, x, l) ==> Live(t, x) && Live(t, l.block) && IsBackLink(t, l.block, Link(x, l.site)))
            && (forall x, l :: IsBackLink(t, x, l) ==> Live(t, x) && Live(t, l.block) && IsLink(t, l.block, Link(x, l.site)))
  {
    var t := AddLink(s, a, b, site);
    AddLinkFrame(s, a, b, site);
    AddLinkIsLink(s, a, b, site);
    assert forall x :: Live(t, x) <==> Live(s, x);
    hide AddLink, SameBlocks, Live, IsLink, IsBackLink, CountTo;
  }

  lemma AddLinkCounts(s: State, a: Id, b: Id, site: Site, x: Id, y: Id)
    requires a in s.heap && b in s.heap && x in s.heap && y in s.heap
    requires CountTo(s.heap[x].succs, y) == CountTo(s.heap[y].preds, x)
    ensures var t := AddLink(s, a, b, site); CountTo(t.heap[x].succs, y) == CountTo(t.heap[y].preds, x)
  {
    AddLinkFrame(s, a, b, site);
    hide AddLink, SameBlocks, CountTo;
    CountAppend(s.heap[x].succs, Link(b, site), y);
    CountAppend(s.heap[y].preds, Link(a, site), x);
  }

  lemma AddLinkSites(s: State, a: Id, b: Id, site: Site)
    requires LinksValid(s) && SitesTrue(s) && Live(s, a) && ValidBlock(s, b)
    requires site.hostPc != 0 ==> !Recorded(s, site.hostPc)
    ensures LinksValid(AddLink(s, a, b, site)) && SitesTrue(AddLink(s, a, b, site))
  {
    hide AddLink, IsLink, IsBackLink, Recorded, SameBlocks;
    var t := AddLink(s, a, b, site);
    AddLinkFrame(s, a, b, site);
    AddLinkIsLink(s, a, b, site);
    AddLinkRecorded(s, a, b, site);
    forall x, l | IsLink(s, x, l) && l.site.hostPc != 0
      ensures l.site.hostPc != site.hostPc
    {
      LinkIsRecorded(s, x, l);
    }
  }

  lemma LinkIsRecorded(s: State, x: Id, l: Link)
    requires IsLink(s, x, l) && l.site.hostPc != 0
    ensures Recorded(s, l.site.hostPc)
  {
  }

  lemma AddLinkRecorded(s: State, a: Id, b: Id, site: Site)
    requires a in s.heap && b in s.heap
    ensures forall h :: Recorded(s, h) || (h == site.hostPc != 0) ==> Recorded(AddLink(s, a, b, site), h)
  {
    var t := AddLink(s, a, b, site);
    AddLinkIsLink(s, a, b, site);
    hide AddLink, IsLink;
    assert IsLink(t, a, Link(b, site));
  }

  /** LinkBlock from a mapped block to a valid one, through a branch that is not linked yet. */
  lemma AddLinkInv(s: State, a: Id, b: Id, site: Site)
    requires Inv(s) && Live(s, a) && ValidBlock(s, b)
    requires site.hostPc != 0 ==> !Recorded(s, site.hostPc)
    ensures var t := AddLink(s, a, b, site);
            Inv(t) && SameBlocks(s, t) && (forall x :: ValidBlock(t, x) <==> ValidBlock(s, x))
  {
    var t := AddLink(s, a, b, site);
    AddLinkFrame(s, a, b, site);
    AddLinkMatched(s, a, b, site);
    AddLinkSites(s, a, b, site);
    SameBlocksKeep(s, t);
    AddLinkFast(s, a, b, site);
    hide LinksMatched, LinksValid, SitesTrue, Coherent, AddLink, Overlaps, FastTrue, Listed, Covered;
    PagesKept(s, t);
    CoherentKept(s, t, {});
  }

  lemma AddLinkFast(s: State, a: Id, b: Id, site: Site)
    requires FastTrue(s) && a in s.heap && b in s.heap
    ensures FastTrue(AddLink(s, a, b, site))
  {
    var t := AddLink(s, a, b, site);
    AddLinkFrame(s, a, b, site);
    hide AddLink;
    forall pc
      ensures FastLookup(t, pc) == FastExpected(t, pc)
    {
      assert FastLookup(s, pc) == FastExpected(s, pc);
    }
  }

  // ---------------------------------------------------------------- small consequences

  lemma PendingWeakens(s: State, pending: set<Id>, stale: set<nat>)
    requires InvExcept(s, {}, stale)
    ensures InvExcept(s, pending, stale)
  {
    hide Shape, Covered, Coherent, LinksMatched, LinksValid, SitesTrue, FastTrue;
    forall p, id | 0 <= p < |s.pages| && id in s.pages[p]
      ensures ListedOk(s, pending, id)
    {
      assert ListedOk(s, {}, id);
    }
  }

  /** No valid block touches a page whose bit is clear: this is what lets stores skip the check. */
  lemma ClearBitNoBlock(s: State, p: nat)
    requires Shape(s) && Listed(s, {}) && Covered(s) && p < PAGE_COUNT && !s.bits[p]
    ensures forall x :: ValidBlock(s, x) ==> !Overlaps(s, x, p)
  {
  }

  /** Restoring branches never creates a jump into block code. */
  ghost predicate NoNewCode(a: map<nat, Target>, b: map<nat, Target>) {
    forall h :: h in b && b[h].Code? ==> h in a && a[h] == b[h]
  }

  lemma {:induction false} RestoreNoNewCode(sites: map<nat, Target>, links: seq<Link>)
    ensures NoNewCode(sites, Restore(sites, links))
    decreases |links|
  {
    if links != [] {
      RestoreNoNewCode(sites, links[..|links| - 1]);
    }
  }

  lemma UnlinkNoNewCode(s: State, id: Id)
    requires id in s.heap
    ensures NoNewCode(s.sites, Unlink(s, id).sites)
  {
    var b := s.heap[id];
    RestoreNoNewCode(s.sites, b.preds);
    RestoreNoNewCode(Restore(s.sites, b.preds), Without(b.succs, id));
  }

  /** Turning an unlinked branch into a plain return. */
  lemma ReturnInv(s: State, h: nat)
    requires Inv(s) && !Recorded(s, h)
    ensures Inv(s.(sites := s.sites[h := Return]))
  {
    var t := s.(sites := s.sites[h := Return]);
    ReturnSites(s, h);
    hide SitesTrue;
    SameHeapLinks(s, t);
    SameBlocksRefl(s);
    SameBlocksKeep(s, t);
    FastKept(s, t);
    hide Overlaps, LinksMatched, FastTrue, Listed, Covered, Coherent, Shape;
    CoherentKept(s, t, {});
    PagesKept(s, t);
  }

  lemma ReturnSites(s: State, h: nat)
    requires SitesTrue(s) && !Recorded(s, h)
    ensures SitesTrue(s.(sites := s.sites[h := Return]))
  {
    var t := s.(sites := s.sites[h := Return]);
    assert forall a, l :: IsLink(t, a, l) <==> IsLink(s, a, l);
    assert forall x :: Recorded(t, x) <==> Recorded(s, x);
    forall a, l | IsLink(s, a, l) && l.site.hostPc != 0
      ensures l.site.hostPc != h
    {
      LinkIsRecorded(s, a, l);
    }
  }

  /** InvalidateAll's last step: with no valid block left, all lists and bits can go. */
  lemma AllPagesCleared(s: State)
    requires Inv(s) && forall x :: !ValidBlock(s, x)
    ensures Inv(s.(pages := seq(|s.pages|, _ => []), bits := seq(|s.bits|, _ => false)))
  {
    hide Overlaps, CountTo;
    var t := s.(pages := seq(|s.pages|, _ => []), bits := seq(|s.bits|, _ => false));
    SameBlocksKeep(s, t);
    SameHeapLinks(s, t);
    FastKept(s, t);
    hide Overlaps, LinksMatched, FastTrue;
    CoherentKept(s, t, {});
  }

  /** A null entry for a key that has none. */
  lemma NullEntryInv(s: State, pc: nat)
    requires Inv(s) && pc !in s.blocks
    ensures Inv(s.(blocks := s.blocks[pc := None]))
    ensures forall x :: ValidBlock(s.(blocks := s.blocks[pc := None]), x) <==> ValidBlock(s, x)
  {
    hide LinksMatched, LinksValid, SitesTrue, Overlaps, Listed, Covered, Coherent;
    var t := s.(blocks := s.blocks[pc := None]);
    assert forall x :: Live(t, x) <==> Live(s, x);
    NullEntryLinks(s, pc);
    NullEntryPages(s, pc);
    forall k
      ensures FastLookup(t, k) == FastExpected(t, k)
    {
      assert FastLookup(s, k) == FastExpected(s, k);
    }
    CoherentSameMemory(s, t);
  }

  lemma NullEntryPages(s: State, pc: nat)
    requires Shape(s) && Listed(s, {}) && Covered(s) && pc !in s.blocks
    ensures var t := s.(blocks := s.blocks[pc := None]); Listed(t, {}) && Covered(t)
  {
    var t := s.(blocks := s.blocks[pc := None]);
    forall p, x | 0 <= p < |t.pages| && x in t.pages[p]
      ensures ListedOk(t, {}, x)
    {
      assert ListedOk(s, {}, x);
    }
    forall x, p | 0 <= p < |t.pages| && Overlaps(t, x, p) && ValidBlock(t, x)
      ensures x in t.pages[p]
    {
      assert Overlaps(s, x, p) && ValidBlock(s, x);
    }
  }

  lemma NullEntryLinks(s: State, pc: nat)
    requires Shape(s) && LinksMatched(s) && LinksValid(s) && SitesTrue(s) && pc !in s.blocks
    ensures var t := s.(blocks := s.blocks[pc := None]); LinksMatched(t) && LinksValid(t) && SitesTrue(t)
  {
    hide CountTo, Shape;
    var t := s.(blocks := s.blocks[pc := None]);
    assert forall x :: Live(t, x) <==> Live(s, x);
    assert forall a, l :: IsLink(t, a, l) <==> IsLink(s, a, l);
    assert forall a, l :: IsBackLink(t, a, l) <==> IsBackLink(s, a, l);
    assert forall h :: Recorded(s, h) ==> Recorded(t, h);
  }

  /** A block compiled from readable memory stays inside the page table. */
  lemma {:induction false} DecodesEnd(s: State, pc: nat, words: seq<seq<Byte>>, n: nat)
    requires MemoryOk(s) && pc % 4 == 0 && Decodes(s, pc, words) && n <= |words| && Physical(pc) < RAM_SIZE
    ensures Physical(pc) + 4 * n <= RAM_MIRROR_END
    decreases n
  {
    hide Fetch;
    if n > 0 {
      DecodesEnd(s, pc, words, n - 1);
      assert Readable(Physical(pc) + 4 * (n - 1));
      assert Physical(pc) == 4 * (pc / 4 - 0x800_0000 * (pc / 0x2000_0000));
    }
  }

  /** Only the entry of one key may have changed, and no branch into block code has appeared. */
  ghost predicate OthersKept(s: State, t: State, pc: nat) {
    && (forall k :: k != pc ==> (k in t.blocks <==> k in s.blocks) && (k in s.blocks ==> t.blocks[k] == s.blocks[k]))
    && (forall x :: Live(s, x) && s.heap[x].pc != pc ==>
          Live(t, x) && t.heap[x].pc == s.heap[x].pc && t.heap[x].canLink == s.heap[x].canLink
          && (ValidBlock(s, x) <==> ValidBlock(t, x)))
    && NoNewCode(s.sites, t.sites)
  }
}
