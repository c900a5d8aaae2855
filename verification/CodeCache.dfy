/** The CPU code cache of src/core/cpu_code_cache.cpp as an object whose tables are updated in
    place. Every operation is tied to a state transformer of CodeCacheModel. */
module CodeCache {
  import opened BlockCounters
  import opened BlockDecoding
  import opened CodeCacheModel
  import opened CodeCacheStores
  import opened Common
  import opened PageLists
  import FastMap
  import FastmemLut

  lemma {:induction false} CountHead(links: seq<Link>, x: Id)
    requires links != []
    ensures CountTo(links, x) == (if links[0].block == x then 1 else 0) + CountTo(links[1..], x)
    decreases |links|
  {
    var n := |links| - 1;
    if n == 0 {
      assert links[..n] == [] && links[1..] == [];
    } else {
      CountHead(links[..n], x);
      assert links[..n][1..] == links[1..][..n - 1];
    }
  }

  /** Erasing one link to `id` lowers the count by one and changes nothing else. */
  lemma {:induction false} EraseLink(links: seq<Link>, k: nat, id: Id)
    requires k < |links| && links[k].block == id
    ensures CountTo(links[..k] + links[k + 1..], id) == CountTo(links, id) - 1
    ensures Without(links[..k] + links[k + 1..], id) == Without(links, id)
    decreases |links|
  {
    hide CountTo, Without;
    var n := |links| - 1;
    var e := links[..k] + links[k + 1..];
    LastLink(links, id);
    if k == n {
      assert e == links[..n];
    } else {
      EraseLink(links[..n], k, id);
      assert e[..n - 1] == links[..n][..k] + links[..n][k + 1..];
      assert e[n - 1] == links[n];
      LastLink(e, id);
    }
  }

  lemma LastLink(links: seq<Link>, id: Id)
    requires links != []
    ensures var n := |links| - 1; var l := links[n];
            && CountTo(links, id) == CountTo(links[..n], id) + (if l.block == id then 1 else 0)
            && Without(links, id) == if l.block == id then Without(links[..n], id) else Without(links[..n], id) + [l]
  {
  }

  lemma SomeLink(links: seq<Link>, id: Id) returns (j: nat)
    requires CountTo(links, id) > 0
    ensures j < |links| && links[j].block == id
  {
    CountZero(links, id);
    var l :| l in links && l.block == id;
    j :| 0 <= j < |links| && links[j] == l;
  }

  /** std::find_if for a link to the block. */
  method FindLink(links: seq<Link>, id: Id) returns (k: nat)
    requires CountTo(links, id) > 0
    ensures k < |links| && links[k].block == id
    ensures forall j :: 0 <= j < k ==> links[j].block != id
  {
    ghost var last := SomeLink(links, id);
    k := 0;
    while links[k].block != id
      invariant k <= last < |links| && links[last].block == id
      invariant forall j :: 0 <= j < k ==> links[j].block != id
      decreases |links| - k
    {
      k := k + 1;
    }
  }

  /** How often each block still has to forget `id`, while the links from position i on are left. */
  ghost predicate Remaining(heap: map<Id, Block>, links: seq<Link>, i: nat, id: Id, forward: bool)
    requires i <= |links|
  {
    forall x :: x in heap && (forward || x != id) ==>
      CountTo(if forward then heap[x].succs else heap[x].preds, id) == CountTo(links[i..], x)
  }

  /** Erasing one link at the block named by links[i] uses up that link. */
  lemma RemainingStep(h: map<Id, Block>, h': map<Id, Block>, links: seq<Link>, i: nat, id: Id, forward: bool)
    requires i < |links| && Remaining(h, links, i, id, forward) && h'.Keys == h.Keys
    requires links[i].block in h && (forward || links[i].block != id)
    requires forall x :: x in h && x != links[i].block ==> h'[x] == h[x]
    requires var a := links[i].block;
             if forward then CountTo(h'[a].succs, id) == CountTo(h[a].succs, id) - 1
             else CountTo(h'[a].preds, id) == CountTo(h[a].preds, id) - 1
    ensures Remaining(h', links, i + 1, id, forward)
  {
    hide CountTo;
    forall x | x in h
      ensures CountTo(links[i..], x) == (if links[i].block == x then 1 else 0) + CountTo(links[i + 1..], x)
    {
      CountHead(links[i..], x);
      assert links[i..][1..] == links[i + 1..];
    }
  }

  /** Progress of the first loop of UnlinkBlock: h and old are the heap and the sites at its start. */
  ghost predicate PredecessorsDone(h: map<Id, Block>, old_: map<nat, Target>, heap: map<Id, Block>,
                                   sites: map<nat, Target>,
                                   preds: seq<Link>, i: nat, id: Id)
  {
    && i <= |preds| && heap.Keys == h.Keys && Remaining(heap, preds, i, id, true)
    && (forall x :: x in h ==> heap[x] == h[x].(succs := heap[x].succs))
    && (forall x :: x in h ==> Without(heap[x].succs, id) == Without(h[x].succs, id))
    && sites == Restore(old_, preds[..i])
  }

  ghost predicate SuccessorsDone(h: map<Id, Block>, old_: map<nat, Target>, heap: map<Id, Block>,
                                 sites: map<nat, Target>,
                                 succs: seq<Link>, i: nat, id: Id)
  {
    && i <= |succs| && heap.Keys == h.Keys && Remaining(heap, succs, i, id, false)
    && (forall x :: x in h ==> heap[x] == h[x].(preds := heap[x].preds))
    && (forall x :: x in h ==> Without(heap[x].preds, id) == Without(h[x].preds, id))
    && (id in h ==> heap[id] == h[id])
    && sites == Restore(old_, succs[..i])
  }

  function RestoreOne(sites: map<nat, Target>, site: Site): map<nat, Target> {
    if site.hostPc != 0 then sites[site.hostPc := Resolver(site.resolver)] else sites
  }

  lemma RestoreNext(sites: map<nat, Target>, links: seq<Link>, i: nat)
    requires i < |links|
    ensures Restore(sites, links[..i + 1]) == RestoreOne(Restore(sites, links[..i]), links[i].site)
  {
    assert links[..i + 1][..i] == links[..i];
  }

  lemma PredecessorStep(h: map<Id, Block>, old_: map<nat, Target>, heap: map<Id, Block>, sites: map<nat, Target>,
                        preds: seq<Link>, i: nat, id: Id, succs: seq<Link>)
    requires PredecessorsDone(h, old_, heap, sites, preds, i, id) && i < |preds| && preds[i].block in heap
    requires CountTo(succs, id) == CountTo(heap[preds[i].block].succs, id) - 1
    requires Without(succs, id) == Without(heap[preds[i].block].succs, id)
    ensures var a := preds[i].block;
            PredecessorsDone(h, old_, heap[a := heap[a].(succs := succs)], RestoreOne(sites, preds[i].site), preds, i + 1, id)
  {
    hide Without, Restore, CountTo, RestoreOne, Remaining;
    var a := preds[i].block;
    var next := heap[a := heap[a].(succs := succs)];
    RemainingStep(heap, next, preds, i, id, true);
    RestoreNext(old_, preds, i);
    forall x | x in h
      ensures next[x] == h[x].(succs := next[x].succs) && Without(next[x].succs, id) == Without(h[x].succs, id)
    {
    }
  }

  lemma SuccessorStep(h: map<Id, Block>, old_: map<nat, Target>, heap: map<Id, Block>, sites: map<nat, Target>,
                      succs: seq<Link>, i: nat, id: Id, preds: seq<Link>)
    requires SuccessorsDone(h, old_, heap, sites, succs, i, id) && i < |succs| && succs[i].block in heap
    requires succs[i].block != id
    requires CountTo(preds, id) == CountTo(heap[succs[i].block].preds, id) - 1
    requires Without(preds, id) == Without(heap[succs[i].block].preds, id)
    ensures var b := succs[i].block;
            SuccessorsDone(h, old_, heap[b := heap[b].(preds := preds)], RestoreOne(sites, succs[i].site), succs, i + 1, id)
  {
    hide Without, Restore, CountTo, RestoreOne, Remaining;
    var b := succs[i].block;
    RemainingStep(heap, heap[b := heap[b].(preds := preds)], succs, i, id, false);
    RestoreNext(old_, succs, i);
  }

  /** While links are left, the block they name still has the block to forget. */
  lemma RemainingPositive(heap: map<Id, Block>, links: seq<Link>, i: nat, id: Id, forward: bool)
    requires i < |links| && Remaining(heap, links, i, id, forward) && links[i].block in heap
    requires forward || links[i].block != id
    ensures CountTo(if forward then heap[links[i].block].succs else heap[links[i].block].preds, id) > 0
  {
    CountHead(links[i..], links[i].block);
  }

  lemma AllForgotten(heap: map<Id, Block>, links: seq<Link>, id: Id, forward: bool, x: Id)
    requires Remaining(heap, links, |links|, id, forward) && x in heap && (forward || x != id)
    ensures var l := if forward then heap[x].succs else heap[x].preds; l == Without(l, id)
  {
    assert links[|links|..] == [];
    CountZero(if forward then heap[x].succs else heap[x].preds, id);
  }

  lemma PredecessorStart(h: map<Id, Block>, s: map<nat, Target>, id: Id)
    requires id in h && Remaining(h, h[id].preds, 0, id, true)
    ensures PredecessorsDone(h, s, h, s, h[id].preds, 0, id)
  {
    assert h[id].preds[..0] == [];
    RestoreNone(s);
  }

  /** The partner of the next link is there to be found. */
  lemma PredecessorReady(h: map<Id, Block>, s: map<nat, Target>, heap: map<Id, Block>, sites: map<nat, Target>,
                 links: seq<Link>, i: nat, id: Id)
    requires PredecessorsDone(h, s, heap, sites, links, i, id) && i < |links|
    requires forall l :: l in links ==> l.block in h
    ensures links[i] in links && links[i].block in heap
    ensures CountTo(heap[links[i].block].succs, id) > 0
  {
    RemainingPositive(heap, links, i, id, true);
  }

  lemma PredecessorExit(h: map<Id, Block>, s: map<nat, Target>, heap: map<Id, Block>, sites: map<nat, Target>,
                links: seq<Link>, id: Id)
    requires PredecessorsDone(h, s, heap, sites, links, |links|, id)
    ensures heap.Keys == h.Keys && sites == Restore(s, links)
    ensures forall x :: x in h ==> heap[x] == h[x].(succs := Without(h[x].succs, id))
  {
    hide Without, Restore, CountTo, Remaining;
    assert links[..|links|] == links;
    forall x | x in h
      ensures heap[x].succs == Without(heap[x].succs, id)
    {
      AllForgotten(heap, links, id, true, x);
    }
  }

  lemma SuccessorStart(h: map<Id, Block>, s: map<nat, Target>, id: Id)
    requires id in h && Remaining(h, h[id].succs, 0, id, false)
    ensures SuccessorsDone(h, s, h, s, h[id].succs, 0, id)
  {
    assert h[id].succs[..0] == [];
    RestoreNone(s);
  }

  /** The partner of the next link is there to be found. */
  lemma SuccessorReady(h: map<Id, Block>, s: map<nat, Target>, heap: map<Id, Block>, sites: map<nat, Target>,
                 links: seq<Link>, i: nat, id: Id)
    requires SuccessorsDone(h, s, heap, sites, links, i, id) && i < |links|
    requires forall l :: l in links ==> l.block in h && l.block != id
    ensures links[i] in links && links[i].block in heap && links[i].block != id
    ensures CountTo(heap[links[i].block].preds, id) > 0
  {
    RemainingPositive(heap, links, i, id, false);
  }

  lemma SuccessorExit(h: map<Id, Block>, s: map<nat, Target>, heap: map<Id, Block>, sites: map<nat, Target>,
                links: seq<Link>, id: Id)
    requires SuccessorsDone(h, s, heap, sites, links, |links|, id)
    ensures heap.Keys == h.Keys && sites == Restore(s, links) && (id in h ==> heap[id] == h[id])
    ensures forall x :: x in h && x != id ==> heap[x] == h[x].(preds := Without(h[x].preds, id))
  {
    hide Without, Restore, CountTo, Remaining;
    assert links[..|links|] == links;
    forall x | x in h && x != id
      ensures heap[x].preds == Without(heap[x].preds, id)
    {
      AllForgotten(heap, links, id, false, x);
    }
  }

  lemma UnlinkStart(s: State, id: Id)
    requires id in s.heap && LinksMatched(s)
    ensures Remaining(s.heap, s.heap[id].preds, 0, id, true)
    ensures forall l :: l in s.heap[id].preds ==> l.block in s.heap
  {
    hide CountTo, Live;
    assert s.heap[id].preds[0..] == s.heap[id].preds;
    forall l | l in s.heap[id].preds
      ensures l.block in s.heap
    {
      assert IsBackLink(s, id, l);
      LiveInHeap(s, l.block);
    }
  }

  lemma LiveInHeap(s: State, id: Id)
    requires Live(s, id)
    ensures id in s.heap
  {
  }

  /** Between the two loops: h1 is the heap when all predecessors have forgotten the block. */
  lemma UnlinkMiddle(s: State, h1: map<Id, Block>, id: Id)
    requires id in s.heap && LinksMatched(s) && h1.Keys == s.heap.Keys
    requires forall x :: x in s.heap && x != id ==> h1[x].preds == s.heap[x].preds
    requires h1[id].succs == Without(s.heap[id].succs, id)
    ensures Remaining(h1, h1[id].succs, 0, id, false)
    ensures forall l :: l in h1[id].succs ==> l.block in h1 && l.block != id
  {
    hide CountTo, Live;
    var w := h1[id].succs;
    assert w[0..] == w;
    forall x | x in h1 && x != id
      ensures CountTo(h1[x].preds, id) == CountTo(w, x)
    {
      CountWithout(s.heap[id].succs, id, x);
    }
    forall l | l in w
      ensures l.block in h1
    {
      assert IsLink(s, id, l);
      LiveInHeap(s, l.block);
    }
  }

  /** The two loops together do to one block what Unlink does. */
  lemma UnlinkedAt(b: Block, b1: Block, b2: Block, self: bool, id: Id)
    requires b1 == b.(succs := Without(b.succs, id))
    requires b2 == if self then b1.(preds := []) else b1.(preds := Without(b1.preds, id))
    ensures UnlinkedBlock(b, self, id) == if self then b2.(succs := []) else b2
  {
    hide Without;
  }

  lemma UnlinkFinish(s: State, h: map<Id, Block>, id: Id)
    requires id in s.heap && h.Keys == s.heap.Keys
    requires forall x :: x in h ==> h[x] == UnlinkedBlock(s.heap[x], x == id, id)
    ensures Unlink(s, id) == s.(heap := h, sites := Restore(Restore(s.sites, s.heap[id].preds), Without(s.heap[id].succs, id)))
  {
    hide Restore, Without, UnlinkedBlock;
    assert Unlink(s, id).heap == h;
  }

  lemma UnlinkNothing(s: State, id: Id)
    requires id in s.heap && LinksMatched(s) && s.heap[id].preds == s.heap[id].succs == []
    ensures Unlink(s, id) == s
  {
    hide CountTo;
    var t := Unlink(s, id);
    RestoreNone(s.sites);
    forall x | x in s.heap
      ensures t.heap[x] == s.heap[x]
    {
      assert CountTo(s.heap[x].succs, id) == CountTo(s.heap[id].preds, x);
      assert CountTo(s.heap[id].succs, x) == CountTo(s.heap[x].preds, id);
      NoCount(x);
      CountZero(s.heap[x].succs, id);
      CountZero(s.heap[x].preds, id);
    }
  }

  function Empty(ram: seq<Byte>, bios: seq<Byte>): State {
    State(map[], {}, map[], seq(PAGE_COUNT, _ => []), seq(PAGE_COUNT, _ => false), map[], map[], ram, bios)
  }

  lemma EmptyInv(ram: seq<Byte>, bios: seq<Byte>)
    requires |ram| == RAM_SIZE && |bios| == BIOS_SIZE
    ensures Inv(Empty(ram, bios))
  {
    hide CountTo, Overlaps;
    var s := Empty(ram, bios);
    assert forall a, l :: !IsLink(s, a, l) && !IsBackLink(s, a, l);
  }

  class CodeCache {
    var heap: map<Id, Block>
    var retired: set<Id>
    var blocks: map<nat, Option<Id>>
    var pages: seq<seq<Id>>
    ghost var bits: seq<bool>         // what lut.bits holds
    ghost var fast: map<nat, Target>  // what dispatch represents
    const dispatch: FastMap.FastMap
    const lut: FastmemLut.FastmemLut
    var sites: map<nat, Target>
    var ram: seq<Byte>
    const bios: seq<Byte>
    var nextId: Id

    constructor (ram: seq<Byte>, bios: seq<Byte>)
      requires |ram| == RAM_SIZE && |bios| == BIOS_SIZE
      ensures Valid() && S() == Empty(ram, bios)
      ensures fresh(dispatch.cells) && fresh(lut.bits) && fresh(lut.lut)
    {
      dispatch := new FastMap.FastMap();
      lut := new FastmemLut.FastmemLut();
      heap, retired, blocks, fast, sites, nextId := map[], {}, map[], map[], map[], 0;
      pages, bits := seq(PAGE_COUNT, _ => []), seq(PAGE_COUNT, _ => false);
      this.ram, this.bios := ram, bios;
      new;
      EmptyInv(ram, bios);
    }

    ghost function S(): State
      reads this
    {
      State(heap, retired, blocks, pages, bits, fast, sites, ram, bios)
    }

    /** The dispatch table represents the fast map, and the table of directly accessible pages has the
        code bits. */
    ghost predicate Backed()
      reads this`fast, this`bits, dispatch.tables, dispatch.cells, lut.bits, lut.lut
    {
      dispatch.Represents(fast) && lut.Valid() && lut.bits[..] == bits
    }

    ghost predicate Valid()
      reads this, dispatch.tables, dispatch.cells, lut.bits, lut.lut
    {
      Inv(S()) && Backed() && forall id :: id in heap ==> id < nextId
    }

    /** SetFastMap. */
    method SetFastMap(pc: nat, target: Target)
      requires Backed() && pc % 4 == 0 && Fetchable(pc)
      modifies this`fast, dispatch.cells
      ensures Backed() && fast == old(fast)[pc := target]
    {
      FastMap.ReadableIsAllocated(pc);
      dispatch.Set(pc, target, fast);
      fast := fast[pc := target];
    }

    /** SetRAMCodePage. */
    method SetRAMCodePage(p: nat)
      requires Backed() && p < PAGE_COUNT
      modifies this`bits, lut.bits, lut.lut
      ensures |old(bits)| == PAGE_COUNT && Backed() && bits == old(bits)[p := true]
    {
      lut.SetCodePage(p);
      bits := bits[p := true];
    }

    /** ClearRAMCodePage. */
    method ClearRAMCodePage(p: nat)
      requires Backed() && p < PAGE_COUNT
      modifies this`bits, lut.bits, lut.lut
      ensures |old(bits)| == PAGE_COUNT && Backed() && bits == old(bits)[p := false]
    {
      lut.ClearCodePage(p);
      bits := bits[p := false];
    }

    /** ClearRAMCodePageFlags. */
    method ClearRAMCodePageFlags()
      requires Backed()
      modifies this`bits, lut.bits, lut.lut
      ensures |old(bits)| == PAGE_COUNT && Backed() && bits == seq(|old(bits)|, _ => false)
    {
      lut.ClearCodePages();
      bits := seq(|bits|, _ => false);
    }

    /** ResetFastMap. */
    method ResetFastMap()
      requires Backed()
      modifies this`fast, dispatch.cells
      ensures Backed() && fast == map[]
    {
      dispatch.Reset(fast);
      fast := map[];
    }

    /** First loop of UnlinkBlock: every predecessor forgets the block. */
    method UnlinkPredecessors(id: Id)
      requires id in heap && Remaining(heap, heap[id].preds, 0, id, true)
      requires forall l :: l in heap[id].preds ==> l.block in heap
      modifies this`heap, this`sites
      ensures sites == Restore(old(sites), old(heap[id].preds))
      ensures heap.Keys == old(heap.Keys)
      ensures forall x :: x in heap ==> heap[x] == old(heap)[x].(succs := Without(old(heap)[x].succs, id))
    {
      hide PredecessorsDone, Without, Restore, CountTo, Remaining;
      var preds := heap[id].preds;
      ghost var h, s := heap, sites;
      PredecessorStart(h, s, id);
      for i := 0 to |preds|
        invariant PredecessorsDone(h, s, heap, sites, preds, i, id)
      {
        var li := preds[i];
        PredecessorReady(h, s, heap, sites, preds, i, id);
        var succs := heap[li.block].succs;
        var k := FindLink(succs, id);
        EraseLink(succs, k, id);
        PredecessorStep(h, s, heap, sites, preds, i, id, succs[..k] + succs[k + 1..]);
        if li.site.hostPc != 0 {
          sites := sites[li.site.hostPc := Resolver(li.site.resolver)];
        }
        heap := heap[li.block := heap[li.block].(succs := succs[..k] + succs[k + 1..])];
      }
      PredecessorExit(h, s, heap, sites, preds, id);
    }

    /** Second loop: every remaining successor forgets the block. */
    method UnlinkSuccessors(id: Id)
      requires id in heap && Remaining(heap, heap[id].succs, 0, id, false)
      requires forall l :: l in heap[id].succs ==> l.block in heap && l.block != id
      modifies this`heap, this`sites
      ensures sites == Restore(old(sites), old(heap[id].succs))
      ensures heap.Keys == old(heap.Keys) && heap[id] == old(heap)[id]
      ensures forall x :: x in heap && x != id ==> heap[x] == old(heap)[x].(preds := Without(old(heap)[x].preds, id))
    {
      hide SuccessorsDone, Without, Restore, CountTo, Remaining;
      var succs := heap[id].succs;
      ghost var h, s := heap, sites;
      SuccessorStart(h, s, id);
      for i := 0 to |succs|
        invariant SuccessorsDone(h, s, heap, sites, succs, i, id)
      {
        var li := succs[i];
        SuccessorReady(h, s, heap, sites, succs, i, id);
        var preds := heap[li.block].preds;
        var k := FindLink(preds, id);
        EraseLink(preds, k, id);
        SuccessorStep(h, s, heap, sites, succs, i, id, preds[..k] + preds[k + 1..]);
        if li.site.hostPc != 0 {
          sites := sites[li.site.hostPc := Resolver(li.site.resolver)];
        }
        heap := heap[li.block := heap[li.block].(preds := preds[..k] + preds[k + 1..])];
      }
      SuccessorExit(h, s, heap, sites, succs, id);
    }

    /** Both loops of UnlinkBlock. */
    method UnlinkLoops(id: Id)
      requires id in heap && LinksMatched(S())
      modifies this`heap, this`sites
      ensures heap.Keys == old(heap.Keys)
      ensures forall x :: x in heap ==> heap[x] == UnlinkedBlock(old(heap)[x], x == id, id)
      ensures sites == Restore(Restore(old(sites), old(heap)[id].preds), Without(old(heap)[id].succs, id))
    {
      hide CountTo, LinksMatched, Remaining, Without, Restore, Unlink, UnlinkedBlock;
      ghost var s := S();
      UnlinkStart(s, id);
      UnlinkPredecessors(id);
      ghost var h1 := heap;
      heap := heap[id := heap[id].(preds := [])];
      UnlinkMiddle(s, heap, id);
      UnlinkSuccessors(id);
      ghost var h2 := heap;
      heap := heap[id := heap[id].(succs := [])];
      forall x | x in heap
        ensures heap[x] == UnlinkedBlock(s.heap[x], x == id, id)
      {
        UnlinkedAt(s.heap[x], h1[x], h2[x], x == id, id);
      }
    }

    /** Unlink all blocks which point to this block, and any that this block links to. */
    method UnlinkBlock(id: Id)
      requires id in heap && LinksMatched(S())
      modifies this`heap, this`sites
      ensures S() == Unlink(old(S()), id)
    {
      hide Restore, Unlink, UnlinkedBlock, LinksMatched;
      if heap[id].preds == [] && heap[id].succs == [] {
        UnlinkNothing(S(), id);
        return;
      }
      UnlinkLoops(id);
      UnlinkFinish(old(S()), heap, id);
    }

    /** Invalidate forces the block to be checked again. It loses its links, and possibly the right to
        have any. */
    method InvalidateBlock(id: Id, allowFrame: bool, frame: nat)
      requires id in heap && LinksMatched(S()) && Backed() && heap[id].pc % 4 == 0 && Fetchable(heap[id].pc)
      modifies this`heap, this`sites, this`fast, dispatch.cells
      ensures S() == Invalidate(old(S()), id, allowFrame, frame) && Backed()
      ensures heap.Keys == old(heap.Keys) && heap[id].invalidated
      ensures LinkingMarked(old(heap)[id], heap[id], allowFrame, frame)
      ensures forall x :: x in heap && x != id ==> SameLinking(old(heap)[x], heap[x])
    {
      hide LinksMatched, Unlink, Backed, Fetchable, LinkingMarked, SameLinking;
      ghost var s := S();
      InvalidateMarks(s, id, allowFrame, frame);
      var b := heap[id].(invalidated := true);
      if b.canLink {
        if allowFrame {
          var diff := (frame - b.invalidateFrame) % FRAME_WRAP;
          if diff <= 10 {
            b := b.(canLink := false);
          } else {
            b := b.(invalidateFrame := frame);
          }
        } else {
          b := b.(invalidateFrame := (frame + FRAME_WRAP - 11) % FRAME_WRAP);
        }
      }
      assert b == Marked(s.heap[id], allowFrame, frame);
      heap := heap[id := b];
      MarkKeepsLinks(s, id, b);
      UnlinkBlock(id);
      SetFastMap(b.pc, CompileStub);
    }

    /** Invalidates every block listed on a page, whose list and bit are then cleared. */
    method InvalidateBlocksWithPageIndex(p: nat, frame: nat, ghost stale: set<nat>)
      requires InvExcept(S(), {}, stale) && Backed() && p < PAGE_COUNT
      modifies this`heap, this`sites, this`fast, this`pages, this`bits, dispatch.cells, lut.bits, lut.lut
      ensures forall id :: id in old(pages)[p] ==> id in old(heap)
      ensures S() == InvalidatePage(old(S()), p, frame) && Backed()
      ensures InvExcept(S(), {}, stale - {p}) && heap.Keys == old(heap.Keys)
      ensures p < |old(pages)| && LinkingFollows(old(S()), S(), old(pages)[p], frame)
    {
      hide InvExcept, Backed, Fetchable, LinkingMarked, SameLinking, LinkingFollows, Invalidate, InvalidatePage, ListedOk;
      ghost var s := S();
      PageReady(s, p, frame, stale);
      var ids := pages[p];
      assert ids[..0] == [];
      for i := 0 to |ids|
        invariant S() == InvalidateList(s, ids[..i], frame) && InvExcept(S(), {}, stale) && Backed()
      {
        ListPrefix(s, ids, i, frame, stale);
        InvalidateBlock(ids[i], true, frame);
      }
      assert ids[..|ids|] == ids;
      InvalidateListRest(s, ids, frame);
      pages := pages[p := []];
      ClearRAMCodePage(p);
    }

    method AddBlockToPageMap(id: Id)
      requires id in heap && |pages| == |bits| == PAGE_COUNT && (InRam(heap[id]) ==> EndPage(heap[id]) < |pages|) && Backed()
      modifies this`pages, this`bits, lut.bits, lut.lut
      ensures S() == AddToPages(old(S()), id) && Backed()
    {
      hide Backed;
      ghost var s := S();
      if InRam(heap[id]) {
        var first, last := StartPage(heap[id]), EndPage(heap[id]);
        for p := first to last + 1
          invariant |pages| == |bits| == |s.pages| && Backed()
          invariant forall q :: 0 <= q < |pages| ==>
                      pages[q] == (if first <= q < p then s.pages[q] + [id] else s.pages[q])
          invariant forall q :: 0 <= q < |bits| ==> bits[q] == (first <= q < p || s.bits[q])
        {
          pages := pages[p := pages[p] + [id]];
          SetRAMCodePage(p);
        }
      }
      assert pages == AddToPages(s, id).pages;
      assert bits == AddToPages(s, id).bits;
    }

    method ClearState()
      requires |pages| == |bits| && Backed()
      modifies this`heap, this`retired, this`blocks, this`pages, this`bits, this`fast, this`sites, dispatch.cells,
               lut.bits, lut.lut
      ensures S() == Clear(old(S())) && Backed()
    {
      hide Backed;
      ClearRAMCodePageFlags();
      DeleteBlocks();
      ResetFastMap();
    }

    /** Empties the page lists and the block map, and deletes the blocks in it. */
    method DeleteBlocks()
      modifies this`heap, this`retired, this`blocks, this`pages, this`sites
      ensures heap == Clear(old(S())).heap && retired == {} && blocks == map[] && sites == map[]
      ensures pages == seq(|old(pages)|, _ => [])
    {
      hide Inv, Backed;
      var kept := map x | x in heap && !(heap[x].pc in blocks && blocks[heap[x].pc] == Some(x)) && x !in retired :: heap[x];
      assert kept == Clear(S()).heap;
      pages := seq(|pages|, _ => []);
      heap, retired, blocks, sites := kept, {}, map[], map[];
    }

    /** The decoding loop of CompileBlock. */
    method DecodeBlock(pc: nat, d: Decoder) returns (words: seq<seq<Byte>>, ok: bool)
      requires MemoryOk(S()) && pc % 4 == 0
      ensures Collect(ram, bios, d, pc) == if ok then Some(words) else None
      ensures ok && words != [] ==> Decodes(S(), pc, words)
      ensures pc / 0x2000_0000 in {0, 4, 5} ==> Physical(pc) % 4 == 0
      ensures pc / 0x2000_0000 in {0, 4, 5} && ok ==> BlockExtent(ram, bios, d, Physical(pc), false, words)
      ensures pc / 0x2000_0000 in {0, 4, 5} && !ok ==>
                forall ws: seq<seq<Byte>> :: !BlockExtent(ram, bios, d, Physical(pc), false, ws)
      ensures pc / 0x2000_0000 !in {0, 4, 5} ==> ok && words == []
    {
      words := [];
      if pc / 0x2000_0000 !in {0, 4, 5} {
        return words, true;
      }
      hide Fetch, Decodes, Collect, Collecting, BlockExtent;
      Extents(ram, bios, d, pc);
      CollectStart(S(), d, pc);
      var a := Physical(pc);
      var delaySlot := false;
      while Readable(a)
        invariant a % 4 == 0 && Collecting(S(), d, pc, words, a, delaySlot)
        decreases BIOS_BASE + BIOS_SIZE - a
      {
        CollectNext(S(), d, pc, words, a, delaySlot);
        var word := Fetch(ram, bios, a);
        if !d.isValid(word) {
          return words, true;
        }
        if delaySlot && d.isBranch(word) {
          return words, false;
        }
        words := words + [word];
        a := a + 4;
        if delaySlot || d.isExit(word) {
          return words, true;
        }
        delaySlot := d.isBranch(word);
      }
      CollectEnd(S(), d, pc, words, a, delaySlot);
      ok := true;
    }

    /** CompileBlock for the block at `pc`, which is in no table. Running out of code space flushes
        everything else, or fails. */
    method CompileBlock(pc: nat, allowFlush: bool, env: Env, ghost pending: set<Id>)
      returns (ok: bool, words: seq<seq<Byte>>)
      requires InvExcept(S(), pending, {}) && pc % 4 == 0 && pc !in blocks && Backed()
      modifies this`heap, this`retired, this`blocks, this`pages, this`bits, this`fast, this`sites, dispatch.cells,
               lut.bits, lut.lut
      ensures S() == old(S()) || (allowFlush && !env.space && S() == Clear(old(S())))
      ensures InvExcept(S(), pending, {}) && Shape(S()) && pc !in blocks && Backed()
      ensures ok ==> Decodes(S(), pc, words) && Collect(ram, bios, env.decoder, pc) == Some(words)
      ensures ok <==> Compiles(ram, bios, pc, allowFlush, env)
      ensures ok <==> words != [] && Collect(ram, bios, env.decoder, pc) == Some(words)
                      && (env.space || allowFlush) && env.generates
    {
      hide Clear, Backed, Collect;
      ghost var s := S();
      var complete;
      words, complete := DecodeBlock(pc, env.decoder);
      if !complete || words == [] {
        return false, words;
      }
      if !env.space {
        if !allowFlush {
          return false, words;
        }
        ClearInv(s, pending);
        ClearEmpties(s, pc, words);
        ClearState();
        PendingWeakens(S(), pending, {});
      }
      ok := env.generates;
    }

    /** Do the block's stored words still equal memory? */
    method StillCurrent(id: Id) returns (same: bool)
      requires MemoryOk(S()) && id in heap && heap[id].pc % 4 == 0
      ensures same == Current(S(), heap[id])
    {
      hide Fetch, Physical;
      var b := heap[id];
      PhysicalAligned(b.pc);
      for i := 0 to |b.words|
        invariant forall j :: 0 <= j < i ==> b.words[j] == WordAt(S(), b.pc, j)
      {
        if b.words[i] != Fetch(ram, bios, Physical(b.pc) + 4 * i) {
          assert b.words[i] != WordAt(S(), b.pc, i);
          return false;
        }
      }
      return true;
    }

    /** The bookkeeping that follows a successful compilation or revalidation: page map, fast map,
        valid flag and block map. */
    method InstallBlock(id: Id, b: Block)
      requires InvExcept(S(), {id}, {}) && Installable(S(), id, b) && Current(S(), b) && Backed()
      modifies this`heap, this`pages, this`bits, this`fast, this`blocks, dispatch.cells, lut.bits, lut.lut
      ensures S() == Install(old(S()), id, b) && Backed()
      ensures StaysTidy(old(S()), S())
      ensures Inv(S()) && ValidBlock(S(), id) && heap[id] == b
      ensures forall x :: ValidBlock(S(), x) <==> ValidBlock(old(S()), x) || x == id
    {
      hide InvExcept, Current, Backed, Fetchable, StaysTidy, Installable, ValidBlock;
      InstallReady(S(), id, b);
      heap := heap[id := b];
      AddBlockToPageMap(id);
      SetFastMap(b.pc, Code(b.hostCode));
      blocks := blocks[b.pc := Some(id)];
    }

    /** RemoveReferencesToBlock, for a block that has been invalidated. */
    method RemoveReferencesToBlock(id: Id)
      requires Inv(S()) && Live(S(), id) && heap[id].invalidated && Backed()
      modifies this`heap, this`sites, this`fast, this`blocks, dispatch.cells
      ensures S() == Forget(old(S()), id) && Backed()
      ensures InvExcept(S(), {id}, {})
    {
      hide Unlink, InvExcept, LinksMatched, Forget, Live, Backed, Fetchable;
      ForgetInv(S(), id);
      ghost var s := S();
      ForgetOrder(s, id);
      SetFastMap(heap[id].pc, CompileStub);
      SameHeapLinks(s, S());
      UnlinkBlock(id);
      blocks := blocks - {heap[id].pc};
    }

    /** Replace with null so that the block is not compiled again; the block is deleted. */
    method FallbackExistingBlockToInterpreter(id: Id)
      requires InvExcept(S(), {id}, {}) && id in heap && heap[id].pc !in blocks
      modifies this`blocks, this`retired
      ensures S() == Retire(old(S()), id) && Inv(S())
      ensures Tidy(old(S())) ==> Tidy(S())
    {
      RetireTidy(S(), id);
      RetireInv(S(), id);
      blocks := blocks[heap[id].pc := None];
      retired := retired + {id};
    }

    /** The second half of RevalidateBlock: the block has been taken out of every table. */
    method RecompileBlock(id: Id, allowFlush: bool, env: Env) returns (ok: bool)
      requires Detached(S(), id) && Backed()
      modifies this`heap, this`retired, this`blocks, this`pages, this`bits, this`fast, this`sites, dispatch.cells,
               lut.bits, lut.lut
      ensures Inv(S()) && Backed() && heap.Keys <= old(heap.Keys)
      ensures MemoryOk(old(S()))
      ensures var b := old(heap)[id];
              ok <==> !(b.recompileCount + 1 >= 20 && (env.frame - b.recompileFrame) % 0x1_0000_0000 <= 100)
                      && Compiles(old(ram), bios, b.pc, allowFlush, env)
      ensures StaysTidy(old(S()), S())
      ensures !ok ==> id in retired && (pages == old(pages) || (allowFlush && !env.space))
      ensures ok ==> ValidBlock(S(), id) && id in heap && RecompiledFrom(old(heap)[id], heap[id], env)
      ensures ok ==> Collect(ram, bios, env.decoder, heap[id].pc) == Some(heap[id].words)
      ensures !ok ==> var pc := old(heap)[id].pc; pc in blocks && blocks[pc] == None
      ensures !allowFlush ==> OthersKept(old(S()), S(), old(heap)[id].pc)
    {
      hide InvExcept, OthersKept, Collect, ValidBlock, Backed, Tidy, StaysTidy, Retire, Compiles;
      ghost var s := S();
      RetireDetached(s, id);
      var b := heap[id];
      var diff := (env.frame - b.recompileFrame) % FRAME_WRAP;
      if diff <= RECOMPILE_FRAMES_TO_FALL_BACK_TO_INTERPRETER {
        b := b.(recompileCount := b.recompileCount + 1);
        if b.recompileCount >= RECOMPILE_COUNT_TO_FALL_BACK_TO_INTERPRETER {
          FallbackExistingBlockToInterpreter(id);
          return false;
        }
      } else {
        b := b.(recompileFrame := env.frame, recompileCount := 0);
      }
      ok := CompileAgain(id, b, allowFlush, env);
    }

    /** Compiles a block that is in no table; the record b has its new counters. */
    method CompileAgain(id: Id, b: Block, allowFlush: bool, env: Env) returns (ok: bool)
      requires Detached(S(), id) && Backed() && b.pc == heap[id].pc && b.preds == b.succs == []
      modifies this`heap, this`retired, this`blocks, this`pages, this`bits, this`fast, this`sites, dispatch.cells,
               lut.bits, lut.lut
      ensures Inv(S()) && Backed() && heap.Keys <= old(heap.Keys)
      ensures MemoryOk(old(S())) && b.pc % 4 == 0 && (ok <==> Compiles(old(ram), bios, b.pc, allowFlush, env))
      ensures StaysTidy(old(S()), S())
      ensures !ok ==> id in retired && (pages == old(pages) || (allowFlush && !env.space))
      ensures ok ==> ValidBlock(S(), id) && id in heap
                     && heap[id] == b.(words := heap[id].words, hostCode := env.hostCode, invalidated := false)
      ensures ok ==> Collect(ram, bios, env.decoder, b.pc) == Some(heap[id].words)
      ensures !ok ==> b.pc in blocks && blocks[b.pc] == None
      ensures !allowFlush ==> OthersKept(old(S()), S(), b.pc)
    {
      hide InvExcept, Clear, Install, OthersKept, Installable, Collect, ValidBlock, Backed, Tidy, AllOnePage, Retire,
           Compiles;
      ghost var s := S();
      RetireDetached(s, id);
      var words;
      ok, words := CompileBlock(b.pc, allowFlush, env, {id});
      ClearKeepsPending(s, id);
      ghost var m := S();
      if !ok {
        RetireKept(m, id);
        FallbackExistingBlockToInterpreter(id);
        return;
      }
      var renewed := b.(words := words, hostCode := env.hostCode, invalidated := false);
      DecodedIsInstallable(m, id, renewed, words);
      InstallOthers(m, id, renewed);
      InstallBlock(id, renewed);
    }

    /** Makes an invalidated block valid again, recompiling it if its words have changed. If that
        fails the block is deleted and its key maps to null. */
    method RevalidateBlock(id: Id, allowFlush: bool, env: Env) returns (ok: bool)
      requires Valid() && Live(S(), id) && heap[id].invalidated
      modifies this`heap, this`retired, this`blocks, this`pages, this`bits, this`fast, this`sites, dispatch.cells,
               lut.bits, lut.lut
      ensures Valid()
      ensures MemoryOk(old(S())) && old(heap)[id].pc % 4 == 0
      ensures Current(old(S()), old(heap)[id]) ==> ok && id in heap && heap[id] == old(heap)[id].(invalidated := false)
      ensures ok <==> Current(old(S()), old(heap)[id])
                      || (!TooOften(old(heap)[id], env.frame) && Compiles(old(ram), bios, old(heap)[id].pc, allowFlush, env))
      ensures StaysTidy(old(S()), S())
      ensures !ok ==> id in retired && (pages == old(pages) || (allowFlush && !env.space))
      ensures ok ==> ValidBlock(S(), id) && id in heap && heap[id].pc == old(heap)[id].pc
      ensures ok && !Current(old(S()), old(heap)[id]) ==>
                RecompiledFrom(old(heap)[id], heap[id], env)
                && Collect(ram, bios, env.decoder, heap[id].pc) == Some(heap[id].words)
      ensures !ok ==> var pc := old(heap)[id].pc; pc in blocks && blocks[pc] == None
      ensures !allowFlush ==> OthersKept(old(S()), S(), old(heap)[id].pc)
    {
      hide InvExcept, OthersKept, Install, Forget, Current, Backed, Tidy, AllOnePage, Compiles, RecompiledFrom, Collect;
      ghost var s := S();
      LiveKnown(s, id);
      var b := heap[id];
      var same := StillCurrent(id);
      if same {
        Revalidates(s, id);
        InstallOthers(s, id, b.(invalidated := false));
        InstallBlock(id, b.(invalidated := false));
        return true;
      }
      ForgetDetaches(s, id);
      ForgetTidy(s, id);
      RemoveReferencesToBlock(id);
      DetachedRecord(b, env);
      ok := RecompileBlock(id, allowFlush, env);
      if !allowFlush {
        OthersTrans(s, Forget(s, id), S(), b.pc);
      }
    }

    /** The block for a key: an existing valid one, a revalidated one, or a new one. With
        `allowFlush` a key that cannot be compiled gets a null entry. */
    method LookupBlock(pc: nat, allowFlush: bool, env: Env) returns (r: Option<Id>)
      requires Valid() && pc % 4 == 0
      modifies this`heap, this`retired, this`blocks, this`pages, this`bits, this`fast, this`sites, this`nextId,
               dispatch.cells, lut.bits, lut.lut
      ensures Valid()
      ensures r.Some? ==> Serves(S(), r.value, pc)
      ensures r.None? ==> if pc in blocks then blocks[pc] == None else !allowFlush
      ensures r.None? && pc !in old(blocks) ==> (pc in blocks <==> allowFlush)
      ensures pc in old(blocks) && old(blocks)[pc].None? ==> S() == old(S()) && r.None?
      ensures forall b: Id :: Serves(old(S()), b, pc) ==> S() == old(S()) && r == Some(b)
      ensures pc in old(blocks) ==> pc in blocks && (r.Some? ==> r == old(blocks)[pc])
      ensures pc in old(blocks) && r.Some? ==> r.value in old(heap) && SameLinking(old(heap)[r.value], heap[r.value])
      ensures MemoryOk(S()) && ram == old(ram)
      ensures pc !in old(blocks) ==> (r.Some? <==> Compiles(ram, bios, pc, allowFlush, env))
      ensures pc !in old(blocks) && r.Some? ==>
                Compiled(S(), r.value, pc, env.decoder) && r.value !in old(heap) && FreshBlock(heap[r.value], env)
      ensures StaysTidy(old(S()), S())
      ensures !allowFlush ==> OthersKept(old(S()), S(), pc)
    {
      hide InvExcept, OthersKept, Compiled, Backed, Tidy, AllOnePage, Compiles;
      ghost var s := S();
      OthersRefl(s, pc);
      MemoryKnown(s);
      if pc in blocks {
        r := blocks[pc];
        if r.None? {
          return;
        }
        Mapped(s, pc);
        if !heap[r.value].invalidated {
          return;
        }
        var ok := RevalidateBlock(r.value, allowFlush, env);
        return if ok then r else None;
      }
      r := CompileNewBlock(pc, allowFlush, env);
    }

    /** The part of LookupBlock for a key that is not in the map. */
    method CompileNewBlock(pc: nat, allowFlush: bool, env: Env) returns (r: Option<Id>)
      requires Valid() && pc % 4 == 0 && pc !in blocks
      modifies this`heap, this`retired, this`blocks, this`pages, this`bits, this`fast, this`sites, this`nextId,
               dispatch.cells, lut.bits, lut.lut
      ensures Valid()
      ensures r.Some? ==> Serves(S(), r.value, pc) && Compiled(S(), r.value, pc, env.decoder) && r.value !in old(heap)
      ensures r.Some? ==> FreshBlock(heap[r.value], env)
      ensures r.None? ==> if allowFlush then pc in blocks && blocks[pc] == None else pc !in blocks
      ensures MemoryOk(S()) && ram == old(ram) && (r.Some? <==> Compiles(ram, bios, pc, allowFlush, env))
      ensures StaysTidy(old(S()), S())
      ensures !allowFlush ==> OthersKept(old(S()), S(), pc)
    {
      hide InvExcept, OthersKept, Clear, Install, Installable, Collect, Backed, Tidy, AllOnePage, Compiles, Decodes,
           NoNewCode;
      MemoryKnown(S());
      ghost var s := S();
      OthersRefl(s, pc);
      var id := nextId;
      PendingWeakens(s, {id}, {});
      var ok, words := CompileBlock(pc, allowFlush, env, {id});
      ClearShrinks(s);
      ghost var m := S();
      PendingNeedless(m, id);
      nextId := nextId + 1;
      if !ok {
        if allowFlush {
          NullEntryInv(S(), pc);
          NullEntryTidy(m, pc);
          blocks := blocks[pc := None];
        }
        return None;
      }
      EnterNewBlock(id, pc, words, env);
      return Some(id);
    }

    /** The record of a newly compiled block. */
    method EnterNewBlock(id: Id, pc: nat, words: seq<seq<Byte>>, env: Env)
      requires InvExcept(S(), {id}, {}) && Shape(S()) && Backed() && pc % 4 == 0 && pc !in blocks
      requires Decodes(S(), pc, words)
      requires id !in heap && id !in retired
      modifies this`heap, this`blocks, this`pages, this`bits, this`fast, dispatch.cells, lut.bits, lut.lut
      ensures Inv(S()) && Backed() && Serves(S(), id, pc) && heap[id].words == words
      ensures heap.Keys == old(heap.Keys) + {id} && FreshBlock(heap[id], env)
      ensures StaysTidy(old(S()), S()) && OthersKept(old(S()), S(), pc)
    {
      hide InvExcept, OthersKept, Install, Installable, Backed, StaysTidy, Decodes, Shape;
      var b := Block(pc, words, env.hostCode, [], [], false, true, env.frame, 0, 0);
      DecodedIsInstallable(S(), id, b, words);
      InstallOthers(S(), id, b);
      InstallBlock(id, b);
    }

    /** One step of InvalidateAll. */
    method InvalidateEntry(k: nat, frame: nat, ghost s: State)
      requires Valid() && k in blocks && SameBlocks(s, S())
      modifies this`heap, this`sites, this`fast, dispatch.cells
      ensures Valid() && SameBlocks(s, S()) && pages == old(pages) && bits == old(bits)
      ensures EntryInvalidated(old(S()), S(), k, frame)
    {
      hide InvExcept, SameBlocks, Invalidate, Backed, Fetchable, LinkingMarked, SameLinking, EntryInvalidated;
      ghost var m := S();
      if blocks[k].Some? {
        Mapped(m, k);
        var id := blocks[k].value;
        if !heap[id].invalidated {
          EntryReady(m, k, id, frame);
          InvalidateBlock(id, false, frame);
          SameBlocksTrans(s, m, S());
          return;
        }
      }
      NoEntry(m, k, frame);
    }

    /** The loop of InvalidateAll. */
    method InvalidateEntries(frame: nat)
      requires Valid()
      modifies this`heap, this`sites, this`fast, dispatch.cells
      ensures Valid() && SameBlocks(old(S()), S())
      ensures SparedSoFar(old(S()), S(), {}, frame)
    {
      hide InvExcept, SameBlocks, Backed, EntryInvalidated, SparedSoFar;
      ghost var s := S();
      SameBlocksRefl(s);
      SparedFirst(s, frame);
      var keys := blocks.Keys;
      while keys != {}
        invariant Valid() && SameBlocks(s, S()) && blocks == s.blocks && keys <= blocks.Keys
        invariant SparedSoFar(s, S(), keys, frame)
        decreases |keys|
      {
        var k :| k in keys;
        ghost var m := S();
        InvalidateEntry(k, frame, s);
        SparedNext(s, m, S(), keys, k, frame);
        keys := keys - {k};
      }
    }

    /** Every mapped block is made invalid, and all page lists and code bits are cleared. No block loses
        the right to be linked. */
    method InvalidateAll(frame: nat)
      requires Valid()
      modifies this`heap, this`sites, this`fast, this`pages, this`bits, dispatch.cells, lut.bits, lut.lut
      ensures Valid() && SameBlocks(old(S()), S())
      ensures forall x :: !ValidBlock(S(), x)
      ensures forall p :: 0 <= p < |pages| ==> pages[p] == [] && !bits[p]
      ensures LinkingSpared(old(S()), S(), frame)
      ensures Tidy(S())
    {
      hide InvExcept, SameBlocks, Backed, SparedSoFar, LinkingSpared;
      ghost var s := S();
      InvalidateEntries(frame);
      ghost var m := S();
      NoneValid(s, m, frame);
      AllPagesCleared(m);
      ClearRAMCodePageFlags();
      pages := seq(|pages|, _ => []);
      ClearedPages(m);
      SameBlocksTrans(s, m, S());
      SparedAll(s, m, S(), frame);
      PagesSized(m);
    }

    /** Drops every block. */
    method Flush()
      requires Valid()
      modifies this`heap, this`retired, this`blocks, this`pages, this`bits, this`fast, this`sites, dispatch.cells,
               lut.bits, lut.lut
      ensures Valid() && blocks == map[] && Tidy(S()) && forall x :: !ValidBlock(S(), x)
    {
      ClearInv(S(), {});
      ClearShrinks(S());
      PagesSized(S());
      hide InvExcept, Backed;
      ClearState();
    }

    /** DoRAMAccess for an aligned write of one, two or four bytes; `a` may lie in a RAM mirror. */
    method WriteRam(a: nat, bytes: seq<Byte>, skipRedundant: bool, frame: nat)
      requires Valid() && Aligned(a % RAM_SIZE, bytes)
      modifies this`heap, this`sites, this`fast, this`pages, this`bits, this`ram, dispatch.cells, lut.bits, lut.lut
      ensures Valid() && blocks == old(blocks) && heap.Keys == old(heap.Keys)
      ensures ram == Write(old(S()), a % RAM_SIZE, bytes).ram
      ensures forall x :: ValidBlock(S(), x) <==>
                ValidBlock(old(S()), x) && ((skipRedundant && ram == old(ram)) || x !in old(pages)[a % RAM_SIZE / PAGE_SIZE])
      ensures PagesInHeap(old(S())) && MemoryOk(old(S())) && |old(pages)| == |old(bits)| == PAGE_COUNT
      ensures S() == Store(old(S()), a % RAM_SIZE, bytes, skipRedundant, frame)
      ensures LinkingFollows(old(S()), S(), if skipRedundant && ram == old(ram) then []
                                            else old(pages)[a % RAM_SIZE / PAGE_SIZE], frame)
      ensures Tidy(old(S())) ==> Tidy(S())
    {
      hide InvExcept, InvalidateOne, ValidBlock, Aligned, PagesInHeap, SameBlocks, Store, Backed, Tidy, LinkingFollows;
      ghost var s := S();
      AlignedInPage(a % RAM_SIZE, bytes);
      StoreLinking(s, a % RAM_SIZE, bytes, skipRedundant, frame);
      StoreTidy(s, a % RAM_SIZE, bytes, skipRedundant, frame);
      var offset := a % RAM_SIZE;
      StoreReady(s, offset, bytes, skipRedundant, frame);
      var p := offset / PAGE_SIZE;
      if skipRedundant {
        if ram[offset..offset + |bytes|] != bytes {
          ram := ram[..offset] + bytes + ram[offset + |bytes|..];
          InvalidateIfCode(p, frame, {p});
        }
      } else {
        InvalidateIfCode(p, frame, {});
        ram := ram[..offset] + bytes + ram[offset + |bytes|..];
      }
    }

    lemma CodeBit(p: nat)
      requires Backed() && p < PAGE_COUNT
      ensures p < lut.bits.Length && p < |bits| && lut.bits[p] == bits[p]
    {
    }

    /** Invalidates the page if its code bit is set. */
    method InvalidateIfCode(p: nat, frame: nat, ghost stale: set<nat>)
      requires InvExcept(S(), {}, stale) && p < PAGE_COUNT && Backed()
      modifies this`heap, this`sites, this`fast, this`pages, this`bits, dispatch.cells, lut.bits, lut.lut
      ensures |old(pages)| == |old(bits)| == PAGE_COUNT && PagesInHeap(old(S()))
      ensures S() == InvalidateOne(old(S()), p, frame) && Backed()
    {
      ListedInHeap(S(), stale);
      CodeBit(p);
      hide InvExcept, InvalidatePage, Backed;
      if lut.bits[p] {
        InvalidateBlocksWithPageIndex(p, frame, stale);
      }
    }

    /** A store that goes straight to RAM, through an unmirrored window whose entry is not null. */
    method DirectStore(window: nat, address: nat, bytes: seq<Byte>)
      requires Valid() && Aligned(address % RAM_SIZE, bytes)
      requires window < |FastmemLut.MIRRORS| && FastmemLut.Unmirrored(window)
      requires FastmemLut.MIRRORS[window] <= address < FastmemLut.MIRRORS[window] + RAM_SIZE
      requires address / PAGE_SIZE < FastmemLut.LUT_PAGES && lut.WriteSlot(address).Some?
      modifies this`ram
      ensures Valid() && ram == Write(old(S()), address % RAM_SIZE, bytes).ram && pages == old(pages)
      ensures blocks == old(blocks)
      ensures Tidy(old(S())) ==> Tidy(S())
    {
      hide InvExcept, Tidy;
      ghost var s := S();
      lut.DirectAccess(window, address);
      CodeBit(address % RAM_SIZE / PAGE_SIZE);
      hide Backed;
      var offset := lut.lut[FastmemLut.LUT_PAGES + address / PAGE_SIZE].value + address % PAGE_SIZE;
      AlignedInPage(offset, bytes);
      ClearBitInv(s, offset / PAGE_SIZE, {});
      ListedInHeap(s, {});
      StoreAfter(s, offset, bytes);
      TidyKept(s, Write(s, offset, bytes));
      ram := ram[..offset] + bytes + ram[offset + |bytes|..];
    }

    /** InvalidateCodePages. */
    method InvalidateCodePages(address: nat, wordCount: nat, frame: nat, ghost stale: set<nat>)
      requires InvExcept(S(), {}, stale) && Backed() && wordCount > 0
      requires (address + 4 * wordCount - 4) / PAGE_SIZE < PAGE_COUNT
      modifies this`heap, this`sites, this`fast, this`pages, this`bits, dispatch.cells, lut.bits, lut.lut
      ensures |old(pages)| == |old(bits)| == PAGE_COUNT && PagesInHeap(old(S()))
      ensures address / PAGE_SIZE <= (address + 4 * wordCount - 4) / PAGE_SIZE
      ensures var first, last := address / PAGE_SIZE, (address + 4 * wordCount - 4) / PAGE_SIZE;
              S() == InvalidateRange(old(S()), first, last - first + 1, frame) && Backed()
    {
      hide InvExcept, InvalidateRange, InvalidateOne, PageRange, PagesInHeap, MemoryOk, Backed;
      ghost var s := S();
      var first, last := address / PAGE_SIZE, (address + 4 * wordCount - 4) / PAGE_SIZE;
      RangeOrdered(s, address, wordCount, frame, stale);
      InvalidatePages(first, last - first + 1, frame, stale);
    }

    /** Its loop, over n pages. */
    method InvalidatePages(first: nat, n: nat, frame: nat, ghost stale: set<nat>)
      requires InvExcept(S(), {}, stale) && first + n <= PAGE_COUNT && Backed()
      modifies this`heap, this`sites, this`fast, this`pages, this`bits, dispatch.cells, lut.bits, lut.lut
      ensures |old(pages)| == |old(bits)| == PAGE_COUNT && PagesInHeap(old(S()))
      ensures S() == InvalidateRange(old(S()), first, n, frame) && Backed()
    {
      hide InvExcept, InvalidateRange, InvalidateOne, PageRange, PagesInHeap, MemoryOk, Backed;
      ghost var s := S();
      RangeStart(s, first, frame, stale);
      for i := 0 to n
        invariant S() == InvalidateRange(s, first, i, frame) && Backed()
      {
        RangeStep(s, first, i, frame, stale);
        InvalidateIfCode(first + i, frame, stale - PageRange(first, i));
      }
    }

    /** TransferDeviceToMemory, with the words that arrive. A transfer that reaches the end of RAM or goes
        down is buffered, which leaves the address past the last word; the clearing of an ordering table
        stops at its last word. */
    method DmaWrite(start: Start, words: seq<Word>, frame: nat)
      requires Valid() && Transfer(start, |words|)
      modifies this`heap, this`sites, this`fast, this`pages, this`bits, this`ram, dispatch.cells, lut.bits, lut.lut
      ensures ram == WriteWords(old(S()), start, words).ram && blocks == old(blocks)
      ensures InvExcept(S(), {}, Missed(start, |words|))
      ensures CoversRam(start, |words|) ==> Valid()
      ensures Tidy(old(S())) ==> Tidy(S())
    {
      hide InvExcept, InvalidateRange, WriteWords, Missed, CoversRam, WordOffset, PagesInHeap, WrittenPages, Backed,
           Tidy;
      ghost var s := S();
      DmaReady(s, start, words, frame);
      DmaDone(s, start, words, frame);
      var a := StoreTransfer(start, words);
      InvalidateCodePages(a, |words|, frame, WrittenPages(start, |words|));
    }

    /** The words, and the address that is left when they are in RAM. */
    method StoreTransfer(start: Start, words: seq<Word>) returns (a: nat)
      requires MemoryOk(S()) && Transfer(start, |words|)
      modifies this`ram
      ensures S() == WriteWords(old(S()), start, words) && a == InvalidatedFrom(start, |words|)
    {
      hide WriteWords, WordOffset;
      var n := |words|;
      if start.direction.Table? {
        WriteWordsStep(S(), start, words, n - 1);
        a := StoreWords(start, words[..n - 1]);
        ram := ram[..a] + words[n - 1] + ram[a + 4..];
        assert words[..n - 1 + 1] == words;
      } else {
        WordOffsetIs(start, n);
        var buffered := start.direction.Down? || (start.offset + 4 * n) % RAM_SIZE <= start.offset;
        a := StoreWords(start, words);
        if !buffered {
          a := start.offset;
        }
      }
    }

    /** Words put at consecutive addresses; also returns the address after the last one. */
    method StoreWords(start: Start, words: seq<Word>) returns (a: nat)
      requires MemoryOk(S()) && Transfer(start, RAM_SIZE / 4)
      modifies this`ram
      ensures S() == WriteWords(old(S()), start, words) && a == WordOffset(start, |words|)
    {
      hide WriteWords, WordOffset;
      ghost var s := S();
      a := start.offset;
      assert words[..0] == [];
      WriteNoWords(s, start);
      for i := 0 to |words|
        invariant a == WordOffset(start, i) && S() == WriteWords(s, start, words[..i])
      {
        WriteWordsStep(s, start, words, i);
        ram := ram[..a] + words[i] + ram[a + 4..];
        a := (if start.direction.Up? then a + 4 else a - 4) % RAM_SIZE;
      }
      assert words[..|words|] == words;
    }

    /** LinkBlock. */
    method LinkBlock(from: Id, to: Id, site: Site)
      requires Valid() && Live(S(), from) && ValidBlock(S(), to)
      requires site.hostPc != 0 && site.hostPc in sites ==> !sites[site.hostPc].Code?
      modifies this`heap, this`sites
      ensures S() == AddLink(old(S()), from, to, site) && Valid()
      ensures forall x :: ValidBlock(S(), x) <==> ValidBlock(old(S()), x)
    {
      hide InvExcept, Live, ValidBlock, Backed;
      LinkReady(S(), from, to, site);
      var h := heap[from := heap[from].(succs := heap[from].succs + [Link(to, site)])];
      heap := h[to := h[to].(preds := h[to].preds + [Link(from, site)])];
      if site.hostPc != 0 {
        sites := sites[site.hostPc := Code(heap[to].hostCode)];
      }
    }

    /** ResolveBranch: the branch at `site`, still pointing at its resolver, is taken to `pc`. */
    method ResolveBranch(from: Id, site: Site, pc: nat, env: Env)
      requires Valid() && Live(S(), from) && pc % 4 == 0 && site.hostPc != 0
      requires site.hostPc in sites ==> !sites[site.hostPc].Code?
      modifies this`heap, this`retired, this`blocks, this`pages, this`bits, this`fast, this`sites, this`nextId,
               dispatch.cells, lut.bits, lut.lut
      ensures Valid() && Resolved(S(), from, old(heap)[from].canLink, site, pc) && StaysTidy(old(S()), S())
      ensures MemoryOk(old(S())) && Found(old(S()), S(), pc, Compiles(old(ram), bios, pc, false, env))
    {
      hide InvExcept, OthersKept, AddLink, Backed, Tidy, AllOnePage, StaysTidy, Compiles;
      ghost var s := S();
      var r := LookupBlock(pc, false, env);
      StillThere(s, S(), pc, from, r, site.hostPc);
      if r.None? || !heap[from].canLink || !heap[r.value].canLink {
        NotRecorded(S(), site.hostPc);
        ReturnInv(S(), site.hostPc);
        SitesTidy(s, S(), sites[site.hostPc := Return]);
        sites := sites[site.hostPc := Return];
      } else {
        LinkResolves(S(), from, r.value, site, pc);
        LinkTidy(s, S(), from, r.value, site);
        LinkBlock(from, r.value, site);
      }
    }

    /** The cached interpreter's step from a valid block to the next key, which is not its own: follow
        a recorded successor, or look the key up and link. */
    method NextBlock(from: Id, pc: nat, env: Env) returns (r: Option<Id>)
      requires Valid() && ValidBlock(S(), from) && pc % 4 == 0 && pc != heap[from].pc
      modifies this`heap, this`retired, this`blocks, this`pages, this`bits, this`fast, this`sites, this`nextId,
               dispatch.cells, lut.bits, lut.lut
      ensures Valid() && StaysTidy(old(S()), S())
      ensures r.Some? ==> Serves(S(), r.value, pc) && exists l :: IsLink(S(), from, l) && l.block == r.value
      ensures forall b: Id :: Serves(old(S()), b, pc) ==> r == Some(b)
      ensures forall l :: IsLink(old(S()), from, l) && Serves(old(S()), l.block, pc) ==> S() == old(S())
      ensures pc !in old(blocks) ==> MemoryOk(old(S())) && (r.Some? <==> Compiles(old(ram), bios, pc, false, env))
      ensures r.None? ==> pc !in blocks || blocks[pc] == None
    {
      hide InvExcept, OthersKept, AddLink, Backed, Tidy, AllOnePage, StaysTidy, Compiles;
      ghost var s := S();
      StaysTidyRefl(s);
      var succs := heap[from].succs;
      MemoryKnown(s);
      for i := 0 to |succs|
        invariant forall j :: 0 <= j < i ==> !Serves(s, succs[j].block, pc)
        modifies {}
      {
        SuccessorValid(s, from, succs[i]);
        if heap[succs[i].block].pc == pc {
          assert IsLink(s, from, succs[i]);
          return Some(succs[i].block);
        }
      }
      r := LookupBlock(pc, false, env);
      StillThere(s, S(), pc, from, r, 0);
      if r.Some? {
        LinkServes(S(), from, r.value, Site(0, 0), pc);
        LinkTidy(s, S(), from, r.value, Site(0, 0));
        LinkBlock(from, r.value, Site(0, 0));
      }
    }
  }

  /** Compilation succeeds: the decoder takes some words, there is room, or a flush may make it, and the
      code generator succeeds. */
  predicate Compiles(ram: seq<Byte>, bios: seq<Byte>, pc: nat, allowFlush: bool, env: Env)
    requires |ram| == RAM_SIZE && |bios| == BIOS_SIZE && pc % 4 == 0
  {
    var words := Collect(ram, bios, env.decoder, pc);
    words.Some? && words.value != [] && (env.space || allowFlush) && env.generates
  }

  /** A block that has just been compiled for the first time: linkable, with no links yet. */
  predicate FreshBlock(b: Block, env: Env) {
    && b.canLink && b.invalidateFrame == 0 && b.recompileFrame == env.frame && b.recompileCount == 0
    && b.hostCode == env.hostCode && !b.invalidated && b.preds == b.succs == []
  }

  /** m is the record of the block b after it has been recompiled: it is at the same pc, may be linked if it
      could be before, and has new code. */
  predicate RecompiledFrom(b: Block, m: Block, env: Env) {
    && m.pc == b.pc && m.hostCode == env.hostCode && m.preds == m.succs == [] && !m.invalidated
    && SameLinking(b, m) && Counted(b, m, env.frame)
  }

  lemma DetachedRecord(b: Block, env: Env)
    ensures forall m: Block :: RecompiledFrom(b.(preds := [], succs := []), m, env) ==> RecompiledFrom(b, m, env)
    ensures forall m: Block :: RecompiledFrom(b, m, env) ==> m.pc == b.pc && SameLinking(b, m)
  {
  }

  /** In no table and no link, but not deleted: the state of a block that is being recompiled. */
  ghost predicate Detached(s: State, id: Id) {
    && InvExcept(s, {id}, {}) && id in s.heap && id !in s.retired && s.heap[id].invalidated
    && s.heap[id].pc !in s.blocks && s.heap[id].pc % 4 == 0
    && s.heap[id].preds == [] && s.heap[id].succs == []
  }

  lemma LiveKnown(s: State, id: Id)
    requires Inv(s) && Live(s, id)
    ensures MemoryOk(s) && Shape(s) && id in s.heap && s.heap[id].pc % 4 == 0 && id !in s.retired
    ensures Fetchable(s.heap[id].pc)
  {
  }

  lemma Revalidates(s: State, id: Id)
    requires Inv(s) && Live(s, id) && s.heap[id].invalidated && Current(s, s.heap[id])
    ensures var b := s.heap[id].(invalidated := false);
            InvExcept(s, {id}, {}) && Installable(s, id, b) && Current(s, b)
  {
    PendingWeakens(s, {id}, {});
    hide WordAt;
  }

  lemma InstallReady(s: State, id: Id, b: Block)
    requires InvExcept(s, {id}, {}) && Installable(s, id, b) && Current(s, b)
    ensures var t := Install(s, id, b);
            && Inv(t) && ValidBlock(t, id) && id in t.heap && t.heap[id] == b
            && (forall x :: ValidBlock(t, x) <==> ValidBlock(s, x) || x == id)
            && StaysTidy(s, t)
    ensures |s.pages| == |s.bits| == PAGE_COUNT && b.pc % 4 == 0 && Fetchable(b.pc) && (InRam(b) ==> EndPage(b) < PAGE_COUNT)
  {
    hide Install, StaysTidy, Listed, Covered, Coherent, LinksMatched, LinksValid, SitesTrue, FastTrue, Current;
    InstallInv(s, id, b);
    InstallFrame(s, id, b);
    InstallTidy(s, id, b);
  }

  lemma InstallOthers(s: State, id: Id, b: Block)
    requires Shape(s) && Installable(s, id, b)
    ensures OthersKept(s, Install(s, id, b), b.pc)
    ensures Install(s, id, b).heap.Keys == s.heap.Keys + {id}
  {
    InstallFrame(s, id, b);
    hide Overlaps, Shape;
  }

  lemma RetireKept(s: State, id: Id)
    requires id in s.heap
    ensures var t := Retire(s, id);
            id in t.retired && t.pages == s.pages && t.heap == s.heap && t.ram == s.ram
            && s.heap[id].pc in t.blocks && t.blocks[s.heap[id].pc] == None
  {
  }

  lemma RetireDetached(s: State, id: Id)
    requires Detached(s, id)
    ensures OthersKept(s, Retire(s, id), s.heap[id].pc)
    ensures Shape(s) && MemoryOk(s) && s.heap[id].pc % 4 == 0 && s.heap[id].pc !in s.blocks && InvExcept(s, {id}, {})
    ensures (Tidy(s) ==> Tidy(Retire(s, id))) && StaysTidy(s, Retire(s, id))
    ensures var t := Retire(s, id);
            id in t.retired && t.pages == s.pages && t.heap == s.heap && t.ram == s.ram
            && s.heap[id].pc in t.blocks && t.blocks[s.heap[id].pc] == None
  {
    RetireTidy(s, id);
    RetireOthers(s, id);
    hide InvExcept;
  }

  lemma RetireOthers(s: State, id: Id)
    requires Detached(s, id)
    ensures OthersKept(s, Retire(s, id), s.heap[id].pc)
    ensures Shape(s)
  {
    hide Listed, Covered, Coherent, LinksMatched, LinksValid, SitesTrue, FastTrue;
  }

  lemma ForgetDetaches(s: State, id: Id)
    requires Inv(s) && Live(s, id) && s.heap[id].invalidated
    ensures Detached(Forget(s, id), id)
    ensures OthersKept(s, Forget(s, id), s.heap[id].pc)
    ensures Forget(s, id).heap.Keys == s.heap.Keys && Forget(s, id).heap[id] == s.heap[id].(preds := [], succs := [])
  {
    ForgetInv(s, id);
    ForgetOthers(s, id);
    hide InvExcept, Forget;
    LiveKnown(s, id);
  }

  lemma ForgetOthers(s: State, id: Id)
    requires id in s.heap
    ensures OthersKept(s, Forget(s, id), s.heap[id].pc)
  {
    hide NoNewCode, Restore, Without;
    UnlinkNoNewCode(s.(heap := s.heap[id := s.heap[id]]), id);
  }

  lemma OthersTrans(s: State, t: State, u: State, pc: nat)
    requires OthersKept(s, t, pc) && OthersKept(t, u, pc)
    ensures OthersKept(s, u, pc)
  {
  }

  /** The block's words are those the decoder takes at its pc. */
  ghost predicate Compiled(s: State, id: Id, pc: nat, d: Decoder) {
    MemoryOk(s) && pc % 4 == 0 && id in s.heap && Collect(s.ram, s.bios, d, pc) == Some(s.heap[id].words)
  }

  /** A resolved branch jumps to the code of the valid block for its key, with a link that records it,
      exactly if there is one and both blocks may be linked. Otherwise it returns to the dispatcher. */
  predicate Resolved(s: State, from: Id, mayLink: bool, site: Site, pc: nat) {
    && site.hostPc in s.sites
    && if pc in s.blocks && s.blocks[pc].Some? && s.blocks[pc].value in s.heap && s.heap[s.blocks[pc].value].canLink && mayLink
       then Serves(s, s.blocks[pc].value, pc) && IsLink(s, from, Link(s.blocks[pc].value, site))
            && s.sites[site.hostPc] == Code(s.heap[s.blocks[pc].value].hostCode)
       else s.sites[site.hostPc] == Return
  }

  /** Whether the key of a branch has a block, and whether that may be linked, given how it was before. */
  predicate Found(s: State, t: State, pc: nat, compiles: bool) {
    if pc !in s.blocks then
      if compiles then pc in t.blocks && t.blocks[pc].Some? && t.blocks[pc].value in t.heap
                       && t.heap[t.blocks[pc].value].canLink
      else pc !in t.blocks
    else
      && pc in t.blocks && (t.blocks[pc] == s.blocks[pc] || t.blocks[pc] == None)
      && (t.blocks[pc].Some? ==> t.blocks[pc].value in s.heap && t.blocks[pc].value in t.heap
                                 && t.heap[t.blocks[pc].value].canLink == s.heap[t.blocks[pc].value].canLink)
  }

  lemma OthersRefl(s: State, pc: nat)
    ensures OthersKept(s, s, pc)
  {
  }

  /** A valid block can be invalidated, and this is what becomes of the state. */
  lemma EntryReady(s: State, k: nat, id: Id, frame: nat)
    requires Inv(s) && ValidBlock(s, id) && s.heap[id].pc == k
    ensures LinksMatched(s) && s.heap[id].pc % 4 == 0 && Fetchable(s.heap[id].pc)
    ensures var t := Invalidate(s, id, false, frame);
            Inv(t) && SameBlocks(s, t) && t.pages == s.pages && t.bits == s.bits && EntryInvalidated(s, t, k, frame)
  {
    hide InvExcept, Invalidate, LinkingMarked, SameLinking;
    InvalidateInv(s, id, false, frame, {});
    LinksOf(s, {});
    LiveKnown(s, id);
    InvalidateMarks(s, id, false, frame);
  }

  lemma NoEntry(s: State, k: nat, frame: nat)
    requires k in s.blocks && (s.blocks[k].None? || (s.blocks[k].value in s.heap && s.heap[s.blocks[k].value].invalidated))
    ensures EntryInvalidated(s, s, k, frame)
  {
  }

  lemma NoneValid(s: State, t: State, frame: nat)
    requires SparedSoFar(s, t, {}, frame)
    ensures forall x :: !ValidBlock(t, x)
    ensures forall u: State :: u.heap == t.heap && u.blocks == t.blocks ==> forall x :: !ValidBlock(u, x)
  {
  }

  /** A mapped key leads to a block under that key. */
  lemma Mapped(s: State, pc: nat)
    requires Inv(s) && pc in s.blocks && s.blocks[pc].Some?
    ensures Live(s, s.blocks[pc].value) && s.heap[s.blocks[pc].value].pc == pc
  {
  }

  lemma ClearShrinks(s: State)
    ensures Clear(s).heap.Keys <= s.heap.Keys
    ensures Clear(s).ram == s.ram && Tidy(Clear(s))
  {
  }

  lemma NullEntryTidy(s: State, pc: nat)
    requires pc !in s.blocks
    ensures Tidy(s) ==> Tidy(s.(blocks := s.blocks[pc := None]))
  {
    TidyKept(s, s.(blocks := s.blocks[pc := None]));
  }

  lemma MemoryKnown(s: State)
    requires Inv(s)
    ensures MemoryOk(s)
  {
  }

  /** A block that is not even allocated needs no exemption. */
  lemma PendingNeedless(s: State, id: Id)
    requires InvExcept(s, {id}, {})
    ensures id !in s.heap ==> Inv(s)
  {
    hide Shape, Covered, Coherent, LinksMatched, LinksValid, SitesTrue, FastTrue;
    if id !in s.heap {
      forall p, x | 0 <= p < |s.pages| && x in s.pages[p]
        ensures ListedOk(s, {}, x)
      {
        assert ListedOk(s, {id}, x);
      }
    }
  }

  lemma SameKeys(s: State, t: State)
    requires SameBlocks(s, t)
    ensures t.heap.Keys == s.heap.Keys && t.blocks == s.blocks
    ensures forall x :: x in s.heap ==> t.heap[x].pc == s.heap[x].pc
  {
  }

  lemma ClearedPages(s: State)
    ensures SameBlocks(s, s.(pages := seq(|s.pages|, _ => []), bits := seq(|s.bits|, _ => false)))
    ensures forall x ::
              ValidBlock(s.(pages := seq(|s.pages|, _ => []), bits := seq(|s.bits|, _ => false)), x) <==> ValidBlock(s, x)
  {
  }

  lemma PagesSized(s: State)
    requires Inv(s)
    ensures |s.pages| == |s.bits|
  {
  }

  /** The state between a store and the invalidation of its page. */
  lemma WriteStale(s: State, offset: nat, bytes: seq<Byte>, p: nat)
    requires Inv(s) && offset + |bytes| <= RAM_SIZE && forall o :: offset <= o < offset + |bytes| ==> o / PAGE_SIZE == p
    ensures offset + |bytes| <= |s.ram| && InvExcept(Write(s, offset, bytes), {}, {p})
  {
    WeakenStale(s, {}, {p});
    WriteInv(s, offset, bytes, {p});
  }

  /** Both orders of storing and invalidating lead to the state that StoreInv describes. */
  lemma StoreReady(s: State, offset: nat, bytes: seq<Byte>, skipRedundant: bool, frame: nat)
    requires Inv(s) && Aligned(offset, bytes)
    ensures PagesInHeap(s) && MemoryOk(s) && |s.pages| == |s.bits| == PAGE_COUNT && offset + |bytes| <= RAM_SIZE
    ensures var p, w, t := offset / PAGE_SIZE, Write(s, offset, bytes), Store(s, offset, bytes, skipRedundant, frame);
            && p < PAGE_COUNT && InvExcept(w, {}, {p}) && PagesInHeap(w) && InvalidateOne(s, p, frame).ram == s.ram
            && InvalidateOne(w, p, frame) == Write(InvalidateOne(s, p, frame), offset, bytes)
            && t == (if skipRedundant && s.ram[offset..offset + |bytes|] == bytes then s else InvalidateOne(w, p, frame))
            && Inv(t) && t.ram == w.ram && t.heap.Keys == s.heap.Keys && t.blocks == s.blocks
            && (forall x :: ValidBlock(t, x) <==>
                  ValidBlock(s, x) && ((t.ram == s.ram && skipRedundant) || x !in s.pages[p]))
  {
    AlignedInPage(offset, bytes);
    StoreInv(s, offset, bytes, skipRedundant, frame);
    StoreOrders(s, offset, bytes, offset / PAGE_SIZE, frame);
    WriteStale(s, offset, bytes, offset / PAGE_SIZE);
    hide InvExcept, InvalidateOne, ValidBlock, Aligned, PagesInHeap, Write;
  }

  lemma DmaReady(s: State, start: Start, words: seq<Word>, frame: nat)
    requires Inv(s) && Transfer(start, |words|)
    ensures MemoryOk(s)
    ensures var n, u := |words|, WriteWords(s, start, words);
            && InvExcept(u, {}, WrittenPages(start, n)) && FirstPage(start, n) <= LastPage(start, n) < PAGE_COUNT
            && |u.pages| == |u.bits| == PAGE_COUNT && PagesInHeap(u)
  {
    hide InvExcept, WriteWords, WordOffset, WrittenPages, FirstPage, LastPage, PagesInHeap;
    WriteWordsInv(s, start, words);
    ListedInHeap(s, {});
    ListedInHeap(WriteWords(s, start, words), WrittenPages(start, |words|));
    LastPageBound(start, |words|);
  }

  lemma WordOffsetIs(start: Start, n: nat)
    ensures start.direction.Up? ==> (start.offset + 4 * n) % RAM_SIZE == WordOffset(start, n)
  {
  }

  lemma DmaDone(s: State, start: Start, words: seq<Word>, frame: nat)
    requires Inv(s) && Transfer(start, |words|)
    requires var u := WriteWords(s, start, words); |u.pages| == |u.bits| == PAGE_COUNT && PagesInHeap(u)
    ensures MemoryOk(s) && |s.pages| == |s.bits| == PAGE_COUNT && PagesInHeap(s)
    ensures var n := |words|; var t := InvalidateTransfer(WriteWords(s, start, words), start, n, frame);
            && t.ram == WriteWords(s, start, words).ram && t.blocks == s.blocks && t.heap.Keys == s.heap.Keys
            && InvExcept(t, {}, Missed(start, n)) && (CoversRam(start, n) ==> Inv(t))
            && (Tidy(s) ==> Tidy(t))
  {
    hide InvExcept, InvalidateTransfer, WriteWords, Missed, CoversRam, WordOffset, Tidy, PagesInHeap;
    DmaInv(s, start, words, frame);
    DmaTidy(s, start, words, frame);
  }

  lemma RangeOrdered(s: State, address: nat, wordCount: nat, frame: nat, stale: set<nat>)
    requires InvExcept(s, {}, stale) && wordCount > 0
    ensures address / PAGE_SIZE <= (address + 4 * wordCount - 4) / PAGE_SIZE
    ensures PagesInHeap(s) && |s.pages| == |s.bits| == PAGE_COUNT
  {
    ListedInHeap(s, stale);
  }

  lemma RangeStart(s: State, first: nat, frame: nat, stale: set<nat>)
    requires InvExcept(s, {}, stale) && first <= PAGE_COUNT
    ensures PagesInHeap(s) && |s.pages| == |s.bits| == PAGE_COUNT && InvalidateRange(s, first, 0, frame) == s
  {
    ListedInHeap(s, stale);
  }

  lemma RangeStep(s: State, first: nat, i: nat, frame: nat, stale: set<nat>)
    requires InvExcept(s, {}, stale) && first + i < PAGE_COUNT
    ensures PagesInHeap(s) && |s.pages| == |s.bits| == PAGE_COUNT
    ensures var t := InvalidateRange(s, first, i, frame);
            && InvExcept(t, {}, stale - PageRange(first, i)) && |t.bits| == |t.pages| == PAGE_COUNT
            && PagesInHeap(t) && InvalidateRange(s, first, i + 1, frame) == InvalidateOne(t, first + i, frame)
  {
    InvalidateRangeInv(s, first, i, frame, stale);
    hide InvExcept, InvalidateOne;
  }

  lemma WriteNoWords(s: State, start: Start)
    requires MemoryOk(s) && Transfer(start, RAM_SIZE / 4)
    ensures WriteWords(s, start, []) == s && WordOffset(start, 0) == start.offset
  {
  }

  lemma WriteWordsStep(s: State, start: Start, words: seq<Word>, i: nat)
    requires MemoryOk(s) && Transfer(start, RAM_SIZE / 4) && i < |words|
    ensures WordOffset(start, i) + 4 <= RAM_SIZE
    ensures WordOffset(start, i + 1)
            == (if start.direction.Up? then WordOffset(start, i) + 4 else WordOffset(start, i) - 4) % RAM_SIZE
    ensures WriteWords(s, start, words[..i + 1])
            == Write(WriteWords(s, start, words[..i]), WordOffset(start, i), words[i])
  {
    WordOffsetNext(start, i);
    WriteWordsLast(s, start, words[..i + 1]);
    assert words[..i + 1][..i] == words[..i];
  }

  lemma WordOffsetNext(start: Start, i: nat)
    ensures WordOffset(start, i + 1)
            == (if start.direction.Up? then WordOffset(start, i) + 4 else WordOffset(start, i) - 4) % RAM_SIZE
  {
    var x: int := if start.direction.Up? then start.offset + 4 * i else start.offset - 4 * i;
    assert x == RAM_SIZE * (x / RAM_SIZE) + x % RAM_SIZE;
  }

  /** A branch that is not patched to block code belongs to no link. */
  lemma NotRecorded(s: State, h: nat)
    requires Inv(s) && (h != 0 && h in s.sites ==> !s.sites[h].Code?)
    ensures !Recorded(s, h)
  {
  }

  /** The block that is running survives the lookup of its successor, unless the successor is itself. */
  lemma StillThere(s: State, t: State, pc: nat, from: Id, r: Option<Id>, h: nat)
    requires Live(s, from) && OthersKept(s, t, pc)
    requires r.Some? ==> ValidBlock(t, r.value) && (pc in s.blocks ==> r == s.blocks[pc])
    requires h != 0 && h in s.sites ==> !s.sites[h].Code?
    ensures r.Some? ==> Live(t, from) && (s.heap[from].pc != pc ==> t.heap[from].canLink == s.heap[from].canLink)
    ensures s.heap[from].pc != pc ==> Live(t, from)
    ensures h != 0 && h in t.sites ==> !t.sites[h].Code?
  {
  }

  lemma LinkServes(s: State, from: Id, to: Id, site: Site, pc: nat)
    requires Live(s, from) && Serves(s, to, pc)
    ensures var t := AddLink(s, from, to, site);
            Serves(t, to, pc) && IsLink(t, from, Link(to, site)) && t.blocks == s.blocks && s.blocks[pc] == Some(to)
  {
    AddLinkFrame(s, from, to, site);
    hide AddLink;
  }

  lemma LinkResolves(s: State, from: Id, to: Id, site: Site, pc: nat)
    requires Live(s, from) && Serves(s, to, pc) && s.heap[to].canLink && site.hostPc != 0
    ensures Resolved(AddLink(s, from, to, site), from, true, site, pc)
    ensures var t := AddLink(s, from, to, site); t.blocks == s.blocks && to in t.heap && t.heap[to].canLink
  {
    LinkServes(s, from, to, site, pc);
    AddLinkFrame(s, from, to, site);
    hide AddLink, IsLink;
  }

  lemma LinkReady(s: State, from: Id, to: Id, site: Site)
    requires Inv(s) && Live(s, from) && ValidBlock(s, to)
    requires site.hostPc != 0 && site.hostPc in s.sites ==> !s.sites[site.hostPc].Code?
    ensures from in s.heap && to in s.heap
    ensures var t := AddLink(s, from, to, site);
            Inv(t) && t.heap.Keys == s.heap.Keys && forall x :: ValidBlock(t, x) <==> ValidBlock(s, x)
  {
    NotRecorded(s, site.hostPc);
    AddLinkInv(s, from, to, site);
    hide InvExcept, AddLink;
  }

  lemma StaysTidyRefl(s: State)
    ensures StaysTidy(s, s)
  {
  }

  lemma SitesTidy(s: State, t: State, sites: map<nat, Target>)
    requires StaysTidy(s, t)
    ensures StaysTidy(s, t.(sites := sites))
  {
    StaysTidyThen(s, t, t.(sites := sites));
  }

  lemma LinkTidy(s: State, t: State, from: Id, to: Id, site: Site)
    requires StaysTidy(s, t) && from in t.heap && to in t.heap
    ensures StaysTidy(s, AddLink(t, from, to, site))
  {
    AddLinkFrame(t, from, to, site);
    SameBlocksLive(t, AddLink(t, from, to, site));
    hide AddLink, StaysTidy;
    StaysTidyThen(s, t, AddLink(t, from, to, site));
  }

  lemma SameBlocksLive(s: State, t: State)
    requires SameBlocks(s, t)
    ensures forall x :: Live(s, x) ==> Live(t, x) && t.heap[x].pc == s.heap[x].pc && t.heap[x].words == s.heap[x].words
  {
  }

  lemma SuccessorValid(s: State, from: Id, l: Link)
    requires Inv(s) && from in s.heap && l in s.heap[from].succs
    ensures ValidBlock(s, l.block)
  {
    assert IsLink(s, from, l);
  }

  /** A flush does not delete the block that is being recompiled. */
  lemma ClearKeepsPending(s: State, id: Id)
    requires id in s.heap && s.heap[id].pc !in s.blocks && id !in s.retired
    ensures var t := Clear(s);
            id in t.heap && t.heap[id] == s.heap[id] && t.heap.Keys <= s.heap.Keys
            && id !in t.retired
    ensures Clear(s).ram == s.ram && Tidy(Clear(s))
  {
  }

  lemma DecodedIsInstallable(s: State, id: Id, b: Block, words: seq<seq<Byte>>)
    requires Shape(s) && b.pc % 4 == 0 && Decodes(s, b.pc, words) && b.words == words
    requires !b.invalidated && id !in s.retired && b.pc !in s.blocks
    requires id in s.heap ==> b.pc == s.heap[id].pc && b.preds == s.heap[id].preds && b.succs == s.heap[id].succs
    requires id !in s.heap ==> b.preds == b.succs == []
    ensures Installable(s, id, b) && Current(s, b)
  {
    assert words[0] == WordAt(s, b.pc, 0);
    if InRam(b) {
      DecodesEnd(s, b.pc, words, |words|);
    }
  }

  /** Removing the references step by step, in the source's order. */
  lemma ForgetOrder(s: State, id: Id)
    requires Inv(s) && Live(s, id) && s.heap[id].invalidated
    ensures LinksMatched(s) && id in s.heap && s.heap[id].pc % 4 == 0 && Fetchable(s.heap[id].pc)
    ensures var u := Unlink(s.(fast := s.fast[s.heap[id].pc := CompileStub]), id);
            id in u.heap && Forget(s, id) == u.(blocks := u.blocks - {u.heap[id].pc})
  {
    hide Restore;
    assert s.heap[id := s.heap[id]] == s.heap;
  }

  lemma ClearEmpties(s: State, pc: nat, words: seq<seq<Byte>>)
    requires MemoryOk(s) && pc % 4 == 0 && Decodes(s, pc, words)
    ensures Clear(s).blocks == map[] && Decodes(Clear(s), pc, words)
  {
    assert forall i: nat :: WordAt(Clear(s), pc, i) == WordAt(s, pc, i);
  }

  /** The list of a page can be invalidated, and this is what becomes of the state. */
  lemma PageReady(s: State, p: nat, frame: nat, stale: set<nat>)
    requires InvExcept(s, {}, stale) && p < PAGE_COUNT
    ensures |s.pages| == |s.bits| == PAGE_COUNT
    ensures forall id :: id in s.pages[p] ==> ListedOk(s, {}, id) && id in s.heap
    ensures var t, u := InvalidatePage(s, p, frame), InvalidateList(s, s.pages[p], frame);
            && t == s.(heap := u.heap, sites := u.sites, fast := u.fast, pages := s.pages[p := []], bits := s.bits[p := false])
            && InvExcept(t, {}, stale - {p}) && t.heap.Keys == s.heap.Keys && LinkingFollows(s, t, s.pages[p], frame)
  {
    PageListed(s, p, stale);
    PageLinking(s, p, frame);
    hide InvExcept, Invalidate, ListedOk;
    InvalidatePageInv(s, p, frame, stale);
  }

  lemma PageListed(s: State, p: nat, stale: set<nat>)
    requires InvExcept(s, {}, stale) && p < PAGE_COUNT
    ensures |s.pages| == |s.bits| == PAGE_COUNT
    ensures forall id :: id in s.pages[p] ==> ListedOk(s, {}, id) && id in s.heap
  {
    hide Covered, Coherent, LinksMatched, LinksValid, SitesTrue, FastTrue;
    forall id | id in s.pages[p]
      ensures ListedOk(s, {}, id)
    {
    }
  }

  lemma ListPrefix(s: State, ids: seq<Id>, i: nat, frame: nat, stale: set<nat>)
    requires InvExcept(s, {}, stale) && i < |ids| && forall id :: id in ids ==> ListedOk(s, {}, id) && id in s.heap
    ensures var t := InvalidateList(s, ids[..i], frame);
            && ids[i] in t.heap && LinksMatched(t) && t.heap[ids[i]].pc % 4 == 0 && Fetchable(t.heap[ids[i]].pc)
            && InvalidateList(s, ids[..i + 1], frame) == Invalidate(t, ids[i], true, frame)
            && InvExcept(InvalidateList(s, ids[..i + 1], frame), {}, stale)
  {
    hide InvExcept, Invalidate, SameBlocks, ListedOk;
    InvalidateListInv(s, ids[..i], frame, stale);
    InvalidateListInv(s, ids[..i + 1], frame, stale);
    assert ids[..i + 1][..i] == ids[..i];
    LinksOf(InvalidateList(s, ids[..i], frame), stale);
    PcKnown(InvalidateList(s, ids[..i], frame), ids[i], stale);
  }

  lemma PcKnown(s: State, id: Id, stale: set<nat>)
    requires InvExcept(s, {}, stale) && id in s.heap
    ensures s.heap[id].pc % 4 == 0 && Fetchable(s.heap[id].pc)
  {
  }

  lemma LinksOf(s: State, stale: set<nat>)
    requires InvExcept(s, {}, stale)
    ensures LinksMatched(s)
  {
  }

  lemma NoCount(x: Id)
    ensures CountTo([], x) == 0
  {
  }

  lemma RestoreNone(sites: map<nat, Target>)
    ensures Restore(sites, []) == sites
  {
  }
}
