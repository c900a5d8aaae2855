/** The counters of a block of the code cache (src/core/cpu_code_cache.cpp:538-553 and 741-797): a block whose
    code is rewritten too often is no longer linked, and one that has to be recompiled too often is left to
    the interpreter. */
module BlockCounters {
  import opened CodeCacheModel
  import opened CodeCacheStores
  import opened Common

  const RECOMPILE_FRAMES_TO_FALL_BACK_TO_INTERPRETER: nat := 100
  const RECOMPILE_COUNT_TO_FALL_BACK_TO_INTERPRETER: nat := 20

  /** What one invalidation does to the two fields of its block: a store leaves it linkable exactly if more
      than ten frames have passed since the frame on record, and then this one is on record. Any other
      invalidation puts a frame on record that is eleven frames back. */
  predicate LinkingMarked(b: Block, m: Block, allowFrame: bool, frame: nat) {
    && (!b.canLink ==> !m.canLink && m.invalidateFrame == b.invalidateFrame)
    && (b.canLink && allowFrame ==>
          && (m.canLink <==> (frame - b.invalidateFrame) % 0x1_0000_0000 > 10)
          && m.invalidateFrame == (if m.canLink then frame else b.invalidateFrame))
    && (b.canLink && !allowFrame ==> m.canLink && m.invalidateFrame == (frame - 11) % 0x1_0000_0000)
  }

  lemma InvalidateMarks(s: State, id: Id, allowFrame: bool, frame: nat)
    requires id in s.heap
    ensures var t := Invalidate(s, id, allowFrame, frame);
            && t.heap.Keys == s.heap.Keys && t.heap[id].invalidated
            && LinkingMarked(s.heap[id], t.heap[id], allowFrame, frame)
            && (forall x :: x in s.heap && x != id ==> SameLinking(s.heap[x], t.heap[x]))
  {
    hide Restore, Without;
  }

  /** What the invalidation of all blocks does to the blocks: none loses the right to be linked, and a
      valid one that has it gets a frame on record that is eleven frames back. */
  ghost predicate LinkingSpared(s: State, t: State, frame: nat) {
    && t.heap.Keys == s.heap.Keys
    && forall x :: x in s.heap ==> Spared(s.heap[x], t.heap[x], ValidBlock(s, x), frame)
  }

  predicate Spared(b: Block, m: Block, valid: bool, frame: nat) {
    m.canLink == b.canLink
    && m.invalidateFrame == if valid && b.canLink then (frame - 11) % 0x1_0000_0000 else b.invalidateFrame
  }

  /** Progress of that: the blocks at these keys are still to come. */
  ghost predicate SparedSoFar(s: State, t: State, keys: set<nat>, frame: nat) {
    && t.heap.Keys == s.heap.Keys
    && forall x :: x in s.heap ==>
         && t.heap[x].pc == s.heap[x].pc && (ValidBlock(t, x) <==> ValidBlock(s, x) && s.heap[x].pc in keys)
         && Spared(s.heap[x], t.heap[x], ValidBlock(s, x) && s.heap[x].pc !in keys, frame)
  }

  /** The valid block at one key is invalidated, if there is one. */
  ghost predicate EntryInvalidated(s: State, t: State, k: nat, frame: nat) {
    && t.heap.Keys == s.heap.Keys
    && forall x :: x in s.heap ==>
         && t.heap[x].pc == s.heap[x].pc && (ValidBlock(t, x) <==> ValidBlock(s, x) && s.heap[x].pc != k)
         && (if ValidBlock(s, x) && s.heap[x].pc == k then LinkingMarked(s.heap[x], t.heap[x], false, frame)
             else SameLinking(s.heap[x], t.heap[x]))
  }

  lemma SparedFirst(s: State, frame: nat)
    ensures SparedSoFar(s, s, s.blocks.Keys, frame)
  {
  }

  lemma SparedNext(s: State, r: State, t: State, keys: set<nat>, k: nat, frame: nat)
    requires SparedSoFar(s, r, keys, frame) && EntryInvalidated(r, t, k, frame)
    ensures SparedSoFar(s, t, keys - {k}, frame)
  {
    hide ValidBlock;
  }

  /** Where no key is left, all blocks have been invalidated. */
  lemma SparedAll(s: State, t: State, u: State, frame: nat)
    requires SparedSoFar(s, t, {}, frame) && u.heap == t.heap
    ensures LinkingSpared(s, u, frame)
  {
    hide ValidBlock;
  }

  /** The two fields that decide about linking are the same. */
  predicate SameLinking(b: Block, m: Block) { m.canLink == b.canLink && m.invalidateFrame == b.invalidateFrame }

  // ---------------------------------------------------------------- one block, many stores

  /** A block is invalidated by stores at these frames, one after the other. */
  function InvalidateAt(s: State, id: Id, frames: seq<nat>): (t: State)
    requires id in s.heap
    ensures id in t.heap
  {
    if frames == [] then s
    else Invalidate(InvalidateAt(s, id, frames[..|frames| - 1]), id, true, frames[|frames| - 1])
  }

  /** The frame that the i-th of these stores is compared with. */
  function Before(start: nat, frames: seq<nat>, i: nat): nat
    requires i < |frames|
  {
    if i == 0 then start else frames[i - 1]
  }

  /** All of these stores are more than ten frames after the one before. */
  predicate Rare(start: nat, frames: seq<nat>) {
    forall i :: 0 <= i < |frames| ==> Passed(Before(start, frames, i), frames[i]) > 10
  }

  lemma RareNext(start: nat, frames: seq<nat>)
    requires frames != []
    ensures var n := |frames| - 1;
            Rare(start, frames) <==> Rare(start, frames[..n]) && Passed(Before(start, frames, n), frames[n]) > 10
  {
    hide Passed;
    var n := |frames| - 1;
    assert forall i :: 0 <= i < n ==>
        frames[..n][i] == frames[i] && Before(start, frames[..n], i) == Before(start, frames, i);
  }

  /** A block keeps the right to be linked exactly as long as each store comes more than ten frames after
      the one before. */
  lemma {:induction false} LinkingSurvives(s: State, id: Id, frames: seq<nat>)
    requires id in s.heap
    ensures InvalidateAt(s, id, frames).heap[id].canLink
            <==> s.heap[id].canLink && Rare(s.heap[id].invalidateFrame, frames)
    ensures InvalidateAt(s, id, frames).heap[id].canLink ==>
              InvalidateAt(s, id, frames).heap[id].invalidateFrame
              == if frames == [] then s.heap[id].invalidateFrame else frames[|frames| - 1]
    decreases |frames|
  {
    hide Invalidate, Rare;
    if frames != [] {
      var n := |frames| - 1;
      LinkingSurvives(s, id, frames[..n]);
      InvalidateMarks(InvalidateAt(s, id, frames[..n]), id, true, frames[n]);
      RareNext(s.heap[id].invalidateFrame, frames);
    } else {
      NothingRare(s.heap[id].invalidateFrame);
    }
  }

  lemma NothingRare(start: nat)
    ensures Rare(start, [])
  {
  }

  /** Once lost it is lost: no further invalidation gives it back. */
  lemma NeverLinkableAgain(s: State, id: Id, allowFrame: bool, frame: nat)
    requires id in s.heap && !s.heap[id].canLink
    ensures !Invalidate(s, id, allowFrame, frame).heap[id].canLink
  {
    InvalidateMarks(s, id, allowFrame, frame);
  }

  /** The invalidation of all blocks, as after loading a state, does not count: the block stays linkable,
      and so it does after a store that follows, in the same frame or later. Only if the frame number
      has gone back by one to eleven frames in between is it lost. */
  lemma InvalidateAllSparesLinking(s: State, id: Id, frame: nat, later: nat)
    requires id in s.heap && s.heap[id].canLink
    ensures var t := Invalidate(s, id, false, frame);
            && t.heap[id].canLink
            && (Invalidate(t, id, true, later).heap[id].canLink <==> !(0xFFFF_FFF5 <= (later - frame) % 0x1_0000_0000))
    ensures Invalidate(Invalidate(s, id, false, frame), id, true, frame).heap[id].canLink
  {
    hide Invalidate;
    InvalidateMarks(s, id, false, frame);
    var t := Invalidate(s, id, false, frame);
    InvalidateMarks(t, id, true, later);
    InvalidateMarks(t, id, true, frame);
    ElevenBack(frame, later);
    ElevenBack(frame, frame);
  }

  lemma ElevenBack(frame: nat, later: nat)
    ensures (later - (frame - 11) % FRAME_WRAP) % FRAME_WRAP > 10 <==> (later - frame) % FRAME_WRAP < FRAME_WRAP - 11
  {
    var d := (later - frame) % FRAME_WRAP;
    var q := (later - frame) / FRAME_WRAP;
    var r := (frame - 11) / FRAME_WRAP;
    assert later - frame == q * FRAME_WRAP + d;
    assert (frame - 11) % FRAME_WRAP == frame - 11 - r * FRAME_WRAP;
    assert later - (frame - 11) % FRAME_WRAP == (q + r) * FRAME_WRAP + (d + 11);
  }

  // ---------------------------------------------------------------- a list of blocks

  /** What a store does to a block that is listed some times on its page: a linkable block stays so
      exactly if it is not listed, or it is listed once and more than ten frames have passed. A block
      that is listed twice is lost at once. */
  predicate LinkingStored(b: Block, m: Block, count: nat, frame: nat) {
    && (m.canLink <==> b.canLink && (count == 0 || (count == 1 && Passed(b.invalidateFrame, frame) > 10)))
    && m.invalidateFrame
       == if b.canLink && count > 0 && Passed(b.invalidateFrame, frame) > 10 then frame else b.invalidateFrame
  }

  ghost predicate LinkingFollows(s: State, t: State, ids: seq<Id>, frame: nat) {
    && t.heap.Keys == s.heap.Keys
    && forall x :: x in s.heap ==> LinkingStored(s.heap[x], t.heap[x], multiset(ids)[x], frame)
  }

  lemma StoredOnceMore(b: Block, r: Block, m: Block, count: nat, frame: nat)
    requires LinkingStored(b, r, count, frame) && LinkingMarked(r, m, true, frame)
    ensures LinkingStored(b, m, count + 1, frame)
  {
  }

  lemma {:induction false} ListLinking(s: State, ids: seq<Id>, frame: nat)
    requires forall id :: id in ids ==> id in s.heap
    ensures LinkingFollows(s, InvalidateList(s, ids, frame), ids, frame)
    decreases |ids|
  {
    hide Invalidate, LinkingStored, LinkingMarked, SameLinking;
    if ids != [] {
      var n := |ids| - 1;
      var r := InvalidateList(s, ids[..n], frame);
      ListLinking(s, ids[..n], frame);
      InvalidateMarks(r, ids[n], true, frame);
      var t := Invalidate(r, ids[n], true, frame);
      assert ids == ids[..n] + [ids[n]];
      forall x | x in s.heap
        ensures LinkingStored(s.heap[x], t.heap[x], multiset(ids)[x], frame)
      {
        if x == ids[n] {
          StoredOnceMore(s.heap[x], r.heap[x], t.heap[x], multiset(ids[..n])[x], frame);
        } else {
          SameStored(s.heap[x], r.heap[x], t.heap[x], multiset(ids)[x], frame);
        }
      }
    } else {
      NotStored(s, frame);
    }
  }

  lemma SameStored(b: Block, r: Block, m: Block, count: nat, frame: nat)
    requires LinkingStored(b, r, count, frame) && SameLinking(r, m)
    ensures LinkingStored(b, m, count, frame)
  {
  }

  lemma NotStored(s: State, frame: nat)
    ensures LinkingFollows(s, s, [], frame)
  {
  }

  lemma PageLinking(s: State, p: nat, frame: nat)
    requires p < |s.pages| == |s.bits| && forall id :: id in s.pages[p] ==> id in s.heap
    ensures LinkingFollows(s, InvalidatePage(s, p, frame), s.pages[p], frame)
  {
    hide LinkingStored;
    ListLinking(s, s.pages[p], frame);
  }

  /** A store that is not dropped does this to the blocks listed on its page. */
  lemma StoreLinking(s: State, offset: nat, bytes: seq<Byte>, skipRedundant: bool, frame: nat)
    requires Inv(s) && Aligned(offset, bytes) && offset + |bytes| <= RAM_SIZE
    ensures PagesInHeap(s) && MemoryOk(s) && |s.pages| == |s.bits| == PAGE_COUNT && offset / PAGE_SIZE < PAGE_COUNT
    ensures LinkingFollows(s, Store(s, offset, bytes, skipRedundant, frame),
                           if skipRedundant && s.ram[offset..offset + |bytes|] == bytes then []
                           else s.pages[offset / PAGE_SIZE], frame)
  {
    AlignedInPage(offset, bytes);
    ListedInHeap(s, {});
    var p := offset / PAGE_SIZE;
    BitOfPage(s, p, {});
    NotStored(s, frame);
    hide LinkingStored, InvExcept, InvalidatePage, Write;
    PageLinking(s, p, frame);
  }

  // ---------------------------------------------------------------- recompilation

  /** The block has been recompiled nineteen times in the hundred frames since the one on record, and is
      about to be again. */
  predicate TooOften(b: Block, frame: nat) {
    Passed(b.recompileFrame, frame) <= RECOMPILE_FRAMES_TO_FALL_BACK_TO_INTERPRETER
    && b.recompileCount + 1 >= RECOMPILE_COUNT_TO_FALL_BACK_TO_INTERPRETER
  }

  /** What a recompilation does to the counters of its block: within a hundred frames of the one on record
      it counts, later it starts the count again. */
  predicate Counted(b: Block, m: Block, frame: nat) {
    if (frame - b.recompileFrame) % 0x1_0000_0000 <= 100
    then m.recompileFrame == b.recompileFrame && m.recompileCount == b.recompileCount + 1
    else m.recompileFrame == frame && m.recompileCount == 0
  }

  /** The records of a block that was compiled in the first of these frames, and recompiled in the others. */
  predicate Recompilations(records: seq<Block>, frames: seq<nat>) {
    && |records| == |frames| > 0 && records[0].recompileFrame == frames[0] && records[0].recompileCount == 0
    && forall i :: 0 < i < |records| ==>
         !TooOften(records[i - 1], frames[i]) && Counted(records[i - 1], records[i], frames[i])
  }

  /** The count is that of the last recompilations, all within a hundred frames of the one before them. */
  lemma {:induction false} CountIsOfWindow(records: seq<Block>, frames: seq<nat>)
    requires Recompilations(records, frames)
    ensures var n := |frames| - 1; var count := records[n].recompileCount;
            && count <= n && count < 20 && records[n].recompileFrame == frames[n - count]
            && (forall i :: n - count < i <= n ==> Passed(frames[n - count], frames[i]) <= 100)
    decreases |frames|
  {
    var n := |frames| - 1;
    if n > 0 {
      assert Recompilations(records[..n], frames[..n]);
      CountIsOfWindow(records[..n], frames[..n]);
      assert Counted(records[n - 1], records[n], frames[n]) && !TooOften(records[n - 1], frames[n]);
    }
  }

  /** A block is given up only when this is the twentieth recompilation in a row within a hundred frames of
      the compilation before them. */
  lemma GivenUpInWindow(records: seq<Block>, frames: seq<nat>, frame: nat)
    requires Recompilations(records, frames)
    ensures var last := |frames| - 1;
            TooOften(records[last], frame) <==>
              records[last].recompileCount == 19 && Passed(records[last].recompileFrame, frame) <= 100
    ensures TooOften(records[|frames| - 1], frame) ==>
              && |frames| >= 20
              && var first := |frames| - 20;
                 (forall i :: first < i < |frames| ==> Passed(frames[first], frames[i]) <= 100)
                 && Passed(frames[first], frame) <= 100
  {
    hide Passed;
    CountIsOfWindow(records, frames);
  }

  /** In particular a block whose recompilations are more than five frames apart is never given up. */
  lemma SlowlyRewritten(records: seq<Block>, frames: seq<nat>, frame: nat)
    requires Recompilations(records, frames)
    requires forall i :: 0 <= i < |frames| - 1 ==> frames[i + 1] > frames[i] + 5
    requires frame > frames[|frames| - 1] + 5 && frame < 0x1_0000_0000
    ensures !TooOften(records[|frames| - 1], frame)
  {
    if TooOften(records[|frames| - 1], frame) {
      GivenUpInWindow(records, frames, frame);
      Spread(frames, |frames| - 20, |frames| - 1);
    }
  }

  lemma {:induction false} Spread(frames: seq<nat>, i: nat, j: nat)
    requires i <= j < |frames| && forall k :: 0 <= k < |frames| - 1 ==> frames[k + 1] > frames[k] + 5
    ensures frames[j] >= frames[i] + 6 * (j - i)
    decreases j - i
  {
    if i < j {
      Spread(frames, i, j - 1);
      assert frames[j - 1 + 1] > frames[j - 1] + 5;
    }
  }
}
