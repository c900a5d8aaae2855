/** The layout loop of src/common/cd_image_cue.cpp:69-284: from tracks to the table of contents. */
module CueLayout {
  import opened Arithmetic
  import opened CdImage
  import opened Common
  import opened CueSheet

  const DEFAULT_PREGAP: nat := 150

  // ---------------------------------------------------------------- what a layout means

  /** The indices follow one another from lo to hi, counted without bound; their positions on the disc
      are these, cut to 32 bits. */
  ghost predicate Chained(toc: seq<Index>, lo: nat, hi: nat) {
    if toc == [] then lo == hi
    else
      var last := toc[|toc| - 1];
      last.length <= hi && last.startOnDisc == (hi - last.length) % WORD_RANGE
      && Chained(toc[..|toc| - 1], lo, hi - last.length)
  }

  lemma {:induction false} ChainAppend(a: seq<Index>, b: seq<Index>, lo: nat, mid: nat, hi: nat)
    requires Chained(a, lo, mid) && Chained(b, mid, hi)
    ensures Chained(a + b, lo, hi)
    decreases |b|
  {
    if b == [] {
      assert a + b == a;
    } else {
      var n := |b| - 1;
      ChainAppend(a, b[..n], lo, mid, hi - b[n].length);
      assert (a + b)[..|a + b| - 1] == a + b[..n];
    }
  }

  lemma ChainOne(i: Index, lo: nat)
    requires i.startOnDisc == lo % WORD_RANGE
    ensures Chained([i], lo, lo + i.length)
  {
    assert [i][..0] == [];
  }

  lemma {:induction false} ChainOrdered(toc: seq<Index>, lo: nat, hi: nat)
    requires Chained(toc, lo, hi)
    ensures lo <= hi
    decreases |toc|
  {
    if toc != [] {
      ChainOrdered(toc[..|toc| - 1], lo, hi - toc[|toc| - 1].length);
    }
  }

  lemma {:induction false} ChainStart(toc: seq<Index>, lo: nat, hi: nat)
    requires Chained(toc, lo, hi) && toc != []
    ensures toc[0].startOnDisc == lo % WORD_RANGE
    decreases |toc|
  {
    var n := |toc| - 1;
    if n == 0 {
      assert toc[..n] == [];
    } else {
      ChainStart(toc[..n], lo, hi - toc[n].length);
      assert toc[..n][0] == toc[0];
    }
  }

  /** The number of frames of some indices. */
  function Frames(toc: seq<Index>): nat {
    if toc == [] then 0 else Frames(toc[..|toc| - 1]) + toc[|toc| - 1].length
  }

  lemma {:induction false} ChainFrames(toc: seq<Index>, lo: nat, hi: nat)
    requires Chained(toc, lo, hi)
    ensures hi == lo + Frames(toc)
    decreases |toc|
  {
    if toc != [] {
      ChainFrames(toc[..|toc| - 1], lo, hi - toc[|toc| - 1].length);
    }
  }

  lemma {:induction false} TileFrames(toc: seq<Index>, lo: nat, hi: nat)
    requires Tiles(toc, lo, hi)
    ensures hi == lo + Frames(toc)
    decreases |toc|
  {
    if toc != [] {
      TileFrames(toc[..|toc| - 1], lo, toc[|toc| - 1].startOnDisc);
    }
  }

  lemma {:induction false} ChainTiles(toc: seq<Index>, lo: nat, hi: nat)
    requires Chained(toc, lo, hi) && hi < WORD_RANGE
    ensures Tiles(toc, lo, hi)
    decreases |toc|
  {
    if toc != [] {
      ChainTiles(toc[..|toc| - 1], lo, hi - toc[|toc| - 1].length);
    }
  }

  /** With 32-bit positions, indices laid from 0 on tile the disc exactly if their frames number less
      than 2^32. */
  lemma TilesExactly(toc: seq<Index>, total: nat)
    requires Chained(toc, 0, total)
    ensures total == Frames(toc)
    ensures Tiles(toc, 0, total % WORD_RANGE) <==> total < WORD_RANGE
  {
    ChainFrames(toc, 0, total);
    if total < WORD_RANGE {
      ChainTiles(toc, 0, total);
    } else if Tiles(toc, 0, total % WORD_RANGE) {
      TileFrames(toc, 0, total % WORD_RANGE);
    }
  }

  /** Up to a position below 2^32 nothing has wrapped around, so no index before it contains it. */
  lemma ChainBefore(toc: seq<Index>, p: nat)
    requires Chained(toc, 0, p) && p < WORD_RANGE
    ensures forall j :: 0 <= j < |toc| ==> !Contains(toc[j], p)
  {
    ChainTiles(toc, 0, p);
    OutsideTiles(toc, 0, p, p);
  }

  lemma {:induction false} FramesGrow(toc: seq<Index>, m: nat, k: nat)
    requires m <= k <= |toc|
    ensures Frames(toc[..m]) <= Frames(toc[..k])
    decreases k
  {
    if m < k {
      FramesGrow(toc, m, k - 1);
      assert toc[..k][..k - 1] == toc[..k - 1];
    }
  }

  /** A position below 2^32 and before the end of the chain is reached by an index in its first turn: the
      first index that contains it. */
  lemma {:induction false} ChainReaches(toc: seq<Index>, total: nat, p: nat) returns (k: nat)
    requires Chained(toc, 0, total) && p < total && p < WORD_RANGE
    ensures FirstContaining(toc, k, p) && Chained(toc[..k], 0, toc[k].startOnDisc)
    decreases |toc|
  {
    var n := |toc| - 1;
    var start := total - toc[n].length;
    if p < start {
      k := ChainReaches(toc[..n], start, p);
      assert toc[..n][..k] == toc[..k];
    } else {
      k := n;
      ChainTiles(toc[..n], 0, start);
      OutsideTiles(toc[..n], 0, start, p);
      assert forall j :: 0 <= j < n ==> toc[j] == toc[..n][j];
    }
  }

  /** Where the indices of a disc, lead-out included, pass a boundary p below 2^32, an index begins: the
      first one that contains p. This holds whether or not the disc wraps around further on. */
  lemma BoundaryReached(toc: seq<Index>, leadOut: Index, total: nat, m: nat, p: nat) returns (k: nat)
    requires Chained(toc, 0, total) && toc != [] && m <= |toc| && Chained(toc[..m], 0, p) && p < WORD_RANGE
    requires var last := toc[|toc| - 1]; leadOut.startOnDisc == (last.startOnDisc + last.length) % WORD_RANGE
    requires leadOut.length > 0
    ensures FirstContaining(toc + [leadOut], k, p) && (toc + [leadOut])[k].startOnDisc == p
  {
    var all := toc + [leadOut];
    ChainFrames(toc[..m], 0, p);
    ChainFrames(toc, 0, total);
    FramesGrow(toc, m, |toc|);
    assert toc[..|toc|] == toc;
    ChainEnd(toc, total);
    hide Chained, Frames;
    if p < total {
      k := BoundaryInside(toc, total, m, p);
      assert forall j :: 0 <= j <= k ==> all[j] == toc[j];
    } else {
      k := |toc|;
      ChainBefore(toc, p);
      assert forall j :: 0 <= j < k ==> all[j] == toc[j];
    }
  }

  lemma ChainEnd(toc: seq<Index>, total: nat)
    requires Chained(toc, 0, total) && toc != []
    ensures var last := toc[|toc| - 1]; (last.startOnDisc + last.length) % WORD_RANGE == total % WORD_RANGE
  {
    WrappedSum(total - toc[|toc| - 1].length, toc[|toc| - 1].length);
  }

  lemma BoundaryInside(toc: seq<Index>, total: nat, m: nat, p: nat) returns (k: nat)
    requires Chained(toc, 0, total) && m <= |toc| && Chained(toc[..m], 0, p) && p < WORD_RANGE && p < total
    ensures FirstContaining(toc, k, p) && toc[k].startOnDisc == p
  {
    hide Chained, Frames;
    ChainFrames(toc[..m], 0, p);
    k := ChainReaches(toc, total, p);
    ChainBefore(toc[..m], p);
    assert forall j :: 0 <= j < m ==> toc[j] == toc[..m][j];
    ChainFrames(toc[..k], 0, toc[k].startOnDisc);
    FramesGrow(toc, m, k);
  }

  lemma FirstIsUnique(toc: seq<Index>, j: nat, k: nat, lba: nat)
    requires FirstContaining(toc, j, lba) && FirstContaining(toc, k, lba)
    ensures j == k
  {
  }

  /** The file frame at which an index starts. */
  function FileFrame(i: Index): nat
    requires i.sectorSize > 0
  {
    i.fileOffset / i.sectorSize
  }

  /** The file-backed indices cover the frames of their file from lo to hi, each once and in order; the
      others are skipped. */
  ghost predicate FileCover(toc: seq<Index>, lo: nat, hi: nat) {
    if toc == [] then lo == hi
    else
      var last, rest := toc[|toc| - 1], toc[..|toc| - 1];
      if last.sectorSize == 0 then FileCover(rest, lo, hi)
      else FileCover(rest, lo, FileFrame(last)) && FileFrame(last) + last.length == hi
  }

  lemma {:induction false} CoverAppend(a: seq<Index>, b: seq<Index>, lo: nat, mid: nat, hi: nat)
    requires FileCover(a, lo, mid) && FileCover(b, mid, hi)
    ensures FileCover(a + b, lo, hi)
    decreases |b|
  {
    if b == [] {
      assert a + b == a;
    } else {
      var n := |b| - 1;
      CoverAppend(a, b[..n], lo, mid, if b[n].sectorSize == 0 then hi else FileFrame(b[n]));
      assert (a + b)[..|a + b| - 1] == a + b[..n];
    }
  }

  lemma CoverOne(i: Index, frame: nat)
    requires i.sectorSize > 0 && i.fileOffset == frame * i.sectorSize
    ensures FileCover([i], frame, frame + i.length)
  {
    assert [i][..0] == [];
    DivMod(i.fileOffset, i.sectorSize, frame, 0);
  }

  lemma CoverNone(i: Index, lo: nat)
    requires i.sectorSize == 0
    ensures FileCover([i], lo, lo)
  {
    assert [i][..0] == [];
  }

  /** An index of a track: it starts, on the disc, as far from the track's index 1 as it says, and in
      the file at the position that the cue sheet gives for its number. */
  predicate IndexTrue(t: Track, number: nat, trackStart: nat, fileIndex: nat, i: Index) {
    && i.track == number && i.startOnDisc == (trackStart + i.startInTrack) % WORD_RANGE
    && (i.isPregap <==> i.index == 0) && (i.isPregap ==> i.startInTrack == Sub32(0, i.length))
    && (!i.isPregap ==> i.sectorSize > 0)
    && (i.sectorSize > 0 ==>
          i.sectorSize == BytesPerSector(t.mode) && i.fileIndex == fileIndex
          && t.GetIndex(i.index).Some? && i.fileOffset == t.GetIndex(i.index).value.ToLba() * i.sectorSize)
  }

  predicate AllTrue(t: Track, number: nat, trackStart: nat, fileIndex: nat, toc: seq<Index>) {
    forall k :: 0 <= k < |toc| ==> IndexTrue(t, number, trackStart, fileIndex, toc[k])
  }

  predicate WellFormed(t: Track) {
    forall k :: 0 <= k < |t.indices| ==> t.indices[k].1.WellFormed()
  }

  // ---------------------------------------------------------------- one track

  /** The position of the last of indices j, j + 1, ... up to the first that is missing. */
  function LastFrom(t: Track, j: nat): (p: Position)
    requires Numbered(t) && t.GetIndex(j).Some?
    decreases 100 - j
  {
    IndexBound(t, j);
    if t.GetIndex(j + 1).Some? then LastFrom(t, j + 1) else t.GetIndex(j).value
  }

  lemma IndexBound(t: Track, j: nat)
    requires Numbered(t) && t.GetIndex(j).Some?
    ensures j <= 99
  {
    FoundIndex(t.indices, j);
  }

  /** Frame numbers of a well-formed position, and of successive indices. */
  lemma IndexFrames(t: Track, j: nat)
    requires Complete(t) && WellFormed(t) && t.GetIndex(j).Some?
    ensures t.GetIndex(j).value.WellFormed() && t.GetIndex(j).value.ToLba() < MSF_RANGE
    ensures j > 0 && t.GetIndex(j - 1).Some? ==> t.GetIndex(j - 1).value.ToLba() <= t.GetIndex(j).value.ToLba()
  {
    FoundIndex(t.indices, j);
    var k :| 0 <= k < |t.indices| && t.indices[k] == (j, t.GetIndex(j).value);
    if j > 0 && t.GetIndex(j - 1).Some? {
      FoundIndex(t.indices, j - 1);
      OrderIsLbaOrder(t.indices[k].1, t.GetIndex(j - 1).value);
    }
  }

  lemma {:induction false} LastAfter(t: Track, j: nat)
    requires Complete(t) && WellFormed(t) && t.GetIndex(j).Some?
    ensures t.GetIndex(j).value.ToLba() <= LastFrom(t, j).ToLba()
    decreases 100 - j
  {
    IndexBound(t, j);
    if t.GetIndex(j + 1).Some? {
      IndexFrames(t, j + 1);
      LastAfter(t, j + 1);
    }
  }

  /** Progress of the index loop of one track: `out` is what has been pushed since index 1, `last` is
      the index under construction, which starts at frame `offset`, the position of index j. */
  ghost predicate Walked(t: Track, number: nat, fileIndex: nat, from: nat, out: seq<Index>, to: nat, last: Index,
                         offset: nat, j: nat) {
    && Complete(t) && t.GetIndex(j).Some? && offset == t.GetIndex(j).value.ToLba()
    && Chained(out, from, to) && last.startOnDisc == to % WORD_RANGE
    && last.index == j && j > 0 && !last.isPregap
    && (WellFormed(t) ==> PlacedTrue(t, number, fileIndex, from, out, to, last, offset))
  }

  /** For well-formed positions: the part of the file before `offset` is covered, and all is in place. */
  ghost predicate PlacedTrue(t: Track, number: nat, fileIndex: nat, from: nat, out: seq<Index>, to: nat, last: Index,
                             offset: nat) {
    && t.start.ToLba() <= offset
    && FileCover(out, t.start.ToLba(), offset)
    && AllTrue(t, number, from % WORD_RANGE, fileIndex, out)
    && IndexTrue(t, number, from % WORD_RANGE, fileIndex, last)
    && to == from + last.startInTrack && last.startInTrack == offset - t.start.ToLba()
  }

  lemma WalkedStart(t: Track, number: nat, fileIndex: nat, from: nat)
    requires Complete(t)
    ensures var size, offset := BytesPerSector(t.mode), t.start.ToLba();
            Walked(t, number, fileIndex, from, [], from,
                   Index(from % WORD_RANGE, 0, number, 1, 0, false, fileIndex, offset * size, size), offset, 1)
  {
  }

  /** Moving on to index j + 1, pushing the index in between if it is not empty. */
  lemma WalkedNext(t: Track, number: nat, fileIndex: nat, from: nat, out: seq<Index>, to: nat, last: Index,
                   offset: nat, j: nat)
    requires Walked(t, number, fileIndex, from, out, to, last, offset, j) && t.GetIndex(j + 1).Some?
    requires last.sectorSize == BytesPerSector(t.mode)
    ensures var next := t.GetIndex(j + 1).value.ToLba();
            var length := if next > offset then next - offset else 0;
            var pushed := if next > offset then out + [last.(length := length)] else out;
            var moved := last.(startInTrack := (last.startInTrack + length) % WORD_RANGE, startOnDisc := (to + length) % WORD_RANGE,
                               fileOffset := next * last.sectorSize % WORD_RANGE, index := j + 1);
            Walked(t, number, fileIndex, from, pushed, to + length, moved, next, j + 1)
  {
    hide BytesPerSector, PlacedTrue, FindIndex, Complete, WellFormed;
    var next := t.GetIndex(j + 1).value.ToLba();
    var length := if next > offset then next - offset else 0;
    if next > offset {
      ChainOne(last.(length := length), to);
      ChainAppend(out, [last.(length := length)], from, to, to + length);
    }
    if WellFormed(t) {
      IndexFrames(t, j + 1);
      IndexFrames(t, j);
      PlacedNext(t, number, fileIndex, from, out, to, last, offset, j);
    }
  }

  lemma PlacedNext(t: Track, number: nat, fileIndex: nat, from: nat, out: seq<Index>, to: nat, last: Index,
                   offset: nat, j: nat)
    requires PlacedTrue(t, number, fileIndex, from, out, to, last, offset)
    requires t.GetIndex(j).Some? && offset == t.GetIndex(j).value.ToLba() && last.index == j
    requires t.GetIndex(j + 1).Some? && last.sectorSize == BytesPerSector(t.mode) && !last.isPregap
    requires offset <= t.GetIndex(j + 1).value.ToLba() < MSF_RANGE
    ensures var next := t.GetIndex(j + 1).value.ToLba();
            var pushed := if next > offset then out + [last.(length := next - offset)] else out;
            var moved := last.(startInTrack := (last.startInTrack + (next - offset)) % WORD_RANGE,
                               startOnDisc := (to + (next - offset)) % WORD_RANGE,
                               fileOffset := next * last.sectorSize % WORD_RANGE, index := j + 1);
            PlacedTrue(t, number, fileIndex, from, pushed, to + (next - offset), moved, next)
  {
    hide BytesPerSector, FileCover, FindIndex, Position.ToLba;
    var next := t.GetIndex(j + 1).value.ToLba();
    var n := next - offset;
    if next > offset {
      CoverOne(last.(length := n), offset);
      CoverAppend(out, [last.(length := n)], t.start.ToLba(), offset, next);
      PushedTrue(t, number, fileIndex, from % WORD_RANGE, out, last, n);
    }
    MovedTrue(t, number, fileIndex, from, to, last, next, n);
  }

  lemma PushedTrue(t: Track, number: nat, fileIndex: nat, trackStart: nat, out: seq<Index>, last: Index, n: nat)
    requires AllTrue(t, number, trackStart, fileIndex, out) && IndexTrue(t, number, trackStart, fileIndex, last)
    requires !last.isPregap
    ensures AllTrue(t, number, trackStart, fileIndex, out + [last.(length := n)])
  {
    hide BytesPerSector, FindIndex, Position.ToLba;
  }

  lemma MovedTrue(t: Track, number: nat, fileIndex: nat, from: nat, to: nat, last: Index, next: nat, n: nat)
    requires IndexTrue(t, number, from % WORD_RANGE, fileIndex, last) && !last.isPregap
    requires last.sectorSize == BytesPerSector(t.mode)
    requires t.GetIndex(last.index + 1).Some? && next == t.GetIndex(last.index + 1).value.ToLba()
    requires to == from + last.startInTrack && last.startInTrack + n <= next < MSF_RANGE
    ensures var moved := last.(startInTrack := (last.startInTrack + n) % WORD_RANGE, startOnDisc := (to + n) % WORD_RANGE,
                               fileOffset := next * last.sectorSize % WORD_RANGE, index := last.index + 1);
            IndexTrue(t, number, from % WORD_RANGE, fileIndex, moved) && moved.startInTrack == last.startInTrack + n
  {
    hide BytesPerSector, FindIndex, Position.ToLba;
    var inTrack := last.startInTrack + n;
    OffsetFits(next, last.sectorSize);
    WrappedSum(from, inTrack);
    DivMod(inTrack, WORD_RANGE, 0, inTrack);
  }

  lemma WrappedSum(a: nat, b: nat)
    ensures (a % WORD_RANGE + b) % WORD_RANGE == (a + b) % WORD_RANGE
  {
    assert a == WORD_RANGE * (a / WORD_RANGE) + a % WORD_RANGE;
  }

  /** File offsets are computed in 32 bits, which well-formed positions do not exceed. */
  lemma OffsetFits(frame: nat, size: nat)
    requires frame < MSF_RANGE && size <= RAW_SECTOR_SIZE
    ensures frame * size % WORD_RANGE == frame * size
  {
    var p := frame * size;
    assert p + frame * (RAW_SECTOR_SIZE - size) == frame * RAW_SECTOR_SIZE;
    assert frame * (RAW_SECTOR_SIZE - size) >= 0;
    assert p < WORD_RANGE;
  }

  /** The last index of the track is as long as the track allows; it may be empty. */
  lemma WalkedEnd(t: Track, number: nat, fileIndex: nat, from: nat, out: seq<Index>, to: nat, last: Index,
                  offset: nat, j: nat, end: nat)
    requires Walked(t, number, fileIndex, from, out, to, last, offset, j) && last.sectorSize == BytesPerSector(t.mode)
    ensures var length := if end > offset then end - offset else 0;
            var pushed := if end > offset then out + [last.(length := length)] else out;
            && Chained(pushed, from, to + length)
            && (WellFormed(t) ==>
                  FileCover(pushed, t.start.ToLba(), offset + length)
                  && AllTrue(t, number, from % WORD_RANGE, fileIndex, pushed))
  {
    hide BytesPerSector;
    hide WellFormed, FindIndex, Complete;
    if end > offset {
      var full := last.(length := end - offset);
      ChainOne(full, to);
      ChainAppend(out, [full], from, to, to + end - offset);
      if WellFormed(t) {
        CoverOne(full, offset);
        CoverAppend(out, [full], t.start.ToLba(), offset, end);
      }
    }
  }

  /** The frames that indices j, j + 1, ... take up, if the track ends at frame `end` of its file. An
      index that starts before its predecessor leaves it empty. */
  function BodyFrames(t: Track, j: nat, end: nat): nat
    requires Numbered(t) && t.GetIndex(j).Some?
    decreases 100 - j
  {
    IndexBound(t, j);
    var offset := t.GetIndex(j).value.ToLba();
    var next := if t.GetIndex(j + 1).Some? then t.GetIndex(j + 1).value.ToLba() else end;
    (if next > offset then next - offset else 0) + (if t.GetIndex(j + 1).Some? then BodyFrames(t, j + 1, end) else 0)
  }

  lemma NextIndex(t: Track, j: nat, end: nat)
    requires Numbered(t) && t.GetIndex(j).Some?
    ensures j <= 99
    ensures var offset := t.GetIndex(j).value.ToLba();
            if t.GetIndex(j + 1).Some? then
              var next := t.GetIndex(j + 1).value.ToLba();
              LastFrom(t, j) == LastFrom(t, j + 1)
              && BodyFrames(t, j, end) == (if next > offset then next - offset else 0) + BodyFrames(t, j + 1, end)
            else
              LastFrom(t, j).ToLba() == offset && BodyFrames(t, j, end) == if end > offset then end - offset else 0
  {
    hide FindIndex;
    IndexBound(t, j);
  }

  /** The loop over a track's indices from 1 on. The disc position is a 32-bit number; `from` and `to`
      are the positions counted without bound. */
  method LayIndices(t: Track, number: nat, fileIndex: nat, ghost from: nat, trackStart: nat, length: nat)
    returns (out: seq<Index>, disc: nat, ghost to: nat)
    requires Complete(t) && trackStart == from % WORD_RANGE
    ensures Chained(out, from, to) && disc == to % WORD_RANGE && (out == [] <==> to == from)
    ensures LaidFor(out, number, fileIndex)
    ensures Numbered(t) && t.GetIndex(1).Some? && to == from + BodyFrames(t, 1, (t.start.ToLba() + length) % WORD_RANGE)
    ensures WellFormed(t) ==> AllTrue(t, number, trackStart, fileIndex, out)
    ensures WellFormed(t) ==>
              var stop, end := LastFrom(t, 1).ToLba(), (t.start.ToLba() + length) % WORD_RANGE;
              FileCover(out, t.start.ToLba(), if end > stop then end else stop)
  {
    hide Walked, FindIndex, WellFormed, BytesPerSector, Chained, FileCover, AllTrue, Complete, BodyFrames, LastFrom,
         Numbered, Position.ToLba;
    var size: nat, offset: nat := BytesPerSector(t.mode), t.start.ToLba();
    out, disc, to := [], trackStart, from;
    var last := Index(trackStart, 0, number, 1, 0, false, fileIndex, offset * size, size);
    WalkedStart(t, number, fileIndex, from);
    StartIsIndex1(t);
    var end := (t.start.ToLba() + length) % WORD_RANGE;
    var j := 1;
    while t.GetIndex(j + 1).Some?
      invariant Walked(t, number, fileIndex, from, out, to, last, offset, j)
      invariant disc == last.startOnDisc == to % WORD_RANGE
      invariant last.sectorSize == size && last.length == 0 && Numbered(t) && t.GetIndex(j).Some?
      invariant LaidFor(out, number, fileIndex) && last.track == number && last.fileIndex == fileIndex
      invariant offset == t.GetIndex(j).value.ToLba() && from <= to && (out == [] <==> to == from)
      invariant LastFrom(t, 1) == LastFrom(t, j) && to + BodyFrames(t, j, end) == from + BodyFrames(t, 1, end)
      decreases 100 - j
    {
      NextIndex(t, j, end);
      NextIndex(t, j + 1, end);
      WalkedNext(t, number, fileIndex, from, out, to, last, offset, j);
      var next := t.GetIndex(j + 1).value.ToLba();
      var length := if next > offset then next - offset else 0;
      if next > offset {
        out := out + [last.(length := next - offset)];
      }
      WrappedSum(to, length);
      to := to + length;
      disc := (disc + length) % WORD_RANGE;
      last := last.(startInTrack := (last.startInTrack + length) % WORD_RANGE, startOnDisc := disc,
                    fileOffset := next * last.sectorSize % WORD_RANGE, index := j + 1);
      offset := next;
      j := j + 1;
    }
    NextIndex(t, j, end);
    WalkedEnd(t, number, fileIndex, from, out, to, last, offset, j, end);
    if end > offset {
      out := out + [last.(length := end - offset)];
      WrappedSum(to, end - offset);
      to := to + end - offset;
      disc := (disc + (end - offset)) % WORD_RANGE;
    }
  }

  /** These indices belong to this track, and to its file, or to none. */
  predicate LaidFor(out: seq<Index>, number: nat, fileIndex: nat) {
    forall i :: 0 <= i < |out| ==> out[i].track == number && (out[i].fileIndex == fileIndex || out[i].fileIndex == 0)
  }

  lemma StartIsIndex1(t: Track)
    requires Complete(t)
    ensures Numbered(t) && t.GetIndex(1) == Some(t.start)
  {
  }

  // ---------------------------------------------------------------- a track with its pregap

  /** The length of a pregap that is not in the file: as the sheet says, or else two seconds, for track
      1 and for later tracks of the first file unless the disc begins with audio. */
  function SilentPregap(t: Track, number: nat, sharesFirstFile: bool, likelyAudio: bool): nat {
    if t.zeroPregap.Some? then t.zeroPregap.value.ToLba()
    else if number == 1 || (sharesFirstFile && !likelyAudio) then DEFAULT_PREGAP
    else 0
  }

  function PregapLength(t: Track, number: nat, sharesFirstFile: bool, likelyAudio: bool): nat
    requires t.GetIndex(1).Some?
  {
    if t.GetIndex(0).Some? then Sub32(t.GetIndex(1).value.ToLba(), t.GetIndex(0).value.ToLba())
    else SilentPregap(t, number, sharesFirstFile, likelyAudio)
  }

  /** How long a pregap has to be. If there is an index 0, it reaches from there to index 1, in 32 bits.
      Otherwise it is not in the file: as the sheet says, or else two seconds for track 1, and for a later
      track exactly if it is in the first file and track 1 is not audio. */
  predicate GapIs(t: Track, number: nat, sharesFirstFile: bool, likelyAudio: bool, gap: nat)
    requires t.GetIndex(1).Some?
  {
    match (t.GetIndex(0), t.zeroPregap)
    case (Some(index0), _) => gap == (t.GetIndex(1).value.ToLba() - index0.ToLba()) % 0x1_0000_0000
    case (None, Some(length)) => gap == length.ToLba()
    case (None, None) =>
      && (number == 1 ==> gap == 150)
      && (number != 1 && sharesFirstFile && !likelyAudio ==> gap == 150)
      && (number != 1 && (!sharesFirstFile || likelyAudio) ==> gap == 0)
  }

  /** The pregap index: in the file if the sheet has an index 0, else silence. */
  method LayPregap(t: Track, number: nat, fileIndex: nat, sharesFirstFile: bool, likelyAudio: bool, ghost from: nat,
                   disc: nat)
    returns (out: seq<Index>, pregap: nat)
    requires Complete(t) && disc == from % WORD_RANGE
    ensures pregap == PregapLength(t, number, sharesFirstFile, likelyAudio)
    ensures t.GetIndex(1).Some? && GapIs(t, number, sharesFirstFile, likelyAudio, pregap)
    ensures LaidFor(out, number, fileIndex)
    ensures Chained(out, from, from + pregap) && (out == [] <==> t.GetIndex(0).None? && pregap == 0)
    ensures WellFormed(t) ==>
              FileCover(out, t.First().ToLba(), t.start.ToLba())
              && AllTrue(t, number, (disc + pregap) % WORD_RANGE, fileIndex, out)
  {
    hide FindIndex, BytesPerSector, WellFormed, IndexTrue, Chained, FileCover, Complete, Sub32;
    out := [];
    StartIsIndex1(t);
    CoverNothing(t.start.ToLba(), from);
    var start, size := t.start.ToLba(), BytesPerSector(t.mode);
    if t.GetIndex(0).Some? {
      pregap := Sub32(t.GetIndex(1).value.ToLba(), t.GetIndex(0).value.ToLba());
      Difference(t.GetIndex(1).value.ToLba(), t.GetIndex(0).value.ToLba());
      var i := Index(disc, pregap, number, 0, Sub32(0, pregap), true, fileIndex, Sub32(start, pregap) * size, size);
      ChainOne(i, from);
      FilePregap(t, number, fileIndex, disc, i);
      out := [i];
    } else {
      pregap := if t.zeroPregap.Some? then t.zeroPregap.value.ToLba() else 0;
      if (number == 1 || sharesFirstFile) && t.zeroPregap.None? && (number == 1 || !likelyAudio) {
        pregap := 2 * FRAMES_PER_SECOND;
      }
      if pregap > 0 {
        var i := Index(disc, pregap, number, 0, Sub32(0, pregap), true, 0, 0, 0);
        ChainOne(i, from);
        CoverNone(i, start);
        SilentTrue(t, number, fileIndex, disc, i);
        out := [i];
      }
    }
  }

  lemma SilentTrue(t: Track, number: nat, fileIndex: nat, disc: nat, i: Index)
    requires i.sectorSize == 0 && i.index == 0 && i.isPregap && i.track == number && disc < WORD_RANGE
    requires i.startOnDisc == disc && i.startInTrack == Sub32(0, i.length)
    ensures IndexTrue(t, number, (disc + i.length) % WORD_RANGE, fileIndex, i)
  {
    BeforeStart(disc, i.length);
  }

  /** A position before the start of the track, as an unsigned distance from it. */
  lemma BeforeStart(disc: nat, length: nat)
    requires disc < WORD_RANGE
    ensures ((disc + length) % WORD_RANGE + Sub32(0, length)) % WORD_RANGE == disc
  {
    var back := Sub32(0, length);
    var q := -(0 - length) / WORD_RANGE;
    assert 0 - length == WORD_RANGE * ((0 - length) / WORD_RANGE) + back;
    WrappedSum(disc + length, back);
    Multiple(disc, -((0 - length) / WORD_RANGE));
  }

  lemma Multiple(disc: nat, q: nat)
    requires disc < WORD_RANGE
    ensures (disc + WORD_RANGE * q) % WORD_RANGE == disc
  {
    DivMod(disc + WORD_RANGE * q, WORD_RANGE, q, disc);
  }

  lemma CoverNothing(frame: nat, disc: nat)
    ensures FileCover([], frame, frame) && Chained([], disc, disc)
  {
  }

  lemma Difference(a: nat, b: nat)
    ensures Sub32(a, b) == (a - b) % 0x1_0000_0000
  {
  }

  lemma ExactDifference(a: nat, b: nat)
    requires b <= a < WORD_RANGE
    ensures Sub32(a, b) == a - b
  {
  }

  lemma FilePregap(t: Track, number: nat, fileIndex: nat, disc: nat, i: Index)
    requires Complete(t) && t.GetIndex(0).Some? && disc < WORD_RANGE
    requires var start, size := t.start.ToLba(), BytesPerSector(t.mode);
             var pregap := Sub32(t.GetIndex(1).value.ToLba(), t.GetIndex(0).value.ToLba());
             i == Index(disc, pregap, number, 0, Sub32(0, pregap), true, fileIndex, Sub32(start, pregap) * size, size)
    ensures WellFormed(t) ==>
              IndexTrue(t, number, (disc + i.length) % WORD_RANGE, fileIndex, i)
              && FileCover([i], t.GetIndex(0).value.ToLba(), t.start.ToLba())
  {
    hide FindIndex, BytesPerSector, FileCover, Complete, WellFormed;
    if WellFormed(t) {
      StartIsIndex1(t);
      IndexFrames(t, 1);
      IndexFrames(t, 0);
      var first, start := t.GetIndex(0).value.ToLba(), t.start.ToLba();
      ExactDifference(start, first);
      ExactDifference(start, start - first);
      BeforeStart(disc, i.length);
      CoverOne(i, first);
    }
  }

  /** The frames of one track on the disc. */
  function TrackFrames(t: Track, number: nat, sharesFirstFile: bool, likelyAudio: bool, length: nat): nat
    requires Complete(t)
  {
    PregapLength(t, number, sharesFirstFile, likelyAudio) + BodyFrames(t, 1, (t.start.ToLba() + length) % WORD_RANGE)
  }

  /** One round of the track loop. */
  method LayTrack(t: Track, number: nat, fileIndex: nat, sharesFirstFile: bool, likelyAudio: bool, length: nat,
                  ghost from: nat, disc: nat, indexCount: nat)
    returns (out: seq<Index>, track: DiscTrack, next: nat, ghost to: nat, ghost before: nat)
    requires Complete(t) && disc == from % WORD_RANGE
    ensures Chained(out, from, to) && next == to % WORD_RANGE
    ensures out == [] <==> t.GetIndex(0).None? && to == from
    ensures to == from + TrackFrames(t, number, sharesFirstFile, likelyAudio, length)
    ensures LaidFor(out, number, fileIndex)
    ensures t.GetIndex(1).Some? && GapIs(t, number, sharesFirstFile, likelyAudio, before)
    ensures to == from + before + BodyFrames(t, 1, (t.start.ToLba() + length) % WORD_RANGE)
    ensures var pregap := PregapLength(t, number, sharesFirstFile, likelyAudio);
            && pregap == before && track.number == number && track.startLba == (disc + pregap) % WORD_RANGE
            && track.length == (length + pregap) % WORD_RANGE
            && track.mode == t.mode && indexCount <= track.firstIndex <= indexCount + |out|
            && (track.firstIndex < indexCount + |out| ==> out[track.firstIndex - indexCount].startOnDisc == track.startLba)
            && Chained(out[..track.firstIndex - indexCount], from, from + pregap)
    ensures WellFormed(t) ==> AllTrue(t, number, track.startLba, fileIndex, out)
    ensures WellFormed(t) ==>
              var stop, end := LastFrom(t, 1).ToLba(), (t.start.ToLba() + length) % WORD_RANGE;
              FileCover(out, t.First().ToLba(), if end > stop then end else stop)
  {
    hide WellFormed, BytesPerSector, FileCover, PregapLength, FindIndex, LastFrom, IndexTrue, Chained, BodyFrames, GapIs;
    var gap, pregap := LayPregap(t, number, fileIndex, sharesFirstFile, likelyAudio, from, disc);
    before := pregap;
    var start := (disc + pregap) % WORD_RANGE;
    WrappedSum(from, pregap);
    track := DiscTrack(number, start, indexCount + |gap|, (length + pregap) % WORD_RANGE, t.mode);
    var rest;
    rest, next, to := LayIndices(t, number, fileIndex, from + pregap, start, length);
    ChainAppend(gap, rest, from, from + pregap, to);
    if rest != [] {
      ChainStart(rest, from + pregap, to);
    }
    if WellFormed(t) {
      var stop, end := LastFrom(t, 1).ToLba(), (t.start.ToLba() + length) % WORD_RANGE;
      CoverAppend(gap, rest, t.First().ToLba(), t.start.ToLba(), if end > stop then end else stop);
    }
    out := gap + rest;
    assert out[..|gap|] == gap;
  }

  // ---------------------------------------------------------------- how many frames a track has

  const MAX_POSITION: nat := 255 * FRAMES_PER_MINUTE + 60 * FRAMES_PER_SECOND + 75

  /** Index 0 stands at 60 seconds, and index 1 in the first second of the next minute: the order of the
      two positions is not that of their frames. */
  predicate PregapBackwards(t: Track) {
    t.GetIndex(0).Some? && t.GetIndex(1).Some? && SixtySeconds(t.GetIndex(0).value, t.GetIndex(1).value)
  }

  lemma IndexInBounds(t: Track, j: nat)
    requires Complete(t) && t.GetIndex(j).Some?
    ensures t.GetIndex(j).value.InParserBounds() && t.GetIndex(j).value.ToLba() <= MAX_POSITION
    ensures j > 0 && t.GetIndex(j - 1).Some? ==> !t.GetIndex(j).value.Less(t.GetIndex(j - 1).value)
  {
    FoundIndex(t.indices, j);
    var k :| 0 <= k < |t.indices| && t.indices[k] == (j, t.GetIndex(j).value);
  }

  /** The pregap of an index 0 wraps around exactly if the frames run backwards. */
  lemma PregapWraps(t: Track, number: nat, sharesFirstFile: bool, likelyAudio: bool)
    requires Complete(t)
    ensures if PregapBackwards(t) then PregapLength(t, number, sharesFirstFile, likelyAudio) >= WORD_RANGE - 75
            else PregapLength(t, number, sharesFirstFile, likelyAudio) <= MAX_POSITION
  {
    hide FindIndex, SixtySeconds, Position.Less;
    if t.GetIndex(0).Some? {
      IndexInBounds(t, 1);
      IndexInBounds(t, 0);
      OrderFailsExactly(t.GetIndex(0).value, t.GetIndex(1).value);
      var a, b := t.GetIndex(1).value.ToLba(), t.GetIndex(0).value.ToLba();
      if b <= a {
        ExactDifference(a, b);
      }
    }
  }

  lemma {:induction false} BodyBounds(t: Track, j: nat, end: nat)
    requires Complete(t) && t.GetIndex(j).Some?
    ensures j <= 99 && BodyFrames(t, j, end) + t.GetIndex(j).value.ToLba() >= end
    ensures BodyFrames(t, j, end) + t.GetIndex(j).value.ToLba()
            <= 75 * (99 - j) + if end > MAX_POSITION then end else MAX_POSITION
    decreases 100 - j
  {
    hide FindIndex, Complete, Position.Less, SixtySeconds, Position.ToLba;
    StartIsIndex1(t);
    IndexBound(t, j);
    IndexInBounds(t, j);
    if t.GetIndex(j + 1).Some? {
      BodyBounds(t, j + 1, end);
      IndexInBounds(t, j + 1);
      OrderFailsExactly(t.GetIndex(j).value, t.GetIndex(j + 1).value);
    }
  }

  /** A track whose frames run backwards before index 1, and that has at least 75 frames, takes up all
      32 bits; any other track takes up little more than its length. */
  lemma TrackBounds(t: Track, number: nat, sharesFirstFile: bool, likelyAudio: bool, length: nat)
    requires Complete(t) && t.start.ToLba() + length < WORD_RANGE
    ensures var n := TrackFrames(t, number, sharesFirstFile, likelyAudio, length);
            if PregapBackwards(t) then length >= 75 ==> n >= WORD_RANGE
            else n <= 2 * MAX_POSITION + 75 * 98 + length
  {
    hide FindIndex, PregapLength, BodyFrames, Complete;
    PregapWraps(t, number, sharesFirstFile, likelyAudio);
    StartIsIndex1(t);
    BodyBounds(t, 1, t.start.ToLba() + length);
  }

  // ---------------------------------------------------------------- the whole sheet

  /** Sizes of the files that can be known. */
  type Files = string -> Option<nat>

  function FileFrames(t: Track, files: Files): nat
    requires files(t.file).Some?
  {
    files(t.file).value / BytesPerSector(t.mode)
  }

  /** The track's length: from its successor, or the rest of its file; None if the file ends before. */
  function TrackLength(t: Track, files: Files): Option<nat>
    requires files(t.file).Some?
  {
    if t.length.Some? then Some(t.length.value.ToLba())
    else if t.start.ToLba() >= FileFrames(t, files) then None
    else Some((FileFrames(t, files) - t.start.ToLba()) % WORD_RANGE)
  }

  /** All tracks in one file, numbered as they come, with well-formed positions, and no position in a
      track after the first position of the next, or after the end of the file. */
  predicate SingleFile(tracks: seq<Track>, files: Files) {
    && 0 < |tracks| <= 99 && InOrder(tracks) && files(tracks[0].file).Some?
    && (forall k :: 0 <= k < |tracks| ==>
          Complete(tracks[k]) && WellFormed(tracks[k]) && tracks[k].length.None? && tracks[k].file == tracks[0].file)
    && (forall k :: 0 <= k < |tracks| - 1 ==> LastFrom(tracks[k], 1).ToLba() <= tracks[k + 1].First().ToLba())
    && LastFrom(tracks[|tracks| - 1], 1).ToLba() <= FileFrames(tracks[|tracks| - 1], files) < WORD_RANGE
  }

  /** Where the frames of the first k tracks end. */
  function CoveredUpTo(tracks: seq<Track>, k: nat, files: Files): nat
    requires SingleFile(tracks, files) && k <= |tracks|
  {
    if k < |tracks| then tracks[k].First().ToLba() else FileFrames(tracks[k - 1], files)
  }

  /** The length that SetTrackLengths stores survives its conversion to minutes, seconds and frames. */
  lemma SingleFileLength(tracks: seq<Track>, files: Files, k: nat)
    requires SingleFile(tracks, files) && k < |tracks| && SetLengths(tracks, |tracks|).Some?
    ensures Started(tracks)
    ensures var t := SetLengths(tracks, |tracks|).value[k];
            && t == tracks[k].(length := t.length)
            && (TrackLength(t, files).Some? ==>
                  t.start.ToLba() + TrackLength(t, files).value == CoveredUpTo(tracks, k + 1, files))
            && LastFrom(tracks[k], 1).ToLba() <= CoveredUpTo(tracks, k + 1, files) < WORD_RANGE
  {
    hide FindIndex, SetLengths, BytesPerSector, LengthUpTo, Complete, WellFormed, Started, Position.ToLba, LastFrom;
    CompleteStarted(tracks);
    LengthStored(tracks, k);
    StartIsIndex1(tracks[k]);
    LastAfter(tracks[k], 1);
    if k + 1 < |tracks| {
      LengthFits(tracks[k], tracks[k + 1]);
      FirstBound(tracks[k + 1]);
    }
  }

  lemma FirstBound(t: Track)
    requires Complete(t) && WellFormed(t)
    ensures t.GetIndex(1).Some? && t.First().ToLba() < MSF_RANGE
  {
    hide FindIndex, Position.ToLba, WellFormed;
    StartIsIndex1(t);
    IndexFrames(t, 1);
    if t.GetIndex(0).Some? {
      IndexFrames(t, 0);
    }
  }

  lemma LengthStored(tracks: seq<Track>, k: nat)
    requires InOrder(tracks) && Started(tracks) && k < |tracks| && SetLengths(tracks, |tracks|).Some?
    requires tracks[k].length.None? && (k + 1 < |tracks| ==> tracks[k].file == tracks[k + 1].file)
    ensures SetLengths(tracks, |tracks|).value[k]
            == tracks[k].(length := if k + 1 < |tracks| then Some(LengthUpTo(tracks[k], tracks[k + 1])) else None)
  {
    hide FindIndex, SetLengths, LengthUpTo;
    LengthsInOrder(tracks, |tracks|);
    var r := SetLengths(tracks, |tracks|).value;
    assert r[k] == tracks[k].(length := r[k].length);
  }

  lemma CompleteStarted(tracks: seq<Track>)
    requires forall k :: 0 <= k < |tracks| ==> Complete(tracks[k])
    ensures Started(tracks)
  {
    hide FindIndex;
  }

  lemma LengthFits(t: Track, next: Track)
    requires Complete(t) && Complete(next) && WellFormed(t) && WellFormed(next)
    requires LastFrom(t, 1).ToLba() <= next.First().ToLba()
    ensures t.start.ToLba() + LengthUpTo(t, next).ToLba() == next.First().ToLba()
  {
    hide FindIndex, FromLba, LastFrom, Position.ToLba, Complete, WellFormed, Sub32;
    StartIsIndex1(t);
    StartIsIndex1(next);
    LastAfter(t, 1);
    IndexFrames(next, 1);
    if next.GetIndex(0).Some? {
      IndexFrames(next, 0);
    }
    SmallDifference(next.First().ToLba(), t.start.ToLba());
  }

  lemma SmallDifference(a: nat, b: nat)
    requires b <= a < MSF_RANGE
    ensures FromLba(Sub32(a, b)).ToLba() == a - b
  {
    hide FromLba, Position.ToLba, Sub32;
    LbaRoundTrip(a - b);
    ExactDifference(a, b);
  }

  // ---------------------------------------------------------------- which sheets open, and which tile

  /** The tracks laid are those numbered 1, 2, ... up to the first number that is missing. */
  function LaidFrom(tracks: seq<Track>, number: nat): nat
    requires 1 <= number <= 100
    decreases 100 - number
  {
    if number <= 99 && FindTrack(tracks, number).Some? then LaidFrom(tracks, number + 1) else number - 1
  }

  function Nth(tracks: seq<Track>, number: nat): Track
    requires FindTrack(tracks, number).Some?
  {
    tracks[FindTrack(tracks, number).value]
  }

  predicate TrackOpens(t: Track, files: Files) { files(t.file).Some? && TrackLength(t, files).Some? }

  /** The first n tracks are there, and their files can be opened and are long enough. */
  predicate FirstOpen(tracks: seq<Track>, files: Files, n: nat) {
    forall k :: 1 <= k <= n ==> FindTrack(tracks, k).Some? && TrackOpens(Nth(tracks, k), files)
  }

  predicate LikelyAudio(tracks: seq<Track>) {
    FindTrack(tracks, 1).Some? && Nth(tracks, 1).mode == Audio
  }

  /** Nothing has been laid for the first n tracks. */
  predicate FirstEmpty(tracks: seq<Track>, files: Files, n: nat)
    requires forall k :: 0 <= k < |tracks| ==> Complete(tracks[k])
    requires FirstOpen(tracks, files, n)
  {
    forall k :: 1 <= k <= n ==>
      Nth(tracks, k).GetIndex(0).None?
      && TrackFrames(Nth(tracks, k), k, false, LikelyAudio(tracks), TrackLength(Nth(tracks, k), files).value) == 0
  }

  /** The pregap of track 1, which is where its index 1 comes to stand on the disc. */
  function FirstPregap(tracks: seq<Track>): nat
    requires FindTrack(tracks, 1).Some? && Complete(Nth(tracks, 1))
  {
    PregapLength(Nth(tracks, 1), 1, false, LikelyAudio(tracks))
  }

  /** The length of track 1 in the table of contents, pregap included, in 32 bits. */
  function FirstLength(tracks: seq<Track>, files: Files): nat
    requires FindTrack(tracks, 1).Some? && Complete(Nth(tracks, 1)) && TrackOpens(Nth(tracks, 1), files)
  {
    (TrackLength(Nth(tracks, 1), files).value + FirstPregap(tracks)) % WORD_RANGE
  }

  /** The track loop goes through: there is a first track, and all tracks open. That not all of them are
      empty lets the source find the end of the last index. */
  predicate Laid(tracks: seq<Track>, files: Files)
    requires forall k :: 0 <= k < |tracks| ==> Complete(tracks[k])
  {
    var n := LaidFrom(tracks, 1);
    n > 0 && FirstOpen(tracks, files, n) && !FirstEmpty(tracks, files, n)
  }

  /** A sheet is accepted if, besides, track 1 has a frame to seek to. */
  predicate Accepted(tracks: seq<Track>, files: Files)
    requires forall k :: 0 <= k < |tracks| ==> Complete(tracks[k])
  {
    Laid(tracks, files) && (FirstTrackOpens(tracks, files); FirstLength(tracks, files) > 0)
  }

  lemma FirstTrackOpens(tracks: seq<Track>, files: Files)
    requires forall k :: 0 <= k < |tracks| ==> Complete(tracks[k])
    requires Laid(tracks, files)
    ensures FindTrack(tracks, 1).Some? && Complete(Nth(tracks, 1)) && TrackOpens(Nth(tracks, 1), files)
  {
    hide FindTrackFrom, Complete, TrackOpens, FirstEmpty;
  }

  /** What the table of contents has of track 1. */
  ghost predicate Begun(tracks: seq<Track>, files: Files, toc: seq<Index>, laid: seq<DiscTrack>) {
    && FindTrack(tracks, 1).Some? && Complete(Nth(tracks, 1)) && TrackOpens(Nth(tracks, 1), files)
    && laid != [] && laid[0].startLba == FirstPregap(tracks) && laid[0].length == FirstLength(tracks, files)
    && laid[0].firstIndex <= |toc| && Chained(toc[..laid[0].firstIndex], 0, FirstPregap(tracks))
    && FirstPregap(tracks) < WORD_RANGE
  }

  lemma BegunNow(tracks: seq<Track>, files: Files, out: seq<Index>, track: DiscTrack)
    requires FindTrack(tracks, 1).Some? && Complete(Nth(tracks, 1)) && TrackOpens(Nth(tracks, 1), files)
    requires track.startLba == FirstPregap(tracks) % WORD_RANGE && track.length == FirstLength(tracks, files)
    requires track.firstIndex <= |out| && Chained(out[..track.firstIndex], 0, FirstPregap(tracks))
    ensures Begun(tracks, files, out, [track])
  {
    hide FindTrackFrom, FindIndex, Chained, Position.ToLba, Complete, TrackOpens;
    PregapFits(Nth(tracks, 1), LikelyAudio(tracks));
  }

  lemma PregapFits(t: Track, likelyAudio: bool)
    requires Complete(t)
    ensures PregapLength(t, 1, false, likelyAudio) < WORD_RANGE
  {
    hide FindIndex;
  }

  lemma BegunNext(tracks: seq<Track>, files: Files, toc: seq<Index>, laid: seq<DiscTrack>, out: seq<Index>, track: DiscTrack)
    requires Begun(tracks, files, toc, laid)
    ensures Begun(tracks, files, toc + out, laid + [track])
  {
    hide FindTrackFrom, FindIndex, Chained, Complete, TrackOpens, FirstPregap, FirstLength;
    assert (toc + out)[..laid[0].firstIndex] == toc[..laid[0].firstIndex];
  }

  lemma BegunThen(tracks: seq<Track>, files: Files, toc: seq<Index>, laid: seq<DiscTrack>, out: seq<Index>,
                  track: DiscTrack)
    requires laid != [] ==> Begun(tracks, files, toc, laid)
    requires laid == [] ==>
               && FindTrack(tracks, 1).Some? && Complete(Nth(tracks, 1)) && TrackOpens(Nth(tracks, 1), files)
               && toc == [] && track.startLba == FirstPregap(tracks) % WORD_RANGE
               && track.length == FirstLength(tracks, files)
               && track.firstIndex <= |out| && Chained(out[..track.firstIndex], 0, FirstPregap(tracks))
    ensures Begun(tracks, files, toc + out, laid + [track])
  {
    hide FindTrackFrom, FindIndex, Chained, Complete, TrackOpens, FirstPregap, FirstLength, Begun;
    if laid == [] {
      BegunNow(tracks, files, out, track);
      assert [] + out == out && [] + [track] == [track];
    } else {
      BegunNext(tracks, files, toc, laid, out, track);
    }
  }

  const MAX_FILE_FRAMES: nat := 40_000_000
  const MAX_TRACK_FRAMES: nat := 2 * MAX_POSITION + 75 * 98 + MAX_FILE_FRAMES

  /** No file has more than forty million frames. */
  predicate SmallFiles(tracks: seq<Track>, files: Files) {
    forall k :: 0 <= k < |tracks| && files(tracks[k].file).Some? ==> FileFrames(tracks[k], files) <= MAX_FILE_FRAMES
  }

  /** None of the first n tracks has an index 0 whose frames run backwards. */
  predicate NoneBackwards(tracks: seq<Track>, n: nat) {
    forall k :: 1 <= k <= n && FindTrack(tracks, k).Some? ==> !PregapBackwards(Nth(tracks, k))
  }

  /** Each of the first n tracks has a second or more. */
  predicate SecondLong(tracks: seq<Track>, files: Files, n: nat) {
    forall k :: 1 <= k <= n && FindTrack(tracks, k).Some? && TrackOpens(Nth(tracks, k), files) ==>
      TrackLength(Nth(tracks, k), files).value >= 75
  }

  /** What the first n tracks amount to, counted without bound. */
  ghost predicate TotalTrue(tracks: seq<Track>, files: Files, n: nat, total: nat) {
    SmallFiles(tracks, files) ==>
      && (NoneBackwards(tracks, n) ==> total <= n * MAX_TRACK_FRAMES)
      && (SecondLong(tracks, files, n) && !NoneBackwards(tracks, n) ==> total >= WORD_RANGE)
  }

  lemma TotalNext(tracks: seq<Track>, files: Files, n: nat, total: nat, sharesFirstFile: bool, likelyAudio: bool)
    requires TotalTrue(tracks, files, n, total) && FindTrack(tracks, n + 1).Some?
    requires TrackOpens(Nth(tracks, n + 1), files)
    requires Complete(Nth(tracks, n + 1))
    ensures var t := Nth(tracks, n + 1);
            TotalTrue(tracks, files, n + 1,
                      total + TrackFrames(t, n + 1, sharesFirstFile, likelyAudio, TrackLength(t, files).value))
  {
    hide FindIndex, TrackFrames, Complete, PregapBackwards, Position.ToLba, FindTrackFrom;
    if SmallFiles(tracks, files) {
      var t := Nth(tracks, n + 1);
      var length := TrackLength(t, files).value;
      LengthBound(t, files);
      TrackBounds(t, n + 1, sharesFirstFile, likelyAudio, length);
      assert NoneBackwards(tracks, n + 1) <==> NoneBackwards(tracks, n) && !PregapBackwards(t);
      assert SecondLong(tracks, files, n + 1) <==> SecondLong(tracks, files, n) && length >= 75;
      assert (n + 1) * MAX_TRACK_FRAMES == n * MAX_TRACK_FRAMES + MAX_TRACK_FRAMES;
    }
  }

  lemma LengthBound(t: Track, files: Files)
    requires Complete(t) && TrackOpens(t, files) && FileFrames(t, files) <= MAX_FILE_FRAMES
    ensures TrackLength(t, files).value <= MAX_FILE_FRAMES && t.start.ToLba() <= MAX_POSITION
  {
    hide FindIndex, BytesPerSector;
    StartIsIndex1(t);
    IndexInBounds(t, 1);
  }

  lemma TotalDecides(tracks: seq<Track>, files: Files, n: nat, total: nat)
    requires TotalTrue(tracks, files, n, total) && n <= 99 && SmallFiles(tracks, files)
    ensures NoneBackwards(tracks, n) ==> total < WORD_RANGE
    ensures SecondLong(tracks, files, n) ==> (NoneBackwards(tracks, n) <==> total < WORD_RANGE)
  {
    hide FindTrackFrom, PregapBackwards;
    if NoneBackwards(tracks, n) {
      assert n * MAX_TRACK_FRAMES <= 99 * MAX_TRACK_FRAMES;
    }
  }

  /** Whether the disc is tiled follows from the sheet, if files and tracks have a reasonable size. */
  ghost predicate TilingDecided(tracks: seq<Track>, files: Files, n: nat, toc: seq<Index>, lbaCount: nat) {
    SmallFiles(tracks, files) ==>
      && (NoneBackwards(tracks, n) ==> Tiles(toc, 0, lbaCount))
      && (SecondLong(tracks, files, n) ==> (Tiles(toc, 0, lbaCount) <==> NoneBackwards(tracks, n)))
  }

  /** OpenAndParse: the indices are laid one after the other in 32-bit positions, and followed by the
      lead-out. They tile the disc exactly if their frames number less than 2^32; for files of a
      reasonable size and tracks of a second or more, exactly if no track has an index 0 at 60 seconds
      followed by an index 1 in the next minute with fewer frames. If the sheet has a single file with
      tracks in file order, the file-backed indices cover its frames from the first track's first
      position to the end of the file, each exactly once. The image is left at the start of track 1, where
      an index begins; a sheet is refused at the end if that track has no frames. */
  method OpenAndParse(parsed: seq<Track>, files: Files)
    returns (r: Option<(CDImage, nat)>, ghost names: seq<string>, ghost gaps: seq<nat>)
    requires forall k :: 0 <= k < |parsed| ==> Complete(parsed[k])
    ensures Started(parsed)
    ensures r.Some? <==> SetLengths(parsed, |parsed|).Some?
                         && AllComplete(SetLengths(parsed, |parsed|).value)
                         && Accepted(SetLengths(parsed, |parsed|).value, files)
    ensures r.Some? ==> var (image, lbaCount) := r.value;
              fresh(image) && image.indices != [] && image.indices[|image.indices| - 1].track == LEAD_OUT_TRACK_NUMBER
              && var toc := image.indices[..|image.indices| - 1];
                 && lbaCount == Frames(toc) % WORD_RANGE && Chained(toc, 0, Frames(toc))
                 && (Tiles(toc, 0, lbaCount) <==> Frames(toc) < WORD_RANGE)
                 && (Frames(toc) < WORD_RANGE ==> image.Valid() && image.end == lbaCount + LEAD_OUT_SECTOR_COUNT)
    ensures r.Some? ==> var tracks := SetLengths(parsed, |parsed|).value; var (image, lbaCount) := r.value;
              && image.indices != []
              && TilingDecided(tracks, files, LaidFrom(tracks, 1), image.indices[..|image.indices| - 1], lbaCount)
    ensures r.Some? ==> var tracks := SetLengths(parsed, |parsed|).value; var image := r.value.0;
              && |image.tracks| == LaidFrom(tracks, 1) > 0 && FindTrack(tracks, 1).Some?
              && image.tracks[0].startLba == image.positionOnDisc == FirstPregap(tracks)
              && image.currentIndex.Some? && FirstContaining(image.indices, image.currentIndex.value, image.positionOnDisc)
              && image.indices[image.currentIndex.value].startOnDisc == image.positionOnDisc && image.positionInIndex == 0
    ensures r.Some? ==> var tracks := SetLengths(parsed, |parsed|).value; var image := r.value.0;
              && image.indices != []
              && AllPlaced(tracks, files, names, image.indices[..|image.indices| - 1], image.tracks, gaps)
    ensures r.Some? && SingleFile(parsed, files) ==> var image := r.value.0;
              image.indices != []
              && FileCover(image.indices[..|image.indices| - 1], parsed[0].First().ToLba(), CoveredUpTo(parsed, |parsed|, files))
  {
    hide FindIndex, Complete, SingleFile, FirstOpen, Chained, Tiles, FileCover, CoveredUpTo, FindTrackFrom,
         SmallFiles, NoneBackwards, SecondLong, FirstEmpty, LaidFrom, Standing, AllPlaced;
    names, gaps := [], [];
    CompleteStarted(parsed);
    var lengths := SetTrackLengths(parsed);
    if lengths.None? {
      return None, [], [];
    }
    var tracks := lengths.value;
    CompleteKept(parsed, tracks);
    var laid;
    ghost var total;
    laid, total, names, gaps := LayTracks(parsed, tracks, files);
    if laid.None? || laid.value.0 == [] {
      return None, [], [];
    }
    var (toc, discTracks, disc) := laid.value;
    FirstTrackOpens(tracks, files);
    TilesExactly(toc, total);
    LaidBound(tracks, 1);
    if SmallFiles(tracks, files) {
      TotalDecides(tracks, files, LaidFrom(tracks, 1), total);
    }
    var image := PositionedImage(tracks, files, toc, discTracks, disc, total);
    StandingIs(tracks, files, names, toc, discTracks, gaps, total);
    r := if image.Some? then Some((image.value, disc)) else None;
  }

  /** The end of OpenAndParse: the lead-out, and the seek to the start of track 1. */
  method PositionedImage(ghost tracks: seq<Track>, ghost files: Files, toc: seq<Index>, laid: seq<DiscTrack>, disc: nat,
                         ghost total: nat)
    returns (r: Option<CDImage>)
    requires Begun(tracks, files, toc, laid) && Chained(toc, 0, total) && toc != [] && disc == total % WORD_RANGE
    ensures FindTrack(tracks, 1).Some? && Complete(Nth(tracks, 1)) && TrackOpens(Nth(tracks, 1), files)
    ensures r.Some? <==> FirstLength(tracks, files) > 0
    ensures r.Some? ==> var image := r.value;
              && fresh(image) && image.indices != [] && image.indices[..|image.indices| - 1] == toc && image.tracks == laid
              && image.indices[|image.indices| - 1].track == LEAD_OUT_TRACK_NUMBER
              && (total < WORD_RANGE ==> image.Valid() && image.end == disc + LEAD_OUT_SECTOR_COUNT)
              && laid[0].startLba == image.positionOnDisc == FirstPregap(tracks) && image.positionInIndex == 0
              && image.currentIndex.Some? && FirstContaining(image.indices, image.currentIndex.value, image.positionOnDisc)
              && image.indices[image.currentIndex.value].startOnDisc == image.positionOnDisc
  {
    hide FindIndex, FindTrackFrom, Chained, Tiles, Complete, TrackOpens, FirstPregap, FirstLength;
    TilesExactly(toc, total);
    var image := new CDImage(toc, laid, disc);
    image.AddLeadOutIndex();
    ghost var k := StartReached(tracks, files, toc, laid, image.indices, total);
    assert Contains(image.indices[k], (image.tracks[0].startLba + Position(0, 0, 0).ToLba()) % WORD_RANGE);
    var ok := image.SeekInTrack(1, Position(0, 0, 0));
    if !ok {
      return None;
    }
    FirstIsUnique(image.indices, k, image.currentIndex.value, image.positionOnDisc);
    r := Some(image);
  }

  /** The seek to track 1 finds an index, or the lead-out, and it is one that begins there. */
  lemma StartReached(tracks: seq<Track>, files: Files, toc: seq<Index>, laid: seq<DiscTrack>, indices: seq<Index>, total: nat)
    returns (k: nat)
    requires Begun(tracks, files, toc, laid) && Chained(toc, 0, total) && toc != []
    requires |indices| == |toc| + 1 && indices[..|toc|] == toc && indices[|toc|].length > 0
    requires indices[|toc|].startOnDisc == (indices[|toc| - 1].startOnDisc + indices[|toc| - 1].length) % WORD_RANGE
    ensures FirstContaining(indices, k, FirstPregap(tracks)) && indices[k].startOnDisc == FirstPregap(tracks)
    ensures laid[0].startLba == FirstPregap(tracks) == FirstPregap(tracks) % WORD_RANGE
    ensures laid[0].length == FirstLength(tracks, files)
    ensures indices[..|indices| - 1] == toc
  {
    hide FindTrackFrom, FindIndex, Chained, Complete, TrackOpens, FirstPregap, FirstLength;
    assert indices == toc + [indices[|toc|]];
    assert toc[|toc| - 1] == indices[|toc| - 1];
    k := BoundaryReached(toc, indices[|toc|], total, laid[0].firstIndex, FirstPregap(tracks));
  }

  predicate AllComplete(tracks: seq<Track>) {
    forall k :: 0 <= k < |tracks| ==> Complete(tracks[k])
  }

  /** Lengths do not matter for completeness. */
  lemma CompleteKept(parsed: seq<Track>, tracks: seq<Track>)
    requires AllComplete(parsed) && Started(parsed) && SetLengths(parsed, |parsed|) == Some(tracks)
    ensures AllComplete(tracks)
  {
    hide FindIndex, SetLengths;
    forall k | 0 <= k < |tracks|
      ensures Complete(tracks[k])
    {
      SameComplete(parsed[k], tracks[k]);
    }
  }

  lemma SameComplete(t: Track, u: Track)
    requires Complete(t) && u == t.(length := u.length)
    ensures Complete(u)
  {
    hide FindIndex;
    assert forall n :: u.GetIndex(n) == t.GetIndex(n);
  }

  lemma {:induction false} LaidBound(tracks: seq<Track>, number: nat)
    requires 1 <= number <= 100
    ensures number - 1 <= LaidFrom(tracks, number) <= 99
    decreases 100 - number
  {
    hide FindTrackFrom;
    if number <= 99 && FindTrack(tracks, number).Some? {
      LaidBound(tracks, number + 1);
    }
  }

  lemma LaidNext(tracks: seq<Track>, number: nat)
    requires 1 <= number <= 100
    ensures number - 1 <= LaidFrom(tracks, number) <= 99
    ensures LaidFrom(tracks, number)
            == if number <= 99 && FindTrack(tracks, number).Some? then LaidFrom(tracks, number + 1) else number - 1
    ensures number <= 99 && FindTrack(tracks, number).Some? ==> number <= LaidFrom(tracks, number)
  {
    hide FindTrackFrom;
    LaidBound(tracks, number);
    if number <= 99 {
      LaidBound(tracks, number + 1);
    }
  }

  // ---------------------------------------------------------------- where the tracks come to stand

  /** The first k tracks are there, complete, and open. */
  ghost predicate Ready(tracks: seq<Track>, files: Files, k: nat) { AllComplete(tracks) && FirstOpen(tracks, files, k) }

  /** The frames of track number k from its index 1 on. */
  ghost function OwnFrames(tracks: seq<Track>, files: Files, k: nat): nat
    requires k >= 1 && Ready(tracks, files, k)
  {
    var t := Nth(tracks, k);
    BodyFrames(t, 1, (t.start.ToLba() + TrackLength(t, files).value) % WORD_RANGE)
  }

  /** The frames of the first k tracks, each with its gap. */
  ghost function FramesUpTo(tracks: seq<Track>, files: Files, gaps: seq<nat>, k: nat): nat
    requires k <= |gaps| && Ready(tracks, files, k)
  {
    if k == 0 then 0 else FramesUpTo(tracks, files, gaps, k - 1) + gaps[k - 1] + OwnFrames(tracks, files, k)
  }

  /** The file of the track is that of the first index of the disc, which an earlier track has laid. `names`
      are the files in the order in which they were opened. */
  predicate InFirstFile(toc: seq<Index>, names: seq<string>, t: Track, number: nat) {
    toc != [] && toc[0].track < number && toc[0].fileIndex < |names| && names[toc[0].fileIndex] == t.file
  }

  /** Each track in the table of contents starts behind the tracks before it and its own gap, in 32 bits, and
      its length takes in its gap. If track 1 has a frame, the first index is its own, and the first file
      is its file. */
  ghost predicate Placed(tracks: seq<Track>, files: Files, names: seq<string>, toc: seq<Index>, laid: seq<DiscTrack>,
                         gaps: seq<nat>)
  {
    && |gaps| == |laid| && Ready(tracks, files, |laid|) && (laid != [] ==> names != [] && names[0] == Nth(tracks, 1).file)
    && (laid != [] && FramesUpTo(tracks, files, gaps, 1) > 0 ==> BeginsFirst(toc))
    && forall k :: 0 <= k < |laid| ==> PlacedAt(tracks, files, names, toc, laid[k], gaps, k)
  }

  predicate BeginsFirst(toc: seq<Index>) { toc != [] && toc[0].track == 1 && toc[0].fileIndex == 0 }

  /** And these are all the frames. */
  ghost predicate AllPlaced(tracks: seq<Track>, files: Files, names: seq<string>, toc: seq<Index>, laid: seq<DiscTrack>,
                            gaps: seq<nat>)
  {
    && Placed(tracks, files, names, toc, laid, gaps)
    && Frames(toc) == FramesUpTo(tracks, files, gaps, |laid|)
  }

  ghost predicate PlacedAt(tracks: seq<Track>, files: Files, names: seq<string>, toc: seq<Index>, track: DiscTrack,
                           gaps: seq<nat>, k: nat)
    requires k < |gaps| && Ready(tracks, files, k + 1)
  {
    var t := Nth(tracks, k + 1);
    && track.number == k + 1 && track.mode == t.mode
    && track.startLba == (FramesUpTo(tracks, files, gaps, k) + gaps[k]) % 0x1_0000_0000
    && track.length == (TrackLength(t, files).value + gaps[k]) % 0x1_0000_0000
    && t.GetIndex(1).Some?
    && GapIs(t, k + 1, InFirstFile(toc, names, t, k + 1), FindTrack(tracks, 1).Some? && Nth(tracks, 1).mode == Audio, gaps[k])
  }

  lemma ReadyAt(tracks: seq<Track>, files: Files, n: nat, k: nat)
    requires Ready(tracks, files, n) && 1 <= k <= n
    ensures FindTrack(tracks, k).Some? && Complete(Nth(tracks, k)) && TrackOpens(Nth(tracks, k), files)
  {
    hide FindTrackFrom, Complete, TrackOpens;
  }

  lemma ReadyLess(tracks: seq<Track>, files: Files, n: nat, k: nat)
    requires Ready(tracks, files, n) && k <= n
    ensures Ready(tracks, files, k)
  {
  }

  lemma {:induction false} FramesKept(tracks: seq<Track>, files: Files, gaps: seq<nat>, gap: nat, k: nat)
    requires k <= |gaps| && Ready(tracks, files, k)
    ensures FramesUpTo(tracks, files, gaps + [gap], k) == FramesUpTo(tracks, files, gaps, k)
  {
    hide OwnFrames;
    if k > 0 {
      FramesKept(tracks, files, gaps, gap, k - 1);
    }
  }

  /** Files are only ever added behind the others. */
  predicate Longer(names: seq<string>, more: seq<string>) { |names| <= |more| && more[..|names|] == names }

  /** The files opened so far, all different. */
  ghost predicate Opened(names: seq<string>, toc: seq<Index>) {
    && (forall i, j :: 0 <= i < j < |names| ==> names[i] != names[j])
    && (toc != [] ==> toc[0].fileIndex < |names|)
  }

  lemma OpenedNext(names: seq<string>, more: seq<string>, toc: seq<Index>, out: seq<Index>, number: nat, file: string)
    requires Opened(names, toc) && LaidFor(out, number, FindFile(names, file))
    requires more == if FindFile(names, file) == |names| then names + [file] else names
    ensures Opened(more, toc + out) && more != [] && (names != [] ==> more[0] == names[0]) && (names == [] ==> more[0] == file)
    ensures toc != [] ==>
              toc[0].fileIndex < |more| && (FindFile(names, file) == toc[0].fileIndex <==> more[toc[0].fileIndex] == file)
    ensures Longer(names, more)
  {
    if toc != [] {
      assert (toc + out)[0] == toc[0];
    } else if out != [] {
      assert (toc + out)[0] == out[0];
    }
  }

  /** Whether an earlier track is in the first file does not change as further tracks are laid. */
  lemma FirstFileKept(toc: seq<Index>, out: seq<Index>, names: seq<string>, more: seq<string>, t: Track, k: nat,
                      number: nat, fileIndex: nat)
    requires k < number && LaidFor(out, number, fileIndex) && Opened(names, toc)
    requires Longer(names, more)
    ensures InFirstFile(toc + out, more, t, k) == InFirstFile(toc, names, t, k)
  {
    assert forall i :: 0 <= i < |names| ==> more[i] == more[..|names|][i];
    if toc != [] {
      assert (toc + out)[0] == toc[0];
    } else if out != [] {
      assert (toc + out)[0] == out[0];
    }
  }

  /** One track more. */
  lemma TrackPlaced(tracks: seq<Track>, files: Files, names: seq<string>, more: seq<string>, toc: seq<Index>,
                   out: seq<Index>, laid: seq<DiscTrack>, track: DiscTrack, gaps: seq<nat>, gap: nat)
    requires Placed(tracks, files, names, toc, laid, gaps) && Ready(tracks, files, |laid| + 1)
    requires Opened(names, toc) && (names == [] ==> laid == []) && more != []
    requires more[0] == if laid == [] then Nth(tracks, 1).file else names[0]
    requires Longer(names, more)
    requires LaidFor(out, |laid| + 1, FindFile(names, Nth(tracks, |laid| + 1).file))
    requires PlacedAt(tracks, files, more, toc + out, track, gaps + [gap], |laid|)
    requires laid == [] && FramesUpTo(tracks, files, gaps + [gap], 1) > 0 ==> BeginsFirst(toc + out)
    ensures Placed(tracks, files, more, toc + out, laid + [track], gaps + [gap])
  {
    hide PlacedAt, GapIs, InFirstFile, Opened, LaidFor, Ready, FindTrackFrom, Longer, FindFile;
    var n := |laid|;
    ReadyAt(tracks, files, n + 1, n + 1);
    ReadyLess(tracks, files, n + 1, 1);
    BeginsStill(tracks, files, toc, out, gaps, gap);
    forall k | 0 <= k < n
      ensures Ready(tracks, files, k + 1) && PlacedAt(tracks, files, more, toc + out, laid[k], gaps + [gap], k)
    {
      ReadyLess(tracks, files, n + 1, k + 1);
      PlacedStill(tracks, files, names, more, toc, out, laid[k], gaps, gap, k, n + 1);
    }
  }

  lemma BeginsStill(tracks: seq<Track>, files: Files, toc: seq<Index>, out: seq<Index>, gaps: seq<nat>, gap: nat)
    requires Ready(tracks, files, 1)
    ensures gaps != [] ==> FramesUpTo(tracks, files, gaps + [gap], 1) == FramesUpTo(tracks, files, gaps, 1)
    ensures BeginsFirst(toc) ==> BeginsFirst(toc + out)
  {
    if gaps != [] {
      FramesKept(tracks, files, gaps, gap, 1);
    }
    if toc != [] {
      assert (toc + out)[0] == toc[0];
    }
  }

  lemma PlacedStill(tracks: seq<Track>, files: Files, names: seq<string>, more: seq<string>, toc: seq<Index>,
                    out: seq<Index>, track: DiscTrack, gaps: seq<nat>, gap: nat, k: nat, number: nat)
    requires k < |gaps| && k + 1 < number && Ready(tracks, files, k + 1) && Opened(names, toc)
    requires Longer(names, more)
    requires FindTrack(tracks, number).Some? && LaidFor(out, number, FindFile(names, Nth(tracks, number).file))
    requires PlacedAt(tracks, files, names, toc, track, gaps, k)
    ensures PlacedAt(tracks, files, more, toc + out, track, gaps + [gap], k)
  {
    hide GapIs, InFirstFile, Opened, LaidFor, FramesUpTo, FindTrackFrom, TrackLength, FindIndex, Longer, FindFile,
         TrackOpens, Complete;
    ReadyLess(tracks, files, k + 1, k);
    FramesKept(tracks, files, gaps, gap, k);
    FirstFileKept(toc, out, names, more, Nth(tracks, k + 1), k + 1, number, FindFile(names, Nth(tracks, number).file));
  }

  /** What the track loop keeps: the tracks laid so far stand where they belong, and end at `total`. */
  ghost predicate Standing(tracks: seq<Track>, files: Files, names: seq<string>, toc: seq<Index>, laid: seq<DiscTrack>,
                           gaps: seq<nat>, total: nat)
  {
    && Placed(tracks, files, names, toc, laid, gaps) && Opened(names, toc) && (names == [] <==> laid == [])
    && (laid == [] ==> toc == []) && (forall i :: 0 <= i < |toc| ==> toc[i].track <= |laid|)
    && total == FramesUpTo(tracks, files, gaps, |laid|)
  }

  lemma StandingIs(tracks: seq<Track>, files: Files, names: seq<string>, toc: seq<Index>, laid: seq<DiscTrack>,
                   gaps: seq<nat>, total: nat)
    requires Standing(tracks, files, names, toc, laid, gaps, total)
    ensures total == Frames(toc) ==> AllPlaced(tracks, files, names, toc, laid, gaps)
  {
    hide Ready, Opened, FramesUpTo, PlacedAt;
  }

  lemma ReadyNow(tracks: seq<Track>, files: Files, n: nat)
    requires AllComplete(tracks) && FirstOpen(tracks, files, n)
    ensures Ready(tracks, files, n)
  {
  }

  lemma NothingStanding(tracks: seq<Track>, files: Files)
    requires AllComplete(tracks)
    ensures Standing(tracks, files, [], [], [], [], 0)
  {
  }

  /** The name of the file of the next track, as it is looked up and added. */
  function Added(names: seq<string>, file: string): seq<string> {
    if FindFile(names, file) == |names| then names + [file] else names
  }

  /** LayTrack has laid the next track. */
  ghost predicate NextLaid(tracks: seq<Track>, files: Files, names: seq<string>, toc: seq<Index>, number: nat,
                           total: nat, out: seq<Index>, track: DiscTrack, gap: nat, to: nat, shares: bool)
    requires number >= 1 && Ready(tracks, files, number)
  {
    var t := Nth(tracks, number);
    && LaidFor(out, number, FindFile(names, t.file))
    && track.number == number && track.mode == t.mode && track.startLba == (total + gap) % 0x1_0000_0000
    && track.length == (TrackLength(t, files).value + gap) % 0x1_0000_0000
    && t.GetIndex(1).Some?
    && GapIs(t, number, shares, FindTrack(tracks, 1).Some? && Nth(tracks, 1).mode == Audio, gap)
    && shares == (number > 1 && toc != [] && FindFile(names, t.file) == toc[0].fileIndex)
    && to == total + gap + OwnFrames(tracks, files, number) && (out == [] ==> to == total)
  }

  /** What LayTrack promises. */
  ghost predicate TrackLaid(tracks: seq<Track>, files: Files, names: seq<string>, toc: seq<Index>, number: nat,
                            total: nat, out: seq<Index>, track: DiscTrack, gap: nat, to: nat, shares: bool)
    requires FindTrack(tracks, number).Some? && TrackOpens(Nth(tracks, number), files) && Complete(Nth(tracks, number))
  {
    var t := Nth(tracks, number); var length := TrackLength(t, files).value;
    && LaidFor(out, number, FindFile(names, t.file))
    && shares == (number > 1 && toc != [] && FindFile(names, t.file) == toc[0].fileIndex)
    && t.GetIndex(1).Some? && GapIs(t, number, shares, LikelyAudio(tracks), gap)
    && to == total + gap + BodyFrames(t, 1, (t.start.ToLba() + length) % WORD_RANGE) && (out == [] ==> to == total)
    && track.number == number && track.startLba == (total % WORD_RANGE + gap) % WORD_RANGE
    && track.length == (length + gap) % WORD_RANGE && track.mode == t.mode
  }

  lemma LaidNow(tracks: seq<Track>, files: Files, names: seq<string>, toc: seq<Index>, number: nat, total: nat,
                out: seq<Index>, track: DiscTrack, gap: nat, to: nat, shares: bool)
    requires number >= 1 && Ready(tracks, files, number) && FindTrack(tracks, number).Some?
    requires Complete(Nth(tracks, number)) && TrackOpens(Nth(tracks, number), files)
    requires TrackLaid(tracks, files, names, toc, number, total, out, track, gap, to, shares)
    ensures NextLaid(tracks, files, names, toc, number, total, out, track, gap, to, shares)
  {
    hide GapIs, FindTrackFrom, TrackLength, FindIndex, FindFile, TrackOpens, Complete, BodyFrames, Ready, LaidFor;
    WrappedSum(total, gap);
  }

  /** One round of the track loop. */
  lemma Advanced(tracks: seq<Track>, files: Files, names: seq<string>, toc: seq<Index>, laid: seq<DiscTrack>,
                 gaps: seq<nat>, total: nat, out: seq<Index>, track: DiscTrack, gap: nat, to: nat, shares: bool)
    requires Standing(tracks, files, names, toc, laid, gaps, total) && AllComplete(tracks)
    requires FirstOpen(tracks, files, |laid| + 1) && FindTrack(tracks, |laid| + 1).Some?
    requires Complete(Nth(tracks, |laid| + 1)) && TrackOpens(Nth(tracks, |laid| + 1), files)
    requires TrackLaid(tracks, files, names, toc, |laid| + 1, total, out, track, gap, to, shares)
    ensures Standing(tracks, files, Added(names, Nth(tracks, |laid| + 1).file), toc + out, laid + [track], gaps + [gap], to)
  {
    ReadyNow(tracks, files, |laid| + 1);
    hide Standing, FindTrackFrom, NextLaid, FindFile, TrackOpens, Complete, FirstOpen, TrackLaid, Ready;
    LaidNow(tracks, files, names, toc, |laid| + 1, total, out, track, gap, to, shares);
    StandingNext(tracks, files, names, toc, laid, gaps, total, out, track, gap, to, shares);
  }

  /** The track just laid stands where it belongs. */
  lemma NextPlaced(tracks: seq<Track>, files: Files, names: seq<string>, toc: seq<Index>, number: nat, total: nat,
                   out: seq<Index>, track: DiscTrack, gap: nat, to: nat, shares: bool, gaps: seq<nat>)
    requires number >= 1 && Ready(tracks, files, number) && Ready(tracks, files, number - 1) && |gaps| == number - 1
    requires NextLaid(tracks, files, names, toc, number, total, out, track, gap, to, shares)
    requires Opened(names, toc) && total == FramesUpTo(tracks, files, gaps, number - 1)
    requires (number == 1 ==> toc == []) && forall i :: 0 <= i < |toc| ==> toc[i].track < number
    ensures var more := Added(names, Nth(tracks, number).file);
            && PlacedAt(tracks, files, more, toc + out, track, gaps + [gap], number - 1)
            && to == FramesUpTo(tracks, files, gaps + [gap], number)
            && Opened(more, toc + out) && more != [] && Longer(names, more)
            && more[0] == (if names == [] then Nth(tracks, number).file else names[0])
    ensures number == 1 && names == [] && to > 0 ==> BeginsFirst(toc + out)
    ensures forall i :: 0 <= i < |toc + out| ==> (toc + out)[i].track <= number
  {
    hide GapIs, FindTrackFrom, TrackLength, FindIndex, FindFile, TrackOpens, Complete, OwnFrames, Opened, Ready;
    ReadyAt(tracks, files, number, number);
    var t := Nth(tracks, number);
    var more := Added(names, t.file);
    OpenedNext(names, more, toc, out, number, t.file);
    FirstFileIs(toc, out, names, more, t, number, shares);
    FramesKept(tracks, files, gaps, gap, number - 1);
  }

  lemma StandingNext(tracks: seq<Track>, files: Files, names: seq<string>, toc: seq<Index>, laid: seq<DiscTrack>,
                     gaps: seq<nat>, total: nat, out: seq<Index>, track: DiscTrack, gap: nat, to: nat, shares: bool)
    requires Standing(tracks, files, names, toc, laid, gaps, total) && Ready(tracks, files, |laid| + 1)
    requires NextLaid(tracks, files, names, toc, |laid| + 1, total, out, track, gap, to, shares)
    ensures FindTrack(tracks, |laid| + 1).Some?
    ensures Standing(tracks, files, Added(names, Nth(tracks, |laid| + 1).file), toc + out, laid + [track], gaps + [gap], to)
  {
    hide FindTrackFrom, NextLaid, FindFile, TrackOpens, Complete, Opened, Placed, Ready, PlacedAt, FramesUpTo, Longer;
    var n := |laid|;
    ReadyAt(tracks, files, n + 1, n + 1);
    PlacedNames(tracks, files, names, toc, laid, gaps);
    NextPlaced(tracks, files, names, toc, n + 1, total, out, track, gap, to, shares, gaps);
    LaidForNext(tracks, files, names, toc, n + 1, total, out, track, gap, to, shares);
    TrackPlaced(tracks, files, names, Added(names, Nth(tracks, n + 1).file), toc, out, laid, track, gaps, gap);
  }

  lemma LaidForNext(tracks: seq<Track>, files: Files, names: seq<string>, toc: seq<Index>, number: nat,
                    total: nat, out: seq<Index>, track: DiscTrack, gap: nat, to: nat, shares: bool)
    requires number >= 1 && Ready(tracks, files, number)
    requires NextLaid(tracks, files, names, toc, number, total, out, track, gap, to, shares)
    ensures FindTrack(tracks, number).Some? && LaidFor(out, number, FindFile(names, Nth(tracks, number).file))
  {
    hide GapIs, FindTrackFrom, TrackLength, FindIndex, FindFile, TrackOpens, Complete, OwnFrames;
  }

  lemma PlacedNames(tracks: seq<Track>, files: Files, names: seq<string>, toc: seq<Index>, laid: seq<DiscTrack>,
                    gaps: seq<nat>)
    requires Placed(tracks, files, names, toc, laid, gaps)
    ensures |gaps| == |laid| && Ready(tracks, files, |laid|)
    ensures laid != [] ==> FindTrack(tracks, 1).Some? && names != [] && names[0] == Nth(tracks, 1).file
  {
    hide FindTrackFrom, Ready, PlacedAt;
    if laid != [] {
      ReadyAt(tracks, files, |laid|, 1);
    }
  }

  lemma FirstFileIs(toc: seq<Index>, out: seq<Index>, names: seq<string>, more: seq<string>, t: Track, number: nat,
                    shares: bool)
    requires LaidFor(out, number, FindFile(names, t.file)) && forall i :: 0 <= i < |toc| ==> toc[i].track < number
    requires toc != [] ==>
               toc[0].fileIndex < |more| && (FindFile(names, t.file) == toc[0].fileIndex <==> more[toc[0].fileIndex] == t.file)
    requires shares == (number > 1 && toc != [] && FindFile(names, t.file) == toc[0].fileIndex)
    requires number == 1 ==> toc == []
    ensures InFirstFile(toc + out, more, t, number) == shares
  {
    hide FindFile;
    if toc != [] {
      assert (toc + out)[0] == toc[0];
    } else if out != [] {
      assert (toc + out)[0] == out[0];
    }
  }

  /** The file of a track, opened if it is not yet, and the length of the track. */
  method OpenTrack(known: seq<string>, t: Track, files: Files)
    returns (names: seq<string>, fileIndex: nat, length: Option<nat>)
    ensures fileIndex == FindFile(known, t.file) && (length.Some? <==> TrackOpens(t, files))
    ensures length.Some? ==> length == TrackLength(t, files) && names == Added(known, t.file)
  {
    hide TrackLength;
    names, fileIndex := known, FindFile(known, t.file);
    if fileIndex == |known| {
      if files(t.file).None? {
        return names, fileIndex, None;
      }
      names := known + [t.file];
    }
    length := if files(t.file).None? then None else TrackLength(t, files);
  }

  /** The track loop; `total` is the disc position counted without bound. */
  method LayTracks(ghost parsed: seq<Track>, tracks: seq<Track>, files: Files)
    returns (r: Option<(seq<Index>, seq<DiscTrack>, nat)>, ghost total: nat, ghost names: seq<string>, ghost gaps: seq<nat>)
    requires Started(parsed) && SetLengths(parsed, |parsed|) == Some(tracks) && AllComplete(tracks)
    ensures r.Some? ==> Chained(r.value.0, 0, total) && r.value.2 == total % WORD_RANGE
    ensures r.Some? ==> |r.value.1| == LaidFrom(tracks, 1) && Begun(tracks, files, r.value.0, r.value.1)
    ensures r.Some? ==> Standing(tracks, files, names, r.value.0, r.value.1, gaps, total)
    ensures var n := LaidFrom(tracks, 1);
            && (r.Some? <==> n > 0 && FirstOpen(tracks, files, n))
            && (r.Some? ==> TotalTrue(tracks, files, n, total) && (r.value.0 == [] <==> FirstEmpty(tracks, files, n)))
    ensures r.Some? && SingleFile(parsed, files) ==>
              FileCover(r.value.0, parsed[0].First().ToLba(), CoveredUpTo(parsed, |parsed|, files))
  {
    hide Chained, FileCover, Complete, WellFormed, SetLengths, FindIndex, TrackLength, CoveredUpTo, SingleFile,
         LastFrom,
         IndexTrue, PregapLength, TrackFrames, TotalTrue, FindTrackFrom, CoverSoFar, FirstOpen, FirstEmpty, LaidFrom, Started,
         Position.ToLba, Track.First, Track.GetIndex, Begun, Standing, Ready, NextLaid, LaidFor, GapIs, FindFile, Added,
         BodyFrames, TrackOpens;
    var toc: seq<Index>, discTracks: seq<DiscTrack>, disc: nat, known: seq<string> := [], [], 0, [];
    var number := 1;
    total, names, gaps := 0, [], [];
    LayStart(parsed, tracks, files);
    NothingStanding(tracks, files);
    while number <= 99 && FindTrack(tracks, number).Some?
      invariant 1 <= number <= 100 && Chained(toc, 0, total) && disc == total % WORD_RANGE
      invariant LaidFrom(tracks, 1) == LaidFrom(tracks, number)
      invariant FirstOpen(tracks, files, number - 1) && TotalTrue(tracks, files, number - 1, total)
      invariant toc == [] <==> FirstEmpty(tracks, files, number - 1)
      invariant |discTracks| == number - 1 && (number == 1 ==> toc == [] && disc == total == 0)
      invariant number > 1 ==> Begun(tracks, files, toc, discTracks)
      invariant names == known && Standing(tracks, files, known, toc, discTracks, gaps, total)
      invariant SingleFile(parsed, files) ==> CoverSoFar(parsed, files, toc, number - 1)
      decreases 100 - number
    {
      var t := tracks[FindTrack(tracks, number).value];
      LaidNext(tracks, number);
      NotOpen(tracks, files, number, LaidFrom(tracks, 1));
      var fileIndex, length;
      known, fileIndex, length := OpenTrack(known, t, files);
      if length.None? {
        return None, total, names, gaps;
      }
      var sharesFirstFile := number > 1 && toc != [] && fileIndex == toc[0].fileIndex;
      var likelyAudio := FindTrack(tracks, 1).Some? && tracks[FindTrack(tracks, 1).value].mode == Audio;
      var out, track, next;
      ghost var to, gap;
      out, track, next, to, gap := LayTrack(t, number, fileIndex, sharesFirstFile, likelyAudio, length.value, total, disc, |toc|);
      Advanced(tracks, files, names, toc, discTracks, gaps, total, out, track, gap, to, sharesFirstFile);
      gaps := gaps + [gap];
      names := known;
      ChainAppend(toc, out, 0, total, to);
      TotalNext(tracks, files, number - 1, total, sharesFirstFile, likelyAudio);
      EmptyNext(tracks, files, number, sharesFirstFile, likelyAudio, toc, out, total, to);
      if SingleFile(parsed, files) {
        CoverNext(parsed, tracks, files, toc, out, number, t, length.value);
      }
      BegunThen(tracks, files, toc, discTracks, out, track);
      toc, discTracks, disc, total, number := toc + out, discTracks + [track], next, to, number + 1;
    }
    LaidNext(tracks, number);
    if SingleFile(parsed, files) {
      CoverAll(parsed, tracks, files, toc, number);
    }
    if number == 1 {
      return None, total, names, gaps;
    }
    r := Some((toc, discTracks, disc));
  }

  lemma LayStart(parsed: seq<Track>, tracks: seq<Track>, files: Files)
    requires AllComplete(tracks)
    ensures Chained([], 0, 0) && (SingleFile(parsed, files) ==> CoverSoFar(parsed, files, [], 0))
    ensures FirstOpen(tracks, files, 0) && FirstEmpty(tracks, files, 0) && TotalTrue(tracks, files, 0, 0)
  {
    hide FindIndex;
  }

  lemma NotOpen(tracks: seq<Track>, files: Files, number: nat, n: nat)
    requires 1 <= number <= n && FindTrack(tracks, number).Some?
    ensures !TrackOpens(Nth(tracks, number), files) ==> !FirstOpen(tracks, files, n)
    ensures FirstOpen(tracks, files, number - 1) && TrackOpens(Nth(tracks, number), files) ==>
              FirstOpen(tracks, files, number)
  {
    hide FindTrackFrom, TrackOpens;
  }

  /** As long as nothing has been laid, no track shares a file with what has been laid. */
  lemma EmptyNext(tracks: seq<Track>, files: Files, number: nat, sharesFirstFile: bool, likelyAudio: bool,
                  toc: seq<Index>, out: seq<Index>, total: nat, to: nat)
    requires number >= 1 && AllComplete(tracks) && FirstOpen(tracks, files, number - 1)
    requires FirstOpen(tracks, files, number)
    requires likelyAudio == LikelyAudio(tracks) && (toc == [] ==> !sharesFirstFile)
    requires toc == [] <==> FirstEmpty(tracks, files, number - 1)
    requires var t := Nth(tracks, number);
             && to == total + TrackFrames(t, number, sharesFirstFile, likelyAudio, TrackLength(t, files).value)
             && (out == [] <==> t.GetIndex(0).None? && to == total)
    ensures toc + out == [] <==> FirstEmpty(tracks, files, number)
  {
    hide FindTrackFrom, TrackFrames, FindIndex, Complete, TrackLength;
  }

  function FindFile(known: seq<string>, file: string): (k: nat)
    ensures k <= |known| && (k < |known| ==> known[k] == file) && forall j :: 0 <= j < k ==> known[j] != file
  {
    if known == [] || known[0] == file then 0 else 1 + FindFile(known[1..], file)
  }

  ghost predicate CoverSoFar(parsed: seq<Track>, files: Files, toc: seq<Index>, k: nat) {
    && SingleFile(parsed, files) && k <= |parsed|
    && FileCover(toc, parsed[0].First().ToLba(), CoveredUpTo(parsed, k, files))
  }

  lemma CoverNext(parsed: seq<Track>, tracks: seq<Track>, files: Files, toc: seq<Index>, out: seq<Index>, number: nat,
                  t: Track, length: nat)
    requires SingleFile(parsed, files) && Started(parsed) && SetLengths(parsed, |parsed|) == Some(tracks)
    requires number >= 1 && CoverSoFar(parsed, files, toc, number - 1)
    requires FindTrack(tracks, number).Some? && t == tracks[FindTrack(tracks, number).value]
    requires TrackOpens(t, files) && TrackLength(t, files) == Some(length)
    requires Complete(t)
    requires WellFormed(t) ==>
               var stop, end := LastFrom(t, 1).ToLba(), (t.start.ToLba() + length) % WORD_RANGE;
               FileCover(out, t.First().ToLba(), if end > stop then end else stop)
    ensures CoverSoFar(parsed, files, toc + out, number)
  {
    hide FindIndex, SetLengths, TrackLength, FileCover, BytesPerSector, Complete, WellFormed, LastFrom, CoveredUpTo,
         Position.ToLba, FindTrackFrom;
    TrackKept(parsed, tracks, number);
    var k := number - 1;
    CoveredParts(parsed, t, files, k);
    SingleFileLength(parsed, files, k);
    SameLast(t, parsed[k], 1);
    var end := CoveredUpTo(parsed, number, files);
    assert (t.start.ToLba() + length) % WORD_RANGE == end;
    CoverAppend(toc, out, parsed[0].First().ToLba(), CoveredUpTo(parsed, k, files), end);
  }

  lemma TrackKept(parsed: seq<Track>, tracks: seq<Track>, number: nat)
    requires InOrder(parsed) && Started(parsed) && SetLengths(parsed, |parsed|) == Some(tracks)
    requires number >= 1 && FindTrack(tracks, number).Some?
    ensures number <= |parsed| && FindTrack(tracks, number) == Some(number - 1)
    ensures var t := tracks[number - 1]; t == parsed[number - 1].(length := t.length)
  {
    hide FindIndex, SetLengths;
  }

  /** A track with its length is still as complete, and begins where it did. */
  lemma CoveredParts(parsed: seq<Track>, t: Track, files: Files, k: nat)
    requires SingleFile(parsed, files) && k < |parsed| && t == parsed[k].(length := t.length)
    ensures Numbered(t) && Numbered(parsed[k]) && WellFormed(t) && t.GetIndex(1).Some?
    ensures CoveredUpTo(parsed, k, files) == t.First().ToLba()
  {
    hide FindIndex, Position.ToLba;
    SameComplete(parsed[k], t);
    assert t.GetIndex(0) == parsed[k].GetIndex(0);
  }

  lemma {:induction false} SameLast(t: Track, u: Track, j: nat)
    requires Numbered(t) && Numbered(u) && t.indices == u.indices && t.GetIndex(j).Some?
    ensures LastFrom(t, j) == LastFrom(u, j)
    decreases 100 - j
  {
    IndexBound(t, j);
    if t.GetIndex(j + 1).Some? {
      SameLast(t, u, j + 1);
    }
  }

  lemma CoverAll(parsed: seq<Track>, tracks: seq<Track>, files: Files, toc: seq<Index>, number: nat)
    requires SingleFile(parsed, files) && Started(parsed) && SetLengths(parsed, |parsed|) == Some(tracks)
    requires 1 <= number <= 100 && (number == 100 || FindTrack(tracks, number).None?)
    requires CoverSoFar(parsed, files, toc, number - 1)
    ensures FileCover(toc, parsed[0].First().ToLba(), CoveredUpTo(parsed, |parsed|, files))
  {
    hide FindIndex, SetLengths, FileCover, CoveredUpTo;
    TrackFound(parsed, tracks, number);
  }

  lemma TrackFound(parsed: seq<Track>, tracks: seq<Track>, number: nat)
    requires Started(parsed) && SetLengths(parsed, |parsed|) == Some(tracks) && InOrder(parsed) && number >= 1
    ensures number <= |parsed| ==> FindTrack(tracks, number).Some?
  {
    hide FindIndex, SetLengths;
    if number <= |parsed| {
      assert tracks[number - 1].number == parsed[number - 1].number == number;
    }
  }

  // ---------------------------------------------------------------- a sheet that does not tile

  /** INDEX 00 00:60:10 and INDEX 01 01:00:00. */
  const SIXTY_SECONDS: Track :=
    Track(1, "disc.bin", [(0, Position(0, 60, 10)), (1, Position(1, 0, 0))], Mode1Raw, Position(1, 0, 0), None, None)

  /** A file of 5000 raw sectors. */
  function RawFile(name: string): Option<nat> { Some(5000 * RAW_SECTOR_SIZE) }

  lemma SixtySecondsFrames()
    ensures Complete(SIXTY_SECONDS) && PregapBackwards(SIXTY_SECONDS)
    ensures TrackLength(SIXTY_SECONDS, RawFile) == Some(500)
    ensures TrackFrames(SIXTY_SECONDS, 1, false, false, 500) == WORD_RANGE + 490
  {
    var t := SIXTY_SECONDS;
    assert t.indices[1..] == [(1, Position(1, 0, 0))] && t.indices[1..][1..] == [];
    assert t.GetIndex(0) == Some(Position(0, 60, 10)) && t.GetIndex(1) == Some(Position(1, 0, 0)) && t.GetIndex(2) == None;
    assert PregapLength(t, 1, false, false) == WORD_RANGE - 10;
    assert BodyFrames(t, 1, 5000) == 500;
  }

  /** The sheet opens, but the indices overlap: its positions count 490 frames, its lengths 2^32 more. */
  method SixtySecondSheet() returns (image: CDImage, lbaCount: nat)
    ensures image.indices != [] && !Tiles(image.indices[..|image.indices| - 1], 0, lbaCount)
    ensures lbaCount == Frames(image.indices[..|image.indices| - 1]) % WORD_RANGE
            && Frames(image.indices[..|image.indices| - 1]) >= WORD_RANGE
  {
    SixtySecondsFrames();
    hide Complete, PregapBackwards, TrackFrames, FindIndex, TrackLength, BytesPerSector, Tiles, FileCover, Chained;
    var sheet := [SIXTY_SECONDS];
    SixtySecondsAccepted();
    var r;
    ghost var names, gaps;
    r, names, gaps := OpenAndParse(sheet, RawFile);
    image, lbaCount := r.value.0, r.value.1;
  }

  lemma SixtySecondsAccepted()
    ensures var sheet := [SIXTY_SECONDS];
            && AllComplete(sheet) && Started(sheet) && SetLengths(sheet, 1) == Some(sheet) && LaidFrom(sheet, 1) == 1
            && Accepted(sheet, RawFile) && SmallFiles(sheet, RawFile)
            && SecondLong(sheet, RawFile, 1) && !NoneBackwards(sheet, 1)
  {
    SixtySecondsFrames();
    hide Complete, PregapBackwards, TrackFrames, TrackLength;
    var sheet := [SIXTY_SECONDS];
    CompleteStarted(sheet);
    assert SetLengths(sheet, 0) == Some(sheet) && SetLength(sheet, 0) == Some(sheet);
    assert FindTrack(sheet, 1) == Some(0) && FindTrack(sheet, 2) == None && Nth(sheet, 1) == SIXTY_SECONDS;
    assert LaidFrom(sheet, 2) == 1;
    assert SIXTY_SECONDS.GetIndex(0) == Some(Position(0, 60, 10));
  }

  // ---------------------------------------------------------------- a sheet that is refused at the end

  /** INDEX 00 and INDEX 01 at 00:00:00, and a second track from 00:00:00 on in the same file. */
  const NO_FRAMES: Track :=
    Track(1, "disc.bin", [(0, Position(0, 0, 0)), (1, Position(0, 0, 0))], Mode1Raw, Position(0, 0, 0), None, None)

  const ALL_FRAMES: Track := Track(2, "disc.bin", [(1, Position(0, 0, 0))], Audio, Position(0, 0, 0), None, None)

  /** The tracks with the length that track 2 gives to track 1. */
  function NoFramesTracks(): seq<Track> { [NO_FRAMES.(length := Some(Position(0, 0, 0))), ALL_FRAMES] }

  lemma NoFramesComplete()
    ensures Complete(NO_FRAMES) && NO_FRAMES.GetIndex(0) == NO_FRAMES.GetIndex(1) == Some(Position(0, 0, 0))
    ensures Complete(ALL_FRAMES) && ALL_FRAMES.GetIndex(0) == None && ALL_FRAMES.GetIndex(1) == Some(Position(0, 0, 0))
  {
    assert NO_FRAMES.indices[1..] == [(1, Position(0, 0, 0))] && NO_FRAMES.indices[1..][1..] == [];
    assert ALL_FRAMES.indices[1..] == [];
  }

  lemma NoFramesLengths()
    ensures var sheet := [NO_FRAMES, ALL_FRAMES];
            AllComplete(sheet) && Started(sheet) && SetLengths(sheet, 2) == Some(NoFramesTracks()) && AllComplete(NoFramesTracks())
  {
    NoFramesComplete();
    hide FindIndex, Complete;
    var sheet := [NO_FRAMES, ALL_FRAMES];
    CompleteStarted(sheet);
    assert LengthUpTo(NO_FRAMES, ALL_FRAMES) == Position(0, 0, 0);
    assert SetLengths(sheet, 0) == Some(sheet) && SetLength(sheet, 0) == Some(sheet) && SetLengths(sheet, 1) == Some(sheet);
    assert FindTrack(sheet, 1) == Some(0) && sheet[0].file == sheet[1].file && !sheet[1].start.Less(sheet[0].start);
    assert sheet[0 := sheet[0].(length := Some(Position(0, 0, 0)))] == NoFramesTracks();
    assert SetLength(sheet, 1) == Some(NoFramesTracks());
    SameComplete(NO_FRAMES, NoFramesTracks()[0]);
  }

  lemma NoFramesNumbers()
    ensures var tracks := NoFramesTracks();
            && FindTrack(tracks, 1) == Some(0) && FindTrack(tracks, 2) == Some(1) && FindTrack(tracks, 3) == None
            && LaidFrom(tracks, 1) == 2
            && TrackLength(tracks[0], RawFile) == Some(0) && TrackLength(tracks[1], RawFile) == Some(5000)
  {
    var tracks := NoFramesTracks();
    assert FindTrackFrom(tracks, 3, 2) == None && FindTrackFrom(tracks, 3, 1) == None;
    assert LaidFrom(tracks, 3) == 2 && LaidFrom(tracks, 2) == 2;
  }

  /** Everything is laid, but track 1 has no frame. */
  lemma NoFramesRefused()
    ensures AllComplete(NoFramesTracks()) && Laid(NoFramesTracks(), RawFile) && !Accepted(NoFramesTracks(), RawFile)
  {
    NoFramesLengths();
    NoFramesComplete();
    NoFramesNumbers();
    hide FindIndex, Complete, TrackFrames, PregapLength, FindTrackFrom, LaidFrom, TrackLength;
    var tracks := NoFramesTracks();
    assert tracks[0].GetIndex(0) == tracks[0].GetIndex(1) == Some(Position(0, 0, 0));
    NoPregap(tracks[0], LikelyAudio(tracks));
    assert Nth(tracks, 1) == tracks[0] && Nth(tracks, 2) == tracks[1];
  }

  lemma NoPregap(t: Track, likelyAudio: bool)
    requires Complete(t) && t.GetIndex(0) == t.GetIndex(1) && t.GetIndex(0).Some?
    ensures PregapLength(t, 1, false, likelyAudio) == 0
  {
    hide FindIndex;
  }

  /** All tracks of this sheet are laid, and there is a disc of 5000 frames; but track 1 has none, so the
      final seek fails, and the sheet with it. */
  method NoFramesSheet() returns (r: Option<(CDImage, nat)>)
    ensures r.None?
  {
    NoFramesLengths();
    NoFramesRefused();
    hide Complete, FindIndex, Accepted, Laid, Tiles, FileCover, Chained, SetLengths, NoFramesTracks;
    ghost var names, gaps;
    r, names, gaps := OpenAndParse([NO_FRAMES, ALL_FRAMES], RawFile);
  }

  // ---------------------------------------------------------------- two seconds, or none

  /** INDEX 01 00:00:00, and INDEX 01 03:00:00 in the same file, with neither INDEX 00 nor PREGAP. */
  function FirstTrack(mode: TrackMode): Track {
    Track(1, "disc.bin", [(1, Position(0, 0, 0))], mode, Position(0, 0, 0), None, None)
  }

  const SECOND_TRACK: Track := Track(2, "disc.bin", [(1, Position(3, 0, 0))], Audio, Position(3, 0, 0), None, None)

  /** A file of 20000 raw sectors. */
  function LongFile(name: string): Option<nat> { Some(20000 * RAW_SECTOR_SIZE) }

  /** The tracks with the length that track 2 gives to track 1. */
  function TwoTracks(mode: TrackMode): seq<Track> {
    [FirstTrack(mode).(length := Some(Position(3, 0, 0))), SECOND_TRACK]
  }

  lemma TwoTracksComplete(mode: TrackMode)
    ensures Complete(FirstTrack(mode)) && FirstTrack(mode).GetIndex(0) == None
    ensures FirstTrack(mode).GetIndex(1) == Some(Position(0, 0, 0)) && FirstTrack(mode).GetIndex(2) == None
    ensures Complete(SECOND_TRACK) && SECOND_TRACK.GetIndex(0) == None
    ensures SECOND_TRACK.GetIndex(1) == Some(Position(3, 0, 0)) && SECOND_TRACK.GetIndex(2) == None
  {
    assert FirstTrack(mode).indices[1..] == [] && SECOND_TRACK.indices[1..] == [];
  }

  lemma TwoTracksLengths(mode: TrackMode)
    ensures var sheet := [FirstTrack(mode), SECOND_TRACK];
            AllComplete(sheet) && Started(sheet) && SetLengths(sheet, 2) == Some(TwoTracks(mode)) && AllComplete(TwoTracks(mode))
  {
    TwoTracksComplete(mode);
    hide FindIndex, Complete;
    var sheet := [FirstTrack(mode), SECOND_TRACK];
    CompleteStarted(sheet);
    assert LengthUpTo(FirstTrack(mode), SECOND_TRACK) == Position(3, 0, 0);
    assert SetLengths(sheet, 0) == Some(sheet) && SetLength(sheet, 0) == Some(sheet) && SetLengths(sheet, 1) == Some(sheet);
    assert FindTrack(sheet, 1) == Some(0) && sheet[0].file == sheet[1].file && !sheet[1].start.Less(sheet[0].start);
    assert sheet[0 := sheet[0].(length := Some(Position(3, 0, 0)))] == TwoTracks(mode);
    assert SetLength(sheet, 1) == Some(TwoTracks(mode));
    SameComplete(FirstTrack(mode), TwoTracks(mode)[0]);
  }

  lemma TwoTracksNumbers(mode: TrackMode)
    requires BytesPerSector(mode) == RAW_SECTOR_SIZE
    ensures var tracks := TwoTracks(mode);
            && FindTrack(tracks, 1) == Some(0) && FindTrack(tracks, 2) == Some(1) && FindTrack(tracks, 3) == None
            && LaidFrom(tracks, 1) == 2
            && TrackLength(tracks[0], LongFile) == Some(13500) && TrackLength(tracks[1], LongFile) == Some(6500)
  {
    var tracks := TwoTracks(mode);
    assert FindTrackFrom(tracks, 3, 2) == None && FindTrackFrom(tracks, 3, 1) == None;
    assert LaidFrom(tracks, 3) == 2 && LaidFrom(tracks, 2) == 2;
  }

  /** A first track of 13500 frames from the start of its file, with no pregap in the sheet. */
  lemma FirstTrackFrames(t: Track, likelyAudio: bool)
    requires Complete(t) && t.GetIndex(0) == t.GetIndex(2) == None && t.GetIndex(1) == Some(Position(0, 0, 0))
    requires t.start == Position(0, 0, 0) && t.zeroPregap == None
    ensures PregapLength(t, 1, false, likelyAudio) == 150 && BodyFrames(t, 1, 13500) == 13500
  {
    hide FindIndex;
  }

  lemma TwoTracksOpen(mode: TrackMode)
    requires BytesPerSector(mode) == RAW_SECTOR_SIZE
    ensures var tracks := TwoTracks(mode);
            && Ready(tracks, LongFile, 2) && Ready(tracks, LongFile, 1)
            && Nth(tracks, 1) == tracks[0] && Nth(tracks, 2) == tracks[1] && Complete(tracks[0])
  {
    TwoTracksLengths(mode);
    TwoTracksNumbers(mode);
    hide FindIndex, Complete, FindTrackFrom, LaidFrom, TrackLength;
    var tracks := TwoTracks(mode);
    assert Nth(tracks, 1) == tracks[0] && Nth(tracks, 2) == tracks[1];
  }

  lemma TwoTracksFrames(mode: TrackMode)
    requires BytesPerSector(mode) == RAW_SECTOR_SIZE
    ensures Accepted(TwoTracks(mode), LongFile)
    ensures Ready(TwoTracks(mode), LongFile, 1) && OwnFrames(TwoTracks(mode), LongFile, 1) == 13500
  {
    TwoTracksComplete(mode);
    TwoTracksNumbers(mode);
    TwoTracksOpen(mode);
    var tracks := TwoTracks(mode);
    assert tracks[0].GetIndex(0) == FirstTrack(mode).GetIndex(0) && tracks[0].GetIndex(1) == FirstTrack(mode).GetIndex(1);
    assert tracks[0].GetIndex(2) == FirstTrack(mode).GetIndex(2) && tracks[0].start == Position(0, 0, 0);
    FirstTrackFrames(tracks[0], LikelyAudio(tracks));
    hide FindIndex, Complete, FindTrackFrom, LaidFrom, TrackLength, PregapLength, BodyFrames, TwoTracks, Track.GetIndex;
    assert TrackFrames(tracks[0], 1, false, LikelyAudio(tracks), 13500) == 13650;
  }

  /** If track 1 is data, two seconds are added before track 2; if it is audio, none are. */
  method TwoTrackSheet(mode: TrackMode) returns (image: CDImage)
    requires BytesPerSector(mode) == RAW_SECTOR_SIZE
    ensures |image.tracks| == 2 && image.tracks[0].startLba == 150
    ensures image.tracks[1].startLba == if mode == Audio then 13650 else 13800
  {
    TwoTracksLengths(mode);
    TwoTracksComplete(mode);
    TwoTracksNumbers(mode);
    TwoTracksFrames(mode);
    hide Complete, FindIndex, Accepted, Tiles, FileCover, Chained, SetLengths, FindTrackFrom, LaidFrom, TrackLength,
         TwoTracks, OwnFrames, Ready, AllPlaced;
    var r;
    ghost var names, gaps;
    r, names, gaps := OpenAndParse([FirstTrack(mode), SECOND_TRACK], LongFile);
    image := r.value.0;
    TwoTracksPlaced(mode, names, image.indices[..|image.indices| - 1], image.tracks, gaps);
  }

  lemma TwoTracksPlaced(mode: TrackMode, names: seq<string>, toc: seq<Index>, laid: seq<DiscTrack>, gaps: seq<nat>)
    requires BytesPerSector(mode) == RAW_SECTOR_SIZE
    requires |laid| == 2 && AllPlaced(TwoTracks(mode), LongFile, names, toc, laid, gaps)
    ensures laid[0].startLba == 150 && laid[1].startLba == if mode == Audio then 13650 else 13800
  {
    var tracks := TwoTracks(mode);
    TwoTracksComplete(mode);
    TwoTracksNumbers(mode);
    TwoTracksFrames(mode);
    hide Complete, FindIndex, Accepted, FindTrackFrom, LaidFrom, TrackLength, OwnFrames, Ready;
    assert Nth(tracks, 1).GetIndex(0) == None && Nth(tracks, 1).zeroPregap == None;
    assert Nth(tracks, 2).GetIndex(0) == None && Nth(tracks, 2).zeroPregap == None;
    assert PlacedAt(tracks, LongFile, names, toc, laid[0], gaps, 0);
    assert gaps[0] == 150;
    assert FramesUpTo(tracks, LongFile, gaps, 1) == 13650;
    assert PlacedAt(tracks, LongFile, names, toc, laid[1], gaps, 1);
  }
}
