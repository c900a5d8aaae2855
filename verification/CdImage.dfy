/** Disc positions, the table of contents, and sequential reading over it (src/common/cd_image.h,
    src/common/cd_image.cpp:100-228 and 298-377). */
module CdImage {
  import opened Arithmetic
  import opened Common

  const FRAMES_PER_SECOND: nat := 75
  const FRAMES_PER_MINUTE: nat := 4500
  const RAW_SECTOR_SIZE: nat := 2352
  const LEAD_OUT_SECTOR_COUNT: nat := 6750
  const LEAD_OUT_TRACK_NUMBER: nat := 0xAA
  const MSF_RANGE: nat := 256 * FRAMES_PER_MINUTE
  const WORD_RANGE: nat := 0x1_0000_0000

  type Sector = s: seq<Byte> | |s| == RAW_SECTOR_SIZE witness seq(RAW_SECTOR_SIZE, _ => 0)

  // ---------------------------------------------------------------- positions

  /** Minute, second and frame, a byte each. */
  datatype Position = Position(minute: Byte, second: Byte, frame: Byte) {
    predicate WellFormed() { second < 60 && frame < 75 }

    /** What the cue parser checks. */
    predicate InParserBounds() { second <= 60 && frame <= 75 }

    function ToLba(): nat { minute * FRAMES_PER_MINUTE + second * FRAMES_PER_SECOND + frame }

    /** Comparison as tuples. */
    predicate Less(p: Position) {
      minute < p.minute || (minute == p.minute && (second < p.second || (second == p.second && frame < p.frame)))
    }
  }

  /** The minute is truncated to a byte. */
  function FromLba(lba: nat): Position {
    Position(lba / FRAMES_PER_SECOND / 60 % 256, lba / FRAMES_PER_SECOND % 60, lba % FRAMES_PER_SECOND)
  }

  /** Converting back and forth loses only whole multiples of 256 minutes. */
  lemma LbaRoundTrip(lba: nat)
    ensures FromLba(lba).WellFormed() && FromLba(lba).ToLba() == lba % MSF_RANGE
  {
    var seconds := lba / 75;
    var minutes := seconds / 60;
    assert lba == 75 * seconds + lba % 75 && seconds == 60 * minutes + seconds % 60;
    assert minutes == 256 * (minutes / 256) + minutes % 256;
    DivMod(lba, MSF_RANGE, minutes / 256, FromLba(lba).ToLba());
  }

  /** Exactly the well-formed positions survive the trip through a frame number. */
  lemma PositionRoundTrip(p: Position)
    ensures FromLba(p.ToLba()) == p <==> p.WellFormed()
  {
    LbaRoundTrip(p.ToLba());
    if p.WellFormed() {
      var l := p.ToLba();
      assert l == 75 * (60 * p.minute + p.second) + p.frame;
      assert l / 75 == 60 * p.minute + p.second;
    }
  }

  /** On well-formed positions the tuple order is the order of frame numbers. */
  lemma OrderIsLbaOrder(p: Position, q: Position)
    requires p.WellFormed() && q.WellFormed()
    ensures p.Less(q) <==> p.ToLba() < q.ToLba()
  {
  }

  /** p compares to q as its frame number does. */
  predicate OrdersAsFrames(p: Position, q: Position) {
    (p.Less(q) <==> p.ToLba() < q.ToLba()) && (q.Less(p) <==> q.ToLba() < p.ToLba())
  }

  /** A position compares to every well-formed one as its frame number does exactly if it is well-formed
      itself, or so late in the last minute that no well-formed position follows it. */
  lemma OrdersExactly(p: Position)
    ensures (forall q: Position :: q.WellFormed() ==> OrdersAsFrames(p, q))
            <==> p.WellFormed() || (p.minute == 255 && p.second >= 59)
  {
    if !p.WellFormed() && !(p.minute == 255 && p.second >= 59) {
      var q := if p.second < 59 then Position(p.minute, p.second + 1, 0) else Position(p.minute + 1, 0, 0);
      assert q.WellFormed() && !OrdersAsFrames(p, q);
    }
  }

  /** 60 seconds and a bit is later than one minute, but compares as earlier. */
  lemma OrderFailsOnSixtySeconds()
    ensures var p, q := Position(0, 60, 10), Position(1, 0, 0);
            p.Less(q) && p.ToLba() > q.ToLba() && !OrdersAsFrames(p, q)
  {
  }

  /** p stands at 60 seconds, and q at the next full minute with fewer frames. */
  predicate SixtySeconds(p: Position, q: Position) {
    p.second == 60 && q.minute == p.minute + 1 && q.second == 0 && q.frame < p.frame
  }

  /** Among the positions that the cue parser lets pass, this is the only way in which a position may be
      later than one that it does not follow. */
  lemma OrderFailsExactly(p: Position, q: Position)
    requires p.InParserBounds() && q.InParserBounds() && !q.Less(p)
    ensures p.ToLba() > q.ToLba() <==> SixtySeconds(p, q)
    ensures p.ToLba() <= q.ToLba() + 75
  {
  }

  // ---------------------------------------------------------------- table of contents

  datatype TrackMode = Audio | Mode1 | Mode1Raw | Mode2 | Mode2Form1 | Mode2Form2 | Mode2FormMix | Mode2Raw

  function BytesPerSector(m: TrackMode): (n: nat)
    ensures 0 < n <= RAW_SECTOR_SIZE
  {
    match m
    case Audio => 2352
    case Mode1 => 2048
    case Mode1Raw => 2352
    case Mode2 => 2336
    case Mode2Form1 => 2048
    case Mode2Form2 => 2324
    case Mode2FormMix => 2332
    case Mode2Raw => 2352
  }

  /** CDImage::Track. Start and length are 32 bits wide; the length counts the pregap, the start does not. */
  datatype DiscTrack = DiscTrack(number: nat, startLba: nat, firstIndex: nat, length: nat, mode: TrackMode)

  /** CDImage::Index. A sector size of 0 marks an index without file data. Positions are 32 bits wide, so
      a position before the start of the track has wrapped around. */
  datatype Index = Index(
    startOnDisc: nat, length: nat, track: nat, index: nat, startInTrack: nat, isPregap: bool,
    fileIndex: nat, fileOffset: nat, sectorSize: nat)

  /** The indices follow one another from disc position lo to hi, without gap or overlap. */
  ghost predicate Tiles(toc: seq<Index>, lo: nat, hi: nat) {
    if toc == [] then lo == hi
    else
      var last := toc[|toc| - 1];
      Tiles(toc[..|toc| - 1], lo, last.startOnDisc) && last.startOnDisc + last.length == hi
  }

  lemma {:induction false} TilesAppend(a: seq<Index>, b: seq<Index>, lo: nat, mid: nat, hi: nat)
    requires Tiles(a, lo, mid) && Tiles(b, mid, hi)
    ensures Tiles(a + b, lo, hi)
    decreases |b|
  {
    if b == [] {
      assert a + b == a;
    } else {
      var n := |b| - 1;
      TilesAppend(a, b[..n], lo, mid, b[n].startOnDisc);
      assert (a + b)[..|a + b| - 1] == a + b[..n];
    }
  }

  lemma TilesOne(i: Index)
    ensures Tiles([i], i.startOnDisc, i.startOnDisc + i.length)
  {
    assert [i][..0] == [];
  }

  lemma {:induction false} TilesSplit(toc: seq<Index>, lo: nat, hi: nat, k: nat)
    requires Tiles(toc, lo, hi) && k < |toc|
    ensures Tiles(toc[..k], lo, toc[k].startOnDisc)
    ensures lo <= toc[k].startOnDisc && toc[k].startOnDisc + toc[k].length <= hi
    ensures k + 1 < |toc| ==> toc[k + 1].startOnDisc == toc[k].startOnDisc + toc[k].length
    decreases |toc|
  {
    var n := |toc| - 1;
    TilesOrdered(toc, lo, hi);
    if k < n {
      TilesSplit(toc[..n], lo, toc[n].startOnDisc, k);
      assert toc[..n][..k] == toc[..k];
      if k + 1 == n {
        assert toc[..n][|toc[..n]| - 1] == toc[k];
      }
    } else {
      TilesOrdered(toc[..n], lo, toc[n].startOnDisc);
    }
  }

  lemma {:induction false} TilesOrdered(toc: seq<Index>, lo: nat, hi: nat)
    requires Tiles(toc, lo, hi)
    ensures lo <= hi
    decreases |toc|
  {
    if toc != [] {
      TilesOrdered(toc[..|toc| - 1], lo, toc[|toc| - 1].startOnDisc);
    }
  }

  predicate Contains(i: Index, lba: nat) { i.startOnDisc <= lba < i.startOnDisc + i.length }

  /** Index k contains the position, and no index before it does. */
  predicate FirstContaining(toc: seq<Index>, k: nat, lba: nat) {
    k < |toc| && Contains(toc[k], lba) && forall j :: 0 <= j < k ==> !Contains(toc[j], lba)
  }

  /** Every position of a tiled disc lies in exactly one index. */
  lemma {:induction false} OneIndex(toc: seq<Index>, lo: nat, hi: nat, lba: nat) returns (k: nat)
    requires Tiles(toc, lo, hi) && lo <= lba < hi
    ensures k < |toc| && Contains(toc[k], lba) && forall j :: 0 <= j < |toc| && Contains(toc[j], lba) ==> j == k
    decreases |toc|
  {
    k := |toc| - 1;
    if lba < toc[k].startOnDisc {
      var n := k;
      k := OneIndex(toc[..n], lo, toc[n].startOnDisc, lba);
    } else {
      forall j | 0 <= j < k
        ensures !Contains(toc[j], lba)
      {
        TilesSplit(toc[..k], lo, toc[k].startOnDisc, j);
      }
    }
  }

  lemma {:induction false} OutsideTiles(toc: seq<Index>, lo: nat, hi: nat, lba: nat)
    requires Tiles(toc, lo, hi) && !(lo <= lba < hi)
    ensures forall j :: 0 <= j < |toc| ==> !Contains(toc[j], lba)
  {
    forall j | 0 <= j < |toc|
      ensures !Contains(toc[j], lba)
    {
      TilesSplit(toc, lo, hi, j);
    }
  }

  /** On a tiled disc, the positions in some index are those before the end. */
  lemma OnTiledDisc(toc: seq<Index>, hi: nat, lba: nat)
    requires Tiles(toc, 0, hi)
    ensures (exists k :: 0 <= k < |toc| && Contains(toc[k], lba)) <==> lba < hi
  {
    if lba < hi {
      var k := OneIndex(toc, 0, hi, lba);
    } else {
      OutsideTiles(toc, 0, hi, lba);
    }
  }

  // ---------------------------------------------------------------- reading

  /** Reads one sector of an index from its file; None if that fails. */
  type Backing = (Index, nat) -> Option<Sector>

  function LeadOutSector(): Sector { seq(RAW_SECTOR_SIZE, _ => 0xAA) }

  function SilentSector(): Sector { seq(RAW_SECTOR_SIZE, _ => 0) }

  /** What sector `offset` of an index holds. */
  function SectorOf(i: Index, offset: nat, backing: Backing): Option<Sector> {
    if i.sectorSize > 0 then backing(i, offset)
    else if i.track == LEAD_OUT_TRACK_NUMBER then Some(LeadOutSector())
    else Some(SilentSector())
  }

  /** A sector of an index: of its file, if it has one; else of the lead-out, all bytes 0xAA; else of a pregap
      that is not in the file, all bytes zero. */
  predicate Holds(i: Index, offset: nat, backing: Backing, sector: Option<Sector>) {
    if i.sectorSize > 0 then sector == backing(i, offset)
    else sector.Some? && forall j :: 0 <= j < 2352 ==> sector.value[j] == if i.track == 0xAA then 0xAA else 0
  }

  lemma HeldThere(toc: seq<Index>, hi: nat, lba: nat, backing: Backing)
    requires Tiles(toc, 0, hi)
    ensures forall k :: 0 <= k < |toc| && Contains(toc[k], lba) ==>
              Holds(toc[k], lba - toc[k].startOnDisc, backing, SectorAt(toc, lba, backing))
    ensures (forall k :: 0 <= k < |toc| ==> !Contains(toc[k], lba)) ==> SectorAt(toc, lba, backing) == None
  {
    forall k | 0 <= k < |toc| && Contains(toc[k], lba)
      ensures Holds(toc[k], lba - toc[k].startOnDisc, backing, SectorAt(toc, lba, backing))
    {
      hide Tiles;
      SectorInIndex(toc, hi, k, lba, backing);
    }
  }

  /** What the disc holds at a position, by the index that contains it; None outside the disc. */
  ghost function SectorAt(toc: seq<Index>, lba: nat, backing: Backing): Option<Sector> {
    if exists k :: 0 <= k < |toc| && Contains(toc[k], lba) then
      var k :| 0 <= k < |toc| && Contains(toc[k], lba);
      SectorOf(toc[k], lba - toc[k].startOnDisc, backing)
    else None
  }

  lemma SectorInIndex(toc: seq<Index>, hi: nat, k: nat, lba: nat, backing: Backing)
    requires Tiles(toc, 0, hi) && k < |toc| && Contains(toc[k], lba)
    ensures lba < hi && SectorAt(toc, lba, backing) == SectorOf(toc[k], lba - toc[k].startOnDisc, backing)
  {
    TilesSplit(toc, 0, hi, k);
    var j := OneIndex(toc, 0, hi, lba);
  }

  lemma OnDisc(toc: seq<Index>, hi: nat, lba: nat, backing: Backing)
    requires Tiles(toc, 0, hi) && SectorAt(toc, lba, backing).Some?
    ensures lba < hi
  {
    var k :| 0 <= k < |toc| && Contains(toc[k], lba);
    TilesSplit(toc, 0, hi, k);
  }

  datatype ReadMode = DataOnly | RawSector | RawNoSync

  /** The part of a raw sector that a read mode delivers. */
  function Payload(mode: ReadMode, s: Sector): seq<Byte> {
    match mode
    case DataOnly => s[24..24 + 2048]
    case RawSector => s
    case RawNoSync => s[12..]
  }

  /** The payloads of n sectors from lba on. */
  ghost function Payloads(toc: seq<Index>, lba: nat, n: nat, mode: ReadMode, backing: Backing): seq<Byte>
    requires forall k :: lba <= k < lba + n ==> SectorAt(toc, k, backing).Some?
  {
    if n == 0 then []
    else Payloads(toc, lba, n - 1, mode, backing) + Payload(mode, SectorAt(toc, lba + n - 1, backing).value)
  }

  /** The buffer holds `size` bytes of each of n sectors, those from `skip` on. */
  ghost predicate Delivered(toc: seq<Index>, lba: nat, n: nat, backing: Backing, skip: nat, size: nat, buffer: seq<Byte>) {
    && |buffer| == n * size
    && forall k, j :: 0 <= k < n && 0 <= j < size && skip + j < RAW_SECTOR_SIZE ==>
         Slot(k, size, j) < |buffer| && SectorAt(toc, lba + k, backing).Some?
         && buffer[Slot(k, size, j)] == SectorAt(toc, lba + k, backing).value[skip + j]
  }

  function Slot(k: nat, size: nat, j: nat): nat { k * size + j }

  lemma NoneDelivered(toc: seq<Index>, lba: nat, backing: Backing)
    ensures forall skip, size :: Delivered(toc, lba, 0, backing, skip, size, [])
  {
  }

  lemma SlotInside(k: nat, n: nat, size: nat, j: nat)
    requires k <= n && j < size
    ensures k < n ==> Slot(k, size, j) < n * size
    ensures k == n ==> Slot(k, size, j) == n * size + j
  {
    if k < n {
      RowBefore(k, n, size);
      RowBefore(k + 1, n, size);
    }
  }

  lemma MoreDelivered(toc: seq<Index>, lba: nat, n: nat, backing: Backing, skip: nat, size: nat, buffer: seq<Byte>,
                      more: seq<Byte>)
    requires Delivered(toc, lba, n, backing, skip, size, buffer) && skip + size <= RAW_SECTOR_SIZE
    requires SectorAt(toc, lba + n, backing).Some? && |more| == size
    requires forall j :: 0 <= j < size ==> more[j] == SectorAt(toc, lba + n, backing).value[skip + j]
    ensures Delivered(toc, lba, n + 1, backing, skip, size, buffer + more)
  {
    hide SectorAt, Slot;
    RowBefore(n, n, size);
    forall k, j | 0 <= k < n + 1 && 0 <= j < size
      ensures Slot(k, size, j) < |buffer + more| && SectorAt(toc, lba + k, backing).Some?
      ensures (buffer + more)[Slot(k, size, j)] == SectorAt(toc, lba + k, backing).value[skip + j]
    {
      SlotInside(k, n, size, j);
      if k == n {
        assert (buffer + more)[n * size + j] == more[j];
      }
    }
  }

  lemma OneMoreDelivered(toc: seq<Index>, lba: nat, n: nat, backing: Backing, mode: ReadMode, buffer: seq<Byte>)
    requires SectorAt(toc, lba + n, backing).Some?
    ensures var more := buffer + Payload(mode, SectorAt(toc, lba + n, backing).value);
            && (mode.DataOnly? && Delivered(toc, lba, n, backing, 24, 2048, buffer) ==>
                  Delivered(toc, lba, n + 1, backing, 24, 2048, more))
            && (mode.RawSector? && Delivered(toc, lba, n, backing, 0, 2352, buffer) ==>
                  Delivered(toc, lba, n + 1, backing, 0, 2352, more))
            && (mode.RawNoSync? && Delivered(toc, lba, n, backing, 12, 2340, buffer) ==>
                  Delivered(toc, lba, n + 1, backing, 12, 2340, more))
  {
    hide SectorAt, Delivered;
    var more := Payload(mode, SectorAt(toc, lba + n, backing).value);
    if mode.DataOnly? && Delivered(toc, lba, n, backing, 24, 2048, buffer) {
      MoreDelivered(toc, lba, n, backing, 24, 2048, buffer, more);
    } else if mode.RawSector? && Delivered(toc, lba, n, backing, 0, 2352, buffer) {
      MoreDelivered(toc, lba, n, backing, 0, 2352, buffer, more);
    } else if mode.RawNoSync? && Delivered(toc, lba, n, backing, 12, 2340, buffer) {
      MoreDelivered(toc, lba, n, backing, 12, 2340, buffer, more);
    }
  }

  class CDImage {
    var indices: seq<Index>
    var tracks: seq<DiscTrack>
    var currentIndex: Option<nat>
    var positionOnDisc: nat
    var positionInIndex: nat
    ghost var end: nat

    /** The indices tile the disc up to `end`, and the position on the disc is the start of the current
        index plus the position in it. */
    ghost predicate Valid()
      reads this
    {
      && Tiles(indices, 0, end)
      && (currentIndex.Some? ==>
            && currentIndex.value < |indices|
            && positionOnDisc == indices[currentIndex.value].startOnDisc + positionInIndex
            && positionInIndex <= indices[currentIndex.value].length)
    }

    constructor (toc: seq<Index>, tracks: seq<DiscTrack>, ghost total: nat)
      ensures indices == toc && this.tracks == tracks && end == total && currentIndex == None
      ensures Tiles(toc, 0, total) ==> Valid()
    {
      indices, this.tracks, currentIndex, positionOnDisc, positionInIndex, end := toc, tracks, None, 0, 0, total;
    }

    /** AddLeadOutIndex: on a tiled disc the lead-out begins where the last index ends. */
    method AddLeadOutIndex()
      requires indices != []
      modifies this`indices, this`end
      ensures end == old(end) + LEAD_OUT_SECTOR_COUNT
      ensures |indices| == |old(indices)| + 1 && indices[..|indices| - 1] == old(indices)
      ensures var last := indices[|indices| - 1];
              last.track == LEAD_OUT_TRACK_NUMBER && last.sectorSize == 0 && last.length == LEAD_OUT_SECTOR_COUNT
              && var before := indices[|indices| - 2]; last.startOnDisc == (before.startOnDisc + before.length) % WORD_RANGE
      ensures old(Valid()) && old(end) < WORD_RANGE ==> Valid() && indices[|indices| - 1].startOnDisc == old(end)
    {
      var last := indices[|indices| - 1];
      var start := (last.startOnDisc + last.length) % WORD_RANGE;
      var leadOut := Index(start, LEAD_OUT_SECTOR_COUNT, LEAD_OUT_TRACK_NUMBER, 0, 0, false, 0, 0, 0);
      if Tiles(indices, 0, end) && end < WORD_RANGE {
        TilesOne(leadOut);
        TilesAppend(indices, [leadOut], 0, end, end + LEAD_OUT_SECTOR_COUNT);
      }
      indices := indices + [leadOut];
      end := end + LEAD_OUT_SECTOR_COUNT;
    }

    /** GetIndexForDiscPosition: the first index that contains the position. */
    method GetIndexForDiscPosition(pos: nat) returns (r: Option<nat>)
      ensures r.Some? ==> FirstContaining(indices, r.value, pos)
      ensures r.None? ==> forall j :: 0 <= j < |indices| ==> !Contains(indices[j], pos)
    {
      for k := 0 to |indices|
        invariant forall j :: 0 <= j < k ==> !Contains(indices[j], pos)
      {
        if pos >= indices[k].startOnDisc && pos - indices[k].startOnDisc < indices[k].length {
          return Some(k);
        }
      }
      r := None;
    }

    /** Seek: succeeds exactly for positions that an index contains, which on a tiled disc are those on the
        disc; a failed seek changes nothing. */
    method Seek(lba: nat) returns (ok: bool)
      requires currentIndex.Some? ==> currentIndex.value < |indices|
      modifies this`currentIndex, this`positionOnDisc, this`positionInIndex
      ensures ok <==> exists k :: 0 <= k < |indices| && Contains(indices[k], lba)
      ensures ok ==> positionOnDisc == lba && currentIndex.Some? && currentIndex.value < |indices|
                     && Contains(indices[currentIndex.value], lba)
                     && lba == indices[currentIndex.value].startOnDisc + positionInIndex
      ensures ok && old(currentIndex).None? ==> FirstContaining(indices, currentIndex.value, lba)
      ensures !ok ==> currentIndex == old(currentIndex) && positionOnDisc == old(positionOnDisc)
                      && positionInIndex == old(positionInIndex)
      ensures old(Valid()) ==> Valid() && ok == (lba < end)
    {
      if Tiles(indices, 0, end) {
        OnTiledDisc(indices, end, lba);
      }
      var k;
      if currentIndex.Some? && lba >= indices[currentIndex.value].startOnDisc
         && lba - indices[currentIndex.value].startOnDisc < indices[currentIndex.value].length {
        k := currentIndex.value;
        assert Contains(indices[k], lba);
      } else {
        var found := GetIndexForDiscPosition(lba);
        if found.None? {
          assert forall j :: 0 <= j < |indices| ==> !Contains(indices[j], lba);
          return false;
        }
        k := found.value;
      }
      currentIndex, positionOnDisc, positionInIndex := Some(k), lba, lba - indices[k].startOnDisc;
      assert 0 <= k < |indices| && Contains(indices[k], lba);
      ok := true;
    }

    /** Seek to a position in a track, counted from its start; refused from the length of the track on. */
    method SeekInTrack(number: nat, pos: Position) returns (ok: bool)
      requires currentIndex.Some? ==> currentIndex.value < |indices|
      modifies this`currentIndex, this`positionOnDisc, this`positionInIndex
      ensures ok <==> 1 <= number <= |tracks| && pos.ToLba() < tracks[number - 1].length
                      && exists k :: 0 <= k < |indices|
                                     && Contains(indices[k], (tracks[number - 1].startLba + pos.ToLba()) % WORD_RANGE)
      ensures ok ==> positionOnDisc == (tracks[number - 1].startLba + pos.ToLba()) % WORD_RANGE
                     && currentIndex.Some? && currentIndex.value < |indices|
                     && positionOnDisc == indices[currentIndex.value].startOnDisc + positionInIndex
      ensures ok && old(currentIndex).None? ==> FirstContaining(indices, currentIndex.value, positionOnDisc)
      ensures !ok ==> currentIndex == old(currentIndex) && positionOnDisc == old(positionOnDisc)
                      && positionInIndex == old(positionInIndex)
      ensures old(Valid()) ==> Valid()
    {
      if number < 1 || number > |tracks| || pos.ToLba() >= tracks[number - 1].length {
        return false;
      }
      ok := Seek((tracks[number - 1].startLba + pos.ToLba()) % WORD_RANGE);
    }

    /** ReadRawSector: delivers the sector at the current position and moves on by one; if the disc ends
        or the file read fails, the position stays. */
    method ReadRawSector(backing: Backing) returns (r: Option<Sector>)
      requires Valid() && currentIndex.Some?
      modifies this`currentIndex, this`positionOnDisc, this`positionInIndex
      ensures Valid() && currentIndex.Some?
      ensures r == SectorAt(indices, old(positionOnDisc), backing)
      ensures forall k :: 0 <= k < |indices| && Contains(indices[k], old(positionOnDisc)) ==>
                Holds(indices[k], old(positionOnDisc) - indices[k].startOnDisc, backing, r)
      ensures (forall k :: 0 <= k < |indices| ==> !Contains(indices[k], old(positionOnDisc))) ==> r == None
      ensures positionOnDisc == old(positionOnDisc) + (if r.Some? then 1 else 0)
    {
      hide Holds, LeadOutSector, SilentSector, SectorAt;
      HeldThere(indices, end, positionOnDisc, backing);
      if positionInIndex == indices[currentIndex.value].length {
        var ok := Seek(positionOnDisc);
        if !ok {
          OutsideTiles(indices, 0, end, positionOnDisc);
          return None;
        }
      }
      var index := indices[currentIndex.value];
      SectorInIndex(indices, end, currentIndex.value, positionOnDisc, backing);
      if index.sectorSize > 0 {
        r := backing(index, positionInIndex);
        if r.None? {
          var _ := Seek(positionOnDisc);
          return;
        }
      } else if index.track == LEAD_OUT_TRACK_NUMBER {
        r := Some(LeadOutSector());
      } else {
        r := Some(SilentSector());
      }
      positionOnDisc, positionInIndex := positionOnDisc + 1, positionInIndex + 1;
    }

    /** Read: as many consecutive sectors as can be read, in order. */
    method Read(mode: ReadMode, count: nat, backing: Backing) returns (n: nat, buffer: seq<Byte>)
      requires Valid() && currentIndex.Some?
      modifies this`currentIndex, this`positionOnDisc, this`positionInIndex
      ensures Valid() && currentIndex.Some? && n <= count && positionOnDisc == old(positionOnDisc) + n
      ensures forall k :: old(positionOnDisc) <= k < old(positionOnDisc) + n ==> SectorAt(indices, k, backing).Some?
      ensures n < count ==> SectorAt(indices, old(positionOnDisc) + n, backing) == None
      ensures buffer == Payloads(indices, old(positionOnDisc), n, mode, backing)
      ensures mode.DataOnly? ==> Delivered(indices, old(positionOnDisc), n, backing, 24, 2048, buffer)
      ensures mode.RawSector? ==> Delivered(indices, old(positionOnDisc), n, backing, 0, 2352, buffer)
      ensures mode.RawNoSync? ==> Delivered(indices, old(positionOnDisc), n, backing, 12, 2340, buffer)
    {
      hide Payload, SectorAt, Tiles, Delivered;
      NoneDelivered(indices, positionOnDisc, backing);
      n, buffer := 0, [];
      while n < count
        invariant Valid() && currentIndex.Some? && n <= count && positionOnDisc == old(positionOnDisc) + n
        invariant forall k :: old(positionOnDisc) <= k < old(positionOnDisc) + n ==> SectorAt(indices, k, backing).Some?
        invariant buffer == Payloads(indices, old(positionOnDisc), n, mode, backing)
        invariant mode.DataOnly? ==> Delivered(indices, old(positionOnDisc), n, backing, 24, 2048, buffer)
        invariant mode.RawSector? ==> Delivered(indices, old(positionOnDisc), n, backing, 0, 2352, buffer)
        invariant mode.RawNoSync? ==> Delivered(indices, old(positionOnDisc), n, backing, 12, 2340, buffer)
      {
        var r := ReadRawSector(backing);
        if r.None? {
          return;
        }
        OneMoreDelivered(indices, old(positionOnDisc), n, backing, mode, buffer);
        buffer := buffer + Payload(mode, r.value);
        n := n + 1;
      }
    }

    /** After Seek(l), reading delivers sectors l, l + 1, and so on, across index boundaries, empty
        indices included, into the lead-out and up to the end of the disc. */
    method SeekAndRead(lba: nat, count: nat, backing: Backing) returns (sectors: seq<Sector>)
      requires Valid()
      requires forall k :: lba <= k < lba + count ==> SectorAt(indices, k, backing).Some?
      modifies this`currentIndex, this`positionOnDisc, this`positionInIndex
      ensures Valid() && |sectors| == count
      ensures forall k :: 0 <= k < count ==> SectorAt(indices, lba + k, backing) == Some(sectors[k])
    {
      sectors := [];
      if count == 0 {
        return;
      }
      OnDisc(indices, end, lba, backing);
      var ok := Seek(lba);
      hide SectorAt, Tiles;
      for i := 0 to count
        invariant Valid() && currentIndex.Some? && |sectors| == i && positionOnDisc == lba + i
        invariant forall k :: 0 <= k < i ==> SectorAt(indices, lba + k, backing) == Some(sectors[k])
      {
        var r := ReadRawSector(backing);
        sectors := sectors + [r.value];
      }
    }
  }
}
