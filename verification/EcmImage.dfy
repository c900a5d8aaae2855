/** Random access to an ECM image (src/common/cd_image_ecm.cpp:257-350, 411-538): the chunk map that
    Open builds, and the buffer of decoded chunks that sector reads are served from. */
module EcmImage {
  import opened Bits
  import Common
  import opened EccEdc
  import opened SectorCodec

  datatype Result<T> = Ok(value: T) | Err

  /** An entry of m_data_map: `size` disc bytes from `start`, stored in the file at `fileOffset`. */
  datatype Chunk = Chunk(start: nat, fileOffset: nat, size: nat, kind: SectorType) {
    predicate Fits() { 0 < size <= RAW_SECTOR_SIZE && (!kind.Raw? ==> size == ChunkSize(kind)) }

    function Stored(): nat { if kind.Raw? then size else SectorSize(kind) }

    function End(): nat { start + size }
  }

  /** The chunks follow one another on the disc, from its first byte on. */
  ghost predicate Tiled(m: seq<Chunk>) {
    && (forall i :: 0 <= i < |m| ==> m[i].Fits())
    && (m != [] ==> m[0].start == 0)
    && (forall i :: 0 <= i < |m| - 1 ==> m[i + 1].start == m[i].End())
  }

  function Total(m: seq<Chunk>): nat { if m == [] then 0 else m[|m| - 1].End() }

  /** Stored data come in the same order, without overlap. */
  ghost predicate StoredInOrder(m: seq<Chunk>) {
    forall i :: 0 <= i < |m| - 1 ==> m[i].fileOffset + m[i].Stored() <= m[i + 1].fileOffset
  }

  lemma {:induction false} StartsIncrease(m: seq<Chunk>, i: nat, j: nat)
    requires Tiled(m) && i < j < |m|
    ensures m[i].End() <= m[j].start
    decreases j
  {
    if i < j - 1 {
      StartsIncrease(m, i, j - 1);
    }
    assert m[j - 1 + 1].start == m[j - 1].End();
  }

  lemma StartsOrdered(m: seq<Chunk>, i: nat, j: nat)
    requires Tiled(m)
    ensures i < j < |m| ==> m[i].start < m[i].End() <= m[j].start
  {
    if i < j < |m| {
      StartsIncrease(m, i, j);
      assert m[i].Fits();
    }
  }

  /** The chunks partition the disc: every byte lies in exactly one. */
  lemma {:induction false} Partition(m: seq<Chunk>, offset: nat) returns (k: nat)
    requires Tiled(m) && offset < Total(m)
    ensures k < |m| && m[k].start <= offset < m[k].End()
    ensures forall i :: 0 <= i < |m| && m[i].start <= offset < m[i].End() ==> i == k
  {
    k := |m| - 1;
    while offset < m[k].start
      invariant k < |m| && offset < m[k].End()
    {
      assert m[k - 1 + 1].start == m[k - 1].End();
      k := k - 1;
    }
    forall i | 0 <= i < |m| && m[i].start <= offset < m[i].End()
      ensures i == k
    {
      if i < k {
        StartsIncrease(m, i, k);
      } else if k < i {
        StartsIncrease(m, k, i);
      }
    }
  }

  // ---------------------------------------------------------------- the decoded disc

  predicate Present(file: seq<Byte>, c: Chunk) { c.fileOffset + c.Stored() <= |file| }

  function Blank(n: nat): (d: seq<Byte>)
    ensures |d| == n && forall i :: 0 <= i < n ==> d[i] == ZERO_BYTE
  {
    seq(n, _ => ZERO_BYTE)
  }

  lemma BufferSlice(d: seq<Byte>, at: nat, buffer: seq<Byte>, lo: nat, hi: nat)
    requires at + |buffer| <= |d| && buffer == d[at..at + |buffer|] && at <= lo <= hi <= at + |buffer|
    ensures buffer[lo - at..hi - at] == d[lo..hi]
  {
    forall i | 0 <= i < hi - lo
      ensures buffer[lo - at..hi - at][i] == d[lo..hi][i]
    {
      assert buffer[lo - at + i] == d[at..at + |buffer|][lo - at + i];
    }
  }

  lemma SliceSplit(d: seq<Byte>, at: nat, middle: nat, end: nat)
    requires at <= middle <= end <= |d|
    ensures d[at..end] == d[at..middle] + d[middle..end]
  {
  }

  /** The disc bytes of a chunk; zeros if its data are missing from the file. */
  ghost function ChunkBytes(file: seq<Byte>, c: Chunk): (d: seq<Byte>)
    requires c.Fits()
    ensures |d| == c.size
  {
    if !Present(file, c) then Blank(c.size)
    else
      var stored := file[c.fileOffset..c.fileOffset + c.Stored()];
      if c.kind.Raw? then stored else Decoded(c.kind, stored)
  }

  lemma PresentBytes(file: seq<Byte>, c: Chunk)
    requires c.Fits() && Present(file, c)
    ensures var stored := file[c.fileOffset..c.fileOffset + c.Stored()];
            ChunkBytes(file, c) == if c.kind.Raw? then stored else Decoded(c.kind, stored)
  {
  }

  /** All decoded chunks in a row. */
  ghost function Disc(file: seq<Byte>, m: seq<Chunk>): (d: seq<Byte>)
    requires Tiled(m)
    ensures |d| == Total(m)
  {
    if m == [] then []
    else
      var n := |m| - 1;
      TiledPrefix(m, n);
      Disc(file, m[..n]) + ChunkBytes(file, m[n])
  }

  lemma TiledPrefix(m: seq<Chunk>, n: nat)
    requires Tiled(m) && n <= |m|
    ensures Tiled(m[..n]) && (n < |m| ==> Total(m[..n]) == m[n].start)
  {
    if 0 < n < |m| {
      assert m[n - 1 + 1].start == m[n - 1].End();
    }
  }

  lemma {:induction false} DiscAt(file: seq<Byte>, m: seq<Chunk>, k: nat)
    requires Tiled(m) && k < |m|
    ensures m[k].End() <= Total(m) && Disc(file, m)[m[k].start..m[k].End()] == ChunkBytes(file, m[k])
    decreases |m|
  {
    hide ChunkBytes;
    var n := |m| - 1;
    TiledPrefix(m, n);
    var d := Disc(file, m[..n]);
    if k == n {
      assert (d + ChunkBytes(file, m[n]))[|d|..] == ChunkBytes(file, m[n]);
    } else {
      DiscAt(file, m[..n], k);
      assert (d + ChunkBytes(file, m[n]))[m[k].start..m[k].End()] == d[m[k].start..m[k].End()];
    }
  }

  /** Every chunk that overlaps the disc bytes [lo, hi) has its data in the file. */
  ghost predicate AllPresent(file: seq<Byte>, m: seq<Chunk>, lo: nat, hi: nat) {
    forall i :: 0 <= i < |m| && m[i].start < hi && lo < m[i].End() ==> Present(file, m[i])
  }

  lemma PresentWithin(file: seq<Byte>, m: seq<Chunk>, lo: nat, hi: nat, from: nat, to: nat)
    ensures AllPresent(file, m, lo, hi) && lo <= from && to <= hi ==> AllPresent(file, m, from, to)
  {
  }

  // ---------------------------------------------------------------- building the map

  /** (value << shift), in 32 bits. Shifting by 32 or more is undefined in the source; here nothing is
      left of the value. */
  function ShiftLeft(value: nat, shift: nat): nat {
    if shift >= 32 then 0 else value * Pow2(shift) % 0x1_0000_0000
  }

  /** The remaining digits of a chunk count, seven bits each, low ones first; Err at the end of file. */
  function Digits(file: seq<Byte>, at: nat, shift: nat, more: bool, count: nat): (r: Result<(nat, nat)>)
    ensures r.Ok? ==> at <= r.value.1
    decreases |file| - at
  {
    if !more then Ok((count, at))
    else if at >= |file| then Err
    else
      var b := Index(file[at]);
      Digits(file, at + 1, shift + 7, b >= 0x80, (count + ShiftLeft(b % 0x80, shift)) % 0x1_0000_0000)
  }

  /** Adds the chunks of one record; `left` bytes of raw data, or `left` sectors. */
  function Append(m: seq<Chunk>, kind: SectorType, left: nat, fileOffset: nat): seq<Chunk>
    decreases left
  {
    if left == 0 then m
    else if kind.Raw? then
      var size := if left < RAW_SECTOR_SIZE then left else RAW_SECTOR_SIZE;
      Append(m + [Chunk(Total(m), fileOffset, size, kind)], kind, left - size, fileOffset + size)
    else
      Append(m + [Chunk(Total(m), fileOffset, ChunkSize(kind), kind)], kind, left - 1, fileOffset + SectorSize(kind))
  }

  /** Where the data of these chunks end in the file. */
  function AppendEnd(kind: SectorType, left: nat, fileOffset: nat): nat {
    fileOffset + left * if kind.Raw? then 1 else SectorSize(kind)
  }

  /** The map that the records from file offset `at` on lead to: up to the end marker, which has to be in
      the file, and if no record is too long. */
  function MapFrom(file: seq<Byte>, m: seq<Chunk>, at: nat): Result<seq<Chunk>>
    decreases |file| - at
  {
    if at >= |file| then Err
    else
      var b := Index(file[at]);
      var d := Digits(file, at + 1, 5, b >= 0x80, b / 4 % 0x20);
      if d.Err? then Err
      else
        var (count, next) := d.value;
        if count == 0xFFFF_FFFF then Ok(m)
        else if count + 1 >= 0x8000_0000 then Err
        else MapFrom(file, Append(m, KindOf(b), count + 1, next), AppendEnd(KindOf(b), count + 1, next))
  }

  /** The map of a file; Err if Open refuses it. */
  function MapOf(file: seq<Byte>): Result<seq<Chunk>> {
    if !HasSignature(file) then Err
    else
      var r := MapFrom(file, [], 4);
      if r.Ok? && Total(r.value) >= RAW_SECTOR_SIZE then r else Err
  }

  /** How far the chunks built so far reach in the file. */
  ghost predicate Built(m: seq<Chunk>, fileOffset: nat) {
    && Tiled(m) && StoredInOrder(m)
    && (m != [] ==> m[|m| - 1].fileOffset + m[|m| - 1].Stored() <= fileOffset)
  }

  lemma BuiltNext(m: seq<Chunk>, c: Chunk, fileOffset: nat)
    requires Built(m, fileOffset) && c.Fits() && c.start == Total(m) && c.fileOffset == fileOffset
    ensures Built(m + [c], fileOffset + c.Stored()) && Total(m + [c]) == Total(m) + c.size
  {
    var t := m + [c];
    forall i | 0 <= i < |t| - 1
      ensures t[i + 1].start == t[i].End() && t[i].fileOffset + t[i].Stored() <= t[i + 1].fileOffset
    {
      if i < |m| - 1 {
        assert m[i + 1].start == m[i].End() && m[i].fileOffset + m[i].Stored() <= m[i + 1].fileOffset;
      }
    }
  }

  function KindOf(bits: nat): SectorType {
    match bits % 4
    case 0 => Raw
    case 1 => Mode1
    case 2 => Mode2Form1
    case _ => Mode2Form2
  }

  const SIGNATURE: seq<nat> := [0x45, 0x43, 0x4D, 0]

  predicate HasSignature(file: seq<Byte>) {
    |file| >= 4 && forall i :: 0 <= i < 4 ==> Index(file[i]) == SIGNATURE[i]
  }

  /** The header loop of Open for one record: kind, count, and where the data start. */
  method ReadRecord(file: seq<Byte>, at: nat) returns (r: Result<(SectorType, nat, nat)>)
    requires at < |file|
    ensures var b := Index(file[at]);
            var d := Digits(file, at + 1, 5, b >= 0x80, b / 4 % 0x20);
            r == if d.Err? then Err else Ok((KindOf(b), d.value.0, d.value.1))
    ensures r.Ok? ==> at < r.value.2 <= |file|
  {
    hide Index, ShiftLeft;
    var bits := Index(file[at]);
    ghost var whole := Digits(file, at + 1, 5, bits >= 0x80, bits / 4 % 0x20);
    var kind := KindOf(bits);
    var count: nat, shift, p := bits / 4 % 0x20, 5, at + 1;
    while bits >= 0x80
      invariant at < p <= |file| && whole == Digits(file, p, shift, bits >= 0x80, count)
      decreases |file| - p
    {
      if p >= |file| {
        return Err;
      }
      bits := Index(file[p]);
      count := (count + ShiftLeft(bits % 0x80, shift)) % 0x1_0000_0000;
      shift := shift + 7;
      p := p + 1;
    }
    r := Ok((kind, count, p));
  }

  /** The chunk loops of Open for one record. */
  method AddChunks(m: seq<Chunk>, kind: SectorType, count: nat, fileOffset: nat) returns (t: seq<Chunk>, next: nat)
    requires Built(m, fileOffset) && count > 0
    ensures t == Append(m, kind, count, fileOffset) && Built(t, next) && next == AppendEnd(kind, count, fileOffset)
    ensures t != []
    ensures Total(t) == Total(m) + (if kind.Raw? then count else count * ChunkSize(kind))
  {
    hide Built;
    t, next := m, fileOffset;
    if kind.Raw? {
      var left: nat := count;
      while left > 0
        invariant Built(t, next) && next + left == fileOffset + count && (left < count ==> t != []) && left <= count
        invariant Append(m, kind, count, fileOffset) == Append(t, kind, left, next)
        invariant Total(t) == Total(m) + count - left
      {
        var size := if left < RAW_SECTOR_SIZE then left else RAW_SECTOR_SIZE;
        BuiltNext(t, Chunk(Total(t), next, size, kind), next);
        t, next, left := t + [Chunk(Total(t), next, size, kind)], next + size, left - size;
      }
    } else {
      t, next := AddSectors(m, kind, count, fileOffset);
    }
  }

  method AddSectors(m: seq<Chunk>, kind: SectorType, count: nat, fileOffset: nat) returns (t: seq<Chunk>, next: nat)
    requires Built(m, fileOffset) && count > 0 && !kind.Raw?
    ensures t == Append(m, kind, count, fileOffset) && Built(t, next) && next == AppendEnd(kind, count, fileOffset)
    ensures t != []
    ensures Total(t) == Total(m) + count * ChunkSize(kind)
  {
    hide Built, SectorSize, ChunkSize;
    t, next := m, fileOffset;
    var size, stored := ChunkSize(kind), SectorSize(kind);
    for i := 0 to count
      invariant Built(t, next) && next == fileOffset + i * stored && (i > 0 ==> t != [])
      invariant Append(m, kind, count, fileOffset) == Append(t, kind, count - i, next)
      invariant Total(t) == Total(m) + i * size
    {
      BuiltNext(t, Chunk(Total(t), next, size, kind), next);
      assert (i + 1) * size == i * size + size && (i + 1) * stored == i * stored + stored;
      t, next := t + [Chunk(Total(t), next, size, kind)], next + SectorSize(kind);
    }
  }

  /** The chunks of a map that Open has built: they partition the disc bytes, are stored in order and
      without overlap, and their data are all in the file. */
  ghost predicate IsMap(file: seq<Byte>, m: seq<Chunk>) {
    && Tiled(m) && StoredInOrder(m) && Total(m) >= RAW_SECTOR_SIZE
    && (forall i :: 0 <= i < |m| ==> Present(file, m[i]))
  }

  /** The sector map that Open builds. */
  method BuildMap(file: seq<Byte>) returns (r: Result<seq<Chunk>>)
    ensures r == MapOf(file)
    ensures r.Ok? ==> HasSignature(file) && IsMap(file, r.value)
  {
    hide Built, Index, Append, Digits, IsMap;
    if !HasSignature(file) {
      return Err;
    }
    var m: seq<Chunk>, at := [], 4;
    NothingBuilt();
    while true
      invariant Built(m, at) && MapFrom(file, [], 4) == MapFrom(file, m, at)
      decreases |file| - at
    {
      if at >= |file| {
        return Err;
      }
      var record := ReadRecord(file, at);
      if record.Err? {
        return Err;
      }
      var (kind, count, next) := record.value;
      if count == 0xFFFF_FFFF {
        break;
      }
      if count + 1 >= 0x8000_0000 {
        return Err;
      }
      BuiltUpTo(m, at, next);
      m, at := AddChunks(m, kind, count + 1, next);
    }
    if m == [] || Total(m) / RAW_SECTOR_SIZE == 0 {
      return Err;
    }
    BuiltPresent(file, m, at);
    r := Ok(m);
  }

  lemma BuiltUpTo(m: seq<Chunk>, at: nat, next: nat)
    requires Built(m, at) && at <= next
    ensures Built(m, next)
  {
  }

  lemma NothingBuilt()
    ensures Built([], 4)
  {
  }

  /** Everything built lies before the end marker. */
  lemma BuiltPresent(file: seq<Byte>, m: seq<Chunk>, at: nat)
    requires Built(m, at) && at <= |file| && Total(m) >= RAW_SECTOR_SIZE
    ensures IsMap(file, m)
  {
    forall i | 0 <= i < |m|
      ensures Present(file, m[i])
    {
      StoredBefore(m, i, |m| - 1);
    }
  }

  lemma {:induction false} StoredBefore(m: seq<Chunk>, i: nat, j: nat)
    requires StoredInOrder(m) && i <= j < |m|
    ensures m[i].fileOffset + m[i].Stored() <= m[j].fileOffset + m[j].Stored()
    decreases j
  {
    if i < j {
      StoredBefore(m, i, j - 1);
      assert m[j - 1].fileOffset + m[j - 1].Stored() <= m[j - 1 + 1].fileOffset;
    }
  }

  // ---------------------------------------------------------------- reading

  /** An open image. The map has been built when the image was opened; `file` is what the file holds
      now, which is less if it has been cut off since, or cannot be read to its end any more. */
  class CDImageEcm {
    const file: seq<Byte>
    const dataMap: seq<Chunk>
    const codec: Generator
    var chunkBuffer: seq<Byte>
    var chunkStart: nat

    ghost predicate Valid()
      reads codec.fLut, codec.bLut, codec.edcLut
    {
      codec.Valid() && dataMap != [] && Tiled(dataMap)
    }

    /** The buffer holds decoded disc bytes, of chunks whose data are all there. */
    ghost predicate Clean()
      requires Tiled(dataMap)
      reads this
    {
      && chunkStart + |chunkBuffer| <= Total(dataMap)
      && chunkBuffer == Disc(file, dataMap)[chunkStart..chunkStart + |chunkBuffer|]
      && (chunkBuffer != [] ==> AllPresent(file, dataMap, chunkStart, chunkStart + |chunkBuffer|))
    }

    constructor (file: seq<Byte>, dataMap: seq<Chunk>, codec: Generator)
      requires codec.Valid() && dataMap != [] && Tiled(dataMap)
      ensures Valid() && Clean() && this.file == file && this.dataMap == dataMap && this.codec == codec
    {
      hide Disc, Generator.Valid, Tiled, AllPresent;
      this.file, this.dataMap, this.codec := file, dataMap, codec;
      chunkBuffer, chunkStart := [], 0;
    }

    /** std::map::lower_bound. */
    method LowerBound(key: nat) returns (k: nat)
      requires Tiled(dataMap)
      ensures k <= |dataMap| && (forall i :: 0 <= i < k ==> dataMap[i].start < key)
      ensures k < |dataMap| ==> key <= dataMap[k].start
    {
      k := 0;
      while k < |dataMap| && dataMap[k].start < key
        invariant k <= |dataMap| && forall i :: 0 <= i < k ==> dataMap[i].start < key
      {
        k := k + 1;
      }
    }

    /** The chunk that contains a disc offset; the search starts one sector before it. */
    method FindChunk(offset: nat) returns (k: nat)
      requires dataMap != [] && Tiled(dataMap)
      ensures k < |dataMap| && dataMap[k].start <= offset
      ensures offset < Total(dataMap) ==> offset < dataMap[k].End()
    {
      var next := LowerBound(if offset > RAW_SECTOR_SIZE then offset - RAW_SECTOR_SIZE else 0);
      ghost var j := 0;
      if offset < Total(dataMap) {
        j := Partition(dataMap, offset);
        assert dataMap[j].Fits();
      }
      k := 0;
      while next < |dataMap| && dataMap[next].start <= offset
        invariant next <= |dataMap| && k < |dataMap| && dataMap[k].start <= offset
        invariant offset < Total(dataMap) ==> next <= j || (k == j && next == j + 1)
      {
        StartsOrdered(dataMap, j, next);
        k, next := next, next + 1;
      }
      StartsOrdered(dataMap, next, j);
    }

    /** Appends one decoded chunk to the buffer. A read that falls short leaves what it got, and zeros. */
    method AppendChunk(c: Chunk) returns (ok: bool)
      requires codec.Valid() && c.Fits()
      modifies this`chunkBuffer
      ensures ok == Present(file, c)
      ensures ok ==> chunkBuffer == old(chunkBuffer) + ChunkBytes(file, c)
      ensures |chunkBuffer| == |old(chunkBuffer)| + c.size && old(chunkBuffer) <= chunkBuffer
    {
      hide Decoded, ChunkBytes, Generator.Valid;
      ok := c.fileOffset + c.Stored() <= |file|;
      if !ok {
        var got := if c.kind.Raw? && c.fileOffset < |file| then file[c.fileOffset..] else [];
        chunkBuffer := chunkBuffer + (got + Blank(c.size - |got|));
        return;
      }
      PresentBytes(file, c);
      var stored := file[c.fileOffset..c.fileOffset + c.Stored()];
      if c.kind.Raw? {
        chunkBuffer := chunkBuffer + stored;
      } else {
        var d := DecodeSector(codec, c.kind, stored);
        chunkBuffer := chunkBuffer + d;
      }
    }

    /** ReadChunks: decodes the chunks that cover [offset, offset + size). */
    method ReadChunks(offset: nat, size: nat) returns (ok: bool)
      requires Valid() && size > 0
      modifies this`chunkBuffer, this`chunkStart
      ensures ok <==> offset + size <= Total(dataMap) && AllPresent(file, dataMap, offset, offset + size)
      ensures ok ==> Clean() && chunkStart <= offset && offset + size <= chunkStart + |chunkBuffer|
      ensures !ok ==> chunkStart <= offset
      ensures !ok && offset + size <= Total(dataMap) ==>
                exists k :: StoppedAt(file, dataMap, k, offset, offset + size) && chunkStart + |chunkBuffer| == dataMap[k].End()
    {
      hide Generator.Valid, ChunkBytes, Disc, Progress, AllPresent, StoppedAt, Present, Tiled, Total, Chunk.Fits;
      var k := FindChunk(offset);
      chunkStart := dataMap[k].start;
      chunkBuffer := [];
      var wanted := if chunkStart < offset then size + (offset - chunkStart) else size;
      ghost var first := k;
      ProgressStart(file, dataMap, k);
      var total := 0;
      while total < wanted
        invariant total == |chunkBuffer| && first <= k <= |dataMap| && chunkStart == dataMap[first].start
        invariant Progress(file, dataMap, first, k, chunkStart, chunkBuffer)
        decreases |dataMap| - k
      {
        ChunkNeeded(file, dataMap, first, k, chunkStart, chunkBuffer, offset, offset + size);
        if k == |dataMap| {
          return false;
        }
        ok := AppendChunk(dataMap[k]);
        if !ok {
          return false;
        }
        total := total + dataMap[k].size;
        ProgressNext(file, dataMap, first, k, chunkStart, chunkBuffer);
        k := k + 1;
      }
      ProgressPresent(file, dataMap, first, k, chunkStart, chunkBuffer, offset, offset + size);
      ok := true;
    }

    /** ReadSectorFromIndex for the data index. A sector is served from the buffer, or from the chunks
        that cover it. With a clean buffer a read succeeds exactly if the chunks it needs are all in
        the file; then it delivers the sector's bytes, and the buffer stays clean. */
    method ReadSector(lba: nat) returns (ok: bool, sector: seq<Byte>)
      requires Valid()
      modifies this`chunkBuffer, this`chunkStart
      ensures ok ==> |sector| == RAW_SECTOR_SIZE
      ensures ok <==> (old(chunkStart) <= RAW_SECTOR_SIZE * lba
                       && RAW_SECTOR_SIZE * (lba + 1) <= old(chunkStart + |chunkBuffer|))
                      || (RAW_SECTOR_SIZE * (lba + 1) <= Total(dataMap)
                          && AllPresent(file, dataMap, RAW_SECTOR_SIZE * lba, RAW_SECTOR_SIZE * (lba + 1)))
      ensures old(Clean()) ==>
                (ok <==> RAW_SECTOR_SIZE * (lba + 1) <= Total(dataMap)
                         && AllPresent(file, dataMap, RAW_SECTOR_SIZE * lba, RAW_SECTOR_SIZE * (lba + 1)))
      ensures old(Clean()) && ok ==>
                Clean() && sector == Disc(file, dataMap)[RAW_SECTOR_SIZE * lba..RAW_SECTOR_SIZE * (lba + 1)]
      ensures !ok ==> chunkStart <= RAW_SECTOR_SIZE * lba
      ensures !ok && RAW_SECTOR_SIZE * (lba + 1) <= Total(dataMap) ==>
                exists k :: StoppedAt(file, dataMap, k, RAW_SECTOR_SIZE * lba, RAW_SECTOR_SIZE * (lba + 1))
                            && chunkStart + |chunkBuffer| == dataMap[k].End()
    {
      hide Generator.Valid, Disc, AllPresent, StoppedAt, Tiled;
      var start := RAW_SECTOR_SIZE * lba;
      var end := start + RAW_SECTOR_SIZE;
      PresentWithin(file, dataMap, chunkStart, chunkStart + |chunkBuffer|, start, end);
      ok := true;
      if start < chunkStart || end > chunkStart + |chunkBuffer| {
        ok := ReadChunks(start, RAW_SECTOR_SIZE);
        if !ok {
          return false, [];
        }
      }
      sector := chunkBuffer[start - chunkStart..end - chunkStart];
      ghost var disc := Disc(file, dataMap);
      if chunkStart + |chunkBuffer| <= |disc| && chunkBuffer == disc[chunkStart..chunkStart + |chunkBuffer|] {
        BufferSlice(disc, chunkStart, chunkBuffer, start, end);
      }
    }
  }

  /** Chunk k is the first one that the disc bytes [lo, hi) need and whose data are missing. */
  ghost predicate StoppedAt(file: seq<Byte>, m: seq<Chunk>, k: int, lo: nat, hi: nat) {
    0 <= k < |m| && !Present(file, m[k]) && m[k].start < hi && lo < m[k].End() && AllPresent(file, m, lo, m[k].start)
  }

  lemma ChunkNeeded(file: seq<Byte>, m: seq<Chunk>, first: nat, k: nat, start: nat, buffer: seq<Byte>, lo: nat, hi: nat)
    requires Progress(file, m, first, k, start, buffer) && start <= lo < hi && start + |buffer| < hi
    requires lo < Total(m) ==> lo < m[first].End()
    ensures k == |m| ==> hi > Total(m)
    ensures k < |m| ==> m[k].Fits() && start + |buffer| + m[k].size == m[k].End()
    ensures k < |m| && !Present(file, m[k]) ==>
              hi > Total(m) || (StoppedAt(file, m, k, lo, hi) && !AllPresent(file, m, lo, hi))
  {
    hide Disc, Present;
    StartsOrdered(m, first, k);
    if k < |m| {
      forall i | 0 <= i < |m| && m[i].start < m[k].start && lo < m[i].End()
        ensures Present(file, m[i])
      {
        StartsOrdered(m, k, i);
        StartsOrdered(m, i, first);
      }
    }
  }

  /** Once the chunks reach the end of the range, all of them were present, and the buffer is clean. */
  lemma ProgressPresent(file: seq<Byte>, m: seq<Chunk>, first: nat, k: nat, start: nat, buffer: seq<Byte>, lo: nat,
                        hi: nat)
    requires Progress(file, m, first, k, start, buffer) && start <= lo < hi <= start + |buffer|
    ensures AllPresent(file, m, start, start + |buffer|) && AllPresent(file, m, lo, hi)
    ensures hi <= start + |buffer| <= Total(m) && buffer == Disc(file, m)[start..start + |buffer|]
  {
    hide Disc, Present;
    forall i | 0 <= i < |m| && m[i].start < start + |buffer| && start < m[i].End()
      ensures Present(file, m[i])
    {
      StartsOrdered(m, i, first);
      StartsOrdered(m, k, i);
    }
  }

  lemma ProgressStart(file: seq<Byte>, m: seq<Chunk>, k: nat)
    requires Tiled(m) && k < |m|
    ensures Progress(file, m, k, k, m[k].start, []) && m[k].Fits()
  {
    hide Disc, Tiled;
    StartInside(m, k);
    assert Disc(file, m)[m[k].start..m[k].start] == [];
  }

  lemma StartInside(m: seq<Chunk>, k: nat)
    requires Tiled(m) && k < |m|
    ensures m[k].Fits() && m[k].End() <= Total(m)
  {
    if k < |m| - 1 {
      StartsIncrease(m, k, |m| - 1);
    }
  }

  /** Chunks first..k have been decoded into the buffer. */
  ghost predicate Progress(file: seq<Byte>, m: seq<Chunk>, first: nat, k: nat, start: nat, buffer: seq<Byte>) {
    && Tiled(m) && first <= k <= |m| && first < |m| && start == m[first].start
    && start + |buffer| == (if k < |m| then m[k].start else Total(m)) && start + |buffer| <= Total(m)
    && buffer == Disc(file, m)[start..start + |buffer|]
    && (forall i :: first <= i < k ==> Present(file, m[i]))
  }

  lemma ProgressNext(file: seq<Byte>, m: seq<Chunk>, first: nat, k: nat, start: nat, buffer: seq<Byte>)
    requires k < |m| && m[k].Fits() && |buffer| >= m[k].size && Present(file, m[k])
    requires Progress(file, m, first, k, start, buffer[..|buffer| - m[k].size])
    requires buffer[|buffer| - m[k].size..] == ChunkBytes(file, m[k])
    ensures Progress(file, m, first, k + 1, start, buffer)
  {
    hide ChunkBytes, Disc;
    DiscAt(file, m, k);
    StartInside(m, k);
    var d, n := Disc(file, m), |buffer| - m[k].size;
    assert buffer == buffer[..n] + buffer[n..];
    SliceSplit(d, start, start + n, start + |buffer|);
    if k + 1 < |m| {
      assert m[k + 1].start == m[k].End();
    }
  }

  /** The bytes of a sector of the disc that a file describes; None outside the disc. */
  ghost function SectorOf(file: seq<Byte>, m: seq<Chunk>, lba: nat): Common.Option<seq<Byte>>
    requires Tiled(m)
  {
    if RAW_SECTOR_SIZE * (lba + 1) <= Total(m) then
      Common.Some(Disc(file, m)[RAW_SECTOR_SIZE * lba..RAW_SECTOR_SIZE * (lba + 1)])
    else Common.None
  }

  /** What is stored for a chunk. */
  function StoredBytes(file: seq<Byte>, c: Chunk): seq<Byte>
    requires Present(file, c)
  {
    file[c.fileOffset..c.fileOffset + c.Stored()]
  }

  /** A sector shows a chunk: where both overlap, its bytes are those of the sector that the stored bytes
      of the chunk encode, or the stored bytes themselves. */
  ghost predicate Shows(file: seq<Byte>, c: Chunk, lba: nat, sector: seq<Byte>)
    requires Present(file, c)
  {
    exists d :: IsSector(c.kind, StoredBytes(file, c), d) && |d| == c.size && Agrees(c.start, d, RAW_SECTOR_SIZE * lba, sector)
  }

  /** Two runs of disc bytes are the same where they overlap. */
  predicate Agrees(at: nat, d: seq<Byte>, from: nat, s: seq<Byte>) {
    forall i :: 0 <= i < |d| && from <= at + i < from + |s| ==> d[i] == s[at + i - from]
  }

  /** A sector read shows all chunks; on a disc of mode 1 sectors it is the sector that its chunk encodes. */
  ghost predicate ShowsChunks(file: seq<Byte>, m: seq<Chunk>, lba: nat, sector: seq<Byte>) {
    && |sector| == RAW_SECTOR_SIZE
    && (forall k :: 0 <= k < |m| ==> Present(file, m[k]) && Shows(file, m[k], lba, sector))
    && (forall k :: 0 <= k < |m| && m[k].kind.Mode1? && m[k].start == RAW_SECTOR_SIZE * lba ==>
          Present(file, m[k]) && IsSector(Mode1, StoredBytes(file, m[k]), sector))
    && (forall k :: 0 <= k < |m| && (m[k].kind.Mode2Form1? || m[k].kind.Mode2Form2?)
                    && m[k].start == RAW_SECTOR_SIZE * lba + 16 ==>
          Present(file, m[k]) && IsSector(m[k].kind, StoredBytes(file, m[k]), sector[16..]))
  }

  lemma ChunkIsSector(file: seq<Byte>, c: Chunk)
    requires c.Fits() && Present(file, c)
    ensures IsSector(c.kind, StoredBytes(file, c), ChunkBytes(file, c))
  {
    hide Decoded;
    if !c.kind.Raw? {
      hide IsSector;
      DecodedExactly(c.kind, StoredBytes(file, c), ChunkBytes(file, c));
    }
  }

  lemma ChunkShown(file: seq<Byte>, m: seq<Chunk>, k: nat, lba: nat, sector: seq<Byte>)
    requires Tiled(m) && k < |m| && Present(file, m[k]) && |sector| == RAW_SECTOR_SIZE
    requires RAW_SECTOR_SIZE * (lba + 1) <= Total(m)
    requires sector == Disc(file, m)[RAW_SECTOR_SIZE * lba..RAW_SECTOR_SIZE * (lba + 1)]
    ensures m[k].Fits() && Agrees(m[k].start, ChunkBytes(file, m[k]), RAW_SECTOR_SIZE * lba, sector)
    ensures m[k].start == RAW_SECTOR_SIZE * lba && m[k].size == RAW_SECTOR_SIZE ==> sector == ChunkBytes(file, m[k])
    ensures m[k].start == RAW_SECTOR_SIZE * lba + 16 && m[k].size == RAW_SECTOR_SIZE - 16 ==>
              sector[16..] == ChunkBytes(file, m[k])
  {
    DiscAt(file, m, k);
    hide Disc, ChunkBytes, Tiled, Present, Total, Agrees;
    SlicesAgree(Disc(file, m), m[k].start, m[k].End(), RAW_SECTOR_SIZE * lba, RAW_SECTOR_SIZE * (lba + 1));
  }

  lemma SlicesAgree(disc: seq<Byte>, at: nat, end: nat, from: nat, to: nat)
    requires at <= end <= |disc| && from <= to <= |disc|
    ensures Agrees(at, disc[at..end], from, disc[from..to])
    ensures from <= at && end == to ==> disc[at..end] == disc[from..to][at - from..]
  {
    if from <= at && end == to {
      assert disc[from..to][at - from..] == disc[at..end];
    }
  }

  lemma SectorShows(file: seq<Byte>, m: seq<Chunk>, lba: nat)
    requires IsMap(file, m) && RAW_SECTOR_SIZE * (lba + 1) <= Total(m)
    ensures SectorOf(file, m, lba).Some? && ShowsChunks(file, m, lba, SectorOf(file, m, lba).value)
  {
    hide Disc, IsSector, ChunkBytes, Agrees;
    var sector := SectorOf(file, m, lba).value;
    forall k | 0 <= k < |m|
      ensures Present(file, m[k]) && Shows(file, m[k], lba, sector)
      ensures m[k].kind.Mode1? && m[k].start == RAW_SECTOR_SIZE * lba ==>
                IsSector(Mode1, StoredBytes(file, m[k]), sector)
      ensures (m[k].kind.Mode2Form1? || m[k].kind.Mode2Form2?) && m[k].start == RAW_SECTOR_SIZE * lba + 16 ==>
                IsSector(m[k].kind, StoredBytes(file, m[k]), sector[16..])
    {
      ChunkIsSector(file, m[k]);
      ChunkShown(file, m, k, lba, sector);
    }
  }

  /** Once Open has accepted a file, any run of sector reads delivers the disc's bytes, whatever the
      buffer has been left with by the reads before; sectors outside the disc are not asked for. */
  method OpenAndRead(file: seq<Byte>, codec: Generator, lbas: seq<nat>)
    returns (r: Result<seq<Common.Option<seq<Byte>>>>)
    requires codec.Valid()
    ensures r.Ok? <==> MapOf(file).Ok?
    ensures r.Ok? ==> IsMap(file, MapOf(file).value) && |r.value| == |lbas|
                      && forall i :: 0 <= i < |lbas| ==> r.value[i] == SectorOf(file, MapOf(file).value, lbas[i])
    ensures r.Ok? ==> forall i :: 0 <= i < |lbas| ==>
              if RAW_SECTOR_SIZE * (lbas[i] + 1) <= Total(MapOf(file).value)
              then r.value[i].Some? && ShowsChunks(file, MapOf(file).value, lbas[i], r.value[i].value)
              else r.value[i].None?
  {
    hide Disc, Generator.Valid, Tiled, SectorOf, MapOf, ShowsChunks;
    var map_ := BuildMap(file);
    if map_.Err? {
      return Err;
    }
    var m := map_.value;
    var image := new CDImageEcm(file, m, codec);
    var lbaCount := Total(m) / RAW_SECTOR_SIZE;
    var sectors := [];
    for i := 0 to |lbas|
      invariant image.Valid() && image.Clean() && |sectors| == i && image.file == file && image.dataMap == m
      invariant fresh(image)
      invariant forall j :: 0 <= j < i ==> sectors[j] == SectorOf(file, m, lbas[j])
    {
      InsideDisc(m, lbas[i]);
      if lbas[i] < lbaCount {
        var ok, sector := image.ReadSector(lbas[i]);
        SectorIs(file, m, lbas[i]);
        sectors := sectors + [Common.Some(sector)];
      } else {
        SectorIs(file, m, lbas[i]);
        sectors := sectors + [Common.None];
      }
    }
    forall i | 0 <= i < |lbas|
      ensures if RAW_SECTOR_SIZE * (lbas[i] + 1) <= Total(m)
              then sectors[i].Some? && ShowsChunks(file, m, lbas[i], sectors[i].value) else sectors[i].None?
    {
      SectorIs(file, m, lbas[i]);
      if RAW_SECTOR_SIZE * (lbas[i] + 1) <= Total(m) {
        SectorShows(file, m, lbas[i]);
      }
    }
    r := Ok(sectors);
  }

  lemma InsideDisc(m: seq<Chunk>, lba: nat)
    ensures lba < Total(m) / RAW_SECTOR_SIZE <==> RAW_SECTOR_SIZE * (lba + 1) <= Total(m)
  {
  }

  lemma SectorIs(file: seq<Byte>, m: seq<Chunk>, lba: nat)
    requires Tiled(m)
    ensures RAW_SECTOR_SIZE * (lba + 1) <= Total(m) ==>
              SectorOf(file, m, lba) == Common.Some(Disc(file, m)[RAW_SECTOR_SIZE * lba..RAW_SECTOR_SIZE * (lba + 1)])
    ensures RAW_SECTOR_SIZE * (lba + 1) > Total(m) ==> SectorOf(file, m, lba) == Common.None
  {
  }

  /** Chunk k is the first one that sector lba needs and whose data are missing. */
  ghost predicate FirstMissing(file: seq<Byte>, m: seq<Chunk>, lba: nat, k: nat) {
    var start, end := RAW_SECTOR_SIZE * lba, RAW_SECTOR_SIZE * (lba + 1);
    StoppedAt(file, m, k, start, end) && end <= Total(m)
  }

  /** If the file cannot be read any more as it was mapped, reading a sector fails whose chunks are not
      all there; but reading it again succeeds, from what the failed read has left in the buffer, exactly
      if the first missing chunk reaches the end of the sector. */
  method ReadTwice(image: CDImageEcm, lba: nat, ghost k: nat) returns (first: bool, second: bool)
    requires image.Valid() && image.Clean() && FirstMissing(image.file, image.dataMap, lba, k)
    modifies image
    ensures !first && (second <==> RAW_SECTOR_SIZE * (lba + 1) <= image.dataMap[k].End())
  {
    hide Generator.Valid, Disc, Present;
    var start, end := RAW_SECTOR_SIZE * lba, RAW_SECTOR_SIZE * (lba + 1);
    ghost var m := image.dataMap;
    var sector;
    StartInside(m, k);
    NotAllPresent(image.file, m, k, start, end);
    first, sector := image.ReadSector(lba);
    ghost var j :| StoppedAt(image.file, m, j, start, end) && image.chunkStart + |image.chunkBuffer| == m[j].End();
    FirstIsFirst(image, lba, k, j);
    second, sector := image.ReadSector(lba);
  }

  lemma NotAllPresent(file: seq<Byte>, m: seq<Chunk>, k: int, lo: nat, hi: nat)
    requires StoppedAt(file, m, k, lo, hi)
    ensures !AllPresent(file, m, lo, hi)
  {
  }

  lemma FirstIsFirst(image: CDImageEcm, lba: nat, k: nat, j: int)
    requires Tiled(image.dataMap) && FirstMissing(image.file, image.dataMap, lba, k)
    requires StoppedAt(image.file, image.dataMap, j, RAW_SECTOR_SIZE * lba, RAW_SECTOR_SIZE * (lba + 1))
    ensures j == k
  {
    if j < k {
      StartsOrdered(image.dataMap, j, k);
    } else if k < j {
      StartsOrdered(image.dataMap, k, j);
    }
  }

  // ---------------------------------------------------------------- a file that is cut off

  /** The signature, a record of 2352 raw bytes, and the end marker. */
  function OneRawSector(): (file: seq<Byte>)
    ensures |file| == 2363
  {
    Encoded([0x45, 0x43, 0x4D, 0, 0xBC, 0x49]) + Blank(RAW_SECTOR_SIZE) + Encoded([0xFC, 0xFF, 0xFF, 0xFF, 0x3F])
  }

  function Encoded(values: seq<nat>): (bytes: seq<Byte>)
    requires forall i :: 0 <= i < |values| ==> values[i] < 256
    ensures |bytes| == |values| && forall i :: 0 <= i < |values| ==> Index(bytes[i]) == values[i]
  {
    seq(|values|, i requires 0 <= i < |values| => ByteOf(values[i]))
  }

  lemma OneRawSectorMap()
    ensures MapOf(OneRawSector()) == Ok([Chunk(0, 6, RAW_SECTOR_SIZE, Raw)])
  {
    hide Index, OneRawSector, Digits;
    var file := OneRawSector();
    OneRawSectorBytes();
    FirstCount(file);
    EndCount(file);
    assert Append([], Raw, 2352, 6) == [Chunk(0, 6, RAW_SECTOR_SIZE, Raw)];
    var m := [Chunk(0, 6, RAW_SECTOR_SIZE, Raw)];
    assert MapFrom(file, m, 2358) == Ok(m);
    assert MapFrom(file, [], 4) == Ok(m);
  }

  lemma FirstCount(file: seq<Byte>)
    requires |file| == 2363 && Index(file[5]) == 0x49
    ensures Digits(file, 5, 5, true, 15) == Ok((2351, 6))
  {
    hide Index;
    Shifts();
    assert Digits(file, 6, 12, false, 2351) == Ok((2351, 6));
  }

  lemma EndCount(file: seq<Byte>)
    requires |file| == 2363 && Index(file[2359]) == Index(file[2360]) == Index(file[2361]) == 0xFF
    requires Index(file[2362]) == 0x3F
    ensures Digits(file, 2359, 5, true, 31) == Ok((0xFFFF_FFFF, 2363))
  {
    hide Index, ShiftLeft;
    Shifts();
    assert Digits(file, 2363, 33, false, 0xFFFF_FFFF) == Ok((0xFFFF_FFFF, 2363));
    assert Digits(file, 2362, 26, true, 0x3FF_FFFF) == Ok((0xFFFF_FFFF, 2363));
    assert Digits(file, 2361, 19, true, 0x7_FFFF) == Ok((0xFFFF_FFFF, 2363));
    assert Digits(file, 2360, 12, true, 0xFFF) == Ok((0xFFFF_FFFF, 2363));
  }

  lemma OneRawSectorBytes()
    ensures var file := OneRawSector();
            && HasSignature(file) && Index(file[4]) == 0xBC && Index(file[5]) == 0x49
            && Index(file[2358]) == 0xFC && Index(file[2359]) == Index(file[2360]) == Index(file[2361]) == 0xFF
            && Index(file[2362]) == 0x3F
  {
    hide Index, Encoded, Blank;
    var file := OneRawSector();
    var head, tail := Encoded([0x45, 0x43, 0x4D, 0, 0xBC, 0x49]), Encoded([0xFC, 0xFF, 0xFF, 0xFF, 0x3F]);
    forall i | 0 <= i < 6
      ensures file[i] == head[i]
    {
    }
    forall i | 0 <= i < 5
      ensures file[2358 + i] == tail[i]
    {
    }
    assert file[4] == head[4] && file[5] == head[5];
    assert file[2358] == tail[0] && file[2359] == tail[1] && file[2360] == tail[2];
    assert file[2361] == tail[3] && file[2362] == tail[4];
  }

  lemma Shifts()
    ensures ShiftLeft(0x49, 5) == 2336 && ShiftLeft(0x7F, 5) == 0xFE0 && ShiftLeft(0x7F, 12) == 0x7_F000
    ensures ShiftLeft(0x7F, 19) == 0x3F8_0000 && ShiftLeft(0x3F, 26) == 0xFC00_0000
  {
    assert Pow2(5) == 32;
    assert Pow2(12) == 4096;
    assert Pow2(19) == 0x8_0000;
    assert Pow2(26) == 0x400_0000;
  }

  /** Such an image, whose file has lost its last bytes after it was opened: the only sector cannot be
      read the first time, and can the second time. */
  method CutOff(codec: Generator) returns (first: bool, second: bool)
    requires codec.Valid()
    ensures !first && second
  {
    hide Generator.Valid, OneRawSector, Blank, FirstMissing, Tiled, IsMap, Disc;
    OneRawSectorMap();
    var map_ := BuildMap(OneRawSector());
    LastBytesMissing();
    var image := new CDImageEcm(OneRawSector()[..2357], map_.value, codec);
    first, second := ReadTwice(image, 0, 0);
  }

  lemma LastBytesMissing()
    ensures var m := [Chunk(0, 6, RAW_SECTOR_SIZE, Raw)];
            Tiled(m) && FirstMissing(OneRawSector()[..2357], m, 0, 0) && m[0].End() == RAW_SECTOR_SIZE
  {
    hide OneRawSector;
  }
}
