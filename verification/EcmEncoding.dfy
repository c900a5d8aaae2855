/** The ECM format the other way round: files made of records (src/common/cd_image_ecm.cpp:240-350), and what
    Open and ReadChunks make of them. */
module EcmEncoding {
  import opened Arithmetic
  import opened Bits
  import opened EccEdc
  import opened EcmImage
  import opened SectorCodec

  /** So many sectors of one kind, or so many raw bytes, and what is stored for them. */
  datatype Record = Record(kind: SectorType, count: nat, data: seq<Byte>) {
    predicate WellFormed() { 0 < count < 0x8000_0000 && |data| == DataSize(kind, count) }
  }

  /** So many bytes, or so many times the size of a sector. */
  function DataSize(kind: SectorType, count: nat): nat {
    if kind.Raw? then count else if count == 0 then 0 else SectorSize(kind) + DataSize(kind, count - 1)
  }

  lemma {:induction false} DataSizeIs(kind: SectorType, count: nat)
    ensures DataSize(kind, count) == count * if kind.Raw? then 1 else SectorSize(kind)
    decreases count
  {
    if !kind.Raw? && count > 0 {
      var n := SectorSize(kind);
      hide SectorSize;
      DataSizeIs(kind, count - 1);
      RowBefore(count - 1, count, n);
    }
  }

  function KindBits(kind: SectorType): (bits: nat)
    ensures bits < 4
  {
    match kind
    case Raw => 0
    case Mode1 => 1
    case Mode2Form1 => 2
    case Mode2Form2 => 3
  }

  /** Seven bits to a byte, low ones first; all bytes but the last have their top bit set. */
  function SevenBits(n: nat): (values: seq<nat>)
    ensures values != [] && forall i :: 0 <= i < |values| ==> values[i] < 256
  {
    if n < 0x80 then [n] else [0x80 + n % 0x80] + SevenBits(n / 0x80)
  }

  /** The first byte of a header has room for the kind and five bits. */
  function HeaderValues(kind: SectorType, n: nat): (values: seq<nat>)
    ensures values != [] && forall i :: 0 <= i < |values| ==> values[i] < 256
  {
    if n < 0x20 then [KindBits(kind) + 4 * n]
    else [0x80 + KindBits(kind) + 4 * (n % 0x20)] + SevenBits(n / 0x20)
  }

  /** The records one after the other, each behind its header. */
  function EncodeRecords(records: seq<Record>): seq<Byte> {
    if records == [] then []
    else
      Encoded(HeaderValues(records[0].kind, if records[0].count > 0 then records[0].count - 1 else 0)) + records[0].data
      + EncodeRecords(records[1..])
  }

  /** Behind the records stands a header with the largest count. */
  function EncodeFile(records: seq<Record>): seq<Byte> {
    Encoded([0x45, 0x43, 0x4D, 0]) + EncodeRecords(records) + Encoded(HeaderValues(Raw, 0xFFFF_FFFF))
  }

  /** The disc bytes of sectors of one kind. */
  ghost function DecodeData(kind: SectorType, count: nat, data: seq<Byte>): seq<Byte>
    requires |data| == DataSize(kind, count)
    decreases count
  {
    if kind.Raw? then data
    else if count == 0 then []
    else Decoded(kind, data[..SectorSize(kind)]) + DecodeData(kind, count - 1, data[SectorSize(kind)..])
  }

  ghost function DecodeRecords(records: seq<Record>): seq<Byte>
    requires forall i :: 0 <= i < |records| ==> records[i].WellFormed()
  {
    if records == [] then []
    else
      assert records[0].WellFormed();
      DecodeData(records[0].kind, records[0].count, records[0].data) + DecodeRecords(records[1..])
  }

  // ---------------------------------------------------------------- headers

  /** The file holds these values from position `at` on. */
  predicate Holds(file: seq<Byte>, at: nat, values: seq<nat>) {
    at + |values| <= |file| && forall i :: 0 <= i < |values| ==> Index(file[at + i]) == values[i]
  }

  lemma HoldsTail(file: seq<Byte>, at: nat, values: seq<nat>)
    requires values != [] && Holds(file, at, values)
    ensures Holds(file, at + 1, values[1..]) && at < |file| && Index(file[at]) == values[0]
  {
    assert Index(file[at + 0]) == values[0];
    forall i | 0 <= i < |values| - 1
      ensures Index(file[at + 1 + i]) == values[1..][i]
    {
      assert Index(file[at + (1 + i)]) == values[1 + i];
    }
  }

  lemma {:induction false} Pow2Grows(a: nat, b: nat)
    requires a <= b
    ensures Pow2(a) <= Pow2(b)
    decreases b
  {
    if a < b {
      Pow2Grows(a, b - 1);
    }
  }

  lemma Scaled(v: nat, r: nat, p: nat)
    requires v <= r && 0 < r
    ensures v * p <= r * p && p <= r * p
  {
    assert (r - v) * p >= 0 && (r - 1) * p >= 0;
  }

  /** One digit goes to its place. */
  lemma DigitPlaced(v: nat, r: nat, shift: nat, count: nat)
    requires v <= r && 0 < r && count + r * Pow2(shift) < 0x1_0000_0000
    ensures (count + ShiftLeft(v, shift)) % 0x1_0000_0000 == count + v * Pow2(shift)
  {
    hide Pow2;
    Scaled(v, r, Pow2(shift));
    if shift >= 32 {
      Pow2Grows(32, shift);
      Pow2Word();
      assert false;
    }
  }

  lemma Sevenfold(shift: nat)
    ensures Pow2(shift + 7) == 128 * Pow2(shift)
  {
    assert Pow2(shift + 4) == 16 * Pow2(shift) by {
      assert Pow2(shift + 2) == 4 * Pow2(shift);
    }
    assert Pow2(shift + 6) == 4 * Pow2(shift + 4);
  }

  /** The digits of a header are read back. */
  lemma {:induction false} DigitsRead(file: seq<Byte>, at: nat, r: nat, shift: nat, count: nat)
    requires 0 < r && count + r * Pow2(shift) < 0x1_0000_0000 && Holds(file, at, SevenBits(r))
    ensures Digits(file, at, shift, true, count) == Ok((count + r * Pow2(shift), at + |SevenBits(r)|))
    decreases r
  {
    hide Index, ShiftLeft, Pow2;
    HoldsTail(file, at, SevenBits(r));
    DigitPlaced(r % 0x80, r, shift, count);
    if r >= 0x80 {
      Sevenfold(shift);
      var p := Pow2(shift);
      assert r * p == r % 0x80 * p + r / 0x80 * (128 * p) by {
        assert r == r % 0x80 + r / 0x80 * 128;
      }
      assert SevenBits(r)[1..] == SevenBits(r / 0x80);
      DigitsRead(file, at + 1, r / 0x80, shift + 7, count + r % 0x80 * p);
    }
  }

  /** The first byte of a header. */
  lemma FirstByte(kind: SectorType, n: nat)
    ensures var b := HeaderValues(kind, n)[0];
            KindOf(b) == kind && b / 4 % 0x20 == n % 0x20 && (b >= 0x80 <==> n >= 0x20)
    ensures n >= 0x20 ==> HeaderValues(kind, n)[1..] == SevenBits(n / 0x20)
    ensures n < 0x20 ==> |HeaderValues(kind, n)| == 1
  {
    var k, low := KindBits(kind), n % 0x20;
    assert (k + 4 * low) / 4 == low && (0x80 + k + 4 * low) / 4 == 0x20 + low;
  }

  /** A header is read back: kind, count, and where it ends. */
  lemma HeaderRead(file: seq<Byte>, at: nat, kind: SectorType, n: nat)
    requires n < 0x1_0000_0000 && Holds(file, at, HeaderValues(kind, n))
    ensures at < |file|
    ensures var b := Index(file[at]);
            KindOf(b) == kind
            && Digits(file, at + 1, 5, b >= 0x80, b / 4 % 0x20) == Ok((n, at + |HeaderValues(kind, n)|))
  {
    hide Index, HeaderValues, SevenBits, Holds, KindOf, ShiftLeft;
    HoldsTail(file, at, HeaderValues(kind, n));
    FirstByte(kind, n);
    if n >= 0x20 {
      assert Pow2(5) == 32;
      hide Digits;
      DigitsRead(file, at + 1, n / 0x20, 5, n % 0x20);
    }
  }

  // ---------------------------------------------------------------- records

  /** The chunks t, stored up to `end`, decode to what the chunks m decode to, and then these bytes. */
  ghost predicate Adds(file: seq<Byte>, m: seq<Chunk>, t: seq<Chunk>, end: nat, bytes: seq<Byte>) {
    Tiled(m) && Tiled(t) && Built(t, end) && Disc(file, t) == Disc(file, m) + bytes
  }

  lemma AddsNothing(file: seq<Byte>, m: seq<Chunk>, end: nat)
    requires Built(m, end)
    ensures Adds(file, m, m, end, [])
  {
    hide Disc;
    assert Disc(file, m) + [] == Disc(file, m);
  }

  lemma AddsThen(file: seq<Byte>, m: seq<Chunk>, t: seq<Chunk>, u: seq<Chunk>, middle: nat, end: nat, x: seq<Byte>,
                 y: seq<Byte>)
    requires Adds(file, m, t, middle, x) && Adds(file, t, u, end, y)
    ensures Adds(file, m, u, end, x + y)
  {
    hide Disc, Built, Tiled;
    assert Disc(file, m) + x + y == Disc(file, m) + (x + y);
  }

  /** One more chunk adds what it decodes to. */
  lemma AddsChunk(file: seq<Byte>, m: seq<Chunk>, c: Chunk)
    requires Built(m, c.fileOffset) && c.Fits() && c.start == Total(m) && Present(file, c)
    ensures Built(m + [c], c.fileOffset + c.Stored())
    ensures Adds(file, m, m + [c], c.fileOffset + c.Stored(), ChunkBytes(file, c))
  {
    BuiltNext(m, c, c.fileOffset);
    assert (m + [c])[..|m|] == m;
    hide ChunkBytes, Decoded;
  }

  lemma DecodeFirst(kind: SectorType, count: nat, first: seq<Byte>, rest: seq<Byte>)
    requires !kind.Raw? && count > 0 && |first| == SectorSize(kind) && |rest| == DataSize(kind, count - 1)
    ensures DataSize(kind, count) == |first| + |rest|
    ensures DecodeData(kind, count, first + rest) == Decoded(kind, first) + DecodeData(kind, count - 1, rest)
  {
    hide Decoded, SectorSize;
    assert (first + rest)[..|first|] == first && (first + rest)[|first|..] == rest;
  }

  lemma {:induction false} RawRead(file: seq<Byte>, m: seq<Chunk>, left: nat, at: nat)
    requires Built(m, at) && at + left <= |file|
    ensures Adds(file, m, Append(m, Raw, left, at), at + left, file[at..at + left])
    decreases left
  {
    hide Built, Adds, Decoded, ChunkBytes;
    if left == 0 {
      AddsNothing(file, m, at);
      assert file[at..at] == [];
    } else {
      var size := if left < RAW_SECTOR_SIZE then left else RAW_SECTOR_SIZE;
      var c := Chunk(Total(m), at, size, Raw);
      AddsChunk(file, m, c);
      PresentBytes(file, c);
      RawRead(file, m + [c], left - size, at + size);
      SliceSplit(file, at, at + size, at + left);
      AddsThen(file, m, m + [c], Append(m, Raw, left, at), at + size, at + left, file[at..at + size],
               file[at + size..at + left]);
    }
  }

  /** The chunk of the first of some sectors. */
  function SectorChunk(m: seq<Chunk>, kind: SectorType, at: nat): (c: Chunk)
    requires !kind.Raw?
    ensures c.Fits() && c.start == Total(m) && c.fileOffset == at && c.kind == kind && c.Stored() == SectorSize(kind)
  {
    Chunk(Total(m), at, ChunkSize(kind), kind)
  }

  lemma AppendFirst(m: seq<Chunk>, kind: SectorType, left: nat, at: nat)
    requires !kind.Raw? && left > 0
    ensures Append(m, kind, left, at) == Append(m + [SectorChunk(m, kind, at)], kind, left - 1, at + SectorSize(kind))
  {
  }

  lemma SectorDecoded(file: seq<Byte>, m: seq<Chunk>, kind: SectorType, at: nat)
    requires !kind.Raw? && at + SectorSize(kind) <= |file|
    ensures ChunkBytes(file, SectorChunk(m, kind, at)) == Decoded(kind, file[at..at + SectorSize(kind)])
  {
    hide Decoded, SectorSize, ChunkSize;
  }

  lemma DecodeSplit(file: seq<Byte>, kind: SectorType, left: nat, at: nat, end: nat)
    requires !kind.Raw? && left > 0 && end == at + DataSize(kind, left) <= |file|
    ensures end == at + SectorSize(kind) + DataSize(kind, left - 1)
    ensures var n := SectorSize(kind);
            DecodeData(kind, left, file[at..end])
            == Decoded(kind, file[at..at + n]) + DecodeData(kind, left - 1, file[at + n..end])
  {
    hide SectorSize, DecodeData, Decoded;
    var n := SectorSize(kind);
    SliceSplit(file, at, at + n, end);
    DecodeFirst(kind, left, file[at..at + n], file[at + n..end]);
  }

  lemma {:induction false} SectorsRead(file: seq<Byte>, m: seq<Chunk>, kind: SectorType, left: nat, at: nat)
    requires !kind.Raw? && Built(m, at) && at + DataSize(kind, left) <= |file|
    ensures var end := at + DataSize(kind, left);
            Adds(file, m, Append(m, kind, left, at), end, DecodeData(kind, left, file[at..end]))
    decreases left
  {
    hide Built, Adds, Decoded, SectorSize, ChunkSize, ChunkBytes;
    if left == 0 {
      AddsNothing(file, m, at);
    } else {
      AppendFirst(m, kind, left, at);
      SectorDecoded(file, m, kind, at);
      DecodeSplit(file, kind, left, at, at + DataSize(kind, left));
      hide Append, DecodeData, DataSize, SectorChunk;
      var n, end := SectorSize(kind), at + DataSize(kind, left);
      var c := SectorChunk(m, kind, at);
      AddsChunk(file, m, c);
      SectorsRead(file, m + [c], kind, left - 1, at + n);
      AddsThen(file, m, m + [c], Append(m, kind, left, at), at + n, end, ChunkBytes(file, c),
               DecodeData(kind, left - 1, file[at + n..end]));
    }
  }

  lemma RawRecordRead(file: seq<Byte>, m: seq<Chunk>, left: nat, at: nat)
    requires Built(m, at) && at + DataSize(Raw, left) <= |file|
    ensures var end := at + DataSize(Raw, left);
            Adds(file, m, Append(m, Raw, left, at), end, DecodeData(Raw, left, file[at..end]))
  {
    hide Built, Adds, Append;
    RawRead(file, m, left, at);
  }

  /** The chunks of a record decode to its disc bytes, behind those of the chunks before. */
  lemma RecordRead(file: seq<Byte>, m: seq<Chunk>, kind: SectorType, left: nat, at: nat)
    requires Built(m, at) && at + DataSize(kind, left) <= |file|
    ensures var end := at + DataSize(kind, left);
            Adds(file, m, Append(m, kind, left, at), end, DecodeData(kind, left, file[at..end]))
  {
    hide Built, Adds, Append, DecodeData, DataSize;
    if kind.Raw? {
      RawRecordRead(file, m, left, at);
    } else {
      SectorsRead(file, m, kind, left, at);
    }
  }

  // ---------------------------------------------------------------- whole files

  lemma Behind(file: seq<Byte>, at: nat, a: seq<Byte>, b: seq<Byte>)
    requires at <= |file| && file[at..] == a + b
    ensures at + |a| <= |file| && file[at..at + |a|] == a && file[at + |a|..] == b
  {
    assert file[at..][..|a|] == a && file[at..][|a|..] == b;
  }

  lemma EncodedHolds(file: seq<Byte>, at: nat, values: seq<nat>, rest: seq<Byte>)
    requires forall i :: 0 <= i < |values| ==> values[i] < 256
    requires at <= |file| && file[at..] == Encoded(values) + rest
    ensures Holds(file, at, values) && file[at + |values|..] == rest
  {
    hide Index, Encoded;
    Behind(file, at, Encoded(values), rest);
    forall i | 0 <= i < |values|
      ensures Index(file[at + i]) == values[i]
    {
      assert file[at + i] == file[at..at + |values|][i];
    }
  }

  /** What Open does with a header. */
  lemma HeaderMapped(file: seq<Byte>, m: seq<Chunk>, at: nat, kind: SectorType, count: nat)
    requires 0 < count < 0x8000_0000 && Holds(file, at, HeaderValues(kind, count - 1))
    ensures var next := at + |HeaderValues(kind, count - 1)|;
            && next + DataSize(kind, count) == AppendEnd(kind, count, next)
            && MapFrom(file, m, at) == MapFrom(file, Append(m, kind, count, next), next + DataSize(kind, count))
  {
    hide Index, Digits, Append, HeaderValues, Holds, KindOf, DataSize;
    HeaderRead(file, at, kind, count - 1);
    DataSizeIs(kind, count);
  }

  /** The first record is read, and Open goes on behind it. */
  lemma FirstRecordRead(file: seq<Byte>, m: seq<Chunk>, at: nat, r: Record, rest: seq<Byte>)
    requires r.WellFormed() && at <= |file| && Built(m, at)
    requires file[at..] == Encoded(HeaderValues(r.kind, r.count - 1)) + r.data + rest
    ensures var next := at + |HeaderValues(r.kind, r.count - 1)|; var end := next + |r.data|;
            && end <= |file| && file[end..] == rest
            && var t := Append(m, r.kind, r.count, next);
               MapFrom(file, m, at) == MapFrom(file, t, end)
               && Adds(file, m, t, end, DecodeData(r.kind, r.count, r.data))
  {
    hide Append, Encoded, HeaderValues, Adds, DecodeData, Built, DataSize, MapFrom, Holds, AppendEnd;
    var values := HeaderValues(r.kind, r.count - 1);
    Joined(Encoded(values), r.data, rest);
    EncodedHolds(file, at, values, r.data + rest);
    HeaderMapped(file, m, at, r.kind, r.count);
    var next := at + |values|;
    Behind(file, next, r.data, rest);
    BuiltUpTo(m, at, next);
    RecordRead(file, m, r.kind, r.count, next);
  }

  lemma EndRead(file: seq<Byte>, m: seq<Chunk>, at: nat)
    requires at <= |file| && file[at..] == Encoded(HeaderValues(Raw, 0xFFFF_FFFF))
    ensures MapFrom(file, m, at) == Ok(m)
  {
    hide Index, Digits, Append, Encoded, HeaderValues;
    var values := HeaderValues(Raw, 0xFFFF_FFFF);
    assert Encoded(values) + [] == Encoded(values);
    EncodedHolds(file, at, values, []);
    HeaderRead(file, at, Raw, 0xFFFF_FFFF);
  }

  /** The encoding of some records begins with that of the first. */
  lemma EncodedFirst(records: seq<Record>, end: seq<Byte>)
    requires records != [] && records[0].WellFormed()
    ensures var r := records[0];
            EncodeRecords(records) + end
            == Encoded(HeaderValues(r.kind, r.count - 1)) + r.data + (EncodeRecords(records[1..]) + end)
  {
    hide HeaderValues, Encoded;
    var r := records[0];
    Joined(Encoded(HeaderValues(r.kind, r.count - 1)) + r.data, EncodeRecords(records[1..]), end);
  }

  lemma Joined(d: seq<Byte>, x: seq<Byte>, y: seq<Byte>)
    ensures d + x + y == d + (x + y)
  {
  }

  /** All records are read. */
  lemma {:induction false} RecordsRead(file: seq<Byte>, m: seq<Chunk>, at: nat, records: seq<Record>)
    requires at <= |file| && Built(m, at) && forall i :: 0 <= i < |records| ==> records[i].WellFormed()
    requires file[at..] == EncodeRecords(records) + Encoded(HeaderValues(Raw, 0xFFFF_FFFF))
    ensures MapFrom(file, m, at).Ok?
    ensures Adds(file, m, MapFrom(file, m, at).value, |file|, DecodeRecords(records))
    decreases |records|
  {
    hide HeaderValues, Encoded, MapFrom, Adds, Append, DecodeData, Built;
    var end := Encoded(HeaderValues(Raw, 0xFFFF_FFFF));
    if records == [] {
      assert [] + end == end;
      EndRead(file, m, at);
      BuiltUpTo(m, at, |file|);
      AddsNothing(file, m, |file|);
    } else {
      var r := records[0];
      EncodedFirst(records, end);
      hide EncodeRecords;
      FirstRecordRead(file, m, at, r, EncodeRecords(records[1..]) + end);
      var next := at + |HeaderValues(r.kind, r.count - 1)|;
      var t, middle := Append(m, r.kind, r.count, next), next + |r.data|;
      AddsBuilt(file, m, t, middle, DecodeData(r.kind, r.count, r.data));
      RecordsRead(file, t, middle, records[1..]);
      AddsThen(file, m, t, MapFrom(file, m, at).value, middle, |file|, DecodeData(r.kind, r.count, r.data),
               DecodeRecords(records[1..]));
    }
  }

  lemma AddsBuilt(file: seq<Byte>, m: seq<Chunk>, t: seq<Chunk>, end: nat, bytes: seq<Byte>)
    requires Adds(file, m, t, end, bytes)
    ensures Tiled(t) && Built(t, end) && Disc(file, t) == Disc(file, m) + bytes
  {
    hide Disc;
  }

  /** A file that encodes records is opened exactly if they make up a sector or more, and its disc is what
      the records decode to. */
  lemma EncodedFileIsRead(records: seq<Record>)
    requires forall i :: 0 <= i < |records| ==> records[i].WellFormed()
    ensures var file, disc := EncodeFile(records), DecodeRecords(records);
            && (MapOf(file).Ok? <==> |disc| >= RAW_SECTOR_SIZE)
            && (MapOf(file).Ok? ==> IsMap(file, MapOf(file).value) && Disc(file, MapOf(file).value) == disc)
  {
    hide Index, MapFrom, EncodeRecords, DecodeRecords, HeaderValues, Encoded, Adds, Disc;
    var file := EncodeFile(records);
    var signature, end := Encoded([0x45, 0x43, 0x4D, 0]), Encoded(HeaderValues(Raw, 0xFFFF_FFFF));
    assert file[0..] == signature + (EncodeRecords(records) + end);
    EncodedHolds(file, 0, [0x45, 0x43, 0x4D, 0], EncodeRecords(records) + end);
    SignatureHeld(file);
    NothingBuilt();
    RecordsRead(file, [], 4, records);
    var t := MapFrom(file, [], 4).value;
    AddsBuilt(file, [], t, |file|, DecodeRecords(records));
    EmptyDisc(file);
    if Total(t) >= RAW_SECTOR_SIZE {
      BuiltPresent(file, t, |file|);
    }
  }

  lemma SignatureHeld(file: seq<Byte>)
    requires Holds(file, 0, [0x45, 0x43, 0x4D, 0])
    ensures HasSignature(file)
  {
    hide Index;
    forall i | 0 <= i < 4
      ensures Index(file[i]) == SIGNATURE[i]
    {
      assert Index(file[0 + i]) == [0x45, 0x43, 0x4D, 0][i];
    }
  }

  lemma EmptyDisc(file: seq<Byte>)
    ensures Tiled([]) && Disc(file, []) == [] && forall d: seq<Byte> :: [] + d == d
  {
  }
}
