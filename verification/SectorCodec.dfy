/** Sectors as functions of their data: the fields that eccedc_generate fills in are determined by the
    rest of the sector, and the decoded bytes of an ECM chunk by its payload
    (src/common/cd_image_ecm.cpp:84-156, 434-500). */
module SectorCodec {
  import opened Bits
  import opened Gf256
  import opened Edc
  import opened EccEdc

  // ---------------------------------------------------------------- parity

  /** The sector with the check symbols of one code filled in. */
  ghost function WithChecks(c: Code, s: seq<Byte>): (t: seq<Byte>)
    requires c.Fits() && |s| == RAW_SECTOR_SIZE
    ensures |t| == RAW_SECTOR_SIZE
  {
    seq(RAW_SECTOR_SIZE, k requires 0 <= k < RAW_SECTOR_SIZE => WithChecksAt(c, s, k))
  }

  ghost function WithChecksAt(c: Code, s: seq<Byte>, k: nat): Byte
    requires c.Fits() && |s| == RAW_SECTOR_SIZE && k < RAW_SECTOR_SIZE
  {
    var first := 12 + c.Size();
    if first <= k < first + c.majors then Check0(Data(c, s, k - first, c.minors))
    else if first + c.majors <= k < first + 2 * c.majors then Check1(Data(c, s, k - first - c.majors, c.minors))
    else s[k]
  }

  /** There is exactly one way to complete all vectors of a code. */
  lemma ChecksDetermined(c: Code, s: seq<Byte>, t: seq<Byte>)
    requires c.Fits() && |s| == |t| == RAW_SECTOR_SIZE
    ensures AllCodewords(c, t) && SameOutside(t, s, 12 + c.Size(), 12 + c.Size() + 2 * c.majors) <==> t == WithChecks(c, s)
  {
    hide IsCodeword, Check0, Check1, Data, AllCodewords;
    if AllCodewords(c, t) && SameOutside(t, s, 12 + c.Size(), 12 + c.Size() + 2 * c.majors) {
      forall m | 0 <= m < c.majors
        ensures t[12 + c.Size() + m] == Check0(Data(c, s, m, c.minors))
        ensures t[12 + c.Size() + c.majors + m] == Check1(Data(c, s, m, c.minors))
      {
        OneVector(c, s, t, m);
      }
      SameChecks(c, s, t);
    }
    if t == WithChecks(c, s) {
      ChecksMakeCodewords(c, s, t);
    }
  }

  lemma OneVector(c: Code, s: seq<Byte>, t: seq<Byte>, m: nat)
    requires c.Fits() && |s| == |t| == RAW_SECTOR_SIZE && m < c.majors
    requires AllCodewords(c, t) && SameOutside(t, s, 12 + c.Size(), 12 + c.Size() + 2 * c.majors)
    ensures t[12 + c.Size() + m] == Check0(Data(c, s, m, c.minors))
    ensures t[12 + c.Size() + c.majors + m] == Check1(Data(c, s, m, c.minors))
  {
    hide IsCodeword, Check0, Check1;
    DataFrame(c, t, s, m, c.minors);
    assert IsCodeword(Vector(c, t, m));
    ChecksCompleteCodeword(Data(c, s, m, c.minors), t[12 + c.Size() + m], t[12 + c.Size() + c.majors + m]);
  }

  lemma SameChecks(c: Code, s: seq<Byte>, t: seq<Byte>)
    requires c.Fits() && |s| == |t| == RAW_SECTOR_SIZE
    requires SameOutside(t, s, 12 + c.Size(), 12 + c.Size() + 2 * c.majors)
    requires forall m :: 0 <= m < c.majors ==> t[12 + c.Size() + m] == Check0(Data(c, s, m, c.minors))
    requires forall m :: 0 <= m < c.majors ==> t[12 + c.Size() + c.majors + m] == Check1(Data(c, s, m, c.minors))
    ensures t == WithChecks(c, s)
  {
    hide Check0, Check1, Data, Code.Fits;
    var w, first := WithChecks(c, s), 12 + c.Size();
    forall k | 0 <= k < RAW_SECTOR_SIZE
      ensures t[k] == w[k]
    {
      if first <= k < first + c.majors {
        var m := k - first;
        assert t[first + m] == w[k];
      } else if first + c.majors <= k < first + 2 * c.majors {
        var m := k - first - c.majors;
        assert t[first + c.majors + m] == w[k];
      }
    }
  }

  /** P parity, then Q parity over it. */
  ghost function WithParity(s: seq<Byte>): (t: seq<Byte>)
    requires |s| == RAW_SECTOR_SIZE
    ensures |t| == RAW_SECTOR_SIZE
  {
    CodesFit();
    WithChecks(Q_CODE, WithChecks(P_CODE, s))
  }

  lemma ParityDetermined(s: seq<Byte>, t: seq<Byte>)
    requires |s| == |t| == RAW_SECTOR_SIZE
    ensures P_CODE.Fits() && Q_CODE.Fits()
    ensures AllCodewords(P_CODE, t) && AllCodewords(Q_CODE, t) && SameOutside(t, s, 0x81C, RAW_SECTOR_SIZE) <==> t == WithParity(s)
  {
    CodesFit();
    hide AllCodewords, WithChecks, Code.Fits;
    var p := t[..0x8C8] + s[0x8C8..];
    if AllCodewords(P_CODE, t) && AllCodewords(Q_CODE, t) && SameOutside(t, s, 0x81C, RAW_SECTOR_SIZE) {
      AllCodewordsFrame(P_CODE, t, p);
      ChecksDetermined(P_CODE, s, p);
      ChecksDetermined(Q_CODE, p, t);
    }
    if t == WithParity(s) {
      var q := WithChecks(P_CODE, s);
      ChecksDetermined(P_CODE, s, q);
      ChecksDetermined(Q_CODE, q, t);
      AllCodewordsFrame(P_CODE, q, t);
    }
  }

  // ---------------------------------------------------------------- whole sectors

  /** The stored form of a checksum. */
  ghost function Checksum(d: seq<Byte>): (b: seq<Byte>)
    ensures |b| == 4
  {
    Bytes4(Crc(d))
  }

  ghost function Mode1Of(s: seq<Byte>): (t: seq<Byte>)
    requires |s| == RAW_SECTOR_SIZE
    ensures |t| == RAW_SECTOR_SIZE
  {
    WithParity(s[..0x810] + Checksum(s[..0x810]) + seq(8, _ => ZERO_BYTE) + s[0x81C..])
  }

  /** A mode 1 sector is determined by its first 0x810 bytes. */
  lemma Mode1Determined(s: seq<Byte>, t: seq<Byte>)
    requires |s| == |t| == RAW_SECTOR_SIZE
    ensures P_CODE.Fits() && Q_CODE.Fits()
    ensures Mode1Sector(t) && SameOutside(t, s, 0x810, RAW_SECTOR_SIZE) <==> t == Mode1Of(s)
  {
    CodesFit();
    hide AllCodewords, WithParity, Code.Fits, Crc, Bytes4;
    var e := s[..0x810] + Checksum(s[..0x810]) + seq(8, _ => ZERO_BYTE) + s[0x81C..];
    ParityDetermined(e, t);
    if Mode1Sector(t) && SameOutside(t, s, 0x810, RAW_SECTOR_SIZE) {
      assert t[..0x810] == s[..0x810];
      forall i | 0 <= i < 0x81C
        ensures t[i] == e[i]
      {
        if 0x810 <= i < 0x814 {
          assert t[i] == t[0x810..0x814][i - 0x810];
        }
      }
    }
    if t == Mode1Of(s) {
      assert t[..0x810] == s[..0x810];
      assert t[0x810..0x814] == Bytes4(Crc(s[..0x810]));
    }
  }

  ghost function Mode2Form1Of(s: seq<Byte>): (t: seq<Byte>)
    requires |s| == RAW_SECTOR_SIZE
    ensures |t| == RAW_SECTOR_SIZE
  {
    hide Crc, Bytes4;
    var z := WithParity(ZeroHeader(s[..0x818] + Checksum(s[0x10..0x818]) + s[0x81C..]));
    z[..12] + s[12..16] + z[16..]
  }

  /** A mode 2 form 1 sector is determined by its first 0x818 bytes, the header not entering the parity. */
  lemma Mode2Form1Determined(s: seq<Byte>, t: seq<Byte>)
    requires |s| == |t| == RAW_SECTOR_SIZE
    ensures P_CODE.Fits() && Q_CODE.Fits()
    ensures Mode2Form1Sector(t) && SameOutside(t, s, 0x818, RAW_SECTOR_SIZE) <==> t == Mode2Form1Of(s)
  {
    CodesFit();
    hide AllCodewords, WithParity, Code.Fits, Crc, Bytes4;
    var e := s[..0x818] + Checksum(s[0x10..0x818]) + s[0x81C..];
    var z := WithParity(ZeroHeader(e));
    ParityDetermined(ZeroHeader(e), ZeroHeader(t));
    if Mode2Form1Sector(t) && SameOutside(t, s, 0x818, RAW_SECTOR_SIZE) {
      assert t[0x10..0x818] == s[0x10..0x818];
      forall i | 0 <= i < 0x81C
        ensures t[i] == e[i]
      {
        if 0x818 <= i < 0x81C {
          assert t[i] == t[0x818..0x81C][i - 0x818];
        }
      }
      assert ZeroHeader(t) == z;
      assert t == z[..12] + s[12..16] + z[16..];
    }
    if t == Mode2Form1Of(s) {
      ParityDetermined(ZeroHeader(e), z);
      assert ZeroHeader(t) == z;
      assert forall i :: 16 <= i < RAW_SECTOR_SIZE ==> t[i] == z[i];
      assert forall i :: 16 <= i < 0x81C ==> z[i] == e[i];
      assert t[0x10..0x818] == s[0x10..0x818];
      assert t[0x818..0x81C] == Checksum(s[0x10..0x818]);
    }
  }

  ghost function Mode2Form2Of(s: seq<Byte>): (t: seq<Byte>)
    requires |s| == RAW_SECTOR_SIZE
    ensures |t| == RAW_SECTOR_SIZE
  {
    s[..0x92C] + Checksum(s[0x10..0x92C])
  }

  // ---------------------------------------------------------------- ECM chunks

  datatype SectorType = Raw | Mode1 | Mode2Form1 | Mode2Form2

  const ONES_BYTE: Byte := [true, true, true, true, true, true, true, true]

  /** Bytes that one encoded sector takes in the file, and bytes that it decodes to. */
  function SectorSize(t: SectorType): nat
    requires !t.Raw?
  {
    match t
    case Mode1 => 0x803
    case Mode2Form1 => 0x804
    case Mode2Form2 => 0x918
  }

  function ChunkSize(t: SectorType): (n: nat)
    requires !t.Raw?
    ensures 0 < n <= RAW_SECTOR_SIZE
  {
    if t.Mode1? then 2352 else 2336
  }

  /** The sector before generation: sync pattern, mode, and the payload at its place; the first four
      subheader bytes of mode 2 are stored once and repeated. */
  function Prepared(t: SectorType, payload: seq<Byte>): (s: seq<Byte>)
    requires !t.Raw? && |payload| == SectorSize(t)
    ensures |s| == RAW_SECTOR_SIZE
  {
    seq(RAW_SECTOR_SIZE, i requires 0 <= i < RAW_SECTOR_SIZE => PreparedAt(t, payload, i))
  }

  function PreparedAt(t: SectorType, payload: seq<Byte>, i: nat): Byte
    requires !t.Raw? && |payload| == SectorSize(t)
  {
    if i < 12 then (if 1 <= i < 11 then ONES_BYTE else ZERO_BYTE)
    else if t.Mode1? then
      if i < 0x0F then payload[i - 0x0C]
      else if i == 0x0F then ByteOf(1)
      else if i < 0x810 then payload[i - 0x0D]
      else ZERO_BYTE
    else
      if i < 0x0F then ZERO_BYTE
      else if i == 0x0F then ByteOf(2)
      else if i < 0x14 then payload[i - 0x10]
      else if i < 0x14 + |payload| then payload[i - 0x14]
      else ZERO_BYTE
  }

  /** The disc bytes of one encoded sector. */
  ghost function Decoded(t: SectorType, payload: seq<Byte>): (d: seq<Byte>)
    requires !t.Raw? && |payload| == SectorSize(t)
    ensures |d| == ChunkSize(t)
  {
    var s := Prepared(t, payload);
    match t
    case Mode1 => Mode1Of(s)
    case Mode2Form1 => Mode2Form1Of(s)[0x10..]
    case Mode2Form2 => Mode2Form2Of(s)[0x10..]
  }

  /** Byte by byte, the disc bytes d of an encoded sector. */
  ghost predicate IsSector(t: SectorType, payload: seq<Byte>, d: seq<Byte>) {
    match t
    case Raw => d == payload
    case Mode1 => IsMode1(payload, d)
    case Mode2Form1 => IsForm1(payload, d)
    case Mode2Form2 => IsForm2(payload, d)
  }

  /** Mode 1: a whole sector with its sync pattern, the three address bytes, mode 1 and the data, then the
      checksum, zeros and the parity. */
  ghost predicate IsMode1(payload: seq<Byte>, d: seq<Byte>) {
    && |payload| == 3 + 0x800 && |d| == RAW_SECTOR_SIZE
    && d[0] == d[11] == ZERO_BYTE && (forall i :: 1 <= i < 11 ==> d[i] == ONES_BYTE)
    && d[12..15] == payload[..3] && Index(d[15]) == 1 && d[16..0x810] == payload[3..]
    && (CodesFit(); Mode1Sector(d))
  }

  /** Mode 2 form 1, without the first 16 bytes: the subheader twice and the data, then their checksum, and
      the parity, for which the address counts as zero. */
  ghost predicate IsForm1(payload: seq<Byte>, d: seq<Byte>) {
    && |payload| == 4 + 0x800 && |d| == RAW_SECTOR_SIZE - 16
    && d[..4] == payload[..4] && d[4..0x808] == payload
    && d[0x808..0x80C] == Bytes4(Crc(d[..0x808]))
    && (CodesFit(); AllCodewords(P_CODE, Blank16() + d) && AllCodewords(Q_CODE, Blank16() + d))
  }

  /** Mode 2 form 2, without the first 16 bytes: the subheader twice and the data, then their checksum. */
  ghost predicate IsForm2(payload: seq<Byte>, d: seq<Byte>) {
    && |payload| == 4 + 0x914 && |d| == RAW_SECTOR_SIZE - 16
    && d[..4] == payload[..4] && d[4..0x91C] == payload
    && d[0x91C..] == Bytes4(Crc(d[..0x91C]))
  }

  function Blank16(): (z: seq<Byte>)
    ensures |z| == 16 && forall i :: 0 <= i < 16 ==> z[i] == ZERO_BYTE
  {
    seq(16, _ => ZERO_BYTE)
  }

  /** A slice, byte by byte. */
  lemma SliceIs(d: seq<Byte>, at: nat, p: seq<Byte>)
    requires at + |p| <= |d|
    ensures d[at..at + |p|] == p <==> forall j :: 0 <= j < |p| ==> d[at + j] == p[j]
  {
    if d[at..at + |p|] == p {
      forall j | 0 <= j < |p|
        ensures d[at + j] == p[j]
      {
        assert d[at..at + |p|][j] == p[j];
      }
    }
  }

  lemma ModeByte(b: Byte)
    ensures Index(b) == 1 <==> b == ByteOf(1)
  {
    hide Index, ByteOf;
    if Index(b) == 1 {
      IndexInjective(b, ByteOf(1));
    }
  }

  lemma Mode1Prepared(payload: seq<Byte>, d: seq<Byte>)
    requires |payload| == SectorSize(Mode1) && |d| == RAW_SECTOR_SIZE
    ensures SameOutside(d, Prepared(Mode1, payload), 0x810, RAW_SECTOR_SIZE)
            <==> d[0] == d[11] == ZERO_BYTE && (forall i :: 1 <= i < 11 ==> d[i] == ONES_BYTE)
                 && d[12..15] == payload[..3] && Index(d[15]) == 1 && d[16..0x810] == payload[3..]
  {
    ModeByte(d[15]);
    SliceIs(d, 12, payload[..3]);
    SliceIs(d, 16, payload[3..]);
    hide ByteOf, Index;
    var s := Prepared(Mode1, payload);
    assert forall i :: 12 <= i < 15 ==> s[i] == payload[..3][i - 12];
    assert forall i :: 16 <= i < 0x810 ==> s[i] == payload[3..][i - 16];
    if d[12..15] == payload[..3] && d[16..0x810] == payload[3..] {
      forall i | 12 <= i < 15
        ensures d[i] == s[i]
      {
        assert d[12 + (i - 12)] == payload[..3][i - 12];
      }
      forall i | 16 <= i < 0x810
        ensures d[i] == s[i]
      {
        assert d[16 + (i - 16)] == payload[3..][i - 16];
      }
    }
  }

  lemma Mode1Exactly(payload: seq<Byte>, d: seq<Byte>)
    requires |payload| == SectorSize(Mode1)
    ensures IsSector(Mode1, payload, d) <==> d == Decoded(Mode1, payload)
  {
    hide Mode1Sector, Mode1Of, Prepared, ByteOf, Index, SameOutside;
    if |d| == RAW_SECTOR_SIZE {
      Mode1Prepared(payload, d);
      Mode1Determined(Prepared(Mode1, payload), d);
    }
  }

  /** The first bytes of a mode 2 sector, without its header. */
  lemma Mode2Prepared(t: SectorType, payload: seq<Byte>, d: seq<Byte>)
    requires t.Mode2Form1? || t.Mode2Form2?
    requires |payload| == SectorSize(t) && |d| == RAW_SECTOR_SIZE - 16
    ensures var s := Prepared(t, payload);
            SameOutside(s[..16] + d, s, 0x14 + |payload|, RAW_SECTOR_SIZE)
            <==> d[..4] == payload[..4] && d[4..4 + |payload|] == payload
  {
    SliceIs(d, 0, payload[..4]);
    SliceIs(d, 4, payload);
    hide ByteOf;
    var s, n := Prepared(t, payload), 4 + |payload|;
    var w := s[..16] + d;
    assert forall i :: 16 <= i < 20 ==> s[i] == payload[..4][i - 16] && w[i] == d[i - 16];
    assert forall i :: 20 <= i < 16 + n ==> s[i] == payload[i - 20] && w[i] == d[4 + (i - 20)];
    if SameOutside(w, s, 16 + n, RAW_SECTOR_SIZE) {
      forall j | 0 <= j < 4
        ensures d[j] == payload[..4][j]
      {
        assert w[16 + j] == s[16 + j];
      }
      forall j | 0 <= j < |payload|
        ensures d[4 + j] == payload[j]
      {
        assert w[20 + j] == s[20 + j];
      }
    }
  }

  lemma Form1Exactly(payload: seq<Byte>, d: seq<Byte>)
    requires |payload| == SectorSize(Mode2Form1)
    ensures IsSector(Mode2Form1, payload, d) <==> d == Decoded(Mode2Form1, payload)
  {
    hide Mode2Form1Sector, Mode2Form1Of, Prepared, ByteOf, SameOutside, AllCodewords, Crc, Bytes4;
    if |d| == RAW_SECTOR_SIZE - 16 {
      var s := Prepared(Mode2Form1, payload);
      Mode2Prepared(Mode2Form1, payload, d);
      Mode2Form1Determined(s, s[..16] + d);
      BlankHeader(s[..16], d);
      Mode2Form1Header(s);
      assert (s[..16] + d)[16..] == d;
    }
  }

  /** The parity of mode 2 form 1 does not depend on the first 16 bytes. */
  lemma BlankHeader(header: seq<Byte>, d: seq<Byte>)
    requires |header| == 16 && |d| == RAW_SECTOR_SIZE - 16
    ensures P_CODE.Fits() && Q_CODE.Fits()
    ensures Mode2Form1Sector(header + d)
            <==> d[0x808..0x80C] == Bytes4(Crc(d[..0x808]))
                 && AllCodewords(P_CODE, Blank16() + d) && AllCodewords(Q_CODE, Blank16() + d)
  {
    hide AllCodewords, Crc, Bytes4;
    CodesFit();
    var w, b := header + d, Blank16() + d;
    assert w[0x10..0x818] == d[..0x808] && w[0x818..0x81C] == d[0x808..0x80C];
    var z := ZeroHeader(w);
    assert forall i :: 12 <= i < RAW_SECTOR_SIZE ==> z[i] == b[i];
    SameCodewords(P_CODE, z, b);
    SameCodewords(Q_CODE, z, b);
  }

  lemma SameCodewords(c: Code, s: seq<Byte>, t: seq<Byte>)
    requires c.Fits() && |s| == |t| == RAW_SECTOR_SIZE && forall i :: 12 <= i < RAW_SECTOR_SIZE ==> s[i] == t[i]
    ensures AllCodewords(c, s) <==> AllCodewords(c, t)
  {
    hide AllCodewords;
    if AllCodewords(c, s) {
      AllCodewordsFrame(c, s, t);
    }
    if AllCodewords(c, t) {
      AllCodewordsFrame(c, t, s);
    }
  }

  /** Completing a mode 2 form 1 sector leaves its first 16 bytes alone. */
  lemma Mode2Form1Header(s: seq<Byte>)
    requires |s| == RAW_SECTOR_SIZE
    ensures Mode2Form1Of(s) == s[..16] + Mode2Form1Of(s)[16..]
  {
    hide Mode2Form1Of, Mode2Form1Sector;
    var t := Mode2Form1Of(s);
    Mode2Form1Determined(s, t);
  }

  lemma Form2Exactly(payload: seq<Byte>, d: seq<Byte>)
    requires |payload| == SectorSize(Mode2Form2)
    ensures IsSector(Mode2Form2, payload, d) <==> d == Decoded(Mode2Form2, payload)
  {
    hide Prepared, ByteOf, SameOutside, Crc, Bytes4;
    if |d| == RAW_SECTOR_SIZE - 16 {
      var s := Prepared(Mode2Form2, payload);
      Mode2Prepared(Mode2Form2, payload, d);
      Form2Bytes(s, d);
    }
  }

  lemma Form2Bytes(s: seq<Byte>, d: seq<Byte>)
    requires |s| == RAW_SECTOR_SIZE && |d| == RAW_SECTOR_SIZE - 16
    ensures d == Mode2Form2Of(s)[16..]
            <==> SameOutside(s[..16] + d, s, 0x92C, RAW_SECTOR_SIZE) && d[0x91C..] == Bytes4(Crc(d[..0x91C]))
  {
    hide Crc, Bytes4;
    var w := s[..16] + d;
    if SameOutside(w, s, 0x92C, RAW_SECTOR_SIZE) {
      assert d[..0x91C] == w[16..0x92C] == s[16..0x92C];
      assert d == d[..0x91C] + d[0x91C..];
      if d[0x91C..] == Bytes4(Crc(d[..0x91C])) {
        assert d == Mode2Form2Of(s)[16..];
      }
    }
    if d == Mode2Form2Of(s)[16..] {
      assert d[..0x91C] == s[16..0x92C];
      assert d[0x91C..] == Checksum(s[16..0x92C]);
      forall i | 16 <= i < 0x92C
        ensures w[i] == s[i]
      {
        assert d[..0x91C][i - 16] == s[16..0x92C][i - 16];
      }
    }
  }

  /** These are the decoded bytes, and no others. */
  lemma DecodedExactly(t: SectorType, payload: seq<Byte>, d: seq<Byte>)
    requires !t.Raw? && |payload| == SectorSize(t)
    ensures IsSector(t, payload, d) <==> d == Decoded(t, payload)
  {
    hide IsSector, Decoded;
    match t
    case Mode1 => Mode1Exactly(payload, d);
    case Mode2Form1 => Form1Exactly(payload, d);
    case Mode2Form2 => Form2Exactly(payload, d);
  }

  /** The case analysis of ReadChunks for one encoded sector. */
  method DecodeSector(g: Generator, t: SectorType, payload: seq<Byte>) returns (d: seq<Byte>)
    requires g.Valid() && !t.Raw? && |payload| == SectorSize(t)
    ensures d == Decoded(t, payload) && IsSector(t, payload, d)
  {
    hide AllCodewords, WithParity, Crc, Bytes4, Prepared, Mode1Of, Mode2Form1Of, Mode1Sector, Mode2Form1Sector,
         Generator.Valid, IsSector;
    ghost var s := Prepared(t, payload);
    var sector := Fill(t, payload);
    match t {
    case Mode1 =>
      g.GenerateMode1(sector);
      Mode1Determined(s, sector[..]);
      d := sector[..];
    case Mode2Form1 =>
      g.GenerateMode2Form1(sector);
      Mode2Form1Determined(s, sector[..]);
      d := sector[0x10..];
    case Mode2Form2 =>
      g.GenerateMode2Form2(sector);
      Mode2Form2Done(s, sector[..]);
      d := sector[0x10..];
    }
    DecodedExactly(t, payload, d);
  }

  lemma Mode2Form2Done(s: seq<Byte>, t: seq<Byte>)
    requires |s| == |t| == RAW_SECTOR_SIZE && SameOutside(t, s, 0x92C, RAW_SECTOR_SIZE)
    requires t[0x92C..0x930] == Bytes4(Crc(t[0x10..0x92C]))
    ensures t == Mode2Form2Of(s)
  {
    hide Crc, Bytes4;
    assert t[0x10..0x92C] == s[0x10..0x92C];
    assert t == t[..0x92C] + t[0x92C..0x930];
    assert t[..0x92C] == s[..0x92C];
  }

  /** The sector buffer that ReadChunks reads the payload into. */
  method Fill(t: SectorType, payload: seq<Byte>) returns (sector: array<Byte>)
    requires !t.Raw? && |payload| == SectorSize(t)
    ensures fresh(sector) && sector[..] == Prepared(t, payload)
  {
    hide ByteOf, Prepared;
    sector := new Byte[RAW_SECTOR_SIZE](i => if 1 <= i < 11 then ONES_BYTE else ZERO_BYTE);
    if t.Mode1? {
      FillMode1(sector, payload);
    } else {
      FillMode2(sector, t, payload);
    }
    PreparedFrom(t, payload, sector[..]);
  }

  method FillMode1(sector: array<Byte>, payload: seq<Byte>)
    requires sector.Length == RAW_SECTOR_SIZE && |payload| == SectorSize(Mode1)
    requires forall i :: 0 <= i < RAW_SECTOR_SIZE ==> sector[i] == if 1 <= i < 11 then ONES_BYTE else ZERO_BYTE
    modifies sector
    ensures forall i :: 0 <= i < RAW_SECTOR_SIZE ==> sector[i] == PreparedAt(Mode1, payload, i)
  {
    hide ByteOf;
    sector[0x0F] := ByteOf(1);
    forall i | 0 <= i < 3 {
      sector[0x0C + i] := payload[i];
    }
    forall i | 0 <= i < 0x800 {
      sector[0x10 + i] := payload[3 + i];
    }
  }

  method FillMode2(sector: array<Byte>, t: SectorType, payload: seq<Byte>)
    requires sector.Length == RAW_SECTOR_SIZE && (t.Mode2Form1? || t.Mode2Form2?) && |payload| == SectorSize(t)
    requires forall i :: 0 <= i < RAW_SECTOR_SIZE ==> sector[i] == if 1 <= i < 11 then ONES_BYTE else ZERO_BYTE
    modifies sector
    ensures forall i :: 0 <= i < RAW_SECTOR_SIZE ==> sector[i] == PreparedAt(t, payload, i)
  {
    hide ByteOf;
    sector[0x0F] := ByteOf(2);
    forall i | 0 <= i < |payload| {
      sector[0x14 + i] := payload[i];
    }
    forall i | 0 <= i < 4 {
      sector[0x10 + i] := sector[0x14 + i];
    }
  }

  lemma PreparedFrom(t: SectorType, payload: seq<Byte>, s: seq<Byte>)
    requires !t.Raw? && |payload| == SectorSize(t) && |s| == RAW_SECTOR_SIZE
    requires forall i :: 0 <= i < RAW_SECTOR_SIZE ==> s[i] == PreparedAt(t, payload, i)
    ensures s == Prepared(t, payload)
  {
    hide PreparedAt;
  }
}
