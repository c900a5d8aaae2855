/** Sector reconstruction of src/common/cd_image_ecm.cpp: the EDC checksum and the Reed-Solomon
    product code of section 14 and Annex A of ECMA-130, computed in place on a 2352-byte sector. */
module EccEdc {
  import opened Arithmetic
  import opened Bits
  import opened Gf256
  import opened Edc

  const RAW_SECTOR_SIZE: nat := 2352

  // ---------------------------------------------------------------- layout of the P and Q vectors

  /** Parameters of one of the two codes: `majors` vectors of `minors` data symbols each. */
  datatype Code = Code(majors: nat, minors: nat, mult: nat, inc: nat) {
    function Size(): nat { majors * minors }

    /** Position, relative to the sector header, of data symbol k of vector m. */
    function Position(m: nat, k: nat): (p: nat)
      requires Size() > 0
      ensures p < Size()
    {
      (m / 2 * mult + m % 2 + inc * k) % Size()
    }

    ghost predicate Fits() {
      && 0 < Size() && inc < Size() && 12 + Size() + 2 * majors <= RAW_SECTOR_SIZE
      && forall m :: 0 <= m < majors ==> m / 2 * mult + m % 2 < Size()
    }
  }

  const P_CODE := Code(86, 24, 2, 86)
  const Q_CODE := Code(52, 43, 86, 88)

  ghost function Data(c: Code, sector: seq<Byte>, m: nat, n: nat): (d: seq<Byte>)
    requires c.Fits() && |sector| == RAW_SECTOR_SIZE
    ensures |d| == n
    ensures n == 0 ==> d == []
  {
    seq(n, k requires 0 <= k => sector[12 + c.Position(m, k)])
  }

  lemma DataStep(c: Code, sector: seq<Byte>, m: nat, n: nat)
    requires c.Fits() && |sector| == RAW_SECTOR_SIZE
    ensures var d, t := Data(c, sector, m, n), sector[12 + c.Position(m, n)];
            && Syndrome0(Data(c, sector, m, n + 1)) == Xor(Syndrome0(d), t)
            && Syndrome1(Data(c, sector, m, n + 1)) == Xor(Mul2(Syndrome1(d)), t)
  {
    hide Syndrome0, Syndrome1, Mul2, Xor, Code.Position;
    var d, t := Data(c, sector, m, n), sector[12 + c.Position(m, n)];
    assert Data(c, sector, m, n + 1) == d + [t];
    SyndromeAppend(d, t);
  }

  /** Vector m of a code, as the standard lays it out in the sector: data symbols then two checks. */
  ghost function Vector(c: Code, sector: seq<Byte>, m: nat): seq<Byte>
    requires c.Fits() && |sector| == RAW_SECTOR_SIZE && m < c.majors
  {
    Data(c, sector, m, c.minors) + [sector[12 + c.Size() + m], sector[12 + c.Size() + c.majors + m]]
  }

  ghost predicate AllCodewords(c: Code, sector: seq<Byte>)
    requires c.Fits() && |sector| == RAW_SECTOR_SIZE
  {
    forall m :: 0 <= m < c.majors ==> IsCodeword(Vector(c, sector, m))
  }

  lemma CodesFit()
    ensures P_CODE.Fits() && Q_CODE.Fits()
  {
  }

  lemma PositionStart(c: Code, m: nat)
    requires c.Fits() && m < c.majors
    ensures c.Position(m, 0) == m / 2 * c.mult + m % 2
  {
    var start := m / 2 * c.mult + m % 2;
    DivMod(start + c.inc * 0, c.Size(), 0, start);
  }

  /** The source steps an index by `inc` and wraps it by one subtraction. */
  lemma PositionStep(c: Code, m: nat, k: nat)
    requires c.Fits()
    ensures c.Position(m, k + 1) == (var i := c.Position(m, k) + c.inc; if i >= c.Size() then i - c.Size() else i)
  {
    var x := m / 2 * c.mult + m % 2 + c.inc * k;
    assert m / 2 * c.mult + m % 2 + c.inc * (k + 1) == x + c.inc;
    ModStep(x, c.inc, c.Size());
  }

  lemma ModStep(x: nat, inc: nat, size: nat)
    requires inc < size
    ensures (x + inc) % size == (if x % size + inc >= size then x % size + inc - size else x % size + inc)
  {
    var q, r := x / size, x % size;
    if r + inc >= size {
      assert size * (q + 1) == size * q + size;
      DivMod(x + inc, size, q + 1, r + inc - size);
    } else {
      DivMod(x + inc, size, q, r + inc);
    }
  }

  // ---------------------------------------------------------------- what a generated sector is

  /** The sector with its header read as zero, as the code sees a mode 2 sector. */
  ghost function ZeroHeader(sector: seq<Byte>): (z: seq<Byte>)
    requires |sector| == RAW_SECTOR_SIZE
    ensures |z| == |sector|
  {
    sector[..12] + [ZERO_BYTE, ZERO_BYTE, ZERO_BYTE, ZERO_BYTE] + sector[16..]
  }

  ghost predicate SameOutside(a: seq<Byte>, b: seq<Byte>, lo: nat, hi: nat)
    requires |a| == |b|
  {
    forall i :: 0 <= i < |a| && !(lo <= i < hi) ==> a[i] == b[i]
  }

  /** Mode 1: EDC over the first 0x810 bytes, eight zero bytes, P and Q parity over the header on. */
  ghost predicate Mode1Sector(s: seq<Byte>)
    requires |s| == RAW_SECTOR_SIZE
  {
    && s[0x810..0x814] == Bytes4(Crc(s[..0x810]))
    && (forall i :: 0x814 <= i < 0x81C ==> s[i] == ZERO_BYTE)
    && AllCodewords(P_CODE, s) && AllCodewords(Q_CODE, s)
  }

  /** Mode 2 form 1: EDC over subheader and data; parity computed with the header taken as zero. */
  ghost predicate Mode2Form1Sector(s: seq<Byte>)
    requires |s| == RAW_SECTOR_SIZE
  {
    && s[0x818..0x81C] == Bytes4(Crc(s[0x10..0x818]))
    && AllCodewords(P_CODE, ZeroHeader(s)) && AllCodewords(Q_CODE, ZeroHeader(s))
  }

  // ---------------------------------------------------------------- the in-place generator

  lemma VectorFrame(c: Code, s: seq<Byte>, t: seq<Byte>, m: nat)
    requires c.Fits() && |s| == |t| == RAW_SECTOR_SIZE && m < c.majors
    requires forall i :: 12 <= i < 12 + c.Size() + 2 * c.majors ==> s[i] == t[i]
    ensures Vector(c, s, m) == Vector(c, t, m)
  {
    assert Data(c, s, m, c.minors) == Data(c, t, m, c.minors);
  }

  /** Parity depends only on the span from the header to the end of the code's check symbols. */
  lemma AllCodewordsFrame(c: Code, s: seq<Byte>, t: seq<Byte>)
    requires c.Fits() && |s| == |t| == RAW_SECTOR_SIZE
    requires forall i :: 12 <= i < 12 + c.Size() + 2 * c.majors ==> s[i] == t[i]
    requires AllCodewords(c, s)
    ensures AllCodewords(c, t)
  {
    forall m | 0 <= m < c.majors
      ensures IsCodeword(Vector(c, t, m))
    {
      VectorFrame(c, s, t, m);
    }
  }

  lemma DataFrame(c: Code, s: seq<Byte>, t: seq<Byte>, m: nat, n: nat)
    requires c.Fits() && |s| == |t| == RAW_SECTOR_SIZE
    requires forall i :: 12 <= i < 12 + c.Size() ==> s[i] == t[i]
    ensures Data(c, s, m, n) == Data(c, t, m, n)
  {
  }

  /** Every vector's data is unchanged and followed by its check symbols. */
  ghost predicate ChecksWritten(c: Code, s: seq<Byte>, t: seq<Byte>)
    requires c.Fits() && |s| == |t| == RAW_SECTOR_SIZE
  {
    && (forall i :: 12 <= i < 12 + c.Size() ==> s[i] == t[i])
    && (forall m :: 0 <= m < c.majors ==> t[12 + c.Size() + m] == Check0(Data(c, s, m, c.minors)))
    && (forall m :: 0 <= m < c.majors ==> t[12 + c.Size() + c.majors + m] == Check1(Data(c, s, m, c.minors)))
  }

  lemma ChecksMakeCodewords(c: Code, s: seq<Byte>, t: seq<Byte>)
    requires c.Fits() && |s| == |t| == RAW_SECTOR_SIZE && ChecksWritten(c, s, t)
    ensures AllCodewords(c, t)
  {
    hide IsCodeword, Check0, Check1;
    forall m | 0 <= m < c.majors
      ensures IsCodeword(Vector(c, t, m))
    {
      DataFrame(c, t, s, m, c.minors);
      var d := Data(c, s, m, c.minors);
      ChecksCompleteCodeword(d, Check0(d), Check1(d));
    }
  }

  /** s0, then with checksum and zeros, then with parity: a mode 1 sector that differs from s0 only
      behind the data. */
  lemma Mode1Done(s0: seq<Byte>, s1: seq<Byte>, s: seq<Byte>)
    requires |s0| == |s1| == |s| == RAW_SECTOR_SIZE
    requires SameOutside(s1, s0, 0x810, 0x81C) && SameOutside(s, s1, 0x81C, RAW_SECTOR_SIZE)
    requires s1[0x810..0x814] == Bytes4(Crc(s0[..0x810])) && forall j :: 0x814 <= j < 0x81C ==> s1[j] == ZERO_BYTE
    requires P_CODE.Fits() && Q_CODE.Fits() && AllCodewords(P_CODE, s) && AllCodewords(Q_CODE, s)
    ensures Mode1Sector(s) && SameOutside(s, s0, 0x810, RAW_SECTOR_SIZE)
  {
    hide AllCodewords, Crc, Bytes4;
    assert s[..0x810] == s0[..0x810];
    assert s[0x810..0x814] == s1[0x810..0x814];
  }

  lemma Mode2Done(s0: seq<Byte>, s1: seq<Byte>, s: seq<Byte>)
    requires |s0| == |s1| == |s| == RAW_SECTOR_SIZE
    requires SameOutside(s1, s0, 0x818, 0x81C) && SameOutside(s, s1, 0x81C, RAW_SECTOR_SIZE)
    requires s1[0x818..0x81C] == Bytes4(Crc(s0[0x10..0x818]))
    requires P_CODE.Fits() && Q_CODE.Fits() && AllCodewords(P_CODE, ZeroHeader(s))
    requires AllCodewords(Q_CODE, ZeroHeader(s))
    ensures Mode2Form1Sector(s) && SameOutside(s, s0, 0x818, RAW_SECTOR_SIZE)
  {
    hide AllCodewords, Crc, Bytes4, ZeroHeader;
    assert s[0x10..0x818] == s0[0x10..0x818];
    assert s[0x818..0x81C] == s1[0x818..0x81C];
  }

  /** What ecc_computeblock has in hand before byte number `minor` of a vector. */
  ghost predicate Accumulated(c: Code, s: seq<Byte>, major: nat, minor: nat, index: nat, a: Byte, b: Byte)
    requires c.Fits() && |s| == RAW_SECTOR_SIZE && major < c.majors && minor <= c.minors
  {
    && index == c.Position(major, minor) && index < c.majors * c.minors
    && a == Mul2(Syndrome1(Data(c, s, major, minor))) && b == Syndrome0(Data(c, s, major, minor))
  }

  lemma AccumulateNext(c: Code, s: seq<Byte>, major: nat, minor: nat, index: nat, a: Byte, b: Byte)
    requires c.Fits() && |s| == RAW_SECTOR_SIZE && major < c.majors && minor < c.minors
    requires Accumulated(c, s, major, minor, index, a, b)
    ensures 12 + index < RAW_SECTOR_SIZE
    ensures var next, temp := index + c.inc, s[12 + index];
            var wrapped: nat := if next >= c.majors * c.minors then next - c.majors * c.minors else next;
            Accumulated(c, s, major, minor + 1, wrapped, Mul2(Xor(a, temp)), Xor(b, temp))
  {
    hide Mul2, Div3, Xor, Syndrome0, Syndrome1, Data, Code.Position;
    DataStep(c, s, major, minor);
    PositionStep(c, major, minor);
  }

  lemma AccumulateStart(c: Code, s: seq<Byte>, major: nat)
    requires c.Fits() && |s| == RAW_SECTOR_SIZE && major < c.majors
    ensures Accumulated(c, s, major, 0, (major / 2) * c.mult + major % 2, ZERO_BYTE, ZERO_BYTE)
  {
    hide Mul2, Syndrome0, Syndrome1;
    EmptySyndromes();
    PositionStart(c, major);
  }

  lemma AccumulateEnd(c: Code, s: seq<Byte>, major: nat, index: nat, a: Byte, b: Byte)
    requires c.Fits() && |s| == RAW_SECTOR_SIZE && major < c.majors && Accumulated(c, s, major, c.minors, index, a, b)
    ensures a == Mul2(Syndrome1(Data(c, s, major, c.minors))) && b == Syndrome0(Data(c, s, major, c.minors))
  {
  }

  class Generator {
    const fLut: array<Byte>
    const bLut: array<Byte>
    const edcLut: array<Word>

    ghost predicate Valid()
      reads fLut, bLut, edcLut
    {
      && fLut.Length == bLut.Length == edcLut.Length == 256
      && (forall x: Byte :: fLut[Index(x)] == Mul2(x))
      && (forall x: Byte :: bLut[Index(x)] == Div3(x))
      && (forall x: Byte :: edcLut[Index(x)] == Shifts(Widen(x), 8))
    }

    ghost predicate Target(sector: array<Byte>)
      reads fLut, bLut, edcLut
    {
      Valid() && sector.Length == RAW_SECTOR_SIZE && sector != fLut && sector != bLut
    }

    lemma LutAt(x: Byte)
      requires Valid()
      ensures Index(x) < fLut.Length == bLut.Length && fLut[Index(x)] == Mul2(x) && bLut[Index(x)] == Div3(x)
    {
      hide Mul2, Div3, Index;
    }

    constructor ()
      ensures Valid() && fresh(fLut) && fresh(bLut) && fresh(edcLut)
    {
      var f := ComputeECCFLUT();
      var b := ComputeECCBLUT();
      var e := ComputeEDCLUT();
      fLut, bLut, edcLut := f, b, e;
    }

    static method ComputeECCFLUT() returns (lut: array<Byte>)
      ensures fresh(lut) && lut.Length == 256 && forall x: Byte :: lut[Index(x)] == Mul2(x)
    {
      hide Index, ByteOf;
      lut := new Byte[256](_ => ZERO_BYTE);
      for i := 0 to 256
        invariant forall x: Byte :: Index(x) < i ==> lut[Index(x)] == Mul2(x)
      {
        var x := ByteOf(i);
        lut[i] := Mul2(x);
        forall y: Byte | Index(y) == i
          ensures y == x
        {
          IndexInjective(x, y);
        }
      }
    }

    /** Filling slot i ^ 2i with i, for every i, tabulates division by three. */
    static method ComputeECCBLUT() returns (lut: array<Byte>)
      ensures fresh(lut) && lut.Length == 256 && forall x: Byte :: lut[Index(x)] == Div3(x)
    {
      hide Index, ByteOf, Mul2, Div3;
      lut := new Byte[256](_ => ZERO_BYTE);
      for i := 0 to 256
        invariant forall x: Byte :: Index(Div3(x)) < i ==> lut[Index(x)] == Div3(x)
      {
        var p := ByteOf(i);
        var slot := Xor(p, Mul2(p));
        forall x: Byte | Index(Div3(x)) < i + 1 && (Index(x) == Index(slot) || Index(Div3(x)) == i)
          ensures Div3(x) == p && x == slot
        {
          if Index(Div3(x)) == i {
            IndexInjective(Div3(x), p);
          } else {
            IndexInjective(x, slot);
          }
          Div3Inverts(x);
          Div3Inverts(p);
        }
        lut[Index(slot)] := p;
      }
    }

    static method EdcOfByte(x: Byte) returns (edc: Word)
      ensures edc == Shifts(Widen(x), 8)
    {
      hide Widen, Shift;
      edc := Widen(x);
      for k := 0 to 8
        invariant Shifts(Widen(x), 8) == Shifts(edc, 8 - k)
      {
        edc := Shift(edc);
      }
    }

    static method ComputeEDCLUT() returns (lut: array<Word>)
      ensures fresh(lut) && lut.Length == 256 && forall x: Byte :: lut[Index(x)] == Shifts(Widen(x), 8)
    {
      hide Index, ByteOf, Widen, Shifts;
      lut := new Word[256](_ => Zeros(32));
      for i := 0 to 256
        invariant forall x: Byte :: Index(x) < i ==> lut[Index(x)] == Shifts(Widen(x), 8)
      {
        var x := ByteOf(i);
        lut[i] := EdcOfByte(x);
        forall y: Byte | Index(y) == i
          ensures y == x
        {
          IndexInjective(x, y);
        }
      }
    }

    /** edc_partial_computeblock from zero: the table-driven loop computes the bit-serial checksum. */
    method EdcPartial(sector: array<Byte>, src: nat, size: nat) returns (edc: Word)
      requires Target(sector) && src + size <= RAW_SECTOR_SIZE
      ensures edc == Crc(sector[src..src + size])
    {
      hide Shifts, Xor, DropByte, Index, Widen;
      edc := Zeros(32);
      for i := 0 to size
        invariant edc == Crc(sector[src..src + i])
      {
        var b := sector[src + i];
        TableStep(edc, b);
        CrcAppend(sector[src..src + i], b);
        assert sector[src..src + i + 1] == sector[src..src + i] + [b];
        edc := Xor(DropByte(edc), edcLut[Index(Xor(edc[..8], b))]);
      }
    }

    /** edc_computeblock: checksum of `size` bytes from `src`, stored little-endian at `dest`. */
    method EdcComputeBlock(sector: array<Byte>, src: nat, size: nat, dest: nat)
      requires Target(sector) && src + size <= dest && dest + 4 <= RAW_SECTOR_SIZE
      modifies sector
      ensures sector[dest..dest + 4] == Bytes4(Crc(old(sector[src..src + size])))
      ensures SameOutside(sector[..], old(sector[..]), dest, dest + 4)
    {
      hide Crc, Valid;
      var edc := EdcPartial(sector, src, size);
      sector[dest] := edc[..8];
      sector[dest + 1] := edc[8..16];
      sector[dest + 2] := edc[16..24];
      sector[dest + 3] := edc[24..];
    }

    /** The inner loop of ecc_computeblock: both check symbols of one vector. */
    method EccVector(sector: array<Byte>, c: Code, major: nat) returns (p: Byte, q: Byte)
      requires Target(sector) && c.Fits() && major < c.majors
      ensures var d := Data(c, sector[..], major, c.minors); p == Check0(d) && q == Check1(d)
    {
      hide Mul2, Div3, Index, Xor, Code.Position, Syndrome0, Syndrome1, Data, Accumulated, Valid;
      ghost var s := sector[..];
      var size := c.majors * c.minors;
      var index: nat := (major / 2) * c.mult + major % 2;
      var a: Byte := ZERO_BYTE;
      var b: Byte := ZERO_BYTE;
      AccumulateStart(c, s, major);
      for minor := 0 to c.minors
        invariant Accumulated(c, s, major, minor, index, a, b)
      {
        AccumulateNext(c, s, major, minor, index, a, b);
        var temp := sector[12 + index];
        index := index + c.inc;
        if index >= size {
          index := index - size;
        }
        a := Xor(a, temp);
        b := Xor(b, temp);
        LutAt(a);
        a := fLut[Index(a)];
      }
      AccumulateEnd(c, s, major, index, a, b);
      LutAt(a);
      LutAt(Xor(Mul2(a), b));
      a := bLut[Index(Xor(fLut[Index(a)], b))];
      p, q := a, Xor(a, b);
    }

    /** ecc_computeblock: writes the check symbols of every vector of a code. */
    method EccComputeBlock(sector: array<Byte>, c: Code)
      requires Target(sector) && c.Fits()
      modifies sector
      ensures AllCodewords(c, sector[..])
      ensures SameOutside(sector[..], old(sector[..]), 12 + c.Size(), 12 + c.Size() + 2 * c.majors)
    {
      hide IsCodeword, Syndrome0, Syndrome1, Check0, Check1, Valid;
      var dest := 12 + c.majors * c.minors;
      ghost var s0 := sector[..];
      for major := 0 to c.majors
        invariant SameOutside(sector[..], s0, dest, dest + 2 * c.majors)
        invariant forall m :: 0 <= m < major ==> sector[dest + m] == Check0(Data(c, s0, m, c.minors))
        invariant forall m :: 0 <= m < major ==> sector[dest + c.majors + m] == Check1(Data(c, s0, m, c.minors))
      {
        DataFrame(c, sector[..], s0, major, c.minors);
        var p, q := EccVector(sector, c, major);
        sector[dest + major] := p;
        sector[dest + major + c.majors] := q;
      }
      assert ChecksWritten(c, s0, sector[..]);
      ChecksMakeCodewords(c, s0, sector[..]);
    }

    /** ecc_generate: P then Q parity; Q also covers the P check symbols. */
    method EccGenerate(sector: array<Byte>, zeroAddress: bool)
      requires Target(sector)
      modifies sector
      ensures P_CODE.Fits() && Q_CODE.Fits()
      ensures var s := if zeroAddress then ZeroHeader(sector[..]) else sector[..];
              AllCodewords(P_CODE, s) && AllCodewords(Q_CODE, s)
      ensures SameOutside(sector[..], old(sector[..]), 0x81C, RAW_SECTOR_SIZE)
    {
      hide IsCodeword, Valid, AllCodewords;
      CodesFit();
      ghost var s0 := sector[..];
      var address: seq<Byte> := sector[12..16];
      if zeroAddress {
        for i := 0 to 4
          invariant SameOutside(sector[..], s0, 12, 12 + i)
          invariant forall j :: 12 <= j < 12 + i ==> sector[j] == ZERO_BYTE
        {
          sector[12 + i] := ZERO_BYTE;
        }
      }
      ghost var s1 := sector[..];
      EccComputeBlock(sector, P_CODE);
      ghost var s2 := sector[..];
      EccComputeBlock(sector, Q_CODE);
      ghost var s3 := sector[..];
      AllCodewordsFrame(P_CODE, s2, s3);
      if zeroAddress {
        for i := 0 to 4
          invariant SameOutside(sector[..], s3, 12, 12 + i)
          invariant forall j :: 12 <= j < 12 + i ==> sector[j] == s0[j]
        {
          sector[12 + i] := address[i];
        }
        assert ZeroHeader(sector[..]) == s3;
      }
    }

    /** eccedc_generate for a mode 1 sector. */
    method GenerateMode1(sector: array<Byte>)
      requires Target(sector)
      modifies sector
      ensures P_CODE.Fits() && Q_CODE.Fits() && Mode1Sector(sector[..])
      ensures SameOutside(sector[..], old(sector[..]), 0x810, RAW_SECTOR_SIZE)
    {
      hide AllCodewords, Crc, Bytes4, Mode1Sector, Valid;
      CodesFit();
      ghost var s0 := sector[..];
      EdcComputeBlock(sector, 0, 0x810, 0x810);
      for i := 0 to 8
        invariant forall j :: 0x814 <= j < 0x814 + i ==> sector[j] == ZERO_BYTE
        invariant sector[0x810..0x814] == Bytes4(Crc(s0[..0x810]))
        invariant SameOutside(sector[..], s0, 0x810, 0x81C)
      {
        sector[0x814 + i] := ZERO_BYTE;
      }
      ghost var s1 := sector[..];
      assert s1[0x810..0x814] == Bytes4(Crc(s0[..0x810]));
      EccGenerate(sector, false);
      Mode1Done(s0, s1, sector[..]);
    }

    /** eccedc_generate for a mode 2 form 1 sector. */
    method GenerateMode2Form1(sector: array<Byte>)
      requires Target(sector)
      modifies sector
      ensures P_CODE.Fits() && Q_CODE.Fits() && Mode2Form1Sector(sector[..])
      ensures SameOutside(sector[..], old(sector[..]), 0x818, RAW_SECTOR_SIZE)
    {
      hide AllCodewords, Crc, Bytes4, ZeroHeader, Mode2Form1Sector, Valid;
      CodesFit();
      ghost var s0 := sector[..];
      EdcComputeBlock(sector, 0x10, 0x808, 0x818);
      ghost var s1 := sector[..];
      EccGenerate(sector, true);
      Mode2Done(s0, s1, sector[..]);
    }

    /** eccedc_generate for a mode 2 form 2 sector: checksum only. */
    method GenerateMode2Form2(sector: array<Byte>)
      requires Target(sector)
      modifies sector
      ensures sector[0x92C..0x930] == Bytes4(Crc(sector[0x10..0x92C]))
      ensures SameOutside(sector[..], old(sector[..]), 0x92C, RAW_SECTOR_SIZE)
    {
      hide Crc, Bytes4, Valid;
      EdcComputeBlock(sector, 0x10, 0x91C, 0x92C);
      assert sector[0x10..0x92C] == old(sector[0x10..0x92C]);
    }
  }
}
