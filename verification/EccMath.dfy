/** The field GF(2^8) with modulus 0x11D and its two-check codewords (Annex A of ECMA-130). */
module Gf256 {
  import opened Bits

  /** 0x1D: the modulus without its leading term. */
  const MODULUS: Byte := [true, false, true, true, true, false, false, false]

  /** Multiplication by alpha = 2: shift left, reduce when the top bit falls out. */
  function Mul2(x: Byte): Byte {
    Xor([false] + x[..7], if x[7] then MODULUS else ZERO_BYTE)
  }

  /** Division by alpha + 1 = 3. */
  function Div3(x: Byte): Byte {
    var low2 := x[0] != x[1];
    var low3 := low2 != x[2];
    var high3 := (x[5] != x[6]) != x[7];
    var high4 := x[4] != high3;
    var low5 := (low3 != x[3]) != x[4];
    var all := (low3 != x[3]) != high4;
    [x[0] != all, low2 != all, low3, high4, low5, low5 != x[5], (low5 != x[5]) != x[6], all]
  }

  lemma Mul2Linear(x: Byte, y: Byte)
    ensures Mul2(Xor(x, y)) == Xor(Mul2(x), Mul2(y))
  {
  }

  lemma Mul2Bits(x: Byte)
    ensures var m := Mul2(x);
            && m[0] == x[7] && m[1] == x[0] && m[2] == (x[1] != x[7]) && m[3] == (x[2] != x[7])
            && m[4] == (x[3] != x[7]) && m[5] == x[4] && m[6] == x[5] && m[7] == x[6]
  {
  }

  lemma BytesEqual(x: Byte, y: Byte)
    requires x[0] == y[0] && x[1] == y[1] && x[2] == y[2] && x[3] == y[3]
    requires x[4] == y[4] && x[5] == y[5] && x[6] == y[6] && x[7] == y[7]
    ensures x == y
  {
  }

  /** Div3 really inverts p -> p + 2p, on both sides. */
  lemma Div3Inverts(x: Byte)
    ensures Xor(Div3(x), Mul2(Div3(x))) == x
    ensures Div3(Xor(x, Mul2(x))) == x
  {
    Div3RightInverse(x);
    Div3LeftInverse(x);
  }

  lemma Div3RightInverse(x: Byte)
    ensures Xor(Div3(x), Mul2(Div3(x))) == x
  {
    hide Mul2;
    var y := Div3(x);
    Mul2Bits(y);
    BytesEqual(Xor(y, Mul2(y)), x);
  }

  lemma Div3LeftInverse(x: Byte)
    ensures Div3(Xor(x, Mul2(x))) == x
  {
    hide Mul2;
    Mul2Bits(x);
    var y := Xor(x, Mul2(x));
    assert y[0] == (x[0] != x[7]) && y[1] == (x[1] != x[0]);
    BytesEqual(Div3(y), x);
  }

  /** First syndrome of a codeword: the sum of its symbols. */
  function Syndrome0(w: seq<Byte>): Byte {
    if w == [] then ZERO_BYTE else Xor(Syndrome0(w[..|w| - 1]), w[|w| - 1])
  }

  /** Second syndrome: the codeword, highest power first, evaluated at alpha. */
  function Syndrome1(w: seq<Byte>): Byte {
    if w == [] then ZERO_BYTE else Xor(Mul2(Syndrome1(w[..|w| - 1])), w[|w| - 1])
  }

  ghost predicate IsCodeword(w: seq<Byte>) {
    Syndrome0(w) == ZERO_BYTE && Syndrome1(w) == ZERO_BYTE
  }

  lemma EmptySyndromes()
    ensures Syndrome0([]) == Syndrome1([]) == Mul2(Syndrome1([])) == ZERO_BYTE
  {
  }

  lemma SyndromeAppend(w: seq<Byte>, b: Byte)
    ensures Syndrome0(w + [b]) == Xor(Syndrome0(w), b)
    ensures Syndrome1(w + [b]) == Xor(Mul2(Syndrome1(w)), b)
  {
    assert (w + [b])[..|w|] == w;
  }

  /** The two check symbols that the code appends to a data vector. */
  function Check0(d: seq<Byte>): Byte { Div3(Xor(Mul2(Mul2(Syndrome1(d))), Syndrome0(d))) }

  function Check1(d: seq<Byte>): Byte { Xor(Check0(d), Syndrome0(d)) }

  /** Syndromes of a data vector with any two symbols appended. */
  lemma AppendTwo(d: seq<Byte>, p: Byte, q: Byte)
    ensures Syndrome0(d + [p, q]) == Xor(Xor(Syndrome0(d), p), q)
    ensures Syndrome1(d + [p, q]) == Xor(Xor(Mul2(Mul2(Syndrome1(d))), Mul2(p)), q)
  {
    hide Mul2, Syndrome0, Syndrome1;
    SyndromeAppend(d, p);
    SyndromeAppend(d + [p], q);
    assert d + [p] + [q] == d + [p, q];
    Mul2Linear(Mul2(Syndrome1(d)), p);
  }

  /** Data and check symbols form a codeword, and no other pair of check symbols does. */
  lemma {:induction false} ChecksCompleteCodeword(d: seq<Byte>, p: Byte, q: Byte)
    ensures IsCodeword(d + [p, q]) <==> p == Check0(d) && q == Check1(d)
  {
    hide Mul2, Div3, Syndrome0, Syndrome1;
    var s0, t := Syndrome0(d), Mul2(Mul2(Syndrome1(d)));
    AppendTwo(d, p, q);
    Div3Inverts(Xor(t, s0));
    Div3Inverts(p);
    if p == Check0(d) && q == Check1(d) {
      assert forall i :: 0 <= i < 8 ==> (p[i] != Mul2(p)[i]) == Xor(p, Mul2(p))[i];
      assert Xor(Xor(s0, p), q) == ZERO_BYTE;
      assert Xor(Xor(t, Mul2(p)), q) == ZERO_BYTE;
    }
    if IsCodeword(d + [p, q]) {
      var r0, r1 := Xor(Xor(s0, p), q), Xor(Xor(t, Mul2(p)), q);
      assert forall i :: 0 <= i < 8 ==> !r0[i] && !r1[i];
      assert Xor(p, Mul2(p)) == Xor(t, s0);
      assert q == Xor(p, s0);
    }
  }
}

/** The EDC checksum of section 14.3 of ECMA-130, one bit at a time. */
module Edc {
  import opened Bits

  /** (x^16 + x^15 + x^2 + 1)(x^16 + x^2 + x + 1), bits reflected. */
  function Polynomial(): Word {
    Pow2Word();
    FromNat(0xD8018001, 32)
  }

  /** The exponents of the two factors. */
  const LEFT: seq<nat> := [16, 15, 2, 0]
  const RIGHT: seq<nat> := [16, 2, 1, 0]

  /** How often x^k comes up when a term of the left factor is multiplied out with the right one. */
  function TermCount(e: nat, k: nat): nat {
    (if e + RIGHT[0] == k then 1 else 0) + (if e + RIGHT[1] == k then 1 else 0)
    + (if e + RIGHT[2] == k then 1 else 0) + (if e + RIGHT[3] == k then 1 else 0)
  }

  function ProductCount(k: nat): nat {
    TermCount(LEFT[0], k) + TermCount(LEFT[1], k) + TermCount(LEFT[2], k) + TermCount(LEFT[3], k)
  }

  lemma {:induction false} BitOfNumber(n: nat, width: nat, i: nat)
    requires n < Pow2(width) && i < width
    ensures FromNat(n, width)[i] <==> Halved(n, i) % 2 == 1
    decreases width
  {
    if i > 0 {
      BitOfNumber(n / 2, width - 1, i - 1);
    }
  }

  /** n halved i times. */
  function Halved(n: nat, i: nat): nat { if i == 0 then n else Halved(n / 2, i - 1) }

  /** The bits of a byte. */
  lemma ByteBits(n: nat, i: nat)
    requires i <= 8
    ensures Halved(n, i) == n / (if i == 0 then 1 else if i == 1 then 2 else if i == 2 then 4 else if i == 3 then 8
                                 else if i == 4 then 16 else if i == 5 then 32 else if i == 6 then 64
                                 else if i == 7 then 128 else 256)
  {
  }

  lemma HalvedAt(i: nat)
    requires i < 32
    ensures Halved(0xD8018001, i) % 2 == 1 <==> i in {0, 15, 16, 27, 28, 30, 31}
  {
    hide Halved;
    HalvedTwice(0xD8018001, 8, i);
    HalvedTwice(0xD80180, 8, i - 8);
    HalvedTwice(0xD801, 8, i - 16);
    ByteBits(0xD8018001, 8);
    ByteBits(0xD80180, 8);
    ByteBits(0xD801, 8);
    if i < 8 {
      ByteBits(0xD8018001, i);
    } else if i < 16 {
      ByteBits(0xD80180, i - 8);
    } else if i < 24 {
      ByteBits(0xD801, i - 16);
    } else {
      ByteBits(0xD8, i - 24);
    }
  }

  lemma ProductAt(k: nat)
    ensures ProductCount(k) % 2 == 1 <==> k in {32, 31, 16, 15, 4, 3, 1, 0}
  {
  }

  /** The constant is that product modulo 2, without its leading term, highest coefficient first. */
  lemma PolynomialIsProduct(i: nat)
    requires i < 32
    ensures Polynomial()[i] <==> ProductCount(31 - i) % 2 == 1
  {
    hide Pow2, FromNat, Halved, ProductCount;
    Pow2Word();
    BitOfNumber(0xD8018001, 32, i);
    HalvedAt(i);
    ProductAt(31 - i);
  }

  lemma {:induction false} HalvedTwice(n: nat, a: nat, i: int)
    ensures i >= a ==> Halved(n, i) == Halved(Halved(n, a), i - a)
    decreases a
  {
    if i >= a > 0 {
      HalvedTwice(n / 2, a - 1, i - 1);
    }
  }

  /** One bit of the checksum: divide by x, least significant bit first. */
  function Shift(edc: Word): Word {
    Xor(edc[1..] + [false], if edc[0] then Polynomial() else Zeros(32))
  }

  function Shifts(edc: Word, n: nat): Word
    decreases n
  {
    if n == 0 then edc else Shifts(Shift(edc), n - 1)
  }

  /** A byte as the low bits of a word. */
  function Widen(b: Byte): Word { b + Zeros(24) }

  /** Bit-serial checksum of a byte string. */
  function Crc(s: seq<Byte>): Word {
    if s == [] then Zeros(32) else Shifts(Xor(Crc(s[..|s| - 1]), Widen(s[|s| - 1])), 8)
  }

  function Bytes4(e: Word): seq<Byte> { [e[..8], e[8..16], e[16..24], e[24..]] }

  /** e >> 8. */
  function DropByte(e: Word): Word { e[8..] + Zeros(8) }

  lemma ShiftLinear(x: Word, y: Word)
    ensures Shift(Xor(x, y)) == Xor(Shift(x), Shift(y))
  {
    hide Polynomial;
    var p, q := x[1..] + [false], y[1..] + [false];
    var f, g := if x[0] then Polynomial() else Zeros(32), if y[0] then Polynomial() else Zeros(32);
    assert Xor(x, y)[1..] + [false] == Xor(p, q);
    XorCancel(Polynomial(), Polynomial());
    XorCancel(Zeros(32), Polynomial());
    XorCancel(Zeros(32), Zeros(32));
    assert (if Xor(x, y)[0] then Polynomial() else Zeros(32)) == Xor(f, g);
    XorSwap(p, q, f, g);
  }

  lemma {:induction false} ShiftsLinear(x: Word, y: Word, n: nat)
    ensures Shifts(Xor(x, y), n) == Xor(Shifts(x, n), Shifts(y, n))
    decreases n
  {
    hide Shift, Xor;
    if n > 0 {
      ShiftLinear(x, y);
      ShiftsLinear(Shift(x), Shift(y), n - 1);
    }
  }

  lemma ShiftClear(x: Word)
    requires !x[0]
    ensures Shift(x) == x[1..] + [false]
  {
  }

  /** While the low bits are clear, shifting only moves the word down. */
  lemma {:induction false} ShiftsClear(x: Word, n: nat)
    requires n <= 32 && forall i :: 0 <= i < n ==> !x[i]
    ensures Shifts(x, n) == x[n..] + Zeros(n)
    decreases n
  {
    hide Shift;
    if n > 0 {
      ShiftClear(x);
      ShiftsClear(Shift(x), n - 1);
      assert Shift(x)[n - 1..] + Zeros(n - 1) == x[n..] + Zeros(n);
    }
  }

  /** The table-driven step handles eight bits at once. */
  lemma {:induction false} TableStep(edc: Word, b: Byte)
    ensures Xor(DropByte(edc), Shifts(Widen(Xor(edc[..8], b)), 8)) == Shifts(Xor(edc, Widen(b)), 8)
  {
    hide Shifts;
    var h, l := Zeros(8) + edc[8..], Widen(Xor(edc[..8], b));
    assert Xor(edc, Widen(b)) == Xor(h, l);
    ShiftsLinear(h, l, 8);
    ShiftsClear(h, 8);
    assert h[8..] == edc[8..];
  }

  lemma CrcAppend(s: seq<Byte>, b: Byte)
    ensures Crc(s + [b]) == Shifts(Xor(Crc(s), Widen(b)), 8)
  {
    hide Shifts, Xor, Widen;
    assert (s + [b])[..|s|] == s;
  }

  /** Feeding back the low byte of the checksum moves the next byte down. */
  lemma CrcFeedBack(s: seq<Byte>)
    ensures Crc(s + [Crc(s)[..8]]) == DropByte(Crc(s))
  {
    hide Shifts, Crc;
    var e := Crc(s);
    CrcAppend(s, e[..8]);
    var x := Xor(e, Widen(e[..8]));
    ShiftsClear(x, 8);
    assert x[8..] == e[8..];
  }

  /** A byte string followed by its own checksum has checksum zero: what a drive verifies. */
  lemma {:induction false} ChecksummedIsZero(s: seq<Byte>)
    ensures Crc(s + Bytes4(Crc(s))) == Zeros(32)
  {
    hide Crc;
    var e := Crc(s);
    var b := Bytes4(e);
    var s1, s2, s3 := s + [b[0]], s + [b[0]] + [b[1]], s + [b[0]] + [b[1]] + [b[2]];
    CrcFeedBack(s);
    assert Crc(s1) == e[8..] + Zeros(8);
    CrcFeedBack(s1);
    assert Crc(s1)[..8] == b[1];
    assert Crc(s2) == e[16..] + Zeros(16);
    CrcFeedBack(s2);
    assert Crc(s2)[..8] == b[2];
    assert Crc(s3) == e[24..] + Zeros(24);
    CrcFeedBack(s3);
    assert Crc(s3)[..8] == b[3];
    assert s3 + [b[3]] == s + b;
    assert DropByte(Crc(s3)) == Zeros(32);
  }
}
