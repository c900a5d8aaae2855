/** The compression function of MD5: RFC 1321, section 3.4, and the unrolled transform of
    src/common/md5_digest.cpp. */
module Md5Compression {

  type Word = bv32

  // ---------------------------------------------------------------- RFC 1321, section 3.4

  function F(x: Word, y: Word, z: Word): Word { (x & y) | (!x & z) }
  function G(x: Word, y: Word, z: Word): Word { (x & z) | (y & !z) }
  function H(x: Word, y: Word, z: Word): Word { x ^ y ^ z }
  function I(x: Word, y: Word, z: Word): Word { y ^ (x | !z) }

  function RotateLeft(w: Word, s: nat): Word
    requires 0 < s < 32
  {
    (w << s) | (w >> (32 - s))
  }

  function Combine(b: Word, sum: Word, s: nat): Word
    requires 0 < s < 32
  {
    b + RotateLeft(sum, s)
  }

  function Sum(a: Word, f: Word, x: Word, t: Word): Word { ((a + f) + x) + t }

  /** The sine table T[i + 1] of the standard, sixteen entries per round. */
  function T(i: nat): (t: nat)
    requires i < 64
    ensures t < 0x1_0000_0000
  {
    if i < 16 then SineRow1(i) else if i < 32 then SineRow2(i - 16) else if i < 48 then SineRow3(i - 32) else SineRow4(i - 48)
  }

  function SineRow1(j: nat): (t: nat)
    requires j < 16
    ensures t < 0x1_0000_0000
  {
    match j
    case 0 => 0xd76aa478 case 1 => 0xe8c7b756 case 2 => 0x242070db case 3 => 0xc1bdceee
    case 4 => 0xf57c0faf case 5 => 0x4787c62a case 6 => 0xa8304613 case 7 => 0xfd469501
    case 8 => 0x698098d8 case 9 => 0x8b44f7af case 10 => 0xffff5bb1 case 11 => 0x895cd7be
    case 12 => 0x6b901122 case 13 => 0xfd987193 case 14 => 0xa679438e case _ => 0x49b40821
  }

  function SineRow2(j: nat): (t: nat)
    requires j < 16
    ensures t < 0x1_0000_0000
  {
    match j
    case 0 => 0xf61e2562 case 1 => 0xc040b340 case 2 => 0x265e5a51 case 3 => 0xe9b6c7aa
    case 4 => 0xd62f105d case 5 => 0x02441453 case 6 => 0xd8a1e681 case 7 => 0xe7d3fbc8
    case 8 => 0x21e1cde6 case 9 => 0xc33707d6 case 10 => 0xf4d50d87 case 11 => 0x455a14ed
    case 12 => 0xa9e3e905 case 13 => 0xfcefa3f8 case 14 => 0x676f02d9 case _ => 0x8d2a4c8a
  }

  function SineRow3(j: nat): (t: nat)
    requires j < 16
    ensures t < 0x1_0000_0000
  {
    match j
    case 0 => 0xfffa3942 case 1 => 0x8771f681 case 2 => 0x6d9d6122 case 3 => 0xfde5380c
    case 4 => 0xa4beea44 case 5 => 0x4bdecfa9 case 6 => 0xf6bb4b60 case 7 => 0xbebfbc70
    case 8 => 0x289b7ec6 case 9 => 0xeaa127fa case 10 => 0xd4ef3085 case 11 => 0x04881d05
    case 12 => 0xd9d4d039 case 13 => 0xe6db99e5 case 14 => 0x1fa27cf8 case _ => 0xc4ac5665
  }

  function SineRow4(j: nat): (t: nat)
    requires j < 16
    ensures t < 0x1_0000_0000
  {
    match j
    case 0 => 0xf4292244 case 1 => 0x432aff97 case 2 => 0xab9423a7 case 3 => 0xfc93a039
    case 4 => 0x655b59c3 case 5 => 0x8f0ccc92 case 6 => 0xffeff47d case 7 => 0x85845dd1
    case 8 => 0x6fa87e4f case 9 => 0xfe2ce6e0 case 10 => 0xa3014314 case 11 => 0x4e0811a1
    case 12 => 0xf7537e82 case 13 => 0xbd3af235 case 14 => 0x2ad7d2bb case _ => 0xeb86d391
  }

  /** Which message word operation i reads. */
  function WordIndex(i: nat): (k: nat)
    requires i < 64
    ensures k < 16
  {
    if i < 16 then i else if i < 32 then (5 * i + 1) % 16 else if i < 48 then (3 * i + 5) % 16 else 7 * i % 16
  }

  /** How far operation i rotates. */
  function Amount(i: nat): (s: nat)
    requires i < 64
    ensures 0 < s < 32
  {
    var j := i % 4;
    if i < 16 then 7 + 5 * j
    else if i < 32 then (if j == 0 then 5 else if j == 1 then 9 else if j == 2 then 14 else 20)
    else if i < 48 then (if j == 0 then 4 else if j == 1 then 11 else if j == 2 then 16 else 23)
    else (if j == 0 then 6 else if j == 1 then 10 else if j == 2 then 15 else 21)
  }

  function RoundFunction(i: nat, x: Word, y: Word, z: Word): Word
    requires i < 64
  {
    if i < 16 then F(x, y, z) else if i < 32 then G(x, y, z) else if i < 48 then H(x, y, z) else I(x, y, z)
  }

  datatype Registers = Registers(a: Word, b: Word, c: Word, d: Word)

  type Block = x: seq<Word> | |x| == 16 witness seq(16, _ => 0 as Word)

  /** Operation i: a := b + ((a + f(b, c, d) + X[k] + T[i]) <<< s), then the registers rotate. */
  function Operation(i: nat, r: Registers, x: Block): Registers
    requires i < 64
  {
    var sum := Sum(r.a, RoundFunction(i, r.b, r.c, r.d), x[WordIndex(i)], T(i) as Word);
    Registers(r.d, Combine(r.b, sum, Amount(i)), r.b, r.c)
  }

  /** The first n operations on a block. */
  function Operations(n: nat, r: Registers, x: Block): Registers
    requires n <= 64
  {
    if n == 0 then r else Operation(n - 1, Operations(n - 1, r, x), x)
  }

  function AddRegisters(r: Registers, s: Registers): Registers {
    Registers(r.a + s.a, r.b + s.b, r.c + s.c, r.d + s.d)
  }

  /** Section 3.4: all 64 operations, then add the registers saved at the start. */
  function Compress(r: Registers, x: Block): Registers {
    AddRegisters(r, Operations(64, r, x))
  }

  // ---------------------------------------------------------------- the source's macros

  /** The selection form that saves an operation. */
  function F1(x: Word, y: Word, z: Word): (r: Word)
    ensures r == (x & y) | (!x & z)
  {
    z ^ (x & (y ^ z))
  }

  function F2(x: Word, y: Word, z: Word): (r: Word)
    ensures r == (x & z) | (y & !z)
  {
    y ^ (z & (x ^ y))
  }

  function F3(x: Word, y: Word, z: Word): Word { x ^ y ^ z }
  function F4(x: Word, y: Word, z: Word): Word { y ^ (x | !z) }

  /** The optimised forms are the functions of the standard. */
  lemma OptimisedForms(x: Word, y: Word, z: Word)
    ensures F1(x, y, z) == F(x, y, z)
    ensures F2(x, y, z) == G(x, y, z)
    ensures F3(x, y, z) == H(x, y, z)
    ensures F4(x, y, z) == I(x, y, z)
  {
  }

  /** w += f + data, where data is the message word plus the constant. */
  function Accumulate(w: Word, f: Word, x: Word, t: Word): (r: Word)
    ensures r == ((w + f) + x) + t
  {
    w + (f + (x + t))
  }

  /** w = (w << s | w >> (32 - s)) + x. */
  function RotateAdd(w: Word, s: nat, x: Word): (r: Word)
    requires 0 < s < 32
    ensures r == x + RotateLeft(w, s)
  {
    RotateLeft(w, s) + x
  }

  /** MD5STEP. */
  function Step(f: Word, w: Word, x: Word, data: Word, t: Word, s: nat): Word
    requires 0 < s < 32
  {
    RotateAdd(Accumulate(w, f, data, t), s, x)
  }

  lemma StepIsCombine(f: Word, w: Word, x: Word, data: Word, t: Word, s: nat)
    requires 0 < s < 32
    ensures Step(f, w, x, data, t, s) == Combine(x, Sum(w, f, data, t), s)
  {
    hide Accumulate, Sum, RotateAdd, Combine;
    AccumulateIsSum(w, f, data, t);
    RotateAddIsCombine(Accumulate(w, f, data, t), s, x);
  }

  lemma AccumulateIsSum(w: Word, f: Word, x: Word, t: Word)
    ensures Accumulate(w, f, x, t) == Sum(w, f, x, t)
  {
  }

  lemma RotateAddIsCombine(w: Word, s: nat, x: Word)
    requires 0 < s < 32
    ensures RotateAdd(w, s, x) == Combine(x, w, s)
  {
    hide RotateLeft;
  }

  /** Operation i in the source's form: the new value of register w. */
  function SourceStep(i: nat, w: Word, x: Word, y: Word, z: Word, m: Block): Word
    requires i < 64
  {
    var f := if i < 16 then F1(x, y, z) else if i < 32 then F2(x, y, z) else if i < 48 then F3(x, y, z) else F4(x, y, z);
    Step(f, w, x, m[WordIndex(i)], T(i) as Word, Amount(i))
  }

  lemma SourceStepIsOperation(i: nat, r: Registers, m: Block)
    requires i < 64
    ensures Operation(i, r, m) == Registers(r.d, SourceStep(i, r.a, r.b, r.c, r.d, m), r.b, r.c)
  {
    hide F, G, H, I, F1, F2, F3, F4, T, WordIndex, Amount, Step, Combine, Sum;
    OptimisedForms(r.b, r.c, r.d);
    StepIsCombine(RoundFunction(i, r.b, r.c, r.d), r.a, r.b, m[WordIndex(i)], T(i) as Word, Amount(i));
  }

  /** Four operations bring every register back to its own name. */
  lemma FourSteps(i: nat, start: Registers, m: Block)
    requires i + 4 <= 64
    ensures var p := Operations(i, start, m);
            var a := SourceStep(i, p.a, p.b, p.c, p.d, m);
            var d := SourceStep(i + 1, p.d, a, p.b, p.c, m);
            var c := SourceStep(i + 2, p.c, d, a, p.b, m);
            var b := SourceStep(i + 3, p.b, c, d, a, m);
            Operations(i + 4, start, m) == Registers(a, b, c, d)
  {
    hide SourceStep, Operation;
    var p := Operations(i, start, m);
    SourceStepIsOperation(i, p, m);
    var p1 := Operation(i, p, m);
    assert p1 == Operations(i + 1, start, m);
    SourceStepIsOperation(i + 1, p1, m);
    var p2 := Operation(i + 1, p1, m);
    assert p2 == Operations(i + 2, start, m);
    SourceStepIsOperation(i + 2, p2, m);
    var p3 := Operation(i + 2, p2, m);
    assert p3 == Operations(i + 3, start, m);
    SourceStepIsOperation(i + 3, p3, m);
  }

  /** Row i of the tables: message word, constant, rotation. */
  predicate Row(i: nat, k: nat, t: nat, s: nat)
    requires i < 64
  {
    WordIndex(i) == k && T(i) == t && Amount(i) == s
  }

  lemma Table1()
    ensures Row(0, 0, 0xd76aa478, 7) && Row(1, 1, 0xe8c7b756, 12)
    ensures Row(2, 2, 0x242070db, 17) && Row(3, 3, 0xc1bdceee, 22)
    ensures Row(4, 4, 0xf57c0faf, 7) && Row(5, 5, 0x4787c62a, 12)
    ensures Row(6, 6, 0xa8304613, 17) && Row(7, 7, 0xfd469501, 22)
    ensures Row(8, 8, 0x698098d8, 7) && Row(9, 9, 0x8b44f7af, 12)
    ensures Row(10, 10, 0xffff5bb1, 17) && Row(11, 11, 0x895cd7be, 22)
    ensures Row(12, 12, 0x6b901122, 7) && Row(13, 13, 0xfd987193, 12)
    ensures Row(14, 14, 0xa679438e, 17) && Row(15, 15, 0x49b40821, 22)
  {
  }

  lemma Table2()
    ensures Row(16, 1, 0xf61e2562, 5) && Row(17, 6, 0xc040b340, 9)
    ensures Row(18, 11, 0x265e5a51, 14) && Row(19, 0, 0xe9b6c7aa, 20)
    ensures Row(20, 5, 0xd62f105d, 5) && Row(21, 10, 0x02441453, 9)
    ensures Row(22, 15, 0xd8a1e681, 14) && Row(23, 4, 0xe7d3fbc8, 20)
    ensures Row(24, 9, 0x21e1cde6, 5) && Row(25, 14, 0xc33707d6, 9)
    ensures Row(26, 3, 0xf4d50d87, 14) && Row(27, 8, 0x455a14ed, 20)
    ensures Row(28, 13, 0xa9e3e905, 5) && Row(29, 2, 0xfcefa3f8, 9)
    ensures Row(30, 7, 0x676f02d9, 14) && Row(31, 12, 0x8d2a4c8a, 20)
  {
  }

  lemma Table3()
    ensures Row(32, 5, 0xfffa3942, 4) && Row(33, 8, 0x8771f681, 11)
    ensures Row(34, 11, 0x6d9d6122, 16) && Row(35, 14, 0xfde5380c, 23)
    ensures Row(36, 1, 0xa4beea44, 4) && Row(37, 4, 0x4bdecfa9, 11)
    ensures Row(38, 7, 0xf6bb4b60, 16) && Row(39, 10, 0xbebfbc70, 23)
    ensures Row(40, 13, 0x289b7ec6, 4) && Row(41, 0, 0xeaa127fa, 11)
    ensures Row(42, 3, 0xd4ef3085, 16) && Row(43, 6, 0x04881d05, 23)
    ensures Row(44, 9, 0xd9d4d039, 4) && Row(45, 12, 0xe6db99e5, 11)
    ensures Row(46, 15, 0x1fa27cf8, 16) && Row(47, 2, 0xc4ac5665, 23)
  {
  }

  lemma Table4()
    ensures Row(48, 0, 0xf4292244, 6) && Row(49, 7, 0x432aff97, 10)
    ensures Row(50, 14, 0xab9423a7, 15) && Row(51, 5, 0xfc93a039, 21)
    ensures Row(52, 12, 0x655b59c3, 6) && Row(53, 3, 0x8f0ccc92, 10)
    ensures Row(54, 10, 0xffeff47d, 15) && Row(55, 1, 0x85845dd1, 21)
    ensures Row(56, 8, 0x6fa87e4f, 6) && Row(57, 15, 0xfe2ce6e0, 10)
    ensures Row(58, 6, 0xa3014314, 15) && Row(59, 13, 0x4e0811a1, 21)
    ensures Row(60, 4, 0xf7537e82, 6) && Row(61, 11, 0xbd3af235, 10)
    ensures Row(62, 2, 0x2ad7d2bb, 15) && Row(63, 9, 0xeb86d391, 21)
  {
  }

  /** MD5STEP(F1, ...): one line of round 1. */
  method Step1(ghost i: nat, w: Word, x: Word, y: Word, z: Word, m: Block, k: nat, t: nat, s: nat) returns (r: Word)
    requires 0 <= i < 16 && Row(i, k, t, s)
    ensures r == SourceStep(i, w, x, y, z, m)
  {
    r := Step(F1(x, y, z), w, x, m[k], t as Word, s);
  }

  /** MD5STEP(F2, ...): one line of round 2. */
  method Step2(ghost i: nat, w: Word, x: Word, y: Word, z: Word, m: Block, k: nat, t: nat, s: nat) returns (r: Word)
    requires 16 <= i < 32 && Row(i, k, t, s)
    ensures r == SourceStep(i, w, x, y, z, m)
  {
    r := Step(F2(x, y, z), w, x, m[k], t as Word, s);
  }

  /** MD5STEP(F3, ...): one line of round 3. */
  method Step3(ghost i: nat, w: Word, x: Word, y: Word, z: Word, m: Block, k: nat, t: nat, s: nat) returns (r: Word)
    requires 32 <= i < 48 && Row(i, k, t, s)
    ensures r == SourceStep(i, w, x, y, z, m)
  {
    r := Step(F3(x, y, z), w, x, m[k], t as Word, s);
  }

  /** MD5STEP(F4, ...): one line of round 4. */
  method Step4(ghost i: nat, w: Word, x: Word, y: Word, z: Word, m: Block, k: nat, t: nat, s: nat) returns (r: Word)
    requires 48 <= i < 64 && Row(i, k, t, s)
    ensures r == SourceStep(i, w, x, y, z, m)
  {
    r := Step(F4(x, y, z), w, x, m[k], t as Word, s);
  }

  /** Round 1 as the source unrolls it: the register names rotate instead of the values. */
  method Round1(buf: Registers, x: Block, ghost start: Registers) returns (r: Registers)
    requires buf == Operations(0, start, x)
    ensures r == Operations(16, start, x)
  {
    hide Operations, SourceStep, Row;
    Table1();
    var a, b, c, d := buf.a, buf.b, buf.c, buf.d;
    FourSteps(0, start, x);
    a := Step1(0, a, b, c, d, x, 0, 0xd76aa478, 7);
    d := Step1(1, d, a, b, c, x, 1, 0xe8c7b756, 12);
    c := Step1(2, c, d, a, b, x, 2, 0x242070db, 17);
    b := Step1(3, b, c, d, a, x, 3, 0xc1bdceee, 22);
    assert Registers(a, b, c, d) == Operations(4, start, x);
    FourSteps(4, start, x);
    a := Step1(4, a, b, c, d, x, 4, 0xf57c0faf, 7);
    d := Step1(5, d, a, b, c, x, 5, 0x4787c62a, 12);
    c := Step1(6, c, d, a, b, x, 6, 0xa8304613, 17);
    b := Step1(7, b, c, d, a, x, 7, 0xfd469501, 22);
    assert Registers(a, b, c, d) == Operations(8, start, x);
    FourSteps(8, start, x);
    a := Step1(8, a, b, c, d, x, 8, 0x698098d8, 7);
    d := Step1(9, d, a, b, c, x, 9, 0x8b44f7af, 12);
    c := Step1(10, c, d, a, b, x, 10, 0xffff5bb1, 17);
    b := Step1(11, b, c, d, a, x, 11, 0x895cd7be, 22);
    assert Registers(a, b, c, d) == Operations(12, start, x);
    FourSteps(12, start, x);
    a := Step1(12, a, b, c, d, x, 12, 0x6b901122, 7);
    d := Step1(13, d, a, b, c, x, 13, 0xfd987193, 12);
    c := Step1(14, c, d, a, b, x, 14, 0xa679438e, 17);
    b := Step1(15, b, c, d, a, x, 15, 0x49b40821, 22);
    assert Registers(a, b, c, d) == Operations(16, start, x);
    return Registers(a, b, c, d);
  }

  /** Round 2 as the source unrolls it: the register names rotate instead of the values. */
  method Round2(buf: Registers, x: Block, ghost start: Registers) returns (r: Registers)
    requires buf == Operations(16, start, x)
    ensures r == Operations(32, start, x)
  {
    hide Operations, SourceStep, Row;
    Table2();
    var a, b, c, d := buf.a, buf.b, buf.c, buf.d;
    FourSteps(16, start, x);
    a := Step2(16, a, b, c, d, x, 1, 0xf61e2562, 5);
    d := Step2(17, d, a, b, c, x, 6, 0xc040b340, 9);
    c := Step2(18, c, d, a, b, x, 11, 0x265e5a51, 14);
    b := Step2(19, b, c, d, a, x, 0, 0xe9b6c7aa, 20);
    assert Registers(a, b, c, d) == Operations(20, start, x);
    FourSteps(20, start, x);
    a := Step2(20, a, b, c, d, x, 5, 0xd62f105d, 5);
    d := Step2(21, d, a, b, c, x, 10, 0x02441453, 9);
    c := Step2(22, c, d, a, b, x, 15, 0xd8a1e681, 14);
    b := Step2(23, b, c, d, a, x, 4, 0xe7d3fbc8, 20);
    assert Registers(a, b, c, d) == Operations(24, start, x);
    FourSteps(24, start, x);
    a := Step2(24, a, b, c, d, x, 9, 0x21e1cde6, 5);
    d := Step2(25, d, a, b, c, x, 14, 0xc33707d6, 9);
    c := Step2(26, c, d, a, b, x, 3, 0xf4d50d87, 14);
    b := Step2(27, b, c, d, a, x, 8, 0x455a14ed, 20);
    assert Registers(a, b, c, d) == Operations(28, start, x);
    FourSteps(28, start, x);
    a := Step2(28, a, b, c, d, x, 13, 0xa9e3e905, 5);
    d := Step2(29, d, a, b, c, x, 2, 0xfcefa3f8, 9);
    c := Step2(30, c, d, a, b, x, 7, 0x676f02d9, 14);
    b := Step2(31, b, c, d, a, x, 12, 0x8d2a4c8a, 20);
    assert Registers(a, b, c, d) == Operations(32, start, x);
    return Registers(a, b, c, d);
  }

  /** Round 3 as the source unrolls it: the register names rotate instead of the values. */
  method Round3(buf: Registers, x: Block, ghost start: Registers) returns (r: Registers)
    requires buf == Operations(32, start, x)
    ensures r == Operations(48, start, x)
  {
    hide Operations, SourceStep, Row;
    Table3();
    var a, b, c, d := buf.a, buf.b, buf.c, buf.d;
    FourSteps(32, start, x);
    a := Step3(32, a, b, c, d, x, 5, 0xfffa3942, 4);
    d := Step3(33, d, a, b, c, x, 8, 0x8771f681, 11);
    c := Step3(34, c, d, a, b, x, 11, 0x6d9d6122, 16);
    b := Step3(35, b, c, d, a, x, 14, 0xfde5380c, 23);
    assert Registers(a, b, c, d) == Operations(36, start, x);
    FourSteps(36, start, x);
    a := Step3(36, a, b, c, d, x, 1, 0xa4beea44, 4);
    d := Step3(37, d, a, b, c, x, 4, 0x4bdecfa9, 11);
    c := Step3(38, c, d, a, b, x, 7, 0xf6bb4b60, 16);
    b := Step3(39, b, c, d, a, x, 10, 0xbebfbc70, 23);
    assert Registers(a, b, c, d) == Operations(40, start, x);
    FourSteps(40, start, x);
    a := Step3(40, a, b, c, d, x, 13, 0x289b7ec6, 4);
    d := Step3(41, d, a, b, c, x, 0, 0xeaa127fa, 11);
    c := Step3(42, c, d, a, b, x, 3, 0xd4ef3085, 16);
    b := Step3(43, b, c, d, a, x, 6, 0x04881d05, 23);
    assert Registers(a, b, c, d) == Operations(44, start, x);
    FourSteps(44, start, x);
    a := Step3(44, a, b, c, d, x, 9, 0xd9d4d039, 4);
    d := Step3(45, d, a, b, c, x, 12, 0xe6db99e5, 11);
    c := Step3(46, c, d, a, b, x, 15, 0x1fa27cf8, 16);
    b := Step3(47, b, c, d, a, x, 2, 0xc4ac5665, 23);
    assert Registers(a, b, c, d) == Operations(48, start, x);
    return Registers(a, b, c, d);
  }

  /** Round 4 as the source unrolls it: the register names rotate instead of the values. */
  method Round4(buf: Registers, x: Block, ghost start: Registers) returns (r: Registers)
    requires buf == Operations(48, start, x)
    ensures r == Operations(64, start, x)
  {
    hide Operations, SourceStep, Row;
    Table4();
    var a, b, c, d := buf.a, buf.b, buf.c, buf.d;
    FourSteps(48, start, x);
    a := Step4(48, a, b, c, d, x, 0, 0xf4292244, 6);
    d := Step4(49, d, a, b, c, x, 7, 0x432aff97, 10);
    c := Step4(50, c, d, a, b, x, 14, 0xab9423a7, 15);
    b := Step4(51, b, c, d, a, x, 5, 0xfc93a039, 21);
    assert Registers(a, b, c, d) == Operations(52, start, x);
    FourSteps(52, start, x);
    a := Step4(52, a, b, c, d, x, 12, 0x655b59c3, 6);
    d := Step4(53, d, a, b, c, x, 3, 0x8f0ccc92, 10);
    c := Step4(54, c, d, a, b, x, 10, 0xffeff47d, 15);
    b := Step4(55, b, c, d, a, x, 1, 0x85845dd1, 21);
    assert Registers(a, b, c, d) == Operations(56, start, x);
    FourSteps(56, start, x);
    a := Step4(56, a, b, c, d, x, 8, 0x6fa87e4f, 6);
    d := Step4(57, d, a, b, c, x, 15, 0xfe2ce6e0, 10);
    c := Step4(58, c, d, a, b, x, 6, 0xa3014314, 15);
    b := Step4(59, b, c, d, a, x, 13, 0x4e0811a1, 21);
    assert Registers(a, b, c, d) == Operations(60, start, x);
    FourSteps(60, start, x);
    a := Step4(60, a, b, c, d, x, 4, 0xf7537e82, 6);
    d := Step4(61, d, a, b, c, x, 11, 0xbd3af235, 10);
    c := Step4(62, c, d, a, b, x, 2, 0x2ad7d2bb, 15);
    b := Step4(63, b, c, d, a, x, 9, 0xeb86d391, 21);
    assert Registers(a, b, c, d) == Operations(64, start, x);
    return Registers(a, b, c, d);
  }

  lemma NoOperations(r: Registers, x: Block)
    ensures Operations(0, r, x) == r
  {
  }

  /** MD5Transform. */
  method Transform(buf: Registers, x: Block) returns (r: Registers)
    ensures r == Compress(buf, x)
  {
    hide Operations, AddRegisters;
    NoOperations(buf, x);
    var s := Round1(buf, x, buf);
    s := Round2(s, x, buf);
    s := Round3(s, x, buf);
    s := Round4(s, x, buf);
    return AddRegisters(buf, s);
  }
}
