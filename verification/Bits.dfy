/** Fixed-width machine words as bit sequences, least significant bit first. */
module Bits {

  type Bits = seq<bool>
  type Byte = b: Bits | |b| == 8 witness ZERO_BYTE
  type Word = w: Bits | |w| == 32 witness seq(32, _ => false)

  const ZERO_BYTE: Bits := [false, false, false, false, false, false, false, false]

  function Zeros(n: nat): (z: Bits)
    ensures |z| == n && forall i :: 0 <= i < n ==> !z[i]
  {
    seq(n, _ => false)
  }

  /** The exclusive or of two words of the same width. */
  function Xor(a: Bits, b: Bits): (c: Bits)
    requires |a| == |b|
    ensures |c| == |a| && forall i :: 0 <= i < |a| ==> c[i] == (a[i] != b[i])
  {
    seq(|a|, i requires 0 <= i < |a| => a[i] != b[i])
  }

  lemma XorSwap(a: Bits, b: Bits, c: Bits, d: Bits)
    requires |a| == |b| == |c| == |d|
    ensures Xor(Xor(a, b), Xor(c, d)) == Xor(Xor(a, c), Xor(b, d))
  {
  }

  lemma XorCancel(a: Bits, b: Bits)
    requires |a| == |b|
    ensures Xor(Xor(a, b), b) == a && Xor(a, a) == Zeros(|a|) && Xor(a, Zeros(|a|)) == a && Xor(a, b) == Xor(b, a)
  {
  }

  /** The unsigned value of a word. */
  function ToNat(b: Bits): (n: nat)
    ensures n < Pow2(|b|)
  {
    if b == [] then 0 else (if b[0] then 1 else 0) + 2 * ToNat(b[1..])
  }

  function FromNat(n: nat, width: nat): (b: Bits)
    requires n < Pow2(width)
    ensures |b| == width && ToNat(b) == n
    decreases width
  {
    if width == 0 then
      []
    else
      var tail := FromNat(n / 2, width - 1);
      assert ([n % 2 == 1] + tail)[1..] == tail;
      [n % 2 == 1] + tail
  }

  function Pow2(n: nat): (p: nat)
    ensures p > 0
  {
    if n == 0 then 1 else 2 * Pow2(n - 1)
  }

  lemma Pow2Byte()
    ensures Pow2(8) == 256
  {
    assert Pow2(3) == 8;
    assert Pow2(6) == 64;
  }

  lemma Pow2Word()
    ensures Pow2(32) == 0x1_0000_0000
  {
    Pow2Byte();
    assert Pow2(10) == 1024;
    assert Pow2(20) == 1048576;
    assert Pow2(30) == 1073741824;
  }

  lemma {:induction false} ToNatInjective(a: Bits, b: Bits)
    requires |a| == |b| && ToNat(a) == ToNat(b)
    ensures a == b
  {
    if a != [] {
      ToNatInjective(a[1..], b[1..]);
      assert a == [a[0]] + a[1..] && b == [b[0]] + b[1..];
    }
  }

  /** The table slot that a byte selects. */
  function Index(b: Byte): (i: nat)
    ensures i < 256
  {
    Pow2Byte();
    ToNat(b)
  }

  function ByteOf(i: nat): (b: Byte)
    requires i < 256
    ensures Index(b) == i
  {
    Pow2Byte();
    FromNat(i, 8)
  }

  lemma IndexInjective(a: Byte, b: Byte)
    requires Index(a) == Index(b)
    ensures a == b
  {
    ToNatInjective(a, b);
  }
}
