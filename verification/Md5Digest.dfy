/** Streaming MD5 of src/common/md5_digest.cpp against the one-shot definition of RFC 1321. */
module Md5Digest {
  import opened Md5Compression
  import opened Arithmetic

  type Byte = bv8

  // ---------------------------------------------------------------- RFC 1321, sections 3.1 to 3.5

  const B32: nat := 0x1_0000_0000
  const B64: nat := 0x1_0000_0000_0000_0000

  const INITIAL := Registers(0x67452301, 0xefcdab89, 0x98badcfe, 0x10325476)

  /** Low-order byte first. */
  function DecodeWord(b: seq<Byte>): Word
    requires |b| == 4
  {
    (b[0] as Word) | ((b[1] as Word) << 8) | ((b[2] as Word) << 16) | ((b[3] as Word) << 24)
  }

  function EncodeWord(w: Word): (b: seq<Byte>)
    ensures |b| == 4
  {
    [(w & 0xFF) as Byte, ((w >> 8) & 0xFF) as Byte, ((w >> 16) & 0xFF) as Byte, ((w >> 24) & 0xFF) as Byte]
  }

  function DecodeWords(b: seq<Byte>): (w: seq<Word>)
    requires |b| % 4 == 0
    ensures |w| == |b| / 4
  {
    seq(|b| / 4, i requires 0 <= i < |b| / 4 => DecodeWord(b[4 * i..4 * i + 4]))
  }

  /** All whole 64-byte blocks of a byte string, from the front. */
  function Process(r: Registers, m: seq<Byte>): Registers
    decreases |m|
  {
    if |m| < 64 then r else Process(Compress(r, DecodeWords(m[..64])), m[64..])
  }

  function Zeros(n: nat): (z: seq<Byte>)
    ensures |z| == n
  {
    seq(n, _ => 0 as Byte)
  }

  /** A one bit, then zero bits until the length is 56 modulo 64. */
  function Padded(m: seq<Byte>): (p: seq<Byte>)
    ensures |p| % 64 == 56 && |m| < |p| <= |m| + 64
  {
    m + [0x80] + Zeros((119 - |m| % 64) % 64)
  }

  function ToWord(n: nat): Word
    requires n < B32
  {
    n as Word
  }

  /** The length in bits, modulo 2^64, low-order word first. */
  function LengthWords(n: nat): (w: seq<Word>)
    ensures |w| == 2
  {
    var bits := 8 * n % B64;
    [ToWord(bits % B32), ToWord(bits / B32)]
  }

  function EncodeRegisters(r: Registers): seq<Byte> {
    EncodeWord(r.a) + EncodeWord(r.b) + EncodeWord(r.c) + EncodeWord(r.d)
  }

  /** The one-shot digest of a whole message. */
  function Digest(m: seq<Byte>): seq<Byte> {
    var p := Padded(m);
    var body := |p| - 56;
    EncodeRegisters(Compress(Process(INITIAL, p[..body]), DecodeWords(p[body..]) + LengthWords(|m|)))
  }

  // ---------------------------------------------------------------- lemmas

  lemma {:induction false} ProcessAppend(r: Registers, m: seq<Byte>, block: seq<Byte>)
    requires |m| % 64 == 0 && |block| == 64
    ensures Process(r, m + block) == Compress(Process(r, m), DecodeWords(block))
    decreases |m|
  {
    hide Compress, DecodeWords;
    if m == [] {
      assert m + block == block && block[..64] == block && block[64..] == [];
    } else {
      var r' := Compress(r, DecodeWords(m[..64]));
      ProcessAppend(r', m[64..], block);
      assert (m + block)[..64] == m[..64] && (m + block)[64..] == m[64..] + block;
    }
  }

  /** The two counter words hold the bit length of n bytes modulo 2^64. */
  ghost predicate Counts(lo: nat, hi: nat, n: nat) {
    lo < B32 && hi < B32 && hi * B32 + lo == 8 * n % B64
  }

  /** Testing the wrapped sum against an addend detects the carry. */
  lemma Carry(lo: nat, low: nat)
    requires lo < B32 && low < B32
    ensures var lo' := (lo + low) % B32;
            lo + low == (if lo' < lo then B32 else 0) + lo'
  {
  }

  lemma WrapTwice(h: nat, k: nat)
    ensures (h % B32 + k) % B32 == (h + k) % B32
  {
  }

  /** The two-word bit counter with its explicit carry counts modulo 2^64. */
  lemma CounterAdds(lo: nat, hi: nat, n: nat, k: nat)
    requires Counts(lo, hi, n) && k < B32
    ensures var lo' := (lo + k * 8 % B32) % B32;
            var hi' := if lo' < lo then (hi + 1) % B32 else hi;
            Counts(lo', (hi' + k / 0x2000_0000) % B32, n + k)
  {
    var low, high := k * 8 % B32, k / 0x2000_0000;
    Carry(lo, low);
    var lo' := (lo + low) % B32;
    var carry := if lo' < lo then 1 else 0;
    var h := hi + carry + high;
    WrapTwice(hi + carry, high);
    assert Counts(lo', h % B32, n + k) by {
      SplitBits(k);
      CounterSum(8 * n, 8 * k, 8 * n / B64, hi, lo, high, low, carry, lo');
      CountsAt(lo', h % B32, n + k, h / B32 + 8 * n / B64);
    }
  }

  lemma CountsAt(lo: nat, hi: nat, n: nat, q: nat)
    requires lo < B32 && hi < B32 && 8 * n == q * B64 + (hi * B32 + lo)
    ensures Counts(lo, hi, n)
  {
    DivMod(8 * n, B64, q, hi * B32 + lo);
  }

  lemma SplitBits(k: nat)
    requires k < B32
    ensures 8 * k == k / 0x2000_0000 * B32 + k * 8 % B32
  {
  }

  lemma CounterSum(n: nat, k: nat, q: nat, hi: nat, lo: nat, high: nat, low: nat, carry: nat, lo': nat)
    requires n == q * B64 + (hi * B32 + lo) && k == high * B32 + low && lo + low == carry * B32 + lo'
    ensures var h := hi + carry + high; n + k == (h / B32 + q) * B64 + (h % B32 * B32 + lo')
  {
    var h := hi + carry + high;
    assert h == h / B32 * B32 + h % B32;
  }

  /** The counter's low word knows the position inside the current block. */
  lemma CounterPosition(lo: nat, hi: nat, n: nat)
    requires Counts(lo, hi, n)
    ensures lo / 8 % 64 == n % 64
  {
    var q := 8 * n / B64;
    assert 8 * n == q * B64 + hi * B32 + lo;
    assert n == q * 0x2000_0000_0000_0000 + hi * 0x2000_0000 + lo / 8;
  }

  /** One more block of the stream has been compressed. */
  lemma BlockDone(all: seq<Byte>, start: nat, block: seq<Byte>)
    requires start % 64 == 0 && |block| == 64 && start + 64 <= |all| && all[start..start + 64] == block
    ensures Process(INITIAL, all[..start + 64]) == Compress(Process(INITIAL, all[..start]), DecodeWords(block))
  {
    hide Process, Compress, DecodeWords;
    ProcessAppend(INITIAL, all[..start], block);
    assert all[..start + 64] == all[..start] + block;
  }

  /** The counter words are the length words. */
  lemma LengthOf(lo: nat, hi: nat, n: nat)
    requires Counts(lo, hi, n)
    ensures lo < B32 && hi < B32 && LengthWords(n) == [ToWord(lo), ToWord(hi)]
  {
    QuotientIs(8 * n % B64, hi, lo);
  }

  lemma QuotientIs(x: nat, hi: nat, lo: nat)
    requires lo < B32 && x == hi * B32 + lo
    ensures x / B32 == hi && x % B32 == lo
  {
  }

  /** Where the padding of a message falls, relative to its last whole block. */
  lemma PaddedLayout(m: seq<Byte>)
    ensures var p, start := Padded(m), 64 * (|m| / 64);
            && |p| == start + (if |m| % 64 < 56 then 56 else 120)
            && p[..start] == m[..start]
            && p[start..] == m[start..] + [0x80] + Zeros(|p| - |m| - 1)
  {
    var p, start, r := Padded(m), 64 * (|m| / 64), |m| % 64;
    assert |m| == start + r;
    if r < 56 {
      DivMod(119 - r, 64, 1, 55 - r);
    } else {
      DivMod(119 - r, 64, 0, 119 - r);
    }
  }

  // ---------------------------------------------------------------- the streaming digest

  /** The buffered block `before` ends with the last bytes of the message m. */
  ghost predicate Buffers(m: seq<Byte>, before: seq<Byte>) {
    |before| == 64 && before[..|m| % 64] == m[|m| - |m| % 64..]
  }

  /** Data that does not fill the buffered block. */
  lemma StillPending(m: seq<Byte>, data: seq<Byte>, before: seq<Byte>, after: seq<Byte>)
    requires Buffers(m, before) && |m| % 64 + |data| < 64
    requires after == before[..|m| % 64] + data + before[|m| % 64 + |data|..]
    ensures Buffers(m + data, after) && |m + data| - |m + data| % 64 == |m| - |m| % 64
    ensures (m + data)[..|m| - |m| % 64] == m[..|m| - |m| % 64]
  {
    DivMod(|m + data|, 64, |m| / 64, |m| % 64 + |data|);
    assert after[..|m| % 64 + |data|] == before[..|m| % 64] + data;
  }

  /** Data that fills the buffered block, and the rest. */
  lemma BlockFilled(m: seq<Byte>, data: seq<Byte>, before: seq<Byte>, after: seq<Byte>)
    requires Buffers(m, before) && |m| % 64 + |data| >= 64
    requires after == before[..|m| % 64] + data[..64 - |m| % 64] + before[64..]
    ensures var all, start := m + data, |m| - |m| % 64;
            && all[..start] == m[..start] && start % 64 == 0 && start + 64 <= |all|
            && after == all[start..start + 64] && data[64 - |m| % 64..] == all[start + 64..]
  {
    DivMod(|m| - |m| % 64, 64, |m| / 64, 0);
  }

  lemma ChunkCopied(all: seq<Byte>, data: seq<Byte>, start: nat, pos: nat, before: seq<Byte>, after: seq<Byte>)
    requires start <= |all| && data == all[start..] && pos + 64 <= |data| && |before| == 64
    requires start % 64 == 0 && pos % 64 == 0 && after == before[..0] + data[pos..pos + 64] + before[64..]
    ensures (start + pos) % 64 == 0 && after == all[start + pos..start + pos + 64]
  {
  }

  lemma TailCopied(all: seq<Byte>, data: seq<Byte>, start: nat, pos: nat, before: seq<Byte>, after: seq<Byte>)
    requires start <= |all| && data == all[start..] && pos <= |data| < pos + 64 && |before| == 64
    requires start % 64 == 0 && pos % 64 == 0 && after == before[..0] + data[pos..] + before[|data| - pos..]
    ensures |all| - |all| % 64 == start + pos && Buffers(all, after)
  {
    DivMod(|all|, 64, (start + pos) / 64, |data| - pos);
    assert after[..|data| - pos] == data[pos..];
  }

  lemma BlockBoundary(m: seq<Byte>, data: seq<Byte>)
    requires |m| % 64 == 0
    ensures 64 * (|m| / 64) == |m| && (m + data)[..|m|] == m && (m + data)[|m|..] == data && m[..|m|] == m
  {
  }

  class MD5Digest {
    var buf: Registers
    var bits0: nat
    var bits1: nat
    const input: array<Byte>
    ghost var message: seq<Byte>

    /** The object has absorbed exactly `message`. */
    ghost predicate Valid()
      reads this, input
    {
      var tail := |message| - |message| % 64;
      && input.Length == 64 && Counts(bits0, bits1, |message|)
      && buf == Process(INITIAL, message[..tail])
      && Buffers(message, input[..])
    }

    constructor ()
      ensures Valid() && fresh(input) && message == []
    {
      buf := INITIAL;
      bits0, bits1 := 0, 0;
      input := new Byte[64];
      message := [];
    }

    method Reset()
      requires input.Length == 64
      modifies this
      ensures Valid() && message == []
    {
      buf := INITIAL;
      bits0, bits1 := 0, 0;
      message := [];
    }

    /** Adds k bytes to the bit counter. */
    method AddLength(ghost n: nat, k: nat)
      requires Counts(bits0, bits1, n) && k < B32
      modifies this`bits0, this`bits1
      ensures Counts(bits0, bits1, n + k)
    {
      hide Counts;
      CounterAdds(bits0, bits1, n, k);
      var t := bits0;
      bits0 := (t + k * 8 % B32) % B32;
      if bits0 < t {
        bits1 := (bits1 + 1) % B32;
      }
      bits1 := (bits1 + k / 0x2000_0000) % B32;
    }

    /** memcpy into the block buffer. */
    method CopyIn(at: nat, src: seq<Byte>)
      requires input.Length == 64 && at + |src| <= 64
      modifies input
      ensures input[..] == old(input[..at]) + src + old(input[at + |src|..])
    {
      forall i | 0 <= i < |src| {
        input[at + i] := src[i];
      }
    }

    /** Compress the buffered block, which is the next one of the stream `all`. */
    method CompressIn(ghost all: seq<Byte>, ghost start: nat)
      requires input.Length == 64 && start % 64 == 0 && start + 64 <= |all|
      requires buf == Process(INITIAL, all[..start]) && input[..] == all[start..start + 64]
      modifies this`buf
      ensures buf == Process(INITIAL, all[..start + 64])
    {
      hide Process, Compress, DecodeWords;
      BlockDone(all, start, input[..]);
      buf := Transform(buf, DecodeWords(input[..]));
    }

    /** Process data in 64-byte chunks, then keep the rest: `all` is the whole stream, of which the
        first `blocks` blocks are compressed and `data` is what is left. */
    method UpdateWholeBlocks(ghost all: seq<Byte>, ghost blocks: nat, data: seq<Byte>)
      requires input.Length == 64 && Counts(bits0, bits1, |all|)
      requires 64 * blocks + |data| == |all| && data == all[64 * blocks..]
      requires buf == Process(INITIAL, all[..64 * blocks])
      modifies this, input
      ensures Valid() && message == all
    {
      hide Process, Counts, Buffers;
      var pos := 0;
      ghost var start := 64 * blocks;
      while |data| - pos >= 64
        invariant 0 <= pos <= |data| && pos % 64 == 0
        invariant buf == Process(INITIAL, all[..start + pos])
        invariant bits0 == old(bits0) && bits1 == old(bits1)
      {
        ghost var before := input[..];
        CopyIn(0, data[pos..pos + 64]);
        ChunkCopied(all, data, start, pos, before, input[..]);
        CompressIn(all, start + pos);
        pos := pos + 64;
      }
      ghost var before := input[..];
      CopyIn(0, data[pos..]);
      TailCopied(all, data, start, pos, before, input[..]);
      message := all;
    }

    method Update(data: seq<Byte>)
      requires Valid() && |data| < B32
      modifies this, input
      ensures Valid() && message == old(message) + data
    {
      hide Process, Counts, Buffers;
      CounterPosition(bits0, bits1, |message|);
      ghost var m, before := message, input[..];
      var t := bits0 / 8 % 64;
      AddLength(|m|, |data|);
      if t != 0 {
        var room := 64 - t;
        if |data| < room {
          CopyIn(t, data);
          StillPending(m, data, before, input[..]);
          message := m + data;
          return;
        }
        CopyIn(t, data[..room]);
        BlockFilled(m, data, before, input[..]);
        CompressIn(m + data, |m| - t);
        UpdateWholeBlocks(m + data, |m| / 64 + 1, data[room..]);
      } else {
        BlockBoundary(m, data);
        UpdateWholeBlocks(m + data, |m| / 64, data);
      }
    }

    /** Pads to 56 mod 64, compressing the block that fills up on the way. */
    method Pad()
      requires Valid()
      modifies this`buf, input
      ensures |Padded(message)| >= 56 && input[..56] == Padded(message)[|Padded(message)| - 56..]
      ensures buf == Process(INITIAL, Padded(message)[..|Padded(message)| - 56])
    {
      hide Process, Counts, Padded;
      CounterPosition(bits0, bits1, |message|);
      PaddedLayout(message);
      ghost var p := Padded(message);
      ghost var start := 64 * (|message| / 64);
      var count := bits0 / 8 % 64;
      CopyIn(count, [0x80]);
      var at := count + 1;
      count := 64 - 1 - count;
      assert input[..at] == message[start..] + [0x80];
      if count < 8 {
        CopyIn(at, Zeros(count));
        assert input[..] == p[start..][..64];
        CompressIn(p, start);
        CopyIn(0, Zeros(56));
        assert input[..56] == p[start..][64..];
      } else {
        CopyIn(at, Zeros(count - 8));
        assert input[..56] == p[start..];
      }
    }

    method Final() returns (digest: seq<Byte>)
      requires Valid()
      modifies this, input
      ensures digest == Digest(old(message))
    {
      hide Process, Compress, DecodeWords, EncodeRegisters, LengthWords, ToWord, Counts, Padded;
      Pad();
      LengthOf(bits0, bits1, |message|);
      var block := DecodeWords(input[..56]) + [ToWord(bits0), ToWord(bits1)];
      buf := Transform(buf, block);
      digest := EncodeRegisters(buf);
    }
  }

  function Concat(pieces: seq<seq<Byte>>): seq<Byte> {
    if pieces == [] then [] else Concat(pieces[..|pieces| - 1]) + pieces[|pieces| - 1]
  }

  lemma ConcatNone(pieces: seq<seq<Byte>>)
    ensures Concat(pieces[..0]) == [] && pieces[..|pieces|] == pieces
  {
  }

  lemma ConcatNext(pieces: seq<seq<Byte>>, i: nat)
    requires i < |pieces|
    ensures Concat(pieces[..i + 1]) == Concat(pieces[..i]) + pieces[i]
  {
    assert pieces[..i + 1][..i] == pieces[..i];
  }

  /** However a message is cut into Update calls, the digest is the one-shot digest of the whole. */
  method DigestOfPieces(pieces: seq<seq<Byte>>) returns (digest: seq<Byte>)
    requires forall i :: 0 <= i < |pieces| ==> |pieces[i]| < B32
    ensures digest == Digest(Concat(pieces))
  {
    hide Digest, Process, Counts, Buffers, Concat;
    ConcatNone(pieces);
    var md5 := new MD5Digest();
    for i := 0 to |pieces|
      invariant md5.Valid() && md5.message == Concat(pieces[..i]) && fresh(md5) && fresh(md5.input)
    {
      ConcatNext(pieces, i);
      md5.Update(pieces[i]);
    }
    assert pieces[..|pieces|] == pieces;
    digest := md5.Final();
  }
}
