/** Which words of guest memory a block of the code cache is made of (src/core/cpu_code_cache.cpp:577-671). */
module BlockDecoding {
  import opened CodeCacheModel
  import opened Common

  /** What the instruction decoder says about a word. */
  datatype Decoder = Decoder(isValid: seq<Byte> -> bool, isBranch: seq<Byte> -> bool, isExit: seq<Byte> -> bool)

  /** What one compilation meets: the current frame, the decoder, whether the code buffer has room,
      whether the code generator succeeds, and where it puts the code. */
  datatype Env = Env(frame: nat, decoder: Decoder, space: bool, generates: bool, hostCode: nat)

  /** Instructions from address a up to the end of the block: an invalid word, an exit, or the delay
      slot of a branch. None stands for a branch in a branch delay slot. */
  function CollectFrom(ram: seq<Byte>, bios: seq<Byte>, d: Decoder, a: nat, delaySlot: bool): Option<seq<seq<Byte>>>
    requires |ram| == RAM_SIZE && |bios| == BIOS_SIZE && a % 4 == 0
    decreases BIOS_BASE + BIOS_SIZE - a
  {
    if !Readable(a) || !d.isValid(Fetch(ram, bios, a)) then Some([])
    else
      var word := Fetch(ram, bios, a);
      if delaySlot && d.isBranch(word) then None
      else if delaySlot || d.isExit(word) then Some([word])
      else Prepend([word], CollectFrom(ram, bios, d, a + 4, d.isBranch(word)))
  }

  function Collect(ram: seq<Byte>, bios: seq<Byte>, d: Decoder, pc: nat): Option<seq<seq<Byte>>>
    requires |ram| == RAM_SIZE && |bios| == BIOS_SIZE && pc % 4 == 0
  {
    PhysicalAligned(pc);
    if pc / 0x2000_0000 in {0, 4, 5} then CollectFrom(ram, bios, d, Physical(pc), false) else Some([])
  }

  /** The valid word i places from address a, if there is one to be fetched. */
  function NthWord(ram: seq<Byte>, bios: seq<Byte>, d: Decoder, a: nat, i: nat): Option<seq<Byte>>
    requires |ram| == RAM_SIZE && |bios| == BIOS_SIZE && a % 4 == 0
  {
    WordAligned(a, i);
    if Readable(a + 4 * i) && d.isValid(Fetch(ram, bios, a + 4 * i)) then Some(Fetch(ram, bios, a + 4 * i)) else None
  }

  lemma WordAligned(a: nat, i: nat)
    requires a % 4 == 0
    ensures (a + 4 * i) % 4 == 0
  {
    assert a + 4 * i == 4 * (a / 4 + i);
  }

  /** Exactly these words, from address a on, make up a block: each is fetched, and valid; only the last may
      be an exit, or stand in the delay slot of a branch, and such a slot holds no branch. Without such an
      end there is no further word. */
  predicate BlockExtent(ram: seq<Byte>, bios: seq<Byte>, d: Decoder, a: nat, delaySlot: bool, words: seq<seq<Byte>>)
    requires |ram| == RAM_SIZE && |bios| == BIOS_SIZE && a % 4 == 0
  {
    && Taken(ram, bios, d, a, words) && OneBlock(d, delaySlot, words)
    && ((words != [] && Ends(d, delaySlot, words, |words| - 1)) || NthWord(ram, bios, d, a, |words|) == None)
  }

  predicate Taken(ram: seq<Byte>, bios: seq<Byte>, d: Decoder, a: nat, words: seq<seq<Byte>>)
    requires |ram| == RAM_SIZE && |bios| == BIOS_SIZE && a % 4 == 0
  {
    forall i :: 0 <= i < |words| ==> NthWord(ram, bios, d, a, i) == Some(words[i])
  }

  /** No branch stands in a delay slot, and no word but the last ends the block. */
  predicate OneBlock(d: Decoder, delaySlot: bool, words: seq<seq<Byte>>) {
    && (forall i :: 0 <= i < |words| ==> !(InSlot(d, delaySlot, words, i) && d.isBranch(words[i])))
    && (forall i :: 0 <= i < |words| - 1 ==> !Ends(d, delaySlot, words, i))
  }

  /** Does the i-th word stand in a delay slot? */
  predicate InSlot(d: Decoder, delaySlot: bool, words: seq<seq<Byte>>, i: nat)
    requires i < |words|
  {
    if i == 0 then delaySlot else d.isBranch(words[i - 1])
  }

  /** Does the block end with its i-th word? */
  predicate Ends(d: Decoder, delaySlot: bool, words: seq<seq<Byte>>, i: nat)
    requires i < |words|
  {
    InSlot(d, delaySlot, words, i) || d.isExit(words[i])
  }

  lemma CollectStep(ram: seq<Byte>, bios: seq<Byte>, d: Decoder, a: nat, delaySlot: bool)
    requires |ram| == RAM_SIZE && |bios| == BIOS_SIZE && a % 4 == 0
    ensures CollectFrom(ram, bios, d, a, delaySlot)
            == match NthWord(ram, bios, d, a, 0)
               case None => Some([])
               case Some(word) =>
                 if delaySlot && d.isBranch(word) then None
                 else if delaySlot || d.isExit(word) then Some([word])
                 else Prepend([word], CollectFrom(ram, bios, d, a + 4, d.isBranch(word)))
  {
    hide Fetch, Readable, Prepend;
  }

  /** The words that are collected are the only ones that make up a block; if there are none, none do. */
  lemma {:induction false} CollectedExactly(ram: seq<Byte>, bios: seq<Byte>, d: Decoder, a: nat, delaySlot: bool,
                                            words: seq<seq<Byte>>)
    requires |ram| == RAM_SIZE && |bios| == BIOS_SIZE && a % 4 == 0
    ensures CollectFrom(ram, bios, d, a, delaySlot) == Some(words) <==> BlockExtent(ram, bios, d, a, delaySlot, words)
    decreases |words|
  {
    CollectStep(ram, bios, d, a, delaySlot);
    ExtentHead(ram, bios, d, a, delaySlot, words);
    hide CollectFrom, NthWord, BlockExtent, Prepend;
    var first := NthWord(ram, bios, d, a, 0);
    if first.Some? {
      PrependHead(first.value, CollectFrom(ram, bios, d, a + 4, d.isBranch(first.value)), words);
    }
    if words != [] {
      if NthWord(ram, bios, d, a, 0) == Some(words[0]) && !delaySlot && !d.isExit(words[0]) {
        ExtentTail(ram, bios, d, a, words);
        CollectedExactly(ram, bios, d, a + 4, d.isBranch(words[0]), words[1..]);
      }
    }
  }

  lemma PrependHead<T>(x: T, rest: Option<seq<T>>, xs: seq<T>)
    ensures Prepend([x], rest) == Some(xs) <==> xs != [] && xs[0] == x && rest == Some(xs[1..])
    ensures [x] == xs <==> |xs| == 1 && xs[0] == x
  {
    if xs != [] {
      assert xs == [xs[0]] + xs[1..];
    }
  }

  /** A block with no words, and one that ends with its first word. */
  lemma ExtentHead(ram: seq<Byte>, bios: seq<Byte>, d: Decoder, a: nat, delaySlot: bool, words: seq<seq<Byte>>)
    requires |ram| == RAM_SIZE && |bios| == BIOS_SIZE && a % 4 == 0
    ensures words == [] ==>
              (BlockExtent(ram, bios, d, a, delaySlot, words) <==> NthWord(ram, bios, d, a, 0) == None)
    ensures words != [] && BlockExtent(ram, bios, d, a, delaySlot, words) ==>
              NthWord(ram, bios, d, a, 0) == Some(words[0])
    ensures words != [] && NthWord(ram, bios, d, a, 0) == Some(words[0]) && (delaySlot || d.isExit(words[0])) ==>
              (BlockExtent(ram, bios, d, a, delaySlot, words)
               <==> |words| == 1 && !(delaySlot && d.isBranch(words[0])))
  {
    hide NthWord;
    if words != [] {
      assert InSlot(d, delaySlot, words, 0) == delaySlot;
      assert Ends(d, delaySlot, words, 0) == (delaySlot || d.isExit(words[0]));
    }
  }

  /** The words after one that does not end the block. */
  lemma ExtentTail(ram: seq<Byte>, bios: seq<Byte>, d: Decoder, a: nat, words: seq<seq<Byte>>)
    requires |ram| == RAM_SIZE && |bios| == BIOS_SIZE && a % 4 == 0 && words != []
    requires NthWord(ram, bios, d, a, 0) == Some(words[0]) && !d.isExit(words[0])
    ensures BlockExtent(ram, bios, d, a, false, words)
            <==> BlockExtent(ram, bios, d, a + 4, d.isBranch(words[0]), words[1..])
  {
    TakenTail(ram, bios, d, a, words);
    OneBlockTail(d, words);
    NextWord(ram, bios, d, a, |words| - 1);
    hide NthWord, Taken, OneBlock;
  }

  lemma NextWord(ram: seq<Byte>, bios: seq<Byte>, d: Decoder, a: nat, i: nat)
    requires |ram| == RAM_SIZE && |bios| == BIOS_SIZE && a % 4 == 0
    ensures NthWord(ram, bios, d, a + 4, i) == NthWord(ram, bios, d, a, i + 1)
  {
    hide Fetch, Readable;
    assert a + 4 + 4 * i == a + 4 * (i + 1);
  }

  lemma TakenTail(ram: seq<Byte>, bios: seq<Byte>, d: Decoder, a: nat, words: seq<seq<Byte>>)
    requires |ram| == RAM_SIZE && |bios| == BIOS_SIZE && a % 4 == 0 && words != []
    requires NthWord(ram, bios, d, a, 0) == Some(words[0])
    ensures Taken(ram, bios, d, a, words) <==> Taken(ram, bios, d, a + 4, words[1..])
  {
    hide NthWord;
    forall i | 0 <= i < |words| - 1
      ensures NthWord(ram, bios, d, a + 4, i) == Some(words[1..][i]) <==> NthWord(ram, bios, d, a, i + 1) == Some(words[i + 1])
    {
      NextWord(ram, bios, d, a, i);
    }
    if Taken(ram, bios, d, a + 4, words[1..]) {
      forall i | 0 < i < |words|
        ensures NthWord(ram, bios, d, a, i) == Some(words[i])
      {
        NextWord(ram, bios, d, a, i - 1);
        assert NthWord(ram, bios, d, a + 4, i - 1) == Some(words[1..][i - 1]);
      }
    }
  }

  lemma OneBlockTail(d: Decoder, words: seq<seq<Byte>>)
    requires words != [] && !d.isExit(words[0])
    ensures OneBlock(d, false, words) <==> OneBlock(d, d.isBranch(words[0]), words[1..])
    ensures |words| > 1 ==>
              Ends(d, false, words, |words| - 1) == Ends(d, d.isBranch(words[0]), words[1..], |words| - 2)
    ensures |words| == 1 ==> !Ends(d, false, words, 0)
  {
    var slot, rest := d.isBranch(words[0]), words[1..];
    forall i | 0 <= i < |rest|
      ensures rest[i] == words[i + 1] && InSlot(d, slot, rest, i) == InSlot(d, false, words, i + 1)
      ensures Ends(d, slot, rest, i) == Ends(d, false, words, i + 1)
    {
    }
    hide InSlot, Ends;
    if OneBlock(d, slot, rest) {
      forall i | 0 < i < |words|
        ensures !(InSlot(d, false, words, i) && d.isBranch(words[i]))
        ensures i < |words| - 1 ==> !Ends(d, false, words, i)
      {
        assert rest[i - 1] == words[i];
        assert InSlot(d, slot, rest, i - 1) == InSlot(d, false, words, i - 1 + 1);
        assert Ends(d, slot, rest, i - 1) == Ends(d, false, words, i - 1 + 1);
      }
      FirstStaysOpen(d, words);
    }
  }

  lemma FirstStaysOpen(d: Decoder, words: seq<seq<Byte>>)
    requires words != [] && !d.isExit(words[0])
    ensures !Ends(d, false, words, 0) && !InSlot(d, false, words, 0)
  {
  }

  lemma Extents(ram: seq<Byte>, bios: seq<Byte>, d: Decoder, pc: nat)
    requires |ram| == RAM_SIZE && |bios| == BIOS_SIZE && pc % 4 == 0 && pc / 0x2000_0000 in {0, 4, 5}
    ensures Physical(pc) % 4 == 0
    ensures forall ws: seq<seq<Byte>> ::
              Collect(ram, bios, d, pc) == Some(ws) <==> BlockExtent(ram, bios, d, Physical(pc), false, ws)
  {
    PhysicalAligned(pc);
    hide BlockExtent, CollectFrom;
    forall ws: seq<seq<Byte>>
      ensures Collect(ram, bios, d, pc) == Some(ws) <==> BlockExtent(ram, bios, d, Physical(pc), false, ws)
    {
      CollectedExactly(ram, bios, d, Physical(pc), false, ws);
    }
  }

  function Prepend<T>(xs: seq<T>, rest: Option<seq<T>>): Option<seq<T>> {
    if rest.Some? then Some(xs + rest.value) else None
  }

  lemma PrependNone<T>(rest: Option<seq<T>>)
    ensures Prepend([], rest) == rest
    ensures forall xs: seq<T> :: Prepend(xs, Some([])) == Some(xs)
  {
    if rest.Some? {
      assert [] + rest.value == rest.value;
    }
    assert forall xs: seq<T> :: xs + [] == xs;
  }

  /** Progress of the decoding loop: `words` has been taken, address a comes next. */
  ghost predicate Collecting(s: State, d: Decoder, pc: nat, words: seq<seq<Byte>>, a: nat, delaySlot: bool) {
    && MemoryOk(s) && pc % 4 == 0 && pc / 0x2000_0000 in {0, 4, 5} && a == Physical(pc) + 4 * |words| && a % 4 == 0
    && (words != [] ==> Decodes(s, pc, words))
    && Collect(s.ram, s.bios, d, pc) == Prepend(words, CollectFrom(s.ram, s.bios, d, a, delaySlot))
  }

  lemma CollectStart(s: State, d: Decoder, pc: nat)
    requires MemoryOk(s) && pc % 4 == 0 && pc / 0x2000_0000 in {0, 4, 5}
    ensures Physical(pc) % 4 == 0 && Collecting(s, d, pc, [], Physical(pc), false)
  {
    PhysicalAligned(pc);
    PrependNone(CollectFrom(s.ram, s.bios, d, Physical(pc), false));
  }

  lemma CollectNext(s: State, d: Decoder, pc: nat, words: seq<seq<Byte>>, a: nat, delaySlot: bool)
    requires Collecting(s, d, pc, words, a, delaySlot) && a % 4 == 0 && Readable(a)
    ensures MemoryOk(s) && pc % 4 == 0 && a < BIOS_BASE + BIOS_SIZE
    ensures var word, all := Fetch(s.ram, s.bios, a), Collect(s.ram, s.bios, d, pc);
            var more := words + [word];
            if !d.isValid(word) then all == Some(words) && (words != [] ==> Decodes(s, pc, words))
            else if delaySlot && d.isBranch(word) then all == None
            else if delaySlot || d.isExit(word) then all == Some(more) && Decodes(s, pc, more)
            else (a + 4) % 4 == 0 && Collecting(s, d, pc, more, a + 4, d.isBranch(word))
  {
    hide Fetch, Collect, Decodes;
    var word := Fetch(s.ram, s.bios, a);
    PrependNone(Some(words));
    PrependOne(words, word, CollectFrom(s.ram, s.bios, d, a + 4, d.isBranch(word)));
    DecodesOneMore(s, pc, words);
    hide Prepend;
  }

  lemma CollectEnd(s: State, d: Decoder, pc: nat, words: seq<seq<Byte>>, a: nat, delaySlot: bool)
    requires Collecting(s, d, pc, words, a, delaySlot) && !Readable(a)
    ensures MemoryOk(s) && pc % 4 == 0 && Collect(s.ram, s.bios, d, pc) == Some(words)
    ensures words != [] ==> Decodes(s, pc, words)
  {
    hide Collect, Decodes;
    PrependNone(Some(words));
  }

  lemma DecodesOneMore(s: State, pc: nat, words: seq<seq<Byte>>)
    requires MemoryOk(s) && pc % 4 == 0 && pc / 0x2000_0000 in {0, 4, 5} && (words == [] || Decodes(s, pc, words))
    requires Readable(Physical(pc) + 4 * |words|) && (Physical(pc) + 4 * |words|) % 4 == 0
    ensures Decodes(s, pc, words + [Fetch(s.ram, s.bios, Physical(pc) + 4 * |words|)])
  {
    hide Fetch, Physical, Readable;
    var r := words + [WordAt(s, pc, |words|)];
    forall i | 0 <= i < |r|
      ensures Readable(Physical(pc) + 4 * i) && r[i] == WordAt(s, pc, i)
    {
    }
  }

  lemma PrependOne<T>(xs: seq<T>, x: T, rest: Option<seq<T>>)
    ensures Prepend(xs, Prepend([x], rest)) == Prepend(xs + [x], rest)
    ensures Prepend(xs, Some([x])) == Some(xs + [x])
  {
    if rest.Some? {
      assert xs + ([x] + rest.value) == xs + [x] + rest.value;
    }
  }
}
