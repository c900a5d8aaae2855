/** The interpreter's instruction cache (src/core/bus.cpp:1050-1105 and 1274-1312,
    src/core/cpu_core_private.h:32-55): 256 lines of four words, direct-mapped, whose tags carry four
    invalid bits below the line address. */
module InstructionCache {
  import opened Common

  const LINES: nat := 256
  const LINE_SIZE: nat := 16
  const INVALID_BITS: nat := 15

  type Word = w: nat | w < 0x1_0000_0000
  type Address = a: nat | a < 0x1_0000_0000
  type LineWords = s: seq<Word> | |s| == 4 witness [0, 0, 0, 0]

  // ---------------------------------------------------------------- addresses and tags

  function LineAddress(a: Address): Address { a / LINE_SIZE * LINE_SIZE }

  function LineOf(a: Address): (line: nat)
    ensures line < LINES
  {
    a / LINE_SIZE % LINES
  }

  function WordOf(a: Address): (k: nat)
    ensures k < 4
  {
    a / 4 % 4
  }

  function InvalidBit(tag: nat, k: nat): bool
    requires k < 4
  {
    tag / (if k == 0 then 1 else if k == 1 then 2 else if k == 2 then 4 else 8) % 2 == 1
  }

  /** CompareICacheTag: the line address matches, and the invalid bit of the word is clear. */
  predicate TagMatches(tag: nat, a: Address) {
    tag / LINE_SIZE == a / LINE_SIZE && !InvalidBit(tag, WordOf(a))
  }

  /** The masked comparison that the source makes, for each word of a line. */
  lemma MaskedComparison(tag: bv32, a: bv32)
    ensures tag & 0xFFFF_FFF1 == a & 0xFFFF_FFF0 <==> tag >> 4 == a >> 4 && tag & 1 == 0
    ensures tag & 0xFFFF_FFF2 == a & 0xFFFF_FFF0 <==> tag >> 4 == a >> 4 && tag & 2 == 0
    ensures tag & 0xFFFF_FFF4 == a & 0xFFFF_FFF0 <==> tag >> 4 == a >> 4 && tag & 4 == 0
    ensures tag & 0xFFFF_FFF8 == a & 0xFFFF_FFF0 <==> tag >> 4 == a >> 4 && tag & 8 == 0
  {
  }

  /** The invalid bits after a fill from word k on: the words before it. */
  function BitsBefore(k: nat): nat
    requires k < 4
  {
    if k == 0 then 0 else if k == 1 then 1 else if k == 2 then 3 else 7
  }

  lemma BitsBeforeWord(start: nat, k: nat)
    requires start < 4 && k < 4
    ensures InvalidBit(BitsBefore(start), k) <==> k < start
  {
  }

  function FillTag(a: Address): nat { LineAddress(a) + BitsBefore(WordOf(a)) }

  lemma FillTagMatches(fill: Address, a: Address)
    ensures TagMatches(FillTag(fill), a) <==> LineAddress(fill) == LineAddress(a) && WordOf(fill) <= WordOf(a)
  {
    hide BitsBefore, WordOf, InvalidBit;
    LowBitsSmall(WordOf(fill));
    TagParts(LineAddress(fill), BitsBefore(WordOf(fill)), fill / LINE_SIZE);
    BitsBeforeWord(WordOf(fill), WordOf(a));
  }

  lemma LowBitsSmall(k: nat)
    requires k < 4
    ensures BitsBefore(k) < LINE_SIZE
  {
  }

  lemma InvalidTagMatches(line: Address, a: Address)
    ensures !TagMatches(LineAddress(line) + INVALID_BITS, a)
    ensures !TagMatches(INVALID_BITS, a)
  {
    TagParts(LineAddress(line), INVALID_BITS, line / LINE_SIZE);
  }

  /** The invalid bits of a tag are those of its low part. */
  lemma TagParts(line: nat, low: nat, q: nat)
    requires line == q * LINE_SIZE && low < LINE_SIZE
    ensures (line + low) / LINE_SIZE == q
    ensures forall k :: 0 <= k < 4 ==> InvalidBit(line + low, k) == InvalidBit(low, k)
  {
    assert (16 * q + low) / 2 == 8 * q + low / 2;
    assert (16 * q + low) / 4 == 4 * q + low / 4;
    assert (16 * q + low) / 8 == 2 * q + low / 8;
  }

  // ---------------------------------------------------------------- history

  /** What memory holds at each address at some moment. */
  type Memory = Address -> Word

  /** What has happened to the cache. A fill starts at the word of its address and runs to the end of the
      line, with the words that memory holds then; an isolated write invalidates its line. */
  datatype Event = Fill(address: Address, memory: Memory) | Isolated(address: Address) | Cleared

  predicate Touches(e: Event, line: nat) {
    match e
    case Fill(a, _) => LineOf(a) == line
    case Isolated(a) => LineOf(a) == line
    case Cleared => true
  }

  /** The most recent event that concerns a line. */
  function LastTouch(history: seq<Event>, line: nat): Option<Event> {
    if history == [] then None
    else if Touches(history[|history| - 1], line) then Some(history[|history| - 1])
    else LastTouch(history[..|history| - 1], line)
  }

  predicate CoversWord(e: Event, a: Address) {
    e.Fill? && LineAddress(e.address) == LineAddress(a) && WordOf(e.address) <= WordOf(a)
  }

  /** An address is cached if the last event on its line loaded the word for this very address. */
  predicate Cached(history: seq<Event>, a: Address) {
    var e := LastTouch(history, LineOf(a));
    e.Some? && CoversWord(e.value, a)
  }

  /** What memory held at an address when the most recent fill covering it was made. */
  function LastLoaded(history: seq<Event>, a: Address): Option<Word> {
    if history == [] then None
    else if CoversWord(history[|history| - 1], a) then Some(history[|history| - 1].memory(a))
    else LastLoaded(history[..|history| - 1], a)
  }

  /** For a cached address, the last event on its line is that fill. */
  lemma {:induction false} CachedIsLoaded(history: seq<Event>, a: Address)
    requires Cached(history, a)
    ensures LastLoaded(history, a) == Some(LastTouch(history, LineOf(a)).value.memory(a))
    decreases |history|
  {
    var n := |history| - 1;
    if !Touches(history[n], LineOf(a)) {
      SameLine(history[n], a);
      CachedIsLoaded(history[..n], a);
    }
  }

  lemma SameLine(e: Event, a: Address)
    ensures CoversWord(e, a) ==> Touches(e, LineOf(a))
  {
    if CoversWord(e, a) {
      assert e.address / LINE_SIZE == a / LINE_SIZE;
    }
  }

  // ---------------------------------------------------------------- the cache

  /** The state of one line, given the last event that concerned it. */
  predicate LineTrue(e: Option<Event>, tag: nat, words: LineWords, line: nat) {
    match e
    case None => false
    case Some(Cleared) => tag == INVALID_BITS
    case Some(Isolated(a)) => LineOf(a) == line && tag == LineAddress(a) + INVALID_BITS
    case Some(Fill(a, memory)) =>
      LineOf(a) == line && tag == FillTag(a)
      && forall b: Address :: LineAddress(b) == LineAddress(a) && WordOf(a) <= WordOf(b) && b % 4 == 0 ==>
           words[WordOf(b)] == memory(b)
  }

  class ICache {
    const tags: array<nat>
    const data: array<LineWords>
    ghost var history: seq<Event>

    ghost predicate Valid()
      reads this, tags, data
    {
      && tags.Length == LINES && data.Length == LINES
      && forall line :: 0 <= line < LINES ==> LineTrue(LastTouch(history, line), tags[line], data[line], line)
    }

    constructor ()
      ensures Valid() && history == [Cleared] && fresh(tags) && fresh(data)
    {
      tags := new nat[LINES](_ => INVALID_BITS);
      data := new LineWords[LINES](_ => [0, 0, 0, 0]);
      history := [Cleared];
    }

    /** ClearICache. */
    method Clear()
      requires Valid()
      modifies this`history, tags, data
      ensures Valid() && history == old(history) + [Cleared]
      ensures forall a: Address :: !Hit(a)
    {
      forall line | 0 <= line < LINES {
        tags[line] := INVALID_BITS;
      }
      forall line | 0 <= line < LINES {
        data[line] := [0, 0, 0, 0];
      }
      history := history + [Cleared];
      forall a: Address
        ensures !Hit(a)
      {
        InvalidTagMatches(a, a);
      }
    }

    /** Does the tag of an address match? */
    predicate Hit(a: Address)
      requires tags.Length == LINES
      reads tags
    {
      TagMatches(tags[LineOf(a)], a)
    }

    /** The tags say exactly which addresses are cached: not a word that a partial fill skipped, and not
        an address of another line with the same index. */
    lemma HitIsCached(a: Address)
      requires Valid() && a % 4 == 0
      ensures Hit(a) <==> Cached(history, a)
      ensures Hit(a) ==> LastLoaded(history, a) == Some(data[LineOf(a)][WordOf(a)])
    {
      var line := LineOf(a);
      assert LineTrue(LastTouch(history, line), tags[line], data[line], line);
      var e := LastTouch(history, line).value;
      match e
      case Cleared => InvalidTagMatches(a, a);
      case Isolated(b) => InvalidTagMatches(b, a);
      case Fill(b, w) =>
        FillTagMatches(b, a);
        if Cached(history, a) {
          CachedIsLoaded(history, a);
        }
    }

    /** FillICache: loads the words from the address to the end of its line. */
    method FillICache(a: Address, read: Memory) returns (word: Word)
      requires Valid() && a % 4 == 0
      modifies this`history, tags, data
      ensures Valid() && word == read(a) && history == old(history) + [Fill(a, read)]
    {
      var line := LineOf(a);
      var k := WordOf(a);
      var words := data[line];
      AddressParts(a);
      for i := k to 4
        invariant |words| == 4 && forall j :: k <= j < i ==> words[j] == read(LineAddress(a) + 4 * j)
      {
        words := words[i := read(LineAddress(a) + 4 * i)];
      }
      forall b: Address | LineAddress(b) == LineAddress(a) && k <= WordOf(b) && b % 4 == 0
        ensures words[WordOf(b)] == read(b)
      {
        AddressParts(b);
      }
      data[line] := words;
      tags[line] := FillTag(a);
      history := history + [Fill(a, read)];
      word := words[k];
    }

    /** WriteICache, for a store while the cache is isolated. */
    method WriteICache(a: Address, value: Word)
      requires Valid()
      modifies this`history, tags, data
      ensures Valid() && history == old(history) + [Isolated(a)]
      ensures forall b: Address :: LineOf(b) == LineOf(a) ==> !Hit(b)
    {
      var line := LineOf(a);
      tags[line] := LineAddress(a) + INVALID_BITS;
      data[line] := data[line][WordOf(a) := value];
      history := history + [Isolated(a)];
      forall b: Address | LineOf(b) == LineOf(a)
        ensures !Hit(b)
      {
        InvalidTagMatches(a, b);
      }
    }

    /** FetchInstruction: from the cache in KUSEG and KSEG0, around it in KSEG1, and not at all elsewhere.
        A cached address delivers what the last fill loaded for it, any other what memory holds, and that
        fetch fills the line. */
    method Fetch(a: Address, read: Memory) returns (word: Option<Word>)
      requires Valid() && a % 4 == 0
      modifies this`history, tags, data
      ensures Valid()
      ensures a / 0x2000_0000 in {0, 4} && Cached(old(history), a) ==> word == LastLoaded(old(history), a)
      ensures (a / 0x2000_0000 in {0, 4} && !Cached(old(history), a)) || a / 0x2000_0000 == 5 ==> word == Some(read(a))
      ensures a / 0x2000_0000 !in {0, 4, 5} ==> word == None
      ensures history
              == old(history) + if InSegments(a, {0, 4}) && !Cached(old(history), a) then [Fill(a, read)] else []
    {
      var segment := a / 0x2000_0000;
      if segment == 0 || segment == 4 {
        HitIsCached(a);
        if TagMatches(tags[LineOf(a)], a) {
          word := Some(data[LineOf(a)][WordOf(a)]);
        } else {
          var w := FillICache(a, read);
          word := Some(w);
        }
      } else if segment == 5 {
        word := Some(read(a));
      } else {
        word := None;
      }
    }
  }

  predicate InSegments(a: Address, segments: set<nat>) { a / 0x2000_0000 in segments }

  // ---------------------------------------------------------------- whole runs

  /** What the interpreter does to the cache; memory may be different every time. */
  datatype Op = FetchFrom(address: Address, memory: Memory) | WriteIsolated(address: Address, value: Word) | ClearAll

  predicate Aligned(ops: seq<Op>) {
    forall i :: 0 <= i < |ops| && ops[i].FetchFrom? ==> ops[i].address % 4 == 0
  }

  function Recorded(history: seq<Event>, op: Op): seq<Event> {
    match op
    case FetchFrom(a, memory) =>
      if InSegments(a, {0, 4}) && !Cached(history, a) then history + [Fill(a, memory)] else history
    case WriteIsolated(a, _) => history + [Isolated(a)]
    case ClearAll => history + [Cleared]
  }

  /** The history of the cache after some operations. */
  function History(start: seq<Event>, ops: seq<Op>): seq<Event> {
    if ops == [] then start else Recorded(History(start, ops[..|ops| - 1]), ops[|ops| - 1])
  }

  /** What a fetch delivers: for a cached address what was loaded, whatever memory holds now; otherwise what
      memory holds; outside the readable segments nothing. */
  predicate Delivers(history: seq<Event>, a: Address, memory: Memory, word: Option<Word>) {
    && (a / 0x2000_0000 in {0, 4} && Cached(history, a) ==> word == LastLoaded(history, a))
    && ((a / 0x2000_0000 in {0, 4} && !Cached(history, a)) || a / 0x2000_0000 == 5 ==> word == Some(memory(a)))
    && (a / 0x2000_0000 !in {0, 4, 5} ==> word == None)
  }

  /** A run of fetches, isolated writes and clears. */
  method Run(cache: ICache, ops: seq<Op>) returns (words: seq<Option<Word>>)
    requires cache.Valid() && Aligned(ops)
    modifies cache`history, cache.tags, cache.data
    ensures cache.Valid() && cache.history == History(old(cache.history), ops) && |words| == |ops|
    ensures forall i :: 0 <= i < |ops| && ops[i].FetchFrom? ==>
              Delivers(History(old(cache.history), ops[..i]), ops[i].address, ops[i].memory, words[i])
  {
    hide Cached, LastLoaded, InSegments;
    ghost var start := cache.history;
    words := [];
    for i := 0 to |ops|
      invariant cache.Valid() && cache.history == History(start, ops[..i]) && |words| == i
      invariant forall j :: 0 <= j < i && ops[j].FetchFrom? ==>
                  Delivers(History(start, ops[..j]), ops[j].address, ops[j].memory, words[j])
    {
      assert ops[..i + 1][..i] == ops[..i];
      var word := None;
      match ops[i] {
        case FetchFrom(a, memory) =>
          word := cache.Fetch(a, memory);
          assert Delivers(History(start, ops[..i]), a, memory, word);
        case WriteIsolated(a, value) =>
          cache.WriteICache(a, value);
        case ClearAll =>
          cache.Clear();
      }
      words := words + [word];
    }
    assert ops[..|ops|] == ops;
  }

  /** Operation j loads the line of a from its word on, or an earlier one. */
  predicate Loads(ops: seq<Op>, j: nat, a: Address)
    requires j < |ops|
  {
    ops[j].FetchFrom? && LineAddress(ops[j].address) == LineAddress(a) && WordOf(ops[j].address) <= WordOf(a)
  }

  /** The operation does not clear the cache, write to the line of a, or fetch from another line at the
      same place. */
  predicate Spares(op: Op, a: Address) {
    match op
    case FetchFrom(b, _) => LineOf(b) != LineOf(a) || LineAddress(b) == LineAddress(a) || !InSegments(b, {0, 4})
    case WriteIsolated(b, _) => LineOf(b) != LineOf(a)
    case ClearAll => false
  }

  predicate Undisturbed(ops: seq<Op>, j: nat, a: Address) {
    forall i :: j <= i < |ops| ==> Spares(ops[i], a)
  }

  /** An address that is cached was fetched, it or a word before it in its line, and since then nothing
      has disturbed the line; the word delivered is the one that memory held then. */
  lemma {:induction false} CachedSinceFetch(ops: seq<Op>, a: Address) returns (j: nat)
    requires Cached(History([Cleared], ops), a)
    ensures j < |ops| && Loads(ops, j, a) && Undisturbed(ops, j, a)
    ensures LastLoaded(History([Cleared], ops), a) == Some(ops[j].memory(a))
    decreases |ops|
  {
    hide Undisturbed, LineAddress, LineOf, WordOf;
    var start := [Cleared];
    assert start[..0] == [];
    var n := |ops| - 1;
    var before := History(start, ops[..n]);
    RecordedAt(before, ops[n], a);
    if Recorded(before, ops[n]) != before && Touches(Recorded(before, ops[n])[|before|], LineOf(a)) {
      j := n;
    } else {
      j := CachedSinceFetch(ops[..n], a);
    }
    StillUndisturbed(ops, j, a, before);
  }

  /** What one operation means for an address. */
  lemma RecordedAt(history: seq<Event>, op: Op, a: Address)
    ensures var after := Recorded(history, op);
            && (after == history || (|after| == |history| + 1 && after[..|history|] == history))
            && (after != history && CoversWord(after[|history|], a) ==>
                  op.FetchFrom? && after[|history|] == Fill(op.address, op.memory))
            && (after != history && !Touches(after[|history|], LineOf(a)) ==>
                  LastLoaded(after, a) == LastLoaded(history, a) && (Cached(after, a) <==> Cached(history, a)))
            && (after != history && Touches(after[|history|], LineOf(a)) ==>
                  (Cached(after, a) <==> CoversWord(after[|history|], a)))
  {
    var after := Recorded(history, op);
    if after != history {
      SameLine(after[|history|], a);
    }
  }

  lemma {:induction false} StillUndisturbed(ops: seq<Op>, j: nat, a: Address, before: seq<Event>)
    requires ops != [] && j < |ops| && Cached(Recorded(before, ops[|ops| - 1]), a)
    requires if j == |ops| - 1 then Loads(ops, j, a) else Undisturbed(ops[..|ops| - 1], j, a) && Cached(before, a)
    ensures Undisturbed(ops, j, a)
  {
    var n := |ops| - 1;
    hide LineOf, LineAddress, WordOf, Cached, Recorded, Spares;
    LastSpares(before, ops[n], a, j == n);
    forall i | j <= i < n
      ensures Spares(ops[i], a)
    {
      assert ops[i] == ops[..n][i];
    }
  }

  lemma LastSpares(history: seq<Event>, op: Op, a: Address, loads: bool)
    requires Cached(Recorded(history, op), a)
    requires if loads then op.FetchFrom? && LineAddress(op.address) == LineAddress(a) else Cached(history, a)
    ensures Spares(op, a)
  {
    hide LineOf, LineAddress, WordOf;
    RecordedAt(history, op, a);
    if op.FetchFrom? && !loads && LineOf(op.address) == LineOf(a) && Cached(history, op.address) {
      SameCachedLine(history, op.address, a);
    }
  }

  /** Two cached addresses at the same place belong to one line. */
  lemma SameCachedLine(history: seq<Event>, a: Address, b: Address)
    requires Cached(history, a) && Cached(history, b) && LineOf(a) == LineOf(b)
    ensures LineAddress(a) == LineAddress(b)
  {
  }

  /** Conversely, a fetch in a cached segment keeps the rest of its line cached until it is disturbed. */
  lemma {:induction false} FetchStaysCached(ops: seq<Op>, j: nat, a: Address)
    requires j < |ops| && Loads(ops, j, a) && InSegments(a, {0, 4}) && Undisturbed(ops, j, a)
    ensures Cached(History([Cleared], ops), a)
    decreases |ops|
  {
    hide LineOf, LineAddress, WordOf;
    var n := |ops| - 1;
    var before := History([Cleared], ops[..n]);
    RecordedAt(before, ops[n], a);
    if ops[n].FetchFrom? {
      SameSegment(ops[n].address, a);
    }
    if j < n {
      assert forall i :: j <= i < n ==> ops[i] == ops[..n][i];
      FetchStaysCached(ops[..n], j, a);
      if ops[n].FetchFrom? && LineAddress(ops[n].address) == LineAddress(a) {
        FetchKeeps(before, ops[n].address, a);
      }
    } else {
      FetchKeeps(before, ops[n].address, a);
    }
  }

  lemma SameSegment(a: Address, b: Address)
    ensures LineAddress(a) == LineAddress(b) ==> LineOf(a) == LineOf(b) && a / 0x2000_0000 == b / 0x2000_0000
  {
    if LineAddress(a) == LineAddress(b) {
      assert a / LINE_SIZE == b / LINE_SIZE;
      Segment(a);
      Segment(b);
    }
  }

  lemma Segment(a: Address)
    ensures a / 0x2000_0000 == a / LINE_SIZE / 0x200_0000
  {
  }

  /** If b is cached and in the line of a, the fill reaches every later word; if it is not, and the fill
      of b does not reach a, then a was not cached either. */
  lemma FetchKeeps(history: seq<Event>, b: Address, a: Address)
    requires LineAddress(a) == LineAddress(b)
    ensures LineOf(a) == LineOf(b)
    ensures Cached(history, b) && WordOf(b) <= WordOf(a) ==> Cached(history, a)
    ensures !Cached(history, b) && Cached(history, a) ==> WordOf(b) <= WordOf(a)
  {
    SameSegment(a, b);
  }

  /** Operation j fills its line: it fetches in a cached segment, and no earlier fetch of the line, at
      this word or before it, has stayed undisturbed until then. */
  predicate Fills(ops: seq<Op>, j: nat)
    requires j < |ops|
  {
    && ops[j].FetchFrom? && InSegments(ops[j].address, {0, 4})
    && forall i :: 0 <= i < j && Loads(ops, i, ops[j].address) ==> !Undisturbed(ops[..j], i, ops[j].address)
  }

  /** These are the fetches that miss. */
  lemma FillsExactly(ops: seq<Op>, j: nat)
    requires j < |ops| && ops[j].FetchFrom? && InSegments(ops[j].address, {0, 4})
    ensures Fills(ops, j) <==> !Cached(History([Cleared], ops[..j]), ops[j].address)
  {
    hide LineAddress, LineOf, WordOf, Cached, Undisturbed, InSegments;
    var a := ops[j].address;
    if Cached(History([Cleared], ops[..j]), a) {
      var i := CachedSinceFetch(ops[..j], a);
      assert Loads(ops, i, a);
    }
    forall i | 0 <= i < j && Loads(ops, i, a) && Undisturbed(ops[..j], i, a)
      ensures Cached(History([Cleared], ops[..j]), a)
    {
      FetchStaysCached(ops[..j], i, a);
    }
  }

  /** No operation after j fills the line of a from its word on, or an earlier one. */
  predicate NotFilledAgain(ops: seq<Op>, j: nat, a: Address) {
    forall i :: j < i < |ops| && Loads(ops, i, a) ==> !Fills(ops, i)
  }

  lemma FillsBefore(ops: seq<Op>, n: nat, j: nat)
    requires j < n <= |ops|
    ensures Fills(ops[..n], j) <==> Fills(ops, j)
  {
    hide LineAddress, WordOf, Undisturbed, InSegments;
    var before := ops[..n];
    assert before[..j] == ops[..j];
    assert forall i :: 0 <= i < n ==> before[i] == ops[i];
    if ops[j].FetchFrom? {
      assert forall i :: 0 <= i < j ==> (Loads(before, i, before[j].address) <==> Loads(ops, i, ops[j].address));
    }
  }

  /** The last of some operations after j leaves the earlier ones as they are, and itself does not fill. */
  lemma NotFilledBefore(ops: seq<Op>, j: nat, a: Address)
    requires j < |ops| - 1 && Fills(ops, j) && NotFilledAgain(ops, j, a)
    ensures Fills(ops[..|ops| - 1], j) && NotFilledAgain(ops[..|ops| - 1], j, a)
    ensures Loads(ops, |ops| - 1, a) ==> !Fills(ops, |ops| - 1)
  {
    hide LineAddress, WordOf, Fills;
    var before := ops[..|ops| - 1];
    FillsBefore(ops, |before|, j);
    forall i | j < i < |before| && Loads(before, i, a)
      ensures !Fills(before, i)
    {
      assert Loads(ops, i, a);
      FillsBefore(ops, |before|, i);
    }
  }

  /** What is on record for a word is what memory held when its line was last filled from that word or an
      earlier one. */
  lemma {:induction false} LoadedByLastFill(ops: seq<Op>, j: nat, a: Address)
    requires j < |ops| && Loads(ops, j, a) && Fills(ops, j) && NotFilledAgain(ops, j, a)
    ensures LastLoaded(History([Cleared], ops), a) == Some(ops[j].memory(a))
    decreases |ops|
  {
    hide LineAddress, LineOf, WordOf, Cached, InSegments;
    var n := |ops| - 1;
    var before := History([Cleared], ops[..n]);
    if ops[n].FetchFrom? && InSegments(ops[n].address, {0, 4}) {
      FillsExactly(ops, n);
    }
    if j < n {
      NotFilledBefore(ops, j, a);
      LoadedByLastFill(ops[..n], j, a);
      LoadedKept(before, ops[n], a);
    }
  }

  /** An operation that does not fill the word leaves what is on record for it. */
  lemma LoadedKept(history: seq<Event>, op: Op, a: Address)
    requires op.FetchFrom? && InSegments(op.address, {0, 4}) && !Cached(history, op.address) ==>
               !(LineAddress(op.address) == LineAddress(a) && WordOf(op.address) <= WordOf(a))
    ensures LastLoaded(Recorded(history, op), a) == LastLoaded(history, a)
  {
    hide LineAddress, LineOf, WordOf, Cached;
  }

  /** In a run that ends with a fetch of a, the word delivered is the one memory held when the line was
      last filled from this word or an earlier one, provided nothing has disturbed the line since. What
      memory holds at the time of the fetch does not matter. */
  method RunDeliversLoaded(cache: ICache, ops: seq<Op>, j: nat, a: Address, now: Memory) returns (word: Option<Word>)
    requires cache.Valid() && cache.history == [Cleared] && Aligned(ops) && a % 4 == 0 && a / 0x2000_0000 in {0, 4}
    requires j < |ops| && Loads(ops, j, a) && Fills(ops, j) && NotFilledAgain(ops, j, a) && Undisturbed(ops, j, a)
    modifies cache`history, cache.tags, cache.data
    ensures word == Some(ops[j].memory(a))
  {
    FetchStaysCached(ops, j, a);
    LoadedByLastFill(ops, j, a);
    hide Cached, LastLoaded, Loads, Fills, NotFilledAgain, Undisturbed, History;
    var _ := Run(cache, ops);
    word := cache.Fetch(a, now);
  }

  lemma AddressParts(a: Address)
    requires a % 4 == 0
    ensures a == LineAddress(a) + 4 * WordOf(a)
    ensures forall k :: 0 <= k < 4 ==> LineAddress(a) + 4 * k < 0x1_0000_0000
  {
    assert a == 16 * (a / 16) + a % 16;
    assert a / 4 == 4 * (a / 16) + a % 16 / 4;
    assert a % 16 == 4 * (a % 16 / 4);
  }
}
