/** Wildcard matching of src/common/string_util.cpp: a greedy scan that keeps a single
    backtrack point decides the declarative meaning of a mask. */
module Wildcard {

  /** std::tolower in the "C" locale. */
  function ToLower(c: char): char {
    if 'A' <= c <= 'Z' then (c as int + 32) as char else c
  }

  /** The character equality of each branch of WildcardMatch. The branch taken for
      `case_sensitive` is the one that folds case. */
  predicate CharsEqual(a: char, b: char, caseSensitive: bool) {
    if caseSensitive then ToLower(a) == ToLower(b) else a == b
  }

  predicate Accepts(maskChar: char, c: char, caseSensitive: bool) {
    maskChar == '?' || CharsEqual(maskChar, c, caseSensitive)
  }

  /** What a mask means: '*' stands for any (possibly empty) string, '?' for any one character. */
  ghost predicate Matches(s: string, mask: string, caseSensitive: bool)
    decreases |mask|
  {
    if mask == [] then
      s == []
    else if mask[0] == '*' then
      exists k :: 0 <= k <= |s| && Matches(s[k..], mask[1..], caseSensitive)
    else
      s != [] && Accepts(mask[0], s[0], caseSensitive) && Matches(s[1..], mask[1..], caseSensitive)
  }

  /** Where each character of the mask begins to match, and the end: a star covers any stretch of the subject,
      any other character exactly one character, which it is equal to unless it is a question mark. */
  ghost predicate Laid(s: string, mask: string, caseSensitive: bool, f: seq<nat>) {
    && |f| == |mask| + 1 && f[0] == 0 && f[|mask|] == |s|
    && forall i :: 0 <= i < |mask| ==> LaidAt(s, mask[i], caseSensitive, f[i], f[i + 1])
  }

  predicate LaidAt(s: string, c: char, caseSensitive: bool, from: nat, to: nat) {
    if c == '*' then from <= to <= |s|
    else from < |s| && to == from + 1
         && (c == '?' || if caseSensitive then ToLower(c) == ToLower(s[from]) else c == s[from])
  }

  /** The same, some characters further on. */
  function Shifted(f: seq<nat>, n: nat): (g: seq<nat>)
    ensures |g| == |f| && forall i :: 0 <= i < |f| ==> g[i] == f[i] + n
  {
    seq(|f|, i requires 0 <= i < |f| => f[i] + n)
  }

  lemma {:induction false} Layout(s: string, mask: string, caseSensitive: bool) returns (f: seq<nat>)
    requires Matches(s, mask, caseSensitive)
    ensures Laid(s, mask, caseSensitive, f)
    decreases |mask|
  {
    if mask == [] {
      return [0];
    }
    var k: nat := 1;
    if mask[0] == '*' {
      k :| k <= |s| && Matches(s[k..], mask[1..], caseSensitive);
    }
    var g := Layout(s[k..], mask[1..], caseSensitive);
    f := [0] + Shifted(g, k);
    forall i | 0 <= i < |mask|
      ensures LaidAt(s, mask[i], caseSensitive, f[i], f[i + 1])
    {
      if i > 0 {
        assert LaidAt(s[k..], mask[1..][i - 1], caseSensitive, g[i - 1], g[i]);
      }
    }
  }

  lemma {:induction false} LaidMatches(s: string, mask: string, caseSensitive: bool, f: seq<nat>)
    requires Laid(s, mask, caseSensitive, f)
    ensures Matches(s, mask, caseSensitive)
    decreases |mask|
  {
    if mask != [] {
      var k := f[1];
      assert LaidAt(s, mask[0], caseSensitive, f[0], k);
      LaidIncreases(s, mask, caseSensitive, f, 1);
      var g := seq(|mask|, i requires 0 <= i < |mask| => if f[i + 1] >= k then f[i + 1] - k else 0);
      forall i | 0 <= i < |mask| - 1
        ensures LaidAt(s[k..], mask[1..][i], caseSensitive, g[i], g[i + 1])
      {
        LaidIncreases(s, mask, caseSensitive, f, i + 1);
        assert LaidAt(s, mask[i + 1], caseSensitive, f[i + 1], f[i + 2]);
      }
      LaidIncreases(s, mask, caseSensitive, f, |mask|);
      LaidMatches(s[k..], mask[1..], caseSensitive, g);
    }
  }

  lemma {:induction false} LaidIncreases(s: string, mask: string, caseSensitive: bool, f: seq<nat>, i: nat)
    requires Laid(s, mask, caseSensitive, f) && 1 <= i <= |mask|
    ensures f[1] <= f[i] <= |s|
    decreases i
  {
    assert LaidAt(s, mask[i - 1], caseSensitive, f[i - 1], f[i]);
    if i > 1 {
      LaidIncreases(s, mask, caseSensitive, f, i - 1);
    }
  }

  /** A subject matches a mask exactly if the mask can be laid over it. */
  lemma MatchesExactly(s: string, mask: string, caseSensitive: bool)
    ensures Matches(s, mask, caseSensitive) <==> exists f :: Laid(s, mask, caseSensitive, f)
  {
    if Matches(s, mask, caseSensitive) {
      var f := Layout(s, mask, caseSensitive);
    }
    if f :| Laid(s, mask, caseSensitive, f) {
      LaidMatches(s, mask, caseSensitive, f);
    }
  }

  ghost predicate NoStar(mask: string) {
    forall i :: 0 <= i < |mask| ==> mask[i] != '*'
  }

  /** Some suffix of s that starts at or after `from` matches the mask. */
  ghost predicate SuffixMatches(s: string, from: nat, mask: string, caseSensitive: bool) {
    exists k :: from <= k <= |s| && Matches(s[k..], mask, caseSensitive)
  }

  /** A star-free prefix of a mask consumes exactly its own length. */
  lemma {:induction false} SegmentConsumes(s: string, mask: string, n: nat, caseSensitive: bool)
    requires n <= |mask| && NoStar(mask[..n])
    requires Matches(s, mask, caseSensitive)
    ensures n <= |s| && Matches(s[n..], mask[n..], caseSensitive)
  {
    if n == 0 {
      assert s[0..] == s && mask[0..] == mask;
    } else {
      assert mask[..n][0] == mask[0];
      assert mask[1..][..n - 1] == mask[..n][1..];
      SegmentConsumes(s[1..], mask[1..], n - 1, caseSensitive);
      assert s[1..][n - 1..] == s[n..] && mask[1..][n - 1..] == mask[n..];
    }
  }

  /** A leading star absorbs whatever lies in front of a match. */
  lemma {:induction false} StarAbsorbs(s: string, n: nat, mask: string, caseSensitive: bool)
    requires mask != [] && mask[0] == '*' && n <= |s|
    requires Matches(s[n..], mask, caseSensitive)
    ensures Matches(s, mask, caseSensitive)
  {
    var k :| 0 <= k <= |s| - n && Matches(s[n..][k..], mask[1..], caseSensitive);
    assert s[n..][k..] == s[n + k..];
  }

  /** Reaching a second star makes the older backtrack point redundant: any match found by moving
      the first segment further right is also a match from the current position. */
  lemma {:induction false} LaterStarSubsumes(subject: string, mask: string, cp: nat, mp: nat, s: nat, m: nat,
                                             caseSensitive: bool)
    requires 0 < cp && cp - 1 + (m - mp) == s <= |subject| && mp <= m < |mask| && mask[m] == '*'
    requires NoStar(mask[mp..m])
    requires SuffixMatches(subject, cp, mask[mp..], caseSensitive)
    ensures Matches(subject[s..], mask[m..], caseSensitive)
  {
    var k :| cp <= k <= |subject| && Matches(subject[k..], mask[mp..], caseSensitive);
    var n := m - mp;
    assert mask[mp..][..n] == mask[mp..m];
    SegmentConsumes(subject[k..], mask[mp..], n, caseSensitive);
    assert subject[k..][n..] == subject[s..][k + n - s..] && mask[mp..][n..] == mask[m..];
    StarAbsorbs(subject[s..], k + n - s, mask[m..], caseSensitive);
  }

  /** Moving the start of the suffix by one: either it matches right there, or later. */
  lemma SuffixStep(s: string, from: nat, mask: string, caseSensitive: bool)
    requires from <= |s|
    ensures SuffixMatches(s, from, mask, caseSensitive)
            == (Matches(s[from..], mask, caseSensitive) || SuffixMatches(s, from + 1, mask, caseSensitive))
  {
  }

  /** A star at the head of the mask opens the search over all suffixes. */
  lemma StarOpensSearch(s: string, from: nat, mask: string, caseSensitive: bool)
    requires from <= |s| && mask != [] && mask[0] == '*'
    ensures Matches(s[from..], mask, caseSensitive) == SuffixMatches(s, from, mask[1..], caseSensitive)
  {
    if Matches(s[from..], mask, caseSensitive) {
      var k :| 0 <= k <= |s| - from && Matches(s[from..][k..], mask[1..], caseSensitive);
      assert s[from..][k..] == s[from + k..];
    }
    if SuffixMatches(s, from, mask[1..], caseSensitive) {
      var k :| from <= k <= |s| && Matches(s[k..], mask[1..], caseSensitive);
      assert s[from..][k - from..] == s[k..];
    }
  }

  /** When the subject is used up the older backtrack points are too short to match. */
  lemma NoLateSuffix(subject: string, mask: string, cp: nat, mp: nat, m: nat, caseSensitive: bool)
    requires 0 < cp && cp - 1 + (m - mp) == |subject| && mp <= m <= |mask|
    requires NoStar(mask[mp..m])
    ensures !SuffixMatches(subject, cp, mask[mp..], caseSensitive)
  {
    if SuffixMatches(subject, cp, mask[mp..], caseSensitive) {
      var k :| cp <= k <= |subject| && Matches(subject[k..], mask[mp..], caseSensitive);
      assert mask[mp..][..m - mp] == mask[mp..m];
      SegmentConsumes(subject[k..], mask[mp..], m - mp, caseSensitive);
      assert false;
    }
  }

  /** State of the scan: the answer is decided by the current position, or by resuming the last
      star's segment at cp or later. cp == 0 is the null pointer: no star has been passed yet. */
  ghost predicate Scanning(subject: string, mask: string, s: nat, m: nat, cp: nat, mp: nat, caseSensitive: bool) {
    && s <= |subject| && m <= |mask|
    && (cp > 0 ==> mp <= m && cp - 1 + (m - mp) == s && NoStar(mask[mp..m]))
    && Matches(subject, mask, caseSensitive)
       == (Matches(subject[s..], mask[m..], caseSensitive)
           || (cp > 0 && SuffixMatches(subject, cp, mask[mp..], caseSensitive)))
  }

  /** Passing a star: it becomes the new backtrack point and the old one is dropped. */
  lemma PassStar(subject: string, mask: string, s: nat, m: nat, cp: nat, mp: nat, caseSensitive: bool)
    requires Scanning(subject, mask, s, m, cp, mp, caseSensitive)
    requires s < |subject| && m < |mask| && mask[m] == '*'
    ensures Scanning(subject, mask, s, m + 1, s + 1, m + 1, caseSensitive)
    ensures m + 1 == |mask| ==> Matches(subject, mask, caseSensitive)
  {
    if cp > 0 && SuffixMatches(subject, cp, mask[mp..], caseSensitive) {
      LaterStarSubsumes(subject, mask, cp, mp, s, m, caseSensitive);
    }
    StarOpensSearch(subject, s, mask[m..], caseSensitive);
    assert mask[m..][1..] == mask[m + 1..];
    SuffixStep(subject, s, mask[m + 1..], caseSensitive);
    if m + 1 == |mask| {
      assert Matches(subject[|subject|..], mask[m + 1..], caseSensitive);
    }
  }

  /** Accepting one character advances both pointers. */
  lemma AcceptOne(subject: string, mask: string, s: nat, m: nat, cp: nat, mp: nat, caseSensitive: bool)
    requires Scanning(subject, mask, s, m, cp, mp, caseSensitive)
    requires s < |subject| && m < |mask| && mask[m] != '*' && Accepts(mask[m], subject[s], caseSensitive)
    ensures Scanning(subject, mask, s + 1, m + 1, cp, mp, caseSensitive)
  {
    assert subject[s..][1..] == subject[s + 1..] && mask[m..][1..] == mask[m + 1..];
    if cp > 0 {
      assert mask[mp..m + 1] == mask[mp..m] + [mask[m]];
    }
  }

  /** A mismatch resumes the last star's segment one character further right. */
  lemma Backtrack(subject: string, mask: string, s: nat, m: nat, cp: nat, mp: nat, caseSensitive: bool)
    requires Scanning(subject, mask, s, m, cp, mp, caseSensitive) && cp > 0
    requires s < |subject| && (m == |mask| || (mask[m] != '*' && !Accepts(mask[m], subject[s], caseSensitive)))
    ensures Scanning(subject, mask, cp, mp, cp + 1, mp, caseSensitive)
  {
    assert !Matches(subject[s..], mask[m..], caseSensitive);
    SuffixStep(subject, cp, mask[mp..], caseSensitive);
    assert mask[mp..mp] == [];
  }

  /** Once the subject is used up, only stars may be left in the mask. */
  lemma {:induction false} OnlyStarsLeft(mask: string, m: nat, caseSensitive: bool)
    requires m < |mask| && mask[m] == '*'
    ensures Matches([], mask[m..], caseSensitive) == Matches([], mask[m + 1..], caseSensitive)
  {
    assert mask[m..][1..] == mask[m + 1..];
    var empty: string := [];
    assert forall k :: 0 <= k <= |empty| ==> empty[k..] == empty;
    if Matches([], mask[m + 1..], caseSensitive) {
      assert Matches(empty[0..], mask[m..][1..], caseSensitive);
    }
  }

  /** Nothing accepts the current character and there is no star to fall back on. */
  lemma Reject(subject: string, mask: string, s: nat, m: nat, caseSensitive: bool)
    requires Scanning(subject, mask, s, m, 0, 0, caseSensitive)
    requires s < |subject| && (m == |mask| || (mask[m] != '*' && !Accepts(mask[m], subject[s], caseSensitive)))
    ensures !Matches(subject, mask, caseSensitive)
  {
  }

  /** With the subject used up, the answer is whether the rest of the mask is made of stars. */
  lemma SubjectUsedUp(subject: string, mask: string, m: nat, cp: nat, mp: nat, caseSensitive: bool)
    requires Scanning(subject, mask, |subject|, m, cp, mp, caseSensitive)
    ensures Matches(subject, mask, caseSensitive) == Matches([], mask[m..], caseSensitive)
  {
    if cp > 0 {
      NoLateSuffix(subject, mask, cp, mp, m, caseSensitive);
    }
    assert subject[|subject|..] == [];
  }

  lemma {:induction false} EmptySubject(mask: string, m: nat, caseSensitive: bool)
    requires m <= |mask| && !(m < |mask| && mask[m] == '*')
    ensures Matches([], mask[m..], caseSensitive) == (m == |mask|)
  {
    if m < |mask| {
      assert mask[m..][0] == mask[m];
    }
  }

  /** Skipping the stars at the end of the mask. */
  method RestIsStars(mask: string, start: nat, caseSensitive: bool) returns (r: bool)
    requires start <= |mask|
    ensures r == Matches([], mask[start..], caseSensitive)
  {
    var m := start;
    while m < |mask| && mask[m] == '*'
      invariant m <= |mask|
      invariant Matches([], mask[start..], caseSensitive) == Matches([], mask[m..], caseSensitive)
    {
      OnlyStarsLeft(mask, m, caseSensitive);
      m := m + 1;
    }
    EmptySubject(mask, m, caseSensitive);
    return m == |mask|;
  }

  // ---------------------------------------------------------------- the inverted case flag

  predicate IsLetter(c: char) { 'A' <= c <= 'Z' || 'a' <= c <= 'z' }

  predicate NoLetters(s: string) { forall i :: 0 <= i < |s| ==> !IsLetter(s[i]) }

  /** The letter in the other case. */
  function Flip(c: char): (r: char)
    requires IsLetter(c)
    ensures r != c && ToLower(r) == ToLower(c) && r != '*' && r != '?'
  {
    if 'A' <= c <= 'Z' then (c as int + 32) as char else (c as int - 32) as char
  }

  /** A case-sensitive comparison of "a" with "A" answers true, one without regard to case false. */
  lemma CaseFlagIsInverted()
    ensures Matches("A", "a", true) && !Matches("A", "a", false)
  {
    Pointwise("A", "a", true);
    Pointwise("A", "a", false);
  }

  /** Folding case never loses a match. So the answer differs from the one that the flag asks for only
      where the strings match up to case and not exactly. */
  lemma {:induction false} ExactIsFolded(s: string, mask: string)
    ensures Matches(s, mask, false) ==> Matches(s, mask, true)
    decreases |mask|
  {
    if mask != [] && Matches(s, mask, false) {
      if mask[0] == '*' {
        var k :| 0 <= k <= |s| && Matches(s[k..], mask[1..], false);
        ExactIsFolded(s[k..], mask[1..]);
      } else {
        ExactIsFolded(s[1..], mask[1..]);
      }
    }
  }

  /** No character of s differs from one of the mask in case alone. */
  predicate CaseAgrees(s: string, mask: string) {
    forall i, j :: 0 <= i < |s| && 0 <= j < |mask| && ToLower(s[i]) == ToLower(mask[j]) ==> s[i] == mask[j]
  }

  lemma {:induction false} FlagIsIrrelevant(s: string, mask: string)
    requires CaseAgrees(s, mask)
    ensures Matches(s, mask, true) == Matches(s, mask, false)
    decreases |mask|
  {
    ExactIsFolded(s, mask);
    if mask != [] && Matches(s, mask, true) {
      if mask[0] == '*' {
        var k :| 0 <= k <= |s| && Matches(s[k..], mask[1..], true);
        FlagIsIrrelevant(s[k..], mask[1..]);
      } else {
        FlagIsIrrelevant(s[1..], mask[1..]);
      }
    }
  }

  /** A mask is answered as its flag says on every subject exactly if it holds no letter. */
  lemma {:induction false} FlagHonouredForMask(mask: string)
    ensures (forall s :: Matches(s, mask, true) == Matches(s, mask, false)) <==> NoLetters(mask)
  {
    if NoLetters(mask) {
      forall s
        ensures Matches(s, mask, true) == Matches(s, mask, false)
      {
        FlagIsIrrelevant(s, mask);
      }
    } else {
      InstanceMatches(mask);
      InstanceDiffers(mask);
    }
  }

  /** A subject is answered as the flag says for every mask exactly if it holds no letter. */
  lemma FlagHonouredForSubject(s: string)
    ensures (forall mask :: Matches(s, mask, true) == Matches(s, mask, false)) <==> NoLetters(s)
  {
    if NoLetters(s) {
      forall mask
        ensures Matches(s, mask, true) == Matches(s, mask, false)
      {
        FlagIsIrrelevant(s, mask);
      }
    } else {
      var i :| 0 <= i < |s| && IsLetter(s[i]);
      var mask := seq(|s|, k requires 0 <= k < |s| => if k == i then Flip(s[i]) else '?');
      Pointwise(s, mask, true);
      Pointwise(s, mask, false);
    }
  }

  lemma FlagWithoutLetters(s: string, mask: string)
    ensures NoLetters(s) || NoLetters(mask) ==> Matches(s, mask, true) == Matches(s, mask, false)
  {
    if NoLetters(s) || NoLetters(mask) {
      FlagIsIrrelevant(s, mask);
    }
  }

  lemma ScanStart(s: string, mask: string, caseSensitive: bool)
    ensures Scanning(s, mask, 0, 0, 0, 0, caseSensitive)
  {
    assert s[0..] == s && mask[0..] == mask;
  }

  /** Without stars, a mask is compared character by character. */
  lemma {:induction false} Pointwise(s: string, mask: string, caseSensitive: bool)
    requires NoStar(mask)
    ensures Matches(s, mask, caseSensitive)
            <==> |s| == |mask| && forall i :: 0 <= i < |s| ==> Accepts(mask[i], s[i], caseSensitive)
    decreases |mask|
  {
    if mask != [] && s != [] {
      Pointwise(s[1..], mask[1..], caseSensitive);
      assert s == [s[0]] + s[1..] && mask == [mask[0]] + mask[1..];
    }
  }

  /** The shortest subject of a mask, with the case of every letter changed. */
  function Instance(mask: string): string {
    if mask == [] then []
    else if mask[0] == '*' then Instance(mask[1..])
    else [if IsLetter(mask[0]) then Flip(mask[0]) else mask[0]] + Instance(mask[1..])
  }

  lemma {:induction false} InstanceMatches(mask: string)
    ensures Matches(Instance(mask), mask, true)
    decreases |mask|
  {
    if mask != [] {
      InstanceMatches(mask[1..]);
      var s := Instance(mask);
      if mask[0] == '*' {
        assert s[0..] == s;
      } else {
        assert s[1..] == Instance(mask[1..]);
      }
    }
  }

  /** A match is at least as long as the shortest subject. */
  lemma {:induction false} MatchIsLong(s: string, mask: string, caseSensitive: bool)
    requires Matches(s, mask, caseSensitive)
    ensures |s| >= |Instance(mask)|
    decreases |mask|
  {
    if mask != [] {
      if mask[0] == '*' {
        var k :| 0 <= k <= |s| && Matches(s[k..], mask[1..], caseSensitive);
        MatchIsLong(s[k..], mask[1..], caseSensitive);
      } else {
        MatchIsLong(s[1..], mask[1..], caseSensitive);
      }
    }
  }

  /** At the shortest length every star is empty, so the changed letters meet their own places. */
  lemma {:induction false} InstanceDiffers(mask: string)
    requires !NoLetters(mask)
    ensures !Matches(Instance(mask), mask, false)
    decreases |mask|
  {
    var s, rest := Instance(mask), mask[1..];
    assert mask == [mask[0]] + rest;
    if Matches(s, mask, false) {
      if mask[0] == '*' {
        var k :| 0 <= k <= |s| && Matches(s[k..], rest, false);
        MatchIsLong(s[k..], rest, false);
        assert s[0..] == s;
        InstanceDiffers(rest);
        assert false;
      } else {
        assert s[1..] == Instance(rest);
        assert !IsLetter(mask[0]);
        InstanceDiffers(rest);
        assert false;
      }
    }
  }

  /** The matcher terminates on all strings and decides Matches. */
  method WildcardMatch(subject: string, mask: string, caseSensitive: bool) returns (matched: bool)
    ensures matched == Matches(subject, mask, caseSensitive)
    ensures NoLetters(subject) || NoLetters(mask) ==> matched == Matches(subject, mask, !caseSensitive)
  {
    hide SuffixMatches, Matches, NoLetters;
    FlagWithoutLetters(subject, mask);
    ScanStart(subject, mask, caseSensitive);
    var s, m := 0, 0;
    while s < |subject| && !(m < |mask| && mask[m] == '*')
      invariant s <= |subject| && m <= |mask|
      invariant Scanning(subject, mask, s, m, 0, 0, caseSensitive)
    {
      if m == |mask| || !Accepts(mask[m], subject[s], caseSensitive) {
        Reject(subject, mask, s, m, caseSensitive);
        return false;
      }
      AcceptOne(subject, mask, s, m, 0, 0, caseSensitive);
      m, s := m + 1, s + 1;
    }

    var cp, mp := 0, 0;
    while s < |subject|
      invariant s <= |subject| && m <= |mask|
      invariant Scanning(subject, mask, s, m, cp, mp, caseSensitive)
      invariant cp == 0 && s < |subject| ==> m < |mask| && mask[m] == '*'
      decreases |subject| + 1 - cp, |mask| - m
    {
      if m < |mask| && mask[m] == '*' {
        PassStar(subject, mask, s, m, cp, mp, caseSensitive);
        m := m + 1;
        if m == |mask| {
          return true;
        }
        mp := m;
        cp := s + 1;
      } else if m < |mask| && Accepts(mask[m], subject[s], caseSensitive) {
        AcceptOne(subject, mask, s, m, cp, mp, caseSensitive);
        m, s := m + 1, s + 1;
      } else {
        Backtrack(subject, mask, s, m, cp, mp, caseSensitive);
        m := mp;
        s, cp := cp, cp + 1;
      }
    }
    SubjectUsedUp(subject, mask, m, cp, mp, caseSensitive);
    matched := RestIsStars(mask, m, caseSensitive);
  }
}
