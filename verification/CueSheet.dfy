/** Cue sheets: the tracks that the parser collects (src/common/cue_parser.cpp:267-465) and the table of
    contents laid out from them (src/common/cd_image_cue.cpp:69-284). Tokens are taken as split. */
module CueSheet {
  import opened CdImage
  import opened Common

  /** Unsigned 32-bit subtraction. */
  function Sub32(a: nat, b: nat): nat { (a - b) % WORD_RANGE }

  /** The range checks of GetMSF. They let 60 seconds and 75 frames pass, and the minute is truncated. */
  function MakeMsf(minute: nat, second: nat, frame: nat): Option<Position> {
    if minute > 0x7FFF_FFFF || second > 60 || frame > 75 then None else Some(Position(minute % 256, second, frame))
  }

  // ---------------------------------------------------------------- tracks

  datatype Track = Track(
    number: nat, file: string, indices: seq<(nat, Position)>, mode: TrackMode,
    start: Position, length: Option<Position>, zeroPregap: Option<Position>)
  {
    /** The position recorded for index n. */
    function GetIndex(n: nat): Option<Position> { FindIndex(indices, n) }

    /** The position at which the track's data begin in the file. */
    function First(): Position
      requires GetIndex(1).Some?
    {
      if GetIndex(0).Some? then GetIndex(0).value else GetIndex(1).value
    }
  }

  function FindIndex(indices: seq<(nat, Position)>, n: nat): Option<Position> {
    if indices == [] then None
    else if indices[0].0 == n then Some(indices[0].1)
    else FindIndex(indices[1..], n)
  }

  lemma {:induction false} FoundIndex(indices: seq<(nat, Position)>, n: nat)
    ensures FindIndex(indices, n).Some? <==> exists k :: 0 <= k < |indices| && indices[k].0 == n
    ensures FindIndex(indices, n).Some? ==> (n, FindIndex(indices, n).value) in indices
  {
    if indices != [] && indices[0].0 != n {
      FoundIndex(indices[1..], n);
      forall k | 0 <= k < |indices| && indices[k].0 == n
        ensures exists j :: 0 <= j < |indices[1..]| && indices[1..][j].0 == n
      {
        assert indices[1..][k - 1].0 == n;
      }
      if k :| 0 <= k < |indices[1..]| && indices[1..][k].0 == n {
        assert indices[k + 1].0 == n;
      }
    }
  }

  /** What CompleteLastTrack checks: index 1 is there, and no index precedes the one numbered before it. */
  predicate Ordered(t: Track) {
    && t.GetIndex(1).Some?
    && forall k :: 0 <= k < |t.indices| && t.indices[k].0 > 0 && t.GetIndex(t.indices[k].0 - 1).Some? ==>
         !t.indices[k].1.Less(t.GetIndex(t.indices[k].0 - 1).value)
  }

  predicate Numbered(t: Track) {
    && 1 <= t.number <= 99 && (forall k :: 0 <= k < |t.indices| ==> t.indices[k].0 <= 99)
    && (forall j, k :: 0 <= j < k < |t.indices| ==> t.indices[j].0 != t.indices[k].0)
  }

  /** Every position has passed the parser's range checks. */
  predicate InBounds(t: Track) {
    && (forall k :: 0 <= k < |t.indices| ==> t.indices[k].1.InParserBounds())
    && (t.zeroPregap.Some? ==> t.zeroPregap.value.InParserBounds())
  }

  /** The order of the indices' frame numbers, which is what the layout needs. */
  predicate FramesOrdered(t: Track) {
    forall k :: 0 <= k < |t.indices| && t.indices[k].0 > 0 && t.GetIndex(t.indices[k].0 - 1).Some? ==>
      t.GetIndex(t.indices[k].0 - 1).value.ToLba() <= t.indices[k].1.ToLba()
  }

  /** The check of CompleteLastTrack lets frames run backwards exactly if an index at 60 seconds is
      followed by one in the first second of the next minute, with fewer frames. */
  lemma FramesOrderedExactly(t: Track)
    requires Ordered(t) && InBounds(t)
    ensures FramesOrdered(t) <==>
            forall k :: 0 <= k < |t.indices| && t.indices[k].0 > 0 && t.GetIndex(t.indices[k].0 - 1).Some? ==>
              !SixtySeconds(t.GetIndex(t.indices[k].0 - 1).value, t.indices[k].1)
  {
    hide FindIndex, Position.ToLba, Position.Less, SixtySeconds;
    forall k | 0 <= k < |t.indices| && t.indices[k].0 > 0 && t.GetIndex(t.indices[k].0 - 1).Some?
      ensures t.GetIndex(t.indices[k].0 - 1).value.ToLba() <= t.indices[k].1.ToLba()
              <==> !SixtySeconds(t.GetIndex(t.indices[k].0 - 1).value, t.indices[k].1)
    {
      FoundIndex(t.indices, t.indices[k].0 - 1);
      OrderFailsExactly(t.GetIndex(t.indices[k].0 - 1).value, t.indices[k].1);
    }
  }

  /** A track as the parser completes it. */
  predicate Complete(t: Track) {
    Numbered(t) && Ordered(t) && InBounds(t) && t.start == t.GetIndex(1).value && (t.GetIndex(0).Some? ==> t.zeroPregap.None?)
  }

  class CueFile {
    var tracks: seq<Track>
    var currentFile: Option<string>
    var currentTrack: Option<Track>

    predicate Valid()
      reads this
    {
      && (forall k :: 0 <= k < |tracks| ==> Complete(tracks[k]) && tracks[k].length.None?)
      && (currentTrack.Some? ==> Numbered(currentTrack.value) && InBounds(currentTrack.value) && currentTrack.value.length.None?)
    }

    constructor ()
      ensures Valid() && tracks == []
    {
      tracks, currentFile, currentTrack := [], None, None;
    }

    method HandleFileCommand(file: string, binary: bool) returns (ok: bool)
      requires Valid()
      modifies this`currentFile
      ensures Valid() && ok == (file != "" && binary)
      ensures currentFile == if ok then Some(file) else old(currentFile)
    {
      ok := file != "" && binary;
      if ok {
        currentFile := Some(file);
      }
    }

    method HandleTrackCommand(number: int, mode: TrackMode) returns (ok: bool)
      requires Valid()
      modifies this
      ensures Valid() && currentFile == old(currentFile)
      ensures ok == ((old(currentTrack).None? || Ordered(old(currentTrack).value)) && currentFile.Some? && 1 <= number <= 99)
      ensures ok ==> currentTrack == Some(Track(number, currentFile.value, [], mode, Position(0, 0, 0), None, None))
    {
      ok := CompleteLastTrack();
      if ok {
        ok := currentFile.Some? && 1 <= number <= 99;
      }
      if ok {
        currentTrack := Some(Track(number, currentFile.value, [], mode, Position(0, 0, 0), None, None));
      }
    }

    method HandleIndexCommand(number: int, minute: nat, second: nat, frame: nat) returns (ok: bool)
      requires Valid()
      modifies this`currentTrack
      ensures Valid()
      ensures ok == (old(currentTrack).Some? && 0 <= number <= 99 && old(currentTrack).value.GetIndex(number).None?
                     && minute <= 0x7FFF_FFFF && second <= 60 && frame <= 75)
      ensures ok ==> var t, p := old(currentTrack).value, Position(minute % 256, second, frame);
                     currentTrack == Some(t.(indices := t.indices + [(number as nat, p)]))
      ensures !ok ==> currentTrack == old(currentTrack)
    {
      if currentTrack.None? || number < 0 || number > 99 || currentTrack.value.GetIndex(number).Some? {
        return false;
      }
      var p := MakeMsf(minute, second, frame);
      if p.None? {
        return false;
      }
      FoundIndex(currentTrack.value.indices, number);
      var t := currentTrack.value;
      currentTrack := Some(t.(indices := t.indices + [(number as nat, p.value)]));
      ok := true;
    }

    method HandlePregapCommand(minute: nat, second: nat, frame: nat) returns (ok: bool)
      requires Valid()
      modifies this`currentTrack
      ensures Valid()
      ensures ok == (old(currentTrack).Some? && old(currentTrack).value.zeroPregap.None?
                     && minute <= 0x7FFF_FFFF && second <= 60 && frame <= 75)
      ensures ok ==>
                currentTrack == Some(old(currentTrack).value.(zeroPregap := Some(Position(minute % 256, second, frame))))
      ensures !ok ==> currentTrack == old(currentTrack)
    {
      if currentTrack.None? || currentTrack.value.zeroPregap.Some? {
        return false;
      }
      var p := MakeMsf(minute, second, frame);
      if p.None? {
        return false;
      }
      currentTrack := Some(currentTrack.value.(zeroPregap := p));
      ok := true;
    }

    /** CompleteLastTrack. A PREGAP command is dropped if the track has an index 0. */
    method CompleteLastTrack() returns (ok: bool)
      requires Valid()
      modifies this`tracks, this`currentTrack
      ensures Valid() && ok == (old(currentTrack).None? || Ordered(old(currentTrack).value))
      ensures !ok ==> tracks == old(tracks)
      ensures ok ==> currentTrack.None?
      ensures ok && old(currentTrack).Some? ==>
                |tracks| == |old(tracks)| + 1 && tracks[..|tracks| - 1] == old(tracks)
                && var t, u := old(currentTrack).value, tracks[|tracks| - 1];
                   Complete(u) && u == t.(start := u.start, zeroPregap := u.zeroPregap) && u.length.None?
                   && u.zeroPregap == if t.GetIndex(0).Some? then None else t.zeroPregap
    {
      if currentTrack.None? {
        return true;
      }
      var t := currentTrack.value;
      if t.GetIndex(1).None? {
        return false;
      }
      for k := 0 to |t.indices|
        invariant forall j :: 0 <= j < k && t.indices[j].0 > 0 && t.GetIndex(t.indices[j].0 - 1).Some? ==>
                    !t.indices[j].1.Less(t.GetIndex(t.indices[j].0 - 1).value)
      {
        if t.indices[k].0 != 0 {
          var previous := t.GetIndex(t.indices[k].0 - 1);
          if previous.Some? && t.indices[k].1.Less(previous.value) {
            return false;
          }
        }
      }
      var u := t.(start := t.GetIndex(1).value, zeroPregap := if t.GetIndex(0).Some? then None else t.zeroPregap);
      tracks, currentTrack := tracks + [u], None;
      ok := true;
    }
  }

  // ---------------------------------------------------------------- track lengths

  /** GetTrack: the first track with this number. */
  function FindTrack(tracks: seq<Track>, number: nat): Option<nat> {
    FindTrackFrom(tracks, number, 0)
  }

  function FindTrackFrom(tracks: seq<Track>, number: nat, k: nat): (r: Option<nat>)
    requires k <= |tracks|
    ensures r.Some? ==> k <= r.value < |tracks| && tracks[r.value].number == number
    ensures r.None? ==> forall j :: k <= j < |tracks| ==> tracks[j].number != number
    ensures r.Some? ==> forall j :: k <= j < r.value ==> tracks[j].number != number
    decreases |tracks| - k
  {
    if k == |tracks| then None
    else if tracks[k].number == number then Some(k)
    else FindTrackFrom(tracks, number, k + 1)
  }

  /** Every track has an index 1. */
  predicate Started(tracks: seq<Track>) {
    forall k :: 0 <= k < |tracks| ==> tracks[k].GetIndex(1).Some?
  }

  /** One round of SetTrackLengths: track i gives the track numbered before it, in the same file, its
      length; None if that track starts later. */
  function SetLength(tracks: seq<Track>, i: nat): (r: Option<seq<Track>>)
    requires i < |tracks| && Started(tracks)
    ensures r.Some? ==>
              |r.value| == |tracks| && forall k :: 0 <= k < |tracks| ==> r.value[k] == tracks[k].(length := r.value[k].length)
  {
    var t := tracks[i];
    if t.number <= 1 then Some(tracks)
    else
      var p := FindTrack(tracks, t.number - 1);
      if p.None? || tracks[p.value].file != t.file then Some(tracks)
      else if t.start.Less(tracks[p.value].start) then None
      else Some(tracks[p.value := tracks[p.value].(length := Some(LengthUpTo(tracks[p.value], t)))])
  }

  /** From the start of p to the first frame of t. */
  function LengthUpTo(p: Track, t: Track): Position
    requires t.GetIndex(1).Some?
  {
    FromLba(Sub32(t.First().ToLba(), p.start.ToLba()))
  }

  function SetLengths(tracks: seq<Track>, n: nat): (r: Option<seq<Track>>)
    requires n <= |tracks| && Started(tracks)
    ensures r.Some? ==>
              |r.value| == |tracks| && forall k :: 0 <= k < |tracks| ==> r.value[k] == tracks[k].(length := r.value[k].length)
  {
    if n == 0 then Some(tracks)
    else
      var r := SetLengths(tracks, n - 1);
      if r.None? then None
      else
        assert forall k :: 0 <= k < |tracks| ==> r.value[k].GetIndex(1) == tracks[k].GetIndex(1);
        SetLength(r.value, n - 1)
  }

  /** SetTrackLengths. */
  method SetTrackLengths(tracks: seq<Track>) returns (r: Option<seq<Track>>)
    requires Started(tracks)
    ensures r == SetLengths(tracks, |tracks|)
  {
    hide FindIndex, SetLength;
    var t := tracks;
    for i := 0 to |tracks|
      invariant |t| == |tracks| && SetLengths(tracks, i) == Some(t)
    {
      assert forall k :: 0 <= k < |tracks| ==> t[k].GetIndex(1) == tracks[k].GetIndex(1);
      var next := SetLength(t, i);
      assert SetLengths(tracks, i + 1) == next;
      if next.None? {
        NoneStays(tracks, i + 1);
        return None;
      }
      t := next.value;
    }
    r := Some(t);
  }

  lemma {:induction false} NoneStays(tracks: seq<Track>, i: nat)
    requires i <= |tracks| && Started(tracks) && SetLengths(tracks, i).None?
    ensures SetLengths(tracks, |tracks|).None?
    decreases |tracks| - i
  {
    hide FindIndex, SetLength;
    if i < |tracks| {
      NoneStays(tracks, i + 1);
    }
  }

  /** Tracks numbered 1, 2, 3 and so on, as they come. */
  predicate InOrder(tracks: seq<Track>) {
    forall k :: 0 <= k < |tracks| ==> tracks[k].number == k + 1
  }

  /** The length of track k once the first n tracks have been gone through. */
  function StoredLength(tracks: seq<Track>, n: nat, k: nat): Option<Position>
    requires Started(tracks) && k < |tracks| && n <= |tracks|
  {
    if k + 1 < n && tracks[k].file == tracks[k + 1].file then Some(LengthUpTo(tracks[k], tracks[k + 1]))
    else tracks[k].length
  }

  /** For tracks in order, every track but the last gets its length from its successor, if that is in
      the same file. */
  lemma {:induction false} LengthsInOrder(tracks: seq<Track>, n: nat)
    requires n <= |tracks| && InOrder(tracks) && Started(tracks)
    requires SetLengths(tracks, n).Some?
    ensures forall k :: 0 <= k < |tracks| ==> SetLengths(tracks, n).value[k].length == StoredLength(tracks, n, k)
    ensures StartsOrdered(tracks, n)
  {
    hide FindIndex, SetLength, LengthUpTo, Position.Less, StartsOrdered;
    StartsOrderedNext(tracks, n);
    if n > 0 {
      LengthsInOrder(tracks, n - 1);
      var r := SetLengths(tracks, n - 1).value;
      StartedKept(tracks, r);
      LengthStep(tracks, r, n - 1);
      var s := SetLength(r, n - 1).value;
      forall k | 0 <= k < |tracks|
        ensures s[k].length == StoredLength(tracks, n, k)
      {
        assert r[k].length == StoredLength(tracks, n - 1, k);
      }
    }
  }

  /** Among the first n tracks, none starts after its successor in the same file. */
  predicate StartsOrdered(tracks: seq<Track>, n: nat)
    requires n <= |tracks|
  {
    forall k :: 0 < k < n && tracks[k - 1].file == tracks[k].file ==> !tracks[k].start.Less(tracks[k - 1].start)
  }

  lemma StartsOrderedNext(tracks: seq<Track>, n: nat)
    requires n <= |tracks|
    ensures StartsOrdered(tracks, 0)
    ensures n > 0 && StartsOrdered(tracks, n - 1)
            && (n > 1 && tracks[n - 2].file == tracks[n - 1].file ==> !tracks[n - 1].start.Less(tracks[n - 2].start)) ==>
              StartsOrdered(tracks, n)
  {
    hide Position.Less;
  }

  lemma StartedKept(tracks: seq<Track>, r: seq<Track>)
    requires |tracks| == |r| && Started(tracks)
    requires forall k :: 0 <= k < |tracks| ==> r[k] == tracks[k].(length := r[k].length)
    ensures Started(r)
  {
    hide FindIndex;
    assert forall k :: 0 <= k < |tracks| ==> r[k].GetIndex(1) == tracks[k].GetIndex(1);
  }

  lemma LengthStep(tracks: seq<Track>, r: seq<Track>, i: nat)
    requires i < |tracks| == |r| && InOrder(tracks) && Started(tracks) && Started(r)
    requires forall k :: 0 <= k < |tracks| ==> r[k] == tracks[k].(length := r[k].length)
    requires SetLength(r, i).Some?
    ensures forall k :: 0 <= k < |tracks| ==>
              SetLength(r, i).value[k].length ==
                if k + 1 == i && tracks[k].file == tracks[i].file then Some(LengthUpTo(tracks[k], tracks[i])) else r[k].length
    ensures i > 0 && tracks[i - 1].file == tracks[i].file ==> !tracks[i].start.Less(tracks[i - 1].start)
  {
    hide FindIndex;
    if i > 0 {
      assert r[i - 1].number == i;
      assert FindTrack(r, i) == Some(i - 1);
    }
  }
}
