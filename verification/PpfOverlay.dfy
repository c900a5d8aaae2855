/** The PPF patch overlay of src/common/cd_image_ppf.cpp:368-405 and 432-441: sectors touched by patches
    are copied out of the parent image and overwritten. */
module PpfOverlay {
  import opened CdImage
  import opened Common

  const WORD_RANGE: nat := 0x1_0000_0000

  /** A byte written at an absolute position of the disc. */
  datatype Write = Write(position: nat, value: Byte)

  /** The byte at a position after all writes, in order. */
  function Patched(writes: seq<Write>, original: Byte, position: nat): Byte {
    if writes == [] then original
    else if writes[|writes| - 1].position == position then writes[|writes| - 1].value
    else Patched(writes[..|writes| - 1], original, position)
  }

  /** A sector after all writes. */
  function PatchedSector(writes: seq<Write>, s: Sector, lba: nat): Sector {
    seq(RAW_SECTOR_SIZE, i requires 0 <= i < RAW_SECTOR_SIZE => Patched(writes, s[i], RAW_SECTOR_SIZE * lba + i))
  }

  predicate Untouched(writes: seq<Write>, lba: nat) {
    forall k :: 0 <= k < |writes| ==> writes[k].position / RAW_SECTOR_SIZE != lba
  }

  lemma {:induction false} UntouchedByte(writes: seq<Write>, original: Byte, lba: nat, i: nat)
    requires Untouched(writes, lba) && i < RAW_SECTOR_SIZE
    ensures Patched(writes, original, RAW_SECTOR_SIZE * lba + i) == original
    decreases |writes|
  {
    if writes != [] {
      assert (RAW_SECTOR_SIZE * lba + i) / RAW_SECTOR_SIZE == lba;
      UntouchedByte(writes[..|writes| - 1], original, lba, i);
    }
  }

  lemma UntouchedSector(writes: seq<Write>, s: Sector, lba: nat)
    requires Untouched(writes, lba)
    ensures PatchedSector(writes, s, lba) == s
  {
    forall i | 0 <= i < RAW_SECTOR_SIZE
      ensures PatchedSector(writes, s, lba)[i] == s[i]
    {
      UntouchedByte(writes, s[i], lba, i);
    }
  }

  /** The absolute position of byte i of a patch. The sector number is cut to 32 bits. */
  function Target(offset: nat, replacementOffset: nat): nat {
    RAW_SECTOR_SIZE * ((offset / RAW_SECTOR_SIZE % WORD_RANGE + replacementOffset) % WORD_RANGE) + offset % RAW_SECTOR_SIZE
  }

  /** The writes of the first n bytes of a patch. */
  function WritesOf(offset: nat, patch: seq<Byte>, replacementOffset: nat): (w: seq<Write>)
    ensures |w| == |patch|
  {
    seq(|patch|, i requires 0 <= i < |patch| => Write(Target(offset + i, replacementOffset), patch[i]))
  }

  /** Offsets that stay below 2^32 sectors are meant from the replacement offset on. */
  lemma TargetIsOffset(offset: nat, replacementOffset: nat)
    requires offset / RAW_SECTOR_SIZE + replacementOffset < WORD_RANGE
    ensures Target(offset, replacementOffset) == RAW_SECTOR_SIZE * replacementOffset + offset
  {
    assert offset == RAW_SECTOR_SIZE * (offset / RAW_SECTOR_SIZE) + offset % RAW_SECTOR_SIZE;
  }

  /** The sector that a patch byte falls into. */
  function SectorIndex(offset: nat, replacementOffset: nat): nat {
    (offset / RAW_SECTOR_SIZE % WORD_RANGE + replacementOffset) % WORD_RANGE
  }

  lemma TargetSector(offset: nat, replacementOffset: nat)
    ensures Target(offset, replacementOffset) / RAW_SECTOR_SIZE == SectorIndex(offset, replacementOffset)
    ensures Target(offset, replacementOffset) == RAW_SECTOR_SIZE * SectorIndex(offset, replacementOffset) + offset % RAW_SECTOR_SIZE
  {
  }

  /** Up to the end of the sector, patch bytes go to consecutive positions. */
  lemma TargetRun(offset: nat, replacementOffset: nat, i: nat)
    requires offset % RAW_SECTOR_SIZE + i < RAW_SECTOR_SIZE
    ensures Target(offset + i, replacementOffset) == Target(offset, replacementOffset) + i
  {
    assert offset == RAW_SECTOR_SIZE * (offset / RAW_SECTOR_SIZE) + offset % RAW_SECTOR_SIZE;
    assert (offset + i) / RAW_SECTOR_SIZE == offset / RAW_SECTOR_SIZE;
  }

  /** Bytes written within one sector. */
  lemma {:induction false} RunPatched(writes: seq<Write>, offset: nat, chunk: seq<Byte>, replacementOffset: nat,
                                      original: Byte, position: nat)
    requires offset % RAW_SECTOR_SIZE + |chunk| <= RAW_SECTOR_SIZE
    ensures var first := Target(offset, replacementOffset);
            Patched(writes + WritesOf(offset, chunk, replacementOffset), original, position) ==
            if first <= position < first + |chunk| then chunk[position - first] else Patched(writes, original, position)
    decreases |chunk|
  {
    hide Target;
    var w := WritesOf(offset, chunk, replacementOffset);
    if chunk == [] {
      assert writes + w == writes;
    } else {
      var n := |chunk| - 1;
      TargetRun(offset, replacementOffset, n);
      var v := WritesOf(offset, chunk[..n], replacementOffset);
      assert (writes + w)[..|writes + w| - 1] == writes + v;
      RunPatched(writes, offset, chunk[..n], replacementOffset, original, position);
    }
  }

  /** One sector after a run of bytes inside it; other sectors do not change. */
  lemma RunSector(writes: seq<Write>, offset: nat, chunk: seq<Byte>, replacementOffset: nat, s: Sector, lba: nat)
    requires offset % RAW_SECTOR_SIZE + |chunk| <= RAW_SECTOR_SIZE
    ensures var before, at := PatchedSector(writes, s, lba), offset % RAW_SECTOR_SIZE;
            PatchedSector(writes + WritesOf(offset, chunk, replacementOffset), s, lba) ==
            if lba == SectorIndex(offset, replacementOffset) then before[..at] + chunk + before[at + |chunk|..] else before
  {
    TargetSector(offset, replacementOffset);
    var after, at := PatchedSector(writes + WritesOf(offset, chunk, replacementOffset), s, lba), offset % RAW_SECTOR_SIZE;
    var before := PatchedSector(writes, s, lba);
    var first := Target(offset, replacementOffset);
    var sector := SectorIndex(offset, replacementOffset);
    hide Target, SectorIndex, Patched;
    forall i | 0 <= i < RAW_SECTOR_SIZE
      ensures after[i] == if lba == sector && at <= i < at + |chunk| then chunk[i - at] else before[i]
    {
      RunPatched(writes, offset, chunk, replacementOffset, s[i], RAW_SECTOR_SIZE * lba + i);
      SameSectorRun(lba, sector, i, at, |chunk|);
    }
  }

  lemma SameSectorRun(lba: nat, sector: nat, i: nat, at: nat, n: nat)
    requires i < RAW_SECTOR_SIZE && at + n <= RAW_SECTOR_SIZE
    ensures var position, first := RAW_SECTOR_SIZE * lba + i, RAW_SECTOR_SIZE * sector + at;
            first <= position < first + n <==> lba == sector && at <= i < at + n
  {
  }

  lemma {:induction false} UntouchedAfter(writes: seq<Write>, offset: nat, chunk: seq<Byte>, replacementOffset: nat,
                                          lba: nat)
    requires Untouched(writes, lba) && lba != SectorIndex(offset, replacementOffset)
    requires offset % RAW_SECTOR_SIZE + |chunk| <= RAW_SECTOR_SIZE
    ensures Untouched(writes + WritesOf(offset, chunk, replacementOffset), lba)
  {
    hide Target, SectorIndex;
    var w := WritesOf(offset, chunk, replacementOffset);
    forall k | 0 <= k < |writes + w|
      ensures (writes + w)[k].position / RAW_SECTOR_SIZE != lba
    {
      if k >= |writes| {
        var i := k - |writes|;
        TargetRun(offset, replacementOffset, i);
        TargetSector(offset, replacementOffset);
        assert (RAW_SECTOR_SIZE * SectorIndex(offset, replacementOffset) + offset % RAW_SECTOR_SIZE + i) / RAW_SECTOR_SIZE
               == SectorIndex(offset, replacementOffset);
      }
    }
  }

  // ---------------------------------------------------------------- the overlay

  class CDImagePpf {
    const parent: CDImage
    const backing: Backing
    const lbaCount: nat
    const replacementOffset: nat
    var replacementData: seq<Byte>
    var replacementMap: map<nat, nat>
    ghost var writes: seq<Write>

    ghost predicate Valid()
      reads this, parent
    {
      && parent.Valid() && lbaCount <= parent.end
      && Represents(parent.indices, backing, replacementData, replacementMap, writes)
    }

    constructor (parent: CDImage, backing: Backing, lbaCount: nat, replacementOffset: nat)
      requires parent.Valid() && lbaCount <= parent.end
      ensures Valid() && writes == [] && this.parent == parent && this.backing == backing
      ensures this.lbaCount == lbaCount && this.replacementOffset == replacementOffset
    {
      this.parent, this.backing, this.lbaCount, this.replacementOffset := parent, backing, lbaCount, replacementOffset;
      replacementData, replacementMap, writes := [], map[], [];
    }

    /** Makes room for a sector of the parent image. */
    method AddSector(sector: nat) returns (ok: bool)
      requires Valid() && sector < lbaCount && sector !in replacementMap
      modifies this`replacementData, this`replacementMap, parent`currentIndex, parent`positionOnDisc,
               parent`positionInIndex
      ensures Valid() && writes == old(writes)
      ensures ok == SectorAt(parent.indices, sector, backing).Some?
      ensures ok ==> sector in replacementMap
      ensures !ok ==> replacementMap == old(replacementMap)
    {
      hide SectorAt, PatchedSector;
      var start := |replacementData|;
      ghost var d, m := replacementData, replacementMap;
      ok := parent.Seek(sector);
      var r := parent.ReadRawSector(backing);
      if r.None? {
        replacementData := replacementData + SilentSector();
        RepresentsMore(parent.indices, backing, d, m, writes, SilentSector());
        return false;
      }
      replacementData := replacementData + r.value;
      replacementMap := replacementMap[sector := start];
      RepresentsSector(parent.indices, backing, d, m, writes, sector, r.value);
    }

    /** AddPatch: succeeds exactly if every sector it touches exists and can be read; then all its bytes
        are in effect, on top of the patches before. If it fails, a prefix of them is. */
    method AddPatch(offset: nat, patch: seq<Byte>) returns (ok: bool)
      requires Valid()
      modifies this`replacementData, this`replacementMap, this`writes, parent`currentIndex, parent`positionOnDisc,
               parent`positionInIndex
      ensures Valid()
      ensures ok == Patchable(parent.indices, backing, lbaCount, replacementOffset, offset, |patch|)
      ensures ok ==> writes == old(writes) + WritesOf(offset, patch, replacementOffset)
      ensures !ok ==>
                exists n :: 0 <= n < |patch| && writes == old(writes) + WritesOf(offset, patch[..n], replacementOffset)
    {
      hide SectorAt, PatchedSector, WritesOf, Target, Represents;
      var done := 0;
      ghost var w := writes;
      WritesOfNone(offset, patch, replacementOffset);
      while done < |patch|
        invariant done <= |patch| && Valid() && writes == w + WritesOf(offset, patch[..done], replacementOffset)
        invariant Patchable(parent.indices, backing, lbaCount, replacementOffset, offset, done)
      {
        var sector := SectorIndex(offset + done, replacementOffset);
        var at := (offset + done) % RAW_SECTOR_SIZE;
        if sector >= lbaCount {
          assert !PatchableByte(parent.indices, backing, lbaCount, replacementOffset, offset + done);
          return false;
        }
        var n := if |patch| - done < RAW_SECTOR_SIZE - at then |patch| - done else RAW_SECTOR_SIZE - at;
        if sector !in replacementMap {
          ok := AddSector(sector);
          if !ok {
            assert !PatchableByte(parent.indices, backing, lbaCount, replacementOffset, offset + done);
            return false;
          }
        }
        CopiedReadable(parent.indices, backing, replacementData, replacementMap, writes, sector);
        var start := replacementMap[sector];
        RepresentsRun(parent.indices, backing, replacementData, replacementMap, writes, offset + done,
                      patch[done..done + n], replacementOffset);
        replacementData := replacementData[..start + at] + patch[done..done + n] + replacementData[start + at + n..];
        writes := writes + WritesOf(offset + done, patch[done..done + n], replacementOffset);
        WritesOfNext(offset, patch, done, n, replacementOffset);
        PatchableRun(parent.indices, backing, lbaCount, replacementOffset, offset, done, n);
        done := done + n;
      }
      assert patch[..done] == patch;
      ok := true;
    }

    /** ReadSectorFromIndex: a copied sector comes from the overlay, any other from the parent. Either
        way it is the parent's sector with all patches applied in order. */
    method ReadSectorFromIndex(index: Index, lbaInIndex: nat) returns (r: Option<Sector>)
      requires Valid() && index in parent.indices && index.sectorSize > 0 && lbaInIndex < index.length
      ensures r == match backing(index, lbaInIndex)
                   case None => None
                   case Some(s) => Some(PatchedSector(writes, s, index.startOnDisc + lbaInIndex))
    {
      hide SectorAt, PatchedSector;
      ghost var k :| 0 <= k < |parent.indices| && parent.indices[k] == index;
      var sector := index.startOnDisc + lbaInIndex;
      SectorInIndex(parent.indices, parent.end, k, sector, backing);
      if sector in replacementMap {
        assert Copied(parent.indices, backing, replacementData, replacementMap, writes, sector);
        return Some(replacementData[replacementMap[sector]..replacementMap[sector] + RAW_SECTOR_SIZE]);
      }
      r := backing(index, lbaInIndex);
      if r.Some? {
        UntouchedSector(writes, r.value, sector);
      }
    }

    /** The patches of a file, in order, up to the first that fails. */
    method AddPatches(patches: seq<(nat, seq<Byte>)>) returns (ok: bool)
      requires Valid() && writes == []
      modifies this`replacementData, this`replacementMap, this`writes, parent`currentIndex, parent`positionOnDisc,
               parent`positionInIndex
      ensures Valid() && (ok ==> writes == AllWrites(patches, replacementOffset))
      ensures ok == forall i :: 0 <= i < |patches| ==>
                Patchable(parent.indices, backing, lbaCount, replacementOffset, patches[i].0, |patches[i].1|)
    {
      hide SectorAt, WritesOf, Represents, Patchable;
      for i := 0 to |patches|
        invariant Valid() && writes == AllWrites(patches[..i], replacementOffset)
        invariant forall j :: 0 <= j < i ==>
                    Patchable(parent.indices, backing, lbaCount, replacementOffset, patches[j].0, |patches[j].1|)
      {
        ok := AddPatch(patches[i].0, patches[i].1);
        if !ok {
          return;
        }
        assert patches[..i + 1][..i] == patches[..i];
      }
      assert patches[..|patches|] == patches;
      ok := true;
    }
  }

  function AllWrites(patches: seq<(nat, seq<Byte>)>, replacementOffset: nat): seq<Write> {
    if patches == [] then []
    else
      var last := patches[|patches| - 1];
      AllWrites(patches[..|patches| - 1], replacementOffset) + WritesOf(last.0, last.1, replacementOffset)
  }

  lemma CopiedReadable(toc: seq<Index>, backing: Backing, data: seq<Byte>, m: map<nat, nat>, writes: seq<Write>, l: nat)
    requires Represents(toc, backing, data, m, writes) && l in m
    ensures SectorAt(toc, l, backing).Some?
  {
    assert Copied(toc, backing, data, m, writes, l);
  }

  /** Byte number `offset` of the patch area can be patched. */
  ghost predicate PatchableByte(toc: seq<Index>, backing: Backing, lbaCount: nat, replacementOffset: nat, offset: nat) {
    var sector := SectorIndex(offset, replacementOffset);
    sector < lbaCount && SectorAt(toc, sector, backing).Some?
  }

  ghost predicate Patchable(toc: seq<Index>, backing: Backing, lbaCount: nat, replacementOffset: nat, offset: nat,
                            n: nat) {
    forall i :: offset <= i < offset + n ==> PatchableByte(toc, backing, lbaCount, replacementOffset, i)
  }

  /** Every copied sector holds the parent's bytes with the writes applied, in a place of its own, and
      all sectors that were written have been copied. */
  ghost predicate Represents(toc: seq<Index>, backing: Backing, data: seq<Byte>, m: map<nat, nat>, writes: seq<Write>) {
    && (forall l :: l in m ==> Copied(toc, backing, data, m, writes, l))
    && (forall l, k :: l in m && k in m && l != k ==> m[l] + RAW_SECTOR_SIZE <= m[k] || m[k] + RAW_SECTOR_SIZE <= m[l])
    && (forall l: nat :: l !in m ==> Untouched(writes, l))
  }

  ghost predicate Copied(toc: seq<Index>, backing: Backing, data: seq<Byte>, m: map<nat, nat>, writes: seq<Write>,
                         l: nat) {
    && l in m && m[l] + RAW_SECTOR_SIZE <= |data| && SectorAt(toc, l, backing).Some?
    && data[m[l]..m[l] + RAW_SECTOR_SIZE] == PatchedSector(writes, SectorAt(toc, l, backing).value, l)
  }

  lemma RepresentsMore(toc: seq<Index>, backing: Backing, data: seq<Byte>, m: map<nat, nat>, writes: seq<Write>,
                       more: seq<Byte>)
    requires Represents(toc, backing, data, m, writes)
    ensures Represents(toc, backing, data + more, m, writes)
  {
    hide SectorAt, PatchedSector, Untouched;
    forall l | l in m
      ensures Copied(toc, backing, data + more, m, writes, l)
    {
      assert Copied(toc, backing, data, m, writes, l);
      assert (data + more)[m[l]..m[l] + RAW_SECTOR_SIZE] == data[m[l]..m[l] + RAW_SECTOR_SIZE];
    }
  }

  lemma RepresentsSector(toc: seq<Index>, backing: Backing, data: seq<Byte>, m: map<nat, nat>, writes: seq<Write>,
                         l: nat, s: Sector)
    requires Represents(toc, backing, data, m, writes) && l !in m && SectorAt(toc, l, backing) == Some(s)
    ensures Represents(toc, backing, data + s, m[l := |data|], writes)
  {
    hide SectorAt, PatchedSector;
    UntouchedSector(writes, s, l);
    hide Untouched;
    RepresentsMore(toc, backing, data, m, writes, s);
    var t := m[l := |data|];
    assert (data + s)[|data|..|data| + RAW_SECTOR_SIZE] == s;
    forall k | k in t
      ensures Copied(toc, backing, data + s, t, writes, k)
    {
      if k != l {
        assert Copied(toc, backing, data + s, m, writes, k);
        assert Copied(toc, backing, data, m, writes, k);
      }
    }
    forall k | k in m
      ensures m[k] + RAW_SECTOR_SIZE <= |data|
    {
      assert Copied(toc, backing, data, m, writes, k);
    }
  }

  lemma RepresentsRun(toc: seq<Index>, backing: Backing, data: seq<Byte>, m: map<nat, nat>, writes: seq<Write>,
                      offset: nat, chunk: seq<Byte>, replacementOffset: nat)
    requires Represents(toc, backing, data, m, writes) && offset % RAW_SECTOR_SIZE + |chunk| <= RAW_SECTOR_SIZE
    requires SectorIndex(offset, replacementOffset) in m
    ensures var p := m[SectorIndex(offset, replacementOffset)] + offset % RAW_SECTOR_SIZE;
            && p + |chunk| <= |data|
            && Represents(toc, backing, data[..p] + chunk + data[p + |chunk|..], m, writes + WritesOf(offset, chunk, replacementOffset))
  {
    var sector := SectorIndex(offset, replacementOffset);
    hide Untouched, WritesOf, SectorIndex, Copied;
    CopiedFits(toc, backing, data, m, writes, sector);
    var p := m[sector] + offset % RAW_SECTOR_SIZE;
    var t, w := data[..p] + chunk + data[p + |chunk|..], writes + WritesOf(offset, chunk, replacementOffset);
    forall l | l in m
      ensures Copied(toc, backing, t, m, w, l)
    {
      CopiedRun(toc, backing, data, m, writes, offset, chunk, replacementOffset, l);
    }
    OthersUntouched(toc, backing, data, m, writes, offset, chunk, replacementOffset);
  }

  lemma CopiedFits(toc: seq<Index>, backing: Backing, data: seq<Byte>, m: map<nat, nat>, writes: seq<Write>, l: nat)
    requires Copied(toc, backing, data, m, writes, l)
    ensures l in m && m[l] + RAW_SECTOR_SIZE <= |data|
  {
  }

  lemma CopiedRun(toc: seq<Index>, backing: Backing, data: seq<Byte>, m: map<nat, nat>, writes: seq<Write>,
                  offset: nat, chunk: seq<Byte>, replacementOffset: nat, l: nat)
    requires Copied(toc, backing, data, m, writes, l) && offset % RAW_SECTOR_SIZE + |chunk| <= RAW_SECTOR_SIZE
    requires var sector := SectorIndex(offset, replacementOffset);
             Copied(toc, backing, data, m, writes, sector)
             && (l == sector || m[l] + RAW_SECTOR_SIZE <= m[sector] || m[sector] + RAW_SECTOR_SIZE <= m[l])
    ensures var p := m[SectorIndex(offset, replacementOffset)] + offset % RAW_SECTOR_SIZE;
            Copied(toc, backing, data[..p] + chunk + data[p + |chunk|..], m, writes + WritesOf(offset, chunk, replacementOffset), l)
  {
    hide SectorAt, PatchedSector, WritesOf, SectorIndex;
    RunSector(writes, offset, chunk, replacementOffset, SectorAt(toc, l, backing).value, l);
    SliceWritten(data, chunk, m[SectorIndex(offset, replacementOffset)], offset % RAW_SECTOR_SIZE, m[l]);
  }

  lemma OthersUntouched(toc: seq<Index>, backing: Backing, data: seq<Byte>, m: map<nat, nat>, writes: seq<Write>,
                        offset: nat, chunk: seq<Byte>, replacementOffset: nat)
    requires Represents(toc, backing, data, m, writes) && offset % RAW_SECTOR_SIZE + |chunk| <= RAW_SECTOR_SIZE
    requires SectorIndex(offset, replacementOffset) in m
    ensures forall l: nat :: l !in m ==> Untouched(writes + WritesOf(offset, chunk, replacementOffset), l)
  {
    hide SectorIndex, Untouched, Copied, WritesOf;
    forall l: nat | l !in m
      ensures Untouched(writes + WritesOf(offset, chunk, replacementOffset), l)
    {
      UntouchedAfter(writes, offset, chunk, replacementOffset, l);
    }
  }

  /** Overwriting bytes inside one slot, seen from that slot and from one beside it. */
  lemma SliceWritten(data: seq<Byte>, chunk: seq<Byte>, slot: nat, at: nat, other: nat)
    requires slot + RAW_SECTOR_SIZE <= |data| && other + RAW_SECTOR_SIZE <= |data| && at + |chunk| <= RAW_SECTOR_SIZE
    requires slot == other || slot + RAW_SECTOR_SIZE <= other || other + RAW_SECTOR_SIZE <= slot
    ensures var p := slot + at;
            var t := data[..p] + chunk + data[p + |chunk|..];
            var before := data[other..other + RAW_SECTOR_SIZE];
            t[other..other + RAW_SECTOR_SIZE] == if slot == other then before[..at] + chunk + before[at + |chunk|..] else before
  {
  }

  lemma WritesOfNone(offset: nat, patch: seq<Byte>, replacementOffset: nat)
    ensures WritesOf(offset, patch[..0], replacementOffset) == []
  {
  }

  lemma WritesOfNext(offset: nat, patch: seq<Byte>, done: nat, n: nat, replacementOffset: nat)
    requires done + n <= |patch|
    ensures WritesOf(offset, patch[..done], replacementOffset) + WritesOf(offset + done, patch[done..done + n], replacementOffset)
            == WritesOf(offset, patch[..done + n], replacementOffset)
  {
    hide Target;
  }

  lemma PatchableRun(toc: seq<Index>, backing: Backing, lbaCount: nat, replacementOffset: nat, offset: nat, done: nat,
                     n: nat)
    requires Patchable(toc, backing, lbaCount, replacementOffset, offset, done)
    requires PatchableByte(toc, backing, lbaCount, replacementOffset, offset + done)
    requires (offset + done) % RAW_SECTOR_SIZE + n <= RAW_SECTOR_SIZE
    ensures Patchable(toc, backing, lbaCount, replacementOffset, offset, done + n)
  {
    hide SectorAt;
    forall i | offset + done <= i < offset + done + n
      ensures SectorIndex(i, replacementOffset) == SectorIndex(offset + done, replacementOffset)
    {
      var o := offset + done;
      assert o == RAW_SECTOR_SIZE * (o / RAW_SECTOR_SIZE) + o % RAW_SECTOR_SIZE;
      assert i / RAW_SECTOR_SIZE == o / RAW_SECTOR_SIZE;
    }
  }
}
