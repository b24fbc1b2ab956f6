/**
 A high-density track byte by byte and mark by mark: what a controller that knows nothing of this
 program finds on it.
 */
module MfmLayout {
  import opened Bytes
  import opened FloppyGeometry
  import opened FloppyMedia
  import opened FloppyTracks
  import opened MfmCheck
  import opened MfmWriteBack

  /** Sector `n` starts here. */
  function Start(n: nat): nat { 148 + 675 * n }

  lemma {:induction false} TrackBytes(m: Media, at: Place, n: nat)
    requires m.Valid() && m.highDensity && m.Inserted() && IsPlace(true, true, at.track, at.side, n)
    ensures var s, sector := MfmTrack(m, at), MfmSector(m, at, n);
            && |s| == MFM_TRACK && |sector| == 675
            && forall k :: 0 <= k < 675 ==> s[Start(n) + k] == sector[k]
  {
    hide MfmTrack, MfmSector, MfmContent, ReadBe32;
    TrackShowsSector(m, at, n);
    var s, sector := MfmTrack(m, at), MfmSector(m, at, n);
    forall k | 0 <= k < 675
      ensures s[Start(n) + k] == sector[k]
    {
      assert s[Start(n)..][..675][k] == s[Start(n)..][k];
    }
  }

  /** The gaps of a sector hold no byte of a mark. */
  lemma GapBytes(m: Media, at: Place, n: nat)
    requires m.Valid() && m.highDensity && m.Inserted() && IsPlace(true, true, at.track, at.side, n)
    ensures var sector := MfmSector(m, at, n);
            && |sector| == 675
            && (forall i :: 0 <= i < 12 || 22 <= i < 56 || 574 <= i < 675 ==> sector[i] in {0x4e, 0x00})
  {
    hide MfmContent, IdField, DataField, ReadBe32;
    ContentIsBlock(m, at, n);
  }

  lemma BytesFrom(s: seq<byte>, k: nat, rest: seq<byte>)
    requires k <= |s| && s[k..] == rest
    ensures |s| == k + |rest| && forall i :: k <= i < |s| ==> s[i] == rest[i - k]
  {
    assert forall i :: k <= i < |s| ==> s[i] == s[k..][i - k];
  }

  lemma FillerBytes(m: Media, at: Place)
    requires m.Valid() && m.highDensity && m.Inserted() && at.track < TRACKS && at.side < 2
    ensures |MfmTrack(m, at)| == MFM_TRACK
    ensures forall k :: 12298 <= k < MFM_TRACK ==> MfmTrack(m, at)[k] == 0x4e
  {
    FillerEnds(m, at);
    hide MfmTrack, ReadBe32;
    BytesFrom(MfmTrack(m, at), 12298, Repeat(0x4e, 202));
  }

  lemma FillerEnds(m: Media, at: Place)
    requires m.Valid() && m.highDensity && m.Inserted() && at.track < TRACKS && at.side < 2
    ensures |MfmTrack(m, at)| == MFM_TRACK && MfmTrack(m, at)[12298..] == Repeat(0x4e, 202)
  {
    hide MfmLead, MfmSectors, Media.Valid, ReadBe32;
    MfmTrackLength(m, at);
    SectorsFrom(m, at, 0, 18);
    DropBehind(MfmLead(), MfmSectors(m, at, 0), 675 * 18);
    LastSectors(m, at);
  }

  lemma LastSectors(m: Media, at: Place)
    requires at.track < TRACKS && at.side < 2
    ensures MfmSectors(m, at, 18) == Repeat(0x4e, 202)
  {
  }

  // ---------- one sector ----------

  /** The 675 bytes of a sector: its ID field and its data field, with checks that come out even, between gaps. */
  predicate IsMfmSector(s: seq<byte>, track: byte, side: byte, number: byte, content: seq<byte>)
  {
    && |s| == 675
    && All(s[..12], 0x00)
    && s[12..16] == [0xa1, 0xa1, 0xa1, 0xfe] && s[16..20] == [track, side, number, 2] && MfmCrc(s[12..22]) == 0
    && All(s[22..44], 0x4e) && All(s[44..56], 0x00)
    && s[56..60] == [0xa1, 0xa1, 0xa1, 0xfb] && s[60..572] == content && MfmCrc(s[56..574]) == 0
    && All(s[574..], 0x4e)
  }

  lemma FieldIs(kind: byte, payload: seq<byte>, mark: byte)
    ensures var field := MfmField(kind, payload, mark);
            && |field| == |payload| + 6 && field[..4] == [mark, mark, mark, kind] && field[4..4 + |payload|] == payload
            && MfmCrc(field) == 0
  {
    FieldChecks(kind, payload, mark);
    CheckIsResidue(MfmField(kind, payload, mark));
    hide MfmCrc;
  }

  lemma SectorIsBuilt(m: Media, at: Place, n: nat)
    requires m.Valid() && m.highDensity && m.Inserted() && IsPlace(true, true, at.track, at.side, n)
    ensures IsMfmSector(MfmSector(m, at, n), at.track as byte, at.side as byte, (n + 1) as byte, MfmContent(m, at, n))
  {
    hide MfmField, MfmContent, MfmCrc, ReadBe32;
    ContentIsBlock(m, at, n);
    FieldIs(0xfe, IdPayload(at, n), 0xa1);
    FieldIs(0xfb, MfmContent(m, at, n), 0xa1);
    FieldsStand(IdField(at, n), DataField(MfmContent(m, at, n)));
  }

  lemma FieldsStand(id: seq<byte>, data: seq<byte>)
    requires |id| == 10 && |data| == 518
    ensures var s := Repeat(0x00, 12) + id + MfmGap() + data + Repeat(0x4e, 101);
            && |s| == 675 && All(s[..12], 0x00)
            && s[12..16] == id[..4] && s[16..20] == id[4..8] && s[12..22] == id
            && All(s[22..44], 0x4e) && All(s[44..56], 0x00)
            && s[56..60] == data[..4] && s[60..572] == data[4..516] && s[56..574] == data
            && All(s[574..], 0x4e)
  {
  }

  // ---------- the whole track ----------

  /** What stands in front of the sectors: a gap, the index field, and another gap. */
  predicate IsLead(s: seq<byte>)
  {
    && |s| == 148
    && All(s[..80], 0x4e) && All(s[80..92], 0x00)
    && s[92..96] == [0xc2, 0xc2, 0xc2, 0xfc] && MfmCrc(s[92..98]) == 0
    && All(s[98..], 0x4e)
  }

  lemma LeadIsBuilt()
    ensures IsLead(MfmLead())
  {
    hide MfmField, MfmCrc;
    FieldIs(0xfc, [], 0xc2);
    IndexStands(MfmField(0xfc, [], 0xc2));
  }

  lemma IndexStands(index: seq<byte>)
    requires |index| == 6
    ensures var s := Repeat(0x4e, 80) + Repeat(0x00, 12) + index + Repeat(0x4e, 50);
            && |s| == 148 && All(s[..80], 0x4e) && All(s[80..92], 0x00) && s[92..96] == index[..4] && s[92..98] == index
            && All(s[98..], 0x4e)
  {}

  /**
   A high-density track has 12,500 bytes: the lead, the eighteen sectors in the order of their
   numbers, each with the content of its block, and a gap.
   */
  lemma TrackLayout(m: Media, at: Place, n: nat)
    requires m.Valid() && m.highDensity && m.Inserted() && at.track < 80 && at.side < 2 && n < 18
    ensures var s, block := MfmTrack(m, at), (at.track * 2 + at.side) * 18 + n;
            && |s| == 12500 && IsLead(s[..148]) && All(s[12298..], 0x4e) && (block + 1) * 512 <= |m.data|
            && IsMfmSector(s[148 + 675 * n..][..675], at.track as byte, at.side as byte, (n + 1) as byte, m.Block(block))
  {
    hide IsLead, IsMfmSector, MfmSector, MfmSectors, MfmContent, ReadBe32, All;
    LeadIsBuilt();
    assert MfmTrack(m, at)[..148] == MfmLead();
    hide MfmLead;
    TrackShowsSector(m, at, n);
    ContentIsBlock(m, at, n);
    SectorIsBuilt(m, at, n);
    FillerEnds(m, at);
    AllRepeated(0x4e, 202);
  }

  // ---------- marks ----------

  lemma {:induction false} SectorMarksStand(m: Media, at: Place, first: nat, n: nat)
    requires m.Valid() && m.highDensity && m.Inserted() && at.track < TRACKS && at.side < 2 && first <= n < MFM_SECTORS
    ensures var marks := MfmSectorMarks(m, at, first);
            675 * (n - first) + 675 <= |marks| && marks[675 * (n - first)..][..675] == MfmSectorMark(m, at, n)
    decreases n - first
  {
    hide MfmSectorMarks, MfmSectorMark, ReadBe32;
    MarksOfSector(m, at, first);
    if first < n {
      SectorMarksStand(m, at, first + 1, n);
      var rest := MfmSectorMarks(m, at, first + 1);
      assert (MfmSectorMark(m, at, first) + rest)[675 + 675 * (n - first - 1)..] == rest[675 * (n - first - 1)..];
    }
  }

  lemma MarksOfSector(m: Media, at: Place, n: nat)
    requires m.Valid() && m.highDensity && m.Inserted() && IsPlace(true, true, at.track, at.side, n)
    ensures |MfmSectorMark(m, at, n)| == 675
    ensures MfmSectorMarks(m, at, n) == MfmSectorMark(m, at, n) + MfmSectorMarks(m, at, n + 1)
  {
    hide MfmContent, FieldMarks, ReadBe32;
    ContentIsBlock(m, at, n);
  }

  lemma MarksInSector(m: Media, at: Place, n: nat, k: nat)
    requires m.Valid() && m.highDensity && m.Inserted() && IsPlace(true, true, at.track, at.side, n) && k < 675
    ensures |MfmSectorMark(m, at, n)| == 675
    ensures MfmSectorMark(m, at, n)[k] <==> k in {12, 13, 14, 56, 57, 58}
  {
    hide MfmContent, ReadBe32;
    ContentIsBlock(m, at, n);
  }

  /** The first three bytes of the index field and of every ID and data field are marks, and no others. */
  lemma MarksStand(m: Media, at: Place, n: nat, k: nat)
    requires m.Valid() && m.highDensity && m.Inserted() && at.track < 80 && at.side < 2 && n < 18 && k < 675
    ensures |MfmTrackMarks(m, at)| == 12500
    ensures MfmTrackMarks(m, at)[148 + 675 * n + k] <==> k in {12, 13, 14, 56, 57, 58}
    ensures forall i :: 0 <= i < 148 ==> (MfmTrackMarks(m, at)[i] <==> 92 <= i < 95)
    ensures forall i :: 12298 <= i < 12500 ==> !MfmTrackMarks(m, at)[i]
  {
    hide MfmSectorMarks, MfmLeadMarks, MfmTrack, Media.Valid, ReadBe32;
    MfmTrackLength(m, at);
    LeadMarksStand(m, at);
    SectorMarkStands(m, at, n, k);
    FillerUnmarked(m, at, 0);
    forall i | 12298 <= i < 12500
      ensures !MfmTrackMarks(m, at)[i]
    {
      IndexBehind(MfmLeadMarks(), MfmSectorMarks(m, at, 0), i - 148);
    }
  }

  lemma SectorMarkStands(m: Media, at: Place, n: nat, k: nat)
    requires m.Valid() && m.highDensity && m.Inserted() && at.track < 80 && at.side < 2 && n < 18 && k < 675
    ensures |MfmTrackMarks(m, at)| == 12500
    ensures MfmTrackMarks(m, at)[148 + 675 * n + k] <==> k in {12, 13, 14, 56, 57, 58}
  {
    hide MfmSectorMark, MfmSectorMarks, MfmLeadMarks, MfmTrack, Media.Valid, ReadBe32;
    MfmTrackLength(m, at);
    SectorMarksStand(m, at, 0, n);
    MarksInSector(m, at, n, k);
    MarkInSlice(MfmSectorMarks(m, at, 0), 675 * n, k);
    IndexBehind(MfmLeadMarks(), MfmSectorMarks(m, at, 0), 675 * n + k);
  }

  lemma MarkInSlice(marks: seq<bool>, start: nat, k: nat)
    requires start + 675 <= |marks| && k < 675
    ensures marks[start..][..675][k] == marks[start + k]
  {}

  lemma IndexBehind(first: seq<bool>, rest: seq<bool>, i: nat)
    requires i < |rest|
    ensures (first + rest)[|first| + i] == rest[i]
  {}

  lemma LeadMarksStand(m: Media, at: Place)
    ensures |MfmTrackMarks(m, at)| >= 148
    ensures forall i :: 0 <= i < 148 ==> (MfmTrackMarks(m, at)[i] <==> 92 <= i < 95)
  {
    hide MfmSectorMarks;
    assert MfmTrackMarks(m, at)[..148] == MfmLeadMarks();
    forall i | 0 <= i < 148
      ensures MfmTrackMarks(m, at)[i] <==> 92 <= i < 95
    {
      assert MfmTrackMarks(m, at)[i] == MfmTrackMarks(m, at)[..148][i];
    }
  }

  lemma {:induction false} FillerUnmarked(m: Media, at: Place, first: nat)
    requires m.Valid() && m.highDensity && m.Inserted() && at.track < TRACKS && at.side < 2 && first <= MFM_SECTORS
    ensures var marks, end := MfmSectorMarks(m, at, first), 675 * (18 - first);
            |marks| == end + 202 && forall i :: end <= i < end + 202 ==> !marks[i]
    decreases MFM_SECTORS - first
  {
    hide MfmSectorMark, MfmSectorMarks, Media.Valid, ReadBe32;
    if first < MFM_SECTORS {
      MarksOfSector(m, at, first);
      FillerUnmarked(m, at, first + 1);
      UnmarkedBehind(MfmSectorMark(m, at, first), MfmSectorMarks(m, at, first + 1), 675 * (17 - first));
    } else {
      FillerMarks(m, at);
    }
  }

  lemma FillerMarks(m: Media, at: Place)
    ensures MfmSectorMarks(m, at, 18) == Unmarked(202)
  {}

  lemma UnmarkedBehind(first: seq<bool>, rest: seq<bool>, end: nat)
    requires |first| == 675 && |rest| == end + 202 && forall i :: end <= i < end + 202 ==> !rest[i]
    ensures forall i :: 675 + end <= i < 675 + end + 202 ==> !(first + rest)[i]
  {}
}
