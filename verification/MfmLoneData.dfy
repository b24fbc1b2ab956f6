/**
 A data field written without an ID field in front of it. It goes to the sector whose ID field the
 head passed last, which the drive reads off the track it shows.
 */
module MfmLoneData {
  import opened Bytes
  import opened FloppyGeometry
  import opened FloppyMedia
  import opened FloppyTracks
  import opened FloppyWrites
  import opened FloppyDrive
  import opened FloppyRuns
  import opened MfmCheck
  import opened MfmLayout
  import opened MfmWriteBack

  lemma {:induction false} LastIdIs(s: seq<byte>, limit: nat, p: nat)
    requires p + 8 <= limit <= |s| && IdMark(s, p)
    requires forall i :: p < i <= limit - 8 ==> !IdMark(s, i)
    ensures LastIdBefore(s, limit) == s[p + 6] as nat - 1
    decreases limit
  {
    if limit > p + 8 { LastIdIs(s, limit - 1, p); }
  }

  lemma {:induction false} NoIdYet(s: seq<byte>, limit: nat)
    requires limit <= |s| && forall i :: 0 <= i <= limit - 8 ==> !IdMark(s, i)
    ensures LastIdBefore(s, limit) == -1
    decreases limit
  {
    if limit >= 8 { NoIdYet(s, limit - 1); }
  }

  // ---------- what stands on the track ----------

  /** The bytes of a sector that matter for finding its ID field. */
  lemma SectorBytes(m: Media, at: Place, n: nat)
    requires m.Valid() && m.highDensity && m.Inserted() && IsPlace(true, true, at.track, at.side, n)
    ensures var sector := MfmSector(m, at, n);
            && |sector| == 675
            && IdMark(sector, 12) && sector[18] as nat == n + 1
            && (forall i :: 12 < i < 60 ==> !IdMark(sector, i))
  {
    hide MfmContent, MfmCrc, MfmGap, ReadBe32;
    ContentIsBlock(m, at, n);
    IdNumbers(at, n);
    var sector, content := MfmSector(m, at, n), MfmContent(m, at, n);
    var id, data := IdField(at, n), DataField(content);
    SectorParts(m, at, n);
    assert forall i :: 12 <= i < 22 ==> sector[i] == sector[12..22][i - 12];
    assert forall i :: 56 <= i < 574 ==> sector[i] == sector[56..574][i - 56];
    GapBytes(m, at, n);
    assert sector[56] == 0xa1 && sector[57] == 0xa1 && sector[58] == 0xa1 && sector[59] == 0xfb;
    assert sector[12] == 0xa1 && sector[13] == 0xa1 && sector[14] == 0xa1 && sector[15] == 0xfe;
    assert sector[16] as nat == at.track && sector[17] as nat == at.side && sector[18] as nat == n + 1 && sector[19] == 2;
  }

  /** No ID field is imitated inside the data field. */
  predicate Plain(content: seq<byte>)
  {
    forall i :: 4 <= i < |content| + 3 ==> !IdMark(DataField(content), i)
  }

  lemma DataImitatesNoId(m: Media, at: Place, n: nat, i: nat)
    requires m.Valid() && m.highDensity && m.Inserted() && IsPlace(true, true, at.track, at.side, n)
    requires Plain(MfmContent(m, at, n)) && 60 <= i < 574
    ensures |MfmSector(m, at, n)| == 675 && !IdMark(MfmSector(m, at, n), i)
  {
    hide MfmSector, MfmContent, DataField, ReadBe32;
    ContentIsBlock(m, at, n);
    SectorParts(m, at, n);
    GapBytes(m, at, n);
    var sector, data := MfmSector(m, at, n), DataField(MfmContent(m, at, n));
    assert forall k :: 56 <= k < 574 ==> sector[k] == sector[56..574][k - 56] == data[k - 56];
    if i + 4 <= 574 { assert !IdMark(data, i - 56); }
  }

  lemma IdOnTrack(m: Media, at: Place, n: nat, i: nat)
    requires m.Valid() && m.highDensity && m.Inserted() && IsPlace(true, true, at.track, at.side, n) && i + 4 <= 675
    ensures |MfmTrack(m, at)| == MFM_TRACK && |MfmSector(m, at, n)| == 675
    ensures IdMark(MfmTrack(m, at), Start(n) + i) <==> IdMark(MfmSector(m, at, n), i)
  {
    hide MfmTrack, MfmSector, ReadBe32;
    TrackBytes(m, at, n);
    var s, sector := MfmTrack(m, at), MfmSector(m, at, n);
    assert s[Start(n) + i] == sector[i] && s[Start(n) + (i + 1)] == sector[i + 1];
    assert s[Start(n) + (i + 2)] == sector[i + 2] && s[Start(n) + (i + 3)] == sector[i + 3];
  }

  lemma NoIdInGap(m: Media, at: Place, n: nat, i: nat)
    requires m.Valid() && m.highDensity && m.Inserted() && IsPlace(true, true, at.track, at.side, n)
    requires i < 12 || 574 <= i < 675
    ensures |MfmTrack(m, at)| == MFM_TRACK && !IdMark(MfmTrack(m, at), Start(n) + i)
  {
    hide MfmTrack, MfmSector, ReadBe32;
    TrackBytes(m, at, n);
    GapBytes(m, at, n);
    assert MfmTrack(m, at)[Start(n) + i] == MfmSector(m, at, n)[i];
  }

  /** Behind its own ID field a sector shows no other one, unless its content imitates one. */
  lemma NoOtherId(m: Media, at: Place, n: nat, i: nat)
    requires m.Valid() && m.highDensity && m.Inserted() && IsPlace(true, true, at.track, at.side, n)
    requires 12 < i < 675 && (i < 60 || Plain(MfmContent(m, at, n)))
    ensures |MfmTrack(m, at)| == MFM_TRACK && !IdMark(MfmTrack(m, at), Start(n) + i)
  {
    hide MfmTrack, MfmSector, MfmContent, Plain, IdMark, ReadBe32;
    if i >= 574 {
      NoIdInGap(m, at, n, i);
    } else {
      IdOnTrack(m, at, n, i);
      if i < 60 { SectorBytes(m, at, n); } else { DataImitatesNoId(m, at, n, i); }
    }
  }

  /** Behind a sector comes the gap in front of the next ID field, or the filler. */
  lemma NoIdBehind(m: Media, at: Place, n: nat, i: nat)
    requires m.Valid() && m.highDensity && m.Inserted() && IsPlace(true, true, at.track, at.side, n)
    requires Start(n + 1) <= i < if n == 17 then MFM_TRACK else Start(n + 1) + 12
    ensures |MfmTrack(m, at)| == MFM_TRACK && !IdMark(MfmTrack(m, at), i)
  {
    hide MfmTrack, MfmSector, ReadBe32;
    if n == 17 {
      FillerBytes(m, at);
    } else {
      NoIdInGap(m, at, n + 1, i - Start(n + 1));
    }
  }

  /**
   With the head behind the ID field of a sector and not yet far into its data field, or not yet
   behind the next ID field if the data field imitates none, that sector is inferred.
   */
  lemma HeadInfers(m: Media, at: Place, n: nat, cursor: nat)
    requires m.Valid() && m.highDensity && m.Inserted() && IsPlace(true, true, at.track, at.side, n)
    requires 148 + 675 * n + 20 <= cursor < 12500
    requires cursor < 148 + 675 * n + 68 || (Plain(MfmContent(m, at, n)) && (n == 17 || cursor < 148 + 675 * (n + 1) + 20))
    ensures |MfmTrack(m, at)| == 12500 && LastIdBefore(MfmTrack(m, at), cursor) == n
  {
    hide MfmTrack, MfmSector, MfmContent, Plain, IdMark, ReadBe32;
    TrackBytes(m, at, n);
    SectorBytes(m, at, n);
    var s, p := MfmTrack(m, at), Start(n) + 12;
    IdIsWhere(s, p, MfmSector(m, at, n), 12);
    forall i | p < i <= cursor - 8
      ensures !IdMark(s, i)
    {
      if i < Start(n + 1) { NoOtherId(m, at, n, i - Start(n)); } else { NoIdBehind(m, at, n, i); }
    }
    LastIdIs(s, cursor, p);
    assert s[p + 6] == MfmSector(m, at, n)[18];
  }

  lemma IdIsWhere(s: seq<byte>, p: nat, sector: seq<byte>, i: nat)
    requires IdMark(sector, i) && p >= i && p - i + |sector| <= |s|
    requires forall k :: 0 <= k < |sector| ==> s[p - i + k] == sector[k]
    ensures IdMark(s, p)
  {
    assert s[p] == s[p - i + i] && s[p + 1] == s[p - i + (i + 1)] && s[p + 2] == s[p - i + (i + 2)] && s[p + 3] == s[p - i + (i + 3)];
  }

  /** Before the first ID field of the revolution none is inferred. */
  lemma HeadInfersNone(m: Media, at: Place, cursor: nat)
    requires m.Valid() && m.highDensity && m.Inserted() && at.track < TRACKS && at.side < 2 && cursor < 168
    ensures |MfmTrack(m, at)| == 12500 && LastIdBefore(MfmTrack(m, at), cursor) == -1
  {
    hide MfmTrack, IdMark, ReadBe32;
    MfmTrackLength(m, at);
    forall i | 0 <= i <= cursor - 8
      ensures !IdMark(MfmTrack(m, at), i)
    {
      if i < 148 { NoIdInLead(m, at, i); } else { NoIdInGap(m, at, 0, i - 148); }
    }
    NoIdYet(MfmTrack(m, at), cursor);
  }

  lemma NoIdInLead(m: Media, at: Place, i: nat)
    requires m.Valid() && m.highDensity && m.Inserted() && at.track < TRACKS && at.side < 2 && i < 148
    ensures |MfmTrack(m, at)| == MFM_TRACK && !IdMark(MfmTrack(m, at), i)
  {
    MfmTrackLength(m, at);
    var s, lead := MfmTrack(m, at), MfmLead();
    hide MfmSectors, MfmField, ReadBe32;
    assert s[..148] == lead;
    if i >= 98 {
      assert s[i] == s[..148][i] == 0x4e;
    } else {
      hide MfmTrack;
      LeadShowsNoSync(lead, i);
      assert s[i] == s[..148][i] && s[i + 1] == s[..148][i + 1] && s[i + 2] == s[..148][i + 2];
    }
  }

  lemma LeadShowsNoSync(lead: seq<byte>, i: nat)
    requires lead == MfmLead() && i < 98
    ensures !(lead[i] == 0xa1 && lead[i + 1] == 0xa1 && lead[i + 2] == 0xa1)
  {
    hide MfmLead;
    GapHasNoSync();
    var junk := lead + Repeat(0x00, 12);
    assert !MatchAt(junk + MARKS, MARKS, i);
    assert (junk + MARKS)[i] == lead[i] && (junk + MARKS)[i + 1] == lead[i + 1] && (junk + MARKS)[i + 2] == lead[i + 2];
  }

  // ---------- the writes ----------

  /**
   The head stands behind the ID field of sector `n`, in the gap where its data field belongs, or
   anywhere before the end of the next ID field if the data field imitates none.
   */
  predicate BehindId(d: Drive, n: nat)
  {
    && d.Cached() && n < 18 && 148 + 675 * n + 20 <= d.cache.cursor
    && (d.cache.cursor < 148 + 675 * n + 68
        || (Plain(MfmContent(d.media, d.At(), n)) && (n == 17 || d.cache.cursor < 148 + 675 * (n + 1) + 20)))
  }

  /**
   A data field written from there, with nothing in the buffer and no sector set, is committed to
   that sector.
   */
  lemma LoneFieldIsCommitted(host: Host, d: Drive, junk: seq<byte>, content: seq<byte>, n: nat)
    requires Writing(d) && d.media.highDensity && d.written == [] && d.media.sector < 0 && d.Coherent()
    requires BehindId(d, n) && NoSyncBefore(junk) && |content| == 512
    ensures var after := WriteAll(host, d, junk + DataField(content));
            && after.media == Commit(host, d.At(), d.media.(sector := n), n, content, []).media
            && after.written == [] && Writing(after) && after.At() == d.At()
  {
    hide Act, Commit, WriteAll, MfmTrack, MfmTrackMarks, MfmContent, Plain, DataField, IsField, NoSyncBefore, LastIdBefore, Waiting, ReadBe32;
    MfmTrackLength(d.media, d.At());
    HeadInfers(d.media, d.At(), n, d.cache.cursor);
    assert d.Refreshed() == d && d.Inferred() == n;
    DataFieldActs(host, d.At(), d.media.(sector := n), content);
    WriteField(host, d, junk, DataField(content));
  }

  /** From before the first ID field, or with no track cached, it is refused. */
  lemma LoneFieldIsRefused(host: Host, d: Drive, junk: seq<byte>, content: seq<byte>)
    requires Writing(d) && d.media.highDensity && d.written == [] && d.media.sector < 0 && d.Coherent()
    requires (d.Cached() ==> d.cache.cursor < 168) && NoSyncBefore(junk) && |content| == 512
    ensures var after := WriteAll(host, d, junk + DataField(content));
            && after.media == d.media.(sector := -1, failed := true)
            && after.written == [] && Writing(after) && after.At() == d.At()
  {
    hide Act, Commit, WriteAll, MfmTrack, MfmTrackMarks, DataField, NoSyncBefore, LastIdBefore, Waiting, ReadBe32;
    var refreshed := d.Refreshed();
    HeadInfersNone(d.media, d.At(), refreshed.cache.cursor);
    assert refreshed.Inferred() == -1;
    NoSectorIsRefused(host, d.At(), d.media.(sector := -1), content);
    WriteField(host, d, junk, DataField(content));
  }

  lemma NoSectorIsRefused(host: Host, at: Place, m: Media, content: seq<byte>)
    requires m.highDensity && |content| == 512 && m.sector < 0
    ensures IsField(DataField(content)) && Act(host, at, m, DataField(content)) == Acted(m.(failed := true), false)
  {
    hide MfmCrc, CheckHolds, Commit;
    assert DataField(content)[..3] == MARKS;
  }
}
