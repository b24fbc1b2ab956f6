/**
 The offline probe: an independent reader of a high-density track. It knows nothing of the way the
 track was built, walks over its bytes and compares what it finds with the image.
 */
module FloppyProbe {
  import opened Bytes
  import opened FloppyGeometry
  import opened FloppyMedia
  import opened FloppyTracks
  import opened FloppyWrites
  import opened MfmCheck
  import opened MfmWriteBack

  datatype Report = Report(addressMarks: nat, dataMarks: nat, sectorsVerified: nat, crcFailures: nat, payloadMismatches: nat)

  const NOTHING_SEEN := Report(0, 0, 0, 0, 0)

  /** The report after a complete data field was compared with the sector whose turn it is. */
  function Compared(record: seq<byte>, image: seq<byte>, at: Place, r: Report): Report
    requires |record| == MFM_DATA
  {
    var payload := record[4..4 + SECTOR_BYTES];
    var seen := r.(dataMarks := r.dataMarks + 1, crcFailures := r.crcFailures + if CheckHolds(record) then 0 else 1);
    var offset := BlockOf(true, true, at.track, at.side, r.dataMarks) * SECTOR_BYTES;
    if offset + SECTOR_BYTES > |image| then seen
    else if image[offset..offset + SECTOR_BYTES] != payload then seen.(payloadMismatches := seen.payloadMismatches + 1)
    else seen.(sectorsVerified := seen.sectorsVerified + 1)
  }

  /** The walk over what is left of the track. */
  function Scan(s: seq<byte>, image: seq<byte>, at: Place, r: Report): Report
    decreases |s|
  {
    if |s| < 4 then r
    else if !MatchAt(s, MARKS, 0) then Scan(s[1..], image, at, r)
    else if s[3] == 0xfe then Scan(s[1..], image, at, r.(addressMarks := r.addressMarks + 1))
    else if s[3] != 0xfb then Scan(s[1..], image, at, r)
    else if |s| < MFM_DATA then Scan(s[1..], image, at, r.(dataMarks := r.dataMarks + 1))
    else Scan(s[MFM_DATA..], image, at, Compared(s[..MFM_DATA], image, at, r))
  }

  method ScanTrack(track: seq<byte>, image: seq<byte>, at: Place) returns (report: Report)
    ensures report == Scan(track, image, at, NOTHING_SEEN)
  {
    hide Compared, MfmCrc;
    report := NOTHING_SEEN;
    assert track[0..] == track;
    var i := 0;
    while i + 3 < |track|
      invariant i <= |track|
      invariant Scan(track[i..], image, at, report) == Scan(track, image, at, NOTHING_SEEN)
    {
      ghost var s := track[i..];
      assert s[1..] == track[i + 1..];
      if track[i] != 0xa1 || track[i + 1] != 0xa1 || track[i + 2] != 0xa1 {
        i := i + 1;
        continue;
      }
      var kind := track[i + 3];
      if kind == 0xfe {
        report := report.(addressMarks := report.addressMarks + 1);
        i := i + 1;
        continue;
      }
      if kind != 0xfb {
        i := i + 1;
        continue;
      }
      if i + 4 + SECTOR_BYTES + 2 > |track| {
        report := report.(dataMarks := report.dataMarks + 1);
        i := i + 1;
        continue;
      }
      assert s[..MFM_DATA] == track[i..i + MFM_DATA] && s[MFM_DATA..] == track[i + MFM_DATA..];
      report := Compare(track[i..i + MFM_DATA], image, at, report);
      i := i + 4 + SECTOR_BYTES + 2;
    }
  }

  /** The loop body for a complete data field. */
  method Compare(record: seq<byte>, image: seq<byte>, at: Place, before: Report) returns (report: Report)
    requires |record| == MFM_DATA
    ensures report == Compared(record, image, at, before)
  {
    hide MfmCrc;
    report := before.(dataMarks := before.dataMarks + 1);
    var payload := record[4..4 + SECTOR_BYTES];
    assert record[..4] + payload == Covered(record);
    var expected := ComputeMfmCrc(record[..4] + payload);
    var stored := Join(record[4 + SECTOR_BYTES], record[5 + SECTOR_BYTES]);
    if expected != stored {
      report := report.(crcFailures := report.crcFailures + 1);
    }
    var sector := report.dataMarks - 1;
    var offset := ((at.track * 2 + at.side) * 18 + sector) * SECTOR_BYTES;
    if offset + SECTOR_BYTES <= |image| {
      if image[offset..offset + SECTOR_BYTES] != payload {
        report := report.(payloadMismatches := report.payloadMismatches + 1);
      } else {
        report := report.(sectorsVerified := report.sectorsVerified + 1);
      }
    }
  }

  // ---------- what it reports about a track of this program ----------

  lemma {:induction false} SkipJunk(junk: seq<byte>, rest: seq<byte>, image: seq<byte>, at: Place, r: Report)
    requires forall i :: 0 <= i < |junk| ==> !MatchAt(junk + rest, MARKS, i)
    ensures Scan(junk + rest, image, at, r) == Scan(rest, image, at, r)
    decreases |junk|
  {
    hide Compared;
    if junk == [] {
      assert junk + rest == rest;
    } else {
      var s := junk + rest;
      assert s[1..] == junk[1..] + rest;
      forall i | 0 <= i < |junk[1..]|
        ensures !MatchAt(junk[1..] + rest, MARKS, i)
      {
        assert !MatchAt(s, MARKS, i + 1);
      }
      SkipJunk(junk[1..], rest, image, at, r);
      assert !MatchAt(s, MARKS, 0);
      if |s| < 4 { ShortScan(rest, image, at, r); }
    }
  }

  lemma ShortScan(s: seq<byte>, image: seq<byte>, at: Place, r: Report)
    requires |s| < 4
    ensures Scan(s, image, at, r) == r
  {}

  lemma JunkBeforeField(junk: seq<byte>, field: seq<byte>, rest: seq<byte>, image: seq<byte>, at: Place, r: Report)
    requires NoSyncBefore(junk) && IsField(field)
    ensures Scan(junk + (field + rest), image, at, r) == Scan(field + rest, image, at, r)
  {
    hide Scan, MatchAt;
    var record := field + rest;
    assert record[..3] == field[..3];
    forall i | 0 <= i < |junk|
      ensures !MatchAt(junk + record, MARKS, i)
    {
      SyncFromStart(junk, record, i);
    }
    SkipJunk(junk, record, image, at, r);
  }

  lemma IdIsCounted(at: Place, sector: nat, rest: seq<byte>, image: seq<byte>, r: Report)
    requires at.track < TRACKS && at.side < 2 && sector < MFM_SECTORS
    ensures Scan(IdField(at, sector) + rest, image, at, r)
         == Scan(IdField(at, sector)[1..] + rest, image, at, r.(addressMarks := r.addressMarks + 1))
  {
    hide IdPayload, MfmCrc, Compared;
    var id := IdField(at, sector);
    FieldParts(0xfe, IdPayload(at, sector), 0xa1);
    StartsWithMarks(id);
    assert (id + rest)[1..] == id[1..] + rest;
  }

  lemma IdTailHasNoSync(at: Place, sector: nat)
    requires at.track < TRACKS && at.side < 2 && sector < MFM_SECTORS
    ensures NoSyncBefore(IdField(at, sector)[1..] + MfmGap())
  {
    hide IdPayload, MfmCrc, HighByte, LowByte;
    var id := IdField(at, sector);
    IdNumbers(at, sector);
    FieldParts(0xfe, IdPayload(at, sector), 0xa1);
    var junk := id[1..] + MfmGap();
    var s := junk + MARKS;
    assert s[2] == id[3] == 0xfe;
    assert s[3] == id[4] == id[4..8][0] && s[5] == id[6] == id[4..8][2] && s[6] == id[7] == id[4..8][3];
    assert s[9] == 0x4e;
    forall i | 0 <= i < |junk|
      ensures !MatchAt(s, MARKS, i)
    {
      if i >= 9 {
        assert s[i] != 0xa1;
      } else if i < 3 {
        assert s[2] != 0xa1;
      } else {
        SmallBytesAreNoMarks(at.track, s[3]);
        SmallBytesAreNoMarks(sector + 1, s[5]);
        SmallBytesAreNoMarks(2, s[6]);
      }
    }
  }

  lemma SmallBytesAreNoMarks(n: nat, b: byte)
    requires n < 80 && b as nat == n
    ensures b != 0xa1
  {}

  /** The sector of `image` is the one `m` shows. */
  predicate Agrees(m: Media, image: seq<byte>, at: Place, sector: nat)
  {
    MfmContent(m, at, sector) == Mid(image, BlockOf(true, true, at.track, at.side, sector) * SECTOR_BYTES, SECTOR_BYTES)
  }

  /** How many sectors agree, from number `sector` on. */
  function Agreeing(m: Media, image: seq<byte>, at: Place, sector: nat): (n: nat)
    requires sector <= MFM_SECTORS
    ensures n <= MFM_SECTORS - sector
    ensures n == MFM_SECTORS - sector <==> forall k :: sector <= k < MFM_SECTORS ==> Agrees(m, image, at, k)
    decreases MFM_SECTORS - sector
  {
    if sector == MFM_SECTORS then 0
    else (if Agrees(m, image, at, sector) then 1 else 0) + Agreeing(m, image, at, sector + 1)
  }

  lemma DataIsCompared(m: Media, image: seq<byte>, at: Place, sector: nat, rest: seq<byte>, r: Report)
    requires m.Valid() && m.highDensity && m.Inserted() && IsPlace(true, true, at.track, at.side, sector)
    requires r.dataMarks == sector && |image| == |m.data|
    ensures var verified := if Agrees(m, image, at, sector) then 1 else 0;
            Scan(DataField(MfmContent(m, at, sector)) + rest, image, at, r)
            == Scan(rest, image, at, r.(dataMarks := sector + 1, sectorsVerified := r.sectorsVerified + verified,
                                        payloadMismatches := r.payloadMismatches + (1 - verified)))
  {
    hide MfmContent, MfmField, MfmCrc, CheckHolds, ReadBe32;
    var content := MfmContent(m, at, sector);
    var record := DataField(content);
    ContentIsBlock(m, at, sector);
    FieldChecks(0xfb, content, 0xa1);
    FieldParts(0xfb, content, 0xa1);
    StartsWithMarks(record);
    var s := record + rest;
    assert s[..MFM_DATA] == record && s[MFM_DATA..] == rest;
    assert MatchAt(s, MARKS, 0) && s[3] == 0xfb;
    assert record[4..4 + SECTOR_BYTES] == content;
  }

  /** One sector behind a stretch without sync bytes. */
  lemma SectorIsCompared(m: Media, image: seq<byte>, at: Place, sector: nat, gap: seq<byte>, rest: seq<byte>, r: Report)
    requires m.Valid() && m.highDensity && m.Inserted() && IsPlace(true, true, at.track, at.side, sector)
    requires NoSyncBefore(gap) && r.dataMarks == sector && |image| == |m.data|
    ensures var verified := if Agrees(m, image, at, sector) then 1 else 0;
            Scan(gap + IdField(at, sector) + (MfmGap() + DataField(MfmContent(m, at, sector))) + rest, image, at, r)
            == Scan(rest, image, at, r.(addressMarks := r.addressMarks + 1, dataMarks := sector + 1,
                                        sectorsVerified := r.sectorsVerified + verified,
                                        payloadMismatches := r.payloadMismatches + (1 - verified)))
  {
    hide Scan, MfmContent, IdField, MfmField, MfmGap, NoSyncBefore, ReadBe32, IsField, Agrees;
    var id, data := IdField(at, sector), DataField(MfmContent(m, at, sector));
    var r1 := r.(addressMarks := r.addressMarks + 1);
    Regroup(gap, id, MfmGap(), data, rest);
    FieldsOfSector(m, at, sector);
    JunkBeforeField(gap, id, MfmGap() + data + rest, image, at, r);
    IdIsCounted(at, sector, MfmGap() + data + rest, image, r);
    Regroup([], id[1..], MfmGap(), data, rest);
    IdTailHasNoSync(at, sector);
    JunkBeforeField(id[1..] + MfmGap(), data, rest, image, at, r1);
    DataIsCompared(m, image, at, sector, rest, r1);
  }

  /** Sector by sector, from any stretch without sync bytes on. */
  lemma {:induction false} SectorsAreCompared(m: Media, image: seq<byte>, at: Place, sector: nat, gap: seq<byte>, r: Report)
    requires m.Valid() && m.highDensity && m.Inserted() && at.track < TRACKS && at.side < 2 && sector <= MFM_SECTORS
    requires NoSyncBefore(gap + Repeat(0x00, 12)) && r.dataMarks == sector && |image| == |m.data|
    requires sector == MFM_SECTORS ==> gap == Repeat(0x4e, 101)
    ensures var left, verified := MFM_SECTORS - sector, Agreeing(m, image, at, sector);
            Scan(gap + MfmSectors(m, at, sector), image, at, r)
            == r.(addressMarks := r.addressMarks + left, dataMarks := MFM_SECTORS,
                  sectorsVerified := r.sectorsVerified + verified, payloadMismatches := r.payloadMismatches + (left - verified))
    decreases MFM_SECTORS - sector
  {
    hide Scan, MfmSectors, MfmContent, IdField, MfmField, MfmGap, NoSyncBefore, ReadBe32, IsField, Agrees;
    if sector == MFM_SECTORS {
      NoMoreSectors(m, at, 101);
      SkipJunk(Repeat(0x4e, 303), [], image, at, r);
      ShortScan([], image, at, r);
      assert Repeat(0x4e, 303) + [] == Repeat(0x4e, 303);
    } else {
      var rest := Repeat(0x4e, 101) + MfmSectors(m, at, sector + 1);
      SectorsStep(m, at, sector, gap);
      SectorIsCompared(m, image, at, sector, gap + Repeat(0x00, 12), rest, r);
      GapHasNoSync();
      var verified := if Agrees(m, image, at, sector) then 1 else 0;
      SectorsAreCompared(m, image, at, sector + 1, Repeat(0x4e, 101),
        r.(addressMarks := r.addressMarks + 1, dataMarks := sector + 1, sectorsVerified := r.sectorsVerified + verified,
            payloadMismatches := r.payloadMismatches + (1 - verified)));
    }
  }

  lemma FieldsOfSector(m: Media, at: Place, sector: nat)
    requires m.Valid() && m.highDensity && m.Inserted() && IsPlace(true, true, at.track, at.side, sector)
    ensures IsField(IdField(at, sector)) && IsField(DataField(MfmContent(m, at, sector)))
  {
    hide IdPayload, MfmContent, MfmCrc, ReadBe32;
    ContentIsBlock(m, at, sector);
    FieldParts(0xfe, IdPayload(at, sector), 0xa1);
    FieldParts(0xfb, MfmContent(m, at, sector), 0xa1);
  }

  lemma Regroup(a: seq<byte>, id: seq<byte>, gap: seq<byte>, data: seq<byte>, rest: seq<byte>)
    ensures a + id + (gap + data) + rest == a + (id + (gap + data + rest))
    ensures id + (gap + data + rest) == id + gap + (data + rest)
  {}

  lemma SelfAgrees(m: Media, at: Place, sector: nat)
    ensures Agrees(m, m.data, at, sector)
  {}

  /**
   On every track of every high-density image, whatever its sectors hold, the probe finds eighteen
   address marks, eighteen data marks and no bad check. It verifies the sectors that agree with the
   image it compares with and reports the others, so it reads clean exactly if all of them agree.
   */
  lemma TrackReadsClean(m: Media, image: seq<byte>, at: Place)
    requires m.Valid() && m.highDensity && m.Inserted() && at.track < TRACKS && at.side < 2 && |image| == |m.data|
    ensures var report := Scan(MfmTrack(m, at), image, at, NOTHING_SEEN);
            && report.addressMarks == report.dataMarks == 18 && report.crcFailures == 0
            && report.sectorsVerified + report.payloadMismatches == 18
            && (report.payloadMismatches == 0 <==> forall k :: 0 <= k < MFM_SECTORS ==> Agrees(m, image, at, k))
    ensures Scan(MfmTrack(m, at), m.data, at, NOTHING_SEEN) == Report(18, 18, 18, 0, 0)
  {
    hide Scan, MfmSectors, MfmLead, NoSyncBefore, ReadBe32, Agreeing, Agrees;
    GapHasNoSync();
    SectorsAreCompared(m, image, at, 0, MfmLead(), NOTHING_SEEN);
    SectorsAreCompared(m, m.data, at, 0, MfmLead(), NOTHING_SEEN);
    forall k | 0 <= k < MFM_SECTORS
      ensures Agrees(m, m.data, at, k)
    {
      SelfAgrees(m, at, k);
    }
  }

  // ---------- a data field that was replaced ----------

  /** A complete field in the place of a data field. */
  predicate IsDataField(field: seq<byte>) { |field| == 518 && field[..3] == MARKS && field[3] == 0xfb }

  /** The sectors from number `sector` on, with another data field for sector `n`. */
  function SectorsWith(m: Media, at: Place, sector: nat, n: nat, field: seq<byte>): seq<byte>
    requires at.track < TRACKS && at.side < 2 && sector <= n < MFM_SECTORS
    decreases n - sector
  {
    if sector < n then MfmSector(m, at, sector) + SectorsWith(m, at, sector + 1, n, field)
    else Repeat(0x00, 12) + IdField(at, n) + (MfmGap() + field) + (Repeat(0x4e, 101) + MfmSectors(m, at, n + 1))
  }

  lemma FieldIsCompared(m: Media, at: Place, n: nat, field: seq<byte>, rest: seq<byte>, r: Report)
    requires m.Valid() && m.highDensity && m.Inserted() && IsPlace(true, true, at.track, at.side, n)
    requires r.dataMarks == n && IsDataField(field)
    ensures var bad, differs := if CheckHolds(field) then 0 else 1, if field[4..516] == MfmContent(m, at, n) then 0 else 1;
            Scan(field + rest, m.data, at, r)
            == Scan(rest, m.data, at, r.(dataMarks := n + 1, crcFailures := r.crcFailures + bad,
                                         sectorsVerified := r.sectorsVerified + (1 - differs),
                                         payloadMismatches := r.payloadMismatches + differs))
  {
    hide MfmCrc, CheckHolds, ReadBe32;
    ContentIsBlock(m, at, n);
    StartsWithMarks(field);
    var s := field + rest;
    assert s[..MFM_DATA] == field && s[MFM_DATA..] == rest;
    assert MatchAt(s, MARKS, 0) && s[3] == 0xfb;
  }

  lemma ReplacedIsCompared(m: Media, at: Place, n: nat, field: seq<byte>, gap: seq<byte>, rest: seq<byte>, r: Report)
    requires m.Valid() && m.highDensity && m.Inserted() && IsPlace(true, true, at.track, at.side, n)
    requires NoSyncBefore(gap) && r.dataMarks == n && IsDataField(field)
    ensures var bad, differs := if CheckHolds(field) then 0 else 1, if field[4..516] == MfmContent(m, at, n) then 0 else 1;
            Scan(gap + IdField(at, n) + (MfmGap() + field) + rest, m.data, at, r)
            == Scan(rest, m.data, at, r.(addressMarks := r.addressMarks + 1, dataMarks := n + 1, crcFailures := r.crcFailures + bad,
                                         sectorsVerified := r.sectorsVerified + (1 - differs),
                                         payloadMismatches := r.payloadMismatches + differs))
  {
    hide Scan, MfmContent, IdField, MfmField, MfmGap, NoSyncBefore, ReadBe32, CheckHolds;
    var id := IdField(at, n);
    var r1 := r.(addressMarks := r.addressMarks + 1);
    Regroup(gap, id, MfmGap(), field, rest);
    FieldsOfSector(m, at, n);
    JunkBeforeField(gap, id, MfmGap() + field + rest, m.data, at, r);
    IdIsCounted(at, n, MfmGap() + field + rest, m.data, r);
    Regroup([], id[1..], MfmGap(), field, rest);
    IdTailHasNoSync(at, n);
    JunkBeforeField(id[1..] + MfmGap(), field, rest, m.data, at, r1);
    FieldIsCompared(m, at, n, field, rest, r1);
  }

  lemma AllAgree(m: Media, at: Place, sector: nat)
    requires sector <= MFM_SECTORS
    ensures Agreeing(m, m.data, at, sector) == MFM_SECTORS - sector
  {
    hide Agreeing, Agrees;
    forall k | sector <= k < MFM_SECTORS
      ensures Agrees(m, m.data, at, k)
    {
      SelfAgrees(m, at, k);
    }
  }

  lemma RestIsClean(m: Media, at: Place, sector: nat, r: Report)
    requires m.Valid() && m.highDensity && m.Inserted() && at.track < TRACKS && at.side < 2 && sector <= MFM_SECTORS
    requires r.dataMarks == sector
    ensures Scan(Repeat(0x4e, 101) + MfmSectors(m, at, sector), m.data, at, r)
         == r.(addressMarks := r.addressMarks + (18 - sector), dataMarks := 18, sectorsVerified := r.sectorsVerified + (18 - sector))
  {
    hide Scan, MfmSectors, NoSyncBefore, ReadBe32, Agreeing;
    GapHasNoSync();
    AllAgree(m, at, sector);
    SectorsAreCompared(m, m.data, at, sector, Repeat(0x4e, 101), r);
  }

  lemma ReplacedThenRest(m: Media, at: Place, n: nat, field: seq<byte>, gap: seq<byte>, r: Report)
    requires m.Valid() && m.highDensity && m.Inserted() && IsPlace(true, true, at.track, at.side, n)
    requires NoSyncBefore(gap + Repeat(0x00, 12)) && r.dataMarks == n && IsDataField(field)
    ensures var bad, differs := if CheckHolds(field) then 0 else 1, if field[4..516] == MfmContent(m, at, n) then 0 else 1;
            Scan(gap + SectorsWith(m, at, n, n, field), m.data, at, r)
            == r.(addressMarks := r.addressMarks + (18 - n), dataMarks := 18, crcFailures := r.crcFailures + bad,
                  sectorsVerified := r.sectorsVerified + (18 - n) - differs,
                  payloadMismatches := r.payloadMismatches + differs)
  {
    hide Scan, MfmSectors, SectorsWith, MfmContent, IdField, MfmGap, NoSyncBefore, ReadBe32, CheckHolds;
    var rest := Repeat(0x4e, 101) + MfmSectors(m, at, n + 1);
    GapAndReplaced(m, at, n, gap, field);
    ReplacedIsCompared(m, at, n, field, gap + Repeat(0x00, 12), rest, r);
    var bad, differs := if CheckHolds(field) then 0 else 1, if field[4..516] == MfmContent(m, at, n) then 0 else 1;
    RestIsClean(m, at, n + 1,
      r.(addressMarks := r.addressMarks + 1, dataMarks := n + 1, crcFailures := r.crcFailures + bad,
          sectorsVerified := r.sectorsVerified + (1 - differs), payloadMismatches := r.payloadMismatches + differs));
  }

  lemma {:induction false} SectorsWithAreCompared(m: Media, at: Place, sector: nat, n: nat, field: seq<byte>, gap: seq<byte>, r: Report)
    requires m.Valid() && m.highDensity && m.Inserted() && at.track < TRACKS && at.side < 2 && sector <= n < MFM_SECTORS
    requires NoSyncBefore(gap + Repeat(0x00, 12)) && r.dataMarks == sector && IsDataField(field)
    ensures var bad, differs := if CheckHolds(field) then 0 else 1, if field[4..516] == MfmContent(m, at, n) then 0 else 1;
            Scan(gap + SectorsWith(m, at, sector, n, field), m.data, at, r)
            == r.(addressMarks := r.addressMarks + (18 - sector), dataMarks := 18, crcFailures := r.crcFailures + bad,
                  sectorsVerified := r.sectorsVerified + (18 - sector) - differs,
                  payloadMismatches := r.payloadMismatches + differs)
    decreases n - sector
  {
    hide Scan, MfmSectors, MfmContent, IdField, MfmField, MfmGap, NoSyncBefore, ReadBe32, IsField, Agrees, CheckHolds, Agreeing;
    GapHasNoSync();
    if sector < n {
      var rest := SectorsWith(m, at, sector + 1, n, field);
      GapAndSector(m, at, sector, gap, rest);
      SectorIsCompared(m, m.data, at, sector, gap + Repeat(0x00, 12), Repeat(0x4e, 101) + rest, r);
      SelfAgrees(m, at, sector);
      SectorsWithAreCompared(m, at, sector + 1, n, field, Repeat(0x4e, 101),
        r.(addressMarks := r.addressMarks + 1, dataMarks := sector + 1, sectorsVerified := r.sectorsVerified + 1));
    } else {
      ReplacedThenRest(m, at, n, field, gap, r);
    }
  }

  lemma GapAndReplaced(m: Media, at: Place, n: nat, gap: seq<byte>, field: seq<byte>)
    requires at.track < TRACKS && at.side < 2 && n < MFM_SECTORS
    ensures gap + SectorsWith(m, at, n, n, field)
         == gap + Repeat(0x00, 12) + IdField(at, n) + (MfmGap() + field) + (Repeat(0x4e, 101) + MfmSectors(m, at, n + 1))
  {
    hide IdField, MfmGap, MfmSectors;
  }

  lemma GapAndSector(m: Media, at: Place, sector: nat, gap: seq<byte>, rest: seq<byte>)
    requires at.track < TRACKS && at.side < 2 && sector < MFM_SECTORS
    ensures gap + (MfmSector(m, at, sector) + rest)
         == gap + Repeat(0x00, 12) + IdField(at, sector) + (MfmGap() + DataField(MfmContent(m, at, sector))) + (Repeat(0x4e, 101) + rest)
  {
    hide IdField, DataField, MfmContent, MfmGap;
  }

  /** Those sectors are the track with the field put in its place. */
  lemma {:induction false} SectorsWithReplace(m: Media, at: Place, sector: nat, n: nat, field: seq<byte>)
    requires m.Valid() && m.highDensity && m.Inserted() && at.track < TRACKS && at.side < 2 && sector <= n < MFM_SECTORS
    requires |field| == 518
    ensures var s, start := MfmSectors(m, at, sector), 675 * (n - sector) + 56;
            start + 518 <= |s| && SectorsWith(m, at, sector, n, field) == s[..start] + field + s[start + 518..]
    decreases n - sector
  {
    hide MfmSectors, MfmSector, IdField, MfmGap, MfmContent, Media.Valid, ReadBe32;
    NextMfmSector(m, at, sector);
    var rest := MfmSectors(m, at, sector + 1);
    if sector < n {
      SectorsWithReplace(m, at, sector + 1, n, field);
      ReplaceBehind(MfmSector(m, at, sector), rest, 675 * (n - sector - 1) + 56, field);
    } else {
      ReplaceWithin(m, at, n, field, rest);
    }
  }

  lemma ReplaceBehind(a: seq<byte>, s: seq<byte>, start: nat, field: seq<byte>)
    requires |field| == 518 && start + 518 <= |s|
    ensures a + (s[..start] + field + s[start + 518..]) == (a + s)[..|a| + start] + field + (a + s)[|a| + start + 518..]
  {}

  lemma ReplaceWithin(m: Media, at: Place, n: nat, field: seq<byte>, rest: seq<byte>)
    requires m.Valid() && m.highDensity && m.Inserted() && IsPlace(true, true, at.track, at.side, n) && |field| == 518
    ensures var s := MfmSector(m, at, n) + rest;
            |s| >= 574
            && Repeat(0x00, 12) + IdField(at, n) + (MfmGap() + field) + (Repeat(0x4e, 101) + rest) == s[..56] + field + s[574..]
  {
    hide IdField, DataField, MfmContent, MfmGap, ReadBe32;
    ContentIsBlock(m, at, n);
  }

  /**
   Whatever stands in the place of one data field, the probe counts a bad check exactly if its
   stored check is wrong, which is if the check over the whole field is not zero, and a mismatch
   exactly if its content differs from the image.
   */
  lemma DamageIsReported(m: Media, at: Place, n: nat, field: seq<byte>)
    requires m.Valid() && m.highDensity && m.Inserted() && IsPlace(true, true, at.track, at.side, n)
    requires |field| == 518 && field[..4] == [0xa1, 0xa1, 0xa1, 0xfb]
    ensures var s, start := MfmTrack(m, at), 148 + 675 * n + 56;
            var bad, differs := if MfmCrc(field) == 0 then 0 else 1, if field[4..516] == MfmContent(m, at, n) then 0 else 1;
            && start + 518 <= |s|
            && Scan(s[..start] + field + s[start + 518..], m.data, at, NOTHING_SEEN) == Report(18, 18, 18 - differs, bad, differs)
  {
    hide Scan, MfmTrack, SectorsWith, MfmLead, NoSyncBefore, CheckHolds, MfmCrc, MfmContent, ReadBe32, MatchAt;
    OpensDataField(field);
    CheckIsResidue(field);
    GapHasNoSync();
    SectorsWithAreCompared(m, at, 0, n, field, MfmLead(), NOTHING_SEEN);
    TrackReplaced(m, at, n, field);
  }

  lemma OpensDataField(field: seq<byte>)
    requires |field| == 518 && field[..4] == [0xa1, 0xa1, 0xa1, 0xfb]
    ensures IsDataField(field)
  {
    assert field[..3] == field[..4][..3] && field[3] == field[..4][3];
  }

  lemma TrackReplaced(m: Media, at: Place, n: nat, field: seq<byte>)
    requires m.Valid() && m.highDensity && m.Inserted() && IsPlace(true, true, at.track, at.side, n) && |field| == 518
    ensures var s, start := MfmTrack(m, at), 148 + 675 * n + 56;
            start + 518 <= |s| && s[..start] + field + s[start + 518..] == MfmLead() + SectorsWith(m, at, 0, n, field)
  {
    hide MfmSectors, SectorsWith, MfmLead, ReadBe32;
    SectorsWithReplace(m, at, 0, n, field);
    ReplaceBehind(MfmLead(), MfmSectors(m, at, 0), 675 * n + 56, field);
  }
}
