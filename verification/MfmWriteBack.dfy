/**
 Writing a high-density track back onto a disk, byte by byte. Besides the fields themselves this
 rests on the sector register: a write that finds it unset and the buffer empty sets it from the
 cached track, which must not get in the way of the sector numbers that are written.
 */
module MfmWriteBack {
  import opened Bytes
  import opened FloppyGeometry
  import opened FloppyMedia
  import opened FloppyTracks
  import opened FloppyWrites
  import opened FloppyDrive
  import opened FloppyRuns
  import opened FloppyCopies
  import opened MfmCheck

  // ---------- quiet stretches ----------

  const MARKS: seq<byte> := [0xa1, 0xa1, 0xa1]

  /** No proper prefix of `s` does anything, and each leaves something in the buffer. */
  ghost predicate Quiet(host: Host, at: Place, m: Media, s: seq<byte>)
  {
    forall j :: 0 < j < |s| ==> QuietParse(host, at, m, s[..j])
  }

  ghost predicate QuietParse(host: Host, at: Place, m: Media, s: seq<byte>)
  {
    var r := Parse(host, at, m, s);
    r.media == m && !r.committed && r.rest != []
  }

  /** No sync bytes start in `s`. */
  predicate NoSync(s: seq<byte>) { forall i :: 0 <= i < |s| ==> !MatchAt(s, MARKS, i) }

  /** Not even together with sync bytes behind it. */
  predicate NoSyncBefore(junk: seq<byte>) { forall i :: 0 <= i < |junk| ==> !MatchAt(junk + MARKS, MARKS, i) }

  lemma NoSyncIsQuiet(host: Host, at: Place, m: Media, s: seq<byte>)
    requires m.highDensity && s != [] && NoSync(s)
    ensures Parse(host, at, m, s) == Parsed(m, Tail(s), false) && QuietParse(host, at, m, s)
  {
    assert Find(s, MARKS, 0) == -1;
  }

  /** A complete ID or data field. */
  predicate IsField(record: seq<byte>)
  {
    && |record| >= 4 && record[..3] == MARKS
    && ((record[3] == 0xfe && |record| == MFM_ID) || ((record[3] == 0xfb || record[3] == 0xf8) && |record| == MFM_DATA))
  }

  lemma FieldPrefixIsQuiet(host: Host, at: Place, m: Media, junk: seq<byte>, record: seq<byte>, j: nat)
    requires m.highDensity && NoSyncBefore(junk) && IsField(record) && 0 < j < |junk + record|
    ensures QuietParse(host, at, m, (junk + record)[..j])
  {
    hide Act, Take;
    var s := (junk + record)[..j];
    forall i | 0 <= i < |junk| && i + 3 <= j
      ensures !MatchAt(s, MARKS, i)
    {
      assert (junk + MARKS)[..|junk| + 3] == (junk + record)[..|junk| + 3];
      assert !MatchAt(junk + MARKS, MARKS, i);
    }
    if j < |junk| + 3 {
      assert NoSync(s);
      NoSyncIsQuiet(host, at, m, s);
    } else {
      var started := record[..j - |junk|];
      assert s == junk + started;
      assert s[|junk|] == started[0] == record[..3][0] && s[|junk| + 1] == started[1] == record[..3][1]
             && s[|junk| + 2] == started[2] == record[..3][2];
      FindIs(s, MARKS, |junk|);
      assert s[|junk|..] == started;
      StartedFieldWaits(record, j - |junk|);
      ParseStops(host, at, m, s);
    }
  }

  lemma StartedFieldWaits(record: seq<byte>, j: nat)
    requires IsField(record) && 3 <= j < |record|
    ensures Take(true, record[..j]) == 0 && Take(true, record) == |record|
  {}

  lemma FieldParses(host: Host, at: Place, m: Media, junk: seq<byte>, record: seq<byte>)
    requires m.highDensity && NoSyncBefore(junk) && IsField(record)
    ensures Quiet(host, at, m, junk + record)
    ensures var done := Act(host, at, m, record);
            Parse(host, at, m, junk + record) == Parsed(done.media, [], done.committed)
  {
    hide Act, Parse, MatchAt;
    forall j | 0 < j < |junk + record|
      ensures QuietParse(host, at, m, (junk + record)[..j])
    {
      FieldPrefixIsQuiet(host, at, m, junk, record, j);
    }
    StartedFieldWaits(record, 3);
    forall i | 0 <= i < |junk|
      ensures !MatchAt(junk + record, MARKS, i)
    {
      SyncFromStart(junk, record, i);
    }
    assert MatchAt(record, MARKS, 0) by { StartsWithMarks(record); }
    ParseRecord(host, at, m, junk, record, []);
    assert junk + record + [] == junk + record;
    EmptyParse(host, at, Act(host, at, m, record).media);
  }

  lemma SyncFromStart(junk: seq<byte>, record: seq<byte>, i: nat)
    requires |record| >= 3 && record[..3] == MARKS && i < |junk|
    ensures MatchAt(junk + record, MARKS, i) == MatchAt(junk + MARKS, MARKS, i)
  {
    assert (junk + MARKS)[..|junk| + 3] == (junk + record)[..|junk| + 3];
    assert forall k :: 0 <= k < |junk| + 3 ==> (junk + MARKS)[k] == (junk + record)[..|junk| + 3][k];
  }

  lemma StartsWithMarks(record: seq<byte>)
    requires |record| >= 3 && record[..3] == MARKS
    ensures MatchAt(record, MARKS, 0)
  {
    assert record[0] == record[..3][0] && record[1] == record[..3][1] && record[2] == record[..3][2];
  }

  lemma EmptyParse(host: Host, at: Place, m: Media)
    ensures Parse(host, at, m, []) == Parsed(m, [], false)
  {}

  /** Two caches of the same bytes. */
  predicate SameTrack(before: TrackCache, after: TrackCache) { after == before.(cursor := after.cursor) }

  lemma CachedIsRefreshed(d: Drive)
    requires d.Valid() && d.Cached()
    ensures d.Refreshed() == d
  {}

  /** A quiet string written into an empty buffer does what parsing it does; the register is set at its first byte. */
  lemma {:induction false} WriteQuiet(host: Host, d: Drive, s: seq<byte>)
    requires Writing(d) && d.media.highDensity && d.written == [] && s != []
    requires Quiet(host, d.At(), d.Refreshed().Armed(), s)
    ensures var r := Parse(host, d.At(), d.Refreshed().Armed(), s);
            var after := WriteAll(host, d, s);
            && after.media == r.media && after.written == r.rest && Writing(after) && after.At() == d.At()
            && (!r.committed ==> SameTrack(d.Refreshed().cache, after.cache) && after.Cached())
    decreases |s|
  {
    hide Parse, Drive.Write, Drive.Refreshed, Waiting, Media.Valid, LastIdBefore;
    var m := d.Refreshed().Armed();
    RefreshedIsCached(d);
    var start, last := s[..|s| - 1], s[|s| - 1];
    RefreshKeepsMedia(d);
    if |s| == 1 {
      WriteIsParse(host, d, last);
      assert [] + [last] == s;
      assert WriteAll(host, d, start) == d;
    } else {
      forall j | 0 < j < |start|
        ensures QuietParse(host, d.At(), m, start[..j])
      {
        assert start[..j] == s[..j];
      }
      WriteQuiet(host, d, start);
      assert QuietParse(host, d.At(), m, s[..|s| - 1]);
      var before := WriteAll(host, d, start);
      WriteIsParse(host, before, last);
      RefreshKeepsMedia(before);
      CachedIsRefreshed(before);
      ParseInTwoParts(host, d.At(), m, start, [last]);
      assert start + [last] == s;
    }
  }

  /** Writing a field behind junk into an empty buffer acts on that field. */
  lemma WriteField(host: Host, d: Drive, junk: seq<byte>, record: seq<byte>)
    requires Writing(d) && d.media.highDensity && d.written == [] && NoSyncBefore(junk) && IsField(record)
    ensures var after := WriteAll(host, d, junk + record);
            var done := Act(host, d.At(), d.Refreshed().Armed(), record);
            && after.media == done.media && after.written == [] && Writing(after) && after.At() == d.At()
            && (!done.committed ==> SameTrack(d.Refreshed().cache, after.cache) && after.Cached())
  {
    hide Act, Parse, Drive.Refreshed, Drive.Valid, Quiet, LastIdBefore;
    RefreshKeepsMedia(d);
    FieldParses(host, d.At(), d.Refreshed().Armed(), junk, record);
    WriteQuiet(host, d, junk + record);
  }

  // ---------- the two fields of a sector ----------

  lemma FieldChecks(kind: byte, payload: seq<byte>, mark: byte)
    ensures CheckHolds(MfmField(kind, payload, mark))
  {
    hide MfmCrc;
    var covered := [mark, mark, mark, kind] + payload;
    assert Covered(MfmField(kind, payload, mark)) == covered;
    JoinSplit(MfmCrc(covered));
  }

  /** The ID field of a sector names it, whatever the register held before. */
  lemma IdFieldActs(host: Host, at: Place, m: Media, sector: nat)
    requires m.highDensity && at.track < TRACKS && at.side < 2 && sector < MFM_SECTORS
    ensures IsField(IdField(at, sector)) && Act(host, at, m, IdField(at, sector)) == Acted(m.(sector := sector), false)
  {
    hide CheckHolds, MfmField, IdPayload, MfmCrc;
    FieldChecks(0xfe, IdPayload(at, sector), 0xa1);
    IdNumbers(at, sector);
    FieldParts(0xfe, IdPayload(at, sector), 0xa1);
    var record := IdField(at, sector);
    assert record[4..8] == IdPayload(at, sector);
    assert forall i :: 0 <= i < 4 ==> record[4 + i] == record[4..8][i];
  }

  lemma IdNumbers(at: Place, sector: nat)
    requires at.track < TRACKS && at.side < 2 && sector < MFM_SECTORS
    ensures var id := IdPayload(at, sector);
            id[0] as nat == at.track && id[1] as nat == at.side && id[2] as nat == sector + 1 && id[3] == 2
  {
    SmallByte(at.track);
    SmallByte(at.side);
    SmallByte(sector + 1);
  }

  lemma SmallByte(n: nat)
    requires n < 80
    ensures n as byte as nat == n
  {}

  lemma FieldParts(kind: byte, payload: seq<byte>, mark: byte)
    ensures var field := MfmField(kind, payload, mark);
            && field[..3] == [mark, mark, mark] && field[3] == kind && field[4..4 + |payload|] == payload
            && field[..4 + |payload|] == [mark, mark, mark, kind] + payload
            && Covered(field) == [mark, mark, mark, kind] + payload
  {
    hide MfmCrc;
  }

  lemma DataFieldActs(host: Host, at: Place, m: Media, content: seq<byte>)
    requires m.highDensity && |content| == SECTOR_BYTES && 0 <= m.sector < MFM_SECTORS
    ensures IsField(DataField(content)) && Act(host, at, m, DataField(content)) == Commit(host, at, m, m.sector, content, [])
  {
    hide MfmCrc, CheckHolds, Commit;
    FieldChecks(0xfb, content, 0xa1);
    var record := DataField(content);
    assert record[..3] == MARKS;
    assert record[4..4 + SECTOR_BYTES] == content;
  }

  lemma ArmedChangesRegister(d: Drive, sector: int)
    requires d.Valid()
    ensures d.Refreshed().Armed().(sector := sector) == d.media.(sector := sector)
    ensures d.media.sector >= 0 ==> d.Refreshed().Armed() == d.media
  {
    hide LastIdBefore;
  }

  lemma GapHasNoSync()
    ensures NoSyncBefore(MfmGap()) && NoSyncBefore(Repeat(0x4e, 101) + Repeat(0x00, 12))
    ensures NoSyncBefore(MfmLead() + Repeat(0x00, 12))
  {
    LeadHasNoSync();
  }

  lemma LeadHasNoSync()
    ensures NoSyncBefore(MfmLead() + Repeat(0x00, 12))
  {
    hide MfmCrc;
    var covered: seq<byte> := [0xc2, 0xc2, 0xc2, 0xfc];
    assert covered + [] == covered;
    var field := covered + [HighByte(MfmCrc(covered)), LowByte(MfmCrc(covered))];
    assert MfmField(0xfc, [], 0xc2) == field;
    var junk := MfmLead() + Repeat(0x00, 12);
    assert junk == Repeat(0x4e, 80) + Repeat(0x00, 12) + field + Repeat(0x4e, 50) + Repeat(0x00, 12);
    forall i | 0 <= i < |junk|
      ensures !MatchAt(junk + MARKS, MARKS, i)
    {
      if i < 92 || i >= 98 {
        assert (junk + MARKS)[i] != 0xa1;
      } else {
        assert (junk + MARKS)[95] == 0xfc && (junk + MARKS)[98] == 0x4e;
        assert (junk + MARKS)[i] != 0xa1 || (junk + MARKS)[i + 1] != 0xa1 || (junk + MARKS)[i + 2] != 0xa1;
      }
    }
  }

  /** One sector behind a stretch without sync bytes: its content is committed to its number. */
  lemma SectorWrites(host: Host, d: Drive, junk: seq<byte>, sector: nat, content: seq<byte>)
    requires Writing(d) && d.media.highDensity && d.written == [] && NoSyncBefore(junk)
    requires sector < MFM_SECTORS && |content| == SECTOR_BYTES
    ensures var after := WriteAll(host, d, junk + IdField(d.At(), sector) + (MfmGap() + DataField(content)));
            && after.media == Commit(host, d.At(), d.media.(sector := sector), sector, content, []).media
            && after.written == [] && Writing(after) && after.At() == d.At()
  {
    hide Act, Commit, WriteAll, Drive.Refreshed, Drive.Armed, IdField, DataField, IsField, NoSyncBefore, LastIdBefore, Waiting, Media.Valid;
    var at := d.At();
    var first, second := junk + IdField(at, sector), MfmGap() + DataField(content);
    RefreshKeepsMedia(d);
    ArmedChangesRegister(d, sector);
    IdFieldActs(host, at, d.Refreshed().Armed(), sector);
    WriteField(host, d, junk, IdField(at, sector));
    var named := WriteAll(host, d, first);
    ArmedChangesRegister(named, sector);
    DataFieldActs(host, at, named.media, content);
    GapHasNoSync();
    WriteField(host, named, MfmGap(), DataField(content));
    WriteAllConcat(host, d, first, second);
  }

  // ---------- the sectors of a track ----------

  /** The medium after the sectors of `source` from number `sector` on were committed. */
  function CommitSectors(host: Host, at: Place, m: Media, source: Media, sector: nat): Media
    requires sector <= MFM_SECTORS
    decreases MFM_SECTORS - sector
  {
    if sector == MFM_SECTORS then m
    else
      var done := Commit(host, at, m.(sector := sector), sector, MfmContent(source, at, sector), []);
      CommitSectors(host, at, done.media, source, sector + 1)
  }

  lemma FillerWrites(host: Host, d: Drive, count: nat)
    requires Writing(d) && d.media.highDensity && d.written == [] && d.media.sector >= 0 && count >= 2
    ensures var after := WriteAll(host, d, Repeat(0x4e, count));
            && after.media == d.media && Writing(after) && after.At() == d.At()
  {
    hide Parse, Drive.Refreshed, LastIdBefore, Waiting, Media.Valid;
    var s := Repeat(0x4e, count);
    ArmedChangesRegister(d, 0);
    forall j | 0 < j <= |s|
      ensures QuietParse(host, d.At(), d.media, s[..j])
    {
      NoSyncIsQuiet(host, d.At(), d.media, s[..j]);
    }
    assert s[..|s|] == s;
    WriteQuiet(host, d, s);
  }

  /** What stands between a stretch and the rest of the track, sector by sector. */
  lemma SectorsStep(source: Media, at: Place, sector: nat, gap: seq<byte>)
    requires at.track < TRACKS && at.side < 2 && sector < MFM_SECTORS
    ensures gap + MfmSectors(source, at, sector)
         == gap + Repeat(0x00, 12) + IdField(at, sector) + (MfmGap() + DataField(MfmContent(source, at, sector)))
            + (Repeat(0x4e, 101) + MfmSectors(source, at, sector + 1))
  {
    hide IdField, DataField, MfmContent, MfmGap;
  }

  lemma NoMoreSectors(source: Media, at: Place, gap: nat)
    requires at.track < TRACKS && at.side < 2
    ensures Repeat(0x4e, gap) + MfmSectors(source, at, MFM_SECTORS) == Repeat(0x4e, gap + 202)
  {}

  lemma {:induction false} SectorsWrite(host: Host, d: Drive, gap: seq<byte>, source: Media, sector: nat)
    requires Writing(d) && d.media.highDensity && d.written == [] && d.side < 2
    requires source.Valid() && source.highDensity && source.Inserted() && sector <= MFM_SECTORS
    requires NoSyncBefore(gap + Repeat(0x00, 12))
    requires sector == MFM_SECTORS ==> gap == Repeat(0x4e, 101) && d.media.sector >= 0
    ensures var after := WriteAll(host, d, gap + MfmSectors(source, d.At(), sector));
            && after.media == CommitSectors(host, d.At(), d.media, source, sector) && Writing(after) && after.At() == d.At()
    decreases MFM_SECTORS - sector
  {
    hide WriteAll, Commit, MfmSectors, MfmContent, IdField, DataField, NoSyncBefore, Waiting, Media.Valid, Drive.Write;
    var at := d.At();
    if sector == MFM_SECTORS {
      NoMoreSectors(source, at, 101);
      FillerWrites(host, d, 303);
    } else {
      var content := MfmContent(source, at, sector);
      ContentIsBlock(source, at, sector);
      var front := gap + Repeat(0x00, 12) + IdField(at, sector) + (MfmGap() + DataField(content));
      var rest := Repeat(0x4e, 101) + MfmSectors(source, at, sector + 1);
      SectorsStep(source, at, sector, gap);
      WriteAllConcat(host, d, front, rest);
      SectorWrites(host, d, gap + Repeat(0x00, 12), sector, content);
      CommitKeepsDisk(host, at, d.media.(sector := sector), sector, content, []);
      CommitKeepsRegister(host, at, d.media.(sector := sector), sector, content);
      GapHasNoSync();
      SectorsWrite(host, WriteAll(host, d, front), Repeat(0x4e, 101), source, sector + 1);
    }
  }

  lemma CommitKeepsRegister(host: Host, at: Place, m: Media, sector: nat, content: seq<byte>)
    ensures Commit(host, at, m, sector, content, []).media.sector == m.sector
  {
    hide BlockOf, FileImage, Overwrite;
  }

  // ---------- the theorem ----------

  ghost function SectorBlocks(at: Place, sector: nat): set<nat>
  {
    set s | sector <= s < MFM_SECTORS :: BlockOf(true, true, at.track, at.side, s)
  }

  lemma CommitCopiesBlock(host: Host, at: Place, m: Media, source: Media, sector: nat)
    requires Ready(m) && m.highDensity && SavesSucceed(host, m) && |source.data| == |m.data|
    requires source.Valid() && source.highDensity && source.Inserted() && IsPlace(true, true, at.track, at.side, sector)
    ensures var done := Commit(host, at, m.(sector := sector), sector, MfmContent(source, at, sector), []);
            && Ready(done.media) && SavesSucceed(host, done.media)
            && FileImage(done.media) == Some(done.media.file)
            && Copied(m, source, done.media, {BlockOf(true, true, at.track, at.side, sector)}, false)
  {
    hide FileImage, BlockOf, Commit, Stored, Copied, ReadBe32, MfmContent;
    var named := m.(sector := sector);
    var block := BlockOf(true, true, at.track, at.side, sector);
    ContentIsBlock(source, at, sector);
    CommitStores(host, at, named, sector, MfmContent(source, at, sector), []);
    var r := Commit(host, at, named, sector, MfmContent(source, at, sector), []).media;
    StoredCopies(named, source, block, r, false);
    CopiedFrom(m, named, source, r, {block});
  }

  lemma CopiedFrom(m: Media, named: Media, source: Media, r: Media, blocks: set<nat>)
    requires |source.data| == |m.data| && named == m.(sector := named.sector) && Copied(named, source, r, blocks, false)
    ensures Copied(m, source, r, blocks, false)
  {
    forall b: nat | b < |m.tags|
      ensures r.tags[b] == m.tags[b]
    {
      assert b in blocks || b !in blocks;
    }
    forall b: nat | (b + 1) * SECTOR_BYTES <= |m.data|
      ensures r.Block(b) == if b in blocks then source.Block(b) else m.Block(b)
    {
      assert named.Block(b) == m.Block(b);
    }
  }

  lemma {:induction false} AllSectorsCopied(host: Host, at: Place, m: Media, source: Media, sector: nat)
    requires Ready(m) && m.highDensity && SavesSucceed(host, m) && |source.data| == |m.data|
    requires source.Valid() && source.highDensity && source.Inserted()
    requires at.track < TRACKS && at.side < 2 && sector <= MFM_SECTORS
    requires sector == MFM_SECTORS ==> FileImage(m) == Some(m.file)
    ensures var r := CommitSectors(host, at, m, source, sector);
            && Copied(m, source, r, SectorBlocks(at, sector), false)
            && FileImage(r) == Some(r.file)
    decreases MFM_SECTORS - sector
  {
    hide FileImage, BlockOf, Commit, ReadBe32, MfmContent, Copied;
    if sector == MFM_SECTORS {
      NothingCopied(m, source, false);
      assert SectorBlocks(at, sector) == {};
    } else {
      var block := BlockOf(true, true, at.track, at.side, sector);
      var m1 := Commit(host, at, m.(sector := sector), sector, MfmContent(source, at, sector), []).media;
      CommitCopiesBlock(host, at, m, source, sector);
      AllSectorsCopied(host, at, m1, source, sector + 1);
      CopiedTwice(m, source, m1, CommitSectors(host, at, m, source, sector), {block}, SectorBlocks(at, sector + 1), false);
      assert SectorBlocks(at, sector) == {block} + SectorBlocks(at, sector + 1);
    }
  }

  /**
   Writing the high-density track that `source` shows, byte by byte and with an empty write buffer,
   copies exactly its eighteen sectors, whatever they hold, saves the result and raises no failure.
   */
  lemma TrackWriteBack(host: Host, d: Drive, source: Media)
    requires Writing(d) && d.written == [] && d.media.highDensity && SavesSucceed(host, d.media)
    requires source.Valid() && source.Inserted() && source.highDensity
    ensures d.At().side < 2
    ensures var r := WriteAll(host, d, MfmTrack(source, d.At()));
            && r.media.failed == d.media.failed && Writing(r) && r.At() == d.At()
            && FileImage(r.media) == Some(r.media.file)
            && Copied(d.media, source, r.media, SectorBlocks(d.At(), 0), false)
  {
    hide WriteAll, MfmSectors, Copied, FileImage, CommitSectors, MfmLead, ReadBe32, Waiting, NoSyncBefore;
    GapHasNoSync();
    SectorsWrite(host, d, MfmLead(), source, 0);
    AllSectorsCopied(host, d.At(), d.media, source, 0);
    CopiedFlags(d.media, source, CommitSectors(host, d.At(), d.media, source, 0), SectorBlocks(d.At(), 0), false);
  }

  /** So every sector of any other track or side reads as before. */
  lemma OtherTracksKept(m: Media, source: Media, r: Media, at: Place, track: nat, side: nat, sector: nat)
    requires m.Valid() && m.Inserted() && m.highDensity && |source.data| == |m.data|
    requires Copied(m, source, r, SectorBlocks(at, 0), false)
    requires at.track < TRACKS && at.side < 2 && IsPlace(true, true, track, side, sector) && Place(track, side) != at
    ensures var block := BlockOf(true, true, track, side, sector);
            (block + 1) * SECTOR_BYTES <= |m.data| == |r.data| && r.Block(block) == m.Block(block)
  {
    hide BlockOf, ReadBe32;
    var block := BlockOf(true, true, track, side, sector);
    forall own: nat | own < MFM_SECTORS
      ensures BlockOf(true, true, at.track, at.side, own) != block
    {
      BlocksAreDistinct(true, true, at.track, at.side, own, track, side, sector);
    }
    BlocksAreDistinct(true, true, track, side, sector, track, side, sector);
    assert block !in SectorBlocks(at, 0);
  }

  // ---------- a damaged data field ----------

  /** A field whose check holds is one over which the check is zero. */
  lemma CheckIsResidue(record: seq<byte>)
    requires |record| >= 2
    ensures CheckHolds(record) <==> MfmCrc(record) == 0
  {
    hide MfmCrc, MfmByte, MfmBits, Xor, Join;
    var high, low := record[|record| - 2], record[|record| - 1];
    assert record == Covered(record) + [high, low] + [];
    MfmAround(Covered(record), high, low, []);
    var difference := Xor(MfmCrc(Covered(record)), Join(high, low));
    assert MfmCrc(record) == MfmBits(difference, 16);
    ZeroBits(difference);
    XorZero(MfmCrc(Covered(record)), Join(high, low));
  }

  lemma XorZero(x: word, y: word)
    ensures Xor(x, y) == 0 <==> x == y
  {
    XorTwice(x, y);
    XorNothing(y);
    hide Xor;
  }

  lemma XorTwice(x: word, y: word)
    ensures Xor(Xor(x, y), y) == x
  {}

  lemma XorNothing(y: word)
    ensures Xor(0, y) == y && Xor(y, y) == 0
  {}

  lemma ZeroBits(x: word)
    ensures MfmBits(x, 16) == 0 <==> x == 0
  {
    hide MfmBit;
    ZeroStays(16);
    if MfmBits(x, 16) == 0 {
      MfmBitsInjective(x, 0, 16);
    }
  }

  lemma {:induction false} ZeroStays(n: nat)
    ensures MfmBits(0, n) == 0
  {
    if n > 0 { ZeroStays(n - 1); }
  }

  /**
   Damage confined to two neighbouring bytes of the content or the check of a data field, marked as
   deleted or not, is always noticed: the field is not committed, the failure flag goes up, and image
   and file stay as they are.
   */
  lemma DamagedFieldIsRefused(host: Host, d: Drive, junk: seq<byte>, kind: byte, content: seq<byte>, j: nat, x: byte, y: byte)
    requires Writing(d) && d.media.highDensity && d.written == [] && NoSyncBefore(junk)
    requires (kind == 0xfb || kind == 0xf8) && |content| == SECTOR_BYTES && 4 <= j < MFM_DATA - 1
    requires x != MfmField(kind, content, 0xa1)[j] || y != MfmField(kind, content, 0xa1)[j + 1]
    ensures var after := WriteAll(host, d, junk + MfmField(kind, content, 0xa1)[j := x][j + 1 := y]);
            && after.media == d.media.(failed := true, sector := after.media.sector)
            && after.written == [] && Writing(after)
  {
    hide MfmField, WriteAll, Act, Drive.Refreshed, LastIdBefore, NoSyncBefore, Waiting, Media.Valid;
    var bad := MfmField(kind, content, 0xa1)[j := x][j + 1 := y];
    DamageShows(kind, content, j, x, y);
    WriteField(host, d, junk, bad);
    ArmedChangesRegister(d, 0);
    var m := d.Refreshed().Armed();
    assert m == d.media.(sector := m.sector);
    assert Act(host, d.At(), m, bad) == Acted(m.(failed := true), false) by { RefusedAct(host, d.At(), m, bad); }
  }

  lemma RefusedAct(host: Host, at: Place, m: Media, record: seq<byte>)
    requires m.highDensity && |record| == MFM_DATA && !CheckHolds(record)
    ensures Act(host, at, m, record) == Acted(m.(failed := true), false)
  {
    hide CheckHolds, Commit;
  }

  lemma DamageShows(kind: byte, content: seq<byte>, j: nat, x: byte, y: byte)
    requires (kind == 0xfb || kind == 0xf8) && |content| == SECTOR_BYTES && 4 <= j < MFM_DATA - 1
    requires x != MfmField(kind, content, 0xa1)[j] || y != MfmField(kind, content, 0xa1)[j + 1]
    ensures var bad := MfmField(kind, content, 0xa1)[j := x][j + 1 := y];
            |bad| == MFM_DATA && IsField(bad) && !CheckHolds(bad)
  {
    hide MfmCrc, CheckHolds, HighByte, LowByte;
    var record := MfmField(kind, content, 0xa1);
    var bad := record[j := x][j + 1 := y];
    FieldChecks(kind, content, 0xa1);
    CheckIsResidue(record);
    CheckIsResidue(bad);
    var prefix, suffix := record[..j], record[j + 2..];
    assert record == prefix + [record[j], record[j + 1]] + suffix;
    assert bad == prefix + [x, y] + suffix;
    MfmCrcSeparates(prefix, record[j], record[j + 1], x, y, suffix);
    assert bad[..3] == MARKS;
  }
}
