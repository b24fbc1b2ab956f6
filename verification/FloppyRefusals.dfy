/**
 What a refused save does. The sector that was to be saved is already in the image, but the cached
 track is dropped only after a save that succeeded, so the head may go on reading what was there
 before. This says for every write exactly when that happens, on disks of either recording.
 */
module FloppyRefusals {
  import opened Bytes
  import opened FloppyGeometry
  import opened FloppyMedia
  import opened FloppyTracks
  import opened FloppyWrites
  import opened FloppyDrive
  import opened FloppyRuns
  import opened FloppyCopies
  import opened FloppyCoherence
  import opened GcrCodec
  import opened GcrWriteBack
  import opened MfmWriteBack

  // ---------- what a write asks for ----------

  /** A sector to be committed; only group-coded records carry a tag. */
  datatype Order = Order(sector: nat, content: seq<byte>, tag: seq<byte>)

  /** What the bytes of a complete, intact record ask to be committed. */
  function Asked(at: Place, m: Media, s: seq<byte>): (r: Option<Order>)
    ensures r.Some? ==> |r.value.content| == SECTOR_BYTES && |r.value.tag| == if m.highDensity then 0 else TAG_BYTES
    ensures r.Some? ==> r.value.sector < SectorsPerTrack(m.highDensity, at.track)
  {
    if m.highDensity then
      if |s| == MFM_DATA && MatchAt(s, MARKS, 0) && (s[3] == 0xfb || s[3] == 0xf8) && CheckHolds(s) && 0 <= m.sector < MFM_SECTORS
      then Some(Order(m.sector, s[4..4 + SECTOR_BYTES], []))
      else None
    else if |s| == GCR_RECORD && MatchAt(s, DATA_PROLOGUE, 0) && s[707..710] == EPILOGUE then
      var sector, payload := DecodeGcr(s[3]), DecodePayload(s[4..707]);
      if sector.Some? && sector.value as nat < SectorsForTrack(at.track) && payload.Some? then
        Some(Order(sector.value as nat, payload.value[TAG_BYTES..], payload.value[..TAG_BYTES]))
      else None
    else None
  }

  /** Everything but the failure flag and the sector register is as it was. */
  predicate Untouched(m: Media, r: Media) { r == m.(failed := r.failed, sector := r.sector) }

  lemma ActIsAsked(host: Host, at: Place, m: Media, s: seq<byte>)
    requires MatchAt(s, Sync(m.highDensity), 0) && Take(m.highDensity, s) == |s| > 1
    ensures var done, order := Act(host, at, m, s), Asked(at, m, s);
            if order.Some? then done == Commit(host, at, m, order.value.sector, order.value.content, order.value.tag)
            else !done.committed && Untouched(m, done.media)
  {
    hide CheckHolds, DecodeGcr, DecodePayload, Commit;
  }

  /** Too short for any record. */
  lemma ShortIsIdle(host: Host, at: Place, m: Media, s: seq<byte>)
    requires |s| < if m.highDensity then 4 else GCR_RECORD
    ensures Parse(host, at, m, s).media == m && !Parse(host, at, m, s).committed
  {}

  /** Where the first record of a waiting buffer and one more byte starts, and how much of it is taken. */
  lemma OneByteTakes(highDensity: bool, waiting: seq<byte>, value: byte)
    requires Waiting(highDensity, waiting)
    ensures var s := waiting + [value];
            var p := Find(s, Sync(highDensity), 0);
            p != -1 ==>
              var n := Take(highDensity, s[p..]);
              n == 0 || (p == 0 && n == |s|) || (p == 0 && n == 1 && |s| <= if highDensity then 4 else GCR_RECORD)
  {
    var s := waiting + [value];
    if Find(waiting, Sync(highDensity), 0) != -1 {
      assert MatchAt(s, Sync(highDensity), 0);
      FindIs(s, Sync(highDensity), 0);
      assert s[0..] == s;
    }
  }

  lemma AskedIsWhole(at: Place, m: Media, s: seq<byte>)
    requires Asked(at, m, s).Some?
    ensures MatchAt(s, Sync(m.highDensity), 0) && Take(m.highDensity, s) == |s| > 1
    ensures Find(s, Sync(m.highDensity), 0) == 0
  {
    hide CheckHolds, DecodeGcr, DecodePayload;
    FindIs(s, Sync(m.highDensity), 0);
  }

  /** One more byte either completes a record that asks for a commit, or commits and changes nothing. */
  lemma OneByteParses(host: Host, at: Place, m: Media, waiting: seq<byte>, value: byte)
    requires Waiting(m.highDensity, waiting)
    ensures var s := waiting + [value];
            var r, order := Parse(host, at, m, s), Asked(at, m, s);
            if order.Some? then
              var done := Commit(host, at, m, order.value.sector, order.value.content, order.value.tag);
              r == Parsed(done.media, [], done.committed)
            else !r.committed && Untouched(m, r.media)
  {
    hide Parse, Act, Take, Asked, Commit, MatchAt, Waiting, Find;
    var s := waiting + [value];
    var p := Find(s, Sync(m.highDensity), 0);
    OneByteTakes(m.highDensity, waiting, value);
    ParseStops(host, at, m, s);
    if Asked(at, m, s).Some? { AskedIsWhole(at, m, s); }
    if p != -1 && Take(m.highDensity, s[p..]) != 0 {
      assert p == 0 && s[0..] == s;
      var n := Take(m.highDensity, s);
      ParseTurns(host, at, m, s, s, n);
      if n == |s| > 1 {
        assert s[..n] == s && s[n..] == [];
        ActIsAsked(host, at, m, s);
        EmptyParse(host, at, Act(host, at, m, s).media);
      } else {
        SkipsOne(host, at, m, s[..1]);
        ShortIsIdle(host, at, m, s[1..]);
      }
    }
  }

  // ---------- a refused commit ----------

  /** The order changes nothing: the block holds this content already, and its tag, if the disk has tags, is this one. */
  predicate Holds(m: Media, block: nat, content: seq<byte>, tag: seq<byte>)
    requires (block + 1) * SECTOR_BYTES <= |m.data|
  {
    m.Block(block) == content && (tag != [] && block < |m.tags| ==> m.tags[block] == tag)
  }

  lemma RefusedCommit(host: Host, at: Place, m: Media, sector: nat, content: seq<byte>, tag: seq<byte>)
    requires Ready(m) && !host.accepts(m.attempts) && |content| == SECTOR_BYTES
    requires IsPlace(m.highDensity, m.doubleSided, at.track, at.side, sector)
    ensures var block := BlockOf(m.highDensity, m.doubleSided, at.track, at.side, sector);
            && block < |m.data| / SECTOR_BYTES
            && Commit(host, at, m, sector, content, tag)
               == Acted(Stored(m, block, content, tag).(attempts := m.attempts + 1, failed := true), false)
  {
    hide BlockOf, FileImage, ReadBe32, Stored;
    BlocksAreDistinct(m.highDensity, m.doubleSided, at.track, at.side, sector, at.track, at.side, sector);
    var block := BlockOf(m.highDensity, m.doubleSided, at.track, at.side, sector);
    var stored := Stored(m, block, content, tag);
    StoredKeepsValid(m, block, content, tag);
    StoredIsWritable(m, block, content, tag);
    FileImageFollows(stored, stored);
  }

  lemma SameBlockSameData(data: seq<byte>, block: nat)
    requires (block + 1) * SECTOR_BYTES <= |data|
    ensures Overwrite(data, block * SECTOR_BYTES, data[block * SECTOR_BYTES..(block + 1) * SECTOR_BYTES]) == data
  {}

  /** Storing what is there changes nothing. */
  lemma HeldIsKept(m: Media, block: nat, content: seq<byte>, tag: seq<byte>)
    requires |content| == SECTOR_BYTES && block < |m.data| / SECTOR_BYTES && Holds(m, block, content, tag)
    ensures Stored(m, block, content, tag) == m
  {
    hide Overwrite;
    SameBlockSameData(m.data, block);
    if tag != [] && block < |m.tags| { assert m.tags[block := tag] == m.tags; }
  }

  // ---------- a track tells its sectors ----------

  lemma NextGcrSector(m: Media, at: Place, order: seq<nat>, i: nat)
    requires at.track < TRACKS && i < |order| && forall j :: 0 <= j < |order| ==> order[j] < 12
    ensures |GcrSector(m, at, order[i])| == 761
    ensures GcrSectors(m, at, order, i)[..761] == GcrSector(m, at, order[i])
    ensures GcrSectors(m, at, order, i)[761..] == GcrSectors(m, at, order, i + 1)
  {
    hide GcrLead, GcrRecord, SectorPayload;
  }

  /** Equal tracks are equal sector by sector. */
  lemma {:induction false} EqualSectors(m: Media, m': Media, at: Place, order: seq<nat>, i: nat, slot: nat)
    requires at.track < TRACKS && i <= slot < |order| && forall j :: 0 <= j < |order| ==> order[j] < 12
    requires GcrSectors(m, at, order, i) == GcrSectors(m', at, order, i)
    ensures GcrSector(m, at, order[slot]) == GcrSector(m', at, order[slot])
    decreases slot - i
  {
    hide GcrSectors, GcrSector;
    NextGcrSector(m, at, order, i);
    NextGcrSector(m', at, order, i);
    if i < slot {
      EqualSectors(m, m', at, order, i + 1, slot);
    }
  }

  lemma RecordInSector(m: Media, at: Place, sector: nat)
    requires at.track < TRACKS && sector < 12
    ensures |GcrSector(m, at, sector)| == 761
    ensures GcrSector(m, at, sector)[47..750] == EncodePayload(SectorPayload(m, at, sector))
  {
    hide AddressNibbles, EncodePayload, SectorPayload, Nibble;
    var record := GcrRecord(sector, SectorPayload(m, at, sector));
    assert record[4..707] == EncodePayload(SectorPayload(m, at, sector));
    assert GcrSector(m, at, sector)[43..753] == record;
    assert GcrSector(m, at, sector)[47..750] == record[4..707];
  }

  /** A group-coded track shows the data and the tag of each of its sectors. */
  lemma GcrTrackTells(m: Media, m': Media, at: Place, sector: nat)
    requires m.Inserted() && m'.Inserted() && at.track < TRACKS && sector < SectorsForTrack(at.track)
    requires GcrTrack(m, at) == GcrTrack(m', at)
    ensures SectorPayload(m, at, sector) == SectorPayload(m', at, sector)
  {
    hide GcrSectors, GcrSector, SectorPayload, EncodePayload, DecodePayload;
    var n, order := SectorsForTrack(at.track), TrackOrder(at.track);
    ConcatSlices(Repeat(0xff, 48), GcrSectors(m, at, order, 0));
    ConcatSlices(Repeat(0xff, 48), GcrSectors(m', at, order, 0));
    InterleaveIsPermutation(n, sector);
    EqualSectors(m, m', at, order, 0, SlotOf(n, sector));
    RecordInSector(m, at, sector);
    RecordInSector(m', at, sector);
    DecodeEncodePayload(SectorPayload(m, at, sector));
    DecodeEncodePayload(SectorPayload(m', at, sector));
  }

  lemma MfmTrackTells(m: Media, m': Media, at: Place, sector: nat)
    requires m.Valid() && m'.Valid() && m.highDensity && m'.highDensity && m.Inserted() && m'.Inserted()
    requires IsPlace(true, true, at.track, at.side, sector) && MfmTrack(m, at) == MfmTrack(m', at)
    ensures var block := BlockOf(true, true, at.track, at.side, sector);
            block < 2880 && m.Block(block) == m'.Block(block)
  {
    hide MfmTrack, MfmContent, MfmSector, BlockOf, ReadBe32;
    TrackShowsSector(m, at, sector);
    TrackShowsSector(m', at, sector);
    ContentIsBlock(m, at, sector);
    ContentIsBlock(m', at, sector);
  }

  /** What was stored, if the track shows it: the block and, on a group-coded disk with tags, the tag. */
  lemma StoredShows(m: Media, at: Place, order: Order, r: Media)
    requires Ready(m) && r.Valid() && IsPlace(m.highDensity, m.doubleSided, at.track, at.side, order.sector)
    requires |order.content| == SECTOR_BYTES && |order.tag| == if m.highDensity then 0 else TAG_BYTES
    requires var block := BlockOf(m.highDensity, m.doubleSided, at.track, at.side, order.sector);
             && block < |m.data| / SECTOR_BYTES
             && r == Stored(m, block, order.content, order.tag).(attempts := r.attempts, failed := r.failed)
    requires if m.highDensity then MfmTrack(m, at) == MfmTrack(r, at) else GcrTrack(m, at) == GcrTrack(r, at)
    ensures Holds(m, BlockOf(m.highDensity, m.doubleSided, at.track, at.side, order.sector), order.content, order.tag)
  {
    hide MfmTrack, GcrTrack, BlockOf, ReadBe32, Overwrite, SectorPayload;
    var block := BlockOf(m.highDensity, m.doubleSided, at.track, at.side, order.sector);
    OverwriteBlock(m.data, block, order.content, block);
    assert r.Block(block) == order.content;
    if m.highDensity {
      MfmTrackTells(m, r, at, order.sector);
    } else {
      GcrTrackTells(m, r, at, order.sector);
      PayloadParts(m, at, order.sector);
      PayloadParts(r, at, order.sector);
      if block < |m.tags| { TagIsShown(m, r, block, order.tag); }
    }
  }

  lemma TagIsShown(m: Media, r: Media, block: nat, tag: seq<byte>)
    requires m.Valid() && block < |m.tags| && |tag| == TAG_BYTES
    requires r.tags == m.tags[block := tag] && TagOf(m, block) == TagOf(r, block)
    ensures m.tags[block] == tag
  {
    hide ReadBe32;
    assert m.tags[block] in m.tags;
  }

  // ---------- the exact condition ----------

  /** The order a write completes, if it does. */
  function Completed(d: Drive, value: byte): Option<Order>
    requires d.Valid()
  {
    if d.media.writable && d.Spinning() then Asked(d.At(), d.media, d.written + [value]) else None
  }

  lemma OrderHasPlace(d: Drive, value: byte)
    requires d.Valid() && Completed(d, value).Some?
    ensures var m, order := d.media, Completed(d, value).value;
            && Writing(d) && Ready(m)
            && IsPlace(m.highDensity, m.doubleSided, d.track, d.side, order.sector)
            && BlockOf(m.highDensity, m.doubleSided, d.track, d.side, order.sector) < |m.data| / SECTOR_BYTES
  {
    hide Asked, BlockOf, Waiting, ReadBe32;
    var m, order := d.media, Completed(d, value).value;
    BlocksAreDistinct(m.highDensity, m.doubleSided, d.track, d.side, order.sector, d.track, d.side, order.sector);
  }

  /** A write that completes no order only fills the buffer, or moves flag and register. */
  lemma NothingCompleted(host: Host, d: Drive, value: byte)
    requires Writing(d) && Completed(d, value).None?
    ensures var after := d.Write(host, value).0;
            Untouched(d.media, after.media) && after.cache == d.Refreshed().Advanced().cache && after.At() == d.At() && after.Valid()
  {
    hide Asked, Parse, Waiting, Drive.Built, LastIdBefore, Media.Valid;
    var m := d.Refreshed().Armed();
    RefreshKeepsMedia(d);
    WriteIsParse(host, d, value);
    OneByteParses(host, d.At(), m, d.written, value);
    if d.written == [] { OneByteAsksNothing(d.At(), m, [] + [value]); }
  }

  lemma OneByteAsksNothing(at: Place, m: Media, s: seq<byte>)
    requires |s| == 1
    ensures Asked(at, m, s).None?
  {}

  /** A write that completes an order acts on it, with the medium as it is. */
  lemma OrderCompleted(host: Host, d: Drive, value: byte)
    requires Writing(d) && Completed(d, value).Some?
    ensures var order := Completed(d, value).value;
            var done := Commit(host, d.At(), d.media, order.sector, order.content, order.tag);
            var (after, ok) := d.Write(host, value);
            && after.media == done.media && ok == (done.committed || !done.media.failed) && after.At() == d.At() && after.Valid()
            && after.cache == (if done.committed then EMPTY_CACHE else d.Refreshed().Advanced().cache)
  {
    hide Asked, Parse, Commit, Waiting, Drive.Built, LastIdBefore, Media.Valid;
    RefreshKeepsMedia(d);
    WriteIsParse(host, d, value);
    if d.written == [] { OneByteAsksNothing(d.At(), d.media, [] + [value]); }
    OneByteParses(host, d.At(), d.media, d.written, value);
    WriteReports(host, d, value);
  }

  lemma WriteReports(host: Host, d: Drive, value: byte)
    requires Writing(d)
    ensures var r := Parse(host, d.At(), d.Refreshed().Armed(), d.written + [value]);
            d.Write(host, value).1 == (r.committed || !r.media.failed)
  {
    hide Parse, Drive.Built, LastIdBefore, Waiting, Media.Valid;
  }

  /** The order is refused by the host although it would change the disk. */
  predicate LosesSight(host: Host, d: Drive, value: byte)
    requires d.Valid()
  {
    var order := Completed(d, value);
    order.Some? && !host.accepts(d.media.attempts) &&
      var block := BlockOf(d.media.highDensity, d.media.doubleSided, d.track, d.side, order.value.sector);
      && block < |d.media.data| / SECTOR_BYTES
      && !Holds(d.media, block, order.value.content, order.value.tag)
  }

  /**
   A refused save: the image holds the new sector, flag and report say that it failed, the file is
   as it was, and the cached track is still the old one. The cache shows the disk if and only if the
   block held this content already and, on a group-coded disk with tags, this tag.
   */
  lemma RefusedSaveIsNotShown(host: Host, d: Drive, value: byte)
    requires d.Valid() && d.Coherent() && Completed(d, value).Some? && !host.accepts(d.media.attempts)
    ensures var order := Completed(d, value).value;
            var block := BlockOf(d.media.highDensity, d.media.doubleSided, d.track, d.side, order.sector);
            var (after, ok) := d.Write(host, value);
            && block < |d.media.data| / SECTOR_BYTES && after.Valid() && !ok
            && after.media == Stored(d.media, block, order.content, order.tag).(attempts := d.media.attempts + 1, failed := true)
            && after.cache == d.Refreshed().Advanced().cache
            && (after.Coherent() <==> Holds(d.media, block, order.content, order.tag))
  {
    hide Completed, Commit, BlockOf, Stored, Holds, Drive.Write, Waiting, ReadBe32, GcrTrack, MfmTrack, MfmTrackMarks, Media.Valid;
    var m, order := d.media, Completed(d, value).value;
    var block := BlockOf(m.highDensity, m.doubleSided, d.track, d.side, order.sector);
    OrderHasPlace(d, value);
    CompletedSizes(d, value);
    OrderCompleted(host, d, value);
    RefusedCommit(host, d.At(), m, order.sector, order.content, order.tag);
    var after := d.Write(host, value).0;
    RefreshedIsCached(d);
    RefreshedIsCoherent(d);
    StoredKeepsDisk(m, block, order.content, order.tag);
    if after.Coherent() { StoredShows(m, d.At(), order, after.media); }
    if Holds(m, block, order.content, order.tag) {
      HeldIsKept(m, block, order.content, order.tag);
      CoherenceFollows(d.Refreshed(), after);
    }
  }

  lemma CompletedSizes(d: Drive, value: byte)
    requires d.Valid() && Completed(d, value).Some?
    ensures var order := Completed(d, value).value;
            |order.content| == SECTOR_BYTES && |order.tag| == if d.media.highDensity then 0 else TAG_BYTES
  {
    hide Asked;
  }

  lemma StoredKeepsDisk(m: Media, block: nat, content: seq<byte>, tag: seq<byte>)
    requires |content| == SECTOR_BYTES && block < |m.data| / SECTOR_BYTES
    ensures SameDisk(m, Stored(m, block, content, tag))
  {
    hide Overwrite;
  }

  /**
   The exact condition, for every write and every host: a write keeps the cached track showing the
   disk if and only if it does not complete an order that the host refuses and that changes the disk.
   */
  lemma WriteKeepsSight(host: Host, d: Drive, value: byte)
    requires d.Valid() && d.Coherent()
    ensures d.Write(host, value).0.Valid()
    ensures d.Write(host, value).0.Coherent() <==> !LosesSight(host, d, value)
  {
    hide Asked, Commit, BlockOf, Stored, Holds, Waiting, ReadBe32, Drive.Built, Media.Valid, Parse, LastIdBefore;
    WriteKeepsValid(host, d, value);
    if !Writing(d) {
      CoherenceFollows(d, d.Write(host, value).0);
    } else {
      hide Drive.Write;
      RefreshedIsCoherent(d);
      RefreshKeepsMedia(d);
      if Completed(d, value).None? {
        NothingCompleted(host, d, value);
        CoherenceFollows(d.Refreshed(), d.Write(host, value).0);
      } else if !host.accepts(d.media.attempts) {
        RefusedSaveIsNotShown(host, d, value);
      } else {
        AcceptedOrder(host, d, value);
      }
    }
  }

  lemma AcceptedOrder(host: Host, d: Drive, value: byte)
    requires d.Valid() && Completed(d, value).Some? && host.accepts(d.media.attempts)
    ensures d.Write(host, value).0.cache == EMPTY_CACHE
  {
    hide Completed, BlockOf, FileImage, Stored, Waiting, ReadBe32, Drive.Write, Drive.Refreshed;
    var m, order := d.media, Completed(d, value).value;
    OrderHasPlace(d, value);
    CompletedSizes(d, value);
    OrderCompleted(host, d, value);
    var block := BlockOf(m.highDensity, m.doubleSided, d.track, d.side, order.sector);
    var stored := Stored(m, block, order.content, order.tag);
    StoredKeepsValid(m, block, order.content, order.tag);
    StoredIsWritable(m, block, order.content, order.tag);
    FileImageFollows(stored, stored);
  }

  // ---------- such a state can be reached ----------

  function Writes(s: seq<byte>): seq<Op> { seq(|s|, i requires 0 <= i < |s| => Op.Write(s[i])) }

  predicate AllLegal(ops: seq<Op>) { forall i :: 0 <= i < |ops| ==> Legal(ops[i]) }

  lemma {:induction false} RunConcat(host: Host, d: Drive, ops: seq<Op>, more: seq<Op>)
    requires d.Valid() && AllLegal(ops) && AllLegal(more)
    ensures AllLegal(ops + more) && Run(host, d, ops + more) == Run(host, Run(host, d, ops), more)
    decreases |ops|
  {
    hide Legal, Apply, Drive.Valid;
    if ops == [] {
      assert ops + more == more;
    } else {
      assert (ops + more)[0] == ops[0] && (ops + more)[1..] == ops[1..] + more;
      ApplyKeepsValid(host, d, ops[0]);
      RunConcat(host, Apply(host, d, ops[0]), ops[1..], more);
    }
  }

  lemma {:induction false} RunOfWrites(host: Host, d: Drive, s: seq<byte>)
    requires d.Valid()
    ensures AllLegal(Writes(s)) && Run(host, d, Writes(s)) == WriteAll(host, d, s)
    decreases |s|
  {
    hide Drive.Write, Drive.Valid;
    if s != [] {
      var start, last := s[..|s| - 1], s[|s| - 1];
      RunOfWrites(host, d, start);
      assert Writes(s) == Writes(start) + [Op.Write(last)];
      RunConcat(host, d, Writes(start), [Op.Write(last)]);
      var before := WriteAll(host, d, start);
      assert [Op.Write(last)][1..] == [];
      assert Run(host, before, [Op.Write(last)]) == Apply(host, before, Op.Write(last));
    }
  }

  const REFUSING := Host(_ => false)

  /** A blank high-density disk in a spinning drive. */
  function BlankDisk(): seq<Op>
  {
    [InsertRaw("disk", Repeat(0, 2880 * SECTOR_BYTES), Raw1440K, true), Motor(true)]
  }

  lemma BlankDiskSpins()
    ensures NEW_DRIVE.Valid() && AllLegal(BlankDisk())
    ensures var d := Run(REFUSING, NEW_DRIVE, BlankDisk());
            && Writing(d) && d.written == [] && d.media.highDensity && d.media.doubleSided && d.At() == Place(0, 0) && d.cache == EMPTY_CACHE
            && d.media.data == Repeat(0, 2880 * SECTOR_BYTES)
  {
    hide ReadBe32, Waiting, Media.Valid;
    NewDriveIsValid();
    var ops := BlankDisk();
    ApplyKeepsValid(REFUSING, NEW_DRIVE, ops[0]);
    var inserted := Apply(REFUSING, NEW_DRIVE, ops[0]);
    ApplyKeepsValid(REFUSING, inserted, ops[1]);
    assert ops[1..] == [ops[1]] && ops[1..][1..] == [];
    assert Run(REFUSING, inserted, [ops[1]]) == Apply(REFUSING, inserted, ops[1]);
  }

  lemma NothingBefore(record: seq<byte>)
    ensures NoSyncBefore([]) && [] + record == record
  {}

  /** The two fields of sector 0 of track 0, with a content of ones. */
  function OneSector(): seq<byte> { IdField(Place(0, 0), 0) + DataField(Repeat(1, SECTOR_BYTES)) }

  /**
   Inserting a blank disk, starting the motor and writing one sector while the host refuses to save
   ends in a state whose cached track is not what is on the disk.
   */
  lemma StaleStateIsReached()
    ensures NEW_DRIVE.Valid() && AllLegal(BlankDisk() + Writes(OneSector()))
    ensures var d := Run(REFUSING, NEW_DRIVE, BlankDisk() + Writes(OneSector()));
            d.Cached() && !d.Coherent()
  {
    hide WriteAll, Run, Legal, IdField, DataField, BlankDisk, Waiting, Media.Valid, IsField, NoSyncBefore, Act, LastIdBefore;
    hide GcrTrack, MfmTrack, MfmTrackMarks, ReadBe32, Commit, Stored, Drive.Write;
    BlankDiskSpins();
    var d, content := Run(REFUSING, NEW_DRIVE, BlankDisk()), Repeat(1, SECTOR_BYTES);
    var at := Place(0, 0);
    RunOfWrites(REFUSING, d, OneSector());
    RunConcat(REFUSING, NEW_DRIVE, BlankDisk(), Writes(OneSector()));
    WriteAllConcat(REFUSING, d, IdField(at, 0), DataField(content));
    NothingBefore(IdField(at, 0));
    NothingBefore(DataField(content));
    IdFieldActs(REFUSING, at, d.Refreshed().Armed(), 0);
    ArmedChangesRegister(d, 0);
    WriteField(REFUSING, d, [], IdField(at, 0));
    var named := WriteAll(REFUSING, d, IdField(at, 0));
    ArmedChangesRegister(named, 0);
    DataFieldActs(REFUSING, at, named.media, content);
    RefusedCommit(REFUSING, at, named.media, 0, content, []);
    WriteField(REFUSING, named, [], DataField(content));
    NamedIsCoherent(d, named);
    var after := WriteAll(REFUSING, named, DataField(content));
    StoredKeepsDisk(named.media, 0, content, []);
    assert named.media.Block(0)[0] == 0 && content[0] == 1;
    if after.Coherent() { StoredShows(named.media, at, Order(0, content, []), after.media); }
  }

  lemma NamedIsCoherent(d: Drive, named: Drive)
    requires d.Valid() && d.Spinning() && d.cache == EMPTY_CACHE && named.Valid() && named.At() == d.At()
    requires SameContents(d.media, named.media) && SameTrack(d.Refreshed().cache, named.cache)
    ensures named.Coherent() && named.Cached() && named.Refreshed() == named
  {
    hide Drive.Built, Waiting, Media.Valid;
    RefreshedIsCached(d);
    RefreshedIsCoherent(d);
    RefreshKeepsMedia(d);
    CoherenceFollows(d.Refreshed(), named);
  }
}
