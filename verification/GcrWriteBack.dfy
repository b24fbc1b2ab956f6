/**
 Writing the group-coded track of one disk back onto another: the codec, the interleave, the block
 numbering, the stream parser and the commit together copy exactly that track.
 */
module GcrWriteBack {
  import opened Bytes
  import opened FloppyGeometry
  import opened FloppyMedia
  import opened FloppyTracks
  import opened FloppyWrites
  import opened GcrCodec
  import opened FloppyCopies
  import opened FloppyDrive
  import opened FloppyRuns

  // ---------- one record ----------

  lemma SectorNibble(sector: nat)
    requires sector < 12
    ensures DecodeGcr(Nibble(sector as byte)) == Some(sector as byte) && sector as byte as nat == sector
  {
    hide DecodeGcr, Nibble;
    NibbleDecodes(sector as byte);
    SectorByte(sector);
    SmallByte(sector);
    LowSixBits(sector as byte);
  }

  lemma SectorByte(sector: nat)
    requires sector < 12
    ensures sector as byte as nat == sector
  {}

  lemma LowSixBits(b: byte)
    requires b < 12
    ensures b & 0x3f == b
  {}

  /** The record of a sector commits exactly its tag and its data to that sector. */
  lemma RecordCommits(host: Host, at: Place, m: Media, sector: nat, payload: seq<byte>)
    requires !m.highDensity && sector < SectorsForTrack(at.track) && |payload| == PAYLOAD_BYTES
    ensures var record := GcrRecord(sector, payload);
            && MatchAt(record, Sync(false), 0) && Take(false, record) == |record|
            && Act(host, at, m, record) == Commit(host, at, m, sector, payload[TAG_BYTES..], payload[..TAG_BYTES])
  {
    hide EncodePayload, DecodePayload, DecodeGcr, Nibble, Commit;
    var record := GcrRecord(sector, payload);
    assert record[4..707] == EncodePayload(payload);
    assert record[707..710] == EPILOGUE;
    SectorNibble(sector);
    DecodeEncodePayload(payload);
  }

  // ---------- address fields ----------

  /** What an address field says. */
  datatype Address = Address(track: byte, upper: bool, sector: byte)

  /** Reads the five nibbles of an address field, if they are nibbles and their checksum holds. */
  function ReadAddress(s: seq<byte>): Option<Address>
    requires |s| == 5
  {
    match (DecodeGcr(s[0]), DecodeGcr(s[1]), DecodeGcr(s[2]), DecodeGcr(s[3]), DecodeGcr(s[4]))
    case (Some(low), Some(sector), Some(sideAndHigh), Some(format), Some(check)) =>
      if AddressCheck(low, sector, sideAndHigh, format) != check then None else Some(AddressOf(low, sector, sideAndHigh))
    case _ => None
  }

  function AddressCheck(low: byte, sector: byte, sideAndHigh: byte, format: byte): byte { low ^ sector ^ sideAndHigh ^ format }

  function AddressOf(low: byte, sector: byte, sideAndHigh: byte): Address
  {
    Address(low | ((sideAndHigh & 0x01) << 6), sideAndHigh & 0x20 != 0, sector)
  }

  /** The address field of a sector names its track, its side and itself, with a checksum that holds. */
  lemma AddressNamesSector(doubleSided: bool, at: Place, sector: nat)
    requires at.track < TRACKS && sector < 12
    ensures ReadAddress(AddressNibbles(doubleSided, at, sector))
         == Some(Address(at.track as byte, at.side != 0, sector as byte))
  {
    hide AddressBytes, ReadAddress;
    var track, sector8 := at.track as byte, sector as byte;
    SmallByte(at.track);
    SmallByte(sector);
    if at.side != 0 {
      if doubleSided { UpperFieldReads(track, sector8, 0x22); } else { UpperFieldReads(track, sector8, 0x02); }
    } else {
      if doubleSided { LowerFieldReads(track, sector8, 0x22); } else { LowerFieldReads(track, sector8, 0x02); }
    }
  }

  lemma ReadsAs(s: seq<byte>, low: byte, sector: byte, side: byte, format: byte)
    requires |s| == 5 && DecodeGcr(s[0]) == Some(low) && DecodeGcr(s[1]) == Some(sector) && DecodeGcr(s[2]) == Some(side)
    requires DecodeGcr(s[3]) == Some(format) && DecodeGcr(s[4]) == Some(AddressCheck(low, sector, side, format))
    ensures ReadAddress(s) == Some(AddressOf(low, sector, side))
  {
    hide DecodeGcr, AddressCheck, AddressOf;
  }

  lemma UpperFieldReads(track: byte, sector: byte, format: byte)
    requires track < 80 && sector < 12 && (format == 0x22 || format == 0x02)
    ensures ReadAddress(AddressBytes(format, track, 0x20, sector)) == Some(Address(track, true, sector))
  {
    hide DecodeGcr, Nibble, ReadAddress, AddressCheck, AddressOf;
    var low, high := track & 0x3f, ((track >> 6) & 0x01) | 0x20;
    FieldDecodes(low, sector, high, format);
    UpperAddressBits(track, sector, format);
    ReadsAs(AddressBytes(format, track, 0x20, sector), low, sector, high, format);
  }

  lemma LowerFieldReads(track: byte, sector: byte, format: byte)
    requires track < 80 && sector < 12 && (format == 0x22 || format == 0x02)
    ensures ReadAddress(AddressBytes(format, track, 0, sector)) == Some(Address(track, false, sector))
  {
    hide DecodeGcr, Nibble, ReadAddress, AddressCheck, AddressOf;
    var low, high := track & 0x3f, ((track >> 6) & 0x01) | 0;
    FieldDecodes(low, sector, high, format);
    LowerAddressBits(track, sector, format);
    ReadsAs(AddressBytes(format, track, 0, sector), low, sector, high, format);
  }

  lemma FieldDecodes(low: byte, sector: byte, high: byte, format: byte)
    ensures DecodeGcr(Nibble(low)) == Some(low & 0x3f) && DecodeGcr(Nibble(sector)) == Some(sector & 0x3f)
    ensures DecodeGcr(Nibble(high)) == Some(high & 0x3f) && DecodeGcr(Nibble(format)) == Some(format & 0x3f)
    ensures DecodeGcr(Nibble(format ^ low ^ high ^ sector)) == Some((format ^ low ^ high ^ sector) & 0x3f)
  {
    hide DecodeGcr, Nibble;
    NibbleDecodes(low);
    NibbleDecodes(sector);
    NibbleDecodes(high);
    NibbleDecodes(format);
    NibbleDecodes(format ^ low ^ high ^ sector);
  }

  lemma SmallByte(n: nat)
    requires n < 80
    ensures (n as byte) < 80 && (n < 12 ==> (n as byte) < 12)
  {}

  lemma UpperAddressBits(track: byte, sector: byte, format: byte)
    requires track < 80 && sector < 12 && (format == 0x22 || format == 0x02)
    ensures var low, high := track & 0x3f, ((track >> 6) & 0x01) | 0x20;
            && low & 0x3f == low && sector & 0x3f == sector && high & 0x3f == high && format & 0x3f == format
            && AddressCheck(low, sector, high, format) == (format ^ low ^ high ^ sector) & 0x3f
            && AddressOf(low, sector, high) == Address(track, true, sector)
  {}

  lemma LowerAddressBits(track: byte, sector: byte, format: byte)
    requires track < 80 && sector < 12 && (format == 0x22 || format == 0x02)
    ensures var low, high := track & 0x3f, ((track >> 6) & 0x01) | 0;
            && low & 0x3f == low && sector & 0x3f == sector && high & 0x3f == high && format & 0x3f == format
            && AddressCheck(low, sector, high, format) == (format ^ low ^ high ^ sector) & 0x3f
            && AddressOf(low, sector, high) == Address(track, false, sector)
  {}

  // ---------- no false prologue ----------

  lemma AddressHasNoReserved(doubleSided: bool, at: Place, sector: nat)
    requires at.track < TRACKS && sector < 12
    ensures forall j :: 0 <= j < 5 ==> AddressNibbles(doubleSided, at, sector)[j] != 0xd5
  {
    hide DecodeGcr, Nibble;
    ReservedBytes();
    forall v: byte
      ensures Nibble(v) != 0xd5
    {
      NibbleDecodes(v);
    }
  }

  /** Neither a gap nor an address field opens a data record, not even together with the record behind it. */
  lemma LeadStartsNoRecord(gap: nat, doubleSided: bool, at: Place, sector: nat, record: seq<byte>, i: nat)
    requires at.track < TRACKS && sector < 12 && |record| >= 3 && record[..3] == DATA_PROLOGUE
    requires i < gap + 43
    ensures !MatchAt(Repeat(0xff, gap) + GcrLead(doubleSided, at, sector) + record, Sync(false), i)
  {
    hide AddressNibbles;
    AddressHasNoReserved(doubleSided, at, sector);
    var s := Repeat(0xff, gap) + GcrLead(doubleSided, at, sector) + record;
    if i == gap + 18 {
      assert s[i + 2] == 0x96;
    } else {
      assert s[i] != 0xd5;
    }
  }

  // ---------- the sectors of a track, one after the other ----------

  /** The commits that the sectors of `source` from slot `i` on ask for. */
  function CommitAll(host: Host, at: Place, m: Media, source: Media, order: seq<nat>, i: nat): Acted
    requires i <= |order|
    decreases |order| - i
  {
    if i == |order| then Acted(m, false)
    else
      var payload := SectorPayload(source, at, order[i]);
      var done := Commit(host, at, m, order[i], payload[TAG_BYTES..], payload[..TAG_BYTES]);
      var rest := CommitAll(host, at, done.media, source, order, i + 1);
      Acted(rest.media, done.committed || rest.committed)
  }

  predicate OnTrack(order: seq<nat>, track: nat)
  {
    forall j :: 0 <= j < |order| ==> order[j] < 12 && order[j] < SectorsForTrack(track)
  }

  lemma RecordPrologue(sector: nat, payload: seq<byte>)
    requires sector < 12 && |payload| == PAYLOAD_BYTES
    ensures GcrRecord(sector, payload)[..3] == DATA_PROLOGUE
  {
    hide EncodePayload, Nibble;
  }

  /** One sector behind a gap: its record is committed, and its closing gap stays in front of the rest. */
  lemma SectorIsCommitted(host: Host, at: Place, m: Media, source: Media, sector: nat, gap: nat, rest: seq<byte>)
    requires !m.highDensity && at.track < TRACKS && sector < 12 && sector < SectorsForTrack(at.track)
    ensures var payload := SectorPayload(source, at, sector);
            var done := Commit(host, at, m, sector, payload[TAG_BYTES..], payload[..TAG_BYTES]);
            var r := Parse(host, at, done.media, Repeat(0xff, 8) + rest);
            Parse(host, at, m, Repeat(0xff, gap) + (GcrSector(source, at, sector) + rest))
            == Parsed(r.media, r.rest, done.committed || r.committed)
  {
    hide Act, Take, Commit, GcrLead, GcrRecord, SectorPayload, Parse, MatchAt;
    var payload := SectorPayload(source, at, sector);
    var lead, record := GcrLead(source.doubleSided, at, sector), GcrRecord(sector, payload);
    var junk := Repeat(0xff, gap) + lead;
    RecordCommits(host, at, m, sector, payload);
    RecordPrologue(sector, payload);
    forall j | 0 <= j < |junk|
      ensures !MatchAt(junk + record, Sync(false), j)
    {
      LeadStartsNoRecord(gap, source.doubleSided, at, sector, record, j);
    }
    ParseRecord(host, at, m, junk, record, Repeat(0xff, 8) + rest);
    assert Repeat(0xff, gap) + (lead + record + Repeat(0xff, 8) + rest) == junk + record + (Repeat(0xff, 8) + rest);
  }

  lemma ClosingGap(host: Host, at: Place, m: Media, gap: nat)
    requires !m.highDensity && gap >= 3
    ensures Parse(host, at, m, Repeat(0xff, gap)) == Parsed(m, [0xff, 0xff], false)
  {
    var s := Repeat(0xff, gap);
    assert Find(s, Sync(false), 0) == -1;
    assert Tail(s) == [0xff, 0xff];
  }

  /** Parsing what a track holds from slot `i` on, behind any gap, performs exactly those commits. */
  lemma {:induction false} SectorsAreCommitted(host: Host, at: Place, m: Media, source: Media, order: seq<nat>, i: nat, gap: nat)
    requires !m.highDensity && at.track < TRACKS && i <= |order| && OnTrack(order, at.track)
    ensures var all := CommitAll(host, at, m, source, order, i);
            Parse(host, at, m, Repeat(0xff, gap) + GcrSectors(source, at, order, i))
            == Parsed(all.media, [0xff, 0xff], all.committed)
    decreases |order| - i
  {
    hide Commit, GcrSector, SectorPayload, Parse;
    if i == |order| {
      assert Repeat(0xff, gap) + Repeat(0xff, 128) == Repeat(0xff, gap + 128);
      ClosingGap(host, at, m, gap + 128);
    } else {
      var payload := SectorPayload(source, at, order[i]);
      var done := Commit(host, at, m, order[i], payload[TAG_BYTES..], payload[..TAG_BYTES]);
      SectorIsCommitted(host, at, m, source, order[i], gap, GcrSectors(source, at, order, i + 1));
      SectorsAreCommitted(host, at, done.media, source, order, i + 1, 8);
    }
  }

  // ---------- what the commits leave on the disk ----------

  lemma PayloadParts(m: Media, at: Place, sector: nat)
    ensures var block := BlockOf(false, m.doubleSided, at.track, at.side, sector);
            (block + 1) * SECTOR_BYTES <= |m.data| ==>
              SectorPayload(m, at, sector)[..TAG_BYTES] == TagOf(m, block) && SectorPayload(m, at, sector)[TAG_BYTES..] == m.Block(block)
  {
    hide FirstBlockForTrack;
  }

  lemma CommitCopies(host: Host, at: Place, m: Media, source: Media, sector: nat)
    requires Ready(m) && SavesSucceed(host, m) && |source.data| == |m.data| && source.doubleSided == m.doubleSided
    requires !m.highDensity && IsPlace(false, m.doubleSided, at.track, at.side, sector)
    ensures var payload := SectorPayload(source, at, sector);
            var done := Commit(host, at, m, sector, payload[TAG_BYTES..], payload[..TAG_BYTES]);
            && done.committed && Ready(done.media) && SavesSucceed(host, done.media)
            && FileImage(done.media) == Some(done.media.file)
            && Copied(m, source, done.media, {BlockOf(false, m.doubleSided, at.track, at.side, sector)}, true)
  {
    hide FileImage, BlockOf, SectorPayload, Commit, Stored, Copied;
    var block := BlockOf(false, m.doubleSided, at.track, at.side, sector);
    var payload := SectorPayload(source, at, sector);
    PayloadParts(source, at, sector);
    CommitStores(host, at, m, sector, payload[TAG_BYTES..], payload[..TAG_BYTES]);
    StoredCopies(m, source, block, Commit(host, at, m, sector, payload[TAG_BYTES..], payload[..TAG_BYTES]).media, true);
  }

  ghost function BlocksFrom(doubleSided: bool, at: Place, order: seq<nat>, i: nat): set<nat>
  {
    set j | i <= j < |order| :: BlockOf(false, doubleSided, at.track, at.side, order[j])
  }

  lemma {:induction false} AllCopied(host: Host, at: Place, m: Media, source: Media, order: seq<nat>, i: nat)
    requires Ready(m) && SavesSucceed(host, m) && |source.data| == |m.data| && source.doubleSided == m.doubleSided
    requires !m.highDensity && at.track < TRACKS && at.side < Heads(m.doubleSided) && i <= |order| && OnTrack(order, at.track)
    requires i == |order| ==> FileImage(m) == Some(m.file)
    ensures var all := CommitAll(host, at, m, source, order, i);
            && Ready(all.media) && SavesSucceed(host, all.media)
            && FileImage(all.media) == Some(all.media.file) && all.committed == (i < |order|)
            && Copied(m, source, all.media, BlocksFrom(m.doubleSided, at, order, i), true)
    decreases |order| - i
  {
    hide Commit, SectorPayload, BlockOf, FileImage, Copied, ReadBe32;
    if i == |order| {
      NothingCopied(m, source, true);
      assert BlocksFrom(m.doubleSided, at, order, i) == {};
    } else {
      var payload := SectorPayload(source, at, order[i]);
      var done := Commit(host, at, m, order[i], payload[TAG_BYTES..], payload[..TAG_BYTES]);
      var block := BlockOf(false, m.doubleSided, at.track, at.side, order[i]);
      CommitCopies(host, at, m, source, order[i]);
      AllCopied(host, at, done.media, source, order, i + 1);
      var all := CommitAll(host, at, m, source, order, i);
      CopiedTwice(m, source, done.media, all.media, {block}, BlocksFrom(m.doubleSided, at, order, i + 1), true);
      assert BlocksFrom(m.doubleSided, at, order, i) == {block} + BlocksFrom(m.doubleSided, at, order, i + 1);
    }
  }

  // ---------- the theorem ----------

  /** The blocks of one side of a track. */
  ghost function TrackBlocks(doubleSided: bool, at: Place): set<nat>
  {
    set sector | 0 <= sector < SectorsForTrack(at.track) :: BlockOf(false, doubleSided, at.track, at.side, sector)
  }

  lemma OrderCoversTrack(doubleSided: bool, at: Place)
    ensures BlocksFrom(doubleSided, at, TrackOrder(at.track), 0) == TrackBlocks(doubleSided, at)
  {
    hide BlockOf;
    var n, order := SectorsForTrack(at.track), TrackOrder(at.track);
    forall sector: nat | sector < n
      ensures BlockOf(false, doubleSided, at.track, at.side, sector) in BlocksFrom(doubleSided, at, order, 0)
    {
      InterleaveIsPermutation(n, sector);
      assert order[SlotOf(n, sector)] == sector;
    }
  }

  /** Parsing the track that `source` shows at a place performs the commits of exactly its sectors. */
  lemma TrackParses(host: Host, at: Place, m: Media, source: Media)
    requires Ready(m) && SavesSucceed(host, m) && !m.highDensity
    requires source.Valid() && source.Inserted() && !source.highDensity && source.doubleSided == m.doubleSided
    requires at.track < TRACKS && at.side < Heads(m.doubleSided)
    ensures var r := Parse(host, at, m, GcrTrack(source, at));
            && r.committed && r.rest == [0xff, 0xff] && r.media.failed == m.failed
            && FileImage(r.media) == Some(r.media.file)
            && Copied(m, source, r.media, TrackBlocks(m.doubleSided, at), true)
  {
    hide Parse, GcrSectors, CommitAll, Copied, FileImage;
    var order := TrackOrder(at.track);
    SectorsAreCommitted(host, at, m, source, order, 0, 48);
    AllCopied(host, at, m, source, order, 0);
    OrderCoversTrack(m.doubleSided, at);
    CopiedFlags(m, source, CommitAll(host, at, m, source, order, 0).media, TrackBlocks(m.doubleSided, at), true);
  }

  /**
   Writing the track that `source` shows, byte by byte and with an empty write buffer, copies the
   data and tags of exactly the sectors of that track, saves the result and reports no failure
   that was not there before. The head does not move.
   */
  lemma TrackWriteBack(host: Host, d: Drive, source: Media)
    requires d.Valid() && d.media.writable && d.Spinning() && d.written == [] && !d.media.highDensity && SavesSucceed(host, d.media)
    requires source.Valid() && source.Inserted() && !source.highDensity && source.doubleSided == d.media.doubleSided
    ensures var r := WriteAll(host, d, GcrTrack(source, d.At()));
            && r.media.failed == d.media.failed && r.At() == d.At() && r.Spinning()
            && FileImage(r.media) == Some(r.media.file)
            && Copied(d.media, source, r.media, TrackBlocks(d.media.doubleSided, d.At()), true)
  {
    hide Parse, GcrTrack, Copied, FileImage, Media.Valid, Waiting;
    var track := GcrTrack(source, d.At());
    WriteAllIsParse(host, d, track);
    assert d.written + track == track;
    TrackParses(host, d.At(), d.media, source);
  }

  /** So every sector anywhere else, on the other side of the same track included, keeps its data and its tag. */
  lemma OtherTracksKept(m: Media, source: Media, r: Media, at: Place, track: nat, side: nat, sector: nat)
    requires m.Valid() && m.Inserted() && !m.highDensity && |source.data| == |m.data|
    requires Copied(m, source, r, TrackBlocks(m.doubleSided, at), true)
    requires at.track < TRACKS && at.side < Heads(m.doubleSided)
    requires IsPlace(false, m.doubleSided, track, side, sector) && Place(track, side) != at
    ensures var block := BlockOf(false, m.doubleSided, track, side, sector);
            (block + 1) * SECTOR_BYTES <= |m.data| == |r.data| && r.Block(block) == m.Block(block) && TagOf(r, block) == TagOf(m, block)
    ensures SectorPayload(r, Place(track, side), sector) == SectorPayload(m, Place(track, side), sector)
  {
    hide BlockOf, ReadBe32, SectorPayload;
    var block := BlockOf(false, m.doubleSided, track, side, sector);
    forall own: nat | own < SectorsForTrack(at.track)
      ensures BlockOf(false, m.doubleSided, at.track, at.side, own) != block
    {
      BlocksAreDistinct(false, m.doubleSided, at.track, at.side, own, track, side, sector);
    }
    BlocksAreDistinct(false, m.doubleSided, track, side, sector, track, side, sector);
    assert block !in TrackBlocks(m.doubleSided, at);
    assert block < |m.tags| ==> r.tags[block] == m.tags[block];
    PayloadParts(m, Place(track, side), sector);
    PayloadParts(r, Place(track, side), sector);
    SameParts(SectorPayload(m, Place(track, side), sector), SectorPayload(r, Place(track, side), sector));
  }

  lemma SameParts(s: seq<byte>, t: seq<byte>)
    requires |s| == |t| == PAYLOAD_BYTES && s[..TAG_BYTES] == t[..TAG_BYTES] && s[TAG_BYTES..] == t[TAG_BYTES..]
    ensures s == t
  {
    assert s == s[..TAG_BYTES] + s[TAG_BYTES..] && t == t[..TAG_BYTES] + t[TAG_BYTES..];
  }
}
