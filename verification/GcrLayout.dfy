/**
 A group-coded track byte by byte, as a drive of the time expects it: the order of the sectors, the
 fields around them and the values in them.
 */
module GcrLayout {
  import opened Bytes
  import opened FloppyGeometry
  import opened FloppyMedia
  import opened FloppyTracks
  import opened FloppyCopies
  import opened GcrCodec
  import opened GcrWriteBack

  /** The order of the sectors in each of the five zones. */
  lemma Interleaves()
    ensures InterleavedOrder(12) == [0, 6, 1, 7, 2, 8, 3, 9, 4, 10, 5, 11]
    ensures InterleavedOrder(11) == [0, 6, 1, 7, 2, 8, 3, 9, 4, 10, 5]
    ensures InterleavedOrder(10) == [0, 5, 1, 6, 2, 7, 3, 8, 4, 9]
    ensures InterleavedOrder(9) == [0, 5, 1, 6, 2, 7, 3, 8, 4]
    ensures InterleavedOrder(8) == [0, 4, 1, 5, 2, 6, 3, 7]
  {}

  /** The sectors on a side of a track, and those of one side of the tracks below. */
  function Sectors(track: nat): nat
    requires track < 80
  {
    12 - track / 16
  }

  function Below(track: nat): nat
    requires track < 80
  {
    if track < 16 then 12 * track
    else if track < 32 then 192 + 11 * (track - 16)
    else if track < 48 then 368 + 10 * (track - 32)
    else if track < 64 then 528 + 9 * (track - 48)
    else 672 + 8 * (track - 64)
  }

  /** Blocks are numbered track by track, side by side, sector by sector. */
  function BlockNumber(doubleSided: bool, track: nat, side: nat, sector: nat): nat
    requires track < 80
  {
    (if doubleSided then 2 * Below(track) + side * Sectors(track) else Below(track)) + sector
  }

  lemma BlockNumbers(doubleSided: bool, track: nat, side: nat, sector: nat)
    requires track < 80 && side < Heads(doubleSided)
    ensures SectorsForTrack(track) == Sectors(track) && Heads(doubleSided) == if doubleSided then 2 else 1
    ensures BlockOf(false, doubleSided, track, side, sector) == BlockNumber(doubleSided, track, side, sector)
  {
    ZonesAddUp(track, doubleSided);
  }

  // ---------- one sector ----------

  /** The value a byte stands for. */
  predicate Stands(b: byte, value: byte) { DecodeGcr(b) == Some(value) }

  /** Track, sector, side and format of the address field, and their sum without carries. */
  predicate Addresses(s: seq<byte>, track: byte, sector: byte, upper: bool, doubleSided: bool)
    requires |s| == 5
  {
    var low, side := if track < 64 then track else track - 64, (if track < 64 then 0x00 else 0x01) + (if upper then 0x20 else 0x00);
    var format := if doubleSided then 0x22 else 0x02;
    && Stands(s[0], low) && Stands(s[1], sector) && Stands(s[2], side) && Stands(s[3], format)
    && Stands(s[4], low ^ sector ^ side ^ format)
  }

  lemma FieldAddresses(track: byte, sector: byte, upper: bool, doubleSided: bool)
    requires track < 80 && sector < 12
    ensures Addresses(AddressBytes(if doubleSided then 0x22 else 0x02, track, if upper then 0x20 else 0, sector),
                      track, sector, upper, doubleSided)
  {
    hide DecodeGcr, Nibble;
    var low, sideBit, format := track & 0x3f, if upper then 0x20 else 0, if doubleSided then 0x22 else 0x02;
    FieldDecodes(low, sector, ((track >> 6) & 0x01) | sideBit, format);
    AddressValues(track, sector, sideBit, format);
  }

  lemma AddressValues(track: byte, sector: byte, sideBit: byte, format: byte)
    requires track < 80 && sector < 12 && (sideBit == 0 || sideBit == 0x20) && (format == 0x22 || format == 0x02)
    ensures var low, side := track & 0x3f, ((track >> 6) & 0x01) | sideBit;
            && low == (if track < 64 then track else track - 64) && side == (if track < 64 then 0x00 else 0x01) + sideBit
            && low & 0x3f == low && sector & 0x3f == sector && side & 0x3f == side && format & 0x3f == format
            && (format ^ low ^ side ^ sector) & 0x3f == low ^ sector ^ side ^ format
  {}

  /** The 761 bytes of a sector with a given payload, its tag and its content. */
  predicate IsSector(s: seq<byte>, track: byte, sector: byte, upper: bool, doubleSided: bool, payload: seq<byte>)
  {
    && |s| == 761 && |payload| == 524
    && All(s[..18], 0xff)
    && s[18..21] == [0xd5, 0xaa, 0x96] && Addresses(s[21..26], track, sector, upper, doubleSided) && s[26..29] == [0xde, 0xaa, 0xff]
    && All(s[29..43], 0xff)
    && s[43..46] == [0xd5, 0xaa, 0xad] && Stands(s[46], sector) && s[47..750] == EncodePayload(payload)
    && s[750..753] == [0xde, 0xaa, 0xff]
    && All(s[753..], 0xff)
  }

  /** The bytes show the block of that number. */
  predicate ShowsSector(s: seq<byte>, m: Media, at: Place, sector: nat)
    requires at.track < 80 && sector < 12
  {
    var block := BlockNumber(m.doubleSided, at.track, at.side, sector);
    && (block + 1) * 512 <= |m.data|
    && IsSector(s, at.track as byte, sector as byte, at.side == 1, m.doubleSided, TagOf(m, block) + m.Block(block))
  }

  lemma SectorIsBuilt(m: Media, at: Place, sector: nat)
    requires m.Valid() && m.Inserted() && !m.highDensity && IsPlace(false, m.doubleSided, at.track, at.side, sector)
    ensures ShowsSector(GcrSector(m, at, sector), m, at, sector)
  {
    hide IsSector, SectorPayload, BlockOf, BlockNumber, GcrLead, GcrRecord, ReadBe32;
    BlockNumbers(m.doubleSided, at.track, at.side, sector);
    BlocksAreDistinct(false, m.doubleSided, at.track, at.side, sector, at.track, at.side, sector);
    var block, payload := BlockOf(false, m.doubleSided, at.track, at.side, sector), SectorPayload(m, at, sector);
    PayloadParts(m, at, sector);
    assert payload == TagOf(m, block) + m.Block(block);
    PartsAreSector(m.doubleSided, at, sector, payload);
  }

  lemma PartsAreSector(doubleSided: bool, at: Place, sector: nat, payload: seq<byte>)
    requires at.track < 80 && at.side < 2 && sector < 12 && |payload| == PAYLOAD_BYTES
    ensures IsSector(GcrLead(doubleSided, at, sector) + GcrRecord(sector, payload) + Repeat(0xff, 8),
                     at.track as byte, sector as byte, at.side == 1, doubleSided, payload)
  {
    hide EncodePayload, DecodeGcr, Nibble, Addresses, AddressBytes;
    SmallByte(at.track);
    SmallByte(sector);
    FieldAddresses(at.track as byte, sector as byte, at.side != 0, doubleSided);
    SectorNibble(sector);
    var lead, record := GcrLead(doubleSided, at, sector), GcrRecord(sector, payload);
    LeadParts(doubleSided, at, sector);
    RecordParts(sector, payload);
    hide GcrLead, GcrRecord;
    PartsStand(lead, record, Repeat(0xff, 8));
  }

  lemma PartsStand(lead: seq<byte>, record: seq<byte>, gap: seq<byte>)
    requires |lead| == 43 && |record| == 710
    ensures var s := lead + record + gap;
            && s[..18] == lead[..18] && s[18..21] == lead[18..21] && s[21..26] == lead[21..26] && s[26..29] == lead[26..29]
            && s[29..43] == lead[29..43] && s[43..46] == record[..3] && s[46] == record[3] && s[47..750] == record[4..707]
            && s[750..753] == record[707..710] && s[753..] == gap
  {}

  lemma LeadParts(doubleSided: bool, at: Place, sector: nat)
    requires at.track < TRACKS && sector < 12
    ensures var lead := GcrLead(doubleSided, at, sector);
            && lead[..18] == Repeat(0xff, 18) && lead[18..21] == [0xd5, 0xaa, 0x96] && lead[21..26] == AddressNibbles(doubleSided, at, sector)
            && lead[26..29] == [0xde, 0xaa, 0xff] && lead[29..43] == Repeat(0xff, 14)
  {
    hide AddressNibbles;
  }

  lemma RecordParts(sector: nat, payload: seq<byte>)
    requires sector < 12 && |payload| == PAYLOAD_BYTES
    ensures var record := GcrRecord(sector, payload);
            && record[..3] == [0xd5, 0xaa, 0xad] && record[3] == Nibble(sector as byte) && record[4..707] == EncodePayload(payload)
            && record[707..710] == [0xde, 0xaa, 0xff]
  {
    hide EncodePayload, Nibble;
  }

  // ---------- the whole track ----------

  lemma {:induction false} SectorsStand(m: Media, at: Place, order: seq<nat>, i: nat, slot: nat)
    requires at.track < TRACKS && i <= slot < |order| && forall j :: 0 <= j < |order| ==> order[j] < 12
    ensures var s, start := GcrSectors(m, at, order, i), 761 * (slot - i);
            start + 761 <= |s| && s[start..start + 761] == GcrSector(m, at, order[slot])
    decreases slot - i
  {
    hide GcrSector, GcrSectors;
    SectorThenRest(m, at, order, i);
    var first, rest := GcrSector(m, at, order[i]), GcrSectors(m, at, order, i + 1);
    if i < slot {
      SectorsStand(m, at, order, i + 1, slot);
      SliceBehind(first, rest, 761 * (slot - i - 1), 761);
    }
  }

  lemma SectorThenRest(m: Media, at: Place, order: seq<nat>, i: nat)
    requires at.track < TRACKS && i < |order| && forall j :: 0 <= j < |order| ==> order[j] < 12
    ensures |GcrSector(m, at, order[i])| == 761
    ensures GcrSectors(m, at, order, i) == GcrSector(m, at, order[i]) + GcrSectors(m, at, order, i + 1)
  {
    hide GcrLead, GcrRecord, SectorPayload;
  }

  lemma SliceBehind(first: seq<byte>, rest: seq<byte>, start: nat, length: nat)
    requires start + length <= |rest|
    ensures (first + rest)[|first| + start..|first| + start + length] == rest[start..start + length]
  {}

  lemma {:induction false} SectorsEnd(m: Media, at: Place, order: seq<nat>, i: nat)
    requires at.track < TRACKS && i <= |order| && forall j :: 0 <= j < |order| ==> order[j] < 12
    ensures var s, end := GcrSectors(m, at, order, i), 761 * (|order| - i);
            |s| == end + 128 && All(s[end..], 0xff)
    decreases |order| - i
  {
    hide GcrSector, All;
    if i < |order| {
      SectorThenRest(m, at, order, i);
      SectorsEnd(m, at, order, i + 1);
      DropBehind(GcrSector(m, at, order[i]), GcrSectors(m, at, order, i + 1), 761 * (|order| - i - 1));
    } else {
      assert Repeat(0xff, 128)[0..] == Repeat(0xff, 128);
      AllRepeated(0xff, 128);
    }
  }

  /**
   A group-coded track: a gap of 48 bytes, the sectors in their order, and a gap of 128 bytes. Each
   sector shows the tag and the content of its block.
   */
  lemma TrackLayout(m: Media, at: Place, slot: nat)
    requires m.Valid() && m.Inserted() && !m.highDensity && at.track < 80 && at.side < Heads(m.doubleSided)
    requires slot < Sectors(at.track)
    ensures var s, n := GcrTrack(m, at), Sectors(at.track);
            && |s| == 48 + 761 * n + 128 && All(s[..48], 0xff) && All(s[48 + 761 * n..], 0xff)
            && ShowsSector(s[48 + 761 * slot..48 + 761 * slot + 761], m, at, InterleavedOrder(n)[slot])
  {
    hide GcrSectors, GcrSector, BlockNumber, BlockOf, ShowsSector, All, ReadBe32;
    var n, order := Sectors(at.track), TrackOrder(at.track);
    BlockNumbers(m.doubleSided, at.track, at.side, order[slot]);
    SectorIsBuilt(m, at, order[slot]);
    var sectors := GcrSectors(m, at, order, 0);
    SectorsStand(m, at, order, 0, slot);
    SectorsEnd(m, at, order, 0);
    AllRepeated(0xff, 48);
    SliceBehind(Repeat(0xff, 48), sectors, 761 * slot, 761);
    DropBehind(Repeat(0xff, 48), sectors, 761 * n);
    ConcatSlices(Repeat(0xff, 48), sectors);
  }
}
