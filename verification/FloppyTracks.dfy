/** How a track is laid out as a stream of bytes: group-coded, or MFM with illegal-clock marks. */
module FloppyTracks {
  import opened Bytes
  import opened FloppyGeometry
  import opened FloppyMedia
  import opened GcrCodec
  import opened MfmCheck

  // ---------- group-coded tracks ----------

  const GCR_RECORD: nat := 710
  const DATA_PROLOGUE: seq<byte> := [0xd5, 0xaa, 0xad]
  const ADDRESS_PROLOGUE: seq<byte> := [0xd5, 0xaa, 0x96]
  const EPILOGUE: seq<byte> := [0xde, 0xaa, 0xff]

  /** The 524 bytes of a sector: its tag, or zeros, and its data. */
  function SectorPayload(m: Media, at: Place, sector: nat): (s: seq<byte>)
    ensures |s| == PAYLOAD_BYTES
  {
    var block := FirstBlockForTrack(at.track, at.side, m.doubleSided) + sector;
    if block < |m.data| / SECTOR_BYTES then
      (if block < |m.tags| && |m.tags[block]| == TAG_BYTES then m.tags[block] else Repeat(0, TAG_BYTES)) + m.Block(block)
    else Repeat(0, PAYLOAD_BYTES)
  }

  /** The five nibbles that name a sector, the last one a checksum of the others. */
  function AddressNibbles(doubleSided: bool, at: Place, sector: nat): (s: seq<byte>)
    requires at.track < TRACKS && sector < 12
    ensures |s| == 5
  {
    AddressBytes(if doubleSided then 0x22 else 0x02, at.track as byte, if at.side != 0 then 0x20 else 0, sector as byte)
  }

  function AddressBytes(format: byte, track: byte, sideBit: byte, sector: byte): (s: seq<byte>)
    ensures |s| == 5
  {
    var low := track & 0x3f;
    var sideAndHigh := ((track >> 6) & 0x01) | sideBit;
    [Nibble(low), Nibble(sector), Nibble(sideAndHigh), Nibble(format), Nibble(format ^ low ^ sideAndHigh ^ sector)]
  }

  /** What precedes the data record of a sector: gap, address field, gap. */
  function GcrLead(doubleSided: bool, at: Place, sector: nat): (s: seq<byte>)
    requires at.track < TRACKS && sector < 12
    ensures |s| == 43
  {
    Repeat(0xff, 18) + ADDRESS_PROLOGUE + AddressNibbles(doubleSided, at, sector) + EPILOGUE + Repeat(0xff, 14)
  }

  function GcrRecord(sector: nat, payload: seq<byte>): (s: seq<byte>)
    requires sector < 12 && |payload| == PAYLOAD_BYTES
    ensures |s| == GCR_RECORD
  {
    DATA_PROLOGUE + [Nibble(sector as byte)] + EncodePayload(payload) + EPILOGUE
  }

  function GcrSector(m: Media, at: Place, sector: nat): (s: seq<byte>)
    requires at.track < TRACKS && sector < 12
  {
    GcrLead(m.doubleSided, at, sector) + GcrRecord(sector, SectorPayload(m, at, sector)) + Repeat(0xff, 8)
  }

  /** The sectors of an interleave order from slot `i` on, and the gap that closes the track. */
  function GcrSectors(m: Media, at: Place, order: seq<nat>, i: nat): (s: seq<byte>)
    requires at.track < TRACKS && i <= |order| && forall j :: 0 <= j < |order| ==> order[j] < 12
    decreases |order| - i
  {
    if i == |order| then Repeat(0xff, 128) else GcrSector(m, at, order[i]) + GcrSectors(m, at, order, i + 1)
  }

  function TrackOrder(track: nat): (order: seq<nat>)
    ensures |order| == SectorsForTrack(track)
    ensures forall j :: 0 <= j < |order| ==> order[j] < SectorsForTrack(track)
  {
    InterleavedOrder(SectorsForTrack(track))
  }

  function GcrTrack(m: Media, at: Place): seq<byte>
    requires at.track < TRACKS
  {
    if !m.Inserted() then [] else Repeat(0xff, 48) + GcrSectors(m, at, TrackOrder(at.track), 0)
  }

  // ---------- MFM tracks ----------

  const MFM_SECTORS: nat := 18
  const MFM_TRACK: nat := 12500

  /** A field: three marks, its type, its payload and the check over all of these. */
  function MfmField(kind: byte, payload: seq<byte>, mark: byte): (s: seq<byte>)
    ensures |s| == |payload| + 6
  {
    var covered := [mark, mark, mark, kind] + payload;
    covered + [HighByte(MfmCrc(covered)), LowByte(MfmCrc(covered))]
  }

  function FieldMarks(payload: nat): (s: seq<bool>)
    ensures |s| == payload + 6
  {
    [true, true, true] + Unmarked(payload + 3)
  }

  function Unmarked(count: nat): (s: seq<bool>)
    ensures |s| == count
  {
    seq(count, _ => false)
  }

  function IdPayload(at: Place, sector: nat): (s: seq<byte>)
    requires at.track < TRACKS && at.side < 2 && sector < MFM_SECTORS
    ensures |s| == 4
  {
    [at.track as byte, at.side as byte, (sector + 1) as byte, 2]
  }

  function MfmContent(m: Media, at: Place, sector: nat): seq<byte>
  {
    Mid(m.data, BlockOf(true, true, at.track, at.side, sector) * SECTOR_BYTES, SECTOR_BYTES)
  }

  function IdField(at: Place, sector: nat): (s: seq<byte>)
    requires at.track < TRACKS && at.side < 2 && sector < MFM_SECTORS
    ensures |s| == 10
  {
    MfmField(0xfe, IdPayload(at, sector), 0xa1)
  }

  function DataField(content: seq<byte>): (s: seq<byte>)
    ensures |s| == |content| + 6
  {
    MfmField(0xfb, content, 0xa1)
  }

  /** The gap between the ID field and the data field of a sector. */
  function MfmGap(): (s: seq<byte>)
    ensures |s| == 34
  {
    Repeat(0x4e, 22) + Repeat(0x00, 12)
  }

  /** One sector: sync, ID field, gap, data field, gap. */
  function MfmSector(m: Media, at: Place, sector: nat): (s: seq<byte>)
    requires at.track < TRACKS && at.side < 2 && sector < MFM_SECTORS
    ensures |s| == 163 + |MfmContent(m, at, sector)|
  {
    Repeat(0x00, 12) + IdField(at, sector) + MfmGap() + DataField(MfmContent(m, at, sector)) + Repeat(0x4e, 101)
  }

  function MfmSectorMark(m: Media, at: Place, sector: nat): (s: seq<bool>)
    ensures |s| == 163 + |MfmContent(m, at, sector)|
  {
    Unmarked(12) + FieldMarks(4) + Unmarked(34) + FieldMarks(|MfmContent(m, at, sector)|) + Unmarked(101)
  }

  /** The sectors from number `sector` on, and the filler that completes the revolution. */
  function MfmSectors(m: Media, at: Place, sector: nat): (s: seq<byte>)
    requires at.track < TRACKS && at.side < 2 && sector <= MFM_SECTORS
    decreases MFM_SECTORS - sector
  {
    if sector == MFM_SECTORS then Repeat(0x4e, 202) else MfmSector(m, at, sector) + MfmSectors(m, at, sector + 1)
  }

  function MfmSectorMarks(m: Media, at: Place, sector: nat): (s: seq<bool>)
    requires sector <= MFM_SECTORS
    decreases MFM_SECTORS - sector
  {
    if sector == MFM_SECTORS then Unmarked(202) else MfmSectorMark(m, at, sector) + MfmSectorMarks(m, at, sector + 1)
  }

  /** Index gap, index mark and the gap after it. */
  function MfmLead(): (s: seq<byte>)
    ensures |s| == 148
  {
    Repeat(0x4e, 80) + Repeat(0x00, 12) + MfmField(0xfc, [], 0xc2) + Repeat(0x4e, 50)
  }

  function MfmLeadMarks(): (s: seq<bool>)
    ensures |s| == 148
  {
    Unmarked(92) + FieldMarks(0) + Unmarked(50)
  }

  function MfmTrack(m: Media, at: Place): seq<byte>
    requires at.track < TRACKS && at.side < 2
  {
    MfmLead() + MfmSectors(m, at, 0)
  }

  function MfmTrackMarks(m: Media, at: Place): seq<bool>
  {
    MfmLeadMarks() + MfmSectorMarks(m, at, 0)
  }

  lemma ContentIsBlock(m: Media, at: Place, sector: nat)
    requires m.Valid() && m.highDensity && m.Inserted() && IsPlace(true, true, at.track, at.side, sector)
    ensures var block := BlockOf(true, true, at.track, at.side, sector);
            block < 2880 && MfmContent(m, at, sector) == m.Block(block)
  {
    hide ReadBe32;
  }

  lemma {:induction false} SectorsHaveLength(m: Media, at: Place, sector: nat)
    requires m.Valid() && m.highDensity && m.Inserted() && at.track < TRACKS && at.side < 2 && sector <= MFM_SECTORS
    ensures |MfmSectors(m, at, sector)| == 202 + (MFM_SECTORS - sector) * 675
    ensures |MfmSectorMarks(m, at, sector)| == 202 + (MFM_SECTORS - sector) * 675
    decreases MFM_SECTORS - sector
  {
    hide MfmSector, MfmSectorMark, BlockOf;
    if sector < MFM_SECTORS {
      ContentIsBlock(m, at, sector);
      SectorsHaveLength(m, at, sector + 1);
    }
  }

  /** A high-density track is one revolution long, with a mark flag for every byte. */
  lemma MfmTrackLength(m: Media, at: Place)
    requires m.Valid() && m.highDensity && m.Inserted() && at.track < TRACKS && at.side < 2
    ensures |MfmTrack(m, at)| == MFM_TRACK && |MfmTrackMarks(m, at)| == MFM_TRACK
  {
    SectorsHaveLength(m, at, 0);
  }

  /** Where the sectors stand. */
  lemma {:induction false} SectorsFrom(m: Media, at: Place, first: nat, sector: nat)
    requires m.Valid() && m.highDensity && m.Inserted() && at.track < TRACKS && at.side < 2 && first <= sector <= MFM_SECTORS
    ensures 675 * (sector - first) <= |MfmSectors(m, at, first)|
    ensures MfmSectors(m, at, first)[675 * (sector - first)..] == MfmSectors(m, at, sector)
    decreases sector - first
  {
    hide MfmSectors, MfmSector, MfmContent, ReadBe32;
    if first < sector {
      NextMfmSector(m, at, first);
      SectorsFrom(m, at, first + 1, sector);
      DropSector(MfmSector(m, at, first), MfmSectors(m, at, first + 1), sector - first - 1);
    }
  }

  lemma DropSector(s: seq<byte>, rest: seq<byte>, k: nat)
    requires |s| == 675 && 675 * k <= |rest|
    ensures 675 * (k + 1) <= |s + rest| && (s + rest)[675 * (k + 1)..] == rest[675 * k..]
  {
    DropBehind(s, rest, 675 * k);
  }

  lemma NextMfmSector(m: Media, at: Place, sector: nat)
    requires m.Valid() && m.highDensity && m.Inserted() && IsPlace(true, true, at.track, at.side, sector)
    ensures |MfmSector(m, at, sector)| == 675
    ensures MfmSectors(m, at, sector) == MfmSector(m, at, sector) + MfmSectors(m, at, sector + 1)
  {
    hide MfmSector, BlockOf, ReadBe32;
    ContentIsBlock(m, at, sector);
  }

  /** What stands where in a sector. */
  lemma SectorParts(m: Media, at: Place, sector: nat)
    requires m.Valid() && m.highDensity && m.Inserted() && IsPlace(true, true, at.track, at.side, sector)
    ensures var s := MfmSector(m, at, sector);
            |s| == 675 && s[12..22] == IdField(at, sector) && s[56..574] == DataField(MfmContent(m, at, sector))
  {
    hide IdField, DataField, MfmContent, ReadBe32;
    ContentIsBlock(m, at, sector);
  }

  /** A track shows each sector's content at a fixed place. */
  lemma TrackShowsSector(m: Media, at: Place, sector: nat)
    requires m.Valid() && m.highDensity && m.Inserted() && IsPlace(true, true, at.track, at.side, sector)
    ensures |MfmTrack(m, at)| == MFM_TRACK
    ensures var s := MfmTrack(m, at)[148 + 675 * sector..];
            |s| >= 675 && s[..675] == MfmSector(m, at, sector) && s[60..572] == MfmContent(m, at, sector)
  {
    hide MfmSector, MfmContent, MfmLead, MfmSectors, MfmField, ReadBe32;
    MfmTrackLength(m, at);
    SectorsFrom(m, at, 0, sector);
    SectorsHaveLength(m, at, sector);
    SectorsStart(m, at, sector);
    DropBehind(MfmLead(), MfmSectors(m, at, 0), 675 * sector);
    ContentInSector(m, at, sector);
    SliceOfPrefix(MfmSectors(m, at, sector), 675, 60, 572);
  }

  lemma DropBehind(s: seq<byte>, t: seq<byte>, k: nat)
    requires k <= |t|
    ensures (s + t)[|s| + k..] == t[k..]
  {}

  lemma SliceOfPrefix(s: seq<byte>, n: nat, i: nat, j: nat)
    requires i <= j <= n <= |s|
    ensures s[i..j] == s[..n][i..j]
  {}

  lemma SectorsStart(m: Media, at: Place, sector: nat)
    requires m.Valid() && m.highDensity && m.Inserted() && IsPlace(true, true, at.track, at.side, sector)
    ensures |MfmSectors(m, at, sector)| >= 675 && MfmSectors(m, at, sector)[..675] == MfmSector(m, at, sector)
  {
    hide MfmSector, BlockOf, ReadBe32;
    ContentIsBlock(m, at, sector);
  }

  lemma ContentInSector(m: Media, at: Place, sector: nat)
    requires m.Valid() && m.highDensity && m.Inserted() && IsPlace(true, true, at.track, at.side, sector)
    ensures |MfmSector(m, at, sector)| == 675 && MfmSector(m, at, sector)[60..572] == MfmContent(m, at, sector)
  {
    hide MfmSector, MfmContent, MfmCrc, BlockOf, ReadBe32;
    SectorParts(m, at, sector);
    ContentIsBlock(m, at, sector);
    var s, content := MfmSector(m, at, sector), MfmContent(m, at, sector);
    SliceOfPrefix(s[56..], 518, 4, 516);
    assert s[60..572] == s[56..][4..516] && s[56..574] == s[56..][..518];
    assert DataField(content)[4..516] == content;
  }

  // ---------- marks ----------

  /** Every mark stands on one of the bytes that are written with an illegal clock pattern. */
  predicate MarksFit(bytes: seq<byte>, marks: seq<bool>)
  {
    |bytes| == |marks| && forall i :: 0 <= i < |marks| && marks[i] ==> bytes[i] == 0xa1 || bytes[i] == 0xc2
  }

  lemma MarksFitTogether(s: seq<byte>, sMarks: seq<bool>, t: seq<byte>, tMarks: seq<bool>)
    requires MarksFit(s, sMarks) && MarksFit(t, tMarks)
    ensures MarksFit(s + t, sMarks + tMarks)
  {}

  lemma PlainFits(s: seq<byte>)
    ensures MarksFit(s, Unmarked(|s|))
  {}

  lemma FieldFits(kind: byte, payload: seq<byte>, mark: byte)
    requires mark == 0xa1 || mark == 0xc2
    ensures MarksFit(MfmField(kind, payload, mark), FieldMarks(|payload|))
  {
    hide MfmCrc;
  }

  lemma SectorFits(m: Media, at: Place, sector: nat)
    requires at.track < TRACKS && at.side < 2 && sector < MFM_SECTORS
    ensures MarksFit(MfmSector(m, at, sector), MfmSectorMark(m, at, sector))
  {
    hide MarksFit, MfmField, FieldMarks, Unmarked, MfmContent, Repeat, IdPayload;
    var content := MfmContent(m, at, sector);
    var zeros, gap, last := Repeat(0x00, 12), MfmGap(), Repeat(0x4e, 101);
    PlainFits(zeros);
    PlainFits(gap);
    PlainFits(last);
    FieldFits(0xfe, IdPayload(at, sector), 0xa1);
    FieldFits(0xfb, content, 0xa1);
    var s1, m1 := zeros + IdField(at, sector), Unmarked(12) + FieldMarks(4);
    MarksFitTogether(zeros, Unmarked(12), IdField(at, sector), FieldMarks(4));
    MarksFitTogether(s1, m1, gap, Unmarked(34));
    MarksFitTogether(s1 + gap, m1 + Unmarked(34), DataField(content), FieldMarks(|content|));
    MarksFitTogether(s1 + gap + DataField(content), m1 + Unmarked(34) + FieldMarks(|content|), last, Unmarked(101));
  }

  lemma {:induction false} SectorsFit(m: Media, at: Place, sector: nat)
    requires at.track < TRACKS && at.side < 2 && sector <= MFM_SECTORS
    ensures MarksFit(MfmSectors(m, at, sector), MfmSectorMarks(m, at, sector))
    decreases MFM_SECTORS - sector
  {
    hide MarksFit, MfmSector, MfmSectorMark;
    if sector == MFM_SECTORS {
      PlainFits(Repeat(0x4e, 202));
    } else {
      SectorFits(m, at, sector);
      SectorsFit(m, at, sector + 1);
      MarksFitTogether(MfmSector(m, at, sector), MfmSectorMark(m, at, sector),
                       MfmSectors(m, at, sector + 1), MfmSectorMarks(m, at, sector + 1));
    }
  }

  lemma LeadFits()
    ensures MarksFit(MfmLead(), MfmLeadMarks())
  {
    hide MarksFit, MfmField, FieldMarks, Unmarked, Repeat;
    var front, field, gap := Repeat(0x4e, 80) + Repeat(0x00, 12), MfmField(0xfc, [], 0xc2), Repeat(0x4e, 50);
    PlainFits(front);
    FieldFits(0xfc, [], 0xc2);
    PlainFits(gap);
    MarksFitTogether(front, Unmarked(92), field, FieldMarks(0));
    MarksFitTogether(front + field, Unmarked(92) + FieldMarks(0), gap, Unmarked(50));
  }

  /** On a built track every marked byte has one of the two values that open a field. */
  lemma TrackMarksFit(m: Media, at: Place)
    requires at.track < TRACKS && at.side < 2
    ensures MarksFit(MfmTrack(m, at), MfmTrackMarks(m, at))
  {
    hide MarksFit, MfmLead, MfmLeadMarks, MfmSectors, MfmSectorMarks;
    LeadFits();
    SectorsFit(m, at, 0);
    MarksFitTogether(MfmLead(), MfmLeadMarks(), MfmSectors(m, at, 0), MfmSectorMarks(m, at, 0));
  }
}
