/** The drive as the program runs it: one object whose fields every call updates in place. */
module FloppyDiskImages {
  import opened Bytes
  import opened FloppyGeometry
  import opened FloppyMedia
  import opened FloppyTracks
  import opened FloppyWrites
  import opened FloppyDrive
  import opened GcrCodec
  import opened MfmCheck

  class FloppyDiskImage {
    const host: Host
    var kind: Kind
    var path: string
    var data: seq<byte>
    var tags: seq<seq<byte>>
    var diskCopyHeader: seq<byte>
    var writable: bool
    var doubleSided: bool
    var highDensity: bool
    var motorOn: bool
    var currentTrack: nat
    var currentSide: nat
    var trackCache: TrackCache
    var writeBytes: seq<byte>
    var writeMarks: seq<bool>
    var writeMfmSector: int
    var writeFailed: bool
    var attempts: nat
    var file: seq<byte>
    /** The switch that makes every medium read-only, and the disk-change latch. */
    var forceReadOnly: bool
    var mediaChanged: bool

    ghost function Medium(): Media
      reads this
    {
      Media(kind, path, data, tags, diskCopyHeader, writable, doubleSided, highDensity, attempts, file, writeFailed, writeMfmSector)
    }

    /** The abstract state. */
    ghost function View(): Drive
      reads this
    {
      Drive(Medium(), currentTrack, currentSide, motorOn, trackCache, writeBytes)
    }

    ghost predicate Valid()
      reads this
    {
      View().Valid() && |writeMarks| == |writeBytes|
    }

    constructor (host: Host)
      ensures Valid() && View() == Drive(NO_MEDIA, 0, 0, false, EMPTY_CACHE, [])
      ensures this.host == host && !mediaChanged && !forceReadOnly
    {
      this.host := host;
      kind, path, data, tags, diskCopyHeader := Empty, [], [], [], [];
      writable, doubleSided, highDensity, motorOn := false, false, false, false;
      currentTrack, currentSide, trackCache := 0, 0, EMPTY_CACHE;
      writeBytes, writeMarks, writeMfmSector, writeFailed := [], [], -1, false;
      attempts, file, forceReadOnly, mediaChanged := 0, [], false, false;
    }

    // ---------- loading and ejecting ----------

    method LoadRaw(newPath: string, bytes: seq<byte>, newKind: Kind, fileWritable: bool)
      requires Valid()
      requires newKind in {Raw400K, Raw800K, Raw1440K}
      requires |bytes| == BlockCount(newKind.Raw1440K?, !newKind.Raw400K?) * SECTOR_BYTES
      requires fileWritable ==> newPath != []
      modifies this
      ensures Valid()
      ensures View() == old(View()).Loaded(FloppyMedia.LoadRaw(old(Medium()), newPath, bytes, newKind, !forceReadOnly && fileWritable))
      ensures mediaChanged == (old(kind) != Empty || old(path) != newPath || old(mediaChanged)) && unchanged(this`forceReadOnly)
    {
      hide ReadBe32, Waiting;
      EmptyWaits(newKind == Raw1440K);
      NoteChange(newPath);
      Insert(newPath, newKind, [], bytes, [], !forceReadOnly && fileWritable, newKind != Raw400K, newKind == Raw1440K, bytes);
    }

    method LoadDiskCopy42(newPath: string, bytes: seq<byte>, fileWritable: bool) returns (ok: bool)
      requires Valid()
      requires fileWritable ==> newPath != []
      modifies this
      ensures Valid()
      ensures var loaded := FloppyMedia.LoadDiskCopy42(old(Medium()), newPath, bytes, !forceReadOnly && fileWritable);
              ok == loaded.Some? && View() == if ok then old(View()).Loaded(loaded.value) else old(View())
      ensures mediaChanged == (old(mediaChanged) || (ok && (old(kind) != Empty || old(path) != newPath))) && unchanged(this`forceReadOnly)
    {
      hide ReadBe32, Chunks, Waiting, ContainerSizes;
      EmptyWaits(true);
      EmptyWaits(false);
      LoadedContainerIsValid(old(Medium()), newPath, bytes, !forceReadOnly && fileWritable);
      var dataSize, tagSize;
      ok, dataSize, tagSize := ReadSizes(bytes);
      if !ok { return; }
      var newTags := SplitTags(bytes[CONTAINER_HEADER + dataSize..CONTAINER_HEADER + dataSize + tagSize]);
      NoteChange(newPath);
      Insert(newPath, DiskCopy42, bytes[..CONTAINER_HEADER], bytes[CONTAINER_HEADER..CONTAINER_HEADER + dataSize], newTags,
             !forceReadOnly && fileWritable, dataSize != 409600, dataSize == 1474560, bytes);
    }

    /** The checks that a container has to pass. */
    method ReadSizes(bytes: seq<byte>) returns (ok: bool, dataSize: nat, tagSize: nat)
      ensures ContainerSizes(bytes) == if ok then Some((dataSize, tagSize)) else None
    {
      hide ReadBe32;
      dataSize, tagSize := ReadBe32(bytes, 64), ReadBe32(bytes, 68);
      ok := dataSize == 409600 || dataSize == 819200 || dataSize == 1474560;
      if !ok || |bytes| < (CONTAINER_HEADER + dataSize + tagSize) % 0x1_0000_0000 {
        ok := false;
        return;
      }
      ok := tagSize == 0 || tagSize == dataSize / SECTOR_BYTES * TAG_BYTES;
    }

    method NoteChange(newPath: string)
      modifies this`mediaChanged
      ensures mediaChanged == (kind != Empty || path != newPath || old(mediaChanged))
    {
      mediaChanged := kind != Empty || path != newPath || mediaChanged;
    }

    /** The part both loads share: `bytes` is what the file holds. */
    method Insert(newPath: string, newKind: Kind, header: seq<byte>, newData: seq<byte>, newTags: seq<seq<byte>>,
                  fileWritable: bool, twoSided: bool, dense: bool, bytes: seq<byte>)
      modifies this
      ensures View() == Drive(Media(newKind, newPath, newData, newTags, header, fileWritable, twoSided, dense,
                                    old(attempts), bytes, false, -1),
                              0, 0, old(motorOn), EMPTY_CACHE, [])
      ensures writeMarks == []
      ensures unchanged(this`mediaChanged, this`forceReadOnly)
    {
      SetMedium(newPath, newKind, header, newData, newTags, fileWritable, twoSided, dense);
      file := bytes;
      Reset();
    }

    method SplitTags(tagBytes: seq<byte>) returns (split: seq<seq<byte>>)
      requires |tagBytes| % TAG_BYTES == 0
      ensures split == Chunks(tagBytes, TAG_BYTES)
    {
      split := [];
      assert tagBytes[0..] == tagBytes;
      for block := 0 to |tagBytes| / TAG_BYTES
        invariant split + Chunks(tagBytes[block * TAG_BYTES..], TAG_BYTES) == Chunks(tagBytes, TAG_BYTES)
      {
        var tag := tagBytes[block * TAG_BYTES..(block + 1) * TAG_BYTES];
        assert tagBytes[block * TAG_BYTES..][TAG_BYTES..] == tagBytes[(block + 1) * TAG_BYTES..];
        assert tagBytes[block * TAG_BYTES..][..TAG_BYTES] == tag;
        split := split + [tag];
      }
    }

    method SetMedium(newPath: string, newKind: Kind, header: seq<byte>, newData: seq<byte>, newTags: seq<seq<byte>>,
                     fileWritable: bool, twoSided: bool, dense: bool)
      modifies this`path, this`kind, this`data, this`tags, this`diskCopyHeader, this`writable, this`doubleSided, this`highDensity
      ensures path == newPath && kind == newKind && data == newData && tags == newTags && diskCopyHeader == header
      ensures writable == fileWritable && doubleSided == twoSided && highDensity == dense
    {
      path, kind, data, tags, diskCopyHeader := newPath, newKind, newData, newTags, header;
      writable, doubleSided, highDensity := fileWritable, twoSided, dense;
    }

    /** The head goes home, and nothing is cached or waiting. */
    method Reset()
      modifies this`currentTrack, this`currentSide, this`trackCache, this`writeBytes, this`writeMarks,
               this`writeMfmSector, this`writeFailed
      ensures currentTrack == currentSide == 0 && trackCache == EMPTY_CACHE
      ensures writeBytes == [] && writeMarks == [] && writeMfmSector == -1 && !writeFailed
    {
      currentTrack, currentSide := 0, 0;
      InvalidateTrackCache();
      writeBytes, writeMarks, writeMfmSector, writeFailed := [], [], -1, false;
    }

    method Eject()
      requires Valid()
      modifies this
      ensures Valid() && View() == old(View()).Ejected()
      ensures mediaChanged == (old(kind) != Empty || old(mediaChanged)) && unchanged(this`forceReadOnly)
    {
      hide ReadBe32, Waiting;
      EmptyWaits(false);
      var _ := FlushWrites();
      mediaChanged := kind != Empty || mediaChanged;
      Clear();
    }

    method ClearMediaChanged()
      modifies this`mediaChanged
      ensures !mediaChanged
    {
      mediaChanged := false;
    }

    method Clear()
      modifies this
      ensures View() == Drive(NO_MEDIA.(attempts := old(attempts), file := old(file)), 0, 0, false, EMPTY_CACHE, [])
      ensures writeMarks == [] && unchanged(this`mediaChanged, this`forceReadOnly)
    {
      SetMedium([], Empty, [], [], [], false, false, false);
      motorOn := false;
      Reset();
    }

    // ---------- head and motor ----------

    method SetCurrentTrack(track: int)
      requires Valid()
      modifies this
      ensures Valid() && View() == old(View()).SeekTo(track)
      ensures unchanged(this`mediaChanged, this`forceReadOnly)
    {
      var clamped := if track < 0 then 0 else if track > TRACKS - 1 then TRACKS - 1 else track;
      if currentTrack != clamped {
        var _ := FlushWrites();
        MoveHead(clamped, currentSide);
      }
    }

    method Step(towardTrackZero: bool)
      requires Valid()
      modifies this
      ensures Valid() && View() == old(View()).SeekTo(old(currentTrack) + if towardTrackZero then -1 else 1)
      ensures unchanged(this`mediaChanged, this`forceReadOnly)
    {
      SetCurrentTrack(currentTrack + if towardTrackZero then -1 else 1);
    }

    method SetCurrentSide(side: int)
      requires Valid()
      modifies this
      ensures Valid() && View() == old(View()).SelectSide(side)
      ensures unchanged(this`mediaChanged, this`forceReadOnly)
    {
      var clamped := if !doubleSided || side < 0 then 0 else if side > 1 then 1 else side;
      if currentSide != clamped {
        var _ := FlushWrites();
        MoveHead(currentTrack, clamped);
      }
    }

    method SetMotorOn(on: bool)
      requires Valid()
      modifies this
      ensures Valid() && View() == old(View()).SetMotor(on)
      ensures unchanged(this`mediaChanged, this`forceReadOnly)
    {
      if motorOn && !on {
        var _ := FlushWrites();
      }
      motorOn := on;
    }

    /** The head at another place, with nothing cached. */
    method MoveHead(track: nat, side: nat)
      modifies this`currentTrack, this`currentSide, this`trackCache
      ensures View() == old(View()).(track := track, side := side, cache := EMPTY_CACHE)
    {
      currentTrack, currentSide := track, side;
      InvalidateTrackCache();
    }

    method InvalidateTrackCache()
      modifies this`trackCache
      ensures trackCache == EMPTY_CACHE
    {
      trackCache := EMPTY_CACHE;
    }

    // ---------- reading ----------

    method PeekDiskByte() returns (b: DiskByte)
      requires Valid()
      modifies this`trackCache
      ensures Valid() && (View(), b) == old(View()).Peek()
    {
      hide GcrTrack, MfmTrack, MfmTrackMarks, Waiting;
      if kind == Empty || !motorOn { return NO_BYTE; }
      if trackCache.bytes == [] || trackCache.track != currentTrack || trackCache.side != currentSide {
        RebuildTrackCache();
      }
      if trackCache.bytes == [] { return NO_BYTE; }
      b := DiskByte(trackCache.bytes[trackCache.cursor],
                    trackCache.cursor < |trackCache.marks| && trackCache.marks[trackCache.cursor]);
    }

    method NextDiskByte() returns (b: DiskByte)
      requires Valid()
      modifies this`trackCache
      ensures Valid() && (View(), b) == old(View()).Next()
    {
      hide GcrTrack, MfmTrack, MfmTrackMarks, Waiting;
      b := PeekDiskByte();
      if kind == Empty || !motorOn || trackCache.bytes == [] { return; }
      trackCache := trackCache.(cursor := (trackCache.cursor + 1) % |trackCache.bytes|);
    }

    method RebuildTrackCache()
      requires Valid()
      modifies this`trackCache
      ensures Valid() && View() == old(View()).Rebuilt()
    {
      hide GcrTrack, MfmTrack, MfmTrackMarks, Waiting;
      trackCache := TrackCache(currentTrack, currentSide, [], [], 0);
      var at := Place(currentTrack, currentSide);
      if highDensity {
        var bytes, marks := BuildMfmTrack(at);
        trackCache := trackCache.(bytes := bytes, marks := marks);
      } else {
        var bytes := BuildTrackBytes(at);
        trackCache := trackCache.(bytes := bytes);
      }
    }

    /** A freshly built track, whatever is cached. */
    method TrackBytesForDebug(track: int, side: int) returns (bytes: seq<byte>)
      requires Valid()
      ensures track == currentTrack && side == currentSide ==> bytes == View().Built().0
    {
      hide GcrTrack, MfmTrack, MfmTrackMarks, Waiting, ReadBe32;
      var clampedTrack := if track < 0 then 0 else if track > TRACKS - 1 then TRACKS - 1 else track;
      var clampedSide := if !doubleSided || side < 0 then 0 else if side > 1 then 1 else side;
      if !highDensity {
        bytes := BuildTrackBytes(Place(clampedTrack, clampedSide));
      } else {
        ghost var marks;
        bytes, marks := BuildMfmTrack(Place(clampedTrack, clampedSide));
      }
    }

    method BuildTrackBytes(at: Place) returns (bytes: seq<byte>)
      requires at.track < TRACKS
      ensures bytes == GcrTrack(Medium(), at)
    {
      hide GcrSector;
      bytes := [];
      if kind == Empty { return; }
      bytes := Repeat(0xff, 48);
      var order := InterleavedSectorOrder(SectorsForTrack(at.track));
      assert order == TrackOrder(at.track);
      for i := 0 to |order|
        invariant bytes + GcrSectors(Medium(), at, order, i) == GcrTrack(Medium(), at)
      {
        NextGcrSector(Medium(), at, order, i, bytes);
        bytes := AppendSector(bytes, at, order[i]);
      }
      bytes := bytes + Repeat(0xff, 128);
    }

    lemma NextGcrSector(m: Media, at: Place, order: seq<nat>, i: nat, bytes: seq<byte>)
      requires at.track < TRACKS && i < |order| && forall j :: 0 <= j < |order| ==> order[j] < 12
      ensures bytes + GcrSectors(m, at, order, i) == bytes + GcrSector(m, at, order[i]) + GcrSectors(m, at, order, i + 1)
    {
      hide GcrSector;
    }

    method AppendSector(track: seq<byte>, at: Place, sector: nat) returns (bytes: seq<byte>)
      requires at.track < TRACKS && sector < 12
      ensures bytes == track + GcrSector(Medium(), at, sector)
    {
      hide EncodePayload, Nibble, AddressNibbles, SectorPayload;
      var lead := Repeat(0xff, 18) + ADDRESS_PROLOGUE;
      lead := lead + AddressNibbles(doubleSided, at, sector) + EPILOGUE;
      lead := lead + Repeat(0xff, 14);
      var payload := BuildSectorPayload(at, sector);
      var record := AppendEncodedPayload(DATA_PROLOGUE + [Nibble(sector as byte)], payload);
      record := record + EPILOGUE;
      bytes := track + (lead + record + Repeat(0xff, 8));
    }

    method BuildSectorPayload(at: Place, sector: nat) returns (payload: seq<byte>)
      ensures payload == SectorPayload(Medium(), at, sector)
    {
      var first := ComputeFirstBlockForTrack(at.track, at.side, doubleSided);
      var block := first + sector;
      payload := Repeat(0, PAYLOAD_BYTES);
      if block < |data| / SECTOR_BYTES {
        if block < |tags| && |tags[block]| == TAG_BYTES {
          payload := Overwrite(payload, 0, tags[block]);
        }
        payload := Overwrite(payload, TAG_BYTES, data[block * SECTOR_BYTES..(block + 1) * SECTOR_BYTES]);
      }
    }

    method BuildMfmTrack(at: Place) returns (bytes: seq<byte>, marks: seq<bool>)
      requires Valid() && highDensity && at.track < TRACKS && at.side < 2
      ensures bytes == MfmTrack(Medium(), at) && marks == MfmTrackMarks(Medium(), at)
      ensures |bytes| == MFM_TRACK && |marks| == MFM_TRACK
    {
      hide MfmField, MfmSectors, MfmSectorMarks, ReadBe32, Media.Valid, Waiting, Unmarked;
      MediumIsInserted();
      MfmTrackLength(Medium(), at);
      bytes, marks := Repeat(0x4e, 80) + Repeat(0x00, 12), Unmarked(92);
      bytes, marks := AppendMfmField(bytes, marks, 0xfc, [], 0xc2);
      bytes, marks := bytes + Repeat(0x4e, 50), marks + Unmarked(50);
      assert bytes == MfmLead() && marks == MfmLeadMarks();
      bytes, marks := AppendMfmSectors(bytes, marks, at);
      assert |bytes| + 202 == MFM_TRACK;
      var filler := MFM_TRACK - |bytes|;
      bytes, marks := bytes + Repeat(0x4e, filler), marks + Unmarked(filler);
    }

    lemma MediumIsInserted()
      requires Valid() && highDensity
      ensures Medium().Valid() && Medium().Inserted()
    {
      hide ReadBe32, Waiting;
    }

    /** The sector loop; what is missing behind the last sector is the filler. */
    method AppendMfmSectors(lead: seq<byte>, leadMarks: seq<bool>, at: Place) returns (bytes: seq<byte>, marks: seq<bool>)
      requires at.track < TRACKS && at.side < 2
      ensures bytes + Repeat(0x4e, 202) == lead + MfmSectors(Medium(), at, 0)
      ensures marks + Unmarked(202) == leadMarks + MfmSectorMarks(Medium(), at, 0)
    {
      hide MfmSectors, MfmSectorMarks, MfmSector, MfmSectorMark, Unmarked;
      bytes, marks := lead, leadMarks;
      for sector := 0 to MFM_SECTORS
        invariant bytes + MfmSectors(Medium(), at, sector) == lead + MfmSectors(Medium(), at, 0)
        invariant marks + MfmSectorMarks(Medium(), at, sector) == leadMarks + MfmSectorMarks(Medium(), at, 0)
      {
        NextSector(Medium(), at, sector, bytes, marks);
        bytes, marks := AppendMfmSector(bytes, marks, at, sector);
      }
      NoMoreSectors(Medium(), at);
    }

    lemma NextSector(m: Media, at: Place, sector: nat, bytes: seq<byte>, marks: seq<bool>)
      requires at.track < TRACKS && at.side < 2 && sector < MFM_SECTORS
      ensures bytes + MfmSectors(m, at, sector) == bytes + MfmSector(m, at, sector) + MfmSectors(m, at, sector + 1)
      ensures marks + MfmSectorMarks(m, at, sector) == marks + MfmSectorMark(m, at, sector) + MfmSectorMarks(m, at, sector + 1)
    {
      hide MfmSector, MfmSectorMark;
    }

    lemma NoMoreSectors(m: Media, at: Place)
      requires at.track < TRACKS && at.side < 2
      ensures MfmSectors(m, at, MFM_SECTORS) == Repeat(0x4e, 202) && MfmSectorMarks(m, at, MFM_SECTORS) == Unmarked(202)
    {}

    /** The body of the sector loop. */
    method AppendMfmSector(track: seq<byte>, trackMarks: seq<bool>, at: Place, sector: nat)
      returns (bytes: seq<byte>, marks: seq<bool>)
      requires at.track < TRACKS && at.side < 2 && sector < MFM_SECTORS
      ensures bytes == track + MfmSector(Medium(), at, sector)
      ensures marks == trackMarks + MfmSectorMark(Medium(), at, sector)
    {
      hide MfmField;
      var content := Mid(data, BlockOf(true, true, at.track, at.side, sector) * SECTOR_BYTES, SECTOR_BYTES);
      bytes, marks := track + Repeat(0x00, 12), trackMarks + Unmarked(12);
      bytes, marks := AppendMfmField(bytes, marks, 0xfe, IdPayload(at, sector), 0xa1);
      bytes, marks := bytes + MfmGap(), marks + Unmarked(34);
      bytes, marks := AppendMfmField(bytes, marks, 0xfb, content, 0xa1);
      bytes, marks := bytes + Repeat(0x4e, 101), marks + Unmarked(101);
    }

    method AppendMfmField(track: seq<byte>, trackMarks: seq<bool>, kind: byte, payload: seq<byte>, mark: byte)
      returns (bytes: seq<byte>, marks: seq<bool>)
      ensures bytes == track + MfmField(kind, payload, mark)
      ensures marks == trackMarks + FieldMarks(|payload|)
    {
      hide MfmCrc;
      var covered := [mark, mark, mark, kind] + payload;
      var crc := ComputeMfmCrc(covered);
      bytes := track + covered + [HighByte(crc), LowByte(crc)];
      marks := trackMarks + [true, true, true] + Unmarked(|payload| + 3);
    }

    // ---------- writing ----------

    method WriteDiskByte(value: byte, mark: bool) returns (ok: bool)
      requires Valid()
      modifies this
      ensures Valid() && (View(), ok) == old(View()).Write(host, value)
      ensures unchanged(this`mediaChanged, this`forceReadOnly)
    {
      if !writable || kind == Empty || !motorOn {
        writeFailed := true;
        return false;
      }
      hide Parse, Waiting, LastIdBefore, GcrTrack, MfmTrack, MfmTrackMarks, ReadBe32;
      ghost var refreshed := View().Refreshed();
      WriteIs(View(), host, value, refreshed, Parse(host, View().At(), refreshed.Armed(), writeBytes + [value]));
      ok := WriteReady(value, mark);
    }

    /** A write that nothing stands against. */
    method WriteReady(value: byte, mark: bool) returns (ok: bool)
      requires Valid() && View().Spinning()
      modifies this
      ensures var refreshed := old(View()).Refreshed();
              var r := Parse(host, old(View()).At(), refreshed.Armed(), old(writeBytes) + [value]);
              && View() == Drive(r.media, old(currentTrack), old(currentSide), old(motorOn),
                                 if r.committed then EMPTY_CACHE else refreshed.Advanced().cache, r.rest)
              && ok == (r.committed || !r.media.failed)
      ensures |writeMarks| == |writeBytes| && unchanged(this`mediaChanged, this`forceReadOnly)
    {
      hide Parse, Waiting, LastIdBefore, GcrTrack, MfmTrack, MfmTrackMarks, ReadBe32;
      hide Drive.Refreshed, Drive.Armed;
      ArmWrite();
      AppendByte(value, mark);
      var committed := ProcessWrites();
      if |writeBytes| > 16384 {
        assert false;
      }
      ok := committed || !writeFailed;
    }

    /** Rebuilds the cache if need be and sets an unset sector register from it. */
    method ArmWrite()
      requires Valid() && View().Spinning()
      modifies this`trackCache, this`writeMfmSector
      ensures var refreshed := old(View()).Refreshed();
              View() == refreshed.(media := refreshed.Armed())
    {
      hide LastIdBefore, Waiting, GcrTrack, MfmTrack, MfmTrackMarks;
      if trackCache.bytes == [] || trackCache.track != currentTrack || trackCache.side != currentSide {
        RebuildTrackCache();
      }
      if highDensity && writeBytes == [] && writeMfmSector < 0 {
        writeMfmSector := InferMfmSectorAtCursor();
      }
    }

    method AppendByte(value: byte, mark: bool)
      modifies this`writeBytes, this`writeMarks, this`trackCache
      ensures View() == old(View()).Advanced().(written := old(writeBytes) + [value])
      ensures writeMarks == old(writeMarks) + [mark]
    {
      writeBytes, writeMarks := writeBytes + [value], writeMarks + [mark];
      if trackCache.bytes != [] {
        trackCache := trackCache.(cursor := (trackCache.cursor + 1) % |trackCache.bytes|);
      }
    }

    method ProcessWrites() returns (committed: bool)
      requires |writeMarks| == |writeBytes|
      modifies this`data, this`tags, this`attempts, this`file, this`writeFailed, this`trackCache,
               this`writeMfmSector, this`writeBytes, this`writeMarks
      ensures var r := Parse(host, old(View()).At(), old(Medium()), old(writeBytes));
              Medium() == r.media && writeBytes == r.rest && committed == r.committed
      ensures |writeMarks| == |writeBytes| && trackCache == if committed then EMPTY_CACHE else old(trackCache)
    {
      if highDensity {
        committed := ProcessMfmWrites();
      } else {
        committed := ProcessGcrWrites();
      }
    }

    method FlushWrites() returns (ok: bool)
      requires Valid()
      modifies this
      ensures Valid() && View() == old(View()).Flushed() && ok == !old(writeFailed)
      ensures unchanged(this`mediaChanged, this`forceReadOnly)
    {
      hide Parse, Drive.Valid;
      FlushIsQuiet();
      if writeBytes != [] {
        var _ := ProcessWrites();
      }
      ok := !writeFailed;
      ForgetWrites();
    }

    method ForgetWrites()
      modifies this`writeBytes, this`writeMarks, this`writeMfmSector, this`writeFailed
      ensures View() == old(View()).Flushed() && writeMarks == []
    {
      writeBytes, writeMarks, writeMfmSector, writeFailed := [], [], -1, false;
    }

    lemma FlushIsQuiet()
      requires Valid()
      ensures Parse(host, View().At(), Medium(), writeBytes) == Parsed(Medium(), writeBytes, false)
      ensures View().Flushed().Valid()
    {
      WaitingIsIdle(host, View().At(), Medium(), writeBytes);
      OperationsKeepValid(View(), 0, false);
    }

    /** Drops the first `count` bytes of the write buffer. */
    method Drop(count: nat)
      requires count <= |writeBytes| == |writeMarks|
      modifies this`writeBytes, this`writeMarks
      ensures writeBytes == old(writeBytes)[count..] && |writeMarks| == |writeBytes|
    {
      writeBytes, writeMarks := writeBytes[count..], writeMarks[count..];
    }

    /** The body of the group-coded loop once a complete record is at the front of the buffer. */
    method HandleGcrRecord(record: seq<byte>) returns (committed: bool)
      requires !highDensity && |record| == GCR_RECORD
      modifies this`data, this`tags, this`attempts, this`file, this`writeFailed, this`trackCache
      ensures var done := Act(host, old(View()).At(), old(Medium()), record);
              Medium() == done.media && committed == done.committed
      ensures trackCache == if committed then EMPTY_CACHE else old(trackCache)
    {
      hide DecodeGcr, DecodePayload, EncodePayload, Commit;
      committed := false;
      var sector := DecodeGcr(record[3]);
      var valid, payload := false, [];
      if sector.Some? && sector.value as nat < SectorsForTrack(currentTrack) {
        valid, payload := DecodeGcrPayload(record[4..707]);
      }
      if valid {
        committed := CommitSector(sector.value as nat, payload[TAG_BYTES..], payload[..TAG_BYTES]);
      } else {
        writeFailed := true;
      }
    }

    /** One turn of the group-coded loop: stop, or handle what the buffer starts with. */
    method GcrTurn() returns (more: bool, committed: bool)
      requires !highDensity && |writeMarks| == |writeBytes|
      modifies this`data, this`tags, this`attempts, this`file, this`writeFailed, this`trackCache,
               this`writeMfmSector, this`writeBytes, this`writeMarks
      ensures Parse(host, old(View()).At(), old(Medium()), old(writeBytes))
           == After(if more then Parse(host, View().At(), Medium(), writeBytes) else Parsed(Medium(), writeBytes, false), committed)
      ensures |writeMarks| == |writeBytes| && trackCache == if committed then EMPTY_CACHE else old(trackCache)
      ensures |writeBytes| <= |old(writeBytes)| && (more ==> |writeBytes| < |old(writeBytes)|)
    {
      hide Parse, Act, Find, MatchAt, Sync, Take;
      ghost var at, m, buffer := View().At(), Medium(), writeBytes;
      ParseStops(host, at, m, buffer);
      var found := Align(Sync(false));
      if !found { return false, false; }
      ghost var b := writeBytes;
      more, committed := GcrRecordTurn();
      if more { ParseTurns(host, at, m, buffer, b, Take(false, b)); }
    }

    /** Drops what stands before the first sync bytes, or all but two bytes if there are none. */
    method Align(sync: seq<byte>) returns (found: bool)
      requires |sync| == 3 && |writeMarks| == |writeBytes|
      modifies this`writeBytes, this`writeMarks
      ensures var p := Find(old(writeBytes), sync, 0);
              found == (p != -1) && writeBytes == (if found then old(writeBytes)[p..] else Tail(old(writeBytes)))
      ensures |writeMarks| == |writeBytes| && (found ==> |writeBytes| >= 3)
    {
      hide Find;
      var prologue := Find(writeBytes, sync, 0);
      found := prologue >= 0;
      if prologue < 0 {
        if |writeBytes| > 2 { Drop(|writeBytes| - 2); }
      } else if prologue > 0 {
        Drop(prologue);
      }
    }

    /** The part of the turn that starts with three sync bytes. */
    method GcrRecordTurn() returns (more: bool, committed: bool)
      requires !highDensity && 3 <= |writeBytes| == |writeMarks|
      modifies this`data, this`tags, this`attempts, this`file, this`writeFailed, this`trackCache,
               this`writeMfmSector, this`writeBytes, this`writeMarks
      ensures more == (Take(false, old(writeBytes)) > 0)
      ensures var done := if more then Act(host, old(View()).At(), old(Medium()), old(writeBytes)[..Take(false, old(writeBytes))])
                          else Acted(old(Medium()), false);
              Medium() == done.media && committed == done.committed
      ensures writeBytes == old(writeBytes)[Take(false, old(writeBytes))..] && |writeMarks| == |writeBytes|
      ensures trackCache == if committed then EMPTY_CACHE else old(trackCache)
    {
      hide Act;
      if |writeBytes| < GCR_RECORD { return false, false; }
      if writeBytes[707..710] != EPILOGUE {
        ActOnByte(host, View().At(), Medium(), writeBytes[..1]);
        Drop(1);
        return true, false;
      }
      committed := HandleGcrRecord(writeBytes[..GCR_RECORD]);
      Drop(GCR_RECORD);
      more := true;
    }

    method ProcessGcrWrites() returns (committed: bool)
      requires !highDensity && |writeMarks| == |writeBytes|
      modifies this`data, this`tags, this`attempts, this`file, this`writeFailed, this`trackCache,
               this`writeMfmSector, this`writeBytes, this`writeMarks
      ensures var r := Parse(host, old(View()).At(), old(Medium()), old(writeBytes));
              Medium() == r.media && writeBytes == r.rest && committed == r.committed
      ensures |writeMarks| == |writeBytes| && trackCache == if committed then EMPTY_CACHE else old(trackCache)
    {
      hide Parse;
      ghost var result := Parse(host, View().At(), Medium(), writeBytes);
      committed := false;
      var more := true;
      while more
        invariant |writeMarks| == |writeBytes| && trackCache == if committed then EMPTY_CACHE else old(trackCache)
        invariant result == After(if more then Parse(host, View().At(), Medium(), writeBytes) else Parsed(Medium(), writeBytes, false), committed)
        decreases more, |writeBytes|
      {
        var done;
        more, done := GcrTurn();
        committed := committed || done;
      }
    }

    /** The body of the MFM loop for a complete ID field. */
    method HandleIdField()
      requires highDensity && MFM_ID <= |writeBytes| == |writeMarks|
      modifies this`writeMfmSector, this`writeBytes, this`writeMarks
      ensures Acted(Medium(), false) == Act(host, View().At(), old(Medium()), old(writeBytes)[..MFM_ID])
      ensures writeBytes == old(writeBytes)[MFM_ID..] && |writeMarks| == |writeBytes|
    {
      hide MfmCrc;
      ghost var record := writeBytes[..MFM_ID];
      var expected := ComputeMfmCrc(writeBytes[..8]);
      assert Covered(record) == writeBytes[..8];
      var actual := Join(writeBytes[8], writeBytes[9]);
      if expected == actual && writeBytes[4] as nat == currentTrack && writeBytes[5] as nat == currentSide && writeBytes[7] == 2 {
        writeMfmSector := writeBytes[6] as nat - 1;
      }
      Drop(MFM_ID);
    }

    /** The body of the MFM loop for a complete data field. */
    method HandleDataField() returns (committed: bool)
      requires highDensity && MFM_DATA <= |writeBytes| == |writeMarks|
      modifies this`data, this`tags, this`attempts, this`file, this`writeFailed, this`trackCache, this`writeBytes, this`writeMarks
      ensures var done := Act(host, old(View()).At(), old(Medium()), old(writeBytes)[..MFM_DATA]);
              Medium() == done.media && committed == done.committed
      ensures trackCache == if committed then EMPTY_CACHE else old(trackCache)
      ensures writeBytes == old(writeBytes)[MFM_DATA..] && |writeMarks| == |writeBytes|
    {
      hide MfmCrc, Commit;
      ghost var record := writeBytes[..MFM_DATA];
      committed := false;
      var expected := ComputeMfmCrc(writeBytes[..4 + SECTOR_BYTES]);
      assert Covered(record) == writeBytes[..4 + SECTOR_BYTES];
      assert record[4..4 + SECTOR_BYTES] == writeBytes[4..4 + SECTOR_BYTES];
      var actual := Join(writeBytes[4 + SECTOR_BYTES], writeBytes[5 + SECTOR_BYTES]);
      if 0 <= writeMfmSector < MFM_SECTORS && expected == actual {
        committed := CommitSector(writeMfmSector, writeBytes[4..4 + SECTOR_BYTES], []);
      } else {
        writeFailed := true;
      }
      Drop(MFM_DATA);
    }

    /** One turn of the MFM loop: stop, or handle what the buffer starts with. */
    method MfmTurn() returns (more: bool, committed: bool)
      requires highDensity && |writeMarks| == |writeBytes|
      modifies this`data, this`tags, this`attempts, this`file, this`writeFailed, this`trackCache,
               this`writeMfmSector, this`writeBytes, this`writeMarks
      ensures Parse(host, old(View()).At(), old(Medium()), old(writeBytes))
           == After(if more then Parse(host, View().At(), Medium(), writeBytes) else Parsed(Medium(), writeBytes, false), committed)
      ensures |writeMarks| == |writeBytes| && trackCache == if committed then EMPTY_CACHE else old(trackCache)
      ensures |writeBytes| <= |old(writeBytes)| && (more ==> |writeBytes| < |old(writeBytes)|)
    {
      hide Parse, Act, Find, MatchAt, Sync, Take;
      ghost var at, m, buffer := View().At(), Medium(), writeBytes;
      ParseStops(host, at, m, buffer);
      var found := Align(Sync(true));
      if !found { return false, false; }
      ghost var b := writeBytes;
      more, committed := MfmRecord();
      if more { ParseTurns(host, at, m, buffer, b, Take(true, b)); }
    }

    /** The part of the turn that starts with three sync bytes. */
    method MfmRecord() returns (more: bool, committed: bool)
      requires highDensity && 3 <= |writeBytes| == |writeMarks|
      modifies this`data, this`tags, this`attempts, this`file, this`writeFailed, this`trackCache,
               this`writeMfmSector, this`writeBytes, this`writeMarks
      ensures more == (Take(true, old(writeBytes)) > 0)
      ensures var done := if more then Act(host, old(View()).At(), old(Medium()), old(writeBytes)[..Take(true, old(writeBytes))])
                          else Acted(old(Medium()), false);
              Medium() == done.media && committed == done.committed
      ensures writeBytes == old(writeBytes)[Take(true, old(writeBytes))..] && |writeMarks| == |writeBytes|
      ensures trackCache == if committed then EMPTY_CACHE else old(trackCache)
    {
      hide Act;
      committed := false;
      if |writeBytes| < 4 { return false, false; }
      if writeBytes[3] == 0xfe {
        if |writeBytes| < MFM_ID { return false, false; }
        HandleIdField();
        return true, false;
      }
      if writeBytes[3] == 0xfb || writeBytes[3] == 0xf8 {
        if |writeBytes| < MFM_DATA { return false, false; }
        committed := HandleDataField();
        return true, committed;
      }
      ActOnByte(host, View().At(), Medium(), writeBytes[..1]);
      Drop(1);
      more := true;
    }

    method ProcessMfmWrites() returns (committed: bool)
      requires highDensity && |writeMarks| == |writeBytes|
      modifies this`data, this`tags, this`attempts, this`file, this`writeFailed, this`trackCache,
               this`writeMfmSector, this`writeBytes, this`writeMarks
      ensures var r := Parse(host, old(View()).At(), old(Medium()), old(writeBytes));
              Medium() == r.media && writeBytes == r.rest && committed == r.committed
      ensures |writeMarks| == |writeBytes| && trackCache == if committed then EMPTY_CACHE else old(trackCache)
    {
      hide Parse;
      ghost var result := Parse(host, View().At(), Medium(), writeBytes);
      committed := false;
      var more := true;
      while more
        invariant |writeMarks| == |writeBytes| && trackCache == if committed then EMPTY_CACHE else old(trackCache)
        invariant result == After(if more then Parse(host, View().At(), Medium(), writeBytes) else Parsed(Medium(), writeBytes, false), committed)
        decreases more, |writeBytes|
      {
        var done;
        more, done := MfmTurn();
        committed := committed || done;
      }
    }

    lemma ActOnByte(host: Host, at: Place, m: Media, b: seq<byte>)
      requires |b| == 1
      ensures Act(host, at, m, b) == Acted(m, false)
    {}

    method CommitSector(sector: nat, content: seq<byte>, tag: seq<byte>) returns (ok: bool)
      modifies this`data, this`tags, this`attempts, this`file, this`writeFailed, this`trackCache
      ensures var done := Commit(host, old(View()).At(), old(Medium()), sector, content, tag);
              Medium() == done.media && ok == done.committed
      ensures trackCache == if ok then EMPTY_CACHE else old(trackCache)
    {
      hide FileImage, FirstBlockForTrack, Stored, Persist;
      if |content| != SECTOR_BYTES { return false; }
      var block;
      if highDensity {
        block := (currentTrack * 2 + currentSide) * 18 + sector;
      } else {
        block := ComputeFirstBlockForTrack(currentTrack, currentSide, doubleSided);
        block := block + sector;
      }
      if block >= |data| / SECTOR_BYTES { return false; }
      StoreSector(block, content, tag);
      ok := SaveSector();
    }

    method StoreSector(block: nat, content: seq<byte>, tag: seq<byte>)
      requires |content| == SECTOR_BYTES && block < |data| / SECTOR_BYTES
      modifies this`data, this`tags
      ensures Medium() == Stored(old(Medium()), block, content, tag)
    {
      hide Overwrite;
      data := Overwrite(data, block * SECTOR_BYTES, content);
      if tag != [] && block < |tags| && |tag| == TAG_BYTES {
        tags := tags[block := tag];
      }
    }

    /** A save that fails raises the flag; one that succeeds drops the cached track. */
    method SaveSector() returns (ok: bool)
      modifies this`attempts, this`file, this`writeFailed, this`trackCache
      ensures var (saved, accepted) := Persist(host, old(Medium()));
              ok == accepted && Medium() == if ok then saved else saved.(failed := true)
      ensures trackCache == if ok then EMPTY_CACHE else old(trackCache)
    {
      hide Persist;
      ok := PersistImage();
      if ok {
        InvalidateTrackCache();
      } else {
        writeFailed := true;
      }
    }

    method PersistImage() returns (ok: bool)
      modifies this`attempts, this`file
      ensures (Medium(), ok) == Persist(host, old(Medium()))
    {
      hide DiskCopyChecksum, WriteBe32;
      if !writable || path == [] { return false; }
      var output;
      if kind == DiskCopy42 {
        assert [] + Flatten(tags[0..]) == Flatten(tags);
        output := diskCopyHeader;
        if |output| != CONTAINER_HEADER { return false; }
        output := output + data;
        var tagBytes := [];
        for i := 0 to |tags|
          invariant tagBytes + Flatten(tags[i..]) == Flatten(tags)
        {
          assert tags[i..][1..] == tags[i + 1..];
          tagBytes := tagBytes + tags[i];
        }
        assert tagBytes == Flatten(tags);
        output := output + tagBytes;
        var dataCheck := ComputeDiskCopyChecksum(data);
        output := WriteBe32(output, 72, dataCheck);
        var tagCheck := ComputeDiskCopyChecksum(Mid(tagBytes, TAG_BYTES, |tagBytes|));
        output := WriteBe32(output, 76, tagCheck);
      } else {
        output := data;
      }
      ok := host.accepts(attempts);
      attempts := attempts + 1;
      if ok { file := output; }
    }

    method InferMfmSectorAtCursor() returns (sector: int)
      ensures sector == View().Inferred()
    {
      if trackCache.bytes == [] { return -1; }
      sector := -1;
      var bytes := trackCache.bytes;
      var limit := if trackCache.cursor < |trackCache.bytes| then trackCache.cursor else |trackCache.bytes|;
      var offset := 0;
      while offset + 7 < limit
        invariant offset + 7 <= limit || offset == 0
        invariant sector == LastIdBefore(bytes, if offset + 7 <= limit then offset + 7 else limit)
      {
        assert bytes[offset..offset + 4] == [bytes[offset], bytes[offset + 1], bytes[offset + 2], bytes[offset + 3]];
        assert IdMark(bytes, offset) <==> bytes[offset..offset + 4] == [0xa1, 0xa1, 0xa1, 0xfe];
        if bytes[offset..offset + 4] == [0xa1, 0xa1, 0xa1, 0xfe] {
          sector := bytes[offset + 6] as nat - 1;
        }
        offset := offset + 1;
      }
    }
  }
}
