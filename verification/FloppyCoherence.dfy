/**
 What a reader sees over whole runs. The cached track is rebuilt only after a successful commit or
 a move of the head, so it shows the present contents as long as every save succeeds, and a refused
 save is exactly what makes it show something else.
 */
module FloppyCoherence {
  import opened Bytes
  import opened FloppyGeometry
  import opened FloppyMedia
  import opened FloppyTracks
  import opened FloppyWrites
  import opened FloppyDrive
  import opened FloppyRuns
  import opened FloppyCopies
  import opened GcrCodec

  // ---------- runs ----------

  datatype Op =
    | Seek(target: int)
    | Step(towardTrackZero: bool)
    | Side(target: int)
    | Motor(on: bool)
    | Read
    | Peek
    | Write(value: byte)
    | Flush
    | Eject
    | InsertRaw(path: string, bytes: seq<byte>, kind: Kind, writable: bool)
    | InsertContainer(path: string, bytes: seq<byte>, writable: bool)

  const NEW_DRIVE := Drive(NO_MEDIA, 0, 0, false, EMPTY_CACHE, [])

  /** The calls a client may make; a load of another size than its kind has is refused before it starts. */
  predicate Legal(op: Op)
  {
    match op
    case InsertRaw(path, bytes, kind, writable) =>
      && kind in {Raw400K, Raw800K, Raw1440K} && (writable ==> path != [])
      && |bytes| == BlockCount(kind.Raw1440K?, !kind.Raw400K?) * SECTOR_BYTES
    case InsertContainer(path, bytes, writable) => writable ==> path != []
    case _ => true
  }

  function Apply(host: Host, d: Drive, op: Op): (r: Drive)
    requires d.Valid() && Legal(op)
  {
    match op
    case Seek(target) => d.SeekTo(target)
    case Step(towardTrackZero) => d.SeekTo(d.track + if towardTrackZero then -1 else 1)
    case Side(target) => d.SelectSide(target)
    case Motor(on) => d.SetMotor(on)
    case Read => d.Next().0
    case Peek => d.Peek().0
    case Write(value) => d.Write(host, value).0
    case Flush => d.Flushed()
    case Eject => d.Ejected()
    case InsertRaw(path, bytes, kind, writable) => d.Loaded(LoadRaw(d.media, path, bytes, kind, writable))
    case InsertContainer(path, bytes, writable) =>
      var loaded := LoadDiskCopy42(d.media, path, bytes, writable);
      if loaded.Some? then d.Loaded(loaded.value) else d
  }

  function Run(host: Host, d: Drive, ops: seq<Op>): (r: Drive)
    requires d.Valid() && forall i :: 0 <= i < |ops| ==> Legal(ops[i])
    ensures r.Valid()
    decreases |ops|
  {
    if ops == [] then d
    else
      ApplyKeepsValid(host, d, ops[0]);
      Run(host, Apply(host, d, ops[0]), ops[1..])
  }

  lemma ApplyKeepsValid(host: Host, d: Drive, op: Op)
    requires d.Valid() && Legal(op)
    ensures Apply(host, d, op).Valid()
  {
    if op.InsertRaw? || op.InsertContainer? {
      InsertKeepsValid(host, d, op);
    } else {
      hide Drive.Write, Drive.Valid;
      if op.Write? {
        WriteKeepsValid(host, d, op.value);
      } else {
        MoveKeepsValid(host, d, op);
      }
    }
  }

  lemma MoveKeepsValid(host: Host, d: Drive, op: Op)
    requires d.Valid() && !op.InsertRaw? && !op.InsertContainer? && !op.Write?
    ensures Apply(host, d, op).Valid()
  {
    hide Drive.Write, Drive.SeekTo, Drive.SelectSide, Drive.SetMotor, Drive.Next, Drive.Peek, Drive.Flushed, Drive.Ejected;
    hide Drive.Loaded, Drive.Refreshed, Drive.Rebuilt, Drive.Advanced, LoadDiskCopy42, LoadRaw, Drive.Valid, Media.Valid;
    var target := if op.Seek? || op.Side? then op.target
                  else if op.Step? then d.track + (if op.towardTrackZero then -1 else 1)
                  else 0;
    OperationsKeepValid(d, target, op.Motor? && op.on);
  }

  lemma InsertKeepsValid(host: Host, d: Drive, op: Op)
    requires d.Valid() && Legal(op) && (op.InsertRaw? || op.InsertContainer?)
    ensures Apply(host, d, op).Valid()
  {
    hide Drive.Loaded, LoadDiskCopy42, LoadRaw, Media.Valid, Drive.Valid;
    match op
    case InsertRaw(path, bytes, kind, writable) =>
      LoadedRawIsValid(d.media, path, bytes, kind, writable);
      LoadedIsValid(d, LoadRaw(d.media, path, bytes, kind, writable));
    case InsertContainer(path, bytes, writable) =>
      LoadedContainerIsValid(d.media, path, bytes, writable);
      var loaded := LoadDiskCopy42(d.media, path, bytes, writable);
      if loaded.Some? { LoadedIsValid(d, loaded.value); }
  }

  lemma LoadedIsValid(d: Drive, m: Media)
    requires m.Valid()
    ensures d.Loaded(m).Valid()
  {
    hide Media.Valid, Waiting;
    EmptyWaits(m.highDensity);
  }

  lemma LoadedRawIsValid(m: Media, path: string, bytes: seq<byte>, kind: Kind, writable: bool)
    requires Legal(InsertRaw(path, bytes, kind, writable))
    ensures LoadRaw(m, path, bytes, kind, writable).Valid()
  {
    hide ReadBe32;
  }

  // ---------- a track depends on the contents only ----------

  predicate SameContents(m: Media, m': Media)
  {
    m.kind == m'.kind && m.data == m'.data && m.tags == m'.tags && m.doubleSided == m'.doubleSided && m.highDensity == m'.highDensity
  }

  lemma {:induction false} GcrSectorsFollow(m: Media, m': Media, at: Place, order: seq<nat>, i: nat)
    requires SameContents(m, m') && at.track < TRACKS && i <= |order| && forall j :: 0 <= j < |order| ==> order[j] < 12
    ensures GcrSectors(m, at, order, i) == GcrSectors(m', at, order, i)
    decreases |order| - i
  {
    hide EncodePayload, AddressNibbles, Nibble, FirstBlockForTrack;
    if i < |order| {
      assert SectorPayload(m, at, order[i]) == SectorPayload(m', at, order[i]);
      GcrSectorsFollow(m, m', at, order, i + 1);
    }
  }

  lemma {:induction false} MfmSectorsFollow(m: Media, m': Media, at: Place, sector: nat)
    requires SameContents(m, m') && at.track < TRACKS && at.side < 2 && sector <= MFM_SECTORS
    ensures MfmSectors(m, at, sector) == MfmSectors(m', at, sector)
    ensures MfmSectorMarks(m, at, sector) == MfmSectorMarks(m', at, sector)
    decreases MFM_SECTORS - sector
  {
    hide MfmField;
    if sector < MFM_SECTORS {
      assert MfmContent(m, at, sector) == MfmContent(m', at, sector);
      MfmSectorsFollow(m, m', at, sector + 1);
    }
  }

  lemma BuiltFollows(d: Drive, d': Drive)
    requires d.Valid() && d'.Valid() && d.At() == d'.At() && SameContents(d.media, d'.media)
    ensures d.Built() == d'.Built()
  {
    hide GcrSectors, MfmSectors, MfmSectorMarks, MfmLead, MfmLeadMarks, Waiting, ReadBe32;
    if d.media.highDensity {
      MfmSectorsFollow(d.media, d'.media, d.At(), 0);
    } else {
      GcrSectorsFollow(d.media, d'.media, d.At(), TrackOrder(d.track), 0);
    }
  }

  // ---------- a parse that commits nothing changes no contents ----------

  lemma CommitOrNothing(host: Host, at: Place, m: Media, sector: nat, content: seq<byte>, tag: seq<byte>)
    requires Ready(m) && SavesSucceed(host, m)
    ensures var done := Commit(host, at, m, sector, content, tag);
            && Ready(done.media) && SavesSucceed(host, done.media) && (!done.committed ==> SameContents(m, done.media))
  {
    hide BlockOf, FileImage, Stored, ReadBe32;
    var block := BlockOf(m.highDensity, m.doubleSided, at.track, at.side, sector);
    CommitKeepsValid(host, at, m, sector, content, tag);
    CommitKeepsDisk(host, at, m, sector, content, tag);
    if |content| == SECTOR_BYTES && block < |m.data| / SECTOR_BYTES {
      StoredKeepsValid(m, block, content, tag);
      var stored := Stored(m, block, content, tag);
      FileImageFollows(stored, stored);
      StoredIsWritable(m, block, content, tag);
    }
  }

  lemma StoredIsWritable(m: Media, block: nat, content: seq<byte>, tag: seq<byte>)
    requires |content| == SECTOR_BYTES && block < |m.data| / SECTOR_BYTES
    ensures var r := Stored(m, block, content, tag);
            r.writable == m.writable && r.path == m.path && r.attempts == m.attempts && r.kind == m.kind
  {}

  lemma ActOrNothing(host: Host, at: Place, m: Media, record: seq<byte>)
    requires Ready(m) && SavesSucceed(host, m)
    ensures var done := Act(host, at, m, record);
            && Ready(done.media) && SavesSucceed(host, done.media) && (!done.committed ==> SameContents(m, done.media))
  {
    hide CheckHolds, DecodeGcr, DecodePayload, Commit, ReadBe32;
    if m.highDensity && |record| == MFM_DATA && m.sector >= 0 {
      CommitOrNothing(host, at, m, m.sector, record[4..4 + SECTOR_BYTES], []);
    } else if !m.highDensity && |record| == GCR_RECORD {
      var sector, payload := DecodeGcr(record[3]), DecodePayload(record[4..707]);
      if sector.Some? && payload.Some? {
        CommitOrNothing(host, at, m, sector.value as nat, payload.value[TAG_BYTES..], payload.value[..TAG_BYTES]);
      }
    }
  }

  lemma {:induction false} ParseOrNothing(host: Host, at: Place, m: Media, s: seq<byte>)
    requires Ready(m) && SavesSucceed(host, m)
    ensures var r := Parse(host, at, m, s);
            && Ready(r.media) && SavesSucceed(host, r.media) && (!r.committed ==> SameContents(m, r.media))
    decreases |s|
  {
    hide Act, Take, ReadBe32;
    var p := Find(s, Sync(m.highDensity), 0);
    if p != -1 {
      var n := Take(m.highDensity, s[p..]);
      if n != 0 {
        ActOrNothing(host, at, m, s[p..][..n]);
        ParseOrNothing(host, at, Act(host, at, m, s[p..][..n]).media, s[p..][n..]);
      }
    }
  }

  // ---------- coherence ----------

  ghost predicate Working(host: Host) { forall n :: host.accepts(n) }

  /** Coherence depends on the cached bytes, the place and the contents. */
  lemma CoherenceFollows(d: Drive, d': Drive)
    requires d.Valid() && d'.Valid() && d.Coherent() && d.At() == d'.At() && SameContents(d.media, d'.media)
    requires d'.cache == EMPTY_CACHE || d'.cache == d.cache.(cursor := d'.cache.cursor)
    ensures d'.Coherent()
  {
    hide Drive.Built;
    BuiltFollows(d, d');
  }

  lemma ArmedIsReady(d: Drive)
    requires Writing(d)
    ensures Ready(d.Refreshed().Armed()) && SameContents(d.media, d.Refreshed().Armed())
  {
    hide Drive.Built, Waiting, ReadBe32, LastIdBefore;
  }

  lemma WriteKeepsCoherent(host: Host, d: Drive, value: byte)
    requires Working(host) && d.Valid() && d.Coherent()
    ensures d.Write(host, value).0.Valid() && d.Write(host, value).0.Coherent()
  {
    hide Parse, Drive.Built, Waiting, Media.Valid, LastIdBefore;
    WriteKeepsValid(host, d, value);
    if Writing(d) {
      var refreshed := d.Refreshed();
      RefreshKeepsMedia(d);
      OperationsKeepValid(d, 0, false);
      ArmedIsReady(d);
      ParseOrNothing(host, d.At(), refreshed.Armed(), d.written + [value]);
      WriteIsParse(host, d, value);
      assert refreshed.Coherent() by { BuiltFollows(d, refreshed); }
      var after := d.Write(host, value).0;
      CoherenceFollows(refreshed, if after.cache == EMPTY_CACHE then after.(media := refreshed.media) else after);
    } else {
      CoherenceFollows(d, d.Write(host, value).0);
    }
  }

  lemma ApplyKeepsCoherent(host: Host, d: Drive, op: Op)
    requires Working(host) && d.Valid() && d.Coherent() && Legal(op)
    ensures Apply(host, d, op).Valid() && Apply(host, d, op).Coherent()
  {
    hide Drive.Write, Drive.Built, LoadDiskCopy42, LoadRaw, Waiting, Media.Valid;
    ApplyKeepsValid(host, d, op);
    var after := Apply(host, d, op);
    match op
    case Write(value) => WriteKeepsCoherent(host, d, value);
    case Read =>
      RefreshedIsCoherent(d);
      if d.Spinning() { CoherenceFollows(d.Refreshed(), after); }
    case Peek => RefreshedIsCoherent(d);
    case Seek(_) => if after.cache != EMPTY_CACHE { CoherenceFollows(d, after); }
    case Step(_) => if after.cache != EMPTY_CACHE { CoherenceFollows(d, after); }
    case Side(_) => if after.cache != EMPTY_CACHE { CoherenceFollows(d, after); }
    case Motor(_) => CoherenceFollows(d, after);
    case Flush => CoherenceFollows(d, after);
    case _ =>
  }

  lemma RefreshedIsCoherent(d: Drive)
    requires d.Valid() && d.Coherent()
    ensures d.Refreshed().Valid() && d.Refreshed().Coherent()
  {
    hide Drive.Built, Waiting, Media.Valid;
    OperationsKeepValid(d, 0, false);
    BuiltFollows(d, d.Refreshed());
  }

  /** The cache is coherent in every state a run of operations can reach while saves succeed. */
  lemma {:induction false} RunKeepsCoherent(host: Host, d: Drive, ops: seq<Op>)
    requires Working(host) && d.Valid() && d.Coherent() && forall i :: 0 <= i < |ops| ==> Legal(ops[i])
    ensures Run(host, d, ops).Coherent()
    decreases |ops|
  {
    hide Apply, Drive.Coherent, Drive.Valid;
    if ops != [] {
      ApplyKeepsCoherent(host, d, ops[0]);
      RunKeepsCoherent(host, Apply(host, d, ops[0]), ops[1..]);
    }
  }

  /**
   After any run in which saves succeed, a read of a spinning disk returns the byte and the mark
   under the head of the track built from the present contents and moves the head on by one,
   round the track; a peek returns the same, leaves the head where it is, and can be repeated.
   */
  lemma ReadsShowTheDisk(host: Host, ops: seq<Op>)
    requires Working(host) && forall i :: 0 <= i < |ops| ==> Legal(ops[i])
    ensures NEW_DRIVE.Valid()
    ensures var d := Run(host, NEW_DRIVE, ops);
            d.Spinning() ==>
              var (bytes, marks) := d.Built();
              var cursor := if d.Cached() then d.cache.cursor else 0;
              && cursor < |bytes|
              && var expected := DiskByte(bytes[cursor], cursor < |marks| && marks[cursor]);
                 && d.Peek().1 == d.Next().1 == expected
                 && d.Peek().0.cache == TrackCache(d.track, d.side, bytes, marks, cursor)
                 && d.Next().0.cache == TrackCache(d.track, d.side, bytes, marks, (cursor + 1) % |bytes|)
                 && d.Peek().0.Valid() && d.Peek().0.Peek() == d.Peek()
  {
    hide Drive.Built, Media.Valid, Apply, Waiting, Run;
    NewDriveIsValid();
    RunKeepsCoherent(host, NEW_DRIVE, ops);
    var d := Run(host, NEW_DRIVE, ops);
    OperationsKeepValid(d, 0, false);
    if d.Spinning() { BuiltHasBytes(d); }
  }

  lemma NewDriveIsValid()
    ensures NEW_DRIVE.Valid() && NEW_DRIVE.Coherent()
  {}
}
