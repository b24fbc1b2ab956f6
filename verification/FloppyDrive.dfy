/**
 The drive as a state machine over values: the medium, the head, the motor, the cached track under
 the rotating head, and the bytes written but not yet recognised as a record.
 */
module FloppyDrive {
  import opened Bytes
  import opened FloppyGeometry
  import opened FloppyMedia
  import opened FloppyTracks
  import opened FloppyWrites

  datatype DiskByte = DiskByte(value: byte, mark: bool)

  const NO_BYTE := DiskByte(0, false)

  /** `track` and `side` are those the bytes were built for, -1 in an empty cache. */
  datatype TrackCache = TrackCache(track: int, side: int, bytes: seq<byte>, marks: seq<bool>, cursor: nat)

  const EMPTY_CACHE := TrackCache(-1, -1, [], [], 0)

  datatype Drive = Drive(media: Media, track: nat, side: nat, motorOn: bool, cache: TrackCache, written: seq<byte>)
  {
    function At(): Place { Place(track, side) }

    predicate Valid()
    {
      && media.Valid()
      && track < TRACKS && side < Heads(media.doubleSided)
      && (cache.bytes != [] ==> cache.cursor < |cache.bytes|)
      && Waiting(media.highDensity, written)
    }

    /** The cached bytes are those of the track under the head. */
    predicate Cached() { cache.bytes != [] && cache.track == track && cache.side == side }

    /** The bytes and marks of a revolution, built from the present contents of the medium. */
    function Built(): (seq<byte>, seq<bool>)
      requires Valid()
    {
      if media.highDensity then (MfmTrack(media, At()), MfmTrackMarks(media, At())) else (GcrTrack(media, At()), [])
    }

    /** Coherence: a cache that would be used holds what the medium holds now. */
    predicate Coherent()
      requires Valid()
    {
      Cached() ==> (cache.bytes, cache.marks) == Built()
    }

    function Rebuilt(): Drive
      requires Valid()
    {
      this.(cache := TrackCache(track, side, Built().0, Built().1, 0))
    }

    function Refreshed(): Drive
      requires Valid()
    {
      if Cached() then this else Rebuilt()
    }

    /** `setCurrentTrack` and `step`. */
    function SeekTo(target: int): Drive
    {
      var clamped := if target < 0 then 0 else if target > TRACKS - 1 then TRACKS - 1 else target;
      if track == clamped then this else Flushed().(track := clamped, cache := EMPTY_CACHE)
    }

    function SelectSide(target: int): Drive
    {
      var clamped := if !media.doubleSided || target < 0 then 0 else if target > 1 then 1 else target;
      if side == clamped then this else Flushed().(side := clamped, cache := EMPTY_CACHE)
    }

    function SetMotor(on: bool): Drive
    {
      (if motorOn && !on then Flushed() else this).(motorOn := on)
    }

    /**
     `flushWrites`: what is left in the buffer is only waiting for more bytes, so it is dropped;
     the register and the failure flag are cleared, the flag being what the flush reports.
     */
    function Flushed(): Drive
    {
      this.(written := [], media := media.(sector := -1, failed := false))
    }

    function Ejected(): Drive
    {
      Drive(NO_MEDIA.(attempts := media.attempts, file := media.file), 0, 0, false, EMPTY_CACHE, [])
    }

    function Loaded(m: Media): Drive
    {
      Drive(m, 0, 0, motorOn, EMPTY_CACHE, [])
    }

    predicate Spinning() { media.Inserted() && motorOn }

    function Peek(): (Drive, DiskByte)
      requires Valid()
    {
      if !Spinning() then (this, NO_BYTE)
      else
        var d := Refreshed();
        if d.cache.bytes == [] then (d, NO_BYTE)
        else (d, DiskByte(d.cache.bytes[d.cache.cursor], d.cache.cursor < |d.cache.marks| && d.cache.marks[d.cache.cursor]))
    }

    function Advanced(): Drive
    {
      if cache.bytes == [] then this else this.(cache := cache.(cursor := (cache.cursor + 1) % |cache.bytes|))
    }

    function Next(): (Drive, DiskByte)
      requires Valid()
    {
      var (d, b) := Peek();
      if !Spinning() || d.cache.bytes == [] then (d, b) else (d.Advanced(), b)
    }

    /** The sector of the last ID field that ends before the cursor, or -1. */
    function Inferred(): int
    {
      LastIdBefore(cache.bytes, if cache.cursor < |cache.bytes| then cache.cursor else |cache.bytes|)
    }

    /** The medium with the sector register a write starts with. */
    function Armed(): Media
    {
      if media.highDensity && written == [] && media.sector < 0 then media.(sector := Inferred()) else media
    }

    /** `writeDiskByte`: the new state and what the call reports. */
    function Write(host: Host, value: byte): (Drive, bool)
      requires Valid()
    {
      if !media.writable || !Spinning() then (this.(media := media.(failed := true)), false)
      else
        var d := Refreshed();
        var r := Parse(host, At(), d.Armed(), written + [value]);
        (Drive(r.media, track, side, motorOn, if r.committed then EMPTY_CACHE else d.Advanced().cache, r.rest),
         r.committed || !r.media.failed)
    }
  }

  /** A write that is not refused, in terms of its intermediate results. */
  lemma WriteIs(d: Drive, host: Host, value: byte, refreshed: Drive, r: Parsed)
    requires d.Valid() && d.media.writable && d.Spinning() && refreshed == d.Refreshed()
    requires r == Parse(host, d.At(), refreshed.Armed(), d.written + [value])
    ensures var after := Drive(r.media, d.track, d.side, d.motorOn, if r.committed then EMPTY_CACHE else refreshed.Advanced().cache, r.rest);
            after.Valid() && d.Write(host, value) == (after, r.committed || !r.media.failed)
  {
    hide Parse, GcrTrack, MfmTrack, MfmTrackMarks, Waiting, LastIdBefore, ReadBe32;
    ParseKeepsValid(host, d.At(), refreshed.Armed(), d.written + [value]);
    RestWaits(host, d.At(), refreshed.Armed(), d.written + [value]);
  }

  /** No operation leads out of the valid states. */
  lemma OperationsKeepValid(d: Drive, target: int, on: bool)
    requires d.Valid()
    ensures d.SeekTo(target).Valid() && d.SelectSide(target).Valid() && d.SetMotor(on).Valid() && d.Flushed().Valid()
    ensures d.Ejected().Valid() && d.Rebuilt().Valid() && d.Refreshed().Valid() && d.Refreshed().Advanced().Valid()
    ensures d.Peek().0.Valid() && d.Next().0.Valid()
  {
    hide GcrTrack, MfmTrack, MfmTrackMarks, Waiting, ReadBe32;
    EmptyWaits(d.media.highDensity);
    EmptyWaits(false);
  }

  /** The head stays within 80 tracks and the sides there are, and a real move ends what was being written. */
  lemma MovesEndWrites(d: Drive, target: int)
    ensures var r := d.SeekTo(target);
            && r.track == (if target <= 0 then 0 else if target >= 79 then 79 else target)
            && (if r.track == d.track then r == d else Ended(d, r) && r.side == d.side)
    ensures var r := d.SelectSide(target);
            && r.side == (if target >= 1 && d.media.doubleSided then 1 else 0)
            && (if r.side == d.side then r == d else Ended(d, r) && r.track == d.track)
  {}

  /** A protected disk, an empty drive and a stopped one refuse every byte, and neither disk nor file changes. */
  lemma WriteIsRefused(d: Drive, host: Host, value: byte)
    requires d.Valid() && (!d.media.writable || d.media.kind == Empty || !d.motorOn)
    ensures d.Write(host, value) == (d.(media := d.media.(failed := true)), false)
  {}

  /** After an eject nothing of the disk is left, and what was saved of it stays in its file. */
  lemma EjectLeavesNothing(d: Drive)
    ensures var r := d.Ejected();
            && r.media.kind == Empty && r.media.data == [] && r.media.tags == [] && r.media.header == [] && r.media.path == []
            && !r.media.writable && !r.media.doubleSided && !r.media.highDensity && !r.media.failed && r.media.sector == -1
            && r.media.file == d.media.file && r.media.attempts == d.media.attempts
            && !r.motorOn && r.track == 0 && r.side == 0 && r.cache.bytes == [] && r.written == []
  {}

  /** The buffer and the cached track are gone, register and flag are clear, and the disk is as it was. */
  predicate Ended(d: Drive, r: Drive)
  {
    r.written == [] && r.cache.bytes == [] && r.motorOn == d.motorOn && r.media == d.media.(sector := -1, failed := false)
  }

  predicate IdMark(s: seq<byte>, i: nat)
  {
    i + 4 <= |s| && s[i] == 0xa1 && s[i + 1] == 0xa1 && s[i + 2] == 0xa1 && s[i + 3] == 0xfe
  }

  function LastIdBefore(s: seq<byte>, limit: nat): int
    requires limit <= |s|
  {
    if limit < 8 then -1
    else if IdMark(s, limit - 8) then s[limit - 2] as nat - 1
    else LastIdBefore(s, limit - 1)
  }
}
