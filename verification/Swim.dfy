/**
 The SWIM chip as a client of the drives: data written to and read from the selected drive, the mode
 register, and the search for a mark when a read starts.
 */
module Swim {
  import opened Bytes
  import opened FloppyGeometry
  import opened FloppyMedia
  import opened FloppyTracks
  import opened FloppyWrites
  import opened FloppyDrive
  import opened FloppyRuns
  import opened FloppyCoherence
  import opened FloppyDiskImages
  import opened FloppyCopies
  import opened GcrCodec
  import opened MfmWriteBack

  // ---------- the shape of a cached track ----------

  /** The cached track has the length and the marks of the track on the medium, if not its contents. */
  predicate Fits(d: Drive)
    requires d.Valid()
  {
    d.Cached() ==> |d.cache.bytes| == |d.Built().0| && d.cache.marks == d.Built().1
  }

  predicate SameShape(m: Media, m': Media)
  {
    m.kind == m'.kind && |m.data| == |m'.data| && m.doubleSided == m'.doubleSided && m.highDensity == m'.highDensity
  }

  lemma {:induction false} GcrSectorsLength(m: Media, at: Place, order: seq<nat>, i: nat)
    requires at.track < TRACKS && i <= |order| && forall j :: 0 <= j < |order| ==> order[j] < 12
    ensures |GcrSectors(m, at, order, i)| == 128 + 761 * (|order| - i)
    decreases |order| - i
  {
    hide GcrLead, GcrRecord, SectorPayload;
    if i < |order| {
      GcrSectorsLength(m, at, order, i + 1);
    }
  }

  lemma {:induction false} MarksFollow(m: Media, m': Media, at: Place, sector: nat)
    requires m.Valid() && m'.Valid() && m.highDensity && SameShape(m, m') && m.Inserted() && at.track < TRACKS && at.side < 2
    requires sector <= MFM_SECTORS
    ensures MfmSectorMarks(m, at, sector) == MfmSectorMarks(m', at, sector)
    decreases MFM_SECTORS - sector
  {
    hide MfmContent, ReadBe32;
    if sector < MFM_SECTORS {
      ContentIsBlock(m, at, sector);
      ContentIsBlock(m', at, sector);
      MarksFollow(m, m', at, sector + 1);
    }
  }

  lemma ShapeFollows(d: Drive, d': Drive)
    requires d.Valid() && d'.Valid() && d.At() == d'.At() && SameShape(d.media, d'.media)
    ensures |d.Built().0| == |d'.Built().0| && d.Built().1 == d'.Built().1
  {
    hide MfmTrack, GcrSectors, MfmSectorMarks, Waiting, ReadBe32;
    if d.media.highDensity {
      MfmTrackLength(d.media, d.At());
      MfmTrackLength(d'.media, d.At());
      MarksFollow(d.media, d'.media, d.At(), 0);
    } else if d.media.Inserted() {
      GcrSectorsLength(d.media, d.At(), TrackOrder(d.track), 0);
      GcrSectorsLength(d'.media, d.At(), TrackOrder(d.track), 0);
    }
  }

  lemma FitFollows(d: Drive, d': Drive)
    requires d.Valid() && d'.Valid() && Fits(d) && d.At() == d'.At() && SameShape(d.media, d'.media)
    requires d'.cache == EMPTY_CACHE || d'.cache == d.cache.(cursor := d'.cache.cursor)
    ensures Fits(d')
  {
    hide Drive.Built, Drive.Valid;
    ShapeFollows(d, d');
  }

  lemma RefreshedFits(d: Drive)
    requires d.Valid() && Fits(d)
    ensures d.Refreshed().Valid() && Fits(d.Refreshed())
  {
    hide Drive.Built, Waiting, Media.Valid;
    OperationsKeepValid(d, 0, false);
    ShapeFollows(d, d.Refreshed());
  }

  lemma WriteFits(host: Host, d: Drive, value: byte)
    requires d.Valid() && Fits(d)
    ensures d.Write(host, value).0.Valid() && Fits(d.Write(host, value).0)
  {
    hide Parse, Drive.Built, Waiting, Media.Valid, LastIdBefore;
    WriteKeepsValid(host, d, value);
    if Writing(d) {
      RefreshedFits(d);
      RefreshKeepsMedia(d);
      WriteIsParse(host, d, value);
      FitFollows(d.Refreshed(), d.Write(host, value).0);
    } else {
      FitFollows(d, d.Write(host, value).0);
    }
  }

  /** Unlike coherence, this survives refused saves. */
  lemma ApplyFits(host: Host, d: Drive, op: Op)
    requires d.Valid() && Fits(d) && Legal(op)
    ensures Apply(host, d, op).Valid() && Fits(Apply(host, d, op))
  {
    hide Drive.Write, Drive.Built, LoadDiskCopy42, LoadRaw, Waiting, Media.Valid;
    ApplyKeepsValid(host, d, op);
    var after := Apply(host, d, op);
    match op
    case Write(value) => WriteFits(host, d, value);
    case Read =>
      RefreshedFits(d);
      if d.Spinning() { FitFollows(d.Refreshed(), after); }
    case Peek => RefreshedFits(d);
    case Seek(_) => if after.cache != EMPTY_CACHE { FitFollows(d, after); }
    case Step(_) => if after.cache != EMPTY_CACHE { FitFollows(d, after); }
    case Side(_) => if after.cache != EMPTY_CACHE { FitFollows(d, after); }
    case Motor(_) => FitFollows(d, after);
    case Flush => FitFollows(d, after);
    case _ =>
  }

  /** So it holds in every state a run can reach, whatever the host does. */
  lemma {:induction false} RunFits(host: Host, d: Drive, ops: seq<Op>)
    requires d.Valid() && Fits(d) && forall i :: 0 <= i < |ops| ==> Legal(ops[i])
    ensures Fits(Run(host, d, ops))
    decreases |ops|
  {
    hide Apply, Drive.Valid, Fits, Legal;
    if ops != [] {
      ApplyFits(host, d, ops[0]);
      RunFits(host, Apply(host, d, ops[0]), ops[1..]);
    }
  }

  // ---------- the search for a mark ----------

  /** The byte `k` places behind `from` on a round track of `length` bytes is a mark. */
  predicate MarkAt(marks: seq<bool>, length: nat, from: nat, k: nat)
    requires length > 0
  {
    var i := (from + k) % length;
    i < |marks| && marks[i]
  }

  /** How far behind `from` the first mark stands, or the length of the track if it has none. */
  function Distance(marks: seq<bool>, length: nat, from: nat, k: nat): (n: nat)
    requires 0 < length && k <= length
    ensures k <= n <= length && (n < length ==> MarkAt(marks, length, from, n))
    ensures forall j :: k <= j < n ==> !MarkAt(marks, length, from, j)
    decreases length - k
  {
    if k == length || MarkAt(marks, length, from, k) then k else Distance(marks, length, from, k + 1)
  }

  /** The drive after the search: the head stands on the mark, or where it was. */
  function AtMark(d: Drive): Drive
    requires d.Valid()
  {
    if !d.Spinning() then d
    else
      var r := d.Refreshed();
      if r.cache.bytes == [] then r
      else AdvancedBy(r, Distance(r.cache.marks, |r.cache.bytes|, r.cache.cursor, 0))
  }

  /** The head `n` bytes further on. */
  function AdvancedBy(d: Drive, n: nat): Drive
    requires d.cache.bytes != []
  {
    d.(cache := d.cache.(cursor := (d.cache.cursor + n) % |d.cache.bytes|))
  }

  lemma SpinningHasBytes(d: Drive)
    requires d.Valid() && d.Spinning()
    ensures d.Refreshed().cache.bytes != []
  {
    hide Drive.Built, Media.Valid, Waiting;
    BuiltHasBytes(d);
  }

  lemma LeadMarks(m: Media, at: Place)
    ensures |MfmTrackMarks(m, at)| > 92 && MfmTrackMarks(m, at)[92]
  {
    hide MfmSectorMarks;
  }

  lemma Around(length: nat, from: nat, i: nat)
    requires from < length && i < length
    ensures var k := if from <= i then i - from else length - from + i;
            k < length && (from + k) % length == i
  {
    if from > i {
      assert from + (length - from + i) == length + i;
      Wrap(length + i, length);
    }
  }

  lemma MarkAhead(marks: seq<bool>, length: nat, from: nat, i: nat)
    requires from < length && i < length && i < |marks| && marks[i]
    ensures FirstMark(marks, length, from, (from + Distance(marks, length, from, 0)) % length)
  {
    Around(length, from, i);
    assert MarkAt(marks, length, from, if from <= i then i - from else length - from + i);
    assert Distance(marks, length, from, 0) < length;
  }

  /** `to` is the first mark at or behind `from`, round the track. */
  ghost predicate FirstMark(marks: seq<bool>, length: nat, from: nat, to: nat)
    requires length > 0
  {
    exists k :: 0 <= k < length && MarkAt(marks, length, from, k) && to == (from + k) % length
                && forall j :: 0 <= j < k ==> !MarkAt(marks, length, from, j)
  }

  /**
   Starting a read on a spinning high-density disk leaves the head on the first mark at or behind
   its old place, round the track and within one revolution, and changes nothing else.
   */
  lemma SearchFindsFirstMark(d: Drive)
    requires d.Valid() && Fits(d) && d.Spinning() && d.media.highDensity
    ensures var r, found := d.Refreshed(), AtMark(d);
            && found == r.(cache := r.cache.(cursor := found.cache.cursor)) && r.media == d.media
            && |r.cache.bytes| == MFM_TRACK && r.cache.cursor < MFM_TRACK && found.cache.cursor < MFM_TRACK
            && r.cache.marks == MfmTrackMarks(d.media, d.At())
            && FirstMark(r.cache.marks, MFM_TRACK, r.cache.cursor, found.cache.cursor)
  {
    hide MfmTrack, MfmTrackMarks, Media.Valid, Waiting, FirstMark, Distance;
    SpinningHasBytes(d);
    RefreshedFits(d);
    MfmTrackLength(d.media, d.At());
    LeadMarks(d.media, d.At());
    var r := d.Refreshed();
    MarkAhead(r.cache.marks, MFM_TRACK, r.cache.cursor, 92);
  }

  // ---------- the search step by step ----------

  /** `scanned` bytes were passed, none of them a mark, and `b` is the byte under the head. */
  ghost predicate Searching(d: Drive, now: Drive, b: DiskByte, scanned: nat)
    requires d.Valid()
  {
    if !d.Spinning() then now == d && !b.mark
    else
      var r := d.Refreshed();
      && r.cache.bytes != [] && scanned <= |r.cache.bytes|
      && now == AdvancedBy(r, scanned)
      && b.mark == MarkAt(r.cache.marks, |r.cache.bytes|, r.cache.cursor, scanned)
      && forall j :: 0 <= j < scanned ==> !MarkAt(r.cache.marks, |r.cache.bytes|, r.cache.cursor, j)
  }

  lemma SearchStarts(d: Drive)
    requires d.Valid()
    ensures Searching(d, d.Peek().0, d.Peek().1, 0)
  {
    hide Drive.Built, Media.Valid, Waiting;
    if d.Spinning() {
      RefreshedIsCached(d);
      NoWrap(d.Refreshed().cache.cursor, |d.Refreshed().cache.bytes|);
    }
  }

  lemma OneMore(from: nat, n: nat, length: nat)
    requires from < length && n < length
    ensures ((from + n) % length + 1) % length == (from + n + 1) % length
  {
    if from + n < length {
      NoWrap(from + n, length);
    } else {
      Wrap(from + n, length);
      if from + n + 1 < 2 * length {
        Wrap(from + n + 1, length);
        NoWrap(from + n + 1 - length, length);
      }
    }
  }

  lemma NextInCache(now: Drive)
    requires now.Valid() && now.Spinning() && now.Cached()
    ensures now.Next().0 == AdvancedBy(now, 1)
    ensures now.Peek() == (now, DiskByte(now.cache.bytes[now.cache.cursor],
                                         now.cache.cursor < |now.cache.marks| && now.cache.marks[now.cache.cursor]))
  {}

  /** A drive `n` bytes further on, within a revolution. */
  lemma Advancing(r: Drive, n: nat)
    requires r.Valid() && r.Spinning() && r.Cached() && n <= |r.cache.bytes|
    ensures var now := AdvancedBy(r, n);
            && now.Valid() && now.Spinning() && now.Cached() && now.Peek().0 == now
            && now.Peek().1.mark == MarkAt(r.cache.marks, |r.cache.bytes|, r.cache.cursor, n)
            && now.Next().0 == AdvancedBy(now, 1)
    ensures n < |r.cache.bytes| ==> AdvancedBy(AdvancedBy(r, n), 1) == AdvancedBy(r, n + 1)
  {
    hide Media.Valid, Waiting, Drive.Next, Drive.Peek;
    NextInCache(AdvancedBy(r, n));
    if n < |r.cache.bytes| { OneMore(r.cache.cursor, n, |r.cache.bytes|); }
  }

  lemma SearchGoesOn(d: Drive, now: Drive, b: DiskByte, scanned: nat)
    requires d.Valid() && now.Valid() && Searching(d, now, b, scanned) && !b.mark
    requires d.Spinning() ==> scanned < |d.Refreshed().cache.bytes|
    ensures var next := now.Next().0;
            next.Valid() && next.Peek().0 == next && Searching(d, next, next.Peek().1, scanned + 1)
  {
    if d.Spinning() {
      hide Drive.Refreshed, Drive.Next, Drive.Peek, Drive.Valid, AdvancedBy, MarkAt;
      RefreshedIsCached(d);
      Advancing(d.Refreshed(), scanned);
      Advancing(d.Refreshed(), scanned + 1);
    } else {
      hide Drive.Next, Drive.Peek, Drive.Valid, Drive.Refreshed, AdvancedBy, MarkAt;
      StandingStill(d);
    }
  }

  lemma StandingStill(d: Drive)
    requires d.Valid() && !d.Spinning()
    ensures d.Next().0 == d && d.Peek().0 == d && !d.Peek().1.mark
  {
    hide Drive.Refreshed;
  }

  lemma SearchEnds(d: Drive, now: Drive, b: DiskByte, scanned: nat)
    requires d.Valid() && Searching(d, now, b, scanned)
    requires d.Spinning() ==> b.mark || scanned == |d.Refreshed().cache.bytes|
    ensures now == AtMark(d)
  {
    hide Drive.Refreshed;
  }

  lemma AtMarkFits(d: Drive)
    requires d.Valid() && Fits(d)
    ensures AtMark(d).Valid() && Fits(AtMark(d))
  {
    hide Drive.Built, Media.Valid, Waiting, Drive.Refreshed;
    RefreshedFits(d);
    if d.Spinning() {
      OperationsKeepValid(d, 0, false);
      FitFollows(d.Refreshed(), AtMark(d));
    }
  }

  // ---------- the chip ----------

  predicate Has(register: byte, bits: byte) { register & bits == bits }

  function With(register: byte, bits: byte): byte { register | bits }

  predicate WriteMode(mode: byte) { mode & 0x18 == 0x10 }

  predicate ReadMode(mode: byte) { mode & 0x18 == 0x08 }

  /** What a change of the mode register from `before` to `after` does to the selected drive. */
  function ModeChanged(d: Drive, before: byte, after: byte, motor: bool): (r: Drive)
    requires d.Valid() && Fits(d)
    ensures r.Valid() && Fits(r)
  {
    var leaves := WriteMode(before) && !WriteMode(after);
    TurnedFits(d, leaves, motor);
    var turned := (if leaves then d.Flushed() else d).SetMotor(motor);
    if !Has(before, 0x08) && ReadMode(after) then AtMark(turned) else turned
  }

  /** What a data register write does to the selected drive, and whether the drive took it. */
  function Passed(host: Host, mode: byte, d: Drive, value: byte): (Drive, bool)
    requires d.Valid()
  {
    if WriteMode(mode) then d.Write(host, value) else (d, true)
  }

  /** The same with the error register, which a refusal raises and the reset bit keeps clear. */
  function DataWritten(host: Host, mode: byte, d: Drive, error: byte, value: byte): (Drive, byte)
    requires d.Valid()
  {
    var (after, ok) := Passed(host, mode, d, value);
    var raised := if ok then error else With(error, 0x04);
    (after, if Has(mode, 0x01) then 0 else raised)
  }

  lemma ReadModeReads(mode: byte)
    ensures ReadMode(mode) ==> Has(mode, 0x08)
  {}

  lemma SameModeOnlyTurns(d: Drive, mode: byte, motor: bool)
    requires d.Valid() && Fits(d)
    ensures ModeChanged(d, mode, mode, motor) == d.SetMotor(motor)
  {
    hide ReadMode, Has, Drive.Built, AtMark, WriteMode;
    ReadModeReads(mode);
  }

  lemma TurnedFits(d: Drive, flush: bool, motor: bool)
    requires d.Valid() && Fits(d)
    ensures var turned := (if flush then d.Flushed() else d).SetMotor(motor);
            turned.Valid() && Fits(turned) && AtMark(turned).Valid() && Fits(AtMark(turned))
  {
    hide Drive.Built, Media.Valid, Waiting, Drive.Refreshed;
    OperationsKeepValid(d, 0, false);
    var flushed := if flush then d.Flushed() else d;
    FitFollows(d, flushed);
    OperationsKeepValid(flushed, 0, motor);
    var turned := flushed.SetMotor(motor);
    FitFollows(flushed, turned);
    AtMarkFits(turned);
  }

  lemma ModeBits(mode: byte)
    ensures (WriteMode(mode) <==> mode & 0x18 == 0x10) && (ReadMode(mode) <==> mode & 0x18 == 0x08)
    ensures (Has(mode, 0x08) <==> mode & 0x08 != 0) && (Has(mode, 0x01) <==> mode & 0x01 != 0)
  {}

  /**
   A change of the mode turns the motor. Leaving write mode, which is bits 3 and 4 being 0 and 1, and
   stopping the motor drop what is left in the write buffer; and the head moves only if a read
   starts, which is bit 3 going up with bit 4 clear.
   */
  lemma ModeActs(d: Drive, before: byte, after: byte, motor: bool)
    requires d.Valid() && Fits(d)
    ensures var r := ModeChanged(d, before, after, motor);
            var flushes := (before & 0x18 == 0x10 && after & 0x18 != 0x10) || (d.motorOn && !motor);
            && r.motorOn == motor && r.At() == d.At()
            && r.written == (if flushes then [] else d.written)
            && r.media == (if flushes then d.media.(sector := -1, failed := false) else d.media)
            && (!(before & 0x08 == 0 && after & 0x18 == 0x08) ==> r.cache == d.cache)
  {
    ModeBits(before);
    ModeBits(after);
    hide WriteMode, ReadMode, Has, Drive.Built, Drive.Valid, Fits, Drive.Refreshed, Distance;
    TurnedFits(d, WriteMode(before) && !WriteMode(after), motor);
    RefreshKeepsDrive((if WriteMode(before) && !WriteMode(after) then d.Flushed() else d).SetMotor(motor));
  }

  lemma RefreshKeepsDrive(d: Drive)
    requires d.Valid()
    ensures d.Refreshed() == d.(cache := d.Refreshed().cache)
  {}

  /**
   The error register: a write the drive refuses and a flush that reports a failure set bit 2, and
   while bit 0 of the mode is set, it is cleared first by a mode write and at last by a data write.
   */
  lemma ErrorBits(host: Host, d: Drive, before: byte, after: byte, error: byte, value: byte, flushed: bool)
    requires d.Valid()
    ensures NewError(error, before, after, flushed) ==
              (if after & 0x01 != 0 then 0 else error)
              | (if before & 0x18 == 0x10 && after & 0x18 != 0x10 && !flushed then 0x04 else 0)
    ensures DataWritten(host, before, d, error, value) ==
              if before & 0x18 != 0x10 then (d, if before & 0x01 != 0 then 0 else error)
              else
                (d.Write(host, value).0,
                 if before & 0x01 != 0 then 0 else if d.Write(host, value).1 then error else error | 0x04)
  {
    hide Drive.Write;
  }

  /** The mode register: the bits of `value` are set or cleared, all others stay. */
  lemma ModeBitsChange(mode: byte, setting: bool, value: byte)
    ensures var r := NewMode(mode, setting, value);
            r & value == (if setting then value else 0) && r & !value == mode & !value
  {}

  /** A read ACTION on a high-density disk finds its mark and changes neither the disk nor the saved file. */
  lemma ReadAction(d: Drive, before: byte, after: byte)
    requires d.Valid() && Fits(d) && d.media.Inserted() && d.media.highDensity
    requires before & 0x08 == 0 && after & 0x18 == 0x08
    ensures var r := ModeChanged(d, before, after, true);
            && r.Spinning() && r.At() == d.At() && r.Valid()
            && r.media == d.media.(sector := r.media.sector, failed := r.media.failed)
            && |r.cache.bytes| == MFM_TRACK && r.cache.bytes == d.Refreshed().cache.bytes
            && r.cache.marks == MfmTrackMarks(d.media, d.At()) && r.Cached()
            && FirstMark(MfmTrackMarks(d.media, d.At()), MFM_TRACK, d.Refreshed().cache.cursor, r.cache.cursor)
  {
    ModeBits(before);
    ModeBits(after);
    hide Media.Valid, Waiting, AtMark, MfmTrack, MfmTrackMarks, FirstMark, Has, WriteMode, ReadMode;
    var leaves := WriteMode(before) && !WriteMode(after);
    TurnedFits(d, leaves, true);
    var turned := (if leaves then d.Flushed() else d).SetMotor(true);
    SearchFindsFirstMark(turned);
    BuiltFollows(d, turned);
    assert turned.Refreshed().cache == d.Refreshed().cache;
  }

  lemma LeadShowsIndex(m: Media, at: Place)
    requires at.track < TRACKS && at.side < 2
    ensures |MfmTrackMarks(m, at)| >= 95 && |MfmTrack(m, at)| >= 95
    ensures forall i :: 0 <= i < 92 ==> !MfmTrackMarks(m, at)[i]
    ensures MfmTrackMarks(m, at)[92] && MfmTrack(m, at)[92] == 0xc2
  {
    hide MfmSectors, MfmSectorMarks;
    var lead := MfmLead();
    assert lead[92] == MfmField(0xfc, [], 0xc2)[0] == 0xc2;
  }

  lemma FirstMarkIs(marks: seq<bool>, length: nat, to: nat)
    requires 92 < |marks| && 92 < length && FirstMark(marks, length, 0, to)
    requires marks[92] && forall i :: 0 <= i < 92 ==> !marks[i]
    ensures to == 92
  {
    var k :| 0 <= k < length && MarkAt(marks, length, 0, k) && to == (0 + k) % length
             && forall j :: 0 <= j < k ==> !MarkAt(marks, length, 0, j);
    NoWrap(k, length);
    NoWrap(92, length);
    assert MarkAt(marks, length, 0, 92);
  }

  /** With no track cached yet, the first byte a read ACTION shows is the index mark. */
  lemma FirstReadShowsIndex(d: Drive, before: byte, after: byte)
    requires d.Valid() && Fits(d) && d.media.Inserted() && d.media.highDensity && !d.Cached()
    requires before & 0x08 == 0 && after & 0x18 == 0x08
    ensures var r := ModeChanged(d, before, after, true);
            r.Valid() && r.Peek() == (r, DiskByte(0xc2, true))
  {
    hide ModeChanged, MfmTrack, MfmTrackMarks, FirstMark, Media.Valid, Waiting;
    ReadAction(d, before, after);
    LeadShowsIndex(d.media, d.At());
    MfmTrackLength(d.media, d.At());
    FirstMarkIs(MfmTrackMarks(d.media, d.At()), MFM_TRACK, ModeChanged(d, before, after, true).cache.cursor);
  }

  /** The motors have a common bit and one for each drive. */
  predicate MotorRuns(external: bool, mode: byte) { if external then Has(mode, 0x84) else Has(mode, 0x82) }

  /** A motor runs exactly if bit 7 and the bit of its drive, 1 or 2, are set. */
  lemma MotorBits(external: bool, mode: byte)
    ensures MotorRuns(external, mode) <==> mode & 0x80 != 0 && mode & (if external then 0x04 else 0x02) != 0
  {}

  class SwimController {
    const internalDrive: FloppyDiskImage
    const externalDrive: FloppyDiskImage
    var selectExternal: bool
    var modeRegister: byte
    var error: byte
    var parameterIndex: nat
    var swimMode: bool

    ghost predicate Valid()
      reads this, internalDrive, externalDrive
    {
      && internalDrive != externalDrive && internalDrive.Valid() && externalDrive.Valid()
      && Fits(internalDrive.View()) && Fits(externalDrive.View())
    }

    function Selected(): FloppyDiskImage
      reads this
    {
      if selectExternal then externalDrive else internalDrive
    }

    /** A chip just switched to its native mode, on two drives. */
    constructor (internal: FloppyDiskImage, external: FloppyDiskImage)
      requires internal != external && internal.Valid() && external.Valid() && Fits(internal.View()) && Fits(external.View())
      ensures Valid() && internalDrive == internal && externalDrive == external
      ensures modeRegister == 0x40 && swimMode && error == 0 && !selectExternal
    {
      internalDrive, externalDrive := internal, external;
      selectExternal, modeRegister, error, parameterIndex, swimMode := false, 0x40, 0, 0, true;
    }

    /** Writes to the data and mark registers, with what follows every register write. */
    method WriteData(value: byte, mark: bool)
      requires Valid()
      modifies this`error, internalDrive, externalDrive
      ensures Valid()
      ensures var (written, raised) := DataWritten(Selected().host, modeRegister, old(Selected().View()), old(error), value);
              Selected().View() == written.SetMotor(MotorRuns(selectExternal, modeRegister)) && error == raised
      ensures Other().View() == old(Other().View()).SetMotor(MotorRuns(!selectExternal, modeRegister))
    {
      hide ModeChanged, WriteMode, Has, MotorRuns, With, Drive.Write, Drive.Built, Drive.Valid, Drive.SetMotor, Media.Valid, FloppyDiskImage.View, FloppyDiskImage.Valid, Fits;
      PassData(Selected(), value, mark);
      SameModeOnlyTurns(Selected().View(), modeRegister, MotorRuns(selectExternal, modeRegister));
      Finish(modeRegister);
    }

    /** The data goes to the drive in write mode only; a refusal is an error. */
    method PassData(drive: FloppyDiskImage, value: byte, mark: bool)
      requires drive.Valid() && Fits(drive.View())
      modifies this`error, drive
      ensures drive.Valid() && Fits(drive.View()) && drive.View().Valid()
      ensures var (written, ok) := Passed(drive.host, modeRegister, old(drive.View()), value);
              drive.View() == written && error == if ok then old(error) else With(old(error), 0x04)
    {
      hide Drive.Write, Drive.Built, Drive.Valid, Media.Valid, WriteMode, With;
      if !WriteMode(modeRegister) { return; }
      WriteFits(drive.host, drive.View(), value);
      var ok := drive.WriteDiskByte(value, mark);
      if !ok { error := With(error, 0x04); }
    }

    /** What every register write ends with: error reset, flush, motors, and the search when a read starts. */
    method Finish(before: byte)
      requires Valid()
      modifies this`error, internalDrive, externalDrive
      ensures Valid()
      ensures error == NewError(old(error), before, modeRegister, !old(Selected().View()).media.failed)
      ensures Selected().View() == ModeChanged(old(Selected().View()), before, modeRegister, MotorRuns(selectExternal, modeRegister))
      ensures Other().View() == old(Other().View()).SetMotor(MotorRuns(!selectExternal, modeRegister))
    {
      hide ModeChanged, WriteMode, Has, MotorRuns, With, FloppyDiskImage.View, FloppyDiskImage.Valid, Drive.SetMotor, Fits;
      if Has(modeRegister, 0x01) { error := 0; }
      TurnSelected(Selected(), before, MotorRuns(selectExternal, modeRegister));
      TurnOther(Other(), MotorRuns(!selectExternal, modeRegister));
    }

    /** Data register reads: a mark read through the plain data register is an error. */
    method ReadData(markRegister: bool) returns (value: byte)
      requires Valid()
      modifies this`error, Selected()
      ensures Valid()
      ensures var (after, b) := old(Selected().View()).Next();
              && Selected().View() == after && value == b.value
              && error == if b.mark && !markRegister then With(old(error), 0x02) else old(error)
    {
      hide Drive.Next, Drive.Built, Drive.Valid, Media.Valid;
      var drive := Selected();
      ReadFits(drive.View());
      var b := drive.NextDiskByte();
      value := b.value;
      if b.mark && !markRegister { error := With(error, 0x02); }
    }

    /** Writes to the mode register: `setting` sets the bits of `value`, otherwise they are cleared. */
    method ChangeMode(setting: bool, value: byte)
      requires Valid()
      modifies this, internalDrive, externalDrive
      ensures Valid() && selectExternal == old(selectExternal)
      ensures modeRegister == NewMode(old(modeRegister), setting, value)
      ensures swimMode == (old(swimMode) && (setting || Has(modeRegister, 0x40)))
      ensures parameterIndex == if setting then old(parameterIndex) else 0
      ensures error == NewError(old(error), old(modeRegister), modeRegister, !old(Selected().View()).media.failed)
      ensures Selected().View() == ModeChanged(old(Selected().View()), old(modeRegister), modeRegister, MotorRuns(selectExternal, modeRegister))
      ensures Other().View() == old(Other().View()).SetMotor(MotorRuns(!selectExternal, modeRegister))
    {
      hide ModeChanged, WriteMode, Has, MotorRuns, NewMode, With, FloppyDiskImage.View, FloppyDiskImage.Valid, Drive.SetMotor, Fits;
      var before := modeRegister;
      SetMode(setting, value);
      Finish(before);
    }

    function Other(): FloppyDiskImage
      reads this
    {
      if selectExternal then internalDrive else externalDrive
    }

    /** The drive that is not selected only follows its motor bit. */
    method TurnOther(drive: FloppyDiskImage, motor: bool)
      requires drive.Valid() && Fits(drive.View())
      modifies drive
      ensures drive.Valid() && Fits(drive.View()) && drive.View() == old(drive.View()).SetMotor(motor)
    {
      hide Drive.Valid;
      drive.SetMotorOn(motor);
      TurnedFits(old(drive.View()), false, motor);
    }

    /** The selected drive is flushed when write mode ends and searched for a mark when a read starts. */
    method TurnSelected(drive: FloppyDiskImage, before: byte, motor: bool)
      requires drive.Valid() && Fits(drive.View())
      modifies this`error, drive
      ensures drive.Valid() && Fits(drive.View())
      ensures drive.View() == ModeChanged(old(drive.View()), before, modeRegister, motor)
      ensures error == if WriteMode(before) && !WriteMode(modeRegister) && old(drive.View()).media.failed then With(old(error), 0x04) else old(error)
    {
      hide WriteMode, ReadMode, Has, With, Drive.Valid, Drive.Built, Fits, AtMark;
      assert drive.View().media.failed == drive.writeFailed;
      TurnedFits(drive.View(), WriteMode(before) && !WriteMode(modeRegister), motor);
      if WriteMode(before) && !WriteMode(modeRegister) {
        var ok := drive.FlushWrites();
        if !ok { error := With(error, 0x04); }
      }
      drive.SetMotorOn(motor);
      if !Has(before, 0x08) && ReadMode(modeRegister) {
        SeekMark(drive);
      }
    }

    method SetMode(setting: bool, value: byte)
      modifies this`modeRegister, this`parameterIndex, this`swimMode
      ensures modeRegister == NewMode(old(modeRegister), setting, value)
      ensures swimMode == (old(swimMode) && (setting || Has(modeRegister, 0x40)))
      ensures parameterIndex == if setting then old(parameterIndex) else 0
    {
      modeRegister := NewMode(modeRegister, setting, value);
      if !setting {
        parameterIndex := 0;
        if !Has(modeRegister, 0x40) { swimMode := false; }
      }
    }

    /** The search: at most one revolution, one byte at a time. */
    method SeekMark(drive: FloppyDiskImage)
      requires drive.Valid() && Fits(drive.View())
      modifies drive`trackCache
      ensures drive.Valid() && Fits(drive.View())
      ensures drive.View() == AtMark(old(drive.View()))
    {
      hide Drive.Built, Media.Valid, Waiting, AtMark, Searching, Drive.Peek, Drive.Next;
      ghost var d := drive.View();
      var track := drive.TrackBytesForDebug(drive.currentTrack, drive.currentSide);
      var bytesOnTrack := if track == [] then 1 else |track|;
      SearchLimit(d, bytesOnTrack);
      var scanned := 0;
      SearchStarts(d);
      var b := drive.PeekDiskByte();
      while scanned < bytesOnTrack && !b.mark
        invariant drive.Valid() && scanned <= bytesOnTrack
        invariant Searching(d, drive.View(), b, scanned)
      {
        SearchGoesOn(d, drive.View(), b, scanned);
        var _ := drive.NextDiskByte();
        b := drive.PeekDiskByte();
        scanned := scanned + 1;
      }
      SearchEnds(d, drive.View(), b, scanned);
      AtMarkFits(d);
    }
  }

  lemma SearchLimit(d: Drive, bytesOnTrack: nat)
    requires d.Valid() && Fits(d) && bytesOnTrack == if d.Built().0 == [] then 1 else |d.Built().0|
    ensures d.Spinning() ==> |d.Refreshed().cache.bytes| == bytesOnTrack
  {
    hide Drive.Built, Media.Valid, Waiting;
    if d.Spinning() { BuiltHasBytes(d); }
  }

  function NewMode(before: byte, setting: bool, value: byte): byte
  {
    if setting then before | value else before & !value
  }

  /** The error register: cleared by the reset bit, raised by a flush that reports a failure. */
  function NewError(error: byte, before: byte, after: byte, flushed: bool): byte
  {
    var cleared := if Has(after, 0x01) then 0 else error;
    if WriteMode(before) && !WriteMode(after) && !flushed then With(cleared, 0x04) else cleared
  }

  lemma ReadFits(d: Drive)
    requires d.Valid() && Fits(d)
    ensures d.Next().0.Valid() && Fits(d.Next().0)
  {
    hide Drive.Built, Waiting, Media.Valid;
    OperationsKeepValid(d, 0, false);
    RefreshedFits(d);
    if d.Spinning() { FitFollows(d.Refreshed(), d.Next().0); }
  }

  // ---------- a track written through the chip ----------

  /** The selected drive and the error register after the bytes `s` were written to the data register. */
  function Sent(host: Host, mode: byte, motor: bool, d: Drive, error: byte, s: seq<byte>): (r: (Drive, byte))
    requires d.Valid()
    ensures r.0.Valid()
    decreases |s|
  {
    if s == [] then (d, error)
    else
      var (before, raised) := Sent(host, mode, motor, d, error, s[..|s| - 1]);
      SendKeepsValid(host, mode, motor, before, s[|s| - 1]);
      var (written, error') := DataWritten(host, mode, before, raised, s[|s| - 1]);
      (written.SetMotor(motor), error')
  }

  lemma SendKeepsValid(host: Host, mode: byte, motor: bool, d: Drive, value: byte)
    requires d.Valid()
    ensures Passed(host, mode, d, value).0.Valid() && Passed(host, mode, d, value).0.SetMotor(motor).Valid()
  {
    hide Drive.Write, Drive.Valid, Drive.SetMotor;
    WriteKeepsValid(host, d, value);
    OperationsKeepValid(Passed(host, mode, d, value).0, 0, motor);
  }

  lemma ActKeepsFailed(host: Host, at: Place, m: Media, record: seq<byte>)
    requires m.failed
    ensures Act(host, at, m, record).media.failed
  {
    hide CheckHolds, DecodeGcr, DecodePayload, BlockOf, FileImage, Overwrite;
  }

  lemma {:induction false} ParseKeepsFailed(host: Host, at: Place, m: Media, s: seq<byte>)
    requires m.failed
    ensures Parse(host, at, m, s).media.failed
    decreases |s|
  {
    hide Act, Take;
    var p := Find(s, Sync(m.highDensity), 0);
    if p != -1 {
      var n := Take(m.highDensity, s[p..]);
      if n != 0 {
        ActKeepsFailed(host, at, m, s[p..][..n]);
        ParseKeepsFailed(host, at, Act(host, at, m, s[p..][..n]).media, s[p..][n..]);
      }
    }
  }

  /** A write that ends without the failure flag found it clear and was reported as taken. */
  lemma QuietWrite(host: Host, d: Drive, value: byte)
    requires Writing(d) && !d.Write(host, value).0.media.failed
    ensures !d.media.failed && d.Write(host, value).1 && Writing(d.Write(host, value).0)
  {
    hide Parse, Drive.Built, LastIdBefore, Waiting, Media.Valid;
    RefreshKeepsMedia(d);
    WriteIsParse(host, d, value);
    if d.media.failed { ParseKeepsFailed(host, d.At(), d.Refreshed().Armed(), d.written + [value]); }
  }

  /** In write mode, with the motor on, data sent to the chip is written, and no failure means no error. */
  lemma {:induction false} SentIsWritten(host: Host, mode: byte, d: Drive, error: byte, s: seq<byte>)
    requires WriteMode(mode) && Writing(d) && !WriteAll(host, d, s).media.failed
    ensures !d.media.failed && Writing(WriteAll(host, d, s))
    ensures Sent(host, mode, true, d, error, s) == (WriteAll(host, d, s), if Has(mode, 0x01) && s != [] then 0 else error)
    decreases |s|
  {
    hide Drive.Write, WriteMode, Has, With, Drive.Valid, Media.Valid;
    if s != [] {
      var start, last := s[..|s| - 1], s[|s| - 1];
      var before := WriteAll(host, d, start);
      WritingStays(host, d, start);
      QuietWrite(host, before, last);
      SentIsWritten(host, mode, d, error, start);
      var after := before.Write(host, last).0;
      assert after.SetMotor(true) == after;
    }
  }

  lemma {:induction false} WritingStays(host: Host, d: Drive, s: seq<byte>)
    requires Writing(d)
    ensures Writing(WriteAll(host, d, s))
    decreases |s|
  {
    hide Drive.Write, Drive.Valid;
    if s != [] {
      WritingStays(host, d, s[..|s| - 1]);
      WriteIsParse(host, WriteAll(host, d, s[..|s| - 1]), s[|s| - 1]);
    }
  }

  /**
   A guest that sends a whole high-density track to the chip in write mode, to a drive that is ready
   for it, gets its eighteen sectors onto the disk and into the file, and no error.
   */
  lemma TrackIsWrittenThroughChip(host: Host, mode: byte, d: Drive, error: byte, source: Media)
    requires mode & 0x18 == 0x10 && Writing(d) && d.written == [] && d.media.highDensity && SavesSucceed(host, d.media) && !d.media.failed
    requires source.Valid() && source.Inserted() && source.highDensity
    ensures d.At().side < 2
    ensures var (r, error') := Sent(host, mode, true, d, error, MfmTrack(source, d.At()));
            && !r.media.failed && FileImage(r.media) == Some(r.media.file)
            && Copied(d.media, source, r.media, SectorBlocks(d.At(), 0), false)
            && error' == if mode & 0x01 != 0 then 0 else error
  {
    ModeBits(mode);
    hide WriteAll, Sent, Copied, FileImage, WriteMode, Has, MfmTrack, Waiting, ReadBe32, Media.Valid;
    TrackWriteBack(host, d, source);
    SentIsWritten(host, mode, d, error, MfmTrack(source, d.At()));
    MfmTrackLength(source, d.At());
  }
}
