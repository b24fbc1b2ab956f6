/** Whole runs of a drive: strings of written bytes, and any mixture of its operations. */
module FloppyRuns {
  import opened Bytes
  import opened FloppyGeometry
  import opened FloppyMedia
  import opened FloppyTracks
  import opened FloppyWrites
  import opened FloppyDrive
  import opened GcrCodec

  // ---------- writing many bytes ----------

  /** The drive after `s` was written byte by byte. */
  function WriteAll(host: Host, d: Drive, s: seq<byte>): (r: Drive)
    requires d.Valid()
    ensures r.Valid()
    decreases |s|
  {
    if s == [] then d
    else
      var before := WriteAll(host, d, s[..|s| - 1]);
      WriteKeepsValid(host, before, s[|s| - 1]);
      before.Write(host, s[|s| - 1]).0
  }

  lemma WriteKeepsValid(host: Host, d: Drive, value: byte)
    requires d.Valid()
    ensures d.Write(host, value).0.Valid()
  {
    hide Parse, Waiting, LastIdBefore, GcrTrack, MfmTrack, MfmTrackMarks, ReadBe32;
    if d.media.writable && d.Spinning() {
      WriteIs(d, host, value, d.Refreshed(), Parse(host, d.At(), d.Refreshed().Armed(), d.written + [value]));
    }
  }

  /** A drive that takes the bytes written to it. */
  predicate Writing(d: Drive) { d.Valid() && d.media.writable && d.Spinning() }

  lemma {:induction false} WriteAllConcat(host: Host, d: Drive, s: seq<byte>, t: seq<byte>)
    requires d.Valid()
    ensures WriteAll(host, d, s + t) == WriteAll(host, WriteAll(host, d, s), t)
    decreases |t|
  {
    hide Drive.Write, Drive.Valid;
    if t == [] {
      assert s + t == s;
    } else {
      WriteAllConcat(host, d, s, t[..|t| - 1]);
      assert (s + t)[..|s + t| - 1] == s + t[..|t| - 1];
    }
  }

  /** What a parse never changes. */
  predicate SameDisk(m: Media, r: Media)
  {
    r == m.(data := r.data, tags := r.tags, attempts := r.attempts, file := r.file, failed := r.failed, sector := r.sector)
  }

  lemma {:induction false} ParseKeepsDisk(host: Host, at: Place, m: Media, s: seq<byte>)
    ensures SameDisk(m, Parse(host, at, m, s).media)
    decreases |s|
  {
    hide Act, Take;
    var p := Find(s, Sync(m.highDensity), 0);
    if p != -1 {
      var n := Take(m.highDensity, s[p..]);
      if n != 0 {
        ActKeepsDisk(host, at, m, s[p..][..n]);
        ParseKeepsDisk(host, at, Act(host, at, m, s[p..][..n]).media, s[p..][n..]);
      }
    }
  }

  lemma ActKeepsDisk(host: Host, at: Place, m: Media, record: seq<byte>)
    ensures SameDisk(m, Act(host, at, m, record).media)
  {
    hide CheckHolds, DecodeGcr, DecodePayload, Commit;
    if m.highDensity && |record| == MFM_DATA && m.sector >= 0 {
      CommitKeepsDisk(host, at, m, m.sector, record[4..4 + SECTOR_BYTES], []);
    } else if !m.highDensity && |record| == GCR_RECORD {
      var sector, payload := DecodeGcr(record[3]), DecodePayload(record[4..707]);
      if sector.Some? && payload.Some? {
        CommitKeepsDisk(host, at, m, sector.value as nat, payload.value[TAG_BYTES..], payload.value[..TAG_BYTES]);
      }
    }
  }

  lemma CommitKeepsDisk(host: Host, at: Place, m: Media, sector: nat, content: seq<byte>, tag: seq<byte>)
    ensures SameDisk(m, Commit(host, at, m, sector, content, tag).media)
  {
    hide BlockOf, FileImage, Overwrite;
  }

  /** One write, seen from outside: the head stays, the medium and the buffer are those of the parse. */
  lemma WriteIsParse(host: Host, d: Drive, value: byte)
    requires Writing(d)
    ensures var m := d.Refreshed().Armed();
            var r := Parse(host, d.At(), m, d.written + [value]);
            var after := d.Write(host, value).0;
            && after.media == r.media && after.written == r.rest && Writing(after) && after.At() == d.At()
            && after.cache == (if r.committed then EMPTY_CACHE else d.Refreshed().Advanced().cache)
            && SameDisk(d.media, r.media)
  {
    hide Parse, Waiting, LastIdBefore, GcrTrack, MfmTrack, MfmTrackMarks, ReadBe32, Media.Valid;
    var m := d.Refreshed().Armed();
    WriteIs(d, host, value, d.Refreshed(), Parse(host, d.At(), m, d.written + [value]));
    ParseKeepsDisk(host, d.At(), m, d.written + [value]);
  }

  /** On a group-coded disk, writing byte by byte is parsing all at once. */
  lemma {:induction false} WriteAllIsParse(host: Host, d: Drive, s: seq<byte>)
    requires Writing(d) && !d.media.highDensity
    ensures var r := Parse(host, d.At(), d.media, d.written + s);
            var after := WriteAll(host, d, s);
            && after.media == r.media && after.written == r.rest && Writing(after) && after.At() == d.At()
    decreases |s|
  {
    hide Parse, Drive.Write, Drive.Refreshed, Waiting, Media.Valid;
    if s == [] {
      WaitingIsIdle(host, d.At(), d.media, d.written);
      assert d.written + s == d.written;
    } else {
      var start := s[..|s| - 1];
      var before := WriteAll(host, d, start);
      WriteAllIsParse(host, d, start);
      WriteIsParse(host, before, s[|s| - 1]);
      RefreshKeepsMedia(before);
      ParseInTwoParts(host, d.At(), d.media, d.written + start, [s[|s| - 1]]);
      assert d.written + start + [s[|s| - 1]] == d.written + s;
    }
  }

  lemma RefreshKeepsMedia(d: Drive)
    requires d.Valid()
    ensures d.Refreshed().media == d.media && d.Refreshed().written == d.written && d.Refreshed().At() == d.At()
  {}

  lemma BuiltHasBytes(d: Drive)
    requires d.Valid() && d.media.Inserted()
    ensures |d.Built().0| > 0
  {
    hide GcrSectors, Waiting, ReadBe32;
    if d.media.highDensity {
      MfmTrackLength(d.media, d.At());
    }
  }

  lemma RefreshedIsCached(d: Drive)
    requires d.Valid() && d.Spinning()
    ensures var r := d.Refreshed();
            r.Valid() && r.Spinning() && r.Cached() && r.cache.cursor < |r.cache.bytes|
  {
    hide Drive.Built, Media.Valid, Waiting;
    BuiltHasBytes(d);
    OperationsKeepValid(d, 0, false);
  }
}
