/**
 Recovering sectors from the bytes written under the head. Both recordings are read the same way:
 find the sync bytes, wait for the record that starts there, act on it, and go on behind it.
 */
module FloppyWrites {
  import opened Bytes
  import opened FloppyGeometry
  import opened FloppyMedia
  import opened FloppyTracks
  import opened GcrCodec
  import opened MfmCheck

  const MFM_ID: nat := 10
  const MFM_DATA: nat := 518

  // ---------- finding the sync bytes ----------

  predicate MatchAt(s: seq<byte>, sync: seq<byte>, i: int)
    requires |sync| == 3
  {
    0 <= i && i + 3 <= |s| && s[i] == sync[0] && s[i + 1] == sync[1] && s[i + 2] == sync[2]
  }

  /** First position from `from` on where `sync` stands, or -1. */
  function Find(s: seq<byte>, sync: seq<byte>, from: nat): (r: int)
    requires |sync| == 3
    ensures r == -1 ==> forall i :: from <= i ==> !MatchAt(s, sync, i)
    ensures r != -1 ==> from <= r <= |s| - 3 && MatchAt(s, sync, r) && forall i :: from <= i < r ==> !MatchAt(s, sync, i)
    decreases |s| - from
  {
    if from + 3 > |s| then -1
    else if MatchAt(s, sync, from) then from
    else Find(s, sync, from + 1)
  }

  function Sync(highDensity: bool): (s: seq<byte>)
    ensures |s| == 3
  {
    if highDensity then [0xa1, 0xa1, 0xa1] else DATA_PROLOGUE
  }

  // ---------- one record ----------

  /** How many bytes the record at the front of `b` takes; 0 to wait for more bytes. */
  function Take(highDensity: bool, b: seq<byte>): (n: nat)
    ensures n <= |b|
  {
    if highDensity then
      if |b| < 4 then 0
      else if b[3] == 0xfe then if |b| < MFM_ID then 0 else MFM_ID
      else if b[3] == 0xfb || b[3] == 0xf8 then if |b| < MFM_DATA then 0 else MFM_DATA
      else 1
    else
      if |b| < GCR_RECORD then 0
      else if b[707..710] != EPILOGUE then 1
      else GCR_RECORD
  }

  function GcrAct(host: Host, at: Place, m: Media, record: seq<byte>): Acted
    requires |record| == GCR_RECORD
  {
    var sector := DecodeGcr(record[3]);
    var payload := DecodePayload(record[4..707]);
    if sector.Some? && sector.value as nat < SectorsForTrack(at.track) && payload.Some? then
      Commit(host, at, m, sector.value as nat, payload.value[TAG_BYTES..], payload.value[..TAG_BYTES])
    else Acted(m.(failed := true), false)
  }

  function Covered(record: seq<byte>): seq<byte>
    requires |record| >= 2
  {
    record[..|record| - 2]
  }

  /** The stored check equals the check over the bytes before it. */
  predicate CheckHolds(record: seq<byte>)
    requires |record| >= 2
  {
    MfmCrc(Covered(record)) == Join(record[|record| - 2], record[|record| - 1])
  }

  function MfmIdAct(at: Place, m: Media, record: seq<byte>): Acted
    requires |record| == MFM_ID
  {
    if CheckHolds(record) && record[4] as nat == at.track && record[5] as nat == at.side && record[7] == 2 then
      Acted(m.(sector := record[6] as nat - 1), false)
    else Acted(m, false)
  }

  function MfmDataAct(host: Host, at: Place, m: Media, record: seq<byte>): Acted
    requires |record| == MFM_DATA
  {
    if 0 <= m.sector < MFM_SECTORS && CheckHolds(record) then
      Commit(host, at, m, m.sector, record[4..4 + SECTOR_BYTES], [])
    else Acted(m.(failed := true), false)
  }

  /** What a complete record does; a single byte is merely skipped. */
  function Act(host: Host, at: Place, m: Media, record: seq<byte>): (r: Acted)
    ensures r.media.highDensity == m.highDensity && r.media.doubleSided == m.doubleSided && |r.media.data| == |m.data|
  {
    if m.highDensity then
      if |record| == MFM_ID then MfmIdAct(at, m, record)
      else if |record| == MFM_DATA then MfmDataAct(host, at, m, record)
      else Acted(m, false)
    else
      if |record| == GCR_RECORD then GcrAct(host, at, m, record) else Acted(m, false)
  }

  // ---------- the whole buffer ----------

  datatype Parsed = Parsed(media: Media, rest: seq<byte>, committed: bool)

  /** With no sync in sight only the last two bytes can still become part of one. */
  function Tail(s: seq<byte>): seq<byte>
  {
    if |s| > 2 then s[|s| - 2..] else s
  }

  function Parse(host: Host, at: Place, m: Media, s: seq<byte>): (r: Parsed)
    ensures r.media.highDensity == m.highDensity && r.media.doubleSided == m.doubleSided && |r.media.data| == |m.data|
    ensures |r.rest| <= |s| && |r.rest| < if m.highDensity then MFM_DATA else GCR_RECORD
    decreases |s|
  {
    var p := Find(s, Sync(m.highDensity), 0);
    if p == -1 then Parsed(m, Tail(s), false)
    else
      var b := s[p..];
      var n := Take(m.highDensity, b);
      if n == 0 then Parsed(m, b, false)
      else
        var done := Act(host, at, m, b[..n]);
        var r := Parse(host, at, done.media, b[n..]);
        Parsed(r.media, r.rest, done.committed || r.committed)
  }

  function After(r: Parsed, committed: bool): Parsed
  {
    Parsed(r.media, r.rest, committed || r.committed)
  }

  /** A turn of the loop that cannot go on. */
  lemma ParseStops(host: Host, at: Place, m: Media, s: seq<byte>)
    ensures var p := Find(s, Sync(m.highDensity), 0);
            && (p == -1 ==> Parse(host, at, m, s) == Parsed(m, Tail(s), false))
            && (p != -1 && Take(m.highDensity, s[p..]) == 0 ==> Parse(host, at, m, s) == Parsed(m, s[p..], false))
  {
    hide Act, Take;
  }

  /** A turn of the loop that takes `n` bytes from `b`, the buffer from the first sync on. */
  lemma ParseTurns(host: Host, at: Place, m: Media, s: seq<byte>, b: seq<byte>, n: nat)
    requires Find(s, Sync(m.highDensity), 0) != -1 && b == s[Find(s, Sync(m.highDensity), 0)..]
    requires n == Take(m.highDensity, b) && n != 0
    ensures var done := Act(host, at, m, b[..n]);
            Parse(host, at, m, s) == After(Parse(host, at, done.media, b[n..]), done.committed)
  {
    hide Act, Take;
  }

  lemma SkipsOne(host: Host, at: Place, m: Media, b: seq<byte>)
    requires |b| == 1
    ensures Act(host, at, m, b) == Acted(m, false)
  {}

  lemma FindIs(s: seq<byte>, sync: seq<byte>, p: nat)
    requires |sync| == 3 && MatchAt(s, sync, p) && forall i :: 0 <= i < p ==> !MatchAt(s, sync, i)
    ensures Find(s, sync, 0) == p
  {}

  lemma TakeIsStable(highDensity: bool, b: seq<byte>, y: seq<byte>)
    requires Take(highDensity, b) != 0
    ensures Take(highDensity, b + y) == Take(highDensity, b)
  {
    if !highDensity {
      assert (b + y)[707..710] == b[707..710];
    }
  }

  /** Bytes at which no sync starts can be dropped, as long as two are kept or a sync follows. */
  lemma ParseDrop(host: Host, at: Place, m: Media, s: seq<byte>, k: nat)
    requires k <= |s| && forall i :: 0 <= i < k ==> !MatchAt(s, Sync(m.highDensity), i)
    requires |s| - k >= 2 || k == 0
    ensures Parse(host, at, m, s) == Parse(host, at, m, s[k..])
  {
    hide Act, Take, Sync, MatchAt, Parse;
    var sync := Sync(m.highDensity);
    var p, t := Find(s, sync, 0), s[k..];
    forall i: nat
      ensures MatchAt(t, sync, i) == MatchAt(s, sync, i + k)
    {
      MatchInDrop(s, k, sync, i);
    }
    ParseStops(host, at, m, s);
    ParseStops(host, at, m, t);
    if p == -1 {
      assert Find(t, sync, 0) == -1;
      assert Tail(s) == Tail(t);
    } else {
      assert p >= k && MatchAt(t, sync, p - k);
      FindIs(t, sync, p - k);
      assert t[p - k..] == s[p..];
      SameTurn(host, at, m, s, t);
    }
  }

  lemma SameTurn(host: Host, at: Place, m: Media, s: seq<byte>, t: seq<byte>)
    requires var p, q := Find(s, Sync(m.highDensity), 0), Find(t, Sync(m.highDensity), 0);
             p != -1 && q != -1 && s[p..] == t[q..]
    ensures Parse(host, at, m, s) == Parse(host, at, m, t)
  {
    hide Act, Take, MatchAt, Sync;
  }

  lemma MatchInDrop(s: seq<byte>, k: nat, sync: seq<byte>, i: nat)
    requires |sync| == 3 && k <= |s|
    ensures MatchAt(s[k..], sync, i) == MatchAt(s, sync, i + k)
  {}

  lemma MatchInConcat(x: seq<byte>, y: seq<byte>, sync: seq<byte>, i: int)
    requires |sync| == 3 && i + 3 <= |x|
    ensures MatchAt(x + y, sync, i) == MatchAt(x, sync, i)
  {}

  /**
   Incremental parsing is batch parsing: stopping after `x` and going on with its rest and `y`
   leaves the same medium, the same rest and the same report as parsing `x + y` in one go.
   */
  lemma {:induction false} ParseInTwoParts(host: Host, at: Place, m: Media, x: seq<byte>, y: seq<byte>)
    ensures var first := Parse(host, at, m, x);
            var second := Parse(host, at, first.media, first.rest + y);
            Parse(host, at, m, x + y) == Parsed(second.media, second.rest, first.committed || second.committed)
    decreases |x|
  {
    hide Act, Take;
    var sync := Sync(m.highDensity);
    var p := Find(x, sync, 0);
    if p == -1 {
      var k := |x| - |Tail(x)|;
      assert Tail(x) + y == (x + y)[k..];
      assert forall i :: 0 <= i < k ==> MatchAt(x + y, sync, i) == MatchAt(x, sync, i);
      ParseDrop(host, at, m, x + y, k);
    } else {
      var b := x[p..];
      var n := Take(m.highDensity, b);
      assert forall i :: 0 <= i <= p ==> MatchAt(x + y, sync, i) == MatchAt(x, sync, i);
      assert (x + y)[p..] == b + y;
      if n == 0 {
        ParseDrop(host, at, m, x + y, p);
      } else {
        FindIs(x + y, sync, p);
        TakeIsStable(m.highDensity, b, y);
        assert (b + y)[..n] == b[..n] && (b + y)[n..] == b[n..] + y;
        ParseInTwoParts(host, at, Act(host, at, m, b[..n]).media, b[n..], y);
      }
    }
  }

  /** A buffer in which nothing can be done before more bytes arrive. */
  predicate Waiting(highDensity: bool, s: seq<byte>)
  {
    if Find(s, Sync(highDensity), 0) == -1 then |s| <= 2
    else MatchAt(s, Sync(highDensity), 0) && Take(highDensity, s) == 0
  }

  lemma EmptyWaits(highDensity: bool)
    ensures Waiting(highDensity, [])
  {}

  lemma WaitingIsIdle(host: Host, at: Place, m: Media, s: seq<byte>)
    requires Waiting(m.highDensity, s)
    ensures Parse(host, at, m, s) == Parsed(m, s, false)
    ensures |s| < if m.highDensity then MFM_DATA else GCR_RECORD
  {
    if Find(s, Sync(m.highDensity), 0) != -1 {
      assert s[0..] == s;
    }
  }

  /** What a parse leaves behind is waiting for more. */
  lemma {:induction false} RestWaits(host: Host, at: Place, m: Media, s: seq<byte>)
    ensures Waiting(m.highDensity, Parse(host, at, m, s).rest)
    decreases |s|
  {
    hide Act, Take;
    var sync := Sync(m.highDensity);
    var p := Find(s, sync, 0);
    if p == -1 {
      assert forall i :: 0 <= i ==> MatchAt(Tail(s), sync, i) ==> MatchAt(s, sync, i + |s| - |Tail(s)|);
    } else {
      var b := s[p..];
      var n := Take(m.highDensity, b);
      if n == 0 {
        assert MatchAt(b, sync, 0) && b[0..] == b;
      } else {
        RestWaits(host, at, Act(host, at, m, b[..n]).media, b[n..]);
      }
    }
  }

  /** A record behind bytes that start no sync is acted on, and parsing goes on behind it. */
  lemma ParseRecord(host: Host, at: Place, m: Media, junk: seq<byte>, record: seq<byte>, rest: seq<byte>)
    requires |record| >= 3 && MatchAt(record, Sync(m.highDensity), 0)
    requires forall i :: 0 <= i < |junk| ==> !MatchAt(junk + record, Sync(m.highDensity), i)
    requires Take(m.highDensity, record) == |record|
    ensures var done := Act(host, at, m, record);
            var r := Parse(host, at, done.media, rest);
            Parse(host, at, m, junk + record + rest) == Parsed(r.media, r.rest, done.committed || r.committed)
  {
    hide Act, Take;
    var sync := Sync(m.highDensity);
    var s := junk + record + rest;
    assert s == junk + (record + rest);
    forall i | 0 <= i <= |junk|
      ensures MatchAt(s, sync, i) <==> i == |junk|
    {
      MatchInConcat(junk + record, rest, sync, i);
      if i == |junk| { assert s[i] == record[0] && s[i + 1] == record[1] && s[i + 2] == record[2]; }
    }
    FindIs(s, sync, |junk|);
    var b := s[|junk|..];
    assert b == record + rest;
    TakeIsStable(m.highDensity, record, rest);
    assert b[..|record|] == record && b[|record|..] == rest;
  }

  lemma ActKeepsValid(host: Host, at: Place, m: Media, record: seq<byte>)
    requires m.Valid()
    ensures Act(host, at, m, record).media.Valid()
  {
    hide Commit, CheckHolds, DecodeGcr, DecodePayload;
    if !m.highDensity && |record| == GCR_RECORD {
      var sector, payload := DecodeGcr(record[3]), DecodePayload(record[4..707]);
      if sector.Some? && payload.Some? {
        CommitKeepsValid(host, at, m, sector.value as nat, payload.value[TAG_BYTES..], payload.value[..TAG_BYTES]);
      }
    } else if m.highDensity && |record| == MFM_DATA && m.sector >= 0 {
      CommitKeepsValid(host, at, m, m.sector, record[4..4 + SECTOR_BYTES], []);
    }
  }

  lemma {:induction false} ParseKeepsValid(host: Host, at: Place, m: Media, s: seq<byte>)
    requires m.Valid()
    ensures Parse(host, at, m, s).media.Valid()
    decreases |s|
  {
    hide Act, Take;
    var p := Find(s, Sync(m.highDensity), 0);
    if p != -1 {
      var n := Take(m.highDensity, s[p..]);
      if n != 0 {
        ActKeepsValid(host, at, m, s[p..][..n]);
        ParseKeepsValid(host, at, Act(host, at, m, s[p..][..n]).media, s[p..][n..]);
      }
    }
  }
}
