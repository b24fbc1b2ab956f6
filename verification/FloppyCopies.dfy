/** What saved commits leave on a disk: some blocks copied from another disk, and nothing else changed. */
module FloppyCopies {
  import opened Bytes
  import opened FloppyGeometry
  import opened FloppyMedia

  ghost predicate SavesSucceed(host: Host, m: Media)
  {
    forall n :: m.attempts <= n ==> host.accepts(n)
  }

  /** Media that sectors can be committed to. */
  predicate Ready(m: Media) { m.Valid() && m.Inserted() && m.writable }

  function TagOf(m: Media, block: nat): (tag: seq<byte>)
    ensures |tag| == TAG_BYTES
  {
    if block < |m.tags| && |m.tags[block]| == TAG_BYTES then m.tags[block] else Repeat(0, TAG_BYTES)
  }

  /** `r` is `m` with the data and tags of `blocks` taken from `source`, and nothing else changed but the file. */
  ghost predicate Copied(m: Media, source: Media, r: Media, blocks: set<nat>, withTags: bool)
    requires |source.data| == |m.data|
  {
    && |r.data| == |m.data| && |r.tags| == |m.tags|
    && r == m.(data := r.data, tags := r.tags, attempts := r.attempts, file := r.file, sector := r.sector)
    && (forall b: nat {:trigger b in blocks} :: (b + 1) * SECTOR_BYTES <= |m.data| ==>
          r.Block(b) == if b in blocks then source.Block(b) else m.Block(b))
    && (forall b: nat {:trigger b in blocks} :: b < |m.tags| ==>
          r.tags[b] == if b in blocks && withTags then TagOf(source, b) else m.tags[b])
  }

  lemma OverwriteBlock(data: seq<byte>, block: nat, content: seq<byte>, b: nat)
    requires |content| == SECTOR_BYTES && (block + 1) * SECTOR_BYTES <= |data| && (b + 1) * SECTOR_BYTES <= |data|
    ensures Overwrite(data, block * SECTOR_BYTES, content)[b * SECTOR_BYTES..(b + 1) * SECTOR_BYTES]
         == if b == block then content else data[b * SECTOR_BYTES..(b + 1) * SECTOR_BYTES]
  {
    var r := Overwrite(data, block * SECTOR_BYTES, content);
    if b < block {
      assert (b + 1) * SECTOR_BYTES <= block * SECTOR_BYTES;
    } else if b > block {
      assert (block + 1) * SECTOR_BYTES <= b * SECTOR_BYTES;
    }
  }

  lemma FileImageFollows(m: Media, m': Media)
    requires m.kind == m'.kind && m.header == m'.header && m.data == m'.data && m.tags == m'.tags
    ensures FileImage(m) == FileImage(m')
    ensures m.Valid() ==> FileImage(m).Some?
  {}

  /** With a working host, a commit to a place on the disk is saved and changes just that block and tag. */
  lemma CommitStores(host: Host, at: Place, m: Media, sector: nat, content: seq<byte>, tag: seq<byte>)
    requires Ready(m) && SavesSucceed(host, m) && |content| == SECTOR_BYTES
    requires IsPlace(m.highDensity, m.doubleSided, at.track, at.side, sector)
    ensures var block := BlockOf(m.highDensity, m.doubleSided, at.track, at.side, sector);
            var done := Commit(host, at, m, sector, content, tag);
            && block < BlockCount(m.highDensity, m.doubleSided) && block < |m.data| / SECTOR_BYTES
            && done.committed && Ready(done.media) && SavesSucceed(host, done.media)
            && FileImage(done.media) == Some(done.media.file)
            && done.media == Stored(m, block, content, tag).(attempts := m.attempts + 1, file := done.media.file)
  {
    hide BlockOf, FileImage, Overwrite, ReadBe32;
    BlocksAreDistinct(m.highDensity, m.doubleSided, at.track, at.side, sector, at.track, at.side, sector);
    var block := BlockOf(m.highDensity, m.doubleSided, at.track, at.side, sector);
    var stored := Stored(m, block, content, tag);
    CommitKeepsValid(host, at, m, sector, content, tag);
    StoredKeepsValid(m, block, content, tag);
    FileImageFollows(stored, Commit(host, at, m, sector, content, tag).media);
  }

  lemma StoredCopies(m: Media, source: Media, block: nat, r: Media, withTags: bool)
    requires |source.data| == |m.data| && block < |m.data| / SECTOR_BYTES
    requires r == Stored(m, block, source.Block(block), if withTags then TagOf(source, block) else []).(attempts := r.attempts, file := r.file)
    ensures Copied(m, source, r, {block}, withTags)
  {
    forall b: nat | (b + 1) * SECTOR_BYTES <= |m.data|
      ensures r.Block(b) == if b == block then source.Block(b) else m.Block(b)
    {
      OverwriteBlock(m.data, block, source.Block(block), b);
    }
  }

  lemma NothingCopied(m: Media, source: Media, withTags: bool)
    requires |source.data| == |m.data|
    ensures Copied(m, source, m, {}, withTags)
  {}

  lemma CopiedTwice(m: Media, source: Media, m1: Media, m2: Media, first: set<nat>, second: set<nat>, withTags: bool)
    requires |source.data| == |m.data| && Copied(m, source, m1, first, withTags) && Copied(m1, source, m2, second, withTags)
    ensures Copied(m, source, m2, first + second, withTags)
  {
    forall b: nat | (b + 1) * SECTOR_BYTES <= |m.data|
      ensures m2.Block(b) == if b in first + second then source.Block(b) else m.Block(b)
    {
      assert b in first || b !in first;
      assert b in second || b !in second;
    }
    forall b: nat | b < |m.tags|
      ensures m2.tags[b] == if b in first + second && withTags then TagOf(source, b) else m.tags[b]
    {
      assert b in first || b !in first;
      assert b in second || b !in second;
    }
  }

  lemma CopiedFlags(m: Media, source: Media, r: Media, blocks: set<nat>, withTags: bool)
    requires |source.data| == |m.data| && Copied(m, source, r, blocks, withTags)
    ensures r.failed == m.failed
  {}
}
