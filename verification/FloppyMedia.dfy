/**
 The medium in the drive: its blocks and sector tags, the file they are saved to, and the commit
 of one sector. The host file system is an environment that accepts or refuses each save attempt.
 */
module FloppyMedia {
  import opened Bytes
  import opened FloppyGeometry

  const SECTOR_BYTES: nat := 512
  const TAG_BYTES: nat := 12
  const CONTAINER_HEADER: nat := 84

  datatype Kind = Empty | Raw400K | Raw800K | Raw1440K | DiskCopy42

  /** `accepts(n)` tells whether the save attempt number `n` reaches the file. */
  datatype Host = Host(accepts: nat -> bool)

  datatype Place = Place(track: nat, side: nat)

  /**
   Everything the write path can read or change: the image, the saved file with the number of save
   attempts so far, the failure flag and the sector register of the MFM path (-1 when unset).
   */
  datatype Media = Media(
    kind: Kind,
    path: string,
    data: seq<byte>,
    tags: seq<seq<byte>>,
    header: seq<byte>,
    writable: bool,
    doubleSided: bool,
    highDensity: bool,
    attempts: nat,
    file: seq<byte>,
    failed: bool,
    sector: int)
  {
    predicate Inserted() { !kind.Empty? }

    /** What a load establishes and every operation keeps. */
    predicate Valid()
    {
      && (highDensity ==> doubleSided)
      && (Inserted() ==> |data| == BlockCount(highDensity, doubleSided) * SECTOR_BYTES)
      && (!Inserted() ==> data == [] && tags == [] && !writable && !highDensity && !doubleSided)
      && (tags == [] || |tags| == BlockCount(highDensity, doubleSided))
      && (forall t :: t in tags ==> |t| == TAG_BYTES)
      && (writable ==> path != [])
      && (kind.DiskCopy42? ==> && |header| == CONTAINER_HEADER
                               && ReadBe32(header, 64) == |data|
                               && ReadBe32(header, 68) == |tags| * TAG_BYTES)
      && (!kind.DiskCopy42? ==> tags == [])
    }

    function Block(b: nat): (s: seq<byte>)
      requires (b + 1) * SECTOR_BYTES <= |data|
      ensures |s| == SECTOR_BYTES
    {
      data[b * SECTOR_BYTES..(b + 1) * SECTOR_BYTES]
    }
  }

  const NO_MEDIA := Media(Empty, [], [], [], [], false, false, false, 0, [], false, -1)

  // ---------- the container ----------

  function ReadBe32(bytes: seq<byte>, offset: nat): nat
  {
    if offset + 4 > |bytes| then 0
    else ((bytes[offset] as nat * 256 + bytes[offset + 1] as nat) * 256 + bytes[offset + 2] as nat) * 256
         + bytes[offset + 3] as nat
  }

  function WriteBe32(bytes: seq<byte>, offset: nat, value: bv32): (s: seq<byte>)
    ensures |s| == |bytes|
  {
    if offset + 4 > |bytes| then bytes else bytes[..offset] + Split32(value) + bytes[offset + 4..]
  }

  /** One step of the container checksum: add a big-endian pair, rotate right. */
  function AddPair(sum: bv32, high: byte, low: byte): bv32
  {
    var added := sum + ((high as bv32 << 8) | low as bv32);
    (added >> 1) | (added << 31)
  }

  /** The rotating sum over byte pairs; a last odd byte is not summed. */
  function ChecksumFrom(sum: bv32, bytes: seq<byte>): bv32
    decreases |bytes|
  {
    if |bytes| < 2 then sum else ChecksumFrom(AddPair(sum, bytes[0], bytes[1]), bytes[2..])
  }

  function DiskCopyChecksum(bytes: seq<byte>): bv32 { ChecksumFrom(0, bytes) }

  method ComputeDiskCopyChecksum(bytes: seq<byte>) returns (checksum: bv32)
    ensures checksum == DiskCopyChecksum(bytes)
  {
    hide AddPair;
    checksum := 0;
    var offset := 0;
    assert bytes[0..] == bytes;
    while offset + 1 < |bytes|
      invariant 0 <= offset <= |bytes|
      invariant ChecksumFrom(checksum, bytes[offset..]) == DiskCopyChecksum(bytes)
    {
      assert bytes[offset..][2..] == bytes[offset + 2..];
      checksum := AddPair(checksum, bytes[offset], bytes[offset + 1]);
      offset := offset + 2;
    }
  }

  /** Rotating right is halving, with the lost one coming back as the highest bit. */
  lemma AddPairRotates(sum: bv32, high: byte, low: byte)
    ensures var added := sum + (256 * (high as bv32) + low as bv32);
            AddPair(sum, high, low) == added / 2 + (if added % 2 == 1 then 0x8000_0000 else 0)
  {}

  function Flatten(tags: seq<seq<byte>>): seq<byte>
  {
    if tags == [] then [] else tags[0] + Flatten(tags[1..])
  }

  /** The check over the tags, which leaves out the tag of the first sector. */
  function TagChecksum(tags: seq<seq<byte>>): bv32
  {
    DiskCopyChecksum(Mid(Flatten(tags), TAG_BYTES, |Flatten(tags)|))
  }

  /** The first sector's tag has no part in the check. */
  lemma TagCheckLeavesOutFirst(tags: seq<seq<byte>>)
    requires tags != [] && |tags[0]| == 12
    ensures TagChecksum(tags) == DiskCopyChecksum(Flatten(tags[1..]))
  {
    hide DiskCopyChecksum;
    ConcatSlices(tags[0], Flatten(tags[1..]));
  }

  /** The bytes a save writes, or none if the container header is unusable. */
  function FileImage(m: Media): Option<seq<byte>>
  {
    if m.kind.DiskCopy42? then
      if |m.header| != CONTAINER_HEADER then None
      else
        var tagBytes := Flatten(m.tags);
        var sized := m.header + m.data + tagBytes;
        Some(WriteBe32(WriteBe32(sized, 72, DiskCopyChecksum(m.data)), 76, TagChecksum(m.tags)))
    else Some(m.data)
  }

  /** `persistImage`: a save attempt is made only for writable media with a path and a usable header. */
  function Persist(host: Host, m: Media): (Media, bool)
  {
    if !m.writable || m.path == [] || FileImage(m).None? then (m, false)
    else
      var ok := host.accepts(m.attempts);
      (m.(attempts := m.attempts + 1, file := if ok then FileImage(m).value else m.file), ok)
  }

  // ---------- one sector ----------

  datatype Acted = Acted(media: Media, committed: bool)

  function Overwrite(s: seq<byte>, at: nat, part: seq<byte>): (r: seq<byte>)
    requires at + |part| <= |s|
    ensures |r| == |s|
  {
    s[..at] + part + s[at + |part|..]
  }

  /** The image after the sector was copied in, before it is saved. */
  function Stored(m: Media, block: nat, content: seq<byte>, tag: seq<byte>): Media
    requires |content| == SECTOR_BYTES && block < |m.data| / SECTOR_BYTES
  {
    m.(data := Overwrite(m.data, block * SECTOR_BYTES, content),
       tags := if tag != [] && block < |m.tags| && |tag| == TAG_BYTES then m.tags[block := tag] else m.tags)
  }

  /** `commitSector`; a failed save leaves the new content in the image and raises the failure flag. */
  function Commit(host: Host, at: Place, m: Media, sector: nat, content: seq<byte>, tag: seq<byte>): (r: Acted)
    ensures r.media.highDensity == m.highDensity && r.media.doubleSided == m.doubleSided && |r.media.data| == |m.data|
  {
    var block := BlockOf(m.highDensity, m.doubleSided, at.track, at.side, sector);
    if |content| != SECTOR_BYTES || block >= |m.data| / SECTOR_BYTES then Acted(m, false)
    else
      var (saved, ok) := Persist(host, Stored(m, block, content, tag));
      if ok then Acted(saved, true) else Acted(saved.(failed := true), false)
  }

  lemma StoredKeepsValid(m: Media, block: nat, content: seq<byte>, tag: seq<byte>)
    requires m.Valid() && |content| == SECTOR_BYTES && block < |m.data| / SECTOR_BYTES
    ensures Stored(m, block, content, tag).Valid()
  {
    hide ReadBe32;
    var m' := Stored(m, block, content, tag);
    forall t | t in m'.tags
      ensures |t| == TAG_BYTES
    {
      var i :| 0 <= i < |m'.tags| && m'.tags[i] == t;
      assert m.tags[i] in m.tags;
    }
  }

  lemma CommitKeepsValid(host: Host, at: Place, m: Media, sector: nat, content: seq<byte>, tag: seq<byte>)
    requires m.Valid()
    ensures Commit(host, at, m, sector, content, tag).media.Valid()
  {
    hide ReadBe32, FileImage, Stored, BlockOf;
    var block := BlockOf(m.highDensity, m.doubleSided, at.track, at.side, sector);
    if |content| == SECTOR_BYTES && block < |m.data| / SECTOR_BYTES {
      StoredKeepsValid(m, block, content, tag);
    }
  }

  // ---------- loading ----------

  function Chunks(bytes: seq<byte>, size: nat): seq<seq<byte>>
    decreases |bytes|
  {
    if size == 0 || |bytes| < size then [] else [bytes[..size]] + Chunks(bytes[size..], size)
  }

  /** `loadRaw`: takes an image of the size its kind has. */
  function LoadRaw(m: Media, path: string, bytes: seq<byte>, kind: Kind, writable: bool): Media
  {
    m.(kind := kind, path := path, data := bytes, tags := [], header := [], writable := writable,
       doubleSided := !kind.Raw400K?, highDensity := kind.Raw1440K?, file := bytes, failed := false, sector := -1)
  }

  /** The sizes of data and tags that a container states, if they add up. */
  function ContainerSizes(bytes: seq<byte>): (r: Option<(nat, nat)>)
    ensures r.Some? ==> r.value.0 in {409600, 819200, 1474560} && (r.value.1 == 0 || r.value.1 == r.value.0 / SECTOR_BYTES * TAG_BYTES)
    ensures r.Some? ==> CONTAINER_HEADER + r.value.0 + r.value.1 <= |bytes|
    ensures r.Some? ==> r.value == (ReadBe32(bytes, 64), ReadBe32(bytes, 68))
  {
    hide ReadBe32;
    var dataSize, tagSize := ReadBe32(bytes, 64), ReadBe32(bytes, 68);
    if (dataSize != 409600 && dataSize != 819200 && dataSize != 1474560)
       || |bytes| < (CONTAINER_HEADER + dataSize + tagSize) % 0x1_0000_0000 then None
    else if tagSize != 0 && tagSize != dataSize / SECTOR_BYTES * TAG_BYTES then None
    else Some((dataSize, tagSize))
  }

  function Be32(a: byte, b: byte, c: byte, d: byte): nat { 0x100_0000 * (a as nat) + 0x1_0000 * (b as nat) + 0x100 * (c as nat) + d as nat }

  /**
   A container is accepted exactly if the sizes that bytes 64 and 68 state, most significant byte
   first, are those of a disk and of its tags, or of none, and all of it is there.
   */
  lemma ContainerIsAccepted(m: Media, path: string, bytes: seq<byte>, writable: bool)
    ensures LoadDiskCopy42(m, path, bytes, writable).Some? <==>
              && |bytes| >= 84
              && var size, tags := Be32(bytes[64], bytes[65], bytes[66], bytes[67]), Be32(bytes[68], bytes[69], bytes[70], bytes[71]);
                 && size in {400 * 1024, 800 * 1024, 1440 * 1024} && (tags == 0 || tags == size / 512 * 12)
                 && |bytes| >= 84 + size + tags
  {
    hide Chunks, ReadBe32, Be32, ContainerSizes;
    StatedSizes(bytes);
    SizesAreAccepted(bytes);
  }

  lemma StatedSizes(bytes: seq<byte>)
    ensures |bytes| < 68 ==> ReadBe32(bytes, 64) == 0
    ensures |bytes| >= 72 ==> ReadBe32(bytes, 64) == Be32(bytes[64], bytes[65], bytes[66], bytes[67])
    ensures |bytes| >= 72 ==> ReadBe32(bytes, 68) == Be32(bytes[68], bytes[69], bytes[70], bytes[71])
  {}

  lemma SizesAreAccepted(bytes: seq<byte>)
    ensures var size, tags := ReadBe32(bytes, 64), ReadBe32(bytes, 68);
            ContainerSizes(bytes).Some? <==>
              size in {409600, 819200, 1474560} && (tags == 0 || tags == size / 512 * 12) && |bytes| >= 84 + size + tags
  {
    hide ReadBe32;
  }

  /** `loadDiskCopy42`: refuses a container whose sizes do not add up. */
  function LoadDiskCopy42(m: Media, path: string, bytes: seq<byte>, writable: bool): (r: Option<Media>)
  {
    var sizes := ContainerSizes(bytes);
    if sizes.None? then None
    else
      var (dataSize, tagSize) := sizes.value;
      var tagBytes := bytes[CONTAINER_HEADER + dataSize..CONTAINER_HEADER + dataSize + tagSize];
      Some(m.(kind := DiskCopy42, path := path, header := bytes[..CONTAINER_HEADER],
              data := bytes[CONTAINER_HEADER..CONTAINER_HEADER + dataSize], tags := Chunks(tagBytes, TAG_BYTES),
              writable := writable, doubleSided := dataSize != 409600, highDensity := dataSize == 1474560,
              file := bytes, failed := false, sector := -1))
  }

  lemma {:induction false} ChunksFlatten(tags: seq<seq<byte>>)
    requires forall t :: t in tags ==> |t| == TAG_BYTES
    ensures |Flatten(tags)| == |tags| * TAG_BYTES
    ensures Chunks(Flatten(tags), TAG_BYTES) == tags
  {
    if tags != [] {
      assert tags[0] in tags;
      assert forall t :: t in tags[1..] ==> t in tags;
      ChunksFlatten(tags[1..]);
      ConcatSlices(tags[0], Flatten(tags[1..]));
    }
  }

  lemma WriteBe32IsLocal(bytes: seq<byte>, offset: nat, value: bv32)
    requires offset + 4 <= |bytes|
    ensures var r := WriteBe32(bytes, offset, value);
            && r[offset..offset + 4] == Split32(value)
            && forall i :: 0 <= i < |r| && !(offset <= i < offset + 4) ==> r[i] == bytes[i]
  {
    hide Split32;
  }

  /** Two checks written over a container header leave everything else in place. */
  lemma ChecksWritten(sized: seq<byte>, first: bv32, second: bv32)
    requires |sized| >= CONTAINER_HEADER
    ensures var image := WriteBe32(WriteBe32(sized, 72, first), 76, second);
            && image[..72] == sized[..72] && image[72..76] == Split32(first) && image[76..80] == Split32(second)
            && image[80..84] == sized[80..84] && image[84..] == sized[84..]
  {
    hide Split32, WriteBe32;
    var once := WriteBe32(sized, 72, first);
    WriteBe32IsLocal(sized, 72, first);
    WriteBe32IsLocal(once, 76, second);
    assert WriteBe32(once, 76, second)[72..76] == once[72..76];
  }

  /** The parts of a saved container. */
  lemma FileImageParts(m: Media)
    requires m.Valid() && m.kind.DiskCopy42?
    ensures FileImage(m).Some? && |FileImage(m).value| == CONTAINER_HEADER + |m.data| + |Flatten(m.tags)|
    ensures var image := FileImage(m).value;
            && image[..72] == m.header[..72]
            && image[72..76] == Split32(DiskCopyChecksum(m.data))
            && image[76..80] == Split32(TagChecksum(m.tags))
            && image[80..84] == m.header[80..84]
            && image[CONTAINER_HEADER..] == m.data + Flatten(m.tags)
  {
    hide Split32, WriteBe32, DiskCopyChecksum, TagChecksum, Flatten, ReadBe32;
    var sized := m.header + m.data + Flatten(m.tags);
    ChecksWritten(sized, DiskCopyChecksum(m.data), TagChecksum(m.tags));
    assert sized[..72] == m.header[..72] && sized[80..84] == m.header[80..84];
    assert sized[CONTAINER_HEADER..] == m.data + Flatten(m.tags);
  }

  lemma ReadBe32Prefix(s: seq<byte>, t: seq<byte>, offset: nat)
    requires offset + 4 <= 72 <= |s| && 72 <= |t| && s[..72] == t[..72]
    ensures ReadBe32(s, offset) == ReadBe32(t, offset)
  {
    assert forall i :: 0 <= i < 72 ==> s[i] == s[..72][i] && t[i] == t[..72][i];
  }

  /** What was saved is what is loaded: data and tags survive the container, whose data checksum is renewed. */
  lemma SaveThenLoad(m: Media, other: Media, path: string, writable: bool)
    requires m.Valid() && m.kind.DiskCopy42?
    ensures FileImage(m).Some?
    ensures var loaded := LoadDiskCopy42(other, path, FileImage(m).value, writable);
            && loaded.Some? && loaded.value.data == m.data && loaded.value.tags == m.tags
            && loaded.value.doubleSided == m.doubleSided && loaded.value.highDensity == m.highDensity
            && loaded.value.header[..72] == m.header[..72]
            && loaded.value.header[72..76] == Split32(DiskCopyChecksum(m.data))
            && loaded.value.header[76..80] == Split32(TagChecksum(m.tags))
            && loaded.value.header[80..84] == m.header[80..84]
  {
    hide Split32, DiskCopyChecksum, TagChecksum, Flatten, Chunks, FileImage, ReadBe32;
    ChunksFlatten(m.tags);
    FileImageParts(m);
    var image, tagBytes := FileImage(m).value, Flatten(m.tags);
    ReadBe32Prefix(image, m.header, 64);
    ReadBe32Prefix(image, m.header, 68);
    ConcatSlices(m.data, tagBytes);
    assert image[84..84 + |m.data|] == image[84..][..|m.data|];
    assert image[84 + |m.data|..84 + |m.data| + |tagBytes|] == image[84..][|m.data|..];
    assert image[..84][..72] == image[..72] && image[..84][72..76] == image[72..76];
    assert image[..84][76..80] == image[76..80] && image[..84][80..84] == image[80..84];
  }

  lemma {:induction false} ChunksCount(bytes: seq<byte>, count: nat)
    requires |bytes| == count * TAG_BYTES
    ensures |Chunks(bytes, TAG_BYTES)| == count
    ensures forall t :: t in Chunks(bytes, TAG_BYTES) ==> |t| == TAG_BYTES
    decreases count
  {
    if count > 0 {
      ChunksCount(bytes[TAG_BYTES..], count - 1);
    }
  }

  lemma LoadedContainerIsValid(m: Media, path: string, bytes: seq<byte>, writable: bool)
    requires writable ==> path != []
    ensures var r := LoadDiskCopy42(m, path, bytes, writable);
            r.Some? ==> r.value.Valid() && r.value.Inserted()
  {
    hide Chunks, ReadBe32, ContainerSizes;
    var sizes := ContainerSizes(bytes);
    if sizes.Some? {
      var (dataSize, tagSize) := sizes.value;
      var header := bytes[..CONTAINER_HEADER];
      ChunksCount(bytes[CONTAINER_HEADER + dataSize..CONTAINER_HEADER + dataSize + tagSize], tagSize / TAG_BYTES);
      assert header[..72] == bytes[..72];
      ReadBe32Prefix(bytes, header, 64);
      ReadBe32Prefix(bytes, header, 68);
    }
  }
}
