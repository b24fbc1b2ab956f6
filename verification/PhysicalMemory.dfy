/**
 The sparse map of the 32-bit physical address space. Pages point into the memory of the host, at
 an index here; several pages may point at the same bytes, and a page may be readable only.
 */
module PhysicalMemory {
  import opened Bytes

  const PAGE: nat := 4096
  const SPACE: nat := 0x1_0000_0000
  const PAGES: nat := 0x10_0000
  const ENTRIES: nat := 1024

  datatype Page = Page(read: Option<nat>, write: Option<nat>)

  const UNMAPPED := Page(None, None)

  // ---------- the flat memory ----------

  /** The pages of the whole space, and that every pointer leaves room for a page. */
  predicate MapValid(pages: seq<Page>, memory: nat)
  {
    && |pages| == PAGES
    && forall n :: 0 <= n < PAGES ==> Fits(pages[n].read, memory) && Fits(pages[n].write, memory)
  }

  predicate Fits(pointer: Option<nat>, memory: nat) { pointer.Some? ==> pointer.value + PAGE <= memory }

  /** The byte of host memory behind an address, if it can be read. */
  function ReadAt(pages: seq<Page>, address: nat): Option<nat>
    requires |pages| == PAGES && address < SPACE
  {
    var pointer := pages[address / PAGE].read;
    if pointer.None? then None else Some(pointer.value + address % PAGE)
  }

  function WriteAt(pages: seq<Page>, address: nat): Option<nat>
    requires |pages| == PAGES && address < SPACE
  {
    var pointer := pages[address / PAGE].write;
    if pointer.None? then None else Some(pointer.value + address % PAGE)
  }

  /** Pages have 4,096 bytes, and within one the bytes follow each other. */
  lemma PagesAreLinear(pages: seq<Page>, address: nat)
    requires |pages| == 0x10_0000 && address < 0x1_0000_0000
    ensures var page, offset := pages[address / 4096], address % 4096;
            && (ReadAt(pages, address).Some? <==> page.read.Some?) && (WriteAt(pages, address).Some? <==> page.write.Some?)
            && (page.read.Some? ==> ReadAt(pages, address).value == page.read.value + offset)
            && (page.write.Some? ==> WriteAt(pages, address).value == page.write.value + offset)
  {}

  /** The flat memory the map stands for: a byte, or nothing, at every address. */
  function Read8(pages: seq<Page>, memory: seq<byte>, address: nat): Option<byte>
    requires MapValid(pages, |memory|) && address < SPACE
  {
    if ReadAt(pages, address).None? then None else Some(memory[ReadAt(pages, address).value])
  }

  /** `count` bytes from an address on, most significant first, if all of them lie in one readable page. */
  function ReadWide(pages: seq<Page>, memory: seq<byte>, address: nat, count: nat): Option<seq<byte>>
    requires MapValid(pages, |memory|) && address < SPACE && count <= PAGE
  {
    if address % PAGE + count > PAGE || ReadAt(pages, address).None? then None
    else Some(memory[ReadAt(pages, address).value..ReadAt(pages, address).value + count])
  }

  function WriteWide(pages: seq<Page>, memory: seq<byte>, address: nat, bytes: seq<byte>): Option<seq<byte>>
    requires MapValid(pages, |memory|) && address < SPACE && |bytes| <= PAGE
  {
    if address % PAGE + |bytes| > PAGE || WriteAt(pages, address).None? then None
    else
      var at := WriteAt(pages, address).value;
      Some(memory[..at] + bytes + memory[at + |bytes|..])
  }

  /** The byte `k` places behind an address. */
  function ByteBehind(pages: seq<Page>, memory: seq<byte>, address: nat, k: nat): Option<byte>
    requires MapValid(pages, |memory|)
  {
    if address + k < SPACE then Read8(pages, memory, address + k) else None
  }

  /**
   A wide read succeeds exactly if all its bytes can be read one by one and lie in one page, and
   gives just those bytes.
   */
  lemma WideReadIsByteReads(pages: seq<Page>, memory: seq<byte>, address: nat, count: nat)
    requires MapValid(pages, |memory|) && address < SPACE && 1 <= count <= PAGE
    ensures var wide := ReadWide(pages, memory, address, count);
            && (wide.Some? <==> address % PAGE + count <= PAGE
                                && forall k :: 0 <= k < count ==> ByteBehind(pages, memory, address, k).Some?)
            && (wide.Some? ==> |wide.value| == count
                               && forall k :: 0 <= k < count ==> ByteBehind(pages, memory, address, k) == Some(wide.value[k]))
  {
    if address % PAGE + count <= PAGE {
      forall k | 0 <= k < count
        ensures ByteBehind(pages, memory, address, k) ==
                if ReadAt(pages, address).None? then None else Some(memory[ReadAt(pages, address).value + k])
      {
        SamePage(address, k);
      }
      assert ByteBehind(pages, memory, address, 0) == Read8(pages, memory, address);
    }
  }

  lemma SamePage(address: nat, k: nat)
    requires address % PAGE + k < PAGE
    ensures (address + k) / PAGE == address / PAGE && (address + k) % PAGE == address % PAGE + k
  {}

  /**
   A wide write changes the flat memory at exactly those addresses that read one of the bytes it
   writes, wherever they are mapped, and every such address then reads the byte written there.
   */
  lemma WriteChangesAliases(pages: seq<Page>, memory: seq<byte>, address: nat, bytes: seq<byte>, other: nat)
    requires MapValid(pages, |memory|) && address < SPACE && 1 <= |bytes| <= PAGE && other < SPACE
    requires WriteWide(pages, memory, address, bytes).Some?
    ensures var after := WriteWide(pages, memory, address, bytes).value;
            var at, place := WriteAt(pages, address).value, ReadAt(pages, other);
            && |after| == |memory|
            && Read8(pages, after, other) ==
               (if place.Some? && at <= place.value < at + |bytes| then Some(bytes[place.value - at])
                else Read8(pages, memory, other))
  {}

  /** What is written to readable memory is read back. */
  lemma WriteThenRead(pages: seq<Page>, memory: seq<byte>, address: nat, bytes: seq<byte>)
    requires MapValid(pages, |memory|) && address < SPACE && 1 <= |bytes| <= PAGE
    requires pages[address / PAGE].read == pages[address / PAGE].write
    requires WriteWide(pages, memory, address, bytes).Some?
    ensures var after := WriteWide(pages, memory, address, bytes).value;
            |after| == |memory| && ReadWide(pages, after, address, |bytes|) == Some(bytes)
  {}

  /** What a wide write puts down, a wide read of the same width takes up again. */
  lemma WordsComeBack(pages: seq<Page>, memory: seq<byte>, address: nat, half: word, full: bv32)
    requires MapValid(pages, |memory|) && address < SPACE && pages[address / PAGE].read == pages[address / PAGE].write
    ensures var written := WriteWide(pages, memory, address, [HighByte(half), LowByte(half)]);
            written.Some? ==>
              && |written.value| == |memory|
              && var read := ReadWide(pages, written.value, address, 2);
                 read.Some? && Join(read.value[0], read.value[1]) == half
    ensures var written := WriteWide(pages, memory, address, Split32(full));
            written.Some? ==>
              && |written.value| == |memory|
              && var read := ReadWide(pages, written.value, address, 4);
                 read.Some? && Join32(read.value[0], read.value[1], read.value[2], read.value[3]) == full
  {
    hide Join, Join32, HighByte, LowByte, Split32, WriteWide, ReadWide;
    var halves, quarters := [HighByte(half), LowByte(half)], Split32(full);
    JoinSplit(half);
    JoinSplit32(full);
    if WriteWide(pages, memory, address, halves).Some? { WriteThenRead(pages, memory, address, halves); }
    if WriteWide(pages, memory, address, quarters).Some? { WriteThenRead(pages, memory, address, quarters); }
  }

  // ---------- mappings ----------

  function Mapped(pages: seq<Page>, address: nat, page: Page): seq<Page>
    requires |pages| == PAGES && address < SPACE
  {
    if address % PAGE != 0 || page.read.None? then pages else pages[address / PAGE := page]
  }

  /** An address plus an offset, in 32 bits. */
  function Wrapped(address: nat, offset: nat): (n: nat)
    ensures n < SPACE
  {
    (address + offset) % SPACE
  }

  /** Where in the mirrored bytes an offset falls. */
  function InMirror(offset: nat, bytesLength: nat): (n: nat)
    requires bytesLength > 0
    ensures n < bytesLength
  {
    offset % bytesLength
  }

  /** The pages of a mirrored range up to `offset`; addresses wrap round at the end of the space. */
  function Mirrored(pages: seq<Page>, address: nat, offset: nat, bytes: nat, bytesLength: nat): (r: seq<Page>)
    requires |pages| == PAGES && address < SPACE && bytesLength > 0 && offset % PAGE == 0
    ensures |r| == PAGES
    decreases offset
  {
    if offset == 0 then pages
    else
      var last := offset - PAGE;
      Mapped(Mirrored(pages, address, last, bytes, bytesLength), Wrapped(address, last),
             Page(Some(bytes + InMirror(last, bytesLength)), None))
  }

  /** How far behind `address`, round the space, page `n` starts. */
  function OffsetOf(address: nat, n: nat): (o: nat)
    requires address < SPACE && n < PAGES
    ensures o < SPACE
  {
    if address <= n * PAGE then n * PAGE - address else n * PAGE + SPACE - address
  }

  lemma OffsetOfPage(address: nat, o: nat, n: nat)
    requires address < SPACE && address % PAGE == 0 && o % PAGE == 0 && o < SPACE && n < PAGES
    ensures Wrapped(address, o) / PAGE == n <==> o == OffsetOf(address, n)
  {
    hide Wrapped;
    PageOfWrapped(address, o);
  }

  /** Mirroring maps the pages of the range, each to its bytes, and no others. */
  lemma {:induction false} MirroredAt(pages: seq<Page>, address: nat, offset: nat, bytes: nat, bytesLength: nat, n: nat)
    requires |pages| == PAGES && address < SPACE && bytesLength > 0 && offset % PAGE == 0 && offset <= SPACE
    requires address % PAGE == 0 && n < PAGES
    ensures Mirrored(pages, address, offset, bytes, bytesLength)[n]
         == var o := OffsetOf(address, n);
            if o < offset then Page(Some(bytes + InMirror(o, bytesLength)), None) else pages[n]
    decreases offset
  {
    hide Wrapped, InMirror, OffsetOf;
    if offset > 0 {
      var last := offset - PAGE;
      MirroredAt(pages, address, last, bytes, bytesLength, n);
      PageOfWrapped(address, last);
      OffsetOfPage(address, last, n);
      OffsetIsAligned(address, n);
    }
  }

  lemma OffsetIsAligned(address: nat, n: nat)
    requires address < SPACE && address % PAGE == 0 && n < PAGES
    ensures OffsetOf(address, n) % PAGE == 0
  {}

  lemma PageOfWrapped(address: nat, o: nat)
    requires address < SPACE && address % PAGE == 0 && o % PAGE == 0 && o < SPACE
    ensures Wrapped(address, o) % PAGE == 0
    ensures Wrapped(address, o) == if address + o < SPACE then address + o else address + o - SPACE
  {}

  lemma MirrorOffsetAligned(start: nat, bytesLength: nat)
    requires bytesLength > 0 && bytesLength % PAGE == 0 && start % PAGE == 0
    ensures start % bytesLength % PAGE == 0
  {
    var m, rem, k := start / bytesLength, start % bytesLength, bytesLength / PAGE;
    assert start == bytesLength * m + rem;
    assert bytesLength * m == PAGE * (k * m);
    assert rem == PAGE * (start / PAGE - k * m);
    MultipleOfPage(start / PAGE - k * m);
  }

  lemma OffsetInMirror(o: nat, bytesLength: nat)
    requires bytesLength > 0 && bytesLength % PAGE == 0
    ensures InMirror(o - o % PAGE, bytesLength) + o % PAGE == InMirror(o, bytesLength)
  {
    var start := o - o % PAGE;
    MirrorOffsetAligned(start, bytesLength);
    OffsetParts(o, bytesLength, start / bytesLength, start % bytesLength);
  }

  lemma OffsetParts(o: nat, bytesLength: nat, m: nat, rem: nat)
    requires bytesLength % PAGE == 0 && rem % PAGE == 0 && rem < bytesLength && o - o % PAGE == bytesLength * m + rem
    ensures o % bytesLength == rem + o % PAGE
  {
    AlignedRoom(rem, bytesLength);
    Remainder(o, bytesLength, m, rem + o % PAGE);
  }

  lemma AlignedRoom(rem: nat, length: nat)
    requires rem % PAGE == 0 && length % PAGE == 0 && rem < length
    ensures rem + PAGE <= length
  {}

  lemma MultipleOfPage(x: int)
    ensures PAGE * x % PAGE == 0
  {}

  /** A mirrored range reads the same bytes over and over, through the end of the address space. */
  lemma MirrorRepeats(pages: seq<Page>, memory: seq<byte>, address: nat, length: nat, bytes: nat, bytesLength: nat, o: nat)
    requires |pages| == PAGES && address < SPACE && address % PAGE == 0 && length % PAGE == 0 && o < length < SPACE
    requires bytesLength > 0 && bytesLength % PAGE == 0 && bytes + bytesLength <= |memory|
    requires MapValid(Mirrored(pages, address, length, bytes, bytesLength), |memory|)
    ensures Read8(Mirrored(pages, address, length, bytes, bytesLength), memory, Wrapped(address, o))
         == Some(memory[bytes + InMirror(o, bytesLength)])
    ensures WriteAt(Mirrored(pages, address, length, bytes, bytesLength), Wrapped(address, o)).None?
  {
    hide InMirror, Wrapped, Mirrored, OffsetOf;
    var start := o - o % PAGE;
    MirroredAt(pages, address, length, bytes, bytesLength, Wrapped(address, start) / PAGE);
    OffsetOfPage(address, start, Wrapped(address, start) / PAGE);
    OffsetInMirror(o, bytesLength);
    WrappedOffset(address, o);
  }

  lemma WrappedOffset(address: nat, o: nat)
    requires address < SPACE && address % PAGE == 0 && o < SPACE
    ensures var start := o - o % PAGE;
            Wrapped(address, o) / PAGE == Wrapped(address, start) / PAGE && Wrapped(address, o) % PAGE == o % PAGE
  {
    PageOfWrapped(address, o - o % PAGE);
  }

  lemma {:induction false} MirroredIsValid(pages: seq<Page>, memory: nat, address: nat, offset: nat, bytes: nat, bytesLength: nat)
    requires MapValid(pages, memory) && address < SPACE && offset % PAGE == 0
    requires bytesLength > 0 && bytesLength % PAGE == 0 && bytes + bytesLength <= memory
    ensures MapValid(Mirrored(pages, address, offset, bytes, bytesLength), memory)
    decreases offset
  {
    hide Wrapped, InMirror;
    if offset > 0 {
      MirroredIsValid(pages, memory, address, offset - PAGE, bytes, bytesLength);
      RoomInMirror(offset - PAGE, bytesLength);
    }
  }

  // ---------- runs ----------

  datatype Op =
    | Clear
    | MapPage(address: nat, page: Page)
    | Mirror(address: nat, length: nat, bytes: nat, bytesLength: nat)
    | Write(address: nat, value: seq<byte>)

  predicate Legal(op: Op, memory: nat)
  {
    match op
    case Clear => true
    case MapPage(address, page) => address < SPACE && Fits(page.read, memory) && Fits(page.write, memory)
    case Mirror(address, length, bytes, bytesLength) =>
      address < SPACE && length < SPACE && bytesLength < SPACE && bytes + bytesLength <= memory
    case Write(address, value) => address < SPACE && |value| <= PAGE
  }

  predicate AllLegal(ops: seq<Op>, memory: nat) { forall i :: 0 <= i < |ops| ==> Legal(ops[i], memory) }

  /** The arguments a mirrored mapping accepts. */
  predicate CanMirror(op: Op)
    requires op.Mirror?
  {
    op.address % PAGE == 0 && op.length % PAGE == 0 && op.bytesLength != 0 && op.bytesLength % PAGE == 0
  }

  /** The map and the host memory behind it. */
  datatype Space = Space(pages: seq<Page>, memory: seq<byte>)
  {
    predicate Valid() { MapValid(pages, |memory|) }
  }

  function Apply(s: Space, op: Op): (r: Space)
    requires s.Valid() && Legal(op, |s.memory|)
    ensures r.Valid() && |r.memory| == |s.memory|
  {
    match op
    case Clear => s.(pages := AllUnmapped())
    case MapPage(address, page) => s.(pages := Mapped(s.pages, address, page))
    case Mirror(address, length, bytes, bytesLength) =>
      if CanMirror(op) then
        MirroredIsValid(s.pages, |s.memory|, address, length, bytes, bytesLength);
        s.(pages := Mirrored(s.pages, address, length, bytes, bytesLength))
      else s
    case Write(address, value) =>
      var written := WriteWide(s.pages, s.memory, address, value);
      if written.Some? then s.(memory := written.value) else s
  }

  function AllUnmapped(): (pages: seq<Page>)
    ensures |pages| == PAGES
  {
    seq(PAGES, _ => UNMAPPED)
  }

  /** Any run, from an empty map over some memory. */
  function Run(ops: seq<Op>, memory: seq<byte>): (r: Space)
    requires AllLegal(ops, |memory|)
    ensures r.Valid() && |r.memory| == |memory|
    decreases |ops|
  {
    if ops == [] then Space(AllUnmapped(), memory)
    else
      assert Legal(ops[|ops| - 1], |memory|);
      Apply(Run(ops[..|ops| - 1], memory), ops[|ops| - 1])
  }

  /** What the last operation about page `n` made of it. */
  function LatestPage(ops: seq<Op>, n: nat): Page
    requires n < PAGES && forall i :: 0 <= i < |ops| && ops[i].Mirror? ==> ops[i].address < SPACE
    decreases |ops|
  {
    if ops == [] then UNMAPPED
    else
      var earlier := LatestPage(ops[..|ops| - 1], n);
      match ops[|ops| - 1]
      case Clear => UNMAPPED
      case MapPage(address, page) => if address == n * PAGE && page.read.Some? then page else earlier
      case Mirror(address, length, bytes, bytesLength) =>
        if CanMirror(ops[|ops| - 1]) && OffsetOf(address, n) < length then
          Page(Some(bytes + InMirror(OffsetOf(address, n), bytesLength)), None)
        else earlier
      case Write(_, _) => earlier
  }

  /** The last byte that a write, through whatever page, put at a place of host memory. */
  function LastByte(ops: seq<Op>, memory: seq<byte>, place: nat): byte
    requires AllLegal(ops, |memory|) && place < |memory|
    decreases |ops|
  {
    if ops == [] then memory[place]
    else
      var start, last := ops[..|ops| - 1], ops[|ops| - 1];
      assert Legal(last, |memory|);
      var earlier := LastByte(start, memory, place);
      if !last.Write? || last.address % PAGE + |last.value| > PAGE then earlier
      else
        var pointer := LatestPage(start, last.address / PAGE).write;
        if pointer.Some? && pointer.value + last.address % PAGE <= place < pointer.value + last.address % PAGE + |last.value| then
          last.value[place - (pointer.value + last.address % PAGE)]
        else earlier
  }

  lemma {:induction false} RunFollowsLatest(ops: seq<Op>, memory: seq<byte>, n: nat)
    requires AllLegal(ops, |memory|) && n < PAGES
    ensures forall i :: 0 <= i < |ops| && ops[i].Mirror? ==> ops[i].address < SPACE
    ensures Run(ops, memory).pages[n] == LatestPage(ops, n)
    decreases |ops|
  {
    hide Mirrored, InMirror, OffsetOf, WriteWide;
    forall i | 0 <= i < |ops| && ops[i].Mirror?
      ensures ops[i].address < SPACE
    {
      assert Legal(ops[i], |memory|);
    }
    if ops != [] {
      var last := ops[|ops| - 1];
      RunFollowsLatest(ops[..|ops| - 1], memory, n);
      assert Legal(last, |memory|);
      if last.Mirror? && CanMirror(last) {
        MirroredAt(Run(ops[..|ops| - 1], memory).pages, last.address, last.length, last.bytes, last.bytesLength, n);
      }
    }
  }

  lemma {:induction false} RunKeepsLastByte(ops: seq<Op>, memory: seq<byte>, place: nat)
    requires AllLegal(ops, |memory|) && place < |memory|
    ensures Run(ops, memory).memory[place] == LastByte(ops, memory, place)
    decreases |ops|
  {
    hide Mirrored, Mapped, InMirror, OffsetOf, LatestPage;
    if ops != [] {
      var start, last := ops[..|ops| - 1], ops[|ops| - 1];
      RunKeepsLastByte(start, memory, place);
      assert Legal(last, |memory|);
      if last.Write? { RunFollowsLatest(start, memory, last.address / PAGE); }
    }
  }

  /**
   After any run of mappings, mirrored mappings, clears and writes, a read succeeds exactly if the
   latest operation about its page left it readable, and gives the last byte written to the place
   that this page shows, through whatever page it was written.
   */
  lemma ReadsLastWrite(ops: seq<Op>, memory: seq<byte>, address: nat)
    requires AllLegal(ops, |memory|) && address < SPACE
    ensures forall i :: 0 <= i < |ops| && ops[i].Mirror? ==> ops[i].address < SPACE
    ensures var pointer := LatestPage(ops, address / PAGE).read;
            && (pointer.Some? ==> pointer.value + address % PAGE < |memory|)
            && Read8(Run(ops, memory).pages, Run(ops, memory).memory, address)
               == if pointer.None? then None else Some(LastByte(ops, memory, pointer.value + address % PAGE))
  {
    hide LatestPage, LastByte, Run;
    RunFollowsLatest(ops, memory, address / PAGE);
    var pointer := LatestPage(ops, address / PAGE).read;
    if pointer.Some? { RunKeepsLastByte(ops, memory, pointer.value + address % PAGE); }
  }

  // ---------- the two-level table ----------

  class PhysicalMemoryMap {
    const directories: array<array?<Page>>
    /** The memory of the host that pages point into. */
    const host: array<byte>

    ghost predicate Shaped()
      reads directories
    {
      && directories.Length == ENTRIES
      && (forall i :: 0 <= i < ENTRIES && directories[i] != null ==> directories[i].Length == ENTRIES)
      && (forall i, j :: 0 <= i < j < ENTRIES && directories[i] != null ==> directories[i] != directories[j])
    }

    ghost function Tables(): set<object>
      reads directories
    {
      set i | 0 <= i < directories.Length && directories[i] != null :: directories[i]
    }

    function Entry(n: nat): Page
      requires n < PAGES && Shaped()
      reads directories, Tables()
    {
      var directory := directories[n / ENTRIES];
      if directory == null then UNMAPPED else directory[n % ENTRIES]
    }

    /** The abstract state: the page at every page number. */
    ghost function Pages(): (pages: seq<Page>)
      requires Shaped()
      reads directories, Tables()
      ensures |pages| == PAGES && forall n :: 0 <= n < PAGES ==> pages[n] == Entry(n)
    {
      seq(PAGES, n requires 0 <= n < PAGES && Shaped() reads directories, Tables() => Entry(n))
    }

    ghost predicate Valid()
      reads directories, Tables()
    {
      Shaped() && host !in Tables() && MapValid(Pages(), host.Length)
    }

    constructor (host: array<byte>)
      ensures Valid() && this.host == host && Pages() == AllUnmapped() && fresh(directories) && Tables() == {}
    {
      this.host := host;
      directories := new array?<Page>[ENTRIES](_ => null);
    }

    /** `pageForMapping` and the assignment through it. */
    method SetPage(address: nat, page: Page)
      requires Shaped() && address < SPACE
      modifies directories, Tables()
      ensures Shaped() && fresh(Tables() - old(Tables()))
      ensures Pages() == old(Pages())[address / PAGE := page]
    {
      var n := address / PAGE;
      var directory := directories[n / ENTRIES];
      if directory == null {
        directory := new Page[ENTRIES](_ => UNMAPPED);
        directories[n / ENTRIES] := directory;
      }
      directory[n % ENTRIES] := page;
    }

    /** Forgets every mapping; the tables stay. */
    method Clear()
      requires Valid()
      modifies Tables()
      ensures Valid() && Tables() == old(Tables()) && Pages() == AllUnmapped()
    {
      for i := 0 to ENTRIES
        invariant forall j, k :: 0 <= j < i && directories[j] != null && 0 <= k < ENTRIES ==> directories[j][k] == UNMAPPED
      {
        if directories[i] != null { FillUnmapped(directories[i]); }
      }
      assert forall n :: 0 <= n < PAGES ==> Entry(n) == UNMAPPED;
    }

    method FillUnmapped(directory: array<Page>)
      modifies directory
      ensures forall k :: 0 <= k < directory.Length ==> directory[k] == UNMAPPED
    {
      for k := 0 to directory.Length
        invariant forall j :: 0 <= j < k ==> directory[j] == UNMAPPED
      {
        directory[k] := UNMAPPED;
      }
    }

    method MapReadWritePage(address: nat, bytes: Option<nat>)
      requires Valid() && address < SPACE && Fits(bytes, host.Length)
      modifies directories, Tables()
      ensures Valid() && fresh(Tables() - old(Tables()))
      ensures Pages() == Mapped(old(Pages()), address, Page(bytes, bytes))
    {
      if address % PAGE != 0 || bytes.None? { return; }
      SetPage(address, Page(bytes, bytes));
    }

    method MapReadOnlyPage(address: nat, bytes: Option<nat>)
      requires Valid() && address < SPACE && Fits(bytes, host.Length)
      modifies directories, Tables()
      ensures Valid() && fresh(Tables() - old(Tables()))
      ensures Pages() == Mapped(old(Pages()), address, Page(bytes, None))
    {
      if address % PAGE != 0 || bytes.None? { return; }
      SetPage(address, Page(bytes, None));
    }

    method MapReadOnlyMirrored(address: nat, length: nat, bytes: Option<nat>, bytesLength: nat)
      requires Valid() && address < SPACE && length < SPACE && bytesLength < SPACE
      requires bytes.Some? ==> bytes.value + bytesLength <= host.Length
      modifies directories, Tables()
      ensures Valid()
      ensures Pages() == if address % PAGE != 0 || length % PAGE != 0 || bytes.None? || bytesLength == 0 || bytesLength % PAGE != 0
                         then old(Pages()) else Mirrored(old(Pages()), address, length, bytes.value, bytesLength)
    {
      if address % PAGE != 0 || length % PAGE != 0 || bytes.None? || bytesLength == 0 || bytesLength % PAGE != 0 { return; }
      MirrorPages(address, length, bytes.value, bytesLength);
    }

    /** The loop over the pages of the range. */
    method MirrorPages(address: nat, length: nat, bytes: nat, bytesLength: nat)
      requires Valid() && address < SPACE && length % PAGE == 0 && bytesLength > 0 && bytesLength % PAGE == 0
      requires bytes + bytesLength <= host.Length
      modifies directories, Tables()
      ensures Valid() && fresh(Tables() - old(Tables()))
      ensures Pages() == Mirrored(old(Pages()), address, length, bytes, bytesLength)
    {
      hide Mirrored, Mapped, MapValid, InMirror, Entry, Wrapped;
      ghost var before := Pages();
      MirrorStep(before, address, 0, bytes, bytesLength);
      var offset := 0;
      while offset < length
        invariant offset <= length && offset % PAGE == 0
        invariant Valid() && fresh(Tables() - old(Tables()))
        invariant Pages() == Mirrored(before, address, offset, bytes, bytesLength)
      {
        MirrorStep(before, address, offset, bytes, bytesLength);
        RoomInMirror(offset, bytesLength);
        MapReadOnlyPage(Wrapped(address, offset), Some(bytes + InMirror(offset, bytesLength)));
        offset := offset + PAGE;
      }
    }

    lemma MirrorStep(pages: seq<Page>, address: nat, offset: nat, bytes: nat, bytesLength: nat)
      requires |pages| == PAGES && address < SPACE && bytesLength > 0 && offset % PAGE == 0
      ensures Mirrored(pages, address, offset + PAGE, bytes, bytesLength)
           == Mapped(Mirrored(pages, address, offset, bytes, bytesLength), Wrapped(address, offset),
                     Page(Some(bytes + InMirror(offset, bytesLength)), None))
      ensures Mirrored(pages, address, 0, bytes, bytesLength) == pages
    {
      hide Mapped;
    }

    method TryRead8(address: nat) returns (ok: bool, value: byte)
      requires Valid() && address < SPACE
      ensures Read8(Pages(), host[..], address) == if ok then Some(value) else None
    {
      var page := Entry(address / PAGE);
      if page.read.None? { return false, 0; }
      ok, value := true, host[page.read.value + address % PAGE];
    }

    method TryRead16(address: nat) returns (ok: bool, value: word)
      requires Valid() && address < SPACE
      ensures var bytes := ReadWide(Pages(), host[..], address, 2);
              ok == bytes.Some? && (ok ==> value == Join(bytes.value[0], bytes.value[1]))
    {
      hide Join;
      if address % PAGE > PAGE - 2 { return false, 0; }
      var page := Entry(address / PAGE);
      if page.read.None? { return false, 0; }
      var at := page.read.value + address % PAGE;
      ok, value := true, Join(host[at], host[at + 1]);
    }

    method TryRead32(address: nat) returns (ok: bool, value: bv32)
      requires Valid() && address < SPACE
      ensures var bytes := ReadWide(Pages(), host[..], address, 4);
              ok == bytes.Some? && (ok ==> value == Join32(bytes.value[0], bytes.value[1], bytes.value[2], bytes.value[3]))
    {
      hide Join32;
      if address % PAGE > PAGE - 4 { return false, 0; }
      var page := Entry(address / PAGE);
      if page.read.None? { return false, 0; }
      var at := page.read.value + address % PAGE;
      ok, value := true, Join32(host[at], host[at + 1], host[at + 2], host[at + 3]);
    }

    method TryWrite8(address: nat, value: byte) returns (ok: bool)
      requires Valid() && address < SPACE
      modifies host
      ensures Valid() && Pages() == old(Pages())
      ensures var written := WriteWide(Pages(), old(host[..]), address, [value]);
              ok == written.Some? && host[..] == if ok then written.value else old(host[..])
    {
      var page := Entry(address / PAGE);
      if page.write.None? { return false; }
      host[page.write.value + address % PAGE] := value;
      ok := true;
    }

    method TryWrite16(address: nat, value: word) returns (ok: bool)
      requires Valid() && address < SPACE
      modifies host
      ensures Valid() && Pages() == old(Pages())
      ensures var written := WriteWide(Pages(), old(host[..]), address, [HighByte(value), LowByte(value)]);
              ok == written.Some? && host[..] == if ok then written.value else old(host[..])
    {
      hide HighByte, LowByte;
      if address % PAGE > PAGE - 2 { return false; }
      var page := Entry(address / PAGE);
      if page.write.None? { return false; }
      StoreTwo(page.write.value + address % PAGE, HighByte(value), LowByte(value));
      ok := true;
    }

    method StoreTwo(at: nat, high: byte, low: byte)
      requires at + 2 <= host.Length
      modifies host
      ensures host[..] == old(host[..at]) + [high, low] + old(host[at + 2..])
    {
      host[at] := high;
      host[at + 1] := low;
    }

    method TryWrite32(address: nat, value: bv32) returns (ok: bool)
      requires Valid() && address < SPACE
      modifies host
      ensures Valid() && Pages() == old(Pages())
      ensures var written := WriteWide(Pages(), old(host[..]), address, Split32(value));
              ok == written.Some? && host[..] == if ok then written.value else old(host[..])
    {
      hide Split32;
      if address % PAGE > PAGE - 4 { return false; }
      var page := Entry(address / PAGE);
      if page.write.None? { return false; }
      StoreFour(page.write.value + address % PAGE, Split32(value));
      ok := true;
    }

    method StoreFour(at: nat, bytes: seq<byte>)
      requires |bytes| == 4 && at + 4 <= host.Length
      modifies host
      ensures host[..] == old(host[..at]) + bytes + old(host[at + 4..])
    {
      host[at] := bytes[0];
      host[at + 1] := bytes[1];
      host[at + 2] := bytes[2];
      host[at + 3] := bytes[3];
    }
  }

  /** A page of a mirrored range never runs over the end of the mirrored bytes. */
  lemma RoomInMirror(offset: nat, bytesLength: nat)
    requires offset % PAGE == 0 && bytesLength > 0 && bytesLength % PAGE == 0
    ensures InMirror(offset, bytesLength) + PAGE <= bytesLength
  {
    MirrorOffsetAligned(offset, bytesLength);
    AlignedRoom(offset % bytesLength, bytesLength);
  }
}
