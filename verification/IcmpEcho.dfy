/** Answering pings to the modem's own address: the Internet checksum (RFC 1071) and ICMP echo (RFC 792). */
module IcmpEcho {
  import opened Bytes

  // ---------- the checksum ----------

  function WordAt(s: seq<byte>, i: nat): (n: nat)
    requires i + 1 < |s|
    ensures n < 0x10000
  {
    Number(s[i]) * 256 + Number(s[i + 1])
  }

  /** Big-endian words added up; a last odd byte counts as a high byte. */
  function Sum(s: seq<byte>): nat
    decreases |s|
  {
    if |s| == 0 then 0 else if |s| == 1 then Number(s[0]) * 256 else WordAt(s, 0) + Sum(s[2..])
  }

  /** Carries are added back in until none is left. */
  function Fold(n: nat): (r: nat)
    ensures r < 0x10000
    decreases n
  {
    if n < 0x10000 then n else Fold(n % 0x10000 + n / 0x10000)
  }

  function Checksum(s: seq<byte>): (c: nat)
    ensures c < 0x10000
  {
    0xffff - Fold(Sum(s))
  }

  lemma {:induction false} SumIsBounded(s: seq<byte>)
    ensures Sum(s) <= 0xffff * ((|s| + 1) / 2)
    decreases |s|
  {
    if |s| > 1 { SumIsBounded(s[2..]); }
  }

  /** No data of at most 64 KB overflows the 32-bit sum. */
  method InternetChecksum(data: seq<byte>) returns (checksum: nat)
    requires |data| <= 0x10000
    ensures checksum == Checksum(data)
  {
    hide Number;
    var sum: nat, index: nat := 0, 0;
    assert data[0..] == data;
    while index + 1 < |data|
      invariant index <= |data| && index % 2 == 0
      invariant sum + Sum(data[index..]) == Sum(data)
      invariant sum < 0x1_0000_0000
    {
      SumIsBounded(data);
      assert data[index..][2..] == data[index + 2..];
      sum := sum + WordAt(data, index);
      index := index + 2;
    }
    SumIsBounded(data);
    if |data| % 2 != 0 {
      sum := sum + Number(data[|data| - 1]) * 256;
    }
    assert sum == Sum(data) < 0x1_0000_0000;
    while sum / 0x10000 != 0
      invariant Fold(sum) == Fold(Sum(data)) && sum < 0x1_0000_0000
      decreases sum
    {
      sum := sum % 0x10000 + sum / 0x10000;
    }
    checksum := 0xffff - sum;
  }

  /** Folding keeps the residue modulo 65535, and only nothing folds to nothing. */
  lemma {:induction false} FoldResidue(n: nat)
    ensures Fold(n) % 0xffff == n % 0xffff
    ensures Fold(n) == 0 <==> n == 0
    decreases n
  {
    if n >= 0x10000 {
      var q, r := n / 0x10000, n % 0x10000;
      FoldResidue(r + q);
      assert n == r + q + 0xffff * q;
      AddMultiple(r + q, q);
    }
  }

  lemma {:induction false} AddMultiple(n: nat, q: nat)
    ensures (n + 0xffff * q) % 0xffff == n % 0xffff
    decreases q
  {
    if q > 0 {
      AddMultiple(n, q - 1);
      assert n + 0xffff * q == (n + 0xffff * (q - 1)) + 0xffff;
    }
  }

  lemma ChecksumIsZero(s: seq<byte>)
    ensures Checksum(s) == 0 <==> Sum(s) > 0 && Sum(s) % 0xffff == 0
  {
    FoldResidue(Sum(s));
    var f := Fold(Sum(s));
    assert f % 0xffff == 0 <==> f == 0 || f == 0xffff;
  }

  // ---------- the checksum as a remainder ----------

  /** All the bytes as one number. */
  function BigEndian(s: seq<byte>): nat
  {
    if s == [] then 0 else 256 * BigEndian(s[..|s| - 1]) + Number(s[|s| - 1])
  }

  /** A zero completes the last word. */
  function Padded(s: seq<byte>): seq<byte> { if |s| % 2 == 0 then s else s + [0] }

  lemma {:induction false} SumOfPadded(s: seq<byte>)
    ensures Sum(Padded(s)) == Sum(s)
    decreases |s|
  {
    hide Number;
    if |s| == 1 {
      ZeroNumber();
      assert (s + [0])[2..] == [];
    } else if |s| > 1 {
      SumOfPadded(s[2..]);
      assert Padded(s)[2..] == Padded(s[2..]);
    }
  }

  lemma ZeroNumber()
    ensures Number(0) == 0
  {}

  lemma {:induction false} SumOfLast(s: seq<byte>, x: byte, y: byte)
    requires |s| % 2 == 0
    ensures Sum(s + [x, y]) == Sum(s) + 256 * Number(x) + Number(y)
    decreases |s|
  {
    hide Number;
    if s == [] {
      assert (s + [x, y])[2..] == [];
    } else {
      assert (s + [x, y])[2..] == s[2..] + [x, y];
      SumOfLast(s[2..], x, y);
    }
  }

  /** Words of two bytes: the sum and the number differ by a multiple of 65535. */
  lemma {:induction false} SumIsNumber(s: seq<byte>)
    requires |s| % 2 == 0
    ensures Sum(s) % 0xffff == BigEndian(s) % 0xffff
    ensures Sum(s) == 0 <==> BigEndian(s) == 0
    decreases |s|
  {
    hide Number;
    if s != [] {
      var n := |s| - 2;
      var start, x, y := s[..n], s[n], s[n + 1];
      assert s == start + [x, y];
      assert s[..n + 1][..n] == start;
      SumIsNumber(start);
      SumOfLast(start, x, y);
      var word, number := 256 * Number(x) + Number(y), BigEndian(start);
      assert BigEndian(s) == 256 * BigEndian(s[..n + 1]) + Number(y) == number + word + 0xffff * number;
      AddMultiple(number + word, number);
      SameRemainder(Sum(start), number, word);
    }
  }

  lemma SameRemainder(a: nat, b: nat, c: nat)
    requires a % 0xffff == b % 0xffff
    ensures (a + c) % 0xffff == (b + c) % 0xffff
  {
    var r := a % 0xffff;
    AddMultiple(r + c, a / 0xffff);
    AddMultiple(r + c, b / 0xffff);
    assert a + c == r + c + 0xffff * (a / 0xffff) && b + c == r + c + 0xffff * (b / 0xffff);
  }

  /** The checksum of any data is what its number, completed to whole words, lacks to a multiple of 65535. */
  lemma ChecksumIsRemainder(s: seq<byte>)
    ensures var n := BigEndian(Padded(s));
            Checksum(s) == if n == 0 then 0xffff else if n % 0xffff == 0 then 0 else 0xffff - n % 0xffff
  {
    SumOfPadded(s);
    SumIsNumber(Padded(s));
    FoldResidue(Sum(s));
    hide Sum, Fold, BigEndian, Padded;
    var f := Fold(Sum(s));
    assert f == 0xffff || f % 0xffff == f;
  }

  /** A big-endian word written at `k`. */
  function Put16(s: seq<byte>, k: nat, n: nat): (r: seq<byte>)
    requires k + 1 < |s| && n < 0x10000
    ensures |r| == |s|
  {
    s[k := ByteOf(n / 256)][k + 1 := ByteOf(n % 256)]
  }

  lemma {:induction false} SumOfPut(s: seq<byte>, k: nat, n: nat)
    requires k + 1 < |s| && k % 2 == 0 && n < 0x10000
    ensures Sum(Put16(s, k, n)) == Sum(s) - WordAt(s, k) + n
    decreases |s|
  {
    hide Number, ByteOf;
    var r := Put16(s, k, n);
    if k == 0 {
      assert r[2..] == s[2..];
    } else {
      assert r[2..] == Put16(s[2..], k - 2, n);
      SumOfPut(s[2..], k - 2, n);
    }
  }

  /** Data whose checksum field is zero verifies once its checksum was put there. */
  lemma SealedVerifies(s: seq<byte>, k: nat)
    requires k + 1 < |s| && k % 2 == 0 && WordAt(s, k) == 0
    ensures Checksum(Put16(s, k, Checksum(s))) == 0
  {
    var sum, c := Sum(s), Checksum(s);
    SumOfPut(s, k, c);
    FoldResidue(sum);
    ChecksumIsZero(Put16(s, k, c));
    ComplementAdds(sum, Fold(sum));
  }

  lemma ComplementAdds(sum: nat, folded: nat)
    requires folded <= 0xffff && folded % 0xffff == sum % 0xffff && (folded == 0 <==> sum == 0)
    ensures sum + (0xffff - folded) > 0 && (sum + (0xffff - folded)) % 0xffff == 0
  {
    var q := sum / 0xffff;
    assert sum == 0xffff * q + sum % 0xffff;
    if folded == 0xffff {
      assert sum % 0xffff == 0;
      AddMultiple(0, q);
    } else {
      assert sum + (0xffff - folded) == 0xffff * (q + 1);
      AddMultiple(0, q + 1);
    }
  }

  // ---------- the reply ----------

  /** Packets for other hosts go to the network; those for the modem end here, with or without a reply. */
  datatype Answer = NotLocal | Ignored | Reply(packet: seq<byte>)

  function HeaderLength(packet: seq<byte>): nat
    requires |packet| >= 1
  {
    Number(packet[0]) % 16 * 4
  }

  /** A version 4 packet for `local` whose lengths fit. */
  predicate ForLocal(local: IpAddress, packet: seq<byte>)
    requires |packet| >= 20
  {
    var header := HeaderLength(packet);
    && Number(packet[0]) / 16 == 4 && header >= 20 && |packet| >= header + 8
    && header <= WordAt(packet, 2) <= |packet|
    && packet[16..20] == local
  }

  /** An intact echo request. */
  predicate IsEcho(packet: seq<byte>)
    requires |packet| >= 20 && |packet| >= HeaderLength(packet) + 8 && HeaderLength(packet) <= WordAt(packet, 2) <= |packet|
  {
    var header, total := HeaderLength(packet), WordAt(packet, 2);
    packet[9] == 1 && Checksum(packet[..header]) == 0 && packet[header] == 8 && Checksum(packet[header..total]) == 0
  }

  lemma EchoIsLongEnough(icmp: seq<byte>)
    requires Checksum(icmp) == 0 && (icmp != [] ==> icmp[0] == 8)
    ensures |icmp| >= 3
    ensures |icmp| == 3 ==> icmp == [8, 255, 247]
  {
    hide Number;
    SmallNumbers();
    ChecksumIsZero(icmp);
    SumOfShort(icmp);
    if |icmp| == 3 {
      var x, y := Number(icmp[1]), Number(icmp[2]);
      assert Sum(icmp) == 0xffff;
      assert y == 247 && x == 255;
      SameNumber(icmp[2], 247);
      SameNumber(icmp[1], 255);
    }
  }

  lemma SmallNumbers()
    ensures Number(8) == 8 && Number(247) == 247 && Number(255) == 255
  {}

  lemma SumOfShort(s: seq<byte>)
    ensures |s| == 1 ==> Sum(s) == Number(s[0]) * 256
    ensures |s| == 2 ==> Sum(s) == Number(s[0]) * 256 + Number(s[1])
    ensures |s| == 3 ==> Sum(s) == Number(s[0]) * 256 + Number(s[1]) + Number(s[2]) * 256
  {
    hide Number;
    if |s| == 2 {
      assert s[2..] == [];
    } else if |s| == 3 {
      assert s[2..] == [s[2]];
    }
  }

  /** The header with the addresses swapped, a fresh time to live and a new checksum. */
  function ReplyHeader(header: seq<byte>): (r: seq<byte>)
    requires |header| >= 20
    ensures |r| == |header|
  {
    var swapped := header[..8] + [64, header[9], 0, 0] + header[16..20] + header[12..16] + header[20..];
    Put16(swapped, 10, Checksum(swapped))
  }

  /**
   The ICMP part, turned into a reply. Its buffer has one more byte than the packet, a terminating
   zero, which takes the last byte of the checksum if the part is only three bytes long.
   */
  function ReplyIcmp(icmp: seq<byte>): (r: seq<byte>)
    requires |icmp| >= 3
    ensures |r| == |icmp|
  {
    var cleared := (icmp + [0])[0 := 0][2 := 0][3 := 0];
    Put16(cleared, 2, Checksum(cleared[..|icmp|]))[..|icmp|]
  }

  function LocalAnswer(local: IpAddress, packet: seq<byte>): Answer
    requires |packet| >= 20
  {
    if !ForLocal(local, packet) then NotLocal
    else if !IsEcho(packet) then Ignored
    else
      var header, total := HeaderLength(packet), WordAt(packet, 2);
      EchoIsLongEnough(packet[header..total]);
      Reply(ReplyHeader(packet[..header]) + ReplyIcmp(packet[header..total]))
  }

  method HandleLocalIpPacket(local: IpAddress, ip: seq<byte>) returns (answer: Answer)
    requires |ip| >= 20
    ensures answer == LocalAnswer(local, ip)
  {
    hide Number, ByteOf, Sum, Fold, Checksum;
    var headerLength := HeaderLength(ip);
    if Number(ip[0]) / 16 != 4 || headerLength < 20 || |ip| < headerLength + 8 { return NotLocal; }
    var totalLength := WordAt(ip, 2);
    if totalLength < headerLength || totalLength > |ip| { return NotLocal; }
    if ip[16..20] != local { return NotLocal; }
    if ip[9] != 1 { return Ignored; }
    HeaderIsShort(ip);
    var headerCheck := InternetChecksum(ip[..headerLength]);
    if headerCheck != 0 { return Ignored; }
    var icmpCheck := InternetChecksum(ip[headerLength..totalLength]);
    if ip[headerLength] != 8 || icmpCheck != 0 { return Ignored; }
    EchoIsLongEnough(ip[headerLength..totalLength]);
    var header := AnswerHeader(ip[..headerLength]);
    var icmp := AnswerIcmp(ip[headerLength..totalLength]);
    answer := Reply(header + icmp);
  }

  lemma HeaderIsShort(packet: seq<byte>)
    requires |packet| >= 1
    ensures HeaderLength(packet) <= 60
  {}

  /** The writes to the header, in the order they are made. */
  method AnswerHeader(header: seq<byte>) returns (out: seq<byte>)
    requires 20 <= |header| <= 60
    ensures out == ReplyHeader(header)
  {
    hide Checksum, Put16;
    out := header;
    out := out[..12] + header[16..20] + out[16..];
    out := out[..16] + header[12..16] + out[20..];
    out := out[8 := 64];
    out := out[10 := 0];
    out := out[11 := 0];
    assert out == header[..8] + [64, header[9], 0, 0] + header[16..20] + header[12..16] + header[20..];
    var checksum := InternetChecksum(out);
    out := Put16(out, 10, checksum);
  }

  method AnswerIcmp(icmp: seq<byte>) returns (out: seq<byte>)
    requires 3 <= |icmp| <= 0x10000
    ensures out == ReplyIcmp(icmp)
  {
    hide Checksum, Put16;
    out := icmp + [0];
    out := out[0 := 0];
    out := out[2 := 0];
    out := out[3 := 0];
    var checksum := InternetChecksum(out[..|icmp|]);
    out := Put16(out, 2, checksum)[..|icmp|];
  }

  // ---------- what the reply is ----------

  lemma ReplyHeaderVerifies(header: seq<byte>)
    requires |header| >= 20
    ensures var r := ReplyHeader(header);
            && Checksum(r) == 0
            && r[12..16] == header[16..20] && r[16..20] == header[12..16] && r[8] == 64
            && r[..8] == header[..8] && r[9] == header[9] && r[20..] == header[20..]
  {
    hide Number, ByteOf, Checksum;
    var swapped := header[..8] + [64, header[9], 0, 0] + header[16..20] + header[12..16] + header[20..];
    ZeroWord(swapped, 10);
    SealedVerifies(swapped, 10);
  }

  lemma ZeroWord(s: seq<byte>, k: nat)
    requires k + 1 < |s| && s[k] == 0 && s[k + 1] == 0
    ensures WordAt(s, k) == 0
  {}

  lemma ReplyIcmpVerifies(icmp: seq<byte>)
    requires Checksum(icmp) == 0 && icmp != [] && icmp[0] == 8
    ensures |icmp| >= 3
    ensures var r := ReplyIcmp(icmp);
            && Checksum(r) == 0 && r[0] == 0 && r[1] == icmp[1]
            && (|icmp| >= 4 ==> r[4..] == icmp[4..])
  {
    EchoIsLongEnough(icmp);
    if |icmp| == 3 {
      ShortReply();
    } else {
      hide Number, ByteOf, Checksum;
      var cleared := icmp[0 := 0][2 := 0][3 := 0];
      assert (icmp + [0])[0 := 0][2 := 0][3 := 0][..|icmp|] == cleared;
      ZeroWord(cleared, 2);
      SealedVerifies(cleared, 2);
      assert ReplyIcmp(icmp) == Put16(cleared, 2, Checksum(cleared));
    }
  }

  /** The one request of three bytes that verifies is answered by one that verifies, too. */
  lemma ShortReply()
    ensures ReplyIcmp([8, 255, 247]) == [0, 255, 255] && Checksum([0, 255, 255]) == 0
  {
    var icmp, buffer: seq<byte> := [8, 255, 247], [0, 255, 0, 0];
    assert (icmp + [0])[0 := 0][2 := 0][3 := 0] == buffer;
    assert buffer[..|icmp|] == [0, 255, 0];
    SumOfShort([0, 255, 0]);
    LargestAndSmallest();
    assert Checksum(buffer[..|icmp|]) == 0xff00;
    assert Put16(buffer, 2, 0xff00) == [0, 255, 255, 0];
    assert ReplyIcmp(icmp) == Put16(buffer, 2, 0xff00)[..|icmp|];
    assert [0, 255, 255, 0][..3] == [0, 255, 255];
    SumOfShort([0, 255, 255]);
  }

  lemma LargestAndSmallest()
    ensures ByteOf(255) == 255 && ByteOf(0) == 0
  {
    hide ByteOf;
    SameNumber(ByteOf(255), 255);
    SameNumber(ByteOf(0), 0);
  }

  /**
   A packet stays with the modem exactly if it is a version 4 packet to its address whose lengths fit,
   and of these exactly the intact echo requests are answered.
   */
  lemma WhoIsAnswered(local: IpAddress, packet: seq<byte>)
    requires |packet| >= 20
    ensures var answer, header, total := LocalAnswer(local, packet), 4 * (Number(packet[0]) % 16), 256 * Number(packet[2]) + Number(packet[3]);
            var fits := Number(packet[0]) / 16 == 4 && 20 <= header && header + 8 <= |packet| && header <= total <= |packet|;
            && (answer != NotLocal <==> fits && packet[16..20] == local)
            && (answer.Reply? <==> && answer != NotLocal && packet[9] == 1 && Checksum(packet[..header]) == 0
                                   && packet[header] == 8 && Checksum(packet[header..total]) == 0)
  {
    hide Number, Checksum, ReplyHeader, ReplyIcmp;
  }

  /**
   An intact echo request to the modem, of even or odd length, is answered by a reply of the same
   length with source and destination swapped that keeps the code, identifier, sequence number and
   data, and whose two checksums both verify.
   */
  lemma EchoIsAnswered(local: IpAddress, packet: seq<byte>)
    requires |packet| >= 20
    ensures LocalAnswer(local, packet).Reply? <==> ForLocal(local, packet) && IsEcho(packet)
    ensures LocalAnswer(local, packet).Reply? ==>
              var r, header, total := LocalAnswer(local, packet).packet, HeaderLength(packet), WordAt(packet, 2);
              && |r| == total >= header + 3
              && r[12..16] == local && r[16..20] == packet[12..16] && r[8] == 64 && r[9] == 1
              && r[..8] == packet[..8] && r[20..header] == packet[20..header]
              && Checksum(r[..header]) == 0 && Checksum(r[header..]) == 0
              && r[header] == 0 && r[header + 1] == packet[header + 1]
              && (total >= header + 4 ==> r[header + 4..] == packet[header + 4..total])
  {
    if ForLocal(local, packet) && IsEcho(packet) {
      hide Number, WordAt, Checksum, ReplyHeader, ReplyIcmp;
      var header, total := HeaderLength(packet), WordAt(packet, 2);
      var front, icmp := packet[..header], packet[header..total];
      assert icmp != [] by { if icmp == [] { EchoIsLongEnough(icmp); } }
      assert packet[header] == icmp[0];
      ReplyShape(front, icmp);
      PartsOfPacket(packet, header, total);
    }
  }

  lemma PartsOfPacket(packet: seq<byte>, header: nat, total: nat)
    requires 20 <= header < total <= |packet|
    ensures var front, icmp := packet[..header], packet[header..total];
            && packet[..8] == front[..8] && packet[9] == front[9] && packet[12..16] == front[12..16]
            && packet[16..20] == front[16..20] && packet[20..header] == front[20..]
            && icmp[0] == packet[header]
            && (total >= header + 2 ==> icmp[1] == packet[header + 1])
            && (total >= header + 4 ==> packet[header + 4..total] == icmp[4..])
  {}

  lemma ReplyShape(header: seq<byte>, icmp: seq<byte>)
    requires |header| >= 20 && Checksum(icmp) == 0 && icmp != [] && icmp[0] == 8
    ensures |icmp| >= 3
    ensures var r, h := ReplyHeader(header) + ReplyIcmp(icmp), |header|;
            && |r| == h + |icmp|
            && r[12..16] == header[16..20] && r[16..20] == header[12..16] && r[8] == 64 && r[9] == header[9]
            && r[..8] == header[..8] && r[20..h] == header[20..]
            && Checksum(r[..h]) == 0 && Checksum(r[h..]) == 0
            && r[h] == 0 && r[h + 1] == icmp[1] && (|icmp| >= 4 ==> r[h + 4..] == icmp[4..])
  {
    hide Checksum, ReplyHeader, ReplyIcmp;
    ReplyHeaderVerifies(header);
    ReplyIcmpVerifies(icmp);
    Joined(ReplyHeader(header), ReplyIcmp(icmp));
  }

  lemma Joined(s: seq<byte>, t: seq<byte>)
    requires |s| >= 20 && |t| >= 3
    ensures var r := s + t;
            && r[..|s|] == s && r[|s|..] == t && r[|s|] == t[0] && r[|s| + 1] == t[1]
            && r[..8] == s[..8] && r[8] == s[8] && r[9] == s[9] && r[12..16] == s[12..16] && r[16..20] == s[16..20]
            && r[20..|s|] == s[20..] && (|t| >= 4 ==> r[|s| + 4..] == t[4..])
  {}
}
