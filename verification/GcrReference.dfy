/**
 The group code once more, as arithmetic: what the table is, what the three checksums are, and what
 every nibble of an encoded payload says. Nothing here shares a definition with the codec but the
 code table it reads the nibbles with.
 */
module GcrReference {
  import opened Bytes
  import opened GcrCodec

  // ---------- the table ----------

  /** The bit patterns a drive can write: bit 7 set, two ones together below it, no two pairs of zeros, and not reserved. */
  predicate Writable(n: byte)
  {
    var zeros := !n & (!n >> 1) & 0x7f;
    && n & 0x80 != 0
    && n & (n >> 1) & 0x3f != 0
    && zeros & (zeros - 1) == 0
    && n != 0xaa && n != 0xd5
  }

  lemma Entries8()
    ensures GcrNibble(0) == 0x96 && GcrNibble(1) == 0x97 && GcrNibble(2) == 0x9a && GcrNibble(3) == 0x9b
         && GcrNibble(4) == 0x9d && GcrNibble(5) == 0x9e && GcrNibble(6) == 0x9f && GcrNibble(7) == 0xa6
  {}

  lemma Entries16()
    ensures GcrNibble(8) == 0xa7 && GcrNibble(9) == 0xab && GcrNibble(10) == 0xac && GcrNibble(11) == 0xad
         && GcrNibble(12) == 0xae && GcrNibble(13) == 0xaf && GcrNibble(14) == 0xb2 && GcrNibble(15) == 0xb3
  {}

  lemma Bytes16()
    ensures Writable(0x96) && Writable(0x97) && Writable(0x9a) && Writable(0x9b)
         && Writable(0x9d) && Writable(0x9e) && Writable(0x9f) && Writable(0xa6)
         && Writable(0xa7) && Writable(0xab) && Writable(0xac) && Writable(0xad)
         && Writable(0xae) && Writable(0xaf) && Writable(0xb2) && Writable(0xb3)
  {}

  lemma PatternsBelow16(n: byte)
    requires Writable(n) && n < 0xb4
    ensures n == 0x96 || n == 0x97 || n == 0x9a || n == 0x9b || n == 0x9d || n == 0x9e || n == 0x9f || n == 0xa6
         || n == 0xa7 || n == 0xab || n == 0xac || n == 0xad || n == 0xae || n == 0xaf || n == 0xb2 || n == 0xb3
  {}

  lemma Entries24()
    ensures GcrNibble(16) == 0xb4 && GcrNibble(17) == 0xb5 && GcrNibble(18) == 0xb6 && GcrNibble(19) == 0xb7
         && GcrNibble(20) == 0xb9 && GcrNibble(21) == 0xba && GcrNibble(22) == 0xbb && GcrNibble(23) == 0xbc
  {}

  lemma Entries32()
    ensures GcrNibble(24) == 0xbd && GcrNibble(25) == 0xbe && GcrNibble(26) == 0xbf && GcrNibble(27) == 0xcb
         && GcrNibble(28) == 0xcd && GcrNibble(29) == 0xce && GcrNibble(30) == 0xcf && GcrNibble(31) == 0xd3
  {}

  lemma Bytes32()
    ensures Writable(0xb4) && Writable(0xb5) && Writable(0xb6) && Writable(0xb7)
         && Writable(0xb9) && Writable(0xba) && Writable(0xbb) && Writable(0xbc)
         && Writable(0xbd) && Writable(0xbe) && Writable(0xbf) && Writable(0xcb)
         && Writable(0xcd) && Writable(0xce) && Writable(0xcf) && Writable(0xd3)
  {}

  lemma PatternsBelow32(n: byte)
    requires Writable(n) && 0xb4 <= n < 0xd6
    ensures n == 0xb4 || n == 0xb5 || n == 0xb6 || n == 0xb7 || n == 0xb9 || n == 0xba || n == 0xbb || n == 0xbc
         || n == 0xbd || n == 0xbe || n == 0xbf || n == 0xcb || n == 0xcd || n == 0xce || n == 0xcf || n == 0xd3
  {}

  lemma Entries40()
    ensures GcrNibble(32) == 0xd6 && GcrNibble(33) == 0xd7 && GcrNibble(34) == 0xd9 && GcrNibble(35) == 0xda
         && GcrNibble(36) == 0xdb && GcrNibble(37) == 0xdc && GcrNibble(38) == 0xdd && GcrNibble(39) == 0xde
  {}

  lemma Entries44()
    ensures GcrNibble(40) == 0xdf && GcrNibble(41) == 0xe5 && GcrNibble(42) == 0xe6 && GcrNibble(43) == 0xe7
  {}

  lemma Entries48()
    ensures GcrNibble(44) == 0xe9 && GcrNibble(45) == 0xea && GcrNibble(46) == 0xeb && GcrNibble(47) == 0xec
  {}

  lemma Bytes48()
    ensures Writable(0xd6) && Writable(0xd7) && Writable(0xd9) && Writable(0xda)
         && Writable(0xdb) && Writable(0xdc) && Writable(0xdd) && Writable(0xde)
         && Writable(0xdf) && Writable(0xe5) && Writable(0xe6) && Writable(0xe7)
         && Writable(0xe9) && Writable(0xea) && Writable(0xeb) && Writable(0xec)
  {}

  lemma PatternsBelow48(n: byte)
    requires Writable(n) && 0xd6 <= n < 0xed
    ensures n == 0xd6 || n == 0xd7 || n == 0xd9 || n == 0xda || n == 0xdb || n == 0xdc || n == 0xdd || n == 0xde
         || n == 0xdf || n == 0xe5 || n == 0xe6 || n == 0xe7 || n == 0xe9 || n == 0xea || n == 0xeb || n == 0xec
  {}

  lemma Entries52()
    ensures GcrNibble(48) == 0xed && GcrNibble(49) == 0xee && GcrNibble(50) == 0xef && GcrNibble(51) == 0xf2
  {}

  lemma Entries56()
    ensures GcrNibble(52) == 0xf3 && GcrNibble(53) == 0xf4 && GcrNibble(54) == 0xf5 && GcrNibble(55) == 0xf6
  {}

  lemma Entries60()
    ensures GcrNibble(56) == 0xf7 && GcrNibble(57) == 0xf9 && GcrNibble(58) == 0xfa && GcrNibble(59) == 0xfb
  {}

  lemma Entries64()
    ensures GcrNibble(60) == 0xfc && GcrNibble(61) == 0xfd && GcrNibble(62) == 0xfe && GcrNibble(63) == 0xff
  {}

  lemma Bytes64()
    ensures Writable(0xed) && Writable(0xee) && Writable(0xef) && Writable(0xf2)
         && Writable(0xf3) && Writable(0xf4) && Writable(0xf5) && Writable(0xf6)
         && Writable(0xf7) && Writable(0xf9) && Writable(0xfa) && Writable(0xfb)
         && Writable(0xfc) && Writable(0xfd) && Writable(0xfe) && Writable(0xff)
  {}

  lemma PatternsBelow64(n: byte)
    requires Writable(n) && 0xed <= n
    ensures n == 0xed || n == 0xee || n == 0xef || n == 0xf2 || n == 0xf3 || n == 0xf4 || n == 0xf5 || n == 0xf6
         || n == 0xf7 || n == 0xf9 || n == 0xfa || n == 0xfb || n == 0xfc || n == 0xfd || n == 0xfe || n == 0xff
  {}

  /** The table consists of exactly the writable patterns; being ascending, it is fixed entry by entry. */
  lemma TableIsWritable(n: byte)
    ensures (exists v: byte :: v < 64 && GcrNibble(v) == n) <==> Writable(n)
    ensures forall u: byte, v: byte :: u < v < 64 ==> GcrNibble(u) < GcrNibble(v)
  {
    hide GcrNibble, Writable;
    forall u: byte, v: byte | u < v < 64
      ensures GcrNibble(u) < GcrNibble(v)
    {
      NibblesAscend(u, v);
    }
    if Writable(n) { var v := PatternIsEntry(n); }
    if v: byte :| v < 64 && GcrNibble(v) == n {
      EntryIsWritable(v);
    }
  }

  lemma PatternIsEntry(n: byte) returns (v: byte)
    requires Writable(n)
    ensures v < 64 && GcrNibble(v) == n
  {
    hide GcrNibble, Writable;
    if n < 0xb4 {
      Entries8();
      Entries16();
      PatternsBelow16(n);
      v :| v < 16 && GcrNibble(v) == n;
    } else if n < 0xd6 {
      Entries24();
      Entries32();
      PatternsBelow32(n);
      v :| v < 32 && GcrNibble(v) == n;
    } else if n < 0xed {
      Entries40();
      Entries44();
      Entries48();
      PatternsBelow48(n);
      v :| v < 48 && GcrNibble(v) == n;
    } else {
      Entries52();
      Entries56();
      Entries60();
      Entries64();
      PatternsBelow64(n);
      v :| v < 64 && GcrNibble(v) == n;
    }
  }

  lemma EntryIsWritable(v: byte)
    requires v < 64
    ensures Writable(GcrNibble(v))
  {
    hide GcrNibble, Writable;
    Entries8();
    Entries16();
    Entries24();
    Entries32();
    Entries40();
    Entries44();
    Entries48();
    Entries52();
    Entries56();
    Entries60();
    Entries64();
    Bytes16();
    Bytes32();
    Bytes48();
    Bytes64();
    EntryNumber(v);
  }

  lemma EntryNumber(v: byte)
    requires v < 64
    ensures v == 0 || v == 1 || v == 2 || v == 3 || v == 4 || v == 5 || v == 6 || v == 7 || v == 8 || v == 9
         || v == 10 || v == 11 || v == 12 || v == 13 || v == 14 || v == 15 || v == 16 || v == 17 || v == 18 || v == 19
         || v == 20 || v == 21 || v == 22 || v == 23 || v == 24 || v == 25 || v == 26 || v == 27 || v == 28 || v == 29
         || v == 30 || v == 31 || v == 32 || v == 33 || v == 34 || v == 35 || v == 36 || v == 37 || v == 38 || v == 39
         || v == 40 || v == 41 || v == 42 || v == 43 || v == 44 || v == 45 || v == 46 || v == 47 || v == 48 || v == 49
         || v == 50 || v == 51 || v == 52 || v == 53 || v == 54 || v == 55 || v == 56 || v == 57 || v == 58 || v == 59
         || v == 60 || v == 61 || v == 62 || v == 63
  {}

  // ---------- one step ----------

  /** Rotating a byte left, as a number. */
  function Turned(c: nat): (r: nat)
    requires c < 256
    ensures r < 256
  {
    if c < 128 then 2 * c else 2 * c - 255
  }

  lemma TurnedIs(v: byte)
    ensures Number(Rol1(v)) == Turned(Number(v))
  {}

  lemma LowBitIs(v: byte)
    ensures LowBit(v) as nat == Number(v) % 2 && LowBit(v) <= 1
  {}

  lemma Increment(sum: word)
    requires sum < 0x200
    ensures (sum + 1) as nat == sum as nat + 1
  {}

  lemma SumNext(x: byte, y: byte, carry: word)
    requires y > 0 && carry <= 1
    ensures Sum(x, y, carry) == Sum(x, y - 1, carry) + 1 && Sum(x, y - 1, carry) < 0x200
    ensures Number(y) == Number(y - 1) + 1
  {}

  lemma SumStart(x: byte, carry: word)
    requires carry <= 1
    ensures Sum(x, 0, carry) as nat == Number(x) + carry as nat
  {
    assert x as word as nat == Number(x);
    if carry == 0 {
      assert Sum(x, 0, carry) == x as word;
    } else {
      Increment(x as word);
      assert Sum(x, 0, carry) == x as word + 1;
    }
  }

  lemma {:induction false} SumIs(x: byte, y: byte, carry: word)
    requires carry <= 1
    ensures Sum(x, y, carry) as nat == Number(x) + Number(y) + carry as nat
    decreases y
  {
    hide Sum, Number;
    if y == 0 {
      SumStart(x, carry);
      ZeroIs();
    } else {
      SumNext(x, y, carry);
      SumIs(x, y - 1, carry);
      Increment(Sum(x, y - 1, carry));
    }
  }

  lemma ZeroIs()
    ensures Number(0) == 0
  {}

  lemma SumIsSmall(x: byte, y: byte, carry: word)
    requires carry <= 1
    ensures Sum(x, y, carry) < 0x200
  {}

  lemma TruncateIs(sum: word)
    requires sum < 0x200
    ensures Number(Truncate(sum)) == sum as nat % 256 && Carry(sum) as nat == sum as nat / 256 && Carry(sum) <= 1
  {}

  lemma AddIs(x: byte, y: byte, carry: word)
    requires carry <= 1
    ensures var total := Number(x) + Number(y) + carry as nat;
            Number(Truncate(Sum(x, y, carry))) == total % 256 && Carry(Sum(x, y, carry)) as nat == total / 256
            && Carry(Sum(x, y, carry)) <= 1
  {
    hide Sum, Number, Truncate, Carry;
    SumIs(x, y, carry);
    SumIsSmall(x, y, carry);
    TruncateIs(Sum(x, y, carry));
  }

  /** Three bytes as one number, least significant first. */
  function Three(a: byte, b: byte, c: byte): (n: nat)
    ensures n < 0x100_0000
  {
    Number(a) + 256 * Number(b) + 65536 * Number(c)
  }

  function Total(k: Checksums): nat { Three(k.a, k.b, k.c) }

  /** The checksums after a group of three: the third is rotated, then one addition runs through all of them. */
  function NextSum(sum: nat, group: nat): (r: nat)
    requires sum < 0x100_0000
    ensures r < 0x100_0000
  {
    var turned := Turned(sum / 65536);
    (sum % 65536 + 65536 * turned + group + turned % 2) % 0x100_0000
  }

  /** The last group has two bytes, which reach the first two checksums only. */
  function LastSum(sum: nat, group: nat): (r: nat)
    requires sum < 0x100_0000
    ensures r < 0x100_0000
  {
    var turned := Turned(sum / 65536);
    (sum % 65536 + group + turned % 2) % 65536 + 65536 * turned
  }

  lemma Digits(a: nat, b: nat, c: nat)
    requires a < 256 && b < 256 && c < 256
    ensures var n := a + 256 * b + 65536 * c;
            n % 256 == a && n / 256 % 256 == b && n / 65536 == c && n % 65536 == a + 256 * b
  {
    assert (a + 256 * b + 65536 * c) / 256 == b + 256 * c;
  }

  lemma BytesOf(k: Checksums)
    ensures Total(k) % 256 == Number(k.a) && Total(k) / 256 % 256 == Number(k.b) && Total(k) / 65536 == Number(k.c)
    ensures Total(k) % 65536 == Number(k.a) + 256 * Number(k.b)
  {
    hide Number;
    Digits(Number(k.a), Number(k.b), Number(k.c));
  }

  /** Adding byte by byte with carries is adding the numbers. */
  lemma CarriesAdd(a: nat, b: nat, c: nat, pA: nat, pB: nat, pC: nat, low: nat)
    ensures var tA := a + pA + low;
            var tB := b + pB + tA / 256;
            var tC := c + pC + tB / 256;
            tA % 256 + 256 * (tB % 256) + 65536 * (tC % 256)
            == (a + 256 * b + 65536 * c + (pA + 256 * pB + 65536 * pC) + low) % 0x100_0000
  {
    var tA := a + pA + low;
    var tB := b + pB + tA / 256;
    var tC := c + pC + tB / 256;
    Remainder(a + 256 * b + 65536 * c + (pA + 256 * pB + 65536 * pC) + low, 0x100_0000, tC / 256,
              tA % 256 + 256 * (tB % 256) + 65536 * (tC % 256));
  }

  lemma TwoCarriesAdd(a: nat, b: nat, pA: nat, pB: nat, low: nat)
    ensures var tA := a + pA + low;
            var tB := b + pB + tA / 256;
            tA % 256 + 256 * (tB % 256) == (a + 256 * b + (pA + 256 * pB) + low) % 65536
  {
    var tA := a + pA + low;
    var tB := b + pB + tA / 256;
    Remainder(a + 256 * b + (pA + 256 * pB) + low, 65536, tB / 256, tA % 256 + 256 * (tB % 256));
  }

  lemma MaskIs(v: byte, m: byte)
    ensures Mask(v, m) == v ^ m
  {}

  /** The same on the sums of numbers. */
  lemma NextSumIs(a: nat, b: nat, c: nat, pA: nat, pB: nat, pC: nat)
    requires a < 256 && b < 256 && c < 256
    ensures var tA := a + pA + Turned(c) % 2;
            var tB := b + pB + tA / 256;
            var tC := Turned(c) + pC + tB / 256;
            NextSum(a + 256 * b + 65536 * c, pA + 256 * pB + 65536 * pC) == tA % 256 + 256 * (tB % 256) + 65536 * (tC % 256)
  {
    hide Turned;
    Digits(a, b, c);
    CarriesAdd(a, b, Turned(c), pA, pB, pC, Turned(c) % 2);
  }

  lemma LastSumIs(a: nat, b: nat, c: nat, pA: nat, pB: nat)
    requires a < 256 && b < 256 && c < 256
    ensures var tA := a + pA + Turned(c) % 2;
            var tB := b + pB + tA / 256;
            LastSum(a + 256 * b + 65536 * c, pA + 256 * pB) == tA % 256 + 256 * (tB % 256) + 65536 * Turned(c)
  {
    hide Turned;
    Digits(a, b, c);
    TwoCarriesAdd(a, b, pA, pB, Turned(c) % 2);
  }

  lemma RotatedIs(v: byte)
    ensures Rol1(v) == ByteOf(Turned(Number(v))) && Number(Rol1(v)) == Turned(Number(v))
    ensures LowBit(Rol1(v)) as nat == Turned(Number(v)) % 2 && LowBit(Rol1(v)) <= 1
  {
    hide Rol1, Number, Turned, ByteOf, LowBit;
    TurnedIs(v);
    LowBitIs(Rol1(v));
    SameNumber(Rol1(v), ByteOf(Turned(Number(v))));
  }

  lemma GroupMasks(k: Checksums, pA: byte, pB: byte, pC: byte, last: bool)
    ensures var g := EncodeGroup(k, pA, pB, pC, last);
            g.a == pA ^ ByteOf(Turned(Number(k.c))) && g.b == pB ^ g.checks.a && g.c == pC ^ g.checks.b
  {
    hide Rol1, LowBit, Sum, Truncate, Carry, Number, Turned, ByteOf, Mask;
    var g := EncodeGroup(k, pA, pB, pC, last);
    RotatedIs(k.c);
    MaskIs(pA, Rol1(k.c));
    MaskIs(pB, g.checks.a);
    MaskIs(pC, g.checks.b);
  }

  /** The two additions every group makes, as numbers. */
  lemma TwoAdditions(k: Checksums, pA: byte, pB: byte)
    ensures var sumA := Sum(k.a, pA, LowBit(Rol1(k.c)));
            var sumB := Sum(k.b, pB, Carry(sumA));
            var tA := Number(k.a) + Number(pA) + Turned(Number(k.c)) % 2;
            var tB := Number(k.b) + Number(pB) + tA / 256;
            && Number(Truncate(sumA)) == tA % 256 && Number(Truncate(sumB)) == tB % 256
            && Carry(sumB) as nat == tB / 256 && Carry(sumB) <= 1
  {
    hide Rol1, LowBit, Sum, Truncate, Carry, Number, Turned;
    RotatedIs(k.c);
    AddIs(k.a, pA, LowBit(Rol1(k.c)));
    AddIs(k.b, pB, Carry(Sum(k.a, pA, LowBit(Rol1(k.c)))));
  }

  lemma ThreeAdditions(k: Checksums, pA: byte, pB: byte, pC: byte)
    ensures var sumB := Sum(k.b, pB, Carry(Sum(k.a, pA, LowBit(Rol1(k.c)))));
            var tA := Number(k.a) + Number(pA) + Turned(Number(k.c)) % 2;
            var tB := Number(k.b) + Number(pB) + tA / 256;
            Number(Truncate(Sum(Rol1(k.c), pC, Carry(sumB)))) == (Turned(Number(k.c)) + Number(pC) + tB / 256) % 256
  {
    hide Rol1, LowBit, Sum, Truncate, Carry, Number, Turned;
    TwoAdditions(k, pA, pB);
    RotatedIs(k.c);
    AddIs(Rol1(k.c), pC, Carry(Sum(k.b, pB, Carry(Sum(k.a, pA, LowBit(Rol1(k.c)))))));
  }

  lemma FullGroupChecks(k: Checksums, pA: byte, pB: byte, pC: byte)
    ensures var sumA := Sum(k.a, pA, LowBit(Rol1(k.c)));
            var sumB := Sum(k.b, pB, Carry(sumA));
            EncodeGroup(k, pA, pB, pC, false).checks
            == Checksums(Truncate(sumA), Truncate(sumB), Truncate(Sum(Rol1(k.c), pC, Carry(sumB))))
  {
    hide Rol1, LowBit, Sum, Truncate, Carry, Mask;
  }

  lemma TotalOf(x: byte, y: byte, z: byte)
    ensures Total(Checksums(x, y, z)) == Number(x) + 256 * Number(y) + 65536 * Number(z)
    ensures Three(x, y, z) == Number(x) + 256 * Number(y) + 65536 * Number(z)
  {}

  lemma FullChecks(k: Checksums, pA: byte, pB: byte, pC: byte)
    ensures Total(EncodeGroup(k, pA, pB, pC, false).checks) == NextSum(Total(k), Three(pA, pB, pC))
  {
    hide EncodeGroup, Rol1, LowBit, Sum, Truncate, Carry, Number, Turned, NextSum, Total, Three;
    FullGroupChecks(k, pA, pB, pC);
    var g := EncodeGroup(k, pA, pB, pC, false);
    TotalOf(g.checks.a, g.checks.b, g.checks.c);
    TotalOf(k.a, k.b, k.c);
    TotalOf(pA, pB, pC);
    TwoAdditions(k, pA, pB);
    ThreeAdditions(k, pA, pB, pC);
    NextSumIs(Number(k.a), Number(k.b), Number(k.c), Number(pA), Number(pB), Number(pC));
  }

  lemma LastGroupChecks(k: Checksums, pA: byte, pB: byte)
    ensures var sumA := Sum(k.a, pA, LowBit(Rol1(k.c)));
            EncodeGroup(k, pA, pB, 0, true).checks
            == Checksums(Truncate(sumA), Truncate(Sum(k.b, pB, Carry(sumA))), Rol1(k.c))
  {
    hide Rol1, LowBit, Sum, Truncate, Carry, Mask;
  }

  lemma LastChecksum(k: Checksums, pA: byte, pB: byte)
    ensures Total(EncodeGroup(k, pA, pB, 0, true).checks) == LastSum(Total(k), Number(pA) + 256 * Number(pB))
  {
    hide EncodeGroup, Rol1, LowBit, Sum, Truncate, Carry, Number, Turned, LastSum;
    LastGroupChecks(k, pA, pB);
    TwoAdditions(k, pA, pB);
    RotatedIs(k.c);
    LastSumIs(Number(k.a), Number(k.b), Number(k.c), Number(pA), Number(pB));
  }

  /** A full group: the new checksums, and what each byte is masked with. */
  lemma GroupIsArithmetic(k: Checksums, pA: byte, pB: byte, pC: byte)
    ensures var g := EncodeGroup(k, pA, pB, pC, false);
            && Total(g.checks) == NextSum(Total(k), Three(pA, pB, pC))
            && g.a == pA ^ ByteOf(Turned(Number(k.c))) && g.b == pB ^ g.checks.a && g.c == pC ^ g.checks.b
  {
    hide EncodeGroup, Total, NextSum, Three, Turned, Number, ByteOf;
    FullChecks(k, pA, pB, pC);
    GroupMasks(k, pA, pB, pC, false);
  }

  /** The last group. */
  lemma LastGroupIsArithmetic(k: Checksums, pA: byte, pB: byte)
    ensures var g := EncodeGroup(k, pA, pB, 0, true);
            && Total(g.checks) == LastSum(Total(k), Number(pA) + 256 * Number(pB))
            && g.a == pA ^ ByteOf(Turned(Number(k.c))) && g.b == pB ^ g.checks.a && g.c == g.checks.b
  {
    hide EncodeGroup, Total, LastSum, Turned, Number, ByteOf;
    LastChecksum(k, pA, pB);
    GroupMasks(k, pA, pB, 0, true);
    ZeroMasked(EncodeGroup(k, pA, pB, 0, true).checks.b);
  }

  lemma ZeroMasked(m: byte)
    ensures 0 ^ m == m
  {}

  // ---------- a whole payload ----------

  function First(sum: nat): byte { ByteOf(sum % 256) }

  function Second(sum: nat): byte { ByteOf(sum / 256 % 256) }

  function Third(sum: nat): byte
    requires sum < 0x100_0000
  {
    ByteOf(sum / 65536)
  }

  /** What the first byte of a group is masked with: the third checksum, rotated. */
  function Rotated(sum: nat): byte
    requires sum < 0x100_0000
  {
    ByteOf(Turned(sum / 65536))
  }

  /** The checksums, as one number, after that many groups of the payload. */
  function SumAfter(payload: seq<byte>, groups: nat): (r: nat)
    requires |payload| == 524 && groups <= 175
    ensures r < 0x100_0000
    decreases groups
  {
    if groups == 0 then 0
    else if groups < 175 then
      NextSum(SumAfter(payload, groups - 1), Three(payload[3 * groups - 3], payload[3 * groups - 2], payload[3 * groups - 1]))
    else LastSum(SumAfter(payload, 174), Number(payload[522]) + 256 * Number(payload[523]))
  }

  /** The codec's own checksums after that many groups. */
  function ChecksAfter(payload: seq<byte>, groups: nat): Checksums
    requires |payload| == PAYLOAD_BYTES && groups <= GROUPS
    decreases groups
  {
    if groups == 0 then CLEAR_CHECKSUMS
    else
      var i := groups - 1;
      EncodeGroup(ChecksAfter(payload, i), payload[3 * i], payload[3 * i + 1],
                  if i == GROUPS - 1 then 0 else payload[3 * i + 2], i == GROUPS - 1).checks
  }

  lemma {:induction false} ChecksAreSums(payload: seq<byte>, groups: nat)
    requires |payload| == 524 && groups <= 175
    ensures Total(ChecksAfter(payload, groups)) == SumAfter(payload, groups)
    decreases groups
  {
    hide EncodeGroup, NextSum, LastSum, Number, Three;
    if groups == 0 {
      ClearIsZero();
    } else {
      var k := ChecksAfter(payload, groups - 1);
      ChecksAreSums(payload, groups - 1);
      if groups < 175 {
        GroupIsArithmetic(k, payload[3 * groups - 3], payload[3 * groups - 2], payload[3 * groups - 1]);
      } else {
        LastGroupIsArithmetic(k, payload[522], payload[523]);
      }
    }
  }

  lemma ClearIsZero()
    ensures Total(CLEAR_CHECKSUMS) == 0
  {}

  lemma {:induction false} EncodingFrom(payload: seq<byte>, i: nat)
    requires |payload| == PAYLOAD_BYTES && i <= GROUPS
    ensures EncodePayload(payload)[ENCODED_BYTES - NibblesFrom(i)..] == EncodeFrom(payload, i, ChecksAfter(payload, i))
    decreases i
  {
    hide EncodeGroup, GroupNibbles, EncodePayload;
    if i > 0 {
      EncodingFrom(payload, i - 1);
      var before := EncodeFrom(payload, i - 1, ChecksAfter(payload, i - 1));
      var width := if i == GROUPS then 3 else 4;
      assert before[width..] == EncodeFrom(payload, i, ChecksAfter(payload, i));
      RestOfRest(EncodePayload(payload), ENCODED_BYTES - NibblesFrom(i - 1), width);
    } else {
      EncodingStarts(payload);
    }
  }

  lemma RestOfRest(s: seq<byte>, i: nat, n: nat)
    requires i + n <= |s|
    ensures s[i..][n..] == s[i + n..]
  {}

  lemma EncodingStarts(payload: seq<byte>)
    requires |payload| == PAYLOAD_BYTES
    ensures EncodePayload(payload)[0..] == EncodeFrom(payload, 0, CLEAR_CHECKSUMS)
  {
    hide EncodeFrom;
  }

  /** The six bits `n` stands for in the table. */
  predicate Says(n: byte, six: nat) { six < 64 && DecodeGcr(n) == Some(ByteOf(six)) }

  /** Three bytes as nibbles: the top bits together, then the low six bits of each. */
  predicate SayBytes(s: seq<byte>, a: byte, b: byte, c: byte)
    requires |s| >= 3
  {
    && Says(s[0], 16 * (Number(a) / 64) + 4 * (Number(b) / 64) + Number(c) / 64)
    && Says(s[1], Number(a) % 64) && Says(s[2], Number(b) % 64) && (|s| == 4 ==> Says(s[3], Number(c) % 64))
  }

  lemma LowSix(v: byte)
    ensures Number(v & 0x3f) == Number(v) % 64
  {}

  lemma TopTwo(a: byte)
    ensures Number(a >> 6) == Number(a) / 64 && a >> 6 < 4
    ensures (a >> 2) & 0x30 == (a >> 6) << 4 && (a >> 4) & 0x0c == (a >> 6) << 2 && (a >> 6) & 0x03 == a >> 6
  {}

  lemma SixOf(x: byte, y: byte, z: byte)
    requires x < 4 && y < 4 && z < 4
    ensures Number((x << 4) | (y << 2) | z) == 16 * Number(x) + 4 * Number(y) + Number(z)
  {
    if x == 0 {} else if x == 1 {} else if x == 2 {} else {}
  }

  lemma TopBits(a: byte, b: byte, c: byte)
    ensures Number(Pack(a, b, c)) == 16 * (Number(a) / 64) + 4 * (Number(b) / 64) + Number(c) / 64 < 64
  {
    hide Number;
    TopTwo(a);
    TopTwo(b);
    TopTwo(c);
    SixOf(a >> 6, b >> 6, c >> 6);
  }

  lemma NibbleSays(v: byte)
    ensures Says(Nibble(v), Number(v) % 64)
  {
    hide DecodeGcr, Nibble, ByteOf, Number;
    NibbleDecodes(v);
    LowSix(v);
    SameNumber(v & 0x3f, ByteOf(Number(v) % 64));
  }

  lemma GroupSays(a: byte, b: byte, c: byte, last: bool)
    ensures SayBytes(GroupNibbles(a, b, c, last), a, b, c)
  {
    hide Says, Nibble, Pack, Number;
    NibbleSays(Pack(a, b, c));
    TopBits(a, b, c);
    NibbleSays(a);
    NibbleSays(b);
    NibbleSays(c);
  }

  /** Where a full group stands. */
  lemma GroupStands(payload: seq<byte>, i: nat)
    requires |payload| == 524 && i < 174
    ensures var g := EncodeGroup(ChecksAfter(payload, i), payload[3 * i], payload[3 * i + 1], payload[3 * i + 2], false);
            EncodePayload(payload)[4 * i..4 * i + 4] == GroupNibbles(g.a, g.b, g.c, false)
  {
    hide EncodePayload, EncodeGroup, GroupNibbles, ChecksAfter;
    EncodingFrom(payload, i);
    PrefixOfRest(EncodePayload(payload), 4 * i, 4);
  }

  lemma PrefixOfRest(s: seq<byte>, i: nat, n: nat)
    requires i + n <= |s|
    ensures s[i..i + n] == s[i..][..n]
  {}

  /**
   What the nibbles of a full group say: its bytes, the first masked with the rotated third checksum
   from before, the others with the new first and second checksums.
   */
  lemma EncodedGroup(payload: seq<byte>, i: nat)
    requires |payload| == 524 && i < 174
    ensures var before, after := SumAfter(payload, i), SumAfter(payload, i + 1);
            SayBytes(EncodePayload(payload)[4 * i..4 * i + 4],
                     payload[3 * i] ^ Rotated(before), payload[3 * i + 1] ^ First(after), payload[3 * i + 2] ^ Second(after))
  {
    hide EncodePayload, EncodeGroup, GroupNibbles, SayBytes, Turned, SumAfter, ChecksAfter, Number, ByteOf, First, Second, Third, Rotated;
    var k := ChecksAfter(payload, i);
    var g := EncodeGroup(k, payload[3 * i], payload[3 * i + 1], payload[3 * i + 2], false);
    NextChecks(payload, i);
    ChecksSay(payload, i);
    ChecksSay(payload, i + 1);
    GroupMasks(k, payload[3 * i], payload[3 * i + 1], payload[3 * i + 2], false);
    GroupSays(g.a, g.b, g.c, false);
    GroupStands(payload, i);
  }

  lemma NextChecks(payload: seq<byte>, i: nat)
    requires |payload| == 524 && i < 174
    ensures ChecksAfter(payload, i + 1)
         == EncodeGroup(ChecksAfter(payload, i), payload[3 * i], payload[3 * i + 1], payload[3 * i + 2], false).checks
  {
    hide EncodeGroup;
  }

  lemma ChecksSay(payload: seq<byte>, groups: nat)
    requires |payload| == 524 && groups <= 175
    ensures var k, sum := ChecksAfter(payload, groups), SumAfter(payload, groups);
            k.a == First(sum) && k.b == Second(sum) && k.c == Third(sum) && ByteOf(Turned(Number(k.c))) == Rotated(sum)
  {
    hide SumAfter, ChecksAfter, Number, ByteOf, Turned;
    var k := ChecksAfter(payload, groups);
    ChecksAreSums(payload, groups);
    BytesOf(k);
    SameNumber(k.a, ByteOf(Number(k.a)));
    SameNumber(k.b, ByteOf(Number(k.b)));
    SameNumber(k.c, ByteOf(Number(k.c)));
  }

  /** The last group, which has no third byte, and the final checksums behind it. */
  lemma EncodedEnd(payload: seq<byte>)
    requires |payload| == 524
    ensures var before, after := SumAfter(payload, 174), SumAfter(payload, 175);
            && SayBytes(EncodePayload(payload)[696..699],
                        payload[522] ^ Rotated(before), payload[523] ^ First(after), Second(after))
            && SayBytes(EncodePayload(payload)[699..703], First(after), Second(after), Third(after))
  {
    hide EncodePayload, EncodeGroup, GroupNibbles, SayBytes, Number, Turned, ByteOf, SumAfter, ChecksAfter, First, Second, Third, Rotated;
    var k, k' := ChecksAfter(payload, 174), ChecksAfter(payload, 175);
    var g := EncodeGroup(k, payload[522], payload[523], 0, true);
    LastChecks(payload);
    ChecksSay(payload, 174);
    ChecksSay(payload, 175);
    GroupMasks(k, payload[522], payload[523], 0, true);
    ZeroMasked(k'.b);
    GroupSays(g.a, g.b, g.c, true);
    GroupSays(k'.a, k'.b, k'.c, false);
    EndStands(payload);
  }

  lemma LastChecks(payload: seq<byte>)
    requires |payload| == 524
    ensures ChecksAfter(payload, 175) == EncodeGroup(ChecksAfter(payload, 174), payload[522], payload[523], 0, true).checks
  {
    hide EncodeGroup;
  }

  lemma EndStands(payload: seq<byte>)
    requires |payload| == 524
    ensures var k, k' := ChecksAfter(payload, 174), ChecksAfter(payload, 175);
            var g := EncodeGroup(k, payload[522], payload[523], 0, true);
            && EncodePayload(payload)[696..699] == GroupNibbles(g.a, g.b, g.c, true)
            && EncodePayload(payload)[699..703] == GroupNibbles(k'.a, k'.b, k'.c, false)
  {
    hide EncodePayload, EncodeGroup, GroupNibbles, ChecksAfter;
    EncodingFrom(payload, 174);
    EncodingFrom(payload, 175);
    PrefixOfRest(EncodePayload(payload), 696, 3);
    PrefixOfRest(EncodePayload(payload), 699, 4);
  }
}
