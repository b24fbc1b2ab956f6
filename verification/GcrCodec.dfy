/**
 The Apple group-coded-recording (GCR) payload codec: 12 tag bytes and 512 data bytes are
 written as 703 disk nibbles under three chained 8-bit checksums, and read back.
 */
module GcrCodec {
  import opened Bytes

  const PAYLOAD_BYTES: nat := 524
  const ENCODED_BYTES: nat := 703
  const GROUPS: nat := 175

  /** The disk nibble of a 6-bit value. */
  function GcrNibble(v: byte): (n: byte)
    requires v < 64
  {
    match v
    case 0 => 0x96 case 1 => 0x97 case 2 => 0x9a case 3 => 0x9b
    case 4 => 0x9d case 5 => 0x9e case 6 => 0x9f case 7 => 0xa6
    case 8 => 0xa7 case 9 => 0xab case 10 => 0xac case 11 => 0xad
    case 12 => 0xae case 13 => 0xaf case 14 => 0xb2 case 15 => 0xb3
    case 16 => 0xb4 case 17 => 0xb5 case 18 => 0xb6 case 19 => 0xb7
    case 20 => 0xb9 case 21 => 0xba case 22 => 0xbb case 23 => 0xbc
    case 24 => 0xbd case 25 => 0xbe case 26 => 0xbf case 27 => 0xcb
    case 28 => 0xcd case 29 => 0xce case 30 => 0xcf case 31 => 0xd3
    case 32 => 0xd6 case 33 => 0xd7 case 34 => 0xd9 case 35 => 0xda
    case 36 => 0xdb case 37 => 0xdc case 38 => 0xdd case 39 => 0xde
    case 40 => 0xdf case 41 => 0xe5 case 42 => 0xe6 case 43 => 0xe7
    case 44 => 0xe9 case 45 => 0xea case 46 => 0xeb case 47 => 0xec
    case 48 => 0xed case 49 => 0xee case 50 => 0xef case 51 => 0xf2
    case 52 => 0xf3 case 53 => 0xf4 case 54 => 0xf5 case 55 => 0xf6
    case 56 => 0xf7 case 57 => 0xf9 case 58 => 0xfa case 59 => 0xfb
    case 60 => 0xfc case 61 => 0xfd case 62 => 0xfe case _ => 0xff
  }

  /** First table position at or after `v` that holds `n`, as a linear search finds it. */
  function FindNibble(n: byte, v: byte): Option<byte>
    decreases 64 - (if v > 64 then 64 else v) as int
  {
    if v >= 64 then None
    else if GcrNibble(v) == n then Some(v)
    else FindNibble(n, v + 1)
  }

  function DecodeGcr(n: byte): Option<byte> { FindNibble(n, 0) }

  /** `appendGcr` masks its argument to six bits. */
  function Nibble(v: byte): byte { GcrNibble(v & 0x3f) }

  lemma NibbleStep(v: byte)
    requires v < 63
    ensures GcrNibble(v) < GcrNibble(v + 1)
  {
    hide GcrNibble;
    if v < 16 { StepBelow16(v); }
    else if v < 32 { StepBelow32(v); }
    else if v < 48 { StepBelow48(v); }
    else { StepBelow63(v); }
  }

  lemma StepBelow16(v: byte)
    requires v < 16
    ensures GcrNibble(v) < GcrNibble(v + 1)
  {
    if v < 8 {} else {}
  }

  lemma StepBelow32(v: byte)
    requires 16 <= v < 32
    ensures GcrNibble(v) < GcrNibble(v + 1)
  {
    if v < 24 {} else {}
  }

  lemma StepBelow48(v: byte)
    requires 32 <= v < 48
    ensures GcrNibble(v) < GcrNibble(v + 1)
  {
    if v < 40 {} else {}
  }

  lemma StepBelow63(v: byte)
    requires 48 <= v < 63
    ensures GcrNibble(v) < GcrNibble(v + 1)
  {
    if v < 56 {} else {}
  }

  lemma {:induction false} NibblesAscend(u: byte, v: byte)
    requires u < v < 64
    ensures GcrNibble(u) < GcrNibble(v)
    decreases v - u
  {
    NibbleStep(u);
    if u + 1 < v {
      NibblesAscend(u + 1, v);
    }
  }

  lemma {:induction false} FindNibbleFinds(n: byte, from: byte, v: byte)
    requires from <= v < 64 && GcrNibble(v) == n
    ensures FindNibble(n, from) == Some(v)
    decreases v - from
  {
    if from < v {
      NibblesAscend(from, v);
      FindNibbleFinds(n, from + 1, v);
    }
  }

  lemma {:induction false} FindNibbleSound(n: byte, from: byte)
    ensures FindNibble(n, from).Some? ==>
              FindNibble(n, from).value < 64 && GcrNibble(FindNibble(n, from).value) == n
    decreases 64 - (if from > 64 then 64 else from) as int
  {
    if from < 64 && GcrNibble(from) != n {
      FindNibbleSound(n, from + 1);
    }
  }

  /** Decoding is the exact inverse of the table: a nibble decodes to `v` if and only if `v` encodes to it. */
  lemma DecodeGcrInverse(n: byte, v: byte)
    ensures DecodeGcr(n) == Some(v) <==> v < 64 && GcrNibble(v) == n
  {
    FindNibbleSound(n, 0);
    if v < 64 && GcrNibble(v) == n {
      FindNibbleFinds(n, 0, v);
    }
  }

  /** The three running checksums. */
  datatype Checksums = Checksums(a: byte, b: byte, c: byte)

  const CLEAR_CHECKSUMS := Checksums(0, 0, 0)

  /** Three bytes, plain or masked, with the checksums that hold after them. */
  datatype Group = Group(checks: Checksums, a: byte, b: byte, c: byte)

  function Rol1(v: byte): byte { (v << 1) | (v >> 7) }

  function Mask(v: byte, checksum: byte): byte { v ^ checksum }

  function LowBit(v: byte): word { (v & 1) as word }

  function Truncate(sum: word): byte { (sum & 0xff) as byte }

  /** The 16-bit sum of two bytes and a carry. */
  function Sum(x: byte, y: byte, carry: word): word { x as word + y as word + carry }

  function Carry(sum: word): word { if sum > 0xff then 1 else 0 }

  /** One encoder step: plain bytes in, masked bytes out. The last group carries two bytes. */
  function EncodeGroup(k: Checksums, plainA: byte, plainB: byte, plainC: byte, last: bool): Group
  {
    var c := Rol1(k.c);
    var sumA := Sum(k.a, plainA, LowBit(c));
    var a := Truncate(sumA);
    var sumB := Sum(k.b, plainB, Carry(sumA));
    var b := Truncate(sumB);
    var c' := if last then c else Truncate(Sum(c, plainC, Carry(sumB)));
    Group(Checksums(a, b, c'), Mask(plainA, c), Mask(plainB, a), Mask(plainC, b))
  }

  /** One decoder step: masked bytes in, plain bytes out. */
  function DecodeGroup(k: Checksums, maskedA: byte, maskedB: byte, maskedC: byte, last: bool): Group
  {
    var c := Rol1(k.c);
    var plainA := Mask(maskedA, c);
    var sumA := Sum(k.a, plainA, LowBit(c));
    var a := Truncate(sumA);
    var plainB := Mask(maskedB, a);
    var sumB := Sum(k.b, plainB, Carry(sumA));
    var b := Truncate(sumB);
    var plainC := Mask(maskedC, b);
    var c' := if last then c else Truncate(Sum(c, plainC, Carry(sumB)));
    Group(Checksums(a, b, c'), plainA, plainB, plainC)
  }

  /** The top two bits of three bytes, gathered into six. */
  function Pack(a: byte, b: byte, c: byte): byte
  {
    ((a >> 2) & 0x30) | ((b >> 4) & 0x0c) | ((c >> 6) & 0x03)
  }

  function Unpack(packed: byte, lowA: byte, lowB: byte, lowC: byte): (byte, byte, byte)
  {
    (lowA | ((packed & 0x30) << 2), lowB | ((packed & 0x0c) << 4), lowC | ((packed & 0x03) << 6))
  }

  /** The nibbles of a group; the last group has none for its third byte. */
  function GroupNibbles(a: byte, b: byte, c: byte, last: bool): (s: seq<byte>)
    ensures |s| == if last then 3 else 4
  {
    [Nibble(Pack(a, b, c)), Nibble(a), Nibble(b)] + if last then [] else [Nibble(c)]
  }

  /** Number of nibbles from group `i` on; the checksum trailer counts as group 175. */
  function NibblesFrom(i: nat): nat
    requires i <= GROUPS
  {
    if i == GROUPS then 4 else ENCODED_BYTES - 4 * i
  }

  /** The encoding of the payload from group `i` on, under checksums `k`. */
  function EncodeFrom(payload: seq<byte>, i: nat, k: Checksums): (s: seq<byte>)
    requires |payload| == PAYLOAD_BYTES && i <= GROUPS
    ensures |s| == NibblesFrom(i)
    decreases GROUPS - i
  {
    if i == GROUPS then GroupNibbles(k.a, k.b, k.c, false)
    else
      var last := i == GROUPS - 1;
      var g := EncodeGroup(k, payload[3 * i], payload[3 * i + 1], if last then 0 else payload[3 * i + 2], last);
      GroupNibbles(g.a, g.b, g.c, last) + EncodeFrom(payload, i + 1, g.checks)
  }

  function EncodePayload(payload: seq<byte>): (s: seq<byte>)
    requires |payload| == PAYLOAD_BYTES
    ensures |s| == ENCODED_BYTES
  {
    EncodeFrom(payload, 0, CLEAR_CHECKSUMS)
  }

  /** The masked bytes of a group, if all its nibbles are in the table. */
  function ReadGroup(s: seq<byte>, last: bool): Option<(byte, byte, byte)>
    requires |s| >= if last then 3 else 4
  {
    match (DecodeGcr(s[0]), DecodeGcr(s[1]), DecodeGcr(s[2]), if last then Some(0) else DecodeGcr(s[3]))
    case (Some(packed), Some(lowA), Some(lowB), Some(lowC)) =>
      Some(Unpack(packed, lowA, lowB, lowC))
    case _ => None
  }

  /** What the decoder makes of the nibbles from group `i` on, under checksums `k`. */
  function DecodeFrom(s: seq<byte>, i: nat, k: Checksums): (r: Option<seq<byte>>)
    requires i <= GROUPS && |s| == NibblesFrom(i)
    ensures r.Some? && i < GROUPS ==> |r.value| == PAYLOAD_BYTES - 3 * i
    decreases GROUPS - i
  {
    var last := i == GROUPS - 1;
    match ReadGroup(s, last)
    case None => None
    case Some((a, b, c)) =>
      if i == GROUPS then
        if a == k.a && b == k.b && c == k.c then Some([]) else None
      else
        var g := DecodeGroup(k, a, b, c, last);
        match DecodeFrom(s[if last then 3 else 4..], i + 1, g.checks)
        case None => None
        case Some(rest) => Some([g.a, g.b] + (if last then [] else [g.c]) + rest)
  }

  function DecodePayload(encoded: seq<byte>): (r: Option<seq<byte>>)
    ensures r.Some? ==> |r.value| == PAYLOAD_BYTES
  {
    if |encoded| != ENCODED_BYTES then None else DecodeFrom(encoded, 0, CLEAR_CHECKSUMS)
  }

  // ---------- one group ----------

  lemma XorCancels(x: byte, m: byte)
    ensures Mask(Mask(x, m), m) == x
  {}

  lemma DecodeUndoesEncode(k: Checksums, a: byte, b: byte, c: byte, last: bool)
    ensures var g := EncodeGroup(k, a, b, c, last);
            DecodeGroup(k, g.a, g.b, g.c, last) == Group(g.checks, a, b, c)
  {
    hide Rol1, Mask, LowBit, Sum, Truncate, Carry;
    var g := EncodeGroup(k, a, b, c, last);
    XorCancels(a, Rol1(k.c));
    XorCancels(b, g.checks.a);
    XorCancels(c, g.checks.b);
  }

  lemma EncodeUndoesDecode(k: Checksums, a: byte, b: byte, c: byte, last: bool)
    ensures var g := DecodeGroup(k, a, b, c, last);
            EncodeGroup(k, g.a, g.b, g.c, last) == Group(g.checks, a, b, c)
  {
    hide Rol1, Mask, LowBit, Sum, Truncate, Carry;
    var g := DecodeGroup(k, a, b, c, last);
    XorCancels(a, Rol1(k.c));
    XorCancels(b, g.checks.a);
    XorCancels(c, g.checks.b);
  }

  /** Splitting three bytes into a packed and three low nibbles loses nothing. */
  lemma PackInverse(a: byte, b: byte, c: byte)
    ensures Pack(a, b, c) & 0x3f == Pack(a, b, c)
    ensures Unpack(Pack(a, b, c), a & 0x3f, b & 0x3f, c & 0x3f) == (a, b, c)
    ensures Unpack(Pack(a, b, c), a & 0x3f, b & 0x3f, 0) == (a, b, c & 0xc0)
  {}

  lemma UnpackInverse(packed: byte, lowA: byte, lowB: byte, lowC: byte)
    requires packed < 64 && lowA < 64 && lowB < 64 && lowC < 64
    ensures var (a, b, c) := Unpack(packed, lowA, lowB, lowC);
            Pack(a, b, c) == packed && a & 0x3f == lowA && b & 0x3f == lowB && c & 0x3f == lowC
  {}

  lemma NibbleDecodes(v: byte)
    ensures DecodeGcr(Nibble(v)) == Some(v & 0x3f)
  {
    assert v & 0x3f < 64;
    DecodeGcrInverse(GcrNibble(v & 0x3f), v & 0x3f);
  }

  /** Reading back the nibbles of a group gives the group, whatever follows them. */
  lemma ReadGroupWritten(a: byte, b: byte, c: byte, last: bool, rest: seq<byte>)
    ensures ReadGroup(GroupNibbles(a, b, c, last) + rest, last) == Some((a, b, if last then c & 0xc0 else c))
  {
    hide DecodeGcr, Nibble, Pack, Unpack;
    NibbleDecodes(Pack(a, b, c));
    NibbleDecodes(a);
    NibbleDecodes(b);
    NibbleDecodes(c);
    PackInverse(a, b, c);
  }

  /** Two nibbles that differ at most in the low two bits they carry. */
  predicate PadVariant(n: byte, m: byte)
  {
    match (DecodeGcr(n), DecodeGcr(m))
    case (Some(u), Some(v)) => u & 0x3c == v & 0x3c
    case _ => false
  }

  lemma MergeA(packed: byte, low: byte, a: byte)
    requires low < 64
    ensures low | ((packed & 0x30) << 2) == a <==> packed & 0x30 == (a >> 2) & 0x30 && low == a & 0x3f
  {}

  lemma MergeB(packed: byte, low: byte, b: byte)
    requires low < 64
    ensures low | ((packed & 0x0c) << 4) == b <==> packed & 0x0c == (b >> 4) & 0x0c && low == b & 0x3f
  {}

  lemma UpperFour(a: byte, b: byte, c: byte, packed: byte)
    ensures packed & 0x3c == Pack(a, b, c) & 0x3c
            <==> packed & 0x30 == (a >> 2) & 0x30 && packed & 0x0c == (b >> 4) & 0x0c
  {}

  /** Unpacking yields `a` and `b` exactly when the nibbles agree with theirs in all but the pad bits. */
  lemma PadIgnored(packed: byte, lowA: byte, lowB: byte, a: byte, b: byte, c: byte)
    requires lowA < 64 && lowB < 64
    ensures var u := Unpack(packed, lowA, lowB, 0);
            u.0 == a && u.1 == b <==> packed & 0x3c == Pack(a, b, c) & 0x3c && lowA == a & 0x3f && lowB == b & 0x3f
  {
    hide Pack;
    MergeA(packed, lowA, a);
    MergeB(packed, lowB, b);
    UpperFour(a, b, c, packed);
  }

  lemma NibbleOf(n: byte, v: byte)
    requires DecodeGcr(n) == Some(v)
    ensures v < 64 && v & 0x3f == v && n == Nibble(v)
  {
    DecodeGcrInverse(n, v);
    assert v & 0x3f == v;
  }

  lemma ReadGroupRead(s: seq<byte>, a: byte, b: byte, c: byte)
    requires |s| >= 4 && ReadGroup(s, false) == Some((a, b, c))
    ensures s[..4] == GroupNibbles(a, b, c, false)
  {
    hide DecodeGcr, Nibble, Pack, Unpack;
    var n0, n1, n2, n3 := DecodeGcr(s[0]).value, DecodeGcr(s[1]).value, DecodeGcr(s[2]).value, DecodeGcr(s[3]).value;
    NibbleOf(s[0], n0);
    NibbleOf(s[1], n1);
    NibbleOf(s[2], n2);
    NibbleOf(s[3], n3);
    UnpackInverse(n0, n1, n2, n3);
    NibbleMasks(a);
    NibbleMasks(b);
    NibbleMasks(c);
  }

  /** A full group reads back as (a, b, c) exactly when it is the four nibbles written for it. */
  lemma ReadFullGroup(s: seq<byte>, a: byte, b: byte, c: byte)
    requires |s| >= 4
    ensures ReadGroup(s, false) == Some((a, b, c)) <==> s[..4] == GroupNibbles(a, b, c, false)
  {
    hide GroupNibbles, ReadGroup;
    if s[..4] == GroupNibbles(a, b, c, false) {
      ReadGroupWritten(a, b, c, false, s[4..]);
      assert s == GroupNibbles(a, b, c, false) + s[4..];
    }
    if ReadGroup(s, false) == Some((a, b, c)) {
      ReadGroupRead(s, a, b, c);
    }
  }

  lemma NibbleMasks(v: byte)
    ensures Nibble(v & 0x3f) == Nibble(v)
  {
    hide GcrNibble;
    assert (v & 0x3f) & 0x3f == v & 0x3f;
  }

  /** The two-byte group reads back as (a, b) exactly when its nibbles are those written, up to the pad bits. */
  lemma ReadLastGroup(s: seq<byte>, a: byte, b: byte, c: byte)
    requires |s| >= 3
    ensures ReadGroup(s, true).Some? && ReadGroup(s, true).value.0 == a && ReadGroup(s, true).value.1 == b
            <==> PadVariant(s[0], Nibble(Pack(a, b, c))) && s[1] == Nibble(a) && s[2] == Nibble(b)
  {
    hide DecodeGcr, Nibble, Pack, Unpack;
    NibbleDecodes(Pack(a, b, c));
    NibbleDecodes(a);
    NibbleDecodes(b);
    PackInverse(a, b, c);
    match (DecodeGcr(s[0]), DecodeGcr(s[1]), DecodeGcr(s[2]))
    case (Some(packed), Some(lowA), Some(lowB)) =>
      NibbleOf(s[1], lowA);
      NibbleOf(s[2], lowB);
      NibbleMasks(a);
      NibbleMasks(b);
      PadIgnored(packed, lowA, lowB, a, b, c);
    case _ =>
  }

  // ---------- whole payloads ----------

  /** Equal strings, except that position `pad` may hold a pad variant. */
  ghost predicate SameButPad(s: seq<byte>, t: seq<byte>, pad: int)
  {
    && |s| == |t|
    && (forall j :: 0 <= j < |s| && j != pad ==> s[j] == t[j])
    && (0 <= pad < |s| ==> PadVariant(s[pad], t[pad]))
  }

  lemma SamePrefix(s: seq<byte>, g: seq<byte>, t: seq<byte>, pad: int)
    requires |s| == |g| + |t| && pad >= |g|
    ensures SameButPad(s, g + t, pad) <==> s[..|g|] == g && SameButPad(s[|g|..], t, pad - |g|)
  {
    if s[..|g|] == g && SameButPad(s[|g|..], t, pad - |g|) {
      forall j | 0 <= j < |s| && j != pad
        ensures s[j] == (g + t)[j]
      {
        if j < |g| { assert s[j] == s[..|g|][j]; } else { assert s[j] == s[|g|..][j - |g|]; }
      }
    }
    if SameButPad(s, g + t, pad) {
      forall j | 0 <= j < |t| && j != pad - |g|
        ensures s[|g|..][j] == t[j]
      {
        assert s[j + |g|] == (g + t)[j + |g|];
      }
      assert forall j :: 0 <= j < |g| ==> s[j] == (g + t)[j];
    }
  }

  function Remaining(payload: seq<byte>, i: nat): seq<byte>
    requires |payload| == PAYLOAD_BYTES && i <= GROUPS
  {
    if i == GROUPS then [] else payload[3 * i..]
  }

  lemma {:induction false} DecodesSuffixExactly(s: seq<byte>, payload: seq<byte>, i: nat, k: Checksums)
    requires |payload| == PAYLOAD_BYTES && i <= GROUPS && |s| == NibblesFrom(i)
    ensures DecodeFrom(s, i, k) == Some(Remaining(payload, i))
            <==> SameButPad(s, EncodeFrom(payload, i, k), 696 - 4 * i)
    decreases GROUPS - i
  {
    hide EncodeFrom, DecodeFrom, EncodeGroup, GroupNibbles, SameButPad;
    if i == GROUPS {
      NothingLeft(s, payload, k);
    } else if i == GROUPS - 1 {
      LastGroupExactly(s, payload, k);
    } else {
      FullGroupExactly(s, payload, i, k);
      var g := EncodeGroup(k, payload[3 * i], payload[3 * i + 1], payload[3 * i + 2], false);
      DecodesSuffixExactly(s[4..], payload, i + 1, g.checks);
      SamePrefix(s, GroupNibbles(g.a, g.b, g.c, false), EncodeFrom(payload, i + 1, g.checks), 696 - 4 * i);
      EncodeStep(payload, i, k);
    }
  }

  lemma EncodeStep(payload: seq<byte>, i: nat, k: Checksums)
    requires |payload| == PAYLOAD_BYTES && i < GROUPS - 1
    ensures var g := EncodeGroup(k, payload[3 * i], payload[3 * i + 1], payload[3 * i + 2], false);
            EncodeFrom(payload, i, k) == GroupNibbles(g.a, g.b, g.c, false) + EncodeFrom(payload, i + 1, g.checks)
  {
    hide EncodeGroup, GroupNibbles;
  }

  lemma NothingLeft(s: seq<byte>, payload: seq<byte>, k: Checksums)
    requires |payload| == PAYLOAD_BYTES && |s| == NibblesFrom(GROUPS)
    ensures DecodeFrom(s, GROUPS, k) == Some(Remaining(payload, GROUPS))
            <==> SameButPad(s, EncodeFrom(payload, GROUPS, k), 696 - 4 * GROUPS)
  {
    hide ReadGroup, EncodeGroup, DecodeGroup, GroupNibbles, PadVariant;
    ReadFullGroup(s, k.a, k.b, k.c);
    assert s[..4] == s;
  }

  lemma FullGroupExactly(s: seq<byte>, payload: seq<byte>, i: nat, k: Checksums)
    requires |payload| == PAYLOAD_BYTES && i < GROUPS - 1 && |s| == NibblesFrom(i)
    ensures var g := EncodeGroup(k, payload[3 * i], payload[3 * i + 1], payload[3 * i + 2], false);
            DecodeFrom(s, i, k) == Some(Remaining(payload, i))
            <==> s[..4] == GroupNibbles(g.a, g.b, g.c, false)
                 && DecodeFrom(s[4..], i + 1, g.checks) == Some(Remaining(payload, i + 1))
  {
    hide ReadGroup, EncodeGroup, DecodeGroup, GroupNibbles;
    var (pA, pB, pC) := (payload[3 * i], payload[3 * i + 1], payload[3 * i + 2]);
    var g := EncodeGroup(k, pA, pB, pC, false);
    ReadFullGroup(s, g.a, g.b, g.c);
    DecodeUndoesEncode(k, pA, pB, pC, false);
    var tail := payload[3 * (i + 1)..];
    assert payload[3 * i..] == [pA, pB, pC] + tail;
    if ReadGroup(s, false).Some? {
      var (a, b, c) := ReadGroup(s, false).value;
      EncodeUndoesDecode(k, a, b, c, false);
      var h := DecodeGroup(k, a, b, c, false);
      var rest := DecodeFrom(s[4..], i + 1, h.checks);
      if rest.Some? {
        Three(h.a, h.b, h.c, rest.value, pA, pB, pC, tail);
      }
    }
  }

  lemma Three<T>(a: T, b: T, c: T, rest: seq<T>, a': T, b': T, c': T, rest': seq<T>)
    ensures [a, b] + [c] + rest == [a', b', c'] + rest' <==> a == a' && b == b' && c == c' && rest == rest'
  {
    var s, t := [a, b] + [c] + rest, [a', b', c'] + rest';
    assert s[0] == a && s[1] == b && s[2] == c && s[3..] == rest;
    assert t[0] == a' && t[1] == b' && t[2] == c' && t[3..] == rest';
  }

  /** In the two-byte group the third byte changes neither the plain bytes nor the checksums. */
  lemma LastIgnoresThird(k: Checksums, a: byte, b: byte, c: byte, d: byte)
    ensures DecodeGroup(k, a, b, c, true).(c := 0) == DecodeGroup(k, a, b, d, true).(c := 0)
    ensures EncodeGroup(k, a, b, c, true).(c := 0) == EncodeGroup(k, a, b, d, true).(c := 0)
  {
    hide Rol1, Mask, LowBit, Sum, Truncate, Carry;
  }

  lemma LastGroupExactly(s: seq<byte>, payload: seq<byte>, k: Checksums)
    requires |payload| == PAYLOAD_BYTES && |s| == 7
    ensures DecodeFrom(s, GROUPS - 1, k) == Some(Remaining(payload, GROUPS - 1))
            <==> SameButPad(s, EncodeFrom(payload, GROUPS - 1, k), 0)
  {
    hide ReadGroup, EncodeGroup, DecodeGroup, GroupNibbles, PadVariant;
    var (pA, pB) := (payload[522], payload[523]);
    var g := EncodeGroup(k, pA, pB, 0, true);
    LastGroupPlain(s, k, pA, pB);
    ReadLastGroup(s, g.a, g.b, g.c);
    ReadFullGroup(s[3..], g.checks.a, g.checks.b, g.checks.c);
    assert s[3..][..4] == s[3..];
    assert payload[522..] == [pA, pB];
    var head := GroupNibbles(g.a, g.b, g.c, true);
    var tail := EncodeFrom(payload, GROUPS, g.checks);
    assert EncodeFrom(payload, GROUPS - 1, k) == head + tail;
    LastGroupSame(s, g.a, g.b, g.c, tail);
  }

  lemma LastGroupSame(s: seq<byte>, a: byte, b: byte, c: byte, tail: seq<byte>)
    requires |s| == 7 && |tail| == 4
    ensures SameButPad(s, GroupNibbles(a, b, c, true) + tail, 0)
            <==> PadVariant(s[0], Nibble(Pack(a, b, c))) && s[1] == Nibble(a) && s[2] == Nibble(b) && s[3..] == tail
  {
    hide PadVariant, Nibble, Pack;
    var t := GroupNibbles(a, b, c, true) + tail;
    assert t[0] == Nibble(Pack(a, b, c)) && t[1] == Nibble(a) && t[2] == Nibble(b) && t[3..] == tail;
    if s[3..] == tail {
      assert forall j :: 3 <= j < 7 ==> s[j] == s[3..][j - 3] && t[j] == tail[j - 3];
    }
    if SameButPad(s, t, 0) {
      assert s[1] == t[1] && s[2] == t[2] && s[3] == t[3] && s[4] == t[4] && s[5] == t[5] && s[6] == t[6];
    }
  }

  /** The last group decodes to two plain bytes exactly when the masked bytes are theirs; the trailer follows. */
  lemma LastGroupPlain(s: seq<byte>, k: Checksums, pA: byte, pB: byte)
    requires |s| == 7
    ensures var g := EncodeGroup(k, pA, pB, 0, true);
            DecodeFrom(s, GROUPS - 1, k) == Some([pA, pB])
            <==> ReadGroup(s, true).Some? && ReadGroup(s, true).value.0 == g.a && ReadGroup(s, true).value.1 == g.b
                 && DecodeFrom(s[3..], GROUPS, g.checks) == Some([])
  {
    hide ReadGroup, EncodeGroup, DecodeGroup;
    var g := EncodeGroup(k, pA, pB, 0, true);
    DecodeUndoesEncode(k, pA, pB, 0, true);
    if ReadGroup(s, true).Some? {
      var (a, b, c) := ReadGroup(s, true).value;
      var h := DecodeGroup(k, a, b, c, true);
      EncodeUndoesDecode(k, a, b, c, true);
      LastIgnoresThird(k, a, b, c, g.c);
      LastIgnoresThird(k, h.a, h.b, h.c, 0);
      var rest := DecodeFrom(s[3..], GROUPS, h.checks);
      if rest.Some? {
        assert rest.value == [];
        var whole := [h.a, h.b] + [] + rest.value;
        assert whole[0] == h.a && whole[1] == h.b && whole == [h.a, h.b];
      }
    }
  }

  /** The bytes that can stand in a payload encoding; 0xd5 and 0xaa, which open every field, cannot. */
  predicate IsNibble(n: byte) { DecodeGcr(n).Some? }

  lemma ReservedBytes()
    ensures !IsNibble(0xd5) && !IsNibble(0xaa)
  {
    hide DecodeGcr, FindNibble;
    forall v: byte
      ensures DecodeGcr(0xd5) != Some(v) && DecodeGcr(0xaa) != Some(v)
    {
      DecodeGcrInverse(0xd5, v);
      DecodeGcrInverse(0xaa, v);
      NotInTable(v);
    }
    match (DecodeGcr(0xd5), DecodeGcr(0xaa))
    case (Some(u), _) => assert false;
    case (_, Some(u)) => assert false;
    case _ =>
  }

  lemma NotInTable(v: byte)
    ensures v < 64 ==> GcrNibble(v) != 0xd5 && GcrNibble(v) != 0xaa
  {
    if v < 64 {
      var (a7, ab, d3, d6) := (GcrNibble(8), GcrNibble(9), GcrNibble(31), GcrNibble(32));
      assert a7 == 0xa7 && ab == 0xab && d3 == 0xd3 && d6 == 0xd6;
      hide GcrNibble;
      if v < 8 { NibblesAscend(v, 8); }
      if 9 < v { NibblesAscend(9, v); }
      if v < 31 { NibblesAscend(v, 31); }
      if 32 < v { NibblesAscend(32, v); }
    }
  }

  lemma GroupNibblesAreNibbles(a: byte, b: byte, c: byte, last: bool)
    ensures forall j :: 0 <= j < |GroupNibbles(a, b, c, last)| ==> IsNibble(GroupNibbles(a, b, c, last)[j])
  {
    hide DecodeGcr, Nibble, Pack;
    NibbleDecodes(Pack(a, b, c));
    NibbleDecodes(a);
    NibbleDecodes(b);
    NibbleDecodes(c);
  }

  lemma {:induction false} EncodingHasOnlyNibbles(payload: seq<byte>, i: nat, k: Checksums)
    requires |payload| == PAYLOAD_BYTES && i <= GROUPS
    ensures forall j :: 0 <= j < NibblesFrom(i) ==> IsNibble(EncodeFrom(payload, i, k)[j])
    decreases GROUPS - i
  {
    hide IsNibble, EncodeGroup, GroupNibbles;
    if i == GROUPS {
      GroupNibblesAreNibbles(k.a, k.b, k.c, false);
    } else {
      var last := i == GROUPS - 1;
      var g := EncodeGroup(k, payload[3 * i], payload[3 * i + 1], if last then 0 else payload[3 * i + 2], last);
      GroupNibblesAreNibbles(g.a, g.b, g.c, last);
      EncodingHasOnlyNibbles(payload, i + 1, g.checks);
      NibblesJoin(GroupNibbles(g.a, g.b, g.c, last), EncodeFrom(payload, i + 1, g.checks));
    }
  }

  lemma NibblesJoin(s: seq<byte>, t: seq<byte>)
    requires (forall j :: 0 <= j < |s| ==> IsNibble(s[j])) && forall j :: 0 <= j < |t| ==> IsNibble(t[j])
    ensures forall j :: 0 <= j < |s + t| ==> IsNibble((s + t)[j])
  {
    hide IsNibble;
  }

  /**
   The decoder accepts `encoded` as `payload` if and only if it is the encoding of `payload`,
   except that the nibble at 696 may carry anything in its two unused low bits.
   */
  lemma DecodeAcceptsExactly(encoded: seq<byte>, payload: seq<byte>)
    requires |payload| == PAYLOAD_BYTES
    ensures DecodePayload(encoded) == Some(payload)
            <==> && |encoded| == ENCODED_BYTES
                 && encoded == EncodePayload(payload)[696 := encoded[696]]
                 && PadVariant(encoded[696], EncodePayload(payload)[696])
  {
    hide DecodeFrom, EncodeFrom, PadVariant;
    if |encoded| == ENCODED_BYTES {
      DecodesSuffixExactly(encoded, payload, 0, CLEAR_CHECKSUMS);
      assert payload[0..] == payload;
    }
  }

  /** Decoding undoes encoding, for every payload. */
  lemma DecodeEncodePayload(payload: seq<byte>)
    requires |payload| == PAYLOAD_BYTES
    ensures DecodePayload(EncodePayload(payload)) == Some(payload)
  {
    hide EncodeFrom, DecodePayload;
    EncodingHasOnlyNibbles(payload, 0, CLEAR_CHECKSUMS);
    DecodeAcceptsExactly(EncodePayload(payload), payload);
  }

  // ---------- the loops ----------

  /** The body of the encoder loop: updates the checksums and masks three bytes. */
  method MaskGroup(k: Checksums, plainA: byte, plainB: byte, plainC: byte, last: bool)
    returns (k': Checksums, maskedA: byte, maskedB: byte, maskedC: byte)
    ensures Group(k', maskedA, maskedB, maskedC) == EncodeGroup(k, plainA, plainB, plainC, last)
  {
    hide Rol1, Mask, LowBit, Sum, Truncate, Carry;
    var c := Rol1(k.c);
    var sumA := Sum(k.a, plainA, LowBit(c));
    var a := Truncate(sumA);
    maskedA := Mask(plainA, c);
    var sumB := Sum(k.b, plainB, Carry(sumA));
    var b := Truncate(sumB);
    maskedB := Mask(plainB, a);
    maskedC := Mask(plainC, b);
    var c' := if last then c else Truncate(Sum(c, plainC, Carry(sumB)));
    k' := Checksums(a, b, c');
  }

  lemma EncodeFromStep(payload: seq<byte>, i: nat, k: Checksums, done: seq<byte>)
    requires |payload| == PAYLOAD_BYTES && i < GROUPS
    ensures var last := i == GROUPS - 1;
            var g := EncodeGroup(k, payload[3 * i], payload[3 * i + 1], if last then 0 else payload[3 * i + 2], last);
            done + EncodeFrom(payload, i, k)
            == (done + GroupNibbles(g.a, g.b, g.c, last)) + EncodeFrom(payload, i + 1, g.checks)
  {
    hide EncodeGroup, GroupNibbles;
  }

  /** `appendEncodedPayload`: appends the 703 nibbles of a payload to a track. */
  method AppendEncodedPayload(track: seq<byte>, payload: seq<byte>) returns (output: seq<byte>)
    requires |payload| == PAYLOAD_BYTES
    ensures output == track + EncodePayload(payload)
    ensures DecodePayload(output[|track|..]) == Some(payload)
  {
    hide EncodeGroup, GroupNibbles, DecodePayload, EncodeFrom;
    output := track;
    var k := CLEAR_CHECKSUMS;
    for i := 0 to GROUPS
      invariant output + EncodeFrom(payload, i, k) == track + EncodePayload(payload)
    {
      var plainC := if i != 174 then payload[3 * i + 2] else 0;
      var k', maskedA, maskedB, maskedC := MaskGroup(k, payload[3 * i], payload[3 * i + 1], plainC, i == 174);
      EncodeFromStep(payload, i, k, output);
      k, output := k', output + GroupNibbles(maskedA, maskedB, maskedC, i == 174);
    }
    EncodeFromTrailer(payload, k);
    output := output + GroupNibbles(k.a, k.b, k.c, false);
    assert output[|track|..] == EncodePayload(payload);
    DecodeEncodePayload(payload);
  }

  lemma EncodeFromTrailer(payload: seq<byte>, k: Checksums)
    requires |payload| == PAYLOAD_BYTES
    ensures EncodeFrom(payload, GROUPS, k) == GroupNibbles(k.a, k.b, k.c, false)
  {}

  /** The body of the decoder loop. */
  method UnmaskGroup(k: Checksums, maskedA: byte, maskedB: byte, maskedC: byte, last: bool)
    returns (k': Checksums, plainA: byte, plainB: byte, plainC: byte)
    ensures Group(k', plainA, plainB, plainC) == DecodeGroup(k, maskedA, maskedB, maskedC, last)
  {
    hide Rol1, Mask, LowBit, Sum, Truncate, Carry;
    var c := Rol1(k.c);
    plainA := Mask(maskedA, c);
    var sumA := Sum(k.a, plainA, LowBit(c));
    var a := Truncate(sumA);
    plainB := Mask(maskedB, a);
    var sumB := Sum(k.b, plainB, Carry(sumA));
    var b := Truncate(sumB);
    plainC := Mask(maskedC, b);
    var c' := if last then c else Truncate(Sum(c, plainC, Carry(sumB)));
    k' := Checksums(a, b, c');
  }

  /** `whole` is `done` followed by what is still to come, or both fail. */
  predicate Continues(whole: Option<seq<byte>>, done: seq<byte>, rest: Option<seq<byte>>)
  {
    whole == if rest.None? then None else Some(done + rest.value)
  }

  lemma ContinuesFromStart(whole: Option<seq<byte>>)
    ensures Continues(whole, [], whole)
  {
    assert whole.Some? ==> [] + whole.value == whole.value;
  }

  lemma DecodeFromStep(whole: Option<seq<byte>>, done: seq<byte>, s: seq<byte>, i: nat, k: Checksums)
    requires i < GROUPS && |s| == NibblesFrom(i)
    requires Continues(whole, done, DecodeFrom(s, i, k))
    ensures var last := i == GROUPS - 1;
            match ReadGroup(s, last)
            case None => whole == None
            case Some(m) =>
              var g := DecodeGroup(k, m.0, m.1, m.2, last);
              Continues(whole, done + ([g.a, g.b] + if last then [] else [g.c]),
                        DecodeFrom(s[if last then 3 else 4..], i + 1, g.checks))
  {
    hide ReadGroup, DecodeGroup;
    var last := i == GROUPS - 1;
    if ReadGroup(s, last).Some? {
      var m := ReadGroup(s, last).value;
      var g := DecodeGroup(k, m.0, m.1, m.2, last);
      var next, rest := [g.a, g.b] + (if last then [] else [g.c]), DecodeFrom(s[if last then 3 else 4..], i + 1, g.checks);
      if rest.Some? {
        assert done + (next + rest.value) == done + next + rest.value;
      }
    }
  }

  /** `decodeGcrPayload`: succeeds exactly on the encodings, and then returns the payload. */
  method DecodeGcrPayload(encoded: seq<byte>) returns (ok: bool, payload: seq<byte>)
    ensures ok <==> DecodePayload(encoded).Some?
    ensures ok ==> Some(payload) == DecodePayload(encoded)
    ensures ok ==> |payload| == PAYLOAD_BYTES && EncodePayload(payload)[696 := encoded[696]] == encoded
  {
    hide DecodeGroup, ReadGroup, EncodePayload, PadVariant, DecodeFrom;
    payload := [];
    if |encoded| != ENCODED_BYTES { return false, payload; }
    var k, input := CLEAR_CHECKSUMS, 0;
    assert encoded[0..] == encoded;
    ContinuesFromStart(DecodePayload(encoded));
    for group := 0 to GROUPS
      invariant input == ENCODED_BYTES - NibblesFrom(group)
      invariant Continues(DecodePayload(encoded), payload, DecodeFrom(encoded[input..], group, k))
    {
      DecodeFromStep(DecodePayload(encoded), payload, encoded[input..], group, k);
      var last := group == GROUPS - 1;
      var masked := ReadGroup(encoded[input..], last);
      if masked.None? { return false, payload; }
      var k', plainA, plainB, plainC := UnmaskGroup(k, masked.value.0, masked.value.1, masked.value.2, last);
      var used := if last then 3 else 4;
      assert encoded[input..][used..] == encoded[input + used..];
      payload, k, input := payload + ([plainA, plainB] + if last then [] else [plainC]), k', input + used;
    }
    DecodeTrailer(encoded[input..], k);
    var check := ReadGroup(encoded[input..], false);
    ok := check.Some? && check.value == (k.a, k.b, k.c);
    if ok {
      assert payload + [] == payload;
      DecodeAcceptsExactly(encoded, payload);
    }
  }

  lemma DecodeTrailer(s: seq<byte>, k: Checksums)
    requires |s| == 4
    ensures DecodeFrom(s, GROUPS, k) == if ReadGroup(s, false) == Some((k.a, k.b, k.c)) then Some([]) else None
  {
    hide ReadGroup;
  }
}
