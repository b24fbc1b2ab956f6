/** The 16-bit cyclic redundancy check of MFM fields, most significant bit first. */
module MfmCheck {
  import opened Bytes

  const MFM_INITIAL: word := 0xffff

  function Xor(x: word, y: word): word { x ^ y }

  predicate TopBit(x: word) { x & 0x8000 != 0 }

  function Double(x: word): word { x << 1 }

  /** A byte as the high half of a word. */
  function High(b: byte): word { b as word << 8 }

  /** One step of the shift register: what falls out of the top is fed back. */
  function MfmBit(crc: word): word
  {
    if TopBit(crc) then Xor(Double(crc), 0x1021) else Double(crc)
  }

  function MfmBits(crc: word, n: nat): word
    decreases n
  {
    if n == 0 then crc else MfmBit(MfmBits(crc, n - 1))
  }

  function MfmByte(crc: word, b: byte): word { MfmBits(Xor(crc, High(b)), 8) }

  function MfmFrom(crc: word, s: seq<byte>): word
    decreases |s|
  {
    if s == [] then crc else MfmFrom(MfmByte(crc, s[0]), s[1..])
  }

  function MfmCrc(s: seq<byte>): word { MfmFrom(MFM_INITIAL, s) }

  // ---------- every step is reversible ----------

  /** The step backwards: the polynomial is odd, so the low bit tells what was fed back. */
  function MfmUnbit(crc: word): word
  {
    if crc & 1 != 0 then ((crc ^ 0x1021) >> 1) | 0x8000 else crc >> 1
  }

  lemma FedBack(x: word)
    requires x & 0x8000 != 0
    ensures ((x << 1) ^ 0x1021) & 1 != 0 && ((((x << 1) ^ 0x1021) ^ 0x1021) >> 1) | 0x8000 == x
  {}

  lemma NotFedBack(x: word)
    requires x & 0x8000 == 0
    ensures (x << 1) & 1 == 0 && (x << 1) >> 1 == x
  {}

  lemma MfmUnbitUndoes(x: word)
    ensures MfmUnbit(MfmBit(x)) == x
  {
    if x & 0x8000 != 0 { FedBack(x); } else { NotFedBack(x); }
  }

  lemma {:induction false} MfmBitsInjective(x: word, y: word, n: nat)
    requires MfmBits(x, n) == MfmBits(y, n)
    ensures x == y
    decreases n
  {
    hide MfmBit, MfmUnbit;
    if n > 0 {
      MfmUnbitUndoes(MfmBits(x, n - 1));
      MfmUnbitUndoes(MfmBits(y, n - 1));
      MfmBitsInjective(x, y, n - 1);
    }
  }

  lemma XorInjective(crc: word, x: word, y: word)
    ensures Xor(crc, x) == Xor(crc, y) ==> x == y
    ensures Xor(x, crc) == Xor(y, crc) ==> x == y
  {}

  lemma {:induction false} MfmFromInjective(x: word, y: word, s: seq<byte>)
    requires MfmFrom(x, s) == MfmFrom(y, s)
    ensures x == y
    decreases |s|
  {
    hide MfmBits, Xor, High;
    if s != [] {
      MfmFromInjective(MfmByte(x, s[0]), MfmByte(y, s[0]), s[1..]);
      MfmBitsInjective(Xor(x, High(s[0])), Xor(y, High(s[0])), 8);
      XorInjective(High(s[0]), x, y);
    }
  }

  // ---------- two bytes are absorbed as one word ----------

  lemma DoubleXor(x: word, y: word)
    ensures Double(Xor(x, y)) == Xor(Double(x), Double(y))
    ensures Xor(Xor(Double(x), Double(y)), 0x1021) == Xor(Xor(Double(x), 0x1021), Double(y))
    ensures !TopBit(y) ==> TopBit(Xor(x, y)) == TopBit(x)
  {}

  function Shifted(y: word, n: nat): word
  {
    if n == 0 then y else Double(Shifted(y, n - 1))
  }

  lemma DoubleShifts(y: word)
    ensures Double(y) == y << 1 && Double(y << 1) == y << 2 && Double(y << 2) == y << 3 && Double(y << 3) == y << 4
    ensures Double(y << 4) == y << 5 && Double(y << 5) == y << 6 && Double(y << 6) == y << 7 && Double(y << 7) == y << 8
  {}

  lemma LowByteShifts(y: word)
    requires y < 0x100
    ensures && y & 0x8000 == 0 && (y << 1) & 0x8000 == 0 && (y << 2) & 0x8000 == 0 && (y << 3) & 0x8000 == 0
            && (y << 4) & 0x8000 == 0 && (y << 5) & 0x8000 == 0 && (y << 6) & 0x8000 == 0 && (y << 7) & 0x8000 == 0
  {}

  /** Seven shifts keep a low byte out of the top bit. */
  lemma LowByteRises(y: word)
    requires y < 0x100
    ensures forall n :: 0 <= n < 8 ==> !TopBit(Shifted(y, n))
    ensures Shifted(y, 8) == y << 8
  {
    DoubleShifts(y);
    LowByteShifts(y);
    hide Double;
    assert Shifted(y, 0) == y && Shifted(y, 1) == y << 1 && Shifted(y, 2) == y << 2 && Shifted(y, 3) == y << 3;
    assert Shifted(y, 4) == y << 4 && Shifted(y, 5) == y << 5 && Shifted(y, 6) == y << 6 && Shifted(y, 7) == y << 7;
  }

  /** While nothing of `y` is pushed out of the top, the steps are linear in it. */
  lemma {:induction false} MfmBitsLinear(x: word, y: word, n: nat)
    requires n <= 8 && y < 0x100
    ensures MfmBits(Xor(x, y), n) == Xor(MfmBits(x, n), Shifted(y, n))
    decreases n
  {
    hide Xor, Double, TopBit;
    if n > 0 {
      MfmBitsLinear(x, y, n - 1);
      LowByteRises(y);
      DoubleXor(MfmBits(x, n - 1), Shifted(y, n - 1));
    }
  }

  lemma {:induction false} MfmBitsAdd(x: word, m: nat, n: nat)
    ensures MfmBits(MfmBits(x, m), n) == MfmBits(x, m + n)
    decreases n
  {
    hide MfmBit;
    if n > 0 {
      MfmBitsAdd(x, m, n - 1);
    }
  }

  lemma XorJoin(crc: word, a: byte, b: byte)
    ensures Xor(Xor(crc, High(a)), b as word) == Xor(crc, Join(a, b))
  {}

  lemma MfmTwoBytes(crc: word, a: byte, b: byte)
    ensures MfmByte(MfmByte(crc, a), b) == MfmBits(Xor(crc, Join(a, b)), 16)
  {
    hide MfmBits, Shifted, Xor, Join;
    MfmBitsLinear(Xor(crc, High(a)), b as word, 8);
    LowByteRises(b as word);
    XorJoin(crc, a, b);
    MfmBitsAdd(Xor(crc, Join(a, b)), 8, 8);
  }

  lemma {:induction false} MfmFromConcat(crc: word, s: seq<byte>, t: seq<byte>)
    ensures MfmFrom(crc, s + t) == MfmFrom(MfmFrom(crc, s), t)
    decreases |s|
  {
    hide MfmByte;
    if s == [] {
      assert s + t == t;
    } else {
      assert (s + t)[1..] == s[1..] + t;
      MfmFromConcat(MfmByte(crc, s[0]), s[1..], t);
    }
  }

  lemma MfmAround(prefix: seq<byte>, a: byte, b: byte, suffix: seq<byte>)
    ensures MfmCrc(prefix + [a, b] + suffix) == MfmFrom(MfmBits(Xor(MfmCrc(prefix), Join(a, b)), 16), suffix)
  {
    hide MfmByte, MfmBits, Xor, Join;
    MfmFromConcat(MFM_INITIAL, prefix + [a, b], suffix);
    MfmFromConcat(MFM_INITIAL, prefix, [a, b]);
    MfmTwoBytes(MfmCrc(prefix), a, b);
    assert [a, b][1..] == [b] && [b][1..] == [];
    assert MfmFrom(MfmByte(MfmCrc(prefix), a), [b]) == MfmByte(MfmByte(MfmCrc(prefix), a), b);
  }

  /**
   A change confined to two neighbouring bytes never goes unnoticed: two strings that agree
   everywhere else have the same check if and only if they are the same string.
   */
  lemma MfmCrcSeparates(prefix: seq<byte>, a: byte, b: byte, a': byte, b': byte, suffix: seq<byte>)
    ensures MfmCrc(prefix + [a, b] + suffix) == MfmCrc(prefix + [a', b'] + suffix) <==> a == a' && b == b'
  {
    hide MfmBits, MfmFrom, MfmCrc, Xor, Join;
    var start := MfmCrc(prefix);
    var x, y := MfmBits(Xor(start, Join(a, b)), 16), MfmBits(Xor(start, Join(a', b')), 16);
    MfmAround(prefix, a, b, suffix);
    MfmAround(prefix, a', b', suffix);
    if MfmFrom(x, suffix) == MfmFrom(y, suffix) {
      MfmFromInjective(x, y, suffix);
      MfmBitsInjective(Xor(start, Join(a, b)), Xor(start, Join(a', b')), 16);
      XorInjective(start, Join(a, b), Join(a', b'));
      SplitJoin(a, b);
      SplitJoin(a', b');
    }
  }

  /** The loop, the same in the encoder and in the independent track reader. */
  method ComputeMfmCrc(bytes: seq<byte>) returns (crc: word)
    ensures crc == MfmCrc(bytes)
  {
    hide MfmBit, Xor, High;
    crc := MFM_INITIAL;
    assert bytes[0..] == bytes;
    for i := 0 to |bytes|
      invariant MfmFrom(crc, bytes[i..]) == MfmCrc(bytes)
    {
      crc := Xor(crc, High(bytes[i]));
      ghost var start := crc;
      for bit := 0 to 8
        invariant crc == MfmBits(start, bit)
      {
        crc := MfmBit(crc);
      }
      assert bytes[i..][1..] == bytes[i + 1..];
    }
  }
}
