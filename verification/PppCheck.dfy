/** The 16-bit frame check sequence of PPP (RFC 1662, appendix C), bit by bit, low bit first. */
module PppCheck {
  import opened Bytes

  const FCS_INITIAL: word := 0xffff
  const FCS_GOOD: word := 0xf0b8

  function Xor(x: word, y: word): word { x ^ y }

  predicate LowBit(x: word) { x & 1 != 0 }

  function Halve(x: word): word { x >> 1 }

  /** A byte as the low half, and as the high half, of a word. */
  function Low(b: byte): word { b as word }

  function High(b: byte): word { b as word << 8 }

  function FcsBit(fcs: word): word
  {
    if LowBit(fcs) then Xor(Halve(fcs), 0x8408) else Halve(fcs)
  }

  function FcsBits(fcs: word, n: nat): word
    decreases n
  {
    if n == 0 then fcs else FcsBit(FcsBits(fcs, n - 1))
  }

  function FcsByte(fcs: word, b: byte): word { FcsBits(Xor(fcs, Low(b)), 8) }

  function FcsFrom(fcs: word, s: seq<byte>): word
    decreases |s|
  {
    if s == [] then fcs else FcsFrom(FcsByte(fcs, s[0]), s[1..])
  }

  function Fcs(s: seq<byte>): word { FcsFrom(FCS_INITIAL, s) }

  method ComputeFcs(data: seq<byte>) returns (fcs: word)
    ensures fcs == Fcs(data)
  {
    hide FcsBit, Xor, Low;
    fcs := FCS_INITIAL;
    assert data[0..] == data;
    for index := 0 to |data|
      invariant FcsFrom(fcs, data[index..]) == Fcs(data)
    {
      assert data[index..][1..] == data[index + 1..];
      ghost var start := Xor(fcs, Low(data[index]));
      fcs := Xor(fcs, Low(data[index]));
      for bit := 0 to 8
        invariant fcs == FcsBits(start, bit)
      {
        fcs := FcsBit(fcs);
      }
    }
  }

  // ---------- every step is reversible ----------

  function FcsUnbit(fcs: word): word
  {
    if fcs & 0x8000 != 0 then ((fcs ^ 0x8408) << 1) | 1 else fcs << 1
  }

  lemma FedBack(x: word)
    requires x & 1 != 0
    ensures ((x >> 1) ^ 0x8408) & 0x8000 != 0 && ((((x >> 1) ^ 0x8408) ^ 0x8408) << 1) | 1 == x
  {}

  lemma NotFedBack(x: word)
    requires x & 1 == 0
    ensures (x >> 1) & 0x8000 == 0 && (x >> 1) << 1 == x
  {}

  lemma FcsUnbitUndoes(x: word)
    ensures FcsUnbit(FcsBit(x)) == x
  {
    if x & 1 != 0 { FedBack(x); } else { NotFedBack(x); }
  }

  lemma {:induction false} FcsBitsInjective(x: word, y: word, n: nat)
    requires FcsBits(x, n) == FcsBits(y, n)
    ensures x == y
    decreases n
  {
    hide FcsBit, FcsUnbit;
    if n > 0 {
      FcsUnbitUndoes(FcsBits(x, n - 1));
      FcsUnbitUndoes(FcsBits(y, n - 1));
      FcsBitsInjective(x, y, n - 1);
    }
  }

  // ---------- two bytes at once ----------

  lemma HalveOfXor(x: word, y: word)
    ensures Halve(Xor(x, y)) == Xor(Halve(x), Halve(y))
  {}

  lemma XorSwaps(x: word, y: word, z: word)
    ensures Xor(Xor(x, y), z) == Xor(Xor(x, z), y)
  {}

  lemma LowBitOfXor(x: word, y: word)
    requires !LowBit(y)
    ensures LowBit(Xor(x, y)) == LowBit(x)
  {}

  lemma HalveXor(x: word, y: word)
    ensures Halve(Xor(x, y)) == Xor(Halve(x), Halve(y))
    ensures Xor(Xor(Halve(x), Halve(y)), 0x8408) == Xor(Xor(Halve(x), 0x8408), Halve(y))
    ensures !LowBit(y) ==> LowBit(Xor(x, y)) == LowBit(x)
  {
    hide Xor, Halve, LowBit;
    HalveOfXor(x, y);
    XorSwaps(Halve(x), Halve(y), 0x8408);
    if !LowBit(y) { LowBitOfXor(x, y); }
  }

  function Shifted(y: word, n: nat): word
  {
    if n == 0 then y else Halve(Shifted(y, n - 1))
  }

  lemma HalveShifts(y: word)
    ensures Halve(y) == y >> 1 && Halve(y >> 1) == y >> 2 && Halve(y >> 2) == y >> 3 && Halve(y >> 3) == y >> 4
    ensures Halve(y >> 4) == y >> 5 && Halve(y >> 5) == y >> 6 && Halve(y >> 6) == y >> 7 && Halve(y >> 7) == y >> 8
  {}

  lemma HighShifts(b: byte)
    ensures var y := b as word << 8;
            && y & 1 == 0 && (y >> 1) & 1 == 0 && (y >> 2) & 1 == 0 && (y >> 3) & 1 == 0
            && (y >> 4) & 1 == 0 && (y >> 5) & 1 == 0 && (y >> 6) & 1 == 0 && (y >> 7) & 1 == 0
            && y >> 8 == b as word
  {}

  /** Eight shifts keep a high byte out of the low bit. */
  lemma HighFalls(b: byte)
    ensures forall n :: 0 <= n < 8 ==> !LowBit(Shifted(High(b), n))
    ensures Shifted(High(b), 8) == Low(b)
  {
    var y := High(b);
    HalveShifts(y);
    HighShifts(b);
    hide Halve;
    assert Shifted(y, 0) == y && Shifted(y, 1) == y >> 1 && Shifted(y, 2) == y >> 2 && Shifted(y, 3) == y >> 3;
    assert Shifted(y, 4) == y >> 4 && Shifted(y, 5) == y >> 5 && Shifted(y, 6) == y >> 6 && Shifted(y, 7) == y >> 7;
    assert Shifted(y, 8) == y >> 8;
  }

  lemma {:induction false} FcsBitsLinear(x: word, b: byte, n: nat)
    requires n <= 8
    ensures FcsBits(Xor(x, High(b)), n) == Xor(FcsBits(x, n), Shifted(High(b), n))
    decreases n
  {
    hide Xor, Halve, LowBit, High;
    if n > 0 {
      FcsBitsLinear(x, b, n - 1);
      HighFalls(b);
      HalveXor(FcsBits(x, n - 1), Shifted(High(b), n - 1));
    }
  }

  lemma {:induction false} FcsBitsAdd(x: word, m: nat, n: nat)
    ensures FcsBits(FcsBits(x, m), n) == FcsBits(x, m + n)
    decreases n
  {
    hide FcsBit;
    if n > 0 { FcsBitsAdd(x, m, n - 1); }
  }

  lemma XorJoin(fcs: word, low: byte, high: byte)
    ensures Xor(Xor(fcs, Low(low)), High(high)) == Xor(fcs, Join(high, low))
  {}

  lemma FcsTwoBytes(fcs: word, low: byte, high: byte)
    ensures FcsByte(FcsByte(fcs, low), high) == FcsBits(Xor(fcs, Join(high, low)), 16)
  {
    hide FcsBits, Shifted, Xor, Join, Low, High;
    var x := Xor(fcs, Low(low));
    FcsBitsLinear(x, high, 8);
    HighFalls(high);
    XorJoin(fcs, low, high);
    FcsBitsAdd(Xor(fcs, Join(high, low)), 8, 8);
  }

  lemma {:induction false} FcsFromConcat(fcs: word, s: seq<byte>, t: seq<byte>)
    ensures FcsFrom(fcs, s + t) == FcsFrom(FcsFrom(fcs, s), t)
    decreases |s|
  {
    hide FcsByte;
    if s == [] {
      assert s + t == t;
    } else {
      assert (s + t)[1..] == s[1..] + t;
      FcsFromConcat(FcsByte(fcs, s[0]), s[1..], t);
    }
  }

  // ---------- the residue ----------

  function Complement(x: word): word { x ^ 0xffff }

  lemma BitsOfOnes()
    ensures FcsBits(0xffff, 16) == FCS_GOOD
  {
    assert FcsBits(0xffff, 0) == 0xffff;
    BitIs(0, 0xffff, 0xfbf7);
    BitIs(1, 0xfbf7, 0xf9f3);
    BitIs(2, 0xf9f3, 0xf8f1);
    BitIs(3, 0xf8f1, 0xf870);
    BitIs(4, 0xf870, 0x7c38);
    BitIs(5, 0x7c38, 0x3e1c);
    BitIs(6, 0x3e1c, 0x1f0e);
    BitIs(7, 0x1f0e, 0x0f87);
    BitIs(8, 0x0f87, 0x83cb);
    BitIs(9, 0x83cb, 0xc5ed);
    BitIs(10, 0xc5ed, 0xe6fe);
    BitIs(11, 0xe6fe, 0x737f);
    BitIs(12, 0x737f, 0xbdb7);
    BitIs(13, 0xbdb7, 0xdad3);
    BitIs(14, 0xdad3, 0xe961);
    BitIs(15, 0xe961, 0xf0b8);
  }

  lemma BitIs(n: nat, x: word, y: word)
    requires FcsBits(0xffff, n) == x && FcsBit(x) == y
    ensures FcsBits(0xffff, n + 1) == y
  {}

  /** A body closes properly exactly if its last two bytes are the complemented check, low byte first. */
  lemma FcsResidue(body: seq<byte>, low: byte, high: byte)
    ensures Fcs(body + [low, high]) == FCS_GOOD <==> Join(high, low) == Complement(Fcs(body))
  {
    hide FcsBits, Xor, Join, Complement, FcsByte;
    FcsFromConcat(FCS_INITIAL, body, [low, high]);
    assert [low, high][1..] == [high] && [high][1..] == [];
    assert FcsFrom(FcsByte(Fcs(body), low), [high]) == FcsFrom(FcsByte(FcsByte(Fcs(body), low), high), []);
    assert FcsFrom(Fcs(body), [low, high]) == FcsByte(FcsByte(Fcs(body), low), high);
    FcsTwoBytes(Fcs(body), low, high);
    var x := Xor(Fcs(body), Join(high, low));
    BitsOfOnes();
    if FcsBits(x, 16) == FCS_GOOD { FcsBitsInjective(x, 0xffff, 16); }
    XorOnes(Fcs(body), Join(high, low));
  }

  lemma XorUndone(x: word, y: word)
    ensures Xor(x, Xor(x, y)) == y
  {}

  lemma XorOnes(x: word, y: word)
    ensures Xor(x, y) == 0xffff <==> y == Complement(x)
  {
    hide Xor;
    assert Complement(x) == Xor(x, 0xffff) by { ComplementIsXor(x); }
    XorUndone(x, y);
    XorUndone(x, 0xffff);
    hide Complement;
  }

  lemma ComplementIsXor(x: word)
    ensures Complement(x) == Xor(x, 0xffff)
  {}
}
