/**
 The frame check of PPP as a remainder: least significant bits first, starting with the first byte.
 */
module PppReference {
  import opened Bytes
  import opened PppCheck
  import opened LongDivision

  /** Bit `i` of a word, the least significant bit first. */
  predicate WordBit(w: word, i: nat)
    requires i < 16
  {
    if i == 0 then w & 0x0001 != 0
    else if i == 1 then w & 0x0002 != 0
    else if i == 2 then w & 0x0004 != 0
    else if i == 3 then w & 0x0008 != 0
    else if i == 4 then w & 0x0010 != 0
    else if i == 5 then w & 0x0020 != 0
    else if i == 6 then w & 0x0040 != 0
    else if i == 7 then w & 0x0080 != 0
    else if i == 8 then w & 0x0100 != 0
    else if i == 9 then w & 0x0200 != 0
    else if i == 10 then w & 0x0400 != 0
    else if i == 11 then w & 0x0800 != 0
    else if i == 12 then w & 0x1000 != 0
    else if i == 13 then w & 0x2000 != 0
    else if i == 14 then w & 0x4000 != 0
    else w & 0x8000 != 0
  }

  predicate ByteBit(b: byte, i: nat)
    requires i < 8
  {
    if i == 0 then b & 0x01 != 0
    else if i == 1 then b & 0x02 != 0
    else if i == 2 then b & 0x04 != 0
    else if i == 3 then b & 0x08 != 0
    else if i == 4 then b & 0x10 != 0
    else if i == 5 then b & 0x20 != 0
    else if i == 6 then b & 0x40 != 0
    else b & 0x80 != 0
  }

  function WordBits(w: word): (s: Bits)
    ensures |s| == 16
  {
    seq(16, i requires 0 <= i < 16 => WordBit(w, i))
  }

  function ByteBits(b: byte): (s: Bits)
    ensures |s| == 8
  {
    seq(8, i requires 0 <= i < 8 => ByteBit(b, i))
  }

  function MessageBits(s: seq<byte>): Bits
    decreases |s|
  {
    if s == [] then [] else ByteBits(s[0]) + MessageBits(s[1..])
  }

  // ---------- bit by bit ----------

  lemma XorBit(x: word, y: word, i: nat)
    requires i < 16
    ensures WordBit(Xor(x, y), i) == (WordBit(x, i) != WordBit(y, i))
  {
    if i == 0 {} else if i == 1 {} else if i == 2 {} else if i == 3 {} else if i == 4 {}
    else if i == 5 {} else if i == 6 {} else if i == 7 {} else if i == 8 {} else if i == 9 {}
    else if i == 10 {} else if i == 11 {} else if i == 12 {} else if i == 13 {} else if i == 14 {}
  }

  lemma ShiftBit(x: word, i: nat)
    requires i < 16
    ensures WordBit(Halve(x), i) == (i < 15 && WordBit(x, i + 1))
  {
    if i == 0 {} else if i == 1 {} else if i == 2 {} else if i == 3 {} else if i == 4 {}
    else if i == 5 {} else if i == 6 {} else if i == 7 {} else if i == 8 {} else if i == 9 {}
    else if i == 10 {} else if i == 11 {} else if i == 12 {} else if i == 13 {} else if i == 14 {}
  }

  lemma DivisorBit(i: nat)
    requires i < 16
    ensures WordBit(0x8408, i) == LOWER_TERMS[i]
  {
    if i == 0 {} else if i == 1 {} else if i == 2 {} else if i == 3 {} else if i == 4 {}
    else if i == 5 {} else if i == 6 {} else if i == 7 {} else if i == 8 {} else if i == 9 {}
    else if i == 10 {} else if i == 11 {} else if i == 12 {} else if i == 13 {} else if i == 14 {}
  }

  lemma PlacedBit(b: byte, i: nat)
    requires i < 16
    ensures WordBit(Low(b), i) == (i < 8 && ByteBit(b, i))
  {
    if i == 0 {} else if i == 1 {} else if i == 2 {} else if i == 3 {} else if i == 4 {}
    else if i == 5 {} else if i == 6 {} else if i == 7 {} else if i == 8 {} else if i == 9 {}
    else if i == 10 {} else if i == 11 {} else if i == 12 {} else if i == 13 {} else if i == 14 {}
  }

  lemma FrontBit(x: word)
    ensures LowBit(x) == WordBit(x, 0)
  {}

  /** One step of the register is one turn of the division. */
  lemma StepIsClock(x: word)
    ensures WordBits(FcsBit(x)) == Clocked(WordBits(x))
  {
    hide WordBit, Xor, Halve, LowBit;
    FrontBit(x);
    forall i: nat | i < 16
      ensures WordBit(FcsBit(x), i) == Clocked(WordBits(x))[i]
    {
      ShiftBit(x, i);
      XorBit(Halve(x), 0x8408, i);
      DivisorBit(i);
    }
  }

  lemma {:induction false} StepsAreClocks(x: word, n: nat)
    ensures WordBits(FcsBits(x, n)) == ClockedTimes(WordBits(x), n)
    decreases n
  {
    hide FcsBit, WordBits, Clocked;
    if n > 0 {
      StepsAreClocks(x, n - 1);
      StepIsClock(FcsBits(x, n - 1));
    }
  }

  lemma ByteIsAdded(x: word, b: byte)
    ensures WordBits(Xor(x, Low(b))) == Added(ByteBits(b), WordBits(x))
  {
    hide WordBit, ByteBit, Xor, Low;
    forall i: nat | i < 16
      ensures WordBit(Xor(x, Low(b)), i) == Added(ByteBits(b), WordBits(x))[i]
    {
      XorBit(x, Low(b), i);
      PlacedBit(b, i);
    }
  }

  lemma {:induction false} RegisterDivides(crc: word, s: seq<byte>)
    ensures Divided(WordBits(crc), MessageBits(s)) == WordBits(FcsFrom(crc, s))
    decreases |s|
  {
    hide Divided, WordBits, ByteBits, ClockedTimes, FcsBits, Xor, Low;
    if s == [] {
      DividedAtEnd(WordBits(crc));
    } else {
      ByteIsClocks(WordBits(crc), ByteBits(s[0]), MessageBits(s[1..]));
      ByteIsAdded(crc, s[0]);
      StepsAreClocks(Xor(crc, Low(s[0])), 8);
      RegisterDivides(FcsByte(crc, s[0]), s[1..]);
    }
  }

  lemma StartBit(i: nat)
    requires i < 16
    ensures WordBit(FCS_INITIAL, i)
  {}

  lemma StartIsOnes()
    ensures WordBits(FCS_INITIAL) == Ones()
  {
    hide WordBit;
    forall i: nat | i < 16
      ensures WordBits(FCS_INITIAL)[i] == Ones()[i]
    {
      StartBit(i);
    }
  }

  /** The check of any string of bytes is the remainder of the division, bit for bit. */
  lemma CheckIsRemainder(s: seq<byte>)
    ensures WordBits(Fcs(s)) == Check(MessageBits(s))
  {
    hide WordBits, MessageBits, Check, Divided, FcsFrom;
    StartIsOnes();
    CheckIsDivided(MessageBits(s));
    RegisterDivides(FCS_INITIAL, s);
  }

  lemma Next(crc: word, b: byte, rest: seq<byte>)
    ensures FcsFrom(crc, [b] + rest) == FcsFrom(FcsByte(crc, b), rest)
  {
    hide FcsByte;
    assert ([b] + rest)[1..] == rest;
  }

  lemma Step1()
    ensures FcsByte(0xffff, 0x31) == 0x2f8d
  {}

  lemma Step2()
    ensures FcsByte(0x2f8d, 0x32) == 0x4d53
  {}

  lemma Step3()
    ensures FcsByte(0x4d53, 0x33) == 0x634b
  {}

  lemma Step4()
    ensures FcsByte(0x634b, 0x34) == 0x8b13
  {}

  lemma Step5()
    ensures FcsByte(0x8b13, 0x35) == 0x44bf
  {}

  lemma Step6()
    ensures FcsByte(0x44bf, 0x36) == 0x198d
  {}

  lemma Step7()
    ensures FcsByte(0x198d, 0x37) == 0x1ac8
  {}

  lemma Step8()
    ensures FcsByte(0x1ac8, 0x38) == 0xf795
  {}

  lemma Step9()
    ensures FcsByte(0xf795, 0x39) == 0x6f91
  {}

  lemma FirstFive()
    ensures FcsFrom(0xffff, [0x31, 0x32, 0x33, 0x34, 0x35]) == 0x44bf
  {
    hide FcsByte;
    assert [0x31, 0x32, 0x33, 0x34, 0x35] == [0x31] + [0x32, 0x33, 0x34, 0x35];
    Next(0xffff, 0x31, [0x32, 0x33, 0x34, 0x35]);
    Step1();
    assert [0x32, 0x33, 0x34, 0x35] == [0x32] + [0x33, 0x34, 0x35];
    Next(0x2f8d, 0x32, [0x33, 0x34, 0x35]);
    Step2();
    assert [0x33, 0x34, 0x35] == [0x33] + [0x34, 0x35];
    Next(0x4d53, 0x33, [0x34, 0x35]);
    Step3();
    assert [0x34, 0x35] == [0x34] + [0x35];
    Next(0x634b, 0x34, [0x35]);
    Step4();
    assert [0x35] == [0x35] + [];
    Next(0x8b13, 0x35, []);
    Step5();
  }

  lemma LastFour()
    ensures FcsFrom(0x44bf, [0x36, 0x37, 0x38, 0x39]) == 0x6f91
  {
    hide FcsByte;
    assert [0x36, 0x37, 0x38, 0x39] == [0x36] + [0x37, 0x38, 0x39];
    Next(0x44bf, 0x36, [0x37, 0x38, 0x39]);
    Step6();
    assert [0x37, 0x38, 0x39] == [0x37] + [0x38, 0x39];
    Next(0x198d, 0x37, [0x38, 0x39]);
    Step7();
    assert [0x38, 0x39] == [0x38] + [0x39];
    Next(0x1ac8, 0x38, [0x39]);
    Step8();
    assert [0x39] == [0x39] + [];
    Next(0xf795, 0x39, []);
    Step9();
  }

  /** The frame check of the nine digits from 1 to 9, as it is computed and as it is sent. */
  lemma NineDigits()
    ensures var fcs := Fcs([0x31, 0x32, 0x33, 0x34, 0x35, 0x36, 0x37, 0x38, 0x39]);
            fcs == 0x6f91 && Complement(fcs) == 0x906e
  {
    hide FcsFrom, FcsByte;
    var s: seq<byte> := [0x31, 0x32, 0x33, 0x34, 0x35, 0x36, 0x37, 0x38, 0x39];
    assert s == [0x31, 0x32, 0x33, 0x34, 0x35] + [0x36, 0x37, 0x38, 0x39];
    FirstFive();
    LastFour();
    FcsFromConcat(FCS_INITIAL, [0x31, 0x32, 0x33, 0x34, 0x35], [0x36, 0x37, 0x38, 0x39]);
  }
}
