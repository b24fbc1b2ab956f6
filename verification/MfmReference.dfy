/**
 The MFM check as a remainder: most significant bits first, starting with the first byte.
 */
module MfmReference {
  import opened Bytes
  import opened MfmCheck
  import opened LongDivision

  /** Bit `i` of a word, the most significant bit first. */
  predicate WordBit(w: word, i: nat)
    requires i < 16
  {
    if i == 0 then w & 0x8000 != 0
    else if i == 1 then w & 0x4000 != 0
    else if i == 2 then w & 0x2000 != 0
    else if i == 3 then w & 0x1000 != 0
    else if i == 4 then w & 0x0800 != 0
    else if i == 5 then w & 0x0400 != 0
    else if i == 6 then w & 0x0200 != 0
    else if i == 7 then w & 0x0100 != 0
    else if i == 8 then w & 0x0080 != 0
    else if i == 9 then w & 0x0040 != 0
    else if i == 10 then w & 0x0020 != 0
    else if i == 11 then w & 0x0010 != 0
    else if i == 12 then w & 0x0008 != 0
    else if i == 13 then w & 0x0004 != 0
    else if i == 14 then w & 0x0002 != 0
    else w & 0x0001 != 0
  }

  predicate ByteBit(b: byte, i: nat)
    requires i < 8
  {
    if i == 0 then b & 0x80 != 0
    else if i == 1 then b & 0x40 != 0
    else if i == 2 then b & 0x20 != 0
    else if i == 3 then b & 0x10 != 0
    else if i == 4 then b & 0x08 != 0
    else if i == 5 then b & 0x04 != 0
    else if i == 6 then b & 0x02 != 0
    else b & 0x01 != 0
  }

  function WordBits(w: word): (s: Bits)
    ensures |s| == 16
  {
    seq(16, i requires 0 <= i < 16 => WordBit(w, i))
  }

  function ByteBits(b: byte): (s: Bits)
    ensures |s| == 8
  {
    seq(8, i requires 0 <= i < 8 => ByteBit(b, i))
  }

  function MessageBits(s: seq<byte>): Bits
    decreases |s|
  {
    if s == [] then [] else ByteBits(s[0]) + MessageBits(s[1..])
  }

  // ---------- bit by bit ----------

  lemma XorBit(x: word, y: word, i: nat)
    requires i < 16
    ensures WordBit(Xor(x, y), i) == (WordBit(x, i) != WordBit(y, i))
  {
    if i == 0 {} else if i == 1 {} else if i == 2 {} else if i == 3 {} else if i == 4 {}
    else if i == 5 {} else if i == 6 {} else if i == 7 {} else if i == 8 {} else if i == 9 {}
    else if i == 10 {} else if i == 11 {} else if i == 12 {} else if i == 13 {} else if i == 14 {}
  }

  lemma ShiftBit(x: word, i: nat)
    requires i < 16
    ensures WordBit(Double(x), i) == (i < 15 && WordBit(x, i + 1))
  {
    if i == 0 {} else if i == 1 {} else if i == 2 {} else if i == 3 {} else if i == 4 {}
    else if i == 5 {} else if i == 6 {} else if i == 7 {} else if i == 8 {} else if i == 9 {}
    else if i == 10 {} else if i == 11 {} else if i == 12 {} else if i == 13 {} else if i == 14 {}
  }

  lemma DivisorBit(i: nat)
    requires i < 16
    ensures WordBit(0x1021, i) == LOWER_TERMS[i]
  {
    if i == 0 {} else if i == 1 {} else if i == 2 {} else if i == 3 {} else if i == 4 {}
    else if i == 5 {} else if i == 6 {} else if i == 7 {} else if i == 8 {} else if i == 9 {}
    else if i == 10 {} else if i == 11 {} else if i == 12 {} else if i == 13 {} else if i == 14 {}
  }

  lemma PlacedBit(b: byte, i: nat)
    requires i < 16
    ensures WordBit(High(b), i) == (i < 8 && ByteBit(b, i))
  {
    if i == 0 {} else if i == 1 {} else if i == 2 {} else if i == 3 {} else if i == 4 {}
    else if i == 5 {} else if i == 6 {} else if i == 7 {} else if i == 8 {} else if i == 9 {}
    else if i == 10 {} else if i == 11 {} else if i == 12 {} else if i == 13 {} else if i == 14 {}
  }

  lemma FrontBit(x: word)
    ensures TopBit(x) == WordBit(x, 0)
  {}

  /** One step of the register is one turn of the division. */
  lemma StepIsClock(x: word)
    ensures WordBits(MfmBit(x)) == Clocked(WordBits(x))
  {
    hide WordBit, Xor, Double, TopBit;
    FrontBit(x);
    forall i: nat | i < 16
      ensures WordBit(MfmBit(x), i) == Clocked(WordBits(x))[i]
    {
      ShiftBit(x, i);
      XorBit(Double(x), 0x1021, i);
      DivisorBit(i);
    }
  }

  lemma {:induction false} StepsAreClocks(x: word, n: nat)
    ensures WordBits(MfmBits(x, n)) == ClockedTimes(WordBits(x), n)
    decreases n
  {
    hide MfmBit, WordBits, Clocked;
    if n > 0 {
      StepsAreClocks(x, n - 1);
      StepIsClock(MfmBits(x, n - 1));
    }
  }

  lemma ByteIsAdded(x: word, b: byte)
    ensures WordBits(Xor(x, High(b))) == Added(ByteBits(b), WordBits(x))
  {
    hide WordBit, ByteBit, Xor, High;
    forall i: nat | i < 16
      ensures WordBit(Xor(x, High(b)), i) == Added(ByteBits(b), WordBits(x))[i]
    {
      XorBit(x, High(b), i);
      PlacedBit(b, i);
    }
  }

  lemma {:induction false} RegisterDivides(crc: word, s: seq<byte>)
    ensures Divided(WordBits(crc), MessageBits(s)) == WordBits(MfmFrom(crc, s))
    decreases |s|
  {
    hide Divided, WordBits, ByteBits, ClockedTimes, MfmBits, Xor, High;
    if s == [] {
      DividedAtEnd(WordBits(crc));
    } else {
      ByteIsClocks(WordBits(crc), ByteBits(s[0]), MessageBits(s[1..]));
      ByteIsAdded(crc, s[0]);
      StepsAreClocks(Xor(crc, High(s[0])), 8);
      RegisterDivides(MfmByte(crc, s[0]), s[1..]);
    }
  }

  lemma StartBit(i: nat)
    requires i < 16
    ensures WordBit(MFM_INITIAL, i)
  {}

  lemma StartIsOnes()
    ensures WordBits(MFM_INITIAL) == Ones()
  {
    hide WordBit;
    forall i: nat | i < 16
      ensures WordBits(MFM_INITIAL)[i] == Ones()[i]
    {
      StartBit(i);
    }
  }

  /** The check of any string of bytes is the remainder of the division, bit for bit. */
  lemma CheckIsRemainder(s: seq<byte>)
    ensures WordBits(MfmCrc(s)) == Check(MessageBits(s))
  {
    hide WordBits, MessageBits, Check, Divided, MfmFrom;
    StartIsOnes();
    CheckIsDivided(MessageBits(s));
    RegisterDivides(MFM_INITIAL, s);
  }

  lemma Next(crc: word, b: byte, rest: seq<byte>)
    ensures MfmFrom(crc, [b] + rest) == MfmFrom(MfmByte(crc, b), rest)
  {
    hide MfmByte;
    assert ([b] + rest)[1..] == rest;
  }

  lemma Step1()
    ensures MfmByte(0xffff, 0xa1) == 0x443b
  {}

  lemma Step2()
    ensures MfmByte(0x443b, 0xa1) == 0x968b
  {}

  lemma Step3()
    ensures MfmByte(0x968b, 0xa1) == 0xcdb4
  {}

  lemma Step4()
    ensures MfmByte(0xcdb4, 0xfe) == 0xb230
  {}

  lemma Step5()
    ensures MfmByte(0xb230, 0x00) == 0xb799
  {}

  lemma Step6()
    ensures MfmByte(0xb799, 0x00) == 0x4e3c
  {}

  lemma Step7()
    ensures MfmByte(0x4e3c, 0x01) == 0x852b
  {}

  lemma Step8()
    ensures MfmByte(0x852b, 0x02) == 0xca6f
  {}

  lemma FirstHalf()
    ensures MfmFrom(0xffff, [0xa1, 0xa1, 0xa1, 0xfe]) == 0xb230
  {
    hide MfmByte;
    assert [0xa1, 0xa1, 0xa1, 0xfe] == [0xa1] + [0xa1, 0xa1, 0xfe];
    Next(0xffff, 0xa1, [0xa1, 0xa1, 0xfe]);
    Step1();
    assert [0xa1, 0xa1, 0xfe] == [0xa1] + [0xa1, 0xfe];
    Next(0x443b, 0xa1, [0xa1, 0xfe]);
    Step2();
    assert [0xa1, 0xfe] == [0xa1] + [0xfe];
    Next(0x968b, 0xa1, [0xfe]);
    Step3();
    assert [0xfe] == [0xfe] + [];
    Next(0xcdb4, 0xfe, []);
    Step4();
  }

  lemma LastHalf()
    ensures MfmFrom(0xb230, [0x00, 0x00, 0x01, 0x02]) == 0xca6f
  {
    hide MfmByte;
    assert [0x00, 0x00, 0x01, 0x02] == [0x00] + [0x00, 0x01, 0x02];
    Next(0xb230, 0x00, [0x00, 0x01, 0x02]);
    Step5();
    assert [0x00, 0x01, 0x02] == [0x00] + [0x01, 0x02];
    Next(0xb799, 0x00, [0x01, 0x02]);
    Step6();
    assert [0x01, 0x02] == [0x01] + [0x02];
    Next(0x4e3c, 0x01, [0x02]);
    Step7();
    assert [0x02] == [0x02] + [];
    Next(0x852b, 0x02, []);
    Step8();
  }

  /** The check of the ID field of track 0, side 0, sector 1. */
  lemma FirstIdField()
    ensures MfmCrc([0xa1, 0xa1, 0xa1, 0xfe, 0x00, 0x00, 0x01, 0x02]) == 0xca6f
  {
    hide MfmFrom, MfmByte;
    var s: seq<byte> := [0xa1, 0xa1, 0xa1, 0xfe, 0x00, 0x00, 0x01, 0x02];
    assert s == [0xa1, 0xa1, 0xa1, 0xfe] + [0x00, 0x00, 0x01, 0x02];
    FirstHalf();
    LastHalf();
    MfmFromConcat(MFM_INITIAL, [0xa1, 0xa1, 0xa1, 0xfe], [0x00, 0x00, 0x01, 0x02]);
  }
}
