/**
 Cyclic checks as what they are: remainders. A string of bits is a polynomial over two elements, its
 first bit the highest power, and a check is the remainder of dividing the message, with sixteen
 zeros behind it and its first sixteen bits complemented, by x^16 + x^12 + x^5 + 1.
 */
module LongDivision {
  type Bits = seq<bool>

  /** x^16 + x^12 + x^5 + 1 without its first term. */
  const LOWER_TERMS: Bits :=
    [false, false, false, true, false, false, false, false, false, false, true, false, false, false, false, true]

  function Zeros(count: nat): (s: Bits)
    ensures |s| == count
  {
    seq(count, _ => false)
  }

  /** `front` added to the first bits of `s`. */
  function Added(front: Bits, s: Bits): (r: Bits)
    requires |front| <= |s|
    ensures |r| == |s|
  {
    seq(|s|, i requires 0 <= i < |s| => if i < |front| then front[i] != s[i] else s[i])
  }

  /** Long division, one bit at a time: a leading one is taken off with the divisor, a leading zero is dropped. */
  function Remainder16(s: Bits): (r: Bits)
    ensures |r| == if |s| < 16 then |s| else 16
    decreases |s|
  {
    if |s| <= 16 then s
    else if s[0] then Remainder16(Added(LOWER_TERMS, s[1..]))
    else Remainder16(s[1..])
  }

  function Complemented(s: Bits): Bits
    requires |s| >= 16
  {
    seq(|s|, i requires 0 <= i < |s| => if i < 16 then !s[i] else s[i])
  }

  /** The check of a message. */
  function Check(message: Bits): (r: Bits)
    ensures |r| == 16
  {
    Remainder16(Complemented(message + Zeros(16)))
  }

  // ---------- the shift register ----------

  /** A register after one bit of zeros: shifted, and what falls out of the front is fed back. */
  function Clocked(register: Bits): (r: Bits)
    requires |register| == 16
    ensures |r| == 16
  {
    var shifted := register[1..] + [false];
    if register[0] then Added(LOWER_TERMS, shifted) else shifted
  }

  function ClockedTimes(register: Bits, n: nat): (r: Bits)
    requires |register| == 16
    ensures |r| == 16
    decreases n
  {
    if n == 0 then register else Clocked(ClockedTimes(register, n - 1))
  }

  /** A register and the bits still to come, divided. */
  function Divided(register: Bits, rest: Bits): Bits
    requires |register| == 16
  {
    Remainder16(Added(register, rest + Zeros(16)))
  }

  lemma DividedAtEnd(register: Bits)
    requires |register| == 16
    ensures Divided(register, []) == register
  {
    assert Added(register, [] + Zeros(16)) == register;
  }

  /** A zero to come is one turn of the register. */
  lemma ZeroIsClock(register: Bits, rest: Bits)
    requires |register| == 16
    ensures Divided(register, [false] + rest) == Divided(Clocked(register), rest)
  {
    var s := Added(register, [false] + rest + Zeros(16));
    assert |s| > 16 && s[0] == register[0];
    var next := Added(Clocked(register), rest + Zeros(16));
    assert ([false] + rest + Zeros(16))[1..] == rest + Zeros(16);
    assert register[0] ==> Added(LOWER_TERMS, s[1..]) == next;
    assert !register[0] ==> s[1..] == next;
  }

  lemma {:induction false} ZerosAreClocks(register: Bits, n: nat, rest: Bits)
    requires |register| == 16
    ensures Divided(register, Zeros(n) + rest) == Divided(ClockedTimes(register, n), rest)
    decreases n
  {
    hide Divided, Clocked;
    if n == 0 {
      assert Zeros(0) + rest == rest;
    } else {
      assert Zeros(n) + rest == Zeros(n - 1) + ([false] + rest);
      ZerosAreClocks(register, n - 1, [false] + rest);
      ZeroIsClock(ClockedTimes(register, n - 1), rest);
    }
  }

  /** Bits to come may as well be added to the register beforehand. */
  lemma BitsIntoRegister(register: Bits, byteBits: Bits, rest: Bits)
    requires |register| == 16 && |byteBits| == 8
    ensures Divided(register, byteBits + rest) == Divided(Added(byteBits, register), Zeros(8) + rest)
  {
    assert Added(register, byteBits + rest + Zeros(16)) == Added(Added(byteBits, register), Zeros(8) + rest + Zeros(16));
  }

  /** So a byte of the message is an addition and eight turns. */
  lemma ByteIsClocks(register: Bits, byteBits: Bits, rest: Bits)
    requires |register| == 16 && |byteBits| == 8
    ensures Divided(register, byteBits + rest) == Divided(ClockedTimes(Added(byteBits, register), 8), rest)
  {
    BitsIntoRegister(register, byteBits, rest);
    ZerosAreClocks(Added(byteBits, register), 8, rest);
  }

  function Ones(): (s: Bits)
    ensures |s| == 16
  {
    seq(16, _ => true)
  }

  /** Starting with ones is complementing the first sixteen bits. */
  lemma CheckIsDivided(message: Bits)
    ensures Check(message) == Divided(Ones(), message)
  {
    assert Complemented(message + Zeros(16)) == Added(Ones(), message + Zeros(16));
  }
}
