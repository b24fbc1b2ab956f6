/** Bytes, byte strings and the few operations on them that every module uses. */
module Bytes {
  type byte = bv8
  type word = bv16

  /** The four bytes of an IPv4 address. */
  type IpAddress = s: seq<byte> | |s| == 4 witness [0, 0, 0, 0]

  datatype Option<+T> = None | Some(value: T)

  function Repeat(value: byte, count: nat): (s: seq<byte>)
    ensures |s| == count
    ensures forall i :: 0 <= i < count ==> s[i] == value
  {
    seq(count, i => value)
  }

  /** All the bytes of a stretch are the same. */
  predicate All(s: seq<byte>, value: byte) { forall i :: 0 <= i < |s| ==> s[i] == value }

  lemma AllRepeated(value: byte, count: nat)
    ensures All(Repeat(value, count), value)
  {}

  /** The part of `s` that starts at `from` and has at most `length` elements. */
  function Mid<T>(s: seq<T>, from: nat, length: nat): (r: seq<T>)
    ensures from + length <= |s| ==> |r| == length && r == s[from..from + length]
  {
    if |s| <= from then []
    else if |s| - from <= length then s[from..]
    else s[from..from + length]
  }

  function HighByte(w: word): byte { ((w >> 8) & 0xff) as byte }

  function LowByte(w: word): byte { (w & 0xff) as byte }

  function Join(high: byte, low: byte): word { (high as word << 8) | low as word }

  function Number(b: byte): (n: nat)
    ensures n < 256
  {
    b as nat
  }

  /** The byte with a given number. */
  function ByteOf(n: nat): (b: byte)
    requires n < 256
    ensures Number(b) == n
  {
    if n == 0 then 0
    else
      NextNumber(ByteOf(n - 1));
      ByteOf(n - 1) + 1
  }

  lemma NextNumber(b: byte)
    ensures Number(b) < 255 ==> Number(b + 1) == Number(b) + 1
  {}

  lemma SameNumber(b: byte, c: byte)
    ensures Number(b) == Number(c) ==> b == c
  {}

  lemma JoinSplit(w: word)
    ensures Join(HighByte(w), LowByte(w)) == w
  {}

  lemma SplitJoin(high: byte, low: byte)
    ensures HighByte(Join(high, low)) == high && LowByte(Join(high, low)) == low
  {}

  lemma ConcatSlices<T>(s: seq<T>, t: seq<T>)
    ensures (s + t)[..|s|] == s
    ensures (s + t)[|s|..] == t
  {}

  function Join32(a: byte, b: byte, c: byte, d: byte): bv32
  {
    (a as bv32 << 24) | (b as bv32 << 16) | (c as bv32 << 8) | d as bv32
  }

  function Split32(value: bv32): (s: seq<byte>)
    ensures |s| == 4
  {
    [((value >> 24) & 0xff) as byte, ((value >> 16) & 0xff) as byte, ((value >> 8) & 0xff) as byte, (value & 0xff) as byte]
  }

  lemma JoinSplit32(value: bv32)
    ensures var s := Split32(value); Join32(s[0], s[1], s[2], s[3]) == value
  {}

  lemma Remainder(o: nat, length: nat, m: nat, rem: nat)
    requires 0 < length && rem < length && o == length * m + rem
    ensures o % length == rem
  {
    var q, r := o / length, o % length;
    assert o == length * q + r;
    if q < m {
      Multiples(length, q + 1, m);
      assert false;
    } else if m < q {
      Multiples(length, m + 1, q);
      assert false;
    }
  }

  lemma Multiples(x: nat, y: nat, z: nat)
    requires y <= z
    ensures x * y <= x * z
  {}
}
