/** Serial line IP (RFC 1055): packets between END bytes, with END and ESC themselves escaped. */
module Slip {
  import opened Bytes
  import opened Streams

  const END: byte := 0xc0
  const ESC: byte := 0xdb
  const ESC_END: byte := 0xdc
  const ESC_ESC: byte := 0xdd

  // ---------- sending ----------

  function EscapedByte(b: byte): seq<byte>
  {
    if b == END then [ESC, ESC_END] else if b == ESC then [ESC, ESC_ESC] else [b]
  }

  function Escaped(packet: seq<byte>): seq<byte>
    decreases |packet|
  {
    if packet == [] then [] else Escaped(packet[..|packet| - 1]) + EscapedByte(packet[|packet| - 1])
  }

  function SlipFrame(packet: seq<byte>): seq<byte> { [END] + Escaped(packet) + [END] }

  method EncodeSlipFrame(payload: seq<byte>) returns (output: seq<byte>)
    ensures output == SlipFrame(payload)
  {
    output := [END];
    for index := 0 to |payload|
      invariant output == [END] + Escaped(payload[..index])
    {
      assert payload[..index + 1][..index] == payload[..index];
      var b := payload[index];
      if b == END {
        output := output + [ESC, ESC_END];
      } else if b == ESC {
        output := output + [ESC, ESC_ESC];
      } else {
        output := output + [b];
      }
    }
    assert payload[..|payload|] == payload;
    output := output + [END];
  }

  lemma {:induction false} EscapedConcat(s: seq<byte>, t: seq<byte>)
    ensures Escaped(s + t) == Escaped(s) + Escaped(t)
    decreases |t|
  {
    hide EscapedByte;
    if t == [] {
      assert s + t == s;
    } else {
      assert (s + t)[..|s + t| - 1] == s + t[..|t| - 1];
      EscapedConcat(s, t[..|t| - 1]);
    }
  }

  /** The bytes on the line: 0xc0 becomes 0xdb 0xdc and 0xdb becomes 0xdb 0xdd between two bytes 0xc0. */
  lemma EscapedOne(b: byte, packet: seq<byte>)
    ensures Escaped([b]) == if b == 0xc0 then [0xdb, 0xdc] else if b == 0xdb then [0xdb, 0xdd] else [b]
    ensures SlipFrame(packet) == [0xc0] + Escaped(packet) + [0xc0]
  {
    assert [b][..0] == [] && Escaped([]) == [];
    assert Escaped([b]) == Escaped([]) + EscapedByte(b);
  }

  // ---------- receiving ----------

  datatype Receiver = Receiver(frame: seq<byte>, escapePending: bool, dropping: bool)

  const IDLE := Receiver([], false, false)

  /** One byte arrives; the packets it completes are handed up. */
  function Step(mtu: nat, r: Receiver, value: byte): (Receiver, seq<seq<byte>>)
  {
    if value == END then (IDLE, if r.dropping || r.frame == [] then [] else [r.frame])
    else if r.dropping then (r, [])
    else if !r.escapePending && value == ESC then (r.(escapePending := true), [])
    else if |r.frame| >= mtu then (r.(escapePending := false, dropping := true), [])
    else (Receiver(r.frame + [Decode(r.escapePending, value)], false, false), [])
  }

  /** The byte that `value` stands for, behind an ESC or on its own. */
  function Decode(escaped: bool, value: byte): byte
  {
    if escaped && value == ESC_END then END else if escaped && value == ESC_ESC then ESC else value
  }

  function Receive(mtu: nat): Stepper<Receiver, seq<byte>> { (r, value) => Step(mtu, r, value) }

  class SlipConnection {
    const mtu: nat
    var connected: bool
    var frame: seq<byte>
    var escapePending: bool
    var droppingOversize: bool
    /** The packets handed to the network so far. */
    var transmitted: seq<seq<byte>>

    ghost function State(): Receiver
      reads this
    {
      Receiver(frame, escapePending, droppingOversize)
    }

    constructor (mtu: nat)
      ensures this.mtu == mtu && connected && State() == IDLE && transmitted == []
    {
      this.mtu, connected, frame, escapePending, droppingOversize, transmitted := mtu, true, [], false, false, [];
    }

    method Send(byteSent: byte)
      modifies this`frame, this`escapePending, this`droppingOversize, this`transmitted
      ensures var (after, handed) := Step(mtu, old(State()), byteSent);
              if connected then State() == after && transmitted == old(transmitted) + handed
              else State() == old(State()) && transmitted == old(transmitted)
    {
      if !connected { return; }
      var value := byteSent;
      if value == END {
        if droppingOversize {
          frame, droppingOversize, escapePending := [], false, false;
          return;
        }
        if frame != [] {
          transmitted := transmitted + [frame];
          frame := [];
        }
        escapePending := false;
        return;
      }
      if droppingOversize { return; }
      if escapePending {
        escapePending := false;
        value := if value == ESC_END then END else if value == ESC_ESC then ESC else value;
      } else if value == ESC {
        escapePending := true;
        return;
      }
      if |frame| >= mtu {
        droppingOversize := true;
        return;
      }
      frame := frame + [value];
    }
  }

  // ---------- what any string of bytes delivers ----------

  /** A stretch without END, unescaped; `pending` tells whether it ends in an open escape. */
  datatype Text = Text(bytes: seq<byte>, pending: bool)

  function Unescaped(s: seq<byte>): Text
    decreases |s|
  {
    if s == [] then Text([], false)
    else
      var before, last := Unescaped(s[..|s| - 1]), s[|s| - 1];
      if before.pending then
        Text(before.bytes + [Decode(true, last)], false)
      else if last == ESC then Text(before.bytes, true)
      else Text(before.bytes + [Decode(false, last)], false)
  }

  /** An escape in front of any other byte is just left out. */
  lemma OtherEscapes(s: seq<byte>, code: byte)
    requires !Unescaped(s).pending && code != 0xdc && code != 0xdd
    ensures Unescaped(s + [0xdb, code]) == Text(Unescaped(s).bytes + [code], false)
  {
    UnescapeTwo(s, code);
  }

  /** Packets that are delivered: neither empty nor too long. */
  function Wanted(mtu: nat, packet: seq<byte>): seq<seq<byte>>
  {
    if 1 <= |packet| <= mtu then [packet] else []
  }

  /** Cut at every END, unescape each part, and keep those that are wanted. */
  function Delivered(mtu: nat, s: seq<byte>): seq<seq<byte>>
    decreases |s|
  {
    if s == [] then []
    else
      var start := s[..|s| - 1];
      Delivered(mtu, start) + if s[|s| - 1] == END then Wanted(mtu, Unescaped(LastPart(END, start)).bytes) else []
  }

  /** What the receiver holds after an unescaped text. */
  function Holding(mtu: nat, t: Text): Receiver
  {
    if |t.bytes| <= mtu then Receiver(t.bytes, t.pending, false) else Receiver(t.bytes[..mtu], false, true)
  }

  /**
   The receiver is exactly the cutting, unescaping and filtering of the bytes it was sent, for any
   bytes at all; what it holds is the text since the last END, at most `mtu` bytes of it.
   */
  lemma {:induction false} FeedDelivers(mtu: nat, s: seq<byte>)
    ensures Feed(Receive(mtu), IDLE, s) == (Holding(mtu, Unescaped(LastPart(END, s))), Delivered(mtu, s))
    decreases |s|
  {
    if s != [] {
      var start, last := s[..|s| - 1], s[|s| - 1];
      FeedDelivers(mtu, start);
      var part := LastPart(END, start);
      assert (part + [last])[..|part|] == part;
      StepText(mtu, part, last);
    }
  }

  lemma StepText(mtu: nat, part: seq<byte>, last: byte)
    ensures Step(mtu, Holding(mtu, Unescaped(part)), last)
         == if last == END then (IDLE, Wanted(mtu, Unescaped(part).bytes))
            else (Holding(mtu, Unescaped(part + [last])), [])
  {
    hide Decode;
    assert (part + [last])[..|part|] == part;
    var t := Unescaped(part);
    if |t.bytes| >= mtu {
      assert (t.bytes + [Decode(t.pending, last)])[..mtu] == t.bytes[..mtu];
      assert |t.bytes| == mtu ==> t.bytes[..mtu] == t.bytes;
    }
  }

  /** The buffered frame never outgrows the limit. */
  lemma {:induction false} FrameIsBounded(mtu: nat, r: Receiver, s: seq<byte>)
    requires |r.frame| <= mtu
    ensures |Feed(Receive(mtu), r, s).0.frame| <= mtu
    decreases |s|
  {
    if s != [] { FrameIsBounded(mtu, r, s[..|s| - 1]); }
  }

  // ---------- round trip ----------

  lemma {:induction false} UnescapeEscaped(packet: seq<byte>)
    ensures Unescaped(Escaped(packet)) == Text(packet, false)
    ensures END !in Escaped(packet)
    decreases |packet|
  {
    hide EscapedByte, Unescaped;
    if packet == [] {
      UnescapeNothing();
    } else {
      var start, last := packet[..|packet| - 1], packet[|packet| - 1];
      UnescapeEscaped(start);
      UnescapeByte(Escaped(start), start, last);
      assert packet == start + [last];
    }
  }

  lemma UnescapeNothing()
    ensures Unescaped([]) == Text([], false)
  {}

  lemma UnescapeByte(text: seq<byte>, packet: seq<byte>, last: byte)
    requires Unescaped(text) == Text(packet, false)
    ensures Unescaped(text + EscapedByte(last)) == Text(packet + [last], false)
    ensures END !in EscapedByte(last)
  {
    if last == END {
      UnescapeTwo(text, ESC_END);
    } else if last == ESC {
      UnescapeTwo(text, ESC_ESC);
    } else {
      assert (text + [last])[..|text|] == text;
    }
  }

  lemma UnescapeTwo(text: seq<byte>, code: byte)
    requires !Unescaped(text).pending
    ensures Unescaped(text + [ESC, code]) == Text(Unescaped(text).bytes + [Decode(true, code)], false)
  {
    hide Decode;
    assert (text + [ESC, code])[..|text| + 1] == text + [ESC];
    assert (text + [ESC])[..|text|] == text;
  }

  lemma {:induction false} NoEndIsOnePart(s: seq<byte>)
    requires END !in s
    ensures LastPart(END, s) == s
    ensures forall mtu :: Delivered(mtu, s) == []
    decreases |s|
  {
    if s != [] { NoEndIsOnePart(s[..|s| - 1]); }
  }

  /** What a receiver gives up at the next END. */
  function Stale(r: Receiver): seq<seq<byte>> { if r.dropping || r.frame == [] then [] else [r.frame] }

  /**
   Whatever state the receiver is in, an encoded packet resynchronises it: behind what was left
   over, the packet itself is handed up if it has between 1 and `mtu` bytes and nothing otherwise,
   and the receiver is idle again.
   */
  lemma SlipRoundTrip(mtu: nat, r: Receiver, packet: seq<byte>)
    ensures Feed(Receive(mtu), r, SlipFrame(packet)) == (IDLE, Stale(r) + Wanted(mtu, packet))
  {
    hide Escaped, Holding, Unescaped, Delivered, LastPart;
    var text := Escaped(packet);
    assert SlipFrame(packet) == [END] + (text + [END]);
    FeedConcat(Receive(mtu), r, [END], text + [END]);
    assert Feed(Receive(mtu), r, [END]) == (IDLE, Stale(r)) by { FeedOne(Receive(mtu), r, END); }
    FeedConcat(Receive(mtu), IDLE, text, [END]);
    FeedDelivers(mtu, text);
    UnescapeEscaped(packet);
    NoEndIsOnePart(text);
    FeedOne(Receive(mtu), Holding(mtu, Text(packet, false)), END);
    HoldingEnds(mtu, packet);
  }

  lemma HoldingEnds(mtu: nat, packet: seq<byte>)
    ensures Step(mtu, Holding(mtu, Text(packet, false)), END) == (IDLE, Wanted(mtu, packet))
  {}

  function SlipFrames(packets: seq<seq<byte>>): seq<byte>
  {
    if packets == [] then [] else SlipFrame(packets[0]) + SlipFrames(packets[1..])
  }

  function AllWanted(mtu: nat, packets: seq<seq<byte>>): seq<seq<byte>>
  {
    if packets == [] then [] else Wanted(mtu, packets[0]) + AllWanted(mtu, packets[1..])
  }

  /** A stream of packets: each wanted one is handed up, in order; the others do not disturb them. */
  lemma {:induction false} SlipStream(mtu: nat, r: Receiver, packets: seq<seq<byte>>)
    requires packets != []
    ensures Feed(Receive(mtu), r, SlipFrames(packets)) == (IDLE, Stale(r) + AllWanted(mtu, packets))
    decreases |packets|
  {
    hide SlipFrame, Feed;
    var first, rest := packets[0], packets[1..];
    SlipRoundTrip(mtu, r, first);
    FeedConcat(Receive(mtu), r, SlipFrame(first), SlipFrames(rest));
    if rest == [] {
      assert SlipFrames(packets) == SlipFrame(first);
      assert AllWanted(mtu, packets) == Wanted(mtu, first);
    } else {
      SlipStream(mtu, IDLE, rest);
      assert Stale(IDLE) == [];
      assert Stale(r) + Wanted(mtu, first) + ([] + AllWanted(mtu, rest)) == Stale(r) + (Wanted(mtu, first) + AllWanted(mtu, rest));
    }
  }
}
