/** PPP in HDLC-like framing (RFC 1662): flags, byte stuffing and the frame check. */
module PppFraming {
  import opened Bytes
  import opened Streams
  import opened PppCheck

  const FLAG: byte := 0x7e
  const ESCAPE: byte := 0x7d

  // ---------- sending ----------

  predicate NeedsEscape(b: byte) { b == FLAG || b == ESCAPE || b < 0x20 }

  function Flip(b: byte): byte { b ^ 0x20 }

  function StuffedByte(b: byte): seq<byte> { if NeedsEscape(b) then [ESCAPE, Flip(b)] else [b] }

  function Stuffed(s: seq<byte>): seq<byte>
    decreases |s|
  {
    if s == [] then [] else Stuffed(s[..|s| - 1]) + StuffedByte(s[|s| - 1])
  }

  /** Address, control and protocol in front of the payload. */
  function Body(protocol: word, payload: seq<byte>): (s: seq<byte>)
    ensures |s| == |payload| + 4
  {
    [0xff, 0x03, HighByte(protocol), LowByte(protocol)] + payload
  }

  /** The complemented check behind a body, low byte first. */
  function Closed(body: seq<byte>): (s: seq<byte>)
    ensures |s| == |body| + 2
  {
    body + [LowByte(Complement(Fcs(body))), HighByte(Complement(Fcs(body)))]
  }

  function PppFrame(protocol: word, payload: seq<byte>): seq<byte>
  {
    [FLAG] + Stuffed(Closed(Body(protocol, payload))) + [FLAG]
  }

  method EncodePppFrame(protocol: word, payload: seq<byte>) returns (frame: seq<byte>)
    ensures frame == PppFrame(protocol, payload)
  {
    hide Fcs, Complement, NeedsEscape, Flip, HighByte, LowByte;
    var body := [0xff, 0x03] + [HighByte(protocol), LowByte(protocol)] + payload;
    assert body == Body(protocol, payload);
    var fcs := ComputeFcs(body);
    body := body + [LowByte(Complement(fcs))] + [HighByte(Complement(fcs))];
    assert body == Closed(Body(protocol, payload));
    frame := [FLAG];
    for i := 0 to |body|
      invariant frame == [FLAG] + Stuffed(body[..i])
    {
      assert body[..i + 1][..i] == body[..i];
      var b := body[i];
      if NeedsEscape(b) {
        frame := frame + [ESCAPE, Flip(b)];
      } else {
        frame := frame + [b];
      }
    }
    assert body[..|body|] == body;
    frame := frame + [FLAG];
  }

  // ---------- receiving ----------

  datatype Receiver = Receiver(frame: seq<byte>, escapePending: bool)

  const IDLE := Receiver([], false)

  /** Bytes beyond the limit are dropped. */
  function Appended(mtu: nat, frame: seq<byte>, value: byte): seq<byte>
  {
    if |frame| <= mtu + 16 then frame + [value] else frame
  }

  /** One byte arrives; a flag completes the frame, if there is one. */
  function Step(mtu: nat, r: Receiver, value: byte): (Receiver, seq<seq<byte>>)
  {
    if value == FLAG then (IDLE, if r.frame == [] then [] else [r.frame])
    else if r.escapePending then (Receiver(Appended(mtu, r.frame, Flip(value)), false), [])
    else if value == ESCAPE then (r.(escapePending := true), [])
    else (r.(frame := Appended(mtu, r.frame, value)), [])
  }

  function Receive(mtu: nat): Stepper<Receiver, seq<byte>> { (r, value) => Step(mtu, r, value) }

  datatype Message = Message(protocol: word, payload: seq<byte>)

  /** What a completed frame carries, if its check holds and it is long enough for a protocol number. */
  function Dispatched(raw: seq<byte>): Option<Message>
  {
    if |raw| < 4 || Fcs(raw) != FCS_GOOD then None
    else
      var offset := if raw[0] == 0xff && raw[1] == 0x03 then 2 else 0;
      if offset >= |raw| - 2 then None
      else if raw[offset] & 1 != 0 then Some(Message(raw[offset] as word, raw[offset + 1..|raw| - 2]))
      else if offset + 1 >= |raw| - 2 then None
      else Some(Message(Join(raw[offset], raw[offset + 1]), raw[offset + 2..|raw| - 2]))
  }

  // ---------- what any string of bytes delivers ----------

  datatype Text = Text(bytes: seq<byte>, pending: bool)

  function Unstuffed(s: seq<byte>): Text
    decreases |s|
  {
    if s == [] then Text([], false)
    else
      var before, last := Unstuffed(s[..|s| - 1]), s[|s| - 1];
      if before.pending then Text(before.bytes + [Flip(last)], false)
      else if last == ESCAPE then Text(before.bytes, true)
      else Text(before.bytes + [last], false)
  }

  function Truncated(mtu: nat, s: seq<byte>): seq<byte> { if |s| <= mtu + 17 then s else s[..mtu + 17] }

  function NonEmpty(frame: seq<byte>): seq<seq<byte>> { if frame == [] then [] else [frame] }

  /** Cut at every flag, unstuff each part, cut it to the limit, and keep what is not empty. */
  function Frames(mtu: nat, s: seq<byte>): seq<seq<byte>>
    decreases |s|
  {
    if s == [] then []
    else
      var start := s[..|s| - 1];
      Frames(mtu, start) + if s[|s| - 1] == FLAG then NonEmpty(Truncated(mtu, Unstuffed(LastPart(FLAG, start)).bytes)) else []
  }

  function Holding(mtu: nat, t: Text): Receiver { Receiver(Truncated(mtu, t.bytes), t.pending) }

  /** The receiver is exactly the cutting and unstuffing of the bytes it was sent, for any bytes at all. */
  lemma {:induction false} FeedFrames(mtu: nat, s: seq<byte>)
    ensures Feed(Receive(mtu), IDLE, s) == (Holding(mtu, Unstuffed(LastPart(FLAG, s))), Frames(mtu, s))
    decreases |s|
  {
    if s != [] {
      var start, last := s[..|s| - 1], s[|s| - 1];
      FeedFrames(mtu, start);
      var part := LastPart(FLAG, start);
      assert (part + [last])[..|part|] == part;
      StepText(mtu, part, last);
    }
  }

  lemma AppendTruncated(mtu: nat, s: seq<byte>, value: byte)
    ensures Appended(mtu, Truncated(mtu, s), value) == Truncated(mtu, s + [value])
  {
    if |s| >= mtu + 17 {
      assert (s + [value])[..mtu + 17] == s[..mtu + 17];
      assert |s| == mtu + 17 ==> s[..mtu + 17] == s;
    }
  }

  lemma StepText(mtu: nat, part: seq<byte>, last: byte)
    ensures Step(mtu, Holding(mtu, Unstuffed(part)), last)
         == if last == FLAG then (IDLE, NonEmpty(Truncated(mtu, Unstuffed(part).bytes)))
            else (Holding(mtu, Unstuffed(part + [last])), [])
  {
    hide Flip, Truncated, Appended;
    assert (part + [last])[..|part|] == part;
    AppendTruncated(mtu, Unstuffed(part).bytes, last);
    AppendTruncated(mtu, Unstuffed(part).bytes, Flip(last));
  }

  /** No frame, complete or not, is longer than the limit. */
  lemma {:induction false} FrameIsBounded(mtu: nat, r: Receiver, s: seq<byte>)
    requires |r.frame| <= mtu + 17
    ensures |Feed(Receive(mtu), r, s).0.frame| <= mtu + 17
    ensures forall i :: 0 <= i < |Feed(Receive(mtu), r, s).1| ==> |Feed(Receive(mtu), r, s).1[i]| <= mtu + 17
    decreases |s|
  {
    if s != [] { FrameIsBounded(mtu, r, s[..|s| - 1]); }
  }

  // ---------- round trip ----------

  lemma FlipTwice(b: byte)
    ensures Flip(Flip(b)) == b
    ensures NeedsEscape(b) ==> Flip(b) != FLAG
  {}

  lemma PlainBytes(b: byte)
    ensures !NeedsEscape(b) ==> b != FLAG && b != ESCAPE
  {}

  lemma {:induction false} UnstuffStuffed(s: seq<byte>)
    ensures Unstuffed(Stuffed(s)) == Text(s, false)
    ensures FLAG !in Stuffed(s)
    decreases |s|
  {
    hide Unstuffed, StuffedByte;
    if s == [] {
      UnstuffNothing();
    } else {
      var start, last := s[..|s| - 1], s[|s| - 1];
      UnstuffStuffed(start);
      UnstuffByte(Stuffed(start), start, last);
      assert s == start + [last];
    }
  }

  lemma UnstuffNothing()
    ensures Unstuffed([]) == Text([], false)
  {}

  lemma UnstuffByte(text: seq<byte>, s: seq<byte>, last: byte)
    requires Unstuffed(text) == Text(s, false)
    ensures Unstuffed(text + StuffedByte(last)) == Text(s + [last], false)
    ensures FLAG !in StuffedByte(last)
  {
    FlipTwice(last);
    PlainBytes(last);
    hide Flip, NeedsEscape;
    if NeedsEscape(last) {
      assert (text + [ESCAPE, Flip(last)])[..|text| + 1] == text + [ESCAPE];
      assert (text + [ESCAPE])[..|text|] == text;
    } else {
      assert (text + [last])[..|text|] == text;
    }
  }

  lemma {:induction false} NoFlagIsOnePart(s: seq<byte>)
    requires FLAG !in s
    ensures LastPart(FLAG, s) == s
    ensures forall mtu :: Frames(mtu, s) == []
    decreases |s|
  {
    if s != [] { NoFlagIsOnePart(s[..|s| - 1]); }
  }

  /** A stuffed body between flags completes that body, cut to the limit, behind what was left over. */
  lemma FrameArrives(mtu: nat, r: Receiver, body: seq<byte>)
    ensures Feed(Receive(mtu), r, [FLAG] + Stuffed(body) + [FLAG]) == (IDLE, NonEmpty(r.frame) + NonEmpty(Truncated(mtu, body)))
  {
    hide Stuffed, Unstuffed, Frames, LastPart, Truncated;
    var text := Stuffed(body);
    assert [FLAG] + text + [FLAG] == [FLAG] + (text + [FLAG]);
    FeedConcat(Receive(mtu), r, [FLAG], text + [FLAG]);
    FeedOne(Receive(mtu), r, FLAG);
    FeedConcat(Receive(mtu), IDLE, text, [FLAG]);
    FeedFrames(mtu, text);
    UnstuffStuffed(body);
    NoFlagIsOnePart(text);
    FeedOne(Receive(mtu), Holding(mtu, Text(body, false)), FLAG);
  }

  /** The check of a closed body holds. */
  lemma ClosedIsGood(body: seq<byte>)
    ensures Fcs(Closed(body)) == FCS_GOOD
  {
    hide Fcs, Complement, Join, HighByte, LowByte;
    var check := Complement(Fcs(body));
    JoinSplit(check);
    FcsResidue(body, LowByte(check), HighByte(check));
  }

  predicate Odd(b: byte) { b & 1 != 0 }

  lemma OddIsNotZero(protocol: word)
    requires Odd(HighByte(protocol))
    ensures HighByte(protocol) as word != protocol
  {}

  /** A well-formed frame is dispatched as what it was made of, but for an odd high protocol byte. */
  lemma ClosedBodyDispatches(protocol: word, payload: seq<byte>)
    ensures Dispatched(Closed(Body(protocol, payload)))
         == Some(if Odd(HighByte(protocol)) then Message(HighByte(protocol) as word, [LowByte(protocol)] + payload)
                 else Message(protocol, payload))
  {
    hide Fcs, Complement, Join, HighByte, LowByte;
    ClosedIsGood(Body(protocol, payload));
    JoinSplit(protocol);
    var raw := Closed(Body(protocol, payload));
    assert raw[2] == HighByte(protocol) && raw[3] == LowByte(protocol);
    assert raw[3..|raw| - 2] == [LowByte(protocol)] + payload;
    assert raw[4..|raw| - 2] == payload;
  }

  /**
   Whatever state the receiver is in, an encoded message resynchronises it, and is dispatched as
   exactly the protocol and payload that were sent if and only if the high byte of the protocol is
   even and the payload has at most `mtu + 11` bytes.
   */
  lemma PppRoundTrip(mtu: nat, r: Receiver, protocol: word, payload: seq<byte>)
    ensures var raw := Truncated(mtu, Closed(Body(protocol, payload)));
            && Feed(Receive(mtu), r, PppFrame(protocol, payload)) == (IDLE, NonEmpty(r.frame) + [raw])
            && (Dispatched(raw) == Some(Message(protocol, payload)) <==> !Odd(HighByte(protocol)) && |payload| <= mtu + 11)
  {
    hide Fcs, Complement, Join, HighByte, LowByte, Stuffed, Odd;
    var body := Closed(Body(protocol, payload));
    FrameArrives(mtu, r, body);
    ClosedBodyDispatches(protocol, payload);
    if Odd(HighByte(protocol)) && |payload| <= mtu + 11 {
      OddIsNotZero(protocol);
    }
    if |payload| > mtu + 11 {
      TruncatedDiffers(mtu, protocol, payload);
    }
  }

  lemma TruncatedDiffers(mtu: nat, protocol: word, payload: seq<byte>)
    requires |payload| > mtu + 11
    ensures Dispatched(Truncated(mtu, Closed(Body(protocol, payload)))) != Some(Message(protocol, payload))
  {
    hide Fcs, Complement, Join, HighByte, LowByte;
    var raw := Truncated(mtu, Closed(Body(protocol, payload)));
    assert raw[0] == 0xff && raw[1] == 0x03 && raw[2] == HighByte(protocol);
    if Odd(HighByte(protocol)) { OddIsNotZero(protocol); }
  }
}
