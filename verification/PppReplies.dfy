/**
 What the modem does with a message, seen from the line: the protocols of RFC 1661, RFC 1334 and
 RFC 1332 by their numbers, behind whatever the receiver still holds.
 */
module PppReplies {
  import opened Bytes
  import opened Streams
  import opened PppCheck
  import opened PppFraming
  import opened PppSession
  import opened PppNegotiation

  /** A frame on the line: stuffed, between flags. */
  function OnLine(raw: seq<byte>): seq<byte> { [0x7e] + Stuffed(raw) + [0x7e] }

  /** A body closed by its check. */
  function Framed(body: seq<byte>): seq<byte> { OnLine(Closed(body)) }

  /**
   What a body carries: address and control may be left out, and a protocol number is a single odd
   byte or an even byte and another one. A body without a whole protocol number carries nothing.
   */
  function Carried(body: seq<byte>): Option<Message>
  {
    var rest := if [0xff, 0x03] <= body then body[2..] else body;
    if |body| < 2 || rest == [] then None
    else if rest[0] & 1 != 0 then Some(Message(rest[0] as word, rest[1..]))
    else if |rest| < 2 then None
    else Some(Message(Join(rest[0], rest[1]), rest[2..]))
  }

  lemma CarriedIsDispatched(body: seq<byte>)
    ensures Dispatched(Closed(body)) == Carried(body)
  {
    ClosedIsGood(body);
    var raw := Closed(body);
    var rest := if [0xff, 0x03] <= body then body[2..] else body;
    var offset := |body| - |rest|;
    hide Fcs, Complement, Join, HighByte, LowByte;
    if |body| >= 2 {
      assert [0xff, 0x03] <= body <==> raw[0] == 0xff && raw[1] == 0x03;
      assert |rest| >= 1 ==> raw[offset] == rest[0] && raw[offset + 1..|raw| - 2] == rest[1..];
      assert |rest| >= 2 ==> raw[offset + 1] == rest[1] && raw[offset + 2..|raw| - 2] == rest[2..];
    }
  }

  /** The session and its outputs once a frame that was left over has been ended by a flag. */
  function Flagged(config: Config, session: Session): (Session, seq<Output>)
  {
    Feed(Consumer(config), session, [0x7e])
  }

  lemma FlagLeavesIdle(config: Config, session: Session)
    ensures Flagged(config, session).0.receiver == IDLE
  {
    hide Handle;
    FeedOne(Consumer(config), session, 0x7e);
  }

  /** Behind the flag, the rest of the frame is handled. */
  lemma FrameIsHandled(config: Config, session: Session, raw: seq<byte>)
    requires 0 < |raw| <= config.mtu + 17
    ensures var (before, leftOver) := Flagged(config, session);
            var (after, outputs) := Handle(config, before, raw);
            Feed(Consumer(config), session, OnLine(raw)) == (after.(receiver := IDLE), leftOver + outputs)
  {
    hide Handle, Stuffed, Step;
    var (before, leftOver) := Flagged(config, session);
    var rest := Stuffed(raw) + [0x7e];
    assert OnLine(raw) == [0x7e] + rest;
    FlagLeavesIdle(config, session);
    FeedConcat(Consumer(config), session, [0x7e], rest);
    RestCompletes(config.mtu, raw);
    ConsumeIsHandle(config, before, rest);
    HandleOne(config, before, raw);
  }

  lemma HandleOne(config: Config, session: Session, raw: seq<byte>)
    ensures HandleAll(config, session, [raw]) == Handle(config, session, raw)
  {
    hide Handle;
    assert [raw][..0] == [];
    assert HandleAll(config, session, []) == (session, []);
    assert [] + Handle(config, session, raw).1 == Handle(config, session, raw).1;
  }

  lemma RestCompletes(mtu: nat, raw: seq<byte>)
    requires 0 < |raw| <= mtu + 17
    ensures Feed(Receive(mtu), IDLE, Stuffed(raw) + [0x7e]) == (IDLE, [raw])
  {
    hide Stuffed, Feed;
    var rest := Stuffed(raw) + [FLAG];
    FrameArrives(mtu, IDLE, raw);
    assert [FLAG] + Stuffed(raw) + [FLAG] == [FLAG] + rest;
    FeedConcat(Receive(mtu), IDLE, [FLAG], rest);
    FeedOne(Receive(mtu), IDLE, FLAG);
    assert Feed(Receive(mtu), IDLE, [FLAG]) == (IDLE, []);
    var (after, frames) := Feed(Receive(mtu), IDLE, rest);
    assert [] + frames == frames;
    assert NonEmpty(IDLE.frame) + [raw] == [raw];
  }

  /** A frame that is too short, or whose last two bytes are not the complemented check, draws nothing. */
  lemma DamagedIsIgnored(config: Config, session: Session, raw: seq<byte>)
    requires 0 < |raw| <= config.mtu + 17
    requires |raw| >= 4 ==> Join(raw[|raw| - 1], raw[|raw| - 2]) != Complement(Fcs(raw[..|raw| - 2]))
    ensures Feed(Consumer(config), session, OnLine(raw)) == Flagged(config, session)
  {
    FlagLeavesIdle(config, session);
    FrameIsHandled(config, session, raw);
    DamagedIsNotDispatched(raw);
    hide OnLine, Flagged, Feed, Fcs, Join, Complement, Dispatched;
    var leftOver := Flagged(config, session).1;
    assert leftOver + [] == leftOver;
  }

  lemma DamagedIsNotDispatched(raw: seq<byte>)
    requires |raw| >= 4 ==> Join(raw[|raw| - 1], raw[|raw| - 2]) != Complement(Fcs(raw[..|raw| - 2]))
    ensures Dispatched(raw) == None
  {
    hide Fcs, Join, Complement;
    if |raw| >= 4 {
      assert raw == raw[..|raw| - 2] + [raw[|raw| - 2], raw[|raw| - 1]];
      FcsResidue(raw[..|raw| - 2], raw[|raw| - 2], raw[|raw| - 1]);
    }
  }

  // ---------- the protocols ----------

  /** Protocol 0x0021: the datagram goes to the network as it is. */
  lemma DatagramIsForwarded(config: Config, session: Session, body: seq<byte>, packet: seq<byte>)
    requires |body| <= config.mtu + 15 && Carried(body) == Some(Message(0x0021, packet))
    ensures var (before, leftOver) := Flagged(config, session);
            Feed(Consumer(config), session, Framed(body)) == (before, leftOver + [Datagram(packet)])
  {
    FlagLeavesIdle(config, session);
    FrameIsHandled(config, session, Closed(body));
    CarriedIsDispatched(body);
    hide Carried, Dispatched, Closed, Feed, Framed, Flagged;
  }

  /** What the length of a control packet covers: at most the packet, and all of it if it covers less than the header. */
  function Covered(packet: seq<byte>): seq<byte>
    requires |packet| >= 4
  {
    var length := 256 * Number(packet[2]) + Number(packet[3]);
    packet[4..if length < 4 || length > |packet| then |packet| else length]
  }

  lemma ControlDataIsCovered(packet: seq<byte>)
    requires |packet| >= 4
    ensures ControlData(packet) == Covered(packet)
  {
    assert packet[4..|packet|] == packet[4..];
  }

  /**
   Protocol 0xc021: configure, terminate and echo requests draw the one reply that goes with them,
   with the same identifier and data; everything else draws nothing.
   */
  lemma LinkRequestIsAnswered(config: Config, session: Session, body: seq<byte>, packet: seq<byte>)
    requires |body| <= config.mtu + 15 && Carried(body) == Some(Message(0xc021, packet))
    ensures var (before, leftOver) := Flagged(config, session);
            && Feed(Consumer(config), session, Framed(body)).0 == before
            && Feed(Consumer(config), session, Framed(body)).1 == leftOver +
                 if |packet| >= 4 && packet[0] in {1, 5, 9} then [Control(0xc021, packet[0] + 1, packet[1], Covered(packet))] else []
  {
    FlagLeavesIdle(config, session);
    FrameIsHandled(config, session, Closed(body));
    CarriedIsDispatched(body);
    if |packet| >= 4 { ControlDataIsCovered(packet); }
    hide Carried, Dispatched, Closed, Feed, Framed, Flagged, ControlData, Covered;
  }

  /** Protocol 0xc023: every password is good. */
  lemma PasswordIsAccepted(config: Config, session: Session, body: seq<byte>, packet: seq<byte>)
    requires |body| <= config.mtu + 15 && Carried(body) == Some(Message(0xc023, packet))
    ensures var (before, leftOver) := Flagged(config, session);
            && Feed(Consumer(config), session, Framed(body)).0 == before
            && Feed(Consumer(config), session, Framed(body)).1 == leftOver +
                 if |packet| >= 4 && packet[0] == 1 then [Control(0xc023, 2, packet[1], [2, 'O' as byte, 'K' as byte])] else []
  {
    FlagLeavesIdle(config, session);
    FrameIsHandled(config, session, Closed(body));
    CarriedIsDispatched(body);
    hide Carried, Dispatched, Closed, Feed, Framed, Flagged;
  }

  /**
   The answer to an address packet: a request is answered by the list of the wrong options with the
   wanted values, or acknowledged as it is, once with the modem's own request behind it; anything
   else draws nothing.
   */
  function AddressAnswer(config: Config, before: Session, packet: seq<byte>): (Session, seq<Output>)
  {
    if |packet| < 4 || packet[0] != 1 then (before, [])
    else if Naks(config, Covered(packet)) != [] then
      (before, [Control(0x8021, 3, packet[1], Naks(config, Covered(packet)))])
    else if before.sentIpcpRequest then (before, [Control(0x8021, 2, packet[1], Covered(packet))])
    else
      (before.(nextId := before.nextId + 1, sentIpcpRequest := true),
       [Control(0x8021, 2, packet[1], Covered(packet)), Control(0x8021, 1, before.nextId + 1, [3, 6] + config.localIp)])
  }

  lemma AddressAnswerIsIpcp(config: Config, before: Session, packet: seq<byte>)
    ensures AddressAnswer(config, before, packet) == IpcpReply(config, before, packet)
  {
    if |packet| >= 4 { ControlDataIsCovered(packet); }
    hide Naks, Covered, ControlData;
  }

  /** Protocol 0x8021 draws the answer to its packet. */
  lemma AddressRequestIsAnswered(config: Config, session: Session, body: seq<byte>, packet: seq<byte>)
    requires |body| <= config.mtu + 15 && Carried(body) == Some(Message(0x8021, packet))
    ensures var (before, leftOver) := Flagged(config, session);
            var (after, answer) := AddressAnswer(config, before, packet);
            Feed(Consumer(config), session, Framed(body)) == (after, leftOver + answer)
  {
    FlagLeavesIdle(config, session);
    FrameIsHandled(config, session, Closed(body));
    CarriedIsDispatched(body);
    var before := Flagged(config, session).0;
    AddressAnswerIsIpcp(config, before, packet);
    AnswerKeepsReceiver(config, before, packet);
    hide Carried, Dispatched, Closed, Feed, Framed, Flagged, AddressAnswer, IpcpReply;
  }

  lemma AnswerKeepsReceiver(config: Config, before: Session, packet: seq<byte>)
    ensures AddressAnswer(config, before, packet).0.receiver == before.receiver
  {}

  /** The addresses that are wanted: option 3 is the guest's own, 129 and 131 are its name servers. */
  lemma WantedAddresses(config: Config, option: IpOption)
    ensures option.Wrong(config) <==>
              && |option.value| == 4
              && ((option.kind == 3 && option.value != config.remoteIp)
                  || (option.kind in {129, 131} && option.value != config.localIp))
    ensures option.Wrong(config) ==>
              option.Corrected(config) == IpOption(option.kind, if option.kind == 3 then config.remoteIp else config.localIp)
  {}

  /** Any other protocol is rejected under the next identifier. */
  lemma OthersAreRejected(config: Config, session: Session, body: seq<byte>, protocol: word, payload: seq<byte>)
    requires |body| <= config.mtu + 15 && Carried(body) == Some(Message(protocol, payload))
    requires protocol !in {0x0021, 0xc021, 0xc023, 0x8021}
    ensures var (before, leftOver) := Flagged(config, session);
            Feed(Consumer(config), session, Framed(body))
            == (before.(nextId := before.nextId + 1), leftOver + [Control(0xc021, 8, before.nextId + 1, [])])
  {
    FlagLeavesIdle(config, session);
    FrameIsHandled(config, session, Closed(body));
    CarriedIsDispatched(body);
    hide Carried, Dispatched, Closed, Feed, Framed, Flagged;
  }

  // ---------- what the guest hears ----------

  /** Code, identifier, a length that covers the whole packet, most significant byte first, and data. */
  lemma ControlPayloadCovers(code: byte, id: byte, data: seq<byte>)
    requires |data| + 4 < 0x1_0000
    ensures var packet := ControlPayload(code, id, data);
            && packet[..2] == [code, id] && packet[4..] == data
            && 256 * Number(packet[2]) + Number(packet[3]) == |packet|
  {
    hide ByteOf, Number;
    var length := |data| + 4;
    assert length / 256 % 256 == length / 256;
  }

  /** The packets among the outputs that go to the guest. */
  function Packets(outputs: seq<Output>): seq<Message>
  {
    if outputs == [] then []
    else
      var last := outputs[|outputs| - 1];
      Packets(outputs[..|outputs| - 1])
      + if last.Control? then [Message(last.protocol, ControlPayload(last.code, last.id, last.data))] else []
  }

  /** The modem sends its packets under the protocols above, and a guest whose frames are long enough takes them. */
  predicate Fits(mtu: nat, output: Output)
  {
    output.Control? ==> output.protocol in {0xc021, 0xc023, 0x8021} && |output.data| <= mtu + 7
  }

  /** A receiver that hears the line dispatches exactly the packets, in their order. */
  lemma {:induction false} GuestHears(mtu: nat, outputs: seq<Output>)
    requires forall i :: 0 <= i < |outputs| ==> Fits(mtu, outputs[i])
    ensures var (after, frames) := Feed(Receive(mtu), IDLE, Wire(outputs));
            && after == IDLE && |frames| == |Packets(outputs)|
            && forall i :: 0 <= i < |frames| ==> Dispatched(frames[i]) == Some(Packets(outputs)[i])
    decreases |outputs|
  {
    hide Dispatched, PppFrame, Feed, ControlPayload, Fits;
    if outputs == [] {
      NothingFed(mtu);
    } else {
      var start, last := outputs[..|outputs| - 1], outputs[|outputs| - 1];
      GuestHears(mtu, start);
      if last.Control? {
        var payload := ControlPayload(last.code, last.id, last.data);
        FeedConcat(Receive(mtu), IDLE, Wire(start), PppFrame(last.protocol, payload));
        PacketArrives(mtu, last);
      } else {
        assert Wire(outputs) == Wire(start);
      }
    }
  }

  lemma NothingFed(mtu: nat)
    ensures Feed(Receive(mtu), IDLE, []) == (IDLE, [])
  {}

  lemma PacketArrives(mtu: nat, output: Output)
    requires output.Control? && Fits(mtu, output)
    ensures var payload := ControlPayload(output.code, output.id, output.data);
            var (after, frames) := Feed(Receive(mtu), IDLE, PppFrame(output.protocol, payload));
            after == IDLE && |frames| == 1 && Dispatched(frames[0]) == Some(Message(output.protocol, payload))
  {
    hide Dispatched, PppFrame, Feed, Closed, Truncated, ByteOf;
    KnownAreEven();
    PppRoundTrip(mtu, IDLE, output.protocol, ControlPayload(output.code, output.id, output.data));
  }

  lemma KnownAreEven()
    ensures !Odd(HighByte(0xc021)) && !Odd(HighByte(0xc023)) && !Odd(HighByte(0x8021))
  {}

  // ---------- byte stuffing ----------

  lemma {:induction false} StuffedConcat(s: seq<byte>, t: seq<byte>)
    ensures Stuffed(s + t) == Stuffed(s) + Stuffed(t)
    decreases |t|
  {
    hide StuffedByte;
    if t == [] {
      assert s + t == s;
    } else {
      assert (s + t)[..|s + t| - 1] == s + t[..|t| - 1];
      StuffedConcat(s, t[..|t| - 1]);
    }
  }

  /** Flags, escapes and the bytes below 0x20 become two bytes on the line, all others stay. */
  lemma StuffedOne(b: byte)
    ensures Stuffed([b]) == if b == 0x7e then [0x7d, 0x5e] else if b == 0x7d then [0x7d, 0x5d]
                            else if b < 0x20 then [0x7d, b + 0x20] else [b]
  {
    assert [b][..0] == [] && Stuffed([]) == [];
    assert Stuffed([b]) == Stuffed([]) + StuffedByte(b);
    FlipIsAddition(b);
    hide Flip;
  }

  lemma FlipIsAddition(b: byte)
    ensures b < 0x20 ==> Flip(b) == b + 0x20
    ensures Flip(0x7e) == 0x5e && Flip(0x7d) == 0x5d
  {}

  /** Between its flags a frame has no flag and no byte below 0x20. */
  lemma {:induction false} StuffedIsClean(s: seq<byte>)
    ensures forall i :: 0 <= i < |Stuffed(s)| ==> Stuffed(s)[i] >= 0x20 && Stuffed(s)[i] != 0x7e
    decreases |s|
  {
    hide StuffedByte;
    if s != [] {
      StuffedIsClean(s[..|s| - 1]);
      ByteIsClean(s[|s| - 1]);
    }
  }

  lemma ByteIsClean(b: byte)
    ensures forall i :: 0 <= i < |StuffedByte(b)| ==> StuffedByte(b)[i] >= 0x20 && StuffedByte(b)[i] != 0x7e
  {}
}
