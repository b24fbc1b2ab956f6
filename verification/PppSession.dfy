/**
 The modem's side of a PPP session: link, password and address negotiation (RFC 1661, RFC 1334,
 RFC 1332 and RFC 1877), driven by the bytes the guest sends.
 */
module PppSession {
  import opened Bytes
  import opened Streams
  import opened PppCheck
  import opened PppFraming

  const IP: word := 0x0021
  const LCP: word := 0xc021
  const PAP: word := 0xc023
  const IPCP: word := 0x8021

  datatype Config = Config(mtu: nat, localIp: IpAddress, remoteIp: IpAddress)

  /** What the modem does: it sends a control packet to the guest or hands a datagram to the network. */
  datatype Output = Control(protocol: word, code: byte, id: byte, data: seq<byte>) | Datagram(packet: seq<byte>)

  datatype Session = Session(receiver: Receiver, sentIpcpRequest: bool, nextId: byte)

  // ---------- control packets ----------

  /** Code, identifier, 16-bit length and data. */
  function ControlPayload(code: byte, id: byte, data: seq<byte>): seq<byte>
  {
    [code, id, ByteOf((|data| + 4) / 256 % 256), ByteOf((|data| + 4) % 256)] + data
  }

  /** The part of a control packet behind its header that its length covers; a length below 4 covers everything. */
  function ControlData(packet: seq<byte>): seq<byte>
    requires |packet| >= 4
  {
    var stated := Number(packet[2]) * 256 + Number(packet[3]);
    var length := if stated < |packet| then stated else |packet|;
    if length < 4 then packet[4..] else packet[4..length]
  }

  // ---------- address options ----------

  predicate IsAddress(kind: byte) { kind == 3 || kind == 129 || kind == 131 }

  /** The guest's own address is the remote one; both name servers are the modem. */
  function WantedAddress(config: Config, kind: byte): IpAddress
  {
    if kind == 3 then config.remoteIp else config.localIp
  }

  /** The options to refuse, with the values wanted instead; a malformed option ends the list. */
  function Naks(config: Config, options: seq<byte>): seq<byte>
    decreases |options|
  {
    if |options| < 2 then []
    else
      var length := Number(options[1]);
      if length < 2 || length > |options| then []
      else Refusal(config, options[..length]) + Naks(config, options[length..])
  }

  /** What is wanted instead of one option, or nothing if it is acceptable. */
  function Refusal(config: Config, option: seq<byte>): seq<byte>
    requires |option| >= 2
  {
    var wanted := WantedAddress(config, option[0]);
    if IsAddress(option[0]) && |option| == 6 && option[2..] != wanted then [option[0], 6] + wanted else []
  }

  // ---------- reactions ----------

  function LcpReply(packet: seq<byte>): seq<Output>
  {
    if |packet| < 4 then []
    else if packet[0] == 1 then [Control(LCP, 2, packet[1], ControlData(packet))]
    else if packet[0] == 5 then [Control(LCP, 6, packet[1], ControlData(packet))]
    else if packet[0] == 9 then [Control(LCP, 10, packet[1], ControlData(packet))]
    else []
  }

  function PapReply(packet: seq<byte>): seq<Output>
  {
    if |packet| < 4 || packet[0] != 1 then [] else [Control(PAP, 2, packet[1], [2, 'O' as byte, 'K' as byte])]
  }

  function NextId(id: byte): byte { id + 1 }

  function IpcpReply(config: Config, session: Session, packet: seq<byte>): (Session, seq<Output>)
  {
    if |packet| < 4 || packet[0] != 1 then (session, [])
    else
      var options := ControlData(packet);
      var naks := Naks(config, options);
      if naks != [] then (session, [Control(IPCP, 3, packet[1], naks)])
      else
        var ack := Control(IPCP, 2, packet[1], options);
        if session.sentIpcpRequest then (session, [ack])
        else
          var id := NextId(session.nextId);
          (session.(nextId := id, sentIpcpRequest := true), [ack, Control(IPCP, 1, id, [3, 6] + config.localIp)])
  }

  /** A completed frame: damaged ones are ignored, unknown protocols rejected. */
  function Handle(config: Config, session: Session, raw: seq<byte>): (Session, seq<Output>)
  {
    match Dispatched(raw)
    case None => (session, [])
    case Some(message) =>
      if message.protocol == LCP then (session, LcpReply(message.payload))
      else if message.protocol == PAP then (session, PapReply(message.payload))
      else if message.protocol == IPCP then IpcpReply(config, session, message.payload)
      else if message.protocol == IP then (session, [Datagram(message.payload)])
      else
        var id := NextId(session.nextId);
        (session.(nextId := id), [Control(LCP, 8, id, [])])
  }

  /** One byte from the guest. */
  function Consume(config: Config, session: Session, value: byte): (Session, seq<Output>)
  {
    var (receiver, frames) := Step(config.mtu, session.receiver, value);
    var (after, outputs) := if frames == [] then (session, []) else Handle(config, session, frames[0]);
    (after.(receiver := receiver), outputs)
  }

  function Consumer(config: Config): Stepper<Session, Output> { (session, value) => Consume(config, session, value) }

  /** The bytes of the outputs on the line to the guest. */
  function Wire(outputs: seq<Output>): seq<byte>
  {
    if outputs == [] then []
    else
      var sent := match outputs[|outputs| - 1]
        case Control(protocol, code, id, data) => PppFrame(protocol, ControlPayload(code, id, data))
        case Datagram(_) => [];
      Wire(outputs[..|outputs| - 1]) + sent
  }

  function Datagrams(outputs: seq<Output>): seq<seq<byte>>
  {
    if outputs == [] then []
    else Datagrams(outputs[..|outputs| - 1]) + if outputs[|outputs| - 1].Datagram? then [outputs[|outputs| - 1].packet] else []
  }

  class PppConnection {
    const config: Config
    var connected: bool
    var frame: seq<byte>
    var escapePending: bool
    var sentIpcpRequest: bool
    var nextId: byte
    /** Bytes queued for the guest, and datagrams handed to the network. */
    var incoming: seq<byte>
    var transmitted: seq<seq<byte>>
    /** What was done so far. */
    ghost var done: seq<Output>

    ghost function State(): Session
      reads this
    {
      Session(Receiver(frame, escapePending), sentIpcpRequest, nextId)
    }

    /** The line and the network have seen exactly what was done. */
    ghost predicate Valid()
      reads this
    {
      incoming == Wire(done) && transmitted == Datagrams(done)
    }

    constructor (config: Config)
      ensures this.config == config && connected && done == [] && Valid()
      ensures State() == Session(IDLE, false, 0x40)
    {
      this.config, connected, frame, escapePending, sentIpcpRequest, nextId := config, true, [], false, false, 0x40;
      incoming, transmitted, done := [], [], [];
    }

    method Send(byteSent: byte)
      requires Valid()
      modifies this
      ensures Valid() && connected == old(connected)
      ensures var (after, outputs) := Consume(config, old(State()), byteSent);
              if connected then State() == after && done == old(done) + outputs
              else State() == old(State()) && done == old(done)
    {
      hide Handle, Wire, Datagrams, Flip;
      if !connected { return; }
      if byteSent == FLAG {
        if frame != [] { HandlePppFrame(frame); }
        frame, escapePending := [], false;
        return;
      }
      var value := byteSent;
      if escapePending {
        value := Flip(byteSent);
        escapePending := false;
      } else if value == ESCAPE {
        escapePending := true;
        return;
      }
      if |frame| <= config.mtu + 16 {
        frame := frame + [value];
      }
    }

    method HandlePppFrame(raw: seq<byte>)
      requires Valid()
      modifies this`incoming, this`transmitted, this`done, this`sentIpcpRequest, this`nextId
      ensures Valid()
      ensures var (after, outputs) := Handle(config, old(State()), raw);
              State() == after && done == old(done) + outputs
    {
      hide Fcs, Wire, Datagrams, LcpReply, PapReply, IpcpReply, Join, NextId;
      if |raw| < 4 { return; }
      var fcs := ComputeFcs(raw);
      if fcs != FCS_GOOD { return; }
      var offset := if raw[0] == 0xff && raw[1] == 0x03 then 2 else 0;
      if offset >= |raw| - 2 { return; }
      var protocol;
      if raw[offset] & 1 != 0 {
        protocol := raw[offset] as word;
        offset := offset + 1;
      } else {
        if offset + 1 >= |raw| - 2 { return; }
        protocol := Join(raw[offset], raw[offset + 1]);
        offset := offset + 2;
      }
      var payload := raw[offset..|raw| - 2];
      assert Dispatched(raw) == Some(Message(protocol, payload));
      HandleMessage(protocol, payload);
    }

    method HandleMessage(protocol: word, payload: seq<byte>)
      requires Valid()
      modifies this`incoming, this`transmitted, this`done, this`sentIpcpRequest, this`nextId
      ensures Valid()
      ensures forall raw :: Dispatched(raw) == Some(Message(protocol, payload)) ==>
                var (after, outputs) := Handle(config, old(State()), raw);
                State() == after && done == old(done) + outputs
    {
      hide Dispatched, Wire, Datagrams, LcpReply, PapReply, IpcpReply, NextId;
      if protocol == LCP {
        HandleLcp(payload);
      } else if protocol == PAP {
        HandlePap(payload);
      } else if protocol == IPCP {
        HandleIpcp(payload);
      } else if protocol == IP {
        transmitted := transmitted + [payload];
        done := done + [Datagram(payload)];
        OneMore(old(done), Datagram(payload));
      } else {
        nextId := NextId(nextId);
        SendPppControl(LCP, 8, nextId, []);
      }
    }

    lemma OneMore(outputs: seq<Output>, output: Output)
      ensures Wire(outputs + [output]) == Wire(outputs) + if output.Control? then PppFrame(output.protocol, ControlPayload(output.code, output.id, output.data)) else []
      ensures Datagrams(outputs + [output]) == Datagrams(outputs) + if output.Datagram? then [output.packet] else []
    {
      hide PppFrame, ControlPayload;
      assert (outputs + [output])[..|outputs|] == outputs;
    }

    method SendPppControl(protocol: word, code: byte, id: byte, data: seq<byte>)
      requires Valid()
      modifies this`incoming, this`done
      ensures Valid() && done == old(done) + [Control(protocol, code, id, data)]
    {
      hide PppFrame, Wire, Datagrams, ByteOf;
      var length := |data| + 4;
      var payload := [code] + [id] + [ByteOf(length / 256 % 256)] + [ByteOf(length % 256)] + data;
      assert payload == ControlPayload(code, id, data);
      var bytes := EncodePppFrame(protocol, payload);
      incoming := incoming + bytes;
      done := done + [Control(protocol, code, id, data)];
      OneMore(old(done), Control(protocol, code, id, data));
    }

    method HandleLcp(packet: seq<byte>)
      requires Valid()
      modifies this`incoming, this`done
      ensures Valid() && done == old(done) + LcpReply(packet)
    {
      hide Wire, Datagrams, Join;
      if |packet| < 4 { return; }
      var data := ControlData(packet);
      if packet[0] == 1 {
        SendPppControl(LCP, 2, packet[1], data);
      } else if packet[0] == 5 {
        SendPppControl(LCP, 6, packet[1], data);
      } else if packet[0] == 9 {
        SendPppControl(LCP, 10, packet[1], data);
      }
    }

    method HandlePap(packet: seq<byte>)
      requires Valid()
      modifies this`incoming, this`done
      ensures Valid() && done == old(done) + PapReply(packet)
    {
      hide Wire, Datagrams;
      if |packet| < 4 { return; }
      if packet[0] != 1 { return; }
      SendPppControl(PAP, 2, packet[1], [2, 'O' as byte, 'K' as byte]);
    }

    method HandleIpcp(packet: seq<byte>)
      requires Valid()
      modifies this`incoming, this`done, this`sentIpcpRequest, this`nextId
      ensures Valid()
      ensures var (after, outputs) := IpcpReply(config, old(State()), packet);
              State() == after && done == old(done) + outputs
    {
      hide Wire, Datagrams, ControlData, Naks, NextId;
      if |packet| < 4 { return; }
      var options := ControlData(packet);
      if packet[0] != 1 { return; }
      var nak, needsNak := RefusedOptions(options);
      if needsNak {
        SendPppControl(IPCP, 3, packet[1], nak);
        return;
      }
      SendPppControl(IPCP, 2, packet[1], options);
      if !sentIpcpRequest {
        nextId := NextId(nextId);
        SendPppControl(IPCP, 1, nextId, [3, 6] + config.localIp);
        sentIpcpRequest := true;
      }
    }

    /** The loop over the options. */
    method RefusedOptions(options: seq<byte>) returns (nak: seq<byte>, needsNak: bool)
      ensures nak == Naks(config, options) && needsNak == (nak != [])
    {
      hide Refusal, Naks, Number;
      nak, needsNak := [], false;
      var offset := 0;
      assert options[0..] == options;
      while offset + 2 <= |options|
        invariant offset <= |options| && needsNak == (nak != [])
        invariant nak + Naks(config, options[offset..]) == Naks(config, options)
      {
        var optionLength := Number(options[offset + 1]);
        if optionLength < 2 || offset + optionLength > |options| { break; }
        NextOption(options, offset, optionLength);
        var refusal := RefuseOption(options[offset..offset + optionLength]);
        if refusal != [] {
          needsNak := true;
          nak := nak + refusal;
        }
        offset := offset + optionLength;
      }
      EndOfOptions(options[offset..]);
    }

    lemma EndOfOptions(rest: seq<byte>)
      ensures |rest| < 2 || Number(rest[1]) < 2 || Number(rest[1]) > |rest| ==> Naks(config, rest) == []
    {}

    lemma NextOption(options: seq<byte>, offset: nat, length: nat)
      requires offset + 2 <= |options| && length == Number(options[offset + 1]) && 2 <= length && offset + length <= |options|
      ensures Naks(config, options[offset..])
           == Refusal(config, options[offset..offset + length]) + Naks(config, options[offset + length..])
    {
      hide Refusal;
      assert options[offset..][..length] == options[offset..offset + length];
      assert options[offset..][length..] == options[offset + length..];
    }

    /** The body of the loop for a complete option. */
    method RefuseOption(option: seq<byte>) returns (refusal: seq<byte>)
      requires |option| >= 2
      ensures refusal == Refusal(config, option)
    {
      refusal := [];
      var kind := option[0];
      if (kind == 3 || kind == 129 || kind == 131) && |option| == 6 {
        var wanted := if kind == 3 then config.remoteIp else config.localIp;
        if option[2..] != wanted { refusal := [kind, 6] + wanted; }
      }
    }
  }
}
