/** What the address negotiation amounts to: a refusal names what is wrong, and heeding it ends the matter. */
module PppNegotiation {
  import opened Bytes
  import opened Streams
  import opened PppFraming
  import opened PppSession

  // ---------- frames and bytes ----------

  function HandleAll(config: Config, session: Session, frames: seq<seq<byte>>): (Session, seq<Output>)
    decreases |frames|
  {
    if frames == [] then (session, [])
    else
      var (before, outputs) := HandleAll(config, session, frames[..|frames| - 1]);
      var (after, more) := Handle(config, before, frames[|frames| - 1]);
      (after, outputs + more)
  }

  lemma HandleIgnoresReceiver(config: Config, session: Session, r: Receiver, raw: seq<byte>)
    ensures Handle(config, session.(receiver := r), raw)
         == (Handle(config, session, raw).0.(receiver := r), Handle(config, session, raw).1)
  {
    hide Dispatched;
  }

  /** A session that consumes bytes handles, in order, the frames its receiver completes. */
  lemma {:induction false} ConsumeIsHandle(config: Config, session: Session, s: seq<byte>)
    ensures var (receiver, frames) := Feed(Receive(config.mtu), session.receiver, s);
            var (after, outputs) := HandleAll(config, session, frames);
            Feed(Consumer(config), session, s) == (after.(receiver := receiver), outputs)
    decreases |s|
  {
    hide Handle, Step;
    if s != [] {
      var start, last := s[..|s| - 1], s[|s| - 1];
      ConsumeIsHandle(config, session, start);
      var (receiver, frames) := Feed(Receive(config.mtu), session.receiver, start);
      var before := HandleAll(config, session, frames).0;
      var more := Step(config.mtu, receiver, last).1;
      StepCompletesOne(config.mtu, receiver, last);
      if more == [] {
        assert frames + more == frames;
        assert HandleAll(config, session, frames).1 + [] == HandleAll(config, session, frames).1;
      } else {
        assert frames + more == frames + [more[0]];
        assert (frames + [more[0]])[..|frames|] == frames;
        HandleIgnoresReceiver(config, before, receiver, more[0]);
      }
    }
  }

  lemma StepCompletesOne(mtu: nat, r: Receiver, value: byte)
    ensures |Step(mtu, r, value).1| <= 1
  {
    hide Flip, Appended;
  }

  // ---------- the modem's own request ----------

  /** How often the modem asked for its own address. */
  function Requests(outputs: seq<Output>): nat
  {
    if outputs == [] then 0
    else
      var last := outputs[|outputs| - 1];
      Requests(outputs[..|outputs| - 1]) + if last.Control? && last.protocol == IPCP && last.code == 1 then 1 else 0
  }

  lemma {:induction false} RequestsAdd(s: seq<Output>, t: seq<Output>)
    ensures Requests(s + t) == Requests(s) + Requests(t)
    decreases |t|
  {
    if t == [] {
      assert s + t == s;
    } else {
      assert (s + t)[..|s + t| - 1] == s + t[..|t| - 1];
      RequestsAdd(s, t[..|t| - 1]);
    }
  }

  lemma RequestsOne(output: Output)
    ensures Requests([output]) == if output.Control? && output.protocol == IPCP && output.code == 1 then 1 else 0
  {
    assert [output][..0] == [];
  }

  function Sent(session: Session): nat { if session.sentIpcpRequest then 1 else 0 }

  lemma HandleRequests(config: Config, session: Session, raw: seq<byte>)
    ensures Sent(Handle(config, session, raw).0) == Sent(session) + Requests(Handle(config, session, raw).1)
  {
    hide Dispatched, Naks, ControlData, NextId, Requests;
    assert Requests([]) == 0 by { NoRequests(); }
    forall output: Output
      ensures Requests([output]) == if output.Control? && output.protocol == IPCP && output.code == 1 then 1 else 0
    {
      RequestsOne(output);
    }
    forall first: Output, second: Output
      ensures Requests([first, second]) == Requests([first]) + Requests([second])
    {
      assert [first, second] == [first] + [second];
      RequestsAdd([first], [second]);
    }
  }

  lemma NoRequests()
    ensures Requests([]) == 0
  {}

  /**
   Over any bytes the guest may send, the modem's own Configure-Request goes out at most once, and
   the flag that it did records exactly that.
   */
  lemma {:induction false} OwnRequestAtMostOnce(config: Config, session: Session, s: seq<byte>)
    ensures var (after, outputs) := Feed(Consumer(config), session, s);
            Sent(after) == Sent(session) + Requests(outputs) <= 1
    decreases |s|
  {
    hide Handle, Step, Requests;
    if s == [] {
      NoRequests();
    } else {
      var start, last := s[..|s| - 1], s[|s| - 1];
      OwnRequestAtMostOnce(config, session, start);
      var (before, outputs) := Feed(Consumer(config), session, start);
      var (receiver, frames) := Step(config.mtu, before.receiver, last);
      var more := Consume(config, before, last).1;
      RequestsAdd(outputs, more);
      if frames == [] {
        NoRequests();
      } else {
        HandleRequests(config, before, frames[0]);
      }
    }
  }

  // ---------- option lists ----------

  type OptionValue = s: seq<byte> | |s| <= 253 witness []

  /** A well-formed option; its length byte covers the type and itself. */
  datatype IpOption = IpOption(kind: byte, value: OptionValue)
  {
    function Bytes(): (s: seq<byte>)
      ensures |s| == |value| + 2
    {
      [kind, ByteOf(|value| + 2)] + value
    }

    /** An address option of the right size with the wrong address. */
    predicate Wrong(config: Config) { IsAddress(kind) && |value| == 4 && value != WantedAddress(config, kind) }

    function Corrected(config: Config): IpOption { if Wrong(config) then IpOption(kind, WantedAddress(config, kind)) else this }
  }

  function OptionBytes(options: seq<IpOption>): seq<byte>
  {
    if options == [] then [] else options[0].Bytes() + OptionBytes(options[1..])
  }

  /** The wrong options, in order, with the values wanted instead. */
  function Refused(config: Config, options: seq<IpOption>): (r: seq<IpOption>)
    ensures r == [] <==> forall i :: 0 <= i < |options| ==> !options[i].Wrong(config)
  {
    if options == [] then []
    else (if options[0].Wrong(config) then [options[0].Corrected(config)] else []) + Refused(config, options[1..])
  }

  function Substituted(config: Config, options: seq<IpOption>): (r: seq<IpOption>)
    ensures |r| == |options| && forall i :: 0 <= i < |r| ==> r[i] == options[i].Corrected(config)
  {
    seq(|options|, i requires 0 <= i < |options| => options[i].Corrected(config))
  }

  lemma SixBytes()
    ensures ByteOf(6) == 6
  {
    SameNumber(ByteOf(6), 6);
  }

  lemma OneOption(config: Config, option: IpOption, rest: seq<byte>)
    ensures Naks(config, option.Bytes() + rest)
         == (if option.Wrong(config) then option.Corrected(config).Bytes() else []) + Naks(config, rest)
  {
    hide IsAddress, WantedAddress;
    hide ByteOf, Number;
    var bytes := option.Bytes();
    var s := bytes + rest;
    assert Number(s[1]) == |bytes|;
    assert s[..|bytes|] == bytes && s[|bytes|..] == rest && bytes[2..] == option.value;
    assert |bytes| == 6 <==> |option.value| == 4;
    SixBytes();
  }

  /** What is no option: too short, or with a length that does not fit. */
  predicate Broken(tail: seq<byte>) { |tail| < 2 || Number(tail[1]) < 2 || Number(tail[1]) > |tail| }

  /** The refusal lists the wrong options before the first broken one. */
  lemma {:induction false} NaksAreRefused(config: Config, options: seq<IpOption>, tail: seq<byte>)
    requires Broken(tail)
    ensures Naks(config, OptionBytes(options) + tail) == OptionBytes(Refused(config, options))
  {
    hide IpOption.Bytes, IpOption.Wrong;
    if options == [] {
      assert OptionBytes(options) + tail == tail;
    } else {
      var bytes, rest := options[0].Bytes(), OptionBytes(options[1..]) + tail;
      assert OptionBytes(options) + tail == bytes + rest;
      OneOption(config, options[0], rest);
      NaksAreRefused(config, options[1..], tail);
      var refused, others := Refused(config, options), Refused(config, options[1..]);
      if options[0].Wrong(config) {
        assert refused[1..] == others;
      } else {
        assert refused == others;
      }
    }
  }

  /** Any bytes are a list of options with a broken one behind them. */
  lemma {:induction false} OptionsAndTail(s: seq<byte>) returns (options: seq<IpOption>, tail: seq<byte>)
    ensures s == OptionBytes(options) + tail && Broken(tail)
    decreases |s|
  {
    if Broken(s) {
      options, tail := [], s;
    } else {
      var length := Number(s[1]);
      assert 2 <= length < 256 && length <= |s|;
      var value := s[2..length];
      assert |value| <= 253;
      var first := IpOption(s[0], value);
      options, tail := OptionsAndTail(s[length..]);
      FirstOption(s, length, first);
      assert ([first] + options)[1..] == options;
      options := [first] + options;
    }
  }

  lemma FirstOption(s: seq<byte>, length: nat, first: IpOption)
    requires !Broken(s) && length == Number(s[1]) && first.kind == s[0] && first.value == s[2..length]
    ensures s == first.Bytes() + s[length..]
  {
    hide Number, ByteOf;
    SameNumber(s[1], ByteOf(|first.value| + 2));
  }

  /** What the guest sends to ask for options. */
  function Request(id: byte, options: seq<IpOption>): seq<byte> { ControlPayload(1, id, OptionBytes(options)) }

  lemma ControlDataOfPayload(code: byte, id: byte, data: seq<byte>)
    requires |data| + 4 < 0x10000
    ensures var packet := ControlPayload(code, id, data);
            |packet| >= 4 && packet[0] == code && packet[1] == id && ControlData(packet) == data
  {
    hide ByteOf, Number;
    var packet := ControlPayload(code, id, data);
    var length := |data| + 4;
    assert length / 256 % 256 * 256 + length % 256 == length;
    assert Number(packet[2]) * 256 + Number(packet[3]) == |packet|;
    assert packet[4..] == data && packet[4..|packet|] == packet[4..];
  }

  lemma OptionBytesEmpty(options: seq<IpOption>)
    ensures OptionBytes(options) == [] <==> options == []
  {}

  /**
   A request is refused exactly if some address or name-server option of the right size differs from
   the configured value; the refusal lists those options in order with the values wanted. Otherwise
   the very same options are acknowledged, followed at most by the modem's own request.
   */
  lemma RequestIsAnswered(config: Config, session: Session, id: byte, options: seq<IpOption>)
    requires |OptionBytes(options)| + 4 < 0x10000
    ensures var (after, outputs) := IpcpReply(config, session, Request(id, options));
            var refused := Refused(config, options);
            if refused != [] then after == session && outputs == [Control(IPCP, 3, id, OptionBytes(refused))]
            else outputs == [Control(IPCP, 2, id, OptionBytes(options))]
                            + (if session.sentIpcpRequest then []
                               else [Control(IPCP, 1, after.nextId, [3, 6] + config.localIp)])
                 && after.sentIpcpRequest
  {
    hide ControlData, ControlPayload, Naks, NextId;
    ControlDataOfPayload(1, id, OptionBytes(options));
    NaksAreRefused(config, options, []);
    assert OptionBytes(options) + [] == OptionBytes(options);
    OptionBytesEmpty(Refused(config, options));
  }

  lemma {:induction false} SubstitutedBytes(config: Config, options: seq<IpOption>)
    ensures |OptionBytes(Substituted(config, options))| == |OptionBytes(options)|
  {
    if options != [] {
      SubstitutedBytes(config, options[1..]);
      assert Substituted(config, options)[1..] == Substituted(config, options[1..]);
    }
  }

  /** Resending the options with the wanted values put in is always acknowledged, option for option. */
  lemma NegotiationConverges(config: Config, session: Session, id: byte, options: seq<IpOption>)
    requires |OptionBytes(options)| + 4 < 0x10000
    ensures var (_, outputs) := IpcpReply(config, session, Request(id, Substituted(config, options)));
            1 <= |outputs| <= 2 && outputs[0] == Control(IPCP, 2, id, OptionBytes(Substituted(config, options)))
  {
    hide IpcpReply, OptionBytes;
    SubstitutedBytes(config, options);
    RequestIsAnswered(config, session, id, Substituted(config, options));
  }

  /**
   The same on the line: whatever the receiver holds, the framed request is answered so, behind the
   handling of a frame that was left over.
   */
  lemma FramedRequestIsAnswered(config: Config, session: Session, id: byte, options: seq<IpOption>)
    requires |Request(id, options)| <= config.mtu + 11
    ensures var (before, leftOver) := HandleAll(config, session, NonEmpty(session.receiver.frame));
            var (after, outputs) := IpcpReply(config, before, Request(id, options));
            Feed(Consumer(config), session, PppFrame(IPCP, Request(id, options))) == (after.(receiver := IDLE), leftOver + outputs)
  {
    hide Request, Feed, PppFrame, IpcpReply, Dispatched, Closed, Body, Handle, Odd, NonEmpty;
    var payload := Request(id, options);
    var raw, stale := Truncated(config.mtu, Closed(Body(IPCP, payload))), NonEmpty(session.receiver.frame);
    PppRoundTrip(config.mtu, session.receiver, IPCP, payload);
    ConsumeIsHandle(config, session, PppFrame(IPCP, payload));
    assert (stale + [raw])[..|stale|] == stale;
    IpcpIsEven();
    HandleIpcpMessage(config, HandleAll(config, session, stale).0, raw, payload);
  }

  lemma IpcpIsEven()
    ensures !Odd(HighByte(IPCP))
  {}

  lemma HandleIpcpMessage(config: Config, session: Session, raw: seq<byte>, payload: seq<byte>)
    requires Dispatched(raw) == Some(Message(IPCP, payload))
    ensures Handle(config, session, raw) == IpcpReply(config, session, payload)
  {
    hide Dispatched, IpcpReply;
  }
}
