/** Loss-free exchanges, end to end: exactly what it takes for each of the master's calls to get through. */
module SdcpExchange {
  import opened Types
  import opened Crypto
  import opened SdcpCodec
  import opened DiscoveryAuth
  import opened DiscoverySlave
  import opened DiscoveryMaster
  import opened StateMachine
  import opened SdcpNetwork
  import opened SdcpSafety
  import opened SdcpResults

  /** The number the next frame tagged for `device` carries. */
  function NextNumber(cs: Contexts, device: Mac): u64 {
    if device in cs then cs[device].transmitted else DEFAULT_CONTEXT.transmitted
  }

  /** The last number accepted from `device`, zero when it has no context yet. */
  function LastNumber(cs: Contexts, device: Mac): u64 {
    if device in cs then cs[device].lastReceived else DEFAULT_CONTEXT.lastReceived
  }

  // ---------- frames arrive as they were built ----------

  /** The bytes of the frame parse back to it, and its tag verifies. */
  predicate Arrives(mac: KeyedMac, f: SdcpFrame) {
    ParseSdcpFrame(SdcpFrameBytes(f)) == Some(f) && SdcpTagMatches(mac, f.body)
  }

  lemma RequestArrives(
    mac: KeyedMac, own: Mac, cs: Contexts, destination: Mac, opCode: SdcpOpCode, id: u16, tlv: Option<Tlv>)
    ensures var f := BuildRequest(mac, own, cs, destination, opCode, id, tlv).0;
            Arrives(mac, f) && f.body.sequenceNumber == NextNumber(cs, own)
  {
    SdcpFrameRoundTrip(BuildRequest(mac, own, cs, destination, opCode, id, tlv).0);
  }

  lemma ResponseArrives(mac: KeyedMac, s: Slave, target: Mac, opCode: SdcpOpCode, id: u16, tlv: Tlv)
    ensures var f := Respond(mac, s, target, opCode, id, tlv).0;
            Arrives(mac, f) && f.body.sequenceNumber == NextNumber(s.contexts, s.mac)
  {
    SdcpFrameRoundTrip(Respond(mac, s, target, opCode, id, tlv).0);
  }

  // ---------- the slave's half ----------

  /** Acting answers exactly when the reaction has an answer, with a frame numbered by the slave's own counter. */
  lemma ActAnswers(mac: KeyedMac, s: Slave, source: Mac, b: ParsedSdcp, hw: Hardware)
    ensures var answer := Act(mac, s, source, b, hw).1;
            && (answer.Some? <==> ReactionTo(s.info, b, hw).answer.Some?)
            && (answer.Some? ==>
                  Arrives(mac, answer.value) && answer.value.body.sequenceNumber == NextNumber(s.contexts, s.mac))
  {
    var reaction := ReactionTo(s.info, b, hw);
    if reaction.answer.Some? {
      var info := if reaction.applied.Some? then Stored(s.info, reaction.applied.value) else s.info;
      var s1 := s.(interface := InterfaceAfter(s, b, hw), info := info);
      var (opCode, tlv) := reaction.answer.value;
      ResponseArrives(mac, s1, source, opCode, b.header.transactionId, tlv);
    }
  }

  lemma ActState(mac: KeyedMac, s: Slave, source: Mac, b: ParsedSdcp, hw: Hardware)
    requires ReactionTo(s.info, b, hw).applied.Some?
    ensures Act(mac, s, source, b, hw).0.state == Next(s.state, PreOp)
  {
  }

  /** A listening slave that knows the master and has accepted nothing as high as this request. */
  ghost predicate Awaits(s: Slave, m: Mac, f: SdcpFrame) {
    && s.mac == m && f.source != m && s.listening && s.contexts.Keys <= {f.source, m}
    && f.source in s.contexts && s.contexts[f.source].lastReceived < f.body.sequenceNumber
  }

  /** It takes the request. */
  lemma AwaitedIsTaken(mac: KeyedMac, s: Slave, m: Mac, f: SdcpFrame)
    requires Awaits(s, m, f) && Arrives(mac, f)
    ensures Takes(mac, s, DiscoverySync, Some(SdcpFrameBytes(f))) == Some(f)
  {
  }

  /** What the slave's half of an exchange leaves behind: the act and its answer. */
  ghost predicate Answered(mac: KeyedMac, net: Net, net': Net, m: Mac, f: SdcpFrame, origin: nat, hw: Hardware) {
    && m in net.slaves && m in net'.slaves
    && net'.contexts == net.contexts && net'.pending == net.pending && net'.own == net.own
    && LeftBy(net'.slaves[m], ActOn(net.slaves[m], origin, f, hw))
    && |net'.sent| == |net.sent| + 1 && net'.sent[..|net.sent|] == net.sent
    && var answer := net'.sent[|net.sent|].frame;
    && Arrives(mac, answer) && answer.source == m && answer.destination == f.source
    && answer.body.sequenceNumber == NextNumber(net.slaves[m].contexts, m)
    && AnswerOk(f, ActOn(net.slaves[m], origin, f, hw), answer)
  }

  lemma SlaveAnswers(mac: KeyedMac, net: Net, m: Mac, f: SdcpFrame, origin: nat, hw: Hardware)
    requires m in net.slaves && Awaits(net.slaves[m], m, f) && Arrives(mac, f)
    requires ReactionTo(net.slaves[m].info, f.body, hw).answer.Some?
    ensures Answered(mac, net, SlaveHeard(mac, net, m, DiscoverySync, Some(SdcpFrameBytes(f)), origin, hw),
                     m, f, origin, hw)
  {
    var s, data := net.slaves[m], Some(SdcpFrameBytes(f));
    AwaitedIsTaken(mac, s, m, f);
    TakenIsHandled(mac, s, DiscoverySync, data, hw);
    TakenEffect(mac, s, f.source, DiscoverySync, data, origin, hw);
    var context := s.contexts[f.source].(lastReceived := f.body.sequenceNumber);
    ActAnswers(mac, s.(contexts := s.contexts[f.source := context]), f.source, f.body, hw);
  }

  // ---------- the master's half ----------

  /** The request that the master sends next. */
  function RequestOf(mac: KeyedMac, net: Net, request: Request): SdcpFrame {
    BuildRequest(mac, net.own, net.contexts, request.Destination(), request.OpCode(), net.transactionCounter,
                 request.Payload()).0
  }

  /** Asking gives a waiting call's target a context, and touches no accepted number. */
  lemma AskContexts(mac: KeyedMac, net: Net, request: Request, m: Mac)
    requires m != net.own
    ensures var cs := Asked(mac, net, request, true).contexts;
            && (m in cs <==> m in net.contexts || (!request.Discover? && request.target == m))
            && (m in cs ==> cs[m].lastReceived == LastNumber(net.contexts, m))
  {
  }

  /** What asking leaves behind: the request on the wire and the pending call. */
  lemma AskEffect(mac: KeyedMac, net: Net, request: Request)
    ensures var asked, f := Asked(mac, net, request, true), RequestOf(mac, net, request);
            && asked.sent == net.sent + [Packet(f, None)] && asked.slaves == net.slaves && asked.own == net.own
            && asked.pending == Some(Pending(request, net.transactionCounter, |net.sent|))
            && Arrives(mac, f) && f.source == net.own && f.destination == request.Destination()
            && f.body.header.opCode == request.OpCode() && f.body.header.transactionId == net.transactionCounter
            && f.body.sequenceNumber == NextNumber(net.contexts, net.own)
            && (request.SetIp? ==> RequestedConfig(f.body.tlvPayload) == Some(request.config))
  {
    RequestArrives(mac, net.own, net.contexts, request.Destination(), request.OpCode(), net.transactionCounter,
                   request.Payload());
    AskShapeOf(mac, net, request, true);
  }

  /** Every request that the master sends has an answer. */
  lemma RequestIsAnswered(info: DeviceInfo, request: Request, b: ParsedSdcp, hw: Hardware)
    requires b.header.opCode == request.OpCode()
    requires request.SetIp? ==> RequestedConfig(b.tlvPayload) == Some(request.config)
    ensures var reaction := ReactionTo(info, b, hw);
            reaction.answer.Some? && reaction.answer.value.0 == request.AnswerCode()
  {
    ReactionCode(info, b, hw);
  }

  // ---------- the exchange ----------

  /** A slave that is ready for the master's next request. */
  ghost predicate Ready(net: Net, request: Request, m: Mac) {
    && net.pending.None? && m in net.slaves && m != net.own && (request.Discover? || request.target == m)
    && var s := net.slaves[m];
    && s.mac == m && s.listening && s.contexts.Keys <= {net.own, m}
    && net.own in s.contexts && s.contexts[net.own].lastReceived < NextNumber(net.contexts, net.own)
  }

  /** The system after the request was sent and the slave has heard it. */
  function Exchanged(mac: KeyedMac, net: Net, request: Request, m: Mac, hw: Hardware): Net
    requires m in net.slaves
  {
    SlaveHeard(mac, Asked(mac, net, request, true), m, DiscoverySync,
               Some(SdcpFrameBytes(RequestOf(mac, net, request))), |net.sent|, hw)
  }

  /** The act of the slave in the exchange. */
  function ExchangeAct(mac: KeyedMac, net: Net, request: Request, m: Mac, hw: Hardware): Acted
    requires m in net.slaves
  {
    ActOn(net.slaves[m], |net.sent|, RequestOf(mac, net, request), hw)
  }

  /** What the answer to a request carries. */
  lemma AnswerCarries(request: Request, f: SdcpFrame, act: Acted, answer: SdcpFrame)
    requires AnswerOk(f, act, answer) && f.body.header.opCode == request.OpCode()
    requires request.SetIp? ==> RequestedConfig(f.body.tlvPayload) == Some(request.config)
    ensures var reaction := ReactionTo(act.info, f.body, act.hw);
            && answer.body.header.opCode == request.AnswerCode()
            && answer.body.header.transactionId == f.body.header.transactionId
            && reaction.answer.Some? && answer.body.tlvPayload == TlvBytes(reaction.answer.value.1)
  {
    RequestIsAnswered(act.info, request, f.body, act.hw);
  }

  lemma ExchangeEffect(mac: KeyedMac, net: Net, request: Request, m: Mac, hw: Hardware)
    requires Ready(net, request, m)
    ensures Answered(mac, Asked(mac, net, request, true), Exchanged(mac, net, request, m, hw), m,
                     RequestOf(mac, net, request), |net.sent|, hw)
    ensures Exchanged(mac, net, request, m, hw).pending == Some(Pending(request, net.transactionCounter, |net.sent|))
    ensures |Exchanged(mac, net, request, m, hw).sent| == |net.sent| + 2
  {
    var f := RequestOf(mac, net, request);
    AskEffect(mac, net, request);
    RequestIsAnswered(net.slaves[m].info, request, f.body, hw);
    SlaveAnswers(mac, Asked(mac, net, request, true), m, f, |net.sent|, hw);
  }

  /** The frame that answers in the exchange. */
  lemma ExchangeAnswer(mac: KeyedMac, net: Net, request: Request, m: Mac, hw: Hardware)
    requires Ready(net, request, m)
    ensures |Exchanged(mac, net, request, m, hw).sent| == |net.sent| + 2
    ensures var answer := Exchanged(mac, net, request, m, hw).sent[|net.sent| + 1].frame;
            var reaction := ReactionTo(net.slaves[m].info, RequestOf(mac, net, request).body, hw);
            && Arrives(mac, answer) && answer.source == m && answer.destination == net.own
            && answer.body.sequenceNumber == NextNumber(net.slaves[m].contexts, m)
            && answer.body.header.opCode == request.AnswerCode()
            && answer.body.header.transactionId == net.transactionCounter
            && reaction.answer.Some? && answer.body.tlvPayload == TlvBytes(reaction.answer.value.1)
  {
    AskEffect(mac, net, request);
    ExchangeEffect(mac, net, request, m, hw);
    AnswerCarries(request, RequestOf(mac, net, request), ExchangeAct(mac, net, request, m, hw),
                  Exchanged(mac, net, request, m, hw).sent[|net.sent| + 1].frame);
  }

  /** The bytes of the answer in the exchange. */
  function AnswerBytes(net: Net): Option<Bytes> {
    if net.sent == [] then None else Some(SdcpFrameBytes(net.sent[|net.sent| - 1].frame))
  }

  /** A waiting master takes an authentic matching answer exactly when its number is fresh. */
  lemma TakenIff(mac: KeyedMac, net: Net, f: SdcpFrame)
    requires net.pending.Some? && !net.pending.value.request.Discover? && Arrives(mac, f)
    requires f.source == net.pending.value.request.target && f.source in net.contexts
    requires f.body.header.opCode == net.pending.value.request.AnswerCode()
    requires f.body.header.transactionId == net.pending.value.transactionId
    ensures Answer(mac, net, Some(SdcpFrameBytes(f))) ==
            if f.body.sequenceNumber > net.contexts[f.source].lastReceived then Some(f.body.tlvPayload) else None
  {
  }

  /** A waiting master takes the answer exactly when its number is above the last one it accepted. */
  lemma WaitTakesIff(mac: KeyedMac, net: Net, request: Request, m: Mac, hw: Hardware)
    requires Ready(net, request, m) && !request.Discover?
    ensures var heard := Exchanged(mac, net, request, m, hw);
            var reaction := ReactionTo(net.slaves[m].info, RequestOf(mac, net, request).body, hw);
            && reaction.answer.Some?
            && Answer(mac, heard, AnswerBytes(heard)) ==
               if NextNumber(net.slaves[m].contexts, m) > LastNumber(net.contexts, m)
               then Some(TlvBytes(reaction.answer.value.1)) else None
  {
    var heard := Exchanged(mac, net, request, m, hw);
    AskContexts(mac, net, request, m);
    ExchangeEffect(mac, net, request, m, hw);
    ExchangeAnswer(mac, net, request, m, hw);
    TakenIff(mac, heard, heard.sent[|net.sent| + 1].frame);
  }

  /** The interface and the device info both take what they are given. */
  predicate Works(hw: Hardware) {
    hw.apply.Ok? && hw.read.Ok? && hw.write.Ok?
  }

  /**
   What a request leaves of a slave, for every outcome of the hardware: without a configuration
   nothing changes; with one the interface takes it whenever applying succeeds, and the device
   info and the state follow only when reading and writing the device info succeed as well.
   */
  predicate Leaves(s: Slave, s': Slave, c: Option<IpConfig>, hw: Hardware) {
    && s'.listening == s.listening
    && s'.interface == (if c.Some? && hw.apply.Ok? then c else s.interface)
    && (if c.Some? && Works(hw) then
          && s'.info == s.info.(ipAddress := c.value.ip, netmask := c.value.netmask, gateway := c.value.gateway)
          && s'.state == (if s.state in {DiscoverySync, SafeOp, PreOp} then PreOp else s.state)
        else s'.info == s.info && s'.state == s.state)
  }

  /** The configuration that a request carries. */
  function ConfigIn(b: ParsedSdcp): Option<IpConfig> {
    if b.header.opCode == SetIpReq then RequestedConfig(b.tlvPayload) else None
  }

  lemma ActLeaves(mac: KeyedMac, s: Slave, source: Mac, b: ParsedSdcp, hw: Hardware)
    ensures Leaves(s, Act(mac, s, source, b, hw).0, ConfigIn(b), hw)
  {
  }

  /** The slave after the exchange is the slave that acted. */
  lemma ExchangeActs(mac: KeyedMac, net: Net, request: Request, m: Mac, hw: Hardware)
    requires Ready(net, request, m)
    ensures m in Exchanged(mac, net, request, m, hw).slaves
    ensures var s, f := net.slaves[m], RequestOf(mac, net, request);
            var context := s.contexts[net.own].(lastReceived := f.body.sequenceNumber);
            Exchanged(mac, net, request, m, hw).slaves[m] ==
            Act(mac, s.(contexts := s.contexts[net.own := context]), net.own, f.body, hw).0
  {
    var f, s := RequestOf(mac, net, request), net.slaves[m];
    AskEffect(mac, net, request);
    AwaitedIsTaken(mac, s, m, f);
    TakenIsHandled(mac, s, DiscoverySync, Some(SdcpFrameBytes(f)), hw);
  }

  lemma OtherContexts(s: Slave, contexts: Contexts, s': Slave, c: Option<IpConfig>, hw: Hardware)
    requires Leaves(s.(contexts := contexts), s', c, hw)
    ensures Leaves(s, s', c, hw)
  {
  }

  /** Each exchange leaves the slave as its request says. */
  lemma ExchangeLeaves(mac: KeyedMac, net: Net, request: Request, m: Mac, hw: Hardware)
    requires Ready(net, request, m)
    ensures m in Exchanged(mac, net, request, m, hw).slaves
    ensures Leaves(net.slaves[m], Exchanged(mac, net, request, m, hw).slaves[m],
                   if request.SetIp? then Some(request.config) else None, hw)
  {
    var f, s := RequestOf(mac, net, request), net.slaves[m];
    AskEffect(mac, net, request);
    ExchangeActs(mac, net, request, m, hw);
    var contexts := s.contexts[net.own := s.contexts[net.own].(lastReceived := f.body.sequenceNumber)];
    ActLeaves(mac, s.(contexts := contexts), net.own, f.body, hw);
    OtherContexts(s, contexts, Exchanged(mac, net, request, m, hw).slaves[m], ConfigIn(f.body), hw);
  }

  /**
   One loss-free exchange of `set_ip_config` with a ready slave, for every outcome of its
   hardware: the call returns success if and only if the slave's own counter is above the last
   number the master accepted from it and the hardware worked or hid its failure; and when it
   worked, the slave holds the configuration and has requested PreOp, confirmed or not.
   */
  lemma SetIpCompletesIff(mac: KeyedMac, net: Net, target: Mac, config: IpConfig, hw: Hardware)
    requires Ready(net, SetIp(target, config), target)
    ensures var heard := Exchanged(mac, net, SetIp(target, config), target, hw);
            && (Confirms(mac, heard, AnswerBytes(heard)) <==>
                  && NextNumber(net.slaves[target].contexts, target) > LastNumber(net.contexts, target)
                  && (Works(hw) || HidesFailure(hw)))
            && target in heard.slaves
            && (Works(hw) ==>
                  && Holds(heard.slaves[target], config)
                  && heard.slaves[target].state == Next(net.slaves[target].state, PreOp))
  {
    var request := SetIp(target, config);
    var f := RequestOf(mac, net, request);
    AskEffect(mac, net, request);
    SetIpAnswer(f.body.tlvPayload, hw);
    WaitTakesIff(mac, net, request, target, hw);
    ExchangeEffect(mac, net, request, target, hw);
    ExchangeActs(mac, net, request, target, hw);
    var s := net.slaves[target];
    var context := s.contexts[net.own].(lastReceived := f.body.sequenceNumber);
    if Works(hw) { ActState(mac, s.(contexts := s.contexts[net.own := context]), net.own, f.body, hw); }
  }

  /**
   One loss-free exchange of `get_ip_config` with a ready slave: the answer is taken if and only
   if the slave's own counter is above the last number the master accepted from it, and the call
   then returns the report of its device info if and only if that could be read.
   */
  lemma GetIpCompletesIff(mac: KeyedMac, net: Net, target: Mac, hw: Hardware)
    requires Ready(net, GetIp(target), target)
    ensures var heard := Exchanged(mac, net, GetIp(target), target, hw);
            var answer := Answer(mac, heard, AnswerBytes(heard));
            && (answer.Some? <==> NextNumber(net.slaves[target].contexts, target) > LastNumber(net.contexts, target))
            && (answer.Some? ==>
                  GetIpResult(answer.value) ==
                  if hw.read.Ok? then Ok(ReportOf(net.slaves[target].info)) else Err(ErrInvalidResponse))
  {
    AskEffect(mac, net, GetIp(target));
    WaitTakesIff(mac, net, GetIp(target), target, hw);
    GetIpAnswer(net.slaves[target].info, hw);
  }

  /**
   One loss-free exchange of `discover_devices` with a ready slave: the slave is found, with the
   identity that its device info gives, if and only if its own counter is at one when the master
   has no context for it, and above the last number the master accepted from it otherwise.
   */
  lemma DiscoverCompletesIff(mac: KeyedMac, net: Net, m: Mac, hw: Hardware)
    requires Ready(net, Discover, m)
    ensures var heard := Exchanged(mac, net, Discover, m, hw);
            DiscoverStep(mac, heard.contexts, net.transactionCounter, AnswerBytes(heard)).0 ==
            if FreshNumber(net.contexts, m, NextNumber(net.slaves[m].contexts, m))
            then Some(DiscoveredDevice(m, IdentityOf(Readable(net.slaves[m].info, hw)))) else None
  {
    var heard, found := Exchanged(mac, net, Discover, m, hw), IdentityOf(Readable(net.slaves[m].info, hw));
    AskEffect(mac, net, Discover);
    AskContexts(mac, net, Discover, m);
    ExchangeEffect(mac, net, Discover, m, hw);
    AnnouncedIdentity(m, found);
    FoundFromIff(mac, heard.contexts, net.transactionCounter, heard.sent[|net.sent| + 1].frame,
                 DiscoveredDevice(m, found));
  }

  lemma FoundFromIff(mac: KeyedMac, cs: Contexts, id: u16, f: SdcpFrame, d: DiscoveredDevice)
    requires Arrives(mac, f) && f.source == d.mac && f.body.header.opCode == DiscoverRes
    requires f.body.header.transactionId == id && DeviceOf(d.mac, f.body.tlvPayload) == Some(d)
    ensures DiscoverStep(mac, cs, id, Some(SdcpFrameBytes(f))).0 ==
            if FreshNumber(cs, d.mac, f.body.sequenceNumber) then Some(d) else None
  {
    FoundIff(mac, cs, id, Some(SdcpFrameBytes(f)), d);
  }

  // ---------- exchanges are runs ----------

  /** The first two events of an exchange. */
  function ExchangeEvents(mac: KeyedMac, net: Net, request: Request, m: Mac, hw: Hardware): (Event, Event) {
    (Ask(request, true),
     SlaveHears(m, DiscoverySync, Some(SdcpFrameBytes(RequestOf(mac, net, request))), |net.sent|, hw))
  }

  lemma ExchangeIsRun(mac: KeyedMac, net: Net, request: Request, m: Mac, hw: Hardware)
    requires net.pending.None? && m in net.slaves && (request.Discover? || request.target == m)
    ensures var (ask, hear) := ExchangeEvents(mac, net, request, m, hw);
            && Legal(mac, net, [ask, hear])
            && Exec(mac, net, [ask, hear]) == Exchanged(mac, net, request, m, hw)
  {
    var (ask, hear) := ExchangeEvents(mac, net, request, m, hw);
    AskEffect(mac, net, request);
    LegalSnoc(mac, net, [], ask);
    LegalSnoc(mac, net, [ask], hear);
    assert [] + [ask] == [ask] && [ask] + [hear] == [ask, hear];
  }

  /** Frame `k` confirms the pending assignment, and may be delivered. */
  ghost predicate ConfirmedBy(mac: KeyedMac, net: Net, k: nat) {
    && k < |net.sent|
    && Enabled(mac, net, MasterHears(Some(SdcpFrameBytes(net.sent[k].frame)), k))
    && Confirms(mac, net, Some(SdcpFrameBytes(net.sent[k].frame)))
  }

  lemma ArrivesAsAuthentic(mac: KeyedMac, f: SdcpFrame)
    requires Arrives(mac, f)
    ensures Authentic(mac, Some(SdcpFrameBytes(f))) == Some(f)
  {
  }

  lemma FreshIsReady(net: Net, request: Request, m: Mac)
    requires Initial(net) && m in net.slaves && net.slaves[m].listening && (request.Discover? || request.target == m)
    ensures Ready(net, request, m) && NextNumber(net.slaves[m].contexts, m) == 1
  {
  }

  /**
   From every fresh system in which the master has accepted nothing from the target, asking and
   answering is a run, and it ends with an answer whose delivery confirms the assignment.
   */
  lemma ConfirmedRunExists(mac: KeyedMac, net: Net, target: Mac, config: IpConfig, hw: Hardware)
    requires Initial(net) && target in net.slaves && net.slaves[target].listening
    requires LastNumber(net.contexts, target) == 0 && Works(hw)
    ensures var (ask, hear) := ExchangeEvents(mac, net, SetIp(target, config), target, hw);
            Legal(mac, net, [ask, hear]) && ConfirmedBy(mac, Exec(mac, net, [ask, hear]), 1)
  {
    var request := SetIp(target, config);
    FreshIsReady(net, request, target);
    ExchangeIsRun(mac, net, request, target, hw);
    ExchangeEffect(mac, net, request, target, hw);
    SetIpCompletesIff(mac, net, target, config, hw);
    ArrivesAsAuthentic(mac, Exchanged(mac, net, request, target, hw).sent[1].frame);
  }

  // ---------- what happens when a transaction id comes round ----------

  /** A run, continued by `n` requests that never leave the master. */
  function LostRequests(events: seq<Event>, n: nat): seq<Event> {
    if n == 0 then events else LostRequests(events, n - 1) + [Ask(Discover, false)]
  }

  /** What requests that never leave the master change: its counters and the history. */
  ghost predicate OnlyAsked(net: Net, net': Net, n: nat) {
    && net'.pending.None? && net'.own == net.own && net'.slaves == net.slaves
    && net'.transactionCounter == (net.transactionCounter + n) % 0x1_0000
    && net.sent <= net'.sent
    && forall m :: m != net.own ==> LastNumber(net'.contexts, m) == LastNumber(net.contexts, m)
  }

  lemma LostContext(mac: KeyedMac, net: Net, m: Mac)
    requires m != net.own
    ensures LastNumber(Asked(mac, net, Discover, false).contexts, m) == LastNumber(net.contexts, m)
  {
  }

  /** A request that does not leave, on its own. */
  lemma LostEffect(mac: KeyedMac, net: Net)
    ensures var asked := Asked(mac, net, Discover, false);
            && asked.pending.None? && asked.own == net.own && asked.slaves == net.slaves && net.sent <= asked.sent
            && asked.transactionCounter == (net.transactionCounter + 1) % 0x1_0000
  {
    AskShapeOf(mac, net, Discover, false);
  }

  lemma LostRequest(mac: KeyedMac, net: Net, net': Net, n: nat)
    requires OnlyAsked(net, net', n)
    ensures OnlyAsked(net, Asked(mac, net', Discover, false), n + 1)
  {
    LostEffect(mac, net');
    NextCounter(net.transactionCounter, n);
    forall m | m != net.own
      ensures LastNumber(Asked(mac, net', Discover, false).contexts, m) == LastNumber(net.contexts, m)
    {
      LostContext(mac, net', m);
    }
  }

  lemma NextCounter(counter: nat, n: nat)
    ensures ((counter + n) % 0x1_0000 + 1) % 0x1_0000 == (counter + (n + 1)) % 0x1_0000
  {
  }

  lemma LostRequestStep(mac: KeyedMac, net: Net, events: seq<Event>, start: Net, n: nat)
    requires Legal(mac, net, events) && OnlyAsked(start, Exec(mac, net, events), n)
    ensures Legal(mac, net, events + [Ask(Discover, false)])
    ensures OnlyAsked(start, Exec(mac, net, events + [Ask(Discover, false)]), n + 1)
  {
    LegalSnoc(mac, net, events, Ask(Discover, false));
    LostRequest(mac, start, Exec(mac, net, events), n);
  }

  lemma {:induction false} LostRequestsRun(mac: KeyedMac, net: Net, events: seq<Event>, start: Net, n: nat)
    requires Legal(mac, net, events) && OnlyAsked(start, Exec(mac, net, events), 0)
    ensures Legal(mac, net, LostRequests(events, n))
    ensures OnlyAsked(start, Exec(mac, net, LostRequests(events, n)), n)
  {
    if n > 0 {
      LostRequestsRun(mac, net, events, start, n - 1);
      LostRequestStep(mac, net, LostRequests(events, n - 1), start, n - 1);
    }
  }

  /** An assignment, given up before its answer came, and `n` requests that never leave the master. */
  function StalePrefix(mac: KeyedMac, net: Net, m: Mac, config: IpConfig, hw: Hardware, n: nat): seq<Event> {
    var (ask, hear) := ExchangeEvents(mac, net, SetIp(m, config), m, hw);
    LostRequests([ask, hear] + [GiveUp], n)
  }

  /** A master that waits for the answer to an assignment takes any fresh authentic success with its transaction id. */
  lemma StaleAnswerConfirms(mac: KeyedMac, net: Net, second: Net, k: nat, m: Mac, config: IpConfig)
    requires k < |second.sent| && m != net.own && second.own == net.own
    requires second.pending.Some? && second.pending.value.request == SetIp(m, config)
    requires second.pending.value.transactionId == net.transactionCounter
    requires m in second.contexts && second.contexts[m].lastReceived == 0
    requires var f := second.sent[k].frame;
             && Arrives(mac, f) && f.source == m && f.destination == net.own && f.body.sequenceNumber == 1
             && f.body.header.opCode == SetIpRes && f.body.header.transactionId == net.transactionCounter
             && SetIpResult(f.body.tlvPayload).Ok?
    ensures ConfirmedBy(mac, second, k)
  {
    ArrivesAsAuthentic(mac, second.sent[k].frame);
  }

  /** The answer that the first assignment of a fresh system leaves on the wire. */
  ghost predicate LeavesSuccess(mac: KeyedMac, net: Net, net': Net, m: Mac, config: IpConfig) {
    && |net'.sent| == 2 && net'.own == net.own && m in net'.slaves && Holds(net'.slaves[m], config)
    && net'.transactionCounter == (net.transactionCounter + 1) % 0x1_0000
    && m in net'.contexts && net'.contexts[m].lastReceived == 0
    && var f := net'.sent[1].frame;
    && Arrives(mac, f) && f.source == m && f.destination == net.own && f.body.sequenceNumber == 1
    && f.body.header.opCode == SetIpRes && f.body.header.transactionId == net.transactionCounter
    && SetIpResult(f.body.tlvPayload).Ok?
  }

  /** The answer of the exchange, read as the master would. */
  lemma AnswerSucceeds(mac: KeyedMac, net: Net, m: Mac, config: IpConfig, hw: Hardware)
    requires Ready(net, SetIp(m, config), m) && Works(hw)
    ensures var heard := Exchanged(mac, net, SetIp(m, config), m, hw);
            && |heard.sent| == |net.sent| + 2
            && var f := heard.sent[|net.sent| + 1].frame;
            && f.body.header.opCode == SetIpRes && f.body.header.transactionId == net.transactionCounter
            && SetIpResult(f.body.tlvPayload).Ok?
  {
    AskEffect(mac, net, SetIp(m, config));
    ExchangeAnswer(mac, net, SetIp(m, config), m, hw);
    SetIpAnswer(RequestOf(mac, net, SetIp(m, config)).body.tlvPayload, hw);
  }

  lemma FirstLeavesSuccess(mac: KeyedMac, net: Net, m: Mac, config: IpConfig, hw: Hardware)
    requires Initial(net) && m in net.slaves && net.slaves[m].listening && LastNumber(net.contexts, m) == 0 && Works(hw)
    ensures LeavesSuccess(mac, net, Exchanged(mac, net, SetIp(m, config), m, hw), m, config)
  {
    var request := SetIp(m, config);
    FreshIsReady(net, request, m);
    AskContexts(mac, net, request, m);
    ExchangeEffect(mac, net, request, m, hw);
    AnswerSucceeds(mac, net, m, config, hw);
    SetIpCompletesIff(mac, net, m, config, hw);
  }

  /** The exchange and giving it up. */
  lemma GivenUp(mac: KeyedMac, net: Net, m: Mac, config: IpConfig, hw: Hardware)
    requires Initial(net) && m in net.slaves && net.slaves[m].listening
    ensures var (ask, hear) := ExchangeEvents(mac, net, SetIp(m, config), m, hw);
            && Legal(mac, net, [ask, hear] + [GiveUp])
            && Exec(mac, net, [ask, hear] + [GiveUp]) ==
               Exchanged(mac, net, SetIp(m, config), m, hw).(pending := None)
  {
    var request := SetIp(m, config);
    var (ask, hear) := ExchangeEvents(mac, net, request, m, hw);
    FreshIsReady(net, request, m);
    ExchangeIsRun(mac, net, request, m, hw);
    ExchangeEffect(mac, net, request, m, hw);
    LegalSnoc(mac, net, [ask, hear], GiveUp);
  }

  lemma NothingAsked(net: Net)
    requires net.pending.None?
    ensures OnlyAsked(net, net, 0)
  {
  }

  lemma CounterComesRound(counter: u16)
    ensures ((counter + 1) % 0x1_0000 + 0xFFFF) % 0x1_0000 == counter
  {
  }

  lemma StalePrefixRuns(mac: KeyedMac, net: Net, m: Mac, config: IpConfig, hw: Hardware, n: nat)
    requires Initial(net) && m in net.slaves && net.slaves[m].listening
    ensures var run := StalePrefix(mac, net, m, config, hw, n);
            && Legal(mac, net, run)
            && OnlyAsked(Exchanged(mac, net, SetIp(m, config), m, hw).(pending := None), Exec(mac, net, run), n)
  {
    var (ask, hear) := ExchangeEvents(mac, net, SetIp(m, config), m, hw);
    var start := Exchanged(mac, net, SetIp(m, config), m, hw).(pending := None);
    GivenUp(mac, net, m, config, hw);
    NothingAsked(start);
    LostRequestsRun(mac, net, [ask, hear] + [GiveUp], start, n);
  }

  /** The master waits for a second assignment, and the answer to the first confirms it. */
  ghost predicate ConfirmedWrongly(mac: KeyedMac, net: Net, m: Mac, first: IpConfig, second: IpConfig) {
    && net.pending.Some? && net.pending.value.request == SetIp(m, second) && ConfirmedBy(mac, net, 1)
    && m in net.slaves && Holds(net.slaves[m], first) && !Holds(net.slaves[m], second)
  }

  /** What the second assignment meets, in terms of the first. */
  lemma SecondMeets(mac: KeyedMac, net: Net, start: Net, before: Net, m: Mac, second: IpConfig, n: nat)
    requires m != net.own && start.own == net.own && |start.sent| == 2 && n == 0xFFFF && OnlyAsked(start, before, n)
    requires start.transactionCounter == (net.transactionCounter + 1) % 0x1_0000
    ensures var after := Asked(mac, before, SetIp(m, second), true);
            && after.own == net.own && |after.sent| >= 2 && after.sent[1] == start.sent[1]
            && after.slaves == start.slaves
            && after.pending == Some(Pending(SetIp(m, second), net.transactionCounter, |before.sent|))
  {
    AskEffect(mac, before, SetIp(m, second));
    CounterComesRound(net.transactionCounter);
  }

  lemma SecondContext(mac: KeyedMac, start: Net, before: Net, m: Mac, second: IpConfig, n: nat)
    requires m != start.own && OnlyAsked(start, before, n) && LastNumber(start.contexts, m) == 0
    ensures var after := Asked(mac, before, SetIp(m, second), true);
            m in after.contexts && after.contexts[m].lastReceived == 0
  {
    AskContexts(mac, before, SetIp(m, second), m);
  }

  lemma SecondIsConfirmed(
    mac: KeyedMac, net: Net, start: Net, before: Net, m: Mac, first: IpConfig, second: IpConfig, n: nat)
    requires m != net.own && first != second && n == 0xFFFF
    requires LeavesSuccess(mac, net, start, m, first) && OnlyAsked(start, before, n)
    ensures ConfirmedWrongly(mac, Asked(mac, before, SetIp(m, second), true), m, first, second)
  {
    SecondMeets(mac, net, start, before, m, second, n);
    SecondContext(mac, start, before, m, second, n);
    StaleAnswerConfirms(mac, net, Asked(mac, before, SetIp(m, second), true), 1, m, second);
  }

  /**
   Why the confirmation is claimed only while no confusable request had the same transaction
   id: 65536 requests after an assignment whose answer is still under way, a second assignment
   has its id again, and the late answer confirms it although the slave holds the first.
   */
  lemma StaleConfirmationExample(
    mac: KeyedMac, net: Net, m: Mac, first: IpConfig, second: IpConfig, hw: Hardware, n: nat)
    requires Initial(net) && m in net.slaves && net.slaves[m].listening
    requires LastNumber(net.contexts, m) == 0 && Works(hw) && first != second && n == 0xFFFF
    ensures var run := StalePrefix(mac, net, m, first, hw, n) + [Ask(SetIp(m, second), true)];
            Legal(mac, net, run) && ConfirmedWrongly(mac, Exec(mac, net, run), m, first, second)
  {
    var prefix := StalePrefix(mac, net, m, first, hw, n);
    FirstLeavesSuccess(mac, net, m, first, hw);
    StalePrefixRuns(mac, net, m, first, hw, n);
    LegalSnoc(mac, net, prefix, Ask(SetIp(m, second), true));
    SecondIsConfirmed(mac, net, Exchanged(mac, net, SetIp(m, first), m, hw).(pending := None),
                      Exec(mac, net, prefix), m, first, second, n);
  }
}
