/** What every step of discovery keeps, and what follows for whole runs: order and freshness. */
module SdcpSafety {
  import opened Types
  import opened Crypto
  import opened SdcpCodec
  import opened DiscoveryAuth
  import opened DiscoverySlave
  import opened DiscoveryMaster
  import opened StateMachine
  import opened SdcpNetwork

  // ---------- counting requests, looking up acts ----------

  function CountRequests(sent: seq<Packet>): nat {
    if sent == [] then 0 else CountRequests(sent[..|sent| - 1]) + if sent[|sent| - 1].cause.None? then 1 else 0
  }

  function NumberAfter(count: nat): u64 {
    Min(count + 1, U64_MAX)
  }

  lemma {:induction false} CountPrefix(sent: seq<Packet>, k: nat)
    requires k < |sent|
    ensures CountRequests(sent[..k + 1]) == CountRequests(sent[..k]) + if sent[k].cause.None? then 1 else 0
    ensures CountRequests(sent[..k + 1]) <= CountRequests(sent)
    decreases |sent|
  {
    if k == |sent| - 1 {
      assert sent[..k + 1] == sent;
    } else {
      var front := sent[..|sent| - 1];
      CountPrefix(front, k);
      assert front[..k + 1] == sent[..k + 1] && front[..k] == sent[..k];
    }
  }

  lemma CountSnoc(sent: seq<Packet>, p: Packet)
    ensures CountRequests(sent + [p]) == CountRequests(sent) + if p.cause.None? then 1 else 0
  {
    assert (sent + [p])[..|sent|] == sent;
  }

  /** The latest act of a slave. */
  function LastAct(acts: seq<Acted>, m: Mac): Option<Acted> {
    if acts == [] then None
    else if acts[|acts| - 1].slave == m then Some(acts[|acts| - 1])
    else LastAct(acts[..|acts| - 1], m)
  }

  lemma {:induction false} LastActIs(acts: seq<Acted>, m: Mac)
    ensures LastAct(acts, m).None? ==> forall a :: 0 <= a < |acts| ==> acts[a].slave != m
    ensures LastAct(acts, m).Some? ==>
              exists a :: 0 <= a < |acts| && acts[a].slave == m && acts[a] == LastAct(acts, m).value
                          && forall b :: a < b < |acts| ==> acts[b].slave != m
  {
    if acts != [] {
      var front := acts[..|acts| - 1];
      LastActIs(front, m);
      if acts[|acts| - 1].slave == m {
        assert acts[|acts| - 1] == LastAct(acts, m).value;
      } else if LastAct(front, m).Some? {
        var a :| 0 <= a < |front| && front[a].slave == m && front[a] == LastAct(front, m).value
                 && forall b :: a < b < |front| ==> front[b].slave != m;
        assert acts[a] == front[a];
        forall b | a < b < |acts| ensures acts[b].slave != m {
          if b < |front| { assert front[b] == acts[b]; }
        }
      }
    }
  }

  // ---------- the invariant ----------

  predicate IsRequestCode(op: SdcpOpCode) {
    op == DiscoverReq || op == GetIpReq || op == SetIpReq
  }

  /** The answer is the one the act leads to. */
  ghost predicate AnswerOk(request: SdcpFrame, act: Acted, answer: SdcpFrame) {
    var reaction := ReactionTo(act.info, request.body, act.hw);
    && reaction.answer.Some?
    && answer.body.header.transactionId == request.body.header.transactionId
    && answer.body.header.opCode == reaction.answer.value.0
    && answer.body.tlvPayload == TlvBytes(reaction.answer.value.1)
  }

  ghost predicate RequestOk(net: Net, k: nat)
    requires k < |net.sent|
  {
    var f := net.sent[k].frame;
    && f.source == net.own
    && IsRequestCode(f.body.header.opCode)
    && f.body.header.transactionId == (1 + CountRequests(net.sent[..k])) % 0x1_0000
    && f.body.sequenceNumber == NumberAfter(CountRequests(net.sent[..k]))
  }

  ghost predicate ResponseOk(net: Net, k: nat)
    requires k < |net.sent| && net.sent[k].cause.Some?
  {
    var f, c := net.sent[k].frame, net.sent[k].cause.value;
    && f.source in net.slaves && f.destination == net.own
    && c < k && net.sent[c].cause.None?
    && exists a :: 0 <= a < |net.acts| && net.acts[a].slave == f.source && net.acts[a].origin == c
                   && AnswerOk(net.sent[c].frame, net.acts[a], f)
  }

  ghost predicate PacketOk(net: Net, k: nat)
    requires k < |net.sent|
  {
    if net.sent[k].cause.None? then RequestOk(net, k) else ResponseOk(net, k)
  }

  ghost predicate ActOk(net: Net, a: nat)
    requires a < |net.acts|
  {
    var act := net.acts[a];
    && act.slave in net.slaves
    && act.origin < |net.sent| && net.sent[act.origin].cause.None?
    && var request := net.sent[act.origin].frame;
    && (request.destination == act.slave || request.destination == BROADCAST_MAC)
    && act.applied == ReactionTo(act.info, request.body, act.hw).applied
  }

  function NumberOf(sent: seq<Packet>, act: Option<Acted>): u64 {
    if act.Some? && act.value.origin < |sent| then sent[act.value.origin].frame.body.sequenceNumber else 0
  }

  /** The interface runs a configuration and the device info has it stored. */
  predicate Holds(s: Slave, c: IpConfig) {
    && s.interface == Some(c)
    && s.info.ipAddress == c.ip && s.info.netmask == c.netmask && s.info.gateway == c.gateway
  }

  /** The device info that an act leaves behind. */
  function InfoAfter(act: Acted): DeviceInfo {
    if act.applied.Some? then Stored(act.info, act.applied.value) else act.info
  }

  /** The slave's device info and interface are as its act left them. */
  predicate LeftBy(s: Slave, act: Acted) {
    s.info == InfoAfter(act) && (act.applied.Some? ==> s.interface == act.applied)
  }

  ghost predicate SlaveOk(net: Net, m: Mac)
    requires m in net.slaves
  {
    var s := net.slaves[m];
    && s.mac == m && m != net.own && m != BROADCAST_MAC
    && net.own in s.contexts && s.contexts.Keys <= {net.own, m}
    && s.contexts[net.own].lastReceived == NumberOf(net.sent, LastAct(net.acts, m))
    && (LastAct(net.acts, m).Some? ==> LeftBy(s, LastAct(net.acts, m).value))
  }

  ghost predicate Increasing(net: Net) {
    forall a: nat, b: nat :: a < b < |net.acts| && net.acts[a].slave == net.acts[b].slave ==>
      && net.acts[a].origin < |net.sent| && net.acts[b].origin < |net.sent|
      && net.sent[net.acts[a].origin].frame.body.sequenceNumber < net.sent[net.acts[b].origin].frame.body.sequenceNumber
  }

  ghost predicate MasterOk(net: Net) {
    && net.own != BROADCAST_MAC
    && net.transactionCounter == (1 + CountRequests(net.sent)) % 0x1_0000
    && (net.own in net.contexts ==> net.contexts[net.own].transmitted == NumberAfter(CountRequests(net.sent)))
    && (net.own !in net.contexts ==> CountRequests(net.sent) == 0)
  }

  /** The pending call belongs to the latest request. */
  ghost predicate PendingOk(net: Net) {
    net.pending.Some? ==>
      var p := net.pending.value;
      && p.origin < |net.sent| && net.sent[p.origin].cause.None?
      && (forall k: nat :: p.origin < k < |net.sent| ==> net.sent[k].cause.Some?)
      && net.sent[p.origin].frame.destination == p.request.Destination()
      && net.sent[p.origin].frame.body.header.opCode == p.request.OpCode()
      && net.sent[p.origin].frame.body.header.transactionId == p.transactionId
      && (p.request.SetIp? ==> RequestedConfig(net.sent[p.origin].frame.body.tlvPayload) == Some(p.request.config))
  }

  ghost predicate Inv(net: Net) {
    && MasterOk(net) && PendingOk(net)
    && (forall k: nat :: k < |net.sent| ==> PacketOk(net, k))
    && (forall a: nat :: a < |net.acts| ==> ActOk(net, a))
    && (forall m :: m in net.slaves ==> SlaveOk(net, m))
    && Increasing(net)
  }

  lemma InitialInv(net: Net)
    requires Initial(net)
    ensures Inv(net)
  {
  }

  // ---------- what carries over ----------

  ghost predicate Extends(net: Net, net': Net) {
    && net'.own == net.own && net'.slaves.Keys == net.slaves.Keys
    && net.sent <= net'.sent && net.acts <= net'.acts
  }

  lemma PacketCarries(net: Net, net': Net, k: nat)
    requires Extends(net, net') && k < |net.sent| && PacketOk(net, k)
    ensures PacketOk(net', k)
  {
    assert net'.sent[..k] == net.sent[..k];
    if net.sent[k].cause.Some? {
      var f, c := net.sent[k].frame, net.sent[k].cause.value;
      var a :| 0 <= a < |net.acts| && net.acts[a].slave == f.source && net.acts[a].origin == c
               && AnswerOk(net.sent[c].frame, net.acts[a], f);
      assert net'.acts[a] == net.acts[a];
    }
  }

  lemma ActCarries(net: Net, net': Net, a: nat)
    requires Extends(net, net') && a < |net.acts| && ActOk(net, a)
    ensures ActOk(net', a)
  {
  }

  lemma IncreasingCarries(net: Net, net': Net)
    requires Increasing(net) && Extends(net, net') && net'.acts == net.acts
    ensures Increasing(net')
  {
  }

  /** A slave to which nothing happened. */
  lemma SlaveCarries(net: Net, net': Net, m: Mac)
    requires Inv(net) && Extends(net, net') && m in net.slaves
    requires net'.slaves[m].mac == net.slaves[m].mac && net'.slaves[m].contexts == net.slaves[m].contexts
    requires net'.slaves[m].info == net.slaves[m].info && net'.slaves[m].interface == net.slaves[m].interface
    requires LastAct(net'.acts, m) == LastAct(net.acts, m)
    ensures SlaveOk(net', m)
  {
    assert SlaveOk(net, m);
    LastActIs(net.acts, m);
    if LastAct(net.acts, m).Some? {
      var a: nat :| a < |net.acts| && net.acts[a] == LastAct(net.acts, m).value;
      assert ActOk(net, a);
    }
  }

  // ---------- steps of the master ----------

  lemma QuietStep(net: Net, net': Net)
    requires Inv(net) && Extends(net, net') && net'.sent == net.sent && net'.acts == net.acts
    requires MasterOk(net') && PendingOk(net')
    requires forall m :: m in net.slaves ==>
               && net'.slaves[m].mac == net.slaves[m].mac && net'.slaves[m].contexts == net.slaves[m].contexts
               && net'.slaves[m].info == net.slaves[m].info && net'.slaves[m].interface == net.slaves[m].interface
    ensures Inv(net')
  {
    forall k: nat | k < |net'.sent| ensures PacketOk(net', k) { PacketCarries(net, net', k); }
    forall a: nat | a < |net'.acts| ensures ActOk(net', a) { ActCarries(net, net', a); }
    forall m | m in net'.slaves ensures SlaveOk(net', m) { SlaveCarries(net, net', m); }
    IncreasingCarries(net, net');
  }

  /** A request frame takes its number from the master's own counter and moves it on. */
  lemma BuiltRequest(
    mac: KeyedMac, own: Mac, cs: Contexts, destination: Mac, opCode: SdcpOpCode, id: u16, tlv: Option<Tlv>)
    ensures var (f, cs') := BuildRequest(mac, own, cs, destination, opCode, id, tlv);
            var number := if own in cs then cs[own].transmitted else 1;
            && f.source == own && f.destination == destination
            && f.body.header.opCode == opCode && f.body.header.transactionId == id
            && f.body.tlvPayload == (if tlv.None? then [] else TlvBytes(tlv.value))
            && f.body.sequenceNumber == number
            && own in cs' && cs'[own].transmitted == SaturatingAdd64(number, 1)
  {
  }

  lemma RequestPayload(request: Request)
    requires request.SetIp?
    ensures RequestedConfig(TlvBytes(request.Payload().value)) == Some(request.config)
  {
    IpConfigRoundTrip(request.config);
  }

  lemma NextId(count: nat)
    ensures ((1 + count) % 0x1_0000 + 1) % 0x1_0000 == (1 + (count + 1)) % 0x1_0000
  {
  }

  /** How a request changes the system. */
  ghost predicate AskShape(net: Net, net': Net, request: Request, f: SdcpFrame) {
    && net'.own == net.own && net'.slaves == net.slaves && net'.acts == net.acts
    && net'.sent == net.sent + [Packet(f, None)]
    && net'.transactionCounter == (net.transactionCounter + 1) % 0x1_0000
    && (net'.pending == None || net'.pending == Some(Pending(request, net.transactionCounter, |net.sent|)))
    && f.source == net.own && f.destination == request.Destination() && f.body.header.opCode == request.OpCode()
    && f.body.header.transactionId == net.transactionCounter
    && (request.SetIp? ==> RequestedConfig(f.body.tlvPayload) == Some(request.config))
    && f.body.sequenceNumber == (if net.own in net.contexts then net.contexts[net.own].transmitted else 1)
    && net.own in net'.contexts && net'.contexts[net.own].transmitted == SaturatingAdd64(f.body.sequenceNumber, 1)
  }

  lemma AskShapeOf(mac: KeyedMac, net: Net, request: Request, sendOk: bool)
    ensures var f := BuildRequest(mac, net.own, net.contexts, request.Destination(), request.OpCode(),
                                  net.transactionCounter, request.Payload()).0;
            AskShape(net, Asked(mac, net, request, sendOk), request, f)
  {
    BuiltRequest(mac, net.own, net.contexts, request.Destination(), request.OpCode(), net.transactionCounter,
                 request.Payload());
    if request.SetIp? { RequestPayload(request); }
  }

  lemma AskShapeMaster(net: Net, net': Net, request: Request, f: SdcpFrame)
    requires MasterOk(net) && AskShape(net, net', request, f)
    ensures MasterOk(net') && PendingOk(net') && RequestOk(net', |net.sent|)
  {
    assert net'.sent[..|net.sent|] == net.sent;
    NextId(CountRequests(net.sent));
  }

  lemma AskStep(mac: KeyedMac, net: Net, request: Request, sendOk: bool)
    requires Inv(net) && net.pending.None?
    ensures Inv(Asked(mac, net, request, sendOk))
  {
    var net' := Asked(mac, net, request, sendOk);
    AskShapeOf(mac, net, request, sendOk);
    AskShapeStep(net, net', request,
                 BuildRequest(mac, net.own, net.contexts, request.Destination(), request.OpCode(),
                              net.transactionCounter, request.Payload()).0);
  }

  lemma AskShapeStep(net: Net, net': Net, request: Request, f: SdcpFrame)
    requires Inv(net) && AskShape(net, net', request, f)
    ensures Inv(net')
  {
    AskShapeMaster(net, net', request, f);
    forall k: nat | k < |net'.sent| ensures PacketOk(net', k) {
      if k < |net.sent| { PacketCarries(net, net', k); }
    }
    forall a: nat | a < |net'.acts| ensures ActOk(net', a) { ActCarries(net, net', a); }
    forall m | m in net'.slaves ensures SlaveOk(net', m) { SlaveCarries(net, net', m); }
    IncreasingCarries(net, net');
  }

  /** Receiving never touches a transmit counter. */
  lemma DiscoverKeepsCounter(mac: KeyedMac, cs: Contexts, own: Mac, transactionId: u16, data: Option<Bytes>)
    ensures var cs' := DiscoverStep(mac, cs, transactionId, data).1;
            && (own in cs ==> own in cs' && cs'[own].transmitted == cs[own].transmitted)
            && (own !in cs && own in cs' ==> cs'[own].transmitted == 1)
  {
  }

  lemma WaitKeepsCounter(
    mac: KeyedMac, cs: Contexts, own: Mac, target: Mac, opCode: SdcpOpCode, transactionId: u16, data: Option<Bytes>)
    ensures var cs' := WaitStep(mac, cs, target, opCode, transactionId, data).1;
            && (own in cs <==> own in cs')
            && (own in cs ==> cs'[own].transmitted == cs[own].transmitted)
  {
  }

  /** How listening changes the master: its transmit counter stays, the pending call may end. */
  ghost predicate HearShape(net: Net, net': Net) {
    && net'.own == net.own && net'.sent == net.sent && net'.acts == net.acts && net'.slaves == net.slaves
    && net'.transactionCounter == net.transactionCounter
    && (net'.pending == None || net'.pending == net.pending)
    && (net.own in net.contexts ==>
        net.own in net'.contexts && net'.contexts[net.own].transmitted == net.contexts[net.own].transmitted)
    && (net.own !in net.contexts && net.own in net'.contexts ==> net'.contexts[net.own].transmitted == 1)
  }

  lemma HearShapeOf(mac: KeyedMac, net: Net, data: Option<Bytes>)
    requires net.pending.Some?
    ensures HearShape(net, MasterHeard(mac, net, data))
  {
    var p := net.pending.value;
    if p.request.Discover? {
      DiscoverKeepsCounter(mac, net.contexts, net.own, p.transactionId, data);
    } else {
      WaitKeepsCounter(mac, net.contexts, net.own, p.request.target, p.request.AnswerCode(), p.transactionId, data);
    }
  }

  lemma HearShapeStep(net: Net, net': Net)
    requires Inv(net) && HearShape(net, net')
    ensures Inv(net')
  {
    QuietStep(net, net');
  }

  lemma MasterHearsStep(mac: KeyedMac, net: Net, data: Option<Bytes>)
    requires Inv(net) && net.pending.Some?
    ensures Inv(MasterHeard(mac, net, data))
  {
    HearShapeOf(mac, net, data);
    HearShapeStep(net, MasterHeard(mac, net, data));
  }

  lemma GiveUpStep(net: Net)
    requires Inv(net)
    ensures Inv(net.(pending := None))
  {
    QuietStep(net, net.(pending := None));
  }

  // ---------- steps of a slave ----------

  /** A slave that takes nothing keeps everything but its flags, and answers nothing. */
  lemma NotTaken(mac: KeyedMac, s: Slave, snapshot: DeviceState, data: Option<Bytes>, hw: Hardware)
    requires Takes(mac, s, snapshot, data).None?
    ensures var (s', answer) := Listen(mac, s, snapshot, data, hw);
            answer == None && s' == s.(listening := s'.listening)
  {
  }

  /** A slave only ever takes requests of the master, and only in the order of their numbers. */
  lemma TakenIsRequest(mac: KeyedMac, net: Net, m: Mac, snapshot: DeviceState, data: Option<Bytes>, origin: nat)
    requires Inv(net) && m in net.slaves && Delivered(mac, net, m, data, origin)
    requires Takes(mac, net.slaves[m], snapshot, data).Some?
    ensures var f := Takes(mac, net.slaves[m], snapshot, data).value;
            && origin < |net.sent| && net.sent[origin].frame == f && net.sent[origin].cause.None?
            && f.source == net.own
            && (f.destination == m || f.destination == BROADCAST_MAC)
            && f.body.sequenceNumber > net.slaves[m].contexts[net.own].lastReceived
  {
    assert SlaveOk(net, m) && PacketOk(net, origin);
  }

  /** An answer leaves everything alone but the slave's own counter. */
  lemma RespondKeeps(mac: KeyedMac, s: Slave, target: Mac, opCode: SdcpOpCode, id: u16, tlv: Tlv, own: Mac)
    requires own in s.contexts && own != s.mac
    ensures var (f, s') := Respond(mac, s, target, opCode, id, tlv);
            && s' == s.(contexts := s'.contexts)
            && own in s'.contexts && s'.contexts[own] == s.contexts[own]
            && s'.contexts.Keys == s.contexts.Keys + {s.mac}
            && f.source == s.mac && f.destination == target
            && f.body.header.opCode == opCode && f.body.header.transactionId == id
            && f.body.tlvPayload == TlvBytes(tlv)
  {
  }

  /** What acting on a request changes in the slave, and what it answers. */
  lemma ActEffect(mac: KeyedMac, s: Slave, own: Mac, f: SdcpFrame, origin: nat, hw: Hardware)
    requires own in s.contexts && s.mac != own && s.contexts.Keys <= {own, s.mac} && f.source == own
    ensures var act := ActOn(s, origin, f, hw);
            var (s', answer) := Act(mac, s, own, f.body, hw);
            && s'.mac == s.mac
            && own in s'.contexts && s'.contexts.Keys <= {own, s.mac} && s'.contexts[own] == s.contexts[own]
            && LeftBy(s', act)
            && (answer.Some? ==>
                  answer.value.source == s.mac && answer.value.destination == own && AnswerOk(f, act, answer.value))
  {
    var reaction := ReactionTo(s.info, f.body, hw);
    if reaction.answer.Some? {
      var s1 := s.(interface := InterfaceAfter(s, f.body, hw), info := InfoAfter(ActOn(s, origin, f, hw)));
      var (opCode, tlv) := reaction.answer.value;
      RespondKeeps(mac, s1, own, opCode, f.body.header.transactionId, tlv, own);
    }
  }

  /** A slave that takes a frame first stores its number and then acts on it. */
  lemma TakenIsHandled(mac: KeyedMac, s: Slave, snapshot: DeviceState, data: Option<Bytes>, hw: Hardware)
    requires Takes(mac, s, snapshot, data).Some?
    ensures var f := Takes(mac, s, snapshot, data).value;
            && f.source in s.contexts
            && var context := s.contexts[f.source].(lastReceived := f.body.sequenceNumber);
            Listen(mac, s, snapshot, data, hw) ==
            Act(mac, s.(contexts := s.contexts[f.source := context]), f.source, f.body, hw)
  {
  }

  /** What an act leaves alone, and what it adds to the histories. */
  ghost predicate ActFrame(net: Net, net': Net, act: Acted, answer: Option<SdcpFrame>) {
    && net'.own == net.own && net'.contexts == net.contexts
    && net'.transactionCounter == net.transactionCounter && net'.pending == net.pending
    && act.slave in net.slaves && net'.slaves.Keys == net.slaves.Keys
    && (forall x :: x in net.slaves && x != act.slave ==> net'.slaves[x] == net.slaves[x])
    && net'.sent == (if answer.None? then net.sent else net.sent + [Packet(answer.value, Some(act.origin))])
    && net'.acts == net.acts + [act]
  }

  /** What the acting slave becomes and answers, given the request it took. */
  ghost predicate ActLocal(own: Mac, f: SdcpFrame, s': Slave, act: Acted, answer: Option<SdcpFrame>) {
    && s'.mac == act.slave
    && own in s'.contexts && s'.contexts.Keys <= {own, act.slave}
    && s'.contexts[own].lastReceived == f.body.sequenceNumber
    && LeftBy(s', act) && act.applied == ReactionTo(act.info, f.body, act.hw).applied
    && (answer.Some? ==>
          answer.value.source == act.slave && answer.value.destination == own && AnswerOk(f, act, answer.value))
  }

  /** How an act changes the system. */
  ghost predicate ActShape(net: Net, net': Net, act: Acted, answer: Option<SdcpFrame>) {
    && ActFrame(net, net', act, answer)
    && act.origin < |net.sent| && net.sent[act.origin].cause.None?
    && var f, s := net.sent[act.origin].frame, net.slaves[act.slave];
    && (f.destination == act.slave || f.destination == BROADCAST_MAC)
    && net.own in s.contexts && f.body.sequenceNumber > s.contexts[net.own].lastReceived
    && ActLocal(net.own, f, net'.slaves[act.slave], act, answer)
  }

  /** What a slave makes of a frame it takes from the master. */
  lemma TakenEffect(
    mac: KeyedMac, s: Slave, own: Mac, snapshot: DeviceState, data: Option<Bytes>, origin: nat, hw: Hardware)
    requires Takes(mac, s, snapshot, data).Some? && Takes(mac, s, snapshot, data).value.source == own
    requires own in s.contexts && s.mac != own && s.contexts.Keys <= {own, s.mac}
    ensures var f := Takes(mac, s, snapshot, data).value;
            var (s', answer) := Listen(mac, s, snapshot, data, hw);
            ActLocal(own, f, s', ActOn(s, origin, f, hw), answer)
  {
    var f := Takes(mac, s, snapshot, data).value;
    TakenIsHandled(mac, s, snapshot, data, hw);
    var taken := s.(contexts := s.contexts[own := s.contexts[own].(lastReceived := f.body.sequenceNumber)]);
    ActEffect(mac, taken, own, f, origin, hw);
  }

  lemma ActFrameOf(
    mac: KeyedMac, net: Net, m: Mac, snapshot: DeviceState, data: Option<Bytes>, origin: nat, hw: Hardware)
    requires m in net.slaves && net.slaves[m].mac == m && Takes(mac, net.slaves[m], snapshot, data).Some?
    ensures var s, net' := net.slaves[m], SlaveHeard(mac, net, m, snapshot, data, origin, hw);
            var (s', answer) := Listen(mac, s, snapshot, data, hw);
            && ActFrame(net, net', ActOn(s, origin, Takes(mac, s, snapshot, data).value, hw), answer)
            && net'.slaves[m] == s'
  {
  }

  lemma ActShapeOf(
    mac: KeyedMac, net: Net, m: Mac, snapshot: DeviceState, data: Option<Bytes>, origin: nat, hw: Hardware)
    requires Inv(net) && m in net.slaves && Delivered(mac, net, m, data, origin)
    requires Takes(mac, net.slaves[m], snapshot, data).Some?
    ensures var s := net.slaves[m];
            var f := Takes(mac, s, snapshot, data).value;
            ActShape(net, SlaveHeard(mac, net, m, snapshot, data, origin, hw),
                     ActOn(s, origin, f, hw), Listen(mac, s, snapshot, data, hw).1)
  {
    assert SlaveOk(net, m);
    TakenIsRequest(mac, net, m, snapshot, data, origin);
    TakenEffect(mac, net.slaves[m], net.own, snapshot, data, origin, hw);
    ActFrameOf(mac, net, m, snapshot, data, origin, hw);
  }

  lemma ActShapeIncreasing(net: Net, net': Net, act: Acted, answer: Option<SdcpFrame>)
    requires Inv(net) && ActShape(net, net', act, answer)
    ensures Increasing(net')
  {
    forall a: nat, b: nat | a < b < |net'.acts| && net'.acts[a].slave == net'.acts[b].slave
      ensures net'.acts[a].origin < |net'.sent| && net'.acts[b].origin < |net'.sent|
      ensures net'.sent[net'.acts[a].origin].frame.body.sequenceNumber
              < net'.sent[net'.acts[b].origin].frame.body.sequenceNumber
    {
      if b == |net.acts| {
        assert SlaveOk(net, act.slave);
        ActedBelow(net, act.slave, a);
      }
    }
  }

  /** Everything a slave acted on is numbered no higher than its last act. */
  lemma ActedBelow(net: Net, m: Mac, a: nat)
    requires (forall a: nat :: a < |net.acts| ==> ActOk(net, a)) && Increasing(net)
    requires a < |net.acts| && net.acts[a].slave == m
    ensures net.acts[a].origin < |net.sent|
    ensures net.sent[net.acts[a].origin].frame.body.sequenceNumber <= NumberOf(net.sent, LastAct(net.acts, m))
  {
    LastActIs(net.acts, m);
    var b: nat :| b < |net.acts| && net.acts[b].slave == m && net.acts[b] == LastAct(net.acts, m).value
                  && forall c :: b < c < |net.acts| ==> net.acts[c].slave != m;
    assert ActOk(net, a) && ActOk(net, b);
  }

  lemma ActShapeSlave(net: Net, net': Net, act: Acted, answer: Option<SdcpFrame>, x: Mac)
    requires Inv(net) && ActShape(net, net', act, answer) && x in net'.slaves
    ensures SlaveOk(net', x)
  {
    assert net'.acts[..|net.acts|] == net.acts;
    assert SlaveOk(net, act.slave);
    if x != act.slave { SlaveCarries(net, net', x); }
  }

  lemma ActShapePacket(net: Net, net': Net, act: Acted, answer: Option<SdcpFrame>, k: nat)
    requires Inv(net) && ActShape(net, net', act, answer) && k < |net'.sent|
    ensures PacketOk(net', k)
  {
    if k < |net.sent| {
      PacketCarries(net, net', k);
    } else {
      assert net'.acts[|net.acts|] == act;
    }
  }

  lemma ActShapeMaster(net: Net, net': Net, act: Acted, answer: Option<SdcpFrame>)
    requires MasterOk(net) && PendingOk(net) && ActShape(net, net', act, answer)
    ensures MasterOk(net') && PendingOk(net')
  {
    if answer.Some? {
      CountSnoc(net.sent, Packet(answer.value, Some(act.origin)));
    }
  }

  lemma ActShapeActs(net: Net, net': Net, act: Acted, answer: Option<SdcpFrame>, a: nat)
    requires Inv(net) && ActShape(net, net', act, answer) && a < |net'.acts|
    ensures ActOk(net', a)
  {
    if a < |net.acts| { ActCarries(net, net', a); }
  }

  lemma ActShapeStep(net: Net, net': Net, act: Acted, answer: Option<SdcpFrame>)
    requires Inv(net) && ActShape(net, net', act, answer)
    ensures Inv(net')
  {
    ActShapeMaster(net, net', act, answer);
    ActShapeIncreasing(net, net', act, answer);
    forall k: nat | k < |net'.sent| ensures PacketOk(net', k) { ActShapePacket(net, net', act, answer, k); }
    forall x | x in net'.slaves ensures SlaveOk(net', x) { ActShapeSlave(net, net', act, answer, x); }
    forall a: nat | a < |net'.acts| ensures ActOk(net', a) { ActShapeActs(net, net', act, answer, a); }
  }

  lemma ActStep(
    mac: KeyedMac, net: Net, m: Mac, snapshot: DeviceState, data: Option<Bytes>, origin: nat, hw: Hardware)
    requires Inv(net) && m in net.slaves && Delivered(mac, net, m, data, origin)
    requires Takes(mac, net.slaves[m], snapshot, data).Some?
    ensures Inv(SlaveHeard(mac, net, m, snapshot, data, origin, hw))
  {
    ActShapeOf(mac, net, m, snapshot, data, origin, hw);
    var s := net.slaves[m];
    ActShapeStep(net, SlaveHeard(mac, net, m, snapshot, data, origin, hw),
                 ActOn(s, origin, Takes(mac, s, snapshot, data).value, hw), Listen(mac, s, snapshot, data, hw).1);
  }

  lemma IgnoredStep(
    mac: KeyedMac, net: Net, m: Mac, snapshot: DeviceState, data: Option<Bytes>, origin: nat, hw: Hardware)
    requires Inv(net) && m in net.slaves && Takes(mac, net.slaves[m], snapshot, data).None?
    ensures Inv(SlaveHeard(mac, net, m, snapshot, data, origin, hw))
  {
    NotTaken(mac, net.slaves[m], snapshot, data, hw);
    FlagStep(net, m, net.slaves[m].state, Listen(mac, net.slaves[m], snapshot, data, hw).0.listening);
  }

  lemma SlaveHearsStep(
    mac: KeyedMac, net: Net, m: Mac, snapshot: DeviceState, data: Option<Bytes>, origin: nat, hw: Hardware)
    requires Inv(net) && m in net.slaves && Delivered(mac, net, m, data, origin)
    ensures Inv(SlaveHeard(mac, net, m, snapshot, data, origin, hw))
  {
    if Takes(mac, net.slaves[m], snapshot, data).Some? {
      ActStep(mac, net, m, snapshot, data, origin, hw);
    } else {
      IgnoredStep(mac, net, m, snapshot, data, origin, hw);
    }
  }

  /** Requests for a state over the management API, and restarts of the listener. */
  lemma FlagStep(net: Net, m: Mac, state: DeviceState, listening: bool)
    requires Inv(net) && m in net.slaves
    ensures Inv(net.(slaves := net.slaves[m := net.slaves[m].(state := state, listening := listening)]))
  {
    QuietStep(net, net.(slaves := net.slaves[m := net.slaves[m].(state := state, listening := listening)]));
  }

  lemma StepInv(mac: KeyedMac, net: Net, e: Event)
    requires Inv(net) && Enabled(mac, net, e)
    ensures Inv(NextNet(mac, net, e))
  {
    match e
    case Ask(request, sendOk) => AskStep(mac, net, request, sendOk);
    case MasterHears(data, _) => MasterHearsStep(mac, net, data);
    case GiveUp => GiveUpStep(net);
    case SlaveHears(m, snapshot, data, origin, hw) => SlaveHearsStep(mac, net, m, snapshot, data, origin, hw);
    case SlaveRequestState(m, target) => FlagStep(net, m, Next(net.slaves[m].state, target), net.slaves[m].listening);
    case RestartListener(m) => FlagStep(net, m, net.slaves[m].state, true);
  }

  lemma {:induction false} ExecInv(mac: KeyedMac, net: Net, events: seq<Event>)
    requires Inv(net) && Legal(mac, net, events)
    ensures Inv(Exec(mac, net, events))
    decreases |events|
  {
    if events != [] {
      var n := |events| - 1;
      ExecInv(mac, net, events[..n]);
      StepInv(mac, Exec(mac, net, events[..n]), events[n]);
    }
  }

  // ---------- consequences for runs ----------

  /** The numbers of the master's requests never fall along the order of sending. */
  lemma NumbersFollowRequests(net: Net, k: nat, l: nat)
    requires forall k: nat :: k < |net.sent| ==> PacketOk(net, k)
    requires k < l < |net.sent| && net.sent[k].cause.None? && net.sent[l].cause.None?
    ensures CountRequests(net.sent[..k]) < CountRequests(net.sent[..l]) < CountRequests(net.sent)
    ensures net.sent[k].frame.body.sequenceNumber <= net.sent[l].frame.body.sequenceNumber
  {
    assert PacketOk(net, k) && PacketOk(net, l);
    CountPrefix(net.sent[..l], k);
    assert net.sent[..l][..k] == net.sent[..k] && net.sent[..l][..k + 1] == net.sent[..k + 1]
           && net.sent[..l][k] == net.sent[k];
    CountPrefix(net.sent, l);
  }

  /** An act is on a request of the master. */
  lemma ActOrigin(net: Net, a: nat)
    requires Inv(net) && a < |net.acts|
    ensures var k := net.acts[a].origin;
            k < |net.sent| && net.sent[k].cause.None? && net.sent[k].frame.source == net.own
  {
    assert ActOk(net, a);
    assert PacketOk(net, net.acts[a].origin);
  }

  lemma ActsInOrder(net: Net, a: nat, b: nat)
    requires Inv(net) && a < b < |net.acts| && net.acts[a].slave == net.acts[b].slave
    ensures var ka, kb := net.acts[a].origin, net.acts[b].origin;
            && ka < kb < |net.sent|
            && net.sent[ka].cause.None? && net.sent[kb].cause.None?
            && net.sent[ka].frame.source == net.sent[kb].frame.source == net.own
            && net.sent[ka].frame.body.sequenceNumber < net.sent[kb].frame.body.sequenceNumber
  {
    ActOrigin(net, a);
    ActOrigin(net, b);
    var ka, kb := net.acts[a].origin, net.acts[b].origin;
    assert net.sent[ka].frame.body.sequenceNumber < net.sent[kb].frame.body.sequenceNumber;
    if kb < ka { NumbersFollowRequests(net, kb, ka); }
  }

  /**
   Although the master uses one transmit counter for all destinations: in every run the
   requests a slave acts on are a subsequence of the master's requests, in the order of
   sending, and none is acted on twice.
   */
  lemma {:induction false} ActsAreSubsequence(mac: KeyedMac, net: Net, events: seq<Event>, a: nat, b: nat)
    requires Initial(net) && Legal(mac, net, events)
    requires a < b < |Exec(mac, net, events).acts|
    requires Exec(mac, net, events).acts[a].slave == Exec(mac, net, events).acts[b].slave
    ensures var end := Exec(mac, net, events);
            var ka, kb := end.acts[a].origin, end.acts[b].origin;
            && ka < kb < |end.sent|
            && end.sent[ka].cause.None? && end.sent[kb].cause.None?
            && end.sent[ka].frame.source == end.sent[kb].frame.source == end.own
            && end.sent[ka].frame.body.sequenceNumber < end.sent[kb].frame.body.sequenceNumber
  {
    InitialInv(net);
    ExecInv(mac, net, events);
    ActsInOrder(Exec(mac, net, events), a, b);
  }

  /** The answer to request `k` could be taken for one to request `r`: same opcode, and it reached the same slave. */
  ghost predicate Confusable(net: Net, k: nat, r: nat) {
    && k < |net.sent| && r < |net.sent|
    && var f, g := net.sent[k].frame, net.sent[r].frame;
    && net.sent[k].cause.None? && f.body.header.opCode == g.body.header.opCode
    && (f.destination == g.destination || f.destination == BROADCAST_MAC)
  }

  /** No earlier request that could be confused with request `r` used its transaction id. */
  ghost predicate NoReuse(net: Net, r: nat) {
    forall k: nat :: k < r && Confusable(net, k, r) ==>
      net.sent[k].frame.body.header.transactionId != net.sent[r].frame.body.header.transactionId
  }

  /** Transaction ids repeat no earlier than after 65536 requests. */
  lemma FirstRequestsDoNotReuse(net: Net, r: nat)
    requires forall k: nat :: k < |net.sent| ==> PacketOk(net, k)
    requires r < |net.sent| && net.sent[r].cause.None? && CountRequests(net.sent) <= 0x1_0000
    ensures NoReuse(net, r)
  {
    forall k: nat | k < r && Confusable(net, k, r)
      ensures net.sent[k].frame.body.header.transactionId != net.sent[r].frame.body.header.transactionId
    {
      NumbersFollowRequests(net, k, r);
      assert PacketOk(net, k) && PacketOk(net, r);
      DistinctIds(CountRequests(net.sent[..k]), CountRequests(net.sent[..r]));
    }
  }

  lemma DistinctIds(i: nat, j: nat)
    requires i < j < 0x1_0000
    ensures (1 + i) % 0x1_0000 != (1 + j) % 0x1_0000
  {
  }
}
