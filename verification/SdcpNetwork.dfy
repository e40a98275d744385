/**
 Discovery as a whole: one master and any number of slaves with distinct MAC addresses. The
 network may drop, duplicate, delay and reorder frames and deliver anything that does not
 authenticate; authentic frames reach only their destination, or everybody when broadcast.
 */
module SdcpNetwork {
  import opened Types
  import opened Crypto
  import opened SdcpCodec
  import opened DiscoveryAuth
  import opened DiscoverySlave
  import opened DiscoveryMaster
  import opened StateMachine

  /** A frame on the wire; an answer names the request it answers. */
  datatype Packet = Packet(frame: SdcpFrame, cause: Option<nat>)

  /**
   A slave acted on a request: with this device info beforehand and these outcomes of its
   hardware, and it applied and stored this configuration, if any.
   */
  datatype Acted = Acted(slave: Mac, origin: nat, info: DeviceInfo, hw: Hardware, applied: Option<IpConfig>)

  datatype Request = Discover | GetIp(target: Mac) | SetIp(target: Mac, config: IpConfig)
  {
    function Destination(): Mac {
      if Discover? then BROADCAST_MAC else target
    }

    function OpCode(): SdcpOpCode {
      match this
      case Discover => DiscoverReq
      case GetIp(_) => GetIpReq
      case SetIp(_, _) => SetIpReq
    }

    function AnswerCode(): SdcpOpCode {
      match this
      case Discover => DiscoverRes
      case GetIp(_) => GetIpRes
      case SetIp(_, _) => SetIpRes
    }

    function Payload(): Option<Tlv> {
      if SetIp? then Some(IpConfigTlv(config)) else None
    }
  }

  /** The call the master is waiting in. */
  datatype Pending = Pending(request: Request, transactionId: u16, origin: nat)

  datatype Net = Net(
    own: Mac, contexts: Contexts, transactionCounter: u16, cache: Cache, pending: Option<Pending>,
    slaves: map<Mac, Slave>, sent: seq<Packet>, acts: seq<Acted>)

  datatype Event =
    | Ask(request: Request, sendOk: bool)
    | MasterHears(data: Option<Bytes>, origin: nat)
    | GiveUp
    | SlaveHears(slave: Mac, snapshot: DeviceState, data: Option<Bytes>, origin: nat, hw: Hardware)
    | SlaveRequestState(slave: Mac, target: DeviceState)
    | RestartListener(slave: Mac)

  /** The parsed frame, if it parses and its tag verifies. */
  function Authentic(mac: KeyedMac, data: Option<Bytes>): Option<SdcpFrame> {
    if data.None? then None
    else
      match ParseSdcpFrame(data.value)
      case None => None
      case Some(f) => if SdcpTagMatches(mac, f.body) then Some(f) else None
  }

  /** Authentic data at `m` is a frame somebody sent, to `m` or to everybody. */
  predicate Delivered(mac: KeyedMac, net: Net, m: Mac, data: Option<Bytes>, origin: nat) {
    Authentic(mac, data).Some? ==>
      && origin < |net.sent|
      && net.sent[origin].frame == Authentic(mac, data).value
      && (net.sent[origin].frame.destination == m || net.sent[origin].frame.destination == BROADCAST_MAC)
  }

  predicate Enabled(mac: KeyedMac, net: Net, e: Event) {
    match e
    case Ask(_, _) => net.pending.None?
    case MasterHears(data, origin) => net.pending.Some? && Delivered(mac, net, net.own, data, origin)
    case GiveUp => net.pending.Some?
    case SlaveHears(s, _, data, origin, _) => s in net.slaves && Delivered(mac, net, s, data, origin)
    case SlaveRequestState(s, _) => s in net.slaves
    case RestartListener(s) => s in net.slaves
  }

  /** The request a listener takes: it listens, the snapshot was DiscoverySync, and authentication succeeds. */
  function Takes(mac: KeyedMac, s: Slave, snapshot: DeviceState, data: Option<Bytes>): Option<SdcpFrame> {
    if !s.listening || snapshot != DiscoverySync || data.None? then None
    else
      match ParseSdcpFrame(data.value)
      case None => None
      case Some(f) => if ValidateTag(mac, s.contexts, f.source, f.body).0 then Some(f) else None
  }

  function MasterHeard(mac: KeyedMac, net: Net, data: Option<Bytes>): Net
    requires net.pending.Some?
  {
    var p := net.pending.value;
    if p.request.Discover? then
      var (found, contexts') := DiscoverStep(mac, net.contexts, p.transactionId, data);
      net.(contexts := contexts', cache := CacheAfter(net.cache, [found]))
    else
      var (answer, contexts') := WaitStep(mac, net.contexts, p.request.target, p.request.AnswerCode(), p.transactionId,
                                          data);
      net.(contexts := contexts', pending := if answer.Some? then None else net.pending)
  }

  function ActOn(s: Slave, origin: nat, f: SdcpFrame, hw: Hardware): Acted {
    Acted(s.mac, origin, s.info, hw, ReactionTo(s.info, f.body, hw).applied)
  }

  function SlaveHeard(
    mac: KeyedMac, net: Net, m: Mac, snapshot: DeviceState, data: Option<Bytes>, origin: nat, hw: Hardware): Net
    requires m in net.slaves
  {
    var s := net.slaves[m];
    var (s', answer) := Listen(mac, s, snapshot, data, hw);
    var taken := Takes(mac, s, snapshot, data);
    net.(slaves := net.slaves[m := s'],
         sent := if answer.None? then net.sent else net.sent + [Packet(answer.value, Some(origin))],
         acts := if taken.None? then net.acts else net.acts + [ActOn(s, origin, taken.value, hw)])
  }

  function Asked(mac: KeyedMac, net: Net, request: Request, sendOk: bool): Net {
    var id := net.transactionCounter;
    var (frame, cs) := BuildRequest(mac, net.own, net.contexts, request.Destination(), request.OpCode(), id,
                                    request.Payload());
    net.(contexts := if sendOk && !request.Discover? then AddDevice(cs, request.target) else cs,
         transactionCounter := (id + 1) % 0x1_0000,
         pending := if sendOk then Some(Pending(request, id, |net.sent|)) else None,
         sent := net.sent + [Packet(frame, None)])
  }

  function NextNet(mac: KeyedMac, net: Net, e: Event): Net
    requires Enabled(mac, net, e)
  {
    match e
    case Ask(request, sendOk) => Asked(mac, net, request, sendOk)
    case MasterHears(data, _) => MasterHeard(mac, net, data)
    case GiveUp => net.(pending := None)
    case SlaveHears(m, snapshot, data, origin, hw) => SlaveHeard(mac, net, m, snapshot, data, origin, hw)
    case SlaveRequestState(m, target) =>
      var s := net.slaves[m];
      net.(slaves := net.slaves[m := s.(state := Next(s.state, target))])
    case RestartListener(m) => net.(slaves := net.slaves[m := net.slaves[m].(listening := true)])
  }

  /** Every event is enabled in the state it meets. */
  ghost predicate Legal(mac: KeyedMac, net: Net, events: seq<Event>)
    decreases |events|, 0
  {
    events == [] ||
    var n := |events| - 1;
    Legal(mac, net, events[..n]) && Enabled(mac, Exec(mac, net, events[..n]), events[n])
  }

  /** The state after a run. */
  ghost function Exec(mac: KeyedMac, net: Net, events: seq<Event>): Net
    requires Legal(mac, net, events)
    decreases |events|, 1
  {
    if events == [] then net
    else
      var n := |events| - 1;
      NextNet(mac, Exec(mac, net, events[..n]), events[n])
  }

  lemma LegalSnoc(mac: KeyedMac, net: Net, events: seq<Event>, e: Event)
    requires Legal(mac, net, events) && Enabled(mac, Exec(mac, net, events), e)
    ensures Legal(mac, net, events + [e])
    ensures Exec(mac, net, events + [e]) == NextNet(mac, Exec(mac, net, events), e)
  {
    assert (events + [e])[..|events|] == events;
  }

  /** Fresh counters on all sides; every slave knows the master and nobody else. */
  ghost predicate Initial(net: Net) {
    && net.sent == [] && net.acts == [] && net.pending == None && net.transactionCounter == 1
    && net.own != BROADCAST_MAC
    && (net.own in net.contexts ==> net.contexts[net.own].transmitted == 1)
    && forall m :: m in net.slaves ==>
         && net.slaves[m].mac == m && m != net.own && m != BROADCAST_MAC
         && net.slaves[m].contexts.Keys == {net.own}
         && net.slaves[m].contexts[net.own].lastReceived == 0
  }
}
