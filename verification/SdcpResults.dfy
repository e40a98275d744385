/** What the results of the master's calls mean on the slaves, over whole runs of discovery. */
module SdcpResults {
  import opened Types
  import opened Crypto
  import opened SdcpCodec
  import opened DiscoveryAuth
  import opened DiscoverySlave
  import opened DiscoveryMaster
  import opened StateMachine
  import opened SdcpNetwork
  import opened SdcpSafety

  // ---------- what an answer says ----------

  /** The device info fails to take an applied configuration with "no error" as its error code. */
  predicate HidesFailure(hw: Hardware) {
    hw.apply.Ok? && (hw.read == Err(NoError) || (hw.read.Ok? && hw.write == Err(NoError)))
  }

  /**
   A set-IP answer reads as success exactly when both the interface and the device info took
   the configuration, or the device info failed with "no error" as its code.
   */
  lemma SetIpAnswer(tlvPayload: Bytes, hw: Hardware)
    ensures var r := SetIpReaction(tlvPayload, hw);
            && (r.answer.Some? <==> RequestedConfig(tlvPayload).Some?)
            && (r.applied.Some? ==>
                  r.applied == RequestedConfig(tlvPayload) && hw.apply.Ok? && hw.read.Ok? && hw.write.Ok?)
            && (r.answer.Some? ==>
                  && r.answer.value.0 == SetIpRes
                  && (SetIpResult(TlvBytes(r.answer.value.1)).Err? ==>
                        SetIpResult(TlvBytes(r.answer.value.1)).code == ErrHardwareAccess)
                  && (SetIpResult(TlvBytes(r.answer.value.1)).Ok? <==> r.applied.Some? || HidesFailure(hw)))
  {
    var r := SetIpReaction(tlvPayload, hw);
    if r.answer.Some? {
      var code :=
        match (hw.apply, hw.read, hw.write)
        case (Err(_), _, _) => ErrHardwareAccess
        case (Ok(_), Err(code), _) => code
        case (Ok(_), Ok(_), Err(code)) => code
        case (Ok(_), Ok(_), Ok(_)) => NoError;
      StatusReportRoundTrip(code);
    }
  }

  /** The exception is real: a write that fails with "no error" is reported to the master as success. */
  lemma HiddenFailureExample(c: IpConfig)
    ensures var hw := Hardware(Ok(()), Ok(()), Err(NoError));
            var r := SetIpReaction(TlvBytes(IpConfigTlv(c)), hw);
            r.applied.None? && r.answer.Some? && SetIpResult(TlvBytes(r.answer.value.1)).Ok?
  {
    IpConfigRoundTrip(c);
    SetIpAnswer(TlvBytes(IpConfigTlv(c)), Hardware(Ok(()), Ok(()), Err(NoError)));
  }

  /** A get-IP answer reads as the report exactly when the device info could be read. */
  lemma GetIpAnswer(info: DeviceInfo, hw: Hardware)
    ensures GetIpResult(TlvBytes(ReportTlv(info, hw))) ==
            if hw.read.Ok? then Ok(ReportOf(info)) else Err(ErrInvalidResponse)
  {
    match hw.read
    case Ok(_) => IpReportRoundTrip(ReportOf(info));
    case Err(code) => StatusReportRoundTrip(code);
  }

  /** Which field of the device info becomes which field of the report, with what default. */
  lemma ReportFields(info: DeviceInfo)
    ensures var r := ReportOf(info);
            && r.config.ip == (if |info.ipAddress| == 4 then info.ipAddress else [0, 0, 0, 0])
            && r.config.netmask == (if |info.netmask| == 4 then info.netmask else [255, 255, 255, 0])
            && r.config.gateway == (if |info.gateway| == 4 then info.gateway else [0, 0, 0, 0])
            && r.source == info.ipSource
  {
  }

  /** What a discovery response tells: vendor, product and serial number, all zero when the info cannot be read. */
  lemma IdentityFields(info: DeviceInfo, hw: Hardware)
    ensures var d := IdentityOf(Readable(info, hw));
            if hw.read.Ok? then
              && d.vendorId == info.vendorId % 0x1_0000 && d.deviceId == info.deviceId % 0x1_0000
              && d.serialNumber == info.serialNumber
            else d == DeviceIdentity(0, 0, 0)
  {
  }

  /** A device info that stores a configuration reports exactly this configuration. */
  predicate Stores(info: DeviceInfo, c: IpConfig) {
    info.ipAddress == c.ip && info.netmask == c.netmask && info.gateway == c.gateway
  }

  lemma StoredIsReported(info: DeviceInfo, c: IpConfig)
    requires Stores(info, c)
    ensures ReportOf(info).config == c
  {
    ReportFields(info);
  }

  // ---------- which act an answer stems from ----------

  /** The payload that the waiting master takes as its answer, if any. */
  function Answer(mac: KeyedMac, net: Net, data: Option<Bytes>): Option<Bytes> {
    if net.pending.None? || net.pending.value.request.Discover? then None
    else
      var p := net.pending.value;
      WaitStep(mac, net.contexts, p.request.target, p.request.AnswerCode(), p.transactionId, data).0
  }

  /** Act `a` is that of the target of the pending call on exactly the pending request. */
  ghost predicate ActsOnPending(net: Net, a: nat) {
    && net.pending.Some? && !net.pending.value.request.Discover? && a < |net.acts|
    && net.acts[a].slave == net.pending.value.request.target && net.acts[a].origin == net.pending.value.origin
  }

  /** The payload is what act `a` leads to. */
  ghost predicate SaysWhatWasDone(net: Net, a: nat, payload: Bytes)
    requires ActsOnPending(net, a)
  {
    && net.acts[a].origin < |net.sent|
    && var p, request := net.pending.value, net.sent[net.acts[a].origin].frame.body;
    var reaction := ReactionTo(net.acts[a].info, request, net.acts[a].hw);
    && reaction.answer.Some? && reaction.answer.value.0 == p.request.AnswerCode()
    && payload == TlvBytes(reaction.answer.value.1)
    && net.acts[a].applied == reaction.applied
    && (p.request.SetIp? ==> RequestedConfig(request.tlvPayload) == Some(p.request.config))
  }

  /** Responses name the opcode of the request they answer. */
  lemma ReactionCode(info: DeviceInfo, b: ParsedSdcp, hw: Hardware)
    requires ReactionTo(info, b, hw).answer.Some?
    ensures var code := ReactionTo(info, b, hw).answer.value.0;
            && (code == SetIpRes <==> b.header.opCode == SetIpReq)
            && (code == GetIpRes <==> b.header.opCode == GetIpReq)
            && (code == DiscoverRes <==> b.header.opCode == DiscoverReq)
            && !IsRequestCode(code)
  {
  }

  /** An authentic frame at the master that is not a request is the answer of some act. */
  lemma ResponseStems(mac: KeyedMac, net: Net, data: Option<Bytes>, origin: nat) returns (a: nat)
    requires Inv(net) && Delivered(mac, net, net.own, data, origin) && Authentic(mac, data).Some?
    requires !IsRequestCode(Authentic(mac, data).value.body.header.opCode)
    ensures var f := Authentic(mac, data).value;
            && a < |net.acts| && net.acts[a].slave == f.source
            && net.acts[a].origin < |net.sent| && net.sent[net.acts[a].origin].cause.None?
            && AnswerOk(net.sent[net.acts[a].origin].frame, net.acts[a], f)
  {
    assert PacketOk(net, origin);
    var c := net.sent[origin].cause.value;
    a :| 0 <= a < |net.acts| && net.acts[a].slave == net.sent[origin].frame.source && net.acts[a].origin == c
         && AnswerOk(net.sent[c].frame, net.acts[a], net.sent[origin].frame);
  }

  /** A payload that the master takes as its answer is that of an authentic matching frame. */
  lemma AnswerIsAuthentic(mac: KeyedMac, net: Net, data: Option<Bytes>)
    requires Answer(mac, net, data).Some?
    ensures Authentic(mac, data).Some?
    ensures var p, f := net.pending.value, Authentic(mac, data).value;
            && f.source == p.request.target && f.body.header.opCode == p.request.AnswerCode()
            && f.body.header.transactionId == p.transactionId && f.body.tlvPayload == Answer(mac, net, data).value
  {
  }

  /** A frame that the master takes as an answer is an answer of the target to the pending request. */
  lemma TakenAnswers(mac: KeyedMac, net: Net, data: Option<Bytes>, origin: nat) returns (a: nat)
    requires Inv(net) && Enabled(mac, net, MasterHears(data, origin)) && Answer(mac, net, data).Some?
    requires NoReuse(net, net.pending.value.origin)
    ensures ActsOnPending(net, a) && SaysWhatWasDone(net, a, Answer(mac, net, data).value)
  {
    AnswerIsAuthentic(mac, net, data);
    a := ResponseStems(mac, net, data, origin);
    assert ActOk(net, a);
    var c, r := net.acts[a].origin, net.pending.value.origin;
    ReactionCode(net.acts[a].info, net.sent[c].frame.body, net.acts[a].hw);
    assert Confusable(net, c, r);
    assert c == r;
  }

  /** Acts on the pending request are the last of their slave: it is as they left it. */
  lemma PendingActIsLast(net: Net, a: nat)
    requires Inv(net) && ActsOnPending(net, a)
    ensures net.acts[a].slave in net.slaves && LeftBy(net.slaves[net.acts[a].slave], net.acts[a])
    ensures forall b: nat :: ActsOnPending(net, b) ==> b == a
  {
    var m := net.acts[a].slave;
    assert ActOk(net, a) && SlaveOk(net, m);
    forall b: nat | b != a && b < |net.acts| && net.acts[b].slave == m ensures net.acts[b].origin < net.acts[a].origin {
      assert ActOk(net, b);
      if b < a { ActsInOrder(net, b, a); } else { ActsInOrder(net, a, b); }
    }
    LastActIs(net.acts, m);
    var b: nat :| b < |net.acts| && net.acts[b].slave == m && net.acts[b] == LastAct(net.acts, m).value
                  && forall c :: b < c < |net.acts| ==> net.acts[c].slave != m;
    if a < b { ActsInOrder(net, a, b); }
    assert a == b;
  }

  // ---------- setting an IP configuration ----------

  /** The answer that ends a pending set-IP call with success. */
  ghost predicate Confirms(mac: KeyedMac, net: Net, data: Option<Bytes>) {
    && net.pending.Some? && net.pending.value.request.SetIp?
    && Answer(mac, net, data).Some? && SetIpResult(Answer(mac, net, data).value).Ok?
  }

  /**
   What an answer to `set_ip_config` means when the transaction id was not used before: the
   target acted on exactly this request, once. The call returns success if and only if that act
   applied and stored the configuration or hid a failure; and when it applied it, the interface
   runs and the device info holds exactly the requested address, netmask and gateway now.
   */
  ghost predicate SetIpMeans(mac: KeyedMac, net: Net, data: Option<Bytes>, a: nat)
    requires net.pending.Some? && net.pending.value.request.SetIp?
  {
    var p := net.pending.value;
    && ActsOnPending(net, a) && (forall b: nat :: ActsOnPending(net, b) ==> b == a)
    && p.request.target in net.slaves
    && (Confirms(mac, net, data) <==> net.acts[a].applied.Some? || HidesFailure(net.acts[a].hw))
    && (net.acts[a].applied.Some? ==>
          net.acts[a].applied == Some(p.request.config) && Holds(net.slaves[p.request.target], p.request.config))
  }

  lemma SetIpConfirmed(mac: KeyedMac, net: Net, data: Option<Bytes>, origin: nat)
    requires Inv(net) && Enabled(mac, net, MasterHears(data, origin)) && Answer(mac, net, data).Some?
    requires net.pending.value.request.SetIp? && NoReuse(net, net.pending.value.origin)
    ensures exists a: nat :: SetIpMeans(mac, net, data, a)
  {
    var a := TakenAnswers(mac, net, data, origin);
    PendingActIsLast(net, a);
    var request := net.sent[net.acts[a].origin].frame.body;
    ReactionCode(net.acts[a].info, request, net.acts[a].hw);
    SetIpAnswer(request.tlvPayload, net.acts[a].hw);
    assert SetIpMeans(mac, net, data, a);
  }

  /**
   The same for every run from the start, as long as no earlier request that could be confused
   with the pending one had its transaction id; at most 65536 requests see to that.
   */
  lemma {:induction false} SetIpConfirmedInRuns(
    mac: KeyedMac, net: Net, events: seq<Event>, data: Option<Bytes>, origin: nat)
    requires Initial(net) && Legal(mac, net, events)
    requires Enabled(mac, Exec(mac, net, events), MasterHears(data, origin))
    requires Exec(mac, net, events).pending.value.request.SetIp? && Answer(mac, Exec(mac, net, events), data).Some?
    requires || CountRequests(Exec(mac, net, events).sent) <= 0x1_0000
             || NoReuse(Exec(mac, net, events), Exec(mac, net, events).pending.value.origin)
    ensures exists a: nat :: SetIpMeans(mac, Exec(mac, net, events), data, a)
  {
    InitialInv(net);
    ExecInv(mac, net, events);
    var end := Exec(mac, net, events);
    if CountRequests(end.sent) <= 0x1_0000 { FirstRequestsDoNotReuse(end, end.pending.value.origin); }
    SetIpConfirmed(mac, end, data, origin);
  }

  // ---------- reading an IP configuration ----------

  /**
   What an answer to `get_ip_config` means: the target acted on exactly this request, the call
   returns a report if and only if its device info could be read, and the report is that of the
   device info at the act, which is still the target's.
   */
  ghost predicate GetIpMeans(mac: KeyedMac, net: Net, data: Option<Bytes>, a: nat)
    requires Answer(mac, net, data).Some? && net.pending.value.request.GetIp?
  {
    var target := net.pending.value.request.target;
    && ActsOnPending(net, a) && target in net.slaves && net.slaves[target].info == net.acts[a].info
    && GetIpResult(Answer(mac, net, data).value) ==
       if net.acts[a].hw.read.Ok? then Ok(ReportOf(net.slaves[target].info)) else Err(ErrInvalidResponse)
  }

  /** What the payload of an act on a get-IP request says. */
  lemma GetIpPayload(net: Net, a: nat, payload: Bytes)
    requires ActsOnPending(net, a) && net.pending.value.request.GetIp? && SaysWhatWasDone(net, a, payload)
    ensures net.acts[a].applied == None
    ensures GetIpResult(payload) ==
            if net.acts[a].hw.read.Ok? then Ok(ReportOf(net.acts[a].info)) else Err(ErrInvalidResponse)
  {
    ReactionCode(net.acts[a].info, net.sent[net.acts[a].origin].frame.body, net.acts[a].hw);
    GetIpAnswer(net.acts[a].info, net.acts[a].hw);
  }

  lemma GetIpReported(mac: KeyedMac, net: Net, data: Option<Bytes>, origin: nat)
    requires Inv(net) && Enabled(mac, net, MasterHears(data, origin)) && Answer(mac, net, data).Some?
    requires net.pending.value.request.GetIp? && NoReuse(net, net.pending.value.origin)
    ensures exists a: nat :: GetIpMeans(mac, net, data, a)
  {
    var a := TakenAnswers(mac, net, data, origin);
    PendingActIsLast(net, a);
    GetIpPayload(net, a, Answer(mac, net, data).value);
    assert GetIpMeans(mac, net, data, a);
  }

  lemma {:induction false} GetIpReportedInRuns(
    mac: KeyedMac, net: Net, events: seq<Event>, data: Option<Bytes>, origin: nat)
    requires Initial(net) && Legal(mac, net, events)
    requires Enabled(mac, Exec(mac, net, events), MasterHears(data, origin))
    requires Exec(mac, net, events).pending.value.request.GetIp? && Answer(mac, Exec(mac, net, events), data).Some?
    requires || CountRequests(Exec(mac, net, events).sent) <= 0x1_0000
             || NoReuse(Exec(mac, net, events), Exec(mac, net, events).pending.value.origin)
    ensures exists a: nat :: GetIpMeans(mac, Exec(mac, net, events), data, a)
  {
    InitialInv(net);
    ExecInv(mac, net, events);
    var end := Exec(mac, net, events);
    if CountRequests(end.sent) <= 0x1_0000 { FirstRequestsDoNotReuse(end, end.pending.value.origin); }
    GetIpReported(mac, end, data, origin);
  }

  /** The configuration that a slave applied and stored last. */
  function LastConfig(acts: seq<Acted>, m: Mac): Option<IpConfig> {
    if acts == [] then None
    else
      var last := acts[|acts| - 1];
      if last.slave == m && last.applied.Some? then last.applied else LastConfig(acts[..|acts| - 1], m)
  }

  lemma LastConfigSnoc(acts: seq<Acted>, act: Acted, m: Mac)
    ensures LastConfig(acts + [act], m) ==
            if act.slave == m && act.applied.Some? then act.applied else LastConfig(acts, m)
  {
    assert (acts + [act])[..|acts|] == acts;
  }

  /** Every slave's device info still holds what it applied and stored last. */
  ghost predicate ConfigsOk(net: Net) {
    forall m :: m in net.slaves && LastConfig(net.acts, m).Some? ==>
      Stores(net.slaves[m].info, LastConfig(net.acts, m).value)
  }

  lemma SlaveStepConfigs(
    mac: KeyedMac, net: Net, m: Mac, snapshot: DeviceState, data: Option<Bytes>, origin: nat, hw: Hardware)
    requires Inv(net) && m in net.slaves && Delivered(mac, net, m, data, origin) && ConfigsOk(net)
    ensures ConfigsOk(SlaveHeard(mac, net, m, snapshot, data, origin, hw))
  {
    var s, net' := net.slaves[m], SlaveHeard(mac, net, m, snapshot, data, origin, hw);
    if Takes(mac, s, snapshot, data).Some? {
      var act := ActOn(s, origin, Takes(mac, s, snapshot, data).value, hw);
      ActShapeOf(mac, net, m, snapshot, data, origin, hw);
      ActConfigs(net, net', act, Listen(mac, s, snapshot, data, hw).1);
    } else {
      NotTaken(mac, s, snapshot, data, hw);
    }
  }

  lemma ActConfigs(net: Net, net': Net, act: Acted, answer: Option<SdcpFrame>)
    requires ActShape(net, net', act, answer) && act.info == net.slaves[act.slave].info && ConfigsOk(net)
    ensures ConfigsOk(net')
  {
    forall m | m in net'.slaves && LastConfig(net'.acts, m).Some?
      ensures Stores(net'.slaves[m].info, LastConfig(net'.acts, m).value)
    {
      LastConfigSnoc(net.acts, act, m);
    }
  }

  lemma StepConfigs(mac: KeyedMac, net: Net, e: Event)
    requires Inv(net) && Enabled(mac, net, e) && ConfigsOk(net)
    ensures ConfigsOk(NextNet(mac, net, e))
  {
    match e
    case SlaveHears(m, snapshot, data, origin, hw) => SlaveStepConfigs(mac, net, m, snapshot, data, origin, hw);
    case MasterHears(data, _) => HearShapeOf(mac, net, data);
    case _ =>
  }

  /** Over every run a slave's device info holds the address, netmask and gateway that it applied and stored last. */
  lemma {:induction false} ConfigsStay(mac: KeyedMac, net: Net, events: seq<Event>)
    requires Initial(net) && Legal(mac, net, events)
    ensures ConfigsOk(Exec(mac, net, events))
    decreases |events|
  {
    if events != [] {
      var n := |events| - 1;
      ConfigsStay(mac, net, events[..n]);
      InitialInv(net);
      ExecInv(mac, net, events[..n]);
      StepConfigs(mac, Exec(mac, net, events[..n]), events[n]);
    }
  }

  /**
   Over every run: once a target has applied and stored a configuration, an answered
   `get_ip_config` on it either fails or returns exactly the last such configuration.
   */
  lemma GetIpReturnsLastConfig(mac: KeyedMac, net: Net, events: seq<Event>, data: Option<Bytes>, origin: nat)
    requires Initial(net) && Legal(mac, net, events)
    requires Enabled(mac, Exec(mac, net, events), MasterHears(data, origin))
    requires Exec(mac, net, events).pending.value.request.GetIp? && Answer(mac, Exec(mac, net, events), data).Some?
    requires || CountRequests(Exec(mac, net, events).sent) <= 0x1_0000
             || NoReuse(Exec(mac, net, events), Exec(mac, net, events).pending.value.origin)
    ensures var end := Exec(mac, net, events);
            var r := GetIpResult(Answer(mac, end, data).value);
            var last := LastConfig(end.acts, end.pending.value.request.target);
            r.Ok? && last.Some? ==> r.value.config == last.value
  {
    var end := Exec(mac, net, events);
    GetIpReportedInRuns(mac, net, events, data, origin);
    var a: nat :| GetIpMeans(mac, end, data, a);
    ConfigsStay(mac, net, events);
    var target := end.pending.value.request.target;
    if LastConfig(end.acts, target).Some? {
      StoredIsReported(end.slaves[target].info, LastConfig(end.acts, target).value);
    }
  }

  // ---------- discovering devices ----------

  /** Act `a` is that of slave `d.mac` on a discovery request, and it announced the device `d`. */
  ghost predicate Introduced(net: Net, a: nat, d: DiscoveredDevice) {
    && a < |net.acts| && net.acts[a].slave == d.mac && d.mac in net.slaves
    && net.acts[a].origin < |net.sent| && net.sent[net.acts[a].origin].cause.None?
    && net.sent[net.acts[a].origin].frame.body.header.opCode == DiscoverReq
    && d.identity == IdentityOf(Readable(net.acts[a].info, net.acts[a].hw))
  }

  /** Every cache entry is an original one or was announced by a slave acting on a discovery request. */
  ghost predicate CacheOk(first: Cache, net: Net) {
    forall m :: m in net.cache ==>
      (m in first && net.cache[m] == first[m])
          || (net.cache[m].mac == m && exists a: nat :: Introduced(net, a, net.cache[m]))
  }

  lemma AnnouncedIdentity(m: Mac, identity: DeviceIdentity)
    ensures DeviceOf(m, TlvBytes(DeviceInfoTlv(identity))) == Some(DiscoveredDevice(m, identity))
  {
    DeviceInfoRoundTrip(identity);
  }

  /** A device found by the master introduced itself. */
  lemma FoundWasIntroduced(mac: KeyedMac, net: Net, data: Option<Bytes>, origin: nat, d: DiscoveredDevice)
    requires Inv(net) && Enabled(mac, net, MasterHears(data, origin)) && net.pending.value.request.Discover?
    requires DiscoverStep(mac, net.contexts, net.pending.value.transactionId, data).0 == Some(d)
    ensures exists a: nat :: Introduced(net, a, d)
  {
    FoundIff(mac, net.contexts, net.pending.value.transactionId, data, d);
    assert Authentic(mac, data) == ParseSdcpFrame(data.value);
    var a := ResponseStems(mac, net, data, origin);
    assert ActOk(net, a);
    ReactionCode(net.acts[a].info, net.sent[net.acts[a].origin].frame.body, net.acts[a].hw);
    AnnouncedIdentity(d.mac, IdentityOf(Readable(net.acts[a].info, net.acts[a].hw)));
    assert Introduced(net, a, d);
  }

  lemma IntroducedCarries(net: Net, net': Net, a: nat, d: DiscoveredDevice)
    requires Extends(net, net') && Introduced(net, a, d)
    ensures Introduced(net', a, d)
  {
  }

  /** Steps that leave the cache alone. */
  lemma CacheCarries(first: Cache, net: Net, net': Net)
    requires CacheOk(first, net) && Extends(net, net') && net'.cache == net.cache
    ensures CacheOk(first, net')
  {
    forall m | m in net'.cache && !(m in first && net'.cache[m] == first[m])
      ensures net'.cache[m].mac == m && exists a: nat :: Introduced(net', a, net'.cache[m])
    {
      var a: nat :| Introduced(net, a, net.cache[m]);
      IntroducedCarries(net, net', a, net.cache[m]);
    }
  }

  /** A step that caches a device which introduced itself. */
  lemma CacheGrows(first: Cache, net: Net, net': Net, d: DiscoveredDevice)
    requires CacheOk(first, net) && Extends(net, net') && net'.cache == net.cache[d.mac := d]
    requires exists a: nat :: Introduced(net, a, d)
    ensures CacheOk(first, net')
  {
    forall m | m in net'.cache && !(m in first && net'.cache[m] == first[m])
      ensures net'.cache[m].mac == m && exists a: nat :: Introduced(net', a, net'.cache[m])
    {
      var a: nat :| Introduced(net, a, net'.cache[m]);
      IntroducedCarries(net, net', a, net'.cache[m]);
    }
  }

  lemma CacheOfOne(cache: Cache, found: Option<DiscoveredDevice>)
    ensures CacheAfter(cache, [found]) == if found.None? then cache else cache[found.value.mac := found.value]
  {
    assert [found][..0] == [];
  }

  lemma FoundCache(mac: KeyedMac, first: Cache, net: Net, data: Option<Bytes>, origin: nat)
    requires Inv(net) && Enabled(mac, net, MasterHears(data, origin)) && CacheOk(first, net)
    ensures CacheOk(first, MasterHeard(mac, net, data))
  {
    var net' := MasterHeard(mac, net, data);
    HearShapeOf(mac, net, data);
    var p := net.pending.value;
    var found := if p.request.Discover? then DiscoverStep(mac, net.contexts, p.transactionId, data).0 else None;
    CacheOfOne(net.cache, found);
    if found.Some? {
      FoundWasIntroduced(mac, net, data, origin, found.value);
      CacheGrows(first, net, net', found.value);
    } else {
      CacheCarries(first, net, net');
    }
  }

  /** Only the master's listening touches its cache; histories only grow. */
  lemma SlaveStepExtends(
    mac: KeyedMac, net: Net, m: Mac, snapshot: DeviceState, data: Option<Bytes>, origin: nat, hw: Hardware)
    requires m in net.slaves
    ensures var net' := SlaveHeard(mac, net, m, snapshot, data, origin, hw);
            Extends(net, net') && net'.cache == net.cache
  {
  }

  lemma StepCache(mac: KeyedMac, first: Cache, net: Net, e: Event)
    requires Inv(net) && Enabled(mac, net, e) && CacheOk(first, net)
    ensures CacheOk(first, NextNet(mac, net, e))
  {
    match e
    case MasterHears(data, origin) => FoundCache(mac, first, net, data, origin);
    case SlaveHears(m, snapshot, data, origin, hw) =>
      SlaveStepExtends(mac, net, m, snapshot, data, origin, hw);
      CacheCarries(first, net, SlaveHeard(mac, net, m, snapshot, data, origin, hw));
    case _ => CacheCarries(first, net, NextNet(mac, net, e));
  }

  /**
   In every run, each entry the master's cache gained or changed is that of a slave which acted
   on a discovery request of the master, and its identity is what the slave's device info said.
   */
  lemma {:induction false} DiscoveredAreSlaves(mac: KeyedMac, net: Net, events: seq<Event>)
    requires Initial(net) && Legal(mac, net, events)
    ensures CacheOk(net.cache, Exec(mac, net, events))
    decreases |events|
  {
    if events != [] {
      var n := |events| - 1;
      DiscoveredAreSlaves(mac, net, events[..n]);
      InitialInv(net);
      ExecInv(mac, net, events[..n]);
      StepCache(mac, net.cache, Exec(mac, net, events[..n]), events[n]);
    }
  }

  // ---------- the change of state ----------

  lemma StateChangeMeansTaken(mac: KeyedMac, s: Slave, snapshot: DeviceState, data: Option<Bytes>, hw: Hardware)
    requires Listen(mac, s, snapshot, data, hw).0.state != s.state
    ensures Takes(mac, s, snapshot, data).Some?
  {
  }

  /** Acting changes the state only to PreOp, and only after a configuration was applied and stored. */
  lemma StateChangeNeedsApply(mac: KeyedMac, s: Slave, source: Mac, b: ParsedSdcp, hw: Hardware)
    requires Act(mac, s, source, b, hw).0.state != s.state
    ensures Act(mac, s, source, b, hw).0.state == PreOp
    ensures ReactionTo(s.info, b, hw).applied.Some?
  {
  }

  lemma AppliedMeans(info: DeviceInfo, b: ParsedSdcp, hw: Hardware)
    requires ReactionTo(info, b, hw).applied.Some?
    ensures b.header.opCode == SetIpReq && hw.apply.Ok? && hw.read.Ok? && hw.write.Ok?
    ensures RequestedConfig(b.tlvPayload) == ReactionTo(info, b, hw).applied
  {
  }

  /**
   Discovery moves a slave into PreOp only in a step that took an authentic request of the
   master, after the interface applied the configuration and the device info was stored.
   */
  lemma PreOpOnlyAfterApply(
    mac: KeyedMac, net: Net, m: Mac, snapshot: DeviceState, data: Option<Bytes>, origin: nat, hw: Hardware)
    requires Inv(net) && Enabled(mac, net, SlaveHears(m, snapshot, data, origin, hw))
    requires SlaveHeard(mac, net, m, snapshot, data, origin, hw).slaves[m].state != net.slaves[m].state
    ensures var s' := SlaveHeard(mac, net, m, snapshot, data, origin, hw).slaves[m];
            && s'.state == PreOp && snapshot == DiscoverySync
            && hw.apply.Ok? && hw.read.Ok? && hw.write.Ok?
            && Takes(mac, net.slaves[m], snapshot, data).Some?
            && origin < |net.sent| && net.sent[origin].frame.body.header.opCode == SetIpReq
            && RequestedConfig(net.sent[origin].frame.body.tlvPayload).Some?
            && Holds(s', RequestedConfig(net.sent[origin].frame.body.tlvPayload).value)
  {
    var s := net.slaves[m];
    StateChangeMeansTaken(mac, s, snapshot, data, hw);
    assert SlaveOk(net, m);
    TakenIsRequest(mac, net, m, snapshot, data, origin);
    var f := Takes(mac, s, snapshot, data).value;
    TakenIsHandled(mac, s, snapshot, data, hw);
    var context := s.contexts[f.source].(lastReceived := f.body.sequenceNumber);
    StateChangeNeedsApply(mac, s.(contexts := s.contexts[f.source := context]), f.source, f.body, hw);
    AppliedMeans(s.info, f.body, hw);
    TakenEffect(mac, s, net.own, snapshot, data, origin, hw);
  }

  // ---------- when a slave listens ----------

  /** From event `from` on, slave `m` saw no snapshot but DiscoverySync. */
  ghost predicate SyncSince(events: seq<Event>, m: Mac, from: nat) {
    forall j :: from <= j < |events| && events[j].SlaveHears? && events[j].slave == m ==>
      events[j].snapshot == DiscoverySync
  }

  /** It listened at the start or was restarted, and has seen only DiscoverySync since. */
  ghost predicate StillListens(events: seq<Event>, m: Mac, start: bool) {
    || (start && SyncSince(events, m, 0))
    || exists r: nat :: r < |events| && events[r] == RestartListener(m) && SyncSince(events, m, r + 1)
  }

  lemma StillListensSnoc(events: seq<Event>, e: Event, m: Mac, start: bool)
    ensures StillListens(events + [e], m, start) <==>
            || e == RestartListener(m)
            || (StillListens(events, m, start) && !(e.SlaveHears? && e.slave == m && e.snapshot != DiscoverySync))
  {
    var all, n := events + [e], |events|;
    forall j | 0 <= j < n ensures all[j] == events[j] {}
    forall from: nat | from <= n
      ensures SyncSince(all, m, from) <==>
              SyncSince(events, m, from) && !(e.SlaveHears? && e.slave == m && e.snapshot != DiscoverySync)
    {
      assert all[n] == e;
    }
    if e == RestartListener(m) { assert all[n] == e && SyncSince(all, m, n + 1); }
    if r: nat :| r < n && events[r] == RestartListener(m) && SyncSince(events, m, r + 1) { assert all[r] == events[r]; }
    if r: nat :| r < n + 1 && all[r] == RestartListener(m) && SyncSince(all, m, r + 1) {
      if r < n { assert events[r] == all[r]; }
    }
  }

  lemma StepListens(mac: KeyedMac, net: Net, e: Event, m: Mac)
    requires Enabled(mac, net, e) && m in net.slaves
    ensures m in NextNet(mac, net, e).slaves
    ensures NextNet(mac, net, e).slaves[m].listening <==>
            || e == RestartListener(m)
            || (net.slaves[m].listening && !(e.SlaveHears? && e.slave == m && e.snapshot != DiscoverySync))
  {
    if e.SlaveHears? && e.slave == m { ListenKeeps(mac, net.slaves[m], e.snapshot, e.data, e.hw); }
  }

  lemma ListenKeeps(mac: KeyedMac, s: Slave, snapshot: DeviceState, data: Option<Bytes>, hw: Hardware)
    ensures Listen(mac, s, snapshot, data, hw).0.listening == (s.listening && snapshot == DiscoverySync)
  {
  }

  /**
   Over every run, a slave listens exactly when it listened at the start or was restarted and
   every snapshot since was DiscoverySync.
   */
  lemma {:induction false} ListensIff(mac: KeyedMac, net: Net, events: seq<Event>, m: Mac)
    requires Legal(mac, net, events) && m in net.slaves
    ensures m in Exec(mac, net, events).slaves
    ensures Exec(mac, net, events).slaves[m].listening <==> StillListens(events, m, net.slaves[m].listening)
    decreases |events|
  {
    if events != [] {
      var n := |events| - 1;
      var front, e := events[..n], events[n];
      ListensIff(mac, net, front, m);
      StepListens(mac, Exec(mac, net, front), e, m);
      StillListensSnoc(front, e, m, net.slaves[m].listening);
      assert front + [e] == events;
    }
  }
}
