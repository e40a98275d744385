/** The master's side of discovery: requests with transaction ids, waiting, the device cache. */
module DiscoveryMaster {
  import opened Types
  import opened BigEndian
  import opened AuthFooter
  import opened Crypto
  import opened SdcpCodec
  import opened DiscoveryAuth

  datatype DiscoveredDevice = DiscoveredDevice(mac: Mac, identity: DeviceIdentity)

  type Cache = map<Mac, DiscoveredDevice>

  /** `build_request_frame`: numbered with the master's single transmit counter, whatever the destination. */
  function BuildRequest(
    mac: KeyedMac, own: Mac, cs: Contexts, destination: Mac, opCode: SdcpOpCode, transactionId: u16, tlv: Option<Tlv>)
    : (SdcpFrame, Contexts)
  {
    var header := NewSdcpHeader(opCode, transactionId);
    var tlvPayload := if tlv.None? then [] else TlvBytes(tlv.value);
    var (tagged, cs') := CreateTag(mac, AddDevice(cs, own), own, header, tlvPayload);
    (SdcpFrame(destination, own, ParsedSdcp(header, tlvPayload, tagged.value.0, tagged.value.1)), cs')
  }

  /** One iteration of `wait_for_response`: the payload of the expected answer, if this is it. */
  function WaitStep(
    mac: KeyedMac, cs: Contexts, target: Mac, opCode: SdcpOpCode, transactionId: u16, data: Option<Bytes>)
    : (Option<Bytes>, Contexts)
  {
    if data.None? then (None, cs)
    else
      match ParseSdcpFrame(data.value)
      case None => (None, cs)
      case Some(f) =>
        if f.source != target || f.body.header.opCode != opCode
           || f.body.header.transactionId != transactionId then (None, cs)
        else
          var (valid, cs') := ValidateTag(mac, cs, target, f.body);
          (if valid then Some(f.body.tlvPayload) else None, cs')
  }

  function WaitAll(
    mac: KeyedMac, cs: Contexts, target: Mac, opCode: SdcpOpCode, transactionId: u16, inbox: seq<Option<Bytes>>)
    : (Result<Bytes>, Contexts)
  {
    if inbox == [] then (Err(ErrTimeout), cs)
    else
      var (r, cs') := WaitStep(mac, cs, target, opCode, transactionId, inbox[0]);
      if r.Some? then (Ok(r.value), cs') else WaitAll(mac, cs', target, opCode, transactionId, inbox[1..])
  }

  /** The expected answer: an authentic frame of the target with this opcode and transaction id, numbered freshly. */
  ghost predicate IsAnswer(
    mac: KeyedMac, cs: Contexts, target: Mac, opCode: SdcpOpCode, transactionId: u16, data: Option<Bytes>)
  {
    && data.Some? && ParseSdcpFrame(data.value).Some?
    && var f := ParseSdcpFrame(data.value).value;
    && f.source == target && f.body.header.opCode == opCode && f.body.header.transactionId == transactionId
    && SdcpTagMatches(mac, f.body) && target in cs && f.body.sequenceNumber > cs[target].lastReceived
  }

  /** Frame `i` is the first one that is. */
  ghost predicate FirstAnswer(
    mac: KeyedMac, cs: Contexts, target: Mac, opCode: SdcpOpCode, transactionId: u16, inbox: seq<Option<Bytes>>, i: nat)
  {
    && i < |inbox| && IsAnswer(mac, cs, target, opCode, transactionId, inbox[i])
    && forall j :: 0 <= j < i ==> !IsAnswer(mac, cs, target, opCode, transactionId, inbox[j])
  }

  /** One received frame: the expected answer is taken and its number stored; anything else changes nothing. */
  lemma WaitStepIff(
    mac: KeyedMac, cs: Contexts, target: Mac, opCode: SdcpOpCode, transactionId: u16, data: Option<Bytes>)
    ensures var (answer, cs') := WaitStep(mac, cs, target, opCode, transactionId, data);
            if IsAnswer(mac, cs, target, opCode, transactionId, data) then
              var b := ParseSdcpFrame(data.value).value.body;
              answer == Some(b.tlvPayload) && cs' == cs[target := cs[target].(lastReceived := b.sequenceNumber)]
            else answer == None && cs' == cs
  {
  }

  lemma FirstAfterOthers(
    mac: KeyedMac, cs: Contexts, target: Mac, opCode: SdcpOpCode, transactionId: u16, inbox: seq<Option<Bytes>>, i: nat)
    requires inbox != [] && !IsAnswer(mac, cs, target, opCode, transactionId, inbox[0])
    requires FirstAnswer(mac, cs, target, opCode, transactionId, inbox[1..], i)
    ensures FirstAnswer(mac, cs, target, opCode, transactionId, inbox, i + 1) && inbox[i + 1] == inbox[1..][i]
  {
    forall j | 0 <= j < i + 1 ensures !IsAnswer(mac, cs, target, opCode, transactionId, inbox[j]) {
      if j > 0 { assert inbox[j] == inbox[1..][j - 1]; }
    }
  }

  /**
   For everything that the channel may yield until the timeout: the call ends with the payload
   of the first frame that is the expected answer, whatever comes before it, and with a timeout
   exactly when there is none.
   */
  lemma {:induction false} WaitEndsWithFirstAnswer(
    mac: KeyedMac, cs: Contexts, target: Mac, opCode: SdcpOpCode, transactionId: u16, inbox: seq<Option<Bytes>>)
    ensures var (r, cs') := WaitAll(mac, cs, target, opCode, transactionId, inbox);
            || (exists i: nat ::
                  && FirstAnswer(mac, cs, target, opCode, transactionId, inbox, i)
                  && var b := ParseSdcpFrame(inbox[i].value).value.body;
                  r == Ok(b.tlvPayload) && cs' == cs[target := cs[target].(lastReceived := b.sequenceNumber)])
            || (&& r == Err(ErrTimeout) && cs' == cs
                && forall i :: 0 <= i < |inbox| ==> !IsAnswer(mac, cs, target, opCode, transactionId, inbox[i]))
  {
    if inbox != [] {
      WaitStepIff(mac, cs, target, opCode, transactionId, inbox[0]);
      if IsAnswer(mac, cs, target, opCode, transactionId, inbox[0]) {
        assert FirstAnswer(mac, cs, target, opCode, transactionId, inbox, 0);
      } else {
        var rest := inbox[1..];
        WaitEndsWithFirstAnswer(mac, cs, target, opCode, transactionId, rest);
        if i: nat :| FirstAnswer(mac, cs, target, opCode, transactionId, rest, i) {
          FirstAfterOthers(mac, cs, target, opCode, transactionId, inbox, i);
        } else {
          assert forall j :: 0 < j < |inbox| ==> inbox[j] == rest[j - 1];
        }
      }
    }
  }

  /** How `set_ip_config` reads the answer. */
  function SetIpResult(tlvPayload: Bytes): Result<()> {
    match ReadTlv(tlvPayload)
    case None => Err(ErrInvalidResponse)
    case Some(t) =>
      match ParseStatusReport(t)
      case None => Err(ErrInvalidResponse)
      case Some(code) => if code == NoError then Ok(()) else Err(ErrHardwareAccess)
  }

  /** How `get_ip_config` reads the answer. */
  function GetIpResult(tlvPayload: Bytes): Result<IpReport> {
    match ReadTlv(tlvPayload)
    case None => Err(ErrInvalidResponse)
    case Some(t) =>
      match ParseIpReport(t)
      case None => Err(ErrInvalidResponse)
      case Some(r) => Ok(r)
  }

  /** The authentication part of `process_discover_frame`: unknown devices start with number one. */
  function Admit(mac: KeyedMac, cs: Contexts, source: Mac, b: ParsedSdcp): (bool, Contexts) {
    if source in cs then ValidateTag(mac, cs, source, b)
    else if ValidDiscoveryResponse(mac, b) then (true, cs[source := DEFAULT_CONTEXT.(lastReceived := b.sequenceNumber)])
    else (false, cs)
  }

  function DeviceOf(source: Mac, tlvPayload: Bytes): Option<DiscoveredDevice> {
    match ReadTlv(tlvPayload)
    case None => None
    case Some(t) =>
      match ParseDeviceInfo(t)
      case None => None
      case Some(identity) => Some(DiscoveredDevice(source, identity))
  }

  /** `process_discover_frame` */
  function DiscoverStep(
    mac: KeyedMac, cs: Contexts, transactionId: u16, data: Option<Bytes>): (Option<DiscoveredDevice>, Contexts) {
    if data.None? then (None, cs)
    else
      match ParseSdcpFrame(data.value)
      case None => (None, cs)
      case Some(f) =>
        if f.body.header.opCode != DiscoverRes || f.body.header.transactionId != transactionId then (None, cs)
        else
          var (valid, cs') := Admit(mac, cs, f.source, f.body);
          (if valid then DeviceOf(f.source, f.body.tlvPayload) else None, cs')
  }

  /** The contexts after a sequence of received frames. */
  function ContextsAfter(mac: KeyedMac, cs: Contexts, transactionId: u16, inbox: seq<Option<Bytes>>): Contexts {
    if inbox == [] then cs
    else
      var n := |inbox| - 1;
      DiscoverStep(mac, ContextsAfter(mac, cs, transactionId, inbox[..n]), transactionId, inbox[n]).1
  }

  /** What each received frame yields, in order. */
  function Finds(
    mac: KeyedMac, cs: Contexts, transactionId: u16, inbox: seq<Option<Bytes>>): (r: seq<Option<DiscoveredDevice>>)
    ensures |r| == |inbox|
  {
    if inbox == [] then []
    else
      var n := |inbox| - 1;
      Finds(mac, cs, transactionId, inbox[..n])
      + [DiscoverStep(mac, ContextsAfter(mac, cs, transactionId, inbox[..n]), transactionId, inbox[n]).0]
  }

  function CacheAfter(cache: Cache, finds: seq<Option<DiscoveredDevice>>): Cache {
    if finds == [] then cache
    else
      var n := |finds| - 1;
      var before := CacheAfter(cache, finds[..n]);
      if finds[n].None? then before else before[finds[n].value.mac := finds[n].value]
  }

  function NewAfter(cache: Cache, finds: seq<Option<DiscoveredDevice>>): seq<DiscoveredDevice> {
    if finds == [] then []
    else
      var n := |finds| - 1;
      var before := NewAfter(cache, finds[..n]);
      if finds[n].Some? && finds[n].value.mac !in CacheAfter(cache, finds[..n]) then before + [finds[n].value]
      else before
  }

  /** One more received frame. */
  lemma CollectStep(mac: KeyedMac, cs: Contexts, cache: Cache, id: u16, inbox: seq<Option<Bytes>>, i: nat)
    requires i < |inbox|
    ensures var (found, cs') := DiscoverStep(mac, ContextsAfter(mac, cs, id, inbox[..i]), id, inbox[i]);
            var before, after := Finds(mac, cs, id, inbox[..i]), Finds(mac, cs, id, inbox[..i + 1]);
            && ContextsAfter(mac, cs, id, inbox[..i + 1]) == cs'
            && after == before + [found]
            && CacheAfter(cache, after) ==
               (if found.None? then CacheAfter(cache, before)
                else CacheAfter(cache, before)[found.value.mac := found.value])
            && NewAfter(cache, after) ==
               (if found.Some? && found.value.mac !in CacheAfter(cache, before)
                then NewAfter(cache, before) + [found.value] else NewAfter(cache, before))
  {
    assert inbox[..i + 1][..i] == inbox[..i];
    var before, after := Finds(mac, cs, id, inbox[..i]), Finds(mac, cs, id, inbox[..i + 1]);
    assert after[..i] == before;
  }

  class Master {
    const ownMac: Option<Mac>
    const auth: DiscoveryAuthHandler
    var transactionCounter: u16
    var devices: Cache

    /** Production also registers the broadcast address, which never sends. */
    constructor (ownMac: Option<Mac>, auth: DiscoveryAuthHandler)
      ensures this.ownMac == ownMac && this.auth == auth && transactionCounter == 1 && devices == map[]
    {
      this.ownMac, this.auth := ownMac, auth;
      transactionCounter, devices := 1, map[];
    }

    method NextTransactionId() returns (id: u16)
      modifies this
      ensures id == old(transactionCounter) && transactionCounter == (id + 1) % 0x1_0000 && devices == old(devices)
    {
      id := transactionCounter;
      transactionCounter := (transactionCounter + 1) % 0x1_0000;
    }

    method BuildRequestFrame(
      destination: Mac, opCode: SdcpOpCode, transactionId: u16, tlv: Option<Tlv>) returns (r: Result<Bytes>)
      modifies auth
      ensures ownMac.None? ==> r == Err(ErrSocketChannel) && auth.devices == old(auth.devices)
      ensures ownMac.Some? ==>
                var (frame, cs') := BuildRequest(auth.mac, ownMac.value, old(auth.devices), destination, opCode,
                                                 transactionId, tlv);
                r == Ok(SdcpFrameBytes(frame)) && auth.devices == cs'
    {
      if ownMac.None? {
        return Err(ErrSocketChannel);
      }
      var header := NewSdcpHeader(opCode, transactionId);
      var payload := SdcpHeaderBytes(header);
      var tlvPayload := [];
      if tlv.Some? {
        tlvPayload := TlvBytes(tlv.value);
      }
      payload := payload + tlvPayload;
      auth.AddNewDevice(ownMac.value);
      var tagged := auth.CreateAuthTag(ownMac.value, header, tlvPayload);
      payload := payload + FooterBytes(SecurityFooter(tagged.value.0, tagged.value.1));
      r := Ok(destination + ownMac.value + ToBe(ETHERTYPE_SDCP, 2) + payload);
    }

    /** `inbox` is what the channel yields until the timeout; `None` stands for a read error. */
    method WaitForResponse(
      target: Mac, opCode: SdcpOpCode, transactionId: u16, inbox: seq<Option<Bytes>>) returns (r: Result<Bytes>)
      modifies auth
      ensures (r, auth.devices) ==
              WaitAll(auth.mac, AddDevice(old(auth.devices), target), target, opCode, transactionId, inbox)
    {
      auth.AddNewDevice(target);
      ghost var start := auth.devices;
      for i := 0 to |inbox|
        invariant WaitAll(auth.mac, start, target, opCode, transactionId, inbox) ==
                  WaitAll(auth.mac, auth.devices, target, opCode, transactionId, inbox[i..])
      {
        assert inbox[i..][1..] == inbox[i + 1..];
        var answer := OnResponse(target, opCode, transactionId, inbox[i]);
        if answer.Some? {
          return Ok(answer.value);
        }
      }
      r := Err(ErrTimeout);
    }

    method OnResponse(
      target: Mac, opCode: SdcpOpCode, transactionId: u16, data: Option<Bytes>) returns (answer: Option<Bytes>)
      modifies auth
      ensures (answer, auth.devices) == WaitStep(auth.mac, old(auth.devices), target, opCode, transactionId, data)
    {
      answer := None;
      if data.None? {
        return;
      }
      var parsed := ParseSdcpFrame(data.value);
      if parsed.None? || parsed.value.source != target {
        return;
      }
      var b := parsed.value.body;
      if b.header.opCode == opCode && b.header.transactionId == transactionId {
        var valid := auth.ValidateAuthTag(target, b);
        if valid { answer := Some(b.tlvPayload); }
      }
    }

    /**
     Assigns an IP configuration. `sendOk` tells whether the channel took the frame. The
     result is `Ok` exactly when the first expected and authentic answer reports no error.
     */
    method SetIpConfig(state: DeviceState, target: Mac, config: IpConfig, sendOk: bool, inbox: seq<Option<Bytes>>)
      returns (r: Result<()>, sent: Option<Bytes>)
      modifies this, auth
      ensures devices == old(devices)
      ensures state != DiscoverySync ==>
                && r == Err(ErrStateConflict) && sent == None && transactionCounter == old(transactionCounter)
                && auth.devices == old(auth.devices)
      ensures state == DiscoverySync ==> transactionCounter == (old(transactionCounter) + 1) % 0x1_0000
      ensures state == DiscoverySync && (ownMac.None? || !sendOk) ==> r == Err(ErrSocketChannel)
      ensures state == DiscoverySync && ownMac.None? ==> sent == None && auth.devices == old(auth.devices)
      ensures state == DiscoverySync && ownMac.Some? ==>
                var id := old(transactionCounter);
                var (frame, cs) := BuildRequest(auth.mac, ownMac.value, old(auth.devices), target, SetIpReq, id,
                                                Some(IpConfigTlv(config)));
                && sent == Some(SdcpFrameBytes(frame))
                && (!sendOk ==> auth.devices == cs)
                && (sendOk ==>
                      var (answer, cs') := WaitAll(auth.mac, AddDevice(cs, target), target, SetIpRes, id, inbox);
                      && auth.devices == cs'
                      && r == match answer case Ok(payload) => SetIpResult(payload) case Err(code) => Err(code))
    {
      sent := None;
      if state != DiscoverySync {
        r := Err(ErrStateConflict);
        return;
      }
      var id := NextTransactionId();
      var frame := BuildRequestFrame(target, SetIpReq, id, Some(IpConfigTlv(config)));
      if frame.Err? {
        r := Err(frame.code);
        return;
      }
      sent := Some(frame.value);
      if !sendOk {
        r := Err(ErrSocketChannel);
        return;
      }
      var answer := WaitForResponse(target, SetIpRes, id, inbox);
      match answer {
        case Ok(payload) => r := SetIpResult(payload);
        case Err(code) => r := Err(code);
      }
    }

    method GetIpConfig(state: DeviceState, target: Mac, sendOk: bool, inbox: seq<Option<Bytes>>)
      returns (r: Result<IpReport>, sent: Option<Bytes>)
      modifies this, auth
      ensures devices == old(devices)
      ensures state != DiscoverySync ==>
                && r == Err(ErrStateConflict) && sent == None && transactionCounter == old(transactionCounter)
                && auth.devices == old(auth.devices)
      ensures state == DiscoverySync ==> transactionCounter == (old(transactionCounter) + 1) % 0x1_0000
      ensures state == DiscoverySync && (ownMac.None? || !sendOk) ==> r == Err(ErrSocketChannel)
      ensures state == DiscoverySync && ownMac.None? ==> sent == None && auth.devices == old(auth.devices)
      ensures state == DiscoverySync && ownMac.Some? ==>
                var id := old(transactionCounter);
                var (frame, cs) := BuildRequest(auth.mac, ownMac.value, old(auth.devices), target, GetIpReq, id, None);
                && sent == Some(SdcpFrameBytes(frame))
                && (!sendOk ==> auth.devices == cs)
                && (sendOk ==>
                      var (answer, cs') := WaitAll(auth.mac, AddDevice(cs, target), target, GetIpRes, id, inbox);
                      && auth.devices == cs'
                      && r == match answer case Ok(payload) => GetIpResult(payload) case Err(code) => Err(code))
    {
      sent := None;
      if state != DiscoverySync {
        r := Err(ErrStateConflict);
        return;
      }
      var id := NextTransactionId();
      var frame := BuildRequestFrame(target, GetIpReq, id, None);
      if frame.Err? {
        r := Err(frame.code);
        return;
      }
      sent := Some(frame.value);
      if !sendOk {
        r := Err(ErrSocketChannel);
        return;
      }
      var answer := WaitForResponse(target, GetIpRes, id, inbox);
      match answer {
        case Ok(payload) => r := GetIpResult(payload);
        case Err(code) => r := Err(code);
      }
    }

    method DiscoverDevices(state: DeviceState, sendOk: bool, inbox: seq<Option<Bytes>>)
      returns (r: Result<seq<DiscoveredDevice>>, sent: Option<Bytes>)
      modifies this, auth
      ensures state != DiscoverySync ==>
                && r == Err(ErrStateConflict) && sent == None
                && transactionCounter == old(transactionCounter) && auth.devices == old(auth.devices)
      ensures state == DiscoverySync ==> transactionCounter == (old(transactionCounter) + 1) % 0x1_0000
      ensures state == DiscoverySync && ownMac.None? ==> sent == None && auth.devices == old(auth.devices)
      ensures state == DiscoverySync && ownMac.Some? && !sendOk ==>
                var (frame, cs) := BuildRequest(auth.mac, ownMac.value, old(auth.devices), BROADCAST_MAC, DiscoverReq,
                                                old(transactionCounter), None);
                sent == Some(SdcpFrameBytes(frame)) && auth.devices == cs
      ensures state == DiscoverySync && r.Err? ==> r == Err(ErrSocketChannel)
      ensures r.Err? ==> devices == old(devices)
      ensures state == DiscoverySync ==> (r.Ok? <==> ownMac.Some? && sendOk)
      ensures r.Ok? ==>
                var id := old(transactionCounter);
                var (frame, cs) := BuildRequest(auth.mac, ownMac.value, old(auth.devices), BROADCAST_MAC, DiscoverReq,
                                                id, None);
                var finds := Finds(auth.mac, cs, id, inbox);
                && sent == Some(SdcpFrameBytes(frame))
                && auth.devices == ContextsAfter(auth.mac, cs, id, inbox)
                && devices == CacheAfter(old(devices), finds)
                && r.value == NewAfter(old(devices), finds)
    {
      sent := None;
      if state != DiscoverySync {
        r := Err(ErrStateConflict);
        return;
      }
      var id := NextTransactionId();
      var frame := BuildRequestFrame(BROADCAST_MAC, DiscoverReq, id, None);
      if frame.Err? {
        r := Err(frame.code);
        return;
      }
      sent := Some(frame.value);
      if !sendOk {
        r := Err(ErrSocketChannel);
        return;
      }
      var newly := CollectDevices(id, inbox);
      r := Ok(newly);
    }

    /** The receive loop of `discover_devices`. */
    method CollectDevices(id: u16, inbox: seq<Option<Bytes>>) returns (newly: seq<DiscoveredDevice>)
      modifies this, auth
      ensures transactionCounter == old(transactionCounter)
      ensures auth.devices == ContextsAfter(auth.mac, old(auth.devices), id, inbox)
      ensures devices == CacheAfter(old(devices), Finds(auth.mac, old(auth.devices), id, inbox))
      ensures newly == NewAfter(old(devices), Finds(auth.mac, old(auth.devices), id, inbox))
    {
      newly := [];
      ghost var cs, cache, finds := auth.devices, devices, [];
      for i := 0 to |inbox|
        invariant transactionCounter == old(transactionCounter)
        invariant auth.devices == ContextsAfter(auth.mac, cs, id, inbox[..i])
        invariant finds == Finds(auth.mac, cs, id, inbox[..i])
        invariant devices == CacheAfter(cache, finds) && newly == NewAfter(cache, finds)
      {
        CollectStep(auth.mac, cs, cache, id, inbox, i);
        ghost var found;
        found, newly := OnDiscoverFrame(id, inbox[i], newly);
        finds := finds + [found];
      }
      assert inbox[..|inbox|] == inbox;
    }

    /** The body of the receive loop: a device is cached, and listed as new if it was not cached before. */
    method OnDiscoverFrame(id: u16, data: Option<Bytes>, listed: seq<DiscoveredDevice>)
      returns (found: Option<DiscoveredDevice>, newly: seq<DiscoveredDevice>)
      modifies this, auth
      ensures transactionCounter == old(transactionCounter)
      ensures (found, auth.devices) == DiscoverStep(auth.mac, old(auth.devices), id, data)
      ensures devices == if found.None? then old(devices) else old(devices)[found.value.mac := found.value]
      ensures newly == if found.Some? && found.value.mac !in old(devices) then listed + [found.value] else listed
    {
      newly := listed;
      found := ProcessDiscoverFrame(id, data);
      if found.Some? {
        var isNew := found.value.mac !in devices;
        devices := devices[found.value.mac := found.value];
        if isNew { newly := newly + [found.value]; }
      }
    }

    method AdmitSource(source: Mac, b: ParsedSdcp) returns (valid: bool)
      modifies auth
      ensures (valid, auth.devices) == Admit(auth.mac, old(auth.devices), source, b)
    {
      if source in auth.devices {
        valid := auth.ValidateAuthTag(source, b);
      } else {
        valid := auth.ValidateDiscoveryResponse(b);
        if valid {
          auth.AddNewDevice(source);
          var _ := auth.SetLastValidReceived(source, b.sequenceNumber);
          assert auth.devices == old(auth.devices)[source := DEFAULT_CONTEXT.(lastReceived := b.sequenceNumber)];
        }
      }
    }

    method ProcessDiscoverFrame(id: u16, data: Option<Bytes>) returns (found: Option<DiscoveredDevice>)
      modifies auth
      ensures (found, auth.devices) == DiscoverStep(auth.mac, old(auth.devices), id, data)
    {
      found := None;
      if data.None? {
        return;
      }
      var parsed := ParseSdcpFrame(data.value);
      if parsed.None? {
        return;
      }
      var source, b := parsed.value.source, parsed.value.body;
      if b.header.opCode != DiscoverRes || b.header.transactionId != id {
        return;
      }
      var valid := AdmitSource(source, b);
      if !valid {
        return;
      }
      var tlv := ReadTlv(b.tlvPayload);
      if tlv.None? {
        return;
      }
      var identity := ParseDeviceInfo(tlv.value);
      if identity.Some? {
        found := Some(DiscoveredDevice(source, identity.value));
      }
    }
  }

  // ---------- what a discovery returns ----------

  /** The received frame `i` was accepted and announced the device `m`. */
  ghost predicate Announces(finds: seq<Option<DiscoveredDevice>>, i: nat, m: Mac) {
    i < |finds| && finds[i].Some? && finds[i].value.mac == m
  }

  /** It is the last one that did. */
  ghost predicate LastAnnounces(finds: seq<Option<DiscoveredDevice>>, i: nat, m: Mac) {
    Announces(finds, i, m) && forall j: nat :: i < j ==> !Announces(finds, j, m)
  }

  /**
   A MAC that announced itself has the entry of its last accepted response; any other MAC has
   its old entry, or still none.
   */
  lemma {:induction false} CacheIsLastAnswer(cache: Cache, finds: seq<Option<DiscoveredDevice>>, m: Mac)
    ensures var after := CacheAfter(cache, finds);
            || (exists i: nat :: LastAnnounces(finds, i, m) && m in after && finds[i] == Some(after[m]))
            || (&& (forall i: nat :: !Announces(finds, i, m))
                && (m in after <==> m in cache) && (m in cache ==> after[m] == cache[m]))
  {
    if finds != [] {
      var n := |finds| - 1;
      var front := finds[..n];
      CacheIsLastAnswer(cache, front, m);
      forall i: nat | i < n ensures Announces(finds, i, m) == Announces(front, i, m) {
        assert finds[i] == front[i];
      }
      if Announces(finds, n, m) {
        assert LastAnnounces(finds, n, m);
      } else if i: nat :| LastAnnounces(front, i, m) && finds[i] == Some(CacheAfter(cache, front)[m]) {
        assert LastAnnounces(finds, i, m);
      }
    }
  }

  /** A device is returned as its MAC's first accepted response announced it. */
  lemma {:induction false} NewcomersFirst(cache: Cache, finds: seq<Option<DiscoveredDevice>>, k: nat)
    requires k < |NewAfter(cache, finds)|
    ensures var d := NewAfter(cache, finds)[k];
            exists i: nat :: Announces(finds, i, d.mac) && finds[i] == Some(d)
                             && forall j: nat :: j < i ==> !Announces(finds, j, d.mac)
  {
    var n := |finds| - 1;
    var front, d := finds[..n], NewAfter(cache, finds)[k];
    forall i: nat, m | i < n ensures Announces(finds, i, m) == Announces(front, i, m) {
      assert finds[i] == front[i];
    }
    if k < |NewAfter(cache, front)| {
      NewcomersFirst(cache, front, k);
      var i: nat :| Announces(front, i, d.mac) && front[i] == Some(d)
                    && forall j: nat :: j < i ==> !Announces(front, j, d.mac);
      assert Announces(finds, i, d.mac);
    } else {
      CacheIsLastAnswer(cache, front, d.mac);
      assert Announces(finds, n, d.mac) && finds[n] == Some(d);
    }
  }

  /**
   The devices returned are pairwise distinct, and their MACs are exactly the new keys of the
   cache minus the old ones.
   */
  lemma {:induction false} NewcomersExact(cache: Cache, finds: seq<Option<DiscoveredDevice>>)
    ensures var newly := NewAfter(cache, finds);
            && (forall i, j :: 0 <= i < j < |newly| ==> newly[i].mac != newly[j].mac)
            && (set i | 0 <= i < |newly| :: newly[i].mac) == CacheAfter(cache, finds).Keys - cache.Keys
            && cache.Keys <= CacheAfter(cache, finds).Keys
  {
    if finds != [] {
      var n := |finds| - 1;
      NewcomersExact(cache, finds[..n]);
      var before, after := NewAfter(cache, finds[..n]), NewAfter(cache, finds);
      if after == before {
        assert CacheAfter(cache, finds).Keys == CacheAfter(cache, finds[..n]).Keys;
      } else {
        var d := finds[n].value;
        assert after == before + [d];
        assert CacheAfter(cache, finds).Keys == CacheAfter(cache, finds[..n]).Keys + {d.mac};
        assert (set i | 0 <= i < |after| :: after[i].mac) == (set i | 0 <= i < |before| :: before[i].mac) + {d.mac} by {
          assert after[|before|] == d;
          forall i | 0 <= i < |before| ensures after[i] == before[i] {}
        }
        forall i | 0 <= i < |before| ensures before[i].mac != d.mac {
          assert before[i].mac in (set i | 0 <= i < |before| :: before[i].mac);
        }
      }
    }
  }

  /** An authentic discovery response of `m` to this transaction. */
  ghost predicate IsResponse(mac: KeyedMac, id: u16, data: Option<Bytes>, m: Mac) {
    && data.Some? && ParseSdcpFrame(data.value).Some?
    && var f := ParseSdcpFrame(data.value).value;
    && f.source == m && f.body.header.opCode == DiscoverRes && f.body.header.transactionId == id
    && SdcpTagMatches(mac, f.body)
  }

  function NumberIn(data: Option<Bytes>): nat {
    if data.Some? && ParseSdcpFrame(data.value).Some? then ParseSdcpFrame(data.value).value.body.sequenceNumber else 0
  }

  /** What a MAC has to send next: number one without a context, anything above its last number with one. */
  predicate FreshNumber(cs: Contexts, m: Mac, number: nat) {
    if m in cs then number > cs[m].lastReceived else number == 1
  }

  /** One received frame: a device is found exactly by a fresh response that describes one. */
  lemma FoundIff(mac: KeyedMac, cs: Contexts, id: u16, data: Option<Bytes>, d: DiscoveredDevice)
    ensures DiscoverStep(mac, cs, id, data).0 == Some(d) <==>
            && IsResponse(mac, id, data, d.mac) && FreshNumber(cs, d.mac, NumberIn(data))
            && DeviceOf(d.mac, ParseSdcpFrame(data.value).value.body.tlvPayload) == Some(d)
  {
  }

  /** Frame `i` is an authentic response of this transaction, fresh after the frames before it, that describes `d`. */
  ghost predicate Announced(
    mac: KeyedMac, cs: Contexts, id: u16, inbox: seq<Option<Bytes>>, i: nat, d: DiscoveredDevice)
  {
    && i < |inbox| && IsResponse(mac, id, inbox[i], d.mac)
    && FreshNumber(ContextsAfter(mac, cs, id, inbox[..i]), d.mac, NumberIn(inbox[i]))
    && DeviceOf(d.mac, ParseSdcpFrame(inbox[i].value).value.body.tlvPayload) == Some(d)
  }

  /**
   For every sequence of received frames: the `i`th finds a device exactly when it is a
   response of this transaction, authentic and fresh after the frames before it, that
   describes the device.
   */
  lemma {:induction false} FindsIff(
    mac: KeyedMac, cs: Contexts, id: u16, inbox: seq<Option<Bytes>>, i: nat, d: DiscoveredDevice)
    requires i < |inbox|
    ensures Finds(mac, cs, id, inbox)[i] == Some(d) <==> Announced(mac, cs, id, inbox, i, d)
    decreases |inbox|
  {
    var n := |inbox| - 1;
    if i == n {
      FoundIff(mac, ContextsAfter(mac, cs, id, inbox[..n]), id, inbox[n], d);
    } else {
      FindsIff(mac, cs, id, inbox[..n], i, d);
      assert inbox[..n][..i] == inbox[..i] && inbox[..n][i] == inbox[i];
    }
  }

  /** Device `m` had its last accepted response in frame `i`, and it described `d`. */
  ghost predicate LastAnnounced(
    mac: KeyedMac, cs: Contexts, id: u16, inbox: seq<Option<Bytes>>, i: nat, d: DiscoveredDevice)
  {
    && Announced(mac, cs, id, inbox, i, d)
    && forall j: nat, e: DiscoveredDevice :: i < j && e.mac == d.mac ==> !Announced(mac, cs, id, inbox, j, e)
  }

  /**
   For every sequence of received frames: after a discovery a MAC's cache entry is that of its
   last accepted response, or, when none was accepted, what it was before.
   */
  lemma CacheFromFrames(
    mac: KeyedMac, cs: Contexts, id: u16, inbox: seq<Option<Bytes>>, cache: Cache, m: Mac)
    ensures var after := CacheAfter(cache, Finds(mac, cs, id, inbox));
            || (m in after && after[m].mac == m && exists i: nat :: LastAnnounced(mac, cs, id, inbox, i, after[m]))
            || (&& (forall i: nat, e: DiscoveredDevice :: e.mac == m ==> !Announced(mac, cs, id, inbox, i, e))
                && (m in after <==> m in cache) && (m in cache ==> after[m] == cache[m]))
  {
    var finds := Finds(mac, cs, id, inbox);
    forall i: nat, e: DiscoveredDevice | e.mac == m && Announced(mac, cs, id, inbox, i, e)
      ensures Announces(finds, i, m)
    {
      FindsIff(mac, cs, id, inbox, i, e);
    }
    CacheIsLastAnswer(cache, finds, m);
    if i: nat :| LastAnnounces(finds, i, m) && finds[i] == Some(CacheAfter(cache, finds)[m]) {
      FindsIff(mac, cs, id, inbox, i, CacheAfter(cache, finds)[m]);
      assert LastAnnounced(mac, cs, id, inbox, i, CacheAfter(cache, finds)[m]);
    }
  }

  /** Over every sequence of received frames, a MAC without context is admitted only by a response numbered one. */
  lemma {:induction false} AdmittedOnlyByFirst(
    mac: KeyedMac, cs: Contexts, id: u16, inbox: seq<Option<Bytes>>, m: Mac)
    requires m !in cs && m in ContextsAfter(mac, cs, id, inbox)
    ensures exists i :: 0 <= i < |inbox| && IsResponse(mac, id, inbox[i], m) && NumberIn(inbox[i]) == 1
    decreases |inbox|
  {
    var n := |inbox| - 1;
    var before := ContextsAfter(mac, cs, id, inbox[..n]);
    if m in before {
      AdmittedOnlyByFirst(mac, cs, id, inbox[..n], m);
      var i :| 0 <= i < n && IsResponse(mac, id, inbox[..n][i], m) && NumberIn(inbox[..n][i]) == 1;
      assert inbox[i] == inbox[..n][i];
    } else {
      AdmittedHere(mac, before, id, inbox[n], m);
    }
  }

  lemma AdmittedHere(mac: KeyedMac, cs: Contexts, id: u16, data: Option<Bytes>, m: Mac)
    requires m !in cs && m in DiscoverStep(mac, cs, id, data).1
    ensures IsResponse(mac, id, data, m) && NumberIn(data) == 1
  {
  }

  /** The last number accepted from a device never falls, so no response is used twice. */
  lemma {:induction false} ContextsGrow(mac: KeyedMac, cs: Contexts, id: u16, inbox: seq<Option<Bytes>>, m: Mac)
    requires m in cs
    ensures m in ContextsAfter(mac, cs, id, inbox)
    ensures ContextsAfter(mac, cs, id, inbox)[m].lastReceived >= cs[m].lastReceived
    ensures ContextsAfter(mac, cs, id, inbox)[m].transmitted == cs[m].transmitted
    decreases |inbox|
  {
    if inbox != [] { ContextsGrow(mac, cs, id, inbox[..|inbox| - 1], m); }
  }
}
