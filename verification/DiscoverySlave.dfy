/** The slave's discovery listener: authenticate, act on the request, answer. */
module DiscoverySlave {
  import opened Types
  import opened BigEndian
  import opened AuthFooter
  import opened Crypto
  import opened SdcpCodec
  import opened DiscoveryAuth
  import opened StateMachine

  datatype DeviceInfo = DeviceInfo(
    macAddress: Bytes, ipAddress: Bytes, ipSource: IpSource, netmask: Bytes, gateway: Bytes,
    vendorId: u32, deviceId: u32, serialNumber: u32, firmwareVersion: u32, capabilities: u32)

  const DEFAULT_INFO := DeviceInfo([0, 0, 0, 0, 0, 0], [0, 0, 0, 0], Unspecified, [255, 255, 255, 0], [0, 0, 0, 0], 0,
                                   0, 0, 0, 0)

  /** How the hardware answers during one request: applying a configuration, reading and writing device info. */
  datatype Hardware = Hardware(apply: Result<()>, read: Result<()>, write: Result<()>)

  /** The listener's state: contexts, device info, the configuration of the interface, life-cycle state. */
  datatype Slave = Slave(
    mac: Mac, contexts: Contexts, info: DeviceInfo, interface: Option<IpConfig>, state: DeviceState, listening: bool)

  function AsIpv4(b: Bytes, default: Ipv4): Ipv4 {
    if |b| == 4 then b else default
  }

  function ReportOf(info: DeviceInfo): IpReport {
    IpReport(IpConfig(AsIpv4(info.ipAddress, [0, 0, 0, 0]), AsIpv4(info.netmask, [255, 255, 255, 0]),
                      AsIpv4(info.gateway, [0, 0, 0, 0])),
             info.ipSource)
  }

  function IdentityOf(info: DeviceInfo): DeviceIdentity {
    DeviceIdentity(info.vendorId % 0x1_0000, info.deviceId % 0x1_0000, info.serialNumber)
  }

  function Stored(info: DeviceInfo, c: IpConfig): DeviceInfo {
    info.(ipAddress := c.ip, netmask := c.netmask, gateway := c.gateway)
  }

  /** The configuration in a request's payload, if there is one. */
  function RequestedConfig(tlvPayload: Bytes): Option<IpConfig> {
    match ReadTlv(tlvPayload)
    case None => None
    case Some(t) => ParseIpConfig(t)
  }

  /** What a request leads to: the answer, and the configuration if one was fully applied and stored. */
  datatype Reaction = Reaction(answer: Option<(SdcpOpCode, Tlv)>, applied: Option<IpConfig>)

  function SetIpReaction(tlvPayload: Bytes, hw: Hardware): Reaction {
    match RequestedConfig(tlvPayload)
    case None => Reaction(None, None)
    case Some(c) =>
      match (hw.apply, hw.read, hw.write)
      case (Err(_), _, _) => Reaction(Some((SetIpRes, StatusReportTlv(ErrHardwareAccess))), None)
      case (Ok(_), Err(code), _) => Reaction(Some((SetIpRes, StatusReportTlv(code))), None)
      case (Ok(_), Ok(_), Err(code)) => Reaction(Some((SetIpRes, StatusReportTlv(code))), None)
      case (Ok(_), Ok(_), Ok(_)) => Reaction(Some((SetIpRes, StatusReportTlv(NoError))), Some(c))
  }

  /** The device info that a discovery response tells; a default when it cannot be read. */
  function Readable(info: DeviceInfo, hw: Hardware): DeviceInfo {
    if hw.read.Ok? then info else DEFAULT_INFO
  }

  /** The answer to a get-IP request. */
  function ReportTlv(info: DeviceInfo, hw: Hardware): Tlv {
    match hw.read
    case Ok(_) => IpReportTlv(ReportOf(info))
    case Err(code) => StatusReportTlv(code)
  }

  function ReactionTo(info: DeviceInfo, b: ParsedSdcp, hw: Hardware): Reaction {
    match b.header.opCode
    case DiscoverReq => Reaction(Some((DiscoverRes, DeviceInfoTlv(IdentityOf(Readable(info, hw))))), None)
    case GetIpReq => Reaction(Some((GetIpRes, ReportTlv(info, hw))), None)
    case SetIpReq => SetIpReaction(b.tlvPayload, hw)
    case _ => Reaction(None, None)
  }

  /** `send_response`: the answer as a frame, numbered with the slave's own counter. */
  function Respond(
    mac: KeyedMac, s: Slave, target: Mac, opCode: SdcpOpCode, transactionId: u16, tlv: Tlv): (SdcpFrame, Slave) {
    var contexts := AddDevice(s.contexts, s.mac);
    var header := NewSdcpHeader(opCode, transactionId);
    var (tagged, contexts') := CreateTag(mac, contexts, s.mac, header, TlvBytes(tlv));
    (SdcpFrame(target, s.mac, ParsedSdcp(header, TlvBytes(tlv), tagged.value.0, tagged.value.1)),
     s.(contexts := contexts'))
  }

  /** The interface takes a configuration as soon as the hardware applied it, whatever follows. */
  function InterfaceAfter(s: Slave, b: ParsedSdcp, hw: Hardware): Option<IpConfig> {
    if b.header.opCode == SetIpReq && RequestedConfig(b.tlvPayload).Some? && hw.apply.Ok?
    then RequestedConfig(b.tlvPayload)
    else s.interface
  }

  /** An authenticated request: device info, answer, then the change of state. */
  function Act(mac: KeyedMac, s: Slave, source: Mac, b: ParsedSdcp, hw: Hardware): (Slave, Option<SdcpFrame>) {
    var reaction := ReactionTo(s.info, b, hw);
    var s1 := s.(interface := InterfaceAfter(s, b, hw),
                 info := if reaction.applied.Some? then Stored(s.info, reaction.applied.value) else s.info);
    match reaction.answer
    case None => (s1, None)
    case Some((opCode, tlv)) =>
      var (frame, s2) := Respond(mac, s1, source, opCode, b.header.transactionId, tlv);
      (if reaction.applied.Some? then s2.(state := Next(s2.state, PreOp)) else s2, Some(frame))
  }

  /** `handle_packet` */
  function HandlePacket(mac: KeyedMac, s: Slave, source: Mac, b: ParsedSdcp, hw: Hardware): (Slave, Option<SdcpFrame>) {
    var (valid, contexts') := ValidateTag(mac, s.contexts, source, b);
    if !valid then (s, None) else Act(mac, s.(contexts := contexts'), source, b, hw)
  }

  /** One iteration of the listener: `snapshot` is the state at the top of the loop. */
  function Listen(
    mac: KeyedMac, s: Slave, snapshot: DeviceState, data: Option<Bytes>, hw: Hardware): (Slave, Option<SdcpFrame>) {
    if !s.listening then (s, None)
    else if snapshot != DiscoverySync then (s.(listening := false), None)
    else if data.None? then (s, None)
    else
      match ParseSdcpFrame(data.value)
      case None => (s, None)
      case Some(f) => HandlePacket(mac, s, f.source, f.body, hw)
  }

  class DiscoveryListener {
    const ownMac: Mac
    const auth: DiscoveryAuthHandler
    const stateManager: DeviceStateManager
    var info: DeviceInfo
    var interface: Option<IpConfig>
    var listening: bool

    ghost function Value(): Slave
      reads this, auth, stateManager
    {
      Slave(ownMac, auth.devices, info, interface, stateManager.state, listening)
    }

    constructor (ownMac: Mac, auth: DiscoveryAuthHandler, stateManager: DeviceStateManager, info: DeviceInfo)
      ensures this.auth == auth && this.stateManager == stateManager
      ensures Value() == Slave(ownMac, auth.devices, info, None, stateManager.state, true)
    {
      this.ownMac, this.auth, this.stateManager, this.info := ownMac, auth, stateManager, info;
      interface, listening := None, true;
    }

    method Iterate(snapshot: DeviceState, data: Option<Bytes>, hw: Hardware) returns (sent: Option<Bytes>)
      modifies this, auth, stateManager
      ensures var (s', frame) := Listen(auth.mac, old(Value()), snapshot, data, hw);
              Value() == s' && sent == if frame.None? then None else Some(SdcpFrameBytes(frame.value))
    {
      sent := None;
      if !listening {
        return;
      }
      if snapshot != DiscoverySync {
        listening := false;
        return;
      }
      if data.None? {
        return;
      }
      var parsed := ParseSdcpFrame(data.value);
      if parsed.Some? {
        sent := Handle(parsed.value.source, parsed.value.body, hw);
      }
    }

    method Handle(source: Mac, b: ParsedSdcp, hw: Hardware) returns (sent: Option<Bytes>)
      modifies this, auth, stateManager
      ensures var (s', frame) := HandlePacket(auth.mac, old(Value()), source, b, hw);
              Value() == s' && sent == if frame.None? then None else Some(SdcpFrameBytes(frame.value))
    {
      sent := None;
      var valid := auth.ValidateAuthTag(source, b);
      if !valid {
        return;
      }
      match b.header.opCode {
        case DiscoverReq =>
          var device := if hw.read.Ok? then info else DEFAULT_INFO;
          var bytes := SendResponse(source, DiscoverRes, b.header.transactionId, DeviceInfoTlv(IdentityOf(device)));
          sent := Some(bytes);
        case SetIpReq => sent := HandleSetIp(source, b, hw);
        case GetIpReq =>
          var tlv := match hw.read case Ok(_) => IpReportTlv(ReportOf(info)) case Err(code) => StatusReportTlv(code);
          var bytes := SendResponse(source, GetIpRes, b.header.transactionId, tlv);
          sent := Some(bytes);
        case _ =>
      }
    }

    method HandleSetIp(source: Mac, b: ParsedSdcp, hw: Hardware) returns (sent: Option<Bytes>)
      requires b.header.opCode == SetIpReq
      modifies this, auth, stateManager
      ensures var (s', frame) := Act(auth.mac, old(Value()), source, b, hw);
              Value() == s' && sent == if frame.None? then None else Some(SdcpFrameBytes(frame.value))
    {
      sent := None;
      if |b.tlvPayload| == 0 {
        return;
      }
      var tlv := ReadTlv(b.tlvPayload);
      if tlv.None? {
        return;
      }
      var config := ParseIpConfig(tlv.value);
      if config.None? {
        return;
      }
      if hw.apply.Err? {
        sent := Status(source, b, ErrHardwareAccess);
        return;
      }
      interface := config;
      if hw.read.Err? {
        sent := Status(source, b, hw.read.code);
        return;
      }
      var updated := info.(ipAddress := config.value.ip, netmask := config.value.netmask,
                           gateway := config.value.gateway);
      if hw.write.Err? {
        sent := Status(source, b, hw.write.code);
        return;
      }
      info := updated;
      sent := Status(source, b, NoError);
      var _ := stateManager.SetTargetState(PreOp);
    }

    method Status(source: Mac, b: ParsedSdcp, code: StatusCode) returns (sent: Option<Bytes>)
      modifies auth
      ensures var (frame, s') := Respond(auth.mac, old(Value()), source, SetIpRes, b.header.transactionId,
                                         StatusReportTlv(code));
              Value() == s' && sent == Some(SdcpFrameBytes(frame))
    {
      var bytes := SendResponse(source, SetIpRes, b.header.transactionId, StatusReportTlv(code));
      sent := Some(bytes);
    }

    method SendResponse(target: Mac, opCode: SdcpOpCode, transactionId: u16, tlv: Tlv) returns (bytes: Bytes)
      modifies auth
      ensures var (frame, s') := Respond(auth.mac, old(Value()), target, opCode, transactionId, tlv);
              Value() == s' && bytes == SdcpFrameBytes(frame)
    {
      var header := NewSdcpHeader(opCode, transactionId);
      var payload := SdcpHeaderBytes(header);
      var tlvPayload := TlvBytes(tlv);
      payload := payload + tlvPayload;
      auth.AddNewDevice(ownMac);
      var tagged := auth.CreateAuthTag(ownMac, header, tlvPayload);
      payload := payload + FooterBytes(SecurityFooter(tagged.value.0, tagged.value.1));
      bytes := target + ownMac + ToBe(ETHERTYPE_SDCP, 2) + payload;
    }
  }
}
