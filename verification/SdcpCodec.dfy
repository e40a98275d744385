/** SDCP on the wire: Ethernet header, protocol header, TLV and security footer. */
module SdcpCodec {
  import opened Types
  import opened BigEndian
  import opened AuthFooter

  const ETHERTYPE_SDCP: u16 := 0x88B5
  const SDCP_VERSION: byte := 1
  const SDCP_FLAGS: byte := 0
  const SDCP_HEADER_SIZE := 5
  const TLV_TYPE_DEVICE_INFO: byte := 1
  const TLV_TYPE_IP_CONFIG: byte := 2
  const TLV_TYPE_STATUS_REPORT: byte := 3
  const TLV_TYPE_IP_REPORT: byte := 4

  datatype SdcpOpCode =
    | DiscoverReq | DiscoverRes | SetIpReq | SetIpRes | GetIpReq | GetIpRes
    | ActivateDhcpReq | ActivateDhcpRes | UnknownOperation
  {
    function Code(): byte {
      match this
      case DiscoverReq => 1
      case DiscoverRes => 2
      case SetIpReq => 3
      case SetIpRes => 4
      case GetIpReq => 5
      case GetIpRes => 6
      case ActivateDhcpReq => 7
      case ActivateDhcpRes => 8
      case UnknownOperation => 9
    }

    static function FromByte(b: byte): SdcpOpCode {
      match b
      case 1 => DiscoverReq
      case 2 => DiscoverRes
      case 3 => SetIpReq
      case 4 => SetIpRes
      case 5 => GetIpReq
      case 6 => GetIpRes
      case 7 => ActivateDhcpReq
      case 8 => ActivateDhcpRes
      case _ => UnknownOperation
    }
  }

  datatype SdcpHeader = SdcpHeader(version: byte, opCode: SdcpOpCode, transactionId: u16, flags: byte)

  function NewSdcpHeader(opCode: SdcpOpCode, transactionId: u16): SdcpHeader {
    SdcpHeader(SDCP_VERSION, opCode, transactionId, SDCP_FLAGS)
  }

  /** The bytes `write_to` appends. */
  function SdcpHeaderBytes(h: SdcpHeader): (r: Bytes)
    ensures |r| == SDCP_HEADER_SIZE
  {
    [h.version, h.opCode.Code()] + ToBe(h.transactionId, 2) + [h.flags]
  }

  function ReadSdcpHeader(buf: Bytes): Option<SdcpHeader> {
    if |buf| < SDCP_HEADER_SIZE then None
    else Some(SdcpHeader(buf[0], SdcpOpCode.FromByte(buf[1]), U16(buf[2..4]), buf[4]))
  }

  /** The second header serialiser, used for the authentication tag. */
  function SerializeSdcpHeader(h: SdcpHeader): (r: Bytes)
    ensures |r| == SDCP_HEADER_SIZE
  {
    [h.version, h.opCode.Code(), h.transactionId / 256, h.transactionId % 256, h.flags]
  }

  lemma SdcpSerializersAgree(h: SdcpHeader)
    ensures SerializeSdcpHeader(h) == SdcpHeaderBytes(h)
  {
    Split16(h.transactionId);
  }

  /** Reading a written header returns it, whatever follows. */
  lemma SdcpHeaderReadWrite(h: SdcpHeader, rest: Bytes)
    ensures ReadSdcpHeader(SdcpHeaderBytes(h) + rest) == Some(h)
  {
    var b := SdcpHeaderBytes(h) + rest;
    assert b[2..4] == ToBe(h.transactionId, 2);
    RoundTrip16(h.transactionId);
  }

  /** Writing a header that was read gives back its five bytes exactly when the opcode byte was 1 to 9. */
  lemma SdcpHeaderWriteReadIff(b: Bytes)
    requires |b| >= SDCP_HEADER_SIZE
    ensures SdcpHeaderBytes(ReadSdcpHeader(b).value) == b[..5] <==> 1 <= b[1] <= 9
  {
    var h := ReadSdcpHeader(b).value;
    EncodeDecode(b[2..4]);
    assert b[..5] == [b[0], b[1]] + b[2..4] + [b[4]];
    assert SdcpHeaderBytes(h)[1] == h.opCode.Code();
    assert b[..5][1] == b[1];
  }

  // ---------- TLV ----------

  datatype Tlv = Tlv(tType: byte, length: byte, value: Bytes)

  /** The length is truncated to one byte. */
  function NewTlv(tType: byte, value: Bytes): Tlv {
    Tlv(tType, |value| % 256, value)
  }

  function TlvBytes(t: Tlv): Bytes {
    [t.tType, t.length] + t.value
  }

  function ReadTlv(buf: Bytes): Option<Tlv> {
    if |buf| < 2 || |buf| - 2 < buf[1] then None
    else Some(Tlv(buf[0], buf[1], buf[2..2 + buf[1]]))
  }

  /** A TLV survives the wire exactly when its value fits the length byte. */
  lemma TlvRoundTripIff(tType: byte, value: Bytes)
    ensures ReadTlv(TlvBytes(NewTlv(tType, value))) == Some(NewTlv(tType, value)) <==> |value| <= 255
  {
    var b := TlvBytes(NewTlv(tType, value));
    assert b[2..] == value;
    if |value| <= 255 {
      assert b[2..2 + b[1]] == value;
    } else {
      assert |b[2..2 + b[1]]| == b[1] < |value|;
    }
  }

  datatype DeviceIdentity = DeviceIdentity(vendorId: u16, deviceId: u16, serialNumber: u32)
  datatype IpConfig = IpConfig(ip: Ipv4, netmask: Ipv4, gateway: Ipv4)
  datatype IpSource = Unspecified | Sdcp | Dhcp | Manual
  {
    function Code(): byte {
      match this
      case Unspecified => 0
      case Sdcp => 1
      case Dhcp => 2
      case Manual => 3
    }

    /** Unknown codes fall back to `Unspecified`. */
    static function FromByte(b: byte): IpSource {
      match b
      case 1 => Sdcp
      case 2 => Dhcp
      case 3 => Manual
      case _ => Unspecified
    }
  }
  datatype IpReport = IpReport(config: IpConfig, source: IpSource)

  function DeviceInfoTlv(d: DeviceIdentity): Tlv {
    NewTlv(TLV_TYPE_DEVICE_INFO, ToBe(d.vendorId, 2) + ToBe(d.deviceId, 2) + ToBe(d.serialNumber, 4))
  }

  function ParseDeviceInfo(t: Tlv): Option<DeviceIdentity> {
    if t.tType != TLV_TYPE_DEVICE_INFO || |t.value| != 8 then None
    else Some(DeviceIdentity(U16(t.value[0..2]), U16(t.value[2..4]), U32(t.value[4..8])))
  }

  function IpConfigTlv(c: IpConfig): Tlv {
    NewTlv(TLV_TYPE_IP_CONFIG, c.ip + c.netmask + c.gateway)
  }

  function ParseIpConfig(t: Tlv): Option<IpConfig> {
    if t.tType != TLV_TYPE_IP_CONFIG || |t.value| != 12 then None
    else Some(IpConfig(t.value[0..4], t.value[4..8], t.value[8..12]))
  }

  function StatusReportTlv(code: StatusCode): Tlv {
    NewTlv(TLV_TYPE_STATUS_REPORT, [code.Code()])
  }

  function ParseStatusReport(t: Tlv): Option<StatusCode> {
    if t.tType != TLV_TYPE_STATUS_REPORT || |t.value| != 1 then None
    else StatusCode.FromCode(t.value[0])
  }

  function IpReportTlv(r: IpReport): Tlv {
    NewTlv(TLV_TYPE_IP_REPORT, r.config.ip + r.config.netmask + r.config.gateway + [r.source.Code()])
  }

  function ParseIpReport(t: Tlv): Option<IpReport> {
    if t.tType != TLV_TYPE_IP_REPORT || |t.value| != 13 then None
    else Some(IpReport(IpConfig(t.value[0..4], t.value[4..8], t.value[8..12]), IpSource.FromByte(t.value[12])))
  }

  /** All four typed TLVs survive the wire. */
  lemma DeviceInfoRoundTrip(d: DeviceIdentity)
    ensures ReadTlv(TlvBytes(DeviceInfoTlv(d))) == Some(DeviceInfoTlv(d))
    ensures ParseDeviceInfo(DeviceInfoTlv(d)) == Some(d)
  {
    var v := ToBe(d.vendorId, 2) + ToBe(d.deviceId, 2) + ToBe(d.serialNumber, 4);
    TlvRoundTripIff(TLV_TYPE_DEVICE_INFO, v);
    assert v[0..2] == ToBe(d.vendorId, 2) && v[2..4] == ToBe(d.deviceId, 2) && v[4..8] == ToBe(d.serialNumber, 4);
    RoundTrip16(d.vendorId);
    RoundTrip16(d.deviceId);
    RoundTrip32(d.serialNumber);
  }

  lemma IpConfigRoundTrip(c: IpConfig)
    ensures ReadTlv(TlvBytes(IpConfigTlv(c))) == Some(IpConfigTlv(c))
    ensures ParseIpConfig(IpConfigTlv(c)) == Some(c)
  {
    var v := c.ip + c.netmask + c.gateway;
    TlvRoundTripIff(TLV_TYPE_IP_CONFIG, v);
    assert v[0..4] == c.ip && v[4..8] == c.netmask && v[8..12] == c.gateway;
  }

  lemma StatusReportRoundTrip(code: StatusCode)
    ensures ReadTlv(TlvBytes(StatusReportTlv(code))) == Some(StatusReportTlv(code))
    ensures ParseStatusReport(StatusReportTlv(code)) == Some(code)
  {
    TlvRoundTripIff(TLV_TYPE_STATUS_REPORT, [code.Code()]);
  }

  lemma IpReportRoundTrip(r: IpReport)
    ensures ReadTlv(TlvBytes(IpReportTlv(r))) == Some(IpReportTlv(r))
    ensures ParseIpReport(IpReportTlv(r)) == Some(r)
  {
    var v := r.config.ip + r.config.netmask + r.config.gateway + [r.source.Code()];
    TlvRoundTripIff(TLV_TYPE_IP_REPORT, v);
    assert v[0..4] == r.config.ip && v[4..8] == r.config.netmask && v[8..12] == r.config.gateway
           && v[12] == r.source.Code();
  }

  // ---------- whole frames ----------

  datatype ParsedSdcp = ParsedSdcp(header: SdcpHeader, tlvPayload: Bytes, sequenceNumber: u64, authTag: Tag)

  function ParseSdcpPayload(payload: Bytes): Result<ParsedSdcp> {
    match SplitPayloadAndFooter(payload)
    case Err(_) => Err(ErrInvalidLen)
    case Ok((front, footer)) =>
      if |front| < SDCP_HEADER_SIZE then Err(ErrInvalidLen)
      else
        match ReadSdcpHeader(front)
        case None => Err(ErrFrameParsing)
        case Some(header) => Ok(ParsedSdcp(header, front[5..], footer.sequenceNumber, footer.authTag))
  }

  /** An Ethernet frame with an SDCP payload, parsed. */
  datatype SdcpFrame = SdcpFrame(destination: Mac, source: Mac, body: ParsedSdcp)

  function SdcpFrameBytes(f: SdcpFrame): Bytes {
    f.destination + f.source + ToBe(ETHERTYPE_SDCP, 2)
    + (SdcpHeaderBytes(f.body.header) + f.body.tlvPayload
       + FooterBytes(SecurityFooter(f.body.sequenceNumber, f.body.authTag)))
  }

  /** What a receiver makes of raw bytes: nothing unless they are an SDCP frame that parses. */
  function ParseSdcpFrame(data: Bytes): Option<SdcpFrame> {
    if |data| < 14 || U16(data[12..14]) != ETHERTYPE_SDCP then None
    else
      match ParseSdcpPayload(data[14..])
      case Err(_) => None
      case Ok(body) => Some(SdcpFrame(data[0..6], data[6..12], body))
  }

  lemma SdcpPayloadRoundTrip(header: SdcpHeader, tlv: Bytes, footer: SecurityFooter)
    ensures ParseSdcpPayload(SdcpHeaderBytes(header) + tlv + FooterBytes(footer)) ==
            Ok(ParsedSdcp(header, tlv, footer.sequenceNumber, footer.authTag))
  {
    var front := SdcpHeaderBytes(header) + tlv;
    SplitAppend(front, footer);
    SdcpHeaderReadWrite(header, tlv);
    assert front[5..] == tlv;
  }

  /** Parsing a built frame returns every part of it. */
  lemma SdcpFrameRoundTrip(f: SdcpFrame)
    ensures ParseSdcpFrame(SdcpFrameBytes(f)) == Some(f)
  {
    var data := SdcpFrameBytes(f);
    var payload := SdcpHeaderBytes(f.body.header) + f.body.tlvPayload
        + FooterBytes(SecurityFooter(f.body.sequenceNumber, f.body.authTag));
    assert data[0..6] == f.destination && data[6..12] == f.source && data[12..14] == ToBe(ETHERTYPE_SDCP, 2);
    assert data[14..] == payload;
    RoundTrip16(ETHERTYPE_SDCP);
    SdcpPayloadRoundTrip(f.body.header, f.body.tlvPayload, SecurityFooter(f.body.sequenceNumber, f.body.authTag));
  }

  /** What the tag authenticates. */
  function SdcpTaggedBytes(h: SdcpHeader, payload: Bytes, sequenceNumber: u64): Bytes {
    SerializeSdcpHeader(h) + payload + ToBe(sequenceNumber, 8)
  }

  /** The authenticated bytes are exactly those of the frame from offset 14 to 8 before its end. */
  lemma SdcpTagCoverage(f: SdcpFrame)
    ensures var b := SdcpFrameBytes(f);
            SdcpTaggedBytes(f.body.header, f.body.tlvPayload, f.body.sequenceNumber) == b[14..|b| - 8]
  {
    SdcpSerializersAgree(f.body.header);
    var tagged := SdcpTaggedBytes(f.body.header, f.body.tlvPayload, f.body.sequenceNumber);
    assert SdcpFrameBytes(f) == (f.destination + f.source + ToBe(ETHERTYPE_SDCP, 2)) + tagged + f.body.authTag;
  }

  /** The authenticated bytes determine header, TLV payload and sequence number. */
  lemma SdcpTaggedBytesInjective(h1: SdcpHeader, p1: Bytes, s1: u64, h2: SdcpHeader, p2: Bytes, s2: u64)
    requires SdcpTaggedBytes(h1, p1, s1) == SdcpTaggedBytes(h2, p2, s2)
    ensures h1 == h2 && p1 == p2 && s1 == s2
  {
    var t1, t2 := SdcpTaggedBytes(h1, p1, s1), SdcpTaggedBytes(h2, p2, s2);
    SdcpSerializersAgree(h1);
    SdcpSerializersAgree(h2);
    assert t1[..5] == SdcpHeaderBytes(h1) && t2[..5] == SdcpHeaderBytes(h2);
    SdcpHeaderReadWrite(h1, []);
    SdcpHeaderReadWrite(h2, []);
    assert SdcpHeaderBytes(h1) + [] == SdcpHeaderBytes(h1) && SdcpHeaderBytes(h2) + [] == SdcpHeaderBytes(h2);
    assert t1[5..|t1| - 8] == p1 && t2[5..|t2| - 8] == p2;
    assert t1[|t1| - 8..] == ToBe(s1, 8) && t2[|t2| - 8..] == ToBe(s2, 8);
    RoundTrip64(s1);
    RoundTrip64(s2);
  }
}
