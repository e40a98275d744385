/** What stands where on the wire, byte by byte, in plain numbers. */
module Wire {
  import opened Types
  import opened BigEndian
  import opened AuthFooter
  import opened L2Frame
  import opened SdcpCodec
  import opened Crypto
  import opened CycleCounter
  import opened ProcessImage
  import opened StreamStore
  import opened L2Sender

  /** The byte at an offset, as a number. */
  function Digit(b: Bytes, i: nat): nat
    requires i < |b|
  {
    b[i]
  }

  /** Numbers at an offset, high byte first. */
  function Number16(b: Bytes, offset: nat): nat
    requires offset + 2 <= |b|
  {
    0x100 * Digit(b, offset) + Digit(b, offset + 1)
  }

  function Number32(b: Bytes, offset: nat): nat
    requires offset + 4 <= |b|
  {
    0x1_0000 * Number16(b, offset) + Number16(b, offset + 2)
  }

  predicate Has16(b: Bytes, offset: nat, n: nat) {
    offset + 2 <= |b| && Number16(b, offset) == n
  }

  predicate Has32(b: Bytes, offset: nat, n: nat) {
    offset + 4 <= |b| && Number32(b, offset) == n
  }

  predicate Has64(b: Bytes, offset: nat, n: nat) {
    offset + 8 <= |b| && 0x1_0000_0000 * Number32(b, offset) + Number32(b, offset + 4) == n
  }

  predicate HasBytes(b: Bytes, offset: nat, part: Bytes) {
    offset + |part| <= |b| && b[offset..offset + |part|] == part
  }

  lemma Digits16(n: u16)
    ensures Has16(ToBe(n, 2), 0, n)
  {
    Split16(n);
  }

  lemma Last(n: nat, width: nat)
    requires width > 0
    ensures ToBe(n, width) == ToBe(n / 0x100, width - 1) + [n % 0x100]
  {
  }

  /** The low two bytes split off. */
  lemma LastTwo(n: nat, width: nat)
    requires width > 1
    ensures ToBe(n, width) == ToBe(n / 0x1_0000, width - 2) + ToBe(n % 0x1_0000, 2)
  {
    Last(n, width);
    Last(n / 0x100, width - 1);
    Split16(n % 0x1_0000);
  }

  lemma Digits32(n: u32)
    ensures Has32(ToBe(n, 4), 0, n)
  {
    LastTwo(n, 4);
    Split16(n / 0x1_0000);
    Split16(n % 0x1_0000);
  }

  /** The low four bytes split off. */
  lemma LastFour(n: nat)
    ensures ToBe(n, 8) == ToBe(n / 0x1_0000_0000, 4) + ToBe(n % 0x1_0000_0000, 4)
  {
    Nested(n);
    var high, middle, low := n / 0x1_0000_0000, n / 0x1_0000 % 0x1_0000, n % 0x1_0000;
    LastTwo(n, 8);
    LastTwo(n / 0x1_0000, 6);
    LastTwo(n % 0x1_0000_0000, 4);
    assert ToBe(high, 4) + ToBe(middle, 2) + ToBe(low, 2) == ToBe(high, 4) + (ToBe(middle, 2) + ToBe(low, 2));
  }

  lemma Nested(n: nat)
    ensures n / 0x1_0000 / 0x1_0000 == n / 0x1_0000_0000
    ensures n % 0x1_0000_0000 / 0x1_0000 == n / 0x1_0000 % 0x1_0000
    ensures n % 0x1_0000_0000 % 0x1_0000 == n % 0x1_0000
  {
  }

  lemma Shifted32(a: Bytes, b: Bytes)
    requires |a| == 4 && |b| == 4
    ensures Number32(a + b, 0) == Number32(a, 0) && Number32(a + b, 4) == Number32(b, 0)
  {
  }

  lemma Digits64(n: u64)
    ensures Has64(ToBe(n, 8), 0, n)
  {
    LastFour(n);
    Digits32(n / 0x1_0000_0000);
    Digits32(n % 0x1_0000_0000);
    Shifted32(ToBe(n / 0x1_0000_0000, 4), ToBe(n % 0x1_0000_0000, 4));
  }

  /** Numbers within a part of the bytes. */
  lemma Within16(b: Bytes, offset: nat, n: u16)
    requires HasBytes(b, offset, ToBe(n, 2))
    ensures Has16(b, offset, n)
  {
    var part := ToBe(n, 2);
    Digits16(n);
    assert b[offset] == part[0] && b[offset + 1] == part[1];
  }

  lemma Within64(b: Bytes, offset: nat, n: u64)
    requires HasBytes(b, offset, ToBe(n, 8))
    ensures Has64(b, offset, n)
  {
    var part := ToBe(n, 8);
    Digits64(n);
    assert forall i :: 0 <= i < 8 ==> b[offset + i] == part[i];
    assert Number32(b, offset) == Number32(part, 0) && Number32(b, offset + 4) == Number32(part, 4);
  }

  // ---------- L2 ----------

  /** Parts keep their place when bytes are put in front. */
  lemma Behind(front: Bytes, b: Bytes, offset: nat, part: Bytes)
    requires HasBytes(b, offset, part)
    ensures HasBytes(front + b, |front| + offset, part)
  {
  }

  lemma InFront(b: Bytes, back: Bytes, offset: nat, part: Bytes)
    requires HasBytes(b, offset, part)
    ensures HasBytes(b + back, offset, part)
  {
  }

  lemma PreambleParts(source: Mac, destination: Mac, vlanIdPcp: u16)
    ensures var p := Preamble(source, destination, vlanIdPcp);
            && HasBytes(p, 0, destination) && HasBytes(p, 6, source) && HasBytes(p, 12, ToBe(VLAN_ETHERTYPE, 2))
            && HasBytes(p, 14, ToBe(vlanIdPcp, 2)) && HasBytes(p, 16, ToBe(ETHERTYPE_L2_PROTOCOL, 2))
  {
    var p, a, v, t := Preamble(source, destination, vlanIdPcp), ToBe(VLAN_ETHERTYPE, 2), ToBe(vlanIdPcp, 2),
                      ToBe(ETHERTYPE_L2_PROTOCOL, 2);
    assert p == destination + source + a + v + t;
    assert p[12..14] == a && p[14..16] == v && p[16..18] == t;
  }

  lemma TailParts(head: Bytes, payload: Bytes, footer: SecurityFooter)
    ensures var b, end := head + (payload + FooterBytes(footer)), |head| + |payload|;
            && HasBytes(b, 0, head) && HasBytes(b, |head|, payload)
            && HasBytes(b, end, ToBe(footer.sequenceNumber, 8)) && HasBytes(b, end + 8, footer.authTag)
  {
    var f, n := FooterBytes(footer), |payload|;
    assert f[0..8] == ToBe(footer.sequenceNumber, 8) && f[8..16] == footer.authTag;
    Behind(payload, f, 0, f[0..8]);
    Behind(payload, f, 8, f[8..16]);
    InFront(payload, f, 0, payload);
    Behind(head, payload + f, 0, payload);
    Behind(head, payload + f, n, f[0..8]);
    Behind(head, payload + f, n + 8, f[8..16]);
    InFront(head, payload + f, 0, head);
  }

  /** The parts of an L2 frame. */
  lemma L2Parts(
    source: Mac, destination: Mac, vlanIdPcp: u16, h: L2Header, payload: Bytes, footer: SecurityFooter)
    ensures var f, end := FrameBytes(source, destination, vlanIdPcp, h, payload, footer), 25 + |payload|;
            && |f| == end + 16
            && HasBytes(f, 0, destination) && HasBytes(f, 6, source) && HasBytes(f, 12, ToBe(VLAN_ETHERTYPE, 2))
            && HasBytes(f, 14, ToBe(vlanIdPcp, 2)) && HasBytes(f, 16, ToBe(ETHERTYPE_L2_PROTOCOL, 2))
            && HasBytes(f, 18, HeaderBytes(h)) && HasBytes(f, 25, payload)
            && HasBytes(f, end, ToBe(footer.sequenceNumber, 8)) && HasBytes(f, end + 8, footer.authTag)
  {
    var p, head := Preamble(source, destination, vlanIdPcp), HeaderBytes(h);
    var tail := head + (payload + FooterBytes(footer));
    PreambleParts(source, destination, vlanIdPcp);
    InFront(p, tail, 0, destination);
    InFront(p, tail, 6, source);
    InFront(p, tail, 12, ToBe(VLAN_ETHERTYPE, 2));
    InFront(p, tail, 14, ToBe(vlanIdPcp, 2));
    InFront(p, tail, 16, ToBe(ETHERTYPE_L2_PROTOCOL, 2));
    TailParts(head, payload, footer);
    Behind(p, tail, 0, head);
    Behind(p, tail, 7, payload);
    Behind(p, tail, 7 + |payload|, ToBe(footer.sequenceNumber, 8));
    Behind(p, tail, 7 + |payload| + 8, footer.authTag);
  }

  lemma HeaderSlices(h: L2Header)
    ensures var part := HeaderBytes(h);
            && part[0] == h.version && part[5] == h.status && part[6] == h.flags
            && part[1..3] == ToBe(h.streamId, 2) && part[3..5] == ToBe(h.cycleCounter, 2)
  {
  }

  /** A part of a part. */
  lemma Slice(f: Bytes, offset: nat, part: Bytes, i: nat, j: nat)
    requires HasBytes(f, offset, part) && i <= j <= |part|
    ensures HasBytes(f, offset + i, part[i..j])
    ensures i < j ==> f[offset + i] == part[i]
  {
    var whole := f[offset..offset + |part|];
    forall k | i <= k < j ensures f[offset + k] == part[k] {
      assert whole[k] == f[offset + k];
    }
    forall k | 0 <= k < j - i ensures f[offset + i..offset + j][k] == part[i..j][k] {
      assert f[offset + (i + k)] == part[i + k];
    }
  }

  lemma HeaderParts(f: Bytes, offset: nat, h: L2Header)
    requires HasBytes(f, offset, HeaderBytes(h))
    ensures |f| >= offset + 7
    ensures f[offset] == h.version && f[offset + 5] == h.status && f[offset + 6] == h.flags
    ensures HasBytes(f, offset + 1, ToBe(h.streamId, 2)) && HasBytes(f, offset + 3, ToBe(h.cycleCounter, 2))
  {
    var part := HeaderBytes(h);
    HeaderSlices(h);
    Slice(f, offset, part, 0, 1);
    Slice(f, offset, part, 1, 3);
    Slice(f, offset, part, 3, 5);
    Slice(f, offset, part, 5, 6);
    Slice(f, offset, part, 6, 7);
  }

  /** The layout of an L2 frame. */
  lemma L2Layout(
    source: Mac, destination: Mac, vlanIdPcp: u16, h: L2Header, payload: Bytes, footer: SecurityFooter)
    ensures var f, end := FrameBytes(source, destination, vlanIdPcp, h, payload, footer), 25 + |payload|;
            && |f| == end + 16
            && HasBytes(f, 0, destination) && HasBytes(f, 6, source)
            && Has16(f, 12, 0x8100) && Has16(f, 14, vlanIdPcp) && Has16(f, 16, 0x88B6)
            && f[18] == h.version && Has16(f, 19, h.streamId) && Has16(f, 21, h.cycleCounter)
            && f[23] == h.status && f[24] == h.flags
            && HasBytes(f, 25, payload)
            && Has64(f, end, footer.sequenceNumber) && HasBytes(f, end + 8, footer.authTag)
  {
    var f, end := FrameBytes(source, destination, vlanIdPcp, h, payload, footer), 25 + |payload|;
    L2Parts(source, destination, vlanIdPcp, h, payload, footer);
    HeaderParts(f, 18, h);
    Within16(f, 12, VLAN_ETHERTYPE);
    Within16(f, 14, vlanIdPcp);
    Within16(f, 16, ETHERTYPE_L2_PROTOCOL);
    Within16(f, 19, h.streamId);
    Within16(f, 21, h.cycleCounter);
    Within64(f, end, footer.sequenceNumber);
  }

  /** What is composed for a stream. */
  lemma Composed(kind: ImageKind, output: Bytes, c: StreamConfig, wallNanos: nat)
    ensures var (h, payload) := Compose(kind, output, c, wallNanos);
            && h.version == 1 && h.flags == 0 && h.streamId == c.streamId % 0x1_0000
            && h.cycleCounter == wallNanos / 1000 * 4 / 125 % 65_535
            && match FramePayload(kind, output, c)
               case Ok(bytes) => h.status == 0 && payload == bytes
               case Err(code) => payload == [] && h.status == code.Code() && h.status != 0
  {
  }

  /** A built frame is that of what was composed. */
  lemma BuiltFrame(
    mac: KeyedMac, source: Mac, kind: ImageKind, streams: Streams, output: Bytes, c: StreamConfig, wallNanos: nat)
    returns (footer: SecurityFooter)
    requires SendFrame(mac, source, kind, streams, output, c, wallNanos).0.Built?
    ensures |c.destinationMac| >= 6
    ensures var (h, payload) := Compose(kind, output, c, wallNanos);
            SendFrame(mac, source, kind, streams, output, c, wallNanos).0.frame ==
            FrameBytes(source, c.destinationMac[..6], c.vlanIdPcp % 0x1_0000, h, payload, footer)
  {
    var (h, payload) := Compose(kind, output, c, wallNanos);
    var (sequenceNumber, tag) := Generate(mac, streams, h, payload).0.value;
    footer := SecurityFooter(sequenceNumber, tag);
  }

  /**
   The header that a sender puts on the wire: protocol version 1, no flags, the stream's id, a
   tick count modulo 65535 of its clock in microseconds, and status 0 exactly when the payload
   was read from the output image.
   */
  lemma SentLayout(
    mac: KeyedMac, source: Mac, kind: ImageKind, streams: Streams, output: Bytes, c: StreamConfig, wallNanos: nat)
    requires SendFrame(mac, source, kind, streams, output, c, wallNanos).0.Built?
    ensures var f := SendFrame(mac, source, kind, streams, output, c, wallNanos).0.frame;
            && |f| >= 41 && |c.destinationMac| >= 6
            && HasBytes(f, 0, c.destinationMac[..6]) && HasBytes(f, 6, source) && Has16(f, 14, c.vlanIdPcp % 0x1_0000)
            && f[18] == 1 && f[24] == 0 && Has16(f, 19, c.streamId % 0x1_0000)
            && Has16(f, 21, wallNanos / 1000 * 4 / 125 % 65_535)
            && match FramePayload(kind, output, c)
               case Ok(payload) => f[23] == 0 && f[25..|f| - 16] == payload
               case Err(code) => |f| == 41 && f[23] == code.Code() != 0
  {
    var (header, payload) := Compose(kind, output, c, wallNanos);
    var footer := BuiltFrame(mac, source, kind, streams, output, c, wallNanos);
    Composed(kind, output, c, wallNanos);
    L2Layout(source, c.destinationMac[..6], c.vlanIdPcp % 0x1_0000, header, payload, footer);
  }

  // ---------- SDCP ----------

  /** The operations in the order of their codes, from 1 on. */
  const OPERATIONS := [DiscoverReq, DiscoverRes, SetIpReq, SetIpRes, GetIpReq, GetIpRes,
                       ActivateDhcpReq, ActivateDhcpRes, UnknownOperation]

  /** The parts of an SDCP frame. */
  lemma SdcpParts(f: SdcpFrame)
    ensures var b, h, end := SdcpFrameBytes(f), f.body.header, 19 + |f.body.tlvPayload|;
            && |b| == end + 16
            && HasBytes(b, 0, f.destination) && HasBytes(b, 6, f.source) && HasBytes(b, 12, ToBe(ETHERTYPE_SDCP, 2))
            && b[14] == h.version && b[15] == h.opCode.Code() && HasBytes(b, 16, ToBe(h.transactionId, 2))
            && b[18] == h.flags && HasBytes(b, 19, f.body.tlvPayload)
            && HasBytes(b, end, ToBe(f.body.sequenceNumber, 8)) && HasBytes(b, end + 8, f.body.authTag)
  {
    var h, front := f.body.header, f.destination + f.source + ToBe(ETHERTYPE_SDCP, 2);
    var footer := SecurityFooter(f.body.sequenceNumber, f.body.authTag);
    var head := SdcpHeaderBytes(h);
    var tail := head + (f.body.tlvPayload + FooterBytes(footer));
    assert SdcpFrameBytes(f) == front + tail;
    assert front[0..6] == f.destination && front[6..12] == f.source && front[12..14] == ToBe(ETHERTYPE_SDCP, 2);
    InFront(front, tail, 0, f.destination);
    InFront(front, tail, 6, f.source);
    InFront(front, tail, 12, ToBe(ETHERTYPE_SDCP, 2));
    TailParts(head, f.body.tlvPayload, footer);
    Behind(front, tail, 0, head);
    Behind(front, tail, 5, f.body.tlvPayload);
    Behind(front, tail, 5 + |f.body.tlvPayload|, ToBe(footer.sequenceNumber, 8));
    Behind(front, tail, 5 + |f.body.tlvPayload| + 8, footer.authTag);
    SdcpHeaderParts(SdcpFrameBytes(f), 14, h);
  }

  lemma SdcpHeaderParts(b: Bytes, offset: nat, h: SdcpHeader)
    requires HasBytes(b, offset, SdcpHeaderBytes(h))
    ensures |b| >= offset + 5
    ensures b[offset] == h.version && b[offset + 1] == h.opCode.Code() && b[offset + 4] == h.flags
    ensures HasBytes(b, offset + 2, ToBe(h.transactionId, 2))
  {
    var part := SdcpHeaderBytes(h);
    assert part[2..4] == ToBe(h.transactionId, 2);
    Slice(b, offset, part, 0, 1);
    Slice(b, offset, part, 1, 2);
    Slice(b, offset, part, 2, 4);
    Slice(b, offset, part, 4, 5);
  }

  /** The layout of an SDCP frame. */
  lemma SdcpLayout(f: SdcpFrame)
    ensures var b, end := SdcpFrameBytes(f), 19 + |f.body.tlvPayload|;
            && |b| == end + 16
            && HasBytes(b, 0, f.destination) && HasBytes(b, 6, f.source) && Has16(b, 12, 0x88B5)
            && b[14] == f.body.header.version && 1 <= b[15] <= 9 && OPERATIONS[b[15] - 1] == f.body.header.opCode
            && Has16(b, 16, f.body.header.transactionId) && b[18] == f.body.header.flags
            && HasBytes(b, 19, f.body.tlvPayload)
            && Has64(b, end, f.body.sequenceNumber) && HasBytes(b, end + 8, f.body.authTag)
  {
    var b, end := SdcpFrameBytes(f), 19 + |f.body.tlvPayload|;
    SdcpParts(f);
    Within16(b, 12, ETHERTYPE_SDCP);
    Within16(b, 16, f.body.header.transactionId);
    Within64(b, end, f.body.sequenceNumber);
  }

  /** The IP sources in the order of their codes, from 0 on. */
  const SOURCES := [Unspecified, Sdcp, Dhcp, Manual]

  /** The status codes in the order of their values, from 0 on; 15 is unassigned. */
  const STATUS_CODES := [
    Some(NoError), Some(ErrPtpSyncLost), Some(ErrCycleCounter), Some(ErrDeadlineMissed), Some(ErrStreamIdUnknown),
    Some(ErrInvalidLen), Some(ErrAppNotResponding), Some(ErrPeripheralFault), Some(ErrNotReady), Some(ErrAccessDenied),
    Some(ErrAuthFailed), Some(ErrStateConflict), Some(ErrParamInvalid), Some(ErrNoMemory), Some(ErrVersionMismatch),
    None, Some(ErrNotSupported), Some(ErrAlreadyRunning), Some(ErrOsFailure), Some(ErrIpConflict),
    Some(ErrFrameParsing), Some(ErrFrameWithErrorStatus), Some(ErrSocketChannel), Some(ErrHardwareAccess),
    Some(ErrTimeout), Some(ErrInvalidResponse), Some(ErrInvalidEthertype)]

  /** The layout of the four typed TLVs: type, length, value. */
  lemma DeviceInfoLayout(d: DeviceIdentity)
    ensures var b := TlvBytes(DeviceInfoTlv(d));
            && |b| == 10 && b[0] == 1 && b[1] == 8
            && Has16(b, 2, d.vendorId) && Has16(b, 4, d.deviceId) && Has32(b, 6, d.serialNumber)
  {
    Digits16(d.vendorId);
    Digits16(d.deviceId);
    Digits32(d.serialNumber);
    var b := TlvBytes(DeviceInfoTlv(d));
    assert b[2..4] == ToBe(d.vendorId, 2) && b[4..6] == ToBe(d.deviceId, 2) && b[6..10] == ToBe(d.serialNumber, 4);
  }

  lemma IpConfigLayout(c: IpConfig)
    ensures TlvBytes(IpConfigTlv(c)) == [2, 12] + c.ip + c.netmask + c.gateway
  {
  }

  lemma IpReportLayout(r: IpReport)
    ensures var b := TlvBytes(IpReportTlv(r));
            && |b| == 15 && b[..14] == [4, 13] + r.config.ip + r.config.netmask + r.config.gateway
            && b[14] < 4 && SOURCES[b[14]] == r.source
  {
  }

  lemma StatusReportLayout(code: StatusCode)
    ensures var b := TlvBytes(StatusReportTlv(code));
            |b| == 3 && b[0] == 3 && b[1] == 1 && b[2] <= 26 && STATUS_CODES[b[2]] == Some(code)
  {
  }
}
