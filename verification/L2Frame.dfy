/**
 The L2 frame: Ethernet addresses, VLAN tag (clause 9.6 of IEEE Std 802.1Q), 7-byte
 protocol header, payload and security footer.
 */
module L2Frame {
  import opened Types
  import opened BigEndian
  import opened AuthFooter

  const ETHERTYPE_L2_PROTOCOL: u16 := 0x88B6
  const VLAN_ETHERTYPE: u16 := 0x8100
  const L2_PROTOCOL_VERSION: byte := 1
  const L2_PROTOCOL_FLAGS: byte := 0
  const L2_HEADER_SIZE := 7

  datatype L2Header = L2Header(
    version: byte, streamId: u16, cycleCounter: u16, status: byte, flags: byte)

  function NewHeader(streamId: u16, cycleCounter: u16, status: byte): L2Header {
    L2Header(L2_PROTOCOL_VERSION, streamId, cycleCounter, status, L2_PROTOCOL_FLAGS)
  }

  /** The bytes `write_to` appends. */
  function HeaderBytes(h: L2Header): (r: Bytes)
    ensures |r| == L2_HEADER_SIZE
  {
    [h.version] + ToBe(h.streamId, 2) + ToBe(h.cycleCounter, 2) + [h.status, h.flags]
  }

  /** `read_from`: fails only when fewer than seven bytes are there; extra bytes are ignored. */
  function ReadHeader(buf: Bytes): Option<L2Header> {
    if |buf| < L2_HEADER_SIZE then None
    else Some(L2Header(buf[0], U16(buf[1..3]), U16(buf[3..5]), buf[5], buf[6]))
  }

  /** The second header serialiser, used for the authentication tag. */
  function SerializeHeader(h: L2Header): (r: Bytes)
    ensures |r| == L2_HEADER_SIZE
  {
    [h.version, h.streamId / 256, h.streamId % 256,
     h.cycleCounter / 256, h.cycleCounter % 256, h.status, h.flags]
  }

  lemma SerializersAgree(h: L2Header)
    ensures SerializeHeader(h) == HeaderBytes(h)
  {
    Split16(h.streamId);
    Split16(h.cycleCounter);
  }

  lemma HeaderReadWrite(h: L2Header)
    ensures ReadHeader(HeaderBytes(h)) == Some(h)
  {
    var b := HeaderBytes(h);
    assert b[1..3] == ToBe(h.streamId, 2);
    assert b[3..5] == ToBe(h.cycleCounter, 2);
    RoundTrip16(h.streamId);
    RoundTrip16(h.cycleCounter);
  }

  lemma HeaderWriteRead(b: Bytes)
    requires |b| == L2_HEADER_SIZE
    ensures HeaderBytes(ReadHeader(b).value) == b
  {
    EncodeDecode(b[1..3]);
    EncodeDecode(b[3..5]);
    assert b == [b[0]] + b[1..3] + b[3..5] + [b[5], b[6]];
  }

  datatype ParsedL2Frame = ParsedL2Frame(
    destination: Mac, source: Mac, vlanIdPcp: u16,
    header: L2Header, payload: Bytes, sequenceNumber: u64, authTag: Tag)

  /** Everything in front of the protocol header. */
  function Preamble(source: Mac, destination: Mac, vlanIdPcp: u16): (r: Bytes)
    ensures |r| == 18
  {
    destination + source + ToBe(VLAN_ETHERTYPE, 2) + ToBe(vlanIdPcp, 2) + ToBe(ETHERTYPE_L2_PROTOCOL, 2)
  }

  function FrameBytes(
    source: Mac, destination: Mac, vlanIdPcp: u16,
    header: L2Header, payload: Bytes, footer: SecurityFooter): Bytes
  {
    Preamble(source, destination, vlanIdPcp) + (HeaderBytes(header) + (payload + FooterBytes(footer)))
  }

  /** Builds the frame by appending to a buffer, part by part. */
  method BuildL2Frame(
    source: Mac, destination: Mac, vlanIdPcp: u16,
    header: L2Header, payload: Bytes, footer: SecurityFooter) returns (frame: Bytes)
    ensures frame == FrameBytes(source, destination, vlanIdPcp, header, payload, footer)
    ensures ParseL2Frame(frame) ==
            Ok(ParsedL2Frame(destination, source, vlanIdPcp, header, payload,
                             footer.sequenceNumber, footer.authTag))
  {
    frame := destination;
    frame := frame + source;
    frame := frame + ToBe(VLAN_ETHERTYPE, 2);
    frame := frame + ToBe(vlanIdPcp, 2);
    frame := frame + ToBe(ETHERTYPE_L2_PROTOCOL, 2);
    frame := frame + [header.version];
    frame := frame + ToBe(header.streamId, 2);
    frame := frame + ToBe(header.cycleCounter, 2);
    frame := frame + [header.status];
    frame := frame + [header.flags];
    frame := frame + payload;
    frame := frame + FooterBytes(footer);
    assert frame == FrameBytes(source, destination, vlanIdPcp, header, payload, footer);
    ParseBuild(source, destination, vlanIdPcp, header, payload, footer);
  }

  /** Offset of the protocol header and the VLAN tag value, or why there is none. */
  function LocateHeader(frame: Bytes): Result<(u16, nat)>
    requires |frame| >= 14 + L2_HEADER_SIZE
  {
    var ethertype := U16(frame[12..14]);
    if ethertype == VLAN_ETHERTYPE then
      if |frame| < 18 + L2_HEADER_SIZE then Err(ErrInvalidLen)
      else if U16(frame[16..18]) != ETHERTYPE_L2_PROTOCOL then Err(ErrInvalidEthertype)
      else Ok((U16(frame[14..16]), 18))
    else if ethertype == ETHERTYPE_L2_PROTOCOL then Ok((0, 14))
    else Err(ErrInvalidEthertype)
  }

  function ParseL2Frame(frame: Bytes): Result<ParsedL2Frame> {
    if |frame| < 14 + L2_HEADER_SIZE then Err(ErrInvalidLen)
    else
      match LocateHeader(frame)
      case Err(code) => Err(code)
      case Ok((vlan, offset)) =>
        match ReadHeader(frame[offset..offset + L2_HEADER_SIZE])
        case None => Err(ErrFrameParsing)
        case Some(header) =>
          match SplitPayloadAndFooter(frame[offset + L2_HEADER_SIZE..])
          case Err(code) => Err(code)
          case Ok((payload, footer)) =>
            Ok(ParsedL2Frame(frame[0..6], frame[6..12], vlan, header, payload,
                             footer.sequenceNumber, footer.authTag))
  }

  /** Parsing a built frame returns every field, for any payload length. */
  lemma ParseBuild(
    source: Mac, destination: Mac, vlanIdPcp: u16,
    header: L2Header, payload: Bytes, footer: SecurityFooter)
    ensures ParseL2Frame(FrameBytes(source, destination, vlanIdPcp, header, payload, footer)) ==
            Ok(ParsedL2Frame(destination, source, vlanIdPcp, header, payload,
                             footer.sequenceNumber, footer.authTag))
  {
    var frame := FrameBytes(source, destination, vlanIdPcp, header, payload, footer);
    var pre := Preamble(source, destination, vlanIdPcp);
    assert frame[0..6] == destination && frame[6..12] == source;
    assert frame[12..14] == ToBe(VLAN_ETHERTYPE, 2);
    assert frame[14..16] == ToBe(vlanIdPcp, 2);
    assert frame[16..18] == ToBe(ETHERTYPE_L2_PROTOCOL, 2);
    RoundTrip16(VLAN_ETHERTYPE);
    RoundTrip16(vlanIdPcp);
    RoundTrip16(ETHERTYPE_L2_PROTOCOL);
    assert frame[18..25] == HeaderBytes(header);
    HeaderReadWrite(header);
    assert frame[25..] == payload + FooterBytes(footer);
    SplitAppend(payload, footer);
  }

  /** Rebuilds a frame from what the parser returned. */
  function Rebuild(p: ParsedL2Frame): Bytes {
    FrameBytes(p.source, p.destination, p.vlanIdPcp, p.header, p.payload,
               SecurityFooter(p.sequenceNumber, p.authTag))
  }

  predicate VlanTagged(frame: Bytes) {
    |frame| >= 14 && U16(frame[12..14]) == VLAN_ETHERTYPE
  }

  /** A rebuilt frame keeps everything from the protocol header on. */
  lemma RebuildTail(frame: Bytes)
    requires ParseL2Frame(frame).Ok?
    ensures var p := ParseL2Frame(frame).value;
            var offset := LocateHeader(frame).value.1;
            Rebuild(p) == Preamble(p.source, p.destination, p.vlanIdPcp) + frame[offset..]
  {
    var offset := LocateHeader(frame).value.1;
    var head := frame[offset..offset + 7];
    var tail := frame[offset + 7..];
    HeaderWriteRead(head);
    AppendSplit(tail);
    HeadAndTail(frame, offset, offset + 7);
  }

  lemma HeadAndTail(f: Bytes, i: nat, j: nat)
    requires i <= j <= |f|
    ensures f[i..j] + f[j..] == f[i..]
  {
  }

  lemma PreambleTagged(f: Bytes)
    requires |f| >= 18
    requires U16(f[12..14]) == VLAN_ETHERTYPE && U16(f[16..18]) == ETHERTYPE_L2_PROTOCOL
    ensures Preamble(f[6..12], f[0..6], U16(f[14..16])) == f[..18]
  {
    EncodeDecode(f[12..14]);
    EncodeDecode(f[14..16]);
    EncodeDecode(f[16..18]);
  }

  lemma PreambleUntagged(f: Bytes)
    requires |f| >= 14 && U16(f[12..14]) == ETHERTYPE_L2_PROTOCOL
    ensures Preamble(f[6..12], f[0..6], 0) == f[..12] + [0x81, 0x00, 0x00, 0x00] + f[12..14]
  {
    EncodeDecode(f[12..14]);
    Split16(VLAN_ETHERTYPE);
    Split16(0);
  }

  lemma JoinSlices(f: Bytes, front: Bytes, i: nat, j: nat)
    requires i <= j <= |f|
    ensures (front + f[i..j]) + f[j..] == front + f[i..]
  {
    HeadAndTail(f, i, j);
  }

  /** Rebuilding an accepted VLAN-tagged frame gives back the same bytes. */
  lemma BuildParseTagged(frame: Bytes)
    requires ParseL2Frame(frame).Ok? && VlanTagged(frame)
    ensures Rebuild(ParseL2Frame(frame).value) == frame
  {
    RebuildTail(frame);
    PreambleTagged(frame);
    assert frame == frame[..18] + frame[18..];
  }

  /**
   Rebuilding an accepted untagged frame inserts a zero VLAN tag in front of the protocol's
   own ethertype and changes nothing else.
   */
  lemma BuildParseUntagged(frame: Bytes)
    requires ParseL2Frame(frame).Ok? && !VlanTagged(frame)
    ensures Rebuild(ParseL2Frame(frame).value) == frame[..12] + [0x81, 0x00, 0x00, 0x00] + frame[12..]
  {
    RebuildTail(frame);
    PreambleUntagged(frame);
    JoinSlices(frame, frame[..12] + [0x81, 0x00, 0x00, 0x00], 12, 14);
  }

  /** Why a byte string is refused: too short for a header or its footer, or of another protocol. */
  lemma RefusedBecause(frame: Bytes)
    requires ParseL2Frame(frame).Err?
    ensures var other :=
              || (|frame| >= 21 && U16(frame[12..14]) != 0x8100 && U16(frame[12..14]) != 0x88B6)
              || (|frame| >= 25 && U16(frame[12..14]) == 0x8100 && U16(frame[16..18]) != 0x88B6);
            ParseL2Frame(frame).code == if other then ErrInvalidEthertype else ErrInvalidLen
  {
  }

  /** The parser accepts a byte string exactly when it has an L2 ethertype and room for header and footer. */
  lemma AcceptsIff(frame: Bytes)
    ensures ParseL2Frame(frame).Ok? <==>
              || (|frame| >= 41 && U16(frame[12..14]) == VLAN_ETHERTYPE && U16(frame[16..18]) == ETHERTYPE_L2_PROTOCOL)
              || (|frame| >= 37 && U16(frame[12..14]) == ETHERTYPE_L2_PROTOCOL)
  {
    if |frame| >= 21 && LocateHeader(frame).Ok? {
      AppendSplit(frame[LocateHeader(frame).value.1 + 7..]);
    }
  }

  /** What the tag authenticates: header, payload and sequence number. */
  function TaggedBytes(h: L2Header, payload: Bytes, sequenceNumber: u64): Bytes {
    SerializeHeader(h) + payload + ToBe(sequenceNumber, 8)
  }

  /** The authenticated bytes are exactly those of the frame from offset 18 to 8 before its end. */
  lemma TagCoverage(
    source: Mac, destination: Mac, vlanIdPcp: u16,
    header: L2Header, payload: Bytes, footer: SecurityFooter)
    ensures var frame := FrameBytes(source, destination, vlanIdPcp, header, payload, footer);
            TaggedBytes(header, payload, footer.sequenceNumber) == frame[18..|frame| - 8]
  {
    SerializersAgree(header);
    var frame := FrameBytes(source, destination, vlanIdPcp, header, payload, footer);
    assert frame == Preamble(source, destination, vlanIdPcp)
                    + TaggedBytes(header, payload, footer.sequenceNumber) + footer.authTag;
  }

  /** The authenticated bytes determine header, payload and sequence number. */
  lemma TaggedBytesInjective(
    h1: L2Header, p1: Bytes, s1: u64, h2: L2Header, p2: Bytes, s2: u64)
    requires TaggedBytes(h1, p1, s1) == TaggedBytes(h2, p2, s2)
    ensures h1 == h2 && p1 == p2 && s1 == s2
  {
    var t1, t2 := TaggedBytes(h1, p1, s1), TaggedBytes(h2, p2, s2);
    SerializersAgree(h1);
    SerializersAgree(h2);
    assert t1[..7] == HeaderBytes(h1) && t2[..7] == HeaderBytes(h2);
    HeaderReadWrite(h1);
    HeaderReadWrite(h2);
    assert t1[7..|t1| - 8] == p1 && t2[7..|t2| - 8] == p2;
    assert t1[|t1| - 8..] == ToBe(s1, 8) && t2[|t2| - 8..] == ToBe(s2, 8);
    RoundTrip64(s1);
    RoundTrip64(s2);
  }
}
