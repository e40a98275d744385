/** What the data plane's building blocks mean in plain terms: bits, roles, and when a frame is written. */
module L2Meaning {
  import opened Types
  import opened Arithmetic
  import opened Bits
  import opened BitField
  import opened ProcessImage
  import opened L2Frame
  import opened Crypto
  import opened StreamStore
  import opened CycleCounter
  import opened L2Receiver
  import opened L2Sender
  import opened L2Network
  import opened L2Safety

  /** Bit `k` of a number, in terms of division. */
  lemma {:induction false} BitIs(n: nat, k: nat)
    ensures Bit(n, k) <==> n / Pow2(k) % 2 == 1
  {
    if k > 0 {
      BitIs(n / 2, k - 1);
      HalvesDivide(n, Pow2(k - 1));
    }
  }

  lemma HalvesDivide(n: nat, d: nat)
    requires d > 0
    ensures n / 2 / d == n / (2 * d)
  {
    var q, r := n / (2 * d), n % (2 * d);
    assert n == 2 * d * q + r;
    assert n / 2 == d * q + r / 2 && r / 2 < d;
    QuotientOf(n / 2, d, q, r / 2);
  }

  lemma QuotientOf(x: nat, d: nat, q: nat, r: nat)
    requires d > 0 && r < d && x == d * q + r
    ensures x / d == q
  {
    assert x == q * d + r;
    QuotientRemainder(x, d, q, r);
  }

  // ---------- fields by role ----------

  /** Bytes that a number of bits needs. */
  function BytesFor(bits: nat): nat {
    (bits + 7) / 8
  }

  /** The first bit of a field: the slave counts bits, the master whole bytes. */
  function FirstBit(role: Role, p: Position): nat {
    if role.SlaveRole? then 8 * p.byteOffset + p.bitOffset else 8 * p.byteOffset
  }

  /** The bits that a field covers. */
  function Width(role: Role, p: Position): nat {
    if role.SlaveRole? then p.bitLen else 8 * BytesFor(p.bitLen)
  }

  /** The field lies in an image of `size` bytes. */
  predicate Lies(role: Role, size: nat, p: Position) {
    if role.SlaveRole? then p.byteOffset < size && 8 * p.byteOffset + p.bitOffset + p.bitLen <= 8 * size
    else p.byteOffset + BytesFor(p.bitLen) <= size
  }

  /** What a node sends for a stream: the bits of its output field and zeros, or the code of what is wrong. */
  lemma PayloadMeans(role: Role, output: Bytes, c: StreamConfig)
    ensures match FramePayload(KindOf(role), output, c)
            case Ok(payload) =>
              && c.content.Some? && Lies(role, |output|, c.content.value)
              && |payload| == BytesFor(c.content.value.bitLen)
              && forall i: nat :: i < 8 * |payload| ==>
                   ImageBit(payload, i) ==
                   (i < Width(role, c.content.value) && ImageBit(output, FirstBit(role, c.content.value) + i))
            case Err(code) =>
              if c.content.None? then code == ErrParamInvalid
              else code == ErrInvalidLen && !Lies(role, |output|, c.content.value)
  {
    PayloadIs(role, output, c);
    if c.content.Some? { PayloadBits(role, output, c.content.value); }
  }

  lemma PayloadBits(role: Role, output: Bytes, p: Position)
    ensures var payload := ReadField(output, FirstBit(role, p), Width(role, p));
            forall i: nat :: i < 8 * |payload| ==>
              ImageBit(payload, i) == (i < Width(role, p) && ImageBit(output, FirstBit(role, p) + i))
  {
    var payload := ReadField(output, FirstBit(role, p), Width(role, p));
    forall i: nat | i < 8 * |payload|
      ensures ImageBit(payload, i) == (i < Width(role, p) && ImageBit(output, FirstBit(role, p) + i))
    {
      ReadFieldBit(output, FirstBit(role, p), Width(role, p), i);
    }
  }

  lemma PayloadIs(role: Role, output: Bytes, c: StreamConfig)
    ensures FramePayload(KindOf(role), output, c) ==
            if c.content.None? then Err(ErrParamInvalid)
            else if !Lies(role, |output|, c.content.value) then Err(ErrInvalidLen)
            else Ok(ReadField(output, FirstBit(role, c.content.value), Width(role, c.content.value)))
    ensures c.content.Some? ==>
              |ReadField(output, FirstBit(role, c.content.value), Width(role, c.content.value))| ==
              BytesFor(c.content.value.bitLen)
  {
  }

  /** The payload bits that go into a field. */
  function FieldOf(role: Role, p: Position, payload: Bytes): seq<bool>
    requires |payload| >= BytesFor(p.bitLen)
  {
    Unpack(payload[..BytesFor(p.bitLen)])[..Width(role, p)]
  }

  lemma FieldOfBit(role: Role, p: Position, payload: Bytes, i: nat)
    requires |payload| >= BytesFor(p.bitLen) && i < Width(role, p)
    ensures FieldOf(role, p, payload)[i] == ImageBit(payload, i)
  {
    var data := payload[..BytesFor(p.bitLen)];
    assert Unpack(data)[i] == ImageBit(data, i);
    assert data[i / 8] == payload[i / 8];
  }

  lemma InputIs(role: Role, input: Bytes, c: StreamConfig, payload: Bytes)
    ensures HandleInput(KindOf(role), input, c, payload) ==
            if c.content.None? then Err(ErrParamInvalid)
            else if !Writable(role, |input|, c, |payload|) then Err(ErrInvalidLen)
            else Ok(WriteField(input, FirstBit(role, c.content.value), FieldOf(role, c.content.value, payload)))
  {
  }

  lemma WrittenBit(role: Role, input: Bytes, p: Position, payload: Bytes, m: nat)
    requires |payload| >= BytesFor(p.bitLen) && m < 8 * |input|
    ensures var start := FirstBit(role, p);
            ImageBit(WriteField(input, start, FieldOf(role, p, payload)), m) ==
            if start <= m < start + Width(role, p) then ImageBit(payload, m - start) else ImageBit(input, m)
  {
    var start := FirstBit(role, p);
    WriteFieldBit(input, start, FieldOf(role, p, payload), m);
    if start <= m < start + Width(role, p) { FieldOfBit(role, p, payload, m - start); }
  }

  /** What a node makes of a payload: exactly the bits of its input field change, to those of the payload. */
  lemma InputMeans(role: Role, input: Bytes, c: StreamConfig, payload: Bytes)
    ensures match HandleInput(KindOf(role), input, c, payload)
            case Ok(input') =>
              && c.content.Some? && Writable(role, |input|, c, |payload|) && |input'| == |input|
              && forall m: nat :: m < 8 * |input| ==>
                   var start := FirstBit(role, c.content.value);
                   ImageBit(input', m) ==
                   if start <= m < start + Width(role, c.content.value) then ImageBit(payload, m - start)
                   else ImageBit(input, m)
            case Err(code) =>
              !Writable(role, |input|, c, |payload|)
              && code == if c.content.None? then ErrParamInvalid else ErrInvalidLen
  {
    InputIs(role, input, c, payload);
    if c.content.Some? && Writable(role, |input|, c, |payload|) {
      var p := c.content.value;
      var input' := WriteField(input, FirstBit(role, p), FieldOf(role, p, payload));
      forall m: nat | m < 8 * |input|
        ensures var start := FirstBit(role, p);
                ImageBit(input', m) ==
                if start <= m < start + Width(role, p) then ImageBit(payload, m - start) else ImageBit(input, m)
      {
        WrittenBit(role, input, p, payload, m);
      }
    }
  }

  /** A stream whose field lies in the input image, and a payload that is long enough for it. */
  predicate Writable(role: Role, size: nat, c: StreamConfig, length: nat) {
    c.content.Some? && length >= BytesFor(c.content.value.bitLen) && Lies(role, size, c.content.value)
  }

  // ---------- when a frame is written ----------

  /**
   Exactly which frames are written: in every reachable state a node writes what it is handed if
   and only if it accepts it, the frame has no error status, the stream's field lies in the input
   image and the payload is long enough.
   */
  lemma AppliedIff(mac: KeyedMac, net: Net, n: NodeId, state: DeviceState, frame: Option<Bytes>, origin: nat)
    requires Inv(net) && Enabled(mac, net, Deliver(n, state, frame, origin))
    ensures Received(mac, net.nodes[n], state, frame).outcome == Accepted(true) <==>
            && net.nodes[n].local.running && Processes(net.nodes[n].role, state)
            && Authentic(mac, frame).Some?
            && var nd, p := net.nodes[n], Authentic(mac, frame).value;
            && p.header.streamId in nd.streamMap && NewAt(net, n, origin)
            && p.header.status == 0
            && Writable(nd.role, |nd.input|, nd.streamMap[p.header.streamId], |p.payload|)
  {
    AcceptedIff(mac, net, n, state, frame, origin);
    var nd := net.nodes[n];
    if Received(mac, nd, state, frame).outcome.Accepted? {
      var p := Authentic(mac, frame).value;
      AppliedWhen(mac, nd, state, frame);
      InputMeans(nd.role, nd.input, nd.streamMap[p.header.streamId], p.payload);
    }
  }

  lemma AppliedWhen(mac: KeyedMac, nd: Node, state: DeviceState, frame: Option<Bytes>)
    requires Received(mac, nd, state, frame).outcome.Accepted?
    ensures Authentic(mac, frame).Some? && Authentic(mac, frame).value.header.streamId in nd.streamMap
    ensures var p := Authentic(mac, frame).value;
            Received(mac, nd, state, frame).outcome.applied <==>
            && p.header.status == 0
            && HandleInput(KindOf(nd.role), nd.input, nd.streamMap[p.header.streamId], p.payload).Ok?
  {
  }

  /** A send without error status carries a payload that is long enough for its own field. */
  lemma CleanSendIsLong(net: Net, k: nat)
    requires k < |net.sent| && SentOk(net, k) && net.sent[k].header.status == 0
    ensures net.sent[k].config.content.Some?
    ensures |net.sent[k].payload| == BytesFor(net.sent[k].config.content.value.bitLen)
  {
    var s := net.sent[k];
    PayloadMeans(net.nodes[s.node].role, s.output, s.config);
  }

  // ---------- what a slave reports ----------

  /** The status after a frame on which the slave's receiver in Op found no fault but a late one. */
  ghost predicate Late(nd: Node, state: DeviceState, p: ParsedL2Frame)
    requires p.header.streamId in nd.streamMap
  {
    var id := p.header.streamId;
    && nd.local.previousState == Some(state) && id in nd.local.lastCycleCounter
    && MissedCycles(nd.local.lastCycleCounter[id], p.header.cycleCounter, nd.streamMap[id].cycleTimeNano).Some?
  }

  /** The status code that a slave's running receiver leaves in Op, frame by frame. */
  ghost function StatusAfter(mac: KeyedMac, nd: Node, frame: Bytes): StatusCode
    requires WellFormed(nd)
  {
    match ParseL2Frame(frame)
    case Err(code) => if code == ErrInvalidEthertype then nd.local.statusCode else ErrFrameParsing
    case Ok(p) =>
      var id := p.header.streamId;
      if id !in nd.streamMap then ErrStreamIdUnknown
      else if p.sequenceNumber <= nd.streams[id].sequenceNumber then ErrAuthFailed
      else if !TagMatches(mac, p.header, p.payload, p.sequenceNumber, p.authTag) then ErrAuthFailed
      else if p.header.status != 0 then ErrFrameWithErrorStatus
      else if nd.streamMap[id].content.None? then ErrParamInvalid
      else if !Writable(SlaveRole, |nd.input|, nd.streamMap[id], |p.payload|) then ErrInvalidLen
      else if Late(nd, Op, p) then ErrCycleCounter
      else nd.local.statusCode
  }

  lemma AcceptStatus(c: StreamConfig, l: Local, input: Bytes, p: ParsedL2Frame)
    ensures var id := p.header.streamId;
            Accept(SlaveRole, c, l, input, p).0.statusCode ==
            if p.header.status != 0 then ErrFrameWithErrorStatus
            else if c.content.None? then ErrParamInvalid
            else if !Writable(SlaveRole, |input|, c, |p.payload|) then ErrInvalidLen
            else if && id in l.lastCycleCounter
                    && MissedCycles(l.lastCycleCounter[id], p.header.cycleCounter, c.cycleTimeNano).Some?
            then ErrCycleCounter
            else l.statusCode
  {
    InputMeans(SlaveRole, input, c, p.payload);
  }

  lemma ParsedStatus(mac: KeyedMac, nd: Node, l: Local, p: ParsedL2Frame)
    requires WellFormed(nd) && l == Enter(nd.local, Op)
    ensures var id, l' := p.header.streamId,
                          ReceiveParsed(mac, SlaveRole, nd.streamMap, nd.streams, l, nd.input, p).local;
            l'.statusCode ==
            if id !in nd.streamMap then ErrStreamIdUnknown
            else if p.sequenceNumber <= nd.streams[id].sequenceNumber then ErrAuthFailed
            else if !TagMatches(mac, p.header, p.payload, p.sequenceNumber, p.authTag) then ErrAuthFailed
            else Accept(SlaveRole, nd.streamMap[id], l, nd.input, p).0.statusCode
  {
  }

  /**
   The status that each frame leaves on a slave whose receiver runs in Op: a parse fault, an
   unknown stream, a stale or forged frame, an error status, a payload that cannot be written,
   and a frame that is off its cycle are each told by their own code; any other frame, and one
   of another protocol, leaves the status as it was.
   */
  lemma SlaveStatus(mac: KeyedMac, nd: Node, frame: Bytes)
    requires WellFormed(nd) && nd.role.SlaveRole? && nd.local.running
    ensures Received(mac, nd, Op, Some(frame)).local.statusCode == StatusAfter(mac, nd, frame)
  {
    match ParseL2Frame(frame)
    case Err(_) =>
    case Ok(p) =>
      var l := Enter(nd.local, Op);
      ParsedStatus(mac, nd, l, p);
      if p.header.streamId in nd.streamMap { AcceptStatus(nd.streamMap[p.header.streamId], l, nd.input, p); }
  }
}
