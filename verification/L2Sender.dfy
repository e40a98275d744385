/** The cyclic sender: when a stream is due, and what is stamped, tagged and built for it. */
module L2Sender {
  import opened Types
  import opened AuthFooter
  import opened L2Frame
  import opened Crypto
  import opened StreamStore
  import opened ProcessImage
  import opened CycleCounter
  import opened CycleMetrics
  import opened Gcd

  /** `build_frame_payload` */
  function FramePayload(kind: ImageKind, output: Bytes, c: StreamConfig): Result<Bytes> {
    match c.content
    case None => Err(ErrParamInvalid)
    case Some(p) => ReadOutputs(kind, output, p)
  }

  /** A stream whose destination can be read: it has six octets. */
  predicate Sendable(c: StreamConfig) {
    |c.destinationMac| >= 6
  }

  /** The header and payload for a stream; a failed read travels as an error status with no payload. */
  function Compose(kind: ImageKind, output: Bytes, c: StreamConfig, wallNanos: nat): (L2Header, Bytes) {
    var stamp := Stamp(Ticks(wallNanos));
    match FramePayload(kind, output, c)
    case Ok(payload) => (NewHeader(c.streamId % 0x1_0000, stamp, NoError.Code()), payload)
    case Err(code) => (NewHeader(c.streamId % 0x1_0000, stamp, code.Code()), [])
  }

  /** A frame, a refusal of the store, or the end of the thread on a destination of fewer than six octets. */
  datatype Outgoing = Built(frame: Bytes) | Refused(code: StatusCode) | Panicked

  /** Composes, tags and builds the frame for one stream. */
  function SendFrame(
    mac: KeyedMac, source: Mac, kind: ImageKind, streams: Streams, output: Bytes, c: StreamConfig, wallNanos: nat)
    : (Outgoing, Streams)
  {
    var (header, payload) := Compose(kind, output, c, wallNanos);
    if !Sendable(c) then (Panicked, streams)
    else
      var (tagged, streams') := Generate(mac, streams, header, payload);
      match tagged
      case Err(code) => (Refused(code), streams')
      case Ok((sequenceNumber, tag)) =>
        (Built(FrameBytes(source, c.destinationMac[..6], c.vlanIdPcp % 0x1_0000, header, payload,
                          SecurityFooter(sequenceNumber, tag))), streams')
  }

  /**
   What one stream's turn meets: the clock at the due check, at the send instant and on the
   wall, and whether the channel takes the frame.
   */
  datatype Clock = Clock(check: u64, now: u64, wallNanos: nat, channelOk: bool)

  function CycleTime(c: StreamConfig): u32 {
    Max(c.cycleTimeNano, 1)
  }

  /** A stream is due when it has not been sent in this state or its cycle time has elapsed. */
  predicate Due(lastSent: map<u16, u64>, c: StreamConfig, check: u64) {
    var id := c.streamId % 0x1_0000;
    id in lastSent ==> check - lastSent[id] >= CycleTime(c)
  }

  function CycleTimes(configs: seq<StreamConfig>): (r: seq<u32>)
    ensures |r| == |configs|
  {
    seq(|configs|, i requires 0 <= i < |configs| => configs[i].cycleTimeNano)
  }

  /** A recorded send interval and the stream it belongs to. */
  datatype Interval = Interval(config: StreamConfig, nanos: u64)

  /** The sender's variables; `alive` until the thread leaves its loop. */
  datatype Tx = Tx(
    alive: bool,
    streams: Streams,
    lastSent: map<u16, u64>,
    metrics: Summary,
    reported: Option<(u64, u64, u64)>,
    jitter: Summary,
    recorded: seq<Interval>,
    frames: seq<Bytes>,
    statusCode: StatusCode)

  /** Instants never run backwards. */
  function Elapsed(from: u64, to: u64): u64 {
    if from <= to then to - from else 0
  }

  function AbsDiff(a: u64, b: u64): u64 {
    if a <= b then b - a else a - b
  }

  /** What the status shows of the send intervals after a record. */
  function NewReport(reported: Option<(u64, u64, u64)>, s: Summary): Option<(u64, u64, u64)> {
    if Values(s).Some? then Values(s) else reported
  }

  /** The interval bookkeeping for a stream that is sent. Only Op records intervals. */
  function Stamped(tx: Tx, state: DeviceState, c: StreamConfig, now: u64): Tx {
    var id := c.streamId % 0x1_0000;
    var recorded :=
      if state == Op && id in tx.lastSent then
        var interval := Elapsed(tx.lastSent[id], now);
        tx.(metrics := Record(tx.metrics, interval),
            reported := NewReport(tx.reported, Record(tx.metrics, interval)),
            jitter := Record(tx.jitter, AbsDiff(interval, CycleTime(c))),
            recorded := tx.recorded + [Interval(c, interval)])
      else tx;
    recorded.(lastSent := tx.lastSent[id := now])
  }

  function SendStream(
    mac: KeyedMac, source: Mac, kind: ImageKind, output: Bytes,
    tx: Tx, state: DeviceState, c: StreamConfig, clock: Clock): Tx
  {
    if !tx.alive || !Due(tx.lastSent, c, clock.check) then tx
    else Dispatched(mac, source, kind, output, Stamped(tx, state, c, clock.now), c, clock)
  }

  /** The sending itself, after the bookkeeping. */
  function Dispatched(
    mac: KeyedMac, source: Mac, kind: ImageKind, output: Bytes, tx: Tx, c: StreamConfig, clock: Clock): Tx
  {
    var (outgoing, streams') := SendFrame(mac, source, kind, tx.streams, output, c, clock.wallNanos);
    match outgoing
    case Built(f) =>
      if clock.channelOk then tx.(streams := streams', frames := tx.frames + [f])
      else tx.(streams := streams', statusCode := ErrSocketChannel)
    case Refused(code) => tx.(streams := streams', statusCode := code)
    case Panicked => tx.(alive := false)
  }

  /** One tick over all streams, in order. */
  function SendAll(
    mac: KeyedMac, source: Mac, kind: ImageKind, output: Bytes,
    tx: Tx, state: DeviceState, configs: seq<StreamConfig>, clocks: seq<Clock>): Tx
    requires |configs| == |clocks|
  {
    if configs == [] then tx
    else
      var n := |configs| - 1;
      SendStream(mac, source, kind, output,
                 SendAll(mac, source, kind, output, tx, state, configs[..n], clocks[..n]),
                 state, configs[n], clocks[n])
  }

  class Sender {
    const source: Mac
    const configs: seq<StreamConfig>
    const store: StreamStore
    const image: ProcessImage
    const metrics: CycleMetrics
    const jitter: CycleMetrics
    const baseCycle: u32
    var running: bool
    var lastSent: map<u16, u64>
    var previousState: Option<DeviceState>
    var statusCode: StatusCode
    var reported: Option<(u64, u64, u64)>
    ghost var recorded: seq<Interval>

    ghost predicate Valid() {
      image.Valid() && metrics != jitter
    }

    ghost function Value(frames: seq<Bytes>): Tx
      reads this, store, metrics, jitter
    {
      Tx(running, store.streams, lastSent, metrics.Value(), reported, jitter.Value(), recorded, frames, statusCode)
    }

    constructor (source: Mac, configs: seq<StreamConfig>, store: StreamStore, image: ProcessImage)
      requires image.Valid()
      ensures Valid() && previousState == None
      ensures Value([]) == Tx(true, store.streams, map[], EMPTY, None, EMPTY, [], [], NoError)
      ensures this.source == source && this.configs == configs && this.store == store && this.image == image
      ensures fresh(metrics) && fresh(jitter)
      ensures baseCycle >= 1 && DividesPositives(baseCycle, CycleTimes(configs))
    {
      var base := BaseCycle(CycleTimes(configs));
      var m := new CycleMetrics();
      var j := new CycleMetrics();
      this.source, this.configs, this.store, this.image := source, configs, store, image;
      metrics, jitter, baseCycle := m, j, base;
      running, lastSent, previousState, statusCode := true, map[], None, NoError;
      reported, recorded := None, [];
    }

    /**
     One tick of the slave's sender loop; `state` is the snapshot taken after the tick. The
     thread ends when the state is inactive, or in the middle of a tick on a stream without a
     readable destination.
     */
    method Tick(state: DeviceState, clocks: seq<Clock>) returns (frames: seq<Bytes>)
      requires Valid() && |clocks| == |configs|
      modifies this, store, metrics, jitter
      ensures !old(running) ==> frames == [] && Value([]) == old(Value([]))
      ensures old(running) ==> previousState == Some(state)
      ensures old(running) && state != Op && state != SafeOp ==>
                frames == [] && !running && store.streams == old(store.streams)
      ensures old(running) && (state == Op || state == SafeOp) ==>
                var tx := old(Value([]));
                var cleared := if old(previousState) == Some(state) then tx else tx.(lastSent := map[]);
                Value(frames) ==
                SendAll(store.mac, source, image.kind, image.outputImage[..], cleared, state, configs, clocks)
    {
      frames := [];
      if !running {
        return;
      }
      if previousState != Some(state) {
        lastSent := map[];
        previousState := Some(state);
      }
      if state != Op && state != SafeOp {
        running := false;
        return;
      }
      ghost var cleared, output := Value([]), image.outputImage[..];
      for i := 0 to |configs|
        invariant previousState == Some(state) && image.outputImage[..] == output
        invariant Value(frames) ==
                  SendAll(store.mac, source, image.kind, output, cleared, state, configs[..i], clocks[..i])
      {
        assert configs[..i + 1][..i] == configs[..i] && clocks[..i + 1][..i] == clocks[..i];
        if running && IsDue(configs[i], clocks[i].check) {
          var frame := SendDue(frames, state, configs[i], clocks[i]);
          frames := frames + frame;
        }
      }
      assert configs[..|configs|] == configs && clocks[..|clocks|] == clocks;
    }

    /** Whether a stream is due. */
    function IsDue(c: StreamConfig, check: u64): (r: bool)
      reads this
      ensures r == Due(lastSent, c, check)
    {
      var id := c.streamId % 0x1_0000;
      if id in lastSent then check - lastSent[id] >= CycleTime(c) else true
    }

    /** The body of the inner loop for a stream that is due; `before` are the frames sent so far in this tick. */
    method SendDue(ghost before: seq<Bytes>, state: DeviceState, c: StreamConfig, clock: Clock)
      returns (frame: seq<Bytes>)
      requires Valid() && running
      modifies this, store, metrics, jitter
      ensures previousState == old(previousState)
      ensures Value(before + frame) ==
              Dispatched(store.mac, source, image.kind, image.outputImage[..],
                         Stamped(old(Value(before)), state, c, clock.now),
                   c, clock)
    {
      MarkSent(before, state, c, clock.now);
      frame := [];
      var outgoing := Transmit(c, clock.wallNanos);
      assert before + [] == before;
      match outgoing {
        case Built(f) => if clock.channelOk { frame := [f]; } else { statusCode := ErrSocketChannel; }
        case Refused(code) => statusCode := code;
        case Panicked => running := false;
      }
    }

    method MarkSent(ghost before: seq<Bytes>, state: DeviceState, c: StreamConfig, now: u64)
      requires Valid()
      modifies this, metrics, jitter
      ensures previousState == old(previousState)
      ensures Value(before) == Stamped(old(Value(before)), state, c, now)
    {
      var id := c.streamId % 0x1_0000;
      if state == Op && id in lastSent {
        var interval := Elapsed(lastSent[id], now);
        metrics.RecordCycle(interval);
        var values := metrics.GetValues();
        if values.Some? { reported := values; }
        jitter.RecordCycle(AbsDiff(interval, CycleTime(c)));
        recorded := recorded + [Interval(c, interval)];
      }
      lastSent := lastSent[id := now];
    }

    method Transmit(c: StreamConfig, wallNanos: nat) returns (outgoing: Outgoing)
      requires Valid()
      modifies store
      ensures (outgoing, store.streams) ==
              SendFrame(store.mac, source, image.kind, old(store.streams), image.outputImage[..], c, wallNanos)
      ensures outgoing.Panicked? <==> |c.destinationMac| < 6
      ensures outgoing.Built? ==>
                && |c.destinationMac| >= 6 && ParseL2Frame(outgoing.frame).Ok?
                && var p := ParseL2Frame(outgoing.frame).value;
                   p.destination == c.destinationMac[..6] && p.source == source && p.vlanIdPcp == c.vlanIdPcp % 0x1_0000
    {
      var status, payload := Payload(c);
      if |c.destinationMac| < 6 {
        return Panicked;
      }
      var header := NewHeader(c.streamId % 0x1_0000, Stamp(Ticks(wallNanos)), status.Code());
      var tagged := store.GenerateStreamTag(header, payload);
      match tagged {
        case Err(code) => outgoing := Refused(code);
        case Ok((sequenceNumber, tag)) =>
          var f := BuildL2Frame(source, c.destinationMac[..6], c.vlanIdPcp % 0x1_0000, header, payload,
                                SecurityFooter(sequenceNumber, tag));
          outgoing := Built(f);
          ParseBuild(source, c.destinationMac[..6], c.vlanIdPcp % 0x1_0000, header, payload,
                     SecurityFooter(sequenceNumber, tag));
      }
    }

    method Payload(c: StreamConfig) returns (status: StatusCode, payload: Bytes)
      requires Valid()
      ensures match FramePayload(image.kind, image.outputImage[..], c)
              case Ok(p) => status == NoError && payload == p
              case Err(code) => status == code && payload == []
    {
      status, payload := NoError, [];
      if c.content.None? {
        status := ErrParamInvalid;
      } else {
        var read := image.Read(c.content.value);
        match read {
          case Ok(bytes) => payload := bytes;
          case Err(code) => status := code;
        }
      }
    }
  }
}
