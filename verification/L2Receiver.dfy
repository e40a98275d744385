/** One iteration of the receiver loop, of the slave and of the master, as an atomic step. */
module L2Receiver {
  import opened Types
  import opened L2Frame
  import opened Crypto
  import opened StreamStore
  import opened ProcessImage
  import opened CycleCounter

  datatype Role = MasterRole | SlaveRole

  function KindOf(role: Role): ImageKind {
    if role.MasterRole? then ByteGranular else BitGranular
  }

  datatype Gate = Process | Skip | Exit

  /** The slave receives in Op and waits in SafeOp; the master receives in both. */
  function GateOf(role: Role, state: DeviceState): Gate {
    if state == Op then Process
    else if state == SafeOp then (if role.MasterRole? then Process else Skip)
    else Exit
  }

  /** The local variables of the receiver thread and what it reports. */
  datatype Local = Local(
    running: bool,
    lastCycleCounter: map<u16, u16>,
    previousState: Option<DeviceState>,
    missedCycles: nat,
    statusCode: StatusCode)

  const START := Local(true, map[], None, 0, NoError)

  /** A new receiver thread: what the slave reports lives on in its status, the master counts afresh. */
  function Restarted(role: Role, l: Local): Local {
    if role.SlaveRole? then START.(missedCycles := l.missedCycles, statusCode := l.statusCode) else START
  }

  /** The count of missed cycles saturates: at 32 bits on the slave, at 64 on the master. */
  function MissedCap(role: Role): nat {
    if role.SlaveRole? then U32_MAX else U64_MAX
  }

  /** What became of a frame: not taken, or accepted and then written or not. */
  datatype Outcome = Ignored | Accepted(applied: bool)

  datatype Step = Step(streams: Streams, local: Local, input: Bytes, outcome: Outcome)

  function Enter(l: Local, state: DeviceState): Local {
    if l.previousState == Some(state) then l
    else l.(lastCycleCounter := map[], previousState := Some(state))
  }

  /** Only the slave keeps a status code. */
  function Report(role: Role, l: Local, code: StatusCode): Local {
    if role.SlaveRole? then l.(statusCode := code) else l
  }

  function CountMissed(role: Role, l: Local, n: nat): Local {
    l.(missedCycles := Min(l.missedCycles + n, MissedCap(role)))
  }

  function CheckCycle(role: Role, l: Local, id: u16, received: u16, cycleTimeNano: u32): Local {
    var checked :=
      if id !in l.lastCycleCounter then l
      else
        match MissedCycles(l.lastCycleCounter[id], received, cycleTimeNano)
        case None => l
        case Some(n) => Report(role, CountMissed(role, l, n), ErrCycleCounter);
    checked.(lastCycleCounter := checked.lastCycleCounter[id := received])
  }

  /** `handle_input_packet`: the input image afterwards, or the refusal. */
  function HandleInput(kind: ImageKind, input: Bytes, c: StreamConfig, payload: Bytes): Result<Bytes> {
    match c.content
    case None => Err(ErrParamInvalid)
    case Some(p) =>
      var expected := BitLenToByteLen(p.bitLen);
      if |payload| < expected then Err(ErrInvalidLen)
      else WriteInputs(kind, input, payload[..expected], p)
  }

  /** A frame that passed authentication: its sequence number is used up in any case. */
  function Accept(role: Role, c: StreamConfig, l: Local, input: Bytes, p: ParsedL2Frame): (Local, Bytes, bool) {
    if p.header.status != NoError.Code() then (Report(role, l, ErrFrameWithErrorStatus), input, false)
    else
      var l' := CheckCycle(role, l, p.header.streamId, p.header.cycleCounter, c.cycleTimeNano);
      match HandleInput(KindOf(role), input, c, p.payload)
      case Ok(input') => (l', input', true)
      case Err(code) => (Report(role, l', code), input, false)
  }

  function ReceiveParsed(
    mac: KeyedMac, role: Role, streamMap: map<u16, StreamConfig>,
    streams: Streams, l: Local, input: Bytes, p: ParsedL2Frame): Step
  {
    if p.header.streamId !in streamMap then
      Step(streams, Report(role, l, ErrStreamIdUnknown), input, Ignored)
    else
      var (valid, streams') := Validate(mac, streams, p.header, p.payload, p.sequenceNumber, p.authTag);
      match valid
      case Err(code) => Step(streams', Report(role, l, code), input, Ignored)
      case Ok(false) => Step(streams', Report(role, l, ErrAuthFailed), input, Ignored)
      case Ok(true) =>
        var (l', input', applied) := Accept(role, streamMap[p.header.streamId], l, input, p);
        Step(streams', l', input', Accepted(applied))
  }

  function ReceiveFrame(
    mac: KeyedMac, role: Role, streamMap: map<u16, StreamConfig>,
    streams: Streams, l: Local, input: Bytes, frame: Bytes): Step
  {
    match ParseL2Frame(frame)
    case Ok(p) => ReceiveParsed(mac, role, streamMap, streams, l, input, p)
    case Err(code) =>
      Step(streams, if code == ErrInvalidEthertype then l else Report(role, l, ErrFrameParsing), input, Ignored)
  }

  /**
   One iteration: `state` is the snapshot taken at the top of the loop, `frame` what the
   channel delivered, if anything.
   */
  function Receive(
    mac: KeyedMac, role: Role, streamMap: map<u16, StreamConfig>,
    streams: Streams, l: Local, input: Bytes, state: DeviceState, frame: Option<Bytes>): Step
  {
    if !l.running then Step(streams, l, input, Ignored)
    else
      var l' := Enter(l, state);
      match GateOf(role, state)
      case Skip => Step(streams, l', input, Ignored)
      case Exit => Step(streams, l'.(running := false), input, Ignored)
      case Process =>
        match frame
        case None => Step(streams, l', input, Ignored)
        case Some(f) => ReceiveFrame(mac, role, streamMap, streams, l', input, f)
  }

  class Receiver {
    const role: Role
    const streamMap: map<u16, StreamConfig>
    const store: StreamStore
    const image: ProcessImage
    var running: bool
    var lastCycleCounter: map<u16, u16>
    var previousState: Option<DeviceState>
    var missedCycles: nat
    var statusCode: StatusCode

    ghost function Value(): Local
      reads this
    {
      Local(running, lastCycleCounter, previousState, missedCycles, statusCode)
    }

    ghost predicate Valid() {
      image.Valid() && image.kind == KindOf(role)
    }

    constructor (role: Role, streamMap: map<u16, StreamConfig>, store: StreamStore, image: ProcessImage)
      requires image.Valid() && image.kind == KindOf(role)
      ensures Valid() && Value() == START
      ensures this.role == role && this.streamMap == streamMap && this.store == store && this.image == image
    {
      this.role, this.streamMap, this.store, this.image := role, streamMap, store, image;
      running, lastCycleCounter, previousState, missedCycles, statusCode := true, map[], None, 0, NoError;
    }

    method Iterate(state: DeviceState, frame: Option<Bytes>) returns (outcome: Outcome)
      requires Valid()
      modifies this, store, image.inputImage
      ensures Step(store.streams, Value(), image.inputImage[..], outcome) ==
              Receive(store.mac, role, streamMap, old(store.streams), old(Value()), old(image.inputImage[..]), state,
                      frame)
    {
      outcome := Ignored;
      if !running {
        return;
      }
      if previousState != Some(state) {
        lastCycleCounter := map[];
        previousState := Some(state);
      }
      match GateOf(role, state) {
        case Skip =>
        case Exit => running := false;
        case Process =>
          match frame {
            case None =>
            case Some(f) => outcome := OnFrame(f);
          }
      }
    }

    method OnFrame(frame: Bytes) returns (outcome: Outcome)
      requires Valid()
      modifies this, store, image.inputImage
      ensures Step(store.streams, Value(), image.inputImage[..], outcome) ==
              ReceiveFrame(store.mac, role, streamMap, old(store.streams), old(Value()), old(image.inputImage[..]),
                           frame)
    {
      outcome := Ignored;
      match ParseL2Frame(frame) {
        case Err(code) =>
          if code != ErrInvalidEthertype { SetStatus(ErrFrameParsing); }
        case Ok(p) =>
          var id := p.header.streamId;
          if id !in streamMap {
            SetStatus(ErrStreamIdUnknown);
            return;
          }
          var valid := store.ValidateStreamTag(p.header, p.payload, p.sequenceNumber, p.authTag);
          match valid {
            case Err(code) => SetStatus(code);
            case Ok(true) =>
              var applied := OnAccepted(streamMap[id], p);
              outcome := Accepted(applied);
            case Ok(false) => SetStatus(ErrAuthFailed);
          }
      }
    }

    method OnAccepted(c: StreamConfig, p: ParsedL2Frame) returns (applied: bool)
      requires Valid()
      modifies this, image.inputImage
      ensures (Value(), image.inputImage[..], applied) ==
              Accept(role, c, old(Value()), old(image.inputImage[..]), p)
    {
      applied := false;
      if p.header.status != NoError.Code() {
        SetStatus(ErrFrameWithErrorStatus);
        return;
      }
      OnCycle(p.header.streamId, p.header.cycleCounter, c.cycleTimeNano);
      var written := InputPacket(c, p.payload);
      match written {
        case Ok(_) => applied := true;
        case Err(code) => SetStatus(code);
      }
    }

    method InputPacket(c: StreamConfig, payload: Bytes) returns (r: Result<()>)
      requires Valid()
      modifies image.inputImage
      ensures match HandleInput(image.kind, old(image.inputImage[..]), c, payload)
              case Ok(input) => r.Ok? && image.inputImage[..] == input
              case Err(code) => r == Err(code) && image.inputImage[..] == old(image.inputImage[..])
    {
      if c.content.None? {
        return Err(ErrParamInvalid);
      }
      var expected := BitLenToByteLen(c.content.value.bitLen);
      if |payload| < expected {
        return Err(ErrInvalidLen);
      }
      r := image.Write(payload[..expected], c.content.value);
    }

    method OnCycle(id: u16, received: u16, cycleTimeNano: u32)
      modifies this
      ensures Value() == CheckCycle(role, old(Value()), id, received, cycleTimeNano)
    {
      if id in lastCycleCounter {
        var ticks := TicksPerCycle(cycleTimeNano);
        var expected := WrappingAdd16(lastCycleCounter[id], ticks % 0x1_0000);
        var forward := WrappingSub16(received, expected);
        var backward := WrappingSub16(expected, received);
        if Min(forward, backward) > ToleranceTicks(cycleTimeNano) {
          var missed := if forward <= backward then DivCeil(forward, ticks) else 1;
          missedCycles := Min(missedCycles + missed, MissedCap(role));
          SetStatus(ErrCycleCounter);
        }
      }
      lastCycleCounter := lastCycleCounter[id := received];
    }

    method SetStatus(code: StatusCode)
      modifies this
      ensures Value() == Report(role, old(Value()), code)
    {
      if role.SlaveRole? { statusCode := code; }
    }
  }
}
