/** Runs of the sender: exact send times under an ideal clock, interval bounds under any clock. */
module Schedule {
  import opened Types
  import opened Arithmetic
  import opened Crypto
  import opened L2Frame
  import opened StreamStore
  import opened ProcessImage
  import opened CycleMetrics
  import opened Gcd
  import opened L2Sender

  /** What one tick sees: the state snapshot, the output image and the clock readings per stream. */
  datatype TickInput = TickInput(state: DeviceState, output: Bytes, clocks: seq<Clock>)

  /** A sender with fixed parameters. */
  datatype Setup = Setup(mac: KeyedMac, source: Mac, kind: ImageKind, configs: seq<StreamConfig>) {
    /** As the store guarantees: 16-bit ids, none twice. */
    ghost predicate Valid() {
      && (forall i :: 0 <= i < |configs| ==> configs[i].streamId <= 0xFFFF)
      && (forall i, j :: 0 <= i < j < |configs| ==> configs[i].streamId != configs[j].streamId)
    }

    /** Every destination can be read, as `validate_streams` guarantees. */
    ghost predicate Sendables() {
      forall i :: 0 <= i < |configs| ==> Sendable(configs[i])
    }

    ghost predicate Accepts(input: TickInput) {
      && |input.clocks| == |configs|
      && (input.state == Op || input.state == SafeOp)
    }
  }

  ghost predicate AllAccepted(setup: Setup, inputs: seq<TickInput>) {
    forall j :: 0 <= j < |inputs| ==> setup.Accepts(inputs[j])
  }

  lemma AcceptedPrefix(setup: Setup, inputs: seq<TickInput>, n: nat)
    requires AllAccepted(setup, inputs) && n <= |inputs|
    ensures AllAccepted(setup, inputs[..n])
    ensures n < |inputs| ==> setup.Accepts(inputs[n])
  {
  }

  /** What a tick starts from: a change of state forgets the send times. */
  function Cleared(previous: Option<DeviceState>, tx: Tx, state: DeviceState): Tx {
    if previous == Some(state) then tx else tx.(lastSent := map[])
  }

  ghost function TickOnce(setup: Setup, tx: Tx, input: TickInput): Tx
    requires setup.Accepts(input)
  {
    SendAll(setup.mac, setup.source, setup.kind, input.output, tx, input.state, setup.configs, input.clocks)
  }

  /** The sender loop over a sequence of active ticks: previous state and accumulated values. */
  ghost function Run(setup: Setup, start: Tx, inputs: seq<TickInput>): (Option<DeviceState>, Tx)
    requires AllAccepted(setup, inputs)
    decreases |inputs|
  {
    if inputs == [] then (None, start)
    else
      var n := |inputs| - 1;
      AcceptedPrefix(setup, inputs, n);
      var (previous, tx) := Run(setup, start, inputs[..n]);
      (Some(inputs[n].state), TickOnce(setup, Cleared(previous, tx, inputs[n].state), inputs[n]))
  }

  // ---------- any monotone clock ----------

  function Nanos(intervals: seq<Interval>): (r: seq<u64>)
    ensures |r| == |intervals|
  {
    seq(|intervals|, i requires 0 <= i < |intervals| => intervals[i].nanos)
  }

  /** By how much each interval exceeds the cycle time of its stream. */
  function Excess(intervals: seq<Interval>): (r: seq<u64>)
    requires forall i :: 0 <= i < |intervals| ==> intervals[i].nanos >= CycleTime(intervals[i].config)
    ensures |r| == |intervals|
  {
    seq(|intervals|, i requires 0 <= i < |intervals| => intervals[i].nanos - CycleTime(intervals[i].config))
  }

  /** Every recorded interval covers the cycle time of its stream, and the metrics are those of the intervals. */
  ghost predicate Honest(tx: Tx) {
    && (forall i :: 0 <= i < |tx.recorded| ==> tx.recorded[i].nanos >= CycleTime(tx.recorded[i].config))
    && tx.metrics == After(Nanos(tx.recorded)) && tx.jitter == After(Excess(tx.recorded))
    && (tx.recorded == [] ==> tx.reported == None)
    && (tx.recorded != [] && |tx.recorded| <= U64_MAX ==> tx.reported == Values(tx.metrics))
  }

  ghost predicate Monotone(clocks: seq<Clock>) {
    forall i :: 0 <= i < |clocks| ==> clocks[i].check <= clocks[i].now
  }

  lemma AfterSnoc(xs: seq<u64>, x: u64)
    ensures After(xs + [x]) == Record(After(xs), x)
  {
    assert (xs + [x])[..|xs|] == xs;
  }

  lemma NanosSnoc(intervals: seq<Interval>, c: StreamConfig, nanos: u64)
    ensures After(Nanos(intervals + [Interval(c, nanos)])) == Record(After(Nanos(intervals)), nanos)
  {
    assert Nanos(intervals + [Interval(c, nanos)]) == Nanos(intervals) + [nanos];
    AfterSnoc(Nanos(intervals), nanos);
  }

  lemma ExcessSnoc(intervals: seq<Interval>, c: StreamConfig, nanos: u64)
    requires nanos >= CycleTime(c)
    requires forall i :: 0 <= i < |intervals| ==> intervals[i].nanos >= CycleTime(intervals[i].config)
    ensures var all := intervals + [Interval(c, nanos)];
            && (forall i :: 0 <= i < |all| ==> all[i].nanos >= CycleTime(all[i].config))
            && After(Excess(all)) == Record(After(Excess(intervals)), nanos - CycleTime(c))
  {
    var all := intervals + [Interval(c, nanos)];
    assert Excess(all) == Excess(intervals) + [nanos - CycleTime(c)];
    AfterSnoc(Excess(intervals), nanos - CycleTime(c));
  }

  /** One more interval that covers its cycle. */
  lemma IntervalSnoc(tx: Tx, c: StreamConfig, nanos: u64)
    requires Honest(tx) && nanos >= CycleTime(c)
    ensures var all := tx.recorded + [Interval(c, nanos)];
            && (forall i :: 0 <= i < |all| ==> all[i].nanos >= CycleTime(all[i].config))
            && After(Nanos(all)) == Record(tx.metrics, nanos)
            && After(Excess(all)) == Record(tx.jitter, nanos - CycleTime(c))
            && (|all| <= U64_MAX ==> Values(Record(tx.metrics, nanos)).Some?)
  {
    NanosSnoc(tx.recorded, c, nanos);
    ExcessSnoc(tx.recorded, c, nanos);
    var all := tx.recorded + [Interval(c, nanos)];
    if |all| <= U64_MAX { ValuesExact(Nanos(all)); }
  }

  lemma HonestAfter(tx: Tx, tx': Tx, c: StreamConfig, nanos: u64)
    requires Honest(tx) && nanos >= CycleTime(c) && tx'.recorded == tx.recorded + [Interval(c, nanos)]
    requires tx'.metrics == Record(tx.metrics, nanos) && tx'.jitter == Record(tx.jitter, nanos - CycleTime(c))
    requires tx'.reported == NewReport(tx.reported, tx'.metrics)
    ensures Honest(tx')
  {
    IntervalSnoc(tx, c, nanos);
  }

  lemma StampedHonest(tx: Tx, state: DeviceState, c: StreamConfig, clock: Clock)
    requires Honest(tx) && Due(tx.lastSent, c, clock.check) && clock.check <= clock.now
    ensures Honest(Stamped(tx, state, c, clock.now))
  {
    var id := c.streamId % 0x1_0000;
    if state == Op && id in tx.lastSent {
      HonestAfter(tx, Stamped(tx, state, c, clock.now), c, clock.now - tx.lastSent[id]);
    }
  }

  /** The sending itself leaves the bookkeeping alone and moves on no counter but the stream's own. */
  lemma DispatchKeeps(
    mac: KeyedMac, source: Mac, kind: ImageKind, output: Bytes, tx: Tx, c: StreamConfig, clock: Clock, id: u16)
    ensures var tx' := Dispatched(mac, source, kind, output, tx, c, clock);
            && tx'.lastSent == tx.lastSent && tx'.recorded == tx.recorded
            && tx'.metrics == tx.metrics && tx'.jitter == tx.jitter && tx'.reported == tx.reported
            && (id != c.streamId % 0x1_0000 ==>
                  && (id in tx'.streams <==> id in tx.streams)
                  && (id in tx.streams ==> tx'.streams[id] == tx.streams[id]))
  {
    var (header, payload) := Compose(kind, output, c, clock.wallNanos);
    GenerateKeeps(mac, tx.streams, header, payload, id);
  }

  lemma GenerateKeeps(mac: KeyedMac, streams: Streams, h: L2Header, payload: Bytes, id: u16)
    ensures var streams' := Generate(mac, streams, h, payload).1;
            id != h.streamId ==>
              (id in streams' <==> id in streams) && (id in streams ==> streams'[id] == streams[id])
  {
  }

  lemma TurnHonest(
    mac: KeyedMac, source: Mac, kind: ImageKind, output: Bytes,
    tx: Tx, state: DeviceState, c: StreamConfig, clock: Clock)
    requires Honest(tx) && clock.check <= clock.now
    ensures Honest(SendStream(mac, source, kind, output, tx, state, c, clock))
  {
    if tx.alive && Due(tx.lastSent, c, clock.check) {
      StampedHonest(tx, state, c, clock);
      DispatchKeeps(mac, source, kind, output, Stamped(tx, state, c, clock.now), c, clock, 0);
    }
  }

  lemma {:induction false} SendAllHonest(
    mac: KeyedMac, source: Mac, kind: ImageKind, output: Bytes,
    tx: Tx, state: DeviceState, configs: seq<StreamConfig>, clocks: seq<Clock>)
    requires |configs| == |clocks|
    requires Honest(tx) && Monotone(clocks)
    ensures Honest(SendAll(mac, source, kind, output, tx, state, configs, clocks))
    decreases |configs|
  {
    if configs != [] {
      var n := |configs| - 1;
      SendAllHonest(mac, source, kind, output, tx, state, configs[..n], clocks[..n]);
      var before := SendAll(mac, source, kind, output, tx, state, configs[..n], clocks[..n]);
      TurnHonest(mac, source, kind, output, before, state, configs[n], clocks[n]);
    }
  }

  /**
   With any monotone clock, through any changes between Op and SafeOp: every recorded send
   interval is at least the cycle time of its stream, the send metrics are those of the recorded
   intervals, the jitter is that of their excess, and the status shows the metrics. Up to
   2^64 - 1 records these are the exact minimum, maximum and floored mean.
   */
  lemma {:induction false} IntervalsCoverCycles(setup: Setup, start: Tx, inputs: seq<TickInput>)
    requires AllAccepted(setup, inputs)
    requires forall j :: 0 <= j < |inputs| ==> Monotone(inputs[j].clocks)
    requires start.recorded == [] && start.metrics == EMPTY == start.jitter && start.reported == None
    ensures Honest(Run(setup, start, inputs).1)
    decreases |inputs|
  {
    if inputs != [] {
      var n := |inputs| - 1;
      AcceptedPrefix(setup, inputs, n);
      IntervalsCoverCycles(setup, start, inputs[..n]);
      var (previous, tx) := Run(setup, start, inputs[..n]);
      SendAllHonest(setup.mac, setup.source, setup.kind, inputs[n].output, Cleared(previous, tx, inputs[n].state),
                    inputs[n].state, setup.configs, inputs[n].clocks);
    }
  }

  /** The reported minimum of a run is at least the shortest cycle time that was recorded. */
  lemma ReportedMinimum(setup: Setup, start: Tx, inputs: seq<TickInput>, shortest: u32)
    requires AllAccepted(setup, inputs)
    requires forall j :: 0 <= j < |inputs| ==> Monotone(inputs[j].clocks)
    requires start.recorded == [] && start.metrics == EMPTY == start.jitter && start.reported == None
    requires 1 <= |Run(setup, start, inputs).1.recorded| <= U64_MAX
    requires forall r :: r in Run(setup, start, inputs).1.recorded ==> shortest <= CycleTime(r.config)
    ensures var v := Run(setup, start, inputs).1.reported;
            v.Some? && shortest <= v.value.0 <= v.value.2 <= v.value.1
  {
    IntervalsCoverCycles(setup, start, inputs);
    var tx := Run(setup, start, inputs).1;
    var xs := Nanos(tx.recorded);
    ValuesExact(xs);
    var lo := Values(tx.metrics).value.0;
    var i :| 0 <= i < |xs| && xs[i] == lo;
    assert tx.recorded[i] in tx.recorded;
  }

  // ---------- ideal clock ----------

  /** The last send time of a stream, if it was sent in this state. */
  function LastOf(lastSent: map<u16, u64>, c: StreamConfig): Option<u64> {
    var id := c.streamId % 0x1_0000;
    if id in lastSent then Some(lastSent[id]) else None
  }

  /** The store entry of a stream, if it has one. */
  function EntryOf(streams: Streams, c: StreamConfig): Option<StreamEntry> {
    var id := c.streamId % 0x1_0000;
    if id in streams then Some(streams[id]) else None
  }

  function Advanced(e: Option<StreamEntry>): Option<StreamEntry> {
    match e
    case None => None
    case Some(entry) => Some(entry.(sequenceNumber := SaturatingAdd64(entry.sequenceNumber, 1)))
  }

  /** What leaves for stream `i` when the channel takes it, as numbered, tagged and built from these store entries. */
  function FrameFor(setup: Setup, streams: Streams, input: TickInput, i: nat): seq<Bytes>
    requires i < |setup.configs| == |input.clocks|
  {
    match SendFrame(setup.mac, setup.source, setup.kind, streams, input.output,
                    setup.configs[i], input.clocks[i].wallNanos).0
    case Built(frame) => if input.clocks[i].channelOk then [frame] else []
    case _ => []
  }

  /** The frame of stream `i` if it is marked. */
  function Marked(setup: Setup, streams: Streams, input: TickInput, which: seq<bool>, i: nat): seq<Bytes>
    requires i < |setup.configs| == |input.clocks| == |which|
  {
    if which[i] then FrameFor(setup, streams, input, i) else []
  }

  /** The frames of the first `k` streams that are marked, in order. */
  function FramesWhere(setup: Setup, streams: Streams, input: TickInput, which: seq<bool>, k: nat): seq<Bytes>
    requires k <= |setup.configs| == |input.clocks| == |which|
  {
    if k == 0 then []
    else
      FramesWhere(setup, streams, input, which, k - 1) + Marked(setup, streams, input, which, k - 1)
  }

  /** Exactly one frame leaves when the stream has a store entry and a readable destination and the channel works. */
  lemma OneFrame(setup: Setup, streams: Streams, input: TickInput, i: nat)
    requires i < |setup.configs| == |input.clocks|
    ensures |FrameFor(setup, streams, input, i)| == 1 <==>
            EntryOf(streams, setup.configs[i]).Some? && Sendable(setup.configs[i]) && input.clocks[i].channelOk
  {
  }

  /** The frame of a stream depends on its own entry only. */
  lemma FrameOfEntry(setup: Setup, s1: Streams, s2: Streams, input: TickInput, i: nat)
    requires i < |setup.configs| == |input.clocks|
    requires EntryOf(s1, setup.configs[i]) == EntryOf(s2, setup.configs[i])
    ensures FrameFor(setup, s1, input, i) == FrameFor(setup, s2, input, i)
  {
  }

  /** Which streams are due in a tick that starts from `tx`. */
  ghost function DueFlags(setup: Setup, tx: Tx, input: TickInput): (r: seq<bool>)
    requires setup.Accepts(input)
    ensures |r| == |setup.configs|
    ensures forall i :: 0 <= i < |r| ==> r[i] == Due(tx.lastSent, setup.configs[i], input.clocks[i].check)
  {
    seq(|setup.configs|, i requires 0 <= i < |setup.configs| =>
      Due(tx.lastSent, setup.configs[i], input.clocks[i].check))
  }

  ghost function TurnOf(setup: Setup, tx: Tx, input: TickInput, i: nat): Tx
    requires setup.Accepts(input) && i < |setup.configs|
  {
    SendStream(setup.mac, setup.source, setup.kind, input.output, tx, input.state, setup.configs[i], input.clocks[i])
  }

  /** A stream's own turn: when it is due its frame leaves, its entry moves on and its send time is the present. */
  lemma OwnTurn(setup: Setup, tx: Tx, input: TickInput, i: nat)
    requires setup.Accepts(input) && i < |setup.configs| && tx.alive && Sendable(setup.configs[i])
    ensures var c, tx' := setup.configs[i], TurnOf(setup, tx, input, i);
            && tx'.alive
            && (Due(tx.lastSent, c, input.clocks[i].check) ==>
                  && LastOf(tx'.lastSent, c) == Some(input.clocks[i].now)
                  && EntryOf(tx'.streams, c) == Advanced(EntryOf(tx.streams, c))
                  && tx'.frames == tx.frames + FrameFor(setup, tx.streams, input, i))
            && (!Due(tx.lastSent, c, input.clocks[i].check) ==> tx' == tx)
  {
  }

  lemma StampKeeps(tx: Tx, state: DeviceState, turn: StreamConfig, now: u64, c: StreamConfig)
    requires turn.streamId % 0x1_0000 != c.streamId % 0x1_0000
    ensures var tx' := Stamped(tx, state, turn, now);
            LastOf(tx'.lastSent, c) == LastOf(tx.lastSent, c) && tx'.streams == tx.streams && tx'.alive == tx.alive
  {
  }

  /** Nobody else's turn touches a stream. */
  lemma OtherTurn(setup: Setup, tx: Tx, input: TickInput, i: nat, c: StreamConfig)
    requires setup.Accepts(input) && i < |setup.configs|
    requires setup.configs[i].streamId <= 0xFFFF && c.streamId <= 0xFFFF && setup.configs[i].streamId != c.streamId
    ensures var tx' := TurnOf(setup, tx, input, i);
            LastOf(tx'.lastSent, c) == LastOf(tx.lastSent, c) && EntryOf(tx'.streams, c) == EntryOf(tx.streams, c)
  {
    var stamped := Stamped(tx, input.state, setup.configs[i], input.clocks[i].now);
    StampKeeps(tx, input.state, setup.configs[i], input.clocks[i].now, c);
    DispatchKeeps(setup.mac, setup.source, setup.kind, input.output, stamped,
                  setup.configs[i], input.clocks[i], c.streamId);
  }

  /** The first `k` turns of a tick. */
  ghost function Turns(setup: Setup, tx: Tx, input: TickInput, k: nat): Tx
    requires setup.Accepts(input) && k <= |setup.configs|
  {
    SendAll(setup.mac, setup.source, setup.kind, input.output, tx, input.state, setup.configs[..k], input.clocks[..k])
  }

  lemma NoTurnsYet(setup: Setup, tx: Tx, input: TickInput)
    requires setup.Accepts(input)
    ensures Turns(setup, tx, input, 0) == tx
  {
  }

  lemma TurnsStep(setup: Setup, tx: Tx, input: TickInput, k: nat)
    requires setup.Accepts(input) && k < |setup.configs|
    ensures Turns(setup, tx, input, k + 1) == TurnOf(setup, Turns(setup, tx, input, k), input, k)
  {
    assert setup.configs[..k + 1][..k] == setup.configs[..k];
    assert input.clocks[..k + 1][..k] == input.clocks[..k];
  }

  /** Stream `i` after the first `k` turns: served if its turn was among them and it was due. */
  ghost predicate Served(setup: Setup, tx: Tx, input: TickInput, k: nat, i: nat)
    requires setup.Accepts(input) && k <= |setup.configs| && i < |setup.configs|
  {
    var c, after := setup.configs[i], Turns(setup, tx, input, k);
    if i < k && Due(tx.lastSent, c, input.clocks[i].check) then
      && LastOf(after.lastSent, c) == Some(input.clocks[i].now)
      && EntryOf(after.streams, c) == Advanced(EntryOf(tx.streams, c))
    else
      && LastOf(after.lastSent, c) == LastOf(tx.lastSent, c)
      && EntryOf(after.streams, c) == EntryOf(tx.streams, c)
  }

  lemma DueOfLast(l1: map<u16, u64>, l2: map<u16, u64>, c: StreamConfig, check: u64)
    requires LastOf(l1, c) == LastOf(l2, c)
    ensures Due(l1, c, check) == Due(l2, c, check)
  {
  }

  lemma ServedStep(setup: Setup, tx: Tx, input: TickInput, k: nat, i: nat)
    requires setup.Valid() && setup.Sendables() && setup.Accepts(input) && k < |setup.configs| && i < |setup.configs|
    requires Turns(setup, tx, input, k).alive && Served(setup, tx, input, k, i)
    ensures Served(setup, tx, input, k + 1, i)
  {
    TurnsStep(setup, tx, input, k);
    var before := Turns(setup, tx, input, k);
    if i == k {
      OwnTurn(setup, before, input, k);
      DueOfLast(before.lastSent, tx.lastSent, setup.configs[k], input.clocks[k].check);
    } else {
      OtherTurn(setup, before, input, k, setup.configs[i]);
    }
  }

  lemma FramesStep(setup: Setup, tx: Tx, input: TickInput, k: nat)
    requires setup.Valid() && setup.Sendables() && setup.Accepts(input) && k < |setup.configs|
    requires Turns(setup, tx, input, k).alive && Served(setup, tx, input, k, k)
    ensures Turns(setup, tx, input, k + 1).alive
    ensures Turns(setup, tx, input, k + 1).frames ==
            Turns(setup, tx, input, k).frames
            + Marked(setup, tx.streams, input, DueFlags(setup, tx, input), k)
  {
    TurnsStep(setup, tx, input, k);
    var before := Turns(setup, tx, input, k);
    OwnTurn(setup, before, input, k);
    DueOfLast(before.lastSent, tx.lastSent, setup.configs[k], input.clocks[k].check);
    FrameOfEntry(setup, before.streams, tx.streams, input, k);
  }

  /** Within one tick each stream is served on its own terms. */
  lemma {:induction false} TurnsServe(setup: Setup, tx: Tx, input: TickInput, k: nat)
    requires setup.Valid() && setup.Sendables() && setup.Accepts(input) && tx.alive && k <= |setup.configs|
    ensures Turns(setup, tx, input, k).alive
    ensures forall i: nat :: i < |setup.configs| ==> Served(setup, tx, input, k, i)
  {
    if k > 0 {
      TurnsServe(setup, tx, input, k - 1);
      FramesStep(setup, tx, input, k - 1);
      forall i: nat | i < |setup.configs| ensures Served(setup, tx, input, k, i) {
        ServedStep(setup, tx, input, k - 1, i);
      }
    }
  }

  /** These are the frames that the first `k` turns send. */
  ghost predicate Sends(setup: Setup, tx: Tx, input: TickInput, k: nat, frames: seq<Bytes>)
    requires setup.Accepts(input) && k <= |setup.configs|
  {
    Turns(setup, tx, input, k).frames == tx.frames + frames
  }

  lemma NoFrames(setup: Setup, tx: Tx, input: TickInput)
    requires setup.Accepts(input)
    ensures Sends(setup, tx, input, 0, [])
  {
    NoTurnsYet(setup, tx, input);
  }

  lemma FramesOnward(setup: Setup, tx: Tx, input: TickInput, k: nat, front: seq<Bytes>, frames: seq<Bytes>)
    requires setup.Valid() && setup.Sendables() && setup.Accepts(input) && tx.alive && k < |setup.configs|
    requires Sends(setup, tx, input, k, front)
    requires frames == front + Marked(setup, tx.streams, input, DueFlags(setup, tx, input), k)
    ensures Sends(setup, tx, input, k + 1, frames)
  {
    TurnsServe(setup, tx, input, k);
    FramesStep(setup, tx, input, k);
    AppendThird(tx.frames, front, Marked(setup, tx.streams, input, DueFlags(setup, tx, input), k));
  }

  lemma AppendThird(a: seq<Bytes>, b: seq<Bytes>, c: seq<Bytes>)
    ensures (a + b) + c == a + (b + c)
  {
  }

  /** The frames of a tick leave in the order of the streams. */
  lemma {:induction false} TurnsFrames(setup: Setup, tx: Tx, input: TickInput, k: nat)
    requires setup.Valid() && setup.Sendables() && setup.Accepts(input) && tx.alive && k <= |setup.configs|
    ensures Sends(setup, tx, input, k, FramesWhere(setup, tx.streams, input, DueFlags(setup, tx, input), k))
  {
    var flags := DueFlags(setup, tx, input);
    if k > 0 {
      TurnsFrames(setup, tx, input, k - 1);
      FramesOnward(setup, tx, input, k - 1, FramesWhere(setup, tx.streams, input, flags, k - 1),
                   FramesWhere(setup, tx.streams, input, flags, k));
    } else {
      NoFrames(setup, tx, input);
    }
  }

  /** What a stream's own turn records: in Op, the time since it was last sent in this state. */
  ghost function OwnInterval(setup: Setup, tx: Tx, input: TickInput, i: nat): seq<Interval>
    requires setup.Accepts(input) && i < |setup.configs|
  {
    var c, last := setup.configs[i], LastOf(tx.lastSent, setup.configs[i]);
    if Due(tx.lastSent, c, input.clocks[i].check) && input.state == Op && last.Some? then
      [Interval(c, if last.value <= input.clocks[i].now then input.clocks[i].now - last.value else 0)]
    else []
  }

  /** What the first `k` turns record, in the order of the streams. */
  ghost function OwnIntervals(setup: Setup, tx: Tx, input: TickInput, k: nat): seq<Interval>
    requires setup.Accepts(input) && k <= |setup.configs|
  {
    if k == 0 then [] else OwnIntervals(setup, tx, input, k - 1) + OwnInterval(setup, tx, input, k - 1)
  }

  lemma TurnRecords(setup: Setup, tx: Tx, input: TickInput, i: nat)
    requires setup.Accepts(input) && i < |setup.configs| && tx.alive
    ensures TurnOf(setup, tx, input, i).recorded == tx.recorded + OwnInterval(setup, tx, input, i)
  {
  }

  lemma SameInterval(setup: Setup, t1: Tx, t2: Tx, input: TickInput, i: nat)
    requires setup.Accepts(input) && i < |setup.configs|
    requires LastOf(t1.lastSent, setup.configs[i]) == LastOf(t2.lastSent, setup.configs[i])
    ensures OwnInterval(setup, t1, input, i) == OwnInterval(setup, t2, input, i)
  {
  }

  lemma RecordStep(setup: Setup, tx: Tx, input: TickInput, k: nat)
    requires setup.Valid() && setup.Sendables() && setup.Accepts(input) && tx.alive && k < |setup.configs|
    ensures Turns(setup, tx, input, k + 1).recorded ==
            Turns(setup, tx, input, k).recorded + OwnInterval(setup, tx, input, k)
  {
    var before := Turns(setup, tx, input, k);
    TurnsServe(setup, tx, input, k);
    TurnsStep(setup, tx, input, k);
    TurnRecords(setup, before, input, k);
    assert Served(setup, tx, input, k, k);
    SameInterval(setup, before, tx, input, k);
  }

  lemma {:induction false} TurnsRecord(setup: Setup, tx: Tx, input: TickInput, k: nat)
    requires setup.Valid() && setup.Sendables() && setup.Accepts(input) && tx.alive && k <= |setup.configs|
    ensures Turns(setup, tx, input, k).recorded == tx.recorded + OwnIntervals(setup, tx, input, k)
  {
    if k > 0 {
      TurnsRecord(setup, tx, input, k - 1);
      RecordStep(setup, tx, input, k - 1);
      AppendIntervals(tx.recorded, OwnIntervals(setup, tx, input, k - 1), OwnInterval(setup, tx, input, k - 1));
    }
  }

  lemma AppendIntervals(a: seq<Interval>, b: seq<Interval>, c: seq<Interval>)
    ensures (a + b) + c == a + (b + c)
  {
  }

  function TickTime(j: nat, base: nat): nat {
    j * base
  }

  /** The clock stands still at `time` during the tick. */
  ghost predicate StandsAt(input: TickInput, time: nat) {
    forall i :: 0 <= i < |input.clocks| ==> input.clocks[i].check == time && input.clocks[i].now == time
  }

  /** The clock stands at `j * base` throughout tick `j`, and the state does not change. */
  ghost predicate Ideal(inputs: seq<TickInput>, base: nat, state: DeviceState) {
    forall j :: 0 <= j < |inputs| ==> inputs[j].state == state && StandsAt(inputs[j], TickTime(j, base))
  }

  /** The variables after the first `n` ticks. */
  ghost function TxAfter(setup: Setup, start: Tx, inputs: seq<TickInput>, n: nat): Tx
    requires AllAccepted(setup, inputs) && n <= |inputs|
  {
    AcceptedPrefix(setup, inputs, n);
    Run(setup, start, inputs[..n]).1
  }

  /** What tick `n` starts from. */
  ghost function TickStart(setup: Setup, start: Tx, inputs: seq<TickInput>, n: nat): Tx
    requires AllAccepted(setup, inputs) && n < |inputs|
  {
    AcceptedPrefix(setup, inputs, n);
    var (previous, tx) := Run(setup, start, inputs[..n]);
    Cleared(previous, tx, inputs[n].state)
  }

  /** Stream `i` is due in tick `n`. */
  ghost predicate DueAt(setup: Setup, start: Tx, inputs: seq<TickInput>, n: nat, i: nat)
    requires AllAccepted(setup, inputs) && n < |inputs| && i < |setup.configs|
  {
    AcceptedPrefix(setup, inputs, n);
    Due(TickStart(setup, start, inputs, n).lastSent, setup.configs[i], inputs[n].clocks[i].check)
  }

  /** The latest multiple of the cycle (of `q` ticks) at tick `n`. */
  function LatestMultiple(n: nat, q: nat, base: nat): nat
    requires q > 0
  {
    if n % q == 0 then TickTime(n, base) else LatestMultiple(n - 1, q, base)
  }

  lemma {:induction false} LatestMultipleIs(n: nat, q: nat, base: nat)
    requires q > 0
    ensures LatestMultiple(n, q, base) == TickTime(n / q * q, base)
  {
    var d, r := n / q, n % q;
    assert n == d * q + r;
    if r != 0 {
      QuotientRemainder(n - 1, q, d, r - 1);
      LatestMultipleIs(n - 1, q, base);
    }
  }

  /** The distance from the latest multiple of `q` reaches `q` exactly at the next multiple. */
  lemma NextMultiple(n: nat, q: nat)
    requires q > 0
    ensures var gap := n + 1 - n / q * q; 1 <= gap <= q && (gap == q <==> (n + 1) % q == 0)
  {
    var d, r := n / q, n % q;
    assert n == d * q + r;
    if r + 1 == q {
      assert n + 1 == (d + 1) * q + 0;
      QuotientRemainder(n + 1, q, d + 1, 0);
    } else {
      QuotientRemainder(n + 1, q, d, r + 1);
    }
  }

  lemma TickDistance(a: nat, b: nat, base: nat)
    requires a <= b
    ensures TickTime(b, base) - TickTime(a, base) == TickTime(b - a, base)
  {
  }

  /** Arithmetic of one tick: with `q` ticks per cycle, a stream is due exactly at the multiples of `q`. */
  lemma DueArithmetic(n: nat, q: nat, base: nat)
    requires q > 0 && base > 0
    ensures TickTime(n + 1, base) - LatestMultiple(n, q, base) >= TickTime(q, base) <==> (n + 1) % q == 0
  {
    LatestMultipleIs(n, q, base);
    NextMultiple(n, q);
    var latest: nat := n / q * q;
    TickDistance(latest, n + 1, base);
    ScaledCompare(n + 1 - latest, q, base);
  }

  lemma ScaledCompare(a: nat, b: nat, base: nat)
    requires base > 0
    ensures a * base >= b * base <==> a >= b
  {
  }

  /** The last send time of stream `i` after the first `n` ticks. */
  ghost function LastAfter(setup: Setup, start: Tx, inputs: seq<TickInput>, n: nat, i: nat): Option<u64>
    requires AllAccepted(setup, inputs) && n <= |inputs| && i < |setup.configs|
  {
    LastOf(TxAfter(setup, start, inputs, n).lastSent, setup.configs[i])
  }

  lemma RunStep(setup: Setup, start: Tx, inputs: seq<TickInput>, n: nat)
    requires AllAccepted(setup, inputs) && n < |inputs|
    ensures AllAccepted(setup, inputs[..n]) && AllAccepted(setup, inputs[..n + 1]) && setup.Accepts(inputs[n])
    ensures Run(setup, start, inputs[..n + 1]).0 == Some(inputs[n].state)
    ensures TxAfter(setup, start, inputs, n + 1) ==
            Turns(setup, TickStart(setup, start, inputs, n), inputs[n], |setup.configs|)
  {
    AcceptedPrefix(setup, inputs, n);
    AcceptedPrefix(setup, inputs, n + 1);
    var prefix := inputs[..n + 1];
    assert prefix[..n] == inputs[..n] && prefix[n] == inputs[n];
    assert setup.configs[..|setup.configs|] == setup.configs && inputs[n].clocks[..|setup.configs|] == inputs[n].clocks;
  }

  /** A sender all of whose destinations can be read stays alive, and its streams stay in the store. */
  lemma {:induction false} StaysAlive(setup: Setup, start: Tx, inputs: seq<TickInput>, n: nat)
    requires setup.Valid() && setup.Sendables() && AllAccepted(setup, inputs) && n <= |inputs| && start.alive
    ensures TxAfter(setup, start, inputs, n).alive
    ensures n < |inputs| ==> TickStart(setup, start, inputs, n).alive
    ensures forall i :: 0 <= i < |setup.configs| ==>
              (EntryOf(TxAfter(setup, start, inputs, n).streams, setup.configs[i]).Some? <==>
               EntryOf(start.streams, setup.configs[i]).Some?)
  {
    if n > 0 {
      StaysAlive(setup, start, inputs, n - 1);
      RunStep(setup, start, inputs, n - 1);
      var tx := TickStart(setup, start, inputs, n - 1);
      TurnsServe(setup, tx, inputs[n - 1], |setup.configs|);
      forall i: nat | i < |setup.configs|
        ensures EntryOf(TxAfter(setup, start, inputs, n).streams, setup.configs[i]).Some? <==>
                EntryOf(start.streams, setup.configs[i]).Some?
      {
        assert Served(setup, tx, inputs[n - 1], |setup.configs|, i);
      }
    }
  }

  /** One tick seen from one stream. */
  lemma OneTick(setup: Setup, start: Tx, inputs: seq<TickInput>, n: nat, i: nat)
    requires setup.Valid() && setup.Sendables() && AllAccepted(setup, inputs) && n < |inputs| && i < |setup.configs|
    requires start.alive
    ensures AllAccepted(setup, inputs[..n]) && setup.Accepts(inputs[n])
    ensures LastAfter(setup, start, inputs, n + 1, i) ==
            if DueAt(setup, start, inputs, n, i) then Some(inputs[n].clocks[i].now)
            else LastOf(TickStart(setup, start, inputs, n).lastSent, setup.configs[i])
  {
    RunStep(setup, start, inputs, n);
    StaysAlive(setup, start, inputs, n);
    var tx := TickStart(setup, start, inputs, n);
    TurnsServe(setup, tx, inputs[n], |setup.configs|);
    assert Served(setup, tx, inputs[n], |setup.configs|, i);
  }

  /** Under the ideal clock every tick but the first starts from what the one before left. */
  lemma IdealStart(setup: Setup, start: Tx, inputs: seq<TickInput>, base: nat, state: DeviceState, n: nat)
    requires AllAccepted(setup, inputs) && n < |inputs| && Ideal(inputs, base, state)
    ensures TickStart(setup, start, inputs, n) ==
            if n == 0 then start.(lastSent := map[]) else TxAfter(setup, start, inputs, n)
    ensures setup.Accepts(inputs[n]) && StandsAt(inputs[n], TickTime(n, base))
  {
    AcceptedPrefix(setup, inputs, n);
    if n > 0 {
      RunStep(setup, start, inputs, n - 1);
      assert inputs[n - 1].state == state == inputs[n].state;
    }
  }

  /** An ideal sender: it starts alive, and its clock ticks at `base` in one state. */
  ghost predicate IdealRun(setup: Setup, start: Tx, inputs: seq<TickInput>, base: nat, state: DeviceState) {
    && setup.Valid() && setup.Sendables() && AllAccepted(setup, inputs) && start.alive
    && Ideal(inputs, base, state) && base > 0
  }

  lemma FirstTick(setup: Setup, start: Tx, inputs: seq<TickInput>, base: nat, state: DeviceState, i: nat)
    requires IdealRun(setup, start, inputs, base, state) && 0 < |inputs| && i < |setup.configs|
    ensures DueAt(setup, start, inputs, 0, i)
    ensures LastAfter(setup, start, inputs, 1, i) == Some(TickTime(0, base))
  {
    IdealStart(setup, start, inputs, base, state, 0);
    OneTick(setup, start, inputs, 0, i);
  }

  lemma LaterTick(
    setup: Setup, start: Tx, inputs: seq<TickInput>, base: nat, state: DeviceState, n: nat, i: nat, last: u64)
    requires IdealRun(setup, start, inputs, base, state) && 0 < n < |inputs| && i < |setup.configs|
    requires LastAfter(setup, start, inputs, n, i) == Some(last)
    ensures DueAt(setup, start, inputs, n, i) <==> TickTime(n, base) - last >= CycleTime(setup.configs[i])
    ensures LastAfter(setup, start, inputs, n + 1, i) ==
            Some(if DueAt(setup, start, inputs, n, i) then TickTime(n, base) else last)
  {
    IdealStart(setup, start, inputs, base, state, n);
    OneTick(setup, start, inputs, n, i);
  }

  /** After tick `n` the stream was last sent at its latest multiple of the cycle. */
  lemma {:induction false} LastMultiple(
    setup: Setup, start: Tx, inputs: seq<TickInput>, base: nat, state: DeviceState, q: nat, n: nat, i: nat)
    requires IdealRun(setup, start, inputs, base, state) && n < |inputs| && i < |setup.configs|
    requires q > 0 && CycleTime(setup.configs[i]) == TickTime(q, base)
    ensures DueAt(setup, start, inputs, n, i) <==> n % q == 0
    ensures LastAfter(setup, start, inputs, n + 1, i) == Some(LatestMultiple(n, q, base))
    decreases n
  {
    if n == 0 {
      FirstTick(setup, start, inputs, base, state, i);
    } else {
      LastMultiple(setup, start, inputs, base, state, q, n - 1, i);
      LaterTick(setup, start, inputs, base, state, n, i, LatestMultiple(n - 1, q, base));
      DueArithmetic(n - 1, q, base);
    }
  }

  /** A stream without a cycle time is due in every tick. */
  lemma {:induction false} NoCycleTime(
    setup: Setup, start: Tx, inputs: seq<TickInput>, base: nat, state: DeviceState, n: nat, i: nat)
    requires IdealRun(setup, start, inputs, base, state) && n < |inputs| && i < |setup.configs|
    requires CycleTime(setup.configs[i]) == 1
    ensures DueAt(setup, start, inputs, n, i)
    ensures LastAfter(setup, start, inputs, n + 1, i) == Some(TickTime(n, base))
    decreases n
  {
    if n == 0 {
      FirstTick(setup, start, inputs, base, state, i);
    } else {
      NoCycleTime(setup, start, inputs, base, state, n - 1, i);
      LaterTick(setup, start, inputs, base, state, n, i, TickTime(n - 1, base));
      TickDistance(n - 1, n, base);
    }
  }

  /** A stream is due in tick `n` exactly when its cycle time divides the elapsed time. */
  lemma DueIffMultiple(setup: Setup, start: Tx, inputs: seq<TickInput>, base: nat, state: DeviceState, n: nat, i: nat)
    requires IdealRun(setup, start, inputs, base, state) && n < |inputs| && i < |setup.configs|
    requires setup.configs[i].cycleTimeNano > 0 ==> Divides(base, setup.configs[i].cycleTimeNano)
    ensures DueAt(setup, start, inputs, n, i) <==> Divides(CycleTime(setup.configs[i]), n * base)
  {
    var c := setup.configs[i].cycleTimeNano;
    if c > 0 {
      var q: nat :| IsProduct(c, q, base);
      assert q > 0 && CycleTime(setup.configs[i]) == TickTime(q, base);
      LastMultiple(setup, start, inputs, base, state, q, n, i);
      MultiplesAgree(n, q, base, c);
    } else {
      NoCycleTime(setup, start, inputs, base, state, n, i);
      assert IsProduct(n * base, n * base, 1);
    }
  }

  /** From one send to the next, `q` ticks pass. */
  lemma WholeCycle(n: nat, q: nat, base: nat)
    requires q > 0 && (n + 1) % q == 0
    ensures TickTime(n + 1, base) - LatestMultiple(n, q, base) == TickTime(q, base)
  {
    LatestMultipleIs(n, q, base);
    NextMultiple(n, q);
    CycleApart(n / q * q, n, q, base);
  }

  lemma CycleApart(latest: nat, n: nat, q: nat, base: nat)
    requires n + 1 == latest + q
    ensures TickTime(n + 1, base) - TickTime(latest, base) == TickTime(q, base)
  {
    TickDistance(latest, n + 1, base);
  }

  /** The time between two sends of a stream under the ideal clock: its cycle time, or a tick when it has none. */
  function Period(c: StreamConfig, base: nat): nat {
    if c.cycleTimeNano > 0 then c.cycleTimeNano else base
  }

  /** What is recorded for stream `i` in tick `n` of an ideal run. */
  lemma IdealInterval(setup: Setup, start: Tx, inputs: seq<TickInput>, base: nat, state: DeviceState, n: nat, i: nat)
    requires IdealRun(setup, start, inputs, base, state) && n < |inputs| && i < |setup.configs|
    requires setup.configs[i].cycleTimeNano > 0 ==> Divides(base, setup.configs[i].cycleTimeNano)
    ensures setup.Accepts(inputs[n])
    ensures var r, c := OwnInterval(setup, TickStart(setup, start, inputs, n), inputs[n], i), setup.configs[i];
            if state == Op && n > 0 && Divides(CycleTime(c), n * base) then
              |r| == 1 && r[0].config == c && r[0].nanos == Period(c, base)
            else r == []
  {
    IdealStart(setup, start, inputs, base, state, n);
    DueIffMultiple(setup, start, inputs, base, state, n, i);
    var c := setup.configs[i].cycleTimeNano;
    if n > 0 && c > 0 {
      var q: nat :| IsProduct(c, q, base);
      assert q > 0 && CycleTime(setup.configs[i]) == TickTime(q, base);
      LastMultiple(setup, start, inputs, base, state, q, n, i);
      LastMultiple(setup, start, inputs, base, state, q, n - 1, i);
      if n % q == 0 { WholeCycle(n - 1, q, base); }
    } else if n > 0 {
      NoCycleTime(setup, start, inputs, base, state, n - 1, i);
      TickDistance(n - 1, n, base);
    }
  }

  /** Intervals of the first `k` streams that are marked, one period each. */
  ghost predicate PeriodsOf(r: seq<Interval>, setup: Setup, which: seq<bool>, base: nat, k: nat)
    requires k <= |setup.configs| == |which|
    decreases k
  {
    if k == 0 then r == []
    else if which[k - 1] then
      && r != [] && r[|r| - 1].config == setup.configs[k - 1]
      && r[|r| - 1].nanos == Period(setup.configs[k - 1], base)
      && PeriodsOf(r[..|r| - 1], setup, which, base, k - 1)
    else PeriodsOf(r, setup, which, base, k - 1)
  }

  lemma PeriodsSnoc(front: seq<Interval>, own: seq<Interval>, setup: Setup, which: seq<bool>, base: nat, k: nat)
    requires 0 < k <= |setup.configs| == |which| && PeriodsOf(front, setup, which, base, k - 1)
    requires if which[k - 1] then |own| == 1 && own[0].config == setup.configs[k - 1]
                                  && own[0].nanos == Period(setup.configs[k - 1], base)
             else own == []
    ensures PeriodsOf(front + own, setup, which, base, k)
  {
    if which[k - 1] { assert (front + own)[..|front|] == front; } else { assert front + own == front; }
  }

  /** What the first `k` turns of tick `n` record in an ideal run: nothing, or one period each. */
  ghost predicate IdealRecord(r: seq<Interval>, setup: Setup, base: nat, state: DeviceState, n: nat, k: nat)
    requires k <= |setup.configs|
  {
    if state == Op && n > 0 then PeriodsOf(r, setup, Multiples(setup, n * base), base, k) else r == []
  }

  lemma IdealStep(
    setup: Setup, start: Tx, inputs: seq<TickInput>, base: nat, state: DeviceState, n: nat, k: nat,
    front: seq<Interval>, r: seq<Interval>)
    requires IdealRun(setup, start, inputs, base, state) && n < |inputs| && k < |setup.configs|
    requires DividesPositives(base, CycleTimes(setup.configs)) && setup.Accepts(inputs[n])
    requires IdealRecord(front, setup, base, state, n, k)
    requires r == front + OwnInterval(setup, TickStart(setup, start, inputs, n), inputs[n], k)
    ensures IdealRecord(r, setup, base, state, n, k + 1)
  {
    assert CycleTimes(setup.configs)[k] == setup.configs[k].cycleTimeNano;
    IdealInterval(setup, start, inputs, base, state, n, k);
    if state == Op && n > 0 {
      var own := OwnInterval(setup, TickStart(setup, start, inputs, n), inputs[n], k);
      PeriodsSnoc(front, own, setup, Multiples(setup, n * base), base, k + 1);
    }
  }

  lemma {:induction false} IdealIntervals(
    setup: Setup, start: Tx, inputs: seq<TickInput>, base: nat, state: DeviceState, n: nat, k: nat)
    requires IdealRun(setup, start, inputs, base, state) && n < |inputs| && k <= |setup.configs|
    requires DividesPositives(base, CycleTimes(setup.configs)) && setup.Accepts(inputs[n])
    ensures IdealRecord(OwnIntervals(setup, TickStart(setup, start, inputs, n), inputs[n], k), setup, base, state, n, k)
  {
    if k > 0 {
      IdealIntervals(setup, start, inputs, base, state, n, k - 1);
      var tx := TickStart(setup, start, inputs, n);
      IdealStep(setup, start, inputs, base, state, n, k - 1,
                OwnIntervals(setup, tx, inputs[n], k - 1), OwnIntervals(setup, tx, inputs[n], k));
    }
  }

  /**
   With an ideal clock in Op every send but a stream's first is recorded, with exactly the
   stream's cycle time; in SafeOp nothing is recorded.
   */
  lemma RecordedExactly(
    setup: Setup, start: Tx, inputs: seq<TickInput>, base: nat, state: DeviceState, n: nat)
    requires IdealRun(setup, start, inputs, base, state) && n < |inputs|
    requires DividesPositives(base, CycleTimes(setup.configs))
    ensures var before := TxAfter(setup, start, inputs, n).recorded;
            var after := TxAfter(setup, start, inputs, n + 1).recorded;
            && before <= after
            && (if state == Op && n > 0 then
                  PeriodsOf(after[|before|..], setup, Multiples(setup, n * base), base, |setup.configs|)
                else after == before)
  {
    RunStep(setup, start, inputs, n);
    StaysAlive(setup, start, inputs, n);
    var tx := TickStart(setup, start, inputs, n);
    TurnsRecord(setup, tx, inputs[n], |setup.configs|);
    IdealIntervals(setup, start, inputs, base, state, n, |setup.configs|);
    var before, r := tx.recorded, OwnIntervals(setup, tx, inputs[n], |setup.configs|);
    assert (before + r)[|before|..] == r;
  }

  /** After a change of state every stream is sent at once. */
  lemma ChangeSendsAll(setup: Setup, start: Tx, inputs: seq<TickInput>, n: nat, i: nat)
    requires AllAccepted(setup, inputs) && 0 < n < |inputs| && i < |setup.configs|
    requires inputs[n].state != inputs[n - 1].state
    ensures DueAt(setup, start, inputs, n, i)
  {
    RunStep(setup, start, inputs, n - 1);
  }

  /** Which streams have a cycle time that divides the elapsed time. */
  ghost function Multiples(setup: Setup, time: nat): (r: seq<bool>)
    ensures |r| == |setup.configs|
    ensures forall i :: 0 <= i < |r| ==> r[i] == Divides(CycleTime(setup.configs[i]), time)
  {
    seq(|setup.configs|, i requires 0 <= i < |setup.configs| => Divides(CycleTime(setup.configs[i]), time))
  }

  lemma TickIsMultiples(setup: Setup, start: Tx, inputs: seq<TickInput>, base: nat, state: DeviceState, n: nat)
    requires IdealRun(setup, start, inputs, base, state) && n < |inputs|
    requires DividesPositives(base, CycleTimes(setup.configs))
    ensures setup.Accepts(inputs[n])
    ensures DueFlags(setup, TickStart(setup, start, inputs, n), inputs[n]) == Multiples(setup, n * base)
  {
    IdealStart(setup, start, inputs, base, state, n);
    var flags := DueFlags(setup, TickStart(setup, start, inputs, n), inputs[n]);
    forall i: nat | i < |setup.configs| ensures flags[i] == Multiples(setup, n * base)[i] {
      assert CycleTimes(setup.configs)[i] == setup.configs[i].cycleTimeNano;
      DueIffMultiple(setup, start, inputs, base, state, n, i);
    }
  }

  /**
   In an unchanged Op or SafeOp state with an ideal clock ticking at the base cycle: the frames
   that leave in tick `n` are exactly one of each stream whose cycle time divides the elapsed
   time, in the order of the streams, unless the channel refuses it, and exactly those streams'
   counters move on. A stream without a cycle time leaves in every tick.
   */
  lemma SentExactlyAtMultiples(
    setup: Setup, start: Tx, inputs: seq<TickInput>, base: nat, state: DeviceState, n: nat)
    requires IdealRun(setup, start, inputs, base, state) && n < |inputs|
    requires DividesPositives(base, CycleTimes(setup.configs))
    requires forall i :: 0 <= i < |setup.configs| ==> EntryOf(start.streams, setup.configs[i]).Some?
    ensures setup.Accepts(inputs[n])
    ensures var before, after := TxAfter(setup, start, inputs, n), TxAfter(setup, start, inputs, n + 1);
            && after.frames == before.frames
                               + FramesWhere(setup, before.streams, inputs[n], Multiples(setup, n * base),
                                             |setup.configs|)
            && forall i :: 0 <= i < |setup.configs| ==>
                 && (|FrameFor(setup, before.streams, inputs[n], i)| == 1 <==> inputs[n].clocks[i].channelOk)
                 && EntryOf(after.streams, setup.configs[i]) ==
                    if Divides(CycleTime(setup.configs[i]), n * base)
                    then Advanced(EntryOf(before.streams, setup.configs[i]))
                    else EntryOf(before.streams, setup.configs[i])
  {
    RunStep(setup, start, inputs, n);
    StaysAlive(setup, start, inputs, n);
    TickIsMultiples(setup, start, inputs, base, state, n);
    var tx := TickStart(setup, start, inputs, n);
    assert tx.streams == TxAfter(setup, start, inputs, n).streams
           && tx.frames == TxAfter(setup, start, inputs, n).frames;
    TurnsServe(setup, tx, inputs[n], |setup.configs|);
    TurnsFrames(setup, tx, inputs[n], |setup.configs|);
    forall i: nat | i < |setup.configs|
      ensures |FrameFor(setup, tx.streams, inputs[n], i)| == 1 <==> inputs[n].clocks[i].channelOk
      ensures EntryOf(TxAfter(setup, start, inputs, n + 1).streams, setup.configs[i]) ==
              if Divides(CycleTime(setup.configs[i]), n * base)
              then Advanced(EntryOf(tx.streams, setup.configs[i])) else EntryOf(tx.streams, setup.configs[i])
    {
      OneFrame(setup, tx.streams, inputs[n], i);
      assert Served(setup, tx, inputs[n], |setup.configs|, i);
      assert DueFlags(setup, tx, inputs[n])[i] == Multiples(setup, n * base)[i];
    }
  }

  /** Counting in ticks and in nanoseconds comes to the same. */
  lemma MultiplesAgree(n: nat, q: nat, base: nat, c: nat)
    requires q > 0 && base > 0 && c == q * base
    ensures n % q == 0 <==> Divides(c, n * base)
  {
    if n % q == 0 {
      var m := n / q;
      assert n == m * q;
      assert n * base == m * (q * base);
      assert IsProduct(n * base, m, c);
    }
    if Divides(c, n * base) {
      var m: nat :| IsProduct(n * base, m, c);
      assert m * (q * base) == m * q * base;
      SameFactor(n, m * q, base);
      QuotientRemainder(n, q, m, 0);
    }
  }

  lemma SameFactor(a: nat, b: nat, base: nat)
    requires base > 0 && a * base == b * base
    ensures a == b
  {
  }

  /** Never late: every multiple of the cycle time falls on a tick. */
  lemma EveryMultipleIsATick(base: nat, c: nat, m: nat)
    requires Divides(base, c)
    ensures exists j: nat :: IsProduct(m * c, j, base)
  {
    var q: nat :| IsProduct(c, q, base);
    assert m * (q * base) == m * q * base;
    assert IsProduct(m * c, m * q, base);
  }
}
