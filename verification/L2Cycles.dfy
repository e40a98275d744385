/** The missed-cycle count over whole runs of the data plane. */
module L2Cycles {
  import opened Types
  import opened L2Frame
  import opened Crypto
  import opened StreamStore
  import opened CycleCounter
  import opened L2Receiver
  import opened L2Network
  import opened L2Safety
  import opened L2Running

  // ---------- the history behind the count ----------

  /** For each stream the send whose stamp the receiver remembers. */
  type Memory = map<u16, nat>

  /** The event is an acceptance, at node `n`, of a frame without error status. */
  ghost predicate CleanAt(mac: KeyedMac, net: Net, e: Event, n: NodeId) {
    && e.Deliver? && e.node == n && n in net.nodes
    && Received(mac, net.nodes[n], e.state, e.frame).outcome.Accepted?
    && Authentic(mac, e.frame).Some? && Authentic(mac, e.frame).value.header.status == NoError.Code()
  }

  /** What is remembered before the frame of an event is looked at: restarts and changes of state forget. */
  ghost function Kept(w: Watch, e: Event, n: NodeId, memory: Memory): Memory {
    if e == Restart(n) then map[]
    else if e.Deliver? && e.node == n && w.runs && w.seen != Some(e.state) then map[]
    else memory
  }

  ghost function NextMemory(mac: KeyedMac, net: Net, w: Watch, e: Event, n: NodeId, memory: Memory): Memory
    requires n in net.nodes
  {
    var kept := Kept(w, e, n, memory);
    if CleanAt(mac, net, e, n) then kept[Authentic(mac, e.frame).value.header.streamId := e.origin] else kept
  }

  /** The event compares the stamps of two sends, `k` before and its own, on stream `id`. */
  ghost predicate Compares(mac: KeyedMac, net: Net, w: Watch, e: Event, n: NodeId, memory: Memory, id: u16, k: nat)
    requires n in net.nodes
  {
    && CleanAt(mac, net, e, n) && Authentic(mac, e.frame).value.header.streamId == id
    && id in Kept(w, e, n, memory) && Kept(w, e, n, memory)[id] == k
    && k < |net.sent| && e.origin < |net.sent| && id in net.nodes[n].streamMap
  }

  /** What the comparison, if there is one, reports as missed. */
  ghost function Report(mac: KeyedMac, net: Net, w: Watch, e: Event, n: NodeId, memory: Memory): nat
    requires n in net.nodes
  {
    if CleanAt(mac, net, e, n) then
      var id := Authentic(mac, e.frame).value.header.streamId;
      var kept := Kept(w, e, n, memory);
      if id in kept && Compares(mac, net, w, e, n, memory, id, kept[id]) then
        LossBetween(net.sent[kept[id]].wallNanos, net.sent[e.origin].wallNanos,
                    net.nodes[n].streamMap[id].cycleTimeNano)
      else 0
    else 0
  }

  /** The cycles reported as missed between two sends at these clock values. */
  function LossBetween(nanos1: nat, nanos2: nat, c: u32): nat {
    match MissedCycles(Stamp(Ticks(nanos1)), Stamp(Ticks(nanos2)), c)
    case None => 0
    case Some(m) => m
  }

  ghost function NextTotal(mac: KeyedMac, net: Net, w: Watch, e: Event, n: NodeId, memory: Memory, total: nat): nat
    requires n in net.nodes
  {
    if e.Restart? && e.node == n && net.nodes[n].role.MasterRole? then 0
    else total + Report(mac, net, w, e, n, memory)
  }

  /**
   After a run: the sends that node `n` remembers, and the sum of what it reported as missed
   between consecutive clean acceptances, on the master since its last restart.
   */
  ghost function History(mac: KeyedMac, net: Net, events: seq<Event>, n: NodeId): (Memory, nat)
    requires Legal(mac, net, events) && n in net.nodes
    decreases |events|
  {
    if events == [] then (map[], 0)
    else
      var l := |events| - 1;
      var before := Exec(mac, net, events[..l]);
      var w := WatchOf(events[..l], n);
      var (memory, total) := History(mac, net, events[..l], n);
      ExecNodes(mac, net, events[..l], n);
      (NextMemory(mac, before, w, events[l], n, memory), NextTotal(mac, before, w, events[l], n, memory, total))
  }

  /** The count is the capped sum, the stamps are those of the remembered sends. */
  ghost predicate CountOk(net: Net, n: NodeId, memory: Memory, total: nat)
    requires n in net.nodes
  {
    var l := net.nodes[n].local;
    && l.missedCycles == Min(total, if net.nodes[n].role.SlaveRole? then 0xFFFF_FFFF else 0xFFFF_FFFF_FFFF_FFFF)
    && (total == 0 ==> l.statusCode != ErrCycleCounter)
    && l.lastCycleCounter.Keys == memory.Keys
    && forall id :: id in memory ==>
         && memory[id] < |net.sent| && net.sent[memory[id]].header.streamId == id
         && l.lastCycleCounter[id] == Stamp(Ticks(net.sent[memory[id]].wallNanos))
  }

  // ---------- steps ----------

  /** `l'` comes from `l` without a cycle check. */
  ghost predicate Unchecked(l: Local, l': Local) {
    && l'.missedCycles == l.missedCycles && (l'.statusCode == ErrCycleCounter ==> l.statusCode == ErrCycleCounter)
    && l'.lastCycleCounter == l.lastCycleCounter
  }

  /** `l'` comes from `l` with the cycle check of a clean frame. */
  ghost predicate Checked(role: Role, streamMap: map<u16, StreamConfig>, l: Local, p: ParsedL2Frame, l': Local) {
    && p.header.streamId in streamMap
    && var l1 := CheckCycle(role, l, p.header.streamId, p.header.cycleCounter,
                            streamMap[p.header.streamId].cycleTimeNano);
    && l'.lastCycleCounter == l1.lastCycleCounter && l'.missedCycles == l1.missedCycles
    && (l'.statusCode == ErrCycleCounter ==> l1.statusCode == ErrCycleCounter)
  }

  lemma ParsedCases(
    mac: KeyedMac, role: Role, streamMap: map<u16, StreamConfig>, streams: Streams, l: Local, input: Bytes,
    p: ParsedL2Frame)
    ensures var step := ReceiveParsed(mac, role, streamMap, streams, l, input, p);
            if step.outcome.Accepted? && p.header.status == NoError.Code()
            then Checked(role, streamMap, l, p, step.local)
            else Unchecked(l, step.local)
  {
  }

  /** Only a clean acceptance touches the cycle check. */
  lemma FrameCases(
    mac: KeyedMac, role: Role, streamMap: map<u16, StreamConfig>, streams: Streams, l: Local, input: Bytes,
    frame: Bytes)
    ensures var step := ReceiveFrame(mac, role, streamMap, streams, l, input, frame);
            var p := Authentic(mac, Some(frame));
            if step.outcome.Accepted? && p.Some? && p.value.header.status == NoError.Code()
            then Checked(role, streamMap, l, p.value, step.local)
            else Unchecked(l, step.local)
  {
    match ParseL2Frame(frame)
    case Ok(p) => ParsedCases(mac, role, streamMap, streams, l, input, p);
    case Err(_) =>
  }

  lemma StampOfSend(net: Net, k: nat)
    requires k < |net.sent| && SentOk(net, k)
    ensures net.sent[k].header.cycleCounter == Stamp(Ticks(net.sent[k].wallNanos))
  {
  }

  lemma ReportsAreVisible(nanos1: nat, nanos2: nat, c: u32)
    ensures MissedCycles(Stamp(Ticks(nanos1)), Stamp(Ticks(nanos2)), c).Some? <==> LossBetween(nanos1, nanos2, c) > 0
  {
    GapReport(Ticks(nanos1), Ticks(nanos2), c);
    var g := Gap(Ticks(nanos1), Ticks(nanos2), c);
    if g > 0 { Divided(g + TicksPerCycle(c) - 1, TicksPerCycle(c)); }
  }

  /** Saturating step by step or once at the end comes to the same. */
  lemma CappedSum(total: nat, m: nat, cap: nat)
    ensures Min(Min(total, cap) + m, cap) == Min(total + m, cap)
  {
  }

  /** The cycle check against a remembered send. */
  lemma CheckAgainst(role: Role, l: Local, id: u16, nanos1: nat, nanos2: nat, c: u32, total: nat)
    requires id in l.lastCycleCounter && l.lastCycleCounter[id] == Stamp(Ticks(nanos1))
    requires l.missedCycles == Min(total, MissedCap(role)) && (total == 0 ==> l.statusCode != ErrCycleCounter)
    ensures var l', total' := CheckCycle(role, l, id, Stamp(Ticks(nanos2)), c), total + LossBetween(nanos1, nanos2, c);
            && l'.missedCycles == Min(total', MissedCap(role)) && (total' == 0 ==> l'.statusCode != ErrCycleCounter)
            && l'.lastCycleCounter == l.lastCycleCounter[id := Stamp(Ticks(nanos2))]
  {
    ReportsAreVisible(nanos1, nanos2, c);
    CappedSum(total, LossBetween(nanos1, nanos2, c), MissedCap(role));
  }

  /** The receiver is as watched. */
  predicate Watches(w: Watch, l: Local) {
    w == Watch(l.running, l.previousState)
  }

  /** The local variables when the frame is looked at, in terms of what is kept. */
  ghost predicate EnteredOk(net: Net, n: NodeId, l: Local, kept: Memory, total: nat)
    requires n in net.nodes
  {
    && l.missedCycles == Min(total, MissedCap(net.nodes[n].role)) && (total == 0 ==> l.statusCode != ErrCycleCounter)
    && l.lastCycleCounter.Keys == kept.Keys
    && forall id :: id in kept ==>
         && kept[id] < |net.sent| && net.sent[kept[id]].header.streamId == id
         && l.lastCycleCounter[id] == Stamp(Ticks(net.sent[kept[id]].wallNanos))
  }

  /** A clean acceptance of send `origin` on stream `id`. */
  lemma CleanStep(
    net: Net, n: NodeId, l: Local, kept: Memory, total: nat, p: ParsedL2Frame, origin: nat, l': Local)
    requires n in net.nodes && EnteredOk(net, n, l, kept, total)
    requires origin < |net.sent| && SentOk(net, origin) && p.header == net.sent[origin].header
    requires p.header.streamId in net.nodes[n].streamMap
    requires Checked(net.nodes[n].role, net.nodes[n].streamMap, l, p, l')
    ensures var id, c := p.header.streamId, net.nodes[n].streamMap[p.header.streamId].cycleTimeNano;
            var report :=
              if id in kept then LossBetween(net.sent[kept[id]].wallNanos, net.sent[origin].wallNanos, c) else 0;
            EnteredOk(net, n, l', kept[id := origin], total + report)
  {
    StampOfSend(net, origin);
    var id, c := p.header.streamId, net.nodes[n].streamMap[p.header.streamId].cycleTimeNano;
    if id in kept {
      CheckAgainst(net.nodes[n].role, l, id, net.sent[kept[id]].wallNanos, net.sent[origin].wallNanos, c, total);
    }
  }

  lemma EnterKeeps(net: Net, w: Watch, n: NodeId, e: Event, memory: Memory, total: nat)
    requires n in net.nodes && CountOk(net, n, memory, total) && e.Deliver? && e.node == n && net.nodes[n].local.running
    requires Watches(w, net.nodes[n].local)
    ensures EnteredOk(net, n, Enter(net.nodes[n].local, e.state), Kept(w, e, n, memory), total)
  {
  }

  /** A delivery at node `n` that is not a clean acceptance leaves the count alone and remembers what is kept. */
  lemma UnclearStep(mac: KeyedMac, nd: Node, state: DeviceState, frame: Option<Bytes>)
    requires !(&& Received(mac, nd, state, frame).outcome.Accepted?
               && Authentic(mac, frame).Some? && Authentic(mac, frame).value.header.status == NoError.Code())
    ensures Unchecked(if nd.local.running then Enter(nd.local, state) else nd.local,
                      Received(mac, nd, state, frame).local)
  {
    if nd.local.running && GateOf(nd.role, state) == Process && frame.Some? {
      FrameCases(mac, nd.role, nd.streamMap, nd.streams, Enter(nd.local, state), nd.input, frame.value);
    }
  }

  /** What is known of a clean acceptance. */
  lemma CleanFacts(mac: KeyedMac, net: Net, e: Event, n: NodeId)
    requires Static(net) && Enabled(mac, net, e) && CleanAt(mac, net, e, n)
    ensures var nd, p := net.nodes[n], Authentic(mac, e.frame).value;
            && nd.local.running && e.origin < |net.sent| && p.header == net.sent[e.origin].header
            && p.header.streamId in nd.streamMap
            && Checked(nd.role, nd.streamMap, Enter(nd.local, e.state), p, Received(mac, nd, e.state, e.frame).local)
  {
    var nd := net.nodes[n];
    assert WellFormed(nd);
    ReceiveCases(mac, nd, e.state, e.frame);
    FrameCases(mac, nd.role, nd.streamMap, nd.streams, Enter(nd.local, e.state), nd.input, e.frame.value);
  }

  /** A delivery changes only its own node, and no send. */
  lemma DeliverFrame(mac: KeyedMac, net: Net, e: Event)
    requires Enabled(mac, net, e) && e.Deliver?
    ensures var net' := Next(mac, net, e);
            && e.node in net'.nodes && net'.sent == net.sent && net'.nodes[e.node].role == net.nodes[e.node].role
            && net'.nodes[e.node].local == Received(mac, net.nodes[e.node], e.state, e.frame).local
  {
  }

  /** The system after a clean acceptance of send `origin`, in terms of the new history. */
  lemma CleanShape(
    net: Net, net': Net, n: NodeId, l: Local, kept: Memory, total: nat, p: ParsedL2Frame, origin: nat,
    memory': Memory, total': nat)
    requires n in net.nodes && n in net'.nodes && net'.sent == net.sent && net'.nodes[n].role == net.nodes[n].role
    requires EnteredOk(net, n, l, kept, total)
    requires origin < |net.sent| && SentOk(net, origin) && p.header == net.sent[origin].header
    requires p.header.streamId in net.nodes[n].streamMap
    requires Checked(net.nodes[n].role, net.nodes[n].streamMap, l, p, net'.nodes[n].local)
    requires memory' == kept[p.header.streamId := origin]
    requires var id, c := p.header.streamId, net.nodes[n].streamMap[p.header.streamId].cycleTimeNano;
             var report :=
               if id in kept then LossBetween(net.sent[kept[id]].wallNanos, net.sent[origin].wallNanos, c) else 0;
             total' == total + report
    ensures CountOk(net', n, memory', total')
  {
    CleanStep(net, n, l, kept, total, p, origin, net'.nodes[n].local);
  }

  /** The new history after a clean acceptance. */
  lemma CleanHistory(
    mac: KeyedMac, net: Net, w: Watch, e: Event, n: NodeId, memory: Memory, total: nat, id: u16, kept: Memory)
    requires n in net.nodes && CleanAt(mac, net, e, n) && id == Authentic(mac, e.frame).value.header.streamId
    requires e.origin < |net.sent| && id in net.nodes[n].streamMap
    requires kept == Kept(w, e, n, memory) && (id in kept ==> kept[id] < |net.sent|)
    ensures NextMemory(mac, net, w, e, n, memory) == kept[id := e.origin]
    ensures var c := net.nodes[n].streamMap[id].cycleTimeNano;
            NextTotal(mac, net, w, e, n, memory, total) ==
            total + if id in kept then LossBetween(net.sent[kept[id]].wallNanos, net.sent[e.origin].wallNanos, c) else 0
  {
  }

  lemma CleanCount(mac: KeyedMac, net: Net, w: Watch, e: Event, n: NodeId, memory: Memory, total: nat)
    requires Static(net) && Enabled(mac, net, e) && CleanAt(mac, net, e, n) && CountOk(net, n, memory, total)
    requires e.origin < |net.sent| ==> SentOk(net, e.origin)
    requires Watches(w, net.nodes[n].local)
    ensures n in Next(mac, net, e).nodes
    ensures CountOk(Next(mac, net, e), n, NextMemory(mac, net, w, e, n, memory),
                    NextTotal(mac, net, w, e, n, memory, total))
  {
    var p, kept := Authentic(mac, e.frame).value, Kept(w, e, n, memory);
    CleanFacts(mac, net, e, n);
    EnterKeeps(net, w, n, e, memory, total);
    CleanHistory(mac, net, w, e, n, memory, total, p.header.streamId, kept);
    DeliverFrame(mac, net, e);
    CleanShape(net, Next(mac, net, e), n, Enter(net.nodes[n].local, e.state), kept, total, p, e.origin,
               NextMemory(mac, net, w, e, n, memory), NextTotal(mac, net, w, e, n, memory, total));
  }

  lemma UnclearCount(mac: KeyedMac, net: Net, w: Watch, e: Event, n: NodeId, memory: Memory, total: nat)
    requires Enabled(mac, net, e) && e.Deliver? && e.node == n && !CleanAt(mac, net, e, n)
    requires CountOk(net, n, memory, total)
    requires Watches(w, net.nodes[n].local)
    ensures n in Next(mac, net, e).nodes
    ensures CountOk(Next(mac, net, e), n, NextMemory(mac, net, w, e, n, memory),
                    NextTotal(mac, net, w, e, n, memory, total))
  {
    if net.nodes[n].local.running { EnterKeeps(net, w, n, e, memory, total); }
    UnclearStep(mac, net.nodes[n], e.state, e.frame);
  }

  /** Steps that do not concern the receiver of node `n`, and its restarts. */
  lemma OtherCount(mac: KeyedMac, net: Net, w: Watch, e: Event, n: NodeId, memory: Memory, total: nat)
    requires Enabled(mac, net, e) && n in net.nodes && !(e.Deliver? && e.node == n) && CountOk(net, n, memory, total)
    requires Watches(w, net.nodes[n].local)
    ensures n in Next(mac, net, e).nodes
    ensures CountOk(Next(mac, net, e), n, NextMemory(mac, net, w, e, n, memory),
                    NextTotal(mac, net, w, e, n, memory, total))
  {
  }

  /**
   Over every run: the count of missed cycles is the sum of what the cycle check reports
   between consecutive clean acceptances, as told by the clock values at which those frames
   were sent, capped at the counter's width.
   */
  lemma {:induction false} MissedCyclesAreSum(mac: KeyedMac, net: Net, events: seq<Event>, n: NodeId)
    requires Initial(net) && Legal(mac, net, events)
    requires n in net.nodes && net.nodes[n].local == START
    ensures n in Exec(mac, net, events).nodes
    ensures CountOk(Exec(mac, net, events), n, History(mac, net, events, n).0, History(mac, net, events, n).1)
    decreases |events|
  {
    if events != [] {
      var l := |events| - 1;
      var before, e := Exec(mac, net, events[..l]), events[l];
      var w := WatchOf(events[..l], n);
      var (memory, total) := History(mac, net, events[..l], n);
      WatchIs(mac, net, events[..l], n);
      InitialInv(net);
      ExecInv(mac, net, events[..l]);
      MissedCyclesAreSum(mac, net, events[..l], n);
      if CleanAt(mac, before, e, n) {
        assert e.origin < |before.sent| ==> SentOk(before, e.origin);
        CleanCount(mac, before, w, e, n, memory, total);
      } else if e.Deliver? && e.node == n {
        UnclearCount(mac, before, w, e, n, memory, total);
      } else {
        OtherCount(mac, before, w, e, n, memory, total);
      }
    }
  }

  // ---------- streams in step ----------

  /** Sent exactly one or two cycles apart, by the clock or in nominal ticks: at most one loss. */
  ghost predicate OnTime(nanos1: nat, nanos2: nat, c: u32) {
    || nanos2 == nanos1 + c
    || (c >= 250_000 && nanos2 == nanos1 + 2 * c)
    || (c >= 250_000 && Ticks(nanos2) - Ticks(nanos1) in {TicksPerCycle(c), 2 * TicksPerCycle(c)})
  }

  lemma OnTimeNotFlagged(nanos1: nat, nanos2: nat, c: u32)
    requires OnTime(nanos1, nanos2, c)
    ensures MissedCycles(Stamp(Ticks(nanos1)), Stamp(Ticks(nanos2)), c) == None
  {
    if nanos2 == nanos1 + c {
      OneCycleApartNeverFlagged(nanos1, c);
    } else if nanos2 == nanos1 + 2 * c {
      TwoCyclesApartNeverFlagged(nanos1, c);
    } else {
      OneLossNeverFlagged(Ticks(nanos1), if Ticks(nanos2) - Ticks(nanos1) == TicksPerCycle(c) then 0 else 1, c);
    }
  }

  /** When the event compares two sends, they were on time. */
  ghost predicate OnTimeAt(mac: KeyedMac, net: Net, w: Watch, e: Event, n: NodeId, memory: Memory)
    requires n in net.nodes
  {
    forall id, k: nat :: Compares(mac, net, w, e, n, memory, id, k) ==>
      OnTime(net.sent[k].wallNanos, net.sent[e.origin].wallNanos, net.nodes[n].streamMap[id].cycleTimeNano)
  }

  /** All sends whose stamps node `n` compared in the run were on time. */
  ghost predicate Steady(mac: KeyedMac, net: Net, events: seq<Event>, n: NodeId)
    requires Legal(mac, net, events) && n in net.nodes
    decreases |events|
  {
    events == [] ||
    var l := |events| - 1;
    ExecNodes(mac, net, events[..l], n);
    && Steady(mac, net, events[..l], n)
    && OnTimeAt(mac, Exec(mac, net, events[..l]), WatchOf(events[..l], n), events[l], n,
                History(mac, net, events[..l], n).0)
  }

  lemma OnTimeReportsNothing(mac: KeyedMac, net: Net, w: Watch, e: Event, n: NodeId, memory: Memory)
    requires n in net.nodes && OnTimeAt(mac, net, w, e, n, memory)
    ensures Report(mac, net, w, e, n, memory) == 0
  {
    if CleanAt(mac, net, e, n) {
      var id, kept := Authentic(mac, e.frame).value.header.streamId, Kept(w, e, n, memory);
      if id in kept && Compares(mac, net, w, e, n, memory, id, kept[id]) {
        OnTimeNotFlagged(net.sent[kept[id]].wallNanos, net.sent[e.origin].wallNanos,
                         net.nodes[n].streamMap[id].cycleTimeNano);
      }
    }
  }

  lemma {:induction false} SteadySum(mac: KeyedMac, net: Net, events: seq<Event>, n: NodeId)
    requires Legal(mac, net, events) && n in net.nodes && Steady(mac, net, events, n)
    ensures History(mac, net, events, n).1 == 0
    decreases |events|
  {
    if events != [] {
      var l := |events| - 1;
      SteadySum(mac, net, events[..l], n);
      ExecNodes(mac, net, events[..l], n);
      OnTimeReportsNothing(mac, Exec(mac, net, events[..l]), WatchOf(events[..l], n), events[l], n,
                           History(mac, net, events[..l], n).0);
    }
  }

  /**
   Over every run in which the sends that a node compares were on time, with any other
   traffic, losses of one frame, restarts and state changes in between: the node never counts a
   missed cycle and never reports a cycle counter error.
   */
  lemma SteadyStreamsNeverFlagged(mac: KeyedMac, net: Net, events: seq<Event>, n: NodeId)
    requires Initial(net) && Legal(mac, net, events)
    requires n in net.nodes && net.nodes[n].local == START && Steady(mac, net, events, n)
    ensures var end := Exec(mac, net, events);
            && n in end.nodes
            && end.nodes[n].local.missedCycles == 0 && end.nodes[n].local.statusCode != ErrCycleCounter
  {
    MissedCyclesAreSum(mac, net, events, n);
    SteadySum(mac, net, events, n);
  }
}
