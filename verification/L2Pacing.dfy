/**
 From the schedule to the missed-cycle count: a tick of the sender is a sequence of sends, an
 ideal sender's sends are evenly spaced, and evenly spaced sends are never flagged.
 */
module L2Pacing {
  import opened Types
  import opened Arithmetic
  import opened Crypto
  import opened StreamStore
  import opened Gcd
  import opened L2Receiver
  import opened L2Sender
  import opened L2Network
  import opened L2Safety
  import opened L2Running
  import opened L2Cycles
  import opened Schedule

  // ---------- when a stream is sent ----------

  /** The clock values at which a stream is sent in a run. */
  function SendTimes(events: seq<Event>, id: u16): seq<nat> {
    if events == [] then []
    else
      var e := events[|events| - 1];
      SendTimes(events[..|events| - 1], id) + if e.Send? && e.id == id then [e.wallNanos] else []
  }

  lemma SendTimesSnoc(events: seq<Event>, e: Event, id: u16)
    ensures SendTimes(events + [e], id) ==
            SendTimes(events, id) + if e.Send? && e.id == id then [e.wallNanos] else []
  {
    assert (events + [e])[..|events|] == events;
  }

  // ---------- a tick is a sequence of sends ----------

  function IdOf(setup: Setup, i: nat): u16
    requires i < |setup.configs|
  {
    setup.configs[i].streamId % 0x1_0000
  }

  /** Node `n` is where the sender runs: its parameters are the node's, its streams the node's output streams. */
  ghost predicate Hosts(net: Net, n: NodeId, setup: Setup, tx: Tx, input: TickInput) {
    && n in net.nodes
    && var nd := net.nodes[n];
    && nd.source == setup.source && KindOf(nd.role) == setup.kind && nd.output == input.output
    && nd.streams == tx.streams
    && forall i :: 0 <= i < |setup.configs| ==>
         && IsOutput(nd.streams, IdOf(setup, i))
         && nd.streams[IdOf(setup, i)].config == setup.configs[i]
  }

  /** The turn of a due stream is a send, as far as the node's store is concerned. */
  lemma DueTurnIsSend(mac: KeyedMac, net: Net, n: NodeId, setup: Setup, tx: Tx, input: TickInput, i: nat)
    requires setup.Valid() && setup.Accepts(input) && setup.mac == mac && i < |setup.configs| && tx.alive
    requires Sendable(setup.configs[i]) && Hosts(net, n, setup, tx, input)
    requires Due(tx.lastSent, setup.configs[i], input.clocks[i].check)
    ensures var e := Send(n, IdOf(setup, i), input.clocks[i].wallNanos);
            && Enabled(mac, net, e)
            && Next(mac, net, e).nodes == net.nodes[n := net.nodes[n].(streams := TurnOf(setup, tx, input, i).streams)]
  {
  }

  /** Turns keep the configurations of the streams. */
  lemma HostsAfter(net: Net, net': Net, n: NodeId, setup: Setup, tx: Tx, input: TickInput, k: nat)
    requires setup.Valid() && setup.Sendables() && setup.Accepts(input) && tx.alive && k <= |setup.configs|
    requires Hosts(net, n, setup, tx, input)
    requires net'.nodes == net.nodes[n := net.nodes[n].(streams := Turns(setup, tx, input, k).streams)]
    ensures Hosts(net', n, setup, Turns(setup, tx, input, k), input)
  {
    TurnsServe(setup, tx, input, k);
    forall i: nat | i < |setup.configs|
      ensures IsOutput(net'.nodes[n].streams, IdOf(setup, i))
      ensures net'.nodes[n].streams[IdOf(setup, i)].config == setup.configs[i]
    {
      assert Served(setup, tx, input, k, i);
    }
  }

  /** Whether stream `k` is due does not depend on the turns before its own. */
  lemma DueAtTurn(setup: Setup, tx: Tx, input: TickInput, k: nat)
    requires setup.Valid() && setup.Sendables() && setup.Accepts(input) && tx.alive && k < |setup.configs|
    ensures Turns(setup, tx, input, k).alive
    ensures DueFlags(setup, tx, input)[k] ==
            Due(Turns(setup, tx, input, k).lastSent, setup.configs[k], input.clocks[k].check)
  {
    TurnsServe(setup, tx, input, k);
    assert Served(setup, tx, input, k, k);
    DueOfLast(Turns(setup, tx, input, k).lastSent, tx.lastSent, setup.configs[k], input.clocks[k].check);
  }

  /** The nodes as the first `k` turns of the sender at node `n` leave them. */
  ghost function NodesAfter(net: Net, n: NodeId, setup: Setup, tx: Tx, input: TickInput, k: nat): map<NodeId, Node>
    requires n in net.nodes && setup.Accepts(input) && k <= |setup.configs|
  {
    net.nodes[n := net.nodes[n].(streams := Turns(setup, tx, input, k).streams)]
  }

  lemma DueStep(mac: KeyedMac, net: Net, at: Net, n: NodeId, setup: Setup, tx: Tx, input: TickInput, k: nat)
    requires setup.Valid() && setup.Sendables() && setup.Accepts(input) && tx.alive && setup.mac == mac
    requires k < |setup.configs| && Hosts(net, n, setup, tx, input) && DueFlags(setup, tx, input)[k]
    requires at.nodes == NodesAfter(net, n, setup, tx, input, k)
    ensures var e := Send(n, IdOf(setup, k), input.clocks[k].wallNanos);
            Enabled(mac, at, e) && Next(mac, at, e).nodes == NodesAfter(net, n, setup, tx, input, k + 1)
  {
    HostsAfter(net, at, n, setup, tx, input, k);
    DueAtTurn(setup, tx, input, k);
    DueTurnIsSend(mac, at, n, setup, Turns(setup, tx, input, k), input, k);
    TurnsStep(setup, tx, input, k);
  }

  lemma IdleStep(net: Net, n: NodeId, setup: Setup, tx: Tx, input: TickInput, k: nat)
    requires setup.Valid() && setup.Sendables() && setup.Accepts(input) && tx.alive && k < |setup.configs|
    requires n in net.nodes && !DueFlags(setup, tx, input)[k]
    ensures NodesAfter(net, n, setup, tx, input, k + 1) == NodesAfter(net, n, setup, tx, input, k)
  {
    DueAtTurn(setup, tx, input, k);
    TurnsStep(setup, tx, input, k);
    OwnTurn(setup, Turns(setup, tx, input, k), input, k);
  }

  /** The run leads to these nodes. */
  ghost predicate LeadsTo(mac: KeyedMac, net: Net, events: seq<Event>, nodes: map<NodeId, Node>) {
    Legal(mac, net, events) && Exec(mac, net, events).nodes == nodes
  }

  lemma LeadsOn(mac: KeyedMac, net: Net, events: seq<Event>, e: Event, nodes: map<NodeId, Node>)
    requires Legal(mac, net, events) && Enabled(mac, Exec(mac, net, events), e)
    requires Next(mac, Exec(mac, net, events), e).nodes == nodes
    ensures LeadsTo(mac, net, events + [e], nodes)
  {
    LegalSnoc(mac, net, events, e);
  }

  lemma NoTurns(mac: KeyedMac, net: Net, n: NodeId, setup: Setup, tx: Tx, input: TickInput)
    requires setup.Accepts(input) && Hosts(net, n, setup, tx, input)
    ensures LeadsTo(mac, net, [], NodesAfter(net, n, setup, tx, input, 0))
  {
    assert Turns(setup, tx, input, 0) == tx;
    assert net.nodes[n := net.nodes[n]] == net.nodes;
  }

  /** The send times of stream `i` in the first `k` turns of a tick. */
  ghost function TurnTimes(setup: Setup, tx: Tx, input: TickInput, k: nat, i: nat): seq<nat>
    requires setup.Accepts(input) && i < |setup.configs|
  {
    if i < k && DueFlags(setup, tx, input)[i] then [input.clocks[i].wallNanos] else []
  }

  /** The events are sends of node `n`, those of the first `k` turns, in which due streams are sent once each. */
  ghost predicate AreTurns(events: seq<Event>, n: NodeId, setup: Setup, tx: Tx, input: TickInput, k: nat)
    requires setup.Accepts(input)
  {
    && (forall j :: 0 <= j < |events| ==> events[j].Send? && events[j].node == n)
    && forall i: nat :: i < |setup.configs| ==>
         SendTimes(events, IdOf(setup, i)) == TurnTimes(setup, tx, input, k, i)
  }

  lemma DueTurns(events: seq<Event>, n: NodeId, setup: Setup, tx: Tx, input: TickInput, k: nat)
    requires setup.Valid() && setup.Accepts(input) && k < |setup.configs| && DueFlags(setup, tx, input)[k]
    requires AreTurns(events, n, setup, tx, input, k)
    ensures AreTurns(events + [Send(n, IdOf(setup, k), input.clocks[k].wallNanos)], n, setup, tx, input, k + 1)
  {
    var e := Send(n, IdOf(setup, k), input.clocks[k].wallNanos);
    forall i: nat | i < |setup.configs|
      ensures SendTimes(events + [e], IdOf(setup, i)) == TurnTimes(setup, tx, input, k + 1, i)
    {
      SendTimesSnoc(events, e, IdOf(setup, i));
      assert i < k || i == k || k < i;
    }
  }

  lemma IdleTurns(events: seq<Event>, n: NodeId, setup: Setup, tx: Tx, input: TickInput, k: nat)
    requires setup.Accepts(input) && k < |setup.configs| && !DueFlags(setup, tx, input)[k]
    requires AreTurns(events, n, setup, tx, input, k)
    ensures AreTurns(events, n, setup, tx, input, k + 1)
  {
    forall i: nat | i < |setup.configs|
      ensures SendTimes(events, IdOf(setup, i)) == TurnTimes(setup, tx, input, k + 1, i)
    {
      assert SendTimes(events, IdOf(setup, i)) == TurnTimes(setup, tx, input, k, i);
    }
  }

  /**
   One tick of the sender, seen from the network: it is a run of sends of its node, one for
   each stream that is due, at that stream's clock value, and the run leaves the node's store
   as the tick does.
   */
  lemma {:induction false} TickIsSends(
    mac: KeyedMac, net: Net, n: NodeId, setup: Setup, tx: Tx, input: TickInput, k: nat) returns (events: seq<Event>)
    requires setup.Valid() && setup.Sendables() && setup.Accepts(input) && tx.alive && setup.mac == mac
    requires k <= |setup.configs| && Hosts(net, n, setup, tx, input)
    ensures LeadsTo(mac, net, events, NodesAfter(net, n, setup, tx, input, k))
    ensures AreTurns(events, n, setup, tx, input, k)
  {
    if k == 0 {
      events := [];
      NoTurns(mac, net, n, setup, tx, input);
    } else {
      events := TickIsSends(mac, net, n, setup, tx, input, k - 1);
      if DueFlags(setup, tx, input)[k - 1] {
        var e := Send(n, IdOf(setup, k - 1), input.clocks[k - 1].wallNanos);
        DueTurns(events, n, setup, tx, input, k - 1);
        DueStep(mac, net, Exec(mac, net, events), n, setup, tx, input, k - 1);
        LeadsOn(mac, net, events, e, NodesAfter(net, n, setup, tx, input, k));
        events := events + [e];
      } else {
        IdleTurns(events, n, setup, tx, input, k - 1);
        IdleStep(net, n, setup, tx, input, k - 1);
      }
    }
  }

  // ---------- sends carry their times ----------

  /** The sends of a stream carry its send times, in order. */
  ghost predicate TimesOk(sent: seq<L2Network.Sent>, times: seq<nat>, id: u16) {
    && |times| == Count(sent, id)
    && forall k: nat :: k < |sent| && sent[k].header.streamId == id ==>
         Count(sent[..k], id) < |times| && sent[k].wallNanos == times[Count(sent[..k], id)]
  }

  lemma TimesSnoc(sent: seq<L2Network.Sent>, s: L2Network.Sent, times: seq<nat>, id: u16)
    requires TimesOk(sent, times, id)
    ensures TimesOk(sent + [s], times + if s.header.streamId == id then [s.wallNanos] else [], id)
  {
    var sent' := sent + [s];
    assert sent'[..|sent|] == sent;
    forall k: nat | k < |sent| ensures sent'[..k] == sent[..k] {}
  }

  lemma {:induction false} SentAtTimes(mac: KeyedMac, net: Net, events: seq<Event>, id: u16)
    requires Initial(net) && Legal(mac, net, events)
    ensures TimesOk(Exec(mac, net, events).sent, SendTimes(events, id), id)
    decreases |events|
  {
    if events != [] {
      var l := |events| - 1;
      var before, e := Exec(mac, net, events[..l]), events[l];
      SentAtTimes(mac, net, events[..l], id);
      InitialInv(net);
      ExecInv(mac, net, events[..l]);
      if e.Send? {
        SendEffect(mac, before, e.node, e.id, e.wallNanos);
        TimesSnoc(before.sent, SentRecord(before.nodes[e.node], e.node, e.id, e.wallNanos),
                  SendTimes(events[..l], id), id);
      } else {
        assert SendTimes(events[..l], id) + [] == SendTimes(events[..l], id);
      }
    }
  }

  // ---------- evenly spaced sends are on time ----------

  function At(epoch: nat, j: nat, c: nat): nat {
    epoch + j * c
  }

  ghost predicate Even(times: seq<nat>, epoch: nat, c: nat) {
    forall j: nat :: j < |times| ==> times[j] == At(epoch, j, c)
  }

  /** Between two sends that are compared lies at most one other of the stream. */
  ghost predicate FewLostAt(mac: KeyedMac, net: Net, w: Watch, e: Event, n: NodeId, memory: Memory)
    requires n in net.nodes
  {
    forall id, k: nat :: Compares(mac, net, w, e, n, memory, id, k) ==>
      Count(net.sent[..e.origin], id) - Count(net.sent[..k], id) in {1, 2}
  }

  /** In the whole run node `n` never misses two frames of a stream in a row. */
  ghost predicate FewLost(mac: KeyedMac, net: Net, events: seq<Event>, n: NodeId)
    requires Legal(mac, net, events) && n in net.nodes
    decreases |events|
  {
    events == [] ||
    var l := |events| - 1;
    ExecNodes(mac, net, events[..l], n);
    && FewLost(mac, net, events[..l], n)
    && FewLostAt(mac, Exec(mac, net, events[..l]), WatchOf(events[..l], n), events[l], n,
                 History(mac, net, events[..l], n).0)
  }

  lemma EvenOnTime(epoch: nat, i: nat, j: nat, c: u32)
    requires c >= 250_000 && j - i in {1, 2}
    ensures OnTime(At(epoch, i, c), At(epoch, j, c), c)
  {
    assert j * c == i * c + (j - i) * c;
    assert (j - i) * c == if j - i == 1 then c else 2 * c;
  }

  lemma PairOnTime(sent: seq<L2Network.Sent>, times: seq<nat>, id: u16, epoch: nat, c: u32, k: nat, l: nat)
    requires TimesOk(sent, times, id) && Even(times, epoch, c) && c >= 250_000 && k < |sent| && l < |sent|
    requires sent[k].header.streamId == id && sent[l].header.streamId == id
    requires Count(sent[..l], id) - Count(sent[..k], id) in {1, 2}
    ensures OnTime(sent[k].wallNanos, sent[l].wallNanos, c)
  {
    EvenOnTime(epoch, Count(sent[..k], id), Count(sent[..l], id), c);
  }

  /** Each input stream of a node is sent evenly, at its own cycle time. */
  ghost predicate EvenStreams(streamMap: map<u16, StreamConfig>, events: seq<Event>, epochs: map<u16, nat>) {
    forall id :: id in streamMap ==>
      && id in epochs && streamMap[id].cycleTimeNano >= 250_000
      && Even(SendTimes(events, id), epochs[id], streamMap[id].cycleTimeNano)
  }

  lemma EvenPrefix(streamMap: map<u16, StreamConfig>, events: seq<Event>, epochs: map<u16, nat>)
    requires events != [] && EvenStreams(streamMap, events, epochs)
    ensures EvenStreams(streamMap, events[..|events| - 1], epochs)
  {
    var front := events[..|events| - 1];
    forall id | id in streamMap ensures Even(SendTimes(front, id), epochs[id], streamMap[id].cycleTimeNano) {
      var times := SendTimes(events, id);
      forall j: nat | j < |SendTimes(front, id)|
        ensures SendTimes(front, id)[j] == At(epochs[id], j, streamMap[id].cycleTimeNano)
      {
        assert times[j] == SendTimes(front, id)[j];
      }
    }
  }

  lemma StepOnTime(
    mac: KeyedMac, net: Net, events: seq<Event>, w: Watch, e: Event, n: NodeId, epochs: map<u16, nat>,
    memory: Memory, total: nat)
    requires n in net.nodes && Enabled(mac, net, e) && CountOk(net, n, memory, total)
    requires forall id :: TimesOk(net.sent, SendTimes(events, id), id)
    requires EvenStreams(net.nodes[n].streamMap, events, epochs) && FewLostAt(mac, net, w, e, n, memory)
    ensures OnTimeAt(mac, net, w, e, n, memory)
  {
    forall id, k: nat | Compares(mac, net, w, e, n, memory, id, k)
      ensures OnTime(net.sent[k].wallNanos, net.sent[e.origin].wallNanos, net.nodes[n].streamMap[id].cycleTimeNano)
    {
      PairOnTime(net.sent, SendTimes(events, id), id, epochs[id], net.nodes[n].streamMap[id].cycleTimeNano,
                 k, e.origin);
    }
  }

  lemma {:induction false} EvenIsSteady(
    mac: KeyedMac, net: Net, events: seq<Event>, n: NodeId, epochs: map<u16, nat>)
    requires Initial(net) && Legal(mac, net, events) && n in net.nodes && net.nodes[n].local == START
    requires EvenStreams(net.nodes[n].streamMap, events, epochs) && FewLost(mac, net, events, n)
    ensures Steady(mac, net, events, n)
    decreases |events|
  {
    if events != [] {
      var l := |events| - 1;
      var front := events[..l];
      EvenPrefix(net.nodes[n].streamMap, events, epochs);
      EvenIsSteady(mac, net, front, n, epochs);
      MissedCyclesAreSum(mac, net, front, n);
      ExecNodes(mac, net, front, n);
      forall id ensures TimesOk(Exec(mac, net, front).sent, SendTimes(front, id), id) {
        SentAtTimes(mac, net, front, id);
      }
      var (memory, total) := History(mac, net, front, n);
      StepOnTime(mac, Exec(mac, net, front), front, WatchOf(front, n), events[l], n, epochs, memory, total);
    }
  }

  // ---------- an ideal schedule is even ----------

  /** An ideal sender, one of its streams, and the wall clock at its first tick. */
  datatype Plan = Plan(
    setup: Setup, start: Tx, inputs: seq<TickInput>, base: nat, state: DeviceState, stream: nat, epoch: nat)
  {
    ghost predicate Valid() {
      && IdealRun(setup, start, inputs, base, state) && stream < |setup.configs|
      && setup.configs[stream].cycleTimeNano > 0 && Divides(base, setup.configs[stream].cycleTimeNano)
      && forall j :: 0 <= j < |inputs| ==>
           |inputs[j].clocks| == |setup.configs| && inputs[j].clocks[stream].wallNanos == At(epoch, j, base)
    }

    function CycleTime(): u32
      requires stream < |setup.configs|
    {
      setup.configs[stream].cycleTimeNano
    }

    /** The clock values at which the stream is sent in the first `n` ticks. */
    ghost function Times(n: nat): seq<nat>
      requires Valid() && n <= |inputs|
    {
      if n == 0 then []
      else Times(n - 1) + if DueAt(setup, start, inputs, n - 1, stream) then [At(epoch, n - 1, base)] else []
    }
  }

  /** With `q` ticks per cycle, `count` sends have been made in the first `n` ticks. */
  predicate Elapsed(count: nat, n: nat, q: nat) {
    count * q - q < n <= count * q
  }

  lemma NextSend(count: nat, n: nat, q: nat, epoch: nat, base: nat)
    requires q > 0 && Elapsed(count, n, q)
    ensures n % q == 0 ==> Elapsed(count + 1, n + 1, q) && At(epoch, n, base) == At(epoch, count, q * base)
    ensures n % q != 0 ==> Elapsed(count, n + 1, q)
  {
    if n % q == 0 {
      var d := n / q;
      assert n == d * q;
      assert q * (count - d) == count * q - n;
      SmallMultiple(q, count - d);
      assert count * q * base == count * (q * base);
    } else if n == count * q {
      QuotientRemainder(n, q, count, 0);
    }
  }

  lemma EvenSnoc(times: seq<nat>, epoch: nat, c: nat, x: nat)
    requires Even(times, epoch, c) && x == At(epoch, |times|, c)
    ensures Even(times + [x], epoch, c)
  {
  }

  lemma {:induction false} TimesAreEven(plan: Plan, n: nat, q: nat)
    requires plan.Valid() && n <= |plan.inputs| && q > 0 && plan.CycleTime() == q * plan.base
    ensures Even(plan.Times(n), plan.epoch, plan.CycleTime()) && Elapsed(|plan.Times(n)|, n, q)
  {
    if n > 0 {
      TimesAreEven(plan, n - 1, q);
      LastMultiple(plan.setup, plan.start, plan.inputs, plan.base, plan.state, q, n - 1, plan.stream);
      var times := plan.Times(n - 1);
      NextSend(|times|, n - 1, q, plan.epoch, plan.base);
      if (n - 1) % q == 0 { EvenSnoc(times, plan.epoch, plan.CycleTime(), At(plan.epoch, n - 1, plan.base)); }
    }
  }

  /** An ideal schedule sends each of its streams at exactly its cycle time. */
  lemma PlanIsEven(plan: Plan, n: nat)
    requires plan.Valid() && n <= |plan.inputs|
    ensures Even(plan.Times(n), plan.epoch, plan.CycleTime())
  {
    var q: nat :| IsProduct(plan.CycleTime(), q, plan.base);
    assert plan.CycleTime() == q * plan.base;
    assert q > 0;
    TimesAreEven(plan, n, q);
  }

  /** The sends of each input stream of a node follow an ideal schedule with the cycle time the node expects. */
  ghost predicate Follows(
    streamMap: map<u16, StreamConfig>, events: seq<Event>, plans: map<u16, Plan>, ticks: map<u16, nat>)
  {
    forall id :: id in streamMap ==>
      && id in plans && id in ticks && plans[id].Valid() && ticks[id] <= |plans[id].inputs|
      && streamMap[id].cycleTimeNano == plans[id].CycleTime() >= 250_000
      && SendTimes(events, id) == plans[id].Times(ticks[id])
  }

  /**
   From the schedule to the status, over every run: when the streams that a node receives are
   sent by ideal schedules with the cycle times it expects, and never two frames of a stream in
   a row are lost, then it never counts a missed cycle and never reports a counter error,
   whatever else the network delivers and however often the clocks wrap.
   */
  lemma ScheduledStreamsNeverFlagged(
    mac: KeyedMac, net: Net, events: seq<Event>, n: NodeId, plans: map<u16, Plan>, ticks: map<u16, nat>)
    requires Initial(net) && Legal(mac, net, events) && n in net.nodes && net.nodes[n].local == START
    requires Follows(net.nodes[n].streamMap, events, plans, ticks) && FewLost(mac, net, events, n)
    ensures var end := Exec(mac, net, events);
            && n in end.nodes
            && end.nodes[n].local.missedCycles == 0 && end.nodes[n].local.statusCode != ErrCycleCounter
  {
    var streamMap := net.nodes[n].streamMap;
    var epochs := map id | id in streamMap :: plans[id].epoch;
    forall id | id in streamMap ensures Even(SendTimes(events, id), epochs[id], streamMap[id].cycleTimeNano) {
      PlanIsEven(plans[id], ticks[id]);
    }
    EvenIsSteady(mac, net, events, n, epochs);
    SteadyStreamsNeverFlagged(mac, net, events, n);
  }
}
