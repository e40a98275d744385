/** When a receiver thread runs and what it remembers of the life cycle, told by the events of a run alone. */
module L2Running {
  import opened Types
  import opened Crypto
  import opened L2Frame
  import opened StreamStore
  import opened L2Receiver
  import opened L2Network

  /** Node `n` saw no snapshot but Op and SafeOp from event `from` on. */
  ghost predicate ActiveSince(events: seq<Event>, n: NodeId, from: nat) {
    forall j :: from <= j < |events| && events[j].Deliver? && events[j].node == n ==>
      events[j].state == Op || events[j].state == SafeOp
  }

  /** Its receiver ran at the start or was restarted, and has seen only Op and SafeOp since. */
  ghost predicate StillRuns(events: seq<Event>, n: NodeId, start: bool) {
    || (start && ActiveSince(events, n, 0))
    || exists r: nat :: r < |events| && events[r] == Restart(n) && ActiveSince(events, n, r + 1)
  }

  /** The event ends the receiver of node `n`. */
  predicate Ends(e: Event, n: NodeId) {
    e.Deliver? && e.node == n && e.state != Op && e.state != SafeOp
  }

  lemma StillRunsSnoc(events: seq<Event>, e: Event, n: NodeId, start: bool)
    ensures StillRuns(events + [e], n, start) <==>
            e == Restart(n) || (StillRuns(events, n, start) && !Ends(e, n))
  {
    var all, l := events + [e], |events|;
    forall j | 0 <= j < l ensures all[j] == events[j] {}
    forall from: nat | from <= l ensures ActiveSince(all, n, from) <==> ActiveSince(events, n, from) && !Ends(e, n) {
      assert all[l] == e;
    }
    if e == Restart(n) { assert all[l] == e && ActiveSince(all, n, l + 1); }
    if r: nat :| r < l && events[r] == Restart(n) && ActiveSince(events, n, r + 1) { assert all[r] == events[r]; }
    if r: nat :| r < l + 1 && all[r] == Restart(n) && ActiveSince(all, n, r + 1) {
      if r < l { assert events[r] == all[r]; }
    }
  }

  lemma StepRuns(mac: KeyedMac, net: Net, e: Event, n: NodeId)
    requires Enabled(mac, net, e) && n in net.nodes
    ensures n in Next(mac, net, e).nodes
    ensures Next(mac, net, e).nodes[n].local.running <==> e == Restart(n) || (net.nodes[n].local.running && !Ends(e, n))
  {
    if e.Deliver? && e.node == n { ReceiveRuns(mac, net.nodes[n], e.state, e.frame); }
  }

  lemma ReceiveRuns(mac: KeyedMac, nd: Node, state: DeviceState, frame: Option<Bytes>)
    ensures var l := Received(mac, nd, state, frame).local;
            && l.running == (nd.local.running && (state == Op || state == SafeOp))
            && l.previousState == (if nd.local.running then Some(state) else nd.local.previousState)
  {
    if nd.local.running && GateOf(nd.role, state) == Process && frame.Some? {
      FrameKeepsRunning(mac, nd.role, nd.streamMap, nd.streams, Enter(nd.local, state), nd.input, frame.value);
    }
  }

  /** Looking at a frame touches neither. */
  predicate Keeps(l: Local, l': Local) {
    l'.running == l.running && l'.previousState == l.previousState
  }

  lemma AcceptKeeps(role: Role, c: StreamConfig, l: Local, input: Bytes, p: ParsedL2Frame)
    ensures Keeps(l, Accept(role, c, l, input, p).0)
  {
  }

  lemma ParsedKeeps(
    mac: KeyedMac, role: Role, streamMap: map<u16, StreamConfig>, streams: Streams, l: Local, input: Bytes,
    p: ParsedL2Frame)
    ensures Keeps(l, ReceiveParsed(mac, role, streamMap, streams, l, input, p).local)
  {
    if p.header.streamId in streamMap { AcceptKeeps(role, streamMap[p.header.streamId], l, input, p); }
  }

  lemma FrameKeepsRunning(
    mac: KeyedMac, role: Role, streamMap: map<u16, StreamConfig>, streams: Streams, l: Local, input: Bytes,
    frame: Bytes)
    ensures Keeps(l, ReceiveFrame(mac, role, streamMap, streams, l, input, frame).local)
  {
    match ParseL2Frame(frame)
    case Ok(p) => ParsedKeeps(mac, role, streamMap, streams, l, input, p);
    case Err(_) =>
  }

  /**
   Over every run, the receiver of a node runs exactly when it ran at the start or was restarted
   and every snapshot since was Op or SafeOp, on the slave as on the master.
   */
  lemma {:induction false} RunsIff(mac: KeyedMac, net: Net, events: seq<Event>, n: NodeId)
    requires Legal(mac, net, events) && n in net.nodes
    ensures n in Exec(mac, net, events).nodes
    ensures Exec(mac, net, events).nodes[n].local.running <==> StillRuns(events, n, net.nodes[n].local.running)
    decreases |events|
  {
    if events != [] {
      var l := |events| - 1;
      var front, e := events[..l], events[l];
      RunsIff(mac, net, front, n);
      StepRuns(mac, Exec(mac, net, front), e, n);
      StillRunsSnoc(front, e, n, net.nodes[n].local.running);
      assert front + [e] == events;
    }
  }

  /** The snapshot that a running receiver saw last, none after a restart. */
  ghost function LastSnapshot(events: seq<Event>, n: NodeId): Option<DeviceState> {
    if events == [] then None
    else
      var front, e := events[..|events| - 1], events[|events| - 1];
      if e == Restart(n) then None
      else if e.Deliver? && e.node == n && StillRuns(front, n, true) then Some(e.state)
      else LastSnapshot(front, n)
  }

  /** What the events of a run say of the receiver: whether it runs, and the snapshot it saw last. */
  datatype Watch = Watch(runs: bool, seen: Option<DeviceState>)

  ghost function WatchOf(events: seq<Event>, n: NodeId): Watch {
    Watch(StillRuns(events, n, true), LastSnapshot(events, n))
  }

  lemma StepSnapshot(mac: KeyedMac, net: Net, e: Event, n: NodeId)
    requires Enabled(mac, net, e) && n in net.nodes
    ensures n in Next(mac, net, e).nodes
    ensures Next(mac, net, e).nodes[n].local.previousState ==
            if e == Restart(n) then None
            else if e.Deliver? && e.node == n && net.nodes[n].local.running then Some(e.state)
            else net.nodes[n].local.previousState
  {
    if e.Deliver? && e.node == n { ReceiveRuns(mac, net.nodes[n], e.state, e.frame); }
  }

  /** Over every run from a fresh receiver, it is as the events say. */
  lemma {:induction false} WatchIs(mac: KeyedMac, net: Net, events: seq<Event>, n: NodeId)
    requires Legal(mac, net, events) && n in net.nodes && net.nodes[n].local == START
    ensures n in Exec(mac, net, events).nodes
    ensures var l := Exec(mac, net, events).nodes[n].local;
            Watch(l.running, l.previousState) == WatchOf(events, n)
    decreases |events|
  {
    RunsIff(mac, net, events, n);
    if events != [] {
      var l := |events| - 1;
      WatchIs(mac, net, events[..l], n);
      StepSnapshot(mac, Exec(mac, net, events[..l]), events[l], n);
    }
  }
}
