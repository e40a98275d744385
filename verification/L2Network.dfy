/**
 The L2 data plane as a whole: any number of masters and slaves, each with its own stream
 store, images and receiver, joined by a network that may drop, duplicate, delay and reorder
 frames, strip or change what the tag does not cover, and inject or corrupt frames at will as
 long as it cannot forge a tag.
 */
module L2Network {
  import opened Types
  import opened L2Frame
  import opened Crypto
  import opened StreamStore
  import opened L2Receiver
  import opened L2Sender

  type NodeId = nat

  datatype Node = Node(
    role: Role,
    source: Mac,
    streams: Streams,
    streamMap: map<u16, StreamConfig>,
    local: Local,
    input: Bytes,
    output: Bytes)

  /** A send, with the sender's output image at that moment. */
  datatype Sent = Sent(
    node: NodeId, config: StreamConfig, output: Bytes, wallNanos: nat,
    header: L2Header, payload: Bytes, sequenceNumber: u64)

  /** An acceptance: who accepted which send on which stream, in which state snapshot, and whether it was written. */
  datatype Entry = Entry(node: NodeId, id: u16, origin: nat, state: DeviceState, applied: bool)

  datatype Net = Net(nodes: map<NodeId, Node>, sent: seq<Sent>, log: seq<Entry>)

  datatype Event =
    | Send(node: NodeId, id: u16, wallNanos: nat)
    | ChangeOutput(node: NodeId, output: Bytes)
    | Deliver(node: NodeId, state: DeviceState, frame: Option<Bytes>, origin: nat)
    | Restart(node: NodeId)

  /** The parsed frame, if it parses and its tag verifies. */
  function Authentic(mac: KeyedMac, frame: Option<Bytes>): Option<ParsedL2Frame> {
    match frame
    case None => None
    case Some(f) =>
      match ParseL2Frame(f)
      case Err(_) => None
      case Ok(p) =>
        if TagMatches(mac, p.header, p.payload, p.sequenceNumber, p.authTag) then Some(p) else None
  }

  predicate Carries(p: ParsedL2Frame, s: Sent) {
    p.header == s.header && p.payload == s.payload && p.sequenceNumber == s.sequenceNumber
  }

  predicate IsOutput(streams: Streams, id: u16) {
    id in streams && streams[id].config.direction == DIRECTION_OUTPUT
  }

  /** A frame whose tag verifies carries the content of some send, the one named by the event. */
  predicate Enabled(mac: KeyedMac, net: Net, e: Event) {
    && e.node in net.nodes
    && match e
       case Send(n, id, _) => IsOutput(net.nodes[n].streams, id) && Sendable(net.nodes[n].streams[id].config)
       case Deliver(_, _, frame, origin) =>
         Authentic(mac, frame).Some? ==> origin < |net.sent| && Carries(Authentic(mac, frame).value, net.sent[origin])
       case _ => true
  }

  function Received(mac: KeyedMac, nd: Node, state: DeviceState, frame: Option<Bytes>): Step {
    Receive(mac, nd.role, nd.streamMap, nd.streams, nd.local, nd.input, state, frame)
  }

  function SentRecord(nd: Node, n: NodeId, id: u16, wallNanos: nat): Sent
    requires id in nd.streams
  {
    var c := nd.streams[id].config;
    var (header, payload) := Compose(KindOf(nd.role), nd.output, c, wallNanos);
    Sent(n, c, nd.output, wallNanos, header, payload, nd.streams[id].sequenceNumber)
  }

  function Next(mac: KeyedMac, net: Net, e: Event): Net
    requires Enabled(mac, net, e)
  {
    var nd := net.nodes[e.node];
    match e
    case Send(n, id, wallNanos) =>
      var (_, streams') := SendFrame(mac, nd.source, KindOf(nd.role), nd.streams, nd.output, nd.streams[id].config,
                                     wallNanos);
      Net(net.nodes[n := nd.(streams := streams')], net.sent + [SentRecord(nd, n, id, wallNanos)], net.log)
    case ChangeOutput(n, output) => net.(nodes := net.nodes[n := nd.(output := output)])
    case Restart(n) => net.(nodes := net.nodes[n := nd.(local := Restarted(nd.role, nd.local))])
    case Deliver(n, state, frame, origin) =>
      var step := Received(mac, nd, state, frame);
      var log' :=
        match step.outcome
        case Ignored => net.log
        case Accepted(applied) =>
          var id := if Authentic(mac, frame).Some? then Authentic(mac, frame).value.header.streamId else 0;
          net.log + [Entry(n, id, origin, state, applied)];
      Net(net.nodes[n := nd.(streams := step.streams, local := step.local, input := step.input)], net.sent, log')
  }

  /** Every event is enabled in the state it meets. */
  ghost predicate Legal(mac: KeyedMac, net: Net, events: seq<Event>)
    decreases |events|, 0
  {
    events == [] ||
    var n := |events| - 1;
    Legal(mac, net, events[..n]) && Enabled(mac, Exec(mac, net, events[..n]), events[n])
  }

  /** The state after a run. */
  ghost function Exec(mac: KeyedMac, net: Net, events: seq<Event>): Net
    requires Legal(mac, net, events)
    decreases |events|, 1
  {
    if events == [] then net
    else
      var n := |events| - 1;
      Next(mac, Exec(mac, net, events[..n]), events[n])
  }

  lemma {:induction false} LegalPrefix(mac: KeyedMac, net: Net, events: seq<Event>, i: nat)
    requires Legal(mac, net, events) && i <= |events|
    ensures Legal(mac, net, events[..i])
    ensures i < |events| ==>
              && Legal(mac, net, events[..i + 1])
              && Enabled(mac, Exec(mac, net, events[..i]), events[i])
              && Exec(mac, net, events[..i + 1]) == Next(mac, Exec(mac, net, events[..i]), events[i])
    decreases |events|
  {
    if i == |events| {
      assert events[..i] == events;
    } else {
      var n := |events| - 1;
      if i == n {
        assert events[..i + 1] == events;
      } else {
        LegalPrefix(mac, net, events[..n], i);
        assert events[..n][..i] == events[..i] && events[..n][..i + 1] == events[..i + 1]
               && events[..n][i] == events[i];
      }
    }
  }

  lemma LegalSnoc(mac: KeyedMac, net: Net, events: seq<Event>, e: Event)
    requires Legal(mac, net, events) && Enabled(mac, Exec(mac, net, events), e)
    ensures Legal(mac, net, events + [e])
    ensures Exec(mac, net, events + [e]) == Next(mac, Exec(mac, net, events), e)
  {
    assert (events + [e])[..|events|] == events;
  }

  /** Nodes keep their roles and stream maps. */
  lemma {:induction false} ExecNodes(mac: KeyedMac, net: Net, events: seq<Event>, n: NodeId)
    requires Legal(mac, net, events) && n in net.nodes
    ensures n in Exec(mac, net, events).nodes
    ensures Exec(mac, net, events).nodes[n].streamMap == net.nodes[n].streamMap
    ensures Exec(mac, net, events).nodes[n].role == net.nodes[n].role
    decreases |events|
  {
    if events != [] { ExecNodes(mac, net, events[..|events| - 1], n); }
  }

  // ---------- initial states ----------

  function InputConfigs(streams: Streams): map<u16, StreamConfig> {
    map id | id in streams && streams[id].config.direction == DIRECTION_INPUT :: streams[id].config
  }

  /** Node `n` as the stores are configured and the handlers started; streams go by their own ids. */
  ghost predicate WellFormed(nd: Node) {
    && nd.streamMap == InputConfigs(nd.streams)
    && forall id :: id in nd.streams ==>
         && nd.streams[id].config.streamId == id
         && InitialSequenceNumber(nd.streams[id].config.direction).Ok?
  }

  /** No stream has two senders. */
  ghost predicate OneSender(net: Net) {
    forall n1, n2, id ::
      && n1 in net.nodes && n2 in net.nodes
      && IsOutput(net.nodes[n1].streams, id) && IsOutput(net.nodes[n2].streams, id) ==>
        n1 == n2
  }

  ghost predicate FreshCounters(nd: Node) {
    forall id :: id in nd.streams ==>
        Ok(nd.streams[id].sequenceNumber) == InitialSequenceNumber(nd.streams[id].config.direction)
  }

  /** All stores freshly configured, nothing sent yet. */
  ghost predicate Initial(net: Net) {
    && net.sent == [] && net.log == []
    && OneSender(net)
    && forall n :: n in net.nodes ==> WellFormed(net.nodes[n]) && FreshCounters(net.nodes[n])
  }

  // ---------- counting sends, looking up acceptances ----------

  /** Number of sends on a stream. */
  function Count(sent: seq<Sent>, id: u16): nat {
    if sent == [] then 0
    else Count(sent[..|sent| - 1], id) + if sent[|sent| - 1].header.streamId == id then 1 else 0
  }

  /** The counter value after `count` sends: it starts at one and saturates. */
  function CounterAfter(count: nat): u64 {
    Min(count + 1, U64_MAX)
  }

  lemma {:induction false} CountPrefix(sent: seq<Sent>, id: u16, k: nat)
    requires k < |sent|
    ensures Count(sent[..k + 1], id) == Count(sent[..k], id) + if sent[k].header.streamId == id then 1 else 0
    ensures Count(sent[..k + 1], id) <= Count(sent, id)
    decreases |sent|
  {
    if k == |sent| - 1 {
      assert sent[..k + 1] == sent;
    } else {
      var front := sent[..|sent| - 1];
      CountPrefix(front, id, k);
      assert front[..k + 1] == sent[..k + 1] && front[..k] == sent[..k];
    }
  }

  /** The latest send that node `n` accepted on stream `id`. */
  function LastAccepted(log: seq<Entry>, n: NodeId, id: u16): Option<nat> {
    if log == [] then None
    else
      var last := log[|log| - 1];
      if last.node == n && last.id == id then Some(last.origin) else LastAccepted(log[..|log| - 1], n, id)
  }

  /** The latest send on stream `id` that node `n` wrote into its input image. */
  function LastApplied(log: seq<Entry>, n: NodeId, id: u16): Option<nat> {
    if log == [] then None
    else
      var last := log[|log| - 1];
      if last.node == n && last.id == id && last.applied then Some(last.origin)
      else LastApplied(log[..|log| - 1], n, id)
  }

  lemma {:induction false} LastAcceptedIs(log: seq<Entry>, n: NodeId, id: u16)
    ensures LastAccepted(log, n, id).None? ==>
              forall a :: 0 <= a < |log| ==> !(log[a].node == n && log[a].id == id)
    ensures LastAccepted(log, n, id).Some? ==>
              exists a :: 0 <= a < |log| && log[a].node == n && log[a].id == id
                  && log[a].origin == LastAccepted(log, n, id).value
                          && forall b :: a < b < |log| ==> !(log[b].node == n && log[b].id == id)
  {
    if log != [] {
      var front := log[..|log| - 1];
      LastAcceptedIs(front, n, id);
      var last := log[|log| - 1];
      if last.node == n && last.id == id {
        assert log[|log| - 1].origin == LastAccepted(log, n, id).value;
      } else if LastAccepted(front, n, id).Some? {
        var a :| 0 <= a < |front| && front[a].node == n && front[a].id == id
            && front[a].origin == LastAccepted(front, n, id).value
                 && forall b :: a < b < |front| ==> !(front[b].node == n && front[b].id == id);
        assert log[a] == front[a];
        forall b | a < b < |log| ensures !(log[b].node == n && log[b].id == id) {
          if b < |front| { assert front[b] == log[b]; }
        }
      }
    }
  }
}
