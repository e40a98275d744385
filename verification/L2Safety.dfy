/** What every step of the L2 data plane keeps, and what follows for whole runs: freshness and order. */
module L2Safety {
  import opened Types
  import opened L2Frame
  import opened Crypto
  import opened StreamStore
  import opened L2Receiver
  import opened L2Sender
  import opened L2Network

  // ---------- the invariant ----------

  /** Send `k` was composed by the stream's sender from its output image and numbered in order. */
  ghost predicate SentOk(net: Net, k: nat)
    requires k < |net.sent|
  {
    var s := net.sent[k];
    && s.node in net.nodes
    && IsOutput(net.nodes[s.node].streams, s.header.streamId)
    && net.nodes[s.node].streams[s.header.streamId].config == s.config
    && (s.header, s.payload) == Compose(KindOf(net.nodes[s.node].role), s.output, s.config, s.wallNanos)
    && s.sequenceNumber == CounterAfter(Count(net.sent[..k], s.header.streamId))
  }

  /** The number of the latest send that node `n` accepted on a stream, zero before the first. */
  function AcceptedNumber(net: Net, n: NodeId, id: u16): u64 {
    match LastAccepted(net.log, n, id)
    case None => 0
    case Some(k) => if k < |net.sent| then net.sent[k].sequenceNumber else 0
  }

  /** A sender's counter counts its sends, a receiver's counter is the last number it accepted. */
  ghost predicate CounterOk(net: Net, n: NodeId, id: u16)
    requires n in net.nodes && id in net.nodes[n].streams
  {
    var e := net.nodes[n].streams[id];
    && (e.config.direction == DIRECTION_OUTPUT ==> e.sequenceNumber == CounterAfter(Count(net.sent, id)))
    && (e.config.direction == DIRECTION_INPUT ==> e.sequenceNumber == AcceptedNumber(net, n, id))
  }

  ghost predicate EntryOk(net: Net, a: nat)
    requires a < |net.log|
  {
    var e := net.log[a];
    && e.node in net.nodes
    && e.id in net.nodes[e.node].streamMap
    && e.origin < |net.sent|
    && net.sent[e.origin].header.streamId == e.id
    && GateOf(net.nodes[e.node].role, e.state) == Process
    && (e.applied ==> net.sent[e.origin].header.status == NoError.Code())
  }

  ghost predicate SameStream(net: Net, a: nat, b: nat)
    requires a < |net.log| && b < |net.log|
  {
    net.log[a].node == net.log[b].node && net.log[a].id == net.log[b].id
  }

  ghost predicate Increasing(net: Net) {
    forall a: nat, b: nat :: a < b < |net.log| && SameStream(net, a, b) ==>
      net.log[a].origin < |net.sent| && net.log[b].origin < |net.sent| &&
      net.sent[net.log[a].origin].sequenceNumber < net.sent[net.log[b].origin].sequenceNumber
  }

  ghost predicate Static(net: Net) {
    && OneSender(net)
    && forall n :: n in net.nodes ==> WellFormed(net.nodes[n])
  }

  ghost predicate Inv(net: Net) {
    && Static(net)
    && (forall k: nat :: k < |net.sent| ==> SentOk(net, k))
    && (forall n, id :: n in net.nodes && id in net.nodes[n].streams ==> CounterOk(net, n, id))
    && (forall a: nat :: a < |net.log| ==> EntryOk(net, a))
    && Increasing(net)
  }

  lemma InitialInv(net: Net)
    requires Initial(net)
    ensures Inv(net)
  {
    forall n, id | n in net.nodes && id in net.nodes[n].streams ensures CounterOk(net, n, id) {
      assert FreshCounters(net.nodes[n]);
    }
  }

  // ---------- what a step leaves alone ----------

  /** The configuration part of the system is the same; only counters, locals and images differ. */
  ghost predicate SameConfigs(net: Net, net': Net) {
    && net.nodes.Keys == net'.nodes.Keys
    && forall n :: n in net.nodes ==>
         && net.nodes[n].role == net'.nodes[n].role
         && net.nodes[n].streamMap == net'.nodes[n].streamMap
         && net.nodes[n].streams.Keys == net'.nodes[n].streams.Keys
         && forall id :: id in net.nodes[n].streams ==>
            net.nodes[n].streams[id].config == net'.nodes[n].streams[id].config
  }

  lemma StaticCarries(net: Net, net': Net)
    requires Static(net) && SameConfigs(net, net')
    ensures Static(net')
  {
    forall n1, n2, id |
      n1 in net'.nodes && n2 in net'.nodes && IsOutput(net'.nodes[n1].streams, id)
          && IsOutput(net'.nodes[n2].streams, id)
      ensures n1 == n2
    {
      assert IsOutput(net.nodes[n1].streams, id) && IsOutput(net.nodes[n2].streams, id);
    }
    forall n | n in net'.nodes ensures WellFormed(net'.nodes[n]) {
      assert WellFormed(net.nodes[n]);
      assert InputConfigs(net'.nodes[n].streams) == InputConfigs(net.nodes[n].streams);
    }
  }

  lemma SentCarries(net: Net, net': Net, k: nat)
    requires SameConfigs(net, net') && k < |net.sent| && net.sent <= net'.sent && SentOk(net, k)
    ensures SentOk(net', k)
  {
    assert net'.sent[..k] == net.sent[..k];
  }

  lemma EntryCarries(net: Net, net': Net, a: nat)
    requires SameConfigs(net, net') && a < |net.log| && net.sent <= net'.sent && net.log <= net'.log && EntryOk(net, a)
    ensures EntryOk(net', a)
  {
  }

  // ---------- one lemma per kind of step ----------

  /** Steps that touch neither stores nor histories. */
  lemma QuietStep(net: Net, net': Net)
    requires Inv(net) && SameConfigs(net, net') && net'.sent == net.sent && net'.log == net.log
    requires forall n :: n in net.nodes ==> net'.nodes[n].streams == net.nodes[n].streams
    ensures Inv(net')
  {
    StaticCarries(net, net');
    forall k: nat | k < |net'.sent| ensures SentOk(net', k) { SentCarries(net, net', k); }
    forall a: nat | a < |net'.log| ensures EntryOk(net', a) { EntryCarries(net, net', a); }
    forall n, id | n in net'.nodes && id in net'.nodes[n].streams ensures CounterOk(net', n, id) {
      assert CounterOk(net, n, id);
    }
  }

  /** A send takes the counter's value as its number and moves the counter on. */
  lemma SendEffect(mac: KeyedMac, net: Net, n: NodeId, id: u16, wallNanos: nat)
    requires Static(net) && Enabled(mac, net, Send(n, id, wallNanos))
    ensures var net' := Next(mac, net, Send(n, id, wallNanos));
            var nd, nd' := net.nodes[n], net'.nodes[n];
            && SentRecord(nd, n, id, wallNanos).header.streamId == id
            && var e := nd.streams[id];
            && nd' == nd.(streams := nd.streams[id := e.(sequenceNumber := SaturatingAdd64(e.sequenceNumber, 1))])
            && SameConfigs(net, net')
  {
    assert WellFormed(net.nodes[n]);
  }

  /** How a send changes the system. */
  ghost predicate SendShape(net: Net, net': Net, n: NodeId, id: u16) {
    && SameConfigs(net, net')
    && n in net.nodes && IsOutput(net.nodes[n].streams, id)
    && |net'.sent| == |net.sent| + 1 && net'.sent[..|net.sent|] == net.sent
    && net'.log == net.log
    && (forall m, i :: m in net.nodes && i in net.nodes[m].streams && !(m == n && i == id) ==>
        net'.nodes[m].streams[i] == net.nodes[m].streams[i])
    && var e, s := net.nodes[n].streams[id], net'.sent[|net.sent|];
    && net'.nodes[n].streams[id].sequenceNumber == SaturatingAdd64(e.sequenceNumber, 1)
    && s.node == n && s.config == e.config && s.header.streamId == id && s.sequenceNumber == e.sequenceNumber
    && (s.header, s.payload) == Compose(KindOf(net.nodes[n].role), s.output, s.config, s.wallNanos)
  }

  lemma SendShapeSent(net: Net, net': Net, n: NodeId, id: u16, k: nat)
    requires Inv(net) && SendShape(net, net', n, id) && k < |net'.sent|
    ensures SentOk(net', k)
  {
    if k < |net.sent| {
      SentCarries(net, net', k);
    } else {
      assert CounterOk(net, n, id);
    }
  }

  lemma SendShapeCounter(net: Net, net': Net, n: NodeId, id: u16, m: NodeId, i: u16)
    requires Inv(net) && SendShape(net, net', n, id) && m in net'.nodes && i in net'.nodes[m].streams
    ensures CounterOk(net', m, i)
  {
    assert CounterOk(net, m, i);
    forall a: nat | a < |net.log| ensures net.log[a].origin < |net.sent| { assert EntryOk(net, a); }
    AcceptedNumberCarries(net, net', m, i);
    assert IsOutput(net.nodes[m].streams, i) && m != n ==> i != id;
  }

  lemma IncreasingCarries(net: Net, net': Net)
    requires Increasing(net) && net.sent <= net'.sent && net.log == net'.log
    ensures Increasing(net')
  {
    forall a: nat, b: nat | a < b < |net'.log| && SameStream(net', a, b)
      ensures net'.log[a].origin < |net'.sent| && net'.log[b].origin < |net'.sent|
      ensures net'.sent[net'.log[a].origin].sequenceNumber < net'.sent[net'.log[b].origin].sequenceNumber
    {
      assert SameStream(net, a, b);
    }
  }

  lemma SendStep(mac: KeyedMac, net: Net, n: NodeId, id: u16, wallNanos: nat)
    requires Inv(net) && Enabled(mac, net, Send(n, id, wallNanos))
    ensures Inv(Next(mac, net, Send(n, id, wallNanos)))
  {
    var net' := Next(mac, net, Send(n, id, wallNanos));
    SendEffect(mac, net, n, id, wallNanos);
    assert SendShape(net, net', n, id);
    StaticCarries(net, net');
    forall k: nat | k < |net'.sent| ensures SentOk(net', k) { SendShapeSent(net, net', n, id, k); }
    forall a: nat | a < |net'.log| ensures EntryOk(net', a) { EntryCarries(net, net', a); }
    forall m, i | m in net'.nodes && i in net'.nodes[m].streams ensures CounterOk(net', m, i) {
      SendShapeCounter(net, net', n, id, m, i);
    }
    IncreasingCarries(net, net');
  }

  lemma AcceptedNumberCarries(net: Net, net': Net, n: NodeId, id: u16)
    requires net.log == net'.log && net.sent <= net'.sent
    requires forall a: nat :: a < |net.log| ==> net.log[a].origin < |net.sent|
    ensures AcceptedNumber(net', n, id) == AcceptedNumber(net, n, id)
  {
    LastAcceptedIs(net.log, n, id);
  }

  /** A frame that passed authentication: the image changes only when it is applied. */
  lemma AcceptCases(role: Role, c: StreamConfig, l: Local, input: Bytes, p: ParsedL2Frame)
    ensures var (_, input', applied) := Accept(role, c, l, input, p);
            if applied then
              p.header.status == NoError.Code() && HandleInput(KindOf(role), input, c, p.payload) == Ok(input')
            else input' == input
  {
  }

  /** A parsed frame: it is ignored, or it is authentic and fresh and its number is stored. */
  lemma ParsedStep(
    mac: KeyedMac, role: Role, streamMap: map<u16, StreamConfig>, streams: Streams, l: Local, input: Bytes,
    p: ParsedL2Frame)
    ensures var step := ReceiveParsed(mac, role, streamMap, streams, l, input, p);
            var id := p.header.streamId;
            match step.outcome
            case Ignored => step.streams == streams && step.input == input
            case Accepted(applied) =>
              && id in streamMap && id in streams
              && TagMatches(mac, p.header, p.payload, p.sequenceNumber, p.authTag)
              && p.sequenceNumber > streams[id].sequenceNumber
              && step.streams == streams[id := streams[id].(sequenceNumber := p.sequenceNumber)]
              && (applied ==>
                    && p.header.status == NoError.Code()
                    && HandleInput(KindOf(role), input, streamMap[id], p.payload) == Ok(step.input))
              && (!applied ==> step.input == input)
  {
    if p.header.streamId in streamMap { AcceptCases(role, streamMap[p.header.streamId], l, input, p); }
  }

  lemma FrameStep(
    mac: KeyedMac, role: Role, streamMap: map<u16, StreamConfig>, streams: Streams, l: Local, input: Bytes,
    frame: Bytes)
    ensures var step := ReceiveFrame(mac, role, streamMap, streams, l, input, frame);
            match step.outcome
            case Ignored => step.streams == streams && step.input == input
            case Accepted(applied) =>
              && Authentic(mac, Some(frame)).Some?
              && var p := Authentic(mac, Some(frame)).value;
              && var id := p.header.streamId;
              && id in streamMap && id in streams
              && p.sequenceNumber > streams[id].sequenceNumber
              && step.streams == streams[id := streams[id].(sequenceNumber := p.sequenceNumber)]
              && (applied ==>
                    && p.header.status == NoError.Code()
                    && HandleInput(KindOf(role), input, streamMap[id], p.payload) == Ok(step.input))
              && (!applied ==> step.input == input)
  {
    match ParseL2Frame(frame)
    case Ok(p) => ParsedStep(mac, role, streamMap, streams, l, input, p);
    case Err(_) =>
  }

  /** What a receiver step can do: nothing to the store, or accept one authentic, fresh frame. */
  lemma ReceiveCases(mac: KeyedMac, nd: Node, state: DeviceState, frame: Option<Bytes>)
    requires WellFormed(nd)
    ensures var step := Received(mac, nd, state, frame);
            match step.outcome
            case Ignored => step.streams == nd.streams && step.input == nd.input
            case Accepted(applied) =>
              && nd.local.running && GateOf(nd.role, state) == Process
              && Authentic(mac, frame).Some?
              && var p := Authentic(mac, frame).value;
              && var id := p.header.streamId;
              && id in nd.streamMap && id in nd.streams
              && nd.streams[id].config.direction == DIRECTION_INPUT && nd.streamMap[id] == nd.streams[id].config
              && p.sequenceNumber > nd.streams[id].sequenceNumber
              && step.streams == nd.streams[id := nd.streams[id].(sequenceNumber := p.sequenceNumber)]
              && (applied ==>
                    && p.header.status == NoError.Code()
                    && HandleInput(KindOf(nd.role), nd.input, nd.streamMap[id], p.payload) == Ok(step.input))
              && (!applied ==> step.input == nd.input)
  {
    if nd.local.running && GateOf(nd.role, state) == Process && frame.Some? {
      FrameStep(mac, nd.role, nd.streamMap, nd.streams, Enter(nd.local, state), nd.input, frame.value);
    }
  }

  lemma DeliverStep(mac: KeyedMac, net: Net, n: NodeId, state: DeviceState, frame: Option<Bytes>, origin: nat)
    requires Inv(net) && Enabled(mac, net, Deliver(n, state, frame, origin))
    ensures Inv(Next(mac, net, Deliver(n, state, frame, origin)))
  {
    var nd := net.nodes[n];
    var net' := Next(mac, net, Deliver(n, state, frame, origin));
    var step := Received(mac, nd, state, frame);
    assert WellFormed(nd);
    ReceiveCases(mac, nd, state, frame);
    if step.outcome == Ignored {
      QuietStep(net, net');
    } else {
      AcceptStep(mac, net, n, state, frame, origin);
    }
  }

  /** How an acceptance changes the system. */
  ghost predicate AcceptShape(net: Net, net': Net, e: Entry) {
    && SameConfigs(net, net')
    && net'.sent == net.sent
    && net'.log == net.log + [e]
    && EntryOk(net', |net.log|)
    && e.id in net.nodes[e.node].streams && net.nodes[e.node].streams[e.id].config.direction == DIRECTION_INPUT
    && (forall m, i :: m in net.nodes && i in net.nodes[m].streams && !(m == e.node && i == e.id) ==>
        net'.nodes[m].streams[i] == net.nodes[m].streams[i])
    && net'.nodes[e.node].streams[e.id].sequenceNumber == net.sent[e.origin].sequenceNumber
    && net.sent[e.origin].sequenceNumber > net.nodes[e.node].streams[e.id].sequenceNumber
  }

  /** The state after an acceptance, written out. */
  lemma AcceptEffect(mac: KeyedMac, net: Net, n: NodeId, state: DeviceState, frame: Option<Bytes>, origin: nat)
    requires Static(net) && Enabled(mac, net, Deliver(n, state, frame, origin))
    requires Received(mac, net.nodes[n], state, frame).outcome.Accepted?
    ensures Authentic(mac, frame).Some?
    ensures var nd, p := net.nodes[n], Authentic(mac, frame).value;
            var id := p.header.streamId;
            && origin < |net.sent| && Carries(p, net.sent[origin])
            && GateOf(nd.role, state) == Process
            && id in nd.streams && id in nd.streamMap && nd.streams[id].config.direction == DIRECTION_INPUT
            && p.sequenceNumber > nd.streams[id].sequenceNumber
            && var step := Received(mac, nd, state, frame);
            && (step.outcome.applied ==> p.header.status == NoError.Code())
            && Next(mac, net, Deliver(n, state, frame, origin)) ==
               Net(net.nodes[n := nd.(streams := nd.streams[id := nd.streams[id].(sequenceNumber := p.sequenceNumber)],
                                      local := step.local, input := step.input)],
                   net.sent, net.log + [Entry(n, id, origin, state, step.outcome.applied)])
  {
    assert WellFormed(net.nodes[n]);
    ReceiveCases(mac, net.nodes[n], state, frame);
  }

  lemma ShapeOfEffect(
    net: Net, n: NodeId, id: u16, origin: nat, state: DeviceState, applied: bool, local: Local, input: Bytes)
    requires n in net.nodes && id in net.nodes[n].streams && id in net.nodes[n].streamMap
    requires net.nodes[n].streams[id].config.direction == DIRECTION_INPUT
    requires origin < |net.sent| && net.sent[origin].header.streamId == id
    requires net.sent[origin].sequenceNumber > net.nodes[n].streams[id].sequenceNumber
    requires GateOf(net.nodes[n].role, state) == Process
    requires applied ==> net.sent[origin].header.status == NoError.Code()
    ensures var nd := net.nodes[n];
            var e := Entry(n, id, origin, state, applied);
            var moved := nd.streams[id].(sequenceNumber := net.sent[origin].sequenceNumber);
            var net' := Net(net.nodes[n := nd.(streams := nd.streams[id := moved],
                                               local := local, input := input)],
                            net.sent, net.log + [e]);
            AcceptShape(net, net', e)
  {
  }

  lemma AcceptShapeOf(mac: KeyedMac, net: Net, n: NodeId, state: DeviceState, frame: Option<Bytes>, origin: nat)
    requires Static(net) && Enabled(mac, net, Deliver(n, state, frame, origin))
    requires Received(mac, net.nodes[n], state, frame).outcome.Accepted?
    ensures var net' := Next(mac, net, Deliver(n, state, frame, origin));
            |net'.log| == |net.log| + 1 && AcceptShape(net, net', net'.log[|net.log|])
  {
    var net' := Next(mac, net, Deliver(n, state, frame, origin));
    AcceptEffect(mac, net, n, state, frame, origin);
    var nd, p := net.nodes[n], Authentic(mac, frame).value;
    var id := p.header.streamId;
    var step := Received(mac, nd, state, frame);
    ShapeOfEffect(net, n, id, origin, state, step.outcome.applied, step.local, step.input);
  }

  lemma AcceptShapeCounter(net: Net, net': Net, e: Entry, m: NodeId, i: u16)
    requires Inv(net) && AcceptShape(net, net', e) && m in net'.nodes && i in net'.nodes[m].streams
    ensures CounterOk(net', m, i)
  {
    assert CounterOk(net, m, i);
    assert net'.log[..|net.log|] == net.log;
  }

  lemma AcceptShapeIncreasing(net: Net, net': Net, e: Entry)
    requires Inv(net) && AcceptShape(net, net', e)
    ensures Increasing(net')
  {
    forall a: nat, b: nat | a < b < |net'.log| && SameStream(net', a, b)
      ensures net'.log[a].origin < |net'.sent| && net'.log[b].origin < |net'.sent|
      ensures net'.sent[net'.log[a].origin].sequenceNumber < net'.sent[net'.log[b].origin].sequenceNumber
    {
      if b < |net.log| {
        assert SameStream(net, a, b);
      } else {
        assert CounterOk(net, e.node, e.id);
        AcceptedBelow(net, e.node, e.id, a);
      }
    }
  }

  lemma AcceptShapeStep(net: Net, net': Net, e: Entry)
    requires Inv(net) && AcceptShape(net, net', e)
    ensures Inv(net')
  {
    StaticCarries(net, net');
    forall k: nat | k < |net'.sent| ensures SentOk(net', k) { SentCarries(net, net', k); }
    forall a: nat | a < |net'.log| ensures EntryOk(net', a) {
      if a < |net.log| { EntryCarries(net, net', a); }
    }
    forall m, i | m in net'.nodes && i in net'.nodes[m].streams ensures CounterOk(net', m, i) {
      AcceptShapeCounter(net, net', e, m, i);
    }
    AcceptShapeIncreasing(net, net', e);
  }

  lemma AcceptStep(mac: KeyedMac, net: Net, n: NodeId, state: DeviceState, frame: Option<Bytes>, origin: nat)
    requires Inv(net) && Enabled(mac, net, Deliver(n, state, frame, origin))
    requires Received(mac, net.nodes[n], state, frame).outcome.Accepted?
    ensures Inv(Next(mac, net, Deliver(n, state, frame, origin)))
  {
    var net' := Next(mac, net, Deliver(n, state, frame, origin));
    AcceptShapeOf(mac, net, n, state, frame, origin);
    AcceptShapeStep(net, net', net'.log[|net.log|]);
  }

  /** Everything accepted so far on a stream is numbered no higher than the last acceptance. */
  lemma AcceptedBelow(net: Net, n: NodeId, id: u16, a: nat)
    requires (forall a: nat :: a < |net.log| ==> EntryOk(net, a)) && Increasing(net)
    requires a < |net.log| && net.log[a].node == n && net.log[a].id == id
    ensures net.log[a].origin < |net.sent|
    ensures net.sent[net.log[a].origin].sequenceNumber <= AcceptedNumber(net, n, id)
  {
    LastAcceptedIs(net.log, n, id);
    var b :| 0 <= b < |net.log| && net.log[b].node == n && net.log[b].id == id
        && net.log[b].origin == LastAccepted(net.log, n, id).value
             && forall c :: b < c < |net.log| ==> !(net.log[c].node == n && net.log[c].id == id);
    assert EntryOk(net, a) && EntryOk(net, b);
    if a < b { assert SameStream(net, a, b); }
  }

  lemma StepInv(mac: KeyedMac, net: Net, e: Event)
    requires Inv(net) && Enabled(mac, net, e)
    ensures Inv(Next(mac, net, e))
  {
    match e
    case Send(n, id, wallNanos) => SendStep(mac, net, n, id, wallNanos);
    case Deliver(n, state, frame, origin) => DeliverStep(mac, net, n, state, frame, origin);
    case ChangeOutput(_, _) => QuietStep(net, Next(mac, net, e));
    case Restart(_) => QuietStep(net, Next(mac, net, e));
  }

  lemma {:induction false} ExecInv(mac: KeyedMac, net: Net, events: seq<Event>)
    requires Inv(net) && Legal(mac, net, events)
    ensures Inv(Exec(mac, net, events))
    decreases |events|
  {
    if events != [] {
      var n := |events| - 1;
      ExecInv(mac, net, events[..n]);
      StepInv(mac, Exec(mac, net, events[..n]), events[n]);
    }
  }

  // ---------- consequences for runs ----------

  /** The numbers of one stream never fall along the order of sending. */
  lemma NumbersFollowSends(net: Net, k: nat, l: nat)
    requires forall k: nat :: k < |net.sent| ==> SentOk(net, k)
    requires k < l < |net.sent| && net.sent[k].header.streamId == net.sent[l].header.streamId
    ensures net.sent[k].sequenceNumber <= net.sent[l].sequenceNumber
    ensures net.sent[l].sequenceNumber < U64_MAX ==> net.sent[k].sequenceNumber < net.sent[l].sequenceNumber
  {
    var id := net.sent[k].header.streamId;
    assert SentOk(net, k) && SentOk(net, l);
    CountPrefix(net.sent[..l], id, k);
    assert net.sent[..l][..k] == net.sent[..k] && net.sent[..l][..k + 1] == net.sent[..k + 1]
           && net.sent[..l][k] == net.sent[k];
    assert Count(net.sent[..k], id) < Count(net.sent[..l], id);
  }

  lemma AcceptedInOrder(net: Net, a: nat, b: nat)
    requires Inv(net) && a < b < |net.log| && SameStream(net, a, b)
    ensures var ka, kb := net.log[a].origin, net.log[b].origin;
            && ka < kb < |net.sent|
            && net.sent[ka].header.streamId == net.sent[kb].header.streamId == net.log[a].id
            && net.sent[ka].sequenceNumber < net.sent[kb].sequenceNumber
  {
    assert EntryOk(net, a) && EntryOk(net, b);
    var ka, kb := net.log[a].origin, net.log[b].origin;
    if kb < ka { NumbersFollowSends(net, kb, ka); }
  }

  /**
   For every run from freshly configured stores: what a node accepts on a stream is a
   subsequence of what was sent on it, in the order of sending, with strictly increasing
   sequence numbers, and no send is accepted twice.
   */
  lemma {:induction false} AcceptedIsSubsequence(mac: KeyedMac, net: Net, events: seq<Event>, a: nat, b: nat)
    requires Initial(net) && Legal(mac, net, events)
    requires a < b < |Exec(mac, net, events).log|
    requires SameStream(Exec(mac, net, events), a, b)
    ensures var end := Exec(mac, net, events);
            var ka, kb := end.log[a].origin, end.log[b].origin;
            && ka < kb < |end.sent|
            && end.sent[ka].header.streamId == end.sent[kb].header.streamId == end.log[a].id
            && end.sent[ka].sequenceNumber < end.sent[kb].sequenceNumber
  {
    InitialInv(net);
    ExecInv(mac, net, events);
    AcceptedInOrder(Exec(mac, net, events), a, b);
  }

  /** The snapshots in which a node's receiver looks at frames: Op, and on the master SafeOp too. */
  predicate Processes(role: Role, state: DeviceState) {
    state == Op || (state == SafeOp && role.MasterRole?)
  }

  /**
   Exactly which frames are accepted: in every reachable state a node takes what it is handed if
   and only if its receiver runs, the snapshot is one in which it processes, the frame is an
   authentic one of its input streams, and nothing with that number or a higher one has been
   accepted on the stream before.
   */
  lemma AcceptedIff(mac: KeyedMac, net: Net, n: NodeId, state: DeviceState, frame: Option<Bytes>, origin: nat)
    requires Inv(net) && Enabled(mac, net, Deliver(n, state, frame, origin))
    ensures Received(mac, net.nodes[n], state, frame).outcome.Accepted? <==>
            && net.nodes[n].local.running && Processes(net.nodes[n].role, state)
            && Authentic(mac, frame).Some? && Authentic(mac, frame).value.header.streamId in net.nodes[n].streamMap
            && NewAt(net, n, origin)
  {
    var nd := net.nodes[n];
    assert WellFormed(nd);
    AcceptedWhen(mac, nd, state, frame);
    if Authentic(mac, frame).Some? && Authentic(mac, frame).value.header.streamId in nd.streamMap {
      NewerIff(mac, net, n, Authentic(mac, frame).value, origin);
    }
  }

  /** Node `n` has accepted nothing with the number of send `origin` or a higher one on its stream. */
  ghost predicate NewAt(net: Net, n: NodeId, origin: nat)
    requires origin < |net.sent|
  {
    forall a: nat ::
      && a < |net.log| && net.log[a].node == n
      && net.log[a].id == net.sent[origin].header.streamId ==>
        && net.log[a].origin < |net.sent|
        && net.sent[net.log[a].origin].sequenceNumber < net.sent[origin].sequenceNumber
  }

  /** Acceptance by the counter in the store. */
  lemma AcceptedWhen(mac: KeyedMac, nd: Node, state: DeviceState, frame: Option<Bytes>)
    requires WellFormed(nd)
    ensures Received(mac, nd, state, frame).outcome.Accepted? <==>
            && nd.local.running && Processes(nd.role, state)
            && Authentic(mac, frame).Some? && Authentic(mac, frame).value.header.streamId in nd.streamMap
            && var p := Authentic(mac, frame).value;
               p.sequenceNumber > nd.streams[p.header.streamId].sequenceNumber
  {
  }

  /** The counter of an input stream separates what was accepted from what is new. */
  lemma NewerIff(mac: KeyedMac, net: Net, n: NodeId, p: ParsedL2Frame, origin: nat)
    requires Inv(net) && n in net.nodes && p.header.streamId in net.nodes[n].streamMap
    requires origin < |net.sent| && Carries(p, net.sent[origin])
    ensures p.header.streamId in net.nodes[n].streams
    ensures p.sequenceNumber > net.nodes[n].streams[p.header.streamId].sequenceNumber <==> NewAt(net, n, origin)
  {
    var id := p.header.streamId;
    assert WellFormed(net.nodes[n]) && SentOk(net, origin) && CounterOk(net, n, id);
    LastAcceptedIs(net.log, n, id);
    if p.sequenceNumber > net.nodes[n].streams[id].sequenceNumber {
      forall a: nat | a < |net.log| && net.log[a].node == n && net.log[a].id == id
        ensures net.log[a].origin < |net.sent|
        ensures net.sent[net.log[a].origin].sequenceNumber < net.sent[origin].sequenceNumber
      {
        AcceptedBelow(net, n, id, a);
      }
    }
  }
}
