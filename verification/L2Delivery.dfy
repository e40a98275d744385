/** Honest traffic gets through: build, parse, tag and freshness checks never reject it. */
module L2Delivery {
  import opened Types
  import opened AuthFooter
  import opened L2Frame
  import opened Crypto
  import opened StreamStore
  import opened L2Receiver
  import opened L2Sender
  import opened L2Network
  import opened L2Safety
  import opened L2Running

  /** A frame built around a correct tag is authentic, whatever its addresses and VLAN tag. */
  lemma BuiltIsAuthentic(
    mac: KeyedMac, source: Mac, destination: Mac, vlan: u16, header: L2Header, payload: Bytes, sequenceNumber: u64)
    ensures var tag := mac(TaggedBytes(header, payload, sequenceNumber));
            Authentic(mac, Some(FrameBytes(source, destination, vlan, header, payload,
                                           SecurityFooter(sequenceNumber, tag)))) ==
            Some(ParsedL2Frame(destination, source, vlan, header, payload, sequenceNumber, tag))
  {
    var tag := mac(TaggedBytes(header, payload, sequenceNumber));
    ParseBuild(source, destination, vlan, header, payload, SecurityFooter(sequenceNumber, tag));
  }

  /** The frame that a send puts on the wire. */
  function FrameOf(mac: KeyedMac, nd: Node, id: u16, wallNanos: nat): Option<Bytes>
    requires id in nd.streams
  {
    match SendFrame(mac, nd.source, KindOf(nd.role), nd.streams, nd.output, nd.streams[id].config, wallNanos).0
    case Built(frame) => Some(frame)
    case _ => None
  }

  /** It is authentic, carries that send, and goes from the node to the configured destination and VLAN. */
  lemma BuiltFrameIsAuthentic(mac: KeyedMac, nd: Node, n: NodeId, id: u16, wallNanos: nat)
    requires WellFormed(nd) && IsOutput(nd.streams, id) && Sendable(nd.streams[id].config)
    ensures var frame := FrameOf(mac, nd, id, wallNanos);
            && Authentic(mac, frame).Some? && Authentic(mac, frame).value.header.streamId == id
            && Carries(Authentic(mac, frame).value, SentRecord(nd, n, id, wallNanos))
            && Authentic(mac, frame).value.destination == nd.streams[id].config.destinationMac[..6]
            && Authentic(mac, frame).value.source == nd.source
            && Authentic(mac, frame).value.vlanIdPcp == nd.streams[id].config.vlanIdPcp % 0x1_0000
  {
    var c := nd.streams[id].config;
    var (header, payload) := Compose(KindOf(nd.role), nd.output, c, wallNanos);
    assert header.streamId == id;
    BuiltIsAuthentic(mac, nd.source, c.destinationMac[..6], c.vlanIdPcp % 0x1_0000, header, payload,
                     nd.streams[id].sequenceNumber);
  }

  /** The event hands node `n` an authentic frame of stream `id`. */
  ghost predicate DeliversTo(mac: KeyedMac, e: Event, n: NodeId, id: u16) {
    && e.Deliver? && e.node == n
    && Authentic(mac, e.frame).Some? && Authentic(mac, e.frame).value.header.streamId == id
  }

  /** A step that logs something delivered an authentic frame of that stream. */
  lemma LoggedStep(mac: KeyedMac, net: Net, e: Event)
    requires Inv(net) && Enabled(mac, net, e) && |Next(mac, net, e).log| > |net.log|
    ensures var entry := Next(mac, net, e).log[|net.log|];
            DeliversTo(mac, e, entry.node, entry.id) && e.origin == entry.origin
  {
    assert WellFormed(net.nodes[e.node]);
    ReceiveCases(mac, net.nodes[e.node], e.state, e.frame);
  }

  lemma LogGrows(mac: KeyedMac, net: Net, e: Event)
    requires Enabled(mac, net, e)
    ensures var net' := Next(mac, net, e);
            |net.log| <= |net'.log| <= |net.log| + 1 && net'.log[..|net.log|] == net.log
  {
  }

  /** One of the first `n` events delivered what the entry says. */
  ghost predicate StemsFrom(mac: KeyedMac, events: seq<Event>, n: nat, entry: Entry) {
    exists j :: 0 <= j < n <= |events| && DeliversTo(mac, events[j], entry.node, entry.id)
        && events[j].origin == entry.origin
  }

  /** All acceptances stem from the first `n` events. */
  ghost predicate AllStem(mac: KeyedMac, events: seq<Event>, n: nat, log: seq<Entry>) {
    forall a :: 0 <= a < |log| ==> StemsFrom(mac, events, n, log[a])
  }

  lemma StemStep(mac: KeyedMac, events: seq<Event>, n: nat, net: Net)
    requires n < |events| && Inv(net) && Enabled(mac, net, events[n]) && AllStem(mac, events, n, net.log)
    ensures AllStem(mac, events, n + 1, Next(mac, net, events[n]).log)
  {
    LogGrows(mac, net, events[n]);
    var log' := Next(mac, net, events[n]).log;
    forall a | 0 <= a < |log'| ensures StemsFrom(mac, events, n + 1, log'[a]) {
      if a < |net.log| {
        assert log'[..|net.log|][a] == log'[a];
        assert StemsFrom(mac, events, n, net.log[a]);
      } else {
        LoggedStep(mac, net, events[n]);
      }
    }
  }

  /** Every acceptance stems from a delivery of an authentic frame of that stream with that origin. */
  lemma {:induction false} LogFromDeliveries(mac: KeyedMac, net: Net, events: seq<Event>, n: nat)
    requires Initial(net) && Legal(mac, net, events) && n <= |events| && Legal(mac, net, events[..n])
    ensures AllStem(mac, events, n, Exec(mac, net, events[..n]).log)
    decreases n
  {
    if n > 0 {
      LegalPrefix(mac, net, events, n - 1);
      LogFromDeliveries(mac, net, events, n - 1);
      InitialInv(net);
      ExecInv(mac, net, events[..n - 1]);
      StemStep(mac, events, n - 1, Exec(mac, net, events[..n - 1]));
    }
  }

  /** Before the counter saturates, later sends of a stream carry higher numbers. */
  lemma LaterSendHigherNumber(net: Net, k: nat, l: nat)
    requires forall k: nat :: k < |net.sent| ==> SentOk(net, k)
    requires k < l < |net.sent| && net.sent[k].header.streamId == net.sent[l].header.streamId
    requires Count(net.sent[..l], net.sent[l].header.streamId) < U64_MAX
    ensures net.sent[k].sequenceNumber < net.sent[l].sequenceNumber
  {
    var id := net.sent[k].header.streamId;
    assert SentOk(net, k) && SentOk(net, l);
    CountPrefix(net.sent[..l], id, k);
    assert net.sent[..l][..k] == net.sent[..k] && net.sent[..l][..k + 1] == net.sent[..k + 1]
           && net.sent[..l][k] == net.sent[k];
  }

  /** A send behind all deliveries of its stream to a node is new there. */
  lemma InOrderIsNew(mac: KeyedMac, at: Net, events: seq<Event>, i: nat, n: NodeId, id: u16, origin: nat)
    requires Inv(at) && i <= |events| && AllStem(mac, events, i, at.log)
    requires origin < |at.sent| && at.sent[origin].header.streamId == id && Count(at.sent[..origin], id) < U64_MAX
    requires forall j :: 0 <= j < i && DeliversTo(mac, events[j], n, id) ==> events[j].origin < origin
    ensures NewAt(at, n, origin)
  {
    forall a: nat | a < |at.log| && at.log[a].node == n && at.log[a].id == id
      ensures at.log[a].origin < |at.sent|
      ensures at.sent[at.log[a].origin].sequenceNumber < at.sent[origin].sequenceNumber
    {
      assert EntryOk(at, a);
      assert StemsFrom(mac, events, i, at.log[a]);
      LaterSendHigherNumber(at, at.log[a].origin, origin);
    }
  }

  /**
   When a stream's frames reach a running receiver in a processing snapshot in the order of sending, each at most
   once, every one of the first 2^64 - 1 of them is accepted, whatever happens on other
   streams and whatever else the network delivers.
   */
  lemma {:induction false} InOrderDeliveryIsAccepted(mac: KeyedMac, net: Net, events: seq<Event>, i: nat, id: u16)
    requires Initial(net) && Legal(mac, net, events) && i < |events| && Legal(mac, net, events[..i])
    requires events[i].node in net.nodes && id in net.nodes[events[i].node].streamMap
    requires DeliversTo(mac, events[i], events[i].node, id)
    requires Processes(net.nodes[events[i].node].role, events[i].state)
    requires StillRuns(events[..i], events[i].node, net.nodes[events[i].node].local.running)
    requires events[i].origin < |Exec(mac, net, events[..i]).sent| ==>
               Count(Exec(mac, net, events[..i]).sent[..events[i].origin], id) < U64_MAX
    requires forall j :: 0 <= j < i && DeliversTo(mac, events[j], events[i].node, id) ==>
             events[j].origin < events[i].origin
    ensures events[i].node in Exec(mac, net, events[..i]).nodes
    ensures Received(mac, Exec(mac, net, events[..i]).nodes[events[i].node], events[i].state,
                     events[i].frame).outcome.Accepted?
  {
    var at := Exec(mac, net, events[..i]);
    var n, origin := events[i].node, events[i].origin;
    LegalPrefix(mac, net, events, i);
    InitialInv(net);
    ExecInv(mac, net, events[..i]);
    ExecNodes(mac, net, events[..i], n);
    RunsIff(mac, net, events[..i], n);
    LogFromDeliveries(mac, net, events, i);
    AcceptedIff(mac, at, n, events[i].state, events[i].frame, origin);
    InOrderIsNew(mac, at, events, i, n, id, origin);
  }

  lemma RunOfTwo(mac: KeyedMac, net: Net, e1: Event, e2: Event)
    requires Enabled(mac, net, e1) && Enabled(mac, Next(mac, net, e1), e2)
    ensures Legal(mac, net, [e1]) && Exec(mac, net, [e1]) == Next(mac, net, e1)
    ensures Legal(mac, net, [e1, e2]) && Exec(mac, net, [e1, e2]) == Next(mac, Next(mac, net, e1), e2)
  {
    LegalSnoc(mac, net, [], e1);
    assert [] + [e1] == [e1];
    LegalSnoc(mac, net, [e1], e2);
    assert [e1] + [e2] == [e1, e2];
  }

  /** After the first send its frame may be delivered to a receiver of the stream, which has not changed. */
  lemma FirstSend(mac: KeyedMac, net: Net, n: NodeId, id: u16, wallNanos: nat, m: NodeId)
    requires Initial(net) && Enabled(mac, net, Send(n, id, wallNanos)) && m in net.nodes && id in net.nodes[m].streamMap
    ensures var net' := Next(mac, net, Send(n, id, wallNanos));
            var frame := FrameOf(mac, net.nodes[n], id, wallNanos);
            && m in net'.nodes && net'.nodes[m] == net.nodes[m]
            && |net'.sent| == 1 && net'.log == []
            && Authentic(mac, frame).Some? && Authentic(mac, frame).value.header.streamId == id
            && Enabled(mac, net', Deliver(m, Op, frame, 0))
  {
    assert WellFormed(net.nodes[n]);
    assert m != n by { assert WellFormed(net.nodes[m]); }
    BuiltFrameIsAuthentic(mac, net.nodes[n], n, id, wallNanos);
  }

  /** An accepted delivery is logged. */
  lemma AcceptanceIsLogged(mac: KeyedMac, net: Net, e: Event)
    requires Enabled(mac, net, e) && e.Deliver? && Received(mac, net.nodes[e.node], e.state, e.frame).outcome.Accepted?
    ensures |Next(mac, net, e).log| == |net.log| + 1
  {
  }

  /** From every fresh system, sending a frame and handing it to a running receiver is a run in which it is accepted. */
  lemma AcceptedRunExists(mac: KeyedMac, net: Net, n: NodeId, id: u16, wallNanos: nat, m: NodeId)
    requires Initial(net) && Enabled(mac, net, Send(n, id, wallNanos))
    requires m in net.nodes && id in net.nodes[m].streamMap && net.nodes[m].local.running
    ensures var run := [Send(n, id, wallNanos), Deliver(m, Op, FrameOf(mac, net.nodes[n], id, wallNanos), 0)];
            Legal(mac, net, run) && |Exec(mac, net, run).log| == 1
  {
    var send, deliver := Send(n, id, wallNanos), Deliver(m, Op, FrameOf(mac, net.nodes[n], id, wallNanos), 0);
    FirstSend(mac, net, n, id, wallNanos, m);
    RunOfTwo(mac, net, send, deliver);
    var run := [send, deliver];
    assert run[..1] == [send];
    InOrderDeliveryIsAccepted(mac, net, run, 1, id);
    AcceptanceIsLogged(mac, Next(mac, net, send), deliver);
  }
}
