/** Where the bits of an input image come from, over whole runs of the data plane. */
module L2Provenance {
  import opened Types
  import opened Bits
  import opened BitField
  import opened ProcessImage
  import opened Crypto
  import opened StreamStore
  import opened L2Receiver
  import opened L2Network
  import opened L2Safety

  /** The stream's field, when it has one that lies in the image. */
  predicate HasField(nd: Node, c: StreamConfig) {
    c.content.Some? && FieldFits(KindOf(nd.role), |nd.input|, c.content.value)
  }

  function Start(nd: Node, c: StreamConfig): nat
    requires c.content.Some?
  {
    FieldStart(KindOf(nd.role), c.content.value)
  }

  function Len(nd: Node, c: StreamConfig): nat
    requires c.content.Some?
  {
    FieldLen(KindOf(nd.role), c.content.value)
  }

  /** The input streams of a node occupy disjoint bits. */
  ghost predicate DisjointFields(nd: Node) {
    forall i, j ::
      && i in nd.streamMap && j in nd.streamMap && i != j
      && HasField(nd, nd.streamMap[i]) && HasField(nd, nd.streamMap[j]) ==>
      Disjoint(Start(nd, nd.streamMap[i]), Len(nd, nd.streamMap[i]), Start(nd, nd.streamMap[j]),
               Len(nd, nd.streamMap[j]))
  }

  ghost predicate InSomeField(nd: Node, m: nat) {
    exists i :: i in nd.streamMap && HasField(nd, nd.streamMap[i]) &&
      Start(nd, nd.streamMap[i]) <= m < Start(nd, nd.streamMap[i]) + Len(nd, nd.streamMap[i])
  }

  /** What stream `id`'s field of node `n` should hold: its first content, or the payload last applied. */
  ghost function Expected(first: Bytes, net: Net, n: NodeId, id: u16): seq<bool>
    requires n in net.nodes && id in net.nodes[n].streamMap && net.nodes[n].streamMap[id].content.Some?
  {
    var nd := net.nodes[n];
    var c := nd.streamMap[id];
    match LastApplied(net.log, n, id)
    case None => FieldBits(first, Start(nd, c), Len(nd, c))
    case Some(k) => if k < |net.sent| then FieldBits(net.sent[k].payload, 0, Len(nd, c)) else []
  }

  ghost predicate FieldOk(first: Bytes, net: Net, n: NodeId, id: u16)
    requires n in net.nodes && id in net.nodes[n].streamMap
  {
    var nd := net.nodes[n];
    var c := nd.streamMap[id];
    HasField(nd, c) ==> FieldBits(nd.input, Start(nd, c), Len(nd, c)) == Expected(first, net, n, id)
  }

  /** The image of node `n` against its first content. */
  ghost predicate ImageOk(first: Bytes, net: Net, n: NodeId)
    requires n in net.nodes
  {
    var nd := net.nodes[n];
    && |nd.input| == |first|
    && DisjointFields(nd)
    && (forall id :: id in nd.streamMap ==> FieldOk(first, net, n, id))
    && (forall m: nat :: m < 8 * |first| && !InSomeField(nd, m) ==> ImageBit(nd.input, m) == ImageBit(first, m))
  }

  lemma {:induction false} LastAppliedIsLogged(log: seq<Entry>, n: NodeId, id: u16)
    ensures LastApplied(log, n, id).Some? ==>
              exists a :: 0 <= a < |log| && log[a].node == n && log[a].id == id && log[a].applied
                  && log[a].origin == LastApplied(log, n, id).value
  {
    if log != [] {
      var front := log[..|log| - 1];
      LastAppliedIsLogged(front, n, id);
      var last := log[|log| - 1];
      if last.node == n && last.id == id && last.applied {
        assert log[|log| - 1].origin == LastApplied(log, n, id).value;
      } else if LastApplied(front, n, id).Some? {
        var a :| 0 <= a < |front| && front[a].node == n && front[a].id == id && front[a].applied
            && front[a].origin == LastApplied(front, n, id).value;
        assert log[a] == front[a];
      }
    }
  }

  /** Nothing moves at node `n`: its image and what was applied to it are as before. */
  lemma ImageCarries(first: Bytes, net: Net, net': Net, n: NodeId)
    requires Inv(net) && SameConfigs(net, net') && n in net.nodes && net.sent <= net'.sent
    requires net'.nodes[n].input == net.nodes[n].input
    requires forall id :: LastApplied(net'.log, n, id) == LastApplied(net.log, n, id)
    requires ImageOk(first, net, n)
    ensures ImageOk(first, net', n)
  {
    var nd, nd' := net.nodes[n], net'.nodes[n];
    forall id | id in nd'.streamMap ensures FieldOk(first, net', n, id) {
      assert FieldOk(first, net, n, id);
      LastAppliedIsLogged(net.log, n, id);
      if LastApplied(net.log, n, id).Some? {
        var a: nat :| a < |net.log| && net.log[a].origin == LastApplied(net.log, n, id).value;
        assert EntryOk(net, a);
      }
    }
    forall m: nat | m < 8 * |first| && !InSomeField(nd', m) ensures ImageBit(nd'.input, m) == ImageBit(first, m) {
      assert !InSomeField(nd, m);
    }
  }

  /** An applied packet overwrites exactly its stream's field with the leading bits of the payload. */
  lemma HandleInputWrites(kind: ImageKind, input: Bytes, c: StreamConfig, payload: Bytes)
    requires HandleInput(kind, input, c, payload).Ok?
    ensures c.content.Some? && FieldFits(kind, |input|, c.content.value)
    ensures var p := c.content.value;
            HandleInput(kind, input, c, payload).value ==
            WriteField(input, FieldStart(kind, p), FieldBits(payload, 0, FieldLen(kind, p)))
  {
    var p := c.content.value;
    var expected := BitLenToByteLen(p.bitLen);
    var bits := Unpack(payload[..expected])[..FieldLen(kind, p)];
    forall i | 0 <= i < FieldLen(kind, p) ensures bits[i] == FieldBits(payload, 0, FieldLen(kind, p))[i] {
      assert payload[..expected][i / 8] == payload[i / 8];
    }
    assert bits == FieldBits(payload, 0, FieldLen(kind, p));
  }

  /** A write into one field keeps the image in order. */
  lemma ImageWrite(first: Bytes, net: Net, net': Net, n: NodeId, id: u16, k: nat)
    requires SameConfigs(net, net') && n in net.nodes && net'.sent == net.sent && k < |net.sent|
    requires ImageOk(first, net, n) && id in net.nodes[n].streamMap
             && HasField(net.nodes[n], net.nodes[n].streamMap[id])
    requires var nd, c := net.nodes[n], net.nodes[n].streamMap[id];
             net'.nodes[n].input == WriteField(nd.input, Start(nd, c), FieldBits(net.sent[k].payload, 0, Len(nd, c)))
    requires LastApplied(net'.log, n, id) == Some(k)
    requires forall i :: i != id ==> LastApplied(net'.log, n, i) == LastApplied(net.log, n, i)
    ensures ImageOk(first, net', n)
  {
    var nd, nd' := net.nodes[n], net'.nodes[n];
    var c := nd.streamMap[id];
    var bits := FieldBits(net.sent[k].payload, 0, Len(nd, c));
    forall i | i in nd'.streamMap ensures FieldOk(first, net', n, i) {
      assert FieldOk(first, net, n, i);
      if i == id {
        ReadBack(nd.input, Start(nd, c), bits);
      } else if HasField(nd, nd.streamMap[i]) {
        ReadElsewhere(nd.input, Start(nd, c), bits, Start(nd, nd.streamMap[i]), Len(nd, nd.streamMap[i]));
      }
    }
    forall m: nat | m < 8 * |first| && !InSomeField(nd', m) ensures ImageBit(nd'.input, m) == ImageBit(first, m) {
      WriteFieldBit(nd.input, Start(nd, c), bits, m);
      assert !InSomeField(nd, m);
    }
  }

  lemma SnocLog(log: seq<Entry>, e: Entry, n: NodeId, id: u16)
    ensures LastApplied(log + [e], n, id) ==
            if e.node == n && e.id == id && e.applied then Some(e.origin) else LastApplied(log, n, id)
  {
    assert (log + [e])[..|log|] == log;
  }

  lemma DeliverImage(
    mac: KeyedMac, first: Bytes, net: Net, n: NodeId, state: DeviceState, frame: Option<Bytes>, origin: nat, m: NodeId)
    requires Inv(net) && Enabled(mac, net, Deliver(n, state, frame, origin)) && m in net.nodes
    requires Received(mac, net.nodes[n], state, frame).outcome.Accepted?
    requires ImageOk(first, net, m)
    ensures m in Next(mac, net, Deliver(n, state, frame, origin)).nodes
    ensures ImageOk(first, Next(mac, net, Deliver(n, state, frame, origin)), m)
  {
    var net' := Next(mac, net, Deliver(n, state, frame, origin));
    AcceptShapeOf(mac, net, n, state, frame, origin);
    var e := net'.log[|net.log|];
    forall id
      ensures LastApplied(net'.log, m, id) ==
              if e.node == m && e.id == id && e.applied then Some(origin) else LastApplied(net.log, m, id)
    {
      SnocLog(net.log, e, m, id);
    }
    assert WellFormed(net.nodes[n]);
    ReceiveCases(mac, net.nodes[n], state, frame);
    if m == n && e.applied {
      var nd, p := net.nodes[n], Authentic(mac, frame).value;
      HandleInputWrites(KindOf(nd.role), nd.input, nd.streamMap[e.id], p.payload);
      ImageWrite(first, net, net', n, e.id, origin);
    } else {
      ImageCarries(first, net, net', m);
    }
  }

  lemma IgnoredImage(
    mac: KeyedMac, first: Bytes, net: Net, n: NodeId, state: DeviceState, frame: Option<Bytes>, origin: nat, m: NodeId)
    requires Inv(net) && Enabled(mac, net, Deliver(n, state, frame, origin)) && m in net.nodes
    requires Received(mac, net.nodes[n], state, frame).outcome.Ignored?
    requires ImageOk(first, net, m)
    ensures m in Next(mac, net, Deliver(n, state, frame, origin)).nodes
    ensures ImageOk(first, Next(mac, net, Deliver(n, state, frame, origin)), m)
  {
    assert WellFormed(net.nodes[n]);
    ReceiveCases(mac, net.nodes[n], state, frame);
    ImageCarries(first, net, Next(mac, net, Deliver(n, state, frame, origin)), m);
  }

  lemma SendImage(mac: KeyedMac, first: Bytes, net: Net, n: NodeId, id: u16, wallNanos: nat, m: NodeId)
    requires Inv(net) && Enabled(mac, net, Send(n, id, wallNanos)) && m in net.nodes && ImageOk(first, net, m)
    ensures m in Next(mac, net, Send(n, id, wallNanos)).nodes
            && ImageOk(first, Next(mac, net, Send(n, id, wallNanos)), m)
  {
    SendEffect(mac, net, n, id, wallNanos);
    ImageCarries(first, net, Next(mac, net, Send(n, id, wallNanos)), m);
  }

  lemma QuietImage(mac: KeyedMac, first: Bytes, net: Net, e: Event, m: NodeId)
    requires Inv(net) && Enabled(mac, net, e) && m in net.nodes && ImageOk(first, net, m)
    requires e.ChangeOutput? || e.Restart?
    ensures m in Next(mac, net, e).nodes && ImageOk(first, Next(mac, net, e), m)
  {
    ImageCarries(first, net, Next(mac, net, e), m);
  }

  lemma StepImage(mac: KeyedMac, first: Bytes, net: Net, e: Event, m: NodeId)
    requires Inv(net) && Enabled(mac, net, e) && m in net.nodes && ImageOk(first, net, m)
    ensures m in Next(mac, net, e).nodes && ImageOk(first, Next(mac, net, e), m)
  {
    match e
    case Send(n, id, wallNanos) => SendImage(mac, first, net, n, id, wallNanos, m);
    case ChangeOutput(_, _) => QuietImage(mac, first, net, e, m);
    case Restart(_) => QuietImage(mac, first, net, e, m);
    case Deliver(n, state, frame, origin) =>
      if Received(mac, net.nodes[n], state, frame).outcome.Accepted? {
        DeliverImage(mac, first, net, n, state, frame, origin, m);
      } else {
        IgnoredImage(mac, first, net, n, state, frame, origin, m);
      }
  }

  lemma {:induction false} RunImage(mac: KeyedMac, net: Net, events: seq<Event>, n: NodeId)
    requires Initial(net) && Legal(mac, net, events)
    requires n in net.nodes && DisjointFields(net.nodes[n])
    ensures n in Exec(mac, net, events).nodes && Inv(Exec(mac, net, events))
    ensures ImageOk(net.nodes[n].input, Exec(mac, net, events), n)
    decreases |events|
  {
    InitialInv(net);
    ExecInv(mac, net, events);
    if events != [] {
      var l := |events| - 1;
      RunImage(mac, net, events[..l], n);
      StepImage(mac, net.nodes[n].input, Exec(mac, net, events[..l]), events[l], n);
    }
  }

  /** The output field of the sender when it sent `net.sent[k]`, as `width` bits. */
  ghost function OutputField(net: Net, k: nat, width: nat): seq<bool>
    requires k < |net.sent| && net.sent[k].node in net.nodes && net.sent[k].config.content.Some?
  {
    var s := net.sent[k];
    var kind := KindOf(net.nodes[s.node].role);
    Extended(s.output, FieldStart(kind, s.config.content.value), FieldLen(kind, s.config.content.value), width)
  }

  /** A send that carried no error status read its payload from the sender's output field. */
  lemma PayloadIsOutputField(net: Net, k: nat, width: nat)
    requires k < |net.sent| && SentOk(net, k) && net.sent[k].header.status == NoError.Code()
    ensures net.sent[k].config.content.Some?
    ensures FieldBits(net.sent[k].payload, 0, width) == OutputField(net, k, width)
  {
    var s := net.sent[k];
    var kind := KindOf(net.nodes[s.node].role);
    var p := s.config.content.value;
    assert s.payload == ReadField(s.output, FieldStart(kind, p), FieldLen(kind, p));
    ReadExtended(s.output, FieldStart(kind, p), FieldLen(kind, p), width);
  }

  /** A stream's field at node `n` holds its first content or the output field behind the last applied send. */
  ghost predicate FieldHolds(first: Bytes, net: Net, n: NodeId, id: u16)
    requires n in net.nodes && id in net.nodes[n].streamMap && net.nodes[n].streamMap[id].content.Some?
  {
    var nd := net.nodes[n];
    var start, len := Start(nd, nd.streamMap[id]), Len(nd, nd.streamMap[id]);
    match LastApplied(net.log, n, id)
    case None => FieldBits(nd.input, start, len) == FieldBits(first, start, len)
    case Some(k) =>
      && k < |net.sent| && net.sent[k].header.streamId == id
      && net.sent[k].node in net.nodes && net.sent[k].config.content.Some?
      && FieldBits(nd.input, start, len) == OutputField(net, k, len)
  }

  /** The send applied last is a clean send of that stream. */
  lemma AppliedSend(net: Net, n: NodeId, id: u16)
    requires Inv(net) && LastApplied(net.log, n, id).Some?
    ensures var k := LastApplied(net.log, n, id).value;
            && k < |net.sent| && SentOk(net, k)
            && net.sent[k].header.streamId == id && net.sent[k].header.status == NoError.Code()
  {
    LastAppliedIsLogged(net.log, n, id);
    var a: nat :| a < |net.log| && net.log[a].node == n && net.log[a].id == id && net.log[a].applied
        && net.log[a].origin == LastApplied(net.log, n, id).value;
    assert EntryOk(net, a);
    assert SentOk(net, net.log[a].origin);
  }

  lemma FieldOkHolds(first: Bytes, net: Net, n: NodeId, id: u16)
    requires Inv(net) && n in net.nodes && id in net.nodes[n].streamMap && FieldOk(first, net, n, id)
    requires HasField(net.nodes[n], net.nodes[n].streamMap[id])
    ensures FieldHolds(first, net, n, id)
  {
    if LastApplied(net.log, n, id).Some? {
      AppliedSend(net, n, id);
      PayloadIsOutputField(net, LastApplied(net.log, n, id).value, Len(net.nodes[n], net.nodes[n].streamMap[id]));
    }
  }

  /**
   Over every run with disjoint input fields: each input field holds its first content or what
   the sender's output field held when the frame applied last was sent (zero bits where the
   sender's field is the shorter one); and every bit outside the input fields is as it was at
   the start.
   */
  lemma {:induction false} FieldProvenance(mac: KeyedMac, net: Net, events: seq<Event>, n: NodeId)
    requires Initial(net) && Legal(mac, net, events)
    requires n in net.nodes && DisjointFields(net.nodes[n])
    ensures var end := Exec(mac, net, events);
            && n in end.nodes
            && (forall id :: id in end.nodes[n].streamMap && HasField(end.nodes[n], end.nodes[n].streamMap[id]) ==>
                  FieldHolds(net.nodes[n].input, end, n, id))
            && (forall m: nat :: m < 8 * |net.nodes[n].input| && !InSomeField(end.nodes[n], m) ==>
                  ImageBit(end.nodes[n].input, m) == ImageBit(net.nodes[n].input, m))
  {
    RunImage(mac, net, events, n);
    var end := Exec(mac, net, events);
    forall id | id in end.nodes[n].streamMap && HasField(end.nodes[n], end.nodes[n].streamMap[id])
      ensures FieldHolds(net.nodes[n].input, end, n, id)
    {
      assert FieldOk(net.nodes[n].input, end, n, id);
      FieldOkHolds(net.nodes[n].input, end, n, id);
    }
  }

  /**
   An input image changes only in a step that accepts a frame under a state snapshot in which
   the node processes: Op for a slave, Op or SafeOp for a master.
   */
  lemma WritesNeedActiveSnapshot(mac: KeyedMac, net: Net, e: Event, n: NodeId)
    requires Inv(net) && Enabled(mac, net, e) && n in net.nodes
    requires Next(mac, net, e).nodes[n].input != net.nodes[n].input
    ensures e.Deliver? && e.node == n
    ensures net.nodes[n].role == SlaveRole ==> e.state == Op
    ensures net.nodes[n].role == MasterRole ==> e.state == Op || e.state == SafeOp
    ensures Received(mac, net.nodes[n], e.state, e.frame).outcome == Accepted(true)
    ensures Authentic(mac, e.frame).Some? && Authentic(mac, e.frame).value.header.status == NoError.Code()
  {
    assert WellFormed(net.nodes[e.node]);
    if e.Deliver? { ReceiveCases(mac, net.nodes[e.node], e.state, e.frame); }
  }
}
