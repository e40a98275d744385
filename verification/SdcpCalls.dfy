/** The master's calls as runs of discovery: what a call returns is what the run ends with. */
module SdcpCalls {
  import opened Types
  import opened Crypto
  import opened SdcpCodec
  import opened DiscoveryAuth
  import opened DiscoveryMaster
  import opened SdcpNetwork
  import opened SdcpResults

  /** What the channel yields during a call, each frame with the send it stems from. */
  datatype Inbox = Inbox(frames: seq<Option<Bytes>>, origins: seq<nat>)
  {
    ghost predicate Deliverable(mac: KeyedMac, net: Net) {
      && |origins| == |frames|
      && forall i :: 0 <= i < |frames| ==> Delivered(mac, net, net.own, frames[i], origins[i])
    }

    /** Hearing the first `k` frames. */
    function Hears(k: nat): (r: seq<Event>)
      requires k <= |frames| == |origins|
      ensures |r| == k && forall i :: 0 <= i < k ==> r[i] == MasterHears(frames[i], origins[i])
    {
      if k == 0 then [] else Hears(k - 1) + [MasterHears(frames[k - 1], origins[k - 1])]
    }
  }

  /** The answer that the pending call waits for. */
  ghost predicate Awaited(mac: KeyedMac, net: Net, data: Option<Bytes>)
    requires net.pending.Some? && !net.pending.value.request.Discover?
  {
    var p := net.pending.value;
    IsAnswer(mac, net.contexts, p.request.target, p.request.AnswerCode(), p.transactionId, data)
  }

  /** What the pending call makes of what the channel yields. */
  function CallResult(mac: KeyedMac, net: Net, frames: seq<Option<Bytes>>): (Result<Bytes>, Contexts)
    requires net.pending.Some? && !net.pending.value.request.Discover?
  {
    var p := net.pending.value;
    WaitAll(mac, net.contexts, p.request.target, p.request.AnswerCode(), p.transactionId, frames)
  }

  /** Frame `i` is the first answer that the pending call waits for. */
  ghost predicate FirstAwaited(mac: KeyedMac, net: Net, frames: seq<Option<Bytes>>, i: nat)
    requires net.pending.Some? && !net.pending.value.request.Discover?
  {
    i < |frames| && Awaited(mac, net, frames[i]) && forall j :: 0 <= j < i ==> !Awaited(mac, net, frames[j])
  }

  /** The contexts once frame `i` was taken. */
  function TakenContexts(net: Net, data: Bytes): Contexts
    requires net.pending.Some? && !net.pending.value.request.Discover? && ParseSdcpFrame(data).Some?
    requires net.pending.value.request.target in net.contexts
  {
    var m := net.pending.value.request.target;
    net.contexts[m := net.contexts[m].(lastReceived := ParseSdcpFrame(data).value.body.sequenceNumber)]
  }

  lemma HeardStep(mac: KeyedMac, net: Net, data: Option<Bytes>)
    requires net.pending.Some? && !net.pending.value.request.Discover?
    ensures var net', p := MasterHeard(mac, net, data), net.pending.value;
            if Awaited(mac, net, data) then
              var b := ParseSdcpFrame(data.value).value.body;
              var context := net.contexts[p.request.target].(lastReceived := b.sequenceNumber);
              net' == net.(contexts := net.contexts[p.request.target := context], pending := None)
            else net' == net
  {
    var p := net.pending.value;
    WaitStepIff(mac, net.contexts, p.request.target, p.request.AnswerCode(), p.transactionId, data);
  }

  /** Frames that are not the answer leave the master waiting as it was. */
  lemma {:induction false} UnansweredRun(mac: KeyedMac, net: Net, inbox: Inbox, k: nat)
    requires net.pending.Some? && !net.pending.value.request.Discover?
    requires inbox.Deliverable(mac, net) && k <= |inbox.frames|
    requires forall j :: 0 <= j < k ==> !Awaited(mac, net, inbox.frames[j])
    ensures Legal(mac, net, inbox.Hears(k)) && Exec(mac, net, inbox.Hears(k)) == net
  {
    if k > 0 {
      UnansweredRun(mac, net, inbox, k - 1);
      HeardStep(mac, net, inbox.frames[k - 1]);
      LegalSnoc(mac, net, inbox.Hears(k - 1), MasterHears(inbox.frames[k - 1], inbox.origins[k - 1]));
    }
  }

  /** The first answer ends the call. */
  lemma AnsweredRun(mac: KeyedMac, net: Net, inbox: Inbox, i: nat)
    requires net.pending.Some? && !net.pending.value.request.Discover? && inbox.Deliverable(mac, net)
    requires FirstAwaited(mac, net, inbox.frames, i)
    ensures var frame := inbox.frames[i].value;
            && Legal(mac, net, inbox.Hears(i + 1))
            && Exec(mac, net, inbox.Hears(i + 1)) == net.(contexts := TakenContexts(net, frame), pending := None)
            && Answer(mac, net, Some(frame)) == Some(ParseSdcpFrame(frame).value.body.tlvPayload)
  {
    var p := net.pending.value;
    UnansweredRun(mac, net, inbox, i);
    HeardStep(mac, net, inbox.frames[i]);
    WaitStepIff(mac, net.contexts, p.request.target, p.request.AnswerCode(), p.transactionId, inbox.frames[i]);
    LegalSnoc(mac, net, inbox.Hears(i), MasterHears(inbox.frames[i], inbox.origins[i]));
  }

  /** How the call ends: with the first answer, or with a timeout. */
  lemma CallEnds(mac: KeyedMac, net: Net, frames: seq<Option<Bytes>>) returns (i: Option<nat>)
    requires net.pending.Some? && !net.pending.value.request.Discover?
    ensures match i
            case Some(k) =>
              && FirstAwaited(mac, net, frames, k)
              && CallResult(mac, net, frames) ==
                 (Ok(ParseSdcpFrame(frames[k].value).value.body.tlvPayload), TakenContexts(net, frames[k].value))
            case None =>
              && (forall j :: 0 <= j < |frames| ==> !Awaited(mac, net, frames[j]))
              && CallResult(mac, net, frames) == (Err(ErrTimeout), net.contexts)
  {
    var p := net.pending.value;
    var cs, target, opCode, id := net.contexts, p.request.target, p.request.AnswerCode(), p.transactionId;
    WaitEndsWithFirstAnswer(mac, cs, target, opCode, id, frames);
    if k: nat :| FirstAnswer(mac, cs, target, opCode, id, frames, k) {
      i := Some(k);
      assert forall j: nat :: FirstAnswer(mac, cs, target, opCode, id, frames, j) ==> j == k;
    } else {
      i := None;
    }
  }

  /** The events of a waiting call: what is heard up to the answer, or everything and then giving up. */
  ghost predicate CallEvents(events: seq<Event>, inbox: Inbox, answered: bool)
    requires |inbox.frames| == |inbox.origins|
  {
    if answered then 0 < |events| <= |inbox.frames| && events == inbox.Hears(|events|)
    else events == inbox.Hears(|inbox.frames|) + [GiveUp]
  }

  /**
   The events are a run of the pending call: it leads to the call's contexts, and the call
   returns a payload exactly when the run ends with the answer.
   */
  ghost predicate RunsCall(mac: KeyedMac, net: Net, inbox: Inbox, events: seq<Event>)
    requires net.pending.Some? && !net.pending.value.request.Discover? && |inbox.frames| == |inbox.origins|
  {
    var (r, contexts') := CallResult(mac, net, inbox.frames);
    && Legal(mac, net, events) && Exec(mac, net, events) == net.(contexts := contexts', pending := None)
    && CallEvents(events, inbox, r.Ok?)
    && (r.Ok? ==> Answer(mac, net, inbox.frames[|events| - 1]) == Some(r.value))
  }

  lemma AnsweredCall(mac: KeyedMac, net: Net, inbox: Inbox, k: nat)
    requires net.pending.Some? && !net.pending.value.request.Discover? && inbox.Deliverable(mac, net)
    requires FirstAwaited(mac, net, inbox.frames, k)
    requires CallResult(mac, net, inbox.frames) ==
             (Ok(ParseSdcpFrame(inbox.frames[k].value).value.body.tlvPayload),
              TakenContexts(net, inbox.frames[k].value))
    ensures RunsCall(mac, net, inbox, inbox.Hears(k + 1))
  {
    AnsweredRun(mac, net, inbox, k);
  }

  lemma TimedOutCall(mac: KeyedMac, net: Net, inbox: Inbox)
    requires net.pending.Some? && !net.pending.value.request.Discover? && inbox.Deliverable(mac, net)
    requires forall j :: 0 <= j < |inbox.frames| ==> !Awaited(mac, net, inbox.frames[j])
    requires CallResult(mac, net, inbox.frames) == (Err(ErrTimeout), net.contexts)
    ensures RunsCall(mac, net, inbox, inbox.Hears(|inbox.frames|) + [GiveUp])
  {
    UnansweredRun(mac, net, inbox, |inbox.frames|);
    LegalSnoc(mac, net, inbox.Hears(|inbox.frames|), GiveUp);
  }

  /** A waiting call is a run: hearing frames up to the answer, or all of them and then giving up. */
  lemma WaitIsRun(mac: KeyedMac, net: Net, inbox: Inbox) returns (events: seq<Event>)
    requires net.pending.Some? && !net.pending.value.request.Discover? && inbox.Deliverable(mac, net)
    ensures RunsCall(mac, net, inbox, events)
  {
    var i := CallEnds(mac, net, inbox.frames);
    match i
    case Some(k) =>
      AnsweredCall(mac, net, inbox, k);
      events := inbox.Hears(k + 1);
    case None =>
      TimedOutCall(mac, net, inbox);
      events := inbox.Hears(|inbox.frames|) + [GiveUp];
  }

  lemma DiscoverHeard(mac: KeyedMac, net: Net, at: Net, inbox: Inbox, k: nat)
    requires net.pending.Some? && net.pending.value.request.Discover? && k < |inbox.frames|
    requires var id, frames := net.pending.value.transactionId, inbox.frames[..k];
             at == net.(contexts := ContextsAfter(mac, net.contexts, id, frames),
                        cache := CacheAfter(net.cache, Finds(mac, net.contexts, id, frames)))
    ensures var id, frames := net.pending.value.transactionId, inbox.frames[..k + 1];
            MasterHeard(mac, at, inbox.frames[k]) ==
            net.(contexts := ContextsAfter(mac, net.contexts, id, frames),
                 cache := CacheAfter(net.cache, Finds(mac, net.contexts, id, frames)))
  {
    var id := net.pending.value.transactionId;
    CollectStep(mac, net.contexts, net.cache, id, inbox.frames, k);
    CacheOfOne(at.cache, DiscoverStep(mac, at.contexts, id, inbox.frames[k]).0);
  }

  lemma {:induction false} DiscoverRun(mac: KeyedMac, net: Net, inbox: Inbox, k: nat)
    requires net.pending.Some? && net.pending.value.request.Discover?
    requires inbox.Deliverable(mac, net) && k <= |inbox.frames|
    ensures var id, frames := net.pending.value.transactionId, inbox.frames[..k];
            && Legal(mac, net, inbox.Hears(k))
            && Exec(mac, net, inbox.Hears(k)) ==
               net.(contexts := ContextsAfter(mac, net.contexts, id, frames),
                    cache := CacheAfter(net.cache, Finds(mac, net.contexts, id, frames)))
  {
    if k > 0 {
      DiscoverRun(mac, net, inbox, k - 1);
      DiscoverHeard(mac, net, Exec(mac, net, inbox.Hears(k - 1)), inbox, k - 1);
      LegalSnoc(mac, net, inbox.Hears(k - 1), MasterHears(inbox.frames[k - 1], inbox.origins[k - 1]));
    }
  }

  /** A discovery is a run that hears every frame until the timeout: contexts and cache are those the run ends with. */
  lemma DiscoverIsRun(mac: KeyedMac, net: Net, inbox: Inbox)
    requires net.pending.Some? && net.pending.value.request.Discover? && inbox.Deliverable(mac, net)
    ensures var id, run := net.pending.value.transactionId, inbox.Hears(|inbox.frames|) + [GiveUp];
            && Legal(mac, net, run)
            && Exec(mac, net, run) ==
               net.(contexts := ContextsAfter(mac, net.contexts, id, inbox.frames),
                    cache := CacheAfter(net.cache, Finds(mac, net.contexts, id, inbox.frames)),
                    pending := None)
  {
    var k := |inbox.frames|;
    DiscoverRun(mac, net, inbox, k);
    assert inbox.frames[..k] == inbox.frames;
    LegalSnoc(mac, net, inbox.Hears(k), GiveUp);
  }
}
