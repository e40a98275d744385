/** Stream configuration over the management API: validation, then replacement of the store. */
module SlaveApi {
  import opened Types
  import opened StreamStore
  import opened StateMachine

  const MIN_CYCLE_TIME_NS: u32 := 250_000

  datatype ProcessVariable = ProcessVariable(
    direction: int, byteOffset: u32, bitOffset: u32, bitLen: u32)

  predicate MatchesLayout(direction: int, p: Position, v: ProcessVariable) {
    && v.direction == direction
    && v.byteOffset == p.byteOffset && v.bitOffset == p.bitOffset && v.bitLen == p.bitLen
  }

  predicate StreamValid(s: StreamConfig, layout: seq<ProcessVariable>) {
    && s.streamId <= 0xFFFF
    && |s.destinationMac| == 6
    && s.cycleTimeNano >= MIN_CYCLE_TIME_NS
    && s.content.Some?
    && s.content.value.bitLen != 0
    && (s.direction == DIRECTION_INPUT || s.direction == DIRECTION_OUTPUT)
    && exists v :: v in layout && MatchesLayout(s.direction, s.content.value, v)
  }

  predicate StreamsValid(streams: seq<StreamConfig>, layout: seq<ProcessVariable>) {
    && (forall i :: 0 <= i < |streams| ==> StreamValid(streams[i], layout))
    && (forall i, j :: 0 <= i < j < |streams| ==> streams[i].streamId != streams[j].streamId)
  }

  /** Searches the layout for a variable at exactly this position. */
  method AnyMatches(direction: int, p: Position, layout: seq<ProcessVariable>) returns (found: bool)
    ensures found <==> exists v :: v in layout && MatchesLayout(direction, p, v)
  {
    for i := 0 to |layout|
      invariant forall v :: v in layout[..i] ==> !MatchesLayout(direction, p, v)
    {
      if MatchesLayout(direction, p, layout[i]) {
        assert layout[i] in layout;
        return true;
      }
      assert layout[..i + 1] == layout[..i] + [layout[i]];
    }
    assert layout[..|layout|] == layout;
    found := false;
  }

  method ValidateStreams(streams: seq<StreamConfig>, layout: seq<ProcessVariable>) returns (r: Result<()>)
    ensures r.Ok? <==> StreamsValid(streams, layout)
    ensures r.Ok? <==>
              && (forall i :: 0 <= i < |streams| ==>
                    && streams[i].streamId <= 65_535 && |streams[i].destinationMac| == 6
                    && streams[i].cycleTimeNano >= 250_000 && (streams[i].direction == 0 || streams[i].direction == 1)
                    && streams[i].content.Some? && streams[i].content.value.bitLen > 0
                    && var p := streams[i].content.value;
                       ProcessVariable(streams[i].direction, p.byteOffset, p.bitOffset, p.bitLen) in layout)
              && forall i, j :: 0 <= i < j < |streams| ==> streams[i].streamId != streams[j].streamId
    ensures r.Err? ==> r.code == ErrParamInvalid
  {
    var seen: set<u32> := {};
    for i := 0 to |streams|
      invariant StreamsValid(streams[..i], layout)
      invariant seen == set j | 0 <= j < i :: streams[j].streamId
    {
      var s := streams[i];
      assert streams[..i + 1] == streams[..i] + [s];
      if s.streamId > 0xFFFF { return Err(ErrParamInvalid); }
      if s.streamId in seen { return Err(ErrParamInvalid); }
      seen := seen + {s.streamId};
      if |s.destinationMac| != 6 { return Err(ErrParamInvalid); }
      if s.cycleTimeNano < MIN_CYCLE_TIME_NS { return Err(ErrParamInvalid); }
      if s.content.None? { return Err(ErrParamInvalid); }
      var content := s.content.value;
      if content.bitLen == 0 { return Err(ErrParamInvalid); }
      if s.direction != DIRECTION_INPUT && s.direction != DIRECTION_OUTPUT { return Err(ErrParamInvalid); }
      var matches := AnyMatches(s.direction, content, layout);
      if !matches { return Err(ErrParamInvalid); }
    }
    assert streams[..|streams|] == streams;
    r := Ok(());
  }

  /** Whatever passes validation can never make the insertion into an empty store fail. */
  lemma ValidatedStreamsInsert(streams: seq<StreamConfig>, layout: seq<ProcessVariable>)
    requires StreamsValid(streams, layout)
    ensures Insertable(streams)
    ensures FirstCollision(map[], streams) == |streams|
  {
    forall i | 0 <= i < |streams| ensures Storable(streams[i]) {
      assert StreamValid(streams[i], layout);
    }
    FirstCollisionAt(map[], streams, |streams|);
  }

  class SlaveApiService {
    const stateManager: DeviceStateManager
    const store: StreamStore

    constructor (stateManager: DeviceStateManager, store: StreamStore)
      ensures this.stateManager == stateManager && this.store == store
    {
      this.stateManager := stateManager;
      this.store := store;
    }

    /**
     One atomic call. `authorized` is the outcome of the token check (a refusal is `None`)
     and `layout` what the hardware reports. The store is replaced as a whole, or it stays as
     it was; the state never changes.
     */
    method ConfigureStreams(
      authorized: bool, layout: Result<seq<ProcessVariable>>, streams: seq<StreamConfig>)
      returns (code: Option<StatusCode>)
      modifies store
      ensures if authorized && stateManager.state == PreOp && layout.Ok? && StreamsValid(streams, layout.value)
              then code == Some(NoError) && Insertable(streams) && store.streams == EntriesOf(streams)
              else store.streams == old(store.streams)
      ensures code == None <==> !authorized
      ensures authorized && stateManager.state != PreOp ==> code == Some(ErrNotReady)
      ensures authorized && stateManager.state == PreOp && layout.Err? ==> code == Some(layout.code)
      ensures authorized && stateManager.state == PreOp && layout.Ok? && !StreamsValid(streams, layout.value) ==>
                code == Some(ErrParamInvalid)
    {
      if !authorized {
        return None;
      }
      if stateManager.state != PreOp {
        return Some(ErrNotReady);
      }
      if layout.Err? {
        return Some(layout.code);
      }
      var valid := ValidateStreams(streams, layout.value);
      if valid.Err? {
        return Some(valid.code);
      }
      ValidatedStreamsInsert(streams, layout.value);
      store.Reset();
      var added := store.AddStreamConfigs(streams);
      assert streams[..|streams|] == streams;
      if added.Err? {
        assert false;
        return Some(ErrParamInvalid);
      }
      code := Some(NoError);
    }
  }

  /** The store after a successful configuration: the requested ids and nothing else, with fresh counters. */
  lemma ConfiguredStore(streams: seq<StreamConfig>, layout: seq<ProcessVariable>)
    requires StreamsValid(streams, layout)
    ensures Insertable(streams)
    ensures EntriesOf(streams).Keys == set i | 0 <= i < |streams| :: streams[i].streamId
    ensures forall i :: 0 <= i < |streams| ==>
              && streams[i].streamId in EntriesOf(streams)
              && EntriesOf(streams)[streams[i].streamId].config == streams[i]
              && EntriesOf(streams)[streams[i].streamId].sequenceNumber ==
                 if streams[i].direction == DIRECTION_OUTPUT then 1 else 0
  {
    ValidatedStreamsInsert(streams, layout);
    EntriesSpec(streams);
  }
}
