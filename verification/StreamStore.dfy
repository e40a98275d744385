/**
 Stream configurations together with the per-stream sequence state of L2 authentication.
 Every locked method is one atomic step on the map of streams.
 */
module StreamStore {
  import opened Types
  import opened BigEndian
  import opened L2Frame
  import opened Crypto

  datatype StreamEntry = StreamEntry(config: StreamConfig, sequenceNumber: u64)

  type Streams = map<u16, StreamEntry>

  function InitialSequenceNumber(direction: int): Result<u64> {
    if direction == DIRECTION_OUTPUT then Ok(1)
    else if direction == DIRECTION_INPUT then Ok(0)
    else Err(ErrParamInvalid)
  }

  function StreamIdAsU16(streamId: u32): Result<u16> {
    if streamId > 0xFFFF then Err(ErrParamInvalid) else Ok(streamId)
  }

  predicate Storable(c: StreamConfig) {
    c.streamId <= 0xFFFF && InitialSequenceNumber(c.direction).Ok?
  }

  /** What the first loop of `add_stream_configs` checks: usable ids and directions, no id twice. */
  predicate Insertable(configs: seq<StreamConfig>) {
    && (forall i :: 0 <= i < |configs| ==> Storable(configs[i]))
    && (forall i, j :: 0 <= i < j < |configs| ==> configs[i].streamId != configs[j].streamId)
  }

  function NewEntry(c: StreamConfig): StreamEntry
    requires Storable(c)
  {
    StreamEntry(c, InitialSequenceNumber(c.direction).value)
  }

  /** The entries that a list of configurations stands for. */
  function EntriesOf(configs: seq<StreamConfig>): Streams
    requires Insertable(configs)
  {
    if configs == [] then map[]
    else
      var last := configs[|configs| - 1];
      EntriesOf(configs[..|configs| - 1])[last.streamId := NewEntry(last)]
  }

  /** Each configuration has its own new entry under its id, and there are no other keys. */
  lemma {:induction false} EntriesSpec(configs: seq<StreamConfig>)
    requires Insertable(configs)
    ensures forall i :: 0 <= i < |configs| ==>
              && configs[i].streamId in EntriesOf(configs)
              && EntriesOf(configs)[configs[i].streamId] == NewEntry(configs[i])
    ensures forall id :: id in EntriesOf(configs) ==> exists i :: 0 <= i < |configs| && configs[i].streamId == id
  {
    if configs != [] {
      var front := configs[..|configs| - 1];
      EntriesSpec(front);
      forall id | id in EntriesOf(configs) ensures exists i :: 0 <= i < |configs| && configs[i].streamId == id {
        if id in EntriesOf(front) {
          var i :| 0 <= i < |front| && front[i].streamId == id;
          assert configs[i].streamId == id;
        } else {
          assert configs[|configs| - 1].streamId == id;
        }
      }
    }
  }

  lemma EntriesGrow(configs: seq<StreamConfig>, i: nat)
    requires Insertable(configs) && i < |configs|
    ensures Insertable(configs[..i]) && Insertable(configs[..i + 1])
    ensures configs[i].streamId !in EntriesOf(configs[..i])
    ensures EntriesOf(configs[..i + 1]) == EntriesOf(configs[..i])[configs[i].streamId := NewEntry(configs[i])]
  {
    assert configs[..i + 1][..i] == configs[..i];
    EntriesSpec(configs[..i]);
  }

  /** The number of leading configurations whose id is still free. */
  function FirstCollision(streams: Streams, configs: seq<StreamConfig>): (n: nat)
    requires forall i :: 0 <= i < |configs| ==> Storable(configs[i])
    ensures n <= |configs|
    ensures forall i :: 0 <= i < n ==> configs[i].streamId !in streams
    ensures n < |configs| ==> configs[n].streamId in streams
  {
    if configs == [] || configs[0].streamId in streams then 0
    else 1 + FirstCollision(streams, configs[1..])
  }

  lemma FirstCollisionAt(streams: Streams, configs: seq<StreamConfig>, n: nat)
    requires forall i :: 0 <= i < |configs| ==> Storable(configs[i])
    requires n <= |configs|
    requires forall i :: 0 <= i < n ==> configs[i].streamId !in streams
    requires n < |configs| ==> configs[n].streamId in streams
    ensures FirstCollision(streams, configs) == n
  {
  }

  /** `add_stream_configs` on the value of the store. */
  function AddAll(streams: Streams, configs: seq<StreamConfig>): (Result<()>, Streams) {
    if !Insertable(configs) then (Err(ErrParamInvalid), streams)
    else
      var n := FirstCollision(streams, configs);
      (if n == |configs| then Ok(()) else Err(ErrParamInvalid), streams + EntriesOf(configs[..n]))
  }

  /** `generate_stream_tag` on the value of the store. */
  function Generate(mac: KeyedMac, streams: Streams, h: L2Header, payload: Bytes)
    : (Result<(u64, Tag)>, Streams)
  {
    if h.streamId !in streams then (Err(ErrStreamIdUnknown), streams)
    else
      var e := streams[h.streamId];
      (Ok((e.sequenceNumber, mac(TaggedBytes(h, payload, e.sequenceNumber)))),
       streams[h.streamId := e.(sequenceNumber := SaturatingAdd64(e.sequenceNumber, 1))])
  }

  predicate TagMatches(mac: KeyedMac, h: L2Header, payload: Bytes, sequenceNumber: u64, tag: Tag) {
    tag == mac(TaggedBytes(h, payload, sequenceNumber))
  }

  /** `validate_stream_tag` on the value of the store. */
  function Validate(
    mac: KeyedMac, streams: Streams, h: L2Header, payload: Bytes, sequenceNumber: u64, tag: Tag)
    : (Result<bool>, Streams)
  {
    if h.streamId !in streams then (Err(ErrStreamIdUnknown), streams)
    else
      var e := streams[h.streamId];
      if sequenceNumber <= e.sequenceNumber || !TagMatches(mac, h, payload, sequenceNumber, tag) then
        (Ok(false), streams)
      else
        (Ok(true), streams[h.streamId := e.(sequenceNumber := sequenceNumber)])
  }

  /** The first loop of `add_stream_configs`: usable ids and directions, and no id twice. */
  method CheckInsertable(configs: seq<StreamConfig>) returns (r: Result<()>)
    ensures r.Ok? <==> Insertable(configs)
    ensures r.Ok? <==>
              && (forall i :: 0 <= i < |configs| ==>
                    configs[i].streamId <= 0xFFFF && (configs[i].direction == 0 || configs[i].direction == 1))
              && forall i, j :: 0 <= i < j < |configs| ==> configs[i].streamId != configs[j].streamId
    ensures r.Err? ==> r.code == ErrParamInvalid
  {
    var seen: set<u16> := {};
    for i := 0 to |configs|
      invariant Insertable(configs[..i])
      invariant seen == set j | 0 <= j < i :: configs[j].streamId
    {
      assert configs[..i + 1] == configs[..i] + [configs[i]];
      var id := StreamIdAsU16(configs[i].streamId);
      if id.Err? {
        assert !Storable(configs[i]);
        return Err(id.code);
      }
      if id.value in seen {
        return Err(ErrParamInvalid);
      }
      seen := seen + {id.value};
      var s := InitialSequenceNumber(configs[i].direction);
      if s.Err? {
        assert !Storable(configs[i]);
        return Err(s.code);
      }
    }
    assert configs[..|configs|] == configs;
    r := Ok(());
  }

  class StreamStore {
    const mac: KeyedMac
    var streams: Streams

    constructor (mac: KeyedMac)
      ensures this.mac == mac && streams == map[]
    {
      this.mac := mac;
      streams := map[];
    }

    method Reset()
      modifies this
      ensures streams == map[]
    {
      streams := map[];
    }

    method AddStreamConfig(c: StreamConfig) returns (r: Result<()>)
      modifies this
      ensures r.Ok? <==> c.streamId <= 0xFFFF && (c.direction == 0 || c.direction == 1) && c.streamId !in old(streams)
      ensures r.Ok? ==>
                streams == old(streams)[c.streamId := StreamEntry(c, if c.direction == DIRECTION_OUTPUT then 1 else 0)]
      ensures r.Err? ==> streams == old(streams) && r.code == ErrParamInvalid
    {
      var id := StreamIdAsU16(c.streamId);
      if id.Err? {
        return Err(id.code);
      }
      if id.value in streams {
        return Err(ErrParamInvalid);
      }
      var s := InitialSequenceNumber(c.direction);
      if s.Err? {
        return Err(s.code);
      }
      streams := streams[id.value := StreamEntry(c, s.value)];
      r := Ok(());
    }

    /**
     Inserts the leading configurations up to the first id that is already taken. On a
     non-empty store this can fail half way, with a prefix already inserted.
     */
    method AddStreamConfigs(configs: seq<StreamConfig>) returns (r: Result<()>)
      modifies this
      ensures (r, streams) == AddAll(old(streams), configs)
    {
      var checked := CheckInsertable(configs);
      if checked.Err? {
        return checked;
      }
      r := InsertAll(configs);
    }

    /** The second loop of `add_stream_configs`: inserts until it meets a taken id. */
    method InsertAll(configs: seq<StreamConfig>) returns (r: Result<()>)
      requires Insertable(configs)
      modifies this
      ensures var n := FirstCollision(old(streams), configs);
              && r == (if n == |configs| then Ok(()) else Err(ErrParamInvalid))
              && streams == old(streams) + EntriesOf(configs[..n])
    {
      for i := 0 to |configs|
        invariant forall j :: 0 <= j < i ==> configs[j].streamId !in old(streams)
        invariant streams == old(streams) + EntriesOf(configs[..i])
      {
        EntriesGrow(configs, i);
        var id := StreamIdAsU16(configs[i].streamId).value;
        if id in streams {
          FirstCollisionAt(old(streams), configs, i);
          return Err(ErrParamInvalid);
        }
        streams := streams[id := StreamEntry(configs[i], InitialSequenceNumber(configs[i].direction).value)];
      }
      FirstCollisionAt(old(streams), configs, |configs|);
      r := Ok(());
    }

    method GenerateStreamTag(h: L2Header, payload: Bytes) returns (r: Result<(u64, Tag)>)
      modifies this
      ensures (r, streams) == Generate(mac, old(streams), h, payload)
      ensures h.streamId !in old(streams) ==> r == Err(ErrStreamIdUnknown) && streams == old(streams)
      ensures h.streamId in old(streams) ==>
                var e := old(streams)[h.streamId];
                && r == Ok((e.sequenceNumber, mac(TaggedBytes(h, payload, e.sequenceNumber))))
                && streams == old(streams)[h.streamId := StreamEntry(e.config, Min(e.sequenceNumber + 1, U64_MAX))]
    {
      if h.streamId !in streams {
        return Err(ErrStreamIdUnknown);
      }
      var entry := streams[h.streamId];
      var sequenceNumber := entry.sequenceNumber;
      var headerBytes, sequenceBytes := SerializeHeader(h), ToBe(sequenceNumber, 8);
      var tag := CalculateHmac(mac, [headerBytes, payload, sequenceBytes]);
      Concat3(headerBytes, payload, sequenceBytes);
      streams := streams[h.streamId := entry.(sequenceNumber := SaturatingAdd64(sequenceNumber, 1))];
      r := Ok((sequenceNumber, tag));
    }

    method ValidateStreamTag(h: L2Header, payload: Bytes, sequenceNumber: u64, tag: Tag)
      returns (r: Result<bool>)
      modifies this
      ensures (r, streams) == Validate(mac, old(streams), h, payload, sequenceNumber, tag)
      ensures r == Err(ErrStreamIdUnknown) <==> h.streamId !in old(streams)
      ensures r == Ok(true) <==>
                && h.streamId in old(streams) && sequenceNumber > old(streams)[h.streamId].sequenceNumber
                && tag == mac(TaggedBytes(h, payload, sequenceNumber))
      ensures r.Err? ==> r.code == ErrStreamIdUnknown
      ensures r == Ok(true) ==>
                streams == old(streams)[h.streamId := StreamEntry(old(streams)[h.streamId].config, sequenceNumber)]
      ensures r != Ok(true) ==> streams == old(streams)
    {
      if h.streamId !in streams {
        return Err(ErrStreamIdUnknown);
      }
      var entry := streams[h.streamId];
      if sequenceNumber <= entry.sequenceNumber {
        return Ok(false);
      }
      var headerBytes, sequenceBytes := SerializeHeader(h), ToBe(sequenceNumber, 8);
      var valid := VerifyHmac(mac, [headerBytes, payload, sequenceBytes], tag);
      Concat3(headerBytes, payload, sequenceBytes);
      if valid {
        streams := streams[h.streamId := entry.(sequenceNumber := sequenceNumber)];
      }
      r := Ok(valid);
    }
  }

  /**
   Freshness does not survive a reset: whatever a store accepted, it accepts again once it
   has been reset and the stream configured anew.
   */
  lemma ResetReadmits(
    mac: KeyedMac, streams: Streams, c: StreamConfig,
    h: L2Header, payload: Bytes, sequenceNumber: u64, tag: Tag)
    requires Storable(c) && c.direction == DIRECTION_INPUT && c.streamId == h.streamId
    requires Validate(mac, streams, h, payload, sequenceNumber, tag).0 == Ok(true)
    ensures var accepted := Validate(mac, streams, h, payload, sequenceNumber, tag).1;
            Validate(mac, accepted, h, payload, sequenceNumber, tag).0 == Ok(false)
    ensures Validate(mac, EntriesOf([c]), h, payload, sequenceNumber, tag).0 == Ok(true)
  {
    EntriesSpec([c]);
    assert EntriesOf([c])[h.streamId] == NewEntry([c][0]);
  }

  /** A failing `add_stream_configs` on a non-empty store may leave a prefix behind. */
  lemma PartialInsertExample()
    ensures var pos := Some(Position(0, 0, 8));
            var c1 := StreamConfig(1, [], 0, 250_000, DIRECTION_INPUT, pos);
            var c2 := StreamConfig(2, [], 0, 250_000, DIRECTION_INPUT, pos);
            var before: Streams := map[2 := NewEntry(c2)];
            AddAll(before, [c1, c2]).0.Err? && AddAll(before, [c1, c2]).1 != before
  {
    var pos := Some(Position(0, 0, 8));
    var c1 := StreamConfig(1, [], 0, 250_000, DIRECTION_INPUT, pos);
    var c2 := StreamConfig(2, [], 0, 250_000, DIRECTION_INPUT, pos);
    var before: Streams := map[2 := NewEntry(c2)];
    FirstCollisionAt(before, [c1, c2], 1);
    var prefix := [c1, c2][..1];
    assert prefix[0] == c1;
    EntriesSpec(prefix);
    assert 1 in EntriesOf(prefix) && 1 !in before;
  }

  /**
   A rejected insertion leaves the store as it was exactly when the list is unusable in
   itself or its very first id is already taken.
   */
  lemma RejectedInsertUnchangedIff(streams: Streams, configs: seq<StreamConfig>)
    requires AddAll(streams, configs).0.Err?
    ensures AddAll(streams, configs).1 == streams <==> !Insertable(configs) || configs[0].streamId in streams
  {
    if Insertable(configs) && FirstCollision(streams, configs) > 0 {
      var n := FirstCollision(streams, configs);
      assert configs[..n][0] == configs[0];
      EntriesSpec(configs[..n]);
      assert configs[0].streamId in EntriesOf(configs[..n]);
    }
  }
}
