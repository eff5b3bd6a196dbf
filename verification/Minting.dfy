/** pool.go: IDs for brand-new entities, placed by the ring, and for entities that inherit the
    shard of an existing one. */
module Minting {
  import opened Prelude
  import opened Snowflake
  import Ring

  /** The state of every shard's generator. */
  type Gens = map<ShardId, Gen>

  /** One Next call on a shard's generator: `now` is its first clock reading, `later` its last. */
  function Mint(gens: Gens, shard: ShardId, now: int, later: int): (Gens, int64)
    requires shard in gens
  {
    var g := Advance(gens[shard], now, later);
    (gens[shard := g], IdOf(shard, g))
  }

  /** A minted ID routes to the shard whose generator minted it. */
  lemma MintRoutes(gens: Gens, shard: ShardId, now: int, later: int)
    requires shard in gens
    ensures ExtractShardID(Mint(gens, shard, now, later).1) == shard
    ensures Mint(gens, shard, now, later).0.Keys == gens.Keys
  {
    var g := Advance(gens[shard], now, later);
    ExtractPack(g.lastTimestamp, shard, g.sequence);
  }

  /** The readings have not stepped back behind what the generator minted last. */
  predicate ClockForward(gens: Gens, shard: ShardId, now: int, later: int) {
    shard in gens ==>
      && 0 <= now <= later < STAMP_LIMIT && gens[shard].lastTimestamp <= now
      && (Spins(gens[shard], now) ==> later > now)
  }

  /** None of these IDs is past what the shard's generator minted last. */
  predicate Behind(gens: Gens, shard: int, ids: set<int64>) {
    ids != {} ==>
      && shard in gens && 0 <= gens[shard].lastTimestamp < STAMP_LIMIT
      && forall id :: id in ids ==> id <= IdOf(shard, gens[shard])
  }

  /** On such readings the generator leaves all of them behind again, so the new ID is new. */
  lemma MintIsNew(gens: Gens, shard: ShardId, now: int, later: int, ids: set<int64>)
    requires shard in gens && ClockForward(gens, shard, now, later) && Behind(gens, shard, ids)
    ensures var (after, id) := Mint(gens, shard, now, later);
      id !in ids && Behind(after, shard, ids + {id})
  {
    if ids != {} {
      StepIncreasesIff(shard, gens[shard], now, later);
    }
  }

  /** The placement that one ring makes. */
  function Placement(ring: Ring.Ring): string -> int
    requires ring.nodes != []
  {
    key => ring.PlacementOf(key)
  }

  lemma PlacedOnGenerator(ring: Ring.Ring, gens: map<ShardId, IDGenerator>, placementKey: string)
    requires WiredUp(ring, gens) && ring.nodes != []
    ensures Placement(ring)(placementKey) == ring.PlacementOf(placementKey)
    ensures ring.PlacementOf(placementKey) in gens
  {
    var idx := Ring.FirstAtOrPast(ring.nodes, ring.crc(placementKey));
    assert ring.nodes[if idx == |ring.nodes| then 0 else idx].shardID in gens;
  }

  class ShardedPool {
    const ring: Ring.Ring
    const gens: map<ShardId, IDGenerator>

    constructor (ring: Ring.Ring, gens: map<ShardId, IDGenerator>)
      requires WiredUp(ring, gens)
      ensures this.ring == ring && this.gens == gens
    {
      this.ring, this.gens := ring, gens;
    }

    function State(): (r: Gens)
      reads gens.Values
      ensures r.Keys == gens.Keys
    {
      map s | s in gens :: gens[s].State()
    }

    /** A generator that has used up its millisecond needs a clock that some day passes it. */
    ghost predicate ClockSuffices(clock: Clock, shard: int)
      reads clock, gens.Values
    {
      shard in gens && Spins(gens[shard].State(), clock.Stamp(clock.ticks)) ==>
        exists n: nat :: n > clock.ticks && clock.Stamp(n) > gens[shard].lastTimestamp
    }

    /** NewIDOnShard: a nil generator panics. */
    method NewIDOnShard(shard: int, clock: Clock) returns (r: Option<int64>)
      requires WiredUp(ring, gens) && ClockSuffices(clock, shard)
      modifies clock, gens.Values
      ensures r.Some? <==> shard in gens
      ensures r.None? ==> State() == old(State()) && clock.ticks == old(clock.ticks)
      ensures r.Some? ==> clock.ticks > old(clock.ticks)
      ensures r.Some? ==>
        (State(), r.value) == Mint(old(State()), shard, clock.Stamp(old(clock.ticks)), clock.Stamp(clock.ticks - 1))
      ensures r.Some? ==> ExtractShardID(r.value) == shard
    {
      if shard !in gens {
        return None;
      }
      var id := gens[shard].Next(clock);
      assert State() == old(State())[shard := gens[shard].State()];
      MintRoutes(old(State()), shard, clock.Stamp(old(clock.ticks)), clock.Stamp(clock.ticks - 1));
      return Some(id);
    }

    method Place(placementKey: string) returns (shard: int)
      requires WiredUp(ring, gens) && ring.Valid() && ring.nodes != []
      ensures shard == Placement(ring)(placementKey) && shard in gens
      ensures Ring.Owns(Ring.Points(ring.crc, ring.cfg), ring.crc(placementKey), shard)
    {
      PlacedOnGenerator(ring, gens, placementKey);
      shard := ring.ShardForNewEntity(placementKey);
    }

    /** PlaceNewEntity: the ID routes to the owner of the key's hash, for good. */
    method PlaceNewEntity(placementKey: string, clock: Clock) returns (shard: int, id: int64)
      requires WiredUp(ring, gens) && ring.Valid() && ring.nodes != []
      requires ClockSuffices(clock, Placement(ring)(placementKey))
      modifies clock, gens.Values
      ensures shard == Placement(ring)(placementKey) && shard in gens
      ensures Ring.Owns(Ring.Points(ring.crc, ring.cfg), ring.crc(placementKey), shard)
      ensures clock.ticks > old(clock.ticks)
      ensures (State(), id) == Mint(old(State()), shard, clock.Stamp(old(clock.ticks)), clock.Stamp(clock.ticks - 1))
      ensures ExtractShardID(id) == shard
    {
      shard := Place(placementKey);
      var minted := NewIDOnShard(shard, clock);
      id := minted.value;
    }

    method NewIDForNewEntity(placementKey: string, clock: Clock) returns (id: int64)
      requires WiredUp(ring, gens) && ring.Valid() && ring.nodes != []
      requires ClockSuffices(clock, Placement(ring)(placementKey))
      modifies clock, gens.Values
      ensures Placement(ring)(placementKey) in gens && clock.ticks > old(clock.ticks)
      ensures (State(), id) == Mint(old(State()), Placement(ring)(placementKey),
                                    clock.Stamp(old(clock.ticks)), clock.Stamp(clock.ticks - 1))
    {
      var shard;
      shard, id := PlaceNewEntity(placementKey, clock);
    }

    /** NewIDInheritingShard: the new ID stays on the shard of the existing one; for an ID from
        outside the topology the generator is nil and the call panics. */
    method NewIDInheritingShard(existingID: int64, clock: Clock) returns (r: Option<int64>)
      requires WiredUp(ring, gens) && ClockSuffices(clock, ExtractShardID(existingID))
      modifies clock, gens.Values
      ensures r.Some? <==> ExtractShardID(existingID) in gens
      ensures r.None? ==> State() == old(State()) && clock.ticks == old(clock.ticks)
      ensures r.Some? ==> clock.ticks > old(clock.ticks)
      ensures r.Some? ==>
        (State(), r.value) == Mint(old(State()), ExtractShardID(existingID),
                                   clock.Stamp(old(clock.ticks)), clock.Stamp(clock.ticks - 1))
      ensures r.Some? ==> ExtractShardID(r.value) == ExtractShardID(existingID)
    {
      r := NewIDOnShard(ExtractShardID(existingID), clock);
    }
  }

  /** NewShardedPool: a generator per configured shard, seeded with that shard's ID. */
  ghost predicate WiredUp(ring: Ring.Ring, gens: map<ShardId, IDGenerator>) {
    && (forall s :: s in gens ==> gens[s].shardID == s)
    && (forall i :: 0 <= i < |ring.nodes| ==> ring.nodes[i].shardID in gens)
  }
}
