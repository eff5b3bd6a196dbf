/** pkg/sharding/snowflake.go: 64-bit IDs that carry the shard that minted them. */
module Snowflake {
  import opened Prelude

  const EPOCH_MILLIS: int := 1704067200000
  const SEQUENCES: int := 0x4000           // 1 << sequenceBits
  const SHARDS: int := 0x100               // 1 << shardIDBits
  const STAMP_UNIT: int := 0x40_0000       // 1 << timestampShift
  const STAMP_LIMIT: int := 0x200_0000_0000 // 41 bits of milliseconds
  const MAX_SHARD_ID: int := SHARDS - 1

  type ShardId = s: int | 0 <= s <= MAX_SHARD_ID
  type Sequence = q: int | 0 <= q < SEQUENCES

  /** (ts << 22) | (shard << 14) | sequence on int64: the shift may wrap, and the
      three fields share no bit, so `|` is `+` (see PackIsOr). */
  function Pack(ts: int, shard: ShardId, sequence: Sequence): (id: int64)
    ensures 0 <= ts < STAMP_LIMIT ==> id == ts * STAMP_UNIT + shard * SEQUENCES + sequence
  {
    PackFits(ts, shard, sequence);
    Wrap64(ts * STAMP_UNIT) + shard * SEQUENCES + sequence
  }

  /** int(id >> 14) & 255: the arithmetic shift floors, the mask keeps 8 bits. */
  function ExtractShardID(id: int64): (s: ShardId) {
    (id / SEQUENCES) % SHARDS
  }

  /** The shifted timestamp keeps its low 22 bits clear. */
  lemma ShiftedStamp(ts: int) returns (k: int)
    ensures Wrap64(ts * STAMP_UNIT) == k * STAMP_UNIT
  {
    var w := Wrap64(ts * STAMP_UNIT);
    var wraps := (ts * STAMP_UNIT - w) / TWO64;
    assert ts * STAMP_UNIT - w == wraps * TWO64;
    k := ts - wraps * 0x400_0000_0000;
  }

  /** So the other fields fit below it. */
  lemma PackFits(ts: int, shard: ShardId, sequence: Sequence)
    ensures -TWO63 <= Wrap64(ts * STAMP_UNIT) + shard * SEQUENCES + sequence < TWO63
  {
    var k := ShiftedStamp(ts);
  }

  /** At the bit level the three fields are disjoint, so or-ing them adds them. */
  lemma OrIsSum(ts: bv64, shard: bv64, sequence: bv64)
    requires shard < 0x100 && sequence < 0x4000
    ensures (ts << 22) | (shard << 14) | sequence == (ts << 22) + (shard << 14) + sequence
  {}

  /** Bitwise or of two natural numbers. */
  function BitOr(a: nat, b: nat): nat {
    if a == 0 && b == 0 then 0
    else 2 * BitOr(a / 2, b / 2) + if a % 2 == 1 || b % 2 == 1 then 1 else 0
  }

  function Pow2(k: nat): nat {
    if k == 0 then 1 else 2 * Pow2(k - 1)
  }

  lemma {:induction false} OrWithZero(a: nat)
    ensures BitOr(a, 0) == a
  {
    if a > 0 { OrWithZero(a / 2); }
  }

  /** A number whose low k bits are clear shares no bit with one that has only k bits. */
  lemma {:induction false} OrDisjoint(high: nat, low: nat, k: nat)
    requires low < Pow2(k)
    ensures BitOr(high * Pow2(k), low) == high * Pow2(k) + low
  {
    if k == 0 {
      OrWithZero(high);
    } else {
      var a := high * Pow2(k - 1);
      assert high * Pow2(k) == 2 * a;
      OrDisjoint(high, low / 2, k - 1);
    }
  }

  /** An int64 as its 64 bits. */
  function Bits(x: int): (b: nat)
    ensures b < TWO64
  {
    x % TWO64
  }

  /** Pack is the code's expression: the 64 bits of the ID are the shifted timestamp, its overflow
      dropped, or-ed with the shifted shard and the sequence. */
  lemma PackIsOr(ts: int, shard: ShardId, sequence: Sequence)
    ensures Bits(Pack(ts, shard, sequence)) == BitOr(BitOr(Bits(ts * STAMP_UNIT), shard * SEQUENCES), sequence)
  {
    var k := ShiftedStamp(ts);
    ShiftedBits(ts, k);
    OrFields(k % 0x400_0000_0000, shard, sequence);
    PackedBits(ts, shard, sequence, k);
  }

  lemma OrFields(high: nat, shard: ShardId, sequence: Sequence)
    ensures BitOr(BitOr(high * STAMP_UNIT, shard * SEQUENCES), sequence)
         == high * STAMP_UNIT + shard * SEQUENCES + sequence
  {
    assert Pow2(22) == STAMP_UNIT && Pow2(14) == SEQUENCES;
    OrDisjoint(high, shard * SEQUENCES, 22);
    assert high * STAMP_UNIT + shard * SEQUENCES == (high * SHARDS + shard) * SEQUENCES;
    OrDisjoint(high * SHARDS + shard, sequence, 14);
  }

  lemma ShiftedBits(ts: int, k: int)
    requires Wrap64(ts * STAMP_UNIT) == k * STAMP_UNIT
    ensures Bits(ts * STAMP_UNIT) == (k % 0x400_0000_0000) * STAMP_UNIT
  {
    var x := ts * STAMP_UNIT;
    var n := (x - k * STAMP_UNIT) / TWO64;
    assert x == k * STAMP_UNIT + n * TWO64;
    var m := k / 0x400_0000_0000;
    assert x == (k % 0x400_0000_0000) * STAMP_UNIT + (m + n) * TWO64;
  }

  lemma PackedBits(ts: int, shard: ShardId, sequence: Sequence, k: int)
    requires Wrap64(ts * STAMP_UNIT) == k * STAMP_UNIT
    ensures Bits(Pack(ts, shard, sequence)) == (k % 0x400_0000_0000) * STAMP_UNIT + shard * SEQUENCES + sequence
  {
    var m := k / 0x400_0000_0000;
    var low := (k % 0x400_0000_0000) * STAMP_UNIT + shard * SEQUENCES + sequence;
    assert Pack(ts, shard, sequence) == low + m * TWO64;
  }

  /** Routing round trip: the shard is recovered from every minted ID, whatever the
      clock said (even before the epoch, or past 41 bits). */
  lemma ExtractPack(ts: int, shard: ShardId, sequence: Sequence)
    ensures ExtractShardID(Pack(ts, shard, sequence)) == shard
  {
    var k := ShiftedStamp(ts);
    assert Pack(ts, shard, sequence) == (k * SHARDS + shard) * SEQUENCES + sequence;
    assert Pack(ts, shard, sequence) / SEQUENCES == k * SHARDS + shard;
  }

  // ---------- one generator ----------

  /** The two mutable fields of IDGenerator. */
  datatype Gen = Gen(sequence: Sequence, lastTimestamp: int)

  const FRESH: Gen := Gen(0, -1)

  /** The counter of this millisecond is used up, so Next spins on the clock. */
  predicate Spins(g: Gen, now: int) {
    now == g.lastTimestamp && g.sequence == SEQUENCES - 1
  }

  /** One Next call: `now` is its first clock reading, `later` the one that ends its spin. */
  function Advance(g: Gen, now: int, later: int): Gen {
    if now == g.lastTimestamp then
      var q := (g.sequence + 1) % SEQUENCES;
      if q == 0 then Gen(0, later) else Gen(q, now)
    else Gen(0, now)
  }

  function IdOf(shard: ShardId, g: Gen): int64 {
    Pack(g.lastTimestamp, shard, g.sequence)
  }

  /** Wall clock: an arbitrary stream of Unix-millisecond readings. */
  class Clock {
    const readings: nat -> int
    var ticks: nat

    constructor (readings: nat -> int)
      ensures this.readings == readings && ticks == 0
    {
      this.readings := readings;
      ticks := 0;
    }

    function Stamp(n: nat): int {
      readings(n) - EPOCH_MILLIS
    }

    method Now() returns (ts: int)
      modifies this
      ensures ts == Stamp(old(ticks)) && ticks == old(ticks) + 1
    {
      ts := readings(ticks) - EPOCH_MILLIS;
      ticks := ticks + 1;
    }
  }

  class IDGenerator {
    const shardID: ShardId
    var sequence: Sequence
    var lastTimestamp: int

    constructor (shardID: ShardId)
      ensures this.shardID == shardID && State() == FRESH
    {
      this.shardID := shardID;
      sequence := 0;
      lastTimestamp := -1;
    }

    function State(): Gen
      reads this
    {
      Gen(sequence, lastTimestamp)
    }

    /** A spin needs a clock that some day passes lastTimestamp; it ends at the first
        reading that does. */
    method Next(clock: Clock) returns (id: int64)
      requires Spins(State(), clock.Stamp(clock.ticks)) ==>
                 exists n: nat :: n > clock.ticks && clock.Stamp(n) > lastTimestamp
      modifies this, clock
      ensures old(clock.ticks) < clock.ticks
      ensures State() == Advance(old(State()), clock.Stamp(old(clock.ticks)), clock.Stamp(clock.ticks - 1))
      ensures id == IdOf(shardID, State())
      ensures lastTimestamp == clock.Stamp(clock.ticks - 1)
      ensures sequence ==
        if clock.Stamp(old(clock.ticks)) == old(lastTimestamp) then (old(sequence) + 1) % 0x4000 else 0
      ensures if Spins(old(State()), clock.Stamp(old(clock.ticks)))
              then clock.Stamp(clock.ticks - 1) > old(lastTimestamp)
                && forall n :: old(clock.ticks) <= n < clock.ticks - 1 ==> clock.Stamp(n) <= old(lastTimestamp)
              else clock.ticks == old(clock.ticks) + 1
    {
      ghost var end: nat := clock.ticks;
      if Spins(State(), clock.Stamp(clock.ticks)) {
        end :| end > clock.ticks && clock.Stamp(end) > lastTimestamp;
      }
      var ts := clock.Now();
      if ts == lastTimestamp {
        sequence := (sequence + 1) % SEQUENCES;
        if sequence == 0 {
          while ts <= lastTimestamp
            invariant old(clock.ticks) < clock.ticks
            invariant ts == clock.Stamp(clock.ticks - 1)
            invariant forall n :: old(clock.ticks) <= n < clock.ticks - 1 ==> clock.Stamp(n) <= lastTimestamp
            invariant clock.ticks - 1 <= end
            invariant sequence == 0 && lastTimestamp == old(lastTimestamp)
            decreases end - clock.ticks
          {
            ts := clock.Now();
          }
        }
      } else {
        sequence := 0;
      }
      lastTimestamp := ts;
      id := Pack(ts, shardID, sequence);
    }
  }

  /** On a clock that has not stepped back, a call either counts up within its millisecond or
      starts the sequence of a later one. */
  lemma AdvanceMoves(g: Gen, now: int, later: int)
    requires g.lastTimestamp <= now <= later && (Spins(g, now) ==> later > now)
    ensures var h := Advance(g, now, later);
      if h.lastTimestamp == g.lastTimestamp then h.sequence == g.sequence + 1
      else h.lastTimestamp > g.lastTimestamp && h.sequence == 0
    ensures Advance(g, now, later).lastTimestamp <= later
  {}

  /** One call mints a larger ID than the call before it exactly when its clock reading
      did not step back. */
  lemma StepIncreasesIff(shard: ShardId, g: Gen, now: int, later: int)
    requires 0 <= g.lastTimestamp < STAMP_LIMIT && 0 <= now < STAMP_LIMIT && now <= later < STAMP_LIMIT
    requires Spins(g, now) ==> later > g.lastTimestamp
    ensures IdOf(shard, Advance(g, now, later)) > IdOf(shard, g) <==> now >= g.lastTimestamp
  {
    var h := Advance(g, now, later);
    if now == g.lastTimestamp {
      assert h.lastTimestamp > g.lastTimestamp || h.sequence == g.sequence + 1;
    }
  }

  /** On any forward clock a call counts up within its millisecond, else it starts a later one at the
      reading itself: the first, or the one that ended its spin. */
  lemma AdvanceFollowsClock(g: Gen, now: int, later: int)
    ensures var h := Advance(g, now, later);
      && h.lastTimestamp == (if Spins(g, now) then later else now)
      && h.sequence == (if now == g.lastTimestamp && g.sequence < 0x3fff then g.sequence + 1 else 0)
  {}

  /** The first ID of shard 3 one millisecond into 2024. */
  lemma KnownID(clock: Clock, n: nat)
    requires clock.readings(n) == 1704067200001
    ensures clock.Stamp(n) == 1 && IdOf(3, Advance(FRESH, clock.Stamp(n), clock.Stamp(n))) == 4243456
  {}

  /** A clock that steps back makes one generator mint the same ID twice. */
  lemma BackwardClockRepeats(shard: ShardId)
    ensures var g := Advance(FRESH, 5, 5);
      var h := Advance(Advance(g, 4, 4), 5, 5);
      IdOf(shard, g) == IdOf(shard, h)
  {}

  // ---------- runs over one generator per shard ----------

  /** One Next call on the generator of a shard. */
  datatype Call = Call(shard: ShardId, now: int, later: int)

  /** The calls of a run, latest last. */
  datatype Run = NoCalls | Called(before: Run, call: Call)

  /** The state that a run leaves each generator in. */
  function After(run: Run, shard: ShardId): Gen {
    match run
    case NoCalls => FRESH
    case Called(b, c) => if c.shard == shard then Advance(After(b, shard), c.now, c.later) else After(b, shard)
  }

  /** The ID that the last call of a run returns. */
  function LastId(run: Run): int64
    requires run.Called?
  {
    IdOf(run.call.shard, After(run, run.call.shard))
  }

  /** Some call of the run returned `id` on `shard`. */
  predicate Minted(run: Run, shard: ShardId, id: int64) {
    run.Called? && ((run.call.shard == shard && LastId(run) == id) || Minted(run.before, shard, id))
  }

  /** Clock readings never go back, stay in 41 bits, and a spin ends past the millisecond it
      waited on. */
  ghost predicate ClockOk(run: Run) {
    match run
    case NoCalls => true
    case Called(b, c) =>
      && ClockOk(b) && 0 <= c.now <= c.later < STAMP_LIMIT && (b.Called? ==> b.call.later <= c.now)
      && (Spins(After(b, c.shard), c.now) ==> c.later > c.now)
  }

  lemma {:induction false} LastBounded(run: Run, shard: ShardId)
    requires ClockOk(run)
    ensures -1 <= After(run, shard).lastTimestamp < STAMP_LIMIT
    ensures After(run, shard).lastTimestamp == -1 ==> After(run, shard) == FRESH
    ensures run.Called? ==> After(run, shard).lastTimestamp <= run.call.later
  {
    if run.Called? { LastBounded(run.before, shard); }
  }

  /** What the last call of a run does to its own generator. */
  lemma CallMoves(b: Run, c: Call)
    requires ClockOk(Called(b, c))
    ensures var g, h := After(b, c.shard), After(Called(b, c), c.shard);
      && 0 <= h.lastTimestamp < STAMP_LIMIT
      && if h.lastTimestamp == g.lastTimestamp then h.sequence == g.sequence + 1
         else h.lastTimestamp > g.lastTimestamp && h.sequence == 0
  {
    LastBounded(b, c.shard);
    AdvanceMoves(After(b, c.shard), c.now, c.later);
  }

  lemma IdFields(shard: ShardId, g: Gen)
    requires 0 <= g.lastTimestamp < STAMP_LIMIT
    ensures 0 <= IdOf(shard, g) && ExtractShardID(IdOf(shard, g)) == shard
  {
    ExtractPack(g.lastTimestamp, shard, g.sequence);
  }

  /** (timestamp, sequence) lexicographically is the order of a shard's IDs. */
  lemma IdsOrdered(shard: ShardId, g: Gen, h: Gen)
    requires 0 <= g.lastTimestamp < STAMP_LIMIT && 0 <= h.lastTimestamp < STAMP_LIMIT
    ensures IdOf(shard, g) < IdOf(shard, h) <==>
      g.lastTimestamp < h.lastTimestamp || (g.lastTimestamp == h.lastTimestamp && g.sequence < h.sequence)
  {}

  lemma {:induction false} MintedSoFar(run: Run, shard: ShardId, id: int64)
    requires ClockOk(run) && Minted(run, shard, id)
    ensures 0 <= id && ExtractShardID(id) == shard
    ensures 0 <= After(run, shard).lastTimestamp < STAMP_LIMIT && id <= IdOf(shard, After(run, shard))
  {
    var b, c := run.before, run.call;
    if Minted(b, shard, id) {
      MintedSoFar(b, shard, id);
      if c.shard == shard {
        CallMoves(b, c);
        IdsOrdered(shard, After(b, shard), After(run, shard));
      }
    } else {
      CallMoves(b, c);
      IdFields(shard, After(run, shard));
    }
  }

  /** Main theorem on IDs. In every run over any number of shards, each call returns a
      non-negative int64 from which the minting shard can be read back, larger than every ID its
      shard minted before and different from every ID any shard minted before. */
  lemma RunOfIds(b: Run, c: Call, shard: ShardId, earlier: int64)
    requires ClockOk(Called(b, c)) && Minted(b, shard, earlier)
    ensures var id := LastId(Called(b, c));
      && 0 <= id && ExtractShardID(id) == c.shard
      && (shard == c.shard ==> earlier < id)
      && earlier != id
  {
    CallMoves(b, c);
    IdFields(c.shard, After(Called(b, c), c.shard));
    MintedSoFar(b, shard, earlier);
    if shard == c.shard {
      IdsOrdered(shard, After(b, shard), After(Called(b, c), shard));
    }
  }

  /** How many calls of the run minted on `shard` in millisecond `t`. */
  function MintedAt(run: Run, shard: ShardId, t: int): nat {
    match run
    case NoCalls => 0
    case Called(b, c) =>
      MintedAt(b, shard, t) + if c.shard == shard && After(run, shard).lastTimestamp == t then 1 else 0
  }

  /** Capacity: no millisecond of any run carries more than 16384 IDs of one shard. */
  lemma {:induction false} MillisecondCapacity(run: Run, shard: ShardId, t: nat)
    requires ClockOk(run)
    ensures MintedAt(run, shard, t) <= SEQUENCES
    ensures After(run, shard).lastTimestamp < t ==> MintedAt(run, shard, t) == 0
    ensures After(run, shard).lastTimestamp == t ==> MintedAt(run, shard, t) <= After(run, shard).sequence + 1
  {
    if run.Called? {
      MillisecondCapacity(run.before, shard, t);
      if run.call.shard == shard { CallMoves(run.before, run.call); }
    }
  }
}
