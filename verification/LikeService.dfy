/** Like and Unlike one call at a time (engagement_service.go over counter_repo.go), with a
    failure allowed at every store command. */
module LikeService {
  import opened Prelude
  import opened LikeStore

  datatype Kind = DoLike | DoUnlike

  /** The command whose error ends the call; where it matters, whether it still took effect. */
  datatype Fatal =
    | NoFatal
    | AtRateCheck
    | AtRow(applied: bool)
    | AtMark(applied: bool)
    | AtCount(applied: bool)
    | AtSum

  /** The errors the code ignores ride along with any call. */
  datatype Faults = Faults(fatal: Fatal, clampLost: bool, delLost: bool, getLost: bool, putLost: bool)

  const NO_FAULTS := Faults(NoFatal, false, false, false, false)

  datatype Failure = RateLimited | StoreError

  // ---------- the calls as functions ----------

  /** GetLikeCount. */
  function ReadCount(st: Store, post: int64, f: Faults): (Store, Result<int, Failure>) {
    if !f.getLost && post in st.cache then (st, Ok(st.cache[post]))
    else if f.fatal.AtSum? then (st, Err(StoreError))
    else (if f.putLost then st else PutSum(st, post, Total(st, post)), Ok(Total(st, post)))
  }

  /** INCR, or DECR with the defensive clamp at zero. */
  function MoveCounter(st: Store, kind: Kind, l: Like, clampLost: bool): Store {
    if kind == DoLike then Bump(st, l, 1)
    else
      var down := Bump(st, l, -1);
      if SubCounter(down, l.post, CounterShard(l.user)) < 0 && !clampLost then SetZero(down, l) else down
  }

  /** IncrLikeCount and DecrLikeCount. */
  function CountStep(st: Store, kind: Kind, l: Like, f: Faults): (Store, Result<int, Failure>) {
    if f.fatal.AtCount? then
      (if f.fatal.applied then Bump(st, l, if kind == DoLike then 1 else -1) else st, Err(StoreError))
    else
      var moved := MoveCounter(st, kind, l, f.clampLost);
      ReadCount(if f.delLost then moved else DelSum(moved, l.post), l.post, f)
  }

  function RowStep(st: Store, kind: Kind, l: Like): Store {
    if kind == DoLike then InsertRow(st, l) else DeleteRow(st, l)
  }

  function MarkStep(st: Store, kind: Kind, l: Like): Store {
    if kind == DoLike then SAdd(st, l) else SRem(st, l)
  }

  /** The row write reports a changed row. */
  predicate Changes(st: Store, kind: Kind, l: Like) {
    if kind == DoLike then l !in st.rows else l in st.rows
  }

  /** EngagementService.Like and Unlike. */
  function CallSpec(st: Store, kind: Kind, l: Like, allowed: bool, f: Faults): (Store, Result<int, Failure>) {
    if f.fatal.AtRateCheck? then (st, Err(StoreError))
    else if !allowed then (st, Err(RateLimited))
    else if f.fatal.AtRow? then (if f.fatal.applied then RowStep(st, kind, l) else st, Err(StoreError))
    else
      var rowed := RowStep(st, kind, l);
      if f.fatal.AtMark? then (if f.fatal.applied then MarkStep(rowed, kind, l) else rowed, Err(StoreError))
      else
        var marked := MarkStep(rowed, kind, l);
        if Changes(st, kind, l) then CountStep(marked, kind, l, f) else ReadCount(marked, l.post, f)
  }

  // ---------- the calls as methods ----------

  class EngagementService {
    var rows: set<Like>
    var liked: set<Like>
    var counters: map<(int64, int), int>
    var cache: map<int64, int>

    constructor ()
      ensures State() == EMPTY
    {
      rows, liked, counters, cache := {}, {}, map[], map[];
    }

    function State(): Store
      reads this
    {
      Store(rows, liked, counters, cache)
    }

    method Like(post: int64, user: int64, allowed: bool, f: Faults) returns (r: Result<int, Failure>)
      modifies this
      ensures (State(), r) == CallSpec(old(State()), DoLike, LikeStore.Like(post, user), allowed, f)
      ensures !f.fatal.AtRateCheck? && !allowed ==> r == Err(RateLimited) && State() == old(State())
      ensures r == Err(RateLimited) ==> !f.fatal.AtRateCheck? && !allowed
      ensures r.Ok? ==>
        rows == old(rows) + {LikeStore.Like(post, user)} && liked == old(liked) + {LikeStore.Like(post, user)}
    {
      var l := LikeStore.Like(post, user);
      if f.fatal.AtRateCheck? { return Err(StoreError); }
      if !allowed { return Err(RateLimited); }
      if f.fatal == AtRow(false) { return Err(StoreError); }
      var created := l !in rows;
      rows := rows + {l};
      if f.fatal.AtRow? || f.fatal == AtMark(false) { return Err(StoreError); }
      liked := liked + {l};
      if f.fatal.AtMark? { return Err(StoreError); }
      if created {
        r := IncrLikeCount(l, f);
      } else {
        r := GetLikeCount(post, f);
      }
    }

    method Unlike(post: int64, user: int64, allowed: bool, f: Faults) returns (r: Result<int, Failure>)
      modifies this
      ensures (State(), r) == CallSpec(old(State()), DoUnlike, LikeStore.Like(post, user), allowed, f)
      ensures !f.fatal.AtRateCheck? && !allowed ==> r == Err(RateLimited) && State() == old(State())
      ensures r == Err(RateLimited) ==> !f.fatal.AtRateCheck? && !allowed
      ensures r.Ok? ==>
        rows == old(rows) - {LikeStore.Like(post, user)} && liked == old(liked) - {LikeStore.Like(post, user)}
    {
      var l := LikeStore.Like(post, user);
      if f.fatal.AtRateCheck? { return Err(StoreError); }
      if !allowed { return Err(RateLimited); }
      if f.fatal == AtRow(false) { return Err(StoreError); }
      var deleted := l in rows;
      rows := rows - {l};
      if f.fatal.AtRow? || f.fatal == AtMark(false) { return Err(StoreError); }
      liked := liked - {l};
      if f.fatal.AtMark? { return Err(StoreError); }
      if deleted {
        r := DecrLikeCount(l, f);
      } else {
        r := GetLikeCount(post, f);
      }
    }

    method IncrLikeCount(l: Like, f: Faults) returns (r: Result<int, Failure>)
      modifies this`counters, this`cache
      ensures (State(), r) == CountStep(old(State()), DoLike, l, f)
    {
      if f.fatal == AtCount(false) { return Err(StoreError); }
      var key := (l.post, CounterShard(l.user));
      counters := counters[key := (if key in counters then counters[key] else 0) + 1];
      if f.fatal.AtCount? { return Err(StoreError); }
      if !f.delLost { cache := cache - {l.post}; }
      r := GetLikeCount(l.post, f);
    }

    method DecrLikeCount(l: Like, f: Faults) returns (r: Result<int, Failure>)
      modifies this`counters, this`cache
      ensures (State(), r) == CountStep(old(State()), DoUnlike, l, f)
    {
      if f.fatal == AtCount(false) { return Err(StoreError); }
      var key := (l.post, CounterShard(l.user));
      var count := (if key in counters then counters[key] else 0) - 1;
      counters := counters[key := count];
      if f.fatal.AtCount? { return Err(StoreError); }
      if count < 0 && !f.clampLost {
        counters := counters[key := 0];
      }
      if !f.delLost { cache := cache - {l.post}; }
      r := GetLikeCount(l.post, f);
    }

    method GetLikeCount(post: int64, f: Faults) returns (r: Result<int, Failure>)
      modifies this`cache
      ensures (State(), r) == ReadCount(old(State()), post, f)
      ensures !f.getLost && post in old(cache) ==> r == Ok(old(cache)[post]) && cache == old(cache)
      ensures f.getLost || post !in old(cache) ==>
        if f.fatal.AtSum? then r == Err(StoreError) && cache == old(cache)
        else r == Ok(Total(old(State()), post))
             && cache == if f.putLost then old(cache) else old(cache)[post := Total(old(State()), post)]
    {
      if !f.getLost && post in cache {
        return Ok(cache[post]);
      }
      if f.fatal.AtSum? { return Err(StoreError); }
      var total := 0;
      for i := 0 to COUNTER_SHARDS
        invariant total == SumTo(State(), post, i)
      {
        if (post, i) in counters {
          total := total + counters[(post, i)];
        }
      }
      if !f.putLost { cache := cache[post := total]; }
      return Ok(total);
    }
  }

  // ---------- what a call writes, failures included ----------

  /** How far a call gets: it is let past the rate check, past its row, past its mark. */
  predicate PastCheck(allowed: bool, f: Faults) {
    allowed && !f.fatal.AtRateCheck?
  }

  /** A call is refused exactly when the check works and says no, and then nothing is touched; a
      check that fails touches nothing either. */
  lemma RefusedIff(st: Store, kind: Kind, l: Like, allowed: bool, f: Faults)
    ensures var (after, r) := CallSpec(st, kind, l, allowed, f);
      && (r == Err(RateLimited) <==> !f.fatal.AtRateCheck? && !allowed)
      && (!PastCheck(allowed, f) ==> after == st && r.Err?)
  {}

  /** The row is the first write and stays, whatever fails later; the mark is the second. */
  lemma RowThenMark(st: Store, kind: Kind, l: Like, allowed: bool, f: Faults)
    requires PastCheck(allowed, f)
    ensures var (after, r) := CallSpec(st, kind, l, allowed, f);
      && after.rows == (if f.fatal == AtRow(false) then st.rows
                        else if kind == DoLike then st.rows + {l} else st.rows - {l})
      && after.liked == (if f.fatal.AtRow? || f.fatal == AtMark(false) then st.liked
                         else if kind == DoLike then st.liked + {l} else st.liked - {l})
      && (f.fatal.AtRow? || f.fatal.AtMark? ==>
            r == Err(StoreError) && after.counters == st.counters && after.cache == st.cache)
  {}

  lemma CountStepMoves(st: Store, kind: Kind, l: Like, f: Faults, post: int64, s: int)
    ensures var (after, r) := CountStep(st, kind, l, f);
      var own := post == l.post && s == CounterShard(l.user);
      var now := SubCounter(st, post, s);
      && (f.fatal.AtCount? ==> r == Err(StoreError) && after.cache == st.cache)
      && SubCounter(after, post, s)
         == (if !own || f.fatal == AtCount(false) then now
             else if kind == DoLike then now + 1
             else if now < 1 && !f.clampLost && f.fatal != AtCount(true) then 0
             else now - 1)
  {}

  /** The counter moves only for a row that changed, by one, on this user's sub-counter alone; only
      a DECR that ran without error is clamped. */
  lemma CounterMoves(st: Store, kind: Kind, l: Like, allowed: bool, f: Faults, post: int64, s: int)
    requires PastCheck(allowed, f) && !f.fatal.AtRow? && !f.fatal.AtMark?
    ensures var (after, r) := CallSpec(st, kind, l, allowed, f);
      var changed := l in st.rows <==> kind == DoUnlike;
      var own := post == l.post && s == CounterShard(l.user);
      var now := SubCounter(st, post, s);
      && (changed && f.fatal.AtCount? ==> r == Err(StoreError) && after.cache == st.cache)
      && SubCounter(after, post, s)
         == (if !own || !changed || f.fatal == AtCount(false) then now
             else if kind == DoLike then now + 1
             else if now < 1 && !f.clampLost && f.fatal != AtCount(true) then 0
             else now - 1)
  {
    CountStepMoves(MarkStep(RowStep(st, kind, l), kind, l), kind, l, f, post, s);
  }

  /** And the returned count is the post's total, unless a cached sum survived to be read. */
  lemma CountReturned(st: Store, kind: Kind, l: Like, allowed: bool, f: Faults)
    requires CallSpec(st, kind, l, allowed, f).1.Ok?
    ensures var (after, r) := CallSpec(st, kind, l, allowed, f);
      var dropped := (l in st.rows <==> kind == DoUnlike) && !f.delLost;
      && r.value == (if !f.getLost && l.post in st.cache && !dropped then st.cache[l.post] else Total(after, l.post))
      && (forall p :: p != l.post ==> (p in after.cache <==> p in st.cache))
      && (forall p :: p != l.post && p in st.cache ==> after.cache[p] == st.cache[p])
  {
    var rowed := RowStep(st, kind, l);
    var marked := MarkStep(rowed, kind, l);
    var moved := if Changes(st, kind, l) then MoveCounter(marked, kind, l, f.clampLost) else marked;
    var base := if Changes(st, kind, l) && !f.delLost then DelSum(moved, l.post) else moved;
    SumDependsOnCounters(CallSpec(st, kind, l, allowed, f).0, base, l.post, COUNTER_SHARDS);
  }

  // ---------- runs of sequential calls ----------

  datatype Op =
    | Call(kind: Kind, like: Like, allowed: bool, faults: Faults)
    | Expire(post: int64)  // the cached sum's TTL runs out

  datatype Run = Start | Then(before: Run, op: Op)

  function Apply(st: Store, op: Op): Store {
    match op
    case Call(kind, l, allowed, f) => CallSpec(st, kind, l, allowed, f).0
    case Expire(post) => DelSum(st, post)
  }

  function After(run: Run): Store {
    match run
    case Start => EMPTY
    case Then(r, op) => Apply(After(r), op)
  }

  ghost predicate FailureFree(run: Run) {
    match run
    case Start => true
    case Then(r, op) => FailureFree(r) && (op.Call? ==> op.faults == NO_FAULTS)
  }

  /** Counters exact, cached sums equal to the totals, like sets equal to the rows. */
  ghost predicate Coherent(st: Store) {
    && CountersExact(st)
    && (forall post :: post in st.cache ==> st.cache[post] == Total(st, post))
    && st.liked == st.rows
  }

  lemma CountersFollowRows(st: Store, kind: Kind, l: Like)
    requires CountersExact(st) && Changes(st, kind, l)
    ensures CountersExact(MoveCounter(MarkStep(RowStep(st, kind, l), kind, l), kind, l, false))
  {
    var marked := MarkStep(RowStep(st, kind, l), kind, l);
    var moved := MoveCounter(marked, kind, l, false);
    forall post: int64, s | 0 <= s < COUNTER_SHARDS
      ensures SubCounter(moved, post, s) == |RowsOn(moved.rows, post, s)|
    {
      assert SubCounter(st, post, s) == |RowsOn(st.rows, post, s)|;
      RowsOnInsert(st.rows, l, post, s);
      RowsOnDelete(st.rows, l, post, s);
    }
  }

  lemma CallKeepsCoherent(st: Store, kind: Kind, l: Like)
    requires Coherent(st)
    ensures var (after, r) := CallSpec(st, kind, l, true, NO_FAULTS);
      && Coherent(after) && after.rows == RowStep(st, kind, l).rows
      && r == Ok(|RowsOf(after.rows, l.post)|)
  {
    var marked := MarkStep(RowStep(st, kind, l), kind, l);
    var base := if Changes(st, kind, l) then DelSum(MoveCounter(marked, kind, l, false), l.post) else marked;
    if Changes(st, kind, l) {
      CountersFollowRows(st, kind, l);
      OtherTotalsKept(st, base, l);
    } else {
      assert marked == st by { assert st.rows + {l} == st.rows || st.rows - {l} == st.rows; }
    }
    TotalCountsLikers(base, l.post);
    var after := CallSpec(st, kind, l, true, NO_FAULTS).0;
    forall post | post in after.cache ensures after.cache[post] == Total(after, post) {
      SumDependsOnCounters(after, base, post, COUNTER_SHARDS);
    }
  }

  lemma OtherTotalsKept(st: Store, after: Store, l: Like)
    requires forall post: int64, s :: post != l.post ==> SubCounter(after, post, s) == SubCounter(st, post, s)
    ensures forall post: int64 :: post != l.post ==> Total(after, post) == Total(st, post)
  {
    forall post: int64 | post != l.post ensures Total(after, post) == Total(st, post) {
      SumDependsOnCounters(after, st, post, COUNTER_SHARDS);
    }
  }

  /** Exact counts. In every failure-free run of Like and Unlike calls, rate-limited ones
      included, with cached sums expiring at any moment, the stores stay coherent. */
  lemma {:induction false} RunsAreCoherent(run: Run)
    requires FailureFree(run)
    ensures Coherent(After(run))
  {
    match run
    case Start =>
      forall post: int64, s ensures |RowsOn(EMPTY.rows, post, s)| == 0 {
        assert RowsOn(EMPTY.rows, post, s) == {};
      }
    case Then(r, op) =>
      RunsAreCoherent(r);
      match op
      case Call(kind, l, allowed, f) =>
        if allowed { CallKeepsCoherent(After(r), kind, l); }
      case Expire(post) =>
        forall p: int64 ensures Total(After(run), p) == Total(After(r), p) {
          SumDependsOnCounters(After(run), After(r), p, COUNTER_SHARDS);
        }
  }

  /** So every count such a call returns is the number of users who like the post right then. */
  lemma CountsAreExact(run: Run, kind: Kind, l: Like)
    requires FailureFree(run)
    ensures var (after, r) := CallSpec(After(run), kind, l, true, NO_FAULTS);
      && r == Ok(|RowsOf(after.rows, l.post)|)
      && (l in after.rows <==> kind == DoLike) && (l in after.liked <==> kind == DoLike)
  {
    RunsAreCoherent(run);
    CallKeepsCoherent(After(run), kind, l);
  }

  // ---------- drift under failures ----------

  /** How far a sub-counter is from its rows. */
  function Drift(st: Store, post: int64, s: int): int {
    SubCounter(st, post, s) - |RowsOn(st.rows, post, s)|
  }

  function ErrorTo(st: Store, post: int64, n: nat): nat {
    if n == 0 then 0 else ErrorTo(st, post, n - 1) + Abs(Drift(st, post, n - 1))
  }

  /** Sum over the sub-counters of the post of |rows - counter|. */
  function TotalError(st: Store, post: int64): nat {
    ErrorTo(st, post, COUNTER_SHARDS)
  }

  /** The call died after its row write changed a row and before its counter write. */
  predicate Interrupted(st: Store, op: Op, post: int64) {
    op.Call? && op.like.post == post && op.allowed && Changes(st, op.kind, op.like)
    && (op.faults.fatal == AtRow(true) || op.faults.fatal.AtMark? || op.faults.fatal == AtCount(false))
  }

  function Interruptions(run: Run, post: int64): nat {
    match run
    case Start => 0
    case Then(r, op) => Interruptions(r, post) + if Interrupted(After(r), op, post) then 1 else 0
  }

  lemma {:induction false} ErrorGrowsAtOneShard(a: Store, b: Store, post: int64, s0: int, slack: nat, n: nat)
    requires forall s :: 0 <= s < n && s != s0 ==> Abs(Drift(b, post, s)) == Abs(Drift(a, post, s))
    requires Abs(Drift(b, post, s0)) <= Abs(Drift(a, post, s0)) + slack
    ensures ErrorTo(b, post, n) <= ErrorTo(a, post, n) + slack
    ensures !(0 <= s0 < n) ==> ErrorTo(b, post, n) == ErrorTo(a, post, n)
  {
    if n > 0 { ErrorGrowsAtOneShard(a, b, post, s0, slack, n - 1); }
  }

  lemma CountStepCore(st: Store, kind: Kind, l: Like, f: Faults)
    ensures var after := CountStep(st, kind, l, f).0;
      && after.rows == st.rows
      && after.counters ==
        if f.fatal == AtCount(false) then st.counters
        else if f.fatal.AtCount? then Bump(st, l, if kind == DoLike then 1 else -1).counters
        else MoveCounter(st, kind, l, f.clampLost).counters
  {}

  lemma SameCounters(a: Store, b: Store, kind: Kind, l: Like, clampLost: bool)
    requires a.counters == b.counters
    ensures MoveCounter(a, kind, l, clampLost).counters == MoveCounter(b, kind, l, clampLost).counters
  {}

  /** What a call leaves of rows and counters, caches aside. */
  lemma CallCore(st: Store, kind: Kind, l: Like, f: Faults)
    ensures var after := CallSpec(st, kind, l, true, f).0;
      && after.rows == (if f.fatal.AtRateCheck? || f.fatal == AtRow(false) then st.rows else RowStep(st, kind, l).rows)
      && after.counters ==
        if f.fatal.AtRateCheck? || f.fatal.AtRow? || f.fatal.AtMark? || f.fatal == AtCount(false)
           || !Changes(st, kind, l) then st.counters
        else if f.fatal.AtCount? then Bump(st, l, if kind == DoLike then 1 else -1).counters
        else MoveCounter(st, kind, l, f.clampLost).counters
  {
    var marked := MarkStep(RowStep(st, kind, l), kind, l);
    CountStepCore(marked, kind, l, f);
    SameCounters(marked, st, kind, l, f.clampLost);
  }

  lemma CallDrift(st: Store, op: Op, post: int64, s: int)
    requires op.Call?
    ensures var after := Apply(st, op);
      && (post != op.like.post || s != CounterShard(op.like.user) ==> Drift(after, post, s) == Drift(st, post, s))
      && Abs(Drift(after, post, s)) <= Abs(Drift(st, post, s)) + (if Interrupted(st, op, post) then 1 else 0)
  {
    if op.allowed {
      CallCore(st, op.kind, op.like, op.faults);
      RowsOnInsert(st.rows, op.like, post, s);
      RowsOnDelete(st.rows, op.like, post, s);
    }
  }

  /** Bounded drift. In every sequential run, whatever fails: the total counter error of a post
      never exceeds the number of calls that died between their row write and their counter
      write. The clamp at zero can only bring a counter closer to its rows. */
  lemma {:induction false} DriftIsBounded(run: Run, post: int64)
    ensures TotalError(After(run), post) <= Interruptions(run, post)
  {
    match run
    case Start =>
      forall s ensures Drift(EMPTY, post, s) == 0 { assert RowsOn(EMPTY.rows, post, s) == {}; }
      ZeroError(EMPTY, post, COUNTER_SHARDS);
    case Then(r, op) =>
      DriftIsBounded(r, post);
      var a, b := After(r), After(run);
      if op.Call? {
        forall s
          ensures (post != op.like.post || s != CounterShard(op.like.user) ==> Drift(b, post, s) == Drift(a, post, s))
          && Abs(Drift(b, post, s)) <= Abs(Drift(a, post, s)) + (if Interrupted(a, op, post) then 1 else 0)
        {
          CallDrift(a, op, post, s);
        }
        var slack := if Interrupted(a, op, post) then 1 else 0;
        ErrorGrowsAtOneShard(a, b, post, CounterShard(op.like.user), slack, COUNTER_SHARDS);
      } else {
        ErrorGrowsAtOneShard(a, b, post, 0, 0, COUNTER_SHARDS);
      }
  }

  lemma {:induction false} ZeroError(st: Store, post: int64, n: nat)
    requires forall s :: 0 <= s < n ==> Drift(st, post, s) == 0
    ensures ErrorTo(st, post, n) == 0
  {
    if n > 0 { ZeroError(st, post, n - 1); }
  }

  /** The clamp itself: compared with a lost clamp, it never enlarges the error. */
  lemma ClampOnlyReduces(st: Store, l: Like, f: Faults)
    requires l in st.rows
    ensures var clamped := CallSpec(st, DoUnlike, l, true, f.(clampLost := false)).0;
      var unclamped := CallSpec(st, DoUnlike, l, true, f.(clampLost := true)).0;
      TotalError(clamped, l.post) <= TotalError(unclamped, l.post)
  {
    var clamped := CallSpec(st, DoUnlike, l, true, f.(clampLost := false)).0;
    var unclamped := CallSpec(st, DoUnlike, l, true, f.(clampLost := true)).0;
    CallCore(st, DoUnlike, l, f.(clampLost := false));
    CallCore(st, DoUnlike, l, f.(clampLost := true));
    ErrorGrowsAtOneShard(unclamped, clamped, l.post, CounterShard(l.user), 0, COUNTER_SHARDS);
  }
}
