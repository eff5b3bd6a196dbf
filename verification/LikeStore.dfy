/** The stores a like touches and their atomic commands: like rows (like_repo.go), the per-user
    Redis sets (like_state_repo.go), the 16 sub-counters of a post and the cached sum
    (counter_repo.go). No two of them share a transaction. */
module LikeStore {
  import opened Prelude

  const COUNTER_SHARDS := 16

  /** counterShard: Go's negation wraps at the minimum int64, and `%` truncates. */
  function CounterShard(userID: int64): (s: int)
    ensures 0 <= s < COUNTER_SHARDS
  {
    var u: int := if userID < 0 then Wrap64(-1 * userID) else userID;
    MinimumSurvives(userID);
    TruncMod(u, COUNTER_SHARDS)
  }

  /** The one negative number that stays negative is a multiple of 16, so it still lands on 0. */
  lemma MinimumSurvives(userID: int64)
    ensures var u: int := if userID < 0 then Wrap64(-1 * userID) else userID;
      u >= 0 || (u == -TWO63 && TruncMod(u, COUNTER_SHARDS) == 0)
  {
    assert (TWO63) % COUNTER_SHARDS == 0;
    if userID == -TWO63 {
      assert -1 * userID == TWO63;
      assert (TWO63 + TWO63) % TWO64 == 0;
    }
  }

  /** Away from the minimum a user and its negative share a sub-counter, the absolute value modulo 16;
      so 16 consecutive users spread over all 16. */
  lemma CounterShardIsResidue(userID: int64)
    ensures CounterShard(userID) == if userID == -TWO63 then 0 else Abs(userID) % 16
  {
    MinimumSurvives(userID);
  }

  datatype Like = Like(post: int64, user: int64)

  datatype Store = Store(
    rows: set<Like>,                        // Postgres likes
    liked: set<Like>,                       // user_likes:<user>, all users together
    counters: map<(int64, int), int>,       // likes:count:<post>:<shard>
    cache: map<int64, int>)                 // likes:count:<post>:sum

  const EMPTY := Store({}, {}, map[], map[])

  function SubCounter(st: Store, post: int64, s: int): int {
    if (post, s) in st.counters then st.counters[(post, s)] else 0
  }

  function SumTo(st: Store, post: int64, n: nat): int {
    if n == 0 then 0 else SumTo(st, post, n - 1) + SubCounter(st, post, n - 1)
  }

  function Total(st: Store, post: int64): int {
    SumTo(st, post, COUNTER_SHARDS)
  }

  function RowsOf(rows: set<Like>, post: int64): set<Like> {
    set l | l in rows && l.post == post
  }

  function RowsOn(rows: set<Like>, post: int64, s: int): set<Like> {
    set l | l in rows && l.post == post && CounterShard(l.user) == s
  }

  // ---------- commands ----------

  /** INSERT ... ON CONFLICT DO NOTHING. */
  function InsertRow(st: Store, l: Like): Store {
    st.(rows := st.rows + {l})
  }

  function DeleteRow(st: Store, l: Like): Store {
    st.(rows := st.rows - {l})
  }

  function SAdd(st: Store, l: Like): Store {
    st.(liked := st.liked + {l})
  }

  function SRem(st: Store, l: Like): Store {
    st.(liked := st.liked - {l})
  }

  /** INCR and DECR. */
  function Bump(st: Store, l: Like, delta: int): Store {
    var key := (l.post, CounterShard(l.user));
    st.(counters := st.counters[key := SubCounter(st, l.post, CounterShard(l.user)) + delta])
  }

  function SetZero(st: Store, l: Like): Store {
    st.(counters := st.counters[(l.post, CounterShard(l.user)) := 0])
  }

  function DelSum(st: Store, post: int64): Store {
    st.(cache := st.cache - {post})
  }

  function PutSum(st: Store, post: int64, total: int): Store {
    st.(cache := st.cache[post := total])
  }

  // ---------- counting rows ----------

  lemma RowsOnInsert(rows: set<Like>, l: Like, post: int64, s: int)
    ensures |RowsOn(rows + {l}, post, s)| == |RowsOn(rows, post, s)|
      + if l !in rows && l.post == post && CounterShard(l.user) == s then 1 else 0
  {
    var before, after := RowsOn(rows, post, s), RowsOn(rows + {l}, post, s);
    if l !in rows && l.post == post && CounterShard(l.user) == s {
      assert after == before + {l};
    } else {
      assert after == before;
    }
  }

  lemma RowsOnDelete(rows: set<Like>, l: Like, post: int64, s: int)
    ensures |RowsOn(rows - {l}, post, s)| == |RowsOn(rows, post, s)|
      - if l in rows && l.post == post && CounterShard(l.user) == s then 1 else 0
  {
    if l in rows {
      RowsOnInsert(rows - {l}, l, post, s);
      assert rows - {l} + {l} == rows;
    } else {
      assert rows - {l} == rows;
    }
  }

  /** Every sub-counter holds the number of rows hashing to it. */
  ghost predicate CountersExact(st: Store) {
    forall post: int64, s :: 0 <= s < COUNTER_SHARDS ==> SubCounter(st, post, s) == |RowsOn(st.rows, post, s)|
  }

  function RowsBelow(rows: set<Like>, post: int64, n: nat): set<Like> {
    set l | l in rows && l.post == post && CounterShard(l.user) < n
  }

  lemma RowsBelowNext(rows: set<Like>, post: int64, n: nat)
    ensures |RowsBelow(rows, post, n + 1)| == |RowsBelow(rows, post, n)| + |RowsOn(rows, post, n)|
  {
    var below, on := RowsBelow(rows, post, n), RowsOn(rows, post, n);
    forall l ensures l in RowsBelow(rows, post, n + 1) <==> l in below || l in on {}
    assert RowsBelow(rows, post, n + 1) == below + on && below !! on;
  }

  lemma {:induction false} SumCountsRows(st: Store, post: int64, n: nat)
    requires CountersExact(st) && n <= COUNTER_SHARDS
    ensures SumTo(st, post, n) == |RowsBelow(st.rows, post, n)|
  {
    if n == 0 {
      assert RowsBelow(st.rows, post, 0) == {};
    } else {
      SumCountsRows(st, post, n - 1);
      RowsBelowNext(st.rows, post, n - 1);
    }
  }

  /** The 16 sub-counters partition the likers: their total is the number of likers of the post. */
  lemma TotalCountsLikers(st: Store, post: int64)
    requires CountersExact(st)
    ensures Total(st, post) == |RowsOf(st.rows, post)|
  {
    SumCountsRows(st, post, COUNTER_SHARDS);
    assert RowsOf(st.rows, post) == RowsBelow(st.rows, post, COUNTER_SHARDS);
  }

  lemma {:induction false} SumDependsOnCounters(a: Store, b: Store, post: int64, n: nat)
    requires forall s :: 0 <= s < n ==> SubCounter(a, post, s) == SubCounter(b, post, s)
    ensures SumTo(a, post, n) == SumTo(b, post, n)
  {
    if n > 0 { SumDependsOnCounters(a, b, post, n - 1); }
  }
}
