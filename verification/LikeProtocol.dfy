/** Like and Unlike as concurrent threads: every store command is one step, and the steps of any
    number of calls by any number of users interleave freely. */
module LikeProtocol {
  import opened Prelude
  import opened LikeStore
  import opened LikeService

  /** Where a call stands; `changed` is the row write's RowsAffected > 0. */
  datatype Pc =
    | Row
    | Mark(changed: bool)
    | Count
    | Clamp
    | Invalidate
    | Get
    | Sum
    | Put(total: int)

  datatype Thread = Thread(kind: Kind, like: Like, pc: Pc)

  datatype System = System(st: Store, threads: map<nat, Thread>)

  const IDLE := System(EMPTY, map[])

  datatype Event =
    | Begin(t: nat, kind: Kind, like: Like)
    | Step(t: nat)
    | Crash(t: nat)         // the call fails here; what it has written stays
    | Expire(post: int64)   // a cached sum's TTL runs out

  predicate Enabled(c: System, e: Event) {
    match e
    case Begin(t, _, _) => t !in c.threads
    case Step(t) => t in c.threads
    case Crash(t) => t in c.threads
    case Expire(_) => true
  }

  /** One command of a thread: the store after it and where the thread goes, None when it returns. */
  function Command(st: Store, th: Thread): (Store, Option<Pc>) {
    var l := th.like;
    match th.pc
    case Row => (RowStep(st, th.kind, l), Some(Mark(Changes(st, th.kind, l))))
    case Mark(changed) => (MarkStep(st, th.kind, l), Some(if changed then Count else Get))
    case Count =>
      var moved := Bump(st, l, if th.kind == DoLike then 1 else -1);
      var below := th.kind == DoUnlike && SubCounter(moved, l.post, CounterShard(l.user)) < 0;
      (moved, Some(if below then Clamp else Invalidate))
    case Clamp => (SetZero(st, l), Some(Invalidate))
    case Invalidate => (DelSum(st, l.post), Some(Get))
    case Get => (st, if l.post in st.cache then None else Some(Sum))
    case Sum => (st, Some(Put(Total(st, l.post))))
    case Put(total) => (PutSum(st, l.post, total), None)
  }

  function Next(c: System, e: Event): System
    requires Enabled(c, e)
  {
    match e
    case Begin(t, kind, l) => c.(threads := c.threads[t := Thread(kind, l, Row)])
    case Step(t) =>
      var (st, pc) := Command(c.st, c.threads[t]);
      System(st, if pc.None? then c.threads - {t} else c.threads[t := c.threads[t].(pc := pc.value)])
    case Crash(t) => c.(threads := c.threads - {t})
    case Expire(post) => c.(st := DelSum(c.st, post))
  }

  datatype Trace = NoEvents | Extend(before: Trace, event: Event)

  ghost predicate Legal(run: Trace) {
    match run
    case NoEvents => true
    case Extend(r, e) => Legal(r) && Enabled(After(r), e)
  }

  function After(run: Trace): System {
    match run
    case NoEvents => IDLE
    case Extend(r, e) => var c := After(r); if Enabled(c, e) then Next(c, e) else c
  }

  // ---------- one thread alone is one sequential call ----------

  function Rank(pc: Pc): nat {
    match pc
    case Row => 7
    case Mark(_) => 6
    case Count => 5
    case Clamp => 4
    case Invalidate => 3
    case Get => 2
    case Sum => 1
    case Put(_) => 0
  }

  /** The store and the count when a thread runs to its end undisturbed. */
  function RunAlone(st: Store, th: Thread): (Store, int)
    decreases Rank(th.pc)
  {
    var (after, next) := Command(st, th);
    match next
    case Some(pc) => RunAlone(after, th.(pc := pc))
    case None =>
      (after, if th.pc.Put? then th.pc.total else if th.like.post in st.cache then st.cache[th.like.post] else 0)
  }

  lemma AloneFromGet(st: Store, kind: Kind, l: Like)
    ensures var (after, r) := ReadCount(st, l.post, NO_FAULTS);
      r.Ok? && RunAlone(st, Thread(kind, l, Get)) == (after, r.value)
  {
    if l.post !in st.cache {
      assert RunAlone(st, Thread(kind, l, Get)) == RunAlone(st, Thread(kind, l, Put(Total(st, l.post))));
    }
  }

  /** The step-by-step protocol refines the sequential calls: a thread that nobody interrupts
      leaves the stores, and returns the count, of one failure-free call. */
  lemma AloneIsSequential(st: Store, kind: Kind, l: Like)
    ensures var (after, r) := CallSpec(st, kind, l, true, NO_FAULTS);
      r.Ok? && RunAlone(st, Thread(kind, l, Row)) == (after, r.value)
  {
    var marked := MarkStep(RowStep(st, kind, l), kind, l);
    assert RunAlone(st, Thread(kind, l, Row))
        == RunAlone(RowStep(st, kind, l), Thread(kind, l, Mark(Changes(st, kind, l))));
    if Changes(st, kind, l) {
      var bumped := Bump(marked, l, if kind == DoLike then 1 else -1);
      var moved := MoveCounter(marked, kind, l, false);
      assert RunAlone(st, Thread(kind, l, Row)) == RunAlone(marked, Thread(kind, l, Count));
      if moved != bumped {
        assert RunAlone(bumped, Thread(kind, l, Clamp)) == RunAlone(moved, Thread(kind, l, Invalidate));
      }
      assert RunAlone(marked, Thread(kind, l, Count)) == RunAlone(moved, Thread(kind, l, Invalidate));
      assert RunAlone(moved, Thread(kind, l, Invalidate)) == RunAlone(DelSum(moved, l.post), Thread(kind, l, Get));
      AloneFromGet(DelSum(moved, l.post), kind, l);
    } else {
      AloneFromGet(marked, kind, l);
    }
  }

  // ---------- the ledger ----------

  /** The thread has changed its row, and its counter command is still to come. */
  predicate Owes(th: Thread, kind: Kind, post: int64, s: int) {
    && th.kind == kind && th.like.post == post && CounterShard(th.like.user) == s
    && (th.pc == Mark(true) || th.pc == Count)
  }

  function Pending(threads: map<nat, Thread>, kind: Kind, post: int64, s: int): set<nat> {
    set t | t in threads && Owes(threads[t], kind, post, s)
  }

  /** counter + pending INCRs - pending DECRs - rows. */
  function Balance(c: System, post: int64, s: int): int {
    SubCounter(c.st, post, s) + |Pending(c.threads, DoLike, post, s)| - |Pending(c.threads, DoUnlike, post, s)|
    - |RowsOn(c.st.rows, post, s)|
  }

  /** What an event puts into the ledger: a crash loses a pending command, and the clamp wipes out
      whatever the counter holds by then. Nothing else does. */
  function Slip(c: System, e: Event, post: int64, s: int): int
    requires Enabled(c, e)
  {
    match e
    case Crash(t) =>
      if Owes(c.threads[t], DoLike, post, s) then -1 else if Owes(c.threads[t], DoUnlike, post, s) then 1 else 0
    case Step(t) =>
      var th := c.threads[t];
      if th.pc.Clamp? && th.like.post == post && CounterShard(th.like.user) == s then -SubCounter(c.st, post, s) else 0
    case _ => 0
  }

  function Slips(run: Trace, post: int64, s: int): int {
    match run
    case NoEvents => 0
    case Extend(r, e) => Slips(r, post, s) + if Enabled(After(r), e) then Slip(After(r), e, post, s) else 0
  }

  lemma PendingUpdate(threads: map<nat, Thread>, t: nat, th: Thread, kind: Kind, post: int64, s: int)
    ensures |Pending(threads[t := th], kind, post, s)| == |Pending(threads - {t}, kind, post, s)|
      + if Owes(th, kind, post, s) then 1 else 0
  {
    var after, rest := Pending(threads[t := th], kind, post, s), Pending(threads - {t}, kind, post, s);
    assert t !in rest;
    forall u | u != t ensures u in after <==> u in rest {
      assert u in threads[t := th] <==> u in threads - {t};
    }
    if Owes(th, kind, post, s) {
      assert after == rest + {t};
    } else {
      assert after == rest;
    }
  }

  lemma PendingRemove(threads: map<nat, Thread>, t: nat, kind: Kind, post: int64, s: int)
    requires t in threads
    ensures |Pending(threads, kind, post, s)| == |Pending(threads - {t}, kind, post, s)|
      + if Owes(threads[t], kind, post, s) then 1 else 0
  {
    PendingUpdate(threads, t, threads[t], kind, post, s);
    assert threads[t := threads[t]] == threads;
  }

  function OwedBy(th: Option<Thread>, kind: Kind, post: int64, s: int): int {
    if th.Some? && Owes(th.value, kind, post, s) then 1 else 0
  }

  /** The thread as its command leaves it. */
  function Advanced(st: Store, th: Thread): Option<Thread> {
    match Command(st, th).1
    case None => None
    case Some(pc) => Some(th.(pc := pc))
  }

  lemma PendingStep(c: System, t: nat, kind: Kind, post: int64, s: int)
    requires t in c.threads
    ensures |Pending(Next(c, Step(t)).threads, kind, post, s)| == |Pending(c.threads, kind, post, s)|
      - OwedBy(Some(c.threads[t]), kind, post, s) + OwedBy(Advanced(c.st, c.threads[t]), kind, post, s)
  {
    PendingRemove(c.threads, t, kind, post, s);
    var pc := Command(c.st, c.threads[t]).1;
    if pc.Some? {
      PendingUpdate(c.threads, t, c.threads[t].(pc := pc.value), kind, post, s);
    }
  }

  /** What one command moves between counter, rows and debts of its own thread. */
  lemma CommandBalance(st: Store, th: Thread, post: int64, s: int)
    ensures var after, next := Command(st, th).0, Advanced(st, th);
      var clamps := th.pc.Clamp? && th.like.post == post && CounterShard(th.like.user) == s;
      var slip := if clamps then -SubCounter(st, post, s) else 0;
      SubCounter(after, post, s) - |RowsOn(after.rows, post, s)|
        + OwedBy(next, DoLike, post, s) - OwedBy(next, DoUnlike, post, s)
      == SubCounter(st, post, s) - |RowsOn(st.rows, post, s)|
        + OwedBy(Some(th), DoLike, post, s) - OwedBy(Some(th), DoUnlike, post, s) + slip
  {
    if th.pc.Row? {
      RowsOnInsert(st.rows, th.like, post, s);
      RowsOnDelete(st.rows, th.like, post, s);
    } else {
      assert Command(st, th).0.rows == st.rows;
    }
  }

  /** Ledger step: from any state whatever, an event changes the balance by its slip. */
  lemma LedgerStep(c: System, e: Event, post: int64, s: int)
    requires Enabled(c, e)
    ensures Balance(Next(c, e), post, s) == Balance(c, post, s) + Slip(c, e, post, s)
  {
    match e
    case Begin(t, kind, l) =>
      assert c.threads - {t} == c.threads;
      PendingUpdate(c.threads, t, Thread(kind, l, Row), DoLike, post, s);
      PendingUpdate(c.threads, t, Thread(kind, l, Row), DoUnlike, post, s);
    case Crash(t) =>
      PendingRemove(c.threads, t, DoLike, post, s);
      PendingRemove(c.threads, t, DoUnlike, post, s);
    case Expire(_) =>
    case Step(t) =>
      PendingStep(c, t, DoLike, post, s);
      PendingStep(c, t, DoUnlike, post, s);
      CommandBalance(c.st, c.threads[t], post, s);
  }

  /** The ledger balances in every interleaving of any calls, crashes and same-user races
      included: a sub-counter differs from its rows by exactly the pending commands and the
      slips of the run. */
  lemma {:induction false} LedgerBalances(run: Trace, post: int64, s: int)
    ensures Balance(After(run), post, s) == Slips(run, post, s)
  {
    match run
    case NoEvents =>
      assert RowsOn(EMPTY.rows, post, s) == {};
      assert Pending(map[], DoLike, post, s) == {} && Pending(map[], DoUnlike, post, s) == {};
    case Extend(r, e) =>
      LedgerBalances(r, post, s);
      if Enabled(After(r), e) { LedgerStep(After(r), e, post, s); }
  }

  /** When no call is in flight, counter minus rows is the run's slips. */
  lemma QuiescentDrift(run: Trace, post: int64, s: int)
    requires After(run).threads == map[]
    ensures Drift(After(run).st, post, s) == Slips(run, post, s)
  {
    LedgerBalances(run, post, s);
    assert Pending(map[], DoLike, post, s) == {} && Pending(map[], DoUnlike, post, s) == {};
  }

  // ---------- the total of a post ----------

  /** The calls on the post, hashing below n, whose counter command is still to come. */
  function PendingBelow(threads: map<nat, Thread>, kind: Kind, post: int64, n: nat): set<nat> {
    set t | t in threads && threads[t].kind == kind && threads[t].like.post == post && InDebt(threads[t])
            && CounterShard(threads[t].like.user) < n
  }

  predicate InDebt(th: Thread) {
    th.pc == Mark(true) || th.pc == Count
  }

  /** All such calls on the post. */
  function PendingOn(threads: map<nat, Thread>, kind: Kind, post: int64): set<nat> {
    set t | t in threads && threads[t].kind == kind && threads[t].like.post == post && InDebt(threads[t])
  }

  function SlipsTo(run: Trace, post: int64, n: nat): int {
    if n == 0 then 0 else SlipsTo(run, post, n - 1) + Slips(run, post, n - 1)
  }

  lemma PendingBelowNext(threads: map<nat, Thread>, kind: Kind, post: int64, n: nat)
    ensures |PendingBelow(threads, kind, post, n + 1)|
         == |PendingBelow(threads, kind, post, n)| + |Pending(threads, kind, post, n)|
  {
    var below, on := PendingBelow(threads, kind, post, n), Pending(threads, kind, post, n);
    assert PendingBelow(threads, kind, post, n + 1) == below + on && below !! on;
  }

  lemma {:induction false} TotalLedgerTo(run: Trace, post: int64, n: nat)
    ensures var c := After(run);
      SumTo(c.st, post, n) + |PendingBelow(c.threads, DoLike, post, n)| - |PendingBelow(c.threads, DoUnlike, post, n)|
      == |RowsBelow(c.st.rows, post, n)| + SlipsTo(run, post, n)
  {
    var c := After(run);
    if n == 0 {
      assert PendingBelow(c.threads, DoLike, post, 0) == {} && PendingBelow(c.threads, DoUnlike, post, 0) == {};
      assert RowsBelow(c.st.rows, post, 0) == {};
    } else {
      TotalLedgerTo(run, post, n - 1);
      PendingBelowNext(c.threads, DoLike, post, n - 1);
      PendingBelowNext(c.threads, DoUnlike, post, n - 1);
      RowsBelowNext(c.st.rows, post, n - 1);
      LedgerBalances(run, post, n - 1);
    }
  }

  /** At every moment of every run, what an MGET sums is the likers of the post, less the calls whose
      INCR is to come, plus those whose DECR is, plus the slips so far. */
  lemma TotalLedger(run: Trace, post: int64)
    ensures var c := After(run);
      Total(c.st, post) + |PendingOn(c.threads, DoLike, post)| - |PendingOn(c.threads, DoUnlike, post)|
      == |RowsOf(c.st.rows, post)| + SlipsTo(run, post, COUNTER_SHARDS)
  {
    var c := After(run);
    TotalLedgerTo(run, post, COUNTER_SHARDS);
    assert PendingBelow(c.threads, DoLike, post, COUNTER_SHARDS) == PendingOn(c.threads, DoLike, post);
    assert PendingBelow(c.threads, DoUnlike, post, COUNTER_SHARDS) == PendingOn(c.threads, DoUnlike, post);
    assert RowsBelow(c.st.rows, post, COUNTER_SHARDS) == RowsOf(c.st.rows, post);
  }

  // ---------- no like and unlike of one user on one post at once ----------

  /** The call may still get in the way of one of the other kind: its row or mark is to come, or
      its INCR is. A DECR to come does no harm. */
  predicate Writing(th: Thread) {
    th.pc.Row? || th.pc.Mark? || (th.pc == Count && th.kind == DoLike)
  }

  /** A run without crashes in which no call begins while a call of the other kind, by the same
      user on the same post, is still writing. Double taps and retries are free to overlap. */
  ghost predicate Disciplined(run: Trace) {
    match run
    case NoEvents => true
    case Extend(r, e) => Disciplined(r) && Enabled(After(r), e) && !e.Crash? && KeepsApart(After(r), e)
  }

  predicate KeepsApart(c: System, e: Event) {
    e.Begin? ==>
      forall t :: t in c.threads && c.threads[t].like == e.like && Writing(c.threads[t]) ==> c.threads[t].kind == e.kind
  }

  /** What a row says while a call on it stands between row and counter. */
  predicate RowAgrees(st: Store, th: Thread) {
    Writing(th) && !th.pc.Row? ==> (th.like in st.rows <==> th.kind == DoLike)
  }

  predicate OwesIncrement(th: Thread) {
    th.kind == DoLike && (th.pc == Mark(true) || th.pc == Count)
  }

  /** Calls still writing one like are of one kind, and at most one of them has an INCR to come. */
  predicate OneKind(threads: map<nat, Thread>) {
    forall t, u ::
      t in threads && u in threads && threads[t].like == threads[u].like
        && Writing(threads[t]) && Writing(threads[u]) ==>
      threads[t].kind == threads[u].kind && (OwesIncrement(threads[t]) && OwesIncrement(threads[u]) ==> t == u)
  }

  predicate RowsFollow(c: System) {
    forall t :: t in c.threads ==> RowAgrees(c.st, c.threads[t]) && !c.threads[t].pc.Clamp?
  }

  /** Some call has written the row of l and not yet the like set. */
  predicate BetweenWrites(c: System, l: Like) {
    exists t :: t in c.threads && c.threads[t].like == l && c.threads[t].pc.Mark?
  }

  /** The like set lags the rows only while a call stands between the two writes. */
  ghost predicate MarksAgree(c: System) {
    forall l :: (l in c.st.liked <==> l in c.st.rows) || BetweenWrites(c, l)
  }

  ghost predicate Inv(c: System) {
    && (forall post: int64, s :: 0 <= s < COUNTER_SHARDS ==> Balance(c, post, s) == 0)
    && OneKind(c.threads) && RowsFollow(c) && MarksAgree(c)
  }

  lemma {:induction false} InjectiveCard(ts: set<nat>, threads: map<nat, Thread>, rows: set<Like>)
    requires forall t :: t in ts ==> t in threads && threads[t].like in rows
    requires forall t, u :: t in ts && u in ts && threads[t].like == threads[u].like ==> t == u
    ensures |ts| <= |rows|
    decreases |ts|
  {
    if ts != {} {
      var t := Inhabitant(ts);
      InjectiveCard(ts - {t}, threads, rows - {threads[t].like});
    }
  }

  /** Pending INCRs come from different likes, each with its row in place. */
  lemma IncrementsHaveRows(c: System, post: int64, s: int)
    requires Inv(c)
    ensures |Pending(c.threads, DoLike, post, s)| <= |RowsOn(c.st.rows, post, s)|
  {
    InjectiveCard(Pending(c.threads, DoLike, post, s), c.threads, RowsOn(c.st.rows, post, s));
  }

  /** A DECR about to run finds a positive counter, so the clamp is not reached. */
  lemma DecrementStaysNonNegative(c: System, t: nat)
    requires Inv(c) && t in c.threads && c.threads[t].kind == DoUnlike && c.threads[t].pc == Count
    ensures SubCounter(c.st, c.threads[t].like.post, CounterShard(c.threads[t].like.user)) >= 1
  {
    var post, s := c.threads[t].like.post, CounterShard(c.threads[t].like.user);
    var decrements := Pending(c.threads, DoUnlike, post, s);
    assert Balance(c, post, s) == 0;
    assert t in decrements;
    assert |decrements| >= 1;
    IncrementsHaveRows(c, post, s);
  }

  lemma BalanceKept(c: System, e: Event)
    requires Inv(c) && Enabled(c, e) && !e.Crash?
    ensures forall post: int64, s :: 0 <= s < COUNTER_SHARDS ==> Balance(Next(c, e), post, s) == 0
  {
    forall post: int64, s | 0 <= s < COUNTER_SHARDS ensures Balance(Next(c, e), post, s) == 0 {
      LedgerStep(c, e, post, s);
      assert Balance(c, post, s) == 0;
    }
  }

  /** A call that inserts its row finds no other call of its like with an INCR to come. */
  lemma InsertsAlone(c: System, t: nat)
    requires Inv(c) && t in c.threads && c.threads[t].pc == Row && c.threads[t].like !in c.st.rows
    ensures forall u :: u in c.threads && c.threads[u].like == c.threads[t].like ==> !OwesIncrement(c.threads[u])
  {
    forall u | u in c.threads && c.threads[u].like == c.threads[t].like ensures !OwesIncrement(c.threads[u]) {
      assert RowAgrees(c.st, c.threads[u]);
    }
  }

  lemma OneKindKept(c: System, e: Event)
    requires Inv(c) && Enabled(c, e) && !e.Crash? && KeepsApart(c, e)
    ensures OneKind(Next(c, e).threads)
  {
    if e.Step? && c.threads[e.t].pc == Row && c.threads[e.t].like !in c.st.rows {
      InsertsAlone(c, e.t);
    }
  }

  lemma RowsFollowKept(c: System, e: Event)
    requires Inv(c) && Enabled(c, e) && !e.Crash?
    ensures RowsFollow(Next(c, e))
  {
    if e.Step? && c.threads[e.t].pc == Count && c.threads[e.t].kind == DoUnlike {
      DecrementStaysNonNegative(c, e.t);
    }
  }

  lemma MarksKept(c: System, e: Event)
    requires Inv(c) && Enabled(c, e) && !e.Crash?
    ensures MarksAgree(Next(c, e))
  {
    var d := Next(c, e);
    forall l ensures (l in d.st.liked <==> l in d.st.rows) || BetweenWrites(d, l) {
      if e.Step? && c.threads[e.t].like == l && (c.threads[e.t].pc == Row || c.threads[e.t].pc.Mark?) {
        assert c.threads[e.t].pc == Row ==> e.t in d.threads && d.threads[e.t].like == l && d.threads[e.t].pc.Mark?;
        assert c.threads[e.t].pc.Mark? ==> RowAgrees(c.st, c.threads[e.t]);
      } else if t :| t in c.threads && c.threads[t].like == l && c.threads[t].pc.Mark? {
        assert t in d.threads && d.threads[t] == c.threads[t];
      }
    }
  }

  lemma {:induction false} DisciplinedKeepsInv(run: Trace)
    requires Disciplined(run)
    ensures Inv(After(run))
  {
    match run
    case NoEvents =>
      forall post: int64, s | 0 <= s < COUNTER_SHARDS ensures Balance(IDLE, post, s) == 0 {
        LedgerBalances(NoEvents, post, s);
      }
    case Extend(r, e) =>
      DisciplinedKeepsInv(r);
      BalanceKept(After(r), e);
      OneKindKept(After(r), e);
      RowsFollowKept(After(r), e);
      MarksKept(After(r), e);
  }

  /** Conservation. In every crash-free interleaving of any number of calls in which a like and an
      unlike of one user on one post are never writing at once: each sub-counter is the rows
      hashing to it, less the pending INCRs, plus the pending DECRs; no counter is negative and no
      thread ever reaches the clamp. */
  lemma CountersConserved(run: Trace, post: int64, s: int)
    requires Disciplined(run) && 0 <= s < COUNTER_SHARDS
    ensures var c := After(run);
      && SubCounter(c.st, post, s) + |Pending(c.threads, DoLike, post, s)| - |Pending(c.threads, DoUnlike, post, s)|
         == |RowsOn(c.st.rows, post, s)|
      && SubCounter(c.st, post, s) >= 0
      && forall t :: t in c.threads ==> !c.threads[t].pc.Clamp?
  {
    DisciplinedKeepsInv(run);
    assert Balance(After(run), post, s) == 0;
    IncrementsHaveRows(After(run), post, s);
  }

  lemma NoSlip(run: Trace, post: int64, s: int)
    requires Disciplined(run) && 0 <= s < COUNTER_SHARDS
    ensures Slips(run, post, s) == 0
  {
    DisciplinedKeepsInv(run);
    LedgerBalances(run, post, s);
    assert Balance(After(run), post, s) == 0;
  }

  lemma {:induction false} NoSlips(run: Trace, post: int64, n: nat)
    requires Disciplined(run) && n <= COUNTER_SHARDS
    ensures SlipsTo(run, post, n) == 0
  {
    if n > 0 {
      NoSlips(run, post, n - 1);
      NoSlip(run, post, n - 1);
    }
  }

  /** So the sum that a call of a disciplined run reads is off by exactly the calls on the post whose
      counter command is still to come. */
  lemma SumReadIsOffByPending(run: Trace, t: nat)
    requires Disciplined(run) && t in After(run).threads && After(run).threads[t].pc == Sum
    ensures var c, post := After(run), After(run).threads[t].like.post;
      var d := Next(c, Step(t));
      && t in d.threads && d.threads[t].pc.Put?
      && d.threads[t].pc.total
         == |RowsOf(c.st.rows, post)| - |PendingOn(c.threads, DoLike, post)| + |PendingOn(c.threads, DoUnlike, post)|
  {
    TotalLedger(run, After(run).threads[t].like.post);
    NoSlips(run, After(run).threads[t].like.post, COUNTER_SHARDS);
  }

  /** At rest, the 16 counters of a post sum to its likers and the like sets equal the rows. */
  lemma QuiescentStoresAgree(run: Trace, post: int64)
    requires Disciplined(run) && After(run).threads == map[]
    ensures Total(After(run).st, post) == |RowsOf(After(run).st.rows, post)|
    ensures After(run).st.liked == After(run).st.rows
  {
    var c := After(run);
    DisciplinedKeepsInv(run);
    forall p: int64, s | 0 <= s < COUNTER_SHARDS ensures SubCounter(c.st, p, s) == |RowsOn(c.st.rows, p, s)| {
      assert Balance(c, p, s) == 0;
      assert Pending(c.threads, DoLike, p, s) == {} && Pending(c.threads, DoUnlike, p, s) == {};
    }
    TotalCountsLikers(c.st, post);
    forall l ensures l in c.st.liked <==> l in c.st.rows {
      assert MarksAgree(c);
    }
  }

  // ---------- what the discipline is for ----------

  /** n steps of one thread in a row. */
  function Steps(run: Trace, t: nat, n: nat): Trace {
    if n == 0 then run else Extend(Steps(run, t, n - 1), Step(t))
  }

  lemma {:induction false} StepsAdd(run: Trace, t: nat, m: nat, n: nat)
    ensures Steps(run, t, m + n) == Steps(Steps(run, t, m), t, n)
  {
    if n > 0 { StepsAdd(run, t, m, n - 1); }
  }

  /** The steps keep a run disciplined as long as the thread is there to take them. */
  lemma {:induction false} StepsDisciplined(run: Trace, t: nat, n: nat)
    requires Disciplined(run)
    requires forall k :: 0 <= k < n ==> t in After(Steps(run, t, k)).threads
    ensures Disciplined(Steps(run, t, n))
  {
    if n > 0 { StepsDisciplined(run, t, n - 1); }
  }

  lemma {:induction false} StepsLegal(run: Trace, t: nat, n: nat)
    requires Legal(run)
    requires forall k :: 0 <= k < n ==> t in After(Steps(run, t, k)).threads
    ensures Legal(Steps(run, t, n))
  {
    if n > 0 { StepsLegal(run, t, n - 1); }
  }

  lemma OneMoreStep(run: Trace, t: nat, k: nat)
    requires t in After(Steps(run, t, k)).threads
    ensures After(Steps(run, t, k + 1)) == Next(After(Steps(run, t, k)), Step(t))
  {}

  lemma RowInserted(c: System, t: nat, l: Like)
    requires t in c.threads && c.threads[t] == Thread(DoLike, l, Row) && l !in c.st.rows
    ensures Next(c, Step(t)) == System(InsertRow(c.st, l), c.threads[t := Thread(DoLike, l, Mark(true))])
  {}

  lemma LikeMarked(c: System, t: nat, l: Like)
    requires t in c.threads && c.threads[t] == Thread(DoLike, l, Mark(true))
    ensures Next(c, Step(t)) == System(SAdd(c.st, l), c.threads[t := Thread(DoLike, l, Count)])
  {}

  lemma CounterRaised(c: System, t: nat, l: Like)
    requires t in c.threads && c.threads[t] == Thread(DoLike, l, Count)
    ensures Next(c, Step(t)) == System(Bump(c.st, l, 1), c.threads[t := Thread(DoLike, l, Invalidate)])
  {}

  /** A fresh like alone: row, mark, INCR. */
  lemma LikeWrites(run: Trace, t: nat, l: Like)
    requires var c := After(run); t in c.threads && c.threads[t] == Thread(DoLike, l, Row) && l !in c.st.rows
    ensures After(Steps(run, t, 3)) == System(Bump(SAdd(InsertRow(After(run).st, l), l), l, 1),
                                              After(run).threads[t := Thread(DoLike, l, Invalidate)])
    ensures forall k :: 0 <= k <= 3 ==> t in After(Steps(run, t, k)).threads
  {
    var c := After(run);
    OneMoreStep(run, t, 0);
    RowInserted(c, t, l);
    var c1 := After(Steps(run, t, 1));
    OneMoreStep(run, t, 1);
    LikeMarked(c1, t, l);
    var c2 := After(Steps(run, t, 2));
    OneMoreStep(run, t, 2);
    CounterRaised(c2, t, l);
    var marking, counting := Thread(DoLike, l, Mark(true)), Thread(DoLike, l, Count);
    assert c.threads[t := marking][t := counting][t := Thread(DoLike, l, Invalidate)]
        == c.threads[t := Thread(DoLike, l, Invalidate)];
  }

  /** From the DEL on, uninterrupted: the cached sum is dropped and then missed. */
  lemma MissesCache(run: Trace, t: nat, kind: Kind, l: Like)
    requires var c := After(run); t in c.threads && c.threads[t] == Thread(kind, l, Invalidate)
    ensures var c := After(run);
      After(Steps(run, t, 2)) == System(DelSum(c.st, l.post), c.threads[t := Thread(kind, l, Sum)])
    ensures forall k :: 0 <= k <= 2 ==> t in After(Steps(run, t, k)).threads
  {
    var c := After(run);
    assert Steps(run, t, 0) == run;
    assert After(Steps(run, t, 1)) == System(DelSum(c.st, l.post), c.threads[t := Thread(kind, l, Get)]);
  }

  /** Then the 16 counters are summed. */
  lemma SumsUp(run: Trace, t: nat, kind: Kind, l: Like)
    requires var c := After(run); t in c.threads && c.threads[t] == Thread(kind, l, Invalidate)
    ensures var c := After(run);
      After(Steps(run, t, 3)) == System(DelSum(c.st, l.post), c.threads[t := Thread(kind, l, Put(Total(c.st, l.post)))])
    ensures forall k :: 0 <= k <= 3 ==> t in After(Steps(run, t, k)).threads
  {
    MissesCache(run, t, kind, l);
    SumDependsOnCounters(DelSum(After(run).st, l.post), After(run).st, l.post, COUNTER_SHARDS);
  }

  /** And then cached, and the call returns. */
  lemma ReadsBack(run: Trace, t: nat, kind: Kind, l: Like)
    requires var c := After(run); t in c.threads && c.threads[t] == Thread(kind, l, Invalidate)
    ensures var c := After(run);
      After(Steps(run, t, 4)) == System(PutSum(DelSum(c.st, l.post), l.post, Total(c.st, l.post)), c.threads - {t})
    ensures forall k :: 0 <= k <= 3 ==> t in After(Steps(run, t, k)).threads
  {
    var c := After(run);
    var th := Thread(kind, l, Put(Total(c.st, l.post)));
    SumsUp(run, t, kind, l);
    assert c.threads[t := th] - {t} == c.threads - {t};
  }

  /** Thread 0 likes and thread 1 unlikes, both for the same user and post. */
  function RaceStart(l: Like): Trace {
    Extend(Extend(NoEvents, Begin(0, DoLike, l)), Begin(1, DoUnlike, l))
  }

  /** 0 inserts the row; 1 deletes it, un-marks, DECRs to -1 and clamps to 0; 0 marks and INCRs. */
  function RaceMiddle(l: Like): Trace {
    Steps(Steps(Steps(RaceStart(l), 0, 1), 1, 4), 0, 2)
  }

  function RaceRun(l: Like): Trace {
    Steps(Steps(RaceMiddle(l), 1, 4), 0, 4)
  }

  lemma RaceUpToClamp(l: Like)
    ensures var c := After(Steps(Steps(RaceStart(l), 0, 1), 1, 4));
      && c.st.rows == {} && c.st.liked == {} && SubCounter(c.st, l.post, CounterShard(l.user)) == 0
      && c.threads == map[0 := Thread(DoLike, l, Mark(true)), 1 := Thread(DoUnlike, l, Invalidate)]
    ensures Legal(Steps(Steps(RaceStart(l), 0, 1), 1, 4))
  {
    var r := Steps(RaceStart(l), 0, 1);
    assert Steps(RaceStart(l), 0, 0) == RaceStart(l);
    assert After(Extend(NoEvents, Begin(0, DoLike, l))) == System(EMPTY, map[0 := Thread(DoLike, l, Row)]);
    assert After(RaceStart(l)) == System(EMPTY, map[0 := Thread(DoLike, l, Row), 1 := Thread(DoUnlike, l, Row)]);
    var marking := Thread(DoLike, l, Mark(true));
    assert After(r) == System(InsertRow(EMPTY, l), map[0 := marking, 1 := Thread(DoUnlike, l, Row)]);
    assert Steps(r, 1, 0) == r;
    assert After(Steps(r, 1, 1)) == System(EMPTY, map[0 := marking, 1 := Thread(DoUnlike, l, Mark(true))]);
    assert After(Steps(r, 1, 2)) == System(EMPTY, map[0 := marking, 1 := Thread(DoUnlike, l, Count)]);
    var down := Bump(EMPTY, l, -1);
    assert After(Steps(r, 1, 3)) == System(down, map[0 := marking, 1 := Thread(DoUnlike, l, Clamp)]);
    assert After(Steps(r, 1, 4)) == System(SetZero(down, l), map[0 := marking, 1 := Thread(DoUnlike, l, Invalidate)]);
    StepsLegal(RaceStart(l), 0, 1);
    StepsLegal(r, 1, 4);
  }

  lemma RaceUpToReads(l: Like)
    ensures var c := After(RaceMiddle(l));
      && c.st.rows == {} && c.st.liked == {l} && SubCounter(c.st, l.post, CounterShard(l.user)) == 1
      && c.threads == map[0 := Thread(DoLike, l, Invalidate), 1 := Thread(DoUnlike, l, Invalidate)]
    ensures Legal(RaceMiddle(l))
  {
    var r := Steps(Steps(RaceStart(l), 0, 1), 1, 4);
    RaceUpToClamp(l);
    var st := After(r).st;
    OneMoreStep(r, 0, 0);
    LikeMarked(After(r), 0, l);
    var unliked := Thread(DoUnlike, l, Invalidate);
    assert After(Steps(r, 0, 1)) == System(SAdd(st, l), map[0 := Thread(DoLike, l, Count), 1 := unliked]);
    OneMoreStep(r, 0, 1);
    CounterRaised(After(Steps(r, 0, 1)), 0, l);
    assert After(Steps(r, 0, 2)).threads == map[0 := Thread(DoLike, l, Invalidate), 1 := unliked];
    StepsLegal(r, 0, 2);
  }

  /** The discipline is needed. A Like and an Unlike of one user on one post, both still writing,
      are the one overlap it excludes, and they can end, with every command succeeding, in no row, a
      like mark, and a sub-counter stuck at one: the clamp turned the early DECR into a lost one. */
  lemma SameUserRaceDrifts(l: Like)
    ensures Legal(RaceRun(l)) && After(RaceRun(l)).threads == map[]
    ensures var st := After(RaceRun(l)).st;
      l !in st.rows && l in st.liked && Drift(st, l.post, CounterShard(l.user)) == 1
  {
    var r := RaceMiddle(l);
    RaceUpToReads(l);
    ReadsBack(r, 1, DoUnlike, l);
    ReadsBack(Steps(r, 1, 4), 0, DoLike, l);
    StepsLegal(r, 1, 4);
    StepsLegal(Steps(r, 1, 4), 0, 4);
    var st := After(RaceRun(l)).st;
    assert RowsOn(st.rows, l.post, CounterShard(l.user)) == {};
  }

  /** The other order: a finished like, then an unlike that deletes the row and a new like that
      begins before the unlike removes the mark. */
  function LateMarkStart(l: Like): Trace {
    Steps(Extend(Steps(Extend(NoEvents, Begin(2, DoLike, l)), 2, 7), Begin(0, DoUnlike, l)), 0, 1)
  }

  function LateMarkMiddle(l: Like): Trace {
    Steps(Steps(Extend(LateMarkStart(l), Begin(1, DoLike, l)), 1, 3), 0, 2)
  }

  function LateMarkRun(l: Like): Trace {
    Steps(Steps(LateMarkMiddle(l), 1, 4), 0, 4)
  }

  lemma FirstLikeDone(l: Like)
    ensures var c := After(Steps(Extend(NoEvents, Begin(2, DoLike, l)), 2, 7));
      && c.st.rows == {l} && c.st.liked == {l} && SubCounter(c.st, l.post, CounterShard(l.user)) == 1
      && c.threads == map[]
    ensures Legal(Steps(Extend(NoEvents, Begin(2, DoLike, l)), 2, 7))
  {
    var r := Extend(NoEvents, Begin(2, DoLike, l));
    var mid := Steps(r, 2, 3);
    assert After(r) == System(EMPTY, map[2 := Thread(DoLike, l, Row)]);
    LikeWrites(r, 2, l);
    StepsLegal(r, 2, 3);
    ReadsBack(mid, 2, DoLike, l);
    StepsLegal(mid, 2, 4);
    StepsAdd(r, 2, 3, 4);
    assert After(mid).threads - {2} == map[];
  }

  lemma LateMarkBegins(l: Like)
    ensures var c := After(Extend(LateMarkStart(l), Begin(1, DoLike, l)));
      && c.st.rows == {} && c.st.liked == {l} && SubCounter(c.st, l.post, CounterShard(l.user)) == 1
      && c.threads == map[0 := Thread(DoUnlike, l, Mark(true)), 1 := Thread(DoLike, l, Row)]
    ensures Legal(Extend(LateMarkStart(l), Begin(1, DoLike, l)))
  {
    var r := Extend(Steps(Extend(NoEvents, Begin(2, DoLike, l)), 2, 7), Begin(0, DoUnlike, l));
    FirstLikeDone(l);
    assert After(r).threads == map[0 := Thread(DoUnlike, l, Row)];
    OneMoreStep(r, 0, 0);
    assert After(LateMarkStart(l)).threads == map[0 := Thread(DoUnlike, l, Mark(true))];
    StepsLegal(r, 0, 1);
  }

  lemma LateMarkWrites(l: Like)
    ensures var c := After(LateMarkMiddle(l));
      && c.st.rows == {l} && c.st.liked == {} && SubCounter(c.st, l.post, CounterShard(l.user)) == 1
      && c.threads == map[0 := Thread(DoUnlike, l, Invalidate), 1 := Thread(DoLike, l, Invalidate)]
    ensures Legal(LateMarkMiddle(l))
  {
    var r := Extend(LateMarkStart(l), Begin(1, DoLike, l));
    LateMarkBegins(l);
    LikeWrites(r, 1, l);
    StepsLegal(r, 1, 3);
    var mid := Steps(r, 1, 3);
    var c := After(mid);
    assert c.threads == map[0 := Thread(DoUnlike, l, Mark(true)), 1 := Thread(DoLike, l, Invalidate)];
    OneMoreStep(mid, 0, 0);
    assert After(Steps(mid, 0, 1)) == System(SRem(c.st, l), c.threads[0 := Thread(DoUnlike, l, Count)]);
    OneMoreStep(mid, 0, 1);
    assert After(Steps(mid, 0, 2)).st == Bump(SRem(c.st, l), l, -1);
    StepsLegal(mid, 0, 2);
  }

  /** And a Like that begins while an Unlike has its mark still to remove can end with the row and
      the counter in place and the like mark gone. */
  lemma LateUnmarkLosesMark(l: Like)
    ensures Legal(LateMarkRun(l)) && After(LateMarkRun(l)).threads == map[]
    ensures var st := After(LateMarkRun(l)).st;
      l in st.rows && l !in st.liked && SubCounter(st, l.post, CounterShard(l.user)) == 1
  {
    var r := LateMarkMiddle(l);
    LateMarkWrites(l);
    ReadsBack(r, 1, DoLike, l);
    ReadsBack(Steps(r, 1, 4), 0, DoUnlike, l);
    StepsLegal(r, 1, 4);
    StepsLegal(Steps(r, 1, 4), 0, 4);
  }

  // ---------- the cached sum under concurrency ----------

  /** The call will still drop the cached sum of its post. */
  predicate WillDrop(th: Thread, post: int64) {
    th.like.post == post && (th.pc == Clamp || th.pc == Invalidate)
  }

  predicate DropComes(threads: map<nat, Thread>, post: int64) {
    exists t :: t in threads && WillDrop(threads[t], post)
  }

  predicate EntryExact(st: Store, post: int64) {
    post in st.cache ==> st.cache[post] == Total(st, post)
  }

  /** The call has read a sum of the post and not yet cached it. */
  predicate Holding(th: Thread, post: int64) {
    th.like.post == post && th.pc.Put?
  }

  /** A sum that a call has read and not yet cached is the current one. */
  predicate HeldExact(st: Store, threads: map<nat, Thread>, post: int64) {
    forall t :: t in threads && Holding(threads[t], post) ==> threads[t].pc.total == Total(st, post)
  }

  /** The cached sum of the post, and any sum about to be cached, is exact or still to be dropped. */
  predicate SumFresh(c: System, post: int64) {
    DropComes(c.threads, post) || (EntryExact(c.st, post) && HeldExact(c.st, c.threads, post))
  }

  /** The event takes away the last pending drop of the post and leaves a stale sum behind: a DEL
      that runs while another call holds a stale sum between its MGET and its SET, or a call that
      dies before its DEL. */
  predicate LeavesStale(c: System, e: Event, post: int64)
    requires Enabled(c, e)
  {
    && (e.Step? || e.Crash?) && WillDrop(c.threads[e.t], post) && (e.Step? ==> c.threads[e.t].pc == Invalidate)
    && !DropComes(c.threads - {e.t}, post)
    && !(HeldExact(c.st, c.threads, post) && (e.Crash? ==> EntryExact(c.st, post)))
  }

  lemma TotalKept(st: Store, th: Thread, post: int64)
    requires th.like.post == post ==> th.pc != Count && th.pc != Clamp
    ensures Total(Command(st, th).0, post) == Total(st, post)
  {
    SumDependsOnCounters(Command(st, th).0, st, post, COUNTER_SHARDS);
  }

  lemma TotalIgnoresCache(st: Store, post: int64, dropped: int64)
    ensures Total(DelSum(st, dropped), post) == Total(st, post)
  {
    SumDependsOnCounters(DelSum(st, dropped), st, post, COUNTER_SHARDS);
  }

  lemma DropsWithout(threads: map<nat, Thread>, t: nat, post: int64)
    requires t in threads
    ensures DropComes(threads, post) <==> DropComes(threads - {t}, post) || WillDrop(threads[t], post)
  {
    if DropComes(threads - {t}, post) {
      var u :| u in threads - {t} && WillDrop((threads - {t})[u], post);
      assert WillDrop(threads[u], post);
    }
    if DropComes(threads, post) {
      var u :| u in threads && WillDrop(threads[u], post);
      assert u != t ==> u in threads - {t} && WillDrop((threads - {t})[u], post);
    }
  }

  lemma DropsUpdated(threads: map<nat, Thread>, t: nat, th: Thread, post: int64)
    ensures DropComes(threads[t := th], post) <==> DropComes(threads - {t}, post) || WillDrop(th, post)
  {
    DropsWithout(threads[t := th], t, post);
    assert threads[t := th] - {t} == threads - {t};
  }

  /** Which drops are pending after a step: the others', and the stepping call's own. */
  lemma DropsAfterStep(c: System, t: nat, post: int64)
    requires t in c.threads
    ensures var next := Advanced(c.st, c.threads[t]);
      var own := next.Some? && WillDrop(next.value, post);
      DropComes(Next(c, Step(t)).threads, post) <==> DropComes(c.threads - {t}, post) || own
  {
    var pc := Command(c.st, c.threads[t]).1;
    if pc.Some? {
      DropsUpdated(c.threads, t, c.threads[t].(pc := pc.value), post);
    }
  }

  /** A step of a call that neither counts nor drops on the post keeps exact sums exact. */
  lemma QuietStep(c: System, t: nat, post: int64)
    requires t in c.threads && (c.threads[t].like.post == post ==> c.threads[t].pc != Count && c.threads[t].pc != Clamp)
    requires HeldExact(c.st, c.threads, post)
    ensures var d := Next(c, Step(t));
      && HeldExact(d.st, d.threads, post)
      && (EntryExact(c.st, post) || (c.threads[t].pc == Invalidate && c.threads[t].like.post == post) ==>
            EntryExact(d.st, post))
  {
    TotalKept(c.st, c.threads[t], post);
  }

  /** A DEL leaves the sums that other calls hold as they are, stale ones included. */
  lemma DropKeepsHeld(c: System, t: nat, post: int64)
    requires t in c.threads && c.threads[t].pc == Invalidate && !HeldExact(c.st, c.threads, post)
    ensures !HeldExact(Next(c, Step(t)).st, Next(c, Step(t)).threads, post)
  {
    var d := Next(c, Step(t));
    TotalKept(c.st, c.threads[t], post);
    var u :| u in c.threads && Holding(c.threads[u], post) && c.threads[u].pc.total != Total(c.st, post);
    assert u in d.threads && d.threads[u] == c.threads[u];
  }

  lemma StepKeepsFreshIff(c: System, t: nat, post: int64)
    requires t in c.threads && SumFresh(c, post)
    ensures SumFresh(Next(c, Step(t)), post) <==> !LeavesStale(c, Step(t), post)
  {
    var th := c.threads[t];
    DropsWithout(c.threads, t, post);
    DropsAfterStep(c, t, post);
    if !DropComes(c.threads - {t}, post) && !(th.like.post == post && (th.pc == Count || th.pc == Clamp)) {
      if HeldExact(c.st, c.threads, post) {
        QuietStep(c, t, post);
      } else {
        DropKeepsHeld(c, t, post);
      }
    }
  }

  lemma CrashKeepsFreshIff(c: System, t: nat, post: int64)
    requires t in c.threads && SumFresh(c, post)
    ensures SumFresh(Next(c, Crash(t)), post) <==> !LeavesStale(c, Crash(t), post)
  {
    DropsWithout(c.threads, t, post);
    if WillDrop(c.threads[t], post) && !HeldExact(c.st, c.threads, post) {
      var u :| u in c.threads && Holding(c.threads[u], post) && c.threads[u].pc.total != Total(c.st, post);
      assert u in c.threads - {t} && (c.threads - {t})[u] == c.threads[u];
    }
  }

  /** From a fresh state, with any calls in flight, the next state is fresh unless the event is one
      that leaves a stale sum without a pending drop. */
  lemma FreshKeptIff(c: System, e: Event, post: int64)
    requires Enabled(c, e) && SumFresh(c, post)
    ensures SumFresh(Next(c, e), post) <==> !LeavesStale(c, e, post)
  {
    match e
    case Step(t) => StepKeepsFreshIff(c, t, post);
    case Crash(t) => CrashKeepsFreshIff(c, t, post);
    case Begin(t, kind, l) =>
      DropsUpdated(c.threads, t, Thread(kind, l, Row), post);
      assert c.threads - {t} == c.threads;
    case Expire(p) => TotalIgnoresCache(c.st, post, p);
  }

  /** No event of the run leaves a stale sum of the post behind. */
  ghost predicate NeverLeavesStale(run: Trace, post: int64) {
    match run
    case NoEvents => true
    case Extend(r, e) => NeverLeavesStale(r, post) && Enabled(After(r), e) && !LeavesStale(After(r), e, post)
  }

  ghost predicate FreshThroughout(run: Trace, post: int64) {
    SumFresh(After(run), post) && (run.Extend? ==> FreshThroughout(run.before, post))
  }

  /** The sums of a post stay fresh through a run, whatever users, kinds, overlaps and crashes it
      has, exactly when no event of it leaves one behind. */
  lemma {:induction false} FreshThroughoutIff(run: Trace, post: int64)
    requires Legal(run)
    ensures FreshThroughout(run, post) <==> NeverLeavesStale(run, post)
  {
    match run
    case NoEvents =>
    case Extend(r, e) =>
      FreshThroughoutIff(r, post);
      if FreshThroughout(r, post) {
        FreshKeptIff(After(r), e, post);
      }
  }

  /** So in every such run the cached sum of a post that no call is working on is the sum of its
      16 counters, and if likes and unlikes kept apart too, the number of its likers. */
  lemma CachedSumIsExact(run: Trace, post: int64)
    requires Legal(run) && NeverLeavesStale(run, post) && post in After(run).st.cache
    ensures !DropComes(After(run).threads, post) ==> After(run).st.cache[post] == Total(After(run).st, post)
    ensures Disciplined(run) && After(run).threads == map[] ==>
      After(run).st.cache[post] == |RowsOf(After(run).st.rows, post)|
  {
    FreshThroughoutIff(run, post);
    if Disciplined(run) && After(run).threads == map[] {
      QuiescentStoresAgree(run, post);
    }
  }

  /** How far the converse goes: once a call is left holding a stale sum with no drop to come, its
      next command caches that sum, and still no drop is to come. */
  lemma HeldSumGoesStale(c: System, t: nat)
    requires t in c.threads && c.threads[t].pc.Put? && !DropComes(c.threads, c.threads[t].like.post)
    requires c.threads[t].pc.total != Total(c.st, c.threads[t].like.post)
    ensures var d, post := Next(c, Step(t)), c.threads[t].like.post;
      post in d.st.cache && d.st.cache[post] != Total(d.st, post) && !DropComes(d.threads, post)
  {
    TotalKept(c.st, c.threads[t], c.threads[t].like.post);
    DropsWithout(c.threads, t, c.threads[t].like.post);
  }

  /** The TTL, the next counter command on the post, or the SET of an exact sum. */
  predicate Mends(c: System, e: Event, post: int64)
    requires Enabled(c, e)
  {
    || e == Event.Expire(post)
    || (e.Step? && c.threads[e.t].like.post == post
        && (c.threads[e.t].pc == Count || c.threads[e.t].pc == Put(Total(c.st, post))))
  }

  /** And there it stays: a stale cached sum that no call is about to drop survives exactly the
      events that do not mend it. */
  lemma StaleSumStaysIff(c: System, e: Event, post: int64)
    requires Enabled(c, e) && !DropComes(c.threads, post) && !EntryExact(c.st, post)
    ensures !DropComes(Next(c, e).threads, post) && !EntryExact(Next(c, e).st, post) <==> !Mends(c, e, post)
  {
    match e
    case Step(t) =>
      DropsWithout(c.threads, t, post);
      DropsAfterStep(c, t, post);
      if !(c.threads[t].like.post == post && c.threads[t].pc == Count) {
        TotalKept(c.st, c.threads[t], post);
      }
    case Crash(t) => DropsWithout(c.threads, t, post);
    case Begin(t, kind, l) =>
      DropsUpdated(c.threads, t, Thread(kind, l, Row), post);
      assert c.threads - {t} == c.threads;
    case Expire(p) => TotalIgnoresCache(c.st, post, p);
  }

  /** Thread 0 has summed but not yet cached. */
  function SlowReader(a: Like): Trace {
    Steps(Extend(NoEvents, Begin(0, DoLike, a)), 0, 6)
  }

  /** Thread 1 likes and returns; only then does thread 0 cache its sum. */
  function StaleRun(a: Like, b: Like): Trace {
    Extend(Steps(Extend(SlowReader(a), Begin(1, DoLike, b)), 1, 7), Step(0))
  }

  lemma SlowReaderHolds(a: Like)
    ensures Disciplined(SlowReader(a))
    ensures var c := After(SlowReader(a));
      c.threads == map[0 := Thread(DoLike, a, Put(1))] && c.st.rows == {a}
  {
    var r := Extend(NoEvents, Begin(0, DoLike, a));
    assert After(r) == System(EMPTY, map[0 := Thread(DoLike, a, Row)]);
    LikeWrites(r, 0, a);
    var mid := Steps(r, 0, 3);
    SumsUp(mid, 0, DoLike, a);
    StepsAdd(r, 0, 3, 3);
    StepsDisciplined(r, 0, 3);
    StepsDisciplined(mid, 0, 3);
    var c := After(mid);
    DisciplinedKeepsInv(mid);
    NothingOwed(c);
    TotalCountsLikers(c.st, a.post);
    assert RowsOf(c.st.rows, a.post) == {a};
    assert After(SlowReader(a)).threads == map[0 := Thread(DoLike, a, Put(1))];
  }

  /** Without a pending counter command, the sub-counters are exact. */
  lemma NothingOwed(c: System)
    requires Inv(c) && forall t :: t in c.threads ==> c.threads[t].pc == Invalidate
    ensures CountersExact(c.st)
  {
    forall p: int64, s | 0 <= s < COUNTER_SHARDS ensures SubCounter(c.st, p, s) == |RowsOn(c.st.rows, p, s)| {
      assert Balance(c, p, s) == 0;
      assert Pending(c.threads, DoLike, p, s) == {} && Pending(c.threads, DoUnlike, p, s) == {};
    }
  }

  lemma SecondLikeWrites(a: Like, b: Like)
    requires a.post == b.post && a.user != b.user
    ensures var mid := Steps(Extend(SlowReader(a), Begin(1, DoLike, b)), 1, 3);
      && Disciplined(mid) && After(mid).st.rows == {a, b}
      && After(mid).threads == map[0 := Thread(DoLike, a, Put(1)), 1 := Thread(DoLike, b, Invalidate)]
  {
    SlowReaderHolds(a);
    var r := Extend(SlowReader(a), Begin(1, DoLike, b));
    LikeWrites(r, 1, b);
    StepsDisciplined(r, 1, 3);
  }

  lemma SecondLikeReturns(a: Like, b: Like)
    requires a.post == b.post && a.user != b.user
    ensures var done := Steps(Extend(SlowReader(a), Begin(1, DoLike, b)), 1, 7);
      && Disciplined(done) && After(done).threads == map[0 := Thread(DoLike, a, Put(1))]
      && After(done).st.rows == {a, b}
  {
    SecondLikeWrites(a, b);
    var r := Extend(SlowReader(a), Begin(1, DoLike, b));
    var mid := Steps(r, 1, 3);
    ReadsBack(mid, 1, DoLike, b);
    StepsAdd(r, 1, 3, 4);
    StepsDisciplined(mid, 1, 4);
    assert After(mid).threads - {1} == map[0 := Thread(DoLike, a, Put(1))];
  }

  /** The condition is needed: two different users, every command succeeding, can leave a cached
      sum of 1 on a post with two likers. Until its TTL runs out readers see it. */
  lemma CachedSumCanGoStale(a: Like, b: Like)
    requires a.post == b.post && a.user != b.user
    ensures Disciplined(StaleRun(a, b)) && After(StaleRun(a, b)).threads == map[]
    ensures var st := After(StaleRun(a, b)).st;
      a.post in st.cache && st.cache[a.post] == 1 && Total(st, a.post) == 2
  {
    SecondLikeReturns(a, b);
    assert After(StaleRun(a, b)).threads == map[];
    QuiescentStoresAgree(StaleRun(a, b), a.post);
    assert RowsOf(After(StaleRun(a, b)).st.rows, a.post) == {a, b};
  }
}
