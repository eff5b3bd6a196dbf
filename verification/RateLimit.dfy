/** rate_limiter.go: a fixed-window counter, INCR then EXPIRE on the first hit. The steps of
    concurrent calls may interleave, and an EXPIRE may come late or never. */
module RateLimit {
  import opened Prelude

  /** One key: absent, or counting since `start` with an expiry once EXPIRE has run. */
  datatype Window = Absent | Live(start: int, count: nat, expireAt: Option<int>)

  /** A Redis command on the key. `first` says the INCR found no live key. */
  datatype Event =
    | Incr(at: int, first: bool)
    | Expire(at: int)

  /** A key may be gone from its expiry instant on, and is certainly gone after it. */
  predicate Enabled(w: Window, e: Event) {
    match e
    case Incr(at, first) =>
      if w.Absent? then first
      else if first then w.expireAt.Some? && at >= w.expireAt.value
      else w.expireAt.Some? ==> at <= w.expireAt.value
    case Expire(_) => w.Live? && w.expireAt.None?
  }

  function Next(w: Window, e: Event, window: nat): Window {
    match e
    case Incr(at, first) =>
      if first || w.Absent? then Live(at, 1, None) else w.(count := w.count + 1)
    case Expire(at) =>
      if w.Live? then w.(expireAt := Some(at + window)) else w
  }

  /** Allow's verdict: the count INCR returned is within the limit. */
  predicate Allowed(w: Window, e: Event, limit: int) {
    e.Incr? && (if e.first || w.Absent? then 1 else w.count + 1) <= limit
  }

  /** A history of commands, latest last. */
  datatype Run = Start | Then(before: Run, last: Event)

  function After(run: Run, window: nat): Window {
    match run
    case Start => Absent
    case Then(r, e) => Next(After(r, window), e, window)
  }

  /** A run Redis could execute, in time order. */
  predicate Legal(run: Run, window: nat) {
    match run
    case Start => true
    case Then(r, e) => Legal(r, window) && Enabled(After(r, window), e) && NotAfter(r, e.at)
  }

  predicate NotAfter(run: Run, at: int) {
    run.Then? ==> run.last.at <= at
  }

  /** How many calls of the run were allowed in [from, from + window). */
  function AllowedIn(run: Run, window: nat, limit: int, from: int): nat {
    match run
    case Start => 0
    case Then(r, e) =>
      AllowedIn(r, window, limit, from)
      + if Allowed(After(r, window), e, limit) && from <= e.at < from + window then 1 else 0
  }

  /** How many calls were allowed since the key was last created. */
  function AllowedInLifetime(run: Run, window: nat, limit: int): nat {
    match run
    case Start => 0
    case Then(r, e) =>
      (if e.Incr? && e.first then 0 else AllowedInLifetime(r, window, limit))
      + if Allowed(After(r, window), e, limit) then 1 else 0
  }

  /** Bound on the allowed calls so far, from where the latest key lifetime began. */
  function Budget(w: Window, window: nat, limit: int, from: int): int {
    if w.Absent? then 0
    else if w.start < from then Min(w.count, limit) - 1
    else if w.start < from + window then limit - 1 + Min(w.count, limit)
    else 2 * limit - 1
  }

  /** A key lives at least one window length. */
  lemma {:induction false} LifetimeFacts(run: Run, window: nat)
    requires Legal(run, window)
    ensures var w := After(run, window);
      w.Live? ==>
        && w.count >= 1
        && (w.expireAt.Some? ==> w.start + window <= w.expireAt.value)
        && run.Then? && w.start <= run.last.at
  {
    if run.Then? { LifetimeFacts(run.before, window); }
  }

  lemma {:induction false} NoneBefore(run: Run, window: nat, limit: int, from: int)
    requires Legal(run, window)
    requires run.Then? ==> run.last.at < from
    ensures AllowedIn(run, window, limit, from) == 0
  {
    if run.Then? { NoneBefore(run.before, window, limit, from); }
  }

  lemma {:induction false} WithinBudget(run: Run, window: nat, limit: int, from: int)
    requires Legal(run, window) && limit >= 1
    ensures AllowedIn(run, window, limit, from) <= Budget(After(run, window), window, limit, from)
  {
    if run.Then? {
      LifetimeFacts(run.before, window);
      LifetimeFacts(run, window);
      WithinBudget(run.before, window, limit, from);
      if run.last.at < from {
        NoneBefore(run, window, limit, from);
      }
    }
  }

  /** Rate bound: in every run and every half-open interval of one window length, at most
      2 * limit - 1 calls on a key are allowed (so fewer than the 2 * limit of two full
      windows), and none when the limit is not positive. */
  lemma TwiceTheLimit(run: Run, window: nat, limit: int, from: int)
    requires Legal(run, window)
    ensures AllowedIn(run, window, limit, from) <= (if limit >= 1 then 2 * limit - 1 else 0)
  {
    if limit >= 1 {
      WithinBudget(run, window, limit, from);
    } else {
      NoneUnderZero(run, window, limit, from);
    }
  }

  lemma {:induction false} NoneUnderZero(run: Run, window: nat, limit: int, from: int)
    requires limit < 1
    ensures AllowedIn(run, window, limit, from) == 0
  {
    if run.Then? { NoneUnderZero(run.before, window, limit, from); }
  }

  /** Within one key lifetime exactly the first `limit` hits are allowed. */
  lemma {:induction false} LimitPerLifetime(run: Run, window: nat, limit: nat)
    requires Legal(run, window)
    ensures var w := After(run, window);
      AllowedInLifetime(run, window, limit) == if w.Absent? then 0 else Min(w.count, limit)
  {
    if run.Then? { LimitPerLifetime(run.before, window, limit); }
  }

  // ---------- the bound is reached ----------

  /** n more hits at one instant on a key that is alive. */
  function Burst(run: Run, n: nat, at: int): Run {
    if n == 0 then run else Then(Burst(run, n - 1, at), Incr(at, false))
  }

  /** One hit opens the window, limit - 1 land at its end, and limit more right after it. */
  function WorstRun(window: nat, limit: nat): Run
    requires limit >= 1
  {
    var begun := Then(Then(Start, Incr(0, true)), Expire(0));
    Burst(Then(Burst(begun, limit - 1, window), Incr(window, true)), limit - 1, window)
  }

  lemma {:induction false} BurstAllowed(run: Run, n: nat, at: int, window: nat, limit: int, from: int)
    requires Legal(run, window) && NotAfter(run, at) && from <= at < from + window
    requires var w := After(run, window);
      w.Live? && (w.expireAt.Some? ==> at <= w.expireAt.value) && w.count + n <= limit
    ensures var longer := Burst(run, n, at);
      && Legal(longer, window) && NotAfter(longer, at)
      && After(longer, window) == After(run, window).(count := After(run, window).count + n)
      && AllowedIn(longer, window, limit, from) == AllowedIn(run, window, limit, from) + n
  {
    if n > 0 { BurstAllowed(run, n - 1, at, window, limit, from); }
  }

  /** Tightness: for every positive limit and window, some legal run does allow
      2 * limit - 1 calls within one window length. */
  lemma BoundIsReached(window: nat, limit: nat)
    requires limit >= 1 && window >= 1
    ensures Legal(WorstRun(window, limit), window)
    ensures AllowedIn(WorstRun(window, limit), window, limit, 1) == 2 * limit - 1
  {
    var begun := Then(Then(Start, Incr(0, true)), Expire(0));
    assert After(begun, window) == Live(0, 1, Some(window));
    NoneBefore(begun, window, limit, 1);
    BurstAllowed(begun, limit - 1, window, window, limit, 1);
    var reopened := Then(Burst(begun, limit - 1, window), Incr(window, true));
    assert After(reopened, window) == Live(window, 1, None) && AllowedIn(reopened, window, limit, 1) == limit;
    BurstAllowed(reopened, limit - 1, window, window, limit, 1);
  }

  // ---------- a lost EXPIRE ----------

  /** The key has counted up to the limit and no EXPIRE has run on it. Only the hit that created it
      would have sent one. */
  predicate Stuck(w: Window, limit: int) {
    w.Live? && w.expireAt.None? && w.count >= limit
  }

  /** Hits alone lead from `early` to `run`. */
  predicate OnlyHits(run: Run, early: Run) {
    run == early || (run.Then? && run.last.Incr? && OnlyHits(run.before, early))
  }

  /** A window expires itself only if its EXPIRE arrives: once it is lost and the limit reached,
      every later call on the key is refused, however much later. */
  lemma {:induction false} LostExpireRefusesForGood(run: Run, early: Run, window: nat, limit: int)
    requires Legal(run, window) && OnlyHits(run, early) && Stuck(After(early, window), limit)
    ensures Stuck(After(run, window), limit)
    ensures run != early ==> !Allowed(After(run.before, window), run.last, limit)
  {
    if run != early { LostExpireRefusesForGood(run.before, early, window, limit); }
  }

  /** A call that Redis could answer next, and that would be let through. */
  predicate LetsIn(run: Run, e: Event, window: nat, limit: int) {
    Legal(Then(run, e), window) && Allowed(After(run, window), e, limit)
  }

  /** When the next hit on a key that is not stuck comes in time, or late enough, to be let in. */
  function NextHit(run: Run, window: nat): Event {
    var w := After(run, window);
    var now := if run.Then? then run.last.at else 0;
    if w.Absent? then Incr(now, true)
    else if w.expireAt.Some? then Incr(if now < w.expireAt.value then w.expireAt.value else now, true)
    else Incr(now, false)
  }

  /** And only that refuses for good: after any run, some next hit is still let in exactly when the
      key is not stuck. */
  lemma RefusedForGoodIffStuck(run: Run, window: nat, limit: int)
    requires Legal(run, window) && limit >= 1
    ensures (exists e :: LetsIn(run, e, window, limit)) <==> !Stuck(After(run, window), limit)
  {
    if !Stuck(After(run, window), limit) {
      assert LetsIn(run, NextHit(run, window), window, limit);
    }
  }

  /** The input: the hit that opens the window loses its EXPIRE and limit - 1 more come. */
  lemma LostExpireSticks(window: nat, limit: nat)
    requires limit >= 1 && window >= 1
    ensures var run := Burst(Then(Start, Incr(0, true)), limit - 1, 0);
      Legal(run, window) && Stuck(After(run, window), limit) && AllowedIn(run, window, limit, 0) == limit
  {
    BurstAllowed(Then(Start, Incr(0, true)), limit - 1, 0, window, limit, 0);
  }

  // ---------- the limiter itself ----------

  /** How an INCR fails: it never reaches Redis, or its reply is lost. */
  datatype IncrFault = NotSent | ReplyLost

  class RateLimiter {
    var keys: map<string, Window>
    const limit: int
    const window: nat

    constructor (limit: int, window: nat)
      ensures this.limit == limit && this.window == window && keys == map[]
    {
      this.limit, this.window := limit, window;
      keys := map[];
    }

    function Of(key: string): Window
      reads this
    {
      if key in keys then keys[key] else Absent
    }

    /** Allow, alone on its key: INCR at `now`, and EXPIRE at `expireCall` if it created the key.
        The EXPIRE may be lost, and nobody looks; an INCR that reports an error may have run. */
    method Allow(key: string, now: int, first: bool, fault: Option<IncrFault>, expireCall: Option<int>)
      returns (r: Option<bool>)
      requires Enabled(Of("ratelimit:" + key), Incr(now, first))
      modifies this
      ensures var w := old(Of("ratelimit:" + key));
        var hit := Next(w, Incr(now, first), window);
        Of("ratelimit:" + key) == match fault
          case Some(NotSent) => w
          case Some(ReplyLost) => hit
          case None => if hit.count == 1 && expireCall.Some? then Next(hit, Expire(expireCall.value), window) else hit
      ensures r == if fault.Some? then None else Some(Allowed(old(Of("ratelimit:" + key)), Incr(now, first), limit))
      ensures forall k :: k != "ratelimit:" + key ==> Of(k) == old(Of(k))
    {
      var windowKey := "ratelimit:" + key;
      if fault == Some(NotSent) {
        return None;
      }
      var count := 1;
      if first {
        keys := keys[windowKey := Live(now, 1, None)];
      } else {
        count := keys[windowKey].count + 1;
        keys := keys[windowKey := keys[windowKey].(count := count)];
      }
      if fault == Some(ReplyLost) {
        return None;
      }
      if count == 1 && expireCall.Some? {
        keys := keys[windowKey := keys[windowKey].(expireAt := Some(expireCall.value + window))];
      }
      return Some(count <= limit);
    }
  }
}
