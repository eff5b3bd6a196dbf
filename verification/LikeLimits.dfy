/** The rate check in front of the like calls: engagement_service.go over rate_limiter.go, on one key
    per user and post that likes and unlikes share. */
module LikeLimits {
  import opened Prelude
  import opened LikeStore
  import opened LikeService
  import RateLimit

  function LikeKey(user: int64, post: int64): string {
    "like:" + Decimal(user) + ":" + Decimal(post)
  }

  lemma NoColon(n: int)
    ensures ':' !in Decimal(n)
  {
    assert forall c :: c in Digits(Abs(n)) ==> '0' <= c <= '9';
  }

  lemma KeyParts(a: string, b: string, c: string, d: string)
    requires ':' !in a && ':' !in c && "like:" + a + ":" + b == "like:" + c + ":" + d
    ensures a == c && b == d
  {
    assert "like:" + a + ":" + b == "like:" + (a + [':'] + b);
    assert "like:" + c + ":" + d == "like:" + (c + [':'] + d);
    SameTail("like:", a + [':'] + b, c + [':'] + d);
    SplitOnce(a, b, c, d, ':');
  }

  /** Two users, or two posts, never share a window. */
  lemma KeysDiffer(user: int64, post: int64, other: int64, otherPost: int64)
    requires LikeKey(user, post) == LikeKey(other, otherPost)
    ensures user == other && post == otherPost
  {
    NoColon(user);
    NoColon(other);
    KeyParts(Decimal(user), Decimal(post), Decimal(other), Decimal(otherPost));
    DecimalDistinct(user, other);
    DecimalDistinct(post, otherPost);
  }

  class LimitedEngagement {
    const limiter: RateLimit.RateLimiter
    const service: EngagementService

    constructor (limiter: RateLimit.RateLimiter, service: EngagementService)
      ensures this.limiter == limiter && this.service == service
    {
      this.limiter, this.service := limiter, service;
    }

    /** The window of one user on one post. */
    function Window(user: int64, post: int64): RateLimit.Window
      reads limiter
    {
      limiter.Of("ratelimit:" + LikeKey(user, post))
    }

    /** Like, rate check first: an INCR that fails, or a count past the limit, leaves every store as
        it was. */
    method Like(post: int64, user: int64, now: int, first: bool, fault: Option<RateLimit.IncrFault>,
                expireCall: Option<int>, f: Faults) returns (r: Result<int, Failure>)
      requires RateLimit.Enabled(Window(user, post), RateLimit.Incr(now, first)) && !f.fatal.AtRateCheck?
      modifies limiter, service
      ensures fault.Some? ==> r == Err(StoreError) && service.State() == old(service.State())
      ensures fault.None? ==>
        var allowed := (if first then 1 else old(Window(user, post)).count + 1) <= limiter.limit;
        && (r == Err(RateLimited) <==> !allowed)
        && (!allowed ==> service.State() == old(service.State()))
        && (allowed ==>
              (service.State(), r) == CallSpec(old(service.State()), DoLike, LikeStore.Like(post, user), true, f))
    {
      var allowed := limiter.Allow(LikeKey(user, post), now, first, fault, expireCall);
      if allowed.None? {
        return Err(StoreError);
      }
      r := service.Like(post, user, allowed.value, f);
    }

    method Unlike(post: int64, user: int64, now: int, first: bool, fault: Option<RateLimit.IncrFault>,
                  expireCall: Option<int>, f: Faults) returns (r: Result<int, Failure>)
      requires RateLimit.Enabled(Window(user, post), RateLimit.Incr(now, first)) && !f.fatal.AtRateCheck?
      modifies limiter, service
      ensures fault.Some? ==> r == Err(StoreError) && service.State() == old(service.State())
      ensures fault.None? ==>
        var allowed := (if first then 1 else old(Window(user, post)).count + 1) <= limiter.limit;
        && (r == Err(RateLimited) <==> !allowed)
        && (!allowed ==> service.State() == old(service.State()))
        && (allowed ==>
              (service.State(), r) == CallSpec(old(service.State()), DoUnlike, LikeStore.Like(post, user), true, f))
    {
      var allowed := limiter.Allow(LikeKey(user, post), now, first, fault, expireCall);
      if allowed.None? {
        return Err(StoreError);
      }
      r := service.Unlike(post, user, allowed.value, f);
    }
  }

  // ---------- runs of one user's calls on one post ----------

  /** A like or unlike whose INCR reached Redis (its reply perhaps lost), a late EXPIRE of the key, or
      anybody else's doing to the stores. */
  datatype Event =
    | Attempt(kind: Kind, at: int, first: bool, replyLost: bool, faults: Faults)
    | LateExpire(at: int)
    | Others(st: Store)

  datatype Run = Start(st: Store) | Then(before: Run, event: Event)

  /** The commands that the run makes on the key. */
  function Hits(run: Run): RateLimit.Run {
    match run
    case Start(_) => RateLimit.Start
    case Then(r, Attempt(_, at, first, _, _)) => RateLimit.Then(Hits(r), RateLimit.Incr(at, first))
    case Then(r, LateExpire(at)) => RateLimit.Then(Hits(r), RateLimit.Expire(at))
    case Then(r, Others(_)) => Hits(r)
  }

  /** What the limiter answers the call. */
  predicate LetIn(run: Run, e: Event, window: nat, limit: int)
    requires e.Attempt?
  {
    !e.replyLost && RateLimit.Allowed(RateLimit.After(Hits(run), window), RateLimit.Incr(e.at, e.first), limit)
  }

  function Stores(run: Run, l: LikeStore.Like, window: nat, limit: int): Store {
    match run
    case Start(st) => st
    case Then(r, e) =>
      match e
      case Attempt(kind, at, first, replyLost, f) =>
        CallSpec(Stores(r, l, window, limit), kind, l, LetIn(r, e, window, limit), f).0
      case LateExpire(_) => Stores(r, l, window, limit)
      case Others(st) => st
  }

  /** How many of the user's calls in [from, from + window) changed any store. */
  function ChangesIn(run: Run, l: LikeStore.Like, window: nat, limit: int, from: int): nat {
    match run
    case Start(_) => 0
    case Then(r, e) =>
      ChangesIn(r, l, window, limit, from)
      + if e.Attempt? && from <= e.at < from + window && Stores(run, l, window, limit) != Stores(r, l, window, limit)
        then 1 else 0
  }

  lemma {:induction false} ChangesAreAllowed(run: Run, l: LikeStore.Like, window: nat, limit: int, from: int)
    ensures ChangesIn(run, l, window, limit, from) <= RateLimit.AllowedIn(Hits(run), window, limit, from)
  {
    match run
    case Start(_) =>
    case Then(r, e) =>
      ChangesAreAllowed(r, l, window, limit, from);
      if e.Attempt? {
        RefusedIff(Stores(r, l, window, limit), e.kind, l, LetIn(r, e, window, limit), e.faults);
      }
  }

  /** The limit protects the stores: in every run and every half-open interval of one window length, at
      most 2 * limit - 1 of one user's likes and unlikes of one post change a row, a mark, a counter or
      a cached sum, and none if the limit is not positive. */
  lemma FewCallsReachTheStores(run: Run, l: LikeStore.Like, window: nat, limit: int, from: int)
    requires RateLimit.Legal(Hits(run), window)
    ensures ChangesIn(run, l, window, limit, from) <= if limit >= 1 then 2 * limit - 1 else 0
  {
    ChangesAreAllowed(run, l, window, limit, from);
    RateLimit.TwiceTheLimit(Hits(run), window, limit, from);
  }
}
