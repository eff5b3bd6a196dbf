/** The two tiers of one user over whole runs: fan-out events written by FanoutService.handle mixed
    with the user's own reads, the first of which promotes the cold log. */
module Tiers {
  import opened Prelude
  import opened SortedSet
  import opened Inbox
  import opened Fanout
  import Users

  /** One handled event of a non-celebrity author, with the users table of that moment, how single
      pushes went wrong (NotSent also where an earlier push had thrown), and the users whose cold
      append was lost or never reached. */
  datatype Delivery = Delivery(post: int64, author: int64, createdAt: int, followers: seq<int64>,
                               tables: Users.Tables, cutoff: int, pushes: map<int64, PushFault>, lost: set<int64>)

  /** `sent` bounds how many promoting ZADDs of a read reach the server. */
  datatype Event = Deliver(d: Delivery) | Read(user: int64, sent: nat)

  datatype Run = Start | Then(before: Run, event: Event)

  ghost predicate WellFormed(run: Run) {
    run.Then? ==>
      && WellFormed(run.before)
      && (run.event.Deliver? ==> RowsOnTheirShard(run.event.d.tables) && Distinct(run.event.d.followers))
  }

  function EntryOf(d: Delivery): Entry {
    Entry(d.createdAt, Decimal(d.post))
  }

  function CandidateOf(d: Delivery): Candidate {
    Candidate(Decimal(d.post), Decimal(d.author), "in-network")
  }

  ghost predicate FoundActive(d: Delivery, u: int64) {
    u in d.followers && Active(d.tables, d.cutoff, u)
  }

  function Fault(d: Delivery, u: int64): Option<PushFault> {
    if u in d.pushes then Some(d.pushes[u]) else None
  }

  /** The event put its post into u's hot inbox. */
  ghost predicate ReachedHot(d: Delivery, u: int64) {
    FoundActive(d, u) && Fault(d, u) != Some(NotSent)
  }

  /** The event put its post into u's cold log. */
  ghost predicate ReachedCold(d: Delivery, u: int64) {
    FoundDormant(d, u) && u !in d.lost
  }

  ghost predicate FoundDormant(d: Delivery, u: int64) {
    u in d.followers && !Active(d.tables, d.cutoff, u)
  }

  // ---------- the tiers, step by step ----------

  datatype Inboxes = Inboxes(hot: ZSet, cold: seq<Candidate>)

  /** One event on u's tiers: what Handle leaves, and what InNetworkCandidates leaves. */
  ghost function Next(t: Inboxes, e: Event, u: int64, maxItems: nat): Inboxes {
    match e
    case Deliver(d) =>
      Inboxes(if FoundActive(d, u) then PushUpTo(t.hot, EntryOf(d), maxItems, Fault(d, u)) else t.hot,
              AppendTimes(t.cold, CandidateOf(d),
                          if u in d.lost then 0 else Appends(d.tables, d.cutoff, d.followers, u)))
    case Read(v, sent) =>
      if v == u then t.(hot := HotAfterRead(t.hot, t.cold, Sent(Some(sent), |t.cold|))) else t
  }

  ghost function After(run: Run, u: int64, maxItems: nat): Inboxes {
    match run
    case Start => Inboxes([], [])
    case Then(r, e) => Next(After(r, u, maxItems), e, u, maxItems)
  }

  /** A delivery is what Handle promises u: the post's entry, scored by its time, in the hot inbox
      of an active follower, and its candidate in the log of a dormant one. */
  lemma DeliveryIsHandle(t: Inboxes, d: Delivery, u: int64, maxItems: nat)
    ensures var after := Next(t, Deliver(d), u, maxItems);
      && (Fault(d, u) == None ==>
            after.hot == HotAfter(t.hot, Pushes(d.tables, d.cutoff, d.followers, u) == 1,
                                  Entry(d.createdAt, Decimal(d.post)), maxItems))
      && after.cold == AppendTimes(t.cold, Candidate(Decimal(d.post), Decimal(d.author), "in-network"),
           if u in d.lost then 0 else Appends(d.tables, d.cutoff, d.followers, u))
  {}

  /** And on a duplicate-free follower list that is one write in one tier, or none. */
  lemma DeliveryReaches(t: Inboxes, d: Delivery, u: int64, maxItems: nat)
    requires RowsOnTheirShard(d.tables) && Distinct(d.followers) && Fault(d, u) == None && u !in d.lost
    ensures var after, e := Next(t, Deliver(d), u, maxItems), Entry(d.createdAt, Decimal(d.post));
      if u !in d.followers then after == t
      else if Active(d.tables, d.cutoff, u) then after == t.(hot := Cut(ZAdd(t.hot, e), maxItems))
      else after.hot == t.hot
           && after.cold == AppendCold(t.cold, Candidate(Decimal(d.post), Decimal(d.author), "in-network"))
  {
    DistinctOnce(d.followers, u);
    DeliveryIsHandle(t, d, u, maxItems);
  }

  // ---------- the history behind them ----------

  /** The events that found u following and active, and reached the inbox. */
  ghost function HotEvents(run: Run, u: int64): seq<Delivery> {
    match run
    case Start => []
    case Then(r, e) => HotEvents(r, u) + if e.Deliver? && ReachedHot(e.d, u) then [e.d] else []
  }

  /** The events that found u following and dormant, and reached the log. */
  ghost function ColdEvents(run: Run, u: int64): seq<Delivery> {
    match run
    case Start => []
    case Then(r, e) => ColdEvents(r, u) + if e.Deliver? && ReachedCold(e.d, u) then [e.d] else []
  }

  /** No push to u broke off between its ZADD and its trim. */
  ghost predicate AllTrimmed(run: Run, u: int64) {
    run.Then? ==>
      && AllTrimmed(run.before, u)
      && (run.event.Deliver? ==> !FoundActive(run.event.d, u) || Fault(run.event.d, u) != Some(NotTrimmed))
  }

  function Entries(events: seq<Delivery>): seq<Entry> {
    if events == [] then [] else Entries(events[..|events| - 1]) + [EntryOf(events[|events| - 1])]
  }

  function Candidates(events: seq<Delivery>): seq<Candidate> {
    if events == [] then [] else Candidates(events[..|events| - 1]) + [CandidateOf(events[|events| - 1])]
  }

  /** This event is a read that puts something into u's hot inbox. */
  ghost predicate Promotes(t: Inboxes, e: Event, u: int64) {
    e.Read? && e.user == u && t.hot == [] && t.cold != [] && e.sent > 0
  }

  ghost function Promotions(run: Run, u: int64, maxItems: nat): nat {
    match run
    case Start => 0
    case Then(r, e) => Promotions(r, u, maxItems) + if Promotes(After(r, u, maxItems), e, u) then 1 else 0
  }

  /** The hot inbox as the promoting read left it, empty while there was none. */
  ghost function Promotion(run: Run, u: int64, maxItems: nat): ZSet {
    match run
    case Start => []
    case Then(r, e) =>
      if Promotes(After(r, u, maxItems), e, u) then After(run, u, maxItems).hot else Promotion(r, u, maxItems)
  }

  lemma EntriesSnoc(events: seq<Delivery>, d: Delivery)
    ensures Entries(events + [d]) == Entries(events) + [EntryOf(d)]
  {
    assert (events + [d])[..|events|] == events;
  }

  lemma PushAllSnoc(z: ZSet, pushes: seq<Entry>, e: Entry, maxItems: nat)
    ensures PushAll(z, pushes + [e], maxItems) == Push(PushAll(z, pushes, maxItems), e, maxItems)
  {
    assert (pushes + [e])[..|pushes|] == pushes;
  }

  /** With room for at least one entry a sorted set that holds something never becomes empty. */
  lemma PushKeeps(z: ZSet, e: Entry, maxItems: nat, fault: Option<PushFault>)
    requires maxItems >= 1 && (fault != Some(NotSent) || z != [])
    ensures PushUpTo(z, e, maxItems, fault) != []
  {
    Lengths(Without(z, e.member), e);
    TrimKeepsBest(ZAdd(z, e), maxItems);
  }

  lemma PromotingFills(t: Inboxes, e: Event, u: int64, maxItems: nat)
    requires e.Read?
    ensures Promotes(t, e, u) <==> t.hot == [] && Next(t, e, u, maxItems).hot != []
  {
    PromoteValid(t.cold, Sent(Some(e.sent), |t.cold|));
  }

  /** While the hot inbox is empty nothing was pushed and nothing promoted, so a promotion comes
      before every push, and there is at most one. */
  lemma {:induction false} PromotionComesFirst(run: Run, u: int64, maxItems: nat)
    requires WellFormed(run) && maxItems >= 1
    ensures After(run, u, maxItems).hot == [] ==>
      HotEvents(run, u) == [] && Promotion(run, u, maxItems) == [] && Promotions(run, u, maxItems) == 0
    ensures Promotions(run, u, maxItems) <= 1
  {
    match run
    case Start =>
    case Then(r, Deliver(d)) =>
      PromotionComesFirst(r, u, maxItems);
      if ReachedHot(d, u) {
        PushKeeps(After(r, u, maxItems).hot, EntryOf(d), maxItems, Fault(d, u));
      }
    case Then(r, Read(v, sent)) =>
      PromotionComesFirst(r, u, maxItems);
      PromotingFills(After(r, u, maxItems), Read(v, sent), u, maxItems);
  }

  /** At a read the promotion stays what it was, or the inbox is what the read promotes. */
  lemma ReadStep(r: Run, e: Event, u: int64, maxItems: nat)
    requires e.Read? && WellFormed(r) && maxItems >= 1
    ensures var run := Then(r, e);
      && HotEvents(run, u) == HotEvents(r, u)
      && if Promotion(run, u, maxItems) == Promotion(r, u, maxItems)
         then After(run, u, maxItems).hot == After(r, u, maxItems).hot
         else HotEvents(r, u) == [] && After(run, u, maxItems).hot == Promotion(run, u, maxItems)
  {
    var t := After(r, u, maxItems);
    PromotionComesFirst(r, u, maxItems);
    PromotingFills(t, e, u, maxItems);
    if !Promotes(t, e, u) {
      assert Next(t, e, u, maxItems).hot == t.hot;
    }
  }

  lemma HotReplaysDelivery(t: Inboxes, d: Delivery, u: int64, maxItems: nat, z: ZSet, events: seq<Delivery>)
    requires t.hot == PushAll(z, Entries(events), maxItems)
    requires FoundActive(d, u) ==> Fault(d, u) != Some(NotTrimmed)
    ensures Next(t, Deliver(d), u, maxItems).hot
         == PushAll(z, Entries(events + if ReachedHot(d, u) then [d] else []), maxItems)
  {
    var hot := Next(t, Deliver(d), u, maxItems).hot;
    if ReachedHot(d, u) {
      assert hot == Push(t.hot, EntryOf(d), maxItems);
      EntriesSnoc(events, d);
      PushAllSnoc(z, Entries(events), EntryOf(d), maxItems);
    } else {
      assert hot == t.hot;
      assert events + [] == events;
    }
  }

  lemma {:induction false} HotReplays(run: Run, u: int64, maxItems: nat)
    requires WellFormed(run) && maxItems >= 1 && AllTrimmed(run, u)
    ensures After(run, u, maxItems).hot == PushAll(Promotion(run, u, maxItems), Entries(HotEvents(run, u)), maxItems)
  {
    match run
    case Start =>
    case Then(r, Deliver(d)) =>
      HotReplays(r, u, maxItems);
      HotReplaysDelivery(After(r, u, maxItems), d, u, maxItems, Promotion(r, u, maxItems), HotEvents(r, u));
    case Then(r, Read(v, sent)) =>
      HotReplays(r, u, maxItems);
      ReadStep(r, Read(v, sent), u, maxItems);
      assert HotEvents(r, u) == [] ==> Entries(HotEvents(r, u)) == [];
  }

  lemma PushUpToHolds(z: ZSet, e: Entry, maxItems: nat, fault: Option<PushFault>)
    requires Valid(z)
    ensures Valid(PushUpTo(z, e, maxItems, fault))
    ensures forall x :: x in PushUpTo(z, e, maxItems, fault) ==> x in z || (x == e && fault != Some(NotSent))
  {
    if fault != Some(NotSent) {
      var w := ZAdd(z, e);
      ZAddSpec(z, e);
      TrimKeepsBest(w, maxItems);
      ValidPart(w, maxItems);
      assert PushUpTo(z, e, maxItems, fault) == w || PushUpTo(z, e, maxItems, fault) == Cut(w, maxItems);
    }
  }

  /** Every entry of z was pushed or promoted. */
  ghost predicate Holds(z: ZSet, pushes: seq<Entry>, promoted: ZSet) {
    Valid(z) && forall x :: x in z ==> x in pushes || x in promoted
  }

  lemma HoldsNext(z: ZSet, pushes: seq<Entry>, promoted: ZSet, e: Entry, maxItems: nat, fault: Option<PushFault>)
    requires Holds(z, pushes, promoted)
    ensures fault != Some(NotSent) ==> Holds(PushUpTo(z, e, maxItems, fault), pushes + [e], promoted)
  {
    PushUpToHolds(z, e, maxItems, fault);
    assert forall x :: x in pushes + [e] <==> x in pushes || x == e;
  }

  lemma HoldsDelivery(t: Inboxes, d: Delivery, u: int64, maxItems: nat, events: seq<Delivery>, promoted: ZSet)
    requires Holds(t.hot, Entries(events), promoted)
    ensures var more := events + if ReachedHot(d, u) then [d] else [];
      Holds(Next(t, Deliver(d), u, maxItems).hot, Entries(more), promoted)
  {
    if ReachedHot(d, u) {
      EntriesSnoc(events, d);
      HoldsNext(t.hot, Entries(events), promoted, EntryOf(d), maxItems, Fault(d, u));
    } else {
      assert Next(t, Deliver(d), u, maxItems).hot == t.hot;
      assert events + [] == events;
    }
  }

  /** Every entry of the hot inbox was pushed or promoted. */
  lemma {:induction false} HotHolds(run: Run, u: int64, maxItems: nat)
    requires WellFormed(run) && maxItems >= 1
    ensures Holds(After(run, u, maxItems).hot, Entries(HotEvents(run, u)), Promotion(run, u, maxItems))
  {
    match run
    case Start =>
    case Then(r, Deliver(d)) =>
      HotHolds(r, u, maxItems);
      HoldsDelivery(After(r, u, maxItems), d, u, maxItems, HotEvents(r, u), Promotion(r, u, maxItems));
    case Then(r, Read(v, sent)) =>
      HotHolds(r, u, maxItems);
      ReadStep(r, Read(v, sent), u, maxItems);
      PromotionFacts(run, u, maxItems);
  }

  lemma ColdStep(events: seq<Delivery>, d: Delivery, n: nat)
    requires n <= 1
    ensures AppendTimes(AppendAll([], Candidates(events)), CandidateOf(d), n)
         == AppendAll([], Candidates(events + if n == 1 then [d] else []))
  {
    var log := AppendAll([], Candidates(events));
    assert AppendTimes(log, CandidateOf(d), 0) == log;
    if n == 1 {
      AppendTimesNext(log, CandidateOf(d), 0);
      assert (events + [d])[..|events|] == events;
      var longer := Candidates(events) + [CandidateOf(d)];
      assert longer[..|longer| - 1] == Candidates(events);
    } else {
      assert events + [] == events;
    }
  }

  lemma {:induction false} ColdReplays(run: Run, u: int64, maxItems: nat)
    requires WellFormed(run)
    ensures After(run, u, maxItems).cold == AppendAll([], Candidates(ColdEvents(run, u)))
  {
    match run
    case Start =>
    case Then(r, Deliver(d)) =>
      ColdReplays(r, u, maxItems);
      OneTierPerFollower(d.tables, d.cutoff, d.followers, u);
      var n := if u in d.lost then 0 else Appends(d.tables, d.cutoff, d.followers, u);
      ColdStep(ColdEvents(r, u), d, n);
      assert n == 1 <==> ReachedCold(d, u);
    case Then(r, Read(_, _)) =>
      ColdReplays(r, u, maxItems);
      assert ColdEvents(run, u) == ColdEvents(r, u);
  }

  /** The cold log is the last 800 of its events: no read takes anything out of it. */
  lemma ColdIsLastEvents(run: Run, u: int64, maxItems: nat)
    requires WellFormed(run)
    ensures After(run, u, maxItems).cold == Suffix(Candidates(ColdEvents(run, u)), MAX_COLD_ITEMS)
  {
    ColdReplays(run, u, maxItems);
    ColdIsSuffixOfHistory(Candidates(ColdEvents(run, u)));
  }

  /** What a read promotes: well formed, scored by its place among at most 800, and all of it from
      events that had found u dormant. */
  ghost predicate ColdPromotion(z: ZSet, events: seq<Delivery>) {
    Valid(z) && forall x :: x in z ==> x.score <= MAX_COLD_ITEMS && FromEvents(events, x.member)
  }

  lemma PromotingRead(cold: seq<Candidate>, n: nat, events: seq<Delivery>)
    requires cold == Suffix(Candidates(events), MAX_COLD_ITEMS) && n <= |cold|
    ensures ColdPromotion(PromotePrefix([], cold, n), events)
  {
    PromoteValid(cold, n);
    forall x | x in PromotePrefix([], cold, n) ensures FromEvents(events, x.member) {
      var i := PromotedMember(cold, n, x);
      assert cold[i] in Candidates(events);
      CandidatesFrom(events, cold[i]);
    }
  }

  lemma PromotionStays(z: ZSet, events: seq<Delivery>, more: seq<Delivery>)
    requires ColdPromotion(z, events)
    ensures ColdPromotion(z, events + more)
  {
    forall x | x in z ensures FromEvents(events + more, x.member) {
      var i :| 0 <= i < |events| && Decimal(events[i].post) == x.member;
      assert (events + more)[i] == events[i];
    }
  }

  lemma {:induction false} PromotionFacts(run: Run, u: int64, maxItems: nat)
    requires WellFormed(run)
    ensures ColdPromotion(Promotion(run, u, maxItems), ColdEvents(run, u))
  {
    match run
    case Start =>
    case Then(r, Deliver(d)) =>
      PromotionFacts(r, u, maxItems);
      PromotionStays(Promotion(r, u, maxItems), ColdEvents(r, u), if ReachedCold(d, u) then [d] else []);
    case Then(r, Read(v, sent)) =>
      PromotionFacts(r, u, maxItems);
      assert ColdEvents(run, u) == ColdEvents(r, u);
      var cold := After(r, u, maxItems).cold;
      ColdIsLastEvents(r, u, maxItems);
      PromotingRead(cold, Sent(Some(sent), |cold|), ColdEvents(r, u));
  }

  /** Some event carries the post. */
  predicate FromEvents(events: seq<Delivery>, postID: string) {
    exists i :: 0 <= i < |events| && Decimal(events[i].post) == postID
  }

  lemma {:induction false} CandidatesFrom(events: seq<Delivery>, c: Candidate)
    ensures c in Candidates(events) ==> FromEvents(events, c.postID)
    ensures |Candidates(events)| == |events|
  {
    if events != [] {
      var r := events[..|events| - 1];
      CandidatesFrom(r, c);
      assert Decimal(events[|events| - 1].post) == CandidateOf(events[|events| - 1]).postID;
      if FromEvents(r, c.postID) {
        var i :| 0 <= i < |r| && Decimal(r[i].post) == c.postID;
        assert events[i] == r[i];
      }
    }
  }

  lemma {:induction false} EntriesFrom(events: seq<Delivery>, e: Entry)
    ensures e in Entries(events) ==> FromEvents(events, e.member)
    ensures |Entries(events)| == |events|
  {
    if events != [] {
      var r := events[..|events| - 1];
      EntriesFrom(r, e);
      assert Decimal(events[|events| - 1].post) == EntryOf(events[|events| - 1]).member;
      if FromEvents(r, e.member) {
        var i :| 0 <= i < |r| && Decimal(r[i].post) == e.member;
        assert events[i] == r[i];
      }
    }
  }

  lemma AddedMember(z: ZSet, e: Entry, x: Entry)
    requires Valid(z) && x in ZAdd(z, e)
    ensures x == e || x in z
  {
    ZAddSpec(z, e);
  }

  lemma {:induction false} PromotedMember(cold: seq<Candidate>, n: nat, x: Entry) returns (i: nat)
    requires n <= |cold| && x in PromotePrefix([], cold, n)
    ensures i < n && cold[i].postID == x.member
  {
    var z, e := PromotePrefix([], cold, n - 1), PromotedEntry(cold, n - 1);
    PromoteValid(cold, n - 1);
    AddedMember(z, e, x);
    if x == e {
      i := n - 1;
    } else {
      i := PromotedMember(cold, n - 1, x);
    }
  }

  // ---------- main theorems ----------

  /** A push that reached the inbox, trimmed or not, has the same best entries. */
  lemma WriteKeepsBest(z: ZSet, e: Entry, maxItems: nat, fault: Option<PushFault>)
    requires fault != Some(NotSent)
    ensures Cut(PushUpTo(z, e, maxItems, fault), maxItems) == Cut(ZAdd(z, e), maxItems)
  {
    TrimKeepsBest(ZAdd(z, e), maxItems);
  }

  /** What u was pushed comes with one score per post, above any score of a promotion. */
  ghost predicate HighScores(run: Run, u: int64) {
    && OneScorePerMember(SetOf(Entries(HotEvents(run, u))))
    && forall e :: e in Entries(HotEvents(run, u)) ==> e.score > MAX_COLD_ITEMS
  }

  lemma HighScoresBefore(run: Run, u: int64)
    requires run.Then? && HighScores(run, u)
    ensures HighScores(run.before, u)
  {
    var r := HotEvents(run.before, u);
    if run.event.Deliver? && ReachedHot(run.event.d, u) {
      EntriesSnoc(r, run.event.d);
    } else {
      assert HotEvents(run, u) == r;
    }
    assert forall e :: e in Entries(r) ==> e in Entries(HotEvents(run, u));
    assert SetOf(Entries(r)) <= SetOf(Entries(HotEvents(run, u)));
  }

  lemma DeliveryNeverFalls(r: Run, d: Delivery, u: int64, maxItems: nat)
    requires WellFormed(r) && maxItems >= 1 && ReachedHot(d, u) && HighScores(Then(r, Deliver(d)), u)
    ensures NeverFalls(After(r, u, maxItems).hot, EntryOf(d))
  {
    var e, pushes := EntryOf(d), Entries(HotEvents(Then(r, Deliver(d)), u));
    HotHolds(r, u, maxItems);
    PromotionFacts(r, u, maxItems);
    EntriesSnoc(HotEvents(r, u), d);
    assert e in pushes;
    forall x | x in After(r, u, maxItems).hot && x.member == e.member ensures x == e || Above(e, x) {
      if x in Entries(HotEvents(r, u)) {
        assert x in SetOf(pushes) && e in SetOf(pushes);
      }
    }
  }

  /** The best entries of the hot inbox are the promotion with the pushes over it. */
  ghost predicate Replays(run: Run, u: int64, maxItems: nat) {
    var hot := After(run, u, maxItems).hot;
    var promoted, pushes := Promotion(run, u, maxItems), Entries(HotEvents(run, u));
    if pushes == [] then hot == promoted else Cut(hot, maxItems) == PushAll(promoted, pushes, maxItems)
  }

  /** Up to the cap, missing trims do not show. */
  lemma {:induction false} BestReplays(run: Run, u: int64, maxItems: nat)
    requires WellFormed(run) && maxItems >= 1 && HighScores(run, u)
    ensures Replays(run, u, maxItems)
  {
    if run.Then? {
      HighScoresBefore(run, u);
      BestReplays(run.before, u, maxItems);
      match run.event
      case Deliver(d) => DeliveryReplays(run.before, d, u, maxItems);
      case Read(_, _) => ReadReplays(run.before, run.event, u, maxItems);
    }
  }

  lemma ReadReplays(r: Run, e: Event, u: int64, maxItems: nat)
    requires e.Read? && WellFormed(r) && maxItems >= 1 && Replays(r, u, maxItems)
    ensures Replays(Then(r, e), u, maxItems)
  {
    ReadStep(r, e, u, maxItems);
  }

  lemma DeliveryReplays(r: Run, d: Delivery, u: int64, maxItems: nat)
    requires WellFormed(r) && maxItems >= 1 && HighScores(Then(r, Deliver(d)), u) && Replays(r, u, maxItems)
    ensures Replays(Then(r, Deliver(d)), u, maxItems)
  {
    if ReachedHot(d, u) {
      BestReplaysPush(r, d, u, maxItems);
    } else {
      assert HotEvents(Then(r, Deliver(d)), u) == HotEvents(r, u);
    }
  }

  lemma BestReplaysPush(r: Run, d: Delivery, u: int64, maxItems: nat)
    requires WellFormed(r) && maxItems >= 1 && ReachedHot(d, u) && HighScores(Then(r, Deliver(d)), u)
    requires Replays(r, u, maxItems)
    ensures Cut(After(Then(r, Deliver(d)), u, maxItems).hot, maxItems)
         == PushAll(Promotion(r, u, maxItems), Entries(HotEvents(r, u)) + [EntryOf(d)], maxItems)
    ensures Entries(HotEvents(Then(r, Deliver(d)), u)) == Entries(HotEvents(r, u)) + [EntryOf(d)]
  {
    var hot, e := After(r, u, maxItems).hot, EntryOf(d);
    EntriesSnoc(HotEvents(r, u), d);
    WriteKeepsBest(hot, e, maxItems, Fault(d, u));
    PushAllSnoc(Promotion(r, u, maxItems), Entries(HotEvents(r, u)), e, maxItems);
    TrimKeepsBest(ZAdd(PushAll(Promotion(r, u, maxItems), Entries(HotEvents(r, u)), maxItems), e), maxItems);
    HotHolds(r, u, maxItems);
    DeliveryNeverFalls(r, d, u, maxItems);
    CutAddCut(hot, e, maxItems);
  }

  /** Both tiers over whole runs of deliveries and reads, with users turning active and dormant and
      with pushes and appends failing. At most one read of u ever promotes. The hot inbox is what
      that read put there, if any, with the events that reached it pushed over it: up to the cap, the
      top maxItems of those events together with the promoted posts not pushed again, every pushed
      post before every promoted one. Only a push that broke off before its trim leaves more. The
      cold log is the last 800 of the events that reached it, promoted or not. */
  lemma TiersHoldTheFeed(run: Run, u: int64, maxItems: nat)
    requires WellFormed(run) && maxItems >= 1 && HighScores(run, u)
    ensures var hot := After(run, u, maxItems).hot;
      var promoted, pushes := Promotion(run, u, maxItems), Entries(HotEvents(run, u));
      && Promotions(run, u, maxItems) <= 1
      && (pushes == [] ==> hot == promoted)
      && (pushes != [] ==> IsTop(SetOf(pushes) + Unpushed(promoted, pushes), maxItems, Cut(hot, maxItems)))
      && (AllTrimmed(run, u) ==> hot == PushAll(promoted, pushes, maxItems))
      && forall x, y :: x in hot && y in hot && x in pushes && y !in pushes ==> Above(x, y)
    ensures After(run, u, maxItems).cold == Suffix(Candidates(ColdEvents(run, u)), MAX_COLD_ITEMS)
  {
    PromotionComesFirst(run, u, maxItems);
    HotHolds(run, u, maxItems);
    BestReplays(run, u, maxItems);
    PromotionFacts(run, u, maxItems);
    ColdIsLastEvents(run, u, maxItems);
    if AllTrimmed(run, u) {
      HotReplays(run, u, maxItems);
    }
    if HotEvents(run, u) != [] {
      EntriesFrom(HotEvents(run, u), EntryOf(HotEvents(run, u)[0]));
      PushesOverInbox(Promotion(run, u, maxItems), Entries(HotEvents(run, u)), maxItems);
    }
  }

  /** The tiers are no partition of the posts: a promoting read copies. One dormant delivery and
      one read leave the post in both tiers, with no event ever pushed. */
  lemma ReadCopiesTheColdLog(d: Delivery, u: int64, sent: nat, maxItems: nat)
    requires RowsOnTheirShard(d.tables) && Distinct(d.followers) && ReachedCold(d, u) && sent >= 1
    ensures var run := Then(Then(Start, Deliver(d)), Read(u, sent));
      && HotEvents(run, u) == []
      && After(run, u, maxItems) == Inboxes([Entry(1, Decimal(d.post))], [CandidateOf(d)])
  {
    var one := Then(Start, Deliver(d));
    var cold := [CandidateOf(d)];
    OneTierPerFollower(d.tables, d.cutoff, d.followers, u);
    AppendTimesNext([], CandidateOf(d), 0);
    assert After(Start, u, maxItems) == Inboxes([], []);
    assert HotEvents(one, u) == [];
    assert After(one, u, maxItems) == Inboxes([], cold);
    assert PromotePrefix([], cold, 1) == ZAdd(PromotePrefix([], cold, 0), PromotedEntry(cold, 0));
  }

  // ---------- an inbox that exists hides the log ----------

  /** `early` is the run up to some earlier moment of `run`. */
  predicate Continues(run: Run, early: Run) {
    run == early || (run.Then? && Continues(run.before, early))
  }

  lemma {:induction false} HotNeverEmpties(run: Run, early: Run, u: int64, maxItems: nat)
    requires maxItems >= 1 && Continues(run, early) && After(early, u, maxItems).hot != []
    ensures After(run, u, maxItems).hot != []
    ensures Promotion(run, u, maxItems) == Promotion(early, u, maxItems)
  {
    if run != early {
      HotNeverEmpties(run.before, early, u, maxItems);
      if run.event.Deliver? {
        PushKeeps(After(run.before, u, maxItems).hot, EntryOf(run.event.d), maxItems, Fault(run.event.d, u));
      }
    }
  }

  lemma ReadFromHot(t: Inboxes, limit: nat, postID: string) returns (x: Entry)
    requires t.hot != [] && postID in ReadIDs(t.hot, t.cold, limit)
    ensures x in t.hot && x.member == postID
  {
    var shown := ReadInbox(t.hot, limit);
    var i :| 0 <= i < |shown| && shown[i].member == postID;
    x := shown[i];
  }

  /** Where the entries of a hot inbox come from, once it has been filled. */
  lemma HotEntryFrom(run: Run, early: Run, u: int64, maxItems: nat, x: Entry)
    requires WellFormed(run) && WellFormed(early) && maxItems >= 1
    requires Continues(run, early) && After(early, u, maxItems).hot != [] && x in After(run, u, maxItems).hot
    ensures FromEvents(ColdEvents(early, u), x.member) || FromEvents(HotEvents(run, u), x.member)
  {
    HotNeverEmpties(run, early, u, maxItems);
    HotHolds(run, u, maxItems);
    PromotionFacts(early, u, maxItems);
    EntriesFrom(HotEvents(run, u), x);
  }

  /** A hot inbox hides the cold tier for good. From the moment u has one, u's reads return only
      posts promoted before or pushed; a post that only ever comes through the cold log after
      that moment is returned by no later read, however long u stays dormant or active. */
  lemma ColdIsHiddenForGood(run: Run, early: Run, u: int64, maxItems: nat, limit: nat, postID: string)
    requires WellFormed(run) && WellFormed(early) && maxItems >= 1
    requires Continues(run, early) && After(early, u, maxItems).hot != []
    requires !FromEvents(ColdEvents(early, u), postID) && !FromEvents(HotEvents(run, u), postID)
    ensures var t := After(run, u, maxItems); postID !in ReadIDs(t.hot, t.cold, limit)
  {
    var t := After(run, u, maxItems);
    HotNeverEmpties(run, early, u, maxItems);
    if postID in ReadIDs(t.hot, t.cold, limit) {
      var x := ReadFromHot(t, limit, postID);
      HotEntryFrom(run, early, u, maxItems, x);
    }
  }
}
