/** Which posts a user's reads ever return when the posts reach the user only through the cold log. */
module Returns {
  import opened Prelude
  import opened SortedSet
  import opened Inbox
  import opened Fanout
  import opened Tiers

  // ---------- what reads return ----------

  predicate ReadOf(e: Event, u: int64) {
    e.Read? && e.user == u
  }

  /** Some read of u in the run returned the post. */
  ghost predicate Returned(run: Run, u: int64, maxItems: nat, limit: nat, postID: string) {
    run.Then? &&
      var t := After(run.before, u, maxItems);
      (ReadOf(run.event, u) && postID in ReadIDs(t.hot, t.cold, limit))
        || Returned(run.before, u, maxItems, limit, postID)
  }

  /** Some read of u found no hot inbox, and the post among the first `limit` of the cold log. */
  ghost predicate FellBackOn(run: Run, u: int64, maxItems: nat, limit: nat, postID: string) {
    run.Then? &&
      var t := After(run.before, u, maxItems);
      (ReadOf(run.event, u) && t.hot == [] && postID in PostIDs(ColdRead(t.cold, limit)))
        || FellBackOn(run.before, u, maxItems, limit, postID)
  }

  /** Some read of u found no hot inbox, and the post among the first `limit` of the cold log or of
      what it promoted. */
  ghost predicate Offered(run: Run, u: int64, maxItems: nat, limit: nat, postID: string) {
    run.Then? &&
      var t := After(run.before, u, maxItems);
      (ReadOf(run.event, u) && t.hot == []
       && (postID in PostIDs(ColdRead(t.cold, limit))
           || postID in Members(ReadInbox(After(run, u, maxItems).hot, limit))))
        || Offered(run.before, u, maxItems, limit, postID)
  }

  /** The post reaches u through the cold log alone, and what is pushed is scored above any
      promotion, as epoch milliseconds are. */
  ghost predicate OnlyCold(run: Run, u: int64, postID: string) {
    run.Then? ==>
      && OnlyCold(run.before, u, postID)
      && (run.event.Deliver? && ReachedHot(run.event.d, u) ==>
            Decimal(run.event.d.post) != postID && run.event.d.createdAt > MAX_COLD_ITEMS)
  }

  // ---------- a post that was not offered stays below the limit ----------

  /** Wherever the post stands in a hot inbox, it has a promotion's score, and it stands below the
      limit unless a promoting read offered it. */
  ghost predicate Buried(hot: ZSet, limit: nat, postID: string, offered: bool) {
    forall j :: 0 <= j < |hot| && hot[j].member == postID ==> hot[j].score <= MAX_COLD_ITEMS && (offered || j >= limit)
  }

  lemma PushKeepsBuried(hot: ZSet, e: Entry, maxItems: nat, fault: Option<PushFault>, limit: nat, postID: string,
                        offered: bool)
    requires Valid(hot) && Buried(hot, limit, postID, offered)
    requires fault != Some(NotSent) ==> e.member != postID && e.score > MAX_COLD_ITEMS
    ensures Buried(PushUpTo(hot, e, maxItems, fault), limit, postID, offered)
  {
    var after := PushUpTo(hot, e, maxItems, fault);
    if fault != Some(NotSent) {
      PushUpToHolds(hot, e, maxItems, fault);
      forall j | 0 <= j < |after| && after[j].member == postID
        ensures after[j].score <= MAX_COLD_ITEMS && (offered || j >= limit)
      {
        assert after[j] in hot;
        var i := PushLowers(hot, e, maxItems, fault, j);
      }
    }
  }

  lemma PromotionBuries(cold: seq<Candidate>, n: nat, limit: nat, postID: string, offered: bool)
    requires n <= |cold| <= MAX_COLD_ITEMS && limit >= 1
    requires postID in Members(ReadInbox(PromotePrefix([], cold, n), limit)) ==> offered
    ensures Buried(PromotePrefix([], cold, n), limit, postID, offered)
  {
    var hot := PromotePrefix([], cold, n);
    PromoteValid(cold, n);
    forall j | 0 <= j < |hot| && hot[j].member == postID
      ensures hot[j].score <= MAX_COLD_ITEMS && (offered || j >= limit)
    {
      assert hot[j] in hot;
      if j < limit {
        assert Members(ReadInbox(hot, limit))[j] == postID;
      }
    }
  }

  lemma {:induction false} StaysBuried(run: Run, u: int64, maxItems: nat, limit: nat, postID: string)
    requires WellFormed(run) && OnlyCold(run, u, postID) && maxItems >= 1 && limit >= 1
    ensures Buried(After(run, u, maxItems).hot, limit, postID, Offered(run, u, maxItems, limit, postID))
  {
    match run
    case Start =>
    case Then(r, Deliver(d)) =>
      StaysBuried(r, u, maxItems, limit, postID);
      HotHolds(r, u, maxItems);
      if FoundActive(d, u) {
        PushKeepsBuried(After(r, u, maxItems).hot, EntryOf(d), maxItems, Fault(d, u), limit, postID,
                        Offered(r, u, maxItems, limit, postID));
      }
    case Then(r, Read(v, sent)) =>
      StaysBuried(r, u, maxItems, limit, postID);
      var t := After(r, u, maxItems);
      if v == u && t.hot == [] {
        ColdIsLastEvents(r, u, maxItems);
        PromotionBuries(t.cold, Sent(Some(sent), |t.cold|), limit, postID, Offered(run, u, maxItems, limit, postID));
      }
  }

  /** In every run, a post that comes through the cold log alone is returned only if some read found
      no hot inbox and the post among the first `limit` of the log or of what it promoted. Fan-out,
      failed pushes and later reads never bring it back up. */
  lemma {:induction false} ReturnedOnlyIfOffered(run: Run, u: int64, maxItems: nat, limit: nat, postID: string)
    requires WellFormed(run) && OnlyCold(run, u, postID) && maxItems >= 1 && limit >= 1
    ensures Returned(run, u, maxItems, limit, postID) ==> Offered(run, u, maxItems, limit, postID)
  {
    if run.Then? {
      ReturnedOnlyIfOffered(run.before, u, maxItems, limit, postID);
      StaysBuried(run.before, u, maxItems, limit, postID);
    }
  }

  // ---------- exactly which posts are returned ----------

  /** No post reached the log twice. */
  ghost predicate NoRepeats(run: Run, u: int64) {
    Distinct(PostIDs(Candidates(ColdEvents(run, u))))
  }

  lemma CandidatesSnoc(events: seq<Delivery>, d: Delivery)
    ensures Candidates(events + [d]) == Candidates(events) + [CandidateOf(d)]
  {
    assert (events + [d])[..|events|] == events;
  }

  lemma NoRepeatsBefore(run: Run, u: int64)
    requires run.Then? && NoRepeats(run, u)
    ensures NoRepeats(run.before, u)
  {
    var r := ColdEvents(run.before, u);
    if run.event.Deliver? && ReachedCold(run.event.d, u) {
      CandidatesSnoc(r, run.event.d);
      var some, all := PostIDs(Candidates(r)), PostIDs(Candidates(ColdEvents(run, u)));
      assert forall i :: 0 <= i < |some| ==> some[i] == all[i];
    } else {
      assert ColdEvents(run, u) == r;
    }
  }

  lemma LogHasNoRepeats(run: Run, u: int64, maxItems: nat)
    requires WellFormed(run) && NoRepeats(run, u)
    ensures Distinct(PostIDs(After(run, u, maxItems).cold))
  {
    ColdIsLastEvents(run, u, maxItems);
    var all, cold := Candidates(ColdEvents(run, u)), After(run, u, maxItems).cold;
    var cut := |all| - |cold|;
    assert forall i :: 0 <= i < |cold| ==> PostIDs(cold)[i] == PostIDs(all)[cut + i];
  }

  /** Of distinct posts, a promotion lists first what the fallback returned. */
  lemma PromotedTopIsColdTop(cold: seq<Candidate>, n: nat, limit: nat, postID: string)
    requires n <= |cold| && Distinct(PostIDs(cold)) && limit >= 1
    ensures postID in Members(ReadInbox(PromotePrefix([], cold, n), limit)) ==> postID in PostIDs(ColdRead(cold, limit))
  {
    PromoteKeepsOrder(cold, n);
    var shown := ReadInbox(PromotePrefix([], cold, n), limit);
    forall j | 0 <= j < |shown| ensures shown[j].member in PostIDs(ColdRead(cold, limit)) {
      assert PostIDs(ColdRead(cold, limit))[j] == shown[j].member;
    }
  }

  lemma {:induction false} OfferedByFallback(run: Run, u: int64, maxItems: nat, limit: nat, postID: string)
    requires WellFormed(run) && NoRepeats(run, u) && limit >= 1
    ensures Offered(run, u, maxItems, limit, postID) ==> FellBackOn(run, u, maxItems, limit, postID)
  {
    if run.Then? {
      NoRepeatsBefore(run, u);
      OfferedByFallback(run.before, u, maxItems, limit, postID);
      LogHasNoRepeats(run.before, u, maxItems);
      var t := After(run.before, u, maxItems);
      if ReadOf(run.event, u) && t.hot == [] {
        PromotedTopIsColdTop(t.cold, Sent(Some(run.event.sent), |t.cold|), limit, postID);
      }
    }
  }

  lemma {:induction false} FallbackReturns(run: Run, u: int64, maxItems: nat, limit: nat, postID: string)
    ensures FellBackOn(run, u, maxItems, limit, postID) ==> Returned(run, u, maxItems, limit, postID)
  {
    if run.Then? { FallbackReturns(run.before, u, maxItems, limit, postID); }
  }

  /** Exactly which posts of the cold log a user gets to see. When no post reached the log twice, a
      post that comes through the log alone is returned by some read if and only if some read finds
      no hot inbox while the post is among the first `limit` of the log. The log is oldest first, so
      the posts lost are the newest ones of an absence, and all of every later absence. */
  lemma ReturnedIffFellBack(run: Run, u: int64, maxItems: nat, limit: nat, postID: string)
    requires WellFormed(run) && OnlyCold(run, u, postID) && NoRepeats(run, u) && maxItems >= 1 && limit >= 1
    ensures Returned(run, u, maxItems, limit, postID) <==> FellBackOn(run, u, maxItems, limit, postID)
  {
    ReturnedOnlyIfOffered(run, u, maxItems, limit, postID);
    OfferedByFallback(run, u, maxItems, limit, postID);
    FallbackReturns(run, u, maxItems, limit, postID);
  }

  lemma {:induction false} NoFallbackLater(run: Run, early: Run, u: int64, maxItems: nat, limit: nat, postID: string)
    requires maxItems >= 1 && Continues(run, early) && After(early, u, maxItems).hot != []
    ensures FellBackOn(run, u, maxItems, limit, postID) ==> FellBackOn(early, u, maxItems, limit, postID)
  {
    if run != early {
      NoFallbackLater(run.before, early, u, maxItems, limit, postID);
      HotNeverEmpties(run.before, early, u, maxItems);
    }
  }

  /** So a post that a promoting read passes over, at or past the limit, is lost to u for good. */
  lemma PassedOverForGood(run: Run, early: Run, e: Event, u: int64, maxItems: nat, limit: nat, postID: string)
    requires WellFormed(run) && OnlyCold(run, u, postID) && NoRepeats(run, u) && maxItems >= 1 && limit >= 1
    requires Continues(run, Then(early, e)) && Promotes(After(early, u, maxItems), e, u)
    requires postID !in PostIDs(ColdRead(After(early, u, maxItems).cold, limit))
    requires !FellBackOn(early, u, maxItems, limit, postID)
    ensures !Returned(run, u, maxItems, limit, postID)
  {
    PromotingFills(After(early, u, maxItems), e, u, maxItems);
    NoFallbackLater(run, Then(early, e), u, maxItems, limit, postID);
    ReturnedIffFellBack(run, u, maxItems, limit, postID);
  }

  // ---------- the read right after a delivery ----------

  lemma NewestLast(run: Run, d: Delivery, u: int64, maxItems: nat)
    requires WellFormed(Then(run, Deliver(d))) && ReachedCold(d, u)
    ensures After(Then(run, Deliver(d)), u, maxItems)
         == Inboxes(After(run, u, maxItems).hot, AppendCold(After(run, u, maxItems).cold, CandidateOf(d)))
  {
    OneTierPerFollower(d.tables, d.cutoff, d.followers, u);
    AppendTimesNext(After(run, u, maxItems).cold, CandidateOf(d), 0);
  }

  lemma LogEntryFrom(run: Run, u: int64, maxItems: nat, i: nat)
    requires WellFormed(run) && i < |After(run, u, maxItems).cold|
    ensures FromEvents(ColdEvents(run, u), After(run, u, maxItems).cold[i].postID)
  {
    ColdIsLastEvents(run, u, maxItems);
    var c := After(run, u, maxItems).cold[i];
    assert c in Candidates(ColdEvents(run, u));
    CandidatesFrom(ColdEvents(run, u), c);
  }

  /** A new post delivered while u is dormant is in the read that follows at once if and only if u
      has no hot inbox and the log, the new post included, is no longer than the limit. */
  lemma NewestReturnedIff(run: Run, d: Delivery, u: int64, maxItems: nat, limit: nat)
    requires WellFormed(Then(run, Deliver(d))) && ReachedCold(d, u) && maxItems >= 1
    requires !FromEvents(ColdEvents(run, u), Decimal(d.post)) && !FromEvents(HotEvents(run, u), Decimal(d.post))
    ensures var t := After(Then(run, Deliver(d)), u, maxItems);
      Decimal(d.post) in ReadIDs(t.hot, t.cold, limit) <==> After(run, u, maxItems).hot == [] && |t.cold| <= limit
  {
    var t, postID := After(Then(run, Deliver(d)), u, maxItems), Decimal(d.post);
    NewestLast(run, d, u, maxItems);
    if t.hot == [] {
      var n := |t.cold| - 1;
      assert t.cold[n] == CandidateOf(d);
      forall i | 0 <= i < n ensures t.cold[i].postID != postID {
        var before := After(run, u, maxItems).cold;
        assert t.cold[i] == before[i + (|before| - n)];
        LogEntryFrom(run, u, maxItems, i + (|before| - n));
      }
      assert |t.cold| <= limit ==> PostIDs(ColdRead(t.cold, limit))[n] == postID;
    } else if postID in ReadIDs(t.hot, t.cold, limit) {
      var x := ReadFromHot(t, limit, postID);
      HotEntryFrom(run, run, u, maxItems, x);
    }
  }

  // ---------- inputs ----------

  ghost predicate DormantDelivery(d: Delivery, u: int64) {
    RowsOnTheirShard(d.tables) && Distinct(d.followers) && ReachedCold(d, u)
  }

  /** Such a delivery: u follows, and has no row that says otherwise. */
  lemma SomeDormantDelivery(post: int64, u: int64)
    ensures DormantDelivery(Delivery(post, 7, 0, [u], map[], 0, map[], {}), u)
  {}

  lemma OneInLog(d: Delivery, u: int64, maxItems: nat)
    requires DormantDelivery(d, u)
    ensures var run := Then(Start, Deliver(d));
      && WellFormed(run) && HotEvents(run, u) == [] && ColdEvents(run, u) == [d]
      && After(run, u, maxItems) == Inboxes([], [CandidateOf(d)])
  {
    assert After(Start, u, maxItems) == Inboxes([], []);
    assert WellFormed(Start) && HotEvents(Start, u) == [] && ColdEvents(Start, u) == [];
    NewestLast(Start, d, u, maxItems);
  }

  lemma FromOne(d: Delivery, postID: string)
    ensures FromEvents([d], postID) <==> Decimal(d.post) == postID
  {
    assert [d][0] == d;
  }

  /** The second absence: a post is delivered, read, and another delivered. The second stands in the
      log and no read limit brings it out. */
  lemma SecondAbsenceIsLost(a: Delivery, b: Delivery, u: int64, sent: nat, maxItems: nat, limit: nat)
    requires DormantDelivery(a, u) && DormantDelivery(b, u) && a.post != b.post && sent >= 1 && maxItems >= 1
    ensures var t := After(Then(Then(Then(Start, Deliver(a)), Read(u, sent)), Deliver(b)), u, maxItems);
      t.cold == [CandidateOf(a), CandidateOf(b)] && CandidateOf(b).postID !in ReadIDs(t.hot, t.cold, limit)
  {
    var r := Then(Then(Start, Deliver(a)), Read(u, sent));
    OneInLog(a, u, maxItems);
    ReadCopiesTheColdLog(a, u, sent, maxItems);
    assert ColdEvents(r, u) == ColdEvents(Then(Start, Deliver(a)), u);
    FromOne(a, Decimal(b.post));
    SameKeyIff(a.post, b.post);
    NewestLast(r, b, u, maxItems);
    NewestReturnedIff(r, b, u, maxItems, limit);
  }

  lemma TwoInLog(a: Delivery, b: Delivery, u: int64, maxItems: nat)
    requires DormantDelivery(a, u) && DormantDelivery(b, u)
    ensures After(Then(Then(Start, Deliver(a)), Deliver(b)), u, maxItems)
         == Inboxes([], [CandidateOf(a), CandidateOf(b)])
  {
    OneInLog(a, u, maxItems);
    NewestLast(Then(Start, Deliver(a)), b, u, maxItems);
  }

  lemma DeliveriesReadNothing(a: Delivery, b: Delivery, u: int64, maxItems: nat, limit: nat, postID: string)
    ensures !FellBackOn(Then(Then(Start, Deliver(a)), Deliver(b)), u, maxItems, limit, postID)
  {
    assert !FellBackOn(Then(Start, Deliver(a)), u, maxItems, limit, postID);
  }

  lemma OldestRead(a: Candidate, b: Candidate)
    ensures PostIDs(ColdRead([a, b], 1)) == [a.postID]
  {}

  /** The long absence: two posts are delivered and the limit is one. The read returns the older one
      and promotes, and whatever follows short of pushing the newer one, it is never returned. */
  lemma NewestOfAbsenceIsLost(run: Run, a: Delivery, b: Delivery, u: int64, sent: nat, maxItems: nat)
    requires DormantDelivery(a, u) && DormantDelivery(b, u) && a.post != b.post && sent >= 1 && maxItems >= 1
    requires Continues(run, Then(Then(Then(Start, Deliver(a)), Deliver(b)), Read(u, sent)))
    requires WellFormed(run) && OnlyCold(run, u, Decimal(b.post)) && NoRepeats(run, u)
    ensures var t := After(Then(Then(Start, Deliver(a)), Deliver(b)), u, maxItems);
      ReadIDs(t.hot, t.cold, 1) == [Decimal(a.post)] && t.cold == [CandidateOf(a), CandidateOf(b)]
    ensures !Returned(run, u, maxItems, 1, Decimal(b.post))
  {
    TwoInLog(a, b, u, maxItems);
    SameKeyIff(a.post, b.post);
    OldestRead(CandidateOf(a), CandidateOf(b));
    DeliveriesReadNothing(a, b, u, maxItems, 1, Decimal(b.post));
    PassedOverForGood(run, Then(Then(Start, Deliver(a)), Deliver(b)), Read(u, sent), u, maxItems, 1, Decimal(b.post));
  }

  lemma RepeatInLog(a: Delivery, b: Delivery, u: int64, maxItems: nat)
    requires DormantDelivery(a, u) && DormantDelivery(b, u)
    ensures After(Then(Then(Then(Start, Deliver(a)), Deliver(a)), Deliver(b)), u, maxItems)
         == Inboxes([], [CandidateOf(a), CandidateOf(a), CandidateOf(b)])
  {
    OneInLog(a, u, maxItems);
    TwoInLog(a, a, u, maxItems);
    NewestLast(Then(Then(Start, Deliver(a)), Deliver(a)), b, u, maxItems);
  }

  lemma RepeatPromoted(a: string, b: string, cold: seq<Candidate>)
    requires a != b && PostIDs(cold) == [a, a, b]
    ensures PromotePrefix([], cold, 3) == [Entry(2, a), Entry(1, b)]
  {
    assert PostIDs(cold)[0] == a && PostIDs(cold)[1] == a && PostIDs(cold)[2] == b;
    assert PromotePrefix([], cold, 1) == ZAdd([], Entry(3, a)) == [Entry(3, a)];
    assert Without([Entry(3, a)], a) == [];
    assert PromotePrefix([], cold, 2) == ZAdd([Entry(3, a)], Entry(2, a)) == [Entry(2, a)];
    assert PromotePrefix([], cold, 3) == ZAdd([Entry(2, a)], Entry(1, b));
    NothingRemoved([Entry(2, a)], b);
    InsertLowest([Entry(2, a)], Entry(1, b));
  }

  lemma RepeatRead(a: string, b: string, cold: seq<Candidate>)
    requires a != b && PostIDs(cold) == [a, a, b]
    ensures b !in ReadIDs([], cold, 2) && b in ReadIDs(PromotePrefix([], cold, 3), cold, 2)
  {
    RepeatPromoted(a, b, cold);
    assert PostIDs(ColdRead(cold, 2)) == PostIDs(cold)[..2];
    var hot := [Entry(2, a), Entry(1, b)];
    assert ReadInbox(hot, 2) == hot && Members(hot)[1] == b;
  }

  /** A redelivered event makes room: a post stands third in the log behind one that is in it twice.
      The fallback at limit two passes it over, but the promotion merges the two, and the next read
      returns it. */
  lemma RepeatRaisesPost(a: Delivery, b: Delivery, u: int64, maxItems: nat)
    requires DormantDelivery(a, u) && DormantDelivery(b, u) && a.post != b.post
    ensures var run := Then(Then(Then(Start, Deliver(a)), Deliver(a)), Deliver(b));
      var t, next := After(run, u, maxItems), After(Then(run, Read(u, 3)), u, maxItems);
      && Decimal(b.post) !in ReadIDs(t.hot, t.cold, 2)
      && Decimal(b.post) in ReadIDs(next.hot, next.cold, 2)
  {
    var cold := [CandidateOf(a), CandidateOf(a), CandidateOf(b)];
    SameKeyIff(a.post, b.post);
    RepeatInLog(a, b, u, maxItems);
    assert PostIDs(cold) == [Decimal(a.post), Decimal(a.post), Decimal(b.post)];
    RepeatRead(Decimal(a.post), Decimal(b.post), cold);
  }
}
