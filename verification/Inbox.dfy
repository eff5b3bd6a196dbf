/** The two inbox tiers: the trimmed hot sorted set that fanout-worker writes
    (RedisHotInboxRepository.java) and feed-aggregation-service reads (hot_inbox_repo.go), the
    bounded cold log (cold_inbox_repo.go), and the promotion from one to the other
    (feed_service.go). */
module Inbox {
  import opened Prelude
  import opened SortedSet

  datatype Candidate = Candidate(postID: string, authorID: string, source: string)

  const MAX_COLD_ITEMS := 800

  // ---------- hot tier, write side ----------

  /** pushToInbox: ZADD, then ZREMRANGEBYRANK 0 -(maxItems + 1). */
  function Push(z: ZSet, e: Entry, maxItems: nat): ZSet {
    ZRemRangeByRank(ZAdd(z, e), 0, -(maxItems + 1))
  }

  /** The trim keeps exactly the first maxItems of the listing. */
  lemma TrimKeepsBest(z: ZSet, maxItems: nat)
    ensures ZRemRangeByRank(z, 0, -(maxItems + 1)) == Cut(z, maxItems)
  {}

  /** Where a push throws: before its ZADD, between ZADD and trim, or with the last reply lost. */
  datatype PushFault = NotSent | NotTrimmed | ReplyLost

  function PushUpTo(z: ZSet, e: Entry, maxItems: nat, fault: Option<PushFault>): ZSet {
    match fault
    case Some(NotSent) => z
    case Some(NotTrimmed) => ZAdd(z, e)
    case _ => Push(z, e, maxItems)
  }

  function PushAll(z: ZSet, pushes: seq<Entry>, maxItems: nat): ZSet {
    if pushes == [] then z
    else Push(PushAll(z, pushes[..|pushes| - 1], maxItems), pushes[|pushes| - 1], maxItems)
  }

  /** The sorted set that would exist without any trim. */
  function AddAll(z: ZSet, pushes: seq<Entry>): ZSet {
    if pushes == [] then z else ZAdd(AddAll(z, pushes[..|pushes| - 1]), pushes[|pushes| - 1])
  }

  /** The entries of z that no push replaces. */
  ghost function Unpushed(z: ZSet, pushes: seq<Entry>): set<Entry> {
    set x | x in z && forall e :: e in pushes ==> e.member != x.member
  }

  lemma UnpushedNext(z: ZSet, pushes: seq<Entry>, e: Entry, x: Entry)
    ensures x in Unpushed(z, pushes + [e]) <==> x in Unpushed(z, pushes) && x.member != e.member
  {
    assert forall y :: y in pushes + [e] <==> y in pushes || y == e;
  }

  lemma {:induction false} AddAllHolds(z: ZSet, pushes: seq<Entry>)
    requires Valid(z) && OneScorePerMember(SetOf(pushes))
    ensures Valid(AddAll(z, pushes))
    ensures forall x :: x in AddAll(z, pushes) <==> x in pushes || x in Unpushed(z, pushes)
  {
    if pushes != [] {
      var r, e := pushes[..|pushes| - 1], pushes[|pushes| - 1];
      assert pushes == r + [e];
      assert SetOf(r) <= SetOf(pushes);
      AddAllHolds(z, r);
      ZAddSpec(AddAll(z, r), e);
      forall x ensures x in AddAll(z, pushes) <==> x in pushes || x in Unpushed(z, pushes) {
        UnpushedNext(z, r, e, x);
        assert x in SetOf(pushes) && e in SetOf(pushes) && x.member == e.member ==> x == e;
      }
    }
  }

  lemma AddAllHoldsHistory(z: ZSet, pushes: seq<Entry>)
    requires Valid(z) && OneScorePerMember(SetOf(pushes))
    ensures Valid(AddAll(z, pushes)) && SetOf(AddAll(z, pushes)) == SetOf(pushes) + Unpushed(z, pushes)
  {
    AddAllHolds(z, pushes);
  }

  /** Every post is pushed with one score, which is none below what the inbox began with. */
  ghost predicate Rising(z: ZSet, pushes: seq<Entry>) {
    && OneScorePerMember(SetOf(pushes))
    && forall e :: e in pushes ==> NeverFalls(z, e)
  }

  /** Trimming on every push is the same as trimming once at the end. */
  lemma {:induction false} TrimOnceIsEnough(z: ZSet, pushes: seq<Entry>, maxItems: nat)
    requires Valid(z) && Rising(z, pushes) && (pushes == [] ==> |z| <= maxItems)
    ensures PushAll(z, pushes, maxItems) == Cut(AddAll(z, pushes), maxItems)
  {
    if pushes != [] {
      var r, e := pushes[..|pushes| - 1], pushes[|pushes| - 1];
      TrimKeepsBest(ZAdd(PushAll(z, r, maxItems), e), maxItems);
      if r != [] {
        assert SetOf(pushes) == SetOf(r) + {e};
        TrimOnceIsEnough(z, r, maxItems);
        AddAllHoldsHistory(z, r);
        forall x | x in AddAll(z, r) && x.member == e.member ensures x == e || Above(e, x) {
          assert x in SetOf(AddAll(z, r));
        }
        CutAddCut(AddAll(z, r), e, maxItems);
      }
    }
  }

  /** The trimmed inbox is the top maxItems of everything pushed, together with what it began with
      and no push replaced. */
  lemma PushesOverInbox(z: ZSet, pushes: seq<Entry>, maxItems: nat)
    requires Valid(z) && Rising(z, pushes) && (pushes == [] ==> |z| <= maxItems)
    ensures IsTop(SetOf(pushes) + Unpushed(z, pushes), maxItems, PushAll(z, pushes, maxItems))
  {
    AddAllHoldsHistory(z, pushes);
    TrimOnceIsEnough(z, pushes, maxItems);
    CutIsTop(AddAll(z, pushes), maxItems);
  }

  /** Main theorem on the hot tier: whatever the order of arrival and however often an event is
      redelivered, the trimmed inbox is the top maxItems of everything ever pushed, provided a
      post always comes with the same score. */
  lemma InboxIsTopOfHistory(pushes: seq<Entry>, maxItems: nat)
    requires OneScorePerMember(SetOf(pushes))
    ensures IsTop(SetOf(pushes), maxItems, PushAll([], pushes, maxItems))
  {
    PushesOverInbox([], pushes, maxItems);
    assert SetOf(pushes) + Unpushed([], pushes) == SetOf(pushes);
  }

  /** Hence two runs that deliver the same events, in any order and multiplicity, leave the same
      inbox. */
  lemma DeliveryOrderIrrelevant(a: seq<Entry>, b: seq<Entry>, maxItems: nat)
    requires OneScorePerMember(SetOf(a)) && SetOf(a) == SetOf(b)
    ensures PushAll([], a, maxItems) == PushAll([], b, maxItems)
  {
    InboxIsTopOfHistory(a, maxItems);
    InboxIsTopOfHistory(b, maxItems);
    TopUnique(SetOf(a), maxItems, PushAll([], a, maxItems), PushAll([], b, maxItems));
  }

  /** GetInbox: ZREVRANGE 0 limit-1. */
  function ReadInbox(z: ZSet, limit: nat): seq<Entry> {
    ZRevRange(z, 0, limit - 1)
  }

  /** A read within the cap returns the best `limit` of the full history, best first. A limit of
      zero is the one that does not: the stop index -1 means the end, so it returns everything. */
  lemma ReadIsTopIff(pushes: seq<Entry>, maxItems: nat, limit: nat)
    requires OneScorePerMember(SetOf(pushes)) && limit <= maxItems
    ensures var z := PushAll([], pushes, maxItems);
      && (IsTop(SetOf(pushes), limit, ReadInbox(z, limit)) <==> limit >= 1 || z == [])
      && (limit == 0 ==> ReadInbox(z, limit) == z)
  {
    var z := PushAll([], pushes, maxItems);
    InboxIsTopOfHistory(pushes, maxItems);
    TopOfTop(SetOf(pushes), maxItems, z, limit);
  }

  // ---------- cold tier ----------

  /** The last n elements of a list. */
  function Suffix<T>(s: seq<T>, n: nat): seq<T> {
    s[|s| - Min(n, |s|)..]
  }

  function AppendCold(existing: seq<Candidate>, c: Candidate): seq<Candidate> {
    Suffix(existing + [c], MAX_COLD_ITEMS)
  }

  function AppendAll(existing: seq<Candidate>, log: seq<Candidate>): seq<Candidate> {
    if log == [] then existing
    else AppendCold(AppendAll(existing, log[..|log| - 1]), log[|log| - 1])
  }

  /** The cold list is always the last 800 entries of everything appended. */
  lemma {:induction false} ColdIsSuffixOfHistory(log: seq<Candidate>)
    ensures AppendAll([], log) == Suffix(log, MAX_COLD_ITEMS)
  {
    if log != [] {
      var r := log[..|log| - 1];
      ColdIsSuffixOfHistory(r);
      assert Suffix(r, MAX_COLD_ITEMS) + [log[|log| - 1]]
          == log[|r| - Min(MAX_COLD_ITEMS, |r|)..];
    }
  }

  lemma ColdHoldsLast800(log: seq<Candidate>)
    ensures AppendAll([], log) == if |log| <= 800 then log else log[|log| - 800..]
  {
    ColdIsSuffixOfHistory(log);
  }

  // ---------- promotion ----------

  /** The i-th ZADD of Promote: the score falls with the position in the list. */
  function PromotedEntry(cold: seq<Candidate>, i: nat): Entry
    requires i < |cold|
  {
    Entry(|cold| - i, cold[i].postID)
  }

  function PromotePrefix(z: ZSet, cold: seq<Candidate>, n: nat): ZSet
    requires n <= |cold|
  {
    if n == 0 then z else ZAdd(PromotePrefix(z, cold, n - 1), PromotedEntry(cold, n - 1))
  }

  function Promoted(z: ZSet, cold: seq<Candidate>): ZSet {
    PromotePrefix(z, cold, |cold|)
  }

  function PostIDs(cands: seq<Candidate>): seq<string> {
    seq(|cands|, i requires 0 <= i < |cands| => cands[i].postID)
  }

  function ToCandidates(z: seq<Entry>, authorID: string, source: string): seq<Candidate> {
    seq(|z|, i requires 0 <= i < |z| => Candidate(z[i].member, authorID, source))
  }

  /** What the fallback read returns: the cold list, cut to the limit. */
  function ColdRead(cold: seq<Candidate>, limit: nat): seq<Candidate> {
    if |cold| > limit then cold[..limit] else cold
  }

  /** A fresh inbox filled from distinct posts lists them in cold order. */
  lemma {:induction false} PromoteKeepsOrder(cold: seq<Candidate>, n: nat)
    requires Distinct(PostIDs(cold)) && n <= |cold|
    ensures var z := PromotePrefix([], cold, n);
      |z| == n && forall i :: 0 <= i < n ==> z[i] == PromotedEntry(cold, i)
  {
    if n > 0 {
      PromoteKeepsOrder(cold, n - 1);
      PromoteOneMore(cold, n, PromotePrefix([], cold, n - 1));
    }
  }

  lemma PromoteOneMore(cold: seq<Candidate>, n: nat, z: ZSet)
    requires Distinct(PostIDs(cold)) && 0 < n <= |cold|
    requires |z| == n - 1 && forall i :: 0 <= i < n - 1 ==> z[i] == PromotedEntry(cold, i)
    ensures ZAdd(z, PromotedEntry(cold, n - 1)) == z + [PromotedEntry(cold, n - 1)]
  {
    var e := PromotedEntry(cold, n - 1);
    forall x | x in z ensures x.member != e.member && Above(x, e) {
      var i :| 0 <= i < n - 1 && z[i] == x;
      assert PostIDs(cold)[i] != PostIDs(cold)[n - 1];
    }
    NothingRemoved(z, e.member);
    InsertLowest(z, e);
  }

  lemma {:induction false} PromoteValid(cold: seq<Candidate>, n: nat)
    requires n <= |cold|
    ensures var z := PromotePrefix([], cold, n);
      && Valid(z) && |z| <= n && (n > 0 ==> z != [])
      && forall x :: x in z ==> x.score <= |cold|
  {
    if n > 0 {
      PromoteValid(cold, n - 1);
      var z, e := PromotePrefix([], cold, n - 1), PromotedEntry(cold, n - 1);
      ZAddSpec(z, e);
      Lengths(z, e);
      Lengths(Without(z, e.member), e);
    }
  }

  /** Promotion agreement. For a user without a hot inbox, the fallback read and the next hot
      read return the same posts in the same order at every limit from 1 up, exactly when the
      cold list holds no post twice. */
  lemma PromotionAgreesIff(cold: seq<Candidate>)
    ensures (forall limit: nat :: limit >= 1 ==>
               PostIDs(ColdRead(cold, limit)) == Members(ReadInbox(Promoted([], cold), limit)))
      <==> Distinct(PostIDs(cold))
  {
    var hot := Promoted([], cold);
    if Distinct(PostIDs(cold)) {
      PromoteKeepsOrder(cold, |cold|);
    } else {
      var limit := |cold| + 1;
      PromoteValid(cold, |cold|);
      MembersDistinct(hot);
      assert ReadInbox(hot, limit) == hot && ColdRead(cold, limit) == cold;
    }
  }

  lemma {:induction false} PushAllHolds(z: ZSet, pushes: seq<Entry>, maxItems: nat)
    requires Valid(z)
    ensures Valid(PushAll(z, pushes, maxItems))
    ensures forall x :: x in PushAll(z, pushes, maxItems) ==> x in pushes || x in z
  {
    if pushes != [] {
      var r, e := pushes[..|pushes| - 1], pushes[|pushes| - 1];
      PushAllHolds(z, r, maxItems);
      var full := ZAdd(PushAll(z, r, maxItems), e);
      ZAddSpec(PushAll(z, r, maxItems), e);
      TrimKeepsBest(full, maxItems);
      ValidPart(full, maxItems);
    }
  }

  /** Posts pushed after a promotion, with any scores above the cold cap such as epoch
      milliseconds, are listed before everything promoted, however many come, whatever is trimmed
      and however far the promotion got. */
  lemma PushedAfterPromotionLeads(cold: seq<Candidate>, n: nat, pushes: seq<Entry>, maxItems: nat)
    requires n <= |cold| <= MAX_COLD_ITEMS && forall e :: e in pushes ==> e.score > MAX_COLD_ITEMS
    ensures var z := PushAll(PromotePrefix([], cold, n), pushes, maxItems);
      && Valid(z)
      && (forall x :: x in z ==> x in pushes || x in PromotePrefix([], cold, n))
      && (forall x, y :: x in z && y in z && x in pushes && y !in pushes ==> Above(x, y))
  {
    PromoteValid(cold, n);
    PushAllHolds(PromotePrefix([], cold, n), pushes, maxItems);
  }

  /** And if each post keeps its score, nothing else is lost: the inbox is the top maxItems of the
      pushed posts together with the promoted ones that were not pushed again. Until the first
      push the promotion itself is not trimmed. */
  lemma PushedOverPromotedIsTop(cold: seq<Candidate>, n: nat, pushes: seq<Entry>, maxItems: nat)
    requires n <= |cold| <= MAX_COLD_ITEMS && forall e :: e in pushes ==> e.score > MAX_COLD_ITEMS
    requires OneScorePerMember(SetOf(pushes))
    requires pushes != [] || |PromotePrefix([], cold, n)| <= maxItems
    ensures IsTop(SetOf(pushes) + Unpushed(PromotePrefix([], cold, n), pushes), maxItems,
                  PushAll(PromotePrefix([], cold, n), pushes, maxItems))
  {
    PromoteValid(cold, n);
    PushesOverInbox(PromotePrefix([], cold, n), pushes, maxItems);
  }

  /** A push, complete or not, of an entry that outranks another moves that one no higher. */
  lemma PushLowers(z: ZSet, e: Entry, maxItems: nat, fault: Option<PushFault>, j: nat) returns (i: nat)
    requires Valid(z) && j < |PushUpTo(z, e, maxItems, fault)| && Above(e, PushUpTo(z, e, maxItems, fault)[j])
    ensures i <= j && i < |z| && z[i] == PushUpTo(z, e, maxItems, fault)[j]
  {
    if fault == Some(NotSent) {
      i := j;
    } else {
      var w := ZAdd(z, e);
      TrimKeepsBest(w, maxItems);
      assert PushUpTo(z, e, maxItems, fault) == if fault == Some(NotTrimmed) then w else Cut(w, maxItems);
      assert PushUpTo(z, e, maxItems, fault)[j] == w[j];
      i := ZAddLowers(z, e, j);
    }
  }

  lemma {:induction false} PushAllLowers(z: ZSet, pushes: seq<Entry>, maxItems: nat, j: nat) returns (i: nat)
    requires Valid(z) && j < |PushAll(z, pushes, maxItems)|
    requires forall e :: e in pushes ==> Above(e, PushAll(z, pushes, maxItems)[j])
    ensures i <= j && i < |z| && z[i] == PushAll(z, pushes, maxItems)[j]
  {
    if pushes == [] {
      i := j;
    } else {
      var r, e := pushes[..|pushes| - 1], pushes[|pushes| - 1];
      PushAllHolds(z, r, maxItems);
      i := PushLowers(PushAll(z, r, maxItems), e, maxItems, None, j);
      i := PushAllLowers(z, r, maxItems, i);
    }
  }

  /** Promotion lists oldest first and pushes only go above, so a promoted post that stands at or
      past the read limit never comes into a read, whatever is pushed, unless it is pushed itself. */
  lemma BuriedByPromotion(cold: seq<Candidate>, n: nat, pushes: seq<Entry>, maxItems: nat, i: nat, limit: nat)
    requires n <= |cold| <= MAX_COLD_ITEMS && Distinct(PostIDs(cold)) && 1 <= limit <= i < |cold|
    requires forall e :: e in pushes ==> e.score > MAX_COLD_ITEMS && e.member != cold[i].postID
    ensures cold[i].postID !in Members(ReadInbox(PushAll(PromotePrefix([], cold, n), pushes, maxItems), limit))
  {
    var promoted := PromotePrefix([], cold, n);
    var z := PushAll(promoted, pushes, maxItems);
    PromoteValid(cold, n);
    PromoteKeepsOrder(cold, n);
    PushAllHolds(promoted, pushes, maxItems);
    forall j | 0 <= j < |ReadInbox(z, limit)| ensures z[j].member != cold[i].postID {
      if z[j] !in pushes {
        assert z[j] in promoted;
        var k := PushAllLowers(promoted, pushes, maxItems, j);
        assert PostIDs(cold)[k] != PostIDs(cold)[i];
      }
    }
  }

  // ---------- the stores and the read path over them ----------

  class ColdInboxRepo {
    var db: map<string, seq<Candidate>>

    constructor ()
      ensures db == map[]
    {
      db := map[];
    }

    function Of(userID: string): seq<Candidate>
      reads this
    {
      if userID in db then db[userID] else []
    }

    /** Append: read, extend, truncate from the front, write back, in one transaction that a
        storage error rolls back. */
    method Append(userID: string, candidate: Candidate, fails: bool) returns (ok: bool)
      modifies this
      ensures ok == !fails
      ensures db == if fails then old(db) else old(db)[userID := AppendCold(old(Of(userID)), candidate)]
    {
      if fails {
        return false;
      }
      var existing := if userID in db then db[userID] else [];
      existing := existing + [candidate];
      if |existing| > MAX_COLD_ITEMS {
        existing := existing[|existing| - MAX_COLD_ITEMS..];
      }
      db := db[userID := existing];
      return true;
    }

    method Get(userID: string, fails: bool) returns (r: Option<seq<Candidate>>)
      ensures r == if fails then None else Some(Of(userID))
    {
      if fails {
        return None;
      }
      return Some(if userID in db then db[userID] else []);
    }
  }

  /** How many ZADDs of a pipeline the server runs when the connection breaks after `broken`. */
  function Sent(broken: Option<nat>, total: nat): (n: nat)
    ensures broken.None? ==> n == total
    ensures broken.Some? ==> n <= broken.value && n <= total && (n == broken.value || n == total)
  {
    if broken.Some? then Min(broken.value, total) else total
  }

  function InboxIn(keys: map<string, ZSet>, userID: string): ZSet {
    if userID in keys then keys[userID] else []
  }

  class HotInboxRepo {
    var keys: map<string, ZSet>

    constructor ()
      ensures keys == map[] && Valid()
    {
      keys := map[];
    }

    /** Redis keeps no empty sorted set. */
    ghost predicate Valid()
      reads this
    {
      forall k :: k in keys ==> keys[k] != []
    }

    function Of(userID: string): ZSet
      reads this
    {
      InboxIn(keys, userID)
    }

    method Store(userID: string, z: ZSet)
      requires Valid()
      modifies this
      ensures Valid() && Of(userID) == z
      ensures forall u :: u != userID ==> Of(u) == old(Of(u))
    {
      keys := if z == [] then keys - {userID} else keys[userID := z];
    }

    /** Returns false when the call throws. */
    method PushToInbox(userID: string, e: Entry, maxItems: nat, fault: Option<PushFault>) returns (ok: bool)
      requires Valid()
      modifies this
      ensures Valid() && ok == fault.None?
      ensures Of(userID) == PushUpTo(old(Of(userID)), e, maxItems, fault)
      ensures ok ==> Of(userID) == Cut(ZAdd(old(Of(userID)), e), maxItems)
      ensures forall u :: u != userID ==> Of(u) == old(Of(u))
    {
      if fault == Some(NotSent) {
        return false;
      }
      var z := InboxIn(keys, userID);
      z := ZAdd(z, e);
      if fault == Some(NotTrimmed) {
        Store(userID, z);
        return false;
      }
      z := ZRemRangeByRank(z, 0, -(maxItems + 1));
      Store(userID, z);
      return fault.None?;
    }

    method GetInbox(userID: string, limit: nat, fails: bool) returns (r: Option<seq<Candidate>>)
      ensures r == if fails then None else Some(ToCandidates(ReadInbox(Of(userID), limit), "", "in-network"))
    {
      if fails {
        return None;
      }
      var results := ZRevRange(InboxIn(keys, userID), 0, limit - 1);
      var out: seq<Candidate> := [];
      for i := 0 to |results|
        invariant out == ToCandidates(results[..i], "", "in-network")
      {
        out := out + [Candidate(results[i].member, "", "in-network")];
      }
      assert results[..|results|] == results;
      return Some(out);
    }

    /** A pipeline is no transaction: one that breaks leaves the ZADDs the server already ran. */
    method Promote(userID: string, candidates: seq<Candidate>, broken: Option<nat>) returns (ok: bool)
      requires Valid()
      modifies this
      ensures Valid() && ok == (candidates == [] || broken.None?)
      ensures Of(userID) == PromotePrefix(old(Of(userID)), candidates, Sent(broken, |candidates|))
      ensures broken.None? ==> Of(userID) == Promoted(old(Of(userID)), candidates)
      ensures forall u :: u != userID ==> Of(u) == old(Of(u))
    {
      if |candidates| == 0 {
        return true;
      }
      var z := InboxIn(keys, userID);
      for i := 0 to Sent(broken, |candidates|)
        invariant z == PromotePrefix(old(Of(userID)), candidates, i)
      {
        z := ZAdd(z, Entry(|candidates| - i, candidates[i].postID));
      }
      Store(userID, z);
      return broken.None?;
    }
  }

  /** The store errors one in-network read may meet. */
  datatype ReadFaults = ReadFaults(lookup: bool, inbox: bool, cold: bool, promote: Option<nat>)

  /** The hot inbox after a read that found the two tiers so and got n ZADDs through. */
  function HotAfterRead(hot: ZSet, cold: seq<Candidate>, n: nat): ZSet
    requires n <= |cold|
  {
    if hot == [] then PromotePrefix([], cold, n) else hot
  }

  /** The posts a read returns when nothing fails. */
  function ReadIDs(hot: ZSet, cold: seq<Candidate>, limit: nat): seq<string> {
    if hot == [] then PostIDs(ColdRead(cold, limit)) else Members(ReadInbox(hot, limit))
  }

  /** How many promoting ZADDs reach the server in such a read. */
  function PromotedBy(faults: ReadFaults, cold: seq<Candidate>): (n: nat)
    ensures n <= |cold|
  {
    if faults.lookup || faults.cold then 0 else Sent(faults.promote, |cold|)
  }

  /** inNetworkCandidates: an existing hot key hides the cold tier; a miss reads the cold list and
      promotes it, and the next read is a hit. An error leaves the read empty, except that a
      failed promotion is only logged. */
  method InNetworkCandidates(hot: HotInboxRepo, cold: ColdInboxRepo, userID: string, limit: nat, faults: ReadFaults)
    returns (out: seq<Candidate>)
    requires hot.Valid()
    modifies hot
    ensures hot.Valid()
    ensures hot.Of(userID) == HotAfterRead(old(hot.Of(userID)), cold.Of(userID), PromotedBy(faults, cold.Of(userID)))
    ensures !faults.lookup && !faults.cold && faults.promote.None? ==>
      hot.Of(userID) == if userID in old(hot.keys) then old(hot.Of(userID)) else Promoted([], cold.Of(userID))
    ensures faults.lookup || faults.cold ==> hot.Of(userID) == old(hot.Of(userID))
    ensures var failed := faults.lookup || (if userID in old(hot.keys) then faults.inbox else faults.cold);
      PostIDs(out) == if failed then [] else ReadIDs(old(hot.Of(userID)), cold.Of(userID), limit)
    ensures userID in old(hot.keys) ==> forall c :: c in out ==> c == Candidate(c.postID, "", "in-network")
    ensures userID !in old(hot.keys) && out != [] ==> out == ColdRead(cold.Of(userID), limit)
    ensures forall u :: u != userID ==> hot.Of(u) == old(hot.Of(u))
  {
    if faults.lookup {
      return [];
    }
    if userID in hot.keys {
      var cands := hot.GetInbox(userID, limit, faults.inbox);
      if cands.None? {
        return [];
      }
      out := cands.value;
      assert PostIDs(out) == Members(ReadInbox(hot.Of(userID), limit));
      return;
    }
    var list := cold.Get(userID, faults.cold);
    if list.None? || |list.value| == 0 {
      return [];
    }
    var logged := hot.Promote(userID, list.value, faults.promote);
    out := list.value;
    if |out| > limit {
      out := out[..limit];
    }
  }
}
