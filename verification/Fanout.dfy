/** FanoutService.handle: one post goes to the celebrity outbox, or to exactly one tier of every
    follower, decided by a sharded activity query (PostgresActivityRepository.filterActive). */
module Fanout {
  import opened Prelude
  import opened Snowflake
  import opened SortedSet
  import opened Inbox
  import Users

  /** Rows of the users table sit on the shard named in their ID (kept by every sign-up run). */
  ghost predicate RowsOnTheirShard(tables: Users.Tables) {
    forall s, id :: s in tables && id in tables[s] ==> ExtractShardID(id) == s
  }

  /** The activity query as one unsharded database would answer it. */
  ghost predicate Active(tables: Users.Tables, cutoff: int, id: int64) {
    exists s :: s in tables && id in tables[s] && tables[s][id].lastActiveAt >= cutoff
  }

  /** computeIfAbsent(shard).add(id), IDs outside the topology dropped. */
  function BucketOf(ids: seq<int64>, s: int): seq<int64> {
    if ids == [] then []
    else
      var rest := BucketOf(ids[..|ids| - 1], s);
      if ExtractShardID(ids[|ids| - 1]) == s then rest + [ids[|ids| - 1]] else rest
  }

  lemma {:induction false} BucketOfHolds(ids: seq<int64>, s: int, id: int64)
    ensures id in BucketOf(ids, s) <==> id in ids && ExtractShardID(id) == s
  {
    if ids != [] { BucketOfHolds(ids[..|ids| - 1], s, id); }
  }

  /** One failed shard query fails the whole check, before anything is written. */
  predicate CheckFails(tables: Users.Tables, ids: seq<int64>, down: set<int>) {
    exists i :: 0 <= i < |ids| && ExtractShardID(ids[i]) in tables && ExtractShardID(ids[i]) in down
  }

  method GroupByShard(tables: Users.Tables, ids: seq<int64>) returns (byShard: map<int, seq<int64>>)
    ensures byShard.Keys <= tables.Keys
    ensures forall s :: s in byShard ==> byShard[s] == BucketOf(ids, s) && byShard[s] != []
    ensures forall id :: id in ids && ExtractShardID(id) in tables ==> ExtractShardID(id) in byShard
  {
    byShard := map[];
    for i := 0 to |ids|
      invariant byShard.Keys <= tables.Keys
      invariant forall s :: s in byShard ==> byShard[s] == BucketOf(ids[..i], s) && byShard[s] != []
      invariant forall s :: s in tables && s !in byShard ==> BucketOf(ids[..i], s) == []
    {
      assert ids[..i + 1][..i] == ids[..i];
      var s := ExtractShardID(ids[i]);
      if s in tables {
        byShard := byShard[s := (if s in byShard then byShard[s] else []) + [ids[i]]];
      }
    }
    assert ids[..|ids|] == ids;
    forall id | id in ids && ExtractShardID(id) in tables ensures ExtractShardID(id) in byShard {
      BucketOfHolds(ids, ExtractShardID(id), id);
    }
  }

  method FilterActive(tables: Users.Tables, ids: seq<int64>, cutoff: int, down: set<int>)
    returns (r: Option<seq<int64>>)
    requires RowsOnTheirShard(tables)
    ensures r.None? <==> CheckFails(tables, ids, down)
    ensures r.None? <==> exists id :: id in ids && ExtractShardID(id) in tables && ExtractShardID(id) in down
    ensures r.Some? ==> Distinct(r.value) && forall id :: id in r.value <==> id in ids && Active(tables, cutoff, id)
  {
    var byShard := GroupByShard(tables, ids);
    ghost var asked := byShard.Keys;
    var pending := byShard.Keys;
    var active: seq<int64> := [];
    while pending != {}
      invariant pending <= asked
      invariant forall s :: s in asked - pending ==> s !in down
      invariant Distinct(active)
      invariant forall id :: id in active <==>
        id in ids && ExtractShardID(id) in asked - pending && Active(tables, cutoff, id)
    {
      ghost var some := Inhabitant(pending);
      var shard :| shard in pending;
      if shard in down {
        BucketOfHolds(ids, shard, byShard[shard][0]);
        assert byShard[shard][0] in BucketOf(ids, shard);
        return None;
      }
      var reply := QueryActive(tables[shard], byShard[shard], cutoff);
      forall id ensures id in reply <==> id in ids && ExtractShardID(id) == shard && Active(tables, cutoff, id) {
        BucketOfHolds(ids, shard, id);
      }
      DistinctConcat(active, reply);
      pending := pending - {shard};
      active := active + reply;
    }
    return Some(active);
  }

  /** SELECT user_id ... WHERE user_id IN (...) AND last_active_at >= cutoff: a row comes once. */
  method QueryActive(table: map<int64, Users.User>, ids: seq<int64>, cutoff: int) returns (out: seq<int64>)
    ensures Distinct(out)
    ensures forall id :: id in out <==> id in ids && id in table && table[id].lastActiveAt >= cutoff
  {
    out := [];
    for i := 0 to |ids|
      invariant Distinct(out)
      invariant forall id :: id in out <==> id in ids[..i] && id in table && table[id].lastActiveAt >= cutoff
    {
      if ids[i] in table && table[ids[i]].lastActiveAt >= cutoff && ids[i] !in out {
        out := out + [ids[i]];
      }
    }
    assert ids[..|ids|] == ids;
  }

  /** List.removeAll. */
  function RemoveAll(list: seq<int64>, gone: seq<int64>): seq<int64> {
    if list == [] then []
    else
      var rest := RemoveAll(list[..|list| - 1], gone);
      if list[|list| - 1] in gone then rest else rest + [list[|list| - 1]]
  }

  lemma {:induction false} RemoveAllCounts(list: seq<int64>, gone: seq<int64>, id: int64)
    ensures Occurrences(RemoveAll(list, gone), id) == if id in gone then 0 else Occurrences(list, id)
  {
    if list != [] {
      RemoveAllCounts(list[..|list| - 1], gone, id);
      assert list == list[..|list| - 1] + [list[|list| - 1]];
    }
  }

  function Occurrences(list: seq<int64>, id: int64): nat {
    multiset(list)[id]
  }

  /** How many appends reach u's log when those of `fails` are lost. */
  function AppendsTo(dormant: seq<int64>, fails: set<int64>, u: int64): nat {
    if u in fails then 0 else Occurrences(dormant, u)
  }

  /** How often handle pushes to u's hot inbox, and how often it appends to u's cold log. */
  ghost function Pushes(tables: Users.Tables, cutoff: int, followers: seq<int64>, u: int64): nat {
    if u in followers && Active(tables, cutoff, u) then 1 else 0
  }

  ghost function Appends(tables: Users.Tables, cutoff: int, followers: seq<int64>, u: int64): nat {
    if Active(tables, cutoff, u) then 0 else Occurrences(followers, u)
  }

  /** A hot inbox after handle: pushed to or untouched. */
  function HotAfter(z: ZSet, pushed: bool, e: Entry, maxItems: nat): ZSet {
    if pushed then Push(z, e, maxItems) else z
  }

  /** A cold log after n appends of one candidate. */
  function AppendTimes(cold: seq<Candidate>, c: Candidate, n: nat): seq<Candidate> {
    if n == 0 then cold else AppendCold(AppendTimes(cold, c, n - 1), c)
  }

  /** What may fail inside handle: the outbox push, pushes to some followers, cold appends for some. */
  datatype Faults = Faults(outbox: bool, pushes: map<int64, PushFault>, appends: set<int64>)

  function FaultOf(faults: Faults, u: int64): Option<PushFault> {
    if u in faults.pushes then Some(faults.pushes[u]) else None
  }

  /** Some push of this fan-out throws. */
  ghost predicate PushThrows(tables: Users.Tables, cutoff: int, followers: seq<int64>, faults: Faults) {
    exists u :: u in faults.pushes && Pushes(tables, cutoff, followers, u) == 1
  }

  function PushedIf(z: ZSet, pushed: bool, e: Entry, maxItems: nat, fault: Option<PushFault>): ZSet {
    if pushed then PushUpTo(z, e, maxItems, fault) else z
  }

  /** Exactly these users were pushed to, once each. */
  ghost predicate PushedTo(before: map<string, ZSet>, after: map<string, ZSet>, users: seq<int64>,
                           e: Entry, maxItems: nat)
  {
    forall u: int64 ::
      InboxIn(after, Decimal(u)) == HotAfter(InboxIn(before, Decimal(u)), u in users, e, maxItems)
  }

  /** Push number i either completes the first i + 1 or is where the loop breaks. */
  lemma PushedOneMore(before: map<string, ZSet>, mid: map<string, ZSet>, after: map<string, ZSet>,
                      active: seq<int64>, i: nat, e: Entry, maxItems: nat, faults: Faults)
    requires Distinct(active) && i < |active| && (forall u :: u in active[..i] ==> u !in faults.pushes)
    requires PushedTo(before, mid, active[..i], e, maxItems)
    requires forall v: int64 ::
      InboxIn(after, Decimal(v)) == PushedIf(InboxIn(mid, Decimal(v)), v == active[i], e, maxItems, FaultOf(faults, v))
    ensures active[i] !in faults.pushes ==> PushedTo(before, after, active[..i + 1], e, maxItems)
    ensures forall u: int64 ::
      Broken(InboxIn(before, Decimal(u)), InboxIn(after, Decimal(u)), u, active[i], u in active, e, maxItems, faults)
  {
    assert active[i] !in active[..i];
    assert forall u :: u in active[..i + 1] <==> u in active[..i] || u == active[i];
    assert forall u :: u in active[..i] ==> u in active;
  }

  class FanoutService {
    const hot: HotInboxRepo
    const cold: ColdInboxRepo
    var outbox: map<int64, ZSet>
    const maxItems: nat

    constructor (hot: HotInboxRepo, cold: ColdInboxRepo, maxItems: nat)
      ensures this.hot == hot && this.cold == cold && this.maxItems == maxItems && outbox == map[]
    {
      this.hot, this.cold, this.maxItems := hot, cold, maxItems;
      outbox := map[];
    }

    /** handle: `celebrity` and `followers` are what the graph answers, `cutoff` is now minus the
        activity window. Returns false when it throws: the activity check, or a push, which leaves
        the pushes after it and all cold appends undone. A failed cold append is only logged. */
    method Handle(author: int64, post: int64, createdAt: int, celebrity: bool, followers: seq<int64>,
                  tables: Users.Tables, cutoff: int, down: set<int>, faults: Faults) returns (ok: bool)
      requires RowsOnTheirShard(tables) && hot.Valid()
      modifies this, hot, cold
      ensures hot.Valid()
      ensures ok <==> if celebrity then !faults.outbox
        else !CheckFails(tables, followers, down) && !PushThrows(tables, cutoff, followers, faults)
      ensures outbox == if celebrity && ok
        then old(outbox)[author := ZAdd(if author in old(outbox) then old(outbox)[author] else [],
                                        Entry(createdAt, Decimal(post)))]
        else old(outbox)
      ensures celebrity || CheckFails(tables, followers, down) ==> hot.keys == old(hot.keys)
      ensures celebrity || !ok ==> cold.db == old(cold.db)
      ensures !celebrity && ok ==>
        forall u: int64 :: hot.Of(Decimal(u)) == HotAfter(old(hot.Of(Decimal(u))),
          Pushes(tables, cutoff, followers, u) == 1, Entry(createdAt, Decimal(post)), maxItems)
      ensures !celebrity && ok ==>
        forall u: int64 :: cold.Of(Decimal(u)) == AppendTimes(old(cold.Of(Decimal(u))),
          Candidate(Decimal(post), Decimal(author), "in-network"),
          if u in faults.appends then 0 else Appends(tables, cutoff, followers, u))
      ensures !celebrity && !ok && !CheckFails(tables, followers, down) ==>
        exists broken: int64 :: broken in faults.pushes && Pushes(tables, cutoff, followers, broken) == 1
          && forall u: int64 :: Broken(old(hot.Of(Decimal(u))), hot.Of(Decimal(u)), u, broken,
               Pushes(tables, cutoff, followers, u) == 1, Entry(createdAt, Decimal(post)), maxItems, faults)
    {
      var e := Entry(createdAt, Decimal(post));
      if celebrity {
        if faults.outbox {
          return false;
        }
        outbox := outbox[author := ZAdd(if author in outbox then outbox[author] else [], e)];
        return true;
      }
      if |followers| == 0 {
        assert !CheckFails(tables, followers, down);
        return true;
      }
      var check := FilterActive(tables, followers, cutoff, down);
      if check.None? {
        return false;
      }
      var dormant := RemoveAll(followers, check.value);
      DormantCounts(tables, cutoff, followers, check.value);
      var thrown := PushToActive(check.value, e, faults);
      if thrown.Some? {
        return false;
      }
      AppendToDormant(dormant, Candidate(Decimal(post), Decimal(author), "in-network"), faults.appends);
      return true;
    }

    method PushToActive(active: seq<int64>, e: Entry, faults: Faults) returns (thrown: Option<int64>)
      requires Distinct(active) && hot.Valid()
      modifies hot
      ensures hot.Valid()
      ensures thrown.None? ==> forall u :: u in active ==> u !in faults.pushes
      ensures thrown.None? ==>
        forall u: int64 :: hot.Of(Decimal(u)) == HotAfter(old(hot.Of(Decimal(u))), u in active, e, maxItems)
      ensures thrown.Some? ==> thrown.value in active && thrown.value in faults.pushes
      ensures thrown.Some? ==>
        forall u: int64 ::
          Broken(old(hot.Of(Decimal(u))), hot.Of(Decimal(u)), u, thrown.value, u in active, e, maxItems, faults)
    {
      ghost var before := hot.keys;
      for i := 0 to |active|
        invariant hot.Valid() && forall u :: u in active[..i] ==> u !in faults.pushes
        invariant PushedTo(before, hot.keys, active[..i], e, maxItems)
      {
        ghost var mid := hot.keys;
        var sent := PushToOne(active[i], e, FaultOf(faults, active[i]));
        PushedOneMore(before, mid, hot.keys, active, i, e, maxItems, faults);
        if !sent {
          return Some(active[i]);
        }
      }
      assert active[..|active|] == active;
      return None;
    }

    /** No two followers share an inbox key. */
    method PushToOne(u: int64, e: Entry, fault: Option<PushFault>) returns (sent: bool)
      requires hot.Valid()
      modifies hot
      ensures hot.Valid() && sent == fault.None?
      ensures forall v: int64 ::
        hot.Of(Decimal(v)) == PushedIf(old(hot.Of(Decimal(v))), v == u, e, maxItems, fault)
    {
      sent := hot.PushToInbox(Decimal(u), e, maxItems, fault);
      forall v: int64 ensures Decimal(v) == Decimal(u) <==> v == u { SameKeyIff(v, u); }
    }

    method AppendToDormant(dormant: seq<int64>, c: Candidate, fails: set<int64>)
      modifies cold
      ensures forall u: int64 ::
        cold.Of(Decimal(u)) == AppendTimes(old(cold.Of(Decimal(u))), c, AppendsTo(dormant, fails, u))
    {
      for i := 0 to |dormant|
        invariant cold.db == AppendToAll(old(cold.db), dormant[..i], c, fails)
      {
        assert dormant[..i + 1][..i] == dormant[..i];
        var logged := cold.Append(Decimal(dormant[i]), c, dormant[i] in fails);
      }
      assert dormant[..|dormant|] == dormant;
      forall u: int64
        ensures cold.Of(Decimal(u)) == AppendTimes(old(cold.Of(Decimal(u))), c, AppendsTo(dormant, fails, u))
      {
        AppendToAllCounts(old(cold.db), dormant, c, fails, u);
      }
    }
  }

  /** u's hot inbox when the push to `broken` threw: other active followers were pushed to before
      it or not at all, nobody else was touched. */
  predicate Broken(before: ZSet, after: ZSet, u: int64, broken: int64, active: bool, e: Entry, maxItems: nat,
                   faults: Faults)
  {
    if u == broken then after == PushUpTo(before, e, maxItems, FaultOf(faults, u))
    else after == before || (active && u !in faults.pushes && after == Push(before, e, maxItems))
  }

  function LogOf(db: map<string, seq<Candidate>>, userID: string): seq<Candidate> {
    if userID in db then db[userID] else []
  }

  function AppendToAll(db: map<string, seq<Candidate>>, users: seq<int64>, c: Candidate, fails: set<int64>)
    : map<string, seq<Candidate>>
  {
    if users == [] then db
    else
      var rest := AppendToAll(db, users[..|users| - 1], c, fails);
      var key := Decimal(users[|users| - 1]);
      if users[|users| - 1] in fails then rest else rest[key := AppendCold(LogOf(rest, key), c)]
  }

  lemma DormantCounts(tables: Users.Tables, cutoff: int, followers: seq<int64>, active: seq<int64>)
    requires forall id :: id in active <==> id in followers && Active(tables, cutoff, id)
    ensures forall u :: Pushes(tables, cutoff, followers, u) == 1 <==> u in active
    ensures forall u :: Occurrences(RemoveAll(followers, active), u) == Appends(tables, cutoff, followers, u)
  {
    forall u ensures Occurrences(RemoveAll(followers, active), u) == Appends(tables, cutoff, followers, u) {
      RemoveAllCounts(followers, active, u);
      assert u in followers <==> Occurrences(followers, u) > 0;
    }
  }

  lemma LastOccurrence(list: seq<int64>, id: int64)
    requires list != []
    ensures Occurrences(list, id)
         == Occurrences(list[..|list| - 1], id) + if list[|list| - 1] == id then 1 else 0
  {
    assert list == list[..|list| - 1] + [list[|list| - 1]];
  }

  lemma SameKeyIff(a: int64, b: int64)
    ensures Decimal(a) == Decimal(b) <==> a == b
  {
    if Decimal(a) == Decimal(b) { DecimalInjective(a, b); }
  }

  lemma AppendTimesNext(log: seq<Candidate>, c: Candidate, n: nat)
    ensures AppendTimes(log, c, n + 1) == AppendCold(AppendTimes(log, c, n), c)
  {}

  lemma AppendToAllNext(db: map<string, seq<Candidate>>, users: seq<int64>, c: Candidate, fails: set<int64>,
                        key: string)
    requires users != []
    ensures var n := |users| - 1;
      var before := LogOf(AppendToAll(db, users[..n], c, fails), key);
      LogOf(AppendToAll(db, users, c, fails), key)
        == if users[n] !in fails && key == Decimal(users[n]) then AppendCold(before, c) else before
  {}

  lemma {:induction false} AppendToAllCounts(db: map<string, seq<Candidate>>, users: seq<int64>, c: Candidate,
                                            fails: set<int64>, u: int64)
    ensures LogOf(AppendToAll(db, users, c, fails), Decimal(u))
         == AppendTimes(LogOf(db, Decimal(u)), c, if u in fails then 0 else Occurrences(users, u))
  {
    if users != [] {
      var n := |users| - 1;
      var key := Decimal(u);
      AppendToAllCounts(db, users[..n], c, fails, u);
      LastOccurrence(users, u);
      SameKeyIff(u, users[n]);
      AppendToAllNext(db, users, c, fails, key);
      AppendTimesNext(LogOf(db, key), c, Occurrences(users[..n], u));
    }
  }

  /** The fan-out partition, on a duplicate-free follower list: a follower gets one write in one
      tier, anybody else none. The hot tier gets exactly the active ones, wherever their row is;
      an ID from outside the topology goes cold. */
  lemma OneTierPerFollower(tables: Users.Tables, cutoff: int, followers: seq<int64>, u: int64)
    requires RowsOnTheirShard(tables) && Distinct(followers)
    ensures Pushes(tables, cutoff, followers, u) + Appends(tables, cutoff, followers, u)
         == if u in followers then 1 else 0
    ensures Pushes(tables, cutoff, followers, u) == 1 <==> u in followers && Active(tables, cutoff, u)
    ensures Appends(tables, cutoff, followers, u) == 1 <==> u in followers && !Active(tables, cutoff, u)
    ensures u in followers && ExtractShardID(u) !in tables ==> Appends(tables, cutoff, followers, u) == 1
  {
    DistinctOnce(followers, u);
  }

  lemma {:induction false} DistinctOnce(s: seq<int64>, u: int64)
    requires Distinct(s)
    ensures Occurrences(s, u) == if u in s then 1 else 0
  {
    if s != [] {
      var r := s[..|s| - 1];
      DistinctOnce(r, u);
      assert s == r + [s[|s| - 1]];
      assert s[|s| - 1] !in r;
    }
  }

  /** A redelivered event leaves a hot inbox as the first delivery did, whatever it held. */
  lemma RedeliveredPush(z: ZSet, e: Entry, k: nat)
    requires Valid(z)
    ensures Push(Push(z, e, k), e, k) == Push(z, e, k)
  {
    var w := ZAdd(z, e);
    ZAddSpec(z, e);
    assert forall x :: x in w ==> x in SetOf(w);
    assert SetOf(w) + {e} == SetOf(w);
    CutAddCut(w, e, k);
    ZAddPresent(w, e);
    TrimKeepsBest(w, k);
    TrimKeepsBest(ZAdd(Cut(w, k), e), k);
  }
}
