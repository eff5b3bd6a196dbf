/** Redis sorted sets as the inboxes use them: ZADD, ZREVRANGE, ZREMRANGEBYRANK. A sorted set is
    kept as its ZREVRANGE listing: best entry first, ordered by score, then by member. */
module SortedSet {
  import opened Prelude

  datatype Entry = Entry(score: int, member: string)

  /** Redis breaks score ties by comparing members byte by byte. */
  predicate LexLess(a: string, b: string) {
    if b == [] then false
    else if a == [] then true
    else a[0] < b[0] || (a[0] == b[0] && LexLess(a[1..], b[1..]))
  }

  /** The texts agree up to k, and there a ends or has the smaller character. */
  predicate SmallerAt(a: string, b: string, k: nat) {
    k < |b| && k <= |a| && (forall i :: 0 <= i < k ==> a[i] == b[i]) && (k == |a| || a[k] < b[k])
  }

  /** What comparing byte by byte means. */
  lemma {:induction false} LexLessIff(a: string, b: string)
    ensures LexLess(a, b) <==> exists k :: SmallerAt(a, b, k)
  {
    if a == [] || b == [] || a[0] != b[0] {
      assert LexLess(a, b) ==> SmallerAt(a, b, 0);
    } else {
      LexLessIff(a[1..], b[1..]);
      if k: nat :| SmallerAt(a[1..], b[1..], k) {
        assert SmallerAt(a, b, k + 1);
      }
      if k: nat :| SmallerAt(a, b, k) {
        assert SmallerAt(a[1..], b[1..], k - 1);
      }
    }
  }

  /** So 9 stands above 10 at one score, and a longer ID above its prefix. */
  lemma TieExamples()
    ensures Above(Entry(5, "9"), Entry(5, "10")) && Above(Entry(5, "101"), Entry(5, "10"))
    ensures Above(Entry(6, "10"), Entry(5, "9"))
  {
    assert "101"[1..] == "01" && "10"[1..] == "0" && "01"[1..] == "1" && "0"[1..] == "";
  }

  /** a comes before b in ZREVRANGE. */
  predicate Above(a: Entry, b: Entry) {
    a.score > b.score || (a.score == b.score && LexLess(b.member, a.member))
  }

  lemma {:induction false} LexTotal(a: string, b: string)
    ensures a == b || LexLess(a, b) || LexLess(b, a)
    ensures !(LexLess(a, b) && LexLess(b, a)) && !LexLess(a, a)
  {
    if a != [] && b != [] {
      LexTotal(a[1..], b[1..]);
      LexTotal(a[1..], a[1..]);
      assert a[0] == b[0] && a[1..] == b[1..] ==> a == b by {
        assert a == [a[0]] + a[1..] && b == [b[0]] + b[1..];
      }
    } else if a != [] {
      LexTotal(a[1..], a[1..]);
    }
  }

  lemma {:induction false} LexTransitive(a: string, b: string, c: string)
    requires LexLess(a, b) && LexLess(b, c)
    ensures LexLess(a, c)
  {
    if a != [] && a[0] == b[0] == c[0] {
      LexTransitive(a[1..], b[1..], c[1..]);
    }
  }

  lemma AboveTotal(a: Entry, b: Entry)
    ensures a == b || Above(a, b) || Above(b, a)
    ensures !(Above(a, b) && Above(b, a)) && !Above(a, a)
  {
    LexTotal(a.member, b.member);
    LexTotal(a.member, a.member);
  }

  lemma AboveTransitive(a: Entry, b: Entry, c: Entry)
    requires Above(a, b) && Above(b, c)
    ensures Above(a, c)
  {
    if a.score == b.score == c.score {
      LexTransitive(c.member, b.member, a.member);
    }
  }

  // ---------- the listing ----------

  type ZSet = seq<Entry>

  ghost predicate Ranked(z: ZSet) {
    forall i, j :: 0 <= i < j < |z| ==> Above(z[i], z[j])
  }

  ghost predicate OneScorePerMember(entries: set<Entry>) {
    forall x, y :: x in entries && y in entries && x.member == y.member ==> x == y
  }

  /** A well-formed sorted set: ranked, each member once. */
  ghost predicate Valid(z: ZSet) {
    Ranked(z) && OneScorePerMember(SetOf(z))
  }

  function Without(z: ZSet, member: string): ZSet {
    if z == [] then []
    else if z[0].member == member then Without(z[1..], member)
    else [z[0]] + Without(z[1..], member)
  }

  function InsertRanked(z: ZSet, e: Entry): ZSet {
    if z == [] || Above(e, z[0]) then [e] + z else [z[0]] + InsertRanked(z[1..], e)
  }

  /** ZADD: a member already present moves to its new score. */
  function ZAdd(z: ZSet, e: Entry): ZSet {
    InsertRanked(Without(z, e.member), e)
  }

  /** ZREVRANGE start stop, a negative stop counting from the end. */
  function ZRevRange(z: ZSet, start: nat, stop: int): seq<Entry> {
    var last := if stop < 0 then |z| + stop else stop;
    if start > last || start >= |z| then [] else z[start..Min(last + 1, |z|)]
  }

  /** ZREMRANGEBYRANK start stop over the ascending order, both ends counted from the lowest
      score, negative ends from the highest. */
  function ZRemRangeByRank(z: ZSet, start: nat, stop: int): ZSet {
    var last := if stop < 0 then |z| + stop else stop;
    if start > last || start >= |z| then z
    else z[..|z| - 1 - Min(last, |z| - 1)] + z[|z| - start..]
  }

  lemma {:induction false} Lengths(z: ZSet, e: Entry)
    ensures |InsertRanked(z, e)| == |z| + 1
    ensures |Without(z, e.member)| <= |z|
  {
    if z != [] { Lengths(z[1..], e); }
  }

  lemma {:induction false} NothingRemoved(z: ZSet, member: string)
    requires forall x :: x in z ==> x.member != member
    ensures Without(z, member) == z
  {
    if z != [] { NothingRemoved(z[1..], member); }
  }

  lemma {:induction false} InsertLowest(z: ZSet, e: Entry)
    requires forall x :: x in z ==> Above(x, e)
    ensures InsertRanked(z, e) == z + [e]
  {
    if z != [] {
      AboveTotal(z[0], e);
      InsertLowest(z[1..], e);
    }
  }

  lemma {:induction false} WithoutSpec(z: ZSet, member: string)
    requires Ranked(z)
    ensures Ranked(Without(z, member))
    ensures forall x :: x in Without(z, member) <==> x in z && x.member != member
  {
    if z != [] {
      WithoutSpec(z[1..], member);
      var w := Without(z[1..], member);
      assert forall x :: x in z <==> x == z[0] || x in z[1..];
      forall x | x in w ensures Above(z[0], x) {
        var k :| 0 <= k < |z[1..]| && z[1..][k] == x;
        assert z[k + 1] == x;
      }
    }
  }

  lemma {:induction false} InsertSpec(z: ZSet, e: Entry)
    requires Ranked(z) && e !in z
    ensures Ranked(InsertRanked(z, e)) && |InsertRanked(z, e)| == |z| + 1
    ensures forall x :: x in InsertRanked(z, e) <==> x in z || x == e
  {
    if z == [] {
    } else if Above(e, z[0]) {
      forall i | 0 < i < |z| ensures Above(e, z[i]) { AboveTransitive(e, z[0], z[i]); }
    } else {
      AboveTotal(e, z[0]);
      InsertSpec(z[1..], e);
      assert forall x :: x in z <==> x == z[0] || x in z[1..];
      forall x | x in InsertRanked(z[1..], e) ensures Above(z[0], x) {
        if x in z[1..] { var k :| 0 <= k < |z[1..]| && z[1..][k] == x; assert z[k + 1] == x; }
      }
    }
  }

  /** ZADD replaces the member's entry and touches no other. */
  lemma ZAddSpec(z: ZSet, e: Entry)
    requires Valid(z)
    ensures Valid(ZAdd(z, e))
    ensures forall x :: x in ZAdd(z, e) <==> x == e || (x in z && x.member != e.member)
  {
    WithoutSpec(z, e.member);
    InsertSpec(Without(z, e.member), e);
  }

  lemma RankedDistinct(z: ZSet)
    requires Ranked(z)
    ensures Distinct(z) && |SetOf(z)| == |z|
  {
    forall i, j | 0 <= i < j < |z| ensures z[i] != z[j] { AboveTotal(z[i], z[i]); }
    DistinctCard(z);
  }

  function Members(z: seq<Entry>): seq<string> {
    seq(|z|, i requires 0 <= i < |z| => z[i].member)
  }

  lemma MembersDistinct(z: ZSet)
    requires Valid(z)
    ensures Distinct(Members(z))
  {
    RankedDistinct(z);
    forall i, j | 0 <= i < j < |z| ensures z[i].member != z[j].member {
      assert z[i] in SetOf(z) && z[j] in SetOf(z);
    }
  }

  /** The order is total, so a ranked listing is determined by its elements. */
  lemma {:induction false} RankedUnique(a: ZSet, b: ZSet)
    requires Ranked(a) && Ranked(b) && SetOf(a) == SetOf(b)
    ensures a == b
  {
    if a == [] {
      RankedDistinct(b);
      assert SetOf(a) == {};
    } else {
      assert a[0] in SetOf(b);
      assert b[0] in SetOf(a);
      var i :| 0 <= i < |b| && b[i] == a[0];
      var j :| 0 <= j < |a| && a[j] == b[0];
      AboveTotal(a[0], b[0]);
      assert a[0] == b[0];
      RankedDistinct(a);
      RankedDistinct(b);
      assert SetOf(a[1..]) == SetOf(a) - {a[0]};
      assert SetOf(b[1..]) == SetOf(b) - {b[0]};
      RankedUnique(a[1..], b[1..]);
      assert a == [a[0]] + a[1..] && b == [b[0]] + b[1..];
    }
  }

  /** Adding an entry that is already there changes nothing. */
  lemma ZAddPresent(z: ZSet, e: Entry)
    requires Valid(z) && e in z
    ensures ZAdd(z, e) == z
  {
    ZAddSpec(z, e);
    assert forall x :: x in z ==> x in SetOf(z);
    assert SetOf(ZAdd(z, e)) == SetOf(z);
    RankedUnique(ZAdd(z, e), z);
  }

  // ---------- top k of a history ----------

  function Cut(z: ZSet, k: nat): ZSet {
    z[..Min(k, |z|)]
  }

  /** If the member is there already, e is that entry or ranks above it: scores only rise. */
  ghost predicate NeverFalls(z: ZSet, e: Entry) {
    forall x :: x in z && x.member == e.member ==> x == e || Above(e, x)
  }

  lemma {:induction false} WithoutLosesOne(z: ZSet, member: string)
    requires Distinct(Members(z))
    ensures |Without(z, member)| >= |z| - 1
  {
    if z != [] {
      assert Members(z)[1..] == Members(z[1..]);
      if z[0].member == member {
        forall x | x in z[1..] ensures x.member != member {
          var i :| 0 <= i < |z[1..]| && z[1..][i] == x;
          assert Members(z)[0] != Members(z)[i + 1];
        }
        NothingRemoved(z[1..], member);
      } else {
        WithoutLosesOne(z[1..], member);
      }
    }
  }

  lemma ZAddNoShorter(z: ZSet, e: Entry)
    requires Valid(z)
    ensures |ZAdd(z, e)| >= |z|
  {
    MembersDistinct(z);
    WithoutLosesOne(z, e.member);
    Lengths(Without(z, e.member), e);
  }

  lemma ValidPart(z: ZSet, k: nat)
    requires Valid(z)
    ensures Valid(Cut(z, k)) && forall x :: x in Cut(z, k) ==> x in z
  {
    assert forall x :: x in z ==> x in SetOf(z);
    assert SetOf(Cut(z, k)) <= SetOf(z);
  }

  lemma HeadAbove(z: ZSet, k: nat, e: Entry)
    requires Ranked(z) && e in z && e !in Cut(z, k)
    ensures forall x :: x in Cut(z, k) ==> Above(x, e)
    ensures |Cut(z, k)| == k
  {
    var i :| 0 <= i < |z| && z[i] == e;
    assert forall m :: 0 <= m < |Cut(z, k)| ==> Cut(z, k)[m] == z[m];
    assert forall m :: 0 <= m < |Cut(z, k)| ==> z[m] in Cut(z, k);
  }

  /** out lists, best first, the k greatest entries of the history (all of it if shorter). */
  ghost predicate IsTop(history: set<Entry>, k: nat, out: ZSet) {
    && Ranked(out) && SetOf(out) <= history && |out| == Min(k, |history|)
    && forall x, y :: x in history && x !in out && y in out ==> Above(y, x)
  }

  /** A history has one top-k listing. */
  lemma TopUnique(history: set<Entry>, k: nat, a: ZSet, b: ZSet)
    requires IsTop(history, k, a) && IsTop(history, k, b)
    ensures a == b
  {
    RankedDistinct(a);
    RankedDistinct(b);
    if x :| x in SetOf(a) && x !in SetOf(b) {
      if SetOf(b) <= SetOf(a) { SubsetCard(SetOf(b), SetOf(a)); }
      var y :| y in SetOf(b) && y !in SetOf(a);
      assert Above(y, x) && Above(x, y);
      AboveTotal(x, y);
    }
    SubsetCard(SetOf(a), SetOf(b));
    RankedUnique(a, b);
  }

  /** The best `limit` of the k best are the best `limit` of all. */
  lemma TopOfTop(history: set<Entry>, k: nat, z: ZSet, limit: nat)
    requires IsTop(history, k, z) && limit <= k
    ensures IsTop(history, limit, z[..Min(limit, |z|)])
  {
    var n := Min(limit, |z|);
    assert forall m :: 0 <= m < n ==> z[..n][m] == z[m];
    assert forall m :: 0 <= m < n ==> z[m] in z[..n];
    forall x, y | x in history && x !in z[..n] && y in z[..n] ensures Above(y, x) {
      var i :| 0 <= i < n && z[i] == y;
      if x in z {
        var j :| 0 <= j < |z| && z[j] == x;
        assert n <= j;
      }
    }
  }

  /** A listing is the top of its own entries, cut anywhere. */
  lemma CutIsTop(z: ZSet, k: nat)
    requires Ranked(z)
    ensures IsTop(SetOf(z), k, Cut(z, k))
  {
    RankedDistinct(z);
    assert IsTop(SetOf(z), |z|, z);
    TopOfTop(SetOf(z), |z|, z, Min(k, |z|));
  }

  /** What survives an insertion into the head outranks what the head had already lost. */
  lemma SurvivorsAbove(z: ZSet, e: Entry, k: nat, x: Entry, y: Entry)
    requires Valid(z) && NeverFalls(z, e) && |z| > k
    requires x in z && x.member != e.member && x !in Cut(z, k) && y in Cut(ZAdd(Cut(z, k), e), k)
    ensures Above(y, x)
  {
    var head := Cut(z, k);
    var w := ZAdd(head, e);
    ValidPart(z, k);
    HeadAbove(z, k, x);
    ZAddSpec(head, e);
    ValidPart(w, k);
    if y !in head {
      assert y == e;
      if prior :| prior in head && prior.member == e.member {
        if prior != e { AboveTransitive(e, prior, x); }
      } else {
        NothingRemoved(head, e.member);
        Lengths(head, e);
        LastBelow(w, k, e);
        AboveTransitive(e, w[k], x);
      }
    }
  }

  lemma LastBelow(w: ZSet, k: nat, e: Entry)
    requires Ranked(w) && |w| == k + 1 && e in Cut(w, k)
    ensures Above(e, w[k]) && w[k] != e
  {
    var i :| 0 <= i < k && w[i] == e;
    AboveTotal(e, e);
  }

  lemma HeadInsertIsTop(z: ZSet, e: Entry, k: nat)
    requires Valid(z) && NeverFalls(z, e) && |z| > k
    ensures IsTop(SetOf(ZAdd(z, e)), k, Cut(ZAdd(Cut(z, k), e), k))
  {
    var head := Cut(z, k);
    var w, out := ZAdd(head, e), Cut(ZAdd(head, e), k);
    ValidPart(z, k);
    ZAddSpec(z, e);
    ZAddSpec(head, e);
    ValidPart(w, k);
    ZAddNoShorter(z, e);
    ZAddNoShorter(head, e);
    RankedDistinct(ZAdd(z, e));
    CutIsTop(w, k);
    forall x, y | x in SetOf(ZAdd(z, e)) && x !in out && y in out ensures Above(y, x) {
      if x in w {
        assert x in SetOf(w);
      } else {
        SurvivorsAbove(z, e, k, x, y);
      }
    }
  }

  /** Trimming before an insertion loses nothing that trimming after it would keep, as long as
      scores only rise. */
  lemma CutAddCut(z: ZSet, e: Entry, k: nat)
    requires Valid(z) && NeverFalls(z, e)
    ensures Cut(ZAdd(Cut(z, k), e), k) == Cut(ZAdd(z, e), k)
  {
    if |z| <= k {
      assert Cut(z, k) == z;
    } else {
      var history := SetOf(ZAdd(z, e));
      HeadInsertIsTop(z, e, k);
      ZAddSpec(z, e);
      CutIsTop(ZAdd(z, e), k);
      TopUnique(history, k, Cut(ZAdd(Cut(z, k), e), k), Cut(ZAdd(z, e), k));
    }
  }

  // ---------- ranks only grow ----------

  lemma {:induction false} WithoutIndex(z: ZSet, member: string, j: nat) returns (i: nat)
    requires Distinct(Members(z)) && j < |Without(z, member)|
    ensures j <= i <= j + 1 && i < |z| && z[i] == Without(z, member)[j]
  {
    assert Members(z)[1..] == Members(z[1..]);
    if z[0].member == member {
      forall x | x in z[1..] ensures x.member != member {
        var k :| 0 <= k < |z[1..]| && z[1..][k] == x;
        assert Members(z)[0] != Members(z)[k + 1];
      }
      NothingRemoved(z[1..], member);
      i := j + 1;
    } else if j == 0 {
      i := 0;
    } else {
      i := WithoutIndex(z[1..], member, j - 1);
      i := i + 1;
    }
  }

  lemma {:induction false} InsertIndex(z: ZSet, e: Entry, j: nat)
    requires j < |InsertRanked(z, e)| && Above(e, InsertRanked(z, e)[j])
    ensures 0 < j <= |z| && z[j - 1] == InsertRanked(z, e)[j]
  {
    AboveTotal(e, e);
    if z != [] && !Above(e, z[0]) {
      InsertIndex(z[1..], e, j - 1);
    }
  }

  /** An entry that the added one outranks stood no lower before. */
  lemma ZAddLowers(z: ZSet, e: Entry, j: nat) returns (i: nat)
    requires Valid(z) && j < |ZAdd(z, e)| && Above(e, ZAdd(z, e)[j])
    ensures i <= j && i < |z| && z[i] == ZAdd(z, e)[j]
  {
    InsertIndex(Without(z, e.member), e, j);
    MembersDistinct(z);
    i := WithoutIndex(z, e.member, j - 1);
  }
}
