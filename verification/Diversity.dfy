/** diversity.go: the per-author cap over the ranked list, and the ad slots of a page. */
module Diversity {
  import opened Prelude

  datatype RankedItem = RankedItem(postID: string, authorID: string, source: string, score: real)

  datatype FeedItem = FeedItem(
    postID: string, authorID: string, mediaURL: string, caption: string, likeCount: int, commentCount: int,
    source: string, score: real, isAd: bool, createdAt: int, likedByMe: bool)

  // ---------- author cap ----------

  /** The author of each item, in order. */
  function Authors(items: seq<RankedItem>): seq<string> {
    if items == [] then [] else Authors(items[..|items| - 1]) + [items[|items| - 1].authorID]
  }

  function CountOf(items: seq<RankedItem>, author: string): nat {
    if items == [] then 0
    else CountOf(items[..|items| - 1], author) + if items[|items| - 1].authorID == author then 1 else 0
  }

  lemma {:induction false} CountIsMultiplicity(items: seq<RankedItem>, author: string)
    ensures multiset(Authors(items))[author] == CountOf(items, author)
  {
    if items != [] { CountIsMultiplicity(items[..|items| - 1], author); }
  }

  /** applyDiversity as a function: keep an item unless its author is already full. */
  function Kept(ranked: seq<RankedItem>, cap: int): seq<RankedItem> {
    if ranked == [] then []
    else
      var rest := Kept(ranked[..|ranked| - 1], cap);
      var item := ranked[|ranked| - 1];
      if CountOf(rest, item.authorID) >= cap then rest else rest + [item]
  }

  ghost predicate CountsMatch(items: seq<RankedItem>, counts: map<string, int>) {
    forall a :: CountOf(items, a) == if a in counts then counts[a] else 0
  }

  lemma CountsMatchNext(items: seq<RankedItem>, counts: map<string, int>, item: RankedItem)
    requires CountsMatch(items, counts)
    ensures CountsMatch(items + [item], counts[item.authorID := CountOf(items, item.authorID) + 1])
  {
    forall a ensures CountOf(items + [item], a) == CountOf(items, a) + if a == item.authorID then 1 else 0 {
      CountSnoc(items, item, a);
    }
  }

  method ApplyDiversity(ranked: seq<RankedItem>, maxPerAuthor: int) returns (out: seq<RankedItem>)
    ensures out == Kept(ranked, maxPerAuthor)
  {
    var counts: map<string, int> := map[];
    out := [];
    var i := 0;
    while i < |ranked|
      invariant 0 <= i <= |ranked|
      invariant out == Kept(ranked[..i], maxPerAuthor)
      invariant CountsMatch(out, counts)
    {
      var item := ranked[i];
      KeptNext(ranked, i, maxPerAuthor);
      i := i + 1;
      var count := if item.authorID in counts then counts[item.authorID] else 0;
      assert count == CountOf(out, item.authorID);
      if count >= maxPerAuthor {
        continue;
      }
      CountsMatchNext(out, counts, item);
      counts := counts[item.authorID := count + 1];
      out := out + [item];
    }
    assert ranked[..|ranked|] == ranked;
  }

  lemma KeptNext(ranked: seq<RankedItem>, i: nat, cap: int)
    requires i < |ranked|
    ensures Kept(ranked[..i + 1], cap) ==
      (if CountOf(Kept(ranked[..i], cap), ranked[i].authorID) >= cap then Kept(ranked[..i], cap)
       else Kept(ranked[..i], cap) + [ranked[i]])
  {
    assert ranked[..i + 1][..i] == ranked[..i];
  }

  lemma CountSnoc(items: seq<RankedItem>, item: RankedItem, author: string)
    ensures CountOf(items + [item], author) == CountOf(items, author) + if author == item.authorID then 1 else 0
  {
    assert (items + [item])[..|items|] == items;
  }

  lemma {:induction false} AuthorsLength(items: seq<RankedItem>)
    ensures |Authors(items)| == |items|
  {
    if items != [] { AuthorsLength(items[..|items| - 1]); }
  }

  function ByAuthor(items: seq<RankedItem>, author: string): seq<RankedItem> {
    if items == [] then []
    else
      var rest := ByAuthor(items[..|items| - 1], author);
      var item := items[|items| - 1];
      if item.authorID == author then rest + [item] else rest
  }

  lemma {:induction false} ByAuthorLength(items: seq<RankedItem>, author: string)
    ensures |ByAuthor(items, author)| == CountOf(items, author)
  {
    if items != [] {
      var n := |items| - 1;
      ByAuthorLength(items[..n], author);
      CountSnoc(items[..n], items[n], author);
      assert items[..n] + [items[n]] == items;
    }
  }

  /** How many posts one author may have; the cap comes from the configuration unchecked. */
  function Quota(cap: int): nat {
    if cap <= 0 then 0 else cap
  }

  /** The cap keeps, of every author, exactly the leading posts up to the cap: with a list in
      rank order, each author's best. */
  lemma {:induction false} KeepsEachAuthorsBest(ranked: seq<RankedItem>, cap: int, author: string)
    ensures ByAuthor(Kept(ranked, cap), author)
         == ByAuthor(ranked, author)[..Min(|ByAuthor(ranked, author)|, Quota(cap))]
  {
    if ranked != [] {
      var n := |ranked| - 1;
      var rest, item := Kept(ranked[..n], cap), ranked[n];
      KeepsEachAuthorsBest(ranked[..n], cap, author);
      ByAuthorLength(rest, item.authorID);
      ByAuthorSnoc(rest, item, author);
    }
  }

  lemma ByAuthorSnoc(items: seq<RankedItem>, item: RankedItem, author: string)
    ensures ByAuthor(items + [item], author)
         == ByAuthor(items, author) + if item.authorID == author then [item] else []
  {
    assert (items + [item])[..|items|] == items;
  }

  // ---------- the cap is optimal ----------

  /** Positions in strictly increasing order. */
  predicate Ascending(picks: seq<nat>, bound: nat) {
    && (forall i :: 0 <= i < |picks| ==> picks[i] < bound)
    && (forall i, j :: 0 <= i < j < |picks| ==> picks[i] < picks[j])
  }

  function Select(ranked: seq<RankedItem>, picks: seq<nat>): seq<RankedItem>
    requires forall i :: 0 <= i < |picks| ==> picks[i] < |ranked|
  {
    seq(|picks|, i requires 0 <= i < |picks| => ranked[picks[i]])
  }

  /** A selection from the ranked list that respects the cap. */
  ghost predicate Feasible(ranked: seq<RankedItem>, cap: int, picks: seq<nat>) {
    && Ascending(picks, |ranked|)
    && forall a :: CountOf(Select(ranked, picks), a) <= Quota(cap)
  }

  /** The positions that the cap keeps. */
  function KeptAt(ranked: seq<RankedItem>, cap: int): seq<nat> {
    if ranked == [] then []
    else
      var n := |ranked| - 1;
      if CountOf(Kept(ranked[..n], cap), ranked[n].authorID) >= cap then KeptAt(ranked[..n], cap)
      else KeptAt(ranked[..n], cap) + [n]
  }

  lemma {:induction false} KeptAtAscending(ranked: seq<RankedItem>, cap: int)
    ensures Ascending(KeptAt(ranked, cap), |ranked|)
  {
    if ranked != [] {
      var n := |ranked| - 1;
      KeptAtAscending(ranked[..n], cap);
      AscendingSnoc(KeptAt(ranked[..n], cap), n);
    }
  }

  lemma AscendingSnoc(picks: seq<nat>, n: nat)
    requires Ascending(picks, n)
    ensures Ascending(picks, n + 1) && Ascending(picks + [n], n + 1)
  {}

  /** The kept items are a subsequence of the ranked list, in rank order. */
  lemma {:induction false} KeptIsSubsequence(ranked: seq<RankedItem>, cap: int)
    ensures Ascending(KeptAt(ranked, cap), |ranked|)
    ensures Kept(ranked, cap) == Select(ranked, KeptAt(ranked, cap))
  {
    KeptAtAscending(ranked, cap);
    if ranked != [] {
      var n := |ranked| - 1;
      var r := ranked[..n];
      KeptIsSubsequence(r, cap);
      SelectFromPrefix(ranked, n, KeptAt(r, cap));
      if CountOf(Kept(r, cap), ranked[n].authorID) < cap {
        SelectSnoc(ranked, KeptAt(ranked, cap));
        assert KeptAt(ranked, cap)[..|KeptAt(ranked, cap)| - 1] == KeptAt(r, cap);
      }
    }
  }

  lemma SelectFromPrefix(ranked: seq<RankedItem>, n: nat, picks: seq<nat>)
    requires n <= |ranked| && Ascending(picks, n)
    ensures Select(ranked[..n], picks) == Select(ranked, picks)
  {}

  lemma {:induction false} SelectCount(ranked: seq<RankedItem>, picks: seq<nat>, author: string)
    requires Ascending(picks, |ranked|)
    ensures CountOf(Select(ranked, picks), author) <= CountOf(ranked, author)
  {
    if ranked != [] && picks != [] {
      var n, k := |ranked| - 1, |picks| - 1;
      var r := ranked[..n];
      CountSnoc(r, ranked[n], author);
      assert ranked == r + [ranked[n]];
      if picks[k] == n {
        var rest := Select(r, picks[..k]);
        SelectCount(r, picks[..k], author);
        SelectFromPrefix(ranked, n, picks[..k]);
        SelectSnoc(ranked, picks);
        CountSnoc(rest, ranked[n], author);
        assert Select(ranked, picks) == rest + [ranked[n]];
      } else {
        SelectCount(r, picks, author);
        SelectFromPrefix(ranked, n, picks);
      }
    }
  }

  lemma SelectSnoc(ranked: seq<RankedItem>, picks: seq<nat>)
    requires Ascending(picks, |ranked|) && picks != []
    ensures Select(ranked, picks) == Select(ranked, picks[..|picks| - 1]) + [ranked[picks[|picks| - 1]]]
  {}

  /** No feasible selection is longer than what the cap keeps. */
  lemma NoLongerSelection(ranked: seq<RankedItem>, cap: int, picks: seq<nat>)
    requires Feasible(ranked, cap, picks)
    ensures |picks| <= |Kept(ranked, cap)|
  {
    var chosen, kept := Select(ranked, picks), Kept(ranked, cap);
    forall a ensures multiset(Authors(chosen))[a] <= multiset(Authors(kept))[a] {
      assert CountOf(chosen, a) <= Quota(cap);
      SelectCount(ranked, picks, a);
      KeptCount(ranked, cap, a);
      CountIsMultiplicity(chosen, a);
      CountIsMultiplicity(kept, a);
    }
    AuthorsLength(chosen);
    AuthorsLength(kept);
    MultisetCard(multiset(Authors(chosen)), multiset(Authors(kept)));
  }

  lemma KeptCount(ranked: seq<RankedItem>, cap: int, author: string)
    ensures CountOf(Kept(ranked, cap), author) == Min(CountOf(ranked, author), Quota(cap))
  {
    KeepsEachAuthorsBest(ranked, cap, author);
    ByAuthorLength(ranked, author);
    ByAuthorLength(Kept(ranked, cap), author);
  }

  lemma MultisetCard<T>(a: multiset<T>, b: multiset<T>)
    requires a <= b
    ensures |a| <= |b|
  {
    assert b == a + (b - a);
  }

  /** The i-th kept position is never later than the i-th position of any feasible selection. */
  lemma KeptComesFirst(ranked: seq<RankedItem>, cap: int, picks: seq<nat>, i: nat)
    requires Feasible(ranked, cap, picks) && i < |picks|
    ensures i < |KeptAt(ranked, cap)| && KeptAt(ranked, cap)[i] <= picks[i]
  {
    var m := picks[i] + 1;
    var head := picks[..i + 1];
    assert Select(ranked[..m], head) == Select(ranked, head);
    assert Select(ranked, head) == Select(ranked, picks)[..i + 1];
    forall a ensures CountOf(Select(ranked, head), a) <= Quota(cap) {
      CountPrefix(Select(ranked, picks), i + 1, a);
    }
    NoLongerSelection(ranked[..m], cap, head);
    KeptAtPrefix(ranked, cap, m);
    KeptIsSubsequence(ranked[..m], cap);
  }

  lemma {:induction false} CountPrefix(items: seq<RankedItem>, n: nat, author: string)
    requires n <= |items|
    ensures CountOf(items[..n], author) <= CountOf(items, author)
  {
    if n < |items| {
      var k := |items| - 1;
      CountPrefix(items[..k], n, author);
      CountSnoc(items[..k], items[k], author);
      assert items[..k][..n] == items[..n];
      assert items[..k] + [items[k]] == items;
    } else {
      assert items[..n] == items;
    }
  }

  lemma {:induction false} KeptAtPrefix(ranked: seq<RankedItem>, cap: int, m: nat)
    requires m <= |ranked|
    ensures KeptAt(ranked[..m], cap) <= KeptAt(ranked, cap)
  {
    if m < |ranked| {
      KeptAtPrefix(ranked[..|ranked| - 1], cap, m);
      assert ranked[..|ranked| - 1][..m] == ranked[..m];
    } else {
      assert ranked[..m] == ranked;
    }
  }

  predicate SortedDescending(ranked: seq<RankedItem>) {
    forall i, j :: 0 <= i < j < |ranked| ==> ranked[i].score >= ranked[j].score
  }

  /** Optimality of the greedy cap. On a list in descending score order, compare any selection
      that respects the cap with what the cap keeps: the kept list is at least as long, and its
      i-th score is at least the selection's i-th score, at every position. */
  lemma GreedyCapIsOptimal(ranked: seq<RankedItem>, cap: int, picks: seq<nat>)
    requires SortedDescending(ranked) && Feasible(ranked, cap, picks)
    ensures |picks| <= |Kept(ranked, cap)|
    ensures forall i :: 0 <= i < |picks| ==> Kept(ranked, cap)[i].score >= ranked[picks[i]].score
  {
    NoLongerSelection(ranked, cap, picks);
    forall i | 0 <= i < |picks| ensures Kept(ranked, cap)[i].score >= ranked[picks[i]].score {
      GreedyCapAt(ranked, cap, picks, i);
    }
  }

  lemma GreedyCapAt(ranked: seq<RankedItem>, cap: int, picks: seq<nat>, i: nat)
    requires SortedDescending(ranked) && Feasible(ranked, cap, picks) && i < |picks|
    ensures i < |Kept(ranked, cap)| && Kept(ranked, cap)[i].score >= ranked[picks[i]].score
  {
    KeptIsSubsequence(ranked, cap);
    KeptComesFirst(ranked, cap, picks, i);
    assert Kept(ranked, cap)[i] == ranked[KeptAt(ranked, cap)[i]];
  }

  /** The kept list is itself such a selection. */
  lemma KeptIsFeasible(ranked: seq<RankedItem>, cap: int)
    ensures Feasible(ranked, cap, KeptAt(ranked, cap))
  {
    KeptIsSubsequence(ranked, cap);
    forall a ensures CountOf(Kept(ranked, cap), a) <= Quota(cap) {
      KeptCount(ranked, cap, a);
    }
  }

  // ---------- ads ----------

  const AD_1 := FeedItem("ad-1", "sponsor", "", "Sponsored", 0, 0, "ad", 0.0, true, 0, false)
  const AD_2 := FeedItem("ad-2", "sponsor", "", "Sponsored", 0, 0, "ad", 0.0, true, 0, false)

  /** 1-indexed ad positions of a page. */
  function AdAt(pos: int): Option<FeedItem> {
    if pos == 3 then Some(AD_1) else if pos == 8 then Some(AD_2) else None
  }

  /** Organic items that come before 1-indexed position pos. */
  function OrganicBefore(pos: nat): nat {
    if pos == 0 then 0 else if pos <= 3 then pos - 1 else if pos <= 8 then pos - 2 else pos - 3
  }

  /** The length of an untruncated page over n organic items. */
  function FullLength(n: nat): nat {
    n + (if n >= 2 then 1 else 0) + (if n >= 6 then 1 else 0)
  }

  /** A page over `items`: each slot holds its ad, or the next organic item in order. */
  ghost predicate IsPage(items: seq<FeedItem>, pageSize: nat, out: seq<FeedItem>) {
    && |out| == Min(FullLength(|items|), pageSize)
    && forall k :: 0 <= k < |out| ==> SlotOk(items, k, out[k])
  }

  predicate SlotOk(items: seq<FeedItem>, k: nat, item: FeedItem) {
    match AdAt(k + 1)
    case Some(ad) => item == ad
    case None => OrganicBefore(k + 1) < |items| && item == items[OrganicBefore(k + 1)]
  }

  method InsertAds(items: seq<FeedItem>, pageSize: nat) returns (out: seq<FeedItem>)
    ensures IsPage(items, pageSize, out)
    ensures |out| > 2 ==> out[2] == AD_1
    ensures |out| > 7 ==> out[7] == AD_2
    ensures forall k :: 0 <= k < |out| && k != 2 && k != 7 ==>
      var i := if k < 2 then k else if k < 7 then k - 1 else k - 2;
      i < |items| && out[k] == items[i]
    ensures |out| == pageSize || |out| == |items| + (if |items| >= 2 then 1 else 0) + (if |items| >= 6 then 1 else 0)
  {
    out := [];
    var organicIdx := 0;
    var pos := 1;
    while pos <= pageSize
      invariant 1 <= pos <= pageSize + 1
      invariant |out| == pos - 1 && organicIdx == OrganicBefore(pos) <= |items|
      invariant forall k :: 0 <= k < |out| ==> SlotOk(items, k, out[k])
    {
      var ad := AdAt(pos);
      if ad.Some? {
        out := out + [ad.value];
      } else {
        if organicIdx >= |items| {
          break;
        }
        out := out + [items[organicIdx]];
        organicIdx := organicIdx + 1;
      }
      pos := pos + 1;
    }
  }

  function Organic(out: seq<FeedItem>): seq<FeedItem> {
    if out == [] then []
    else
      var rest := Organic(out[..|out| - 1]);
      if out[|out| - 1].isAd then rest else rest + [out[|out| - 1]]
  }

  ghost predicate NoAds(items: seq<FeedItem>) {
    forall i :: 0 <= i < |items| ==> !items[i].isAd
  }

  lemma {:induction false} OrganicPrefix(items: seq<FeedItem>, pageSize: nat, out: seq<FeedItem>, n: nat)
    requires NoAds(items) && IsPage(items, pageSize, out) && n <= |out|
    ensures OrganicBefore(n + 1) <= |items|
    ensures Organic(out[..n]) == items[..OrganicBefore(n + 1)]
  {
    if n > 0 {
      OrganicPrefix(items, pageSize, out, n - 1);
      OrganicSnoc(out, n);
      SlotAdvances(items, n, out[n - 1]);
    }
  }

  /** A slot takes the next organic item, or an ad and no item. */
  lemma SlotAdvances(items: seq<FeedItem>, n: nat, item: FeedItem)
    requires NoAds(items) && n > 0 && OrganicBefore(n) <= |items| && SlotOk(items, n - 1, item)
    ensures OrganicBefore(n + 1) <= |items|
    ensures items[..OrganicBefore(n + 1)] == items[..OrganicBefore(n)] + if item.isAd then [] else [item]
  {}

  lemma OrganicSnoc(out: seq<FeedItem>, n: nat)
    requires 0 < n <= |out|
    ensures Organic(out[..n]) == Organic(out[..n - 1]) + if out[n - 1].isAd then [] else [out[n - 1]]
  {
    assert out[..n][..n - 1] == out[..n - 1];
  }

  /** Ads push organic items down but never replace, repeat or reorder them: a page's organic
      items are a prefix of the input, and all of it exactly when the input fits the page's
      organic slots. */
  lemma AdsLoseNothingIff(items: seq<FeedItem>, pageSize: nat, out: seq<FeedItem>)
    requires NoAds(items) && IsPage(items, pageSize, out)
    ensures Organic(out) <= items
    ensures Organic(out) == items <==> |items| <= OrganicBefore(pageSize + 1)
  {
    OrganicPrefix(items, pageSize, out, |out|);
    assert out[..|out|] == out;
  }

  /** The feed reserves two slots, so its pages are never cut: all organic items, one ad from two
      items on, the second from six on, within pageSize. */
  lemma ReservedSlotsSuffice(items: seq<FeedItem>, pageSize: nat, out: seq<FeedItem>)
    requires NoAds(items) && IsPage(items, pageSize, out) && |items| <= pageSize - 2
    ensures Organic(out) == items
    ensures |out| == |items| + (if |items| >= 2 then 1 else 0) + (if |items| >= 6 then 1 else 0) <= pageSize
    ensures forall k :: 0 <= k < |out| ==> (out[k].isAd <==> k + 1 == 3 || k + 1 == 8)
  {
    AdsLoseNothingIff(items, pageSize, out);
    forall k | 0 <= k < |out| ensures out[k].isAd <==> k + 1 == 3 || k + 1 == 8 {
      assert SlotOk(items, k, out[k]);
    }
  }
}
