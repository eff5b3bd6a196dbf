/** The feed read path: merge, seen filter, hydrate, rank, author cap, cursor window, ads, mark
    seen (feed_service.go, seen_state_repo.go, and the sort of ranking-service's main.rs). */
module Feed {
  import opened Prelude
  import opened Inbox
  import opened Diversity

  datatype PostMeta = PostMeta(
    postID: string, authorID: string, mediaURL: string, caption: string,
    likeCount: int, commentCount: int, createdAt: int)

  datatype Config = Config(pageSize: int, maxPerAuthor: int, ttlSeconds: nat)

  // ---------- stage 2: merge and dedupe ----------

  /** Post IDs in order of first appearance. */
  function FirstSeen(cands: seq<Candidate>): seq<string> {
    if cands == [] then []
    else
      var rest := FirstSeen(cands[..|cands| - 1]);
      var id := cands[|cands| - 1].postID;
      if id in rest then rest else rest + [id]
  }

  /** The source recorded for each post: that of its first candidate. */
  function FirstSource(cands: seq<Candidate>): map<string, string> {
    if cands == [] then map[]
    else
      var rest := FirstSource(cands[..|cands| - 1]);
      var c := cands[|cands| - 1];
      if c.postID in rest then rest else rest[c.postID := c.source]
  }

  lemma {:induction false} FirstSeenSpec(cands: seq<Candidate>)
    ensures Distinct(FirstSeen(cands))
    ensures forall id :: id in FirstSeen(cands) <==> exists i :: 0 <= i < |cands| && cands[i].postID == id
    ensures FirstSource(cands).Keys == SetOf(FirstSeen(cands))
  {
    if cands != [] {
      var n := |cands| - 1;
      FirstSeenSpec(cands[..n]);
      assert forall i :: 0 <= i < n ==> cands[..n][i] == cands[i];
    }
  }

  /** Later candidates never disturb the order or the sources of earlier ones. */
  lemma {:induction false} FirstSeenGrows(before: seq<Candidate>, rest: seq<Candidate>)
    ensures FirstSeen(before) <= FirstSeen(before + rest)
    ensures forall id :: id in FirstSource(before) ==>
      id in FirstSource(before + rest) && FirstSource(before + rest)[id] == FirstSource(before)[id]
  {
    if rest == [] {
      assert before + rest == before;
    } else {
      var all := before + rest;
      FirstSeenGrows(before, rest[..|rest| - 1]);
      assert all[..|all| - 1] == before + rest[..|rest| - 1];
    }
  }

  /** A post takes its place in the list and its source from its first candidate. */
  lemma FirstCandidateWins(before: seq<Candidate>, c: Candidate, rest: seq<Candidate>)
    requires forall j :: 0 <= j < |before| ==> before[j].postID != c.postID
    ensures FirstSeen(before) + [c.postID] <= FirstSeen(before + [c] + rest)
    ensures c.postID in FirstSource(before + [c] + rest) && FirstSource(before + [c] + rest)[c.postID] == c.source
  {
    NewCandidate(before, c);
    FirstSeenGrows(before + [c], rest);
  }

  lemma NewCandidate(before: seq<Candidate>, c: Candidate)
    requires forall j :: 0 <= j < |before| ==> before[j].postID != c.postID
    ensures FirstSeen(before + [c]) == FirstSeen(before) + [c.postID]
    ensures FirstSource(before + [c]) == FirstSource(before)[c.postID := c.source]
  {
    FirstSeenSpec(before);
    assert (before + [c])[..|before|] == before;
  }

  function Concat<T>(groups: seq<seq<T>>): seq<T> {
    if groups == [] then [] else Concat(groups[..|groups| - 1]) + groups[|groups| - 1]
  }

  lemma ConcatNext<T>(groups: seq<seq<T>>, g: nat)
    requires g < |groups|
    ensures Concat(groups[..g + 1]) == Concat(groups[..g]) + groups[g]
  {
    assert groups[..g + 1][..g] == groups[..g];
  }

  method Merge(groups: seq<seq<Candidate>>) returns (ordered: seq<string>, sources: map<string, string>)
    ensures ordered == FirstSeen(Concat(groups)) && sources == FirstSource(Concat(groups))
  {
    ordered, sources := [], map[];
    for g := 0 to |groups|
      invariant ordered == FirstSeen(Concat(groups[..g])) && sources == FirstSource(Concat(groups[..g]))
    {
      ConcatNext(groups, g);
      ordered, sources := MergeGroup(Concat(groups[..g]), groups[g], ordered, sources);
    }
    assert groups[..|groups|] == groups;
  }

  /** The inner loop, over one source's candidates. */
  method MergeGroup(ghost before: seq<Candidate>, group: seq<Candidate>,
                    ordered0: seq<string>, sources0: map<string, string>)
    returns (ordered: seq<string>, sources: map<string, string>)
    requires ordered0 == FirstSeen(before) && sources0 == FirstSource(before)
    ensures ordered == FirstSeen(before + group) && sources == FirstSource(before + group)
  {
    ordered, sources := ordered0, sources0;
    assert before + group[..0] == before;
    for i := 0 to |group|
      invariant ordered == FirstSeen(before + group[..i]) && sources == FirstSource(before + group[..i])
    {
      MergeNext(before, group, i);
      if group[i].postID in sources {
        continue;
      }
      sources := sources[group[i].postID := group[i].source];
      ordered := ordered + [group[i].postID];
    }
    assert group[..|group|] == group;
  }

  lemma MergeNext(before: seq<Candidate>, group: seq<Candidate>, i: nat)
    requires i < |group|
    ensures var now := before + group[..i];
      var next := before + group[..i + 1];
      var id := group[i].postID;
      && (id in FirstSource(now) <==> id in FirstSeen(now))
      && FirstSeen(next) == (if id in FirstSeen(now) then FirstSeen(now) else FirstSeen(now) + [id])
      && FirstSource(next)
         == (if id in FirstSource(now) then FirstSource(now) else FirstSource(now)[id := group[i].source])
  {
    var now, next := before + group[..i], before + group[..i + 1];
    assert next[..|next| - 1] == now;
    FirstSeenSpec(now);
  }

  // ---------- stage 3: seen filter ----------

  /** Never shown, or shown before the cutoff. */
  predicate Fresh(seen: map<string, int>, id: string, cutoff: int) {
    id !in seen || seen[id] < cutoff
  }

  function Unseen(seen: map<string, int>, ids: seq<string>, cutoff: int): seq<string> {
    if ids == [] then []
    else
      var rest := Unseen(seen, ids[..|ids| - 1], cutoff);
      if Fresh(seen, ids[|ids| - 1], cutoff) then rest + [ids[|ids| - 1]] else rest
  }

  function Cutoff(now: int, ttlSeconds: nat): int {
    now - ttlSeconds * 1000
  }

  method FilterUnseen(seen: map<string, int>, ids: seq<string>, now: int, ttlSeconds: nat) returns (out: seq<string>)
    ensures out == Unseen(seen, ids, Cutoff(now, ttlSeconds))
  {
    var cutoff := now - ttlSeconds * 1000;
    out := [];
    for i := 0 to |ids|
      invariant out == Unseen(seen, ids[..i], cutoff)
    {
      assert ids[..i + 1][..i] == ids[..i];
      if ids[i] !in seen || seen[ids[i]] < cutoff {
        out := out + [ids[i]];
      }
    }
    assert ids[..|ids|] == ids;
  }

  lemma {:induction false} UnseenHolds(seen: map<string, int>, ids: seq<string>, cutoff: int, id: string)
    ensures id in Unseen(seen, ids, cutoff) <==> id in ids && Fresh(seen, id, cutoff)
  {
    if ids != [] { UnseenHolds(seen, ids[..|ids| - 1], cutoff, id); }
  }

  // ---------- stage 8: mark seen ----------

  function MarkAll(seen: map<string, int>, ids: seq<string>, now: int): map<string, int> {
    if ids == [] then seen else MarkAll(seen, ids[..|ids| - 1], now)[ids[|ids| - 1] := now]
  }

  lemma {:induction false} MarkAllSpec(seen: map<string, int>, ids: seq<string>, now: int, id: string)
    ensures var after := MarkAll(seen, ids, now);
      if id in ids then id in after && after[id] == now
      else (id in after <==> id in seen) && (id in seen ==> after[id] == seen[id])
  {
    if ids != [] { MarkAllSpec(seen, ids[..|ids| - 1], now, id); }
  }

  lemma MarkedOnly(seen: map<string, int>, ids: seq<string>, n: nat, now: int)
    requires n <= |ids|
    ensures var after := MarkAll(seen, ids[..n], now);
      && (n == |ids| ==> forall id :: id in ids ==> id in after && after[id] == now)
      && forall id :: id !in ids ==> (id in after <==> id in seen) && (id in seen ==> after[id] == seen[id])
  {
    forall id
      ensures var after := MarkAll(seen, ids[..n], now);
        && (n == |ids| && id in ids ==> id in after && after[id] == now)
        && (id !in ids ==> (id in after <==> id in seen) && (id in seen ==> after[id] == seen[id]))
    {
      MarkAllSpec(seen, ids[..n], now, id);
      assert n == |ids| ==> ids[..n] == ids;
    }
  }

  // ---------- stages 4 and 5: hydrate and rank ----------

  /** The rows found for the unseen posts, with their counters (zero when absent). */
  function Hydrated(catalog: map<string, PostMeta>, unseen: seq<string>,
                    likes: map<string, int>, comments: map<string, int>)
    : map<string, PostMeta>
  {
    map id | id in catalog && id in unseen :: catalog[id].(
      likeCount := if id in likes then likes[id] else 0,
      commentCount := if id in comments then comments[id] else 0)
  }

  function IDs(items: seq<RankedItem>): seq<string> {
    seq(|items|, i requires 0 <= i < |items| => items[i].postID)
  }

  predicate DistinctPosts(items: seq<RankedItem>) {
    forall i, j :: 0 <= i < j < |items| ==> items[i].postID != items[j].postID
  }

  predicate Lists(items: seq<RankedItem>, id: string) {
    exists i :: 0 <= i < |items| && items[i].postID == id
  }

  predicate Describes(metas: map<string, PostMeta>, sources: map<string, string>, item: RankedItem) {
    && item.postID in metas && item.authorID == metas[item.postID].authorID
    && item.source == SourceOf(sources, item.postID)
  }

  /** What the ranking call may return: every hydrated post once, best score first, in any order
      among equal scores. */
  ghost predicate IsRanking(metas: map<string, PostMeta>, sources: map<string, string>, ranked: seq<RankedItem>) {
    && SortedDescending(ranked) && DistinctPosts(ranked)
    && (forall i :: 0 <= i < |ranked| ==> Describes(metas, sources, ranked[i]))
    && (forall id :: id in metas ==> Lists(ranked, id))
  }

  lemma IDsList(items: seq<RankedItem>)
    ensures forall id :: id in IDs(items) <==> Lists(items, id)
    ensures DistinctPosts(items) ==> Distinct(IDs(items))
  {
    forall id ensures id in IDs(items) <==> Lists(items, id) {
      if i :| 0 <= i < |items| && items[i].postID == id {
        assert IDs(items)[i] == id;
      }
    }
  }

  function SourceOf(sources: map<string, string>, id: string): string {
    if id in sources then sources[id] else ""
  }

  /** rank: score each candidate, taken in arbitrary map order, and sort by descending score. */
  method Rank(metas: map<string, PostMeta>, sources: map<string, string>, score: PostMeta -> real)
    returns (ranked: seq<RankedItem>)
    ensures IsRanking(metas, sources, ranked)
    ensures forall i :: 0 <= i < |ranked| ==>
      ranked[i].postID in metas && ranked[i].score == score(metas[ranked[i].postID])
  {
    ranked := [];
    var rest := metas.Keys;
    while rest != {}
      invariant rest <= metas.Keys
      invariant forall x :: x in ranked ==> x.postID in metas && x.score == score(metas[x.postID])
      invariant SortedDescending(ranked)
      invariant RanksPart(metas, sources, rest, ranked)
    {
      ghost var some := Inhabitant(rest);
      var id :| id in rest;
      var item := RankedItem(id, metas[id].authorID, SourceOf(sources, id), score(metas[id]));
      var k := Position(ranked, item.score);
      InsertSorted(ranked, item, k);
      InsertRanked(metas, sources, rest, ranked, item, k);
      ranked := ranked[..k] + [item] + ranked[k..];
      rest := rest - {id};
    }
  }

  /** Where the sort puts a score: after everything that is not lower. */
  method Position(ranked: seq<RankedItem>, score: real) returns (k: nat)
    requires SortedDescending(ranked)
    ensures k <= |ranked|
    ensures forall j :: 0 <= j < k ==> ranked[j].score >= score
    ensures forall j :: k <= j < |ranked| ==> ranked[j].score < score
  {
    k := |ranked|;
    while k > 0 && ranked[k - 1].score < score
      invariant 0 <= k <= |ranked|
      invariant forall j :: k <= j < |ranked| ==> ranked[j].score < score
    {
      k := k - 1;
    }
  }

  /** ranked lists, once each, the posts of metas that are not left in rest. */
  ghost predicate RanksPart(metas: map<string, PostMeta>, sources: map<string, string>, rest: set<string>,
                            ranked: seq<RankedItem>)
  {
    && DistinctPosts(ranked)
    && (forall i :: 0 <= i < |ranked| ==> Describes(metas, sources, ranked[i]) && ranked[i].postID !in rest)
    && (forall id :: id in metas && id !in rest ==> Lists(ranked, id))
  }

  lemma InsertSorted(ranked: seq<RankedItem>, item: RankedItem, k: nat)
    requires SortedDescending(ranked) && k <= |ranked|
    requires forall j :: 0 <= j < k ==> ranked[j].score >= item.score
    requires forall j :: k <= j < |ranked| ==> ranked[j].score < item.score
    ensures SortedDescending(ranked[..k] + [item] + ranked[k..])
  {}

  lemma InsertRanked(metas: map<string, PostMeta>, sources: map<string, string>, rest: set<string>,
                     ranked: seq<RankedItem>, item: RankedItem, k: nat)
    requires RanksPart(metas, sources, rest, ranked) && k <= |ranked|
    requires item.postID in rest && Describes(metas, sources, item)
    ensures RanksPart(metas, sources, rest - {item.postID}, ranked[..k] + [item] + ranked[k..])
  {
    var out := ranked[..k] + [item] + ranked[k..];
    InsertDistinct(ranked, item, k);
    forall i | 0 <= i < |out| ensures Describes(metas, sources, out[i]) && out[i].postID !in rest - {item.postID} {
      assert out[i] == if i < k then ranked[i] else if i == k then item else ranked[i - 1];
    }
    forall id | id in metas && id !in rest - {item.postID} ensures Lists(out, id) {
      if id == item.postID {
        assert out[k].postID == id;
      } else {
        assert Lists(ranked, id);
        var i :| 0 <= i < |ranked| && ranked[i].postID == id;
        assert out[if i < k then i else i + 1] == ranked[i];
      }
    }
  }

  lemma InsertDistinct(ranked: seq<RankedItem>, item: RankedItem, k: nat)
    requires DistinctPosts(ranked) && k <= |ranked|
    requires forall i :: 0 <= i < |ranked| ==> ranked[i].postID != item.postID
    ensures DistinctPosts(ranked[..k] + [item] + ranked[k..])
  {
    var out := ranked[..k] + [item] + ranked[k..];
    assert forall j :: 0 <= j < |out| ==> out[j] == if j < k then ranked[j] else if j == k then item else ranked[j - 1];
  }

  // ---------- stage 6: cursor window ----------

  function WindowStart(length: nat, offset: nat): nat {
    if offset > length then length else offset
  }

  function WindowEnd(length: nat, offset: nat, pageSize: int): int {
    var end := WindowStart(length, offset) + pageSize - 2;
    if end > length then length else end
  }

  /** With two slots to reserve the slice bounds are always legal; with fewer, a cursor exists
      that makes the slice panic. */
  lemma WindowLegalIff(pageSize: int)
    ensures pageSize >= 2 <==>
      forall length: nat, offset: nat ::
        0 <= WindowStart(length, offset) <= WindowEnd(length, offset, pageSize) <= length
  {
    if pageSize < 2 {
      assert !(WindowStart(0, 0) <= WindowEnd(0, 0, pageSize));
    }
  }

  function Window(items: seq<RankedItem>, offset: nat, pageSize: int): seq<RankedItem>
    requires pageSize >= 2
  {
    items[WindowStart(|items|, offset)..WindowEnd(|items|, offset, pageSize)]
  }

  // ---------- the call ----------

  /** What a call finds: the candidates of its three sources, the rows behind them, and when it
      reads and writes the seen set. */
  datatype Request = Request(
    offset: nat, groups: seq<seq<Candidate>>, catalog: map<string, PostMeta>,
    likes: map<string, int>, comments: map<string, int>, filterAt: int, markAt: int)

  /** Failures: an undecodable cursor, a failed hydration or a failed ranking fail the call; a failed
      filter lets everything through; a failed cursor encoding is only logged, and so is a marking
      pipeline that breaks after `mark` of its ZADDs. */
  datatype Outage = Outage(decode: bool, filter: bool, hydrate: bool, rank: bool, mark: Option<nat>, encode: bool)

  function Metas(cfg: Config, seen: map<string, int>, r: Request, filterDown: bool): map<string, PostMeta> {
    var ordered := FirstSeen(Concat(r.groups));
    var unseen := if filterDown then ordered else Unseen(seen, ordered, Cutoff(r.filterAt, cfg.ttlSeconds));
    Hydrated(r.catalog, unseen, r.likes, r.comments)
  }

  /** A successful call, given the ranking it received: its organic page. */
  ghost predicate Serves(cfg: Config, seen: map<string, int>, r: Request, filterDown: bool,
                         ranked: seq<RankedItem>, page: seq<RankedItem>)
    requires cfg.pageSize >= 2
  {
    && IsRanking(Metas(cfg, seen, r, filterDown), FirstSource(Concat(r.groups)), ranked)
    && page == Window(Kept(ranked, cfg.maxPerAuthor), r.offset, cfg.pageSize)
  }

  function ItemOf(r: RankedItem, metas: map<string, PostMeta>, liked: set<string>): FeedItem
    requires r.postID in metas
  {
    var m := metas[r.postID];
    FeedItem(r.postID, r.authorID, m.mediaURL, m.caption, m.likeCount, m.commentCount,
             r.source, r.score, false, m.createdAt, r.postID in liked)
  }

  /** The feed items of a page, in order. */
  ghost predicate ItemsOf(page: seq<RankedItem>, metas: map<string, PostMeta>, liked: set<string>,
                          items: seq<FeedItem>)
  {
    && |items| == |page|
    && forall i :: 0 <= i < |page| ==> page[i].postID in metas && items[i] == ItemOf(page[i], metas, liked)
  }

  /** The offset that the returned token stands for: an empty token decodes to 0. */
  datatype Response = Response(items: seq<FeedItem>, nextOffset: int) | Failed

  /** The call is the next step of every legal history that led to the seen set it found. */
  ghost predicate NextInHistory(cfg: Config, seen: map<string, int>, c: Call, after: map<string, int>)
    requires cfg.pageSize >= 2
  {
    forall h :: Legal(cfg, h) && SeenAfter(h) == seen && MarkedBy(h, c.request.filterAt) ==>
      Legal(cfg, Served(h, c)) && SeenAfter(Served(h, c)) == after
  }

  lemma ServedIsNext(cfg: Config, seen: map<string, int>, c: Call)
    requires cfg.pageSize >= 2 && Serves(cfg, seen, c.request, false, c.ranked, c.page)
    requires c.request.filterAt <= c.request.markAt
    ensures NextInHistory(cfg, seen, c, MarkAll(seen, IDs(c.page), c.request.markAt))
  {}

  class FeedService {
    const cfg: Config
    const score: PostMeta -> real
    var seen: map<string, map<string, int>>

    constructor (cfg: Config, score: PostMeta -> real)
      ensures this.cfg == cfg && this.score == score && seen == map[]
    {
      this.cfg, this.score := cfg, score;
      seen := map[];
    }

    function SeenBy(user: string): map<string, int>
      reads this
    {
      if user in seen then seen[user] else map[]
    }

    /** GetFeed. The response holds exactly the page's organic items, in rank order, plus ads, and
        exactly those organic posts are marked seen. */
    method GetFeed(user: string, r: Request, liked: set<string>, outage: Outage)
      returns (res: Response, ghost ranked: seq<RankedItem>, ghost page: seq<RankedItem>)
      requires cfg.pageSize >= 2
      modifies this
      ensures res.Failed? <==>
        outage.decode || outage.hydrate || (outage.rank && Metas(cfg, old(SeenBy(user)), r, outage.filter) != map[])
      ensures res.Failed? ==> seen == old(seen)
      ensures res.Response? ==> Serves(cfg, old(SeenBy(user)), r, outage.filter, ranked, page)
      ensures res.Response? ==>
        var metas := Metas(cfg, old(SeenBy(user)), r, outage.filter);
        forall i :: 0 <= i < |ranked| ==>
          ranked[i].postID in metas && ranked[i].score == score(metas[ranked[i].postID])
      ensures res.Response? ==>
        ItemsOf(page, Metas(cfg, old(SeenBy(user)), r, outage.filter), liked, Organic(res.items))
      ensures res.Response? ==>
        |res.items| == |page| + (if |page| >= 2 then 1 else 0) + (if |page| >= 6 then 1 else 0) <= cfg.pageSize
      ensures res.Response? ==> forall k :: 0 <= k < |res.items| ==> (res.items[k].isAd <==> k == 2 || k == 7)
      ensures res.Response? ==>
        res.nextOffset
          == if outage.encode then 0 else WindowEnd(|Kept(ranked, cfg.maxPerAuthor)|, r.offset, cfg.pageSize)
      ensures res.Response? ==>
        SeenBy(user) == MarkAll(old(SeenBy(user)), IDs(page)[..Sent(outage.mark, |page|)], r.markAt)
      ensures res.Response? && outage.mark.None? ==>
        SeenBy(user) == MarkAll(old(SeenBy(user)), IDs(page), r.markAt)
      ensures res.Response? && outage.mark.None? && !outage.filter && r.filterAt <= r.markAt ==>
        NextInHistory(cfg, old(SeenBy(user)), Call(r, ranked, page), SeenBy(user))
      ensures forall u :: u != user ==> SeenBy(u) == old(SeenBy(u))
    {
      ranked, page := [], [];
      if outage.decode {
        return Failed, ranked, page;
      }
      var metas, sources := Gather(SeenBy(user), r, outage.filter);
      if outage.hydrate || (outage.rank && metas != map[]) {
        return Failed, ranked, page;
      }
      var ranking, slice, end := RankAndCut(metas, sources, r.offset);
      var items := Render(slice, metas, liked);
      var logged := MarkSeen(user, IDs(slice), r.markAt, outage.mark);
      ranked, page := ranking, slice;
      assert IDs(slice)[..|slice|] == IDs(slice);
      if !outage.filter && r.filterAt <= r.markAt {
        ServedIsNext(cfg, old(SeenBy(user)), Call(r, ranked, page));
      }
      res := Response(items, if outage.encode then 0 else end);
    }

    /** Stages 2 to 4; the batch lookup itself is the caller's `r.catalog`. */
    method Gather(seenByUser: map<string, int>, r: Request, filterDown: bool)
      returns (metas: map<string, PostMeta>, sources: map<string, string>)
      ensures metas == Metas(cfg, seenByUser, r, filterDown) && sources == FirstSource(Concat(r.groups))
    {
      var ordered: seq<string>;
      ordered, sources := Merge(r.groups);
      var unseen := ordered;
      if !filterDown {
        unseen := FilterUnseen(seenByUser, ordered, r.filterAt, cfg.ttlSeconds);
      }
      metas := Hydrated(r.catalog, unseen, r.likes, r.comments);
    }

    /** Stages 5 and 6. */
    method RankAndCut(metas: map<string, PostMeta>, sources: map<string, string>, offset: nat)
      returns (ranked: seq<RankedItem>, page: seq<RankedItem>, end: int)
      requires cfg.pageSize >= 2
      ensures IsRanking(metas, sources, ranked)
      ensures forall i :: 0 <= i < |ranked| ==>
        ranked[i].postID in metas && ranked[i].score == score(metas[ranked[i].postID])
      ensures page == Window(Kept(ranked, cfg.maxPerAuthor), offset, cfg.pageSize)
      ensures end == WindowEnd(|Kept(ranked, cfg.maxPerAuthor)|, offset, cfg.pageSize)
      ensures |page| <= cfg.pageSize - 2 && forall i :: 0 <= i < |page| ==> page[i].postID in metas
    {
      ranked := [];
      if metas != map[] {
        ranked := Rank(metas, sources, score);
      }
      var diversified := ApplyDiversity(ranked, cfg.maxPerAuthor);
      var start := offset;
      if start > |diversified| {
        start := |diversified|;
      }
      end := start + cfg.pageSize - 2;
      if end > |diversified| {
        end := |diversified|;
      }
      page := diversified[start..end];
      PageFromRanking(metas, sources, ranked, cfg.maxPerAuthor, start, end);
    }

    /** Stage 7 over the built feed items. */
    method Render(page: seq<RankedItem>, metas: map<string, PostMeta>, liked: set<string>) returns (out: seq<FeedItem>)
      requires |page| <= cfg.pageSize - 2 && forall i :: 0 <= i < |page| ==> page[i].postID in metas
      ensures ItemsOf(page, metas, liked, Organic(out))
      ensures |out| == |page| + (if |page| >= 2 then 1 else 0) + (if |page| >= 6 then 1 else 0) <= cfg.pageSize
      ensures forall k :: 0 <= k < |out| ==> (out[k].isAd <==> k == 2 || k == 7)
    {
      var items := BuildItems(page, metas, liked);
      out := InsertAds(items, cfg.pageSize);
      ReservedSlotsSuffice(items, cfg.pageSize, out);
    }

    /** A pipeline is no transaction: one that breaks leaves the marks the server already set. */
    method MarkSeen(user: string, ids: seq<string>, now: int, broken: Option<nat>) returns (ok: bool)
      modifies this
      ensures SeenBy(user) == MarkAll(old(SeenBy(user)), ids[..Sent(broken, |ids|)], now)
      ensures broken.None? ==> forall id :: id in ids ==> id in SeenBy(user) && SeenBy(user)[id] == now
      ensures forall id :: id !in ids ==>
        (id in SeenBy(user) <==> id in old(SeenBy(user)))
        && (id in SeenBy(user) ==> SeenBy(user)[id] == old(SeenBy(user))[id])
      ensures ok == (ids == [] || broken.None?)
      ensures forall u :: u != user ==> SeenBy(u) == old(SeenBy(u))
    {
      if |ids| == 0 {
        return true;
      }
      var z := SeenBy(user);
      for i := 0 to Sent(broken, |ids|)
        invariant z == MarkAll(old(SeenBy(user)), ids[..i], now)
      {
        assert ids[..i + 1][..i] == ids[..i];
        z := z[ids[i] := now];
      }
      seen := seen[user := z];
      MarkedOnly(old(SeenBy(user)), ids, Sent(broken, |ids|), now);
      return broken.None?;
    }

    method BuildItems(page: seq<RankedItem>, metas: map<string, PostMeta>, liked: set<string>)
      returns (items: seq<FeedItem>)
      requires forall i :: 0 <= i < |page| ==> page[i].postID in metas
      ensures ItemsOf(page, metas, liked, items) && NoAds(items)
    {
      items := [];
      for i := 0 to |page|
        invariant |items| == i
        invariant forall j :: 0 <= j < i ==> items[j] == ItemOf(page[j], metas, liked)
      {
        items := items + [ItemOf(page[i], metas, liked)];
      }
    }
  }

  lemma PageFromRanking(metas: map<string, PostMeta>, sources: map<string, string>, ranked: seq<RankedItem>,
                        cap: int, start: nat, end: nat)
    requires IsRanking(metas, sources, ranked) && start <= end <= |Kept(ranked, cap)|
    ensures var page := Kept(ranked, cap)[start..end];
      DistinctPosts(page) && forall i :: 0 <= i < |page| ==> page[i].postID in metas
  {
    KeptDistinct(ranked, cap);
    var page := Kept(ranked, cap)[start..end];
    forall i | 0 <= i < |page| ensures page[i].postID in metas {
      assert page[i] == Kept(ranked, cap)[start + i];
      assert page[i] in ranked;
      var j :| 0 <= j < |ranked| && ranked[j] == page[i];
    }
  }

  lemma KeptDistinct(ranked: seq<RankedItem>, cap: int)
    requires DistinctPosts(ranked)
    ensures DistinctPosts(Kept(ranked, cap))
    ensures forall x :: x in Kept(ranked, cap) ==> x in ranked
  {
    var at, kept := KeptAt(ranked, cap), Kept(ranked, cap);
    KeptIsSubsequence(ranked, cap);
    assert |kept| == |at| && forall i :: 0 <= i < |kept| ==> kept[i] == ranked[at[i]];
    forall i, j | 0 <= i < j < |kept| ensures kept[i].postID != kept[j].postID {
      assert at[i] < at[j];
    }
  }

  // ---------- runs for one user ----------

  datatype Call = Call(request: Request, ranked: seq<RankedItem>, page: seq<RankedItem>)

  /** The calls made so far, latest last; Reset is the demo endpoint that clears the seen set. */
  datatype History = Start(seen: map<string, int>) | Served(before: History, call: Call) | Reset(before: History)

  function SeenAfter(h: History): map<string, int> {
    match h
    case Start(seen) => seen
    case Served(b, c) => MarkAll(SeenAfter(b), IDs(c.page), c.request.markAt)
    case Reset(b) => map[]
  }

  /** Every call was served without outage from the seen set its predecessors left, on a clock
      that does not step back. */
  ghost predicate Legal(cfg: Config, h: History)
    requires cfg.pageSize >= 2
  {
    match h
    case Start(_) => true
    case Served(b, c) =>
      && Legal(cfg, b) && Serves(cfg, SeenAfter(b), c.request, false, c.ranked, c.page)
      && c.request.filterAt <= c.request.markAt && MarkedBy(b, c.request.filterAt)
    case Reset(b) => Legal(cfg, b)
  }

  /** No earlier call marked later than `now`. */
  predicate MarkedBy(h: History, now: int) {
    match h
    case Start(_) => true
    case Served(b, c) => MarkedBy(b, now) && c.request.markAt <= now
    case Reset(b) => MarkedBy(b, now)
  }

  /** Some call since the last reset returned `id`, marking it at time `m`. */
  predicate ShownAt(h: History, id: string, m: int) {
    match h
    case Start(_) => false
    case Served(b, c) => (id in IDs(c.page) && c.request.markAt == m) || ShownAt(b, id, m)
    case Reset(b) => false
  }

  lemma {:induction false} SeenRemembers(cfg: Config, h: History, id: string, m: int)
    requires cfg.pageSize >= 2 && Legal(cfg, h) && ShownAt(h, id, m)
    ensures id in SeenAfter(h) && SeenAfter(h)[id] >= m
  {
    match h
    case Served(b, c) =>
      MarkAllSpec(SeenAfter(b), IDs(c.page), c.request.markAt, id);
      if ShownAt(b, id, m) {
        SeenRemembers(cfg, b, id, m);
        ShownBefore(b, id, m, c.request.filterAt);
      }
  }

  lemma {:induction false} ShownBefore(h: History, id: string, m: int, now: int)
    requires MarkedBy(h, now) && ShownAt(h, id, m)
    ensures m <= now
  {
    match h
    case Served(b, c) => if ShownAt(b, id, m) { ShownBefore(b, id, m, now); }
  }

  /** A served page: distinct posts, each a fresh candidate with a row. */
  lemma ServedPage(cfg: Config, seen: map<string, int>, r: Request, ranked: seq<RankedItem>, page: seq<RankedItem>)
    requires cfg.pageSize >= 2 && Serves(cfg, seen, r, false, ranked, page)
    ensures Distinct(IDs(page))
    ensures forall id :: id in IDs(page) ==>
      id in FirstSeen(Concat(r.groups)) && id in r.catalog && Fresh(seen, id, Cutoff(r.filterAt, cfg.ttlSeconds))
  {
    var kept := Kept(ranked, cfg.maxPerAuthor);
    PageFromRanking(Metas(cfg, seen, r, false), FirstSource(Concat(r.groups)), ranked, cfg.maxPerAuthor,
                    WindowStart(|kept|, r.offset), WindowEnd(|kept|, r.offset, cfg.pageSize));
    IDsList(page);
    forall id | id in IDs(page)
      ensures id in FirstSeen(Concat(r.groups)) && id in r.catalog
      ensures Fresh(seen, id, Cutoff(r.filterAt, cfg.ttlSeconds))
    {
      UnseenHolds(seen, FirstSeen(Concat(r.groups)), Cutoff(r.filterAt, cfg.ttlSeconds), id);
    }
  }

  /** No repeats within the TTL: in any run, with any cursors and any change of candidates and
      rows between calls, a post returned again was last returned more than the TTL ago. */
  lemma NoRepeatWithinTTL(cfg: Config, b: History, c: Call, id: string, m: int)
    requires cfg.pageSize >= 2 && Legal(cfg, Served(b, c))
    requires id in IDs(c.page) && ShownAt(b, id, m)
    ensures c.request.filterAt - m > cfg.ttlSeconds * 1000
  {
    ServedPage(cfg, SeenAfter(b), c.request, c.ranked, c.page);
    SeenRemembers(cfg, b, id, m);
  }

  /** The cursor that a call issues. */
  function Issued(cfg: Config, c: Call): int {
    WindowEnd(|Kept(c.ranked, cfg.maxPerAuthor)|, c.request.offset, cfg.pageSize)
  }

  /** A cursor does not pick up where the last page left off: it counts from the top of a list
      from which the returned posts have already been filtered out. Following the issued cursor
      inside the TTL passes over the best `start` unseen posts, which neither page returns; none
      is passed over exactly when that number is zero. */
  lemma CursorPassesOver(cfg: Config, b: History, c1: Call, c2: Call)
    requires cfg.pageSize >= 2 && Legal(cfg, Served(Served(b, c1), c2))
    requires c2.request.offset == Issued(cfg, c1) && Cutoff(c2.request.filterAt, cfg.ttlSeconds) <= c1.request.markAt
    ensures var kept := Kept(c2.ranked, cfg.maxPerAuthor);
      var start := WindowStart(|kept|, c2.request.offset);
      && (forall i :: 0 <= i < start ==> kept[i].postID !in IDs(c1.page) && kept[i].postID !in IDs(c2.page))
      && (start == 0 <==> Issued(cfg, c1) == 0 || kept == [])
  {
    var seen := SeenAfter(Served(b, c1));
    var kept := Kept(c2.ranked, cfg.maxPerAuthor);
    var start := WindowStart(|kept|, c2.request.offset);
    KeptDistinct(c2.ranked, cfg.maxPerAuthor);
    forall i | 0 <= i < start ensures kept[i].postID !in IDs(c1.page) && kept[i].postID !in IDs(c2.page) {
      KeptIsFresh(cfg, seen, c2.request, c2.ranked, kept[i]);
      MarkAllSpec(SeenAfter(b), IDs(c1.page), c1.request.markAt, kept[i].postID);
      OutsideWindow(kept, start, WindowEnd(|kept|, c2.request.offset, cfg.pageSize), i);
    }
  }

  lemma OutsideWindow(items: seq<RankedItem>, start: nat, end: nat, i: nat)
    requires DistinctPosts(items) && i < start <= end <= |items|
    ensures items[i].postID !in IDs(items[start..end])
  {
    IDsList(items[start..end]);
  }

  lemma KeptIsFresh(cfg: Config, seen: map<string, int>, r: Request, ranked: seq<RankedItem>, item: RankedItem)
    requires IsRanking(Metas(cfg, seen, r, false), FirstSource(Concat(r.groups)), ranked)
    requires item in Kept(ranked, cfg.maxPerAuthor)
    ensures Fresh(seen, item.postID, Cutoff(r.filterAt, cfg.ttlSeconds))
  {
    KeptDistinct(ranked, cfg.maxPerAuthor);
    var j :| 0 <= j < |ranked| && ranked[j] == item;
    assert item.postID in Metas(cfg, seen, r, false);
    UnseenHolds(seen, FirstSeen(Concat(r.groups)), Cutoff(r.filterAt, cfg.ttlSeconds), item.postID);
  }

  // ---------- draining a fixed pool ----------

  /** Every call finds exactly the posts of the pool, all calls fall within one TTL, and whatever
      was seen before the run has expired by then. */
  ghost predicate OnPool(cfg: Config, h: History, pool: set<string>, from: int)
    requires cfg.pageSize >= 2
  {
    match h
    case Start(seen) => true
    case Served(b, c) =>
      && OnPool(cfg, b, pool, from) && Serves(cfg, SeenAfter(b), c.request, false, c.ranked, c.page)
      && Available(c.request) == pool
      && from <= c.request.markAt && Cutoff(c.request.filterAt, cfg.ttlSeconds) <= from
      && forall id :: id in pool ==> Fresh(Origin(h), id, Cutoff(c.request.filterAt, cfg.ttlSeconds))
    case Reset(b) => false
  }

  /** Every call asks from the top. */
  predicate FromTop(h: History) {
    match h
    case Start(_) => true
    case Served(b, c) => FromTop(b) && c.request.offset == 0
    case Reset(b) => FromTop(b)
  }

  ghost predicate Draining(cfg: Config, h: History, pool: set<string>, from: int)
    requires cfg.pageSize >= 2
  {
    OnPool(cfg, h, pool, from) && FromTop(h)
  }

  function Origin(h: History): map<string, int> {
    match h
    case Start(seen) => seen
    case Served(b, _) => Origin(b)
    case Reset(b) => Origin(b)
  }

  /** Candidates that have a row. */
  function Available(r: Request): set<string> {
    set id | id in FirstSeen(Concat(r.groups)) && id in r.catalog
  }

  function Delivered(h: History): set<string> {
    match h
    case Start(_) => {}
    case Served(b, c) => Delivered(b) + SetOf(IDs(c.page))
    case Reset(b) => Delivered(b)
  }

  function Returned(h: History): nat {
    match h
    case Start(_) => 0
    case Served(b, c) => Returned(b) + |c.page|
    case Reset(b) => Returned(b)
  }

  function Calls(h: History): nat {
    match h
    case Start(_) => 0
    case Served(b, _) => Calls(b) + 1
    case Reset(b) => Calls(b)
  }

  lemma {:induction false} SeenIsDelivered(cfg: Config, h: History, pool: set<string>, from: int, id: string)
    requires cfg.pageSize >= 2 && OnPool(cfg, h, pool, from)
    ensures id in Delivered(h) ==> id in SeenAfter(h) && SeenAfter(h)[id] >= from
    ensures id !in Delivered(h) ==>
      (id in SeenAfter(h) <==> id in Origin(h)) && (id in Origin(h) ==> SeenAfter(h)[id] == Origin(h)[id])
  {
    match h
    case Start(_) =>
    case Served(b, c) =>
      SeenIsDelivered(cfg, b, pool, from, id);
      MarkAllSpec(SeenAfter(b), IDs(c.page), c.request.markAt, id);
  }

  lemma {:induction false} KeptNonEmpty(ranked: seq<RankedItem>, cap: int)
    requires ranked != [] && cap >= 1
    ensures Kept(ranked, cap) != []
  {
    if |ranked| > 1 { KeptNonEmpty(ranked[..|ranked| - 1], cap); }
  }

  /** On a pool the ranking lists exactly the posts not delivered before. */
  lemma RankedIsRest(cfg: Config, b: History, c: Call, pool: set<string>, from: int)
    requires cfg.pageSize >= 2 && OnPool(cfg, Served(b, c), pool, from)
    ensures Distinct(IDs(c.ranked)) && SetOf(IDs(c.ranked)) == pool - Delivered(b)
  {
    var r, seen := c.request, SeenAfter(b);
    var cutoff := Cutoff(r.filterAt, cfg.ttlSeconds);
    var metas := Metas(cfg, seen, r, false);
    forall id ensures id in metas <==> id in pool - Delivered(b) {
      SeenIsDelivered(cfg, b, pool, from, id);
      UnseenHolds(seen, FirstSeen(Concat(r.groups)), cutoff, id);
      assert id in pool <==> id in Available(r);
    }
    IDsList(c.ranked);
    forall id ensures id in IDs(c.ranked) <==> id in metas {
      if Lists(c.ranked, id) {
        var i :| 0 <= i < |c.ranked| && c.ranked[i].postID == id;
        assert Describes(metas, FirstSource(Concat(r.groups)), c.ranked[i]);
      }
    }
  }

  /** One call of a draining run returns posts of the pool not delivered before, and at least one
      if any is left. */
  lemma DrainStep(cfg: Config, b: History, c: Call, pool: set<string>, from: int)
    requires cfg.pageSize >= 3 && cfg.maxPerAuthor >= 1 && Draining(cfg, Served(b, c), pool, from)
    ensures Distinct(IDs(c.page)) && SetOf(IDs(c.page)) <= pool - Delivered(b)
    ensures pool - Delivered(b) != {} ==> c.page != []
  {
    RankedIsRest(cfg, b, c, pool, from);
    ServedPage(cfg, SeenAfter(b), c.request, c.ranked, c.page);
    IDsList(c.page);
    IDsList(c.ranked);
    KeptDistinct(c.ranked, cfg.maxPerAuthor);
    forall i | 0 <= i < |c.page| ensures c.page[i].postID in pool - Delivered(b) {
      assert c.page[i] in c.ranked;
      assert Lists(c.ranked, c.page[i].postID);
      assert c.page[i].postID in SetOf(IDs(c.ranked));
    }
    if pool - Delivered(b) != {} {
      assert c.ranked != [];
      KeptNonEmpty(c.ranked, cfg.maxPerAuthor);
    }
  }

  /** A page of new posts adds its length; as long as posts are left it is not empty. */
  lemma DrainCount(before: set<string>, page: set<string>, pool: set<string>)
    requires before <= pool && page <= pool - before
    ensures |before + page| == |before| + |page| && before + page <= pool && |before + page| <= |pool|
    ensures |before + page| == |pool| ==> before + page == pool
    ensures before != pool ==> pool - before != {}
    ensures before == pool ==> page == {} && |before| == |pool|
    ensures page == {} <==> |page| == 0
  {
    assert before !! page;
    SubsetCard(before + page, pool);
    if before != pool {
      var id :| id in pool && id !in before;
      assert id in pool - before;
    }
  }

  lemma DrainGrows(cfg: Config, b: History, c: Call, pool: set<string>, from: int)
    requires cfg.pageSize >= 3 && cfg.maxPerAuthor >= 1 && Draining(cfg, Served(b, c), pool, from)
    requires Delivered(b) <= pool
    ensures var after := Delivered(Served(b, c));
      && after <= pool && |after| == |Delivered(b)| + |c.page| && |after| <= |pool|
      && (|after| == |pool| ==> after == pool)
    ensures Delivered(b) == pool <==> c.page == []
    ensures |Delivered(b)| == |pool| ==> Delivered(b) == pool
  {
    DrainStep(cfg, b, c, pool, from);
    DistinctCard(IDs(c.page));
    assert |IDs(c.page)| == |c.page|;
    DrainCount(Delivered(b), SetOf(IDs(c.page)), pool);
  }

  /** Draining a pool: asking again and again from the top inside one TTL returns every post of
      the pool exactly once (no more returns than posts delivered), and all of them after at most
      as many calls as the pool has posts; from then on pages are empty. */
  lemma {:induction false} PoolDrains(cfg: Config, h: History, pool: set<string>, from: int)
    requires cfg.pageSize >= 3 && cfg.maxPerAuthor >= 1 && Draining(cfg, h, pool, from)
    ensures Delivered(h) <= pool && Returned(h) == |Delivered(h)|
    ensures |Delivered(h)| >= Min(Calls(h), |pool|)
    ensures Calls(h) >= |pool| ==> Delivered(h) == pool
    ensures h.Served? && Calls(h) > |pool| ==> h.call.page == []
  {
    match h
    case Start(_) =>
    case Served(b, c) =>
      PoolDrains(cfg, b, pool, from);
      DrainGrows(cfg, b, c, pool, from);
  }
}
