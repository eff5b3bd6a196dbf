/** What a feed call shows, in terms of the rows, counters and candidates it was given. */
module FeedContent {
  import opened Prelude
  import opened Inbox
  import opened Diversity
  import opened Feed

  // ---------- which posts are in the running ----------

  /** Some source of the call names the post. */
  predicate Named(r: Request, id: string) {
    exists g, i :: 0 <= g < |r.groups| && 0 <= i < |r.groups[g]| && r.groups[g][i].postID == id
  }

  lemma {:induction false} ConcatHolds(groups: seq<seq<Candidate>>, c: Candidate)
    ensures c in Concat(groups) <==> exists g, i :: 0 <= g < |groups| && 0 <= i < |groups[g]| && groups[g][i] == c
  {
    if groups != [] {
      var n := |groups| - 1;
      ConcatHolds(groups[..n], c);
      assert c in Concat(groups) <==> c in Concat(groups[..n]) || c in groups[n];
      if g, i :| 0 <= g < n && 0 <= i < |groups[g]| && groups[g][i] == c {
        assert groups[..n][g][i] == c;
      }
    }
  }

  lemma NamedIffMerged(r: Request, id: string)
    ensures id in FirstSeen(Concat(r.groups)) <==> Named(r, id)
  {
    var all := Concat(r.groups);
    FirstSeenSpec(all);
    if i :| 0 <= i < |all| && all[i].postID == id {
      ConcatHolds(r.groups, all[i]);
    }
    if g, i :| 0 <= g < |r.groups| && 0 <= i < |r.groups[g]| && r.groups[g][i].postID == id {
      ConcatHolds(r.groups, r.groups[g][i]);
      var j :| 0 <= j < |all| && all[j] == r.groups[g][i];
    }
  }

  /** The posts a call hydrates: named, with a row, and unless the filter is down not marked since the
      TTL ago. */
  lemma HydratedIff(cfg: Config, seen: map<string, int>, r: Request, down: bool, id: string)
    ensures id in Metas(cfg, seen, r, down) <==>
      Named(r, id) && id in r.catalog
      && (down || id !in seen || r.filterAt - seen[id] > cfg.ttlSeconds * 1000)
  {
    NamedIffMerged(r, id);
    UnseenHolds(seen, FirstSeen(Concat(r.groups)), Cutoff(r.filterAt, cfg.ttlSeconds), id);
  }

  /** Each with its row, and the counts of this moment, zero when there is none. */
  lemma HydratedAs(cfg: Config, seen: map<string, int>, r: Request, down: bool, id: string)
    requires id in Metas(cfg, seen, r, down)
    ensures id in r.catalog
    ensures var m, row := Metas(cfg, seen, r, down)[id], r.catalog[id];
      && m == PostMeta(row.postID, row.authorID, row.mediaURL, row.caption, m.likeCount, m.commentCount, row.createdAt)
      && m.likeCount == (if id in r.likes then r.likes[id] else 0)
      && m.commentCount == (if id in r.comments then r.comments[id] else 0)
  {}

  // ---------- the seen filter over a history ----------

  /** What is marked in the seen set was shown then. */
  lemma {:induction false} MarkedWasShown(h: History, id: string)
    requires Origin(h) == map[] && id in SeenAfter(h)
    ensures ShownAt(h, id, SeenAfter(h)[id])
  {
    match h
    case Start(_) =>
    case Served(b, c) =>
      MarkAllSpec(SeenAfter(b), IDs(c.page), c.request.markAt, id);
      if id !in IDs(c.page) { MarkedWasShown(b, id); }
    case Reset(b) =>
  }

  /** All showings of the post are more than the TTL before `now`. */
  ghost predicate LongAgo(cfg: Config, h: History, id: string, now: int) {
    forall m :: ShownAt(h, id, m) ==> now - m > cfg.ttlSeconds * 1000
  }

  /** The mark that the filter reads is the last showing, so it has expired when all have. */
  lemma MarkExpiredIff(cfg: Config, h: History, id: string, now: int)
    requires cfg.pageSize >= 2 && Legal(cfg, h) && Origin(h) == map[]
    ensures (id !in SeenAfter(h) || now - SeenAfter(h)[id] > cfg.ttlSeconds * 1000) <==> LongAgo(cfg, h, id, now)
  {
    if id in SeenAfter(h) {
      MarkedWasShown(h, id);
    }
    if id !in SeenAfter(h) || now - SeenAfter(h)[id] > cfg.ttlSeconds * 1000 {
      forall m | ShownAt(h, id, m) ensures now - m > cfg.ttlSeconds * 1000 {
        SeenRemembers(cfg, h, id, m);
      }
    }
  }

  /** Exactly which posts a call considers: in every history that starts with an empty seen set, those
      named and with a row whose every showing since the last reset is more than the TTL ago. A post
      comes back as soon as it may. */
  lemma ConsideredIff(cfg: Config, h: History, c: Call, id: string)
    requires cfg.pageSize >= 2 && Legal(cfg, Served(h, c)) && Origin(h) == map[]
    ensures Lists(c.ranked, id) <==>
      Named(c.request, id) && id in c.request.catalog && LongAgo(cfg, h, id, c.request.filterAt)
  {
    HydratedIff(cfg, SeenAfter(h), c.request, false, id);
    ListedIff(cfg, SeenAfter(h), c, id);
    MarkExpiredIff(cfg, h, id, c.request.filterAt);
  }

  lemma ListedIff(cfg: Config, seen: map<string, int>, c: Call, id: string)
    requires cfg.pageSize >= 2 && Serves(cfg, seen, c.request, false, c.ranked, c.page)
    ensures Lists(c.ranked, id) <==> id in Metas(cfg, seen, c.request, false)
  {
    if Lists(c.ranked, id) {
      var i :| 0 <= i < |c.ranked| && c.ranked[i].postID == id;
      assert Describes(Metas(cfg, seen, c.request, false), FirstSource(Concat(c.request.groups)), c.ranked[i]);
    }
  }

  /** A call that found the seen set of a legal history shows nothing that the history showed within
      the TTL. */
  lemma CallNeverRepeats(cfg: Config, h: History, c: Call, after: map<string, int>, id: string, m: int)
    requires cfg.pageSize >= 2 && NextInHistory(cfg, SeenAfter(h), c, after)
    requires Legal(cfg, h) && MarkedBy(h, c.request.filterAt)
    requires id in IDs(c.page) && ShownAt(h, id, m)
    ensures c.request.filterAt - m > cfg.ttlSeconds * 1000
    ensures SeenAfter(Served(h, c)) == after
  {
    NoRepeatWithinTTL(cfg, h, c, id, m);
  }

  // ---------- what an item shows ----------

  /** The source of the post's first candidate. */
  ghost predicate FirstNamedBy(r: Request, id: string, source: string) {
    exists i :: 0 <= i < |Concat(r.groups)| && Concat(r.groups)[i].postID == id && Concat(r.groups)[i].source == source
      && forall j :: 0 <= j < i ==> Concat(r.groups)[j].postID != id
  }

  lemma {:induction false} FirstSourceIs(cands: seq<Candidate>, id: string)
    ensures id in FirstSource(cands) ==>
      exists i :: 0 <= i < |cands| && cands[i].postID == id && cands[i].source == FirstSource(cands)[id]
        && forall j :: 0 <= j < i ==> cands[j].postID != id
  {
    if cands != [] {
      var n := |cands| - 1;
      var r := cands[..n];
      FirstSourceIs(r, id);
      FirstSeenSpec(r);
      if id in FirstSource(r) {
        var i :| 0 <= i < |r| && r[i].postID == id && r[i].source == FirstSource(r)[id]
          && forall j :: 0 <= j < i ==> r[j].postID != id;
        assert cands[i] == r[i] && forall j :: 0 <= j < i ==> cands[j] == r[j];
      } else if id in FirstSource(cands) {
        assert cands[n].postID == id;
        assert forall j :: 0 <= j < n ==> r[j] == cands[j];
      }
    }
  }

  /** Every organic item of a response shows its own post: author, media, caption and time of its row,
      the counts and the like flag given for it, the source of its first candidate, and the score of
      its hydrated row. */
  lemma ItemShowsItsPost(cfg: Config, score: PostMeta -> real, seen: map<string, int>, r: Request, down: bool,
                         ranked: seq<RankedItem>, page: seq<RankedItem>, liked: set<string>, items: seq<FeedItem>,
                         k: nat)
    requires cfg.pageSize >= 2 && Serves(cfg, seen, r, down, ranked, page)
    requires forall i :: 0 <= i < |ranked| ==>
      && ranked[i].postID in Metas(cfg, seen, r, down)
      && ranked[i].score == score(Metas(cfg, seen, r, down)[ranked[i].postID])
    requires ItemsOf(page, Metas(cfg, seen, r, down), liked, items) && k < |items|
    ensures var x := items[k];
      && x.postID == page[k].postID && x.postID in r.catalog && !x.isAd
      && x.authorID == r.catalog[x.postID].authorID && x.mediaURL == r.catalog[x.postID].mediaURL
      && x.caption == r.catalog[x.postID].caption && x.createdAt == r.catalog[x.postID].createdAt
      && x.likeCount == (if x.postID in r.likes then r.likes[x.postID] else 0)
      && x.commentCount == (if x.postID in r.comments then r.comments[x.postID] else 0)
      && (x.likedByMe <==> x.postID in liked) && FirstNamedBy(r, x.postID, x.source)
      && x.score == score(r.catalog[x.postID].(likeCount := x.likeCount, commentCount := x.commentCount))
  {
    var metas, all := Metas(cfg, seen, r, down), Concat(r.groups);
    var j := PageItem(cfg, ranked, r.offset, page, k);
    assert Describes(metas, FirstSource(all), ranked[j]);
    HydratedIff(cfg, seen, r, down, page[k].postID);
    HydratedAs(cfg, seen, r, down, page[k].postID);
    NamedIffMerged(r, page[k].postID);
    FirstSeenSpec(all);
    FirstSourceIs(all, page[k].postID);
  }

  lemma WindowAt(items: seq<RankedItem>, offset: nat, pageSize: int, k: nat)
    requires pageSize >= 2 && k < |Window(items, offset, pageSize)|
    ensures WindowStart(|items|, offset) + k < |items|
    ensures Window(items, offset, pageSize)[k] == items[WindowStart(|items|, offset) + k]
  {}

  lemma KeptFrom(ranked: seq<RankedItem>, cap: int, i: nat) returns (j: nat)
    requires i < |Kept(ranked, cap)|
    ensures j < |ranked| && ranked[j] == Kept(ranked, cap)[i]
  {
    KeptIsSubsequence(ranked, cap);
    j := KeptAt(ranked, cap)[i];
  }

  lemma PageItem(cfg: Config, ranked: seq<RankedItem>, offset: nat, page: seq<RankedItem>, k: nat) returns (j: nat)
    requires cfg.pageSize >= 2 && page == Window(Kept(ranked, cfg.maxPerAuthor), offset, cfg.pageSize) && k < |page|
    ensures j < |ranked| && ranked[j] == page[k]
  {
    var kept := Kept(ranked, cfg.maxPerAuthor);
    WindowAt(kept, offset, cfg.pageSize, k);
    j := KeptFrom(ranked, cfg.maxPerAuthor, WindowStart(|kept|, offset) + k);
  }

  // ---------- nothing better is left off ----------

  lemma KeptSoFar(ranked: seq<RankedItem>, cap: int, m: nat)
    requires m <= |ranked|
    ensures Kept(ranked[..m], cap) <= Kept(ranked, cap)
    ensures |KeptAt(ranked[..m], cap)| == |Kept(ranked[..m], cap)| <= |KeptAt(ranked, cap)| == |Kept(ranked, cap)|
    ensures forall i :: 0 <= i < |Kept(ranked[..m], cap)| ==> KeptAt(ranked, cap)[i] < m
  {
    var at, early := KeptAt(ranked, cap), KeptAt(ranked[..m], cap);
    var kept, before := Kept(ranked, cap), Kept(ranked[..m], cap);
    KeptAtPrefix(ranked, cap, m);
    KeptIsSubsequence(ranked, cap);
    KeptIsSubsequence(ranked[..m], cap);
    assert |early| == |before| && |at| == |kept|;
    forall i | 0 <= i < |early| ensures kept[i] == before[i] && at[i] < m {
      assert early[i] == at[i];
      assert kept[i] == ranked[at[i]] && before[i] == ranked[..m][early[i]];
    }
  }

  /** A ranked post that the cap dropped found its author full among the posts kept above it. */
  lemma DroppedWasFull(ranked: seq<RankedItem>, cap: int, m: nat)
    requires m < |ranked|
    ensures m in KeptAt(ranked, cap) || CountOf(Kept(ranked[..m], cap), ranked[m].authorID) >= cap
  {
    var early := KeptAt(ranked[..m], cap);
    assert ranked[..m + 1][..m] == ranked[..m] && ranked[..m + 1][m] == ranked[m];
    if CountOf(Kept(ranked[..m], cap), ranked[m].authorID) < cap {
      assert KeptAt(ranked[..m + 1], cap) == early + [m];
      KeptAtPrefix(ranked, cap, m + 1);
      assert KeptAt(ranked, cap)[|early|] == m;
    }
  }

  /** A leading part of the kept items in which an author is full is longer than one in which it is
      not. */
  lemma NotFullEarlier(kept: seq<RankedItem>, before: seq<RankedItem>, end: nat, author: string, cap: int)
    requires before <= kept && end <= |kept| && CountOf(kept[..end], author) < cap <= CountOf(before, author)
    ensures end < |before|
  {
    if |before| <= end {
      assert kept[..end][..|before|] == before;
      CountPrefix(kept[..end], |before|, author);
    }
  }

  /** If the author of a ranked post is not full within the first `end` kept items, and the post is not
      among them, they all rank above it. */
  lemma LaterThanShown(ranked: seq<RankedItem>, cap: int, end: nat, m: nat, i: nat)
    requires m < |ranked| && i < end <= |Kept(ranked, cap)|
    requires CountOf(Kept(ranked, cap)[..end], ranked[m].authorID) < cap
    requires |KeptAt(ranked, cap)| == |Kept(ranked, cap)| && forall j :: 0 <= j < end ==> KeptAt(ranked, cap)[j] != m
    ensures KeptAt(ranked, cap)[i] < m
  {
    var kept, at := Kept(ranked, cap), KeptAt(ranked, cap);
    KeptAtAscending(ranked, cap);
    DroppedWasFull(ranked, cap, m);
    KeptSoFar(ranked, cap, m);
    if m in at {
      var j :| 0 <= j < |at| && at[j] == m;
    } else {
      NotFullEarlier(kept, Kept(ranked[..m], cap), end, ranked[m].authorID, cap);
    }
  }

  /** The posts of one author among these items. */
  function OfAuthor(items: seq<RankedItem>, author: string): set<int> {
    set i | 0 <= i < |items| && items[i].authorID == author
  }

  lemma {:induction false} CountIsOfAuthor(items: seq<RankedItem>, author: string)
    ensures CountOf(items, author) == |OfAuthor(items, author)|
  {
    if items != [] {
      var n := |items| - 1;
      CountIsOfAuthor(items[..n], author);
      var before := OfAuthor(items[..n], author);
      assert OfAuthor(items, author) == before + if items[n].authorID == author then {n} else {};
    }
  }

  /** The capped ranking from its top down to the end of the page. */
  function DownToPage(cfg: Config, ranked: seq<RankedItem>, offset: nat): (r: seq<RankedItem>)
    requires cfg.pageSize >= 2
    ensures r <= Kept(ranked, cfg.maxPerAuthor)
  {
    var kept := Kept(ranked, cfg.maxPerAuthor);
    kept[..WindowEnd(|kept|, offset, cfg.pageSize)]
  }

  /** The rank of a considered post. */
  lemma RankOf(cfg: Config, seen: map<string, int>, r: Request, down: bool, ranked: seq<RankedItem>,
               page: seq<RankedItem>, id: string) returns (m: nat)
    requires cfg.pageSize >= 2 && Serves(cfg, seen, r, down, ranked, page) && id in Metas(cfg, seen, r, down)
    ensures m < |ranked| && ranked[m].postID == id && ranked[m].authorID == r.catalog[id].authorID
  {
    assert Lists(ranked, id);
    m :| m < |ranked| && ranked[m].postID == id;
    assert Describes(Metas(cfg, seen, r, down), FirstSource(Concat(r.groups)), ranked[m]);
  }

  lemma BeforeOnPage(cfg: Config, ranked: seq<RankedItem>, page: seq<RankedItem>, offset: nat, m: nat, k: nat)
    returns (n: nat)
    requires cfg.pageSize >= 2 && page == Window(Kept(ranked, cfg.maxPerAuthor), offset, cfg.pageSize)
    requires k < |page| && m < |ranked| && ranked[m].postID !in IDs(DownToPage(cfg, ranked, offset))
    requires |OfAuthor(DownToPage(cfg, ranked, offset), ranked[m].authorID)| < cfg.maxPerAuthor
    ensures n < m && page[k] == ranked[n]
  {
    var cap, shown := cfg.maxPerAuthor, DownToPage(cfg, ranked, offset);
    var i := WindowStart(|Kept(ranked, cap)|, offset) + k;
    KeptIsSubsequence(ranked, cap);
    CountIsOfAuthor(shown, ranked[m].authorID);
    NotAbove(ranked, cap, shown, ranked[m].postID, m);
    WindowAt(Kept(ranked, cap), offset, cfg.pageSize, k);
    LaterThanShown(ranked, cap, |shown|, m, i);
    n := KeptAt(ranked, cap)[i];
  }

  /** Nothing better comes later. At any offset take a post that the call considers and that is neither
      on the page nor above it, its author having room left down to the end of the page: by the scores
      of the rows themselves it beats no post of the page. */
  lemma NothingBetterComesLater(cfg: Config, score: PostMeta -> real, seen: map<string, int>, r: Request, down: bool,
                                ranked: seq<RankedItem>, page: seq<RankedItem>, id: string, k: nat)
    requires cfg.pageSize >= 2 && Serves(cfg, seen, r, down, ranked, page)
    requires forall i :: 0 <= i < |ranked| ==>
      && ranked[i].postID in Metas(cfg, seen, r, down)
      && ranked[i].score == score(Metas(cfg, seen, r, down)[ranked[i].postID])
    requires k < |page| && id in Metas(cfg, seen, r, down) && id !in IDs(DownToPage(cfg, ranked, r.offset))
    requires |OfAuthor(DownToPage(cfg, ranked, r.offset), r.catalog[id].authorID)| < cfg.maxPerAuthor
    ensures page[k].postID in Metas(cfg, seen, r, down)
    ensures score(Metas(cfg, seen, r, down)[id]) <= score(Metas(cfg, seen, r, down)[page[k].postID])
  {
    var m := RankOf(cfg, seen, r, down, ranked, page, id);
    var n := BeforeOnPage(cfg, ranked, page, r.offset, m, k);
    assert ranked[n].score >= ranked[m].score;
  }

  /** So asked from the top, nothing better is left off the page. */
  lemma NothingBetterIsLeftOff(cfg: Config, score: PostMeta -> real, seen: map<string, int>, r: Request, down: bool,
                               ranked: seq<RankedItem>, page: seq<RankedItem>, id: string, k: nat)
    requires cfg.pageSize >= 2 && Serves(cfg, seen, r, down, ranked, page) && r.offset == 0
    requires forall i :: 0 <= i < |ranked| ==>
      && ranked[i].postID in Metas(cfg, seen, r, down)
      && ranked[i].score == score(Metas(cfg, seen, r, down)[ranked[i].postID])
    requires k < |page| && id in Metas(cfg, seen, r, down) && id !in IDs(page)
    requires |OfAuthor(page, r.catalog[id].authorID)| < cfg.maxPerAuthor
    ensures page[k].postID in Metas(cfg, seen, r, down)
    ensures score(Metas(cfg, seen, r, down)[id]) <= score(Metas(cfg, seen, r, down)[page[k].postID])
  {
    assert page == DownToPage(cfg, ranked, 0);
    NothingBetterComesLater(cfg, score, seen, r, down, ranked, page, id, k);
  }

  lemma NotAbove(ranked: seq<RankedItem>, cap: int, shown: seq<RankedItem>, id: string, m: nat)
    requires m < |ranked| && ranked[m].postID == id && id !in IDs(shown) && shown <= Kept(ranked, cap)
    ensures |KeptAt(ranked, cap)| == |Kept(ranked, cap)|
    ensures forall j :: 0 <= j < |shown| ==> KeptAt(ranked, cap)[j] != m
  {
    KeptIsSubsequence(ranked, cap);
    forall j | 0 <= j < |shown| ensures KeptAt(ranked, cap)[j] != m {
      assert IDs(shown)[j] == shown[j].postID == ranked[KeptAt(ranked, cap)[j]].postID;
    }
  }
}
