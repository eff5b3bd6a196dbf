/** What a client sees that scrolls by the issued cursors: an input on which a post is passed over,
    and exactly which posts of a fixed pool the pages hold. */
module Scroll {
  import opened Prelude
  import opened Inbox
  import opened Diversity
  import opened Feed

  // ---------- a post is passed over ----------

  function Meta(id: string, author: string): PostMeta {
    PostMeta(id, author, "", "", 0, 0, 0)
  }

  const THREE: seq<Candidate> :=
    [Candidate("1", "a", "vector"), Candidate("2", "b", "vector"), Candidate("3", "c", "vector")]

  const ROWS: map<string, PostMeta> := map["1" := Meta("1", "a"), "2" := Meta("2", "b"), "3" := Meta("3", "c")]

  const FIRST: RankedItem := RankedItem("1", "a", "vector", 3.0)
  const SECOND: RankedItem := RankedItem("2", "b", "vector", 2.0)
  const THIRD: RankedItem := RankedItem("3", "c", "vector", 1.0)

  function Ask(offset: nat, at: int): Request {
    Request(offset, [THREE], ROWS, map[], map[], at, at)
  }

  const SMALL: Config := Config(3, 2, 60)

  const CALL1: Call := Call(Ask(0, 0), [FIRST, SECOND, THIRD], [FIRST])
  const CALL2: Call := Call(Ask(1, 1), [SECOND, THIRD], [THIRD])

  lemma ThreeCandidates()
    ensures Concat([THREE]) == THREE && FirstSeen(THREE) == ["1", "2", "3"]
    ensures FirstSource(THREE) == map["1" := "vector", "2" := "vector", "3" := "vector"]
  {
    assert [THREE][..0] == [];
    assert Concat([THREE]) == Concat([THREE][..0]) + THREE;
    NewCandidate([], THREE[0]);
    NewCandidate([THREE[0]], THREE[1]);
    NewCandidate([THREE[0], THREE[1]], THREE[2]);
    assert [] + [THREE[0]] == [THREE[0]] && [THREE[0]] + [THREE[1]] == [THREE[0], THREE[1]];
    assert [THREE[0], THREE[1]] + [THREE[2]] == THREE;
  }

  lemma {:induction false} KeepsAll(items: seq<RankedItem>, cap: int)
    requires cap >= 1 && forall i, j :: 0 <= i < j < |items| ==> items[i].authorID != items[j].authorID
    ensures Kept(items, cap) == items
  {
    if items != [] {
      var r, item := items[..|items| - 1], items[|items| - 1];
      KeepsAll(r, cap);
      NoneBy(r, item.authorID);
      assert r + [item] == items;
    }
  }

  lemma {:induction false} NoneBy(items: seq<RankedItem>, author: string)
    requires forall i :: 0 <= i < |items| ==> items[i].authorID != author
    ensures CountOf(items, author) == 0
  {
    if items != [] { NoneBy(items[..|items| - 1], author); }
  }

  lemma MetasOf(seen: map<string, int>, r: Request, id: string)
    requires r.groups == [THREE] && r.catalog == ROWS && r.likes == map[] && r.comments == map[]
    ensures id in Metas(SMALL, seen, r, false) <==> id in ROWS && Fresh(seen, id, Cutoff(r.filterAt, 60))
    ensures id in Metas(SMALL, seen, r, false) ==> Metas(SMALL, seen, r, false)[id] == ROWS[id]
  {
    ThreeCandidates();
    UnseenHolds(seen, ["1", "2", "3"], Cutoff(r.filterAt, 60), id);
  }

  lemma FirstMetas()
    ensures Metas(SMALL, map[], Ask(0, 0), false) == ROWS
  {
    forall id ensures id in Metas(SMALL, map[], Ask(0, 0), false) <==> id in ROWS { MetasOf(map[], Ask(0, 0), id); }
    forall id | id in ROWS ensures Metas(SMALL, map[], Ask(0, 0), false)[id] == ROWS[id] {
      MetasOf(map[], Ask(0, 0), id);
    }
  }

  lemma SecondMetas()
    ensures Metas(SMALL, map["1" := 0], Ask(1, 1), false) == map["2" := Meta("2", "b"), "3" := Meta("3", "c")]
  {
    var left := map["2" := Meta("2", "b"), "3" := Meta("3", "c")];
    var metas := Metas(SMALL, map["1" := 0], Ask(1, 1), false);
    forall id ensures id in metas <==> id in left { MetasOf(map["1" := 0], Ask(1, 1), id); }
    forall id | id in left ensures metas[id] == left[id] { MetasOf(map["1" := 0], Ask(1, 1), id); }
  }

  lemma FirstRanking(sources: map<string, string>)
    requires sources == map["1" := "vector", "2" := "vector", "3" := "vector"]
    ensures IsRanking(ROWS, sources, CALL1.ranked)
  {
    var ranked := CALL1.ranked;
    assert ranked[0].postID == "1" && ranked[1].postID == "2" && ranked[2].postID == "3";
    assert Lists(ranked, "1") && Lists(ranked, "2") && Lists(ranked, "3");
  }

  lemma SecondRanking(sources: map<string, string>)
    requires sources == map["1" := "vector", "2" := "vector", "3" := "vector"]
    ensures IsRanking(map["2" := Meta("2", "b"), "3" := Meta("3", "c")], sources, CALL2.ranked)
  {
    var ranked := CALL2.ranked;
    assert ranked[0].postID == "2" && ranked[1].postID == "3";
    assert Lists(ranked, "2") && Lists(ranked, "3");
  }

  lemma FirstKept()
    ensures Kept(CALL1.ranked, 2) == CALL1.ranked
    ensures Window(CALL1.ranked, 0, 3) == CALL1.page && WindowEnd(|CALL1.ranked|, 0, 3) == 1
  {
    KeepsAll(CALL1.ranked, 2);
  }

  lemma SecondKept()
    ensures Kept(CALL2.ranked, 2) == CALL2.ranked && Window(CALL2.ranked, 1, 3) == CALL2.page
  {
    KeepsAll(CALL2.ranked, 2);
  }

  lemma FirstCallServed()
    ensures Serves(SMALL, map[], CALL1.request, false, CALL1.ranked, CALL1.page)
    ensures Issued(SMALL, CALL1) == 1
  {
    ThreeCandidates();
    FirstMetas();
    FirstRanking(FirstSource(THREE));
    FirstKept();
  }

  lemma SecondCallServed()
    ensures Serves(SMALL, map["1" := 0], CALL2.request, false, CALL2.ranked, CALL2.page)
    ensures Kept(CALL2.ranked, SMALL.maxPerAuthor)[..1] == [SECOND]
  {
    ThreeCandidates();
    SecondMetas();
    SecondRanking(FirstSource(THREE));
    SecondKept();
  }

  lemma FirstSeenState()
    ensures IDs(CALL1.page) == ["1"] && IDs(CALL2.page) == ["3"]
    ensures SeenAfter(Served(Start(map[]), CALL1)) == map["1" := 0]
  {
    assert IDs(CALL1.page) == ["1"];
    assert ["1"][..0] == [];
    assert MarkAll(map[], ["1"], 0) == MarkAll(map[], ["1"][..0], 0)["1" := 0];
  }

  /** An input on which the cursor passes a post over: page size 3, three posts by three authors.
      The first page is the best post and its cursor is 1; the next page, asked for with that cursor
      a moment later, is the third post, and the second stands above it unreturned. */
  lemma SecondBestIsPassedOver()
    ensures Legal(SMALL, Served(Served(Start(map[]), CALL1), CALL2))
    ensures CALL2.request.offset == Issued(SMALL, CALL1)
    ensures Cutoff(CALL2.request.filterAt, SMALL.ttlSeconds) <= CALL1.request.markAt
    ensures IDs(CALL1.page) == ["1"] && IDs(CALL2.page) == ["3"]
    ensures Kept(CALL2.ranked, SMALL.maxPerAuthor)[..1] == [SECOND]
  {
    FirstCallServed();
    SecondCallServed();
    FirstSeenState();
    var one := Served(Start(map[]), CALL1);
    assert Legal(SMALL, Start(map[]));
    assert Legal(SMALL, one);
  }

  // ---------- scrolling through a fixed pool ----------

  /** Where a post first stands in the list, its length if nowhere. */
  function PlaceOf(order: seq<string>, id: string): (k: nat)
    ensures k <= |order| && (k < |order| ==> order[k] == id)
    ensures forall i :: 0 <= i < k ==> order[i] != id
  {
    if order == [] || order[0] == id then 0 else 1 + PlaceOf(order[1..], id)
  }

  predicate InOrder(order: seq<string>, list: seq<string>) {
    forall i, j :: 0 <= i < j < |list| ==> PlaceOf(order, list[i]) < PlaceOf(order, list[j])
  }

  lemma InOrderDistinct(order: seq<string>, list: seq<string>)
    requires InOrder(order, list)
    ensures Distinct(list)
  {
    forall i, j | 0 <= i < j < |list| ensures list[i] != list[j] {
      assert PlaceOf(order, list[i]) < PlaceOf(order, list[j]);
    }
  }

  lemma OwnOrder(order: seq<string>)
    requires Distinct(order)
    ensures InOrder(order, order)
  {
    assert forall i :: 0 <= i < |order| ==> PlaceOf(order, order[i]) == i;
  }

  /** Two lists of the same posts in the same order are one list. */
  lemma {:induction false} OrderedUnique(order: seq<string>, a: seq<string>, b: seq<string>)
    requires InOrder(order, a) && InOrder(order, b) && SetOf(a) == SetOf(b)
    ensures a == b
  {
    InOrderDistinct(order, a);
    InOrderDistinct(order, b);
    if a == [] {
      DistinctCard(b);
      assert SetOf(a) == {};
    } else {
      SameHead(order, a, b);
      assert SetOf(a[1..]) == SetOf(a) - {a[0]};
      assert SetOf(b[1..]) == SetOf(b) - {b[0]};
      OrderedUnique(order, a[1..], b[1..]);
      assert a == [a[0]] + a[1..] && b == [b[0]] + b[1..];
    }
  }

  lemma HeadComesFirst(order: seq<string>, list: seq<string>, id: string)
    requires InOrder(order, list) && id in list
    ensures id == list[0] || PlaceOf(order, list[0]) < PlaceOf(order, id)
  {
    var i :| 0 <= i < |list| && list[i] == id;
  }

  lemma SameHead(order: seq<string>, a: seq<string>, b: seq<string>)
    requires InOrder(order, a) && InOrder(order, b) && SetOf(a) == SetOf(b) && a != []
    ensures b != [] && b[0] == a[0]
  {
    assert a[0] in SetOf(b);
    assert b[0] in SetOf(a);
    HeadComesFirst(order, b, a[0]);
    HeadComesFirst(order, a, b[0]);
  }

  /** Every call asks with the cursor that the call before it issued, the ranking lists what it is
      given in one fixed order, and the author cap does not bind. */
  ghost predicate Scrolling(cfg: Config, h: History, order: seq<string>) {
    match h
    case Start(_) => true
    case Served(b, c) =>
      && Scrolling(cfg, b, order) && c.request.offset == Cursor(cfg, b)
      && InOrder(order, IDs(c.ranked)) && Kept(c.ranked, cfg.maxPerAuthor) == c.ranked
    case Reset(b) => false
  }

  /** The cursor the client holds. */
  function Cursor(cfg: Config, h: History): int {
    match h
    case Start(_) => 0
    case Served(_, c) => Issued(cfg, c)
    case Reset(b) => Cursor(cfg, b)
  }

  // ----- the same on plain lists -----

  /** A client on a list: what is still in it and the cursor into it. */
  datatype Client = Client(rest: seq<string>, cursor: nat)

  function From(c: Client): (i: nat)
    ensures i <= |c.rest|
  {
    Min(c.cursor, |c.rest|)
  }

  function To(c: Client, p: nat): (i: nat)
    ensures From(c) <= i <= |c.rest|
  {
    Min(From(c) + p, |c.rest|)
  }

  function PageOf(c: Client, p: nat): seq<string> {
    c.rest[From(c)..To(c, p)]
  }

  /** The page leaves the list, and the cursor is its end in the list that still had it. */
  function Turned(c: Client, p: nat): Client {
    Client(c.rest[..From(c)] + c.rest[To(c, p)..], To(c, p))
  }

  function ClientAfter(order: seq<string>, p: nat, k: nat): Client {
    if k == 0 then Client(order, 0) else Turned(ClientAfter(order, p, k - 1), p)
  }

  /** After q posts the list is q shorter, and from the last page on it is the order shifted by q. */
  predicate Midway(order: seq<string>, c: Client, q: nat, p: nat) {
    && q >= p && 2 * q - p <= |order| && c.cursor == q && |c.rest| == |order| - q
    && forall j :: q - p <= j < |c.rest| ==> c.rest[j] == order[j + q]
  }

  /** The cursor has run past the end, and so would two blocks per page. */
  predicate PastEnd(order: seq<string>, c: Client, q: nat) {
    c.cursor >= |c.rest| && 2 * q >= |order|
  }

  predicate OnTrack(order: seq<string>, c: Client, q: nat, p: nat) {
    Midway(order, c, q, p) || PastEnd(order, c, q)
  }

  /** The p posts from 2 * q on. */
  function EveryOther(order: seq<string>, q: nat, p: nat): seq<string> {
    order[Min(2 * q, |order|)..Min(2 * q + p, |order|)]
  }

  lemma FirstPage(order: seq<string>, p: nat)
    ensures PageOf(Client(order, 0), p) == EveryOther(order, 0, p)
    ensures OnTrack(order, Turned(Client(order, 0), p), p, p)
  {}

  lemma MidwayPage(order: seq<string>, c: Client, q: nat, p: nat)
    requires Midway(order, c, q, p)
    ensures PageOf(c, p) == EveryOther(order, q, p)
  {
    var page, block := PageOf(c, p), EveryOther(order, q, p);
    assert |page| == |block|;
    forall i | 0 <= i < |page| ensures page[i] == block[i] {
      assert page[i] == c.rest[q + i] == order[2 * q + i];
    }
  }

  lemma MidwayTurns(order: seq<string>, c: Client, q: nat, p: nat)
    requires Midway(order, c, q, p)
    ensures OnTrack(order, Turned(c, p), q + p, p)
  {
    var d := Turned(c, p);
    if 2 * q + p <= |order| {
      forall j | q <= j < |d.rest| ensures d.rest[j] == order[j + (q + p)] {
        assert d.rest[j] == c.rest[j + p];
      }
      assert Midway(order, d, q + p, p);
    }
  }

  lemma PastEndPage(order: seq<string>, c: Client, q: nat, p: nat)
    requires PastEnd(order, c, q)
    ensures PageOf(c, p) == EveryOther(order, q, p) && PastEnd(order, Turned(c, p), q + p)
  {}

  lemma OnTrackPage(order: seq<string>, c: Client, q: nat, p: nat)
    requires OnTrack(order, c, q, p)
    ensures PageOf(c, p) == EveryOther(order, q, p) && OnTrack(order, Turned(c, p), q + p, p)
  {
    if Midway(order, c, q, p) {
      MidwayPage(order, c, q, p);
      MidwayTurns(order, c, q, p);
    } else {
      PastEndPage(order, c, q, p);
    }
  }

  /** Where the m-th block of p posts begins. */
  function BlockStart(m: nat, p: nat): nat {
    if m == 0 then 0 else BlockStart(m - 1, p) + p
  }

  lemma {:induction false} BlockStartIsProduct(m: nat, p: nat)
    ensures BlockStart(m, p) == m * p
  {
    if m > 0 {
      BlockStartIsProduct(m - 1, p);
      assert m * p == (m - 1) * p + p;
    }
  }

  function Block(order: seq<string>, m: nat, p: nat): seq<string> {
    order[Min(BlockStart(m, p), |order|)..Min(BlockStart(m, p) + p, |order|)]
  }

  lemma {:induction false} EvenStart(k: nat, p: nat)
    ensures BlockStart(2 * k, p) == 2 * BlockStart(k, p)
  {
    if k > 0 {
      EvenStart(k - 1, p);
      assert BlockStart(2 * k, p) == BlockStart(2 * k - 1, p) + p;
      assert BlockStart(2 * k - 1, p) == BlockStart(2 * (k - 1), p) + p;
    }
  }

  /** One more page, wherever the client stands. */
  lemma ClientTurns(order: seq<string>, p: nat, k: nat)
    requires k == 0 || OnTrack(order, ClientAfter(order, p, k), BlockStart(k, p), p)
    ensures OnTrack(order, ClientAfter(order, p, k + 1), BlockStart(k + 1, p), p)
  {
    var c, q := ClientAfter(order, p, k), BlockStart(k, p);
    assert ClientAfter(order, p, k + 1) == Turned(c, p) && BlockStart(k + 1, p) == q + p;
    if k == 0 {
      FirstPage(order, p);
    } else {
      OnTrackPage(order, c, q, p);
    }
  }

  lemma {:induction false} ClientTracks(order: seq<string>, p: nat, k: nat)
    ensures k == 0 || OnTrack(order, ClientAfter(order, p, k), BlockStart(k, p), p)
  {
    if k > 0 {
      ClientTracks(order, p, k - 1);
      ClientTurns(order, p, k - 1);
    }
  }

  lemma ClientPage(order: seq<string>, p: nat, k: nat)
    ensures PageOf(ClientAfter(order, p, k), p) == EveryOther(order, BlockStart(k, p), p)
  {
    if k == 0 {
      FirstPage(order, p);
    } else {
      ClientTracks(order, p, k);
      OnTrackPage(order, ClientAfter(order, p, k), BlockStart(k, p), p);
    }
  }

  lemma EveryOtherIsBlock(order: seq<string>, k: nat, p: nat)
    ensures EveryOther(order, BlockStart(k, p), p) == Block(order, 2 * k, p)
  {
    EvenStart(k, p);
  }

  /** Such a client turns blocks 0, 2, 4, ... of the list. */
  lemma ClientPages(order: seq<string>, p: nat, k: nat)
    ensures PageOf(ClientAfter(order, p, k), p) == Block(order, 2 * k, p)
  {
    ClientPage(order, p, k);
    EveryOtherIsBlock(order, k, p);
  }

  /** Every position of a list is in the stretch or in what is left. */
  lemma StretchAndRest(rest: seq<string>, start: nat, end: nat)
    requires start <= end <= |rest|
    ensures SetOf(rest[..start] + rest[end..]) + SetOf(rest[start..end]) == SetOf(rest)
  {
    var left, out := rest[..start] + rest[end..], rest[start..end];
    forall x | x in rest ensures x in left || x in out {
      assert rest == rest[..start] + out + rest[end..];
    }
  }

  /** Taking a stretch out of an ordered list leaves the other posts, in order. */
  lemma RestInOrder(order: seq<string>, rest: seq<string>, start: nat, end: nat)
    requires InOrder(order, rest) && start <= end <= |rest|
    ensures var left := rest[..start] + rest[end..];
      InOrder(order, left) && SetOf(left) == SetOf(rest) - SetOf(rest[start..end])
  {
    var left, out := rest[..start] + rest[end..], rest[start..end];
    InOrderDistinct(order, rest);
    assert forall i :: 0 <= i < |left| ==> left[i] == rest[if i < start then i else i + (end - start)];
    StretchAndRest(rest, start, end);
    forall x | x in out ensures x !in left {
      var k :| 0 <= k < |out| && out[k] == x;
      assert rest[start + k] == x;
    }
  }

  // ----- the service against the list -----

  /** What scrolling over a pool comes to: each ranking lists the unreturned posts in order, each
      page is cut from it at the cursor issued before. */
  ghost predicate Pages(cfg: Config, h: History, order: seq<string>)
    requires cfg.pageSize >= 2
  {
    match h
    case Start(_) => true
    case Served(b, c) => Pages(cfg, b, order) && PageCut(cfg, b, c, order)
    case Reset(b) => false
  }

  ghost predicate PageCut(cfg: Config, b: History, c: Call, order: seq<string>)
    requires cfg.pageSize >= 2
  {
    && InOrder(order, IDs(c.ranked)) && SetOf(IDs(c.ranked)) == SetOf(order) - Delivered(b)
    && c.request.offset == Cursor(cfg, b)
    && c.page == Window(c.ranked, c.request.offset, cfg.pageSize)
    && Issued(cfg, c) == WindowEnd(|c.ranked|, c.request.offset, cfg.pageSize)
  }

  lemma {:induction false} ScrollingPages(cfg: Config, h: History, order: seq<string>, from: int)
    requires cfg.pageSize >= 2 && OnPool(cfg, h, SetOf(order), from) && Scrolling(cfg, h, order)
    ensures Pages(cfg, h, order)
  {
    match h
    case Start(_) =>
    case Served(b, c) =>
      ScrollingPages(cfg, b, order, from);
      RankedIsRest(cfg, b, c, SetOf(order), from);
  }

  lemma IDsOfSlice(items: seq<RankedItem>, start: nat, end: nat)
    requires start <= end <= |items|
    ensures IDs(items[start..end]) == IDs(items)[start..end]
  {}

  /** The client's list holds the unreturned posts in order, and its cursor is the issued one. */
  ghost predicate Follows(cfg: Config, h: History, order: seq<string>, client: Client) {
    InOrder(order, client.rest) && SetOf(client.rest) == SetOf(order) - Delivered(h) && client.cursor == Cursor(cfg, h)
  }

  /** The page is the stretch at the cursor of the unreturned posts. */
  lemma PageOfRest(cfg: Config, b: History, c: Call, order: seq<string>, client: Client)
    requires cfg.pageSize >= 3 && PageCut(cfg, b, c, order) && Follows(cfg, b, order, client)
    ensures IDs(c.page) == PageOf(client, cfg.pageSize - 2) && Issued(cfg, c) == To(client, cfg.pageSize - 2)
  {
    OrderedUnique(order, client.rest, IDs(c.ranked));
    assert |client.rest| == |c.ranked|;
    var n := |c.ranked|;
    IDsOfSlice(c.ranked, WindowStart(n, c.request.offset), WindowEnd(n, c.request.offset, cfg.pageSize));
  }

  lemma FollowsNext(cfg: Config, b: History, c: Call, order: seq<string>, client: Client)
    requires cfg.pageSize >= 3 && Follows(cfg, b, order, client)
    requires IDs(c.page) == PageOf(client, cfg.pageSize - 2) && Issued(cfg, c) == To(client, cfg.pageSize - 2)
    ensures Follows(cfg, Served(b, c), order, Turned(client, cfg.pageSize - 2))
  {
    RestInOrder(order, client.rest, From(client), To(client, cfg.pageSize - 2));
  }

  /** A scrolling client of the service is that client of the list of the pool. */
  lemma {:induction false} ScrollFollowsList(cfg: Config, h: History, order: seq<string>)
    requires cfg.pageSize >= 3 && Distinct(order) && Pages(cfg, h, order)
    ensures Follows(cfg, h, order, ClientAfter(order, cfg.pageSize - 2, Calls(h)))
  {
    match h
    case Start(_) => OwnOrder(order);
    case Served(b, c) =>
      ScrollFollowsList(cfg, b, order);
      var client := ClientAfter(order, cfg.pageSize - 2, Calls(b));
      PageOfRest(cfg, b, c, order, client);
      FollowsNext(cfg, b, c, order, client);
  }

  lemma ListPage(cfg: Config, b: History, c: Call, order: seq<string>)
    requires cfg.pageSize >= 3 && Distinct(order) && Pages(cfg, b, order) && PageCut(cfg, b, c, order)
    ensures IDs(c.page) == PageOf(ClientAfter(order, cfg.pageSize - 2, Calls(b)), cfg.pageSize - 2)
  {
    ScrollFollowsList(cfg, b, order);
    PageOfRest(cfg, b, c, order, ClientAfter(order, cfg.pageSize - 2, Calls(b)));
  }

  lemma EvenBlock(cfg: Config, b: History, c: Call, order: seq<string>)
    requires cfg.pageSize >= 3 && Distinct(order) && Pages(cfg, b, order) && PageCut(cfg, b, c, order)
    ensures IDs(c.page) == Block(order, 2 * Calls(b), cfg.pageSize - 2)
  {
    var p, k := cfg.pageSize - 2, Calls(b);
    var page := PageOf(ClientAfter(order, p, k), p);
    assert IDs(c.page) == page by { ListPage(cfg, b, c, order); }
    assert page == Block(order, 2 * k, p) by { ClientPages(order, p, k); }
  }

  /** Scrolling by the issued cursors from the top, inside one TTL, over a fixed pool in a fixed
      order: with p the page size less its two ad slots, the pages are blocks 0, 2, 4, ... of p
      posts. Every other block is passed over. */
  lemma ScrollServesEvenBlocks(cfg: Config, b: History, c: Call, order: seq<string>, from: int)
    requires cfg.pageSize >= 3 && Distinct(order)
    requires OnPool(cfg, Served(b, c), SetOf(order), from) && Scrolling(cfg, Served(b, c), order)
    ensures IDs(c.page) == Block(order, 2 * Calls(b), cfg.pageSize - 2)
  {
    ScrollingPages(cfg, Served(b, c), order, from);
    EvenBlock(cfg, b, c, order);
  }

  lemma ThreeAvailable(offset: nat, at: int)
    ensures Available(Ask(offset, at)) == SetOf(ORDER)
  {
    ThreeCandidates();
  }

  const ORDER: seq<string> := ["1", "2", "3"]

  lemma ThreeInOrder()
    ensures Distinct(ORDER) && InOrder(ORDER, IDs(CALL1.ranked)) && InOrder(ORDER, IDs(CALL2.ranked))
  {
    OwnOrder(ORDER);
    assert IDs(CALL1.ranked) == ORDER;
    var two := IDs(CALL2.ranked);
    assert two == ["2", "3"];
    assert PlaceOf(ORDER, ORDER[1]) < PlaceOf(ORDER, ORDER[2]);
  }

  lemma FirstOnPool()
    ensures OnPool(SMALL, Served(Start(map[]), CALL1), SetOf(ORDER), 0)
  {
    FirstCallServed();
    ThreeAvailable(0, 0);
    assert OnPool(SMALL, Start(map[]), SetOf(ORDER), 0);
  }

  lemma OriginIsEmpty()
    ensures Origin(Served(Served(Start(map[]), CALL1), CALL2)) == map[]
  {
    assert Origin(Served(Start(map[]), CALL1)) == Origin(Start(map[]));
  }

  lemma BothOnPool()
    ensures OnPool(SMALL, Served(Served(Start(map[]), CALL1), CALL2), SetOf(ORDER), 0)
  {
    FirstOnPool();
    SecondCallServed();
    FirstSeenState();
    ThreeAvailable(1, 1);
    OriginIsEmpty();
  }

  lemma FirstScrolls()
    ensures Scrolling(SMALL, Served(Start(map[]), CALL1), ORDER)
  {
    ThreeInOrder();
    FirstKept();
    assert Scrolling(SMALL, Start(map[]), ORDER) && Cursor(SMALL, Start(map[])) == 0;
  }

  /** The run that passes the second post over is such a scroll: blocks 0 and 2 of one post each. */
  lemma PassedOverIsScroll()
    ensures var h := Served(Served(Start(map[]), CALL1), CALL2);
      OnPool(SMALL, h, SetOf(ORDER), 0) && Scrolling(SMALL, h, ORDER)
  {
    BothOnPool();
    FirstScrolls();
    FirstCallServed();
    ThreeInOrder();
    SecondKept();
    assert Cursor(SMALL, Served(Start(map[]), CALL1)) == 1;
  }

  /** The block that position i lies in. */
  predicate InBlock(i: nat, block: nat, p: nat) {
    BlockStart(block, p) <= i < BlockStart(block, p) + p
  }

  /** The block of a position: its quotient by p. */
  function BlockOf(i: nat, p: nat): nat
    requires p >= 1
  {
    if i < p then 0 else BlockOf(i - p, p) + 1
  }

  lemma QuotientIs(i: nat, p: nat, q: nat)
    requires q * p <= i < q * p + p
    ensures i / p == q
  {
    assert i == i / p * p + i % p;
    NextMultiple(i / p, q, p);
    NextMultiple(q, i / p, p);
  }

  lemma NextMultiple(a: nat, b: nat, p: nat)
    ensures a < b ==> a * p + p <= b * p
  {
    if a < b {
      assert (a + 1) * p <= b * p;
    }
  }

  lemma BlockOfIsQuotient(i: nat, p: nat)
    requires p >= 1
    ensures BlockOf(i, p) == i / p
  {
    PositionHasBlock(i, p);
    BlockStartIsProduct(BlockOf(i, p), p);
    QuotientIs(i, p, BlockOf(i, p));
  }

  lemma {:induction false} PositionHasBlock(i: nat, p: nat)
    requires p >= 1
    ensures InBlock(i, BlockOf(i, p), p)
  {
    if i >= p { PositionHasBlock(i - p, p); }
  }

  lemma {:induction false} BlocksApart(a: nat, b: nat, p: nat)
    requires a < b
    ensures BlockStart(a, p) + p <= BlockStart(b, p)
  {
    if a < b - 1 { BlocksApart(a, b - 1, p); }
  }

  lemma BlockHolds(order: seq<string>, m: nat, p: nat, i: nat, block: nat)
    requires Distinct(order) && i < |order| && InBlock(i, block, p)
    ensures order[i] in Block(order, m, p) <==> block == m
  {
    if m < block {
      BlocksApart(m, block, p);
    } else if block < m {
      BlocksApart(block, m, p);
    }
    StretchHolds(order, BlockStart(m, p), BlockStart(block, p), p, i);
  }

  lemma StretchHolds(order: seq<string>, lo: nat, at: nat, p: nat, i: nat)
    requires Distinct(order) && i < |order| && at <= i < at + p
    requires lo == at || lo + p <= at || at + p <= lo
    ensures order[i] in order[Min(lo, |order|)..Min(lo + p, |order|)] <==> lo == at
  {
    PartHolds(order, Min(lo, |order|), Min(lo + p, |order|), i);
  }

  lemma OneMoreEven(block: nat, k: nat)
    ensures block % 2 == 0 && block < 2 * (k + 1) <==> (block % 2 == 0 && block < 2 * k) || block == 2 * k
  {}

  /** The pages of a history are blocks 0, 2, 4, ... */
  predicate PagesAreEven(h: History, order: seq<string>, p: nat) {
    match h
    case Start(_) => true
    case Served(b, c) => PagesAreEven(b, order, p) && IDs(c.page) == Block(order, 2 * Calls(b), p)
    case Reset(b) => false
  }

  lemma {:induction false} ScrollPagesAreEven(cfg: Config, h: History, order: seq<string>)
    requires cfg.pageSize >= 3 && Distinct(order) && Pages(cfg, h, order)
    ensures PagesAreEven(h, order, cfg.pageSize - 2)
  {
    match h
    case Start(_) =>
    case Served(b, c) =>
      ScrollPagesAreEven(cfg, b, order);
      EvenBlock(cfg, b, c, order);
  }

  lemma {:induction false} EvenPagesDeliver(h: History, order: seq<string>, p: nat, i: nat, block: nat)
    requires PagesAreEven(h, order, p) && Distinct(order) && i < |order| && InBlock(i, block, p)
    ensures order[i] in Delivered(h) <==> block % 2 == 0 && block < 2 * Calls(h)
  {
    match h
    case Start(_) =>
    case Served(b, c) =>
      EvenPagesDeliver(b, order, p, i, block);
      BlockHolds(order, 2 * Calls(b), p, i, block);
      OneMoreEven(block, Calls(b));
  }

  lemma PagesDeliver(cfg: Config, h: History, order: seq<string>, p: nat, i: nat, block: nat)
    requires cfg.pageSize >= 3 && p == cfg.pageSize - 2 && Distinct(order) && Pages(cfg, h, order)
    requires i < |order| && InBlock(i, block, p)
    ensures order[i] in Delivered(h) <==> block % 2 == 0 && block < 2 * Calls(h)
  {
    ScrollPagesAreEven(cfg, h, order);
    EvenPagesDeliver(h, order, p, i, block);
  }

  /** So k calls deliver exactly the even blocks among the first 2 * k, about half of the pool. */
  lemma HalfIsDelivered(cfg: Config, h: History, order: seq<string>, from: int, p: nat, i: nat)
    requires cfg.pageSize >= 3 && p == cfg.pageSize - 2 && Distinct(order)
    requires OnPool(cfg, h, SetOf(order), from) && Scrolling(cfg, h, order)
    requires i < |order|
    ensures order[i] in Delivered(h) <==> BlockOf(i, p) % 2 == 0 && BlockOf(i, p) < 2 * Calls(h)
  {
    ScrollingPages(cfg, h, order, from);
    PositionHasBlock(i, p);
    PagesDeliver(cfg, h, order, p, i, BlockOf(i, p));
  }

  lemma PartHolds(order: seq<string>, lo: nat, hi: nat, i: nat)
    requires Distinct(order) && lo <= hi <= |order| && i < |order|
    ensures order[i] in order[lo..hi] <==> lo <= i < hi
  {
    if lo <= i < hi {
      assert order[lo..hi][i - lo] == order[i];
    }
  }
}
