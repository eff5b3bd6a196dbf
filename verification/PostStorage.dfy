/** Sharded post storage: the write path (post_service.go, post_repo.go) and the per-shard
    scatter-gather reads (post_meta_repo.go, post_repo.go), against one logical table. */
module PostStorage {
  import opened Prelude
  import opened Snowflake
  import opened Minting

  datatype Post = Post(postID: int64, userID: int64, mediaURL: string, mediaType: int, caption: string, createdAt: int)

  datatype Failure =
    | InvalidInput
    | NoSuchShard
    | DuplicateKey
    | NilGenerator  // NewIDOnShard on a shard without a generator dereferences nil
    | ShardDown
    | RowWrite      // any other database error on the insert

  /** The posts table of every configured shard, keyed by primary key. */
  type Tables = map<int, map<int64, Post>>

  /** What every run of creates keeps: a row sits under its own key, on the shard named in its
      ID, which is also its author's shard. */
  ghost predicate Placed(tables: Tables) {
    forall s, id :: s in tables && id in tables[s] ==>
      var p := tables[s][id];
      p.postID == id && ExtractShardID(id) == s && ExtractShardID(p.userID) == s
  }

  ghost function LogicalIds(tables: Tables): set<int64> {
    set s, id | s in tables && id in tables[s] :: id
  }

  /** The one logical table that the shards together stand for. */
  ghost function Logical(tables: Tables): map<int64, Post>
    requires Placed(tables)
  {
    map id | id in LogicalIds(tables) :: tables[ExtractShardID(id)][id]
  }

  /** Sharding hides nothing and invents nothing: the logical table holds exactly the rows of
      the shards, and a primary key names one row across all of them. */
  lemma LogicalIsUnion(tables: Tables, id: int64)
    requires Placed(tables)
    ensures id in Logical(tables) <==> exists s :: s in tables && id in tables[s]
    ensures forall s :: s in tables && id in tables[s] ==> id in Logical(tables) && Logical(tables)[id] == tables[s][id]
    ensures id in Logical(tables) <==> ExtractShardID(id) in tables && id in tables[ExtractShardID(id)]
  {
    if s :| s in tables && id in tables[s] {
      assert id in LogicalIds(tables);
    }
  }

  function Put(table: map<int64, Post>, post: Post): map<int64, Post> {
    table[post.postID := post]
  }

  /** PostRepo.Create: INSERT on the shard that the post's own ID names. */
  function Insert(tables: Tables, post: Post): Result<Tables, Failure> {
    var s := ExtractShardID(post.postID);
    if s !in tables then Err(NoSuchShard)
    else if post.postID in tables[s] then Err(DuplicateKey)
    else Ok(tables[s := Put(tables[s], post)])
  }

  /** How the insert fails: it does not run, or it commits and then reports an error. */
  datatype Outage = NoOutage | RowLost | RowErrorAfterCommit

  /** One CreatePost call: its input, its creation time, the clock as its ID is minted, and what
      fails. */
  datatype Creation = Creation(authorID: int64, mediaURL: string, mediaType: int, caption: string,
                               createdAt: int, now: int, later: int, outage: Outage)

  /** PostRepo.Create under an outage. */
  function StorePost(tables: Tables, post: Post, outage: Outage): (Tables, Option<Failure>) {
    match Insert(tables, post)
    case Err(NoSuchShard) => (tables, Some(NoSuchShard))
    case Err(e) => (tables, Some(if outage == RowLost then RowWrite else e))
    case Ok(t) =>
      if outage == RowLost then (tables, Some(RowWrite))
      else (t, if outage == NoOutage then None else Some(RowWrite))
  }

  /** The shards and the ID generators. */
  datatype World = World(tables: Tables, gens: Gens)

  predicate ValidInput(c: Creation) {
    c.mediaURL != "" && 1 <= c.mediaType <= 3
  }

  /** The post as minted: its ID inherits the author's shard. */
  function NewPost(gens: Gens, c: Creation): Post
    requires ExtractShardID(c.authorID) in gens
  {
    var id := Mint(gens, ExtractShardID(c.authorID), c.now, c.later).1;
    Post(id, c.authorID, c.mediaURL, c.mediaType, c.caption, c.createdAt)
  }

  function GensAfter(gens: Gens, c: Creation): Gens {
    if ValidInput(c) && ExtractShardID(c.authorID) in gens
    then Mint(gens, ExtractShardID(c.authorID), c.now, c.later).0 else gens
  }

  function CreatePostSpec(w: World, c: Creation): (World, Result<Post, Failure>) {
    if !ValidInput(c) then (w, Err(InvalidInput))
    else if ExtractShardID(c.authorID) !in w.gens then (w, Err(NilGenerator))
    else
      var post := NewPost(w.gens, c);
      var (t, failure) := StorePost(w.tables, post, c.outage);
      (World(t, GensAfter(w.gens, c)), if failure.None? then Ok(post) else Err(failure.value))
  }

  /** Minting puts the post on its author's shard. */
  lemma NewPostInherits(gens: Gens, c: Creation)
    requires ExtractShardID(c.authorID) in gens
    ensures ExtractShardID(NewPost(gens, c).postID) == ExtractShardID(c.authorID)
  {
    MintRoutes(gens, ExtractShardID(c.authorID), c.now, c.later);
  }

  lemma InsertKeepsPlaced(tables: Tables, post: Post)
    requires Placed(tables) && ExtractShardID(post.postID) == ExtractShardID(post.userID)
    requires ExtractShardID(post.postID) in tables
    ensures var t := tables[ExtractShardID(post.postID) := Put(tables[ExtractShardID(post.postID)], post)];
      Placed(t) && LogicalIds(t) == LogicalIds(tables) + {post.postID}
  {
    var s := ExtractShardID(post.postID);
    var t := tables[s := Put(tables[s], post)];
    forall id ensures id in LogicalIds(t) <==> id in LogicalIds(tables) || id == post.postID {
      if id == post.postID { assert id in t[s]; }
      if r :| r in tables && id in tables[r] { assert r in t && id in t[r]; }
    }
  }

  lemma InsertIntoLogical(tables: Tables, post: Post)
    requires Placed(tables) && ExtractShardID(post.postID) == ExtractShardID(post.userID)
    ensures match Insert(tables, post)
      case Ok(t) => Placed(t) && t.Keys == tables.Keys && post.postID !in Logical(tables)
                    && Logical(t) == Logical(tables)[post.postID := post]
      case Err(e) => e == (if ExtractShardID(post.postID) !in tables then NoSuchShard else DuplicateKey)
                     && (e == DuplicateKey ==> post.postID in Logical(tables))
  {
    LogicalIsUnion(tables, post.postID);
    if Insert(tables, post).Ok? {
      InsertKeepsPlaced(tables, post);
      assert Logical(Insert(tables, post).value) == Logical(tables)[post.postID := post];
    }
  }

  // ---------- runs of creates ----------

  /** Creates one after another, with other entities minted from the same generators in between. */
  datatype Event = Create(c: Creation) | OtherMint(shard: ShardId, now: int, later: int)

  datatype Run = Start(w: World) | Then(before: Run, event: Event)

  function Next(w: World, e: Event): World {
    match e
    case Create(c) => CreatePostSpec(w, c).0
    case OtherMint(s, now, later) => if s in w.gens then w.(gens := Mint(w.gens, s, now, later).0) else w
  }

  function After(run: Run): World {
    match run
    case Start(w) => w
    case Then(r, e) => Next(After(r), e)
  }

  function Origin(run: Run): World {
    match run
    case Start(w) => w
    case Then(r, _) => Origin(r)
  }

  /** One create on a single database: unless the insert is lost, it accepts a valid post whose
      author's shard is configured and whose key is free. */
  function OneTableNext(shards: set<int>, table: map<int64, Post>, gens: Gens, c: Creation): map<int64, Post> {
    if ValidInput(c) && ExtractShardID(c.authorID) in gens && ExtractShardID(c.authorID) in shards
       && NewPost(gens, c).postID !in table && c.outage != RowLost
    then table[NewPost(gens, c).postID := NewPost(gens, c)] else table
  }

  ghost function OneTableAfter(run: Run): map<int64, Post>
    requires Placed(Origin(run).tables)
  {
    match run
    case Start(w) => Logical(w.tables)
    case Then(r, Create(c)) => OneTableNext(Origin(r).tables.Keys, OneTableAfter(r), After(r).gens, c)
    case Then(r, OtherMint(_, _, _)) => OneTableAfter(r)
  }

  lemma CreateRefines(w: World, c: Creation)
    requires Placed(w.tables)
    ensures var t := CreatePostSpec(w, c).0.tables;
      Placed(t) && t.Keys == w.tables.Keys && Logical(t) == OneTableNext(w.tables.Keys, Logical(w.tables), w.gens, c)
  {
    if ValidInput(c) && ExtractShardID(c.authorID) in w.gens {
      NewPostInherits(w.gens, c);
      InsertIntoLogical(w.tables, NewPost(w.gens, c));
    }
  }

  /** Refinement: in every run of creates, rejected ones included, the shards stand for the
      table a single database would have reached, and every row stays on its author's shard. */
  lemma {:induction false} RunRefinesOneTable(run: Run)
    requires Placed(Origin(run).tables)
    ensures var t := After(run).tables;
      Placed(t) && t.Keys == Origin(run).tables.Keys && Logical(t) == OneTableAfter(run)
  {
    match run
    case Start(_) =>
    case Then(r, Create(c)) =>
      RunRefinesOneTable(r);
      CreateRefines(After(r), c);
    case Then(r, OtherMint(_, _, _)) => RunRefinesOneTable(r);
  }

  /** The clock as a generator reads it never steps back behind what that generator minted. */
  ghost predicate ForwardClock(run: Run) {
    run.Then? ==> ForwardClock(run.before) && Forward(After(run.before), run.event)
  }

  predicate Forward(w: World, e: Event) {
    match e
    case Create(c) => ValidInput(c) ==> ClockForward(w.gens, ExtractShardID(c.authorID), c.now, c.later)
    case OtherMint(s, now, later) => ClockForward(w.gens, s, now, later)
  }

  /** Every row was minted before what its shard's generator minted last. */
  ghost predicate IdsBehind(w: World) {
    forall s :: s in w.tables ==> Behind(w.gens, s, w.tables[s].Keys)
  }

  lemma MintKeepsBehind(w: World, shard: ShardId, now: int, later: int)
    requires IdsBehind(w) && shard in w.gens && ClockForward(w.gens, shard, now, later)
    ensures IdsBehind(w.(gens := Mint(w.gens, shard, now, later).0))
  {
    forall s | s in w.tables ensures Behind(Mint(w.gens, shard, now, later).0, s, w.tables[s].Keys) {
      if s == shard { MintIsNew(w.gens, shard, now, later, w.tables[s].Keys); }
    }
  }

  lemma CreateKeepsBehind(w: World, c: Creation)
    requires IdsBehind(w) && Forward(w, Create(c))
    ensures IdsBehind(CreatePostSpec(w, c).0)
  {
    var s := ExtractShardID(c.authorID);
    if ValidInput(c) && s in w.gens {
      MintKeepsBehind(w, s, c.now, c.later);
      NewPostInherits(w.gens, c);
      if s in w.tables {
        MintIsNew(w.gens, s, c.now, c.later, w.tables[s].Keys);
        assert Put(w.tables[s], NewPost(w.gens, c)).Keys == w.tables[s].Keys + {NewPost(w.gens, c).postID};
      }
    }
  }

  lemma {:induction false} RunKeepsBehind(run: Run)
    requires IdsBehind(Origin(run)) && ForwardClock(run)
    ensures IdsBehind(After(run))
  {
    match run
    case Start(_) =>
    case Then(r, Create(c)) =>
      RunKeepsBehind(r);
      CreateKeepsBehind(After(r), c);
    case Then(r, OtherMint(s, now, later)) =>
      RunKeepsBehind(r);
      if s in After(r).gens { MintKeepsBehind(After(r), s, now, later); }
  }

  /** No create of such a run is ever refused for its key: it succeeds exactly when its input is
      valid, its author's shard is configured and the database reports no error. */
  lemma CreateSucceedsIff(run: Run, c: Creation)
    requires IdsBehind(Origin(run)) && ForwardClock(Then(run, Create(c)))
    ensures var w := After(run);
      CreatePostSpec(w, c).1.Ok? <==>
        && ValidInput(c) && ExtractShardID(c.authorID) in w.gens && ExtractShardID(c.authorID) in w.tables
        && c.outage == NoOutage
    ensures CreatePostSpec(After(run), c).1 != Err(DuplicateKey)
  {
    var w, s := After(run), ExtractShardID(c.authorID);
    RunKeepsBehind(run);
    if ValidInput(c) && s in w.gens {
      NewPostInherits(w.gens, c);
      if s in w.tables { MintIsNew(w.gens, s, c.now, c.later, w.tables[s].Keys); }
    }
  }

  // ---------- reads ----------

  /** The IDs that groupByShard routes to shard s: parsed, on s, in request order. */
  function Bucket(ids: seq<string>, s: int): seq<int64> {
    if ids == [] then []
    else
      var rest := Bucket(ids[..|ids| - 1], s);
      match ParseInt64(ids[|ids| - 1])
      case None => rest
      case Some(id) => if ExtractShardID(id) == s then rest + [id] else rest
  }

  ghost predicate Requested(ids: seq<string>, id: int64) {
    exists i :: 0 <= i < |ids| && ParseInt64(ids[i]) == Some(id)
  }

  lemma {:induction false} BucketHolds(ids: seq<string>, s: int, id: int64)
    ensures id in Bucket(ids, s) <==> Requested(ids, id) && ExtractShardID(id) == s
  {
    if ids != [] {
      var r := ids[..|ids| - 1];
      BucketHolds(r, s, id);
      if Requested(r, id) {
        var i :| 0 <= i < |r| && ParseInt64(r[i]) == Some(id);
        assert ParseInt64(ids[i]) == Some(id);
      }
      if Requested(ids, id) {
        var i :| 0 <= i < |ids| && ParseInt64(ids[i]) == Some(id);
        if i < |r| {
          assert ParseInt64(r[i]) == Some(id);
        }
      }
    }
  }

  /** SELECT ... WHERE user_id = ANY(authors), before ORDER BY and LIMIT. */
  function ByAuthors(table: map<int64, Post>, authors: seq<int64>): set<Post> {
    set id | id in table && table[id].userID in authors :: table[id]
  }

  /** What ORDER BY created_at DESC LIMIT n may return: any ordering of ties, nothing older kept
      than what was cut. */
  ghost predicate IsRecent(matches: set<Post>, limit: nat, out: seq<Post>) {
    && Distinct(out) && SetOf(out) <= matches
    && |out| == Min(|matches|, limit)
    && (forall i, j :: 0 <= i < j < |out| ==> out[i].createdAt >= out[j].createdAt)
    && (forall p, q :: p in out && q in matches && q !in out ==> p.createdAt >= q.createdAt)
  }

  lemma RecentComplete(matches: set<Post>, limit: nat, out: seq<Post>)
    requires IsRecent(matches, limit, out)
    ensures SetOf(out) == matches <==> |matches| <= limit
  {
    DistinctCard(out);
    SubsetCard(SetOf(out), matches);
  }

  /** The rows the authors' query would find in the logical table, without any LIMIT. */
  ghost function PostsOf(table: map<int64, Post>, authors: seq<string>): set<Post> {
    set id | id in table && Requested(authors, table[id].userID) :: table[id]
  }

  // ---------- what a run leaves for its readers ----------

  /** Some create of the run asked for this post: its author, its media, its caption, its time. */
  predicate AskedFor(run: Run, post: Post) {
    run.Then? && (AskedFor(run.before, post) || Asks(run.event, post))
  }

  predicate Asks(event: Event, post: Post) {
    && event.Create?
    && post == Post(post.postID, event.c.authorID, event.c.mediaURL, event.c.mediaType, event.c.caption,
                    event.c.createdAt)
  }

  /** Some create of the run returned this post. */
  predicate Returned(run: Run, post: Post) {
    run.Then? && (Returned(run.before, post)
                  || (run.event.Create? && CreatePostSpec(After(run.before), run.event.c).1 == Ok(post)))
  }

  lemma CreateAddsAsked(w: World, c: Creation, id: int64)
    requires Placed(w.tables)
    ensures var was, now := Logical(w.tables), OneTableNext(w.tables.Keys, Logical(w.tables), w.gens, c);
      && (id in was ==> id in now && now[id] == was[id])
      && (id in now && id !in was ==> now[id].postID == id && Asks(Create(c), now[id]))
  {}

  /** No row is invented, changed or lost: what the shards hold after a run is every row they held
      before it, unchanged, and rows that creates of the run asked for. */
  lemma {:induction false} RowsAreAskedFor(run: Run, id: int64)
    requires Placed(Origin(run).tables)
    ensures Placed(After(run).tables)
    ensures var was, now := Logical(Origin(run).tables), Logical(After(run).tables);
      && (id in was ==> id in now && now[id] == was[id])
      && (id in now && id !in was ==> now[id].postID == id && AskedFor(run, now[id]))
  {
    RunRefinesOneTable(run);
    if run.Then? {
      RowsAreAskedFor(run.before, id);
      RunRefinesOneTable(run.before);
      if run.event.Create? {
        CreateAddsAsked(After(run.before), run.event.c, id);
      }
    }
  }

  lemma CreateReturns(w: World, c: Creation, post: Post)
    requires Placed(w.tables) && CreatePostSpec(w, c).1 == Ok(post)
    ensures Asks(Create(c), post) && c.outage == NoOutage
    ensures var now := OneTableNext(w.tables.Keys, Logical(w.tables), w.gens, c);
      post.postID in now && now[post.postID] == post
    ensures post.postID !in Logical(w.tables)
  {
    NewPostInherits(w.gens, c);
    InsertIntoLogical(w.tables, NewPost(w.gens, c));
  }

  /** Whatever a create returned stays readable for the rest of the run: under its own ID, and to
      an unlimited query exactly when the query names its author. */
  lemma {:induction false} ReturnedIsFound(run: Run, post: Post, authors: seq<string>)
    requires Placed(Origin(run).tables) && Returned(run, post)
    ensures Placed(After(run).tables) && AskedFor(run, post)
    ensures var now := Logical(After(run).tables);
      && post.postID in now && now[post.postID] == post
      && (post in PostsOf(now, authors) <==>
            exists i :: 0 <= i < |authors| && ParseInt64(authors[i]) == Some(post.userID))
  {
    RunRefinesOneTable(run);
    RunRefinesOneTable(run.before);
    if Returned(run.before, post) {
      ReturnedIsFound(run.before, post, authors);
      if run.event.Create? {
        CreateAddsAsked(After(run.before), run.event.c, post.postID);
      }
    } else {
      CreateReturns(After(run.before), run.event.c, post);
    }
    assert forall id :: id in Logical(After(run).tables) ==> Logical(After(run).tables)[id].postID == id;
  }

  /** What such an answer is on the table's own rows: rows of the asked authors, newest first, and a
      row of theirs is missing only from a full answer with nothing older in it. */
  lemma RecentOfTable(table: map<int64, Post>, authors: seq<int64>, limit: nat, out: seq<Post>)
    requires IsRecent(ByAuthors(table, authors), limit, out)
    ensures |out| <= limit
    ensures forall p :: p in out ==> p.userID in authors && exists id :: id in table && table[id] == p
    ensures forall i, j :: 0 <= i < j < |out| ==> out[i] != out[j] && out[i].createdAt >= out[j].createdAt
    ensures forall id :: id in table && table[id].userID in authors && table[id] !in out ==>
              |out| == limit && forall p :: p in out ==> p.createdAt >= table[id].createdAt
  {
    var matches := ByAuthors(table, authors);
    forall p | p in out ensures p in matches {
      assert p in SetOf(out);
    }
    forall id | id in table && table[id].userID in authors && table[id] !in out
      ensures |out| == limit && forall p :: p in out ==> p.createdAt >= table[id].createdAt
    {
      assert table[id] in matches;
      RecentComplete(matches, limit, out);
    }
  }

  class ShardedPool {
    var tables: Tables

    constructor (shards: set<int>)
      ensures tables == map s | s in shards :: map[]
    {
      tables := map s | s in shards :: map[];
    }

    /** PostRepo.Create: the row goes to the shard that its own ID names. */
    method Create(post: Post, outage: Outage) returns (failure: Option<Failure>)
      modifies this
      ensures (tables, failure) == StorePost(old(tables), post, outage)
    {
      var s := ExtractShardID(post.postID);
      if s !in tables {
        return Some(NoSuchShard);
      }
      if outage == RowLost {
        return Some(RowWrite);
      }
      if post.postID in tables[s] {
        return Some(DuplicateKey);
      }
      tables := tables[s := Put(tables[s], post)];
      return if outage == NoOutage then None else Some(RowWrite);
    }

    /** groupByShard: drop what does not parse or routes outside the topology. */
    method GroupByShard(ids: seq<string>) returns (byShard: map<int, seq<int64>>)
      ensures byShard.Keys <= tables.Keys
      ensures forall s :: s in byShard <==> s in tables && Bucket(ids, s) != []
      ensures forall s :: s in byShard ==> byShard[s] == Bucket(ids, s)
    {
      byShard := map[];
      for i := 0 to |ids|
        invariant byShard.Keys <= tables.Keys
        invariant forall s :: s in byShard <==> s in tables && Bucket(ids[..i], s) != []
        invariant forall s :: s in byShard ==> byShard[s] == Bucket(ids[..i], s)
      {
        assert ids[..i + 1][..i] == ids[..i];
        match ParseInt64(ids[i])
        case None =>
        case Some(id) =>
          var s := ExtractShardID(id);
          if s in tables {
            byShard := byShard[s := (if s in byShard then byShard[s] else []) + [id]];
          }
      }
      assert ids[..|ids|] == ids;
    }

    /** GetBatch: shard replies arrive in any order; one failed shard fails the batch. The
        merged map is a lookup of the requested IDs in the logical table. */
    method GetBatch(ids: seq<string>, down: set<int>) returns (r: Result<map<string, Post>, Failure>)
      requires Placed(tables)
      ensures r.Err? <==> exists id :: Requested(ids, id) && ExtractShardID(id) in tables && ExtractShardID(id) in down
      ensures r.Ok? ==> IsLookup(ids, Logical(tables), r.value)
    {
      var byShard := GroupByShard(ids);
      var pending := byShard.Keys;
      var failed := false;
      var out: map<string, Post> := map[];
      ghost var served: set<int64> := {};
      while pending != {}
        invariant pending <= byShard.Keys
        invariant failed <==> exists s :: s in byShard.Keys - pending && s in down
        invariant Holds(served, out)
        invariant forall id :: id in served <==> Answered(byShard, byShard.Keys - pending - down, id)
      {
        ghost var some := Inhabitant(pending);
        var shard :| shard in pending;
        pending := pending - {shard};
        if shard in down {
          failed := true;
        } else {
          forall id | id in byShard[shard] ensures ExtractShardID(id) == shard { BucketHolds(ids, shard, id); }
          out, served := MergeReply(shard, byShard[shard], out, served);
        }
      }
      BucketsCover(ids, byShard);
      if failed {
        ghost var s :| s in byShard && s in down;
        assert byShard[s][0] in Bucket(ids, s);
        BucketHolds(ids, s, byShard[s][0]);
        return Err(ShardDown);
      }
      assert byShard.Keys - pending - down == byShard.Keys by {
        assert forall s :: s in byShard.Keys - pending ==> s !in down;
      }
      forall id ensures id in served <==> id in Logical(tables) && Requested(ids, id) {
        AnsweredIff(ids, byShard, id);
      }
      return Ok(out);
    }

    /** One shard's reply: the rows WHERE post_id = ANY(bucket), each stored under its printed ID. */
    method MergeReply(shard: int, bucket: seq<int64>, before: map<string, Post>, ghost servedBefore: set<int64>)
      returns (out: map<string, Post>, ghost served: set<int64>)
      requires Placed(tables) && shard in tables && Holds(servedBefore, before)
      requires forall id :: id in bucket ==> ExtractShardID(id) == shard
      ensures Holds(served, out)
      ensures forall id :: id in served <==> id in servedBefore || (id in bucket && id in tables[shard])
    {
      out, served := before, servedBefore;
      for i := 0 to |bucket|
        invariant Holds(served, out)
        invariant forall id :: id in served <==> id in servedBefore || (id in bucket[..i] && id in tables[shard])
      {
        if bucket[i] in tables[shard] {
          HoldsOneMore(served, out, bucket[i]);
          out := out[Decimal(bucket[i]) := tables[shard][bucket[i]]];
          served := served + {bucket[i]};
        }
      }
      assert bucket[..|bucket|] == bucket;
    }

    lemma BucketsCover(ids: seq<string>, byShard: map<int, seq<int64>>)
      requires forall s :: s in byShard <==> s in tables && Bucket(ids, s) != []
      ensures forall id :: Requested(ids, id) && ExtractShardID(id) in tables ==> ExtractShardID(id) in byShard
    {
      forall id | Requested(ids, id) && ExtractShardID(id) in tables ensures ExtractShardID(id) in byShard {
        BucketHolds(ids, ExtractShardID(id), id);
      }
    }

    lemma AnsweredIff(ids: seq<string>, byShard: map<int, seq<int64>>, id: int64)
      requires Placed(tables)
      requires forall s :: s in byShard <==> s in tables && Bucket(ids, s) != []
      requires forall s :: s in byShard ==> byShard[s] == Bucket(ids, s)
      ensures Answered(byShard, byShard.Keys, id) <==> id in Logical(tables) && Requested(ids, id)
    {
      LogicalIsUnion(tables, id);
      BucketHolds(ids, ExtractShardID(id), id);
      if s :| s in byShard && s in tables && id in byShard[s] && id in tables[s] {
        BucketHolds(ids, s, id);
      }
    }

    /** RecentByAuthors: each shard answers with its newest rows up to its own LIMIT, and the
        answers are appended as they arrive. Complete exactly when no shard had more rows than
        its LIMIT. */
    method RecentByAuthors(authors: seq<string>, limitPerAuthor: nat, down: set<int>)
      returns (r: Result<seq<Post>, Failure>)
      requires Placed(tables)
      ensures r.Err? <==>
        exists id :: Requested(authors, id) && ExtractShardID(id) in tables && ExtractShardID(id) in down
      ensures r.Ok? ==> Distinct(r.value) && SetOf(r.value) <= PostsOf(Logical(tables), authors)
      ensures r.Ok? ==> (SetOf(r.value) == PostsOf(Logical(tables), authors) <==> WithinLimits(authors, limitPerAuthor))
    {
      var byShard := GroupByShard(authors);
      var pending := byShard.Keys;
      var failed := false;
      var all: seq<Post> := [];
      ghost var replies: map<int, seq<Post>> := map[];
      while pending != {}
        invariant pending <= byShard.Keys
        invariant failed <==> exists s :: s in byShard.Keys - pending && s in down
        invariant replies.Keys == byShard.Keys - pending - down
        invariant Gathered(authors, limitPerAuthor, replies, all)
      {
        ghost var some := Inhabitant(pending);
        var shard :| shard in pending;
        pending := pending - {shard};
        if shard in down {
          failed := true;
        } else {
          var reply := QueryRecent(tables[shard], byShard[shard], limitPerAuthor * |byShard[shard]|);
          GatherOneMore(authors, limitPerAuthor, replies, all, shard, reply);
          replies := replies[shard := reply];
          all := all + reply;
        }
      }
      BucketsCover(authors, byShard);
      if failed {
        ghost var s :| s in byShard && s in down;
        assert byShard[s][0] in Bucket(authors, s);
        BucketHolds(authors, s, byShard[s][0]);
        return Err(ShardDown);
      }
      assert byShard.Keys - pending - down == byShard.Keys by {
        assert forall s :: s in byShard.Keys - pending ==> s !in down;
      }
      GatherComplete(authors, limitPerAuthor, replies, all);
      return Ok(all);
    }

    /** ORDER BY created_at DESC LIMIT: repeatedly take a newest remaining row. */
    method QueryRecent(table: map<int64, Post>, authors: seq<int64>, limit: nat) returns (out: seq<Post>)
      ensures IsRecent(ByAuthors(table, authors), limit, out)
    {
      var matches := ByAuthors(table, authors);
      var rest := matches;
      out := [];
      while rest != {} && |out| < limit
        invariant rest !! SetOf(out) && SetOf(out) + rest == matches
        invariant |out| <= limit && |out| + |rest| == |matches|
        invariant NewestFirst(out, rest)
        decreases rest
      {
        var newest := Newest(rest);
        TakeNewest(out, rest, newest);
        out := out + [newest];
        rest := rest - {newest};
      }
      assert forall q :: q in matches && q !in SetOf(out) ==> q in rest;
    }

    /** out is sorted, free of repeats, and no older than anything still in rest. */
    ghost predicate NewestFirst(out: seq<Post>, rest: set<Post>) {
      && Distinct(out)
      && (forall i, j :: 0 <= i < j < |out| ==> out[i].createdAt >= out[j].createdAt)
      && (forall p, q :: p in out && q in rest ==> p.createdAt >= q.createdAt)
    }

    lemma TakeNewest(out: seq<Post>, rest: set<Post>, p: Post)
      requires NewestFirst(out, rest) && rest !! SetOf(out)
      requires p in rest && forall q :: q in rest ==> p.createdAt >= q.createdAt
      ensures NewestFirst(out + [p], rest - {p})
      ensures SetOf(out + [p]) == SetOf(out) + {p}
    {
      assert p !in SetOf(out);
    }

    method Newest(posts: set<Post>) returns (p: Post)
      requires posts != {}
      ensures p in posts && forall q :: q in posts ==> p.createdAt >= q.createdAt
    {
      ghost var some := Inhabitant(posts);
      p :| p in posts;
      var rest := posts - {p};
      while rest != {}
        invariant p in posts && rest <= posts
        invariant forall q :: q in posts ==> q in rest || p.createdAt >= q.createdAt
      {
        some := Inhabitant(rest);
        var q :| q in rest;
        if q.createdAt > p.createdAt { p := q; }
        rest := rest - {q};
      }
    }

    ghost predicate WithinLimits(authors: seq<string>, limitPerAuthor: nat)
      reads this
    {
      forall s :: s in tables ==>
        |ByAuthors(tables[s], Bucket(authors, s))| <= limitPerAuthor * |Bucket(authors, s)|
    }

    lemma AuthorsOnShard(authors: seq<string>, s: int, p: Post)
      requires Placed(tables) && s in tables
      ensures p in ByAuthors(tables[s], Bucket(authors, s)) <==>
        p in PostsOf(Logical(tables), authors) && ExtractShardID(p.userID) == s
    {
      BucketHolds(authors, s, p.userID);
      LogicalIsUnion(tables, p.postID);
    }

    /** all is the concatenation, in some order, of the answers of the shards in replies. */
    ghost predicate Gathered(authors: seq<string>, limitPerAuthor: nat, replies: map<int, seq<Post>>, all: seq<Post>)
      reads this
    {
      && replies.Keys <= tables.Keys
      && (forall s :: s in replies ==>
            IsRecent(ByAuthors(tables[s], Bucket(authors, s)), limitPerAuthor * |Bucket(authors, s)|, replies[s]))
      && Distinct(all)
      && (forall p :: p in all ==> ExtractShardID(p.userID) in replies && p in replies[ExtractShardID(p.userID)])
      && (forall s, p :: s in replies && p in replies[s] ==> p in all)
    }

    lemma GatherOneMore(authors: seq<string>, limitPerAuthor: nat, replies: map<int, seq<Post>>, all: seq<Post>,
                        shard: int, reply: seq<Post>)
      requires Placed(tables) && Gathered(authors, limitPerAuthor, replies, all)
      requires shard in tables && shard !in replies
      requires var ids := Bucket(authors, shard);
        IsRecent(ByAuthors(tables[shard], ids), limitPerAuthor * |ids|, reply)
      ensures Gathered(authors, limitPerAuthor, replies[shard := reply], all + reply)
    {
      forall p | p in reply ensures ExtractShardID(p.userID) == shard {
        assert p in SetOf(reply);
        AuthorsOnShard(authors, shard, p);
      }
    }

    lemma GatherComplete(authors: seq<string>, limitPerAuthor: nat, replies: map<int, seq<Post>>, all: seq<Post>)
      requires Placed(tables)
      requires forall s :: s in replies <==> s in tables && Bucket(authors, s) != []
      requires Gathered(authors, limitPerAuthor, replies, all)
      ensures SetOf(all) <= PostsOf(Logical(tables), authors)
      ensures SetOf(all) == PostsOf(Logical(tables), authors) <==> WithinLimits(authors, limitPerAuthor)
    {
      var wanted := PostsOf(Logical(tables), authors);
      forall p | p in all ensures p in wanted {
        var s := ExtractShardID(p.userID);
        assert p in SetOf(replies[s]);
        AuthorsOnShard(authors, s, p);
      }
      forall s | s in replies
        ensures SetOf(replies[s]) == ByAuthors(tables[s], Bucket(authors, s))
          <==> |ByAuthors(tables[s], Bucket(authors, s))| <= limitPerAuthor * |Bucket(authors, s)|
      {
        RecentComplete(ByAuthors(tables[s], Bucket(authors, s)), limitPerAuthor * |Bucket(authors, s)|, replies[s]);
      }
      if SetOf(all) == wanted {
        forall s | s in replies ensures ByAuthors(tables[s], Bucket(authors, s)) <= SetOf(replies[s]) {
          AllFromOwnShard(authors, limitPerAuthor, replies, all, s);
        }
      }
      if WithinLimits(authors, limitPerAuthor) {
        forall p | p in wanted ensures p in all {
          var s := ExtractShardID(p.userID);
          LogicalIsUnion(tables, p.postID);
          AuthorsOnShard(authors, s, p);
          assert p in SetOf(replies[s]);
        }
      }
    }

    lemma AllFromOwnShard(authors: seq<string>, limitPerAuthor: nat, replies: map<int, seq<Post>>, all: seq<Post>,
                          s: int)
      requires Placed(tables) && s in replies && Gathered(authors, limitPerAuthor, replies, all)
      requires PostsOf(Logical(tables), authors) <= SetOf(all)
      ensures ByAuthors(tables[s], Bucket(authors, s)) <= SetOf(replies[s])
    {
      forall p | p in ByAuthors(tables[s], Bucket(authors, s)) ensures p in replies[s] {
        AuthorsOnShard(authors, s, p);
        assert p in SetOf(all);
      }
    }

    /** Some shard that replied was asked for id and has it. */
    ghost predicate Answered(byShard: map<int, seq<int64>>, replied: set<int>, id: int64)
      reads this
    {
      exists s :: s in replied && s in byShard && s in tables && id in byShard[s] && id in tables[s]
    }

    /** out carries the rows of exactly the served IDs, each under its printed ID. */
    ghost predicate Holds(served: set<int64>, out: map<string, Post>)
      reads this
    {
      && (forall id :: id in served ==> Decimal(id) in out && out[Decimal(id)].postID == id)
      && (forall k :: k in out ==>
            var p := out[k];
            var s := ExtractShardID(p.postID);
            && k == Decimal(p.postID) && p.postID in served
            && s in tables && p.postID in tables[s] && tables[s][p.postID] == p)
    }

    lemma HoldsOneMore(served: set<int64>, out: map<string, Post>, id: int64)
      requires Placed(tables) && Holds(served, out)
      requires ExtractShardID(id) in tables && id in tables[ExtractShardID(id)]
      ensures Holds(served + {id}, out[Decimal(id) := tables[ExtractShardID(id)][id]])
    {
      forall other | other in served && Decimal(other) == Decimal(id) ensures other == id {
        DecimalInjective(other, id);
      }
    }
  }

  class PostService {
    const store: ShardedPool
    const minter: Minting.ShardedPool

    constructor (store: ShardedPool, minter: Minting.ShardedPool)
      ensures this.store == store && this.minter == minter
    {
      this.store, this.minter := store, minter;
    }

    function State(): World
      reads store, minter.gens.Values
    {
      World(store.tables, minter.State())
    }

    /** CreatePost. An author from outside the topology panics in the minter; a publish error is
        reported after the row is already committed. */
    method CreatePost(authorID: int64, mediaURL: string, mediaType: int, caption: string, createdAt: int,
                      clock: Clock, outage: Outage, publishFails: bool)
      returns (r: Result<Post, Failure>, published: bool)
      requires WiredUp(minter.ring, minter.gens) && minter.ClockSuffices(clock, ExtractShardID(authorID))
      modifies store, clock, minter.gens.Values
      ensures clock.ticks >= old(clock.ticks)
      ensures (State(), r) == CreatePostSpec(old(State()),
        Creation(authorID, mediaURL, mediaType, caption, createdAt,
                 clock.Stamp(old(clock.ticks)), LastStamp(clock), outage))
      ensures published == (r.Ok? && !publishFails)
      ensures r == Err(InvalidInput) <==> mediaURL == "" || mediaType < 1 || mediaType > 3
      ensures r.Ok? ==> r.value == Post(r.value.postID, authorID, mediaURL, mediaType, caption, createdAt)
      ensures r.Ok? ==> outage == NoOutage && ExtractShardID(r.value.postID) == ExtractShardID(authorID)
      ensures var s := ExtractShardID(authorID);
        r.Ok? ==> s in store.tables && r.value.postID in store.tables[s]
                  && store.tables[s][r.value.postID] == r.value && r.value.postID !in old(store.tables)[s]
    {
      if mediaURL == "" || !(1 <= mediaType <= 3) {
        return Err(InvalidInput), false;
      }
      var id := minter.NewIDInheritingShard(authorID, clock);
      if id.None? {
        return Err(NilGenerator), false;
      }
      var post := Post(id.value, authorID, mediaURL, mediaType, caption, createdAt);
      ghost var gens := minter.State();
      var failure := store.Create(post, outage);
      assert minter.State() == gens;
      if failure.Some? {
        return Err(failure.value), false;
      }
      return Ok(post), !publishFails;
    }

    /** The reading before the next one. */
    static function LastStamp(clock: Clock): int
      reads clock
    {
      clock.Stamp(if clock.ticks == 0 then 0 else clock.ticks - 1)
    }
  }

  /** out is exactly the requested rows of the table, keyed by printed ID. */
  ghost predicate IsLookup(ids: seq<string>, table: map<int64, Post>, out: map<string, Post>) {
    && (forall id :: id in table && Requested(ids, id) ==> Decimal(id) in out && out[Decimal(id)] == table[id])
    && (forall k :: k in out ==>
          var id := out[k].postID; k == Decimal(id) && Requested(ids, id) && id in table && table[id] == out[k])
  }

  /** The lookup leaves no freedom: any two answers for the same request are equal, so neither
      the number of shards nor the arrival order of replies can show. */
  lemma LookupUnique(ids: seq<string>, table: map<int64, Post>, a: map<string, Post>, b: map<string, Post>)
    requires IsLookup(ids, table, a) && IsLookup(ids, table, b)
    ensures a == b
  {}
}
