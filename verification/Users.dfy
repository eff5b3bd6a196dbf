/** Sign-up: user_service.go mints an ID through the ring and writes the sharded users row, the
    graph node and the username directory one after another, with no shared transaction. */
module Users {
  import opened Prelude
  import opened Snowflake
  import opened Minting
  import Ring

  datatype User = User(userID: int64, username: string, lastActiveAt: int)

  const USERNAME_LIMIT := 64  // VARCHAR(64)

  type Tables = map<int, map<int64, User>>

  /** The three stores a sign-up touches. */
  datatype Stores = Stores(users: Tables, graph: map<int64, string>, directory: map<string, int64>)

  /** The stores and the ID generators. */
  datatype World = World(stores: Stores, gens: Gens)

  datatype Failure =
    | InvalidInput
    | NilGenerator  // the ring chose a shard without a generator
    | NoSuchShard
    | AlreadyExists
    | NotFound
    | QueryFailed
    | RowWrite
    | GraphWrite
    | DirectoryWrite

  /** Which write of this call fails; a row write may also commit and then report an error. */
  datatype Outage = NoOutage | RowLost | RowErrorAfterCommit | GraphDown | DirectoryDown

  /** One CreateUser call: what it is given, the clock as its ID is minted, and what fails. */
  datatype Signup = Signup(username: string, now: int, later: int, activeAt: int, outage: Outage)

  predicate NameTaken(table: map<int64, User>, username: string) {
    exists id :: id in table && table[id].username == username
  }

  function Put(table: map<int64, User>, user: User): map<int64, User> {
    table[user.userID := user]
  }

  /** INSERT INTO users on the shard in the ID, under its PRIMARY KEY and UNIQUE (username). */
  function InsertUser(users: Tables, user: User): Result<Tables, Failure> {
    var s := ExtractShardID(user.userID);
    if s !in users then Err(NoSuchShard)
    else if |user.username| > USERNAME_LIMIT then Err(RowWrite)
    else if user.userID in users[s] || NameTaken(users[s], user.username) then Err(AlreadyExists)
    else Ok(users[s := Put(users[s], user)])
  }

  /** MERGE ... ON CREATE SET: an existing node keeps its name. */
  function EnsureUserNode(graph: map<int64, string>, id: int64, username: string): map<int64, string> {
    if id in graph then graph else graph[id := username]
  }

  /** The three writes of a sign-up, in order. */
  function StoreUser(st: Stores, user: User, outage: Outage): (Stores, Result<User, Failure>) {
    if outage == RowLost then (st, Err(RowWrite))
    else
      match InsertUser(st.users, user)
      case Err(e) => (st, Err(e))
      case Ok(users) =>
        var rowed := st.(users := users);
        if outage == RowErrorAfterCommit then (rowed, Err(RowWrite))
        else if outage == GraphDown then (rowed, Err(GraphWrite))
        else
          var noded := rowed.(graph := EnsureUserNode(rowed.graph, user.userID, user.username));
          if outage == DirectoryDown then (noded, Err(DirectoryWrite))
          else (noded.(directory := noded.directory[user.username := user.userID]), Ok(user))
  }

  /** CreateUser reaches its stores: the name is not empty and its shard has a generator. */
  predicate Mints(place: string -> int, w: World, c: Signup) {
    c.username != "" && place(c.username) in w.gens
  }

  /** The user that the call mints, on the shard where the ring puts the name. */
  function NewUser(place: string -> int, w: World, c: Signup): User
    requires Mints(place, w, c)
  {
    User(Mint(w.gens, place(c.username), c.now, c.later).1, c.username, c.activeAt)
  }

  function CreateUserSpec(place: string -> int, w: World, c: Signup): (World, Result<User, Failure>) {
    if c.username == "" then (w, Err(InvalidInput))
    else if place(c.username) !in w.gens then (w, Err(NilGenerator))
    else
      var (st, r) := StoreUser(w.stores, NewUser(place, w, c), c.outage);
      (World(st, Mint(w.gens, place(c.username), c.now, c.later).0), r)
  }

  lemma NewUserRoutes(place: string -> int, w: World, c: Signup)
    requires Mints(place, w, c)
    ensures ExtractShardID(NewUser(place, w, c).userID) == place(c.username)
  {
    MintRoutes(w.gens, place(c.username), c.now, c.later);
  }

  class UserService {
    const pool: ShardedPool
    var users: Tables
    var graph: map<int64, string>
    var directory: map<string, int64>

    constructor (pool: ShardedPool)
      ensures this.pool == pool && Stored() == Empty(pool.gens.Keys)
    {
      this.pool := pool;
      users := map s | s in pool.gens.Keys :: map[];
      graph := map[];
      directory := map[];
    }

    function Stored(): Stores
      reads this
    {
      Stores(users, graph, directory)
    }

    function State(): World
      reads this, pool.gens.Values
    {
      World(Stored(), pool.State())
    }

    predicate InAllStores(user: User)
      reads this
    {
      var s := ExtractShardID(user.userID);
      && s in users && user.userID in users[s] && users[s][user.userID] == user
      && user.userID in graph
      && user.username in directory && directory[user.username] == user.userID
    }

    /** CreateUser: the name is placed by the ring and the row follows its ID. */
    method CreateUser(username: string, clock: Clock, activeAt: int, outage: Outage) returns (r: Result<User, Failure>)
      requires WiredUp(pool.ring, pool.gens) && pool.ring.Valid() && pool.ring.nodes != []
      requires username != "" ==> pool.ClockSuffices(clock, Placement(pool.ring)(username))
      modifies this, clock, pool.gens.Values
      ensures username == "" ==> State() == old(State()) && r == Err(InvalidInput)
      ensures username != "" ==> clock.ticks > old(clock.ticks)
      ensures username != "" ==>
        (State(), r) == CreateUserSpec(Placement(pool.ring), old(State()),
          Signup(username, clock.Stamp(old(clock.ticks)), clock.Stamp(clock.ticks - 1), activeAt, outage))
      ensures r.Ok? ==> outage == NoOutage && r.value == User(r.value.userID, username, activeAt)
      ensures r.Ok? ==> InAllStores(r.value)
    {
      if username == "" {
        return Err(InvalidInput);
      }
      var user := MintUser(username, clock, activeAt);
      r := Write(user, outage);
    }

    /** The ring places the name, and its shard's generator mints the ID. */
    method MintUser(username: string, clock: Clock, activeAt: int) returns (user: User)
      requires WiredUp(pool.ring, pool.gens) && pool.ring.Valid() && pool.ring.nodes != []
      requires pool.ClockSuffices(clock, Placement(pool.ring)(username))
      modifies clock, pool.gens.Values
      ensures clock.ticks > old(clock.ticks) && Placement(pool.ring)(username) in pool.gens
      ensures (pool.State(), user.userID) == Mint(old(pool.State()), Placement(pool.ring)(username),
                                                  clock.Stamp(old(clock.ticks)), clock.Stamp(clock.ticks - 1))
      ensures user == User(user.userID, username, activeAt)
    {
      var id := pool.NewIDForNewEntity(username, clock);
      user := User(id, username, activeAt);
    }

    method Write(user: User, outage: Outage) returns (r: Result<User, Failure>)
      modifies this
      ensures pool.State() == old(pool.State())
      ensures (Stored(), r) == StoreUser(old(Stored()), user, outage)
      ensures r.Ok? ==> outage == NoOutage && r.value == user && InAllStores(user)
    {
      if outage == RowLost {
        return Err(RowWrite);
      }
      match InsertUser(users, user)
      case Err(e) => return Err(e);
      case Ok(t) => users := t;
      if outage == RowErrorAfterCommit {
        return Err(RowWrite);
      }
      if outage == GraphDown {
        return Err(GraphWrite);
      }
      graph := EnsureUserNode(graph, user.userID, user.username);
      if outage == DirectoryDown {
        return Err(DirectoryWrite);
      }
      directory := directory[user.username := user.userID];
      return Ok(user);
    }

    /** GetByID routes by the ID alone, and finds every committed user on any shard, unless the
        query itself fails. */
    method GetByID(id: int64, down: bool) returns (r: Result<User, Failure>)
      requires forall s, i :: s in users && i in users[s] ==> ExtractShardID(i) == s
      ensures r.Ok? <==> !down && exists s :: s in users && id in users[s]
      ensures r.Ok? ==> forall s :: s in users && id in users[s] ==> r.value == users[s][id]
      ensures r.Err? ==>
        r.error == if ExtractShardID(id) !in users then NoSuchShard else if down then QueryFailed else NotFound
    {
      var s := ExtractShardID(id);
      if s !in users {
        return Err(NoSuchShard);
      }
      if down {
        return Err(QueryFailed);
      }
      if id !in users[s] {
        return Err(NotFound);
      }
      return Ok(users[s][id]);
    }
  }

  function Empty(shards: set<int>): Stores {
    Stores(map s | s in shards :: map[], map[], map[])
  }

  // ---------- runs ----------

  /** Sign-ups one after another, with posts minted from the same generators in between. */
  datatype Event = SignUp(c: Signup) | OtherMint(shard: ShardId, now: int, later: int)

  datatype Run = Start(w: World) | Then(before: Run, event: Event)

  function Next(place: string -> int, w: World, e: Event): World {
    match e
    case SignUp(c) => CreateUserSpec(place, w, c).0
    case OtherMint(s, now, later) => if s in w.gens then w.(gens := Mint(w.gens, s, now, later).0) else w
  }

  function After(place: string -> int, run: Run): World {
    match run
    case Start(w) => w
    case Then(r, e) => Next(place, After(place, r), e)
  }

  function Origin(run: Run): World {
    match run
    case Start(w) => w
    case Then(r, _) => Origin(r)
  }

  /** This event signs `name` up successfully. */
  predicate SignsUp(place: string -> int, w: World, e: Event, name: string) {
    e.SignUp? && e.c.username == name && CreateUserSpec(place, w, e.c).1.Ok?
  }

  predicate Succeeded(place: string -> int, run: Run, name: string) {
    run.Then? && (SignsUp(place, After(place, run.before), run.event, name) || Succeeded(place, run.before, name))
  }

  predicate Committed(st: Stores, id: int64, name: string) {
    IsRow(st.users, id, name)
  }

  predicate IsRow(users: Tables, id: int64, name: string) {
    var s := ExtractShardID(id);
    s in users && id in users[s] && users[s][id].username == name
  }

  /** Rows sit under their own ID, on the shard of their ID and of their name, one per name. */
  ghost predicate RowsPlaced(place: string -> int, users: Tables) {
    && (forall s, id :: s in users && id in users[s] ==>
          ExtractShardID(id) == s && users[s][id].userID == id && place(users[s][id].username) == s)
    && (forall a, b, name :: IsRow(users, a, name) && IsRow(users, b, name) ==> a == b)
  }

  ghost predicate DirectoryCommitted(st: Stores) {
    forall name :: name in st.directory ==> IsRow(st.users, st.directory[name], name)
  }

  ghost predicate GraphCommitted(st: Stores) {
    forall id :: id in st.graph ==> IsRow(st.users, id, st.graph[id])
  }

  /** What every run keeps across the three stores. */
  ghost predicate Consistent(place: string -> int, st: Stores) {
    RowsPlaced(place, st.users) && DirectoryCommitted(st) && GraphCommitted(st)
  }

  /** A row of the new table is the new user's or was there before. */
  lemma InsertAdds(users: Tables, user: User)
    requires InsertUser(users, user).Ok?
    ensures var after := InsertUser(users, user).value;
      && (forall id, name :: IsRow(after, id, name) <==>
            IsRow(users, id, name) || (id == user.userID && name == user.username))
      && (forall r, id :: r in after && id in after[r] ==>
            (r == ExtractShardID(user.userID) && id == user.userID && after[r][id] == user)
            || (r in users && id in users[r] && after[r][id] == users[r][id]))
  {}

  /** A row takes its name on the one shard where that name is placed. */
  lemma RowTakesName(place: string -> int, users: Tables, id: int64, name: string)
    requires RowsPlaced(place, users)
    ensures IsRow(users, id, name) ==> place(name) in users && NameTaken(users[place(name)], name)
  {
    if IsRow(users, id, name) {
      assert ExtractShardID(id) == place(name);
    }
  }

  /** UNIQUE per shard is enough, because a name has one shard: before a successful insert no row
      anywhere has it. */
  lemma NameIsNew(place: string -> int, users: Tables, user: User, id: int64)
    requires RowsPlaced(place, users) && ExtractShardID(user.userID) == place(user.username)
    requires InsertUser(users, user).Ok?
    ensures !IsRow(users, id, user.username)
  {
    RowTakesName(place, users, id, user.username);
  }

  lemma InsertKeepsRows(place: string -> int, users: Tables, user: User)
    requires RowsPlaced(place, users) && ExtractShardID(user.userID) == place(user.username)
    requires InsertUser(users, user).Ok?
    ensures RowsPlaced(place, InsertUser(users, user).value)
  {
    var after := InsertUser(users, user).value;
    InsertAdds(users, user);
    forall a, b, name | IsRow(after, a, name) && IsRow(after, b, name) ensures a == b {
      NameIsNew(place, users, user, a);
      NameIsNew(place, users, user, b);
    }
  }

  lemma StoreKeepsDirectory(st: Stores, user: User, outage: Outage)
    requires DirectoryCommitted(st)
    ensures DirectoryCommitted(StoreUser(st, user, outage).0)
  {
    if InsertUser(st.users, user).Ok? { InsertAdds(st.users, user); }
  }

  lemma StoreKeepsGraph(st: Stores, user: User, outage: Outage)
    requires GraphCommitted(st)
    ensures GraphCommitted(StoreUser(st, user, outage).0)
  {
    if InsertUser(st.users, user).Ok? { InsertAdds(st.users, user); }
  }

  lemma StoreLosesNobody(st: Stores, user: User, outage: Outage, id: int64, name: string)
    requires Committed(st, id, name)
    ensures Committed(StoreUser(st, user, outage).0, id, name)
  {
    if InsertUser(st.users, user).Ok? { InsertAdds(st.users, user); }
  }

  /** One sign-up keeps the stores consistent: the ring minted its ID on the shard of its name. */
  lemma SignupKeepsConsistent(place: string -> int, w: World, c: Signup)
    requires Consistent(place, w.stores)
    ensures Consistent(place, CreateUserSpec(place, w, c).0.stores)
    ensures forall id, name ::
      Committed(w.stores, id, name) ==> Committed(CreateUserSpec(place, w, c).0.stores, id, name)
  {
    if Mints(place, w, c) {
      var user := NewUser(place, w, c);
      NewUserRoutes(place, w, c);
      StoreKeepsDirectory(w.stores, user, c.outage);
      StoreKeepsGraph(w.stores, user, c.outage);
      if InsertUser(w.stores.users, user).Ok? {
        InsertKeepsRows(place, w.stores.users, user);
      }
      forall id, name | Committed(w.stores, id, name)
        ensures Committed(StoreUser(w.stores, user, c.outage).0, id, name)
      {
        StoreLosesNobody(w.stores, user, c.outage, id, name);
      }
    }
  }

  /** The row of this call commits. */
  predicate Commits(place: string -> int, w: World, c: Signup) {
    Mints(place, w, c) && c.outage != RowLost && InsertUser(w.stores.users, NewUser(place, w, c)).Ok?
  }

  /** A successful sign-up is in all three stores. A sign-up that commits its row and then fails
      is what opens the gap, and the only thing that does. */
  lemma GapOpensIff(place: string -> int, w: World, c: Signup)
    requires Consistent(place, w.stores)
    ensures var (after, r) := CreateUserSpec(place, w, c);
      var st := after.stores;
      && (r.Ok? ==> r.value.username == c.username && Committed(st, r.value.userID, c.username)
                    && r.value.userID in st.graph && st.graph[r.value.userID] == c.username
                    && c.username in st.directory && st.directory[c.username] == r.value.userID)
      && (st != w.stores && r.Err? <==> Commits(place, w, c) && c.outage != NoOutage)
      && (st != w.stores && r.Err? ==>
            Committed(st, NewUser(place, w, c).userID, c.username) && c.username !in st.directory)
  {
    if Commits(place, w, c) {
      var user := NewUser(place, w, c);
      NewUserRoutes(place, w, c);
      InsertAdds(w.stores.users, user);
      NameIsNew(place, w.stores.users, user, user.userID);
      assert user.userID !in w.stores.users[ExtractShardID(user.userID)];
      assert c.username !in w.stores.directory by {
        if c.username in w.stores.directory { NameIsNew(place, w.stores.users, user, w.stores.directory[c.username]); }
      }
      assert user.userID !in w.stores.graph;
    }
  }

  lemma {:induction false} RunKeepsConsistent(place: string -> int, run: Run)
    requires Consistent(place, Origin(run).stores)
    ensures Consistent(place, After(place, run).stores)
    ensures forall id, name :: Committed(Origin(run).stores, id, name) ==> Committed(After(place, run).stores, id, name)
  {
    if run.Then? {
      RunKeepsConsistent(place, run.before);
      if run.event.SignUp? {
        SignupKeepsConsistent(place, After(place, run.before), run.event.c);
      }
    }
  }

  /** Usernames are globally unique although UNIQUE is only per shard: after every run of sign-ups
      placed by one ring, failed calls included, two committed users with one name are one user,
      and a directory entry or graph node always names a committed user of that name. */
  lemma UsernamesGloballyUnique(place: string -> int, shards: set<int>, run: Run, a: int64, b: int64, name: string)
    requires Origin(run).stores == Empty(shards)
    ensures var st := After(place, run).stores;
      && (Committed(st, a, name) && Committed(st, b, name) ==> a == b)
      && (name in st.directory ==> Committed(st, st.directory[name], name))
      && (a in st.graph ==> Committed(st, a, st.graph[a]))
  {
    RunKeepsConsistent(place, run);
  }

  /** What each failure leaves behind once the row commits: the later writes, and only they, are
      missing. */
  lemma FailureLeaves(place: string -> int, w: World, c: Signup)
    requires Consistent(place, w.stores) && Commits(place, w, c)
    ensures var (after, r) := CreateUserSpec(place, w, c);
      var id := NewUser(place, w, c).userID;
      && Committed(after.stores, id, c.username) && id !in w.stores.graph
      && (id in after.stores.graph <==> c.outage == NoOutage || c.outage == DirectoryDown)
      && (c.username in after.stores.directory <==> c.outage == NoOutage)
      && match c.outage
         case NoOutage => r == Ok(User(id, c.username, c.activeAt))
         case GraphDown => r == Err(GraphWrite)
         case DirectoryDown => r == Err(DirectoryWrite)
         case _ => r == Err(RowWrite)
  {
    GapOpensIff(place, w, c);
    var user := NewUser(place, w, c);
    NewUserRoutes(place, w, c);
    NameIsNew(place, w.stores.users, user, user.userID);
    InsertAdds(w.stores.users, user);
    if c.username in w.stores.directory {
      NameIsNew(place, w.stores.users, user, w.stores.directory[c.username]);
    }
  }

  /** Some sign-up of the run asked for this user: its name, active since its call. */
  predicate AskedFor(run: Run, user: User) {
    run.Then? && (AskedFor(run.before, user) || Asks(run.event, user))
  }

  predicate Asks(event: Event, user: User) {
    event.SignUp? && user == User(user.userID, event.c.username, event.c.activeAt)
  }

  predicate HasRow(users: Tables, s: int, id: int64) {
    s in users && id in users[s]
  }

  lemma SignupAddsAsked(place: string -> int, w: World, c: Signup, s: int, id: int64)
    ensures var was, now := w.stores.users, CreateUserSpec(place, w, c).0.stores.users;
      && (HasRow(was, s, id) ==> HasRow(now, s, id) && now[s][id] == was[s][id])
      && (HasRow(now, s, id) && !HasRow(was, s, id) ==> Asks(SignUp(c), now[s][id]))
  {}

  /** A users row is never changed or lost, and every new one carries the name and the activity
      time of a sign-up of the run. */
  lemma {:induction false} RowsAreAskedFor(place: string -> int, run: Run, s: int, id: int64)
    ensures var was, now := Origin(run).stores.users, After(place, run).stores.users;
      && (HasRow(was, s, id) ==> HasRow(now, s, id) && now[s][id] == was[s][id])
      && (HasRow(now, s, id) && !HasRow(was, s, id) ==> AskedFor(run, now[s][id]))
  {
    if run.Then? {
      RowsAreAskedFor(place, run.before, s, id);
      if run.event.SignUp? {
        SignupAddsAsked(place, After(place, run.before), run.event.c, s, id);
      }
    }
  }

  lemma SignupDirectory(place: string -> int, w: World, e: Event, name: string)
    ensures name in Next(place, w, e).stores.directory <==> name in w.stores.directory || SignsUp(place, w, e, name)
  {}

  /** Which names the directory knows after a run: those it knew before and those of the
      sign-ups that succeeded. */
  lemma {:induction false} DirectoryIffSucceeded(place: string -> int, run: Run, name: string)
    ensures name in After(place, run).stores.directory <==>
      name in Origin(run).stores.directory || Succeeded(place, run, name)
  {
    if run.Then? {
      DirectoryIffSucceeded(place, run.before, name);
      SignupDirectory(place, After(place, run.before), run.event, name);
    }
  }

  lemma TakenNameFails(place: string -> int, w: World, c: Signup, id: int64)
    requires Consistent(place, w.stores) && Committed(w.stores, id, c.username)
    ensures CreateUserSpec(place, w, c).1.Err?
  {
    if Mints(place, w, c) {
      NewUserRoutes(place, w, c);
      if InsertUser(w.stores.users, NewUser(place, w, c)).Ok? {
        NameIsNew(place, w.stores.users, NewUser(place, w, c), id);
      }
    }
  }

  /** The documented sync gap never heals: once a name is committed without a directory entry,
      every later sign-up of that name fails and no run adds the entry. */
  lemma {:induction false} OrphanNameStaysOrphan(place: string -> int, run: Run, id: int64, name: string)
    requires Consistent(place, Origin(run).stores)
    requires Committed(Origin(run).stores, id, name) && name !in Origin(run).stores.directory
    ensures name !in After(place, run).stores.directory && !Succeeded(place, run, name)
  {
    if run.Then? {
      var w := After(place, run.before);
      OrphanNameStaysOrphan(place, run.before, id, name);
      RunKeepsConsistent(place, run.before);
      if run.event.SignUp? && run.event.c.username == name {
        TakenNameFails(place, w, run.event.c, id);
      }
      SignupDirectory(place, w, run.event, name);
    }
  }

  // ---------- no ID collides ----------

  /** The clock as a generator reads it never steps back behind what that generator minted. */
  ghost predicate ForwardClock(place: string -> int, run: Run) {
    run.Then? ==> ForwardClock(place, run.before) && Forward(place, After(place, run.before), run.event)
  }

  predicate Forward(place: string -> int, w: World, e: Event) {
    match e
    case SignUp(c) => Mints(place, w, c) ==> ClockForward(w.gens, place(c.username), c.now, c.later)
    case OtherMint(s, now, later) => ClockForward(w.gens, s, now, later)
  }

  /** Every row was minted before what its shard's generator minted last. */
  ghost predicate IdsBehind(w: World) {
    forall s :: s in w.stores.users ==> Behind(w.gens, s, w.stores.users[s].Keys)
  }

  lemma MintKeepsBehind(gens: Gens, shard: ShardId, now: int, later: int, s: int, ids: set<int64>)
    requires shard in gens && ClockForward(gens, shard, now, later) && Behind(gens, s, ids)
    ensures Behind(Mint(gens, shard, now, later).0, s, ids)
  {
    if s == shard { MintIsNew(gens, shard, now, later, ids); }
  }

  lemma SignupKeepsBehind(place: string -> int, w: World, c: Signup)
    requires IdsBehind(w) && Mints(place, w, c) && ClockForward(w.gens, place(c.username), c.now, c.later)
    ensures IdsBehind(CreateUserSpec(place, w, c).0)
  {
    var after := CreateUserSpec(place, w, c).0;
    var user := NewUser(place, w, c);
    NewUserRoutes(place, w, c);
    forall s | s in after.stores.users ensures Behind(after.gens, s, after.stores.users[s].Keys) {
      if InsertUser(w.stores.users, user).Ok? && c.outage != RowLost && s == place(c.username) {
        assert after.stores.users[s].Keys == w.stores.users[s].Keys + {user.userID};
        MintIsNew(w.gens, place(c.username), c.now, c.later, w.stores.users[s].Keys);
      } else {
        MintKeepsBehind(w.gens, place(c.username), c.now, c.later, s, w.stores.users[s].Keys);
      }
    }
  }

  lemma {:induction false} RunKeepsBehind(place: string -> int, run: Run)
    requires IdsBehind(Origin(run)) && ForwardClock(place, run)
    ensures IdsBehind(After(place, run))
  {
    if run.Then? {
      var w := After(place, run.before);
      RunKeepsBehind(place, run.before);
      match run.event
      case SignUp(c) => if Mints(place, w, c) { SignupKeepsBehind(place, w, c); }
      case OtherMint(s, now, later) =>
        if s in w.gens {
          forall r | r in w.stores.users ensures Behind(Mint(w.gens, s, now, later).0, r, w.stores.users[r].Keys) {
            MintKeepsBehind(w.gens, s, now, later, r, w.stores.users[r].Keys);
          }
        }
    }
  }

  /** Looking on one shard sees every user of the name. */
  lemma NameTakenIff(place: string -> int, st: Stores, name: string)
    requires Consistent(place, st) && place(name) in st.users
    ensures NameTaken(st.users[place(name)], name) <==> exists id :: Committed(st, id, name)
  {
    if NameTaken(st.users[place(name)], name) {
      var id :| id in st.users[place(name)] && st.users[place(name)][id].username == name;
      assert ExtractShardID(id) == place(name);
      assert Committed(st, id, name);
    }
    if id :| Committed(st, id, name) {
      RowTakesName(place, st.users, id, name);
    }
  }

  lemma NewUserIsNew(place: string -> int, w: World, c: Signup)
    requires IdsBehind(w) && Mints(place, w, c) && ClockForward(w.gens, place(c.username), c.now, c.later)
    ensures place(c.username) in w.stores.users ==> NewUser(place, w, c).userID !in w.stores.users[place(c.username)]
  {
    if place(c.username) in w.stores.users {
      MintIsNew(w.gens, place(c.username), c.now, c.later, w.stores.users[place(c.username)].Keys);
    }
  }

  lemma StoreReportsTaken(st: Stores, user: User, outage: Outage)
    ensures StoreUser(st, user, outage).1 == Err(AlreadyExists) <==>
      outage != RowLost && InsertUser(st.users, user) == Err(AlreadyExists)
  {}

  /** So a unique violation always means a taken name, never a repeated ID: in every run on such a
      clock, a sign-up reports AlreadyExists exactly when it gets as far as the insert and some
      committed user has the name. */
  lemma TakenIffCommitted(place: string -> int, run: Run, c: Signup)
    requires Consistent(place, Origin(run).stores) && IdsBehind(Origin(run))
    requires ForwardClock(place, Then(run, SignUp(c)))
    ensures var w := After(place, run);
      CreateUserSpec(place, w, c).1 == Err(AlreadyExists) <==>
        && Mints(place, w, c) && c.outage != RowLost
        && place(c.username) in w.stores.users && |c.username| <= USERNAME_LIMIT
        && exists id :: Committed(w.stores, id, c.username)
  {
    var w := After(place, run);
    RunKeepsConsistent(place, run);
    RunKeepsBehind(place, run);
    if Mints(place, w, c) {
      NewUserRoutes(place, w, c);
      NewUserIsNew(place, w, c);
      StoreReportsTaken(w.stores, NewUser(place, w, c), c.outage);
      if place(c.username) in w.stores.users {
        NameTakenIff(place, w.stores, c.username);
      }
    }
  }

  lemma StoreSucceedsIff(st: Stores, user: User, outage: Outage)
    ensures var s := ExtractShardID(user.userID);
      StoreUser(st, user, outage).1.Ok? <==>
        && outage == NoOutage && s in st.users && |user.username| <= USERNAME_LIMIT
        && user.userID !in st.users[s] && !NameTaken(st.users[s], user.username)
  {}

  /** A sign-up succeeds exactly when its name is neither empty, nor longer than its column, nor
      anyone's, the ring puts it on a configured shard, and no write fails. */
  lemma SignupSucceedsIff(place: string -> int, run: Run, c: Signup)
    requires Consistent(place, Origin(run).stores) && IdsBehind(Origin(run))
    requires ForwardClock(place, Then(run, SignUp(c)))
    ensures var w := After(place, run);
      CreateUserSpec(place, w, c).1.Ok? <==>
        && 1 <= |c.username| <= 64 && place(c.username) in w.gens && place(c.username) in w.stores.users
        && c.outage == NoOutage && forall id :: !Committed(w.stores, id, c.username)
  {
    var w := After(place, run);
    RunKeepsConsistent(place, run);
    RunKeepsBehind(place, run);
    if Mints(place, w, c) {
      NewUserRoutes(place, w, c);
      NewUserIsNew(place, w, c);
      StoreSucceedsIff(w.stores, NewUser(place, w, c), c.outage);
      if place(c.username) in w.stores.users {
        NameTakenIff(place, w.stores, c.username);
      }
    }
  }

  // ---------- another placement ----------

  lemma StoresNewName(st: Stores, user: User)
    requires var s := ExtractShardID(user.userID);
      s in st.users && |user.username| <= USERNAME_LIMIT && user.userID !in st.users[s]
    ensures StoreUser(st, user, NoOutage).1.Ok? <==> !NameTaken(st.users[ExtractShardID(user.userID)], user.username)
    ensures var (after, r) := StoreUser(st, user, NoOutage);
      r.Ok? ==> Committed(after, user.userID, user.username)
  {
    if InsertUser(st.users, user).Ok? { InsertAdds(st.users, user); }
  }

  /** The guarantee is tied to one ring. After any sign-ups under one placement, a sign-up of a taken
      name under another succeeds exactly when the other puts that name on another shard, and then
      two committed users share it. A hash that moves between two rings (Ring.MovesIff) is such a
      name. */
  lemma ReplacementBreaksUniquenessIff(place: string -> int, replaced: string -> int, w: World, c: Signup, id: int64)
    requires Consistent(place, w.stores) && IdsBehind(w) && Committed(w.stores, id, c.username)
    requires Mints(replaced, w, c) && ClockForward(w.gens, replaced(c.username), c.now, c.later)
    requires replaced(c.username) in w.stores.users && |c.username| <= USERNAME_LIMIT && c.outage == NoOutage
    ensures var (after, r) := CreateUserSpec(replaced, w, c);
      && (r.Ok? <==> replaced(c.username) != place(c.username))
      && (r.Ok? ==> r.value.userID != id && Committed(after.stores, id, c.username)
                    && Committed(after.stores, r.value.userID, c.username))
  {
    var user := NewUser(replaced, w, c);
    NewUserRoutes(replaced, w, c);
    NewUserIsNew(replaced, w, c);
    StoresNewName(w.stores, user);
    RowTakesName(place, w.stores.users, id, c.username);
    StoreLosesNobody(w.stores, user, NoOutage, id, c.username);
    NameOnlyWherePlaced(place, w.stores.users, replaced(c.username), c.username);
  }

  lemma NameOnlyWherePlaced(place: string -> int, users: Tables, s: int, name: string)
    requires RowsPlaced(place, users) && s in users
    ensures s != place(name) ==> !NameTaken(users[s], name)
  {
    forall id | id in users[s] ensures place(users[s][id].username) == s {
      assert ExtractShardID(id) == s;
    }
  }

  /** A point of an added shard that a key meets before every point of the old ring. */
  ghost predicate Captured(small: Ring.Ring, big: Ring.Ring, key: string) {
    exists p :: p in Ring.Points(big.crc, big.cfg) && p.shardID !in small.cfg.shards
      && forall q :: q in Ring.Points(small.crc, small.cfg) ==>
           Ring.Clockwise(big.crc(key), p.hash) < Ring.Clockwise(big.crc(key), q.hash)
  }

  /** `big` is `small` with shards added, free of collisions. */
  ghost predicate Grown(small: Ring.Ring, big: Ring.Ring) {
    && small.Valid() && big.Valid() && small.nodes != [] && big.nodes != []
    && small.crc == big.crc && small.cfg.vnodesPerShard == big.cfg.vnodesPerShard
    && SetOf(small.cfg.shards) <= SetOf(big.cfg.shards) && Ring.CollisionFree(Ring.Points(big.crc, big.cfg))
  }

  lemma PlacementsDifferIff(small: Ring.Ring, big: Ring.Ring, key: string)
    requires Grown(small, big)
    ensures Placement(small)(key) != Placement(big)(key) <==> Captured(small, big, key)
  {
    Ring.PlacementOwns(small, key);
    Ring.PlacementOwns(big, key);
    Ring.MovesIff(big.crc, small.cfg, big.cfg, big.crc(key), small.PlacementOf(key), big.PlacementOf(key));
  }

  /** So after shards are added, the names that can be taken a second time are exactly those whose
      hash now meets a point of an added shard first. */
  lemma GrownRingReusesNameIff(small: Ring.Ring, big: Ring.Ring, w: World, c: Signup, id: int64)
    requires Grown(small, big) && Consistent(Placement(small), w.stores) && IdsBehind(w)
    requires Committed(w.stores, id, c.username) && Mints(Placement(big), w, c)
    requires ClockForward(w.gens, Placement(big)(c.username), c.now, c.later)
    requires Placement(big)(c.username) in w.stores.users && |c.username| <= USERNAME_LIMIT && c.outage == NoOutage
    ensures CreateUserSpec(Placement(big), w, c).1.Ok? <==> Captured(small, big, c.username)
  {
    ReplacementBreaksUniquenessIff(Placement(small), Placement(big), w, c, id);
    PlacementsDifferIff(small, big, c.username);
  }
}
