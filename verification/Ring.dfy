/** The consistent-hash ring that places brand-new entities: pkg/sharding/ring.go and its
    Java twin ShardRing.java, both against one clockwise-successor specification. */
module Ring {
  import opened Prelude

  const HASHES: int := 0x1_0000_0000
  type Hash = h: int | 0 <= h < HASHES

  /** crc32.ChecksumIEEE and java.util.zip.CRC32, left uninterpreted. */
  type Checksum = string -> Hash

  datatype Topology = Topology(shards: seq<int>, vnodesPerShard: int)

  datatype Vnode = Vnode(hash: Hash, shardID: int)

  function VnodeKey(v: int, shard: int): string {
    "vnode-" + Decimal(v) + "-shard-" + Decimal(shard)
  }

  lemma NoDash(n: nat)
    ensures '-' !in Decimal(n)
  {
    assert forall c :: c in Digits(n) ==> '0' <= c <= '9';
  }

  lemma KeyParts(a: string, b: string, c: string, d: string)
    requires '-' !in a && '-' !in c && "vnode-" + a + "-shard-" + b == "vnode-" + c + "-shard-" + d
    ensures a == c && b == d
  {
    assert "vnode-" + a + "-shard-" + b == "vnode-" + (a + ['-'] + ("shard-" + b));
    assert "vnode-" + c + "-shard-" + d == "vnode-" + (c + ['-'] + ("shard-" + d));
    SameTail("vnode-", a + ['-'] + ("shard-" + b), c + ['-'] + ("shard-" + d));
    SplitOnce(a, "shard-" + b, c, "shard-" + d, '-');
    SameTail("shard-", b, d);
  }

  /** Every virtual node of every shard has a key of its own. */
  lemma VnodeKeysDiffer(v: nat, shard: int, w: nat, other: int)
    requires VnodeKey(v, shard) == VnodeKey(w, other)
    ensures v == w && shard == other
  {
    NoDash(v);
    NoDash(w);
    KeyParts(Decimal(v), Decimal(shard), Decimal(w), Decimal(other));
    DecimalDistinct(v, w);
    DecimalDistinct(shard, other);
  }

  /** The text both languages hash. */
  lemma VnodeKeyExample()
    ensures VnodeKey(107, 42) == "vnode-107-shard-42"
  {
    assert Digits(107) == Digits(10) + [DigitChar(7)] && Digits(10) == Digits(1) + [DigitChar(0)];
    assert Digits(42) == Digits(4) + [DigitChar(2)];
  }

  // ---------- specification ----------

  /** All points of the ring, without any order. */
  ghost function Points(crc: Checksum, cfg: Topology): set<Vnode> {
    set i, v | 0 <= i < |cfg.shards| && 0 <= v < cfg.vnodesPerShard
      :: Vnode(crc(VnodeKey(v, cfg.shards[i])), cfg.shards[i])
  }

  /** How far clockwise from h the point at p lies. */
  function Clockwise(h: Hash, p: Hash): nat {
    if p >= h then p - h else p - h + HASHES
  }

  ghost predicate Nearest(pts: set<Vnode>, h: Hash, p: Vnode) {
    p in pts && forall q :: q in pts ==> Clockwise(h, p.hash) <= Clockwise(h, q.hash)
  }

  /** The shard that owns hash h: the owner of a first point met going clockwise. */
  ghost predicate Owns(pts: set<Vnode>, h: Hash, shard: int) {
    exists p :: Nearest(pts, h, p) && p.shardID == shard
  }

  /** No two shards have a point at the same hash. */
  ghost predicate CollisionFree(pts: set<Vnode>) {
    forall p, q :: p in pts && q in pts && p.hash == q.hash ==> p.shardID == q.shardID
  }

  /** The points are those of vnode-0 to vnode-(n - 1) of each shard, and no others. */
  lemma PointsAreVnodes(crc: Checksum, cfg: Topology)
    ensures forall i, v :: 0 <= i < |cfg.shards| && 0 <= v < cfg.vnodesPerShard ==>
      Vnode(crc("vnode-" + Decimal(v) + "-shard-" + Decimal(cfg.shards[i])), cfg.shards[i]) in Points(crc, cfg)
    ensures forall p :: p in Points(crc, cfg) ==> exists v ::
      0 <= v < cfg.vnodesPerShard && p.shardID in cfg.shards
        && p.hash == crc("vnode-" + Decimal(v) + "-shard-" + Decimal(p.shardID))
  {
    forall i, v | 0 <= i < |cfg.shards| && 0 <= v < cfg.vnodesPerShard
      ensures Vnode(crc("vnode-" + Decimal(v) + "-shard-" + Decimal(cfg.shards[i])), cfg.shards[i]) in Points(crc, cfg)
    {
      assert VnodeKey(v, cfg.shards[i]) == "vnode-" + Decimal(v) + "-shard-" + Decimal(cfg.shards[i]);
    }
  }

  /** Clockwise counts the steps from h up to p around the ring. */
  lemma ClockwiseWalks(h: Hash, p: Hash)
    ensures Clockwise(h, p) < HASHES && (h + Clockwise(h, p)) % HASHES == p
  {}

  /** The checksum tells the keys of the topology's virtual nodes apart. */
  ghost predicate TellsApart(crc: Checksum, cfg: Topology) {
    forall i, j, v, w ::
      0 <= i < |cfg.shards| && 0 <= j < |cfg.shards| && 0 <= v < cfg.vnodesPerShard && 0 <= w < cfg.vnodesPerShard
        && crc(VnodeKey(v, cfg.shards[i])) == crc(VnodeKey(w, cfg.shards[j])) ==>
      VnodeKey(v, cfg.shards[i]) == VnodeKey(w, cfg.shards[j])
  }

  /** Two shards meet at one hash only where the checksum collides on two different keys, so a
      checksum that tells the keys apart makes every topology free of collisions. */
  lemma CollisionIsChecksums(crc: Checksum, cfg: Topology)
    requires TellsApart(crc, cfg)
    ensures CollisionFree(Points(crc, cfg))
  {
    forall p, q | p in Points(crc, cfg) && q in Points(crc, cfg) && p.hash == q.hash ensures p.shardID == q.shardID {
      var i, v :| 0 <= i < |cfg.shards| && 0 <= v < cfg.vnodesPerShard
        && p == Vnode(crc(VnodeKey(v, cfg.shards[i])), cfg.shards[i]);
      var j, w :| 0 <= j < |cfg.shards| && 0 <= w < cfg.vnodesPerShard
        && q == Vnode(crc(VnodeKey(w, cfg.shards[j])), cfg.shards[j]);
      VnodeKeysDiffer(v, cfg.shards[i], w, cfg.shards[j]);
    }
  }

  /** Where two shards do meet at one hash, these are two different keys with one checksum. */
  lemma CollisionNamesKeys(crc: Checksum, cfg: Topology) returns (i: nat, v: nat, j: nat, w: nat)
    requires !CollisionFree(Points(crc, cfg))
    ensures i < |cfg.shards| && j < |cfg.shards| && v < cfg.vnodesPerShard && w < cfg.vnodesPerShard
    ensures cfg.shards[i] != cfg.shards[j]
    ensures VnodeKey(v, cfg.shards[i]) != VnodeKey(w, cfg.shards[j])
    ensures crc(VnodeKey(v, cfg.shards[i])) == crc(VnodeKey(w, cfg.shards[j]))
  {
    var pts := Points(crc, cfg);
    var p, q :| p in pts && q in pts && p.hash == q.hash && p.shardID != q.shardID;
    i, v :| 0 <= i < |cfg.shards| && 0 <= v < cfg.vnodesPerShard
      && p == Vnode(crc(VnodeKey(v, cfg.shards[i])), cfg.shards[i]);
    j, w :| 0 <= j < |cfg.shards| && 0 <= w < cfg.vnodesPerShard
      && q == Vnode(crc(VnodeKey(w, cfg.shards[j])), cfg.shards[j]);
    if VnodeKey(v, cfg.shards[i]) == VnodeKey(w, cfg.shards[j]) {
      VnodeKeysDiffer(v, cfg.shards[i], w, cfg.shards[j]);
    }
  }

  /** Without collisions the owner is unique, so any two rings that return owners agree. */
  lemma OwnerUnique(pts: set<Vnode>, h: Hash, a: int, b: int)
    requires CollisionFree(pts) && Owns(pts, h, a) && Owns(pts, h, b)
    ensures a == b
  {
    var p :| Nearest(pts, h, p) && p.shardID == a;
    var q :| Nearest(pts, h, q) && q.shardID == b;
    assert Clockwise(h, p.hash) == Clockwise(h, q.hash);
    assert p.hash == q.hash;
  }

  lemma {:induction false} NearestExists(pts: set<Vnode>, h: Hash) returns (p: Vnode)
    requires pts != {}
    ensures Nearest(pts, h, p)
  {
    p := Inhabitant(pts);
    if pts != {p} {
      var q := NearestExists(pts - {p}, h);
      if Clockwise(h, q.hash) < Clockwise(h, p.hash) { p := q; }
    }
  }

  /** Two shards at one hash both own that hash, so uniqueness holds for all hashes exactly
      when the ring is free of collisions. */
  lemma UniqueIffCollisionFree(pts: set<Vnode>)
    ensures CollisionFree(pts) <==>
      forall h, a, b :: Owns(pts, h, a) && Owns(pts, h, b) ==> a == b
  {
    if CollisionFree(pts) {
      forall h, a, b | Owns(pts, h, a) && Owns(pts, h, b) ensures a == b {
        OwnerUnique(pts, h, a, b);
      }
    } else {
      var p, q :| p in pts && q in pts && p.hash == q.hash && p.shardID != q.shardID;
      assert Nearest(pts, p.hash, p) && Nearest(pts, p.hash, q);
      assert Owns(pts, p.hash, p.shardID) && Owns(pts, p.hash, q.shardID);
    }
  }

  // ---------- Go: sorted slice and binary search ----------

  predicate SortedByHash(nodes: seq<Vnode>) {
    forall i, j :: 0 <= i < j < |nodes| ==> nodes[i].hash <= nodes[j].hash
  }

  /** sort.Slice: sorted, same elements, no promise about the order of equal hashes. */
  method SortSlice(nodes: array<Vnode>)
    modifies nodes
    ensures SortedByHash(nodes[..])
    ensures multiset(nodes[..]) == multiset(old(nodes[..]))
  {
    var n := 0;
    while n < nodes.Length
      invariant 0 <= n <= nodes.Length
      invariant SortedByHash(nodes[..n])
      invariant multiset(nodes[..]) == multiset(old(nodes[..]))
    {
      SinkLast(nodes, n);
      n := n + 1;
    }
    assert nodes[..n] == nodes[..];
  }

  method Swap(nodes: array<Vnode>, i: nat, j: nat)
    requires i < j < nodes.Length
    modifies nodes
    ensures nodes[i] == old(nodes[j]) && nodes[j] == old(nodes[i])
    ensures forall k :: 0 <= k < nodes.Length && k != i && k != j ==> nodes[k] == old(nodes[k])
    ensures multiset(nodes[..]) == multiset(old(nodes[..]))
  {
    nodes[i], nodes[j] := nodes[j], nodes[i];
  }

  method SinkLast(nodes: array<Vnode>, n: nat)
    requires n < nodes.Length && SortedByHash(nodes[..n])
    modifies nodes
    ensures SortedByHash(nodes[..n + 1])
    ensures multiset(nodes[..]) == multiset(old(nodes[..]))
  {
    var k := n;
    while k > 0 && nodes[k - 1].hash > nodes[k].hash
      invariant 0 <= k <= n
      invariant forall i, j :: 0 <= i < j <= n && j != k ==> nodes[i].hash <= nodes[j].hash
      invariant multiset(nodes[..]) == multiset(old(nodes[..]))
    {
      Swap(nodes, k - 1, k);
      k := k - 1;
    }
  }

  /** The inner loop of NewRing: one shard's virtual nodes. */
  method AppendVnodes(crc: Checksum, before: seq<Vnode>, shard: int, vnodes: int) returns (built: seq<Vnode>)
    ensures SetOf(built) == SetOf(before) + Points(crc, Topology([shard], vnodes))
  {
    built := before;
    var v := 0;
    while v < vnodes
      invariant 0 <= v && (v <= vnodes || v == 0)
      invariant SetOf(built) == SetOf(before) + Points(crc, Topology([shard], v))
    {
      var node := Vnode(crc(VnodeKey(v, shard)), shard);
      OneMorePoint(crc, shard, v);
      assert SetOf(built + [node]) == SetOf(built) + {node};
      built := built + [node];
      v := v + 1;
    }
    assert vnodes <= 0 ==> Points(crc, Topology([shard], vnodes)) == {};
  }

  /** Index of the first node at or past h, or the length. */
  function FirstAtOrPast(nodes: seq<Vnode>, h: Hash): (i: nat)
    ensures i <= |nodes|
    ensures forall k :: 0 <= k < i ==> nodes[k].hash < h
    ensures i < |nodes| ==> nodes[i].hash >= h
  {
    if nodes == [] || nodes[0].hash >= h then 0 else 1 + FirstAtOrPast(nodes[1..], h)
  }

  lemma FirstIsUnique(nodes: seq<Vnode>, h: Hash, i: nat, j: nat)
    requires i <= |nodes| && (forall k :: 0 <= k < i ==> nodes[k].hash < h) && (i < |nodes| ==> nodes[i].hash >= h)
    requires j <= |nodes| && (forall k :: 0 <= k < j ==> nodes[k].hash < h) && (j < |nodes| ==> nodes[j].hash >= h)
    ensures i == j
  {}

  /** The node found, or the first one after wrapping around, is the nearest clockwise. */
  lemma SlotIsNearest(nodes: seq<Vnode>, h: Hash, i: nat)
    requires SortedByHash(nodes) && nodes != [] && i <= |nodes|
    requires (forall k :: 0 <= k < i ==> nodes[k].hash < h) && (forall k :: i <= k < |nodes| ==> nodes[k].hash >= h)
    ensures Nearest(SetOf(nodes), h, nodes[if i == |nodes| then 0 else i])
  {}

  class Ring {
    const crc: Checksum
    const nodes: seq<Vnode>
    const numShards: int
    ghost const cfg: Topology

    ghost predicate Valid() {
      SortedByHash(nodes) && SetOf(nodes) == Points(crc, cfg)
    }

    /** NewRing. */
    constructor (crc: Checksum, cfg: Topology)
      ensures this.crc == crc && this.cfg == cfg && numShards == |cfg.shards|
      ensures Valid()
    {
      var built: seq<Vnode> := [];
      var i := 0;
      while i < |cfg.shards|
        invariant 0 <= i <= |cfg.shards|
        invariant SetOf(built) == Points(crc, cfg.(shards := cfg.shards[..i]))
      {
        built := AppendVnodes(crc, built, cfg.shards[i], cfg.vnodesPerShard);
        OneMoreShard(crc, cfg, i);
        i := i + 1;
      }
      assert cfg.shards[..i] == cfg.shards;
      var a := new Vnode[|built|](j requires 0 <= j < |built| => built[j]);
      assert a[..] == built;
      SortSlice(a);
      SameElements(a[..], built);
      this.crc := crc;
      this.cfg := cfg;
      numShards := |cfg.shards|;
      nodes := a[..];
    }

    /** Where this ring puts a key: one place, whatever else the ring may hold. */
    function PlacementOf(placementKey: string): int
      requires nodes != []
    {
      var idx := FirstAtOrPast(nodes, crc(placementKey));
      nodes[if idx == |nodes| then 0 else idx].shardID
    }

    /** ShardForNewEntity: the ring panics when it has no node. */
    method ShardForNewEntity(placementKey: string) returns (shard: int)
      requires Valid() && nodes != []
      ensures shard == PlacementOf(placementKey)
      ensures Owns(Points(crc, cfg), crc(placementKey), shard)
    {
      var h := crc(placementKey);
      var found := Search(h);
      var idx := found;
      if idx == |nodes| {
        idx := 0;
      }
      FirstIsUnique(nodes, h, FirstAtOrPast(nodes, h), found);
      SlotIsNearest(nodes, h, found);
      shard := nodes[idx].shardID;
    }

    /** sort.Search for the first node at or past h. */
    method Search(h: Hash) returns (i: nat)
      requires SortedByHash(nodes)
      ensures i <= |nodes|
      ensures forall k :: 0 <= k < i ==> nodes[k].hash < h
      ensures forall k :: i <= k < |nodes| ==> nodes[k].hash >= h
    {
      i := 0;
      var j := |nodes|;
      while i < j
        invariant 0 <= i <= j <= |nodes|
        invariant forall k :: 0 <= k < i ==> nodes[k].hash < h
        invariant forall k :: j <= k < |nodes| ==> nodes[k].hash >= h
      {
        var m := (i + j) / 2;
        if !(nodes[m].hash >= h) {
          i := m + 1;
        } else {
          j := m;
        }
      }
    }
  }

  /** The placement owns the hash of its key. */
  lemma PlacementOwns(ring: Ring, key: string)
    requires ring.Valid() && ring.nodes != []
    ensures Owns(Points(ring.crc, ring.cfg), ring.crc(key), ring.PlacementOf(key))
  {
    var h := ring.crc(key);
    var i := FirstAtOrPast(ring.nodes, h);
    SlotIsNearest(ring.nodes, h, i);
  }

  lemma SameElements<T>(a: seq<T>, b: seq<T>)
    requires multiset(a) == multiset(b)
    ensures SetOf(a) == SetOf(b)
  {
    forall x ensures x in a <==> x in b {
      assert x in a <==> x in multiset(a);
      assert x in b <==> x in multiset(b);
    }
  }

  lemma OneMorePoint(crc: Checksum, shard: int, v: nat)
    ensures Points(crc, Topology([shard], v + 1))
         == Points(crc, Topology([shard], v)) + {Vnode(crc(VnodeKey(v, shard)), shard)}
  {
    var one := Topology([shard], v + 1);
    assert one.shards[0] == shard;
    forall p ensures p in Points(crc, one) <==>
        p in Points(crc, Topology([shard], v)) || p == Vnode(crc(VnodeKey(v, shard)), shard) {
      if p == Vnode(crc(VnodeKey(v, shard)), shard) {
        assert p == Vnode(crc(VnodeKey(v, one.shards[0])), one.shards[0]);
      }
      if p in Points(crc, Topology([shard], v)) {
        var w :| 0 <= w < v && p == Vnode(crc(VnodeKey(w, shard)), shard);
        assert p == Vnode(crc(VnodeKey(w, one.shards[0])), one.shards[0]);
      }
    }
  }

  lemma OneMoreShard(crc: Checksum, cfg: Topology, i: nat)
    requires i < |cfg.shards|
    ensures Points(crc, cfg.(shards := cfg.shards[..i + 1]))
         == Points(crc, cfg.(shards := cfg.shards[..i])) + Points(crc, Topology([cfg.shards[i]], cfg.vnodesPerShard))
  {
    var upTo, more := cfg.(shards := cfg.shards[..i]), cfg.(shards := cfg.shards[..i + 1]);
    var one := Topology([cfg.shards[i]], cfg.vnodesPerShard);
    forall p ensures p in Points(crc, more) <==> p in Points(crc, upTo) || p in Points(crc, one) {
      if p in Points(crc, upTo) {
        var k, v :| 0 <= k < i && 0 <= v < cfg.vnodesPerShard
          && p == Vnode(crc(VnodeKey(v, upTo.shards[k])), upTo.shards[k]);
        assert more.shards[k] == upTo.shards[k];
      }
      if p in Points(crc, one) {
        assert more.shards[i] == one.shards[0];
      }
      if p in Points(crc, more) {
        var k, v :| 0 <= k <= i && 0 <= v < cfg.vnodesPerShard
          && p == Vnode(crc(VnodeKey(v, more.shards[k])), more.shards[k]);
        if k == i { assert one.shards[0] == more.shards[k]; } else { assert upTo.shards[k] == more.shards[k]; }
      }
    }
  }

  // ---------- Java: TreeMap ----------

  /** The keys of SortedMap.tailMap(h). */
  function TailKeys(entries: map<Hash, int>, h: Hash): set<Hash> {
    set k | k in entries && k >= h
  }

  ghost predicate IsFirstKey(keys: set<Hash>, k: Hash) {
    k in keys && forall j :: j in keys ==> k <= j
  }

  /** SortedMap.firstKey. */
  method FirstKey(keys: set<Hash>) returns (k: Hash)
    requires keys != {}
    ensures IsFirstKey(keys, k)
  {
    ghost var some := Inhabitant(keys);
    k :| k in keys;
    var rest := keys - {k};
    while rest != {}
      invariant k in keys && rest <= keys
      invariant forall j :: j in keys ==> k <= j || j in rest
    {
      some := Inhabitant(rest);
      var j :| j in rest;
      if j < k { k := j; }
      rest := rest - {j};
    }
  }

  class ShardRing {
    const crc: Checksum
    var ring: map<Hash, int>
    const numShards: int
    ghost const topology: Topology

    /** Every entry is a point; every point's hash has an entry. */
    ghost predicate Valid()
      reads this
    {
      Covers(ring, Points(crc, topology))
    }

    constructor (crc: Checksum, topology: Topology)
      ensures this.crc == crc && this.topology == topology && numShards == |topology.shards|
      ensures Valid()
    {
      var entries: map<Hash, int> := map[];
      var i := 0;
      while i < |topology.shards|
        invariant 0 <= i <= |topology.shards|
        invariant Covers(entries, Points(crc, topology.(shards := topology.shards[..i])))
      {
        var v := 0;
        while v < topology.vnodesPerShard
          invariant 0 <= v && (v <= topology.vnodesPerShard || v == 0)
          invariant Covers(entries, Points(crc, topology.(shards := topology.shards[..i]))
                                    + Points(crc, Topology([topology.shards[i]], v)))
        {
          OneMorePoint(crc, topology.shards[i], v);
          var key := VnodeKey(v, topology.shards[i]);
          entries := entries[crc(key) := topology.shards[i]];
          v := v + 1;
        }
        OneMoreShard(crc, topology, i);
        i := i + 1;
      }
      assert topology.shards[..i] == topology.shards;
      this.crc := crc;
      this.topology := topology;
      numShards := |topology.shards|;
      ring := entries;
    }

    /** shardForNewEntity: firstKey throws on an empty map. */
    method ShardForNewEntity(placementKey: string) returns (shard: int)
      requires Valid() && ring.Keys != {}
      ensures Owns(Points(crc, topology), crc(placementKey), shard)
    {
      var h := crc(placementKey);
      var tail := TailKeys(ring, h);
      var ringKey: Hash;
      if tail == {} {
        ringKey := FirstKey(ring.Keys);
      } else {
        ringKey := FirstKey(tail);
      }
      FirstIsNearest(ring, Points(crc, topology), h, ringKey);
      shard := ring[ringKey];
    }
  }

  ghost predicate Covers(entries: map<Hash, int>, pts: set<Vnode>) {
    (forall k :: k in entries ==> Vnode(k, entries[k]) in pts) && (forall p :: p in pts ==> p.hash in entries)
  }

  lemma FirstIsNearest(entries: map<Hash, int>, pts: set<Vnode>, h: Hash, key: Hash)
    requires Covers(entries, pts)
    requires var tail := TailKeys(entries, h);
      if tail == {} then IsFirstKey(entries.Keys, key) else IsFirstKey(tail, key)
    ensures key in entries && Owns(pts, h, entries[key])
  {
    var tail := TailKeys(entries, h);
    var p := Vnode(key, entries[key]);
    forall q | q in pts ensures Clockwise(h, p.hash) <= Clockwise(h, q.hash) {
      if q.hash >= h { assert q.hash in tail; }
    }
    assert Nearest(pts, h, p);
  }

  // ---------- parity and minimal disruption ----------

  /** Ring parity: for every topology without cross-shard collisions, the Go ring and the
      Java ring built from it place every key on the same shard. */
  method Parity(go: Ring, java: ShardRing, key: string) returns (a: int, b: int)
    requires go.Valid() && java.Valid() && go.crc == java.crc
    requires SetOf(go.cfg.shards) == SetOf(java.topology.shards)
    requires go.cfg.vnodesPerShard == java.topology.vnodesPerShard
    requires CollisionFree(Points(go.crc, go.cfg))
    requires go.cfg.shards != [] && go.cfg.vnodesPerShard > 0
    ensures a == b
    ensures Owns(Points(go.crc, go.cfg), go.crc(key), a)
  {
    OrderIrrelevant(go.crc, go.cfg, java.topology);
    SomePoint(go.crc, go.cfg);
    a := go.ShardForNewEntity(key);
    b := java.ShardForNewEntity(key);
    OwnerUnique(Points(go.crc, go.cfg), go.crc(key), a, b);
  }

  lemma SomePoint(crc: Checksum, cfg: Topology)
    requires cfg.shards != [] && cfg.vnodesPerShard > 0
    ensures Vnode(crc(VnodeKey(0, cfg.shards[0])), cfg.shards[0]) in Points(crc, cfg)
  {}

  /** The order in which the config lists the shards changes no point of the ring. */
  lemma OrderIrrelevant(crc: Checksum, a: Topology, b: Topology)
    requires SetOf(a.shards) == SetOf(b.shards) && a.vnodesPerShard == b.vnodesPerShard
    ensures Points(crc, a) == Points(crc, b)
  {
    PointsWithin(crc, a, b);
    PointsWithin(crc, b, a);
  }

  lemma PointsWithin(crc: Checksum, a: Topology, b: Topology)
    requires SetOf(a.shards) <= SetOf(b.shards) && a.vnodesPerShard == b.vnodesPerShard
    ensures Points(crc, a) <= Points(crc, b)
    ensures forall p :: p in Points(crc, b) && p.shardID in a.shards ==> p in Points(crc, a)
  {
    forall p | p in Points(crc, a) ensures p in Points(crc, b) {
      var i, v :| 0 <= i < |a.shards| && 0 <= v < a.vnodesPerShard
        && p == Vnode(crc(VnodeKey(v, a.shards[i])), a.shards[i]);
      assert a.shards[i] in SetOf(a.shards);
      var j :| 0 <= j < |b.shards| && b.shards[j] == a.shards[i];
    }
    forall p | p in Points(crc, b) && p.shardID in a.shards ensures p in Points(crc, a) {
      var j, v :| 0 <= j < |b.shards| && 0 <= v < b.vnodesPerShard
        && p == Vnode(crc(VnodeKey(v, b.shards[j])), b.shards[j]);
      var i :| 0 <= i < |a.shards| && a.shards[i] == p.shardID;
    }
  }

  /** Minimal disruption: grow a topology by any shards (the new shard IDs may go anywhere in
      the list). A key keeps its owner or moves to an added shard; read from the larger ring
      to the smaller one, only keys owned by a removed shard move. */
  lemma MinimalDisruption(crc: Checksum, small: Topology, big: Topology, h: Hash, before: int, after: int)
    requires SetOf(small.shards) <= SetOf(big.shards) && small.vnodesPerShard == big.vnodesPerShard
    requires CollisionFree(Points(crc, big))
    requires Owns(Points(crc, small), h, before) && Owns(Points(crc, big), h, after)
    ensures after == before || after !in small.shards
  {
    PointsWithin(crc, small, big);
    if after in small.shards {
      var p :| Nearest(Points(crc, big), h, p) && p.shardID == after;
      assert p in Points(crc, small);
      assert Nearest(Points(crc, small), h, p);
      OwnerUnique(Points(crc, small), h, before, after);
    }
  }

  /** The moved keys are exactly those for which an added shard has a point strictly nearer
      clockwise than every old point. */
  lemma MovesIff(crc: Checksum, small: Topology, big: Topology, h: Hash, before: int, after: int)
    requires SetOf(small.shards) <= SetOf(big.shards) && small.vnodesPerShard == big.vnodesPerShard
    requires CollisionFree(Points(crc, big))
    requires Owns(Points(crc, small), h, before) && Owns(Points(crc, big), h, after)
    ensures after != before <==>
      exists p :: p in Points(crc, big) && p.shardID !in small.shards
        && forall q :: q in Points(crc, small) ==> Clockwise(h, p.hash) < Clockwise(h, q.hash)
  {
    PointsWithin(crc, small, big);
    var bigPts, smallPts := Points(crc, big), Points(crc, small);
    var b :| Nearest(bigPts, h, b) && b.shardID == after;
    var a :| Nearest(smallPts, h, a) && a.shardID == before;
    MinimalDisruption(crc, small, big, h, before, after);
    ShardsListed(crc, small);
    if after != before {
      forall q | q in smallPts ensures Clockwise(h, b.hash) < Clockwise(h, q.hash) {
        assert q in bigPts && q.shardID in small.shards;
        assert q.hash != b.hash;
      }
      assert b in bigPts && b.shardID !in small.shards;
    }
  }

  lemma ShardsListed(crc: Checksum, cfg: Topology)
    ensures forall p :: p in Points(crc, cfg) ==> p.shardID in cfg.shards
  {}
}
