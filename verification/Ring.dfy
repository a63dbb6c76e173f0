/** The least key of an ordered map, as the treemap library finds it. */
module TreeMap {
  import opened Options

  lemma Inhabited(keys: set<int>) returns (k: int)
    requires keys != {}
    ensures k in keys
  {
    assert (forall j :: j !in keys) ==> keys == {};
    k :| k in keys;
  }

  ghost predicate IsLeast(keys: set<int>, k: int) { k in keys && forall j :: j in keys ==> k <= j }

  lemma {:induction false} LeastExists(keys: set<int>) returns (k: int)
    requires keys != {}
    ensures IsLeast(keys, k)
    decreases |keys|
  {
    k := Inhabited(keys);
    if keys - {k} != {} {
      var rest := LeastExists(keys - {k});
      assert forall j :: j in keys ==> j == k || j in keys - {k};
      k := if k < rest then k else rest;
    } else {
      assert forall j :: j in keys ==> j == k || j in keys - {k};
    }
  }

  /** The treemap's least key, if any. */
  ghost function Least(keys: set<int>): (r: Option<int>)
    ensures r.None? <==> keys == {}
    ensures r.Some? ==> IsLeast(keys, r.value)
  {
    SomeLeast(keys);
    if exists k :: IsLeast(keys, k) then
      var k :| IsLeast(keys, k);
      Some(k)
    else None
  }

  lemma SomeLeast(keys: set<int>)
    ensures keys != {} ==> exists k :: IsLeast(keys, k)
  {
    if keys != {} { var k := LeastExists(keys); }
  }
}

/** The consistent-hash ring (`proxy/router/shard_mycat.go`, MycatPartitionMurmurHashShard). */
module Ring {
  import opened Decimal
  import opened Options
  import opened TreeMap

  type Name = seq<Byte>

  /** "SHARD-" and "-NODE-". */
  const SHARD: Name := [83, 72, 65, 82, 68, 45]
  const NODE: Name := [45, 78, 79, 68, 69, 45]

  /** The name hashed for a shard's node `n - 1`: node names pile up behind the shard's name. */
  function NodeName(shard: nat, n: nat): Name {
    if n == 0 then SHARD + Format(shard) else NodeName(shard, n - 1) + NODE + Format(n - 1)
  }

  /** The ring points of one shard. */
  function Points(hash: Name -> int, shard: nat, nodes: nat): set<int> {
    if nodes == 0 then {} else Points(hash, shard, nodes - 1) + {hash(NodeName(shard, nodes))}
  }

  function Owned(points: set<int>, shard: nat): map<int, nat> { map p | p in points :: shard }

  /** The ring of the first `count` shards: of shards that share a point the last one keeps it. */
  function Buckets(hash: Name -> int, count: nat, nodes: nat): map<int, nat> {
    if count == 0 then map[]
    else Buckets(hash, count - 1, nodes) + Owned(Points(hash, count - 1, nodes), count - 1)
  }

  lemma OwnedStep(buckets: map<int, nat>, points: set<int>, shard: nat, p: int)
    ensures (buckets + Owned(points, shard))[p := shard] == buckets + Owned(points + {p}, shard)
  {
  }

  predicate HasPoint(hash: Name -> int, nodes: nat, p: int, shard: nat) { p in Points(hash, shard, nodes) }

  /** The last of the first `count` shards with the point. */
  ghost predicate LastWith(hash: Name -> int, count: nat, nodes: nat, p: int, shard: nat) {
    && shard < count && HasPoint(hash, nodes, p, shard)
    && forall i :: shard < i < count ==> !HasPoint(hash, nodes, p, i)
  }

  /** Every point of the ring belongs to the last shard that has it, and every shard's points are on the ring. */
  lemma {:induction false} BucketOwner(hash: Name -> int, count: nat, nodes: nat, p: int)
    ensures var b := Buckets(hash, count, nodes);
            if p in b then LastWith(hash, count, nodes, p, b[p])
            else forall i :: 0 <= i < count ==> !HasPoint(hash, nodes, p, i)
  {
    if count > 0 {
      BucketOwner(hash, count - 1, nodes, p);
      var before, added := Buckets(hash, count - 1, nodes), Points(hash, count - 1, nodes);
      assert HasPoint(hash, nodes, p, count - 1) <==> p in added;
      assert Buckets(hash, count, nodes) == before + Owned(added, count - 1);
      assert p !in added ==> forall i :: 0 <= i < count && HasPoint(hash, nodes, p, i) ==> i < count - 1;
    }
  }

  /** FindForKey on a hashed key: the ceiling's shard, else the first point's, else an error. */
  ghost function Find(buckets: map<int, nat>, h: int): Option<nat> {
    var ceiling := Least(set k | k in buckets && h <= k);
    if ceiling.Some? then Some(buckets[ceiling.value])
    else
      var first := Least(buckets.Keys);
      if first.None? then None else Some(buckets[first.value])
  }

  /** If a set gains keys, its least key stays the least unless a gained key replaces it. */
  lemma LeastGrows(keys: set<int>, more: set<int>)
    requires keys <= more
    ensures Least(more).Some? ==> Least(more).value in more - keys || Least(more) == Least(keys)
    ensures Least(more).None? ==> Least(keys).None?
  {
  }

  /** The shard of a hashed key in the ring of the first `count` shards. */
  ghost function Place(hash: Name -> int, nodes: nat, h: int, count: nat): Option<nat> {
    Find(Buckets(hash, count, nodes), h)
  }

  /** Growing the ring by one shard leaves a key where it was or moves it to the new shard. */
  lemma RingMonotone(hash: Name -> int, nodes: nat, h: int, count: nat)
    ensures var after := Place(hash, nodes, h, count + 1);
            after == Place(hash, nodes, h, count) || after == Some(count)
  {
    var old_, new_ := Buckets(hash, count, nodes), Buckets(hash, count + 1, nodes);
    LeastGrows(set k | k in old_ && h <= k, set k | k in new_ && h <= k);
    LeastGrows(old_.Keys, new_.Keys);
  }

  lemma NewOnly(before: Option<nat>, middle: Option<nat>, after: Option<nat>, count: nat, n: nat)
    requires count <= n && (middle == before || (middle.Some? && count <= middle.value < n))
    requires after == middle || after == Some(n)
    ensures after == before || (after.Some? && count <= after.value < n + 1)
  {
  }

  /** Any growth only moves keys to added shards. */
  lemma {:induction false} RingGrowth(hash: Name -> int, nodes: nat, h: int, count: nat, grown: nat)
    requires count <= grown
    ensures var before, after := Place(hash, nodes, h, count), Place(hash, nodes, h, grown);
            after == before || (after.Some? && count <= after.value < grown)
    decreases grown
  {
    if count < grown {
      var n := grown - 1;
      RingGrowth(hash, nodes, h, count, n);
      RingMonotone(hash, nodes, h, n);
      NewOnly(Place(hash, nodes, h, count), Place(hash, nodes, h, n), Place(hash, nodes, h, grown), count, n);
    }
  }

  class MurmurHashShard {
    const count: nat
    const virtualBucketTimes: int
    const hash: Name -> int
    var bucketMap: map<int, nat>

    constructor (count: nat, virtualBucketTimes: int, hash: Name -> int)
      ensures this.count == count && this.virtualBucketTimes == virtualBucketTimes && this.hash == hash
      ensures bucketMap == map[]
    {
      this.count, this.virtualBucketTimes, this.hash := count, virtualBucketTimes, hash;
      bucketMap := map[];
    }

    function Nodes(): nat { if virtualBucketTimes < 0 then 0 else virtualBucketTimes }

    /** The inner loop of generateBucketMap: one shard's nodes; every shard has the default weight 1. */
    method PlaceShard(i: nat)
      modifies this
      ensures bucketMap == old(bucketMap) + Owned(Points(hash, i, Nodes()), i)
    {
      var buf := SHARD + Format(i);
      ghost var before := bucketMap;
      assert before == before + Owned({}, i);
      for n := 0 to Nodes()
        invariant buf == NodeName(i, n) && bucketMap == before + Owned(Points(hash, i, n), i)
      {
        buf := buf + NODE + Format(n);
        OwnedStep(before, Points(hash, i, n), i, hash(buf));
        bucketMap := bucketMap[hash(buf) := i];
      }
    }

    /** generateBucketMap. */
    method GenerateBucketMap()
      requires bucketMap == map[]
      modifies this
      ensures bucketMap == Buckets(hash, count, Nodes())
    {
      for i := 0 to count
        invariant bucketMap == Buckets(hash, i, Nodes())
      {
        PlaceShard(i);
      }
    }
  }
}
