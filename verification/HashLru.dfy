/** The sharded cache of Helens/ds/lru_cache.h: one LRU cache a bucket, a key lives where its hash says. */
module HashLru {
  import opened Arith
  import opened Options
  import opened Lru
  import opened LruCacheObject

  /** ceil(n / bucket). */
  function PerShard(n: nat, bucket: nat): nat
    requires bucket > 0
  {
    (n + bucket - 1) / bucket
  }

  /** Rounding up never gives less room than asked for, and less than one more per bucket. */
  lemma PerShardRounds(n: nat, bucket: nat)
    requires bucket > 0
    ensures n <= PerShard(n, bucket) * bucket < n + bucket
    ensures PerShard(n, bucket) == 0 <==> n == 0
  {
    var m := n + bucket - 1;
    assert m == bucket * (m / bucket) + m % bucket;
  }

  function ShardConfig(maxSize: nat, elasticity: nat, bucket: nat): Config
    requires bucket > 0
  {
    Config(PerShard(maxSize, bucket), PerShard(elasticity, bucket))
  }

  // ----- runs -----

  function Place<K>(hash: K -> nat, k: K, bucket: nat): (i: nat)
    requires bucket > 0
    ensures i < bucket
  {
    hash(k) % bucket
  }

  /** The shard of a key is the remainder of its hash; keys share a shard iff their hashes differ by a multiple of the buckets. */
  lemma PlaceExactly<K>(hash: K -> nat, k: K, l: K, bucket: nat)
    requires bucket > 0
    ensures exists q: nat :: hash(k) == q * bucket + Place(hash, k, bucket)
    ensures Place(hash, k, bucket) == hash(k) % bucket
    ensures Place(hash, k, bucket) == Place(hash, l, bucket) <==> exists d: int :: hash(k) == hash(l) + d * bucket
  {
    Congruent(hash(k), hash(l), bucket);
    assert hash(k) == (hash(k) / bucket) * bucket + Place(hash, k, bucket);
  }

  /** clear goes to every shard, everything else to the one the key hashes to. */
  function DoShards<K(==), V>(shards: seq<State<K, V>>, op: Op<K, V>, c: Config, hash: K -> nat): (r: seq<State<K, V>>)
    requires shards != []
    ensures |r| == |shards|
  {
    if op.ClearOp? then seq(|shards|, i requires 0 <= i < |shards| => Do(shards[i], op, c))
    else
      var i := Place(hash, op.key, |shards|);
      shards[i := Do(shards[i], op, c)]
  }

  function RunShards<K(==), V>(shards: seq<State<K, V>>, ops: seq<Op<K, V>>, c: Config, hash: K -> nat): (r: seq<State<K, V>>)
    requires shards != []
    ensures |r| == |shards|
  {
    if ops == [] then shards else DoShards(RunShards(shards, ops[..|ops| - 1], c, hash), ops[|ops| - 1], c, hash)
  }

  predicate Concerns<K, V>(op: Op<K, V>, hash: K -> nat, i: nat, bucket: nat)
    requires bucket > 0
  {
    op.ClearOp? || Place(hash, op.key, bucket) == i
  }

  /** The operations shard `i` sees. */
  function Projected<K, V>(ops: seq<Op<K, V>>, hash: K -> nat, i: nat, bucket: nat): seq<Op<K, V>>
    requires bucket > 0
  {
    if ops == [] then []
    else
      var before := Projected(ops[..|ops| - 1], hash, i, bucket);
      if Concerns(ops[|ops| - 1], hash, i, bucket) then before + [ops[|ops| - 1]] else before
  }

  /** Each shard behaves as a cache of its own that is given the operations on its keys. */
  lemma {:induction false} ShardsAreCaches<K(!new), V>(shards: seq<State<K, V>>, ops: seq<Op<K, V>>, c: Config, hash: K -> nat, i: nat)
    requires i < |shards|
    ensures RunShards(shards, ops, c, hash)[i] == Run(shards[i], Projected(ops, hash, i, |shards|), c)
  {
    hide Do;
    if ops != [] {
      var prev, op := ops[..|ops| - 1], ops[|ops| - 1];
      ShardsAreCaches(shards, prev, c, hash, i);
      var p := Projected(prev, hash, i, |shards|);
      assert (p + [op])[..|p + [op]| - 1] == p;
    }
  }

  function TotalSize<K, V>(shards: seq<State<K, V>>): nat {
    if shards == [] then 0 else TotalSize(shards[..|shards| - 1]) + |shards[|shards| - 1].items|
  }

  lemma {:induction false} TotalBound<K, V>(shards: seq<State<K, V>>, bound: nat)
    requires forall i :: 0 <= i < |shards| ==> |shards[i].items| <= bound
    ensures TotalSize(shards) <= |shards| * bound
  {
    if shards != [] {
      TotalBound(shards[..|shards| - 1], bound);
      assert |shards| * bound == (|shards| - 1) * bound + bound;
    }
  }

  function Fresh<K, V>(bucket: nat): seq<State<K, V>> { seq(bucket, i => Empty()) }

  // ----- one log for the whole cache -----

  /** What an operation adds to the log of the shard it reaches. */
  function Events<K(==), V>(s: State<K, V>, op: Op<K, V>): seq<Event<K, V>> {
    match op
    case SetOp(k, v) => [Stored(k, v)]
    case GetOp(k) => if Lru.Get(s.items, k).1.Some? then [Found(k)] else []
    case DelOp(k) => if IndexOf(s.items, k) < |s.items| then [Dropped(k)] else []
    case ClearOp => [Emptied]
  }

  /** The log of a run over all shards. */
  function WholeLog<K(==), V>(shards: seq<State<K, V>>, ops: seq<Op<K, V>>, c: Config, hash: K -> nat): seq<Event<K, V>>
    requires shards != []
  {
    if ops == [] then []
    else
      var prev, op := ops[..|ops| - 1], ops[|ops| - 1];
      var now := RunShards(shards, prev, c, hash);
      WholeLog(shards, prev, c, hash) +
      Events(now[if op.ClearOp? then 0 else Place(hash, op.key, |now|)], op)
  }

  predicate Belongs<K, V>(e: Event<K, V>, hash: K -> nat, i: nat, bucket: nat)
    requires bucket > 0
  {
    e.Emptied? || Place(hash, e.key, bucket) == i
  }

  /** The part of a log that concerns shard `i`. */
  function ForShard<K, V>(log: seq<Event<K, V>>, hash: K -> nat, i: nat, bucket: nat): seq<Event<K, V>>
    requires bucket > 0
  {
    if log == [] then []
    else
      var before := ForShard(log[..|log| - 1], hash, i, bucket);
      if Belongs(log[|log| - 1], hash, i, bucket) then before + [log[|log| - 1]] else before
  }

  lemma ForShardMore<K(!new), V>(log: seq<Event<K, V>>, more: seq<Event<K, V>>, hash: K -> nat, i: nat, bucket: nat)
    requires bucket > 0 && |more| <= 1
    ensures ForShard(log + more, hash, i, bucket)
         == ForShard(log, hash, i, bucket) + if more != [] && Belongs(more[0], hash, i, bucket) then more else []
  {
    if more == [] {
      assert log + more == log;
    } else {
      assert (log + more)[..|log + more| - 1] == log;
    }
  }

  /** A shard's own log is its part of the whole. */
  lemma {:induction false} LogProjects<K(!new), V>(bucket: nat, ops: seq<Op<K, V>>, c: Config, hash: K -> nat, i: nat)
    requires i < bucket
    ensures RunShards(Fresh(bucket), ops, c, hash)[i].log == ForShard(WholeLog(Fresh(bucket), ops, c, hash), hash, i, bucket)
  {
    hide Lru.Get, Lru.Set, IndexOf, Place;
    if ops != [] {
      var prev, op := ops[..|ops| - 1], ops[|ops| - 1];
      LogProjects(bucket, prev, c, hash, i);
      var now := RunShards(Fresh<K, V>(bucket), prev, c, hash);
      var events := Events(now[if op.ClearOp? then 0 else Place(hash, op.key, bucket)], op);
      ForShardMore(WholeLog(Fresh(bucket), prev, c, hash), events, hash, i, bucket);
    }
  }

  lemma {:induction false} ValueProjects<K(!new), V>(log: seq<Event<K, V>>, hash: K -> nat, k: K, bucket: nat)
    requires bucket > 0
    ensures LastValue(ForShard(log, hash, Place(hash, k, bucket), bucket), k) == LastValue(log, k)
  {
    hide Place;
    if log != [] {
      var prev, e := log[..|log| - 1], log[|log| - 1];
      ValueProjects(prev, hash, k, bucket);
      var f := ForShard(prev, hash, Place(hash, k, bucket), bucket);
      assert (f + [e])[..|f + [e]| - 1] == f;
    }
  }

  /** Within a shard, who was used later is the same in its part of the log. */
  lemma {:induction false} OrderProjects<K(!new), V>(log: seq<Event<K, V>>, hash: K -> nat, k: K, l: K, bucket: nat)
    requires bucket > 0 && Place(hash, k, bucket) == Place(hash, l, bucket)
    ensures var f := ForShard(log, hash, Place(hash, k, bucket), bucket);
      LastUse(f, k) > LastUse(f, l) <==> LastUse(log, k) > LastUse(log, l)
  {
    hide Place, LastUse, ForShard, Uses, Belongs;
    var i := Place(hash, k, bucket);
    if log == [] {
      assert LastUse(log, k) == 0 == LastUse(log, l) by { NeverUsed(log, k); NeverUsed(log, l); }
      NoEvents(log, hash, i, bucket);
    } else {
      var prev, e := log[..|log| - 1], log[|log| - 1];
      var f := ForShard(prev, hash, i, bucket);
      OrderProjects(prev, hash, k, l, bucket);
      assert log == prev + [e];
      ForShardMore(prev, [e], hash, i, bucket);
      assert f + [] == f;
      assert ForShard(log, hash, i, bucket) == if Belongs(e, hash, i, bucket) then f + [e] else f;
      UseSnoc(prev, e, k);
      UseSnoc(prev, e, l);
      UseSnoc(f, e, k);
      UseSnoc(f, e, l);
      UsesBelong(e, hash, k, l, bucket);
    }
  }

  lemma NeverUsed<K, V>(log: seq<Event<K, V>>, k: K)
    requires log == []
    ensures LastUse(log, k) == 0
  {}

  lemma NoEvents<K, V>(log: seq<Event<K, V>>, hash: K -> nat, i: nat, bucket: nat)
    requires bucket > 0 && log == []
    ensures ForShard(log, hash, i, bucket) == log
  {}

  lemma UseSnoc<K, V>(log: seq<Event<K, V>>, e: Event<K, V>, k: K)
    ensures LastUse(log + [e], k) == if Uses(e, k) then |log| + 1 else LastUse(log, k)
  {
    assert (log + [e])[..|log + [e]| - 1] == log;
  }

  lemma UsesBelong<K, V>(e: Event<K, V>, hash: K -> nat, k: K, l: K, bucket: nat)
    requires bucket > 0 && Place(hash, k, bucket) == Place(hash, l, bucket)
    ensures Uses(e, k) || Uses(e, l) ==> Belongs(e, hash, Place(hash, k, bucket), bucket)
    ensures Uses(e, k) && Uses(e, l) ==> k == l
  {}

  /**
   Any run of the sharded cache: the whole stays within the sum of the shards' bounds; a key that is
   found has the value last stored under it; and within a shard, what is found was used after
   everything that is remembered but not found.
   */
  lemma EveryShardedRun<K(!new), V(!new)>(bucket: nat, maxSize: nat, elasticity: nat, ops: seq<Op<K, V>>, hash: K -> nat)
    requires bucket > 0
    ensures var c := ShardConfig(maxSize, elasticity, bucket);
      var shards, log := RunShards(Fresh(bucket), ops, c, hash), WholeLog(Fresh(bucket), ops, c, hash);
      && (maxSize > 0 ==> TotalSize(shards) <= bucket * Bound(c))
      && (forall k :: Lookup(shards, hash, k).Some? ==> Lookup(shards, hash, k) == LastValue(log, k))
      && (forall k, l ::
            (Lookup(shards, hash, k).Some? && Lookup(shards, hash, l).None? && LastValue(log, l).Some? &&
             hash(k) % bucket == hash(l) % bucket) ==> LastUse(log, k) > LastUse(log, l))
  {
    hide Lru.Get, Run, Projected, RunShards, WholeLog, ForShard, Bound, PerShard;
    var c := ShardConfig(maxSize, elasticity, bucket);
    var shards, log := RunShards(Fresh<K, V>(bucket), ops, c, hash), WholeLog(Fresh<K, V>(bucket), ops, c, hash);
    PerShardRounds(maxSize, bucket);
    forall i | 0 <= i < bucket ensures c.maxSize > 0 ==> |shards[i].items| <= Bound(c) {
      ShardPromises(bucket, ops, c, hash, i);
    }
    if maxSize > 0 { TotalBound(shards, Bound(c)); }
    forall k | Lookup(shards, hash, k).Some? ensures Lookup(shards, hash, k) == LastValue(log, k) {
      ShardPromises(bucket, ops, c, hash, Place(hash, k, bucket));
      ValueProjects(log, hash, k, bucket);
    }
    forall k, l | Lookup(shards, hash, k).Some? && Lookup(shards, hash, l).None? && LastValue(log, l).Some? &&
                  hash(k) % bucket == hash(l) % bucket
      ensures LastUse(log, k) > LastUse(log, l)
    {
      ShardPromises(bucket, ops, c, hash, Place(hash, k, bucket));
      ValueProjects(log, hash, l, bucket);
      OrderProjects(log, hash, k, l, bucket);
    }
  }

  /** What a get would return. */
  function Lookup<K(==), V>(shards: seq<State<K, V>>, hash: K -> nat, k: K): Option<V>
    requires shards != []
  {
    Lru.Get(shards[hash(k) % |shards|].items, k).1
  }

  lemma ShardPromises<K(!new), V(!new)>(bucket: nat, ops: seq<Op<K, V>>, c: Config, hash: K -> nat, i: nat)
    requires i < bucket
    ensures var s := RunShards(Fresh(bucket), ops, c, hash)[i];
      && s.log == ForShard(WholeLog(Fresh(bucket), ops, c, hash), hash, i, bucket)
      && (c.maxSize > 0 ==> |s.items| <= Bound(c))
      && (forall k :: Lru.Get(s.items, k).1.Some? ==> Lru.Get(s.items, k).1 == LastValue(s.log, k))
      && (forall k, l :: Lru.Get(s.items, k).1.Some? && Lru.Get(s.items, l).1.None? && LastValue(s.log, l).Some? ==>
            LastUse(s.log, k) > LastUse(s.log, l))
  {
    hide Lru.Get, Run, Projected, RunShards, WholeLog, ForShard, Bound;
    LogProjects(bucket, ops, c, hash, i);
    ShardsAreCaches(Fresh<K, V>(bucket), ops, c, hash, i);
    EveryRun(Projected(ops, hash, i, bucket), c);
  }

  /** The keys of the same shard as `k`, by the remainder of the hash, that were used after it. */
  ghost function UsedAfter<K(!new), V(!new)>(log: seq<Event<K, V>>, hash: K -> nat, k: K, bucket: nat): set<K>
    requires bucket > 0
  {
    set e | e in log && (e.Stored? || e.Found?) && hash(e.key) % bucket == hash(k) % bucket && LastUse(log, e.key) > LastUse(log, k) :: e.key
  }

  /**
   Without deletions a key is lost only to keys of its own shard: if fewer than a shard's maximum of
   keys whose hash leaves the same remainder were used after it, it is found.
   */
  lemma NothingForgottenSharded<K(!new), V(!new)>(bucket: nat, ops: seq<Op<K, V>>, c: Config, hash: K -> nat, k: K)
    requires bucket > 0 && forall i :: 0 <= i < |ops| ==> !ops[i].DelOp?
    ensures var shards, log := RunShards(Fresh(bucket), ops, c, hash), WholeLog(Fresh(bucket), ops, c, hash);
      LastValue(log, k).Some? && (c.maxSize == 0 || |UsedAfter(log, hash, k, bucket)| < c.maxSize) ==>
        Lookup(shards, hash, k).Some?
  {
    hide Lru.Get, Run, Projected, RunShards, WholeLog, ForShard, IndexOf, Recency, UsedAfter, LastValue;
    var i, log := Place(hash, k, bucket), WholeLog(Fresh(bucket), ops, c, hash);
    ProjectedKeeps(ops, hash, i, bucket);
    LogProjects(bucket, ops, c, hash, i);
    ShardsAreCaches(Fresh<K, V>(bucket), ops, c, hash, i);
    NothingForgotten(Projected(ops, hash, i, bucket), c, k);
    ValueProjects(log, hash, k, bucket);
    if LastValue(log, k).Some? { InFront(log, hash, k, bucket); }
  }

  /** What stands before a key in the recency list of its shard was used after it. */
  lemma InFront<K(!new), V(!new)>(log: seq<Event<K, V>>, hash: K -> nat, k: K, bucket: nat)
    requires bucket > 0 && LastValue(ForShard(log, hash, Place(hash, k, bucket), bucket), k).Some?
    ensures IndexOf(Recency(ForShard(log, hash, Place(hash, k, bucket), bucket)), k) <= |UsedAfter(log, hash, k, bucket)|
  {
    hide Recency, ForShard, IndexOf, LastUse, LastValue;
    var p := Place(hash, k, bucket);
    var f := ForShard(log, hash, p, bucket);
    var r, later := Recency(f), UsedAfter(log, hash, k, bucket);
    var v := LastValue(f, k).value;
    RecencyValues(f, k, v);
    var at :| 0 <= at < |r| && r[at] == Item(k, v);
    var i := IndexOf(r, k);
    assert i <= at < |r|;
    forall j | 0 <= j < i ensures r[j].key in later {
      RecencyOrder(f, j, i);
      var l := r[j].key;
      UsedIn(f, l);
      ShardOnly(log, hash, p, bucket, f[LastUse(f, l) - 1]);
      OrderProjects(log, hash, l, k, bucket);
      UsedIn(log, l);
    }
    RecencyDistinct(f);
    CountKeys(r[..i], later);
  }

  lemma UsedIn<K(!new), V>(log: seq<Event<K, V>>, k: K)
    requires LastUse(log, k) > 0
    ensures Uses(log[LastUse(log, k) - 1], k) && log[LastUse(log, k) - 1] in log
  {}

  lemma {:induction false} ShardOnly<K(!new), V>(log: seq<Event<K, V>>, hash: K -> nat, i: nat, bucket: nat, e: Event<K, V>)
    requires bucket > 0 && e in ForShard(log, hash, i, bucket)
    ensures Belongs(e, hash, i, bucket)
  {
    hide Belongs;
    var prev := log[..|log| - 1];
    if e in ForShard(prev, hash, i, bucket) { ShardOnly(prev, hash, i, bucket, e); }
  }

  lemma {:induction false} CountKeys<K(!new), V>(s: seq<Item<K, V>>, keys: set<K>)
    requires Distinct(s) && forall j :: 0 <= j < |s| ==> s[j].key in keys
    ensures |s| <= |keys|
  {
    if s != [] {
      var init, last := s[..|s| - 1], s[|s| - 1].key;
      CountKeys(init, keys - {last});
    }
  }

  lemma {:induction false} ProjectedKeeps<K(!new), V>(ops: seq<Op<K, V>>, hash: K -> nat, i: nat, bucket: nat)
    requires bucket > 0 && forall j :: 0 <= j < |ops| ==> !ops[j].DelOp?
    ensures forall j :: 0 <= j < |Projected(ops, hash, i, bucket)| ==> !Projected(ops, hash, i, bucket)[j].DelOp?
  {
    hide Place;
    if ops != [] { ProjectedKeeps(ops[..|ops| - 1], hash, i, bucket); }
  }

  // ----- the object -----

  class HashLruCache<K(!new, ==), V> {
    const bucket: nat
    const hash: K -> nat
    const shards: seq<LruCache<K, V>>

    ghost predicate Valid()
      reads shards
    {
      && bucket == |shards| > 0
      && (forall i, j :: 0 <= i < j < |shards| ==> shards[i] != shards[j])
      && forall i :: 0 <= i < |shards| ==> shards[i].Valid()
    }

    /** What each shard holds. */
    ghost function Contents(): (r: seq<seq<Item<K, V>>>)
      reads shards
      requires Valid()
      ensures |r| == bucket
    {
      seq(|shards|, i requires 0 <= i < |shards| reads shards requires Valid() => shards[i].Contents())
    }

    constructor (bucket: nat, maxSize: nat, elasticity: nat, hash: K -> nat)
      requires bucket > 0
      ensures Valid() && Contents() == seq(bucket, i => []) && this.bucket == bucket && this.hash == hash
      ensures forall i :: 0 <= i < bucket ==>
        && maxSize <= shards[i].Limits().maxSize * bucket < maxSize + bucket
        && elasticity <= shards[i].Limits().elasticity * bucket < elasticity + bucket
      ensures forall i :: 0 <= i < bucket ==> shards[i].Limits() == ShardConfig(maxSize, elasticity, bucket)
    {
      PerShardRounds(maxSize, bucket);
      PerShardRounds(elasticity, bucket);
      var made: seq<LruCache<K, V>> := [];
      for i := 0 to bucket
        invariant |made| == i && forall j :: 0 <= j < i ==> fresh(made[j]) && allocated(made[j])
        invariant forall j, l :: 0 <= j < l < i ==> made[j] != made[l]
        invariant forall j :: 0 <= j < i ==> made[j].Valid() && made[j].Contents() == []
        invariant forall j :: 0 <= j < i ==> made[j].Limits() == ShardConfig(maxSize, elasticity, bucket)
      {
        var shard := new LruCache(PerShard(maxSize, bucket), PerShard(elasticity, bucket));
        made := made + [shard];
      }
      this.bucket, this.hash, shards := bucket, hash, made;
    }

    method Set(k: K, v: V)
      requires Valid()
      modifies shards[hash(k) % bucket]
      ensures Valid()
      ensures var i := hash(k) % bucket;
        Contents() == old(Contents())[i := Lru.Set(old(Contents())[i], k, v, shards[i].Limits())]
    {
      hide LruCache.Valid, LruCache.Contents, Lru.Set;
      var i := Place(hash, k, bucket);
      var evicted := shards[i].Set(k, v);
    }

    method Get(k: K) returns (r: Option<V>)
      requires Valid()
      modifies shards[hash(k) % bucket]
      ensures Valid()
      ensures var i := hash(k) % bucket;
        var got := Lru.Get(old(Contents())[i], k);
        Contents() == old(Contents())[i := got.0] && r == got.1
    {
      var i := Place(hash, k, bucket);
      r := shards[i].Get(k);
    }

    method Del(k: K) returns (ok: bool)
      requires Valid()
      modifies shards[hash(k) % bucket]
      ensures Valid()
      ensures var i := hash(k) % bucket;
        && Contents() == old(Contents())[i := Remove(old(Contents())[i], k)]
        && (ok <==> exists x :: x in old(Contents())[i] && x.key == k)
    {
      var i := Place(hash, k, bucket);
      ok := shards[i].Del(k);
    }

    method Size() returns (total: nat)
      requires Valid()
      ensures total == Sizes(Contents())
    {
      total := 0;
      for i := 0 to |shards|
        invariant total == Sizes(Contents()[..i])
      {
        var n := shards[i].Size();
        assert Contents()[..i + 1][..i] == Contents()[..i];
        total := total + n;
      }
      assert Contents()[..|shards|] == Contents();
    }

    method Clear()
      requires Valid()
      modifies shards
      ensures Valid() && Contents() == seq(bucket, i => [])
    {
      hide LruCache.Valid, LruCache.Contents;
      for i := 0 to |shards|
        invariant Valid() && forall j :: 0 <= j < i ==> shards[j].Contents() == []
      {
        shards[i].Clear();
      }
    }
  }

  function Sizes<T>(parts: seq<seq<T>>): nat {
    if parts == [] then 0 else Sizes(parts[..|parts| - 1]) + |parts[|parts| - 1]|
  }
}
