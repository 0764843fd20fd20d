/**
 The least-recently-used cache of Helens/ds/lru_cache.h as operations on its list of items, most
 recent first, and the unbounded recency list they are measured against.
 */
module Lru {
  import opened Options

  datatype Item<K, V> = Item(key: K, value: V)

  datatype Config = Config(maxSize: nat, elasticity: nat)

  /** Position of a key, the length if it is absent. */
  function IndexOf<K(==), V>(s: seq<Item<K, V>>, k: K): (i: nat)
    ensures i <= |s| && (i < |s| ==> s[i].key == k)
    ensures forall j :: 0 <= j < i ==> s[j].key != k
  {
    if s == [] || s[0].key == k then 0 else 1 + IndexOf(s[1..], k)
  }

  ghost predicate Distinct<K(!new), V>(s: seq<Item<K, V>>) {
    forall i, j :: 0 <= i < j < |s| ==> s[i].key != s[j].key
  }

  function Without<T>(s: seq<T>, i: nat): (r: seq<T>)
    requires i < |s|
    ensures |r| == |s| - 1 && forall j :: 0 <= j < |r| ==> r[j] == if j < i then s[j] else s[j + 1]
  {
    s[..i] + s[i + 1..]
  }

  /** The list without a key, if it has it. */
  function Remove<K(==), V>(s: seq<Item<K, V>>, k: K): seq<Item<K, V>> {
    var i := IndexOf(s, k);
    if i < |s| then Without(s, i) else s
  }

  // ----- the operations of the cache -----

  function Pruned<T>(s: seq<T>, c: Config): seq<T> {
    if c.maxSize == 0 || |s| < c.maxSize + c.elasticity || |s| <= c.maxSize then s else s[..c.maxSize]
  }

  function Set<K(==), V>(s: seq<Item<K, V>>, k: K, v: V, c: Config): seq<Item<K, V>> {
    var i := IndexOf(s, k);
    if i < |s| then [Item(k, v)] + Without(s, i) else Pruned([Item(k, v)] + s, c)
  }

  function Get<K(==), V>(s: seq<Item<K, V>>, k: K): (seq<Item<K, V>>, Option<V>) {
    var i := IndexOf(s, k);
    if i < |s| then ([s[i]] + Without(s, i), Some(s[i].value)) else (s, None)
  }

  // ----- the reference: what was used, and when -----

  /** A set, a get that found its key, a del, a clear. */
  datatype Event<K, V> = Stored(key: K, value: V) | Found(key: K) | Dropped(key: K) | Emptied

  predicate Uses<K(==), V>(e: Event<K, V>, k: K) { (e.Stored? || e.Found?) && e.key == k }

  predicate Forgets<K(==), V>(e: Event<K, V>, k: K) { e.Emptied? || (e.Dropped? && e.key == k) }

  /** The value last stored under `k`, unless it was dropped since. */
  function LastValue<K(==), V>(log: seq<Event<K, V>>, k: K): Option<V> {
    if log == [] then None
    else
      var e := log[|log| - 1];
      if e.Stored? && e.key == k then Some(e.value)
      else if Forgets(e, k) then None
      else LastValue(log[..|log| - 1], k)
  }

  /** One more than the index of the last use of `k`; 0 if there is none. */
  function LastUse<K(==), V>(log: seq<Event<K, V>>, k: K): (n: nat)
    ensures n <= |log|
  {
    if log == [] then 0
    else if Uses(log[|log| - 1], k) then |log|
    else LastUse(log[..|log| - 1], k)
  }

  /** What one event does to the list of an unbounded cache. */
  function After<K(==), V>(s: seq<Item<K, V>>, e: Event<K, V>): seq<Item<K, V>> {
    match e
    case Stored(k, v) => [Item(k, v)] + Remove(s, k)
    case Found(k) => if IndexOf(s, k) < |s| then [s[IndexOf(s, k)]] + Remove(s, k) else s
    case Dropped(k) => Remove(s, k)
    case Emptied => []
  }

  /** The list an unbounded cache would hold. */
  function Recency<K(==), V>(log: seq<Event<K, V>>): seq<Item<K, V>> {
    if log == [] then [] else After(Recency(log[..|log| - 1]), log[|log| - 1])
  }

  // ----- what the reference means -----

  /** Taking one item out of a list without repetitions. */
  lemma WithoutOne<K(!new), V>(s: seq<Item<K, V>>, i: nat)
    requires Distinct(s) && i < |s|
    ensures Distinct(Without(s, i)) && forall x :: x in Without(s, i) <==> x in s && x.key != s[i].key
  {
    var r := Without(s, i);
    forall x | x in s && x.key != s[i].key ensures x in r {
      var j :| 0 <= j < |s| && s[j] == x;
      assert r[if j < i then j else j - 1] == x;
    }
    forall x | x in r ensures x in s && x.key != s[i].key {
      var j :| 0 <= j < |r| && r[j] == x;
      assert s[if j < i then j else j + 1] == x;
    }
  }

  lemma NoSuchKey<K(!new), V>(s: seq<Item<K, V>>, k: K, x: Item<K, V>)
    requires x in s && IndexOf(s, k) == |s|
    ensures x.key != k
  {
    var j :| 0 <= j < |s| && s[j] == x;
  }

  lemma RemovedKey<K(!new), V>(s: seq<Item<K, V>>, k: K, j: nat)
    requires Distinct(s) && j < |Remove(s, k)|
    ensures Remove(s, k)[j].key != k
  {
    hide IndexOf;
    var i := IndexOf(s, k);
    assert i < |s| ==> Remove(s, k)[j] == s[if j < i then j else j + 1];
  }

  lemma RemoveDistinct<K(!new), V>(s: seq<Item<K, V>>, k: K)
    requires Distinct(s)
    ensures Distinct(Remove(s, k)) && forall j :: 0 <= j < |Remove(s, k)| ==> Remove(s, k)[j].key != k
    ensures forall x :: x in Remove(s, k) <==> x in s && x.key != k
  {
    hide Distinct, Without, IndexOf;
    if IndexOf(s, k) < |s| { WithoutOne(s, IndexOf(s, k)); }
    var r := Remove(s, k);
    forall x ensures x in r <==> x in s && x.key != k {
      if x in s && IndexOf(s, k) == |s| { NoSuchKey(s, k, x); }
    }
    forall j | 0 <= j < |r| ensures r[j].key != k {
      RemovedKey(s, k, j);
    }
  }

  lemma {:induction false} RecencyDistinct<K(!new), V>(log: seq<Event<K, V>>)
    ensures Distinct(Recency(log))
  {
    if log != [] {
      var s := Recency(log[..|log| - 1]);
      RecencyDistinct(log[..|log| - 1]);
      if !log[|log| - 1].Emptied? { RemoveDistinct(s, log[|log| - 1].key); }
    }
  }

  /** The list holds exactly the keys with a last value, each with that value. */
  lemma {:induction false} RecencyValues<K(!new), V(!new)>(log: seq<Event<K, V>>, k: K, v: V)
    ensures Item(k, v) in Recency(log) <==> LastValue(log, k) == Some(v)
  {
    hide Remove, Distinct;
    if log != [] {
      var prev, e := log[..|log| - 1], log[|log| - 1];
      var s := Recency(prev);
      RecencyValues(prev, k, v);
      RecencyDistinct(prev);
      if !e.Emptied? { RemoveDistinct(s, e.key); }
      if e.Found? && IndexOf(s, e.key) < |s| {
        MovedToFront(s, e.key);
      }
    }
  }

  lemma MovedToFront<K(!new), V(!new)>(s: seq<Item<K, V>>, k: K)
    requires Distinct(s) && IndexOf(s, k) < |s|
    ensures forall x :: x in [s[IndexOf(s, k)]] + Remove(s, k) <==> x in s
  {
    hide Remove;
    RemoveDistinct(s, k);
    var i := IndexOf(s, k);
    forall x | x in s && x.key == k ensures x == s[i] {
      var j :| 0 <= j < |s| && s[j] == x;
      assert j == i;
    }
  }

  /** Where two items of the shortened list stood. */
  lemma OldPlaces<K, V>(s: seq<Item<K, V>>, k: K, i: nat, j: nat) returns (i': nat, j': nat)
    requires i < j < |Remove(s, k)|
    ensures i' < j' < |s| && s[i'] == Remove(s, k)[i] && s[j'] == Remove(s, k)[j]
  {
    hide IndexOf;
    var p := IndexOf(s, k);
    i', j' := if i < p then i else i + 1, if j < p then j else j + 1;
  }

  /** The list is in order of last use, latest first. */
  lemma {:induction false} RecencyOrder<K(!new), V>(log: seq<Event<K, V>>, i: nat, j: nat)
    requires i < j < |Recency(log)|
    ensures LastUse(log, Recency(log)[i].key) > LastUse(log, Recency(log)[j].key)
  {
    hide Distinct, Remove, IndexOf, Without;
    var prev, e := log[..|log| - 1], log[|log| - 1];
    var s := Recency(prev);
    RecencyDistinct(prev);
    if e.Found? && IndexOf(s, e.key) == |s| {
      RecencyOrder(prev, i, j);
      NotUsed(s, e.key, i);
    } else {
      RemoveDistinct(s, e.key);
      if e.Dropped? {
        var i', j' := OldPlaces(s, e.key, i, j);
        RecencyOrder(prev, i', j');
      } else if i > 0 {
        var i', j' := OldPlaces(s, e.key, i - 1, j - 1);
        RecencyOrder(prev, i', j');
      }
    }
  }

  lemma NotUsed<K, V>(s: seq<Item<K, V>>, k: K, i: nat)
    requires IndexOf(s, k) == |s| && i < |s|
    ensures s[i].key != k
  {}

  // ----- runs of the cache -----

  datatype Op<K, V> = SetOp(key: K, value: V) | GetOp(key: K) | DelOp(key: K) | ClearOp

  datatype State<K, V> = State(items: seq<Item<K, V>>, log: seq<Event<K, V>>)

  function Empty<K, V>(): State<K, V> { State([], []) }

  function Do<K(==), V>(s: State<K, V>, op: Op<K, V>, c: Config): State<K, V> {
    match op
    case SetOp(k, v) => State(Set(s.items, k, v, c), s.log + [Stored(k, v)])
    case GetOp(k) => State(Get(s.items, k).0, if Get(s.items, k).1.Some? then s.log + [Found(k)] else s.log)
    case DelOp(k) => State(Remove(s.items, k), if IndexOf(s.items, k) < |s.items| then s.log + [Dropped(k)] else s.log)
    case ClearOp => State([], s.log + [Emptied])
  }

  function Run<K(==), V>(s: State<K, V>, ops: seq<Op<K, V>>, c: Config): State<K, V> {
    if ops == [] then s else Do(Run(s, ops[..|ops| - 1], c), ops[|ops| - 1], c)
  }

  /** The most items an insertion leaves behind. */
  function Bound(c: Config): nat { c.maxSize + (if c.elasticity > 1 then c.elasticity - 1 else 0) }

  /** The cache is a prefix of the recency list, within bounds. */
  ghost predicate Inv<K(!new), V>(s: State<K, V>, c: Config) {
    && s.items <= Recency(s.log)
    && (c.maxSize > 0 ==> |s.items| <= Bound(c))
  }

  /** Nothing is missing that belongs to the `maxSize` most recent. */
  ghost predicate Full<K(!new), V>(s: State<K, V>, c: Config) {
    if c.maxSize == 0 then s.items == Recency(s.log)
    else |s.items| >= c.maxSize || s.items == Recency(s.log)
  }

  lemma RecencySnoc<K, V>(log: seq<Event<K, V>>, e: Event<K, V>)
    ensures Recency(log + [e]) == After(Recency(log), e)
  {
    assert (log + [e])[..|log + [e]| - 1] == log;
  }

  /** Looking a key up in a prefix finds what the whole list has, if it finds anything. */
  lemma {:induction false} PrefixIndex<K, V>(s: seq<Item<K, V>>, t: seq<Item<K, V>>, k: K)
    requires s <= t
    ensures IndexOf(s, k) < |s| ==> IndexOf(t, k) == IndexOf(s, k)
    ensures IndexOf(s, k) == |s| ==> IndexOf(t, k) >= |s|
    ensures IndexOf(s, k) < |s| ==> Remove(s, k) <= Remove(t, k)
    ensures IndexOf(s, k) == |s| ==> s <= Remove(t, k)
  {
    var i, j := IndexOf(s, k), IndexOf(t, k);
    assert forall n :: 0 <= n < |s| ==> s[n] == t[n];
    assert i < |s| ==> s[i] == t[i];
  }

  lemma SetKeeps<K(!new), V(!new)>(s: State<K, V>, k: K, v: V, c: Config)
    requires Inv(s, c)
    ensures Inv(Do(s, SetOp(k, v), c), c) && (Full(s, c) ==> Full(Do(s, SetOp(k, v), c), c))
  {
    hide IndexOf, Remove, Recency;
    var t := Recency(s.log);
    RecencySnoc(s.log, Stored(k, v));
    PrefixIndex(s.items, t, k);
    RemoveIs(s.items, k);
  }

  lemma GetKeeps<K(!new), V(!new)>(s: State<K, V>, k: K, c: Config)
    requires Inv(s, c)
    ensures Inv(Do(s, GetOp(k), c), c) && (Full(s, c) ==> Full(Do(s, GetOp(k), c), c))
  {
    hide IndexOf, Remove, Recency;
    RecencySnoc(s.log, Found(k));
    PrefixIndex(s.items, Recency(s.log), k);
    RemoveIs(s.items, k);
  }

  lemma DelKeeps<K(!new), V(!new)>(s: State<K, V>, k: K, c: Config)
    requires Inv(s, c)
    ensures Inv(Do(s, DelOp(k), c), c)
  {
    hide IndexOf, Remove, Recency;
    RecencySnoc(s.log, Dropped(k));
    PrefixIndex(s.items, Recency(s.log), k);
    RemoveIs(s.items, k);
  }

  lemma DoKeeps<K(!new), V(!new)>(s: State<K, V>, op: Op<K, V>, c: Config)
    requires Inv(s, c)
    ensures Inv(Do(s, op, c), c)
    ensures Full(s, c) && !op.DelOp? ==> Full(Do(s, op, c), c)
  {
    hide Full, Set, Get, Recency, Remove, IndexOf;
    match op
    case SetOp(k, v) => SetKeeps(s, k, v, c);
    case GetOp(k) => GetKeeps(s, k, c);
    case DelOp(k) => DelKeeps(s, k, c);
    case ClearOp => ClearKeeps(s, c);
  }

  lemma ClearKeeps<K(!new), V(!new)>(s: State<K, V>, c: Config)
    ensures Inv(Do(s, ClearOp, c), c) && Full(Do(s, ClearOp, c), c)
  {
    hide Recency;
    RecencySnoc(s.log, Emptied);
  }

  lemma EmptyKeeps<K(!new), V>(c: Config)
    ensures Inv(Empty<K, V>(), c) && Full(Empty<K, V>(), c)
  {}

  lemma RemoveIs<K, V>(s: seq<Item<K, V>>, k: K)
    ensures Remove(s, k) == if IndexOf(s, k) < |s| then Without(s, IndexOf(s, k)) else s
  {}

  lemma {:induction false} RunKeeps<K(!new), V(!new)>(s: State<K, V>, ops: seq<Op<K, V>>, c: Config)
    requires Inv(s, c)
    ensures Inv(Run(s, ops, c), c)
    ensures Full(s, c) && (forall i :: 0 <= i < |ops| ==> !ops[i].DelOp?) ==> Full(Run(s, ops, c), c)
  {
    hide Inv, Full, Do;
    if ops != [] {
      RunKeeps(s, ops[..|ops| - 1], c);
      DoKeeps(Run(s, ops[..|ops| - 1], c), ops[|ops| - 1], c);
    }
  }

  /**
   After any run from an empty cache: a get that finds its key returns the value last stored under
   it; what is cached was used after everything that is remembered but not cached; the size stays
   bounded.
   */
  lemma EveryRun<K(!new), V(!new)>(ops: seq<Op<K, V>>, c: Config)
    ensures var s := Run(Empty<K, V>(), ops, c);
      && (c.maxSize > 0 ==> |s.items| <= Bound(c))
      && (forall k :: Get(s.items, k).1.Some? ==> LastValue(s.log, k) == Get(s.items, k).1)
      && (forall k, l :: Get(s.items, k).1.Some? && Get(s.items, l).1.None? && LastValue(s.log, l).Some? ==>
            LastUse(s.log, k) > LastUse(s.log, l))
  {
    hide Inv, IndexOf, Run;
    var s := Run(Empty<K, V>(), ops, c);
    EmptyKeeps<K, V>(c);
    RunKeeps(Empty<K, V>(), ops, c);
    assert s.items <= Recency(s.log) && (c.maxSize > 0 ==> |s.items| <= Bound(c)) by { InvMeans(s, c); }
    forall k | Get(s.items, k).1.Some? ensures LastValue(s.log, k) == Get(s.items, k).1 {
      var i := IndexOf(s.items, k);
      assert s.items[i] == Item(k, s.items[i].value) && s.items[i] in Recency(s.log) by { assert s.items[i] == Recency(s.log)[i]; }
      RecencyValues(s.log, k, s.items[i].value);
    }
    forall k, l | Get(s.items, k).1.Some? && Get(s.items, l).1.None? && LastValue(s.log, l).Some?
      ensures LastUse(s.log, k) > LastUse(s.log, l)
    {
      RememberedIsOlder(s, k, l);
    }
  }

  lemma InvMeans<K(!new), V>(s: State<K, V>, c: Config)
    requires Inv(s, c)
    ensures s.items <= Recency(s.log) && (c.maxSize > 0 ==> |s.items| <= Bound(c))
  {}

  lemma RememberedIsOlder<K(!new), V(!new)>(s: State<K, V>, k: K, l: K)
    requires s.items <= Recency(s.log) && Get(s.items, k).1.Some? && Get(s.items, l).1.None? && LastValue(s.log, l).Some?
    ensures LastUse(s.log, k) > LastUse(s.log, l)
  {
    hide Recency, LastUse, LastValue;
    var r, i := Recency(s.log), IndexOf(s.items, k);
    var v := LastValue(s.log, l).value;
    RecencyValues(s.log, l, v);
    var j :| 0 <= j < |r| && r[j] == Item(l, v);
    assert forall n :: 0 <= n < |s.items| ==> s.items[n] == r[n];
    assert j >= |s.items|;
    assert s.items[i] == r[i];
    RecencyOrder(s.log, i, j);
  }

  /**
   Without deletions the cache forgets only for want of room: a key with a last value and fewer than
   `maxSize` keys used after it is still there; with no maximum nothing is ever forgotten.
   */
  lemma NothingForgotten<K(!new), V(!new)>(ops: seq<Op<K, V>>, c: Config, k: K)
    requires forall i :: 0 <= i < |ops| ==> !ops[i].DelOp?
    ensures var s := Run(Empty<K, V>(), ops, c);
      LastValue(s.log, k).Some? && (c.maxSize == 0 || IndexOf(Recency(s.log), k) < c.maxSize) ==> Get(s.items, k).1.Some?
  {
    hide Recency, Run, LastValue;
    var s := Run(Empty<K, V>(), ops, c);
    EmptyKeeps<K, V>(c);
    RunKeeps(Empty<K, V>(), ops, c);
    if LastValue(s.log, k).Some? {
      RecencyValues(s.log, k, LastValue(s.log, k).value);
      PrefixIndex(s.items, Recency(s.log), k);
    }
  }

  /**
   With deletions too: whenever an insertion evicts, it leaves exactly the `maxSize` keys used last of
   all that are remembered, each with its last value.
   */
  lemma EvictionLeavesRecent<K(!new), V(!new)>(ops: seq<Op<K, V>>, k: K, v: V, c: Config)
    ensures var s := Run(Empty<K, V>(), ops, c);
      var t := Do(s, SetOp(k, v), c);
      |t.items| <= |s.items| && IndexOf(s.items, k) == |s.items| ==>
        |t.items| == c.maxSize <= |Recency(t.log)| && t.items == Recency(t.log)[..c.maxSize]
  {
    hide Recency, Run, IndexOf;
    EmptyKeeps<K, V>(c);
    RunKeeps(Empty<K, V>(), ops, c);
    DoKeeps(Run(Empty<K, V>(), ops, c), SetOp(k, v), c);
  }

  /** Storing under a key that is there replaces its value, brings it to the front and keeps all other items, in order. */
  lemma SetPresent<K(!new), V>(s: seq<Item<K, V>>, k: K, v: V, c: Config)
    requires Distinct(s) && exists i :: 0 <= i < |s| && s[i].key == k
    ensures var t := Set(s, k, v, c);
      && |t| == |s| && t[0] == Item(k, v)
      && (forall i, j :: 0 <= i < j < |s| && s[i].key != k && s[j].key != k ==>
            exists i', j' :: 0 < i' < j' < |t| && t[i'] == s[i] && t[j'] == s[j])
      && (forall x :: x in s && x.key != k ==> x in t)
  {
    hide IndexOf;
    var t, p := Set(s, k, v, c), IndexOf(s, k);
    forall i, j | 0 <= i < j < |s| && s[i].key != k && s[j].key != k
      ensures exists i', j' :: 0 < i' < j' < |t| && t[i'] == s[i] && t[j'] == s[j]
    {
      var i', j' := if i < p then i + 1 else i, if j < p then j + 1 else j;
      assert t[i'] == s[i] && t[j'] == s[j];
    }
    WithoutOne(s, p);
    forall x | x in s && x.key != k ensures x in t {
      assert x in Without(s, p);
    }
  }

  /** An insertion into a cache of any size leaves at most the bound, and evicts down to exactly `maxSize`. */
  lemma InsertBound<K, V>(s: seq<Item<K, V>>, k: K, v: V, c: Config)
    requires IndexOf(s, k) == |s|
    ensures var t, n := Set(s, k, v, c), [Item(k, v)] + s;
      && t <= n && (c.maxSize > 0 ==> |t| <= Bound(c))
      && (|t| < |n| <==> c.maxSize > 0 && |n| > c.maxSize && |n| >= c.maxSize + c.elasticity)
      && (|t| < |n| ==> |t| == c.maxSize)
  {}
}
