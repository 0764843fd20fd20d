/**
 The cache object of Helens/ds/lru_cache.h: a linked list of nodes and a hash map from keys to
 list nodes. A list iterator is a node identity that survives splices.
 */
module LruCacheObject {
  import opened Options
  import opened Lru

  /** The items in list order. */
  function Items<K, V>(list: seq<nat>, nodes: map<nat, Item<K, V>>): (r: seq<Item<K, V>>)
    requires forall n :: n in list ==> n in nodes
    ensures |r| == |list| && forall i :: 0 <= i < |r| ==> r[i] == nodes[list[i]]
  {
    seq(|list|, i requires 0 <= i < |list| => nodes[list[i]])
  }

  ghost predicate Once(list: seq<nat>) {
    forall i, j :: 0 <= i < j < |list| ==> list[i] != list[j]
  }

  /** The map points from every key to the node that holds it, and to nothing else. */
  ghost predicate Rep<K(!new), V>(list: seq<nat>, nodes: map<nat, Item<K, V>>, cache: map<K, nat>) {
    && Once(list)
    && (forall n :: n in list ==> n in nodes)
    && (forall n :: n in list ==> n in nodes && nodes[n].key in cache && cache[nodes[n].key] == n)
    && (forall k :: k in cache ==> cache[k] in list && cache[k] in nodes && nodes[cache[k]].key == k)
  }

  /** The two containers have the same size. */
  lemma {:induction false} SameSize<K(!new), V>(list: seq<nat>, nodes: map<nat, Item<K, V>>, cache: map<K, nat>)
    requires Rep(list, nodes, cache)
    ensures |cache| == |list|
  {
    if list == [] {
      assert forall k :: k !in cache;
      assert |cache.Keys| == 0;
    } else {
      var last := nodes[list[|list| - 1]].key;
      RepErase(list, nodes, cache, |list| - 1);
      assert Without(list, |list| - 1) == list[..|list| - 1];
      SameSize(list[..|list| - 1], nodes, cache - {last});
      assert (cache - {last}).Keys == cache.Keys - {last};
    }
  }

  lemma WithoutNode(list: seq<nat>, p: nat)
    requires Once(list) && p < |list|
    ensures Once(Without(list, p)) && forall n :: n in Without(list, p) <==> n in list && n != list[p]
  {
    var r := Without(list, p);
    forall n ensures n in r <==> n in list && n != list[p] {
      if n in list && n != list[p] {
        var i :| 0 <= i < |list| && list[i] == n;
        assert r[if i < p then i else i - 1] == n;
      }
      if n in r {
        var i :| 0 <= i < |r| && r[i] == n;
        assert list[if i < p then i else i + 1] == n;
      }
    }
  }

  lemma WithoutItem<K, V>(list: seq<nat>, nodes: map<nat, Item<K, V>>, p: nat)
    requires p < |list| && (forall n :: n in list ==> n in nodes) && forall n :: n in Without(list, p) ==> n in nodes
    ensures Items(Without(list, p), nodes) == Without(Items(list, nodes), p)
  {}

  /** Taking a node out of the list and its key out of the map. */
  lemma RepErase<K(!new), V>(list: seq<nat>, nodes: map<nat, Item<K, V>>, cache: map<K, nat>, p: nat)
    requires Rep(list, nodes, cache) && p < |list|
    ensures Rep(Without(list, p), nodes, cache - {nodes[list[p]].key})
    ensures Items(Without(list, p), nodes) == Without(Items(list, nodes), p)
  {
    hide Once;
    WithoutNode(list, p);
    RepDrop(list, nodes, cache, list[p], Without(list, p));
    WithoutItem(list, nodes, p);
  }

  lemma RepDrop<K(!new), V>(list: seq<nat>, nodes: map<nat, Item<K, V>>, cache: map<K, nat>, n: nat, w: seq<nat>)
    requires Rep(list, nodes, cache) && n in list && Once(w) && forall m :: m in w <==> m in list && m != n
    ensures Rep(w, nodes, cache - {nodes[n].key})
  {
    hide Once;
  }

  lemma RepReorder<K(!new), V>(list: seq<nat>, nodes: map<nat, Item<K, V>>, cache: map<K, nat>, n: nat, v: V, r: seq<nat>)
    requires Rep(list, nodes, cache) && n in list && Once(r) && forall m :: m in r <==> m in list
    ensures Rep(r, nodes[n := Item(nodes[n].key, v)], cache)
  {
    hide Once;
  }

  /** Putting a node of the list in front, perhaps with a new value. */
  lemma RepSplice<K(!new), V>(list: seq<nat>, nodes: map<nat, Item<K, V>>, cache: map<K, nat>, p: nat, v: V)
    requires Rep(list, nodes, cache) && p < |list|
    ensures var n, nodes' := list[p], nodes[list[p] := Item(nodes[list[p]].key, v)];
      && Rep([n] + Without(list, p), nodes', cache)
      && Items([n] + Without(list, p), nodes') == [nodes'[n]] + Without(Items(list, nodes), p)
  {
    hide Once, Items;
    var n := list[p];
    var w, nodes' := Without(list, p), nodes[n := Item(nodes[n].key, v)];
    WithoutNode(list, p);
    OnceFront(n, w);
    RepReorder(list, nodes, cache, n, v, [n] + w);
    ItemsCons(n, w, nodes');
    SameItems(w, nodes, nodes');
    WithoutItem(list, nodes, p);
  }

  lemma OnceFront(n: nat, list: seq<nat>)
    requires Once(list) && n !in list
    ensures Once([n] + list)
  {}

  lemma ItemsCons<K, V>(n: nat, list: seq<nat>, nodes: map<nat, Item<K, V>>)
    requires forall m :: m in [n] + list ==> m in nodes
    ensures Items([n] + list, nodes) == [nodes[n]] + Items(list, nodes)
  {}

  lemma SameItems<K, V>(list: seq<nat>, nodes: map<nat, Item<K, V>>, nodes': map<nat, Item<K, V>>)
    requires forall n :: n in list ==> n in nodes && n in nodes' && nodes[n] == nodes'[n]
    ensures Items(list, nodes) == Items(list, nodes')
  {}

  /** A new node in front for a new key. */
  lemma RepFront<K(!new), V>(list: seq<nat>, nodes: map<nat, Item<K, V>>, cache: map<K, nat>, n: nat, item: Item<K, V>)
    requires Rep(list, nodes, cache) && n !in nodes && item.key !in cache
    ensures Rep([n] + list, nodes[n := item], cache[item.key := n])
    ensures Items([n] + list, nodes[n := item]) == [item] + Items(list, nodes)
  {
    hide Once;
    OnceFront(n, list);
    ItemsCons(n, list, nodes[n := item]);
    SameItems(list, nodes, nodes[n := item]);
  }

  /** The map finds what a search of the list finds. */
  lemma Located<K(!new), V>(list: seq<nat>, nodes: map<nat, Item<K, V>>, cache: map<K, nat>, k: K)
    requires Rep(list, nodes, cache)
    ensures var i := IndexOf(Items(list, nodes), k);
      && (k in cache <==> i < |list|) && (i < |list| ==> cache[k] == list[i])
  {
    hide IndexOf;
    var items := Items(list, nodes);
    var i := IndexOf(items, k);
    if k in cache {
      var j :| 0 <= j < |list| && list[j] == cache[k];
      assert items[j].key == k;
    }
    if i < |list| { assert items[i].key == k; }
  }

  class LruCache<K(!new, ==), V> {
    var list: seq<nat>
    var nodes: map<nat, Item<K, V>>
    var cache: map<K, nat>
    var unused: nat
    var maxSize: nat
    var elasticity: nat

    ghost predicate Valid()
      reads this
    {
      Rep(list, nodes, cache) && forall n :: n in nodes ==> n < unused
    }

    ghost function Contents(): seq<Item<K, V>>
      reads this
      requires Valid()
    {
      Items(list, nodes)
    }

    ghost function Limits(): Config
      reads this`maxSize, this`elasticity
    {
      Config(maxSize, elasticity)
    }

    constructor (maxSize: nat, elasticity: nat)
      ensures Valid() && Contents() == [] && Limits() == Config(maxSize, elasticity)
    {
      list, nodes, cache, unused := [], map[], map[], 0;
      this.maxSize, this.elasticity := maxSize, elasticity;
    }

    /** Move the node a map entry points to in front. */
    method Splice(n: nat, v: V) returns (ghost p: nat)
      requires Valid() && n in list && n in nodes
      modifies this`list, this`nodes
      ensures Valid()
      ensures 0 <= p < |old(list)| && old(list)[p] == n
      ensures Contents() == [Item(old(nodes[n].key), v)] + Without(old(Contents()), p)
    {
      hide Rep;
      var at := Position(n);
      p := at;
      RepSplice(list, nodes, cache, at, v);
      nodes := nodes[n := Item(nodes[n].key, v)];
      list := [n] + Without(list, at);
    }

    /** Where a node is linked in; an iterator knows this without searching. */
    method Position(n: nat) returns (p: nat)
      requires n in list
      ensures p < |list| && list[p] == n
    {
      p := 0;
      while list[p] != n
        invariant p < |list| && n !in list[..p]
        decreases |list| - p
      {
        assert list[..p + 1] == list[..p] + [list[p]];
        assert list == list[..p + 1] + list[p + 1..];
        p := p + 1;
      }
    }

    /** `evicted`: what the prune callback was given, in order. */
    method Set(k: K, v: V) returns (evicted: seq<Item<K, V>>)
      requires Valid()
      modifies this`list, this`nodes, this`cache, this`unused
      ensures Valid() && Contents() == Lru.Set(old(Contents()), k, v, Limits())
      ensures evicted == if old(k in cache) then [] else Reversed(([Item(k, v)] + old(Contents()))[|Contents()|..])
    {
      hide Rep, IndexOf;
      Located(list, nodes, cache, k);
      if k in cache {
        CacheLeads(list, nodes, cache, k);
        ghost var p := Splice(cache[k], v);
        UniquePlace(old(list), old(nodes), cache, k);
        return [];
      }
      RepFront(list, nodes, cache, unused, Item(k, v));
      nodes := nodes[unused := Item(k, v)];
      list := [unused] + list;
      cache := cache[k := unused];
      unused := unused + 1;
      evicted := Prune();
    }

    method Get(k: K) returns (r: Option<V>)
      requires Valid()
      modifies this`list, this`nodes
      ensures Valid() && (Contents(), r) == Lru.Get(old(Contents()), k)
    {
      hide Rep, IndexOf;
      Located(list, nodes, cache, k);
      if k !in cache {
        return None;
      }
      CacheLeads(list, nodes, cache, k);
      UniquePlace(list, nodes, cache, k);
      r := Some(nodes[cache[k]].value);
      ghost var p := Splice(cache[k], nodes[cache[k]].value);
    }

    method Del(k: K) returns (ok: bool)
      requires Valid()
      modifies this`list, this`cache
      ensures Valid() && Contents() == Remove(old(Contents()), k)
      ensures ok <==> old(k in cache)
      ensures k !in cache
    {
      hide Rep, IndexOf;
      Located(list, nodes, cache, k);
      if k !in cache {
        return false;
      }
      CacheLeads(list, nodes, cache, k);
      UniquePlace(list, nodes, cache, k);
      var p := Position(cache[k]);
      RepErase(list, nodes, cache, p);
      list := Without(list, p);
      cache := cache - {k};
      return true;
    }

    method Size() returns (n: nat)
      requires Valid()
      ensures n == |Contents()|
    {
      SameSize(list, nodes, cache);
      n := |cache|;
    }

    method Clear()
      modifies this`list, this`nodes, this`cache
      ensures Valid() && Contents() == []
    {
      cache, list, nodes := map[], [], map[];
    }

    /** Unlink the oldest node and forget its key. */
    method PopBack() returns (back: Item<K, V>)
      requires Valid() && list != []
      modifies this`list, this`cache
      ensures Valid() && |list| == |old(list)| - 1 && old(Contents()) == Contents() + [back]
    {
      hide Rep;
      LastNode(list, nodes, cache);
      RepErase(list, nodes, cache, |list| - 1);
      back := nodes[list[|list| - 1]];
      cache := cache - {back.key};
      list := list[..|list| - 1];
    }

    /** Evicts from the back, oldest first, down to the maximum. */
    method Prune() returns (evicted: seq<Item<K, V>>)
      requires Valid()
      modifies this`list, this`cache
      ensures Valid() && Contents() == Pruned(old(Contents()), Limits())
      ensures evicted == Reversed(old(Contents())[|Contents()|..])
    {
      hide Rep;
      SameSize(list, nodes, cache);
      evicted := [];
      if maxSize == 0 || |cache| < maxSize + elasticity {
        return;
      }
      ghost var start := Contents();
      while |cache| > maxSize
        invariant Valid() && |cache| == |list| <= |start|
        invariant |list| == |start| || |list| >= maxSize
        invariant Contents() == start[..|list|] && evicted == Reversed(start[|list|..])
        decreases |cache|
      {
        ghost var last := |list| - 1;
        assert start[..|list|][..last] == start[..last] && start[last..] == [start[last]] + start[last + 1..];
        ReversedCons(start[last], start[last + 1..]);
        var back := PopBack();
        evicted := evicted + [back];
        SameSize(list, nodes, cache);
      }
    }
  }

  function Reversed<T>(s: seq<T>): (r: seq<T>)
    ensures |r| == |s| && forall i :: 0 <= i < |r| ==> r[i] == s[|s| - 1 - i]
  {
    seq(|s|, i requires 0 <= i < |s| => s[|s| - 1 - i])
  }

  lemma ReversedCons<T>(x: T, s: seq<T>)
    ensures Reversed([x] + s) == Reversed(s) + [x]
  {}

  lemma LastNode<K(!new), V>(list: seq<nat>, nodes: map<nat, Item<K, V>>, cache: map<K, nat>)
    requires Rep(list, nodes, cache) && list != []
    ensures var n := |list| - 1;
      list[n] in nodes && nodes[list[n]] == Items(list, nodes)[n] && Without(list, n) == list[..n] &&
      Without(Items(list, nodes), n) == Items(list, nodes)[..n]
  {}

  lemma CacheLeads<K(!new), V>(list: seq<nat>, nodes: map<nat, Item<K, V>>, cache: map<K, nat>, k: K)
    requires Rep(list, nodes, cache) && k in cache
    ensures cache[k] in list && cache[k] in nodes && nodes[cache[k]].key == k
  {}

  /** A node is linked in once, where a search for its key finds it. */
  lemma UniquePlace<K(!new), V>(list: seq<nat>, nodes: map<nat, Item<K, V>>, cache: map<K, nat>, k: K)
    requires Rep(list, nodes, cache) && k in cache
    ensures forall p :: 0 <= p < |list| && list[p] == cache[k] ==> IndexOf(Items(list, nodes), k) == p
    ensures var i := IndexOf(Items(list, nodes), k); i < |list| && Items(list, nodes)[i] == nodes[cache[k]]
  {
    Located(list, nodes, cache, k);
  }
}
