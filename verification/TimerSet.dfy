/**
 Timers and the ordered set that holds them (Helens/timer.h, Helens/timer.cc), on values. A timer
 is known by its address; the set is ordered by deadline, then by address.
 */
module TimerSet {
  import opened Arith
  import opened Options

  datatype Timer = Timer(recurring: bool, ms: nat, next: nat, cb: Option<nat>)

  type Timers = map<nat, Timer>

  /** uint64_t addition. */
  function Add64(a: nat, b: nat): nat { (a + b) % U64_LIMIT }

  function Sub64(a: nat, b: nat): nat { (a - b) % U64_LIMIT }

  /** The comparator, on (deadline, address) pairs. */
  predicate KeyLess(n1: nat, a1: nat, n2: nat, a2: nat) { n1 < n2 || (n1 == n2 && a1 < a2) }

  predicate Less(ts: Timers, a: nat, b: nat)
    requires a in ts && b in ts
  {
    KeyLess(ts[a].next, a, ts[b].next, b)
  }

  ghost predicate Known(ts: Timers, order: seq<nat>) {
    forall i :: 0 <= i < |order| ==> order[i] in ts
  }

  ghost predicate Sorted(ts: Timers, order: seq<nat>)
    requires Known(ts, order)
  {
    forall i, j :: 0 <= i < j < |order| ==> Less(ts, order[i], order[j])
  }

  /** The order of the set: by deadline, and between equal deadlines by address. */
  lemma SortedMeans(ts: Timers, order: seq<nat>)
    requires Known(ts, order)
    ensures Sorted(ts, order) <==>
      forall i, j :: 0 <= i < j < |order| ==>
        ts[order[i]].next < ts[order[j]].next || (ts[order[i]].next == ts[order[j]].next && order[i] < order[j])
  {
    if Sorted(ts, order) {
      forall i, j | 0 <= i < j < |order|
        ensures ts[order[i]].next < ts[order[j]].next || (ts[order[i]].next == ts[order[j]].next && order[i] < order[j])
      {
        assert Less(ts, order[i], order[j]);
      }
    }
  }

  /** lower_bound: how many elements come before the key. */
  function LowerBound(ts: Timers, order: seq<nat>, next: nat, addr: nat): (p: nat)
    requires Known(ts, order)
    ensures p <= |order|
    ensures forall i :: 0 <= i < p ==> KeyLess(ts[order[i]].next, order[i], next, addr)
    ensures p < |order| ==> !KeyLess(ts[order[p]].next, order[p], next, addr)
  {
    if order == [] || !KeyLess(ts[order[0]].next, order[0], next, addr) then 0
    else 1 + LowerBound(ts, order[1..], next, addr)
  }

  function Insert(ts: Timers, order: seq<nat>, a: nat): seq<nat>
    requires Known(ts, order) && a in ts
  {
    var p := LowerBound(ts, order, ts[a].next, a);
    order[..p] + [a] + order[p..]
  }

  /** find: the position of `a`, or the end. */
  function Find(ts: Timers, order: seq<nat>, a: nat): (p: nat)
    requires Known(ts, order) && a in ts
    ensures p <= |order|
  {
    var p := LowerBound(ts, order, ts[a].next, a);
    if p < |order| && !KeyLess(ts[a].next, a, ts[order[p]].next, order[p]) then p else |order|
  }

  function Erase(order: seq<nat>, p: nat): seq<nat>
    requires p < |order|
  {
    order[..p] + order[p + 1..]
  }

  lemma InsertMembers(ts: Timers, order: seq<nat>, a: nat)
    requires Known(ts, order) && a in ts
    ensures forall b :: b in Insert(ts, order, a) <==> b in order || b == a
  {
    hide LowerBound;
    var p := LowerBound(ts, order, ts[a].next, a);
    assert order == order[..p] + order[p..];
  }

  lemma InsertSorted(ts: Timers, order: seq<nat>, a: nat)
    requires Known(ts, order) && a in ts && Sorted(ts, order) && a !in order
    ensures Known(ts, Insert(ts, order, a)) && Sorted(ts, Insert(ts, order, a))
    ensures forall b :: b in Insert(ts, order, a) <==> b in order || b == a
  {
    hide LowerBound;
    InsertMembers(ts, order, a);
    var p := LowerBound(ts, order, ts[a].next, a);
    var r := Insert(ts, order, a);
    assert forall i :: 0 <= i < |r| ==> r[i] == if i < p then order[i] else if i == p then a else order[i - 1];
    forall i, j | 0 <= i < j < |r| ensures Less(ts, r[i], r[j]) {
      if i < p && j != p {
        assert Less(ts, order[i], order[if j < p then j else j - 1]);
      } else if i == p {
        AfterKey(ts, order, p, a, j - 1);
      } else if i > p {
        assert Less(ts, order[i - 1], order[j - 1]);
      }
    }
  }

  /** Everything from the lower bound on comes after the key. */
  lemma AfterKey(ts: Timers, order: seq<nat>, p: nat, a: nat, j: nat)
    requires Known(ts, order) && a in ts && Sorted(ts, order) && a !in order
    requires p <= j < |order| && !KeyLess(ts[order[p]].next, order[p], ts[a].next, a)
    ensures Less(ts, a, order[j])
  {
    assert order[p] != a && order[j] != a;
    if p < j { assert Less(ts, order[p], order[j]); }
  }

  /** In a set sorted under the current keys, find finds. */
  lemma FindExact(ts: Timers, order: seq<nat>, a: nat)
    requires Known(ts, order) && a in ts && Sorted(ts, order)
    ensures a in order ==> Find(ts, order, a) < |order| && order[Find(ts, order, a)] == a
    ensures a !in order ==> Find(ts, order, a) == |order|
  {
    var p := LowerBound(ts, order, ts[a].next, a);
    if a in order {
      var i :| 0 <= i < |order| && order[i] == a;
      assert p < i ==> Less(ts, order[p], order[i]);
    }
  }

  lemma EraseSorted(ts: Timers, order: seq<nat>, p: nat)
    requires Known(ts, order) && Sorted(ts, order) && p < |order|
    ensures Known(ts, Erase(order, p)) && Sorted(ts, Erase(order, p))
    ensures forall b :: b in Erase(order, p) <==> b in order && b != order[p]
  {
    hide KeyLess;
    var r := Erase(order, p);
    assert forall i :: 0 <= i < |r| ==> r[i] == if i < p then order[i] else order[i + 1];
    forall i, j | 0 <= i < j < |r| ensures Less(ts, r[i], r[j]) {
      assert Less(ts, order[if i < p then i else i + 1], order[if j < p then j else j + 1]);
    }
    ErasedMembers(ts, order, p);
  }

  lemma Apart(ts: Timers, order: seq<nat>, i: nat, j: nat)
    requires Known(ts, order) && Sorted(ts, order) && i < j < |order|
    ensures order[i] != order[j]
  {
    assert Less(ts, order[i], order[j]);
  }

  lemma ErasedMembers(ts: Timers, order: seq<nat>, p: nat)
    requires Known(ts, order) && Sorted(ts, order) && p < |order|
    ensures forall b :: b in Erase(order, p) <==> b in order && b != order[p]
  {
    hide KeyLess;
    var r := Erase(order, p);
    assert forall i :: 0 <= i < |r| ==> r[i] == if i < p then order[i] else order[i + 1];
    forall i | 0 <= i < |order| && i != p ensures order[i] != order[p] {
      if i < p { Apart(ts, order, i, p); } else { Apart(ts, order, p, i); }
    }
    forall b ensures b in r <==> b in order && b != order[p] {
      if b in order && b != order[p] {
        var i :| 0 <= i < |order| && order[i] == b;
        assert r[if i < p then i else i - 1] == b;
      }
      if b in r {
        var i :| 0 <= i < |r| && r[i] == b;
        assert order[if i < p then i else i + 1] == b;
      }
    }
  }

  /** Keys of timers outside the set may change freely. */
  lemma SortedElsewhere(ts: Timers, ts': Timers, order: seq<nat>)
    requires Known(ts, order) && Sorted(ts, order)
    requires forall i :: 0 <= i < |order| ==> order[i] in ts' && ts'[order[i]].next == ts[order[i]].next
    ensures Known(ts', order) && Sorted(ts', order)
  {
    forall i, j | 0 <= i < j < |order| ensures Less(ts', order[i], order[j]) {
      assert Less(ts, order[i], order[j]);
    }
  }

  /** The first of an ordered set has the smallest deadline. */
  lemma FrontIsLeast(ts: Timers, order: seq<nat>)
    requires Known(ts, order) && Sorted(ts, order) && order != []
    ensures forall a :: a in order ==> a in ts && ts[order[0]].next <= ts[a].next
  {
    forall a | a in order ensures a in ts && ts[order[0]].next <= ts[a].next {
      var i :| 0 <= i < |order| && order[i] == a;
      if i > 0 { assert Less(ts, order[0], order[i]); }
    }
  }

  // ----- the due prefix -----

  /** The iterator of listExpiredCb: lower_bound of now, then on over equal deadlines. */
  function DueEnd(ts: Timers, order: seq<nat>, p: nat, now: nat): (k: nat)
    requires Known(ts, order) && p <= |order|
    ensures p <= k <= |order|
    decreases |order| - p
  {
    if p < |order| && ts[order[p]].next == now then DueEnd(ts, order, p + 1, now) else p
  }

  /** Wherever the probe's address falls, the prefix found is exactly the timers due at `now`. */
  lemma {:induction false} DueEndExact(ts: Timers, order: seq<nat>, p: nat, now: nat)
    requires Known(ts, order) && Sorted(ts, order) && p <= |order|
    requires forall i :: 0 <= i < p ==> ts[order[i]].next <= now
    requires forall i :: p <= i < |order| ==> ts[order[i]].next >= now
    ensures var k := DueEnd(ts, order, p, now);
      && (forall i :: 0 <= i < k ==> ts[order[i]].next <= now)
      && (forall i :: k <= i < |order| ==> ts[order[i]].next > now)
    decreases |order| - p
  {
    if p < |order| && ts[order[p]].next == now {
      DueEndExact(ts, order, p + 1, now);
    } else if p < |order| {
      forall i | p < i < |order| ensures ts[order[i]].next > now { assert Less(ts, order[p], order[i]); }
    }
  }

  lemma DuePrefix(ts: Timers, order: seq<nat>, now: nat, probe: nat)
    requires Known(ts, order) && Sorted(ts, order)
    ensures var k := DueEnd(ts, order, LowerBound(ts, order, now, probe), now);
      && (forall i :: 0 <= i < k ==> ts[order[i]].next <= now)
      && (forall i :: k <= i < |order| ==> ts[order[i]].next > now)
  {
    var p := LowerBound(ts, order, now, probe);
    forall i | p <= i < |order| ensures ts[order[i]].next >= now {
      if i > p { assert Less(ts, order[p], order[i]); }
    }
    DueEndExact(ts, order, p, now);
  }
}
