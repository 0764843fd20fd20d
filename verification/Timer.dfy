/** The operations of the timer manager (Helens/timer.cc), and what each keeps. */
module Timer {
  import opened Arith
  import opened Options
  import opened TimerSet

  datatype Manager = Manager(timers: Timers, order: seq<nat>, tickled: bool, previous: nat)

  const HOUR := 3600000

  /** A timer is in the set iff it still has its callback; the set is ordered under the current keys. */
  ghost predicate Inv(m: Manager) {
    && Known(m.timers, m.order) && Sorted(m.timers, m.order)
    && forall a :: a in m.timers ==> (m.timers[a].cb.Some? <==> a in m.order)
  }

  // ----- the operations -----

  /** The private addTimer: insert, and tell whether the new front has to be announced. */
  function InsertTimer(m: Manager, a: nat): (Manager, bool)
    requires Known(m.timers, m.order) && a in m.timers
  {
    var order := Insert(m.timers, m.order, a);
    var front := order[0] == a && !m.tickled;
    (m.(order := order, tickled := m.tickled || front), front)
  }

  function AddTimer(m: Manager, a: nat, ms: nat, cb: nat, recurring: bool, now: nat): (Manager, bool)
    requires Known(m.timers, m.order)
  {
    InsertTimer(m.(timers := m.timers[a := Timer(recurring, ms, Add64(now, ms), Some(cb))]), a)
  }

  function Cancel(m: Manager, a: nat): (Manager, bool)
    requires Known(m.timers, m.order) && a in m.timers
  {
    if m.timers[a].cb.None? then (m, false)
    else
      var ts := m.timers[a := m.timers[a].(cb := None)];
      var p := Find(ts, m.order, a);
      (m.(timers := ts, order := if p < |m.order| then Erase(m.order, p) else m.order), true)
  }

  function Refresh(m: Manager, a: nat, now: nat): (Manager, bool)
    requires Known(m.timers, m.order) && a in m.timers
  {
    var p := Find(m.timers, m.order, a);
    if m.timers[a].cb.None? || p == |m.order| then (m, false)
    else
      var ts := m.timers[a := m.timers[a].(next := Add64(now, m.timers[a].ms))];
      (m.(timers := ts, order := Insert(ts, Erase(m.order, p), a)), true)
  }

  /** Result: the manager, whether it worked, and whether a new front has to be announced. */
  function Reset(m: Manager, a: nat, ms: nat, fromNow: bool, now: nat): (Manager, bool, bool)
    requires Known(m.timers, m.order) && a in m.timers
  {
    var timer := m.timers[a];
    var p := Find(m.timers, m.order, a);
    if ms == timer.ms && !fromNow then (m, true, false)
    else if timer.cb.None? || p == |m.order| then (m, false, false)
    else
      var start := if fromNow then now else Sub64(timer.next, timer.ms);
      var ts := m.timers[a := timer.(ms := ms, next := Add64(start, ms))];
      var (m', front) := InsertTimer(m.(timers := ts, order := Erase(m.order, p)), a);
      (m', true, front)
  }

  /** The delay until the first deadline; all ones when there is none. */
  function GetNextTimer(m: Manager, now: nat): (Manager, nat)
    requires Known(m.timers, m.order)
  {
    var m' := m.(tickled := false);
    if m.order == [] then (m', U64_LIMIT - 1)
    else
      var next := m.timers[m.order[0]].next;
      (m', if now >= next then 0 else next - now)
  }

  predicate Rollover(previous: nat, now: nat) { now < previous && now < Sub64(previous, HOUR) }

  /** The loop over the expired timers: collect, re-insert the recurring, retire the others. */
  function Expire(ts: Timers, rest: seq<nat>, expired: seq<nat>, now: nat): (Timers, seq<nat>, seq<Option<nat>>)
    requires Known(ts, rest) && Known(ts, expired)
    decreases |expired|
  {
    if expired == [] then (ts, rest, [])
    else
      var a := expired[0];
      var timer := ts[a];
      var ts' := ts[a := if timer.recurring then timer.(next := Add64(now, timer.ms)) else timer.(cb := None)];
      var rest' := if timer.recurring then Insert(ts', rest, a) else rest;
      assert Known(ts', rest') by { if timer.recurring { InsertMembers(ts', rest, a); } }
      var (ts'', rest'', cbs) := Expire(ts', rest', expired[1..], now);
      (ts'', rest'', [timer.cb] + cbs)
  }

  /** `probe` is where the search key happens to be allocated. */
  function ListExpired(m: Manager, now: nat, probe: nat): (Manager, seq<Option<nat>>)
    requires Known(m.timers, m.order)
  {
    if m.order == [] then (m, [])
    else
      var rollover := Rollover(m.previous, now);
      if !rollover && m.timers[m.order[0]].next > now then (m.(previous := now), [])
      else
        var k := if rollover then |m.order| else DueEnd(m.timers, m.order, LowerBound(m.timers, m.order, now, probe), now);
        var (ts, order, cbs) := Expire(m.timers, m.order[k..], m.order[..k], now);
        (Manager(ts, order, m.tickled, now), cbs)
  }

  // ----- what they keep -----

  /** The new timer is what was asked for, due `ms` after `now`; the others are as they were. */
  lemma AddTimerKeeps(m: Manager, a: nat, ms: nat, cb: nat, recurring: bool, now: nat)
    requires Inv(m) && a !in m.timers
    ensures var (m', front) := AddTimer(m, a, ms, cb, recurring, now);
      && Inv(m') && m'.timers.Keys == m.timers.Keys + {a} && m'.previous == m.previous
      && m'.timers[a].ms == ms && m'.timers[a].recurring == recurring && m'.timers[a].cb == Some(cb)
      && (now + ms < U64_LIMIT ==> m'.timers[a].next == now + ms)
      && (exists wraps: nat :: now + ms == wraps * U64_LIMIT + m'.timers[a].next) && m'.timers[a].next < U64_LIMIT
      && (forall b :: b in m.timers ==> m'.timers[b] == m.timers[b])
      && m'.tickled == (m.tickled || front)
      && (forall b :: b in m'.order <==> b in m.order || b == a)
      && m'.order != [] && (front <==> m'.order[0] == a && !m.tickled)
  {
    hide Sorted, Insert;
    var ts := m.timers[a := Timer(recurring, ms, Add64(now, ms), Some(cb))];
    SortedElsewhere(m.timers, ts, m.order);
    InsertSorted(ts, m.order, a);
    assert now + ms == ((now + ms) / U64_LIMIT) * U64_LIMIT + Add64(now, ms);
  }

  /** cancel never erases a missing entry: it succeeds iff the timer is in the set, and takes it out. */
  lemma CancelKeeps(m: Manager, a: nat)
    requires Inv(m) && a in m.timers
    ensures var (m', ok) := Cancel(m, a);
      && Inv(m') && (ok <==> a in m.order)
      && (ok ==> m'.timers == m.timers[a := m.timers[a].(cb := None)])
      && (forall b :: b in m'.order <==> b in m.order && b != a)
      && (!ok ==> m' == m) && m'.tickled == m.tickled && m'.previous == m.previous
  {
    if a in m.order {
      var ts := m.timers[a := m.timers[a].(cb := None)];
      SortedElsewhere(m.timers, ts, m.order);
      FindExact(ts, m.order, a);
      EraseSorted(ts, m.order, Find(ts, m.order, a));
    }
  }

  lemma RefreshKeeps(m: Manager, a: nat, now: nat)
    requires Inv(m) && a in m.timers
    ensures var (m', ok) := Refresh(m, a, now);
      && Inv(m') && (ok <==> a in m.order) && (!ok ==> m' == m)
      && (ok ==> m'.timers == m.timers[a := m.timers[a].(next := Add64(now, m.timers[a].ms))])
      && (forall b :: b in m'.order <==> b in m.order)
      && m'.tickled == m.tickled && m'.previous == m.previous
  {
    FindExact(m.timers, m.order, a);
    if a in m.order {
      var p := Find(m.timers, m.order, a);
      EraseSorted(m.timers, m.order, p);
      Reinsert(m.timers, m.timers[a := m.timers[a].(next := Add64(now, m.timers[a].ms))], Erase(m.order, p), a);
    }
  }

  /** Putting a timer back whose key changed while it was out of the set. */
  lemma Reinsert(ts: Timers, ts': Timers, rest: seq<nat>, a: nat)
    requires Known(ts, rest) && Sorted(ts, rest) && a !in rest && a in ts
    requires ts'.Keys == ts.Keys && forall b :: b in ts && b != a ==> ts'[b] == ts[b]
    ensures Known(ts', rest) && Known(ts', Insert(ts', rest, a)) && Sorted(ts', Insert(ts', rest, a))
    ensures forall b :: b in Insert(ts', rest, a) <==> b in rest || b == a
  {
    SortedElsewhere(ts, ts', rest);
    InsertSorted(ts', rest, a);
  }

  lemma ResetKeeps(m: Manager, a: nat, ms: nat, fromNow: bool, now: nat)
    requires Inv(m) && a in m.timers
    ensures var (m', ok, front) := Reset(m, a, ms, fromNow, now);
      var same := ms == m.timers[a].ms && !fromNow;
      var start := if fromNow then now else Sub64(m.timers[a].next, m.timers[a].ms);
      && Inv(m') && (ok <==> same || a in m.order) && (!ok || same ==> m' == m && !front)
      && (forall b :: b in m'.order <==> b in m.order) && m'.previous == m.previous
      && (ok && !same ==>
            && m'.timers == m.timers[a := m.timers[a].(ms := ms, next := Add64(start, ms))]
            && m'.order != [] && (front <==> m'.order[0] == a && !m.tickled)
            && m'.tickled == (m.tickled || front))
  {
    hide Sorted, LowerBound, Find;
    FindExact(m.timers, m.order, a);
    if a in m.order && !(ms == m.timers[a].ms && !fromNow) {
      var p := Find(m.timers, m.order, a);
      var start := if fromNow then now else Sub64(m.timers[a].next, m.timers[a].ms);
      EraseSorted(m.timers, m.order, p);
      Reinsert(m.timers, m.timers[a := m.timers[a].(ms := ms, next := Add64(start, ms))], Erase(m.order, p), a);
    }
  }

  // ----- expiry -----

  /** A reading more than an hour behind the last one counts as a clock set back; so does one behind a last reading in the first hour. */
  lemma RolloverExactly(previous: nat, now: nat)
    requires previous < U64_LIMIT
    ensures Rollover(previous, now) <==> now + 3600000 < previous || (previous < 3600000 && now < previous)
  {
    assert previous < HOUR ==> Sub64(previous, HOUR) == previous - HOUR + U64_LIMIT;
  }

  function Renewed(timer: TimerSet.Timer, now: nat): TimerSet.Timer {
    if timer.recurring then timer.(next := Add64(now, timer.ms)) else timer.(cb := None)
  }

  function Callbacks(ts: Timers, expired: seq<nat>): (r: seq<Option<nat>>)
    requires Known(ts, expired)
    ensures |r| == |expired| && forall i :: 0 <= i < |r| ==> r[i] == ts[expired[i]].cb
  {
    seq(|expired|, i requires 0 <= i < |expired| => ts[expired[i]].cb)
  }

  ghost predicate Distinct(s: seq<nat>) {
    forall i, j :: 0 <= i < j < |s| ==> s[i] != s[j]
  }

  /** The loop renews exactly the expired timers, keeps the set ordered and collects in order. */
  lemma {:induction false} ExpireKeeps(ts: Timers, rest: seq<nat>, expired: seq<nat>, now: nat)
    requires Known(ts, rest) && Known(ts, expired) && Sorted(ts, rest)
    requires Distinct(expired) && forall a :: a in expired ==> a !in rest
    ensures var (ts', order, cbs) := Expire(ts, rest, expired, now);
      && ts'.Keys == ts.Keys && Known(ts', order) && Sorted(ts', order)
      && (forall a :: a in ts ==> ts'[a] == if a in expired then Renewed(ts[a], now) else ts[a])
      && (forall a :: a in order <==> a in rest || (a in expired && ts[a].recurring))
      && cbs == Callbacks(ts, expired)
    decreases |expired|
  {
    hide Insert, Sorted;
    if expired != [] {
      var a, tail := expired[0], expired[1..];
      var ts1 := ts[a := Renewed(ts[a], now)];
      assert a !in tail by { assert forall i :: 0 <= i < |tail| ==> tail[i] == expired[i + 1]; }
      assert forall b :: b in expired <==> b == a || b in tail;
      var rest1 := if ts[a].recurring then Insert(ts1, rest, a) else rest;
      if ts[a].recurring {
        Reinsert(ts, ts1, rest, a);
      } else {
        SortedElsewhere(ts, ts1, rest);
      }
      ExpireKeeps(ts1, rest1, tail, now);
      assert Callbacks(ts, expired) == [ts[a].cb] + Callbacks(ts1, tail);
    }
  }

  lemma SortedParts(ts: Timers, order: seq<nat>, k: nat)
    requires Known(ts, order) && Sorted(ts, order) && k <= |order|
    ensures Known(ts, order[..k]) && Known(ts, order[k..]) && Sorted(ts, order[k..])
    ensures Distinct(order[..k]) && forall a :: a in order[..k] ==> a !in order[k..]
    ensures forall a :: a in order <==> a in order[..k] || a in order[k..]
  {
    assert order == order[..k] + order[k..];
    forall i, j | 0 <= i < j < |order| ensures order[i] != order[j] { assert Less(ts, order[i], order[j]); }
    forall i, j | 0 <= i < j < |order[k..]| ensures Less(ts, order[k..][i], order[k..][j]) {
      assert Less(ts, order[k + i], order[k + j]);
    }
  }

  /** How many timers of the set are due. */
  function DueCount(m: Manager, now: nat, probe: nat): (k: nat)
    requires Known(m.timers, m.order)
    ensures k <= |m.order|
  {
    if m.order == [] then 0
    else if Rollover(m.previous, now) then |m.order|
    else if m.timers[m.order[0]].next > now then 0
    else DueEnd(m.timers, m.order, LowerBound(m.timers, m.order, now, probe), now)
  }

  /**
   Without a rollover, exactly the timers due at `now` are taken, in deadline order; with one, all.
   Each one's callback is returned once; one-shots lose it, recurring timers get a new deadline.
   */
  lemma ListExpiredKeeps(m: Manager, now: nat, probe: nat)
    requires Inv(m)
    ensures var (m', cbs) := ListExpired(m, now, probe);
      var due := m.order[..DueCount(m, now, probe)];
      && Inv(m') && m'.timers.Keys == m.timers.Keys && m'.tickled == m.tickled
      && m'.previous == (if m.order == [] then m.previous else now)
      && Known(m.timers, due) && cbs == Callbacks(m.timers, due)
      && (forall i :: 0 <= i < |cbs| ==> cbs[i].Some?)
      && (forall a :: a in m.timers ==> m'.timers[a] == if a in due then Renewed(m.timers[a], now) else m.timers[a])
      && (!Rollover(m.previous, now) ==> forall a :: a in m.order ==> (a in due <==> m.timers[a].next <= now))
      && (Rollover(m.previous, now) ==> due == m.order)
      && (forall a :: a in m'.order <==> a in m.order && (a in due ==> m.timers[a].recurring))
  {
    hide LowerBound, DueEnd, Expire, DueCount, ListExpired, Sorted, Rollover;
    var k := DueCount(m, now, probe);
    var due, rest := m.order[..k], m.order[k..];
    SortedParts(m.timers, m.order, k);
    ExpireKeeps(m.timers, rest, due, now);
    ListExpiredIs(m, now, probe);
    DueExactly(m, now, probe);
  }

  /** Whatever branch it takes, the function runs the loop over the due prefix. */
  lemma ListExpiredIs(m: Manager, now: nat, probe: nat)
    requires Inv(m)
    ensures var (m', cbs) := ListExpired(m, now, probe);
      var k := DueCount(m, now, probe);
      && Known(m.timers, m.order[..k]) && Known(m.timers, m.order[k..])
      && (m'.timers, m'.order, cbs) == Expire(m.timers, m.order[k..], m.order[..k], now)
      && m'.tickled == m.tickled && m'.previous == if m.order == [] then m.previous else now
  {
    hide LowerBound, DueEnd, Expire, Sorted;
    var k := DueCount(m, now, probe);
    if k == 0 {
      NothingExpires(m.timers, m.order, now);
      assert m.order[k..] == m.order && m.order[..k] == [];
    }
  }

  lemma DueExactly(m: Manager, now: nat, probe: nat)
    requires Inv(m)
    ensures var due := m.order[..DueCount(m, now, probe)];
      && (!Rollover(m.previous, now) ==> forall a :: a in m.order ==> (a in due <==> m.timers[a].next <= now))
      && (Rollover(m.previous, now) ==> due == m.order)
  {
    hide LowerBound, DueEnd, Sorted;
    if m.order != [] && !Rollover(m.previous, now) {
      DueIsPrefix(m, now, probe);
    }
  }

  lemma NothingExpires(ts: Timers, rest: seq<nat>, now: nat)
    requires Known(ts, rest)
    ensures Expire(ts, rest, [], now) == (ts, rest, [])
  {}

  lemma DueIsPrefix(m: Manager, now: nat, probe: nat)
    requires Inv(m) && m.order != [] && !Rollover(m.previous, now)
    ensures forall a :: a in m.order ==> (a in m.order[..DueCount(m, now, probe)] <==> m.timers[a].next <= now)
  {
    hide LowerBound, DueEnd;
    var k := DueCount(m, now, probe);
    DuePrefix(m.timers, m.order, now, probe);
    forall i | 0 <= i < |m.order| ensures m.timers[m.order[i]].next <= now <==> i < k {
      if i > 0 { assert Less(m.timers, m.order[0], m.order[i]); }
    }
    forall a | a in m.order ensures a in m.order[..k] <==> m.timers[a].next <= now {
      var i :| 0 <= i < |m.order| && m.order[i] == a;
      if i < k { assert m.order[..k][i] == a; }
    }
  }
}
