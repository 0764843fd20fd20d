/**
 The timer manager as the object it is (Helens/timer.cc): one critical section a method. Readings
 of the clock, the addresses of new timers and of the search key are parameters.
 */
module TimerManagerObject {
  import opened Arith
  import opened Options
  import opened TimerSet
  import T = Timer

  class TimerManager {
    var timers: Timers
    var order: seq<nat>
    var tickled: bool
    var previous: nat

    ghost function Value(): T.Manager
      reads this
    {
      T.Manager(timers, order, tickled, previous)
    }

    ghost predicate Valid()
      reads this
    {
      T.Inv(Value())
    }

    constructor (now: nat)
      ensures Valid() && Value() == T.Manager(map[], [], false, now)
    {
      timers, order, tickled, previous := map[], [], false, now;
    }

    /** `front`: whether onTimerInsertedAtFront is called after the lock is released. */
    method InsertTimer(a: nat) returns (front: bool)
      requires Known(timers, order) && Sorted(timers, order) && a in timers && a !in order
      modifies this`order, this`tickled
      ensures (Value(), front) == old(T.InsertTimer(Value(), a))
      ensures Known(timers, order) && Sorted(timers, order) && forall b :: b in order <==> b in old(order) || b == a
      ensures front <==> !old(tickled) && forall b :: b in order && b != a ==> b in timers && Less(timers, a, b)
      ensures tickled <==> old(tickled) || front
    {
      InsertSorted(timers, order, a);
      order := Insert(timers, order, a);
      front := order[0] == a && !tickled;
      if front {
        tickled := true;
      }
      FrontBeforeAll(timers, order, a);
    }

    method AddTimer(a: nat, ms: nat, cb: nat, recurring: bool, now: nat) returns (front: bool)
      requires Valid() && a !in timers
      modifies this
      ensures Valid() && (Value(), front) == old(T.AddTimer(Value(), a, ms, cb, recurring, now))
      ensures a in order && (front <==> order[0] == a && !old(tickled))
      ensures timers.Keys == old(timers).Keys + {a} && forall b :: b in old(timers) ==> timers[b] == old(timers)[b]
      ensures timers[a].ms == ms && timers[a].recurring == recurring && timers[a].cb == Some(cb)
      ensures now + ms < U64_LIMIT ==> timers[a].next == now + ms
    {
      T.AddTimerKeeps(Value(), a, ms, cb, recurring, now);
      SortedElsewhere(timers, timers[a := Timer(recurring, ms, Add64(now, ms), Some(cb))], order);
      timers := timers[a := Timer(recurring, ms, Add64(now, ms), Some(cb))];
      front := InsertTimer(a);
    }

    /** The erase of the entry just looked up is always given an entry that is there. */
    method Cancel(a: nat) returns (ok: bool)
      requires Valid() && a in timers
      modifies this
      ensures Valid() && (Value(), ok) == old(T.Cancel(Value(), a))
      ensures a !in order && (ok <==> old(a in order))
    {
      hide Sorted, Find, LowerBound;
      T.CancelKeeps(Value(), a);
      if timers[a].cb.Some? {
        timers := timers[a := timers[a].(cb := None)];
        assert Known(timers, order);
        var p := Find(timers, order, a);
        assert p < |order| by { FoundAfterCancel(old(Value()), a); }
        order := Erase(order, p);
        return true;
      }
      return false;
    }

    method Refresh(a: nat, now: nat) returns (ok: bool)
      requires Valid() && a in timers
      modifies this
      ensures Valid() && (Value(), ok) == old(T.Refresh(Value(), a, now))
      ensures ok <==> old(a in order)
    {
      hide Sorted, Find, LowerBound, Insert;
      T.RefreshKeeps(Value(), a, now);
      if timers[a].cb.None? {
        return false;
      }
      var p := Find(timers, order, a);
      if p == |order| {
        return false;
      }
      order := Erase(order, p);
      timers := timers[a := timers[a].(next := Add64(now, timers[a].ms))];
      order := Insert(timers, order, a);
      return true;
    }

    method Reset(a: nat, ms: nat, fromNow: bool, now: nat) returns (ok: bool, front: bool)
      requires Valid() && a in timers
      modifies this
      ensures Valid() && (Value(), ok, front) == old(T.Reset(Value(), a, ms, fromNow, now))
    {
      hide Sorted, Find, LowerBound, Insert;
      T.ResetKeeps(Value(), a, ms, fromNow, now);
      if ms == timers[a].ms && !fromNow {
        return true, false;
      }
      if timers[a].cb.None? {
        return false, false;
      }
      var p := Find(timers, order, a);
      if p == |order| {
        return false, false;
      }
      FindExact(timers, order, a);
      EraseSorted(timers, order, p);
      order := Erase(order, p);
      var start := if fromNow then now else Sub64(timers[a].next, timers[a].ms);
      SortedElsewhere(timers, timers[a := timers[a].(ms := ms, next := Add64(start, ms))], order);
      timers := timers[a := timers[a].(ms := ms, next := Add64(start, ms))];
      front := InsertTimer(a);
      ok := true;
    }

    /** No stored timer is due sooner than the delay returned. */
    method GetNextTimer(now: nat) returns (delay: nat)
      requires Valid()
      modifies this`tickled
      ensures Valid() && (Value(), delay) == old(T.GetNextTimer(Value(), now))
      ensures order == [] ==> delay == U64_LIMIT - 1
      ensures forall a :: a in order ==> a in timers && (timers[a].next >= now + delay || delay == 0)
      ensures order != [] ==> exists a :: a in order && a in timers && delay == if timers[a].next <= now then 0 else timers[a].next - now
    {
      tickled := false;
      if order == [] {
        return U64_LIMIT - 1;
      }
      FrontIsLeast(timers, order);
      var next := timers[order[0]].next;
      assert order[0] in order;
      delay := if now >= next then 0 else next - now;
    }

    /** `probe` is the address of the search key. */
    method ListExpiredCb(now: nat, probe: nat) returns (cbs: seq<Option<nat>>)
      requires Valid()
      modifies this
      ensures Valid() && (Value(), cbs) == old(T.ListExpired(Value(), now, probe))
    {
      hide Sorted, LowerBound, Insert, DueEnd, T.Rollover, T.Expire, T.DueCount, T.Callbacks, T.Renewed;
      T.ListExpiredKeeps(Value(), now, probe);
      if order == [] {
        return [];
      }
      var rollover := DetectClockRollover(now);
      if !rollover && timers[order[0]].next > now {
        return [];
      }
      var it := if rollover then |order| else LowerBound(timers, order, now, probe);
      it := PastEqual(it, now);
      cbs := Retire(it, now);
    }

    /** The loop that moves the iterator on over deadlines equal to now. */
    method PastEqual(from: nat, now: nat) returns (it: nat)
      requires Known(timers, order) && from <= |order|
      ensures it == DueEnd(timers, order, from, now)
    {
      it := from;
      while it < |order| && timers[order[it]].next == now
        invariant from <= it <= |order|
        invariant DueEnd(timers, order, it, now) == DueEnd(timers, order, from, now)
      {
        it := it + 1;
      }
    }

    method DetectClockRollover(now: nat) returns (rollover: bool)
      modifies this`previous
      ensures rollover == T.Rollover(old(previous), now) && previous == now
      ensures old(previous) < U64_LIMIT ==>
        (rollover <==> now + 3600000 < old(previous) || (old(previous) < 3600000 && now < old(previous)))
    {
      if previous < U64_LIMIT { T.RolloverExactly(previous, now); }
      rollover := now < previous && now < Sub64(previous, T.HOUR);
      previous := now;
    }

    /** The loop over the expired prefix, which has left the set. */
    method Retire(k: nat, now: nat) returns (cbs: seq<Option<nat>>)
      requires Known(timers, order) && k <= |order|
      modifies this`timers, this`order
      ensures (timers, order, cbs) == old(T.Expire(timers, order[k..], order[..k], now))
    {
      hide Insert, LowerBound;
      var expired := order[..k];
      order := order[k..];
      cbs := [];
      var i := 0;
      assert expired[0..] == expired;
      assert cbs + T.Expire(timers, order, expired, now).2 == T.Expire(timers, order, expired, now).2;
      while i < |expired|
        invariant i <= |expired| && Known(timers, order) && Known(timers, expired[i..])
        invariant var (ts, rest, more) := T.Expire(timers, order, expired[i..], now);
          (ts, rest, cbs + more) == old(T.Expire(timers, order[k..], order[..k], now))
      {
        var a := expired[i];
        assert expired[i..][0] == a && expired[i..][1..] == expired[i + 1..];
        ghost var tail := T.Expire(timers, order, expired[i..], now).2;
        assert tail == [timers[a].cb] + tail[1..];
        assert cbs + tail == (cbs + [timers[a].cb]) + tail[1..];
        cbs := cbs + [timers[a].cb];
        if timers[a].recurring {
          timers := timers[a := timers[a].(next := Add64(now, timers[a].ms))];
          assert Known(timers, order);
          InsertMembers(timers, order, a);
          order := Insert(timers, order, a);
          assert forall j :: 0 <= j < |order| ==> order[j] in order;
        } else {
          timers := timers[a := timers[a].(cb := None)];
        }
        i := i + 1;
      }
      assert expired[i..] == [] && cbs + [] == cbs;
    }
  }

  /** An element is at the front of an ordered set iff it comes before all others. */
  lemma FrontBeforeAll(ts: Timers, order: seq<nat>, a: nat)
    requires Known(ts, order) && Sorted(ts, order) && a in order
    ensures a in ts && (order[0] == a <==> forall b :: b in order && b != a ==> b in ts && Less(ts, a, b))
  {
    var i :| 0 <= i < |order| && order[i] == a;
    if i > 0 {
      assert Less(ts, order[0], order[i]);
      assert order[0] in order;
    } else {
      forall b | b in order && b != a ensures b in ts && Less(ts, a, b) {
        var j :| 0 <= j < |order| && order[j] == b;
        assert Less(ts, order[0], order[j]);
      }
    }
  }

  lemma FoundAfterCancel(m: T.Manager, a: nat)
    requires T.Inv(m) && a in m.timers && m.timers[a].cb.Some?
    ensures var ts := m.timers[a := m.timers[a].(cb := None)];
      Known(ts, m.order) && Find(ts, m.order, a) < |m.order|
  {
    hide Find;
    var ts := m.timers[a := m.timers[a].(cb := None)];
    SortedElsewhere(m.timers, ts, m.order);
    FindExact(ts, m.order, a);
  }
}
