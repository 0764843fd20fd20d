/** What a log of registrations says: each one is consumed at most once, and before its slot is reused. */
module EventLog {
  import opened Options
  import opened EventTable

  predicate OnSlot(x: Entry, ctx: nat, e: Event) { x.ctx == ctx && x.event == e }

  predicate Consumes(x: Entry) { !x.Armed? }

  /** The registration that the log leaves in a slot. */
  function LiveReg(log: seq<Entry>, ctx: nat, e: Event): Option<Reg> {
    if log == [] then None
    else
      var x := log[|log| - 1];
      if OnSlot(x, ctx, e) then (if x.Armed? then Some(x.reg) else None)
      else LiveReg(log[..|log| - 1], ctx, e)
  }

  function CountArmed(log: seq<Entry>): nat {
    if log == [] then 0 else CountArmed(log[..|log| - 1]) + if log[|log| - 1].Armed? then 1 else 0
  }

  /**
   An entry that may follow `log`: a new registration in a free slot, or the end of the live one,
   with the waiter and the scheduler it was made for.
   */
  predicate MayFollow(log: seq<Entry>, x: Entry) {
    if x.Armed? then LiveReg(log, x.ctx, x.event).None? && x.reg.id == CountArmed(log)
    else LiveReg(log, x.ctx, x.event) == Some(x.reg)
  }

  ghost predicate WellLog(log: seq<Entry>) {
    forall i :: 0 <= i < |log| ==> MayFollow(log[..i], log[i])
  }

  lemma WellLogSnoc(log: seq<Entry>, x: Entry)
    requires WellLog(log) && MayFollow(log, x)
    ensures WellLog(log + [x])
  {
    hide MayFollow;
    var l := log + [x];
    forall i | 0 <= i < |l| ensures MayFollow(l[..i], l[i]) {
      if i < |log| {
        assert l[..i] == log[..i];
      } else {
        assert l[..i] == log;
      }
    }
  }

  lemma LiveSnoc(log: seq<Entry>, x: Entry, ctx: nat, e: Event)
    ensures LiveReg(log + [x], ctx, e) ==
      if OnSlot(x, ctx, e) then (if x.Armed? then Some(x.reg) else None) else LiveReg(log, ctx, e)
    ensures CountArmed(log + [x]) == CountArmed(log) + if x.Armed? then 1 else 0
  {
    var l := log + [x];
    assert l[..|l| - 1] == log;
  }

  lemma {:induction false} CountMono(log: seq<Entry>, i: nat, j: nat)
    requires i <= j <= |log|
    ensures CountArmed(log[..i]) <= CountArmed(log[..j])
    decreases j - i
  {
    if i < j {
      assert log[..j][..j - 1] == log[..j - 1];
      CountMono(log, i, j - 1);
    }
  }

  /** Registration numbers are not used twice. */
  lemma ArmedUnique(log: seq<Entry>, i: nat, j: nat)
    requires WellLog(log) && i < j < |log| && log[i].Armed? && log[j].Armed?
    ensures log[i].reg.id < log[j].reg.id
  {
    hide LiveReg;
    assert MayFollow(log[..i], log[i]) && MayFollow(log[..j], log[j]);
    assert log[..i + 1][..i] == log[..i] && log[..i + 1][i] == log[i];
    assert CountArmed(log[..i + 1]) == CountArmed(log[..i]) + 1;
    CountMono(log, i + 1, j);
  }

  /** A live registration was made by an entry that nothing on the slot follows. */
  lemma {:induction false} LiveSource(log: seq<Entry>, ctx: nat, e: Event) returns (k: nat)
    requires LiveReg(log, ctx, e).Some?
    ensures k < |log| && log[k] == Armed(ctx, e, LiveReg(log, ctx, e).value)
    ensures forall m :: k < m < |log| ==> !OnSlot(log[m], ctx, e)
    decreases |log|
  {
    var n := |log| - 1;
    if OnSlot(log[n], ctx, e) {
      k := n;
    } else {
      k := LiveSource(log[..n], ctx, e);
      forall m | k < m < |log| ensures !OnSlot(log[m], ctx, e) {
        if m < n { assert log[..n][m] == log[m]; }
      }
    }
  }

  /** A consumption goes with one registration, on the same slot and before it, for the same waiter and scheduler. */
  lemma ConsumptionSource(log: seq<Entry>, j: nat) returns (k: nat)
    requires WellLog(log) && j < |log| && Consumes(log[j])
    ensures k < j && log[k] == Armed(log[j].ctx, log[j].event, log[j].reg)
    ensures forall m :: k < m < j ==> !OnSlot(log[m], log[j].ctx, log[j].event)
  {
    hide LiveReg;
    assert MayFollow(log[..j], log[j]);
    k := LiveSource(log[..j], log[j].ctx, log[j].event);
    forall m | k < m < j ensures !OnSlot(log[m], log[j].ctx, log[j].event) {
      assert log[..j][m] == log[m];
    }
  }

  /** No registration is consumed twice: not by two reports, nor by a report and a cancellation. */
  lemma ConsumedOnce(log: seq<Entry>, i: nat, j: nat)
    requires WellLog(log) && i < j < |log| && Consumes(log[i]) && Consumes(log[j])
    ensures log[i].reg.id != log[j].reg.id
  {
    if log[i].reg.id == log[j].reg.id {
      var k := ConsumptionSource(log, i);
      var k' := ConsumptionSource(log, j);
      if k < k' {
        ArmedUnique(log, k, k');
      } else if k' < k {
        ArmedUnique(log, k', k);
      }
      assert false;
    }
  }

  /** Before a slot is armed again, its registration has been consumed, by exactly one entry between. */
  lemma ConsumedBeforeRearm(log: seq<Entry>, i: nat, j: nat) returns (m: nat)
    requires WellLog(log) && i < j < |log| && log[i].Armed? && log[j].Armed?
    requires OnSlot(log[j], log[i].ctx, log[i].event)
    ensures i < m < j && Consumes(log[m]) && log[m].reg == log[i].reg && OnSlot(log[m], log[i].ctx, log[i].event)
  {
    m := NextOnSlot(log, i, j);
    assert MayFollow(log[..m], log[m]);
    LiveUntil(log, i, m);
  }

  /** The first entry on the slot after `i`, up to `j`. */
  lemma NextOnSlot(log: seq<Entry>, i: nat, j: nat) returns (m: nat)
    requires i < j < |log| && OnSlot(log[j], log[i].ctx, log[i].event)
    ensures i < m <= j && OnSlot(log[m], log[i].ctx, log[i].event)
    ensures forall k :: i < k < m ==> !OnSlot(log[k], log[i].ctx, log[i].event)
  {
    m := i + 1;
    while !OnSlot(log[m], log[i].ctx, log[i].event)
      invariant i < m <= j
      invariant forall k :: i < k < m ==> !OnSlot(log[k], log[i].ctx, log[i].event)
      decreases j - m
    {
      m := m + 1;
    }
  }

  /** A registration stays live as long as nothing happens on its slot. */
  lemma {:induction false} LiveUntil(log: seq<Entry>, i: nat, m: nat)
    requires i < m <= |log| && log[i].Armed?
    requires forall k :: i < k < m ==> !OnSlot(log[k], log[i].ctx, log[i].event)
    ensures LiveReg(log[..m], log[i].ctx, log[i].event) == Some(log[i].reg)
    decreases m - i
  {
    var l := log[..m];
    assert l[m - 1] == log[m - 1] && l[..m - 1] == log[..m - 1];
    if m > i + 1 { LiveUntil(log, i, m - 1); }
  }
}
