/**
 The set positions of a bitmap in ascending and descending order: what its walks yield.
 */
module BitmapPositions {
  import opened Bits
  import opened BitmapCodec
  import opened BitmapWords

  /** The set positions in [lo, hi), ascending. */
  function Asc(ws: seq<Word>, lo: nat, hi: nat): seq<nat>
    requires hi <= VALUE_SIZE * |ws|
    decreases hi - lo
  {
    if lo >= hi then []
    else (if Test(ws, lo) then [lo] else []) + Asc(ws, lo + 1, hi)
  }

  /** The set positions in [lo, hi), descending. */
  function Desc(ws: seq<Word>, lo: nat, hi: nat): seq<nat>
    requires hi <= VALUE_SIZE * |ws|
    decreases hi - lo
  {
    if lo >= hi then []
    else Desc(ws, lo + 1, hi) + (if Test(ws, lo) then [lo] else [])
  }

  function Positions(ws: seq<Word>, size: nat): seq<nat>
    requires size <= VALUE_SIZE * |ws|
  {
    Asc(ws, 0, size)
  }

  function Reverse(s: seq<nat>): seq<nat> {
    if s == [] then [] else Reverse(s[1..]) + [s[0]]
  }

  ghost predicate Ascending(s: seq<nat>) {
    forall i, j :: 0 <= i < j < |s| ==> s[i] < s[j]
  }

  lemma TestAt(ws: seq<Word>, i: nat, x: nat)
    requires i < |ws| && x < VALUE_SIZE
    ensures Test(ws, VALUE_SIZE * i + x) <==> Bit(ws[i], x)
  {
    hide Bit;
    var p := VALUE_SIZE * i + x;
    assert p / VALUE_SIZE == i && p % VALUE_SIZE == x;
  }

  /** `Asc` lists exactly the set positions of the interval, each once, in order. */
  lemma {:induction false} AscExact(ws: seq<Word>, lo: nat, hi: nat, p: nat)
    requires hi <= VALUE_SIZE * |ws|
    ensures p in Asc(ws, lo, hi) <==> lo <= p < hi && Test(ws, p)
    decreases hi - lo
  {
    hide Test;
    if lo < hi { AscExact(ws, lo + 1, hi, p); }
  }

  lemma {:induction false} AscAscending(ws: seq<Word>, lo: nat, hi: nat)
    requires hi <= VALUE_SIZE * |ws|
    ensures Ascending(Asc(ws, lo, hi))
    decreases hi - lo
  {
    hide Test;
    if lo < hi {
      var rest := Asc(ws, lo + 1, hi);
      AscAscending(ws, lo + 1, hi);
      forall i | 0 <= i < |rest| ensures lo < rest[i] {
        AscExact(ws, lo + 1, hi, rest[i]);
      }
    }
  }

  lemma {:induction false} DescIsReverse(ws: seq<Word>, lo: nat, hi: nat)
    requires hi <= VALUE_SIZE * |ws|
    ensures Desc(ws, lo, hi) == Reverse(Asc(ws, lo, hi))
    decreases hi - lo
  {
    hide Test;
    if lo < hi {
      DescIsReverse(ws, lo + 1, hi);
      if Test(ws, lo) {
        var s := Asc(ws, lo, hi);
        assert s == [lo] + Asc(ws, lo + 1, hi);
        assert s[1..] == Asc(ws, lo + 1, hi);
      } else {
        assert Asc(ws, lo, hi) == Asc(ws, lo + 1, hi);
      }
    }
  }

  lemma {:induction false} AscSplit(ws: seq<Word>, lo: nat, mid: nat, hi: nat)
    requires lo <= mid <= hi <= VALUE_SIZE * |ws|
    ensures Asc(ws, lo, hi) == Asc(ws, lo, mid) + Asc(ws, mid, hi)
    decreases mid - lo
  {
    hide Test;
    if lo < mid {
      AscSplit(ws, lo + 1, mid, hi);
      var head := if Test(ws, lo) then [lo] else [];
      assert head + (Asc(ws, lo + 1, mid) + Asc(ws, mid, hi)) == (head + Asc(ws, lo + 1, mid)) + Asc(ws, mid, hi);
    } else {
      assert Asc(ws, lo, mid) == [];
    }
  }

  lemma AscNext(ws: seq<Word>, lo: nat, hi: nat)
    requires lo <= hi < VALUE_SIZE * |ws|
    ensures Asc(ws, lo, hi + 1) == Asc(ws, lo, hi) + if Test(ws, hi) then [hi] else []
  {
    AscSplit(ws, lo, hi, hi + 1);
    assert Asc(ws, hi + 1, hi + 1) == [];
    assert Asc(ws, hi, hi + 1) == if Test(ws, hi) then [hi] else [];
  }

  lemma {:induction false} DescSplit(ws: seq<Word>, lo: nat, mid: nat, hi: nat)
    requires lo <= mid <= hi <= VALUE_SIZE * |ws|
    ensures Desc(ws, lo, hi) == Desc(ws, mid, hi) + Desc(ws, lo, mid)
    decreases mid - lo
  {
    hide Test;
    if lo < mid {
      DescSplit(ws, lo + 1, mid, hi);
      var tail := if Test(ws, lo) then [lo] else [];
      assert (Desc(ws, mid, hi) + Desc(ws, lo + 1, mid)) + tail == Desc(ws, mid, hi) + (Desc(ws, lo + 1, mid) + tail);
    } else {
      assert Desc(ws, lo, mid) == [];
    }
  }

  /** An interval without set positions contributes nothing to either walk. */
  lemma {:induction false} EmptyInterval(ws: seq<Word>, lo: nat, hi: nat)
    requires hi <= VALUE_SIZE * |ws|
    requires forall p :: lo <= p < hi ==> !Test(ws, p)
    ensures Asc(ws, lo, hi) == [] && Desc(ws, lo, hi) == []
    decreases hi - lo
  {
    hide Test;
    if lo < hi { EmptyInterval(ws, lo + 1, hi); }
  }

  lemma ZeroWord(ws: seq<Word>, i: nat)
    requires i < |ws| && ws[i] == 0
    ensures forall p :: VALUE_SIZE * i <= p < VALUE_SIZE * (i + 1) ==> !Test(ws, p)
  {
    forall p | VALUE_SIZE * i <= p < VALUE_SIZE * (i + 1) ensures !Test(ws, p) {
      assert p / VALUE_SIZE == i;
      ZeroHasNoBits(p % VALUE_SIZE);
    }
  }

  /**
   `seen` is what a walk over `all` has passed to the callback: everything, or everything
   up to and including the first position at which the callback returned false.
   */
  ghost predicate WalkOf(seen: seq<nat>, all: seq<nat>, cb: nat -> bool) {
    && seen <= all
    && (forall i :: 0 <= i < |seen| - 1 ==> cb(seen[i]))
    && (|seen| < |all| ==> seen != [] && !cb(seen[|seen| - 1]))
  }

  /** The two conditions fix the walk. */
  lemma WalkUnique(s: seq<nat>, t: seq<nat>, all: seq<nat>, cb: nat -> bool)
    requires WalkOf(s, all, cb) && WalkOf(t, all, cb)
    ensures s == t
  {
  }

  // ----- counting -----

  /** The bits of `w` from bit `x` on. */
  function Above(w: nat, x: nat): nat
    decreases x
  {
    if x == 0 then w else Above(w / 2, x - 1)
  }

  lemma {:induction false} AboveStep(w: nat, x: nat)
    ensures Above(w, x + 1) == Above(w, x) / 2
    ensures Bit(w, x) <==> Above(w, x) % 2 == 1
    decreases x
  {
    if x > 0 { AboveStep(w / 2, x - 1); }
  }

  /** How many of a word's two tag bits are set. */
  function TagCount(w: Word): nat { PopCount(Above(w, VALUE_SIZE)) }

  lemma NoTags(w: Word)
    ensures TagCount(w) == 0 <==> w <= COUNT_MASK
  {
    hide Above, PopCount, Pow2;
    Pow2Values();
    AboveExactly(w, 14);
    AboveBelow(w, 14);
    PopCountExtremes(Above(w, 14), 16);
  }

  lemma {:induction false} AboveExactly(w: nat, k: nat)
    ensures Above(w, k) == 0 <==> w < Pow2(k)
  {
    if k > 0 { AboveExactly(w / 2, k - 1); }
  }

  lemma {:induction false} AboveBelow(w: nat, k: nat)
    ensures Above(w, k) <= w
  {
    if k > 0 { AboveBelow(w / 2, k - 1); }
  }

  /** The population count of a word is the number of its set positions and of its tag bits. */
  lemma {:induction false} CountWord(ws: seq<Word>, i: nat, x: nat)
    requires i < |ws| && x <= VALUE_SIZE
    ensures PopCount(Above(ws[i], x)) == |Asc(ws, VALUE_SIZE * i + x, VALUE_SIZE * i + VALUE_SIZE)| + TagCount(ws[i])
    decreases VALUE_SIZE - x
  {
    hide Above, Bit, Test, Pow2, PopCount;
    PopCountStep(Above(ws[i], x));
    if x < VALUE_SIZE {
      TestAt(ws, i, x);
      AboveStep(ws[i], x);
      CountWord(ws, i, x + 1);
    }
  }

  /** Bits at or past `size` are clear. */
  ghost predicate TailClear(ws: seq<Word>, size: nat) {
    forall p :: size <= p < VALUE_SIZE * |ws| ==> !Test(ws, p)
  }

  function Min(a: nat, b: nat): nat { if a < b then a else b }

  // ----- a walk in progress -----

  /** Every set position below `pos` has been shown, and the callback has not stopped the walk. */
  ghost predicate Passed(ws: seq<Word>, pos: nat, seen: seq<nat>, cb: nat -> bool) {
    pos <= VALUE_SIZE * |ws| && seen == Asc(ws, 0, pos) && forall i :: 0 <= i < |seen| ==> cb(seen[i])
  }

  lemma AscEmpty(ws: seq<Word>, p: nat)
    requires p <= VALUE_SIZE * |ws|
    ensures Asc(ws, p, p) == []
  {}

  lemma DescEmpty(ws: seq<Word>, p: nat)
    requires p <= VALUE_SIZE * |ws|
    ensures Desc(ws, p, p) == []
  {}

  lemma SkipFour(ws: seq<Word>, i: nat)
    requires i + 4 <= |ws| && Join(ws[i], ws[i + 1], ws[i + 2], ws[i + 3]) == 0
    ensures forall p :: VALUE_SIZE * i <= p < VALUE_SIZE * (i + 4) ==> !Test(ws, p)
  {
    hide Test;
    assert ws[i] == 0 && ws[i + 1] == 0 && ws[i + 2] == 0 && ws[i + 3] == 0;
    ZeroWord(ws, i);
    ZeroWord(ws, i + 1);
    ZeroWord(ws, i + 2);
    ZeroWord(ws, i + 3);
  }

  lemma SkipAsc(ws: seq<Word>, pos: nat, next: nat)
    requires pos <= next <= VALUE_SIZE * |ws|
    requires forall p :: pos <= p < next ==> !Test(ws, p)
    ensures Asc(ws, 0, next) == Asc(ws, 0, pos)
  {
    hide Test, Asc;
    EmptyInterval(ws, pos, next);
    AscSplit(ws, 0, pos, next);
  }

  lemma SkipTo(ws: seq<Word>, pos: nat, next: nat, seen: seq<nat>, cb: nat -> bool)
    requires Passed(ws, pos, seen, cb) && pos <= next <= VALUE_SIZE * |ws|
    requires forall p :: pos <= p < next ==> !Test(ws, p)
    ensures Passed(ws, next, seen, cb)
  {
    hide Test, Asc;
    SkipAsc(ws, pos, next);
  }

  /** The one position past the end that the backward walk looks at. */
  function PastEnd(ws: seq<Word>, size: nat): seq<nat>
    requires size <= VALUE_SIZE * |ws|
  {
    if size % VALUE_SIZE != 0 && Test(ws, size) then [size] else []
  }

  ghost predicate PassedDown(ws: seq<Word>, size: nat, lo: nat, seen: seq<nat>, cb: nat -> bool) {
    && lo <= size <= VALUE_SIZE * |ws|
    && seen == PastEnd(ws, size) + Desc(ws, lo, size)
    && forall i :: 0 <= i < |seen| ==> cb(seen[i])
  }

  lemma StartDown(ws: seq<Word>, wide: nat, cb: nat -> bool)
    requires U64_VALUE_SIZE * wide <= VALUE_SIZE * |ws|
    ensures PassedDown(ws, U64_VALUE_SIZE * wide, U64_VALUE_SIZE * wide, [], cb)
  {
    var size := U64_VALUE_SIZE * wide;
    assert size == VALUE_SIZE * (U64_DIV_BASE * wide);
  }

  lemma SkipDown(ws: seq<Word>, size: nat, lo: nat, hi: nat, seen: seq<nat>, cb: nat -> bool)
    requires PassedDown(ws, size, hi, seen, cb) && lo <= hi
    requires forall p :: lo <= p < hi ==> !Test(ws, p)
    ensures PassedDown(ws, size, lo, seen, cb)
  {
    hide Test, Desc, PastEnd;
    EmptyInterval(ws, lo, hi);
    DescSplit(ws, lo, hi, size);
  }

  lemma DescNext(ws: seq<Word>, size: nat, pos: nat)
    requires pos < size <= VALUE_SIZE * |ws|
    ensures Desc(ws, pos, size) == Desc(ws, pos + 1, size) + if Test(ws, pos) then [pos] else []
  {}

  lemma StopDown(ws: seq<Word>, size: nat, pos: nat, seen: seq<nat>)
    requires pos <= size <= VALUE_SIZE * |ws| && seen == PastEnd(ws, size) + Desc(ws, pos, size)
    ensures seen <= PastEnd(ws, size) + Desc(ws, 0, size)
  {
    hide Test, Desc, PastEnd;
    DescSplit(ws, 0, pos, size);
    assert PastEnd(ws, size) + Desc(ws, 0, size) == seen + Desc(ws, 0, pos);
  }

  /** A zero last word holds nothing, not even past the end. */
  lemma SkipLast(ws: seq<Word>, i: nat, size: nat)
    requires |ws| == WordCount(size) && |ws| == i + 1
    requires forall p :: VALUE_SIZE * i <= p < VALUE_SIZE * (i + 1) ==> !Test(ws, p)
    ensures PastEnd(ws, size) == [] && Desc(ws, VALUE_SIZE * i, size) == []
  {
    EmptyInterval(ws, VALUE_SIZE * i, size);
  }

  /** With a clear tail, counting up to any position at or past the size is counting up to the size. */
  lemma CountToSize(ws: seq<Word>, size: nat, pos: nat)
    requires size <= VALUE_SIZE * |ws| && size <= pos && TailClear(ws, size)
    ensures Asc(ws, 0, Min(pos, VALUE_SIZE * |ws|)) == Asc(ws, 0, size)
  {
    SkipAsc(ws, size, Min(pos, VALUE_SIZE * |ws|));
  }

  /** The backward walk is the exact reverse of the forward one iff it finds nothing past the end. */
  lemma BackwardIsReverse(ws: seq<Word>, size: nat)
    requires size <= VALUE_SIZE * |ws|
    ensures PastEnd(ws, size) + Desc(ws, 0, size) == Reverse(Positions(ws, size))
       <==> (size % VALUE_SIZE == 0 || !Test(ws, size))
  {
    DescIsReverse(ws, 0, size);
    assert |PastEnd(ws, size) + Desc(ws, 0, size)| == |PastEnd(ws, size)| + |Desc(ws, 0, size)|;
    assert [] + Desc(ws, 0, size) == Desc(ws, 0, size);
  }
}
