/**
 Counting set bits on the compressed form (Helens/ds/bitmap.cc, `Bitmap::getCount`): every
 tagged word contributes its own digit, so a run of several digits is not counted in full.
 */
module BitmapCount {
  import opened Bits
  import opened BitmapCodec
  import opened BitmapWords
  import opened BitmapPositions

  /** The number of set payload bits. */
  function SetBits(ws: seq<Word>): nat {
    if ws == [] then 0 else PopCount(ws[0]) + SetBits(ws[1..])
  }

  /** What the source adds up over the compressed words. */
  function RawCount(s: seq<Word>): nat {
    if s == [] then 0
    else
      (if Tagged(s[0]) then (if Value(s[0]) then Payload(s[0]) else 0) else PopCount(s[0]))
      + RawCount(s[1..])
  }

  function TagBits(ws: seq<Word>): nat {
    if ws == [] then 0 else TagCount(ws[|ws| - 1]) + TagBits(ws[..|ws| - 1])
  }

  lemma {:induction false} NoTagBits(ws: seq<Word>)
    ensures TagBits(ws) == 0 <==> Plain(ws)
  {
    hide TagCount;
    if ws != [] {
      var front, last := ws[..|ws| - 1], ws[|ws| - 1];
      NoTagBits(front);
      NoTags(last);
      PlainSnoc(front, last);
      assert ws == front + [last];
    }
  }

  /** Adding up population counts counts the positions, and the tag bits. */
  lemma {:induction false} SetBitsAre(ws: seq<Word>, n: nat)
    requires n <= |ws|
    ensures SetBits(ws[..n]) == |Asc(ws, 0, VALUE_SIZE * n)| + TagBits(ws[..n])
  {
    hide Asc, PopCount, TagCount;
    if n == 0 {
      AscEmpty(ws, 0);
    } else {
      SetBitsAre(ws, n - 1);
      CountWord(ws, n - 1, 0);
      AscSplit(ws, 0, VALUE_SIZE * (n - 1), VALUE_SIZE * n);
      assert ws[..n] == ws[..n - 1] + [ws[n - 1]] && ws[..n][..n - 1] == ws[..n - 1];
      SetBitsAppend(ws[..n - 1], [ws[n - 1]]);
      SetBitsOfOne(ws[n - 1]);
    }
  }

  /** `SetBits` of clean words counts the positions that the walks yield. */
  lemma SetBitsIsCount(ws: seq<Word>, n: nat)
    requires n <= |ws| && Plain(ws)
    ensures |Asc(ws, 0, VALUE_SIZE * n)| == SetBits(ws[..n])
  {
    hide Asc, SetBits, TagBits;
    SetBitsAre(ws, n);
    NoTagBits(ws[..n]);
  }

  // ----- the plain count -----

  /** The words that are counted four at a time, all bits of them. */
  function Grouped(ws: seq<Word>): nat { 4 * (|ws| / 4) }

  /** In those words, no tag bit is set and no bit past the end. */
  ghost predicate GroupsClean(ws: seq<Word>, size: nat) {
    Plain(ws[..Grouped(ws)]) && forall p :: size <= p < VALUE_SIZE * Grouped(ws) ==> !Test(ws, p)
  }

  /** What the plain count adds up: all bits of the grouped words, and the positions of the rest. */
  function WideCount(ws: seq<Word>, size: nat): nat
    requires size <= VALUE_SIZE * |ws|
  {
    SetBits(ws[..Grouped(ws)]) + |Asc(ws, Min(VALUE_SIZE * Grouped(ws), size), size)|
  }

  lemma NoSetBits(ws: seq<Word>)
    ensures SetBits(ws[..0]) == 0
  {}

  lemma FourMore(ws: seq<Word>, i: nat)
    requires i + 4 <= |ws|
    ensures SetBits(ws[..i + 4]) == SetBits(ws[..i]) + PopCount(ws[i]) + PopCount(ws[i + 1]) + PopCount(ws[i + 2]) + PopCount(ws[i + 3])
  {
    hide PopCount, SetBits;
    var four := [ws[i], ws[i + 1], ws[i + 2], ws[i + 3]];
    assert ws[..i + 4] == ws[..i] + four;
    SetBitsAppend(ws[..i], four);
    SetBitsOfFour(ws[i], ws[i + 1], ws[i + 2], ws[i + 3]);
  }

  lemma SetBitsOfFour(a: Word, b: Word, c: Word, d: Word)
    ensures SetBits([a, b, c, d]) == PopCount(a) + PopCount(b) + PopCount(c) + PopCount(d)
  {
    hide PopCount, SetBits;
    assert [a, b, c, d] == [a] + ([b] + ([c] + [d]));
    SetBitsAppend([a], [b] + ([c] + [d]));
    SetBitsAppend([b], [c] + [d]);
    SetBitsAppend([c], [d]);
    SetBitsOfOne(a);
    SetBitsOfOne(b);
    SetBitsOfOne(c);
    SetBitsOfOne(d);
  }

  lemma SetBitsOfOne(w: Word)
    ensures SetBits([w]) == PopCount(w)
  {
    hide PopCount;
    assert [w][1..] == [];
  }

  lemma SkipFrom(ws: seq<Word>, lo: nat, pos: nat, next: nat)
    requires lo <= pos <= next <= VALUE_SIZE * |ws|
    requires forall p :: pos <= p < next ==> !Test(ws, p)
    ensures Asc(ws, lo, next) == Asc(ws, lo, pos)
  {
    hide Test, Asc;
    EmptyInterval(ws, pos, next);
    AscSplit(ws, lo, pos, next);
  }

  /** It is never too small, and right iff the grouped words are clean. */
  lemma WideCountExact(ws: seq<Word>, size: nat)
    requires size <= VALUE_SIZE * |ws|
    ensures WideCount(ws, size) >= |Positions(ws, size)|
    ensures WideCount(ws, size) == |Positions(ws, size)| <==> GroupsClean(ws, size)
  {
    hide Asc, SetBits, TagBits, Test;
    var g := Grouped(ws);
    var all, lo := VALUE_SIZE * g, Min(VALUE_SIZE * g, size);
    SetBitsAre(ws, g);
    NoTagBits(ws[..g]);
    AscSplit(ws, 0, lo, all);
    AscSplit(ws, 0, lo, size);
    if Asc(ws, lo, all) == [] {
      forall p | size <= p < all ensures !Test(ws, p) { AscExact(ws, lo, all, p); }
    } else {
      var p := Asc(ws, lo, all)[0];
      AscExact(ws, lo, all, p);
    }
  }

  lemma {:induction false} SetBitsAppend(a: seq<Word>, b: seq<Word>)
    ensures SetBits(a + b) == SetBits(a) + SetBits(b)
  {
    hide PopCount;
    if a == [] {
      assert a + b == b;
    } else {
      assert (a + b)[1..] == a[1..] + b;
      SetBitsAppend(a[1..], b);
    }
  }

  lemma {:induction false} RawCountAppend(a: seq<Word>, b: seq<Word>)
    ensures RawCount(a + b) == RawCount(a) + RawCount(b)
  {
    hide PopCount;
    if a == [] {
      assert a + b == b;
    } else {
      assert (a + b)[1..] == a[1..] + b;
      RawCountAppend(a[1..], b);
    }
  }

  lemma {:induction false} SetBitsFill(v: bool, n: nat)
    ensures SetBits(Fill(v, n)) == if v then VALUE_SIZE * n else 0
  {
    hide Pow2;
    if n > 0 {
      assert Fill(v, n)[1..] == Fill(v, n - 1);
      SetBitsFill(v, n - 1);
      Pow2Values();
      PopCountExtremes(FullWord(v), 14);
    }
  }

  /** Only the first digit of a run may be non-zero. */
  ghost predicate LowDigitOnly(run: seq<Word>) {
    forall i :: 0 < i < |run| ==> Payload(run[i]) == 0
  }

  lemma {:induction false} DigitSum(run: seq<Word>)
    requires forall i :: 0 <= i < |run| ==> Tagged(run[i]) && Value(run[i])
    ensures RawCount(run) <= DigitValue(run)
    ensures RawCount(run) == DigitValue(run) <==> LowDigitOnly(run)
    ensures DigitValue(run) == 0 <==> forall i :: 0 <= i < |run| ==> Payload(run[i]) == 0
  {
    hide Payload;
    if run != [] {
      var rest := run[1..];
      DigitSum(rest);
      assert forall i :: 0 <= i < |rest| ==> rest[i] == run[i + 1];
      assert forall i :: 0 < i < |run| ==> run[i] == rest[i - 1];
      assert LowDigitOnly(run) <==> DigitValue(rest) == 0;
    }
  }

  lemma {:induction false} RawCountUnset(run: seq<Word>)
    requires forall i :: 0 <= i < |run| ==> Tagged(run[i]) && !Value(run[i])
    ensures RawCount(run) == 0
  {
    if run != [] { RawCountUnset(run[1..]); }
  }

  /** No set run carries into a second digit. A caller can check this on the words. */
  ghost predicate NoCarry(s: seq<Word>) {
    forall i :: 0 < i < |s| && SameRun(s[i - 1], s[i]) && Value(s[i]) ==> Payload(s[i]) == 0
  }

  /** A word that is no run has no tag bits at all. */
  ghost predicate PlainLiterals(s: seq<Word>) {
    forall i :: 0 <= i < |s| && !Tagged(s[i]) ==> s[i] <= COUNT_MASK
  }

  lemma RunCountExact(run: seq<Word>)
    requires IsRun(run) && GoodRun(run)
    ensures RawCount(run) <= SetBits(Decode(run))
    ensures RawCount(run) == SetBits(Decode(run)) <==> !Value(run[0]) || LowDigitOnly(run)
  {
    hide Decode, WellFormed, SetBits, DigitValue, RawCount;
    assert run + [] == run;
    DecodeRunHead(run, []);
    DecodeEmpty();
    var f := Fill(Value(run[0]), DigitValue(run) / VALUE_SIZE);
    assert f + [] == f;
    SetBitsFill(Value(run[0]), DigitValue(run) / VALUE_SIZE);
    if Value(run[0]) {
      DigitSum(run);
    } else {
      RawCountUnset(run);
    }
  }

  /**
   The count of a compressed bitmap never exceeds the number of set bits, and equals it
   exactly when no set run carries into a second digit.
   */
  lemma {:induction false} CompressedCountExact(s: seq<Word>)
    requires WellFormed(s) && PlainLiterals(s)
    ensures RawCount(s) <= SetBits(Decode(s))
    ensures RawCount(s) == SetBits(Decode(s)) <==> NoCarry(s)
    decreases |s|
  {
    hide Decode, WellFormed, SetBits, RawCount, Payload, DigitValue, GoodRun;
    if s == [] {
      CountEmpty();
    } else {
      var head, rest := SplitHead(s);
      assert forall i :: 0 <= i < |rest| ==> rest[i] == s[|head| + i];
      DecodeHead(head, rest);
      CompressedCountExact(rest);
      SetBitsAppend(Decode(head), Decode(rest));
      RawCountAppend(head, rest);
      HeadCountExact(head, rest);
    }
  }

  lemma CountEmpty()
    ensures RawCount([]) == SetBits(Decode([])) == 0
  {}

  lemma HeadCountExact(head: seq<Word>, rest: seq<Word>)
    requires head != [] && WellFormed(head) && PlainLiterals(head)
    requires if Tagged(head[0]) then IsRun(head) && Seam(head, rest) else |head| == 1
    ensures RawCount(head) <= SetBits(Decode(head))
    ensures NoCarry(head + rest) <==> RawCount(head) == SetBits(Decode(head)) && NoCarry(rest)
  {
    hide RawCount, SetBits, Decode, WellFormed, Payload, DigitValue, GoodRun;
    NoCarrySplit(head, rest);
    if Tagged(head[0]) {
      HeadRunIsGood(head);
      RunCountExact(head);
      NoCarryRun(head);
    } else {
      LiteralCount(head);
    }
  }

  lemma NoCarryRun(run: seq<Word>)
    requires IsRun(run)
    ensures NoCarry(run) <==> !Value(run[0]) || LowDigitOnly(run)
  {
    hide Payload;
    if NoCarry(run) && Value(run[0]) {
      forall i | 0 < i < |run| ensures Payload(run[i]) == 0 {
        assert SameRun(run[i - 1], run[i]) && Value(run[i]);
      }
    }
  }

  lemma LiteralCount(head: seq<Word>)
    requires |head| == 1 && head[0] <= COUNT_MASK
    ensures RawCount(head) == SetBits(Decode(head))
  {
    hide Decode, PopCount;
    DecodeLiteral(head[0]);
    assert head == [head[0]];
  }

  lemma HeadRunIsGood(run: seq<Word>)
    requires IsRun(run) && WellFormed(run)
    ensures GoodRun(run)
  {
    hide Decode, WellFormed, GoodRun;
    assert run + [] == run;
    DecodeRunHead(run, []);
  }

  lemma NoCarrySplit(head: seq<Word>, rest: seq<Word>)
    requires head != [] && (rest == [] || !SameRun(head[|head| - 1], rest[0]))
    ensures NoCarry(head + rest) <==> NoCarry(head) && NoCarry(rest)
  {
    hide Payload;
    var s, h := head + rest, |head|;
    assert forall i :: 0 <= i < h ==> s[i] == head[i];
    assert forall i :: 0 <= i < |rest| ==> s[h + i] == rest[i];
    if NoCarry(s) {
      forall i | 0 < i < |rest| && SameRun(rest[i - 1], rest[i]) && Value(rest[i]) ensures Payload(rest[i]) == 0 {
        assert s[h + i - 1] == rest[i - 1] && s[h + i] == rest[i];
      }
      forall i | 0 < i < |head| && SameRun(head[i - 1], head[i]) && Value(head[i]) ensures Payload(head[i]) == 0 {
        assert s[i - 1] == head[i - 1] && s[i] == head[i];
      }
    }
    if NoCarry(head) && NoCarry(rest) {
      forall i | 0 < i < |s| && SameRun(s[i - 1], s[i]) && Value(s[i]) ensures Payload(s[i]) == 0 {
        if i < h {
          assert s[i - 1] == head[i - 1] && s[i] == head[i];
        } else if i > h {
          assert s[i - 1] == rest[i - 1 - h] && s[i] == rest[i - h];
        }
      }
    }
  }

  /** The set bits of what compressed words stand for are its positions, when nothing is set past the end. */
  lemma CountIsPositions(s: seq<Word>, size: nat)
    requires size <= VALUE_SIZE * |Decode(s)| && TailClear(Decode(s), size)
    ensures SetBits(Decode(s)) == |Positions(Decode(s), size)|
  {
    hide Decode, Asc, SetBits, TailClear;
    var ws := Decode(s);
    DecodeIsPlain(s);
    SetBitsIsCount(ws, |ws|);
    assert ws[..|ws|] == ws;
    CountToSize(ws, size, VALUE_SIZE * |ws|);
  }
}
