/**
 The one compressed form a sequence of words has (Helens/ds/bitmap.cc, `Bitmap::compress`): two
 bitmaps that were compressed hold the same words exactly if they stand for the same positions, which
 is what comparing them by their words (`Bitmap::operator==`) relies on.
 */
module BitmapCanonical {
  import opened Arith
  import opened BitmapCodec
  import opened BitmapCompress

  /** The word is empty or full with value `v`, or counts such words. */
  predicate StandsFor(w: Word, v: bool) {
    if Tagged(w) then Value(w) == v else Payload(w) == FullWord(v)
  }

  predicate Starts(s: seq<Word>, v: bool) { s != [] && StandsFor(s[0], v) }

  predicate Finishes(s: seq<Word>, v: bool) { s != [] && StandsFor(s[|s| - 1], v) }

  /** A run counts at least two whole words, in as few digits as possible. */
  predicate TightRun(run: seq<Word>) {
    && run != [] && DigitValue(run) >= 2 * VALUE_SIZE && DigitValue(run) % VALUE_SIZE == 0
    && Payload(run[|run| - 1]) != 0
  }

  /** Every stretch of equal full or empty words is one tight run or one literal; literals carry no tag bits. */
  predicate Canonical(s: seq<Word>)
    decreases |s|
  {
    if s == [] then true
    else if Tagged(s[0]) then
      var k := RunLength(s);
      TightRun(s[..k]) && !Starts(s[k..], Value(s[0])) && Canonical(s[k..])
    else
      s[0] <= COUNT_MASK && (forall v :: StandsFor(s[0], v) ==> !Starts(s[1..], v)) && Canonical(s[1..])
  }

  // ----- there is only one -----

  lemma {:induction false} TopCounts(run: seq<Word>)
    requires run != [] && Payload(run[|run| - 1]) != 0
    ensures DigitValue(run) > 0
  {
    if |run| > 1 { TopCounts(run[1..]); }
  }

  lemma WordUnique(a: Word, b: Word)
    requires Tagged(a) == Tagged(b) && Value(a) == Value(b) && Payload(a) == Payload(b)
    ensures a == b
  {}

  /** The digits of a number are unique, if the top one is not zero. */
  lemma {:induction false} DigitsUnique(a: seq<Word>, b: seq<Word>, v: bool)
    requires forall i :: 0 <= i < |a| ==> Tagged(a[i]) && Value(a[i]) == v
    requires forall i :: 0 <= i < |b| ==> Tagged(b[i]) && Value(b[i]) == v
    requires (a != [] ==> Payload(a[|a| - 1]) != 0) && (b != [] ==> Payload(b[|b| - 1]) != 0)
    requires DigitValue(a) == DigitValue(b)
    ensures a == b
  {
    hide Tagged, Value, Payload;
    if a != [] { TopCounts(a); }
    if b != [] { TopCounts(b); }
    if a != [] && b != [] {
      LowDigit(a);
      LowDigit(b);
      WordUnique(a[0], b[0]);
      DigitsUnique(a[1..], b[1..], v);
      assert a == [a[0]] + a[1..] && b == [b[0]] + b[1..];
    }
  }

  lemma LowDigit(s: seq<Word>)
    requires s != []
    ensures Payload(s[0]) == DigitValue(s) % RADIX && DigitValue(s[1..]) == DigitValue(s) / RADIX
  {
    hide Payload;
    DivUnique(DigitValue(s), RADIX, DigitValue(s[1..]), Payload(s[0]));
  }

  /** What the first word says about the first decoded word. */
  lemma FirstDecoded(s: seq<Word>, v: bool)
    requires Canonical(s)
    ensures Decode(s) == [] <==> s == []
    ensures s != [] ==> (Decode(s)[0] == FullWord(v) <==> Starts(s, v))
  {
    hide Canonical, Decode, DigitValue;
    if s == [] { DecodeEmpty(); } else { HeadDecodes(s); }
  }

  /** The words the head of a canonical sequence stands for: one if it is a literal, more if it is a run. */
  ghost function HeadWords(s: seq<Word>): (n: nat)
    requires s != []
  {
    if Tagged(s[0]) then DigitValue(s[..RunLength(s)]) / VALUE_SIZE else 1
  }

  ghost function HeadSize(s: seq<Word>): (k: nat)
    requires s != []
    ensures 1 <= k <= |s|
  {
    if Tagged(s[0]) then RunLength(s) else 1
  }

  lemma HeadDecodes(s: seq<Word>)
    requires Canonical(s) && s != []
    ensures HeadWords(s) >= (if Tagged(s[0]) then 2 else 1) && Canonical(s[HeadSize(s)..])
    ensures |Decode(s)| >= HeadWords(s) && Decode(s)[HeadWords(s)..] == Decode(s[HeadSize(s)..])
    ensures Tagged(s[0]) ==> forall i :: 0 <= i < HeadWords(s) ==> Decode(s)[i] == FullWord(Value(s[0]))
    ensures !Tagged(s[0]) ==> Decode(s)[0] == s[0]
    ensures forall v :: StandsFor(s[0], v) ==> !Starts(s[HeadSize(s)..], v)
    ensures forall v :: Decode(s)[0] == FullWord(v) <==> StandsFor(s[0], v)
  {
    hide DigitValue, Decode, Canonical, StandsFor;
    if Tagged(s[0]) { RunDecodes(s); } else { LiteralDecodes(s); }
  }

  lemma RunDecodes(s: seq<Word>)
    requires Canonical(s) && s != [] && Tagged(s[0])
    ensures HeadWords(s) >= 2 && Canonical(s[HeadSize(s)..])
    ensures |Decode(s)| >= HeadWords(s) && Decode(s)[HeadWords(s)..] == Decode(s[HeadSize(s)..])
    ensures forall i :: 0 <= i < HeadWords(s) ==> Decode(s)[i] == FullWord(Value(s[0]))
    ensures forall v :: StandsFor(s[0], v) ==> !Starts(s[HeadSize(s)..], v)
    ensures forall v :: Decode(s)[0] == FullWord(v) <==> StandsFor(s[0], v)
  {
    hide DigitValue, Starts, Tagged;
    var k := RunLength(s);
    var fill := Fill(Value(s[0]), DigitValue(s[..k]) / VALUE_SIZE);
    assert Decode(s) == fill + Decode(s[k..]);
    assert |fill| == HeadWords(s) && Decode(s)[0] == fill[0];
    assert DigitValue(s[..k]) >= 2 * VALUE_SIZE;
  }

  lemma LiteralDecodes(s: seq<Word>)
    requires Canonical(s) && s != [] && !Tagged(s[0])
    ensures Canonical(s[1..])
    ensures |Decode(s)| >= 1 && Decode(s)[1..] == Decode(s[1..]) && Decode(s)[0] == s[0]
    ensures forall v :: StandsFor(s[0], v) ==> !Starts(s[1..], v)
    ensures forall v :: Decode(s)[0] == FullWord(v) <==> StandsFor(s[0], v)
  {
    hide DigitValue;
    assert Decode(s) == [Payload(s[0])] + Decode(s[1..]);
  }

  /** After its head, a sequence goes on with something else. */
  lemma HeadIsWhole(s: seq<Word>, v: bool)
    requires Canonical(s) && s != [] && StandsFor(s[0], v)
    ensures HeadWords(s) < |Decode(s)| ==> Decode(s)[HeadWords(s)] != FullWord(v)
  {
    hide Canonical, Decode, DigitValue;
    HeadDecodes(s);
    FirstDecoded(s[HeadSize(s)..], v);
  }

  lemma SameHeads(s: seq<Word>, t: seq<Word>)
    requires Canonical(s) && Canonical(t) && s != [] && t != [] && Decode(s) == Decode(t)
    ensures HeadWords(s) == HeadWords(t) && s[..HeadSize(s)] == t[..HeadSize(t)]
  {
    hide Canonical, Decode, DigitValue, Payload, Tagged, Value;
    HeadDecodes(s);
    HeadDecodes(t);
    if v: bool :| StandsFor(s[0], v) {
      assert StandsFor(t[0], v);
      HeadIsWhole(s, v);
      HeadIsWhole(t, v);
      HeadFull(s, v);
      HeadFull(t, v);
      assert HeadWords(s) == HeadWords(t);
      if Tagged(s[0]) { RunHeads(s, t, v); }
    } else {
      NoRun(s[0]);
      NoRun(t[0]);
    }
  }

  lemma NoRun(w: Word)
    requires forall v :: !StandsFor(w, v)
    ensures !Tagged(w)
  {
    assert !StandsFor(w, Value(w));
  }

  lemma HeadFull(s: seq<Word>, v: bool)
    requires Canonical(s) && s != [] && StandsFor(s[0], v)
    ensures HeadWords(s) <= |Decode(s)| && forall i :: 0 <= i < HeadWords(s) ==> Decode(s)[i] == FullWord(v)
    ensures Tagged(s[0]) <==> HeadWords(s) >= 2
    ensures Tagged(s[0]) ==> Value(s[0]) == v
  {
    hide Canonical, Decode, DigitValue;
    HeadDecodes(s);
  }

  lemma RunHeads(s: seq<Word>, t: seq<Word>, v: bool)
    requires Canonical(s) && Canonical(t) && s != [] && t != [] && HeadWords(s) == HeadWords(t)
    requires Tagged(s[0]) && Tagged(t[0]) && Value(s[0]) == v == Value(t[0])
    ensures s[..HeadSize(s)] == t[..HeadSize(t)]
  {
    hide DigitValue, Tagged, Value;
    var a, b := s[..RunLength(s)], t[..RunLength(t)];
    assert TightRun(a) && TightRun(b);
    assert DigitValue(a) == VALUE_SIZE * HeadWords(s) && DigitValue(b) == VALUE_SIZE * HeadWords(t);
    DigitsUnique(a, b, v);
  }

  /** Compressed forms that stand for the same words are the same. */
  lemma {:induction false} CanonicalUnique(s: seq<Word>, t: seq<Word>)
    requires Canonical(s) && Canonical(t)
    ensures s == t <==> Decode(s) == Decode(t)
    decreases |s|
  {
    hide Canonical, Decode, HeadWords, HeadSize;
    FirstDecoded(s, false);
    FirstDecoded(t, false);
    if Decode(s) == Decode(t) && s != [] && t != [] {
      SameHeads(s, t);
      HeadDecodes(s);
      HeadDecodes(t);
      CanonicalUnique(s[HeadSize(s)..], t[HeadSize(t)..]);
      assert s == s[..HeadSize(s)] + s[HeadSize(s)..] && t == t[..HeadSize(t)] + t[HeadSize(t)..];
    }
  }

  // ----- the compressor writes it -----

  ghost predicate Apart(a: seq<Word>, b: seq<Word>) {
    forall v :: !(Finishes(a, v) && Starts(b, v))
  }

  lemma {:induction false} CanonicalAppend(a: seq<Word>, b: seq<Word>)
    requires Canonical(a) && Canonical(b) && Apart(a, b)
    ensures Canonical(a + b)
    decreases |a|
  {
    hide DigitValue, Payload, Tagged, Value;
    if a == [] {
      assert a + b == b;
    } else {
      var k, s := HeadSize(a), a + b;
      var rest := a[k..];
      assert s[..k] == a[..k] && s[k..] == rest + b;
      assert Apart(rest, b) && (rest == [] ==> forall v :: Finishes(a, v) ==> !Starts(b, v));
      CanonicalAppend(rest, b);
      if Tagged(a[0]) {
        LastOfRun(a);
        RunLengthUnique(s, k);
        assert rest == [] ==> rest + b == b;
        assert rest != [] ==> (rest + b)[0] == rest[0];
      } else {
        assert s[1..] == rest + b;
        assert rest == [] ==> rest + b == b;
        assert rest != [] ==> (rest + b)[0] == rest[0];
      }
    }
  }

  lemma LastOfRun(a: seq<Word>)
    requires a != [] && Tagged(a[0])
    ensures RunLength(a) == |a| ==> Finishes(a, Value(a[0]))
    ensures forall b: Word :: SameRun(a[0], b) ==> StandsFor(b, Value(a[0]))
  {}

  /** What has been written is canonical, and what is pending cannot merge with its end. */
  ghost predicate Tidy(out: seq<Word>, v: bool, count: nat) {
    Canonical(out) && (if count == 0 then forall u :: !Finishes(out, u) else !Finishes(out, v))
  }

  lemma NothingTidy()
    ensures Tidy([], false, 0)
  {}

  lemma FlushedCanonical(v: bool, count: nat)
    requires count % VALUE_SIZE == 0
    ensures var f := Flushed(v, count);
      && Canonical(f) && (f == [] <==> count == 0)
      && (forall u :: Starts(f, u) ==> u == v) && (forall u :: Finishes(f, u) ==> u == v)
  {
    if count / VALUE_SIZE > 1 {
      hide DigitValue, Payload;
      var f := Flushed(v, count);
      RunLengthUnique(f, |f|);
      TopDigit(v, count);
      assert f[..|f|] == f && f[|f|..] == [];
    }
  }

  lemma {:induction false} TopDigit(v: bool, count: nat)
    requires count > 0
    ensures var d := Digits(v, count); d != [] && Payload(d[|d| - 1]) != 0
  {
    if count >= RADIX {
      TopDigit(v, count / RADIX);
    } else {
      assert count / RADIX == 0 && Digits(v, 0) == [];
    }
  }

  lemma TidyFlush(out: seq<Word>, v: bool, count: nat)
    requires Tidy(out, v, count) && count % VALUE_SIZE == 0
    ensures Canonical(out + Flushed(v, count)) && !Finishes(out + Flushed(v, count), !v)
  {
    hide Canonical, Flushed, StandsFor;
    var f := Flushed(v, count);
    FlushedCanonical(v, count);
    CanonicalAppend(out, f);
    assert f == [] ==> out + f == out;
    assert f != [] ==> (out + f)[|out + f| - 1] == f[|f| - 1];
    assert !Finishes(f, !v) && (f == [] ==> !Finishes(out, !v));
  }

  /** One more word of the value that is pending. */
  lemma TidySame(out: seq<Word>, v: bool, count: nat)
    requires Tidy(out, v, count)
    ensures Tidy(out, v, count + VALUE_SIZE)
  {}

  /** A word of the other value after what is pending. */
  lemma TidyStart(out: seq<Word>, v: bool, count: nat, u: bool)
    requires Tidy(out, v, count) && count % VALUE_SIZE == 0 && u == !v
    ensures Tidy(out + Flushed(v, count), u, VALUE_SIZE)
  {
    TidyFlush(out, v, count);
  }

  /** A mixed word without tag bits, and nothing pending after it. */
  lemma TidyLiteral(out: seq<Word>, v: bool, count: nat, cur: Word)
    requires Tidy(out, v, count) && count % VALUE_SIZE == 0 && Mixed(cur) && cur <= COUNT_MASK
    ensures Tidy(out + Flushed(v, count) + [cur], v, 0)
  {
    hide Flushed;
    TidyFlush(out, v, count);
    var next := out + Flushed(v, count);
    MixedStands(cur);
    assert Canonical([cur]) by { assert [cur][1..] == []; }
    CanonicalAppend(next, [cur]);
    assert (next + [cur])[|next|] == cur;
  }

  lemma MixedStands(w: Word)
    requires Mixed(w) && !Tagged(w)
    ensures forall v :: !StandsFor(w, v)
  {}
}
