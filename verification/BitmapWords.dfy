/**
 A bitmap as a sequence of 14-bit words: which positions are set, the word-wise
 operators, and the 64-bit view of four adjacent words (Helens/ds/bitmap.cc).
 */
module BitmapWords {
  import opened Arith
  import opened Bits
  import opened BitmapCodec

  /** Words needed for `size` bits. */
  function WordCount(size: nat): (n: nat)
    ensures VALUE_SIZE * n >= size && VALUE_SIZE * n < size + VALUE_SIZE
  {
    (size + VALUE_SIZE - 1) / VALUE_SIZE
  }

  /** Position `i` is set. */
  predicate Test(ws: seq<Word>, i: nat)
    requires i / VALUE_SIZE < |ws|
  {
    Bit(ws[i / VALUE_SIZE], i % VALUE_SIZE)
  }

  lemma SetBitMeans(w: Word, x: nat, v: bool)
    requires x < VALUE_SIZE
    ensures v ==> Or(w, Pow2(x)) < WORD_LIMIT
    ensures Pow2(x) < WORD_LIMIT
    ensures var r := if v then Or(w, Pow2(x)) else And(w, WORD_LIMIT - 1 - Pow2(x));
      && r < WORD_LIMIT
      && (w <= COUNT_MASK ==> r <= COUNT_MASK)
      && forall y :: 0 <= y < VALUE_SIZE ==> Bit(r, y) == if y == x then v else Bit(w, y)
  {
    hide Bit, And, Or, Pow2;
    PowerFits(x);
    OrBound(w, Pow2(x), 16);
    if w <= COUNT_MASK { OrBound(w, Pow2(x), 14); }
    forall y | 0 <= y < VALUE_SIZE
      ensures Bit(if v then Or(w, Pow2(x)) else And(w, WORD_LIMIT - 1 - Pow2(x)), y) == if y == x then v else Bit(w, y)
    {
      OneBitMask(w, x, y);
    }
  }

  lemma PowerFits(x: nat)
    requires x < VALUE_SIZE
    ensures Pow2(x) < Pow2(14) == RADIX && Pow2(16) == WORD_LIMIT
  {
    hide Pow2;
    Pow2Values();
    Pow2Grows(x, 13);
    Pow2Double(13);
  }

  lemma Pow2Double(k: nat)
    ensures Pow2(k + 1) == 2 * Pow2(k)
  {}

  /** A bit mask and its complement, one bit at a time. */
  lemma OneBitMask(w: nat, x: nat, y: nat)
    requires x < VALUE_SIZE && y < VALUE_SIZE
    ensures Pow2(x) < WORD_LIMIT
    ensures Bit(Or(w, Pow2(x)), y) <==> y == x || Bit(w, y)
    ensures Bit(And(w, WORD_LIMIT - 1 - Pow2(x)), y) <==> y != x && Bit(w, y)
  {
    hide Bit, And, Or, Pow2;
    PowerFits(x);
    BitPow2(x, y);
    BitOr(w, Pow2(x), y);
    BitFlip(Pow2(x), 16, y);
    BitAnd(w, WORD_LIMIT - 1 - Pow2(x), y);
  }

  /** The compressor's bit count tells empty words and full words apart from the rest. */
  lemma ClassifyWord(w: Word)
    ensures PopCount(Payload(w)) == 0 <==> Payload(w) == 0
    ensures PopCount(Payload(w)) == VALUE_SIZE <==> Payload(w) == COUNT_MASK
  {
    Pow2Values();
    PopCountExtremes(Payload(w), 14);
  }

  // ----- word-wise operators and what they do to positions -----

  function AndWord(a: Word, b: Word): (r: Word)
    ensures r == And(a, b)
  {
    And(a, b)
  }

  function ZipAnd(a: seq<Word>, b: seq<Word>): (r: seq<Word>)
    requires |a| == |b|
    ensures |r| == |a| && forall i :: 0 <= i < |a| ==> r[i] == And(a[i], b[i])
  {
    seq(|a|, i requires 0 <= i < |a| => AndWord(a[i], b[i]))
  }

  function OrWord(a: Word, b: Word): (r: Word)
    ensures r == Or(a, b)
  {
    Pow2Values();
    OrBound(a, b, 16);
    Or(a, b)
  }

  function ZipOr(a: seq<Word>, b: seq<Word>): (r: seq<Word>)
    requires |a| == |b|
    ensures |r| == |a| && forall i :: 0 <= i < |a| ==> r[i] == Or(a[i], b[i])
  {
    seq(|a|, i requires 0 <= i < |a| => OrWord(a[i], b[i]))
  }

  lemma TestAnd(a: seq<Word>, b: seq<Word>, i: nat)
    requires |a| == |b| && i / VALUE_SIZE < |a|
    ensures Test(ZipAnd(a, b), i) <==> Test(a, i) && Test(b, i)
  {
    BitAnd(a[i / VALUE_SIZE], b[i / VALUE_SIZE], i % VALUE_SIZE);
  }

  lemma TestOr(a: seq<Word>, b: seq<Word>, i: nat)
    requires |a| == |b| && i / VALUE_SIZE < |a|
    ensures Test(ZipOr(a, b), i) <==> Test(a, i) || Test(b, i)
  {
    BitOr(a[i / VALUE_SIZE], b[i / VALUE_SIZE], i % VALUE_SIZE);
  }

  lemma TestNot(a: seq<Word>, i: nat)
    requires Plain(a) && i / VALUE_SIZE < |a|
    ensures Test(MapNot(a), i) <==> !Test(a, i)
  {
    hide Pow2, Bit;
    Pow2Values();
    BitFlip(a[i / VALUE_SIZE], 14, i % VALUE_SIZE);
  }

  lemma NotTwice(a: seq<Word>)
    requires Plain(a)
    ensures MapNot(MapNot(a)) == a
  {}

  // ----- words that may carry tag bits -----

  /** The payload of `r` is that of `w` cut to `x`; without tag bits, `r` is the conjunction. */
  ghost predicate AndsTo(r: Word, w: Word, x: Word) {
    Payload(r) == And(Payload(w), x) && (w <= COUNT_MASK ==> r == And(w, x))
  }

  ghost predicate OrsTo(r: Word, w: Word, x: Word) {
    Payload(r) == Or(Payload(w), x) && (w <= COUNT_MASK ==> r == Or(w, x))
  }

  lemma OwnPayload(w: Word)
    ensures w <= COUNT_MASK ==> Payload(w) == w
  {}

  /** A run of ones leaves a word alone, a run of zeros clears it. */
  lemma AndRun(w: Word, v: bool)
    ensures AndsTo(if v then w else 0, w, FullWord(v))
  {
    hide And, Payload;
    FullOperand(Payload(w));
    OwnPayload(w);
    OwnPayload(if v then COUNT_MASK else 0);
  }

  lemma AndLiteral(w: Word, x: Word)
    requires x <= COUNT_MASK
    ensures AndsTo(AndWord(w, x), w, x)
  {
    hide And;
    AndLow(w, x);
  }

  lemma AndLow(w: Word, x: Word)
    requires x <= COUNT_MASK
    ensures And(w, x) == And(Payload(w), x)
  {
    hide And, Pow2;
    Pow2Values();
    AndSplit(w % RADIX, w / RADIX, x, 0, 14);
    AndZeroLeft(w / RADIX);
    AndZeroRight(w / RADIX);
  }

  lemma AndZeroRight(h: nat)
    ensures And(h, 0) == 0
  {}

  /** A run of ones sets a word, a run of zeros leaves it alone. */
  lemma OrRun(w: Word, v: bool)
    ensures OrsTo(if v then COUNT_MASK else w, w, FullWord(v))
  {
    hide Or, Payload;
    FullOperand(Payload(w));
    OwnPayload(w);
    OwnPayload(if v then COUNT_MASK else 0);
  }

  lemma OrLiteral(w: Word, x: Word)
    requires x <= COUNT_MASK
    ensures OrsTo(OrWord(w, x), w, x)
  {
    hide Or, Pow2;
    Pow2Values();
    OrSplit(w % RADIX, w / RADIX, x, 0, 14);
    OrZero();
    OrBound(w % RADIX, x, 14);
    DivUnique(Or(w, x), RADIX, w / RADIX, Or(w % RADIX, x));
  }

  /** Positions are in the payload. */
  lemma TestPayload(ws: seq<Word>, i: nat)
    requires i / VALUE_SIZE < |ws|
    ensures Test(ws, i) <==> Bit(Payload(ws[i / VALUE_SIZE]), i % VALUE_SIZE)
  {
    hide Pow2, And, Bit;
    var w := ws[i / VALUE_SIZE];
    Pow2Values();
    CountMask(w);
    BitAnd(w, COUNT_MASK, i % VALUE_SIZE);
    ZeroHasNoBits(i % VALUE_SIZE);
    BitFlip(0, 14, i % VALUE_SIZE);
  }

  lemma TestAnds(r: seq<Word>, w: seq<Word>, x: seq<Word>, i: nat)
    requires |r| == |w| == |x| && i / VALUE_SIZE < |r| && Plain(x)
    requires forall j :: 0 <= j < |r| ==> AndsTo(r[j], w[j], x[j])
    ensures Test(r, i) <==> Test(w, i) && Test(x, i)
  {
    hide Test, And, Bit;
    TestPayload(r, i);
    TestPayload(w, i);
    TestPayload(x, i);
    BitAnd(Payload(w[i / VALUE_SIZE]), x[i / VALUE_SIZE], i % VALUE_SIZE);
  }

  lemma TestOrs(r: seq<Word>, w: seq<Word>, x: seq<Word>, i: nat)
    requires |r| == |w| == |x| && i / VALUE_SIZE < |r| && Plain(x)
    requires forall j :: 0 <= j < |r| ==> OrsTo(r[j], w[j], x[j])
    ensures Test(r, i) <==> Test(w, i) || Test(x, i)
  {
    hide Test, Or, Bit;
    TestPayload(r, i);
    TestPayload(w, i);
    TestPayload(x, i);
    BitOr(Payload(w[i / VALUE_SIZE]), x[i / VALUE_SIZE], i % VALUE_SIZE);
  }

  /** Some word has a bit in common, be it a position or a tag bit. */
  ghost predicate Crosses(a: seq<Word>, b: seq<Word>) {
    exists i :: 0 <= i < |a| && i < |b| && And(a[i], b[i]) != 0
  }

  lemma {:induction false} AndWitness(a: nat, b: nat, k: nat) returns (x: nat)
    requires And(a, b) != 0 && a < Pow2(k)
    ensures x < k && Bit(a, x) && Bit(b, x)
  {
    if a % 2 == 1 && b % 2 == 1 {
      x := 0;
    } else {
      x := AndWitness(a / 2, b / 2, k - 1);
      x := x + 1;
    }
  }

  lemma {:induction false} AndSym(a: nat, b: nat)
    ensures And(a, b) == And(b, a)
  {
    if a > 0 && b > 0 { AndSym(a / 2, b / 2); }
  }

  /** If one side has no tag bits, that is a position set in both, among those that both have. */
  lemma CrossesMeans(a: seq<Word>, b: seq<Word>)
    requires Plain(a) || Plain(b)
    ensures Crosses(a, b) <==>
      exists p :: 0 <= p < VALUE_SIZE * |a| && p < VALUE_SIZE * |b| && Test(a, p) && Test(b, p)
  {
    hide And;
    if Crosses(a, b) {
      var i :| 0 <= i < |a| && i < |b| && And(a[i], b[i]) != 0;
      Pow2Values();
      AndSym(a[i], b[i]);
      var x;
      if Plain(a) { x := AndWitness(a[i], b[i], 14); } else { x := AndWitness(b[i], a[i], 14); }
      var p := VALUE_SIZE * i + x;
      assert p / VALUE_SIZE == i && p % VALUE_SIZE == x;
      assert Test(a, p) && Test(b, p);
    }
    if p :| 0 <= p < VALUE_SIZE * |a| && p < VALUE_SIZE * |b| && Test(a, p) && Test(b, p) {
      var i := p / VALUE_SIZE;
      BitAnd(a[i], b[i], p % VALUE_SIZE);
      ZeroHasNoBits(p % VALUE_SIZE);
    }
  }

  lemma AndZeroLeft(x: nat)
    ensures And(0, x) == 0
  {}

  lemma FullOperand(w: Word)
    requires w <= COUNT_MASK
    ensures And(w, COUNT_MASK) == w && Or(w, COUNT_MASK) == COUNT_MASK
    ensures And(w, 0) == 0 && Or(w, 0) == w
  {
    Pow2Values();
    AndAllOnes(w, 14);
    OrAllOnes(w, 14);
  }

  // ----- four words seen as one little-endian 64-bit integer -----

  const U64_DIV_BASE := 4
  const U64_VALUE_SIZE := 56
  function Join(w0: Word, w1: Word, w2: Word, w3: Word): (x: nat)
    ensures x < U64_LIMIT
  {
    w0 + WORD_LIMIT * (w1 + WORD_LIMIT * (w2 + WORD_LIMIT * w3))
  }

  lemma LaneJoin(w0: Word, w1: Word, w2: Word, w3: Word)
    ensures var x := Join(w0, w1, w2, w3);
      && x % WORD_LIMIT == w0
      && x / WORD_LIMIT % WORD_LIMIT == w1
      && x / WORD_LIMIT / WORD_LIMIT % WORD_LIMIT == w2
      && x / WORD_LIMIT / WORD_LIMIT / WORD_LIMIT == w3
  {
    var x := Join(w0, w1, w2, w3);
    var x1 := w1 + WORD_LIMIT * (w2 + WORD_LIMIT * w3);
    var x2 := w2 + WORD_LIMIT * w3;
    assert x / WORD_LIMIT == x1 && x1 / WORD_LIMIT == x2 && x2 / WORD_LIMIT == w3;
  }

  lemma AndLane(a: Word, b: nat, c: Word, d: nat)
    ensures And(a + WORD_LIMIT * b, c + WORD_LIMIT * d) == And(a, c) + WORD_LIMIT * And(b, d)
  {
    hide And, Pow2;
    Pow2Values();
    AndSplit(a, b, c, d, 16);
  }

  lemma AndJoin(a0: Word, a1: Word, a2: Word, a3: Word, b0: Word, b1: Word, b2: Word, b3: Word)
    ensures And(Join(a0, a1, a2, a3), Join(b0, b1, b2, b3))
         == Join(AndWord(a0, b0), AndWord(a1, b1), AndWord(a2, b2), AndWord(a3, b3))
  {
    hide And, AndWord;
    AndLane(a2, a3, b2, b3);
    AndLane(a1, a2 + WORD_LIMIT * a3, b1, b2 + WORD_LIMIT * b3);
    AndLane(a0, a1 + WORD_LIMIT * (a2 + WORD_LIMIT * a3), b0, b1 + WORD_LIMIT * (b2 + WORD_LIMIT * b3));
  }

  lemma OrLane(a: Word, b: nat, c: Word, d: nat)
    ensures Or(a + WORD_LIMIT * b, c + WORD_LIMIT * d) == Or(a, c) + WORD_LIMIT * Or(b, d)
  {
    hide Or, Pow2;
    Pow2Values();
    OrSplit(a, b, c, d, 16);
  }

  lemma OrJoin(a0: Word, a1: Word, a2: Word, a3: Word, b0: Word, b1: Word, b2: Word, b3: Word)
    ensures Or(Join(a0, a1, a2, a3), Join(b0, b1, b2, b3))
         == Join(OrWord(a0, b0), OrWord(a1, b1), OrWord(a2, b2), OrWord(a3, b3))
  {
    hide Or, OrWord;
    OrLane(a2, a3, b2, b3);
    OrLane(a1, a2 + WORD_LIMIT * a3, b1, b2 + WORD_LIMIT * b3);
    OrLane(a0, a1 + WORD_LIMIT * (a2 + WORD_LIMIT * a3), b0, b1 + WORD_LIMIT * (b2 + WORD_LIMIT * b3));
  }

  lemma NotJoin(w0: Word, w1: Word, w2: Word, w3: Word)
    ensures U64_LIMIT - 1 - Join(w0, w1, w2, w3)
         == Join(WORD_LIMIT - 1 - w0, WORD_LIMIT - 1 - w1, WORD_LIMIT - 1 - w2, WORD_LIMIT - 1 - w3)
  {}

  lemma PopCountLane(a: Word, b: nat)
    ensures PopCount(a + WORD_LIMIT * b) == PopCount(a) + PopCount(b)
  {
    hide PopCount, Pow2;
    Pow2Values();
    PopCountSplit(a, b, 16);
  }

  lemma PopCountJoin(w0: Word, w1: Word, w2: Word, w3: Word)
    ensures PopCount(Join(w0, w1, w2, w3)) == PopCount(w0) + PopCount(w1) + PopCount(w2) + PopCount(w3)
  {
    hide PopCount;
    PopCountLane(w2, w3);
    PopCountLane(w1, w2 + WORD_LIMIT * w3);
    PopCountLane(w0, w1 + WORD_LIMIT * (w2 + WORD_LIMIT * w3));
  }
}
