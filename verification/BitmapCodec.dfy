/**
 The compressed form of a bitmap (Helens/ds/bitmap.h, Helens/ds/bitmap.cc).

 A word has 16 bits: 14 payload bits, a value bit and a tag bit. An untagged word
 stands for its own payload. A maximal stretch of tagged words with the same value bit
 is a run; its payloads are the base-2^14 digits, lowest first, of the number of bits
 in the run.
 */
module BitmapCodec {
  import opened Arith
  import opened Bits

  const VALUE_SIZE := 14
  const COMPRESS_MASK := 0x8000
  const VALUE_MASK := 0x4000
  const COUNT_MASK := 0x3FFF
  const WORD_LIMIT := 0x1_0000
  const RADIX := 0x4000
  const U32_LIMIT := 0x1_0000_0000

  type Word = w: nat | w < 0x1_0000

  predicate Tagged(w: Word) { w >= COMPRESS_MASK }

  predicate Value(w: Word) { w % COMPRESS_MASK >= VALUE_MASK }

  function Payload(w: Word): (r: Word)
    ensures r <= COUNT_MASK
  {
    w % RADIX
  }

  function RunWord(v: bool, digit: nat): Word
    requires digit < RADIX
  {
    COMPRESS_MASK + (if v then VALUE_MASK else 0) + digit
  }

  function FullWord(v: bool): Word { if v then COUNT_MASK else 0 }

  // ----- runs and their digits -----

  /** The number a sequence of words spells in base 2^14, lowest digit first. */
  function DigitValue(s: seq<Word>): nat {
    if s == [] then 0 else Payload(s[0]) + RADIX * DigitValue(s[1..])
  }

  /** What the compressor writes for a count: digits until the count is used up. */
  function Digits(v: bool, count: nat): (r: seq<Word>)
    ensures forall i :: 0 <= i < |r| ==> Tagged(r[i]) && Value(r[i]) == v
    ensures DigitValue(r) == count
    ensures count > 0 ==> |r| > 0
  {
    if count == 0 then []
    else
      var w := RunWord(v, count % RADIX);
      assert Payload(w) == count % RADIX;
      [w] + Digits(v, count / RADIX)
  }

  /** Whether the decoder would merge word `b` into a run that ends with word `a`. */
  predicate SameRun(a: Word, b: Word) {
    Tagged(a) && Tagged(b) && Value(a) == Value(b)
  }

  /** How many words the run at the head of `s` takes up. */
  function RunLength(s: seq<Word>): (k: nat)
    requires s != [] && Tagged(s[0])
    ensures 1 <= k <= |s|
    ensures forall i :: 0 <= i < k ==> Tagged(s[i]) && Value(s[i]) == Value(s[0])
    ensures k < |s| ==> !SameRun(s[0], s[k])
  {
    if |s| > 1 && SameRun(s[0], s[1]) then 1 + RunLength(s[1..]) else 1
  }

  lemma RunLengthUnique(s: seq<Word>, k: nat)
    requires s != [] && Tagged(s[0]) && 1 <= k <= |s|
    requires forall i :: 0 <= i < k ==> Tagged(s[i]) && Value(s[i]) == Value(s[0])
    requires k < |s| ==> !SameRun(s[0], s[k])
    ensures RunLength(s) == k
  {
    var r := RunLength(s);
    assert r < |s| ==> !SameRun(s[0], s[r]);
  }

  function Fill(v: bool, n: nat): (r: seq<Word>)
    ensures |r| == n
    ensures forall i :: 0 <= i < n ==> r[i] == FullWord(v)
  {
    seq(n, _ => FullWord(v))
  }

  // ----- the decoder, as a function on words -----

  /** The plain words that a compressed sequence stands for. */
  function Decode(s: seq<Word>): seq<Word>
    decreases |s|
  {
    if s == [] then []
    else if Tagged(s[0]) then
      var k := RunLength(s);
      Fill(Value(s[0]), DigitValue(s[..k]) / VALUE_SIZE) + Decode(s[k..])
    else
      [Payload(s[0])] + Decode(s[1..])
  }

  /**
   What the decoder relies on: every run has at most three digits, spells a 32-bit count
   and covers whole words.
   */
  predicate WellFormed(s: seq<Word>)
    decreases |s|
  {
    if s == [] then true
    else if Tagged(s[0]) then
      var k := RunLength(s);
      GoodRun(s[..k]) && WellFormed(s[k..])
    else
      WellFormed(s[1..])
  }

  predicate GoodRun(run: seq<Word>) {
    |run| <= 3 && DigitValue(run) < U32_LIMIT && DigitValue(run) % VALUE_SIZE == 0
  }

  /** No tag bits: a plain, uncompressed word sequence. */
  predicate Plain(s: seq<Word>) {
    forall i :: 0 <= i < |s| ==> s[i] <= COUNT_MASK
  }

  lemma PlainSnoc(s: seq<Word>, w: Word)
    ensures Plain(s + [w]) <==> Plain(s) && w <= COUNT_MASK
  {
    var t := s + [w];
    assert t[|s|] == w;
    assert forall i :: 0 <= i < |s| ==> t[i] == s[i];
  }

  // ----- words that may carry tag bits before they are compressed -----

  function Payloads(ws: seq<Word>): (r: seq<Word>)
    ensures |r| == |ws| && forall i :: 0 <= i < |ws| ==> r[i] == Payload(ws[i])
  {
    seq(|ws|, i requires 0 <= i < |ws| => Payload(ws[i]))
  }

  /** All payload bits are the same: the compressor counts such a word, whatever its tag bits. */
  predicate Uniform(w: Word) { Payload(w) == 0 || Payload(w) == COUNT_MASK }

  /** A word that the compressor writes as it is. */
  predicate Mixed(w: Word) { !Uniform(w) }

  /** No word that is written as it is would be read as part of a run. */
  ghost predicate Readable(ws: seq<Word>) {
    forall i :: 0 <= i < |ws| && Mixed(ws[i]) ==> !Tagged(ws[i])
  }

  /** Nor has it any tag bit. */
  ghost predicate MixedClean(ws: seq<Word>) {
    forall i :: 0 <= i < |ws| && Mixed(ws[i]) ==> ws[i] <= COUNT_MASK
  }

  /** How many mixed words are literals. */
  function Literals(ws: seq<Word>): nat {
    if ws == [] then 0 else (if Mixed(ws[0]) && !Tagged(ws[0]) then 1 else 0) + Literals(ws[1..])
  }

  lemma {:induction false} LiteralsAppend(a: seq<Word>, b: seq<Word>)
    ensures Literals(a + b) == Literals(a) + Literals(b)
  {
    hide Mixed;
    if a == [] {
      assert a + b == b;
    } else {
      assert (a + b)[1..] == a[1..] + b;
      LiteralsAppend(a[1..], b);
    }
  }

  lemma {:induction false} NoLiterals(s: seq<Word>)
    requires forall i :: 0 <= i < |s| ==> Tagged(s[i]) || Uniform(s[i])
    ensures Literals(s) == 0
  {
    if s != [] { NoLiterals(s[1..]); }
  }

  /** Decoding yields as many mixed words as there are mixed literals: runs yield none. */
  lemma {:induction false} DecodedLiterals(s: seq<Word>)
    ensures Literals(Decode(s)) == Literals(s)
    decreases |s|
  {
    hide Uniform, DigitValue;
    if s == [] {
    } else if Tagged(s[0]) {
      var k := RunLength(s);
      var f := Fill(Value(s[0]), DigitValue(s[..k]) / VALUE_SIZE);
      DecodedLiterals(s[k..]);
      FillUniform(Value(s[0]));
      NoLiterals(f);
      NoLiterals(s[..k]);
      assert s == s[..k] + s[k..];
      LiteralsAppend(s[..k], s[k..]);
      LiteralsAppend(f, Decode(s[k..]));
    } else {
      DecodedLiterals(s[1..]);
      PayloadMixed(s[0]);
      LiteralsAppend([Payload(s[0])], Decode(s[1..]));
      assert [Payload(s[0])][1..] == [];
    }
  }

  lemma FillUniform(v: bool)
    ensures Uniform(FullWord(v))
  {}

  lemma PayloadMixed(w: Word)
    ensures Mixed(Payload(w)) == Mixed(w) && !Tagged(Payload(w))
  {}

  /** Cutting the tag bits off makes literals of the mixed words that were none. */
  lemma {:induction false} LiteralsExact(ws: seq<Word>)
    ensures Literals(ws) <= Literals(Payloads(ws))
    ensures Literals(ws) == Literals(Payloads(ws)) <==> Readable(ws)
  {
    hide Mixed;
    if ws != [] {
      var rest := ws[1..];
      LiteralsExact(rest);
      PayloadMixed(ws[0]);
      assert Payloads(ws)[1..] == Payloads(rest);
      assert forall i :: 0 <= i < |rest| ==> rest[i] == ws[i + 1];
      assert Readable(ws) <==> Readable(rest) && (Mixed(ws[0]) ==> !Tagged(ws[0])) by { ReadableCons(ws); }
    }
  }

  lemma ReadableCons(ws: seq<Word>)
    requires ws != []
    ensures Readable(ws) <==> Readable(ws[1..]) && (Mixed(ws[0]) ==> !Tagged(ws[0]))
  {
    hide Mixed;
    var rest := ws[1..];
    if Readable(rest) && (Mixed(ws[0]) ==> !Tagged(ws[0])) {
      forall i | 0 <= i < |ws| && Mixed(ws[i]) ensures !Tagged(ws[i]) {
        if i > 0 { assert ws[i] == rest[i - 1]; }
      }
    }
    if Readable(ws) {
      forall i | 0 <= i < |rest| && Mixed(rest[i]) ensures !Tagged(rest[i]) { assert rest[i] == ws[i + 1]; }
    }
  }

  lemma ReadableSnoc(ws: seq<Word>, w: Word)
    ensures Readable(ws + [w]) <==> Readable(ws) && (Mixed(w) ==> !Tagged(w))
    ensures MixedClean(ws + [w]) <==> MixedClean(ws) && (Mixed(w) ==> w <= COUNT_MASK)
    ensures Payloads(ws + [w]) == Payloads(ws) + [Payload(w)]
    ensures Literals(ws + [w]) == Literals(ws) + if Mixed(w) && !Tagged(w) then 1 else 0
  {
    hide Mixed;
    var t := ws + [w];
    assert t[|ws|] == w;
    assert forall i :: 0 <= i < |ws| ==> t[i] == ws[i];
    LiteralsAppend(ws, [w]);
    assert [w][1..] == [];
  }

  /** Clean words are their payloads, and mix nothing up. */
  lemma CleanPayloads(ws: seq<Word>)
    ensures Plain(ws) <==> Payloads(ws) == ws
    ensures Plain(ws) ==> Readable(ws) && MixedClean(ws)
  {
    if Payloads(ws) == ws {
      forall i | 0 <= i < |ws| ensures ws[i] <= COUNT_MASK { assert ws[i] == Payload(ws[i]); }
    }
  }

  lemma {:induction false} DecodeIsPlain(s: seq<Word>)
    ensures Plain(Decode(s))
    decreases |s|
  {
    if s == [] {
    } else if Tagged(s[0]) {
      DecodeIsPlain(s[RunLength(s)..]);
    } else {
      DecodeIsPlain(s[1..]);
    }
  }

  /** Two pieces may be decoded separately unless a run straddles the seam. */
  ghost predicate Seam(a: seq<Word>, b: seq<Word>) {
    a == [] || b == [] || !SameRun(a[|a| - 1], b[0])
  }

  /** All words of `run` belong to one run. */
  ghost predicate IsRun(run: seq<Word>) {
    run != [] && forall i :: 0 <= i < |run| ==> Tagged(run[i]) && Value(run[i]) == Value(run[0])
  }

  lemma DecodeRunHead(run: seq<Word>, rest: seq<Word>)
    requires IsRun(run) && Seam(run, rest)
    ensures Decode(run + rest) == Fill(Value(run[0]), DigitValue(run) / VALUE_SIZE) + Decode(rest)
    ensures WellFormed(run + rest) <==> GoodRun(run) && WellFormed(rest)
  {
    var s := run + rest;
    RunLengthUnique(s, |run|);
    assert s[..|run|] == run;
    assert s[|run|..] == rest;
  }

  lemma DecodeLiteralHead(w: Word, rest: seq<Word>)
    requires !Tagged(w)
    ensures Decode([w] + rest) == [Payload(w)] + Decode(rest)
    ensures WellFormed([w] + rest) <==> WellFormed(rest)
  {
    assert ([w] + rest)[1..] == rest;
  }

  /** A non-empty sequence is a first run or a first literal, and the rest. */
  lemma SplitHead(s: seq<Word>) returns (head: seq<Word>, rest: seq<Word>)
    requires s != []
    ensures s == head + rest && head != [] && |rest| < |s|
    ensures if Tagged(s[0]) then IsRun(head) && Seam(head, rest) else head == [s[0]]
  {
    var k := if Tagged(s[0]) then RunLength(s) else 1;
    head, rest := s[..k], s[k..];
  }

  lemma {:induction false} DecodeAppend(a: seq<Word>, b: seq<Word>)
    requires Seam(a, b)
    ensures Decode(a + b) == Decode(a) + Decode(b)
    ensures WellFormed(a + b) <==> WellFormed(a) && WellFormed(b)
    decreases |a|
  {
    if a == [] {
      assert a + b == b;
    } else {
      var head, rest := SplitHead(a);
      assert a + b == head + (rest + b);
      assert Seam(rest, b);
      DecodeAppend(rest, b);
      DecodeHead(head, rest);
      assert Tagged(a[0]) ==> Seam(head, rest + b);
      DecodeHead(head, rest + b);
      ConcatAssoc(Decode(head), Decode(rest), Decode(b));
    }
  }

  lemma ConcatAssoc(a: seq<Word>, b: seq<Word>, c: seq<Word>)
    ensures a + b + c == a + (b + c)
  {}

  /** A first run or literal decodes independently of what follows it. */
  lemma DecodeHead(head: seq<Word>, rest: seq<Word>)
    requires head != []
    requires if Tagged(head[0]) then IsRun(head) && Seam(head, rest) else |head| == 1
    ensures Decode(head + rest) == Decode(head) + Decode(rest)
    ensures WellFormed(head + rest) <==> WellFormed(head) && WellFormed(rest)
  {
    assert head + [] == head;
    if Tagged(head[0]) {
      DecodeRunHead(head, rest);
      DecodeRunHead(head, []);
    } else {
      assert head == [head[0]];
      DecodeLiteralHead(head[0], rest);
      DecodeLiteralHead(head[0], []);
    }
  }

  /** One run decodes to its value, repeated. */
  lemma DecodeRun(v: bool, count: nat)
    requires count > 0
    ensures Decode(Digits(v, count)) == Fill(v, count / VALUE_SIZE)
    ensures WellFormed(Digits(v, count)) <==> GoodRun(Digits(v, count))
  {
    var d := Digits(v, count);
    RunLengthUnique(d, |d|);
    assert d[..|d|] == d;
    assert d[|d|..] == [];
    assert Decode([]) == [];
  }

  lemma {:induction false} DigitCount(v: bool, count: nat)
    requires count >= VALUE_SIZE
    ensures VALUE_SIZE * |Digits(v, count)| <= count
  {
    if count / RADIX >= VALUE_SIZE {
      DigitCount(v, count / RADIX);
    } else {
      assert |Digits(v, count / RADIX)| <= 1;
    }
  }

  lemma DigitCount32(v: bool, count: nat)
    requires count < U32_LIMIT
    ensures |Digits(v, count)| <= 3
  {
    assert count / RADIX / RADIX / RADIX == 0;
    assert |Digits(v, count / RADIX / RADIX / RADIX)| == 0;
    assert |Digits(v, count / RADIX / RADIX)| <= 1;
    assert |Digits(v, count / RADIX)| <= 2;
  }

  // ----- building a count digit by digit, as the decoders do -----

  function Shl32(x: nat, k: nat): nat
    requires k < 32
  {
    (x * Pow2(k)) % U32_LIMIT
  }

  lemma OneDigit(d: Word)
    ensures DigitValue([d]) == Payload(d)
  {
    assert [d][1..] == [];
  }

  /** Appending a digit adds it at its own weight. */
  lemma {:induction false} DigitValueSnoc(s: seq<Word>, d: Word)
    ensures DigitValue(s + [d]) == DigitValue(s) + Pow2(VALUE_SIZE * |s|) * Payload(d)
    ensures DigitValue(s) < Pow2(VALUE_SIZE * |s|)
  {
    if s == [] {
      assert s + [d] == [d];
      assert [d][1..] == [];
    } else {
      var t := s[1..];
      assert (s + [d])[1..] == t + [d];
      DigitValueSnoc(t, d);
      Pow2Shift(VALUE_SIZE * |t|);
      assert VALUE_SIZE * |s| == VALUE_SIZE * |t| + 14;
      ScaleDigit(Pow2(VALUE_SIZE * |t|), Payload(d));
    }
  }

  lemma ScaleDigit(p: nat, x: nat)
    ensures RADIX * (p * x) == (RADIX * p) * x
  {}

  lemma Pow2Shift(k: nat)
    ensures Pow2(k + 14) == RADIX * Pow2(k)
  {
    Pow2Add(k, 14);
    Pow2Values();
  }

  /** The decoders' shift-and-or step computes the next digit value, given it fits 32 bits. */
  lemma ShiftOrDigit(s: seq<Word>, d: Word)
    requires VALUE_SIZE * |s| < 32 && DigitValue(s + [d]) < U32_LIMIT
    ensures Or(Shl32(Payload(d), VALUE_SIZE * |s|), DigitValue(s)) == DigitValue(s + [d])
  {
    DigitValueSnoc(s, d);
    ShiftOr(Payload(d), DigitValue(s), VALUE_SIZE * |s|);
  }

  lemma ShiftFits(x: nat, p: nat)
    requires p * x < U32_LIMIT
    ensures (x * p) % U32_LIMIT == p * x
  {
    SmallMod(p * x, U32_LIMIT);
  }

  lemma ShiftOr(x: nat, low: nat, k: nat)
    requires k < 32 && low < Pow2(k) && low + Pow2(k) * x < U32_LIMIT
    ensures Or(Shl32(x, k), low) == low + Pow2(k) * x
  {
    hide Or, Pow2;
    OrZero();
    var p := Pow2(k);
    assert Shl32(x, k) == p * x by { ShiftFits(x, p); }
    OrSplit(0, x, low, 0, k);
    assert Or(p * x, low) == Or(0, low) + p * Or(x, 0);
  }

  /** A prefix of a good run stays within the 32-bit count. */
  lemma {:induction false} DigitValuePrefix(s: seq<Word>, k: nat)
    requires k <= |s|
    ensures DigitValue(s[..k]) <= DigitValue(s)
  {
    if k > 0 {
      assert s[..k][1..] == s[1..][..k - 1];
      DigitValuePrefix(s[1..], k - 1);
    }
  }

  // ----- complementing the compressed form -----

  /** The word-by-word complement of a compressed word. */
  function FlipWord(w: Word): (r: Word)
    ensures Tagged(r) == Tagged(w)
    ensures Tagged(w) ==> Value(r) != Value(w) && Payload(r) == Payload(w)
    ensures !Tagged(w) ==> r == COUNT_MASK - Payload(w) && Payload(r) == r
  {
    if Tagged(w) then (if Value(w) then w - VALUE_MASK else w + VALUE_MASK)
    else (WORD_LIMIT - 1 - w) % RADIX
  }

  function MapFlip(s: seq<Word>): (r: seq<Word>)
    ensures |r| == |s| && forall i :: 0 <= i < |s| ==> r[i] == FlipWord(s[i])
  {
    seq(|s|, i requires 0 <= i < |s| => FlipWord(s[i]))
  }

  /** The complement of the 14 payload bits of every word. */
  function MapNot(s: seq<Word>): (r: seq<Word>)
    ensures |r| == |s| && forall i :: 0 <= i < |s| ==> r[i] == COUNT_MASK - Payload(s[i])
  {
    seq(|s|, i requires 0 <= i < |s| => COUNT_MASK - Payload(s[i]))
  }

  lemma {:induction false} FlipKeepsDigits(s: seq<Word>)
    requires forall i :: 0 <= i < |s| ==> Tagged(s[i])
    ensures DigitValue(MapFlip(s)) == DigitValue(s)
  {
    if s != [] {
      assert MapFlip(s)[1..] == MapFlip(s[1..]);
      FlipKeepsDigits(s[1..]);
    }
  }

  /** Complementing the compressed words complements the words they stand for. */
  lemma {:induction false} DecodeFlip(s: seq<Word>)
    ensures Decode(MapFlip(s)) == MapNot(Decode(s))
    ensures WellFormed(MapFlip(s)) <==> WellFormed(s)
    decreases |s|
  {
    if s != [] {
      var head, rest := SplitHead(s);
      MapAppend(head, rest);
      DecodeFlip(rest);
      DecodeHead(head, rest);
      DecodeFlipHead(head, rest);
      DecodeHead(MapFlip(head), MapFlip(rest));
      MapAppend(Decode(head), Decode(rest));
    }
  }

  lemma MapAppend(a: seq<Word>, b: seq<Word>)
    ensures MapFlip(a + b) == MapFlip(a) + MapFlip(b)
    ensures MapNot(a + b) == MapNot(a) + MapNot(b)
  {}

  lemma DecodeEmpty()
    ensures Decode([]) == [] && WellFormed([])
  {}

  lemma DecodeLiteral(w: Word)
    requires w <= COUNT_MASK
    ensures Decode([w]) == [w] && WellFormed([w])
  {
    hide Decode, WellFormed;
    DecodeLiteralHead(w, []);
    DecodeEmpty();
    assert [w] + [] == [w];
  }

  lemma DecodeFlipHead(head: seq<Word>, rest: seq<Word>)
    requires head != []
    requires if Tagged(head[0]) then IsRun(head) && Seam(head, rest) else |head| == 1
    ensures var f := MapFlip(head);
      Tagged(f[0]) == Tagged(head[0]) &&
      if Tagged(f[0]) then IsRun(f) && Seam(f, MapFlip(rest)) else |f| == 1
    ensures Decode(MapFlip(head)) == MapNot(Decode(head))
    ensures WellFormed(MapFlip(head)) <==> WellFormed(head)
  {
    hide Decode, WellFormed, FlipWord, DigitValue;
    DecodeEmpty();
    var f := MapFlip(head);
    assert head + [] == head && f + [] == f;
    if Tagged(head[0]) {
      FlipKeepsDigits(head);
      DecodeRunHead(head, []);
      DecodeRunHead(f, []);
    } else {
      assert head == [head[0]] && f == [f[0]];
      DecodeLiteralHead(head[0], []);
      DecodeLiteralHead(f[0], []);
    }
  }

  // ----- a decoder's position in the compressed words -----

  /** The words from `i` on decode to the plain words from `n` on. */
  ghost predicate At(s: seq<Word>, i: nat, n: nat, ws: seq<Word>) {
    i <= |s| && n <= |ws| && WellFormed(s[i..]) && ws[n..] == Decode(s[i..])
  }

  /** The bits the run at `i` covers. */
  ghost function RunCount(s: seq<Word>, i: nat): nat
    requires i < |s| && Tagged(s[i])
  {
    DigitValue(s[i..][..RunLength(s[i..])])
  }

  lemma AtRun(s: seq<Word>, i: nat, n: nat, ws: seq<Word>)
    requires At(s, i, n, ws) && i < |s| && Tagged(s[i])
    ensures var k, c := RunLength(s[i..]), RunCount(s, i);
      && GoodRun(s[i..][..k])
      && i + k <= |s| && n + c / VALUE_SIZE <= |ws|
      && (forall j :: n <= j < n + c / VALUE_SIZE ==> ws[j] == FullWord(Value(s[i])))
      && At(s, i + k, n + c / VALUE_SIZE, ws)
  {
    hide DigitValue, GoodRun, RunLength;
    var t := s[i..];
    var k, c := RunLength(t), RunCount(s, i);
    var m := c / VALUE_SIZE;
    assert s[i + k..] == t[k..];
    assert ws[n..] == Fill(Value(s[i]), m) + Decode(t[k..]);
    assert ws[n + m..] == ws[n..][m..];
    forall j | n <= j < n + m ensures ws[j] == FullWord(Value(s[i])) {
      assert ws[j] == ws[n..][j - n];
    }
  }

  lemma GoodRunWords(s: seq<Word>, i: nat)
    requires i < |s| && Tagged(s[i]) && GoodRun(s[i..][..RunLength(s[i..])])
    ensures RunCount(s, i) % VALUE_SIZE == 0
  {}

  lemma AtLiteral(s: seq<Word>, i: nat, n: nat, ws: seq<Word>)
    requires At(s, i, n, ws) && i < |s| && !Tagged(s[i])
    ensures n < |ws| && ws[n] == Payload(s[i]) && At(s, i + 1, n + 1, ws)
  {
    var t := s[i..];
    assert s[i + 1..] == t[1..];
    assert ws[n..] == [Payload(s[i])] + Decode(t[1..]);
    assert ws[n + 1..] == ws[n..][1..];
    assert ws[n] == ws[n..][0];
  }

  lemma AtEnd(s: seq<Word>, n: nat, ws: seq<Word>)
    requires At(s, |s|, n, ws)
    ensures n == |ws|
  {
    assert s[|s|..] == [];
    assert ws[n..] == [];
  }

  lemma AtStart(s: seq<Word>)
    requires WellFormed(s)
    ensures At(s, 0, 0, Decode(s))
  {
    assert s[0..] == s && Decode(s)[0..] == Decode(s);
  }

  lemma RunReaches(t: seq<Word>, n: nat)
    requires n < |t| && forall i :: 0 <= i <= n ==> Tagged(t[i]) && Value(t[i]) == Value(t[0])
    ensures n < RunLength(t)
  {
    var k := RunLength(t);
    assert k < |t| ==> !SameRun(t[0], t[k]);
  }

  lemma DigitOfRun(run: seq<Word>, n: nat)
    requires GoodRun(run) && 1 <= n < |run|
    ensures VALUE_SIZE * n < 32
    ensures Or(Shl32(Payload(run[n]), VALUE_SIZE * n), DigitValue(run[..n])) == DigitValue(run[..n + 1])
  {
    hide Or, Shl32, DigitValue;
    assert run[..n + 1] == run[..n] + [run[n]];
    DigitValuePrefix(run, n + 1);
    ShiftOrDigit(run[..n], run[n]);
  }

  /** While the merge loop finds another digit, the run has one, and the count has room for it. */
  lemma NextDigit(t: seq<Word>, n: nat)
    requires t != [] && Tagged(t[0]) && GoodRun(t[..RunLength(t)])
    requires 1 <= n < |t| && forall i :: 0 <= i <= n ==> Tagged(t[i]) && Value(t[i]) == Value(t[0])
    ensures VALUE_SIZE * n < 32
    ensures Or(Shl32(Payload(t[n]), VALUE_SIZE * n), DigitValue(t[..n])) == DigitValue(t[..n + 1])
  {
    hide Or, Shl32, DigitValue, GoodRun;
    RunReaches(t, n);
    var run := t[..RunLength(t)];
    assert run[n] == t[n] && run[..n] == t[..n] && run[..n + 1] == t[..n + 1];
    DigitOfRun(run, n);
  }

  // The mask tests and the mask itself, as the source writes them.

  lemma TagMask(w: Word)
    ensures And(w, COMPRESS_MASK) != 0 <==> Tagged(w)
  {
    hide And, Bit, Pow2;
    Pow2Values();
    MaskTest(w, 15);
    BitHigh(w, 15);
  }

  lemma ValueMask(w: Word)
    ensures And(w, VALUE_MASK) != 0 <==> Value(w)
  {
    hide And, Bit, Pow2;
    Pow2Values();
    MaskTest(w, 14);
    BitHigh(w, 14);
  }

  lemma CountMask(w: Word)
    ensures And(w, COUNT_MASK) == Payload(w)
  {
    Pow2Values();
    AndSplit(w % RADIX, w / RADIX, COUNT_MASK, 0, 14);
    AndAllOnes(w % RADIX, 14);
  }

  lemma Pow2Values()
    ensures Pow2(14) == RADIX && Pow2(15) == 0x8000 && Pow2(16) == WORD_LIMIT
  {
    assert Pow2(4) == 16;
    assert Pow2(8) == 256;
    assert Pow2(12) == 4096;
  }

  lemma {:induction false} BitHigh(w: nat, x: nat)
    ensures Bit(w, x) <==> (w / Pow2(x)) % 2 == 1
    decreases x
  {
    if x > 0 {
      BitHigh(w / 2, x - 1);
      assert w / Pow2(x) == (w / 2) / Pow2(x - 1) by { DivTwice(w, Pow2(x - 1)); }
    }
  }
}
