/**
 The compressor's progress, on values: what has been written, and the run of full or
 empty words that is still being counted (Helens/ds/bitmap.cc, `Bitmap::compress`).
 */
module BitmapCompress {
  import opened BitmapCodec
  import opened BitmapCount

  /**
   `out` has been written and `count` bits of value `v` are pending; together they stand
   for the payloads `ws` of the words read. A run digit of value `v` written next would not be merged into what
   is already there.
   */
  ghost predicate Pending(out: seq<Word>, v: bool, count: nat, ws: seq<Word>) {
    && count % VALUE_SIZE == 0
    && VALUE_SIZE * |ws| < U32_LIMIT
    && |out| + count / VALUE_SIZE <= |ws|
    && WellFormed(out)
    && (count > 0 ==> OpenFor(out, v))
    && Decode(out) + Fill(v, count / VALUE_SIZE) == ws
  }

  /** `out` does not end in a run of value `v`. */
  ghost predicate OpenFor(out: seq<Word>, v: bool) {
    out == [] || !Tagged(out[|out| - 1]) || Value(out[|out| - 1]) != v
  }

  /** `out` does not end in a run at all. */
  ghost predicate Closed(out: seq<Word>) {
    out == [] || !Tagged(out[|out| - 1])
  }

  /** The words written when the pending run ends. */
  function Flushed(v: bool, count: nat): seq<Word> {
    if count / VALUE_SIZE > 1 then Digits(v, count)
    else if count > 0 then [FullWord(v)]
    else []
  }

  lemma FlushedMeans(v: bool, count: nat)
    requires count % VALUE_SIZE == 0 && count < U32_LIMIT
    ensures Decode(Flushed(v, count)) == Fill(v, count / VALUE_SIZE)
    ensures WellFormed(Flushed(v, count))
    ensures |Flushed(v, count)| <= count / VALUE_SIZE
    ensures forall i :: 0 <= i < |Flushed(v, count)| ==>
      Tagged(Flushed(v, count)[i]) ==> Value(Flushed(v, count)[i]) == v
  {
    if count / VALUE_SIZE > 1 {
      DecodeRun(v, count);
      DigitCount(v, count);
      DigitCount32(v, count);
    } else if count > 0 {
      assert count == VALUE_SIZE;
      DecodeLiteralHead(FullWord(v), []);
      assert [FullWord(v)] + [] == [FullWord(v)];
      assert Decode([]) == [];
    }
  }

  /**
   Ending the pending run loses nothing, stays within the words consumed so far, and carries into a
   second digit somewhere iff there is a stretch of full words too long for one.
   */
  lemma FlushPending(out: seq<Word>, v: bool, count: nat, ws: seq<Word>)
    requires InStep(out, v, count, ws)
    ensures var next := out + Flushed(v, count);
      && WellFormed(next) && Decode(next) == ws && |next| <= |ws|
      && OpenFor(next, !v)
      && (NoCarry(next) <==> ShortRuns(ws))
  {
    hide Tally, NoCarry, ShortRuns;
    FlushTally(out, v, count, ws);
    FlushedMeans(v, count);
    var f := Flushed(v, count);
    assert count > 0 ==> f != [];
    DecodeAppend(out, f);
    if count == 0 { assert Fill(v, 0) == [] && f == []; assert out + f == out; }
  }

  lemma ExtendPending(out: seq<Word>, v: bool, count: nat, ws: seq<Word>)
    requires Pending(out, v, count, ws)
    requires VALUE_SIZE * (|ws| + 1) < U32_LIMIT
    requires count == 0 ==> OpenFor(out, v)
    ensures Pending(out, v, count + VALUE_SIZE, ws + [FullWord(v)])
  {
    var n := count / VALUE_SIZE;
    assert (count + VALUE_SIZE) / VALUE_SIZE == n + 1;
    assert Fill(v, n + 1) == Fill(v, n) + [FullWord(v)];
    ConcatAssoc(Decode(out), Fill(v, n), [FullWord(v)]);
  }

  /** Starting to count a new run after everything so far has been written. */
  lemma StartRun(out: seq<Word>, v: bool, ws: seq<Word>)
    requires WellFormed(out) && Decode(out) == ws && |out| <= |ws| && OpenFor(out, v)
    requires VALUE_SIZE * (|ws| + 1) < U32_LIMIT
    ensures Pending(out, v, VALUE_SIZE, ws + [FullWord(v)])
  {
    assert Fill(v, 1) == [FullWord(v)];
  }

  /** Writing a word that is neither empty nor full. */
  lemma WriteLiteral(out: seq<Word>, v: bool, w: Word, ws: seq<Word>)
    requires WellFormed(out) && Decode(out) == ws && |out| <= |ws|
    requires !Tagged(w) && VALUE_SIZE * (|ws| + 1) < U32_LIMIT
    ensures Pending(out + [w], v, 0, ws + [Payload(w)])
    ensures Closed(out + [w])
  {
    hide Decode, WellFormed;
    DecodeLiteralHead(w, []);
    DecodeEmpty();
    assert [w] + [] == [w] && [Payload(w)] + [] == [Payload(w)];
    DecodeAppend(out, [w]);
    assert Fill(v, 0) == [];
  }

  // ----- the turns of the loop -----

  /** The loop invariant of the compressor, on plain words. */
  ghost predicate InStep(out: seq<Word>, v: bool, count: nat, ws: seq<Word>) {
    Pending(out, v, count, ws) && (count == 0 ==> Closed(out)) && Tally(out, v, count / VALUE_SIZE, ws)
  }

  lemma NothingPending()
    ensures InStep([], false, 0, [])
  {
    assert Fill(false, 0) == [] && Decode([]) == [];
  }

  lemma TakeSame(out: seq<Word>, v: bool, count: nat, ws: seq<Word>)
    requires InStep(out, v, count, ws) && VALUE_SIZE * (|ws| + 1) < U32_LIMIT
    ensures InStep(out, v, count + VALUE_SIZE, ws + [FullWord(v)])
  {
    hide Decode, WellFormed, NoCarry, ShortRuns;
    ExtendPending(out, v, count, ws);
    var n, ws' := count / VALUE_SIZE, ws + [FullWord(v)];
    assert ws'[..|ws'| - (n + 1)] == ws[..|ws| - n];
  }

  lemma TakeOther(out: seq<Word>, v: bool, count: nat, cur: Word, ws: seq<Word>)
    requires InStep(out, v, count, ws) && VALUE_SIZE * (|ws| + 1) < U32_LIMIT
    requires Payload(cur) != FullWord(v)
    ensures var next := out + Flushed(v, count);
      && (Uniform(cur) ==> InStep(next, !v, VALUE_SIZE, ws + [Payload(cur)]))
      && (Mixed(cur) && !Tagged(cur) ==> InStep(next + [cur], v, 0, ws + [Payload(cur)]))
  {
    hide Decode, WellFormed, Pending, Flushed, ShortRuns;
    FlushPending(out, v, count, ws);
    var next := out + Flushed(v, count);
    if Uniform(cur) {
      StartRun(next, !v, ws);
      StartTally(next, out, v, count, ws);
    } else if !Tagged(cur) {
      WriteLiteral(next, v, cur, ws);
      LiteralTally(next, v, cur, ws);
    }
  }

  // ----- what is written, whatever the words -----

  /** Literals are written for the mixed words and for nothing else, tag bits and all. */
  ghost predicate Transcript(out: seq<Word>, ws: seq<Word>) {
    && Literals(out) == Literals(ws)
    && (Readable(ws) ==> (PlainLiterals(out) <==> MixedClean(ws)))
  }

  lemma NothingWritten()
    ensures Transcript([], [])
  {}

  lemma FlushedPlain(v: bool, count: nat)
    ensures Literals(Flushed(v, count)) == 0 && PlainLiterals(Flushed(v, count))
  {
    NoLiterals(Flushed(v, count));
  }

  lemma PlainAppend(a: seq<Word>, b: seq<Word>)
    ensures PlainLiterals(a + b) <==> PlainLiterals(a) && PlainLiterals(b)
  {
    var s := a + b;
    assert forall i :: 0 <= i < |a| ==> s[i] == a[i];
    assert forall i :: 0 <= i < |b| ==> s[|a| + i] == b[i];
    if PlainLiterals(a) && PlainLiterals(b) {
      forall i | 0 <= i < |s| && !Tagged(s[i]) ensures s[i] <= COUNT_MASK {
        if i >= |a| { assert s[i] == b[i - |a|]; }
      }
    }
  }

  /** A word that is counted, with or without a flush before it, leaves the literals as they are. */
  lemma TranscribeUniform(out: seq<Word>, v: bool, count: nat, cur: Word, ws: seq<Word>)
    requires Transcript(out, ws) && Uniform(cur)
    ensures Transcript(out, ws + [cur]) && Transcript(out + Flushed(v, count), ws + [cur])
  {
    hide Flushed, PlainLiterals, Readable, MixedClean, Literals;
    ReadableSnoc(ws, cur);
    FlushedPlain(v, count);
    LiteralsAppend(out, Flushed(v, count));
    PlainAppend(out, Flushed(v, count));
  }

  /** A mixed word is written as it is. */
  lemma TranscribeMixed(out: seq<Word>, v: bool, count: nat, cur: Word, ws: seq<Word>)
    requires Transcript(out, ws) && Mixed(cur)
    ensures Transcript(out + Flushed(v, count) + [cur], ws + [cur])
  {
    hide Flushed, PlainLiterals, Readable, MixedClean, Literals;
    ReadableSnoc(ws, cur);
    FlushedPlain(v, count);
    var next := out + Flushed(v, count);
    LiteralsAppend(out, Flushed(v, count));
    PlainAppend(out, Flushed(v, count));
    ReadableSnoc(next, cur);
    PlainAppend(next, [cur]);
    OneLiteral(cur);
  }

  lemma OneLiteral(w: Word)
    ensures PlainLiterals([w]) <==> Tagged(w) || w <= COUNT_MASK
  {
    if PlainLiterals([w]) { assert [w][0] == w; }
  }

  /** What is written at the end. */
  lemma TranscribeEnd(out: seq<Word>, v: bool, count: nat, ws: seq<Word>)
    requires Transcript(out, ws)
    ensures Transcript(out + Flushed(v, count), ws)
  {
    hide Flushed, PlainLiterals, Readable, MixedClean, Literals;
    FlushedPlain(v, count);
    LiteralsAppend(out, Flushed(v, count));
    PlainAppend(out, Flushed(v, count));
  }

  /** What was written decodes to the payloads only if no mixed word was taken for a run. */
  lemma OnlyReadable(out: seq<Word>, ws: seq<Word>)
    requires Transcript(out, ws) && Decode(out) == Payloads(ws)
    ensures Readable(ws)
  {
    hide Decode, Literals, Readable;
    DecodedLiterals(out);
    LiteralsExact(ws);
  }

  /** What the compressed form is worth, by what was read. */
  lemma Verdict(out: seq<Word>, ws: seq<Word>)
    requires Transcript(out, ws)
    requires Readable(ws) ==> WellFormed(out) && Decode(out) == Payloads(ws)
    ensures Decode(out) == Payloads(ws) <==> Readable(ws)
    ensures WellFormed(out) && PlainLiterals(out) && Decode(out) == Payloads(ws) <==> MixedClean(ws)
    ensures WellFormed(out) && PlainLiterals(out) && Decode(out) == ws <==> Plain(ws)
  {
    hide Decode, WellFormed, PlainLiterals, Literals;
    if Decode(out) == Payloads(ws) { OnlyReadable(out, ws); }
    CleanIsReadable(ws);
    CleanPayloads(ws);
    DecodeIsPlain(out);
  }

  lemma CleanIsReadable(ws: seq<Word>)
    ensures MixedClean(ws) ==> Readable(ws)
  {}

  // ----- how long runs of full words get -----

  /** The most full words whose bits one digit can count. */
  const LONGEST := 1170

  /** No stretch of full words is longer than one digit can count. */
  ghost predicate ShortRuns(ws: seq<Word>) {
    forall i :: 0 <= i && i + LONGEST < |ws| ==> Broken(ws, i)
  }

  ghost predicate Broken(ws: seq<Word>, i: nat) {
    exists j :: i <= j <= i + LONGEST && j < |ws| && ws[j] != COUNT_MASK
  }

  /** With `n` words of value `v` pending at the end of `ws`, what is written carries iff the words before them do. */
  ghost predicate Tally(out: seq<Word>, v: bool, n: nat, ws: seq<Word>) {
    && n <= |ws|
    && (NoCarry(out) <==> ShortRuns(ws[..|ws| - n]))
    && (n < |ws| && (v || n == 0) ==> ws[|ws| - n - 1] != COUNT_MASK)
    && (forall j :: |ws| - n <= j < |ws| ==> ws[j] == FullWord(v))
  }

  /** Words that are not full do not matter. */
  lemma ShortAppend(ws: seq<Word>, more: seq<Word>)
    requires forall j :: 0 <= j < |more| ==> more[j] != COUNT_MASK
    ensures ShortRuns(ws + more) <==> ShortRuns(ws)
  {
    var t := ws + more;
    if ShortRuns(ws) {
      forall i | 0 <= i && i + LONGEST < |t| ensures Broken(t, i) {
        if i + LONGEST < |ws| {
          assert Broken(ws, i);
          var j :| i <= j <= i + LONGEST && j < |ws| && ws[j] != COUNT_MASK;
          assert t[j] != COUNT_MASK;
        } else {
          assert t[i + LONGEST] != COUNT_MASK;
        }
      }
    }
    if ShortRuns(t) {
      forall i | 0 <= i && i + LONGEST < |ws| ensures Broken(ws, i) {
        assert Broken(t, i);
        var j :| i <= j <= i + LONGEST && j < |t| && t[j] != COUNT_MASK;
        assert ws[j] != COUNT_MASK;
      }
    }
  }

  /** A stretch of full words after a word that is not full. */
  lemma ShortStretch(ws: seq<Word>, n: nat)
    requires n <= |ws| && (n < |ws| ==> ws[|ws| - n - 1] != COUNT_MASK)
    requires forall j :: |ws| - n <= j < |ws| ==> ws[j] == COUNT_MASK
    ensures ShortRuns(ws) <==> ShortRuns(ws[..|ws| - n]) && n <= LONGEST
  {
    var k := |ws| - n;
    var front := ws[..k];
    if ShortRuns(ws) {
      forall i | 0 <= i && i + LONGEST < k ensures Broken(front, i) {
        assert Broken(ws, i);
        var j :| i <= j <= i + LONGEST && j < |ws| && ws[j] != COUNT_MASK;
        assert front[j] != COUNT_MASK;
      }
      assert n > LONGEST ==> Broken(ws, k);
    }
    if ShortRuns(front) && n <= LONGEST {
      forall i | 0 <= i && i + LONGEST < |ws| ensures Broken(ws, i) {
        if i + LONGEST < k {
          assert Broken(front, i);
          var j :| i <= j <= i + LONGEST && j < |front| && front[j] != COUNT_MASK;
          assert ws[j] != COUNT_MASK;
        } else {
          assert i <= k - 1 <= i + LONGEST && ws[k - 1] != COUNT_MASK;
        }
      }
    }
  }

  /** The digits of a set run carry iff there is more than one digit's worth. */
  lemma DigitsCarry(count: nat)
    requires count > 0
    ensures NoCarry(Digits(true, count)) <==> count < RADIX
  {
    hide NoCarry, Payload, RawCount, DigitValue;
    var run := Digits(true, count);
    NoCarryRun(run);
    DigitSum(run);
    if count < RADIX {
      SingleDigit(count);
    } else {
      HigherDigit(count);
    }
  }

  lemma SingleDigit(count: nat)
    requires 0 < count < RADIX
    ensures |Digits(true, count)| == 1
  {
    assert count / RADIX == 0;
    assert Digits(true, 0) == [];
  }

  lemma HigherDigit(count: nat)
    requires count >= RADIX
    ensures !LowDigitOnly(Digits(true, count))
  {
    hide RawCount;
    var rest := Digits(true, count / RADIX);
    var run := Digits(true, count);
    assert run == [run[0]] + rest;
    DigitSum(rest);
    var i :| 0 <= i < |rest| && Payload(rest[i]) != 0;
    assert run[i + 1] == rest[i];
  }

  lemma FlushedCarry(v: bool, count: nat)
    requires count % VALUE_SIZE == 0
    ensures NoCarry(Flushed(v, count)) <==> !v || count / VALUE_SIZE <= LONGEST
  {
    hide Payload;
    if count / VALUE_SIZE > 1 && v {
      hide NoCarry, Digits;
      DigitsCarry(count);
    }
  }

  lemma FlushTally(out: seq<Word>, v: bool, count: nat, ws: seq<Word>)
    requires InStep(out, v, count, ws)
    ensures NoCarry(out + Flushed(v, count)) <==> ShortRuns(ws)
  {
    hide NoCarry, ShortRuns, Decode, WellFormed, Digits;
    var n, f := count / VALUE_SIZE, Flushed(v, count);
    FlushedCarry(v, count);
    FlushedMeans(v, count);
    if count == 0 {
      assert out + f == out && ws[..|ws| - n] == ws;
    } else {
      if out == [] { assert out + f == f; NothingCarries(); } else { NoCarrySplit(out, f); }
      var front, back := ws[..|ws| - n], ws[|ws| - n..];
      assert front + back == ws;
      if v { ShortStretch(ws, n); } else { ShortAppend(front, back); }
    }
  }

  lemma NothingCarries()
    ensures NoCarry([])
  {}

  lemma StartTally(next: seq<Word>, out: seq<Word>, v: bool, count: nat, ws: seq<Word>)
    requires Tally(out, v, count / VALUE_SIZE, ws) && (NoCarry(next) <==> ShortRuns(ws))
    ensures Tally(next, !v, 1, ws + [FullWord(!v)])
  {
    hide NoCarry, ShortRuns;
    var ws' := ws + [FullWord(!v)];
    assert ws'[..|ws'| - 1] == ws;
  }

  lemma LiteralTally(next: seq<Word>, v: bool, cur: Word, ws: seq<Word>)
    requires (NoCarry(next) <==> ShortRuns(ws)) && Mixed(cur) && !Tagged(cur)
    ensures Tally(next + [cur], v, 0, ws + [Payload(cur)])
  {
    hide ShortRuns;
    var out, ws' := next + [cur], ws + [Payload(cur)];
    ShortAppend(ws, [Payload(cur)]);
    assert ws'[..|ws'| - 0] == ws';
    if next == [] {
      assert out == [cur];
    } else {
      NoCarrySplit(next, [cur]);
    }
  }
}
