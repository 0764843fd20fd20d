/**
 The bitmap object (Helens/ds/bitmap.h, Helens/ds/bitmap.cc): fixed-size, uncompressed or
 run-length compressed, changed in place.
 */
module BitmapObject {
  import opened Arith
  import opened Bits
  import opened BitmapCodec
  import opened BitmapCanonical
  import opened BitmapCompress
  import opened BitmapCount
  import opened BitmapPositions
  import opened BitmapWords

  /** How an operator ends: normally, or by throwing std::logic_error. */
  datatype Outcome = Done | LogicError

  class Bitmap {
    var compressed: bool
    var size: nat
    var data: array<Word>

    /** The representation is one that the constructors and `compress` produce. */
    ghost predicate Valid()
      reads this, data
    {
      && VALUE_SIZE * WordCount(size) < U32_LIMIT
      && (compressed ==> WellFormed(data[..]) && PlainLiterals(data[..]))
      && |Words()| == WordCount(size)
    }

    /** The plain words this bitmap stands for. */
    ghost function Words(): seq<Word>
      reads this, data
    {
      if compressed then Decode(data[..]) else data[..]
    }

    /** No tag bit is set in an uncompressed word. */
    ghost predicate Clean()
      reads this, data
    {
      Plain(Words())
    }

    constructor (size: nat, def: nat)
      requires VALUE_SIZE * WordCount(size) < U32_LIMIT
      requires def < 256
      ensures Valid() && fresh(data)
      ensures !compressed && this.size == size
      ensures forall i :: 0 <= i < data.Length ==> data[i] == def * 0x101
    {
      compressed := false;
      this.size := size;
      data := new Word[WordCount(size)](_ => def * 0x101);
    }

    /** The private constructor: an empty compressed bitmap around the given words. */
    constructor Compressed(size: nat, words: seq<Word>)
      ensures fresh(data) && compressed && this.size == size && data[..] == words
    {
      compressed := true;
      this.size := size;
      data := new Word[|words|](i requires 0 <= i < |words| => words[i]);
    }

    constructor Copy(b: Bitmap)
      requires b.Valid()
      ensures Valid() && fresh(data)
      ensures compressed == b.compressed && size == b.size && data[..] == b.data[..]
    {
      compressed := b.compressed;
      size := b.size;
      var d := new Word[b.data.Length](i requires 0 <= i < b.data.Length reads b, b.data => b.data[i]);
      data := d;
      new;
      assert data[..] == b.data[..];
    }

    // ----- single bits -----

    method Get(idx: nat) returns (r: bool)
      requires Valid() && !compressed && idx / VALUE_SIZE < data.Length
      ensures r == Test(Words(), idx)
      ensures r <==> data[idx / 14] / Pow2(idx % 14) % 2 == 1
    {
      BitIs(data[idx / VALUE_SIZE], idx % VALUE_SIZE);
      r := Bit(data[idx / VALUE_SIZE], idx % VALUE_SIZE);
    }

    method Set(idx: nat, v: bool)
      requires Valid() && !compressed && idx / VALUE_SIZE < data.Length
      modifies data
      ensures Valid()
      ensures forall j :: 0 <= j < VALUE_SIZE * data.Length ==>
        Test(Words(), j) == if j == idx then v else Test(old(Words()), j)
      ensures old(Clean()) ==> Clean()
    {
      var cur, pos := idx / VALUE_SIZE, idx % VALUE_SIZE;
      SetBitMeans(data[cur], pos, v);
      if v {
        data[cur] := Or(data[cur], Pow2(pos));
      } else {
        data[cur] := And(data[cur], WORD_LIMIT - 1 - Pow2(pos));
      }
    }

    // ----- whole words -----

    method SetRange(from: nat, count: nat, v: bool)
      requires count > 0 ==> from % VALUE_SIZE == 0 && (from + count) % VALUE_SIZE == 0
      requires count > 0 ==> (from + count) / VALUE_SIZE <= data.Length
      modifies data
      ensures count == 0 ==> data[..] == old(data[..])
      ensures count > 0 ==> forall i :: 0 <= i < data.Length ==>
        data[i] == if from / VALUE_SIZE <= i < (from + count) / VALUE_SIZE then FullWord(v) else old(data[i])
    {
      if count == 0 { return; }
      var first, last := from / VALUE_SIZE, (from + count) / VALUE_SIZE;
      for i := first to last
        invariant forall j :: 0 <= j < data.Length ==>
          data[j] == if first <= j < i then FullWord(v) else old(data[j])
      {
        data[i] := FullWord(v);
      }
    }

    method GetRange(from: nat, count: nat, v: bool) returns (r: bool)
      requires count > 0 ==> from % VALUE_SIZE == 0 && (from + count) % VALUE_SIZE == 0
      requires count > 0 ==> (from + count) / VALUE_SIZE <= data.Length
      ensures r <==>
        (count > 0 && exists i :: from / VALUE_SIZE <= i < (from + count) / VALUE_SIZE && (Payload(data[i]) != 0) == v)
    {
      if count == 0 { return false; }
      var last := (from + count) / VALUE_SIZE;
      for i := from / VALUE_SIZE to last
        invariant forall j :: from / VALUE_SIZE <= j < i ==> (Payload(data[j]) != 0) != v
      {
        if (Payload(data[i]) != 0) == v { return true; }
      }
      r := false;
    }

    // ----- comparing -----

    /**
     Word by word. If neither is compressed, or both are in the canonical form, equal means: the same
     size and the same words.
     */
    method Equals(b: Bitmap) returns (r: bool)
      requires Valid() && b.Valid()
      ensures r <==> compressed == b.compressed && size == b.size && data[..] == b.data[..]
      ensures compressed == b.compressed && (compressed ==> Canonical(data[..]) && Canonical(b.data[..])) ==>
        (r <==> size == b.size && Words() == b.Words())
    {
      hide WellFormed, PlainLiterals, Decode, Canonical, And, Pow2;
      if compressed && Canonical(data[..]) && Canonical(b.data[..]) { CanonicalUnique(data[..], b.data[..]); }
      if this == b { return true; }
      if compressed != b.compressed || size != b.size || data.Length != b.data.Length { return false; }
      for i := 0 to data.Length
        invariant data[..i] == b.data[..i]
      {
        if data[i] != b.data[i] { return false; }
      }
      assert data[..] == data[..data.Length] == b.data[..];
      var left := size % VALUE_SIZE;
      if left != 0 && data.Length > 0 {
        var mask := Pow2(left) - 1;
        return And(data[data.Length - 1], mask) == And(b.data[b.data.Length - 1], mask);
      }
      return true;
    }

    // ----- compression -----

    /**
     The result stands for the same words exactly when no tag bit is set in an uncompressed word. It
     stands for the same positions exactly when no word that is neither empty nor full carries the
     first tag bit, and is fit to be worked on when such words carry no tag bit at all. In every case it
     fits in as many words as the original. It counts some run of ones in more than one digit iff the
     original has a stretch of full words too long for one. Where it is fit to be worked on, it is the
     one canonical form of its words.
     */
    method Compress() returns (b: Bitmap)
      requires Valid()
      ensures fresh(b) && fresh(b.data) && b.compressed && b.size == size
      ensures b.Valid() && b.Words() == Words() <==> Clean()
      ensures b.Words() == Payloads(Words()) <==> Readable(Words())
      ensures b.Valid() && b.Words() == Payloads(Words()) <==> MixedClean(Words())
      ensures b.data.Length <= data.Length
      ensures !compressed && MixedClean(Words()) ==> (NoCarry(b.data[..]) <==> ShortRuns(Payloads(Words())))
      ensures !compressed && MixedClean(Words()) ==> Canonical(b.data[..])
      ensures compressed ==> b.data[..] == data[..]
    {
      if compressed {
        DecodeIsPlain(data[..]);
        CleanPayloads(Words());
        b := new Bitmap.Copy(this);
      } else {
        b := CompressPlain();
      }
    }

    method CompressPlain() returns (b: Bitmap)
      requires Valid() && !compressed
      ensures fresh(b) && fresh(b.data) && b.compressed && b.size == size
      ensures b.Valid() && b.Words() == Words() <==> Clean()
      ensures b.Words() == Payloads(Words()) <==> Readable(Words())
      ensures b.Valid() && b.Words() == Payloads(Words()) <==> MixedClean(Words())
      ensures b.data.Length <= data.Length
      ensures MixedClean(Words()) ==> (NoCarry(b.data[..]) <==> ShortRuns(Payloads(Words())))
      ensures MixedClean(Words()) ==> Canonical(b.data[..])
    {
      hide Pending, Closed, Tally, Decode, WellFormed, Flushed, NoCarry, PlainLiterals, ShortRuns, Literals, Readable, MixedClean, Tidy, Canonical;
      var buf := new Word[data.Length];
      var value := false;
      var dst: nat, count: nat := 0, 0;
      ghost var ws := data[..];
      NothingPending();
      NothingWritten();
      NothingTidy();
      assert Payloads([]) == [];
      for i := 0 to data.Length
        invariant fresh(buf) && buf.Length == |ws| && data[..] == ws
        invariant dst + count / VALUE_SIZE <= i && count % VALUE_SIZE == 0
        invariant Readable(ws[..i]) ==> InStep(buf[..dst], value, count, Payloads(ws[..i]))
        invariant Transcript(buf[..dst], ws[..i])
        invariant MixedClean(ws[..i]) ==> Tidy(buf[..dst], value, count)
      {
        dst, value, count := CompressWord(buf, dst, value, count, data[i], ws[..i]);
        assert ws[..i + 1] == ws[..i] + [ws[i]];
      }
      assert ws[..data.Length] == ws;
      FlushedMeans(value, count);
      if Readable(ws) { FlushPending(buf[..dst], value, count, Payloads(ws)); }
      TranscribeEnd(buf[..dst], value, count, ws);
      if MixedClean(ws) { TidyFlush(buf[..dst], value, count); }
      dst := Flush(buf, dst, value, count);
      b := new Bitmap.Compressed(size, buf[..dst]);
      Verdict(buf[..dst], ws);
    }

    /** One turn of the compressor's loop: take in word `cur` after the words `ws`. */
    static method CompressWord(buf: array<Word>, at: nat, v: bool, pending: nat, cur: Word, ghost ws: seq<Word>)
      returns (dst: nat, value: bool, count: nat)
      requires at + pending / VALUE_SIZE <= |ws| < buf.Length && pending % VALUE_SIZE == 0
      requires VALUE_SIZE * (|ws| + 1) < U32_LIMIT
      requires Readable(ws) ==> InStep(buf[..at], v, pending, Payloads(ws))
      requires Transcript(buf[..at], ws)
      requires MixedClean(ws) ==> Tidy(buf[..at], v, pending)
      modifies buf
      ensures dst + count / VALUE_SIZE <= |ws| + 1 && count % VALUE_SIZE == 0
      ensures Readable(ws + [cur]) ==> InStep(buf[..dst], value, count, Payloads(ws + [cur]))
      ensures Transcript(buf[..dst], ws + [cur])
      ensures MixedClean(ws + [cur]) ==> Tidy(buf[..dst], value, count)
    {
      hide InStep, Flushed, PopCount, Transcript, Readable, MixedClean, Literals, Tidy, Canonical;
      var c := PopCount(Payload(cur));
      ghost var out := buf[..at];
      ClassifyWord(cur);
      ReadableSnoc(ws, cur);
      if (c == 0 && !v) || (c == VALUE_SIZE && v) {
        TranscribeUniform(out, v, pending, cur, ws);
        if Readable(ws + [cur]) { TakeSame(out, v, pending, Payloads(ws)); }
        if MixedClean(ws + [cur]) { TidySame(out, v, pending); }
        return at, v, pending + VALUE_SIZE;
      }
      FlushedMeans(v, pending);
      if Readable(ws + [cur]) { TakeOther(out, v, pending, cur, Payloads(ws)); }
      dst := Flush(buf, at, v, pending);
      if c == 0 || c == VALUE_SIZE {
        TranscribeUniform(out, v, pending, cur, ws);
        if MixedClean(ws + [cur]) { TidyStart(out, v, pending, c == VALUE_SIZE); }
        return dst, c == VALUE_SIZE, VALUE_SIZE;
      } else {
        TranscribeMixed(out, v, pending, cur, ws);
        if MixedClean(ws + [cur]) { TidyLiteral(out, v, pending, cur); }
        buf[dst] := cur;
        assert buf[..dst + 1] == out + Flushed(v, pending) + [cur];
        return dst + 1, v, 0;
      }
    }

    /** Write out the pending run. */
    static method Flush(buf: array<Word>, at: nat, value: bool, pending: nat) returns (dst: nat)
      requires at + |Flushed(value, pending)| <= buf.Length
      modifies buf
      ensures dst == at + |Flushed(value, pending)|
      ensures buf[..dst] == old(buf[..at]) + Flushed(value, pending)
    {
      if pending / VALUE_SIZE > 1 {
        dst := WriteDigits(buf, at, value, pending);
      } else if pending > 0 {
        buf[at] := FullWord(value);
        dst := at + 1;
      } else {
        dst := at;
      }
    }

    static method WriteDigits(buf: array<Word>, at: nat, value: bool, total: nat) returns (dst: nat)
      requires at + |Digits(value, total)| <= buf.Length
      modifies buf
      ensures dst == at + |Digits(value, total)|
      ensures buf[..dst] == old(buf[..at]) + Digits(value, total)
    {
      dst := at;
      var count: nat := total;
      while count > 0
        invariant at <= dst && dst + |Digits(value, count)| == at + |Digits(value, total)|
        invariant buf[..dst] + Digits(value, count) == old(buf[..at]) + Digits(value, total)
      {
        ghost var out := buf[..dst];
        var w := RunWord(value, count % RADIX);
        buf[dst] := w;
        assert buf[..dst + 1] == out + [w];
        ConcatAssoc(out, [w], Digits(value, count / RADIX));
        dst := dst + 1;
        count := count / RADIX;
      }
    }

    /** Merge the digits of the run at `i`, as every decoder does. */
    static method ReadRun(d: array<Word>, i: nat) returns (count: nat, next: nat)
      requires i < d.Length && Tagged(d[i]) && GoodRun(d[i..][..RunLength(d[i..])])
      ensures next == i + RunLength(d[i..])
      ensures count == RunCount(d[..], i)
    {
      hide Or, Shl32, DigitValue;
      ghost var t := d[i..];
      assert d[..][i..] == t;
      count := Payload(d[i]);
      OneDigit(d[i]);
      assert t[..1] == [d[i]];
      next := i + 1;
      while next < d.Length && Tagged(d[next]) && Value(d[next]) == Value(d[i])
        invariant i < next <= d.Length
        invariant forall j :: 0 <= j < next - i ==> Tagged(t[j]) && Value(t[j]) == Value(t[0])
        invariant count == DigitValue(t[..next - i])
      {
        NextDigit(t, next - i);
        count := Or(Shl32(Payload(d[next]), VALUE_SIZE * (next - i)), count);
        next := next + 1;
      }
      RunLengthUnique(t, next - i);
    }

    /** The run at `i`, for a decoder that has produced the first `n` of the words `ws`. */
    static method NextRun(d: array<Word>, i: nat, ghost n: nat, ghost ws: seq<Word>)
      returns (count: nat, next: nat, ghost m: nat)
      requires i < d.Length && Tagged(d[i]) && At(d[..], i, n, ws)
      ensures i < next <= d.Length && n <= m <= |ws| && count == VALUE_SIZE * (m - n)
      ensures forall j :: n <= j < m ==> ws[j] == FullWord(Value(d[i]))
      ensures At(d[..], next, m, ws)
    {
      hide At, Decode, WellFormed, GoodRun, RunCount, DigitValue;
      AtRun(d[..], i, n, ws);
      assert d[..][i..] == d[i..];
      count, next := ReadRun(d, i);
      GoodRunWords(d[..], i);
      m := n + count / VALUE_SIZE;
    }

    method Uncompress() returns (b: Bitmap)
      requires Valid()
      ensures fresh(b) && fresh(b.data)
      ensures b.Valid() && !b.compressed && b.size == size
      ensures b.Words() == Words()
    {
      if !compressed {
        b := new Bitmap.Copy(this);
        return;
      }
      b := new Bitmap(size, 0);
      DecodeInto(b);
    }

    /** The decoding loop: overwrite the words of `b`. */
    method DecodeInto(b: Bitmap)
      requires compressed && Valid() && b != this && b.data != data
      requires b.Valid() && !b.compressed && b.size == size
      modifies b.data
      ensures b.data[..] == Words()
    {
      hide At, Decode, WellFormed;
      ghost var s, ws := data[..], Words();
      AtStart(s);
      ghost var n: nat := 0;
      var pos: nat, i: nat := 0, 0;
      while i < data.Length
        invariant i <= data.Length && n <= |ws| && pos == VALUE_SIZE * n && At(s, i, n, ws)
        invariant forall j :: 0 <= j < n ==> b.data[j] == ws[j]
      {
        if Tagged(data[i]) {
          var v := Value(data[i]);
          var count, next, m := NextRun(data, i, n, ws);
          b.SetRange(pos, count, v);
          pos := pos + count;
          n := m;
          i := next;
        } else {
          AtLiteral(s, i, n, ws);
          b.data[pos / VALUE_SIZE] := Payload(data[i]);
          pos := pos + VALUE_SIZE;
          n := n + 1;
          i := i + 1;
        }
      }
      AtEnd(s, n, ws);
    }

    // ----- the 64-bit view -----

    static function Load64(d: array<Word>, i: nat): nat
      requires U64_DIV_BASE * i + 4 <= d.Length
      reads d
    {
      Join(d[4 * i], d[4 * i + 1], d[4 * i + 2], d[4 * i + 3])
    }

    static method Store64(d: array<Word>, i: nat, x: nat, ghost w: seq<Word>)
      requires U64_DIV_BASE * i + 4 <= d.Length
      requires |w| == 4 && x == Join(w[0], w[1], w[2], w[3])
      modifies d
      ensures d[4 * i] == w[0] && d[4 * i + 1] == w[1] && d[4 * i + 2] == w[2] && d[4 * i + 3] == w[3]
      ensures forall j :: 0 <= j < d.Length && !(4 * i <= j < 4 * i + 4) ==> d[j] == old(d[j])
    {
      LaneJoin(w[0], w[1], w[2], w[3]);
      d[4 * i] := x % WORD_LIMIT;
      d[4 * i + 1] := x / WORD_LIMIT % WORD_LIMIT;
      d[4 * i + 2] := x / WORD_LIMIT / WORD_LIMIT % WORD_LIMIT;
      d[4 * i + 3] := x / WORD_LIMIT / WORD_LIMIT / WORD_LIMIT;
    }

    // ----- operator &= -----

    method AndWith(b: Bitmap) returns (r: Outcome)
      requires Valid() && b.Valid()
      requires b == this || b.data != data
      modifies data
      ensures Valid() && data == old(data)
      ensures r.Done? <==> size == b.size && !compressed
      ensures r.Done? ==> forall p :: 0 <= p < size ==> (Test(Words(), p) <==> Test(old(Words()), p) && Test(old(b.Words()), p))
      ensures r.Done? && (old(Clean()) || !b.compressed) ==> Words() == ZipAnd(old(Words()), old(b.Words()))
      ensures r.LogicError? ==> data[..] == old(data[..])
    {
      hide Test, Decode, WellFormed, PlainLiterals, And;
      if size != b.size || compressed { return LogicError; }
      ghost var was, with := data[..], b.Words();
      if !b.compressed {
        AndPlain(b);
        forall p | 0 <= p < size ensures Test(data[..], p) <==> Test(was, p) && Test(with, p) { TestAnd(was, with, p); }
      } else {
        AndCompressed(b);
        DecodeIsPlain(b.data[..]);
        forall p | 0 <= p < size ensures Test(data[..], p) <==> Test(was, p) && Test(with, p) { TestAnds(data[..], was, with, p); }
      }
      return Done;
    }

    /** Both sides uncompressed: 64 bits at a time, then the remaining words. */
    method AndPlain(b: Bitmap)
      requires data.Length == b.data.Length == WordCount(size)
      modifies data
      ensures data[..] == ZipAnd(old(data[..]), old(b.data[..]))
    {
      hide And;
      var wide := size / U64_VALUE_SIZE;
      for i := 0 to wide
        invariant forall j :: 0 <= j < U64_DIV_BASE * i ==> data[j] == AndWord(old(data[j]), old(b.data[j]))
        invariant forall j :: U64_DIV_BASE * i <= j < data.Length ==> data[j] == old(data[j]) && b.data[j] == old(b.data[j])
      {
        var x := And(Load64(data, i), Load64(b.data, i));
        AndJoin(data[4 * i], data[4 * i + 1], data[4 * i + 2], data[4 * i + 3],
                b.data[4 * i], b.data[4 * i + 1], b.data[4 * i + 2], b.data[4 * i + 3]);
        Store64(data, i, x, [AndWord(data[4 * i], b.data[4 * i]), AndWord(data[4 * i + 1], b.data[4 * i + 1]),
                             AndWord(data[4 * i + 2], b.data[4 * i + 2]), AndWord(data[4 * i + 3], b.data[4 * i + 3])]);
      }
      for i := U64_DIV_BASE * wide to data.Length
        invariant forall j :: 0 <= j < i ==> data[j] == AndWord(old(data[j]), old(b.data[j]))
        invariant forall j :: i <= j < data.Length ==> data[j] == old(data[j]) && b.data[j] == old(b.data[j])
      {
        data[i] := AndWord(data[i], b.data[i]);
      }
    }

    /** The right side compressed: run by run. */
    method AndCompressed(b: Bitmap)
      requires b.compressed && b.Valid() && b.data != data
      requires data.Length == |b.Words()|
      modifies data
      ensures forall i :: 0 <= i < data.Length ==> AndsTo(data[i], old(data[i]), b.Words()[i])
    {
      hide At, Decode, WellFormed, And, AndsTo;
      ghost var s, ws := b.data[..], b.Words();
      AtStart(s);
      ghost var n: nat := 0;
      var pos: nat, i: nat := 0, 0;
      while i < b.data.Length
        invariant i <= b.data.Length && n <= |ws| && pos == VALUE_SIZE * n && At(s, i, n, ws)
        invariant forall j :: 0 <= j < n ==> AndsTo(data[j], old(data[j]), ws[j])
        invariant forall j :: n <= j < data.Length ==> data[j] == old(data[j])
      {
        if Tagged(b.data[i]) {
          var v := Value(b.data[i]);
          var count, next, m := NextRun(b.data, i, n, ws);
          forall j | n <= j < m ensures AndsTo(if v then old(data[j]) else 0, old(data[j]), ws[j]) {
            AndRun(old(data[j]), v);
          }
          if !v {
            SetRange(pos, count, false);
          }
          pos := pos + count;
          n := m;
          i := next;
        } else {
          AtLiteral(s, i, n, ws);
          AndLiteral(data[n], ws[n]);
          data[pos / VALUE_SIZE] := AndWord(data[pos / VALUE_SIZE], Payload(b.data[i]));
          pos := pos + VALUE_SIZE;
          n := n + 1;
          i := i + 1;
        }
      }
      AtEnd(s, n, ws);
    }

    // ----- operator |= -----

    method OrWith(b: Bitmap) returns (r: Outcome)
      requires Valid() && b.Valid()
      requires b == this || b.data != data
      modifies data
      ensures Valid() && data == old(data)
      ensures r.Done? <==> size == b.size && !compressed
      ensures r.Done? ==> forall p :: 0 <= p < size ==> (Test(Words(), p) <==> Test(old(Words()), p) || Test(old(b.Words()), p))
      ensures r.Done? && (old(Clean()) || !b.compressed) ==> Words() == ZipOr(old(Words()), old(b.Words()))
      ensures r.LogicError? ==> data[..] == old(data[..])
    {
      hide Test, Decode, WellFormed, PlainLiterals, Or;
      if size != b.size || compressed { return LogicError; }
      ghost var was, with := data[..], b.Words();
      if !b.compressed {
        OrPlain(b);
        forall p | 0 <= p < size ensures Test(data[..], p) <==> Test(was, p) || Test(with, p) { TestOr(was, with, p); }
      } else {
        OrCompressed(b);
        DecodeIsPlain(b.data[..]);
        forall p | 0 <= p < size ensures Test(data[..], p) <==> Test(was, p) || Test(with, p) { TestOrs(data[..], was, with, p); }
      }
      return Done;
    }

    /** Both sides uncompressed: 64 bits at a time, then the remaining words. */
    method OrPlain(b: Bitmap)
      requires data.Length == b.data.Length == WordCount(size)
      modifies data
      ensures data[..] == ZipOr(old(data[..]), old(b.data[..]))
    {
      hide Or;
      var wide := size / U64_VALUE_SIZE;
      for i := 0 to wide
        invariant forall j :: 0 <= j < U64_DIV_BASE * i ==> data[j] == OrWord(old(data[j]), old(b.data[j]))
        invariant forall j :: U64_DIV_BASE * i <= j < data.Length ==> data[j] == old(data[j]) && b.data[j] == old(b.data[j])
      {
        var x := Or(Load64(data, i), Load64(b.data, i));
        OrJoin(data[4 * i], data[4 * i + 1], data[4 * i + 2], data[4 * i + 3],
                b.data[4 * i], b.data[4 * i + 1], b.data[4 * i + 2], b.data[4 * i + 3]);
        Store64(data, i, x, [OrWord(data[4 * i], b.data[4 * i]), OrWord(data[4 * i + 1], b.data[4 * i + 1]),
                             OrWord(data[4 * i + 2], b.data[4 * i + 2]), OrWord(data[4 * i + 3], b.data[4 * i + 3])]);
      }
      for i := U64_DIV_BASE * wide to data.Length
        invariant forall j :: 0 <= j < i ==> data[j] == OrWord(old(data[j]), old(b.data[j]))
        invariant forall j :: i <= j < data.Length ==> data[j] == old(data[j]) && b.data[j] == old(b.data[j])
      {
        data[i] := OrWord(data[i], b.data[i]);
      }
    }

    /** The right side compressed: run by run. */
    method OrCompressed(b: Bitmap)
      requires b.compressed && b.Valid() && b.data != data
      requires data.Length == |b.Words()|
      modifies data
      ensures forall i :: 0 <= i < data.Length ==> OrsTo(data[i], old(data[i]), b.Words()[i])
    {
      hide At, Decode, WellFormed, Or, OrsTo;
      ghost var s, ws := b.data[..], b.Words();
      AtStart(s);
      ghost var n: nat := 0;
      var pos: nat, i: nat := 0, 0;
      while i < b.data.Length
        invariant i <= b.data.Length && n <= |ws| && pos == VALUE_SIZE * n && At(s, i, n, ws)
        invariant forall j :: 0 <= j < n ==> OrsTo(data[j], old(data[j]), ws[j])
        invariant forall j :: n <= j < data.Length ==> data[j] == old(data[j])
      {
        if Tagged(b.data[i]) {
          var v := Value(b.data[i]);
          var count, next, m := NextRun(b.data, i, n, ws);
          forall j | n <= j < m ensures OrsTo(if v then COUNT_MASK else old(data[j]), old(data[j]), ws[j]) {
            OrRun(old(data[j]), v);
          }
          if v {
            SetRange(pos, count, true);
          }
          pos := pos + count;
          n := m;
          i := next;
        } else {
          AtLiteral(s, i, n, ws);
          OrLiteral(data[n], ws[n]);
          data[pos / VALUE_SIZE] := OrWord(data[pos / VALUE_SIZE], Payload(b.data[i]));
          pos := pos + VALUE_SIZE;
          n := n + 1;
          i := i + 1;
        }
      }
      AtEnd(s, n, ws);
    }

    // ----- operator ~ -----

    method Complement()
      requires Valid()
      modifies data
      ensures Valid() && data == old(data)
      ensures compressed ==> Words() == MapNot(old(Words()))
      ensures !compressed ==> forall i :: 0 <= i < data.Length ==> data[i] == WORD_LIMIT - 1 - old(data[i])
    {
      hide Decode, WellFormed, FlipWord;
      if !compressed {
        ComplementPlain();
      } else {
        DecodeFlip(data[..]);
        FlipWords(data);
      }
    }

    static method FlipWords(d: array<Word>)
      modifies d
      ensures d[..] == MapFlip(old(d[..]))
    {
      hide FlipWord;
      for i := 0 to d.Length
        invariant forall j :: 0 <= j < i ==> d[j] == FlipWord(old(d[j]))
        invariant forall j :: i <= j < d.Length ==> d[j] == old(d[j])
      {
        d[i] := FlipWord(d[i]);
      }
    }

    method ComplementPlain()
      requires data.Length == WordCount(size)
      modifies data
      ensures forall i :: 0 <= i < data.Length ==> data[i] == WORD_LIMIT - 1 - old(data[i])
    {
      var wide := size / U64_VALUE_SIZE;
      for i := 0 to wide
        invariant forall j :: 0 <= j < U64_DIV_BASE * i ==> data[j] == WORD_LIMIT - 1 - old(data[j])
        invariant forall j :: U64_DIV_BASE * i <= j < data.Length ==> data[j] == old(data[j])
      {
        var x := U64_LIMIT - 1 - Load64(data, i);
        NotJoin(data[4 * i], data[4 * i + 1], data[4 * i + 2], data[4 * i + 3]);
        Store64(data, i, x, [WORD_LIMIT - 1 - data[4 * i], WORD_LIMIT - 1 - data[4 * i + 1],
                             WORD_LIMIT - 1 - data[4 * i + 2], WORD_LIMIT - 1 - data[4 * i + 3]]);
      }
      for i := U64_DIV_BASE * wide to data.Length
        invariant forall j :: 0 <= j < i ==> data[j] == WORD_LIMIT - 1 - old(data[j])
        invariant forall j :: i <= j < data.Length ==> data[j] == old(data[j])
      {
        data[i] := WORD_LIMIT - 1 - data[i];
      }
    }

    // ----- cross -----

    /**
     The sizes need not agree, as long as the words looked at are there: this bitmap's own against a
     plain operand, and those the operand stands for against a compressed one.
     */
    method Cross(b: Bitmap) returns (r: bool)
      requires Valid() && b.Valid()
      requires !compressed ==> if b.compressed then |b.Words()| <= |Words()| else |Words()| <= |b.Words()|
      ensures compressed ==> !r
      ensures !compressed ==> (r <==> Crosses(Words(), b.Words()))
    {
      if !compressed && b.compressed {
        r := CrossCompressed(b);
      } else if !compressed {
        r := CrossPlain(b);
      } else {
        r := false;
      }
    }

    method CrossPlain(b: Bitmap) returns (r: bool)
      requires data.Length == WordCount(size) <= b.data.Length
      ensures r <==> Crosses(data[..], b.data[..])
    {
      hide And;
      var wide := size / U64_VALUE_SIZE;
      for i := 0 to wide
        invariant forall j :: 0 <= j < U64_DIV_BASE * i ==> AndWord(data[j], b.data[j]) == 0
      {
        AndJoin(data[4 * i], data[4 * i + 1], data[4 * i + 2], data[4 * i + 3],
                b.data[4 * i], b.data[4 * i + 1], b.data[4 * i + 2], b.data[4 * i + 3]);
        AndZeroLeft(Load64(b.data, i));
        if Load64(data, i) != 0 {
          if And(Load64(data, i), Load64(b.data, i)) != 0 {
            assert exists j :: 4 * i <= j < 4 * i + 4 && AndWord(data[j], b.data[j]) != 0;
            return true;
          }
        }
      }
      for i := U64_DIV_BASE * wide to data.Length
        invariant forall j :: 0 <= j < i ==> AndWord(data[j], b.data[j]) == 0
      {
        if AndWord(data[i], b.data[i]) != 0 { return true; }
      }
      return false;
    }

    method CrossCompressed(b: Bitmap) returns (r: bool)
      requires b.compressed && b.Valid()
      requires |b.Words()| <= data.Length
      ensures r <==> Crosses(data[..], b.Words())
    {
      hide At, Decode, WellFormed, And, AndsTo;
      ghost var s, ws := b.data[..], b.Words();
      AtStart(s);
      ghost var n: nat := 0;
      var pos: nat, i: nat := 0, 0;
      while i < b.data.Length
        invariant i <= b.data.Length && n <= |ws| && pos == VALUE_SIZE * n && At(s, i, n, ws)
        invariant forall j :: 0 <= j < n ==> AndWord(data[j], ws[j]) == 0
      {
        if Tagged(b.data[i]) {
          var v := Value(b.data[i]);
          var count, next, m := NextRun(b.data, i, n, ws);
          forall j | n <= j < m ensures AndWord(data[j], ws[j]) == if v then Payload(data[j]) else 0 {
            CountMask(data[j]);
            AndZeroRight(data[j]);
          }
          if v {
            var found := GetRange(pos, count, true);
            if found { return true; }
          }
          pos := pos + count;
          n := m;
          i := next;
        } else {
          AtLiteral(s, i, n, ws);
          if AndWord(data[pos / VALUE_SIZE], Payload(b.data[i])) != 0 { return true; }
          pos := pos + VALUE_SIZE;
          n := n + 1;
          i := i + 1;
        }
      }
      AtEnd(s, n, ws);
      return false;
    }

    // ----- forward walks -----

    method ForEach(cb: nat -> bool) returns (seen: seq<nat>)
      requires Valid() && !compressed
      ensures WalkOf(seen, Positions(Words(), size), cb)
    {
      hide Asc, Join;
      var wide := size / U64_VALUE_SIZE;
      var pos: nat := 0;
      ghost var ws := data[..];
      seen := [];
      AscEmpty(ws, 0);
      for i := 0 to wide
        invariant pos == U64_VALUE_SIZE * i && Passed(ws, pos, seen, cb)
      {
        if Load64(data, i) == 0 {
          SkipFour(ws, U64_DIV_BASE * i);
          SkipTo(ws, pos, pos + U64_VALUE_SIZE, seen, cb);
          pos := pos + U64_VALUE_SIZE;
        } else {
          for n := 0 to U64_DIV_BASE
            invariant pos == U64_VALUE_SIZE * i + VALUE_SIZE * n && Passed(ws, pos, seen, cb)
          {
            var go;
            pos, seen, go := VisitWord(U64_DIV_BASE * i + n, cb, seen);
            if !go { return; }
          }
        }
      }
      for i := U64_DIV_BASE * wide to data.Length
        invariant pos >= VALUE_SIZE * i || pos == size
        invariant i < data.Length ==> pos == VALUE_SIZE * i
        invariant Passed(ws, Min(pos, size), seen, cb)
      {
        if data[i] == 0 {
          ZeroWord(ws, i);
          SkipTo(ws, pos, Min(pos + VALUE_SIZE, size), seen, cb);
          pos := pos + VALUE_SIZE;
        } else {
          var go;
          pos, seen, go := VisitWord(i, cb, seen);
          if !go { return; }
        }
      }
    }

    /** Show the set positions of word `i` below the size to the callback. */
    method VisitWord(i: nat, cb: nat -> bool, before: seq<nat>) returns (pos: nat, seen: seq<nat>, go: bool)
      requires Valid() && !compressed && i < data.Length
      requires Passed(data[..], VALUE_SIZE * i, before, cb)
      ensures go ==> pos == Min(VALUE_SIZE * (i + 1), size) && Passed(data[..], pos, seen, cb)
      ensures !go ==> WalkOf(seen, Positions(data[..], size), cb)
    {
      hide Asc, Test, Bit;
      ghost var ws := data[..];
      pos := VALUE_SIZE * i;
      seen := before;
      var n: nat := 0;
      while n < VALUE_SIZE && pos < size
        invariant n <= VALUE_SIZE && pos == VALUE_SIZE * i + n && pos <= size
        invariant Passed(ws, pos, seen, cb)
      {
        TestAt(ws, i, n);
        AscNext(ws, 0, pos);
        if Bit(data[i], n) {
          seen := seen + [pos];
          if !cb(pos) {
            AscSplit(ws, 0, pos + 1, size);
            return pos, seen, false;
          }
        }
        n := n + 1;
        pos := pos + 1;
      }
      return pos, seen, true;
    }

    method ListPosAsc(into: seq<nat>) returns (list: seq<nat>)
      requires Valid() && !compressed
      ensures list == into + Positions(Words(), size)
    {
      hide Asc, Join;
      var wide := size / U64_VALUE_SIZE;
      var pos: nat := 0;
      ghost var ws := data[..];
      list := into;
      AscEmpty(ws, 0);
      for i := 0 to wide
        invariant pos == U64_VALUE_SIZE * i && list == into + Asc(ws, 0, pos)
      {
        if Load64(data, i) == 0 {
          SkipFour(ws, U64_DIV_BASE * i);
          SkipAsc(ws, pos, pos + U64_VALUE_SIZE);
          pos := pos + U64_VALUE_SIZE;
        } else {
          for n := 0 to U64_DIV_BASE
            invariant pos == U64_VALUE_SIZE * i + VALUE_SIZE * n && list == into + Asc(ws, 0, pos)
          {
            pos, list := ListWord(U64_DIV_BASE * i + n, into, list);
          }
        }
      }
      for i := U64_DIV_BASE * wide to data.Length
        invariant pos >= VALUE_SIZE * i || pos == size
        invariant i < data.Length ==> pos == VALUE_SIZE * i
        invariant list == into + Asc(ws, 0, Min(pos, size))
      {
        if data[i] == 0 {
          ZeroWord(ws, i);
          SkipAsc(ws, pos, Min(pos + VALUE_SIZE, size));
          pos := pos + VALUE_SIZE;
        } else {
          pos, list := ListWord(i, into, list);
        }
      }
    }

    method ListWord(i: nat, ghost into: seq<nat>, before: seq<nat>) returns (pos: nat, list: seq<nat>)
      requires Valid() && !compressed && i < data.Length
      requires before == into + Asc(data[..], 0, VALUE_SIZE * i)
      ensures pos == Min(VALUE_SIZE * (i + 1), size) && list == into + Asc(data[..], 0, pos)
    {
      hide Asc, Test, Bit;
      ghost var ws := data[..];
      pos := VALUE_SIZE * i;
      list := before;
      var n: nat := 0;
      while n < VALUE_SIZE && pos < size
        invariant n <= VALUE_SIZE && pos == VALUE_SIZE * i + n && pos <= size
        invariant list == into + Asc(ws, 0, pos)
      {
        TestAt(ws, i, n);
        AscNext(ws, 0, pos);
        if Bit(data[i], n) {
          list := list + [pos];
        }
        n := n + 1;
        pos := pos + 1;
      }
    }

    // ----- the backward walk -----

    /**
     The walk runs one position past the end when the size is not a multiple of 14 and the last
     word is not zero: a bit set at position `size` is reported too.
     */
    method RForEach(cb: nat -> bool) returns (seen: seq<nat>)
      requires Valid() && !compressed
      ensures WalkOf(seen, PastEnd(Words(), size) + Desc(Words(), 0, size), cb)
    {
      hide Desc, PastEnd, WalkOf, PassedDown;
      var wide := size / U64_VALUE_SIZE;
      seen := [];
      if size % U64_VALUE_SIZE != 0 {
        var go;
        seen, go := WordsDown(cb);
        if !go { return; }
      } else {
        StartDown(data[..], wide, cb);
      }
      seen := WideDown(wide, cb, seen);
    }

    /** The words after the last full 64-bit group. */
    method WordsDown(cb: nat -> bool) returns (seen: seq<nat>, go: bool)
      requires Valid() && !compressed && size % U64_VALUE_SIZE != 0
      ensures go ==> PassedDown(data[..], size, U64_VALUE_SIZE * (size / U64_VALUE_SIZE), seen, cb)
      ensures !go ==> WalkOf(seen, PastEnd(data[..], size) + Desc(data[..], 0, size), cb)
    {
      hide Desc, PastEnd;
      var wide := size / U64_VALUE_SIZE;
      ghost var ws := data[..];
      var pos := size - 1;
      var start := data.Length - 1;
      if data[start] == 0 {
        ZeroWord(ws, start);
        SkipLast(ws, start, size);
        seen := [];
        pos := if size % VALUE_SIZE == 0 then pos - VALUE_SIZE else pos - size % VALUE_SIZE;
      } else {
        pos, seen, go := VisitLastDown(cb);
        if !go { return; }
      }
      var i := start - 1;
      while i >= U64_DIV_BASE * wide
        invariant U64_DIV_BASE * wide - 1 <= i < data.Length - 1 && pos == VALUE_SIZE * (i + 1) - 1
        invariant PassedDown(ws, size, VALUE_SIZE * (i + 1), seen, cb)
      {
        if data[i] == 0 {
          ZeroWord(ws, i);
          SkipDown(ws, size, VALUE_SIZE * i, VALUE_SIZE * (i + 1), seen, cb);
          pos := pos - VALUE_SIZE;
        } else {
          pos, seen, go := VisitDown(i, VALUE_SIZE, cb, seen);
          if !go { return; }
        }
        i := i - 1;
      }
      go := true;
    }

    /** The full 64-bit groups, highest first. */
    method WideDown(wide: nat, cb: nat -> bool, before: seq<nat>) returns (seen: seq<nat>)
      requires Valid() && !compressed && U64_VALUE_SIZE * wide <= size
      requires PassedDown(data[..], size, U64_VALUE_SIZE * wide, before, cb)
      ensures WalkOf(seen, PastEnd(data[..], size) + Desc(data[..], 0, size), cb)
    {
      hide Desc, Join, PastEnd;
      ghost var ws := data[..];
      var pos := U64_VALUE_SIZE * wide - 1;
      seen := before;
      var i := wide - 1;
      while i >= 0
        invariant -1 <= i < wide && pos == U64_VALUE_SIZE * (i + 1) - 1
        invariant PassedDown(ws, size, U64_VALUE_SIZE * (i + 1), seen, cb)
      {
        if Load64(data, i) == 0 {
          SkipFour(ws, U64_DIV_BASE * i);
          SkipDown(ws, size, U64_VALUE_SIZE * i, U64_VALUE_SIZE * (i + 1), seen, cb);
          pos := pos - U64_VALUE_SIZE;
        } else {
          for n := 0 to U64_DIV_BASE
            invariant pos == U64_VALUE_SIZE * (i + 1) - VALUE_SIZE * n - 1
            invariant PassedDown(ws, size, U64_VALUE_SIZE * (i + 1) - VALUE_SIZE * n, seen, cb)
          {
            var go;
            pos, seen, go := VisitDown((i + 1) * U64_DIV_BASE - 1 - n, VALUE_SIZE, cb, seen);
            if !go { return; }
          }
        }
        i := i - 1;
      }
    }

    /** Show the set positions of word `i` below bit `from`, highest first. */
    method VisitDown(i: nat, from: nat, cb: nat -> bool, before: seq<nat>) returns (pos: int, seen: seq<nat>, go: bool)
      requires Valid() && !compressed && i < data.Length && from <= VALUE_SIZE && VALUE_SIZE * i + from <= size
      requires PassedDown(data[..], size, VALUE_SIZE * i + from, before, cb)
      ensures go ==> pos == VALUE_SIZE * i - 1 && PassedDown(data[..], size, VALUE_SIZE * i, seen, cb)
      ensures !go ==> WalkOf(seen, PastEnd(data[..], size) + Desc(data[..], 0, size), cb)
    {
      hide Desc, Test, Bit, PastEnd;
      ghost var ws := data[..];
      pos := VALUE_SIZE * i + from - 1;
      seen := before;
      var n := from - 1;
      while n >= 0
        invariant -1 <= n < from && pos == VALUE_SIZE * i + n
        invariant PassedDown(ws, size, pos + 1, seen, cb)
      {
        TestAt(ws, i, n);
        DescNext(ws, size, pos);
        if Bit(data[i], n) {
          seen := seen + [pos];
          if !cb(pos) {
            StopDown(ws, size, pos, seen);
            return pos, seen, false;
          }
        }
        n := n - 1;
        pos := pos - 1;
      }
      return pos, seen, true;
    }

    /** The last word, when it is not zero: starts one position past the end if the word is partial. */
    method VisitLastDown(cb: nat -> bool) returns (pos: int, seen: seq<nat>, go: bool)
      requires Valid() && !compressed && size > 0 && data[data.Length - 1] != 0
      ensures go ==> pos == VALUE_SIZE * (data.Length - 1) - 1
      ensures go ==> PassedDown(data[..], size, VALUE_SIZE * (data.Length - 1), seen, cb)
      ensures !go ==> WalkOf(seen, PastEnd(data[..], size) + Desc(data[..], 0, size), cb)
    {
      hide Desc, Test, Bit;
      var i := data.Length - 1;
      ghost var ws := data[..];
      DescEmpty(ws, size);
      seen := [];
      if size % VALUE_SIZE == 0 {
        pos, seen, go := VisitDown(i, VALUE_SIZE, cb, seen);
      } else {
        var n := size % VALUE_SIZE;
        TestAt(ws, i, n);
        if Bit(data[i], n) {
          seen := [size];
          if !cb(size) {
            return size, seen, false;
          }
        }
        pos, seen, go := VisitDown(i, n, cb, seen);
      }
    }

    // ----- counting -----

    /**
     The plain form counts all bits of the words it takes four at a time: it never counts too few, and
     counts right exactly when those have no tag bits and no bits past the end. The compressed form
     adds up digits, not counts: it never counts too many, and counts right exactly when no run of
     ones carries into a second digit.
     */
    method GetCount() returns (count: nat)
      requires Valid()
      ensures count == if compressed then RawCount(data[..]) else WideCount(data[..], size)
      ensures !compressed ==> count >= |Positions(Words(), size)|
      ensures !compressed ==> (count == |Positions(Words(), size)| <==> GroupsClean(Words(), size))
      ensures compressed ==> count <= SetBits(Words()) && (count == SetBits(Words()) <==> NoCarry(data[..]))
      ensures compressed && TailClear(Words(), size) ==>
        count <= |Positions(Words(), size)| && (count == |Positions(Words(), size)| <==> NoCarry(data[..]))
    {
      if !compressed {
        count := CountPlain();
        WideCountExact(data[..], size);
      } else {
        count := 0;
        for i := 0 to data.Length
          invariant count + RawCount(data[i..]) == RawCount(data[..])
        {
          assert data[i..][1..] == data[i + 1..];
          if Tagged(data[i]) {
            if Value(data[i]) {
              count := count + Payload(data[i]);
            }
          } else {
            count := count + PopCount(data[i]);
          }
        }
        CompressedCountExact(data[..]);
        if TailClear(Words(), size) { CountIsPositions(data[..], size); }
      }
    }

    method CountPlain() returns (count: nat)
      requires Valid() && !compressed
      ensures count == WideCount(Words(), size)
    {
      hide Asc, Join, PopCount, SetBits;
      var len := data.Length / U64_DIV_BASE;
      count := 0;
      var pos: nat := 0;
      ghost var ws := data[..];
      NoSetBits(ws);
      for i := 0 to len
        invariant pos == U64_VALUE_SIZE * i && count == SetBits(ws[..U64_DIV_BASE * i])
      {
        PopCountJoin(data[4 * i], data[4 * i + 1], data[4 * i + 2], data[4 * i + 3]);
        FourMore(ws, U64_DIV_BASE * i);
        count := count + PopCount(Load64(data, i));
        pos := pos + U64_VALUE_SIZE;
      }
      ghost var base, lo := count, Min(pos, size);
      AscEmpty(ws, lo);
      for i := U64_DIV_BASE * len to data.Length
        invariant lo == Min(VALUE_SIZE * Grouped(ws), size) && base == SetBits(ws[..Grouped(ws)])
        invariant pos >= VALUE_SIZE * i || pos == size
        invariant i < data.Length ==> pos == VALUE_SIZE * i
        invariant lo <= Min(pos, size) && count == base + |Asc(ws, lo, Min(pos, size))|
      {
        if data[i] != 0 {
          pos, count := CountWordBelow(i, count, base, lo);
        } else {
          ZeroWord(ws, i);
          SkipFrom(ws, lo, Min(pos, size), Min(pos + VALUE_SIZE, size));
          pos := pos + VALUE_SIZE;
        }
      }
    }

    method CountWordBelow(i: nat, before: nat, ghost base: nat, ghost lo: nat) returns (pos: nat, count: nat)
      requires Valid() && !compressed && i < data.Length && lo <= VALUE_SIZE * i
      requires before == base + |Asc(data[..], lo, VALUE_SIZE * i)|
      ensures pos == Min(VALUE_SIZE * (i + 1), size) && count == base + |Asc(data[..], lo, pos)|
    {
      hide Asc, Test, Bit;
      ghost var ws := data[..];
      pos := VALUE_SIZE * i;
      count := before;
      var n: nat := 0;
      while n < VALUE_SIZE && pos < size
        invariant n <= VALUE_SIZE && pos == VALUE_SIZE * i + n && pos <= size
        invariant count == base + |Asc(ws, lo, pos)|
      {
        TestAt(ws, i, n);
        AscNext(ws, lo, pos);
        if Bit(data[i], n) {
          count := count + 1;
        }
        n := n + 1;
        pos := pos + 1;
      }
    }
  }
}
