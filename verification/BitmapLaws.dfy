/** Laws that span several bitmap operations. */
module BitmapLaws {
  import opened Bits
  import opened BitmapCodec
  import opened BitmapWords
  import opened BitmapPositions
  import opened BitmapCount
  import opened BitmapCompress
  import opened BitmapObject

  /** Compressing and uncompressing gives back the same size and the same words. */
  method RoundTrip(b: Bitmap) returns (u: Bitmap)
    requires b.Valid() && b.Clean()
    ensures u.Valid() && !u.compressed && u.size == b.size && u.Words() == b.Words()
  {
    var c := b.Compress();
    u := c.Uncompress();
  }

  /**
   Comparing compressed forms compares positions: the compressed forms of two bitmaps are equal exactly
   if the bitmaps have the same size and the same words, but for tag bits.
   */
  method EqualsCompressed(a: Bitmap, b: Bitmap) returns (r: bool)
    requires a.Valid() && b.Valid() && !a.compressed && !b.compressed
    requires MixedClean(a.Words()) && MixedClean(b.Words())
    ensures r <==> a.size == b.size && Payloads(a.Words()) == Payloads(b.Words())
  {
    hide Decode, WellFormed, ShortRuns, NoCarry, PlainLiterals, MixedClean, Readable;
    var c := a.Compress();
    var d := b.Compress();
    r := c.Equals(d);
  }

  /** `a &= b` gives the same words whether b is compressed or not: what is set in both. */
  method AndAgrees(a: Bitmap, b: Bitmap) returns (plain: Bitmap, packed: Bitmap)
    requires a.Valid() && b.Valid() && !a.compressed && !b.compressed && a.size == b.size
    requires a.Clean() && b.Clean()
    ensures plain.Valid() && packed.Valid() && !plain.compressed && !packed.compressed
    ensures plain.data[..] == packed.data[..] == ZipAnd(a.Words(), b.Words())
    ensures forall p :: 0 <= p < a.size ==> (Test(plain.data[..], p) <==> Test(a.Words(), p) && Test(b.Words(), p))
  {
    hide Decode, WellFormed, Test, ShortRuns, NoCarry, PlainLiterals;
    plain := new Bitmap.Copy(a);
    packed := new Bitmap.Copy(a);
    var c := b.Compress();
    var r := plain.AndWith(b);
    r := packed.AndWith(c);
    SetInBoth(a.Words(), b.Words(), a.size);
  }

  lemma SetInBoth(a: seq<Word>, b: seq<Word>, size: nat)
    requires |a| == |b| == WordCount(size)
    ensures forall p :: 0 <= p < size ==> (Test(ZipAnd(a, b), p) <==> Test(a, p) && Test(b, p))
  {
    hide Test;
    forall p | 0 <= p < size ensures Test(ZipAnd(a, b), p) <==> Test(a, p) && Test(b, p) {
      TestAnd(a, b, p);
    }
  }

  /** `a |= b` gives the same words whether b is compressed or not: what is set in either. */
  method OrAgrees(a: Bitmap, b: Bitmap) returns (plain: Bitmap, packed: Bitmap)
    requires a.Valid() && b.Valid() && !a.compressed && !b.compressed && a.size == b.size
    requires a.Clean() && b.Clean()
    ensures plain.Valid() && packed.Valid() && !plain.compressed && !packed.compressed
    ensures plain.data[..] == packed.data[..] == ZipOr(a.Words(), b.Words())
    ensures forall p :: 0 <= p < a.size ==> (Test(plain.data[..], p) <==> Test(a.Words(), p) || Test(b.Words(), p))
  {
    hide Decode, WellFormed, Test, ShortRuns, NoCarry, PlainLiterals;
    plain := new Bitmap.Copy(a);
    packed := new Bitmap.Copy(a);
    var c := b.Compress();
    var r := plain.OrWith(b);
    r := packed.OrWith(c);
    SetInEither(a.Words(), b.Words(), a.size);
  }

  lemma SetInEither(a: seq<Word>, b: seq<Word>, size: nat)
    requires |a| == |b| == WordCount(size)
    ensures forall p :: 0 <= p < size ==> (Test(ZipOr(a, b), p) <==> Test(a, p) || Test(b, p))
  {
    hide Test;
    forall p | 0 <= p < size ensures Test(ZipOr(a, b), p) <==> Test(a, p) || Test(b, p) {
      TestOr(a, b, p);
    }
  }

  /** `a.cross(b)` gives the same answer whether b is compressed or not: a position set in both. */
  method CrossAgrees(a: Bitmap, b: Bitmap) returns (plain: bool, packed: bool)
    requires a.Valid() && b.Valid() && !a.compressed && !b.compressed && a.size == b.size
    requires a.Clean() && b.Clean()
    ensures plain == packed
    ensures plain <==>
      exists p :: 0 <= p < VALUE_SIZE * |a.Words()| && Test(a.Words(), p) && Test(b.Words(), p)
  {
    hide Decode, WellFormed;
    var c := b.Compress();
    plain := a.Cross(b);
    packed := a.Cross(c);
    CrossesMeans(a.Words(), b.Words());
  }

  /** Complementing the compressed form flips every position and undoes itself. */
  method ComplementFlips(b: Bitmap) returns (c: Bitmap, d: Bitmap)
    requires b.Valid() && b.compressed
    ensures c.Valid() && c.compressed && c.size == b.size
    ensures forall p :: 0 <= p < b.size ==> Test(c.Words(), p) == !Test(b.Words(), p)
    ensures d.Valid() && d.compressed && d.size == b.size && d.Words() == b.Words()
  {
    hide Decode, WellFormed, Test;
    c := new Bitmap.Copy(b);
    c.Complement();
    DecodeIsPlain(b.data[..]);
    forall p | 0 <= p < b.size ensures Test(c.Words(), p) == !Test(b.Words(), p) {
      TestNot(b.Words(), p);
    }
    d := new Bitmap.Copy(c);
    d.Complement();
    NotTwice(b.Words());
  }

  /** The complement of an uncompressed bitmap flips every position too, but sets the tag bits. */
  method PlainComplementFlips(b: Bitmap)
    requires b.Valid() && !b.compressed && b.Clean()
    modifies b.data
    ensures b.Valid() && !b.compressed
    ensures forall p :: 0 <= p < b.size ==> Test(b.Words(), p) == !Test(old(b.Words()), p)
    ensures b.Clean() <==> b.size == 0
    ensures Readable(b.Words()) <==> forall i :: 0 <= i < b.data.Length ==> Uniform(old(b.data[i]))
  {
    hide Test;
    b.Complement();
    ghost var was, now := old(b.data[..]), b.data[..];
    forall p | 0 <= p < b.size ensures Test(now, p) == !Test(was, p) {
      TestNot16(was, now, p);
    }
    assert b.size > 0 ==> now[0] > COUNT_MASK;
    forall i | 0 <= i < |now| ensures Tagged(now[i]) && (Uniform(now[i]) <==> Uniform(was[i])) {
      FlippedUniform(was[i]);
    }
  }

  lemma FlippedUniform(w: Word)
    requires w <= COUNT_MASK
    ensures Tagged(WORD_LIMIT - 1 - w) && (Uniform(WORD_LIMIT - 1 - w) <==> Uniform(w))
  {}

  lemma TestNot16(was: seq<Word>, now: seq<Word>, p: nat)
    requires |was| == |now| && p / VALUE_SIZE < |was|
    requires forall i :: 0 <= i < |was| ==> now[i] == WORD_LIMIT - 1 - was[i]
    ensures Test(now, p) == !Test(was, p)
  {
    hide Pow2, Bit;
    Pow2Values();
    BitFlip(was[p / VALUE_SIZE], 16, p % VALUE_SIZE);
  }

  /** A complemented word with its tag bits set is not a compressed form at all. */
  lemma ComplementedWordIsNoRun()
    ensures !WellFormed([0xFFFE])
  {
    var s: seq<Word> := [0xFFFE];
    assert RunLength(s) == 1 && s[..1] == s;
    OneDigit(0xFFFE);
  }

  /** All walks over one bitmap agree, when nothing is set past the end. */
  method WalksAgree(b: Bitmap) returns (forward: seq<nat>, listed: seq<nat>, backward: seq<nat>, count: nat)
    requires b.Valid() && !b.compressed && b.Clean() && TailClear(b.Words(), b.size)
    ensures forward == listed == Positions(b.Words(), b.size)
    ensures backward == Reverse(forward) && count == |forward|
  {
    hide Asc, Desc, Test, Reverse, PastEnd;
    var yes := (_: nat) => true;
    forward := b.ForEach(yes);
    listed := b.ListPosAsc([]);
    backward := b.RForEach(yes);
    count := b.GetCount();
    ghost var ws := b.Words();
    CleanGroups(ws, b.size);
    NothingPastEnd(ws, b.size);
    BackwardIsReverse(ws, b.size);
    assert [] + Positions(ws, b.size) == Positions(ws, b.size);
    FullWalk(forward, Positions(ws, b.size), yes);
    FullWalk(backward, PastEnd(ws, b.size) + Desc(ws, 0, b.size), yes);
  }

  lemma FullWalk(seen: seq<nat>, all: seq<nat>, cb: nat -> bool)
    requires WalkOf(seen, all, cb) && forall n :: cb(n)
    ensures seen == all
  {}

  lemma NothingPastEnd(ws: seq<Word>, size: nat)
    requires |ws| == WordCount(size) && TailClear(ws, size)
    ensures size % VALUE_SIZE == 0 || !Test(ws, size)
  {}

  lemma CleanGroups(ws: seq<Word>, size: nat)
    requires Plain(ws) && TailClear(ws, size)
    ensures GroupsClean(ws, size)
  {}

  /** Every position keeps its value under compression iff no mixed word has its first tag bit set. */
  method PositionsSurvive(b: Bitmap) returns (c: Bitmap)
    requires b.Valid() && !b.compressed
    ensures c.compressed && c.size == b.size
    ensures SamePositions(c.Words(), b.Words()) <==> Readable(b.Words())
  {
    hide Decode, WellFormed, ShortRuns, NoCarry, PlainLiterals, Readable, MixedClean, SamePositions;
    c := b.Compress();
    DecodeIsPlain(c.data[..]);
    PositionsDecide(c.Words(), b.Words());
  }

  ghost predicate SamePositions(a: seq<Word>, b: seq<Word>) {
    |a| == |b| && forall p :: 0 <= p < VALUE_SIZE * |a| ==> (Test(a, p) <==> Test(b, p))
  }

  /** Words without tag bits are determined by their positions. */
  lemma PositionsDecide(a: seq<Word>, b: seq<Word>)
    requires Plain(a)
    ensures SamePositions(a, b) <==> a == Payloads(b)
  {
    hide Test;
    if a == Payloads(b) {
      forall p | 0 <= p < VALUE_SIZE * |a| ensures Test(a, p) <==> Test(b, p) {
        TestPayload(a, p);
        TestPayload(b, p);
        CleanPayload(a[p / VALUE_SIZE]);
      }
    }
    if SamePositions(a, b) {
      forall i | 0 <= i < |a| ensures a[i] == Payload(b[i]) { WordDecided(a, b, i); }
    }
  }

  lemma CleanPayload(w: Word)
    ensures Payload(Payload(w)) == Payload(w)
  {}

  lemma WordDecided(a: seq<Word>, b: seq<Word>, i: nat)
    requires Plain(a) && SamePositions(a, b) && i < |a|
    ensures a[i] == Payload(b[i])
  {
    hide Test, Bit, Pow2;
    Pow2Values();
    forall x | 0 <= x < 14 ensures Bit(a[i], x) <==> Bit(Payload(b[i]), x) {
      var p := VALUE_SIZE * i + x;
      assert p / VALUE_SIZE == i && p % VALUE_SIZE == x;
      TestPayload(b, p);
      TestAt(a, i, x);
    }
    BitsDecide(a[i], Payload(b[i]), 14);
  }

  lemma {:induction false} BitsDecide(v: nat, w: nat, k: nat)
    requires v < Pow2(k) && w < Pow2(k) && forall x :: 0 <= x < k ==> (Bit(v, x) <==> Bit(w, x))
    ensures v == w
  {
    if k > 0 {
      forall x | 0 <= x < k - 1 ensures Bit(v / 2, x) <==> Bit(w / 2, x) { assert Bit(v, x + 1) <==> Bit(w, x + 1); }
      BitsDecide(v / 2, w / 2, k - 1);
      assert Bit(v, 0) <==> Bit(w, 0);
    }
  }

  // ----- where the promises end -----

  /** A bitmap filled with 0xff has tag bits, and still all its positions survive. */
  method FilledSurvives(size: nat) returns (b: Bitmap, u: Bitmap)
    requires VALUE_SIZE * WordCount(size) < U32_LIMIT && size > 0
    ensures b.Valid() && !b.compressed && b.size == size && !b.Clean()
    ensures u.Valid() && !u.compressed && u.size == size && u.Words() == Payloads(b.Words())
  {
    hide Decode, WellFormed, ShortRuns, NoCarry, PlainLiterals;
    b := new Bitmap(size, 255);
    assert b.data[..][0] == 0xFFFF;
    var c := b.Compress();
    u := c.Uncompress();
  }

  /** Fifty-six bits, filled with 0xff: the plain count says sixty-four. */
  method TagBitsCounted() returns (size: nat, count: nat)
    ensures size == 56 && count == 64
  {
    hide Asc, SetBits, PopCount, Join;
    var b := new Bitmap(56, 255);
    assert WordCount(56) == 4;
    count := b.CountPlain();
    ghost var ws := b.data[..];
    assert forall i :: 0 <= i < 4 ==> ws[i] == 0xFFFF;
    NoSetBits(ws);
    FourMore(ws, 0);
    AllOnesCount();
    AscEmpty(ws, 56);
    size := b.size;
  }

  lemma AllOnesCount()
    ensures PopCount(0xFFFF) == 16
  {
    hide PopCount, Pow2;
    Pow2Values();
    PopCountExtremes(0xFFFF, 16);
  }

  /** The count of the compressed form is never too large, and right iff no stretch of full words is longer than 1170. */
  method CountsAgree(b: Bitmap) returns (plain: nat, packed: nat)
    requires b.Valid() && !b.compressed && b.Clean() && TailClear(b.Words(), b.size)
    ensures plain == |Positions(b.Words(), b.size)| && packed <= plain
    ensures packed == plain <==> ShortRuns(b.Words())
  {
    hide Decode, WellFormed, ShortRuns, NoCarry, PlainLiterals, TailClear, Asc;
    plain := b.GetCount();
    CleanGroups(b.Words(), b.size);
    var c := b.Compress();
    packed := c.GetCount();
  }

  /** 1171 full words, 16394 set bits: their compressed form counts fewer. */
  method LongRunMiscounted() returns (plain: nat, packed: nat)
    ensures packed < plain
  {
    hide Decode, WellFormed, NoCarry, PlainLiterals, Asc;
    var b := new Bitmap(16394, 0);
    assert WordCount(16394) == 1171;
    b.SetRange(0, 16394, true);
    assert forall i :: 0 <= i < 1171 ==> b.data[..][i] == COUNT_MASK;
    assert TailClear(b.Words(), 16394);
    plain, packed := CountsAgree(b);
    assert !Broken(b.Words(), 0);
  }

  /** Thirteen bits, complemented in place: the backward walk starts with position 13, which is past the end. */
  method WalkPastEnd() returns (size: nat, seen: seq<nat>)
    ensures size == 13 && seen != [] && seen[0] == 13
  {
    hide Desc;
    var b := new Bitmap(13, 0);
    assert WordCount(13) == 1;
    ghost var was := b.data[..];
    b.Complement();
    ghost var now := b.data[..];
    TestNot16(was, now, 13);
    NoBits(was, 13);
    seen := b.RForEach((_: nat) => true);
    FullWalk(seen, PastEnd(now, 13) + Desc(now, 0, 13), (_: nat) => true);
    size := b.size;
  }

  lemma NoBits(ws: seq<Word>, p: nat)
    requires p / VALUE_SIZE < |ws| && ws[p / VALUE_SIZE] == 0
    ensures !Test(ws, p)
  {
    ZeroHasNoBits(p % VALUE_SIZE);
  }
}
