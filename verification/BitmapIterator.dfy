/**
 The two bitmap iterators (Helens/ds/bitmap.cc, `Bitmap::iterator` and
 `Bitmap::iterator_reverse`): a position that moves to the next set bit.
 */
module BitmapIterator {
  import opened Bits
  import opened BitmapCodec
  import opened BitmapWords
  import opened BitmapPositions
  import opened BitmapObject

  /** The iterators keep the size in 32 signed bits and step past it by up to a word. */
  const MAX_ITER_SIZE := 0x7FFF_FFFF - 14

  class Forward {
    var pos: int
    const size: nat
    const data: array<Word>

    ghost predicate Valid()
      reads this, data
    {
      size <= MAX_ITER_SIZE && data.Length == WordCount(size) && -1 <= pos < size + VALUE_SIZE
    }

    /** The iterator rests on `p`: the first set position after `from`, or none below the size. */
    ghost predicate Found(from: int, p: int)
      requires -1 <= from < size && data.Length == WordCount(size)
      reads data
    {
      && from < p
      && (forall q :: from < q < p && q < size ==> !Test(data[..], q))
      && (p < size ==> Test(data[..], p))
    }

    constructor (b: Bitmap)
      requires b.Valid() && !b.compressed && b.size <= MAX_ITER_SIZE
      ensures Valid() && size == b.size && data == b.data && pos == -1
    {
      pos := -1;
      size := b.size;
      data := b.data;
    }

    /** operator!: true while the iterator is on a position. */
    method OnPosition() returns (r: bool)
      ensures r <==> 0 <= pos < size
    {
      r := !(pos >= size || pos < 0);
    }

    method Next()
      requires Valid() && pos < size
      modifies this`pos
      ensures Valid() && Found(old(pos), pos)
    {
      hide Test, Bit;
      ghost var ws, from := data[..], pos;
      pos := pos + 1;
      if pos % VALUE_SIZE != 0 {
        var i := pos % VALUE_SIZE;
        var w := pos / VALUE_SIZE;
        assert pos == VALUE_SIZE * w + i;
        while i < VALUE_SIZE && pos < size
          invariant 0 < i <= VALUE_SIZE && pos == VALUE_SIZE * w + i && from < pos <= size
          invariant forall q :: from < q < pos ==> !Test(ws, q)
        {
          TestAt(ws, w, i);
          if Bit(data[w], i) { return; }
          i := i + 1;
          pos := pos + 1;
        }
      }
      var i := pos / VALUE_SIZE;
      while i < data.Length && pos < size
        invariant from < pos < size + VALUE_SIZE && (pos < size ==> pos == VALUE_SIZE * i)
        invariant forall q :: from < q < pos && q < size ==> !Test(ws, q)
        invariant i >= 0
        invariant i >= data.Length ==> pos >= size
      {
        if data[i] == 0 {
          ZeroWord(ws, i);
          pos := pos + VALUE_SIZE;
        } else {
          var n := 0;
          while n < VALUE_SIZE && pos < size
            invariant 0 <= n <= VALUE_SIZE && pos == VALUE_SIZE * i + n && from < pos <= size
            invariant forall q :: from < q < pos ==> !Test(ws, q)
          {
            TestAt(ws, i, n);
            if Bit(data[i], n) { return; }
            n := n + 1;
            pos := pos + 1;
          }
        }
        i := i + 1;
      }
    }
  }

  class Backward {
    var pos: int
    const size: nat
    const data: array<Word>

    ghost predicate Valid()
      reads this, data
    {
      size <= MAX_ITER_SIZE && data.Length == WordCount(size) && -1 <= pos <= size
    }

    /** The iterator rests on `p`: the last set position before `from`, or -1 for none. */
    ghost predicate Found(from: int, p: int)
      requires from <= size && data.Length == WordCount(size)
      reads data
    {
      && -1 <= p
      && (forall q :: p < q < from && 0 <= q ==> !Test(data[..], q))
      && (0 <= p ==> p < from && Test(data[..], p))
    }

    constructor (b: Bitmap)
      requires b.Valid() && !b.compressed && b.size <= MAX_ITER_SIZE
      ensures Valid() && size == b.size && data == b.data && pos == size
    {
      pos := b.size;
      size := b.size;
      data := b.data;
    }

    method OnPosition() returns (r: bool)
      ensures r <==> 0 <= pos < size
    {
      r := !(pos >= size || pos < 0);
    }

    method Next()
      requires Valid()
      modifies this`pos
      ensures Valid() && Found(old(pos), pos)
    {
      hide Test, Bit;
      if pos <= 0 {
        pos := -1;
        return;
      }
      ghost var ws, from := data[..], pos;
      pos := pos - 1;
      var w := pos / VALUE_SIZE;
      if pos % VALUE_SIZE != VALUE_SIZE - 1 {
        var i := pos % VALUE_SIZE;
        while i >= 0 && pos >= 0
          invariant -1 <= i < VALUE_SIZE && pos == VALUE_SIZE * w + i && pos < from
          invariant forall q :: pos < q < from ==> !Test(ws, q)
        {
          TestAt(ws, w, i);
          if Bit(data[w], i) { return; }
          i := i - 1;
          pos := pos - 1;
        }
        w := w - 1;
      }
      var i := w;
      while i >= 0 && pos >= 0
        invariant -1 <= i < data.Length && pos == VALUE_SIZE * (i + 1) - 1 && pos < from
        invariant forall q :: pos < q < from ==> !Test(ws, q)
      {
        if data[i] == 0 {
          ZeroWord(ws, i);
          pos := pos - VALUE_SIZE;
        } else {
          var n := VALUE_SIZE - 1;
          while n >= 0 && pos >= 0
            invariant -1 <= n < VALUE_SIZE && pos == VALUE_SIZE * i + n && pos < from
            invariant forall q :: pos < q < from ==> !Test(ws, q)
          {
            TestAt(ws, i, n);
            if Bit(data[i], n) { return; }
            n := n - 1;
            pos := pos - 1;
          }
        }
        i := i - 1;
      }
    }
  }

  /** Running the forward iterator to its end yields the positions that the other walks yield. */
  method IterateForward(b: Bitmap) returns (seen: seq<nat>)
    requires b.Valid() && !b.compressed && b.size <= MAX_ITER_SIZE
    ensures seen == Positions(b.Words(), b.size)
  {
    hide Test, Asc;
    var it := new Forward(b);
    ghost var ws := b.data[..];
    seen := [];
    AscEmpty(ws, 0);
    it.Next();
    FoundForward(ws, b.size, -1, it.pos);
    var on := it.OnPosition();
    while on
      invariant it.Valid() && it.data == b.data && it.size == b.size && fresh(it)
      invariant on == (0 <= it.pos < b.size) && 0 <= it.pos
      invariant on ==> Test(ws, it.pos)
      invariant seen == Asc(ws, 0, Min(it.pos, b.size))
      decreases b.size + VALUE_SIZE - it.pos
    {
      var p := it.pos;
      seen := seen + [p];
      AscNext(ws, 0, p);
      it.Next();
      FoundForward(ws, b.size, p, it.pos);
      on := it.OnPosition();
    }
  }

  lemma FoundForward(ws: seq<Word>, size: nat, from: int, p: int)
    requires -1 <= from < p && from < size <= VALUE_SIZE * |ws|
    requires forall q :: from < q < p && q < size ==> !Test(ws, q)
    ensures Asc(ws, 0, Min(p, size)) == Asc(ws, 0, from + 1)
  {
    hide Test, Asc;
    SkipAsc(ws, from + 1, Min(p, size));
  }

  /** Running the reverse iterator to its end yields them backwards. */
  method IterateBackward(b: Bitmap) returns (seen: seq<nat>)
    requires b.Valid() && !b.compressed && b.size <= MAX_ITER_SIZE
    ensures seen == Reverse(Positions(b.Words(), b.size))
  {
    hide Test, Desc, Reverse, Positions;
    var it := new Backward(b);
    ghost var ws := b.data[..];
    seen := [];
    DescEmpty(ws, b.size);
    it.Next();
    FoundBackward(ws, b.size, b.size, it.pos);
    var on := it.OnPosition();
    while on
      invariant it.Valid() && it.data == b.data && it.size == b.size && fresh(it)
      invariant on == (0 <= it.pos < b.size) && it.pos < b.size
      invariant on ==> Test(ws, it.pos)
      invariant seen == Desc(ws, it.pos + 1, b.size)
      decreases it.pos
    {
      var p := it.pos;
      seen := seen + [p];
      DescNext(ws, b.size, p);
      it.Next();
      FoundBackward(ws, b.size, p, it.pos);
      on := it.OnPosition();
    }
    DescIsPositions(ws, b.size);
  }

  lemma DescIsPositions(ws: seq<Word>, size: nat)
    requires size <= VALUE_SIZE * |ws|
    ensures Desc(ws, 0, size) == Reverse(Positions(ws, size))
  {
    DescIsReverse(ws, 0, size);
  }

  lemma FoundBackward(ws: seq<Word>, size: nat, from: nat, p: int)
    requires -1 <= p && from <= size <= VALUE_SIZE * |ws| && (0 <= p ==> p < from)
    requires forall q :: p < q < from && 0 <= q ==> !Test(ws, q)
    ensures Desc(ws, p + 1, size) == Desc(ws, from, size)
  {
    hide Test, Desc;
    EmptyInterval(ws, p + 1, from);
    DescSplit(ws, p + 1, from, size);
  }
}
