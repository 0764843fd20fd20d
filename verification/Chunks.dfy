/** A flat byte sequence cut into chunks of one size. */
module Chunks {
  import opened Arith

  type Byte = b: nat | b < 256

  /** `s` with the bytes from `p` on overwritten by `x`. */
  function Splice(s: seq<Byte>, p: nat, x: seq<Byte>): (r: seq<Byte>)
    requires p + |x| <= |s|
    ensures |r| == |s|
    ensures r[..p] == s[..p] && r[p..p + |x|] == x && r[p + |x|..] == s[p + |x|..]
  {
    s[..p] + x + s[p + |x|..]
  }

  /** Overwriting two adjacent stretches is overwriting their concatenation. */
  lemma SpliceTwice(s: seq<Byte>, p: nat, x: seq<Byte>, y: seq<Byte>)
    requires p + |x| + |y| <= |s|
    ensures Splice(Splice(s, p, x), p + |x|, y) == Splice(s, p, x + y)
  {
    var t := Splice(s, p, x);
    assert t[..p + |x|] == s[..p] + x;
    assert t[p + |x| + |y|..] == s[p + |x| + |y|..];
    assert s[..p] + x + y == s[..p] + (x + y);
  }

  /** Where chunk `i` starts. */
  function Off(base: nat, i: nat): nat { base * i }

  lemma OffNext(base: nat, i: nat)
    ensures Off(base, i + 1) == Off(base, i) + base
  {}

  lemma OffMono(base: nat, i: nat, j: nat)
    requires i <= j
    ensures Off(base, i) <= Off(base, j)
  {
    assert base * (j - i) >= 0;
  }

  lemma OffStrict(base: nat, i: nat, j: nat)
    requires i < j
    ensures Off(base, i) + base <= Off(base, j)
  {
    OffNext(base, i);
    OffMono(base, i + 1, j);
  }

  lemma OffDiv(base: nat, i: nat, n: nat)
    requires n < base
    ensures (Off(base, i) + n) / base == i && (Off(base, i) + n) % base == n
  {
    assert Off(base, i) == i * base;
    DivUnique(Off(base, i) + n, base, i, n);
  }

  lemma OffSplit(base: nat, p: nat)
    requires base > 0
    ensures p == Off(base, p / base) + p % base
  {
    assert p == (p / base) * base + p % base;
    assert Off(base, p / base) == (p / base) * base;
  }

  /** A position below chunk m's start lies in a chunk below m. */
  lemma OffBelow(base: nat, p: nat, m: nat)
    requires base > 0 && p < Off(base, m)
    ensures p / base < m
  {
    OffSplit(base, p);
    if p / base >= m {
      OffMono(base, m, p / base);
      assert false;
    }
  }

  function Chunk(s: seq<Byte>, base: nat, i: nat): seq<Byte>
    requires Off(base, i) + base <= |s|
  {
    s[Off(base, i)..Off(base, i) + base]
  }

  /** Overwriting within chunk `k` changes chunk `k` alone. */
  lemma SpliceOwnChunk(s: seq<Byte>, base: nat, k: nat, n: nat, x: seq<Byte>)
    requires Off(base, k) + base <= |s| && n + |x| <= base
    ensures Chunk(Splice(s, Off(base, k) + n, x), base, k) == Splice(Chunk(s, base, k), n, x)
  {
    hide Off;
  }

  lemma SpliceOtherChunk(s: seq<Byte>, base: nat, k: nat, n: nat, x: seq<Byte>, i: nat)
    requires Off(base, k) + base <= |s| && n + |x| <= base
    requires i != k && Off(base, i) + base <= |s|
    ensures Chunk(Splice(s, Off(base, k) + n, x), base, i) == Chunk(s, base, i)
  {
    hide Off;
    if i < k { OffStrict(base, i, k); } else { OffStrict(base, k, i); }
    var r := Splice(s, Off(base, k) + n, x);
    var o := Off(base, i);
    var q := Off(base, k) + n + |x|;
    forall j | o <= j < o + base ensures r[j] == s[j] {
      if i > k { assert r[j] == r[q..][j - q]; }
    }
  }

  lemma AppendChunk(s: seq<Byte>, base: nat, x: seq<Byte>, i: nat)
    requires Off(base, i) + base <= |s|
    ensures Chunk(s + x, base, i) == Chunk(s, base, i)
  {
    hide Off;
  }

  lemma LastChunk(s: seq<Byte>, base: nat, x: seq<Byte>, m: nat)
    requires |s| == Off(base, m) && |x| == base
    ensures Chunk(s + x, base, m) == x
  {
    hide Off;
  }

  lemma OffOne(base: nat)
    ensures Off(base, 0) == 0 && Off(base, 1) == base
  {}

  /** The rounded-up chunk count covers `n` bytes and no chunk is superfluous. */
  lemma CeilCovers(n: nat, base: nat)
    requires base > 0 && n > 0
    ensures var count := (n + base - 1) / base;
      count > 0 && n <= Off(base, count) < n + base
  {
    var count := (n + base - 1) / base;
    OffSplit(base, n + base - 1);
    OffOne(base);
    assert (n + base - 1) % base < base;
    assert Off(base, 0) == 0 && Off(base, count) > 0;
  }

  /** A position in one of the first m chunks keeps its chunk when chunks are appended. */
  lemma CursorKept(base: nat, m: nat, m': nat, p: nat)
    requires base > 0 && m < m' && p <= Off(base, m)
    ensures p < Off(base, m')
    ensures p < Off(base, m) ==> p / base < m
    ensures p == Off(base, m) ==> p / base == m
  {
    OffStrict(base, m, m');
    if p < Off(base, m) {
      OffBelow(base, p, m);
    } else {
      OffDiv(base, m, 0);
    }
  }

  /** Where the cursor stands after reaching offset `n` of chunk `k`, of m chunks. */
  lemma CursorStep(base: nat, k: nat, n: nat, m: nat)
    requires base > 0 && k < m && 0 < n <= base
    ensures var p := Off(base, k) + n;
      && p <= Off(base, m)
      && (n < base ==> p < Off(base, m) && p / base == k)
      && (n == base && k + 1 < m ==> p < Off(base, m) && p / base == k + 1)
      && (n == base && k + 1 == m ==> p == Off(base, m))
  {
    OffNext(base, k);
    OffMono(base, k + 1, m);
    if n < base {
      OffDiv(base, k, n);
    } else if k + 1 < m {
      OffStrict(base, k + 1, m);
      OffDiv(base, k + 1, 0);
    }
  }

  /** Bytes beyond the end of chunk `k` lie in a further chunk. */
  lemma MoreNodes(base: nat, k: nat, m: nat)
    requires k < m && Off(base, k) + base < Off(base, m)
    ensures k + 1 < m
  {
    OffNext(base, k);
  }

  lemma SpliceNothing(s: seq<Byte>, p: nat)
    requires p <= |s|
    ensures Splice(s, p, []) == s
  {
    assert s[..p] + [] + s[p..] == s;
  }

  lemma SpliceMore(s: seq<Byte>, p: nat, buf: seq<Byte>, done: nat, n: nat)
    requires done + n <= |buf| && p + |buf| <= |s|
    ensures Splice(Splice(s, p, buf[..done]), p + done, buf[done..done + n]) == Splice(s, p, buf[..done + n])
  {
    hide Splice;
    SpliceTwice(s, p, buf[..done], buf[done..done + n]);
    assert buf[..done] + buf[done..done + n] == buf[..done + n];
  }

  lemma OffInjective(base: nat, i: nat, j: nat)
    requires base > 0
    ensures Off(base, i) == Off(base, j) <==> i == j
  {
    if i < j {
      OffStrict(base, i, j);
    } else if j < i {
      OffStrict(base, j, i);
    }
  }

  lemma SliceSlice(s: seq<Byte>, o: nat, m: nat, at: nat, n: nat)
    requires o + m <= |s| && at + n <= m
    ensures s[o..o + m][at..at + n] == s[o + at..o + at + n]
  {
    var t := s[o..o + m];
    var a, b := t[at..at + n], s[o + at..o + at + n];
    forall i | 0 <= i < n ensures a[i] == b[i] {
      assert t[at + i] == s[o + at + i];
    }
  }

  /** `after` is `before`, possibly longer, with `data` written at `p` and nothing else changed. */
  ghost predicate WroteAt(before: seq<Byte>, after: seq<Byte>, p: nat, data: seq<Byte>) {
    && p <= |before| <= |after| && p + |data| <= |after|
    && after[..p] == before[..p]
    && after[p..p + |data|] == data
    && forall i :: p + |data| <= i < |before| ==> after[i] == before[i]
  }

  lemma WroteTwice(b0: seq<Byte>, b1: seq<Byte>, b2: seq<Byte>, p: nat, x: seq<Byte>, y: seq<Byte>)
    requires WroteAt(b0, b1, p, x) && p + |x| <= |b1| && WroteAt(b1, b2, p + |x|, y)
    ensures WroteAt(b0, b2, p, x + y)
  {
    var q := p + |x|;
    assert b2[..p] == b2[..q][..p] == b1[..q][..p] == b1[..p];
    assert b2[p..q] == b2[..q][p..] == b1[..q][p..] == b1[p..q];
    assert b2[p..q + |y|] == b2[p..q] + b2[q..q + |y|];
  }

  lemma SliceJoin(s: seq<Byte>, p: nat, m: nat, n: nat)
    requires m <= n && p + n <= |s|
    ensures s[p..p + n] == s[p..p + m] + s[p + m..p + n]
  {}

  lemma FirstChunk(s: seq<Byte>, base: nat)
    requires base <= |s|
    ensures Off(base, 0) + base <= |s| && Chunk(s, base, 0) == s[..base]
  {}

  lemma OnlyChunk(s: seq<Byte>, base: nat)
    requires base == |s|
    ensures Off(base, 0) + base <= |s| && Chunk(s, base, 0) == s
  {}
}
