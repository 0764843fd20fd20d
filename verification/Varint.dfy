/**
 Variable-length integers on byte sequences (Helens/bytearray.cc; unsigned LEB128, section 7.6 of
 DWARF Version 4): seven bits a byte, lowest first, the top bit set on every byte but the last.
 */
module Varint {
  import opened Options
  import opened Arith
  import opened Bits
  import opened Chunks


  /** What a reader makes of the bytes in front of it: a value and how many bytes it took. */
  datatype Parsed = Parsed(value: nat, used: nat)

  function Encode(n: nat): (r: seq<Byte>)
    ensures |r| > 0
  {
    if n < 0x80 then [n] else [n % 0x80 + 0x80] + Encode(n / 0x80)
  }

  /** Read at most `k` bytes; None when the bytes run out first. */
  function Parse(s: seq<Byte>, k: nat): (r: Option<Parsed>)
    ensures r.Some? ==> r.value.used <= |s| && r.value.used <= k
    decreases k
  {
    if k == 0 then Some(Parsed(0, 0))
    else if s == [] then None
    else if s[0] < 0x80 then Some(Parsed(s[0], 1))
    else
      match Parse(s[1..], k - 1)
      case None => None
      case Some(p) => Some(Parsed(s[0] % 0x80 + 0x80 * p.value, p.used + 1))
  }

  lemma {:induction false} EncodeLength(n: nat, k: nat)
    requires k > 0 && n < Pow2(7 * k)
    ensures |Encode(n)| <= k
  {
    if n >= 0x80 {
      Pow2Seven(k - 1);
      assert k > 1 by { if k == 1 { Pow2SevenOne(); } }
      EncodeLength(n / 0x80, k - 1);
    }
  }

  /** Byte `i` holds the seven bits from `7 * i` on, and says whether more follow; there are no bytes to spare. */
  lemma {:induction false} EncodedByte(n: nat, i: nat)
    requires i < |Encode(n)|
    ensures Encode(n)[i] == n / Pow2(7 * i) % 0x80 + (if i + 1 < |Encode(n)| then 0x80 else 0)
    ensures n < Pow2(7 * |Encode(n)|) && (|Encode(n)| > 1 ==> Pow2(7 * (|Encode(n)| - 1)) <= n)
    decreases n
  {
    hide Pow2;
    Pow2SevenOne();
    if n >= 0x80 {
      var m := |Encode(n / 0x80)|;
      EncodedByte(n / 0x80, if i > 0 then i - 1 else 0);
      Pow2Seven(m);
      Pow2Seven(m - 1);
      assert |Encode(n)| == m + 1;
      if i > 0 {
        Pow2Seven(i - 1);
        DivDiv(n, 0x80, Pow2(7 * (i - 1)));
      }
    }
  }

  /**
   What a reader of at most `k` bytes takes: everything up to the first byte without the top bit, or
   all `k`; the lower seven bits of each, lowest first. It fails iff the bytes end before.
   */
  lemma {:induction false} ParseMeans(s: seq<Byte>, k: nat)
    ensures var r := Parse(s, k);
      && (r.None? <==> |s| < k && forall i :: 0 <= i < |s| ==> s[i] >= 0x80)
      && (r.Some? ==>
            var p := r.value;
            && (forall i :: 0 <= i < p.used - 1 ==> s[i] >= 0x80)
            && (p.used == k || (p.used > 0 && s[p.used - 1] < 0x80))
            && p.value < Pow2(7 * p.used))
    decreases k
  {
    hide Pow2;
    Pow2SevenOne();
    if k > 0 && s != [] && s[0] >= 0x80 {
      var r := Parse(s[1..], k - 1);
      ParseMeans(s[1..], k - 1);
      if r.Some? {
        Pow2Seven(r.value.used);
        assert Parse(s, k).value.used == r.value.used + 1;
      }
      assert forall i :: 0 < i < |s| ==> s[i] == s[1..][i - 1];
      assert forall i :: 0 <= i < |s[1..]| ==> s[1..][i] == s[i + 1];
    }
  }

  lemma {:induction false} ParsedDigit(s: seq<Byte>, k: nat, i: nat)
    requires Parse(s, k).Some? && i < Parse(s, k).value.used
    ensures Parse(s, k).value.value / Pow2(7 * i) % 0x80 == s[i] % 0x80
    decreases k
  {
    hide Pow2;
    Pow2SevenOne();
    var v := Parse(s, k).value.value;
    assert v % 0x80 == s[0] % 0x80 && v / Pow2(7 * 0) == v;
    if i > 0 {
      ParsedRest(s, k);
      ParsedDigit(s[1..], k - 1, i - 1);
      Pow2Seven(i - 1);
      DivDiv(v, 0x80, Pow2(7 * (i - 1)));
    }
  }

  lemma ParsedRest(s: seq<Byte>, k: nat)
    requires Parse(s, k).Some? && Parse(s, k).value.used > 1
    ensures k > 0 && s != [] && Parse(s[1..], k - 1).Some?
    ensures Parse(s[1..], k - 1).value == Parsed(Parse(s, k).value.value / 0x80, Parse(s, k).value.used - 1)
  {}

  lemma Pow2SevenOne()
    ensures Pow2(0) == 1 && Pow2(7) == 0x80
  {
    assert Pow2(4) == 16;
  }

  lemma Pow2Seven(k: nat)
    ensures Pow2(7 * (k + 1)) == 0x80 * Pow2(7 * k)
  {
    Pow2Add(7 * k, 7);
    Pow2SevenOne();
    assert 7 * (k + 1) == 7 * k + 7;
  }

  /** Reading after writing gives the value back and takes exactly the written bytes. */
  lemma {:induction false} RoundTrip(n: nat, rest: seq<Byte>, k: nat)
    requires |Encode(n)| <= k
    ensures Parse(Encode(n) + rest, k) == Some(Parsed(n, |Encode(n)|))
    decreases n
  {
    var e := Encode(n);
    var s := e + rest;
    assert s[0] == e[0];
    if n >= 0x80 {
      assert s[1..] == Encode(n / 0x80) + rest;
      RoundTrip(n / 0x80, rest, k - 1);
    }
  }

  // ----- the reader's loop, one byte at a time -----

  /** The value of a parse whose first bytes, worth `low`, have been taken off. */
  function Extend(low: nat, j: nat, r: Option<Parsed>): Option<Parsed> {
    match r
    case None => None
    case Some(p) => Some(Parsed(low + Pow2(7 * j) * p.value, p.used + j))
  }

  lemma ExtendNothing(r: Option<Parsed>)
    ensures Extend(0, 0, r) == r
  {
    Pow2SevenOne();
  }

  /** Taking one more byte with the top bit set. */
  lemma ExtendMore(low: nat, j: nat, s: seq<Byte>, k: nat)
    requires k > 0 && s != [] && s[0] >= 0x80
    ensures Extend(low, j, Parse(s, k)) == Extend(low + Pow2(7 * j) * (s[0] % 0x80), j + 1, Parse(s[1..], k - 1))
  {
    Pow2Seven(j);
    var r := Parse(s[1..], k - 1);
    if r.Some? {
      Distribute(Pow2(7 * j), s[0] % 0x80, r.value.value);
    }
  }

  lemma Distribute(p: nat, d: nat, v: nat)
    ensures p * (d + 0x80 * v) == p * d + (0x80 * p) * v
  {}

  lemma LowGrows(low: nat, j: nat, d: nat)
    requires low < Pow2(7 * j) && d < 0x80
    ensures low + Pow2(7 * j) * d < Pow2(7 * (j + 1))
  {
    Pow2Seven(j);
    var p := Pow2(7 * j);
    MulMono(p, d, 0x7F);
  }

  lemma MulMono(p: nat, a: nat, b: nat)
    requires a <= b
    ensures p * a <= p * b
  {}

  /** A left shift in a w-bit integer. */
  function Shl(x: nat, k: nat, w: nat): nat {
    (x * Pow2(k)) % Pow2(w)
  }

  /** Or-ing in a shifted digit above the bits already there is adding it, modulo the width. */
  lemma OrShifted(x: nat, low: nat, k: nat, w: nat)
    requires k <= w && low < Pow2(k)
    ensures Or(Shl(x, k, w), low) == (low + Pow2(k) * x) % Pow2(w)
  {
    hide Or, Pow2;
    var p, q := Pow2(k), Pow2(w - k);
    Pow2Add(k, w - k);
    ModScale(x, p, q);
    OrZero();
    OrSplit(0, x % q, low, 0, k);
    ModScaleLow(x, p, q, low);
    assert p * 0 == 0;
  }

  lemma ModScale(x: nat, p: nat, q: nat)
    requires p > 0 && q > 0
    ensures p * q > 0 && (x * p) % (p * q) == p * (x % q)
  {
    ModScaleLow(x, p, q, 0);
    assert x * p == p * x;
  }

  lemma ModScaleLow(x: nat, p: nat, q: nat, low: nat)
    requires p > 0 && q > 0 && low < p
    ensures p * q > 0 && (low + p * x) % (p * q) == low + p * (x % q)
  {
    var a, r := x / q, x % q;
    MulAssoc(p, a, q, r);
    BelowProduct(p, r, q, low);
    DivUnique(low + p * x, p * q, a, low + p * r);
  }

  lemma BelowProduct(p: nat, r: nat, q: nat, low: nat)
    requires r < q && low < p
    ensures low + p * r < p * q
  {
    MulMono(p, r + 1, q);
    assert p * (r + 1) == p * r + p;
  }

  lemma MulAssoc(p: nat, a: nat, q: nat, r: nat)
    ensures p * (a * q + r) == a * (p * q) + p * r
  {
    assert p * (a * q) == a * (p * q);
  }

  // ----- zigzag -----

  predicate Signed(v: int, w: nat)
    requires w > 0
  {
    -(Pow2(w - 1) as int) <= v < Pow2(w - 1)
  }

  /** The signed value of a w-bit pattern. */
  function AsSigned(x: nat, w: nat): int
    requires w > 0
  {
    if x < Pow2(w - 1) then x else x - Pow2(w)
  }

  /** Negative numbers to odd ones, the others to even ones; unsigned arithmetic in w bits. */
  function ZigZag(v: int, w: nat): (r: nat)
    requires w > 0
    ensures r < Pow2(w)
  {
    if v < 0 then (((-v) % Pow2(w)) * 2 - 1) % Pow2(w) else (v * 2) % Pow2(w)
  }

  /** Shift right, and flip all w bits if the lowest bit was set. */
  function UnZigZag(u: nat, w: nat): int
    requires w > 0 && u < Pow2(w)
  {
    AsSigned(if u % 2 == 1 then Pow2(w) - 1 - u / 2 else u / 2, w)
  }

  lemma ZigZagMeans(v: int, w: nat)
    requires w > 0 && Signed(v, w)
    ensures ZigZag(v, w) == if v < 0 then -2 * v - 1 else 2 * v
  {
    var h := Pow2(w - 1);
    assert Pow2(w) == 2 * h;
    if v < 0 {
      SmallMod(-v, 2 * h);
      SmallMod((-v) * 2 - 1, 2 * h);
    } else {
      SmallMod(v * 2, 2 * h);
    }
  }

  lemma UnZigZagMeans(u: nat, w: nat)
    requires w > 0 && u < Pow2(w)
    ensures UnZigZag(u, w) == if u % 2 == 1 then -1 - u / 2 else u / 2
    ensures Signed(UnZigZag(u, w), w)
  {
    assert Pow2(w) == 2 * Pow2(w - 1);
  }

  /** Every signed value survives the encoding. */
  lemma ZigZagRoundTrip(v: int, w: nat)
    requires w > 0 && Signed(v, w)
    ensures UnZigZag(ZigZag(v, w), w) == v
  {
    hide ZigZag, UnZigZag, Pow2;
    ZigZagMeans(v, w);
    UnZigZagMeans(ZigZag(v, w), w);
  }

  /** Every unsigned value is the encoding of a signed one. */
  lemma ZigZagOnto(u: nat, w: nat)
    requires w > 0 && u < Pow2(w)
    ensures Signed(UnZigZag(u, w), w) && ZigZag(UnZigZag(u, w), w) == u
  {
    hide ZigZag, UnZigZag, Pow2;
    UnZigZagMeans(u, w);
    ZigZagMeans(UnZigZag(u, w), w);
  }
}
