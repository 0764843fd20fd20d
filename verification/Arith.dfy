/** Division facts shared by the word codecs and the chunked buffer. */
module Arith {
  /** The range of 64-bit unsigned integers. */
  const U64_LIMIT := 0x1_0000_0000_0000_0000


  lemma SmallMultiple(k: int, d: int)
    requires -d < k * d < d
    ensures k == 0
  {
    assert k >= 1 ==> k * d >= d;
    assert k <= -1 ==> k * d <= -d;
  }

  lemma DivUnique(w: nat, d: nat, q: nat, r: nat)
    requires d > 0 && r < d && w == q * d + r
    ensures w / d == q && w % d == r
  {
    var k := w / d - q;
    assert k * d == r - w % d;
    SmallMultiple(k, d);
  }

  lemma SmallMod(x: nat, m: nat)
    requires x < m
    ensures x % m == x
  {
    DivUnique(x, m, 0, x);
  }

  lemma MulSpread(a: int, b: int, q: int, r: int)
    ensures a * (b * q + r) == q * (a * b) + a * r
  {
    var m := b * q;
    assert a * (m + r) == a * m + a * r;
    assert a * m == q * (a * b);
  }

  lemma MulLess(x: int, y: int, m: int)
    ensures (x - y) * m == x * m - y * m && (x + y) * m == x * m + y * m
  {}

  /** Equal remainders: the difference is a multiple. */
  lemma Congruent(a: nat, b: nat, m: nat)
    requires m > 0
    ensures a % m == b % m <==> exists d: int :: a == b + d * m
  {
    var p, q := a / m, b / m;
    assert a == p * m + a % m && b == q * m + b % m;
    MulLess(p, q, m);
    if a % m == b % m { assert a == b + (p - q) * m; }
    if d: int :| a == b + d * m { Multiples(a, b, p, q, d, m); }
  }

  lemma Multiples(a: nat, b: nat, p: int, q: int, d: int, m: nat)
    requires m > 0 && a == p * m + a % m && b == q * m + b % m && a == b + d * m
    ensures a % m == b % m
  {
    var k := p - q - d;
    MulLess(p, q, m);
    MulLess(p - q, d, m);
    assert k * m == b % m - a % m;
    SmallMultiple(k, m);
  }

  lemma MulAtMost(a: nat, x: int, y: int)
    requires x <= y
    ensures a * x <= a * y
  {}

  /** Dividing twice. */
  lemma DivDiv(w: nat, a: nat, b: nat)
    requires a > 0 && b > 0
    ensures a * b > 0 && w / (a * b) == (w / a) / b
  {
    var x, low := w / a, w % a;
    var q, r := x / b, x % b;
    Whole(w, a, x, low, b, q, r);
    DivUnique(w, a * b, q, a * r + low);
  }

  lemma Whole(w: nat, a: nat, x: nat, low: nat, b: nat, q: nat, r: nat)
    requires w == a * x + low && low < a && x == b * q + r && r < b
    ensures w == q * (a * b) + (a * r + low) && a * r + low < a * b
  {
    MulSpread(a, b, q, r);
    MulAtMost(a, r + 1, b);
    assert a * (r + 1) == a * r + a;
  }

  lemma DivTwice(w: nat, p: nat)
    requires p > 0
    ensures w / (2 * p) == (w / 2) / p
  {
    var q := (w / 2) / p;
    var r := (w / 2) % p;
    assert w / 2 == q * p + r;
    assert q * (2 * p) == 2 * (q * p);
    DivUnique(w, 2 * p, q, 2 * r + w % 2);
  }
}
