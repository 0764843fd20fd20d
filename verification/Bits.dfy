/**
 Bitwise operators on unsigned machine words, over unbounded naturals.

 A word is its value; bit `x` is the x-th binary digit. `And`, `Or` and `PopCount`
 are defined digit by digit, so that a fact about a wide word (a 64-bit load) can be
 split into facts about the narrow words it is made of.
 */
module Bits {
  import opened Arith

  function Pow2(k: nat): (r: nat)
    ensures r > 0
  {
    if k == 0 then 1 else 2 * Pow2(k - 1)
  }

  lemma MulDouble(x: nat, y: nat)
    ensures x * (2 * y) == 2 * (x * y)
  {}

  lemma {:induction false} Pow2Add(a: nat, b: nat)
    ensures Pow2(a + b) == Pow2(a) * Pow2(b)
  {
    if b > 0 {
      Pow2Add(a, b - 1);
      MulDouble(Pow2(a), Pow2(b - 1));
    }
  }

  lemma {:induction false} Pow2Grows(a: nat, b: nat)
    requires a <= b
    ensures Pow2(a) <= Pow2(b)
  {
    if a < b { Pow2Grows(a, b - 1); }
  }

  predicate Bit(w: nat, x: nat)
    decreases x
  {
    if x == 0 then w % 2 == 1 else Bit(w / 2, x - 1)
  }

  function And(a: nat, b: nat): (r: nat)
    ensures r <= a && r <= b
  {
    if a == 0 || b == 0 then 0
    else (if a % 2 == 1 && b % 2 == 1 then 1 else 0) + 2 * And(a / 2, b / 2)
  }

  function Or(a: nat, b: nat): (r: nat)
    ensures a <= r && b <= r <= a + b
  {
    if a == 0 then b
    else if b == 0 then a
    else (if a % 2 == 1 || b % 2 == 1 then 1 else 0) + 2 * Or(a / 2, b / 2)
  }

  function PopCount(w: nat): (r: nat)
    ensures r <= w
  {
    if w == 0 then 0 else w % 2 + PopCount(w / 2)
  }

  // ----- one bit at a time -----

  lemma {:induction false} BitIs(w: nat, x: nat)
    ensures Bit(w, x) <==> w / Pow2(x) % 2 == 1
    decreases x
  {
    if x > 0 {
      BitIs(w / 2, x - 1);
      DivTwice(w, Pow2(x - 1));
    }
  }

  lemma {:induction false} ZeroHasNoBits(x: nat)
    ensures !Bit(0, x)
  {
    if x > 0 { ZeroHasNoBits(x - 1); }
  }

  lemma {:induction false} BitAnd(a: nat, b: nat, x: nat)
    ensures Bit(And(a, b), x) <==> Bit(a, x) && Bit(b, x)
    decreases x
  {
    if a == 0 || b == 0 {
      ZeroHasNoBits(x);
    } else if x > 0 {
      BitAnd(a / 2, b / 2, x - 1);
    }
  }

  lemma {:induction false} BitOr(a: nat, b: nat, x: nat)
    ensures Bit(Or(a, b), x) <==> Bit(a, x) || Bit(b, x)
    decreases x
  {
    if a == 0 || b == 0 {
      ZeroHasNoBits(x);
    } else if x > 0 {
      BitOr(a / 2, b / 2, x - 1);
    }
  }

  /** Subtracting from the all-ones word flips every bit of the width. */
  lemma {:induction false} BitFlip(w: nat, k: nat, x: nat)
    requires w < Pow2(k) && x < k
    ensures Bit(Pow2(k) - 1 - w, x) <==> !Bit(w, x)
    decreases x
  {
    var f := Pow2(k) - 1 - w;
    assert f / 2 == Pow2(k - 1) - 1 - w / 2;
    if x > 0 { BitFlip(w / 2, k - 1, x - 1); }
  }

  lemma {:induction false} BitPow2(k: nat, x: nat)
    ensures Bit(Pow2(k), x) <==> x == k
    decreases x
  {
    if k == 0 {
      if x > 0 { ZeroHasNoBits(x - 1); }
    } else if x > 0 {
      BitPow2(k - 1, x - 1);
    }
  }

  /** Testing a word against a one-bit mask is testing that bit. */
  lemma {:induction false} MaskTest(w: nat, x: nat)
    ensures And(w, Pow2(x)) == if Bit(w, x) then Pow2(x) else 0
    decreases x
  {
    if w == 0 {
      ZeroHasNoBits(x);
    } else if x > 0 {
      MaskTest(w / 2, x - 1);
    }
  }

  /** A word below 2^k has no bit at or above k. */
  lemma {:induction false} HighBitsClear(w: nat, k: nat, x: nat)
    requires w < Pow2(k) && k <= x
    ensures !Bit(w, x)
    decreases x
  {
    if k == 0 {
      ZeroHasNoBits(x);
    } else {
      HighBitsClear(w / 2, k - 1, x - 1);
    }
  }

  lemma {:induction false} AndAllOnes(w: nat, k: nat)
    requires w < Pow2(k)
    ensures And(w, Pow2(k) - 1) == w
  {
    if k > 0 && w > 0 {
      assert (Pow2(k) - 1) / 2 == Pow2(k - 1) - 1;
      AndAllOnes(w / 2, k - 1);
    }
  }

  lemma {:induction false} OrAllOnes(w: nat, k: nat)
    requires w < Pow2(k)
    ensures Or(w, Pow2(k) - 1) == Pow2(k) - 1
  {
    if k > 0 && w > 0 {
      assert (Pow2(k) - 1) / 2 == Pow2(k - 1) - 1;
      OrAllOnes(w / 2, k - 1);
    }
  }

  lemma {:induction false} OrBound(a: nat, b: nat, k: nat)
    requires a < Pow2(k) && b < Pow2(k)
    ensures Or(a, b) < Pow2(k)
  {
    if k > 0 && a > 0 && b > 0 { OrBound(a / 2, b / 2, k - 1); }
  }

  // ----- splitting a word into a low part of k bits and the rest -----

  /** Halving a word whose low part is not empty halves both parts. */
  lemma HalveSplit(a: nat, b: nat, k: nat)
    requires k > 0
    ensures (a + Pow2(k) * b) / 2 == a / 2 + Pow2(k - 1) * b
    ensures (a + Pow2(k) * b) % 2 == a % 2
  {
    assert Pow2(k) * b == 2 * (Pow2(k - 1) * b);
  }

  lemma Pow2Times(k: nat, m: nat)
    requires k > 0
    ensures Pow2(k) * m == 2 * (Pow2(k - 1) * m)
  {}

  lemma {:induction false} AndSplit(a: nat, b: nat, c: nat, d: nat, k: nat)
    requires a < Pow2(k) && c < Pow2(k)
    ensures And(a + Pow2(k) * b, c + Pow2(k) * d) == And(a, c) + Pow2(k) * And(b, d)
  {
    hide And;
    if k == 0 {
      assert a == 0 && c == 0;
      AndZero();
    } else {
      HalveSplit(a, b, k);
      HalveSplit(c, d, k);
      AndSplit(a / 2, b, c / 2, d, k - 1);
      AndStep(a + Pow2(k) * b, c + Pow2(k) * d);
      AndStep(a, c);
      Pow2Times(k, And(b, d));
    }
  }

  lemma AndZero()
    ensures And(0, 0) == 0
  {}

  lemma AndStep(a: nat, b: nat)
    ensures And(a, b) == (if a % 2 == 1 && b % 2 == 1 then 1 else 0) + 2 * And(a / 2, b / 2)
  {
    assert a == 0 ==> a / 2 == 0;
    assert b == 0 ==> b / 2 == 0;
  }

  lemma {:induction false} OrSplit(a: nat, b: nat, c: nat, d: nat, k: nat)
    requires a < Pow2(k) && c < Pow2(k)
    ensures Or(a + Pow2(k) * b, c + Pow2(k) * d) == Or(a, c) + Pow2(k) * Or(b, d)
  {
    hide Or;
    if k == 0 {
      assert a == 0 && c == 0;
      OrZero();
    } else {
      HalveSplit(a, b, k);
      HalveSplit(c, d, k);
      OrSplit(a / 2, b, c / 2, d, k - 1);
      OrStep(a + Pow2(k) * b, c + Pow2(k) * d);
      OrStep(a, c);
      Pow2Times(k, Or(b, d));
    }
  }

  lemma OrZero()
    ensures forall x :: Or(0, x) == x && Or(x, 0) == x
  {}

  lemma OrStep(a: nat, b: nat)
    ensures Or(a, b) == (if a % 2 == 1 || b % 2 == 1 then 1 else 0) + 2 * Or(a / 2, b / 2)
  {
    assert a == 0 ==> a / 2 == 0;
    assert b == 0 ==> b / 2 == 0;
  }

  lemma PopCountStep(w: nat)
    ensures PopCount(w) == w % 2 + PopCount(w / 2)
    ensures PopCount(0) == 0
  {
    assert w == 0 ==> w / 2 == 0;
  }

  lemma {:induction false} PopCountSplit(a: nat, b: nat, k: nat)
    requires a < Pow2(k)
    ensures PopCount(a + Pow2(k) * b) == PopCount(a) + PopCount(b)
  {
    if k > 0 {
      HalveSplit(a, b, k);
      PopCountSplit(a / 2, b, k - 1);
      assert a == 0 ==> a / 2 == 0;
      var x := a + Pow2(k) * b;
      assert PopCount(x) == x % 2 + PopCount(x / 2);
      assert PopCount(a) == a % 2 + PopCount(a / 2);
    }
  }

  /** The population count of a k-bit word is 0 only for zero and k only for all ones. */
  lemma {:induction false} PopCountExtremes(w: nat, k: nat)
    requires w < Pow2(k)
    ensures PopCount(w) <= k
    ensures PopCount(w) == 0 <==> w == 0
    ensures PopCount(w) == k <==> w == Pow2(k) - 1
  {
    if k > 0 && w > 0 { PopCountExtremes(w / 2, k - 1); }
    if k > 0 && w == 0 { assert Pow2(k) >= 2; }
  }
}
