// Unsigned machine words as natural numbers, with `&`, `|` and single bits
// defined one binary digit at a time.  A right shift by k places is division by
// 2^k and a left shift is multiplication by it.
module Words {
  import opened Powers

  predicate Bit(v: nat, k: nat)
    decreases k
  {
    if k == 0 then v % 2 == 1 else Bit(v / 2, k - 1)
  }

  function And(a: nat, b: nat): nat {
    if a == 0 then 0 else (if a % 2 == 1 && b % 2 == 1 then 1 else 0) + 2 * And(a / 2, b / 2)
  }

  function Or(a: nat, b: nat): nat {
    if a == 0 then b else (if a % 2 == 1 || b % 2 == 1 then 1 else 0) + 2 * Or(a / 2, b / 2)
  }

  function Xor(a: nat, b: nat): nat {
    if a == 0 then b else (if a % 2 != b % 2 then 1 else 0) + 2 * Xor(a / 2, b / 2)
  }

  lemma {:induction false} XorTwice(a: nat, b: nat)
    ensures Xor(Xor(a, b), b) == a
  {
    if a == 0 {
      XorSelf(b);
    } else {
      var x := Xor(a, b);
      assert x % 2 == (if a % 2 != b % 2 then 1 else 0) && x / 2 == Xor(a / 2, b / 2);
      XorTwice(a / 2, b / 2);
      if x == 0 {
        assert Xor(0, b / 2) == b / 2;
      }
    }
  }

  lemma {:induction false} XorSelf(b: nat)
    ensures Xor(b, b) == 0
  {
    if b != 0 {
      XorSelf(b / 2);
    }
  }

  lemma {:induction false} XorBelow(a: nat, b: nat, k: nat)
    requires a < Pow2(k) && b < Pow2(k)
    ensures Xor(a, b) < Pow2(k)
    decreases k
  {
    if a != 0 {
      XorBelow(a / 2, b / 2, k - 1);
    }
  }

  lemma {:induction false} XorCommutes(a: nat, b: nat)
    ensures Xor(a, b) == Xor(b, a)
  {
    if a == 0 || b == 0 {
      XorNothing(a);
      XorNothing(b);
    } else {
      XorCommutes(a / 2, b / 2);
    }
  }

  lemma {:induction false} XorNothing(a: nat)
    ensures Xor(a, 0) == a
  {
    if a != 0 {
      XorNothing(a / 2);
    }
  }

  lemma {:induction false} BitZero(k: nat)
    ensures !Bit(0, k)
  {
    if k > 0 {
      BitZero(k - 1);
    }
  }

  lemma {:induction false} BitAnd(a: nat, b: nat, k: nat)
    ensures Bit(And(a, b), k) <==> Bit(a, k) && Bit(b, k)
    decreases k
  {
    if a == 0 {
      BitZero(k);
    } else if k > 0 {
      assert And(a, b) / 2 == And(a / 2, b / 2);
      BitAnd(a / 2, b / 2, k - 1);
    }
  }

  lemma {:induction false} BitOr(a: nat, b: nat, k: nat)
    ensures Bit(Or(a, b), k) <==> Bit(a, k) || Bit(b, k)
    decreases k
  {
    if a == 0 {
      BitZero(k);
    } else if k > 0 {
      assert Or(a, b) / 2 == Or(a / 2, b / 2);
      BitOr(a / 2, b / 2, k - 1);
    }
  }

  lemma {:induction false} AndBelow(a: nat, b: nat)
    ensures And(a, b) <= a
  {
    if a != 0 {
      AndBelow(a / 2, b / 2);
    }
  }

  lemma {:induction false} OrBelow(a: nat, b: nat, k: nat)
    requires a < Pow2(k) && b < Pow2(k)
    ensures Or(a, b) < Pow2(k)
    decreases k
  {
    if a != 0 {
      OrBelow(a / 2, b / 2, k - 1);
    }
  }

  lemma {:induction false} OrNothing(a: nat)
    ensures Or(a, 0) == a
  {
    if a != 0 {
      OrNothing(a / 2);
    }
  }

  lemma OrDouble(x: nat, lo: nat)
    ensures Or(2 * x, lo) == lo % 2 + 2 * Or(x, lo / 2)
  {
  }

  lemma Reassociate(hi: nat, p: nat)
    ensures hi * (2 * p) == 2 * (hi * p)
  {
  }

  // Combining a shifted word with a digit that fits below the shift is addition.
  lemma {:induction false} OrIsPlus(hi: nat, k: nat, lo: nat)
    requires lo < Pow2(k)
    ensures Or(hi * Pow2(k), lo) == hi * Pow2(k) + lo
    decreases k
  {
    if k == 0 {
      OrNothing(hi);
    } else {
      Reassociate(hi, Pow2(k - 1));
      OrIsPlus(hi, k - 1, lo / 2);
      OrDouble(hi * Pow2(k - 1), lo);
    }
  }

  // A mask digit of one keeps the word's digit, a mask digit of zero drops it.
  lemma AndOne(a: nat, m: nat)
    ensures And(a, 2 * m + 1) == a % 2 + 2 * And(a / 2, m)
  {
  }

  lemma AndNone(a: nat, m: nat)
    ensures And(a, 2 * m) == 2 * And(a / 2, m)
  {
  }

  lemma {:induction false} OrCommutes(a: nat, b: nat)
    ensures Or(a, b) == Or(b, a)
    decreases a
  {
    if a == 0 || b == 0 {
      OrNothing(a);
      OrNothing(b);
    } else {
      OrCommutes(a / 2, b / 2);
    }
  }

  lemma {:induction false} BitXor(a: nat, b: nat, k: nat)
    ensures Bit(Xor(a, b), k) <==> Bit(a, k) != Bit(b, k)
    decreases k
  {
    if a == 0 {
      BitZero(k);
    } else if k > 0 {
      assert Xor(a, b) / 2 == Xor(a / 2, b / 2);
      BitXor(a / 2, b / 2, k - 1);
    }
  }

  lemma HalveFirst(v: nat, p: nat)
    requires p > 0
    ensures v / 2 / p == v / (2 * p)
  {
    var h, b := v / 2, v % 2;
    var q, r := h / p, h % p;
    assert h == q * p + r;
    assert v == (2 * r + b) + (2 * p) * q;
    Quotient(2 * r + b, q, 2 * p);
  }

  // Bit k is the k-th binary digit.
  lemma {:induction false} BitIsDigit(v: nat, k: nat)
    ensures Bit(v, k) <==> v / Pow2(k) % 2 == 1
    decreases k
  {
    if k > 0 {
      BitIsDigit(v / 2, k - 1);
      HalveFirst(v, Pow2(k - 1));
    }
  }

  // Words side by side keep their bits.
  lemma {:induction false} BitOfPair(lo: nat, hi: nat, n: nat, k: nat)
    requires lo < Pow2(n)
    ensures Bit(lo + Pow2(n) * hi, k) <==> if k < n then Bit(lo, k) else Bit(hi, k - n)
    decreases n
  {
    if n > 0 {
      Halves(lo, hi, Pow2(n - 1));
      if k > 0 {
        BitOfPair(lo / 2, hi, n - 1, k - 1);
      }
    }
  }

  lemma HalvesOf(lo: nat, high: nat)
    ensures (lo + 2 * high) % 2 == lo % 2 && (lo + 2 * high) / 2 == lo / 2 + high
  {
  }

  // Changing the low field leaves what is added above it alone.
  ghost predicate XorKeeps(lo: nat, high: nat, b: nat) {
    Xor(lo + high, b) == Xor(lo, b) + high
  }

  lemma XorKeepsDoubled(lo: nat, high: nat, b: nat)
    requires XorKeeps(lo / 2, high, b / 2)
    ensures XorKeeps(lo, 2 * high, b)
  {
    HalvesOf(lo, high);
    XorHalves(lo + 2 * high, b);
    XorHalves(lo, b);
  }

  // hi << n
  function ShiftedUp(hi: nat, n: nat): nat {
    if n == 0 then hi else 2 * ShiftedUp(hi, n - 1)
  }

  lemma {:induction false} XorLow(lo: nat, hi: nat, n: nat, b: nat)
    requires lo < Pow2(n) && b < Pow2(n)
    ensures XorKeeps(lo, ShiftedUp(hi, n), b)
    decreases n
  {
    if n == 0 {
      XorNothing(hi);
    } else {
      XorLow(lo / 2, hi, n - 1, b / 2);
      XorKeepsDoubled(lo, ShiftedUp(hi, n - 1), b);
    }
  }

  lemma XorHalves(a: nat, b: nat)
    ensures Xor(a, b) == (if a % 2 != b % 2 then 1 else 0) + 2 * Xor(a / 2, b / 2)
  {
  }

  lemma Halves(lo: nat, hi: nat, p: nat)
    ensures (lo + 2 * p * hi) % 2 == lo % 2 && (lo + 2 * p * hi) / 2 == lo / 2 + p * hi
  {
    Doubled(p, hi);
    HalvesOf(lo, p * hi);
  }

  lemma OrShifted(lo: nat, hi: nat, k: nat)
    requires lo < Pow2(k)
    ensures Or(lo, hi * Pow2(k)) == hi * Pow2(k) + lo
  {
    OrIsPlus(hi, k, lo);
    OrCommutes(lo, hi * Pow2(k));
  }
}
