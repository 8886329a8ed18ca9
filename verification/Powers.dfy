// Powers of two and eight-bit place values, shared by the modules that count.
module Powers {

  function Pow2(k: nat): (p: nat)
    ensures p >= 1
  {
    if k == 0 then 1 else 2 * Pow2(k - 1)
  }

  lemma {:induction false} Pow2Monotone(a: nat, b: nat)
    requires a <= b
    ensures Pow2(a) <= Pow2(b)
    decreases b
  {
    if a < b {
      Pow2Monotone(a, b - 1);
    }
  }

  lemma {:induction false} Pow2Add(a: nat, b: nat)
    ensures Pow2(a + b) == Pow2(a) * Pow2(b)
    decreases a
  {
    if a > 0 {
      Pow2Add(a - 1, b);
      Doubled(Pow2(a - 1), Pow2(b));
    }
  }

  lemma Doubled(x: nat, y: nat)
    ensures 2 * (x * y) == (2 * x) * y
  {
  }

  lemma Pow2Square(k: nat, p: nat)
    requires Pow2(k) == p
    ensures Pow2(2 * k) == p * p
  {
    Pow2Add(k, k);
  }

  lemma WordSizes()
    ensures Pow2(16) == 0x1_0000 && Pow2(32) == 0x1_0000_0000
    ensures Pow2(64) == 0x1_0000_0000_0000_0000
  {
    Pow2Square(8, 0x100);
    Pow2Square(16, 0x1_0000);
    Pow2Square(32, 0x1_0000_0000);
  }

  lemma Quotient(lo: nat, hi: nat, q: nat)
    requires lo < q
    ensures (lo + q * hi) / q == hi
  {
    Between(lo + q * hi, (lo + q * hi) / q, hi, q);
  }

  // A quotient is the one multiple within reach.
  lemma Between(v: nat, d: nat, hi: nat, q: nat)
    requires q * d <= v < q * d + q && q * hi <= v < q * hi + q
    ensures d == hi
  {
    assert q * d < q * (hi + 1) && q * hi < q * (d + 1);
  }
}
