// The algorithmic clock of src/omnicron-coproduct-partition.c: a 16-bit state that
// advances by an affine rotate/XOR law, and peers that compare centroid-relative
// states.  A state is its sixteen bits, lowest first.
module Clock {
  import opened WordTypes
  import opened Orbits
  import opened Powers
  import Words

  type Word16 = x: seq<bool> | |x| == 16 witness seq(16, _ => false)

  function Rotl16(x: Word16, shift: nat): Word16
    requires shift < 16
  {
    seq(16, i requires 0 <= i < 16 => x[if i < shift then i + 16 - shift else i - shift])
  }

  // A right rotation is the complementary left rotation.
  function Rotr16(x: Word16, shift: nat): Word16
    requires 0 < shift < 16
  {
    Rotl16(x, 16 - shift)
  }

  function Xor(a: Word16, b: Word16): Word16 {
    seq(16, i requires 0 <= i < 16 => a[i] != b[i])
  }

  // The number a list of bits denotes, lowest bit first.
  function Value(bits: seq<bool>): nat {
    if bits == [] then 0 else (if bits[0] then 1 else 0) + 2 * Value(bits[1..])
  }

  // 0x1D1D
  const ADVANCE: Word16 :=
    [true, false, true, true, true, false, false, false, true, false, true, true, true, false, false, false]

  function Oscillate(x: Word16): Word16 {
    Xor(Xor(Xor(Rotl16(x, 1), Rotl16(x, 3)), Rotr16(x, 2)), ADVANCE)
  }

  // ---------- states as numbers ----------

  lemma {:induction false} ValueBelow(s: seq<bool>)
    ensures Value(s) < Pow2(|s|)
  {
    if s != [] {
      ValueBelow(s[1..]);
    }
  }

  lemma Carried(b: nat, v: nat, p: nat, w: nat)
    ensures b + 2 * (v + p * w) == b + 2 * v + 2 * p * w
  {
  }

  lemma {:induction false} ValueConcat(s: seq<bool>, t: seq<bool>)
    ensures Value(s + t) == Value(s) + Pow2(|s|) * Value(t)
    decreases s
  {
    if s == [] {
      assert s + t == t;
    } else {
      var tail, bit := s[1..], if s[0] then 1 else 0;
      assert (s + t)[1..] == tail + t;
      ValueConcat(tail, t);
      Carried(bit, Value(tail), Pow2(|tail|), Value(t));
    }
  }

  lemma {:induction false} SameValueSameBits(s: seq<bool>, t: seq<bool>)
    requires |s| == |t| && Value(s) == Value(t)
    ensures s == t
  {
    if s != [] {
      assert s[0] == t[0];
      SameValueSameBits(s[1..], t[1..]);
      assert s == [s[0]] + s[1..] && t == [t[0]] + t[1..];
    }
  }

  function ShiftLeft(v: nat, p: nat): nat {
    v * p % 0x1_0000
  }

  function ShiftRight(v: nat, p: nat): nat
    requires p > 0
  {
    v / p
  }

  // The rotation of the code: shifts of the 16-bit number, or'ed together.
  function RotlNumber(v: nat, shift: nat): nat
    requires shift < 16
  {
    Words.Or(ShiftLeft(v, Pow2(shift)), ShiftRight(v, Pow2(16 - shift)))
  }

  lemma SplitWord(lo: nat, hi: nat, p: nat, q: nat)
    requires p * q == 0x1_0000 && lo < q && hi < p
    ensures ShiftLeft(lo + q * hi, p) == lo * p
    ensures ShiftRight(lo + q * hi, q) == hi
  {
    assert (lo + q * hi) * p == lo * p + p * q * hi;
    Scaled(lo + 1, q, p);
    Drop(lo * p, hi);
    Quotient(lo, hi, q);
  }

  lemma Drop(r: nat, k: nat)
    requires r < 0x1_0000
    ensures (r + 0x1_0000 * k) % 0x1_0000 == r
  {
  }

  lemma Scaled(a: nat, b: nat, q: nat)
    requires a <= b
    ensures q * a <= q * b
  {
  }

  lemma RotlNumberOf(lo: nat, hi: nat, shift: nat)
    requires shift < 16 && lo < Pow2(16 - shift) && hi < Pow2(shift)
    ensures RotlNumber(lo + Pow2(16 - shift) * hi, shift) == lo * Pow2(shift) + hi
  {
    var p, q := Pow2(shift), Pow2(16 - shift);
    assert p * q == 0x1_0000 by {
      Pow2Add(shift, 16 - shift);
      WordSizes();
    }
    SplitWord(lo, hi, p, q);
    Words.OrIsPlus(lo, shift, hi);
  }

  // Moving bits around is rotating the number.
  lemma RotlIsShifts(x: Word16, shift: nat)
    requires shift < 16
    ensures Value(Rotl16(x, shift)) == RotlNumber(Value(x), shift)
  {
    var lo, hi := x[..16 - shift], x[16 - shift..];
    assert x == lo + hi && Rotl16(x, shift) == hi + lo;
    ValueConcat(lo, hi);
    ValueConcat(hi, lo);
    ValueBelow(lo);
    ValueBelow(hi);
    RotlNumberOf(Value(lo), Value(hi), shift);
    Commuted(Value(lo), Pow2(shift));
  }

  lemma Commuted(a: nat, b: nat)
    ensures a * b == b * a
  {
  }

  lemma {:induction false} XorIsWordXor(s: seq<bool>, t: seq<bool>, u: seq<bool>)
    requires |s| == |t| == |u| && forall i :: 0 <= i < |s| ==> u[i] == (s[i] != t[i])
    ensures Value(u) == Words.Xor(Value(s), Value(t))
  {
    if s != [] {
      XorIsWordXor(s[1..], t[1..], u[1..]);
      var a, b := Value(s), Value(t);
      assert a / 2 == Value(s[1..]) && b / 2 == Value(t[1..]);
      assert a % 2 == (if s[0] then 1 else 0) && b % 2 == (if t[0] then 1 else 0);
    }
  }

  // The advance law on numbers: three rotations and the constant, xor'ed together.
  lemma OscillateOnNumbers(x: Word16)
    ensures var v := Value(x);
      Value(Oscillate(x)) ==
        Words.Xor(Words.Xor(Words.Xor(RotlNumber(v, 1), RotlNumber(v, 3)), RotlNumber(v, 14)), 0x1D1D)
  {
    var a, b, c := Rotl16(x, 1), Rotl16(x, 3), Rotr16(x, 2);
    RotlIsShifts(x, 1);
    RotlIsShifts(x, 3);
    RotlIsShifts(x, 14);
    XorIsWordXor(a, b, Xor(a, b));
    XorIsWordXor(Xor(a, b), c, Xor(Xor(a, b), c));
    XorIsWordXor(Xor(Xor(a, b), c), ADVANCE, Oscillate(x));
    AdvanceValue(ADVANCE);
  }

  // ---------- squaring ----------
  // The linear part is u + u^3 + u^14 in GF(2)[u]/(u^16 + 1).  Squaring doubles the
  // exponents, so the third squaring gives 1; the constants cancel as well.

  // 0x8888
  const ADVANCE2: Word16 :=
    [false, false, false, true, false, false, false, true, false, false, false, true, false, false, false, true]

  function Twice(x: Word16): Word16 {
    Xor(Xor(Xor(Rotl16(x, 2), Rotl16(x, 6)), Rotl16(x, 12)), ADVANCE2)
  }

  function FourTimes(x: Word16): Word16 {
    Xor(Xor(Rotl16(x, 4), Rotl16(x, 8)), Rotl16(x, 12))
  }

  lemma RotlXor(a: Word16, b: Word16, k: nat)
    requires k < 16
    ensures Rotl16(Xor(a, b), k) == Xor(Rotl16(a, k), Rotl16(b, k))
  {
  }

  lemma RotlRotl(x: Word16, j: nat, k: nat)
    requires j < 16 && k < 16
    ensures Rotl16(Rotl16(x, j), k) == Rotl16(x, if j + k < 16 then j + k else j + k - 16)
  {
  }

  lemma RotlSum(a: Word16, b: Word16, c: Word16, d: Word16, k: nat)
    requires k < 16
    ensures Rotl16(Xor(Xor(Xor(a, b), c), d), k)
         == Xor(Xor(Xor(Rotl16(a, k), Rotl16(b, k)), Rotl16(c, k)), Rotl16(d, k))
  {
    RotlXor(a, b, k);
    RotlXor(Xor(a, b), c, k);
    RotlXor(Xor(Xor(a, b), c), d, k);
  }

  function Nibble(x: Word16, at: nat): nat
    requires at + 4 <= 16
  {
    (if x[at] then 1 else 0) + (if x[at + 1] then 2 else 0)
    + (if x[at + 2] then 4 else 0) + (if x[at + 3] then 8 else 0)
  }

  lemma NibbleValue(x: Word16, at: nat)
    requires at + 4 <= 16
    ensures Value(x[at..at + 4]) == Nibble(x, at)
  {
    var a, b, c, d := x[at..at + 4], x[at + 1..at + 4], x[at + 2..at + 4], x[at + 3..at + 4];
    assert a[1..] == b && b[1..] == c && c[1..] == d && d[1..] == [];
    assert Value(c) == (if x[at + 2] then 1 else 0) + 2 * Value(d);
  }

  lemma EightBits(x: Word16, at: nat)
    requires at + 8 <= 16
    ensures Value(x[at..at + 8]) == Nibble(x, at) + 0x10 * Nibble(x, at + 4)
  {
    var a, b := x[at..at + 4], x[at + 4..at + 8];
    assert x[at..at + 8] == a + b;
    ValueConcat(a, b);
    NibbleValue(x, at);
    NibbleValue(x, at + 4);
    assert Pow2(4) == 16;
  }

  lemma FourNibbles(x: Word16)
    ensures Value(x) == Nibble(x, 0) + 0x10 * Nibble(x, 4) + 0x100 * (Nibble(x, 8) + 0x10 * Nibble(x, 12))
  {
    var a, b := x[0..8], x[8..16];
    assert x == a + b;
    ValueConcat(a, b);
    EightBits(x, 0);
    EightBits(x, 8);
    Pow2Square(4, 16);
  }

  lemma NibblesGive(x: Word16, low: nat, high: nat)
    requires Nibble(x, 0) == Nibble(x, 8) == low && Nibble(x, 4) == Nibble(x, 12) == high
    ensures Value(x) == 0x101 * (low + 0x10 * high)
  {
    FourNibbles(x);
  }

  lemma AdvanceValue(x: Word16)
    requires x == ADVANCE
    ensures Value(x) == 0x1D1D
  {
    NibblesGive(x, 0xD, 0x1);
  }

  lemma Advance2Value(x: Word16)
    requires x == ADVANCE2
    ensures Value(x) == 0x8888
  {
    NibblesGive(x, 0x8, 0x8);
  }

  lemma AdvancesCancel(i: nat)
    requires i < 16
    ensures Xor(Xor(Xor(Rotl16(ADVANCE, 1), Rotl16(ADVANCE, 3)), Rotl16(ADVANCE, 14)), ADVANCE)[i] == ADVANCE2[i]
  {
  }

  lemma Advances2Cancel(i: nat)
    requires i < 16
    ensures !Xor(Xor(Xor(Rotl16(ADVANCE2, 2), Rotl16(ADVANCE2, 6)), Rotl16(ADVANCE2, 12)), ADVANCE2)[i]
  {
  }

  // Words that appear twice in a sum cancel.
  lemma Cancel(a: Word16, b: Word16, c: Word16, d: Word16, e: Word16, f: Word16,
               k1: Word16, k2: Word16, k3: Word16, k: Word16)
    ensures Xor(Xor(Xor(Xor(Xor(Xor(a, b), c), k1), Xor(Xor(Xor(b, d), e), k2)), Xor(Xor(Xor(c, e), f), k3)), k)
         == Xor(Xor(Xor(a, d), f), Xor(Xor(Xor(k1, k2), k3), k))
  {
  }

  lemma TwiceIsOscillateSquared(x: Word16)
    ensures Oscillate(Oscillate(x)) == Twice(x)
  {
    var a, b, c := Rotl16(x, 1), Rotl16(x, 3), Rotl16(x, 14);
    RotlSum(a, b, c, ADVANCE, 1);
    RotlSum(a, b, c, ADVANCE, 3);
    RotlSum(a, b, c, ADVANCE, 14);
    forall j, k | j in {1, 3, 14} && k in {1, 3, 14}
      ensures Rotl16(Rotl16(x, j), k) == Rotl16(x, if j + k < 16 then j + k else j + k - 16)
    {
      RotlRotl(x, j, k);
    }
    Cancel(Rotl16(x, 2), Rotl16(x, 4), Rotl16(x, 15), Rotl16(x, 6), Rotl16(x, 1), Rotl16(x, 12),
           Rotl16(ADVANCE, 1), Rotl16(ADVANCE, 3), Rotl16(ADVANCE, 14), ADVANCE);
    forall i: nat | i < 16
      ensures Xor(Xor(Xor(Rotl16(ADVANCE, 1), Rotl16(ADVANCE, 3)), Rotl16(ADVANCE, 14)), ADVANCE)[i] == ADVANCE2[i]
    {
      AdvancesCancel(i);
    }
    assert Xor(Xor(Xor(Rotl16(ADVANCE, 1), Rotl16(ADVANCE, 3)), Rotl16(ADVANCE, 14)), ADVANCE) == ADVANCE2;
  }

  // Two ticks on numbers: three rotations and 0x8888.
  lemma TwoTicksOnNumbers(x: Word16)
    ensures var v := Value(x);
      Value(Oscillate(Oscillate(x))) ==
        Words.Xor(Words.Xor(Words.Xor(RotlNumber(v, 2), RotlNumber(v, 6)), RotlNumber(v, 12)), 0x8888)
  {
    var a, b, c := Rotl16(x, 2), Rotl16(x, 6), Rotl16(x, 12);
    TwiceIsOscillateSquared(x);
    RotlIsShifts(x, 2);
    RotlIsShifts(x, 6);
    RotlIsShifts(x, 12);
    XorIsWordXor(a, b, Xor(a, b));
    XorIsWordXor(Xor(a, b), c, Xor(Xor(a, b), c));
    XorIsWordXor(Xor(Xor(a, b), c), ADVANCE2, Twice(x));
    Advance2Value(ADVANCE2);
  }

  lemma FourTimesIsTwiceSquared(x: Word16)
    ensures Twice(Twice(x)) == FourTimes(x)
  {
    var a, b, c := Rotl16(x, 2), Rotl16(x, 6), Rotl16(x, 12);
    RotlSum(a, b, c, ADVANCE2, 2);
    RotlSum(a, b, c, ADVANCE2, 6);
    RotlSum(a, b, c, ADVANCE2, 12);
    forall j, k | j in {2, 6, 12} && k in {2, 6, 12}
      ensures Rotl16(Rotl16(x, j), k) == Rotl16(x, if j + k < 16 then j + k else j + k - 16)
    {
      RotlRotl(x, j, k);
    }
    Cancel(Rotl16(x, 4), Rotl16(x, 8), Rotl16(x, 14), Rotl16(x, 12), Rotl16(x, 2), Rotl16(x, 8),
           Rotl16(ADVANCE2, 2), Rotl16(ADVANCE2, 6), Rotl16(ADVANCE2, 12), ADVANCE2);
    forall i: nat | i < 16
      ensures !Xor(Xor(Xor(Rotl16(ADVANCE2, 2), Rotl16(ADVANCE2, 6)), Rotl16(ADVANCE2, 12)), ADVANCE2)[i]
    {
      Advances2Cancel(i);
    }
  }

  lemma CancelTriple(z: Word16, a: Word16, b: Word16, c: Word16)
    ensures Xor(Xor(Xor(Xor(b, c), z), Xor(Xor(c, z), a)), Xor(Xor(z, a), b)) == z
  {
  }

  lemma FourTimesIsInvolution(x: Word16)
    ensures FourTimes(FourTimes(x)) == x
  {
    var a, b, c := Rotl16(x, 4), Rotl16(x, 8), Rotl16(x, 12);
    forall k | k in {4, 8, 12}
      ensures Rotl16(Xor(Xor(a, b), c), k) == Xor(Xor(Rotl16(a, k), Rotl16(b, k)), Rotl16(c, k))
      ensures forall j | j in {4, 8, 12} ::
        Rotl16(Rotl16(x, j), k) == Rotl16(x, if j + k < 16 then j + k else j + k - 16)
    {
      RotlXor(a, b, k);
      RotlXor(Xor(a, b), c, k);
      RotlRotl(x, 4, k);
      RotlRotl(x, 8, k);
      RotlRotl(x, 12, k);
    }
    assert Rotl16(x, 0) == x;
    CancelTriple(x, a, b, c);
  }

  // ---------- runs ----------

  // The state after n ticks from a seed.
  function Ticks(n: nat, s: Word16): Word16 {
    Iterate(Oscillate, n, s)
  }

  lemma FourTicks(s: Word16)
    ensures Iterate(Oscillate, 4, s) == FourTimes(s)
  {
    var t := Oscillate(Oscillate(s));
    TwiceIsOscillateSquared(s);
    TwiceIsOscillateSquared(t);
    FourTimesIsTwiceSquared(s);
  }

  // Eight ticks restore every clock state.
  lemma EightTicksRestore()
    ensures Octal(Oscillate)
  {
    forall s ensures Iterate(Oscillate, 8, s) == s {
      IterateAdd(Oscillate, 4, 4, s);
      FourTicks(s);
      FourTicks(FourTimes(s));
      FourTimesIsInvolution(s);
    }
  }

  // An unsigned 64-bit counter steps up, and from its last value to zero.
  function Increment(steps: u64): u64 {
    (steps + 1) % TWO64
  }

  // So only the count modulo eight matters, and each tick is a bijection.
  lemma OnlyModEight(n: nat, s: Word16, t: Word16)
    ensures Ticks(n, s) == Ticks(n % 8, s)
    ensures Oscillate(Ticks(7, s)) == s && Ticks(7, Oscillate(s)) == s
    ensures Oscillate(s) == Oscillate(t) ==> s == t
  {
    EightTicksRestore();
    ModEight(Oscillate, n, s);
    Undo(Oscillate, 1, 7, s);
    Undo(Oscillate, 1, 7, t);
    IterateAdd(Oscillate, 7, 1, s);
    assert forall u :: Iterate(Oscillate, 1, u) == Oscillate(u);
  }

  lemma OneMore(n: nat, s: Word16, state: Word16)
    requires state == Ticks(n, s)
    ensures Oscillate(state) == Ticks(n + 1, s)
    ensures Increment(n % 0x1_0000_0000_0000_0000) == (n + 1) % 0x1_0000_0000_0000_0000
  {
  }

  // ---------- periods ----------
  // The k-fold difference of a tick is a unit times (u^k + 1)^3, for k = 1, 2 and 4, so
  // a state returns exactly when four-term sums of its bits have fixed values.

  // Bit i is the sum of the bits i, i - k, i - 2k and i - 3k of the state.
  function Window(x: Word16, k: nat): Word16
    requires 1 <= k <= 4
  {
    Xor(Xor(x, Rotl16(x, k)), Xor(Rotl16(x, 2 * k), Rotl16(x, 3 * k)))
  }

  const ZERO: Word16 := seq(16, _ => false)

  const FIXED: Word16 :=
    [false, true, false, true, false, false, true, true, false, true, false, true, false, false, true, true]

  const PAIRED: Word16 :=
    [false, true, false, false, false, true, false, false, false, true, false, false, false, true, false, false]

  lemma FixedValue(x: Word16)
    requires x == FIXED
    ensures Value(x) == 0xCACA
  {
    NibblesGive(x, 0xA, 0xC);
  }

  lemma PairedValue(x: Word16)
    requires x == PAIRED
    ensures Value(x) == 0x2222
  {
    NibblesGive(x, 0x2, 0x2);
  }

  lemma SameIffXorZero(a: Word16, b: Word16)
    ensures a == b <==> Xor(a, b) == ZERO
  {
    if Xor(a, b) == ZERO {
      forall i | 0 <= i < 16 ensures a[i] == b[i] {
        assert Xor(a, b)[i] == ZERO[i];
      }
    }
  }

  // Rotating a window, constant included.
  lemma RotlWindow(x: Word16, k: nat, c: Word16, j: nat)
    requires 1 <= k <= 4 && j < 16
    ensures Rotl16(Xor(Window(x, k), c), j)
         == Xor(Xor(Xor(Rotl16(x, j), Rotl16(Rotl16(x, k), j)),
                    Xor(Rotl16(Rotl16(x, 2 * k), j), Rotl16(Rotl16(x, 3 * k), j))), Rotl16(c, j))
  {
    var x1, x2, x3 := Rotl16(x, k), Rotl16(x, 2 * k), Rotl16(x, 3 * k);
    RotlXor(Window(x, k), c, j);
    RotlXor(Xor(x, x1), Xor(x2, x3), j);
    RotlXor(x, x1, j);
    RotlXor(x2, x3, j);
  }

  // In the sum of a window and its two rotations only four words are left.
  lemma CancelWindows(a: Word16, b: Word16, c: Word16, d: Word16, e: Word16, f: Word16,
                      k1: Word16, k2: Word16, k3: Word16)
    ensures Xor(Xor(Xor(Xor(Xor(a, b), Xor(c, d)), k1), Xor(Xor(Xor(e, a), Xor(b, c)), k2)),
                Xor(Xor(Xor(f, e), Xor(a, b)), k3))
         == Xor(Xor(Xor(Xor(b, d), f), Xor(Xor(k1, k2), k3)), a)
  {
  }

  lemma FixedConstant()
    ensures Xor(Xor(FIXED, Rotl16(FIXED, 15)), Rotl16(FIXED, 14)) == ADVANCE
  {
  }

  lemma PairedConstant()
    ensures Xor(Xor(PAIRED, Rotl16(PAIRED, 14)), Rotl16(PAIRED, 12)) == ADVANCE2
  {
  }

  // Window and rotations by 16 - k and 16 - 2k.
  lemma DifferenceByWindows(x: Word16, k: nat, c: Word16)
    requires k == 1 || k == 2
    ensures var v := Xor(Window(x, k), c);
      Xor(Xor(v, Rotl16(v, 16 - k)), Rotl16(v, 16 - 2 * k)) ==
        Xor(Xor(Xor(Xor(Rotl16(x, k), Rotl16(x, 3 * k)), Rotl16(x, 16 - 2 * k)),
                Xor(Xor(c, Rotl16(c, 16 - k)), Rotl16(c, 16 - 2 * k))), x)
  {
    RotlWindow(x, k, c, 16 - k);
    RotlWindow(x, k, c, 16 - 2 * k);
    RotlRotl(x, k, 16 - k);
    RotlRotl(x, 2 * k, 16 - k);
    RotlRotl(x, 3 * k, 16 - k);
    RotlRotl(x, k, 16 - 2 * k);
    RotlRotl(x, 2 * k, 16 - 2 * k);
    RotlRotl(x, 3 * k, 16 - 2 * k);
    assert Rotl16(x, 0) == x;
    CancelWindows(x, Rotl16(x, k), Rotl16(x, 2 * k), Rotl16(x, 3 * k), Rotl16(x, 16 - k), Rotl16(x, 16 - 2 * k),
                  c, Rotl16(c, 16 - k), Rotl16(c, 16 - 2 * k));
  }

  lemma FourTimesDifference(x: Word16)
    ensures Xor(FourTimes(x), x) == Window(x, 4)
  {
  }

  ghost predicate Cancelling(v: Word16, k: nat, i: nat)
    requires k <= 2 && i < 16
  {
    v[i] == (v[if i + k < 16 then i + k else i + k - 16] != v[if i + 2 * k < 16 then i + 2 * k else i + 2 * k - 16])
  }

  // Bits whose neighbours at distance k and 2k always cancel them are all zero.
  lemma TripleZero(v: Word16, k: nat)
    requires k == 1 || k == 2
    requires Xor(Xor(v, Rotl16(v, 16 - k)), Rotl16(v, 16 - 2 * k)) == ZERO
    ensures v == ZERO
  {
    forall i: nat | i < 16 ensures Cancelling(v, k, i) {
      assert Xor(Xor(v, Rotl16(v, 16 - k)), Rotl16(v, 16 - 2 * k))[i] == ZERO[i];
    }
    AllCancelling(v, k);
  }

  lemma AllCancelling(v: Word16, k: nat)
    requires k == 1 || k == 2
    requires forall i: nat :: i < 16 ==> Cancelling(v, k, i)
    ensures v == ZERO
  {
    if k == 1 {
      assert Cancelling(v, 1, 0) && Cancelling(v, 1, 1) && Cancelling(v, 1, 2) && Cancelling(v, 1, 3);
      assert Cancelling(v, 1, 4) && Cancelling(v, 1, 5) && Cancelling(v, 1, 6) && Cancelling(v, 1, 7);
      assert Cancelling(v, 1, 8) && Cancelling(v, 1, 9) && Cancelling(v, 1, 10) && Cancelling(v, 1, 11);
      assert Cancelling(v, 1, 12) && Cancelling(v, 1, 13) && Cancelling(v, 1, 14) && Cancelling(v, 1, 15);
    } else {
      assert Cancelling(v, 2, 0) && Cancelling(v, 2, 2) && Cancelling(v, 2, 4) && Cancelling(v, 2, 6);
      assert Cancelling(v, 2, 8) && Cancelling(v, 2, 10) && Cancelling(v, 2, 12) && Cancelling(v, 2, 14);
      assert Cancelling(v, 2, 1) && Cancelling(v, 2, 3) && Cancelling(v, 2, 5) && Cancelling(v, 2, 7);
      assert Cancelling(v, 2, 9) && Cancelling(v, 2, 11) && Cancelling(v, 2, 13) && Cancelling(v, 2, 15);
    }
  }

  lemma ZeroTriple(v: Word16, k: nat)
    requires k == 1 || k == 2
    requires v == ZERO
    ensures Xor(Xor(v, Rotl16(v, 16 - k)), Rotl16(v, 16 - 2 * k)) == ZERO
  {
  }

  lemma ZeroValue(x: Word16)
    requires x == ZERO
    ensures Value(x) == 0
  {
    NibblesGive(x, 0, 0);
  }

  lemma SameIffSameValue(x: Word16, y: Word16)
    ensures x == y <==> Value(x) == Value(y)
  {
    if Value(x) == Value(y) {
      SameValueSameBits(x, y);
    }
  }

  // The seeds that one, two and four ticks restore, read off their bits.
  lemma RestoredIff(x: Word16)
    ensures Oscillate(x) == x <==> Value(Window(x, 1)) == 0xCACA
    ensures Twice(x) == x <==> Value(Window(x, 2)) == 0x2222
    ensures FourTimes(x) == x <==> Value(Window(x, 4)) == 0
  {
    OneTickRestores(x);
    FixedValue(FIXED);
    SameIffSameValue(Window(x, 1), FIXED);
    TwoTicksRestore(x);
    PairedValue(PAIRED);
    SameIffSameValue(Window(x, 2), PAIRED);
    FourTicksRestore(x);
    ZeroValue(ZERO);
    SameIffSameValue(Window(x, 4), ZERO);
  }

  lemma FourTicksRestore(x: Word16)
    ensures FourTimes(x) == x <==> Window(x, 4) == ZERO
  {
    SameIffXorZero(FourTimes(x), x);
    FourTimesDifference(x);
  }

  lemma OneTickRestores(x: Word16)
    ensures Oscillate(x) == x <==> Window(x, 1) == FIXED
  {
    var v := Xor(Window(x, 1), FIXED);
    SameIffXorZero(Oscillate(x), x);
    SameIffXorZero(Window(x, 1), FIXED);
    DifferenceByWindows(x, 1, FIXED);
    FixedConstant();
    if v == ZERO {
      ZeroTriple(v, 1);
    } else if Oscillate(x) == x {
      TripleZero(v, 1);
    }
  }

  lemma TwoTicksRestore(x: Word16)
    ensures Twice(x) == x <==> Window(x, 2) == PAIRED
  {
    var v := Xor(Window(x, 2), PAIRED);
    SameIffXorZero(Twice(x), x);
    SameIffXorZero(Window(x, 2), PAIRED);
    DifferenceByWindows(x, 2, PAIRED);
    PairedConstant();
    if v == ZERO {
      ZeroTriple(v, 2);
    } else if Twice(x) == x {
      TripleZero(v, 2);
    }
  }

  // The period of a seed, without running the clock.
  lemma PeriodFromSeed(s: Word16)
    ensures Period(Oscillate, s) ==
      if Value(Window(s, 1)) == 0xCACA then 1
      else if Value(Window(s, 2)) == 0x2222 then 2
      else if Value(Window(s, 4)) == 0 then 4
      else 8
  {
    RestoredIff(s);
    PeriodSplits(s);
  }

  lemma PeriodSplits(s: Word16)
    ensures Period(Oscillate, s) ==
      if Oscillate(s) == s then 1 else if Twice(s) == s then 2 else if FourTimes(s) == s then 4 else 8
  {
    TwoTicks(s);
    FourTicks(s);
  }

  lemma TwoTicks(s: Word16)
    ensures Iterate(Oscillate, 1, s) == Oscillate(s)
    ensures Iterate(Oscillate, 2, s) == Twice(s)
  {
    TwiceIsOscillateSquared(s);
    assert Iterate(Oscillate, 1, s) == Oscillate(s);
  }

  // ---------- peers ----------

  // One fixed centroid; the orientation does not move it.
  function CentroidState(omnion: nat): Word16 {
    seq(16, _ => false)
  }

  function CentroidResolution(state: Word16, omnion: nat): Word16 {
    Xor(state, CentroidState(omnion))
  }

  lemma ResolutionIsState(state: Word16, omnion: nat)
    ensures CentroidResolution(state, omnion) == state
  {
  }

  class SyncPeer {
    var state: Word16
    var steps: u64
    ghost var seed: Word16
    ghost var ticked: nat

    ghost predicate Valid()
      reads this
    {
      state == Ticks(ticked, seed) && steps == ticked % 0x1_0000_0000_0000_0000
    }

    constructor (initial: Word16)
      ensures Valid() && seed == initial && ticked == 0
      ensures state == initial && steps == 0
    {
      state, steps := initial, 0;
      seed, ticked := initial, 0;
    }

    // The 64-bit step counter wraps around; the state does not depend on it.
    method Tick()
      requires Valid()
      modifies this
      ensures Valid() && seed == old(seed) && ticked == old(ticked) + 1
      ensures state == Oscillate(old(state))
      ensures steps == if old(steps) == 0xFFFF_FFFF_FFFF_FFFF then 0 else old(steps) + 1
    {
      ghost var n := ticked + 1;
      OneMore(ticked, seed, state);
      state := Oscillate(state);
      steps := Increment(steps);
      ticked := n;
      assert state == Ticks(n, seed);
    }
  }

  // Exact synchronisation check, decided for every pair of runs.
  method CheckResolved(local: SyncPeer, remote: SyncPeer, omnion: nat) returns (synchronised: bool)
    requires local.Valid() && remote.Valid()
    ensures synchronised <==> local.seed == Ticks((remote.ticked + 7 * local.ticked) % 8, remote.seed)
    ensures local.ticked == remote.ticked ==> (synchronised <==> local.seed == remote.seed)
    ensures local.seed == remote.seed ==>
      (synchronised <==> local.ticked % Period(Oscillate, local.seed) == remote.ticked % Period(Oscillate, local.seed))
  {
    synchronised := CentroidResolution(local.state, omnion) == CentroidResolution(remote.state, omnion);
    ResolutionIsState(local.state, omnion);
    ResolutionIsState(remote.state, omnion);
    assert synchronised <==> Ticks(local.ticked, local.seed) == Ticks(remote.ticked, remote.seed);
    RunsMeetIff(local.ticked, local.seed, remote.ticked, remote.seed);
  }

  // Whole runs of two peers: equal counts meet exactly for equal seeds, equal seeds
  // exactly when the counts agree modulo the seed's period (1, 2, 4 or 8).
  lemma RunsMeetIff(n: nat, s: Word16, m: nat, t: Word16)
    ensures Ticks(n, s) == Ticks(m, t) <==> s == Ticks((m + 7 * n) % 8, t)
    ensures n == m ==> (Ticks(n, s) == Ticks(m, t) <==> s == t)
    ensures s == t ==> (Ticks(n, s) == Ticks(m, t) <==> n % Period(Oscillate, s) == m % Period(Oscillate, s))
  {
    EightTicksRestore();
    MeetIff(Oscillate, n, s, m, t);
    if n == m {
      assert (m + 7 * n) % 8 == 0;
    }
    if s == t {
      SameStartMeetIff(Oscillate, n, m, s);
    }
  }

  // A peer after n ticks: the state is the n-fold law of the seed and the counter is n
  // modulo 2^64.
  method RunPeer(seed: Word16, n: nat) returns (peer: SyncPeer)
    ensures fresh(peer) && peer.Valid() && peer.seed == seed && peer.ticked == n
    ensures peer.state == Ticks(n, seed) && peer.steps == n % 0x1_0000_0000_0000_0000
  {
    peer := new SyncPeer(seed);
    for i := 0 to n
      invariant fresh(peer) && peer.Valid() && peer.seed == seed && peer.ticked == i
    {
      peer.Tick();
    }
  }
}
