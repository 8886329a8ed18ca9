// The SWAR population count of src/omnicron-coproduct-partition.c: it counts the
// coordinates a board claims.
module Popcount {
  import opened WordTypes
  import opened Powers
  import opened Words
  import Board

  // Three masked additions, the arithmetic modulo 2^64 ...
  function PairCounts(lane: u64): u64 {
    AndBelow(lane / 2, 0x5555555555555555);
    lane - Words.And(lane / 2, 0x5555555555555555)
  }

  function NibbleCounts(pairs: u64): u64 {
    (Words.And(pairs, 0x3333333333333333) + Words.And(pairs / 4, 0x3333333333333333)) % TWO64
  }

  function ByteCounts(nibbles: u64): u64 {
    AndBelow((nibbles + nibbles / 16) % TWO64, 0x0F0F0F0F0F0F0F0F);
    Words.And((nibbles + nibbles / 16) % TWO64, 0x0F0F0F0F0F0F0F0F)
  }

  // ... and a multiplication that gathers the eight byte counts in the top byte.
  function TopByte(bytes: u64): nat {
    (bytes * 0x0101010101010101) % TWO64 / 0x100_0000_0000_0000
  }

  function LaneCount(lane: u64): nat {
    TopByte(ByteCounts(NibbleCounts(PairCounts(lane))))
  }

  // Sum of the base-`base` digits; in base 2 it is the number of set bits.
  function DigitSum(v: nat, base: nat): nat
    requires base >= 2
    decreases v
  {
    if v == 0 then 0 else v % base + DigitSum(v / base, base)
  }

  predicate DigitsAtMost(v: nat, base: nat, max: nat)
    requires base >= 2
    decreases v
  {
    v == 0 || (v % base <= max && DigitsAtMost(v / base, base, max))
  }

  // A word whose base-`base` digits are all `digit`.
  function Repeat(digit: nat, base: nat, count: nat): nat
    decreases count
  {
    if count == 0 then 0 else digit + base * Repeat(digit, base, count - 1)
  }

  lemma KeepBit(v: nat, m: nat)
    ensures Words.And(v, 1 + 4 * m) == v % 2 + 4 * Words.And(v / 4, m)
  {
    AndOne(v, 2 * m);
    AndNone(v / 2, m);
  }

  lemma KeepPair(v: nat, m: nat)
    ensures Words.And(v, 3 + 4 * m) == v % 4 + 4 * Words.And(v / 4, m)
  {
    AndOne(v, 1 + 2 * m);
    AndOne(v / 2, m);
  }

  lemma DropPair(v: nat, m: nat)
    ensures Words.And(v, 4 * m) == 4 * Words.And(v / 4, m)
  {
    AndNone(v, 2 * m);
    AndNone(v / 2, m);
  }

  lemma KeepPairOfNibble(v: nat, m: nat)
    ensures Words.And(v, 3 + 16 * m) == v % 4 + 16 * Words.And(v / 16, m)
  {
    KeepPair(v, 4 * m);
    DropPair(v / 4, m);
  }

  lemma TwoPairs(v: nat)
    ensures v / 4 / 4 == v / 16 && v % 4 + 4 * (v / 4 % 4) == v % 16
  {
  }

  lemma KeepNibble(v: nat, m: nat)
    ensures Words.And(v, 15 + 16 * m) == v % 16 + 16 * Words.And(v / 16, m)
  {
    TwoPairs(v);
    KeepPair(v, 3 + 4 * m);
    KeepPair(v / 4, m);
  }

  lemma DropNibble(v: nat, m: nat)
    ensures Words.And(v, 16 * m) == 16 * Words.And(v / 16, m)
  {
    DropPair(v, 4 * m);
    DropPair(v / 4, m);
  }

  lemma KeepNibbleOfByte(v: nat, m: nat)
    ensures Words.And(v, 15 + 256 * m) == v % 16 + 256 * Words.And(v / 256, m)
  {
    KeepNibble(v, 16 * m);
    DropNibble(v / 16, m);
  }

  lemma LowDigit(d: nat, r: nat, base: nat)
    requires base == 4 || base == 16 || base == 256
    requires d < base
    ensures (d + base * r) / base == r && (d + base * r) % base == d
  {
  }

  // A new lowest digit adds itself to the digit sum.
  lemma Push(d: nat, r: nat, base: nat, max: nat)
    requires base == 4 || base == 16 || base == 256
    requires d < base && d <= max && DigitsAtMost(r, base, max)
    ensures DigitSum(d + base * r, base) == d + DigitSum(r, base)
    ensures DigitsAtMost(d + base * r, base, max)
  {
    LowDigit(d, r, base);
  }

  lemma FieldsBelow(v: nat, bits: nat, base: nat, n: nat)
    requires n > 0 && Pow2(bits) == base && v < Pow2(bits * n)
    ensures Pow2(bits * n) == base * Pow2(bits * (n - 1))
    ensures v / base < Pow2(bits * (n - 1))
  {
    assert bits * n == bits + bits * (n - 1);
    Pow2Add(bits, bits * (n - 1));
    DivBelow(v, base, Pow2(bits * (n - 1)));
  }

  lemma DivBelow(v: nat, base: nat, bound: nat)
    requires base > 0 && v < base * bound
    ensures v / base < bound
  {
  }

  // Each step doubles the field width and keeps the digit sum.
  lemma PairField(v: nat, kept: nat, rest: nat)
    requires kept == v / 2 % 2 + 4 * rest && rest <= v / 4
    ensures kept <= v && v - kept == v % 4 - v % 4 / 2 + 4 * (v / 4 - rest)
    ensures v / 2 / 4 == v / 4 / 2
  {
  }

  lemma PairPush(v: nat, kept: nat, rest: nat)
    requires kept == v / 2 % 2 + 4 * rest && rest <= v / 4
    requires DigitSum(v / 4 - rest, 4) == DigitSum(v / 4, 2) && DigitsAtMost(v / 4 - rest, 4, 2)
    ensures kept <= v && DigitSum(v - kept, 4) == DigitSum(v, 2) && DigitsAtMost(v - kept, 4, 2)
  {
    PairField(v, kept, rest);
    Push(v % 4 - v % 4 / 2, v / 4 - rest, 4, 2);
    BitPair(v);
  }

  lemma {:induction false} PairStep(v: nat, n: nat, kept: nat)
    requires v < Pow2(2 * n) && kept == Words.And(v / 2, Repeat(1, 4, n))
    ensures kept <= v && DigitSum(v - kept, 4) == DigitSum(v, 2) && DigitsAtMost(v - kept, 4, 2)
    decreases n
  {
    if n > 0 {
      FieldsBelow(v, 2, 4, n);
      var m := Repeat(1, 4, n - 1);
      var rest := Words.And(v / 4 / 2, m);
      PairStep(v / 4, n - 1, rest);
      KeepBit(v / 2, m);
      assert v / 2 / 4 == v / 4 / 2;
      PairPush(v, kept, rest);
    }
  }

  lemma BitPair(v: nat)
    ensures DigitSum(v, 2) == v % 4 - v % 4 / 2 + DigitSum(v / 4, 2)
  {
    assert v / 2 / 2 == v / 4 && v / 2 % 2 == v % 4 / 2;
  }

  lemma NibbleField(v: nat, w: nat, m: nat)
    requires w == v / 16
    ensures Words.And(v, 3 + 16 * m) + Words.And(v / 4, 3 + 16 * m)
         == v % 4 + v / 4 % 4 + 16 * (Words.And(w, m) + Words.And(w / 4, m))
  {
    KeepPairOfNibble(v, m);
    KeepPairOfNibble(v / 4, m);
    assert v / 4 / 16 == w / 4;
  }

  predicate Square(base: nat, square: nat) {
    (base == 4 && square == 16) || (base == 16 && square == 256)
  }

  lemma DivTwice(v: nat, base: nat, square: nat)
    requires Square(base, square)
    ensures v / base / base == v / square
  {
    if base == 16 {
      assert v / 16 / 16 == v / 256;
    }
  }

  lemma TwoDigits(v: nat, base: nat, square: nat, max: nat)
    requires Square(base, square) && DigitsAtMost(v, base, max)
    ensures v % base <= max && v / base % base <= max && DigitsAtMost(v / square, base, max)
    ensures DigitSum(v, base) == v % base + v / base % base + DigitSum(v / square, base)
  {
    DivTwice(v, base, square);
    assert DigitsAtMost(v / base, base, max);
  }

  // Adding neighbouring digits two by two doubles the field width.
  lemma NibblePush(v: nat, w: nat, m: nat, rest: nat, r: nat)
    requires DigitsAtMost(v, 4, 2) && w == v / 16
    requires rest == Words.And(w, m) + Words.And(w / 4, m)
    requires DigitSum(rest, 16) == DigitSum(w, 4) && DigitsAtMost(rest, 16, 4)
    requires r == Words.And(v, 3 + 16 * m) + Words.And(v / 4, 3 + 16 * m)
    ensures r <= 6 + 16 * rest && DigitSum(r, 16) == DigitSum(v, 4) && DigitsAtMost(r, 16, 4)
  {
    NibbleField(v, w, m);
    TwoDigits(v, 4, 16, 2);
    Push(v % 4 + v / 4 % 4, rest, 16, 4);
  }

  lemma {:induction false} NibbleStep(v: nat, n: nat, r: nat)
    requires v < Pow2(4 * n) && DigitsAtMost(v, 4, 2)
    requires r == Words.And(v, Repeat(3, 16, n)) + Words.And(v / 4, Repeat(3, 16, n))
    ensures r < Pow2(4 * n) && DigitSum(r, 16) == DigitSum(v, 4) && DigitsAtMost(r, 16, 4)
    decreases n
  {
    if n > 0 {
      FieldsBelow(v, 4, 16, n);
      var w, m := v / 16, Repeat(3, 16, n - 1);
      var rest := Words.And(w, m) + Words.And(w / 4, m);
      TwoDigits(v, 4, 16, 2);
      NibbleStep(w, n - 1, rest);
      NibblePush(v, w, m, rest, r);
    }
  }

  lemma ByteField(a: nat, b: nat, c: nat, e: nat, v: nat)
    requires a <= 4 && b <= 4 && c <= 4
    requires v == a + 16 * b + 256 * (c + 16 * e)
    ensures (v + v / 16) % 16 == a + b
    ensures (v + v / 16) / 256 == c + 16 * e + e
  {
    assert v / 16 == b + 16 * (c + 16 * e);
  }

  lemma Recompose(v: nat, w: nat)
    requires w == v / 256
    ensures v == v % 16 + 16 * (v / 16 % 16) + 256 * (w % 16 + 16 * (w / 16))
  {
    assert w == v / 16 / 16;
  }

  lemma ByteSplit(v: nat, w: nat, m: nat)
    requires DigitsAtMost(v, 16, 4) && w == v / 256
    ensures DigitsAtMost(w, 16, 4)
    ensures Words.And(v + v / 16, 15 + 256 * m) == v % 16 + v / 16 % 16 + 256 * Words.And(w + w / 16, m)
  {
    TwoDigits(v, 16, 256, 4);
    ByteField(v % 16, v / 16 % 16, w % 16, w / 16, v) by {
      Recompose(v, w);
    }
    KeepNibbleOfByte(v + v / 16, m);
  }

  lemma BytePush(v: nat, w: nat, m: nat, rest: nat)
    requires DigitsAtMost(v, 16, 4) && w == v / 256
    requires rest == Words.And(w + w / 16, m)
    requires DigitSum(rest, 256) == DigitSum(w, 16) && DigitsAtMost(rest, 256, 8)
    ensures DigitSum(Words.And(v + v / 16, 15 + 256 * m), 256) == DigitSum(v, 16)
    ensures DigitsAtMost(Words.And(v + v / 16, 15 + 256 * m), 256, 8)
  {
    ByteSplit(v, w, m);
    TwoDigits(v, 16, 256, 4);
    Push(v % 16 + v / 16 % 16, rest, 256, 8);
  }

  lemma {:induction false} ByteStep(v: nat, n: nat)
    requires v < Pow2(8 * n) && DigitsAtMost(v, 16, 4)
    ensures DigitSum(Words.And(v + v / 16, Repeat(15, 256, n)), 256) == DigitSum(v, 16)
    ensures DigitsAtMost(Words.And(v + v / 16, Repeat(15, 256, n)), 256, 8)
    decreases n
  {
    if n > 0 {
      FieldsBelow(v, 8, 256, n);
      var w, m := v / 256, Repeat(15, 256, n - 1);
      TwoDigits(v, 16, 256, 4);
      ByteStep(w, n - 1);
      BytePush(v, w, m, Words.And(w + w / 16, m));
    }
  }

  // Digits of at most 4 leave room for the last addition.
  lemma {:induction false} SmallDigits(v: nat, n: nat)
    requires v < Pow2(4 * n) && DigitsAtMost(v, 16, 4)
    ensures 15 * v + 4 <= 4 * Pow2(4 * n)
    decreases n
  {
    if n > 0 {
      FieldsBelow(v, 4, 16, n);
      SmallDigits(v / 16, n - 1);
    }
  }

  lemma Peel(b: nat) returns (d: nat, rest: nat)
    requires DigitsAtMost(b, 256, 8)
    ensures b == d + 0x100 * rest && d <= 8 && DigitsAtMost(rest, 256, 8)
    ensures DigitSum(b, 256) == d + DigitSum(rest, 256)
  {
    d, rest := b % 256, b / 256;
  }

  // Multiplying by a one in every byte leaves the sum of the bytes on top.
  lemma Gather(b: nat)
    requires b < TWO64 && DigitsAtMost(b, 256, 8)
    ensures (b * 0x0101010101010101) % TWO64 / 0x100_0000_0000_0000 == DigitSum(b, 256)
  {
    var b0, c1 := Peel(b);
    var b1, c2 := Peel(c1);
    var b2, c3 := Peel(c2);
    var b3, c4 := Peel(c3);
    var b4, c5 := Peel(c4);
    var b5, c6 := Peel(c5);
    var b6, c7 := Peel(c6);
    var b7, c8 := Peel(c7);
    assert c8 == 0;
    GatherBytes(b0, b1, b2, b3, b4, b5, b6, b7, b);
  }

  lemma TopOf(low: nat, top: nat, high: nat)
    requires low < 0x100_0000_0000_0000 && top < 0x100
    ensures (low + 0x100_0000_0000_0000 * top + TWO64 * high) % TWO64 / 0x100_0000_0000_0000 == top
  {
    assert (low + 0x100_0000_0000_0000 * top + TWO64 * high) % TWO64 == low + 0x100_0000_0000_0000 * top;
  }

  lemma GatherBytes(b0: nat, b1: nat, b2: nat, b3: nat, b4: nat, b5: nat, b6: nat, b7: nat, b: nat)
    requires b0 <= 8 && b1 <= 8 && b2 <= 8 && b3 <= 8 && b4 <= 8 && b5 <= 8 && b6 <= 8 && b7 <= 8
    requires b == b0 + 0x100 * b1 + 0x1_0000 * b2 + 0x100_0000 * b3 + 0x1_0000_0000 * b4
               + 0x100_0000_0000 * b5 + 0x1_0000_0000_0000 * b6 + 0x100_0000_0000_0000 * b7
    ensures (b * 0x0101010101010101) % TWO64 / 0x100_0000_0000_0000 == b0 + b1 + b2 + b3 + b4 + b5 + b6 + b7
  {
    var low := b0 + 0x100 * (b0 + b1) + 0x1_0000 * (b0 + b1 + b2) + 0x100_0000 * (b0 + b1 + b2 + b3)
             + 0x1_0000_0000 * (b0 + b1 + b2 + b3 + b4) + 0x100_0000_0000 * (b0 + b1 + b2 + b3 + b4 + b5)
             + 0x1_0000_0000_0000 * (b0 + b1 + b2 + b3 + b4 + b5 + b6);
    var top := b0 + b1 + b2 + b3 + b4 + b5 + b6 + b7;
    var high := b7 + b6 + b5 + b4 + b3 + b2 + b1
              + 0x100 * (b7 + b6 + b5 + b4 + b3 + b2) + 0x1_0000 * (b7 + b6 + b5 + b4 + b3)
              + 0x100_0000 * (b7 + b6 + b5 + b4) + 0x1_0000_0000 * (b7 + b6 + b5)
              + 0x100_0000_0000 * (b7 + b6) + 0x1_0000_0000_0000 * b7;
    assert b * 0x0101010101010101 == low + 0x100_0000_0000_0000 * top + TWO64 * high;
    TopOf(low, top, high);
  }

  lemma PairMask(n: nat)
    requires n == 32
    ensures Repeat(1, 4, n) == 0x5555555555555555
  {
    assert Repeat(1, 4, 8) == 0x5555;
    assert Repeat(1, 4, 16) == 0x55555555;
    assert Repeat(1, 4, 24) == 0x555555555555;
    assert Repeat(1, 4, 32) == 0x5555555555555555;
  }

  lemma NibbleMask(n: nat)
    requires n == 16
    ensures Repeat(3, 16, n) == 0x3333333333333333
  {
    assert Repeat(3, 16, 8) == 0x33333333;
    assert Repeat(3, 16, 16) == 0x3333333333333333;
  }

  lemma ByteMask(n: nat)
    requires n == 8
    ensures Repeat(15, 256, n) == 0x0F0F0F0F0F0F0F0F
  {
    assert Repeat(15, 256, 8) == 0x0F0F0F0F0F0F0F0F;
  }

  lemma PairStage(lane: u64)
    ensures DigitSum(PairCounts(lane), 4) == DigitSum(lane, 2) && DigitsAtMost(PairCounts(lane), 4, 2)
  {
    PairStageWith(lane, 0x5555555555555555, 32);
  }

  lemma PairStageWith(lane: u64, mask: nat, n: nat)
    requires n == 32 && mask == 0x5555555555555555
    ensures var kept := Words.And(lane / 2, mask);
      kept <= lane && DigitSum(lane - kept, 4) == DigitSum(lane, 2) && DigitsAtMost(lane - kept, 4, 2)
  {
    PairMask(n);
    FullWidth(2 * n);
    PairStep(lane, n, Words.And(lane / 2, mask));
  }

  lemma FullWidth(bits: nat)
    requires bits == 64
    ensures Pow2(bits) == TWO64
  {
    WordSizes();
  }

  lemma NoWrap(x: nat)
    requires x < TWO64
    ensures x % TWO64 == x
  {
  }

  lemma NibbleStage(pairs: u64)
    requires DigitsAtMost(pairs, 4, 2)
    ensures DigitSum(NibbleCounts(pairs), 16) == DigitSum(pairs, 4) && DigitsAtMost(NibbleCounts(pairs), 16, 4)
  {
    NibbleStageWith(pairs, 0x3333333333333333, 16);
  }

  lemma NibbleStageWith(pairs: u64, mask: nat, n: nat)
    requires DigitsAtMost(pairs, 4, 2) && n == 16 && mask == 0x3333333333333333
    ensures var r := (Words.And(pairs, mask) + Words.And(pairs / 4, mask)) % TWO64;
      DigitSum(r, 16) == DigitSum(pairs, 4) && DigitsAtMost(r, 16, 4)
  {
    var r := Words.And(pairs, mask) + Words.And(pairs / 4, mask);
    NibbleMask(n);
    FullWidth(4 * n);
    NibbleStep(pairs, n, r);
    NoWrap(r);
  }

  lemma ByteStage(nibbles: u64)
    requires DigitsAtMost(nibbles, 16, 4)
    ensures DigitSum(ByteCounts(nibbles), 256) == DigitSum(nibbles, 16) && DigitsAtMost(ByteCounts(nibbles), 256, 8)
  {
    ByteStageWith(nibbles, 0x0F0F0F0F0F0F0F0F, 8);
  }

  lemma ByteStageWith(nibbles: u64, mask: nat, n: nat)
    requires DigitsAtMost(nibbles, 16, 4) && n == 8 && mask == 0x0F0F0F0F0F0F0F0F
    ensures var r := Words.And((nibbles + nibbles / 16) % TWO64, mask);
      DigitSum(r, 256) == DigitSum(nibbles, 16) && DigitsAtMost(r, 256, 8)
  {
    ByteMask(n);
    FullWidth(8 * n);
    SmallDigits(nibbles, 2 * n);
    NoWrap(nibbles + nibbles / 16);
    ByteStep(nibbles, n);
  }

  lemma LaneCountIsDigitSum(lane: u64)
    ensures LaneCount(lane) == DigitSum(lane, 2)
  {
    PairStage(lane);
    NibbleStage(PairCounts(lane));
    ByteStage(NibbleCounts(PairCounts(lane)));
    Gather(ByteCounts(NibbleCounts(PairCounts(lane))));
  }

  // ---------- digit sums are cardinalities ----------

  // Number of set bits below position n.
  ghost function BitsBelow(v: nat, n: nat): nat {
    if n == 0 then 0 else BitsBelow(v, n - 1) + if Bit(v, n - 1) then 1 else 0
  }

  lemma {:induction false} BitsFromBelow(v: nat, n: nat)
    requires n > 0
    ensures BitsBelow(v, n) == v % 2 + BitsBelow(v / 2, n - 1)
  {
    if n > 1 {
      BitsFromBelow(v, n - 1);
    }
  }

  lemma {:induction false} DigitSumCountsBits(v: nat, n: nat)
    requires v < Pow2(n)
    ensures DigitSum(v, 2) == BitsBelow(v, n)
    decreases n
  {
    if n > 0 {
      BitsFromBelow(v, n);
      DigitSumCountsBits(v / 2, n - 1);
    } 
  }

  ghost function Claims(b: Board.Board256, n: nat): set<nat>
    requires n <= Board.PLANE_SIZE
  {
    set p: nat | p < n && Board.Test(b, p)
  }

  lemma ClaimsStep(b: Board.Board256, n: nat)
    requires n < Board.PLANE_SIZE
    ensures |Claims(b, n + 1)| == |Claims(b, n)| + if Board.Test(b, n) then 1 else 0
  {
    assert Claims(b, n + 1) == Claims(b, n) + if Board.Test(b, n) then {n} else {};
  }

  // Lane i contributes its bits to the coordinates from 64i on.
  lemma {:induction false} LaneClaims(b: Board.Board256, i: nat, k: nat)
    requires i < 4 && k <= 64
    ensures |Claims(b, 64 * i + k)| == |Claims(b, 64 * i)| + BitsBelow(b[i], k)
    decreases k
  {
    if k > 0 {
      LaneClaims(b, i, k - 1);
      var p := 64 * i + k - 1;
      assert p / 64 == i && p % 64 == k - 1;
      ClaimsStep(b, p);
    }
  }

  // The four lanes' counts, added up.
  function SwarCount(b: Board.Board256): nat {
    LaneCount(b[0]) + LaneCount(b[1]) + LaneCount(b[2]) + LaneCount(b[3])
  }

  lemma LaneAdds(b: Board.Board256, i: nat)
    requires i < 4
    ensures |Claims(b, 64 * i + 64)| == |Claims(b, 64 * i)| + LaneCount(b[i])
  {
    LaneCountIsDigitSum(b[i]);
    assert Pow2(64) == TWO64 by { WordSizes(); }
    DigitSumCountsBits(b[i], 64);
    LaneClaims(b, i, 64);
  }

  // The count of a board is the number of its coordinates.
  lemma SwarCountIsCardinality(b: Board.Board256)
    ensures SwarCount(b) == |Board.Coordinates(b)|
  {
    assert Claims(b, 0) == {};
    LaneAdds(b, 0);
    LaneAdds(b, 1);
    LaneAdds(b, 2);
    LaneAdds(b, 3);
    assert Claims(b, 256) == Board.Coordinates(b);
  }

  // The population count loop over the four lanes.
  method Count(b: Board.Board256) returns (total: nat)
    ensures total == SwarCount(b) == |Board.Coordinates(b)|
  {
    total := 0;
    assert Claims(b, 0) == {};
    for i := 0 to 4
      invariant total == |Claims(b, 64 * i)|
    {
      LaneAdds(b, i);
      total := total + LaneCount(b[i]);
    }
    assert Claims(b, 256) == Board.Coordinates(b);
    SwarCountIsCardinality(b);
  }

  // Disjoint boards add up; in general the overlap is what is counted twice.
  lemma InclusionExclusion(a: Board.Board256, b: Board.Board256)
    ensures SwarCount(Board.Or(a, b)) + SwarCount(Board.And(a, b)) == SwarCount(a) + SwarCount(b)
    ensures Board.Coordinates(a) !! Board.Coordinates(b) ==> SwarCount(Board.Or(a, b)) == SwarCount(a) + SwarCount(b)
  {
    SwarCountIsCardinality(Board.Or(a, b));
    SwarCountIsCardinality(Board.And(a, b));
    SwarCountIsCardinality(a);
    SwarCountIsCardinality(b);
    Board.BoardsAreSets(a, b);
    UnionAndOverlap(Board.Coordinates(a), Board.Coordinates(b));
  }

  lemma UnionAndOverlap(x: set<nat>, y: set<nat>)
    ensures |x + y| + |x * y| == |x| + |y|
    ensures x !! y ==> |x + y| == |x| + |y|
  {
    assert x + y == x + (y - x) && |x + (y - x)| == |x| + |y - x|;
    assert y == (y - x) + (x * y) && |(y - x) + (x * y)| == |y - x| + |x * y|;
  }
}
