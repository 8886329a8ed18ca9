// The CONS fold of src/omnicron-coproduct-partition.c, its two recoveries, and
// when two pairs resolve alike.
module Cons {

  // The shift count is taken modulo 32; the opposite shift is its negation.
  function Rotl32(v: bv32, shift: bv5): bv32 {
    (v << shift) | (v >> (0 - shift))
  }

  function Rotr32(v: bv32, shift: bv5): bv32 {
    (v >> shift) | (v << (0 - shift))
  }

  // The profile in both halves of the word.
  function Salt(profile: bv16): bv32 {
    ((profile as bv32) << 16) | (profile as bv32)
  }

  // The fold and the recoveries, with their rotations written out.
  function Fold(car: bv32, cdr: bv32, profile: bv16): bv32 {
    ((car << 1) | (car >> 31)) ^ ((cdr << 3) | (cdr >> 29)) ^ (((profile as bv32) << 16) | (profile as bv32))
  }

  function RecoverCar(cons: bv32, cdr: bv32, profile: bv16): bv32 {
    var rotated := cons ^ ((cdr << 3) | (cdr >> 29)) ^ (((profile as bv32) << 16) | (profile as bv32));
    (rotated >> 1) | (rotated << 31)
  }

  function RecoverCdr(car: bv32, cons: bv32, profile: bv16): bv32 {
    var rotated := cons ^ ((car << 1) | (car >> 31)) ^ (((profile as bv32) << 16) | (profile as bv32));
    (rotated >> 3) | (rotated << 29)
  }

  lemma FoldWrittenOut(car: bv32, cdr: bv32, profile: bv16)
    ensures Fold(car, cdr, profile) == Rotl32(car, 1) ^ Rotl32(cdr, 3) ^ Salt(profile)
  {
  }

  lemma RecoverCarWrittenOut(cons: bv32, cdr: bv32, profile: bv16)
    ensures RecoverCar(cons, cdr, profile) == Rotr32(cons ^ Rotl32(cdr, 3) ^ Salt(profile), 1)
  {
  }

  lemma RecoverCdrWrittenOut(car: bv32, cons: bv32, profile: bv16)
    ensures RecoverCdr(car, cons, profile) == Rotr32(cons ^ Rotl32(car, 1) ^ Salt(profile), 3)
  {
  }

  // ---------- quasigroup ----------

  lemma RecoverCarUndoesFold(car: bv32, cdr: bv32, profile: bv16)
    ensures RecoverCar(Fold(car, cdr, profile), cdr, profile) == car
  {
  }

  lemma RecoverCdrUndoesFold(car: bv32, cdr: bv32, profile: bv16)
    ensures RecoverCdr(car, Fold(car, cdr, profile), profile) == cdr
  {
  }

  lemma FoldUndoesRecoverCar(cons: bv32, cdr: bv32, profile: bv16)
    ensures Fold(RecoverCar(cons, cdr, profile), cdr, profile) == cons
  {
  }

  lemma FoldUndoesRecoverCdr(car: bv32, cons: bv32, profile: bv16)
    ensures Fold(car, RecoverCdr(car, cons, profile), profile) == cons
  {
  }

  // CONS is a quasigroup under every profile: each of car, cdr and cons is
  // determined by the other two, and recovery computes it.
  lemma Quasigroup(car: bv32, cdr: bv32, cons: bv32, profile: bv16)
    ensures Fold(car, cdr, profile) == cons <==> RecoverCar(cons, cdr, profile) == car
    ensures Fold(car, cdr, profile) == cons <==> RecoverCdr(car, cons, profile) == cdr
  {
    RecoverCarUndoesFold(car, cdr, profile);
    RecoverCdrUndoesFold(car, cdr, profile);
    FoldUndoesRecoverCar(cons, cdr, profile);
    FoldUndoesRecoverCdr(car, cons, profile);
  }

  // ---------- when two pairs resolve alike ----------

  lemma Compensate(car: bv32, cdr: bv32, car': bv32, cdr': bv32, profile: bv16)
    requires car ^ car' == Rotl32(cdr ^ cdr', 2)
    ensures Fold(car, cdr, profile) == Fold(car', cdr', profile)
  {
  }

  lemma XorMove(x: bv32, y: bv32, z: bv32)
    requires y == x ^ z
    ensures x ^ y == z
  {
  }

  // Recovering the car with another cdr moves it by the rotated change of cdr.
  lemma RecoverOther(car: bv32, cdr: bv32, cdr': bv32, profile: bv16)
    ensures RecoverCar(Fold(car, cdr, profile), cdr', profile) == car ^ Rotl32(cdr ^ cdr', 2)
  {
  }

  lemma Compensated(car: bv32, cdr: bv32, car': bv32, cdr': bv32, profile: bv16)
    requires Fold(car, cdr, profile) == Fold(car', cdr', profile)
    ensures car ^ car' == Rotl32(cdr ^ cdr', 2)
  {
    RecoverOther(car, cdr, cdr', profile);
    RecoverCarUndoesFold(car', cdr', profile);
    XorMove(car, car', Rotl32(cdr ^ cdr', 2));
  }

  // Two pairs resolve alike under one profile exactly when the change of car is
  // the change of cdr rotated by two.
  lemma SameFoldIff(car: bv32, cdr: bv32, car': bv32, cdr': bv32, profile: bv16)
    ensures Fold(car, cdr, profile) == Fold(car', cdr', profile) <==> car ^ car' == Rotl32(cdr ^ cdr', 2)
  {
    if car ^ car' == Rotl32(cdr ^ cdr', 2) {
      Compensate(car, cdr, car', cdr', profile);
    } else if Fold(car, cdr, profile) == Fold(car', cdr', profile) {
      Compensated(car, cdr, car', cdr', profile);
      assert false;
    }
  }

  lemma PeriodTwo(d: bv32)
    ensures d == Rotl32(d, 2) <==> d == 0 || d == 0x55555555 || d == 0xAAAAAAAA || d == 0xFFFFFFFF
  {
  }

  lemma XorCommutes(x: bv32, y: bv32)
    ensures x ^ y == y ^ x
  {
  }

  // CONS is ordered: exchanging car and cdr goes unnoticed only when they differ
  // by a word that a rotation by two leaves alone.
  lemma SwapUnchangedIff(car: bv32, cdr: bv32, profile: bv16)
    ensures Fold(car, cdr, profile) == Fold(cdr, car, profile) <==>
      car ^ cdr == 0 || car ^ cdr == 0x55555555 || car ^ cdr == 0xAAAAAAAA || car ^ cdr == 0xFFFFFFFF
  {
    SameFoldIff(car, cdr, cdr, car, profile);
    XorCommutes(car, cdr);
    PeriodTwo(car ^ cdr);
  }

  // ---------- bit by bit ----------

  // Bit i of a word; indices are counted modulo the width.
  predicate Bit32(w: bv32, i: bv5) {
    (w >> i) & 1 == 1
  }

  predicate Bit16(w: bv16, i: bv5) {
    (w >> (i & 15)) & 1 == 1
  }

  // Bit i of the fold adds, modulo 2, bit i-1 of car, bit i-3 of cdr (modulo 32), and
  // bit i of the profile (modulo 16).
  lemma FoldBit(car: bv32, cdr: bv32, profile: bv16, i: bv5)
    ensures Bit32(Fold(car, cdr, profile), i) <==> ((Bit32(car, i - 1) != Bit32(cdr, i - 3)) != Bit16(profile, i))
  {
  }

  // The word recorded for the rules and the facts of the built-in demonstration.
  lemma RulesAndFacts()
    ensures Fold(0x12345678, 0x55667788, 1) == 0x8F5A10B3
    ensures RecoverCar(0x8F5A10B3, 0x55667788, 1) == 0x12345678
    ensures RecoverCdr(0x12345678, 0x8F5A10B3, 1) == 0x55667788
  {
  }
}
