// The BASE(n) accumulator of examples/radix/base_metric_seed_model.c.
module Radix {
  import opened WordTypes
  import opened Powers
  import opened Words

  datatype Status = RadixOk | InvalidBase | CharacterOutOfBounds | Overflow

  predicate Supported(base: u8) {
    base == 2 || base == 8 || base == 10 || base == 16 || base == 58 || base == 64
  }

  // ---------- meaning ----------

  // Positional value, most significant digit first.
  function Value(base: nat, digits: seq<nat>): nat {
    if digits == [] then 0 else Value(base, digits[..|digits| - 1]) * base + digits[|digits| - 1]
  }

  function StatusOf(base: nat, acc: nat, digit: nat): Status {
    if digit >= base then CharacterOutOfBounds
    else if acc * base + digit >= TWO32 then Overflow
    else RadixOk
  }

  predicate Feedable(base: nat, digits: seq<nat>) {
    (forall i :: 0 <= i < |digits| ==> digits[i] < base) && Value(base, digits) < TWO32
  }

  // ---------- the accumulator ----------

  class BaseMetricSeedModel {
    var base: u8
    var shift: u8
    var accumulator: u32
    ghost var accepted: seq<nat>

    // Only bases that are powers of two have a shift shortcut, and the accumulator
    // is the value of the digits accepted so far.
    ghost predicate Valid()
      reads this
    {
      && Supported(base) && accumulator == Value(base, accepted)
      && shift ==
         (if base == 2 then 1 else if base == 8 then 3 else if base == 16 then 4 else if base == 64 then 6 else 0)
    }

    constructor ()
      ensures base == 0 && shift == 0 && accumulator == 0
    {
      base, shift, accumulator := 0, 0, 0;
      accepted := [];
    }

    method Init(n: u8) returns (status: Status)
      modifies this
      ensures if Supported(n) then status == RadixOk && Valid() && base == n && accumulator == 0 && accepted == []
              else status == InvalidBase && unchanged(this)
      ensures status == RadixOk <==> n in {2, 8, 10, 16, 58, 64}
      ensures status == InvalidBase <==> n !in {2, 8, 10, 16, 58, 64}
      ensures status == RadixOk ==>
        shift == (match n case 2 => 1 case 8 => 3 case 16 => 4 case 64 => 6 case _ => 0)
    {
      if !Supported(n) {
        return InvalidBase;
      }
      base, shift, accumulator := n, 0, 0;
      accepted := [];
      match n {
        case 2 => shift := 1;
        case 8 => shift := 3;
        case 16 => shift := 4;
        case 64 => shift := 6;
        case _ =>
      }
      return RadixOk;
    }

    // Shift-and-or on the fast path, multiply-add on the other; the two agree.
    method Inject(digit: u8) returns (status: Status)
      requires Supported(base) ==> Valid()
      modifies this
      ensures Supported(base) ==> Valid()
      ensures base == old(base) && shift == old(shift)
      ensures accepted == if status == RadixOk then old(accepted) + [digit] else old(accepted)
      ensures status == if Supported(base) then StatusOf(base, old(accumulator), digit) else InvalidBase
      ensures accumulator == if status == RadixOk then old(accumulator) * base + digit else old(accumulator)
      ensures status == InvalidBase <==> base !in {2, 8, 10, 16, 58, 64}
      ensures status == CharacterOutOfBounds <==> base in {2, 8, 10, 16, 58, 64} && digit >= base
      ensures status == Overflow <==>
        base in {2, 8, 10, 16, 58, 64} && digit < base && old(accumulator) * base + digit > 0xFFFF_FFFF
    {
      if !Supported(base) {
        return InvalidBase;
      }
      if digit >= base {
        return CharacterOutOfBounds;
      }
      var next: nat;
      if shift > 0 {
        ShiftIsBase(base, shift);
        OrIsPlus(accumulator, shift, digit);
        next := Or(accumulator * Pow2(shift), digit);
      } else {
        next := accumulator * base + digit;
      }
      if next > 0xFFFF_FFFF {
        return Overflow;
      }
      accumulator := next;
      accepted := accepted + [digit];
      assert accepted[..|accepted| - 1] == old(accepted);
      return RadixOk;
    }
  }

  lemma ShiftIsBase(base: nat, shift: nat)
    requires (base == 2 && shift == 1) || (base == 8 && shift == 3)
      || (base == 16 && shift == 4) || (base == 64 && shift == 6)
    ensures Pow2(shift) == base
  {
    assert Pow2(1) == 2 && Pow2(3) == 8 && Pow2(4) == 16 && Pow2(6) == 64;
  }

  // ---------- feeding whole digit lists ----------

  // The accumulator after feeding digits one at a time, until one is refused.
  function Feed(base: nat, digits: seq<nat>): (Status, nat) {
    if digits == [] then (RadixOk, 0)
    else
      var (status, acc) := Feed(base, digits[..|digits| - 1]);
      var d := digits[|digits| - 1];
      if status != RadixOk then (status, acc)
      else if StatusOf(base, acc, d) != RadixOk then (StatusOf(base, acc, d), acc)
      else (RadixOk, acc * base + d)
  }

  lemma Grows(x: nat, base: nat)
    requires base >= 1
    ensures x <= x * base
  {
  }

  // A digit list is accepted in full exactly when every digit is below the base and
  // the value fits 32 bits, and then the accumulator is the value.
  lemma {:induction false} FeedIff(base: nat, digits: seq<nat>)
    requires base >= 1
    ensures Feed(base, digits).0 == RadixOk <==> Feedable(base, digits)
    ensures Feedable(base, digits) ==> Feed(base, digits).1 == Value(base, digits)
  {
    if digits != [] {
      var before, d := digits[..|digits| - 1], digits[|digits| - 1];
      FeedIff(base, before);
      Grows(Value(base, before), base);
      assert forall i :: 0 <= i < |before| ==> before[i] == digits[i];
    }
  }

  lemma {:induction false} RefusalIsFinal(base: nat, digits: seq<nat>, k: nat)
    requires k <= |digits| && Feed(base, digits[..k]).0 != RadixOk
    ensures Feed(base, digits) == Feed(base, digits[..k])
  {
    if k < |digits| {
      var before := digits[..|digits| - 1];
      assert before[..k] == digits[..k];
      RefusalIsFinal(base, before, k);
    } else {
      assert digits[..k] == digits;
    }
  }

  // Injecting digits one at a time into a fresh model, until one is refused, is the
  // function Feed; so it succeeds exactly on the digit lists described above.
  method InjectAll(m: BaseMetricSeedModel, digits: seq<u8>) returns (status: Status)
    requires m.Valid() && m.accepted == []
    modifies m
    ensures m.Valid() && m.base == old(m.base)
    ensures (status, m.accumulator) == Feed(m.base, digits)
    ensures status == RadixOk <==>
      (forall i :: 0 <= i < |digits| ==> digits[i] < m.base) && Value(m.base, digits) <= 0xFFFF_FFFF
    ensures status == RadixOk ==> m.accumulator == Value(m.base, digits) && m.accepted == digits
  {
    status := RadixOk;
    FeedIff(m.base, digits);
    for i := 0 to |digits|
      invariant m.Valid() && m.base == old(m.base) && m.accepted == digits[..i]
      invariant Feed(m.base, digits[..i]) == (RadixOk, m.accumulator)
    {
      ghost var next := digits[..i + 1];
      assert next[..|next| - 1] == digits[..i];
      status := m.Inject(digits[i]);
      assert Feed(m.base, next) == (status, m.accumulator);
      if status != RadixOk {
        RefusalIsFinal(m.base, digits, i + 1);
        return;
      }
    }
    status := RadixOk;
    assert digits[..|digits|] == digits;
  }

  // Shortest digits of v, most significant first.
  function Digits(base: nat, v: nat): (digits: seq<nat>)
    requires base >= 2
    ensures forall i :: 0 <= i < |digits| ==> digits[i] < base
    decreases v
  {
    if v == 0 then []
    else
      Smaller(v, base);
      Digits(base, v / base) + [v % base]
  }

  lemma Smaller(v: nat, base: nat)
    requires base >= 2 && v > 0
    ensures v / base < v
  {
  }

  lemma Recompose(v: nat, base: nat)
    requires base >= 2
    ensures v / base * base + v % base == v
  {
  }

  lemma {:induction false} ValueOfDigits(base: nat, v: nat)
    requires base >= 2
    ensures Value(base, Digits(base, v)) == v
    decreases v
  {
    if v != 0 {
      Smaller(v, base);
      ValueOfDigits(base, v / base);
      var digits := Digits(base, v);
      assert digits[..|digits| - 1] == Digits(base, v / base);
      Recompose(v, base);
    }
  }

  // Every 32-bit value is restored from its own digits.
  lemma FeedRoundTrip(base: nat, v: nat)
    requires base >= 2 && v < TWO32
    ensures Feed(base, Digits(base, v)) == (RadixOk, v)
  {
    ValueOfDigits(base, v);
    FeedIff(base, Digits(base, v));
  }

  // Injecting the digits of a 32-bit value into a fresh model restores the value.
  method InjectDigits(m: BaseMetricSeedModel, v: u32) returns (status: Status)
    requires m.Valid() && m.accepted == []
    modifies m
    ensures m.Valid() && m.base == old(m.base)
    ensures status == RadixOk && m.accumulator == v && m.accepted == Digits(m.base, v)
  {
    FeedRoundTrip(m.base, v);
    FeedIff(m.base, Digits(m.base, v));
    var digits: seq<u8> := Digits(m.base, v);
    status := InjectAll(m, digits);
  }
}
