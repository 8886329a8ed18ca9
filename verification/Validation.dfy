// Contributions, and the structural law that authorises an equivalence between two
// of them (src/omnicron-coproduct-partition.c).
module Validation {
  import opened WordTypes
  import opened Board
  import opened Cons

  datatype Contribution = Contribution(
    sourceId: bv32,
    car: bv32,
    cdr: bv32,
    board: Board256,
    profile: bv16,
    scope: u8,
    kind: u8,
    digest: seq<u8>)

  datatype ContributionRef = ContributionRef(
    sourceId: bv32,
    car: bv32,
    cdr: bv32,
    profile: bv16,
    scope: u8,
    flags: u8,
    digest: seq<u8>)

  datatype Reason = NoReason | ResolvedMatch | ScopeMismatch | ScopeOutOfRange | ResolverMismatch | NoMatch

  datatype ValidationResult = ValidationResult(valid: bool, reason: Reason, left: bv32, right: bv32)

  // ---------- structural closure of a scope ----------

  const SECTOR_PREFIXES: seq<bv8> := [0x00, 0x20, 0x40, 0x60]
  const RELATION_WITNESS: bv8 := 0x1E

  function SegmentWitness(prefix: bv8): bv8 {
    prefix ^ (prefix ^ 0x1A) ^ (prefix ^ 0x1B) ^ (prefix ^ 0x1F)
  }

  predicate ScopeCloses(scope: u8) {
    scope < 4 && SegmentWitness(SECTOR_PREFIXES[scope]) == RELATION_WITNESS
  }

  lemma WitnessIsConstant(prefix: bv8)
    ensures SegmentWitness(prefix) == 0x1E
  {
  }

  // ---------- validation ----------

  function Validate(left: ContributionRef, right: ContributionRef): ValidationResult {
    Adjudicate(left, right, Resolve(left), Resolve(right))
  }

  function Resolve(c: ContributionRef): bv32 {
    Fold(c.car, c.cdr, c.profile)
  }

  // The tests in order; l and r are the resolved words, used only once the scopes
  // and the profiles agree.
  function Adjudicate(left: ContributionRef, right: ContributionRef, l: bv32, r: bv32): ValidationResult {
    if left.scope != right.scope then ValidationResult(false, ScopeMismatch, 0, 0)
    else if !ScopeCloses(left.scope) then ValidationResult(false, ScopeOutOfRange, 0, 0)
    else if left.profile != right.profile then ValidationResult(false, ResolverMismatch, 0, 0)
    else if l == r then ValidationResult(true, ResolvedMatch, l, r)
    else ValidationResult(false, NoMatch, l, r)
  }

  // The reference a caller forms for a stored contribution.
  function RefOf(c: Contribution): ContributionRef {
    ContributionRef(c.sourceId, c.car, c.cdr, c.profile, c.scope, 0, seq(32, _ => 0))
  }

  // What validation looks at: everything else about a contribution is provenance.
  datatype Key = Key(scope: u8, profile: bv16, resolved: bv32)

  function KeyOf(c: Contribution): Key {
    Key(c.scope, c.profile, Fold(c.car, c.cdr, c.profile))
  }

  ghost predicate Equivalent(c: Contribution, d: Contribution) {
    c.scope < 4 && KeyOf(c) == KeyOf(d)
  }

  lemma ScopeClosesIff(scope: u8)
    ensures ScopeCloses(scope) <==> scope < 4
  {
    if scope < 4 {
      WitnessIsConstant(SECTOR_PREFIXES[scope]);
    }
  }

  lemma ValidIffSameFold(left: ContributionRef, right: ContributionRef)
    ensures Validate(left, right).valid <==>
      left.scope == right.scope < 4 && left.profile == right.profile
      && Fold(left.car, left.cdr, left.profile) == Fold(right.car, right.cdr, left.profile)
  {
    ScopeClosesIff(left.scope);
  }

  // The change of car is the change of cdr rotated by two.
  predicate Compensated(car: bv32, cdr: bv32, car': bv32, cdr': bv32) {
    car ^ car' == Rotl32(cdr ^ cdr', 2)
  }

  lemma CompensatedIffSameFold(car: bv32, cdr: bv32, car': bv32, cdr': bv32, profile: bv16)
    ensures Compensated(car, cdr, car', cdr') <==> Fold(car, cdr, profile) == Fold(car', cdr', profile)
  {
    SameFoldIff(car, cdr, car', cdr', profile);
  }

  // Validation accepts exactly: one scope below four, one profile, and a
  // compensated change of car and cdr.
  lemma ValidIff(left: ContributionRef, right: ContributionRef)
    ensures Validate(left, right).valid <==>
      left.scope == right.scope < 4 && left.profile == right.profile
      && Compensated(left.car, left.cdr, right.car, right.cdr)
  {
    ValidIffSameFold(left, right);
    CompensatedIffSameFold(left.car, left.cdr, right.car, right.cdr, left.profile);
  }

  // A refusal names the first test that failed, in this order.
  lemma RefusalReason(left: ContributionRef, right: ContributionRef)
    ensures var r := Validate(left, right).reason;
      && (r == ScopeMismatch <==> left.scope != right.scope)
      && (r == ScopeOutOfRange <==> left.scope == right.scope >= 4)
      && (r == ResolverMismatch <==> left.scope == right.scope < 4 && left.profile != right.profile)
      && (r == ResolvedMatch <==> Validate(left, right).valid)
      && r != NoReason
      && (r != ResolvedMatch && r != NoMatch ==> Validate(left, right).left == 0 && Validate(left, right).right == 0)
  {
    ScopeClosesIff(left.scope);
  }

  lemma AdjudicationIsSymmetric(left: ContributionRef, right: ContributionRef, l: bv32, r: bv32)
    ensures var v := Adjudicate(left, right, l, r);
      Adjudicate(right, left, r, l) == ValidationResult(v.valid, v.reason, v.right, v.left)
  {
    if left.scope == right.scope {
      assert ScopeCloses(left.scope) == ScopeCloses(right.scope);
    }
  }

  // Exchanging the references exchanges the reported words and nothing else.
  lemma ValidationIsSymmetric(left: ContributionRef, right: ContributionRef)
    ensures var v := Validate(left, right);
      Validate(right, left) == ValidationResult(v.valid, v.reason, v.right, v.left)
  {
    AdjudicationIsSymmetric(left, right, Resolve(left), Resolve(right));
  }

  lemma ResolveRecovers(c: ContributionRef)
    ensures Recovers(Resolve(c), c)
  {
    RecoverCarUndoesFold(c.car, c.cdr, c.profile);
    RecoverCdrUndoesFold(c.car, c.cdr, c.profile);
  }

  // Whenever words were compared, each reported word gives its own reference back.
  lemma ReportedWordsRecover(left: ContributionRef, right: ContributionRef)
    requires Validate(left, right).reason == ResolvedMatch || Validate(left, right).reason == NoMatch
    ensures Recovers(Validate(left, right).left, left) && Recovers(Validate(left, right).right, right)
  {
    ResolveRecovers(left);
    ResolveRecovers(right);
    assert Validate(left, right).left == Resolve(left) && Validate(left, right).right == Resolve(right);
  }

  predicate Recovers(word: bv32, c: ContributionRef) {
    RecoverCar(word, c.cdr, c.profile) == c.car && RecoverCdr(c.car, word, c.profile) == c.cdr
  }

  // On stored contributions a valid witness is equality of keys.
  lemma WitnessIffEquivalent(c: Contribution, d: Contribution)
    ensures Validate(RefOf(c), RefOf(d)).valid <==> Equivalent(c, d)
  {
    ValidIffSameFold(RefOf(c), RefOf(d));
  }
}
