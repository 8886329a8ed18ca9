// The meaning of the coproduct blackboard of src/omnicron-coproduct-partition.c:
// the contributions stored so far and the unions accepted so far.  Every board,
// fiber and class is a function of these two lists; a run is a list of requests.
module Coproduct {
  import opened Board
  import UF = UnionFind
  import opened Validation

  const MAX_CONTRIBUTIONS: nat := 256
  const MAX_FIBER: nat := 8

  datatype Status = Ok | Capacity | InvalidIndex | NotValidated

  datatype State = State(stored: seq<Contribution>, merges: seq<(nat, nat)>)

  datatype Request =
    | Inject(contribution: Contribution)
    | Unite(left: nat, right: nat, validation: ValidationResult)

  const EMPTY: State := State([], [])

  // ---------- fibers ----------

  // The contributions that claim coordinate p, oldest first.
  function Claimants(stored: seq<Contribution>, p: nat): seq<nat>
    requires p < PLANE_SIZE
  {
    if stored == [] then []
    else
      var last := |stored| - 1;
      Claimants(stored[..last], p) + if Test(stored[last].board, p) then [last] else []
  }

  lemma ClaimantsAppend(stored: seq<Contribution>, c: Contribution, p: nat)
    requires p < PLANE_SIZE
    ensures Claimants(stored + [c], p) == Claimants(stored, p) + if Test(c.board, p) then [|stored|] else []
  {
    assert (stored + [c])[..|stored|] == stored;
  }

  // A fiber lists exactly the indices whose board has the bit, strictly increasing.
  lemma {:induction false} ClaimantsExact(stored: seq<Contribution>, p: nat)
    requires p < PLANE_SIZE
    ensures forall i: nat :: i in Claimants(stored, p) <==> i < |stored| && Test(stored[i].board, p)
    ensures forall j, k :: 0 <= j < k < |Claimants(stored, p)| ==> Claimants(stored, p)[j] < Claimants(stored, p)[k]
  {
    if stored != [] {
      var before := stored[..|stored| - 1];
      ClaimantsExact(before, p);
      assert forall j :: 0 <= j < |Claimants(before, p)| ==> Claimants(before, p)[j] in Claimants(before, p);
    }
  }

  // ---------- requests ----------

  ghost predicate Fits(stored: seq<Contribution>, c: Contribution) {
    && |stored| < MAX_CONTRIBUTIONS
    && forall p: nat :: p < PLANE_SIZE && Test(c.board, p) ==> |Claimants(stored, p)| < MAX_FIBER
  }

  ghost function StatusOf(s: State, r: Request): Status {
    match r
    case Inject(c) => if Fits(s.stored, c) then Ok else Capacity
    case Unite(left, right, validation) =>
      if !validation.valid then NotValidated
      else if left >= |s.stored| || right >= |s.stored| then InvalidIndex
      else Ok
  }

  // A refused request changes nothing.
  ghost function Step(s: State, r: Request): State {
    if StatusOf(s, r) != Ok then s
    else
      match r
      case Inject(c) => s.(stored := s.stored + [c])
      case Unite(left, right, _) => s.(merges := s.merges + [(left, right)])
  }

  ghost function Run(requests: seq<Request>): State {
    if requests == [] then EMPTY
    else Step(Run(requests[..|requests| - 1]), requests[|requests| - 1])
  }

  lemma RunAppend(requests: seq<Request>, r: Request)
    ensures Run(requests + [r]) == Step(Run(requests), r)
  {
    assert (requests + [r])[..|requests|] == requests;
  }

  // ---------- what every run keeps ----------

  ghost predicate Inv(s: State) {
    && |s.stored| <= MAX_CONTRIBUTIONS
    && UF.InRange(s.merges, |s.stored|)
    && forall p: nat :: p < PLANE_SIZE ==> |Claimants(s.stored, p)| <= MAX_FIBER
  }

  lemma StepKeepsInv(s: State, r: Request)
    requires Inv(s)
    ensures Inv(Step(s, r))
  {
    if r.Inject? {
      forall p: nat | p < PLANE_SIZE ensures |Claimants(Step(s, r).stored, p)| <= MAX_FIBER {
        ClaimantsAppend(s.stored, r.contribution, p);
      }
    }
  }

  lemma {:induction false} RunKeepsInv(requests: seq<Request>)
    ensures Inv(Run(requests))
    ensures |Run(requests).stored| <= 256
    ensures forall p: nat :: p < 256 ==> |Claimants(Run(requests).stored, p)| <= 8
  {
    if requests == [] {
      assert forall p: nat :: p < PLANE_SIZE ==> Claimants([], p) == [];
    } else {
      RunKeepsInv(requests[..|requests| - 1]);
      StepKeepsInv(Run(requests[..|requests| - 1]), requests[|requests| - 1]);
    }
  }

  // Contributions are append-only, and so are the accepted unions.
  lemma {:induction false} RunIsAppendOnly(requests: seq<Request>, more: seq<Request>)
    ensures Run(requests).stored <= Run(requests + more).stored
    ensures Run(requests).merges <= Run(requests + more).merges
    decreases more
  {
    if more == [] {
      assert requests + more == requests;
    } else {
      var shorter := more[..|more| - 1];
      RunIsAppendOnly(requests, shorter);
      assert requests + more == requests + shorter + [more[|more| - 1]];
      RunAppend(requests + shorter, more[|more| - 1]);
    }
  }

  // ---------- class soundness over whole runs ----------

  // Every union carries the witness that validation computes from the two
  // contributions it names.
  ghost predicate Witnessed(s: State, r: Request) {
    r.Unite? && r.left < |s.stored| && r.right < |s.stored| ==>
      r.validation == Validate(RefOf(s.stored[r.left]), RefOf(s.stored[r.right]))
  }

  ghost predicate WitnessedRun(requests: seq<Request>) {
    requests == []
    || (WitnessedRun(requests[..|requests| - 1])
        && Witnessed(Run(requests[..|requests| - 1]), requests[|requests| - 1]))
  }

  ghost predicate SoundMerges(s: State) {
    && UF.InRange(s.merges, |s.stored|)
    && forall e :: e in s.merges && e.0 != e.1 ==> Equivalent(s.stored[e.0], s.stored[e.1])
  }

  lemma {:induction false} WitnessedRunMergesSoundly(requests: seq<Request>)
    requires WitnessedRun(requests)
    ensures SoundMerges(Run(requests))
  {
    RunKeepsInv(requests);
    if requests != [] {
      var before, r := requests[..|requests| - 1], requests[|requests| - 1];
      WitnessedRunMergesSoundly(before);
      var s := Run(before);
      RunKeepsInv(before);
      if r.Unite? && StatusOf(s, r) == Ok {
        WitnessIffEquivalent(s.stored[r.left], s.stored[r.right]);
      }
    }
  }

  ghost predicate ClassesSound(s: State) {
    forall a: nat, b: nat :: a < |s.stored| && b < |s.stored| && a != b && UF.Connected(s.merges, a, b) ==>
      Equivalent(s.stored[a], s.stored[b])
  }

  // Every contribution on a path has the first one's key.
  lemma PathKeepsKey(s: State, p: seq<nat>)
    requires SoundMerges(s) && UF.Path(s.merges, p) && p[0] < |s.stored|
    ensures p[|p| - 1] < |s.stored| && KeyOf(s.stored[p[|p| - 1]]) == KeyOf(s.stored[p[0]])
  {
    var keys := seq(|s.stored|, i requires 0 <= i < |s.stored| => KeyOf(s.stored[i]));
    UF.ConstantOnPath(s.merges, keys, p);
  }

  // A path between different contributions uses a pair of different ones.
  lemma {:induction false} PathMoves(p: seq<nat>) returns (i: nat)
    requires |p| > 0 && p[0] != p[|p| - 1]
    ensures i + 1 < |p| && p[i] != p[i + 1]
  {
    if p[0] != p[1] {
      i := 0;
    } else {
      var j := PathMoves(p[1..]);
      i := j + 1;
    }
  }

  lemma ConnectedAreEquivalent(s: State, a: nat, b: nat)
    requires SoundMerges(s) && a < |s.stored| && b < |s.stored| && a != b
    requires UF.Connected(s.merges, a, b)
    ensures Equivalent(s.stored[a], s.stored[b])
  {
    var p :| UF.Path(s.merges, p) && p[0] == a && p[|p| - 1] == b;
    PathKeepsKey(s, p);
    var i := PathMoves(p);
    assert UF.Joined(s.merges, p[i], p[i + 1]);
    UF.PathPrefix(s.merges, p, i + 1);
    PathKeepsKey(s, p[..i + 1]);
  }

  // Main result: when each union's witness was computed from the two contributions
  // it names, everything in one class has one scope below four, one profile and
  // one resolved word - after any run, hence also after any continuation of it.
  lemma WitnessedRunClassesSound(requests: seq<Request>)
    requires WitnessedRun(requests)
    ensures ClassesSound(Run(requests))
  {
    var s := Run(requests);
    WitnessedRunMergesSoundly(requests);
    forall a: nat, b: nat | a < |s.stored| && b < |s.stored| && a != b && UF.Connected(s.merges, a, b)
      ensures Equivalent(s.stored[a], s.stored[b])
    {
      ConnectedAreEquivalent(s, a, b);
    }
  }

  // The code does not tie a witness to the indices it is used on.  Whatever the
  // witnesses were, the classes are sound exactly when every accepted union of two
  // different indices joined equivalent contributions ...
  lemma ClassesSoundIffMerges(s: State)
    requires Inv(s)
    ensures ClassesSound(s) <==> SoundMerges(s)
  {
    if SoundMerges(s) {
      forall a: nat, b: nat | a < |s.stored| && b < |s.stored| && a != b && UF.Connected(s.merges, a, b)
        ensures Equivalent(s.stored[a], s.stored[b])
      {
        ConnectedAreEquivalent(s, a, b);
      }
    }
    if ClassesSound(s) {
      forall e | e in s.merges && e.0 != e.1 ensures Equivalent(s.stored[e.0], s.stored[e.1]) {
        UF.ConnectedPair(s.merges, e.0, e.1);
      }
    }
  }

  // ... that is, when a caller validates the pair it is about to unite: before every
  // union that would be accepted, validation of the two stored contributions succeeds.
  ghost predicate Checked(s: State, r: Request) {
    r.Unite? && StatusOf(s, r) == Ok && r.left != r.right ==>
      Validate(RefOf(s.stored[r.left]), RefOf(s.stored[r.right])).valid
  }

  ghost predicate CheckedRun(requests: seq<Request>) {
    requests == []
    || (CheckedRun(requests[..|requests| - 1])
        && Checked(Run(requests[..|requests| - 1]), requests[|requests| - 1]))
  }

  lemma StepMergesSoundlyIff(s: State, r: Request)
    requires Inv(s)
    ensures SoundMerges(Step(s, r)) <==> SoundMerges(s) && Checked(s, r)
  {
    var t := Step(s, r);
    assert t.stored[..|s.stored|] == s.stored;
    if r.Unite? && StatusOf(s, r) == Ok {
      WitnessIffEquivalent(s.stored[r.left], s.stored[r.right]);
      assert t.merges[|s.merges|] == (r.left, r.right);
      assert forall e :: e in s.merges ==> e in t.merges;
    }
  }

  lemma {:induction false} ClassesSoundIff(requests: seq<Request>)
    ensures ClassesSound(Run(requests)) <==> CheckedRun(requests)
  {
    RunKeepsInv(requests);
    ClassesSoundIffMerges(Run(requests));
    if requests != [] {
      var before := requests[..|requests| - 1];
      RunKeepsInv(before);
      ClassesSoundIff(before);
      ClassesSoundIffMerges(Run(before));
      StepMergesSoundlyIff(Run(before), requests[|requests| - 1]);
    }
  }

  // A witness that validation computed from some two stored contributions
  ghost predicate Genuine(s: State, v: ValidationResult) {
    exists i: nat, j: nat :: i < |s.stored| && j < |s.stored| && v == Validate(RefOf(s.stored[i]), RefOf(s.stored[j]))
  }

  // The condition is needed: a genuine witness for one pair, used on another, takes
  // sound classes to unsound ones.
  lemma UnboundWitnessIsUnsound()
    ensures exists requests, left, right, v ::
      && Genuine(Run(requests), v) && ClassesSound(Run(requests))
      && !ClassesSound(Run(requests + [Unite(left, right, v)]))
  {
    var c := Contribution(0, 0, 0, CLEAR, 0, 0, 0, []);
    var d := c.(scope := 1);
    var requests := [Inject(c), Inject(d)];
    var v := Validate(RefOf(c), RefOf(c));
    WitnessIffEquivalent(c, c);
    WitnessIffEquivalent(c, d);
    TwoClearInjections(c, d);
    var s := Run(requests);
    assert s.stored[0] == c && s.stored[1] == d;
    assert Genuine(s, v);
    MisusedWitness(requests, Unite(0, 1, v));
  }

  // A union of sound classes that is accepted and not checked makes them unsound.
  lemma MisusedWitness(requests: seq<Request>, r: Request)
    requires SoundMerges(Run(requests)) && !Checked(Run(requests), r)
    ensures ClassesSound(Run(requests)) && !ClassesSound(Run(requests + [r]))
  {
    RunAppend(requests, r);
    RunKeepsInv(requests);
    RunKeepsInv(requests + [r]);
    ClassesSoundIffMerges(Run(requests));
    StepMergesSoundlyIff(Run(requests), r);
    ClassesSoundIffMerges(Run(requests + [r]));
  }

  lemma TwoClearInjections(c: Contribution, d: Contribution)
    requires c.board == d.board == CLEAR
    ensures Run([Inject(c), Inject(d)]) == State([c, d], [])
  {
    forall p: nat | p < PLANE_SIZE ensures !Test(CLEAR, p) {
      BoardOps(CLEAR, CLEAR, p);
    }
    RunAppend([], Inject(c));
    RunAppend([Inject(c)], Inject(d));
    assert [] + [Inject(c)] == [Inject(c)] && [Inject(c)] + [Inject(d)] == [Inject(c), Inject(d)];
  }
}
