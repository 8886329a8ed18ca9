// Whole-run laws of the coproduct blackboard: when injections succeed, why their
// order does not matter, and what is conserved.
module CoproductRuns {
  import opened Board
  import opened Validation
  import opened Coproduct
  import opened Counting
  import Popcount
  import Words
  import UF = UnionFind

  // ---------- when a list of injections succeeds in full ----------

  function Injections(cs: seq<Contribution>): (r: seq<Request>)
    ensures |r| == |cs|
  {
    seq(|cs|, i requires 0 <= i < |cs| => Inject(cs[i]))
  }

  // The i-th injection, made after all earlier ones, is accepted.
  ghost predicate InjectedAt(cs: seq<Contribution>, i: nat)
    requires i < |cs|
  {
    StatusOf(Run(Injections(cs[..i])), Inject(cs[i])) == Ok
  }

  ghost predicate AllInjected(cs: seq<Contribution>) {
    forall i :: 0 <= i < |cs| ==> InjectedAt(cs, i)
  }

  ghost predicate WithinCapacity(cs: seq<Contribution>) {
    && |cs| <= MAX_CONTRIBUTIONS
    && forall p: nat :: p < PLANE_SIZE ==> |Claimants(cs, p)| <= MAX_FIBER
  }

  lemma InjectOneMore(cs: seq<Contribution>, c: Contribution)
    ensures Run(Injections(cs + [c])) == Step(Run(Injections(cs)), Inject(c))
  {
    RunAppend(Injections(cs), Inject(c));
    assert Injections(cs + [c]) == Injections(cs) + [Inject(c)];
  }

  lemma {:induction false} InjectedAreStored(cs: seq<Contribution>)
    requires AllInjected(cs)
    ensures Run(Injections(cs)).stored == cs
  {
    if cs != [] {
      var before, c := cs[..|cs| - 1], cs[|cs| - 1];
      forall i | 0 <= i < |before| ensures InjectedAt(before, i) {
        assert before[..i] == cs[..i] && InjectedAt(cs, i);
      }
      InjectedAreStored(before);
      assert InjectedAt(cs, |before|);
      assert before + [c] == cs;
      InjectOneMore(before, c);
    }
  }

  lemma ShorterFits(before: seq<Contribution>, c: Contribution)
    requires WithinCapacity(before + [c])
    ensures WithinCapacity(before) && Fits(before, c)
  {
    forall p: nat | p < PLANE_SIZE
      ensures |Claimants(before, p)| <= MAX_FIBER
      ensures Test(c.board, p) ==> |Claimants(before, p)| < MAX_FIBER
    {
      LoadAppend(before, c, p);
    }
  }

  lemma {:induction false} CapacitySuffices(cs: seq<Contribution>)
    requires WithinCapacity(cs)
    ensures AllInjected(cs)
  {
    if cs != [] {
      var before, c := cs[..|cs| - 1], cs[|cs| - 1];
      assert cs == before + [c];
      ShorterFits(before, c);
      CapacitySuffices(before);
      InjectedAreStored(before);
      forall i | 0 <= i < |cs| ensures InjectedAt(cs, i) {
        if i < |before| {
          assert before[..i] == cs[..i] && InjectedAt(before, i);
        }
      }
    }
  }

  // Injecting a list from the empty blackboard succeeds in full exactly when it has
  // at most 256 members and no coordinate is claimed by more than eight of them.
  lemma InjectedIffWithinCapacity(cs: seq<Contribution>)
    ensures AllInjected(cs) <==> WithinCapacity(cs)
  {
    if AllInjected(cs) {
      InjectedAreStored(cs);
      RunKeepsInv(Injections(cs));
    }
    if WithinCapacity(cs) {
      CapacitySuffices(cs);
    }
  }

  // The indices of a list whose board has coordinate p
  ghost function ClaimedBy(cs: seq<Contribution>, p: nat): set<nat>
    requires p < PLANE_SIZE
  {
    set i: nat | i < |cs| && Test(cs[i].board, p)
  }

  lemma {:induction false} LoadIsClaimedBy(cs: seq<Contribution>, p: nat)
    requires p < PLANE_SIZE
    ensures |Claimants(cs, p)| == |ClaimedBy(cs, p)|
  {
    if cs != [] {
      var before, last := cs[..|cs| - 1], |cs| - 1;
      LoadIsClaimedBy(before, p);
      assert ClaimedBy(cs, p) == ClaimedBy(before, p) + if Test(cs[last].board, p) then {last} else {};
    }
  }

  // The same in numbers: at most 256 contributions, and for each of the 256
  // coordinates at most eight indices whose board has it.
  lemma InjectedIffCounted(cs: seq<Contribution>)
    ensures AllInjected(cs) <==>
      |cs| <= 256 && forall p: nat :: p < 256 ==> |ClaimedBy(cs, p)| <= 8
  {
    InjectedIffWithinCapacity(cs);
    forall p: nat | p < 256 ensures |Claimants(cs, p)| == |ClaimedBy(cs, p)| {
      LoadIsClaimedBy(cs, p);
    }
  }

  // ---------- order of injection ----------

  lemma LoadAppend(cs: seq<Contribution>, c: Contribution, p: nat)
    requires p < PLANE_SIZE
    ensures |Claimants(cs + [c], p)| == |Claimants(cs, p)| + if Test(c.board, p) then 1 else 0
  {
    ClaimantsAppend(cs, c, p);
  }

  ghost function ClaimTest(p: nat): Contribution -> bool
    requires p < PLANE_SIZE
  {
    (c: Contribution) => Test(c.board, p)
  }

  lemma {:induction false} LoadIsCount(cs: seq<Contribution>, p: nat)
    requires p < PLANE_SIZE
    ensures |Claimants(cs, p)| == CountIf(ClaimTest(p), cs)
  {
    if cs != [] {
      LoadIsCount(cs[..|cs| - 1], p);
    }
  }

  ghost predicate SameLoads(stored: seq<Contribution>, stored': seq<Contribution>) {
    forall p: nat :: p < PLANE_SIZE ==> |Claimants(stored, p)| == |Claimants(stored', p)|
  }

  lemma LoadsPermute(cs: seq<Contribution>, ds: seq<Contribution>)
    requires multiset(cs) == multiset(ds)
    ensures SameLoads(cs, ds)
  {
    forall p: nat | p < PLANE_SIZE ensures |Claimants(cs, p)| == |Claimants(ds, p)| {
      LoadIsCount(cs, p);
      LoadIsCount(ds, p);
      CountPermutes(ClaimTest(p), cs, ds);
    }
  }

  // Whether a list of injections succeeds in full does not depend on its order, and
  // then neither does the length of any fiber of the blackboard it leaves behind -
  // hence neither does occupancy nor conflict.
  lemma InjectionOrderIrrelevant(cs: seq<Contribution>, ds: seq<Contribution>)
    requires multiset(cs) == multiset(ds)
    ensures AllInjected(cs) <==> AllInjected(ds)
    ensures AllInjected(cs) ==> SameLoads(Run(Injections(cs)).stored, Run(Injections(ds)).stored)
  {
    LoadsPermute(cs, ds);
    assert |cs| == |multiset(cs)| == |multiset(ds)| == |ds|;
    InjectedIffWithinCapacity(cs);
    InjectedIffWithinCapacity(ds);
    if AllInjected(cs) {
      InjectedAreStored(cs);
      InjectedAreStored(ds);
    }
  }

  // Two injections in a row.
  ghost function Twice(s: State, c: Contribution, d: Contribution): State {
    Step(Step(s, Inject(c)), Inject(d))
  }

  // Each of the two would be accepted, but not both.
  ghost predicate Compete(stored: seq<Contribution>, c: Contribution, d: Contribution) {
    Fits(stored, c) && Fits(stored, d) && !Fits(stored + [c], d)
  }

  lemma CompetitionIsMutual(stored: seq<Contribution>, c: Contribution, d: Contribution)
    requires Compete(stored, c, d)
    ensures Compete(stored, d, c)
  {
    if Fits(stored + [d], c) {
      forall p: nat | p < PLANE_SIZE && Test(d.board, p) ensures |Claimants(stored + [c], p)| < MAX_FIBER {
        LoadAppend(stored, c, p);
        LoadAppend(stored, d, p);
      }
    }
  }

  // A refused contribution stays refused.
  lemma RefusedStaysRefused(stored: seq<Contribution>, c: Contribution, d: Contribution)
    requires !Fits(stored, d)
    ensures !Fits(stored + [c], d)
  {
    if Fits(stored + [c], d) {
      forall p: nat | p < PLANE_SIZE && Test(d.board, p) ensures |Claimants(stored, p)| < MAX_FIBER {
        LoadAppend(stored, c, p);
      }
    }
  }

  lemma OneMoreLoad(stored: seq<Contribution>, c: Contribution, d: Contribution)
    ensures SameLoads(stored + [c], stored + [d]) <==> Coordinates(c.board) == Coordinates(d.board)
  {
    forall p: nat | p < PLANE_SIZE
      ensures |Claimants(stored + [c], p)| == |Claimants(stored + [d], p)| <==> (Test(c.board, p) <==> Test(d.board, p))
    {
      LoadAppend(stored, c, p);
      LoadAppend(stored, d, p);
    }
    assert forall p: nat :: p < PLANE_SIZE ==> (p in Coordinates(c.board) <==> Test(c.board, p));
    assert forall p: nat :: p < PLANE_SIZE ==> (p in Coordinates(d.board) <==> Test(d.board, p));
  }

  // Exchanging two neighbouring injections is noticed in some fiber length exactly
  // when they compete for room and claim different coordinates.
  lemma ExchangeUnnoticedIff(s: State, c: Contribution, d: Contribution)
    ensures SameLoads(Twice(s, c, d).stored, Twice(s, d, c).stored) <==>
      !Compete(s.stored, c, d) || Coordinates(c.board) == Coordinates(d.board)
  {
    var both, other := s.stored + [c] + [d], s.stored + [d] + [c];
    if Compete(s.stored, c, d) {
      CompetitionIsMutual(s.stored, c, d);
      OneMoreLoad(s.stored, c, d);
    } else if Fits(s.stored, c) && Fits(s.stored, d) {
      if Compete(s.stored, d, c) {
        CompetitionIsMutual(s.stored, d, c);
      }
      LoadsPermute(both, other);
    } else {
      if !Fits(s.stored, d) {
        RefusedStaysRefused(s.stored, c, d);
      }
      if !Fits(s.stored, c) {
        RefusedStaysRefused(s.stored, d, c);
      }
    }
  }

  // Once an injection is refused the order does show: after eight claims of
  // coordinate 0, a contribution that claims 0 and 1 is refused; before the eighth
  // claim it is accepted.
  lemma RefusalDependsOnOrder()
    ensures exists cs, ds ::
      multiset(cs) == multiset(ds) && !SameLoads(Run(Injections(cs)).stored, Run(Injections(ds)).stored)
  {
    NestedBoards();
    var a := Contribution(0, 0, 0, [1, 0, 0, 0], 0, 0, 0, []);
    var b := a.(board := [3, 0, 0, 0]);
    OrderShows(seq(7, _ => a), a, b);
  }

  lemma OrderShows(seven: seq<Contribution>, a: Contribution, b: Contribution)
    requires |seven| == 7 && forall i :: 0 <= i < 7 ==> seven[i] == a
    requires Test(a.board, 0) && Test(b.board, 0) && Coordinates(a.board) != Coordinates(b.board)
    ensures exists cs, ds ::
      multiset(cs) == multiset(ds) && !SameLoads(Run(Injections(cs)).stored, Run(Injections(ds)).stored)
  {
    SevenThenTwo(seven, a, b);
    LastTwoExchanged(seven, a, b);
    OrderDiffers(seven + [a] + [b], seven + [b] + [a]);
  }

  lemma OrderDiffers(xs: seq<Contribution>, ys: seq<Contribution>)
    requires multiset(xs) == multiset(ys) && !SameLoads(Run(Injections(xs)).stored, Run(Injections(ys)).stored)
    ensures exists cs, ds ::
      multiset(cs) == multiset(ds) && !SameLoads(Run(Injections(cs)).stored, Run(Injections(ds)).stored)
  {
  }

  lemma LastTwoExchanged<T>(s: seq<T>, a: T, b: T)
    ensures multiset(s + [a] + [b]) == multiset(s + [b] + [a])
  {
  }

  lemma SevenThenTwo(seven: seq<Contribution>, a: Contribution, b: Contribution)
    requires |seven| == 7 && forall i :: 0 <= i < 7 ==> seven[i] == a
    requires Test(a.board, 0) && Test(b.board, 0) && Coordinates(a.board) != Coordinates(b.board)
    ensures !SameLoads(Run(Injections(seven + [a] + [b])).stored, Run(Injections(seven + [b] + [a])).stored)
  {
    SevenFit(seven, a);
    InjectedAreStored(seven);
    InjectOneMore(seven, a);
    InjectOneMore(seven + [a], b);
    InjectOneMore(seven, b);
    InjectOneMore(seven + [b], a);
    SevenCompete(seven, a, b);
    ExchangeUnnoticedIff(Run(Injections(seven)), a, b);
  }

  lemma SmallWords(k: nat)
    ensures Words.Bit(1, k) <==> k == 0
    ensures Words.Bit(3, k) <==> k <= 1
  {
    if k > 0 {
      Words.BitZero(k - 1);
    }
    if k > 1 {
      assert Words.Bit(3, k) == Words.Bit(1, k - 1) == Words.Bit(0, k - 2);
      Words.BitZero(k - 2);
    }
  }

  lemma NestedBoards()
    ensures Test([1, 0, 0, 0], 0) && Test([3, 0, 0, 0], 0)
    ensures Coordinates([1, 0, 0, 0]) != Coordinates([3, 0, 0, 0])
  {
    SmallWords(0);
    SmallWords(1);
    assert 1 in Coordinates([3, 0, 0, 0]) && 1 !in Coordinates([1, 0, 0, 0]);
  }

  // The load that n copies of one contribution put on a coordinate.
  lemma {:induction false} CopiesLoad(cs: seq<Contribution>, a: Contribution, p: nat)
    requires p < PLANE_SIZE && forall i :: 0 <= i < |cs| ==> cs[i] == a
    ensures |Claimants(cs, p)| == if Test(a.board, p) then |cs| else 0
  {
    if cs != [] {
      CopiesLoad(cs[..|cs| - 1], a, p);
    }
  }

  lemma SevenFit(seven: seq<Contribution>, a: Contribution)
    requires |seven| == 7 && forall i :: 0 <= i < 7 ==> seven[i] == a
    ensures AllInjected(seven)
  {
    forall p: nat | p < PLANE_SIZE ensures |Claimants(seven, p)| <= MAX_FIBER {
      CopiesLoad(seven, a, p);
    }
    CapacitySuffices(seven);
  }

  lemma SevenCompete(seven: seq<Contribution>, a: Contribution, b: Contribution)
    requires |seven| == 7 && forall i :: 0 <= i < 7 ==> seven[i] == a
    requires Test(a.board, 0) && Test(b.board, 0)
    ensures Compete(seven, a, b)
  {
    forall p: nat | p < PLANE_SIZE ensures |Claimants(seven, p)| < MAX_FIBER {
      CopiesLoad(seven, a, p);
    }
    CopiesLoad(seven, a, 0);
    LoadAppend(seven, a, 0);
  }

  // ---------- origins ----------

  ghost predicate Contested(stored: seq<Contribution>, p: nat)
    requires p < PLANE_SIZE
  {
    |Claimants(stored, p)| >= 2
  }

  ghost predicate TwoOrigins(stored: seq<Contribution>, p: nat)
    requires p < PLANE_SIZE
  {
    exists i: nat, j: nat :: i in Claimants(stored, p) && j in Claimants(stored, p)
      && i < |stored| && j < |stored| && stored[i].sourceId != stored[j].sourceId
  }

  ghost predicate OriginsDifferAt(stored: seq<Contribution>, p: nat)
    requires p < PLANE_SIZE
  {
    Contested(stored, p) ==> TwoOrigins(stored, p)
  }

  // The commented reading of the conflict board: a contested coordinate is claimed by
  // two different sources.
  ghost predicate OriginsDiffer(stored: seq<Contribution>) {
    forall p: nat :: p < PLANE_SIZE ==> OriginsDifferAt(stored, p)
  }

  // The reading fails: one contribution injected twice contests every coordinate it
  // claims, with a single source.
  lemma OneSourceConflicts(c: Contribution, p: nat)
    requires p < PLANE_SIZE && Test(c.board, p)
    ensures Run([Inject(c), Inject(c)]).stored == [c, c]
    ensures Contested([c, c], p) && !TwoOrigins([c, c], p)
  {
    forall q: nat | q < PLANE_SIZE ensures |Claimants([c, c], q)| <= MAX_FIBER {
      CopiesLoad([c, c], c, q);
    }
    CapacitySuffices([c, c]);
    InjectedAreStored([c, c]);
    assert Injections([c, c]) == [Inject(c), Inject(c)];
    CopiesLoad([c, c], c, p);
  }

  // What a caller would have to check: wherever the contribution meets exactly one
  // claimant, that claimant has another source.
  ghost predicate NewOriginAt(stored: seq<Contribution>, c: Contribution, p: nat)
    requires p < PLANE_SIZE
  {
    Test(c.board, p) && |Claimants(stored, p)| == 1 ==>
      forall i: nat :: i < |stored| && i in Claimants(stored, p) ==> stored[i].sourceId != c.sourceId
  }

  ghost predicate NewOrigin(s: State, r: Request) {
    r.Inject? && StatusOf(s, r) == Ok ==>
      forall p: nat :: p < PLANE_SIZE ==> NewOriginAt(s.stored, r.contribution, p)
  }

  ghost predicate NewOriginRun(requests: seq<Request>) {
    requests == []
    || (NewOriginRun(requests[..|requests| - 1])
        && NewOrigin(Run(requests[..|requests| - 1]), requests[|requests| - 1]))
  }

  lemma OriginStepAt(stored: seq<Contribution>, c: Contribution, p: nat)
    requires p < PLANE_SIZE && OriginsDifferAt(stored, p)
    ensures OriginsDifferAt(stored + [c], p) <==> NewOriginAt(stored, c, p)
  {
    var was, now, all := Claimants(stored, p), Claimants(stored + [c], p), stored + [c];
    ClaimantsAppend(stored, c, p);
    if |was| >= 2 {
      TwoOriginsStay(stored, c, p);
    } else if |was| == 1 && Test(c.board, p) {
      SecondClaim(stored, c, p);
    }
  }

  lemma TwoOriginsStay(stored: seq<Contribution>, c: Contribution, p: nat)
    requires p < PLANE_SIZE && TwoOrigins(stored, p)
    ensures TwoOrigins(stored + [c], p)
  {
    var was, now, all := Claimants(stored, p), Claimants(stored + [c], p), stored + [c];
    ClaimantsAppend(stored, c, p);
    var i: nat, j: nat :| i in was && j in was
      && i < |stored| && j < |stored| && stored[i].sourceId != stored[j].sourceId;
    assert i in now && j in now && all[i].sourceId != all[j].sourceId;
  }

  lemma SecondClaim(stored: seq<Contribution>, c: Contribution, p: nat)
    requires p < PLANE_SIZE && |Claimants(stored, p)| == 1 && Test(c.board, p)
    ensures TwoOrigins(stored + [c], p) <==> NewOriginAt(stored, c, p)
  {
    var i, k, all := Claimants(stored, p)[0], |stored|, stored + [c];
    ClaimantsExact(stored, p);
    ClaimantsAppend(stored, c, p);
    assert i in Claimants(stored, p);
    assert Claimants(all, p) == [i, k];
    assert all[i] == stored[i] && all[k] == c;
  }

  // Exactly when the commented reading holds after every request of a run.
  lemma {:induction false} OriginsDifferIff(requests: seq<Request>)
    ensures (forall n :: 0 <= n <= |requests| ==> OriginsDiffer(Run(requests[..n]).stored)) <==> NewOriginRun(requests)
  {
    if requests == [] {
      assert forall p: nat :: p < PLANE_SIZE ==> Claimants([], p) == [];
      assert requests[..0] == [];
    } else {
      var before, r := requests[..|requests| - 1], requests[|requests| - 1];
      OriginsDifferIff(before);
      assert forall n :: 0 <= n <= |before| ==> before[..n] == requests[..n];
      assert requests[..|requests|] == requests;
      if OriginsDiffer(Run(before).stored) {
        OriginStep(Run(before), r);
      }
    }
  }

  // Then contest and two origins are the same thing.
  lemma ContestedIffTwoOrigins(requests: seq<Request>, p: nat)
    requires NewOriginRun(requests) && p < PLANE_SIZE
    ensures Contested(Run(requests).stored, p) <==> TwoOrigins(Run(requests).stored, p)
  {
    var stored := Run(requests).stored;
    OriginsDifferIff(requests);
    assert requests[..|requests|] == requests;
    assert OriginsDifferAt(stored, p);
    if TwoOrigins(stored, p) {
      var i: nat, j: nat :| i in Claimants(stored, p) && j in Claimants(stored, p)
        && i < |stored| && j < |stored| && stored[i].sourceId != stored[j].sourceId;
      TwoMembers(Claimants(stored, p), i, j);
    }
  }

  lemma TwoMembers(s: seq<nat>, i: nat, j: nat)
    requires i in s && j in s && i != j
    ensures |s| >= 2
  {
    var m :| 0 <= m < |s| && s[m] == i;
    var n :| 0 <= n < |s| && s[n] == j;
    assert m != n;
  }

  lemma OriginStep(s: State, r: Request)
    requires OriginsDiffer(s.stored)
    ensures OriginsDiffer(Step(s, r).stored) <==> NewOrigin(s, r)
  {
    if r.Inject? && StatusOf(s, r) == Ok {
      forall p: nat | p < PLANE_SIZE
        ensures OriginsDifferAt(s.stored + [r.contribution], p) <==> NewOriginAt(s.stored, r.contribution, p)
      {
        OriginStepAt(s.stored, r.contribution, p);
      }
    }
  }

  // ---------- conservation ----------

  ghost function FiberTotal(stored: seq<Contribution>, n: nat): nat
    requires n <= PLANE_SIZE
  {
    if n == 0 then 0 else FiberTotal(stored, n - 1) + |Claimants(stored, n - 1)|
  }

  ghost function BoardTotal(stored: seq<Contribution>): nat {
    if stored == [] then 0
    else BoardTotal(stored[..|stored| - 1]) + |Coordinates(stored[|stored| - 1].board)|
  }

  // One more contribution adds its claims to the fibers below n.
  ghost predicate Tallied(all: seq<Contribution>, stored: seq<Contribution>, c: Contribution, n: nat)
    requires n <= PLANE_SIZE
  {
    FiberTotal(all, n) == FiberTotal(stored, n) + |Popcount.Claims(c.board, n)|
  }

  lemma TallyStep(all: seq<Contribution>, stored: seq<Contribution>, c: Contribution, k: nat)
    requires k < PLANE_SIZE && all == stored + [c] && Tallied(all, stored, c, k)
    ensures Tallied(all, stored, c, k + 1)
  {
    LoadAppend(stored, c, k);
    Popcount.ClaimsStep(c.board, k);
  }

  lemma TallyNone(all: seq<Contribution>, stored: seq<Contribution>, c: Contribution)
    ensures Tallied(all, stored, c, 0)
  {
    assert Popcount.Claims(c.board, 0) == {};
  }

  lemma FiberTotalAppend(all: seq<Contribution>, stored: seq<Contribution>, c: Contribution, n: nat)
    requires n <= PLANE_SIZE && all == stored + [c]
    ensures Tallied(all, stored, c, n)
  {
    TallyNone(all, stored, c);
    for k := 0 to n
      invariant Tallied(all, stored, c, k)
    {
      TallyStep(all, stored, c, k);
    }
  }

  lemma {:induction false} FiberTotalEmpty(n: nat)
    requires n <= PLANE_SIZE
    ensures FiberTotal([], n) == 0
  {
    if n > 0 {
      FiberTotalEmpty(n - 1);
    }
  }

  // Every claim of every stored board is recorded in exactly one fiber.
  lemma {:induction false} FibersConserveClaims(stored: seq<Contribution>)
    ensures FiberTotal(stored, PLANE_SIZE) == BoardTotal(stored)
  {
    if stored == [] {
      FiberTotalEmpty(PLANE_SIZE);
    } else {
      var before, c := stored[..|stored| - 1], stored[|stored| - 1];
      assert before + [c] == stored;
      FibersConserveClaims(before);
      FiberTotalAppend(stored, before, c, PLANE_SIZE);
      assert Popcount.Claims(c.board, PLANE_SIZE) == Coordinates(c.board);
    }
  }

  // Sum of the computed counts of all stored boards
  function CountTotal(stored: seq<Contribution>): nat {
    if stored == [] then 0
    else CountTotal(stored[..|stored| - 1]) + Popcount.SwarCount(stored[|stored| - 1].board)
  }

  lemma {:induction false} CountsAreClaims(stored: seq<Contribution>)
    ensures CountTotal(stored) == BoardTotal(stored)
  {
    if stored != [] {
      CountsAreClaims(stored[..|stored| - 1]);
      Popcount.SwarCountIsCardinality(stored[|stored| - 1].board);
    }
  }

  // In every run the number of roots is 256 less the unions that merged two
  // classes, and an index not yet injected is still a rank-0 class of its own.
  lemma RunConservesRoots(requests: seq<Request>)
    ensures var merges := Run(requests).merges;
      && UF.InRange(merges, 256)
      && |UF.Roots(UF.UniteAll(256, merges))| + UF.Mergers(merges) == 256
      && forall x: nat :: |Run(requests).stored| <= x < 256 ==>
           UF.UniteAll(256, merges).rank[x] == 0 && UF.ClassOf(UF.UniteAll(256, merges), x) == {x}
  {
    var s := Run(requests);
    RunKeepsInv(requests);
    UF.RootsAreConserved(MAX_CONTRIBUTIONS, s.merges);
    forall x: nat | |s.stored| <= x < MAX_CONTRIBUTIONS
      ensures UF.UniteAll(MAX_CONTRIBUTIONS, s.merges).rank[x] == 0
      ensures UF.ClassOf(UF.UniteAll(MAX_CONTRIBUTIONS, s.merges), x) == {x}
    {
      UF.UntouchedStaysSingleton(MAX_CONTRIBUTIONS, s.merges, x);
    }
  }
}
