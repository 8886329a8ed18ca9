// The coproduct blackboard of src/omnicron-coproduct-partition.c as it is stored:
// two summary boards, 256 fibers of depth eight, an append-only array of
// contributions, and a union-find.  Its meaning is a state of module Coproduct.
module Blackboard {
  import opened Board
  import opened Cons
  import opened Validation
  import opened Coproduct
  import Runs = CoproductRuns
  import Popcount
  import UF = UnionFind

  const NO_CONTRIBUTION := Contribution(0, 0, 0, CLEAR, 0, 0, 0, [])

  datatype Route = LocalCar | RemoteCdr

  datatype ConsResult = ConsResult(
    left: nat,
    right: nat,
    resolved: bv32,
    visible: bv8,
    overlap: Board256,
    conflict: bool,
    route: Route,
    selector: bv8)

  // Compress the low half of the resolved word to one byte, then pack two row bits
  // and one column bit into the selector; its top bit is the bus.
  function Selector(address: bv16): bv8 {
    var compressed := (((address >> 8) & 0xF0) | ((address >> 4) & 0x0F)) as bv8;
    (((compressed >> 6) & 0x03) << 1) | ((compressed >> 3) & 0x01)
  }

  function ReverseRoute(address: bv16): Route {
    if Selector(address) & 0x04 != 0 then RemoteCdr else LocalCar
  }

  // The composition of two contributions once their word, their overlap and the
  // conflict flag are known: projection to the plane and route of the low half.
  function Composed(left: nat, right: nat, resolved: bv32, overlap: Board256, conflict: bool): ConsResult {
    var address := (resolved & 0xFFFF) as bv16;
    ConsResult(left, right, resolved, (resolved & 0xFF) as bv8, overlap, conflict,
               ReverseRoute(address), Selector(address))
  }

  // Bits 15, 14 and 7 of the word are the selector, and bit 15 alone is the bus.
  lemma RouteReadsThreeBits(address: bv16)
    ensures Selector(address) == ((((address >> 14) & 3) << 1) | ((address >> 7) & 1)) as bv8
    ensures ReverseRoute(address) == RemoteCdr <==> address >= 0x8000
  {
  }

  // The projection is the word's low byte, bit 15 decides the bus, and bits 15, 14 and
  // 7 are the selector.
  predicate ReadsWord(c: ConsResult, resolved: bv32) {
    && c.resolved == resolved && c.visible as bv32 == resolved & 0xFF
    && (c.route == RemoteCdr <==> resolved & 0x8000 != 0)
    && c.selector as bv32 == (((resolved >> 14) & 3) << 1) | ((resolved >> 7) & 1)
  }

  lemma ComposedReads(left: nat, right: nat, resolved: bv32, overlap: Board256, conflict: bool)
    ensures ReadsWord(Composed(left, right, resolved, overlap, conflict), resolved)
  {
  }

  lemma OverlapIsShared(a: Board256, b: Board256)
    ensures Coordinates(And(a, b)) == Coordinates(a) * Coordinates(b)
    ensures |Coordinates(And(a, b))| > 0 <==> exists p: nat :: p in Coordinates(a) && p in Coordinates(b)
  {
    BoardsAreSets(a, b);
    var shared := Coordinates(And(a, b));
    assert forall p: nat :: p in shared <==> p in Coordinates(a) && p in Coordinates(b);
    if shared != {} {
      var p :| p in shared;
    }
  }

  class Blackboard {
    var occupancy: Board256
    var conflict: Board256
    const fiberCount: array<nat>
    const contributor: array2<nat>
    const contributions: array<Contribution>
    var contributionCount: nat
    const equivalence: UF.UnionFind
    ghost var history: seq<Request>

    // ---------- representation ----------

    ghost predicate Shaped()
      reads this
    {
      && fiberCount.Length == PLANE_SIZE
      && contributor.Length0 == PLANE_SIZE && contributor.Length1 == MAX_FIBER
      && contributions.Length == MAX_CONTRIBUTIONS
      && contributionCount <= MAX_CONTRIBUTIONS
      && equivalence.size == MAX_CONTRIBUTIONS
      && fiberCount != equivalence.parent && fiberCount != equivalence.rank
    }

    ghost function Stored(): seq<Contribution>
      requires Shaped()
      reads this, contributions
    {
      contributions[..contributionCount]
    }

    // Fiber p holds exactly this list.
    ghost predicate FiberHolds(p: nat, claimants: seq<nat>)
      requires Shaped() && p < PLANE_SIZE
      reads this, fiberCount, contributor
    {
      && fiberCount[p] == |claimants| <= MAX_FIBER
      && forall k :: 0 <= k < |claimants| ==> contributor[p, k] == claimants[k]
    }

    // Occupancy is "claimed", conflict is "claimed at least twice".
    ghost predicate BoardsAgree(p: nat, claimants: seq<nat>)
      requires p < PLANE_SIZE
      reads this
    {
      && (Test(occupancy, p) <==> |claimants| >= 1)
      && (Test(conflict, p) <==> |claimants| >= 2)
    }

    ghost function Meaning(): State
      requires Shaped()
      reads this, contributions, equivalence
    {
      State(Stored(), equivalence.accepted)
    }

    ghost predicate Indexed(stored: seq<Contribution>)
      requires Shaped()
      reads this, fiberCount, contributor
    {
      forall p: nat :: p < PLANE_SIZE ==>
        FiberHolds(p, Claimants(stored, p)) && BoardsAgree(p, Claimants(stored, p))
    }

    ghost predicate Valid()
      reads this, fiberCount, contributor, contributions, equivalence, equivalence.parent, equivalence.rank
    {
      && Shaped()
      && equivalence.Valid()
      && Meaning() == Run(history)
      && Indexed(Stored())
    }

    // ---------- init ----------

    constructor ()
      ensures Valid() && history == []
      ensures fresh(fiberCount) && fresh(contributor) && fresh(contributions)
      ensures fresh(equivalence) && fresh(equivalence.parent) && fresh(equivalence.rank)
    {
      occupancy, conflict := CLEAR, CLEAR;
      fiberCount := new nat[PLANE_SIZE](_ => 0);
      contributor := new nat[PLANE_SIZE, MAX_FIBER]((_, _) => 0);
      contributions := new Contribution[MAX_CONTRIBUTIONS](_ => NO_CONTRIBUTION);
      contributionCount := 0;
      equivalence := new UF.UnionFind(MAX_CONTRIBUTIONS);
      history := [];
      new;
      forall p: nat | p < PLANE_SIZE ensures BoardsAgree(p, []) {
        BoardOps(CLEAR, CLEAR, p);
      }
    }

    // ---------- inject ----------

    // Preflight: is there room in every fiber the board claims?
    method HasRoom(c: Contribution) returns (room: bool)
      requires Valid() && contributionCount < MAX_CONTRIBUTIONS
      ensures room <==> Fits(Stored(), c)
    {
      for p := 0 to PLANE_SIZE
        invariant forall q: nat :: q < p && Test(c.board, q) ==> |Claimants(Stored(), q)| < MAX_FIBER
      {
        assert FiberHolds(p, Claimants(Stored(), p));
        if Test(c.board, p) && fiberCount[p] >= MAX_FIBER {
          return false;
        }
      }
      return true;
    }

    // Commit: append the index to every fiber the board claims.
    method Claim(c: Contribution, index: nat, ghost stored: seq<Contribution>)
      requires Shaped() && index == |stored|
      requires forall p: nat :: p < PLANE_SIZE ==> FiberHolds(p, Claimants(stored, p))
      requires Fits(stored, c)
      modifies fiberCount, contributor
      ensures forall p: nat :: p < PLANE_SIZE ==> FiberHolds(p, Claimants(stored + [c], p))
    {
      for p := 0 to PLANE_SIZE
        invariant forall q: nat :: q < p ==> FiberHolds(q, Claimants(stored + [c], q))
        invariant forall q: nat :: p <= q < PLANE_SIZE ==> FiberHolds(q, Claimants(stored, q))
      {
        ClaimantsAppend(stored, c, p);
        assert FiberHolds(p, Claimants(stored, p));
        if Test(c.board, p) {
          contributor[p, fiberCount[p]] := index;
          fiberCount[p] := fiberCount[p] + 1;
        }
        assert FiberHolds(p, Claimants(stored + [c], p));
      }
    }

    // The new boards agree with the longer claimant lists.
    lemma BoardsStayExact(c: Contribution, occupied: Board256, contested: Board256, p: nat)
      requires Valid() && p < PLANE_SIZE
      requires contested == Or(conflict, And(occupancy, c.board)) && occupied == Or(occupancy, c.board)
      ensures Test(occupied, p) <==> |Claimants(Stored() + [c], p)| >= 1
      ensures Test(contested, p) <==> |Claimants(Stored() + [c], p)| >= 2
    {
      assert BoardsAgree(p, Claimants(Stored(), p));
      ClaimantsAppend(Stored(), c, p);
      BoardOps(occupancy, c.board, p);
      BoardOps(conflict, And(occupancy, c.board), p);
    }

    // The part of an injection that runs once the preflight has passed.
    method Commit(c: Contribution)
      requires Valid() && Fits(Stored(), c)
      modifies this, fiberCount, contributor, contributions
      ensures Valid() && history == old(history) + [Inject(c)]
      ensures Stored() == old(Stored()) + [c]
    {
      ghost var stored := Stored();
      RunAppend(history, Inject(c));
      var overlap := And(occupancy, c.board);
      var conflictNext, occupancyNext := Or(conflict, overlap), Or(occupancy, c.board);
      forall p: nat | p < PLANE_SIZE
        ensures Test(occupancyNext, p) <==> |Claimants(stored + [c], p)| >= 1
        ensures Test(conflictNext, p) <==> |Claimants(stored + [c], p)| >= 2
      {
        BoardsStayExact(c, occupancyNext, conflictNext, p);
      }
      contributions[contributionCount] := c;
      conflict, occupancy := conflictNext, occupancyNext;
      Claim(c, contributionCount, stored);
      contributionCount := contributionCount + 1;
      history := history + [Inject(c)];
      assert Stored() == stored + [c];
    }

    // Either the contribution is appended and indexed in full, or nothing changes.
    method InjectContribution(c: Contribution) returns (status: Status, index: nat)
      requires Valid()
      modifies this, fiberCount, contributor, contributions
      ensures Valid() && history == old(history) + [Inject(c)]
      ensures status == StatusOf(old(Meaning()), Inject(c))
      ensures status == Ok <==>
        |old(Stored())| < 256 && forall p: nat :: p < 256 && Test(c.board, p) ==> old(fiberCount[p]) < 8
      ensures status != Ok ==> status == Capacity
      ensures status == Ok ==> Stored() == old(Stored()) + [c] && index == |old(Stored())|
      ensures status != Ok ==>
        && unchanged(fiberCount) && unchanged(contributor) && unchanged(contributions)
        && contributionCount == old(contributionCount)
        && occupancy == old(occupancy) && conflict == old(conflict)
    {
      index := contributionCount;
      var room := contributionCount < MAX_CONTRIBUTIONS;
      if room {
        room := HasRoom(c);
      }
      if !room {
        Refuse(Inject(c));
        return Capacity, index;
      }
      Commit(c);
      return Ok, index;
    }

    // ---------- cons ----------

    // Compose left.car with right.cdr; the conflict flag says whether the two
    // boards share a coordinate.
    method ConsContributions(left: nat, right: nat, profile: bv16) returns (status: Status, result: ConsResult)
      requires Valid()
      ensures status == if left < |Stored()| && right < |Stored()| then Ok else InvalidIndex
      ensures status == Ok ==>
        var l, r := Stored()[left], Stored()[right];
        && result.left == left && result.right == right
        && ReadsWord(result, Fold(l.car, r.cdr, profile))
        && Coordinates(result.overlap) == Coordinates(l.board) * Coordinates(r.board)
        && (result.conflict <==> exists p: nat :: p in Coordinates(l.board) && p in Coordinates(r.board))
    {
      if left >= contributionCount || right >= contributionCount {
        return InvalidIndex, Composed(0, 0, 0, CLEAR, false);
      }
      var l, r := contributions[left], contributions[right];
      var overlap := And(l.board, r.board);
      OverlapIsShared(l.board, r.board);
      var shared := Popcount.Count(overlap);
      var resolved := Fold(l.car, r.cdr, profile);
      ComposedReads(left, right, resolved, overlap, shared > 0);
      return Ok, Composed(left, right, resolved, overlap, shared > 0);
    }

    // ---------- union ----------

    // Remembering a request touches no index.
    ghost method Record(r: Request)
      requires Shaped() && Indexed(Stored())
      modifies this`history
      ensures history == old(history) + [r] && Indexed(Stored())
    {
      history := history + [r];
    }

    // A refused request is remembered and changes nothing else.
    ghost method Refuse(r: Request)
      requires Valid() && StatusOf(Meaning(), r) != Ok
      modifies this`history
      ensures Valid() && history == old(history) + [r]
    {
      RunAppend(history, r);
      Record(r);
    }

    // The part of a union that runs once flag and indices have passed.
    method Merge(left: nat, right: nat, validation: ValidationResult) returns (ok: bool)
      requires Valid() && validation.valid && left < contributionCount && right < contributionCount
      modifies this`history, equivalence, equivalence.parent, equivalence.rank
      ensures Valid() && history == old(history) + [Unite(left, right, validation)]
      ensures ok && equivalence.accepted == old(equivalence.accepted) + [(left, right)]
      ensures UF.Joins(old(equivalence.Meaning()), equivalence.Meaning(), left, right)
    {
      RunAppend(history, Unite(left, right, validation));
      ok := equivalence.UnionValidated(left, right, validation.valid);
      Record(Unite(left, right, validation));
    }

    method UniteContributions(left: nat, right: nat, validation: ValidationResult) returns (status: Status)
      requires Valid()
      modifies this, equivalence, equivalence.parent, equivalence.rank
      ensures Valid() && history == old(history) + [Unite(left, right, validation)]
      ensures status == StatusOf(old(Meaning()), Unite(left, right, validation))
      ensures status == NotValidated <==> !validation.valid
      ensures status == InvalidIndex <==>
        validation.valid && (left >= |old(Stored())| || right >= |old(Stored())|)
      ensures status == Ok <==> validation.valid && left < |old(Stored())| && right < |old(Stored())|
      ensures status == Ok ==>
        && equivalence.accepted == old(equivalence.accepted) + [(left, right)]
        && UF.Joins(old(equivalence.Meaning()), equivalence.Meaning(), left, right)
      ensures status != Ok ==> equivalence.accepted == old(equivalence.accepted)
      ensures Stored() == old(Stored()) && occupancy == old(occupancy) && conflict == old(conflict)
      ensures status != Ok ==> unchanged(equivalence.parent) && unchanged(equivalence.rank)
    {
      if !validation.valid {
        Refuse(Unite(left, right, validation));
        return NotValidated;
      }
      if left >= contributionCount || right >= contributionCount {
        Refuse(Unite(left, right, validation));
        return InvalidIndex;
      }
      var ok := Merge(left, right, validation);
      return if ok then Ok else NotValidated;
    }

    // Comparing two finds decides the equivalence closure of the accepted unions.  The
    // finds compress paths; the blackboard means what it meant.
    method SameClass(a: nat, b: nat) returns (same: bool)
      requires Valid() && a < MAX_CONTRIBUTIONS && b < MAX_CONTRIBUTIONS
      modifies equivalence.parent
      ensures Valid() && Meaning() == old(Meaning())
      ensures same <==> UF.Connected(Meaning().merges, a, b)
      ensures same && a < b < |Stored()| && WitnessedRun(history) ==> Equivalent(Stored()[a], Stored()[b])
    {
      var rootA, _, _ := equivalence.Find(a);
      var rootB, _, _ := equivalence.Find(b);
      same := rootA == rootB;
      ghost var sound := WitnessedRun(history);
      if same && a < b < contributionCount && sound {
        OneClassOneKey(a, b);
      }
    }

    // What two finds decide, on a blackboard whose unions all carried witnesses
    // computed from the contributions they named.
    lemma OneClassOneKey(a: nat, b: nat)
      requires Valid() && WitnessedRun(history)
      requires a < |Stored()| && b < |Stored()| && a != b
      requires equivalence.Meaning().rep[a] == equivalence.Meaning().rep[b]
      ensures Equivalent(Stored()[a], Stored()[b])
    {
      UF.SameRepIffConnected(equivalence.size, equivalence.accepted, a, b);
      WitnessedRunClassesSound(history);
    }

    // ---------- agreement of the indexes ----------

    // A stored fiber against the stored contributions: its length, and its entries.
    lemma StoredFiberIsExact(p: nat)
      requires Valid() && p < 256
      ensures fiberCount[p] == |Runs.ClaimedBy(contributions[..contributionCount], p)| <= 8
      ensures forall j, k :: 0 <= j < k < fiberCount[p] ==> contributor[p, j] < contributor[p, k]
      ensures forall k :: 0 <= k < fiberCount[p] ==> contributor[p, k] in Runs.ClaimedBy(Stored(), p)
      ensures forall i :: i in Runs.ClaimedBy(Stored(), p) ==> InFiber(p, i)
    {
      var stored, claimants := Stored(), Claimants(Stored(), p);
      assert FiberHolds(p, claimants);
      ClaimantsExact(stored, p);
      Runs.LoadIsClaimedBy(stored, p);
      forall k | 0 <= k < fiberCount[p] ensures contributor[p, k] in Runs.ClaimedBy(stored, p) {
        assert claimants[k] in claimants;
      }
      forall i | i in Runs.ClaimedBy(stored, p) ensures InFiber(p, i) {
        assert i in claimants;
        var k :| 0 <= k < |claimants| && claimants[k] == i;
        assert contributor[p, k] == i;
      }
    }

    ghost predicate InFiber(p: nat, i: nat)
      requires Shaped() && p < 256 && fiberCount[p] <= 8
      reads this, fiberCount, contributor
    {
      exists k :: 0 <= k < fiberCount[p] && contributor[p, k] == i
    }

    // The stored boards against the stored fibers.
    lemma StoredBoardsAreExact(p: nat)
      requires Valid() && p < 256
      ensures Test(occupancy, p) <==> fiberCount[p] >= 1
      ensures Test(conflict, p) <==> fiberCount[p] >= 2
    {
      assert FiberHolds(p, Claimants(Stored(), p)) && BoardsAgree(p, Claimants(Stored(), p));
    }

    // ---------- conservation ----------

    // Sum of the first n fiber lengths as stored
    ghost function FiberSum(n: nat): nat
      requires Shaped() && n <= PLANE_SIZE
      reads this, fiberCount
    {
      if n == 0 then 0 else FiberSum(n - 1) + fiberCount[n - 1]
    }

    lemma {:induction false} FiberSumIsTotal(n: nat)
      requires Valid() && n <= PLANE_SIZE
      ensures FiberSum(n) == Runs.FiberTotal(Stored(), n)
    {
      if n > 0 {
        FiberSumIsTotal(n - 1);
        assert FiberHolds(n - 1, Claimants(Stored(), n - 1));
      }
    }

    // The stored fiber lengths add up to the computed counts of all stored boards.
    lemma StoredFibersConserveClaims()
      requires Valid()
      ensures FiberSum(PLANE_SIZE) == Runs.CountTotal(Stored())
    {
      FiberSumIsTotal(PLANE_SIZE);
      Runs.FibersConserveClaims(Stored());
      Runs.CountsAreClaims(Stored());
    }

    // The self-parented entries of the stored array, and the unions that merged two
    // classes, add up to 256; indices not yet injected are untouched.
    lemma StoredRootsAreConserved()
      requires Valid()
      ensures equivalence.parent.Length == equivalence.rank.Length == 256
      ensures |set i: nat | i < 256 && equivalence.parent[i] == i| + UF.Mergers(equivalence.accepted) == 256
      ensures forall x: nat :: contributionCount <= x < 256 ==>
        equivalence.parent[x] == x && equivalence.rank[x] == 0
    {
      var c, parent := equivalence.Meaning(), equivalence.parent;
      Runs.RunConservesRoots(history);
      forall i: nat | i < MAX_CONTRIBUTIONS ensures parent[i] == i <==> c.rep[i] == i {
        assert UF.LinkAgrees(parent[..], c, i);
      }
      assert (set i: nat | i < MAX_CONTRIBUTIONS && parent[i] == i) == UF.Roots(c);
      forall x: nat | contributionCount <= x < MAX_CONTRIBUTIONS ensures parent[x] == x && equivalence.rank[x] == 0 {
        assert x in UF.ClassOf(c, x);
        assert equivalence.rank[..][x] == c.rank[x];
      }
    }

    // The conflict board means "claimed by two different sources" when every accepted
    // injection met single claimants of other sources only.
    lemma ConflictIsTwoOrigins(p: nat)
      requires Valid() && Runs.NewOriginRun(history) && p < PLANE_SIZE
      ensures Test(conflict, p) <==> Runs.TwoOrigins(Stored(), p)
    {
      Runs.ContestedIffTwoOrigins(history, p);
      assert BoardsAgree(p, Claimants(Stored(), p));
    }
  }

  // Two blackboards that injected the same contributions in full, in any two orders,
  // have the same boards and the same fiber lengths.
  lemma OrderLeavesNoTrace(bb: Blackboard, bb': Blackboard, cs: seq<Contribution>, ds: seq<Contribution>, p: nat)
    requires bb.Valid() && bb'.Valid() && p < PLANE_SIZE
    requires bb.history == Runs.Injections(cs) && bb'.history == Runs.Injections(ds)
    requires multiset(cs) == multiset(ds) && Runs.AllInjected(cs)
    ensures Test(bb.occupancy, p) == Test(bb'.occupancy, p) && Test(bb.conflict, p) == Test(bb'.conflict, p)
    ensures bb.fiberCount[p] == bb'.fiberCount[p]
  {
    Runs.InjectionOrderIrrelevant(cs, ds);
    assert bb.FiberHolds(p, Claimants(bb.Stored(), p)) && bb.BoardsAgree(p, Claimants(bb.Stored(), p));
    assert bb'.FiberHolds(p, Claimants(bb'.Stored(), p)) && bb'.BoardsAgree(p, Claimants(bb'.Stored(), p));
  }
}
