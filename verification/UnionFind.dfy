// Validated union-find of src/omnicron-coproduct-partition.c, for any size.
// `Classes` is the meaning of the parent/rank arrays: which element represents
// each class, and the rank of every element.  Path compression changes the
// parent array only, so the meaning of a find is the identity.
module UnionFind {
  import opened Powers

  // ---------- meaning ----------

  datatype Classes = Classes(rep: seq<nat>, rank: seq<nat>)

  predicate InRange(pairs: seq<(nat, nat)>, n: nat) {
    forall i :: 0 <= i < |pairs| ==> pairs[i].0 < n && pairs[i].1 < n
  }

  ghost predicate Shaped(c: Classes) {
    && |c.rep| == |c.rank|
    && forall i :: 0 <= i < |c.rep| ==> c.rep[i] < |c.rep| && c.rep[c.rep[i]] == c.rep[i]
  }

  function Singletons(n: nat): Classes {
    Classes(seq(n, i => i), seq(n, _ => 0))
  }

  // Union by rank on representatives: the right root survives only when its
  // rank is larger; equal ranks keep the left root and raise it by one.
  function Unite(c: Classes, left: nat, right: nat): Classes
    requires Shaped(c) && left < |c.rep| && right < |c.rep|
  {
    var l, r := c.rep[left], c.rep[right];
    if l == r then c
    else if c.rank[l] < c.rank[r] then Classes(Redirect(c.rep, l, r), c.rank)
    else if c.rank[l] > c.rank[r] then Classes(Redirect(c.rep, r, l), c.rank)
    else Classes(Redirect(c.rep, r, l), c.rank[l := c.rank[l] + 1])
  }

  // What a union does to every element: the left root survives unless its rank is the
  // smaller one, the classes of the two roots follow the survivor, and only a tie raises
  // a rank - the left root's, by one.
  ghost predicate Joins(c: Classes, d: Classes, left: nat, right: nat) {
    && |d.rep| == |c.rep| == |d.rank| == |c.rank| && left < |c.rep| && right < |c.rep|
    && c.rep[left] < |c.rep| && c.rep[right] < |c.rep|
    && var l, r := c.rep[left], c.rep[right];
       var survivor := if c.rank[l] < c.rank[r] then r else l;
       && (forall x :: 0 <= x < |c.rep| ==>
            d.rep[x] == if c.rep[x] == l || c.rep[x] == r then survivor else c.rep[x])
       && (forall x :: 0 <= x < |c.rep| ==>
            d.rank[x] == if x == l != r && c.rank[l] == c.rank[r] then c.rank[x] + 1 else c.rank[x])
  }

  lemma UniteJoins(c: Classes, left: nat, right: nat)
    requires Shaped(c) && left < |c.rep| && right < |c.rep|
    ensures Joins(c, Unite(c, left, right), left, right)
  {
  }

  function Redirect(rep: seq<nat>, from: nat, to: nat): (s: seq<nat>)
    ensures |s| == |rep|
    ensures forall i :: 0 <= i < |rep| ==> s[i] == if rep[i] == from then to else rep[i]
  {
    seq(|rep|, i requires 0 <= i < |rep| => if rep[i] == from then to else rep[i])
  }

  ghost function UniteAll(n: nat, pairs: seq<(nat, nat)>): (c: Classes)
    requires InRange(pairs, n)
    ensures Shaped(c) && |c.rep| == n
  {
    if pairs == [] then Singletons(n)
    else
      var last := pairs[|pairs| - 1];
      Unite(UniteAll(n, pairs[..|pairs| - 1]), last.0, last.1)
  }

  lemma UniteAllAppend(n: nat, pairs: seq<(nat, nat)>, e: (nat, nat))
    requires InRange(pairs, n) && e.0 < n && e.1 < n
    ensures InRange(pairs + [e], n)
    ensures UniteAll(n, pairs + [e]) == Unite(UniteAll(n, pairs), e.0, e.1)
  {
    assert (pairs + [e])[..|pairs|] == pairs;
  }

  // ---------- ranks and class sizes ----------

  ghost function ClassOf(c: Classes, r: nat): set<nat> {
    set i | 0 <= i < |c.rep| && c.rep[i] == r
  }

  ghost predicate Heavy(c: Classes, r: nat)
    requires r < |c.rank|
  {
    Pow2(c.rank[r]) <= |ClassOf(c, r)|
  }

  ghost predicate Sound(c: Classes) {
    && Shaped(c)
    && (forall i :: 0 <= i < |c.rep| && c.rep[i] != i ==> c.rank[i] < c.rank[c.rep[i]])
    && (forall r :: 0 <= r < |c.rep| && c.rep[r] == r ==> Heavy(c, r))
  }

  lemma SingletonsAreSound(n: nat)
    ensures Sound(Singletons(n))
  {
    var c := Singletons(n);
    forall r | 0 <= r < n ensures Heavy(c, r) {
      assert r in ClassOf(c, r);
    }
  }

  // The class that survives is the disjoint union of the two that met.
  lemma MergedClass(c: Classes, d: Classes, lose: nat, keep: nat)
    requires Shaped(c) && lose < |c.rep| && keep < |c.rep| && lose != keep
    requires c.rep[keep] == keep
    requires d.rep == Redirect(c.rep, lose, keep)
    ensures |ClassOf(d, keep)| == |ClassOf(c, keep)| + |ClassOf(c, lose)|
    ensures forall r :: r != keep && r != lose ==> ClassOf(d, r) == ClassOf(c, r)
  {
    assert ClassOf(d, keep) == ClassOf(c, keep) + ClassOf(c, lose);
    assert ClassOf(c, keep) !! ClassOf(c, lose);
  }

  lemma UniteKeepsRankOrder(c: Classes, left: nat, right: nat)
    requires Sound(c) && left < |c.rep| && right < |c.rep|
    ensures var d := Unite(c, left, right);
      Shaped(d) && forall i :: 0 <= i < |d.rep| && d.rep[i] != i ==> d.rank[i] < d.rank[d.rep[i]]
  {
  }

  lemma UniteIsSound(c: Classes, left: nat, right: nat)
    requires Sound(c) && left < |c.rep| && right < |c.rep|
    ensures Sound(Unite(c, left, right))
  {
    UniteKeepsRankOrder(c, left, right);
    var l, r := c.rep[left], c.rep[right];
    if l != r {
      if c.rank[l] < c.rank[r] {
        SurvivorIsHeavy(c, Unite(c, left, right), l, r);
      } else {
        SurvivorIsHeavy(c, Unite(c, left, right), r, l);
      }
    }
  }

  // The survivor's class is large enough, and every other root keeps its own.
  lemma SurvivorIsHeavy(c: Classes, d: Classes, lose: nat, keep: nat)
    requires Sound(c) && lose < |c.rep| && keep < |c.rep| && lose != keep
    requires c.rep[keep] == keep && c.rep[lose] == lose && c.rank[lose] <= c.rank[keep]
    requires d.rep == Redirect(c.rep, lose, keep)
    requires d.rank == if c.rank[lose] < c.rank[keep] then c.rank else c.rank[keep := c.rank[keep] + 1]
    ensures forall r :: 0 <= r < |d.rep| && d.rep[r] == r ==> Heavy(d, r)
  {
    MergedClass(c, d, lose, keep);
    assert Heavy(c, keep) && Heavy(c, lose);
    forall i | 0 <= i < |d.rep| && d.rep[i] == i ensures Heavy(d, i) {
      if i != keep {
        assert c.rep[i] == i && Heavy(c, i);
      }
    }
  }

  // Every state reached by unions from the initial one is sound.
  lemma {:induction false} UniteAllIsSound(n: nat, pairs: seq<(nat, nat)>)
    requires InRange(pairs, n)
    ensures Sound(UniteAll(n, pairs))
  {
    if pairs == [] {
      SingletonsAreSound(n);
    } else {
      var before, last := pairs[..|pairs| - 1], pairs[|pairs| - 1];
      UniteAllIsSound(n, before);
      UniteIsSound(UniteAll(n, before), last.0, last.1);
    }
  }

  // 2^rank never exceeds the number of elements, so rank <= log2(size); with the
  // blackboard's 256 elements rank stays at or below 8 and `rank++` cannot wrap.
  lemma RankIsLogarithmic(n: nat, pairs: seq<(nat, nat)>, x: nat)
    requires InRange(pairs, n) && x < n
    ensures Pow2(UniteAll(n, pairs).rank[x]) <= n
    ensures n <= 256 ==> UniteAll(n, pairs).rank[x] <= 8
  {
    var c := UniteAll(n, pairs);
    var r := c.rep[x];
    UniteAllIsSound(n, pairs);
    assert Heavy(c, r);
    Subrange(ClassOf(c, r), n);
    Pow2Monotone(c.rank[x], c.rank[r]);
    if c.rank[x] > 8 {
      Pow2Monotone(9, c.rank[x]);
      assert Pow2(9) == 512;
    }
  }

  lemma {:induction false} Subrange(s: set<nat>, n: nat)
    requires forall x :: x in s ==> x < n
    ensures |s| <= n
  {
    if n > 0 {
      Subrange(s - {n - 1}, n - 1);
    }
  }

  // ---------- equivalence closure ----------

  predicate Joined(pairs: seq<(nat, nat)>, x: nat, y: nat) {
    (x, y) in pairs || (y, x) in pairs
  }

  ghost predicate Path(pairs: seq<(nat, nat)>, p: seq<nat>) {
    |p| > 0 && forall i :: 0 <= i < |p| - 1 ==> Joined(pairs, p[i], p[i + 1])
  }

  // Reflexive-symmetric-transitive closure of the accepted pairs.
  ghost predicate Connected(pairs: seq<(nat, nat)>, a: nat, b: nat) {
    exists p :: Path(pairs, p) && p[0] == a && p[|p| - 1] == b
  }

  lemma ConnectedRefl(pairs: seq<(nat, nat)>, a: nat)
    ensures Connected(pairs, a, a)
  {
    assert Path(pairs, [a]);
  }

  lemma ConnectedPair(pairs: seq<(nat, nat)>, a: nat, b: nat)
    requires Joined(pairs, a, b)
    ensures Connected(pairs, a, b)
  {
    var p := [a, b];
    assert Path(pairs, p) && p[0] == a && p[|p| - 1] == b;
  }

  lemma PathPrefix(pairs: seq<(nat, nat)>, p: seq<nat>, n: nat)
    requires Path(pairs, p) && 0 < n <= |p|
    ensures Path(pairs, p[..n])
  {
  }

  lemma ConnectedTrans(pairs: seq<(nat, nat)>, a: nat, b: nat, c: nat)
    requires Connected(pairs, a, b) && Connected(pairs, b, c)
    ensures Connected(pairs, a, c)
  {
    var p :| Path(pairs, p) && p[0] == a && p[|p| - 1] == b;
    var q :| Path(pairs, q) && q[0] == b && q[|q| - 1] == c;
    var pq := p + q[1..];
    forall i | 0 <= i < |pq| - 1 ensures Joined(pairs, pq[i], pq[i + 1]) {
      if i >= |p| - 1 {
        assert pq[i] == q[i - (|p| - 1)] && pq[i + 1] == q[i - (|p| - 1) + 1];
      }
    }
    assert Path(pairs, pq) && pq[0] == a && pq[|pq| - 1] == c;
  }

  lemma ConnectedSym(pairs: seq<(nat, nat)>, a: nat, b: nat)
    requires Connected(pairs, a, b)
    ensures Connected(pairs, b, a)
  {
    var p :| Path(pairs, p) && p[0] == a && p[|p| - 1] == b;
    var q := seq(|p|, i requires 0 <= i < |p| => p[|p| - 1 - i]);
    forall i | 0 <= i < |q| - 1 ensures Joined(pairs, q[i], q[i + 1]) {
      assert Joined(pairs, p[|p| - 2 - i], p[|p| - 2 - i + 1]);
    }
    assert Path(pairs, q) && q[0] == b && q[|q| - 1] == a;
  }

  lemma ConnectedGrows(pairs: seq<(nat, nat)>, e: (nat, nat), a: nat, b: nat)
    requires Connected(pairs, a, b)
    ensures Connected(pairs + [e], a, b)
  {
    var p :| Path(pairs, p) && p[0] == a && p[|p| - 1] == b;
    assert forall x, y :: Joined(pairs, x, y) ==> Joined(pairs + [e], x, y);
    assert Path(pairs + [e], p);
  }

  // A labelling that agrees across every joined pair agrees along every path.
  lemma {:induction false} ConstantOnPath<T>(pairs: seq<(nat, nat)>, mark: seq<T>, p: seq<nat>)
    requires InRange(pairs, |mark|) && Path(pairs, p) && p[0] < |mark|
    requires forall e :: e in pairs ==> e.0 < |mark| && e.1 < |mark| && mark[e.0] == mark[e.1]
    ensures p[|p| - 1] < |mark| && mark[p[|p| - 1]] == mark[p[0]]
  {
    if |p| > 1 {
      assert Joined(pairs, p[0], p[1]);
      forall i | 0 <= i < |p[1..]| - 1 ensures Joined(pairs, p[1..][i], p[1..][i + 1]) {
        assert Joined(pairs, p[i + 1], p[i + 1 + 1]);
      }
      ConstantOnPath(pairs, mark, p[1..]);
    }
  }

  // Main result: after any list of accepted pairs, two elements have the same
  // representative exactly when the pairs connect them.
  lemma {:induction false} SameRepIffConnected(n: nat, pairs: seq<(nat, nat)>, a: nat, b: nat)
    requires InRange(pairs, n) && a < n && b < n
    ensures UniteAll(n, pairs).rep[a] == UniteAll(n, pairs).rep[b] <==> Connected(pairs, a, b)
  {
    if Connected(pairs, a, b) {
      var p :| Path(pairs, p) && p[0] == a && p[|p| - 1] == b;
      forall e | e in pairs ensures e.0 < n && e.1 < n && UniteAll(n, pairs).rep[e.0] == UniteAll(n, pairs).rep[e.1] {
        AcceptedPairsShareRep(n, pairs, e);
      }
      ConstantOnPath(pairs, UniteAll(n, pairs).rep, p);
    }
    if UniteAll(n, pairs).rep[a] == UniteAll(n, pairs).rep[b] {
      RepIsConnected(n, pairs, a);
      RepIsConnected(n, pairs, b);
      ConnectedSym(pairs, b, UniteAll(n, pairs).rep[b]);
      ConnectedTrans(pairs, a, UniteAll(n, pairs).rep[a], b);
    }
  }

  lemma UniteKeepsTogether(c: Classes, left: nat, right: nat, x: nat, y: nat)
    requires Shaped(c) && left < |c.rep| && right < |c.rep| && x < |c.rep| && y < |c.rep|
    ensures c.rep[x] == c.rep[y] ==> Unite(c, left, right).rep[x] == Unite(c, left, right).rep[y]
    ensures Unite(c, left, right).rep[left] == Unite(c, left, right).rep[right]
  {
  }

  lemma {:induction false} AcceptedPairsShareRep(n: nat, pairs: seq<(nat, nat)>, e: (nat, nat))
    requires InRange(pairs, n) && e in pairs
    ensures e.0 < n && e.1 < n && UniteAll(n, pairs).rep[e.0] == UniteAll(n, pairs).rep[e.1]
  {
    var before, last := pairs[..|pairs| - 1], pairs[|pairs| - 1];
    if e in before {
      AcceptedPairsShareRep(n, before, e);
    }
    UniteKeepsTogether(UniteAll(n, before), last.0, last.1, e.0, e.1);
  }

  // Joining e.0 and e.1 connects anything connected to either of them.
  lemma ConnectedThrough(pairs: seq<(nat, nat)>, e: (nat, nat), l: nat, r: nat)
    requires Connected(pairs, e.0, l) && Connected(pairs, e.1, r)
    ensures Connected(pairs + [e], l, r)
  {
    ConnectedGrows(pairs, e, e.0, l);
    ConnectedGrows(pairs, e, e.1, r);
    ConnectedSym(pairs + [e], e.0, l);
    ConnectedPair(pairs + [e], e.0, e.1);
    ConnectedTrans(pairs + [e], l, e.0, e.1);
    ConnectedTrans(pairs + [e], l, e.1, r);
  }

  lemma {:induction false} RepIsConnected(n: nat, pairs: seq<(nat, nat)>, x: nat)
    requires InRange(pairs, n) && x < n
    ensures Connected(pairs, x, UniteAll(n, pairs).rep[x])
  {
    if pairs == [] {
      ConnectedRefl(pairs, x);
    } else {
      var before, e := pairs[..|pairs| - 1], pairs[|pairs| - 1];
      assert pairs == before + [e];
      var c := UniteAll(n, before);
      RepIsConnected(n, before, x);
      ConnectedGrows(before, e, x, c.rep[x]);
      var y := UniteAll(n, pairs).rep[x];
      if y != c.rep[x] {
        RepIsConnected(n, before, e.0);
        RepIsConnected(n, before, e.1);
        ConnectedThrough(before, e, c.rep[e.0], c.rep[e.1]);
        ConnectedSym(pairs, c.rep[e.0], c.rep[e.1]);
        ConnectedTrans(pairs, x, c.rep[x], y);
      }
    }
  }

  // ---------- conservation of roots ----------

  ghost function Roots(c: Classes): set<nat> {
    set i | 0 <= i < |c.rep| && c.rep[i] == i
  }

  // Number of accepted pairs that joined two classes not connected before.
  ghost function Mergers(pairs: seq<(nat, nat)>): nat {
    if pairs == [] then 0
    else
      var before, e := pairs[..|pairs| - 1], pairs[|pairs| - 1];
      Mergers(before) + if Connected(before, e.0, e.1) then 0 else 1
  }

  lemma UniteRoots(c: Classes, left: nat, right: nat)
    requires Shaped(c) && left < |c.rep| && right < |c.rep|
    ensures |Roots(Unite(c, left, right))| == |Roots(c)| - if c.rep[left] == c.rep[right] then 0 else 1
  {
    var l, r := c.rep[left], c.rep[right];
    if l != r {
      var lose := if c.rank[l] < c.rank[r] then l else r;
      assert Roots(Unite(c, left, right)) == Roots(c) - {lose} && lose in Roots(c);
    }
  }

  lemma {:induction false} RootsAreConserved(n: nat, pairs: seq<(nat, nat)>)
    requires InRange(pairs, n)
    ensures |Roots(UniteAll(n, pairs))| + Mergers(pairs) == n
  {
    if pairs == [] {
      assert Roots(Singletons(n)) == Upto(n);
    } else {
      var before, e := pairs[..|pairs| - 1], pairs[|pairs| - 1];
      RootsAreConserved(n, before);
      SameRepIffConnected(n, before, e.0, e.1);
      UniteRoots(UniteAll(n, before), e.0, e.1);
    }
  }

  function Upto(n: nat): (s: set<nat>)
    ensures |s| == n && forall x: nat :: x in s <==> x < n
  {
    if n == 0 then {} else Upto(n - 1) + {n - 1}
  }

  // An element that no accepted pair mentions is still a rank-0 class of its own.
  lemma {:induction false} UntouchedStaysSingleton(n: nat, pairs: seq<(nat, nat)>, x: nat)
    requires InRange(pairs, n) && x < n
    requires forall e :: e in pairs ==> e.0 != x && e.1 != x
    ensures UniteAll(n, pairs).rank[x] == 0 && ClassOf(UniteAll(n, pairs), x) == {x}
  {
    if pairs != [] {
      var before, e := pairs[..|pairs| - 1], pairs[|pairs| - 1];
      UntouchedStaysSingleton(n, before, x);
      var c := UniteAll(n, before);
      assert x in ClassOf(c, x);
      assert e in pairs;
      assert e.0 !in ClassOf(c, x) && e.1 !in ClassOf(c, x);
      assert ClassOf(UniteAll(n, pairs), x) == ClassOf(c, x);
    }
  }

  // ---------- the arrays ----------

  // The k-th element reached by following parent links from x.
  ghost function Climb(parent: seq<nat>, x: nat, k: nat): nat {
    if k == 0 then x
    else
      var y := Climb(parent, x, k - 1);
      if y < |parent| then parent[y] else y
  }

  ghost predicate Avoids(parent: seq<nat>, x: nat, k: nat, root: nat) {
    forall j :: 0 <= j < k ==> Climb(parent, x, j) != root
  }

  // The parent array after the first k elements of x's climb point at root.
  ghost function Relink(parent: seq<nat>, x: nat, k: nat, root: nat): (s: seq<nat>)
    ensures |s| == |parent|
  {
    if k == 0 then parent
    else
      var y, before := Climb(parent, x, k - 1), Relink(parent, x, k - 1, root);
      if y < |parent| then before[y := root] else before
  }

  // A link stays inside its class, a root is its own representative, and rank
  // strictly increases along every other link.
  ghost predicate LinkAgrees(parent: seq<nat>, c: Classes, i: nat) {
    && |parent| == |c.rep| == |c.rank|
    && i < |parent| && parent[i] < |parent|
    && (parent[i] == i <==> c.rep[i] == i)
    && c.rep[parent[i]] == c.rep[i]
    && (parent[i] != i ==> c.rank[i] < c.rank[parent[i]])
  }

  ghost predicate Represents(parent: seq<nat>, c: Classes) {
    && |parent| == |c.rep| == |c.rank|
    && forall i :: 0 <= i < |parent| ==> LinkAgrees(parent, c, i)
  }

  // Compression touches climbed elements only, keeps the meaning, and has not yet
  // touched the element it is about to redirect.
  lemma {:induction false} RelinkKeepsMeaning(parent: seq<nat>, c: Classes, x: nat, k: nat)
    requires Represents(parent, c) && Sound(c) && x < |parent| && Avoids(parent, x, k, c.rep[x])
    ensures Represents(Relink(parent, x, k, c.rep[x]), c)
    ensures Climb(parent, x, k) < |parent| && c.rep[Climb(parent, x, k)] == c.rep[x]
    ensures forall i :: 0 <= i < |parent| && c.rank[i] >= c.rank[Climb(parent, x, k)] ==>
      Relink(parent, x, k, c.rep[x])[i] == parent[i]
  {
    if k > 0 {
      RelinkKeepsMeaning(parent, c, x, k - 1);
      var y, p, q := Climb(parent, x, k - 1), Relink(parent, x, k - 1, c.rep[x]), Relink(parent, x, k, c.rep[x]);
      assert LinkAgrees(parent, c, y);
      forall i | 0 <= i < |q| ensures LinkAgrees(q, c, i) {
        assert LinkAgrees(p, c, i);
      }
    }
  }

  // Once the next link already ends at the root, the remaining climb has at most
  // one element and redirecting it changes nothing.
  lemma LastLinkIsDirect(parent: seq<nat>, c: Classes, x: nat, k: nat, climbed: nat)
    requires Represents(parent, c) && Sound(c) && x < |parent| && Avoids(parent, x, climbed, c.rep[x])
    requires k <= climbed && Climb(parent, x, climbed) == Climb(parent, x, k + 1) == c.rep[x]
    ensures Relink(parent, x, climbed, c.rep[x]) == Relink(parent, x, k, c.rep[x])
  {
    if k < climbed {
      RelinkKeepsMeaning(parent, c, x, k);
      assert k + 1 == climbed;
    }
  }

  // Compression flattens the climb: every climbed element, and no other element,
  // is redirected straight to the root.
  lemma {:induction false} RelinkFlattens(parent: seq<nat>, x: nat, k: nat, root: nat, i: nat)
    requires i < |parent|
    ensures Relink(parent, x, k, root)[i] ==
      if exists j :: 0 <= j < k && Climb(parent, x, j) == i then root else parent[i]
  {
    if k > 0 {
      RelinkFlattens(parent, x, k - 1, root, i);
      if Climb(parent, x, k - 1) == i {
        assert exists j :: 0 <= j < k && Climb(parent, x, j) == i;
      } else if exists j :: 0 <= j < k && Climb(parent, x, j) == i {
        var j :| 0 <= j < k && Climb(parent, x, j) == i;
        assert 0 <= j < k - 1;
      }
    }
  }

  // Hanging the losing root under the surviving one represents the union.
  lemma LinkRepresents(parent: seq<nat>, c: Classes, left: nat, right: nat)
    requires Represents(parent, c) && Sound(c) && left < |parent| && right < |parent|
    requires c.rep[left] != c.rep[right]
    ensures var l, r := c.rep[left], c.rep[right];
      Represents(if c.rank[l] < c.rank[r] then parent[l := r] else parent[r := l], Unite(c, left, right))
  {
    var l, r := c.rep[left], c.rep[right];
    var linked, d := if c.rank[l] < c.rank[r] then parent[l := r] else parent[r := l], Unite(c, left, right);
    forall i | 0 <= i < |linked| ensures LinkAgrees(linked, d, i) {
      assert LinkAgrees(parent, c, i) && LinkAgrees(parent, c, l) && LinkAgrees(parent, c, r);
    }
  }

  class UnionFind {
    const parent: array<nat>
    const rank: array<nat>
    const size: nat
    ghost var accepted: seq<(nat, nat)>

    ghost function Meaning(): Classes
      requires InRange(accepted, size)
      reads this
    {
      UniteAll(size, accepted)
    }

    // The arrays represent the classes c.
    ghost predicate Holds(c: Classes)
      reads this, parent, rank
    {
      && parent != rank
      && parent.Length == rank.Length == size == |c.rep|
      && rank[..] == c.rank
      && Sound(c)
      && Represents(parent[..], c)
    }

    ghost predicate Valid()
      reads this, parent, rank
    {
      InRange(accepted, size) && Holds(Meaning())
    }

    constructor (n: nat)
      ensures Valid() && fresh(parent) && fresh(rank)
      ensures size == n && accepted == []
      ensures forall i :: 0 <= i < n ==> parent[i] == i && rank[i] == 0
    {
      size := n;
      parent := new nat[n];
      rank := new nat[n];
      accepted := [];
      new;
      for i := 0 to n
        invariant InRange(accepted, size) && accepted == []
        invariant forall k :: 0 <= k < i ==> parent[k] == k && rank[k] == 0
      {
        parent[i] := i;
        rank[i] := 0;
      }
      assert rank[..] == Singletons(n).rank;
      SingletonsAreSound(n);
    }

    // First loop of a find: climb to the root, in at most rank(root) steps.
    method ClimbToRoot(element: nat, ghost c: Classes) returns (root: nat, ghost climbed: nat)
      requires Holds(c) && element < size
      ensures root == c.rep[element] == Climb(parent[..], element, climbed)
      ensures climbed <= rank[root]
      ensures Avoids(parent[..], element, climbed, root)
    {
      ghost var links := parent[..];
      root, climbed := element, 0;
      while parent[root] != root
        invariant root < size && c.rep[root] == c.rep[element]
        invariant root == Climb(links, element, climbed)
        invariant climbed <= c.rank[root]
        invariant Avoids(links, element, climbed, c.rep[element])
        decreases c.rank[c.rep[element]] - c.rank[root]
      {
        assert LinkAgrees(links, c, root);
        root := parent[root];
        climbed := climbed + 1;
      }
      assert LinkAgrees(links, c, root);
    }

    // Second loop of a find: point every element of the climbed path at the root.
    method Compress(element: nat, root: nat, ghost climbed: nat, ghost c: Classes) returns (ghost relinked: nat)
      requires Holds(c) && element < size
      requires root == c.rep[element] == Climb(parent[..], element, climbed)
      requires Avoids(parent[..], element, climbed, root)
      modifies parent
      ensures Holds(c) && relinked <= climbed
      ensures parent[..] == Relink(old(parent[..]), element, climbed, root)
    {
      ghost var links := parent[..];
      var x := element;
      relinked := 0;
      while parent[x] != root
        invariant relinked <= climbed && x == Climb(links, element, relinked) && x < size
        invariant parent[..] == Relink(links, element, relinked, root)
        decreases climbed - relinked
      {
        RelinkKeepsMeaning(links, c, element, relinked);
        assert LinkAgrees(links, c, x);
        var next := parent[x];
        assert next == links[x] == Climb(links, element, relinked + 1);
        parent[x] := root;
        x := next;
        relinked := relinked + 1;
      }
      RelinkKeepsMeaning(links, c, element, climbed);
      RelinkKeepsMeaning(links, c, element, relinked);
      LastLinkIsDirect(links, c, element, relinked, climbed);
    }

    // The representative of an element's class.  Neither loop runs more than
    // log2(size) times, and comparing two finds decides the equivalence closure.
    method Find(element: nat) returns (root: nat, ghost climbed: nat, ghost relinked: nat)
      requires Valid() && element < size
      modifies parent
      ensures Valid() && root == Meaning().rep[element]
      ensures forall b: nat :: b < size ==> (root == Meaning().rep[b] <==> Connected(accepted, element, b))
      ensures relinked <= climbed && Pow2(climbed) <= size
      ensures root == Climb(old(parent[..]), element, climbed)
      ensures parent[..] == Relink(old(parent[..]), element, climbed, root)
    {
      root, climbed := ClimbToRoot(element, Meaning());
      relinked := Compress(element, root, climbed, Meaning());
      RankIsLogarithmic(size, accepted, root);
      Pow2Monotone(climbed, rank[root]);
      forall b: nat | b < size ensures root == Meaning().rep[b] <==> Connected(accepted, element, b) {
        SameRepIffConnected(size, accepted, element, b);
      }
    }

    // The rank comparison of a union, on two distinct roots.
    method Link(rootL: nat, rootR: nat, ghost c: Classes, ghost left: nat, ghost right: nat)
      requires Holds(c) && left < size && right < size
      requires rootL == c.rep[left] && rootR == c.rep[right] && rootL != rootR
      modifies parent, rank
      ensures Holds(Unite(c, left, right))
    {
      ghost var links := parent[..];
      LinkRepresents(links, c, left, right);
      UniteIsSound(c, left, right);
      if rank[rootL] < rank[rootR] {
        parent[rootL] := rootR;
        assert parent[..] == links[rootL := rootR];
      } else if rank[rootL] > rank[rootR] {
        parent[rootR] := rootL;
        assert parent[..] == links[rootR := rootL];
      } else {
        parent[rootR] := rootL;
        rank[rootL] := rank[rootL] + 1;
        assert parent[..] == links[rootR := rootL];
      }
    }

    // `valid` is the witness's flag.  The answer says whether the pair was accepted.
    method UnionValidated(left: nat, right: nat, valid: bool) returns (ok: bool)
      requires Valid()
      modifies this, parent, rank
      ensures Valid()
      ensures ok <==> valid && left < size && right < size
      ensures accepted == if ok then old(accepted) + [(left, right)] else old(accepted)
      ensures !ok ==> parent[..] == old(parent[..]) && rank[..] == old(rank[..])
      ensures ok ==> Joins(old(Meaning()), Meaning(), left, right)
    {
      if !valid || left >= size || right >= size {
        return false;
      }
      var rootL, _, _ := Find(left);
      var rootR, _, _ := Find(right);
      ghost var c := Meaning();
      if rootL != rootR {
        Link(rootL, rootR, c, left, right);
      }
      UniteAllAppend(size, accepted, (left, right));
      accepted := accepted + [(left, right)];
      UniteJoins(c, left, right);
      return true;
    }
  }
}
