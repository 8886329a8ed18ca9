// Iterating a step that returns to its start after eight applications.
module Orbits {

  function Iterate<T>(f: T -> T, n: nat, s: T): T {
    if n == 0 then s else f(Iterate(f, n - 1, s))
  }

  ghost predicate Octal<T(!new)>(f: T -> T) {
    forall s :: Iterate(f, 8, s) == s
  }

  lemma {:induction false} IterateAdd<T>(f: T -> T, m: nat, n: nat, s: T)
    ensures Iterate(f, m + n, s) == Iterate(f, n, Iterate(f, m, s))
    decreases n
  {
    if n > 0 {
      IterateAdd(f, m, n - 1, s);
    }
  }

  // Eight steps restore every state, so only the count modulo eight matters.
  lemma {:induction false} ModEight<T(!new)>(f: T -> T, n: nat, s: T)
    requires Octal(f)
    ensures Iterate(f, n, s) == Iterate(f, n % 8, s)
  {
    if n >= 8 {
      IterateAdd(f, 8, n - 8, s);
      ModEight(f, n - 8, s);
    }
  }

  lemma Congruent<T(!new)>(f: T -> T, m: nat, n: nat, s: T)
    requires Octal(f) && m % 8 == n % 8
    ensures Iterate(f, m, s) == Iterate(f, n, s)
  {
    ModEight(f, m, s);
    ModEight(f, n, s);
  }

  // Stepping is invertible: `back` further steps undo n steps.
  lemma Undo<T(!new)>(f: T -> T, n: nat, back: nat, s: T)
    requires Octal(f) && (n + back) % 8 == 0
    ensures Iterate(f, back, Iterate(f, n, s)) == s
  {
    IterateAdd(f, n, back, s);
    Congruent(f, n + back, 0, s);
  }

  lemma MeetVia<T(!new)>(f: T -> T, n: nat, s: T, m: nat, t: T, back: nat, k: nat)
    requires Octal(f) && (n + back) % 8 == 0 && (m + back) % 8 == k % 8 && (k + n) % 8 == m % 8
    ensures Iterate(f, n, s) == Iterate(f, m, t) <==> s == Iterate(f, k, t)
  {
    Undo(f, n, back, s);
    IterateAdd(f, m, back, t);
    Congruent(f, m + back, k, t);
    IterateAdd(f, k, n, t);
    Congruent(f, k + n, m, t);
  }

  lemma Offsets(m: nat, n: nat)
    ensures (n + 7 * n) % 8 == 0 && ((m + 7 * n) % 8 + n) % 8 == m % 8
  {
    var k := m + 7 * n;
    Shifted(k, n);
    assert k + n == 8 * n + m;
    Eights(n, m);
  }

  lemma Shifted(k: nat, n: nat)
    ensures (k % 8 + n) % 8 == (k + n) % 8
  {
  }

  lemma Eights(n: nat, m: nat)
    ensures (8 * n + m) % 8 == m % 8 && (n + 7 * n) % 8 == 0
  {
  }

  // Two states meet after n and m steps exactly when the first lies m - n
  // (modulo eight) steps ahead of the second.
  lemma MeetIff<T(!new)>(f: T -> T, n: nat, s: T, m: nat, t: T)
    requires Octal(f)
    ensures Iterate(f, n, s) == Iterate(f, m, t) <==> s == Iterate(f, (m + 7 * n) % 8, t)
  {
    Offsets(m, n);
    MeetVia(f, n, s, m, t, 7 * n, (m + 7 * n) % 8);
  }

  // The least positive number of steps that restores a state.
  function Period<T(==)>(f: T -> T, s: T): nat {
    if Iterate(f, 1, s) == s then 1
    else if Iterate(f, 2, s) == s then 2
    else if Iterate(f, 4, s) == s then 4
    else 8
  }

  lemma {:induction false} ReturnsAgain<T(!new)>(f: T -> T, k: nat, j: nat, s: T)
    requires Iterate(f, k, s) == s
    ensures Iterate(f, j * k, s) == s
    decreases j
  {
    if j > 0 {
      ReturnsAgain(f, k, j - 1, s);
      IterateAdd(f, (j - 1) * k, k, s);
      assert (j - 1) * k + k == j * k;
    }
  }

  // Odd counts reach every residue modulo eight, and 6 reaches 2.
  lemma ReturnsEarly<T(!new)>(f: T -> T, r: nat, s: T)
    requires Octal(f) && r < 8 && Iterate(f, r, s) == s
    ensures r % Period(f, s) == 0
  {
    if r == 1 || r == 3 || r == 5 || r == 7 {
      ReturnsAgain(f, r, r, s);
      ModEight(f, r * r, s);
      assert (r * r) % 8 == 1;
    } else if r == 2 || r == 6 {
      ReturnsAgain(f, r, r / 2, s);
      ModEight(f, r / 2 * r, s);
      assert (r / 2 * r) % 8 == 2;
    }
  }

  lemma CarryTwo(q: nat, r: nat, n: nat)
    requires r < 4 && n == 2 * q + r
    ensures n % 2 == if r < 2 then r else r - 2
  {
  }

  lemma CarryFour(q: nat, r: nat, n: nat)
    requires r < 8 && n == 4 * q + r
    ensures n % 4 == if r < 4 then r else r - 4
  {
  }

  lemma CarryEight(q: nat, r: nat, n: nat)
    requires r < 16 && n == 8 * q + r
    ensures n % 8 == if r < 8 then r else r - 8
  {
  }

  lemma Differences(n: nat, d: nat, p: nat)
    requires p == 1 || p == 2 || p == 4 || p == 8
    ensures n % p == (n + d) % p <==> d % p == 0
  {
    if p == 2 {
      CarryTwo(n / 2 + d / 2, n % 2 + d % 2, n + d);
    } else if p == 4 {
      CarryFour(n / 4 + d / 4, n % 4 + d % 4, n + d);
    } else if p == 8 {
      CarryEight(n / 8 + d / 8, n % 8 + d % 8, n + d);
    }
  }

  lemma Residues(k: nat, p: nat)
    requires p == 1 || p == 2 || p == 4 || p == 8
    ensures k % 8 % p == k % p
  {
    var a, r := k / 8, k % 8;
    if p == 2 {
      CarryTwo(4 * a + r / 2, r % 2, k);
    } else if p == 4 {
      CarryFour(2 * a + r / 4, r % 4, k);
    }
  }

  lemma Multiple(k: nat, p: nat)
    requires p > 0 && k % p == 0
    ensures k / p * p == k
  {
  }

  lemma ReturnsIff<T(!new)>(f: T -> T, k: nat, s: T)
    requires Octal(f)
    ensures Iterate(f, k, s) == s <==> k % Period(f, s) == 0
  {
    var p := Period(f, s);
    Residues(k, p);
    if k % p == 0 {
      Multiple(k, p);
      ReturnsAgain(f, p, k / p, s);
    }
    if Iterate(f, k, s) == s {
      ModEight(f, k, s);
      ReturnsEarly(f, k % 8, s);
    }
  }

  lemma LaterMeetIff<T(!new)>(f: T -> T, n: nat, d: nat, s: T)
    requires Octal(f)
    ensures Iterate(f, n, s) == Iterate(f, n + d, s) <==> n % Period(f, s) == (n + d) % Period(f, s)
  {
    Offsets(0, n);
    Undo(f, n, 7 * n, s);
    Undo(f, n, 7 * n, Iterate(f, d, s));
    IterateAdd(f, d, n, s);
    ReturnsIff(f, d, s);
    Differences(n, d, Period(f, s));
  }

  // From one state, two counts meet exactly when they agree modulo its period.
  lemma SameStartMeetIff<T(!new)>(f: T -> T, n: nat, m: nat, s: T)
    requires Octal(f)
    ensures Iterate(f, n, s) == Iterate(f, m, s) <==> n % Period(f, s) == m % Period(f, s)
  {
    if n <= m {
      LaterMeetIff(f, n, m - n, s);
    } else {
      LaterMeetIff(f, m, n - m, s);
    }
  }
}
