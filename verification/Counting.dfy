// Counting the members of a list that satisfy a test: the order does not matter.
module Counting {

  ghost function CountIf<T>(f: T -> bool, s: seq<T>): nat {
    if s == [] then 0 else CountIf(f, s[..|s| - 1]) + if f(s[|s| - 1]) then 1 else 0
  }

  lemma {:induction false} CountConcat<T>(f: T -> bool, s: seq<T>, t: seq<T>)
    ensures CountIf(f, s + t) == CountIf(f, s) + CountIf(f, t)
    decreases t
  {
    if t == [] {
      assert s + t == s;
    } else {
      assert (s + t)[..|s + t| - 1] == s + t[..|t| - 1];
      CountConcat(f, s, t[..|t| - 1]);
    }
  }

  lemma CountOneMore<T>(f: T -> bool, s: seq<T>, x: T)
    ensures CountIf(f, s + [x]) == CountIf(f, s) + if f(x) then 1 else 0
  {
    assert (s + [x])[..|s|] == s;
  }

  lemma CountBetween<T>(f: T -> bool, s: seq<T>, before: seq<T>, x: T, after: seq<T>)
    requires s == before + [x] + after
    ensures CountIf(f, s) == CountIf(f, before + after) + if f(x) then 1 else 0
  {
    CountConcat(f, before + [x], after);
    CountConcat(f, before, after);
    CountOneMore(f, before, x);
  }

  lemma Without<T>(f: T -> bool, s: seq<T>, k: nat)
    requires k < |s|
    ensures CountIf(f, s) == CountIf(f, s[..k] + s[k + 1..]) + if f(s[k]) then 1 else 0
  {
    CountBetween(f, s, s[..k], s[k], s[k + 1..]);
  }

  lemma WithoutMultiset<T>(s: seq<T>, k: nat)
    requires k < |s|
    ensures multiset(s[..k] + s[k + 1..]) == multiset(s) - multiset{s[k]}
  {
    assert s == s[..k] + [s[k]] + s[k + 1..];
  }

  lemma {:induction false} CountPermutes<T>(f: T -> bool, s: seq<T>, t: seq<T>)
    requires multiset(s) == multiset(t)
    ensures CountIf(f, s) == CountIf(f, t)
    decreases s
  {
    assert |s| == |multiset(s)| == |t|;
    if s != [] {
      assert s[0] in multiset(t);
      var k :| 0 <= k < |t| && t[k] == s[0];
      Without(f, s, 0);
      Without(f, t, k);
      WithoutMultiset(s, 0);
      WithoutMultiset(t, k);
      CountPermutes(f, s[..0] + s[1..], t[..k] + t[k + 1..]);
    }
  }
}
