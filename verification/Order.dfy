// A set of integers in ascending order: `sorted` in Python, for the pages of a batch and
// for row ids.

module Order {
  lemma Inhabited(s: set<int>)
    ensures s == {} || exists x :: x in s
  {
    if forall x :: x !in s {
      assert s == {};
    }
  }

  ghost predicate IsLeast(m: int, s: set<int>) {
    m in s && forall x :: x in s ==> m <= x
  }

  lemma {:induction false} SomeLeast(s: set<int>) returns (m: int)
    requires s != {}
    ensures IsLeast(m, s)
    decreases |s|
  {
    Inhabited(s);
    m :| m in s;
    var rest := s - {m};
    if rest != {} {
      var n := SomeLeast(rest);
      m := LeastOf(s, m, n);
    }
  }

  lemma LeastOf(s: set<int>, x: int, n: int) returns (m: int)
    requires x in s && IsLeast(n, s - {x})
    ensures IsLeast(m, s)
  {
    m := if n < x then n else x;
    forall y | y in s
      ensures m <= y
    {
      assert y == x || y in s - {x};
    }
  }

  lemma LeastExists(s: set<int>)
    requires s != {}
    ensures exists m :: m in s && forall x :: x in s ==> m <= x
  {
    var m := SomeLeast(s);
  }

  function Least(s: set<int>): (m: int)
    requires s != {}
    ensures m in s && forall x :: x in s ==> m <= x
  {
    LeastExists(s);
    var m :| m in s && forall x :: x in s ==> m <= x;
    m
  }

  /** `sorted` */
  function Ascending(s: set<int>): (r: seq<int>)
    ensures forall x :: x in r <==> x in s
    decreases |s|
  {
    if s == {} then [] else [Least(s)] + Ascending(s - {Least(s)})
  }

  lemma {:induction false} AscendingIncreases(s: set<int>)
    ensures forall i, j :: 0 <= i < j < |Ascending(s)| ==> Ascending(s)[i] < Ascending(s)[j]
    decreases |s|
  {
    if s != {} {
      var m := Least(s);
      AscendingIncreases(s - {m});
      var rest := Ascending(s - {m});
      assert forall i :: 0 <= i < |rest| ==> rest[i] in rest;
    }
  }

  lemma NoneOf(t: set<int>)
    ensures Ascending({} * t) == [] && Ascending({}) == []
  {
    assert {} * t == {};
  }

  lemma AscendingFirst(s: set<int>)
    requires s != {}
    ensures |s - {Least(s)}| < |s| && Ascending(s) == [Least(s)] + Ascending(s - {Least(s)})
  {
    hide Least;
  }

  lemma CommonLeast(s: set<int>, t: set<int>)
    requires s != {} && Least(s) in t
    ensures s * t != {} && Least(s * t) == Least(s)
  {
    assert Least(s) in s * t;
    assert Least(s * t) in s;
  }

  lemma CommonRest(s: set<int>, t: set<int>, m: int)
    ensures if m in t then s * t - {m} == (s - {m}) * t else s * t == (s - {m}) * t
  {
  }

  /** The first of s, and what is left of s and of its common part with t. */
  lemma LeastFirst(s: set<int>, t: set<int>)
    requires s != {}
    ensures var m, rest := Least(s), s - {Least(s)};
      && |rest| < |s|
      && Ascending(s) == [m] + Ascending(rest)
      && Ascending(s * t) == if m in t then [m] + Ascending(rest * t) else Ascending(rest * t)
  {
    hide *;
    AscendingFirst(s);
    CommonRest(s, t, Least(s));
    if Least(s) in t {
      CommonLeast(s, t);
      AscendingFirst(s * t);
    }
  }

  lemma OneAscending(k: int)
    ensures Ascending({k}) == [k]
  {
    assert Least({k}) == k && {k} - {k} == {};
  }
}
