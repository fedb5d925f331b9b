// ORDER BY (sort_wrap and the sort passes of run_select in leafdb/executor.py): one
// stable sort a key, from the last key to the first.

module Sort {
  import opened Bytes
  import opened Sql
  import opened Values

  // ---- the order of values -----------------------------------------------------------

  /** The first two components of `sort_wrap`'s tuple: NULL, then text, numbers, Booleans. */
  function Rank(v: Value): nat {
    match v
    case Null => 0
    case Str(_) => 1
    case Int(_) => 2
    case Bool(_) => 3
  }

  /** Comparing two wrapped values: negative, zero or positive. */
  function Compare(a: Value, b: Value): int {
    if Rank(a) != Rank(b) then Rank(a) - Rank(b)
    else if a.Str? && b.Str? then StrCmp(a.s, b.s)
    else AsInt(a) - AsInt(b)
  }

  lemma {:induction false} StrCmpSigns(a: string, b: string)
    ensures (StrCmp(a, b) < 0 <==> StrCmp(b, a) > 0) && (StrCmp(a, b) == 0 <==> a == b)
    decreases |a|
  {
    if a != [] && b != [] && a[0] == b[0] {
      StrCmpSigns(a[1..], b[1..]);
      assert a == [a[0]] + a[1..] && b == [b[0]] + b[1..];
    }
  }

  lemma {:induction false} StrCmpTransitive(a: string, b: string, c: string)
    requires StrCmp(a, b) < 0 && StrCmp(b, c) <= 0
    ensures StrCmp(a, c) < 0
    decreases |a|
  {
    StrCmpSigns(b, c);
    if a != [] && b != [] && c != [] && a[0] == b[0] == c[0] {
      StrCmpTransitive(a[1..], b[1..], c[1..]);
    }
  }

  /** Values are totally ordered: exactly one of less, equal in the order, greater. */
  lemma CompareSigns(a: Value, b: Value)
    ensures Compare(a, b) < 0 <==> Compare(b, a) > 0
    ensures Compare(a, b) == 0 <==> a == b
  {
    if a.Str? && b.Str? {
      StrCmpSigns(a.s, b.s);
    }
  }

  /** Where a value stands: NULL first, then text in dictionary order, then the numbers by
      size, then False, then True. */
  ghost predicate StandsBefore(a: Value, b: Value) {
    match a
    case Null => !b.Null?
    case Str(s) => b.Int? || b.Bool? || (b.Str? && TextBefore(s, b.s))
    case Int(i) => b.Bool? || (b.Int? && i < b.i)
    case Bool(x) => b.Bool? && !x && b.b
  }

  /** The comparison finds that order. */
  lemma CompareIs(a: Value, b: Value)
    ensures Compare(a, b) < 0 <==> StandsBefore(a, b)
    ensures Compare(a, b) > 0 <==> StandsBefore(b, a)
  {
    if a.Str? && b.Str? {
      StrCmpIs(a.s, b.s);
    }
    hide TextBefore, StrCmp;
  }

  lemma CompareTransitive(a: Value, b: Value, c: Value)
    requires Compare(a, b) < 0 && Compare(b, c) <= 0
    ensures Compare(a, c) < 0
  {
    if a.Str? && b.Str? && c.Str? {
      StrCmpTransitive(a.s, b.s, c.s);
    }
  }

  // ---- one pass ------------------------------------------------------------------------

  /** The sort keys of the result rows, one list a row. */
  type Keys = seq<seq<Value>>

  ghost predicate Proper(keys: Keys, n: nat) {
    forall i :: 0 <= i < |keys| ==> |keys[i]| == n
  }

  /** Row a comes before row b by key k, ascending or descending. */
  predicate Before(keys: Keys, k: nat, desc: bool, a: nat, b: nat)
    requires a < |keys| && b < |keys| && k < |keys[a]| && k < |keys[b]|
  {
    if desc then Compare(keys[a][k], keys[b][k]) > 0 else Compare(keys[a][k], keys[b][k]) < 0
  }

  ghost predicate Rows(order: seq<nat>, keys: Keys, n: nat) {
    Proper(keys, n) && forall i :: 0 <= i < |order| ==> order[i] < |keys|
  }

  /** Positions of rows that have a key k. */
  ghost predicate At(order: seq<nat>, keys: Keys, k: nat) {
    forall i :: 0 <= i < |order| ==> order[i] < |keys| && k < |keys[order[i]]|
  }

  /** A row put behind all rows that it does not come before. */
  function Insert(keys: Keys, k: nat, desc: bool, order: seq<nat>, x: nat): (r: seq<nat>)
    requires x < |keys| && k < |keys[x]| && At(order, keys, k)
    ensures At(r, keys, k)
  {
    if order == [] then [x]
    else
      var n := |order| - 1;
      if Before(keys, k, desc, x, order[n]) then Insert(keys, k, desc, order[..n], x) + [order[n]]
      else order + [x]
  }

  /** `list.sort(key=..., reverse=desc)`: stable, also when it is reversed. */
  function StableSort(keys: Keys, k: nat, desc: bool, order: seq<nat>): (r: seq<nat>)
    requires At(order, keys, k)
    ensures At(r, keys, k)
  {
    if order == [] then []
    else
      var n := |order| - 1;
      Insert(keys, k, desc, StableSort(keys, k, desc, order[..n]), order[n])
  }

  lemma AddOne(s: seq<nat>, x: nat)
    ensures multiset(s + [x]) == multiset(s) + multiset{x}
  {
  }

  lemma {:induction false} InsertPermutes(keys: Keys, k: nat, desc: bool, order: seq<nat>, x: nat)
    requires x < |keys| && k < |keys[x]| && At(order, keys, k)
    ensures multiset(Insert(keys, k, desc, order, x)) == multiset(order) + multiset{x}
    decreases |order|
  {
    hide Before;
    if order != [] {
      var n := |order| - 1;
      assert order == order[..n] + [order[n]];
      AddOne(order[..n], order[n]);
      AddOne(order, x);
      InsertPermutes(keys, k, desc, order[..n], x);
      AddOne(Insert(keys, k, desc, order[..n], x), order[n]);
    }
  }

  lemma {:induction false} SortPermutes(keys: Keys, k: nat, desc: bool, order: seq<nat>)
    requires At(order, keys, k)
    ensures multiset(StableSort(keys, k, desc, order)) == multiset(order)
    decreases |order|
  {
    hide Insert;
    if order != [] {
      var n := |order| - 1;
      assert order == order[..n] + [order[n]];
      AddOne(order[..n], order[n]);
      SortPermutes(keys, k, desc, order[..n]);
      InsertPermutes(keys, k, desc, StableSort(keys, k, desc, order[..n]), order[n]);
    }
  }

  /** The rows of a permutation are the rows. */
  lemma Permuted(a: seq<nat>, b: seq<nat>, i: nat) returns (j: nat)
    requires multiset(a) == multiset(b) && i < |a|
    ensures j < |b| && b[j] == a[i]
  {
    assert a[i] in multiset(a) && a[i] in multiset(b);
    j :| 0 <= j < |b| && b[j] == a[i];
  }

  // ---- the order of several keys -----------------------------------------------------------

  /** Row a comes before row b by the keys from k on, each in its direction, and among
      equals by position. */
  predicate Precedes(keys: Keys, desc: seq<bool>, k: nat, a: nat, b: nat)
    requires a < |keys| && b < |keys| && |keys[a]| == |desc| && |keys[b]| == |desc| && k <= |desc|
    decreases |desc| - k
  {
    if k == |desc| then a < b
    else
      || Before(keys, k, desc[k], a, b)
      || (!Before(keys, k, desc[k], b, a) && Precedes(keys, desc, k + 1, a, b))
  }

  /** Every row precedes every later one. */
  ghost predicate Ordered(keys: Keys, desc: seq<bool>, k: nat, order: seq<nat>)
    requires Rows(order, keys, |desc|) && k <= |desc|
  {
    forall i, j :: 0 <= i < j < |order| ==> Precedes(keys, desc, k, order[i], order[j])
  }

  /** Row a is to stand before row b: by the first key in which they differ, in its direction;
      by position if they differ in none. */
  ghost predicate InOrder(keys: Keys, desc: seq<bool>, k: nat, a: nat, b: nat)
    requires a < |keys| && b < |keys| && |keys[a]| == |desc| && |keys[b]| == |desc| && k <= |desc|
  {
    || (keys[a][k..] == keys[b][k..] && a < b)
    || exists m :: k <= m < |desc| && DecidedBy(keys, desc, k, m, a, b)
  }

  /** Key m decides, and those before it are the same. */
  ghost predicate DecidedBy(keys: Keys, desc: seq<bool>, k: nat, m: nat, a: nat, b: nat)
    requires a < |keys| && b < |keys| && |keys[a]| == |desc| && |keys[b]| == |desc| && k <= m < |desc|
  {
    && keys[a][k..m] == keys[b][k..m]
    && if desc[m] then StandsBefore(keys[b][m], keys[a][m]) else StandsBefore(keys[a][m], keys[b][m])
  }

  lemma {:induction false} PrecedesIs(keys: Keys, desc: seq<bool>, k: nat, a: nat, b: nat)
    requires a < |keys| && b < |keys| && |keys[a]| == |desc| && |keys[b]| == |desc| && k <= |desc|
    ensures Precedes(keys, desc, k, a, b) <==> InOrder(keys, desc, k, a, b)
    decreases |desc| - k
  {
    if k == |desc| {
      assert keys[a][k..] == [] && keys[b][k..] == [];
    } else {
      PrecedesIs(keys, desc, k + 1, a, b);
      FirstKey(keys, desc, k, a, b);
      CompareIs(keys[a][k], keys[b][k]);
      CompareIs(keys[b][k], keys[a][k]);
      CompareSigns(keys[a][k], keys[b][k]);
      CompareSigns(keys[b][k], keys[a][k]);
      hide InOrder, Compare, StandsBefore;
    }
  }

  /** The first key decides, or the rest does. */
  lemma FirstKey(keys: Keys, desc: seq<bool>, k: nat, a: nat, b: nat)
    requires a < |keys| && b < |keys| && |keys[a]| == |desc| && |keys[b]| == |desc| && k < |desc|
    ensures InOrder(keys, desc, k, a, b) <==>
      || (if desc[k] then StandsBefore(keys[b][k], keys[a][k]) else StandsBefore(keys[a][k], keys[b][k]))
      || (keys[a][k] == keys[b][k] && InOrder(keys, desc, k + 1, a, b))
  {
    var x, y := keys[a], keys[b];
    hide StandsBefore;
    assert x[k..] == [x[k]] + x[k + 1..] && y[k..] == [y[k]] + y[k + 1..];
    forall m | k < m < |desc|
      ensures DecidedBy(keys, desc, k, m, a, b) <==> x[k] == y[k] && DecidedBy(keys, desc, k + 1, m, a, b)
    {
      assert x[k..m] == [x[k]] + x[k + 1..m] && y[k..m] == [y[k]] + y[k + 1..m];
    }
    var first := if desc[k] then StandsBefore(y[k], x[k]) else StandsBefore(x[k], y[k]);
    assert x[k..k] == [] && y[k..k] == [];
    assert DecidedBy(keys, desc, k, k, a, b) <==> first;
    hide DecidedBy;
    if InOrder(keys, desc, k, a, b) && !first {
      if m :| k <= m < |desc| && DecidedBy(keys, desc, k, m, a, b) {
        assert m != k && DecidedBy(keys, desc, k + 1, m, a, b);
      }
    }
    if x[k] == y[k] && InOrder(keys, desc, k + 1, a, b) {
      var n := k + 1;
      if m :| n <= m < |desc| && DecidedBy(keys, desc, n, m, a, b) {
        assert DecidedBy(keys, desc, k, m, a, b);
      }
    }
  }

  /** Every row stands before every later one, by all keys. */
  ghost predicate AllInOrder(keys: Keys, desc: seq<bool>, order: seq<nat>)
    requires Rows(order, keys, |desc|)
  {
    forall i, j :: 0 <= i < j < |order| ==> InOrder(keys, desc, 0, order[i], order[j])
  }

  lemma OrderedIs(keys: Keys, desc: seq<bool>, order: seq<nat>)
    requires Rows(order, keys, |desc|)
    ensures Ordered(keys, desc, 0, order) <==> AllInOrder(keys, desc, order)
  {
    hide Precedes, InOrder;
    forall i, j | 0 <= i < j < |order|
      ensures Precedes(keys, desc, 0, order[i], order[j]) <==> InOrder(keys, desc, 0, order[i], order[j])
    {
      PrecedesIs(keys, desc, 0, order[i], order[j]);
    }
  }

  lemma BeforeThrough(keys: Keys, k: nat, desc: bool, x: nat, y: nat, z: nat)
    requires x < |keys| && y < |keys| && z < |keys| && k < |keys[x]| && k < |keys[y]| && k < |keys[z]|
    requires Before(keys, k, desc, x, y) && !Before(keys, k, desc, z, y)
    ensures Before(keys, k, desc, x, z)
  {
    var a, b, c := keys[x][k], keys[y][k], keys[z][k];
    CompareSigns(a, b);
    CompareSigns(b, c);
    CompareSigns(c, b);
    CompareSigns(a, c);
    hide Compare;
    if desc {
      if Compare(c, b) < 0 {
        CompareTransitive(c, b, a);
      } else {
        assert b == c;
      }
    } else {
      CompareTransitive(a, b, c);
    }
  }

  /** Inserting a row that comes behind all others by the later keys keeps the order by
      key k and the later keys. */
  lemma {:induction false} InsertOrdered(keys: Keys, desc: seq<bool>, k: nat, order: seq<nat>, x: nat)
    requires Rows(order, keys, |desc|) && x < |keys| && k < |desc|
    requires Ordered(keys, desc, k, order)
    requires forall i :: 0 <= i < |order| ==> Precedes(keys, desc, k + 1, order[i], x)
    ensures var r := Insert(keys, k, desc[k], order, x);
      Rows(r, keys, |desc|) && Ordered(keys, desc, k, r)
    decreases |order|
  {
    if order != [] {
      var n := |order| - 1;
      var last, front := order[n], order[..n];
      var r := Insert(keys, k, desc[k], order, x);
      hide Compare;
      if Before(keys, k, desc[k], x, last) {
        InsertOrdered(keys, desc, k, front, x);
        var s := Insert(keys, k, desc[k], front, x);
        assert r == s + [last];
        forall i | 0 <= i < |s|
          ensures Precedes(keys, desc, k, s[i], last)
        {
          InsertedFrom(keys, k, desc[k], front, x, i);
        }
      } else {
        assert r == order + [x];
        forall i | 0 <= i < |order|
          ensures Precedes(keys, desc, k, order[i], x)
        {
          if Before(keys, k, desc[k], x, order[i]) {
            assert i < n && Precedes(keys, desc, k, order[i], last);
            assert !Before(keys, k, desc[k], last, order[i]) by {
              NotBoth(keys, k, desc[k], order[i], last);
            }
            BeforeThrough(keys, k, desc[k], x, order[i], last);
            assert false;
          }
        }
      }
    }
  }

  lemma NotBoth(keys: Keys, k: nat, desc: bool, a: nat, b: nat)
    requires a < |keys| && b < |keys| && k < |keys[a]| && k < |keys[b]|
    ensures !(Before(keys, k, desc, a, b) && Before(keys, k, desc, b, a))
  {
    CompareSigns(keys[a][k], keys[b][k]);
  }

  lemma InsertedFrom(keys: Keys, k: nat, desc: bool, order: seq<nat>, x: nat, i: nat)
    requires x < |keys| && k < |keys[x]| && At(order, keys, k)
    requires i < |Insert(keys, k, desc, order, x)|
    ensures var y := Insert(keys, k, desc, order, x)[i]; y == x || exists j :: 0 <= j < |order| && order[j] == y
  {
    InsertPermutes(keys, k, desc, order, x);
    AddOne(order, x);
    hide Insert;
    var j := Permuted(Insert(keys, k, desc, order, x), order + [x], i);
  }

  /** A pass by key k over rows in order by the later keys leaves them in order by key k
      and the later keys. */
  lemma {:induction false} PassOrdered(keys: Keys, desc: seq<bool>, k: nat, order: seq<nat>)
    requires Rows(order, keys, |desc|) && k < |desc| && Ordered(keys, desc, k + 1, order)
    ensures var r := StableSort(keys, k, desc[k], order);
      Rows(r, keys, |desc|) && Ordered(keys, desc, k, r)
    decreases |order|
  {
    hide Insert, Precedes, Before;
    if order != [] {
      var n := |order| - 1;
      var front, x := order[..n], order[n];
      PassOrdered(keys, desc, k, front);
      var s := StableSort(keys, k, desc[k], front);
      SortPermutes(keys, k, desc[k], front);
      forall i | 0 <= i < |s|
        ensures Precedes(keys, desc, k + 1, s[i], x)
      {
        var j := Permuted(s, front, i);
        assert order[j] == s[i];
      }
      InsertOrdered(keys, desc, k, s, x);
    }
  }

  /** ORDER BY: the positions of the rows, sorted by the last key first. They are all there,
      each row before those that the keys put behind it, and ties in the order they came. */
  method OrderBy(keys: Keys, desc: seq<bool>) returns (order: seq<nat>)
    requires Proper(keys, |desc|)
    ensures Rows(order, keys, |desc|) && Ordered(keys, desc, 0, order)
    ensures AllInOrder(keys, desc, order)
    ensures multiset(order) == multiset(Positions(|keys|))
  {
    order := Positions(|keys|);
    for k := |desc| downto 0
      invariant Rows(order, keys, |desc|) && Ordered(keys, desc, k, order)
      invariant multiset(order) == multiset(Positions(|keys|))
    {
      PassOrdered(keys, desc, k, order);
      SortPermutes(keys, k, desc[k], order);
      hide StableSort;
      order := StableSort(keys, k, desc[k], order);
    }
    OrderedIs(keys, desc, order);
    hide AllInOrder;
  }

  /** The rows in the order they came in */
  function Positions(n: nat): (r: seq<nat>)
    ensures |r| == n && forall i :: 0 <= i < n ==> r[i] == i
  {
    if n == 0 then [] else Positions(n - 1) + [n - 1]
  }

  // ---- there is only one such order ------------------------------------------------------------

  lemma {:induction false} PrecedesOneWay(keys: Keys, desc: seq<bool>, k: nat, a: nat, b: nat)
    requires a < |keys| && b < |keys| && |keys[a]| == |desc| && |keys[b]| == |desc| && k <= |desc|
    ensures !(Precedes(keys, desc, k, a, b) && Precedes(keys, desc, k, b, a))
    decreases |desc| - k
  {
    if k < |desc| {
      NotBoth(keys, k, desc[k], a, b);
      PrecedesOneWay(keys, desc, k + 1, a, b);
    }
  }

  /** Rows in order by all keys, with ties by position, are in the only such order: no
      other arrangement of the same rows is. */
  lemma {:induction false} OnlyOrder(keys: Keys, desc: seq<bool>, a: seq<nat>, b: seq<nat>)
    requires Rows(a, keys, |desc|) && Rows(b, keys, |desc|) && multiset(a) == multiset(b)
    requires Ordered(keys, desc, 0, a) && Ordered(keys, desc, 0, b)
    ensures a == b
    decreases |a|
  {
    hide *;
    if a == [] {
      assert |b| == |multiset(b)| == |multiset(a)| == 0;
    } else {
      SameFirst(keys, desc, a, b);
      SameRest(a, b);
      OrderedRest(keys, desc, a);
      OrderedRest(keys, desc, b);
      OnlyOrder(keys, desc, a[1..], b[1..]);
      assert a == [a[0]] + a[1..] && b == [b[0]] + b[1..];
    }
  }

  lemma SameRest(a: seq<nat>, b: seq<nat>)
    requires multiset(a) == multiset(b) && a != [] && b != [] && a[0] == b[0]
    ensures multiset(a[1..]) == multiset(b[1..])
  {
    assert a == [a[0]] + a[1..] && b == [b[0]] + b[1..];
    assert multiset(a[1..]) == multiset(a) - multiset{a[0]} && multiset(b[1..]) == multiset(b) - multiset{b[0]};
  }

  lemma OrderedRest(keys: Keys, desc: seq<bool>, a: seq<nat>)
    requires Rows(a, keys, |desc|) && Ordered(keys, desc, 0, a) && a != []
    ensures Rows(a[1..], keys, |desc|) && Ordered(keys, desc, 0, a[1..])
  {
    hide Precedes;
  }

  lemma SameFirst(keys: Keys, desc: seq<bool>, a: seq<nat>, b: seq<nat>)
    requires Rows(a, keys, |desc|) && Rows(b, keys, |desc|) && multiset(a) == multiset(b) && a != []
    requires Ordered(keys, desc, 0, a) && Ordered(keys, desc, 0, b)
    ensures b != [] && a[0] == b[0]
  {
    hide Precedes;
    var i := Permuted(a, b, 0);
    var j := Permuted(b, a, 0);
    if i > 0 && j > 0 {
      assert Precedes(keys, desc, 0, b[0], b[i]) && Precedes(keys, desc, 0, a[0], a[j]);
      PrecedesOneWay(keys, desc, 0, a[0], b[0]);
    }
  }
}
