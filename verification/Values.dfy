// What the comparisons of values mean (leafdb/executor.py): text by its characters, numbers
// by their size, with Booleans as 0 and 1.

module Values {
  import opened Bytes
  import opened Sql

  /** Text a stands before text b in the dictionary: it is a proper beginning of b, or has the
      smaller character where they first differ. */
  ghost predicate TextBefore(a: string, b: string) {
    || (|a| < |b| && b[..|a|] == a)
    || exists k :: 0 <= k < |a| && FirstDiffer(a, b, k)
  }

  ghost predicate FirstDiffer(a: string, b: string, k: nat)
    requires k < |a|
  {
    k < |b| && a[..k] == b[..k] && a[k] < b[k]
  }

  lemma BehindFirst(a: string, b: string)
    requires a != [] && b != [] && a[0] == b[0]
    ensures TextBefore(a, b) <==> TextBefore(a[1..], b[1..])
  {
    var s, t := a[1..], b[1..];
    assert a == [a[0]] + s && b == [b[0]] + t;
    if TextBefore(a, b) {
      if |a| < |b| && b[..|a|] == a {
        assert b[..|a|] == [b[0]] + t[..|s|];
        assert b[..|a|][1..] == t[..|s|];
      } else {
        var k :| 0 <= k < |a| && FirstDiffer(a, b, k);
        assert k > 0 && a[..k][1..] == s[..k - 1] && b[..k][1..] == t[..k - 1];
        assert FirstDiffer(s, t, k - 1);
      }
    }
    if TextBefore(s, t) {
      if |s| < |t| && t[..|s|] == s {
        assert b[..|a|] == [b[0]] + t[..|s|];
      } else {
        var k :| 0 <= k < |s| && FirstDiffer(s, t, k);
        assert a[..k + 1] == [a[0]] + s[..k] && b[..k + 1] == [b[0]] + t[..k];
        assert FirstDiffer(a, b, k + 1);
      }
    }
  }

  /** The recursive comparison of strings finds the dictionary order. */
  lemma {:induction false} StrCmpIs(a: string, b: string)
    ensures StrCmp(a, b) < 0 <==> TextBefore(a, b)
    ensures StrCmp(a, b) > 0 <==> TextBefore(b, a)
    ensures StrCmp(a, b) == 0 <==> a == b
    decreases |a|
  {
    if a == [] || b == [] {
      assert a == [] ==> b[..|a|] == a;
      assert b == [] ==> a[..|b|] == b;
    } else if a[0] == b[0] {
      StrCmpIs(a[1..], b[1..]);
      BehindFirst(a, b);
      BehindFirst(b, a);
      assert a == [a[0]] + a[1..] && b == [b[0]] + b[1..];
    } else {
      DifferAtOnce(a, b);
      DifferAtOnce(b, a);
    }
  }

  lemma DifferAtOnce(a: string, b: string)
    requires a != [] && b != [] && a[0] != b[0]
    ensures TextBefore(a, b) <==> a[0] < b[0]
  {
    if a[0] < b[0] {
      assert a[..0] == b[..0];
      assert FirstDiffer(a, b, 0);
    }
    SameBeginnings(a, b);
  }

  /** What begins alike begins with the same character. */
  lemma SameBeginnings(a: string, b: string)
    requires a != [] && b != []
    ensures forall k :: 0 < k <= |a| && k <= |b| && a[..k] == b[..k] ==> a[0] == b[0]
    ensures |a| <= |b| && b[..|a|] == a ==> a[0] == b[0]
  {
    forall k | 0 < k <= |a| && k <= |b| && a[..k] == b[..k]
      ensures a[0] == b[0]
    {
      assert a[..k][0] == a[0] && b[..k][0] == b[0];
    }
    assert |a| <= |b| ==> b[..|a|][0] == b[0];
  }

  predicate Numeric(v: Value) {
    v.Int? || v.Bool?
  }

  /** The number a value stands for; True is 1 and False is 0. */
  function Number(v: Value): int
    requires Numeric(v)
  {
    if v.Int? then v.i else if v.b then 1 else 0
  }

  /** Text and numbers do not compare. */
  predicate Comparable(v: Value, w: Value) {
    (v.Str? && w.Str?) || (Numeric(v) && Numeric(w))
  }

  predicate Same(v: Value, w: Value) {
    (v.Str? && w.Str? && v.s == w.s) || (Numeric(v) && Numeric(w) && Number(v) == Number(w))
  }

  ghost predicate Less(v: Value, w: Value) {
    (v.Str? && w.Str? && TextBefore(v.s, w.s)) || (Numeric(v) && Numeric(w) && Number(v) < Number(w))
  }

  lemma EqualIs(v: Value, w: Value)
    requires v != Null && w != Null
    ensures Equal(v, w) <==> Same(v, w)
  {
  }

  /** The order comparison: the exception for text against a number, otherwise which of the
      two is less. */
  lemma OrderCmpIs(v: Value, w: Value)
    requires v != Null && w != Null
    ensures OrderCmp(v, w).Some? <==> Comparable(v, w)
    ensures Comparable(v, w) ==>
      var c := OrderCmp(v, w).value;
      (c < 0 <==> Less(v, w)) && (c > 0 <==> Less(w, v)) && (c == 0 <==> Same(v, w))
  {
    if v.Str? && w.Str? {
      StrCmpIs(v.s, w.s);
    }
    hide TextBefore, StrCmp;
  }
}
