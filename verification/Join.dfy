// Joins (leafdb/executor.py, _join): the hash join on either build side against the
// nested loop, for all four kinds.

module Join {
  import opened Bytes
  import opened Sql

  datatype Kind = Inner | LeftOuter | RightOuter | FullOuter

  /** The rows on both sides, and when a pair of them counts as a match. */
  datatype Input = Input(lefts: seq<Parts>, rights: seq<Row>, on: Parts -> bool, width: nat) {
    function Pair(i: nat, j: nat): Parts
      requires i < |lefts| && j < |rights|
    {
      lefts[i] + [Some(rights[j])]
    }

    predicate Match(i: nat, j: nat)
      requires i < |lefts| && j < |rights|
    {
      on(Pair(i, j))
    }

    predicate LeftMatched(i: nat)
      requires i < |lefts|
    {
      exists j :: 0 <= j < |rights| && Match(i, j)
    }

    predicate RightMatched(j: nat)
      requires j < |rights|
    {
      exists i :: 0 <= i < |lefts| && Match(i, j)
    }
  }

  // ---- the nested loop, as index pairs -------------------------------------------------

  /** The matches of left row i among the first m right rows. */
  function RowPairs(inp: Input, i: nat, m: nat): (r: seq<(nat, nat)>)
    requires i < |inp.lefts| && m <= |inp.rights|
    ensures forall p :: p in r ==> p.0 == i && p.1 < m
  {
    if m == 0 then []
    else RowPairs(inp, i, m - 1) + if inp.Match(i, m - 1) then [(i, m - 1)] else []
  }

  /** Left row by left row */
  function PairsByRow(inp: Input, n: nat): (r: seq<(nat, nat)>)
    requires n <= |inp.lefts|
    ensures forall p :: p in r ==> p.0 < n && p.1 < |inp.rights|
  {
    if n == 0 then [] else PairsByRow(inp, n - 1) + RowPairs(inp, n - 1, |inp.rights|)
  }

  /** The matches of right row j among the first n left rows. */
  function ColPairs(inp: Input, n: nat, j: nat): (r: seq<(nat, nat)>)
    requires n <= |inp.lefts| && j < |inp.rights|
    ensures forall p :: p in r ==> p.0 < n && p.1 == j
  {
    if n == 0 then []
    else ColPairs(inp, n - 1, j) + if inp.Match(n - 1, j) then [(n - 1, j)] else []
  }

  /** Right row by right row, as a hash join does that was built on the left. */
  function PairsByCol(inp: Input, m: nat): (r: seq<(nat, nat)>)
    requires m <= |inp.rights|
    ensures forall p :: p in r ==> p.0 < |inp.lefts| && p.1 < m
  {
    if m == 0 then [] else PairsByCol(inp, m - 1) + ColPairs(inp, |inp.lefts|, m - 1)
  }

  /** The joined rows of some pairs. */
  function Joined(inp: Input, pairs: seq<(nat, nat)>): (r: seq<Parts>)
    requires forall p :: p in pairs ==> p.0 < |inp.lefts| && p.1 < |inp.rights|
    ensures |r| == |pairs|
  {
    if pairs == [] then [] else [inp.Pair(pairs[0].0, pairs[0].1)] + Joined(inp, pairs[1..])
  }

  /** Left rows without a match, among the first n. */
  function LoneLefts(inp: Input, n: nat): seq<Parts>
    requires n <= |inp.lefts|
  {
    if n == 0 then []
    else LoneLefts(inp, n - 1) + if inp.LeftMatched(n - 1) then [] else [inp.lefts[n - 1] + [None]]
  }

  function Nones(n: nat): Parts {
    if n == 0 then [] else Nones(n - 1) + [None]
  }

  function LoneRights(inp: Input, m: nat): seq<Parts>
    requires m <= |inp.rights|
  {
    if m == 0 then []
    else LoneRights(inp, m - 1) + if inp.RightMatched(m - 1) then [] else [Nones(inp.width) + [Some(inp.rights[m - 1])]]
  }

  /** The rows an outer join adds. */
  function Outer(inp: Input, kind: Kind): seq<Parts> {
    (if kind.LeftOuter? || kind.FullOuter? then LoneLefts(inp, |inp.lefts|) else []) +
    (if kind.RightOuter? || kind.FullOuter? then LoneRights(inp, |inp.rights|) else [])
  }

  /** The meaning of a join. */
  function NestedLoop(inp: Input, kind: Kind): seq<Parts> {
    Joined(inp, PairsByRow(inp, |inp.lefts|)) + Outer(inp, kind)
  }

  // ---- both orders have the same pairs -----------------------------------------------------

  function Once(b: bool): nat {
    if b then 1 else 0
  }

  lemma CountMore(s: seq<(nat, nat)>, x: (nat, nat), p: (nat, nat))
    ensures multiset(s + [x])[p] == multiset(s)[p] + Once(x == p)
  {
  }

  lemma {:induction false} CountRow(inp: Input, i: nat, m: nat, p: (nat, nat))
    requires i < |inp.lefts| && m <= |inp.rights|
    ensures multiset(RowPairs(inp, i, m))[p] == Once(p.0 == i && p.1 < m && inp.Match(i, p.1))
    decreases m
  {
    hide Input.Match;
    if m > 0 {
      CountRow(inp, i, m - 1, p);
      CountMore(RowPairs(inp, i, m - 1), (i, m - 1), p);
      assert RowPairs(inp, i, m - 1) + [] == RowPairs(inp, i, m - 1);
    }
  }

  lemma {:induction false} CountByRow(inp: Input, n: nat, p: (nat, nat))
    requires n <= |inp.lefts|
    ensures multiset(PairsByRow(inp, n))[p] == Once(p.0 < n && p.1 < |inp.rights| && inp.Match(p.0, p.1))
    decreases n
  {
    hide RowPairs, Input.Match;
    if n > 0 {
      CountByRow(inp, n - 1, p);
      CountRow(inp, n - 1, |inp.rights|, p);
    }
  }

  lemma {:induction false} CountCol(inp: Input, n: nat, j: nat, p: (nat, nat))
    requires n <= |inp.lefts| && j < |inp.rights|
    ensures multiset(ColPairs(inp, n, j))[p] == Once(p.1 == j && p.0 < n && inp.Match(p.0, j))
    decreases n
  {
    hide Input.Match;
    if n > 0 {
      CountCol(inp, n - 1, j, p);
      CountMore(ColPairs(inp, n - 1, j), (n - 1, j), p);
      assert ColPairs(inp, n - 1, j) + [] == ColPairs(inp, n - 1, j);
    }
  }

  lemma {:induction false} CountByCol(inp: Input, m: nat, p: (nat, nat))
    requires m <= |inp.rights|
    ensures multiset(PairsByCol(inp, m))[p] == Once(p.0 < |inp.lefts| && p.1 < m && inp.Match(p.0, p.1))
    decreases m
  {
    hide ColPairs, Input.Match;
    if m > 0 {
      CountByCol(inp, m - 1, p);
      CountCol(inp, |inp.lefts|, m - 1, p);
    }
  }

  lemma SamePairs(inp: Input)
    ensures multiset(PairsByRow(inp, |inp.lefts|)) == multiset(PairsByCol(inp, |inp.rights|))
  {
    forall p: (nat, nat)
      ensures multiset(PairsByRow(inp, |inp.lefts|))[p] == multiset(PairsByCol(inp, |inp.rights|))[p]
    {
      CountByRow(inp, |inp.lefts|, p);
      CountByCol(inp, |inp.rights|, p);
    }
  }

  lemma {:induction false} JoinedConcat(inp: Input, a: seq<(nat, nat)>, b: seq<(nat, nat)>)
    requires forall p :: p in a ==> p.0 < |inp.lefts| && p.1 < |inp.rights|
    requires forall p :: p in b ==> p.0 < |inp.lefts| && p.1 < |inp.rights|
    ensures Joined(inp, a + b) == Joined(inp, a) + Joined(inp, b)
    decreases |a|
  {
    if a == [] {
      assert a + b == b;
    } else {
      assert (a + b)[1..] == a[1..] + b;
      JoinedConcat(inp, a[1..], b);
    }
  }

  /** Permuting the pairs permutes the joined rows. */
  lemma {:induction false} JoinedPermutes(inp: Input, a: seq<(nat, nat)>, b: seq<(nat, nat)>)
    requires multiset(a) == multiset(b)
    requires forall p :: p in a ==> p.0 < |inp.lefts| && p.1 < |inp.rights|
    requires forall p :: p in b ==> p.0 < |inp.lefts| && p.1 < |inp.rights|
    ensures multiset(Joined(inp, a)) == multiset(Joined(inp, b))
    decreases |a|
  {
    hide *;
    if a == [] {
      assert |b| == |multiset(b)| == |multiset(a)| == 0;
    } else {
      var k := FindFirst(a, b);
      JoinedTakeOut(inp, a, 0);
      JoinedTakeOut(inp, b, k);
      JoinedPermutes(inp, a[..0] + a[1..], b[..k] + b[k + 1..]);
    }
  }

  /** Where the first element of a stands in its permutation b. */
  lemma FindFirst<T>(a: seq<T>, b: seq<T>) returns (k: nat)
    requires multiset(a) == multiset(b) && a != []
    ensures k < |b| && b[k] == a[0]
    ensures multiset(a[..0] + a[1..]) == multiset(b[..k] + b[k + 1..])
  {
    assert a[0] in multiset(a) && a[0] in multiset(b);
    k :| 0 <= k < |b| && b[k] == a[0];
    TakeOut(a, 0);
    TakeOut(b, k);
  }

  lemma TakeOut<T>(s: seq<T>, k: nat)
    requires k < |s|
    ensures multiset(s[..k] + s[k + 1..]) == multiset(s) - multiset{s[k]}
  {
    Bytes.Parts(s, k);
  }

  lemma JoinedTakeOut(inp: Input, s: seq<(nat, nat)>, k: nat)
    requires k < |s| && forall p :: p in s ==> p.0 < |inp.lefts| && p.1 < |inp.rights|
    ensures multiset(Joined(inp, s)) == multiset(Joined(inp, s[..k] + s[k + 1..])) + multiset{inp.Pair(s[k].0, s[k].1)}
  {
    assert Joined(inp, [s[k]]) == [inp.Pair(s[k].0, s[k].1)];
    hide Joined;
    Bytes.Parts(s, k);
    JoinedConcat(inp, s[..k] + [s[k]], s[k + 1..]);
    JoinedConcat(inp, s[..k], [s[k]]);
    JoinedConcat(inp, s[..k], s[k + 1..]);
  }

  function Matches(inp: Input): set<(nat, nat)> {
    set i: nat, j: nat | i < |inp.lefts| && j < |inp.rights| && inp.Match(i, j) :: (i, j)
  }

  /** Left rows without a match, among the first n, as a set of indices. */
  function LonelyLefts(inp: Input, n: nat): set<nat>
    requires n <= |inp.lefts|
  {
    set i: nat | i < n && !inp.LeftMatched(i)
  }

  function LonelyRights(inp: Input, m: nat): set<nat>
    requires m <= |inp.rights|
  {
    set j: nat | j < m && !inp.RightMatched(j)
  }

  /** The number of rows: the matches, and the rows without one as the kind asks. */
  lemma RowCount(inp: Input, kind: Kind)
    ensures |NestedLoop(inp, kind)| ==
      |Matches(inp)|
      + (if kind.LeftOuter? || kind.FullOuter? then |LonelyLefts(inp, |inp.lefts|)| else 0)
      + (if kind.RightOuter? || kind.FullOuter? then |LonelyRights(inp, |inp.rights|)| else 0)
  {
    CountMatches(inp);
    CountLoneLefts(inp, |inp.lefts|);
    CountLoneRights(inp, |inp.rights|);
    hide PairsByRow, LoneLefts, LoneRights, Joined, Matches, LonelyLefts, LonelyRights;
  }

  lemma CountMatches(inp: Input)
    ensures |PairsByRow(inp, |inp.lefts|)| == |Matches(inp)|
  {
    hide PairsByRow;
    var pairs, matches := PairsByRow(inp, |inp.lefts|), Matches(inp);
    forall p: (nat, nat)
      ensures multiset(pairs)[p] == multiset(matches)[p]
    {
      CountByRow(inp, |inp.lefts|, p);
      assert p in matches <==> p.0 < |inp.lefts| && p.1 < |inp.rights| && inp.Match(p.0, p.1);
    }
    assert multiset(pairs) == multiset(matches);
    assert |multiset(matches)| == |matches| && |multiset(pairs)| == |pairs|;
  }

  lemma {:induction false} CountLoneLefts(inp: Input, n: nat)
    requires n <= |inp.lefts|
    ensures |LoneLefts(inp, n)| == |LonelyLefts(inp, n)|
    decreases n
  {
    if n > 0 {
      CountLoneLefts(inp, n - 1);
      var a := LonelyLefts(inp, n - 1);
      assert LonelyLefts(inp, n) == if inp.LeftMatched(n - 1) then a else a + {n - 1};
    } else {
      assert LonelyLefts(inp, n) == {};
    }
  }

  lemma {:induction false} CountLoneRights(inp: Input, m: nat)
    requires m <= |inp.rights|
    ensures |LoneRights(inp, m)| == |LonelyRights(inp, m)|
    decreases m
  {
    if m > 0 {
      CountLoneRights(inp, m - 1);
      var a := LonelyRights(inp, m - 1);
      assert LonelyRights(inp, m) == if inp.RightMatched(m - 1) then a else a + {m - 1};
    } else {
      assert LonelyRights(inp, m) == {};
    }
  }

  // ---- keys ---------------------------------------------------------------------------------

  /** A dictionary key: True and 1 are the same one. */
  datatype Key = KeyInt(i: int) | KeyStr(s: string)

  function KeyOf(v: Value): Key {
    if v.Str? then KeyStr(v.s) else KeyInt(AsInt(v))
  }

  /** Keys are the same if and only if the values compare equal. */
  lemma KeysAreEquality(a: Value, b: Value)
    requires a != Null && b != Null
    ensures KeyOf(a) == KeyOf(b) <==> Equal(a, b)
  {
  }

  /** The columns of an extracted equality: a value of the left rows and one of the new
      row; the planner found it in the ON condition. */
  datatype Equi = Equi(acc: Parts -> Value, fresh': Row -> Value)

  /** A pair can match only if both values are there and have the same key. */
  ghost predicate Forced(inp: Input, eq: Equi) {
    forall i, j :: 0 <= i < |inp.lefts| && 0 <= j < |inp.rights| && inp.Match(i, j) ==>
      var a, b := eq.acc(inp.lefts[i]), eq.fresh'(inp.rights[j]);
      a != Null && b != Null && KeyOf(a) == KeyOf(b)
  }

  // ---- the hash join -----------------------------------------------------------------------------

  /** The bucket of a key: the positions below n of rows with that key, in order. */
  function Bucket(keys: seq<Option<Key>>, k: Key, n: nat): (r: seq<nat>)
    requires n <= |keys|
    ensures Below(r, n)
  {
    if n == 0 then [] else Bucket(keys, k, n - 1) + if keys[n - 1] == Some(k) then [n - 1] else []
  }

  function KeyIf(v: Value): Option<Key> {
    if v == Null then None else Some(KeyOf(v))
  }

  /** A table holds the bucket of every key, as far as the first n rows go. */
  ghost predicate TableOver(table: map<Key, seq<nat>>, keys: seq<Option<Key>>, n: nat)
    requires n <= |keys|
  {
    forall k :: Found(table, k) == Bucket(keys, k, n)
  }

  /** `table.get(k, [])` */
  function Found(table: map<Key, seq<nat>>, k: Key): seq<nat> {
    if k in table then table[k] else []
  }

  lemma TableMore(table: map<Key, seq<nat>>, keys: seq<Option<Key>>, n: nat)
    requires n < |keys| && TableOver(table, keys, n)
    ensures TableOver(if keys[n].None? then table else table[keys[n].value := Found(table, keys[n].value) + [n]],
                      keys, n + 1)
  {
    var table' := if keys[n].None? then table else table[keys[n].value := Found(table, keys[n].value) + [n]];
    forall k
      ensures Found(table', k) == Bucket(keys, k, n + 1)
    {
      assert Found(table, k) == Bucket(keys, k, n);
    }
  }

  /** The table a hash join builds over one side. */
  method BuildTable(keys: seq<Option<Key>>) returns (table: map<Key, seq<nat>>)
    ensures TableOver(table, keys, |keys|)
  {
    table := map[];
    NoBuckets(keys);
    hide TableOver;
    for i := 0 to |keys|
      invariant TableOver(table, keys, i)
    {
      TableMore(table, keys, i);
      if keys[i].Some? {
        var k := keys[i].value;
        table := table[k := Found(table, k) + [i]];
      }
    }
  }

  lemma NoBuckets(keys: seq<Option<Key>>)
    ensures TableOver(map[], keys, 0)
  {
  }

  // ---- probing a bucket --------------------------------------------------------------------------

  predicate Below(s: seq<nat>, n: nat) {
    forall x :: 0 <= x < |s| ==> s[x] < n
  }

  /** The matches of left row i among some right rows. */
  function RowAmong(inp: Input, i: nat, js: seq<nat>): seq<(nat, nat)>
    requires i < |inp.lefts| && Below(js, |inp.rights|)
  {
    if js == [] then []
    else
      var n := |js| - 1;
      RowAmong(inp, i, js[..n]) + if inp.Match(i, js[n]) then [(i, js[n])] else []
  }

  function ColAmong(inp: Input, ks: seq<nat>, j: nat): seq<(nat, nat)>
    requires j < |inp.rights| && Below(ks, |inp.lefts|)
  {
    if ks == [] then []
    else
      var n := |ks| - 1;
      ColAmong(inp, ks[..n], j) + if inp.Match(ks[n], j) then [(ks[n], j)] else []
  }

  lemma RowAmongMore(inp: Input, i: nat, js: seq<nat>, j: nat)
    requires i < |inp.lefts| && j < |inp.rights| && Below(js, |inp.rights|)
    ensures RowAmong(inp, i, js + [j]) == RowAmong(inp, i, js) + if inp.Match(i, j) then [(i, j)] else []
  {
    assert (js + [j])[..|js|] == js;
  }

  lemma ColAmongMore(inp: Input, ks: seq<nat>, i: nat, j: nat)
    requires i < |inp.lefts| && j < |inp.rights| && Below(ks, |inp.lefts|)
    ensures ColAmong(inp, ks + [i], j) == ColAmong(inp, ks, j) + if inp.Match(i, j) then [(i, j)] else []
  {
    assert (ks + [i])[..|ks|] == ks;
  }

  function RightKeys(inp: Input, eq: Equi): seq<Option<Key>> {
    seq(|inp.rights|, j requires 0 <= j < |inp.rights| => KeyIf(eq.fresh'(inp.rights[j])))
  }

  function LeftKeys(inp: Input, eq: Equi): seq<Option<Key>> {
    seq(|inp.lefts|, i requires 0 <= i < |inp.lefts| => KeyIf(eq.acc(inp.lefts[i])))
  }

  /** Outside its bucket a row has no match. */
  lemma {:induction false} BucketIsRow(inp: Input, eq: Equi, i: nat, m: nat)
    requires Forced(inp, eq) && i < |inp.lefts| && m <= |inp.rights|
    ensures var k := KeyIf(eq.acc(inp.lefts[i]));
      RowPairs(inp, i, m) == if k.None? then [] else RowAmong(inp, i, Bucket(RightKeys(inp, eq), k.value, m))
    decreases m
  {
    hide *;
    var k, keys := KeyIf(eq.acc(inp.lefts[i])), RightKeys(inp, eq);
    NothingAmong(inp, i);
    KeyForced(inp, eq, i, if m > 0 then m - 1 else 0);
    RowPairsStep(inp, i, m);
    if m > 0 {
      BucketIsRow(inp, eq, i, m - 1);
    }
    if k.Some? {
      BucketStep(keys, k.value, m);
      if m > 0 && keys[m - 1] == k {
        BelowMore(Bucket(keys, k.value, m - 1), m - 1, |inp.rights|);
        RowAmongMore(inp, i, Bucket(keys, k.value, m - 1), m - 1);
      }
    }
  }

  lemma BelowMore(s: seq<nat>, n: nat, m: nat)
    requires Below(s, n) && n <= m
    ensures Below(s, m)
  {
  }

  /** A match has the key of its left row. */
  lemma KeyForced(inp: Input, eq: Equi, i: nat, j: nat)
    requires Forced(inp, eq) && i < |inp.lefts|
    ensures |RightKeys(inp, eq)| == |inp.rights|
    ensures j < |inp.rights| && inp.Match(i, j) ==>
      KeyIf(eq.acc(inp.lefts[i])).Some? && RightKeys(inp, eq)[j] == KeyIf(eq.acc(inp.lefts[i]))
  {
    hide Input.Match;
  }

  lemma RowPairsStep(inp: Input, i: nat, m: nat)
    requires i < |inp.lefts| && m <= |inp.rights|
    ensures m == 0 ==> RowPairs(inp, i, m) == []
    ensures m > 0 && inp.Match(i, m - 1) ==> RowPairs(inp, i, m) == RowPairs(inp, i, m - 1) + [(i, m - 1)]
    ensures m > 0 && !inp.Match(i, m - 1) ==> RowPairs(inp, i, m) == RowPairs(inp, i, m - 1)
  {
    hide Input.Match;
  }

  lemma BucketStep(keys: seq<Option<Key>>, k: Key, n: nat)
    requires n <= |keys|
    ensures n == 0 ==> Bucket(keys, k, n) == []
    ensures n > 0 && keys[n - 1] == Some(k) ==> Bucket(keys, k, n) == Bucket(keys, k, n - 1) + [n - 1]
    ensures n > 0 && keys[n - 1] != Some(k) ==> Bucket(keys, k, n) == Bucket(keys, k, n - 1)
  {
  }

  lemma {:induction false} BucketIsCol(inp: Input, eq: Equi, n: nat, j: nat)
    requires Forced(inp, eq) && n <= |inp.lefts| && j < |inp.rights|
    ensures var k := KeyIf(eq.fresh'(inp.rights[j]));
      ColPairs(inp, n, j) == if k.None? then [] else ColAmong(inp, Bucket(LeftKeys(inp, eq), k.value, n), j)
    decreases n
  {
    hide *;
    var k, keys := KeyIf(eq.fresh'(inp.rights[j])), LeftKeys(inp, eq);
    NothingAmongCol(inp, j);
    ColKeyForced(inp, eq, if n > 0 then n - 1 else 0, j);
    ColPairsStep(inp, n, j);
    if n > 0 {
      BucketIsCol(inp, eq, n - 1, j);
    }
    if k.Some? {
      BucketStep(keys, k.value, n);
      if n > 0 && keys[n - 1] == k {
        BelowMore(Bucket(keys, k.value, n - 1), n - 1, |inp.lefts|);
        ColAmongMore(inp, Bucket(keys, k.value, n - 1), n - 1, j);
      }
    }
  }

  /** A match has the key of its right row. */
  lemma ColKeyForced(inp: Input, eq: Equi, i: nat, j: nat)
    requires Forced(inp, eq) && j < |inp.rights|
    ensures |LeftKeys(inp, eq)| == |inp.lefts|
    ensures i < |inp.lefts| && inp.Match(i, j) ==>
      KeyIf(eq.fresh'(inp.rights[j])).Some? && LeftKeys(inp, eq)[i] == KeyIf(eq.fresh'(inp.rights[j]))
  {
    hide Input.Match;
  }

  lemma ColPairsStep(inp: Input, n: nat, j: nat)
    requires n <= |inp.lefts| && j < |inp.rights|
    ensures n == 0 ==> ColPairs(inp, n, j) == []
    ensures n > 0 && inp.Match(n - 1, j) ==> ColPairs(inp, n, j) == ColPairs(inp, n - 1, j) + [(n - 1, j)]
    ensures n > 0 && !inp.Match(n - 1, j) ==> ColPairs(inp, n, j) == ColPairs(inp, n - 1, j)
  {
    hide Input.Match;
  }

  /** What the joined rows so far, and the two matched sets, say. */
  ghost predicate Progress(inp: Input, out: seq<Parts>, matchedLeft: set<nat>, matchedRight: set<nat>,
                           pairs: seq<(nat, nat)>) {
    && (forall p :: p in pairs ==> p.0 < |inp.lefts| && p.1 < |inp.rights|)
    && out == Joined(inp, pairs)
    && matchedLeft == (set p | p in pairs :: p.0)
    && matchedRight == (set p | p in pairs :: p.1)
  }

  lemma ProgressMore(inp: Input, out: seq<Parts>, ml: set<nat>, mr: set<nat>, pairs: seq<(nat, nat)>, i: nat, j: nat)
    requires Progress(inp, out, ml, mr, pairs) && i < |inp.lefts| && j < |inp.rights|
    ensures Progress(inp, out + [inp.Pair(i, j)], ml + {i}, mr + {j}, pairs + [(i, j)])
  {
    JoinedConcat(inp, pairs, [(i, j)]);
    assert Joined(inp, [(i, j)]) == [inp.Pair(i, j)];
  }

  // ---- exceptions -------------------------------------------------------------------------------

  /** Whether the ON condition is evaluated on a pair: on every pair in a nested loop, on
      pairs with the same key in a hash join. */
  predicate Meets(equi: Option<Equi>, l: Parts, r: Row) {
    equi.None? ||
    var k := KeyIf(equi.value.acc(l));
    k.Some? && KeyIf(equi.value.fresh'(r)) == k
  }

  predicate Tested(inp: Input, equi: Option<Equi>, i: nat, j: nat)
    requires i < |inp.lefts| && j < |inp.rights|
  {
    Meets(equi, inp.lefts[i], inp.rights[j])
  }

  /** `raises` says on which rows the ON condition raises an exception. */
  ghost predicate JoinRaises(inp: Input, raises: Parts -> bool, equi: Option<Equi>) {
    exists i, j :: 0 <= i < |inp.lefts| && 0 <= j < |inp.rights| && Tested(inp, equi, i, j) && raises(inp.Pair(i, j))
  }

  ghost predicate CalmRow(inp: Input, raises: Parts -> bool, equi: Option<Equi>, i: nat)
    requires i < |inp.lefts|
  {
    forall j :: 0 <= j < |inp.rights| && Tested(inp, equi, i, j) ==> !raises(inp.Pair(i, j))
  }

  ghost predicate CalmCol(inp: Input, raises: Parts -> bool, equi: Option<Equi>, j: nat)
    requires j < |inp.rights|
  {
    forall i :: 0 <= i < |inp.lefts| && Tested(inp, equi, i, j) ==> !raises(inp.Pair(i, j))
  }

  ghost predicate CalmAmongRow(inp: Input, raises: Parts -> bool, i: nat, js: seq<nat>)
    requires i < |inp.lefts| && Below(js, |inp.rights|)
  {
    forall x :: 0 <= x < |js| ==> !raises(inp.Pair(i, js[x]))
  }

  ghost predicate CalmAmongCol(inp: Input, raises: Parts -> bool, ks: seq<nat>, j: nat)
    requires j < |inp.rights| && Below(ks, |inp.lefts|)
  {
    forall x :: 0 <= x < |ks| ==> !raises(inp.Pair(ks[x], j))
  }

  /** The bucket of a key has exactly the rows with that key. */
  lemma {:induction false} BucketHolds(keys: seq<Option<Key>>, k: Key, n: nat, x: nat)
    requires n <= |keys|
    ensures x in Bucket(keys, k, n) <==> x < n && keys[x] == Some(k)
    decreases n
  {
    if n > 0 {
      BucketHolds(keys, k, n - 1, x);
    }
  }

  /** Probing the bucket of a left row tests exactly the pairs that a hash join tests. */
  lemma BucketTestsRow(inp: Input, raises: Parts -> bool, eq: Equi, i: nat)
    requires i < |inp.lefts|
    ensures var k := KeyIf(eq.acc(inp.lefts[i]));
      CalmRow(inp, raises, Some(eq), i) <==>
      k.None? || CalmAmongRow(inp, raises, i, Bucket(RightKeys(inp, eq), k.value, |inp.rights|))
  {
    var k, keys := KeyIf(eq.acc(inp.lefts[i])), RightKeys(inp, eq);
    if k.Some? {
      var js := Bucket(keys, k.value, |inp.rights|);
      forall j: nat | j < |inp.rights|
        ensures j in js <==> Tested(inp, Some(eq), i, j)
      {
        BucketHolds(keys, k.value, |inp.rights|, j);
        assert keys[j] == KeyIf(eq.fresh'(inp.rights[j]));
      }
      hide Bucket, Tested, RightKeys, KeyIf;
      if CalmRow(inp, raises, Some(eq), i) {
        forall x | 0 <= x < |js|
          ensures !raises(inp.Pair(i, js[x]))
        {
          assert js[x] in js;
        }
      }
      if CalmAmongRow(inp, raises, i, js) {
        forall j | 0 <= j < |inp.rights| && Tested(inp, Some(eq), i, j)
          ensures !raises(inp.Pair(i, j))
        {
          var x :| 0 <= x < |js| && js[x] == j;
        }
      }
    }
  }

  lemma BucketTestsCol(inp: Input, raises: Parts -> bool, eq: Equi, j: nat)
    requires j < |inp.rights|
    ensures var k := KeyIf(eq.fresh'(inp.rights[j]));
      CalmCol(inp, raises, Some(eq), j) <==>
      k.None? || CalmAmongCol(inp, raises, Bucket(LeftKeys(inp, eq), k.value, |inp.lefts|), j)
  {
    var k, keys := KeyIf(eq.fresh'(inp.rights[j])), LeftKeys(inp, eq);
    if k.Some? {
      var ks := Bucket(keys, k.value, |inp.lefts|);
      forall i: nat | i < |inp.lefts|
        ensures i in ks <==> Tested(inp, Some(eq), i, j)
      {
        BucketHolds(keys, k.value, |inp.lefts|, i);
        assert keys[i] == KeyIf(eq.acc(inp.lefts[i]));
      }
      hide Bucket, Tested, LeftKeys, KeyIf;
      if CalmCol(inp, raises, Some(eq), j) {
        forall x | 0 <= x < |ks|
          ensures !raises(inp.Pair(ks[x], j))
        {
          assert ks[x] in ks;
        }
      }
      if CalmAmongCol(inp, raises, ks, j) {
        forall i | 0 <= i < |inp.lefts| && Tested(inp, Some(eq), i, j)
          ensures !raises(inp.Pair(i, j))
        {
          var x :| 0 <= x < |ks| && ks[x] == i;
        }
      }
    }
  }

  ghost predicate CalmRows(inp: Input, raises: Parts -> bool, equi: Option<Equi>, n: nat)
    requires n <= |inp.lefts|
  {
    forall i :: 0 <= i < n ==> CalmRow(inp, raises, equi, i)
  }

  ghost predicate CalmCols(inp: Input, raises: Parts -> bool, equi: Option<Equi>, m: nat)
    requires m <= |inp.rights|
  {
    forall j :: 0 <= j < m ==> CalmCol(inp, raises, equi, j)
  }

  /** Row by row or column by column, a join raises if and only if some pair does. */
  lemma CalmJoin(inp: Input, raises: Parts -> bool, equi: Option<Equi>)
    ensures JoinRaises(inp, raises, equi) <==> !CalmRows(inp, raises, equi, |inp.lefts|)
    ensures JoinRaises(inp, raises, equi) <==> !CalmCols(inp, raises, equi, |inp.rights|)
  {
    hide Tested, Meets;
    if JoinRaises(inp, raises, equi) {
      var i, j :| 0 <= i < |inp.lefts| && 0 <= j < |inp.rights| && Tested(inp, equi, i, j) && raises(inp.Pair(i, j));
      assert !CalmRow(inp, raises, equi, i) && !CalmCol(inp, raises, equi, j);
    }
    if !CalmRows(inp, raises, equi, |inp.lefts|) {
      var i :| 0 <= i < |inp.lefts| && !CalmRow(inp, raises, equi, i);
    }
    if !CalmCols(inp, raises, equi, |inp.rights|) {
      var j :| 0 <= j < |inp.rights| && !CalmCol(inp, raises, equi, j);
    }
  }

  lemma RowRaises(inp: Input, raises: Parts -> bool, equi: Option<Equi>, i: nat)
    requires i < |inp.lefts| && !CalmRow(inp, raises, equi, i)
    ensures JoinRaises(inp, raises, equi)
  {
    hide Tested, Meets;
  }

  lemma ColRaises(inp: Input, raises: Parts -> bool, equi: Option<Equi>, j: nat)
    requires j < |inp.rights| && !CalmCol(inp, raises, equi, j)
    ensures JoinRaises(inp, raises, equi)
  {
    hide Tested, Meets;
  }

  class Joiner {
    const inp: Input
    const raises: Parts -> bool
    var out: seq<Parts>
    var matchedLeft: set<nat>
    var matchedRight: set<nat>
    ghost var pairs: seq<(nat, nat)>

    ghost predicate Valid()
      reads this
    {
      Progress(inp, out, matchedLeft, matchedRight, pairs)
    }

    constructor (inp: Input, raises: Parts -> bool)
      ensures Valid() && this.inp == inp && this.raises == raises && pairs == []
    {
      this.inp, this.raises := inp, raises;
      out, matchedLeft, matchedRight, pairs := [], {}, {}, [];
    }

    /** `match`; false is an exception of the ON condition. */
    method Match(i: nat, j: nat) returns (ok: bool)
      requires Valid() && i < |inp.lefts| && j < |inp.rights|
      modifies `out, `matchedLeft, `matchedRight, `pairs
      ensures Valid() && ok == !raises(inp.Pair(i, j))
      ensures pairs == old(pairs) + if ok && inp.Match(i, j) then [(i, j)] else []
    {
      hide Progress;
      var cand := inp.lefts[i] + [Some(inp.rights[j])];
      ok := !raises(cand);
      if ok && inp.on(cand) {
        ProgressMore(inp, out, matchedLeft, matchedRight, pairs, i, j);
        out := out + [cand];
        matchedLeft := matchedLeft + {i};
        matchedRight := matchedRight + {j};
        pairs := pairs + [(i, j)];
      }
      assert pairs == old(pairs) + [] || (ok && inp.Match(i, j));
    }

    /** One left row against some right rows */
    method MatchRow(i: nat, js: seq<nat>) returns (ok: bool)
      requires Valid() && i < |inp.lefts| && Below(js, |inp.rights|)
      modifies `out, `matchedLeft, `matchedRight, `pairs
      ensures Valid() && ok == CalmAmongRow(inp, raises, i, js)
      ensures ok ==> pairs == old(pairs) + RowAmong(inp, i, js)
    {
      hide Progress, RowAmong, Input.Match;
      NothingAmong(inp, i);
      assert js[..0] == [];
      for x := 0 to |js|
        invariant Valid() && pairs == old(pairs) + RowAmong(inp, i, js[..x])
        invariant forall y :: 0 <= y < x ==> !raises(inp.Pair(i, js[y]))
      {
        RowAmongMore(inp, i, js[..x], js[x]);
        assert js[..x + 1] == js[..x] + [js[x]];
        var matched := Match(i, js[x]);
        if !matched {
          return false;
        }
      }
      assert js[..|js|] == js;
      return true;
    }

    /** One right row against some left rows */
    method MatchCol(ks: seq<nat>, j: nat) returns (ok: bool)
      requires Valid() && j < |inp.rights| && Below(ks, |inp.lefts|)
      modifies `out, `matchedLeft, `matchedRight, `pairs
      ensures Valid() && ok == CalmAmongCol(inp, raises, ks, j)
      ensures ok ==> pairs == old(pairs) + ColAmong(inp, ks, j)
    {
      hide Progress, ColAmong, Input.Match;
      NothingAmongCol(inp, j);
      assert ks[..0] == [];
      for x := 0 to |ks|
        invariant Valid() && pairs == old(pairs) + ColAmong(inp, ks[..x], j)
        invariant forall y :: 0 <= y < x ==> !raises(inp.Pair(ks[y], j))
      {
        ColAmongMore(inp, ks[..x], ks[x], j);
        assert ks[..x + 1] == ks[..x] + [ks[x]];
        var matched := Match(ks[x], j);
        if !matched {
          return false;
        }
      }
      assert ks[..|ks|] == ks;
      return true;
    }

    /** One left row against every right row */
    method MatchAll(i: nat) returns (ok: bool)
      requires Valid() && i < |inp.lefts|
      modifies `out, `matchedLeft, `matchedRight, `pairs
      ensures Valid() && ok == CalmRow(inp, raises, None, i)
      ensures ok ==> pairs == old(pairs) + RowPairs(inp, i, |inp.rights|)
    {
      hide Progress, Input.Match;
      for j := 0 to |inp.rights|
        invariant Valid() && pairs == old(pairs) + RowPairs(inp, i, j)
        invariant forall y :: 0 <= y < j ==> !raises(inp.Pair(i, y))
      {
        var matched := Match(i, j);
        if !matched {
          assert Tested(inp, None, i, j);
          return false;
        }
      }
      return true;
    }

    /** The plain nested loop */
    method Loop() returns (ok: bool)
      requires Valid() && pairs == []
      modifies `out, `matchedLeft, `matchedRight, `pairs
      ensures Valid() && ok == !JoinRaises(inp, raises, None)
      ensures ok ==> pairs == PairsByRow(inp, |inp.lefts|)
    {
      CalmJoin(inp, raises, None);
      hide Progress, RowPairs, CalmRow, CalmCol, JoinRaises;
      for i := 0 to |inp.lefts|
        invariant Valid() && pairs == PairsByRow(inp, i) && CalmRows(inp, raises, None, i)
      {
        var matched := MatchAll(i);
        if !matched {
          RowRaises(inp, raises, None, i);
          return false;
        }
      }
      return true;
    }

    /** The hash join with the table over the right rows: the pairs come in the order of
        the nested loop. */
    method HashRight(eq: Equi) returns (ok: bool)
      requires Valid() && pairs == [] && Forced(inp, eq)
      modifies `out, `matchedLeft, `matchedRight, `pairs
      ensures Valid() && ok == !JoinRaises(inp, raises, Some(eq))
      ensures ok ==> pairs == PairsByRow(inp, |inp.lefts|)
    {
      CalmJoin(inp, raises, Some(eq));
      hide Progress, RowPairs, RowAmong, Forced, Bucket, CalmRow, CalmCol, CalmAmongRow, JoinRaises;
      var keys := RightKeys(inp, eq);
      var table := BuildTable(keys);
      for i := 0 to |inp.lefts|
        invariant Valid() && pairs == PairsByRow(inp, i) && CalmRows(inp, raises, Some(eq), i)
      {
        var k := KeyIf(eq.acc(inp.lefts[i]));
        BucketIsRow(inp, eq, i, |inp.rights|);
        BucketTestsRow(inp, raises, eq, i);
        if k.Some? {
          assert Found(table, k.value) == Bucket(keys, k.value, |keys|);
          var matched := MatchRow(i, Found(table, k.value));
          if !matched {
            RowRaises(inp, raises, Some(eq), i);
            return false;
          }
        }
        assert PairsByRow(inp, i + 1) == PairsByRow(inp, i) + RowPairs(inp, i, |inp.rights|);
      }
      return true;
    }

    /** The hash join with the table over the left rows: the pairs come right row by right
        row. */
    method HashLeft(eq: Equi) returns (ok: bool)
      requires Valid() && pairs == [] && Forced(inp, eq)
      modifies `out, `matchedLeft, `matchedRight, `pairs
      ensures Valid() && ok == !JoinRaises(inp, raises, Some(eq))
      ensures ok ==> pairs == PairsByCol(inp, |inp.rights|)
    {
      CalmJoin(inp, raises, Some(eq));
      hide Progress, ColPairs, ColAmong, Forced, Bucket, CalmRow, CalmCol, CalmAmongCol, JoinRaises;
      var keys := LeftKeys(inp, eq);
      var table := BuildTable(keys);
      for j := 0 to |inp.rights|
        invariant Valid() && pairs == PairsByCol(inp, j) && CalmCols(inp, raises, Some(eq), j)
      {
        var k := KeyIf(eq.fresh'(inp.rights[j]));
        BucketIsCol(inp, eq, |inp.lefts|, j);
        BucketTestsCol(inp, raises, eq, j);
        if k.Some? {
          assert Found(table, k.value) == Bucket(keys, k.value, |keys|);
          var matched := MatchCol(Found(table, k.value), j);
          if !matched {
            ColRaises(inp, raises, Some(eq), j);
            return false;
          }
        }
        assert PairsByCol(inp, j + 1) == PairsByCol(inp, j) + ColPairs(inp, |inp.lefts|, j);
      }
      return true;
    }

    /** The left rows without a match */
    method AppendLefts(before: seq<Parts>) returns (r: seq<Parts>)
      requires forall i: nat :: i < |inp.lefts| ==> (i in matchedLeft <==> inp.LeftMatched(i))
      ensures r == before + LoneLefts(inp, |inp.lefts|)
    {
      hide Input.LeftMatched;
      r := before;
      for i := 0 to |inp.lefts|
        invariant r == before + LoneLefts(inp, i)
      {
        if i !in matchedLeft {
          r := r + [inp.lefts[i] + [None]];
        }
      }
    }

    /** The right rows without a match */
    method AppendRights(before: seq<Parts>) returns (r: seq<Parts>)
      requires forall j: nat :: j < |inp.rights| ==> (j in matchedRight <==> inp.RightMatched(j))
      ensures r == before + LoneRights(inp, |inp.rights|)
    {
      hide Input.RightMatched;
      r := before;
      for j := 0 to |inp.rights|
        invariant r == before + LoneRights(inp, j)
      {
        if j !in matchedRight {
          r := r + [Nones(inp.width) + [Some(inp.rights[j])]];
        }
      }
    }

    /** The end of `_join`: the rows without a match. */
    method Finish(kind: Kind) returns (r: seq<Parts>)
      requires Valid() && Complete(inp, pairs)
      ensures r == Joined(inp, pairs) + Outer(inp, kind)
    {
      MatchedSets(inp, out, matchedLeft, matchedRight, pairs);
      hide Progress, Complete, LoneLefts, LoneRights, Joined;
      r := out;
      if kind.LeftOuter? || kind.FullOuter? {
        r := AppendLefts(r);
      }
      if kind.RightOuter? || kind.FullOuter? {
        r := AppendRights(r);
      }
    }
  }

  lemma NothingAmong(inp: Input, i: nat)
    requires i < |inp.lefts|
    ensures RowAmong(inp, i, []) == []
  {
  }

  lemma NothingAmongCol(inp: Input, j: nat)
    requires j < |inp.rights|
    ensures ColAmong(inp, [], j) == []
  {
  }

  /** Every match is among the pairs. */
  ghost predicate Complete(inp: Input, pairs: seq<(nat, nat)>) {
    forall i: nat, j: nat :: (i, j) in pairs <==> i < |inp.lefts| && j < |inp.rights| && inp.Match(i, j)
  }

  lemma MatchedSets(inp: Input, out: seq<Parts>, ml: set<nat>, mr: set<nat>, pairs: seq<(nat, nat)>)
    requires Progress(inp, out, ml, mr, pairs) && Complete(inp, pairs)
    ensures out == Joined(inp, pairs)
    ensures forall i: nat :: i < |inp.lefts| ==> (i in ml <==> inp.LeftMatched(i))
    ensures forall j: nat :: j < |inp.rights| ==> (j in mr <==> inp.RightMatched(j))
  {
    forall i: nat | i < |inp.lefts|
      ensures i in ml <==> inp.LeftMatched(i)
    {
      if i in ml {
        var p :| p in pairs && p.0 == i;
        assert (p.0, p.1) in pairs;
      }
      if inp.LeftMatched(i) {
        var j :| 0 <= j < |inp.rights| && inp.Match(i, j);
        assert (i, j) in pairs;
      }
    }
    forall j: nat | j < |inp.rights|
      ensures j in mr <==> inp.RightMatched(j)
    {
      if j in mr {
        var p :| p in pairs && p.1 == j;
        assert (p.0, p.1) in pairs;
      }
      if inp.RightMatched(j) {
        var i :| 0 <= i < |inp.lefts| && inp.Match(i, j);
        assert (i, j) in pairs;
      }
    }
  }

  lemma RowsComplete(inp: Input)
    ensures Complete(inp, PairsByRow(inp, |inp.lefts|)) && Complete(inp, PairsByCol(inp, |inp.rights|))
  {
    hide Input.Match;
    forall i: nat, j: nat
      ensures (i, j) in PairsByRow(inp, |inp.lefts|) <==> i < |inp.lefts| && j < |inp.rights| && inp.Match(i, j)
      ensures (i, j) in PairsByCol(inp, |inp.rights|) <==> i < |inp.lefts| && j < |inp.rights| && inp.Match(i, j)
    {
      CountByRow(inp, |inp.lefts|, (i, j));
      CountByCol(inp, |inp.rights|, (i, j));
      hide PairsByRow, PairsByCol;
    }
  }

  // ---- how often each row is there ----------------------------------------------------------

  /** The pairs of rows that match and make the joined row x. */
  ghost function PairsMaking(inp: Input, x: Parts): set<(nat, nat)> {
    set i: nat, j: nat | i < |inp.lefts| && j < |inp.rights| && inp.on(inp.lefts[i] + [Some(inp.rights[j])]) &&
      inp.lefts[i] + [Some(inp.rights[j])] == x :: (i, j)
  }

  /** The left rows without a match that make x, with nothing on the right. */
  ghost function LeftsMaking(inp: Input, x: Parts): set<nat> {
    set i: nat | i < |inp.lefts| && inp.lefts[i] + [None] == x &&
      forall j :: 0 <= j < |inp.rights| ==> !inp.on(inp.lefts[i] + [Some(inp.rights[j])])
  }

  /** Nothing in all parts but the last, which is this row. */
  ghost predicate OnlyRight(x: Parts, width: nat, r: Row) {
    |x| == width + 1 && x[width] == Some(r) && forall k :: 0 <= k < width ==> x[k] == None
  }

  /** The right rows without a match that make x, with nothing on the left. */
  ghost function RightsMaking(inp: Input, x: Parts): set<nat> {
    set j: nat | j < |inp.rights| && OnlyRight(x, inp.width, inp.rights[j]) &&
      forall i :: 0 <= i < |inp.lefts| ==> !inp.on(inp.lefts[i] + [Some(inp.rights[j])])
  }

  /** How often a join has the row x. */
  ghost function Copies(inp: Input, kind: Kind, x: Parts): nat {
    |PairsMaking(inp, x)|
    + (if kind.LeftOuter? || kind.FullOuter? then |LeftsMaking(inp, x)| else 0)
    + (if kind.RightOuter? || kind.FullOuter? then |RightsMaking(inp, x)| else 0)
  }

  /** The pairs of left row i among the first m right rows. */
  ghost function RowMaking(inp: Input, i: nat, m: nat, x: Parts): set<(nat, nat)>
    requires i < |inp.lefts| && m <= |inp.rights|
  {
    set j: nat | j < m && inp.Match(i, j) && inp.Pair(i, j) == x :: (i, j)
  }

  /** Those of the first n left rows. */
  ghost function RowsMaking(inp: Input, n: nat, x: Parts): set<(nat, nat)>
    requires n <= |inp.lefts|
  {
    set i: nat, j: nat | i < n && j < |inp.rights| && inp.Match(i, j) && inp.Pair(i, j) == x :: (i, j)
  }

  lemma CountOne(rows: seq<Parts>, y: Parts, x: Parts)
    ensures multiset(rows + [y])[x] == multiset(rows)[x] + Once(y == x)
  {
  }

  lemma JoinedOne(inp: Input, p: (nat, nat))
    requires p.0 < |inp.lefts| && p.1 < |inp.rights|
    ensures Joined(inp, [p]) == [inp.Pair(p.0, p.1)]
  {
  }

  lemma {:induction false} CountRowMaking(inp: Input, i: nat, m: nat, x: Parts)
    requires i < |inp.lefts| && m <= |inp.rights|
    ensures multiset(Joined(inp, RowPairs(inp, i, m)))[x] == |RowMaking(inp, i, m, x)|
    decreases m
  {
    RowPairsStep(inp, i, m);
    RowMakingStep(inp, i, m, x);
    NoPairs(inp);
    hide *;
    if m > 0 {
      CountRowMaking(inp, i, m - 1, x);
      if inp.Match(i, m - 1) {
        JoinedConcat(inp, RowPairs(inp, i, m - 1), [(i, m - 1)]);
        JoinedOne(inp, (i, m - 1));
        CountOne(Joined(inp, RowPairs(inp, i, m - 1)), inp.Pair(i, m - 1), x);
      }
    }
  }

  lemma NoPairs(inp: Input)
    ensures Joined(inp, []) == []
  {
  }

  lemma RowMakingStep(inp: Input, i: nat, m: nat, x: Parts)
    requires i < |inp.lefts| && m <= |inp.rights|
    ensures m == 0 ==> RowMaking(inp, i, m, x) == {}
    ensures m > 0 ==>
      |RowMaking(inp, i, m, x)| == |RowMaking(inp, i, m - 1, x)| + Once(inp.Match(i, m - 1) && inp.Pair(i, m - 1) == x)
  {
    hide Input.Match, Input.Pair;
    if m > 0 {
      var a := RowMaking(inp, i, m - 1, x);
      assert RowMaking(inp, i, m, x) ==
        if inp.Match(i, m - 1) && inp.Pair(i, m - 1) == x then a + {(i, m - 1)} else a;
    }
  }

  lemma {:induction false} CountRowsMaking(inp: Input, n: nat, x: Parts)
    requires n <= |inp.lefts|
    ensures multiset(Joined(inp, PairsByRow(inp, n)))[x] == |RowsMaking(inp, n, x)|
    decreases n
  {
    hide *;
    RowsMakingStep(inp, n, x);
    if n == 0 {
      NoPairs(inp);
      PairsByRowFirst(inp);
    } else {
      CountRowsMaking(inp, n - 1, x);
      CountRowMaking(inp, n - 1, |inp.rights|, x);
      PairsByRowNext(inp, n);
      JoinedConcat(inp, PairsByRow(inp, n - 1), RowPairs(inp, n - 1, |inp.rights|));
      CountBoth(Joined(inp, PairsByRow(inp, n - 1)), Joined(inp, RowPairs(inp, n - 1, |inp.rights|)), x);
    }
  }

  lemma CountBoth(a: seq<Parts>, b: seq<Parts>, x: Parts)
    ensures multiset(a + b)[x] == multiset(a)[x] + multiset(b)[x]
  {
  }

  lemma PairsByRowFirst(inp: Input)
    ensures PairsByRow(inp, 0) == []
  {
  }

  lemma PairsByRowNext(inp: Input, n: nat)
    requires 0 < n <= |inp.lefts|
    ensures PairsByRow(inp, n) == PairsByRow(inp, n - 1) + RowPairs(inp, n - 1, |inp.rights|)
  {
    hide RowPairs;
  }

  lemma RowsMakingStep(inp: Input, n: nat, x: Parts)
    requires n <= |inp.lefts|
    ensures n == 0 ==> RowsMaking(inp, n, x) == {}
    ensures n > 0 ==>
      |RowsMaking(inp, n, x)| == |RowsMaking(inp, n - 1, x)| + |RowMaking(inp, n - 1, |inp.rights|, x)|
  {
    hide Input.Match, Input.Pair;
    if n > 0 {
      var a, b := RowsMaking(inp, n - 1, x), RowMaking(inp, n - 1, |inp.rights|, x);
      assert RowsMaking(inp, n, x) == a + b && a !! b;
    }
  }

  /** A left row without a match, that makes x. */
  predicate LeftMakes(inp: Input, i: nat, x: Parts)
    requires i < |inp.lefts|
  {
    !inp.LeftMatched(i) && inp.lefts[i] + [None] == x
  }

  predicate RightMakes(inp: Input, j: nat, x: Parts)
    requires j < |inp.rights|
  {
    !inp.RightMatched(j) && Nones(inp.width) + [Some(inp.rights[j])] == x
  }

  function LeftsUpTo(inp: Input, n: nat, x: Parts): set<nat>
    requires n <= |inp.lefts|
  {
    set i: nat | i < n && LeftMakes(inp, i, x)
  }

  function RightsUpTo(inp: Input, m: nat, x: Parts): set<nat>
    requires m <= |inp.rights|
  {
    set j: nat | j < m && RightMakes(inp, j, x)
  }

  lemma LeftsUpToStep(inp: Input, n: nat, x: Parts)
    requires n <= |inp.lefts|
    ensures n == 0 ==> LeftsUpTo(inp, n, x) == {}
    ensures n > 0 ==> |LeftsUpTo(inp, n, x)| == |LeftsUpTo(inp, n - 1, x)| + Once(LeftMakes(inp, n - 1, x))
  {
    hide LeftMakes;
    if n > 0 {
      var a := LeftsUpTo(inp, n - 1, x);
      assert LeftsUpTo(inp, n, x) == if LeftMakes(inp, n - 1, x) then a + {n - 1} else a;
    }
  }

  lemma RightsUpToStep(inp: Input, m: nat, x: Parts)
    requires m <= |inp.rights|
    ensures m == 0 ==> RightsUpTo(inp, m, x) == {}
    ensures m > 0 ==> |RightsUpTo(inp, m, x)| == |RightsUpTo(inp, m - 1, x)| + Once(RightMakes(inp, m - 1, x))
  {
    hide RightMakes;
    if m > 0 {
      var a := RightsUpTo(inp, m - 1, x);
      assert RightsUpTo(inp, m, x) == if RightMakes(inp, m - 1, x) then a + {m - 1} else a;
    }
  }

  lemma LoneLeftsStep(inp: Input, n: nat, x: Parts)
    requires n <= |inp.lefts|
    ensures n == 0 ==> LoneLefts(inp, n) == []
    ensures n > 0 ==>
      multiset(LoneLefts(inp, n))[x] == multiset(LoneLefts(inp, n - 1))[x] + Once(LeftMakes(inp, n - 1, x))
  {
    hide Input.LeftMatched;
    if n > 0 {
      CountOne(LoneLefts(inp, n - 1), inp.lefts[n - 1] + [None], x);
      assert LoneLefts(inp, n - 1) + [] == LoneLefts(inp, n - 1);
    }
  }

  lemma LoneRightsStep(inp: Input, m: nat, x: Parts)
    requires m <= |inp.rights|
    ensures m == 0 ==> LoneRights(inp, m) == []
    ensures m > 0 ==>
      multiset(LoneRights(inp, m))[x] == multiset(LoneRights(inp, m - 1))[x] + Once(RightMakes(inp, m - 1, x))
  {
    hide Input.RightMatched, Nones;
    if m > 0 {
      CountOne(LoneRights(inp, m - 1), Nones(inp.width) + [Some(inp.rights[m - 1])], x);
      assert LoneRights(inp, m - 1) + [] == LoneRights(inp, m - 1);
    }
  }

  lemma {:induction false} CountLeftsMaking(inp: Input, n: nat, x: Parts)
    requires n <= |inp.lefts|
    ensures multiset(LoneLefts(inp, n))[x] == |LeftsUpTo(inp, n, x)|
    decreases n
  {
    hide *;
    LeftsUpToStep(inp, n, x);
    LoneLeftsStep(inp, n, x);
    if n > 0 {
      CountLeftsMaking(inp, n - 1, x);
    }
  }

  lemma {:induction false} CountRightsMaking(inp: Input, m: nat, x: Parts)
    requires m <= |inp.rights|
    ensures multiset(LoneRights(inp, m))[x] == |RightsUpTo(inp, m, x)|
    decreases m
  {
    hide *;
    RightsUpToStep(inp, m, x);
    LoneRightsStep(inp, m, x);
    if m > 0 {
      CountRightsMaking(inp, m - 1, x);
    }
  }

  lemma {:induction false} NonesAre(n: nat)
    ensures |Nones(n)| == n && forall k :: 0 <= k < n ==> Nones(n)[k] == None
    decreases n
  {
    if n > 0 {
      NonesAre(n - 1);
    }
  }

  /** Rows made of nothing but a right row, in other words. */
  lemma OnlyRightIs(x: Parts, width: nat, r: Row)
    ensures OnlyRight(x, width, r) <==> Nones(width) + [Some(r)] == x
  {
    NonesAre(width);
    hide Nones;
    if OnlyRight(x, width, r) {
      assert Nones(width) + [Some(r)] == x;
    }
  }

  lemma PairsMakingIs(inp: Input, x: Parts)
    ensures PairsMaking(inp, x) == RowsMaking(inp, |inp.lefts|, x)
  {
  }

  lemma LeftsMakingIs(inp: Input, x: Parts)
    ensures LeftsMaking(inp, x) == LeftsUpTo(inp, |inp.lefts|, x)
  {
    forall i: nat | i < |inp.lefts|
      ensures i in LeftsMaking(inp, x) <==> LeftMakes(inp, i, x)
    {
      assert forall j :: 0 <= j < |inp.rights| ==>
        (inp.Match(i, j) <==> inp.on(inp.lefts[i] + [Some(inp.rights[j])]));
    }
    hide LeftMakes;
  }

  lemma RightsMakingIs(inp: Input, x: Parts)
    ensures RightsMaking(inp, x) == RightsUpTo(inp, |inp.rights|, x)
  {
    forall j: nat | j < |inp.rights|
      ensures j in RightsMaking(inp, x) <==> RightMakes(inp, j, x)
    {
      OnlyRightIs(x, inp.width, inp.rights[j]);
      hide Nones, OnlyRight;
      assert forall i :: 0 <= i < |inp.lefts| ==>
        (inp.Match(i, j) <==> inp.on(inp.lefts[i] + [Some(inp.rights[j])]));
    }
    hide RightMakes;
  }

  /** What a join consists of: one row for every pair that matches, with both rows in it; for
      LEFT and FULL one for every left row without a match; for RIGHT and FULL one for
      every right row without a match; and nothing else. */
  lemma JoinConsists(inp: Input, kind: Kind, x: Parts)
    ensures multiset(NestedLoop(inp, kind))[x] == Copies(inp, kind, x)
  {
    hide PairsMaking, LeftsMaking, RightsMaking, RowsMaking, Joined, PairsByRow, LoneLefts, LoneRights, LeftsUpTo,
      RightsUpTo;
    PairsMakingIs(inp, x);
    LeftsMakingIs(inp, x);
    RightsMakingIs(inp, x);
    CountRowsMaking(inp, |inp.lefts|, x);
    CountLeftsMaking(inp, |inp.lefts|, x);
    CountRightsMaking(inp, |inp.rights|, x);
  }

  ghost predicate Consists(rows: seq<Parts>, inp: Input, kind: Kind) {
    forall x :: multiset(rows)[x] == Copies(inp, kind, x)
  }

  lemma LoopConsists(rows: seq<Parts>, inp: Input, kind: Kind)
    requires multiset(rows) == multiset(NestedLoop(inp, kind))
    ensures Consists(rows, inp, kind)
  {
    hide NestedLoop, Copies;
    forall x
      ensures multiset(rows)[x] == Copies(inp, kind, x)
    {
      JoinConsists(inp, kind, x);
    }
  }

  /** `_join`: whatever the algorithm and the build side, the rows are those of the nested
      loop, as often as they are to be there; and in the same order, unless the table was
      built on the left. None is an
      exception: one that the ON condition raises on a pair it is evaluated on. */
  method Run(inp: Input, raises: Parts -> bool, kind: Kind, equi: Option<Equi>, buildRight: bool)
    returns (out: Option<seq<Parts>>)
    requires equi.Some? ==> Forced(inp, equi.value)
    ensures out.None? <==> JoinRaises(inp, raises, equi)
    ensures out.Some? ==> multiset(out.value) == multiset(NestedLoop(inp, kind))
    ensures out.Some? ==> Consists(out.value, inp, kind)
    ensures out.Some? && (equi.None? || buildRight) ==> out.value == NestedLoop(inp, kind)
  {
    hide Forced, PairsByRow, PairsByCol, Joined, Outer, Progress, Complete, JoinRaises, Consists;
    RowsComplete(inp);
    SamePairs(inp);
    JoinedPermutes(inp, PairsByRow(inp, |inp.lefts|), PairsByCol(inp, |inp.rights|));
    var joiner := new Joiner(inp, raises);
    var ok: bool;
    if equi.None? {
      ok := joiner.Loop();
    } else if buildRight {
      ok := joiner.HashRight(equi.value);
    } else {
      ok := joiner.HashLeft(equi.value);
    }
    if !ok {
      return None;
    }
    var rows := joiner.Finish(kind);
    LoopConsists(rows, inp, kind);
    return Some(rows);
  }
}
