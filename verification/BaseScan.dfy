// The base table of a SELECT (build_select_plan in leafdb/planner.py, _scan in
// leafdb/executor.py): a primary key lookup or an index scan instead of a full scan.

module BaseScan {
  import opened Bytes
  import opened Sql
  import opened Evaluate
  import opened Join
  import opened Planner
  import opened Pushdown

  datatype Scan = SeqScan | PkScan(col: nat, value: Value) | IndexScan(col: nat, value: Value)

  /** `_column_matches` */
  predicate ColumnMatches(table: Option<string>, name: string, base: Source) {
    (table.None? || table.value == base.alias) && name in base.cols
  }

  /** A conjunct of the form column = literal, or the other way round. */
  datatype ColumnLiteral = ColumnLiteral(table: Option<string>, name: string, value: Value)

  function AsColumnLiteral(c: Expr): Option<ColumnLiteral> {
    match c
    case Bin(Eq, Col(t, n), Lit(v)) => Some(ColumnLiteral(t, n, v))
    case Bin(Eq, Lit(v), Col(t, n)) => Some(ColumnLiteral(t, n, v))
    case _ => None
  }

  /** The first conjunct that fixes a base column with one of these names. */
  function FirstOn(cs: seq<Expr>, base: Source, names: set<string>): (r: Option<ColumnLiteral>)
    ensures r.Some? ==>
      ColumnMatches(r.value.table, r.value.name, base) && exists c :: c in cs && AsColumnLiteral(c) == r
  {
    if cs == [] then None
    else
      var c := AsColumnLiteral(cs[0]);
      if c.Some? && ColumnMatches(c.value.table, c.value.name, base) && c.value.name in names then
        assert cs[0] in cs;
        c
      else
        var r := FirstOn(cs[1..], base, names);
        assert forall x :: x in cs[1..] ==> x in cs;
        r
  }

  /** The scan choice of `build_select_plan` */
  function ChooseScan(cs: seq<Expr>, base: Source, pk: Option<string>, indexed: set<string>): Scan {
    var p := if pk.None? then None else FirstOn(cs, base, {pk.value});
    if p.Some? then PkScan(IndexOf(base.cols, p.value.name), p.value.value)
    else
      var x := FirstOn(cs, base, indexed);
      if x.Some? then IndexScan(IndexOf(base.cols, x.value.name), x.value.value) else SeqScan
  }

  /** A primary key search: at most one row. */
  function FindPk(rows: seq<Row>, j: nat, k: int): seq<Row> {
    if rows == [] then []
    else if j < |rows[0]| && rows[0][j] == Int(k) then [rows[0]]
    else FindPk(rows[1..], j, k)
  }

  /** An index lookup: the rows with this value, in table order. A dictionary does not
      tell True from 1, and NULL is not in it. */
  function LookUp(rows: seq<Row>, j: nat, v: Value): seq<Row> {
    if rows == [] then []
    else
      var n := |rows| - 1;
      LookUp(rows[..n], j, v) +
      if v != Null && j < |rows[n]| && rows[n][j] != Null && KeyOf(rows[n][j]) == KeyOf(v) then [rows[n]] else []
  }

  /** `_scan`; a key that cannot be a primary key finds nothing. */
  function ScanRows(scan: Scan, rows: seq<Row>): seq<Row> {
    match scan
    case SeqScan => rows
    case PkScan(j, v) => if v.Int? then FindPk(rows, j, v.i) else []
    case IndexScan(j, v) => LookUp(rows, j, v)
  }

  // ---- what the shortcuts leave out ---------------------------------------------------------

  /** Rows as wide as the table. */
  ghost predicate Proper(rows: seq<Row>, base: Source) {
    forall i :: 0 <= i < |rows| ==> |rows[i]| == |base.cols|
  }

  /** A primary key: integers, all different. */
  ghost predicate Keyed(rows: seq<Row>, j: nat) {
    && (forall i :: 0 <= i < |rows| ==> j < |rows[i]| && rows[i][j].Int?)
    && (forall i, k :: 0 <= i < k < |rows| ==> rows[i][j] != rows[k][j])
  }

  predicate SameValue(row: Row, j: nat, v: Value) {
    v != Null && j < |row| && row[j] != Null && Equal(row[j], v)
  }

  function TestValue(j: nat, v: Value): Parts -> bool {
    (l: Parts) => |l| > 0 && l[0].Some? && SameValue(l[0].value, j, v)
  }

  /** Whether the scan finds the base row of a joined row. */
  predicate Finds(scan: Scan, l: Parts) {
    scan.SeqScan? || TestValue(scan.col, scan.value)(l)
  }

  lemma SinglesStep(rows: seq<Row>)
    requires rows != []
    ensures Singles(rows) == Singles(rows[..|rows| - 1]) + [[Some(rows[|rows| - 1])]]
  {
  }

  /** An index lookup is a filter. */
  lemma {:induction false} LookUpIsFilter(rows: seq<Row>, j: nat, v: Value)
    ensures Singles(LookUp(rows, j, v)) == Filter(TestValue(j, v), Singles(rows))
    decreases |rows|
  {
    hide *;
    if rows == [] {
      NoneKept(TestValue(j, v));
      NoLookUp(j, v);
      NoSingles();
    } else {
      var n := |rows| - 1;
      var row, found := rows[n], LookUp(rows[..n], j, v);
      LookUpIsFilter(rows[..n], j, v);
      assert rows[..n] + [row] == rows;
      LookUpStep(rows[..n], row, j, v);
      LookUpOne(row, j, v);
      SinglesMore(rows[..n], row);
      SinglesMore(found, row);
      assert found + [] == found && Singles(found) + [] == Singles(found);
      FilterOne(TestValue(j, v), [Some(row)]);
      FilterConcat(TestValue(j, v), Singles(rows[..n]), [[Some(row)]]);
    }
  }

  lemma LookUpOne(row: Row, j: nat, v: Value)
    ensures LookUp([row], j, v) == if TestValue(j, v)([Some(row)]) then [row] else []
  {
    assert [row][..0] == [];
    if v != Null && j < |row| && row[j] != Null {
      KeysAreEquality(row[j], v);
    }
    hide KeyOf, Equal;
  }

  lemma SinglesMore(rows: seq<Row>, row: Row)
    ensures Singles(rows + [row]) == Singles(rows) + [[Some(row)]]
  {
    SinglesStep(rows + [row]);
    assert (rows + [row])[..|rows|] == rows;
  }

  lemma NoSingles()
    ensures Singles([]) == []
  {
  }

  /** So is a primary key search, and a search that finds nothing because the literal is
      no integer. */
  lemma {:induction false} FindPkIsLookUp(rows: seq<Row>, j: nat, k: int)
    requires Keyed(rows, j)
    ensures FindPk(rows, j, k) == LookUp(rows, j, Int(k))
    decreases |rows|
  {
    if rows != [] {
      var rest := rows[1..];
      assert rows == [rows[0]] + rest;
      FindPkIsLookUp(rest, j, k);
      LookUpFirst(rows, j, Int(k));
      if rows[0][j] == Int(k) {
        NoSecond(rest, j, k);
      }
    }
  }

  lemma LookUpStep(rows: seq<Row>, row: Row, j: nat, v: Value)
    ensures LookUp(rows + [row], j, v) == LookUp(rows, j, v) + LookUp([row], j, v)
  {
    assert (rows + [row])[..|rows|] == rows && [row][..0] == [];
  }

  lemma {:induction false} LookUpFirst(rows: seq<Row>, j: nat, v: Value)
    requires rows != []
    ensures LookUp(rows, j, v) == LookUp([rows[0]], j, v) + LookUp(rows[1..], j, v)
    decreases |rows|
  {
    var n := |rows| - 1;
    NoLookUp(j, v);
    hide LookUp;
    if n > 0 {
      LookUpFirst(rows[..n], j, v);
      LookUpStep(rows[..n], rows[n], j, v);
      LookUpStep(rows[..n][1..], rows[n], j, v);
      assert rows[..n] + [rows[n]] == rows && rows[..n][1..] + [rows[n]] == rows[1..];
    } else {
      assert rows == [rows[0]] && rows[1..] == [];
    }
  }

  lemma NoLookUp(j: nat, v: Value)
    ensures LookUp([], j, v) == []
  {
  }

  lemma {:induction false} NoSecond(rows: seq<Row>, j: nat, k: int)
    requires forall i :: 0 <= i < |rows| ==> j < |rows[i]| && rows[i][j].Int? && rows[i][j] != Int(k)
    ensures LookUp(rows, j, Int(k)) == []
    decreases |rows|
  {
    if rows != [] {
      NoSecond(rows[..|rows| - 1], j, k);
    }
  }

  lemma {:induction false} NoInteger(rows: seq<Row>, j: nat, v: Value)
    requires Keyed(rows, j) && (v.Str? || v.Null?)
    ensures LookUp(rows, j, v) == []
    decreases |rows|
  {
    if rows != [] {
      NoInteger(rows[..|rows| - 1], j, v);
    }
  }

  // ---- the conjunct behind the shortcut ------------------------------------------------------------

  /** The conjunct keeps exactly the rows with the value. */
  lemma ConjunctTests(c: Expr, base: Source, l: Parts)
    requires AsColumnLiteral(c).Some? && |l| == 1
    requires var d := AsColumnLiteral(c).value; ColumnMatches(d.table, d.name, base)
    ensures var d := AsColumnLiteral(c).value;
      && Resolved(c, [base])
      && (l[0].Some? && |l[0].value| == |base.cols| ==>
            (Keeps(c, l, [base]) <==> TestValue(IndexOf(base.cols, d.name), d.value)(l)))
  {
    var d := AsColumnLiteral(c).value;
    var j := IndexOf(base.cols, d.name);
    assert Hits([base], d.name, 0) == [0];
    assert Resolve([base], d.table, d.name) == Some((0, j));
    var f, g := Compile(Col(d.table, d.name), [base]).value, Compile(Lit(d.value), [base]).value;
    hide IndexOf, Hits;
    if l[0].Some? && |l[0].value| == |base.cols| {
      var x := l[0].value[j];
      assert f(l) == Val(x) && g(l) == Val(d.value);
      EqualSymmetric(x, d.value);
      if c.left.Col? {
        assert Compile(c, [base]).value == Both(Eq, f, g);
        assert Both(Eq, f, g)(l) == Strict(Eq, x, d.value);
      } else {
        assert Compile(c, [base]).value == Both(Eq, g, f);
        assert Both(Eq, g, f)(l) == Strict(Eq, d.value, x);
      }
    }
  }

  // ---- the shortcut does not change the query ------------------------------------------------------

  /** Whether the base table's part passes the conjunct. */
  function OnBase(c: Expr, base: Source): Parts -> bool {
    (l: Parts) => |l| > 0 && Keeps(c, l[..1], [base])
  }

  /** Restricting the base rows restricts the joined rows. */
  lemma {:induction false} NaiveRestricted(q: Query, c: Expr, rows': seq<Row>, s: nat)
    requires s <= |q.joins| && InnerOrLeft(q)
    requires Singles(rows') == Filter(OnBase(c, q.base), Singles(q.rows))
    ensures Wide(Naive(q, s), s + 1)
    ensures multiset(Naive(q.(rows := rows'), s)) == multiset(Filter(OnBase(c, q.base), Naive(q, s)))
    decreases s
  {
    var q' := q.(rows := rows');
    NaiveStart(q);
    NaiveStart(q');
    hide *;
    if s > 0 {
      var p, kind := OnBase(c, q.base), q.joins[s - 1].kind;
      var inp, inp' := InputOf(q, s - 1, Naive(q, s - 1)), InputOf(q', s - 1, Naive(q', s - 1));
      NaiveRestricted(q, c, rows', s - 1);
      KindsAre(q, s - 1);
      NaiveStep(q, s);
      NaiveStep(q', s);
      SameInputs(q, rows', s - 1);
      NestedIsFlat(inp, kind);
      NestedIsFlat(inp', kind);
      FlatPermutes(inp'.lefts, Filter(p, inp.lefts), inp.rights, inp.on, kind);
      OnBaseIsBlind(c, q.base, inp.lefts, s);
      FilterFlat(p, inp.lefts, inp.rights, inp.on, kind);
      FilterPermutes(p, Flat(inp.lefts, inp.rights, inp.on, kind), Naive(q, s));
      FlatWide(inp.lefts, inp.rights, inp.on, kind, s);
      WidePermutes(Flat(inp.lefts, inp.rights, inp.on, kind), Naive(q, s), s + 1);
    }
  }

  lemma NaiveStart(q: Query)
    ensures Naive(q, 0) == Singles(q.rows) && Wide(Naive(q, 0), 1)
  {
    hide Singles;
    forall l | l in Singles(q.rows)
      ensures |l| == 1
    {
      var i :| 0 <= i < |Singles(q.rows)| && Singles(q.rows)[i] == l;
    }
  }

  lemma NaiveStep(q: Query, s: nat)
    requires 0 < s <= |q.joins|
    ensures Naive(q, s) == NestedLoop(InputOf(q, s - 1, Naive(q, s - 1)), q.joins[s - 1].kind)
  {
    hide NestedLoop, InputOf;
  }

  lemma KindsAre(q: Query, s: nat)
    requires s < |q.joins| && InnerOrLeft(q)
    ensures q.joins[s].kind.Inner? || q.joins[s].kind.LeftOuter?
  {
    assert q.joins[s] in q.joins;
  }

  lemma {:induction false} SameScopes(q: Query, rows': seq<Row>, s: nat)
    requires s <= |q.joins|
    ensures ScopeAt(q.(rows := rows'), s) == ScopeAt(q, s)
    decreases s
  {
    if s > 0 {
      SameScopes(q, rows', s - 1);
    }
  }

  /** Only the left rows of the joins differ. */
  lemma SameInputs(q: Query, rows': seq<Row>, s: nat)
    requires s < |q.joins|
    ensures forall ls, ls' ::
      var a, b := InputOf(q, s, ls), InputOf(q.(rows := rows'), s, ls');
      a.rights == b.rights && a.on == b.on && a.lefts == ls && b.lefts == ls'
  {
    SameScopes(q, rows', s + 1);
    hide ScopeAt;
  }

  lemma OnBaseIsBlind(c: Expr, base: Source, ls: seq<Parts>, n: nat)
    requires n > 0 && Wide(ls, n)
    ensures Blind(OnBase(c, base), ls)
  {
    forall l, x: Option<Row> | l in ls
      ensures OnBase(c, base)(l + [x]) == OnBase(c, base)(l)
    {
      assert (l + [x])[..1] == l[..1];
    }
  }

  /** What WHERE keeps, the conjunct keeps on the base table's part. */
  lemma WhereImpliesBase(q: Query, c: Expr, l: Parts)
    requires q.where'.Some? && c in FlattenAnd(q.where'.value) && Resolved(c, [q.base]) && AsColumnLiteral(c).Some?
    requires forall x :: x in FlattenAnd(q.where'.value) ==> BooleanValued(x)
    requires |l| == |q.joins| + 1 && Keeps(q.where'.value, l, FullScope(q))
    ensures OnBase(c, q.base)(l)
  {
    var full := FullScope(q);
    WhereIsConjuncts(q.where'.value, l, full);
    assert Keeps(c, l, full);
    ScopePrefix(q, 0, |q.joins|);
    assert full[..1] == [q.base];
    CompiledResolves(c, full);
    hide FlattenAnd, ScopeAt;
    EarlyIsLate(c, full, 1, l);
  }

  lemma CompiledResolves(c: Expr, scope: Scope)
    requires AsColumnLiteral(c).Some? && Compile(c, scope).Some?
    ensures Resolved(c, scope)
  {
  }

  /** Starting from the rows that a conjunct of WHERE keeps is starting from all of them. */
  lemma RestrictedMeaning(q: Query, c: Expr, rows': seq<Row>)
    requires InnerOrLeft(q) && q.where'.Some? && c in FlattenAnd(q.where'.value) && Resolved(c, [q.base]) &&
      AsColumnLiteral(c).Some?
    requires forall x :: x in FlattenAnd(q.where'.value) ==> BooleanValued(x)
    requires Singles(rows') == Filter(OnBase(c, q.base), Singles(q.rows))
    ensures multiset(Meaning(q.(rows := rows'))) == multiset(Meaning(q))
  {
    var n, q' := |q.joins|, q.(rows := rows');
    var p, all := OnBase(c, q.base), Naive(q, n);
    var w := Test(q.where'.value, FullScope(q));
    SameScopes(q, rows', n);
    NaiveRestricted(q, c, rows', n);
    assert Meaning(q') == Filter(w, Naive(q', n)) && Meaning(q) == Filter(w, all);
    forall l | l in all
      ensures w(l) <==> p(l) && w(l)
    {
      if w(l) {
        WhereImpliesBase(q, c, l);
      }
    }
    hide *;
    FilterPermutes(w, Naive(q', n), Filter(p, all));
    FilterTwice(p, w, w, all);
  }

  // ---- a SELECT as planned ---------------------------------------------------------------------------

  /** The table behind the base of a query: rows as wide as the table, and a primary key,
      if there is one, of distinct integers. */
  ghost predicate ProperTable(q: Query, pk: Option<string>) {
    && Proper(q.rows, q.base)
    && (pk.Some? ==> pk.value in q.base.cols && Keyed(q.rows, IndexOf(q.base.cols, pk.value)))
  }

  /** No literal is a Boolean: the grammar has none. */
  ghost predicate NoBooleanLiteral(cs: seq<Expr>) {
    forall c :: c in cs ==> AsColumnLiteral(c).Some? ==> !AsColumnLiteral(c).value.value.Bool?
  }

  /** The scan finds the rows that one conjunct of WHERE keeps. */
  lemma ScanIsConjunct(q: Query, pk: Option<string>, indexed: set<string>) returns (c: Expr)
    requires q.where'.Some? && ProperTable(q, pk) && NoBooleanLiteral(FlattenAnd(q.where'.value))
    requires ChooseScan(FlattenAnd(q.where'.value), q.base, pk, indexed) != SeqScan
    ensures c in FlattenAnd(q.where'.value) && Resolved(c, [q.base]) && AsColumnLiteral(c).Some?
    ensures var rows' := ScanRows(ChooseScan(FlattenAnd(q.where'.value), q.base, pk, indexed), q.rows);
      Singles(rows') == Filter(OnBase(c, q.base), Singles(q.rows))
  {
    var cs := FlattenAnd(q.where'.value);
    var p := if pk.None? then None else FirstOn(cs, q.base, {pk.value});
    var d := if p.Some? then p else FirstOn(cs, q.base, indexed);
    c :| c in cs && AsColumnLiteral(c) == d;
    var j, v := IndexOf(q.base.cols, d.value.name), d.value.value;
    if p.Some? {
      FirstOnNamed(cs, q.base, {pk.value});
    }
    ScanIsLookUp(q, pk, j, v, p.Some?);
    ConjunctOnBase(c, q.base, q.rows);
    LookUpIsFilter(q.rows, j, v);
    hide FlattenAnd, FirstOn, Filter, Singles, LookUp, FindPk;
    FilterSame(TestValue(j, v), OnBase(c, q.base), Singles(q.rows));
  }

  /** A search and an index lookup alike find the base rows with the value. */
  lemma ScanFinds(q: Query, pk: Option<string>, indexed: set<string>, l: Parts)
    requires q.where'.Some? && ProperTable(q, pk) && NoBooleanLiteral(FlattenAnd(q.where'.value))
    ensures var scan := ChooseScan(FlattenAnd(q.where'.value), q.base, pk, indexed);
      l in Singles(ScanRows(scan, q.rows)) <==> l in Singles(q.rows) && Finds(scan, l)
  {
    var cs := FlattenAnd(q.where'.value);
    var p := if pk.None? then None else FirstOn(cs, q.base, {pk.value});
    var d := if p.Some? then p else FirstOn(cs, q.base, indexed);
    if p.Some? {
      FirstOnNamed(cs, q.base, {pk.value});
    }
    hide FlattenAnd, FirstOn, Filter, Singles, LookUp, FindPk, TestValue;
    if d.Some? {
      var c :| c in cs && AsColumnLiteral(c) == d;
      var j, v := IndexOf(q.base.cols, d.value.name), d.value.value;
      ScanIsLookUp(q, pk, j, v, p.Some?);
      LookUpIsFilter(q.rows, j, v);
      FilterHolds(TestValue(j, v), Singles(q.rows), l);
    }
  }

  lemma {:induction false} FirstOnNamed(cs: seq<Expr>, base: Source, names: set<string>)
    ensures FirstOn(cs, base, names).Some? ==> FirstOn(cs, base, names).value.name in names
    decreases |cs|
  {
    if cs != [] {
      FirstOnNamed(cs[1..], base, names);
    }
  }

  lemma ScanIsLookUp(q: Query, pk: Option<string>, j: nat, v: Value, byKey: bool)
    requires ProperTable(q, pk) && !v.Bool? && (byKey ==> pk.Some? && j == IndexOf(q.base.cols, pk.value))
    ensures ScanRows(if byKey then PkScan(j, v) else IndexScan(j, v), q.rows) == LookUp(q.rows, j, v)
  {
    if byKey {
      if v.Int? {
        FindPkIsLookUp(q.rows, j, v.i);
      } else {
        NoInteger(q.rows, j, v);
      }
    }
  }

  lemma ConjunctOnBase(c: Expr, base: Source, rows: seq<Row>)
    requires AsColumnLiteral(c).Some? && Proper(rows, base)
    requires var d := AsColumnLiteral(c).value; ColumnMatches(d.table, d.name, base)
    ensures Resolved(c, [base])
    ensures var d := AsColumnLiteral(c).value;
      forall l :: l in Singles(rows) ==> (TestValue(IndexOf(base.cols, d.name), d.value)(l) <==> OnBase(c, base)(l))
  {
    var d := AsColumnLiteral(c).value;
    ConjunctTests(c, base, [None]);
    forall l | l in Singles(rows)
      ensures TestValue(IndexOf(base.cols, d.name), d.value)(l) <==> OnBase(c, base)(l)
    {
      var i :| 0 <= i < |rows| && Singles(rows)[i] == l;
      assert l == [Some(rows[i])] && l[..1] == l;
      ConjunctTests(c, base, l);
      hide Keeps, TestValue, Resolved;
    }
    hide Keeps, TestValue, Resolved;
  }

  /** The query with its base table cut down to what the chosen scan finds. */
  function Scanned(q: Query, pk: Option<string>, indexed: set<string>): Query {
    if q.where'.None? then q
    else q.(rows := ScanRows(ChooseScan(FlattenAnd(q.where'.value), q.base, pk, indexed), q.rows))
  }

  /** The planned run of a SELECT, up to WHERE: whatever the scan, the algorithms and the
      stages, its rows are the ones the query is supposed to have. None is an exception:
      one that a condition raises on a row that reaches it from the scan. */
  method RunSelect(q: Query, pk: Option<string>, indexed: set<string>, sides: seq<bool>)
    returns (r: Option<seq<Parts>>)
    requires |sides| == |q.joins| && Distinct(FullScope(q)) && InnerOrLeft(q) && ProperTable(q, pk) && InModel(q)
    requires q.where'.Some? ==>
      NoBooleanLiteral(FlattenAnd(q.where'.value)) && forall c :: c in FlattenAnd(q.where'.value) ==> BooleanValued(c)
    ensures r.None? <==> PlanRaises(Scanned(q, pk, indexed))
    ensures r.Some? ==> multiset(r.value) == multiset(Meaning(q))
  {
    hide FlattenAnd, ChooseScan, ScanRows, Meaning, Singles, Filter, OnBase, ScopeAt, Distinct, NoBooleanLiteral,
      ProperTable, BooleanValued, Resolved, AsColumnLiteral, PlanRaises, Covered;
    var cs := Conjuncts(q);
    var scan := if q.where'.None? then SeqScan else ChooseScan(cs, q.base, pk, indexed);
    if scan == SeqScan {
      SeqScanRows(q.rows);
      assert q.(rows := q.rows) == q;
      r := Pipeline(q, sides);
    } else {
      ghost var c := ScanIsConjunct(q, pk, indexed);
      var rows' := ScanRows(scan, q.rows);
      RestrictedMeaning(q, c, rows');
      SameScopes(q, rows', |q.joins|);
      r := Pipeline(q.(rows := rows'), sides);
    }
  }

  lemma SeqScanRows(rows: seq<Row>)
    ensures ScanRows(SeqScan, rows) == rows
  {
  }

  // ---- where the pushdown is wrong ---------------------------------------------------------------------

  const ON_TRUE: Expr := Lit(Bool(true))
  const X_IS_TWO: Expr := Bin(Eq, Col(Some("a"), "x"), Lit(Int(2)))

  /** SELECT * FROM a RIGHT JOIN b ON true WHERE a.x = 2, with one row in each table */
  const RIGHT_QUERY: Query :=
    Query(Source("a", ["x"]), [[Int(1)]], [Clause(RightOuter, Source("b", ["y"]), [[Int(7)]], ON_TRUE)], Some(X_IS_TWO))

  /** Checked at its stage, the conjunct removes the base row, and the join then brings b's
      row back as unmatched; checked at the end, it would have removed everything. */
  lemma RightJoinDiffers()
    ensures StageOf(X_IS_TWO, FullScope(RIGHT_QUERY)) == 0
    ensures |RIGHT_QUERY.joins| == 1
    ensures var early := Filter(Test(X_IS_TWO, ScopeAt(RIGHT_QUERY, 0)), Singles(RIGHT_QUERY.rows));
      NestedLoop(InputOf(RIGHT_QUERY, 0, early), RightOuter) == [[None, Some([Int(7)])]]
    ensures Meaning(RIGHT_QUERY) == []
  {
    RightQueryParts();
    hide *;
    var q, a, b := RIGHT_QUERY, Source("a", ["x"]), Source("b", ["y"]);
    FixedTests([a]);
    FixedTests([a, b]);
    AtStageZero(X_IS_TWO, a, b);
    FilterOne(Test(X_IS_TWO, [a]), [Some([Int(1)])]);
    FilterOne(Test(X_IS_TWO, [a, b]), [Some([Int(1)]), Some([Int(7)])]);
    TestsAre([a], [Some([Int(1)])]);
    TestsAre([a, b], [Some([Int(1)]), Some([Int(7)])]);
    NoLeftRow(Test(ON_TRUE, [a, b]));
    OneLeftRow(Test(ON_TRUE, [a, b]));
    NaiveStart(q);
    NaiveStep(q, 1);
  }

  lemma RightQueryParts()
    ensures var q, a, b := RIGHT_QUERY, Source("a", ["x"]), Source("b", ["y"]);
      && |q.joins| == 1 && q.rows == [[Int(1)]] && q.joins[0].kind == RightOuter
      && ScopeAt(q, 0) == [a] && FullScope(q) == [a, b] && Singles(q.rows) == [[Some([Int(1)])]]
      && (forall ls :: InputOf(q, 0, ls) == Input(ls, [[Int(7)]], Test(ON_TRUE, [a, b]), 1))
      && Meaning(q) == Filter(Test(X_IS_TWO, [a, b]), Naive(q, 1))
  {
    var q, a, b := RIGHT_QUERY, Source("a", ["x"]), Source("b", ["y"]);
    assert ScopeAt(q, 1) == ScopeAt(q, 0) + [b];
    SinglesStep([[Int(1)]]);
    assert [[Int(1)]][..0] == [];
    NoSingles();
    hide Singles, Filter, Naive;
  }

  lemma AtStageZero(c: Expr, a: Source, b: Source)
    requires Resolved(c, [a]) && Resolved(c, [a, b]) && NoFunc(c)
    ensures StageOf(c, [a, b]) == 0
  {
    assert [a, b][..1] == [a];
    hide Resolved;
  }

  lemma TestsAre(scope: Scope, l: Parts)
    ensures Test(X_IS_TWO, scope)(l) == Keeps(X_IS_TWO, l, scope)
    ensures Test(ON_TRUE, scope)(l) == Keeps(ON_TRUE, l, scope)
  {
    hide Keeps;
  }

  lemma FixedTests(scope: Scope)
    requires scope != [] && scope[0] == Source("a", ["x"])
    ensures Resolved(X_IS_TWO, scope) && NoFunc(X_IS_TWO)
    ensures !Keeps(X_IS_TWO, [Some([Int(1)])], scope)
    ensures !Keeps(X_IS_TWO, [Some([Int(1)]), Some([Int(7)])], scope)
    ensures Keeps(ON_TRUE, [Some([Int(1)]), Some([Int(7)])], scope)
  {
    XResolves(scope);
    hide *;
    XIsOne(scope, [Some([Int(1)])]);
    XIsOne(scope, [Some([Int(1)]), Some([Int(7)])]);
    AlwaysOn(scope, [Some([Int(1)]), Some([Int(7)])]);
  }

  lemma AlwaysOn(scope: Scope, l: Parts)
    ensures Keeps(ON_TRUE, l, scope)
  {
  }

  lemma XResolves(scope: Scope)
    requires scope != [] && scope[0] == Source("a", ["x"])
    ensures Resolve(scope, Some("a"), "x") == Some((0, 0)) && Resolved(X_IS_TWO, scope) && NoFunc(X_IS_TWO)
  {
    assert SourceOf(scope, "a") == Some(0);
    assert Resolved(X_IS_TWO, scope) by {
      assert Resolved(X_IS_TWO.left, scope) && Resolved(X_IS_TWO.right, scope);
    }
  }

  lemma XIsOne(scope: Scope, l: Parts)
    requires Resolve(scope, Some("a"), "x") == Some((0, 0)) && |l| > 0 && l[0] == Some([Int(1)])
    ensures !Keeps(X_IS_TWO, l, scope)
  {
    hide Resolve;
    var f, g := Compile(Col(Some("a"), "x"), scope).value, Compile(Lit(Int(2)), scope).value;
    assert f(l) == Val(Int(1)) && g(l) == Val(Int(2));
    assert Compile(X_IS_TWO, scope).value == Both(Eq, f, g);
    assert Both(Eq, f, g)(l) == Strict(Eq, Int(1), Int(2));
  }

  /** The right join of no row with one, and of two rows that match. */
  lemma NoLeftRow(on: Parts -> bool)
    ensures NestedLoop(Input([], [[Int(7)]], on, 1), RightOuter) == [[None, Some([Int(7)])]]
  {
    var inp := Input([], [[Int(7)]], on, 1);
    assert !inp.RightMatched(0) && Nones(0) == [] && Nones(1) == [None];
    var lone: Parts := Nones(1) + [Some([Int(7)])];
    assert lone == [None, Some([Int(7)])];
    assert LoneRights(inp, 0) == [] && LoneRights(inp, 1) == [lone];
    assert PairsByRow(inp, 0) == [] && Joined(inp, []) == [];
  }

  lemma OneLeftRow(on: Parts -> bool)
    requires on([Some([Int(1)]), Some([Int(7)])])
    ensures NestedLoop(Input([[Some([Int(1)])]], [[Int(7)]], on, 1), RightOuter) == [[Some([Int(1)]), Some([Int(7)])]]
  {
    var inp := Input([[Some([Int(1)])]], [[Int(7)]], on, 1);
    assert inp.Pair(0, 0) == [Some([Int(1)]), Some([Int(7)])] && inp.Match(0, 0) && inp.RightMatched(0);
    assert LoneRights(inp, 0) == [] && LoneRights(inp, 1) == [];
    assert RowPairs(inp, 0, 0) == [] && RowPairs(inp, 0, 1) == [(0, 0)];
    assert PairsByRow(inp, 0) == [] && PairsByRow(inp, 1) == [(0, 0)];
    assert Joined(inp, [(0, 0)]) == [inp.Pair(0, 0)];
  }
}
