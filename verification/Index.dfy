// Secondary indexes (leafdb/engine.py): kept in step with the rows by every insert,
// update, delete and index creation, and used for lookups and for the WHERE of UPDATE
// and DELETE.

module Index {
  import opened Bytes
  import opened Order
  import opened Sql
  import opened Evaluate
  import opened Join
  import opened Planner
  import opened Pushdown
  import opened BaseScan

  // ---- rows and indexes -------------------------------------------------------------------

  type Table = map<int, Row>

  /** From the values of a column to the row ids that have them. */
  type Buckets = map<Key, set<int>>

  function BucketOf(idx: Buckets, k: Key): set<int> {
    if k in idx then idx[k] else {}
  }

  /** The value of a row in a column, as an index key; NULL is not indexed. */
  function IndexKey(row: Row, ci: nat): Option<Key> {
    if ci < |row| && row[ci] != Null then Some(KeyOf(row[ci])) else None
  }

  /** The row ids that hold a value. */
  function Holding(rows: Table, ci: nat, k: Key): set<int> {
    set rid | rid in rows && IndexKey(rows[rid], ci) == Some(k)
  }

  /** An index says exactly which rows hold which value. */
  ghost predicate Exact(idx: Buckets, rows: Table, ci: nat) {
    forall k :: BucketOf(idx, k) == Holding(rows, ci, k)
  }

  /** The index after `_index_add` of one row. */
  function Added(idx: Buckets, key: Option<Key>, rid: int): Buckets {
    match key
    case None => idx
    case Some(k) => idx[k := BucketOf(idx, k) + {rid}]
  }

  /** The index after `_index_remove` of one row. */
  function Removed(idx: Buckets, key: Option<Key>, rid: int): Buckets {
    match key
    case None => idx
    case Some(k) => if k in idx then idx[k := idx[k] - {rid}] else idx
  }

  /** All indexes of a table. */
  ghost predicate AllExact(indexes: map<nat, Buckets>, rows: Table) {
    forall ci :: ci in indexes ==> Exact(indexes[ci], rows, ci)
  }

  lemma AddedExact(idx: Buckets, rows: Table, ci: nat, rid: int, row: Row)
    requires Exact(idx, rows, ci) && rid !in rows
    ensures Exact(Added(idx, IndexKey(row, ci), rid), rows[rid := row], ci)
  {
    var idx', rows' := Added(idx, IndexKey(row, ci), rid), rows[rid := row];
    hide IndexKey;
    forall k
      ensures BucketOf(idx', k) == Holding(rows', ci, k)
    {
      assert BucketOf(idx, k) == Holding(rows, ci, k);
    }
  }

  lemma RemovedExact(idx: Buckets, rows: Table, ci: nat, rid: int)
    requires Exact(idx, rows, ci) && rid in rows
    ensures Exact(Removed(idx, IndexKey(rows[rid], ci), rid), rows - {rid}, ci)
  {
    var idx', rows' := Removed(idx, IndexKey(rows[rid], ci), rid), rows - {rid};
    hide IndexKey;
    forall k
      ensures BucketOf(idx', k) == Holding(rows', ci, k)
    {
      assert BucketOf(idx, k) == Holding(rows, ci, k);
    }
  }

  class IndexedTable {
    var rows: Table
    var indexes: map<nat, Buckets>

    ghost predicate Valid()
      reads this
    {
      AllExact(indexes, rows)
    }

    constructor ()
      ensures Valid() && rows == map[] && indexes == map[]
    {
      rows, indexes := map[], map[];
    }

    /** `_index_add` */
    method IndexAdd(rid: int, row: Row)
      modifies `indexes
      ensures indexes.Keys == old(indexes).Keys
      ensures forall ci :: ci in indexes ==> indexes[ci] == Added(old(indexes)[ci], IndexKey(row, ci), rid)
    {
      var todo := indexes.Keys;
      while todo != {}
        invariant todo <= indexes.Keys == old(indexes).Keys
        invariant forall ci :: ci in indexes ==>
          indexes[ci] == if ci in todo then old(indexes)[ci] else Added(old(indexes)[ci], IndexKey(row, ci), rid)
        decreases todo
      {
        var ci :| ci in todo;
        indexes := indexes[ci := Added(indexes[ci], IndexKey(row, ci), rid)];
        todo := todo - {ci};
      }
    }

    /** `_index_remove` */
    method IndexRemove(rid: int, row: Row)
      modifies `indexes
      ensures indexes.Keys == old(indexes).Keys
      ensures forall ci :: ci in indexes ==> indexes[ci] == Removed(old(indexes)[ci], IndexKey(row, ci), rid)
    {
      var todo := indexes.Keys;
      while todo != {}
        invariant todo <= indexes.Keys == old(indexes).Keys
        invariant forall ci :: ci in indexes ==>
          indexes[ci] == if ci in todo then old(indexes)[ci] else Removed(old(indexes)[ci], IndexKey(row, ci), rid)
        decreases todo
      {
        var ci :| ci in todo;
        indexes := indexes[ci := Removed(indexes[ci], IndexKey(row, ci), rid)];
        todo := todo - {ci};
      }
    }

    /** The inner part of `_insert`; false is the UNIQUE constraint. */
    method Insert(rid: int, row: Row) returns (ok: bool)
      requires Valid()
      modifies this
      ensures Valid() && indexes.Keys == old(indexes).Keys
      ensures ok == (rid !in old(rows)) && rows == if ok then old(rows)[rid := row] else old(rows)
    {
      hide Exact, Added;
      if rid in rows {
        return false;
      }
      ghost var rows0, indexes0 := rows, indexes;
      rows := rows[rid := row];
      IndexAdd(rid, row);
      forall ci | ci in indexes
        ensures Exact(indexes[ci], rows, ci)
      {
        AddedExact(indexes0[ci], rows0, ci, rid, row);
      }
      return true;
    }

    /** The inner part of `_update`, for a row that a scan found. */
    method Update(rid: int, was: Row, row: Row)
      requires Valid() && rid in rows && rows[rid] == was
      modifies this
      ensures Valid() && indexes.Keys == old(indexes).Keys && rows == old(rows)[rid := row]
    {
      hide Exact, Added, Removed;
      ghost var rows0, indexes0 := rows, indexes;
      rows := rows[rid := row];
      IndexRemove(rid, was);
      IndexAdd(rid, row);
      forall ci | ci in indexes
        ensures Exact(indexes[ci], rows, ci)
      {
        RemovedExact(indexes0[ci], rows0, ci, rid);
        AddedExact(Removed(indexes0[ci], IndexKey(was, ci), rid), rows0 - {rid}, ci, rid, row);
        assert (rows0 - {rid})[rid := row] == rows;
      }
    }

    /** The inner part of `_delete` */
    method Delete(rid: int, was: Row) returns (found: bool)
      requires Valid() && (rid in rows ==> rows[rid] == was)
      modifies this
      ensures Valid() && indexes.Keys == old(indexes).Keys
      ensures found == (rid in old(rows)) && rows == old(rows) - {rid}
    {
      hide Exact, Removed;
      if rid !in rows {
        assert rows - {rid} == rows;
        return false;
      }
      ghost var rows0, indexes0 := rows, indexes;
      rows := rows - {rid};
      IndexRemove(rid, was);
      forall ci | ci in indexes
        ensures Exact(indexes[ci], rows, ci)
      {
        RemovedExact(indexes0[ci], rows0, ci, rid);
      }
      return true;
    }

    /** `_create_index` and `_rebuild_indexes`, for one column */
    method CreateIndex(ci: nat)
      requires Valid()
      modifies `indexes
      ensures Valid() && indexes.Keys == old(indexes).Keys + {ci}
    {
      var idx: Buckets := map[];
      var scan := Ascending(rows.Keys);
      ghost var done := {};
      NothingHeld(ci);
      for i := 0 to |scan|
        invariant done == set x | x in scan[..i]
        invariant Exact(idx, Restricted(rows, done), ci)
        invariant indexes == old(indexes)
      {
        hide Exact, Added, Ascending;
        var rid := scan[i];
        assert rid in scan && scan[..i + 1] == scan[..i] + [rid];
        if rid !in done {
          AddedExact(idx, Restricted(rows, done), ci, rid, rows[rid]);
        } else {
          AddedAgain(idx, Restricted(rows, done), ci, rid);
        }
        assert Restricted(rows, done + {rid}) == Restricted(rows, done)[rid := rows[rid]];
        idx := Added(idx, IndexKey(rows[rid], ci), rid);
        done := done + {rid};
      }
      assert scan[..|scan|] == scan;
      assert Restricted(rows, done) == rows;
      indexes := indexes[ci := idx];
    }

    /** `index_lookup` gives the filtered table scan, in the order of the scan. */
    method Lookup(ci: nat, v: Value) returns (out: seq<(int, Row)>)
      requires Valid() && ci in indexes
      ensures out == Select(HasValue(ci, v), ScanTable(rows))
    {
      var rids := Ascending(if v == Null then {} else BucketOf(indexes[ci], KeyOf(v)));
      BucketIsScan(indexes[ci], rows, ci, v);
      hide *;
      out := [];
      FetchedNone(rows, rids);
      for i := 0 to |rids|
        invariant Fetched(rows, rids, i, out)
      {
        FetchedMore(rows, rids, i, out);
        if rids[i] in rows {
          out := out + [(rids[i], rows[rids[i]])];
        }
      }
      FetchedAll(rows, rids, out);
    }

    /** The first conjunct that fixes the primary key or an indexed column. */
    method FirstFixed(cs: seq<Expr>, base: Source, pk: Option<string>) returns (i: nat)
      ensures i <= |cs| && (i < |cs| ==> Fixes(cs[i], base, pk, indexes.Keys))
      ensures forall k :: 0 <= k < i ==> !Fixes(cs[k], base, pk, indexes.Keys)
    {
      i := 0;
      while i < |cs| && !Fixes(cs[i], base, pk, indexes.Keys)
        invariant i <= |cs|
        invariant forall k :: 0 <= k < i ==> !Fixes(cs[k], base, pk, indexes.Keys)
      {
        i := i + 1;
      }
    }

    /** Where `_matching_rows` looks: a search, a lookup or the whole table. Whatever it
        is, no row that WHERE keeps is missing, and the order is that of the scan. */
    method Candidates(where': Expr, base: Source, pk: Option<string>) returns (ls: seq<(int, Row)>)
      requires Valid() && Laid(rows, base, pk) && Compile(where', [base]).Some?
      ensures exists q :: ls == Select(q, ScanTable(rows)) && Covers(q, where', base, rows)
    {
      var cs := FlattenAnd(where');
      var i := FirstFixed(cs, base, pk);
      if i < |cs| {
        var d := AsColumnLiteral(cs[i]).value;
        var ci := IndexOf(base.cols, d.name);
        if pk == Some(d.name) {
          if d.value.Int? {
            ls := if d.value.i in rows then [(d.value.i, rows[d.value.i])] else [];
            KeyIsScan(rows, d.value.i);
            KeyCovers(where', cs[i], base, pk, rows);
            return;
          }
        } else {
          ls := Lookup(ci, d.value);
          ValueCovers(where', cs[i], base, pk, rows);
          return;
        }
      }
      ls := ScanTable(rows);
      AllCover(where', base, rows);
    }

    /** `_matching_rows`; None is an exception. The rows are the ones a full scan with
        the whole WHERE selects, in the same order, and there is no exception where the
        full scan has none. */
    method MatchingRows(where': Option<Expr>, base: Source, pk: Option<string>) returns (out: Option<seq<(int, Row)>>)
      requires Valid() && Laid(rows, base, pk) && InScope(where')
      ensures out.Some? ==> out.value == Select(KeptBy(where', base), ScanTable(rows))
      ensures FullScan(where', base, rows).Some? ==> out == FullScan(where', base, rows)
    {
      if where'.None? {
        AllSelected(base, ScanTable(rows));
        return Some(ScanTable(rows));
      }
      var f := Compile(where'.value, [base]);
      if f.None? {
        return None;
      }
      var source := Candidates(where'.value, base, pk);
      ghost var q :| source == Select(q, ScanTable(rows)) && Covers(q, where'.value, base, rows);
      CandidatesAreEnough(q, where'.value, base, rows);
      hide *;
      out := Keeping(where'.value, base, source);
    }

    /** The loop over the candidates */
    method Keeping(where': Expr, base: Source, source: seq<(int, Row)>) returns (out: Option<seq<(int, Row)>>)
      requires Compile(where', [base]).Some?
      ensures out.Some? ==> out.value == Select(KeptBy(Some(where'), base), source)
      ensures out.None? <==> exists k :: 0 <= k < |source| && RaisesOn(where', base, source[k])
    {
      var f, p := Compile(where', [base]).value, KeptBy(Some(where'), base);
      hide *;
      var got := [];
      ChosenNone(p, source);
      for i := 0 to |source|
        invariant Chosen(p, source, i, got)
        invariant forall k :: 0 <= k < i ==> !RaisesOn(where', base, source[k])
      {
        ChosenMore(p, source, i, got);
        WhereSays(where', base, source[i]);
        var o := f([Some(source[i].1)]);
        if o == Fail {
          return None;
        }
        if o == Val(Bool(true)) {
          got := got + [source[i]];
        }
      }
      ChosenAll(p, source, got);
      return Some(got);
    }

    /** `_delete`: the rows that WHERE keeps are gone, and no other. None is an exception
        of WHERE; nothing is deleted then. */
    method DeleteWhere(where': Option<Expr>, base: Source, pk: Option<string>) returns (n: Option<nat>)
      requires Valid() && Laid(rows, base, pk) && InScope(where')
      modifies this
      ensures Valid() && indexes.Keys == old(indexes).Keys
      ensures n.Some? ==> rows == Unkept(old(rows), where', base) && n.value == |old(rows)| - |rows|
      ensures n.None? ==> rows == old(rows) && FullScan(where', base, old(rows)).None?
    {
      ghost var rows0 := rows;
      var matched := MatchingRows(where', base, pk);
      if matched.None? {
        return None;
      }
      var ls := matched.value;
      MatchedRows(rows, KeptBy(where', base));
      hide *;
      var count := 0;
      NoIds(rows);
      for i := 0 to |ls|
        invariant Valid() && indexes.Keys == old(indexes).Keys
        invariant rows == rows0 - Ids(ls[..i])
        invariant count == |rows0| - |rows|
      {
        OneMoreGone(rows0, ls, i);
        AsScanned(rows0, ls, i);
        RemovedSize(rows, ls[i].0);
        var found := Delete(ls[i].0, ls[i].1);
        if found {
          count := count + 1;
        }
      }
      assert ls[..|ls|] == ls;
      UnkeptAre(rows0, where', base);
      return Some(count);
    }

    /** `_update`: the rows that WHERE keeps are replaced and counted, and no other. `assign`
        stands for the assignments with their coercions; None is an exception, of WHERE or
        of an assignment. */
    method UpdateWhere(where': Option<Expr>, base: Source, pk: Option<string>, assign: Row -> Option<Row>)
      returns (n: Option<nat>)
      requires Valid() && Laid(rows, base, pk) && InScope(where')
      modifies this
      ensures Valid() && indexes.Keys == old(indexes).Keys
      ensures n.Some? ==> Reassigned(old(rows), rows, KeptBy(where', base), assign)
      ensures n.Some? ==> n.value == |KeptIds(old(rows), KeptBy(where', base))|
      ensures n.None? ==>
        FullScan(where', base, old(rows)).None? || Unassignable(old(rows), KeptBy(where', base), assign)
    {
      ghost var rows0, p := rows, KeptBy(where', base);
      var matched := MatchingRows(where', base, pk);
      if matched.None? {
        return None;
      }
      var ls := matched.value;
      MatchedRows(rows, p);
      CountKept(rows, p);
      NothingAssigned(rows, ls, assign);
      hide AllExact, Select, ScanTable, KeptBy, Laid, FullScan, AssignedUpTo, Reassigned, Increasing, KeptIds;
      for i := 0 to |ls|
        invariant Valid() && indexes.Keys == old(indexes).Keys
        invariant AssignedUpTo(rows0, rows, ls, i, assign)
      {
        var row := assign(ls[i].1);
        if row.None? {
          CannotAssign(rows0, p, ls, i, assign);
          return None;
        }
        ghost var rows1 := rows;
        StillThere(rows0, rows, ls, i, assign);
        Update(ls[i].0, ls[i].1, row.value);
        OneMoreAssigned(rows0, rows1, ls, i, assign);
      }
      AllAssigned(rows0, rows, p, ls, assign);
      return Some(|ls|);
    }
  }

  function Restricted(rows: Table, s: set<int>): Table {
    map rid | rid in rows && rid in s :: rows[rid]
  }

  lemma NothingHeld(ci: nat)
    ensures Exact(map[], Restricted(map[], {}), ci)
    ensures forall rows: Table :: Exact(map[], Restricted(rows, {}), ci)
  {
  }

  lemma AddedAgain(idx: Buckets, rows: Table, ci: nat, rid: int)
    requires Exact(idx, rows, ci) && rid in rows
    ensures Exact(Added(idx, IndexKey(rows[rid], ci), rid), rows[rid := rows[rid]], ci)
  {
    var idx' := Added(idx, IndexKey(rows[rid], ci), rid);
    assert rows[rid := rows[rid]] == rows;
    forall k
      ensures BucketOf(idx', k) == Holding(rows, ci, k)
    {
      assert BucketOf(idx, k) == Holding(rows, ci, k);
    }
  }


  // ---- rows in the order of their ids -------------------------------------------------------

  /** The rows with these ids, in the order of the ids. */
  function RowsFor(rows: Table, rids: seq<int>): seq<(int, Row)> {
    if rids == [] then []
    else (if rids[0] in rows then [(rids[0], rows[rids[0]])] else []) + RowsFor(rows, rids[1..])
  }

  /** `scan_table` */
  function ScanTable(rows: Table): seq<(int, Row)> {
    RowsFor(rows, Ascending(rows.Keys))
  }

  type Chooser = ((int, Row)) -> bool

  function Select(p: Chooser, ls: seq<(int, Row)>): seq<(int, Row)> {
    if ls == [] then []
    else (if p(ls[0]) then [ls[0]] else []) + Select(p, ls[1..])
  }

  function HasValue(ci: nat, v: Value): Chooser {
    (l: (int, Row)) => v != Null && IndexKey(l.1, ci) == Some(KeyOf(v))
  }

  /** The rows of the first i ids have been fetched. */
  ghost predicate Fetched(rows: Table, rids: seq<int>, i: nat, out: seq<(int, Row)>) {
    i <= |rids| && out + RowsFor(rows, rids[i..]) == RowsFor(rows, rids)
  }

  lemma FetchedNone(rows: Table, rids: seq<int>)
    ensures Fetched(rows, rids, 0, [])
  {
    assert rids[0..] == rids;
    hide RowsFor;
  }

  lemma FetchedMore(rows: Table, rids: seq<int>, i: nat, out: seq<(int, Row)>)
    requires i < |rids| && Fetched(rows, rids, i, out)
    ensures Fetched(rows, rids, i + 1, if rids[i] in rows then out + [(rids[i], rows[rids[i]])] else out)
  {
    assert rids[i..][1..] == rids[i + 1..];
    var rest := RowsFor(rows, rids[i + 1..]);
    assert out + ([] + rest) == out + rest;
    if rids[i] in rows {
      var l := [(rids[i], rows[rids[i]])];
      assert out + (l + rest) == (out + l) + rest;
    }
  }

  lemma FetchedAll(rows: Table, rids: seq<int>, out: seq<(int, Row)>)
    requires Fetched(rows, rids, |rids|, out)
    ensures out == RowsFor(rows, rids)
  {
    assert rids[|rids|..] == [] && out + [] == out;
  }

  lemma NoRowsFor(rows: Table)
    ensures RowsFor(rows, []) == []
  {
  }

  /** The first i rows have been looked at. */
  ghost predicate Chosen(p: Chooser, ls: seq<(int, Row)>, i: nat, out: seq<(int, Row)>) {
    i <= |ls| && out + Select(p, ls[i..]) == Select(p, ls)
  }

  lemma ChosenNone(p: Chooser, ls: seq<(int, Row)>)
    ensures Chosen(p, ls, 0, [])
  {
    assert ls[0..] == ls;
    hide Select;
  }

  lemma ChosenMore(p: Chooser, ls: seq<(int, Row)>, i: nat, out: seq<(int, Row)>)
    requires i < |ls| && Chosen(p, ls, i, out)
    ensures Chosen(p, ls, i + 1, if p(ls[i]) then out + [ls[i]] else out)
  {
    assert ls[i..][1..] == ls[i + 1..];
    var rest := Select(p, ls[i + 1..]);
    assert out + ([] + rest) == out + rest && out + ([ls[i]] + rest) == (out + [ls[i]]) + rest;
  }

  lemma ChosenAll(p: Chooser, ls: seq<(int, Row)>, out: seq<(int, Row)>)
    requires Chosen(p, ls, |ls|, out)
    ensures out == Select(p, ls)
  {
    assert ls[|ls|..] == [] && out + [] == out;
  }

  lemma NoneSelected(p: Chooser)
    ensures Select(p, []) == []
  {
  }

  lemma RowsForFirst(rows: Table, rid: int, rids: seq<int>)
    requires rid in rows
    ensures RowsFor(rows, [rid] + rids) == [(rid, rows[rid])] + RowsFor(rows, rids)
  {
    assert ([rid] + rids)[1..] == rids;
  }

  lemma SelectFirst(p: Chooser, l: (int, Row), ls: seq<(int, Row)>)
    ensures Select(p, [l] + ls) == (if p(l) then [l] else []) + Select(p, ls)
  {
    assert ([l] + ls)[1..] == ls;
  }

  /** t has the ids that p chooses. */
  ghost predicate Agrees(rows: Table, s: set<int>, t: set<int>, p: Chooser) {
    s <= rows.Keys && forall rid :: rid in s ==> (rid in t <==> p((rid, rows[rid])))
  }

  lemma AgreesFirst(rows: Table, s: set<int>, t: set<int>, p: Chooser)
    requires s != {} && Agrees(rows, s, t, p)
    ensures Agrees(rows, s - {Least(s)}, t, p) && Least(s) in rows
    ensures p((Least(s), rows[Least(s)])) <==> Least(s) in t
  {
  }

  /** Visiting some of the ids in order is choosing among the rows of all ids. */
  lemma {:induction false} SomeOfThem(rows: Table, s: set<int>, t: set<int>, p: Chooser)
    requires Agrees(rows, s, t, p)
    ensures RowsFor(rows, Ascending(s * t)) == Select(p, RowsFor(rows, Ascending(s)))
    decreases |s|
  {
    hide *;
    if s == {} {
      NoneOf(t);
      NoRowsFor(rows);
      NoneSelected(p);
    } else {
      var m, rest := Least(s), s - {Least(s)};
      AgreesFirst(rows, s, t, p);
      SomeOfThem(rows, rest, t, p);
      LeastFirst(s, t);
      RowsForFirst(rows, m, Ascending(rest));
      SelectFirst(p, (m, rows[m]), RowsFor(rows, Ascending(rest)));
      if m in t {
        RowsForFirst(rows, m, Ascending(rest * t));
      }
    }
  }

  /** The bucket of a value, sorted, gives the rows with the value in the order of a scan. */
  lemma BucketIsScan(idx: Buckets, rows: Table, ci: nat, v: Value)
    requires Exact(idx, rows, ci)
    ensures RowsFor(rows, Ascending(if v == Null then {} else BucketOf(idx, KeyOf(v)))) ==
            Select(HasValue(ci, v), ScanTable(rows))
  {
    var bucket := if v == Null then {} else BucketOf(idx, KeyOf(v));
    if v != Null {
      assert bucket == Holding(rows, ci, KeyOf(v));
    }
    assert rows.Keys * bucket == bucket;
    assert Agrees(rows, rows.Keys, bucket, HasValue(ci, v));
    SomeOfThem(rows, rows.Keys, bucket, HasValue(ci, v));
  }

  function HasId(k: int): Chooser {
    (l: (int, Row)) => l.0 == k
  }

  lemma KeyIsScan(rows: Table, k: int)
    ensures (if k in rows then [(k, rows[k])] else []) == Select(HasId(k), ScanTable(rows))
  {
    SomeOfThem(rows, rows.Keys, {k}, HasId(k));
    OneAscending(k);
    if k in rows {
      assert rows.Keys * {k} == {k};
      RowsForFirst(rows, k, []);
      assert [k] + [] == [k];
    } else {
      assert rows.Keys * {k} == {};
    }
    NoRowsFor(rows);
    hide RowsFor, Ascending;
  }

  // ---- what a SELECT reads through them --------------------------------------------------------

  function RowsOf(ls: seq<(int, Row)>): seq<Row> {
    if ls == [] then [] else [ls[0].1] + RowsOf(ls[1..])
  }

  /** The index lookup that `BaseScan.ScanRows` speaks of, on the rows in scan order */
  lemma {:induction false} SelectIsLookUp(ls: seq<(int, Row)>, ci: nat, v: Value)
    ensures RowsOf(Select(HasValue(ci, v), ls)) == LookUp(RowsOf(ls), ci, v)
    decreases |ls|
  {
    hide *;
    if ls == [] {
      NoneSelected(HasValue(ci, v));
      NoRowsOf();
      NoLookUp(ci, v);
    } else {
      var l, rest := ls[0], ls[1..];
      assert ls == [l] + rest;
      SelectIsLookUp(rest, ci, v);
      SelectFirst(HasValue(ci, v), l, rest);
      RowsOfFirst(l, rest);
      RowsOfFirst(l, Select(HasValue(ci, v), rest));
      LookUpFirst(RowsOf(ls), ci, v);
      LookUpSingle(l, ci, v);
      assert [] + Select(HasValue(ci, v), rest) == Select(HasValue(ci, v), rest);
      assert [] + LookUp(RowsOf(rest), ci, v) == LookUp(RowsOf(rest), ci, v);
    }
  }

  lemma LookUpSingle(l: (int, Row), ci: nat, v: Value)
    ensures LookUp([l.1], ci, v) == if HasValue(ci, v)(l) then [l.1] else []
  {
    hide KeyOf;
    assert [l.1][..0] == [];
  }

  lemma NoRowsOf()
    ensures RowsOf([]) == []
  {
  }

  lemma RowsOfFirst(l: (int, Row), ls: seq<(int, Row)>)
    ensures RowsOf([l] + ls) == [l.1] + RowsOf(ls) && RowsOf([l] + ls)[1..] == RowsOf(ls)
  {
    assert ([l] + ls)[1..] == ls;
  }

  /** The primary key search that `BaseScan.ScanRows` speaks of */
  lemma {:induction false} SelectIsFindPk(ls: seq<(int, Row)>, j: nat, k: int)
    requires forall i :: 0 <= i < |ls| ==> j < |ls[i].1| && ls[i].1[j] == Int(ls[i].0)
    requires Increasing(ls)
    ensures RowsOf(Select(HasId(k), ls)) == FindPk(RowsOf(ls), j, k)
    decreases |ls|
  {
    if ls != [] {
      var rest := ls[1..];
      assert forall i :: 0 <= i < |rest| ==> rest[i] == ls[i + 1];
      assert RowsOf(ls)[1..] == RowsOf(rest);
      SelectIsFindPk(rest, j, k);
      if ls[0].0 == k {
        NotAgain(rest, k);
        assert Select(HasId(k), ls) == [ls[0]];
        assert RowsOf([ls[0]]) == [ls[0].1] + RowsOf([ls[0]][1..]);
      } else {
        assert Select(HasId(k), ls) == Select(HasId(k), rest);
      }
    }
  }

  lemma {:induction false} NotAgain(ls: seq<(int, Row)>, k: int)
    requires forall i :: 0 <= i < |ls| ==> ls[i].0 != k
    ensures Select(HasId(k), ls) == []
    decreases |ls|
  {
    if ls != [] {
      NotAgain(ls[1..], k);
    }
  }

  // ---- the shortcuts of UPDATE and DELETE ------------------------------------------------------

  /** Rows as wide as the table, each with its id as primary key, if there is one. */
  ghost predicate Laid(rows: Table, base: Source, pk: Option<string>) {
    && (pk.Some? ==> pk.value in base.cols)
    && forall rid :: rid in rows ==>
         |rows[rid]| == |base.cols| && (pk.Some? ==> rows[rid][IndexOf(base.cols, pk.value)] == Int(rid))
  }

  /** A conjunct that a shortcut can use. */
  predicate Fixes(c: Expr, base: Source, pk: Option<string>, indexed: set<nat>) {
    var d := AsColumnLiteral(c);
    && d.Some?
    && ColumnMatches(d.value.table, d.value.name, base)
    && (pk == Some(d.value.name) || IndexOf(base.cols, d.value.name) in indexed)
  }

  /** No LIKE and no division, which are not part of this model. */
  predicate InScope(where': Option<Expr>) {
    where'.Some? ==> Covered(where'.value)
  }

  function KeptBy(where': Option<Expr>, base: Source): Chooser {
    (l: (int, Row)) => where'.None? || Keeps(where'.value, [Some(l.1)], [base])
  }

  predicate RaisesOn(where': Expr, base: Source, l: (int, Row)) {
    Raises(where', [Some(l.1)], [base])
  }

  /** Scanning the whole table with the whole WHERE; None is an exception. */
  function FullScan(where': Option<Expr>, base: Source, rows: Table): Option<seq<(int, Row)>> {
    if where'.None? then Some(ScanTable(rows))
    else if Compile(where'.value, [base]).None? then None
    else if exists i :: 0 <= i < |ScanTable(rows)| && RaisesOn(where'.value, base, ScanTable(rows)[i]) then None
    else Some(Select(KeptBy(where', base), ScanTable(rows)))
  }

  /** The chosen rows include all rows that WHERE keeps. */
  ghost predicate Covers(q: Chooser, where': Expr, base: Source, rows: Table) {
    forall rid :: rid in rows && Keeps(where', [Some(rows[rid])], [base]) ==> q((rid, rows[rid]))
  }

  function Everything(): Chooser {
    (l: (int, Row)) => true
  }

  lemma {:induction false} EverythingSelected(p: Chooser, ls: seq<(int, Row)>)
    requires forall l :: l in ls ==> p(l)
    ensures Select(p, ls) == ls
    decreases |ls|
  {
    if ls != [] {
      assert forall l :: l in ls[1..] ==> l in ls;
      EverythingSelected(p, ls[1..]);
    }
  }

  lemma AllSelected(base: Source, ls: seq<(int, Row)>)
    ensures Select(KeptBy(None, base), ls) == ls
  {
    EverythingSelected(KeptBy(None, base), ls);
  }

  lemma AllCover(where': Expr, base: Source, rows: Table)
    ensures ScanTable(rows) == Select(Everything(), ScanTable(rows)) && Covers(Everything(), where', base, rows)
  {
    EverythingSelected(Everything(), ScanTable(rows));
  }

  /** A row that WHERE keeps has the value that one of its conjuncts asks for. */
  lemma KeptHasValue(where': Expr, c: Expr, base: Source, row: Row)
    requires c in FlattenAnd(where') && AsColumnLiteral(c).Some? && |row| == |base.cols|
    requires var d := AsColumnLiteral(c).value; ColumnMatches(d.table, d.name, base)
    requires Keeps(where', [Some(row)], [base])
    ensures var d := AsColumnLiteral(c).value; SameValue(row, IndexOf(base.cols, d.name), d.value)
  {
    ConjunctsHold(where', [Some(row)], [base]);
    assert Holds(Compile(where', [base]).value([Some(row)]));
    assert AllHold(FlattenAnd(where'), [Some(row)], [base]);
    assert BooleanValued(c);
    hide Compile, FlattenAnd, Holds, Equal, IndexOf, ColumnMatches;
    BooleanIsStrict(c, [Some(row)], [base]);
    ConjunctTests(c, base, [Some(row)]);
  }

  lemma ValueCovers(where': Expr, c: Expr, base: Source, pk: Option<string>, rows: Table)
    requires c in FlattenAnd(where') && AsColumnLiteral(c).Some? && Laid(rows, base, pk)
    requires var d := AsColumnLiteral(c).value; ColumnMatches(d.table, d.name, base)
    ensures var d := AsColumnLiteral(c).value;
      Covers(HasValue(IndexOf(base.cols, d.name), d.value), where', base, rows)
  {
    var d := AsColumnLiteral(c).value;
    var ci := IndexOf(base.cols, d.name);
    hide Keeps, FlattenAnd;
    forall rid | rid in rows && Keeps(where', [Some(rows[rid])], [base])
      ensures HasValue(ci, d.value)((rid, rows[rid]))
    {
      KeptHasValue(where', c, base, rows[rid]);
      KeysAreEquality(rows[rid][ci], d.value);
      hide Equal, KeyOf, IndexOf, AsColumnLiteral;
    }
  }

  lemma KeyCovers(where': Expr, c: Expr, base: Source, pk: Option<string>, rows: Table)
    requires c in FlattenAnd(where') && AsColumnLiteral(c).Some? && Laid(rows, base, pk)
    requires var d := AsColumnLiteral(c).value;
      ColumnMatches(d.table, d.name, base) && pk == Some(d.name) && d.value.Int?
    ensures Covers(HasId(AsColumnLiteral(c).value.value.i), where', base, rows)
  {
    var d := AsColumnLiteral(c).value;
    hide Keeps, FlattenAnd, IndexOf, AsColumnLiteral;
    forall rid | rid in rows && Keeps(where', [Some(rows[rid])], [base])
      ensures HasId(d.value.i)((rid, rows[rid]))
    {
      KeptHasValue(where', c, base, rows[rid]);
    }
  }

  /** Every row of a scan is a row of the table. */
  ghost predicate OfTable(ls: seq<(int, Row)>, rows: Table) {
    forall i :: 0 <= i < |ls| ==> ls[i].0 in rows && rows[ls[i].0] == ls[i].1
  }

  lemma {:induction false} RowsForOfTable(rows: Table, rids: seq<int>)
    ensures OfTable(RowsFor(rows, rids), rows)
    decreases |rids|
  {
    if rids != [] {
      RowsForOfTable(rows, rids[1..]);
    }
  }

  lemma {:induction false} SelectTwice(p: Chooser, q: Chooser, ls: seq<(int, Row)>)
    requires forall i :: 0 <= i < |ls| && p(ls[i]) ==> q(ls[i])
    ensures Select(p, Select(q, ls)) == Select(p, ls)
    decreases |ls|
  {
    if ls != [] {
      assert forall i :: 0 <= i < |ls[1..]| ==> ls[1..][i] == ls[i + 1];
      SelectTwice(p, q, ls[1..]);
      var rest := Select(q, ls[1..]);
      assert ([ls[0]] + rest)[1..] == rest && [] + rest == rest;
    }
  }

  lemma {:induction false} SelectedFrom(q: Chooser, ls: seq<(int, Row)>, k: nat) returns (i: nat)
    requires k < |Select(q, ls)|
    ensures i < |ls| && ls[i] == Select(q, ls)[k]
    decreases |ls|
  {
    if q(ls[0]) && k == 0 {
      i := 0;
    } else {
      i := SelectedFrom(q, ls[1..], if q(ls[0]) then k - 1 else k);
      i := i + 1;
    }
  }

  /** Candidates that cover WHERE give its rows, and an exception in one of them is an
      exception of the full scan. */
  lemma CandidatesAreEnough(q: Chooser, where': Expr, base: Source, rows: Table)
    requires Covers(q, where', base, rows) && Compile(where', [base]).Some?
    ensures var source, kept := Select(q, ScanTable(rows)), Select(KeptBy(Some(where'), base), ScanTable(rows));
      && Select(KeptBy(Some(where'), base), source) == kept
      && (FullScan(Some(where'), base, rows).Some? ==> FullScan(Some(where'), base, rows).value == kept)
      && (forall k :: 0 <= k < |source| && RaisesOn(where', base, source[k]) ==>
        FullScan(Some(where'), base, rows).None?)
  {
    var all := ScanTable(rows);
    RowsForOfTable(rows, Ascending(rows.Keys));
    assert OfTable(all, rows);
    hide Keeps, ScanTable, Compile;
    forall i | 0 <= i < |all| && KeptBy(Some(where'), base)(all[i])
      ensures q(all[i])
    {
      assert all[i] == (all[i].0, rows[all[i].0]);
    }
    SelectTwice(KeptBy(Some(where'), base), q, all);
    forall k | 0 <= k < |Select(q, all)| && RaisesOn(where', base, Select(q, all)[k])
      ensures FullScan(Some(where'), base, rows).None?
    {
      var i := SelectedFrom(q, all, k);
      assert RaisesOn(where', base, all[i]);
    }
  }

  lemma WhereSays(where': Expr, base: Source, l: (int, Row))
    requires Compile(where', [base]).Some?
    ensures var o := Compile(where', [base]).value([Some(l.1)]);
      && (KeptBy(Some(where'), base)(l) <==> o == Val(Bool(true)))
      && (RaisesOn(where', base, l) <==> o == Fail)
  {
    hide Compile;
  }

  // ---- the rows of a statement -------------------------------------------------------------------

  function Ids(ls: seq<(int, Row)>): set<int> {
    set i | 0 <= i < |ls| :: ls[i].0
  }

  function Unkept(rows: Table, where': Option<Expr>, base: Source): Table {
    map rid | rid in rows && !KeptBy(where', base)((rid, rows[rid])) :: rows[rid]
  }

  /** The rows that p chooses have new values, the others their old ones. */
  ghost predicate Reassigned(rows: Table, rows': Table, p: Chooser, assign: Row -> Option<Row>) {
    && rows'.Keys == rows.Keys
    && forall rid :: rid in rows ==>
         if p((rid, rows[rid])) then Some(rows'[rid]) == assign(rows[rid]) else rows'[rid] == rows[rid]
  }

  /** Some chosen row cannot be assigned. */
  ghost predicate Unassignable(rows: Table, p: Chooser, assign: Row -> Option<Row>) {
    exists rid :: rid in rows && p((rid, rows[rid])) && assign(rows[rid]).None?
  }

  ghost predicate Increasing(ls: seq<(int, Row)>) {
    forall i, j :: 0 <= i < j < |ls| ==> ls[i].0 < ls[j].0
  }

  ghost predicate AllAbove(rid: int, ls: seq<(int, Row)>) {
    forall i :: 0 <= i < |ls| ==> rid < ls[i].0
  }

  lemma IncreasingFirst(l: (int, Row), ls: seq<(int, Row)>)
    ensures Increasing([l] + ls) <==> Increasing(ls) && AllAbove(l.0, ls)
  {
    var all := [l] + ls;
    assert forall i :: 0 <= i < |ls| ==> all[i + 1] == ls[i];
    if Increasing(all) {
      forall i, j | 0 <= i < j < |ls|
        ensures ls[i].0 < ls[j].0
      {
        assert all[i + 1].0 < all[j + 1].0;
      }
      forall i | 0 <= i < |ls|
        ensures l.0 < ls[i].0
      {
        assert all[0].0 < all[i + 1].0;
      }
    }
  }

  ghost predicate AllBeyond(rid: int, rids: seq<int>) {
    forall i :: 0 <= i < |rids| ==> rid < rids[i]
  }

  lemma {:induction false} RowsForAbove(rows: Table, rids: seq<int>, rid: int)
    requires AllBeyond(rid, rids)
    ensures AllAbove(rid, RowsFor(rows, rids))
    decreases |rids|
  {
    if rids != [] {
      RowsForAbove(rows, rids[1..], rid);
    }
  }

  lemma {:induction false} RowsForIncreases(rows: Table, rids: seq<int>)
    requires forall i, j :: 0 <= i < j < |rids| ==> rids[i] < rids[j]
    ensures Increasing(RowsFor(rows, rids))
    decreases |rids|
  {
    if rids != [] {
      var rest := RowsFor(rows, rids[1..]);
      RowsForIncreases(rows, rids[1..]);
      RowsForAbove(rows, rids[1..], rids[0]);
      hide Increasing, AllAbove;
      if rids[0] in rows {
        IncreasingFirst((rids[0], rows[rids[0]]), rest);
      }
      assert [] + rest == rest;
    }
  }

  lemma {:induction false} SelectIncreases(p: Chooser, ls: seq<(int, Row)>)
    requires Increasing(ls)
    ensures Increasing(Select(p, ls))
    ensures forall rid :: AllAbove(rid, ls) ==> AllAbove(rid, Select(p, ls))
    decreases |ls|
  {
    if ls == [] {
      NoneSelected(p);
    } else {
      var rest := Select(p, ls[1..]);
      assert ls == [ls[0]] + ls[1..];
      SelectFirst(p, ls[0], ls[1..]);
      IncreasingFirst(ls[0], ls[1..]);
      hide Select, Increasing;
      SelectIncreases(p, ls[1..]);
      assert AllAbove(ls[0].0, rest);
      IncreasingFirst(ls[0], rest);
      assert [] + rest == rest;
      forall rid | AllAbove(rid, ls)
        ensures AllAbove(rid, Select(p, ls))
      {
        assert AllAbove(rid, ls[1..]) && rid < ls[0].0;
      }
    }
  }

  lemma {:induction false} SelectHolds(p: Chooser, ls: seq<(int, Row)>, l: (int, Row))
    ensures l in Select(p, ls) <==> l in ls && p(l)
    decreases |ls|
  {
    if ls != [] {
      SelectHolds(p, ls[1..], l);
      SelectFirst(p, ls[0], ls[1..]);
      assert ls == [ls[0]] + ls[1..];
      hide Select;
    }
  }

  lemma {:induction false} RowsForHolds(rows: Table, rids: seq<int>, rid: int)
    requires rid in rids && rid in rows
    ensures (rid, rows[rid]) in RowsFor(rows, rids)
    decreases |rids|
  {
    if rids[0] != rid {
      RowsForHolds(rows, rids[1..], rid);
    }
  }

  /** The matching rows are rows of the table, each once. */
  lemma MatchedRows(rows: Table, p: Chooser)
    ensures var ls := Select(p, ScanTable(rows));
      && Increasing(ls) && OfTable(ls, rows)
      && (forall i :: 0 <= i < |ls| ==> p(ls[i]))
      && (forall rid :: rid in rows && p((rid, rows[rid])) ==> (rid, rows[rid]) in ls)
  {
    var rids := Ascending(rows.Keys);
    var all := ScanTable(rows);
    AscendingIncreases(rows.Keys);
    RowsForIncreases(rows, rids);
    RowsForOfTable(rows, rids);
    hide *;
    SelectIncreases(p, all);
    MatchedHold(rows, p, all);
    forall rid | rid in rows && p((rid, rows[rid]))
      ensures (rid, rows[rid]) in Select(p, all)
    {
      RowsForHolds(rows, rids, rid);
      SelectHolds(p, all, (rid, rows[rid]));
    }
  }

  /** The ids of the rows that p chooses. */
  ghost function KeptIds(rows: Table, p: Chooser): set<int> {
    set rid | rid in rows && p((rid, rows[rid]))
  }

  lemma {:induction false} CountIds(ls: seq<(int, Row)>)
    requires Increasing(ls)
    ensures |Ids(ls)| == |ls|
    decreases |ls|
  {
    if ls == [] {
      assert Ids(ls) == {};
    } else {
      var n := |ls| - 1;
      CountIds(ls[..n]);
      assert forall i :: 0 <= i < n ==> ls[..n][i] == ls[i];
      assert Ids(ls) == Ids(ls[..n]) + {ls[n].0};
    }
  }

  lemma CountKept(rows: Table, p: Chooser)
    ensures |Select(p, ScanTable(rows))| == |KeptIds(rows, p)|
  {
    var ls := Select(p, ScanTable(rows));
    MatchedRows(rows, p);
    hide Select, ScanTable;
    CountIds(ls);
    forall rid
      ensures rid in Ids(ls) <==> rid in KeptIds(rows, p)
    {
      if rid in Ids(ls) {
        var i :| 0 <= i < |ls| && ls[i].0 == rid;
        assert p(ls[i]) && ls[i] == (rid, rows[rid]);
      }
      if rid in KeptIds(rows, p) {
        var i :| 0 <= i < |ls| && ls[i] == (rid, rows[rid]);
      }
    }
    assert Ids(ls) == KeptIds(rows, p);
  }

  lemma MatchedHold(rows: Table, p: Chooser, all: seq<(int, Row)>)
    requires OfTable(all, rows)
    ensures var ls := Select(p, all);
      OfTable(ls, rows) && forall i :: 0 <= i < |ls| ==> p(ls[i])
  {
    var ls := Select(p, all);
    forall k | 0 <= k < |ls|
      ensures p(ls[k]) && ls[k].0 in rows && rows[ls[k].0] == ls[k].1
    {
      assert ls[k] in ls;
      SelectHolds(p, all, ls[k]);
      hide Select;
    }
  }

  lemma IdsMore(ls: seq<(int, Row)>, i: nat)
    requires i < |ls|
    ensures Ids(ls[..i + 1]) == Ids(ls[..i]) + {ls[i].0}
  {
    assert ls[..i + 1] == ls[..i] + [ls[i]];
    assert forall k :: 0 <= k < i ==> ls[..i + 1][k] == ls[..i][k];
    assert ls[..i + 1][i] == ls[i];
  }

  lemma NoIds(rows: Table)
    ensures rows - Ids([]) == rows
  {
  }

  lemma AsScanned(rows: Table, ls: seq<(int, Row)>, i: nat)
    requires i < |ls| && OfTable(ls, rows)
    ensures var left := rows - Ids(ls[..i]); ls[i].0 in left ==> left[ls[i].0] == ls[i].1
  {
    hide Ids;
  }

  lemma OneMoreGone(rows: Table, ls: seq<(int, Row)>, i: nat)
    requires i < |ls|
    ensures rows - Ids(ls[..i]) - {ls[i].0} == rows - Ids(ls[..i + 1])
  {
    IdsMore(ls, i);
    hide Ids;
  }

  lemma RemovedSize(rows: Table, rid: int)
    ensures |rows - {rid}| == if rid in rows then |rows| - 1 else |rows|
  {
    assert (rows - {rid}).Keys == rows.Keys - {rid};
    assert |rows| == |rows.Keys| && |rows - {rid}| == |(rows - {rid}).Keys|;
  }

  lemma UnkeptAre(rows: Table, where': Option<Expr>, base: Source)
    ensures rows - Ids(Select(KeptBy(where', base), ScanTable(rows))) == Unkept(rows, where', base)
  {
    var p := KeptBy(where', base);
    MatchedRows(rows, p);
    var ls := Select(p, ScanTable(rows));
    hide KeptBy, Select, ScanTable;
    forall rid | rid in rows
      ensures rid in Ids(ls) <==> p((rid, rows[rid]))
    {
      if rid in Ids(ls) {
        var i :| 0 <= i < |ls| && ls[i].0 == rid;
        assert ls[i] == (rid, rows[rid]);
      }
      if p((rid, rows[rid])) {
        var i :| 0 <= i < |ls| && ls[i] == (rid, rows[rid]);
      }
    }
  }

  ghost predicate Untouched(rows: Table, rows': Table, ids: set<int>) {
    forall rid :: rid in rows && rid !in ids ==> rid in rows' && rows'[rid] == rows[rid]
  }

  /** The first n matched rows have been assigned. */
  ghost predicate AssignedUpTo(rows: Table, rows': Table, ls: seq<(int, Row)>, n: nat, assign: Row -> Option<Row>)
    requires n <= |ls|
  {
    && rows'.Keys == rows.Keys
    && (forall i :: 0 <= i < n ==> ls[i].0 in rows' && Some(rows'[ls[i].0]) == assign(ls[i].1))
    && Untouched(rows, rows', Ids(ls[..n]))
  }

  lemma NothingAssigned(rows: Table, ls: seq<(int, Row)>, assign: Row -> Option<Row>)
    ensures AssignedUpTo(rows, rows, ls, 0, assign)
  {
  }

  lemma CannotAssign(rows: Table, p: Chooser, ls: seq<(int, Row)>, i: nat, assign: Row -> Option<Row>)
    requires i < |ls| && OfTable(ls, rows) && p(ls[i]) && assign(ls[i].1).None?
    ensures Unassignable(rows, p, assign)
  {
    var rid := ls[i].0;
    assert ls[i] == (rid, rows[rid]);
    assert rid in rows && p((rid, rows[rid])) && assign(rows[rid]).None?;
  }

  /** A matched row that has not been reached is as it was. */
  lemma StillThere(rows: Table, rows': Table, ls: seq<(int, Row)>, n: nat,
                   assign: Row -> Option<Row>)
    requires n < |ls| && Increasing(ls) && OfTable(ls, rows) && AssignedUpTo(rows, rows', ls, n, assign)
    ensures ls[n].0 in rows' && rows'[ls[n].0] == ls[n].1
  {
    assert forall i :: 0 <= i < n ==> ls[..n][i].0 < ls[n].0;
    var rid, ids := ls[n].0, Ids(ls[..n]);
    assert rid in rows && rid !in ids;
  }

  lemma OneMoreAssigned(rows: Table, rows': Table, ls: seq<(int, Row)>, n: nat, assign: Row -> Option<Row>)
    requires n < |ls| && Increasing(ls) && OfTable(ls, rows) && AssignedUpTo(rows, rows', ls, n, assign)
    requires assign(ls[n].1).Some?
    ensures AssignedUpTo(rows, rows'[ls[n].0 := assign(ls[n].1).value], ls, n + 1, assign)
  {
    IdsMore(ls, n);
    hide Ids;
  }

  lemma AllAssigned(rows: Table, rows': Table, p: Chooser, ls: seq<(int, Row)>, assign: Row -> Option<Row>)
    requires OfTable(ls, rows) && AssignedUpTo(rows, rows', ls, |ls|, assign)
    requires forall i :: 0 <= i < |ls| ==> p(ls[i])
    requires forall rid :: rid in rows && p((rid, rows[rid])) ==> (rid, rows[rid]) in ls
    ensures Reassigned(rows, rows', p, assign)
  {
    assert ls[..|ls|] == ls;
    forall rid | rid in rows
      ensures if p((rid, rows[rid])) then Some(rows'[rid]) == assign(rows[rid]) else rows'[rid] == rows[rid]
    {
      if rid in Ids(ls) {
        var i :| 0 <= i < |ls| && ls[i].0 == rid;
        assert ls[i] == (rid, rows[rid]);
      }
      if p((rid, rows[rid])) {
        var i :| 0 <= i < |ls| && ls[i] == (rid, rows[rid]);
      }
    }
  }
}
