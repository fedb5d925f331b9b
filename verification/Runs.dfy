// Whole runs of the B+ tree: after any sequence of operations the tree denotes the
// table that the same operations make of a finite map.

module Runs {
  import opened Bytes
  import opened Cells
  import opened NodeCodec
  import opened Tree
  import opened TreeInsert
  import TreeDelete
  import opened TreeOps
  import opened TreeBounds
  import opened TreeFill
  import opened TreeCheck

  datatype Op =
    | Put(cell: Cell)
    | Set(cell: Cell)
    | Drop(key: int)

  /** What the caller sees: success, an exception, or whether the key was found.
      Crashed is the IndexError of a delete. */
  datatype Answer = Fine | Refused(error: Error) | WasThere(found: bool) | Crashed

  /** A tree, and the next page its pager would allocate. */
  datatype State = State(tree: Tree, free: nat)

  function Answered(r: Result<Tree, Error>, t: Tree): (Tree, Answer) {
    match r
    case Ok(t') => (t', Fine)
    case Err(e) => (t, Refused(e))
  }

  /** `insert`, `upsert` and `delete`, with the exceptions as answers */
  function Do(st: State, op: Op): (State, Answer)
    requires Shaped(st.tree)
  {
    match op
    case Put(c) =>
      var (r, free) := Insert(st.tree, c, st.free);
      var (t, a) := Answered(r, st.tree);
      (State(t, free), a)
    case Set(c) =>
      var (r, free) := Upsert(st.tree, c, st.free);
      var (t, a) := Answered(r, st.tree);
      (State(t, free), a)
    case Drop(k) =>
      match Delete(st.tree, k)
      case NotFound => (st, WasThere(false))
      case Deleted(t) => (State(t, st.free), WasThere(true))
      case IndexError(t) => (State(t, st.free), Crashed)
  }

  /** The same operation on a finite map, where nothing can run out of space. */
  function DoTable(m: Table, op: Op): (Table, Answer) {
    match op
    case Drop(k) => (m - {k}, WasThere(k in m))
    case _ =>
      var c := op.cell;
      if |c.val| > MAX_VALUE_SIZE then (m, Refused(ValueTooLarge))
      else if !IsI64(c.key) then (m, Refused(KeyOutOfRange))
      else if op.Put? && c.key in m then (m, Refused(DuplicateKey))
      else (m[c.key := c.val], Fine)
  }

  /** The answer a is the map's answer, or the failure of an operation that the map
      would have carried out. */
  predicate Excusable(op: Op, a: Answer, wanted: Answer) {
    || a == wanted
    || (a == Refused(PageOverflow) && wanted == Fine)
    || (a == Crashed && wanted == WasThere(true))
  }

  /** What an operation with a given answer makes of the table: a page overflow changes
      nothing, and a delete that crashes has deleted. */
  function Effect(m: Table, op: Op, a: Answer): Table {
    if a == Refused(PageOverflow) then m else DoTable(m, op).0
  }

  /** One operation, on the tree and on its table. */
  lemma DoMeans(st: State, op: Op)
    requires Whole(st.tree, st.free) && Room(st.tree, st.free)
    ensures Shaped(st.tree)
    ensures var (st', a) := Do(st, op); var m := TableOf(st.tree);
      && Whole(st'.tree, st'.free)
      && Excusable(op, a, DoTable(m, op).1) && TableOf(st'.tree) == Effect(m, op, a)
  {
    var t, m := st.tree, TableOf(st.tree);
    hide TableOf, Whole;
    match op {
      case Put(c) =>
        InsertWhole(t, st.free, c);
        InsertNeverLess(t, c, st.free);
        hide Insert;
        StillWhole(t, st.free, Insert(t, c, st.free).1);
      case Set(c) =>
        UpsertWhole(t, st.free, c);
        InsertNeverLess(t, c, st.free);
        hide Insert, Overwrite;
        StillWhole(t, st.free, Upsert(t, c, st.free).1);
      case Drop(k) =>
        DeleteWhole(t, st.free, k);
        hide Delete;
        assert k !in m ==> m - {k} == m;
    }
  }

  lemma StillWhole(t: Tree, free: nat, free': nat)
    requires Whole(t, free) && free <= free'
    ensures Whole(t, free')
  {
    hide Good;
    ApartMore(t, free, free');
  }

  /** A bad argument is refused before anything else is looked at. */
  lemma InsertNeverLess(t: Tree, c: Cell, free: nat)
    requires Shaped(t)
    ensures var r := Insert(t, c, free).0;
      && (|c.val| > MAX_VALUE_SIZE ==> r == Err(ValueTooLarge))
      && (|c.val| <= MAX_VALUE_SIZE && !IsI64(c.key) ==> r == Err(KeyOutOfRange))
  {
    hide InsertAt;
  }

  // ---- runs --------------------------------------------------------------------

  /** A run of operations and its answers. It ends early only if the page numbers run
      out, at about 2^32 pages. The tree is whole after every operation. */
  ghost function Run(st: State, ops: seq<Op>): (r: (State, seq<Answer>))
    requires Whole(st.tree, st.free)
    ensures Whole(r.0.tree, r.0.free) && |r.1| <= |ops|
    decreases |ops|
  {
    if ops == [] || !Room(st.tree, st.free) then (st, [])
    else
      DoMeans(st, ops[0]);
      var (st', a) := Do(st, ops[0]);
      var (end, rest) := Run(st', ops[1..]);
      (end, [a] + rest)
  }

  /** The operations of a run, replayed on a map with the answers they gave. */
  function Replayed(m: Table, ops: seq<Op>, answers: seq<Answer>): Table
    requires |answers| <= |ops|
    decreases |ops|
  {
    if answers == [] then m else Replayed(Effect(m, ops[0], answers[0]), ops[1..], answers[1..])
  }

  predicate Honest(m: Table, ops: seq<Op>, answers: seq<Answer>)
    requires |answers| <= |ops|
    decreases |ops|
  {
    answers == [] ||
    (Excusable(ops[0], answers[0], DoTable(m, ops[0]).1) &&
      Honest(Effect(m, ops[0], answers[0]), ops[1..], answers[1..]))
  }

  /** Whatever the operations, the table is what they say, and no answer is wrong: an
      operation either answers as it would on a map, or fails for lack of space. */
  lemma {:induction false} RunMeans(st: State, ops: seq<Op>)
    requires Whole(st.tree, st.free)
    ensures var (end, answers) := Run(st, ops); var m := TableOf(st.tree);
      TableOf(end.tree) == Replayed(m, ops, answers) && Honest(m, ops, answers)
    decreases |ops|
  {
    if ops != [] && Room(st.tree, st.free) {
      DoMeans(st, ops[0]);
      var (st', a) := Do(st, ops[0]);
      RunMeans(st', ops[1..]);
      var (end, rest) := Run(st', ops[1..]);
      assert Run(st, ops) == (end, [a] + rest) && ([a] + rest)[1..] == rest;
      hide Run, Do, Effect, DoTable, TableOf, Excusable;
    }
  }

  /** Searching the tree at the end of a run is looking up the replayed map. */
  lemma RunSearch(st: State, ops: seq<Op>, k: int)
    requires Whole(st.tree, st.free)
    ensures var (end, answers) := Run(st, ops); var m := Replayed(TableOf(st.tree), ops, answers);
      Shaped(end.tree) && Search(end.tree, k) == if k in m then Some(m[k]) else None
  {
    RunMeans(st, ops);
    var (end, _) := Run(st, ops);
    hide Run, Replayed;
    SearchWhole(end.tree, end.free, k);
  }

  // ---- runs that never fail ------------------------------------------------------

  /** The run of a map. */
  function RunTable(m: Table, ops: seq<Op>): (Table, seq<Answer>)
    decreases |ops|
  {
    if ops == [] then (m, [])
    else
      var (m', a) := DoTable(m, ops[0]);
      var (end, rest) := RunTable(m', ops[1..]);
      (end, [a] + rest)
  }

  /** Cells of one size s and with keys in range. */
  ghost predicate Fixed(op: Op, s: nat) {
    op.Drop? || (CellSize(op.cell) == s && IsI64(op.cell.key))
  }

  ghost predicate AllFixed(ops: seq<Op>, s: nat) {
    forall i :: 0 <= i < |ops| ==> Fixed(ops[i], s)
  }

  lemma FixedDo(st: State, op: Op, s: nat)
    requires Whole(st.tree, st.free) && Room(st.tree, st.free) && Filled(st.tree, s, true)
    requires Fixed(op, s) && s <= MAX_FIXED
    ensures Shaped(st.tree)
    ensures var (st', a) := Do(st, op);
      && Whole(st'.tree, st'.free) && Filled(st'.tree, s, true)
      && (TableOf(st'.tree), a) == DoTable(TableOf(st.tree), op)
  {
    var t := st.tree;
    DoMeans(st, op);
    hide TableOf, Whole, Filled;
    match op {
      case Put(c) =>
        FixedInsert(t, st.free, c, s);
        hide Insert;
      case Set(c) =>
        FixedUpsert(t, st.free, c, s);
        hide Upsert;
      case Drop(k) =>
        FixedDelete(t, st.free, k, s);
        hide Delete;
    }
  }

  /** With cells of one size of at most 65 bytes the tree behaves exactly as the map, no
      operation fails, and no node below the root ever uses less than a third of its
      page. */
  lemma {:induction false} FixedRun(st: State, ops: seq<Op>, s: nat)
    requires Whole(st.tree, st.free) && Filled(st.tree, s, true) && AllFixed(ops, s) && s <= MAX_FIXED
    ensures var (end, answers) := Run(st, ops);
      && Filled(end.tree, s, true)
      && (TableOf(end.tree), answers) == RunTable(TableOf(st.tree), ops[..|answers|])
    decreases |ops|
  {
    if ops != [] && Room(st.tree, st.free) {
      DoMeans(st, ops[0]);
      FixedDo(st, ops[0], s);
      var (st', a) := Do(st, ops[0]);
      FixedRun(st', ops[1..], s);
      var (end, rest) := Run(st', ops[1..]);
      assert Run(st, ops) == (end, [a] + rest);
      var done := ops[..|rest| + 1];
      assert done[0] == ops[0] && done[1..] == ops[1..][..|rest|];
      hide Run, Do, DoTable, TableOf, Filled;
    }
  }

  /** From an empty tree: the table, and the height, after any run. */
  lemma FixedRunFromEmpty(ops: seq<Op>, s: nat)
    requires AllFixed(ops, s) && 0 < s <= MAX_FIXED
    ensures var st := State(Tip(0, [], None), 1);
      && Whole(st.tree, st.free)
      && var (end, answers) := Run(st, ops); var m := RunTable(map[], ops[..|answers|]).0;
         && TableOf(end.tree) == m
         && (Height(end.tree) >= 1 ==> |m| >= 2 * Least(s, Height(end.tree) - 1))
  {
    EmptyWhole(s);
    hide *;
    var st := State(Tip(0, [], None), 1);
    FixedRun(st, ops, s);
    var (end, answers) := Run(st, ops);
    TableSize(end.tree, end.free);
    if Height(end.tree) >= 1 {
      HeightBound(end.tree, end.free, s);
    }
  }

  lemma EmptyWhole(s: nat)
    ensures Whole(Tip(0, [], None), 1) && Filled(Tip(0, [], None), s, true) && TableOf(Tip(0, [], None)) == map[]
  {
  }

  lemma TableSize(t: Tree, free: nat)
    requires Whole(t, free)
    ensures |TableOf(t)| == |Items(t)|
  {
    ItemsSorted(t, Height(t), I64_MIN, I64_LIMIT, None);
    hide AsMap, Good, Items;
    MapSize(Items(t));
  }

  /** A run of distinct keys makes a map of its size. */
  lemma {:induction false} MapSize(s: seq<Cell>)
    requires Sorted(s)
    ensures |AsMap(s)| == |s|
    decreases |s|
  {
    if s != [] {
      MapSize(s[1..]);
      NotInRun(s[1..], s[0].key);
      assert AsMap(s) == map[s[0].key := s[0].val] + AsMap(s[1..]);
      hide AsMap;
      OneMoreKey(AsMap(s[1..]), s[0].key, s[0].val);
    }
  }

  lemma OneMoreKey(m: Table, k: int, v: seq<Byte>)
    requires k !in m
    ensures |map[k := v] + m| == |m| + 1
  {
    var m' := map[k := v] + m;
    assert m'.Keys == m.Keys + {k};
    assert |m'| == |m'.Keys| && |m| == |m.Keys|;
  }

  // ---- small cells of any sizes, without overwriting ---------------------------------

  ghost predicate SmallTable(m: Table) {
    forall k :: k in m ==> 12 + |m[k]| <= SMALL
  }

  lemma SmallItems(t: Tree, free: nat)
    requires Whole(t, free) && SmallTable(TableOf(t))
    ensures AllSmall(Items(t))
  {
    ItemsSorted(t, Height(t), I64_MIN, I64_LIMIT, None);
    hide AsMap, Good, Items, CellIndex;
    var s := Items(t);
    forall i | 0 <= i < |s|
      ensures CellSize(s[i]) <= SMALL
    {
      CellIndexIs(s, s[i].key, i);
      Lookup(s, s[i].key);
    }
  }

  ghost predicate SmallOp(op: Op) {
    match op
    case Put(c) => CellSize(c) <= SMALL
    case Set(_) => false
    case Drop(_) => true
  }

  lemma SmallDo(st: State, op: Op)
    requires Whole(st.tree, st.free) && Room(st.tree, st.free) && SmallTable(TableOf(st.tree)) && SmallOp(op)
    ensures Shaped(st.tree)
    ensures var (st', a) := Do(st, op);
      && Whole(st'.tree, st'.free) && SmallTable(TableOf(st'.tree))
      && (TableOf(st'.tree), a) == DoTable(TableOf(st.tree), op)
  {
    DoMeans(st, op);
    SmallItems(st.tree, st.free);
    hide TableOf, Whole, Items;
    match op {
      case Put(c) =>
        if IsI64(c.key) {
          SmallInsertSucceeds(st.tree, st.free, c);
        } else {
          InsertNeverLess(st.tree, c, st.free);
        }
        hide Insert;
      case Drop(k) =>
        SmallDeleteSucceeds(st.tree, k);
        hide Delete;
    }
  }

  /** With cells of at most 216 bytes, of any sizes, inserts and deletes behave exactly
      as on the map and never fail. */
  lemma {:induction false} SmallRun(st: State, ops: seq<Op>)
    requires Whole(st.tree, st.free) && SmallTable(TableOf(st.tree)) && forall i :: 0 <= i < |ops| ==> SmallOp(ops[i])
    ensures var (end, answers) := Run(st, ops);
      (TableOf(end.tree), answers) == RunTable(TableOf(st.tree), ops[..|answers|])
    decreases |ops|
  {
    if ops != [] && Room(st.tree, st.free) {
      DoMeans(st, ops[0]);
      SmallDo(st, ops[0]);
      var (st', a) := Do(st, ops[0]);
      SmallRun(st', ops[1..]);
      var (end, rest) := Run(st', ops[1..]);
      assert Run(st, ops) == (end, [a] + rest);
      var done := ops[..|rest| + 1];
      assert done[0] == ops[0] && done[1..] == ops[1..][..|rest|];
      hide Run, Do, DoTable, TableOf;
    }
  }

  // ---- how far a run gets -------------------------------------------------------------

  lemma CollapseHeight(t: Tree)
    ensures Height(TreeDelete.Collapse(t)) <= Height(t)
  {
  }

  /** One operation makes the tree at most one level higher, and allocates at most a page a
      level and two more. */
  lemma DoHeight(st: State, op: Op)
    requires Whole(st.tree, st.free) && Room(st.tree, st.free)
    ensures Shaped(st.tree)
    ensures var st' := Do(st, op).0;
      Height(st'.tree) <= Height(st.tree) + 1 && st'.free <= st.free + Height(st.tree) + 2
  {
    var t, h := st.tree, Height(st.tree);
    hide Whole, Height, TableOf;
    match op {
      case Put(c) => InsertHeight(t, st.free, c);
      case Set(c) =>
        InsertHeight(t, st.free, c);
        UpsertHeight(t, st.free, c);
        hide Upsert, Insert;
      case Drop(k) => DeleteHeight(t, st.free, k);
    }
  }

  lemma InsertHeight(t: Tree, free: nat, c: Cell)
    requires Whole(t, free) && Room(t, free)
    ensures Shaped(t)
    ensures var (r, free') := Insert(t, c, free);
      free' <= free + Height(t) + 2 && (r.Ok? ==> Height(r.value) <= Height(t) + 1)
  {
    InsertWhole(t, free, c);
    if |c.val| <= MAX_VALUE_SIZE && IsI64(c.key) {
      InsertFacts(t, free, c);
      var h, step := Height(t), InsertAt(t, c, free).0;
      hide InsertAt, Good, Whole, TableOf, StepContents;
      match step {
        case Fit(t') => GoodHeight(t', h, I64_MIN, I64_LIMIT, None);
        case Split(l, s, r) => GoodHeight(l, h, I64_MIN, s, Some(FirstPage(r)));
        case _ =>
      }
    }
  }

  lemma UpsertHeight(t: Tree, free: nat, c: Cell)
    requires Whole(t, free) && Room(t, free) && Shaped(t)
    requires var (r, free') := Insert(t, c, free);
      free' <= free + Height(t) + 2 && (r.Ok? ==> Height(r.value) <= Height(t) + 1)
    ensures var (r, free') := Upsert(t, c, free);
      free' <= free + Height(t) + 2 && (r.Ok? ==> Height(r.value) <= Height(t) + 1)
  {
    InsertNeverLess(t, c, free);
    if |c.val| <= MAX_VALUE_SIZE && IsI64(c.key) && Overwrite(t, c).Some? {
      var h := Height(t);
      ItemsSorted(t, h, I64_MIN, I64_LIMIT, None);
      OverwriteGood(t, c, h, I64_MIN, I64_LIMIT, None);
      hide Insert, Overwrite, Good, Items, OverwriteSorted;
      GoodHeight(Overwrite(t, c).value, h, I64_MIN, I64_LIMIT, None);
    }
    hide Insert, Overwrite;
  }

  lemma DeleteHeight(t: Tree, free: nat, k: int)
    requires Whole(t, free)
    ensures Shaped(t)
    ensures match Delete(t, k)
      case NotFound => true
      case Deleted(t') => Height(t') <= Height(t)
      case IndexError(t') => Height(t') == Height(t) && t'.page == t.page
  {
    var h := Height(t);
    DeleteFacts(t, free, k);
    var r := TreeDelete.DeleteAt(t, k);
    hide TreeDelete.DeleteAt, Good, GoodTop, Whole, TableOf, TreeDelete.RemovalContents, Items;
    match r {
      case Removed(t') =>
        GoodHeight(t', h, I64_MIN, I64_LIMIT, None);
        CollapseHeight(t');
      case Broken(t') =>
        GoodIsTop(t', h, I64_MIN, I64_LIMIT, None);
        GoodHeight(t', h, I64_MIN, I64_LIMIT, None);
      case Missing =>
    }
    hide Height, TreeDelete.Collapse;
  }

  /** Enough page numbers for n more operations, each of which may add a level. */
  ghost predicate Ample(st: State, n: nat) {
    st.free + n * (Height(st.tree) + n + 2) <= NO_PAGE
  }

  lemma AmpleStep(st: State, op: Op, n: nat)
    requires Whole(st.tree, st.free) && n > 0 && Ample(st, n)
    ensures Room(st.tree, st.free) && Shaped(st.tree) && Ample(Do(st, op).0, n - 1)
  {
    var h := Height(st.tree);
    MulTwo(n, h);
    DoHeight(st, op);
    var st' := Do(st, op).0;
    hide Do, Whole, Height;
    MulLess(n, h, Height(st'.tree));
  }

  lemma MulTwo(n: nat, h: nat)
    requires n > 0
    ensures n * (h + n + 2) >= h + 3
  {
    assert n * (h + n + 2) == (h + n + 2) + (n - 1) * (h + n + 2);
    assert (n - 1) * (h + n + 2) >= 0;
  }

  lemma MulLess(n: nat, h: nat, h': nat)
    requires n > 0 && h' <= h + 1
    ensures (n - 1) * (h' + (n - 1) + 2) + h + 2 <= n * (h + n + 2)
  {
    var a, b := h' + (n - 1) + 2, h + n + 2;
    TimesMonotone(a, b, n - 1);
    TimesOneLess(n, b);
  }

  lemma TimesOneLess(n: nat, b: nat)
    requires n > 0
    ensures n * b == (n - 1) * b + b
  {
  }

  /** With enough page numbers every operation of a run is answered. */
  lemma {:induction false} RunComplete(st: State, ops: seq<Op>)
    requires Whole(st.tree, st.free) && Ample(st, |ops|)
    ensures |Run(st, ops).1| == |ops|
    decreases |ops|
  {
    if ops != [] {
      AmpleStep(st, ops[0], |ops|);
      DoMeans(st, ops[0]);
      RunComplete(Do(st, ops[0]).0, ops[1..]);
      hide Do, Ample, TableOf, Whole;
    }
  }

  /** A tree of fixed-size cells that is six levels high would hold more rows than there are
      page numbers. */
  lemma {:induction false} LeastGrows(s: nat, h: nat, k: nat)
    requires 0 < s && k <= h
    ensures Least(s, h) >= Least(s, k)
    decreases h
  {
    if k < h {
      LeastGrows(s, h - 1, k);
    }
  }

  lemma FiveLevels(t: Tree, free: nat, s: nat)
    requires Whole(t, free) && Filled(t, s, true) && 0 < s <= MAX_FIXED && |TableOf(t)| <= NO_PAGE
    ensures Height(t) <= 5
  {
    TableSize(t, free);
    if Height(t) >= 6 {
      HeightBound(t, free, s);
      LeastGrows(s, Height(t) - 1, 5);
      LeastFive(s);
    }
    hide Filled, Whole, TableOf, Least, Height;
  }

  lemma LeastFive(s: nat)
    requires 0 < s <= MAX_FIXED
    ensures 2 * Least(s, 5) > NO_PAGE
  {
    assert MinLeafCells(s) >= 1;
    assert Least(s, 0) >= 1 && Least(s, 1) >= 114;
    assert Least(s, 2) >= 114 * 114;
    assert Least(s, 3) >= 114 * 114 * 114;
    assert Least(s, 4) >= 114 * 114 * 114 * 114;
  }

  /** With cells of one size, page numbers for seven pages an operation are enough. */
  lemma {:induction false} FixedComplete(st: State, ops: seq<Op>, s: nat)
    requires Whole(st.tree, st.free) && Filled(st.tree, s, true) && AllFixed(ops, s) && 0 < s <= MAX_FIXED
    requires |TableOf(st.tree)| + |ops| <= NO_PAGE && st.free + 7 * |ops| <= NO_PAGE
    ensures |Run(st, ops).1| == |ops|
    decreases |ops|
  {
    if ops != [] {
      FiveLevels(st.tree, st.free, s);
      DoMeans(st, ops[0]);
      FixedDo(st, ops[0], s);
      DoHeight(st, ops[0]);
      OneMoreRow(TableOf(st.tree), ops[0]);
      FixedComplete(Do(st, ops[0]).0, ops[1..], s);
      hide Do, DoTable, TableOf, Whole, Filled;
    }
  }

  lemma OneMoreRow(m: Table, op: Op)
    ensures |DoTable(m, op).0| <= |m| + 1
  {
    match op
    case Drop(k) => RowRemoved(m, k);
    case _ => RowSet(m, op.cell.key, op.cell.val);
  }

  lemma RowRemoved(m: Table, k: int)
    ensures |m - {k}| <= |m|
  {
    var m' := m - {k};
    assert m'.Keys == m.Keys - {k};
    assert |m'| == |m'.Keys| && |m| == |m.Keys|;
  }

  lemma RowSet(m: Table, k: int, v: seq<Byte>)
    ensures |m[k := v]| <= |m| + 1
  {
    var m' := m[k := v];
    assert m'.Keys == m.Keys + {k};
    assert |m'| == |m'.Keys| && |m| == |m.Keys|;
  }

  /** Up to 600 million operations on cells of one size, from an empty tree: every one is
      answered as a map would, the tree is the map, and `check` passes at the end. */
  lemma FixedRunChecked(ops: seq<Op>, s: nat)
    requires AllFixed(ops, s) && 0 < s <= MAX_FIXED && 1 + 7 * |ops| <= NO_PAGE
    ensures var st := State(Tip(0, [], None), 1);
      && Whole(st.tree, st.free)
      && var (end, answers) := Run(st, ops);
         (TableOf(end.tree), answers) == RunTable(map[], ops) && Checked(end.tree)
  {
    EmptyWhole(s);
    var st := State(Tip(0, [], None), 1);
    hide *;
    FixedRun(st, ops, s);
    FixedComplete(st, ops, s);
    var (end, answers) := Run(st, ops);
    CheckPasses(end.tree, end.free, s);
    assert ops[..|answers|] == ops;
  }
}
