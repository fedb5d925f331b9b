// How full the nodes stay, and what that says about the height of the tree: the
// case of cells that all have the same size, at most 65 bytes.

module TreeFill {
  import opened Bytes
  import opened Cells
  import opened NodeCodec
  import opened Tree
  import opened TreeInsert
  import opened TreeDelete
  import opened TreeOps
  import opened TreeBounds

  const MAX_FIXED: nat := 65

  /** The fewest separators an internal node of a third of a page has. */
  const MIN_KEYS: nat := 113

  ghost predicate AllSize(cells: seq<Cell>, s: nat) {
    forall i :: 0 <= i < |cells| ==> CellSize(cells[i]) == s
  }

  /** Every node below the root uses at least a third of its page. */
  ghost predicate Filled(t: Tree, s: nat, top: bool) {
    match t
    case Tip(_, cells, _) => AllSize(cells, s) && (top || 9 + CellsSize(cells) >= MIN_BYTES)
    case Fork(_, keys, kids) =>
      && |kids| == |keys| + 1 && (if top then |keys| >= 1 else |keys| >= MIN_KEYS)
      && FilledAll(kids, s)
  }

  ghost predicate FilledAll(kids: seq<Tree>, s: nat) {
    forall k :: k in kids ==> Filled(k, s, false)
  }

  /** A node that has just lost one cell or one separator. */
  ghost predicate Nearly(t: Tree, s: nat) {
    match t
    case Tip(_, cells, _) => AllSize(cells, s) && 9 + CellsSize(cells) + s >= MIN_BYTES
    case Fork(_, keys, kids) => |kids| == |keys| + 1 && |keys| + 1 >= MIN_KEYS && FilledAll(kids, s)
  }

  lemma FilledLoosely(t: Tree, s: nat)
    requires Filled(t, s, false)
    ensures Filled(t, s, true) && Nearly(t, s) && !Underflow(t)
  {
  }

  // ---- insert ------------------------------------------------------------------

  ghost predicate StepFilled(step: Step, s: nat, top: bool) {
    match step
    case Fit(t) => Filled(t, s, top)
    case Split(l, _, r) => Filled(l, s, false) && Filled(r, s, false)
    case _ => true
  }

  /** The cells of a leaf of equal cells, counted. */
  lemma EqualCells(cells: seq<Cell>, s: nat)
    requires AllSize(cells, s)
    ensures CellsSize(cells) == s * |cells|
  {
    CellsSizeBounds(cells, s, s);
  }

  lemma InsertTipFilled(t: Tree, c: Cell, free: nat, s: nat, top: bool)
    requires t.Tip? && Filled(t, s, top) && CellSize(c) == s <= MAX_FIXED
    ensures StepFilled(InsertAt(t, c, free).0, s, top)
  {
    var all := InsertSorted(t.cells, c);
    InsertSize(t.cells, c);
    assert AllSize(all, s);
    assert top || 9 + CellsSize(all) >= MIN_BYTES;
    assert InsertAt(t, c, free).0.Duplicate? || InsertAt(t, c, free) == SplitTipOrFit(t.page, all, t.next, free);
    hide *;
    PlacedFilled(t.page, all, t.next, free, s, top);
    if InsertAt(t, c, free).0.Duplicate? {
      DuplicateFilled(s, top);
    }
  }

  lemma DuplicateFilled(s: nat, top: bool)
    ensures StepFilled(Duplicate, s, top)
  {
  }

  /** A leaf with its new cell in place, written or split. */
  function SplitTipOrFit(page: nat, cells: seq<Cell>, next: Option<nat>, free: nat): (Step, nat) {
    if NodeSize(Leaf(cells, next)) <= PAGE_SIZE then (Fit(Tip(page, cells, next)), free)
    else SplitTip(page, cells, next, free)
  }

  lemma PlacedFilled(page: nat, all: seq<Cell>, next: Option<nat>, free: nat, s: nat, top: bool)
    requires AllSize(all, s) && s <= MAX_FIXED && (top || 9 + CellsSize(all) >= MIN_BYTES)
    ensures StepFilled(SplitTipOrFit(page, all, next, free).0, s, top)
  {
    hide CellsSize;
    if 9 + CellsSize(all) > PAGE_SIZE {
      var mid := |all| / 2;
      EqualCells(all, s);
      EqualCells(all[..mid], s);
      EqualCells(all[mid..], s);
      HalfFull(s, |all|);
    }
  }

  /** Half of an overfull run of equal cells is more than a third of a page. */
  lemma HalfFull(s: nat, n: nat)
    requires s <= MAX_FIXED && s * n > PAGE_SIZE - 9
    ensures s * (n / 2) >= MIN_BYTES && s * (n - n / 2) >= MIN_BYTES
  {
    var m := n / 2;
    assert n <= 2 * m + 1;
    assert s * n <= s * (2 * m + 1) == 2 * (s * m) + s;
    assert s * (n - m) >= s * m;
  }

  lemma PropagateFilled(page: nat, keys: seq<int>, kids: seq<Tree>, i: nat, step: Step, free: nat, s: nat, top: bool)
    requires |kids| == |keys| + 1 && i < |kids| && Filled(Fork(page, keys, kids), s, top)
    requires StepFilled(step, s, false)
    ensures StepFilled(Propagate(page, keys, kids, i, step, free).0, s, top)
  {
    hide Filled, NodeSize;
    assert FilledAll(kids, s) by {
      FilledKids(page, keys, kids, s, top);
    }
    FilledKids(page, keys, kids, s, top);
    match step {
      case Fit(kid) =>
        assert FilledAll(kids[i := kid], s);
        FilledFork(page, keys, kids[i := kid], s, top);
      case Split(l, sep, r) =>
        var keys', kids' := keys[..i] + [sep] + keys[i..], kids[..i] + [l, r] + kids[i + 1..];
        assert FilledAll(kids', s);
        AbsorbFilled(page, keys', kids', free, s, top);
      case _ =>
    }
  }

  lemma FilledKids(page: nat, keys: seq<int>, kids: seq<Tree>, s: nat, top: bool)
    requires Filled(Fork(page, keys, kids), s, top)
    ensures FilledAll(kids, s) && |keys| >= 1 && (top || |keys| >= MIN_KEYS)
  {
  }

  lemma FilledFork(page: nat, keys: seq<int>, kids: seq<Tree>, s: nat, top: bool)
    requires |kids| == |keys| + 1 && |keys| >= 1 && (top || |keys| >= MIN_KEYS) && FilledAll(kids, s)
    ensures Filled(Fork(page, keys, kids), s, top)
  {
  }

  /** An internal node splits at 341 separators, into halves of 170. */
  lemma AbsorbFilled(page: nat, keys: seq<int>, kids: seq<Tree>, free: nat, s: nat, top: bool)
    requires |kids| == |keys| + 1 && |keys| >= 1 && (top || |keys| >= MIN_KEYS) && FilledAll(kids, s)
    ensures var n := NodeSize(NodeOf(Fork(page, keys, kids)));
      && (n <= PAGE_SIZE ==> Filled(Fork(page, keys, kids), s, top))
      && (n > PAGE_SIZE ==> StepFilled(SplitFork(page, keys, kids, free).0, s, top))
  {
    hide Filled;
    var mid := |keys| / 2;
    FilledFork(page, keys, kids, s, top);
    if 13 + 12 * |keys| > PAGE_SIZE {
      assert FilledAll(kids[..mid + 1], s) && FilledAll(kids[mid + 1..], s);
      FilledFork(page, keys[..mid], kids[..mid + 1], s, false);
      FilledFork(free, keys[mid + 1..], kids[mid + 1..], s, false);
    }
  }

  lemma {:induction false} InsertFilled(t: Tree, c: Cell, free: nat, s: nat, top: bool)
    requires Shaped(t) && Filled(t, s, top) && CellSize(c) == s <= MAX_FIXED
    ensures StepFilled(InsertAt(t, c, free).0, s, top)
    decreases t
  {
    if t.Tip? {
      InsertTipFilled(t, c, free, s, top);
    } else {
      var i := ChildIndex(t.keys, c.key);
      assert t.kids[i] in t.kids;
      InsertFilled(t.kids[i], c, free, s, false);
      hide StepFilled, Propagate, FilledAll;
      var (step, free') := InsertAt(t.kids[i], c, free);
      PropagateFilled(t.page, t.keys, t.kids, i, step, free', s, top);
    }
  }

  // ---- overwrite ---------------------------------------------------------------

  lemma OverwriteSize(cells: seq<Cell>, c: Cell)
    requires Holds(cells, c.key)
    ensures CellsSize(OverwriteSorted(cells, c)) ==
      CellsSize(cells) - CellSize(cells[CellIndex(cells, c.key)]) + CellSize(c)
  {
    var i := CellIndex(cells, c.key);
    hide CellsSize, CellIndex;
    ReplaceSize(cells, i, c);
  }

  lemma ReplaceSize(cells: seq<Cell>, i: nat, c: Cell)
    requires i < |cells|
    ensures CellsSize(cells[i := c]) == CellsSize(cells) - CellSize(cells[i]) + CellSize(c)
  {
    Parts(cells, i);
    assert cells[i := c] == cells[..i] + [c] + cells[i + 1..];
    Sizes(c, c, c);
    Sizes(cells[i], cells[i], cells[i]);
    hide CellsSize;
    CellsSizeConcat(cells[..i] + [c], cells[i + 1..]);
    CellsSizeConcat(cells[..i], [c]);
    CellsSizeConcat(cells[..i] + [cells[i]], cells[i + 1..]);
    CellsSizeConcat(cells[..i], [cells[i]]);
  }

  lemma OverwriteTipFilled(t: Tree, c: Cell, s: nat, top: bool, h: nat, lo: int, hi: int, after: Option<nat>)
    requires t.Tip? && Filled(t, s, top) && CellSize(c) == s && Good(t, h, lo, hi, after) && Holds(Items(t), c.key)
    ensures Overwrite(t, c).Some? && Filled(Overwrite(t, c).value, s, top)
  {
    OverwriteSize(t.cells, c);
    hide CellsSize, CellIndex;
  }

  lemma OverwriteBelow(t: Tree, c: Cell, s: nat, top: bool, h: nat, lo: int, hi: int, after: Option<nat>)
    requires t.Fork? && Shaped(t) && Filled(t, s, top)
    requires Good(t, h, lo, hi, after) && lo <= c.key < hi && Holds(Items(t), c.key)
    ensures h > 0 && |t.kids| == |t.keys| + 1
    ensures var i := ChildIndex(t.keys, c.key); var kid := t.kids[i];
      && Shaped(kid) && Filled(kid, s, false) && Holds(Items(kid), c.key)
      && Lo(t.keys, i, lo) <= c.key < Hi(t.keys, i, hi)
      && Good(kid, h - 1, Lo(t.keys, i, lo), Hi(t.keys, i, hi), After(t.kids, i, after))
  {
    var i := ChildIndex(t.keys, c.key);
    ForkKid(t, c.key, h, lo, hi, after);
    assert t.kids[i] in t.kids && Items(t) == ItemsAll(t.kids) && FilledAll(t.kids, s);
    assert Filled(t.kids[i], s, false) && h > 0 && |t.kids| == |t.keys| + 1;
    HoldsIsFound(Items(t), c.key);
    hide *;
    ItemsAt(t.kids, i);
    FindAround(ItemsAll(t.kids[..i]), Items(t.kids[i]), ItemsAll(t.kids[i + 1..]), c.key);
    HoldsIsFound(Items(t.kids[i]), c.key);
  }

  lemma HoldsIsFound(s: seq<Cell>, k: int)
    ensures Holds(s, k) <==> Find(s, k).Some?
  {
  }

  lemma OverwriteForkFilled(t: Tree, c: Cell, s: nat, top: bool)
    requires t.Fork? && Shaped(t) && Filled(t, s, top)
    ensures var i := ChildIndex(t.keys, c.key);
      && i < |t.kids| && Shaped(t.kids[i])
      && var r := Overwrite(t.kids[i], c);
         r.Some? && Filled(r.value, s, false) ==> Overwrite(t, c).Some? && Filled(Overwrite(t, c).value, s, top)
  {
    var i := ChildIndex(t.keys, c.key);
    assert t.kids[i] in t.kids;
    var r := Overwrite(t.kids[i], c);
    if r.Some? && Filled(r.value, s, false) {
      assert FilledAll(t.kids[i := r.value], s);
    }
  }

  /** Overwriting a cell by one of the same size always fits and keeps the fill. */
  lemma {:induction false} OverwriteFilled(t: Tree, c: Cell, s: nat, top: bool,
                                           h: nat, lo: int, hi: int, after: Option<nat>)
    requires Shaped(t) && Filled(t, s, top) && CellSize(c) == s
    requires Good(t, h, lo, hi, after) && lo <= c.key < hi && Holds(Items(t), c.key)
    ensures Overwrite(t, c).Some? && Filled(Overwrite(t, c).value, s, top)
    decreases h
  {
    hide *;
    if t.Tip? {
      OverwriteTipFilled(t, c, s, top, h, lo, hi, after);
    } else {
      var i := ChildIndex(t.keys, c.key);
      OverwriteBelow(t, c, s, top, h, lo, hi, after);
      OverwriteFilled(t.kids[i], c, s, false, h - 1, Lo(t.keys, i, lo), Hi(t.keys, i, hi), After(t.kids, i, after));
      OverwriteForkFilled(t, c, s, top);
    }
  }

  // ---- delete ------------------------------------------------------------------

  lemma BorrowFromLeftFilled(left: Tree, child: Tree, sep: int, s: nat)
    requires Peers(left, child) && CanSpare(left) && CanLend(left)
    requires Filled(left, s, false) && Nearly(child, s) && s <= MAX_FIXED
    ensures var (l, _, c) := BorrowFromLeft(left, child, sep);
      Filled(l, s, false) && Filled(c, s, false)
  {
    if left.Tip? {
      var n := |left.cells| - 1;
      var c := left.cells[n];
      assert left.cells[n..] == [c];
      Sizes(c, c, c);
      hide CellsSize;
      Shorter(left.cells, n);
      CellsSizeConcat([c], child.cells);
    } else {
      assert left.kids[|left.keys|] in left.kids;
    }
  }

  lemma BorrowFromRightFilled(child: Tree, right: Tree, sep: int, s: nat)
    requires Peers(child, right) && CanSpare(right) && CanLend(right) && (right.Tip? ==> |right.cells| > 1)
    requires Filled(right, s, false) && Nearly(child, s) && s <= MAX_FIXED
    ensures var (c, _, r) := BorrowFromRight(child, right, sep);
      Filled(c, s, false) && Filled(r, s, false)
  {
    if right.Tip? {
      var c := right.cells[0];
      assert right.cells[..1] == [c];
      Sizes(c, c, c);
      hide CellsSize;
      Shorter(right.cells, 1);
      CellsSizeConcat(child.cells, [c]);
    } else {
      assert right.kids[0] in right.kids;
    }
  }

  lemma MergeFilled(low: Tree, high: Tree, sep: int, s: nat)
    requires Peers(low, high)
    requires (Filled(low, s, false) && Nearly(high, s)) || (Nearly(low, s) && Filled(high, s, false))
    ensures Filled(Merge(low, high, sep), s, false)
  {
    if low.Tip? {
      CellsSizeConcat(low.cells, high.cells);
    }
  }

  /** A leaf of equal small cells with bytes to spare has more than one of them. */
  lemma NotLone(t: Tree, s: nat)
    requires t.Tip? && Filled(t, s, false) && s <= MAX_FIXED && CanSpare(t)
    ensures |t.cells| > 1
  {
    EqualCells(t.cells, s);
  }

  /** What a removal leaves of a filled node: below the root at most one cell or
      separator short, at the root at least filled children. */
  ghost predicate RemovalFilled(r: Removal, s: nat, top: bool) {
    match r
    case Missing => true
    case Broken(_) => false
    case Removed(t) =>
      if top then (if t.Tip? then AllSize(t.cells, s) else |t.kids| == |t.keys| + 1 && FilledAll(t.kids, s))
      else Nearly(t, s)
  }

  lemma ForkRemoval(page: nat, keys: seq<int>, kids: seq<Tree>, n: nat, s: nat, top: bool)
    requires |kids| == |keys| + 1 && FilledAll(kids, s)
    requires |keys| + 1 >= n && (top || n >= MIN_KEYS)
    ensures RemovalFilled(Removed(Fork(page, keys, kids)), s, top)
  {
  }

  lemma RebalanceFilled(page: nat, keys: seq<int>, kids: seq<Tree>, i: nat, s: nat, top: bool)
    requires |kids| == |keys| + 1 && |kids| >= 2 && i < |kids| && Neighbours(kids, i) && s <= MAX_FIXED
    requires forall j :: 0 <= j < |kids| && j != i ==> Filled(kids[j], s, false)
    requires Nearly(kids[i], s) && (top || |keys| >= MIN_KEYS)
    ensures RemovalFilled(Rebalance(page, keys, kids, i), s, top)
  {
    hide Filled, Nearly, BorrowFromLeft, BorrowFromRight, Merge, CanSpare, Peers;
    if i > 0 && CanSpare(kids[i - 1]) {
      var (l, sep, c) := BorrowFromLeft(kids[i - 1], kids[i], keys[i - 1]);
      BorrowFromLeftFilled(kids[i - 1], kids[i], keys[i - 1], s);
      assert FilledAll(kids[i - 1 := l][i := c], s);
      ForkRemoval(page, keys[i - 1 := sep], kids[i - 1 := l][i := c], |keys|, s, top);
    } else if i + 1 < |kids| && CanSpare(kids[i + 1]) {
      if kids[i + 1].Tip? {
        NotLone(kids[i + 1], s);
      }
      var (c, sep, r) := BorrowFromRight(kids[i], kids[i + 1], keys[i]);
      BorrowFromRightFilled(kids[i], kids[i + 1], keys[i], s);
      assert FilledAll(kids[i := c][i + 1 := r], s);
      ForkRemoval(page, keys[i := sep], kids[i := c][i + 1 := r], |keys|, s, top);
    } else {
      var j := if i > 0 then i - 1 else i;
      var m := Merge(kids[j], kids[j + 1], keys[j]);
      MergeFilled(kids[j], kids[j + 1], keys[j], s);
      assert FilledAll(kids[..j] + [m] + kids[j + 2..], s);
      ForkRemoval(page, keys[..j] + keys[j + 1..], kids[..j] + [m] + kids[j + 2..], |keys|, s, top);
    }
  }

  lemma NearlyFilled(t: Tree, s: nat)
    requires Nearly(t, s) && !Underflow(t)
    ensures Filled(t, s, false)
  {
  }

  lemma RepairFilled(page: nat, keys: seq<int>, kids: seq<Tree>, i: nat, r: Removal, s: nat, top: bool)
    requires |kids| == |keys| + 1 >= 2 && i < |kids| && s <= MAX_FIXED
    requires FilledAll(kids, s) && (top || |keys| >= MIN_KEYS)
    requires r.Removed? ==> Neighbours(kids[i := r.t], i)
    requires RemovalFilled(r, s, false)
    ensures RemovalFilled(Repair(page, keys, kids, i, r), s, top)
  {
    hide Filled, Nearly, Rebalance, Underflow, Neighbours;
    match r
    case Missing =>
    case Removed(kid) =>
      var kids' := kids[i := kid];
      if Underflow(kid) {
        RebalanceFilled(page, keys, kids', i, s, top);
      } else {
        NearlyFilled(kid, s);
        assert FilledAll(kids', s);
        ForkRemoval(page, keys, kids', |keys|, s, top);
      }
  }

  lemma DeleteTipFilled(t: Tree, k: int, s: nat, top: bool)
    requires t.Tip? && Filled(t, s, top)
    ensures RemovalFilled(DeleteAt(t, k), s, top)
  {
    if Holds(t.cells, k) {
      RemoveSize(t.cells, k);
    }
  }

  lemma {:induction false} DeleteFilled(t: Tree, k: int, s: nat, top: bool)
    requires Shaped(t) && Filled(t, s, top) && s <= MAX_FIXED
    ensures RemovalFilled(DeleteAt(t, k), s, top)
    decreases t
  {
    if t.Tip? {
      DeleteTipFilled(t, k, s, top);
    } else {
      var i := ChildIndex(t.keys, k);
      DeleteAtFork(t, k);
      assert t.kids[i] in t.kids;
      DeleteFilled(t.kids[i], k, s, false);
      FilledKids(t.page, t.keys, t.kids, s, top);
      hide DeleteAt, RemovalFilled, Repair, Filled, FilledAll, Neighbours;
      RepairFilled(t.page, t.keys, t.kids, i, DeleteAt(t.kids[i], k), s, top);
    }
  }

  // ---- whole trees -------------------------------------------------------------

  /** Inserting, overwriting and deleting cells of one size s <= 65 never fails, and
      keeps every node below the root at a third of a page or more. */
  lemma FixedInsert(t: Tree, free: nat, c: Cell, s: nat)
    requires Whole(t, free) && Room(t, free) && Filled(t, s, true) && CellSize(c) == s <= MAX_FIXED && IsI64(c.key)
    ensures Shaped(t)
    ensures var r := Insert(t, c, free).0;
      if c.key in TableOf(t) then r == Err(DuplicateKey) else r.Ok? && Filled(r.value, s, true)
  {
    InsertFacts(t, free, c);
    FilledSmall(t, s, true);
    SmallInsertSucceeds(t, free, c);
    InsertFilled(t, c, free, s, true);
    InsertWhole(t, free, c);
    hide Whole, TableOf, Good, Items, Holds, StepContents, StepGood, Room;
    RootFilled(t, free, c, s);
  }

  lemma RootFilled(t: Tree, free: nat, c: Cell, s: nat)
    requires Shaped(t) && StepFilled(InsertAt(t, c, free).0, s, true)
    ensures var r := Insert(t, c, free).0; r.Ok? ==> Filled(r.value, s, true)
  {
    hide InsertAt, Filled;
    var (step, free') := InsertAt(t, c, free);
    if step.Split? {
      assert FilledAll([step.left, step.right], s);
      FilledFork(free', [step.sep], [step.left, step.right], s, true);
    }
  }

  lemma {:induction false} FilledSmall(t: Tree, s: nat, top: bool)
    requires Filled(t, s, top) && s <= MAX_FIXED
    ensures AllSmall(Items(t)) && AllSize(Items(t), s)
    decreases t, 0
  {
    if t.Fork? {
      FilledSmallAll(t.kids, s);
    }
  }

  lemma {:induction false} FilledSmallAll(kids: seq<Tree>, s: nat)
    requires FilledAll(kids, s) && s <= MAX_FIXED
    ensures AllSmall(ItemsAll(kids)) && AllSize(ItemsAll(kids), s)
    decreases kids, 1
  {
    if kids != [] {
      FilledSmall(kids[0], s, false);
      FilledSmallAll(kids[1..], s);
    }
  }

  lemma FixedUpsert(t: Tree, free: nat, c: Cell, s: nat)
    requires Whole(t, free) && Room(t, free) && Filled(t, s, true) && CellSize(c) == s <= MAX_FIXED && IsI64(c.key)
    ensures Shaped(t)
    ensures var r := Upsert(t, c, free).0; r.Ok? && Filled(r.value, s, true)
  {
    FixedInsert(t, free, c, s);
    if c.key in TableOf(t) {
      InsertFacts(t, free, c);
      OverwriteFilled(t, c, s, true, Height(t), I64_MIN, I64_LIMIT, None);
    }
    hide Insert, Overwrite, Filled, TableOf, Good;
  }

  lemma FixedDelete(t: Tree, free: nat, k: int, s: nat)
    requires Whole(t, free) && Filled(t, s, true) && s <= MAX_FIXED
    ensures Shaped(t)
    ensures var r := Delete(t, k);
      !r.IndexError? && (r.Deleted? <==> k in TableOf(t)) && (r.Deleted? ==> Filled(r.t, s, true))
  {
    DeleteWhole(t, free, k);
    DeleteFilled(t, k, s, true);
    var r := DeleteAt(t, k);
    hide DeleteAt, Whole, TableOf;
    if r.Removed? && r.t.Fork? && r.t.keys == [] {
      var kid := r.t.kids[0];
      assert kid in r.t.kids;
      FilledLoosely(kid, s);
      CollapseFilled(kid, s);
    }
  }

  lemma CollapseFilled(t: Tree, s: nat)
    requires Filled(t, s, true)
    ensures Collapse(t) == t
  {
  }

  // ---- the height --------------------------------------------------------------

  /** The fewest cells of s bytes that take a leaf to a third of a page. */
  function MinLeafCells(s: nat): nat
    requires s > 0
  {
    (MIN_BYTES - 9 + s - 1) / s
  }

  /** MinLeafCells(s) * 114^h */
  function Least(s: nat, h: nat): nat
    requires s > 0
  {
    if h == 0 then MinLeafCells(s) else (MIN_KEYS + 1) * Least(s, h - 1)
  }

  lemma TimesMonotone(a: nat, b: nat, c: nat)
    requires a <= b
    ensures c * a <= c * b
  {
  }

  lemma MinLeaf(s: nat, n: nat)
    requires s > 0 && 9 + s * n >= MIN_BYTES
    ensures n >= MinLeafCells(s)
  {
    var m := MinLeafCells(s);
    assert s * m <= MIN_BYTES - 9 + s - 1;
    assert s * (n + 1) == s * n + s;
    if n + 1 <= m {
      TimesMonotone(n + 1, m, s);
    }
  }

  lemma {:induction false} SumAtLeast(kids: seq<Tree>, least: nat)
    requires forall k :: k in kids ==> |Items(k)| >= least
    ensures |ItemsAll(kids)| >= least * |kids|
    decreases |kids|
  {
    if kids != [] {
      SumAtLeast(kids[1..], least);
      assert least * |kids| == least + least * (|kids| - 1);
    }
  }

  /** A node below the root, h levels above the leaves, covers at least 114^h leaves'
      worth of cells. */
  lemma {:induction false} FilledCount(t: Tree, s: nat, h: nat, lo: int, hi: int, after: Option<nat>)
    requires Good(t, h, lo, hi, after) && Filled(t, s, false) && s > 0
    ensures |Items(t)| >= Least(s, h)
    decreases h, 0
  {
    if t.Tip? {
      EqualCells(t.cells, s);
      MinLeaf(s, |t.cells|);
    } else {
      var least := Least(s, h - 1);
      FilledCountAll(t.keys, t.kids, s, h - 1, lo, hi, after);
      hide Good, GoodForest, FilledAll, ItemsAll;
      TimesMonotone(MIN_KEYS + 1, |t.kids|, least);
    }
  }

  lemma {:induction false} FilledCountAll(keys: seq<int>, kids: seq<Tree>, s: nat, h: nat, lo: int, hi: int,
                                          after: Option<nat>)
    requires GoodForest(keys, kids, h, lo, hi, after) && FilledAll(kids, s) && s > 0
    ensures |ItemsAll(kids)| >= Least(s, h) * |kids|
    decreases h, 1
  {
    hide Good, Filled, ItemsAll, Least;
    var least := Least(s, h);
    forall k | k in kids
      ensures |Items(k)| >= least
    {
      var i :| 0 <= i < |kids| && kids[i] == k;
      assert Good(kids[i], h, Lo(keys, i, lo), Hi(keys, i, hi), After(kids, i, after));
      FilledCount(k, s, h, Lo(keys, i, lo), Hi(keys, i, hi), After(kids, i, after));
    }
    SumAtLeast(kids, least);
  }

  /** The height bound: a tree with h levels of internal nodes holds at least
      2 * 114^(h-1) times the minimum of a leaf, so the height is logarithmic in the
      number of rows. */
  lemma HeightBound(t: Tree, free: nat, s: nat)
    requires Whole(t, free) && Filled(t, s, true) && s > 0 && Height(t) >= 1
    ensures |Items(t)| >= 2 * Least(s, Height(t) - 1)
  {
    var h := Height(t);
    FilledCountAll(t.keys, t.kids, s, h - 1, I64_MIN, I64_LIMIT, None);
    hide Good, GoodForest, Filled, ItemsAll, Least;
    assert |t.kids| >= 2;
    TimesMonotone(2, |t.kids|, Least(s, h - 1));
  }
}
