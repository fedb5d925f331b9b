// The validator `check` (leafdb/btree.py): what it asks of a tree, and which trees pass.

module TreeCheck {
  import opened Bytes
  import opened Cells
  import opened NodeCodec
  import opened Tree
  import opened TreeDelete
  import opened TreeInsert
  import opened TreeFill
  import opened TreeOps
  import opened TreeBounds
  import opened TreeScan

  /** The walk: leaves strictly ascending, separators strictly ascending, one child
      more than separators, and no separator above a key to its right. */
  ghost predicate Walked(t: Tree)
    decreases t
  {
    match t
    case Tip(_, cells, _) => Sorted(cells)
    case Fork(_, keys, kids) =>
      && |kids| == |keys| + 1
      && (forall i, j :: 0 <= i < j < |keys| ==> keys[i] < keys[j])
      && (forall k :: k in kids ==> Walked(k))
      && (forall j :: 0 <= j < |keys| ==> AtLeast(kids[j + 1], keys[j]))
  }

  /** The subtree has a least key, and it is not below k. */
  ghost predicate AtLeast(t: Tree, k: int) {
    Items(t) != [] && forall i :: 0 <= i < |Items(t)| ==> k <= Items(t)[i].key
  }

  /** The occupancy check: no node below the root is underfull. */
  ghost predicate Occupied(t: Tree)
    decreases t
  {
    t.Fork? ==> forall k :: k in t.kids ==> !Underflow(k) && Occupied(k)
  }

  /** All leaves at depth h. */
  ghost predicate LevelAt(t: Tree, h: nat)
    decreases t
  {
    match t
    case Tip(_, _, _) => h == 0
    case Fork(_, _, kids) => h > 0 && forall k :: k in kids ==> LevelAt(k, h - 1)
  }

  /** Everything `check` asserts; its chain walk starts at the leftmost leaf. */
  ghost predicate Checked(t: Tree) {
    && Walked(t) && Occupied(t) && LevelAt(t, Height(t))
    && Linked(Leaves(t), None) && CellsOf(Leaves(t)) == Items(t)
    && Leaves(t) != [] && Leaves(t)[0].page == FirstPage(t)
  }

  ghost predicate AllOccupied(kids: seq<Tree>) {
    forall k :: k in kids ==> !Underflow(k) && Occupied(k)
  }

  lemma OccupiedNotEmpty(t: Tree, h: nat, lo: int, hi: int, after: Option<nat>)
    requires Good(t, h, lo, hi, after) && !Underflow(t) && Occupied(t)
    ensures Items(t) != []
    decreases h
  {
    if t.Fork? {
      assert Good(t.kids[0], h - 1, Lo(t.keys, 0, lo), Hi(t.keys, 0, hi), After(t.kids, 0, after));
      assert t.kids[0] in t.kids;
      hide Good;
      OccupiedNotEmpty(t.kids[0], h - 1, Lo(t.keys, 0, lo), Hi(t.keys, 0, hi), After(t.kids, 0, after));
    }
  }

  /** Child i has keys, all between the separators around it. */
  lemma KidRange(keys: seq<int>, kids: seq<Tree>, i: nat, h: nat, lo: int, hi: int, after: Option<nat>)
    requires GoodForest(keys, kids, h, lo, hi, after) && AllOccupied(kids) && i < |kids|
    ensures Items(kids[i]) != [] && Within(Items(kids[i]), Lo(keys, i, lo), Hi(keys, i, hi))
  {
    assert kids[i] in kids;
    assert Good(kids[i], h, Lo(keys, i, lo), Hi(keys, i, hi), After(kids, i, after));
    OccupiedNotEmpty(kids[i], h, Lo(keys, i, lo), Hi(keys, i, hi), After(kids, i, after));
    hide Good;
    GoodIsTop(kids[i], h, Lo(keys, i, lo), Hi(keys, i, hi), After(kids, i, after));
    ItemsSorted(kids[i], h, Lo(keys, i, lo), Hi(keys, i, hi), After(kids, i, after));
  }

  lemma GoodIsTop(t: Tree, h: nat, lo: int, hi: int, after: Option<nat>)
    requires Good(t, h, lo, hi, after)
    ensures GoodTop(t, h, lo, hi, after)
  {
  }

  /** With no empty leaf, separators that never descend are strictly ascending. */
  lemma StrictKeys(keys: seq<int>, kids: seq<Tree>, i: nat, j: nat, h: nat, lo: int, hi: int,
                   after: Option<nat>)
    requires GoodForest(keys, kids, h, lo, hi, after) && AllOccupied(kids) && i < j < |keys|
    ensures keys[i] < keys[j]
  {
    hide *;
    ForestRising(keys, kids, h, lo, hi, after);
    KidRange(keys, kids, i + 1, h, lo, hi, after);
    Between(keys, i, lo, hi, Items(kids[i + 1]));
    RisingKeys(keys, i + 1, j, lo, hi);
  }

  lemma ForestRising(keys: seq<int>, kids: seq<Tree>, h: nat, lo: int, hi: int, after: Option<nat>)
    requires GoodForest(keys, kids, h, lo, hi, after)
    ensures |kids| == |keys| + 1 && Rising(keys, lo, hi)
  {
  }

  lemma Between(keys: seq<int>, i: nat, lo: int, hi: int, items: seq<Cell>)
    requires i + 1 < |keys| && items != [] && Within(items, Lo(keys, i + 1, lo), Hi(keys, i + 1, hi))
    ensures keys[i] < keys[i + 1]
  {
    assert keys[i] <= items[0].key < keys[i + 1];
  }

  lemma RisingKeys(keys: seq<int>, i: nat, j: nat, lo: int, hi: int)
    requires Rising(keys, lo, hi) && i <= j < |keys|
    ensures keys[i] <= keys[j]
  {
  }

  lemma AboveSeparators(keys: seq<int>, kids: seq<Tree>, h: nat, lo: int, hi: int, after: Option<nat>)
    requires GoodForest(keys, kids, h, lo, hi, after) && AllOccupied(kids)
    ensures forall j :: 0 <= j < |keys| ==> AtLeast(kids[j + 1], keys[j])
  {
    forall j | 0 <= j < |keys|
      ensures AtLeast(kids[j + 1], keys[j])
    {
      KidRange(keys, kids, j + 1, h, lo, hi, after);
      hide Items, Good, GoodForest, AllOccupied;
    }
  }

  lemma ForkWalks(keys: seq<int>, kids: seq<Tree>, h: nat, lo: int, hi: int, after: Option<nat>)
    requires GoodForest(keys, kids, h, lo, hi, after) && AllOccupied(kids)
    ensures forall i, j :: 0 <= i < j < |keys| ==> keys[i] < keys[j]
    ensures forall j :: 0 <= j < |keys| ==> AtLeast(kids[j + 1], keys[j])
  {
    AboveSeparators(keys, kids, h, lo, hi, after);
    hide *;
    forall i, j | 0 <= i < j < |keys|
      ensures keys[i] < keys[j]
    {
      StrictKeys(keys, kids, i, j, h, lo, hi, after);
    }
  }

  lemma {:induction false} WalkPasses(t: Tree, h: nat, lo: int, hi: int, after: Option<nat>)
    requires Good(t, h, lo, hi, after) && Occupied(t)
    ensures Walked(t) && LevelAt(t, h)
    decreases h, 1
  {
    hide *;
    ForkParts(t, h, lo, hi, after);
    if t.Fork? {
      ForkWalks(t.keys, t.kids, h - 1, lo, hi, after);
      WalkPassesAll(t.keys, t.kids, h - 1, lo, hi, after);
      ForkWalked(t, h);
    }
  }

  lemma {:induction false} WalkPassesAll(keys: seq<int>, kids: seq<Tree>, h: nat, lo: int, hi: int,
                                         after: Option<nat>)
    requires GoodForest(keys, kids, h, lo, hi, after) && AllOccupied(kids)
    ensures forall k :: k in kids ==> Walked(k) && LevelAt(k, h)
    decreases h, 2
  {
    hide *;
    forall k | k in kids
      ensures Walked(k) && LevelAt(k, h)
    {
      var i :| 0 <= i < |kids| && kids[i] == k;
      KidGood(keys, kids, i, h, lo, hi, after);
      OccupiedOne(kids, i);
      WalkPasses(k, h, Lo(keys, i, lo), Hi(keys, i, hi), After(kids, i, after));
    }
  }

  lemma ForkParts(t: Tree, h: nat, lo: int, hi: int, after: Option<nat>)
    requires Good(t, h, lo, hi, after) && Occupied(t)
    ensures t.Tip? ==> Walked(t) && LevelAt(t, h)
    ensures t.Fork? ==> h > 0 && |t.kids| == |t.keys| + 1 && AllOccupied(t.kids)
    ensures t.Fork? ==> GoodForest(t.keys, t.kids, h - 1, lo, hi, after)
  {
  }

  lemma ForkWalked(t: Tree, h: nat)
    requires t.Fork? && h > 0 && |t.kids| == |t.keys| + 1
    requires forall i, j :: 0 <= i < j < |t.keys| ==> t.keys[i] < t.keys[j]
    requires forall k :: k in t.kids ==> Walked(k) && LevelAt(k, h - 1)
    requires forall j :: 0 <= j < |t.keys| ==> AtLeast(t.kids[j + 1], t.keys[j])
    ensures Walked(t) && LevelAt(t, h)
  {
    hide AtLeast;
  }

  lemma OccupiedOne(kids: seq<Tree>, i: nat)
    requires AllOccupied(kids) && i < |kids|
    ensures Occupied(kids[i])
  {
  }

  lemma {:induction false} OccupancyPasses(t: Tree, s: nat, top: bool)
    requires Filled(t, s, top)
    ensures Occupied(t)
    decreases t
  {
    if t.Fork? {
      forall k | k in t.kids
        ensures !Underflow(k) && Occupied(k)
      {
        FilledLoosely(k, s);
        OccupancyPasses(k, s, false);
      }
    }
  }

  /** A tree that meets the invariant passes `check` if and only if no node below its root
      is underfull; all the other assertions hold in any case. */
  lemma CheckIff(t: Tree, free: nat)
    requires Whole(t, free)
    ensures Checked(t) <==> Occupied(t)
  {
    LeavesItems(t);
    ChainOrder(t, Height(t), I64_MIN, I64_LIMIT, None);
    if Occupied(t) {
      WalkPasses(t, Height(t), I64_MIN, I64_LIMIT, None);
    }
  }

  /** Every tree that a run with cells of one size can reach passes `check`. */
  lemma CheckPasses(t: Tree, free: nat, s: nat)
    requires Whole(t, free) && Filled(t, s, true) && s > 0
    ensures Checked(t)
  {
    OccupancyPasses(t, s, true);
    CheckIff(t, free);
  }

  /** Rows of 0, 0, 2048 and 2015 bytes: the last insert splits the leaf two to two, the
      left half has 33 bytes, and `check` fails on a tree that is whole. */
  lemma CheckFails(free: nat)
    requires 1 <= free < NO_PAGE - 1
    ensures var c3, c4 := Cell(3, Zeros(MAX_VALUE_SIZE)), Cell(4, Zeros(2015));
      var t := Tip(0, [Cell(1, []), Cell(2, []), c3], None);
      && Whole(t, free) && Insert(t, c4, free).0.Ok?
      && var t' := Insert(t, c4, free).0.value; Whole(t', Insert(t, c4, free).1) && !Checked(t')
  {
    var c1, c2, c3, c4 := Cell(1, []), Cell(2, []), Cell(3, Zeros(MAX_VALUE_SIZE)), Cell(4, Zeros(2015));
    var t := Tip(0, [c1, c2, c3], None);
    Sizes(c1, c2, c3);
    Sizes(c3, c4, c4);
    FourCells(c1, c2, c3, c4);
    hide CellsSize;
    GoodTip(0, [c1, c2, c3], None, I64_MIN, I64_LIMIT);
    assert Whole(t, free) && Shaped(t);
    CellIndexIs([c1, c2, c3], 4, 3);
    var all := InsertSorted([c1, c2, c3], c4);
    assert all == [c1, c2, c3, c4] && all[..2] == [c1, c2] && all[2..] == [c3, c4];
    OverflowIff(t, c4, free);
    InsertWhole(t, free, c4);
    var left := Tip(0, [c1, c2], Some(free));
    assert InsertAt(t, c4, free).0 == Split(left, 3, Tip(free, [c3, c4], None));
    var t' := Insert(t, c4, free).0.value;
    assert t'.kids[0] == left && left in t'.kids && Underflow(left);
    assert !Occupied(t');
  }

  lemma FourCells(c1: Cell, c2: Cell, c3: Cell, c4: Cell)
    ensures CellsSize([c1, c2, c3, c4]) == CellSize(c1) + CellSize(c2) + CellSize(c3) + CellSize(c4)
  {
    assert [c1, c2, c3, c4][1..] == [c2, c3, c4];
    Sizes(c2, c3, c4);
  }
}
