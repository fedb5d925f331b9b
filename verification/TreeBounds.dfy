// Byte bounds: when the tree operations cannot fail, and how full they keep the
// nodes.

module TreeBounds {
  import opened Bytes
  import opened Cells
  import opened NodeCodec
  import opened Tree
  import opened TreeInsert
  import opened TreeDelete
  import opened TreeOps

  // ---- when an insert fails --------------------------------------------------

  /** The leaf a key is routed to. */
  function LeafFor(t: Tree, k: int): Tree
    requires Shaped(t)
    decreases t
  {
    match t
    case Tip(_, _, _) => t
    case Fork(_, keys, kids) => LeafFor(kids[ChildIndex(keys, k)], k)
  }

  /** The cells of a leaf can be stored: in one page, or in two after a split in the
      middle by cell count. */
  predicate Placeable(cells: seq<Cell>) {
    var mid := |cells| / 2;
    || 9 + CellsSize(cells) <= PAGE_SIZE
    || (mid > 0 && 9 + CellsSize(cells[..mid]) <= PAGE_SIZE && 9 + CellsSize(cells[mid..]) <= PAGE_SIZE)
  }

  lemma {:induction false} LeafForIsTip(t: Tree, k: int)
    requires Shaped(t)
    ensures LeafFor(t, k).Tip?
    decreases t
  {
    if t.Fork? {
      var i := ChildIndex(t.keys, k);
      assert t.kids[i] in t.kids;
      LeafForIsTip(t.kids[i], k);
    }
  }

  /** A split of an internal node never fails, so an insert of a new key below any node
      fails exactly when the leaf it reaches cannot place the new cell. */
  lemma {:induction false} OverflowIff(t: Tree, c: Cell, free: nat)
    requires Shaped(t)
    ensures LeafFor(t, c.key).Tip?
    ensures var leaf := LeafFor(t, c.key).cells; var step := InsertAt(t, c, free).0;
      && (step.Duplicate? <==> Holds(leaf, c.key))
      && (step.Overflow? <==> !Holds(leaf, c.key) && !Placeable(InsertSorted(leaf, c)))
    decreases t
  {
    if t.Fork? {
      var i := ChildIndex(t.keys, c.key);
      assert t.kids[i] in t.kids;
      OverflowIff(t.kids[i], c, free);
      hide Holds, Placeable, InsertSorted, NodeSize;
    }
  }

  /** An insert succeeds if and only if its arguments are in range, the key is new, and
      the leaf the key is routed to can place the cell. */
  lemma InsertSucceedsIff(t: Tree, free: nat, c: Cell)
    requires Shaped(t)
    ensures LeafFor(t, c.key).Tip?
    ensures var leaf := LeafFor(t, c.key).cells;
      Insert(t, c, free).0.Ok? <==>
        |c.val| <= MAX_VALUE_SIZE && IsI64(c.key) && !Holds(leaf, c.key) && Placeable(InsertSorted(leaf, c))
  {
    OverflowIff(t, c, free);
    hide InsertAt, LeafFor, Holds, Placeable;
  }

  /** Legal rows alone do not make a leaf placeable: three rows of 0, 2048 and 2048
      bytes are split one to two, and the two big ones exceed a page. */
  lemma CountSplitOverflows(free: nat)
    requires 1 <= free < NO_PAGE
    ensures var big := Zeros(MAX_VALUE_SIZE);
      var t := Tip(0, [Cell(1, []), Cell(2, big)], None);
      Whole(t, free) && Insert(t, Cell(3, big), free).0 == Err(PageOverflow)
  {
    var big := Zeros(MAX_VALUE_SIZE);
    var c1, c2, c3 := Cell(1, []), Cell(2, big), Cell(3, big);
    var t := Tip(0, [c1, c2], None);
    Sizes(c1, c2, c3);
    hide CellsSize;
    GoodTip(0, [c1, c2], None, I64_MIN, I64_LIMIT);
    CellIndexIs([c1, c2], 3, 2);
    var all := InsertSorted([c1, c2], c3);
    assert all == [c1, c2, c3] && all[1..] == [c2, c3];
    OverflowIff(t, c3, free);
  }

  /** Overwriting never splits: it succeeds if and only if the key is there and its leaf
      still fits its page. */
  lemma {:induction false} OverwriteIff(t: Tree, c: Cell)
    requires Shaped(t)
    ensures LeafFor(t, c.key).Tip?
    ensures var leaf := LeafFor(t, c.key).cells;
      Overwrite(t, c).Some? <==> Holds(leaf, c.key) && 9 + CellsSize(OverwriteSorted(leaf, c)) <= PAGE_SIZE
    decreases t
  {
    if t.Fork? {
      var i := ChildIndex(t.keys, c.key);
      assert t.kids[i] in t.kids;
      OverwriteIff(t.kids[i], c);
      hide Holds, OverwriteSorted, NodeSize;
    }
  }

  /** An upsert succeeds if and only if its arguments are in range and the leaf the key is
      routed to can take the cell: after a split if the key is new, as it is if not. */
  lemma UpsertSucceedsIff(t: Tree, free: nat, c: Cell)
    requires Shaped(t)
    ensures LeafFor(t, c.key).Tip?
    ensures var leaf := LeafFor(t, c.key).cells;
      Upsert(t, c, free).0.Ok? <==>
        && |c.val| <= MAX_VALUE_SIZE && IsI64(c.key)
        && if Holds(leaf, c.key) then 9 + CellsSize(OverwriteSorted(leaf, c)) <= PAGE_SIZE
           else Placeable(InsertSorted(leaf, c))
  {
    OverflowIff(t, c, free);
    OverwriteIff(t, c);
    hide InsertAt, LeafFor, Holds, Placeable, Overwrite, OverwriteSorted;
  }

  /** Of two legal rows that fill a page, the second cannot be replaced by another legal
      row: the leaf would have to be split, and an overwrite never splits. */
  lemma UpsertOverflows(free: nat)
    requires 1 <= free < NO_PAGE
    ensures var c1, c2, c := Cell(1, Zeros(MAX_VALUE_SIZE)), Cell(2, Zeros(2000)), Cell(2, Zeros(MAX_VALUE_SIZE));
      var t := Tip(0, [c1, c2], None);
      Whole(t, free) && Upsert(t, c, free).0 == Err(PageOverflow) && Placeable([c1, c])
  {
    var c1, c2, c := Cell(1, Zeros(MAX_VALUE_SIZE)), Cell(2, Zeros(2000)), Cell(2, Zeros(MAX_VALUE_SIZE));
    var t := Tip(0, [c1, c2], None);
    Sizes(c1, c2, c);
    Sizes(c1, c, c);
    hide CellsSize;
    GoodTip(0, [c1, c2], None, I64_MIN, I64_LIMIT);
    CellIndexIs([c1, c2], 2, 1);
    assert OverwriteSorted([c1, c2], c) == [c1, c];
    assert [c1, c][..1] == [c1] && [c1, c][1..] == [c];
    Sizes(c, c, c);
    OverflowIff(t, c, free);
    OverwriteIff(t, c);
  }

  lemma Sizes(a: Cell, b: Cell, c: Cell)
    ensures CellsSize([a]) == CellSize(a)
    ensures CellsSize([a, b]) == CellSize(a) + CellSize(b) && CellsSize([b, c]) == CellSize(b) + CellSize(c)
    ensures CellsSize([a, b, c]) == CellSize(a) + CellSize(b) + CellSize(c)
  {
    assert [a][1..] == [] && [a, b][1..] == [b] && [b, c][1..] == [c] && [a, b, c][1..] == [b, c];
    assert [b][1..] == [] && [c][1..] == [];
  }

  // ---- cells of at most 216 bytes ---------------------------------------------

  const SMALL: nat := 216

  ghost predicate AllSmall(s: seq<Cell>) {
    forall i :: 0 <= i < |s| ==> CellSize(s[i]) <= SMALL
  }

  /** With small cells a leaf that one insert has overfilled can always be split: when
      one half is over a page, it has at least 19 cells, so the other half has 18 and
      takes 216 bytes of the at most 4303. */
  lemma SmallPlaceable(cells: seq<Cell>, c: Cell)
    requires AllSmall(cells) && CellSize(c) <= SMALL && 9 + CellsSize(cells) <= PAGE_SIZE
    ensures Placeable(InsertSorted(cells, c))
  {
    var all := InsertSorted(cells, c);
    InsertSize(cells, c);
    hide CellsSize, InsertSorted;
    HalvesPlaceable(all);
  }

  lemma InsertSize(cells: seq<Cell>, c: Cell)
    ensures CellsSize(InsertSorted(cells, c)) == CellsSize(cells) + CellSize(c)
    ensures AllSmall(cells) && CellSize(c) <= SMALL ==> AllSmall(InsertSorted(cells, c))
  {
    var i := CellIndex(cells, c.key);
    Sizes(c, c, c);
    hide CellsSize, CellIndex;
    CellsSizeConcat(cells[..i] + [c], cells[i..]);
    CellsSizeConcat(cells[..i], [c]);
    Shorter(cells, i);
  }

  lemma HalvesPlaceable(all: seq<Cell>)
    requires AllSmall(all) && 9 + CellsSize(all) <= PAGE_SIZE + SMALL
    ensures Placeable(all)
  {
    hide CellsSize;
    var mid := |all| / 2;
    Shorter(all, mid);
    CellsSizeBounds(all[..mid], 12, SMALL);
    CellsSizeBounds(all[mid..], 12, SMALL);
    CellsSizeBounds(all, 12, SMALL);
  }

  lemma {:induction false} LeafForItems(t: Tree, k: int)
    requires Shaped(t)
    ensures LeafFor(t, k).Tip? && forall c :: c in LeafFor(t, k).cells ==> c in Items(t)
    decreases t
  {
    if t.Fork? {
      var i := ChildIndex(t.keys, k);
      assert t.kids[i] in t.kids;
      LeafForItems(t.kids[i], k);
      ItemsAt(t.kids, i);
    }
  }

  lemma {:induction false} LeafForFits(t: Tree, k: int, h: nat, lo: int, hi: int, after: Option<nat>)
    requires Shaped(t) && Good(t, h, lo, hi, after) && lo <= k < hi
    ensures LeafFor(t, k).Tip? && 9 + CellsSize(LeafFor(t, k).cells) <= PAGE_SIZE
    decreases h
  {
    if t.Fork? {
      var i := ChildIndex(t.keys, k);
      ForkKid(t, k, h, lo, hi, after);
      hide Good, GoodForest, DeleteAt, Neighbours, Peers, ItemsAll, AllBelow, AllAbove, CellsSize;
      LeafForFits(t.kids[i], k, h - 1, Lo(t.keys, i, lo), Hi(t.keys, i, hi), After(t.kids, i, after));
    }
  }

  /** When all cells are small, an insert with arguments in range fails only on a
      duplicate key. */
  lemma SmallInsertSucceeds(t: Tree, free: nat, c: Cell)
    requires Whole(t, free) && Room(t, free) && AllSmall(Items(t)) && CellSize(c) <= SMALL && IsI64(c.key)
    ensures Shaped(t)
    ensures Insert(t, c, free).0.Ok? <==> c.key !in TableOf(t)
  {
    InsertFacts(t, free, c);
    LeafForFits(t, c.key, Height(t), I64_MIN, I64_LIMIT, None);
    LeafForItems(t, c.key);
    OverflowIff(t, c, free);
    hide InsertAt, LeafFor, Good, Items, TableOf, InsertSorted, Holds, CellsSize;
    var leaf := LeafFor(t, c.key).cells;
    assert forall i :: 0 <= i < |leaf| ==> leaf[i] in Items(t);
    SmallPlaceable(leaf, c);
  }

  // ---- when a delete breaks off -------------------------------------------------

  /** Deleting k empties or underfills a leaf whose left neighbour is missing or has
      nothing to spare, and whose right neighbour would lend its only cell. */
  predicate LoneLender(t: Tree, k: int)
    requires Shaped(t)
    decreases t
  {
    match t
    case Tip(_, _, _) => false
    case Fork(_, keys, kids) =>
      var i := ChildIndex(keys, k);
      match kids[i]
      case Fork(_, _, _) => LoneLender(kids[i], k)
      case Tip(p, cells, next) =>
        && Holds(cells, k) && Underflow(Tip(p, RemoveSorted(cells, k), next))
        && (i == 0 || !CanSpare(kids[i - 1]))
        && i + 1 < |kids| && CanSpare(kids[i + 1]) && kids[i + 1].Tip? && |kids[i + 1].cells| == 1
  }

  /** A delete breaks off with an IndexError exactly in that situation. */
  lemma {:induction false} BreaksIff(t: Tree, k: int)
    requires Shaped(t)
    ensures DeleteAt(t, k).Broken? <==> LoneLender(t, k)
    decreases t
  {
    if t.Fork? {
      var i := ChildIndex(t.keys, k);
      DeleteAtFork(t, k);
      assert t.kids[i] in t.kids;
      BreaksIff(t.kids[i], k);
      var r := DeleteAt(t.kids[i], k);
      if t.kids[i].Fork? {
        hide DeleteAt, CanSpare, Underflow, BorrowFromLeft, BorrowFromRight, Merge;
        SiblingKinds(t, i);
      } else {
        hide CanSpare, Underflow, BorrowFromLeft, BorrowFromRight, Merge, RemoveSorted, Holds;
      }
    }
  }

  lemma SiblingKinds(t: Tree, i: nat)
    requires t.Fork? && Shaped(t) && i < |t.kids|
    ensures i + 1 < |t.kids| ==> t.kids[i + 1].Tip? == t.kids[i].Tip?
    ensures i > 0 ==> t.kids[i - 1].Tip? == t.kids[i].Tip?
  {
    assert t.kids[i] in t.kids;
    assert i + 1 < |t.kids| ==> t.kids[i + 1] in t.kids;
    assert i > 0 ==> t.kids[i - 1] in t.kids;
  }

  /** A leaf with bytes to spare and small cells has at least seven of them. */
  lemma {:induction false} SmallNeverLone(t: Tree, k: int)
    requires Shaped(t) && AllSmall(Items(t))
    ensures !LoneLender(t, k)
    decreases t
  {
    if t.Fork? {
      var i := ChildIndex(t.keys, k);
      assert t.kids[i] in t.kids;
      SmallKid(t.kids, i);
      if t.kids[i].Fork? {
        SmallNeverLone(t.kids[i], k);
      } else if i + 1 < |t.kids| && t.kids[i + 1].Tip? {
        SmallKid(t.kids, i + 1);
        CellsSizeBounds(t.kids[i + 1].cells, 0, SMALL);
      }
    }
  }

  lemma SmallKid(kids: seq<Tree>, i: nat)
    requires i < |kids| && AllSmall(ItemsAll(kids))
    ensures AllSmall(Items(kids[i]))
  {
    hide ItemsAll, Items;
    ItemsAt(kids, i);
    var pre, s, all := ItemsAll(kids[..i]), Items(kids[i]), ItemsAll(kids);
    assert forall j :: 0 <= j < |s| ==> s[j] == all[|pre| + j];
  }

  /** When all cells are small, a delete never fails. */
  lemma SmallDeleteSucceeds(t: Tree, k: int)
    requires Shaped(t) && AllSmall(Items(t))
    ensures !Delete(t, k).IndexError?
  {
    BreaksIff(t, k);
    SmallNeverLone(t, k);
  }

  /** The situation is reached by five legal operations on rows of 1409 bytes: insert
      1, 2, 3, then delete 3, leaves two leaves of one row each, and deleting 1 breaks off. */
  lemma LoneLenderReached()
    ensures var v := Zeros(1409);
      var t := Fork(2, [2], [Tip(0, [Cell(1, v)], Some(1)), Tip(1, [Cell(2, v), Cell(3, v)], None)]);
      && InsertAt(Tip(0, [Cell(1, v), Cell(2, v)], None), Cell(3, v), 1) == (Split(t.kids[0], 2, t.kids[1]), 2)
      && Shaped(t) && Delete(t, 3).Deleted? && Shaped(Delete(t, 3).t)
      && Delete(Delete(t, 3).t, 1).IndexError?
  {
    var v := Zeros(1409);
    var c1, c2, c3 := Cell(1, v), Cell(2, v), Cell(3, v);
    Sizes(c1, c2, c3);
    Sizes(c2, c2, c2);
    hide CellsSize;
    LoneSplit(c1, c2, c3);
    LoneDeletes(c1, c2, c3);
  }

  lemma LoneSplit(c1: Cell, c2: Cell, c3: Cell)
    requires c1.key == 1 && c2.key == 2 && c3.key == 3
    requires CellsSize([c1]) == 1421 && CellsSize([c2, c3]) == 2842 && CellsSize([c1, c2, c3]) == 4263
    ensures InsertAt(Tip(0, [c1, c2], None), c3, 1) == (Split(Tip(0, [c1], Some(1)), 2, Tip(1, [c2, c3], None)), 2)
  {
    hide CellsSize;
    CellIndexIs([c1, c2], 3, 2);
    var all := InsertSorted([c1, c2], c3);
    assert all == [c1, c2, c3] && all[..1] == [c1] && all[1..] == [c2, c3];
  }

  lemma LoneDeletes(c1: Cell, c2: Cell, c3: Cell)
    requires c1.key == 1 && c2.key == 2 && c3.key == 3
    requires CellsSize([c1]) == 1421 && CellsSize([c2]) == 1421
    ensures var l, r, r' := Tip(0, [c1], Some(1)), Tip(1, [c2, c3], None), Tip(1, [c2], None);
      var t, t' := Fork(2, [2], [l, r]), Fork(2, [2], [l, r']);
      Shaped(t) && Delete(t, 3) == Deleted(t') && Shaped(t') && Delete(t', 1).IndexError?
  {
    hide CellsSize;
    var l, r, r' := Tip(0, [c1], Some(1)), Tip(1, [c2, c3], None), Tip(1, [c2], None);
    var t, t' := Fork(2, [2], [l, r]), Fork(2, [2], [l, r']);
    LoneChildIndex(1);
    LoneChildIndex(3);
    CellIndexIs([c2, c3], 3, 1);
    CellIndexIs([c1], 1, 0);
    assert RemoveSorted([c2, c3], 3) == [c2] && RemoveSorted([c1], 1) == [];
    assert DeleteAt(t.kids[1], 3) == Removed(r') && t.kids[1 := r'] == t'.kids;
    DeleteAtFork(t, 3);
    assert LoneLender(t', 1);
    BreaksIff(t', 1);
  }

  lemma LoneChildIndex(k: int)
    ensures ChildIndex([2], k) == if k < 2 then 0 else 1
  {
    assert [2][1..] == [];
  }
}
