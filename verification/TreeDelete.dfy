// Deletion as a function on trees: what BTree.delete does to the shape a root
// page stands for, with borrowing, merging and root collapse.

module TreeDelete {
  import opened Bytes
  import opened Cells
  import opened NodeCodec
  import opened Tree
  import opened TreeInsert

  const MIN_BYTES: nat := PAGE_SIZE / 3

  /** `_underflow` */
  predicate Underflow(t: Tree) {
    match t
    case Tip(_, cells, _) => cells == [] || NodeSize(NodeOf(t)) < MIN_BYTES
    case Fork(_, _, kids) => |kids| < 2 || NodeSize(NodeOf(t)) < MIN_BYTES
  }

  /** `_can_spare` */
  predicate CanSpare(t: Tree) {
    NodeSize(NodeOf(t)) - MIN_BYTES > 64
  }

  /** The outcome of deleting below a node. Broken is the IndexError of
      `_borrow_from_right` when the lending leaf gives away its only cell: the cell is
      deleted, but nothing has been written after the leaf itself. */
  datatype Removal =
    | Missing
    | Removed(t: Tree)
    | Broken(t: Tree)

  /** Two neighbours that can lend to each other or merge. */
  predicate Peers(a: Tree, b: Tree) {
    match (a, b)
    case (Tip(_, _, _), Tip(_, _, _)) => true
    case (Fork(_, ka, ta), Fork(_, kb, tb)) => |ta| == |ka| + 1 && |tb| == |kb| + 1
    case _ => false
  }

  predicate CanLend(t: Tree) {
    match t
    case Tip(_, cells, _) => cells != []
    case Fork(_, keys, _) => keys != []
  }

  /** `_borrow_from_left`: the two nodes and the separator between them, afterwards. */
  function BorrowFromLeft(left: Tree, child: Tree, sep: int): (Tree, int, Tree)
    requires Peers(left, child) && CanLend(left)
  {
    match (left, child)
    case (Tip(lp, lc, ln), Tip(cp, cc, cn)) =>
      var n := |lc| - 1;
      (Tip(lp, lc[..n], ln), lc[n].key, Tip(cp, [lc[n]] + cc, cn))
    case (Fork(lp, lk, lt), Fork(cp, ck, ct)) =>
      var n := |lk| - 1;
      (Fork(lp, lk[..n], lt[..n + 1]), lk[n], Fork(cp, [sep] + ck, [lt[n + 1]] + ct))
  }

  /** `_borrow_from_right`, when the right leaf has a cell left to read the new
      separator from. */
  function BorrowFromRight(child: Tree, right: Tree, sep: int): (Tree, int, Tree)
    requires Peers(child, right) && CanLend(right)
    requires right.Tip? ==> |right.cells| > 1
  {
    match (child, right)
    case (Tip(cp, cc, cn), Tip(rp, rc, rn)) =>
      (Tip(cp, cc + [rc[0]], cn), rc[1].key, Tip(rp, rc[1..], rn))
    case (Fork(cp, ck, ct), Fork(rp, rk, rt)) =>
      (Fork(cp, ck + [sep], ct + [rt[0]]), rk[0], Fork(rp, rk[1..], rt[1..]))
  }

  /** `_merge`, written to the page of the lower node. */
  function Merge(low: Tree, high: Tree, sep: int): Tree
    requires Peers(low, high)
  {
    match (low, high)
    case (Tip(lp, lc, _), Tip(_, hc, hn)) => Tip(lp, lc + hc, hn)
    case (Fork(lp, lk, lt), Fork(_, hk, ht)) => Fork(lp, lk + [sep] + hk, lt + ht)
  }

  predicate Neighbours(kids: seq<Tree>, i: nat)
    requires i < |kids|
  {
    && (i > 0 ==> Peers(kids[i - 1], kids[i]) && (CanSpare(kids[i - 1]) ==> CanLend(kids[i - 1])))
    && (i + 1 < |kids| ==> Peers(kids[i], kids[i + 1]) && (CanSpare(kids[i + 1]) ==> CanLend(kids[i + 1])))
  }

  /** `_rebalance` of child i, whose node has underflowed. */
  function Rebalance(page: nat, keys: seq<int>, kids: seq<Tree>, i: nat): Removal
    requires |kids| == |keys| + 1 && |kids| >= 2 && i < |kids| && Neighbours(kids, i)
  {
    if i > 0 && CanSpare(kids[i - 1]) then
      var (l, s, c) := BorrowFromLeft(kids[i - 1], kids[i], keys[i - 1]);
      Removed(Fork(page, keys[i - 1 := s], kids[i - 1 := l][i := c]))
    else if i + 1 < |kids| && CanSpare(kids[i + 1]) then
      if kids[i + 1].Tip? && |kids[i + 1].cells| == 1 then Broken(Fork(page, keys, kids))
      else
        var (c, s, r) := BorrowFromRight(kids[i], kids[i + 1], keys[i]);
        Removed(Fork(page, keys[i := s], kids[i := c][i + 1 := r]))
    else
      var j := if i > 0 then i - 1 else i;
      var m := Merge(kids[j], kids[j + 1], keys[j]);
      Removed(Fork(page, keys[..j] + keys[j + 1..], kids[..j] + [m] + kids[j + 2..]))
  }

  /** The rest of `_delete` at an internal node, given the outcome at its child i. */
  function Repair(page: nat, keys: seq<int>, kids: seq<Tree>, i: nat, r: Removal): Removal
    requires |kids| == |keys| + 1 && |kids| >= 2 && i < |kids|
    requires r.Removed? ==> Neighbours(kids[i := r.t], i)
  {
    match r
    case Missing => Missing
    case Broken(kid) => Broken(Fork(page, keys, kids[i := kid]))
    case Removed(kid) =>
      if Underflow(kid) then Rebalance(page, keys, kids[i := kid], i)
      else Removed(Fork(page, keys, kids[i := kid]))
  }

  /** `_delete` */
  function DeleteAt(t: Tree, k: int): (r: Removal)
    requires Shaped(t)
    ensures r.Removed? ==> Peers(r.t, t)
    decreases t
  {
    match t
    case Tip(page, cells, next) =>
      if Holds(cells, k) then Removed(Tip(page, RemoveSorted(cells, k), next)) else Missing
    case Fork(page, keys, kids) =>
      var i := ChildIndex(keys, k);
      var r := DeleteAt(kids[i], k);
      SparesLend(t, i, r);
      Repair(page, keys, kids, i, r)
  }

  /** A node with bytes to spare has something to lend. */
  lemma SparesLend(t: Tree, i: nat, r: Removal)
    requires t.Fork? && Shaped(t) && i < |t.kids| && (r.Removed? ==> Peers(r.t, t.kids[i]))
    ensures r.Removed? ==> Neighbours(t.kids[i := r.t], i)
  {
    var kids := t.kids;
    assert kids[i] in kids;
    assert i > 0 ==> kids[i - 1] in kids;
    assert i + 1 < |kids| ==> kids[i + 1] in kids;
  }

  lemma DeleteAtFork(t: Tree, k: int)
    requires t.Fork? && Shaped(t)
    ensures |t.kids| == |t.keys| + 1 >= 2
    ensures var i := ChildIndex(t.keys, k);
      && Shaped(t.kids[i])
      && var r := DeleteAt(t.kids[i], k);
      && (r.Removed? ==> Peers(r.t, t.kids[i]) && Neighbours(t.kids[i := r.t], i))
      && DeleteAt(t, k) == Repair(t.page, t.keys, t.kids, i, r)
  {
    var i := ChildIndex(t.keys, k);
    assert t.kids[i] in t.kids;
    SparesLend(t, i, DeleteAt(t.kids[i], k));
  }

  /** The root collapse of `delete`: an internal root without separators gives way to
      its only child. */
  function Collapse(t: Tree): Tree {
    match t
    case Tip(_, _, _) => t
    case Fork(_, keys, kids) => if keys == [] && kids != [] then Collapse(kids[0]) else t
  }

  // ---- the contents --------------------------------------------------------

  ghost predicate RemovalContents(r: Removal, before: seq<Cell>, k: int) {
    match r
    case Missing => !Holds(before, k)
    case Removed(t) => Holds(before, k) && Items(t) == RemoveSorted(before, k)
    case Broken(t) => Holds(before, k) && Items(t) == RemoveSorted(before, k)
  }

  lemma BorrowFromLeftItems(left: Tree, child: Tree, sep: int)
    requires Peers(left, child) && CanLend(left)
    ensures var (l, s, c) := BorrowFromLeft(left, child, sep);
      Items(l) + Items(c) == Items(left) + Items(child)
  {
    match (left, child)
    case (Tip(_, lc, _), Tip(_, _, _)) =>
      assert lc == lc[..|lc| - 1] + [lc[|lc| - 1]];
    case (Fork(_, lk, lt), Fork(_, _, ct)) =>
      hide ItemsAll;
      var last := [lt[|lk|]];
      assert lt == lt[..|lk|] + last;
      ItemsConcat(lt[..|lk|], last);
      ItemsConcat(last, ct);
  }

  lemma BorrowFromRightItems(child: Tree, right: Tree, sep: int)
    requires Peers(child, right) && CanLend(right) && (right.Tip? ==> |right.cells| > 1)
    ensures var (c, s, r) := BorrowFromRight(child, right, sep);
      Items(c) + Items(r) == Items(child) + Items(right)
  {
    match (child, right)
    case (Tip(_, _, _), Tip(_, rc, _)) =>
      assert rc == [rc[0]] + rc[1..];
    case (Fork(_, _, ct), Fork(_, _, rt)) =>
      hide ItemsAll;
      assert rt == [rt[0]] + rt[1..];
      ItemsConcat(ct, [rt[0]]);
      ItemsConcat([rt[0]], rt[1..]);
  }

  lemma MergeItems(low: Tree, high: Tree, sep: int)
    requires Peers(low, high)
    ensures Items(Merge(low, high, sep)) == Items(low) + Items(high)
  {
    if low.Fork? {
      ItemsConcat(low.kids, high.kids);
    }
  }

  /** Two adjacent children replaced by a run with the same cells. */
  lemma SwapTwoItems(kids: seq<Tree>, j: nat, w: seq<Tree>)
    requires j + 1 < |kids|
    requires ItemsAll(w) == Items(kids[j]) + Items(kids[j + 1])
    ensures ItemsAll(kids[..j] + w + kids[j + 2..]) == ItemsAll(kids)
  {
    hide ItemsAll;
    var two := [kids[j], kids[j + 1]];
    Pair(kids[j], kids[j + 1]);
    assert kids == kids[..j] + two + kids[j + 2..];
    ItemsAround(kids[..j], two, kids[j + 2..]);
    ItemsAround(kids[..j], w, kids[j + 2..]);
  }

  lemma BorrowLeftItems(kids: seq<Tree>, i: nat, sep: int)
    requires 0 < i < |kids| && Peers(kids[i - 1], kids[i]) && CanLend(kids[i - 1])
    ensures var (l, _, c) := BorrowFromLeft(kids[i - 1], kids[i], sep);
      ItemsAll(kids[i - 1 := l][i := c]) == ItemsAll(kids)
  {
    hide ItemsAll, BorrowFromLeft, Peers, CanLend;
    var (l, _, c) := BorrowFromLeft(kids[i - 1], kids[i], sep);
    BorrowFromLeftItems(kids[i - 1], kids[i], sep);
    Pair(l, c);
    SwapTwoItems(kids, i - 1, [l, c]);
    assert kids[i - 1 := l][i := c] == kids[..i - 1] + [l, c] + kids[i + 1..];
  }

  lemma BorrowRightItems(kids: seq<Tree>, i: nat, sep: int)
    requires i + 1 < |kids| && Peers(kids[i], kids[i + 1]) && CanLend(kids[i + 1])
    requires kids[i + 1].Tip? ==> |kids[i + 1].cells| > 1
    ensures var (c, _, r) := BorrowFromRight(kids[i], kids[i + 1], sep);
      ItemsAll(kids[i := c][i + 1 := r]) == ItemsAll(kids)
  {
    hide ItemsAll, BorrowFromRight, Peers, CanLend;
    var (c, _, r) := BorrowFromRight(kids[i], kids[i + 1], sep);
    BorrowFromRightItems(kids[i], kids[i + 1], sep);
    Pair(c, r);
    SwapTwoItems(kids, i, [c, r]);
    assert kids[i := c][i + 1 := r] == kids[..i] + [c, r] + kids[i + 2..];
  }

  lemma MergeTwoItems(kids: seq<Tree>, j: nat, sep: int)
    requires j + 1 < |kids| && Peers(kids[j], kids[j + 1])
    ensures ItemsAll(kids[..j] + [Merge(kids[j], kids[j + 1], sep)] + kids[j + 2..]) == ItemsAll(kids)
  {
    hide ItemsAll, Merge, Peers;
    MergeItems(kids[j], kids[j + 1], sep);
    Single(Merge(kids[j], kids[j + 1], sep));
    SwapTwoItems(kids, j, [Merge(kids[j], kids[j + 1], sep)]);
  }

  /** Rebalancing moves cells between pages but keeps all of them, in order. */
  lemma RebalanceItems(page: nat, keys: seq<int>, kids: seq<Tree>, i: nat)
    requires |kids| == |keys| + 1 && |kids| >= 2 && i < |kids| && Neighbours(kids, i)
    ensures !Rebalance(page, keys, kids, i).Missing?
    ensures Items(Rebalance(page, keys, kids, i).t) == ItemsAll(kids)
  {
    hide ItemsAll, BorrowFromLeft, BorrowFromRight, Merge, CanSpare, Peers;
    if i > 0 && CanSpare(kids[i - 1]) {
      BorrowLeftItems(kids, i, keys[i - 1]);
    } else if i + 1 < |kids| && CanSpare(kids[i + 1]) {
      if !(kids[i + 1].Tip? && |kids[i + 1].cells| == 1) {
        BorrowRightItems(kids, i, keys[i]);
      }
    } else {
      var j := if i > 0 then i - 1 else i;
      MergeTwoItems(kids, j, keys[j]);
    }
  }

  lemma ReplaceItems(kids: seq<Tree>, i: nat, kid: Tree, k: int)
    requires i < |kids| && Holds(Items(kids[i]), k)
    requires AllBelow(ItemsAll(kids[..i]), k) && AllAbove(ItemsAll(kids[i + 1..]), k)
    requires Items(kid) == RemoveSorted(Items(kids[i]), k)
    ensures Holds(ItemsAll(kids), k) && ItemsAll(kids[i := kid]) == RemoveSorted(ItemsAll(kids), k)
  {
    hide ItemsAll, Holds, RemoveSorted;
    ItemsAt(kids, i);
    RemoveAround(ItemsAll(kids[..i]), Items(kids[i]), ItemsAll(kids[i + 1..]), k);
    var kids' := kids[i := kid];
    ItemsAt(kids', i);
    assert kids'[..i] == kids[..i] && kids'[i + 1..] == kids[i + 1..];
  }

  lemma RepairContents(page: nat, keys: seq<int>, kids: seq<Tree>, i: nat, r: Removal, k: int)
    requires |kids| == |keys| + 1 && |kids| >= 2 && i < |kids|
    requires r.Removed? ==> Neighbours(kids[i := r.t], i)
    requires AllBelow(ItemsAll(kids[..i]), k) && AllAbove(ItemsAll(kids[i + 1..]), k)
    requires RemovalContents(r, Items(kids[i]), k)
    ensures RemovalContents(Repair(page, keys, kids, i, r), ItemsAll(kids), k)
  {
    hide ItemsAll, Rebalance, Underflow, Neighbours, Holds, RemoveSorted, AllBelow, AllAbove;
    match r
    case Missing =>
      ItemsAt(kids, i);
      RemoveAround(ItemsAll(kids[..i]), Items(kids[i]), ItemsAll(kids[i + 1..]), k);
    case Broken(kid) =>
      ReplaceItems(kids, i, kid, k);
    case Removed(kid) =>
      ReplaceItems(kids, i, kid, k);
      if Underflow(kid) {
        RebalanceItems(page, keys, kids[i := kid], i);
      }
  }

  /** Deleting takes exactly the named cell out of the tree's cells. */
  lemma {:induction false} DeleteContents(t: Tree, k: int, h: nat, lo: int, hi: int, after: Option<nat>)
    requires Shaped(t) && Good(t, h, lo, hi, after) && lo <= k < hi
    ensures RemovalContents(DeleteAt(t, k), Items(t), k)
    decreases h
  {
    if t.Fork? {
      var i := ChildIndex(t.keys, k);
      ForkKid(t, k, h, lo, hi, after);
      hide *;
      DeleteContents(t.kids[i], k, h - 1, Lo(t.keys, i, lo), Hi(t.keys, i, hi), After(t.kids, i, after));
      RepairContents(t.page, t.keys, t.kids, i, DeleteAt(t.kids[i], k), k);
    }
  }

  /** What the induction at an internal node needs to know about the child that k is
      routed to. */
  lemma ForkKid(t: Tree, k: int, h: nat, lo: int, hi: int, after: Option<nat>)
    requires t.Fork? && Shaped(t) && Good(t, h, lo, hi, after) && lo <= k < hi
    ensures h > 0 && |t.kids| == |t.keys| + 1 >= 2 && Items(t) == ItemsAll(t.kids)
    ensures var i := ChildIndex(t.keys, k);
      && i < |t.kids| && Shaped(t.kids[i])
      && Lo(t.keys, i, lo) <= k < Hi(t.keys, i, hi)
      && Good(t.kids[i], h - 1, Lo(t.keys, i, lo), Hi(t.keys, i, hi), After(t.kids, i, after))
      && AllBelow(ItemsAll(t.kids[..i]), k) && AllAbove(ItemsAll(t.kids[i + 1..]), k)
      && var r := DeleteAt(t.kids[i], k);
      && (r.Removed? ==> Peers(r.t, t.kids[i]) && Neighbours(t.kids[i := r.t], i))
      && DeleteAt(t, k) == Repair(t.page, t.keys, t.kids, i, r)
  {
    hide ItemsAll, ChildIndex, Repair, Neighbours, Lo, Hi, After, AllBelow, AllAbove, GoodForest, DeleteAt;
    RoutedKid(t.page, t.keys, t.kids, h, lo, hi, after, k);
    DeleteAtFork(t, k);
  }

  // ---- the invariant ---------------------------------------------------------

  /** After a removal a node may have a single child left, which its parent repairs. */
  ghost predicate RemovalGood(r: Removal, t: Tree, h: nat, lo: int, hi: int, after: Option<nat>) {
    match r
    case Missing => true
    case Removed(t') => GoodTop(t', h, lo, hi, after) && t'.page == t.page && FirstPage(t') == FirstPage(t)
    case Broken(t') => Good(t', h, lo, hi, after) && t'.page == t.page && FirstPage(t') == FirstPage(t)
  }

  /** A node with a separator is as good as its invariant needs. */
  lemma TopGood(t: Tree, h: nat, lo: int, hi: int, after: Option<nat>)
    requires GoodTop(t, h, lo, hi, after) && !Underflow(t)
    ensures Good(t, h, lo, hi, after)
  {
  }

  /** Neighbours before a repair: a stands left of b around sep, and one of them may
      be short of separators. */
  ghost predicate Side(a: Tree, b: Tree, sep: int, h: nat, lo: int, hi: int, after: Option<nat>) {
    && IsI64(sep)
    && GoodTop(a, h, lo, sep, Some(FirstPage(b)))
    && GoodTop(b, h, sep, hi, after)
  }

  /** Neighbours after a repair. */
  ghost predicate Repaired(l: Tree, s: int, r: Tree, h: nat, lo: int, hi: int, after: Option<nat>) {
    && IsI64(s)
    && Good(l, h, lo, s, Some(FirstPage(r)))
    && Good(r, h, s, hi, after)
  }

  lemma TipOf(t: Tree, h: nat, lo: int, hi: int, after: Option<nat>)
    requires t.Tip?
    ensures GoodTop(t, h, lo, hi, after) <==>
            h == 0 && lo <= hi && t.page < NO_PAGE && GoodCells(t.cells, lo, hi) && t.next == after
            && (after.Some? ==> after.value < NO_PAGE) && NodeSize(Leaf(t.cells, after)) <= PAGE_SIZE
  {
    if h == 0 && lo <= hi && t.page < NO_PAGE && GoodCells(t.cells, lo, hi) && t.next == after
       && (after.Some? ==> after.value < NO_PAGE) && NodeSize(Leaf(t.cells, after)) <= PAGE_SIZE {
      GoodTip(t.page, t.cells, after, lo, hi);
    }
  }

  /** Moving one cell into an underfull leaf does not overfill it: a cell is at most
      half a page and twelve bytes. */
  lemma OneMore(c: Cell, cells: seq<Cell>)
    requires |c.val| <= MAX_VALUE_SIZE && (cells == [] || 9 + CellsSize(cells) < MIN_BYTES)
    ensures 9 + CellsSize([c] + cells) <= PAGE_SIZE && 9 + CellsSize(cells + [c]) <= PAGE_SIZE
  {
    CellsSizeConcat(cells, [c]);
    assert ([c] + cells)[1..] == cells && [c][1..] == [];
  }

  lemma Shorter(cells: seq<Cell>, n: nat)
    requires n <= |cells|
    ensures CellsSize(cells[..n]) <= CellsSize(cells) && CellsSize(cells[n..]) <= CellsSize(cells)
    ensures CellsSize(cells[..n]) + CellsSize(cells[n..]) == CellsSize(cells)
  {
    hide CellsSize;
    assert cells == cells[..n] + cells[n..];
    CellsSizeConcat(cells[..n], cells[n..]);
  }

  lemma BorrowFromLeftTips(left: Tree, child: Tree, sep: int, lo: int, hi: int, after: Option<nat>)
    requires left.Tip? && child.Tip? && left.cells != [] && Underflow(child)
    requires Side(left, child, sep, 0, lo, hi, after)
    ensures var (l, s, c) := BorrowFromLeft(left, child, sep);
      Repaired(l, s, c, 0, lo, hi, after) && l.page == left.page && c.page == child.page
  {
    TipOf(left, 0, lo, sep, Some(child.page));
    TipOf(child, 0, sep, hi, after);
    hide Good;
    var n := |left.cells| - 1;
    var c := left.cells[n];
    OneMore(c, child.cells);
    Shorter(left.cells, n);
    assert GoodCells([c] + child.cells, c.key, hi);
    assert GoodCells(left.cells[..n], lo, c.key);
    GoodTip(left.page, left.cells[..n], Some(child.page), lo, c.key);
    GoodTip(child.page, [c] + child.cells, after, c.key, hi);
  }

  lemma BorrowFromRightTips(child: Tree, right: Tree, sep: int, lo: int, hi: int, after: Option<nat>)
    requires child.Tip? && right.Tip? && |right.cells| > 1 && Underflow(child)
    requires Side(child, right, sep, 0, lo, hi, after)
    ensures var (c, s, r) := BorrowFromRight(child, right, sep);
      Repaired(c, s, r, 0, lo, hi, after) && c.page == child.page && r.page == right.page
  {
    TipOf(child, 0, lo, sep, Some(right.page));
    TipOf(right, 0, sep, hi, after);
    hide Good;
    var c, s := right.cells[0], right.cells[1].key;
    OneMore(c, child.cells);
    Shorter(right.cells, 1);
    assert GoodCells(child.cells + [c], lo, s);
    assert GoodCells(right.cells[1..], s, hi);
    GoodTip(child.page, child.cells + [c], Some(right.page), lo, s);
    GoodTip(right.page, right.cells[1..], after, s, hi);
  }

  lemma GoodFork(page: nat, keys: seq<int>, kids: seq<Tree>, h: nat, lo: int, hi: int, after: Option<nat>)
    requires page < NO_PAGE && 1 <= |keys| <= MAX_KEYS && GoodForest(keys, kids, h, lo, hi, after)
    ensures Good(Fork(page, keys, kids), h + 1, lo, hi, after)
  {
  }

  /** What the sizes of two internal neighbours say about their separators. */
  lemma SideForks(a: Tree, b: Tree, sep: int, h: nat, lo: int, hi: int, after: Option<nat>)
    requires a.Fork? && b.Fork? && Side(a, b, sep, h + 1, lo, hi, after)
    ensures GoodForest(a.keys, a.kids, h, lo, sep, Some(FirstPage(b)))
    ensures GoodForest(b.keys, b.kids, h, sep, hi, after)
    ensures a.page < NO_PAGE && b.page < NO_PAGE
    ensures |a.kids| == |a.keys| + 1 && |b.kids| == |b.keys| + 1
    ensures |a.keys| <= MAX_KEYS && |b.keys| <= MAX_KEYS
    ensures CanSpare(a) ==> |a.keys| >= 119
    ensures CanSpare(b) ==> |b.keys| >= 119
    ensures Underflow(a) ==> |a.keys| <= 112
    ensures Underflow(b) ==> |b.keys| <= 112
  {
  }

  /** The last child of one forest moves to the front of the next one. */
  lemma LastMoves(lk: seq<int>, lt: seq<Tree>, sep: int, ck: seq<int>, ct: seq<Tree>, next: Option<nat>,
                  h: nat, lo: int, hi: int, after: Option<nat>)
    requires lk != [] && |lt| == |lk| + 1 && ct != [] && IsI64(sep) && next == Some(FirstPage(ct[0]))
    requires GoodForest(lk, lt, h, lo, sep, next) && GoodForest(ck, ct, h, sep, hi, after)
    ensures var n := |lk| - 1;
      && GoodForest(lk[..n], lt[..n + 1], h, lo, lk[n], Some(FirstPage(lt[n + 1])))
      && GoodForest([sep] + ck, [lt[n + 1]] + ct, h, lk[n], hi, after) && IsI64(lk[n])
  {
    var n := |lk| - 1;
    assert IsI64(lk[n]);
    hide *;
    Cut(lk, lt, n, h, lo, sep, next);
    assert lk[n + 1..] == [] && lt[n + 1..] == [lt[n + 1]];
    Join([], [lt[n + 1]], sep, ck, ct, h, lk[n], hi, after);
    assert [] + [sep] + ck == [sep] + ck;
  }

  /** The first child of one forest moves to the end of the one before it. */
  lemma FirstMoves(ck: seq<int>, ct: seq<Tree>, sep: int, rk: seq<int>, rt: seq<Tree>, next: Option<nat>,
                   h: nat, lo: int, hi: int, after: Option<nat>)
    requires rk != [] && |rt| == |rk| + 1 && |ct| == |ck| + 1 && IsI64(sep) && next == Some(FirstPage(rt[0]))
    requires GoodForest(ck, ct, h, lo, sep, next) && GoodForest(rk, rt, h, sep, hi, after)
    ensures GoodForest(ck + [sep], ct + [rt[0]], h, lo, rk[0], Some(FirstPage(rt[1])))
    ensures GoodForest(rk[1..], rt[1..], h, rk[0], hi, after) && IsI64(rk[0])
  {
    assert IsI64(rk[0]);
    hide *;
    Cut(rk, rt, 0, h, sep, hi, after);
    assert rk[..0] == [] && rt[..1] == [rt[0]];
    Join(ck, ct, sep, [], [rt[0]], h, lo, rk[0], Some(FirstPage(rt[1])));
    assert ck + [sep] + [] == ck + [sep];
  }

  lemma FirstPageOfFork(t: Tree)
    requires t.Fork? && t.kids != []
    ensures FirstPage(t) == FirstPage(t.kids[0])
  {
  }

  lemma BorrowFromLeftForks(left: Tree, child: Tree, sep: int, h: nat, lo: int, hi: int, after: Option<nat>)
    requires left.Fork? && child.Fork? && CanSpare(left) && Underflow(child)
    requires Side(left, child, sep, h + 1, lo, hi, after)
    ensures Peers(left, child) && CanLend(left)
    ensures var (l, s, c) := BorrowFromLeft(left, child, sep);
      && Repaired(l, s, c, h + 1, lo, hi, after) && FirstPage(l) == FirstPage(left)
      && l.page == left.page && c.page == child.page
  {
    var n := |left.keys| - 1;
    SideForks(left, child, sep, h, lo, hi, after);
    hide Good, GoodTop, GoodForest, NodeSize, FirstPage, CanSpare, Underflow;
    FirstPageOfFork(child);
    LastMoves(left.keys, left.kids, sep, child.keys, child.kids, Some(FirstPage(child)), h, lo, hi, after);
    var l := Fork(left.page, left.keys[..n], left.kids[..n + 1]);
    var c := Fork(child.page, [sep] + child.keys, [left.kids[n + 1]] + child.kids);
    GoodFork(l.page, l.keys, l.kids, h, lo, left.keys[n], Some(FirstPage(left.kids[n + 1])));
    GoodFork(c.page, c.keys, c.kids, h, left.keys[n], hi, after);
    FirstPageOfFork(left);
    FirstPageOfFork(l);
    FirstPageOfFork(c);
    assert BorrowFromLeft(left, child, sep) == (l, left.keys[n], c);
  }

  lemma BorrowFromRightForks(child: Tree, right: Tree, sep: int, h: nat, lo: int, hi: int, after: Option<nat>)
    requires child.Fork? && right.Fork? && CanSpare(right) && Underflow(child)
    requires Side(child, right, sep, h + 1, lo, hi, after)
    ensures Peers(child, right) && CanLend(right)
    ensures var (c, s, r) := BorrowFromRight(child, right, sep);
      && Repaired(c, s, r, h + 1, lo, hi, after) && FirstPage(c) == FirstPage(child)
      && c.page == child.page && r.page == right.page
  {
    SideForks(child, right, sep, h, lo, hi, after);
    hide Good, GoodTop, GoodForest, NodeSize, FirstPage, CanSpare, Underflow;
    FirstPageOfFork(right);
    FirstMoves(child.keys, child.kids, sep, right.keys, right.kids, Some(FirstPage(right)), h, lo, hi, after);
    var c := Fork(child.page, child.keys + [sep], child.kids + [right.kids[0]]);
    var r := Fork(right.page, right.keys[1..], right.kids[1..]);
    GoodFork(c.page, c.keys, c.kids, h, lo, right.keys[0], Some(FirstPage(right.kids[1])));
    GoodFork(r.page, r.keys, r.kids, h, right.keys[0], hi, after);
    FirstPageOfFork(child);
    FirstPageOfFork(c);
    FirstPageOfFork(r);
    assert BorrowFromRight(child, right, sep) == (c, right.keys[0], r);
  }

  /** A merge is only reached when one side is underfull and the other cannot spare
      anything, so together they fill at most 2785 bytes. */
  lemma MergeSize(low: Tree, high: Tree, sep: int)
    requires Peers(low, high)
    requires (Underflow(low) && !CanSpare(high)) || (!CanSpare(low) && Underflow(high))
    ensures NodeSize(NodeOf(Merge(low, high, sep))) <= 2785
  {
    if low.Tip? {
      CellsSizeConcat(low.cells, high.cells);
    }
  }

  lemma MergeTips(low: Tree, high: Tree, sep: int, lo: int, hi: int, after: Option<nat>)
    requires low.Tip? && high.Tip?
    requires Side(low, high, sep, 0, lo, hi, after)
    requires (Underflow(low) && !CanSpare(high)) || (!CanSpare(low) && Underflow(high))
    ensures Good(Merge(low, high, sep), 0, lo, hi, after)
  {
    MergeSize(low, high, sep);
    TipOf(low, 0, lo, sep, Some(high.page));
    TipOf(high, 0, sep, hi, after);
    hide Good;
    SortedConcat(low.cells, high.cells, lo, sep, hi);
    GoodTip(low.page, low.cells + high.cells, after, lo, hi);
  }

  lemma MergeForks(low: Tree, high: Tree, sep: int, h: nat, lo: int, hi: int, after: Option<nat>)
    requires low.Fork? && high.Fork?
    requires Side(low, high, sep, h + 1, lo, hi, after)
    requires (Underflow(low) && !CanSpare(high)) || (!CanSpare(low) && Underflow(high))
    ensures Good(Merge(low, high, sep), h + 1, lo, hi, after)
    ensures FirstPage(Merge(low, high, sep)) == FirstPage(low)
  {
    MergeSize(low, high, sep);
    assert GoodForest(low.keys, low.kids, h, lo, sep, Some(FirstPage(high)));
    assert GoodForest(high.keys, high.kids, h, sep, hi, after);
    Join(low.keys, low.kids, sep, high.keys, high.kids, h, lo, hi, after);
  }

  /** Both kinds of node at once. */
  lemma BorrowFromLeftGood(left: Tree, child: Tree, sep: int, h: nat, lo: int, hi: int, after: Option<nat>)
    requires Side(left, child, sep, h, lo, hi, after) && CanSpare(left) && Underflow(child)
    ensures Peers(left, child) && CanLend(left)
    ensures var (l, s, c) := BorrowFromLeft(left, child, sep);
      && Repaired(l, s, c, h, lo, hi, after) && FirstPage(l) == FirstPage(left)
      && l.page == left.page && c.page == child.page
  {
    SidePeers(left, child, sep, h, lo, hi, after);
    if h == 0 {
      BorrowFromLeftTips(left, child, sep, lo, hi, after);
    } else {
      BorrowFromLeftForks(left, child, sep, h - 1, lo, hi, after);
    }
  }

  lemma BorrowFromRightGood(child: Tree, right: Tree, sep: int, h: nat, lo: int, hi: int, after: Option<nat>)
    requires Side(child, right, sep, h, lo, hi, after) && CanSpare(right) && Underflow(child)
    requires right.Tip? ==> |right.cells| != 1
    ensures Peers(child, right) && CanLend(right) && (right.Tip? ==> |right.cells| > 1)
    ensures var (c, s, r) := BorrowFromRight(child, right, sep);
      && Repaired(c, s, r, h, lo, hi, after) && FirstPage(c) == FirstPage(child)
      && c.page == child.page && r.page == right.page
  {
    SidePeers(child, right, sep, h, lo, hi, after);
    if h == 0 {
      BorrowFromRightTips(child, right, sep, lo, hi, after);
    } else {
      BorrowFromRightForks(child, right, sep, h - 1, lo, hi, after);
    }
  }

  lemma MergeGood(low: Tree, high: Tree, sep: int, h: nat, lo: int, hi: int, after: Option<nat>)
    requires Side(low, high, sep, h, lo, hi, after)
    requires (Underflow(low) && !CanSpare(high)) || (!CanSpare(low) && Underflow(high))
    ensures Peers(low, high) && Good(Merge(low, high, sep), h, lo, hi, after)
    ensures FirstPage(Merge(low, high, sep)) == FirstPage(low)
  {
    SidePeers(low, high, sep, h, lo, hi, after);
    if h == 0 {
      MergeTips(low, high, sep, lo, hi, after);
    } else {
      MergeForks(low, high, sep, h - 1, lo, hi, after);
    }
  }

  lemma SidePeers(a: Tree, b: Tree, sep: int, h: nat, lo: int, hi: int, after: Option<nat>)
    requires Side(a, b, sep, h, lo, hi, after)
    ensures Peers(a, b) && (a.Tip? <==> h == 0) && (CanSpare(a) ==> CanLend(a)) && (CanSpare(b) ==> CanLend(b))
  {
  }

  // ---- repairing a forest -----------------------------------------------------

  /** A forest whose child i has just lost a cell or a grandchild. */
  ghost predicate Damaged(keys: seq<int>, kids: seq<Tree>, i: nat, h: nat, lo: int, hi: int, after: Option<nat>) {
    && |kids| == |keys| + 1 && |kids| >= 2 && i < |kids| && Rising(keys, lo, hi)
    && (forall j :: 0 <= j < |kids| && j != i ==>
          Good(kids[j], h, Lo(keys, j, lo), Hi(keys, j, hi), After(kids, j, after)))
    && GoodTop(kids[i], h, Lo(keys, i, lo), Hi(keys, i, hi), After(kids, i, after))
    && Underflow(kids[i])
  }

  /** The two children around separator j, seen as neighbours. */
  lemma SideOf(keys: seq<int>, kids: seq<Tree>, i: nat, j: nat, h: nat, lo: int, hi: int, after: Option<nat>)
    requires Damaged(keys, kids, i, h, lo, hi, after) && j < |keys|
    ensures Side(kids[j], kids[j + 1], keys[j], h, Lo(keys, j, lo), Hi(keys, j + 1, hi), After(kids, j + 1, after))
  {
    hide Good, GoodTop, Underflow;
    KidTop(keys, kids, i, j, h, lo, hi, after);
    KidTop(keys, kids, i, j + 1, h, lo, hi, after);
  }

  lemma KidTop(keys: seq<int>, kids: seq<Tree>, i: nat, j: nat, h: nat, lo: int, hi: int, after: Option<nat>)
    requires Damaged(keys, kids, i, h, lo, hi, after) && j < |kids|
    ensures GoodTop(kids[j], h, Lo(keys, j, lo), Hi(keys, j, hi), After(kids, j, after))
  {
    if j != i {
      assert Good(kids[j], h, Lo(keys, j, lo), Hi(keys, j, hi), After(kids, j, after));
      hide GoodForest;
    }
  }

  lemma RebalanceLeftGood(keys: seq<int>, kids: seq<Tree>, i: nat, h: nat, lo: int, hi: int, after: Option<nat>)
    requires Damaged(keys, kids, i, h, lo, hi, after) && 0 < i && CanSpare(kids[i - 1])
    ensures Peers(kids[i - 1], kids[i]) && CanLend(kids[i - 1])
    ensures var (l, s, c) := BorrowFromLeft(kids[i - 1], kids[i], keys[i - 1]);
      && GoodForest(keys[i - 1 := s], kids[i - 1 := l][i := c], h, lo, hi, after)
      && FirstPage(l) == FirstPage(kids[i - 1])
  {
    SideOf(keys, kids, i, i - 1, h, lo, hi, after);
    hide GoodForest, Good, GoodTop, Side, BorrowFromLeft, CanSpare, Underflow, CanLend, Peers;
    BorrowFromLeftGood(kids[i - 1], kids[i], keys[i - 1], h, Lo(keys, i - 1, lo), Hi(keys, i, hi),
      After(kids, i, after));
    var (l, s, c) := BorrowFromLeft(kids[i - 1], kids[i], keys[i - 1]);
    ReplaceTwo(keys, kids, i - 1, l, s, c, h, lo, hi, after);
  }

  lemma RebalanceRightGood(keys: seq<int>, kids: seq<Tree>, i: nat, h: nat, lo: int, hi: int, after: Option<nat>)
    requires Damaged(keys, kids, i, h, lo, hi, after) && i + 1 < |kids| && CanSpare(kids[i + 1])
    requires kids[i + 1].Tip? ==> |kids[i + 1].cells| != 1
    ensures Peers(kids[i], kids[i + 1]) && CanLend(kids[i + 1]) && (kids[i + 1].Tip? ==> |kids[i + 1].cells| > 1)
    ensures var (c, s, r) := BorrowFromRight(kids[i], kids[i + 1], keys[i]);
      && GoodForest(keys[i := s], kids[i := c][i + 1 := r], h, lo, hi, after)
      && FirstPage(c) == FirstPage(kids[i])
  {
    SideOf(keys, kids, i, i, h, lo, hi, after);
    hide GoodForest, Good, GoodTop, Side, BorrowFromRight, CanSpare, Underflow, CanLend, Peers;
    BorrowFromRightGood(kids[i], kids[i + 1], keys[i], h, Lo(keys, i, lo), Hi(keys, i + 1, hi),
      After(kids, i + 1, after));
    var (c, s, r) := BorrowFromRight(kids[i], kids[i + 1], keys[i]);
    ReplaceTwo(keys, kids, i, c, s, r, h, lo, hi, after);
  }

  lemma RebalanceMergeGood(keys: seq<int>, kids: seq<Tree>, i: nat, j: nat, h: nat, lo: int, hi: int,
                           after: Option<nat>)
    requires Damaged(keys, kids, i, h, lo, hi, after) && j < |keys|
    requires (i == j && !CanSpare(kids[j + 1])) || (i == j + 1 && !CanSpare(kids[j]))
    ensures Peers(kids[j], kids[j + 1])
    ensures var m := Merge(kids[j], kids[j + 1], keys[j]);
      && GoodForest(keys[..j] + keys[j + 1..], kids[..j] + [m] + kids[j + 2..], h, lo, hi, after)
      && FirstPage(m) == FirstPage(kids[j])
  {
    SideOf(keys, kids, i, j, h, lo, hi, after);
    hide GoodForest, Good, GoodTop, Side, Merge, CanSpare, Underflow, Peers;
    MergeGood(kids[j], kids[j + 1], keys[j], h, Lo(keys, j, lo), Hi(keys, j + 1, hi), After(kids, j + 1, after));
    ReplaceByOne(keys, kids, j, Merge(kids[j], kids[j + 1], keys[j]), h, lo, hi, after);
  }

  /** Rebalancing restores the forest under the node; the node itself may be left with
      one child. When it breaks off, nothing but the underfull child is out of place. */
  lemma RebalanceGood(page: nat, keys: seq<int>, kids: seq<Tree>, i: nat, h: nat, lo: int, hi: int, after: Option<nat>)
    requires Damaged(keys, kids, i, h, lo, hi, after) && Neighbours(kids, i)
    requires page < NO_PAGE && |keys| <= MAX_KEYS
    ensures RemovalGood(Rebalance(page, keys, kids, i), Fork(page, keys, kids), h + 1, lo, hi, after)
  {
    hide Good, BorrowFromLeft, BorrowFromRight, Merge, CanSpare, Underflow, Peers, CanLend, Rising, Lo, Hi, After;
    if i > 0 && CanSpare(kids[i - 1]) {
      RebalanceLeftGood(keys, kids, i, h, lo, hi, after);
      hide Damaged, GoodForest;
    } else if i + 1 < |kids| && CanSpare(kids[i + 1]) {
      if kids[i + 1].Tip? && |kids[i + 1].cells| == 1 {
        BrokenGood(page, keys, kids, i, h, lo, hi, after);
      } else {
        RebalanceRightGood(keys, kids, i, h, lo, hi, after);
        hide Damaged, GoodForest;
      }
    } else {
      var j := if i > 0 then i - 1 else i;
      RebalanceMergeGood(keys, kids, i, j, h, lo, hi, after);
      hide Damaged, GoodForest;
    }
  }

  /** The IndexError only comes up between leaves, which are good when underfull. */
  lemma BrokenGood(page: nat, keys: seq<int>, kids: seq<Tree>, i: nat, h: nat, lo: int, hi: int, after: Option<nat>)
    requires Damaged(keys, kids, i, h, lo, hi, after) && i + 1 < |kids| && kids[i + 1].Tip?
    requires page < NO_PAGE && |keys| <= MAX_KEYS
    ensures Good(Fork(page, keys, kids), h + 1, lo, hi, after)
  {
    SideOf(keys, kids, i, i, h, lo, hi, after);
    SidePeers(kids[i], kids[i + 1], keys[i], h, Lo(keys, i, lo), Hi(keys, i + 1, hi), After(kids, i + 1, after));
    assert Good(kids[i], h, Lo(keys, i, lo), Hi(keys, i, hi), After(kids, i, after));
    hide Good, GoodTop;
    GoodFork(page, keys, kids, h, lo, hi, after);
  }

  lemma RepairGood(page: nat, keys: seq<int>, kids: seq<Tree>, i: nat, r: Removal,
                   h: nat, lo: int, hi: int, after: Option<nat>)
    requires |kids| == |keys| + 1 >= 2 && i < |kids| && page < NO_PAGE && |keys| <= MAX_KEYS
    requires GoodForest(keys, kids, h, lo, hi, after)
    requires r.Removed? ==> Neighbours(kids[i := r.t], i)
    requires RemovalGood(r, kids[i], h, Lo(keys, i, lo), Hi(keys, i, hi), After(kids, i, after))
    ensures RemovalGood(Repair(page, keys, kids, i, r), Fork(page, keys, kids), h + 1, lo, hi, after)
  {
    hide Good, GoodTop, Rebalance, Underflow, Neighbours, Lo, Hi;
    match r
    case Missing =>
    case Broken(kid) =>
      Replace(keys, kids, i, kid, h, lo, hi, after);
      hide GoodForest;
      GoodFork(page, keys, kids[i := kid], h, lo, hi, after);
    case Removed(kid) =>
      if Underflow(kid) {
        DamageDone(keys, kids, i, kid, h, lo, hi, after);
        RebalanceGood(page, keys, kids[i := kid], i, h, lo, hi, after);
      } else {
        TopGood(kid, h, Lo(keys, i, lo), Hi(keys, i, hi), After(kids, i, after));
        Replace(keys, kids, i, kid, h, lo, hi, after);
        hide GoodForest;
        ForkTop(page, keys, kids[i := kid], h, lo, hi, after);
      }
  }

  lemma ForkTop(page: nat, keys: seq<int>, kids: seq<Tree>, h: nat, lo: int, hi: int, after: Option<nat>)
    requires page < NO_PAGE && |keys| <= MAX_KEYS && GoodForest(keys, kids, h, lo, hi, after)
    ensures GoodTop(Fork(page, keys, kids), h + 1, lo, hi, after)
  {
  }

  lemma DamageDone(keys: seq<int>, kids: seq<Tree>, i: nat, kid: Tree, h: nat, lo: int, hi: int, after: Option<nat>)
    requires GoodForest(keys, kids, h, lo, hi, after) && |kids| >= 2 && i < |kids|
    requires GoodTop(kid, h, Lo(keys, i, lo), Hi(keys, i, hi), After(kids, i, after))
    requires FirstPage(kid) == FirstPage(kids[i]) && Underflow(kid)
    ensures Damaged(keys, kids[i := kid], i, h, lo, hi, after)
  {
    hide Good, GoodTop, Underflow, FirstPage, Lo, Hi;
    var kids' := kids[i := kid];
    forall j | 0 <= j < |kids'| && j != i
      ensures Good(kids'[j], h, Lo(keys, j, lo), Hi(keys, j, hi), After(kids', j, after))
    {
      assert Good(kids[j], h, Lo(keys, j, lo), Hi(keys, j, hi), After(kids, j, after));
    }
  }

  lemma RemoveSize(cells: seq<Cell>, k: int)
    requires Holds(cells, k)
    ensures CellsSize(RemoveSorted(cells, k)) + CellSize(cells[CellIndex(cells, k)]) == CellsSize(cells)
  {
    var i := CellIndex(cells, k);
    assert CellsSize(cells[i..]) == CellSize(cells[i]) + CellsSize(cells[i + 1..]) by {
      assert cells[i..][1..] == cells[i + 1..];
    }
    hide CellsSize, CellIndex;
    CellsSizeConcat(cells[..i], cells[i + 1..]);
    Shorter(cells, i);
  }

  lemma RemoveGoodCells(cells: seq<Cell>, k: int, lo: int, hi: int)
    requires GoodCells(cells, lo, hi) && Holds(cells, k)
    ensures GoodCells(RemoveSorted(cells, k), lo, hi)
  {
    hide CellIndex;
  }

  lemma DeleteTipGood(t: Tree, k: int, lo: int, hi: int, after: Option<nat>)
    requires t.Tip? && Good(t, 0, lo, hi, after)
    ensures RemovalGood(DeleteAt(t, k), t, 0, lo, hi, after)
  {
    if Holds(t.cells, k) {
      TipOf(t, 0, lo, hi, after);
      hide Good, CellsSize, CellIndex;
      var cells := t.cells;
      RemoveSize(cells, k);
      RemoveGoodCells(cells, k, lo, hi);
      hide RemoveSorted, GoodCells;
      GoodTip(t.page, RemoveSorted(cells, k), after, lo, hi);
      TipOf(Tip(t.page, RemoveSorted(cells, k), after), 0, lo, hi, after);
    }
  }

  /** Deletion keeps the invariant: order, bounds, page fit, equal height and the leaf
      chain, through borrows, merges and cascades of them. */
  lemma {:induction false} DeleteGood(t: Tree, k: int, h: nat, lo: int, hi: int, after: Option<nat>)
    requires Shaped(t) && Good(t, h, lo, hi, after) && lo <= k < hi
    ensures RemovalGood(DeleteAt(t, k), t, h, lo, hi, after)
    decreases h
  {
    if t.Tip? {
      DeleteTipGood(t, k, lo, hi, after);
    } else {
      var i := ChildIndex(t.keys, k);
      ForkKid(t, k, h, lo, hi, after);
      assert GoodForest(t.keys, t.kids, h - 1, lo, hi, after) && t.page < NO_PAGE && |t.keys| <= MAX_KEYS;
      hide *;
      DeleteGood(t.kids[i], k, h - 1, Lo(t.keys, i, lo), Hi(t.keys, i, hi), After(t.kids, i, after));
      RepairGood(t.page, t.keys, t.kids, i, DeleteAt(t.kids[i], k), h - 1, lo, hi, after);
    }
  }

  // ---- the pages ---------------------------------------------------------------

  lemma BorrowFromLeftUses(left: Tree, child: Tree, sep: int, p: nat)
    requires Peers(left, child) && CanLend(left)
    ensures var (l, s, c) := BorrowFromLeft(left, child, sep);
      Uses(l, p) + Uses(c, p) == Uses(left, p) + Uses(child, p)
  {
    if left.Fork? {
      hide UsesAll;
      var n := |left.keys|;
      var last := [left.kids[n]];
      assert left.kids == left.kids[..n] + last;
      UsesConcat(left.kids[..n], last, p);
      UsesConcat(last, child.kids, p);
    }
  }

  lemma BorrowFromRightUses(child: Tree, right: Tree, sep: int, p: nat)
    requires Peers(child, right) && CanLend(right) && (right.Tip? ==> |right.cells| > 1)
    ensures var (c, s, r) := BorrowFromRight(child, right, sep);
      Uses(c, p) + Uses(r, p) == Uses(child, p) + Uses(right, p)
  {
    if right.Fork? {
      hide UsesAll;
      var first := [right.kids[0]];
      assert right.kids == first + right.kids[1..];
      UsesConcat(first, right.kids[1..], p);
      UsesConcat(child.kids, first, p);
    }
  }

  lemma MergeUses(low: Tree, high: Tree, sep: int, p: nat)
    requires Peers(low, high)
    ensures Uses(Merge(low, high, sep), p) <= Uses(low, p) + Uses(high, p)
  {
    if low.Fork? {
      UsesConcat(low.kids, high.kids, p);
    }
  }

  lemma SwapTwoUses(kids: seq<Tree>, j: nat, w: seq<Tree>, p: nat)
    requires j + 1 < |kids|
    requires UsesAll(w, p) <= Uses(kids[j], p) + Uses(kids[j + 1], p)
    ensures UsesAll(kids[..j] + w + kids[j + 2..], p) <= UsesAll(kids, p)
  {
    hide UsesAll, Uses;
    var two := [kids[j], kids[j + 1]];
    Pair(kids[j], kids[j + 1]);
    assert kids == kids[..j] + two + kids[j + 2..];
    UsesAround(kids[..j], two, kids[j + 2..], p);
    UsesAround(kids[..j], w, kids[j + 2..], p);
  }

  lemma RebalanceUses(page: nat, keys: seq<int>, kids: seq<Tree>, i: nat, p: nat)
    requires |kids| == |keys| + 1 && |kids| >= 2 && i < |kids| && Neighbours(kids, i)
    ensures !Rebalance(page, keys, kids, i).Missing?
    ensures Uses(Rebalance(page, keys, kids, i).t, p) <= Uses(Fork(page, keys, kids), p)
  {
    hide UsesAll, BorrowFromLeft, BorrowFromRight, Merge, CanSpare, Peers;
    if i > 0 && CanSpare(kids[i - 1]) {
      var (l, s, c) := BorrowFromLeft(kids[i - 1], kids[i], keys[i - 1]);
      BorrowFromLeftUses(kids[i - 1], kids[i], keys[i - 1], p);
      ReplaceTwoUses(kids, i - 1, l, c, p);
    } else if i + 1 < |kids| && CanSpare(kids[i + 1]) {
      if !(kids[i + 1].Tip? && |kids[i + 1].cells| == 1) {
        var (c, s, r) := BorrowFromRight(kids[i], kids[i + 1], keys[i]);
        BorrowFromRightUses(kids[i], kids[i + 1], keys[i], p);
        ReplaceTwoUses(kids, i, c, r, p);
      }
    } else {
      var j := if i > 0 then i - 1 else i;
      MergeTwoUses(kids, j, keys[j], p);
    }
  }

  lemma ReplaceTwoUses(kids: seq<Tree>, j: nat, a: Tree, b: Tree, p: nat)
    requires j + 1 < |kids| && Uses(a, p) + Uses(b, p) <= Uses(kids[j], p) + Uses(kids[j + 1], p)
    ensures UsesAll(kids[j := a][j + 1 := b], p) <= UsesAll(kids, p)
  {
    Pair(a, b);
    hide Uses, UsesAll;
    SwapTwoUses(kids, j, [a, b], p);
    assert kids[j := a][j + 1 := b] == kids[..j] + [a, b] + kids[j + 2..];
  }

  lemma MergeTwoUses(kids: seq<Tree>, j: nat, sep: int, p: nat)
    requires j + 1 < |kids| && Peers(kids[j], kids[j + 1])
    ensures UsesAll(kids[..j] + [Merge(kids[j], kids[j + 1], sep)] + kids[j + 2..], p) <= UsesAll(kids, p)
  {
    var m := Merge(kids[j], kids[j + 1], sep);
    MergeUses(kids[j], kids[j + 1], sep, p);
    hide Merge, Uses, UsesAll;
    Single(m);
    SwapTwoUses(kids, j, [m], p);
  }

  /** Deletion allocates nothing: it only gives pages up. */
  lemma {:induction false} DeleteUses(t: Tree, k: int, p: nat)
    requires Shaped(t)
    ensures !DeleteAt(t, k).Missing? ==> Uses(DeleteAt(t, k).t, p) <= Uses(t, p)
    decreases t
  {
    if t.Fork? {
      var i := ChildIndex(t.keys, k);
      DeleteAtFork(t, k);
      assert t.kids[i] in t.kids;
      DeleteUses(t.kids[i], k, p);
      hide DeleteAt;
      RepairUses(t.page, t.keys, t.kids, i, DeleteAt(t.kids[i], k), p);
    }
  }

  lemma RepairUses(page: nat, keys: seq<int>, kids: seq<Tree>, i: nat, r: Removal, p: nat)
    requires |kids| == |keys| + 1 && |kids| >= 2 && i < |kids|
    requires r.Removed? ==> Neighbours(kids[i := r.t], i)
    requires !r.Missing? ==> Uses(r.t, p) <= Uses(kids[i], p)
    ensures var r' := Repair(page, keys, kids, i, r);
      !r'.Missing? ==> Uses(r'.t, p) <= Uses(Fork(page, keys, kids), p)
  {
    hide UsesAll, Rebalance, Underflow, Neighbours;
    if !r.Missing? {
      var kids' := kids[i := r.t];
      assert kids' == kids[..i] + [r.t] + kids[i + 1..];
      SwapUses(kids, i, [r.t], p);
      Single(r.t);
      if r.Removed? && Underflow(r.t) {
        RebalanceUses(page, keys, kids', i, p);
      }
    }
  }
}
