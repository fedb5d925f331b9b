// Insertion as a function on trees: what BTree.insert and BTree.upsert do to
// the shape a root page stands for, and what that keeps.

module TreeInsert {
  import opened Bytes
  import opened Cells
  import opened NodeCodec
  import opened Tree

  /** The outcome of inserting below a node. Overflow is the ValueError of a page
      write: the leaf had to be split by cell count and one half is over a page. */
  datatype Step =
    | Duplicate
    | Overflow
    | Fit(t: Tree)
    | Split(left: Tree, sep: int, right: Tree)

  /** `_split_leaf` on an overfull leaf; `free` is the next page to allocate. */
  function SplitTip(page: nat, cells: seq<Cell>, next: Option<nat>, free: nat): (Step, nat) {
    var mid := |cells| / 2;
    if mid == 0 then (Overflow, free)
    else
      var right, left := Tip(free, cells[mid..], next), Tip(page, cells[..mid], Some(free));
      if NodeSize(NodeOf(right)) > PAGE_SIZE || NodeSize(NodeOf(left)) > PAGE_SIZE then (Overflow, free + 1)
      else (Split(left, cells[mid].key, right), free + 1)
  }

  /** `_split_internal` on an overfull internal node */
  function SplitFork(page: nat, keys: seq<int>, kids: seq<Tree>, free: nat): (Step, nat)
    requires |kids| == |keys| + 1 && keys != []
  {
    var mid := |keys| / 2;
    (Split(Fork(page, keys[..mid], kids[..mid + 1]), keys[mid], Fork(free, keys[mid + 1..], kids[mid + 1..])),
     free + 1)
  }

  /** The rest of `_insert` at an internal node, given the outcome at its child i. */
  function Propagate(page: nat, keys: seq<int>, kids: seq<Tree>, i: nat, step: Step, free: nat): (Step, nat)
    requires |kids| == |keys| + 1 && i < |kids|
  {
    match step
    case Duplicate => (Duplicate, free)
    case Overflow => (Overflow, free)
    case Fit(kid) => (Fit(Fork(page, keys, kids[i := kid])), free)
    case Split(l, s, r) =>
      var keys', kids' := keys[..i] + [s] + keys[i..], kids[..i] + [l, r] + kids[i + 1..];
      if NodeSize(NodeOf(Fork(page, keys', kids'))) <= PAGE_SIZE then (Fit(Fork(page, keys', kids')), free)
      else SplitFork(page, keys', kids', free)
  }

  /** `_insert` */
  function InsertAt(t: Tree, c: Cell, free: nat): (Step, nat)
    requires Shaped(t)
    decreases t
  {
    match t
    case Tip(page, cells, next) =>
      var i := CellIndex(cells, c.key);
      if Holds(cells, c.key) then (Duplicate, free)
      else
        var cells' := cells[..i] + [c] + cells[i..];
        if NodeSize(Leaf(cells', next)) <= PAGE_SIZE then (Fit(Tip(page, cells', next)), free)
        else SplitTip(page, cells', next, free)
    case Fork(page, keys, kids) =>
      var i := ChildIndex(keys, c.key);
      var (step, free') := InsertAt(kids[i], c, free);
      Propagate(page, keys, kids, i, step, free')
  }

  /** Where the separators send key k, everything left of the child is below k and
      everything right of it is above. */
  lemma Routed(keys: seq<int>, kids: seq<Tree>, h: nat, lo: int, hi: int, after: Option<nat>, k: int)
    requires GoodForest(keys, kids, h, lo, hi, after) && lo <= k < hi
    ensures var i := ChildIndex(keys, k);
      && AllBelow(ItemsAll(kids[..i]), k) && AllAbove(ItemsAll(kids[i + 1..]), k)
      && Lo(keys, i, lo) <= k < Hi(keys, i, hi)
  {
    var i := ChildIndex(keys, k);
    hide Good, ItemsAll, ChildIndex;
    LeftOfChild(keys, kids, i, h, lo, hi, after, k);
    RightOfChild(keys, kids, i, h, lo, hi, after, k);
  }

  lemma LeftOfChild(keys: seq<int>, kids: seq<Tree>, i: nat, h: nat, lo: int, hi: int, after: Option<nat>, k: int)
    requires GoodForest(keys, kids, h, lo, hi, after) && i <= |keys| && (i > 0 ==> keys[i - 1] <= k)
    ensures AllBelow(ItemsAll(kids[..i]), k)
  {
    hide Good, ItemsAll;
    if i > 0 {
      Cut(keys, kids, i - 1, h, lo, hi, after);
      ForestSorted(keys[..i - 1], kids[..i], h, lo, keys[i - 1], Some(FirstPage(kids[i])));
    } else {
      assert kids[..0] == [];
      NoItems();
    }
    hide GoodForest;
  }

  lemma RightOfChild(keys: seq<int>, kids: seq<Tree>, i: nat, h: nat, lo: int, hi: int, after: Option<nat>, k: int)
    requires GoodForest(keys, kids, h, lo, hi, after) && i <= |keys| && (i < |keys| ==> k < keys[i])
    ensures AllAbove(ItemsAll(kids[i + 1..]), k)
  {
    hide Good, ItemsAll;
    if i < |keys| {
      Cut(keys, kids, i, h, lo, hi, after);
      ForestSorted(keys[i + 1..], kids[i + 1..], h, keys[i], hi, after);
    } else {
      assert kids[i + 1..] == [];
      NoItems();
    }
    hide GoodForest;
  }

  /** The child that key k is routed to, with the bounds it is good in. */
  lemma RoutedKid(page: nat, keys: seq<int>, kids: seq<Tree>, h: nat, lo: int, hi: int, after: Option<nat>, k: int)
    requires Good(Fork(page, keys, kids), h, lo, hi, after) && lo <= k < hi
    ensures |kids| == |keys| + 1
    ensures var i := ChildIndex(keys, k);
      && Lo(keys, i, lo) <= k < Hi(keys, i, hi)
      && Good(kids[i], h - 1, Lo(keys, i, lo), Hi(keys, i, hi), After(kids, i, after))
      && Shaped(kids[i])
      && AllBelow(ItemsAll(kids[..i]), k) && AllAbove(ItemsAll(kids[i + 1..]), k)
  {
    hide ItemsAll;
    var i := ChildIndex(keys, k);
    Routed(keys, kids, h - 1, lo, hi, after, k);
    assert Good(kids[i], h - 1, Lo(keys, i, lo), Hi(keys, i, hi), After(kids, i, after));
    GoodShaped(kids[i], h - 1, Lo(keys, i, lo), Hi(keys, i, hi), After(kids, i, after));
  }

  lemma NoItems()
    ensures ItemsAll([]) == []
  {
  }

  lemma KidGood(keys: seq<int>, kids: seq<Tree>, i: nat, h: nat, lo: int, hi: int, after: Option<nat>)
    requires GoodForest(keys, kids, h, lo, hi, after) && i < |kids|
    ensures |kids| == |keys| + 1
    ensures Good(kids[i], h, Lo(keys, i, lo), Hi(keys, i, hi), After(kids, i, after))
    ensures kids[i].Tip? <==> h == 0
  {
  }

  lemma {:induction false} GoodShaped(t: Tree, h: nat, lo: int, hi: int, after: Option<nat>)
    requires Good(t, h, lo, hi, after)
    ensures Shaped(t)
    decreases h
  {
    if t.Fork? {
      var keys, kids := t.keys, t.kids;
      assert GoodForest(keys, kids, h - 1, lo, hi, after);
      forall k | k in kids
        ensures Shaped(k) && k.Tip? == kids[0].Tip?
      {
        hide *;
        var i :| 0 <= i < |kids| && kids[i] == k;
        KidGood(keys, kids, i, h - 1, lo, hi, after);
        KidGood(keys, kids, 0, h - 1, lo, hi, after);
        GoodShaped(k, h - 1, Lo(keys, i, lo), Hi(keys, i, hi), After(kids, i, after));
      }
    }
  }

  // ---- what insertion does to the contents --------------------------------

  ghost predicate StepContents(step: Step, before: seq<Cell>, c: Cell) {
    match step
    case Duplicate => Holds(before, c.key)
    case Overflow => !Holds(before, c.key)
    case Fit(t) => !Holds(before, c.key) && Items(t) == InsertSorted(before, c)
    case Split(l, _, r) => !Holds(before, c.key) && Items(l) + Items(r) == InsertSorted(before, c)
  }

  lemma PropagateContents(page: nat, keys: seq<int>, kids: seq<Tree>, i: nat, step: Step, free: nat, c: Cell)
    requires |kids| == |keys| + 1 && i < |kids|
    requires AllBelow(ItemsAll(kids[..i]), c.key) && AllAbove(ItemsAll(kids[i + 1..]), c.key)
    requires StepContents(step, Items(kids[i]), c)
    ensures StepContents(Propagate(page, keys, kids, i, step, free).0, ItemsAll(kids), c)
  {
    hide ItemsAll, InsertSorted, Holds, AllBelow, AllAbove, NodeSize;
    var pre, post := ItemsAll(kids[..i]), ItemsAll(kids[i + 1..]);
    ItemsAt(kids, i);
    InsertAround(pre, Items(kids[i]), post, c);
    match step {
      case Fit(kid) =>
        var kids' := kids[i := kid];
        ItemsAt(kids', i);
        assert kids'[..i] == kids[..i] && kids'[i + 1..] == kids[i + 1..];
      case Split(l, s, r) =>
        var kids' := kids[..i] + [l, r] + kids[i + 1..];
        ItemsAround(kids[..i], [l, r], kids[i + 1..]);
        Pair(l, r);
        var mid := (|keys| + 1) / 2;
        assert kids' == kids'[..mid + 1] + kids'[mid + 1..];
        ItemsConcat(kids'[..mid + 1], kids'[mid + 1..]);
      case _ =>
    }
  }

  /** Inserting puts the cell in its place among the tree's cells, in order, unless
      the key is there already. */
  lemma {:induction false} InsertContents(t: Tree, c: Cell, free: nat, h: nat, lo: int, hi: int, after: Option<nat>)
    requires Shaped(t) && Good(t, h, lo, hi, after) && lo <= c.key < hi
    ensures StepContents(InsertAt(t, c, free).0, Items(t), c)
    decreases h
  {
    match t
    case Tip(page, cells, next) =>
      var all := InsertSorted(cells, c);
      assert all == all[..|all| / 2] + all[|all| / 2..];
    case Fork(page, keys, kids) =>
      var i := ChildIndex(keys, c.key);
      RoutedKid(page, keys, kids, h, lo, hi, after, c.key);
      hide StepContents, Propagate, Good, GoodForest, Lo, Hi, After, ChildIndex, AllBelow, AllAbove;
      InsertContents(kids[i], c, free, h - 1, Lo(keys, i, lo), Hi(keys, i, hi), After(kids, i, after));
      var (step, free') := InsertAt(kids[i], c, free);
      PropagateContents(page, keys, kids, i, step, free', c);
  }

  // ---- what insertion does to the invariant --------------------------------

  ghost predicate StepGood(step: Step, t: Tree, h: nat, lo: int, hi: int, after: Option<nat>) {
    match step
    case Fit(t') => Good(t', h, lo, hi, after) && t'.page == t.page && FirstPage(t') == FirstPage(t)
    case Split(l, s, r) =>
      && IsI64(s) && l.page == t.page && FirstPage(l) == FirstPage(t)
      && Good(l, h, lo, s, Some(FirstPage(r))) && Good(r, h, s, hi, after)
    case _ => true
  }

  lemma FitsLeaf(cells: seq<Cell>, next: Option<nat>)
    requires forall i :: 0 <= i < |cells| ==> StorableCell(cells[i])
    requires next.Some? ==> next.value < NO_PAGE
    requires NodeSize(Leaf(cells, next)) <= PAGE_SIZE
    ensures Fits(Leaf(cells, next))
  {
    CellsSizeBounds(cells, 12, 12 + U32_LIMIT);
  }

  ghost predicate GoodCells(cells: seq<Cell>, lo: int, hi: int) {
    && Sorted(cells) && Within(cells, lo, hi)
    && forall i :: 0 <= i < |cells| ==> StorableCell(cells[i]) && |cells[i].val| <= MAX_VALUE_SIZE
  }

  lemma GoodTip(page: nat, cells: seq<Cell>, next: Option<nat>, lo: int, hi: int)
    requires page < NO_PAGE && lo <= hi && GoodCells(cells, lo, hi)
    requires next.Some? ==> next.value < NO_PAGE
    requires NodeSize(Leaf(cells, next)) <= PAGE_SIZE
    ensures Good(Tip(page, cells, next), 0, lo, hi, next)
  {
    FitsLeaf(cells, next);
  }

  /** A cell that may be inserted between lo and hi. */
  predicate Insertable(c: Cell, lo: int, hi: int) {
    lo <= c.key < hi && IsI64(c.key) && |c.val| <= MAX_VALUE_SIZE
  }

  lemma InsertGoodCells(cells: seq<Cell>, c: Cell, lo: int, hi: int)
    requires GoodCells(cells, lo, hi) && Insertable(c, lo, hi) && !Holds(cells, c.key)
    ensures GoodCells(InsertSorted(cells, c), lo, hi)
  {
  }

  lemma TipGood(page: nat, cells: seq<Cell>, next: Option<nat>, c: Cell, free: nat, lo: int, hi: int)
    requires Good(Tip(page, cells, next), 0, lo, hi, next) && Insertable(c, lo, hi) && free < NO_PAGE
    ensures StepGood(InsertAt(Tip(page, cells, next), c, free).0, Tip(page, cells, next), 0, lo, hi, next)
  {
    if !Holds(cells, c.key) {
      var all := InsertSorted(cells, c);
      InsertGoodCells(cells, c, lo, hi);
      hide CellIndex, CellsSize, Good, InsertSorted;
      if NodeSize(Leaf(all, next)) <= PAGE_SIZE {
        GoodTip(page, all, next, lo, hi);
      } else if |all| >= 2 {
        SplitTipGood(page, all, next, free, lo, hi);
      }
    }
  }

  lemma SplitTipGood(page: nat, cells: seq<Cell>, next: Option<nat>, free: nat, lo: int, hi: int)
    requires GoodCells(cells, lo, hi) && |cells| >= 2
    requires page < NO_PAGE && free < NO_PAGE && (next.Some? ==> next.value < NO_PAGE)
    ensures StepGood(SplitTip(page, cells, next, free).0, Tip(page, cells, next), 0, lo, hi, next)
  {
    var mid := |cells| / 2;
    var left, right, s := cells[..mid], cells[mid..], cells[mid].key;
    assert lo <= s < hi && IsI64(s);
    assert GoodCells(left, lo, s) && GoodCells(right, s, hi);
    if NodeSize(Leaf(right, next)) <= PAGE_SIZE && NodeSize(Leaf(left, Some(free))) <= PAGE_SIZE {
      GoodTip(free, right, next, s, hi);
      GoodTip(page, left, Some(free), lo, s);
    }
  }

  lemma PropagateGood(page: nat, keys: seq<int>, kids: seq<Tree>, i: nat, step: Step, free: nat,
                      h: nat, lo: int, hi: int, after: Option<nat>)
    requires |kids| == |keys| + 1 && i < |kids| && free < NO_PAGE
    requires Good(Fork(page, keys, kids), h + 1, lo, hi, after)
    requires StepGood(step, kids[i], h, Lo(keys, i, lo), Hi(keys, i, hi), After(kids, i, after))
    ensures StepGood(Propagate(page, keys, kids, i, step, free).0, Fork(page, keys, kids), h + 1, lo, hi, after)
  {
    assert GoodForest(keys, kids, h, lo, hi, after);
    match step {
      case Fit(kid) =>
        Replace(keys, kids, i, kid, h, lo, hi, after);
      case Split(l, s, r) =>
        ReplaceByTwo(keys, kids, i, l, s, r, h, lo, hi, after);
        var keys', kids' := keys[..i] + [s] + keys[i..], kids[..i] + [l, r] + kids[i + 1..];
        assert FirstPage(kids'[0]) == FirstPage(kids[0]);
        if |keys'| > MAX_KEYS {
          SplitForkGood(page, keys', kids', free, h, lo, hi, after);
        }
      case _ =>
    }
  }

  lemma SplitForkGood(page: nat, keys: seq<int>, kids: seq<Tree>, free: nat, h: nat, lo: int, hi: int,
                      after: Option<nat>)
    requires GoodForest(keys, kids, h, lo, hi, after)
    requires |keys| == MAX_KEYS + 1 && page < NO_PAGE && free < NO_PAGE
    ensures StepGood(SplitFork(page, keys, kids, free).0, Fork(page, keys, kids), h + 1, lo, hi, after)
  {
    var mid := |keys| / 2;
    assert IsI64(keys[mid]) && |keys[..mid]| == 170 && |keys[mid + 1..]| == 170;
    Cut(keys, kids, mid, h, lo, hi, after);
    hide GoodForest, Rising;
  }

  /** Insertion keeps the invariant, in both halves when the node splits: order,
      bounds, page fit, equal height and the leaf chain. */
  lemma {:induction false} InsertGood(t: Tree, c: Cell, free: nat, h: nat, lo: int, hi: int, after: Option<nat>)
    requires Shaped(t) && Good(t, h, lo, hi, after) && Insertable(c, lo, hi)
    requires free + h < NO_PAGE
    ensures StepGood(InsertAt(t, c, free).0, t, h, lo, hi, after)
    ensures free <= InsertAt(t, c, free).1 <= free + h + 1
    decreases h
  {
    match t
    case Tip(page, cells, next) =>
      TipGood(page, cells, next, c, free, lo, hi);
    case Fork(page, keys, kids) =>
      var i := ChildIndex(keys, c.key);
      RoutedKid(page, keys, kids, h, lo, hi, after, c.key);
      hide StepGood, Propagate, Good, GoodForest, Lo, Hi, After, ChildIndex;
      InsertGood(kids[i], c, free, h - 1, Lo(keys, i, lo), Hi(keys, i, hi), After(kids, i, after));
      var (step, free') := InsertAt(kids[i], c, free);
      PropagateGood(page, keys, kids, i, step, free', h - 1, lo, hi, after);
      PropagateFree(page, keys, kids, i, step, free');
  }

  lemma PropagateFree(page: nat, keys: seq<int>, kids: seq<Tree>, i: nat, step: Step, free: nat)
    requires |kids| == |keys| + 1 && i < |kids|
    ensures free <= Propagate(page, keys, kids, i, step, free).1 <= free + 1
  {
  }

  // ---- what insertion does to the pages ------------------------------------

  /** One use of every page that was allocated. */
  function Allocated(free: nat, free': nat, p: nat): nat {
    if free <= p < free' then 1 else 0
  }

  ghost predicate StepUses(step: Step, before: nat, free: nat, free': nat, p: nat) {
    match step
    case Fit(t) => Uses(t, p) == before + Allocated(free, free', p)
    case Split(l, _, r) => Uses(l, p) + Uses(r, p) == before + Allocated(free, free', p)
    case _ => true
  }

  /** Replacing child i by the run w changes the uses by the difference of the two. */
  lemma SwapUses(kids: seq<Tree>, i: nat, w: seq<Tree>, p: nat)
    requires i < |kids|
    ensures UsesAll(kids[..i] + w + kids[i + 1..], p) + Uses(kids[i], p) == UsesAll(kids, p) + UsesAll(w, p)
  {
    UsesAt(kids, i, p);
    UsesAround(kids[..i], w, kids[i + 1..], p);
  }

  lemma PropagateUses(page: nat, keys: seq<int>, kids: seq<Tree>, i: nat, step: Step, free: nat, free': nat, p: nat)
    requires |kids| == |keys| + 1 && i < |kids| && free <= free'
    requires StepUses(step, Uses(kids[i], p), free, free', p)
    ensures var (step', free'') := Propagate(page, keys, kids, i, step, free');
      StepUses(step', Uses(Fork(page, keys, kids), p), free, free'', p)
  {
    hide UsesAll, NodeSize;
    match step {
      case Fit(kid) =>
        assert kids[i := kid] == kids[..i] + [kid] + kids[i + 1..];
        SwapUses(kids, i, [kid], p);
        Single(kid);
      case Split(l, s, r) =>
        var keys', kids' := keys[..i] + [s] + keys[i..], kids[..i] + [l, r] + kids[i + 1..];
        SwapUses(kids, i, [l, r], p);
        Pair(l, r);
        SplitForkUses(page, keys', kids', free', p);
      case _ =>
    }
  }

  lemma SplitForkUses(page: nat, keys: seq<int>, kids: seq<Tree>, free: nat, p: nat)
    requires |kids| == |keys| + 1 && keys != []
    ensures var (step, _) := SplitFork(page, keys, kids, free);
      Uses(step.left, p) + Uses(step.right, p) == Uses(Fork(page, keys, kids), p) + Allocated(free, free + 1, p)
  {
    hide UsesAll;
    var mid := |keys| / 2;
    assert kids == kids[..mid + 1] + kids[mid + 1..];
    UsesConcat(kids[..mid + 1], kids[mid + 1..], p);
  }

  /** The pages after an insert are the pages before plus those it allocated. */
  lemma {:induction false} InsertUses(t: Tree, c: Cell, free: nat, p: nat)
    requires Shaped(t)
    ensures free <= InsertAt(t, c, free).1
    ensures StepUses(InsertAt(t, c, free).0, Uses(t, p), free, InsertAt(t, c, free).1, p)
    decreases t
  {
    match t
    case Tip(page, cells, next) =>
    case Fork(page, keys, kids) =>
      var i := ChildIndex(keys, c.key);
      hide StepUses, Propagate;
      assert kids[i] in kids;
      InsertUses(kids[i], c, free, p);
      var (step, free') := InsertAt(kids[i], c, free);
      PropagateUses(page, keys, kids, i, step, free, free', p);
      PropagateFree(page, keys, kids, i, step, free');
  }

  // ---- whole trees ---------------------------------------------------------

  datatype Result<+T, +E> = Ok(value: T) | Err(error: E)

  datatype Error = DuplicateKey | ValueTooLarge | KeyOutOfRange | PageOverflow

  /** `BTree.insert`: the new tree or the exception, and the next page to allocate. */
  function Insert(t: Tree, c: Cell, free: nat): (Result<Tree, Error>, nat)
    requires Shaped(t)
  {
    if |c.val| > MAX_VALUE_SIZE then (Err(ValueTooLarge), free)
    else if !IsI64(c.key) then (Err(KeyOutOfRange), free)
    else
      var (step, free') := InsertAt(t, c, free);
      match step
      case Duplicate => (Err(DuplicateKey), free')
      case Overflow => (Err(PageOverflow), free')
      case Fit(t') => (Ok(t'), free')
      case Split(l, s, r) => (Ok(Fork(free', [s], [l, r])), free' + 1)
  }
}
