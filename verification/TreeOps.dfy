// The operations on whole trees, and the table they implement.

module TreeOps {
  import opened Bytes
  import opened Cells
  import opened NodeCodec
  import opened Tree
  import opened TreeInsert
  import opened TreeDelete

  // ---- search ----------------------------------------------------------------

  /** `search` */
  function Search(t: Tree, k: int): Option<seq<Byte>>
    requires Shaped(t)
    decreases t
  {
    match t
    case Tip(_, cells, _) => if Holds(cells, k) then Some(cells[CellIndex(cells, k)].val) else None
    case Fork(_, keys, kids) => Search(kids[ChildIndex(keys, k)], k)
  }

  function Find(s: seq<Cell>, k: int): Option<seq<Byte>> {
    if Holds(s, k) then Some(s[CellIndex(s, k)].val) else None
  }

  lemma FindAround(pre: seq<Cell>, mid: seq<Cell>, post: seq<Cell>, k: int)
    requires AllBelow(pre, k) && AllAbove(post, k)
    ensures Find(pre + mid + post, k) == Find(mid, k)
  {
    hide CellIndex;
    IndexAround(pre, mid, post, k);
  }

  lemma {:induction false} SearchContents(t: Tree, k: int, h: nat, lo: int, hi: int, after: Option<nat>)
    requires Shaped(t) && Good(t, h, lo, hi, after) && lo <= k < hi
    ensures Search(t, k) == Find(Items(t), k)
    decreases h
  {
    if t.Fork? {
      var i := ChildIndex(t.keys, k);
      ForkKid(t, k, h, lo, hi, after);
      assert Search(t, k) == Search(t.kids[i], k);
      hide *;
      SearchContents(t.kids[i], k, h - 1, Lo(t.keys, i, lo), Hi(t.keys, i, hi), After(t.kids, i, after));
      ItemsAt(t.kids, i);
      FindAround(ItemsAll(t.kids[..i]), Items(t.kids[i]), ItemsAll(t.kids[i + 1..]), k);
    }
  }

  /** A search never invents a cell, whatever the key. */
  lemma {:induction false} SearchSound(t: Tree, k: int)
    requires Shaped(t)
    ensures Search(t, k).Some? ==> exists c :: c in Items(t) && c.key == k
    decreases t
  {
    match t
    case Tip(_, cells, _) =>
      assert Holds(cells, k) ==> cells[CellIndex(cells, k)] in cells;
    case Fork(_, keys, kids) =>
      var i := ChildIndex(keys, k);
      assert kids[i] in kids;
      SearchSound(kids[i], k);
      ItemsAt(kids, i);
  }

  /** `search` is a lookup in the table, for every key. */
  lemma SearchWhole(t: Tree, free: nat, k: int)
    requires Whole(t, free)
    ensures Shaped(t)
    ensures var m := AsMap(Items(t));
      Search(t, k) == if k in m then Some(m[k]) else None
  {
    var h := Height(t);
    GoodShaped(t, h, I64_MIN, I64_LIMIT, None);
    ItemsSorted(t, h, I64_MIN, I64_LIMIT, None);
    Lookup(Items(t), k);
    if IsI64(k) {
      SearchContents(t, k, h, I64_MIN, I64_LIMIT, None);
    } else {
      SearchSound(t, k);
    }
  }

  // ---- insert ----------------------------------------------------------------

  /** The tree's table. */
  function TableOf(t: Tree): Table {
    AsMap(Items(t))
  }

  /** How many pages an insert may allocate: one a level, and a new root. */
  ghost predicate Room(t: Tree, free: nat) {
    free + Height(t) + 2 <= NO_PAGE
  }

  lemma PageBelow(t: Tree, free: nat)
    requires Apart(t, free)
    ensures t.page < free && FirstPage(t) < free
  {
    assert Uses(t, t.page) > 0;
    FirstPageUsed(t);
  }

  /** `insert` adds one entry to the table, or leaves the tree as it was: when the key
      is taken, out of range, the value too large, or a split by cell count leaves a
      half that no page can hold. */
  lemma InsertWhole(t: Tree, free: nat, c: Cell)
    requires Whole(t, free) && Room(t, free)
    ensures Shaped(t)
    ensures var (r, free') := Insert(t, c, free);
      && free <= free' <= free + Height(t) + 2
      && match r
         case Ok(t') => Whole(t', free') && c.key !in TableOf(t) && TableOf(t') == TableOf(t)[c.key := c.val]
         case Err(ValueTooLarge) => |c.val| > MAX_VALUE_SIZE
         case Err(KeyOutOfRange) => !IsI64(c.key)
         case Err(DuplicateKey) => c.key in TableOf(t)
         case Err(PageOverflow) => c.key !in TableOf(t)
  {
    GoodShaped(t, Height(t), I64_MIN, I64_LIMIT, None);
    if |c.val| <= MAX_VALUE_SIZE && IsI64(c.key) {
      InsertFacts(t, free, c);
      hide *;
      InsertWholeStep(t, free, c);
    }
  }

  lemma InsertFacts(t: Tree, free: nat, c: Cell)
    requires Whole(t, free) && Room(t, free) && |c.val| <= MAX_VALUE_SIZE && IsI64(c.key)
    ensures Shaped(t)
    ensures Sorted(Items(t)) && (c.key in TableOf(t) <==> Holds(Items(t), c.key))
    ensures var (step, free') := InsertAt(t, c, free);
      && free <= free' <= free + Height(t) + 1
      && StepContents(step, Items(t), c)
      && StepGood(step, t, Height(t), I64_MIN, I64_LIMIT, None)
  {
    var h := Height(t);
    GoodShaped(t, h, I64_MIN, I64_LIMIT, None);
    ItemsSorted(t, h, I64_MIN, I64_LIMIT, None);
    hide Good, InsertAt, StepContents, StepGood;
    InsertContents(t, c, free, h, I64_MIN, I64_LIMIT, None);
    InsertGood(t, c, free, h, I64_MIN, I64_LIMIT, None);
    Lookup(Items(t), c.key);
  }

  lemma InsertWholeStep(t: Tree, free: nat, c: Cell)
    requires Whole(t, free) && Room(t, free) && |c.val| <= MAX_VALUE_SIZE && IsI64(c.key) && Shaped(t)
    ensures var (r, free') := Insert(t, c, free);
      && free <= free' <= free + Height(t) + 2
      && match r
         case Ok(t') => Whole(t', free') && c.key !in TableOf(t) && TableOf(t') == TableOf(t)[c.key := c.val]
         case Err(DuplicateKey) => c.key in TableOf(t)
         case Err(PageOverflow) => c.key !in TableOf(t)
         case Err(_) => false
  {
    hide InsertAt, Whole, StepGood, InsertSorted, Holds, TableOf, Items, Shaped, Sorted;
    InsertFacts(t, free, c);
    var (step, free') := InsertAt(t, c, free);
    match step {
      case Fit(t') => FitWhole(t, free, c);
      case Split(l, s, r) => NewRoot(t, c, free);
      case _ =>
    }
  }

  lemma FitWhole(t: Tree, free: nat, c: Cell)
    requires Whole(t, free) && Shaped(t) && Sorted(Items(t)) && InsertAt(t, c, free).0.Fit?
    requires StepGood(InsertAt(t, c, free).0, t, Height(t), I64_MIN, I64_LIMIT, None)
    requires StepContents(InsertAt(t, c, free).0, Items(t), c)
    ensures var (step, free') := InsertAt(t, c, free);
      Whole(step.t, free') && TableOf(step.t) == TableOf(t)[c.key := c.val]
  {
    var (step, free') := InsertAt(t, c, free);
    StepApart(t, c, free);
    InsertMap(Items(t), c);
    hide InsertAt, Good, Apart, InsertSorted, Holds, Items, AsMap;
    GoodHeight(step.t, Height(t), I64_MIN, I64_LIMIT, None);
  }

  lemma StepApart(t: Tree, c: Cell, free: nat)
    requires Shaped(t) && Apart(t, free)
    ensures var (step, free') := InsertAt(t, c, free);
      step.Fit? ==> Apart(step.t, free')
  {
    var (step, free') := InsertAt(t, c, free);
    if step.Fit? {
      forall p: nat
        ensures Uses(step.t, p) <= (if p < free' then 1 else 0)
      {
        InsertUses(t, c, free, p);
      }
    }
  }

  lemma NewRootApart(t: Tree, c: Cell, free: nat)
    requires Shaped(t) && Apart(t, free) && InsertAt(t, c, free).0.Split?
    ensures var (step, free') := InsertAt(t, c, free);
      Apart(Fork(free', [step.sep], [step.left, step.right]), free' + 1)
  {
    var (step, free') := InsertAt(t, c, free);
    var root := Fork(free', [step.sep], [step.left, step.right]);
    Pair(step.left, step.right);
    forall p: nat
      ensures Uses(root, p) <= (if p < free' + 1 then 1 else 0)
    {
      InsertUses(t, c, free, p);
      hide UsesAll, InsertAt;
    }
  }

  /** The root split: a new root above the two halves. */
  lemma NewRoot(t: Tree, c: Cell, free: nat)
    requires Whole(t, free) && Shaped(t) && Sorted(Items(t)) && InsertAt(t, c, free).0.Split?
    requires InsertAt(t, c, free).1 < NO_PAGE
    requires StepGood(InsertAt(t, c, free).0, t, Height(t), I64_MIN, I64_LIMIT, None)
    requires StepContents(InsertAt(t, c, free).0, Items(t), c)
    ensures var (step, free') := InsertAt(t, c, free);
      var root := Fork(free', [step.sep], [step.left, step.right]);
      Whole(root, free' + 1) && TableOf(root) == TableOf(t)[c.key := c.val]
  {
    hide Apart, InsertAt, Items, ItemsAll, Good, InsertSorted, Holds, AsMap, Sorted, Shaped, Uses, UsesAll, Height;
    var (step, free') := InsertAt(t, c, free);
    var l, s, r := step.left, step.sep, step.right;
    Pair(l, r);
    NewRootApart(t, c, free);
    InsertMap(Items(t), c);
    TwoKids(free', l, s, r, Height(t), I64_MIN, I64_LIMIT, None);
    ItemsOfFork(free', [s], [l, r]);
  }

  lemma ItemsOfFork(page: nat, keys: seq<int>, kids: seq<Tree>)
    ensures Items(Fork(page, keys, kids)) == ItemsAll(kids)
  {
  }

  lemma TwoKids(page: nat, l: Tree, s: int, r: Tree, h: nat, lo: int, hi: int, after: Option<nat>)
    requires page < NO_PAGE && IsI64(s)
    requires Good(l, h, lo, s, Some(FirstPage(r))) && Good(r, h, s, hi, after)
    ensures Good(Fork(page, [s], [l, r]), h + 1, lo, hi, after)
    ensures Height(Fork(page, [s], [l, r])) == h + 1
  {
    GoodBounds(l, h, lo, s, Some(FirstPage(r)));
    GoodBounds(r, h, s, hi, after);
    GoodHeight(l, h, lo, s, Some(FirstPage(r)));
    hide Good;
    assert GoodForest([s], [l, r], h, lo, hi, after);
    GoodFork(page, [s], [l, r], h, lo, hi, after);
  }

  // ---- upsert ----------------------------------------------------------------

  /** The overwriting half of `upsert`; None is the ValueError of the page write. */
  function Overwrite(t: Tree, c: Cell): Option<Tree>
    requires Shaped(t)
    decreases t
  {
    match t
    case Tip(page, cells, next) =>
      if !Holds(cells, c.key) then None
      else
        var cells' := OverwriteSorted(cells, c);
        if NodeSize(Leaf(cells', next)) <= PAGE_SIZE then Some(Tip(page, cells', next)) else None
    case Fork(page, keys, kids) =>
      var i := ChildIndex(keys, c.key);
      match Overwrite(kids[i], c)
      case None => None
      case Some(kid) => Some(Fork(page, keys, kids[i := kid]))
  }

  /** `upsert` */
  function Upsert(t: Tree, c: Cell, free: nat): (Result<Tree, Error>, nat)
    requires Shaped(t)
  {
    var (r, free') := Insert(t, c, free);
    if r != Err(DuplicateKey) then (r, free')
    else
      match Overwrite(t, c)
      case None => (Err(PageOverflow), free')
      case Some(t') => (Ok(t'), free')
  }

  ghost predicate Overwritten(r: Option<Tree>, t: Tree, c: Cell, h: nat, lo: int, hi: int, after: Option<nat>) {
    r.Some? ==>
      && Good(r.value, h, lo, hi, after) && FirstPage(r.value) == FirstPage(t) && r.value.page == t.page
      && Holds(Items(t), c.key) && Items(r.value) == OverwriteSorted(Items(t), c)
  }

  lemma OverwriteTip(t: Tree, c: Cell, lo: int, hi: int, after: Option<nat>)
    requires t.Tip? && Good(t, 0, lo, hi, after) && Insertable(c, lo, hi)
    ensures Overwritten(Overwrite(t, c), t, c, 0, lo, hi, after)
  {
    if Overwrite(t, c).Some? {
      TipOf(t, 0, lo, hi, after);
      assert GoodCells(OverwriteSorted(t.cells, c), lo, hi);
      hide Good;
      GoodTip(t.page, OverwriteSorted(t.cells, c), after, lo, hi);
    }
  }

  lemma OverwriteFork(t: Tree, i: nat, r: Option<Tree>, c: Cell, h: nat, lo: int, hi: int, after: Option<nat>)
    requires t.Fork? && Good(t, h, lo, hi, after) && i < |t.kids| == |t.keys| + 1 && h > 0
    requires AllBelow(ItemsAll(t.kids[..i]), c.key) && AllAbove(ItemsAll(t.kids[i + 1..]), c.key)
    requires Overwritten(r, t.kids[i], c, h - 1, Lo(t.keys, i, lo), Hi(t.keys, i, hi), After(t.kids, i, after))
    requires r.Some?
    ensures Overwritten(Some(Fork(t.page, t.keys, t.kids[i := r.value])), t, c, h, lo, hi, after)
  {
    var kids, kid := t.kids, r.value;
    var kids' := kids[i := kid];
    assert GoodForest(t.keys, kids, h - 1, lo, hi, after);
    hide Good, GoodForest, ItemsAll, Holds, OverwriteSorted, AllBelow, AllAbove;
    Replace(t.keys, kids, i, kid, h - 1, lo, hi, after);
    GoodFork(t.page, t.keys, kids', h - 1, lo, hi, after);
    ItemsAt(kids, i);
    ItemsAt(kids', i);
    assert kids'[..i] == kids[..i] && kids'[i + 1..] == kids[i + 1..];
    OverwriteAround(ItemsAll(kids[..i]), Items(kids[i]), ItemsAll(kids[i + 1..]), c);
  }

  lemma {:induction false} OverwriteGood(t: Tree, c: Cell, h: nat, lo: int, hi: int, after: Option<nat>)
    requires Shaped(t) && Good(t, h, lo, hi, after) && Insertable(c, lo, hi)
    ensures Overwritten(Overwrite(t, c), t, c, h, lo, hi, after)
    decreases h
  {
    if t.Tip? {
      OverwriteTip(t, c, lo, hi, after);
    } else {
      var i := ChildIndex(t.keys, c.key);
      ForkKid(t, c.key, h, lo, hi, after);
      hide Good, GoodForest, ItemsAll, Holds, OverwriteSorted, AllBelow, AllAbove, DeleteAt, Peers, Neighbours, Shaped;
      OverwriteGood(t.kids[i], c, h - 1, Lo(t.keys, i, lo), Hi(t.keys, i, hi), After(t.kids, i, after));
      var r := Overwrite(t.kids[i], c);
      if r.Some? {
        hide Lo, Hi, After;
        OverwriteFork(t, i, r, c, h, lo, hi, after);
      }
    }
  }

  lemma {:induction false} OverwriteUses(t: Tree, c: Cell, p: nat)
    requires Shaped(t)
    ensures Overwrite(t, c).Some? ==> Uses(Overwrite(t, c).value, p) == Uses(t, p)
    decreases t
  {
    if t.Fork? {
      var i := ChildIndex(t.keys, c.key);
      assert t.kids[i] in t.kids;
      OverwriteUses(t.kids[i], c, p);
      var r := Overwrite(t.kids[i], c);
      if r.Some? {
        hide Uses, UsesAll;
        assert t.kids[i := r.value] == t.kids[..i] + [r.value] + t.kids[i + 1..];
        SwapUses(t.kids, i, [r.value], p);
        Single(r.value);
      }
    }
  }

  /** `upsert` sets one entry of the table. It fails only on a bad argument or when the
      bytes do not fit: on insertion as above, on replacement when the leaf would
      exceed its page, since that path never splits; TreeBounds.UpsertSucceedsIff says
      exactly when. */
  lemma UpsertWhole(t: Tree, free: nat, c: Cell)
    requires Whole(t, free) && Room(t, free)
    ensures Shaped(t)
    ensures var (r, free') := Upsert(t, c, free);
      && free <= free' <= free + Height(t) + 2
      && match r
         case Ok(t') => Whole(t', free') && TableOf(t') == TableOf(t)[c.key := c.val]
         case Err(ValueTooLarge) => |c.val| > MAX_VALUE_SIZE
         case Err(KeyOutOfRange) => !IsI64(c.key)
         case Err(DuplicateKey) => false
         case Err(PageOverflow) => |c.val| <= MAX_VALUE_SIZE && IsI64(c.key)
  {
    InsertWhole(t, free, c);
    var (r, free') := Insert(t, c, free);
    if r == Err(DuplicateKey) && Overwrite(t, c).Some? {
      OverwriteWhole(t, free, c);
      ApartMore(Overwrite(t, c).value, free, free');
    }
    hide Good, Apart, TableOf, Overwrite;
  }

  lemma ApartMore(t: Tree, free: nat, free': nat)
    requires Apart(t, free) && free <= free'
    ensures Apart(t, free')
  {
  }

  lemma OverwriteWhole(t: Tree, free: nat, c: Cell)
    requires Whole(t, free) && Shaped(t) && Overwrite(t, c).Some?
    requires IsI64(c.key) && |c.val| <= MAX_VALUE_SIZE
    ensures Whole(Overwrite(t, c).value, free)
    ensures TableOf(Overwrite(t, c).value) == TableOf(t)[c.key := c.val]
  {
    var h, t' := Height(t), Overwrite(t, c).value;
    forall p: nat
      ensures Uses(t', p) == Uses(t, p)
    {
      OverwriteUses(t, c, p);
    }
    ItemsSorted(t, h, I64_MIN, I64_LIMIT, None);
    OverwriteGood(t, c, h, I64_MIN, I64_LIMIT, None);
    hide Good, Uses, Overwrite, Items, AsMap, OverwriteSorted;
    GoodHeight(t', h, I64_MIN, I64_LIMIT, None);
    OverwriteMap(Items(t), c);
  }

  // ---- delete ----------------------------------------------------------------

  /** `delete`: the new tree and whether the key was found, or the tree an IndexError
      leaves behind. */
  datatype DeleteResult = NotFound | Deleted(t: Tree) | IndexError(t: Tree)

  function Delete(t: Tree, k: int): DeleteResult
    requires Shaped(t)
  {
    match DeleteAt(t, k)
    case Missing => NotFound
    case Broken(t') => IndexError(t')
    case Removed(t') => Deleted(Collapse(t'))
  }

  lemma CollapseOne(t: Tree, h: nat, lo: int, hi: int, after: Option<nat>)
    requires GoodTop(t, h, lo, hi, after)
    ensures Good(Collapse(t), Height(Collapse(t)), lo, hi, after)
    ensures Items(Collapse(t)) == Items(t)
    ensures forall p: nat :: Uses(Collapse(t), p) <= Uses(t, p)
  {
    GoodHeight(t, h, lo, hi, after);
    if t.Fork? && t.keys == [] {
      var kid := t.kids[0];
      assert t.kids == [kid];
      Single(kid);
      assert Good(kid, h - 1, Lo(t.keys, 0, lo), Hi(t.keys, 0, hi), After(t.kids, 0, after));
      GoodHeight(kid, h - 1, lo, hi, after);
      assert Collapse(t) == Collapse(kid) == kid;
    }
  }

  /** A key below or above everything is never found. */
  lemma {:induction false} DeleteSound(t: Tree, k: int)
    requires Shaped(t)
    ensures !DeleteAt(t, k).Missing? ==> exists c :: c in Items(t) && c.key == k
    decreases t
  {
    match t
    case Tip(_, cells, _) =>
      assert Holds(cells, k) ==> cells[CellIndex(cells, k)] in cells;
    case Fork(_, keys, kids) =>
      var i := ChildIndex(keys, k);
      assert kids[i] in kids;
      DeleteSound(kids[i], k);
      hide Rebalance, Underflow;
      ItemsAt(kids, i);
  }

  lemma DeleteFacts(t: Tree, free: nat, k: int)
    requires Whole(t, free)
    ensures Shaped(t)
    ensures Sorted(Items(t)) && (k in TableOf(t) <==> Holds(Items(t), k))
    ensures RemovalContents(DeleteAt(t, k), Items(t), k)
    ensures RemovalGood(DeleteAt(t, k), t, Height(t), I64_MIN, I64_LIMIT, None)
  {
    var h := Height(t);
    GoodShaped(t, h, I64_MIN, I64_LIMIT, None);
    ItemsSorted(t, h, I64_MIN, I64_LIMIT, None);
    Lookup(Items(t), k);
    hide Good, DeleteAt, RemovalGood, GoodTop;
    if IsI64(k) {
      DeleteContents(t, k, h, I64_MIN, I64_LIMIT, None);
      DeleteGood(t, k, h, I64_MIN, I64_LIMIT, None);
    } else {
      DeleteSound(t, k);
      assert DeleteAt(t, k).Missing?;
      MissingGood(t, h, I64_MIN, I64_LIMIT, None);
    }
  }

  lemma MissingGood(t: Tree, h: nat, lo: int, hi: int, after: Option<nat>)
    ensures RemovalGood(Missing, t, h, lo, hi, after)
  {
  }

  /** `delete` reports found exactly when the key is in the table, and takes that entry
      out. If it fails with an IndexError, the tree it leaves is still whole and the
      entry is gone. */
  lemma DeleteWhole(t: Tree, free: nat, k: int)
    requires Whole(t, free)
    ensures Shaped(t)
    ensures match Delete(t, k)
      case NotFound => k !in TableOf(t)
      case Deleted(t') => k in TableOf(t) && Whole(t', free) && TableOf(t') == TableOf(t) - {k}
      case IndexError(t') => k in TableOf(t) && Whole(t', free) && TableOf(t') == TableOf(t) - {k}
  {
    DeleteFacts(t, free, k);
    var r := DeleteAt(t, k);
    if !r.Missing? {
      RemoveMap(Items(t), k);
      DeleteApart(t, k, free);
      hide Good, GoodTop, DeleteAt, AsMap, Items, RemoveSorted, Holds, Collapse, Uses;
      if r.Removed? {
        CollapseOne(r.t, Height(t), I64_MIN, I64_LIMIT, None);
      } else {
        GoodHeight(r.t, Height(t), I64_MIN, I64_LIMIT, None);
      }
    }
  }

  lemma DeleteApart(t: Tree, k: int, free: nat)
    requires Shaped(t) && Apart(t, free) && !DeleteAt(t, k).Missing?
    ensures Apart(DeleteAt(t, k).t, free)
  {
    forall p: nat
      ensures Uses(DeleteAt(t, k).t, p) <= Uses(t, p)
    {
      DeleteUses(t, k, p);
    }
  }
}
