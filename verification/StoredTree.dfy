// Trees kept in pages: when a page store holds a tree, and what writes of single
// nodes (leafdb/btree.py) do to the tree it holds.

module StoredTree {
  import opened Bytes
  import opened Cells
  import opened Disk
  import opened NodeCodec
  import opened Pager
  import opened Tree
  import opened TreeInsert
  import opened TreeDelete
  import TreeOps
  import TreeBounds
  import opened TreeScan

  // ---- trees in pages -----------------------------------------------------------

  /** Page n holds the encoding of a node. */
  ghost predicate InPage(s: Store, n: nat, node: Node) {
    Fits(node) && s.At(n) == PageOf(node)
  }

  /** The tree is what the pages hold: every node is encoded in its page. */
  ghost predicate Stored(s: Store, t: Tree)
    decreases t
  {
    InPage(s, t.page, NodeOf(t)) && (t.Fork? ==> forall k :: k in t.kids ==> Stored(s, k))
  }

  ghost predicate Same(s: Store, s': Store) {
    forall m: nat :: s'.At(m) == s.At(m)
  }

  /** Of the first `limit` pages, only page n may have changed. */
  ghost predicate SameBut(s: Store, s': Store, n: nat, limit: nat) {
    forall m: nat :: m < limit && m != n ==> s'.At(m) == s.At(m)
  }

  /** Of the first `limit` pages, only pages of t may have changed. */
  ghost predicate SameOutside(s: Store, s': Store, t: Tree, limit: nat) {
    forall m: nat :: m < limit && Uses(t, m) == 0 ==> s'.At(m) == s.At(m)
  }

  ghost predicate SameBelow(s: Store, s': Store, limit: nat) {
    forall m: nat :: m < limit ==> s'.At(m) == s.At(m)
  }

  /** Only the tree's own pages matter. */
  lemma {:induction false} StoredFrame(s: Store, s': Store, t: Tree)
    requires Stored(s, t)
    requires forall n: nat :: Uses(t, n) > 0 ==> s'.At(n) == s.At(n)
    ensures Stored(s', t)
    decreases t
  {
    assert Uses(t, t.page) > 0;
    if t.Fork? {
      forall k | k in t.kids
        ensures Stored(s', k)
      {
        var i :| 0 <= i < |t.kids| && t.kids[i] == k;
        forall n: nat | Uses(k, n) > 0
          ensures s'.At(n) == s.At(n)
        {
          UsesAt(t.kids, i, n);
        }
        hide ImgOf, PageOf, Fits;
        StoredFrame(s, s', k);
      }
    }
  }

  lemma StoredSame(s: Store, s': Store, t: Tree)
    requires Stored(s, t) && Same(s, s')
    ensures Stored(s', t)
  {
    hide Stored, ImgOf;
    StoredFrame(s, s', t);
  }

  /** When a node's own page is in place and its children's pages are untouched, it is
      stored. */
  lemma StoredFork(s: Store, s': Store, t: Tree, limit: nat, n: nat)
    requires t.Fork? && InPage(s', t.page, NodeOf(t)) && SameBut(s, s', n, limit)
    requires forall k :: k in t.kids ==> Stored(s, k) && Apart(k, limit) && Uses(k, n) == 0
    ensures Stored(s', t)
  {
    hide ImgOf, InPage;
    forall k | k in t.kids
      ensures Stored(s', k)
    {
      StoredFrame(s, s', k);
    }
  }

  lemma KidApart(t: Tree, i: nat, limit: nat)
    requires t.Fork? && i < |t.kids| && Apart(t, limit)
    ensures Apart(t.kids[i], limit) && t.kids[i].page < limit && t.page < limit
    ensures Uses(t.kids[i], t.page) == 0
  {
    forall p: nat
      ensures Uses(t.kids[i], p) <= Uses(t, p)
    {
      UsesAt(t.kids, i, p);
    }
    assert Uses(t.kids[i], t.kids[i].page) > 0;
    UsesAt(t.kids, i, t.page);
  }

  // ---- outcomes -------------------------------------------------------------------

  /** What _insert reports to the node above. */
  datatype Outcome =
    | IsDuplicate
    | IsOverflow
    | Done
    | SplitOff(sep: int, right: nat)

  /** A reported outcome, and the pages, agree with the outcome on trees. */
  ghost predicate Reported(r: Outcome, step: Step, s: Store) {
    match step
    case Duplicate => r == IsDuplicate
    case Overflow => r == IsOverflow
    case Fit(t) => r == Done && Stored(s, t)
    case Split(left, sep, right) => r == SplitOff(sep, right.page) && Stored(s, left) && Stored(s, right)
  }

  /** The part of Propagate that takes in a split, on the forest that results. */
  function Absorbed(page: nat, keys: seq<int>, ts: seq<Tree>, free: nat): (Step, nat)
    requires |ts| == |keys| + 1 && keys != []
  {
    if NodeSize(NodeOf(Fork(page, keys, ts))) <= PAGE_SIZE then (Fit(Fork(page, keys, ts)), free)
    else SplitFork(page, keys, ts, free)
  }

  // ---- steps of the insert proof ----------------------------------------------------

  /** A good node fits its page. */
  lemma ForestStorable(keys: seq<int>, kids: seq<Tree>, h: nat, lo: int, hi: int, after: Option<nat>)
    requires GoodForest(keys, kids, h, lo, hi, after) && |keys| <= MAX_KEYS + 1
    ensures Storable(Internal(keys, PagesOf(kids)))
  {
    forall i | 0 <= i < |kids|
      ensures IsU32(PagesOf(kids)[i])
    {
      assert Good(kids[i], h, Lo(keys, i, lo), Hi(keys, i, hi), After(kids, i, after));
    }
    hide Good;
  }

  /** The child an insert goes to, before the recursive call. */
  lemma DescendInsert(s: Store, t: Tree, c: Cell, h: nat, lo: int, hi: int, after: Option<nat>, limit: nat)
    requires t.Fork? && Shaped(t) && Apart(t, limit) && Stored(s, t)
    requires Good(t, h, lo, hi, after) && Insertable(c, lo, hi)
    ensures h > 0 && |t.kids| == |t.keys| + 1
    ensures var i := ChildIndex(t.keys, c.key); var kid := t.kids[i];
      && Shaped(kid) && Apart(kid, limit) && Stored(s, kid) && kid.page < limit && t.page < limit
      && Uses(kid, t.page) == 0
      && Good(kid, h - 1, Lo(t.keys, i, lo), Hi(t.keys, i, hi), After(t.kids, i, after))
      && Insertable(c, Lo(t.keys, i, lo), Hi(t.keys, i, hi))
  {
    var i := ChildIndex(t.keys, c.key);
    RoutedKid(t.page, t.keys, t.kids, h, lo, hi, after, c.key);
    assert t.kids[i] in t.kids;
    hide Good, ImgOf, InPage;
    KidApart(t, i, limit);
  }

  /** The siblings of child i, after something has happened below it. */
  lemma SiblingStored(s: Store, s': Store, t: Tree, i: nat, j: nat, limit: nat)
    requires t.Fork? && Apart(t, limit) && Stored(s, t)
    requires i < |t.kids| && j < |t.kids| && i != j
    requires SameOutside(s, s', t.kids[i], limit)
    ensures Stored(s', t.kids[j])
  {
    assert t.kids[j] in t.kids;
    forall n: nat | Uses(t.kids[j], n) > 0
      ensures s'.At(n) == s.At(n)
    {
      UsesOfTwo(t.kids, if i < j then i else j, if i < j then j else i, n);
      hide UsesAll, ImgOf;
      assert Uses(t, n) >= UsesAll(t.kids, n);
    }
    hide ImgOf, InPage, Uses;
    StoredFrame(s, s', t.kids[j]);
  }

  /** The child was rewritten in place: the node itself is as before. */
  lemma StoredReplace(s: Store, s': Store, t: Tree, i: nat, kid: Tree, limit: nat)
    requires t.Fork? && Apart(t, limit) && Stored(s, t) && i < |t.kids|
    requires SameOutside(s, s', t.kids[i], limit)
    requires Stored(s', kid) && kid.page == t.kids[i].page
    ensures Stored(s', Fork(t.page, t.keys, t.kids[i := kid]))
  {
    var t' := Fork(t.page, t.keys, t.kids[i := kid]);
    KidApart(t, i, limit);
    assert PagesOf(t'.kids) == PagesOf(t.kids);
    assert s'.At(t.page) == s.At(t.page);
    assert InPage(s', t'.page, NodeOf(t'));
    hide ImgOf, InPage, Apart, SameOutside;
    forall k | k in t'.kids
      ensures Stored(s', k)
    {
      var j :| 0 <= j < |t'.kids| && t'.kids[j] == k;
      if j != i {
        SiblingStored(s, s', t, i, j, limit);
      }
    }
  }

  /** The child was split: the forest that results is stored, child by child, and keeps
      off the node's own page. */
  lemma StoredSplit(s: Store, s': Store, t: Tree, i: nat, c: Cell, limit: nat)
    requires t.Fork? && Shaped(t) && Apart(t, limit) && Stored(s, t) && i == ChildIndex(t.keys, c.key)
    requires Shaped(t.kids[i]) && SameOutside(s, s', t.kids[i], limit)
    requires var step := InsertAt(t.kids[i], c, limit).0;
      step.Split? && Stored(s', step.left) && Stored(s', step.right)
    ensures var (step, limit') := InsertAt(t.kids[i], c, limit);
      forall k :: k in t.kids[..i] + [step.left, step.right] + t.kids[i + 1..] ==>
        Stored(s', k) && Apart(k, limit') && Uses(k, t.page) == 0
  {
    var (step, limit') := InsertAt(t.kids[i], c, limit);
    SplitKids(t, i, c, limit);
    hide InsertAt, Stored, Apart, SameOutside, Shaped;
    forall j | 0 <= j < |t.kids| && j != i
      ensures Clear(s', t.kids[j], limit', t.page)
    {
      SiblingStored(s, s', t, i, j, limit);
      KidApart(t, j, limit);
      LargerLimit(t.kids[j], limit, limit');
    }
    AroundTwo(s', t.kids, i, step.left, step.right, limit', t.page);
  }

  /** A subtree in its pages, which are all its own and not page p. */
  ghost predicate Clear(s: Store, k: Tree, limit: nat, p: nat) {
    Stored(s, k) && Apart(k, limit) && Uses(k, p) == 0
  }

  lemma AroundTwo(s: Store, kids: seq<Tree>, i: nat, l: Tree, r: Tree, limit: nat, p: nat)
    requires i < |kids| && Clear(s, l, limit, p) && Clear(s, r, limit, p)
    requires forall j :: 0 <= j < |kids| && j != i ==> Clear(s, kids[j], limit, p)
    ensures forall k :: k in kids[..i] + [l, r] + kids[i + 1..] ==> Stored(s, k) && Apart(k, limit) && Uses(k, p) == 0
  {
    hide Stored, Apart, Uses;
    var ts := kids[..i] + [l, r] + kids[i + 1..];
    forall k | k in ts
      ensures Clear(s, k, limit, p)
    {
      var q :| 0 <= q < |ts| && ts[q] == k;
      if q != i && q != i + 1 {
        assert k == kids[if q < i then q else q - 1];
      }
    }
  }

  lemma LargerLimit(t: Tree, limit: nat, limit': nat)
    requires Apart(t, limit) && limit <= limit'
    ensures Apart(t, limit')
  {
  }

  lemma SplitKids(t: Tree, i: nat, c: Cell, limit: nat)
    requires t.Fork? && Shaped(t) && Apart(t, limit) && i == ChildIndex(t.keys, c.key)
    requires Shaped(t.kids[i]) && InsertAt(t.kids[i], c, limit).0.Split?
    ensures var (step, limit') := InsertAt(t.kids[i], c, limit);
      && limit <= limit'
      && Apart(step.left, limit') && Apart(step.right, limit')
      && Uses(step.left, t.page) == 0 && Uses(step.right, t.page) == 0
  {
    var kid := t.kids[i];
    var (step, limit') := InsertAt(kid, c, limit);
    KidApart(t, i, limit);
    InsertUses(kid, c, limit, t.page);
    forall p: nat
      ensures Uses(step.left, p) <= (if p < limit' then 1 else 0) &&
        Uses(step.right, p) <= (if p < limit' then 1 else 0)
    {
      InsertUses(kid, c, limit, p);
      hide InsertAt, Uses;
    }
    hide InsertAt, Uses;
  }

  lemma PageBelow(t: Tree, limit: nat)
    requires Apart(t, limit)
    ensures t.page < limit
  {
    assert Uses(t, t.page) > 0;
  }

  lemma LeafStorable(cells: seq<Cell>, next: Option<nat>, c: Cell, lo: int, hi: int)
    requires Fits(Leaf(cells, next)) && Insertable(c, lo, hi)
    ensures Storable(Leaf(InsertSorted(cells, c), next))
  {
    CellsSizeBounds(cells, 12, 12 + U32_LIMIT);
  }

  lemma InsideKid(s: Store, s': Store, t: Tree, i: nat, limit: nat)
    requires t.Fork? && i < |t.kids| && SameOutside(s, s', t.kids[i], limit)
    ensures SameOutside(s, s', t, limit)
  {
    forall m: nat | m < limit && Uses(t, m) == 0
      ensures s'.At(m) == s.At(m)
    {
      UsesAt(t.kids, i, m);
      hide ImgOf;
    }
  }

  /** What changed below child i, or in the node itself, changed inside the tree. */
  lemma OutsideKid(s: Store, s': Store, s'': Store, t: Tree, i: nat, limit: nat)
    requires t.Fork? && i < |t.kids| && SameOutside(s, s', t.kids[i], limit) && SameBut(s', s'', t.page, limit)
    ensures SameOutside(s, s'', t, limit)
  {
    forall m: nat | m < limit && Uses(t, m) == 0
      ensures s''.At(m) == s.At(m)
    {
      UsesAt(t.kids, i, m);
      hide ImgOf;
    }
  }

  /** After the child has split, everything is ready for taking in the new sibling. */
  lemma BeforeAbsorb(s: Store, s': Store, t: Tree, i: nat, c: Cell, limit: nat, h: nat, lo: int, hi: int,
                     after: Option<nat>)
    requires t.Fork? && Shaped(t) && Apart(t, limit) && Stored(s, t) && i == ChildIndex(t.keys, c.key)
    requires Good(t, h, lo, hi, after) && Shaped(t.kids[i]) && SameOutside(s, s', t.kids[i], limit)
    requires var step := InsertAt(t.kids[i], c, limit).0;
      && step.Split? && Stored(s', step.left) && Stored(s', step.right)
      && h > 0 && StepGood(step, t.kids[i], h - 1, Lo(t.keys, i, lo), Hi(t.keys, i, hi), After(t.kids, i, after))
    ensures var (step, limit') := InsertAt(t.kids[i], c, limit);
      var keys, ts := t.keys[..i] + [step.sep] + t.keys[i..], t.kids[..i] + [step.left, step.right] + t.kids[i + 1..];
      && |ts| == |keys| + 1 && |keys| <= MAX_KEYS + 1
      && PagesOf(ts) == PagesOf(t.kids)[..i + 1] + [step.right.page] + PagesOf(t.kids)[i + 1..]
      && Storable(Internal(keys, PagesOf(ts)))
      && (forall k :: k in ts ==> Stored(s', k) && Apart(k, limit') && Uses(k, t.page) == 0)
      && InsertAt(t, c, limit) == Absorbed(t.page, keys, ts, limit')
  {
    var (step, limit') := InsertAt(t.kids[i], c, limit);
    var keys, ts := t.keys[..i] + [step.sep] + t.keys[i..], t.kids[..i] + [step.left, step.right] + t.kids[i + 1..];
    assert InsertAt(t, c, limit) == Absorbed(t.page, keys, ts, limit');
    assert GoodForest(t.keys, t.kids, h - 1, lo, hi, after) && |t.keys| <= MAX_KEYS;
    StoredSplit(s, s', t, i, c, limit);
    hide InsertAt, Good, Stored, Apart, Shaped, SameOutside;
    SplitPages(t.kids, i, step.left, step.right);
    ReplaceByTwo(t.keys, t.kids, i, step.left, step.sep, step.right, h - 1, lo, hi, after);
    ForestStorable(keys, ts, h - 1, lo, hi, after);
  }

  /** An insert that fails leaves the tree where it was; a page may have been allocated. */
  lemma StillStored(s: Store, s': Store, t: Tree, limit: nat, limit': nat)
    requires Stored(s, t) && Whole(t, limit) && SameBelow(s, s', limit) && limit <= limit'
    ensures Stored(s', t) && Whole(t, limit')
  {
    hide ImgOf;
    StoredFrame(s, s', t);
  }

  lemma WholeShaped(t: Tree, limit: nat)
    requires Whole(t, limit)
    ensures Shaped(t)
  {
    GoodShaped(t, Height(t), I64_MIN, I64_LIMIT, None);
  }

  /** Nothing has happened yet. */
  lemma Untouched(s: Store, t: Tree, limit: nat)
    ensures SameBelow(s, s, limit) && SameOutside(s, s, t, limit)
  {
  }

  lemma OutsideGrown(s: Store, s': Store, s'': Store, t: Tree, limit: nat, limit': nat)
    requires SameOutside(s, s', t, limit) && SameBelow(s', s'', limit') && limit <= limit'
    ensures SameOutside(s, s'', t, limit)
  {
    hide ImgOf;
  }

  lemma BelowIsOutside(s: Store, s': Store, t: Tree, limit: nat)
    requires SameBelow(s, s', limit)
    ensures SameOutside(s, s', t, limit)
  {
    hide ImgOf;
  }

  /** The page of the old root stays the page of the tree, or of its left half. */
  lemma RootPageKept(t: Tree, c: Cell, limit: nat)
    requires Whole(t, limit) && Shaped(t) && TreeOps.Room(t, limit) && |c.val| <= MAX_VALUE_SIZE && IsI64(c.key)
    ensures var (step, limit') := InsertAt(t, c, limit);
      && limit <= limit'
      && (step.Fit? ==> step.t.page == t.page) && (step.Split? ==> step.left.page == t.page)
  {
    hide Good, InsertAt;
    TreeOps.InsertFacts(t, limit, c);
  }

  /** A new root with two children, about to be written to the next free page. */
  lemma NewRootReady(t: Tree, n: nat)
    requires t.Fork? && t.page == n && |t.kids| == 2 && |t.keys| == 1
    requires Whole(t, n + 1)
    ensures forall k :: k in t.kids ==> Apart(k, n) && Uses(k, n) == 0
    ensures Storable(Internal(t.keys, PagesOf(t.kids)))
    ensures PagesOf(t.kids) == [t.kids[0].page, t.kids[1].page]
  {
    forall k | k in t.kids
      ensures Apart(k, n) && Uses(k, n) == 0
    {
      var i :| 0 <= i < 2 && t.kids[i] == k;
      KidApart(t, i, n + 1);
    }
    assert GoodForest(t.keys, t.kids, Height(t) - 1, I64_MIN, I64_LIMIT, None);
    ForestStorable(t.keys, t.kids, Height(t) - 1, I64_MIN, I64_LIMIT, None);
  }

  /** Pages of the forest after a split, as the source edits the child list. */
  lemma SplitPages(kids: seq<Tree>, i: nat, l: Tree, r: Tree)
    requires i < |kids| && l.page == kids[i].page
    ensures var p := PagesOf(kids);
      PagesOf(kids[..i] + [l, r] + kids[i + 1..]) == p[..i + 1] + [r.page] + p[i + 1..]
  {
  }

  // ---- the node edits of a rebalance --------------------------------------------------

  predicate Alike(a: Node, b: Node) {
    match (a, b)
    case (Leaf(_, _), Leaf(_, _)) => true
    case (Internal(ka, ta), Internal(kb, tb)) => |ta| == |ka| + 1 && |tb| == |kb| + 1
    case _ => false
  }

  predicate NonEmpty(a: Node) {
    match a
    case Leaf(cells, _) => cells != []
    case Internal(keys, _) => keys != []
  }

  /** `_borrow_from_left`: the left node, the separator, the child. */
  function LeftLends(left: Node, child: Node, sep: int): (Node, int, Node)
    requires Alike(left, child) && NonEmpty(left)
  {
    match (left, child)
    case (Leaf(lc, ln), Leaf(cc, cn)) =>
      var n := |lc| - 1;
      (Leaf(lc[..n], ln), lc[n].key, Leaf([lc[n]] + cc, cn))
    case (Internal(lk, lt), Internal(ck, ct)) =>
      var n := |lk| - 1;
      (Internal(lk[..n], lt[..n + 1]), lk[n], Internal([sep] + ck, [lt[n + 1]] + ct))
  }

  /** `_borrow_from_right` */
  function RightLends(child: Node, right: Node, sep: int): (Node, int, Node)
    requires Alike(child, right) && NonEmpty(right) && (right.Leaf? ==> |right.cells| > 1)
  {
    match (child, right)
    case (Leaf(cc, cn), Leaf(rc, rn)) => (Leaf(cc + [rc[0]], cn), rc[1].key, Leaf(rc[1..], rn))
    case (Internal(ck, ct), Internal(rk, rt)) =>
      (Internal(ck + [sep], ct + [rt[0]]), rk[0], Internal(rk[1..], rt[1..]))
  }

  /** `_merge` */
  function MergeNodes(low: Node, high: Node, sep: int): Node
    requires Alike(low, high)
  {
    match (low, high)
    case (Leaf(lc, _), Leaf(hc, hn)) => Leaf(lc + hc, hn)
    case (Internal(lk, lt), Internal(hk, ht)) => Internal(lk + [sep] + hk, lt + ht)
  }

  lemma LeftLendsNodes(left: Tree, child: Tree, sep: int)
    requires Peers(left, child) && CanLend(left)
    ensures Alike(NodeOf(left), NodeOf(child)) && NonEmpty(NodeOf(left))
    ensures var (l, s, c) := BorrowFromLeft(left, child, sep);
      LeftLends(NodeOf(left), NodeOf(child), sep) == (NodeOf(l), s, NodeOf(c))
  {
    if left.Fork? {
      var n := |left.keys| - 1;
      assert PagesOf(left.kids[..n + 1]) == PagesOf(left.kids)[..n + 1];
      assert PagesOf([left.kids[n + 1]] + child.kids) == [left.kids[n + 1].page] + PagesOf(child.kids);
    }
  }

  lemma RightLendsNodes(child: Tree, right: Tree, sep: int)
    requires Peers(child, right) && CanLend(right) && (right.Tip? ==> |right.cells| > 1)
    ensures Alike(NodeOf(child), NodeOf(right)) && NonEmpty(NodeOf(right))
    ensures var (c, s, r) := BorrowFromRight(child, right, sep);
      RightLends(NodeOf(child), NodeOf(right), sep) == (NodeOf(c), s, NodeOf(r))
  {
    if right.Fork? {
      assert PagesOf(right.kids[1..]) == PagesOf(right.kids)[1..];
      assert PagesOf(child.kids + [right.kids[0]]) == PagesOf(child.kids) + [right.kids[0].page];
    }
  }

  lemma MergeNodesOf(low: Tree, high: Tree, sep: int)
    requires Peers(low, high)
    ensures Alike(NodeOf(low), NodeOf(high))
    ensures MergeNodes(NodeOf(low), NodeOf(high), sep) == NodeOf(Merge(low, high, sep))
  {
    if low.Fork? {
      assert PagesOf(low.kids + high.kids) == PagesOf(low.kids) + PagesOf(high.kids);
    }
  }

  lemma GoodFits(t: Tree, h: nat, lo: int, hi: int, after: Option<nat>)
    requires GoodTop(t, h, lo, hi, after)
    ensures Fits(NodeOf(t))
  {
    if t.Fork? {
      ForestStorable(t.keys, t.kids, h - 1, lo, hi, after);
    }
  }

  // ---- steps of the delete proof ----------------------------------------------------

  /** The pages of a node and of its children. */
  function NearPages(t: Tree): set<nat> {
    {t.page} + if t.Fork? then set i | 0 <= i < |t.kids| :: t.kids[i].page else {}
  }

  /** Only the node itself and some of its children have been written. */
  ghost predicate SameButNear(s: Store, s': Store, t: Tree, w: set<nat>, limit: nat) {
    w <= NearPages(t) && forall m: nat :: m < limit && m !in w ==> s'.At(m) == s.At(m)
  }

  /** A child's pages are its own: another node near it lives elsewhere. */
  lemma NearElsewhere(t: Tree, q: nat, m: nat, limit: nat)
    requires t.Fork? && Apart(t, limit) && q < |t.kids| && m in NearPages(t) && m != t.kids[q].page
    ensures Uses(t.kids[q], m) == 0
  {
    KidApart(t, q, limit);
    if m != t.page {
      var r :| 0 <= r < |t.kids| && t.kids[r].page == m;
      assert Uses(t.kids[r], m) > 0;
      UsesOfTwo(t.kids, if q < r then q else r, if q < r then r else q, m);
      assert Uses(t, m) >= UsesAll(t.kids, m);
    }
  }

  lemma KidUnchanged(s: Store, s': Store, t: Tree, q: nat, w: set<nat>, limit: nat)
    requires t.Fork? && Apart(t, limit) && q < |t.kids| && Stored(s, t.kids[q])
    requires SameButNear(s, s', t, w, limit) && t.kids[q].page !in w
    ensures Stored(s', t.kids[q])
  {
    KidApart(t, q, limit);
    hide ImgOf, InPage, Stored, NearPages;
    forall m: nat | Uses(t.kids[q], m) > 0
      ensures s'.At(m) == s.At(m)
    {
      if m in w {
        NearElsewhere(t, q, m, limit);
      }
    }
    StoredFrame(s, s', t.kids[q]);
  }

  lemma GrandkidUnchanged(s: Store, s': Store, t: Tree, q: nat, g: Tree, w: set<nat>, limit: nat)
    requires t.Fork? && Apart(t, limit) && q < |t.kids| && t.kids[q].Fork? && g in t.kids[q].kids &&
      Stored(s, t.kids[q])
    requires SameButNear(s, s', t, w, limit)
    ensures Stored(s', g)
  {
    KidApart(t, q, limit);
    var kid := t.kids[q];
    var x :| 0 <= x < |kid.kids| && kid.kids[x] == g;
    hide ImgOf, InPage, NearPages;
    forall m: nat | Uses(g, m) > 0
      ensures s'.At(m) == s.At(m)
    {
      UsesAt(kid.kids, x, m);
      if m in w && m != kid.page {
        NearElsewhere(t, q, m, limit);
      }
      assert Uses(kid, m) <= 1;
    }
    assert Stored(s, g);
    StoredFrame(s, s', g);
  }

  /** Child k of the rebuilt forest is an old child left alone, or was rewritten with
      grandchildren of the old node below it. */
  ghost predicate Rebuilt(s': Store, t: Tree, k: Tree, w: set<nat>)
    requires t.Fork?
  {
    || (k in t.kids && k.page !in w)
    || (InPage(s', k.page, NodeOf(k)) &&
        (k.Fork? ==> forall g :: g in k.kids ==>
          exists q :: 0 <= q < |t.kids| && t.kids[q].Fork? && g in t.kids[q].kids))
  }

  lemma RebuiltStored(s: Store, s': Store, t: Tree, k: Tree, w: set<nat>, limit: nat)
    requires t.Fork? && Apart(t, limit) && (forall x :: x in t.kids ==> Stored(s, x))
    requires SameButNear(s, s', t, w, limit) && Rebuilt(s', t, k, w)
    ensures Stored(s', k)
  {
    hide ImgOf, InPage, NearPages, SameButNear;
    if k in t.kids && k.page !in w {
      var q :| 0 <= q < |t.kids| && t.kids[q] == k;
      KidUnchanged(s, s', t, q, w, limit);
    } else if k.Fork? {
      forall g | g in k.kids
        ensures Stored(s', g)
      {
        var q :| 0 <= q < |t.kids| && t.kids[q].Fork? && g in t.kids[q].kids;
        GrandkidUnchanged(s, s', t, q, g, w, limit);
      }
    }
  }

  /** Borrowing rewrites two neighbours; each keeps its page and has only old
      grandchildren below it. */
  lemma BorrowLeftKin(left: Tree, child: Tree, sep: int)
    requires Peers(left, child) && CanLend(left)
    ensures var (l, _, c) := BorrowFromLeft(left, child, sep);
      && l.page == left.page && c.page == child.page
      && Kin(l, left, child) && Kin(c, left, child)
  {
  }

  lemma BorrowRightKin(child: Tree, right: Tree, sep: int)
    requires Peers(child, right) && CanLend(right) && (right.Tip? ==> |right.cells| > 1)
    ensures var (c, _, r) := BorrowFromRight(child, right, sep);
      && c.page == child.page && r.page == right.page
      && Kin(c, child, right) && Kin(r, child, right)
  {
  }

  lemma MergeKin(low: Tree, high: Tree, sep: int)
    requires Peers(low, high)
    ensures Merge(low, high, sep).page == low.page && Kin(Merge(low, high, sep), low, high)
  {
  }

  ghost predicate Kin(k: Tree, a: Tree, b: Tree) {
    k.Fork? ==> forall g :: g in k.kids ==> (a.Fork? && g in a.kids) || (b.Fork? && g in b.kids)
  }

  lemma KinRebuilt(s': Store, t: Tree, j: nat, k: Tree, w: set<nat>)
    requires t.Fork? && j + 1 < |t.kids| && Kin(k, t.kids[j], t.kids[j + 1]) && InPage(s', k.page, NodeOf(k))
    ensures Rebuilt(s', t, k, w)
  {
  }

  /** The forest after two neighbours were rewritten. */
  lemma TwoRebuilt(s: Store, s': Store, t: Tree, j: nat, a: Tree, b: Tree, w: set<nat>, limit: nat)
    requires t.Fork? && Apart(t, limit) && (forall x :: x in t.kids ==> Stored(s, x)) && j + 1 < |t.kids|
    requires a.page == t.kids[j].page && b.page == t.kids[j + 1].page
    requires Kin(a, t.kids[j], t.kids[j + 1]) && Kin(b, t.kids[j], t.kids[j + 1])
    requires InPage(s', a.page, NodeOf(a)) && InPage(s', b.page, NodeOf(b))
    requires SameButNear(s, s', t, w, limit) && w <= {t.page, a.page, b.page}
    ensures forall k :: k in t.kids[j := a][j + 1 := b] ==> Stored(s', k)
  {
    var ts := t.kids[j := a][j + 1 := b];
    KinRebuilt(s', t, j, a, w);
    KinRebuilt(s', t, j, b, w);
    hide InPage, Stored, SameButNear, Kin, Rebuilt, Apart;
    forall k | k in ts
      ensures Stored(s', k)
    {
      var q :| 0 <= q < |ts| && ts[q] == k;
      if q != j && q != j + 1 {
        OtherRebuilt(s', t, q, w, j, limit);
      }
      RebuiltStored(s, s', t, k, w, limit);
    }
  }

  /** Children other than j and j+1 live on other pages than those two. */
  lemma OtherRebuilt(s': Store, t: Tree, q: nat, w: set<nat>, j: nat, limit: nat)
    requires t.Fork? && Apart(t, limit) && j + 1 < |t.kids| && q < |t.kids| && q != j && q != j + 1
    requires w <= {t.page, t.kids[j].page, t.kids[j + 1].page}
    ensures Rebuilt(s', t, t.kids[q], w)
  {
    KidApart(t, q, limit);
    PageElsewhere(t, q, j, limit);
    PageElsewhere(t, q, j + 1, limit);
  }

  lemma PageElsewhere(t: Tree, q: nat, j: nat, limit: nat)
    requires t.Fork? && Apart(t, limit) && q < |t.kids| && j < |t.kids| && q != j
    ensures t.kids[q].page != t.kids[j].page && t.kids[q].page != t.page
  {
    var m := t.kids[q].page;
    KidApart(t, q, limit);
    assert Uses(t.kids[q], m) > 0;
    UsesOfTwo(t.kids, if q < j then q else j, if q < j then j else q, m);
    assert Uses(t, m) >= UsesAll(t.kids, m);
    assert t.kids[j].page == m ==> Uses(t.kids[j], m) > 0;
  }

  /** The forest after two neighbours were merged into one. */
  lemma OneRebuilt(s: Store, s': Store, t: Tree, j: nat, m: Tree, limit: nat)
    requires t.Fork? && Apart(t, limit) && (forall x :: x in t.kids ==> Stored(s, x)) && j + 1 < |t.kids|
    requires m.page == t.kids[j].page && Kin(m, t.kids[j], t.kids[j + 1]) && InPage(s', m.page, NodeOf(m))
    requires SameButNear(s, s', t, {m.page}, limit)
    ensures forall k :: k in t.kids[..j] + [m] + t.kids[j + 2..] ==> Stored(s', k)
  {
    var w := {m.page};
    KinRebuilt(s', t, j, m, w);
    hide InPage, Stored, SameButNear, Kin, Rebuilt, Apart;
    RebuiltStored(s, s', t, m, w, limit);
    forall o | 0 <= o < |t.kids| && o != j && o != j + 1
      ensures Stored(s', t.kids[o])
    {
      OtherRebuilt(s', t, o, w, j, limit);
      RebuiltStored(s, s', t, t.kids[o], w, limit);
    }
    AroundOne(s', t.kids, j, m);
  }

  lemma AroundOne(s: Store, kids: seq<Tree>, j: nat, m: Tree)
    requires j + 1 < |kids| && Stored(s, m)
    requires forall o :: 0 <= o < |kids| && o != j && o != j + 1 ==> Stored(s, kids[o])
    ensures forall k :: k in kids[..j] + [m] + kids[j + 2..] ==> Stored(s, k)
  {
    hide Stored;
    var ts := kids[..j] + [m] + kids[j + 2..];
    forall k | k in ts
      ensures Stored(s, k)
    {
      var q :| 0 <= q < |ts| && ts[q] == k;
      if q != j {
        assert k == kids[if q < j then q else q + 1];
      }
    }
  }

  /** Two neighbours after a borrow, as trees: they fit their pages. */
  lemma BorrowFits(keys: seq<int>, ts: seq<Tree>, j: nat, h: nat, lo: int, hi: int, after: Option<nat>)
    requires GoodForest(keys, ts, h, lo, hi, after) && j + 1 < |ts| && |keys| <= MAX_KEYS
    ensures Fits(NodeOf(ts[j])) && Fits(NodeOf(ts[j + 1]))
    ensures Fits(Internal(keys, PagesOf(ts)))
  {
    assert Good(ts[j], h, Lo(keys, j, lo), Hi(keys, j, hi), After(ts, j, after));
    assert Good(ts[j + 1], h, Lo(keys, j + 1, lo), Hi(keys, j + 1, hi), After(ts, j + 1, after));
    GoodFits(ts[j], h, Lo(keys, j, lo), Hi(keys, j, hi), After(ts, j, after));
    GoodFits(ts[j + 1], h, Lo(keys, j + 1, lo), Hi(keys, j + 1, hi), After(ts, j + 1, after));
    hide Good;
    ForestStorable(keys, ts, h, lo, hi, after);
  }

  /** The pages of two neighbours and of their parent are three pages of the store. */
  lemma ThreePages(t: Tree, j: nat, limit: nat)
    requires t.Fork? && Apart(t, limit) && j + 1 < |t.kids|
    ensures var a, b := t.kids[j].page, t.kids[j + 1].page;
      && a < limit && b < limit && t.page < limit && a != b && a != t.page && b != t.page
      && {t.page, a, b} <= NearPages(t)
  {
    KidApart(t, j, limit);
    KidApart(t, j + 1, limit);
    PageElsewhere(t, j, j + 1, limit);
    PageElsewhere(t, j + 1, j, limit);
  }

  /** Changes near the root of t are changes inside t. */
  lemma NearIsInside(s: Store, s': Store, t: Tree, w: set<nat>, limit: nat)
    requires SameButNear(s, s', t, w, limit)
    ensures SameOutside(s, s', t, limit)
  {
    forall m | m in w
      ensures Uses(t, m) > 0
    {
      NearUsed(t, m);
    }
    hide ImgOf;
  }

  lemma NearUsed(t: Tree, m: nat)
    requires m in NearPages(t)
    ensures Uses(t, m) > 0
  {
    if m != t.page {
      var i :| 0 <= i < |t.kids| && t.kids[i].page == m;
      UsesAt(t.kids, i, m);
      assert Uses(t.kids[i], m) > 0;
    }
  }

  lemma ThreeWrites(s: Store, s1: Store, s2: Store, s3: Store, t: Tree, j: nat, na: Node, nb: Node, limit: nat)
    requires t.Fork? && Apart(t, limit) && j + 1 < |t.kids|
    requires var a, b := t.kids[j].page, t.kids[j + 1].page;
      SameBut(s, s1, a, limit) && InPage(s1, a, na) && SameBut(s1, s2, b, limit) && InPage(s2, b, nb) &&
        SameBut(s2, s3, t.page, limit)
    ensures InPage(s3, t.kids[j].page, na) && InPage(s3, t.kids[j + 1].page, nb)
    ensures SameButNear(s, s3, t, {t.page, t.kids[j].page, t.kids[j + 1].page}, limit)
  {
    ThreePages(t, j, limit);
    hide ImgOf, PageOf, Fits, NearPages;
  }

  /** Everything that writing the result of a borrow from the left needs. */
  lemma BeforeBorrowLeft(keys: seq<int>, kids: seq<Tree>, i: nat, h: nat, lo: int, hi: int, after: Option<nat>)
    requires Damaged(keys, kids, i, h, lo, hi, after) && |keys| <= MAX_KEYS && 0 < i && CanSpare(kids[i - 1])
    ensures Peers(kids[i - 1], kids[i]) && CanLend(kids[i - 1])
    ensures Alike(NodeOf(kids[i - 1]), NodeOf(kids[i])) && NonEmpty(NodeOf(kids[i - 1]))
    ensures var (l, s, c) := BorrowFromLeft(kids[i - 1], kids[i], keys[i - 1]);
      && LeftLends(NodeOf(kids[i - 1]), NodeOf(kids[i]), keys[i - 1]) == (NodeOf(l), s, NodeOf(c))
      && l.page == kids[i - 1].page && c.page == kids[i].page
      && Kin(l, kids[i - 1], kids[i]) && Kin(c, kids[i - 1], kids[i])
      && PagesOf(kids[i - 1 := l][i := c]) == PagesOf(kids)
      && Fits(NodeOf(l)) && Fits(NodeOf(c)) && Fits(Internal(keys[i - 1 := s], PagesOf(kids)))
  {
    RebalanceLeftGood(keys, kids, i, h, lo, hi, after);
    LeftLendsNodes(kids[i - 1], kids[i], keys[i - 1]);
    BorrowLeftKin(kids[i - 1], kids[i], keys[i - 1]);
    hide Good, GoodForest, Damaged, BorrowFromLeft, LeftLends, CanSpare, Peers, CanLend, Fits, Alike, NonEmpty, Kin;
    var (l, s, c) := BorrowFromLeft(kids[i - 1], kids[i], keys[i - 1]);
    var ts := kids[i - 1 := l][i := c];
    assert PagesOf(ts) == PagesOf(kids);
    BorrowFits(keys[i - 1 := s], ts, i - 1, h, lo, hi, after);
  }

  lemma BeforeBorrowRight(keys: seq<int>, kids: seq<Tree>, i: nat, h: nat, lo: int, hi: int, after: Option<nat>)
    requires Damaged(keys, kids, i, h, lo, hi, after) && |keys| <= MAX_KEYS && i + 1 < |kids| && CanSpare(kids[i + 1])
    requires kids[i + 1].Tip? ==> |kids[i + 1].cells| != 1
    ensures Peers(kids[i], kids[i + 1]) && CanLend(kids[i + 1]) && (kids[i + 1].Tip? ==> |kids[i + 1].cells| > 1)
    ensures Alike(NodeOf(kids[i]), NodeOf(kids[i + 1])) && NonEmpty(NodeOf(kids[i + 1]))
    ensures var (c, s, r) := BorrowFromRight(kids[i], kids[i + 1], keys[i]);
      && RightLends(NodeOf(kids[i]), NodeOf(kids[i + 1]), keys[i]) == (NodeOf(c), s, NodeOf(r))
      && c.page == kids[i].page && r.page == kids[i + 1].page
      && Kin(c, kids[i], kids[i + 1]) && Kin(r, kids[i], kids[i + 1])
      && PagesOf(kids[i := c][i + 1 := r]) == PagesOf(kids)
      && Fits(NodeOf(c)) && Fits(NodeOf(r)) && Fits(Internal(keys[i := s], PagesOf(kids)))
  {
    RebalanceRightGood(keys, kids, i, h, lo, hi, after);
    RightLendsNodes(kids[i], kids[i + 1], keys[i]);
    BorrowRightKin(kids[i], kids[i + 1], keys[i]);
    hide Good, GoodForest, Damaged, BorrowFromRight, RightLends, CanSpare, Peers, CanLend, Fits, Alike, NonEmpty, Kin;
    var (c, s, r) := BorrowFromRight(kids[i], kids[i + 1], keys[i]);
    var ts := kids[i := c][i + 1 := r];
    assert PagesOf(ts) == PagesOf(kids);
    BorrowFits(keys[i := s], ts, i, h, lo, hi, after);
  }

  lemma MergedFits(keys: seq<int>, ts: seq<Tree>, j: nat, h: nat, lo: int, hi: int, after: Option<nat>)
    requires GoodForest(keys, ts, h, lo, hi, after) && j < |ts|
    ensures Fits(NodeOf(ts[j]))
  {
    assert Good(ts[j], h, Lo(keys, j, lo), Hi(keys, j, hi), After(ts, j, after));
    GoodFits(ts[j], h, Lo(keys, j, lo), Hi(keys, j, hi), After(ts, j, after));
  }

  lemma PagesAre(kids: seq<Tree>)
    ensures |PagesOf(kids)| == |kids| && forall i :: 0 <= i < |kids| ==> PagesOf(kids)[i] == kids[i].page
  {
  }

  lemma MergedPages(kids: seq<Tree>, j: nat, m: Tree)
    requires j + 1 < |kids| && m.page == kids[j].page
    ensures var p := PagesOf(kids);
      PagesOf(kids[..j] + [m] + kids[j + 2..]) == p[..j + 1] + p[j + 2..]
  {
  }

  /** The children with j and j+1 merged into one. */
  ghost function MergedKids(kids: seq<Tree>, j: nat, sep: int): seq<Tree>
    requires j + 1 < |kids| && Peers(kids[j], kids[j + 1])
  {
    kids[..j] + [Merge(kids[j], kids[j + 1], sep)] + kids[j + 2..]
  }

  /** Everything that writing the result of a merge needs. */
  lemma BeforeMerge(t: Tree, i: nat, j: nat, h: nat, lo: int, hi: int, after: Option<nat>, limit: nat)
    requires t.Fork? && Apart(t, limit) && Damaged(t.keys, t.kids, i, h, lo, hi, after) && j < |t.keys|
    requires |t.kids| == |t.keys| + 1
    requires (i == j && !CanSpare(t.kids[j + 1])) || (i == j + 1 && !CanSpare(t.kids[j]))
    ensures var low, high := t.kids[j], t.kids[j + 1];
      && Peers(low, high) && Alike(NodeOf(low), NodeOf(high))
      && var m := Merge(low, high, t.keys[j]);
         && MergeNodes(NodeOf(low), NodeOf(high), t.keys[j]) == NodeOf(m) && Fits(NodeOf(m))
         && m.page == low.page && Kin(m, low, high) && m.page < limit && {m.page} <= NearPages(t)
         && MergedKids(t.kids, j, t.keys[j]) == t.kids[..j] + [m] + t.kids[j + 2..]
         && PagesOf(MergedKids(t.kids, j, t.keys[j])) == PagesOf(t.kids)[..j + 1] + PagesOf(t.kids)[j + 2..]
  {
    var keys, kids := t.keys, t.kids;
    hide *;
    RebalanceMergeGood(keys, kids, i, j, h, lo, hi, after);
    var m := Merge(kids[j], kids[j + 1], keys[j]);
    MergeNodesOf(kids[j], kids[j + 1], keys[j]);
    MergeKin(kids[j], kids[j + 1], keys[j]);
    MergedIs(kids, j, keys[j]);
    var ts := MergedKids(kids, j, keys[j]);
    assert ts[j] == m;
    MergedFits(keys[..j] + keys[j + 1..], ts, j, h, lo, hi, after);
    ThreePages(t, j, limit);
    MergedPages(kids, j, m);
  }

  lemma MergedIs(kids: seq<Tree>, j: nat, sep: int)
    requires j + 1 < |kids| && Peers(kids[j], kids[j + 1])
    ensures MergedKids(kids, j, sep) == kids[..j] + [Merge(kids[j], kids[j + 1], sep)] + kids[j + 2..]
  {
    hide Merge, Peers;
  }

  /** What _delete reports to the node above; Failed is the IndexError. */
  datatype Finding = NotThere | Gone | Failed

  ghost predicate Found(r: Finding, removal: Removal, s: Store) {
    match removal
    case Missing => r == NotThere
    case Removed(t) => r == Gone && Stored(s, t)
    case Broken(t) => r == Failed && Stored(s, t)
  }

  /** `_underflow` */
  predicate NodeUnderflow(node: Node) {
    match node
    case Leaf(cells, _) => cells == [] || NodeSize(node) < MIN_BYTES
    case Internal(_, kids) => |kids| < 2 || NodeSize(node) < MIN_BYTES
  }

  /** A key between the bounds, or one that no tree holds. */
  predicate Sought(key: int, lo: int, hi: int) {
    lo <= key < hi || !IsI64(key)
  }

  /** The child a delete goes to, before the recursive call. */
  lemma DescendDelete(s: Store, t: Tree, key: int, h: nat, lo: int, hi: int, after: Option<nat>, limit: nat)
    requires t.Fork? && Shaped(t) && Apart(t, limit) && Stored(s, t)
    requires Good(t, h, lo, hi, after) && Sought(key, lo, hi)
    ensures h > 0 && |t.kids| == |t.keys| + 1 && |t.kids| >= 2 && |t.keys| <= MAX_KEYS && t.page < NO_PAGE
    ensures GoodForest(t.keys, t.kids, h - 1, lo, hi, after)
    ensures var i := ChildIndex(t.keys, key); var kid := t.kids[i];
      && Shaped(kid) && Apart(kid, limit) && Stored(s, kid) && kid.page < limit && t.page < limit
      && Uses(kid, t.page) == 0
      && Good(kid, h - 1, Lo(t.keys, i, lo), Hi(t.keys, i, hi), After(t.kids, i, after))
      && Sought(key, Lo(t.keys, i, lo), Hi(t.keys, i, hi))
      && var r := TreeDelete.DeleteAt(kid, key);
      && (r.Removed? ==> Neighbours(t.kids[i := r.t], i))
      && TreeDelete.DeleteAt(t, key) == Repair(t.page, t.keys, t.kids, i, r)
  {
    var i := ChildIndex(t.keys, key);
    assert t.kids[i] in t.kids;
    assert Good(t.kids[i], h - 1, Lo(t.keys, i, lo), Hi(t.keys, i, hi), After(t.kids, i, after));
    hide Good, ImgOf, InPage, TreeDelete.DeleteAt, Neighbours, Repair;
    KidApart(t, i, limit);
    DeleteAtFork(t, key);
  }

  /** The removal below, with its invariant; a key out of range is never found. */
  lemma RemovalIsGood(t: Tree, key: int, h: nat, lo: int, hi: int, after: Option<nat>)
    requires Shaped(t) && Good(t, h, lo, hi, after) && Sought(key, lo, hi)
    ensures RemovalGood(TreeDelete.DeleteAt(t, key), t, h, lo, hi, after)
  {
    hide Good, TreeDelete.DeleteAt, RemovalGood;
    if lo <= key < hi {
      DeleteGood(t, key, h, lo, hi, after);
    } else {
      TreeOps.DeleteSound(t, key);
      KeysInRange(t, h, lo, hi, after);
      assert TreeDelete.DeleteAt(t, key).Missing?;
      TreeOps.MissingGood(t, h, lo, hi, after);
    }
  }

  /** All keys of a good tree fit the page format. */
  lemma {:induction false} KeysInRange(t: Tree, h: nat, lo: int, hi: int, after: Option<nat>)
    requires Good(t, h, lo, hi, after)
    ensures forall c :: c in Items(t) ==> IsI64(c.key)
    decreases h, 0, 0
  {
    if t.Fork? {
      ForestKeys(t.keys, t.kids, |t.kids|, h - 1, lo, hi, after);
      assert t.kids[..|t.kids|] == t.kids;
    }
  }

  lemma {:induction false} ForestKeys(keys: seq<int>, kids: seq<Tree>, n: nat, h: nat, lo: int, hi: int,
                                      after: Option<nat>)
    requires GoodForest(keys, kids, h, lo, hi, after) && n <= |kids|
    ensures forall c :: c in ItemsAll(kids[..n]) ==> IsI64(c.key)
    decreases h, 1, n
  {
    if n == 0 {
      assert kids[..0] == [];
      NoItems();
    }
    hide *;
    if n > 0 {
      var i := n - 1;
      ForestKeys(keys, kids, i, h, lo, hi, after);
      KidGood(keys, kids, i, h, lo, hi, after);
      KeysInRange(kids[i], h, Lo(keys, i, lo), Hi(keys, i, hi), After(kids, i, after));
      assert kids[..n] == kids[..i] + [kids[i]];
      ItemsConcat(kids[..i], [kids[i]]);
      Single(kids[i]);
    }
  }

  /** A node whose child i has lost something and may be underfull. */
  ghost predicate Lacking(t: Tree, i: nat, h: nat, lo: int, hi: int, after: Option<nat>) {
    && t.Fork? && t.page < NO_PAGE && |t.keys| <= MAX_KEYS
    && |t.kids| == |t.keys| + 1 && |t.kids| >= 2 && i < |t.kids|
    && (Underflow(t.kids[i]) ==> Damaged(t.keys, t.kids, i, h, lo, hi, after))
  }

  /** Repair, on the node with the child's loss already in place. */
  function Repaired'(t: Tree, i: nat): Removal
    requires t.Fork? && |t.kids| == |t.keys| + 1 && |t.kids| >= 2 && i < |t.kids| && Neighbours(t.kids, i)
  {
    if Underflow(t.kids[i]) then TreeDelete.Rebalance(t.page, t.keys, t.kids, i) else Removed(t)
  }

  lemma RepairOf(page: nat, keys: seq<int>, kids: seq<Tree>, i: nat, kid: Tree)
    requires |kids| == |keys| + 1 && |kids| >= 2 && i < |kids| && Neighbours(kids[i := kid], i)
    ensures Repair(page, keys, kids, i, Removed(kid)) == Repaired'(Fork(page, keys, kids[i := kid]), i)
  {
  }

  lemma DamageReady(t: Tree, i: nat, kid: Tree, h: nat, lo: int, hi: int, after: Option<nat>)
    requires t.Fork? && h > 0 && GoodForest(t.keys, t.kids, h - 1, lo, hi, after)
    requires |t.kids| >= 2 && i < |t.kids| && |t.keys| <= MAX_KEYS && t.page < NO_PAGE
    requires RemovalGood(Removed(kid), t.kids[i], h - 1, Lo(t.keys, i, lo), Hi(t.keys, i, hi), After(t.kids, i, after))
    ensures Lacking(Fork(t.page, t.keys, t.kids[i := kid]), i, h - 1, lo, hi, after)
  {
    hide Good, GoodTop, Underflow, Damaged;
    if Underflow(kid) {
      DamageDone(t.keys, t.kids, i, kid, h - 1, lo, hi, after);
    }
  }

  /** After the child's loss no page is used more than before. */
  lemma FewerUses(t: Tree, i: nat, key: int, limit: nat)
    requires t.Fork? && Apart(t, limit) && i < |t.kids| && Shaped(t.kids[i])
    requires !TreeDelete.DeleteAt(t.kids[i], key).Missing?
    ensures var t' := Fork(t.page, t.keys, t.kids[i := TreeDelete.DeleteAt(t.kids[i], key).t]);
      Apart(t', limit) && forall p: nat :: Uses(t', p) <= Uses(t, p)
  {
    var kid := TreeDelete.DeleteAt(t.kids[i], key).t;
    var t' := Fork(t.page, t.keys, t.kids[i := kid]);
    assert t'.kids == t.kids[..i] + [kid] + t.kids[i + 1..];
    Single(kid);
    forall p: nat
      ensures Uses(t', p) <= Uses(t, p)
    {
      DeleteUses(t.kids[i], key, p);
      SwapUses(t.kids, i, [kid], p);
      hide UsesAll, TreeDelete.DeleteAt;
    }
  }

  lemma RebalancedApart(t: Tree, i: nat, limit: nat)
    requires t.Fork? && Apart(t, limit)
    requires |t.kids| == |t.keys| + 1 && |t.kids| >= 2 && i < |t.kids| && Neighbours(t.kids, i)
    ensures var r := TreeDelete.Rebalance(t.page, t.keys, t.kids, i);
      && !r.Missing? && r.t.Fork? && r.t.page == t.page && t.page < limit && (r.Broken? ==> r.t == t)
      && forall k :: k in r.t.kids ==> Apart(k, limit) && Uses(k, t.page) == 0
  {
    var r := TreeDelete.Rebalance(t.page, t.keys, t.kids, i);
    PageBelow(t, limit);
    forall p: nat
      ensures Uses(r.t, p) <= Uses(t, p)
    {
      RebalanceUses(t.page, t.keys, t.kids, i, p);
    }
    assert Apart(r.t, limit);
    hide TreeDelete.Rebalance, Apart, Uses;
    forall k | k in r.t.kids
      ensures Apart(k, limit) && Uses(k, t.page) == 0
    {
      var q :| 0 <= q < |r.t.kids| && r.t.kids[q] == k;
      KidApart(r.t, q, limit);
    }
  }

  lemma OutsideTwice(s: Store, s': Store, s'': Store, t: Tree, t': Tree, limit: nat)
    requires SameOutside(s, s', t, limit) && SameOutside(s', s'', t', limit)
    requires forall p: nat :: Uses(t', p) <= Uses(t, p)
    ensures SameOutside(s, s'', t, limit)
  {
    hide ImgOf, Uses;
  }

  lemma SameInside(s: Store, s': Store, t: Tree, limit: nat)
    requires Same(s, s')
    ensures SameOutside(s, s', t, limit)
  {
    hide ImgOf;
  }

  lemma SameThenOutside(s: Store, s1: Store, s2: Store, t: Tree, limit: nat)
    requires Same(s, s1) && SameOutside(s1, s2, t, limit)
    ensures SameOutside(s, s2, t, limit)
  {
    hide ImgOf;
  }

  lemma OutsideAndRoot(s: Store, s1: Store, s2: Store, s3: Store, t: Tree, limit: nat)
    requires Same(s, s1) && SameOutside(s1, s2, t, limit) && SameBut(s2, s3, t.page, limit)
    ensures SameOutside(s, s3, t, limit)
  {
    assert Uses(t, t.page) > 0;
    hide ImgOf;
  }

  /** What a removal means for the whole tree. */
  lemma RemovalTables(t: Tree, key: int, limit: nat)
    requires Whole(t, limit)
    ensures Shaped(t) && Sought(key, I64_MIN, I64_LIMIT) && Good(t, Height(t), I64_MIN, I64_LIMIT, None)
    ensures var r := TreeDelete.DeleteAt(t, key);
      && (key in TreeOps.TableOf(t) <==> !r.Missing?)
      && (r.Broken? ==> Whole(r.t, limit) && TreeOps.TableOf(r.t) == TreeOps.TableOf(t) - {key})
      && (r.Removed? ==>
            && GoodTop(r.t, Height(t), I64_MIN, I64_LIMIT, None) && Apart(r.t, limit) && r.t.page == t.page
            && Whole(Collapse(r.t), limit) && TreeOps.TableOf(Collapse(r.t)) == TreeOps.TableOf(t) - {key})
      && (r.Broken? ==> r.t.page == t.page)
  {
    TreeOps.DeleteFacts(t, limit, key);
    hide Good, TreeDelete.DeleteAt, TreeOps.TableOf, Apart, Collapse, RemovalContents, Items, Sorted, Holds;
    if !TreeDelete.DeleteAt(t, key).Missing? {
      TreeOps.DeleteApart(t, key, limit);
    }
    TreeOps.DeleteWhole(t, limit, key);
  }

  /** One round of the root collapse. */
  lemma CollapseStep(s: Store, t: Tree, h: nat, lo: int, hi: int, after: Option<nat>, limit: nat)
    requires GoodTop(t, h, lo, hi, after) && Apart(t, limit) && Stored(s, t) && t.Fork? && t.keys == []
    ensures |t.kids| == 1 && h > 0 && Collapse(t) == Collapse(t.kids[0])
    ensures GoodTop(t.kids[0], h - 1, lo, hi, after) && Apart(t.kids[0], limit) && Stored(s, t.kids[0])
  {
    assert t.kids[0] in t.kids;
    KidApart(t, 0, limit);
    assert Good(t.kids[0], h - 1, Lo(t.keys, 0, lo), Hi(t.keys, 0, hi), After(t.kids, 0, after));
    hide ImgOf, InPage;
  }

  lemma NotCollapsed(t: Tree)
    requires !(t.Fork? && t.keys == [])
    ensures Collapse(t) == t
  {
  }

  lemma GoodTopHeight(t: Tree, h: nat)
    requires GoodTop(t, h, I64_MIN, I64_LIMIT, None)
    ensures GoodTop(t, Height(t), I64_MIN, I64_LIMIT, None)
  {
    GoodHeight(t, h, I64_MIN, I64_LIMIT, None);
  }

  lemma StoredPage(s: Store, t: Tree)
    requires Stored(s, t)
    ensures InPage(s, t.page, NodeOf(t))
  {
  }

  lemma OutsideThenSame(s: Store, s1: Store, s2: Store, t: Tree, limit: nat)
    requires SameOutside(s, s1, t, limit) && Same(s1, s2)
    ensures SameOutside(s, s2, t, limit)
  {
    hide ImgOf;
  }

  // ---- scans and overwrites ----------------------------------------------------------

  lemma {:induction false} LeafStored(s: Store, t: Tree, l: Tree)
    requires Stored(s, t) && l in Leaves(t)
    ensures InPage(s, l.page, NodeOf(l)) && Uses(t, l.page) > 0
    decreases t, 0
  {
    match t
    case Tip(_, _, _) =>
    case Fork(_, _, kids) =>
      hide ImgOf, InPage;
      LeafStoredAll(s, kids, l);
  }

  lemma {:induction false} LeafStoredAll(s: Store, kids: seq<Tree>, l: Tree)
    requires (forall k :: k in kids ==> Stored(s, k)) && l in LeavesAll(kids)
    ensures InPage(s, l.page, NodeOf(l)) && UsesAll(kids, l.page) > 0
    decreases kids, 1
  {
    hide ImgOf, InPage;
    if l in Leaves(kids[0]) {
      LeafStored(s, kids[0], l);
    } else {
      LeafStoredAll(s, kids[1..], l);
    }
  }

  /** The pages of s' hold the tree t with the cell c in it, and differ from those of s
      inside t only. */
  ghost predicate Rewritten(s: Store, s': Store, t: Tree, c: Cell, limit: nat)
    requires Shaped(t)
  {
    && TreeOps.Overwrite(t, c).Some?
    && Stored(s', TreeOps.Overwrite(t, c).value) && SameOutside(s, s', t, limit)
  }

  /** Rewriting the subtree u is rewriting the tree t. */
  ghost predicate Inside(s: Store, t: Tree, u: Tree, c: Cell, limit: nat)
    requires Shaped(t) && Shaped(u)
  {
    && (TreeOps.Overwrite(u, c).None? ==> TreeOps.Overwrite(t, c).None?)
    && forall s' :: Rewritten(s, s', u, c, limit) ==> Rewritten(s, s', t, c, limit)
  }

  lemma OverwriteKeepsPage(t: Tree, c: Cell)
    requires Shaped(t)
    ensures TreeOps.Overwrite(t, c).Some? ==> TreeOps.Overwrite(t, c).value.page == t.page
  {
  }

  lemma OverwriteFork(t: Tree, c: Cell)
    requires Shaped(t) && t.Fork?
    ensures var i := ChildIndex(t.keys, c.key);
      && i < |t.kids| && Shaped(t.kids[i])
      && var r := TreeOps.Overwrite(t.kids[i], c);
         TreeOps.Overwrite(t, c) == if r.None? then None else Some(Fork(t.page, t.keys, t.kids[i := r.value]))
  {
    assert t.kids[ChildIndex(t.keys, c.key)] in t.kids;
  }

  lemma RewrittenKid(s: Store, s': Store, t: Tree, c: Cell, limit: nat)
    requires Shaped(t) && t.Fork? && Apart(t, limit) && Stored(s, t)
    ensures var i := ChildIndex(t.keys, c.key);
      && i < |t.kids| && Shaped(t.kids[i])
      && (Rewritten(s, s', t.kids[i], c, limit) ==> Rewritten(s, s', t, c, limit))
  {
    OverwriteFork(t, c);
    var i := ChildIndex(t.keys, c.key);
    OverwriteKeepsPage(t.kids[i], c);
    hide Stored, SameOutside, Apart, TreeOps.Overwrite, Shaped;
    if Rewritten(s, s', t.kids[i], c, limit) {
      StoredReplace(s, s', t, i, TreeOps.Overwrite(t.kids[i], c).value, limit);
      InsideKid(s, s', t, i, limit);
    }
  }

  lemma InsideDeeper(s: Store, t: Tree, u: Tree, c: Cell, limit: nat)
    requires Shaped(t) && Shaped(u) && u.Fork? && Apart(u, limit) && Stored(s, u)
    requires Inside(s, t, u, c, limit)
    ensures var i := ChildIndex(u.keys, c.key);
      && i < |u.kids| && Shaped(u.kids[i]) && Inside(s, t, u.kids[i], c, limit)
  {
    OverwriteFork(u, c);
    hide Stored, SameOutside, Apart, TreeOps.Overwrite, Shaped, Rewritten;
    var kid := u.kids[ChildIndex(u.keys, c.key)];
    forall s' | Rewritten(s, s', kid, c, limit)
      ensures Rewritten(s, s', t, c, limit)
    {
      RewrittenKid(s, s', u, c, limit);
    }
  }

  lemma OverwriteStorable(cells: seq<Cell>, next: Option<nat>, c: Cell)
    requires Fits(Leaf(cells, next)) && Holds(cells, c.key) && IsI64(c.key) && |c.val| <= MAX_VALUE_SIZE
    ensures Storable(Leaf(OverwriteSorted(cells, c), next))
  {
    hide CellIndex;
  }

  /** The descent of `upsert` continues where the key is. */
  lemma OverwriteDescends(s: Store, t: Tree, u: Tree, c: Cell, limit: nat)
    requires Shaped(t) && Shaped(u) && u.Fork? && Apart(u, limit) && Stored(s, u)
    requires Inside(s, t, u, c, limit) && TreeOps.Search(u, c.key).Some?
    ensures var i := ChildIndex(u.keys, c.key);
      && i < |u.kids| && Shaped(u.kids[i]) && Inside(s, t, u.kids[i], c, limit)
      && Apart(u.kids[i], limit) && Stored(s, u.kids[i]) && u.kids[i].page < limit
      && TreeOps.Search(u.kids[i], c.key).Some?
  {
    var i := ChildIndex(u.keys, c.key);
    assert i < |u.kids| && u.kids[i] in u.kids;
    assert Stored(s, u.kids[i]);
    assert TreeOps.Search(u, c.key) == TreeOps.Search(u.kids[i], c.key);
    hide *;
    InsideDeeper(s, t, u, c, limit);
    KidApart(u, i, limit);
  }

  /** The end of `upsert`: the leaf is rewritten in place, or the write fails. */
  lemma OverwriteEnds(s: Store, s1: Store, s2: Store, t: Tree, u: Tree, c: Cell, limit: nat, ok: bool)
    requires Shaped(t) && u.Tip? && Inside(s, t, u, c, limit) && Holds(u.cells, c.key)
    requires Same(s, s1)
    requires var node := Leaf(OverwriteSorted(u.cells, c), u.next);
      && ok == (NodeSize(node) <= PAGE_SIZE)
      && if ok then InPage(s2, u.page, node) && SameBut(s1, s2, u.page, limit) else Same(s1, s2)
    ensures if ok then Rewritten(s, s2, t, c, limit) else TreeOps.Overwrite(t, c).None? && Same(s, s2)
  {
    if ok {
      assert Rewritten(s, s2, u, c, limit) by {
        hide InPage, ImgOf;
        assert TreeOps.Overwrite(u, c) == Some(Tip(u.page, OverwriteSorted(u.cells, c), u.next));
      }
    }
    hide ImgOf, Rewritten;
  }

  lemma InsideItself(s: Store, t: Tree, c: Cell, limit: nat)
    requires Shaped(t)
    ensures Inside(s, t, t, c, limit)
  {
    hide Rewritten;
  }

  lemma BelowThenOutside(s: Store, s1: Store, s2: Store, t: Tree, limit: nat, limit': nat)
    requires SameBelow(s, s1, limit) && SameOutside(s1, s2, t, limit') && limit <= limit'
    ensures SameOutside(s, s2, t, limit)
  {
    hide ImgOf;
  }

  lemma KeyIsFound(t: Tree, limit: nat, key: int)
    requires Whole(t, limit) && key in TreeOps.TableOf(t)
    ensures Shaped(t) && TreeOps.Search(t, key).Some?
  {
    TreeOps.SearchWhole(t, limit, key);
  }

  lemma HereItIs(t: Tree, key: int)
    requires t.Tip? && TreeOps.Search(t, key).Some?
    ensures Holds(t.cells, key)
  {
  }

  lemma KidsAreSmaller(t: Tree, i: nat)
    requires t.Fork? && i < |t.kids|
    ensures t decreases to t.kids[i]
  {
    assert t.kids[i] in t.kids;
  }

  lemma InsertNeverTooLarge(t: Tree, c: Cell, free: nat)
    requires Shaped(t)
    ensures |c.val| > MAX_VALUE_SIZE ==> TreeInsert.Insert(t, c, free) == (Err(ValueTooLarge), free)
    ensures !IsI64(c.key) ==> TreeInsert.Insert(t, c, free).0 != Err(DuplicateKey)
  {
    hide InsertAt;
  }

  lemma OverwriteTables(s: Store, s': Store, t: Tree, c: Cell, limit: nat)
    requires Whole(t, limit) && Shaped(t) && Rewritten(s, s', t, c, limit)
    requires IsI64(c.key) && |c.val| <= MAX_VALUE_SIZE
    ensures TreeOps.Overwrite(t, c).Some?
    ensures var t' := TreeOps.Overwrite(t, c).value;
      && t'.page == t.page && Shaped(t') && Apart(t', limit) && Stored(s', t') && Whole(t', limit)
      && TreeOps.TableOf(t') == TreeOps.TableOf(t)[c.key := c.val]
    ensures SameOutside(s, s', t, limit)
  {
    TreeOps.OverwriteWhole(t, limit, c);
    OverwriteKeepsPage(t, c);
    WholeShaped(TreeOps.Overwrite(t, c).value, limit);
  }

  // ---- range scans ---------------------------------------------------------------

  /** The key a scan descends for; below all keys if there is no lower bound. */
  function StartKey(lo: Option<int>): int {
    if lo.None? then I64_MIN - 1 else lo.value
  }

  /** The child a scan goes to. */
  lemma DescendScan(s: Store, t: Tree, lo: Option<int>, limit: nat)
    requires t.Fork? && Shaped(t) && Apart(t, limit) && Stored(s, t)
    ensures var i := if lo.None? then 0 else ChildIndex(t.keys, lo.value);
      && i < |t.kids| && Shaped(t.kids[i]) && Apart(t.kids[i], limit) && Stored(s, t.kids[i])
      && t.kids[i].page < limit && (t decreases to t.kids[i])
      && TreeBounds.LeafFor(t.kids[i], StartKey(lo)) == TreeBounds.LeafFor(t, StartKey(lo))
  {
    var i := if lo.None? then 0 else ChildIndex(t.keys, lo.value);
    assert lo.None? ==> ChildIndex(t.keys, StartKey(lo)) == 0;
    assert i < |t.kids| && t.kids[i] in t.kids;
    hide InPage, ImgOf, Stored, Apart;
    KidApart(t, i, limit);
  }

  /** What a scan relies on: the chain of leaves, each in its page, with the tree's
      cells in order, and nothing wanted left of the starting leaf. */
  lemma ScanFacts(s: Store, t: Tree, lo: Option<int>, hi: Option<int>, limit: nat)
    requires Whole(t, limit) && Stored(s, t)
    ensures Shaped(t)
    ensures var (ls, j) := (Leaves(t), LeafRank(t, StartKey(lo)));
      && j < |ls| && ls[j] == TreeBounds.LeafFor(t, StartKey(lo)) && Linked(ls, None)
      && CellsOf(ls) == Items(t) && Sorted(Items(t))
      && (forall l :: l in ls ==> l.Tip? && InPage(s, l.page, NodeOf(l)) && l.page < limit)
      && (forall l :: l in ls[..j] ==> l.Tip?)
      && Select(CellsOf(ls[..j]), lo, hi) == []
  {
    var k := StartKey(lo);
    SkippedLeaves(t, limit, k);
    LeafRankIs(t, k);
    LeavesItems(t);
    ItemsSorted(t, Height(t), I64_MIN, I64_LIMIT, None);
    ChainOrder(t, Height(t), I64_MIN, I64_LIMIT, None);
    hide Good, Items, Leaves, LeafRank, TreeBounds.LeafFor, Stored, InPage, Uses, ImgOf;
    forall l | l in Leaves(t)
      ensures InPage(s, l.page, NodeOf(l)) && l.page < limit
    {
      LeafStored(s, t, l);
    }
    var skipped := CellsOf(Leaves(t)[..LeafRank(t, k)]);
    if lo.Some? {
      SelectNothing(skipped, lo, hi);
    } else {
      assert skipped == [];
    }
  }

  /** The next leaf of the chain, or its end. */
  lemma NextLeaf(ls: seq<Tree>, j: nat)
    requires Linked(ls, None) && j < |ls|
    ensures ls[j].Tip?
    ensures ls[j].next == if j + 1 == |ls| then None else Some(ls[j + 1].page)
  {
    assert ls[j] in ls;
    assert ls[j].next == After(ls, j, None);
    if j + 1 < |ls| {
      assert ls[j + 1] in ls;
    }
  }

  lemma InPageSame(s: Store, s': Store, t: Tree)
    requires InPage(s, t.page, NodeOf(t)) && Same(s, s')
    ensures InPage(s', t.page, NodeOf(t))
  {
    hide ImgOf;
  }
}
