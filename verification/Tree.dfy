// The B+ tree as a value: the shape that a root page stands for, its contents,
// and the invariant every operation keeps.

module Tree {
  import opened Bytes
  import opened Cells
  import opened NodeCodec

  /** A subtree together with the page each of its nodes lives in. */
  datatype Tree =
    | Tip(page: nat, cells: seq<Cell>, next: Option<nat>)
    | Fork(page: nat, keys: seq<int>, kids: seq<Tree>)

  function PagesOf(ts: seq<Tree>): (r: seq<nat>)
    ensures |r| == |ts|
  {
    seq(|ts|, i requires 0 <= i < |ts| => ts[i].page)
  }

  /** The node stored in the tree's root page. */
  function NodeOf(t: Tree): Node {
    match t
    case Tip(_, cells, next) => Leaf(cells, next)
    case Fork(_, keys, kids) => Internal(keys, PagesOf(kids))
  }

  /** Every internal node has a separator between any two children, at least two of
      them, and children that are all leaves or all internal nodes. */
  predicate Shaped(t: Tree) {
    match t
    case Tip(_, _, _) => true
    case Fork(_, keys, kids) =>
      && |kids| == |keys| + 1 && 1 <= |keys|
      && forall k :: k in kids ==> Shaped(k) && k.Tip? == kids[0].Tip?
  }

  // ---- contents -----------------------------------------------------------

  /** All cells, left to right. */
  function Items(t: Tree): seq<Cell>
    decreases t, 0
  {
    match t
    case Tip(_, cells, _) => cells
    case Fork(_, _, kids) => ItemsAll(kids)
  }

  function ItemsAll(ts: seq<Tree>): seq<Cell>
    decreases ts, 1
  {
    if ts == [] then [] else Items(ts[0]) + ItemsAll(ts[1..])
  }

  /** How many nodes of the tree live in page p. */
  function Uses(t: Tree, p: nat): nat
    decreases t, 0
  {
    match t
    case Tip(q, _, _) => if p == q then 1 else 0
    case Fork(q, _, kids) => (if p == q then 1 else 0) + UsesAll(kids, p)
  }

  function UsesAll(ts: seq<Tree>, p: nat): nat
    decreases ts, 1
  {
    if ts == [] then 0 else Uses(ts[0], p) + UsesAll(ts[1..], p)
  }

  /** No two nodes share a page, and all pages are below `limit`. */
  ghost predicate Apart(t: Tree, limit: nat) {
    forall p: nat :: Uses(t, p) <= (if p < limit then 1 else 0)
  }

  function FirstPage(t: Tree): nat {
    match t
    case Tip(p, _, _) => p
    case Fork(p, _, kids) => if kids == [] then p else FirstPage(kids[0])
  }

  function Height(t: Tree): nat {
    match t
    case Tip(_, _, _) => 0
    case Fork(_, _, kids) => if kids == [] then 0 else 1 + Height(kids[0])
  }

  // ---- search positions ---------------------------------------------------

  /** `bisect_right(keys, k)` on a sorted list */
  function ChildIndex(keys: seq<int>, k: int): (i: nat)
    ensures i <= |keys|
    ensures forall j :: 0 <= j < i ==> keys[j] <= k
    ensures i < |keys| ==> k < keys[i]
  {
    if keys == [] || k < keys[0] then 0 else 1 + ChildIndex(keys[1..], k)
  }

  // ---- the invariant ------------------------------------------------------

  ghost predicate Rising(keys: seq<int>, lo: int, hi: int) {
    && lo <= hi
    && (forall i :: 0 <= i < |keys| ==> lo <= keys[i] <= hi && IsI64(keys[i]))
    && (forall i, j :: 0 <= i < j < |keys| ==> keys[i] <= keys[j])
  }

  /** The interval of keys that child i may hold, and the leaf chained after it. */
  function Lo(keys: seq<int>, i: nat, lo: int): int
    requires i <= |keys|
  {
    if i == 0 then lo else keys[i - 1]
  }

  function Hi(keys: seq<int>, i: nat, hi: int): int
    requires i <= |keys|
  {
    if i == |keys| then hi else keys[i]
  }

  function After(kids: seq<Tree>, i: nat, after: Option<nat>): Option<nat>
    requires i < |kids|
  {
    if i + 1 == |kids| then after else Some(FirstPage(kids[i + 1]))
  }

  const MAX_VALUE_SIZE: nat := PAGE_SIZE / 2

  /** Subtree t has height h (a leaf has height 0), holds keys in [lo, hi) only,
      every node fits its page, and the leaf chain leaves it for `after`. A
      separator is at most every key to its right and above every key to its left;
      it need not be equal to any key. */
  ghost predicate Good(t: Tree, h: nat, lo: int, hi: int, after: Option<nat>)
    decreases h, 0
  {
    match t
    case Tip(p, cells, next) =>
      && h == 0 && lo <= hi && p < NO_PAGE
      && Sorted(cells) && Within(cells, lo, hi)
      && next == after && Fits(Leaf(cells, next))
      && (forall i :: 0 <= i < |cells| ==> |cells[i].val| <= MAX_VALUE_SIZE)
    case Fork(p, keys, kids) =>
      && h > 0 && p < NO_PAGE && 1 <= |keys| <= MAX_KEYS
      && GoodForest(keys, kids, h - 1, lo, hi, after)
  }

  /** Sibling subtrees with the separators between them. */
  ghost predicate GoodForest(keys: seq<int>, kids: seq<Tree>, h: nat, lo: int, hi: int, after: Option<nat>)
    decreases h, 1
  {
    && |kids| == |keys| + 1
    && Rising(keys, lo, hi)
    && forall i :: 0 <= i < |kids| ==> Good(kids[i], h, Lo(keys, i, lo), Hi(keys, i, hi), After(kids, i, after))
  }

  /** A delete may leave a node with a single child, until its parent repairs it. */
  ghost predicate GoodTop(t: Tree, h: nat, lo: int, hi: int, after: Option<nat>) {
    match t
    case Tip(_, _, _) => Good(t, h, lo, hi, after)
    case Fork(p, keys, kids) =>
      h > 0 && p < NO_PAGE && |keys| <= MAX_KEYS && GoodForest(keys, kids, h - 1, lo, hi, after)
  }

  /** The most separators an internal page has room for. */
  const MAX_KEYS: nat := 340

  /** A tree with nothing around it, in a store with `free` pages. */
  ghost predicate Whole(t: Tree, free: nat) {
    Good(t, Height(t), I64_MIN, I64_LIMIT, None) && Apart(t, free)
  }

  lemma {:induction false} GoodHeight(t: Tree, h: nat, lo: int, hi: int, after: Option<nat>)
    requires GoodTop(t, h, lo, hi, after)
    ensures Height(t) == h
    decreases h
  {
    match t
    case Tip(_, _, _) =>
    case Fork(_, keys, kids) =>
      assert Good(kids[0], h - 1, Lo(keys, 0, lo), Hi(keys, 0, hi), After(kids, 0, after));
      GoodHeight(kids[0], h - 1, Lo(keys, 0, lo), Hi(keys, 0, hi), After(kids, 0, after));
  }

  // ---- folds over forests -------------------------------------------------

  lemma {:induction false} ItemsConcat(a: seq<Tree>, b: seq<Tree>)
    ensures ItemsAll(a + b) == ItemsAll(a) + ItemsAll(b)
    decreases |a|
  {
    if a == [] {
      assert a + b == b;
    } else {
      assert (a + b)[1..] == a[1..] + b;
      ItemsConcat(a[1..], b);
    }
  }

  lemma {:induction false} UsesConcat(a: seq<Tree>, b: seq<Tree>, p: nat)
    ensures UsesAll(a + b, p) == UsesAll(a, p) + UsesAll(b, p)
    decreases |a|
  {
    if a == [] {
      assert a + b == b;
    } else {
      assert (a + b)[1..] == a[1..] + b;
      UsesConcat(a[1..], b, p);
    }
  }

  /** The folds over a run of siblings w standing between l and r. */
  lemma ItemsAround(l: seq<Tree>, w: seq<Tree>, r: seq<Tree>)
    ensures ItemsAll(l + w + r) == ItemsAll(l) + ItemsAll(w) + ItemsAll(r)
  {
    ItemsConcat(l, w);
    ItemsConcat(l + w, r);
  }

  lemma UsesAround(l: seq<Tree>, w: seq<Tree>, r: seq<Tree>, p: nat)
    ensures UsesAll(l + w + r, p) == UsesAll(l, p) + UsesAll(w, p) + UsesAll(r, p)
  {
    UsesConcat(l, w, p);
    UsesConcat(l + w, r, p);
  }

  lemma Single(t: Tree)
    ensures ItemsAll([t]) == Items(t) && forall p :: UsesAll([t], p) == Uses(t, p)
  {
    assert [t][1..] == [];
  }

  lemma Pair(a: Tree, b: Tree)
    ensures ItemsAll([a, b]) == Items(a) + Items(b)
    ensures forall p :: UsesAll([a, b], p) == Uses(a, p) + Uses(b, p)
  {
    assert [a, b][1..] == [b];
    Single(b);
  }

  /** Child i picked out of its siblings. */
  lemma ItemsAt(kids: seq<Tree>, i: nat)
    requires i < |kids|
    ensures ItemsAll(kids) == ItemsAll(kids[..i]) + Items(kids[i]) + ItemsAll(kids[i + 1..])
  {
    hide Items, ItemsAll;
    Parts(kids, i);
    ItemsAround(kids[..i], [kids[i]], kids[i + 1..]);
    Single(kids[i]);
  }

  lemma UsesAt(kids: seq<Tree>, i: nat, p: nat)
    requires i < |kids|
    ensures UsesAll(kids, p) == UsesAll(kids[..i], p) + Uses(kids[i], p) + UsesAll(kids[i + 1..], p)
  {
    hide Uses, UsesAll;
    Parts(kids, i);
    UsesAround(kids[..i], [kids[i]], kids[i + 1..], p);
    Single(kids[i]);
  }

  /** Two children together use a page at most as often as all of them do. */
  lemma UsesOfTwo(kids: seq<Tree>, i: nat, j: nat, p: nat)
    requires i < j < |kids|
    ensures Uses(kids[i], p) + Uses(kids[j], p) <= UsesAll(kids, p)
  {
    hide Uses, UsesAll;
    var rest := kids[i + 1..];
    UsesAt(kids, i, p);
    assert rest[j - i - 1] == kids[j];
    UsesAt(rest, j - i - 1, p);
  }

  lemma {:induction false} FirstPageUsed(t: Tree)
    ensures Uses(t, FirstPage(t)) > 0
    decreases t
  {
    match t
    case Tip(_, _, _) =>
    case Fork(_, _, kids) =>
      if kids != [] {
        FirstPageUsed(kids[0]);
        UsesAt(kids, 0, FirstPage(t));
      }
  }

  // ---- order --------------------------------------------------------------

  /** The contents of a good tree are in ascending key order, inside its bounds. */
  lemma {:induction false} ItemsSorted(t: Tree, h: nat, lo: int, hi: int, after: Option<nat>)
    requires GoodTop(t, h, lo, hi, after)
    ensures Sorted(Items(t)) && Within(Items(t), lo, hi)
    decreases h, 0, 0
  {
    match t
    case Tip(_, _, _) =>
    case Fork(_, keys, kids) =>
      ForestSorted(keys, kids, h - 1, lo, hi, after);
  }

  lemma {:induction false} ForestSorted(keys: seq<int>, kids: seq<Tree>, h: nat, lo: int, hi: int, after: Option<nat>)
    requires GoodForest(keys, kids, h, lo, hi, after)
    ensures Sorted(ItemsAll(kids)) && Within(ItemsAll(kids), lo, hi)
    decreases h, 1, |kids|
  {
    assert Good(kids[0], h, lo, Hi(keys, 0, hi), After(kids, 0, after));
    ItemsSorted(kids[0], h, lo, Hi(keys, 0, hi), After(kids, 0, after));
    if keys == [] {
      assert kids == [kids[0]];
      Single(kids[0]);
    } else {
      Cut(keys, kids, 0, h, lo, hi, after);
      ForestSorted(keys[1..], kids[1..], h, keys[0], hi, after);
      SortedConcat(Items(kids[0]), ItemsAll(kids[1..]), lo, keys[0], hi);
    }
  }

  lemma GoodBounds(t: Tree, h: nat, lo: int, hi: int, after: Option<nat>)
    requires Good(t, h, lo, hi, after)
    ensures lo <= hi
  {
  }

  // ---- cutting and joining forests ----------------------------------------

  /** Child i of a forest is good within its bounds. */
  ghost predicate KidFits(keys: seq<int>, kids: seq<Tree>, i: nat, h: nat, lo: int, hi: int, after: Option<nat>)
    requires |kids| == |keys| + 1 && i < |kids|
  {
    Good(kids[i], h, Lo(keys, i, lo), Hi(keys, i, hi), After(kids, i, after))
  }

  ghost predicate AllFit(keys: seq<int>, kids: seq<Tree>, h: nat, lo: int, hi: int, after: Option<nat>)
    requires |kids| == |keys| + 1
  {
    forall i :: 0 <= i < |kids| ==> KidFits(keys, kids, i, h, lo, hi, after)
  }

  lemma ForestIs(keys: seq<int>, kids: seq<Tree>, h: nat, lo: int, hi: int, after: Option<nat>)
    ensures GoodForest(keys, kids, h, lo, hi, after) <==>
            |kids| == |keys| + 1 && Rising(keys, lo, hi) && AllFit(keys, kids, h, lo, hi, after)
  {
    hide Good, Rising, Lo, Hi, After;
    if |kids| == |keys| + 1 {
      assert forall i :: 0 <= i < |kids| ==>
        (KidFits(keys, kids, i, h, lo, hi, after) <==>
         Good(kids[i], h, Lo(keys, i, lo), Hi(keys, i, hi), After(kids, i, after)));
    }
  }

  lemma FitsAt(keys: seq<int>, kids: seq<Tree>, i: nat, h: nat, lo: int, hi: int, after: Option<nat>)
    requires |kids| == |keys| + 1 && i < |kids| && AllFit(keys, kids, h, lo, hi, after)
    ensures KidFits(keys, kids, i, h, lo, hi, after)
  {
    hide KidFits;
  }

  lemma CutLeft(keys: seq<int>, kids: seq<Tree>, m: nat, i: nat, h: nat, lo: int, hi: int, after: Option<nat>)
    requires |kids| == |keys| + 1 && i <= m < |keys| && KidFits(keys, kids, i, h, lo, hi, after)
    ensures KidFits(keys[..m], kids[..m + 1], i, h, lo, keys[m], Some(FirstPage(kids[m + 1])))
  {
    hide Good, FirstPage;
  }

  lemma CutRight(keys: seq<int>, kids: seq<Tree>, m: nat, i: nat, h: nat, lo: int, hi: int, after: Option<nat>)
    requires |kids| == |keys| + 1 && m < |keys| && i + m < |keys| && KidFits(keys, kids, m + 1 + i, h, lo, hi, after)
    ensures KidFits(keys[m + 1..], kids[m + 1..], i, h, keys[m], hi, after)
  {
    hide Good, FirstPage;
  }

  lemma CutRising(keys: seq<int>, m: nat, lo: int, hi: int)
    requires Rising(keys, lo, hi) && m < |keys|
    ensures Rising(keys[..m], lo, keys[m]) && Rising(keys[m + 1..], keys[m], hi)
  {
  }

  /** A forest falls into two at any separator. */
  lemma Cut(keys: seq<int>, kids: seq<Tree>, m: nat, h: nat, lo: int, hi: int, after: Option<nat>)
    requires GoodForest(keys, kids, h, lo, hi, after) && m < |keys|
    ensures |kids| == |keys| + 1
    ensures GoodForest(keys[..m], kids[..m + 1], h, lo, keys[m], Some(FirstPage(kids[m + 1])))
    ensures GoodForest(keys[m + 1..], kids[m + 1..], h, keys[m], hi, after)
  {
    hide *;
    ForestIs(keys, kids, h, lo, hi, after);
    CutRising(keys, m, lo, hi);
    var k1, t1, k2, t2 := keys[..m], kids[..m + 1], keys[m + 1..], kids[m + 1..];
    var mid := Some(FirstPage(kids[m + 1]));
    forall i | 0 <= i < |t1|
      ensures KidFits(k1, t1, i, h, lo, keys[m], mid)
    {
      FitsAt(keys, kids, i, h, lo, hi, after);
      CutLeft(keys, kids, m, i, h, lo, hi, after);
    }
    forall i | 0 <= i < |t2|
      ensures KidFits(k2, t2, i, h, keys[m], hi, after)
    {
      FitsAt(keys, kids, m + 1 + i, h, lo, hi, after);
      CutRight(keys, kids, m, i, h, lo, hi, after);
    }
    AllFitFrom(k1, t1, h, lo, keys[m], mid);
    AllFitFrom(k2, t2, h, keys[m], hi, after);
    ForestIs(k1, t1, h, lo, keys[m], mid);
    ForestIs(k2, t2, h, keys[m], hi, after);
  }

  lemma AllFitFrom(keys: seq<int>, kids: seq<Tree>, h: nat, lo: int, hi: int, after: Option<nat>)
    requires |kids| == |keys| + 1
    requires forall i :: 0 <= i < |kids| ==> KidFits(keys, kids, i, h, lo, hi, after)
    ensures AllFit(keys, kids, h, lo, hi, after)
  {
    hide KidFits;
  }

  /** Two forests become one around the separator where they meet. */
  lemma Join(k1: seq<int>, t1: seq<Tree>, s: int, k2: seq<int>, t2: seq<Tree>,
             h: nat, lo: int, hi: int, after: Option<nat>)
    requires t2 != [] && IsI64(s)
    requires GoodForest(k1, t1, h, lo, s, Some(FirstPage(t2[0])))
    requires GoodForest(k2, t2, h, s, hi, after)
    ensures GoodForest(k1 + [s] + k2, t1 + t2, h, lo, hi, after)
  {
    hide Good;
    var keys, kids := k1 + [s] + k2, t1 + t2;
    var mid := Some(FirstPage(t2[0]));
    forall i | 0 <= i < |kids|
      ensures Good(kids[i], h, Lo(keys, i, lo), Hi(keys, i, hi), After(kids, i, after))
    {
      if i < |t1| {
        assert Good(t1[i], h, Lo(k1, i, lo), Hi(k1, i, s), After(t1, i, mid));
      } else {
        var j := i - |t1|;
        assert Good(t2[j], h, Lo(k2, j, s), Hi(k2, j, hi), After(t2, j, after));
      }
    }
  }

  // ---- replacing children -------------------------------------------------

  lemma Replace(keys: seq<int>, kids: seq<Tree>, i: nat, kid: Tree,
                h: nat, lo: int, hi: int, after: Option<nat>)
    requires GoodForest(keys, kids, h, lo, hi, after) && i < |kids|
    requires Good(kid, h, Lo(keys, i, lo), Hi(keys, i, hi), After(kids, i, after))
    requires FirstPage(kid) == FirstPage(kids[i])
    ensures GoodForest(keys, kids[i := kid], h, lo, hi, after)
  {
    hide Good;
    var kids' := kids[i := kid];
    forall j | 0 <= j < |kids'|
      ensures Good(kids'[j], h, Lo(keys, j, lo), Hi(keys, j, hi), After(kids', j, after))
    {
      assert Good(kids[j], h, Lo(keys, j, lo), Hi(keys, j, hi), After(kids, j, after));
    }
  }

  lemma InsertRising(keys: seq<int>, i: nat, s: int, lo: int, hi: int)
    requires Rising(keys, lo, hi) && i <= |keys| && IsI64(s)
    requires Lo(keys, i, lo) <= s <= Hi(keys, i, hi)
    ensures Rising(keys[..i] + [s] + keys[i..], lo, hi)
  {
  }

  /** A child before or behind the one that is split. */
  lemma BesideSplit(keys: seq<int>, kids: seq<Tree>, i: nat, j: nat, l: Tree, s: int, r: Tree,
                    h: nat, lo: int, hi: int, after: Option<nat>)
    requires |kids| == |keys| + 1 && i < |kids| && j < |kids| && j != i && KidFits(keys, kids, j, h, lo, hi, after)
    requires FirstPage(l) == FirstPage(kids[i])
    ensures KidFits(keys[..i] + [s] + keys[i..], kids[..i] + [l, r] + kids[i + 1..], if j < i then j else j + 1,
                    h, lo, hi, after)
  {
    hide Good, FirstPage;
    var keys', kids' := keys[..i] + [s] + keys[i..], kids[..i] + [l, r] + kids[i + 1..];
    var x := if j < i then j else j + 1;
    assert kids'[x] == kids[j] && Lo(keys', x, lo) == Lo(keys, j, lo) && Hi(keys', x, hi) == Hi(keys, j, hi);
    assert After(kids', x, after) == After(kids, j, after);
  }

  lemma SplitHalves(keys: seq<int>, kids: seq<Tree>, i: nat, l: Tree, s: int, r: Tree,
                    h: nat, lo: int, hi: int, after: Option<nat>)
    requires |kids| == |keys| + 1 && i < |kids|
    requires Good(l, h, Lo(keys, i, lo), s, Some(FirstPage(r)))
    requires Good(r, h, s, Hi(keys, i, hi), After(kids, i, after))
    ensures var keys', kids' := keys[..i] + [s] + keys[i..], kids[..i] + [l, r] + kids[i + 1..];
      KidFits(keys', kids', i, h, lo, hi, after) && KidFits(keys', kids', i + 1, h, lo, hi, after)
  {
    hide Good, FirstPage;
    var keys', kids' := keys[..i] + [s] + keys[i..], kids[..i] + [l, r] + kids[i + 1..];
    assert kids'[i] == l && kids'[i + 1] == r && Lo(keys', i, lo) == Lo(keys, i, lo);
    assert Hi(keys', i + 1, hi) == Hi(keys, i, hi) && After(kids', i + 1, after) == After(kids, i, after);
  }

  /** Child i becomes two children around a new separator. */
  lemma ReplaceByTwo(keys: seq<int>, kids: seq<Tree>, i: nat, l: Tree, s: int, r: Tree,
                     h: nat, lo: int, hi: int, after: Option<nat>)
    requires GoodForest(keys, kids, h, lo, hi, after) && i < |kids| && IsI64(s)
    requires Good(l, h, Lo(keys, i, lo), s, Some(FirstPage(r)))
    requires Good(r, h, s, Hi(keys, i, hi), After(kids, i, after))
    requires FirstPage(l) == FirstPage(kids[i])
    ensures GoodForest(keys[..i] + [s] + keys[i..], kids[..i] + [l, r] + kids[i + 1..], h, lo, hi, after)
  {
    hide *;
    ForestIs(keys, kids, h, lo, hi, after);
    var keys', kids' := keys[..i] + [s] + keys[i..], kids[..i] + [l, r] + kids[i + 1..];
    GoodBounds(l, h, Lo(keys, i, lo), s, Some(FirstPage(r)));
    GoodBounds(r, h, s, Hi(keys, i, hi), After(kids, i, after));
    InsertRising(keys, i, s, lo, hi);
    SplitHalves(keys, kids, i, l, s, r, h, lo, hi, after);
    forall x | 0 <= x < |kids'|
      ensures KidFits(keys', kids', x, h, lo, hi, after)
    {
      if x < i {
        FitsAt(keys, kids, x, h, lo, hi, after);
        BesideSplit(keys, kids, i, x, l, s, r, h, lo, hi, after);
      } else if x > i + 1 {
        FitsAt(keys, kids, x - 1, h, lo, hi, after);
        BesideSplit(keys, kids, i, x - 1, l, s, r, h, lo, hi, after);
      }
    }
    AllFitFrom(keys', kids', h, lo, hi, after);
    ForestIs(keys', kids', h, lo, hi, after);
  }

  /** Children i and i+1 are replaced, with a new separator between them. */
  lemma ReplaceTwo(keys: seq<int>, kids: seq<Tree>, i: nat, l: Tree, s: int, r: Tree,
                   h: nat, lo: int, hi: int, after: Option<nat>)
    requires |kids| == |keys| + 1 && Rising(keys, lo, hi) && i + 1 < |kids| && IsI64(s)
    requires forall j :: 0 <= j < |kids| && j != i && j != i + 1 ==>
      Good(kids[j], h, Lo(keys, j, lo), Hi(keys, j, hi), After(kids, j, after))
    requires Good(l, h, Lo(keys, i, lo), s, Some(FirstPage(r)))
    requires Good(r, h, s, Hi(keys, i + 1, hi), After(kids, i + 1, after))
    requires FirstPage(l) == FirstPage(kids[i])
    ensures GoodForest(keys[i := s], kids[i := l][i + 1 := r], h, lo, hi, after)
  {
    hide Good, FirstPage;
    var keys', kids' := keys[i := s], kids[i := l][i + 1 := r];
    GoodBounds(l, h, Lo(keys, i, lo), s, Some(FirstPage(r)));
    GoodBounds(r, h, s, Hi(keys, i + 1, hi), After(kids, i + 1, after));
    NewSeparator(keys, i, s, lo, hi);
    hide Rising;
    forall j | 0 <= j < |kids'|
      ensures Good(kids'[j], h, Lo(keys', j, lo), Hi(keys', j, hi), After(kids', j, after))
    {
      if j != i && j != i + 1 {
        assert Good(kids[j], h, Lo(keys, j, lo), Hi(keys, j, hi), After(kids, j, after));
      }
    }
  }

  lemma NewSeparator(keys: seq<int>, i: nat, s: int, lo: int, hi: int)
    requires Rising(keys, lo, hi) && i < |keys| && IsI64(s) && Lo(keys, i, lo) <= s <= Hi(keys, i + 1, hi)
    ensures Rising(keys[i := s], lo, hi)
  {
  }

  /** A child before or behind the two that become one. */
  lemma BesideMerge(keys: seq<int>, kids: seq<Tree>, i: nat, j: nat, m: Tree,
                    h: nat, lo: int, hi: int, after: Option<nat>)
    requires |kids| == |keys| + 1 && i + 1 < |kids| && j < |kids| && j != i && j != i + 1
    requires KidFits(keys, kids, j, h, lo, hi, after) && FirstPage(m) == FirstPage(kids[i])
    ensures KidFits(keys[..i] + keys[i + 1..], kids[..i] + [m] + kids[i + 2..], if j < i then j else j - 1,
                    h, lo, hi, after)
  {
    hide Good, FirstPage;
    var keys', kids' := keys[..i] + keys[i + 1..], kids[..i] + [m] + kids[i + 2..];
    var x := if j < i then j else j - 1;
    assert kids'[x] == kids[j] && Lo(keys', x, lo) == Lo(keys, j, lo) && Hi(keys', x, hi) == Hi(keys, j, hi);
    assert After(kids', x, after) == After(kids, j, after);
  }

  lemma MergedKid(keys: seq<int>, kids: seq<Tree>, i: nat, m: Tree, h: nat, lo: int, hi: int, after: Option<nat>)
    requires |kids| == |keys| + 1 && i + 1 < |kids|
    requires Good(m, h, Lo(keys, i, lo), Hi(keys, i + 1, hi), After(kids, i + 1, after))
    ensures KidFits(keys[..i] + keys[i + 1..], kids[..i] + [m] + kids[i + 2..], i, h, lo, hi, after)
  {
    hide Good, FirstPage;
    var keys', kids' := keys[..i] + keys[i + 1..], kids[..i] + [m] + kids[i + 2..];
    assert kids'[i] == m && Lo(keys', i, lo) == Lo(keys, i, lo) && Hi(keys', i, hi) == Hi(keys, i + 1, hi);
    assert After(kids', i, after) == After(kids, i + 1, after);
  }

  lemma MergedRising(keys: seq<int>, i: nat, lo: int, hi: int)
    requires Rising(keys, lo, hi) && i < |keys|
    ensures Rising(keys[..i] + keys[i + 1..], lo, hi)
  {
  }

  /** Children i and i+1 become one. */
  lemma ReplaceByOne(keys: seq<int>, kids: seq<Tree>, i: nat, m: Tree,
                     h: nat, lo: int, hi: int, after: Option<nat>)
    requires |kids| == |keys| + 1 && Rising(keys, lo, hi) && i + 1 < |kids|
    requires forall j :: 0 <= j < |kids| && j != i && j != i + 1 ==>
      Good(kids[j], h, Lo(keys, j, lo), Hi(keys, j, hi), After(kids, j, after))
    requires Good(m, h, Lo(keys, i, lo), Hi(keys, i + 1, hi), After(kids, i + 1, after))
    requires FirstPage(m) == FirstPage(kids[i])
    ensures GoodForest(keys[..i] + keys[i + 1..], kids[..i] + [m] + kids[i + 2..], h, lo, hi, after)
  {
    hide Good, FirstPage, Lo, Hi, After, Rising, GoodForest;
    assert forall j :: 0 <= j < |kids| && j != i && j != i + 1 ==> KidFits(keys, kids, j, h, lo, hi, after);
    hide KidFits;
    var keys', kids' := keys[..i] + keys[i + 1..], kids[..i] + [m] + kids[i + 2..];
    MergedRising(keys, i, lo, hi);
    MergedKid(keys, kids, i, m, h, lo, hi, after);
    forall x | 0 <= x < |kids'|
      ensures KidFits(keys', kids', x, h, lo, hi, after)
    {
      if x < i {
        BesideMerge(keys, kids, i, x, m, h, lo, hi, after);
      } else if x > i {
        BesideMerge(keys, kids, i, x + 1, m, h, lo, hi, after);
      }
    }
    AllFitFrom(keys', kids', h, lo, hi, after);
    ForestIs(keys', kids', h, lo, hi, after);
  }
}
