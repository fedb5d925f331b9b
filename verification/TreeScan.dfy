// The leaf chain, and what a range scan along it yields.

module TreeScan {
  import opened Bytes
  import opened Cells
  import opened NodeCodec
  import opened Tree
  import opened TreeInsert
  import opened TreeDelete
  import opened TreeBounds

  /** The tree's leaves, left to right. */
  function Leaves(t: Tree): seq<Tree>
    decreases t, 0
  {
    match t
    case Tip(_, _, _) => [t]
    case Fork(_, _, kids) => LeavesAll(kids)
  }

  function LeavesAll(ts: seq<Tree>): seq<Tree>
    decreases ts, 1
  {
    if ts == [] then [] else Leaves(ts[0]) + LeavesAll(ts[1..])
  }

  /** The cells of a run of leaves. */
  function CellsOf(ls: seq<Tree>): seq<Cell>
    requires forall l :: l in ls ==> l.Tip?
  {
    if ls == [] then [] else ls[0].cells + CellsOf(ls[1..])
  }

  /** Each leaf is chained to the next one, the last to `after`. */
  ghost predicate Linked(ls: seq<Tree>, after: Option<nat>) {
    && (forall l :: l in ls ==> l.Tip?)
    && forall j :: 0 <= j < |ls| ==> ls[j].next == After(ls, j, after)
  }

  lemma {:induction false} LeavesConcat(a: seq<Tree>, b: seq<Tree>)
    ensures LeavesAll(a + b) == LeavesAll(a) + LeavesAll(b)
    decreases |a|
  {
    if a == [] {
      assert a + b == b;
    } else {
      assert (a + b)[1..] == a[1..] + b;
      LeavesConcat(a[1..], b);
    }
  }

  lemma {:induction false} CellsOfConcat(a: seq<Tree>, b: seq<Tree>)
    requires forall l :: l in a + b ==> l.Tip?
    requires forall l :: l in a ==> l.Tip?
    requires forall l :: l in b ==> l.Tip?
    ensures CellsOf(a + b) == CellsOf(a) + CellsOf(b)
    decreases |a|
  {
    if a == [] {
      assert a + b == b;
    } else {
      assert (a + b)[1..] == a[1..] + b;
      CellsOfConcat(a[1..], b);
    }
  }

  /** The leaves hold the tree's cells. */
  lemma {:induction false} LeavesItems(t: Tree)
    ensures forall l :: l in Leaves(t) ==> l.Tip?
    ensures CellsOf(Leaves(t)) == Items(t)
    decreases t, 0
  {
    match t
    case Tip(_, cells, _) =>
      assert [t][1..] == [];
    case Fork(_, _, kids) => LeavesItemsAll(kids);
  }

  lemma {:induction false} LeavesItemsAll(ts: seq<Tree>)
    ensures forall l :: l in LeavesAll(ts) ==> l.Tip?
    ensures CellsOf(LeavesAll(ts)) == ItemsAll(ts)
    decreases ts, 1
  {
    if ts != [] {
      LeavesItems(ts[0]);
      LeavesItemsAll(ts[1..]);
      CellsOfConcat(Leaves(ts[0]), LeavesAll(ts[1..]));
    }
  }

  lemma LinkedConcat(a: seq<Tree>, b: seq<Tree>, after: Option<nat>)
    requires b != [] && Linked(a, Some(b[0].page)) && Linked(b, after)
    ensures Linked(a + b, after)
  {
    var ls := a + b;
    forall j | 0 <= j < |ls|
      ensures ls[j].next == After(ls, j, after)
    {
      if j < |a| {
        assert a[j].next == After(a, j, Some(b[0].page));
        assert a[j] in a;
      } else {
        assert b[j - |a|].next == After(b, j - |a|, after);
        assert b[j - |a|] in b;
      }
      assert ls[j] in ls;
      if j + 1 < |ls| {
        assert ls[j + 1] in ls;
      }
    }
  }

  /** The chain visits exactly the tree's leaves, in order, and starts at FirstPage. */
  lemma {:induction false} ChainOrder(t: Tree, h: nat, lo: int, hi: int, after: Option<nat>)
    requires Good(t, h, lo, hi, after)
    ensures Leaves(t) != [] && Leaves(t)[0].page == FirstPage(t)
    ensures Linked(Leaves(t), after)
    decreases h, 0, 0
  {
    match t
    case Tip(_, _, _) =>
    case Fork(_, keys, kids) => ForestChain(keys, kids, h - 1, lo, hi, after);
  }

  lemma {:induction false} ForestChain(keys: seq<int>, kids: seq<Tree>, h: nat, lo: int, hi: int, after: Option<nat>)
    requires GoodForest(keys, kids, h, lo, hi, after)
    ensures LeavesAll(kids) != [] && LeavesAll(kids)[0].page == FirstPage(kids[0])
    ensures Linked(LeavesAll(kids), after)
    decreases h, 1, |kids|
  {
    assert Good(kids[0], h, lo, Hi(keys, 0, hi), After(kids, 0, after));
    ChainOrder(kids[0], h, lo, Hi(keys, 0, hi), After(kids, 0, after));
    if keys == [] {
      assert kids[1..] == [];
      assert LeavesAll(kids) == Leaves(kids[0]);
    } else {
      Cut(keys, kids, 0, h, lo, hi, after);
      ForestChain(keys[1..], kids[1..], h, keys[0], hi, after);
      hide Good, GoodForest, Leaves, Linked;
      LinkedConcat(Leaves(kids[0]), LeavesAll(kids[1..]), after);
    }
  }

  // ---- where a scan starts ---------------------------------------------------------

  /** How many leaves stand left of the one that key k is routed to. */
  function LeafRank(t: Tree, k: int): nat
    requires Shaped(t)
    decreases t
  {
    match t
    case Tip(_, _, _) => 0
    case Fork(_, keys, kids) =>
      var i := ChildIndex(keys, k);
      |LeavesAll(kids[..i])| + LeafRank(kids[i], k)
  }

  lemma LeavesAt(kids: seq<Tree>, i: nat)
    requires i < |kids|
    ensures LeavesAll(kids) == LeavesAll(kids[..i]) + Leaves(kids[i]) + LeavesAll(kids[i + 1..])
  {
    LeavesOfOne(kids[i]);
    hide *;
    Parts(kids, i);
    LeavesConcat(kids[..i] + [kids[i]], kids[i + 1..]);
    LeavesConcat(kids[..i], [kids[i]]);
  }

  lemma LeavesOfOne(t: Tree)
    ensures LeavesAll([t]) == Leaves(t)
  {
    assert [t][1..] == [];
  }

  /** The descent for k ends at a leaf of the chain. */
  lemma {:induction false} LeafRankIs(t: Tree, k: int)
    requires Shaped(t)
    ensures LeafRank(t, k) < |Leaves(t)| && Leaves(t)[LeafRank(t, k)] == LeafFor(t, k)
    decreases t
  {
    if t.Fork? {
      var i := ChildIndex(t.keys, k);
      assert t.kids[i] in t.kids;
      LeafRankIs(t.kids[i], k);
      hide Leaves, LeavesAll, ChildIndex;
      LeavesAt(t.kids, i);
      LeavesOfFork(t);
    }
  }

  lemma LeavesOfFork(t: Tree)
    requires t.Fork?
    ensures Leaves(t) == LeavesAll(t.kids)
  {
  }

  /** All these are leaves, with keys below k only. */
  ghost predicate LeavesBelow(ls: seq<Tree>, k: int) {
    (forall l :: l in ls ==> l.Tip?) && AllBelow(CellsOf(ls), k)
  }

  /** Every leaf left of it holds keys below k only, even if separators lag behind. */
  lemma {:induction false} LeavesBefore(t: Tree, k: int, h: nat, lo: int, hi: int, after: Option<nat>)
    requires Shaped(t) && Good(t, h, lo, hi, after) && lo <= k < hi
    ensures LeafRank(t, k) <= |Leaves(t)|
    ensures LeavesBelow(Leaves(t)[..LeafRank(t, k)], k)
    decreases h
  {
    hide *;
    LeafRankIs(t, k);
    if t.Fork? {
      var i := ChildIndex(t.keys, k);
      ForkKid(t, k, h, lo, hi, after);
      RankInKid(t, k);
      LeavesBefore(t.kids[i], k, h - 1, Lo(t.keys, i, lo), Hi(t.keys, i, hi), After(t.kids, i, after));
      KidsBelow(t.kids[..i], k);
      LeavesAt(t.kids, i);
      JoinBefore(LeavesAll(t.kids[..i]), Leaves(t.kids[i]), LeavesAll(t.kids[i + 1..]), LeafRank(t.kids[i], k), k);
    } else {
      NothingBefore(t, k);
    }
  }

  lemma NothingBefore(t: Tree, k: int)
    requires t.Tip?
    ensures LeafRank(t, k) == 0 && LeavesBelow(Leaves(t)[..0], k)
  {
  }

  lemma RankInKid(t: Tree, k: int)
    requires t.Fork? && Shaped(t)
    ensures var i := ChildIndex(t.keys, k);
      && i < |t.kids| && Shaped(t.kids[i]) && Leaves(t) == LeavesAll(t.kids)
      && LeafRank(t, k) == |LeavesAll(t.kids[..i])| + LeafRank(t.kids[i], k)
  {
    hide Leaves, LeavesAll;
    LeavesOfFork(t);
  }

  lemma KidsBelow(kids: seq<Tree>, k: int)
    requires AllBelow(ItemsAll(kids), k)
    ensures LeavesBelow(LeavesAll(kids), k)
  {
    LeavesItemsAll(kids);
  }

  lemma JoinBefore(a: seq<Tree>, b: seq<Tree>, c: seq<Tree>, r: nat, k: int)
    requires r <= |b| && LeavesBelow(a, k) && LeavesBelow(b[..r], k)
    ensures LeavesBelow((a + b + c)[..|a| + r], k)
  {
    assert (a + b + c)[..|a| + r] == a + b[..r];
    hide CellsOf;
    CellsOfConcat(a, b[..r]);
  }

  // ---- what a scan yields ----------------------------------------------------------

  predicate InRange(k: int, lo: Option<int>, hi: Option<int>) {
    (lo.None? || lo.value <= k) && (hi.None? || k <= hi.value)
  }

  /** The entries of a run between lo and hi, both inclusive and optional. */
  function Select(s: seq<Cell>, lo: Option<int>, hi: Option<int>): seq<Cell> {
    if s == [] then []
    else (if InRange(s[0].key, lo, hi) then [s[0]] else []) + Select(s[1..], lo, hi)
  }

  lemma {:induction false} SelectConcat(a: seq<Cell>, b: seq<Cell>, lo: Option<int>, hi: Option<int>)
    ensures Select(a + b, lo, hi) == Select(a, lo, hi) + Select(b, lo, hi)
    decreases |a|
  {
    if a == [] {
      assert a + b == b;
    } else {
      assert (a + b)[1..] == a[1..] + b;
      SelectConcat(a[1..], b, lo, hi);
    }
  }

  lemma {:induction false} SelectNothing(s: seq<Cell>, lo: Option<int>, hi: Option<int>)
    requires (lo.Some? && AllBelow(s, lo.value)) || (hi.Some? && AllAbove(s, hi.value))
    ensures Select(s, lo, hi) == []
    decreases |s|
  {
    if s != [] {
      SelectNothing(s[1..], lo, hi);
    }
  }

  lemma {:induction false} SelectHolds(s: seq<Cell>, lo: Option<int>, hi: Option<int>, c: Cell)
    ensures c in Select(s, lo, hi) <==> c in s && InRange(c.key, lo, hi)
    decreases |s|
  {
    if s != [] {
      SelectHolds(s[1..], lo, hi, c);
      assert s == [s[0]] + s[1..];
    }
  }

  lemma SortedFirst(c: Cell, s: seq<Cell>)
    requires Sorted(s) && forall x :: x in s ==> c.key < x.key
    ensures Sorted([c] + s)
  {
    assert forall i :: 0 <= i < |s| ==> s[i] in s;
  }

  lemma {:induction false} SelectSorted(s: seq<Cell>, lo: Option<int>, hi: Option<int>)
    requires Sorted(s)
    ensures Sorted(Select(s, lo, hi))
    decreases |s|
  {
    if s != [] {
      var rest := Select(s[1..], lo, hi);
      SelectSorted(s[1..], lo, hi);
      forall x | x in rest
        ensures s[0].key < x.key
      {
        SelectHolds(s[1..], lo, hi, x);
        var j :| 0 <= j < |s[1..]| && s[1..][j] == x;
      }
      hide Sorted;
      SortedFirst(s[0], rest);
      assert [] + rest == rest;
    }
  }

  /** Select means what its name says: the cells in range, in ascending key order. */
  lemma SelectMeaning(s: seq<Cell>, lo: Option<int>, hi: Option<int>)
    requires Sorted(s)
    ensures Sorted(Select(s, lo, hi))
    ensures forall c :: c in Select(s, lo, hi) <==> c in s && InRange(c.key, lo, hi)
  {
    SelectSorted(s, lo, hi);
    hide Sorted, Select, InRange;
    forall c
      ensures c in Select(s, lo, hi) <==> c in s && InRange(c.key, lo, hi)
    {
      SelectHolds(s, lo, hi, c);
    }
  }

  /** A key below everything is routed to the first leaf. */
  lemma {:induction false} RankZero(t: Tree, k: int, h: nat, lo: int, hi: int, after: Option<nat>)
    requires Shaped(t) && Good(t, h, lo, hi, after) && k < I64_MIN
    ensures LeafRank(t, k) == 0
    decreases h
  {
    if t.Fork? {
      assert ChildIndex(t.keys, k) == 0 && GoodForest(t.keys, t.kids, h - 1, lo, hi, after);
      assert Good(t.kids[0], h - 1, Lo(t.keys, 0, lo), Hi(t.keys, 0, hi), After(t.kids, 0, after));
      assert t.kids[0] in t.kids && t.kids[..0] == [];
      hide Good, GoodForest, Lo, Hi, After, ChildIndex;
      RankZero(t.kids[0], k, h - 1, Lo(t.keys, 0, lo), Hi(t.keys, 0, hi), After(t.kids, 0, after));
    }
  }

  /** Whatever the starting key, the leaves that a scan skips hold nothing it wants. */
  lemma SkippedLeaves(t: Tree, free: nat, k: int)
    requires Whole(t, free)
    ensures Shaped(t) && LeafRank(t, k) < |Leaves(t)|
    ensures var ls := Leaves(t)[..LeafRank(t, k)];
      (forall l :: l in ls ==> l.Tip?) && AllBelow(CellsOf(ls), k) && (k < I64_MIN ==> ls == [])
  {
    var h := Height(t);
    GoodShaped(t, h, I64_MIN, I64_LIMIT, None);
    LeafRankIs(t, k);
    LeavesItems(t);
    if IsI64(k) {
      LeavesBefore(t, k, h, I64_MIN, I64_LIMIT, None);
    } else if k < I64_MIN {
      RankZero(t, k, h, I64_MIN, I64_LIMIT, None);
    } else {
      ItemsSorted(t, h, I64_MIN, I64_LIMIT, None);
      var r := LeafRank(t, k);
      hide Good, Items, CellsOf, Leaves, LeafRank;
      assert Leaves(t) == Leaves(t)[..r] + Leaves(t)[r..];
      CellsOfConcat(Leaves(t)[..r], Leaves(t)[r..]);
      var a, b := CellsOf(Leaves(t)[..r]), CellsOf(Leaves(t)[r..]);
      assert forall i :: 0 <= i < |a| ==> a[i] == (a + b)[i];
    }
  }

  /** What the whole range is, once everything before p is selected and the cell at p
      is past the end. */
  lemma SelectDone(all: seq<Cell>, p: nat, lo: Option<int>, hi: Option<int>)
    requires Sorted(all) && p < |all| && hi.Some? && hi.value < all[p].key
    ensures Select(all, lo, hi) == Select(all[..p], lo, hi)
  {
    hide Select;
    assert all == all[..p] + all[p..];
    SelectConcat(all[..p], all[p..], lo, hi);
    SelectNothing(all[p..], lo, hi);
  }

  lemma SelectNext(all: seq<Cell>, p: nat, lo: Option<int>, hi: Option<int>)
    requires p < |all|
    ensures Select(all[..p + 1], lo, hi) ==
      Select(all[..p], lo, hi) + if InRange(all[p].key, lo, hi) then [all[p]] else []
  {
    assert [all[p]][1..] == [];
    assert Select([all[p]], lo, hi) == if InRange(all[p].key, lo, hi) then [all[p]] else [];
    hide Select;
    assert all[..p + 1] == all[..p] + [all[p]];
    SelectConcat(all[..p], [all[p]], lo, hi);
  }

  /** The cells of leaf j, as a stretch of the tree's cells. */
  lemma LeafStretch(ls: seq<Tree>, j: nat)
    requires j < |ls| && forall l :: l in ls ==> l.Tip?
    ensures (forall l :: l in ls[..j] ==> l.Tip?) && (forall l :: l in ls[..j + 1] ==> l.Tip?)
    ensures var p := |CellsOf(ls[..j])|;
      && p + |ls[j].cells| <= |CellsOf(ls)|
      && CellsOf(ls)[p..p + |ls[j].cells|] == ls[j].cells
      && CellsOf(ls[..j]) == CellsOf(ls)[..p] && CellsOf(ls[..j + 1]) == CellsOf(ls)[..p + |ls[j].cells|]
  {
    var a, m, b := ls[..j], [ls[j]], ls[j + 1..];
    assert [ls[j]][1..] == [];
    assert CellsOf(m) == ls[j].cells;
    hide CellsOf;
    Parts(ls, j);
    assert ls[..j + 1] == a + m;
    CellsOfConcat(a, m);
    CellsOfConcat(a + m, b);
  }
}
