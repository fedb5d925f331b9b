// The B+ tree over the pager (leafdb/btree.py): each method does to the pages what
// the functions of TreeInsert, TreeDelete and TreeOps say about trees.

module BTree {
  import opened Bytes
  import opened Cells
  import opened Disk
  import opened NodeCodec
  import opened Pager
  import opened Tree
  import opened TreeInsert
  import opened TreeDelete
  import opened TreeScan
  import opened StoredTree
  import TreeOps
  import TreeBounds

  /** The answer of `delete`: the new root, or the IndexError. */
  datatype Deletion = Absent | Taken(root: nat) | Fault

  class BTree {
    const pager: Pager

    constructor (pager: Pager)
      ensures this.pager == pager
    {
      this.pager := pager;
    }

    ghost predicate Ready()
      reads pager, pager.pool
    {
      pager.Valid() && pager.Steady()
    }

    /** t is the tree whose root page is n. */
    ghost predicate Holding(n: nat, t: Tree)
      reads pager, pager.pool
    {
      t.page == n && Shaped(t) && Apart(t, pager.numPages) && Stored(pager.View(), t)
    }

    // ---- pages -------------------------------------------------------------------

    /** `_load`, without the node cache. */
    method Load(n: nat, ghost node: Node) returns (r: Node)
      requires Ready() && n < pager.numPages && InPage(pager.View(), n, node)
      modifies pager`file, pager.pool
      ensures Ready() && r == node && Same(old(pager.View()), pager.View())
    {
      hide PageOf, Fits, ImgOf;
      var data := pager.Get(n);
      var decoded := NodeFromBytes(data.value);
      DecodePage(node);
      r := decoded.value;
    }

    /** `pager.write(n, node.to_bytes())`; false is the ValueError for an oversized node. */
    method Write(n: nat, node: Node) returns (ok: bool)
      requires Ready() && Storable(node) && n < pager.numPages
      modifies pager`file, pager`numPages, pager`touched, pager`shadow, pager.pool
      ensures Ready() && pager.numPages == old(pager.numPages)
      ensures pager.touched.Some? == old(pager.touched.Some?)
      ensures ok == (NodeSize(node) <= PAGE_SIZE)
      ensures ok ==> InPage(pager.View(), n, node)
      ensures if ok then SameBut(old(pager.View()), pager.View(), n, pager.numPages)
              else Same(old(pager.View()), pager.View())
    {
      hide ImgOf;
      ok := pager.Write(n, ToBytes(node));
    }

    /** `pager.allocate()` */
    method Allocate() returns (n: nat)
      requires Ready()
      modifies pager`file, pager`numPages, pager`touched, pager`shadow, pager.pool
      ensures Ready() && n == old(pager.numPages) && pager.numPages == n + 1
      ensures pager.touched.Some? == old(pager.touched.Some?)
      ensures SameBelow(old(pager.View()), pager.View(), n)
    {
      hide ImgOf;
      n := pager.Allocate();
    }

    // ---- search ------------------------------------------------------------------

    /** `search` */
    method Search(root: nat, key: int, ghost t: Tree) returns (r: Option<seq<Byte>>)
      requires Ready() && Holding(root, t)
      modifies pager`file, pager.pool
      ensures Ready() && r == TreeOps.Search(t, key) && Same(old(pager.View()), pager.View())
    {
      hide Ready, ImgOf, InPage;
      var n := root;
      ghost var u := t;
      while true
        invariant Ready() && Same(old(pager.View()), pager.View())
        invariant u.page == n && Shaped(u) && Apart(u, pager.numPages) && Stored(pager.View(), u)
        invariant TreeOps.Search(u, key) == TreeOps.Search(t, key)
        decreases u
      {
        assert Uses(u, u.page) > 0;
        ghost var s := pager.View();
        var node := Load(n, NodeOf(u));
        StoredSame(s, pager.View(), u);
        match node {
          case Leaf(cells, _) =>
            var i := CellIndex(cells, key);
            if i < |cells| && cells[i].key == key {
              return Some(cells[i].val);
            }
            return None;
          case Internal(keys, kids) =>
            var i := ChildIndex(keys, key);
            n := kids[i];
            KidApart(u, i, pager.numPages);
            assert u.kids[i] in u.kids;
            u := u.kids[i];
        }
      }
    }

    // ---- insert ------------------------------------------------------------------

    /** `_split_leaf` */
    method SplitLeaf(n: nat, cells: seq<Cell>, next: Option<nat>) returns (r: Outcome)
      requires Ready() && n < pager.numPages < NO_PAGE && Storable(Leaf(cells, next))
      modifies pager`file, pager`numPages, pager`touched, pager`shadow, pager.pool
      ensures Ready()
      ensures pager.touched.Some? == old(pager.touched.Some?)
      ensures var (step, free') := SplitTip(n, cells, next, old(pager.numPages));
        pager.numPages == free' && Reported(r, step, pager.View())
      ensures if r.IsOverflow? then SameBelow(old(pager.View()), pager.View(), old(pager.numPages))
              else SameBut(old(pager.View()), pager.View(), n, old(pager.numPages))
    {
      hide Ready, ImgOf, PageOf, CellsSize;
      var mid := |cells| / 2;
      if mid == 0 {
        return IsOverflow;
      }
      var page := Allocate();
      var ok := Write(page, Leaf(cells[mid..], next));
      if !ok {
        return IsOverflow;
      }
      ok := Write(n, Leaf(cells[..mid], Some(page)));
      if !ok {
        return IsOverflow;
      }
      return SplitOff(cells[mid].key, page);
    }

    /** The end of `_insert` at an internal node, with `_split_internal`. The forest ts
        is what stands below the node now that the child's new sibling is taken in. */
    method Absorb(n: nat, keys: seq<int>, kids: seq<nat>, ghost ts: seq<Tree>) returns (r: Outcome)
      requires Ready() && n < pager.numPages < NO_PAGE
      requires |ts| == |keys| + 1 && kids == PagesOf(ts) && 1 <= |keys| <= MAX_KEYS + 1
      requires Storable(Internal(keys, kids))
      requires forall k :: k in ts ==> Stored(pager.View(), k) && Apart(k, pager.numPages) && Uses(k, n) == 0
      modifies pager`file, pager`numPages, pager`touched, pager`shadow, pager.pool
      ensures Ready()
      ensures pager.touched.Some? == old(pager.touched.Some?)
      ensures var (step, free') := Absorbed(n, keys, ts, old(pager.numPages));
        pager.numPages == free' && Reported(r, step, pager.View())
      ensures SameBut(old(pager.View()), pager.View(), n, old(pager.numPages))
    {
      hide Ready, ImgOf, PageOf, Stored, Apart;
      ghost var s, n0 := pager.View(), pager.numPages;
      if NodeSize(Internal(keys, kids)) <= PAGE_SIZE {
        var ok := Write(n, Internal(keys, kids));
        StoredFork(s, pager.View(), Fork(n, keys, ts), n0, n);
        return Done;
      }
      var mid := |keys| / 2;
      ghost var left, right := Fork(n, keys[..mid], ts[..mid + 1]), Fork(n0, keys[mid + 1..], ts[mid + 1..]);
      assert NodeOf(left) == Internal(keys[..mid], kids[..mid + 1]);
      assert NodeOf(right) == Internal(keys[mid + 1..], kids[mid + 1..]);
      var page := Allocate();
      var ok := Write(page, Internal(keys[mid + 1..], kids[mid + 1..]));
      ok := Write(n, Internal(keys[..mid], kids[..mid + 1]));
      StoredFork(s, pager.View(), left, n0, n);
      StoredFork(s, pager.View(), right, n0, n);
      return SplitOff(keys[mid], page);
    }

    /** `_insert` at a leaf */
    method InsertLeaf(n: nat, c: Cell, ghost t: Tree, cells: seq<Cell>, next: Option<nat>, ghost lo: int, ghost hi: int)
      returns (r: Outcome)
      requires Ready() && Holding(n, t) && t == Tip(n, cells, next)
      requires Good(t, 0, lo, hi, next) && Insertable(c, lo, hi) && n < pager.numPages < NO_PAGE
      modifies pager`file, pager`numPages, pager`touched, pager`shadow, pager.pool
      ensures Ready()
      ensures pager.touched.Some? == old(pager.touched.Some?)
      ensures var (step, free') := TreeInsert.InsertAt(t, c, old(pager.numPages));
        pager.numPages == free' && Reported(r, step, pager.View())
      ensures if r.IsDuplicate? || r.IsOverflow? then SameBelow(old(pager.View()), pager.View(), old(pager.numPages))
              else SameBut(old(pager.View()), pager.View(), n, old(pager.numPages))
    {
      var i := CellIndex(cells, c.key);
      if i < |cells| && cells[i].key == c.key {
        return IsDuplicate;
      }
      var cells' := cells[..i] + [c] + cells[i..];
      LeafStorable(cells, next, c, lo, hi);
      hide Ready, Good, CellIndex, InPage, CellsSize;
      if NodeSize(Leaf(cells', next)) <= PAGE_SIZE {
        var ok := Write(n, Leaf(cells', next));
        return Done;
      }
      r := SplitLeaf(n, cells', next);
    }

    /** `_insert` */
    method InsertAt(n: nat, c: Cell, ghost t: Tree, ghost h: nat, ghost lo: int, ghost hi: int,
                    ghost after: Option<nat>)
      returns (r: Outcome)
      requires Ready() && Holding(n, t) && Good(t, h, lo, hi, after) && Insertable(c, lo, hi)
      requires pager.numPages + h < NO_PAGE
      modifies pager`file, pager`numPages, pager`touched, pager`shadow, pager.pool
      ensures Ready()
      ensures pager.touched.Some? == old(pager.touched.Some?)
      ensures var (step, free') := TreeInsert.InsertAt(t, c, old(pager.numPages));
        pager.numPages == free' && Reported(r, step, pager.View())
      ensures if r.IsDuplicate? || r.IsOverflow? then SameBelow(old(pager.View()), pager.View(), old(pager.numPages))
              else SameOutside(old(pager.View()), pager.View(), t, old(pager.numPages))
      decreases h, 1
    {
      assert t.Tip? ==> h == 0 && t.next == after;
      hide Ready, ImgOf, InPage, Good, Apart;
      ghost var s0, n0 := pager.View(), pager.numPages;
      PageBelow(t, n0);
      var node := Load(n, NodeOf(t));
      StoredSame(s0, pager.View(), t);
      match node {
        case Leaf(cells, next) =>
          r := InsertLeaf(n, c, t, cells, next, lo, hi);
        case Internal(keys, kids) =>
          var i := ChildIndex(keys, c.key);
          r := InsertBelow(n, keys, kids, i, c, t, h, lo, hi, after);
      }
    }

    /** `_insert` at an internal node, from the recursive call on */
    method InsertBelow(n: nat, keys: seq<int>, kids: seq<nat>, i: nat, c: Cell,
                       ghost t: Tree, ghost h: nat, ghost lo: int, ghost hi: int, ghost after: Option<nat>)
      returns (r: Outcome)
      requires Ready() && Holding(n, t) && Good(t, h, lo, hi, after) && Insertable(c, lo, hi)
      requires t.Fork? && keys == t.keys && kids == PagesOf(t.kids) && i == ChildIndex(keys, c.key)
      requires pager.numPages + h < NO_PAGE
      modifies pager`file, pager`numPages, pager`touched, pager`shadow, pager.pool
      ensures Ready()
      ensures pager.touched.Some? == old(pager.touched.Some?)
      ensures var (step, free') := TreeInsert.InsertAt(t, c, old(pager.numPages));
        pager.numPages == free' && Reported(r, step, pager.View())
      ensures if r.IsDuplicate? || r.IsOverflow? then SameBelow(old(pager.View()), pager.View(), old(pager.numPages))
              else SameOutside(old(pager.View()), pager.View(), t, old(pager.numPages))
      decreases h, 0
    {
      hide Ready, ImgOf, InPage, Apart, Stored, Good, Lo, Hi, After, NodeSize;
      ghost var s, n0 := pager.View(), pager.numPages;
      DescendInsert(s, t, c, h, lo, hi, after, n0);
      ghost var kid, l, u, a := t.kids[i], Lo(keys, i, lo), Hi(keys, i, hi), After(t.kids, i, after);
      r := InsertAt(kids[i], c, kid, h - 1, l, u, a);
      InsertGood(kid, c, n0, h - 1, l, u, a);
      ghost var (step, n1) := TreeInsert.InsertAt(kid, c, n0);
      match r {
        case Done =>
          StoredReplace(s, pager.View(), t, i, step.t, n0);
          OutsideKid(s, pager.View(), pager.View(), t, i, n0);
        case SplitOff(sep, right) =>
          ghost var s', ts := pager.View(), t.kids[..i] + [step.left, step.right] + t.kids[i + 1..];
          BeforeAbsorb(s, s', t, i, c, n0, h, lo, hi, after);
          r := Absorb(n, keys[..i] + [sep] + keys[i..], kids[..i + 1] + [right] + kids[i + 1..], ts);
          OutsideKid(s, s', pager.View(), t, i, n0);
        case _ =>
      }
    }

    /** `insert`: the new root page, or the exception. The ghost t' is the tree that
        the pages hold afterwards. */
    method Insert(root: nat, key: int, value: seq<Byte>, ghost t: Tree) returns (r: Result<nat, Error>, ghost t': Tree)
      requires Ready() && Holding(root, t) && Whole(t, pager.numPages) && TreeOps.Room(t, pager.numPages)
      modifies pager`file, pager`numPages, pager`touched, pager`shadow, pager.pool
      ensures Ready() && Whole(t', pager.numPages) && Holding(t'.page, t')
      ensures pager.touched.Some? == old(pager.touched.Some?)
      ensures (TreeInsert.Insert(t, Cell(key, value), old(pager.numPages))) ==
              (if r.Ok? then Ok(t') else Err(r.error), pager.numPages)
      ensures r.Ok? ==> r.value == t'.page && key !in TreeOps.TableOf(t)
      ensures r.Err? ==> t' == t && SameBelow(old(pager.View()), pager.View(), old(pager.numPages))
      ensures r == Err(DuplicateKey) ==> key in TreeOps.TableOf(t)
      ensures TreeOps.TableOf(t') == if r.Ok? then TreeOps.TableOf(t)[key := value] else TreeOps.TableOf(t)
      ensures SameOutside(old(pager.View()), pager.View(), t, old(pager.numPages))
    {
      hide Ready, Stored, Good, Apart, ImgOf, InPage, TreeOps.TableOf, TreeInsert.InsertAt, StepGood, SameOutside,
        SameBelow;
      ghost var c, h, n0, s := Cell(key, value), Height(t), pager.numPages, pager.View();
      TreeOps.InsertWhole(t, n0, c);
      WholeShaped(t, n0);
      Untouched(s, t, n0);
      t' := t;
      if |value| > MAX_VALUE_SIZE {
        return Err(ValueTooLarge), t;
      }
      if !IsI64(key) {
        return Err(KeyOutOfRange), t;
      }
      var o := InsertAt(root, Cell(key, value), t, h, I64_MIN, I64_LIMIT, None);
      ghost var step := TreeInsert.InsertAt(t, c, n0).0;
      RootPageKept(t, c, n0);
      if o.IsDuplicate? || o.IsOverflow? {
        StillStored(s, pager.View(), t, n0, pager.numPages);
        BelowIsOutside(s, pager.View(), t, n0);
        return Err(if o.IsDuplicate? then DuplicateKey else PageOverflow), t;
      }
      if o.Done? {
        WholeShaped(step.t, pager.numPages);
        return Ok(root), step.t;
      }
      ghost var s1, n1 := pager.View(), pager.numPages;
      t' := Fork(n1, [o.sep], [step.left, step.right]);
      var n := GrowRoot(root, o.sep, o.right, t');
      OutsideGrown(s, s1, pager.View(), t, n0, n1);
      return Ok(n), t';
    }

    /** The end of `insert`: a new root above the two halves of the old one. */
    method GrowRoot(left: nat, sep: int, right: nat, ghost t: Tree) returns (n: nat)
      requires Ready() && pager.numPages < NO_PAGE
      requires t.Fork? && t.page == pager.numPages && t.keys == [sep] && |t.kids| == 2
      requires t.kids[0].page == left && t.kids[1].page == right
      requires Stored(pager.View(), t.kids[0]) && Stored(pager.View(), t.kids[1])
      requires Whole(t, pager.numPages + 1)
      modifies pager`file, pager`numPages, pager`touched, pager`shadow, pager.pool
      ensures Ready() && n == t.page && pager.numPages == n + 1
      ensures pager.touched.Some? == old(pager.touched.Some?)
      ensures Holding(n, t)
      ensures SameBelow(old(pager.View()), pager.View(), old(pager.numPages))
    {
      hide Ready, ImgOf, PageOf, Stored, Good, Apart, Uses;
      ghost var s, n0 := pager.View(), pager.numPages;
      NewRootReady(t, n0);
      WholeShaped(t, n0 + 1);
      n := Allocate();
      var ok := Write(n, Internal([sep], [left, right]));
      StoredFork(s, pager.View(), t, n0, n0);
    }

    // ---- upsert ------------------------------------------------------------------

    /** The overwriting half of `upsert`, for a key that is there; false is the
        ValueError of the page write. */
    method Overwrite(root: nat, key: int, value: seq<Byte>, ghost t: Tree) returns (ok: bool)
      requires Ready() && Holding(root, t) && TreeOps.Search(t, key).Some?
      requires IsI64(key) && |value| <= MAX_VALUE_SIZE
      modifies pager`file, pager`numPages, pager`touched, pager`shadow, pager.pool
      ensures Ready() && pager.numPages == old(pager.numPages)
      ensures pager.touched.Some? == old(pager.touched.Some?)
      ensures var c := Cell(key, value);
        if ok then Rewritten(old(pager.View()), pager.View(), t, c, pager.numPages)
        else TreeOps.Overwrite(t, c).None? && Same(old(pager.View()), pager.View())
    {
      hide Ready, ImgOf, InPage, Stored, Apart, TreeOps.Search, TreeOps.Overwrite, Shaped, Inside, Rewritten;
      ghost var s, limit, c := pager.View(), pager.numPages, Cell(key, value);
      var n := root;
      ghost var u := t;
      PageBelow(u, limit);
      InsideItself(s, t, c, limit);
      while true
        invariant Ready() && Same(s, pager.View()) && pager.numPages == limit
        invariant pager.touched.Some? == old(pager.touched.Some?)
        invariant u.page == n < limit && Shaped(u) && Apart(u, limit) && Stored(s, u)
        invariant TreeOps.Search(u, key).Some? && Inside(s, t, u, c, limit)
        decreases u
      {
        ghost var s0 := pager.View();
        StoredSame(s, s0, u);
        StoredPage(s0, u);
        var node := Load(n, NodeOf(u));
        match node {
          case Leaf(cells, next) =>
            var i := CellIndex(cells, key);
            HereItIs(u, key);
            OverwriteStorable(cells, next, c);
            ghost var s1 := pager.View();
            ok := Write(n, Leaf(cells[i := Cell(key, value)], next));
            OverwriteEnds(s, s1, pager.View(), t, u, c, limit, ok);
            return;
          case Internal(keys, kids) =>
            var i := ChildIndex(keys, key);
            OverwriteDescends(s, t, u, c, limit);
            KidsAreSmaller(u, i);
            n := kids[i];
            u := u.kids[i];
        }
      }
    }

    /** `upsert` */
    method Upsert(root: nat, key: int, value: seq<Byte>, ghost t: Tree) returns (r: Result<nat, Error>, ghost t': Tree)
      requires Ready() && Holding(root, t) && Whole(t, pager.numPages) && TreeOps.Room(t, pager.numPages)
      modifies pager`file, pager`numPages, pager`touched, pager`shadow, pager.pool
      ensures Ready() && Whole(t', pager.numPages) && Holding(t'.page, t')
      ensures pager.touched.Some? == old(pager.touched.Some?)
      ensures TreeOps.Upsert(t, Cell(key, value), old(pager.numPages)) ==
              (if r.Ok? then Ok(t') else Err(r.error), pager.numPages)
      ensures r.Ok? ==> r.value == t'.page
      ensures r.Err? ==> t' == t
      ensures TreeOps.TableOf(t') == if r.Ok? then TreeOps.TableOf(t)[key := value] else TreeOps.TableOf(t)
      ensures SameOutside(old(pager.View()), pager.View(), t, old(pager.numPages))
    {
      hide Ready, ImgOf, InPage, Stored, Apart, Good, TreeOps.TableOf, TreeOps.Overwrite, TreeInsert.Insert, Shaped,
        SameOutside, Rewritten, TreeOps.Search, SameBelow;
      ghost var s, n0, c := pager.View(), pager.numPages, Cell(key, value);
      WholeShaped(t, n0);
      InsertNeverTooLarge(t, c, n0);
      if |value| > MAX_VALUE_SIZE {
        Untouched(s, t, n0);
        return Err(ValueTooLarge), t;
      }
      r, t' := Insert(root, key, value, t);
      if r != Err(DuplicateKey) {
        return;
      }
      ghost var s1, n1 := pager.View(), pager.numPages;
      TreeOps.InsertWhole(t, n0, c);
      KeyIsFound(t, n1, key);
      var ok := Overwrite(root, key, value, t);
      if !ok {
        OutsideThenSame(s, s1, pager.View(), t, n0);
        StoredSame(s1, pager.View(), t);
        return Err(PageOverflow), t;
      }
      OverwriteTables(s1, pager.View(), t, c, n1);
      BelowThenOutside(s, s1, pager.View(), t, n0, n1);
      return Ok(root), TreeOps.Overwrite(t, c).value;
    }

    // ---- delete ------------------------------------------------------------------

    /** t is the tree under a node whose decoded form is keys and kids. */
    ghost predicate Opened(pn: nat, keys: seq<int>, kids: seq<nat>, t: Tree)
      reads pager, pager.pool
    {
      && t.Fork? && t.page == pn && t.keys == keys && kids == PagesOf(t.kids)
      && Apart(t, pager.numPages) && forall x :: x in t.kids ==> Stored(pager.View(), x)
    }

    /** Two neighbours and their parent are written after a borrow. */
    method WriteBorrow(pn: nat, keys: seq<int>, kids: seq<nat>, j: nat, low: Node, high: Node,
                       ghost t: Tree, ghost a: Tree, ghost b: Tree)
      requires Ready() && t.Fork? && t.page == pn && kids == PagesOf(t.kids) && j + 1 < |kids|
      requires Apart(t, pager.numPages) && forall x :: x in t.kids ==> Stored(pager.View(), x)
      requires a.page == kids[j] && b.page == kids[j + 1] && low == NodeOf(a) && high == NodeOf(b)
      requires Kin(a, t.kids[j], t.kids[j + 1]) && Kin(b, t.kids[j], t.kids[j + 1])
      requires Fits(low) && Fits(high) && Fits(Internal(keys, kids))
      modifies pager`file, pager`numPages, pager`touched, pager`shadow, pager.pool
      ensures Ready() && pager.numPages == old(pager.numPages)
      ensures pager.touched.Some? == old(pager.touched.Some?)
      ensures forall k :: k in t.kids[j := a][j + 1 := b] ==> Stored(pager.View(), k)
      ensures SameOutside(old(pager.View()), pager.View(), t, pager.numPages)
    {
      hide Ready, ImgOf, InPage, Stored, Apart, Kin, NearPages;
      ghost var s, limit := pager.View(), pager.numPages;
      ThreePages(t, j, limit);
      var ok := Write(kids[j], low);
      ghost var s1 := pager.View();
      ok := Write(kids[j + 1], high);
      ghost var s2 := pager.View();
      ok := Write(pn, Internal(keys, kids));
      ThreeWrites(s, s1, s2, pager.View(), t, j, low, high, limit);
      TwoRebuilt(s, pager.View(), t, j, a, b, {pn, a.page, b.page}, limit);
      NearIsInside(s, pager.View(), t, {pn, a.page, b.page}, limit);
    }

    method LoadKid(kids: seq<nat>, i: nat, ghost t: Tree) returns (node: Node)
      requires Ready() && t.Fork? && kids == PagesOf(t.kids) && i < |kids|
      requires Apart(t, pager.numPages) && forall x :: x in t.kids ==> Stored(pager.View(), x)
      modifies pager`file, pager.pool
      ensures Ready() && node == NodeOf(t.kids[i]) && Same(old(pager.View()), pager.View())
      ensures forall x :: x in t.kids ==> Stored(pager.View(), x)
    {
      KidApart(t, i, pager.numPages);
      assert t.kids[i] in t.kids;
      ghost var s := pager.View();
      hide Ready, ImgOf, InPage;
      node := Load(kids[i], NodeOf(t.kids[i]));
      hide Stored;
      forall x | x in t.kids
        ensures Stored(pager.View(), x)
      {
        StoredSame(s, pager.View(), x);
      }
    }

    method BorrowLeft(pn: nat, keys: seq<int>, kids: seq<nat>, i: nat, left: Node, child: Node,
                      ghost t: Tree, ghost h: nat, ghost lo: int, ghost hi: int, ghost after: Option<nat>)
      returns (keys': seq<int>)
      requires Ready() && Opened(pn, keys, kids, t) && |keys| <= MAX_KEYS
      requires Damaged(keys, t.kids, i, h, lo, hi, after) && 0 < i && CanSpare(t.kids[i - 1])
      requires left == NodeOf(t.kids[i - 1]) && child == NodeOf(t.kids[i])
      modifies pager`file, pager`numPages, pager`touched, pager`shadow, pager.pool
      ensures Ready() && pager.numPages == old(pager.numPages)
      ensures pager.touched.Some? == old(pager.touched.Some?)
      ensures Peers(t.kids[i - 1], t.kids[i]) && CanLend(t.kids[i - 1])
      ensures var (l, s, c) := BorrowFromLeft(t.kids[i - 1], t.kids[i], keys[i - 1]);
        && keys' == keys[i - 1 := s] && kids == PagesOf(t.kids[i - 1 := l][i := c])
        && forall k :: k in t.kids[i - 1 := l][i := c] ==> Stored(pager.View(), k)
      ensures SameOutside(old(pager.View()), pager.View(), t, pager.numPages)
    {
      assert |t.kids| == |keys| + 1 && |t.kids| >= 2 && i < |t.kids|;
      hide Ready, ImgOf, InPage, Stored, Apart, Good, GoodTop, GoodForest, Kin, Damaged, BorrowFromLeft, LeftLends,
        CanSpare, Peers, CanLend, Fits, Alike, NonEmpty, SameOutside;
      BeforeBorrowLeft(keys, t.kids, i, h, lo, hi, after);
      ghost var (l, s, c) := BorrowFromLeft(t.kids[i - 1], t.kids[i], keys[i - 1]);
      var (left', sep, child') := LeftLends(left, child, keys[i - 1]);
      keys' := keys[i - 1 := sep];
      WriteBorrow(pn, keys', kids, i - 1, left', child', t, l, c);
    }

    method BorrowRight(pn: nat, keys: seq<int>, kids: seq<nat>, i: nat, child: Node, right: Node,
                       ghost t: Tree, ghost h: nat, ghost lo: int, ghost hi: int, ghost after: Option<nat>)
      returns (keys': seq<int>, broke: bool)
      requires Ready() && Opened(pn, keys, kids, t) && |keys| <= MAX_KEYS
      requires Damaged(keys, t.kids, i, h, lo, hi, after) && i + 1 < |t.kids| && CanSpare(t.kids[i + 1])
      requires child == NodeOf(t.kids[i]) && right == NodeOf(t.kids[i + 1])
      modifies pager`file, pager`numPages, pager`touched, pager`shadow, pager.pool
      ensures Ready() && pager.numPages == old(pager.numPages)
      ensures pager.touched.Some? == old(pager.touched.Some?)
      ensures broke <==> t.kids[i + 1].Tip? && |t.kids[i + 1].cells| == 1
      ensures broke ==> keys' == keys && Same(old(pager.View()), pager.View())
      ensures broke ==> forall x :: x in t.kids ==> Stored(pager.View(), x)
      ensures !broke ==> Peers(t.kids[i], t.kids[i + 1]) && CanLend(t.kids[i + 1])
      ensures !broke ==> (t.kids[i + 1].Tip? ==> |t.kids[i + 1].cells| > 1)
      ensures !broke ==> var (c, s, r) := BorrowFromRight(t.kids[i], t.kids[i + 1], keys[i]);
        && keys' == keys[i := s] && kids == PagesOf(t.kids[i := c][i + 1 := r])
        && forall k :: k in t.kids[i := c][i + 1 := r] ==> Stored(pager.View(), k)
      ensures SameOutside(old(pager.View()), pager.View(), t, pager.numPages)
    {
      assert |t.kids| == |keys| + 1 && |t.kids| >= 2 && i < |t.kids|;
      hide Ready, ImgOf, InPage, Stored, Apart, Good, GoodTop, GoodForest, Kin, Damaged, BorrowFromRight, RightLends,
        CanSpare, Peers, CanLend, Fits, Alike, NonEmpty, SameOutside;
      if right.Leaf? && |right.cells| == 1 {
        return keys, true;
      }
      BeforeBorrowRight(keys, t.kids, i, h, lo, hi, after);
      ghost var (c, s, r) := BorrowFromRight(t.kids[i], t.kids[i + 1], keys[i]);
      var (child', sep, right') := RightLends(child, right, keys[i]);
      keys', broke := keys[i := sep], false;
      WriteBorrow(pn, keys', kids, i, child', right', t, c, r);
    }

    /** The merge of children j and j+1 into the page of the lower one. */
    method MergeAt(pn: nat, keys: seq<int>, kids: seq<nat>, i: nat, j: nat,
                   ghost t: Tree, ghost h: nat, ghost lo: int, ghost hi: int, ghost after: Option<nat>)
      returns (keys': seq<int>, kids': seq<nat>)
      requires Ready() && Opened(pn, keys, kids, t) && |keys| <= MAX_KEYS
      requires Damaged(keys, t.kids, i, h, lo, hi, after) && j < |keys|
      requires (i == j && !CanSpare(t.kids[j + 1])) || (i == j + 1 && !CanSpare(t.kids[j]))
      modifies pager`file, pager`numPages, pager`touched, pager`shadow, pager.pool
      ensures Ready() && pager.numPages == old(pager.numPages)
      ensures pager.touched.Some? == old(pager.touched.Some?)
      ensures Peers(t.kids[j], t.kids[j + 1])
      ensures var m := Merge(t.kids[j], t.kids[j + 1], keys[j]); var ts := t.kids[..j] + [m] + t.kids[j + 2..];
        && keys' == keys[..j] + keys[j + 1..] && kids' == PagesOf(ts)
        && forall k :: k in ts ==> Stored(pager.View(), k)
      ensures SameOutside(old(pager.View()), pager.View(), t, pager.numPages)
    {
      assert |t.kids| == |keys| + 1;
      hide Ready, ImgOf, InPage, Stored, Apart, Good, GoodTop, GoodForest, Kin, Damaged, Merge, CanSpare, Peers, Fits,
        Alike, SameOutside, NearPages, MergedKids, PagesOf;
      BeforeMerge(t, i, j, h, lo, hi, after, pager.numPages);
      ghost var m := Merge(t.kids[j], t.kids[j + 1], keys[j]);
      PagesAre(t.kids);
      var low := LoadKid(kids, j, t);
      var high := LoadKid(kids, j + 1, t);
      ghost var s := pager.View();
      var ok := Write(kids[j], MergeNodes(low, high, keys[j]));
      OneRebuilt(s, pager.View(), t, j, m, pager.numPages);
      NearIsInside(s, pager.View(), t, {m.page}, pager.numPages);
      kids' := kids[..j + 1] + kids[j + 2..];
      keys' := keys[..j] + keys[j + 1..];
    }

    /** `_rebalance`; broke is the IndexError. The parent is returned as edited. */
    method Rebalance(pn: nat, keys: seq<int>, kids: seq<nat>, i: nat,
                     ghost t: Tree, ghost h: nat, ghost lo: int, ghost hi: int, ghost after: Option<nat>)
      returns (keys': seq<int>, kids': seq<nat>, broke: bool)
      requires Ready() && Opened(pn, keys, kids, t)
      requires Damaged(keys, t.kids, i, h, lo, hi, after) && Neighbours(t.kids, i) && |keys| <= MAX_KEYS
      modifies pager`file, pager`numPages, pager`touched, pager`shadow, pager.pool
      ensures Ready() && pager.numPages == old(pager.numPages)
      ensures pager.touched.Some? == old(pager.touched.Some?)
      ensures var r := TreeDelete.Rebalance(pn, keys, t.kids, i);
        && !r.Missing? && r.t.Fork? && r.t.page == pn && broke == r.Broken?
        && keys' == r.t.keys && kids' == PagesOf(r.t.kids)
        && forall k :: k in r.t.kids ==> Stored(pager.View(), k)
      ensures broke ==> Same(old(pager.View()), pager.View())
      ensures SameOutside(old(pager.View()), pager.View(), t, pager.numPages)
    {
      hide Ready, ImgOf, InPage, Stored, Apart, Good, GoodTop, GoodForest, Kin, BorrowFromLeft, BorrowFromRight, Merge,
        Peers, CanLend, SameOutside, Rising, Lo, Hi, After, Underflow;
      ghost var s := pager.View();
      keys', kids', broke := keys, kids, false;
      var child := LoadKid(kids, i, t);
      if i > 0 {
        var left := LoadKid(kids, i - 1, t);
        if NodeSize(left) - MIN_BYTES > 64 {
          ghost var s1 := pager.View();
          keys' := BorrowLeft(pn, keys, kids, i, left, child, t, h, lo, hi, after);
          SameThenOutside(s, s1, pager.View(), t, pager.numPages);
          return;
        }
      }
      if i + 1 < |kids| {
        var right := LoadKid(kids, i + 1, t);
        if NodeSize(right) - MIN_BYTES > 64 {
          ghost var s1 := pager.View();
          keys', broke := BorrowRight(pn, keys, kids, i, child, right, t, h, lo, hi, after);
          SameThenOutside(s, s1, pager.View(), t, pager.numPages);
          return;
        }
      }
      ghost var s1 := pager.View();
      var j := if i > 0 then i - 1 else i;
      keys', kids' := MergeAt(pn, keys, kids, i, j, t, h, lo, hi, after);
      SameThenOutside(s, s1, pager.View(), t, pager.numPages);
    }

    /** `_delete` at a leaf */
    method DeleteLeaf(n: nat, key: int, ghost t: Tree, cells: seq<Cell>, next: Option<nat>) returns (r: Finding)
      requires Ready() && Holding(n, t) && t == Tip(n, cells, next) && n < pager.numPages
      modifies pager`file, pager`numPages, pager`touched, pager`shadow, pager.pool
      ensures Ready() && pager.numPages == old(pager.numPages)
      ensures pager.touched.Some? == old(pager.touched.Some?)
      ensures Found(r, TreeDelete.DeleteAt(t, key), pager.View())
      ensures r.NotThere? ==> Same(old(pager.View()), pager.View())
      ensures SameOutside(old(pager.View()), pager.View(), t, pager.numPages)
    {
      hide Ready, ImgOf, PageOf;
      var i := CellIndex(cells, key);
      if i < |cells| && cells[i].key == key {
        RemoveSize(cells, key);
        hide CellIndex, CellsSize;
        var ok := Write(n, Leaf(cells[..i] + cells[i + 1..], next));
        return Gone;
      }
      return NotThere;
    }

    /** `_delete` */
    method DeleteAt(n: nat, key: int, ghost t: Tree, ghost h: nat, ghost lo: int, ghost hi: int,
                    ghost after: Option<nat>)
      returns (r: Finding)
      requires Ready() && Holding(n, t) && Good(t, h, lo, hi, after) && Sought(key, lo, hi)
      modifies pager`file, pager`numPages, pager`touched, pager`shadow, pager.pool
      ensures Ready() && pager.numPages == old(pager.numPages)
      ensures pager.touched.Some? == old(pager.touched.Some?)
      ensures Found(r, TreeDelete.DeleteAt(t, key), pager.View())
      ensures r.NotThere? ==> Same(old(pager.View()), pager.View())
      ensures SameOutside(old(pager.View()), pager.View(), t, pager.numPages)
      decreases h, 1
    {
      hide Ready, ImgOf, InPage, Good, Apart, TreeDelete.DeleteAt;
      ghost var s0, n0 := pager.View(), pager.numPages;
      PageBelow(t, n0);
      var node := Load(n, NodeOf(t));
      StoredSame(s0, pager.View(), t);
      match node {
        case Leaf(cells, next) =>
          r := DeleteLeaf(n, key, t, cells, next);
        case Internal(keys, kids) =>
          var i := ChildIndex(keys, key);
          r := DeleteBelow(n, keys, kids, i, key, t, h, lo, hi, after);
      }
    }

    /** `_delete` at an internal node, from the recursive call on */
    method DeleteBelow(n: nat, keys: seq<int>, kids: seq<nat>, i: nat, key: int,
                       ghost t: Tree, ghost h: nat, ghost lo: int, ghost hi: int, ghost after: Option<nat>)
      returns (r: Finding)
      requires Ready() && Holding(n, t) && Good(t, h, lo, hi, after) && Sought(key, lo, hi)
      requires t.Fork? && keys == t.keys && kids == PagesOf(t.kids) && i == ChildIndex(keys, key)
      modifies pager`file, pager`numPages, pager`touched, pager`shadow, pager.pool
      ensures Ready() && pager.numPages == old(pager.numPages)
      ensures pager.touched.Some? == old(pager.touched.Some?)
      ensures Found(r, TreeDelete.DeleteAt(t, key), pager.View())
      ensures r.NotThere? ==> Same(old(pager.View()), pager.View())
      ensures SameOutside(old(pager.View()), pager.View(), t, pager.numPages)
      decreases h, 0
    {
      hide Ready, ImgOf, InPage, Apart, Stored, Good, GoodTop, GoodForest, Lo, Hi, After, Neighbours,
        TreeDelete.DeleteAt, Sought, SameOutside;
      ghost var s, n0 := pager.View(), pager.numPages;
      DescendDelete(s, t, key, h, lo, hi, after, n0);
      ghost var kid, l, u, a := t.kids[i], Lo(keys, i, lo), Hi(keys, i, hi), After(t.kids, i, after);
      r := DeleteAt(kids[i], key, kid, h - 1, l, u, a);
      ghost var s1 := pager.View();
      InsideKid(s, s1, t, i, n0);
      if r.NotThere? {
        return;
      }
      ghost var removal := TreeDelete.DeleteAt(kid, key);
      RemovalIsGood(kid, key, h - 1, l, u, a);
      StoredReplace(s, s1, t, i, removal.t, n0);
      if r.Failed? {
        return;
      }
      ghost var t1 := Fork(n, keys, t.kids[i := removal.t]);
      FewerUses(t, i, key, n0);
      DamageReady(t, i, removal.t, h, lo, hi, after);
      r := RepairBelow(n, keys, kids, i, t1, h - 1, lo, hi, after);
      RepairOf(n, keys, t.kids, i, removal.t);
      OutsideTwice(s, s1, pager.View(), t, t1, n0);
    }

    /** `_delete` at an internal node whose child i has lost something: rebalance it if
        it is underfull, and write the node. */
    method RepairBelow(n: nat, keys: seq<int>, kids: seq<nat>, i: nat,
                       ghost t: Tree, ghost h: nat, ghost lo: int, ghost hi: int, ghost after: Option<nat>)
      returns (r: Finding)
      requires Ready() && t.Fork? && t.page == n && t.keys == keys && kids == PagesOf(t.kids)
      requires Apart(t, pager.numPages) && Stored(pager.View(), t)
      requires Lacking(t, i, h, lo, hi, after) && Neighbours(t.kids, i)
      modifies pager`file, pager`numPages, pager`touched, pager`shadow, pager.pool
      ensures Ready() && pager.numPages == old(pager.numPages)
      ensures pager.touched.Some? == old(pager.touched.Some?)
      ensures Found(r, Repaired'(t, i), pager.View())
      ensures SameOutside(old(pager.View()), pager.View(), t, pager.numPages)
    {
      hide Ready, ImgOf, InPage, Apart, Good, GoodTop, GoodForest, Neighbours, SameOutside, TreeDelete.Rebalance;
      ghost var s, limit := pager.View(), pager.numPages;
      var child := LoadKid(kids, i, t);
      StoredSame(s, pager.View(), t);
      SameInside(s, pager.View(), t, limit);
      if !NodeUnderflow(child) {
        return Gone;
      }
      ghost var s1 := pager.View();
      ghost var removal := TreeDelete.Rebalance(n, keys, t.kids, i);
      RebalanceGood(n, keys, t.kids, i, h, lo, hi, after);
      RebalancedApart(t, i, limit);
      var keys', kids', broke := Rebalance(n, keys, kids, i, t, h, lo, hi, after);
      ghost var s2 := pager.View();
      if broke {
        StoredSame(s1, s2, t);
        SameInside(s, s2, t, limit);
        return Failed;
      }
      GoodFits(removal.t, h + 1, lo, hi, after);
      var ok := Write(n, Internal(keys', kids'));
      StoredFork(s2, pager.View(), removal.t, limit, n);
      OutsideAndRoot(s, s1, s2, pager.View(), t, limit);
      return Gone;
    }

    /** The end of `delete`: a root left with a single child gives way to it. */
    method CollapseRoot(root: nat, ghost t: Tree) returns (n: nat)
      requires Ready() && t.page == root && GoodTop(t, Height(t), I64_MIN, I64_LIMIT, None)
      requires Apart(t, pager.numPages) && Stored(pager.View(), t)
      modifies pager`file, pager.pool
      ensures Ready() && Same(old(pager.View()), pager.View())
      ensures n == Collapse(t).page && Stored(pager.View(), Collapse(t))
    {
      hide Ready, ImgOf, InPage, Stored, Apart, GoodTop, Good, Collapse, Height, Fits;
      n := root;
      ghost var v, h := t, Height(t);
      PageBelow(v, pager.numPages);
      GoodFits(v, h, I64_MIN, I64_LIMIT, None);
      StoredPage(pager.View(), v);
      var node := Load(n, NodeOf(v));
      StoredSame(old(pager.View()), pager.View(), v);
      while node.Internal? && node.keys == []
        invariant Ready() && Same(old(pager.View()), pager.View())
        invariant v.page == n && node == NodeOf(v) && Stored(pager.View(), v) && Apart(v, pager.numPages)
        invariant GoodTop(v, h, I64_MIN, I64_LIMIT, None) && Collapse(v) == Collapse(t)
        decreases h
      {
        CollapseStep(pager.View(), v, h, I64_MIN, I64_LIMIT, None, pager.numPages);
        n := node.kids[0];
        v, h := v.kids[0], h - 1;
        PageBelow(v, pager.numPages);
        StoredPage(pager.View(), v);
        ghost var s := pager.View();
        node := Load(n, NodeOf(v));
        StoredSame(s, pager.View(), v);
      }
      NotCollapsed(v);
    }

    /** `delete`: the tree without the key, and whether it was there. The ghost t' is
        the tree that the pages hold afterwards, also after the IndexError. */
    method Delete(root: nat, key: int, ghost t: Tree) returns (r: Deletion, ghost t': Tree)
      requires Ready() && Holding(root, t) && Whole(t, pager.numPages)
      modifies pager`file, pager`numPages, pager`touched, pager`shadow, pager.pool
      ensures Ready() && pager.numPages == old(pager.numPages)
      ensures pager.touched.Some? == old(pager.touched.Some?)
      ensures Whole(t', pager.numPages) && Holding(t'.page, t')
      ensures TreeOps.Delete(t, key) ==
              if r.Absent? then TreeOps.NotFound else if r.Fault? then TreeOps.IndexError(t') else TreeOps.Deleted(t')
      ensures r.Absent? <==> key !in TreeOps.TableOf(t)
      ensures r.Absent? ==> t' == t
      ensures r.Taken? ==> r.root == t'.page
      ensures TreeOps.TableOf(t') == TreeOps.TableOf(t) - {key}
      ensures SameOutside(old(pager.View()), pager.View(), t, pager.numPages)
    {
      hide Ready, ImgOf, InPage, Stored, Good, GoodTop, Apart, TreeDelete.DeleteAt, SameOutside, TreeOps.TableOf,
        Collapse;
      ghost var s0, n0 := pager.View(), pager.numPages;
      RemovalTables(t, key, n0);
      var found := DeleteAt(root, key, t, Height(t), I64_MIN, I64_LIMIT, None);
      ghost var removal := TreeDelete.DeleteAt(t, key);
      if found.NotThere? {
        StoredSame(s0, pager.View(), t);
        return Absent, t;
      }
      if found.Failed? {
        WholeShaped(removal.t, n0);
        return Fault, removal.t;
      }
      ghost var s1 := pager.View();
      GoodTopHeight(removal.t, Height(t));
      var root' := CollapseRoot(root, removal.t);
      OutsideThenSame(s0, s1, pager.View(), t, n0);
      t' := Collapse(removal.t);
      WholeShaped(t', n0);
      return Taken(root'), t';
    }

    // ---- range scan --------------------------------------------------------------

    /** `range_scan`: the entries between lo and hi, both inclusive and optional, in
        ascending key order, by following the leaf chain. */
    method RangeScan(root: nat, lo: Option<int>, hi: Option<int>, ghost t: Tree) returns (out: seq<Cell>)
      requires Ready() && Holding(root, t) && Whole(t, pager.numPages)
      modifies pager`file, pager.pool
      ensures Ready() && Same(old(pager.View()), pager.View())
      ensures out == Select(Items(t), lo, hi)
    {
      hide Ready, ImgOf, InPage, Stored, Apart, Good, Shaped, Items, Leaves, LeafRank, TreeBounds.LeafFor, Linked,
        CellsOf, Select, Sorted;
      ghost var s, limit := pager.View(), pager.numPages;
      var n := Descend(root, lo, t);
      ScanFacts(s, t, lo, hi, limit);
      ghost var ls, j := Leaves(t), LeafRank(t, StartKey(lo));
      out := [];
      while true
        invariant Ready() && Same(s, pager.View()) && pager.numPages == limit
        invariant j < |ls| && n == ls[j].page && (forall l :: l in ls[..j] ==> l.Tip?)
        invariant out == Select(CellsOf(ls[..j]), lo, hi)
        decreases |ls| - j
      {
        ghost var s1 := pager.View();
        InPageSame(s, s1, ls[j]);
        var node := Load(n, NodeOf(ls[j]));
        NextLeaf(ls, j);
        LeafStretch(ls, j);
        var done;
        out, done := ScanLeaf(node.cells, lo, hi, out, Items(t), |CellsOf(ls[..j])|);
        if done {
          return;
        }
        if node.next.None? {
          assert ls[..j + 1] == ls;
          return;
        }
        n := node.next.value;
        j := j + 1;
      }
    }

    /** The descent of a scan */
    method Descend(root: nat, lo: Option<int>, ghost t: Tree) returns (n: nat)
      requires Ready() && Holding(root, t)
      modifies pager`file, pager.pool
      ensures Ready() && Same(old(pager.View()), pager.View())
      ensures n == TreeBounds.LeafFor(t, StartKey(lo)).page
    {
      hide Ready, ImgOf, InPage, Stored, Apart, Shaped;
      ghost var s, u := pager.View(), t;
      n := root;
      PageBelow(u, pager.numPages);
      while true
        invariant Ready() && Same(s, pager.View())
        invariant u.page == n < pager.numPages && Shaped(u) && Apart(u, pager.numPages) && Stored(s, u)
        invariant TreeBounds.LeafFor(u, StartKey(lo)) == TreeBounds.LeafFor(t, StartKey(lo))
        decreases u
      {
        ghost var s1 := pager.View();
        StoredSame(s, s1, u);
        StoredPage(s1, u);
        var node := Load(n, NodeOf(u));
        match node {
          case Leaf(_, _) =>
            return;
          case Internal(keys, kids) =>
            DescendScan(s, u, lo, pager.numPages);
            var i := if lo.None? then 0 else ChildIndex(keys, lo.value);
            n := kids[i];
            u := u.kids[i];
        }
      }
    }
  }

  /** The inner loop of `range_scan`, over one leaf's cells; they stand at position p of
      all. Done is the return at the first key above hi. */
  method ScanLeaf(cells: seq<Cell>, lo: Option<int>, hi: Option<int>, before: seq<Cell>, ghost all: seq<Cell>,
                  ghost p: nat)
    returns (out: seq<Cell>, done: bool)
    requires Sorted(all) && p + |cells| <= |all| && all[p..p + |cells|] == cells
    requires before == Select(all[..p], lo, hi)
    ensures out == Select(if done then all else all[..p + |cells|], lo, hi)
  {
    hide Select, Sorted;
    out, done := before, false;
    for q := 0 to |cells|
      invariant out == Select(all[..p + q], lo, hi)
    {
      var c := cells[q];
      assert all[p + q] == c;
      SelectNext(all, p + q, lo, hi);
      assert all[..p + q + 1] == all[..p + (q + 1)];
      if lo.Some? && c.key < lo.value {
        continue;
      }
      if hi.Some? && c.key > hi.value {
        SelectDone(all, p + q, lo, hi);
        return out, true;
      }
      out := out + [c];
    }
  }
}
