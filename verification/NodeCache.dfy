// The node cache of the tree (leafdb/btree.py, _load): decoded nodes are kept beside the
// bytes object they were decoded from, and changed in place. Inserts into one leaf and
// searches of it, inside a transaction that is rolled back; a transaction evicts nothing, so
// every page here is in the pool.

module NodeCache {
  import opened Bytes
  import opened Disk
  import opened NodeCodec
  import opened Cells
  import Pager
  import TreeBounds

  /** A bytes object: `is` compares identities. */
  datatype Image = Image(id: nat, data: Page)

  /** The identity of the image that a node was decoded from, and the node. */
  datatype Cached = Cached(id: nat, node: Node)

  datatype Op = Put(cell: Cell) | Find(key: int)

  /** The ValueError of a page overflow is IsRefused. */
  datatype Outcome = Got(val: Option<seq<Byte>>) | IsDuplicate | IsRefused | IsDone | IsSplit

  /** The leaf was written. */
  predicate Wrote(o: Outcome) {
    o.IsDone? || o.IsSplit?
  }

  /** The node of the leaf was changed in memory. */
  predicate Changed(o: Outcome) {
    Wrote(o) || o.IsRefused?
  }

  /** Leaves whose cells can be written. */
  predicate Legal(node: Node) {
    && node.Leaf? && (node.next.Some? ==> node.next.value < NO_PAGE)
    && forall i :: 0 <= i < |node.cells| ==> StorableCell(node.cells[i])
  }

  /** Both halves of the cells fit a page. */
  predicate Halved(cells: seq<Cell>, next: Option<nat>) {
    var mid := |cells| / 2;
    && mid > 0
    && NodeSize(Leaf(cells[..mid], None)) <= PAGE_SIZE && NodeSize(Leaf(cells[mid..], next)) <= PAGE_SIZE
  }

  /** The halves are in their pages. */
  ghost predicate TwoLeaves(pool: map<nat, Image>, n: nat, page: nat, cells: seq<Cell>, next: Option<nat>) {
    var mid := |cells| / 2;
    && n in pool && page in pool
    && Decode(pool[n].data) == Some(Leaf(cells[..mid], Some(page)))
    && Decode(pool[page].data) == Some(Leaf(cells[mid..], next))
  }

  lemma HalfSize(cells: seq<Cell>, next: Option<nat>, page: nat)
    ensures NodeSize(Leaf(cells[..|cells| / 2], Some(page))) == NodeSize(Leaf(cells[..|cells| / 2], None))
  {
    hide CellsSize;
  }

  lemma LegalInsert(node: Node, c: Cell)
    requires Legal(node) && StorableCell(c)
    ensures Legal(Leaf(InsertSorted(node.cells, c), node.next))
  {
    hide CellIndex;
  }

  const CACHE_LIMIT: nat := 512

  /** The cache once page n has been loaded: one that was too large starts afresh when a node
      is decoded. */
  function AfterLoad(cache: map<nat, Cached>, n: nat, id: nat, node: Node): map<nat, Cached> {
    if n in cache && cache[n].id == id then cache
    else (if |cache| > CACHE_LIMIT then map[] else cache)[n := Cached(id, node)]
  }

  /** The saved images after a write of page n. */
  function Saved(shadow: Option<map<nat, Option<Image>>>, pool: map<nat, Image>, n: nat):
    Option<map<nat, Option<Image>>>
  {
    if shadow.None? || n in shadow.value then shadow
    else Some(shadow.value[n := if n in pool then Some(pool[n]) else None])
  }

  /** What is saved for page n, if it was written over this image. */
  ghost predicate SavedAt(shadow: map<nat, Option<Image>>, shadow': map<nat, Option<Image>>, n: nat, wrote: bool,
                          img: Image) {
    if n in shadow then n in shadow' && shadow'[n] == shadow[n]
    else if wrote then n in shadow' && shadow'[n] == Some(img)
    else n !in shadow'
  }

  lemma NotSaved(shadow: Option<map<nat, Option<Image>>>, n: nat, img: Image)
    ensures shadow.Some? ==> SavedAt(shadow.value, shadow.value, n, false, img)
  {
  }

  lemma SavedOnce(shadow: Option<map<nat, Option<Image>>>, pool: map<nat, Image>, n: nat)
    requires n in pool
    ensures Saved(shadow, pool, n).Some? == shadow.Some?
    ensures shadow.Some? ==> SavedAt(shadow.value, Saved(shadow, pool, n).value, n, true, pool[n])
  {
  }

  /** What is saved for page n when another page is written twice, and then page n. */
  lemma SavedSplit(shadow: Option<map<nat, Option<Image>>>, pool: map<nat, Image>, n: nat, page: nat,
                   pool1: map<nat, Image>, pool2: map<nat, Image>)
    requires n != page && n in pool && n in pool2 && pool2[n] == pool[n]
    ensures var s1 := Saved(shadow, pool, page); var s2 := Saved(s1, pool1, page); var s3 := Saved(s2, pool2, n);
      && s1.Some? == shadow.Some? && s2.Some? == shadow.Some? && s3.Some? == shadow.Some?
      && (shadow.Some? ==>
            && SavedAt(shadow.value, s1.value, n, false, pool[n])
            && SavedAt(shadow.value, s2.value, n, false, pool[n])
            && SavedAt(shadow.value, s3.value, n, true, pool[n]))
  {
  }

  lemma LegalFits(node: Node)
    requires Legal(node) && NodeSize(node) <= PAGE_SIZE
    ensures Fits(node)
  {
    CellsSizeBounds(node.cells, 12, U32_LIMIT + 12);
  }

  lemma DecodeWritten(node: Node)
    requires Legal(node) && NodeSize(node) <= PAGE_SIZE
    ensures Fits(node) && Decode(PageOf(node)) == Some(node)
  {
    LegalFits(node);
    DecodePage(node);
  }

  class Nodes {
    var pool: map<nat, Image>
    var count: nat
    var shadow: Option<map<nat, Option<Image>>>
    var cache: map<nat, Cached>
    // identities given out so far
    var born: nat

    ghost predicate Valid()
      reads this
    {
      && (forall n :: n in pool ==> n < count && pool[n].id < born)
      && (forall n :: n in cache ==> cache[n].id < born)
      && (shadow.Some? ==>
            forall n :: n in shadow.value ==>
              n < count && (shadow.value[n].Some? ==> shadow.value[n].value.id < born))
    }

    /** Page n holds a leaf, and so does the cache if it knows the page. */
    ghost predicate LeafAt(n: nat)
      reads this
    {
      && n in pool && Decode(pool[n].data).Some? && Legal(Decode(pool[n].data).value)
      && (n in cache ==> Legal(cache[n].node))
    }

    /** What loading page n gives. */
    ghost function Loaded(n: nat): Node
      requires n in pool && Decode(pool[n].data).Some?
      reads this
    {
      if n in cache && cache[n].id == pool[n].id then cache[n].node else Decode(pool[n].data).value
    }

    /** Loading page n gives another node than the page holds. */
    ghost predicate Stale(n: nat)
      requires n in pool && Decode(pool[n].data).Some?
      reads this
    {
      Loaded(n) != Decode(pool[n].data).value
    }

    constructor (page: Page)
      ensures Valid() && pool == map[0 := Image(0, page)] && count == 1 && shadow == None && cache == map[]
    {
      pool, count, shadow, cache, born := map[0 := Image(0, page)], 1, None, map[], 1;
    }

    /** `_load`: when the page is decoded, a cache that has grown too large is emptied. */
    method Load(n: nat) returns (node: Node)
      requires Valid() && LeafAt(n)
      modifies `cache
      ensures cache == AfterLoad(old(cache), n, pool[n].id, node)
      ensures Valid() && LeafAt(n) && node == old(Loaded(n)) && n in cache && cache[n] == Cached(pool[n].id, node)
    {
      var img := pool[n];
      if n in cache && cache[n].id == img.id {
        return cache[n].node;
      }
      var decoded := NodeFromBytes(img.data);
      node := decoded.value;
      if |cache| > CACHE_LIMIT {
        cache := map[];
      }
      cache := cache[n := Cached(img.id, node)];
    }

    /** The pager's `write` of a whole page: a new bytes object. The first one of a transaction
        saves the object that was there. */
    method Write(n: nat, data: Page)
      requires Valid() && n < count
      modifies `pool, `shadow, `born
      ensures Valid() && pool == old(pool)[n := Image(old(born), data)] && born == old(born) + 1
      ensures shadow == Saved(old(shadow), old(pool), n)
    {
      shadow := Saved(shadow, pool, n);
      pool := pool[n := Image(born, data)];
      born := born + 1;
    }

    /** `pager.write(n, node.to_bytes())`; false is the ValueError, before anything else. */
    method WriteNode(n: nat, node: Node) returns (ok: bool)
      requires Valid() && Legal(node) && n < count
      modifies `pool, `shadow, `born
      ensures Valid() && ok == (NodeSize(node) <= PAGE_SIZE)
      ensures !ok ==> pool == old(pool) && shadow == old(shadow) && born == old(born)
      ensures ok ==> Fits(node) && pool == old(pool)[n := Image(old(born), PageOf(node))]
      ensures ok ==> shadow == Saved(old(shadow), old(pool), n) && born == old(born) + 1
    {
      if NodeSize(node) > PAGE_SIZE {
        return false;
      }
      LegalFits(node);
      hide ToBytes, Storable, NodeSize, Legal, CellsSize;
      Write(n, PageOf(node));
      return true;
    }

    /** `allocate` */
    method Allocate() returns (n: nat)
      requires Valid()
      modifies `pool, `count, `shadow, `born
      ensures Valid() && n == old(count) && count == n + 1
      ensures pool == old(pool)[n := Image(old(born), Zeros(PAGE_SIZE))] && born == old(born) + 1
      ensures shadow == Saved(old(shadow), old(pool), n)
    {
      n := count;
      count := count + 1;
      Write(n, Zeros(PAGE_SIZE));
    }

    /** `search`, at a leaf */
    method Search(n: nat, key: int) returns (r: Option<seq<Byte>>)
      requires Valid() && LeafAt(n)
      modifies `cache
      ensures Valid() && LeafAt(n) && n in cache && cache[n] == Cached(pool[n].id, old(Loaded(n)))
      ensures var cells := old(Loaded(n)).cells;
        r == if Holds(cells, key) then Some(cells[CellIndex(cells, key)].val) else None
    {
      var node := Load(n);
      var i := CellIndex(node.cells, key);
      if i < |node.cells| && node.cells[i].key == key {
        return Some(node.cells[i].val);
      }
      return None;
    }

    /** `_insert` and `_split_leaf`, at a leaf. The node in the cache is changed in place and
        stays beside the image it was decoded from; the page is changed only if the
        outcome says so. */
    method Insert(n: nat, c: Cell) returns (r: Outcome)
      requires Valid() && LeafAt(n) && StorableCell(c) && count < NO_PAGE
      modifies this
      ensures Valid() && LeafAt(n) && old(count) <= count <= old(count) + 1 && shadow.Some? == old(shadow.Some?)
      ensures born >= old(born)
      ensures !r.Got? && (r.IsDuplicate? <==> Holds(old(Loaded(n)).cells, c.key))
      ensures var node := old(Loaded(n));
        n in cache &&
        cache[n] == Cached(old(pool[n].id),
                           if Changed(r) then Leaf(InsertSorted(node.cells, c), node.next) else node)
      ensures if Wrote(r) then pool[n].id >= old(born) else pool[n] == old(pool[n])
      ensures shadow.Some? ==> SavedAt(old(shadow).value, shadow.value, n, Wrote(r), old(pool[n]))
      ensures var cells, next := InsertSorted(old(Loaded(n)).cells, c), old(Loaded(n)).next;
        && (r.IsDone? ==> NodeSize(Leaf(cells, next)) <= PAGE_SIZE && Decode(pool[n].data) == Some(Leaf(cells, next)))
        && (r.IsRefused? ==> NodeSize(Leaf(cells, next)) > PAGE_SIZE && !Halved(cells, next))
        && (r.IsSplit? ==> NodeSize(Leaf(cells, next)) > PAGE_SIZE && Halved(cells, next))
        && (r.IsSplit? ==> TwoLeaves(pool, n, old(count), cells, next))
    {
      hide AfterLoad;
      var node := Load(n);
      LegalInsert(node, c);
      var i := CellIndex(node.cells, c.key);
      if i < |node.cells| && node.cells[i].key == c.key {
        return IsDuplicate;
      }
      var cells := node.cells[..i] + [c] + node.cells[i..];
      assert cells == InsertSorted(node.cells, c) && !Holds(node.cells, c.key);
      hide CellIndex, CellsSize, Decode, PageOf, ToBytes, NodeSize, Legal, InsertSorted, Holds, Nodes.Valid, Saved,
        SavedAt;
      NotSaved(shadow, n, pool[n]);
      Change(n, Leaf(cells, node.next));
      if NodeSize(Leaf(cells, node.next)) <= PAGE_SIZE {
        DecodeWritten(Leaf(cells, node.next));
        SavedOnce(shadow, pool, n);
        var ok := WriteNode(n, Leaf(cells, node.next));
        return IsDone;
      }
      r := SplitLeaf(n, cells, node.next);
    }

    /** A change of the cached node in place. */
    method Change(n: nat, node: Node)
      requires Valid() && LeafAt(n) && n in cache
      modifies `cache
      ensures cache == old(cache)[n := Cached(old(cache[n].id), node)]
      ensures Valid() && (Legal(node) ==> LeafAt(n))
    {
      cache := cache[n := Cached(cache[n].id, node)];
    }

    /** `_split_leaf`, with the node that has grown too large */
    method SplitLeaf(n: nat, cells: seq<Cell>, next: Option<nat>) returns (r: Outcome)
      requires Valid() && LeafAt(n) && Legal(Leaf(cells, next)) && count < NO_PAGE
      modifies `pool, `count, `shadow, `born
      ensures Valid() && LeafAt(n) && old(count) <= count <= old(count) + 1 && shadow.Some? == old(shadow.Some?)
      ensures born >= old(born)
      ensures if Halved(cells, next) then r.IsSplit? && TwoLeaves(pool, n, old(count), cells, next) else r.IsRefused?
      ensures if Wrote(r) then pool[n].id >= old(born) else pool[n] == old(pool[n])
      ensures shadow.Some? ==> SavedAt(old(shadow).value, shadow.value, n, Wrote(r), old(pool[n]))
    {
      hide CellsSize, Decode, PageOf, ToBytes, NodeSize, Saved, SavedAt;
      NotSaved(shadow, n, pool[n]);
      HalfSize(cells, next, count);
      var mid := |cells| / 2;
      if mid == 0 {
        return IsRefused;
      }
      var right, left := Leaf(cells[mid..], next), Leaf(cells[..mid], Some(count));
      assert Legal(right) && Legal(left);
      hide Legal;
      ghost var pool0, shadow0 := pool, shadow;
      var page := Allocate();
      ghost var pool1 := pool;
      SavedSplit(shadow0, pool0, n, page, pool1, pool1);
      var ok := WriteNode(page, right);
      if !ok {
        return IsRefused;
      }
      SavedSplit(shadow0, pool0, n, page, pool1, pool);
      ok := WriteNode(n, left);
      if !ok {
        return IsRefused;
      }
      DecodeWritten(left);
      DecodeWritten(right);
      return IsSplit;
    }

    method Begin()
      requires Valid() && shadow == None
      modifies `shadow
      ensures Valid() && shadow == Some(map[])
    {
      shadow := Some(map[]);
    }

    /** `rollback_txn`: the saved bytes objects themselves come back. */
    method Rollback()
      requires Valid() && shadow.Some?
      modifies `pool, `shadow
      ensures Valid() && shadow == None
      ensures forall n :: n in pool <==>
        (n in old(shadow).value && old(shadow).value[n].Some?) || (n !in old(shadow).value && n in old(pool))
      ensures forall n :: n in pool ==>
        pool[n] == if n in old(shadow).value then old(shadow).value[n].value else old(pool)[n]
    {
      var saved := shadow.value;
      var restored := map n | n in saved && saved[n].Some? :: saved[n].value;
      pool := (map n | n in pool && n !in saved :: pool[n]) + restored;
      shadow := None;
    }
  }

  // ---- a transaction that is rolled back ------------------------------------------------------

  predicate Writable(op: Op) {
    op.Put? ==> StorableCell(op.cell)
  }

  method Do(nodes: Nodes, n: nat, op: Op) returns (o: Outcome)
    requires nodes.Valid() && nodes.LeafAt(n) && Writable(op) && nodes.count < NO_PAGE && nodes.shadow.Some?
    modifies nodes
    ensures nodes.Valid() && nodes.LeafAt(n) && nodes.count <= old(nodes.count) + 1 && nodes.shadow.Some?
    ensures n in nodes.cache && nodes.cache[n].id == old(nodes.pool[n].id)
    ensures GrownBy(old(nodes.Loaded(n)), nodes.cache[n].node, if Changed(o) then 1 else 0)
    ensures if Wrote(o) then nodes.pool[n].id >= old(nodes.born) else nodes.pool[n] == old(nodes.pool[n])
    ensures SavedAt(old(nodes.shadow).value, nodes.shadow.value, n, Wrote(o), old(nodes.pool[n]))
    ensures nodes.born >= old(nodes.born)
  {
    hide Decode, CellIndex, Nodes.Valid;
    match op {
      case Put(c) =>
        o := nodes.Insert(n, c);
      case Find(key) =>
        var r := nodes.Search(n, key);
        o := Got(r);
    }
  }

  /** The leaf with that many cells more, or the same one. */
  ghost predicate GrownBy(node: Node, node': Node, k: nat) {
    node.Leaf? && node'.Leaf? && |node'.cells| == |node.cells| + k && (k == 0 ==> node' == node)
  }

  ghost predicate SomeChanged(outs: seq<Outcome>) {
    exists i :: 0 <= i < |outs| && Changed(outs[i])
  }

  ghost predicate SomeWrote(outs: seq<Outcome>) {
    exists i :: 0 <= i < |outs| && Wrote(outs[i])
  }

  /** No operation but possibly the last one has written the leaf. */
  ghost predicate OnlyLastWrote(outs: seq<Outcome>) {
    forall i :: 0 <= i < |outs| - 1 ==> !Wrote(outs[i])
  }

  lemma OneMoreOutcome(outs: seq<Outcome>, o: Outcome)
    ensures SomeChanged(outs + [o]) <==> SomeChanged(outs) || Changed(o)
    ensures SomeWrote(outs + [o]) <==> SomeWrote(outs) || Wrote(o)
    ensures OnlyLastWrote(outs + [o]) <==> !SomeWrote(outs)
  {
    var more := outs + [o];
    assert forall i :: 0 <= i < |outs| ==> more[i] == outs[i];
    assert more[|outs|] == o;
  }

  /** Inserts into a leaf and searches of it in a transaction that is then rolled back. The
      page is as before; but the cache goes on showing what the transaction did if and only
      if the leaf was changed in memory and was not loaded again after its first write. */
  method RunAndRollBack(nodes: Nodes, n: nat, ops: seq<Op>) returns (outs: seq<Outcome>)
    requires nodes.Valid() && nodes.LeafAt(n) && nodes.shadow == None && !nodes.Stale(n)
    requires nodes.count + |ops| <= NO_PAGE && forall i :: 0 <= i < |ops| ==> Writable(ops[i])
    modifies nodes
    ensures |outs| == |ops| && nodes.Valid() && nodes.LeafAt(n) && nodes.shadow == None
    ensures nodes.pool[n] == old(nodes.pool[n])
    ensures nodes.Stale(n) <==> SomeChanged(outs) && OnlyLastWrote(outs)
  {
    hide Decode, Nodes.Valid, Legal, SomeChanged, SomeWrote, OnlyLastWrote, Changed, Wrote;
    ghost var img, born := nodes.pool[n], nodes.born;
    ghost var node, grown: nat := Decode(img.data).value, 0;
    LegalIsLeaf(node);
    NothingYet();
    outs := [];
    nodes.Begin();
    for k := 0 to |ops|
      invariant |outs| == k && nodes.Valid() && nodes.LeafAt(n) && nodes.shadow.Some?
      invariant nodes.count + |ops| - k <= NO_PAGE && nodes.born >= born
      invariant k > 0 ==> n in nodes.cache && (nodes.cache[n].id == img.id <==> OnlyLastWrote(outs))
      invariant n in nodes.cache && nodes.cache[n].id == img.id ==> GrownBy(node, nodes.cache[n].node, grown)
      invariant grown > 0 <==> SomeChanged(outs)
      invariant SomeWrote(outs) ==>
        n in nodes.shadow.value && nodes.shadow.value[n] == Some(img) && nodes.pool[n].id >= born
      invariant !SomeWrote(outs) ==> n !in nodes.shadow.value && nodes.pool[n] == img
    {
      NoneWrote(outs);
      ghost var loaded := nodes.Loaded(n);
      assert !SomeWrote(outs) ==> GrownBy(node, loaded, grown);
      var o := Do(nodes, n, ops[k]);
      OneMoreOutcome(outs, o);
      if GrownBy(node, loaded, grown) {
        GrownTwice(node, loaded, nodes.cache[n].node, grown, if Changed(o) then 1 else 0);
      }
      if Changed(o) {
        grown := grown + 1;
      }
      outs := outs + [o];
    }
    nodes.Rollback();
  }

  lemma NoneWrote(outs: seq<Outcome>)
    ensures !SomeWrote(outs) ==> OnlyLastWrote(outs)
    ensures outs == [] ==> !SomeChanged(outs)
  {
  }

  lemma GrownTwice(a: Node, b: Node, c: Node, j: nat, k: nat)
    requires GrownBy(a, b, j) && GrownBy(b, c, k)
    ensures GrownBy(a, c, j + k)
  {
  }

  lemma LegalIsLeaf(node: Node)
    requires Legal(node)
    ensures node.Leaf?
  {
  }

  lemma NothingYet()
    ensures !SomeChanged([]) && !SomeWrote([]) && OnlyLastWrote([])
  {
  }

  lemma InsertedIsHeld(cells: seq<Cell>, c: Cell)
    requires !Holds(cells, c.key)
    ensures var all := InsertSorted(cells, c); Holds(all, c.key) && all[CellIndex(all, c.key)] == c
  {
    var i := CellIndex(cells, c.key);
    var all := InsertSorted(cells, c);
    hide CellIndex;
    CellIndexIs(all, c.key, i);
  }

  /** A row whose insert is rolled back at once, be it written or refused, is found by the
      next search of the leaf, although its page has no such row. */
  method InsertRolledBack(nodes: Nodes, n: nat, c: Cell) returns (o: Outcome, r: Option<seq<Byte>>)
    requires nodes.Valid() && nodes.LeafAt(n) && nodes.shadow == None && !nodes.Stale(n)
    requires StorableCell(c) && nodes.count < NO_PAGE
    modifies nodes
    ensures nodes.Valid() && nodes.LeafAt(n) && nodes.shadow == None && nodes.pool[n] == old(nodes.pool[n])
    ensures Changed(o) <==> !Holds(Decode(nodes.pool[n].data).value.cells, c.key)
    ensures Changed(o) ==> r == Some(c.val)
    ensures var cells, next := InsertSorted(old(nodes.Loaded(n)).cells, c), old(nodes.Loaded(n)).next;
      && (o.IsDone? <==> Changed(o) && NodeSize(Leaf(cells, next)) <= PAGE_SIZE)
      && (o.IsRefused? <==> Changed(o) && NodeSize(Leaf(cells, next)) > PAGE_SIZE && !Halved(cells, next))
  {
    LegalIsLeaf(nodes.Loaded(n));
    hide Decode, CellIndex, Nodes.Valid, Legal, NodeSize, Halved, TwoLeaves;
    ghost var cells := nodes.Loaded(n).cells;
    nodes.Begin();
    o := nodes.Insert(n, c);
    if Changed(o) {
      InsertedIsHeld(cells, c);
    }
    hide InsertSorted, Holds;
    nodes.Rollback();
    r := nodes.Search(n, c.key);
  }

  /** A leaf with these cells, in page 0 of a new pool */
  method LeafPage(cells: seq<Cell>) returns (nodes: Nodes)
    requires Legal(Leaf(cells, None)) && NodeSize(Leaf(cells, None)) <= PAGE_SIZE
    ensures fresh(nodes) && nodes.Valid() && nodes.LeafAt(0) && nodes.shadow == None && nodes.count == 1
    ensures Decode(nodes.pool[0].data) == Some(Leaf(cells, None)) && !nodes.Stale(0)
  {
    DecodeWritten(Leaf(cells, None));
    hide Decode, PageOf;
    nodes := new Nodes(PageOf(Leaf(cells, None)));
  }

  /** BEGIN, an insert into an empty leaf, ROLLBACK: the row is still found. */
  method RolledBackRowFound() returns (nodes: Nodes, o: Outcome, r: Option<seq<Byte>>)
    ensures nodes.LeafAt(0) && Decode(nodes.pool[0].data) == Some(Leaf([], None))
    ensures o == IsDone && r == Some([])
  {
    nodes := LeafPage([]);
    var c := Cell(1, []);
    assert CellIndex([], 1) == 0 && InsertSorted([], c) == [c];
    assert [c][1..] == [];
    hide Decode, Nodes.Valid;
    o, r := InsertRolledBack(nodes, 0, c);
  }

  /** Rows of 0 and 2048 bytes: a third one of 2048 is refused, the statement is rolled
      back, and the row is found. */
  method RefusedRowFound() returns (nodes: Nodes, o: Outcome, r: Option<seq<Byte>>)
    ensures nodes.LeafAt(0) && Decode(nodes.pool[0].data) == Some(Leaf([Cell(1, []), Cell(2, Zeros(2048))], None))
    ensures o == IsRefused && r == Some(Zeros(2048))
  {
    var big := Zeros(2048);
    var c1, c2, c3 := Cell(1, []), Cell(2, big), Cell(3, big);
    TreeBounds.Sizes(c1, c2, c3);
    hide CellsSize, Decode, Nodes.Valid;
    nodes := LeafPage([c1, c2]);
    CellIndexIs([c1, c2], 3, 2);
    var all := InsertSorted([c1, c2], c3);
    assert all == [c1, c2, c3] && all[1..] == [c2, c3];
    o, r := InsertRolledBack(nodes, 0, c3);
  }
}
