// Sorted runs of cells, and the table (a finite map) that such a run stands for.

module Cells {
  import opened Bytes
  import opened NodeCodec

  ghost predicate Sorted(cells: seq<Cell>) {
    forall i, j :: 0 <= i < j < |cells| ==> cells[i].key < cells[j].key
  }

  ghost predicate Within(cells: seq<Cell>, lo: int, hi: int) {
    forall i :: 0 <= i < |cells| ==> lo <= cells[i].key < hi
  }

  ghost predicate AllBelow(s: seq<Cell>, k: int) {
    forall i :: 0 <= i < |s| ==> s[i].key < k
  }

  ghost predicate AllAbove(s: seq<Cell>, k: int) {
    forall i :: 0 <= i < |s| ==> k < s[i].key
  }

  /** `bisect_left([c[0] for c in cells], k)` on a sorted list */
  function CellIndex(cells: seq<Cell>, k: int): (i: nat)
    ensures i <= |cells|
    ensures forall j :: 0 <= j < i ==> cells[j].key < k
    ensures i < |cells| ==> k <= cells[i].key
  {
    if cells == [] || k <= cells[0].key then 0 else 1 + CellIndex(cells[1..], k)
  }

  predicate Holds(cells: seq<Cell>, k: int) {
    var i := CellIndex(cells, k);
    i < |cells| && cells[i].key == k
  }

  /** One more cell, put in its place. */
  function InsertSorted(s: seq<Cell>, c: Cell): seq<Cell> {
    var i := CellIndex(s, c.key);
    s[..i] + [c] + s[i..]
  }

  /** The cell with key k taken out. */
  function RemoveSorted(s: seq<Cell>, k: int): seq<Cell>
    requires Holds(s, k)
  {
    var i := CellIndex(s, k);
    s[..i] + s[i + 1..]
  }

  /** The cell with c's key replaced by c. */
  function OverwriteSorted(s: seq<Cell>, c: Cell): seq<Cell>
    requires Holds(s, c.key)
  {
    s[CellIndex(s, c.key) := c]
  }

  lemma CellIndexIs(s: seq<Cell>, k: int, i: nat)
    requires i <= |s|
    requires forall j :: 0 <= j < i ==> s[j].key < k
    requires i < |s| ==> k <= s[i].key
    ensures CellIndex(s, k) == i
  {
    hide CellIndex;
    var n := CellIndex(s, k);
    assert !(n < i) && !(i < n);
  }

  lemma SortedConcat(a: seq<Cell>, b: seq<Cell>, lo: int, mid: int, hi: int)
    requires lo <= mid <= hi
    requires Sorted(a) && Within(a, lo, mid) && Sorted(b) && Within(b, mid, hi)
    ensures Sorted(a + b) && Within(a + b, lo, hi)
  {
  }

  /** A sorted run around the search position of k. */
  lemma SortedParts(s: seq<Cell>, k: int)
    requires Sorted(s)
    ensures var i := CellIndex(s, k);
      && s == s[..i] + s[i..] && AllBelow(s[..i], k)
      && (Holds(s, k) ==> s == s[..i] + [s[i]] + s[i + 1..] && AllAbove(s[i + 1..], k))
      && (!Holds(s, k) ==> AllAbove(s[i..], k))
  {
    hide CellIndex;
  }

  // ---- operations inside a run --------------------------------------------

  // When everything before mid is below k and everything after is above, an
  // operation on k happens inside mid.

  lemma IndexAround(pre: seq<Cell>, mid: seq<Cell>, post: seq<Cell>, k: int)
    requires AllBelow(pre, k) && AllAbove(post, k)
    ensures CellIndex(pre + mid + post, k) == |pre| + CellIndex(mid, k)
    ensures Holds(pre + mid + post, k) == Holds(mid, k)
    ensures var i := CellIndex(mid, k);
      (pre + mid + post)[..|pre| + i] == pre + mid[..i] && (pre + mid + post)[|pre| + i..] == mid[i..] + post
  {
    var s, i := pre + mid + post, CellIndex(mid, k);
    CellIndexHolds(mid, k);
    hide CellIndex;
    SearchAround(pre, mid, post, k, i);
    CellIndexIs(s, k, |pre| + i);
    assert s[..|pre| + i] == pre + mid[..i] && s[|pre| + i..] == mid[i..] + post;
    assert i < |mid| ==> s[|pre| + i] == mid[i];
    assert i == |mid| && post != [] ==> s[|pre| + i] == post[0];
  }

  lemma CellIndexHolds(s: seq<Cell>, k: int)
    ensures var i := CellIndex(s, k);
      AllBelow(s[..i], k) && (i < |s| ==> k <= s[i].key)
  {
  }

  lemma SearchAround(pre: seq<Cell>, mid: seq<Cell>, post: seq<Cell>, k: int, i: nat)
    requires AllBelow(pre, k) && AllAbove(post, k) && i <= |mid|
    requires AllBelow(mid[..i], k) && (i < |mid| ==> k <= mid[i].key)
    ensures var s := pre + mid + post;
      && (forall j :: 0 <= j < |pre| + i ==> s[j].key < k)
      && (|pre| + i < |s| ==> k <= s[|pre| + i].key)
  {
    var s := pre + mid + post;
    forall j | 0 <= j < |pre| + i
      ensures s[j].key < k
    {
      assert s[j] == if j < |pre| then pre[j] else mid[..i][j - |pre|];
    }
    if |pre| + i < |s| {
      assert s[|pre| + i] == if i < |mid| then mid[i] else post[0];
    }
  }

  lemma InsertAround(pre: seq<Cell>, mid: seq<Cell>, post: seq<Cell>, c: Cell)
    requires AllBelow(pre, c.key) && AllAbove(post, c.key)
    ensures InsertSorted(pre + mid + post, c) == pre + InsertSorted(mid, c) + post
    ensures Holds(pre + mid + post, c.key) == Holds(mid, c.key)
  {
    hide CellIndex, Holds;
    IndexAround(pre, mid, post, c.key);
    var s, i := pre + mid + post, CellIndex(mid, c.key);
    assert s[..|pre| + i] + [c] + s[|pre| + i..] == pre + (mid[..i] + [c] + mid[i..]) + post;
  }

  lemma RemoveAround(pre: seq<Cell>, mid: seq<Cell>, post: seq<Cell>, k: int)
    requires AllBelow(pre, k) && AllAbove(post, k)
    ensures Holds(pre + mid + post, k) == Holds(mid, k)
    ensures Holds(mid, k) ==> RemoveSorted(pre + mid + post, k) == pre + RemoveSorted(mid, k) + post
  {
    hide CellIndex;
    IndexAround(pre, mid, post, k);
    if Holds(mid, k) {
      var s, i := pre + mid + post, CellIndex(mid, k);
      assert s[|pre| + i + 1..] == mid[i + 1..] + post;
    }
  }

  lemma OverwriteAround(pre: seq<Cell>, mid: seq<Cell>, post: seq<Cell>, c: Cell)
    requires AllBelow(pre, c.key) && AllAbove(post, c.key)
    ensures Holds(pre + mid + post, c.key) == Holds(mid, c.key)
    ensures Holds(mid, c.key) ==> OverwriteSorted(pre + mid + post, c) == pre + OverwriteSorted(mid, c) + post
  {
    hide CellIndex;
    IndexAround(pre, mid, post, c.key);
  }

  // ---- the table ----------------------------------------------------------

  type Table = map<int, seq<Byte>>

  function AsMap(s: seq<Cell>): Table {
    if s == [] then map[] else map[s[0].key := s[0].val] + AsMap(s[1..])
  }

  lemma MergeAssociates(a: Table, b: Table, c: Table)
    ensures a + (b + c) == (a + b) + c
  {
  }

  lemma {:induction false} AsMapConcat(a: seq<Cell>, b: seq<Cell>)
    ensures AsMap(a + b) == AsMap(a) + AsMap(b)
    decreases |a|
  {
    if a == [] {
      assert a + b == b;
    } else {
      assert (a + b)[1..] == a[1..] + b;
      AsMapConcat(a[1..], b);
      MergeAssociates(map[a[0].key := a[0].val], AsMap(a[1..]), AsMap(b));
    }
  }

  lemma AsMapOne(c: Cell)
    ensures AsMap([c]) == map[c.key := c.val]
  {
    assert [c][1..] == [];
  }

  lemma AsMapAround(pre: seq<Cell>, c: Cell, post: seq<Cell>)
    ensures AsMap(pre + [c] + post) == AsMap(pre) + map[c.key := c.val] + AsMap(post)
  {
    AsMapOne(c);
    hide AsMap;
    AsMapConcat(pre + [c], post);
    AsMapConcat(pre, [c]);
  }

  lemma {:induction false} NotInRun(s: seq<Cell>, k: int)
    requires AllBelow(s, k) || AllAbove(s, k)
    ensures k !in AsMap(s)
    decreases |s|
  {
    if s != [] {
      NotInRun(s[1..], k);
    }
  }

  /** Being a key of the table, and the value there, are read off the search position. */
  lemma Lookup(s: seq<Cell>, k: int)
    requires Sorted(s)
    ensures k in AsMap(s) <==> Holds(s, k)
    ensures Holds(s, k) ==> AsMap(s)[k] == s[CellIndex(s, k)].val
  {
    hide AsMap, CellIndex;
    var i := CellIndex(s, k);
    SortedParts(s, k);
    NotInRun(s[..i], k);
    if Holds(s, k) {
      AsMapAround(s[..i], s[i], s[i + 1..]);
      NotInRun(s[i + 1..], k);
    } else {
      AsMapConcat(s[..i], s[i..]);
      NotInRun(s[i..], k);
    }
  }

  lemma InsertMap(s: seq<Cell>, c: Cell)
    requires Sorted(s) && !Holds(s, c.key)
    ensures Sorted(InsertSorted(s, c))
    ensures AsMap(InsertSorted(s, c)) == AsMap(s)[c.key := c.val]
  {
    hide AsMap, CellIndex;
    var i := CellIndex(s, c.key);
    SortedParts(s, c.key);
    AsMapConcat(s[..i], s[i..]);
    AsMapAround(s[..i], c, s[i..]);
    NotInRun(s[i..], c.key);
  }

  lemma RemoveMap(s: seq<Cell>, k: int)
    requires Sorted(s) && Holds(s, k)
    ensures Sorted(RemoveSorted(s, k))
    ensures AsMap(RemoveSorted(s, k)) == AsMap(s) - {k}
  {
    var i := CellIndex(s, k);
    SortedParts(s, k);
    assert Holds(s, k) && i < |s| && s[i].key == k;
    RemovedIs(s, k);
    hide *;
    AsMapAround(s[..i], s[i], s[i + 1..]);
    AsMapConcat(s[..i], s[i + 1..]);
    NotInRun(s[..i], k);
    NotInRun(s[i + 1..], k);
    MinusOne(AsMap(s[..i]), AsMap(s[i + 1..]), k, s[i].val);
  }

  lemma RemovedIs(s: seq<Cell>, k: int)
    requires Sorted(s) && Holds(s, k)
    ensures var i := CellIndex(s, k);
      RemoveSorted(s, k) == s[..i] + s[i + 1..] && Sorted(RemoveSorted(s, k))
  {
    hide CellIndex;
  }

  lemma MinusOne(a: Table, b: Table, k: int, v: seq<Byte>)
    requires k !in a && k !in b
    ensures (a + b)[k := v] - {k} == a + b && (a + map[k := v] + b) - {k} == a + b
  {
  }

  lemma OverwriteMap(s: seq<Cell>, c: Cell)
    requires Sorted(s) && Holds(s, c.key)
    ensures Sorted(OverwriteSorted(s, c))
    ensures AsMap(OverwriteSorted(s, c)) == AsMap(s)[c.key := c.val]
  {
    hide AsMap, CellIndex;
    var i := CellIndex(s, c.key);
    SortedParts(s, c.key);
    AsMapAround(s[..i], s[i], s[i + 1..]);
    AsMapAround(s[..i], c, s[i + 1..]);
    assert OverwriteSorted(s, c) == s[..i] + [c] + s[i + 1..];
    NotInRun(s[i + 1..], c.key);
  }
}
