// The on-page format of B+ tree nodes (leafdb/btree.py:30-97).

module NodeCodec {
  import opened Bytes

  const NO_PAGE: nat := 0xFFFF_FFFF
  const LEAF_KIND: Byte := 0
  const INTERNAL_KIND: Byte := 1

  datatype Cell = Cell(key: int, val: seq<Byte>)

  datatype Node =
    | Leaf(cells: seq<Cell>, next: Option<nat>)
    | Internal(keys: seq<int>, kids: seq<nat>)

  // ---- sizes --------------------------------------------------------------

  function CellSize(c: Cell): nat {
    12 + |c.val|
  }

  function CellsSize(cells: seq<Cell>): nat {
    if cells == [] then 0 else CellSize(cells[0]) + CellsSize(cells[1..])
  }

  /** `serialized_size`, computed instead of measured; see SizeIsLength. */
  function NodeSize(node: Node): nat {
    match node
    case Leaf(cells, _) => 9 + CellsSize(cells)
    case Internal(keys, kids) => 9 + 8 * |keys| + 4 * |kids|
  }

  // ---- writing ------------------------------------------------------------

  /** The values the struct formats can hold. */
  predicate StorableCell(c: Cell) {
    IsI64(c.key) && IsU32(|c.val|)
  }

  predicate Storable(node: Node) {
    match node
    case Leaf(cells, next) =>
      && IsU32(|cells|)
      && (next.Some? ==> next.value < NO_PAGE)
      && (forall i :: 0 <= i < |cells| ==> StorableCell(cells[i]))
    case Internal(keys, kids) =>
      && IsU32(|keys|) && IsU32(|kids|)
      && (forall i :: 0 <= i < |keys| ==> IsI64(keys[i]))
      && (forall i :: 0 <= i < |kids| ==> IsU32(kids[i]))
  }

  function CellBytes(c: Cell): (r: seq<Byte>)
    requires StorableCell(c)
    ensures |r| == CellSize(c)
  {
    I64(c.key) + U32(|c.val|) + c.val
  }

  function CellsBytes(cells: seq<Cell>): (r: seq<Byte>)
    requires forall i :: 0 <= i < |cells| ==> StorableCell(cells[i])
    ensures |r| == CellsSize(cells)
  {
    if cells == [] then [] else CellBytes(cells[0]) + CellsBytes(cells[1..])
  }

  function KeysBytes(keys: seq<int>): (r: seq<Byte>)
    requires forall i :: 0 <= i < |keys| ==> IsI64(keys[i])
    ensures |r| == 8 * |keys|
  {
    if keys == [] then [] else I64(keys[0]) + KeysBytes(keys[1..])
  }

  function KidsBytes(kids: seq<nat>): (r: seq<Byte>)
    requires forall i :: 0 <= i < |kids| ==> IsU32(kids[i])
    ensures |r| == 4 * |kids|
  {
    if kids == [] then [] else U32(kids[0]) + KidsBytes(kids[1..])
  }

  function NextField(next: Option<nat>): nat {
    if next.None? then NO_PAGE else next.value
  }

  /** `to_bytes` */
  function ToBytes(node: Node): (r: seq<Byte>)
    requires Storable(node)
    ensures |r| == NodeSize(node)
  {
    match node
    case Leaf(cells, next) =>
      [LEAF_KIND] + U32(NextField(next)) + U32(|cells|) + CellsBytes(cells)
    case Internal(keys, kids) =>
      [INTERNAL_KIND] + U32(|keys|) + U32(|kids|) + KeysBytes(keys) + KidsBytes(kids)
  }

  // ---- reading ------------------------------------------------------------

  // None is a struct.error: the buffer ends inside a field.

  function ReadCells(buf: seq<Byte>, off: nat, n: nat): Option<seq<Cell>>
    decreases n
  {
    if n == 0 then Some([])
    else if off + 12 > |buf| then None
    else
      var stop := off + 12 + ReadU32(buf, off + 8);
      var val := buf[off + 12..if stop <= |buf| then stop else |buf|];
      match ReadCells(buf, stop, n - 1)
      case None => None
      case Some(rest) => Some([Cell(ReadI64(buf, off), val)] + rest)
  }

  function ReadKeys(buf: seq<Byte>, off: nat, n: nat): Option<seq<int>>
    decreases n
  {
    if n == 0 then Some([])
    else if off + 8 > |buf| then None
    else
      match ReadKeys(buf, off + 8, n - 1)
      case None => None
      case Some(rest) => Some([ReadI64(buf, off)] + rest)
  }

  function ReadKids(buf: seq<Byte>, off: nat, n: nat): Option<seq<nat>>
    decreases n
  {
    if n == 0 then Some([])
    else if off + 4 > |buf| then None
    else
      match ReadKids(buf, off + 4, n - 1)
      case None => None
      case Some(rest) => Some([ReadU32(buf, off)] + rest)
  }

  /** What `node_from_bytes` returns; None stands for its exceptions (short buffer, bad kind). */
  function Decode(buf: seq<Byte>): Option<Node> {
    if |buf| < 9 then None
    else if buf[0] == LEAF_KIND then
      var nxt := ReadU32(buf, 1);
      match ReadCells(buf, 9, ReadU32(buf, 5))
      case None => None
      case Some(cells) => Some(Leaf(cells, if nxt == NO_PAGE then None else Some(nxt)))
    else if buf[0] == INTERNAL_KIND then
      var nk := ReadU32(buf, 1);
      match ReadKeys(buf, 9, nk)
      case None => None
      case Some(keys) =>
        match ReadKids(buf, 9 + 8 * nk, ReadU32(buf, 5))
        case None => None
        case Some(kids) => Some(Internal(keys, kids))
    else None
  }

  /** The cell loop of `node_from_bytes`. */
  method CellLoop(buf: seq<Byte>, start: nat, n: nat) returns (r: Option<seq<Cell>>)
    ensures r == ReadCells(buf, start, n)
  {
    var off: nat, cells := start, [];
    ghost var whole := ReadCells(buf, start, n);
    assert whole.Some? ==> [] + whole.value == whole.value;
    for i := 0 to n
      invariant whole == match ReadCells(buf, off, n - i)
                         case None => None
                         case Some(rest) => Some(cells + rest)
    {
      if off + 12 > |buf| {
        return None;
      }
      var stop := off + 12 + ReadU32(buf, off + 8);
      var c := Cell(ReadI64(buf, off), buf[off + 12..if stop <= |buf| then stop else |buf|]);
      ghost var rest := ReadCells(buf, stop, n - i - 1);
      assert rest.Some? ==> cells + ([c] + rest.value) == (cells + [c]) + rest.value;
      cells, off := cells + [c], stop;
    }
    assert cells + [] == cells;
    return Some(cells);
  }

  /** `node_from_bytes` */
  method NodeFromBytes(buf: seq<Byte>) returns (r: Option<Node>)
    ensures r == Decode(buf)
  {
    if |buf| < 9 {
      return None;
    }
    if buf[0] == LEAF_KIND {
      var nxt := ReadU32(buf, 1);
      var cells := CellLoop(buf, 9, ReadU32(buf, 5));
      if cells.Some? {
        return Some(Leaf(cells.value, if nxt == NO_PAGE then None else Some(nxt)));
      }
    } else if buf[0] == INTERNAL_KIND {
      var nk := ReadU32(buf, 1);
      var keys := ReadKeys(buf, 9, nk);
      var kids := ReadKids(buf, 9 + 8 * nk, ReadU32(buf, 5));
      if keys.Some? && kids.Some? {
        return Some(Internal(keys.value, kids.value));
      }
    }
    return None;
  }

  // ---- round trip ---------------------------------------------------------

  lemma CellFields(c: Cell, buf: seq<Byte>, off: nat)
    requires StorableCell(c)
    requires off + CellSize(c) <= |buf| && buf[off..off + CellSize(c)] == CellBytes(c)
    ensures ReadI64(buf, off) == c.key && ReadU32(buf, off + 8) == |c.val|
    ensures buf[off + 12..off + CellSize(c)] == c.val
  {
    var b, n := CellBytes(c), CellSize(c);
    assert b[0..8] == I64(c.key) && b[8..12] == U32(|c.val|) && b[12..n] == c.val;
    Subslice(buf, off, off + n, 0, 8);
    Subslice(buf, off, off + n, 8, 12);
    Subslice(buf, off, off + n, 12, n);
    I64RoundTrip(c.key, buf, off);
    U32RoundTrip(|c.val|, buf, off + 8);
  }

  lemma {:induction false} CellsRoundTrip(cells: seq<Cell>, buf: seq<Byte>, off: nat)
    requires forall i :: 0 <= i < |cells| ==> StorableCell(cells[i])
    requires off + CellsSize(cells) <= |buf|
    requires buf[off..off + CellsSize(cells)] == CellsBytes(cells)
    ensures ReadCells(buf, off, |cells|) == Some(cells)
    decreases |cells|
  {
    hide CellBytes, U32, I64, ReadU32, ReadI64;
    if cells != [] {
      var c, rest := cells[0], cells[1..];
      Halves(buf, off, CellBytes(c), CellsBytes(rest));
      CellFields(c, buf, off);
      CellsRoundTrip(rest, buf, off + CellSize(c));
      assert [c] + rest == cells;
    }
  }

  lemma {:induction false} KeysRoundTrip(keys: seq<int>, buf: seq<Byte>, off: nat)
    requires forall i :: 0 <= i < |keys| ==> IsI64(keys[i])
    requires off + 8 * |keys| <= |buf| && buf[off..off + 8 * |keys|] == KeysBytes(keys)
    ensures ReadKeys(buf, off, |keys|) == Some(keys)
    decreases |keys|
  {
    if keys != [] {
      var all := buf[off..off + 8 * |keys|];
      assert buf[off..off + 8] == all[..8];
      assert buf[off + 8..off + 8 * |keys|] == all[8..];
      I64RoundTrip(keys[0], buf, off);
      KeysRoundTrip(keys[1..], buf, off + 8);
      assert [keys[0]] + keys[1..] == keys;
    }
  }

  lemma {:induction false} KidsRoundTrip(kids: seq<nat>, buf: seq<Byte>, off: nat)
    requires forall i :: 0 <= i < |kids| ==> IsU32(kids[i])
    requires off + 4 * |kids| <= |buf| && buf[off..off + 4 * |kids|] == KidsBytes(kids)
    ensures ReadKids(buf, off, |kids|) == Some(kids)
    decreases |kids|
  {
    if kids != [] {
      var all := buf[off..off + 4 * |kids|];
      assert buf[off..off + 4] == all[..4];
      assert buf[off + 4..off + 4 * |kids|] == all[4..];
      U32RoundTrip(kids[0], buf, off);
      KidsRoundTrip(kids[1..], buf, off + 4);
      assert [kids[0]] + kids[1..] == kids;
    }
  }

  /** Decoding any buffer that starts with a node's bytes gives that node back:
      the zero padding of the page is never read. */
  lemma RoundTrip(node: Node, buf: seq<Byte>)
    requires Storable(node) && ToBytes(node) <= buf
    ensures Decode(buf) == Some(node)
  {
    var b := ToBytes(node);
    assert b == buf[0..|b|];
    match node
    case Leaf(cells, next) => LeafRoundTrip(cells, next, buf);
    case Internal(keys, kids) => InternalRoundTrip(keys, kids, buf);
  }

  lemma LeafRoundTrip(cells: seq<Cell>, next: Option<nat>, buf: seq<Byte>)
    requires var node := Leaf(cells, next);
      Storable(node) && NodeSize(node) <= |buf| && buf[0..NodeSize(node)] == ToBytes(node)
    ensures Decode(buf) == Some(Leaf(cells, next))
  {
    var n := 9 + CellsSize(cells);
    var b := ToBytes(Leaf(cells, next));
    assert b[1..5] == U32(NextField(next)) && b[5..9] == U32(|cells|) && b[9..n] == CellsBytes(cells);
    Subslice(buf, 0, n, 1, 5);
    Subslice(buf, 0, n, 5, 9);
    Subslice(buf, 0, n, 9, n);
    assert buf[0] == b[0];
    U32RoundTrip(NextField(next), buf, 1);
    U32RoundTrip(|cells|, buf, 5);
    CellsRoundTrip(cells, buf, 9);
  }

  lemma InternalParts(keys: seq<int>, kids: seq<nat>)
    requires Storable(Internal(keys, kids))
    ensures var b, mid := ToBytes(Internal(keys, kids)), 9 + 8 * |keys|;
      && |b| == mid + 4 * |kids| && b[0] == INTERNAL_KIND
      && b[1..5] == U32(|keys|) && b[5..9] == U32(|kids|)
      && b[9..mid] == KeysBytes(keys) && b[mid..|b|] == KidsBytes(kids)
  {
    hide U32, KeysBytes, KidsBytes;
  }

  lemma InternalFields(keys: seq<int>, kids: seq<nat>, buf: seq<Byte>)
    requires var node := Internal(keys, kids);
      Storable(node) && NodeSize(node) <= |buf| && buf[0..NodeSize(node)] == ToBytes(node)
    ensures buf[0] == INTERNAL_KIND && ReadU32(buf, 1) == |keys| && ReadU32(buf, 5) == |kids|
    ensures buf[9..9 + 8 * |keys|] == KeysBytes(keys)
    ensures buf[9 + 8 * |keys|..9 + 8 * |keys| + 4 * |kids|] == KidsBytes(kids)
  {
    var mid, n := 9 + 8 * |keys|, NodeSize(Internal(keys, kids));
    var b := ToBytes(Internal(keys, kids));
    InternalParts(keys, kids);
    hide *;
    FrontOf(buf, n, b, 0, 1);
    FrontOf(buf, n, b, 1, 5);
    FrontOf(buf, n, b, 5, 9);
    FrontOf(buf, n, b, 9, mid);
    FrontOf(buf, n, b, mid, n);
    U32RoundTrip(|keys|, buf, 1);
    U32RoundTrip(|kids|, buf, 5);
  }

  /** A stretch of what a buffer begins with. */
  lemma FrontOf(buf: seq<Byte>, n: nat, b: seq<Byte>, c: nat, d: nat)
    requires c <= d <= n <= |buf| && buf[0..n] == b
    ensures |b| == n && b[c..d] == buf[c..d] && (c < d ==> b[c] == buf[c])
  {
    Subslice(buf, 0, n, c, d);
    assert c < d ==> buf[0..n][c] == buf[c];
  }

  lemma InternalRoundTrip(keys: seq<int>, kids: seq<nat>, buf: seq<Byte>)
    requires var node := Internal(keys, kids);
      Storable(node) && NodeSize(node) <= |buf| && buf[0..NodeSize(node)] == ToBytes(node)
    ensures Decode(buf) == Some(Internal(keys, kids))
  {
    InternalFields(keys, kids, buf);
    hide ToBytes, ReadU32, ReadKeys, ReadKids, KeysBytes, KidsBytes;
    KeysRoundTrip(keys, buf, 9);
    KidsRoundTrip(kids, buf, 9 + 8 * |keys|);
  }

  // ---- where each field stands --------------------------------------------

  lemma CellsFirst(cells: seq<Cell>, i: nat)
    requires i < |cells| && forall k :: 0 <= k < |cells| ==> StorableCell(cells[k])
    ensures CellsBytes(cells) == CellBytes(cells[0]) + CellsBytes(cells[1..])
    ensures CellsSize(cells) == CellSize(cells[0]) + CellsSize(cells[1..])
    ensures CellsSize(cells[..i]) == if i == 0 then 0 else CellSize(cells[0]) + CellsSize(cells[1..][..i - 1])
  {
    hide CellBytes;
    assert i > 0 ==> cells[..i][1..] == cells[1..][..i - 1];
  }

  lemma {:induction false} CellAt(cells: seq<Cell>, buf: seq<Byte>, off: nat, i: nat)
    requires i < |cells| && forall k :: 0 <= k < |cells| ==> StorableCell(cells[k])
    requires off + CellsSize(cells) <= |buf| && buf[off..off + CellsSize(cells)] == CellsBytes(cells)
    ensures var o, c := off + CellsSize(cells[..i]), cells[i];
      && o + CellSize(c) <= |buf|
      && ReadI64(buf, o) == c.key && ReadU32(buf, o + 8) == |c.val| && buf[o + 12..o + CellSize(c)] == c.val
    decreases i
  {
    hide CellsSize, CellsBytes, CellBytes, StorableCell, U32, I64, ReadU32, ReadI64;
    CellsFirst(cells, i);
    Halves(buf, off, CellBytes(cells[0]), CellsBytes(cells[1..]));
    if i == 0 {
      CellFields(cells[0], buf, off);
    } else {
      CellAt(cells[1..], buf, off + CellSize(cells[0]), i - 1);
    }
  }

  /** A leaf in bytes: its kind, the page of the next leaf or the mark for none, the number of
      cells, and the cells one behind the other: key, length, value. */
  lemma LeafLayout(cells: seq<Cell>, next: Option<nat>, i: nat)
    requires Storable(Leaf(cells, next)) && i < |cells|
    ensures var buf, o, c := ToBytes(Leaf(cells, next)), 9 + CellsSize(cells[..i]), cells[i];
      && |buf| == 9 + CellsSize(cells) && o + CellSize(c) <= |buf|
      && buf[0] == 0 && ReadU32(buf, 1) == (if next.None? then 0xFFFF_FFFF else next.value)
      && ReadU32(buf, 5) == |cells|
      && ReadI64(buf, o) == c.key && ReadU32(buf, o + 8) == |c.val| && buf[o + 12..o + CellSize(c)] == c.val
  {
    hide *;
    LeafParts(cells, next);
    LeafHead(cells, next);
    CellAt(cells, ToBytes(Leaf(cells, next)), 9, i);
  }

  lemma LeafHead(cells: seq<Cell>, next: Option<nat>)
    requires Storable(Leaf(cells, next))
    ensures forall k :: 0 <= k < |cells| ==> StorableCell(cells[k])
    ensures var buf := ToBytes(Leaf(cells, next));
      && ReadU32(buf, 1) == (if next.None? then 0xFFFF_FFFF else next.value)
      && ReadU32(buf, 5) == |cells|
  {
    LeafParts(cells, next);
    hide ToBytes, NextField, U32, ReadU32, CellsBytes, CellsSize, StorableCell;
    U32RoundTrip(NextField(next), ToBytes(Leaf(cells, next)), 1);
    U32RoundTrip(|cells|, ToBytes(Leaf(cells, next)), 5);
  }

  lemma LeafParts(cells: seq<Cell>, next: Option<nat>)
    requires Storable(Leaf(cells, next))
    ensures var buf := ToBytes(Leaf(cells, next));
      && |buf| == 9 + CellsSize(cells) && buf[0] == 0
      && NextField(next) == (if next.None? then 0xFFFF_FFFF else next.value)
      && buf[1..5] == U32(NextField(next)) && buf[5..9] == U32(|cells|) && buf[9..|buf|] == CellsBytes(cells)
  {
    hide U32, CellsBytes, CellsSize;
  }

  lemma {:induction false} KeyAt(keys: seq<int>, buf: seq<Byte>, off: nat, i: nat)
    requires i < |keys| && forall k :: 0 <= k < |keys| ==> IsI64(keys[k])
    requires off + 8 * |keys| <= |buf| && buf[off..off + 8 * |keys|] == KeysBytes(keys)
    ensures ReadI64(buf, off + 8 * i) == keys[i]
    decreases i
  {
    hide I64, ReadI64;
    var all := buf[off..off + 8 * |keys|];
    assert buf[off..off + 8] == all[..8] && buf[off + 8..off + 8 * |keys|] == all[8..];
    if i == 0 {
      I64RoundTrip(keys[0], buf, off);
    } else {
      KeyAt(keys[1..], buf, off + 8, i - 1);
    }
  }

  lemma {:induction false} KidAt(kids: seq<nat>, buf: seq<Byte>, off: nat, i: nat)
    requires i < |kids| && forall k :: 0 <= k < |kids| ==> IsU32(kids[k])
    requires off + 4 * |kids| <= |buf| && buf[off..off + 4 * |kids|] == KidsBytes(kids)
    ensures ReadU32(buf, off + 4 * i) == kids[i]
    decreases i
  {
    hide U32, ReadU32;
    var all := buf[off..off + 4 * |kids|];
    assert buf[off..off + 4] == all[..4] && buf[off + 4..off + 4 * |kids|] == all[4..];
    if i == 0 {
      U32RoundTrip(kids[0], buf, off);
    } else {
      KidAt(kids[1..], buf, off + 4, i - 1);
    }
  }

  /** An internal node in bytes: its kind, the numbers of keys and children, the keys, the
      children. */
  lemma InternalLayout(keys: seq<int>, kids: seq<nat>, i: nat, j: nat)
    requires Storable(Internal(keys, kids)) && i < |keys| && j < |kids|
    ensures var buf := ToBytes(Internal(keys, kids));
      && |buf| == 9 + 8 * |keys| + 4 * |kids|
      && buf[0] == 1 && ReadU32(buf, 1) == |keys| && ReadU32(buf, 5) == |kids|
      && ReadI64(buf, 9 + 8 * i) == keys[i] && ReadU32(buf, 9 + 8 * |keys| + 4 * j) == kids[j]
  {
    var buf := ToBytes(Internal(keys, kids));
    assert buf[0..NodeSize(Internal(keys, kids))] == buf;
    InternalFields(keys, kids, buf);
    hide ToBytes, ReadU32, ReadI64, KeysBytes, KidsBytes;
    KeyAt(keys, buf, 9, i);
    KidAt(kids, buf, 9 + 8 * |keys|, j);
  }

  // ---- nodes in pages -----------------------------------------------------

  /** A node that a page can hold. */
  predicate Fits(node: Node) {
    Storable(node) && NodeSize(node) <= PAGE_SIZE
  }

  /** The page image of a node: its bytes, zero-padded. */
  function PageOf(node: Node): (r: seq<Byte>)
    requires Fits(node)
    ensures |r| == PAGE_SIZE
  {
    ToBytes(node) + Zeros(PAGE_SIZE - NodeSize(node))
  }

  lemma DecodePage(node: Node)
    requires Fits(node)
    ensures Decode(PageOf(node)) == Some(node)
  {
    RoundTrip(node, PageOf(node));
  }

  // ---- arithmetic of cell sizes -------------------------------------------

  lemma {:induction false} CellsSizeConcat(a: seq<Cell>, b: seq<Cell>)
    ensures CellsSize(a + b) == CellsSize(a) + CellsSize(b)
    decreases |a|
  {
    if a == [] {
      assert a + b == b;
    } else {
      assert (a + b)[1..] == a[1..] + b;
      CellsSizeConcat(a[1..], b);
    }
  }

  lemma {:induction false} CellsSizeBounds(cells: seq<Cell>, least: nat, most: nat)
    requires forall i :: 0 <= i < |cells| ==> least <= CellSize(cells[i]) <= most
    ensures least * |cells| <= CellsSize(cells) <= most * |cells|
    decreases |cells|
  {
    if cells != [] {
      CellsSizeBounds(cells[1..], least, most);
      assert least * |cells| == least + least * (|cells| - 1);
      assert most * |cells| == most + most * (|cells| - 1);
    }
  }
}
