// Whole runs over the page store: the B+ tree of leafdb/btree.py, used for any sequence
// of operations, keeps in its pages the table that they make of a finite map.

module StoredRuns {
  import opened Bytes
  import opened Cells
  import opened NodeCodec
  import opened Pager
  import opened Tree
  import opened TreeInsert
  import opened StoredTree
  import TreeOps
  import opened BTree
  import opened Runs

  /** The answer to an insert or an upsert */
  function AnswerOf(r: Result<nat, Error>): Answer {
    if r.Ok? then Fine else Refused(r.error)
  }

  /** One operation on the pages is that operation on the tree they hold. */
  method Perform(b: BTree, root: nat, op: Op, ghost t: Tree) returns (root': nat, a: Answer, ghost t': Tree)
    requires b.Ready() && b.Holding(root, t) && Whole(t, b.pager.numPages) && TreeOps.Room(t, b.pager.numPages)
    modifies b.pager`file, b.pager`numPages, b.pager`touched, b.pager`shadow, b.pager.pool
    ensures b.Ready() && b.Holding(root', t') && Whole(t', b.pager.numPages)
    ensures Do(State(t, old(b.pager.numPages)), op) == (State(t', b.pager.numPages), a)
  {
    ghost var n := b.pager.numPages;
    hide Whole, TreeInsert.Insert, TreeOps.Upsert, TreeOps.Delete, TreeOps.TableOf, Stored, Apart, SameOutside,
      SameBelow;
    match op {
      case Put(c) =>
        var r;
        r, t' := b.Insert(root, c.key, c.val, t);
        return if r.Ok? then r.value else root, AnswerOf(r), t';
      case Set(c) =>
        var r;
        r, t' := b.Upsert(root, c.key, c.val, t);
        return if r.Ok? then r.value else root, AnswerOf(r), t';
      case Drop(k) =>
        var r;
        DeleteHeight(t, n, k);
        r, t' := b.Delete(root, k, t);
        match r {
          case Absent => return root, WasThere(false), t';
          case Taken(root') => return root', WasThere(true), t';
          case Fault => return root, Crashed, t';
        }
    }
  }

  /** A sequence of operations, with enough page numbers left for all of them. */
  method Execute(b: BTree, root: nat, ops: seq<Op>, ghost t: Tree)
    returns (root': nat, answers: seq<Answer>, ghost t': Tree)
    requires b.Ready() && b.Holding(root, t) && Whole(t, b.pager.numPages)
    requires Ample(State(t, b.pager.numPages), |ops|)
    modifies b.pager`file, b.pager`numPages, b.pager`touched, b.pager`shadow, b.pager.pool
    ensures b.Ready() && b.Holding(root', t') && Whole(t', b.pager.numPages)
    ensures |answers| == |ops|
    ensures TreeOps.TableOf(t') == Replayed(TreeOps.TableOf(t), ops, answers)
    ensures Honest(TreeOps.TableOf(t), ops, answers)
    decreases |ops|
  {
    hide *;
    if ops == [] {
      NothingReplayed(TreeOps.TableOf(t));
      return root, [], t;
    }
    ghost var st := State(t, b.pager.numPages);
    AmpleStep(st, ops[0], |ops|);
    DoMeans(st, ops[0]);
    var middle, a;
    ghost var u;
    middle, a, u := Perform(b, root, ops[0], t);
    var rest;
    root', rest, t' := Execute(b, middle, ops[1..], u);
    answers := [a] + rest;
    ReplayedMore(TreeOps.TableOf(t), ops, a, rest);
  }

  lemma NothingReplayed(m: Table)
    ensures Replayed(m, [], []) == m && Honest(m, [], [])
  {
  }

  lemma ReplayedMore(m: Table, ops: seq<Op>, a: Answer, rest: seq<Answer>)
    requires ops != [] && |rest| <= |ops| - 1
    ensures Replayed(m, ops, [a] + rest) == Replayed(Effect(m, ops[0], a), ops[1..], rest)
    ensures Honest(m, ops, [a] + rest) <==>
            Excusable(ops[0], a, DoTable(m, ops[0]).1) && Honest(Effect(m, ops[0], a), ops[1..], rest)
  {
    assert ([a] + rest)[1..] == rest;
    hide Effect, Excusable, DoTable;
  }

  /** And searching the pages afterwards is looking up the map. */
  method ExecuteAndSearch(b: BTree, root: nat, ops: seq<Op>, k: int, ghost t: Tree)
    returns (answers: seq<Answer>, found: Option<seq<Byte>>)
    requires b.Ready() && b.Holding(root, t) && Whole(t, b.pager.numPages)
    requires Ample(State(t, b.pager.numPages), |ops|)
    modifies b.pager`file, b.pager`numPages, b.pager`touched, b.pager`shadow, b.pager.pool
    ensures |answers| == |ops| && Honest(TreeOps.TableOf(t), ops, answers)
    ensures var m := Replayed(TreeOps.TableOf(t), ops, answers);
      found == if k in m then Some(m[k]) else None
  {
    hide Whole, TreeOps.TableOf, Stored, Apart, Ample, Replayed, Honest, TreeOps.Search;
    var last;
    ghost var t';
    last, answers, t' := Execute(b, root, ops, t);
    found := b.Search(last, k, t');
    TreeOps.SearchWhole(t', b.pager.numPages, k);
    TableIs(t');
  }

  lemma TableIs(t: Tree)
    ensures TreeOps.TableOf(t) == AsMap(Items(t))
  {
  }
}
