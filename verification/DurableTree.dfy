// One statement, end to end: a B+ tree operation inside a transaction
// (leafdb/engine.py, bulk_insert and _run_one), committed or rolled back, and what a
// crash leaves of it.

module DurableTree {
  import opened Bytes
  import opened Cells
  import opened Disk
  import opened NodeCodec
  import opened Pager
  import opened Tree
  import opened TreeInsert
  import opened StoredTree
  import opened Wal
  import opened Recovery
  import opened Session
  import TreeOps
  import opened BTree

  lemma StoredThere(s: Store, s': Store, t: Tree)
    requires Stored(s, t) && SamePages(s', s)
    ensures Stored(s', t)
  {
    hide *;
    SameOfPages(s, s');
    StoredSame(s, s', t);
  }

  lemma SameOfPages(s: Store, s': Store)
    requires SamePages(s', s)
    ensures Same(s, s')
  {
    hide ImgOf;
  }

  /** An inserted row is committed, or the statement has no effect. */
  method InsertRow(s: Session, b: BTree, root: nat, key: int, value: seq<Byte>, ghost t: Tree)
    returns (r: Result<nat, Error>, ghost t': Tree)
    requires s.Safe() && s.Current() && !s.inTxn && b.pager == s.pager
    requires Stored(s.committed, t) && t.page == root && Whole(t, s.pager.numPages) && TreeOps.Room(t, s.pager.numPages)
    modifies s, s.pager, s.pager.pool
    ensures s.Safe() && s.Current() && !s.inTxn
    ensures Stored(s.committed, t') && Whole(t', s.pager.numPages)
    ensures TreeOps.TableOf(t') == if r.Ok? then TreeOps.TableOf(t)[key := value] else TreeOps.TableOf(t)
    ensures r.Ok? ==> r.value == t'.page && key !in TreeOps.TableOf(t)
    ensures r.Ok? && old(s.Tidy()) ==> s.Tidy()
    ensures r.Err? ==> t' == t
  {
    hide ImgOf, PageAt, Stored, Whole, TreeOps.TableOf, Durable, AllLogged, Logged, Numbered, TreeInsert.Insert,
      SameOutside, SameBelow, NoDup, Latest, BatchBytes, Packable, PageEntry, Overwrites, Shadows, Clean;
    ghost var n0 := s.pager.numPages;
    WholeShaped(t, n0);
    WholeApart(t, n0);
    TreeOps.InsertWhole(t, n0, Cell(key, value));
    var ok := s.Begin();
    StoredThere(s.committed, s.pager.View(), t);
    r, t' := b.Insert(root, key, value, t);
    if r.Err? {
      ok := s.Rollback();
      return;
    }
    ok := s.Commit();
    StoredThere(s.pager.View(), s.committed, t');
  }

  lemma WholeApart(t: Tree, limit: nat)
    requires Whole(t, limit)
    ensures Apart(t, limit)
  {
    hide Good, Apart;
  }

  /** A deleted row is gone for good, or the statement has no effect; if the delete
      breaks off with an IndexError, rolling back brings the tree back whole. */
  method DeleteRow(s: Session, b: BTree, root: nat, key: int, ghost t: Tree) returns (r: Deletion, ghost t': Tree)
    requires s.Safe() && s.Current() && !s.inTxn && b.pager == s.pager && IsU32(s.pager.numPages)
    requires Stored(s.committed, t) && t.page == root && Whole(t, s.pager.numPages)
    modifies s, s.pager, s.pager.pool
    ensures s.Safe() && s.Current() && !s.inTxn
    ensures Stored(s.committed, t') && Whole(t', s.pager.numPages)
    ensures r.Absent? <==> key !in TreeOps.TableOf(t)
    ensures TreeOps.TableOf(t') == if r.Taken? then TreeOps.TableOf(t) - {key} else TreeOps.TableOf(t)
    ensures r.Taken? ==> r.root == t'.page
    ensures r.Taken? && old(s.Tidy()) ==> s.Tidy()
    ensures !r.Taken? ==> t' == t
  {
    hide ImgOf, PageAt, Stored, Whole, TreeOps.TableOf, Durable, AllLogged, Logged, Numbered, TreeOps.Delete,
      SameOutside, NoDup, Latest, BatchBytes, Packable, PageEntry, Overwrites, Shadows, Clean;
    ghost var n0 := s.pager.numPages;
    WholeShaped(t, n0);
    WholeApart(t, n0);
    var ok := s.Begin();
    StoredThere(s.committed, s.pager.View(), t);
    r, t' := b.Delete(root, key, t);
    if r.Fault? {
      ok := s.Rollback();
      return r, t;
    }
    ok := s.Commit();
    StoredThere(s.pager.View(), s.committed, t');
  }

  /** A crash while the commit of such a statement is being written: whatever part of it
      reached the log, recovery leaves the tree before the statement or the tree after
      it, never anything else. */
  lemma StatementIsAtomic(s: Session, t: Tree, t': Tree, k: nat)
    requires s.Safe() && s.Current() && s.inTxn && s.pager.shadow != map[] && IsU32(s.pager.numPages)
    requires Stored(s.committed, t) && Stored(s.pager.View(), t')
    ensures Packable(s.CommitEntry())
    ensures var b := BatchBytes(s.CommitEntry());
      k <= |b| ==>
        var r := Recover(s.log + b[..k], s.pager.file);
        r.ok && Stored(Store(r.file, map[]), if k < |b| then t else t')
  {
    hide ImgOf, PageAt, Stored, BatchBytes, Recover, Session.Safe, Session.Current, Session.CommitEntry, Packable;
    s.CrashInCommit(k, 0);
    var b := BatchBytes(s.CommitEntry());
    if k <= |b| {
      var file := Recover(s.log + b[..k], s.pager.file).file;
      var from := if k < |b| then s.committed else s.pager.View();
      forall n: nat
        ensures Store(file, map[]).At(n) == from.At(n)
      {
        s.CrashInCommit(k, n);
        if n !in s.pager.shadow {
          s.UntouchedPage(n);
        }
        NoPool(file, n);
      }
      StoredThere(from, Store(file, map[]), if k < |b| then t else t');
    }
  }

  lemma NoPool(file: seq<Byte>, n: nat)
    ensures Store(file, map[]).At(n) == PageAt(file, n)
  {
  }
}
