// Read-only sessions (refresh_from_wal in leafdb/engine.py): adopting the batches that
// a writer has committed, from a log that may end in the middle of an append. The data
// file a session reads is its own here: the model covers writers that neither evict nor
// flush while other sessions are open, so that the shared file stays as it was.

module Reader {
  import opened Bytes
  import opened Disk
  import opened Pager
  import opened Wal
  import opened Recovery

  /** Every page is its latest image among the entries, or what the file held when the
      session was opened. */
  ghost predicate Shows(s: Store, es: seq<Entry>, base: seq<Byte>) {
    forall n: nat :: s.At(n) == Overlaid(es, base, n)
  }

  function WithImages(s: Store, images: map<nat, Page>): Store {
    Store(s.file, s.pages + images)
  }

  lemma ShowsMore(s: Store, es: seq<Entry>, e: Entry, images: map<nat, Page>, base: seq<Byte>)
    requires Shows(s, es, base) && images == e.pages
    ensures Shows(WithImages(s, images), es + [e], base)
  {
    hide PageAt;
    forall n: nat
      ensures WithImages(s, images).At(n) == Overlaid(es + [e], base, n)
    {
      LatestConcat(es, [e], n);
      assert [e][1..] == [];
      assert s.At(n) == Overlaid(es, base, n);
    }
  }

  /** How far a log goes that holds the first k entries. */
  function Position(all: seq<Entry>, k: nat): nat
    requires AllPackable(all) && k <= |all|
  {
    HEADER_SIZE + |Blob(all[..k])|
  }

  lemma PrefixPackable(all: seq<Entry>, k: nat)
    requires PageEntries(all) && k <= |all|
    ensures AllPackable(all) && PageEntries(all[..k]) && PageEntries(all[k..])
  {
    hide Packable, PageEntry;
  }

  lemma {:induction false} BlobConcat(a: seq<Entry>, b: seq<Entry>)
    requires AllPackable(a) && AllPackable(b) && AllPackable(a + b)
    ensures Blob(a + b) == Blob(a) + Blob(b)
    decreases |a|
  {
    hide BatchBytes, Packable;
    if a == [] {
      assert a + b == b;
    } else {
      assert (a + b)[1..] == a[1..] + b && (a + b)[0] == a[0];
      BlobConcat(a[1..], b);
    }
  }

  /** What stands behind the first k entries. */
  lemma RestOfLog(all: seq<Entry>, k: nat)
    requires PageEntries(all) && k <= |all|
    ensures AllPackable(all) && AllPackable(all[k..])
    ensures Position(all, k) <= |LogOf(all)| == Position(all, k) + |Blob(all[k..])|
    ensures LogOf(all)[Position(all, k)..] == Blob(all[k..])
  {
    PrefixPackable(all, k);
    LogParts(all);
    assert all[..k] + all[k..] == all;
    hide Blob, LogOf, Packable, PageEntry, PageEntries;
    BlobConcat(all[..k], all[k..]);
  }

  /** Reading on behind the first k entries, from any prefix of the log. */
  lemma ReadNew(all: seq<Entry>, k: nat, n: nat) returns (j: nat)
    requires PageEntries(all) && k <= |all| && AllPackable(all) && Position(all, k) <= n <= |LogOf(all)|
    ensures k <= j <= |all| && AllPackable(all[k..j])
    ensures Scan(LogOf(all)[..n], Position(all, k), map[]) == Reading(BatchesOf(all[k..j], Position(all, k)), true)
    ensures Position(all, j) <= n && (j < |all| ==> n < Position(all, j + 1))
  {
    hide *;
    RestOfLog(all, k);
    var base := Position(all, k);
    BlobHeld(LogOf(all), all[k..], base);
    ReadPrefix(LogOf(all), all[k..], base, n);
    CompleteIs(all[k..], base, n);
    j := k + Complete(all[k..], base, n);
    Stretch(all, k, j);
    EndIs(all, k, j - k);
    if j < |all| {
      EndIs(all, k, j - k + 1);
    }
  }

  lemma Stretch(all: seq<Entry>, k: nat, j: nat)
    requires AllPackable(all) && k <= j <= |all|
    ensures AllPackable(all[k..j]) && all[k..][..j - k] == all[k..j]
  {
    hide Packable;
  }

  lemma {:induction false} EndIs(all: seq<Entry>, k: nat, m: nat)
    requires PageEntries(all) && k + m <= |all| && AllPackable(all) && AllPackable(all[k..])
    ensures End(all[k..], Position(all, k), m) == Position(all, k + m)
    decreases m
  {
    hide *;
    EndStep(all, k, m);
    if m > 0 {
      NextPosition(all, k);
      EndIs(all, k + 1, m - 1);
    }
  }

  lemma EndStep(all: seq<Entry>, k: nat, m: nat)
    requires k + m <= |all| && AllPackable(all) && AllPackable(all[k..])
    ensures m == 0 ==> End(all[k..], Position(all, k), m) == Position(all, k)
    ensures m > 0 ==>
      && AllPackable(all[k + 1..]) && Packable(all[k])
      && End(all[k..], Position(all, k), m) == End(all[k + 1..], Position(all, k) + |BatchBytes(all[k])|, m - 1)
  {
    hide Position, BatchBytes, Packable;
    if m > 0 {
      assert all[k..][1..] == all[k + 1..] && all[k..][0] == all[k];
    }
  }

  lemma NextPosition(all: seq<Entry>, k: nat)
    requires PageEntries(all) && k < |all| && AllPackable(all)
    ensures Packable(all[k]) && Position(all, k + 1) == Position(all, k) + |BatchBytes(all[k])|
  {
    PrefixPackable(all, k);
    assert all[k] in all && all[..k + 1] == all[..k] + [all[k]];
    hide BatchBytes, Packable, PageEntry, Blob;
    BlobMore(all[..k], all[k]);
  }

  /** The batches behind the first k entries, one by one. */
  ghost predicate BatchesMatch(batches: seq<Batch>, all: seq<Entry>, k: nat)
    requires AllPackable(all)
  {
    && k + |batches| <= |all|
    && forall i :: 0 <= i < |batches| ==>
         batches[i] == Batch(Position(all, k + i + 1), all[k + i].pages, all[k + i].numPages)
  }

  lemma {:induction false} BatchesAre(all: seq<Entry>, k: nat, j: nat)
    requires PageEntries(all) && k <= j <= |all| && AllPackable(all) && AllPackable(all[k..j])
    ensures BatchesMatch(BatchesOf(all[k..j], Position(all, k)), all, k) &&
      |BatchesOf(all[k..j], Position(all, k))| == j - k
    decreases j - k
  {
    NoneMatch(all, k);
    hide *;
    if k < j {
      FirstOf(all, k, j);
      NextPosition(all, k);
      Stretch(all, k + 1, j);
      BatchesFirst(all[k..j], Position(all, k), 0);
      BatchesAre(all, k + 1, j);
      MatchStep(all, k, BatchesOf(all[k + 1..j], Position(all, k + 1)));
    } else {
      assert all[k..j] == [];
    }
  }

  lemma NoneMatch(all: seq<Entry>, k: nat)
    requires AllPackable(all) && k <= |all|
    ensures BatchesMatch(BatchesOf([], Position(all, k)), all, k) && |BatchesOf([], Position(all, k))| == 0
  {
    hide Position;
  }

  lemma FirstOf<T>(all: seq<T>, k: nat, j: nat)
    requires k < j <= |all|
    ensures all[k..j] != [] && all[k..j][0] == all[k] && all[k..j][1..] == all[k + 1..j]
  {
  }

  lemma MatchStep(all: seq<Entry>, k: nat, rest: seq<Batch>)
    requires AllPackable(all) && k < |all| && BatchesMatch(rest, all, k + 1)
    ensures BatchesMatch([Batch(Position(all, k + 1), all[k].pages, all[k].numPages)] + rest, all, k)
  {
    hide Position;
  }

  /** Reading part of a prefix of a log. */
  lemma ReadRange(log: seq<Byte>, whole: seq<Byte>, n: nat, offset: nat, end: Option<nat>, limit: nat)
    requires n <= |whole| && log == whole[..n] && limit <= |log|
    requires limit == if end.None? || end.value > |log| then |log| else end.value
    ensures ReadFrom(log, offset, end) == Scan(whole[..limit], offset, map[])
  {
    hide Scan;
    assert log[..limit] == whole[..limit];
  }

  lemma PositionOf(seen: seq<Entry>, all: seq<Entry>)
    requires seen <= all && AllPackable(all) && PageEntries(seen)
    ensures Position(all, |seen|) == HEADER_SIZE + |Blob(seen)| && seen == all[..|seen|]
  {
    assert all[..|seen|] == seen;
  }

  /** A session that has adopted one more batch. */
  lemma AdoptedMore(all: seq<Entry>, k: nat, s: Store, s': Store, base: seq<Byte>)
    requires PageEntries(all) && k < |all| && AllPackable(all) && Shows(s, all[..k], base)
    requires s'.file == s.file && s'.pages == s.pages + all[k].pages
    ensures Shows(s', all[..k + 1], base) && PageEntries(all[..k + 1])
    ensures AllPackable(all[..k + 1]) && Position(all, k + 1) == HEADER_SIZE + |Blob(all[..k + 1])|
  {
    assert all[..k + 1] == all[..k] + [all[k]];
    EntryPages(all, k);
    PrefixPackable(all, k + 1);
    hide Shows, Blob, Packable, PageEntry, PageEntries, Latest;
    ShowsMore(s, all[..k], all[k], all[k].pages, base);
    assert s' == WithImages(s, all[k].pages);
  }

  lemma EntryPages(all: seq<Entry>, k: nat)
    requires PageEntries(all) && k < |all|
    ensures forall p :: p in all[k].pages ==> |all[k].pages[p]| == PAGE_SIZE
  {
    assert all[k] in all;
    hide Packable;
  }

  /** The pool holds what it held, and pages of the entries. */
  ghost predicate InPool(pool: set<nat>, pool0: set<nat>, es: seq<Entry>) {
    forall m :: m in pool ==> m in pool0 || Latest(es, m).Some?
  }

  lemma InPoolStill(pool: set<nat>, es: seq<Entry>)
    ensures InPool(pool, pool, es)
  {
  }

  lemma InPoolMore(pool: set<nat>, pool0: set<nat>, all: seq<Entry>, k: nat)
    requires k < |all| && InPool(pool, pool0, all[..k])
    ensures InPool(pool + all[k].pages.Keys, pool0, all[..k + 1])
  {
    assert all[..k + 1] == all[..k] + [all[k]] && [all[k]][1..] == [];
    forall m | m in pool + all[k].pages.Keys
      ensures m in pool0 || Latest(all[..k + 1], m).Some?
    {
      LatestConcat(all[..k], [all[k]], m);
    }
  }

  /** All images but those to do are in the pool, and their pages are clean. */
  ghost predicate Adopted(p: map<nat, Page>, d: set<nat>, images: map<nat, Page>, todo: set<nat>,
                          p': map<nat, Page>, d': set<nat>) {
    && p' == p + (map n | n in images && n !in todo :: images[n])
    && d' == d - (images.Keys - todo)
  }

  lemma AdoptedNone(p: map<nat, Page>, d: set<nat>, images: map<nat, Page>)
    ensures Adopted(p, d, images, images.Keys, p, d)
  {
  }

  lemma AdoptedOne(p: map<nat, Page>, d: set<nat>, images: map<nat, Page>, todo: set<nat>,
                   p': map<nat, Page>, d': set<nat>, n: nat)
    requires Adopted(p, d, images, todo, p', d') && n in todo && todo <= images.Keys
    ensures Adopted(p, d, images, todo - {n}, p'[n := images[n]], d' - {n})
  {
  }

  lemma AdoptedAll(p: map<nat, Page>, d: set<nat>, images: map<nat, Page>, p': map<nat, Page>, d': set<nat>)
    requires Adopted(p, d, images, {}, p', d')
    ensures p' == p + images && d' == d - images.Keys
  {
    assert images == map n | n in images && n !in {} :: images[n];
  }

  /** Whether a refresh gets as far as reading the log. */
  predicate Looks(sharedEnd: Option<nat>, walPos: nat) {
    sharedEnd.None? || sharedEnd.value > walPos
  }

  /** How far it reads: to the end of the file if forced, else to the published end; when
      nothing has been published, that is where the session stands. */
  function ReadLimit(sharedEnd: Option<nat>, walPos: nat, force: bool, size: nat): nat {
    var end := if sharedEnd.None? then walPos else sharedEnd.value;
    if force || end > size then size else end
  }

  /** The page count is at least that of every entry. */
  ghost predicate CountsUpTo(es: seq<Entry>, count: nat) {
    forall i :: 0 <= i < |es| ==> es[i].numPages <= count
  }

  /** The greatest of a page count and those of some entries. */
  ghost predicate GreatestCount(count: nat, before: nat, es: seq<Entry>) {
    && before <= count && CountsUpTo(es, count)
    && (count == before || exists i :: 0 <= i < |es| && es[i].numPages == count)
  }

  /** Every page of an entry is below its page count, as a commit sees to. */
  ghost predicate AllNumbered(es: seq<Entry>) {
    forall i :: 0 <= i < |es| ==> Numbered(es[i].pages.Keys, es[i].numPages)
  }

  lemma GreatestOfNone(count: nat)
    ensures GreatestCount(count, count, [])
  {
  }

  lemma GreatestOfMore(count: nat, before: nat, all: seq<Entry>, k: nat, j: nat)
    requires k <= j < |all| && GreatestCount(count, before, all[k..j])
    ensures GreatestCount(Max(count, all[j].numPages), before, all[k..j + 1])
  {
    var more, count' := all[k..j + 1], Max(count, all[j].numPages);
    assert more == all[k..j] + [all[j]];
    assert more[|more| - 1] == all[j];
    if i :| 0 <= i < |all[k..j]| && all[k..j][i].numPages == count {
      assert more[i].numPages == count;
    }
  }

  lemma CountsMore(all: seq<Entry>, k: nat, count: nat)
    requires k < |all| && CountsUpTo(all[..k], count)
    ensures CountsUpTo(all[..k + 1], Max(count, all[k].numPages))
  {
    assert all[..k + 1] == all[..k] + [all[k]];
  }

  /** A page that some entry has is below the page count. */
  lemma {:induction false} LatestIsCounted(es: seq<Entry>, count: nat, n: nat)
    requires AllNumbered(es) && CountsUpTo(es, count) && Latest(es, n).Some?
    ensures n < count
    decreases |es|
  {
    if n in es[0].pages {
      assert n < es[0].numPages;
    } else {
      LatestIsCounted(es[1..], count, n);
    }
  }

  class ReadSession {
    const pager: Pager
    var walPos: nat
    var inTxn: bool

    // the file when the session was opened, and the entries it has adopted
    ghost var base: seq<Byte>
    ghost var seen: seq<Entry>

    ghost predicate Valid()
      reads this, pager, pager.pool
    {
      && pager.Valid() && inTxn == pager.touched.Some?
      && PageEntries(seen) && walPos == HEADER_SIZE + |Blob(seen)|
      && Shows(pager.View(), seen, base)
      && CountsUpTo(seen, pager.numPages)
    }

    /** Opened on an empty log. */
    constructor (file: seq<Byte>, capacity: nat)
      requires capacity > 0
      ensures Valid() && fresh(pager) && fresh(pager.pool) && seen == [] && base == file && !inTxn
      ensures pager.capacity == capacity && pager.pool.pages == map[] && pager.pool.dirty == {} && pager.file == file
      ensures walPos == HEADER_SIZE && pager.numPages == Max(1, |file| / PAGE_SIZE)
    {
      pager := new Pager(file, capacity);
      walPos, inTxn, base, seen := HEADER_SIZE, false, file, [];
      new;
      assert Overlaid([], file, 0) == PageAt(file, 0);
    }

    /** The loop that puts one batch's images into the pool, clean. */
    method Adopt(images: map<nat, Page>)
      requires pager.Valid() && pager.touched.None?
      modifies pager.pool
      ensures pager.Valid() && pager.pool.pages == old(pager.pool.pages) + images
      ensures pager.pool.dirty == old(pager.pool.dirty) - images.Keys
    {
      hide NoDup, Adopted, MovedToEnd;
      var todo := images.Keys;
      ghost var p, d := pager.pool.pages, pager.pool.dirty;
      AdoptedNone(p, d, images);
      while todo != {}
        invariant todo <= images.Keys && pager.Valid()
        invariant Adopted(p, d, images, todo, pager.pool.pages, pager.pool.dirty)
        decreases todo
      {
        var n :| n in todo;
        AdoptedOne(p, d, images, todo, pager.pool.pages, pager.pool.dirty, n);
        pager.pool.Put(n, images[n], false);
        pager.pool.Clean(n);
        todo := todo - {n};
      }
      AdoptedAll(p, d, images, pager.pool.pages, pager.pool.dirty);
    }

    /** One round of the loop over the batches. */
    method AdoptBatch(b: Batch, ghost all: seq<Entry>, ghost k: nat)
      requires Valid() && !inTxn && PageEntries(all) && AllPackable(all) && k < |all|
      requires seen == all[..k] && b == Batch(Position(all, k + 1), all[k].pages, all[k].numPages)
      modifies `walPos, `seen, pager.pool, pager`numPages
      ensures Valid() && !inTxn && seen == all[..k + 1] && walPos == Position(all, k + 1)
      ensures pager.pool.dirty <= old(pager.pool.dirty)
      ensures pager.pool.pages.Keys == old(pager.pool.pages).Keys + all[k].pages.Keys
      ensures pager.numPages == Max(old(pager.numPages), all[k].numPages)
    {
      hide CountsUpTo, PageAt, Blob, Packable, PageEntry, BatchBytes, NoDup, Shows, Position, PageEntries;
      ghost var s := pager.View();
      EntryPages(all, k);
      CountsMore(all, k, pager.numPages);
      Adopt(b.images);
      if b.numPages > pager.numPages {
        pager.numPages := b.numPages;
      }
      walPos := b.stop;
      AdoptedMore(all, k, s, pager.View(), base);
      seen := all[..k + 1];
    }

    /** `refresh_from_wal`. The log is any byte prefix of what the writer appends; the
        writer's published end may lie anywhere. The session then shows a whole number
        of batches, exactly those that lie in what it may read, and never fewer than
        before; and its page count is the greatest of what it was and what they say. In an
        explicit transaction nothing changes, and neither when the published end is not
        ahead, even if `force` is set. False is the struct.error, which such
        a log never causes. */
    method Refresh(log: seq<Byte>, sharedEnd: Option<nat>, force: bool, ghost all: seq<Entry>, ghost n: nat)
      returns (ok: bool)
      requires Valid() && seen <= all && PageEntries(all) && AllPackable(all)
      requires n <= |LogOf(all)| && log == LogOf(all)[..n] && walPos <= |log|
      modifies `walPos, `seen, pager.pool, pager`numPages
      ensures Valid() && ok && old(seen) <= seen <= all && walPos <= |log|
      ensures inTxn || !Looks(sharedEnd, old(walPos)) ==> seen == old(seen) && pager.View() == old(pager.View())
      ensures GreatestCount(pager.numPages, old(pager.numPages), seen[|old(seen)|..])
      ensures pager.pool.dirty <= old(pager.pool.dirty)
      ensures InPool(pager.pool.pages.Keys, old(pager.pool.pages).Keys, seen)
      ensures !inTxn && Looks(sharedEnd, old(walPos)) ==>
        var limit := ReadLimit(sharedEnd, old(walPos), force, |log|);
        AllPackable(all) && walPos <= limit && (|seen| < |all| ==> limit < Position(all, |seen| + 1))
    {
      hide PageAt, Blob, LogOf, Packable, PageEntry, BatchBytes, Scan, NoDup, Shows, BatchesOf, Position, PageEntries,
        Latest, Pager.Valid, InPool, CountsUpTo, GreatestCount;
      InPoolStill(pager.pool.pages.Keys, seen);
      GreatestOfNone(pager.numPages);
      assert seen[|seen|..] == [];
      if inTxn {
        return true;
      }
      var end := sharedEnd;
      if end.None? {
        end := Some(walPos);
      } else if end.value <= walPos {
        return true;
      }
      var batches;
      batches, ok := ReadBatchesFrom(log, walPos, if force then None else end);
      ghost var k, limit := |seen|, ReadLimit(sharedEnd, walPos, force, |log|);
      PositionOf(seen, all);
      ReadRange(log, LogOf(all), n, walPos, if force then None else end, limit);
      ghost var j := ReadNew(all, k, limit);
      BatchesAre(all, k, j);
      assert all[k..k] == [];
      var i := 0;
      while i < |batches|
        invariant i <= |batches| == j - k
        invariant Valid() && !inTxn && seen == all[..k + i] && walPos == Position(all, k + i)
        invariant pager.pool.dirty <= old(pager.pool.dirty)
        invariant InPool(pager.pool.pages.Keys, old(pager.pool.pages).Keys, seen)
        invariant GreatestCount(pager.numPages, old(pager.numPages), all[k..k + i])
      {
        GreatestOfMore(pager.numPages, old(pager.numPages), all, k, k + i);
        ghost var before := pager.pool.pages.Keys;
        AdoptBatch(batches[i], all, k + i);
        InPoolMore(before, old(pager.pool.pages).Keys, all, k + i);
        i := i + 1;
      }
      assert all[..k + i][k..] == all[k..k + i];
    }

    /** BEGIN, in a session that only reads; false is the TransactionError. */
    method Begin() returns (ok: bool)
      requires Valid()
      modifies `inTxn, pager`touched, pager`shadow, pager`file0, pager`pages0, pager`dirty0
      ensures Valid() && inTxn && ok == !old(inTxn) && seen == old(seen) && pager.View() == old(pager.View())
    {
      hide Shows, PageAt, NoDup;
      if inTxn {
        return false;
      }
      ok := pager.Begin();
      inTxn := true;
    }

    /** COMMIT of a transaction that has written nothing */
    method End() returns (ok: bool)
      requires Valid() && pager.shadow == map[]
      modifies `inTxn, pager`touched, pager`shadow
      ensures Valid() && !inTxn && ok == old(inTxn) && seen == old(seen) && pager.View() == old(pager.View())
    {
      hide Shows, PageAt, NoDup;
      if !inTxn {
        return false;
      }
      var images, n := pager.CollectCommit();
      inTxn := false;
      return true;
    }

    /** A read shows the adopted batches over the file, or the IndexError for a page outside;
        no page of an adopted batch is outside. The session goes on showing them
        if and only if each of the oldest pages that make room is dirty or what the file
        holds; so in any case in a transaction, for a page in the pool, or with room for one
        more. */
    method Read(n: nat) returns (data: Option<Page>)
      requires Valid()
      modifies pager`file, pager.pool
      ensures data == if n < pager.numPages then Some(Overlaid(seen, base, n)) else None
      ensures AllNumbered(seen) && Latest(seen, n).Some? ==> data == Some(Latest(seen, n).value)
      ensures Valid() <==> old(pager.LeavingFiled(n))
      ensures inTxn || n in old(pager.pool.pages) || |old(pager.pool.pages)| < pager.capacity ==> Valid()
      ensures !inTxn && n !in old(pager.pool.pages) && n < pager.numPages ==>
        n in pager.pool.pages && |pager.pool.pages| <= pager.capacity
      ensures WrittenBack(old(pager.file), old(pager.pool.pages), old(pager.pool.dirty), pager.file, pager.pool.pages)
    {
      hide PageAt, NoDup, WrittenBack, Latest, Kept, GoneAreFiled, ViewsAgree, Shows;
      ghost var f, p, d := pager.file, pager.pool.pages, pager.pool.dirty;
      if AllNumbered(seen) && Latest(seen, n).Some? {
        LatestIsCounted(seen, pager.numPages, n);
      }
      hide CountsUpTo, AllNumbered;
      ShownPage(pager.View(), seen, base, n);
      ghost var leaving := pager.Leaving(n);
      data := pager.Get(n);
      GoneIsLeaving(f, p, d, pager.pool.pages, leaving);
      ViewAfterRead(f, p, d, pager.file, pager.pool.pages, n);
      ShowsSame(Store(f, p), pager.View(), seen, base);
    }
  }

  lemma ShownPage(s: Store, es: seq<Entry>, base: seq<Byte>, n: nat)
    requires PageEntries(es) && Shows(s, es, base)
    ensures s.At(n) == Overlaid(es, base, n)
  {
    hide PageAt, Latest;
  }

  /** Two views of which one shows the entries: the other does if and only if it agrees. */
  lemma ShowsSame(s: Store, s': Store, es: seq<Entry>, base: seq<Byte>)
    requires Shows(s, es, base)
    ensures Shows(s', es, base) <==> ViewsAgree(s, s')
  {
    hide PageAt, Latest, ImgOf;
    if Shows(s', es, base) {
      forall n: nat
        ensures s'.At(n) == s.At(n)
      {
        assert s'.At(n) == Overlaid(es, base, n) && s.At(n) == Overlaid(es, base, n);
      }
    }
  }

  /** Adopted images are not marked dirty, so an eviction forgets them: a page then reads
      as it did before the batch, although the session has not gone back. */
  method EvictionForgets(image: Page) returns (s: ReadSession)
    ensures s.seen == [Entry(map[1 := image], 2)]
    ensures s.pager.View().At(1) == Zeros(PAGE_SIZE)
  {
    hide Shows, Blob, LogOf, Position, BatchBytes, Overlaid, PageAt, NoDup, PageEntries, PageEntry, Packable, Latest;
    ghost var all := [Entry(map[1 := image], 2)];
    OnePageLog(image);
    NotInEntry(image);
    s := new ReadSession([], 1);
    var log := OneEntryLog(image);
    var ok := s.Refresh(log, Some(|log|), false, all, |log|);
    assert s.seen == all && s.pager.file == [] && 1 !in s.pager.pool.dirty;
    assert 0 !in s.pager.pool.pages;
    var data := s.Read(0);
    assert |s.pager.pool.pages| == |s.pager.pool.pages.Keys|;
    OnlyOne(s.pager.pool.pages.Keys);
    assert PageAt(s.pager.file, 1) == PageAt([], 1);
    NoFile();
  }

  lemma NoFile()
    ensures PageAt([], 1) == Zeros(PAGE_SIZE)
  {
  }

  /** A log with one committed transaction that wrote page 1. */
  function OneEntryLog(image: Page): seq<Byte> {
    HEADER + BatchBytes(Entry(map[1 := image], 2))
  }

  lemma OnePageLog(image: Page)
    ensures var all := [Entry(map[1 := image], 2)];
      && PageEntries(all) && AllPackable(all)
      && LogOf(all) == OneEntryLog(image) && Position(all, 1) == |OneEntryLog(image)|
      && |OneEntryLog(image)| > HEADER_SIZE && Position(all, 0) == HEADER_SIZE
  {
    var e := Entry(map[1 := image], 2);
    assert Packable(e) && PageEntry(e);
    hide BatchBytes, Packable, PageEntry;
    assert [e][1..] == [] && [e][..1] == [e] && [e][..0] == [];
    assert Blob([e]) == BatchBytes(e) by {
      assert Blob([e]) == BatchBytes(e) + [];
    }
    BatchNotEmpty(e);
  }

  lemma BatchNotEmpty(e: Entry)
    requires Packable(e)
    ensures |BatchBytes(e)| > 0
  {
  }

  lemma NotInEntry(image: Page)
    ensures Latest([Entry(map[1 := image], 2)], 0).None? && Latest([Entry(map[1 := image], 2)], 1).Some?
  {
    assert [Entry(map[1 := image], 2)][1..] == [];
  }

  lemma OnlyOne(s: set<nat>)
    requires 0 in s && |s| <= 1
    ensures 1 !in s
  {
    if 1 in s {
      assert {0, 1} <= s && |{0, 1}| == 2;
      SubsetSize({0, 1}, s);
    }
  }
}
