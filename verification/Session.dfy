// Durability (the transaction part of leafdb/engine.py over its pager and log): after a
// crash at any moment, recovery brings back exactly the committed pages.

module Session {
  import opened Bytes
  import opened Disk
  import opened Pager
  import opened Wal
  import opened Recovery

  // ---- what the file and the log hold together -----------------------------------------

  ghost predicate SamePages(a: Store, b: Store) {
    forall n: nat :: a.At(n) == b.At(n)
  }

  /** Replaying the log's entries over the file gives the committed pages. */
  ghost predicate Durable(file: seq<Byte>, es: seq<Entry>, committed: Store) {
    forall n: nat :: committed.At(n) == Overlaid(es, file, n)
  }

  /** What may reach the file before the next checkpoint is in the log already. */
  ghost predicate AllLogged(dirty: set<nat>, es: seq<Entry>) {
    forall n :: n in dirty ==> Latest(es, n).Some?
  }

  /** Dirty pages that are written back do not show through the log. */
  lemma WriteBackDurable(f: seq<Byte>, p: map<nat, Page>, d: set<nat>, f': seq<Byte>, p': map<nat, Page>,
                         es: seq<Entry>, committed: Store)
    requires WrittenBack(f, p, d, f', p') && AllLogged(d, es) && Durable(f, es, committed)
    ensures Durable(f', es, committed)
  {
    hide PageAt, Latest;
  }

  /** The pages as of a commit of some images. */
  ghost function With(committed: Store, images: map<nat, Page>): Store {
    Store(committed.file, committed.pages + images)
  }

  /** A commit: touched pages come from the new entry, all others are as they were. */
  lemma CommitDurable(file: seq<Byte>, es: seq<Entry>, e: Entry, images: map<nat, Page>, committed: Store)
    requires Durable(file, es, committed) && e.pages == images
    ensures Durable(file, es + [e], With(committed, images))
  {
    hide PageAt;
    forall n: nat
      ensures With(committed, images).At(n) == Overlaid(es + [e], file, n)
    {
      LatestConcat(es, [e], n);
      LatestOne(e, n);
      hide Latest;
      assert committed.At(n) == Overlaid(es, file, n);
    }
  }

  /** If the transaction began with the committed pages, reads see what it has committed. */
  lemma CommitCurrent(file: seq<Byte>, pages0: map<nat, Page>, pages: map<nat, Page>, shadow: map<nat, Option<Page>>,
                      images: map<nat, Page>, committed: Store)
    requires SamePages(Store(file, pages0), committed) && Shadows(file, pages0, pages, shadow)
    requires images.Keys == shadow.Keys && forall n :: n in images ==> images[n] == Store(file, pages).At(n)
    ensures SamePages(Store(file, pages), With(committed, images))
  {
    hide PageAt;
    forall n: nat
      ensures Store(file, pages).At(n) == With(committed, images).At(n)
    {
      assert Store(file, pages0).At(n) == committed.At(n);
    }
  }

  lemma LatestOne(e: Entry, n: nat)
    ensures Latest([e], n) == if n in e.pages then Some(e.pages[n]) else None
  {
    assert [e][1..] == [];
  }

  lemma CommitLogged(dirty0: set<nat>, es: seq<Entry>, e: Entry)
    requires AllLogged(dirty0, es)
    ensures AllLogged(dirty0 + e.pages.Keys, es + [e])
  {
    forall n | n in dirty0 + e.pages.Keys
      ensures Latest(es + [e], n).Some?
    {
      LatestConcat(es, [e], n);
      LatestOne(e, n);
      hide Latest;
    }
  }

  /** After a commit every clean page of the pool is what the file holds. */
  lemma CommitClean(file: seq<Byte>, pages0: map<nat, Page>, dirty0: set<nat>, pages: map<nat, Page>,
                    shadow: map<nat, Option<Page>>)
    requires Clean(file, pages0, dirty0) && Shadows(file, pages0, pages, shadow)
    ensures Clean(file, pages, dirty0 + shadow.Keys)
  {
    hide PageAt;
  }

  /** After a rollback the pool is clean if and only if no page lost its dirty mark
      while the file held something else. */
  lemma RollbackClean(file: seq<Byte>, pages0: map<nat, Page>, dirty0: set<nat>,
                      pages: map<nat, Page>, shadow: map<nat, Option<Page>>, pages': map<nat, Page>)
    requires Clean(file, pages0, dirty0) && Shadows(file, pages0, pages, shadow) && dirty0 <= pages0.Keys
    requires forall n: nat :: Store(file, pages').At(n) == Store(file, pages0).At(n)
    requires forall n :: n in pages' && n !in shadow ==> n in pages && pages'[n] == pages[n]
    requires forall n :: n in shadow ==>
      if shadow[n].None? then n !in pages' else n in pages' && pages'[n] == shadow[n].value
    ensures Clean(file, pages', dirty0 - shadow.Keys) <==>
            forall n :: n in shadow && n in dirty0 ==> Store(file, pages0).At(n) == PageAt(file, n)
  {
    hide PageAt;
    if forall n :: n in shadow && n in dirty0 ==> Store(file, pages0).At(n) == PageAt(file, n) {
      forall n | n in pages' && n !in dirty0 - shadow.Keys
        ensures pages'[n] == PageAt(file, n)
      {
        assert Store(file, pages').At(n) == Store(file, pages0).At(n);
      }
    }
    if Clean(file, pages', dirty0 - shadow.Keys) {
      forall n | n in shadow && n in dirty0
        ensures Store(file, pages0).At(n) == PageAt(file, n)
      {
        assert Store(file, pages').At(n) == Store(file, pages0).At(n);
        assert shadow[n].Some?;
      }
    }
  }

  /** What a flush leaves in the file is what was committed, if and only if every page
      that was not dirty was in the file already. */
  lemma FlushDurable(f: seq<Byte>, p: map<nat, Page>, d: set<nat>, f': seq<Byte>, committed: Store)
    requires d <= p.Keys && SamePages(Store(f, p), committed)
    requires forall n: nat :: PageAt(f', n) == if n in d then p[n] else PageAt(f, n)
    ensures Durable(f', [], committed) <==> forall n: nat :: n !in d ==> PageAt(f, n) == committed.At(n)
  {
    hide PageAt;
    assert forall n: nat :: Overlaid([], f', n) == PageAt(f', n);
    assert forall n :: n in d ==> Store(f, p).At(n) == p[n];
    if forall n: nat :: n !in d ==> PageAt(f, n) == committed.At(n) {
      forall n: nat
        ensures committed.At(n) == Overlaid([], f', n)
      {
        assert Store(f, p).At(n) == committed.At(n);
      }
    }
  }

  lemma CleanIsFiled(f: seq<Byte>, p: map<nat, Page>, d: set<nat>, committed: Store)
    requires Clean(f, p, d) && SamePages(Store(f, p), committed)
    ensures forall n: nat :: n !in d ==> PageAt(f, n) == committed.At(n)
  {
    hide PageAt;
    forall n: nat | n !in d
      ensures PageAt(f, n) == committed.At(n)
    {
      assert Store(f, p).At(n) == committed.At(n);
    }
  }

  lemma EntryOf(images: map<nat, Page>, n: nat)
    requires IsU32(n) && Numbered(images.Keys, n)
    ensures PageEntries([Entry(images, n)]) && Packable(Entry(images, n)) && PageEntry(Entry(images, n))
  {
  }

  /** The database of one process: a pager, its log, and whether a transaction is open. */
  class Session {
    const pager: Pager
    var log: seq<Byte>
    var walPos: nat
    var inTxn: bool

    // the transactions in the log, and the pages as of the last commit
    ghost var entries: seq<Entry>
    ghost var committed: Store

    /** Whatever has happened, a crash now loses nothing that was committed and brings
        back nothing that was not. */
    ghost predicate Safe()
      reads this, pager, pager.pool
    {
      && pager.Valid() && inTxn == pager.touched.Some?
      && Logged(log, entries)
      && Durable(pager.file, entries, committed)
      && AllLogged(Marks(), entries)
      && (inTxn ==> pager.dirty0 <= pager.pages0.Keys)
    }

    /** The dirty pages that hold committed images. */
    ghost function Marks(): set<nat>
      reads this, pager, pager.pool
    {
      if inTxn then pager.dirty0 else pager.pool.dirty
    }

    /** Outside a transaction, reads see the committed pages. */
    ghost predicate Current()
      reads this, pager, pager.pool
    {
      SamePages(if inTxn then Store(pager.file0, pager.pages0) else pager.View(), committed)
    }

    /** Every page of the pool without a dirty mark is what the file holds. */
    ghost predicate Tidy()
      reads this, pager, pager.pool
    {
      if inTxn then Clean(pager.file0, pager.pages0, pager.dirty0) else pager.PoolClean()
    }

    ghost predicate Ready()
      reads this, pager, pager.pool
    {
      Safe() && Current() && Tidy()
    }

    /** Opening a database: recovery, then the pager, then the log, which starts afresh
        if a batch was applied. The caller sees to it that recovery ended well. */
    constructor (log: seq<Byte>, file: seq<Byte>, capacity: nat)
      requires capacity > 0 && Recover(log, file).ok
      ensures fresh(pager) && fresh(pager.pool) && !inTxn
      ensures pager.file == Recover(log, file).file && committed == pager.View()
      ensures pager.pool.pages == map[] && pager.pool.dirty == {}
      ensures pager.numPages == Max(1, |pager.file| / PAGE_SIZE)
      ensures Current() && Tidy() && entries == []
      ensures Safe() <==> Recover(log, file).applied > 0 || |log| <= HEADER_SIZE
      ensures this.log == if Recover(log, file).applied > 0 || |log| < HEADER_SIZE then HEADER else log
      ensures walPos == |this.log|
    {
      var r := RecoverFile(log, file);
      pager := new Pager(r.file, capacity);
      this.log := if r.applied > 0 || |log| < HEADER_SIZE then HEADER else log;
      walPos := if r.applied > 0 || |log| < HEADER_SIZE then HEADER_SIZE else |log|;
      inTxn, entries, committed := false, [], Store(r.file, map[]);
      new;
      assert Overlaid([], pager.file, 0) == PageAt(pager.file, 0);
    }

    /** `get`. When reads see the committed pages, they go on doing so if and only if each of
        the oldest pages that make room is dirty or what the file holds. */
    method Read(n: nat) returns (data: Option<Page>)
      requires Safe()
      modifies pager`file, pager.pool
      ensures Safe() && inTxn == old(inTxn)
      ensures old(Ready()) ==> Ready()
      ensures data == if n < pager.numPages then Some(old(pager.View()).At(n)) else None
      ensures old(Current()) && !inTxn && n < pager.numPages ==> data == Some(committed.At(n))
      ensures old(Current()) && !inTxn ==> (Current() <==> old(pager.LeavingFiled(n)))
      ensures inTxn ==> ViewsAgree(old(pager.View()), pager.View())
      ensures StillBacked(old(pager.file), old(Marks()), pager.file, Marks())
    {
      hide PageAt, Latest, WrittenBack, Durable, InTxn, Shadows, NoDup, Kept, GoneAreFiled;
      ghost var f, p, d := pager.file, pager.pool.pages, pager.pool.dirty;
      ghost var leaving := pager.Leaving(n);
      data := pager.Get(n);
      if !inTxn {
        GoneIsLeaving(f, p, d, pager.pool.pages, leaving);
        WriteBackDurable(f, p, d, pager.file, pager.pool.pages, entries, committed);
        ViewAfterRead(f, p, d, pager.file, pager.pool.pages, n);
        if old(Current()) {
          SameAgree(Store(f, p), pager.View(), committed);
        }
      }
    }

    /** `_begin_locked`; false is the TransactionError. */
    method Begin() returns (ok: bool)
      requires Safe()
      modifies `inTxn, pager`touched, pager`shadow, pager`file0, pager`pages0, pager`dirty0
      ensures Safe() && ok == !old(inTxn) && inTxn
      ensures pager.shadow == (if ok then map[] else old(pager.shadow)) && Marks() == old(Marks())
      ensures (old(Current()) ==> Current()) && (old(Tidy()) ==> Tidy())
    {
      hide PageAt, Latest, Durable, NoDup;
      if inTxn {
        return false;
      }
      ok := pager.Begin();
      inTxn := true;
    }

    /** `write`, inside a transaction; false is the ValueError for an oversized page. */
    method Write(n: nat, data: seq<Byte>) returns (ok: bool)
      requires Safe() && inTxn
      modifies pager`file, pager`numPages, pager`touched, pager`shadow, pager.pool
      ensures Safe() && ok == (|data| <= PAGE_SIZE)
      ensures pager.file == old(pager.file)
      ensures (old(Current()) ==> Current()) && (old(Tidy()) ==> Tidy())
      ensures if ok then ViewSet(old(pager.View()), pager.View(), n, Pad(data)) &&
                         pager.shadow.Keys == old(pager.shadow).Keys + {n}
              else pager.View() == old(pager.View()) && pager.shadow == old(pager.shadow)
      ensures pager.numPages == if ok then Max(old(pager.numPages), n + 1) else old(pager.numPages)
    {
      hide PageAt, Latest, Durable, Shadows, NoDup;
      ok := pager.Write(n, data);
    }

    /** `allocate`, inside a transaction */
    method Allocate() returns (n: nat)
      requires Safe() && inTxn
      modifies pager`file, pager`numPages, pager`touched, pager`shadow, pager.pool
      ensures Safe() && n == old(pager.numPages) && pager.numPages == n + 1
      ensures pager.file == old(pager.file)
      ensures (old(Current()) ==> Current()) && (old(Tidy()) ==> Tidy())
      ensures ViewSet(old(pager.View()), pager.View(), n, Zeros(PAGE_SIZE))
      ensures pager.shadow.Keys == old(pager.shadow).Keys + {n}
    {
      hide PageAt, Latest, Durable, Shadows, NoDup;
      n := pager.Allocate();
    }

    /** `append_batch`, for the images of a transaction */
    method AppendBatch(images: map<nat, Page>, n: nat)
      requires Logged(log, entries) && Packable(Entry(images, n)) && PageEntries([Entry(images, n)])
      modifies `log, `walPos, `entries
      ensures Logged(log, entries) && entries == old(entries) + [Entry(images, n)]
      ensures log == old(log) + BatchBytes(Entry(images, n)) && walPos == |log|
    {
      hide *;
      LoggedMore(log, entries, Entry(images, n));
      log := log + BatchBytes(Entry(images, n));
      walPos := |log|;
      entries := entries + [Entry(images, n)];
    }

    /** `_commit_locked`; false is the TransactionError. The page count is what struct.pack
        can hold. The touched pages are committed, and no other page changes. */
    method Commit() returns (ok: bool)
      requires Safe()
      requires inTxn ==> IsU32(pager.numPages)
      modifies `log, `walPos, `inTxn, `entries, `committed, pager`touched, pager`shadow
      ensures Safe() && ok == old(inTxn) && !inTxn
      ensures pager.file == old(pager.file) && pager.View() == old(pager.View())
      ensures Overwrites(old(committed), committed, if ok then old(pager.shadow).Keys else {}, pager.View())
      ensures old(Current()) ==> Current()
      ensures old(Tidy()) ==> Tidy()
      ensures Marks() == old(Marks()) + if ok then old(pager.shadow).Keys else {}
      ensures ok && old(pager.shadow) != map[] ==>
        && PageEntry(old(CommitEntry())) && Packable(old(CommitEntry()))
        && log == old(log) + BatchBytes(old(CommitEntry())) && walPos == |log|
        && entries == old(entries) + [old(CommitEntry())]
      ensures !(ok && old(pager.shadow) != map[]) ==> log == old(log) && entries == old(entries)
    {
      hide PageAt, Latest, BatchBytes, Blob, NoDup, Durable, AllLogged, Clean, Shadows, PageEntry, Packable,
        PageEntries, Numbered, Logged, SamePages, Overwrites;
      OverwritesNothing(committed, pager.View());
      if !inTxn {
        return false;
      }
      ghost var shadow, e := pager.shadow, CommitEntry();
      assert pager.pool.dirty == pager.dirty0 + shadow.Keys;
      var images, n := pager.CollectCommit();
      assert images.Keys == shadow.Keys && e == Entry(images, n);
      assert pager.file0 == pager.file && Shadows(pager.file, pager.pages0, pager.pool.pages, shadow);
      hide CommitEntry, Pager.Core, BufferPool.Valid, MovedToEnd, Without, InTxn, ImgOf, Store.At;
      EntryOf(images, n);
      CommitDurable(pager.file, entries, e, images, committed);
      CommitLogged(pager.dirty0, entries, e);
      if old(Tidy()) {
        CommitClean(pager.file0, pager.pages0, pager.dirty0, pager.pool.pages, shadow);
      }
      if old(Current()) {
        CommitCurrent(pager.file, pager.pages0, pager.pool.pages, shadow, images, committed);
      }
      WithOverwrites(committed, images, pager.View());
      hide With;
      if images != map[] {
        AppendBatch(images, n);
      } else {
        WithNothing(committed);
        assert pager.dirty0 + shadow.Keys == pager.dirty0;
      }
      committed := With(committed, images);
      inTxn := false;
      assert AllLogged(pager.pool.dirty, entries);
      return true;
    }

    /** What a commit would append now. */
    ghost function CommitEntry(): Entry
      reads this, pager, pager.pool
    {
      Entry(map n | n in pager.shadow :: pager.View().At(n), pager.numPages)
    }

    /** `_rollback_locked`: reads see again what they saw when the transaction began. The
        touched pages lose their dirty marks, also those that an earlier commit had
        marked: a tidy pool stays tidy if and only if the file held every one of them. */
    method Rollback() returns (ok: bool)
      requires Safe()
      modifies `inTxn, pager`touched, pager`shadow, pager.pool
      ensures Safe() && ok == old(inTxn) && !inTxn
      ensures pager.file == old(pager.file)
      ensures ok ==> forall n: nat :: pager.View().At(n) == Store(pager.file0, pager.pages0).At(n)
      ensures ok ==> pager.pool.dirty == pager.dirty0 - old(pager.shadow).Keys
      ensures !ok ==> pager.View() == old(pager.View()) && pager.pool.dirty == old(pager.pool.dirty)
      ensures old(Current()) ==> Current()
      ensures old(Tidy()) ==>
        (Tidy() <==>
         forall n :: n in old(pager.shadow) && n in pager.dirty0 && ok ==>
           Store(pager.file0, pager.pages0).At(n) == PageAt(pager.file, n))
    {
      hide PageAt, Latest, Durable, NoDup;
      if !inTxn {
        return false;
      }
      ghost var shadow, pages := pager.shadow, pager.pool.pages;
      pager.Rollback();
      if old(Tidy()) {
        RollbackClean(pager.file, pager.pages0, pager.dirty0, pages, shadow, pager.pool.pages);
      }
      inTxn := false;
      return true;
    }

    /** `_checkpoint_locked`: the dirty pages go to the file and the log starts afresh, unless
        a transaction or another session is open; false is the TransactionError. Nothing
        committed is lost if and only if every page without a dirty mark was in the file. */
    method Checkpoint(others: nat) returns (ok: bool)
      requires Safe() && (inTxn || others > 0 || Current())
      modifies `log, `walPos, `entries, pager`file, pager.pool`dirty
      ensures ok == (!inTxn && others == 0)
      ensures !ok ==> log == old(log) && walPos == old(walPos) && entries == old(entries)
      ensures !ok ==> pager.file == old(pager.file) && pager.pool.dirty == old(pager.pool.dirty)
      ensures !ok ==> Safe() && (old(Current()) ==> Current()) && (old(Tidy()) ==> Tidy())
      ensures ok ==> log == HEADER && walPos == |log| && entries == [] && pager.pool.dirty == {}
      ensures ok ==> forall n: nat ::
        PageAt(pager.file, n) == if n in old(pager.pool.dirty) then committed.At(n) else PageAt(old(pager.file), n)
      ensures ok ==> (Safe() <==> forall n: nat :: n !in old(pager.pool.dirty) ==>
        PageAt(old(pager.file), n) == committed.At(n))
      ensures ok && old(Tidy()) ==> Ready()
      ensures ok ==> StillBacked(old(pager.file), old(Marks()), pager.file, {})
    {
      hide PageAt, Latest, NoDup;
      if inTxn || others > 0 {
        return false;
      }
      ghost var f, p, d := pager.file, pager.pool.pages, pager.pool.dirty;
      pager.Flush();
      log, walPos, entries := HEADER, HEADER_SIZE, [];
      FlushDurable(f, p, d, pager.file, committed);
      if old(Tidy()) {
        FlushClean(f, p, d, pager.file);
        CleanIsFiled(f, p, d, committed);
        SameView(f, p, d, pager.file, committed);
      }
      assert Logged(log, entries);
      hide Durable;
      return true;
    }

    /** A crash: the pool is gone, and recovery from the file and the log brings back
        the committed pages. */
    lemma CrashNow(n: nat)
      requires Safe()
      ensures Recover(log, pager.file).ok
      ensures PageAt(Recover(log, pager.file).file, n) == committed.At(n)
    {
      RecoverWhole(log, entries, pager.file, n);
      hide PageAt;
    }

    /** A crash in the middle of the append of a commit, with k bytes of it written:
        recovery brings back the pages as of the commit before, and none of this
        transaction's; or all of its pages, over those, if the append is complete. */
    lemma CrashInCommit(k: nat, n: nat)
      requires Safe() && inTxn && pager.shadow != map[]
      requires IsU32(pager.numPages)
      ensures Packable(CommitEntry())
      ensures var b := BatchBytes(CommitEntry());
        k <= |b| ==>
          var r := Recover(log + b[..k], pager.file);
          && r.ok
          && PageAt(r.file, n) == if k == |b| && n in pager.shadow then pager.View().At(n) else committed.At(n)
    {
      hide PageAt, BatchBytes, Latest, Blob, Recover;
      ghost var images := map p | p in pager.shadow :: pager.View().At(p);
      ghost var e := CommitEntry();
      EntryOf(images, pager.numPages);
      CommitDurable(pager.file, entries, e, images, committed);
      WithAt(committed, images);
      if k <= |BatchBytes(e)| {
        RecoverCut(log, entries, e, k, pager.file, n);
      }
    }

    /** A crash while dirty pages are written back, be it by a checkpoint or by an eviction:
        some of them have reached the file, and j bytes of one more. The log is still there,
        and recovery brings back the committed pages. */
    lemma CrashInWriteBack(written: seq<nat>, m: nat, j: nat, n: nat)
      requires Safe() && !inTxn && m in pager.pool.dirty && j <= PAGE_SIZE
      requires forall x :: x in written ==> x in pager.pool.dirty
      ensures var r := Recover(log, TornWriteBack(pager.file, pager.pool.pages, written, m, j));
        r.ok && PageAt(r.file, n) == committed.At(n)
    {
      hide PageAt, Latest, Logged, NoDup, WrittenPages;
      ghost var file' := TornWriteBack(pager.file, pager.pool.pages, written, m, j);
      WrittenElsewhere(pager.file, pager.pool.pages, written, n);
      if n !in pager.pool.dirty {
        TornWrite(WrittenPages(pager.file, pager.pool.pages, written), m, pager.pool.pages[m][..j], n);
      }
      RecoverWhole(log, entries, file', n);
      assert committed.At(n) == Overlaid(entries, pager.file, n);
    }

    /** A crash while a checkpoint, its flush being done, starts the log afresh: k bytes of the
        new header are there. The file alone has the committed pages. */
    lemma CrashInReset(k: nat, n: nat)
      requires Safe() && entries == [] && k <= HEADER_SIZE
      ensures var r := Recover(HEADER[..k], pager.file);
        r.ok && r.applied == 0 && PageAt(r.file, n) == committed.At(n)
    {
      hide PageAt;
      assert committed.At(n) == Overlaid([], pager.file, n);
    }

    /** In a transaction that began with the committed pages, an untouched page still reads
        as it was committed. */
    lemma UntouchedPage(n: nat)
      requires Safe() && inTxn && Current() && n !in pager.shadow
      ensures pager.View().At(n) == committed.At(n)
    {
      hide PageAt, Latest, Durable, NoDup;
      assert Store(pager.file0, pager.pages0).At(n) == committed.At(n);
    }
  }

  /** The file after some pages of the pool have been written to it. */
  function WrittenPages(file: seq<Byte>, pages: map<nat, Page>, ns: seq<nat>): seq<Byte>
    requires forall x :: x in ns ==> x in pages
    decreases |ns|
  {
    if ns == [] then file else WrittenPages(WritePage(file, ns[0], pages[ns[0]]), pages, ns[1..])
  }

  /** And j bytes of one more. */
  function TornWriteBack(file: seq<Byte>, pages: map<nat, Page>, ns: seq<nat>, m: nat, j: nat): seq<Byte>
    requires (forall x :: x in ns ==> x in pages) && m in pages && j <= PAGE_SIZE
  {
    WriteAt(WrittenPages(file, pages, ns), m * PAGE_SIZE, pages[m][..j])
  }

  lemma {:induction false} WrittenElsewhere(file: seq<Byte>, pages: map<nat, Page>, ns: seq<nat>, n: nat)
    requires forall x :: x in ns ==> x in pages
    ensures n !in ns ==> PageAt(WrittenPages(file, pages, ns), n) == PageAt(file, n)
    decreases |ns|
  {
    hide PageAt, WritePage;
    if ns != [] {
      PageOfWrite(file, ns[0], pages[ns[0]], n);
      WrittenElsewhere(WritePage(file, ns[0], pages[ns[0]]), pages, ns[1..], n);
    }
  }

  /** The pages of s, with some of them as another view has them. */
  ghost predicate Overwrites(s: Store, s': Store, ns: set<nat>, view: Store) {
    forall n: nat :: s'.At(n) == if n in ns then view.At(n) else s.At(n)
  }

  lemma OverwritesNothing(s: Store, view: Store)
    ensures Overwrites(s, s, {}, view)
  {
    hide ImgOf;
  }

  lemma WithOverwrites(committed: Store, images: map<nat, Page>, view: Store)
    requires forall n :: n in images ==> images[n] == view.At(n)
    ensures Overwrites(committed, With(committed, images), images.Keys, view)
  {
    hide PageAt;
  }

  lemma WithNothing(committed: Store)
    ensures With(committed, map[]) == committed
  {
    assert committed.pages + map[] == committed.pages;
  }

  lemma WithAt(committed: Store, images: map<nat, Page>)
    ensures forall n: nat :: With(committed, images).At(n) == if n in images then images[n] else committed.At(n)
  {
    hide PageAt;
  }

  /** Of two views that agree, one shows the committed pages if and only if the other does. */
  lemma SameAgree(s: Store, s': Store, committed: Store)
    requires SamePages(s, committed)
    ensures SamePages(s', committed) <==> ViewsAgree(s, s')
  {
    hide ImgOf;
    if SamePages(s', committed) {
      forall n: nat
        ensures s'.At(n) == s.At(n)
      {
        assert s'.At(n) == committed.At(n) && s.At(n) == committed.At(n);
      }
    }
    if ViewsAgree(s, s') {
      forall n: nat
        ensures s'.At(n) == committed.At(n)
      {
        assert s'.At(n) == s.At(n) && s.At(n) == committed.At(n);
      }
    }
  }

  lemma FlushClean(f: seq<Byte>, p: map<nat, Page>, d: set<nat>, f': seq<Byte>)
    requires Clean(f, p, d) && d <= p.Keys
    requires forall n: nat :: PageAt(f', n) == if n in d then p[n] else PageAt(f, n)
    ensures Clean(f', p, {})
  {
    hide PageAt;
  }

  lemma SameView(f: seq<Byte>, p: map<nat, Page>, d: set<nat>, f': seq<Byte>, committed: Store)
    requires SamePages(Store(f, p), committed) && d <= p.Keys
    requires forall n: nat :: PageAt(f', n) == if n in d then p[n] else PageAt(f, n)
    ensures SamePages(Store(f', p), committed)
  {
    hide PageAt;
    forall n: nat
      ensures Store(f', p).At(n) == committed.At(n)
    {
      assert Store(f, p).At(n) == committed.At(n);
    }
  }

  /** The dirty mark that a rollback drops, and what it costs: a committed page that a
      later transaction wrote and rolled back does not reach the file at the checkpoint,
      and the log that still had it is gone. */
  method CommittedPageLost(data: Page, other: Page) returns (s: Session)
    ensures s.committed.At(0) == data && s.log == HEADER && s.pager.pool.dirty == {}
    ensures PageAt(s.pager.file, 0) == Zeros(PAGE_SIZE)
  {
    hide Session.Safe, Session.Tidy, Session.Current, Session.Marks, Session.CommitEntry, Recover, BatchBytes, Blob,
      PageAt, Pager.Valid, NoDup, Latest, StillBacked, Packable, PageEntry, Shadows, Clean, ImgOf;
    NothingToRecover();
    s := new Session([], [], 64);
    var ok := s.Begin();
    ok := s.Write(0, data);
    assert Pad(data) == data;
    ok := s.Commit();
    ok := s.Begin();
    ok := s.Write(0, other);
    ok := s.Rollback();
    ok := s.Checkpoint(0);
  }

  lemma NothingToRecover()
    ensures Recover([], []) == Outcome([], 0, true) && PageAt([], 0) == Zeros(PAGE_SIZE)
  {
  }
}
