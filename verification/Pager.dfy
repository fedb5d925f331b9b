// The buffer pool and the pager (leafdb/pager.py): an LRU cache of pages over a
// file, with eviction, and shadow copies for rollback.

module Pager {
  import opened Bytes
  import opened Disk

  ghost predicate NoDup(s: seq<nat>) {
    forall i, j :: 0 <= i < j < |s| ==> s[i] != s[j]
  }

  /** A list with one element taken out. */
  function Without(s: seq<nat>, n: nat): (r: seq<nat>)
    ensures forall x :: x in r <==> x in s && x != n
    ensures NoDup(s) ==> NoDup(r)
    ensures |r| <= |s| && (n in s ==> |r| < |s|)
  {
    if s == [] then []
    else if s[0] == n then Without(s[1..], n)
    else
      var rest := Without(s[1..], n);
      assert NoDup(s) ==> NoDup(s[1..]) && s[0] !in s[1..];
      [s[0]] + rest
  }

  /** `move_to_end`, or insertion at the end */
  function MovedToEnd(s: seq<nat>, n: nat): seq<nat> {
    Without(s, n) + [n]
  }

  /** An ordered dictionary of page images, oldest use first, and the set of pages
      that differ from the file. */
  class BufferPool {
    var pages: map<nat, Page>
    var order: seq<nat>
    var dirty: set<nat>

    constructor ()
      ensures pages == map[] && order == [] && dirty == {}
    {
      pages, order, dirty := map[], [], {};
    }

    ghost predicate Valid()
      reads this
    {
      && NoDup(order)
      && (forall n :: n in order <==> n in pages)
      && dirty <= pages.Keys
    }

    lemma Size()
      requires Valid()
      ensures |order| == |pages| && dirty <= pages.Keys
    {
      OrderSize(order, pages);
    }

    lemma Oldest()
      requires Valid() && |pages| > 0
      ensures order != [] && order[0] in pages && Without(order, order[0]) == order[1..]
    {
      SomePage(pages, order);
      assert order[0] in order;
      WithoutFirst(order);
    }

    method Get(n: nat) returns (data: Option<Page>)
      requires Valid()
      modifies `order
      ensures Valid()
      ensures data == if n in pages then Some(pages[n]) else None
      ensures order == if n in pages then MovedToEnd(old(order), n) else old(order)
    {
      if n in pages {
        order := MovedToEnd(order, n);
        return Some(pages[n]);
      }
      return None;
    }

    method Put(n: nat, data: Page, mark: bool)
      requires Valid()
      modifies this
      ensures Valid()
      ensures pages == old(pages)[n := data]
      ensures dirty == if mark then old(dirty) + {n} else old(dirty)
      ensures order == MovedToEnd(old(order), n)
    {
      pages := pages[n := data];
      order := MovedToEnd(order, n);
      if mark {
        dirty := dirty + {n};
      }
    }

    /** `pages.pop(n, None)` and `dirty.discard(n)` */
    method Drop(n: nat)
      requires Valid()
      modifies this
      ensures Valid()
      ensures pages == old(pages) - {n} && dirty == old(dirty) - {n}
      ensures order == Without(old(order), n)
    {
      pages := pages - {n};
      order := Without(order, n);
      dirty := dirty - {n};
    }

    method Clean(n: nat)
      requires Valid()
      modifies `dirty
      ensures Valid() && dirty == old(dirty) - {n}
    {
      dirty := dirty - {n};
    }
  }

  /** What a read of page n returns: the pool's image, else the file's. */
  function ImgOf(file: seq<Byte>, pages: map<nat, Page>, n: nat): Page {
    if n in pages then pages[n] else PageAt(file, n)
  }

  /** The page images that the pool over the file shows at one moment. */
  datatype Store = Store(file: seq<Byte>, pages: map<nat, Page>) {
    function At(n: nat): Page {
      ImgOf(file, pages, n)
    }
  }

  /** The view with page n set. */
  ghost predicate ViewSet(s: Store, s': Store, n: nat, data: Page) {
    forall m: nat :: s'.At(m) == if m == n then data else s.At(m)
  }

  ghost predicate ViewsAgree(s: Store, s': Store) {
    forall m: nat :: s'.At(m) == s.At(m)
  }

  /** Clean pages are what the file holds, so dropping one changes nothing. */
  ghost predicate Clean(file: seq<Byte>, pages: map<nat, Page>, dirty: set<nat>) {
    forall n :: n in pages && n !in dirty ==> pages[n] == PageAt(file, n)
  }

  /** The shadow copies allow going back: an untouched page reads as it did at the
      beginning, a touched one has its old image saved, or had none. */
  ghost predicate Shadows(file0: seq<Byte>, pages0: map<nat, Page>, pages: map<nat, Page>,
                          shadow: map<nat, Option<Page>>) {
    forall n: nat ::
      if n !in shadow then ImgOf(file0, pages, n) == ImgOf(file0, pages0, n)
      else match shadow[n]
           case None => n !in pages0
           case Some(image) => image == ImgOf(file0, pages0, n)
  }

  /** Pages that the file has, or will have. */
  ghost predicate Numbered(pages: set<nat>, limit: nat) {
    forall n :: n in pages ==> n < limit
  }

  lemma OneMoreNumbered(pages: set<nat>, limit: nat, n: nat)
    requires Numbered(pages, limit)
    ensures Numbered(pages + {n}, Max(limit, n + 1)) && Numbered(pages, Max(limit, n + 1))
  {
  }

  ghost predicate Submap(p': map<nat, Page>, p: map<nat, Page>) {
    p'.Keys <= p.Keys && forall n :: n in p' ==> p'[n] == p[n]
  }

  /** The file after some pages have been dropped from the pool, the dirty ones being
      written back first. */
  ghost predicate WrittenBack(file: seq<Byte>, pages: map<nat, Page>, dirty: set<nat>, file': seq<Byte>,
                              pages': map<nat, Page>) {
    forall n: nat ::
      PageAt(file', n) == if n in pages && n !in pages' && n in dirty then pages[n] else PageAt(file, n)
  }

  /** A page that is dirty or that the file is long enough for stays one of the two. */
  ghost predicate StillBacked(file: seq<Byte>, dirty: set<nat>, file': seq<Byte>, dirty': set<nat>) {
    |file| <= |file'| && forall n: nat :: n in dirty ==> n in dirty' || HasPage(file', n)
  }

  /** After a read of page n the pool holds that page and some of those it held, all as
      they read before. */
  ghost predicate Kept(file: seq<Byte>, pages: map<nat, Page>, pages': map<nat, Page>, n: nat) {
    forall m :: m in pages' ==> (m in pages || m == n) && pages'[m] == ImgOf(file, pages, m)
  }

  /** The pages that have gone from the pool are these. */
  ghost predicate HaveLeft(pages: map<nat, Page>, pages': map<nat, Page>, leaving: seq<nat>) {
    forall m :: m in pages ==> (m !in pages' <==> m in leaving)
  }

  /** Every page that has gone from the pool without a dirty mark is what the file held. */
  ghost predicate GoneAreFiled(file: seq<Byte>, pages: map<nat, Page>, dirty: set<nat>, pages': map<nat, Page>) {
    forall m :: m in pages && m !in pages' && m !in dirty ==> pages[m] == PageAt(file, m)
  }

  /** Inside a transaction the file is as it was, touched pages are dirty and stay in
      the pool, and so do the pages that were there at the beginning. */
  ghost predicate InTxn(file: seq<Byte>, pages: map<nat, Page>, dirty: set<nat>, shadow: map<nat, Option<Page>>,
                        file0: seq<Byte>, pages0: map<nat, Page>, dirty0: set<nat>) {
    && file == file0 && dirty == dirty0 + shadow.Keys
    && shadow.Keys <= pages.Keys && pages0.Keys <= pages.Keys
    && Shadows(file0, pages0, pages, shadow)
  }

  class Pager {
    const pool: BufferPool
    const capacity: nat
    var file: seq<Byte>
    var numPages: nat
    var touched: Option<set<nat>>
    var shadow: map<nat, Option<Page>>

    // the state when the open transaction began
    ghost var file0: seq<Byte>
    ghost var pages0: map<nat, Page>
    ghost var dirty0: set<nat>

    ghost predicate Core()
      reads this, pool
    {
      capacity > 0 && numPages > 0 && pool.Valid()
    }

    ghost predicate Valid()
      reads this, pool
    {
      && Core()
      && (touched.None? ==> shadow == map[])
      && Numbered(shadow.Keys, numPages)
      && (touched.Some? ==> touched.value == shadow.Keys
                            && InTxn(file, pool.pages, pool.dirty, shadow, file0, pages0, dirty0))
    }

    ghost function View(): Store
      reads this, pool
    {
      Store(file, pool.pages)
    }

    ghost predicate PoolClean()
      reads this, pool
    {
      Clean(file, pool.pages, pool.dirty)
    }

    /** No page of the view can change by a read: either nothing is evicted because a
        transaction is open, or eviction loses nothing. */
    ghost predicate Steady()
      reads this, pool
    {
      touched.Some? || PoolClean()
    }

    constructor (file: seq<Byte>, capacity: nat)
      requires capacity > 0
      ensures Valid() && fresh(pool)
      ensures this.file == file && this.capacity == capacity && touched == None
      ensures numPages == Max(1, |file| / PAGE_SIZE)
      ensures pool.pages == map[] && pool.dirty == {} && PoolClean()
    {
      this.file, this.capacity := file, capacity;
      numPages := Max(1, |file| / PAGE_SIZE);
      pool := new BufferPool();
      touched, shadow := None, map[];
    }

    /** How many pages must go to make room for one more. */
    ghost function Excess(): (k: nat)
      requires Core()
      reads this, pool
      ensures k <= |pool.order|
    {
      if touched.Some? || |pool.order| < capacity then 0 else |pool.order| - capacity + 1
    }

    /** The pages that a read of page n lets go: the oldest ones, if n is not in the pool
        and there is no room. */
    ghost function Leaving(n: nat): seq<nat>
      requires Core()
      reads this, pool
    {
      if n in pool.pages || n >= numPages then [] else pool.order[..Excess()]
    }

    /** Each of them is dirty or what the file holds: a read of page n loses nothing. */
    ghost predicate LeavingFiled(n: nat)
      requires Core()
      reads this, pool
    {
      forall m :: m in Leaving(n) && m in pool.pages && m !in pool.dirty ==> pool.pages[m] == PageAt(file, m)
    }

    /** One round of `_evict_if_full`: the oldest page goes, to the file if dirty. */
    method EvictOldest()
      requires Core() && |pool.pages| > 0
      modifies `file, pool
      ensures Core()
      ensures |old(pool.order)| > 0 && pool.order == old(pool.order)[1..]
      ensures pool.pages == old(pool.pages) - {old(pool.order)[0]}
      ensures pool.dirty == old(pool.dirty) * pool.pages.Keys
      ensures StillBacked(old(file), old(pool.dirty), file, pool.dirty)
      ensures WrittenBack(old(file), old(pool.pages), old(pool.dirty), file, pool.pages)
    {
      hide NoDup, PageAt, WrittenBack, WritePage, BufferPool.Valid, Without;
      pool.Size();
      pool.Oldest();
      var n := pool.order[0];
      var data := pool.pages[n];
      WriteBack(file, pool.pages, pool.dirty, n);
      PagesOfWrite(file, n, data);
      if n in pool.dirty {
        file := WritePage(file, n, data);
      }
      pool.Drop(n);
    }

    /** `_evict_if_full`: nothing inside a transaction; otherwise the oldest pages go until
        there is room, and no more. */
    method EvictIfFull()
      requires Core()
      modifies `file, pool
      ensures Core()
      ensures pool.order == old(pool.order)[old(Excess())..]
      ensures touched.Some? ==> file == old(file) && pool.pages == old(pool.pages) && pool.dirty == old(pool.dirty)
      ensures touched.None? ==> |pool.pages| < capacity
      ensures |old(pool.pages)| < capacity ==>
        file == old(file) && pool.pages == old(pool.pages) && pool.dirty == old(pool.dirty)
      ensures Submap(pool.pages, old(pool.pages))
      ensures pool.dirty == old(pool.dirty) * pool.pages.Keys
      ensures StillBacked(old(file), old(pool.dirty), file, pool.dirty)
      ensures WrittenBack(old(file), old(pool.pages), old(pool.dirty), file, pool.pages)
    {
      hide ImgOf, PageAt, NoDup, WrittenBack, BufferPool.Valid, Submap, StillBacked;
      Backed(file, pool.dirty);
      pool.Size();
      SubmapStill(pool.pages);
      if touched.Some? {
        NothingWritten(file, pool.pages, pool.dirty);
        return;
      }
      NothingWritten(file, pool.pages, pool.dirty);
      ghost var gone := 0;
      while |pool.pages| >= capacity
        invariant Core() && touched.None? && |pool.pages| == |pool.order|
        invariant gone <= old(Excess()) && pool.order == old(pool.order)[gone..]
        invariant |old(pool.pages)| < capacity ==>
          file == old(file) && pool.pages == old(pool.pages) && pool.dirty == old(pool.dirty)
        invariant Submap(pool.pages, old(pool.pages))
        invariant pool.dirty == old(pool.dirty) * pool.pages.Keys
        invariant WrittenBack(old(file), old(pool.pages), old(pool.dirty), file, pool.pages)
        invariant StillBacked(old(file), old(pool.dirty), file, pool.dirty)
        decreases |pool.pages|
      {
        ghost var f1, p1, d1 := file, pool.pages, pool.dirty;
        EvictOldest();
        gone := gone + 1;
        pool.Size();
        SubmapLess(p1, pool.pages, old(pool.pages));
        WrittenBackTwice(old(file), old(pool.pages), old(pool.dirty), f1, p1, d1, file, pool.pages);
        BackedTwice(old(file), old(pool.dirty), f1, d1, file, pool.dirty);
      }
    }

    /** `get`; None is the IndexError for a page outside the file. Nothing is evicted when
        the page is in the pool or there is room; the page read becomes the youngest. */
    method Get(n: nat) returns (data: Option<Page>)
      requires Valid()
      modifies `file, pool
      ensures Valid()
      ensures data == if n < numPages then Some(old(View()).At(n)) else None
      ensures old(Steady()) ==> ViewsAgree(old(View()), View())
      ensures old(PoolClean()) ==> PoolClean()
      ensures touched.Some? ==> file == old(file) && pool.dirty == old(pool.dirty)
      ensures WrittenBack(old(file), old(pool.pages), old(pool.dirty), file, pool.pages)
      ensures pool.dirty == old(pool.dirty) * pool.pages.Keys
      ensures n < numPages ==> n in pool.pages
      ensures pool.order ==
              if n < numPages then MovedToEnd(old(pool.order)[|old(Leaving(n))|..], n) else old(pool.order)
      ensures HaveLeft(old(pool.pages), pool.pages, old(Leaving(n)))
      ensures StillBacked(old(file), old(pool.dirty), file, pool.dirty)
      ensures Kept(old(file), old(pool.pages), pool.pages, n)
      ensures touched.Some? || n in old(pool.pages) || |old(pool.pages)| < capacity ==>
        file == old(file) && ViewsAgree(old(View()), View())
      ensures touched.None? && n !in old(pool.pages) && n < numPages ==> |pool.pages| <= capacity
    {
      hide PageAt, NoDup, WrittenBack, ViewsAgree, Clean, MovedToEnd, InTxn, Numbered, Submap, HaveLeft, Kept,
        StillBacked;
      Backed(file, pool.dirty);
      NothingWritten(file, pool.pages, pool.dirty);
      Agreed(View());
      AllKept(file, pool.pages, n);
      NoneLeft(pool.pages);
      if n >= numPages {
        return None;
      }
      data := pool.Get(n);
      if data.Some? {
        return;
      }
      ghost var f0, p0, d0, k := file, pool.pages, pool.dirty, Excess();
      data := Some(PageAt(file, n));
      ghost var order := pool.order;
      EvictIfFull();
      OldestLeft(p0, order, k, pool.pages, pool.order, n, data.value);
      ReadLoses(f0, p0, d0, file, pool.pages, n);
      ReadKeeps(f0, p0, pool.pages, n);
      if touched.Some? {
        ReadInTxn(file, pool.pages, pool.dirty, shadow, file0, pages0, dirty0, n);
      }
      pool.Put(n, data.value, false);
    }

    /** The first part of `write`: inside a transaction, save the image page n has
        before its first write. */
    method SaveImage(n: nat, ghost data: Page)
      requires Valid()
      modifies `shadow, pool`order
      ensures Core()
      ensures touched.None? ==> shadow == map[] && pool.order == old(pool.order)
      ensures touched.Some? ==>
        && shadow.Keys == touched.value + {n}
        && InTxn(file, pool.pages[n := data], pool.dirty + {n}, shadow, file0, pages0, dirty0)
    {
      hide PageAt, NoDup;
      if touched.Some? {
        if n in shadow {
          KeepShadow(file, pool.pages, pool.dirty, shadow, file0, pages0, dirty0, n, data);
        } else {
          var current := pool.Get(n);
          if current.None? && (n + 1) * PAGE_SIZE <= |file| {
            current := Some(PageAt(file, n));
          }
          SaveShadow(file, pool.pages, pool.dirty, shadow, file0, pages0, dirty0, n, current, data);
          hide InTxn;
          shadow := shadow[n := current];
        }
      }
    }

    /** The part of `write` that makes room in the pool and puts the new image there. */
    method PutDirty(n: nat, data: Page)
      requires Core()
      modifies `file, pool
      ensures Core()
      ensures old(Steady()) ==> ViewSet(old(View()), View(), n, data)
      ensures old(PoolClean()) ==> PoolClean()
      ensures pool.order == MovedToEnd(old(pool.order)[old(Excess())..], n)
      ensures touched.Some? ==>
        && file == old(file)
        && pool.pages == old(pool.pages)[n := data] && pool.dirty == old(pool.dirty) + {n}
    {
      hide PageAt, NoDup, MovedToEnd, WrittenBack, Clean, ImgOf, BufferPool.Valid, Submap, ViewSet;
      ghost var f0, p0, d0 := file, pool.pages, pool.dirty;
      EvictIfFull();
      ghost var f1, p1 := file, pool.pages;
      WriteViews(f0, p0, d0, f1, p1, n, data);
      pool.Put(n, data, true);
      assert pool.pages == p1[n := data];
      assert old(Steady()) ==> Clean(f0, p0, d0) || (f1 == f0 && p1 == p0);
      assert View() == Store(f1, p1[n := data]) && old(View()) == Store(f0, p0);
      assert old(Steady()) ==> ViewSet(Store(f0, p0), View(), n, data);
    }

    /** `write`: none of it happens when the data is larger than a page. Outside a transaction
        the oldest pages make room. */
    method Write(n: nat, data: seq<Byte>) returns (ok: bool)
      requires Valid()
      modifies `file, `numPages, `touched, `shadow, pool
      ensures Valid()
      ensures ok == (|data| <= PAGE_SIZE)
      ensures !ok ==> numPages == old(numPages) && touched == old(touched) && shadow == old(shadow) && file == old(file)
      ensures !ok ==> pool.pages == old(pool.pages) && pool.dirty == old(pool.dirty)
      ensures ok ==> numPages == Max(old(numPages), n + 1)
      ensures ok && touched.None? ==> pool.order == MovedToEnd(old(pool.order)[old(Excess())..], n)
      ensures ok && old(Steady()) ==> ViewSet(old(View()), View(), n, Pad(data))
      ensures old(PoolClean()) ==> PoolClean()
      ensures touched.Some? == old(touched.Some?)
      ensures ok && touched.Some? ==>
        && file == old(file) && touched.value == old(touched.value) + {n}
        && pool.pages == old(pool.pages)[n := Pad(data)] && pool.dirty == old(pool.dirty) + {n}
    {
      hide PageAt, NoDup, Clean, ImgOf, BufferPool.Valid, InTxn, Numbered, ViewSet;
      if |data| > PAGE_SIZE {
        return false;
      }
      OneMoreNumbered(shadow.Keys, numPages, n);
      SaveImage(n, Pad(data));
      PutDirty(n, Pad(data));
      if n >= numPages {
        numPages := n + 1;
      }
      if touched.Some? {
        touched := Some(touched.value + {n});
      }
      return true;
    }

    /** `allocate` */
    method Allocate() returns (n: nat)
      requires Valid()
      modifies `file, `numPages, `touched, `shadow, pool
      ensures Valid()
      ensures n == old(numPages) && numPages == n + 1
      ensures old(Steady()) ==> ViewSet(old(View()), View(), n, Zeros(PAGE_SIZE))
      ensures old(PoolClean()) ==> PoolClean()
      ensures touched.Some? == old(touched.Some?)
      ensures touched.Some? ==>
        && file == old(file) && touched.value == old(touched.value) + {n}
        && pool.pages == old(pool.pages)[n := Zeros(PAGE_SIZE)] && pool.dirty == old(pool.dirty) + {n}
    {
      n := numPages;
      numPages := numPages + 1;
      assert Pad(Zeros(PAGE_SIZE)) == Zeros(PAGE_SIZE);
      var ok := Write(n, Zeros(PAGE_SIZE));
    }

    /** `begin_txn`; false is the RuntimeError. */
    method Begin() returns (ok: bool)
      requires Valid()
      modifies `touched, `shadow, `file0, `pages0, `dirty0
      ensures Valid()
      ensures ok == old(touched.None?)
      ensures !ok ==> touched == old(touched) && shadow == old(shadow)
      ensures !ok ==> file0 == old(file0) && pages0 == old(pages0) && dirty0 == old(dirty0)
      ensures ok ==> touched == Some({}) && shadow == map[]
      ensures ok ==> file0 == file && pages0 == pool.pages && dirty0 == pool.dirty
    {
      if touched.Some? {
        return false;
      }
      touched, shadow := Some({}), map[];
      file0, pages0, dirty0 := file, pool.pages, pool.dirty;
      return true;
    }

    /** `rollback_txn`: every page of the view is back to what it was when the
        transaction began, whatever was written, read or allocated since. The touched
        pages come out clean, also those that were dirty before. */
    method Rollback()
      requires Valid()
      modifies `touched, `shadow, pool
      ensures Valid() && touched == None
      ensures old(touched).None? ==> pool.pages == old(pool.pages) && pool.dirty == old(pool.dirty)
      ensures old(touched).Some? ==> forall n: nat :: View().At(n) == Store(file0, pages0).At(n)
      ensures old(touched).Some? ==> pool.dirty == dirty0 - old(touched).value
      ensures pool.pages.Keys <= old(pool.pages).Keys
      ensures forall n :: n in pool.pages && n !in old(shadow) ==> pool.pages[n] == old(pool.pages)[n]
      ensures forall n :: n in old(shadow) ==>
        if old(shadow)[n].None? then n !in pool.pages else n in pool.pages && pool.pages[n] == old(shadow)[n].value
    {
      hide PageAt, NoDup, MovedToEnd, ImgOf, Shadows, BufferPool.Valid;
      var todo := shadow.Keys;
      while todo != {}
        invariant shadow == old(shadow) && touched == old(touched) && todo <= shadow.Keys
        invariant pool.Valid()
        invariant pool.dirty == old(pool.dirty) - (shadow.Keys - todo)
        invariant pool.pages.Keys <= old(pool.pages).Keys
        invariant forall n :: n in pool.pages && n !in shadow ==> pool.pages[n] == old(pool.pages)[n]
        invariant forall n :: n in old(pool.pages) && n !in shadow ==> n in pool.pages
        invariant forall n :: n in shadow && n !in todo ==>
          if shadow[n].None? then n !in pool.pages else n in pool.pages && pool.pages[n] == shadow[n].value
        decreases todo
      {
        var n :| n in todo;
        match shadow[n] {
          case None =>
            pool.Drop(n);
          case Some(image) =>
            pool.Put(n, image, false);
            pool.Clean(n);
        }
        todo := todo - {n};
      }
      if touched.Some? {
        RestoredDirty(dirty0, shadow.Keys);
        ShadowsRestore(file, pages0, old(pool.pages), shadow, pool.pages);
      }
      shadow, touched := map[], None;
    }

    /** `collect_commit`: the touched pages and their images. */
    method CollectCommit() returns (images: map<nat, Page>, n: nat)
      requires Valid()
      modifies `touched, `shadow
      ensures Valid() && touched == None
      ensures n == numPages
      ensures images.Keys == if old(touched).Some? then old(touched).value else {}
      ensures forall p :: p in images ==> images[p] == View().At(p)
    {
      var pages := if touched.Some? then touched.value else {};
      assert pages <= pool.pages.Keys;
      images := map p | p in pages :: pool.pages[p];
      touched, shadow := None, map[];
      n := numPages;
    }

    /** `flush`, called outside transactions only: every dirty page reaches the file. */
    method Flush()
      requires Valid() && touched.None?
      modifies `file, pool`dirty
      ensures Valid() && pool.dirty == {}
      ensures forall n: nat ::
        PageAt(file, n) == (if n in old(pool.dirty) then pool.pages[n] else PageAt(old(file), n))
      ensures StillBacked(old(file), old(pool.dirty), file, {})
    {
      hide PageAt, NoDup, WritePage;
      var todo := pool.dirty;
      while todo != {}
        invariant todo <= pool.dirty == old(pool.dirty)
        invariant forall n: nat ::
          PageAt(file, n) == (if n in pool.dirty && n !in todo then pool.pages[n] else PageAt(old(file), n))
        invariant StillBacked(old(file), pool.dirty, file, todo)
        decreases todo
      {
        var n :| n in todo;
        PagesOfWrite(file, n, pool.pages[n]);
        file := WritePage(file, n, pool.pages[n]);
        todo := todo - {n};
      }
      pool.dirty := {};
    }
  }

  function Pad(data: seq<Byte>): Page
    requires |data| <= PAGE_SIZE
  {
    data + Zeros(PAGE_SIZE - |data|)
  }

  lemma PagesOfWrite(file: seq<Byte>, n: nat, data: Page)
    ensures forall m: nat :: PageAt(WritePage(file, n, data), m) == if m == n then data else PageAt(file, m)
    ensures |WritePage(file, n, data)| >= |file| && HasPage(WritePage(file, n, data), n)
  {
    forall m: nat
      ensures PageAt(WritePage(file, n, data), m) == if m == n then data else PageAt(file, m)
    {
      PageOfWrite(file, n, data, m);
    }
    hide PageAt;
  }

  /** Saving the image a page has before its first write in a transaction. */
  lemma SaveShadow(file: seq<Byte>, pages: map<nat, Page>, dirty: set<nat>, shadow: map<nat, Option<Page>>,
                   file0: seq<Byte>, pages0: map<nat, Page>, dirty0: set<nat>,
                   n: nat, current: Option<Page>, data: Page)
    requires InTxn(file, pages, dirty, shadow, file0, pages0, dirty0) && n !in shadow
    requires current == if n in pages then Some(pages[n])
                        else if (n + 1) * PAGE_SIZE <= |file| then Some(PageAt(file, n)) else None
    ensures InTxn(file, pages[n := data], dirty + {n}, shadow[n := current], file0, pages0, dirty0)
  {
    hide PageAt;
  }

  /** Reading a page into the pool is no change. */
  lemma ReadInTxn(file: seq<Byte>, pages: map<nat, Page>, dirty: set<nat>, shadow: map<nat, Option<Page>>,
                  file0: seq<Byte>, pages0: map<nat, Page>, dirty0: set<nat>, n: nat)
    requires InTxn(file, pages, dirty, shadow, file0, pages0, dirty0) && n !in pages
    ensures InTxn(file, pages[n := PageAt(file, n)], dirty, shadow, file0, pages0, dirty0)
  {
    hide PageAt;
  }

  lemma KeepShadow(file: seq<Byte>, pages: map<nat, Page>, dirty: set<nat>, shadow: map<nat, Option<Page>>,
                   file0: seq<Byte>, pages0: map<nat, Page>, dirty0: set<nat>, n: nat, data: Page)
    requires InTxn(file, pages, dirty, shadow, file0, pages0, dirty0) && n in shadow
    ensures InTxn(file, pages[n := data], dirty + {n}, shadow, file0, pages0, dirty0)
  {
    hide PageAt;
  }

  lemma RestoredDirty(dirty0: set<nat>, touched: set<nat>)
    ensures (dirty0 + touched) - (touched - {}) == dirty0 - touched
  {
  }

  lemma ShadowsRestore(file0: seq<Byte>, pages0: map<nat, Page>, pages: map<nat, Page>,
                       shadow: map<nat, Option<Page>>, pages': map<nat, Page>)
    requires Shadows(file0, pages0, pages, shadow)
    requires forall n :: n !in shadow ==> (n in pages <==> n in pages') && (n in pages ==> pages'[n] == pages[n])
    requires forall n :: n in shadow ==>
      if shadow[n].None? then n !in pages' else n in pages' && pages'[n] == shadow[n].value
    ensures forall n: nat :: ImgOf(file0, pages', n) == ImgOf(file0, pages0, n)
  {
    hide PageAt;
  }

  /** Dropping pages that are clean or written back changes no read. */
  lemma EvictViews(f: seq<Byte>, p: map<nat, Page>, d: set<nat>, f': seq<Byte>, p': map<nat, Page>)
    requires WrittenBack(f, p, d, f', p') && Submap(p', p)
    requires Clean(f, p, d)
    ensures forall n: nat :: ImgOf(f', p', n) == ImgOf(f, p, n)
    ensures Clean(f', p', d * p'.Keys)
  {
    hide PageAt;
  }

  lemma WriteViews(f: seq<Byte>, p: map<nat, Page>, d: set<nat>, f': seq<Byte>, p': map<nat, Page>, n: nat, data: Page)
    requires WrittenBack(f, p, d, f', p') && Submap(p', p)
    ensures Clean(f, p, d) ==> Clean(f', p'[n := data], d * p'.Keys + {n})
    ensures Clean(f, p, d) || (f' == f && p' == p) ==>
      ViewSet(Store(f, p), Store(f', p'[n := data]), n, data)
  {
    if Clean(f, p, d) {
      EvictViews(f, p, d, f', p');
    }
    hide PageAt, WrittenBack;
    if Clean(f, p, d) || (f' == f && p' == p) {
      forall m: nat
        ensures Store(f', p'[n := data]).At(m) == if m == n then data else Store(f, p).At(m)
      {
        assert ImgOf(f', p', m) == ImgOf(f, p, m);
      }
    }
  }

  lemma SubmapStill(p: map<nat, Page>)
    ensures Submap(p, p)
  {
  }

  lemma SubmapLess(p1: map<nat, Page>, p2: map<nat, Page>, p: map<nat, Page>)
    requires Submap(p1, p) && exists n :: p2 == p1 - {n}
    ensures Submap(p2, p1) && Submap(p2, p)
  {
  }

  /** After a page not in the pool has been read, what eviction wrote back is still
      described by the pages that went. */
  lemma ReadLoses(f: seq<Byte>, p: map<nat, Page>, d: set<nat>, f': seq<Byte>, p': map<nat, Page>, n: nat)
    requires WrittenBack(f, p, d, f', p') && Submap(p', p)
    requires n !in p
    ensures WrittenBack(f, p, d, f', p'[n := PageAt(f, n)])
    ensures Clean(f, p, d) ==> Clean(f', p'[n := PageAt(f, n)], d * p'.Keys)
    ensures Clean(f, p, d) || (f' == f && p' == p) ==>
      ViewsAgree(Store(f, p), Store(f', p'[n := PageAt(f, n)]))
  {
    if Clean(f, p, d) {
      EvictViews(f, p, d, f', p');
    }
    hide PageAt, WrittenBack;
  }

  lemma AllKept(file: seq<Byte>, pages: map<nat, Page>, n: nat)
    ensures Kept(file, pages, pages, n)
  {
    hide PageAt;
  }

  lemma ReadKeeps(file: seq<Byte>, pages: map<nat, Page>, pages': map<nat, Page>, n: nat)
    requires Submap(pages', pages) && n !in pages
    ensures Kept(file, pages, pages'[n := PageAt(file, n)], n)
  {
    hide PageAt;
  }

  /** A read changes what other reads see if and only if it lets go of a page without a
      dirty mark that the file does not hold. */
  lemma ViewAfterRead(f: seq<Byte>, p: map<nat, Page>, d: set<nat>, f': seq<Byte>, p': map<nat, Page>, n: nat)
    requires WrittenBack(f, p, d, f', p') && Kept(f, p, p', n)
    ensures ViewsAgree(Store(f, p), Store(f', p')) <==> GoneAreFiled(f, p, d, p')
  {
    hide PageAt;
    if ViewsAgree(Store(f, p), Store(f', p')) {
      forall m | m in p && m !in p' && m !in d
        ensures p[m] == PageAt(f, m)
      {
        assert Store(f, p).At(m) == Store(f', p').At(m);
      }
    }
    if GoneAreFiled(f, p, d, p') {
      forall m: nat
        ensures Store(f', p').At(m) == Store(f, p).At(m)
      {
      }
    }
  }

  lemma Backed(file: seq<Byte>, dirty: set<nat>)
    ensures StillBacked(file, dirty, file, dirty)
  {
  }

  lemma BackedTwice(f0: seq<Byte>, d0: set<nat>, f1: seq<Byte>, d1: set<nat>, f2: seq<Byte>, d2: set<nat>)
    requires StillBacked(f0, d0, f1, d1) && StillBacked(f1, d1, f2, d2)
    ensures StillBacked(f0, d0, f2, d2)
  {
  }

  lemma Agreed(s: Store)
    ensures ViewsAgree(s, s)
  {
  }

  lemma WriteBack(file: seq<Byte>, pages: map<nat, Page>, dirty: set<nat>, n: nat)
    requires n in pages
    ensures WrittenBack(file, pages, dirty, if n in dirty then WritePage(file, n, pages[n]) else file, pages - {n})
  {
    forall m: nat
      ensures PageAt(WritePage(file, n, pages[n]), m) == if m == n then pages[n] else PageAt(file, m)
    {
      PageOfWrite(file, n, pages[n], m);
    }
    hide PageAt, WritePage;
  }

  lemma NothingWritten(file: seq<Byte>, pages: map<nat, Page>, dirty: set<nat>)
    ensures WrittenBack(file, pages, dirty, file, pages)
  {
  }

  lemma WrittenBackTwice(f0: seq<Byte>, p0: map<nat, Page>, d0: set<nat>,
                         f1: seq<Byte>, p1: map<nat, Page>, d1: set<nat>,
                         f2: seq<Byte>, p2: map<nat, Page>)
    requires WrittenBack(f0, p0, d0, f1, p1) && WrittenBack(f1, p1, d1, f2, p2)
    requires Submap(p1, p0) && Submap(p2, p1) && d1 == d0 * p1.Keys
    ensures WrittenBack(f0, p0, d0, f2, p2)
  {
    hide PageAt;
  }

  lemma SomePage(pages: map<nat, Page>, order: seq<nat>)
    requires |pages| > 0 && forall n :: n in order <==> n in pages
    ensures order != []
  {
    var n :| n in pages;
    assert n in order;
  }

  lemma WithoutFirst(s: seq<nat>)
    requires NoDup(s) && s != []
    ensures Without(s, s[0]) == s[1..]
  {
    NotThere(s[1..], s[0]);
  }

  lemma {:induction false} NotThere(s: seq<nat>, n: nat)
    requires n !in s
    ensures Without(s, n) == s
    decreases |s|
  {
    if s != [] {
      NotThere(s[1..], n);
    }
  }

  /** Each page of the pool stands once in its order. */
  lemma {:induction false} OrderSize(order: seq<nat>, pages: map<nat, Page>)
    requires NoDup(order) && forall n :: n in order <==> n in pages
    ensures |order| == |pages|
    decreases |order|
  {
    if order == [] {
      assert pages.Keys == {};
    } else {
      var n, rest := order[0], pages - {order[0]};
      assert n in pages && pages.Keys == rest.Keys + {n};
      assert forall m :: m in order[1..] <==> m in rest;
      OrderSize(order[1..], rest);
    }
  }

  lemma NoneLeft(p: map<nat, Page>)
    ensures HaveLeft(p, p, [])
  {
  }

  /** The oldest k pages left, then page n came. */
  lemma OldestLeft(p: map<nat, Page>, order: seq<nat>, k: nat, p': map<nat, Page>, order': seq<nat>, n: nat, data: Page)
    requires NoDup(order) && k <= |order| && order' == order[k..] && n !in p
    requires forall m :: m in order <==> m in p
    requires forall m :: m in order' <==> m in p'
    ensures HaveLeft(p, p'[n := data], order[..k])
  {
    assert order == order[..k] + order[k..];
    forall m | m in order
      ensures m !in order[k..] <==> m in order[..k]
    {
      var i :| 0 <= i < |order| && order[i] == m;
      if i < k {
        assert order[..k][i] == m;
      } else {
        assert order[k..][i - k] == m;
      }
    }
  }

  /** What a read lets go of is what was said beforehand. */
  lemma GoneIsLeaving(f: seq<Byte>, p: map<nat, Page>, d: set<nat>, p': map<nat, Page>, leaving: seq<nat>)
    requires HaveLeft(p, p', leaving)
    ensures GoneAreFiled(f, p, d, p') <==>
            forall m :: m in leaving && m in p && m !in d ==> p[m] == PageAt(f, m)
  {
    hide PageAt;
  }
}
