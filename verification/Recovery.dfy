// Redo recovery (leafdb/wal.py, recover): replaying the log's committed batches onto
// the data file, and why it may be interrupted and started again.

module Recovery {
  import opened Bytes
  import opened Disk
  import opened Wal

  // ---- what recovery does to the file -----------------------------------------------

  /** `seek(off); write(data)`, or growing the file to a size. */
  datatype FileOp = Put(off: nat, data: seq<Byte>) | Grow(size: nat)

  function Perform(file: seq<Byte>, op: FileOp): seq<Byte> {
    match op
    case Put(off, data) => WriteAt(file, off, data)
    case Grow(size) => Extend(file, size)
  }

  function PerformAll(file: seq<Byte>, ops: seq<FileOp>): seq<Byte>
    decreases |ops|
  {
    if ops == [] then file else PerformAll(Perform(file, ops[0]), ops[1..])
  }

  function PageOps(order: seq<nat>, images: map<nat, seq<Byte>>): seq<FileOp>
    requires forall p :: p in order ==> p in images
  {
    if order == [] then [] else [Put(order[0] * PAGE_SIZE, images[order[0]])] + PageOps(order[1..], images)
  }

  /** One batch: its pages in ascending order, then the file size. */
  function BatchOps(b: Batch): seq<FileOp> {
    PageOps(Ascending(b.images.Keys), b.images) + [Grow(b.numPages * PAGE_SIZE)]
  }

  function Ops(batches: seq<Batch>): seq<FileOp> {
    if batches == [] then [] else BatchOps(batches[0]) + Ops(batches[1..])
  }

  /** `recover`: the file afterwards, how many batches were applied, and whether it ended
      without a struct.error. */
  datatype Outcome = Outcome(file: seq<Byte>, applied: nat, ok: bool)

  function Recover(log: seq<Byte>, file: seq<Byte>): Outcome {
    if |log| <= HEADER_SIZE then Outcome(file, 0, true)
    else
      var r := Scan(log, HEADER_SIZE, map[]);
      Outcome(PerformAll(file, Ops(r.batches)), |r.batches|, r.ok)
  }

  lemma {:induction false} PerformConcat(file: seq<Byte>, a: seq<FileOp>, b: seq<FileOp>)
    ensures PerformAll(file, a + b) == PerformAll(PerformAll(file, a), b)
    decreases |a|
  {
    hide Perform;
    if a == [] {
      assert a + b == b;
    } else {
      assert (a + b)[1..] == a[1..] + b;
      PerformConcat(Perform(file, a[0]), a[1..], b);
    }
  }

  /** The loop that writes a batch's pages. */
  method WriteImages(file: seq<Byte>, images: map<nat, seq<Byte>>) returns (file': seq<Byte>)
    ensures file' == PerformAll(file, PageOps(Ascending(images.Keys), images))
  {
    hide Ascending, WriteAt;
    var order := Ascending(images.Keys);
    file' := file;
    for i := 0 to |order|
      invariant PerformAll(file', PageOps(order[i..], images)) == PerformAll(file, PageOps(order, images))
    {
      var p := order[i];
      assert order[i..][0] == p && order[i..][1..] == order[i + 1..];
      file' := WriteAt(file', p * PAGE_SIZE, images[p]);
    }
  }

  /** `recover` as it runs: batches are applied as soon as their commit frame is read. */
  method RecoverFile(log: seq<Byte>, file: seq<Byte>) returns (r: Outcome)
    ensures r == Recover(log, file)
  {
    hide NextFrame, Perform, BatchOps;
    if |log| <= HEADER_SIZE {
      return Outcome(file, 0, true);
    }
    var pos, db, applied := HEADER_SIZE, file, 0;
    var images: map<nat, seq<Byte>> := map[];
    while pos + FRAME_HEADER <= |log|
      invariant pos <= |log|
      invariant var rest := Scan(log, pos, images); var all := Scan(log, HEADER_SIZE, map[]);
        && PerformAll(file, Ops(all.batches)) == PerformAll(db, Ops(rest.batches))
        && |all.batches| == applied + |rest.batches| && all.ok == rest.ok
      decreases |log| - pos
    {
      var next := NextFrame(log, pos);
      if next.None? {
        return Outcome(db, applied, true);
      }
      var Frame(page, payload, stop) := next.value;
      if page != COMMIT_PAGE {
        images := images[page := payload];
      } else if |payload| != 4 {
        return Outcome(db, applied, false);
      } else {
        RecoverStep(log, pos, images, db);
        ApplyBatch(db, Batch(stop, images, ReadU32(payload, 0)));
        db := WriteImages(db, images);
        db := Extend(db, ReadU32(payload, 0) * PAGE_SIZE);
        images, applied := map[], applied + 1;
      }
      pos := stop;
    }
    TooShort(log, pos);
    return Outcome(db, applied, true);
  }

  lemma RecoverStep(log: seq<Byte>, pos: nat, images: map<nat, seq<Byte>>, db: seq<Byte>)
    requires NextFrame(log, pos).Some? && NextFrame(log, pos).value.page == COMMIT_PAGE
    requires |NextFrame(log, pos).value.payload| == 4
    ensures var f := NextFrame(log, pos).value; var b := Batch(f.stop, images, ReadU32(f.payload, 0));
      var all := Scan(log, pos, images); var rest := Scan(log, f.stop, map[]);
      && |all.batches| == 1 + |rest.batches| && all.ok == rest.ok
      && PerformAll(db, Ops(all.batches)) == PerformAll(PerformAll(db, BatchOps(b)), Ops(rest.batches))
  {
    hide NextFrame, BatchOps, PerformAll, ReadU32;
    var f := NextFrame(log, pos).value;
    var b, rest := Batch(f.stop, images, ReadU32(f.payload, 0)), Scan(log, f.stop, map[]);
    assert ([b] + rest.batches)[1..] == rest.batches;
    PerformConcat(db, BatchOps(b), Ops(rest.batches));
  }

  lemma ApplyBatch(db: seq<Byte>, b: Batch)
    ensures PerformAll(db, BatchOps(b)) ==
            Extend(PerformAll(db, PageOps(Ascending(b.images.Keys), b.images)), b.numPages * PAGE_SIZE)
  {
    var a := PageOps(Ascending(b.images.Keys), b.images);
    hide PageOps, Extend;
    PerformConcat(db, a, [Grow(b.numPages * PAGE_SIZE)]);
    assert [Grow(b.numPages * PAGE_SIZE)][1..] == [];
  }

  // ---- bytes of the result ---------------------------------------------------------------

  predicate Covers(op: FileOp, i: nat) {
    op.Put? && op.off <= i < op.off + |op.data|
  }

  /** Some operation sets byte i. */
  predicate Covered(ops: seq<FileOp>, i: nat) {
    exists k :: 0 <= k < |ops| && Covers(ops[k], i)
  }

  /** How long a file the operations need. */
  function Reach(op: FileOp): nat {
    match op
    case Put(off, data) => if data == [] then 0 else off + |data|
    case Grow(size) => size
  }

  function ReachAll(ops: seq<FileOp>): nat {
    if ops == [] then 0 else Max(Reach(ops[0]), ReachAll(ops[1..]))
  }

  lemma ByteOfPerform(file: seq<Byte>, op: FileOp, i: nat)
    ensures ByteAt(Perform(file, op), i) == if Covers(op, i) then op.data[i - op.off] else ByteAt(file, i)
    ensures |Perform(file, op)| == Max(|file|, Reach(op))
  {
    match op {
      case Put(off, data) => ByteOfWrite(file, off, data, i);
      case Grow(size) => ByteOfExtend(file, size, i);
    }
    hide WriteAt, Extend, ByteAt;
  }

  lemma {:induction false} SizeOfPerform(file: seq<Byte>, ops: seq<FileOp>)
    ensures |PerformAll(file, ops)| == Max(|file|, ReachAll(ops))
    decreases |ops|
  {
    if ops != [] {
      ByteOfPerform(file, ops[0], 0);
      hide Perform, Reach;
      SizeOfPerform(Perform(file, ops[0]), ops[1..]);
    }
  }

  /** A byte that is set does not depend on the file before; any other byte stays. */
  lemma {:induction false} ByteOfAll(f: seq<Byte>, g: seq<Byte>, ops: seq<FileOp>, i: nat)
    requires Covered(ops, i) || ByteAt(f, i) == ByteAt(g, i)
    ensures ByteAt(PerformAll(f, ops), i) == ByteAt(PerformAll(g, ops), i)
    decreases |ops|
  {
    if ops != [] {
      ByteOfPerform(f, ops[0], i);
      ByteOfPerform(g, ops[0], i);
      hide Perform, ByteAt;
      assert Covered(ops, i) && !Covers(ops[0], i) ==> Covered(ops[1..], i) by {
        if Covered(ops, i) && !Covers(ops[0], i) {
          var k :| 0 <= k < |ops| && Covers(ops[k], i);
          assert ops[1..][k - 1] == ops[k];
        }
      }
      ByteOfAll(Perform(f, ops[0]), Perform(g, ops[0]), ops[1..], i);
    }
  }

  /** Padded bytes and size make the file. */
  lemma SameFile(f: seq<Byte>, g: seq<Byte>)
    requires |f| == |g| && forall i: nat :: ByteAt(f, i) == ByteAt(g, i)
    ensures f == g
  {
    forall i | 0 <= i < |f|
      ensures f[i] == g[i]
    {
      assert ByteAt(f, i) == ByteAt(g, i);
    }
  }

  // ---- interruption -------------------------------------------------------------------------

  /** A state that an interrupted run may leave: some bytes that the run sets may have
      been written, all or in part, and the file may have grown up to its final size. */
  ghost predicate Interrupted(file: seq<Byte>, left: seq<Byte>, ops: seq<FileOp>) {
    && |file| <= |left| <= Max(|file|, ReachAll(ops))
    && forall i: nat :: Covered(ops, i) || ByteAt(left, i) == ByteAt(file, i)
  }

  lemma PerformAgain(file: seq<Byte>, left: seq<Byte>, ops: seq<FileOp>)
    requires Interrupted(file, left, ops)
    ensures PerformAll(left, ops) == PerformAll(file, ops)
  {
    SizeOfPerform(file, ops);
    SizeOfPerform(left, ops);
    hide PerformAll, ByteAt, Covered;
    forall i: nat
      ensures ByteAt(PerformAll(left, ops), i) == ByteAt(PerformAll(file, ops), i)
    {
      ByteOfAll(left, file, ops, i);
    }
    SameFile(PerformAll(left, ops), PerformAll(file, ops));
  }

  /** What is left of a list of operations when only those marked were carried out. */
  function Subset(ops: seq<FileOp>, done: seq<bool>): seq<FileOp>
    requires |done| == |ops|
  {
    if ops == [] then [] else (if done[0] then [ops[0]] else []) + Subset(ops[1..], done[1..])
  }

  lemma {:induction false} SubsetFacts(ops: seq<FileOp>, done: seq<bool>, i: nat)
    requires |done| == |ops|
    ensures ReachAll(Subset(ops, done)) <= ReachAll(ops)
    ensures Covered(Subset(ops, done), i) ==> Covered(ops, i)
    decreases |ops|
  {
    hide Covers, Reach;
    if ops != [] {
      var rest := Subset(ops[1..], done[1..]);
      SubsetFacts(ops[1..], done[1..], i);
      assert ([ops[0]] + rest)[1..] == rest;
      assert done[0] ==> Subset(ops, done) == [ops[0]] + rest;
      assert !done[0] ==> Subset(ops, done) == rest;
      if Covered(Subset(ops, done), i) {
        var k :| 0 <= k < |Subset(ops, done)| && Covers(Subset(ops, done)[k], i);
        if done[0] && k == 0 {
          assert Covers(ops[0], i);
        } else {
          assert Covered(rest, i) by {
            assert Covers(rest[if done[0] then k - 1 else k], i);
          }
          var j :| 0 <= j < |ops[1..]| && Covers(ops[1..][j], i);
          assert Covers(ops[j + 1], i);
        }
      }
    }
  }

  /** Doing any subset of the operations leaves such a state. */
  lemma SubsetInterrupts(file: seq<Byte>, ops: seq<FileOp>, done: seq<bool>)
    requires |done| == |ops|
    ensures Interrupted(file, PerformAll(file, Subset(ops, done)), ops)
  {
    var some := Subset(ops, done);
    SizeOfPerform(file, some);
    SubsetFacts(ops, done, 0);
    hide Subset, PerformAll, ByteAt, Covered;
    forall i: nat
      ensures Covered(ops, i) || ByteAt(PerformAll(file, some), i) == ByteAt(file, i)
    {
      SubsetFacts(ops, done, i);
      if !Covered(some, i) {
        Untouched(file, some, i);
      }
    }
  }

  lemma CoveredLater(ops: seq<FileOp>, i: nat)
    requires ops != [] && Covered(ops[1..], i)
    ensures Covered(ops, i)
  {
    var k :| 0 <= k < |ops[1..]| && Covers(ops[1..][k], i);
    assert Covers(ops[k + 1], i);
  }

  lemma {:induction false} Untouched(file: seq<Byte>, ops: seq<FileOp>, i: nat)
    requires !Covered(ops, i)
    ensures ByteAt(PerformAll(file, ops), i) == ByteAt(file, i)
    decreases |ops|
  {
    if ops != [] {
      ByteOfPerform(file, ops[0], i);
      assert !Covers(ops[0], i);
      hide Perform, ByteAt, Covered;
      if Covered(ops[1..], i) {
        CoveredLater(ops, i);
      } else {
        Untouched(Perform(file, ops[0]), ops[1..], i);
      }
    }
  }

  function LogOps(log: seq<Byte>): seq<FileOp> {
    Ops(Scan(log, HEADER_SIZE, map[]).batches)
  }

  /** Recovery can be restarted: from whatever an interrupted run has left behind, even
      pages half written, running it again gives the file of an uninterrupted run. This
      holds for every log. */
  lemma RestartTheorem(log: seq<Byte>, file: seq<Byte>, left: seq<Byte>)
    requires Interrupted(file, left, LogOps(log))
    ensures Recover(log, left) == Recover(log, file)
  {
    PerformAgain(file, left, LogOps(log));
    if |log| <= HEADER_SIZE {
      TooShort(log, HEADER_SIZE);
    }
    hide Scan, Interrupted;
  }

  /** In particular after any subset of its page writes and extensions. */
  lemma RestartAfterSome(log: seq<Byte>, file: seq<Byte>, done: seq<bool>)
    requires |done| == |LogOps(log)|
    ensures Recover(log, PerformAll(file, Subset(LogOps(log), done))) == Recover(log, file)
  {
    hide *;
    SubsetInterrupts(file, LogOps(log), done);
    RestartTheorem(log, file, PerformAll(file, Subset(LogOps(log), done)));
  }

  /** Recovering twice is recovering once. */
  lemma RecoverTwice(log: seq<Byte>, file: seq<Byte>)
    ensures Recover(log, Recover(log, file).file) == Recover(log, file)
  {
    hide Scan, Ops, PerformAll, Subset;
    var all := seq(|LogOps(log)|, _ => true);
    AllOfThem(LogOps(log), all);
    RestartAfterSome(log, file, all);
  }

  lemma {:induction false} AllOfThem(ops: seq<FileOp>, done: seq<bool>)
    requires |done| == |ops| && forall i :: 0 <= i < |done| ==> done[i]
    ensures Subset(ops, done) == ops
    decreases |ops|
  {
    if ops != [] {
      AllOfThem(ops[1..], done[1..]);
    }
  }

  // ---- pages of the result ---------------------------------------------------------------------

  /** Whole pages with numbers that the log format can hold. */
  ghost predicate PageEntry(e: Entry) {
    && (forall p :: p in e.pages ==> p < COMMIT_PAGE && |e.pages[p]| == PAGE_SIZE)
    && IsU32(e.numPages)
  }

  ghost predicate PageEntries(es: seq<Entry>) {
    AllPackable(es) && forall e :: e in es ==> PageEntry(e)
  }

  /** The image that page n has in the last entry that has it. */
  function Latest(es: seq<Entry>, n: nat): Option<seq<Byte>> {
    if es == [] then None
    else
      var later := Latest(es[1..], n);
      if later.Some? then later
      else if n in es[0].pages then Some(es[0].pages[n]) else None
  }

  lemma {:induction false} LatestConcat(a: seq<Entry>, b: seq<Entry>, n: nat)
    ensures Latest(a + b, n) == if Latest(b, n).Some? then Latest(b, n) else Latest(a, n)
    decreases |a|
  {
    if a == [] {
      assert a + b == b;
    } else {
      assert (a + b)[1..] == a[1..] + b;
      LatestConcat(a[1..], b, n);
    }
  }

  lemma {:induction false} LatestIsPage(es: seq<Entry>, n: nat)
    requires PageEntries(es)
    ensures Latest(es, n).Some? ==> |Latest(es, n).value| == PAGE_SIZE
    decreases |es|
  {
    if es != [] {
      assert es[0] in es;
      LatestIsPage(es[1..], n);
    }
  }

  function Overlaid(es: seq<Entry>, file: seq<Byte>, n: nat): seq<Byte> {
    if Latest(es, n).Some? then Latest(es, n).value else PageAt(file, n)
  }

  lemma {:induction false} PageOfImages(file: seq<Byte>, order: seq<nat>, images: map<nat, seq<Byte>>, n: nat)
    requires forall p :: p in order ==> p in images && |images[p]| == PAGE_SIZE
    ensures PageAt(PerformAll(file, PageOps(order, images)), n) == if n in order then images[n] else PageAt(file, n)
    decreases |order|
  {
    if order != [] {
      var p: nat := order[0];
      PageOfWrite(file, p, images[p], n);
      var ops := PageOps(order, images);
      assert ops[0] == Put(p * PAGE_SIZE, images[p]) && ops[1..] == PageOps(order[1..], images);
      assert Perform(file, ops[0]) == WritePage(file, p, images[p]);
      hide Perform, WritePage, PageAt;
      PageOfImages(WritePage(file, p, images[p]), order[1..], images, n);
    }
  }

  lemma PageOfBatch(file: seq<Byte>, b: Batch, n: nat)
    requires forall p :: p in b.images ==> |b.images[p]| == PAGE_SIZE
    ensures PageAt(PerformAll(file, BatchOps(b)), n) == if n in b.images then b.images[n] else PageAt(file, n)
  {
    hide PageAt, PerformAll, PageOps, Ascending, BatchOps, Extend;
    var order := Ascending(b.images.Keys);
    ApplyBatch(file, b);
    PageOfImages(file, order, b.images, n);
    PageOfExtend(PerformAll(file, PageOps(order, b.images)), b.numPages * PAGE_SIZE, n);
  }

  /** After replaying, every page is its last committed image, or as it was. */
  lemma {:induction false} PageOfEntries(file: seq<Byte>, es: seq<Entry>, base: nat, n: nat)
    requires PageEntries(es) && AllPackable(es)
    ensures PageAt(PerformAll(file, Ops(BatchesOf(es, base))), n) == Overlaid(es, file, n)
    decreases |es|
  {
    hide *;
    if es == [] {
      NoEntries(file, base, n);
    } else {
      EntriesRest(es);
      var stop, file' := FirstBatch(es, base, file);
      PageOfEntries(file', es[1..], stop, n);
      PageOfBatch(file, Batch(stop, es[0].pages, es[0].numPages), n);
      OverlaidStep(es, file, file', n);
    }
  }

  /** The file after the first entry has been replayed. */
  lemma FirstBatch(es: seq<Entry>, base: nat, file: seq<Byte>) returns (stop: nat, file': seq<Byte>)
    requires es != [] && AllPackable(es)
    ensures AllPackable(es[1..])
    ensures file' == PerformAll(file, BatchOps(Batch(stop, es[0].pages, es[0].numPages)))
    ensures PerformAll(file, Ops(BatchesOf(es, base))) == PerformAll(file', Ops(BatchesOf(es[1..], stop)))
  {
    hide *;
    BatchesFirst(es, base, 0);
    stop := base + |BatchBytes(es[0])|;
    var b := Batch(stop, es[0].pages, es[0].numPages);
    var rest := BatchesOf(es[1..], stop);
    file' := PerformAll(file, BatchOps(b));
    OpsOf(b, rest);
    PerformConcat(file, BatchOps(b), Ops(rest));
  }

  lemma NoEntries(file: seq<Byte>, base: nat, n: nat)
    ensures PageAt(PerformAll(file, Ops(BatchesOf([], base))), n) == Overlaid([], file, n)
  {
    hide PageAt;
  }

  lemma OverlaidStep(es: seq<Entry>, file: seq<Byte>, file': seq<Byte>, n: nat)
    requires es != [] && PageAt(file', n) == if n in es[0].pages then es[0].pages[n] else PageAt(file, n)
    ensures Overlaid(es, file, n) == Overlaid(es[1..], file', n)
  {
    hide PageAt;
  }

  lemma EntriesRest(es: seq<Entry>)
    requires es != [] && PageEntries(es)
    ensures PageEntries(es[1..]) && AllPackable(es[1..]) && PageEntry(es[0]) && Packable(es[0])
    ensures forall p :: p in es[0].pages ==> |es[0].pages[p]| == PAGE_SIZE
  {
    assert es[0] in es;
    hide Packable;
  }

  lemma OpsOf(b: Batch, rest: seq<Batch>)
    ensures Ops([b] + rest) == BatchOps(b) + Ops(rest)
  {
    hide BatchOps;
    assert ([b] + rest)[1..] == rest;
  }

  /** A log that some entries were appended to. */
  ghost predicate Logged(log: seq<Byte>, es: seq<Entry>) {
    && PageEntries(es) && |log| >= HEADER_SIZE
    && |log| == HEADER_SIZE + |Blob(es)| && log[HEADER_SIZE..] == Blob(es)
  }

  lemma RecoverWhole(log: seq<Byte>, es: seq<Entry>, file: seq<Byte>, n: nat)
    requires Logged(log, es)
    ensures Recover(log, file).ok && PageAt(Recover(log, file).file, n) == Overlaid(es, file, n)
    ensures Recover(log, file).applied == |es|
  {
    ReadWhole(log, es, HEADER_SIZE);
    PageOfEntries(file, es, HEADER_SIZE, n);
    hide PageAt, Scan, BatchBytes;
    BatchCount(es, HEADER_SIZE);
    if |log| <= HEADER_SIZE {
      TooShort(log, HEADER_SIZE);
    }
  }

  // ---- the size of the recovered file -------------------------------------------------------

  lemma SizeGrows(file: seq<Byte>, ops: seq<FileOp>)
    ensures |PerformAll(file, ops)| >= |file|
  {
    SizeOfPerform(file, ops);
    hide PerformAll, ReachAll;
  }

  lemma {:induction false} SizeOfImages(file: seq<Byte>, order: seq<nat>, images: map<nat, seq<Byte>>, n: nat)
    requires (forall p :: p in order ==> p in images && |images[p]| == PAGE_SIZE) && n in order
    ensures HasPage(PerformAll(file, PageOps(order, images)), n)
    decreases |order|
  {
    var ops, p: nat := PageOps(order, images), order[0];
    ByteOfPerform(file, ops[0], 0);
    hide Perform, WriteAt;
    assert ops[0] == Put(p * PAGE_SIZE, images[p]) && ops[1..] == PageOps(order[1..], images);
    if p == n {
      SizeGrows(Perform(file, ops[0]), ops[1..]);
    } else {
      SizeOfImages(Perform(file, ops[0]), order[1..], images, n);
    }
  }

  lemma SizeOfBatch(file: seq<Byte>, b: Batch, n: nat)
    requires (forall p :: p in b.images ==> |b.images[p]| == PAGE_SIZE) && n in b.images
    ensures HasPage(PerformAll(file, BatchOps(b)), n)
  {
    hide PerformAll, PageOps, Ascending, BatchOps, Extend;
    var order := Ascending(b.images.Keys);
    ApplyBatch(file, b);
    SizeOfImages(file, order, b.images, n);
    ByteOfExtend(PerformAll(file, PageOps(order, b.images)), b.numPages * PAGE_SIZE, 0);
  }

  /** After replaying, the file is long enough for every page of the entries. */
  lemma {:induction false} SizeOfEntries(file: seq<Byte>, es: seq<Entry>, base: nat, n: nat)
    requires PageEntries(es) && AllPackable(es)
    ensures HasPage(file, n) || Latest(es, n).Some? ==> HasPage(PerformAll(file, Ops(BatchesOf(es, base))), n)
    decreases |es|
  {
    LatestStep(es, n);
    hide *;
    if es == [] {
      SizeNoEntries(file, base, n);
    } else {
      EntriesRest(es);
      var stop, file' := FirstBatch(es, base, file);
      var b := Batch(stop, es[0].pages, es[0].numPages);
      SizeOfEntries(file', es[1..], stop, n);
      SizeGrows(file, BatchOps(b));
      if HasPage(file, n) {
        LongerFile(file, file', n);
      }
      if n in es[0].pages {
        SizeOfBatch(file, b, n);
      }
    }
  }

  lemma LongerFile(file: seq<Byte>, file': seq<Byte>, n: nat)
    requires |file| <= |file'| && HasPage(file, n)
    ensures HasPage(file', n)
  {
  }

  lemma LatestStep(es: seq<Entry>, n: nat)
    ensures Latest(es, n).Some? <==> es != [] && (Latest(es[1..], n).Some? || n in es[0].pages)
  {
  }

  lemma SizeNoEntries(file: seq<Byte>, base: nat, n: nat)
    ensures PerformAll(file, Ops(BatchesOf([], base))) == file
  {
  }

  lemma RecoverSize(log: seq<Byte>, es: seq<Entry>, file: seq<Byte>, n: nat)
    requires Logged(log, es)
    ensures HasPage(file, n) || Latest(es, n).Some? ==> HasPage(Recover(log, file).file, n)
  {
    ReadWhole(log, es, HEADER_SIZE);
    SizeOfEntries(file, es, HEADER_SIZE, n);
    hide Scan, BatchBytes, HasPage, Latest, PerformAll;
    BatchCount(es, HEADER_SIZE);
    if |log| <= HEADER_SIZE {
      NoneLogged(log, es);
    }
  }

  lemma NoneLogged(log: seq<Byte>, es: seq<Entry>)
    requires Logged(log, es) && |log| <= HEADER_SIZE
    ensures es == []
  {
    hide Packable, PageEntry;
  }

  lemma {:induction false} BatchCount(es: seq<Entry>, base: nat)
    requires AllPackable(es)
    ensures |BatchesOf(es, base)| == |es|
    decreases |es|
  {
    hide BatchBytes, Packable;
    if es != [] {
      BatchCount(es[1..], base + |BatchBytes(es[0])|);
    }
  }

  /** Any number of bytes of one more append, cut off by a crash: recovery gives the
      pages before it, unless the append is complete. */
  lemma RecoverCut(log: seq<Byte>, es: seq<Entry>, e: Entry, k: nat, file: seq<Byte>, n: nat)
    requires Logged(log, es) && PageEntries([e]) && Packable(e) && k <= |BatchBytes(e)|
    ensures var r := Recover(log + BatchBytes(e)[..k], file);
      && r.ok && r.applied == |es| + (if k < |BatchBytes(e)| then 0 else 1)
      && PageAt(r.file, n) == Overlaid(if k < |BatchBytes(e)| then es else es + [e], file, n)
  {
    hide *;
    if k < |BatchBytes(e)| {
      CutScan(log, es, e, k);
      RecoverWhole(log, es, file, n);
      LoggedSize(log, es);
      SameRecovery(log, log + BatchBytes(e)[..k], file);
    } else {
      assert BatchBytes(e)[..k] == BatchBytes(e);
      LoggedMore(log, es, e);
      RecoverWhole(log + BatchBytes(e), es + [e], file, n);
    }
  }

  lemma LoggedSize(log: seq<Byte>, es: seq<Entry>)
    requires Logged(log, es)
    ensures |log| >= HEADER_SIZE
  {
  }

  lemma SameRecovery(log: seq<Byte>, log': seq<Byte>, file: seq<Byte>)
    requires HEADER_SIZE <= |log| && HEADER_SIZE <= |log'|
    requires Scan(log, HEADER_SIZE, map[]) == Scan(log', HEADER_SIZE, map[])
    ensures Recover(log, file) == Recover(log', file)
  {
    if |log| == HEADER_SIZE {
      TooShort(log, HEADER_SIZE);
    }
    if |log'| == HEADER_SIZE {
      TooShort(log', HEADER_SIZE);
    }
    hide Scan, PerformAll;
  }

  lemma {:induction false} BlobMore(es: seq<Entry>, e: Entry)
    requires AllPackable(es) && Packable(e)
    ensures AllPackable(es + [e]) && Blob(es + [e]) == Blob(es) + BatchBytes(e)
    decreases |es|
  {
    hide BatchBytes, Packable;
    if es == [] {
      assert es + [e] == [e] && [e][1..] == [];
    } else {
      BlobMore(es[1..], e);
      assert (es + [e])[1..] == es[1..] + [e] && (es + [e])[0] == es[0];
      assert BatchBytes(es[0]) + (Blob(es[1..]) + BatchBytes(e)) == BatchBytes(es[0]) + Blob(es[1..]) + BatchBytes(e);
    }
  }

  lemma Behind<T>(a: seq<T>, b: seq<T>, h: nat, k: nat)
    requires h <= |a| && k <= |b|
    ensures (a + b)[h..] == a[h..] + b
    ensures (a + b)[..|a| + k] == a + b[..k] && (a + b)[..|a|] == a
  {
  }

  lemma EntriesMore(es: seq<Entry>, e: Entry)
    requires PageEntries(es) && PageEntries([e])
    ensures PageEntries(es + [e])
  {
    hide PageEntry, Packable;
    assert e in [e];
  }

  lemma LoggedMore(log: seq<Byte>, es: seq<Entry>, e: Entry)
    requires Logged(log, es) && PageEntries([e]) && Packable(e)
    ensures Logged(log + BatchBytes(e), es + [e])
  {
    EntriesMore(es, e);
    BlobMore(es, e);
    Behind(log, BatchBytes(e), HEADER_SIZE, 0);
    hide Blob, BatchBytes, Packable, PageEntries;
  }

  lemma CutScan(log: seq<Byte>, es: seq<Entry>, e: Entry, k: nat)
    requires Logged(log, es) && Packable(e) && k < |BatchBytes(e)|
    ensures Scan(log + BatchBytes(e)[..k], HEADER_SIZE, map[]) == Scan(log, HEADER_SIZE, map[])
  {
    hide *;
    LoggedPackable(log, es, e);
    var b := BatchBytes(e);
    BlobMore(es, e);
    Behind(log, b, HEADER_SIZE, k);
    CompleteMore(es, e, HEADER_SIZE, 0);
    CompleteMore(es, e, HEADER_SIZE, k);
    SameCut(log + b, es + [e], HEADER_SIZE, |log| + k, |log|);
  }

  lemma LoggedPackable(log: seq<Byte>, es: seq<Entry>, e: Entry)
    requires Logged(log, es) && Packable(e)
    ensures AllPackable(es) && AllPackable(es + [e])
    ensures |log| == HEADER_SIZE + |Blob(es)| && log[HEADER_SIZE..] == Blob(es)
  {
    hide Packable, Blob;
  }

  /** Cuts between the same two commits read the same. */
  lemma SameCut(data: seq<Byte>, es: seq<Entry>, base: nat, n: nat, m: nat)
    requires AllPackable(es) && base <= n <= |data| && base <= m <= |data|
    requires |data| == base + |Blob(es)| && data[base..] == Blob(es)
    requires Complete(es, base, n) == Complete(es, base, m)
    ensures Scan(data[..n], base, map[]) == Scan(data[..m], base, map[])
  {
    hide *;
    BlobHeld(data, es, base);
    ReadPrefix(data, es, base, n);
    ReadPrefix(data, es, base, m);
  }

  lemma {:induction false} CompleteMore(es: seq<Entry>, e: Entry, base: nat, k: nat)
    requires AllPackable(es) && Packable(e) && k < |BatchBytes(e)|
    ensures AllPackable(es + [e]) && Complete(es + [e], base, base + |Blob(es)| + k) == |es|
    decreases |es|
  {
    hide BatchBytes, Packable;
    if es == [] {
      assert es + [e] == [e];
    } else {
      CompleteMore(es[1..], e, base + |BatchBytes(es[0])|, k);
      assert (es + [e])[1..] == es[1..] + [e] && (es + [e])[0] == es[0];
    }
  }
}
