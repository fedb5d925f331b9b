// Whole runs of one process (leafdb/engine.py over its pager and log): reads, writes,
// transactions, checkpoints and crashes in any order.

module Steps {
  import opened Bytes
  import opened Disk
  import opened Pager
  import opened Wal
  import opened Recovery
  import opened Session

  datatype Step =
    | Read(page: nat)
    | Write(page: nat, data: seq<Byte>)
    | Allocate
    | Begin
    | Commit
    | Rollback
    | Checkpoint(others: nat)
    | Crash

  /** The page read, the number of pages, or whether the step was done; the rest are the
      errors. */
  datatype Answer = Image(image: Option<Page>) | Number(n: nat) | Done(ok: bool)

  /** What has been committed over the pages at the beginning, and what the open transaction
      has written. Since the last crash, `rolled` says that a transaction with writes was
      rolled back, and `blurred` that a page was read outside a transaction after that. */
  datatype State = State(pages: map<nat, Page>, writes: Option<map<nat, Page>>, count: nat, rolled: bool,
                         blurred: bool)

  /** The pages that reads are to show. */
  ghost function Shown(base: Store, m: State): Store {
    With(With(base, m.pages), if m.writes.Some? then m.writes.value else map[])
  }

  /** What a step makes of the state. After a crash the answer says how many pages there are. */
  function Next(m: State, step: Step, a: Answer): State {
    match step
    case Read(_) => m.(blurred := m.blurred || (m.rolled && m.writes.None?))
    case Write(n, data) =>
      if m.writes.Some? && |data| <= PAGE_SIZE
      then m.(writes := Some(m.writes.value[n := Pad(data)]), count := Max(m.count, n + 1)) else m
    case Allocate =>
      if m.writes.Some? then m.(writes := Some(m.writes.value[m.count := Zeros(PAGE_SIZE)]), count := m.count + 1)
      else m
    case Begin => if m.writes.None? then m.(writes := Some(map[])) else m
    case Commit => if m.writes.Some? then m.(pages := m.pages + m.writes.value, writes := None) else m
    case Rollback =>
      if m.writes.Some? then m.(writes := None, rolled := m.rolled || m.writes.value != map[]) else m
    case Checkpoint(_) => m
    case Crash => State(m.pages, None, if a.Number? then a.n else m.count, false, false)
  }

  /** The answer that a step is to give. */
  ghost predicate Right(base: Store, m: State, step: Step, a: Answer) {
    match step
    case Read(n) =>
      && a.Image? && (a.image.Some? <==> n < m.count)
      && (a.image.Some? && !m.blurred ==> a.image.value == Shown(base, m).At(n))
    case Write(_, data) => a == Done(m.writes.Some? && |data| <= PAGE_SIZE)
    case Allocate => a == if m.writes.Some? then Number(m.count) else Done(false)
    case Begin => a == Done(m.writes.None?)
    case Commit => a == Done(m.writes.Some?)
    case Rollback => a == Done(m.writes.Some?)
    case Checkpoint(others) => a == Done(m.writes.None? && others == 0)
    case Crash => a.Number? && Numbered(m.pages.Keys, a.n)
  }

  /** A commit with more pages than a frame can say, and a checkpoint after a rolled-back
      write: neither is part of the runs here. */
  predicate Outside(m: State, step: Step) {
    || (step.Commit? && m.writes.Some? && !IsU32(m.count))
    || (step.Checkpoint? && m.writes.None? && step.others == 0 && m.rolled)
  }

  function Replay(m: State, steps: seq<Step>, answers: seq<Answer>): State
    requires |steps| == |answers|
  {
    if steps == [] then m
    else
      var k := |steps| - 1;
      Next(Replay(m, steps[..k], answers[..k]), steps[k], answers[k])
  }

  /** Answer k is right for the state that the answers before it describe. */
  ghost predicate RightAt(base: Store, m: State, steps: seq<Step>, answers: seq<Answer>, k: nat)
    requires k < |steps| && k < |answers|
  {
    Right(base, Replay(m, steps[..k], answers[..k]), steps[k], answers[k])
  }

  ghost predicate WritesAre(view: Store, touched: set<nat>, writes: map<nat, Page>) {
    writes.Keys == touched && forall n :: n in writes ==> writes[n] == view.At(n)
  }

  /** The session is in this state: a crash now would bring back the committed pages. */
  ghost predicate Tracks(s: Session, base: Store, m: State)
    reads s, s.pager, s.pager.pool
  {
    && s.Safe() && s.inTxn == m.writes.Some? && s.pager.numPages == m.count
    && SamePages(s.committed, With(base, m.pages))
    && (m.writes.Some? ==> WritesAre(s.pager.View(), s.pager.shadow.Keys, m.writes.value))
    && (!m.blurred ==> s.Current()) && (!m.rolled ==> s.Tidy()) && (m.blurred ==> m.rolled)
    && Numbered(m.pages.Keys, m.count) && Recoverable(m.pages.Keys, s.pager.file, s.entries)
    && (!m.rolled ==> OnTheWay(m.pages.Keys, s.pager.file, s.Marks()))
  }

  /** The file is long enough for these pages, or will be after replaying the log. */
  ghost predicate Recoverable(pages: set<nat>, file: seq<Byte>, es: seq<Entry>) {
    forall n :: n in pages ==> HasPage(file, n) || Latest(es, n).Some?
  }

  /** The file is long enough for these pages, or will be after writing the dirty ones. */
  ghost predicate OnTheWay(pages: set<nat>, file: seq<Byte>, dirty: set<nat>) {
    forall n :: n in pages ==> n in dirty || HasPage(file, n)
  }

  lemma LongerRecoverable(pages: set<nat>, file: seq<Byte>, file': seq<Byte>, es: seq<Entry>)
    requires Recoverable(pages, file, es) && |file| <= |file'|
    ensures Recoverable(pages, file', es)
  {
    hide Latest;
  }

  lemma StillOnTheWay(pages: set<nat>, file: seq<Byte>, dirty: set<nat>, file': seq<Byte>, dirty': set<nat>)
    requires OnTheWay(pages, file, dirty) && StillBacked(file, dirty, file', dirty')
    ensures OnTheWay(pages, file', dirty')
  {
  }

  /** Commits add pages that are dirty and in the log. */
  lemma CommittedOnTheWay(pages: set<nat>, writes: set<nat>, file: seq<Byte>, dirty: set<nat>)
    requires OnTheWay(pages, file, dirty)
    ensures OnTheWay(pages + writes, file, dirty + writes)
  {
  }

  lemma CommittedRecoverable(pages: set<nat>, e: Entry, file: seq<Byte>, es: seq<Entry>)
    requires Recoverable(pages, file, es)
    ensures Recoverable(pages + e.pages.Keys, file, es + [e])
  {
    forall n | n in pages + e.pages.Keys
      ensures HasPage(file, n) || Latest(es + [e], n).Some?
    {
      LatestConcat(es, [e], n);
      LatestOne(e, n);
      hide Latest;
    }
  }

  lemma FlushedRecoverable(pages: set<nat>, file: seq<Byte>)
    requires OnTheWay(pages, file, {})
    ensures Recoverable(pages, file, [])
  {
  }

  // ---- what the steps do to the pages --------------------------------------------------------

  lemma AgreeWrites(v: Store, v': Store, touched: set<nat>, writes: map<nat, Page>)
    requires WritesAre(v, touched, writes) && ViewsAgree(v, v')
    ensures WritesAre(v', touched, writes)
  {
    hide ImgOf;
  }

  lemma OneMoreWrite(v: Store, v': Store, touched: set<nat>, writes: map<nat, Page>, n: nat, data: Page)
    requires WritesAre(v, touched, writes) && ViewSet(v, v', n, data)
    ensures WritesAre(v', touched + {n}, writes[n := data])
  {
    hide ImgOf;
  }

  lemma CommittedMore(base: Store, pages: map<nat, Page>, writes: map<nat, Page>, c: Store, c': Store, view: Store)
    requires SamePages(c, With(base, pages)) && Overwrites(c, c', writes.Keys, view)
    requires WritesAre(view, writes.Keys, writes)
    ensures SamePages(c', With(base, pages + writes))
  {
    hide PageAt;
    forall n: nat
      ensures c'.At(n) == With(base, pages + writes).At(n)
    {
      assert c.At(n) == With(base, pages).At(n);
      assert c'.At(n) == if n in writes then view.At(n) else c.At(n);
    }
  }

  lemma OverwrittenNothing(c: Store, c': Store, view: Store, pages: Store)
    requires Overwrites(c, c', {}, view) && SamePages(c, pages)
    ensures SamePages(c', pages)
  {
    hide ImgOf;
    forall n: nat
      ensures c'.At(n) == pages.At(n)
    {
      assert c'.At(n) == c.At(n) && c.At(n) == pages.At(n);
    }
  }

  /** What a read returns is what is to be shown. */
  lemma ShownIs(s: Session, base: Store, m: State, n: nat)
    requires Tracks(s, base, m) && !m.blurred
    ensures s.pager.View().At(n) == Shown(base, m).At(n)
  {
    hide PageAt, Session.Safe, ImgOf;
    assert s.committed.At(n) == With(base, m.pages).At(n);
    ShownAt(base, m, n);
    if m.writes.Some? && n !in m.writes.value {
      s.UntouchedPage(n);
    } else if m.writes.None? {
      assert s.pager.View().At(n) == s.committed.At(n);
    }
  }

  lemma ShownAt(base: Store, m: State, n: nat)
    ensures Shown(base, m).At(n) ==
            if m.writes.Some? && n in m.writes.value then m.writes.value[n] else With(base, m.pages).At(n)
  {
    hide PageAt;
  }

  // ---- the steps ---------------------------------------------------------------------------------

  /** The process ends, and the database is opened again. */
  method Reopen(s: Session, ghost base: Store, ghost m: State) returns (s': Session)
    requires Tracks(s, base, m)
    ensures fresh(s') && fresh(s'.pager) && fresh(s'.pager.pool)
    ensures Tracks(s', base, State(m.pages, None, s'.pager.numPages, false, false))
  {
    hide PageAt, Latest, Blob, Recover, SamePages, With, NoDup, Durable, AllLogged, WritesAre, Session.Tidy;
    RecoveredAll(s);
    RecoveredPages(s, m.pages.Keys);
    hide Recoverable, OnTheWay, HasPage, Numbered, Session.Safe;
    s' := new Session(s.log, s.pager.file, s.pager.capacity);
    SamePagesTrans(Store(s'.pager.file, map[]), s.committed, With(base, m.pages));
    InFile(m.pages.Keys, s'.pager.file);
    assert s'.Tidy() && s'.Current();
  }

  ghost predicate AllInFile(pages: set<nat>, file: seq<Byte>) {
    forall n :: n in pages ==> HasPage(file, n)
  }

  lemma RecoveredPages(s: Session, pages: set<nat>)
    requires s.Safe() && Recoverable(pages, s.pager.file, s.entries)
    ensures AllInFile(pages, Recover(s.log, s.pager.file).file)
  {
    hide HasPage, Recover, Latest, Durable, AllLogged, NoDup;
    forall n | n in pages
      ensures HasPage(Recover(s.log, s.pager.file).file, n)
    {
      RecoverSize(s.log, s.entries, s.pager.file, n);
    }
  }

  lemma InFile(pages: set<nat>, file: seq<Byte>)
    requires AllInFile(pages, file)
    ensures Numbered(pages, Max(1, |file| / PAGE_SIZE)) && Recoverable(pages, file, [])
    ensures forall dirty :: OnTheWay(pages, file, dirty)
  {
    forall n | n in pages
      ensures n < |file| / PAGE_SIZE
    {
      assert HasPage(file, n);
    }
  }

  lemma RecoveredAll(s: Session)
    requires s.Safe()
    ensures var r := Recover(s.log, s.pager.file);
      r.ok && (r.applied > 0 || |s.log| <= HEADER_SIZE) && SamePages(Store(r.file, map[]), s.committed)
  {
    hide PageAt, Latest, NoDup;
    RecoverWhole(s.log, s.entries, s.pager.file, 0);
    var r := Recover(s.log, s.pager.file);
    forall n: nat
      ensures Store(r.file, map[]).At(n) == s.committed.At(n)
    {
      s.CrashNow(n);
    }
    hide Recover;
  }

  lemma SamePagesTrans(a: Store, b: Store, c: Store)
    requires SamePages(a, b) && SamePages(b, c)
    ensures SamePages(a, c)
  {
    hide ImgOf;
    forall n: nat
      ensures a.At(n) == c.At(n)
    {
      assert a.At(n) == b.At(n) && b.At(n) == c.At(n);
    }
  }

  method DoRead(s: Session, n: nat, ghost base: Store, ghost m: State) returns (a: Answer)
    requires Tracks(s, base, m)
    modifies s.pager`file, s.pager.pool
    ensures Right(base, m, Read(n), a) && Tracks(s, base, Next(m, Read(n), a))
  {
    hide PageAt, Latest, NoDup, Durable, AllLogged, Shown, SamePages, With, WritesAre, ViewsAgree, Session.Safe,
      Pager.LeavingFiled, ImgOf;
    ghost var v := s.pager.View();
    if !m.blurred {
      ShownIs(s, base, m, n);
    }
    var data := s.Read(n);
    if m.writes.Some? {
      AgreeWrites(v, s.pager.View(), s.pager.shadow.Keys, m.writes.value);
    }
    a := Image(data);
  }

  method DoWrite(s: Session, n: nat, data: seq<Byte>, ghost base: Store, ghost m: State) returns (a: Answer)
    requires Tracks(s, base, m)
    modifies s.pager`file, s.pager`numPages, s.pager`touched, s.pager`shadow, s.pager.pool
    ensures Right(base, m, Write(n, data), a) && Tracks(s, base, Next(m, Write(n, data), a))
  {
    hide PageAt, Latest, NoDup, Durable, AllLogged, SamePages, With, WritesAre, ViewSet, Session.Safe, ImgOf;
    if !s.inTxn {
      return Done(false);
    }
    ghost var v := s.pager.View();
    ghost var touched := s.pager.shadow.Keys;
    var ok := s.Write(n, data);
    if ok {
      OneMoreWrite(v, s.pager.View(), touched, m.writes.value, n, Pad(data));
    }
    a := Done(ok);
  }

  method DoAllocate(s: Session, ghost base: Store, ghost m: State) returns (a: Answer)
    requires Tracks(s, base, m)
    modifies s.pager`file, s.pager`numPages, s.pager`touched, s.pager`shadow, s.pager.pool
    ensures Right(base, m, Allocate, a) && Tracks(s, base, Next(m, Allocate, a))
  {
    hide PageAt, Latest, NoDup, Durable, AllLogged, SamePages, With, WritesAre, ViewSet, Session.Safe, ImgOf;
    if !s.inTxn {
      return Done(false);
    }
    ghost var v := s.pager.View();
    ghost var touched := s.pager.shadow.Keys;
    var n := s.Allocate();
    OneMoreWrite(v, s.pager.View(), touched, m.writes.value, n, Zeros(PAGE_SIZE));
    a := Number(n);
  }

  method DoCommit(s: Session, ghost base: Store, ghost m: State) returns (a: Answer)
    requires Tracks(s, base, m) && !Outside(m, Commit)
    modifies s, s.pager`touched, s.pager`shadow
    ensures Right(base, m, Commit, a) && Tracks(s, base, Next(m, Commit, a))
  {
    hide PageAt, Latest, NoDup, Durable, AllLogged, SamePages, With, WritesAre, Overwrites, Session.Safe, ImgOf,
      BatchBytes;
    ghost var c := s.committed;
    ghost var v := s.pager.View();
    ghost var touched, e, es, marks := s.pager.shadow.Keys, s.CommitEntry(), s.entries, s.Marks();
    assert e.pages.Keys == touched;
    TouchedNumbered(s);
    if m.writes.Some? {
      WritesKeys(v, touched, m.writes.value);
    }
    hide Recoverable, OnTheWay, Numbered, Session.CommitEntry, Session.Marks, Session.Tidy, Session.Current;
    var ok := s.Commit();
    if ok {
      assert (m.pages + m.writes.value).Keys == m.pages.Keys + touched;
      CommittedMore(base, m.pages, m.writes.value, c, s.committed, v);
      BothNumbered(m.pages.Keys, touched, m.count);
      CommittedRecoverable(m.pages.Keys, e, s.pager.file, es);
      if !m.rolled {
        CommittedOnTheWay(m.pages.Keys, touched, s.pager.file, marks);
      }
      assert touched == {} ==> m.pages.Keys + touched == m.pages.Keys;
    } else {
      OverwrittenNothing(c, s.committed, v, With(base, m.pages));
    }
    a := Done(ok);
  }

  lemma TouchedNumbered(s: Session)
    requires s.Safe()
    ensures Numbered(s.pager.shadow.Keys, s.pager.numPages)
  {
    hide PageAt, Latest, NoDup, Durable, AllLogged, InTxn;
  }

  lemma BothNumbered(a: set<nat>, b: set<nat>, limit: nat)
    requires Numbered(a, limit) && Numbered(b, limit)
    ensures Numbered(a + b, limit)
  {
  }

  lemma WritesKeys(view: Store, touched: set<nat>, writes: map<nat, Page>)
    requires WritesAre(view, touched, writes)
    ensures writes.Keys == touched && WritesAre(view, writes.Keys, writes)
  {
  }

  method DoRollback(s: Session, ghost base: Store, ghost m: State) returns (a: Answer)
    requires Tracks(s, base, m)
    modifies s`inTxn, s.pager`touched, s.pager`shadow, s.pager.pool
    ensures Right(base, m, Rollback, a) && Tracks(s, base, Next(m, Rollback, a))
  {
    hide PageAt, Latest, NoDup, Durable, AllLogged, SamePages, With, WritesAre, Session.Safe, ImgOf;
    if m.writes.Some? {
      WritesKeys(s.pager.View(), s.pager.shadow.Keys, m.writes.value);
    }
    ghost var shadow := s.pager.shadow;
    var ok := s.Rollback();
    a := Done(ok);
    assert m.writes == Some(map[]) ==> shadow.Keys == {};
  }

  /** One step, with the session that goes on. */
  method Do(s: Session, step: Step, ghost base: Store, ghost m: State) returns (s': Session, a: Answer)
    requires Tracks(s, base, m) && !Outside(m, step)
    modifies s, s.pager, s.pager.pool
    ensures s' == s || (fresh(s') && fresh(s'.pager) && fresh(s'.pager.pool))
    ensures Right(base, m, step, a) && Tracks(s', base, Next(m, step, a))
  {
    s' := s;
    match step {
      case Read(n) => a := DoRead(s, n, base, m);
      case Write(n, data) => a := DoWrite(s, n, data, base, m);
      case Allocate => a := DoAllocate(s, base, m);
      case Begin => a := DoBegin(s, base, m);
      case Commit => a := DoCommit(s, base, m);
      case Rollback => a := DoRollback(s, base, m);
      case Checkpoint(others) => a := DoCheckpoint(s, others, base, m);
      case Crash =>
        s' := Reopen(s, base, m);
        a := Number(s'.pager.numPages);
    }
  }

  method DoBegin(s: Session, ghost base: Store, ghost m: State) returns (a: Answer)
    requires Tracks(s, base, m)
    modifies s`inTxn, s.pager`touched, s.pager`shadow, s.pager`file0, s.pager`pages0, s.pager`dirty0
    ensures Right(base, m, Begin, a) && Tracks(s, base, Next(m, Begin, a))
  {
    hide PageAt, Latest, NoDup, Durable, AllLogged, SamePages, With, ImgOf, Recoverable, OnTheWay, Session.Safe,
      Session.Marks, Session.Tidy, Session.Current;
    var ok := s.Begin();
    a := Done(ok);
  }

  method DoCheckpoint(s: Session, others: nat, ghost base: Store, ghost m: State) returns (a: Answer)
    requires Tracks(s, base, m) && !Outside(m, Checkpoint(others))
    modifies s, s.pager`file, s.pager.pool`dirty
    ensures Right(base, m, Checkpoint(others), a) && Tracks(s, base, Next(m, Checkpoint(others), a))
  {
    hide PageAt, Latest, NoDup, Durable, AllLogged, SamePages, With, ImgOf, Recoverable, OnTheWay, Session.Safe,
      Session.Tidy, Session.Current, Clean, WritesAre, HasPage, StillBacked;
    ghost var file, marks := s.pager.file, s.Marks();
    var ok := s.Checkpoint(others);
    if ok && !m.rolled {
      StillOnTheWay(m.pages.Keys, file, marks, s.pager.file, {});
      FlushedRecoverable(m.pages.Keys, s.pager.file);
    }
    a := Done(ok);
  }

  // ---- runs ------------------------------------------------------------------------------------------

  /** The state of a database that has just been opened. */
  function Opened(count: nat): State {
    State(map[], None, count, false, false)
  }

  lemma NothingCommitted(base: Store)
    ensures SamePages(base, With(base, map[]))
  {
    WithNothing(base);
    hide ImgOf;
  }

  lemma ReplayMore(m: State, steps: seq<Step>, answers: seq<Answer>, a: Answer)
    requires |answers| < |steps|
    ensures var k := |answers|;
      && steps[..k + 1] == steps[..k] + [steps[k]]
      && Replay(m, steps[..k + 1], answers + [a]) == Next(Replay(m, steps[..k], answers), steps[k], a)
  {
    var k := |answers|;
    assert steps[..k + 1][..k] == steps[..k] && (answers + [a])[..k] == answers;
    hide Next;
  }

  /** The answers so far are right. */
  ghost predicate AllRight(base: Store, m: State, steps: seq<Step>, answers: seq<Answer>) {
    |answers| <= |steps| && forall k :: 0 <= k < |answers| ==> RightAt(base, m, steps, answers, k)
  }

  lemma NoneWrong(base: Store, m: State, steps: seq<Step>)
    ensures AllRight(base, m, steps, []) && Replay(m, steps[..0], []) == m
  {
  }

  lemma OneMoreRight(base: Store, m: State, steps: seq<Step>, answers: seq<Answer>, a: Answer)
    requires AllRight(base, m, steps, answers) && |answers| < |steps|
    requires Right(base, Replay(m, steps[..|answers|], answers), steps[|answers|], a)
    ensures AllRight(base, m, steps, answers + [a])
  {
    hide Right, Replay;
    var more := answers + [a];
    forall k | 0 <= k < |more|
      ensures RightAt(base, m, steps, more, k)
    {
      assert more[..k] == answers[..k];
      if k < |answers| {
        assert RightAt(base, m, steps, answers, k);
      } else {
        assert answers[..k] == answers;
      }
    }
  }

  lemma OpenedTracks(s: Session, base: Store)
    requires s.Safe() && s.Current() && s.Tidy() && !s.inTxn && s.committed == base
    ensures Tracks(s, base, Opened(s.pager.numPages))
  {
    hide Session.Safe, Session.Current, Session.Tidy;
    NothingCommitted(base);
    hide SamePages;
  }

  lemma EndOfRun(s: Session, base: Store, m: State)
    requires Tracks(s, base, m)
    ensures SamePages(Store(Recover(s.log, s.pager.file).file, map[]), With(base, m.pages))
  {
    RecoveredAll(s);
    hide SamePages, With, Recover;
    SamePagesTrans(Store(Recover(s.log, s.pager.file).file, map[]), s.committed, With(base, m.pages));
  }

  /** A database is opened, and steps are taken in any order, crashes among them. Every
      answer is right for the state that the answers before it describe, and a crash at the
      end would bring back the pages committed in that state, and only those. The run ends
      early only at a commit with too many pages or a checkpoint after a rolled-back write. */
  method Run(log: seq<Byte>, file: seq<Byte>, capacity: nat, steps: seq<Step>)
    returns (s: Session, answers: seq<Answer>, ghost base: Store, m: State)
    requires capacity > 0 && Recover(log, file).ok && (Recover(log, file).applied > 0 || |log| <= HEADER_SIZE)
    ensures base == Store(Recover(log, file).file, map[])
    ensures |answers| <= |steps|
    ensures var start := Opened(Max(1, |base.file| / PAGE_SIZE));
      && AllRight(base, start, steps, answers) && m == Replay(start, steps[..|answers|], answers)
    ensures |answers| < |steps| ==> Outside(m, steps[|answers|])
    ensures Tracks(s, base, m)
    ensures SamePages(Store(Recover(s.log, s.pager.file).file, map[]), With(base, m.pages))
  {
    hide Session.Safe, Tracks, Recover, Right, Replay, AllRight, Next, SamePages, With, PageAt, RightAt;
    s := new Session(log, file, capacity);
    base := s.committed;
    var start := Opened(s.pager.numPages);
    OpenedTracks(s, base);
    NoneWrong(base, start, steps);
    answers, m := [], start;
    while |answers| < |steps| && !Outside(m, steps[|answers|])
      invariant fresh(s) && fresh(s.pager) && fresh(s.pager.pool)
      invariant Tracks(s, base, m) && AllRight(base, start, steps, answers) && |answers| <= |steps|
      invariant m == Replay(start, steps[..|answers|], answers)
      decreases |steps| - |answers|
    {
      var step := steps[|answers|];
      var a;
      s, a := Do(s, step, base, m);
      ReplayMore(start, steps, answers, a);
      OneMoreRight(base, start, steps, answers, a);
      m := Next(m, step, a);
      answers := answers + [a];
    }
    EndOfRun(s, base, m);
  }
}
