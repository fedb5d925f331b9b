// The write-ahead log (leafdb/wal.py): its frames, how committed batches are written
// to it, and how they are read back from a log that may end anywhere.

module Wal {
  import opened Bytes
  import Crc
  import Order

  const MAGIC: seq<Byte> := [0x4C, 0x46, 0x44, 0x42]
  const HEADER: seq<Byte> := [0x4C, 0x45, 0x41, 0x46, 0x57, 0x41, 0x4C, 0x30, 0x31, 0x0A]
  const HEADER_SIZE: nat := 10
  const FRAME_HEADER: nat := 16
  const COMMIT_PAGE: nat := 0xFFFF_FFFF

  // ---- frames ------------------------------------------------------------------

  function Bits(s: seq<Byte>): (r: seq<bv8>)
    ensures |r| == |s|
  {
    if s == [] then [] else [s[0] as bv8] + Bits(s[1..])
  }

  /** `zlib.crc32` */
  function Checksum(payload: seq<Byte>): (c: int)
    ensures IsU32(c)
  {
    Crc.Crc32(Bits(payload)) as int
  }

  /** `_frame` */
  function FrameBytes(page: nat, payload: seq<Byte>): (r: seq<Byte>)
    requires IsU32(page) && IsU32(|payload|)
    ensures |r| == FRAME_HEADER + |payload|
  {
    MAGIC + U32(page) + U32(|payload|) + U32(Checksum(payload)) + payload
  }

  datatype Frame = Frame(page: nat, payload: seq<Byte>, stop: nat)

  /** The frame at position pos, if there is a whole and intact one. */
  function NextFrame(data: seq<Byte>, pos: nat): (r: Option<Frame>)
    ensures r.Some? ==> pos + FRAME_HEADER <= r.value.stop <= |data|
  {
    if pos + FRAME_HEADER > |data| then None
    else if data[pos..pos + 4] != MAGIC then None
    else
      var page, length, crc := ReadU32(data, pos + 4), ReadU32(data, pos + 8), ReadU32(data, pos + 12);
      var start := pos + FRAME_HEADER;
      var stop := start + length;
      if stop > |data| then None
      else if Checksum(data[start..stop]) != crc then None
      else Some(Frame(page, data[start..stop], stop))
  }

  /** More data behind it does not change a frame. */
  lemma LongerFrame(data: seq<Byte>, data': seq<Byte>, pos: nat)
    requires data <= data' && NextFrame(data, pos).Some?
    ensures NextFrame(data', pos) == NextFrame(data, pos)
  {
    hide Checksum;
    var f := NextFrame(data, pos).value;
    SamePrefix(data, data', pos, pos + 4);
    SamePrefix(data, data', pos + FRAME_HEADER, f.stop);
    SameU32(data, data', pos + 4);
    SameU32(data, data', pos + 8);
    SameU32(data, data', pos + 12);
    hide ReadU32;
  }

  lemma SamePrefix(data: seq<Byte>, data': seq<Byte>, a: nat, b: nat)
    requires data <= data' && a <= b <= |data|
    ensures data[a..b] == data'[a..b]
  {
  }

  lemma SameU32(data: seq<Byte>, data': seq<Byte>, off: nat)
    requires data <= data' && off + 4 <= |data|
    ensures ReadU32(data, off) == ReadU32(data', off)
  {
  }

  /** A frame cut short is no frame. */
  lemma CutFrame(data: seq<Byte>, pos: nat, n: nat)
    requires NextFrame(data, pos).Some? && n < NextFrame(data, pos).value.stop
    ensures NextFrame(data[..n], pos).None?
  {
    if NextFrame(data[..n], pos).Some? {
      LongerFrame(data[..n], data, pos);
    }
  }

  /** Reading the frame that was written. */
  lemma WrittenFrame(data: seq<Byte>, pos: nat, page: nat, payload: seq<Byte>)
    requires IsU32(page) && IsU32(|payload|)
    requires pos + FRAME_HEADER + |payload| <= |data|
    requires data[pos..pos + FRAME_HEADER + |payload|] == FrameBytes(page, payload)
    ensures NextFrame(data, pos) == Some(Frame(page, payload, pos + FRAME_HEADER + |payload|))
  {
    hide Checksum, U32, ReadU32;
    var a, b, c, d := MAGIC, U32(page), U32(|payload|), U32(Checksum(payload));
    Halves(data, pos, a + b + c + d, payload);
    Halves(data, pos, a + b + c, d);
    Halves(data, pos, a + b, c);
    Halves(data, pos, a, b);
    U32RoundTrip(page, data, pos + 4);
    U32RoundTrip(|payload|, data, pos + 8);
    U32RoundTrip(Checksum(payload), data, pos + 12);
  }

  /** A frame in bytes: four magic ones, the page, the length and the checksum of the payload,
      and the payload. */
  lemma FrameLayout(page: nat, payload: seq<Byte>)
    requires IsU32(page) && IsU32(|payload|)
    ensures var f := FrameBytes(page, payload);
      && |f| == 16 + |payload| && f[..4] == [0x4C, 0x46, 0x44, 0x42]
      && ReadU32(f, 4) == page && ReadU32(f, 8) == |payload| && ReadU32(f, 12) == Checksum(payload)
      && f[16..] == payload
  {
    var f := FrameBytes(page, payload);
    hide Checksum, U32, ReadU32;
    assert f[4..8] == U32(page) && f[8..12] == U32(|payload|) && f[12..16] == U32(Checksum(payload));
    U32RoundTrip(page, f, 4);
    U32RoundTrip(|payload|, f, 8);
    U32RoundTrip(Checksum(payload), f, 12);
  }

  // ---- reading batches -----------------------------------------------------------

  /** A committed batch: where its commit frame ends, the page images, and the number of
      pages at the commit. */
  datatype Batch = Batch(stop: nat, images: map<nat, seq<Byte>>, numPages: nat)

  /** The batches found; ok is false if the parse loop raised struct.error at a commit
      frame whose payload is not four bytes. */
  datatype Reading = Reading(batches: seq<Batch>, ok: bool)

  /** The parse loop that `read_batches_from` and `recover` share, from position pos with
      the images of an unfinished batch. */
  function Scan(data: seq<Byte>, pos: nat, images: map<nat, seq<Byte>>): Reading
    decreases |data| - pos
  {
    match NextFrame(data, pos)
    case None => Reading([], true)
    case Some(Frame(page, payload, stop)) =>
      if page != COMMIT_PAGE then Scan(data, stop, images[page := payload])
      else if |payload| != 4 then Reading([], false)
      else
        var rest := Scan(data, stop, map[]);
        Reading([Batch(stop, images, ReadU32(payload, 0))] + rest.batches, rest.ok)
  }

  /** What is read from a log between offset and end, or to the end of the file. */
  function ReadFrom(file: seq<Byte>, offset: nat, end: Option<nat>): Reading {
    var stop := if end.None? || end.value > |file| then |file| else end.value;
    Scan(file[..stop], offset, map[])
  }

  lemma ShiftedU32(data: seq<Byte>, base: nat, off: nat)
    requires base + off + 4 <= |data|
    ensures ReadU32(data[base..], off) == ReadU32(data, base + off)
  {
  }

  lemma ShiftedFrame(data: seq<Byte>, base: nat, pos: nat)
    requires base <= |data|
    ensures NextFrame(data, base + pos) ==
            match NextFrame(data[base..], pos)
            case None => None
            case Some(f) => Some(Frame(f.page, f.payload, base + f.stop))
  {
    hide Checksum;
    assert data[base..|data|] == data[base..];
    if base + pos + FRAME_HEADER <= |data| {
      ShiftedU32(data, base, pos + 4);
      ShiftedU32(data, base, pos + 8);
      ShiftedU32(data, base, pos + 12);
      Subslice(data, base, |data|, pos, pos + 4);
      var length := ReadU32(data, base + pos + 8);
      hide ReadU32;
      if base + pos + FRAME_HEADER + length <= |data| {
        Subslice(data, base, |data|, pos + FRAME_HEADER, pos + FRAME_HEADER + length);
      }
    }
  }

  /** `read_batches_from`; ok is false for the struct.error, after which the caller sees
      no batch at all. */
  method ReadBatchesFrom(file: seq<Byte>, offset: nat, end: Option<nat>) returns (batches: seq<Batch>, ok: bool)
    ensures var r := ReadFrom(file, offset, end);
      ok == r.ok && (ok ==> batches == r.batches)
  {
    hide NextFrame, Checksum, ReadU32;
    var size := if end.None? then |file| else end.value;
    ghost var limit := if size > |file| then |file| else size;
    ghost var all := file[..limit];
    if size <= offset {
      TooShort(all, offset);
      return [], true;
    }
    var data := if offset > |file| then [] else if size > |file| then file[offset..] else file[offset..size];
    assert offset > limit ==> data == [];
    assert offset <= limit ==> data == all[offset..];
    var pos := 0;
    var images: map<nat, seq<Byte>> := map[];
    batches, ok := [], true;
    while pos + FRAME_HEADER <= |data|
      invariant pos <= |data| && ok
      invariant var rest := Scan(all, offset + pos, images);
        Scan(all, offset, map[]) == Reading(batches + rest.batches, rest.ok)
      decreases |data| - pos
    {
      ShiftedFrame(all, offset, pos);
      var next := NextFrame(data, pos);
      if next.None? {
        return;
      }
      var Frame(page, payload, stop) := next.value;
      ScanStep(all, offset + pos, images, batches);
      pos := stop;
      if page == COMMIT_PAGE {
        if |payload| != 4 {
          return [], false;
        }
        batches := batches + [Batch(offset + pos, images, ReadU32(payload, 0))];
        images := map[];
      } else {
        images := images[page := payload];
      }
    }
    TooShort(all, offset + pos);
  }

  /** One round of the parse loop. */
  lemma ScanStep(data: seq<Byte>, pos: nat, images: map<nat, seq<Byte>>, before: seq<Batch>)
    ensures var all := Scan(data, pos, images);
      match NextFrame(data, pos)
      case None => all == Reading([], true)
      case Some(Frame(page, payload, stop)) =>
        if page != COMMIT_PAGE then all == Scan(data, stop, images[page := payload])
        else if |payload| != 4 then !all.ok
        else
          var rest := Scan(data, stop, map[]);
          before + all.batches == (before + [Batch(stop, images, ReadU32(payload, 0))]) + rest.batches &&
            all.ok == rest.ok
  {
    hide NextFrame;
  }

  lemma TooShort(data: seq<Byte>, pos: nat)
    requires pos + FRAME_HEADER > |data|
    ensures NextFrame(data, pos).None? && forall images :: Scan(data, pos, images) == Reading([], true)
  {
  }

  // ---- writing batches -------------------------------------------------------------

  /** `sorted(pages)` */
  function Ascending(s: set<nat>): (r: seq<nat>)
    ensures forall x :: x in r <==> x in s
  {
    var r := Order.Ascending(s);
    assert forall i :: 0 <= i < |r| ==> r[i] in r;
    r
  }

  /** One transaction's touched pages and its page count. */
  datatype Entry = Entry(pages: map<nat, seq<Byte>>, numPages: nat)

  /** What struct.pack can hold; a page number is never the commit mark. */
  ghost predicate Packable(e: Entry) {
    && (forall p :: p in e.pages ==> p < COMMIT_PAGE && IsU32(|e.pages[p]|))
    && IsU32(e.numPages)
  }

  ghost predicate AllPackable(es: seq<Entry>) {
    forall e :: e in es ==> Packable(e)
  }

  function FramesBytes(order: seq<nat>, pages: map<nat, seq<Byte>>): seq<Byte>
    requires forall p :: p in order ==> p in pages && IsU32(p) && IsU32(|pages[p]|)
  {
    if order == [] then [] else FrameBytes(order[0], pages[order[0]]) + FramesBytes(order[1..], pages)
  }

  /** What `append_batch` adds to the log. */
  function BatchBytes(e: Entry): seq<Byte>
    requires Packable(e)
  {
    FramesBytes(Ascending(e.pages.Keys), e.pages) + FrameBytes(COMMIT_PAGE, U32(e.numPages))
  }

  function Blob(es: seq<Entry>): seq<Byte>
    requires AllPackable(es)
  {
    if es == [] then [] else BatchBytes(es[0]) + Blob(es[1..])
  }

  /** A log to which some batches have been appended. */
  function LogOf(es: seq<Entry>): seq<Byte>
    requires AllPackable(es)
  {
    HEADER + Blob(es)
  }

  /** The batches as a reader should see them, the first one starting at base. */
  function BatchesOf(es: seq<Entry>, base: nat): seq<Batch>
    requires AllPackable(es)
  {
    if es == [] then []
    else
      var stop := base + |BatchBytes(es[0])|;
      [Batch(stop, es[0].pages, es[0].numPages)] + BatchesOf(es[1..], stop)
  }

  /** How many batches lie wholly in the first n bytes behind base. */
  function Complete(es: seq<Entry>, base: nat, n: nat): (k: nat)
    requires AllPackable(es)
    ensures k <= |es|
  {
    if es == [] || base + |BatchBytes(es[0])| > n then 0
    else 1 + Complete(es[1..], base + |BatchBytes(es[0])|, n)
  }

  function Picked(order: seq<nat>, pages: map<nat, seq<Byte>>): map<nat, seq<Byte>>
    requires forall p :: p in order ==> p in pages
  {
    map p | p in order :: pages[p]
  }

  lemma PickedNone(order: seq<nat>, pages: map<nat, seq<Byte>>)
    requires order == []
    ensures Picked(order, pages) == map[]
  {
  }

  lemma PickedFirst(order: seq<nat>, pages: map<nat, seq<Byte>>, images: map<nat, seq<Byte>>)
    requires order != [] && forall p :: p in order ==> p in pages
    ensures images[order[0] := pages[order[0]]] + Picked(order[1..], pages) == images + Picked(order, pages)
  {
    assert forall p :: p in order <==> p == order[0] || p in order[1..];
  }

  /** Page frames join the batch being read. */
  lemma {:induction false} ScanFrames(data: seq<Byte>, pos: nat, order: seq<nat>, pages: map<nat, seq<Byte>>,
                                      images: map<nat, seq<Byte>>)
    requires forall p :: p in order ==> p in pages && p < COMMIT_PAGE && IsU32(|pages[p]|)
    requires pos + |FramesBytes(order, pages)| <= |data|
    requires data[pos..pos + |FramesBytes(order, pages)|] == FramesBytes(order, pages)
    ensures Scan(data, pos, images) ==
            Scan(data, pos + |FramesBytes(order, pages)|, images + Picked(order, pages))
    decreases |order|
  {
    hide NextFrame, FrameBytes, Picked;
    if order == [] {
      assert Picked(order, pages) == map[] by {
        PickedNone(order, pages);
      }
      assert images + Picked(order, pages) == images;
    } else {
      var p, rest := order[0], order[1..];
      var f := FrameBytes(p, pages[p]);
      assert forall q :: q in rest ==> q in order;
      Halves(data, pos, f, FramesBytes(rest, pages));
      WrittenFrame(data, pos, p, pages[p]);
      ScanFrames(data, pos + |f|, rest, pages, images[p := pages[p]]);
      PickedFirst(order, pages, images);
    }
  }

  /** A batch that was appended is read back, together with the images that were
      pending in front of it. */
  lemma ScanBatch(data: seq<Byte>, pos: nat, e: Entry, pending: map<nat, seq<Byte>>)
    requires Packable(e) && pos + |BatchBytes(e)| <= |data|
    requires data[pos..pos + |BatchBytes(e)|] == BatchBytes(e)
    ensures var stop := pos + |BatchBytes(e)|; var rest := Scan(data, stop, map[]);
      Scan(data, pos, pending) == Reading([Batch(stop, pending + e.pages, e.numPages)] + rest.batches, rest.ok)
  {
    hide NextFrame, FrameBytes, FramesBytes, U32, ReadU32, Ascending;
    var order := Ascending(e.pages.Keys);
    var a, b := FramesBytes(order, e.pages), FrameBytes(COMMIT_PAGE, U32(e.numPages));
    Halves(data, pos, a, b);
    ScanFrames(data, pos, order, e.pages, pending);
    assert Picked(order, e.pages) == e.pages;
    ScanCommit(data, pos + |a|, pending + e.pages, e.numPages);
  }

  lemma ScanCommit(data: seq<Byte>, pos: nat, images: map<nat, seq<Byte>>, numPages: nat)
    requires IsU32(numPages) && pos + 20 <= |data| && data[pos..pos + 20] == FrameBytes(COMMIT_PAGE, U32(numPages))
    ensures var rest := Scan(data, pos + 20, map[]);
      Scan(data, pos, images) == Reading([Batch(pos + 20, images, numPages)] + rest.batches, rest.ok)
  {
    WrittenFrame(data, pos, COMMIT_PAGE, U32(numPages));
    U32RoundTrip(numPages, U32(numPages), 0);
    hide NextFrame, FrameBytes, U32, ReadU32;
  }

  /** What is in front of a cut is read as before; the frame that is cut is not read. */
  lemma {:induction false} ScanCut(data: seq<Byte>, n: nat, pos: nat, images: map<nat, seq<Byte>>)
    requires n <= |data| && Scan(data, pos, images).ok
    requires Scan(data, pos, images).batches == [] || n < Scan(data, pos, images).batches[0].stop
    ensures Scan(data[..n], pos, images) == Reading([], true)
    decreases |data| - pos
  {
    hide NextFrame;
    if NextFrame(data[..n], pos).Some? {
      LongerFrame(data[..n], data, pos);
      var f := NextFrame(data, pos).value;
      if f.page != COMMIT_PAGE {
        ScanCut(data, n, f.stop, images[f.page := f.payload]);
      } else {
        CutFrame(data, pos, n);
      }
    }
  }

  /** The bytes from base on are those of some batches. */
  ghost predicate HoldsBlob(data: seq<Byte>, es: seq<Entry>, base: nat) {
    AllPackable(es) && base <= |data| && |data| == base + |Blob(es)| && data[base..] == Blob(es)
  }

  lemma BlobHeld(data: seq<Byte>, es: seq<Entry>, base: nat)
    requires AllPackable(es) && base <= |data| && |data| == base + |Blob(es)| && data[base..] == Blob(es)
    ensures HoldsBlob(data, es, base)
  {
    hide Blob;
  }

  lemma FirstPackable(es: seq<Entry>)
    requires AllPackable(es) && es != []
    ensures Packable(es[0]) && AllPackable(es[1..])
  {
    hide Packable;
    assert es[0] in es && forall e :: e in es[1..] ==> e in es;
  }

  /** The first batch, and the others behind it. */
  lemma BlobFirst(data: seq<Byte>, es: seq<Entry>, base: nat)
    requires HoldsBlob(data, es, base) && es != []
    ensures Packable(es[0])
    ensures var stop := base + |BatchBytes(es[0])|;
      stop <= |data| && data[base..stop] == BatchBytes(es[0]) && HoldsBlob(data, es[1..], stop)
  {
    assert es[0] in es && forall e :: e in es[1..] ==> e in es;
    hide BatchBytes, Packable;
    var b, rest := BatchBytes(es[0]), Blob(es[1..]);
    var stop := base + |b|;
    assert Blob(es) == b + rest;
    hide Blob;
    assert data[base..stop + |rest|] == data[base..];
    Halves(data, base, b, rest);
    assert data[stop..] == data[stop..stop + |rest|];
  }

  lemma ScanFirst(data: seq<Byte>, pos: nat, e: Entry)
    requires Packable(e) && pos + |BatchBytes(e)| <= |data|
    requires data[pos..pos + |BatchBytes(e)|] == BatchBytes(e)
    ensures var stop := pos + |BatchBytes(e)|; var rest := Scan(data, stop, map[]);
      Scan(data, pos, map[]) == Reading([Batch(stop, e.pages, e.numPages)] + rest.batches, rest.ok)
  {
    var none: map<nat, seq<Byte>> := map[];
    assert none + e.pages == e.pages;
    ScanBatch(data, pos, e, none);
    hide Scan, BatchBytes, Packable;
  }

  lemma BatchesFirst(es: seq<Entry>, base: nat, n: nat)
    requires AllPackable(es) && es != []
    ensures Packable(es[0]) && AllPackable(es[1..])
    ensures var stop := base + |BatchBytes(es[0])|;
      && BatchesOf(es, base) == [Batch(stop, es[0].pages, es[0].numPages)] + BatchesOf(es[1..], stop)
      && Complete(es, base, n) == if stop > n then 0 else 1 + Complete(es[1..], stop, n)
  {
    assert es[0] in es && forall e :: e in es[1..] ==> e in es;
    hide BatchBytes, Packable;
  }

  lemma NoBatches(base: nat, n: nat)
    ensures BatchesOf([], base) == [] && Complete([], base, n) == 0
  {
  }

  lemma PrefixOfPackable(es: seq<Entry>, k: nat)
    requires AllPackable(es) && k <= |es|
    ensures AllPackable(es[..k])
  {
    hide Packable;
    assert forall e :: e in es[..k] ==> e in es;
  }

  lemma FirstOfPrefix<T>(es: seq<T>, k: nat)
    requires es != [] && k < |es|
    ensures es[..k + 1] != [] && es[..k + 1][0] == es[0] && es[..k + 1][1..] == es[1..][..k]
  {
  }

  lemma SliceOfPrefix<T>(s: seq<T>, a: nat, b: nat, n: nat)
    requires a <= b <= n <= |s|
    ensures s[..n][a..b] == s[a..b]
  {
  }

  /** Reading any byte prefix of a log made by appends returns exactly the batches whose
      commit frame lies wholly in the prefix, each with the offset of its end. */
  lemma {:induction false} ReadPrefix(data: seq<Byte>, es: seq<Entry>, base: nat, n: nat)
    requires HoldsBlob(data, es, base) && base <= n <= |data| && AllPackable(es)
    ensures AllPackable(es[..Complete(es, base, n)])
    ensures Scan(data[..n], base, map[]) == Reading(BatchesOf(es[..Complete(es, base, n)], base), true)
    decreases |es|
  {
    hide *;
    PrefixOfPackable(es, Complete(es, base, n));
    if es == [] {
      EmptyBlob(data, base);
      AtTheEnd(data[..n], base);
      NoBatches(base, n);
    } else {
      FirstPackable(es);
      var stop := base + |BatchBytes(es[0])|;
      BlobFirst(data, es, base);
      BatchesFirst(es, base, n);
      if n < stop {
        ScanFirst(data, base, es[0]);
        ReadWhole(data, es[1..], stop);
        ScanCut(data, n, base, map[]);
        NoBatches(base, n);
      } else {
        SliceOfPrefix(data, base, stop, n);
        ScanFirst(data[..n], base, es[0]);
        ReadPrefix(data, es[1..], stop, n);
        var k := Complete(es[1..], stop, n);
        FirstOfPrefix(es, k);
        BatchesFirst(es[..k + 1], base, n);
      }
    }
  }

  lemma AtTheEnd(data: seq<Byte>, base: nat)
    requires |data| == base
    ensures Scan(data, base, map[]) == Reading([], true)
  {
    TooShort(data, base);
  }

  lemma EmptyBlob(data: seq<Byte>, base: nat)
    requires HoldsBlob(data, [], base)
    ensures |data| == base
  {
  }

  lemma {:induction false} ReadWhole(data: seq<Byte>, es: seq<Entry>, base: nat)
    requires HoldsBlob(data, es, base) && AllPackable(es)
    ensures Scan(data, base, map[]) == Reading(BatchesOf(es, base), true)
    decreases |es|
  {
    hide *;
    if es == [] {
      EmptyBlob(data, base);
      AtTheEnd(data, base);
      NoBatches(base, 0);
    } else {
      BlobFirst(data, es, base);
      BatchesFirst(es, base, 0);
      ScanFirst(data, base, es[0]);
      ReadWhole(data, es[1..], base + |BatchBytes(es[0])|);
    }
  }

  /** Where the first k batches end. */
  function End(es: seq<Entry>, base: nat, k: nat): nat
    requires AllPackable(es) && k <= |es|
  {
    if k == 0 then base else End(es[1..], base + |BatchBytes(es[0])|, k - 1)
  }

  /** The batches in a prefix are those that end there, and no more. */
  lemma {:induction false} CompleteIs(es: seq<Entry>, base: nat, n: nat)
    requires AllPackable(es) && base <= n
    ensures var k := Complete(es, base, n);
      End(es, base, k) <= n && (k < |es| ==> n < End(es, base, k + 1))
    decreases |es|
  {
    hide BatchBytes;
    if es != [] && base + |BatchBytes(es[0])| <= n {
      CompleteIs(es[1..], base + |BatchBytes(es[0])|, n);
    }
  }

  lemma LogParts(es: seq<Entry>)
    requires AllPackable(es)
    ensures |LogOf(es)| == HEADER_SIZE + |Blob(es)| && LogOf(es)[HEADER_SIZE..] == Blob(es)
  {
  }

  /** Any prefix of a log made by appends, read from the first batch on. */
  lemma PrefixTheorem(es: seq<Entry>, n: nat)
    requires AllPackable(es) && HEADER_SIZE <= n <= |LogOf(es)|
    ensures ReadFrom(LogOf(es), HEADER_SIZE, Some(n)) ==
            Reading(BatchesOf(es[..Complete(es, HEADER_SIZE, n)], HEADER_SIZE), true)
  {
    LogParts(es);
    hide Blob, LogOf, BatchesOf, Complete, Scan, Packable;
    ReadPrefix(LogOf(es), es, HEADER_SIZE, n);
  }

  // ---- reading on ------------------------------------------------------------------

  /** Where the last batch that was read ends. */
  function LastStop(batches: seq<Batch>, pos: nat): nat {
    if batches == [] then pos else batches[|batches| - 1].stop
  }

  /** Reading on from the last offset that was returned, and putting the batches
      together, is reading the longer log at once. This holds for any bytes at all. */
  lemma {:induction false} ReadOn(data: seq<Byte>, n: nat, pos: nat, images: map<nat, seq<Byte>>)
    requires n <= |data| && Scan(data[..n], pos, images).ok
    ensures var first := Scan(data[..n], pos, images).batches;
      first != [] ==>
        var rest := Scan(data, LastStop(first, pos), map[]);
        Scan(data, pos, images) == Reading(first + rest.batches, rest.ok)
    decreases |data| - pos
  {
    hide NextFrame;
    var first := Scan(data[..n], pos, images).batches;
    if first != [] {
      assert NextFrame(data[..n], pos).Some?;
      LongerFrame(data[..n], data, pos);
      var f := NextFrame(data, pos).value;
      if f.page != COMMIT_PAGE {
        ReadOn(data, n, f.stop, images[f.page := f.payload]);
      } else {
        ReadOn(data, n, f.stop, map[]);
        var later := Scan(data[..n], f.stop, map[]).batches;
        assert first == [first[0]] + later && LastStop(first, pos) == LastStop(later, f.stop);
        var rest := Scan(data, LastStop(first, pos), map[]);
        assert [first[0]] + (later + rest.batches) == first + rest.batches;
      }
    }
  }

  /** Two reads, the second from where the first one ended, against one. */
  lemma ResumeTheorem(data: seq<Byte>, n: nat, offset: nat)
    requires n <= |data| && ReadFrom(data, offset, Some(n)).ok
    ensures var first := ReadFrom(data, offset, Some(n)).batches;
      var second := ReadFrom(data, LastStop(first, offset), None);
      ReadFrom(data, offset, None) == Reading(first + second.batches, second.ok)
  {
    ReadOn(data, n, offset, map[]);
    assert data[..|data|] == data;
  }

  // ---- appending to a log that was left behind ---------------------------------------

  /** The log ends where its last committed batch ends. */
  predicate AtBoundary(log: seq<Byte>) {
    LastStop(Scan(log, HEADER_SIZE, map[]).batches, HEADER_SIZE) == |log|
  }

  /** Appending the transaction e makes exactly its batch readable. */
  ghost predicate Appends(log: seq<Byte>, e: Entry)
    requires Packable(e)
  {
    var before := Scan(log, HEADER_SIZE, map[]);
    var log' := log + BatchBytes(e);
    Scan(log', HEADER_SIZE, map[]) == Reading(before.batches + [Batch(|log'|, e.pages, e.numPages)], true)
  }

  /** What is read after an append, in terms of what stands behind the last batch. */
  lemma ReadBehind(log: seq<Byte>, e: Entry)
    requires Packable(e) && HEADER_SIZE <= |log| && Scan(log, HEADER_SIZE, map[]).ok
    ensures var before := Scan(log, HEADER_SIZE, map[]).batches;
      var rest := Scan(log + BatchBytes(e), LastStop(before, HEADER_SIZE), map[]);
      Scan(log + BatchBytes(e), HEADER_SIZE, map[]) == Reading(before + rest.batches, rest.ok)
  {
    hide Scan, BatchBytes;
    var data := log + BatchBytes(e);
    assert data[..|log|] == log;
    ReadOn(data, |log|, HEADER_SIZE, map[]);
    var rest := Scan(data, HEADER_SIZE, map[]);
    assert [] + rest.batches == rest.batches;
  }

  lemma AppendAtBoundary(log: seq<Byte>, e: Entry)
    requires Packable(e) && HEADER_SIZE <= |log| && Scan(log, HEADER_SIZE, map[]).ok && AtBoundary(log)
    ensures Appends(log, e)
  {
    hide Scan, BatchBytes, LastStop;
    var none: map<nat, seq<Byte>> := map[];
    var data := log + BatchBytes(e);
    ReadBehind(log, e);
    assert data[|log|..|log| + |BatchBytes(e)|] == BatchBytes(e);
    ScanBatch(data, |log|, e, none);
    assert none + e.pages == e.pages;
    TooShort(data, |data|);
  }

  /** Pending images stay in the next batch. */
  lemma {:induction false} PendingKept(data: seq<Byte>, pos: nat, images: map<nat, seq<Byte>>)
    ensures var bs := Scan(data, pos, images).batches;
      bs != [] ==> images.Keys <= bs[0].images.Keys
    decreases |data| - pos
  {
    hide NextFrame;
    match NextFrame(data, pos) {
      case None =>
      case Some(f) =>
        if f.page != COMMIT_PAGE {
          PendingKept(data, f.stop, images[f.page := f.payload]);
        }
    }
  }

  /** What stands at position pos does not read as an empty batch that ends 20 bytes
      behind position n. */
  lemma NotTheEmptyBatch(data: seq<Byte>, pos: nat, n: nat)
    requires pos < n && |data| == n + 20
    ensures Scan(data, pos, map[]).batches != [Batch(|data|, map[], 0)]
  {
    hide NextFrame;
    match NextFrame(data, pos) {
      case None =>
      case Some(f) =>
        if f.page != COMMIT_PAGE {
          PendingKept(data, f.stop, map[f.page := f.payload]);
          assert f.page in (map[f.page := f.payload]).Keys;
        } else if |f.payload| == 4 {
          FrameLength(data, pos);
          assert Scan(data, pos, map[]).batches[0].stop == f.stop;
        }
    }
  }

  /** Bytes behind the last batch spoil the append of an empty transaction, at least. */
  lemma AppendBehindLeftover(log: seq<Byte>)
    requires HEADER_SIZE <= |log| && Scan(log, HEADER_SIZE, map[]).ok && !AtBoundary(log)
    requires LastStop(Scan(log, HEADER_SIZE, map[]).batches, HEADER_SIZE) <= |log|
    ensures !Appends(log, Entry(map[], 0))
  {
    var e := Entry(map[], 0);
    var data := log + BatchBytes(e);
    assert |BatchBytes(e)| == 20;
    hide Scan, BatchBytes;
    var before := Scan(log, HEADER_SIZE, map[]).batches;
    var last := LastStop(before, HEADER_SIZE);
    ReadBehind(log, e);
    NotTheEmptyBatch(data, last, |log|);
    var rest := Scan(data, last, map[]).batches;
    var wanted := [Batch(|data|, map[], 0)];
    if before + rest == before + wanted {
      SameTail(before, rest, wanted);
    }
  }

  lemma SameTail<T>(a: seq<T>, b: seq<T>, c: seq<T>)
    requires a + b == a + c
    ensures b == c
  {
    assert (a + b)[|a|..] == b && (a + c)[|a|..] == c;
  }

  lemma FrameLength(data: seq<Byte>, pos: nat)
    requires NextFrame(data, pos).Some?
    ensures var f := NextFrame(data, pos).value; f.stop == pos + FRAME_HEADER + |f.payload|
  {
  }

  lemma {:induction false} StopsInside(data: seq<Byte>, pos: nat, images: map<nat, seq<Byte>>)
    ensures forall b :: b in Scan(data, pos, images).batches ==> b.stop <= |data|
    decreases |data| - pos
  {
    hide NextFrame;
    match NextFrame(data, pos) {
      case None =>
      case Some(f) =>
        if f.page != COMMIT_PAGE {
          StopsInside(data, f.stop, images[f.page := f.payload]);
        } else if |f.payload| == 4 {
          StopsInside(data, f.stop, map[]);
        }
    }
  }

  /** Every later append is readable if and only if the log ends at a batch boundary. */
  lemma AppendsIff(log: seq<Byte>)
    requires HEADER_SIZE <= |log| && Scan(log, HEADER_SIZE, map[]).ok
    ensures (forall e :: Packable(e) ==> Appends(log, e)) <==> AtBoundary(log)
  {
    var empty := Entry(map[], 0);
    var batches := Scan(log, HEADER_SIZE, map[]).batches;
    StopsInside(log, HEADER_SIZE, map[]);
    if batches != [] {
      assert batches[|batches| - 1] in batches;
    }
    assert Packable(empty);
    hide Scan, Appends;
    if AtBoundary(log) {
      forall e | Packable(e)
        ensures Appends(log, e)
      {
        AppendAtBoundary(log, e);
      }
    } else {
      AppendBehindLeftover(log);
    }
  }

  function One(page: nat, image: seq<Byte>): map<nat, seq<Byte>> {
    map[page := image]
  }

  lemma ScanPage(data: seq<Byte>, pos: nat, page: nat, image: seq<Byte>)
    requires page < COMMIT_PAGE && IsU32(|image|)
    requires pos + |FrameBytes(page, image)| <= |data|
    requires data[pos..pos + |FrameBytes(page, image)|] == FrameBytes(page, image)
    ensures Scan(data, pos, map[]) == Scan(data, pos + |FrameBytes(page, image)|, One(page, image))
  {
    hide *;
    PageFrame(data, pos, page, image);
    ScanPast(data, pos, map[]);
  }

  lemma PageFrame(data: seq<Byte>, pos: nat, page: nat, image: seq<Byte>)
    requires page < COMMIT_PAGE && IsU32(|image|)
    requires pos + |FrameBytes(page, image)| <= |data|
    requires data[pos..pos + |FrameBytes(page, image)|] == FrameBytes(page, image)
    ensures NextFrame(data, pos) == Some(Frame(page, image, pos + |FrameBytes(page, image)|))
    ensures map[][page := image] == One(page, image)
  {
    WrittenFrame(data, pos, page, image);
    hide NextFrame, U32, Checksum;
  }

  lemma ScanPast(data: seq<Byte>, pos: nat, images: map<nat, seq<Byte>>)
    requires NextFrame(data, pos).Some? && NextFrame(data, pos).value.page != COMMIT_PAGE
    ensures var f := NextFrame(data, pos).value;
      Scan(data, pos, images) == Scan(data, f.stop, images[f.page := f.payload])
  {
    hide NextFrame;
  }

  /** The failing case at its worst: a page frame of a transaction that crashed before
      its commit frame was written becomes part of the next transaction's batch. */
  lemma LeftoverJoins(log: seq<Byte>, page: nat, image: seq<Byte>, e: Entry)
    requires page < COMMIT_PAGE && IsU32(|image|) && Packable(e)
    requires HEADER_SIZE <= |log| && log[HEADER_SIZE..] == FrameBytes(page, image)
    ensures Scan(log, HEADER_SIZE, map[]) == Reading([], true)
    ensures var log' := log + BatchBytes(e);
      Scan(log', HEADER_SIZE, map[]) == Reading([Batch(|log'|, One(page, image) + e.pages, e.numPages)], true)
  {
    hide FrameBytes, BatchBytes, Scan, Packable, One;
    LeftoverIsRead(log, page, image);
    LeftoverIsRead(log + BatchBytes(e), page, image);
    TooShort(log, |log|);
    BatchFollows(log, e, One(page, image));
  }

  lemma LeftoverIsRead(data: seq<Byte>, page: nat, image: seq<Byte>)
    requires page < COMMIT_PAGE && IsU32(|image|) && HEADER_SIZE + |FrameBytes(page, image)| <= |data|
    requires data[HEADER_SIZE..HEADER_SIZE + |FrameBytes(page, image)|] == FrameBytes(page, image)
    ensures Scan(data, HEADER_SIZE, map[]) == Scan(data, HEADER_SIZE + |FrameBytes(page, image)|, One(page, image))
  {
    ScanPage(data, HEADER_SIZE, page, image);
  }

  lemma BatchFollows(log: seq<Byte>, e: Entry, pending: map<nat, seq<Byte>>)
    requires Packable(e)
    ensures var log' := log + BatchBytes(e);
      Scan(log', |log|, pending) == Reading([Batch(|log'|, pending + e.pages, e.numPages)], true)
  {
    hide BatchBytes, Scan;
    var log' := log + BatchBytes(e);
    assert log'[|log|..|log| + |BatchBytes(e)|] == BatchBytes(e);
    ScanBatch(log', |log|, e, pending);
    TooShort(log', |log'|);
  }

  // ---- damage ----------------------------------------------------------------------

  lemma {:induction false} BitsConcat(a: seq<Byte>, b: seq<Byte>)
    ensures Bits(a + b) == Bits(a) + Bits(b)
    decreases |a|
  {
    if a == [] {
      assert a + b == b;
    } else {
      assert (a + b)[1..] == a[1..] + b;
      BitsConcat(a[1..], b);
    }
  }

  /** A byte, as a bit vector and back; a quarter of the values at a time. */
  function Back(a: Byte): int {
    (a as bv8) as int
  }

  lemma FirstQuarterBack(a: Byte)
    requires a < 64
    ensures Back(a) == a
  {
  }

  lemma SecondQuarterBack(a: Byte)
    requires 64 <= a < 128
    ensures Back(a) == a
  {
  }

  lemma ThirdQuarterBack(a: Byte)
    requires 128 <= a < 192
    ensures Back(a) == a
  {
  }

  lemma LastQuarterBack(a: Byte)
    requires 192 <= a
    ensures Back(a) == a
  {
  }

  lemma ByteBack(a: Byte)
    ensures Back(a) == a
  {
    hide Back;
    if a < 64 {
      FirstQuarterBack(a);
    } else if a < 128 {
      SecondQuarterBack(a);
    } else if a < 192 {
      ThirdQuarterBack(a);
    } else {
      LastQuarterBack(a);
    }
  }

  lemma SameByte(a: Byte, b: Byte)
    requires a as bv8 == b as bv8
    ensures a == b
  {
    assert Back(a) == Back(b);
    hide Back;
    ByteBack(a);
    ByteBack(b);
  }

  lemma {:induction false} BitsInjective(a: seq<Byte>, b: seq<Byte>)
    requires Bits(a) == Bits(b)
    ensures a == b
    decreases |a|
  {
    if a != [] {
      assert Bits(a)[0] == Bits(b)[0] && Bits(a)[1..] == Bits(b)[1..];
      SameByte(a[0], b[0]);
      BitsInjective(a[1..], b[1..]);
      assert a == [a[0]] + a[1..] && b == [b[0]] + b[1..];
    }
  }

  lemma ChecksumDetects(pre: seq<Byte>, a: seq<Byte>, b: seq<Byte>, post: seq<Byte>)
    requires |a| == |b| <= 4 && a != b
    ensures Checksum(pre + a + post) != Checksum(pre + b + post)
  {
    BitsConcat(pre + a, post);
    BitsConcat(pre, a);
    BitsConcat(pre + b, post);
    BitsConcat(pre, b);
    hide Bits, Crc.Crc32;
    if a != b && Bits(a) == Bits(b) {
      BitsInjective(a, b);
    }
    var p, q, x, y := Bits(pre), Bits(post), Bits(a), Bits(b);
    Crc.BurstDetected(p, x, y, q);
    var c, d := Crc.Crc32(p + x + q), Crc.Crc32(p + y + q);
    if c as int == d as int {
      SameBits(c, d);
    }
  }

  lemma SameBits(x: bv32, y: bv32)
    requires x as int == y as int
    ensures x == y
  {
    assert (x as int) as bv32 == x && (y as int) as bv32 == y;
  }

  /** A frame whose payload is damaged within four consecutive bytes is not a frame, so
      every read and every recovery stops in front of it. */
  lemma DamagedFrame(data: seq<Byte>, data': seq<Byte>, pos: nat, at: nat, m: nat)
    requires NextFrame(data, pos).Some? && |data'| == |data|
    requires var f := NextFrame(data, pos).value; pos + FRAME_HEADER <= at && at + m <= f.stop && m <= 4
    requires data'[..at] == data[..at] && data'[at + m..] == data[at + m..] && data'[at..at + m] != data[at..at + m]
    ensures NextFrame(data', pos).None?
    ensures forall images :: Scan(data', pos, images) == Reading([], true)
  {
    hide Checksum;
    var f := NextFrame(data, pos).value;
    var start := pos + FRAME_HEADER;
    SamePrefix(data[..at], data, pos, pos + 4);
    SamePrefix(data[..at], data', pos, pos + 4);
    SameU32(data[..at], data, pos + 8);
    SameU32(data[..at], data', pos + 8);
    SameU32(data[..at], data, pos + 12);
    SameU32(data[..at], data', pos + 12);
    hide ReadU32;
    DamagedPayload(data, data', start, at, m, f.stop);
  }

  lemma ThreeParts<T>(s: seq<T>, a: nat, b: nat, m: nat, c: nat)
    requires a <= b && b + m <= c <= |s|
    ensures s[a..c] == s[..b][a..] + s[b..b + m] + s[b + m..][..c - b - m]
  {
    Subslice(s, 0, b, a, b);
    Subslice(s, b + m, |s|, 0, c - b - m);
    assert s[0..b] == s[..b] && s[b + m..|s|] == s[b + m..];
    assert s[a..c] == s[a..b] + s[b..b + m] + s[b + m..c];
  }

  lemma DamagedPayload(data: seq<Byte>, data': seq<Byte>, start: nat, at: nat, m: nat, stop: nat)
    requires start <= at && at + m <= stop <= |data| == |data'| && m <= 4
    requires data'[..at] == data[..at] && data'[at + m..] == data[at + m..] && data'[at..at + m] != data[at..at + m]
    ensures Checksum(data[start..stop]) != Checksum(data'[start..stop])
  {
    hide Checksum;
    var pre, post := data[..at][start..], data[at + m..][..stop - at - m];
    ThreeParts(data, start, at, m, stop);
    ThreeParts(data', start, at, m, stop);
    ChecksumDetects(pre, data[at..at + m], data'[at..at + m], post);
  }
}
