// A file as its bytes: positioned writes, whole-page reads, extension.

module Disk {
  import opened Bytes

  type Page = p: seq<Byte> | |p| == PAGE_SIZE witness Zeros(PAGE_SIZE)

  /** The byte at position i; past the end a read is padded with zeros. */
  function ByteAt(file: seq<Byte>, i: nat): Byte {
    if i < |file| then file[i] else 0
  }

  /** `_read_page`: a short read is zero-padded. */
  function PageAt(file: seq<Byte>, n: nat): Page {
    var off := n * PAGE_SIZE;
    if off + PAGE_SIZE <= |file| then file[off..off + PAGE_SIZE]
    else if off <= |file| then file[off..] + Zeros(off + PAGE_SIZE - |file|)
    else Zeros(PAGE_SIZE)
  }

  /** `seek(off); write(data)`: a gap past the old end is filled with zeros. */
  function WriteAt(file: seq<Byte>, off: nat, data: seq<Byte>): seq<Byte> {
    if data == [] then file
    else if off + |data| <= |file| then file[..off] + data + file[off + |data|..]
    else if off <= |file| then file[..off] + data
    else file + Zeros(off - |file|) + data
  }

  /** `_write_page` */
  function WritePage(file: seq<Byte>, n: nat, data: Page): seq<Byte> {
    WriteAt(file, n * PAGE_SIZE, data)
  }

  /** Growing a file to at least `need` bytes by writing a zero at its new last byte. */
  function Extend(file: seq<Byte>, need: nat): seq<Byte> {
    if |file| < need then WriteAt(file, need - 1, [0]) else file
  }

  /** The file is long enough for page n. */
  predicate HasPage(file: seq<Byte>, n: nat) {
    (n + 1) * PAGE_SIZE <= |file|
  }

  function Max(a: nat, b: nat): nat {
    if a < b then b else a
  }

  lemma ByteOfPage(file: seq<Byte>, n: nat, i: nat)
    requires i < PAGE_SIZE
    ensures PageAt(file, n)[i] == ByteAt(file, n * PAGE_SIZE + i)
  {
  }

  lemma ByteOfWrite(file: seq<Byte>, off: nat, data: seq<Byte>, i: nat)
    ensures ByteAt(WriteAt(file, off, data), i) ==
            if off <= i < off + |data| then data[i - off] else ByteAt(file, i)
    ensures |WriteAt(file, off, data)| == if data == [] then |file| else Max(|file|, off + |data|)
  {
  }

  /** Extending never changes what a padded read returns. */
  lemma ByteOfExtend(file: seq<Byte>, need: nat, i: nat)
    ensures ByteAt(Extend(file, need), i) == ByteAt(file, i)
    ensures |Extend(file, need)| == Max(|file|, need)
  {
    if |file| < need {
      ByteOfWrite(file, need - 1, [0], i);
      hide WriteAt;
    }
  }

  /** Two pages read the same if their bytes do. */
  lemma SamePage(f: seq<Byte>, g: seq<Byte>, n: nat)
    requires forall i :: n * PAGE_SIZE <= i < (n + 1) * PAGE_SIZE ==> ByteAt(f, i) == ByteAt(g, i)
    ensures PageAt(f, n) == PageAt(g, n)
  {
    forall i | 0 <= i < PAGE_SIZE
      ensures PageAt(f, n)[i] == PageAt(g, n)[i]
    {
      ByteOfPage(f, n, i);
      ByteOfPage(g, n, i);
      hide PageAt;
      assert ByteAt(f, n * PAGE_SIZE + i) == ByteAt(g, n * PAGE_SIZE + i);
    }
  }

  /** A page write changes that page and no other. */
  lemma PageOfWrite(file: seq<Byte>, n: nat, data: Page, m: nat)
    ensures PageAt(WritePage(file, n, data), m) == if m == n then data else PageAt(file, m)
  {
    var file' := WritePage(file, n, data);
    forall i | 0 <= i < PAGE_SIZE
      ensures PageAt(file', m)[i] == (if m == n then data else PageAt(file, m))[i]
    {
      ByteOfWrite(file, n * PAGE_SIZE, data, m * PAGE_SIZE + i);
      ByteOfPage(file', m, i);
      ByteOfPage(file, m, i);
      hide WriteAt, PageAt, ByteAt;
    }
  }

  /** A page write that was cut short has changed no other page. */
  lemma TornWrite(file: seq<Byte>, n: nat, data: seq<Byte>, m: nat)
    requires |data| <= PAGE_SIZE && m != n
    ensures PageAt(WriteAt(file, n * PAGE_SIZE, data), m) == PageAt(file, m)
  {
    forall i | m * PAGE_SIZE <= i < (m + 1) * PAGE_SIZE
      ensures ByteAt(WriteAt(file, n * PAGE_SIZE, data), i) == ByteAt(file, i)
    {
      ByteOfWrite(file, n * PAGE_SIZE, data, i);
      hide WriteAt;
    }
    SamePage(WriteAt(file, n * PAGE_SIZE, data), file, m);
  }

  lemma PageOfExtend(file: seq<Byte>, need: nat, m: nat)
    ensures PageAt(Extend(file, need), m) == PageAt(file, m)
  {
    forall i | m * PAGE_SIZE <= i < (m + 1) * PAGE_SIZE
      ensures ByteAt(Extend(file, need), i) == ByteAt(file, i)
    {
      ByteOfExtend(file, need, i);
      hide Extend;
    }
    SamePage(Extend(file, need), file, m);
  }
}
