// Bytes and the big-endian integer formats that the node and log codecs share
// (the struct formats ">I" and ">q").

module Bytes {

  type Byte = b: int | 0 <= b < 256

  datatype Option<+T> = None | Some(value: T)

  const PAGE_SIZE: nat := 4096
  const U32_LIMIT := 0x1_0000_0000
  const U64_LIMIT := 0x1_0000_0000_0000_0000
  const I64_MIN := -0x8000_0000_0000_0000
  const I64_LIMIT := 0x8000_0000_0000_0000

  predicate IsU32(x: int) {
    0 <= x < U32_LIMIT
  }

  predicate IsI64(x: int) {
    I64_MIN <= x < I64_LIMIT
  }

  function Zeros(n: nat): (r: seq<Byte>)
    ensures |r| == n
  {
    seq(n, _ => 0)
  }

  /** `struct.pack(">I", x)` */
  function U32(x: int): (r: seq<Byte>)
    requires IsU32(x)
    ensures |r| == 4
  {
    [x / 0x100_0000, x / 0x1_0000 % 256, x / 256 % 256, x % 256]
  }

  /** `struct.unpack_from(">I", s, off)` */
  function ReadU32(s: seq<Byte>, off: nat): (x: int)
    requires off + 4 <= |s|
    ensures IsU32(x)
  {
    var b0: int, b1: int, b2: int, b3: int := s[off], s[off + 1], s[off + 2], s[off + 3];
    b0 * 0x100_0000 + b1 * 0x1_0000 + b2 * 256 + b3
  }

  /** `struct.pack(">q", x)`: two's complement in eight bytes. */
  function I64(x: int): (r: seq<Byte>)
    requires IsI64(x)
    ensures |r| == 8
  {
    var u := if x < 0 then x + U64_LIMIT else x;
    U32(u / U32_LIMIT) + U32(u % U32_LIMIT)
  }

  /** `struct.unpack_from(">q", s, off)` */
  function ReadI64(s: seq<Byte>, off: nat): (x: int)
    requires off + 8 <= |s|
    ensures IsI64(x)
  {
    var u := ReadU32(s, off) * U32_LIMIT + ReadU32(s, off + 4);
    if u < I64_LIMIT then u else u - U64_LIMIT
  }

  lemma Base256(x: int)
    requires IsU32(x)
    ensures x / 0x100_0000 * 0x100_0000 + x / 0x1_0000 % 256 * 0x1_0000 + x / 256 % 256 * 256 + x % 256 == x
  {
    assert x / 0x1_0000 == x / 256 / 256 && x / 0x100_0000 == x / 0x1_0000 / 256;
  }

  /** The bytes of a packed unsigned integer, the most significant first. */
  lemma U32Bytes(x: int)
    requires IsU32(x)
    ensures var b := U32(x);
      x == b[0] as int * 0x100_0000 + b[1] as int * 0x1_0000 + b[2] as int * 0x100 + b[3] as int
  {
    Base256(x);
  }

  /** And those of a packed signed one: the bytes of x, or of x + 2^64 if it is negative. */
  lemma I64Bytes(x: int)
    requires IsI64(x)
    ensures var b := I64(x);
      (if x < 0 then x + U64_LIMIT else x) ==
      b[0] as int * 0x100_0000_0000_0000 + b[1] as int * 0x1_0000_0000_0000 + b[2] as int * 0x100_0000_0000 +
      b[3] as int * 0x1_0000_0000 + b[4] as int * 0x100_0000 + b[5] as int * 0x1_0000 + b[6] as int * 0x100 +
      b[7] as int
  {
    var u := if x < 0 then x + U64_LIMIT else x;
    var hi, lo := u / U32_LIMIT, u % U32_LIMIT;
    U32Bytes(hi);
    U32Bytes(lo);
    var h, l := U32(hi), U32(lo);
    assert I64(x) == h + l;
    hide U32;
    assert forall k :: 0 <= k < 4 ==> (h + l)[k] == h[k] && (h + l)[k + 4] == l[k];
  }

  /** Reading back a packed unsigned integer, wherever it lies in the buffer. */
  lemma U32RoundTrip(x: int, s: seq<Byte>, off: nat)
    requires IsU32(x)
    requires off + 4 <= |s| && s[off..off + 4] == U32(x)
    ensures ReadU32(s, off) == x
  {
    var e := s[off..off + 4];
    assert s[off] == e[0] && s[off + 1] == e[1] && s[off + 2] == e[2] && s[off + 3] == e[3];
    Base256(x);
  }

  lemma I64RoundTrip(x: int, s: seq<Byte>, off: nat)
    requires IsI64(x)
    requires off + 8 <= |s| && s[off..off + 8] == I64(x)
    ensures ReadI64(s, off) == x
  {
    var u := if x < 0 then x + U64_LIMIT else x;
    assert s[off..off + 4] == s[off..off + 8][..4] == U32(u / U32_LIMIT);
    assert s[off + 4..off + 8] == s[off..off + 8][4..] == U32(u % U32_LIMIT);
    U32RoundTrip(u / U32_LIMIT, s, off);
    U32RoundTrip(u % U32_LIMIT, s, off + 4);
  }

  /** A slice of a slice, as one slice. */
  lemma Subslice<T>(s: seq<T>, a: nat, b: nat, c: nat, d: nat)
    requires a <= b <= |s| && c <= d <= b - a
    ensures s[a..b][c..d] == s[a + c..a + d]
  {
    var x, y := s[a..b][c..d], s[a + c..a + d];
    forall i | 0 <= i < d - c
      ensures x[i] == y[i]
    {
      assert x[i] == s[a..b][c + i] == s[a + c + i];
    }
  }

  lemma {:induction false} SubsetSize<T>(a: set<T>, b: set<T>)
    requires a <= b
    ensures |a| <= |b|
    decreases |a|
  {
    if x :| x in a {
      SubsetSize(a - {x}, b - {x});
    }
  }

  lemma Parts<T>(s: seq<T>, i: nat)
    requires i < |s|
    ensures s == s[..i] + [s[i]] + s[i + 1..]
  {
  }

  /** The two halves of a stretch of s that holds x followed by y. */
  lemma Halves<T>(s: seq<T>, off: nat, x: seq<T>, y: seq<T>)
    requires off + |x| + |y| <= |s| && s[off..off + |x| + |y|] == x + y
    ensures s[off..off + |x|] == x && s[off + |x|..off + |x| + |y|] == y
  {
    var n := |x| + |y|;
    assert (x + y)[0..|x|] == x && (x + y)[|x|..n] == y;
    Subslice(s, off, off + n, 0, |x|);
    Subslice(s, off, off + n, |x|, n);
  }
}
