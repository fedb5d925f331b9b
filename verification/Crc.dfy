// The checksum of log frames: CRC-32 (section 8 of RFC 1952), computed with a table as
// in native/src/core.cpp and in zlib, and the damage that it is sure to detect.

module Crc {
  import opened Bytes

  const POLY: bv32 := 0xEDB8_8320
  const ONES: bv32 := 0xFFFF_FFFF

  // ---- the definition: one bit at a time ---------------------------------------

  /** The register after one more message bit. */
  function ShiftIn(c: bv32, bit: bool): bv32 {
    if ((c & 1) == 1) != bit then POLY ^ (c >> 1) else c >> 1
  }

  /** The register after k more bits of byte b, least significant first. */
  function ShiftByte(c: bv32, b: bv8, k: nat): bv32
    decreases k
  {
    if k == 0 then c else ShiftByte(ShiftIn(c, (b & 1) == 1), b >> 1, k - 1)
  }

  function ShiftAll(c: bv32, data: seq<bv8>): bv32
    decreases |data|
  {
    if data == [] then c else ShiftAll(ShiftByte(c, data[0], 8), data[1..])
  }

  /** The CRC of a message */
  function Crc32(data: seq<bv8>): bv32 {
    ShiftAll(ONES, data) ^ ONES
  }

  function Xor(a: bv32, b: bv32): bv32 {
    a ^ b
  }

  function Shl(a: bv32, k: bv32): bv32
    requires k <= 8
  {
    a << k
  }

  // ---- bits of exclusive or --------------------------------------------------------

  lemma XorShift(a: bv32, b: bv32)
    ensures (a ^ b) >> 1 == (a >> 1) ^ (b >> 1)
  {
  }

  lemma XorBit(a: bv32, b: bv32)
    ensures (((a ^ b) & 1) == 1) == (((a & 1) == 1) != ((b & 1) == 1))
  {
  }

  lemma XorTwice(p: bv32, x: bv32, y: bv32)
    ensures (p ^ x) ^ (p ^ y) == x ^ y
    ensures (p ^ x) ^ y == p ^ (x ^ y) && x ^ (p ^ y) == p ^ (x ^ y)
  {
  }

  // ---- a step without a message bit ----------------------------------------------

  /** The inner step of the table's construction. */
  function Step(c: bv32): bv32 {
    if (c & 1) == 1 then POLY ^ (c >> 1) else c >> 1
  }

  function Steps(c: bv32, n: nat): bv32
    decreases n
  {
    if n == 0 then c else Steps(Step(c), n - 1)
  }

  lemma StepOfXor(a: bv32, b: bv32)
    ensures Step(a ^ b) == Step(a) ^ Step(b)
  {
    XorShift(a, b);
    XorBit(a, b);
    XorTwice(POLY, a >> 1, b >> 1);
  }

  lemma StepLinear(a: bv32, b: bv32)
    ensures Step(Xor(a, b)) == Xor(Step(a), Step(b))
  {
    hide Step;
    StepOfXor(a, b);
  }

  lemma {:induction false} StepsLinear(a: bv32, b: bv32, n: nat)
    ensures Steps(Xor(a, b), n) == Xor(Steps(a, n), Steps(b, n))
    decreases n
  {
    hide Step, Xor;
    if n > 0 {
      StepLinear(a, b);
      StepsLinear(Step(a), Step(b), n - 1);
    }
  }

  /** A step can be undone: the top bit tells which case it was. */
  lemma StepInjective(a: bv32, b: bv32)
    requires Step(a) == Step(b)
    ensures a == b
  {
  }

  lemma {:induction false} StepsInjective(a: bv32, b: bv32, n: nat)
    requires Steps(a, n) == Steps(b, n)
    ensures a == b
    decreases n
  {
    if n > 0 {
      hide Step;
      StepsInjective(Step(a), Step(b), n - 1);
      StepInjective(a, b);
    }
  }

  lemma {:induction false} StepsPlus(c: bv32, m: nat, n: nat)
    ensures Steps(c, m + n) == Steps(Steps(c, m), n)
    decreases m
  {
    if m > 0 {
      hide Step;
      StepsPlus(Step(c), m - 1, n);
    }
  }

  /** Zero bits at the bottom just shift out. */
  lemma ShiftOne(x: bv32, k: bv32)
    requires x <= 0x00FF_FFFF && 0 < k <= 8
    ensures Step(Shl(x, k)) == Shl(x, k - 1)
  {
  }

  lemma ShiftOut(x: bv32)
    requires x <= 0x00FF_FFFF
    ensures Steps(Shl(x, 8), 8) == x
  {
    ShiftOne(x, 8);
    ShiftOne(x, 7);
    ShiftOne(x, 6);
    ShiftOne(x, 5);
    ShiftOne(x, 4);
    ShiftOne(x, 3);
    ShiftOne(x, 2);
    ShiftOne(x, 1);
    assert Shl(x, 0) == x;
    hide Step, Shl;
    StepsPlus(Shl(x, 8), 4, 4);
    assert Steps(Shl(x, 8), 4) == Shl(x, 4);
    assert Steps(Shl(x, 4), 4) == Shl(x, 0);
  }

  // ---- a byte at a time --------------------------------------------------------------

  function Wide(b: bv8): bv32 {
    b as bv32
  }

  function Halves(b: bv8, k: nat): bv8 {
    if k == 0 then b else Halves(b >> 1, k - 1)
  }

  lemma HalfWide(b: bv8)
    ensures Wide(b) >> 1 == Wide(b >> 1) && ((Wide(b) & 1) == 1) == ((b & 1) == 1)
  {
  }

  lemma StepOfPair(c: bv32, w: bv32)
    ensures Step(c ^ w) == ShiftIn(c, (w & 1) == 1) ^ (w >> 1)
  {
    XorShift(c, w);
    XorBit(c, w);
    XorTwice(POLY, c >> 1, w >> 1);
  }

  lemma StepOfXorPair(c: bv32, w: bv32, bit: bool, v: bv32)
    requires bit == ((w & 1) == 1) && v == w >> 1
    ensures Step(Xor(c, w)) == Xor(ShiftIn(c, bit), v)
  {
    hide Step, ShiftIn;
    StepOfPair(c, w);
  }

  lemma OneBit(c: bv32, b: bv8)
    ensures Step(Xor(c, Wide(b))) == Xor(ShiftIn(c, (b & 1) == 1), Wide(b >> 1))
  {
    hide Step, ShiftIn, Wide, Xor;
    HalfWide(b);
    StepOfXorPair(c, Wide(b), (b & 1) == 1, Wide(b >> 1));
  }

  lemma {:induction false} SomeBits(c: bv32, b: bv8, k: nat)
    ensures Steps(Xor(c, Wide(b)), k) == Xor(ShiftByte(c, b, k), Wide(Halves(b, k)))
    decreases k
  {
    hide Step, Xor, Wide, ShiftIn;
    if k > 0 {
      OneBit(c, b);
      SomeBits(ShiftIn(c, (b & 1) == 1), b >> 1, k - 1);
    }
  }

  lemma NoBitsLeft(b: bv8)
    ensures Halves(b, 8) == 0
  {
    var b2 := b >> 1 >> 1;
    var b4 := b2 >> 1 >> 1;
    var b6 := b4 >> 1 >> 1;
    assert b6 >> 1 >> 1 == 0;
    assert Halves(b6 >> 1 >> 1, 0) == b6 >> 1 >> 1;
    assert Halves(b6, 2) == b6 >> 1 >> 1;
    assert Halves(b4, 4) == Halves(b6, 2);
    assert Halves(b2, 6) == Halves(b4, 4);
    assert Halves(b, 8) == Halves(b2, 6);
  }

  lemma XorZero(x: bv32)
    ensures Xor(x, Wide(0)) == x && Xor(x, 0) == x && Xor(0, x) == x
  {
  }

  /** The eight bits of a byte, all at once. */
  lemma OneByte(c: bv32, b: bv8)
    ensures ShiftByte(c, b, 8) == Steps(Xor(c, Wide(b)), 8)
  {
    SomeBits(c, b, 8);
    NoBitsLeft(b);
    XorZero(ShiftByte(c, b, 8));
    hide *;
  }

  lemma Small(b: bv8)
    ensures Wide(b) <= 0xFF
  {
  }

  /** Low byte and the rest. */
  lemma LowAndRest(c: bv32, w: bv32)
    requires w <= 0xFF
    ensures c ^ w == ((c ^ w) & 0xFF) ^ ((c >> 8) << 8) && c >> 8 <= 0x00FF_FFFF
  {
  }

  lemma LowXorRest(c: bv32, w: bv32)
    requires w <= 0xFF
    ensures Xor(c, w) == Xor((c ^ w) & 0xFF, Shl(c >> 8, 8)) && c >> 8 <= 0x00FF_FFFF
  {
    LowAndRest(c, w);
  }

  lemma Split(c: bv32, b: bv8)
    ensures Xor(c, Wide(b)) == Xor((c ^ Wide(b)) & 0xFF, Shl(c >> 8, 8)) && c >> 8 <= 0x00FF_FFFF
  {
    Small(b);
    hide Wide, Xor, Shl;
    LowXorRest(c, Wide(b));
  }

  /** The table index for the next byte, and what stays of the register. */
  function Index(c: bv32, b: bv8): (i: nat)
    ensures i < 256
  {
    LowByte(c ^ Wide(b));
    ((c ^ Wide(b)) & 0xFF) as int
  }

  function Rest(c: bv32): bv32 {
    c >> 8
  }

  /** Entry i of the table */
  function Entry(i: nat): bv32
    requires i < 256
  {
    Steps(i as bv32, 8)
  }

  lemma Masked(x: bv32)
    ensures x & 0xFF <= 0xFF
  {
  }

  lemma AsInt(y: bv32)
    requires y <= 0xFF
    ensures y as int < 256 && (y as int) as bv32 == y
  {
  }

  lemma LowByte(x: bv32)
    ensures (x & 0xFF) as int < 256 && ((x & 0xFF) as int) as bv32 == x & 0xFF
  {
    Masked(x);
    AsInt(x & 0xFF);
  }

  lemma EntryOf(c: bv32, b: bv8)
    ensures Entry(Index(c, b)) == Steps((c ^ Wide(b)) & 0xFF, 8)
  {
    LowByte(c ^ Wide(b));
    hide Steps, Wide;
  }

  lemma TableSteps(c: bv32, b: bv8)
    ensures ShiftByte(c, b, 8) == Xor(Steps((c ^ Wide(b)) & 0xFF, 8), Rest(c))
  {
    OneByte(c, b);
    Split(c, b);
    ShiftOut(c >> 8);
    StepsLinear((c ^ Wide(b)) & 0xFF, Shl(c >> 8, 8), 8);
    hide Steps, Wide, Shl, ShiftByte;
  }

  /** The table-driven update takes in eight bits. */
  lemma TableStep(c: bv32, b: bv8)
    ensures ShiftByte(c, b, 8) == Xor(Entry(Index(c, b)), Rest(c))
  {
    TableSteps(c, b);
    EntryOf(c, b);
    hide *;
  }

  lemma FirstByte(c: bv32, bs: seq<bv8>)
    requires bs != []
    ensures ShiftAll(c, bs) == ShiftAll(ShiftByte(c, bs[0], 8), bs[1..])
  {
  }

  lemma NoBytes(c: bv32)
    ensures ShiftAll(c, []) == c
  {
  }

  /** `crc_table` */
  method Table() returns (table: array<bv32>)
    ensures fresh(table) && table.Length == 256
    ensures forall i :: 0 <= i < 256 ==> table[i] == Entry(i)
  {
    hide Step;
    table := new bv32[256];
    for i := 0 to 256
      invariant forall j :: 0 <= j < i ==> table[j] == Entry(j)
    {
      var c := i as bv32;
      for k := 0 to 8
        invariant Steps(c, 8 - k) == Entry(i)
      {
        c := Step(c);
      }
      table[i] := c;
    }
  }

  /** `crc32` */
  method Crc32Of(data: seq<bv8>) returns (r: bv32)
    ensures r == Crc32(data)
  {
    hide Steps, ShiftByte, Index, Rest, Xor, ShiftAll, Entry;
    var t := Table();
    var c := ONES;
    for i := 0 to |data|
      invariant forall j :: 0 <= j < 256 ==> t[j] == Entry(j)
      invariant ShiftAll(c, data[i..]) == ShiftAll(ONES, data)
    {
      assert data[i..][0] == data[i] && data[i..][1..] == data[i + 1..];
      FirstByte(c, data[i..]);
      TableStep(c, data[i]);
      c := Xor(t[Index(c, data[i])], Rest(c));
    }
    NoBytes(c);
    return c ^ ONES;
  }

  // ---- what the checksum detects -------------------------------------------------------

  /** Up to four bytes, the first one lowest. */
  function Word(bs: seq<bv8>): bv32 {
    if bs == [] then 0 else Xor(Wide(bs[0]), Shl(Word(bs[1..]), 8))
  }

  lemma Extremes(b: bv8, w: bv32)
    ensures w <= 0 ==> Xor(Wide(b), Shl(w, 8)) <= 0xFF
    ensures w <= 0xFF ==> Xor(Wide(b), Shl(w, 8)) <= 0xFFFF
    ensures w <= 0xFFFF ==> Xor(Wide(b), Shl(w, 8)) <= 0xFF_FFFF
  {
  }

  lemma WordSize(bs: seq<bv8>)
    requires |bs| <= 3
    ensures Word(bs) <= 0xFF_FFFF
    ensures |bs| == 0 ==> Word(bs) <= 0
    ensures |bs| == 1 ==> Word(bs) <= 0xFF
    ensures |bs| == 2 ==> Word(bs) <= 0xFFFF
  {
    if bs != [] {
      WordSize(bs[1..]);
      Extremes(bs[0], Word(bs[1..]));
      hide Xor, Wide, Shl;
    }
  }

  lemma WordParts(b: bv8, w: bv32, b': bv8, w': bv32)
    requires w <= 0xFF_FFFF && w' <= 0xFF_FFFF
    requires Xor(Wide(b), Shl(w, 8)) == Xor(Wide(b'), Shl(w', 8))
    ensures b == b' && w == w'
  {
  }

  lemma {:induction false} WordInjective(a: seq<bv8>, b: seq<bv8>)
    requires |a| == |b| <= 4 && Word(a) == Word(b)
    ensures a == b
    decreases |a|
  {
    if a != [] {
      WordSize(a[1..]);
      WordSize(b[1..]);
      WordParts(a[0], Word(a[1..]), b[0], Word(b[1..]));
      WordInjective(a[1..], b[1..]);
      assert a == [a[0]] + a[1..] && b == [b[0]] + b[1..];
    }
  }

  lemma XorAssociates(a: bv32, b: bv32, c: bv32)
    ensures Xor(Xor(a, b), c) == Xor(a, Xor(b, c))
  {
  }

  /** Four bytes go through the register as one word. */
  lemma {:induction false} Window(c: bv32, bs: seq<bv8>)
    requires |bs| <= 4
    ensures ShiftAll(c, bs) == Steps(Xor(c, Word(bs)), 8 * |bs|)
    decreases |bs|
  {
    if bs == [] {
      XorZero(c);
    } else {
      var b, rest := bs[0], bs[1..];
      var w := Word(rest);
      WordSize(rest);
      OneByte(c, b);
      Window(ShiftByte(c, b, 8), rest);
      ShiftOut(w);
      StepsLinear(Xor(c, Wide(b)), Shl(w, 8), 8);
      XorAssociates(c, Wide(b), Shl(w, 8));
      StepsPlus(Xor(c, Word(bs)), 8, 8 * |rest|);
      assert Word(bs) == Xor(Wide(b), Shl(w, 8));
      hide *;
      FirstByte(c, bs);
    }
  }

  lemma XorInjective(x: bv32, y: bv32, z: bv32)
    ensures Xor(z, x) == Xor(z, y) ==> x == y
    ensures Xor(x, z) == Xor(y, z) ==> x == y
  {
  }

  lemma {:induction false} ShiftAllPlus(c: bv32, a: seq<bv8>, b: seq<bv8>)
    ensures ShiftAll(c, a + b) == ShiftAll(ShiftAll(c, a), b)
    decreases |a|
  {
    hide ShiftByte;
    if a == [] {
      assert a + b == b;
    } else {
      assert (a + b)[1..] == a[1..] + b;
      ShiftAllPlus(ShiftByte(c, a[0], 8), a[1..], b);
    }
  }

  /** Bytes that follow never hide a difference. */
  lemma {:induction false} ShiftAllInjective(c: bv32, c': bv32, data: seq<bv8>)
    requires ShiftAll(c, data) == ShiftAll(c', data)
    ensures c == c'
    decreases |data|
  {
    if data != [] {
      var b := data[0];
      OneByte(c, b);
      OneByte(c', b);
      hide ShiftByte, Xor, Wide, Steps;
      ShiftAllInjective(ShiftByte(c, b, 8), ShiftByte(c', b, 8), data[1..]);
      StepsInjective(Xor(c, Wide(b)), Xor(c', Wide(b)), 8);
      XorInjective(c, c', Wide(b));
    }
  }

  /** Damage within four consecutive bytes always shows in the checksum. */
  lemma BurstDetected(pre: seq<bv8>, a: seq<bv8>, b: seq<bv8>, post: seq<bv8>)
    requires |a| == |b| <= 4 && a != b
    ensures Crc32(pre + a + post) != Crc32(pre + b + post)
  {
    var c := ShiftAll(ONES, pre);
    ShiftAllPlus(ONES, pre + a, post);
    ShiftAllPlus(ONES, pre, a);
    ShiftAllPlus(ONES, pre + b, post);
    ShiftAllPlus(ONES, pre, b);
    Window(c, a);
    Window(c, b);
    hide ShiftAll, Steps, Xor, Word;
    var x, y := Xor(c, Word(a)), Xor(c, Word(b));
    if Crc32(pre + a + post) == Crc32(pre + b + post) {
      CrcCancels(ShiftAll(ONES, pre + a + post), ShiftAll(ONES, pre + b + post));
      ShiftAllInjective(ShiftAll(c, a), ShiftAll(c, b), post);
      StepsInjective(x, y, 8 * |a|);
      XorInjective(Word(a), Word(b), c);
      WordInjective(a, b);
    }
  }

  lemma CrcCancels(x: bv32, y: bv32)
    ensures x ^ ONES == y ^ ONES ==> x == y
  {
  }

  // ---- a known checksum ----------------------------------------------------------------

  /** The register after the eight bits of byte b, one after the other. */
  function EightBits(c: bv32, b: bv8): bv32 {
    var c1 := ShiftIn(c, (b & 1) == 1);
    var c2 := ShiftIn(c1, (b & 2) == 2);
    var c3 := ShiftIn(c2, (b & 4) == 4);
    var c4 := ShiftIn(c3, (b & 8) == 8);
    var c5 := ShiftIn(c4, (b & 16) == 16);
    var c6 := ShiftIn(c5, (b & 32) == 32);
    var c7 := ShiftIn(c6, (b & 64) == 64);
    ShiftIn(c7, (b & 128) == 128)
  }

  lemma LowBits(b: bv8)
    ensures ((b >> 1) & 1 == 1) == (b & 2 == 2) && ((b >> 1 >> 1) & 1 == 1) == (b & 4 == 4)
    ensures ((b >> 1 >> 1 >> 1) & 1 == 1) == (b & 8 == 8) && ((b >> 1 >> 1 >> 1 >> 1) & 1 == 1) == (b & 16 == 16)
    ensures ((b >> 1 >> 1 >> 1 >> 1 >> 1) & 1 == 1) == (b & 32 == 32)
    ensures ((b >> 1 >> 1 >> 1 >> 1 >> 1 >> 1) & 1 == 1) == (b & 64 == 64)
    ensures ((b >> 1 >> 1 >> 1 >> 1 >> 1 >> 1 >> 1) & 1 == 1) == (b & 128 == 128)
  {
  }

  lemma OneMoreBit(c: bv32, b: bv8, k: nat)
    ensures ShiftByte(c, b, k + 1) == ShiftByte(ShiftIn(c, (b & 1) == 1), b >> 1, k)
  {
  }

  lemma AllEightBits(c: bv32, b: bv8)
    ensures ShiftByte(c, b, 8) == EightBits(c, b)
  {
    LowBits(b);
    hide ShiftIn, ShiftByte;
    var b1, c1 := b >> 1, ShiftIn(c, (b & 1) == 1);
    var b2, c2 := b1 >> 1, ShiftIn(c1, (b & 2) == 2);
    var b3, c3 := b2 >> 1, ShiftIn(c2, (b & 4) == 4);
    var b4, c4 := b3 >> 1, ShiftIn(c3, (b & 8) == 8);
    var b5, c5 := b4 >> 1, ShiftIn(c4, (b & 16) == 16);
    var b6, c6 := b5 >> 1, ShiftIn(c5, (b & 32) == 32);
    var b7, c7 := b6 >> 1, ShiftIn(c6, (b & 64) == 64);
    OneMoreBit(c, b, 7);
    OneMoreBit(c1, b1, 6);
    OneMoreBit(c2, b2, 5);
    OneMoreBit(c3, b3, 4);
    OneMoreBit(c4, b4, 3);
    OneMoreBit(c5, b5, 2);
    OneMoreBit(c6, b6, 1);
    OneMoreBit(c7, b7, 0);
    NoMoreBits(ShiftIn(c7, (b & 128) == 128), b7 >> 1);
  }

  lemma NoMoreBits(c: bv32, b: bv8)
    ensures ShiftByte(c, b, 0) == c
  {
  }

  /** The check value of CRC-32: the checksum of the nine characters 123456789 */
  lemma CheckValue()
    ensures Crc32([49, 50, 51, 52, 53, 54, 55, 56, 57]) == 0xCBF4_3926
  {
    hide ShiftByte, ShiftAll;
    var data: seq<bv8> := [49, 50, 51, 52, 53, 54, 55, 56, 57];
    assert data[0..] == data && data[9..] == [];
    Feed(0xFFFF_FFFF, 0x7C23_1048, data, 0);
    Feed(0x7C23_1048, 0xB0AC_BB32, data, 1);
    Feed(0xB0AC_BB32, 0x77B7_9C2D, data, 2);
    Feed(0x77B7_9C2D, 0x641C_1F5C, data, 3);
    Feed(0x641C_1F5C, 0x340A_C5E3, data, 4);
    Feed(0x340A_C5E3, 0xF68D_2C9E, data, 5);
    Feed(0xF68D_2C9E, 0xAFFC_9660, data, 6);
    Feed(0xAFFC_9660, 0x651F_2550, data, 7);
    Feed(0x651F_2550, 0x340B_C6D9, data, 8);
    NoBytes(0x340B_C6D9);
  }

  lemma Feed(c: bv32, d: bv32, data: seq<bv8>, i: nat)
    requires i < |data| && EightBits(c, data[i]) == d
    ensures ShiftAll(c, data[i..]) == ShiftAll(d, data[i + 1..])
  {
    AllEightBits(c, data[i]);
    assert data[i..][1..] == data[i + 1..];
    FirstByte(c, data[i..]);
    hide ShiftAll, EightBits, ShiftByte;
  }
}
