/** The checksum of the second revision (`crc32`, bound to `t` in
    dist/index.js): a table-driven CRC-32 shifted most significant bit
    first, with no reflection and no final XOR; with its default seed
    0xFFFFFFFF and polynomial 0x04C11DB7 it is the CRC-32/MPEG-2 parameter
    set. The source computes on JavaScript numbers through `Int32Array` and
    the 32-bit bitwise operators; the register here is a `bv32` and the
    result is converted back to the signed number the source returns. */
module Crc32 {
  import opened Common

  const DefaultSeed: bv32 := 0xFFFF_FFFF
  const Polynomial: bv32 := 0x04C1_1DB7

  /** One shift of the table construction: shift left, and XOR the
      polynomial when the bit shifted out was set. */
  function Step(c: bv32, poly: bv32): bv32 {
    if c & 0x8000_0000 != 0 then (c << 1) ^ poly else c << 1
  }

  /** The inner table loop, `for (s = n; s > 0; --s)`. */
  function Steps(c: bv32, poly: bv32, n: nat): bv32
    decreases n
  {
    if n == 0 then c else Steps(Step(c, poly), poly, n - 1)
  }

  /** `n[k]`: table index k moved to the top of the register and shifted
      eight times. */
  function Entry(k: bv32, poly: bv32): bv32 {
    Steps(k << 24, poly, 8)
  }

  /** The table index of the fold, `255 & (i >> 24 ^ b)`. The source shifts
      arithmetically; the mask keeps only bits the two shifts agree on. */
  function Index(crc: bv32, x: bv32): (k: bv32) {
    ((crc >> 24) ^ x) & 0xFF
  }

  /** A byte as a 32-bit register. Written as a count rather than as
      `x as bv32`, whose integer value the solver cannot recover within the
      resource budget; each step here needs only one bit-vector increment. */
  function Widen(x: Byte): (r: bv32)
    ensures r as int == x && r < 256
  {
    if x == 0 then 0 else Widen(x - 1) + 1
  }

  /** One iteration of the fold loop, `i = i << 8 ^ n[...]`, for a byte
      held in a register. */
  function FoldBits(crc: bv32, x: bv32, poly: bv32): bv32 {
    (crc << 8) ^ Entry(Index(crc, x), poly)
  }

  /** The fold loop over all bytes, first to last. */
  function Fold(crc: bv32, data: seq<Byte>, poly: bv32): bv32
    decreases |data|
  {
    if |data| == 0 then crc else Fold(FoldBits(crc, Widen(data[0]), poly), data[1..], poly)
  }

  /** The signed value the 32-bit operators leave in a JavaScript number. */
  function Signed(x: bv32): (r: int)
    ensures -0x8000_0000 <= r < 0x8000_0000
  {
    var n := x as int;
    if n < 0x8000_0000 then n else n - 0x1_0000_0000
  }

  /** `crc32(data, seed, poly)`: the seed itself, untouched and unsigned,
      for empty input; the folded register as a signed 32-bit number
      otherwise. */
  function Crc32(data: seq<Byte>, seed: bv32, poly: bv32): (r: int)
    ensures |data| == 0 ==> r == seed as int
    ensures |data| > 0 ==> -0x8000_0000 <= r < 0x8000_0000
  {
    if |data| == 0 then seed as int else Signed(Fold(seed, data, poly))
  }

  /** `crc32(data)` with the default seed and polynomial, the checksum the
      codec calls. */
  function Checksum(data: seq<Byte>): (r: int)
    ensures |data| == 0 ==> r == 0xFFFF_FFFF
    ensures |data| > 0 ==> -0x8000_0000 <= r < 0x8000_0000
  {
    Crc32(data, DefaultSeed, Polynomial)
  }

  /* ---------------------------------------------------------------------
     Reference definition: the shift register fed one message bit at a time
     --------------------------------------------------------------------- */

  /** Feed the top bit of y: the polynomial is added when it differs from
      the bit leaving the register. */
  function BitStep(crc: bv32, y: bv32, poly: bv32): bv32 {
    if (crc >> 31) != (y >> 31) then (crc << 1) ^ poly else crc << 1
  }

  /** Feed the top n bits of y, most significant first. */
  function FeedBits(crc: bv32, y: bv32, n: nat, poly: bv32): bv32
    decreases n
  {
    if n == 0 then crc else FeedBits(BitStep(crc, y, poly), y << 1, n - 1, poly)
  }

  /** The bit-serial CRC over a byte sequence: each byte's eight bits, most
      significant first. */
  function BitwiseFold(crc: bv32, data: seq<Byte>, poly: bv32): bv32
    decreases |data|
  {
    if |data| == 0 then crc else BitwiseFold(FeedBits(crc, Widen(data[0]) << 24, 8, poly), data[1..], poly)
  }

  /** y shifted left n times, one place at a time. */
  function Shl(y: bv32, n: nat): bv32
    decreases n
  {
    if n == 0 then y else Shl(y << 1, n - 1)
  }

  /** The top n bits of y are clear. */
  predicate ZeroTop(y: bv32, n: nat)
    decreases n
  {
    n == 0 || (y >> 31 == 0 && ZeroTop(y << 1, n - 1))
  }

  /* ---------------------------------------------------------------------
     The shift is linear over XOR
     --------------------------------------------------------------------- */

  /** The top bit of c spread over a whole word. */
  function TopMask(c: bv32): bv32 {
    0 - (c >> 31)
  }

  /** The branch-free form of a shift. */
  function MaskStep(c: bv32, poly: bv32): bv32 {
    (c << 1) ^ (poly & TopMask(c))
  }

  lemma {:induction false} StepMasked(c: bv32, poly: bv32)
    ensures Step(c, poly) == MaskStep(c, poly)
  {
    if c & 0x8000_0000 != 0 {
      assert c >> 31 == 1;
    } else {
      assert c >> 31 == 0;
    }
  }

  lemma {:induction false} MaskStepXor(a: bv32, b: bv32, poly: bv32)
    ensures MaskStep(a ^ b, poly) == MaskStep(a, poly) ^ MaskStep(b, poly)
  {
  }

  /** One shift distributes over XOR. */
  lemma {:induction false} StepXor(a: bv32, b: bv32, poly: bv32)
    ensures Step(a ^ b, poly) == Step(a, poly) ^ Step(b, poly)
  {
    StepMasked(a ^ b, poly);
    StepMasked(a, poly);
    StepMasked(b, poly);
    MaskStepXor(a, b, poly);
  }

  /** So does any number of shifts. */
  lemma {:induction false} StepsXor(a: bv32, b: bv32, poly: bv32, n: nat)
    ensures Steps(a ^ b, poly, n) == Steps(a, poly, n) ^ Steps(b, poly, n)
    decreases n, 1
  {
    if n > 0 {
      StepsXorNext(a, b, poly, n - 1, n);
    }
  }

  lemma {:induction false} StepsXorNext(a: bv32, b: bv32, poly: bv32, m: nat, n: nat)
    requires n == m + 1
    ensures Steps(a ^ b, poly, n) == Steps(a, poly, n) ^ Steps(b, poly, n)
    decreases n, 0
  {
    StepXor(a, b, poly);
    StepsXor(Step(a, poly), Step(b, poly), poly, m);
  }

  lemma {:induction false} StepsXorAt(a: bv32, b: bv32, c: bv32, poly: bv32, n: nat)
    requires c == a ^ b
    ensures Steps(c, poly, n) == Steps(a, poly, n) ^ Steps(b, poly, n)
  {
    StepsXor(a, b, poly, n);
  }

  /* ---------------------------------------------------------------------
     Table lookup = eight shifts = eight message bits
     --------------------------------------------------------------------- */

  lemma {:induction false} BitStepMasked(c: bv32, y: bv32, poly: bv32)
    ensures BitStep(c, y, poly) == MaskStep(c ^ y, poly) ^ (y << 1)
  {
    assert (c ^ y) >> 31 == (c >> 31) ^ (y >> 31);
    if (c >> 31) != (y >> 31) {
      assert (c ^ y) >> 31 == 1;
    } else {
      assert (c ^ y) >> 31 == 0;
    }
  }

  /** A shift of c XOR y feeds the top bit of y into c and moves the rest
      of y along. */
  lemma {:induction false} StepSplit(c: bv32, y: bv32, poly: bv32, c1: bv32, y1: bv32)
    requires c1 == BitStep(c, y, poly) && y1 == y << 1
    ensures Step(c ^ y, poly) == c1 ^ y1
  {
    BitStepMasked(c, y, poly);
    StepMasked(c ^ y, poly);
  }

  lemma {:induction false} UnfoldSteps(x: bv32, s: bv32, poly: bv32, m: nat, n: nat)
    requires n == m + 1 && s == Step(x, poly)
    ensures Steps(x, poly, n) == Steps(s, poly, m)
  {
  }

  lemma {:induction false} UnfoldFeed(c: bv32, y: bv32, c1: bv32, y1: bv32, poly: bv32, m: nat, n: nat)
    requires n == m + 1 && c1 == BitStep(c, y, poly) && y1 == y << 1
    ensures FeedBits(c, y, n, poly) == FeedBits(c1, y1, m, poly)
  {
  }

  lemma {:induction false} UnfoldShl(y: bv32, y1: bv32, m: nat, n: nat)
    requires n == m + 1 && y1 == y << 1
    ensures Shl(y, n) == Shl(y1, m)
  {
  }

  /** Shifting n times with y XORed in feeds the top n bits of y and leaves
      the rest of y, moved up n places, in the register. */
  lemma {:induction false} StepsAsFeedBits(c: bv32, y: bv32, n: nat, poly: bv32)
    ensures Steps(c ^ y, poly, n) == FeedBits(c, y, n, poly) ^ Shl(y, n)
    decreases n, 1
  {
    if n > 0 {
      StepsAsFeedBitsNext(c, y, n - 1, n, poly);
    }
  }

  lemma {:induction false} StepsAsFeedBitsNext(c: bv32, y: bv32, m: nat, n: nat, poly: bv32)
    requires n == m + 1
    ensures Steps(c ^ y, poly, n) == FeedBits(c, y, n, poly) ^ Shl(y, n)
    decreases n, 0
  {
    var c1, y1 := BitStep(c, y, poly), y << 1;
    StepSplit(c, y, poly, c1, y1);
    StepsAsFeedBits(c1, y1, m, poly);
    UnfoldSteps(c ^ y, c1 ^ y1, poly, m, n);
    UnfoldFeed(c, y, c1, y1, poly, m, n);
    UnfoldShl(y, y1, m, n);
  }

  lemma {:induction false} ShlChain(y: bv32, y1: bv32, y2: bv32, y3: bv32, y4: bv32, y5: bv32, y6: bv32, y7: bv32, y8: bv32)
    requires y1 == y << 1 && y2 == y1 << 1 && y3 == y2 << 1 && y4 == y3 << 1
    requires y5 == y4 << 1 && y6 == y5 << 1 && y7 == y6 << 1 && y8 == y7 << 1
    ensures y8 == y << 8
  {
  }

  /** Eight single shifts are one shift by eight. */
  lemma {:induction false} Shl8(y: bv32)
    ensures Shl(y, 8) == y << 8
  {
    var y1 := y << 1;
    var y2 := y1 << 1;
    var y3 := y2 << 1;
    var y4 := y3 << 1;
    var y5 := y4 << 1;
    var y6 := y5 << 1;
    var y7 := y6 << 1;
    var y8 := y7 << 1;
    UnfoldShl(y, y1, 7, 8);
    UnfoldShl(y1, y2, 6, 7);
    UnfoldShl(y2, y3, 5, 6);
    UnfoldShl(y3, y4, 4, 5);
    UnfoldShl(y4, y5, 3, 4);
    UnfoldShl(y5, y6, 2, 3);
    UnfoldShl(y6, y7, 1, 2);
    UnfoldShl(y7, y8, 0, 1);
    ShlChain(y, y1, y2, y3, y4, y5, y6, y7, y8);
  }

  lemma {:induction false} StepNoTop(lo: bv32, poly: bv32)
    requires lo >> 31 == 0
    ensures Step(lo, poly) == lo << 1
  {
  }

  lemma {:induction false} UnfoldZeroTop(y: bv32, y1: bv32, m: nat, n: nat)
    requires n == m + 1 && y1 == y << 1
    ensures ZeroTop(y, n) == (y >> 31 == 0 && ZeroTop(y1, m))
  {
  }

  /** Shifting a register whose top n bits are clear n times adds no
      polynomial. */
  lemma {:induction false} StepsZeroTop(lo: bv32, n: nat, poly: bv32)
    requires ZeroTop(lo, n)
    ensures Steps(lo, poly, n) == Shl(lo, n)
    decreases n, 1
  {
    if n > 0 {
      StepsZeroTopNext(lo, n - 1, n, poly);
    }
  }

  lemma {:induction false} StepsZeroTopNext(lo: bv32, m: nat, n: nat, poly: bv32)
    requires n == m + 1 && ZeroTop(lo, n)
    ensures Steps(lo, poly, n) == Shl(lo, n)
    decreases n, 0
  {
    var lo1 := lo << 1;
    UnfoldZeroTop(lo, lo1, m, n);
    StepNoTop(lo, poly);
    StepsZeroTop(lo1, m, poly);
    UnfoldSteps(lo, lo1, poly, m, n);
    UnfoldShl(lo, lo1, m, n);
  }

  lemma {:induction false} ClearTopByte(y: bv32, y1: bv32, y2: bv32, y3: bv32, y4: bv32, y5: bv32, y6: bv32, y7: bv32)
    requires y & 0xFF00_0000 == 0
    requires y1 == y << 1 && y2 == y1 << 1 && y3 == y2 << 1 && y4 == y3 << 1
    requires y5 == y4 << 1 && y6 == y5 << 1 && y7 == y6 << 1
    ensures y >> 31 == 0 && y1 >> 31 == 0 && y2 >> 31 == 0 && y3 >> 31 == 0
    ensures y4 >> 31 == 0 && y5 >> 31 == 0 && y6 >> 31 == 0 && y7 >> 31 == 0
  {
  }

  lemma {:induction false} ZeroTop8(y: bv32)
    requires y & 0xFF00_0000 == 0
    ensures ZeroTop(y, 8)
  {
    var y1 := y << 1;
    var y2 := y1 << 1;
    var y3 := y2 << 1;
    var y4 := y3 << 1;
    var y5 := y4 << 1;
    var y6 := y5 << 1;
    var y7 := y6 << 1;
    var y8 := y7 << 1;
    ClearTopByte(y, y1, y2, y3, y4, y5, y6, y7);
    UnfoldZeroTop(y7, y8, 0, 1);
    UnfoldZeroTop(y6, y7, 1, 2);
    UnfoldZeroTop(y5, y6, 2, 3);
    UnfoldZeroTop(y4, y5, 3, 4);
    UnfoldZeroTop(y3, y4, 4, 5);
    UnfoldZeroTop(y2, y3, 5, 6);
    UnfoldZeroTop(y1, y2, 6, 7);
    UnfoldZeroTop(y, y1, 7, 8);
  }

  /** Eight shifts of a register whose top byte is clear add nothing. */
  lemma {:induction false} StepsLow(lo: bv32, poly: bv32, n: nat)
    requires lo & 0xFF00_0000 == 0 && n == 8
    ensures Steps(lo, poly, n) == lo << 8
  {
    ZeroTop8(lo);
    StepsZeroTop(lo, 8, poly);
    Shl8(lo);
  }

  lemma {:induction false} IndexSplit(crc: bv32, x: bv32, hi: bv32, lo: bv32)
    requires x < 256 && hi == Index(crc, x) << 24 && lo == crc & 0x00FF_FFFF
    ensures crc ^ (x << 24) == hi ^ lo
    ensures lo & 0xFF00_0000 == 0
    ensures lo << 8 == crc << 8
  {
  }

  lemma {:induction false} UnfoldFoldBits(crc: bv32, x: bv32, poly: bv32, k: bv32)
    requires k == Index(crc, x)
    ensures FoldBits(crc, x, poly) == (crc << 8) ^ Entry(k, poly)
  {
  }

  lemma {:induction false} UnfoldEntry(k: bv32, poly: bv32, hi: bv32, n: nat)
    requires hi == k << 24 && n == 8
    ensures Entry(k, poly) == Steps(hi, poly, n)
  {
  }

  lemma {:induction false} StepsParts(crc: bv32, poly: bv32, hi: bv32, lo: bv32, z: bv32, n: nat)
    requires z == hi ^ lo && Steps(lo, poly, n) == crc << 8
    ensures (crc << 8) ^ Steps(hi, poly, n) == Steps(z, poly, n)
  {
    StepsXorAt(hi, lo, z, poly, n);
  }

  lemma {:induction false} FoldBitsFromParts(crc: bv32, x: bv32, poly: bv32, z: bv32, n: nat, k: bv32, hi: bv32, lo: bv32)
    requires k == Index(crc, x) && z == hi ^ lo
    requires Entry(k, poly) == Steps(hi, poly, n) && Steps(lo, poly, n) == crc << 8
    ensures FoldBits(crc, x, poly) == Steps(z, poly, n)
  {
    UnfoldFoldBits(crc, x, poly, k);
    StepsParts(crc, poly, hi, lo, z, n);
  }

  /** The table lookup performs the eight shifts of one byte: the low 24
      bits of the register shift out unchanged and only the top byte, mixed
      with the message byte, picks up polynomial multiples. */
  lemma {:induction false} FoldBitsAsSteps(crc: bv32, x: bv32, poly: bv32, z: bv32, n: nat)
    requires x < 256 && z == crc ^ (x << 24) && n == 8
    ensures FoldBits(crc, x, poly) == Steps(z, poly, n)
  {
    var k := Index(crc, x);
    var hi := k << 24;
    var lo := crc & 0x00FF_FFFF;
    IndexSplit(crc, x, hi, lo);
    StepsLow(lo, poly, n);
    UnfoldEntry(k, poly, hi, n);
    FoldBitsFromParts(crc, x, poly, z, n, k, hi, lo);
  }

  lemma {:induction false} ShlByte(x: bv32)
    requires x < 256
    ensures (x << 24) << 8 == 0
  {
  }

  /** Feeding a byte's eight bits one at a time equals XORing the byte into
      the top of the register and shifting eight times. */
  lemma {:induction false} FeedByteAsSteps(crc: bv32, x: bv32, poly: bv32, y: bv32, z: bv32)
    requires x < 256 && y == x << 24 && z == crc ^ y
    ensures FeedBits(crc, y, 8, poly) == Steps(z, poly, 8)
  {
    StepsAsFeedBits(crc, y, 8, poly);
    Shl8(y);
    ShlByte(x);
  }

  lemma {:induction false} UnfoldFold(crc: bv32, data: seq<Byte>, poly: bv32, x: bv32, c1: bv32, rest: seq<Byte>)
    requires |data| > 0 && x == Widen(data[0]) && c1 == FoldBits(crc, x, poly) && rest == data[1..]
    ensures Fold(crc, data, poly) == Fold(c1, rest, poly)
  {
  }

  lemma {:induction false} UnfoldBitwise(crc: bv32, data: seq<Byte>, poly: bv32, y: bv32, c1: bv32, rest: seq<Byte>)
    requires |data| > 0 && y == Widen(data[0]) << 24 && c1 == FeedBits(crc, y, 8, poly) && rest == data[1..]
    ensures BitwiseFold(crc, data, poly) == BitwiseFold(c1, rest, poly)
  {
  }

  lemma {:induction false} FoldIsBitwiseNext(crc: bv32, data: seq<Byte>, poly: bv32, x: bv32, y: bv32, c1: bv32, rest: seq<Byte>)
    requires |data| > 0 && rest == data[1..] && x == Widen(data[0]) && y == x << 24
    requires c1 == FoldBits(crc, x, poly) && c1 == FeedBits(crc, y, 8, poly)
    requires Fold(c1, rest, poly) == BitwiseFold(c1, rest, poly)
    ensures Fold(crc, data, poly) == BitwiseFold(crc, data, poly)
  {
    UnfoldFold(crc, data, poly, x, c1, rest);
    UnfoldBitwise(crc, data, poly, y, c1, rest);
  }

  /** The table-driven fold is the bit-serial CRC. */
  lemma {:induction false} FoldIsBitwise(crc: bv32, data: seq<Byte>, poly: bv32)
    ensures Fold(crc, data, poly) == BitwiseFold(crc, data, poly)
    decreases |data|, 1
  {
    if |data| > 0 {
      FoldIsBitwiseStep(crc, data, poly);
    }
  }

  lemma {:induction false} FoldIsBitwiseStep(crc: bv32, data: seq<Byte>, poly: bv32)
    requires |data| > 0
    ensures Fold(crc, data, poly) == BitwiseFold(crc, data, poly)
    decreases |data|, 0
  {
    var x := Widen(data[0]);
    var y := x << 24;
    var z := crc ^ y;
    var c1 := FoldBits(crc, x, poly);
    var rest := data[1..];
    FoldBitsAsSteps(crc, x, poly, z, 8);
    FeedByteAsSteps(crc, x, poly, y, z);
    FoldIsBitwise(c1, rest, poly);
    FoldIsBitwiseNext(crc, data, poly, x, y, c1, rest);
  }

  /* ---------------------------------------------------------------------
     Error detection: a single altered byte always changes the checksum
     --------------------------------------------------------------------- */

  /** One shift keeps distinct registers distinct. */
  lemma {:induction false} StepInjective(a: bv32, b: bv32, poly: bv32)
    requires poly & 1 == 1 && a != b
    ensures Step(a, poly) != Step(b, poly)
  {
    ShiftDistinct(a, b, poly, Step(a, poly), Step(b, poly));
  }

  lemma {:induction false} ShiftDistinct(a: bv32, b: bv32, poly: bv32, sa: bv32, sb: bv32)
    requires poly & 1 == 1 && a != b
    requires sa == (if a & 0x8000_0000 != 0 then (a << 1) ^ poly else a << 1)
    requires sb == (if b & 0x8000_0000 != 0 then (b << 1) ^ poly else b << 1)
    ensures sa != sb
  {
  }

  /** Distinct registers stay distinct under any number of shifts. */
  lemma {:induction false} StepsInjective(a: bv32, b: bv32, poly: bv32, n: nat)
    requires poly & 1 == 1 && a != b
    ensures Steps(a, poly, n) != Steps(b, poly, n)
    decreases n, 1
  {
    if n > 0 {
      StepsInjectiveNext(a, b, poly, n - 1, n);
    }
  }

  lemma {:induction false} StepsInjectiveNext(a: bv32, b: bv32, poly: bv32, m: nat, n: nat)
    requires poly & 1 == 1 && a != b && n == m + 1
    ensures Steps(a, poly, n) != Steps(b, poly, n)
    decreases n, 0
  {
    var sa, sb := Step(a, poly), Step(b, poly);
    StepInjective(a, b, poly);
    StepsInjective(sa, sb, poly, m);
    UnfoldSteps(a, sa, poly, m, n);
    UnfoldSteps(b, sb, poly, m, n);
  }

  lemma {:induction false} DistinctAfterXor(c1: bv32, c2: bv32, x1: bv32, x2: bv32, z1: bv32, z2: bv32)
    requires x1 < 256 && x2 < 256 && z1 == c1 ^ (x1 << 24) && z2 == c2 ^ (x2 << 24)
    requires c1 != c2 || x1 != x2
    requires c1 == c2 || x1 == x2
    ensures z1 != z2
  {
  }

  /** One table step keeps distinct registers distinct, and tells distinct
      bytes apart from the same register. */
  lemma {:induction false} FoldBitsInjective(c1: bv32, c2: bv32, x1: bv32, x2: bv32, poly: bv32)
    requires poly & 1 == 1 && x1 < 256 && x2 < 256
    requires (c1 != c2 && x1 == x2) || (c1 == c2 && x1 != x2)
    ensures FoldBits(c1, x1, poly) != FoldBits(c2, x2, poly)
  {
    var z1, z2 := c1 ^ (x1 << 24), c2 ^ (x2 << 24);
    DistinctAfterXor(c1, c2, x1, x2, z1, z2);
    FoldBitsAsSteps(c1, x1, poly, z1, 8);
    FoldBitsAsSteps(c2, x2, poly, z2, 8);
    StepsInjective(z1, z2, poly, 8);
  }

  /** Distinct registers stay distinct over any common suffix of bytes. */
  lemma {:induction false} FoldInjective(c1: bv32, c2: bv32, data: seq<Byte>, poly: bv32)
    requires poly & 1 == 1 && c1 != c2
    ensures Fold(c1, data, poly) != Fold(c2, data, poly)
    decreases |data|, 1
  {
    if |data| > 0 {
      FoldInjectiveStep(c1, c2, data, poly);
    }
  }

  lemma {:induction false} FoldInjectiveStep(c1: bv32, c2: bv32, data: seq<Byte>, poly: bv32)
    requires poly & 1 == 1 && c1 != c2 && |data| > 0
    ensures Fold(c1, data, poly) != Fold(c2, data, poly)
    decreases |data|, 0
  {
    var x := Widen(data[0]);
    var rest := data[1..];
    var d1, d2 := FoldBits(c1, x, poly), FoldBits(c2, x, poly);
    FoldBitsInjective(c1, c2, x, x, poly);
    FoldInjective(d1, d2, rest, poly);
    UnfoldFold(c1, data, poly, x, d1, rest);
    UnfoldFold(c2, data, poly, x, d2, rest);
  }

  /** Folding a concatenation folds the second part from where the first
      part left the register. */
  lemma {:induction false} FoldAppend(crc: bv32, p: seq<Byte>, q: seq<Byte>, poly: bv32)
    ensures Fold(crc, p + q, poly) == Fold(Fold(crc, p, poly), q, poly)
    decreases |p|, 1
  {
    if |p| > 0 {
      FoldAppendStep(crc, p, q, poly);
    } else {
      assert p + q == q;
    }
  }

  lemma {:induction false} FoldAppendStep(crc: bv32, p: seq<Byte>, q: seq<Byte>, poly: bv32)
    requires |p| > 0
    ensures Fold(crc, p + q, poly) == Fold(Fold(crc, p, poly), q, poly)
    decreases |p|, 0
  {
    var x := Widen(p[0]);
    var c1 := FoldBits(crc, x, poly);
    var pq := p + q;
    assert pq[0] == p[0] && pq[1..] == p[1..] + q;
    FoldAppend(c1, p[1..], q, poly);
    UnfoldFold(crc, p, poly, x, c1, p[1..]);
    UnfoldFold(crc, pq, poly, x, c1, p[1..] + q);
  }

  lemma {:induction false} FoldPastByte(c: bv32, x: Byte, q: seq<Byte>, poly: bv32, d: bv32)
    requires d == FoldBits(c, Widen(x), poly)
    ensures Fold(c, [x] + q, poly) == Fold(d, q, poly)
  {
    var xq := [x] + q;
    assert xq[0] == x && xq[1..] == q;
    UnfoldFold(c, xq, poly, Widen(x), d, q);
  }

  lemma {:induction false} FoldAround(seed: bv32, p: seq<Byte>, x: Byte, q: seq<Byte>, poly: bv32, c: bv32, d: bv32)
    requires c == Fold(seed, p, poly) && d == FoldBits(c, Widen(x), poly)
    ensures Fold(seed, p + [x] + q, poly) == Fold(d, q, poly)
  {
    assert p + [x] + q == p + ([x] + q);
    FoldAppend(seed, p, [x] + q, poly);
    FoldPastByte(c, x, q, poly, d);
  }

  /** The fold tells apart any two messages that differ in exactly one
      byte: it detects every single-byte corruption. */
  lemma {:induction false} FoldDetectsByteChange(seed: bv32, p: seq<Byte>, x: Byte, y: Byte, q: seq<Byte>, poly: bv32)
    requires poly & 1 == 1 && x != y
    ensures Fold(seed, p + [x] + q, poly) != Fold(seed, p + [y] + q, poly)
  {
    var c := Fold(seed, p, poly);
    var dx, dy := FoldBits(c, Widen(x), poly), FoldBits(c, Widen(y), poly);
    FoldAround(seed, p, x, q, poly, c, dx);
    FoldAround(seed, p, y, q, poly, c, dy);
    FoldBitsInjective(c, c, Widen(x), Widen(y), poly);
    FoldInjective(dx, dy, q, poly);
  }

  lemma {:induction false} UnsignedInjective(a: bv32, b: bv32)
    requires a != b
    ensures a as int != b as int
  {
    assert (a as int) as bv32 == a;
  }

  /** Reading a register as a signed 32-bit integer loses nothing. */
  lemma {:induction false} SignedInjective(a: bv32, b: bv32)
    requires a != b
    ensures Signed(a) != Signed(b)
  {
    UnsignedInjective(a, b);
  }

  /** The codec's checksum changes whenever exactly one byte of a message
      changes, which is what lets decoding reject a corrupted payload. */
  lemma {:induction false} ChecksumDetectsByteChange(p: seq<Byte>, x: Byte, y: Byte, q: seq<Byte>)
    requires x != y
    ensures Checksum(p + [x] + q) != Checksum(p + [y] + q)
  {
    var px, py := p + [x] + q, p + [y] + q;
    FoldDetectsByteChange(DefaultSeed, p, x, y, q, Polynomial);
    var fx, fy := Fold(DefaultSeed, px, Polynomial), Fold(DefaultSeed, py, Polynomial);
    SignedInjective(fx, fy);
  }
}
