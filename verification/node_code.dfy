/**
 * Node codes: the 32-bit address of a quadtree node. The level sits in the low
 * four bits; the x coordinate is dilated (bit k moved to bit 2k) and shifted
 * left by 4, the y coordinate dilated and shifted left by 5. All arithmetic is
 * on `bv32`, so the shifts drop bits exactly as the unsigned C# code does.
 */
module NodeCode {

  /** Largest level the quadtree is meant to reach. */
  const MAX_LEVEL: bv32 := 15

  /** Code of every face's root node. */
  const ROOT_NODE_CODE: bv32 := 0

  /** Spread the low 16 bits of `x` to the even bit positions. */
  function Dilate(x: bv32): (r: bv32)
    ensures r & 0xaaaa_aaaa == 0
  {
    var x1 := (x | (x << 8)) & 0x00ff00ff;
    var x2 := (x1 | (x1 << 4)) & 0x0f0f0f0f;
    var x3 := (x2 | (x2 << 2)) & 0x33333333;
    var x4 := (x3 | (x3 << 1)) & 0x55555555;
    x4 & 0x55555555
  }

  /** Gather the even bit positions of `x` back into its low 16 bits. */
  function Undilate(x: bv32): (r: bv32)
    ensures r < 0x1_0000
  {
    var x1 := (x | (x >> 1)) & 0x33333333;
    var x2 := (x1 | (x1 >> 2)) & 0x0f0f0f0f;
    var x3 := (x2 | (x2 >> 4)) & 0x00ff00ff;
    var x4 := (x3 | (x3 >> 8)) & 0x0000ffff;
    x4 & 0x0000ffff
  }

  datatype Decoded = Decoded(level: bv32, x: bv32, y: bv32)

  /** The code of node (level, x, y); the level keeps its low four bits. */
  function Encode(level: bv32, x: bv32, y: bv32): (c: bv32)
    ensures Level(c) == level & 0xf
  {
    (level & 0xf) | (Dilate(x) << 4) | (Dilate(y) << 5)
  }

  /** The level and coordinates a code names; a coordinate has at most fourteen bits. */
  function Decode(code: bv32): (d: Decoded)
    ensures d.level == Level(code) && d.x < 0x4000 && d.y < 0x4000
  {
    Decoded(code & 0xf, Undilate((code >> 4) & 0x05555555), Undilate((code >> 5) & 0x05555555))
  }

  /** The level of a code, read from its low four bits. */
  function Level(code: bv32): (l: bv32)
    ensures l <= MAX_LEVEL
  {
    code & 0xf
  }

  /** The quadrant of its parent a node occupies, read from the lowest coordinate bits. */
  function LastQuadrant(code: bv32): (q: bv32)
    ensures q < 4
  {
    (code & 0x30) >> 4
  }

  /** The codes of a node's four children, in quadrant order. */
  function GenerateChildren(code: bv32): (r: seq<bv32>)
    ensures |r| == 4
  {
    var inc := code + 1;
    var base := (inc & 0xf) | ((inc & !0xf) << 2);
    [base, base | 0x10, base | 0x20, base | 0x30]
  }

  lemma DilateRoundTrip(v: bv32)
    requires v < 0x1_0000
    ensures Undilate(Dilate(v)) == v
  {
  }

  lemma EncodeDecode(level: bv32, x: bv32, y: bv32)
    requires x < 0x1_0000 && y < 0x1_0000
    ensures Decode(Encode(level, x, y)) == Decoded(level & 0xf, x & 0x3fff, y & 0x3fff)
  {
  }

  /** The codec is exact on 14-bit coordinates and every level 0..15. */
  lemma RoundTrip(level: bv32, x: bv32, y: bv32)
    requires level <= 15 && x < 0x4000 && y < 0x4000
    ensures Decode(Encode(level, x, y)) == Decoded(level, x, y)
  {
    EncodeDecode(level, x, y);
  }

  /** A level-15 coordinate needs 15 bits, but only 14 survive the shifts. */
  lemma Level15IsLossy()
    ensures Decode(Encode(15, 0x4000, 0)) == Decoded(15, 0, 0)
  {
    EncodeDecode(15, 0x4000, 0);
  }

  lemma ChildLevel(code: bv32, k: nat)
    requires k < 4
    ensures |GenerateChildren(code)| == 4
    ensures Level(code) < MAX_LEVEL ==> Level(GenerateChildren(code)[k]) == Level(code) + 1
    ensures Level(code) == MAX_LEVEL ==> Level(GenerateChildren(code)[k]) == 0
  {
  }

  lemma ChildQuadrant(code: bv32, k: nat)
    requires k < 4
    ensures LastQuadrant(GenerateChildren(code)[k]) == k as bv32
  {
  }

  lemma ChildrenDistinct(code: bv32)
    ensures forall j, k | 0 <= j < k < 4 :: GenerateChildren(code)[j] != GenerateChildren(code)[k]
  {
  }

  /** Child k of node (level, x, y) is node (level + 1, 2x + k mod 2, 2y + k div 2). */
  lemma ChildCoordinates(level: bv32, x: bv32, y: bv32, k: bv32)
    requires level < 15 && x < 0x2000 && y < 0x2000 && k < 4
    ensures Decode(GenerateChildren(Encode(level, x, y))[k])
         == Decoded(level + 1, 2 * x + (k & 1), 2 * y + (k >> 1))
  {
  }
}
