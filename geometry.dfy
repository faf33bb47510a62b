/** Block geometry of the classic 9x9 board.
    The nine 3x3 blocks are numbered 0..8 from the top left to the bottom right, row-major. */
module Geometry {

  /** True when (r, c) is a cell of the 9x9 board. */
  predicate InGrid(r: int, c: int) {
    0 <= r < 9 && 0 <= c < 9
  }

  /** Cell (p, q) comes before cell (i, j) in row-major order. */
  predicate Precedes(p: int, q: int, i: int, j: int) {
    p < i || (p == i && q < j)
  }

  /** First row of block k. */
  function BlockTop(k: int): int {
    3 * (k / 3)
  }

  /** First column of block k. */
  function BlockLeft(k: int): int {
    3 * (k % 3)
  }

  /** True when cell (r, c) lies in the 3 rows and 3 columns of block k. */
  predicate InBlock(k: int, r: int, c: int) {
    BlockTop(k) <= r < BlockTop(k) + 3 && BlockLeft(k) <= c < BlockLeft(k) + 3
  }

  /** The block holding cell (r, c). */
  function ThreeByThreeIndex(r: int, c: int): (k: int)
    requires InGrid(r, c)
    ensures 0 <= k < 9
    ensures InBlock(k, r, c)
  {
    c / 3 + (r / 3) * 3
  }

  /** The block of a cell is the only block holding it: blocks tile the board
      with neither gaps nor overlaps. */
  lemma BlocksTile(k: int, r: int, c: int)
    requires 0 <= k < 9 && InGrid(r, c)
    ensures InBlock(k, r, c) <==> k == ThreeByThreeIndex(r, c)
  {
    if InBlock(k, r, c) {
      assert k / 3 == r / 3 && k % 3 == c / 3;
      assert k == 3 * (k / 3) + k % 3;
    }
  }

  /** The t-th cell of block k in row-major order lies in block k. */
  lemma BlockCell(k: int, t: int)
    requires 0 <= k < 9 && 0 <= t < 9
    ensures InGrid(BlockTop(k) + t / 3, BlockLeft(k) + t % 3)
    ensures ThreeByThreeIndex(BlockTop(k) + t / 3, BlockLeft(k) + t % 3) == k
  {
    BlocksTile(k, BlockTop(k) + t / 3, BlockLeft(k) + t % 3);
  }

  /** Where cell (r, c) sits inside its block, counted row-major from 0. */
  function OffsetInBlock(r: int, c: int): (t: int)
    requires InGrid(r, c)
    ensures 0 <= t < 9
    ensures BlockTop(ThreeByThreeIndex(r, c)) + t / 3 == r
    ensures BlockLeft(ThreeByThreeIndex(r, c)) + t % 3 == c
  {
    3 * (r % 3) + c % 3
  }

  /** The row and column bounds [r1, r2, c1, c2] (inclusive) of block `index`,
      read from a fixed table; an index outside 0..8 gives four zeros. */
  function Range(index: int): (range: seq<int>)
    ensures |range| == 4
    ensures 0 <= index < 9 ==>
      range == [BlockTop(index), BlockTop(index) + 2, BlockLeft(index), BlockLeft(index) + 2]
    ensures !(0 <= index < 9) ==> range == [0, 0, 0, 0]
  {
    match index
    case 0 => [0, 2, 0, 2]
    case 1 => [0, 2, 3, 5]
    case 2 => [0, 2, 6, 8]
    case 3 => [3, 5, 0, 2]
    case 4 => [3, 5, 3, 5]
    case 5 => [3, 5, 6, 8]
    case 6 => [6, 8, 0, 2]
    case 7 => [6, 8, 3, 5]
    case 8 => [6, 8, 6, 8]
    case _ => [0, 0, 0, 0]
  }
}
