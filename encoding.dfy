/** The positional bit encoding shared by every fragment: a record position (a "column")
    belongs to shard col / W at offset col % W, and a row id r of that record is the bit
    r * W + col % W of the shard's bitmap, computed in uint64 arithmetic. */
module Encoding {
  import opened Words

  predicate IsPowerOfTwo(n: nat)
  {
    if n <= 1 then n == 1 else n % 2 == 0 && IsPowerOfTwo(n / 2)
  }

  /** The shard width: a power of two, at least 2 (shardwidth.ShardWidth). */
  type Width = w: u64 | 2 <= w && IsPowerOfTwo(w) witness 2

  lemma MulLeft(a: int, b: int, c: int)
    requires a >= 0 && b <= c
    ensures a * b <= a * c
  {
    var d := c - b;
    assert a * c == a * b + a * d;
  }

  lemma DivBelow(col: u64, w: Width)
    ensures 0 <= col / w < 0x8000_0000_0000_0000
  {
    var q, r := col / w, col % w;
    assert col == q * w + r && 0 <= r;
    if q < 0 {
      MulLeft(w, q, -1);
      assert false;
    }
    MulLeft(q, 2, w);
  }

  /** The shard a record position belongs to: col / W. */
  function ShardOf(col: u64, w: Width): (r: u64)
    ensures r * w <= col < r * w + w
  {
    DivBelow(col, w);
    col / w
  }

  /** The offset of a record position inside its shard: col % W. */
  function InShard(col: u64, w: Width): u64
  {
    col % w
  }

  /** row*W + col%W in uint64 arithmetic (wrapping modulo 2^64). */
  function BitPos(row: u64, col: u64, w: Width): u64
  {
    (row * w + col % w) % TWO64
  }

  /** The cache sentinel ^uint64(0) is never a real shard: the first record of every pass
      always looks its bitmap up. */
  lemma ShardNeverSentinel(col: u64, w: Width)
    ensures ShardOf(col, w) != MaxU64
  {
    DivBelow(col, w);
  }

  /** A record position is recovered from its shard and offset. */
  lemma {:induction false} ColumnDecomposes(col: u64, w: Width)
    ensures ShardOf(col, w) * w + InShard(col, w) == col
    ensures InShard(col, w) < w
  {
  }

  /** When the row is small enough that row*W does not wrap, the bit position names the
      row and the in-shard offset uniquely: dividing by W gives the row back, and the
      remainder is the offset. */
  lemma BitPosRoundTrip(row: u64, col: u64, w: Width)
    requires row < TWO64 / w
    ensures BitPos(row, col, w) == row * w + col % w
    ensures BitPos(row, col, w) / w == row
    ensures BitPos(row, col, w) % w == col % w
  {
    var off := col % w;
    assert row + 1 <= TWO64 / w;
    assert (row + 1) * w <= TWO64 / w * w <= TWO64;
    assert row * w + off < TWO64;
    LemmaDivOfSum(row, off, w);
  }

  lemma LemmaDivOfSum(q: int, r: int, w: int)
    requires w > 0 && 0 <= r < w && q >= 0
    ensures (q * w + r) / w == q && (q * w + r) % w == r
  {
    var n := q * w + r;
    var q', r' := n / w, n % w;
    assert n == q' * w + r' && 0 <= r' < w;
    assert (q - q') * w == r' - r;
    if q' < q {
      MulLeft(w, 1, q - q');
      assert false;
    } else if q' > q {
      MulLeft(w, 1, q' - q);
      assert false;
    }
  }

  /** Two (row, offset) pairs with rows below 2^64 / W land on different bits. */
  lemma BitPosInjective(r1: u64, c1: u64, r2: u64, c2: u64, w: Width)
    requires r1 < TWO64 / w && r2 < TWO64 / w
    requires r1 != r2 || c1 % w != c2 % w
    ensures BitPos(r1, c1, w) != BitPos(r2, c2, w)
  {
    BitPosRoundTrip(r1, c1, w);
    BitPosRoundTrip(r2, c2, w);
  }
}
