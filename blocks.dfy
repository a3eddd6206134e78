/** How an input of `n` bytes is cut into blocks of `blockSize` bytes, the
    last one possibly short. Both pipelines use this arithmetic: the encoder
    slices its input by it and the decoder places its output by it. */
module Blocks {
  import opened Bytes

  /** The intended block count, ceil(n / blockSize). */
  function BlockCount(n: nat, blockSize: nat): (k: nat)
    requires 0 < blockSize
    ensures n <= k * blockSize < n + blockSize
  {
    var k := (n + blockSize - 1) / blockSize;
    assert n + blockSize - 1 == k * blockSize + (n + blockSize - 1) % blockSize;
    k
  }

  lemma MulMonotone(a: nat, b: nat, c: nat)
    requires a <= b
    ensures a * c <= b * c
  {
  }

  /** Block `i` exists exactly when it starts inside the input. */
  lemma StartsInside(n: nat, blockSize: nat, i: nat)
    requires 0 < blockSize
    ensures i < BlockCount(n, blockSize) <==> i * blockSize < n
  {
    var k := BlockCount(n, blockSize);
    var r := (n + blockSize - 1) % blockSize;
    assert n + blockSize - 1 == k * blockSize + r && r < blockSize;
    if i < k {
      MulMonotone(i + 1, k, blockSize);
      assert (i + 1) * blockSize == i * blockSize + blockSize;
    } else {
      MulMonotone(k, i, blockSize);
    }
  }

  /** ceil: the blocks cover the input and the last one is not empty. */
  lemma BlockCountIsCeiling(n: nat, blockSize: nat)
    requires 0 < blockSize
    ensures n == 0 <==> BlockCount(n, blockSize) == 0
    ensures n < BlockCount(n, blockSize) * blockSize + blockSize
    ensures 0 < n ==> (BlockCount(n, blockSize) - 1) * blockSize < n <= BlockCount(n, blockSize) * blockSize
    ensures BlockCount(n, blockSize) <= n
  {
    var k := BlockCount(n, blockSize);
    StartsInside(n, blockSize, k);
    assert n <= k * blockSize;
    if n == 0 {
      DivideMultiplePlus(0, blockSize, blockSize - 1);
    }
    if 0 < k {
      StartsInside(n, blockSize, k - 1);
      assert (k - 1) * blockSize < n;
      MulMonotone(1, blockSize, k - 1);
      assert (k - 1) * blockSize + blockSize == k * blockSize;
    }
  }

  lemma MulAtLeast(a: int, d: nat)
    ensures a >= 1 ==> a * d >= d
    ensures a <= -1 ==> a * d + d <= 0
  {
  }

  /** Euclidean division of q * d + t by d, for 0 <= t < d. */
  lemma DivideMultiplePlus(q: nat, d: nat, t: nat)
    requires t < d
    ensures (q * d + t) / d == q
  {
    var n := q * d + t;
    assert n == n / d * d + n % d;
    assert (n / d - q) * d == t - n % d;
    MulAtLeast(n / d - q, d);
  }

  /** The count the encoder computes with the intended increment:
      n / blockSize, plus one when a short block remains. */
  lemma IncrementedCountIsCeiling(n: nat, blockSize: nat)
    requires 0 < blockSize
    ensures n / blockSize + (if n % blockSize != 0 then 1 else 0) == BlockCount(n, blockSize)
  {
    var q, r := n / blockSize, n % blockSize;
    assert n == q * blockSize + r;
    if r == 0 {
      DivideMultiplePlus(q, blockSize, blockSize - 1);
    } else {
      assert n + blockSize - 1 == (q + 1) * blockSize + (r - 1);
      DivideMultiplePlus(q + 1, blockSize, r - 1);
    }
  }

  /** Where the blocks before block `i` end: offset i * blockSize, or the end
      of the input once every block has been taken. */
  function End(n: nat, blockSize: nat, i: nat): (r: nat)
    ensures r <= n
  {
    if i * blockSize < n then i * blockSize else n
  }

  /** min(blockSize, n - i * blockSize), the length the compress loop passes
      for block `i`. */
  function BlockLength(n: nat, blockSize: nat, i: nat): (len: nat)
    requires 0 < blockSize && i < BlockCount(n, blockSize)
    ensures 0 < len <= blockSize
    ensures i * blockSize + len == End(n, blockSize, i + 1) <= n
    ensures len < blockSize ==> i + 1 == BlockCount(n, blockSize)
  {
    StartsInside(n, blockSize, i);
    StartsInside(n, blockSize, i + 1);
    assert (i + 1) * blockSize == i * blockSize + blockSize;
    if n - i * blockSize >= blockSize then blockSize else n - i * blockSize
  }

  /** Every block but the last holds blockSize bytes; the last holds
      n % blockSize of them, or blockSize when that is zero. */
  lemma BlockLengths(n: nat, blockSize: nat, i: nat)
    requires 0 < blockSize && i < BlockCount(n, blockSize)
    ensures i + 1 < BlockCount(n, blockSize) ==> BlockLength(n, blockSize, i) == blockSize
    ensures i + 1 == BlockCount(n, blockSize) ==>
      BlockLength(n, blockSize, i) == if n % blockSize == 0 then blockSize else n % blockSize
  {
    var k := BlockCount(n, blockSize);
    if i + 1 == k {
      IncrementedCountIsCeiling(n, blockSize);
      var q, r := n / blockSize, n % blockSize;
      assert n == q * blockSize + r;
      if r == 0 {
        assert i == q - 1;
        assert (q - 1) * blockSize + blockSize == q * blockSize;
      } else {
        assert i == q;
      }
    }
  }

  /** Block `i` of the input. */
  function Block(x: seq<byte>, blockSize: nat, i: nat): (b: seq<byte>)
    requires 0 < blockSize && i < BlockCount(|x|, blockSize)
    ensures |b| == BlockLength(|x|, blockSize, i)
  {
    var start, len := i * blockSize, BlockLength(|x|, blockSize, i);
    x[start .. start + len]
  }

  /** The first `k` blocks, one after another. */
  function Blocks(x: seq<byte>, blockSize: nat, k: nat): seq<byte>
    requires 0 < blockSize && k <= BlockCount(|x|, blockSize)
  {
    if k == 0 then [] else Blocks(x, blockSize, k - 1) + Block(x, blockSize, k - 1)
  }

  /** The blocks are consecutive and do not overlap: the first `k` of them
      make up the input up to End(k). */
  lemma {:induction false} BlocksArePrefix(x: seq<byte>, blockSize: nat, k: nat)
    requires 0 < blockSize && k <= BlockCount(|x|, blockSize)
    ensures Blocks(x, blockSize, k) == x[..End(|x|, blockSize, k)]
  {
    if k > 0 {
      BlocksArePrefix(x, blockSize, k - 1);
      StartsInside(|x|, blockSize, k - 1);
      var start, end := (k - 1) * blockSize, End(|x|, blockSize, k);
      assert End(|x|, blockSize, k - 1) == start;
      assert Block(x, blockSize, k - 1) == x[start..end];
      assert x[..end] == x[..start] + x[start..end];
      assert Blocks(x, blockSize, k) == x[..start] + x[start..end];
    }
  }

  /** All the blocks together are the whole input. */
  lemma BlocksCoverInput(x: seq<byte>, blockSize: nat)
    requires 0 < blockSize
    ensures Blocks(x, blockSize, BlockCount(|x|, blockSize)) == x
  {
    BlocksArePrefix(x, blockSize, BlockCount(|x|, blockSize));
    StartsInside(|x|, blockSize, BlockCount(|x|, blockSize));
    assert x[..|x|] == x;
  }
}
