/** A flat byte buffer seen as consecutive blocks of equal size, and the byte-level operations on blocks. */
module BlockBuffer {
  import opened Products

  type Block = seq<bv8>

  /** The number of elements that a signed count stands for: for the loops a negative one is none. */
  function Count(n: int): nat {
    if n < 0 then 0 else n
  }

  function Swap<T>(b: seq<T>, i: nat, j: nat): (r: seq<T>)
    requires i < |b| && j < |b|
    ensures |r| == |b|
    ensures r[i] == b[j] && r[j] == b[i]
    ensures forall k :: 0 <= k < |b| && k != i && k != j ==> r[k] == b[k]
  {
    b[i := b[j]][j := b[i]]
  }

  lemma {:induction false} BlocksApart(i: nat, j: nat, size: nat)
    requires i < j
    ensures Times(i, size) + size <= Times(j, size)
    decreases j
  {
    if i < j - 1 {
      BlocksApart(i, j - 1, size);
    }
  }

  function BlockAt(s: seq<bv8>, i: nat, size: nat): (r: Block)
    requires Times(i, size) + size <= |s|
    ensures |r| == size
  {
    s[Times(i, size)..Times(i, size) + size]
  }

  /** The first `n` blocks of a buffer. */
  function Blocks(s: seq<bv8>, n: nat, size: nat): (r: seq<Block>)
    requires Times(n, size) <= |s|
    ensures |r| == n
  {
    if n == 0 then []
    else
      Blocks(s, n - 1, size) + [BlockAt(s, n - 1, size)]
  }

  lemma {:induction false} BlocksIndex(s: seq<bv8>, n: nat, size: nat, i: nat)
    requires Times(n, size) <= |s| && i < n
    ensures Times(i, size) + size <= Times(n, size)
    ensures Blocks(s, n, size)[i] == s[Times(i, size)..Times(i, size) + size]
    decreases n
  {
    if i < n - 1 {
      BlocksIndex(s, n - 1, size, i);
    }
  }

  /** The blocks determine the bytes they cover. */
  lemma {:induction false} BlocksDetermineBytes(s: seq<bv8>, t: seq<bv8>, n: nat, size: nat)
    requires Times(n, size) <= |s| && Times(n, size) <= |t|
    ensures Blocks(s, n, size) == Blocks(t, n, size) <==> s[..Times(n, size)] == t[..Times(n, size)]
  {
    if n > 0 {
      var o := Times(n - 1, size);
      BlocksDetermineBytes(s, t, n - 1, size);
      var bs, bt := Blocks(s, n, size), Blocks(t, n, size);
      assert bs[..n - 1] == Blocks(s, n - 1, size) && bt[..n - 1] == Blocks(t, n - 1, size);
      assert bs[n - 1] == s[o..o + size] && bt[n - 1] == t[o..o + size];
      assert s[..o + size] == s[..o] + s[o..o + size] && t[..o + size] == t[..o] + t[o..o + size];
      if s[..o + size] == t[..o + size] {
        assert s[..o] == s[..o + size][..o] == t[..o] && s[o..o + size] == s[..o + size][o..] == t[o..o + size];
      }
    }
  }

  // ---------- memcpy of whole blocks ----------

  function Overwrite(s: seq<bv8>, at: nat, src: seq<bv8>): (r: seq<bv8>)
    requires at + |src| <= |s|
    ensures |r| == |s|
  {
    s[..at] + src + s[at + |src|..]
  }

  lemma OverwriteThere(s: seq<bv8>, at: nat, src: seq<bv8>)
    requires at + |src| <= |s|
    ensures Overwrite(s, at, src)[at..at + |src|] == src
  {
  }

  lemma OverwriteElsewhere(s: seq<bv8>, at: nat, src: seq<bv8>, o: nat, length: nat)
    requires at + |src| <= |s| && o + length <= |s|
    requires o + length <= at || at + |src| <= o
    ensures Overwrite(s, at, src)[o..o + length] == s[o..o + length]
  {
  }

  lemma OverwriteBefore(s: seq<bv8>, at: nat, src: seq<bv8>, end: nat)
    requires at + |src| <= end <= |s|
    ensures Overwrite(s, at, src)[end..] == s[end..]
  {
  }

  lemma UnwrittenBlock(s: seq<bv8>, t: seq<bv8>, i: nat, k: nat, n: nat, size: nat, at: nat, src: Block)
    requires i < n && k < n && k != i && Times(n, size) <= |s| && |src| == size && at == Times(i, size)
    requires at + size <= |s| && t == Overwrite(s, at, src)
    ensures Blocks(t, n, size)[k] == Blocks(s, n, size)[k]
  {
    BlocksSeparate(k, i, n, size);
    BlocksIndex(t, n, size, k);
    BlocksIndex(s, n, size, k);
    OverwriteElsewhere(s, at, src, Times(k, size), size);
  }

  lemma WrittenBlock(s: seq<bv8>, t: seq<bv8>, i: nat, n: nat, size: nat, at: nat, src: Block)
    requires i < n && Times(n, size) <= |s| && |src| == size && at == Times(i, size)
    requires at + size <= |s| && t == Overwrite(s, at, src)
    ensures Blocks(t, n, size)[i] == src
  {
    BlocksIndex(t, n, size, i);
    OverwriteThere(s, at, src);
  }

  lemma OverwriteSetsBlock(s: seq<bv8>, t: seq<bv8>, i: nat, n: nat, size: nat, at: nat, src: Block)
    requires i < n && Times(n, size) <= |s| && |src| == size && at == Times(i, size)
    requires at + size <= |s| && t == Overwrite(s, at, src)
    ensures Blocks(t, n, size) == Blocks(s, n, size)[i := src]
  {
    var bs, bt := Blocks(s, n, size), Blocks(t, n, size);
    WrittenBlock(s, t, i, n, size, at, src);
    assert forall k :: 0 <= k < n && k != i ==> bt[k] == bs[k] by {
      forall k | 0 <= k < n && k != i ensures bt[k] == bs[k] {
        UnwrittenBlock(s, t, i, k, n, size, at, src);
      }
    }
  }

  method Memcpy(dst: array<bv8>, at: nat, src: seq<bv8>)
    requires at + |src| <= dst.Length
    modifies dst
    ensures dst[..] == Overwrite(old(dst[..]), at, src)
  {
    forall k | 0 <= k < |src| {
      dst[at + k] := src[k];
    }
  }

  /** memcpy of one element into slot `i` of a buffer of `n` slots. */
  method WriteBlock(a: array<bv8>, i: nat, n: nat, size: nat, src: Block)
    requires i < n && Times(n, size) <= a.Length && |src| == size
    modifies a
    ensures Blocks(a[..], n, size) == old(Blocks(a[..], n, size))[i := src]
    ensures a[Times(n, size)..] == old(a[Times(n, size)..])
  {
    BlocksApart(i, n, size);
    ghost var before := a[..];
    Memcpy(a, Times(i, size), src);
    OverwriteBefore(before, Times(i, size), src, Times(n, size));
    OverwriteSetsBlock(before, a[..], i, n, size, Times(i, size), src);
  }

  /** The bytes of slot `i`, as memcpy reads them. */
  method ReadBlock(a: array<bv8>, i: nat, n: nat, size: nat) returns (block: Block)
    requires i < n && Times(n, size) <= a.Length
    ensures block == Blocks(a[..], n, size)[i] && |block| == size
  {
    BlocksIndex(a[..], n, size, i);
    block := a[Times(i, size)..Times(i, size) + size];
  }

  /** memcpy of slot `i` to a caller's element. */
  method CopyBlock(dst: array<bv8>, a: array<bv8>, i: nat, n: nat, size: nat)
    requires i < n && Times(n, size) <= a.Length && dst.Length == size && dst != a
    modifies dst
    ensures dst[..] == Blocks(a[..], n, size)[i]
  {
    var block := ReadBlock(a, i, n, size);
    Memcpy(dst, 0, block);
    assert dst[..] == block;
  }

  // ---------- Utils_swapElements ----------

  predicate Separate(p: nat, q: nat, size: nat) {
    p == q || p + size <= q || q + size <= p
  }

  /** The buffer with the `size` bytes at offset `p` exchanged with those at offset `q`. */
  function SwapRegions(s: seq<bv8>, p: nat, q: nat, size: nat): (r: seq<bv8>)
    requires p + size <= |s| && q + size <= |s| && Separate(p, q, size)
    ensures |r| == |s|
  {
    seq(|s|, k requires 0 <= k < |s| =>
      if p <= k < p + size then s[q + k - p] else if q <= k < q + size then s[p + k - q] else s[k])
  }

  /** The loop, byte by byte. */
  method SwapBytes(first: array<bv8>, p: nat, second: array<bv8>, q: nat, size: nat)
    requires p + size <= first.Length && q + size <= second.Length && (first == second ==> Separate(p, q, size))
    modifies first, second
    ensures forall k :: 0 <= k < first.Length ==>
      first[k] == if p <= k < p + size then old(second[q + k - p])
                  else if first == second && q <= k < q + size then old(first[p + k - q]) else old(first[k])
    ensures first != second ==> forall k :: 0 <= k < second.Length ==>
      second[k] == if q <= k < q + size then old(first[p + k - q]) else old(second[k])
  {
    var index := size;
    while index != 0
      invariant 0 <= index <= size
      invariant forall k :: 0 <= k < first.Length ==>
        first[k] == if p + index <= k < p + size then old(second[q + k - p])
                    else if first == second && q + index <= k < q + size then old(first[p + k - q])
                    else old(first[k])
      invariant first != second ==> forall k :: 0 <= k < second.Length ==>
        second[k] == if q + index <= k < q + size then old(first[p + k - q]) else old(second[k])
    {
      index := index - 1;
      var temp := first[p + index];
      first[p + index] := second[q + index];
      second[q + index] := temp;
    }
  }

  /** The two regions lie in two buffers, or apart in one, or are the same. */
  method SwapElements(first: array<bv8>, p: nat, second: array<bv8>, q: nat, size: nat)
    requires p + size <= first.Length && q + size <= second.Length && (first == second ==> Separate(p, q, size))
    modifies first, second
    ensures first == second ==> first[..] == SwapRegions(old(first[..]), p, q, size)
    ensures first != second ==> first[..] == Overwrite(old(first[..]), p, old(second[..])[q..q + size])
    ensures first != second ==> second[..] == Overwrite(old(second[..]), q, old(first[..])[p..p + size])
  {
    ghost var s, t := first[..], second[..];
    SwapBytes(first, p, second, q, size);
    if first == second {
      SwapRegionsIs(s, first[..], p, q, size);
    } else {
      OverwriteIs(s, first[..], p, t, q, size);
      OverwriteIs(t, second[..], q, s, p, size);
    }
  }

  lemma OverwriteIs(s: seq<bv8>, r: seq<bv8>, at: nat, t: seq<bv8>, from: nat, size: nat)
    requires at + size <= |s| == |r| && from + size <= |t|
    requires forall k :: 0 <= k < |s| ==> r[k] == if at <= k < at + size then t[from + k - at] else s[k]
    ensures r == Overwrite(s, at, t[from..from + size])
  {
    assert r[..at] == s[..at] && r[at..at + size] == t[from..from + size] && r[at + size..] == s[at + size..];
    assert r == r[..at] + r[at..at + size] + r[at + size..];
  }

  lemma SwapRegionsIs(s: seq<bv8>, r: seq<bv8>, p: nat, q: nat, size: nat)
    requires p + size <= |s| == |r| && q + size <= |s| && Separate(p, q, size)
    requires forall k {:trigger r[k]} :: 0 <= k < |s| ==>
      r[k] == if p <= k < p + size then s[q + k - p] else if q <= k < q + size then s[p + k - q] else s[k]
    ensures r == SwapRegions(s, p, q, size)
  {
  }

  lemma SwapRegionsElsewhere(s: seq<bv8>, p: nat, q: nat, size: nat, o: nat, length: nat)
    requires p + size <= |s| && q + size <= |s| && Separate(p, q, size) && o + length <= |s|
    requires o + length <= p || p + size <= o
    requires o + length <= q || q + size <= o
    ensures SwapRegions(s, p, q, size)[o..o + length] == s[o..o + length]
  {
  }

  lemma BlocksSeparate(i: nat, j: nat, n: nat, size: nat)
    requires i < n && j < n
    ensures Times(i, size) + size <= Times(n, size)
    ensures Separate(Times(i, size), Times(j, size), size)
    ensures i != j ==> Times(i, size) + size <= Times(j, size) || Times(j, size) + size <= Times(i, size)
  {
    BlocksApart(i, n, size);
    if i < j {
      BlocksApart(i, j, size);
    } else if j < i {
      BlocksApart(j, i, size);
    }
  }

  lemma SwapIsTwoWrites(s: seq<bv8>, p: nat, q: nat, size: nat)
    requires p + size <= |s| && q + size <= |s| && Separate(p, q, size)
    ensures SwapRegions(s, p, q, size) == Overwrite(Overwrite(s, p, s[q..q + size]), q, s[p..p + size])
  {
  }

  lemma TwoWritesSwap(s: seq<bv8>, u: seq<bv8>, t: seq<bv8>, i: nat, j: nat, n: nat, size: nat, x: Block, y: Block)
    requires i < n && j < n && Times(n, size) <= |s| && |x| == |y| == size
    requires Times(i, size) + size <= |s| && Times(j, size) + size <= |s|
    requires x == Blocks(s, n, size)[i] && y == Blocks(s, n, size)[j]
    requires u == Overwrite(s, Times(i, size), y) && t == Overwrite(u, Times(j, size), x)
    ensures Blocks(t, n, size) == Swap(Blocks(s, n, size), i, j)
  {
    OverwriteSetsBlock(s, u, i, n, size, Times(i, size), y);
    OverwriteSetsBlock(u, t, j, n, size, Times(j, size), x);
  }

  lemma SwapRegionsSwapsBlocks(s: seq<bv8>, t: seq<bv8>, i: nat, j: nat, n: nat, size: nat, p: nat, q: nat)
    requires i < n && j < n && Times(n, size) <= |s|
    requires p == Times(i, size) && q == Times(j, size)
    requires p + size <= |s| && q + size <= |s| && Separate(p, q, size) && t == SwapRegions(s, p, q, size)
    ensures Blocks(t, n, size) == Swap(Blocks(s, n, size), i, j)
  {
    var x, y := s[p..p + size], s[q..q + size];
    assert x == Blocks(s, n, size)[i] && y == Blocks(s, n, size)[j] by {
      BlocksIndex(s, n, size, i);
      BlocksIndex(s, n, size, j);
    }
    assert t == Overwrite(Overwrite(s, p, y), q, x) by {
      SwapIsTwoWrites(s, p, q, size);
    }
    TwoWritesSwap(s, Overwrite(s, p, y), t, i, j, n, size, x, y);
  }

  // ---------- the buffer as the sorts use it ----------

  /** A byte string made of the blocks `b` and after them the bytes `rest`. */
  ghost predicate Shows(s: seq<bv8>, n: nat, size: nat, b: seq<Block>, rest: seq<bv8>) {
    Times(n, size) <= |s| && b == Blocks(s, n, size) && rest == s[Times(n, size)..]
  }

  ghost predicate Holds(a: array<bv8>, n: nat, size: nat, b: seq<Block>, rest: seq<bv8>)
    reads a
  {
    Shows(a[..], n, size, b, rest)
  }

  lemma SwapShows(s: seq<bv8>, t: seq<bv8>, i: nat, j: nat, n: nat, size: nat, b: seq<Block>, rest: seq<bv8>,
                  p: nat, q: nat)
    requires Shows(s, n, size, b, rest) && i < n && j < n && p == Times(i, size) && q == Times(j, size)
    requires p + size <= |s| && q + size <= |s| && Separate(p, q, size) && t == SwapRegions(s, p, q, size)
    ensures Shows(t, n, size, Swap(b, i, j), rest)
  {
    var end := Times(n, size);
    BlocksApart(i, n, size);
    BlocksApart(j, n, size);
    SwapRegionsSwapsBlocks(s, t, i, j, n, size, p, q);
    assert t[end..] == t[end..end + (|s| - end)] && rest == s[end..end + (|s| - end)];
    SwapRegionsElsewhere(s, p, q, size, end, |s| - end);
  }

  /** Utils_swapElements applied to two blocks of one buffer. */
  method SwapBlocks(a: array<bv8>, i: nat, j: nat, n: nat, size: nat, ghost b: seq<Block>, ghost rest: seq<bv8>)
    requires Holds(a, n, size, b, rest) && i < n && j < n
    modifies a
    ensures Holds(a, n, size, Swap(b, i, j), rest)
  {
    BlocksSeparate(i, j, n, size);
    BlocksSeparate(j, i, n, size);
    var p, q := Times(i, size), Times(j, size);
    ghost var before := a[..];
    SwapElements(a, p, a, q, size);
    SwapShows(before, a[..], i, j, n, size, b, rest, p, q);
  }

  /** The comparator called on two blocks of one buffer. */
  method Greater(a: array<bv8>, i: nat, j: nat, n: nat, size: nat, gt: (Block, Block) -> bool,
                 ghost b: seq<Block>, ghost rest: seq<bv8>) returns (r: bool)
    requires Holds(a, n, size, b, rest) && i < n && j < n
    ensures r == gt(b[i], b[j])
  {
    BlocksIndex(a[..], n, size, i);
    BlocksIndex(a[..], n, size, j);
    r := gt(a[Times(i, size)..Times(i, size) + size], a[Times(j, size)..Times(j, size) + size]);
  }
}
