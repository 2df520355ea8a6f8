/** `splitList`: a list cut into `chunksCount` consecutive chunks whose sizes
    differ by at most one, the chunks that get an extra element being the
    first ones ("left" overflow alignment) or the last ones ("right"). */
module Utils {
  import opened Arithmetic

  datatype OverflowAlign = Left | Right

  /** The size `splitList` gives chunk `j` of `c` for a list of `n`
      elements: n div c, plus one for the first n mod c chunks (Left) or the
      last n mod c chunks (Right). */
  function ChunkSize(n: int, c: int, j: int, align: OverflowAlign): int
    requires c > 0
  {
    n / c + (if (align == Left && j < n % c) || (align == Right && j >= c - n % c) then 1 else 0)
  }

  lemma ChunkSizeNonNegative(n: nat, c: int, j: int, align: OverflowAlign)
    requires c > 0
    ensures ChunkSize(n, c, j, align) >= 0
  {
    assert n == c * (n / c) + n % c;
    MulAboveMinusOne(c, n / c);
  }

  /** Chunk sizes differ by at most one. */
  lemma ChunkSizesBalanced(n: int, c: int, j: int, k: int, align: OverflowAlign)
    requires c > 0
    ensures -1 <= ChunkSize(n, c, j, align) - ChunkSize(n, c, k, align) <= 1
  {
  }

  /** The chunk element number `i` of the list is counted into. */
  function TargetChunk(i: int, c: int, align: OverflowAlign): (t: int)
    requires c > 0
    ensures 0 <= t < c
  {
    if align == Left then i % c else c - 1 - i % c
  }

  /** Counting element `i` in adds one to its own chunk and nothing to the others. */
  lemma ChunkSizeStep(i: int, c: int, j: int, align: OverflowAlign)
    requires 0 <= j < c
    ensures ChunkSize(i + 1, c, j, align) == ChunkSize(i, c, j, align) + (if j == TargetChunk(i, c, align) then 1 else 0)
  {
    DivModStep(i, c);
    var q, r := i / c, i % c;
    var t := TargetChunk(i, c, align);
    var before := ChunkSize(i, c, j, align);
    var after := ChunkSize(i + 1, c, j, align);
    if r == c - 1 {
      assert (i + 1) / c == q + 1 && (i + 1) % c == 0;
      assert after == q + 1;
      assert before == q + (if (align == Left && j < c - 1) || (align == Right && j >= 1) then 1 else 0);
    } else {
      assert (i + 1) / c == q && (i + 1) % c == r + 1;
      assert after == q + (if (align == Left && j < r + 1) || (align == Right && j >= c - r - 1) then 1 else 0);
      assert before == q + (if (align == Left && j < r) || (align == Right && j >= c - r) then 1 else 0);
    }
  }

  /** The sum of a sequence of numbers. */
  function Sum(s: seq<int>): int
    decreases |s|
  {
    if s == [] then 0 else Sum(s[..|s| - 1]) + s[|s| - 1]
  }

  lemma {:induction false} SumUpdate(s: seq<int>, k: int, v: int)
    requires 0 <= k < |s|
    ensures Sum(s[k := v]) == Sum(s) - s[k] + v
    decreases |s|
  {
    var t := s[k := v];
    if k < |s| - 1 {
      assert t[..|t| - 1] == s[..|s| - 1][k := v];
      SumUpdate(s[..|s| - 1], k, v);
    } else {
      assert t[..|t| - 1] == s[..|s| - 1];
    }
  }

  lemma SumPrefix(s: seq<int>, j: int)
    requires 0 <= j < |s|
    ensures Sum(s[..j + 1]) == Sum(s[..j]) + s[j]
  {
    assert s[..j + 1][..j] == s[..j];
  }

  lemma {:induction false} SumPrefixBound(s: seq<int>, j: int)
    requires 0 <= j <= |s|
    requires forall k | 0 <= k < |s| :: s[k] >= 0
    ensures Sum(s[..j]) <= Sum(s)
    decreases |s| - j
  {
    if j < |s| {
      SumPrefix(s, j);
      SumPrefixBound(s, j + 1);
    } else {
      assert s[..j] == s;
    }
  }

  /** The chunks laid end to end. */
  function Flatten<T>(chunks: seq<seq<T>>): seq<T>
    decreases |chunks|
  {
    if chunks == [] then [] else Flatten(chunks[..|chunks| - 1]) + chunks[|chunks| - 1]
  }

  lemma FlattenSnoc<T>(chunks: seq<seq<T>>, c: seq<T>)
    ensures Flatten(chunks + [c]) == Flatten(chunks) + c
  {
    assert (chunks + [c])[..|chunks|] == chunks;
  }

  /** The first half of `splitList`: `chunkSizes` starts as `chunksCount`
      zeroes and each element adds one to the chunk it is counted into. */
  method CountChunkSizes(n: nat, c: int, align: OverflowAlign) returns (chunkSizes: array<int>)
    requires c > 0
    ensures fresh(chunkSizes) && chunkSizes.Length == c
    ensures forall k | 0 <= k < c :: chunkSizes[k] == ChunkSize(n, c, k, align)
    ensures Sum(chunkSizes[..]) == n
  {
    chunkSizes := new int[c];
    for j := 0 to c
      invariant forall k | 0 <= k < j :: chunkSizes[k] == 0
    {
      chunkSizes[j] := 0;
    }
    assert chunkSizes[..] == seq(c, _ => 0);
    SumZeroes(c);
    for i := 0 to n
      invariant forall k | 0 <= k < c :: chunkSizes[k] == ChunkSize(i, c, k, align)
      invariant Sum(chunkSizes[..]) == i
    {
      var chunk := TargetChunk(i, c, align);
      ghost var before := chunkSizes[..];
      chunkSizes[chunk] := chunkSizes[chunk] + 1;
      assert chunkSizes[..] == before[chunk := before[chunk] + 1];
      SumUpdate(before, chunk, before[chunk] + 1);
      forall k | 0 <= k < c ensures chunkSizes[k] == ChunkSize(i + 1, c, k, align) {
        ChunkSizeStep(i, c, k, align);
      }
    }
  }

  /** The inner loop of `splitList`: `size` elements pushed from the cursor
      on, the cursor advancing past them. */
  method TakeChunk<T>(list: seq<T>, from: int, size: int) returns (chunk: seq<T>, next: int)
    requires 0 <= from && 0 <= size && from + size <= |list|
    ensures next == from + size && chunk == list[from..next]
  {
    chunk := [];
    next := from;
    for k := 0 to size
      invariant next == from + k
      invariant chunk == list[from..next]
    {
      chunk := chunk + [list[next]];
      next := next + 1;
    }
  }

  /** `splitList(list, chunksCount, overflowAlign)`. */
  method SplitList<T>(list: seq<T>, chunksCount: int, align: OverflowAlign) returns (result: seq<seq<T>>)
    ensures chunksCount <= 1 ==> result == [list]
    ensures chunksCount > 1 ==> |result| == chunksCount
    ensures Flatten(result) == list
    ensures chunksCount > 1 ==>
              forall j | 0 <= j < chunksCount :: |result[j]| == ChunkSize(|list|, chunksCount, j, align)
    ensures forall j, k | 0 <= j < |result| && 0 <= k < |result| :: -1 <= |result[j]| - |result[k]| <= 1
  {
    if chunksCount <= 1 {
      assert Flatten([list]) == Flatten([]) + list;
      return [list];
    }
    var c := chunksCount;
    var chunkSizes := CountChunkSizes(|list|, c, align);
    ghost var sizes := chunkSizes[..];
    forall k | 0 <= k < c ensures sizes[k] >= 0 {
      ChunkSizeNonNegative(|list|, c, k, align);
    }
    result := [];
    var i := 0;
    for j := 0 to c
      invariant chunkSizes[..] == sizes
      invariant i == Sum(sizes[..j])
      invariant |result| == j
      invariant forall m | 0 <= m < j :: |result[m]| == sizes[m]
      invariant i <= |list| && Flatten(result) == list[..i]
    {
      SumPrefix(sizes, j);
      SumPrefixBound(sizes, j + 1);
      assert chunkSizes[j] == sizes[j];
      var chunk;
      chunk, i := TakeChunk(list, i, chunkSizes[j]);
      FlattenSnoc(result, chunk);
      assert list[..i] == list[..Sum(sizes[..j])] + chunk;
      result := result + [chunk];
    }
    assert sizes[..c] == sizes;
    assert list[..i] == list;
    forall j, k | 0 <= j < c && 0 <= k < c ensures -1 <= |result[j]| - |result[k]| <= 1 {
      assert |result[j]| == sizes[j] && |result[k]| == sizes[k];
      ChunkSizesBalanced(|list|, c, j, k, align);
    }
  }

  lemma {:induction false} SumZeroes(c: nat)
    ensures Sum(seq(c, _ => 0)) == 0
  {
    if c > 0 {
      assert seq(c, _ => 0)[..c - 1] == seq(c - 1, _ => 0);
      SumZeroes(c - 1);
    }
  }
}
