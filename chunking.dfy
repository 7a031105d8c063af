/** `chunk_list` of `src/foo/tasks.py`: split a list into consecutive chunks
    by repeatedly taking up to `chunkSize` items from one shared iterator
    (`islice`) until a take comes back empty. */
module Chunking {

  function Min(a: int, b: int): int
  {
    if a <= b then a else b
  }

  /** The chunks `chunk_list(lst, chunkSize)` yields, in order.  A take of
      zero items is empty at once, so a chunk size of 0 yields nothing. */
  function Chunks<T>(lst: seq<T>, chunkSize: nat): seq<seq<T>>
    decreases |lst|
  {
    if chunkSize == 0 || lst == [] then []
    else
      var n := Min(chunkSize, |lst|);
      [lst[..n]] + Chunks(lst[n..], chunkSize)
  }

  /** All chunks joined back together. */
  function Flatten<T>(chunks: seq<seq<T>>): seq<T>
  {
    if chunks == [] then [] else chunks[0] + Flatten(chunks[1..])
  }

  /** `chunk_list`: `pos` is how far the shared iterator has advanced, and
      each round takes the next `islice` of it; the first empty take ends
      the iteration. */
  method ChunkList<T>(lst: seq<T>, chunkSize: nat) returns (chunks: seq<seq<T>>)
    ensures chunks == Chunks(lst, chunkSize)
  {
    chunks := [];
    var pos := 0;
    var chunk := lst[pos..Min(pos + chunkSize, |lst|)];
    while chunk != []
      invariant 0 <= pos <= |lst|
      invariant chunk == lst[pos..Min(pos + chunkSize, |lst|)]
      invariant chunks + Chunks(lst[pos..], chunkSize) == Chunks(lst, chunkSize)
      decreases |lst| - pos
    {
      assert Chunks(lst[pos..], chunkSize) == [chunk] + Chunks(lst[pos + |chunk|..], chunkSize) by {
        assert lst[pos..][..|chunk|] == chunk;
        assert lst[pos..][|chunk|..] == lst[pos + |chunk|..];
      }
      chunks := chunks + [chunk];
      pos := pos + |chunk|;
      chunk := lst[pos..Min(pos + chunkSize, |lst|)];
    }
    assert chunkSize == 0 || lst[pos..] == [];
  }

  /** The chunks partition the list: joined together they give it back,
      same order, nothing dropped or repeated. */
  lemma {:induction false} FlattenChunks<T>(lst: seq<T>, chunkSize: nat)
    requires chunkSize >= 1
    ensures Flatten(Chunks(lst, chunkSize)) == lst
  {
    if lst != [] {
      var n := Min(chunkSize, |lst|);
      FlattenChunks(lst[n..], chunkSize);
      var cs := Chunks(lst, chunkSize);
      assert cs[0] == lst[..n] && cs[1..] == Chunks(lst[n..], chunkSize);
      assert lst[..n] + lst[n..] == lst;
    }
  }

  /** Chunk `i` is the slice starting at `i * chunkSize`: every chunk holds
      between 1 and `chunkSize` items, and only the last may be short. */
  lemma {:induction false} ChunkAt<T>(lst: seq<T>, chunkSize: nat, i: nat)
    requires chunkSize >= 1 && i < |Chunks(lst, chunkSize)|
    ensures i * chunkSize < |lst|
    ensures Chunks(lst, chunkSize)[i] == lst[i * chunkSize..Min(i * chunkSize + chunkSize, |lst|)]
  {
    var n := Min(chunkSize, |lst|);
    if i > 0 {
      var rest := lst[n..];
      ChunkAt(rest, chunkSize, i - 1);
      var start := (i - 1) * chunkSize;
      MulStep(i, chunkSize);
      assert n == chunkSize;
      assert Chunks(lst, chunkSize)[i] == Chunks(rest, chunkSize)[i - 1];
      assert rest[start..Min(start + chunkSize, |rest|)] ==
             lst[start + n..Min(start + chunkSize, |rest|) + n];
    }
  }

  lemma MulStep(i: int, k: int)
    ensures (i - 1) * k + k == i * k
  {
  }

  /** The shape promised for a positive chunk size: no chunk is empty, none
      is longer than `chunkSize`, and all but the last are full. */
  lemma {:induction false} ChunkSizes<T>(lst: seq<T>, chunkSize: nat)
    requires chunkSize >= 1
    ensures forall c :: c in Chunks(lst, chunkSize) ==> 0 < |c| <= chunkSize
    ensures forall i :: 0 <= i < |Chunks(lst, chunkSize)| - 1 ==> |Chunks(lst, chunkSize)[i]| == chunkSize
  {
    var cs := Chunks(lst, chunkSize);
    forall i | 0 <= i < |cs|
      ensures 0 < |cs[i]| <= chunkSize
      ensures i < |cs| - 1 ==> |cs[i]| == chunkSize
    {
      ChunkAt(lst, chunkSize, i);
      if i < |cs| - 1 {
        ChunkAt(lst, chunkSize, i + 1);
        assert (i + 1) * chunkSize == i * chunkSize + chunkSize;
      }
    }
  }

  /** There are `ceil(|lst| / chunkSize)` chunks for a positive chunk size,
      and none at all for an empty list or a chunk size of 0. */
  lemma {:induction false} ChunkCount<T>(lst: seq<T>, chunkSize: nat)
    ensures chunkSize == 0 || lst == [] ==> Chunks(lst, chunkSize) == []
    ensures chunkSize >= 1 ==> |Chunks(lst, chunkSize)| == (|lst| + chunkSize - 1) / chunkSize
  {
    if chunkSize >= 1 && lst != [] {
      var n := Min(chunkSize, |lst|);
      ChunkCount(lst[n..], chunkSize);
      if |lst| <= chunkSize {
        assert lst[n..] == [];
        DivOne(|lst| + chunkSize - 1, chunkSize);
      } else {
        DivShift(|lst| - 1, chunkSize);
      }
    }
  }

  lemma DivOne(x: int, k: int)
    requires k >= 1 && k <= x < 2 * k
    ensures x / k == 1
  {
  }

  lemma DivShift(x: int, k: int)
    requires k >= 1 && x >= 0
    ensures (x + k) / k == x / k + 1
  {
    var q, r := x / k, x % k;
    assert x == q * k + r;
    assert x + k == (q + 1) * k + r;
    DivUnique(x + k, k, q + 1, r);
  }

  lemma DivUnique(a: int, k: int, q: int, r: int)
    requires k >= 1 && 0 <= r < k && a == q * k + r
    ensures a / k == q
  {
    var q', r' := a / k, a % k;
    assert a == q' * k + r';
    assert (q - q') * k == r' - r;
    if q > q' {
      MulAtLeast(q - q', k);
    } else if q < q' {
      MulAtLeast(q' - q, k);
    }
  }

  lemma MulAtLeast(m: int, k: int)
    requires m >= 1 && k >= 1
    ensures m * k >= k
  {
  }
}
