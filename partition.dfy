/** How the shuffled pixels are split into work: `par_chunks(len / concurrency)`
    cuts them into slices of `len / concurrency` pixels (at least `concurrency`
    of them, run on rayon's pool), and the job for each slice splits it again
    with `chunks(CHUNK_SIZE)` into the batches it sends (crate/src/lib.rs:94-99). */
module Partition {
  import opened Wrappers
  import opened Pixels

  /** `CHUNK_SIZE` (crate/src/lib.rs:18). */
  const ChunkSize: nat := 5000

  /** Why the split panics: `len / concurrency` divides by zero, or gives a
      chunk size of zero, which `par_chunks` refuses. */
  datatype PartitionError = DivisionByZero | ZeroChunkSize

  /** Rust's `chunks(n)` / `par_chunks(n)`: consecutive pieces of length `n`,
      except that the last one may be shorter; an empty input has no pieces. */
  function Chunks<T>(s: seq<T>, n: nat): (r: seq<seq<T>>)
    requires n > 0
    ensures Concat(r) == s
    ensures forall i :: 0 <= i < |r| ==> 0 < |r[i]| <= n
    ensures forall i :: 0 <= i < |r| - 1 ==> |r[i]| == n
    decreases |s|
  {
    if |s| == 0 then []
    else if |s| <= n then [s]
    else [s[..n]] + Chunks(s[n..], n)
  }

  /** `chunks(n)` makes `ceil(|s| / n)` pieces. */
  lemma {:induction false} ChunksCount<T>(s: seq<T>, n: nat)
    requires n > 0
    ensures |Chunks(s, n)| == (|s| + n - 1) / n
    decreases |s|
  {
    if |s| == 0 {
      DivModUnique(0, n, n - 1);
    } else if |s| <= n {
      DivModUnique(1, n, |s| - 1);
    } else {
      ChunksCount(s[n..], n);
      DivPlus(|s| - 1, n);
    }
  }

  lemma DivPlus(a: nat, n: nat)
    requires n > 0
    ensures (a + n) / n == a / n + 1
  {
    DivModUnique(a / n + 1, n, a % n);
    assert (a / n + 1) * n + a % n == a + n;
  }

  /** `ceil(len / (len / k)) >= k`: cutting into pieces of `len / k` leaves at least `k` pieces. */
  lemma CeilDivAtLeast(len: nat, k: nat)
    requires 0 < k <= len
    ensures len / k > 0
    ensures (len + len / k - 1) / (len / k) >= k
  {
    var n := len / k;
    CeilAtLeast(len, k, n, (len + n - 1) / n, len % k, (len + n - 1) % n);
  }

  lemma CeilAtLeast(len: nat, k: nat, n: nat, c: nat, r: nat, r': nat)
    requires len == n * k + r && r < k && 0 < n
    requires len + n - 1 == c * n + r' && r' < n
    ensures c >= k
  {
    if c < k {
      assert (c + 1) * n == c * n + n;
      MulMonotone(c + 1, k, n);
    }
  }

  /** The slices of `par_chunks(len / concurrency)`, each `len / concurrency` pixels long but the last. */
  function Slices<T>(s: seq<T>, concurrency: nat): (r: seq<seq<T>>)
    requires 0 < concurrency <= |s|
    ensures Concat(r) == s
  {
    Chunks(s, |s| / concurrency)
  }

  /** Every worker's slice split into batches of at most `CHUNK_SIZE`, in slice order. */
  function Batches<T>(slices: seq<seq<T>>): (r: seq<seq<T>>)
    ensures Concat(r) == Concat(slices)
    ensures forall i :: 0 <= i < |r| ==> 0 < |r[i]| <= ChunkSize
  {
    if slices == [] then []
    else
      var first := Chunks(slices[0], ChunkSize);
      ConcatAppend(first, Batches(slices[1..]));
      first + Batches(slices[1..])
  }

  /** The whole split step; it fails exactly where the source panics. */
  function Split<T>(s: seq<T>, concurrency: nat): (r: Result<seq<seq<T>>, PartitionError>)
    ensures concurrency == 0 ==> r == Err(DivisionByZero)
    ensures concurrency > |s| ==> r == Err(ZeroChunkSize)
    ensures r.Ok? <==> 0 < concurrency <= |s|
    ensures r.Ok? ==> Concat(r.value) == s
    ensures r.Ok? ==> forall i :: 0 <= i < |r.value| ==> 0 < |r.value[i]| <= ChunkSize
  {
    if concurrency == 0 then Err(DivisionByZero)
    else if |s| / concurrency == 0 then Err(ZeroChunkSize)
    else Ok(Batches(Slices(s, concurrency)))
  }

  /** There are at least `concurrency` slices, every slice but the last holds
      exactly `len / concurrency` pixels, and the last one may hold fewer. */
  lemma SliceShape<T>(s: seq<T>, concurrency: nat)
    requires 0 < concurrency <= |s|
    ensures |Slices(s, concurrency)| >= concurrency
    ensures forall i :: 0 <= i < |Slices(s, concurrency)| - 1 ==> |Slices(s, concurrency)[i]| == |s| / concurrency
    ensures forall i :: 0 <= i < |Slices(s, concurrency)| ==> 0 < |Slices(s, concurrency)[i]| <= |s| / concurrency
  {
    CeilDivAtLeast(|s|, concurrency);
    ChunksCount(s, |s| / concurrency);
  }

  /** The slice count can exceed the requested concurrency: ten pixels split
      four ways give slices of two, hence five slices. */
  lemma MoreSlicesThanWorkers(s: seq<int>)
    requires |s| == 10
    ensures |Slices(s, 4)| == 5
  {
    ChunksCount(s, 2);
  }
}
