/** `Scene::render` (crate/src/lib.rs:65-151) with its concurrency
    serialised: enumerate the pixels, shuffle them in place, split them into
    batches, and let the aggregator consume the batches in whatever order the
    channel delivers them. */
module Render {
  import opened Wrappers
  import opened Pixels
  import opened Partition
  import opened Aggregator

  /** `pixels.shuffle(&mut rng)` (crate/src/lib.rs:79), the Fisher-Yates pass
      of `SliceRandom::shuffle`: for `i` from the last index down to 1 it swaps
      `a[i]` with `a[draws[i]]`. The random indices are a parameter, each at
      most its position; whatever they are, the result is a permutation. */
  method Shuffle(a: array<Pixel>, draws: seq<nat>)
    requires |draws| == a.Length
    requires forall i :: 0 <= i < |draws| ==> draws[i] <= i
    modifies a
    ensures multiset(a[..]) == old(multiset(a[..]))
  {
    var i := a.Length;
    while i > 1
      invariant 0 <= i <= a.Length
      invariant multiset(a[..]) == old(multiset(a[..]))
    {
      i := i - 1;
      var j := draws[i];
      a[i], a[j] := a[j], a[i];
    }
  }

  /** A permutation of a sequence without repetitions has none either. */
  lemma PermutationDistinct<T>(a: seq<T>, b: seq<T>)
    requires multiset(a) == multiset(b) && Distinct(b)
    ensures Distinct(a)
  {
    forall i, j | 0 <= i < j < |a| ensures a[i] != a[j] {
      if a[i] == a[j] {
        assert a == a[..j] + a[j..];
        assert a[i] in a[..j] && a[j] in a[j..];
        assert multiset(a)[a[i]] == multiset(a[..j])[a[i]] + multiset(a[j..])[a[i]];
        DistinctCount(b, a[i]);
        assert false;
      }
    }
  }

  /** After any shuffle and any successful split, the workers send every
      pixel once and only in-image pixels, so by `OffsetsDisjoint` no byte of
      the buffer is written twice and none outside it is written. */
  lemma NoPixelSentTwice(width: nat, height: nat, shuffled: seq<Pixel>, concurrency: nat)
    requires multiset(shuffled) == multiset(Enumerate(height, width))
    requires Split(shuffled, concurrency).Ok?
    ensures var sent := Concat(Split(shuffled, concurrency).value);
      |sent| == width * height &&
      (forall i :: 0 <= i < |sent| ==> InImage(sent[i], width, height)) &&
      (forall i, j :: 0 <= i < j < |sent| ==> Index(sent[i], width) != Index(sent[j], width))
  {
    var sent := Concat(Split(shuffled, concurrency).value);
    EnumerateLength(height, width);
    assert |sent| == |multiset(shuffled)|;
    EnumerateDistinct(height, width);
    PermutationDistinct(shuffled, Enumerate(height, width));
    forall i | 0 <= i < |sent| ensures InImage(sent[i], width, height) {
      assert sent[i] in multiset(Enumerate(height, width));
      EnumerateCoverage(height, width, sent[i]);
    }
    forall i, j | 0 <= i < j < |sent| ensures Index(sent[i], width) != Index(sent[j], width) {
      IndexRoundTrip(sent[i], width, height);
      IndexRoundTrip(sent[j], width, height);
    }
  }

  /** A pixel of a listed batch is a pixel of the concatenation. */
  lemma InConcat<T>(ss: seq<seq<T>>, k: nat, x: T)
    requires k < |ss| && x in ss[k]
    ensures x in Concat(ss)
  {
    ConcatRemove(ss, k);
    assert x in multiset(ss[k]);
    assert x in multiset(Concat(ss));
  }

  /** Every pixel of a batch still in the channel lies in the image. */
  lemma PendingInImage(width: nat, height: nat, received: multiset<Pixel>, pending: seq<seq<Pixel>>, k: nat)
    requires k < |pending|
    requires received + multiset(Concat(pending)) == multiset(Enumerate(height, width))
    ensures forall i :: 0 <= i < |pending[k]| ==> InImage(pending[k][i], width, height)
  {
    forall i | 0 <= i < |pending[k]| ensures InImage(pending[k][i], width, height) {
      InConcat(pending, k, pending[k][i]);
      assert pending[k][i] in multiset(Enumerate(height, width));
      EnumerateCoverage(height, width, pending[k][i]);
    }
  }

  /** Taking batch `k` off the channel keeps the bookkeeping of the render
      loop: what is received plus what is pending is still every pixel, and
      the painted set is still the set of received pixels. */
  lemma ReceiveStep(all: seq<Pixel>, received: multiset<Pixel>, done: set<Pixel>, pending: seq<seq<Pixel>>, k: nat)
    requires k < |pending|
    requires received + multiset(Concat(pending)) == multiset(all)
    requires forall p :: p in done <==> p in received
    ensures (received + multiset(pending[k])) + multiset(Concat(pending[..k] + pending[k + 1..])) == multiset(all)
    ensures forall p :: p in done + Elems(pending[k]) <==> p in received + multiset(pending[k])
    ensures |received + multiset(pending[k])| <= |all|
  {
    ConcatRemove(pending, k);
    assert |multiset(all)| == |all|;
  }

  /** Once every batch has been received, every in-image pixel has been painted. */
  lemma AllReceived(width: nat, height: nat, received: multiset<Pixel>, done: set<Pixel>)
    requires received == multiset(Enumerate(height, width))
    requires forall p :: p in done <==> p in received
    ensures forall p :: InImage(p, width, height) ==> p in done
  {
    forall p | InImage(p, width, height) ensures p in done {
      EnumerateCoverage(height, width, p);
      assert p in multiset(Enumerate(height, width));
    }
  }

  /** The whole render. It fails exactly when the split panics; otherwise,
      for every shuffle and every delivery order of the batches, the counter
      ends at `width * height` and the buffer holds the finished image. */
  method Render(width: nat, height: nat, concurrency: nat, draws: seq<nat>, gradient: Pixel -> (Byte, Byte))
    returns (r: Result<RenderContext, PartitionError>)
    requires |draws| == width * height
    requires forall i :: 0 <= i < |draws| ==> draws[i] <= i
    ensures r.Err? <==> concurrency == 0 || concurrency > width * height
    ensures concurrency == 0 ==> r.Err? && r.error == DivisionByZero
    ensures width * height < concurrency ==> r.Err? && r.error == ZeroChunkSize
    ensures r.Ok? ==> fresh(r.value) && fresh(r.value.data) && r.value.Valid()
    ensures r.Ok? ==> r.value.width == width && r.value.height == height
    ensures r.Ok? ==> r.value.counter == width * height
    ensures r.Ok? ==> r.value.data[..] == ExpectedImage(width, height, gradient)
  {
    var all := Enumerate(height, width);
    EnumerateLength(height, width);
    var pixels := new Pixel[|all|](i requires 0 <= i < |all| => all[i]);
    assert pixels[..] == all;
    Shuffle(pixels, draws);
    var shuffled := pixels[..];

    var ctx := new RenderContext(width, height);
    CanvasEmpty(width, height, gradient, ctx.data[..]);

    var split := Split(shuffled, concurrency);
    if split.Err? {
      return Err(split.error);
    }

    // The channel: any batch not yet received may be the next to arrive.
    var pending := split.value;
    ghost var received: multiset<Pixel> := multiset{};
    ghost var done: set<Pixel> := {};
    while pending != []
      invariant ctx.Valid() && fresh(ctx.data)
      invariant received + multiset(Concat(pending)) == multiset(all)
      invariant forall p :: p in done <==> p in received
      invariant ctx.counter == |received| <= width * height
      invariant ctx.data[..] == Canvas(width, height, done, gradient)
      decreases |pending|
    {
      var k :| 0 <= k < |pending|;
      var batch := pending[k];
      ReceiveStep(all, received, done, pending, k);
      PendingInImage(width, height, received, pending, k);
      PaintCanvas(width, height, gradient, done, batch);
      ctx.Receive(Shade(batch, gradient));
      received := received + multiset(batch);
      done := done + Elems(batch);
      pending := pending[..k] + pending[k + 1..];
    }

    AllReceived(width, height, received, done);
    CanvasFull(width, height, gradient, done);
    r := Ok(ctx);
  }
}
