/** The single aggregator of `Scene::render` and the render context it feeds
    (crate/src/lib.rs:47-55, 123-169): it owns the RGBA buffer and the
    progress counter, and for each batch it receives it adds the batch's
    length to the counter and writes each pixel's four bytes. */
module Aggregator {
  import opened Wrappers
  import opened Pixels

  /** `base_index` of a coloured pixel: `4 * (x * width + y)`. */
  function Offset(c: PixelColor, width: nat): (r: nat)
    ensures r % 4 == 0 && r / 4 == Index(Pixel(c.x, c.y), width)
  {
    4 * (c.x * width + c.y)
  }

  /** Every pixel of the batch has its four bytes inside a buffer of `len`
      bytes (otherwise the indexing at crate/src/lib.rs:133-136 panics). */
  ghost predicate BatchFits(batch: seq<PixelColor>, width: nat, len: nat)
  {
    forall i :: 0 <= i < |batch| ==> Offset(batch[i], width) + 3 < len
  }

  /** The buffer after one pixel's four writes. */
  function WritePixel(buf: seq<Byte>, width: nat, c: PixelColor): (r: seq<Byte>)
    requires Offset(c, width) + 3 < |buf|
    ensures |r| == |buf|
    ensures forall k :: 0 <= k < 4 ==> r[Offset(c, width) + k] == Channel(c, k)
    ensures forall k :: 0 <= k < |buf| && !(Offset(c, width) <= k < Offset(c, width) + 4) ==> r[k] == buf[k]
  {
    var o := Offset(c, width);
    buf[o := c.r][o + 1 := c.g][o + 2 := c.b][o + 3 := c.a]
  }

  /** The buffer after a batch's writes, in batch order. */
  function Paint(buf: seq<Byte>, width: nat, batch: seq<PixelColor>): (r: seq<Byte>)
    requires BatchFits(batch, width, |buf|)
    ensures |r| == |buf|
    decreases |batch|
  {
    if batch == [] then buf
    else
      var last := |batch| - 1;
      WritePixel(Paint(buf, width, batch[..last]), width, batch[last])
  }

  /** A batch changes no byte outside the four-byte ranges of its own pixels. */
  lemma {:induction false} PaintOutside(buf: seq<Byte>, width: nat, batch: seq<PixelColor>, k: nat)
    requires BatchFits(batch, width, |buf|) && k < |buf|
    requires forall i :: 0 <= i < |batch| ==> !(Offset(batch[i], width) <= k < Offset(batch[i], width) + 4)
    ensures Paint(buf, width, batch)[k] == buf[k]
    decreases |batch|
  {
    if batch != [] {
      var last := |batch| - 1;
      assert BatchFits(batch[..last], width, |buf|) by {
        forall i | 0 <= i < last ensures Offset(batch[..last][i], width) + 3 < |buf| {
          assert batch[..last][i] == batch[i];
        }
      }
      forall i | 0 <= i < last
        ensures !(Offset(batch[..last][i], width) <= k < Offset(batch[..last][i], width) + 4)
      {
        assert batch[..last][i] == batch[i];
      }
      PaintOutside(buf, width, batch[..last], k);
    }
  }

  /** The render context: the shared buffer, its geometry and the progress counter. */
  class RenderContext {
    const width: nat
    const height: nat
    const data: array<Byte>
    var counter: nat

    /** The buffer has `4 * width * height` bytes (crate/src/lib.rs:83). */
    ghost predicate Valid()
      reads this
    {
      data.Length == 4 * width * height
    }

    /** A zero-filled buffer and a zero counter (crate/src/lib.rs:83, 123). */
    constructor (width: nat, height: nat)
      ensures Valid() && fresh(data)
      ensures this.width == width && this.height == height && counter == 0
      ensures forall k :: 0 <= k < data.Length ==> data[k] == 0
    {
      this.width := width;
      this.height := height;
      data := new Byte[4 * width * height](_ => 0);
      counter := 0;
    }

    /** The body of the aggregator loop for one received batch
        (crate/src/lib.rs:127-137): the counter grows by the batch length and
        each pixel's four bytes are written, later pixels over earlier ones. */
    method Receive(batch: seq<PixelColor>)
      requires Valid() && BatchFits(batch, width, data.Length)
      modifies this, data
      ensures Valid()
      ensures counter == old(counter) + |batch|
      ensures data[..] == Paint(old(data[..]), width, batch)
    {
      counter := counter + |batch|;
      var i := 0;
      while i < |batch|
        invariant 0 <= i <= |batch|
        invariant counter == old(counter) + |batch|
        invariant BatchFits(batch[..i], width, data.Length)
        invariant data[..] == Paint(old(data[..]), width, batch[..i])
      {
        var c := batch[i];
        ghost var before := data[..];
        assert Offset(c, width) + 3 < data.Length;
        var base := 4 * (c.x * width + c.y);
        data[base + 0] := c.r;
        data[base + 1] := c.g;
        data[base + 2] := c.b;
        data[base + 3] := c.a;
        assert data[..] == WritePixel(before, width, c);
        assert batch[..i + 1][..i] == batch[..i] && batch[..i + 1][i] == c;
        i := i + 1;
      }
      assert batch[..i] == batch;
    }

    /** `get_current_progress` (crate/src/lib.rs:166-169): the fraction of
        pixels received so far. `None` stands for the floating-point NaN or
        infinity of a division by an empty image. */
    function GetCurrentProgress(): (p: Option<real>)
      reads this
      ensures p.None? <==> width * height == 0
      ensures p.Some? ==> p.value * (width * height) as real == counter as real
      ensures p.Some? && counter <= width * height ==> 0.0 <= p.value <= 1.0
      ensures p.Some? ==> (p.value == 1.0 <==> counter == width * height)
    {
      if width * height == 0 then None
      else Some(counter as real / (width * height) as real)
    }
  }

  // ---------------------------------------------------------------------------
  // The buffer while a render is under way: the pixels received so far show
  // their colour and every other byte is still zero.

  /** The buffer in which exactly the pixels of `done` are painted. */
  ghost function Canvas(width: nat, height: nat, done: set<Pixel>, gradient: Pixel -> (Byte, Byte)): (r: seq<Byte>)
    ensures |r| == 4 * width * height
  {
    if width == 0 then []
    else
      seq(4 * width * height, k requires 0 <= k =>
        var p := PixelAt(k / 4, width);
        if p in done then Channel(ColorOf(p, gradient), k % 4) else 0)
  }

  /** A fresh buffer is the canvas with nothing painted. */
  lemma CanvasEmpty(width: nat, height: nat, gradient: Pixel -> (Byte, Byte), buf: seq<Byte>)
    requires |buf| == 4 * width * height
    requires forall k :: 0 <= k < |buf| ==> buf[k] == 0
    ensures buf == Canvas(width, height, {}, gradient)
  {
  }

  /** With every in-image pixel painted the canvas is the finished image. */
  lemma CanvasFull(width: nat, height: nat, gradient: Pixel -> (Byte, Byte), done: set<Pixel>)
    requires forall p :: InImage(p, width, height) ==> p in done
    ensures Canvas(width, height, done, gradient) == ExpectedImage(width, height, gradient)
  {
    if width > 0 {
      var c, e := Canvas(width, height, done, gradient), ExpectedImage(width, height, gradient);
      forall k | 0 <= k < 4 * width * height ensures c[k] == e[k] {
        DivModUnique(k / 4, 4, k % 4);
        assert k / 4 < width * height;
        PixelAtRoundTrip(k / 4, width, height);
      }
    }
  }

  /** Writing the colour of an in-image pixel onto a canvas paints that pixel. */
  lemma WriteCanvas(width: nat, height: nat, gradient: Pixel -> (Byte, Byte), done: set<Pixel>, p: Pixel)
    requires InImage(p, width, height)
    ensures Offset(ColorOf(p, gradient), width) + 3 < 4 * width * height
    ensures WritePixel(Canvas(width, height, done, gradient), width, ColorOf(p, gradient))
         == Canvas(width, height, done + {p}, gradient)
  {
    OffsetInBounds(p, width, height, 3);
    var before := Canvas(width, height, done, gradient);
    var after := Canvas(width, height, done + {p}, gradient);
    var c := ColorOf(p, gradient);
    var w := WritePixel(before, width, c);
    var o := Offset(c, width);
    IndexRoundTrip(p, width, height);
    forall k | 0 <= k < 4 * width * height ensures w[k] == after[k] {
      var i := k / 4;
      DivModUnique(i, 4, k % 4);
      PixelAtRoundTrip(i, width, height);
      if o <= k < o + 4 {
        DivModUnique(Index(p, width), 4, k - o);
        assert w[k] == Channel(c, k - o);
      } else {
        assert i != Index(p, width);
        assert PixelAt(i, width) != p;
      }
    }
  }

  /** The colours of in-image pixels fit the buffer. */
  lemma ShadeFits(width: nat, height: nat, gradient: Pixel -> (Byte, Byte), batch: seq<Pixel>)
    requires forall i :: 0 <= i < |batch| ==> InImage(batch[i], width, height)
    ensures BatchFits(Shade(batch, gradient), width, 4 * width * height)
  {
    var colors := Shade(batch, gradient);
    forall i | 0 <= i < |batch| ensures Offset(colors[i], width) + 3 < 4 * width * height {
      OffsetInBounds(batch[i], width, height, 3);
    }
  }

  /** Painting a worker's batch onto a canvas paints exactly its pixels,
      whatever was painted before and in whatever order the pixels come. */
  lemma {:induction false} PaintCanvas(width: nat, height: nat, gradient: Pixel -> (Byte, Byte), done: set<Pixel>, batch: seq<Pixel>)
    requires forall i :: 0 <= i < |batch| ==> InImage(batch[i], width, height)
    ensures BatchFits(Shade(batch, gradient), width, 4 * width * height)
    ensures Paint(Canvas(width, height, done, gradient), width, Shade(batch, gradient))
         == Canvas(width, height, done + Elems(batch), gradient)
    decreases |batch|
  {
    ShadeFits(width, height, gradient, batch);
    if batch != [] {
      var last := |batch| - 1;
      var front := batch[..last];
      var colors := Shade(batch, gradient);
      assert colors[..last] == Shade(front, gradient);
      PaintCanvas(width, height, gradient, done, front);
      var mid := Canvas(width, height, done + Elems(front), gradient);
      assert Paint(Canvas(width, height, done, gradient), width, colors)
          == WritePixel(mid, width, colors[last]);
      WriteCanvas(width, height, gradient, done + Elems(front), batch[last]);
      assert Elems(front) + {batch[last]} == Elems(batch);
    } else {
      assert Elems(batch) == {};
    }
  }
}
