/** Pixel coordinates of a `height × width` image, their row-major
    enumeration, the buffer offsets the aggregator writes, and the image a
    finished render must hold (crate/src/lib.rs). */
module Pixels {
  import opened Wrappers

  /** A pixel coordinate: row `x` (below the height) and column `y` (below the width). */
  datatype Pixel = Pixel(x: nat, y: nat)

  /** Rust's `PixelColor = (u32, u32, u8, u8, u8, u8)`: a coordinate and its RGBA bytes. */
  datatype PixelColor = PixelColor(x: nat, y: nat, r: Byte, g: Byte, b: Byte, a: Byte)

  predicate InImage(p: Pixel, width: nat, height: nat)
  {
    p.x < height && p.y < width
  }

  /** Linear pixel index `x * width + y`, the `base_index / 4` of the aggregator. */
  function Index(p: Pixel, width: nat): nat
  {
    p.x * width + p.y
  }

  /** The pixel whose linear index is `i`. */
  function PixelAt(i: nat, width: nat): Pixel
    requires width > 0
  {
    Pixel(i / width, i % width)
  }

  /** Byte `k` (0 = red … 3 = alpha) of a coloured pixel. */
  function Channel(c: PixelColor, k: nat): Byte
    requires k < 4
  {
    if k == 0 then c.r else if k == 1 then c.g else if k == 2 then c.b else c.a
  }

  // ---------------------------------------------------------------------------
  // Enumeration (crate/src/lib.rs:70-77): rows 0..height, each row's columns 0..width.

  /** The pixels of row `x`: `(x, 0), …, (x, width - 1)`. */
  function Row(x: nat, width: nat): (r: seq<Pixel>)
    ensures |r| == width
    ensures forall j :: 0 <= j < |r| ==> r[j].x == x && r[j].y < width
  {
    if width == 0 then [] else Row(x, width - 1) + [Pixel(x, width - 1)]
  }

  /** All pixel coordinates, row by row. */
  function Enumerate(height: nat, width: nat): (r: seq<Pixel>)
    ensures forall i :: 0 <= i < |r| ==> InImage(r[i], width, height)
  {
    if height == 0 then [] else Enumerate(height - 1, width) + Row(height - 1, width)
  }

  lemma {:induction false} RowAt(x: nat, width: nat, j: nat)
    requires j < width
    ensures Row(x, width)[j] == Pixel(x, j)
  {
    if j < width - 1 {
      RowAt(x, width - 1, j);
    }
  }

  lemma {:induction false} EnumerateLength(height: nat, width: nat)
    ensures |Enumerate(height, width)| == width * height
  {
    if height > 0 {
      EnumerateLength(height - 1, width);
      assert width * height == width * (height - 1) + width;
    }
  }

  /** Division by the width recovers row and column of a linear index. */
  lemma DivModUnique(q: nat, width: nat, j: nat)
    requires j < width
    ensures (q * width + j) / width == q && (q * width + j) % width == j
  {
    var n := q * width + j;
    var q', j' := n / width, n % width;
    assert q' * width + j' == q * width + j;
    if q' < q {
      assert (q - q') * width == q * width - q' * width;
      MulAtLeast(q - q', width);
    } else if q' > q {
      assert (q' - q) * width == q' * width - q * width;
      MulAtLeast(q' - q, width);
    }
  }

  lemma {:induction false} MulAtLeast(d: int, w: nat)
    requires d >= 1
    ensures d * w >= w
  {
    if d > 1 {
      MulAtLeast(d - 1, w);
      assert d * w == (d - 1) * w + w;
    }
  }

  lemma MulMonotone(a: nat, b: nat, w: nat)
    requires a <= b
    ensures a * w <= b * w
  {
    assert b * w == a * w + (b - a) * w;
  }

  /** The enumeration is row-major: entry `i` is the pixel with linear index `i`. */
  lemma {:induction false} EnumerateAt(height: nat, width: nat, i: nat)
    requires i < width * height
    ensures |Enumerate(height, width)| == width * height
    ensures Enumerate(height, width)[i] == PixelAt(i, width)
  {
    EnumerateLength(height, width);
    EnumerateLength(height - 1, width);
    var prefix := width * (height - 1);
    assert width * height == prefix + width;
    var e := Enumerate(height, width);
    assert e == Enumerate(height - 1, width) + Row(height - 1, width);
    if i < prefix {
      EnumerateAt(height - 1, width, i);
    } else {
      var j := i - prefix;
      RowAt(height - 1, width, j);
      assert e[i] == Pixel(height - 1, j);
      assert i == (height - 1) * width + j;
      DivModUnique(height - 1, width, j);
    }
  }

  /** Each pixel occurs at most once in the enumeration. */
  lemma EnumerateDistinct(height: nat, width: nat)
    ensures Distinct(Enumerate(height, width))
  {
    var e := Enumerate(height, width);
    EnumerateLength(height, width);
    forall i, j | 0 <= i < j < |e| ensures e[i] != e[j] {
      EnumerateAt(height, width, i);
      EnumerateAt(height, width, j);
      PixelAtRoundTrip(i, width, height);
      PixelAtRoundTrip(j, width, height);
    }
  }

  /** The enumeration holds exactly the in-image pixels. */
  lemma EnumerateCoverage(height: nat, width: nat, p: Pixel)
    ensures p in Enumerate(height, width) <==> InImage(p, width, height)
  {
    var e := Enumerate(height, width);
    EnumerateLength(height, width);
    if p in e {
      var i :| 0 <= i < |e| && e[i] == p;
      EnumerateAt(height, width, i);
      PixelAtRoundTrip(i, width, height);
    }
    if InImage(p, width, height) {
      IndexRoundTrip(p, width, height);
      EnumerateAt(height, width, Index(p, width));
    }
  }

  /** Every in-image pixel appears exactly once in the enumeration, and no other pixel appears. */
  lemma EnumerateCount(height: nat, width: nat, p: Pixel)
    ensures InImage(p, width, height) ==> multiset(Enumerate(height, width))[p] == 1
    ensures !InImage(p, width, height) ==> multiset(Enumerate(height, width))[p] == 0
  {
    EnumerateDistinct(height, width);
    EnumerateCoverage(height, width, p);
    DistinctCount(Enumerate(height, width), p);
  }

  // ---------------------------------------------------------------------------
  // Offsets of the aggregator's writes (crate/src/lib.rs:131-136).

  /** An in-image pixel has its linear index below `width * height`, and that index leads back to it. */
  lemma IndexRoundTrip(p: Pixel, width: nat, height: nat)
    requires InImage(p, width, height)
    ensures Index(p, width) < width * height
    ensures PixelAt(Index(p, width), width) == p
  {
    DivModUnique(p.x, width, p.y);
    assert p.x * width + width == (p.x + 1) * width;
    MulMonotone(p.x + 1, height, width);
  }

  /** Every index below `width * height` is the index of exactly one in-image pixel. */
  lemma PixelAtRoundTrip(i: nat, width: nat, height: nat)
    requires i < width * height
    ensures width > 0
    ensures InImage(PixelAt(i, width), width, height)
    ensures Index(PixelAt(i, width), width) == i
  {
    assert width > 0;
    if i / width >= height {
      assert i >= (i / width) * width >= height * width;
    }
  }

  /** The four bytes written for an in-image pixel lie inside the `4 * width * height` buffer. */
  lemma OffsetInBounds(p: Pixel, width: nat, height: nat, k: nat)
    requires InImage(p, width, height) && k < 4
    ensures 4 * Index(p, width) + k < 4 * width * height
  {
    IndexRoundTrip(p, width, height);
  }

  /** Two distinct in-image pixels own disjoint 4-byte ranges. */
  lemma OffsetsDisjoint(p: Pixel, q: Pixel, width: nat, height: nat, k: nat, k': nat)
    requires InImage(p, width, height) && InImage(q, width, height)
    requires k < 4 && k' < 4 && p != q
    ensures 4 * Index(p, width) + k != 4 * Index(q, width) + k'
  {
    IndexRoundTrip(p, width, height);
    IndexRoundTrip(q, width, height);
  }

  // ---------------------------------------------------------------------------
  // The colour each worker gives a pixel (crate/src/lib.rs:102-114).

  /** The placeholder colour: red and green come from `gradient` (an `f32`
      formula, taken as given), blue is 0 and alpha is 255. */
  function ColorOf(p: Pixel, gradient: Pixel -> (Byte, Byte)): (c: PixelColor)
    ensures c.x == p.x && c.y == p.y && c.b == 0 && c.a == 255
  {
    PixelColor(p.x, p.y, gradient(p).0, gradient(p).1, 0, 255)
  }

  /** A worker's batch of coloured pixels (`inner_chunk.map(...).collect()`). */
  function Shade(batch: seq<Pixel>, gradient: Pixel -> (Byte, Byte)): (r: seq<PixelColor>)
    ensures |r| == |batch|
    ensures forall i :: 0 <= i < |batch| ==> r[i] == ColorOf(batch[i], gradient)
  {
    seq(|batch|, i requires 0 <= i < |batch| => ColorOf(batch[i], gradient))
  }

  /** The buffer a finished render holds: byte `4 * i + k` is channel `k`
      of the colour of the pixel with linear index `i`. */
  function ExpectedImage(width: nat, height: nat, gradient: Pixel -> (Byte, Byte)): seq<Byte>
  {
    if width == 0 then []
    else seq(4 * width * height, k requires 0 <= k => Channel(ColorOf(PixelAt(k / 4, width), gradient), k % 4))
  }

  /** The finished image is `4 * width * height` bytes long, and each pixel
      `(x, y)` owns bytes `4 * (x * width + y) .. + 3`, holding `(r, g, 0, 255)`. */
  lemma ExpectedImageAt(width: nat, height: nat, gradient: Pixel -> (Byte, Byte), p: Pixel)
    requires InImage(p, width, height)
    ensures |ExpectedImage(width, height, gradient)| == 4 * width * height
    ensures var o := 4 * Index(p, width);
      o + 3 < 4 * width * height &&
      ExpectedImage(width, height, gradient)[o] == gradient(p).0 &&
      ExpectedImage(width, height, gradient)[o + 1] == gradient(p).1 &&
      ExpectedImage(width, height, gradient)[o + 2] == 0 &&
      ExpectedImage(width, height, gradient)[o + 3] == 255
  {
    IndexRoundTrip(p, width, height);
    var o := 4 * Index(p, width);
    DivModUnique(Index(p, width), 4, 0);
    DivModUnique(Index(p, width), 4, 1);
    DivModUnique(Index(p, width), 4, 2);
    DivModUnique(Index(p, width), 4, 3);
  }
}
