# fermion: the discrete core of a WebAssembly ray tracer, in Dafny

fermion is a Rust ray tracer compiled to WebAssembly. This project models
its three pieces of discrete, sequential logic and proves properties of each.

- **Render bookkeeping** (`Scene::render` and `RenderContext` in
  `crate/src/lib.rs`):
  - The pixel coordinates of a `height × width` image are enumerated row
    by row and shuffled in place.
  - They are cut into slices of `len / concurrency` pixels each, at least
    `concurrency` of them, which rayon runs on its pool.
  - Each slice is cut again into batches of at most `CHUNK_SIZE = 5000`
    pixels.
  - A single aggregator receives the batches in whatever order they
    arrive. For each batch it adds its length to a progress counter and
    writes each pixel's RGBA bytes at offset `4 * (x * width + y)` of a
    zero-filled buffer of `4 * width * height` bytes.
  - `get_current_progress` divides the counter by the pixel count.
- **Closest hit** (`CollectionObject::hit` in
  `crate/src/raytracer/object/collection.rs`): a loop over the child
  objects. Each child is asked for a hit at or below the current `closest_t`,
  and each hit it accepts lowers that bound to its own `t`.
- **Integrator** (`crate/src/raytracer/mod.rs`):
  - `bounce_ray` is a depth-bounded recursion with four cases: depth
    exhausted, miss, absorbed, scattered.
  - `trace_ray` sums `samples_per_pixel` bounced rays and averages them.
    It then applies gamma 2 (a square root) and turns each channel into a
    byte with `(256 * clamp(c, 0, 0.999)) as u8`.

## Files and modules

- `wrappers.dfy` (`Wrappers`): `Option`, `Result`, the byte type,
  concatenation of sequences of sequences, and distinctness.
- `pixels.dfy` (`Pixels`): pixel coordinates, the row-major enumeration,
  linear indices and byte offsets, the placeholder colour of a pixel, and
  the finished image.
- `partition.dfy` (`Partition`): Rust's `chunks` / `par_chunks`, the
  slices of `len / concurrency` pixels, the batches, and the split step with its two panics.
- `aggregator.dfy` (`Aggregator`): the `RenderContext` class.
  - It holds the buffer as an `array`, the geometry, and the counter.
  - `Receive` is the aggregator's loop body for one batch.
  - `GetCurrentProgress` is the progress query.
  - `Paint` and `Canvas` are the specification functions those are
    proved against.
- `render.dfy` (`Render`): the in-place Fisher–Yates shuffle, and the
  whole render proved end to end. Batches are taken from the list of
  unreceived batches in an order the model leaves open (a
  nondeterministic choice).
- `collection.dfy` (`Collection`): the closest-hit loop. It is proved
  against the fold `Reduce` and the list of bounds `Queries`; the rest of
  the properties are proved about these.
- `integrator.dfy` (`Integrator`): `BounceRay`, an independent
  path-throughput account of it, `TraceRay`, and quantisation.

## Model

| member | source | states |
|---|---|---|
| Pixels.Row | crate/src/lib.rs:70-77 | row `x` has `width` pixels, all in row `x` with a column below `width` |
| Pixels.Enumerate | crate/src/lib.rs:70-77 | every enumerated pixel lies in the image |
| Pixels.EnumerateLength | crate/src/lib.rs:70-77 | the enumeration has exactly `width * height` entries |
| Pixels.EnumerateAt | crate/src/lib.rs:70-77 | entry `i` of the enumeration is the pixel `(i / width, i % width)`: row-major order |
| Pixels.EnumerateDistinct | crate/src/lib.rs:70-77 | no pixel appears twice in the enumeration |
| Pixels.EnumerateCoverage | crate/src/lib.rs:70-77 | a pixel is in the enumeration if and only if `x < height` and `y < width` |
| Pixels.EnumerateCount | crate/src/lib.rs:70-77 | every in-image pixel appears exactly once; no other pixel appears |
| Pixels.IndexRoundTrip | crate/src/lib.rs:131 | an in-image pixel's linear index `x * width + y` is below `width * height`, and dividing it by the width gives the pixel back |
| Pixels.PixelAtRoundTrip | crate/src/lib.rs:131 | every index below `width * height` belongs to exactly one in-image pixel |
| Pixels.OffsetInBounds | crate/src/lib.rs:131-136 | every write offset `4 * (x * width + y) + k`, `k < 4`, of an in-image pixel lies inside the `4 * width * height`-byte buffer |
| Pixels.OffsetsDisjoint | crate/src/lib.rs:131-136 | two distinct in-image pixels never share a write offset |
| Pixels.ColorOf | crate/src/lib.rs:104-112 | a worker's colour keeps the pixel's coordinates and has `b == 0` and `a == 255` |
| Pixels.Shade | crate/src/lib.rs:102-114 | a batch's colours come in the batch's order, one per pixel |
| Pixels.ExpectedImageAt | crate/src/lib.rs:130-136 | in the finished image, pixel `(x, y)` owns bytes `4 * (x * width + y) .. + 3`, and they hold `(r, g, 0, 255)` |
| Partition.Chunks | crate/src/lib.rs:99 | `chunks(n)` gives pieces that concatenate back to the input; every piece is non-empty and at most `n` long, and all but the last are exactly `n` |
| Partition.ChunksCount | crate/src/lib.rs:99 | `chunks(n)` makes `ceil(len / n)` pieces |
| Partition.CeilDivAtLeast | crate/src/lib.rs:95 | with `0 < k <= len`, the slice size `len / k` is positive and gives at least `k` slices |
| Partition.Batches | crate/src/lib.rs:94-99 | splitting every slice into batches keeps the concatenation, and every batch has between 1 and `CHUNK_SIZE` pixels |
| Partition.Slices | crate/src/lib.rs:95 | the slices of `par_chunks(len / concurrency)` concatenate back to the shuffled pixels |
| Partition.Split | crate/src/lib.rs:94-99 | the split fails with a division by zero when `concurrency == 0`, and with a zero chunk size whenever `concurrency > len`, the empty image with `concurrency > 0` included; it succeeds exactly when `0 < concurrency <= len`; its batches concatenate to the shuffled pixels and each has 1 to 5000 pixels |
| Partition.SliceShape | crate/src/lib.rs:95 | there are at least `concurrency` slices; all but the last hold exactly `len / concurrency` pixels; the last may hold fewer |
| Partition.MoreSlicesThanWorkers | crate/src/lib.rs:95 | ten pixels split four ways make five slices, not four |
| Aggregator.Offset | crate/src/lib.rs:131 | the base offset of a pixel is a multiple of 4, four times its linear index `x * width + y` |
| Aggregator.WritePixel | crate/src/lib.rs:131-136 | one pixel's writes set its four bytes to `r, g, b, a` and leave every other byte alone |
| Aggregator.Paint | crate/src/lib.rs:130-137 | writing a batch keeps the buffer length |
| Aggregator.PaintOutside | crate/src/lib.rs:130-137 | a batch changes no byte outside its own pixels' four-byte ranges |
| Aggregator.RenderContext.constructor | crate/src/lib.rs:83 | the buffer has `4 * width * height` bytes, all zero, and the counter starts at 0 (line 123) |
| Aggregator.RenderContext.Receive | crate/src/lib.rs:127-137 | the counter grows by exactly the batch length, and the buffer becomes the old buffer with the batch's pixels written in order |
| Aggregator.RenderContext.GetCurrentProgress | crate/src/lib.rs:166-169 | progress is undefined (NaN) exactly for an empty image; otherwise it times the pixel count is the counter, it is in `[0, 1]` while the counter is at most the pixel count, and it is 1 exactly when the counter equals the pixel count |
| Aggregator.CanvasEmpty | crate/src/lib.rs:83 | the zero-filled buffer is the canvas with no pixel painted |
| Aggregator.CanvasFull | crate/src/lib.rs:127-138 | once every in-image pixel is painted, the canvas is the finished image |
| Aggregator.WriteCanvas | crate/src/lib.rs:130-136 | writing an in-image pixel's colour onto a canvas paints exactly that pixel and changes nothing else |
| Aggregator.ShadeFits | crate/src/lib.rs:131-136 | the colours of in-image pixels are written inside the buffer |
| Aggregator.PaintCanvas | crate/src/lib.rs:130-137 | a batch of in-image pixels paints exactly its own pixels onto whatever was painted before, in any pixel order |
| Render.Shuffle | crate/src/lib.rs:79 | for any random indices, the in-place shuffle only permutes the pixels: the multiset is unchanged |
| Render.PermutationDistinct | crate/src/lib.rs:79 | a permutation of a sequence without repeats has no repeats |
| Render.NoPixelSentTwice | crate/src/lib.rs:94-116 | after any shuffle and a successful split, the workers send `width * height` pixels, all in the image, with pairwise distinct linear indices; by `OffsetsDisjoint`, no byte is then written twice |
| Render.PendingInImage | crate/src/lib.rs:127-131 | every pixel of a batch still in the channel lies in the image |
| Render.ReceiveStep | crate/src/lib.rs:127-128 | taking one batch off the channel keeps "received plus pending is every pixel once" and bounds the received count by the pixel count |
| Render.AllReceived | crate/src/lib.rs:127-138 | once all batches are received, every in-image pixel has been painted |
| Render.Render | crate/src/lib.rs:65-151 | the render fails exactly when the split panics, and says which way (a zero chunk size whenever `width * height < concurrency`, the empty image included); otherwise, for every shuffle and every delivery order, the counter ends at `width * height` and the buffer is the finished image |
| Collection.Reduce | crate/src/raytracer/object/collection.rs:18-30 | the closest-hit fold the loop is proved against: each child is tested with the current bound and an accepted hit replaces the result and becomes the bound; its properties are the lemmas below |
| Collection.Queries | crate/src/raytracer/object/collection.rs:23-24 | each child is queried exactly once, in order |
| Collection.CollectionHit | crate/src/raytracer/object/collection.rs:13-37 | an empty collection has no hit; the loop computes the closest-hit fold `Reduce` and queries the children with the bounds `Queries` |
| Collection.ReduceKeeps | crate/src/raytracer/object/collection.rs:23-30 | once a hit is accepted, the result is a hit |
| Collection.NoHitIff | crate/src/raytracer/object/collection.rs:32-34 | there is no hit if and only if every child misses the whole range `[t_min, t_max]` |
| Collection.ReduceWithin | crate/src/raytracer/object/collection.rs:24-26 | from any point of the loop, a result stays within the range that applies at that point |
| Collection.HitWithin | crate/src/raytracer/object/collection.rs:24-26 | a returned hit's `t` lies in `[t_min, t_max]` when every child keeps to the range it is given |
| Collection.QueriesShrink | crate/src/raytracer/object/collection.rs:21-27 | the first child gets `t_max`; each later child gets a bound no larger than its predecessor's, and never above `t_max` |
| Collection.LastAcceptedFrom | crate/src/raytracer/object/collection.rs:23-28 | from any point of the loop, the result is the hit of the last child that accepted, or the earlier result if none did |
| Collection.LastAccepted | crate/src/raytracer/object/collection.rs:23-28 | a returned hit is exactly what the last accepting child returned for its bound; every later child missed |
| Collection.IntrinsicHonest | crate/src/raytracer/object/collection.rs:24 | children that hit exactly when their own `t` is in range keep to their range |
| Collection.ReduceMinimum | crate/src/raytracer/object/collection.rs:18-36 | from any point of the loop with such children, the result is the nearest in-range child, or the earlier hit if that is nearer |
| Collection.ClosestIsMinimum | crate/src/raytracer/object/collection.rs:18-36 | with such children there is no hit if and only if no child is in `[t_min, t_max]`; otherwise the hit is an in-range child's and no in-range child is nearer |
| Collection.ReduceLastMinimal | crate/src/raytracer/object/collection.rs:18-36 | from any point of the loop with children that hit exactly at their own `t`, the result is the earlier one when no child is in range; otherwise it is an in-range child with every later in-range child strictly farther |
| Collection.ClosestIsLastMinimal | crate/src/raytracer/object/collection.rs:18-36 | a hit is the last in-range child of least `t`: no in-range child is nearer, and every later in-range child is strictly farther |
| Collection.LaterTieWins | crate/src/raytracer/object/collection.rs:23-28 | for any two children at the same in-range `t`, the later one's hit is returned |
| Integrator.Emit | crate/src/raytracer/material/mod.rs:20-28 | every material emits a colour that adds nothing to any colour |
| Integrator.BounceRay | crate/src/raytracer/mod.rs:41-71 | the depth-bounded recursion of `bounce_ray`; `BounceCases`, `BounceIsThroughput` and the lemmas after them state its properties |
| Integrator.BounceCases | crate/src/raytracer/mod.rs:41-71 | depth 0 gives black; a miss gives the background; an absorbed ray gives black (emission is black); a scattered ray gives the attenuation times the colour one level deeper |
| Integrator.BounceIsThroughput | crate/src/raytracer/mod.rs:41-71 | a ray's colour is the background filtered by the attenuations along its path if the path escapes within `depth` bounces, and black otherwise |
| Integrator.OnlyRootQueryMatters | crate/src/raytracer/mod.rs:46 | the colour depends on the root object only through its answers for `t_min = 0.001` and `t_max = INFINITY` |
| Integrator.BounceUnit | crate/src/raytracer/mod.rs:41-71 | with the background and all attenuations in `[0, 1]`, every bounced colour is in `[0, 1]` |
| Integrator.TrappedIsBlack | crate/src/raytracer/mod.rs:41-71 | when every root query hits, a ray is black at every depth: an absorbed ray emits black, and a scattered one ends at depth 0 |
| Integrator.EscapesPastCollection | crate/src/raytracer/mod.rs:46-50 | when the root is a collection and every child misses `[0.001, INFINITY]`, the ray shows the background |
| Integrator.Sum | crate/src/raytracer/mod.rs:20-28 | the accumulator after the first `n` samples, added in sample order; `SumConstant` and `SumBounded` state its properties |
| Integrator.Mean | crate/src/raytracer/mod.rs:30-32 | each channel of the mean times the sample count is that channel of the sum |
| Integrator.Clamp | crate/src/raytracer/mod.rs:34-36 | the clamped value lies in `[0, 0.999]`, equals the input inside that range, and is the nearer end outside it |
| Integrator.Quantise | crate/src/raytracer/mod.rs:34-36 | the byte is `floor(256 * clamp(c, 0, 0.999))`, in `[0, 255]` |
| Integrator.TraceRay | crate/src/raytracer/mod.rs:17-39 | the accumulator holds the sum of exactly `samples_per_pixel` bounced samples; each channel is its mean, square-rooted and quantised; with no samples every channel is 0 |
| Integrator.SumConstant | crate/src/raytracer/mod.rs:20-28 | `n` samples of one colour sum to `n` times that colour |
| Integrator.SumBounded | crate/src/raytracer/mod.rs:20-28 | `n` samples in `[0, 1]` sum to between 0 and `n` per channel |
| Integrator.MeanUnit | crate/src/raytracer/mod.rs:30-32 | the mean of samples in `[0, 1]` is in `[0, 1]` |
| Integrator.PixelMeanUnit | crate/src/raytracer/mod.rs:20-32 | in a scene whose background and attenuations are in `[0, 1]`, the mean a pixel takes the square root of is in `[0, 1]` |
| Integrator.EmptySceneMean | crate/src/raytracer/mod.rs:20-32 | when every ray escapes at once, a pixel's mean is exactly the background |
| Integrator.WhiteBackgroundPixel | crate/src/raytracer/mod.rs:20-36 | when every ray escapes into a background of `{1, 1, 1}`, every channel is 255 |
| Integrator.QuantiseMonotone | crate/src/raytracer/mod.rs:34-36 | quantisation keeps the order of channel values |
| Integrator.QuantiseRoundTrip | crate/src/raytracer/mod.rs:34-36 | `b / 256` quantises back to `b`, for every byte `b` |
| Integrator.QuantiseSaturates | crate/src/raytracer/mod.rs:34-36 | values at or below 0 give 0; values at or above 0.999, among them 1.0, give 255 |

## Where the expected behaviour and the code differ

Each item gives the behaviour a reader of the interface would expect, then
what the code does. The model follows the code in each case.

- **Slice count.**
  - Expected: the shuffled pixels go into exactly `k` slices.
  - Code: `par_chunks(len / k)` makes `ceil(len / (len / k))` slices.
    That is at least `k` and can be more: ten pixels with `k = 4` make
    five slices (`SliceShape`, `MoreSlicesThanWorkers`).
- **Large concurrency.**
  - Expected: concurrency at or above the pixel count degenerates to one
    pixel per slice.
  - Code: `concurrency > len` makes the chunk size 0, and `par_chunks`
    panics on that. So does an empty image. `concurrency == 0` divides by
    zero. `Split` and `Render` return these panics as errors.
- **Equal `t`.**
  - Expected: the first child at an equal `t` wins.
  - Code: a child rejects only `t > t_max`, so it accepts a `t` equal to
    the current bound. The later child therefore replaces the earlier hit
    (`LastAccepted`, `ClosestIsLastMinimal`, `LaterTieWins`).
- **White background.**
  - Expected: a background of `{1, 1, 1}` gives 254.
  - Code: `floor(256 * 0.999)` is 255 (`QuantiseSaturates`,
    `WhiteBackgroundPixel`).
- **Pixel colours.**
  - Expected: workers colour pixels with the integrator.
  - Code: `Scene::render` in `crate/src/lib.rs` writes a placeholder
    gradient. The red and green bytes come from an `f32` formula, here a
    parameter `gradient`; blue is 0 and alpha is 255.
- **Progress before completion.**
  - Expected: progress reaches 1 only when the image is complete.
  - Code: the aggregator adds a batch's length to the counter
    (`crate/src/lib.rs:128`) before it writes that batch's bytes (lines
    130-137), and the promise resolves only after the loop ends
    (line 140). A progress query running alongside can therefore return
    1.0 while the last batch's bytes are still missing and the promise has
    not resolved. The model runs `Receive` as one atomic step, so it cannot
    show this. That interleaving belongs to the concurrency listed under
    "Left out".

## Left out

- Floating point: all `f32` values (positions `t`, colours, progress) are
  reals, with no rounding, infinities or NaN. `INFINITY` is the bound
  `Unbounded`.
- Integrator.TraceRay: with no samples the source divides 0 by 0 and
  casts NaN to 0. The model gives 0 directly instead of computing NaN.
- Aggregator.RenderContext.GetCurrentProgress: returns `None` in place
  of the `f32` NaN or infinity of an empty image. It does not model
  `f32` rounding of the quotient.
- Integer widths: no `u32` overflow of `width * height` or
  `x * width + y`, and no `usize` overflow of the buffer length. The
  model assumes the image fits the types.
- Randomness:
  - the shuffle's random indices are the parameter `draws`;
  - the jitter of each sample ray is inside the parameter `sampleRay`;
  - the random directions the Lambertian, metal and dielectric materials
    draw when they scatter are folded into the parameter `scatter`. It is
    a fixed function of the ray and the hit, so any randomness it needs
    must be carried by the ray type `R`.
- Concurrency: the rayon pool, `par_chunks` running in parallel, the
  unbounded channel, `disconnect`, and the relaxed atomic counter. The
  workers' batches are one list, and the aggregator takes them one at a
  time in an arbitrary order.
- Panics: a panic inside the spawned job becomes an `Err` result of
  `Render`.
- The promise and the image data: `future_to_promise`, `get_promise`,
  `get_current_image_data` and `make_image_data` read raw wasm memory.
  `Scene::new` deserialises through serde. The buffer is an `array`
  field of `RenderContext` rather than pointer and length.
- The placeholder gradient formula of `crate/src/lib.rs:108-109` is a
  parameter (`f32` arithmetic cast to `u8`).
- Vector and geometry arithmetic (camera rays, sphere intersection,
  material scattering): `root` and `scatter` are parameters of
  `Integrator.Scene`, and the square root of `trace_ray` is a parameter
  `sqrt`.
- The hit record's position, normal, side and texture coordinates are
  the opaque `attrs` of `Collection.Hit`.
