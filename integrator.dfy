/** The integrator of crate/src/raytracer/mod.rs: `bounce_ray` follows one ray
    through at most `max_depth` scatterings, and `trace_ray` averages
    `samples_per_pixel` such rays, applies gamma 2 and quantises each channel
    to a byte. Colours are triples of reals, and the hit test of the root
    object, the material's `scatter`, the sample rays and the square root are
    parameters. */
module Integrator {
  import opened Wrappers
  import opened Collection

  /** `Color` / `V3`: three real channels. */
  datatype Color = Color(r: real, g: real, b: real)

  const Black: Color := Color(0.0, 0.0, 0.0)
  const White: Color := Color(1.0, 1.0, 1.0)

  function Add(a: Color, c: Color): Color
  {
    Color(a.r + c.r, a.g + c.g, a.b + c.b)
  }

  /** `V3::hadamard`: channel-wise product. */
  function Hadamard(a: Color, c: Color): Color
  {
    Color(a.r * c.r, a.g * c.g, a.b * c.b)
  }

  /** Every channel lies in `[0, 1]`. */
  predicate Unit(c: Color)
  {
    0.0 <= c.r <= 1.0 && 0.0 <= c.g <= 1.0 && 0.0 <= c.b <= 1.0
  }

  /** `ScatterResult`: the outgoing ray and the attenuation of its colour. */
  datatype Scatter<R> = Scatter(rayOut: R, attenuation: Color)

  /** The parts of `Scene` the integrator reads. `root` is the hit test of the
      root object and `scatter` the material's scatter of a hit. */
  datatype Scene<!R, !A> = Scene(samplesPerPixel: nat, maxDepth: nat, background: Color,
                               root: (R, real, Bound) -> Option<Hit<A>>,
                               scatter: (R, Hit<A>) -> Option<Scatter<R>>)

  /** The `t_min` of every root query; the `t_max` is `INFINITY`. */
  const TMin: real := 0.001

  /** `MaterialKind::emit`: black for every material, hit and position. */
  function Emit<A>(h: Hit<A>): (e: Color)
    ensures forall c :: Add(e, c) == c
  {
    Black
  }

  /** The root query of `ray` finds nothing. */
  predicate Escapes<R, A>(scene: Scene<R, A>, ray: R)
  {
    scene.root(ray, TMin, Unbounded).None?
  }

  /** The material at `hit` scatters `ray` rather than absorbing it. */
  predicate Scatters<R, A>(scene: Scene<R, A>, ray: R, hit: Hit<A>)
  {
    scene.scatter(ray, hit).Some?
  }

  /** `bounce_ray` (crate/src/raytracer/mod.rs:41-71). */
  function BounceRay<R, A>(scene: Scene<R, A>, ray: R, depth: nat): Color
    decreases depth
  {
    if depth == 0 then Black
    else
      match scene.root(ray, TMin, Unbounded)
      case None => scene.background
      case Some(hit) =>
        var emitted := Emit(hit);
        match scene.scatter(ray, hit)
        case None => emitted
        case Some(s) => Add(emitted, Hadamard(s.attenuation, BounceRay(scene, s.rayOut, depth - 1)))
  }

  /** The four cases of `bounce_ray`, with emission known to be black: an
      absorbed ray is black, and a scattered one is the attenuation times the
      colour one level deeper. */
  lemma BounceCases<R, A>(scene: Scene<R, A>, ray: R, depth: nat)
    ensures depth == 0 ==> BounceRay(scene, ray, depth) == Black
    ensures depth > 0 && scene.root(ray, TMin, Unbounded).None? ==> BounceRay(scene, ray, depth) == scene.background
    ensures depth > 0 && scene.root(ray, TMin, Unbounded).Some? ==>
      var hit := scene.root(ray, TMin, Unbounded).value;
      (scene.scatter(ray, hit).None? ==> BounceRay(scene, ray, depth) == Black) &&
      (scene.scatter(ray, hit).Some? ==>
         BounceRay(scene, ray, depth) ==
         Hadamard(scene.scatter(ray, hit).value.attenuation, BounceRay(scene, scene.scatter(ray, hit).value.rayOut, depth - 1)))
  {
  }

  /** An independent account of a path: the product of the attenuations met
      until the ray escapes (`None` when it is absorbed or the depth runs out). */
  function Throughput<R, A>(scene: Scene<R, A>, ray: R, depth: nat): Option<Color>
    decreases depth
  {
    if depth == 0 then None
    else
      match scene.root(ray, TMin, Unbounded)
      case None => Some(White)
      case Some(hit) =>
        match scene.scatter(ray, hit)
        case None => None
        case Some(s) =>
          match Throughput(scene, s.rayOut, depth - 1)
          case None => None
          case Some(t) => Some(Hadamard(s.attenuation, t))
  }

  /** Since nothing emits, a ray's colour is the background filtered by the
      attenuations along its path if the path escapes within `depth` bounces,
      and black otherwise. */
  lemma {:induction false} BounceIsThroughput<R, A>(scene: Scene<R, A>, ray: R, depth: nat)
    ensures BounceRay(scene, ray, depth) ==
      match Throughput(scene, ray, depth)
      case None => Black
      case Some(t) => Hadamard(t, scene.background)
    decreases depth
  {
    if depth > 0 && !Escapes(scene, ray) {
      var hit := scene.root(ray, TMin, Unbounded).value;
      if Scatters(scene, ray, hit) {
        var s := scene.scatter(ray, hit).value;
        BounceIsThroughput(scene, s.rayOut, depth - 1);
        var deeper := Throughput(scene, s.rayOut, depth - 1);
        if deeper.Some? {
          HadamardAssociative(s.attenuation, deeper.value, scene.background);
          AddBlack(Hadamard(s.attenuation, Hadamard(deeper.value, scene.background)));
        }
      }
    }
  }

  /** Black, the colour of every emission, adds nothing. */
  lemma AddBlack(c: Color)
    ensures Add(Black, c) == c
  {
  }

  lemma HadamardAssociative(a: Color, t: Color, c: Color)
    ensures Hadamard(a, Hadamard(t, c)) == Hadamard(Hadamard(a, t), c)
  {
    assert a.r * (t.r * c.r) == (a.r * t.r) * c.r;
    assert a.g * (t.g * c.g) == (a.g * t.g) * c.g;
    assert a.b * (t.b * c.b) == (a.b * t.b) * c.b;
  }

  /** Only the root query over `[0.001, INFINITY]` matters: two scenes that
      answer it alike, and agree on background and scattering, give every
      ray the same colour. */
  lemma {:induction false} OnlyRootQueryMatters<R, A>(s1: Scene<R, A>, s2: Scene<R, A>, ray: R, depth: nat)
    requires s1.background == s2.background && s1.scatter == s2.scatter
    requires forall r :: s1.root(r, TMin, Unbounded) == s2.root(r, TMin, Unbounded)
    ensures BounceRay(s1, ray, depth) == BounceRay(s2, ray, depth)
    decreases depth
  {
    if depth > 0 {
      match s1.root(ray, TMin, Unbounded)
      case None =>
      case Some(hit) =>
        match s1.scatter(ray, hit)
        case None =>
        case Some(s) => OnlyRootQueryMatters(s1, s2, s.rayOut, depth - 1);
    }
  }

  lemma MulNonNegative(a: real, c: real)
    requires 0.0 <= a && 0.0 <= c
    ensures 0.0 <= a * c
  {
  }

  lemma MulUnit(a: real, c: real)
    requires 0.0 <= a <= 1.0 && 0.0 <= c <= 1.0
    ensures 0.0 <= a * c <= 1.0
  {
    MulNonNegative(a, c);
    MulNonNegative(a, 1.0 - c);
    assert a * (1.0 - c) == a - a * c;
  }

  /** With a background and attenuations in `[0, 1]`, every colour is in `[0, 1]`. */
  lemma {:induction false} BounceUnit<R, A>(scene: Scene<R, A>, ray: R, depth: nat)
    requires Unit(scene.background)
    requires forall r, h :: scene.scatter(r, h).Some? ==> Unit(scene.scatter(r, h).value.attenuation)
    ensures Unit(BounceRay(scene, ray, depth))
    decreases depth
  {
    if depth > 0 {
      match scene.root(ray, TMin, Unbounded)
      case None =>
      case Some(hit) =>
        match scene.scatter(ray, hit)
        case None =>
        case Some(s) =>
          BounceUnit(scene, s.rayOut, depth - 1);
          var a, c := s.attenuation, BounceRay(scene, s.rayOut, depth - 1);
          MulUnit(a.r, c.r);
          MulUnit(a.g, c.g);
          MulUnit(a.b, c.b);
    }
  }

  /** A ray that never escapes (every root query hits) is black at any depth:
      an absorbed ray gives the emitted black, and a scattered one ends at
      depth 0, since nothing emits. */
  lemma {:induction false} TrappedIsBlack<R, A>(scene: Scene<R, A>, ray: R, depth: nat)
    requires forall r :: !Escapes(scene, r)
    ensures BounceRay(scene, ray, depth) == Black
    decreases depth
  {
    if depth > 0 {
      assert !Escapes(scene, ray);
      var hit := scene.root(ray, TMin, Unbounded).value;
      if Scatters(scene, ray, hit) {
        var s := scene.scatter(ray, hit).value;
        TrappedIsBlack(scene, s.rayOut, depth - 1);
      }
    }
  }

  /** When the root is a collection and every child misses `[0.001, INFINITY]`,
      the ray shows the background. */
  lemma EscapesPastCollection<R, A, O>(scene: Scene<R, A>, ray: R, depth: nat,
                                       objects: seq<O>, test: (O, real, Bound) -> Option<Hit<A>>)
    requires depth > 0
    requires scene.root(ray, TMin, Unbounded) == Reduce(objects, test, TMin, Unbounded, None)
    requires forall i :: 0 <= i < |objects| ==> test(objects[i], TMin, Unbounded).None?
    ensures BounceRay(scene, ray, depth) == scene.background
  {
    NoHitIff(objects, test, TMin, Unbounded);
  }

  // ---------------------------------------------------------------------------
  // `trace_ray` (crate/src/raytracer/mod.rs:17-39).

  /** The colour of sample `i` of a pixel; `sampleRay(i)` is its camera ray,
      whose jitter comes from the random draws. */
  function Samples<R, A>(scene: Scene<R, A>, sampleRay: nat -> R): nat -> Color
  {
    (i: nat) => BounceRay(scene, sampleRay(i), scene.maxDepth)
  }

  /** The sum of the first `n` sample colours. */
  function Sum(samples: nat -> Color, n: nat): Color
  {
    if n == 0 then Black else Add(Sum(samples, n - 1), samples(n - 1))
  }

  /** Each channel divided by the sample count. */
  function Mean(total: Color, n: nat): (m: Color)
    requires n > 0
    ensures m.r * n as real == total.r && m.g * n as real == total.g && m.b * n as real == total.b
  {
    Color(total.r / n as real, total.g / n as real, total.b / n as real)
  }

  /** `f32::clamp(0., 0.999)`. */
  function Clamp(c: real): (r: real)
    ensures 0.0 <= r <= 0.999
    ensures 0.0 <= c <= 0.999 ==> r == c
    ensures c < 0.0 ==> r == 0.0
    ensures c > 0.999 ==> r == 0.999
  {
    if c < 0.0 then 0.0 else if c > 0.999 then 0.999 else c
  }

  /** `(256. * c.clamp(0., 0.999)) as u8`: the cast truncates a non-negative value. */
  function Quantise(c: real): (b: Byte)
    ensures b as real <= 256.0 * Clamp(c) < b as real + 1.0
  {
    (256.0 * Clamp(c)).Floor
  }

  /** One pixel. The accumulator sums `samples_per_pixel` bounced rays, each
      channel is averaged and square-rooted, and then quantised. With no
      samples the source divides zero by zero; the NaN it gets casts to 0. */
  method TraceRay<R, A>(scene: Scene<R, A>, sampleRay: nat -> R, sqrt: real -> real) returns (r: Byte, g: Byte, b: Byte)
    ensures scene.samplesPerPixel == 0 ==> r == 0 && g == 0 && b == 0
    ensures scene.samplesPerPixel > 0 ==>
      var mean := Mean(Sum(Samples(scene, sampleRay), scene.samplesPerPixel), scene.samplesPerPixel);
      r == Quantise(sqrt(mean.r)) && g == Quantise(sqrt(mean.g)) && b == Quantise(sqrt(mean.b))
  {
    var accumulated := Black;
    for i := 0 to scene.samplesPerPixel
      invariant accumulated == Sum(Samples(scene, sampleRay), i)
    {
      var sample := BounceRay(scene, sampleRay(i), scene.maxDepth);
      accumulated := Add(accumulated, sample);
    }
    if scene.samplesPerPixel == 0 {
      return 0, 0, 0;
    }
    var n := scene.samplesPerPixel as real;
    accumulated := Color(sqrt(accumulated.r / n), sqrt(accumulated.g / n), sqrt(accumulated.b / n));
    r := Quantise(accumulated.r);
    g := Quantise(accumulated.g);
    b := Quantise(accumulated.b);
  }

  lemma MulSucc(x: real, n: nat)
    ensures x * (n - 1) as real + x == x * n as real
  {
  }

  /** Samples that all have the same colour sum to `n` times it. */
  lemma {:induction false} SumConstant(samples: nat -> Color, n: nat, c: Color)
    requires forall i :: 0 <= i < n ==> samples(i) == c
    ensures Sum(samples, n) == Color(c.r * n as real, c.g * n as real, c.b * n as real)
  {
    if n > 0 {
      SumConstant(samples, n - 1, c);
      MulSucc(c.r, n);
      MulSucc(c.g, n);
      MulSucc(c.b, n);
    }
  }

  /** Samples in `[0, 1]` sum to at most `n` per channel. */
  lemma {:induction false} SumBounded(samples: nat -> Color, n: nat)
    requires forall i :: 0 <= i < n ==> Unit(samples(i))
    ensures var s := Sum(samples, n);
      0.0 <= s.r <= n as real && 0.0 <= s.g <= n as real && 0.0 <= s.b <= n as real
  {
    if n > 0 {
      SumBounded(samples, n - 1);
    }
  }

  lemma DivUnit(x: real, n: real)
    requires 0.0 <= x <= n && n > 0.0
    ensures 0.0 <= x / n <= 1.0
  {
    assert (x / n) * n == x;
  }

  /** The average of samples in `[0, 1]` is in `[0, 1]`. */
  lemma MeanUnit(samples: nat -> Color, n: nat)
    requires n > 0
    requires forall i :: 0 <= i < n ==> Unit(samples(i))
    ensures Unit(Mean(Sum(samples, n), n))
  {
    SumBounded(samples, n);
    var s := Sum(samples, n);
    DivUnit(s.r, n as real);
    DivUnit(s.g, n as real);
    DivUnit(s.b, n as real);
  }

  /** In a scene whose background and attenuations are in `[0, 1]`, the
      average a pixel takes the square root of is in `[0, 1]`. */
  lemma PixelMeanUnit<R, A>(scene: Scene<R, A>, sampleRay: nat -> R)
    requires scene.samplesPerPixel > 0
    requires Unit(scene.background)
    requires forall r, h :: scene.scatter(r, h).Some? ==> Unit(scene.scatter(r, h).value.attenuation)
    ensures Unit(Mean(Sum(Samples(scene, sampleRay), scene.samplesPerPixel), scene.samplesPerPixel))
  {
    forall i | 0 <= i < scene.samplesPerPixel ensures Unit(Samples(scene, sampleRay)(i)) {
      BounceUnit(scene, sampleRay(i), scene.maxDepth);
    }
    MeanUnit(Samples(scene, sampleRay), scene.samplesPerPixel);
  }

  lemma MulDiv(x: real, n: real)
    requires n > 0.0
    ensures (x * n) / n == x
  {
  }

  /** A pixel of a scene in which every ray escapes at once shows the
      background: the average of its samples is exactly the background colour. */
  lemma EmptySceneMean<R, A>(scene: Scene<R, A>, sampleRay: nat -> R)
    requires scene.samplesPerPixel > 0 && scene.maxDepth > 0
    requires forall r :: Escapes(scene, r)
    ensures Mean(Sum(Samples(scene, sampleRay), scene.samplesPerPixel), scene.samplesPerPixel) == scene.background
  {
    var n := scene.samplesPerPixel;
    var bg := scene.background;
    forall i | 0 <= i < n ensures Samples(scene, sampleRay)(i) == bg {
      assert Escapes(scene, sampleRay(i));
    }
    SumConstant(Samples(scene, sampleRay), n, bg);
    MulDiv(bg.r, n as real);
    MulDiv(bg.g, n as real);
    MulDiv(bg.b, n as real);
  }

  /** In a scene where every ray escapes into a white background, each
      channel of every pixel is 255 (given that the square root of 1 is 1). */
  lemma WhiteBackgroundPixel<R, A>(scene: Scene<R, A>, sampleRay: nat -> R, sqrt: real -> real)
    requires scene.samplesPerPixel > 0 && scene.maxDepth > 0
    requires forall r :: Escapes(scene, r)
    requires scene.background == White && sqrt(1.0) == 1.0
    ensures var mean := Mean(Sum(Samples(scene, sampleRay), scene.samplesPerPixel), scene.samplesPerPixel);
      Quantise(sqrt(mean.r)) == 255 && Quantise(sqrt(mean.g)) == 255 && Quantise(sqrt(mean.b)) == 255
  {
    EmptySceneMean(scene, sampleRay);
  }

  // ---------------------------------------------------------------------------
  // Quantisation.

  /** Quantisation keeps the order of channel values. */
  lemma QuantiseMonotone(c: real, d: real)
    requires c <= d
    ensures Quantise(c) <= Quantise(d)
  {
  }

  /** A value of `b / 256` quantises back to `b`, for every byte `b`. */
  lemma QuantiseRoundTrip(b: Byte)
    ensures Quantise(b as real / 256.0) == b
  {
    assert b as real / 256.0 <= 255.0 / 256.0 < 0.999;
    assert 256.0 * (b as real / 256.0) == b as real;
  }

  /** Values at or below 0 give 0, values at or above 0.999 give 255; in particular a channel of 1.0 gives 255. */
  lemma QuantiseSaturates(c: real)
    ensures c <= 0.0 ==> Quantise(c) == 0
    ensures c >= 0.999 ==> Quantise(c) == 255
    ensures Quantise(1.0) == 255
  {
  }
}
