/**
 * The path tracer of main.cpp: `trace_ray` over the scene vector with
 * max_depth = 32, roulette from depth 6 on, no debug modes and the normal
 * kept only when it faces the ray; and one iteration of the sample loop of
 * render_rows, which draws four numbers for the camera ray and then traces it
 * from depth 0.
 */
module PathTracer {
  import opened Colors
  import opened Tracing

  /** `max_depth`. */
  const MaxDepth := 32

  /** Roulette is played when `depth > 5`. */
  const RouletteAfter := 5

  const MainPolicy := Policy(MaxDepth, RouletteAfter, Off, KeepIfFacing)

  /**
   * The camera ray through pixel (x, y), built from the four draws the sample
   * loop takes in order: the offsets inside the pixel in x and in y, then the
   * radius and the angle of the lens sample.
   */
  type Camera<R> = (int, int, Unit, Unit, Unit, Unit) -> R

  /** What render_rows captures: the geometry, the scene vector and the camera. */
  datatype Setup<!R, !S, !N> = Setup(geo: Geometry<R, S, N>, objs: seq<Object<S>>, camera: Camera<R>)

  /** One sample of pixel (x, y) with the engine at draw k: the camera ray, then `trace_ray(r, scene, 0, rng)`. */
  function CameraSample<R, S, N>(su: Setup<R, S, N>, draws: Draws, x: int, y: int, k: nat): (t: Traced)
    ensures k + 4 <= t.next <= k + 4 + 4 * (MaxDepth + 2)
  {
    var ray := su.camera(x, y, draws(k), draws(k + 1), draws(k + 2), draws(k + 3));
    Trace(MainPolicy, su.geo, su.objs, ray, 0, draws, k + 4)
  }

  /** The body of the sample loop, step by step. */
  method TraceSample<R, S, N(==)>(su: Setup<R, S, N>, draws: Draws, x: int, y: int, k: nat) returns (t: Traced)
    ensures t == CameraSample(su, draws, x, y, k)
  {
    var ray := su.camera(x, y, draws(k), draws(k + 1), draws(k + 2), draws(k + 3));
    t := TraceRay(MainPolicy, su.geo, su.objs, ray, 0, draws, k + 4);
  }

  /** Every trace_ray call at depth d >= 0 makes at most 33 - d nested calls, and none past depth 32. */
  lemma MainCallBound<R, S, N>(geo: Geometry<R, S, N>, objs: seq<Object<S>>, r: R, depth: int, draws: Draws, k: nat)
    requires 0 <= depth
    ensures Trace(MainPolicy, geo, objs, r, depth, draws, k).nested <= if depth > MaxDepth then 0 else MaxDepth + 1 - depth
    ensures depth > MaxDepth ==> Trace(MainPolicy, geo, objs, r, depth, draws, k) == Traced(Black, k, 0)
  {
  }

  /**
   * Up to depth 5 no roulette draw is taken: a surviving hit on a
   * non-reflective object goes straight to the diffuse bounce built from the
   * first two draws, with the albedo as throughput.
   */
  lemma MainMatteBeforeRoulette<R, S, N>(geo: Geometry<R, S, N>, objs: seq<Object<S>>, r: R, depth: int, draws: Draws, k: nat, i: int)
    requires depth <= RouletteAfter
    requires FirstNearest(Tests(geo, r, objs), |objs|, i)
    requires MaxChannel(objs[i].mat.albedo) >= Dim && objs[i].mat.reflectivity <= 0.0
    ensures
      var h := geo.intersect(r, objs[i].shape).value;
      var nl := Oriented(MainPolicy, geo, h.normal, r);
      Trace(MainPolicy, geo, objs, r, depth, draws, k)
      == Bounce(MainPolicy, geo, objs, geo.scatter(r, h.distance, nl, draws(k), draws(k + 1)), depth, draws, k + 2,
                objs[i].mat.emission, objs[i].mat.albedo)
  {
    MatteBounce(MainPolicy, geo, objs, r, depth, draws, k, i);
  }

  /** From depth 6 to 32, a roulette draw of at least the largest albedo channel returns exactly the emission. */
  lemma MainRouletteExit<R, S, N>(geo: Geometry<R, S, N>, objs: seq<Object<S>>, r: R, depth: int, draws: Draws, k: nat, i: int)
    requires RouletteAfter < depth <= MaxDepth
    requires FirstNearest(Tests(geo, r, objs), |objs|, i)
    requires draws(k) >= MaxChannel(objs[i].mat.albedo)
    ensures Trace(MainPolicy, geo, objs, r, depth, draws, k) == Traced(objs[i].mat.emission, k + 1, 0)
  {
    RouletteExit(MainPolicy, geo, objs, r, depth, draws, k, i);
  }
}
