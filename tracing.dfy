/**
 * The control skeleton that `trace_ray` of main.cpp and `scene::trace_ray` of
 * include/components/scene/scene.hpp share: a depth cutoff, a linear scan for
 * the nearest hit, the miss result, the debug short-circuits (scene only),
 * Russian roulette, the low-throughput exit and the choice between the diffuse
 * and the mirror bounce.  The two differ only in the constants and switches of
 * a Policy.
 *
 * Geometry is float arithmetic and stays abstract: the intersection test, the
 * dot product that orients the normal, and the construction of the mirror and
 * the cosine-weighted bounce rays are functions the caller supplies.  The
 * random engine is the stream of its draws; every randf consumes the next one.
 */
module Tracing {
  import opened Colors
  import opened Wrappers

  /** A draw of randf: uniform_real_distribution<float>(0, 1). */
  type Unit = r: real | 0.0 <= r <= 1.0

  /** The random engine as the sequence of its draws: the k-th call of randf returns draws(k). */
  type Draws = nat -> Unit

  /** The float literal 1e30f, exactly: the initial `closest_t`. */
  const Far: real := 1000000015047466219876688855040.0

  /** The float literal 0.05f, exactly: the low-throughput threshold. */
  const Dim: real := 0.0500000007450580596923828125

  datatype Material = Material(albedo: Color, reflectivity: real, emission: Color)

  /** An entry of the scene: a shape and the material it is made of. */
  datatype Object<S> = Object(shape: S, mat: Material)

  /** What a successful intersection test reports: the distance along the ray and the normal there. */
  datatype Hit<N> = Hit(distance: real, normal: N)

  /**
   * The floating-point geometry the skeleton calls.  `reflect(r, t, nl)` is the
   * mirror ray leaving r.at(t) + nl * 1e-4; `scatter(r, t, nl, r1, r2)` is the
   * random_cosine_hemisphere(nl) ray leaving the same point, built from the two
   * draws it takes, in that order.
   */
  datatype Geometry<!R, !S, !N> = Geometry(
    intersect: (R, S) -> Option<Hit<N>>,
    facing: (N, R) -> real,
    negate: N -> N,
    reflect: (R, real, N) -> R,
    scatter: (R, real, N, Unit, Unit) -> R,
    normalColor: N -> Color,
    depthColor: real -> Color)

  /** render_settings' `debug` enumeration. */
  datatype DebugMode = Off | Albedo | Normal | Depth

  /**
   * How the shading normal nl is chosen: main.cpp keeps the normal only when
   * dot(normal, direction) < 0, scene.hpp flips it only when the dot is > 0.
   */
  datatype Orientation = KeepIfFacing | FlipIfBehind

  /** The constants and switches in which the two integrators differ. */
  datatype Policy = Policy(maxBounces: int, rouletteAfter: int, debug: DebugMode, orientation: Orientation)

  /**
   * The value `trace_ray` returns, with the position of the next unused draw
   * and the number of nested `trace_ray` calls the evaluation made.
   */
  datatype Traced = Traced(color: Color, next: nat, nested: nat)

  // ---------------------------------------------------------------------------
  // The nearest-hit scan

  /** The intersection test against every object, in scene order. */
  function Tests<R, S, N>(geo: Geometry<R, S, N>, r: R, objs: seq<Object<S>>): (hits: seq<Option<Hit<N>>>)
    ensures |hits| == |objs|
  {
    seq(|objs|, i requires 0 <= i < |objs| => geo.intersect(r, objs[i].shape))
  }

  /** A reported hit strictly closer than d. */
  predicate Below<N>(h: Option<Hit<N>>, d: real) { h.Some? && h.value.distance < d }

  /** A reported hit at most d away. */
  predicate AtMost<N>(h: Option<Hit<N>>, d: real) { h.Some? && h.value.distance <= d }

  /**
   * The result of the scan over the first n tests: entry i is taken over the
   * current best when it is strictly closer, starting from `closest_t = 1e30f`.
   */
  function Nearest<N>(hits: seq<Option<Hit<N>>>, n: nat): (best: Option<nat>)
    requires n <= |hits|
    ensures best.Some? ==> best.value < n && Below(hits[best.value], Far)
  {
    if n == 0 then None
    else
      var prev := Nearest(hits, n - 1);
      if Below(hits[n - 1], ClosestOf(hits, prev)) then Some(n - 1) else prev
  }

  /** `closest_t` after the scan settled on `best`. */
  function ClosestOf<N>(hits: seq<Option<Hit<N>>>, best: Option<nat>): real
  {
    if best.Some? && best.value < |hits| && hits[best.value].Some? then hits[best.value].value.distance else Far
  }

  /**
   * The reference definition of the nearest hit among the first n tests: it is
   * closer than 1e30f, every earlier hit is strictly farther and no later hit
   * is closer (so the first of equally near objects wins).
   */
  predicate FirstNearest<N>(hits: seq<Option<Hit<N>>>, n: nat, i: int)
    requires n <= |hits|
  {
    && 0 <= i < n && Below(hits[i], Far)
    && (forall j :: 0 <= j < i ==> !AtMost(hits[j], hits[i].value.distance))
    && (forall j :: i < j < n ==> !Below(hits[j], hits[i].value.distance))
  }

  /** The scan misses exactly when no test reports a hit below 1e30f, and otherwise finds the first nearest hit. */
  lemma {:induction false} NearestCorrect<N>(hits: seq<Option<Hit<N>>>, n: nat)
    requires n <= |hits|
    ensures Nearest(hits, n).None? <==> forall j :: 0 <= j < n ==> !Below(hits[j], Far)
    ensures Nearest(hits, n).Some? ==> FirstNearest(hits, n, Nearest(hits, n).value)
  {
    if n > 0 {
      NearestCorrect(hits, n - 1);
      var prev := Nearest(hits, n - 1);
      if prev.Some? {
        var p := prev.value;
        if Below(hits[n - 1], hits[p].value.distance) {
          var d := hits[n - 1].value.distance;
          forall j | 0 <= j < n - 1
            ensures !AtMost(hits[j], d)
          {
            if j < p {
              assert !AtMost(hits[j], hits[p].value.distance);
            } else if j > p {
              assert !Below(hits[j], hits[p].value.distance);
            }
          }
        }
      }
    }
  }

  /** The scan finds object i exactly when i is the first nearest hit. */
  lemma NearestIs<N>(hits: seq<Option<Hit<N>>>, i: int)
    ensures Nearest(hits, |hits|) == Some(i) <==> FirstNearest(hits, |hits|, i)
  {
    NearestCorrect(hits, |hits|);
  }

  /**
   * The loop over the objects that keeps `closest_t`, `hit_obj` and the hit
   * record: it computes the scan, and the record belongs to the object found.
   */
  method ScanNearest<R, S, N(==)>(geo: Geometry<R, S, N>, r: R, objs: seq<Object<S>>)
    returns (closest: real, found: Option<nat>, hit: Option<Hit<N>>)
    ensures found == Nearest(Tests(geo, r, objs), |objs|)
    ensures closest == ClosestOf(Tests(geo, r, objs), found)
    ensures found.None? == hit.None?
    ensures found.Some? ==> hit == Tests(geo, r, objs)[found.value]
  {
    ghost var hits := Tests(geo, r, objs);
    closest, found, hit := Far, None, None;
    for i := 0 to |objs|
      invariant found == Nearest(hits, i)
      invariant closest == ClosestOf(hits, found)
      invariant found.None? == hit.None?
      invariant found.Some? ==> hit == hits[found.value]
    {
      var h := geo.intersect(r, objs[i].shape);
      if h.Some? && h.value.distance < closest {
        closest, found, hit := h.value.distance, Some(i), h;
      }
    }
  }

  // ---------------------------------------------------------------------------
  // The integrator

  /** The shading normal nl. */
  function Oriented<R, S, N>(pol: Policy, geo: Geometry<R, S, N>, n: N, r: R): N
  {
    match pol.orientation
    case KeepIfFacing => if geo.facing(n, r) < 0.0 then n else geo.negate(n)
    case FlipIfBehind => if geo.facing(n, r) > 0.0 then geo.negate(n) else n
  }

  /** Whether roulette applies at this depth. */
  predicate Roulette(pol: Policy, depth: int) { depth > pol.rouletteAfter }

  /**
   * `trace_ray(r, depth)` reading draws from position k: black past the depth
   * cutoff and on a miss, otherwise the shading of the first nearest hit.  At
   * most one nested call is made, at depth + 1, so the chain of nested calls
   * ends at depth maxBounces + 1; each level consumes at most four draws.
   */
  function Trace<R, S, N>(pol: Policy, geo: Geometry<R, S, N>, objs: seq<Object<S>>, r: R, depth: int, draws: Draws, k: nat): (t: Traced)
    ensures k <= t.next <= k + 4 * (t.nested + 1)
    ensures t.nested <= if depth > pol.maxBounces then 0 else pol.maxBounces + 1 - depth
    ensures depth > pol.maxBounces ==> t == Traced(Black, k, 0)
    decreases pol.maxBounces + 1 - depth, 2
  {
    if depth > pol.maxBounces then Traced(Black, k, 0)
    else
      var hits := Tests(geo, r, objs);
      var found := Nearest(hits, |hits|);
      if found.None? then Traced(Black, k, 0)
      else Shade(pol, geo, objs, r, depth, draws, k, objs[found.value].mat, hits[found.value].value)
  }

  /**
   * Where `trace_ray` goes after the scan found a hit, before any nested call:
   * it returns (a debug colour, the roulette exit, the dim exit), or continues
   * with the next ray, the position of the next unused draw and the throughput.
   */
  datatype Step<R> = Stop(result: Traced) | Continue(next: R, pos: nat, weight: Color)

  /** The choice made for a hit h on an object of material m, the draws read from position k. */
  function Decide<R, S, N>(pol: Policy, geo: Geometry<R, S, N>, r: R, depth: int, draws: Draws, k: nat, m: Material, h: Hit<N>): (s: Step<R>)
    ensures s.Stop? ==> s.result.nested == 0 && k <= s.result.next <= k + 1
    ensures s.Continue? ==> k + 1 <= s.pos <= k + 4
  {
    match pol.debug
    case Albedo => Stop(Traced(m.albedo, k, 0))
    case Normal => Stop(Traced(geo.normalColor(h.normal), k, 0))
    case Depth => Stop(Traced(geo.depthColor(h.distance), k, 0))
    case Off =>
      var nl := Oriented(pol, geo, h.normal, r);
      var p := MaxChannel(m.albedo);
      if Roulette(pol, depth) && draws(k) >= p then Stop(Traced(m.emission, k + 1, 0))
      else
        var k1 := if Roulette(pol, depth) then k + 1 else k;
        var f := if Roulette(pol, depth) then Scale(m.albedo, 1.0 / p) else m.albedo;
        if MaxChannel(f) < Dim then Stop(Traced(m.emission, k1, 0))
        else if m.reflectivity <= 0.0 then Continue(geo.scatter(r, h.distance, nl, draws(k1), draws(k1 + 1)), k1 + 2, f)
        else if draws(k1) < m.reflectivity then Continue(geo.reflect(r, h.distance, nl), k1 + 1, f)
        else Continue(geo.scatter(r, h.distance, nl, draws(k1 + 1), draws(k1 + 2)), k1 + 3, f)
  }

  /** Everything `trace_ray` does after the scan found a hit h on an object of material m. */
  function Shade<R, S, N>(pol: Policy, geo: Geometry<R, S, N>, objs: seq<Object<S>>, r: R, depth: int, draws: Draws, k: nat,
                          m: Material, h: Hit<N>): (t: Traced)
    requires depth <= pol.maxBounces
    ensures k <= t.next <= k + 4 * (t.nested + 1)
    ensures t.nested <= pol.maxBounces + 1 - depth
    decreases pol.maxBounces + 1 - depth, 1
  {
    match Decide(pol, geo, r, depth, draws, k, m, h)
    case Stop(t) => t
    case Continue(next, pos, f) => Bounce(pol, geo, objs, next, depth, draws, pos, m.emission, f)
  }

  /** `emitted + f * trace_ray(next, depth + 1)`, the nested call reading draws from k. */
  function Bounce<R, S, N>(pol: Policy, geo: Geometry<R, S, N>, objs: seq<Object<S>>, next: R, depth: int, draws: Draws, k: nat,
                           emitted: Color, f: Color): (t: Traced)
    requires depth <= pol.maxBounces
    ensures k <= t.next <= k + 4 * t.nested
    ensures 1 <= t.nested <= pol.maxBounces + 1 - depth
    decreases pol.maxBounces + 1 - depth, 0
  {
    var u := Trace(pol, geo, objs, next, depth + 1, draws, k);
    Traced(Add(emitted, Mul(f, u.color)), u.next, u.nested + 1)
  }

  /**
   * trace_ray step by step: the cutoff, the scan loop, then the shading with
   * its recursive call.  It returns what Trace describes.
   */
  method TraceRay<R, S, N(==)>(pol: Policy, geo: Geometry<R, S, N>, objs: seq<Object<S>>, r: R, depth: int, draws: Draws, k: nat)
    returns (t: Traced)
    ensures t == Trace(pol, geo, objs, r, depth, draws, k)
    decreases pol.maxBounces + 1 - depth
  {
    if depth > pol.maxBounces {
      return Traced(Black, k, 0);
    }
    var closest, found, hit := ScanNearest(geo, r, objs);
    if found.None? {
      return Traced(Black, k, 0);
    }
    var m := objs[found.value].mat;
    var step := ShadeStep(pol, geo, r, depth, draws, k, m, hit.value);
    assert Trace(pol, geo, objs, r, depth, draws, k) == Shade(pol, geo, objs, r, depth, draws, k, m, hit.value);
    match step {
      case Stop(result) =>
        return result;
      case Continue(next, pos, f) =>
        var u := TraceRay(pol, geo, objs, next, depth + 1, draws, pos);
        return Traced(Add(m.emission, Mul(f, u.color)), u.next, u.nested + 1);
    }
  }

  /**
   * The statements of trace_ray between the scan and the nested call: the
   * debug exits, the roulette draw, the rescaled throughput, the dim exit and
   * the bounce choice with the draws it takes.
   */
  method ShadeStep<R, S, N>(pol: Policy, geo: Geometry<R, S, N>, r: R, depth: int, draws: Draws, k: nat, m: Material, h: Hit<N>)
    returns (step: Step<R>)
    ensures step == Decide(pol, geo, r, depth, draws, k, m, h)
  {
    match pol.debug {
      case Albedo => return Stop(Traced(m.albedo, k, 0));
      case Normal => return Stop(Traced(geo.normalColor(h.normal), k, 0));
      case Depth => return Stop(Traced(geo.depthColor(h.distance), k, 0));
      case Off =>
    }
    var nl := Oriented(pol, geo, h.normal, r);
    var emitted, f, refl := m.emission, m.albedo, m.reflectivity;
    var p := MaxChannel(f);
    var pos := k;
    if Roulette(pol, depth) {
      var draw := draws(pos);
      pos := pos + 1;
      if draw >= p {
        return Stop(Traced(emitted, pos, 0));
      }
      f := Scale(f, 1.0 / p);
    }
    if MaxChannel(f) < Dim {
      return Stop(Traced(emitted, pos, 0));
    }
    if refl <= 0.0 {
      return Continue(geo.scatter(r, h.distance, nl, draws(pos), draws(pos + 1)), pos + 2, f);
    }
    var mix := draws(pos);
    pos := pos + 1;
    if mix < refl {
      return Continue(geo.reflect(r, h.distance, nl), pos, f);
    }
    return Continue(geo.scatter(r, h.distance, nl, draws(pos), draws(pos + 1)), pos + 2, f);
  }

  // ---------------------------------------------------------------------------
  // What the skeleton promises

  /** No test reports a hit closer than 1e30f: the result is black and no draw is taken. */
  lemma TraceMiss<R, S, N>(pol: Policy, geo: Geometry<R, S, N>, objs: seq<Object<S>>, r: R, depth: int, draws: Draws, k: nat)
    requires forall i :: 0 <= i < |objs| ==> !Below(geo.intersect(r, objs[i].shape), Far)
    ensures Trace(pol, geo, objs, r, depth, draws, k) == Traced(Black, k, 0)
  {
    var hits := Tests(geo, r, objs);
    NearestCorrect(hits, |hits|);
    assert forall j :: 0 <= j < |hits| ==> !Below(hits[j], Far) by {
      forall j | 0 <= j < |hits| ensures !Below(hits[j], Far) {
        assert hits[j] == geo.intersect(r, objs[j].shape);
      }
    }
  }

  /** Within the depth limit, a first nearest hit on object i is shaded with object i's material and record. */
  lemma TraceHit<R, S, N>(pol: Policy, geo: Geometry<R, S, N>, objs: seq<Object<S>>, r: R, depth: int, draws: Draws, k: nat, i: int)
    requires depth <= pol.maxBounces
    requires FirstNearest(Tests(geo, r, objs), |objs|, i)
    ensures Trace(pol, geo, objs, r, depth, draws, k)
         == Shade(pol, geo, objs, r, depth, draws, k, objs[i].mat, geo.intersect(r, objs[i].shape).value)
  {
    NearestIs(Tests(geo, r, objs), i);
  }

  /** In albedo debug mode a hit returns the albedo of the object hit, before any draw. */
  lemma AlbedoDebug<R, S, N>(pol: Policy, geo: Geometry<R, S, N>, objs: seq<Object<S>>, r: R, depth: int, draws: Draws, k: nat, i: int)
    requires depth <= pol.maxBounces && pol.debug == Albedo
    requires FirstNearest(Tests(geo, r, objs), |objs|, i)
    ensures Trace(pol, geo, objs, r, depth, draws, k) == Traced(objs[i].mat.albedo, k, 0)
  {
    TraceHit(pol, geo, objs, r, depth, draws, k, i);
  }

  /** Past the roulette depth, a draw of at least the largest albedo channel ends the path with exactly the emission. */
  lemma RouletteExit<R, S, N>(pol: Policy, geo: Geometry<R, S, N>, objs: seq<Object<S>>, r: R, depth: int, draws: Draws, k: nat, i: int)
    requires depth <= pol.maxBounces && pol.debug == Off && Roulette(pol, depth)
    requires FirstNearest(Tests(geo, r, objs), |objs|, i)
    requires draws(k) >= MaxChannel(objs[i].mat.albedo)
    ensures Trace(pol, geo, objs, r, depth, draws, k) == Traced(objs[i].mat.emission, k + 1, 0)
  {
    TraceHit(pol, geo, objs, r, depth, draws, k, i);
  }

  /**
   * The throughput after roulette: the albedo, divided by its largest channel
   * when roulette applies.  Roulette survival (draw below that channel) makes
   * the divisor positive.
   */
  function Throughput(pol: Policy, depth: int, albedo: Color, draw: Unit): Color
    requires Roulette(pol, depth) ==> draw < MaxChannel(albedo)
  {
    if Roulette(pol, depth) then Scale(albedo, 1.0 / MaxChannel(albedo)) else albedo
  }

  /** A surviving path whose throughput has no channel of 0.05f or more ends with exactly the emission. */
  lemma DimExit<R, S, N>(pol: Policy, geo: Geometry<R, S, N>, objs: seq<Object<S>>, r: R, depth: int, draws: Draws, k: nat, i: int)
    requires depth <= pol.maxBounces && pol.debug == Off
    requires FirstNearest(Tests(geo, r, objs), |objs|, i)
    requires Roulette(pol, depth) ==> draws(k) < MaxChannel(objs[i].mat.albedo)
    requires MaxChannel(Throughput(pol, depth, objs[i].mat.albedo, draws(k))) < Dim
    ensures Trace(pol, geo, objs, r, depth, draws, k).color == objs[i].mat.emission
    ensures Trace(pol, geo, objs, r, depth, draws, k).nested == 0
  {
    TraceHit(pol, geo, objs, r, depth, draws, k, i);
  }

  /**
   * A surviving path off a non-reflective material (reflectivity <= 0) takes the
   * diffuse bounce: no mix draw is taken; the next two draws build the bounce.
   */
  lemma MatteBounce<R, S, N>(pol: Policy, geo: Geometry<R, S, N>, objs: seq<Object<S>>, r: R, depth: int, draws: Draws, k: nat, i: int)
    requires depth <= pol.maxBounces && pol.debug == Off
    requires FirstNearest(Tests(geo, r, objs), |objs|, i)
    requires Roulette(pol, depth) ==> draws(k) < MaxChannel(objs[i].mat.albedo)
    requires MaxChannel(Throughput(pol, depth, objs[i].mat.albedo, draws(k))) >= Dim
    requires objs[i].mat.reflectivity <= 0.0
    ensures
      var m, h := objs[i].mat, geo.intersect(r, objs[i].shape).value;
      var k1 := if Roulette(pol, depth) then k + 1 else k;
      var nl := Oriented(pol, geo, h.normal, r);
      Trace(pol, geo, objs, r, depth, draws, k)
      == Bounce(pol, geo, objs, geo.scatter(r, h.distance, nl, draws(k1), draws(k1 + 1)), depth, draws, k1 + 2,
                m.emission, Throughput(pol, depth, m.albedo, draws(k)))
  {
    TraceHit(pol, geo, objs, r, depth, draws, k, i);
  }

  /**
   * Off a reflective material the mix draw decides: the mirror ray is traced
   * exactly when the draw is below the reflectivity, and otherwise the diffuse
   * bounce built from the two draws after it.
   */
  lemma MixedBounce<R, S, N>(pol: Policy, geo: Geometry<R, S, N>, objs: seq<Object<S>>, r: R, depth: int, draws: Draws, k: nat, i: int)
    requires depth <= pol.maxBounces && pol.debug == Off
    requires FirstNearest(Tests(geo, r, objs), |objs|, i)
    requires Roulette(pol, depth) ==> draws(k) < MaxChannel(objs[i].mat.albedo)
    requires MaxChannel(Throughput(pol, depth, objs[i].mat.albedo, draws(k))) >= Dim
    requires objs[i].mat.reflectivity > 0.0
    ensures
      var m, h := objs[i].mat, geo.intersect(r, objs[i].shape).value;
      var k1 := if Roulette(pol, depth) then k + 1 else k;
      var nl := Oriented(pol, geo, h.normal, r);
      var f := Throughput(pol, depth, m.albedo, draws(k));
      Trace(pol, geo, objs, r, depth, draws, k)
      == if draws(k1) < m.reflectivity
         then Bounce(pol, geo, objs, geo.reflect(r, h.distance, nl), depth, draws, k1 + 1, m.emission, f)
         else Bounce(pol, geo, objs, geo.scatter(r, h.distance, nl, draws(k1 + 1), draws(k1 + 2)), depth, draws, k1 + 3, m.emission, f)
  {
    TraceHit(pol, geo, objs, r, depth, draws, k, i);
  }

  /** The two orientations agree except when the normal is perpendicular to the ray, where only main.cpp's flips it. */
  lemma OrientationsDiffer<R, S, N>(geo: Geometry<R, S, N>, n: N, r: R, pol: Policy, pol': Policy)
    requires pol.orientation == KeepIfFacing && pol'.orientation == FlipIfBehind
    ensures geo.facing(n, r) != 0.0 ==> Oriented(pol, geo, n, r) == Oriented(pol', geo, n, r)
    ensures geo.facing(n, r) == 0.0 ==> Oriented(pol, geo, n, r) == geo.negate(n) && Oriented(pol', geo, n, r) == n
  {
  }
}
