/**
 * `scene` of include/components/scene/scene.hpp: an environment record and an
 * append-only vector of objects, with the integrator `trace_ray`, whose depth
 * cutoff and debug mode come from render_settings and which plays roulette
 * from depth 5 on.
 */
module Scenes {
  import opened Colors
  import opened Tracing

  /** render_settings of include/components/rendering/render_settings.hpp. */
  datatype RenderSettings = RenderSettings(debug: DebugMode, multithreaded: bool, cosineHemisphere: bool, ssp: int, maxBounces: int)

  /** The field initialisers: the depth debug view, 10 samples and 10 bounces. */
  const DefaultSettings := RenderSettings(Depth, true, true, 10, 10)

  datatype Environment = Environment(fogColor: Color, fogDensity: real, skyColor: Color)

  /** The initialisers 0.01, 0.1 and 0.2 as the floats they are stored in, exactly. */
  const DefaultEnvironment := Environment(Black, 0.00999999977648258209228515625,
    Color(0.100000001490116119384765625, 0.100000001490116119384765625, 0.20000000298023223876953125))

  /** Roulette is played when `depth > 4`. */
  const RouletteAfter := 4

  /** The skeleton's switches as `scene::trace_ray` reads them from the settings. */
  function ScenePolicy(settings: RenderSettings): (pol: Policy)
    ensures pol.maxBounces == settings.maxBounces && pol.debug == settings.debug
    ensures pol.rouletteAfter == RouletteAfter && pol.orientation == FlipIfBehind
  {
    Policy(settings.maxBounces, RouletteAfter, settings.debug, FlipIfBehind)
  }

  class Scene<S> {
    var environment: Environment
    var objects: seq<Object<S>>

    constructor ()
      ensures environment == DefaultEnvironment && objects == []
    {
      environment, objects := DefaultEnvironment, [];
    }

    /** `object_count()`. */
    function ObjectCount(): (count: nat)
      reads this
      ensures count == 0 <==> objects == []
    {
      |objects|
    }

    /**
     * `add_object(o)`: appends o and returns its index, the count before the
     * call; the count grows by one and the earlier objects stay as they were.
     */
    method AddObject(o: Object<S>) returns (index: nat)
      modifies this
      ensures index == old(ObjectCount()) && ObjectCount() == old(ObjectCount()) + 1
      ensures objects[index] == o && objects[..index] == old(objects)
      ensures environment == old(environment)
    {
      objects := objects + [o];
      index := |objects| - 1;
    }

    /** `trace_ray(r, depth)` with the given settings, reading draws from position k. */
    method TraceRay<R, N(==)>(settings: RenderSettings, geo: Geometry<R, S, N>, r: R, depth: int, draws: Draws, k: nat)
      returns (t: Traced)
      ensures t == Trace(ScenePolicy(settings), geo, objects, r, depth, draws, k)
    {
      t := Tracing.TraceRay(ScenePolicy(settings), geo, objects, r, depth, draws, k);
    }
  }

  /** Past max_bounces the result is black and no draw is taken. */
  lemma SceneCutoff<R, S, N>(settings: RenderSettings, geo: Geometry<R, S, N>, objs: seq<Object<S>>, r: R, depth: int, draws: Draws, k: nat)
    requires depth > settings.maxBounces
    ensures Trace(ScenePolicy(settings), geo, objs, r, depth, draws, k) == Traced(Black, k, 0)
  {
  }

  /**
   * With the default settings the scene renders its depth view: a hit returns
   * the depth colour of the hit distance without any draw.
   */
  lemma DefaultSettingsShowDepth<R, S, N>(geo: Geometry<R, S, N>, objs: seq<Object<S>>, r: R, depth: int, draws: Draws, k: nat, i: int)
    requires depth <= DefaultSettings.maxBounces
    requires FirstNearest(Tests(geo, r, objs), |objs|, i)
    ensures Trace(ScenePolicy(DefaultSettings), geo, objs, r, depth, draws, k)
         == Traced(geo.depthColor(geo.intersect(r, objs[i].shape).value.distance), k, 0)
  {
    TraceHit(ScenePolicy(DefaultSettings), geo, objs, r, depth, draws, k, i);
  }

  /** In the albedo debug view a hit returns the albedo of the object hit, before any draw. */
  lemma SceneAlbedoDebug<R, S, N>(settings: RenderSettings, geo: Geometry<R, S, N>, objs: seq<Object<S>>, r: R, depth: int, draws: Draws, k: nat, i: int)
    requires depth <= settings.maxBounces && settings.debug == Albedo
    requires FirstNearest(Tests(geo, r, objs), |objs|, i)
    ensures Trace(ScenePolicy(settings), geo, objs, r, depth, draws, k) == Traced(objs[i].mat.albedo, k, 0)
  {
    AlbedoDebug(ScenePolicy(settings), geo, objs, r, depth, draws, k, i);
  }

  /** Already at depth 5 a roulette draw of at least the largest albedo channel returns exactly the emission. */
  lemma SceneRouletteExit<R, S, N>(settings: RenderSettings, geo: Geometry<R, S, N>, objs: seq<Object<S>>, r: R, depth: int, draws: Draws, k: nat, i: int)
    requires RouletteAfter < depth <= settings.maxBounces && settings.debug == Off
    requires FirstNearest(Tests(geo, r, objs), |objs|, i)
    requires draws(k) >= MaxChannel(objs[i].mat.albedo)
    ensures Trace(ScenePolicy(settings), geo, objs, r, depth, draws, k) == Traced(objs[i].mat.emission, k + 1, 0)
  {
    RouletteExit(ScenePolicy(settings), geo, objs, r, depth, draws, k, i);
  }
}
