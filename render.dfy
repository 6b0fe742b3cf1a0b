/**
 * The render driver of main.cpp: the image rows are split into one band per
 * worker, and `render_rows(start, end)` fills a band pixel by pixel with the
 * clamped average of 64 samples, drawing from an engine seeded with `start`.
 * The workers run one after another here; each band writes only its own
 * cells and draws only from its own engine, so the order does not matter.
 */
module Render {
  import opened Colors
  import opened Textures
  import opened Tracing
  import opened PathTracer

  /** `spp`. */
  const SamplesPerPixel: nat := 64

  /** `std::mt19937 rng(seed)` for every seed, as the stream of its randf draws. */
  type Engine = int -> Draws

  // ---------------------------------------------------------------------------
  // The row partition

  /** A band of rows [start, end) handed to one worker. */
  datatype Band = Band(start: int, end: int)

  /**
   * The start of block i when blocks of `size` items are laid end to end,
   * i * size, written as a sum so that the facts about bands and rows below
   * stay linear.
   */
  function Offset(size: nat, i: nat): nat
  {
    if i == 0 then 0 else Offset(size, i - 1) + size
  }

  lemma {:induction false} OffsetIsProduct(size: nat, i: nat)
    ensures Offset(size, i) == i * size
  {
    if i > 0 {
      OffsetIsProduct(size, i - 1);
      assert (i - 1) * size + size == i * size;
    }
  }

  lemma {:induction false} OffsetMono(size: nat, i: nat, i': nat)
    requires i <= i'
    ensures Offset(size, i) <= Offset(size, i')
    decreases i' - i
  {
    if i < i' {
      OffsetMono(size, i, i' - 1);
    }
  }

  /** `t * rows_per_thread`, where rows_per_thread = height / n. */
  function BandStart(height: int, n: int, t: int): int
    requires 0 <= height && 1 <= n && 0 <= t
  {
    Offset(height / n, t)
  }

  /** The last band ends at height, every other one rows_per_thread rows after its start. */
  function BandEnd(height: int, n: int, t: int): int
    requires 0 <= height && 1 <= n && 0 <= t
  {
    if t == n - 1 then height else BandStart(height, n, t) + height / n
  }

  /** The loop that starts one worker per band, collecting the bands in order. */
  method Partition(height: int, n: int) returns (bands: seq<Band>)
    requires 0 <= height && 1 <= n
    ensures |bands| == n
    ensures forall t :: 0 <= t < n ==> bands[t] == Band(BandStart(height, n, t), BandEnd(height, n, t))
  {
    var rowsPerThread := height / n;
    bands := [];
    for t := 0 to n
      invariant |bands| == t
      invariant forall u :: 0 <= u < t ==> bands[u] == Band(BandStart(height, n, u), BandEnd(height, n, u))
    {
      var start := t * rowsPerThread;
      var end := if t == n - 1 then height else start + rowsPerThread;
      OffsetIsProduct(rowsPerThread, t);
      bands := bands + [Band(start, end)];
    }
  }

  lemma MulMono(a: int, b: int, q: int)
    requires a <= b && 0 <= q
    ensures a * q <= b * q
  {
    assert b * q - a * q == (b - a) * q;
  }

  /**
   * The bands lie inside [0, height), the first starts at 0, the last ends at
   * height, and each ends where the next begins.
   */
  lemma BandBounds(height: int, n: int, t: int)
    requires 0 <= height && 1 <= n && 0 <= t < n
    ensures 0 <= BandStart(height, n, t) <= BandEnd(height, n, t) <= height
    ensures t == 0 ==> BandStart(height, n, t) == 0
    ensures t == n - 1 ==> BandEnd(height, n, t) == height
    ensures t < n - 1 ==> BandEnd(height, n, t) == BandStart(height, n, t + 1)
  {
    var q := height / n;
    assert n * q <= height;
    OffsetIsProduct(q, n);
    OffsetMono(q, t + 1, n);
  }

  /** An earlier band ends no later than a later band starts: the bands are pairwise disjoint. */
  lemma BandsOrdered(height: int, n: int, t: int, t': int)
    requires 0 <= height && 1 <= n && 0 <= t < t' < n
    ensures BandEnd(height, n, t) <= BandStart(height, n, t')
  {
    OffsetMono(height / n, t + 1, t');
  }

  /** The worker whose band holds row y. */
  function BandOf(height: int, n: int, y: int): (b: int)
    requires 0 <= height && 1 <= n && 0 <= y
    ensures 0 <= b < n
  {
    var q := height / n;
    if q == 0 then n - 1 else Min'(y / q, n - 1)
  }

  function Min'(a: int, b: int): int { if a < b then a else b }

  /** With q = height / n rows per band, row y lies in band y / q, or in the last band past it. */
  lemma BandOfPositive(height: int, n: int, y: int)
    requires 0 <= height && 1 <= n && 0 <= y < height && height / n > 0
    ensures BandStart(height, n, BandOf(height, n, y)) <= y < BandEnd(height, n, BandOf(height, n, y))
  {
    var q := height / n;
    var m := y / q;
    assert m * q <= y < m * q + q;
    OffsetIsProduct(q, BandOf(height, n, y));
    if m > n - 1 {
      MulMono(n - 1, m, q);
    }
  }

  /** Row y lies in the band of BandOf(y). */
  lemma BandOfHolds(height: int, n: int, y: int)
    requires 0 <= height && 1 <= n && 0 <= y < height
    ensures BandStart(height, n, BandOf(height, n, y)) <= y < BandEnd(height, n, BandOf(height, n, y))
  {
    if height / n > 0 {
      BandOfPositive(height, n, y);
    } else {
      OffsetIsProduct(0, n - 1);
    }
  }

  /** Row y lies in band t exactly when t is BandOf(y): every row belongs to exactly one band. */
  lemma BandOfCorrect(height: int, n: int, y: int, t: int)
    requires 0 <= height && 1 <= n && 0 <= y < height && 0 <= t < n
    ensures BandStart(height, n, t) <= y < BandEnd(height, n, t) <==> t == BandOf(height, n, y)
  {
    var b := BandOf(height, n, y);
    BandOfHolds(height, n, y);
    if t < b {
      BandsOrdered(height, n, t, b);
    } else if b < t {
      BandsOrdered(height, n, b, t);
    }
  }

  // ---------------------------------------------------------------------------
  // What render_rows computes

  /** Rows 0 to y - 1 of a w-wide, height-high image fit in its w * height cells. */
  lemma OffsetWithin(w: nat, height: nat, y: nat)
    requires y <= height
    ensures Offset(w, y) <= w * height
  {
    OffsetMono(w, y, height);
    OffsetIsProduct(w, height);
  }

  /** The running sum of the sample loop and the engine position after it. */
  datatype Acc = Acc(sum: Color, next: nat)

  /** The sum of the first s samples of pixel (x, y), the engine starting at draw k. */
  function PixelSum<R, S, N>(su: Setup<R, S, N>, draws: Draws, x: int, y: int, s: nat, k: nat): (a: Acc)
    ensures k + 4 * s <= a.next
  {
    if s == 0 then Acc(Black, k)
    else
      var a := PixelSum(su, draws, x, y, s - 1, k);
      var t := CameraSample(su, draws, x, y, a.next);
      Acc(Add(a.sum, t.color), t.next)
  }

  /** What render_rows stores for a pixel whose samples sum to `sum`: the clamped average. */
  function Stored(sum: Color): (c: Color)
    ensures InRange(c, 0.0, 1.0)
    ensures InRange(Div(sum, SamplesPerPixel as real), 0.0, 1.0) ==> c == Div(sum, SamplesPerPixel as real)
  {
    Clamped(Div(sum, SamplesPerPixel as real))
  }

  /**
   * A pixel's sample loop as a value: for the draws, the pixel (x, y) and the
   * engine position k, the sum of its samples and the position after them.
   */
  type PixelFn = (Draws, int, int, nat) -> Acc

  /**
   * pixel is the sample loop of su: 64 traced camera samples summed.  The
   * equation is used where a sample loop has been run.
   */
  ghost predicate Samples<R, S, N>(pixel: PixelFn, su: Setup<R, S, N>)
  {
    forall d, x, y, k {:trigger PixelSum(su, d, x, y, SamplesPerPixel, k)} ::
      pixel(d, x, y, k) == PixelSum(su, d, x, y, SamplesPerPixel, k)
  }

  /** The sample loop of su as a PixelFn. */
  function SampleLoop<R, S, N>(su: Setup<R, S, N>): (pixel: PixelFn)
    ensures Samples(pixel, su)
  {
    (d, x, y, k) => PixelSum(su, d, x, y, SamplesPerPixel, k)
  }

  /** The values a run of pixels stores, in order, and the engine position after it. */
  datatype Run = Run(values: seq<Color>, next: nat)

  predicate AllInRange(cs: seq<Color>)
  {
    forall i :: 0 <= i < |cs| ==> InRange(cs[i], 0.0, 1.0)
  }

  /** Columns 0 to x - 1 of row y, the engine starting at draw k. */
  function RowRun(pixel: PixelFn, draws: Draws, y: int, x: nat, k: nat): (run: Run)
    ensures |run.values| == x && AllInRange(run.values)
  {
    if x == 0 then Run([], k)
    else
      var p := RowRun(pixel, draws, y, x - 1, k);
      var a := pixel(draws, x - 1, y, p.next);
      Run(p.values + [Stored(a.sum)], a.next)
  }

  /** Rows start to y - 1 of a w-wide image, the engine starting at draw k. */
  function BandRun(pixel: PixelFn, draws: Draws, w: nat, start: nat, y: nat, k: nat): (run: Run)
    requires start <= y
    ensures |run.values| == Offset(w, y) - Offset(w, start) && AllInRange(run.values)
    decreases y - start
  {
    if y == start then Run([], k)
    else
      var b := BandRun(pixel, draws, w, start, y - 1, k);
      var row := RowRun(pixel, draws, y - 1, w, b.next);
      OffsetMono(w, start, y - 1);
      Run(b.values + row.values, row.next)
  }

  /** The row where the first t bands end: 0 for none, else the end of band t - 1. */
  function Covered(height: int, n: int, t: int): (e: nat)
    requires 0 <= height && 1 <= n && 0 <= t <= n
    ensures e <= height
  {
    if t == 0 then 0
    else
      BandBounds(height, n, t - 1);
      BandEnd(height, n, t - 1)
  }

  /** The image after the first t workers: their bands' values, in order, each band drawing from an engine seeded with its start. */
  function Bands(pixel: PixelFn, engine: Engine, w: nat, height: nat, n: int, t: int): (cells: seq<Color>)
    requires 1 <= n && 0 <= t <= n
    ensures |cells| == Offset(w, Covered(height, n, t))
    ensures AllInRange(cells)
  {
    if t == 0 then []
    else
      BandBounds(height, n, t - 1);
      var start, end := BandStart(height, n, t - 1), BandEnd(height, n, t - 1);
      assert Covered(height, n, t - 1) == start by {
        if t >= 2 { BandBounds(height, n, t - 2); }
      }
      OffsetMono(w, start, end);
      Bands(pixel, engine, w, height, n, t - 1) + BandRun(pixel, engine(start), w, start, end, 0).values
  }

  // ---------------------------------------------------------------------------
  // Writing cells

  /** The cells c with the run v written from index a on, when it fits. */
  function Splice(c: seq<Color>, a: nat, v: seq<Color>): (d: seq<Color>)
    ensures |d| == |c|
  {
    if a + |v| <= |c| then c[..a] + v + c[a + |v|..] else c
  }

  lemma SpliceSnoc(c: seq<Color>, a: nat, v: seq<Color>, e: Color)
    requires a + |v| < |c|
    ensures Splice(c, a, v)[a + |v| := e] == Splice(c, a, v + [e])
  {
    assert c[a + |v|..] == [c[a + |v|]] + c[a + |v| + 1..];
  }

  lemma SpliceAppend(c: seq<Color>, a: nat, v1: seq<Color>, v2: seq<Color>)
    requires a + |v1| + |v2| <= |c|
    ensures Splice(Splice(c, a, v1), a + |v1|, v2) == Splice(c, a, v1 + v2)
  {
    var d := Splice(c, a, v1);
    assert d[..a + |v1|] == c[..a] + v1;
    assert d[a + |v1| + |v2|..] == c[a + |v1| + |v2|..];
  }

  lemma SpliceNothing(c: seq<Color>, a: nat)
    ensures Splice(c, a, []) == c
  {
    if a <= |c| {
      assert c[..a] + c[a..] == c;
    }
  }

  lemma SpliceWhole(c: seq<Color>, v: seq<Color>)
    requires |v| == |c|
    ensures Splice(c, 0, v) == v
  {
    assert c[..0] == [] && c[|v|..] == [];
  }

  // ---------------------------------------------------------------------------
  // render_rows

  /** The sample loop of pixel (x, y): 64 traced camera samples summed, the engine starting at draw k. */
  method SamplePixel<R, S, N(==)>(su: Setup<R, S, N>, draws: Draws, x: int, y: int, k: nat) returns (pixel: Color, pos: nat)
    ensures Acc(pixel, pos) == PixelSum(su, draws, x, y, SamplesPerPixel, k)
  {
    pixel, pos := Black, k;
    for s := 0 to SamplesPerPixel
      invariant Acc(pixel, pos) == PixelSum(su, draws, x, y, s, k)
    {
      var t := TraceSample(su, draws, x, y, pos);
      pixel, pos := Add(pixel, t.color), t.next;
    }
  }

  /** Columns 0 to x - 1 of row y are in place over the cells `before`, and the engine is at the draw after them. */
  ghost predicate PixelsPainted(img: Texture, before: seq<Color>, pixel: PixelFn, draws: Draws, y: nat, x: nat, k: nat, pos: nat)
    reads img, img.pixels
  {
    img.Valid() && img.pixels != null && x <= img.width && y < img.height && |before| == |img.Cells()|
    && img.Cells() == Splice(before, Offset(img.width, y), RowRun(pixel, draws, y, x, k).values)
    && pos == RowRun(pixel, draws, y, x, k).next
  }

  /** One pass of the x loop: the sample loop of pixel (x, y), its clamped average stored through `at(x, y)`. */
  method RenderPixel<R, S, N(==)>(img: Texture, su: Setup<R, S, N>, ghost pixel: PixelFn, draws: Draws, y: nat, x: nat, k: nat, pos: nat,
                                  ghost before: seq<Color>)
    returns (pos': nat)
    requires x < img.width && Samples(pixel, su) && PixelsPainted(img, before, pixel, draws, y, x, k, pos)
    modifies img.pixels
    ensures img.width == old(img.width) && img.height == old(img.height)
    ensures PixelsPainted(img, before, pixel, draws, y, x + 1, k, pos')
  {
    ghost var values := RowRun(pixel, draws, y, x, k).values;
    var sum;
    sum, pos' := SamplePixel(su, draws, x, y, pos);
    OffsetIsProduct(img.width, y);
    OffsetWithin(img.width, img.height, y + 1);
    img.SetAt(x, y, Stored(sum));
    SpliceSnoc(before, Offset(img.width, y), values, Stored(sum));
  }

  /**
   * One pass of the y loop of render_rows over row y: every cell of the row
   * receives its clamped average, through `at(x, y)`, from left to right; no
   * other cell changes.
   */
  method RenderRow<R, S, N(==)>(img: Texture, su: Setup<R, S, N>, ghost pixel: PixelFn, draws: Draws, y: nat, k: nat)
    returns (pos: nat)
    requires img.Valid() && 0 <= img.width && y < img.height && Samples(pixel, su)
    modifies img.pixels
    ensures img.Valid() && img.width == old(img.width) && img.height == old(img.height)
    ensures Offset(img.width, y + 1) <= |old(img.Cells())|
    ensures img.Cells() == Splice(old(img.Cells()), Offset(img.width, y), RowRun(pixel, draws, y, img.width, k).values)
    ensures pos == RowRun(pixel, draws, y, img.width, k).next
  {
    OffsetWithin(img.width, img.height, y + 1);
    ghost var before := img.Cells();
    pos := k;
    for x := 0 to img.width
      invariant img.width == old(img.width) && img.height == old(img.height)
      invariant PixelsPainted(img, before, pixel, draws, y, x, k, pos)
    {
      pos := RenderPixel(img, su, pixel, draws, y, x, k, pos, before);
    }
  }

  /** Rows start to y - 1 of the band are in place over the cells `before`, and the engine is at the draw after them. */
  ghost predicate RowsPainted(img: Texture, before: seq<Color>, pixel: PixelFn, draws: Draws, start: nat, y: nat, pos: nat)
    reads img, img.pixels
  {
    img.Valid() && 0 <= img.width && start <= y <= img.height && |before| == |img.Cells()|
    && img.Cells() == Splice(before, Offset(img.width, start), BandRun(pixel, draws, img.width, start, y, 0).values)
    && pos == BandRun(pixel, draws, img.width, start, y, 0).next
  }

  /** One pass of the y loop of render_rows: row y follows rows start to y - 1 of the band. */
  method RenderBandRow<R, S, N(==)>(img: Texture, su: Setup<R, S, N>, ghost pixel: PixelFn, draws: Draws, start: nat, y: nat, k: nat,
                                    ghost before: seq<Color>)
    returns (pos: nat)
    requires y < img.height && Samples(pixel, su) && RowsPainted(img, before, pixel, draws, start, y, k)
    modifies img.pixels
    ensures img.width == old(img.width) && img.height == old(img.height)
    ensures RowsPainted(img, before, pixel, draws, start, y + 1, pos)
  {
    var width := img.width;
    ghost var band := BandRun(pixel, draws, width, start, y, 0);
    ghost var row := RowRun(pixel, draws, y, width, k);
    assert BandRun(pixel, draws, width, start, y + 1, 0) == Run(band.values + row.values, row.next);
    OffsetMono(width, start, y);
    pos := RenderRow(img, su, pixel, draws, y, k);
    SpliceAppend(before, Offset(width, start), band.values, row.values);
  }

  /**
   * render_rows(start, end): rows start to end - 1 in order, drawing from an
   * engine seeded with start.  The band's cells receive the band's values and
   * no other cell changes.
   */
  method RenderRows<R, S, N(==)>(img: Texture, su: Setup<R, S, N>, ghost pixel: PixelFn, engine: Engine, start: nat, end: nat)
    requires img.Valid() && 0 <= img.width && start <= end <= img.height && Samples(pixel, su)
    modifies img.pixels
    ensures img.Valid() && img.width == old(img.width) && img.height == old(img.height)
    ensures Offset(img.width, end) <= |old(img.Cells())|
    ensures img.Cells() == Splice(old(img.Cells()), Offset(img.width, start), BandRun(pixel, engine(start), img.width, start, end, 0).values)
  {
    var draws := engine(start);
    ghost var before := img.Cells();
    OffsetWithin(img.width, img.height, end);
    var pos := 0;
    for y := start to end
      invariant img.width == old(img.width) && img.height == old(img.height)
      invariant RowsPainted(img, before, pixel, draws, start, y, pos)
    {
      pos := RenderBandRow(img, su, pixel, draws, start, y, pos, before);
    }
  }

  /** The bands of workers 0 to t - 1 are in place over the cells `before`, and nothing else has changed. */
  ghost predicate Painted(img: Texture, before: seq<Color>, pixel: PixelFn, engine: Engine, w: nat, height: nat, n: int, t: int)
    reads img, img.pixels
  {
    img.Valid() && img.width == w && img.height == height && 1 <= n && 0 <= t <= n && |before| == |img.Cells()|
    && img.Cells() == Splice(before, 0, Bands(pixel, engine, w, height, n, t))
  }

  /** The first t bands end where band t starts, and band t follows them. */
  lemma BandsNext(pixel: PixelFn, engine: Engine, w: nat, height: nat, n: int, t: int)
    requires 1 <= n && 0 <= t < n
    ensures BandStart(height, n, t) <= BandEnd(height, n, t) <= height
    ensures |Bands(pixel, engine, w, height, n, t)| == Offset(w, BandStart(height, n, t))
    ensures Bands(pixel, engine, w, height, n, t + 1)
         == Bands(pixel, engine, w, height, n, t)
            + BandRun(pixel, engine(BandStart(height, n, t)), w, BandStart(height, n, t), BandEnd(height, n, t), 0).values
  {
    BandBounds(height, n, t);
    if t > 0 { BandBounds(height, n, t - 1); }
  }

  /** Worker t of the partition loop: render_rows over band t adds that band's values. */
  method RenderBand<R, S, N(==)>(img: Texture, su: Setup<R, S, N>, ghost pixel: PixelFn, engine: Engine, width: nat, height: nat,
                                 n: int, t: int, band: Band, ghost before: seq<Color>)
    requires t < n && Samples(pixel, su) && Painted(img, before, pixel, engine, width, height, n, t)
    requires band == Band(BandStart(height, n, t), BandEnd(height, n, t))
    modifies img.pixels
    ensures Painted(img, before, pixel, engine, width, height, n, t + 1)
  {
    BandsNext(pixel, engine, width, height, n, t);
    ghost var done := Bands(pixel, engine, width, height, n, t);
    var start, end := band.start, band.end;
    RenderRows(img, su, pixel, engine, start, end);
    SpliceAppend(before, 0, done, BandRun(pixel, engine(start), width, start, end, 0).values);
  }

  /** The partition loop: worker t renders band t, for t from 0 to n - 1. */
  method RunWorkers<R, S, N(==)>(img: Texture, su: Setup<R, S, N>, ghost pixel: PixelFn, engine: Engine, width: nat, height: nat,
                                 n: int, bands: seq<Band>, ghost before: seq<Color>)
    requires Samples(pixel, su) && Painted(img, before, pixel, engine, width, height, n, 0)
    requires |bands| == n && forall t :: 0 <= t < n ==> bands[t] == Band(BandStart(height, n, t), BandEnd(height, n, t))
    modifies img.pixels
    ensures Painted(img, before, pixel, engine, width, height, n, n)
  {
    for t := 0 to n
      invariant Painted(img, before, pixel, engine, width, height, n, t)
    {
      RenderBand(img, su, pixel, engine, width, height, n, t, bands[t], before);
    }
  }

  /** The n bands together cover every cell of a w-wide, height-high image. */
  lemma BandsCover(pixel: PixelFn, engine: Engine, w: nat, height: nat, n: int, before: seq<Color>)
    requires 1 <= n && |before| == w * height
    ensures Splice(before, 0, Bands(pixel, engine, w, height, n, n)) == Bands(pixel, engine, w, height, n, n)
  {
    BandBounds(height, n, n - 1);
    OffsetIsProduct(w, height);
    assert height * w == w * height;
    SpliceWhole(before, Bands(pixel, engine, w, height, n, n));
  }

  // ---------------------------------------------------------------------------
  // Which values end up in which cells

  /** Column x' of a run of x columns: pixel (x', y) sampled from where the first x' columns left the engine. */
  lemma {:induction false} RowRunAt(pixel: PixelFn, draws: Draws, y: int, x: nat, k: nat, x': nat)
    requires x' < x
    ensures RowRun(pixel, draws, y, x, k).values[x'] == Stored(pixel(draws, x', y, RowRun(pixel, draws, y, x', k).next).sum)
  {
    var p := RowRun(pixel, draws, y, x - 1, k);
    if x' < x - 1 {
      RowRunAt(pixel, draws, y, x - 1, k, x');
    }
  }

  /** Cell x of row y' in a band's run: column x of row y', the row starting where the band's earlier rows left the engine. */
  lemma {:induction false} BandRunAt(pixel: PixelFn, draws: Draws, w: nat, start: nat, y: nat, k: nat, y': nat, x: nat)
    requires start <= y' < y && x < w
    ensures Offset(w, start) <= Offset(w, y')
    ensures Offset(w, y') - Offset(w, start) + x < |BandRun(pixel, draws, w, start, y, k).values|
    ensures BandRun(pixel, draws, w, start, y, k).values[Offset(w, y') - Offset(w, start) + x]
         == RowRun(pixel, draws, y', w, BandRun(pixel, draws, w, start, y', k).next).values[x]
    decreases y - start
  {
    OffsetMono(w, start, y');
    var b := BandRun(pixel, draws, w, start, y - 1, k);
    var row := RowRun(pixel, draws, y - 1, w, b.next);
    assert BandRun(pixel, draws, w, start, y, k).values == b.values + row.values;
    if y' < y - 1 {
      OffsetMono(w, y' + 1, y - 1);
      BandRunAt(pixel, draws, w, start, y - 1, k, y', x);
    }
  }

  /** Worker t only appends: the first t bands are a prefix of the first t + 1. */
  lemma {:induction false} BandsGrow(pixel: PixelFn, engine: Engine, w: nat, height: nat, n: int, t: int)
    requires 1 <= n && 0 <= t < n
    ensures |Bands(pixel, engine, w, height, n, t)| <= |Bands(pixel, engine, w, height, n, t + 1)|
    ensures Bands(pixel, engine, w, height, n, t + 1)[..|Bands(pixel, engine, w, height, n, t)|] == Bands(pixel, engine, w, height, n, t)
  {
    BandsNext(pixel, engine, w, height, n, t);
    var prev := Bands(pixel, engine, w, height, n, t);
    var s := BandStart(height, n, t);
    var last := BandRun(pixel, engine(s), w, s, BandEnd(height, n, t), 0).values;
    assert (prev + last)[..|prev|] == prev;
  }

  /** The chunks f(0), ..., f(t - 1), laid end to end. */
  function Chunks(f: int -> seq<Color>, t: nat): seq<Color>
  {
    if t == 0 then [] else Chunks(f, t - 1) + f(t - 1)
  }

  /** Appending further chunks leaves the earlier cells as they are. */
  lemma {:induction false} ChunksStable(f: int -> seq<Color>, t: nat, t2: nat, i: int)
    requires t <= t2 && 0 <= i < |Chunks(f, t)|
    ensures i < |Chunks(f, t2)| && Chunks(f, t2)[i] == Chunks(f, t)[i]
    decreases t2 - t
  {
    if t < t2 {
      ChunksStable(f, t, t2 - 1, i);
      assert (Chunks(f, t2 - 1) + f(t2 - 1))[i] == Chunks(f, t2 - 1)[i];
    }
  }

  /** The values band t stores; nothing outside the n bands. */
  function BandCells(pixel: PixelFn, engine: Engine, w: nat, height: nat, n: int, t: int): seq<Color>
  {
    if 1 <= n && 0 <= t < n then
      BandBounds(height, n, t);
      var s := BandStart(height, n, t);
      BandRun(pixel, engine(s), w, s, BandEnd(height, n, t), 0).values
    else []
  }

  /** The partition loop's step in terms of the band's values. */
  lemma {:induction false} BandsAppend(pixel: PixelFn, engine: Engine, w: nat, height: nat, n: int, t: int)
    requires 1 <= n && 0 <= t < n
    ensures Bands(pixel, engine, w, height, n, t + 1)
         == Bands(pixel, engine, w, height, n, t) + BandCells(pixel, engine, w, height, n, t)
  {
    BandsNext(pixel, engine, w, height, n, t);
  }

  /** The first t bands are the chunks f(0), ..., f(t - 1) of any f giving each band's values. */
  lemma {:induction false} BandsAreChunks(pixel: PixelFn, engine: Engine, w: nat, height: nat, n: int, f: int -> seq<Color>, t: int)
    requires 1 <= n && 0 <= t <= n
    requires forall k :: 0 <= k < n ==> f(k) == BandCells(pixel, engine, w, height, n, k)
    ensures Bands(pixel, engine, w, height, n, t) == Chunks(f, t)
  {
    if t > 0 {
      BandsAreChunks(pixel, engine, w, height, n, f, t - 1);
      BandsAppend(pixel, engine, w, height, n, t - 1);
      assert f(t - 1) == BandCells(pixel, engine, w, height, n, t - 1);
    }
  }

  /** Workers after the first t leave the cells of the first t bands as they are. */
  lemma {:induction false} BandsStable(pixel: PixelFn, engine: Engine, w: nat, height: nat, n: int, t: int, t2: int, i: int)
    requires 1 <= n && 0 <= t <= t2 <= n && 0 <= i < |Bands(pixel, engine, w, height, n, t)|
    ensures i < |Bands(pixel, engine, w, height, n, t2)|
    ensures Bands(pixel, engine, w, height, n, t2)[i] == Bands(pixel, engine, w, height, n, t)[i]
  {
    var f := k => BandCells(pixel, engine, w, height, n, k);
    BandsAreChunks(pixel, engine, w, height, n, f, t);
    BandsAreChunks(pixel, engine, w, height, n, f, t2);
    ChunksStable(f, t, t2, i);
  }

  /** A cell of a row of band t among the first t + 1 bands: the cell band t computed for it. */
  lemma {:induction false} BandSlice(pixel: PixelFn, engine: Engine, w: nat, height: nat, n: int, t: int, y: nat, x: nat)
    requires 1 <= n && 0 <= t < n && x < w
    requires BandStart(height, n, t) <= y < BandEnd(height, n, t)
    ensures Offset(w, BandStart(height, n, t)) <= Offset(w, y) && Offset(w, y) + x < Offset(w, BandEnd(height, n, t))
    ensures Offset(w, y) + x < |Bands(pixel, engine, w, height, n, t + 1)|
    ensures var s := BandStart(height, n, t);
      Bands(pixel, engine, w, height, n, t + 1)[Offset(w, y) + x]
      == BandRun(pixel, engine(s), w, s, BandEnd(height, n, t), 0).values[Offset(w, y) - Offset(w, s) + x]
  {
    var s, e := BandStart(height, n, t), BandEnd(height, n, t);
    OffsetMono(w, s, y);
    OffsetMono(w, y + 1, e);
    BandsNext(pixel, engine, w, height, n, t);
    var prev := Bands(pixel, engine, w, height, n, t);
    var last := BandRun(pixel, engine(s), w, s, e, 0).values;
    var i := Offset(w, y) + x;
    assert (prev + last)[i] == last[i - |prev|];
  }

  /** A cell of a row in band t' < t, among the first t bands: the cell band t' computed for it. */
  lemma {:induction false} BandsAt(pixel: PixelFn, engine: Engine, w: nat, height: nat, n: int, t: int, t': int, y: nat, x: nat)
    requires 1 <= n && 0 <= t' < t <= n && x < w
    requires BandStart(height, n, t') <= y < BandEnd(height, n, t')
    ensures Offset(w, BandStart(height, n, t')) <= Offset(w, y) && Offset(w, y) + x < Offset(w, BandEnd(height, n, t'))
    ensures Offset(w, y) + x < |Bands(pixel, engine, w, height, n, t)|
    ensures var s := BandStart(height, n, t');
      Bands(pixel, engine, w, height, n, t)[Offset(w, y) + x]
      == BandRun(pixel, engine(s), w, s, BandEnd(height, n, t'), 0).values[Offset(w, y) - Offset(w, s) + x]
  {
    BandSlice(pixel, engine, w, height, n, t', y, x);
    BandsStable(pixel, engine, w, height, n, t' + 1, t, Offset(w, y) + x);
  }

  /** Where the samples of pixel (x, y) start in a band from row s: the band's earlier rows, then the row's earlier columns. */
  function CellStart(pixel: PixelFn, draws: Draws, w: nat, s: nat, x: nat, y: nat): nat
    requires s <= y
  {
    RowRun(pixel, draws, y, x, BandRun(pixel, draws, w, s, y, 0).next).next
  }

  /** Within one band, cell (x, y) holds the clamped average of the samples of pixel (x, y). */
  lemma {:induction false} BandCell(pixel: PixelFn, draws: Draws, w: nat, s: nat, e: nat, x: nat, y: nat)
    requires s <= y < e && x < w
    ensures Offset(w, s) <= Offset(w, y)
    ensures 0 <= Offset(w, y) - Offset(w, s) + x < |BandRun(pixel, draws, w, s, e, 0).values|
    ensures BandRun(pixel, draws, w, s, e, 0).values[Offset(w, y) - Offset(w, s) + x]
         == Stored(pixel(draws, x, y, CellStart(pixel, draws, w, s, x, y)).sum)
  {
    BandRunAt(pixel, draws, w, s, e, 0, y, x);
    RowRunAt(pixel, draws, y, w, BandRun(pixel, draws, w, s, y, 0).next, x);
  }

  /** The engine position at which the samples of pixel (x, y) start, in the band that holds row y. */
  function PixelStart(pixel: PixelFn, engine: Engine, w: nat, height: nat, n: int, x: nat, y: nat): nat
    requires 1 <= n && y < height
  {
    var s := BandStart(height, n, BandOf(height, n, y));
    BandOfHolds(height, n, y);
    CellStart(pixel, engine(s), w, s, x, y)
  }

  /** Cell (x, y) of a row of band t' holds the clamped average of pixel (x, y)'s samples from that band's engine. */
  lemma {:induction false} BandsCell(pixel: PixelFn, engine: Engine, w: nat, height: nat, n: int, t': int, x: nat, y: nat)
    requires 1 <= n && 0 <= t' < n && x < w
    requires BandStart(height, n, t') <= y < BandEnd(height, n, t')
    ensures 0 <= CellIndex(w, x, y) < |Bands(pixel, engine, w, height, n, n)|
    ensures var s := BandStart(height, n, t');
      Bands(pixel, engine, w, height, n, n)[CellIndex(w, x, y)]
      == Stored(pixel(engine(s), x, y, CellStart(pixel, engine(s), w, s, x, y)).sum)
  {
    var s := BandStart(height, n, t');
    BandsAt(pixel, engine, w, height, n, n, t', y, x);
    OffsetIsProduct(w, y);
    BandCell(pixel, engine(s), w, s, BandEnd(height, n, t'), x, y);
  }

  /**
   * Cell (x, y) of the rendered image, the cell `at(x, y)` addresses, holds the
   * clamped average of pixel (x, y)'s samples, drawn from the engine seeded
   * with the start of the one band that holds row y.
   */
  lemma {:induction false} RenderedCell(pixel: PixelFn, engine: Engine, w: nat, height: nat, n: int, x: nat, y: nat)
    requires 1 <= n && x < w && y < height
    ensures 0 <= CellIndex(w, x, y) < |Bands(pixel, engine, w, height, n, n)|
    ensures Bands(pixel, engine, w, height, n, n)[CellIndex(w, x, y)]
         == Stored(pixel(engine(BandStart(height, n, BandOf(height, n, y))), x, y, PixelStart(pixel, engine, w, height, n, x, y)).sum)
  {
    BandOfHolds(height, n, y);
    BandsCell(pixel, engine, w, height, n, BandOf(height, n, y), x, y);
  }

  /**
   * The partition loop followed by every worker, for pixel the sample loop:
   * each cell of the image ends up holding its band's value, which lies in
   * [0, 1].
   */
  method RenderImage<R, S, N(==)>(img: Texture, su: Setup<R, S, N>, ghost pixel: PixelFn, engine: Engine, n: int)
    requires img.Valid() && 0 <= img.width && 0 <= img.height && 1 <= n && Samples(pixel, su)
    modifies img.pixels
    ensures img.Valid() && img.width == old(img.width) && img.height == old(img.height)
    ensures img.Cells() == Bands(pixel, engine, img.width, img.height, n, n)
    ensures AllInRange(img.Cells())
  {
    var width, height := img.width, img.height;
    ghost var before := img.Cells();
    SpliceNothing(before, 0);
    var bands := Partition(height, n);
    RunWorkers(img, su, pixel, engine, width, height, n, bands, before);
    BandsCover(pixel, engine, width, height, n, before);
  }
}
