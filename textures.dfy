/**
 * The pixel grid of include/rendering/texture.hpp: `width`, `height` and an
 * owned row-major array `pixels` of width * height colours, which a move
 * leaves null.  The C++ fields are plain ints, so the model allows any
 * dimensions whose product the allocation accepts (w * h >= 0).
 */
module Textures {
  import opened Colors

  /** The value a texture holds: its dimensions and its cells in row-major order. */
  datatype Image = Image(width: int, height: int, cells: seq<Color>) {
    predicate WellFormed() { |cells| == width * height }
  }

  /** The cell that `at(x, y)` addresses. */
  function CellIndex(width: int, x: int, y: int): int { y * width + x }

  lemma CellIndexInRange(width: int, height: int, x: int, y: int)
    requires 0 <= x < width && 0 <= y < height
    ensures 0 <= CellIndex(width, x, y) < width * height
  {
    assert y * width <= (height - 1) * width by {
      assert (height - 1) * width - y * width == (height - 1 - y) * width;
    }
    assert (height - 1) * width + width == height * width;
  }

  /** Distinct in-range coordinates address distinct cells. */
  lemma CellIndexInjective(width: int, height: int, x: int, y: int, x': int, y': int)
    requires 0 <= x < width && 0 <= y < height
    requires 0 <= x' < width && 0 <= y' < height
    requires CellIndex(width, x, y) == CellIndex(width, x', y')
    ensures x == x' && y == y'
  {
    if y != y' {
      var d := if y < y' then y' - y else y - y';
      assert d * width == (if y < y' then x - x' else x' - x) by {
        assert y' * width - y * width == (y' - y) * width;
      }
      MulAtLeast(d, width);
    }
  }

  /** Row y of a width x height grid occupies cells y * width up to y * width + width. */
  lemma RowInRange(width: int, height: int, y: int)
    requires 0 <= width && 0 <= y < height
    ensures 0 <= y * width && y * width + width <= width * height
  {
    if y > 0 {
      MulAtLeast(y, width);
    }
    MulAtLeast(height - y, width);
    assert (height - y) * width == width * height - y * width;
  }

  lemma MulAtLeast(d: int, w: int)
    requires 1 <= d && 0 <= w
    ensures w <= d * w
  {
    assert d * w - w == (d - 1) * w;
  }

  /** Every cell of a non-empty grid is addressed by its column i % w and row i / w. */
  lemma CellCoordinates(width: int, height: int, i: int)
    requires 0 <= i < width * height && 0 <= width
    ensures 0 < width && 0 <= i % width < width && 0 <= i / width < height
    ensures CellIndex(width, i % width, i / width) == i
  {
  }

  /** static_cast<int> of a real: truncation toward zero. */
  function Trunc(x: real): int
  {
    if x >= 0.0 then x.Floor else -((-x).Floor)
  }

  /** u - std::floor(u). */
  function Frac(u: real): (f: real)
    ensures 0.0 <= f < 1.0
  {
    u - u.Floor as real
  }

  /**
   * The column (or row) that `sample` reads for fractional part f of n cells:
   * the truncated product, capped at n - 1.  With floats the fraction may round
   * up to 1, which is why [0, 1] is admitted here.
   */
  function SampleCoord(f: real, n: int): (k: int)
    requires 0.0 <= f <= 1.0 && 0 < n
    ensures 0 <= k < n
  {
    var m := n as real;
    var p := f * m;
    assert 0.0 <= p <= m by { ProductBounds(f, m); }
    var k := Trunc(p);
    assert k == p.Floor;
    if k >= n then n - 1 else k
  }

  /** The cell never lies past the truncated product, and a fraction of exactly 1 is capped to the last cell. */
  lemma SampleCoordBounds(f: real, n: int)
    requires 0.0 <= f <= 1.0 && 0 < n
    ensures SampleCoord(f, n) as real <= f * n as real
    ensures f == 1.0 ==> SampleCoord(f, n) == n - 1
  {
    ProductBounds(f, n as real);
  }

  lemma ProductBounds(f: real, m: real)
    requires 0.0 <= f <= 1.0 && 0.0 <= m
    ensures 0.0 <= f * m <= m
  {
    assert m - f * m == (1.0 - f) * m;
  }

  class Texture {
    var width: int
    var height: int
    var pixels: array?<Color>

    ghost predicate Valid()
      reads this
    {
      if pixels == null then width == 0 && height == 0 else pixels.Length == width * height
    }

    function Cells(): seq<Color>
      reads this, pixels
    {
      if pixels == null then [] else pixels[..]
    }

    function View(): (img: Image)
      reads this, pixels
      requires Valid()
      ensures img.WellFormed() && img.width == width && img.height == height
    {
      Image(width, height, Cells())
    }

    /** texture(w, h, fill): a fresh array of w * h cells, every one equal to `fill`. */
    constructor (w: int, h: int, fill: Color := Black)
      requires w * h >= 0
      ensures Valid() && width == w && height == h
      ensures pixels != null && fresh(pixels)
      ensures Cells() == seq(w * h, _ => fill)
    {
      var n := w * h;
      var a := new Color[n];
      for i := 0 to n
        invariant forall j :: 0 <= j < i ==> a[j] == fill
      {
        a[i] := fill;
      }
      width, height, pixels := w, h, a;
    }

    /** The copy constructor: equal dimensions and cells, in storage of its own. */
    constructor Copy(other: Texture)
      requires other.Valid()
      ensures Valid() && width == other.width && height == other.height
      ensures pixels != null && fresh(pixels)
      ensures Cells() == other.Cells()
    {
      var n := other.width * other.height;
      var a := new Color[n];
      for i := 0 to n
        invariant a[..i] == other.Cells()[..i]
      {
        a[i] := other.pixels[i];
      }
      width, height, pixels := other.width, other.height, a;
    }

    /** The move constructor: takes over the storage and leaves `other` empty. */
    constructor Move(other: Texture)
      requires other.Valid()
      modifies other
      ensures Valid() && other.Valid()
      ensures width == old(other.width) && height == old(other.height)
      ensures pixels == old(other.pixels) && Cells() == old(other.Cells())
      ensures other.width == 0 && other.height == 0 && other.pixels == null
    {
      width, height, pixels := other.width, other.height, other.pixels;
      new;
      other.width, other.height, other.pixels := 0, 0, null;
    }

    /** Copy assignment; assigning a texture to itself changes nothing. */
    method CopyAssign(other: Texture)
      requires Valid() && other.Valid()
      modifies this
      ensures Valid()
      ensures other == this ==> unchanged(this)
      ensures other != this ==> pixels != null && fresh(pixels)
      ensures width == old(other.width) && height == old(other.height)
      ensures Cells() == old(other.Cells())
    {
      if this == other { return; }
      var n := other.width * other.height;
      var a := new Color[n];
      for i := 0 to n
        invariant a[..i] == other.Cells()[..i]
      {
        a[i] := other.pixels[i];
      }
      width, height, pixels := other.width, other.height, a;
    }

    /**
     * Move assignment: takes over `other`'s storage and leaves it empty; moving a
     * texture into itself changes nothing.
     */
    method MoveAssign(other: Texture)
      requires Valid() && other.Valid()
      modifies this, other
      ensures Valid() && other.Valid()
      ensures other == this ==> unchanged(this)
      ensures other != this ==>
        && width == old(other.width) && height == old(other.height)
        && pixels == old(other.pixels) && Cells() == old(other.Cells())
        && other.width == 0 && other.height == 0 && other.pixels == null
    {
      if this == other { return; }
      width, height, pixels := other.width, other.height, other.pixels;
      other.width, other.height, other.pixels := 0, 0, null;
    }

    /** Reading through `at(x, y)`. */
    function At(x: int, y: int): (c: Color)
      reads this, pixels
      requires Valid() && 0 <= x < width && 0 <= y < height
      ensures 0 <= CellIndex(width, x, y) < |Cells()| && c == Cells()[CellIndex(width, x, y)]
      ensures c == View().cells[CellIndex(width, x, y)]
    {
      CellIndexInRange(width, height, x, y);
      pixels[CellIndex(width, x, y)]
    }

    /** Writing through `at(x, y)`: cell y * width + x changes, and no other. */
    method SetAt(x: int, y: int, c: Color)
      requires Valid() && 0 <= x < width && 0 <= y < height
      modifies pixels
      ensures Valid() && pixels != null
      ensures 0 <= CellIndex(width, x, y) < |Cells()| == |old(Cells())|
      ensures Cells() == old(Cells())[CellIndex(width, x, y) := c]
      ensures forall i :: 0 <= i < |Cells()| && i != CellIndex(width, x, y) ==> Cells()[i] == old(Cells())[i]
    {
      CellIndexInRange(width, height, x, y);
      pixels[CellIndex(width, x, y)] := c;
    }

    /** `sample(u, v)`: always reads one of the texture's own cells. */
    function Sample(u: real, v: real): (c: Color)
      reads this, pixels
      requires Valid() && 0 < width && 0 < height
      ensures exists i :: 0 <= i < |Cells()| && Cells()[i] == c
    {
      var x := SampleCoord(Frac(u), width);
      var y := SampleCoord(Frac(v), height);
      CellIndexInRange(width, height, x, y);
      assert Cells()[CellIndex(width, x, y)] == At(x, y);
      At(x, y)
    }
  }

  /** A coordinate in [0, 1) selects the cell whose interval [k / n, (k + 1) / n) contains it. */
  lemma SampleCoordCell(f: real, n: int, k: int)
    requires 0 < n && 0 <= k < n && 0.0 <= f < 1.0
    requires k as real <= f * n as real < (k + 1) as real
    ensures SampleCoord(f, n) == k
  {
  }

  lemma FracPeriodic(u: real, m: int)
    ensures Frac(u + m as real) == Frac(u)
  {
    var a := u.Floor;
    assert a as real <= u < a as real + 1.0;
    assert (u + m as real).Floor == a + m;
  }

  /** Sampling wraps around: shifting either coordinate by a whole number reads the same cell. */
  lemma SamplePeriodic(t: Texture, u: real, v: real, m: int, n: int)
    requires t.Valid() && 0 < t.width && 0 < t.height
    ensures t.Sample(u + m as real, v + n as real) == t.Sample(u, v)
  {
    FracPeriodic(u, m);
    FracPeriodic(v, n);
  }

  /** Within [0, 1) x [0, 1), sampling reads the cell whose square holds (u, v). */
  lemma SampleCell(t: Texture, u: real, v: real, x: int, y: int)
    requires t.Valid() && 0 <= x < t.width && 0 <= y < t.height
    requires 0.0 <= u < 1.0 && 0.0 <= v < 1.0
    requires x as real <= u * t.width as real < (x + 1) as real
    requires y as real <= v * t.height as real < (y + 1) as real
    ensures t.Sample(u, v) == t.At(x, y)
  {
    assert Frac(u) == u && Frac(v) == v;
    SampleCoordCell(u, t.width, x);
    SampleCoordCell(v, t.height, y);
  }
}
