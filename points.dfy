/** Lattice shapes and coordinate points (src/geometry/points.rs).

    Coordinates are `f64` in the source; here they are `real` values that
    the model carries around without reasoning about them. */
module Points {
  import opened Outcomes
  import opened Arith

  /** The shape of a structured lattice: point counts along each axis. */
  datatype Dimensions = Two(nx: nat, ny: nat) | Three(nx: nat, ny: nat, nz: nat) {

    /** A 2D shape is determined by `nx` and `ny` alone. */
    predicate IsTwoD(): (b: bool)
      ensures b <==> this == Two(nx, ny)
    {
      Two?
    }

    /** Number of axes. */
    function Dimensionality(): (d: nat)
      ensures d == 2 <==> IsTwoD()
      ensures d == 3 <==> !IsTwoD()
    {
      match this
      case Two(_, _) => 2
      case Three(_, _, _) => 3
    }

    /** Number of lattice positions. */
    function TotalPoints(): (n: nat)
      ensures n == 0 <==> nx == 0 || ny == 0 || (Three? && nz == 0)
    {
      match this
      case Two(nx, ny) => ProductZero(nx, ny); nx * ny
      case Three(nx, ny, nz) => ProductZero(nx, ny); ProductZero(nx * ny, nz); nx * ny * nz
    }

    /** `(nx, ny, None)` for a 2D shape, `(nx, ny, Some(nz))` for a 3D one. */
    function AsTuple(): (t: (nat, nat, Option<nat>))
      ensures t.2.None? <==> IsTwoD()
      ensures t.2.None? ==> this == Two(t.0, t.1)
      ensures t.2.Some? ==> this == Three(t.0, t.1, t.2.value)
      ensures t.2.None? ==> t.0 * t.1 == TotalPoints()
      ensures t.2.Some? ==> t.0 * t.1 * t.2.value == TotalPoints()
    {
      match this
      case Two(nx, ny) => (nx, ny, None)
      case Three(nx, ny, nz) => (nx, ny, Some(nz))
    }
  }

  /** A 2D or 3D coordinate tuple. */
  datatype Point = Point2D(x: real, y: real) | Point3D(x: real, y: real, z: real) {

    /** A 2D point is determined by `x` and `y` alone. */
    predicate IsTwoD(): (b: bool)
      ensures b <==> this == Point2D(x, y)
    {
      Point2D?
    }

    function Dimensionality(): (d: nat)
      ensures d == 2 <==> IsTwoD()
      ensures d == 3 <==> !IsTwoD()
    {
      if Point2D? then 2 else 3
    }

    /** The z coordinate; a 2D point panics. */
    function Z(): (r: Outcome<real>)
      ensures r.Panic? <==> IsTwoD()
      ensures r.Panic? ==> r.fault == ZOfPlanarPoint
      ensures r.Value? ==> Point3D? && r.value == z
    {
      match this
      case Point2D(_, _) => Panic(ZOfPlanarPoint)
      case Point3D(_, _, z) => Value(z)
    }
  }

  function Origin2D(): (p: Point)
    ensures p.IsTwoD() && p.x == 0.0 && p.y == 0.0
  {
    Point2D(0.0, 0.0)
  }

  function Origin3D(): (p: Point)
    ensures !p.IsTwoD() && p.x == 0.0 && p.y == 0.0 && p.Z() == Value(0.0)
  {
    Point3D(0.0, 0.0, 0.0)
  }
}
