/** A point tagged with the id that addresses it in a container
    (src/geometry/vertex.rs). */
module IndexedVertex {
  import opened Outcomes
  import opened Points

  datatype Vertex = Vertex(id: nat, coords: Point) {

    /** The point's x coordinate, in either dimensionality. */
    function GetX(): (r: real)
      ensures coords == if coords.Point2D? then Point2D(r, coords.y) else Point3D(r, coords.y, coords.z)
    {
      coords.x
    }

    /** The point's y coordinate, in either dimensionality. */
    function GetY(): (r: real)
      ensures coords == if coords.Point2D? then Point2D(coords.x, r) else Point3D(coords.x, r, coords.z)
    {
      coords.y
    }

    /** Delegates to the point, so a 2D vertex panics. */
    function GetZ(): (r: Outcome<real>)
      ensures r.Panic? <==> IsTwoD()
    {
      coords.Z()
    }

    /** A vertex is planar exactly when asking for its z coordinate panics. */
    predicate IsTwoD(): (b: bool)
      ensures b <==> coords.Z().Panic?
    {
      coords.IsTwoD()
    }

    function Dimensionality(): (d: nat)
      ensures d == 2 <==> IsTwoD()
      ensures d == 3 <==> !IsTwoD()
      ensures d == coords.Dimensionality()
    {
      if IsTwoD() then 2 else 3
    }
  }

  function NewTwoD(id: nat, x: real, y: real): (v: Vertex)
    ensures v.id == id && v.GetX() == x && v.GetY() == y
    ensures v.IsTwoD() && v.Dimensionality() == 2
    ensures v.GetZ() == Panic(ZOfPlanarPoint)
  {
    Vertex(id, Point2D(x, y))
  }

  function NewThreeD(id: nat, x: real, y: real, z: real): (v: Vertex)
    ensures v.id == id && v.GetX() == x && v.GetY() == y && v.GetZ() == Value(z)
    ensures !v.IsTwoD() && v.Dimensionality() == 3
  {
    Vertex(id, Point3D(x, y, z))
  }
}
