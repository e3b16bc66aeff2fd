/** The structured point container (src/geometry/vertices.rs): a sequence
    of id-tagged vertices plus a fixed lattice shape. A vertex is addressed
    by its row-major id, `i + j*nx` in 2D and `i + j*nx + k*nx*ny` in 3D. */
module Lattice {
  import opened Outcomes
  import opened Arith
  import opened Points
  import opened IndexedVertex

  datatype Direction =
    | North  // +j
    | South  // -j
    | East   // +i
    | West   // -i
    | Up     // +k
    | Down   // -k

  /** Position of the first vertex of `vs` whose id is `id`. */
  function IndexOfId(vs: seq<Vertex>, id: nat): (r: Option<nat>)
    ensures r.None? <==> forall k | 0 <= k < |vs| :: vs[k].id != id
    ensures r.Some? ==> r.value < |vs| && vs[r.value].id == id
    ensures r.Some? ==> forall k | 0 <= k < r.value :: vs[k].id != id
  {
    if vs == [] then None
    else if vs[0].id == id then Some(0)
    else match IndexOfId(vs[1..], id)
      case None => None
      case Some(k) => Some(k + 1)
  }

  /** The first vertex of `vs` whose id is `id`, if any. */
  function Lookup(vs: seq<Vertex>, id: nat): (r: Option<Vertex>)
    ensures r.None? <==> forall k | 0 <= k < |vs| :: vs[k].id != id
    ensures r.Some? ==> r.value in vs && r.value.id == id
  {
    match IndexOfId(vs, id)
    case None => None
    case Some(k) => Some(vs[k])
  }

  /** The lookup finds the vertex at the first position holding the id. */
  lemma LookupFirst(vs: seq<Vertex>, id: nat, k: nat)
    requires k < |vs| && vs[k].id == id
    requires forall m | 0 <= m < k :: vs[m].id != id
    ensures Lookup(vs, id) == Some(vs[k])
  {
  }

  /** The id one step away from `id` in a 2D lattice `nx` wide and `ny`
      high, or None when the step leaves the lattice; stated on ids. */
  function NeighbourId2D(nx: nat, ny: nat, id: nat, d: Direction): Option<nat>
    requires nx > 0
  {
    match d
    case East => if id % nx + 1 < nx then Some(id + 1) else None
    case West => if id % nx > 0 then Some(id - 1) else None
    case North => if id / nx + 1 < ny then Some(id + nx) else None
    case South => if id >= nx then Some(id - nx) else None
    case Up => None
    case Down => None
  }

  /** The same in a 3D lattice `nx` by `ny` by `nz`. The target layer must
      lie inside the shape; the starting id need not. */
  function NeighbourId3D(nx: nat, ny: nat, nz: nat, id: nat, d: Direction): Option<nat>
    requires nx > 0 && ny > 0
  {
    var layer := (ProductZero(nx, ny); nx * ny);
    QuotientPositive(id, nx);
    QuotientPositive(id / nx, ny);
    QuotientPositive(id, layer);
    var k := id / layer;
    match d
    case East => if id % nx + 1 < nx && k < nz then Some(id + 1) else None
    case West => if id % nx > 0 && k < nz then Some(id - 1) else None
    case North => if (id / nx) % ny + 1 < ny && k < nz then Some(id + nx) else None
    case South => if (id / nx) % ny > 0 && k < nz then Some(id - nx) else None
    case Up => if k + 1 < nz then Some(id + layer) else None
    case Down => if 0 < k <= nz then Some(id - layer) else None
  }

  /** One grid step from `(i, j)`, None at the lattice boundary. */
  function Step2D(nx: nat, ny: nat, i: nat, j: nat, d: Direction): Option<(nat, nat)> {
    match d
    case East => if i + 1 >= nx then None else Some((i + 1, j))
    case West => if i == 0 then None else Some((i - 1, j))
    case North => if j + 1 >= ny then None else Some((i, j + 1))
    case South => if j == 0 then None else Some((i, j - 1))
    case Up => None
    case Down => None
  }

  /** One grid step from `(i, j, k)`, None at the lattice boundary. */
  function Step3D(nx: nat, ny: nat, nz: nat, i: nat, j: nat, k: nat, d: Direction): Option<(nat, nat, nat)> {
    match d
    case East => if i + 1 >= nx then None else Some((i + 1, j, k))
    case West => if i == 0 then None else Some((i - 1, j, k))
    case North => if j + 1 >= ny then None else Some((i, j + 1, k))
    case South => if j == 0 then None else Some((i, j - 1, k))
    case Up => if k + 1 >= nz then None else Some((i, j, k + 1))
    case Down => if k == 0 then None else Some((i, j, k - 1))
  }

  class Vertices {
    var vertices: seq<Vertex>
    const shape: Dimensions

    /** Every stored vertex has the container's dimensionality. */
    ghost predicate Valid()
      reads this
    {
      forall v | v in vertices :: v.Dimensionality() == shape.Dimensionality()
    }

    constructor NewTwoD(nx: nat, ny: nat)
      ensures shape == Two(nx, ny) && vertices == [] && Valid()
    {
      vertices := [];
      shape := Two(nx, ny);
    }

    constructor NewThreeD(nx: nat, ny: nat, nz: nat)
      ensures shape == Three(nx, ny, nz) && vertices == [] && Valid()
    {
      vertices := [];
      shape := Three(nx, ny, nz);
    }

    /** A container is planar exactly when its shape tuple has no `nz`. */
    predicate IsTwoD(): (b: bool)
      ensures b <==> shape.AsTuple().2.None?
    {
      shape.IsTwoD()
    }

    function Dimensionality(): (d: nat)
      ensures d == 2 <==> IsTwoD()
      ensures d == 3 <==> !IsTwoD()
    {
      shape.Dimensionality()
    }

    /** `(nx, ny)` of a 2D container. */
    function NxNy(): (r: (nat, nat))
      requires shape.Two?
      ensures shape == Two(r.0, r.1)
      ensures r.0 * r.1 == shape.TotalPoints()
    {
      var (nx, ny, _) := shape.AsTuple();
      (nx, ny)
    }

    /** Appends `v` when its dimensionality is the container's; otherwise
        the vertex is silently dropped. */
    method AddVertex(v: Vertex)
      modifies this
      ensures vertices == if v.Dimensionality() == shape.Dimensionality()
                          then old(vertices) + [v] else old(vertices)
      ensures old(Valid()) ==> Valid()
    {
      if v.Dimensionality() == Dimensionality() {
        vertices := vertices + [v];
      }
    }

    /** Linear scan for the first vertex with id `id`. */
    method GetVertex(id: nat) returns (r: Option<Vertex>)
      ensures r == Lookup(vertices, id)
      ensures r.None? <==> forall k | 0 <= k < |vertices| :: vertices[k].id != id
      ensures r.Some? ==> r.value in vertices && r.value.id == id
    {
      var k := 0;
      while k < |vertices|
        invariant k <= |vertices|
        invariant forall l | 0 <= l < k :: vertices[l].id != id
      {
        if vertices[k].id == id {
          return Some(vertices[k]);
        }
        k := k + 1;
      }
      return None;
    }

    function VertexExists(id: nat): (b: bool)
      reads this
      ensures b <==> exists k | 0 <= k < |vertices| :: vertices[k].id == id
    {
      Lookup(vertices, id).Some?
    }

    /** Appends the `nx` by `ny` reference lattice in row-major order. */
    method PopulateUniform2D()
      requires shape.Two?
      modifies this
      ensures vertices == old(vertices) + UniformLattice2D(shape.nx, shape.ny)
      ensures old(Valid()) ==> Valid()
    {
      var (nx, ny, _) := shape.AsTuple();
      for j := 0 to ny
        invariant vertices == old(vertices) + UniformRows2D(nx, ny, j)
        invariant old(Valid()) ==> Valid()
      {
        for i := 0 to nx
          invariant vertices == old(vertices) + UniformRows2D(nx, ny, j) + UniformRow2D(nx, ny, j, i)
          invariant old(Valid()) ==> Valid()
        {
          var id := i + j * nx;
          var x := UniformCoord(i, nx);
          var y := UniformCoord(j, ny);
          AddVertex(IndexedVertex.NewTwoD(id, x, y));
        }
      }
    }

    /** Appends the `nx` by `ny` by `nz` reference lattice in row-major order. */
    method PopulateUniform3D()
      requires shape.Three?
      modifies this
      ensures vertices == old(vertices) + UniformLattice3D(shape.nx, shape.ny, shape.nz)
      ensures old(Valid()) ==> Valid()
    {
      var nz := shape.nz;
      for k := 0 to nz
        invariant vertices == old(vertices) + UniformLayers3D(shape.nx, shape.ny, nz, k)
        invariant old(Valid()) ==> Valid()
      {
        AppendPlane3D(k);
      }
    }

    /** The `j` and `i` loops of the 3D population for layer `k`. */
    method AppendPlane3D(k: nat)
      requires shape.Three?
      modifies this
      ensures vertices == old(vertices) + UniformPlane3D(shape.nx, shape.ny, shape.nz, k, shape.ny)
      ensures old(Valid()) ==> Valid()
    {
      var ny := shape.ny;
      for j := 0 to ny
        invariant vertices == old(vertices) + UniformPlane3D(shape.nx, ny, shape.nz, k, j)
        invariant old(Valid()) ==> Valid()
      {
        AppendRow3D(k, j);
      }
    }

    /** The innermost `i` loop of the 3D population for row `j` of layer `k`. */
    method AppendRow3D(k: nat, j: nat)
      requires shape.Three?
      modifies this
      ensures vertices == old(vertices) + UniformRow3D(shape.nx, shape.ny, shape.nz, k, j, shape.nx)
      ensures old(Valid()) ==> Valid()
    {
      var (nx, ny, nz) := (shape.nx, shape.ny, shape.nz);
      for i := 0 to nx
        invariant vertices == old(vertices) + UniformRow3D(nx, ny, nz, k, j, i)
        invariant old(Valid()) ==> Valid()
      {
        var id := i + j * nx + k * nx * ny;
        var x := UniformCoord(i, nx);
        var y := UniformCoord(j, ny);
        var z := UniformCoord(k, nz);
        AddVertex(IndexedVertex.NewThreeD(id, x, y, z));
      }
    }

    // ---- 2D addressing ----

    function IdToIJ(id: nat): (r: Option<(nat, nat)>)
      reads this
      requires shape.Two? && shape.nx > 0
      ensures r.None? <==> !VertexExists(id)
      ensures r.Some? ==> r.value.0 < shape.nx && r.value.1 * shape.nx + r.value.0 == id
    {
      if !VertexExists(id) then None
      else
        var (nx, _, _) := shape.AsTuple();
        Some((id % nx, id / nx))
    }

    /** No range check on `i` or `j`: only presence of the id is tested. */
    function IJToId(i: nat, j: nat): (r: Option<nat>)
      reads this
      requires shape.Two?
      ensures r.Some? <==> VertexExists(j * shape.nx + i)
      ensures r.Some? ==> r.value == j * shape.nx + i
    {
      var (nx, _, _) := shape.AsTuple();
      var id := j * nx + i;
      if VertexExists(id) then Some(id) else None
    }

    /** The vertex one grid step from vertex `id`, or None when `id` is
        absent, the step leaves the lattice, or the target is absent. */
    function AdjacentVertex2D(id: nat, d: Direction): (r: Option<Vertex>)
      reads this
      requires shape.Two? && shape.nx > 0
      ensures r.Some? ==> VertexExists(id) && r.value in vertices
    {
      match IdToIJ(id)
      case None => None
      case Some((i, j)) =>
        var (nx, ny, _) := shape.AsTuple();
        match Step2D(nx, ny, i, j, d)
        case None => None
        case Some((ni, nj)) =>
          match IJToId(ni, nj)
          case None => None
          case Some(n) => Lookup(vertices, n)
    }

    // ---- 3D addressing ----

    function IdToIJK(id: nat): (r: Option<(nat, nat, nat)>)
      reads this
      requires shape.Three? && shape.nx > 0 && shape.ny > 0
      ensures r.None? <==> !VertexExists(id)
      ensures r.Some? ==> r.value.0 < shape.nx && r.value.1 < shape.ny
      ensures r.Some? ==> FlatId3D(shape.nx, shape.ny, r.value.0, r.value.1, r.value.2) == id
    {
      if !VertexExists(id) then None
      else
        var (nx, ny, _) := shape.AsTuple();
        IdDecompose3D(id, nx, ny);
        var i, j, k := id % nx, (id / nx) % ny, id / (nx * ny);
        Some((i, j, k))
    }

    /** Range-checked against the shape, then checked for presence. */
    function IJKToId(i: nat, j: nat, k: nat): (r: Option<nat>)
      reads this
      requires shape.Three?
      ensures r.Some? <==> i < shape.nx && j < shape.ny && k < shape.nz
                           && VertexExists(FlatId3D(shape.nx, shape.ny, i, j, k))
      ensures r.Some? ==> r.value == FlatId3D(shape.nx, shape.ny, i, j, k)
    {
      var (nx, ny, nz) := shape.AsTuple();
      if i >= nx || j >= ny || k >= nz.value then None
      else
        var id := FlatId3D(nx, ny, i, j, k);
        if VertexExists(id) then Some(id) else None
    }

    function AdjacentVertex3D(id: nat, d: Direction): (r: Option<Vertex>)
      reads this
      requires shape.Three? && shape.nx > 0 && shape.ny > 0
      ensures r.Some? ==> VertexExists(id) && r.value in vertices
    {
      match IdToIJK(id)
      case None => None
      case Some((i, j, k)) =>
        var (nx, ny, nz) := shape.AsTuple();
        match Step3D(nx, ny, nz.value, i, j, k, d)
        case None => None
        case Some((ni, nj, nk)) =>
          match IJKToId(ni, nj, nk)
          case None => None
          case Some(n) => Lookup(vertices, n)
    }
  }

  /** The ids of the four 2D grid neighbours of `(i, j)`. */
  lemma StepIds2D(nx: nat, i: nat, j: nat, id: nat)
    requires nx > 0 && i < nx && j * nx + i == id
    ensures id % nx == i && id / nx == j
    ensures (j + 1) * nx + i == id + nx
    ensures j > 0 ==> (j - 1) * nx + i == id - nx
  {
    DivModUnique(j, i, nx);
    assert (j + 1) * nx == j * nx + nx;
    if j > 0 {
      assert (j - 1) * nx == j * nx - nx;
    }
  }

  /** The row-major id of grid index `(i, j, k)` in a lattice `nx` wide
      and `ny` deep. */
  function FlatId3D(nx: nat, ny: nat, i: nat, j: nat, k: nat): nat {
    i + j * nx + k * nx * ny
  }

  lemma IdDecompose3D(id: nat, nx: nat, ny: nat)
    requires nx > 0 && ny > 0
    ensures nx * ny > 0
    ensures FlatId3D(nx, ny, id % nx, (id / nx) % ny, id / (nx * ny)) == id
  {
    DivDivMul(id, nx, ny);
    var q := id / nx;
    assert id == q * nx + id % nx;
    assert q == (q / ny) * ny + q % ny;
    assert q * nx == (q % ny) * nx + (q / ny) * ny * nx;
  }

  /** Grid coordinates of a 3D row-major id. */
  lemma Coords3D(nx: nat, ny: nat, i: nat, j: nat, k: nat, id: nat)
    requires nx > 0 && ny > 0 && i < nx && j < ny && i + j * nx + k * nx * ny == id
    ensures id % nx == i && (id / nx) % ny == j && id / (nx * ny) == k
  {
    var q := k * ny + j;
    assert q * nx == k * nx * ny + j * nx by {
      assert (k * ny + j) * nx == (k * ny) * nx + j * nx;
      assert (k * ny) * nx == k * nx * ny;
    }
    DivModUnique(q, i, nx);
    DivModUnique(k, j, ny);
    DivDivMul(id, nx, ny);
  }

  /** The ids of the 3D grid neighbours of `(i, j, k)` along j and k. */
  lemma StepIds3D(nx: nat, ny: nat, i: nat, j: nat, k: nat, id: nat)
    requires i + j * nx + k * nx * ny == id
    ensures i + (j + 1) * nx + k * nx * ny == id + nx
    ensures j > 0 ==> i + (j - 1) * nx + k * nx * ny == id - nx
    ensures i + j * nx + (k + 1) * nx * ny == id + nx * ny
    ensures k > 0 ==> i + j * nx + (k - 1) * nx * ny == id - nx * ny
  {
    assert (j + 1) * nx == j * nx + nx;
    assert (k + 1) * nx * ny == k * nx * ny + nx * ny by {
      assert (k + 1) * nx == k * nx + nx;
    }
    if j > 0 {
      assert (j - 1) * nx == j * nx - nx;
    }
    if k > 0 {
      assert (k - 1) * nx * ny == k * nx * ny - nx * ny by {
        assert (k - 1) * nx == k * nx - nx;
      }
    }
  }

  /** A grid step from the coordinates of `id` lands on the id that
      `NeighbourId2D` names. */
  lemma StepMatchesNeighbour2D(nx: nat, ny: nat, id: nat, d: Direction)
    requires nx > 0
    ensures match Step2D(nx, ny, id % nx, id / nx, d)
      case None => NeighbourId2D(nx, ny, id, d).None?
      case Some(t) => NeighbourId2D(nx, ny, id, d) == Some(t.1 * nx + t.0)
  {
    StepIds2D(nx, id % nx, id / nx, id);
  }

  /** A grid step from the coordinates of a 3D id, followed by the range
      check, lands on the id that `NeighbourId3D` names. */
  ghost predicate StepAgrees3D(nx: nat, ny: nat, nz: nat, id: nat, d: Direction)
    requires nx > 0 && ny > 0
  {
    ProductZero(nx, ny);
    match Step3D(nx, ny, nz, id % nx, (id / nx) % ny, id / (nx * ny), d)
    case None => NeighbourId3D(nx, ny, nz, id, d).None?
    case Some(t) =>
      NeighbourId3D(nx, ny, nz, id, d) ==
      if t.0 < nx && t.1 < ny && t.2 < nz then Some(t.0 + t.1 * nx + t.2 * nx * ny) else None
  }

  lemma StepMatchesNeighbour3D(nx: nat, ny: nat, nz: nat, id: nat, d: Direction)
    requires nx > 0 && ny > 0
    ensures StepAgrees3D(nx, ny, nz, id, d)
  {
    if d == East || d == West {
      StepAlongI3D(nx, ny, nz, id, d);
    } else if d == North || d == South {
      StepAlongJ3D(nx, ny, nz, id, d);
    } else if d == Up {
      StepUp3D(nx, ny, nz, id);
    } else {
      StepDown3D(nx, ny, nz, id);
    }
  }

  lemma StepAlongI3D(nx: nat, ny: nat, nz: nat, id: nat, d: Direction)
    requires nx > 0 && ny > 0 && (d == East || d == West)
    ensures StepAgrees3D(nx, ny, nz, id, d)
  {
    IdDecompose3D(id, nx, ny);
    var i, j, k := id % nx, (id / nx) % ny, id / (nx * ny);
  }

  lemma StepAlongJ3D(nx: nat, ny: nat, nz: nat, id: nat, d: Direction)
    requires nx > 0 && ny > 0 && (d == North || d == South)
    ensures StepAgrees3D(nx, ny, nz, id, d)
  {
    IdDecompose3D(id, nx, ny);
    var i, j, k := id % nx, (id / nx) % ny, id / (nx * ny);
    QuotientPositive(id / nx, ny);
    StepIds3D(nx, ny, i, j, k, id);
  }

  lemma StepUp3D(nx: nat, ny: nat, nz: nat, id: nat)
    requires nx > 0 && ny > 0
    ensures StepAgrees3D(nx, ny, nz, id, Up)
  {
    IdDecompose3D(id, nx, ny);
    var i, j, k := id % nx, (id / nx) % ny, id / (nx * ny);
    StepIds3D(nx, ny, i, j, k, id);
  }

  lemma StepDown3D(nx: nat, ny: nat, nz: nat, id: nat)
    requires nx > 0 && ny > 0
    ensures StepAgrees3D(nx, ny, nz, id, Down)
  {
    IdDecompose3D(id, nx, ny);
    var layer := nx * ny;
    var i, j, k := id % nx, (id / nx) % ny, id / layer;
    if 0 < k <= nz {
      QuotientPositive(id, layer);
      StepIds3D(nx, ny, i, j, k, id);
      assert NeighbourId3D(nx, ny, nz, id, Down) == Some(id - layer);
      assert Step3D(nx, ny, nz, i, j, k, Down) == Some((i, j, k - 1));
    }
  }

  /** 2D adjacency stated on ids: a present vertex's neighbour is the
      first vertex whose id is one step away, unless the step leaves the
      lattice. */
  lemma AdjacentById2D(vs: Vertices, id: nat, d: Direction)
    requires vs.shape.Two? && vs.shape.nx > 0
    ensures vs.AdjacentVertex2D(id, d) ==
      if !vs.VertexExists(id) then None
      else match NeighbourId2D(vs.shape.nx, vs.shape.ny, id, d)
        case None => None
        case Some(n) => Lookup(vs.vertices, n)
  {
    if vs.VertexExists(id) {
      var nx := vs.shape.nx;
      assert vs.IdToIJ(id) == Some((id % nx, id / nx));
      StepMatchesNeighbour2D(nx, vs.shape.ny, id, d);
    }
  }

  /** 3D adjacency stated on ids. */
  lemma AdjacentById3D(vs: Vertices, id: nat, d: Direction)
    requires vs.shape.Three? && vs.shape.nx > 0 && vs.shape.ny > 0
    ensures vs.AdjacentVertex3D(id, d) ==
      if !vs.VertexExists(id) then None
      else match NeighbourId3D(vs.shape.nx, vs.shape.ny, vs.shape.nz, id, d)
        case None => None
        case Some(n) => Lookup(vs.vertices, n)
  {
    if vs.VertexExists(id) {
      var nx, ny := vs.shape.nx, vs.shape.ny;
      assert vs.IdToIJK(id) == Some((id % nx, (id / nx) % ny, id / (nx * ny)));
      StepMatchesNeighbour3D(nx, ny, vs.shape.nz, id, d);
    }
  }

  /** Grid conversion undoes id conversion for every present vertex. */
  lemma IdRoundTrip2D(vs: Vertices, id: nat)
    requires vs.shape.Two? && vs.shape.nx > 0 && vs.VertexExists(id)
    ensures vs.IdToIJ(id).Some?
    ensures vs.IJToId(vs.IdToIJ(id).value.0, vs.IdToIJ(id).value.1) == Some(id)
  {
  }

  /** Id conversion undoes grid conversion when `i` is inside the row. */
  lemma GridRoundTrip2D(vs: Vertices, i: nat, j: nat)
    requires vs.shape.Two? && i < vs.shape.nx && vs.IJToId(i, j).Some?
    ensures vs.IdToIJ(vs.IJToId(i, j).value) == Some((i, j))
  {
    DivModUnique(j, i, vs.shape.nx);
  }

  /** With no range check, `(i + nx, j)` names the same vertex as `(i, j + 1)`. */
  lemma GridAliasing2D(vs: Vertices, i: nat, j: nat)
    requires vs.shape.Two?
    ensures vs.IJToId(i + vs.shape.nx, j) == vs.IJToId(i, j + 1)
  {
    assert (j + 1) * vs.shape.nx + i == j * vs.shape.nx + (i + vs.shape.nx);
  }

  /** Grid conversion undoes id conversion for a present vertex inside the shape. */
  lemma IdRoundTrip3D(vs: Vertices, id: nat)
    requires vs.shape.Three? && vs.shape.nx > 0 && vs.shape.ny > 0
    requires vs.VertexExists(id) && id < vs.shape.TotalPoints()
    ensures vs.IdToIJK(id).Some?
    ensures var t := vs.IdToIJK(id).value; vs.IJKToId(t.0, t.1, t.2) == Some(id)
  {
    var nx, ny := vs.shape.nx, vs.shape.ny;
    IdDecompose3D(id, nx, ny);
    RowBound(id, nx * ny, vs.shape.nz);
    assert vs.IdToIJK(id) == Some((id % nx, (id / nx) % ny, id / (nx * ny)));
  }

  /** Id conversion undoes grid conversion for in-range indices. */
  lemma GridRoundTrip3D(vs: Vertices, i: nat, j: nat, k: nat)
    requires vs.shape.Three? && vs.IJKToId(i, j, k).Some?
    ensures vs.IdToIJK(vs.IJKToId(i, j, k).value) == Some((i, j, k))
  {
    Coords3D(vs.shape.nx, vs.shape.ny, i, j, k, vs.IJKToId(i, j, k).value);
  }

  /** Whether grid index `(i, j)` lies on the side of the lattice that
      direction `d` points out of; Up and Down leave every 2D lattice. */
  predicate OnBoundary2D(nx: nat, ny: nat, i: nat, j: nat, d: Direction) {
    match d
    case East => i + 1 >= nx
    case West => i == 0
    case North => j + 1 >= ny
    case South => j == 0
    case Up => true
    case Down => true
  }

  /** Whether grid index `(i, j, k)` lies on the side of the lattice that
      direction `d` points out of. */
  predicate OnBoundary3D(nx: nat, ny: nat, nz: nat, i: nat, j: nat, k: nat, d: Direction) {
    match d
    case East => i + 1 >= nx
    case West => i == 0
    case North => j + 1 >= ny
    case South => j == 0
    case Up => k + 1 >= nz
    case Down => k == 0
  }

  /** A vertex on the boundary has no neighbour across it. */
  lemma BoundaryAbsence2D(vs: Vertices, id: nat, d: Direction)
    requires vs.shape.Two? && vs.shape.nx > 0
    requires OnBoundary2D(vs.shape.nx, vs.shape.ny, id % vs.shape.nx, id / vs.shape.nx, d)
    ensures vs.AdjacentVertex2D(id, d).None?
  {
    AdjacentById2D(vs, id, d);
  }

  /** A vertex on the boundary has no neighbour across it. */
  lemma BoundaryAbsence3D(vs: Vertices, id: nat, d: Direction)
    requires vs.shape.Three? && vs.shape.nx > 0 && vs.shape.ny > 0
    requires OnBoundary3D(vs.shape.nx, vs.shape.ny, vs.shape.nz,
                          id % vs.shape.nx, (id / vs.shape.nx) % vs.shape.ny, id / (vs.shape.nx * vs.shape.ny), d)
    ensures vs.AdjacentVertex3D(id, d).None?
  {
    AdjacentById3D(vs, id, d);
  }

  // ---- the uniform reference lattice ----

  /** The coordinate of grid index `i` on an axis of `n` points spread over
      the unit interval. */
  function UniformCoord(i: nat, n: nat): real {
    if n > 1 then (i as real) / ((n - 1) as real) else 0.0
  }

  function UniformVertex2D(nx: nat, ny: nat, i: nat, j: nat): Vertex {
    NewTwoD(i + j * nx, UniformCoord(i, nx), UniformCoord(j, ny))
  }

  /** The first `i` vertices of row `j`. */
  function UniformRow2D(nx: nat, ny: nat, j: nat, i: nat): seq<Vertex> {
    if i == 0 then [] else UniformRow2D(nx, ny, j, i - 1) + [UniformVertex2D(nx, ny, i - 1, j)]
  }

  /** Rows `0` to `j - 1`. */
  function UniformRows2D(nx: nat, ny: nat, j: nat): seq<Vertex> {
    if j == 0 then [] else UniformRows2D(nx, ny, j - 1) + UniformRow2D(nx, ny, j - 1, nx)
  }

  function UniformLattice2D(nx: nat, ny: nat): seq<Vertex> {
    UniformRows2D(nx, ny, ny)
  }

  function UniformVertex3D(nx: nat, ny: nat, nz: nat, i: nat, j: nat, k: nat): Vertex {
    NewThreeD(i + j * nx + k * nx * ny, UniformCoord(i, nx), UniformCoord(j, ny), UniformCoord(k, nz))
  }

  /** The first `i` vertices of row `j` of layer `k`. */
  function UniformRow3D(nx: nat, ny: nat, nz: nat, k: nat, j: nat, i: nat): seq<Vertex> {
    if i == 0 then [] else UniformRow3D(nx, ny, nz, k, j, i - 1) + [UniformVertex3D(nx, ny, nz, i - 1, j, k)]
  }

  /** Rows `0` to `j - 1` of layer `k`. */
  function UniformPlane3D(nx: nat, ny: nat, nz: nat, k: nat, j: nat): seq<Vertex> {
    if j == 0 then [] else UniformPlane3D(nx, ny, nz, k, j - 1) + UniformRow3D(nx, ny, nz, k, j - 1, nx)
  }

  /** Layers `0` to `k - 1`. */
  function UniformLayers3D(nx: nat, ny: nat, nz: nat, k: nat): seq<Vertex> {
    if k == 0 then [] else UniformLayers3D(nx, ny, nz, k - 1) + UniformPlane3D(nx, ny, nz, k - 1, ny)
  }

  function UniformLattice3D(nx: nat, ny: nat, nz: nat): seq<Vertex> {
    UniformLayers3D(nx, ny, nz, nz)
  }

  lemma {:induction false} UniformRow2DAt(nx: nat, ny: nat, j: nat, i: nat)
    ensures |UniformRow2D(nx, ny, j, i)| == i
    ensures forall q | 0 <= q < i :: UniformRow2D(nx, ny, j, i)[q] == UniformVertex2D(nx, ny, q, j)
  {
    if i > 0 {
      UniformRow2DAt(nx, ny, j, i - 1);
    }
  }

  lemma {:induction false} UniformRows2DIds(nx: nat, ny: nat, j: nat)
    ensures |UniformRows2D(nx, ny, j)| == j * nx
    ensures forall p | 0 <= p < j * nx :: UniformRows2D(nx, ny, j)[p].id == p
    ensures forall p | 0 <= p < j * nx :: UniformRows2D(nx, ny, j)[p].IsTwoD()
  {
    if j > 0 {
      UniformRows2DIds(nx, ny, j - 1);
      UniformRow2DAt(nx, ny, j - 1, nx);
      assert j * nx == (j - 1) * nx + nx;
    }
  }

  /** Filling an `nx` by `ny` container: `nx * ny` 2D vertices, and the
      vertex at position `p` has id `p`. */
  lemma UniformLattice2DIds(nx: nat, ny: nat)
    ensures |UniformLattice2D(nx, ny)| == Two(nx, ny).TotalPoints()
    ensures forall p | 0 <= p < |UniformLattice2D(nx, ny)| ::
      UniformLattice2D(nx, ny)[p].id == p && UniformLattice2D(nx, ny)[p].IsTwoD()
  {
    UniformRows2DIds(nx, ny, ny);
    assert ny * nx == nx * ny;
  }

  lemma {:induction false} UniformRow3DAt(nx: nat, ny: nat, nz: nat, k: nat, j: nat, i: nat)
    ensures |UniformRow3D(nx, ny, nz, k, j, i)| == i
    ensures forall q | 0 <= q < i :: UniformRow3D(nx, ny, nz, k, j, i)[q] == UniformVertex3D(nx, ny, nz, q, j, k)
  {
    if i > 0 {
      UniformRow3DAt(nx, ny, nz, k, j, i - 1);
    }
  }

  lemma {:induction false} UniformPlane3DIds(nx: nat, ny: nat, nz: nat, k: nat, j: nat)
    ensures |UniformPlane3D(nx, ny, nz, k, j)| == j * nx
    ensures var s := UniformPlane3D(nx, ny, nz, k, j);
      forall p | 0 <= p < |s| :: s[p].id == p + k * nx * ny && !s[p].IsTwoD()
  {
    if j > 0 {
      UniformPlane3DIds(nx, ny, nz, k, j - 1);
      UniformRow3DAt(nx, ny, nz, k, j - 1, nx);
      assert j * nx == (j - 1) * nx + nx;
    }
  }

  lemma {:induction false} UniformLayers3DIds(nx: nat, ny: nat, nz: nat, k: nat)
    ensures |UniformLayers3D(nx, ny, nz, k)| == k * nx * ny
    ensures var s := UniformLayers3D(nx, ny, nz, k);
      forall p | 0 <= p < |s| :: s[p].id == p && !s[p].IsTwoD()
  {
    if k > 0 {
      UniformLayers3DIds(nx, ny, nz, k - 1);
      UniformPlane3DIds(nx, ny, nz, k - 1, ny);
      var lower := UniformLayers3D(nx, ny, nz, k - 1);
      var plane := UniformPlane3D(nx, ny, nz, k - 1, ny);
      NextLayer(k, nx, ny);
      var s := UniformLayers3D(nx, ny, nz, k);
      assert s == lower + plane;
      forall p | 0 <= p < |s|
        ensures s[p].id == p && !s[p].IsTwoD()
      {
        if p >= |lower| {
          assert s[p] == plane[p - |lower|];
        }
      }
    }
  }

  /** Filling an `nx` by `ny` by `nz` container: `nx * ny * nz` 3D vertices,
      and the vertex at position `p` has id `p`. */
  lemma UniformLattice3DIds(nx: nat, ny: nat, nz: nat)
    ensures |UniformLattice3D(nx, ny, nz)| == Three(nx, ny, nz).TotalPoints()
    ensures forall p | 0 <= p < |UniformLattice3D(nx, ny, nz)| ::
      UniformLattice3D(nx, ny, nz)[p].id == p && !UniformLattice3D(nx, ny, nz)[p].IsTwoD()
  {
    UniformLayers3DIds(nx, ny, nz, nz);
    LayersVolume(nx, ny, nz);
  }
}
