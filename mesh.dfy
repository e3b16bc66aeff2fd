/** Quadrilateral cells, called nodes, built over a planar lattice
    (src/mesh/nodes.rs). A node is anchored at its south-west corner `v`
    and bounded by four faces through `v`, its East neighbour, its North
    neighbour and the North neighbour of its East neighbour. */
module Mesh {
  import opened Outcomes
  import opened Arith
  import opened Points
  import opened IndexedVertex
  import opened Lattice
  import opened Lines

  datatype Node = Node(id: nat, northFace: Line, southFace: Line, eastFace: Line, westFace: Line) {
    /** A node takes its dimensionality from its north face. */
    function Dimensionality(): (d: nat)
      ensures d == 2 <==> northFace.start.coords.Point2D?
      ensures d == 3 <==> northFace.start.coords.Point3D?
    {
      northFace.Dimensionality()
    }

    /** A node is planar exactly when the start of its north face is. */
    predicate IsTwoD(): (b: bool)
      ensures b <==> northFace.start.coords.Point2D?
    {
      northFace.IsTwoD()
    }
  }

  /** `Node::new`: the faces are taken in the order north, south, east, west. */
  function NewNode(id: nat, nf: Line, sf: Line, ef: Line, wf: Line): (n: Node)
    ensures n.id == id
    ensures n.northFace == nf && n.southFace == sf && n.eastFace == ef && n.westFace == wf
    ensures n.Dimensionality() == nf.Dimensionality()
  {
    Node(id, nf, sf, ef, wf)
  }

  /** Every node has the dimensionality of the first. */
  predicate OneDimension(ns: seq<Node>)
  {
    forall p | 0 <= p < |ns| :: ns[p].Dimensionality() == ns[0].Dimensionality()
  }

  /** `add_node` as written: the collection's dimensionality is read from
      its first node, so an empty collection panics; a node of another
      dimensionality is silently dropped. */
  function AddNodeTo(ns: seq<Node>, n: Node): (r: (Outcome<()>, seq<Node>))
    ensures r.0.Panic? <==> ns == []
    ensures r.0.Panic? ==> r.0.fault == EmptyCollection && r.1 == ns
    ensures r.0.Value? ==> r.1 == if n.Dimensionality() == ns[0].Dimensionality() then ns + [n] else ns
    ensures OneDimension(ns) ==> OneDimension(r.1)
  {
    if ns == [] then (Panic(EmptyCollection), ns)
    else if n.Dimensionality() == ns[0].Dimensionality() then (Value(()), ns + [n])
    else (Value(()), ns)
  }

  /** `add_node` as evidently intended: the first node of an empty
      collection sets its dimensionality. */
  function AddNodeIntended(ns: seq<Node>, n: Node): (r: seq<Node>)
    ensures ns == [] ==> r == [n]
    ensures ns != [] ==> r == if n.Dimensionality() == ns[0].Dimensionality() then ns + [n] else ns
    ensures OneDimension(ns) ==> OneDimension(r)
  {
    if ns == [] || n.Dimensionality() == ns[0].Dimensionality() then ns + [n] else ns
  }

  /** What one iteration of the populate loop does with a vertex. */
  datatype Visit =
    | Skip               // the vertex lacks an East or a North neighbour
    | Anchor(node: Node)  // the vertex is the south-west corner of `node`
    | Abort(fault: Fault) // the iteration panics

  /** The body of the populate loop for the stored vertex `v`. With
      `nx == 0` the first neighbour query divides by zero, since `v` is
      present. */
  function VisitVertex(vs: Vertices, v: Vertex, nodeId: nat): (r: Visit)
    reads vs
    requires vs.shape.Two? && vs.Valid() && v in vs.vertices
    ensures vs.shape.nx == 0 ==> r == Abort(DivisionByZero)
    ensures r.Abort? ==> r.fault == DivisionByZero || r.fault == MissingNortheast
    ensures r.Abort? ==> (r.fault == DivisionByZero <==> vs.shape.nx == 0)
    ensures r.Anchor? ==> r.node.id == nodeId && r.node.IsTwoD()
  {
    if vs.shape.nx == 0 then Abort(DivisionByZero)
    else
      var east := vs.AdjacentVertex2D(v.id, East);
      var north := vs.AdjacentVertex2D(v.id, North);
      if north.Some? && east.Some? then
        match vs.AdjacentVertex2D(east.value.id, North)
        case None => Abort(MissingNortheast)
        case Some(northeast) =>
          var south := Lines.NewTwoD(v, east.value);
          var west := Lines.NewTwoD(v, north.value);
          var northFace := Lines.NewTwoD(north.value, northeast);
          var eastFace := Lines.NewTwoD(east.value, northeast);
          Anchor(NewNode(nodeId, northFace, south, eastFace, west))
      else Skip
  }

  /** The neighbour of `id` one step in direction `d` is present. */
  predicate HasNeighbour(vs: Vertices, id: nat, d: Direction)
    reads vs
    requires vs.shape.Two? && vs.shape.nx > 0
  {
    match NeighbourId2D(vs.shape.nx, vs.shape.ny, id, d)
    case None => false
    case Some(n) => vs.VertexExists(n)
  }

  /** The faces of `node` close up into a quadrilateral anchored at `v`
      whose other corners are the present vertices with ids `v.id + 1`,
      `v.id + nx` and `v.id + nx + 1`. */
  ghost predicate CellAt(vs: Vertices, node: Node, v: Vertex)
    reads vs
  {
    var nx := vs.shape.nx;
    && node.southFace.start == v && node.westFace.start == v
    && node.southFace.end == node.eastFace.start
    && node.westFace.end == node.northFace.start
    && node.northFace.end == node.eastFace.end
    && node.southFace.end.id == v.id + 1
    && node.westFace.end.id == v.id + nx
    && node.eastFace.end.id == v.id + nx + 1
    && node.southFace.end in vs.vertices
    && node.westFace.end in vs.vertices
    && node.eastFace.end in vs.vertices
  }

  /** For a present id, the neighbour query finds a vertex iff the
      neighbour's id is present, and then finds one with that id. */
  lemma NeighbourFound(vs: Vertices, id: nat, d: Direction)
    requires vs.shape.Two? && vs.shape.nx > 0 && vs.VertexExists(id)
    ensures vs.AdjacentVertex2D(id, d).Some? <==> HasNeighbour(vs, id, d)
    ensures vs.AdjacentVertex2D(id, d).Some? ==>
      vs.AdjacentVertex2D(id, d).value.id == NeighbourId2D(vs.shape.nx, vs.shape.ny, id, d).value
  {
    AdjacentById2D(vs, id, d);
  }

  /** The North neighbour of the East neighbour is the diagonal id. */
  lemma NortheastId(nx: nat, ny: nat, id: nat)
    requires nx > 0
    requires NeighbourId2D(nx, ny, id, East).Some? && NeighbourId2D(nx, ny, id, North).Some?
    ensures NeighbourId2D(nx, ny, id, East) == Some(id + 1)
    ensures NeighbourId2D(nx, ny, id + 1, North) == Some(id + nx + 1)
  {
    EastStep(id, nx);
  }

  /** A visit stated on ids: a vertex is skipped iff its East or North
      neighbour is missing. */
  lemma VisitSkips(vs: Vertices, v: Vertex, nodeId: nat)
    requires vs.shape.Two? && vs.shape.nx > 0 && vs.Valid() && v in vs.vertices
    ensures VisitVertex(vs, v, nodeId).Skip? <==>
      !(HasNeighbour(vs, v.id, East) && HasNeighbour(vs, v.id, North))
  {
    assert vs.VertexExists(v.id);
    NeighbourFound(vs, v.id, East);
    NeighbourFound(vs, v.id, North);
  }

  /** When a vertex's East and North neighbours are present, the iteration
      panics iff the diagonal id `v.id + nx + 1` is absent. */
  lemma VisitAborts(vs: Vertices, v: Vertex, nodeId: nat)
    requires vs.shape.Two? && vs.shape.nx > 0 && vs.Valid() && v in vs.vertices
    requires HasNeighbour(vs, v.id, East) && HasNeighbour(vs, v.id, North)
    ensures VisitVertex(vs, v, nodeId).Abort? <==> !vs.VertexExists(v.id + vs.shape.nx + 1)
  {
    var nx, ny := vs.shape.nx, vs.shape.ny;
    assert vs.VertexExists(v.id);
    NeighbourFound(vs, v.id, East);
    NeighbourFound(vs, v.id, North);
    var east := vs.AdjacentVertex2D(v.id, East).value;
    NortheastId(nx, ny, v.id);
    assert vs.VertexExists(east.id);
    NeighbourFound(vs, east.id, North);
  }

  /** An anchored node is a closed quadrilateral whose corners are `v` and
      the present vertices with ids `v.id + 1`, `v.id + nx`, `v.id + nx + 1`. */
  lemma VisitAnchors(vs: Vertices, v: Vertex, nodeId: nat)
    requires vs.shape.Two? && vs.shape.nx > 0 && vs.Valid() && v in vs.vertices
    requires VisitVertex(vs, v, nodeId).Anchor?
    ensures CellAt(vs, VisitVertex(vs, v, nodeId).node, v)
  {
    var nx, ny := vs.shape.nx, vs.shape.ny;
    assert vs.VertexExists(v.id);
    NeighbourFound(vs, v.id, East);
    NeighbourFound(vs, v.id, North);
    var east := vs.AdjacentVertex2D(v.id, East).value;
    NortheastId(nx, ny, v.id);
    assert vs.VertexExists(east.id);
    NeighbourFound(vs, east.id, North);
  }

  /** The visits of the stored vertices from position `k` on, in order,
      each building its node with id 0 as `populate` does. */
  function VisitsFrom(vs: Vertices, k: nat): (r: seq<Visit>)
    reads vs
    requires vs.shape.Two? && vs.Valid() && k <= |vs.vertices|
    ensures |r| == |vs.vertices| - k
    ensures forall q | 0 <= q < |r| :: r[q].Anchor? ==> r[q].node.id == 0 && r[q].node.IsTwoD()
    decreases |vs.vertices| - k
  {
    if k == |vs.vertices| then []
    else [VisitVertex(vs, vs.vertices[k], 0)] + VisitsFrom(vs, k + 1)
  }

  /** One iteration of the populate loop applied to the nodes so far. */
  function Step(visit: Visit, acc: seq<Node>): (r: (Outcome<()>, seq<Node>))
    ensures acc <= r.1 && |r.1| <= |acc| + 1
    ensures |r.1| == |acc| + 1 ==> visit.Anchor? && r.1[|acc|] == visit.node
    ensures r.0.Panic? ==> r.1 == acc
  {
    match visit
    case Skip => (Value(()), acc)
    case Abort(f) => (Panic(f), acc)
    case Anchor(node) => AddNodeTo(acc, node)
  }

  /** The populate loop over `visits` as written, starting from the nodes
      `acc` and stopping at the first panic: the nodes it adds are those
      of anchored visits. */
  function Run(visits: seq<Visit>, acc: seq<Node>): (r: (Outcome<()>, seq<Node>))
    ensures acc <= r.1
    ensures forall q | |acc| <= q < |r.1| :: Anchor(r.1[q]) in visits
  {
    if visits == [] then (Value(()), acc)
    else
      var s := Step(visits[0], acc);
      if s.0.Panic? then s else Run(visits[1..], s.1)
  }

  /** `populate` as written: the loop over every stored vertex. Every node
      it adds gets id 0, because `node_id` is never incremented. */
  function Populated(vs: Vertices, acc: seq<Node>): (r: (Outcome<()>, seq<Node>))
    reads vs
    requires vs.shape.Two? && vs.Valid()
    ensures acc <= r.1
    ensures forall q | |acc| <= q < |r.1| :: r.1[q].id == 0 && r.1[q].IsTwoD()
  {
    var visits := VisitsFrom(vs, 0);
    var r := Run(visits, acc);
    assert forall q | |acc| <= q < |r.1| :: Anchor(r.1[q]) in visits;
    r
  }

  /** The nodes of the anchored visits, in order. */
  function Cells(visits: seq<Visit>): (cs: seq<Node>)
    ensures |cs| <= |visits|
    ensures forall q | 0 <= q < |cs| :: Anchor(cs[q]) in visits
  {
    if visits == [] then []
    else if visits[0].Anchor? then [visits[0].node] + Cells(visits[1..])
    else Cells(visits[1..])
  }

  /** No visit panics on its own. */
  predicate NoAbort(visits: seq<Visit>)
  {
    forall q | 0 <= q < |visits| :: !visits[q].Abort?
  }

  /** Every anchored visit builds a planar node. */
  predicate PlanarAnchors(visits: seq<Visit>)
  {
    forall q | 0 <= q < |visits| :: visits[q].Anchor? ==> visits[q].node.IsTwoD()
  }

  /** Starting from an empty collection, the loop as written never stores
      a node: it succeeds only when no visit anchors a cell, and otherwise
      the first anchored cell makes `add_node` panic. */
  lemma {:induction false} RunFromEmpty(visits: seq<Visit>)
    requires NoAbort(visits)
    ensures Run(visits, []) == (if Cells(visits) == [] then Value(()) else Panic(EmptyCollection), [])
  {
    if visits != [] {
      RunFromEmpty(visits[1..]);
    }
  }

  /** Starting from a non-empty planar collection, the loop as written
      appends exactly the anchored cells, in order. */
  lemma {:induction false} RunAppendsCells(visits: seq<Visit>, acc: seq<Node>)
    requires NoAbort(visits) && PlanarAnchors(visits)
    requires acc != [] && acc[0].IsTwoD()
    ensures Run(visits, acc) == (Value(()), acc + Cells(visits))
  {
    if visits == [] {
      assert acc + Cells(visits) == acc;
    } else {
      var s := Step(visits[0], acc);
      assert s.1[0] == acc[0];
      RunAppendsCells(visits[1..], s.1);
      if visits[0].Anchor? {
        assert s.1 == acc + [visits[0].node];
        assert Cells(visits) == [visits[0].node] + Cells(visits[1..]);
        assert (acc + [visits[0].node]) + Cells(visits[1..]) == acc + Cells(visits);
      } else {
        assert Cells(visits) == Cells(visits[1..]);
      }
    }
  }

  /** A visit that panics makes the loop as written panic, whatever nodes
      it starts from: either that visit is reached, or an earlier one
      panicked already. */
  lemma {:induction false} AbortPanics(visits: seq<Visit>, acc: seq<Node>, q: nat)
    requires q < |visits| && visits[q].Abort?
    ensures Run(visits, acc).0.Panic?
  {
    var s := Step(visits[0], acc);
    if !s.0.Panic? {
      assert visits[1..][q - 1] == visits[q];
      AbortPanics(visits[1..], s.1, q - 1);
    }
  }

  /** The loop over `xs + ys` is the loop over `xs` followed, unless that
      panics, by the loop over `ys`. */
  lemma {:induction false} RunAppend(xs: seq<Visit>, ys: seq<Visit>, acc: seq<Node>)
    ensures Run(xs + ys, acc) == var r := Run(xs, acc); if r.0.Panic? then r else Run(ys, r.1)
  {
    if xs == [] {
      assert xs + ys == ys;
    } else {
      assert (xs + ys)[0] == xs[0];
      assert (xs + ys)[1..] == xs[1..] + ys;
      var s := Step(xs[0], acc);
      if !s.0.Panic? {
        RunAppend(xs[1..], ys, s.1);
      }
    }
  }

  /** From a non-empty planar collection, the loop as written stops at the
      first visit that panics, with that visit's fault, having appended
      the cells anchored before it. */
  lemma RunStopsAtAbort(pre: seq<Visit>, f: Fault, post: seq<Visit>, acc: seq<Node>)
    requires NoAbort(pre) && PlanarAnchors(pre)
    requires acc != [] && acc[0].IsTwoD()
    ensures Run(pre + [Abort(f)] + post, acc) == (Panic(f), acc + Cells(pre))
  {
    var tail := [Abort(f)] + post;
    assert pre + [Abort(f)] + post == pre + tail;
    RunAppendsCells(pre, acc);
    RunAppend(pre, tail, acc);
    assert Run(tail, acc + Cells(pre)) == (Panic(f), acc + Cells(pre));
  }

  /** The loop from position `k` is one iteration at `k` followed, unless
      it panics, by the loop from `k + 1`. */
  lemma RunFromStep(vs: Vertices, k: nat, acc: seq<Node>)
    requires vs.shape.Two? && vs.Valid() && k < |vs.vertices|
    ensures var s := Step(VisitVertex(vs, vs.vertices[k], 0), acc);
      Run(VisitsFrom(vs, k), acc) == if s.0.Panic? then s else Run(VisitsFrom(vs, k + 1), s.1)
  {
    assert VisitsFrom(vs, k)[1..] == VisitsFrom(vs, k + 1);
  }

  /** The loop from position `k` panics when the iteration of the stored
      vertex at some position `q >= k` panics. */
  lemma {:induction false} RunFromAbortPanics(vs: Vertices, k: nat, acc: seq<Node>, q: nat)
    requires vs.shape.Two? && vs.Valid() && k <= q < |vs.vertices|
    requires VisitVertex(vs, vs.vertices[q], 0).Abort?
    ensures Run(VisitsFrom(vs, k), acc).0.Panic?
    decreases q - k
  {
    RunFromStep(vs, k, acc);
    if q > k {
      var s := Step(VisitVertex(vs, vs.vertices[k], 0), acc);
      if !s.0.Panic? {
        RunFromAbortPanics(vs, k + 1, s.1, q);
      }
    }
  }

  /** `populate` as written panics when the iteration of some stored vertex
      panics: `nx == 0`, or an East and a North neighbour without the
      North neighbour of the East one. */
  lemma PopulateAbortPanics(vs: Vertices, acc: seq<Node>, q: nat)
    requires vs.shape.Two? && vs.Valid() && q < |vs.vertices|
    requires VisitVertex(vs, vs.vertices[q], 0).Abort?
    ensures Populated(vs, acc).0.Panic?
  {
    RunFromAbortPanics(vs, 0, acc, q);
  }

  /** From a non-empty planar collection, the loop from position `k`
      stops at the first stored vertex from `k` on whose iteration
      panics, with that iteration's fault. */
  lemma {:induction false} RunFromStopsAtAbort(vs: Vertices, k: nat, acc: seq<Node>, q: nat)
    requires vs.shape.Two? && vs.Valid() && k <= q < |vs.vertices|
    requires VisitVertex(vs, vs.vertices[q], 0).Abort?
    requires forall p | k <= p < q :: !VisitVertex(vs, vs.vertices[p], 0).Abort?
    requires acc != [] && acc[0].IsTwoD()
    ensures Run(VisitsFrom(vs, k), acc).0 == Panic(VisitVertex(vs, vs.vertices[q], 0).fault)
    decreases q - k
  {
    RunFromStep(vs, k, acc);
    if q > k {
      var s := Step(VisitVertex(vs, vs.vertices[k], 0), acc);
      assert s.1[0] == acc[0];
      RunFromStopsAtAbort(vs, k + 1, s.1, q);
    }
  }

  /** From a non-empty planar collection, `populate` as written stops at
      the first stored vertex whose iteration panics, with its fault. */
  lemma PopulateStopsAtAbort(vs: Vertices, acc: seq<Node>, q: nat)
    requires vs.shape.Two? && vs.Valid() && q < |vs.vertices|
    requires VisitVertex(vs, vs.vertices[q], 0).Abort?
    requires forall p | 0 <= p < q :: !VisitVertex(vs, vs.vertices[p], 0).Abort?
    requires acc != [] && acc[0].IsTwoD()
    ensures Populated(vs, acc).0 == Panic(VisitVertex(vs, vs.vertices[q], 0).fault)
  {
    RunFromStopsAtAbort(vs, 0, acc, q);
  }

  /** The populate loop as evidently intended: the node built at an
      anchored visit gets the next id `next`, which then advances, and the
      first node of an empty collection is accepted. The third component
      is the next unused id. */
  function RunIntended(visits: seq<Visit>, acc: seq<Node>, next: nat): (r: (Outcome<()>, seq<Node>, nat))
    ensures acc <= r.1 && next <= r.2
  {
    if visits == [] then (Value(()), acc, next)
    else match visits[0]
      case Skip => RunIntended(visits[1..], acc, next)
      case Abort(f) => (Panic(f), acc, next)
      case Anchor(node) => RunIntended(visits[1..], AddNodeIntended(acc, node.(id := next)), next + 1)
  }

  /** Nodes numbered `0` to `|ns| - 1` by position, all planar. */
  predicate NumberedPlanar(ns: seq<Node>)
  {
    forall q | 0 <= q < |ns| :: ns[q].id == q && ns[q].IsTwoD()
  }

  /** The intended loop stores one node per anchored cell, numbered by
      position, and succeeds. */
  lemma {:induction false} RunIntendedNumbers(visits: seq<Visit>, acc: seq<Node>)
    requires NoAbort(visits) && PlanarAnchors(visits) && NumberedPlanar(acc)
    ensures var (o, ns, next) := RunIntended(visits, acc, |acc|);
      o == Value(()) && |ns| == next == |acc| + |Cells(visits)| && NumberedPlanar(ns)
    ensures var ns := RunIntended(visits, acc, |acc|).1;
      forall q | 0 <= q < |Cells(visits)| :: ns[|acc| + q] == Cells(visits)[q].(id := |acc| + q)
  {
    if visits != [] {
      match visits[0]
      case Skip =>
        RunIntendedNumbers(visits[1..], acc);
      case Anchor(node) =>
        var acc' := AddNodeIntended(acc, node.(id := |acc|));
        assert acc' == acc + [node.(id := |acc|)];
        RunIntendedNumbers(visits[1..], acc');
    }
  }

  /** `populate` as evidently intended, over every stored vertex. */
  function PopulatedIntended(vs: Vertices, acc: seq<Node>): (r: (Outcome<()>, seq<Node>, nat))
    reads vs
    requires vs.shape.Two? && vs.Valid()
    ensures acc <= r.1
  {
    RunIntended(VisitsFrom(vs, 0), acc, |acc|)
  }

  // ---- The reference lattice ----

  /** Lookup in a container whose ids are the positions. */
  lemma PositionalLookup(vs: seq<Vertex>, q: nat)
    requires forall p | 0 <= p < |vs| :: vs[p].id == p
    ensures Lookup(vs, q) == if q < |vs| then Some(vs[q]) else None
  {
    if q < |vs| {
      assert vs[q].id == q;
    }
  }

  /** Position `p` of the first `j` rows holds the vertex at column
      `p % nx`, row `p / nx`. */
  lemma {:induction false} UniformRowsAt(nx: nat, ny: nat, j: nat, p: nat)
    requires nx > 0 && p < j * nx
    ensures |UniformRows2D(nx, ny, j)| == j * nx
    ensures UniformRows2D(nx, ny, j)[p] == UniformVertex2D(nx, ny, p % nx, p / nx)
  {
    UniformRows2DIds(nx, ny, j);
    assert j > 0;
    var lower := UniformRows2D(nx, ny, j - 1);
    UniformRows2DIds(nx, ny, j - 1);
    if p < (j - 1) * nx {
      UniformRowsAt(nx, ny, j - 1, p);
      assert UniformRows2D(nx, ny, j)[p] == lower[p];
    } else {
      var i := p - |lower|;
      UniformRow2DAt(nx, ny, j - 1, nx);
      DivModOf(p, j - 1, i, nx);
      assert UniformRows2D(nx, ny, j)[p] == UniformRow2D(nx, ny, j - 1, nx)[i];
      assert UniformRow2D(nx, ny, j - 1, nx)[i] == UniformVertex2D(nx, ny, i, j - 1);
    }
  }

  /** The vertex at position `p` of the reference lattice is the one at
      column `p % nx`, row `p / nx`. */
  lemma UniformAt(nx: nat, ny: nat, p: nat)
    requires p < |UniformLattice2D(nx, ny)|
    ensures nx > 0 && |UniformLattice2D(nx, ny)| == nx * ny
    ensures UniformLattice2D(nx, ny)[p] == UniformVertex2D(nx, ny, p % nx, p / nx)
    ensures UniformLattice2D(nx, ny)[p].id == p
  {
    UniformLattice2DIds(nx, ny);
    UniformRowsAt(nx, ny, ny, p);
  }

  /** Position `p` of a row-major lattice `nx` wide and `ny` high is the
      south-west corner of a cell iff it is in neither the last column
      nor the last row. */
  predicate IsCellCorner(nx: nat, ny: nat, p: nat)
  {
    nx > 0 && p % nx + 1 < nx && p / nx + 1 < ny
  }

  /** The cell with south-west corner at column `i`, row `j` of the
      reference lattice. */
  function UniformCell(nx: nat, ny: nat, i: nat, j: nat, nodeId: nat): Node
  {
    var v := UniformVertex2D(nx, ny, i, j);
    var e := UniformVertex2D(nx, ny, i + 1, j);
    var n := UniformVertex2D(nx, ny, i, j + 1);
    var ne := UniformVertex2D(nx, ny, i + 1, j + 1);
    Node(nodeId, Line(n, ne), Line(v, e), Line(e, ne), Line(v, n))
  }

  /** In an `nx` by `ny` lattice, the East id of position `p` exists
      unless `p` is in the last column, and stays in the lattice. */
  lemma UniformEastId(nx: nat, ny: nat, p: nat)
    requires nx > 0 && p < nx * ny
    ensures NeighbourId2D(nx, ny, p, East) == if p % nx + 1 < nx then Some(p + 1) else None
    ensures p % nx + 1 < nx ==> p + 1 < nx * ny && (p + 1) % nx == p % nx + 1 && (p + 1) / nx == p / nx
  {
    if p % nx + 1 < nx {
      EastStep(p, nx);
      RowBound(p, nx, ny);
      RowBound(p + 1, nx, ny);
    }
  }

  /** In an `nx` by `ny` lattice, the North id of position `p` exists
      unless `p` is in the last row, and stays in the lattice. */
  lemma UniformNorthId(nx: nat, ny: nat, p: nat)
    requires nx > 0 && p < nx * ny
    ensures NeighbourId2D(nx, ny, p, North) == if p / nx + 1 < ny then Some(p + nx) else None
    ensures p / nx + 1 < ny ==> p + nx < nx * ny && (p + nx) % nx == p % nx && (p + nx) / nx == p / nx + 1
  {
    if p / nx + 1 < ny {
      NorthStep(p, nx);
      RowBound(p + nx, nx, ny);
    }
  }

  /** On a container filled by `populate_uniform`, the East neighbour of
      the vertex at column `i`, row `j` is the one at column `i + 1`. */
  lemma UniformEast(vs: Vertices, p: nat)
    requires vs.shape.Two? && vs.vertices == UniformLattice2D(vs.shape.nx, vs.shape.ny)
    requires p < |vs.vertices|
    ensures vs.shape.nx > 0
    ensures var nx, ny := vs.shape.nx, vs.shape.ny;
      vs.AdjacentVertex2D(p, East) ==
        if p % nx + 1 < nx then Some(UniformVertex2D(nx, ny, p % nx + 1, p / nx)) else None
  {
    var nx, ny := vs.shape.nx, vs.shape.ny;
    UniformAt(nx, ny, p);
    UniformEastId(nx, ny, p);
    if p % nx + 1 < nx {
      UniformEastLink(vs, p);
      UniformAt(nx, ny, p + 1);
    } else {
      AdjacentById2D(vs, p, East);
    }
  }

  /** On a container filled by `populate_uniform`, the North neighbour of
      the vertex at column `i`, row `j` is the one at row `j + 1`. */
  lemma UniformNorth(vs: Vertices, p: nat)
    requires vs.shape.Two? && vs.vertices == UniformLattice2D(vs.shape.nx, vs.shape.ny)
    requires p < |vs.vertices|
    ensures vs.shape.nx > 0
    ensures var nx, ny := vs.shape.nx, vs.shape.ny;
      vs.AdjacentVertex2D(p, North) ==
        if p / nx + 1 < ny then Some(UniformVertex2D(nx, ny, p % nx, p / nx + 1)) else None
  {
    var nx, ny := vs.shape.nx, vs.shape.ny;
    UniformAt(nx, ny, p);
    UniformNorthId(nx, ny, p);
    if p / nx + 1 < ny {
      UniformNorthLink(vs, p);
      UniformAt(nx, ny, p + nx);
    } else {
      AdjacentById2D(vs, p, North);
    }
  }

  /** On a container filled by `populate_uniform`, the vertex at column
      `i`, row `j` anchors the cell spanning columns `i, i + 1` and rows
      `j, j + 1` when both exist, and is skipped otherwise; no iteration
      panics. */
  lemma UniformVisit(vs: Vertices, p: nat, nodeId: nat)
    requires vs.shape.Two? && vs.Valid()
    requires vs.vertices == UniformLattice2D(vs.shape.nx, vs.shape.ny)
    requires p < |vs.vertices|
    ensures var nx, ny := vs.shape.nx, vs.shape.ny;
      VisitVertex(vs, vs.vertices[p], nodeId) ==
        if IsCellCorner(nx, ny, p) then Anchor(UniformCell(nx, ny, p % nx, p / nx, nodeId)) else Skip
  {
    var nx, ny := vs.shape.nx, vs.shape.ny;
    UniformAt(nx, ny, p);
    UniformEast(vs, p);
    UniformNorth(vs, p);
    if IsCellCorner(nx, ny, p) {
      UniformCornerLinks(vs, p);
      CornerAnchors(vs, p, nodeId);
      UniformCellOf(nx, ny, p, nodeId);
    }
  }

  /** The quadrilateral anchored at position `p` of a row-major sequence
      of vertices `nx` wide. */
  function CellOf(vs: seq<Vertex>, nx: nat, p: nat, nodeId: nat): Node
    requires p + nx + 1 < |vs|
  {
    Node(nodeId, Line(vs[p + nx], vs[p + nx + 1]), Line(vs[p], vs[p + 1]),
         Line(vs[p + 1], vs[p + nx + 1]), Line(vs[p], vs[p + nx]))
  }

  /** The vertex at position `p` of `vs` finds its East, North and
      Northeast neighbours one position, one row, and one row and
      position on. */
  ghost predicate CornerLinks(vs: Vertices, p: nat)
    reads vs
    requires vs.shape.Two? && vs.shape.nx > 0
  {
    var nx, s := vs.shape.nx, vs.vertices;
    && p + nx + 1 < |s|
    && s[p].IsTwoD() && s[p + 1].IsTwoD() && s[p + nx].IsTwoD() && s[p + nx + 1].IsTwoD()
    && vs.AdjacentVertex2D(s[p].id, East) == Some(s[p + 1])
    && vs.AdjacentVertex2D(s[p].id, North) == Some(s[p + nx])
    && vs.AdjacentVertex2D(s[p + 1].id, North) == Some(s[p + nx + 1])
  }

  /** A linked corner anchors the quadrilateral through its neighbours. */
  lemma CornerAnchors(vs: Vertices, p: nat, nodeId: nat)
    requires vs.shape.Two? && vs.Valid() && vs.shape.nx > 0 && CornerLinks(vs, p)
    ensures p + vs.shape.nx + 1 < |vs.vertices|
    ensures VisitVertex(vs, vs.vertices[p], nodeId) == Anchor(CellOf(vs.vertices, vs.shape.nx, p, nodeId))
  {
  }

  /** Every cell corner of the reference lattice is linked. */
  lemma UniformCornerLinks(vs: Vertices, p: nat)
    requires vs.shape.Two? && vs.vertices == UniformLattice2D(vs.shape.nx, vs.shape.ny)
    requires p < |vs.vertices| && IsCellCorner(vs.shape.nx, vs.shape.ny, p)
    ensures vs.shape.nx > 0 && CornerLinks(vs, p)
  {
    UniformCornerIds(vs, p);
    UniformEastLink(vs, p);
    UniformNorthLink(vs, p);
    UniformCornerNortheast(vs, p);
  }

  /** The four corners of a cell of the reference lattice are planar, and
      the first two carry their positions as ids. */
  lemma UniformCornerIds(vs: Vertices, p: nat)
    requires vs.shape.Two? && vs.vertices == UniformLattice2D(vs.shape.nx, vs.shape.ny)
    requires p < |vs.vertices| && IsCellCorner(vs.shape.nx, vs.shape.ny, p)
    ensures var nx, s := vs.shape.nx, vs.vertices;
      && nx > 0 && p + nx + 1 < |s| && s[p].id == p && s[p + 1].id == p + 1
      && s[p].IsTwoD() && s[p + 1].IsTwoD() && s[p + nx].IsTwoD() && s[p + nx + 1].IsTwoD()
  {
    var nx, ny := vs.shape.nx, vs.shape.ny;
    UniformAt(nx, ny, p);
    UniformLattice2DIds(nx, ny);
    UniformEastId(nx, ny, p);
    UniformNorthId(nx, ny, p + 1);
  }

  /** Off the last column, the East neighbour of position `p` of the
      reference lattice is the next position. */
  lemma UniformEastLink(vs: Vertices, p: nat)
    requires vs.shape.Two? && vs.vertices == UniformLattice2D(vs.shape.nx, vs.shape.ny)
    requires vs.shape.nx > 0 && p < |vs.vertices| && p % vs.shape.nx + 1 < vs.shape.nx
    ensures vs.shape.nx > 0 && p + 1 < |vs.vertices|
    ensures vs.AdjacentVertex2D(p, East) == Some(vs.vertices[p + 1])
  {
    var nx, ny := vs.shape.nx, vs.shape.ny;
    UniformAt(nx, ny, p);
    UniformLattice2DIds(nx, ny);
    UniformEastId(nx, ny, p);
    PositionalLookup(vs.vertices, p + 1);
    AdjacentById2D(vs, p, East);
  }

  /** Off the last row, the North neighbour of position `p` of the
      reference lattice is the position one row on. */
  lemma UniformNorthLink(vs: Vertices, p: nat)
    requires vs.shape.Two? && vs.vertices == UniformLattice2D(vs.shape.nx, vs.shape.ny)
    requires vs.shape.nx > 0 && p < |vs.vertices| && p / vs.shape.nx + 1 < vs.shape.ny
    ensures p + vs.shape.nx < |vs.vertices|
    ensures vs.AdjacentVertex2D(p, North) == Some(vs.vertices[p + vs.shape.nx])
  {
    var nx, ny := vs.shape.nx, vs.shape.ny;
    UniformAt(nx, ny, p);
    UniformLattice2DIds(nx, ny);
    UniformNorthId(nx, ny, p);
    PositionalLookup(vs.vertices, p);
    PositionalLookup(vs.vertices, p + nx);
    AdjacentById2D(vs, p, North);
  }

  /** The North neighbour of a cell corner's East neighbour is the
      position one row and one column on. */
  lemma UniformCornerNortheast(vs: Vertices, p: nat)
    requires vs.shape.Two? && vs.vertices == UniformLattice2D(vs.shape.nx, vs.shape.ny)
    requires p < |vs.vertices| && IsCellCorner(vs.shape.nx, vs.shape.ny, p)
    ensures vs.shape.nx > 0 && p + vs.shape.nx + 1 < |vs.vertices|
    ensures vs.AdjacentVertex2D(p + 1, North) == Some(vs.vertices[p + vs.shape.nx + 1])
  {
    var nx, ny := vs.shape.nx, vs.shape.ny;
    UniformAt(nx, ny, p);
    UniformEastId(nx, ny, p);
    UniformNorthLink(vs, p + 1);
    assert p + 1 + nx == p + nx + 1;
  }

  /** On the reference lattice, the cell at a corner position is the one
      spanning that corner's column and row and the next ones. */
  lemma UniformCellOf(nx: nat, ny: nat, p: nat, nodeId: nat)
    requires p < |UniformLattice2D(nx, ny)| && IsCellCorner(nx, ny, p)
    ensures p + nx + 1 < |UniformLattice2D(nx, ny)|
    ensures CellOf(UniformLattice2D(nx, ny), nx, p, nodeId) == UniformCell(nx, ny, p % nx, p / nx, nodeId)
  {
    UniformAt(nx, ny, p);
    UniformEastId(nx, ny, p);
    UniformNorthId(nx, ny, p);
    UniformNorthId(nx, ny, p + 1);
    UniformAt(nx, ny, p + 1);
    UniformAt(nx, ny, p + nx);
    UniformAt(nx, ny, p + 1 + nx);
    assert p + nx + 1 == p + 1 + nx;
  }

  /** The number of cell corners among the first `p` positions. */
  function CornerCount(nx: nat, ny: nat, p: nat): (c: nat)
    ensures c <= p
  {
    if p == 0 then 0 else CornerCount(nx, ny, p - 1) + (if IsCellCorner(nx, ny, p - 1) then 1 else 0)
  }

  /** The first `i` positions of row `j` hold `min(i, nx - 1)` corners,
      none in the last row. */
  lemma {:induction false} CornerRow(nx: nat, ny: nat, j: nat, i: nat)
    requires nx > 0 && i <= nx
    ensures CornerCount(nx, ny, j * nx + i) ==
      CornerCount(nx, ny, j * nx) + (if j + 1 < ny then (if i < nx then i else nx - 1) else 0)
  {
    if i > 0 {
      CornerRow(nx, ny, j, i - 1);
      DivModUnique(j, i - 1, nx);
    }
  }

  lemma {:induction false} CornerRows(nx: nat, ny: nat, j: nat)
    requires nx > 0 && ny > 0 && j <= ny
    ensures CornerCount(nx, ny, j * nx) == (if j < ny then j else ny - 1) * (nx - 1)
  {
    if j > 0 {
      CornerRows(nx, ny, j - 1);
      NextRowOfCells(j, nx);
      CornerRow(nx, ny, j - 1, nx);
    }
  }

  /** An `nx` by `ny` lattice has `(nx - 1) * (ny - 1)` cell corners. */
  lemma CornerTotal(nx: nat, ny: nat)
    requires nx > 0 && ny > 0
    ensures CornerCount(nx, ny, nx * ny) == (nx - 1) * (ny - 1)
  {
    CornerRows(nx, ny, ny);
    assert ny * nx == nx * ny;
  }

  /** On a container filled by `populate_uniform`, the visits from
      position `k` on anchor exactly at the cell corners among those
      positions, and none panics. */
  lemma {:induction false} UniformCells(vs: Vertices, k: nat)
    requires vs.shape.Two? && vs.Valid()
    requires vs.vertices == UniformLattice2D(vs.shape.nx, vs.shape.ny)
    requires k <= |vs.vertices|
    ensures NoAbort(VisitsFrom(vs, k))
    ensures |Cells(VisitsFrom(vs, k))| + CornerCount(vs.shape.nx, vs.shape.ny, k)
            == CornerCount(vs.shape.nx, vs.shape.ny, |vs.vertices|)
    decreases |vs.vertices| - k
  {
    if k < |vs.vertices| {
      UniformCells(vs, k + 1);
      UniformVisit(vs, k, 0);
      var visits := VisitsFrom(vs, k);
      assert visits[1..] == VisitsFrom(vs, k + 1);
    }
  }

  /** On a container filled by `populate_uniform` with `nx, ny >= 1`,
      `(nx - 1) * (ny - 1)` vertices anchor a cell. */
  lemma UniformCellCount(vs: Vertices)
    requires vs.shape.Two? && vs.Valid() && vs.shape.nx > 0 && vs.shape.ny > 0
    requires vs.vertices == UniformLattice2D(vs.shape.nx, vs.shape.ny)
    ensures |Cells(VisitsFrom(vs, 0))| == (vs.shape.nx - 1) * (vs.shape.ny - 1)
    ensures NoAbort(VisitsFrom(vs, 0))
  {
    UniformLattice2DIds(vs.shape.nx, vs.shape.ny);
    UniformCells(vs, 0);
    CornerTotal(vs.shape.nx, vs.shape.ny);
  }

  lemma {:induction false} CornerMonotone(nx: nat, ny: nat, p: nat, q: nat)
    requires p <= q
    ensures CornerCount(nx, ny, p) <= CornerCount(nx, ny, q)
    decreases q
  {
    if p < q {
      CornerMonotone(nx, ny, p, q - 1);
    }
  }

  lemma {:induction false} NoCorners(nx: nat, ny: nat, p: nat)
    requires nx < 2 || ny < 2
    ensures CornerCount(nx, ny, p) == 0
  {
    if p > 0 {
      NoCorners(nx, ny, p - 1);
    }
  }

  /** `populate` as written, from an empty collection, on a container
      filled by `populate_uniform`: it panics as soon as the lattice has a
      cell, that is when `nx >= 2` and `ny >= 2`, and stores nothing. */
  lemma UniformPopulateAsWritten(vs: Vertices)
    requires vs.shape.Two? && vs.Valid()
    requires vs.vertices == UniformLattice2D(vs.shape.nx, vs.shape.ny)
    ensures Populated(vs, []) ==
      (if vs.shape.nx >= 2 && vs.shape.ny >= 2 then Panic(EmptyCollection) else Value(()), [])
  {
    var nx, ny := vs.shape.nx, vs.shape.ny;
    UniformLattice2DIds(nx, ny);
    UniformCells(vs, 0);
    RunFromEmpty(VisitsFrom(vs, 0));
    if nx >= 2 && ny >= 2 {
      MulMonotone(1, nx, ny);
      assert IsCellCorner(nx, ny, 0);
      CornerMonotone(nx, ny, 1, |vs.vertices|);
    } else {
      NoCorners(nx, ny, |vs.vertices|);
    }
  }

  /** `populate` as written, from a non-empty planar collection, on a
      container filled by `populate_uniform` with `nx, ny >= 1`: it
      succeeds and appends `(nx - 1) * (ny - 1)` nodes, all with id 0. */
  lemma UniformPopulateAppends(vs: Vertices, acc: seq<Node>)
    requires vs.shape.Two? && vs.Valid() && vs.shape.nx > 0 && vs.shape.ny > 0
    requires vs.vertices == UniformLattice2D(vs.shape.nx, vs.shape.ny)
    requires acc != [] && acc[0].IsTwoD()
    ensures Populated(vs, acc).0 == Value(())
    ensures |Populated(vs, acc).1| == |acc| + (vs.shape.nx - 1) * (vs.shape.ny - 1)
  {
    UniformCellCount(vs);
    RunAppendsCells(VisitsFrom(vs, 0), acc);
  }

  /** `populate` as evidently intended, from an empty collection, on a
      container filled by `populate_uniform` with `nx, ny >= 1`: it
      succeeds with `(nx - 1) * (ny - 1)` planar nodes numbered 0, 1, 2, ... */
  lemma UniformPopulateIntended(vs: Vertices)
    requires vs.shape.Two? && vs.Valid() && vs.shape.nx > 0 && vs.shape.ny > 0
    requires vs.vertices == UniformLattice2D(vs.shape.nx, vs.shape.ny)
    ensures var (o, ns, _) := PopulatedIntended(vs, []);
      o == Value(()) && |ns| == (vs.shape.nx - 1) * (vs.shape.ny - 1) && NumberedPlanar(ns)
  {
    UniformCellCount(vs);
    RunIntendedNumbers(VisitsFrom(vs, 0), []);
  }

  class Nodes {
    var nodes: seq<Node>

    /** An empty collection (`Nodes::new_2d`). */
    constructor NewTwoD()
      ensures nodes == []
    {
      nodes := [];
    }

    function IsEmpty(): (b: bool)
      reads this
      ensures b <==> |nodes| == 0
    {
      nodes == []
    }

    /** The first node's dimensionality; panics on an empty collection. */
    function Dimensionality(): (r: Outcome<nat>)
      reads this
      ensures r.Panic? <==> IsEmpty()
      ensures r.Panic? ==> r.fault == EmptyCollection
      ensures r.Value? ==> (r.value == 2 <==> nodes[0].northFace.start.coords.Point2D?)
      ensures r.Value? ==> (r.value == 3 <==> nodes[0].northFace.start.coords.Point3D?)
    {
      if nodes == [] then Panic(EmptyCollection) else Value(nodes[0].Dimensionality())
    }

    function IsTwoD(): (r: Outcome<bool>)
      reads this
      ensures r.Panic? <==> IsEmpty()
      ensures r.Value? ==> (r.value <==> Dimensionality() == Value(2))
    {
      if nodes == [] then Panic(EmptyCollection) else Value(nodes[0].IsTwoD())
    }

    /** `add_node`: appends `n` when its dimensionality is the
        collection's, drops it otherwise, and panics when empty. */
    method AddNode(n: Node) returns (r: Outcome<()>)
      modifies this
      ensures (r, nodes) == AddNodeTo(old(nodes), n)
    {
      var d := Dimensionality();
      if d.Panic? {
        return Panic(d.fault);
      }
      if n.Dimensionality() == d.value {
        nodes := nodes + [n];
      }
      r := Value(());
    }

    /** `populate`: visits the stored vertices in order and adds a node
        for every vertex with an East and a North neighbour. */
    method Populate(vs: Vertices) returns (r: Outcome<()>)
      requires vs.shape.Two? && vs.Valid()
      modifies this
      ensures (r, nodes) == Populated(vs, old(nodes))
    {
      var nodeId := 0;
      var k := 0;
      while k < |vs.vertices|
        invariant k <= |vs.vertices|
        invariant Run(VisitsFrom(vs, k), nodes) == Run(VisitsFrom(vs, 0), old(nodes))
      {
        var visit := VisitVertex(vs, vs.vertices[k], nodeId);
        RunFromStep(vs, k, nodes);
        if visit.Abort? {
          return Panic(visit.fault);
        } else if visit.Anchor? {
          r := AddNode(visit.node);
          if r.Panic? {
            return;
          }
        }
        k := k + 1;
      }
      r := Value(());
    }
  }
}
