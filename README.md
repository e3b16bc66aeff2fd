# structured-mesher core, modelled in Dafny

structured-mesher builds structured quadrilateral meshes. It has four parts:

- **Vertices.** A container of id-tagged points (`Vertices`) with a fixed lattice shape. The shape is `nx × ny` in 2D or `nx × ny × nz` in 3D. A vertex is addressed by its row-major id: `i + j·nx` in 2D, `i + j·nx + k·nx·ny` in 3D.
  - The container converts between ids and grid indices.
  - It answers neighbour queries in the six directions.
  - It can fill itself with a uniform lattice over the unit square or cube.
- **Lines.** A line joins two vertices. A `LineCollection` accepts only lines of its own dimensionality.
- **Nodes.** A node is a quadrilateral cell bounded by four lines: its north, south, east and west faces.
- **Populating nodes.** `Nodes::populate` walks a planar container and builds a node at every vertex that has both an East and a North neighbour.

The model has six modules:

- `outcomes.dfy` (`Outcomes`): `Option`, `Result`, and `Outcome`, a value or a panic with its cause.
- `points.dfy` (`Points`): lattice shapes and points.
- `vertex.dfy` (`IndexedVertex`): vertices.
- `lattice.dfy` (`Lattice`): the `Vertices` class, its addressing, and the uniform reference lattice.
- `lines.dfy` (`Lines`): lines and the `LineCollection` class.
- `mesh.dfy` (`Mesh`): nodes, the `Nodes` class, and the populate loop.

`arith.dfy` (`Arith`) holds the facts about `*`, `/` and `%` that the row-major addressing needs.

How Rust constructs are modelled:

- **Panics become values.** A Rust panic becomes an `Outcome.Panic` naming its cause. The causes are:
  - `unwrap` on an empty vector;
  - `Point2D::z`;
  - `% nx` with `nx == 0`;
  - an absent northeast neighbour.
- **Updates in place stay imperative.** The structs whose methods change their fields in place are classes: `Vertices`, `LineCollection` and `Nodes`. Their vectors are `seq` fields that the methods reassign.
  - Each method is proved against a function of the old state.
  - The loops keep their invariants: the populate loops, the `get_vertex` scan, and the `Nodes::populate` loop.
- **Generic points become one type.** The generic point parameter `P` becomes a single `Point` datatype with a 2D and a 3D case. Because of this, the dimensionality checks in `add_vertex`, `add_line` and `add_node` can actually refuse an item.

## Model

| member | source | states |
|---|---|---|
| Points.Dimensions.Dimensionality | src/geometry/points.rs:14-24 | a shape has 2 axes exactly when it is `Two` and 3 exactly when it is `Three` |
| Points.Dimensions.IsTwoD | src/geometry/points.rs:15-17 | a shape is 2D exactly when it is `Two(nx, ny)`, determined by two axis counts |
| Points.Dimensions.TotalPoints | src/geometry/points.rs:27-33 | the point count is zero exactly when some axis count is zero |
| Points.Dimensions.AsTuple | src/geometry/vertices.rs:41 | the tuple is the shape's `(nx, ny)` with no third component for a 2D shape, and `(nx, ny, nz)` with `nz` present for a 3D one; the product of the components is the point count |
| Points.Point.Dimensionality | src/geometry/points.rs:48-56 | a 2D point reports 2, a 3D point reports 3 |
| Points.Point.IsTwoD | src/geometry/points.rs:49-51 | a point is 2D exactly when it is `Point2D(x, y)`, determined by two coordinates |
| Points.Point.Z | src/geometry/points.rs:67-69 | the z coordinate panics exactly for a 2D point and otherwise is the point's z |
| Points.Origin2D | src/geometry/points.rs:77-79 | the planar origin has x = y = 0 |
| Points.Origin3D | src/geometry/points.rs:118-120 | the spatial origin has x = y = z = 0 |
| IndexedVertex.Vertex.GetZ | src/geometry/vertex.rs:23-25 | a vertex's z panics exactly when its point is planar |
| IndexedVertex.Vertex.GetX | src/geometry/vertex.rs:15-17 | the result is the x coordinate of the vertex's point, 2D or 3D |
| IndexedVertex.Vertex.GetY | src/geometry/vertex.rs:19-21 | the result is the y coordinate of the vertex's point, 2D or 3D |
| IndexedVertex.Vertex.IsTwoD | src/geometry/vertex.rs:29-31 | a vertex is planar exactly when asking for its z coordinate panics |
| IndexedVertex.Vertex.Dimensionality | src/geometry/vertex.rs:28-36 | a vertex reports 2 when planar, 3 otherwise, agreeing with its point |
| IndexedVertex.NewTwoD | src/geometry/vertex.rs:38-42 | the new vertex carries the given id and coordinates, is planar, and its z panics |
| IndexedVertex.NewThreeD | src/geometry/vertex.rs:44-48 | the new vertex carries the given id and all three coordinates and is spatial |
| Lattice.IndexOfId | src/geometry/vertices.rs:192-195 | the position found is that of the first vertex with the id; none is found exactly when no vertex has it |
| Lattice.Lookup | src/geometry/vertices.rs:193-194 | nothing is found exactly when no vertex has the id; a found vertex is stored and has the id |
| Lattice.LookupFirst | src/geometry/vertices.rs:193-194 | when position `k` holds the id and no earlier position does, the lookup finds the vertex at `k` |
| Lattice.Vertices.NewTwoD | src/geometry/vertices.rs:35-37 | an empty container of shape `Two(nx, ny)` |
| Lattice.Vertices.NewThreeD | src/geometry/vertices.rs:108-110 | an empty container of shape `Three(nx, ny, nz)` |
| Lattice.Vertices.Dimensionality | src/geometry/vertices.rs:23-31 | the container reports 2 exactly when its shape is planar and 3 exactly when it is not |
| Lattice.Vertices.IsTwoD | src/geometry/vertices.rs:24-26 | a container is planar exactly when its shape tuple has no `nz` |
| Lattice.Vertices.NxNy | src/geometry/vertices.rs:100-103 | the pair is the planar shape's `(nx, ny)`, and its product is the shape's point count |
| Lattice.Vertices.AddVertex | src/geometry/vertices.rs:186-190 | appends the vertex when its dimensionality matches the container's and otherwise leaves the contents alone; keeps every stored vertex of the container's dimensionality |
| Lattice.Vertices.GetVertex | src/geometry/vertices.rs:192-195 | the scan returns the first vertex with the id, and nothing exactly when no vertex has it |
| Lattice.Vertices.VertexExists | src/geometry/vertices.rs:197-203 | true exactly when some stored vertex has the id |
| Lattice.Vertices.PopulateUniform2D | src/geometry/vertices.rs:85-98 | appends the `nx × ny` reference lattice in row-major order and keeps the container's invariant |
| Lattice.Vertices.PopulateUniform3D | src/geometry/vertices.rs:163-181 | appends the `nx × ny × nz` reference lattice, k outermost and i innermost, and keeps the invariant |
| Lattice.Vertices.AppendPlane3D | src/geometry/vertices.rs:171-179 | the middle loop appends plane `k` row by row |
| Lattice.Vertices.AppendRow3D | src/geometry/vertices.rs:172-178 | the inner loop appends row `j` of plane `k` |
| Lattice.Vertices.IdToIJ | src/geometry/vertices.rs:67-73 | absent exactly for an absent id; otherwise `i < nx` and `j·nx + i` is the id |
| Lattice.Vertices.IJToId | src/geometry/vertices.rs:75-83 | present exactly when the id `j·nx + i` is stored, and then it is that id; `i` is not range-checked |
| Lattice.Vertices.AdjacentVertex2D | src/geometry/vertices.rs:39-65 | a neighbour is found only for a stored id and is itself stored |
| Lattice.Vertices.IdToIJK | src/geometry/vertices.rs:147-154 | absent exactly for an absent id; otherwise `i < nx`, `j < ny` and `i + j·nx + k·nx·ny` is the id |
| Lattice.Vertices.IJKToId | src/geometry/vertices.rs:156-161 | present exactly when `i, j, k` are inside the shape and the id `i + j·nx + k·nx·ny` is stored |
| Lattice.Vertices.AdjacentVertex3D | src/geometry/vertices.rs:112-145 | a neighbour is found only for a stored id and is itself stored |
| Lattice.StepIds2D | src/geometry/vertices.rs:43-61 | the grid step to the North or South changes the id by `nx`, and `id % nx`, `id / nx` recover `(i, j)` |
| Lattice.StepMatchesNeighbour2D | src/geometry/vertices.rs:39-65 | a 2D grid step from the coordinates of an id lands on the id that the id-level neighbour function names, and is refused exactly when that function refuses |
| Lattice.StepMatchesNeighbour3D | src/geometry/vertices.rs:112-145 | the same for 3D steps followed by the range check of `vertex_ijk_to_id` |
| Lattice.AdjacentById2D | src/geometry/vertices.rs:39-65 | the neighbour of a stored vertex is the first vertex whose id is one grid step away; there is none at the boundary or when that id is absent |
| Lattice.AdjacentById3D | src/geometry/vertices.rs:112-145 | the same for the six 3D directions |
| Lattice.IdRoundTrip2D | src/geometry/vertices.rs:67-83 | converting a stored id to `(i, j)` and back gives the id |
| Lattice.GridRoundTrip2D | src/geometry/vertices.rs:67-83 | converting an in-row `(i, j)` to an id and back gives `(i, j)` |
| Lattice.GridAliasing2D | src/geometry/vertices.rs:75-83 | with no range check, `(i + nx, j)` names the same vertex as `(i, j + 1)` |
| Lattice.IdRoundTrip3D | src/geometry/vertices.rs:147-161 | converting a stored id inside the shape to `(i, j, k)` and back gives the id |
| Lattice.GridRoundTrip3D | src/geometry/vertices.rs:147-161 | converting an accepted `(i, j, k)` to an id and back gives `(i, j, k)` |
| Lattice.BoundaryAbsence2D | src/geometry/vertices.rs:43-61 | a vertex on a side of the lattice has no neighbour across it; Up and Down never have one in 2D |
| Lattice.BoundaryAbsence3D | src/geometry/vertices.rs:116-141 | a vertex on a face of the lattice has no neighbour across it |
| Lattice.UniformLattice2DIds | src/geometry/vertices.rs:90-97 | the 2D uniform fill has `nx·ny` planar vertices, and the vertex at position `p` has id `p` |
| Lattice.UniformLattice3DIds | src/geometry/vertices.rs:170-180 | the 3D uniform fill has `nx·ny·nz` spatial vertices, and the vertex at position `p` has id `p` |
| Lines.Line.Dimensionality | src/geometry/line.rs:23-31 | a line has its start vertex's dimensionality |
| Lines.Line.IsTwoD | src/geometry/line.rs:24-26 | a line is planar exactly when its start vertex is |
| Lines.NewTwoD | src/geometry/line.rs:11-15 | the line joins the two planar vertices in order and is planar |
| Lines.NewThreeD | src/geometry/line.rs:17-21 | the line joins the two spatial vertices in order and is spatial |
| Lines.AddLineTo | src/geometry/line.rs:58-65 | panics exactly on an empty collection; `Ok` and the line appended exactly when its dimensionality matches the first line's; otherwise `Err` with the collection unchanged; a collection of one dimensionality stays so |
| Lines.LineCollection.constructor | src/geometry/line.rs:50-52 | a new collection holds no lines |
| Lines.LineCollection.IsEmpty | src/geometry/line.rs:54-56 | true exactly when no line is stored |
| Lines.LineCollection.Dimensionality | src/geometry/line.rs:43-46 | panics exactly on an empty collection; otherwise it is 2 when the first line's start is planar and 3 when it is spatial |
| Lines.LineCollection.IsTwoD | src/geometry/line.rs:38-41 | panics exactly on an empty collection; otherwise true exactly when the dimensionality is 2 |
| Lines.LineCollection.AddLine | src/geometry/line.rs:58-65 | the result and the new lines are those of `AddLineTo` on the old lines |
| Lines.AddLineIntended | src/geometry/line.rs:58-65 | corrected `add_line`: the first line is accepted, then only lines of the first one's dimensionality |
| Lines.AddLinesIntendedKeepsFirstDimension | src/geometry/line.rs:58-65 | with the corrected `add_line`, adding a sequence of lines to a non-empty collection keeps exactly those of its dimensionality, in order |
| Lines.AddLinesIntendedFromEmpty | src/geometry/line.rs:58-65 | starting empty, the corrected collection ends up holding exactly the lines of the first one's dimensionality, in order |
| Mesh.Node.Dimensionality | src/mesh/nodes.rs:19-27 | a node has its north face's dimensionality |
| Mesh.Node.IsTwoD | src/mesh/nodes.rs:20-22 | a node is planar exactly when the start of its north face is |
| Mesh.NewNode | src/mesh/nodes.rs:13-17 | the node has the given id and takes its faces in the order north, south, east, west |
| Mesh.AddNodeTo | src/mesh/nodes.rs:54-58 | panics exactly on an empty collection, leaving it unchanged; otherwise appends the node exactly when its dimensionality matches the first node's; a collection of one dimensionality stays so |
| Mesh.AddNodeIntended | src/mesh/nodes.rs:54-58 | corrected `add_node`: the first node is stored, then only nodes of its dimensionality |
| Mesh.Nodes.NewTwoD | src/main.rs:47 | the empty collection that `main` creates |
| Mesh.Nodes.IsEmpty | src/mesh/nodes.rs:50-52 | true exactly when no node is stored |
| Mesh.Nodes.Dimensionality | src/mesh/nodes.rs:41-46 | panics exactly on an empty collection; otherwise it is 2 when the first node's north face starts at a planar point and 3 when it starts at a spatial one |
| Mesh.Nodes.IsTwoD | src/mesh/nodes.rs:34-39 | panics exactly on an empty collection; otherwise true exactly when the dimensionality is 2 |
| Mesh.Nodes.AddNode | src/mesh/nodes.rs:54-58 | the result and the new nodes are those of `AddNodeTo` on the old nodes |
| Mesh.VisitVertex | src/mesh/nodes.rs:64-86 | with `nx == 0` the iteration panics with division by zero; any panic is a division by zero or a missing northeast vertex, and a division by zero happens exactly when `nx == 0`; an anchored node has the current node id and is planar |
| Mesh.NeighbourFound | src/mesh/nodes.rs:65-66 | a neighbour query from a stored vertex succeeds exactly when the neighbouring id is stored, and returns a vertex with that id |
| Mesh.NortheastId | src/mesh/nodes.rs:71 | when East and North exist, the North neighbour of the East neighbour is the id `id + nx + 1` |
| Mesh.VisitSkips | src/mesh/nodes.rs:65-67 | a vertex is skipped exactly when its East or its North neighbour is missing |
| Mesh.VisitAborts | src/mesh/nodes.rs:69-71 | with East and North present, the iteration panics exactly when the id `id + nx + 1` is absent |
| Mesh.VisitAnchors | src/mesh/nodes.rs:71-84 | an anchored node is closed: the faces join at `v` and at the vertices with ids `id + 1`, `id + nx` and `id + nx + 1`, all stored |
| Mesh.Step | src/mesh/nodes.rs:67-85 | one iteration adds at most one node, the anchored one, and adds nothing when it panics |
| Mesh.Run | src/mesh/nodes.rs:64-87 | the loop only appends, and every node it appends is the node of an anchored vertex; its error path is stated by `AbortPanics` and `RunStopsAtAbort` |
| Mesh.Populated | src/mesh/nodes.rs:62-88 | `populate` only appends, and every node it appends has id 0 and is planar |
| Mesh.Nodes.Populate | src/mesh/nodes.rs:62-88 | the loop's result and new nodes are those of `Populated` on the old nodes |
| Mesh.Cells | src/mesh/nodes.rs:67 | the nodes of the anchored visits, each from one of the visits |
| Mesh.RunFromEmpty | src/mesh/nodes.rs:41-46 | from an empty collection, when no iteration aborts, the loop stores nothing and panics exactly when some vertex anchors a cell |
| Mesh.RunAppendsCells | src/mesh/nodes.rs:62-88 | from a non-empty planar collection, the loop succeeds and appends exactly the anchored cells, in order |
| Mesh.AbortPanics | src/mesh/nodes.rs:64-87 | when some visit panics, the loop panics, whatever nodes it starts from |
| Mesh.RunAppend | src/mesh/nodes.rs:64-87 | the loop over two runs of vertices is the loop over the first followed, unless that panics, by the loop over the second |
| Mesh.RunStopsAtAbort | src/mesh/nodes.rs:64-87 | from a non-empty planar collection, the loop stops at the first panicking visit with that visit's fault, having appended exactly the cells anchored before it |
| Mesh.RunFromStep | src/mesh/nodes.rs:64-87 | the loop from position `k` is the iteration at `k` followed, unless it panics, by the loop from `k + 1` |
| Mesh.RunFromAbortPanics | src/mesh/nodes.rs:64-87 | the loop from position `k` panics when the iteration of some stored vertex at or after `k` panics |
| Mesh.PopulateAbortPanics | src/mesh/nodes.rs:62-88 | `populate` panics when the iteration of some stored vertex panics: `nx == 0`, or a missing North neighbour of the East neighbour (line 71) |
| Mesh.RunFromStopsAtAbort | src/mesh/nodes.rs:64-87 | from a non-empty planar collection, the loop from `k` ends with the fault of the first panicking iteration from `k` on |
| Mesh.PopulateStopsAtAbort | src/mesh/nodes.rs:62-88 | from a non-empty planar collection, `populate` ends with the fault of the first stored vertex whose iteration panics |
| Mesh.RunIntended | src/mesh/nodes.rs:63 | the corrected loop only appends, and its node-id counter never decreases |
| Mesh.RunIntendedNumbers | src/mesh/nodes.rs:63 | the corrected loop succeeds; after the existing nodes it stores exactly the anchored cells, in order, each renumbered with its position, so the nodes are numbered 0, 1, 2, … |
| Mesh.PopulatedIntended | src/mesh/nodes.rs:62-88 | corrected `populate` only appends |
| Mesh.PositionalLookup | src/geometry/vertices.rs:192-195 | in a container whose ids are the positions, the lookup of `q` is position `q` |
| Mesh.UniformRowsAt | src/geometry/vertices.rs:90-97 | position `p` of the first `j` filled rows holds the vertex at column `p % nx`, row `p / nx` |
| Mesh.UniformAt | src/geometry/vertices.rs:90-97 | position `p` of the uniform fill holds the vertex at column `p % nx`, row `p / nx`, with id `p` |
| Mesh.UniformEastId | src/geometry/vertices.rs:44-47 | in an `nx × ny` lattice, the East id exists exactly off the last column and stays in the same row |
| Mesh.UniformNorthId | src/geometry/vertices.rs:52-55 | in an `nx × ny` lattice, the North id exists exactly off the last row, one row up |
| Mesh.UniformEast | src/geometry/vertices.rs:39-65 | on the uniform fill, the East neighbour of column `i` is column `i + 1` in the same row, and there is none in the last column |
| Mesh.UniformNorth | src/geometry/vertices.rs:39-65 | on the uniform fill, the North neighbour of row `j` is row `j + 1` in the same column, and there is none in the last row |
| Mesh.UniformVisit | src/mesh/nodes.rs:64-86 | on the uniform fill, a vertex anchors the cell spanning its column and row and the next ones exactly when it is in neither the last column nor the last row, and is skipped otherwise |
| Mesh.CornerAnchors | src/mesh/nodes.rs:65-84 | a vertex whose three neighbour queries find the next position, the next row and the diagonal anchors the quadrilateral through them |
| Mesh.UniformCornerLinks | src/mesh/nodes.rs:65-71 | on the uniform fill, the three neighbour queries of a cell corner find those vertices |
| Mesh.UniformCellOf | src/mesh/nodes.rs:73-84 | on the uniform fill, the quadrilateral at a corner position is the cell with the corner's column and row |
| Mesh.CornerTotal | src/mesh/nodes.rs:67 | an `nx × ny` lattice has `(nx − 1)(ny − 1)` cell corners |
| Mesh.UniformCells | src/mesh/nodes.rs:64-87 | on the uniform fill, no iteration from position `k` on panics, and the cells anchored from `k` on are as many as the cell corners at positions `k` and beyond |
| Mesh.UniformCellCount | src/mesh/nodes.rs:64-87 | on the uniform fill, `(nx − 1)(ny − 1)` vertices anchor a cell and none panics |
| Mesh.UniformPopulateAsWritten | src/mesh/nodes.rs:62-88 | on the uniform fill, `populate` from an empty collection panics exactly when `nx ≥ 2` and `ny ≥ 2`, and stores nothing |
| Mesh.UniformPopulateAppends | src/mesh/nodes.rs:62-88 | on the uniform fill, `populate` from a non-empty planar collection succeeds and appends `(nx − 1)(ny − 1)` nodes |
| Mesh.UniformPopulateIntended | src/mesh/nodes.rs:62-88 | on the uniform fill, the corrected `populate` from empty succeeds with `(nx − 1)(ny − 1)` planar nodes numbered 0, 1, 2, … |

## Left out

- `Vertices::export_csv` and the `vertices()` accessor. The first is file I/O. The second only borrows the field, which the model reads directly.
- Other files are not part of this model:
  - `src/main.rs` drives the program;
  - `src/utils/plotting.rs` plots nodes;
  - `src/mesh/block.rs` declares block and boundary types and a builder whose constructor is `todo!()`;
  - `src/geometry/prelude.rs` re-exports names.
- Floating point: coordinates are `real`, and the model proves nothing about coordinate values beyond where they come from.
  - `populate_uniform` computes `i * (1 / (nx − 1))`. The model uses `i / (nx − 1)`, which ignores rounding.
  - With `nx == 1` the source divides by zero and gets an infinite step, so the coordinate is NaN. The model gives 0.0. The same holds for `ny` (src/geometry/vertices.rs:88, 167) and, in 3D, for `nz` (line 168).
  - With `nx == 0` the `usize` subtraction `nx − 1` underflows. The same holds for `ny` and `nz`. The model ignores this.
- `usize` arithmetic is unbounded in the model. Overflow of `j·nx + i` or of `nx·ny·nz` is not modelled.
- Lattice.Vertices.IdToIJ: requires `nx > 0`. With `nx == 0` and a stored id, the source panics on `% nx`. That panic is modelled only inside `VisitVertex`, as the division-by-zero fault.
- Lattice.Vertices.AdjacentVertex2D: requires `nx > 0`, for the same reason as `IdToIJ`.
- Lattice.Vertices.IdToIJK: requires `nx > 0` and `ny > 0`, for the same reason.
- Lattice.Vertices.AdjacentVertex3D: requires `nx > 0` and `ny > 0`, for the same reason.
- Lifetimes and references:
  - Lines and nodes hold copies of vertices, not borrowed references.
  - `get_vertex` and `get_adjacent_vertex` return a vertex value, not a reference.
  - Aliasing through these references is not modelled.
- Generic point types:
  - The generic point parameter and the `num_traits::Float` parameter of `line.rs` are replaced by one `Point` type.
  - `impl` blocks restricted to `Point2D` or `Point3D` become preconditions. For example, `Lines.NewTwoD` requires planar vertices.
- `Dimensions::as_tuple` is called in `vertices.rs` but not defined in the `points.rs` shown. `AsTuple` supplies it, as the call sites use it.
- `Nodes::new_2d` is called in `main.rs` but not defined in `nodes.rs`. `Mesh.Nodes.NewTwoD` supplies it as an empty collection.
- `Nodes::populate` returns `()`, while `main.rs` calls `.expect` on its result. The model returns `Outcome<()>`, and a panic is its only failure.
- The body of the populate loop is modelled by the function `VisitVertex`. The loop in `Nodes.Populate` then works over it.

## Findings

| source | as written | input that shows it | evidently intended | confidence | as-written member | corrected member |
|---|---|---|---|---|---|---|
| src/mesh/nodes.rs:41-46, 54-58 | `add_node` reads the collection's dimensionality from `nodes.first().unwrap()`, so the first node added to an empty collection panics | `Nodes::populate` on an empty collection over a uniform `2 × 2` lattice: the first anchored node panics | the first node fixes the collection's dimensionality | not executed | Mesh.UniformPopulateAsWritten | Mesh.UniformPopulateIntended |
| src/mesh/nodes.rs:63, 78-84 | `node_id` is bound once to 0 and never incremented, so every node gets id 0 | a `Nodes` collection that already holds one planar node, over a uniform `3 × 2` lattice: both new nodes have id 0. The source's API cannot build that start: `nodes.rs` defines no constructor for `Nodes`, its `nodes` field is private, and the first `add_node` on an empty collection panics (the row above). So in the program as written this defect is masked by the empty-collection panic, and it shows only from that start or once `add_node` is corrected | the nodes are numbered consecutively | not executed | Mesh.Populated | Mesh.RunIntendedNumbers |
| src/geometry/line.rs:43-46, 58-65 | `add_line` compares with `self.dimensions()`, which unwraps the first line, so adding to an empty `LineCollection` panics | `LineCollection::new()` followed by `add_line` of any line | the first line is accepted and fixes the dimensionality | not executed | Lines.AddLineTo | Lines.AddLinesIntendedFromEmpty |
