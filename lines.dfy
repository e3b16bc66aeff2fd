/** Straight edges between two vertices and a collection of them that
    only accepts edges of its own dimensionality (src/geometry/line.rs).
    A line holds copies of its end vertices rather than borrowed ones. */
module Lines {
  import opened Outcomes
  import opened Points
  import opened IndexedVertex

  datatype Line = Line(start: Vertex, end: Vertex) {
    /** A line takes its dimensionality from its start vertex. */
    function Dimensionality(): (d: nat)
      ensures d == 2 <==> start.coords.Point2D?
      ensures d == 3 <==> start.coords.Point3D?
    {
      start.Dimensionality()
    }

    /** A line is planar exactly when its start vertex is. */
    predicate IsTwoD(): (b: bool)
      ensures b <==> start.coords.Point2D?
    {
      Dimensionality() == 2
    }
  }

  /** A line between two planar vertices. */
  function NewTwoD(v1: Vertex, v2: Vertex): (l: Line)
    requires v1.IsTwoD() && v2.IsTwoD()
    ensures l.start == v1 && l.end == v2
    ensures l.IsTwoD() && l.Dimensionality() == 2
  {
    Line(v1, v2)
  }

  /** A line between two spatial vertices. */
  function NewThreeD(v1: Vertex, v2: Vertex): (l: Line)
    requires !v1.IsTwoD() && !v2.IsTwoD()
    ensures l.start == v1 && l.end == v2
    ensures !l.IsTwoD() && l.Dimensionality() == 3
  {
    Line(v1, v2)
  }

  const DifferingDimensions: string :=
    "can't add line of differing dimensions to what was already stored in the line collection"

  /** Every line has the dimensionality of the first. */
  predicate SameDimension(ls: seq<Line>)
  {
    forall p | 0 <= p < |ls| :: ls[p].Dimensionality() == ls[0].Dimensionality()
  }

  /** `add_line` as written: the collection's dimensionality is read from
      its first line, so an empty collection panics; a line of another
      dimensionality is refused and the collection left as it was. */
  function AddLineTo(ls: seq<Line>, l: Line): (r: (Outcome<Result<(), string>>, seq<Line>))
    ensures r.0.Panic? <==> ls == []
    ensures r.0.Panic? ==> r.0.fault == EmptyCollection
    ensures r.0 == Value(Ok(())) <==> ls != [] && l.Dimensionality() == ls[0].Dimensionality()
    ensures r.0 == Value(Ok(())) ==> r.1 == ls + [l]
    ensures r.0 != Value(Ok(())) ==> r.1 == ls
    ensures SameDimension(ls) ==> SameDimension(r.1)
  {
    if ls == [] then (Panic(EmptyCollection), ls)
    else if l.Dimensionality() == ls[0].Dimensionality() then (Value(Ok(())), ls + [l])
    else (Value(Err(DifferingDimensions)), ls)
  }

  /** `add_line` as evidently intended: the first line of an empty
      collection sets its dimensionality. */
  function AddLineIntended(ls: seq<Line>, l: Line): (r: (Result<(), string>, seq<Line>))
    ensures r.0.Ok? <==> ls == [] || l.Dimensionality() == ls[0].Dimensionality()
    ensures r.0.Ok? ==> r.1 == ls + [l]
    ensures r.0.Err? ==> r.1 == ls
    ensures SameDimension(ls) ==> SameDimension(r.1)
  {
    if ls == [] || l.Dimensionality() == ls[0].Dimensionality() then (Ok(()), ls + [l])
    else (Err(DifferingDimensions), ls)
  }

  /** Adding `adds` one after another, ignoring each refusal. */
  function AddLinesIntended(ls: seq<Line>, adds: seq<Line>): seq<Line>
    decreases |adds|
  {
    if adds == [] then ls
    else AddLinesIntended(AddLineIntended(ls, adds[0]).1, adds[1..])
  }

  /** The lines of `adds` whose dimensionality is `d`, in order. */
  function OfDimension(adds: seq<Line>, d: nat): (r: seq<Line>)
    ensures |r| <= |adds|
    ensures forall p | 0 <= p < |r| :: r[p] in adds && r[p].Dimensionality() == d
  {
    if adds == [] then []
    else if adds[0].Dimensionality() == d then [adds[0]] + OfDimension(adds[1..], d)
    else OfDimension(adds[1..], d)
  }

  /** With the intended `add_line`, a collection built up from lines
      keeps exactly those of the first line's dimensionality, in order. */
  lemma {:induction false} AddLinesIntendedKeepsFirstDimension(ls: seq<Line>, adds: seq<Line>)
    requires ls != [] && SameDimension(ls)
    ensures AddLinesIntended(ls, adds) == ls + OfDimension(adds, ls[0].Dimensionality())
    decreases |adds|
  {
    if adds != [] {
      var next := AddLineIntended(ls, adds[0]).1;
      AddLinesIntendedKeepsFirstDimension(next, adds[1..]);
      assert next[0] == ls[0];
    }
  }

  /** Starting from an empty collection, the intended `add_line` keeps
      the lines of the first one's dimensionality. */
  lemma AddLinesIntendedFromEmpty(adds: seq<Line>)
    requires adds != []
    ensures AddLinesIntended([], adds) == OfDimension(adds, adds[0].Dimensionality())
  {
    assert AddLineIntended([], adds[0]).1 == [adds[0]];
    AddLinesIntendedKeepsFirstDimension([adds[0]], adds[1..]);
  }

  class LineCollection {
    var lines: seq<Line>

    constructor ()
      ensures lines == []
    {
      lines := [];
    }

    function IsEmpty(): (b: bool)
      reads this
      ensures b <==> |lines| == 0
    {
      lines == []
    }

    /** The first line's dimensionality; panics on an empty collection. */
    function Dimensionality(): (r: Outcome<nat>)
      reads this
      ensures r.Panic? <==> IsEmpty()
      ensures r.Panic? ==> r.fault == EmptyCollection
      ensures r.Value? ==> (r.value == 2 <==> lines[0].start.coords.Point2D?)
      ensures r.Value? ==> (r.value == 3 <==> lines[0].start.coords.Point3D?)
    {
      if lines == [] then Panic(EmptyCollection) else Value(lines[0].Dimensionality())
    }

    function IsTwoD(): (r: Outcome<bool>)
      reads this
      ensures r.Panic? <==> IsEmpty()
      ensures r.Value? ==> (r.value <==> Dimensionality() == Value(2))
    {
      if lines == [] then Panic(EmptyCollection) else Value(lines[0].IsTwoD())
    }

    /** `add_line`: appends `l` when its dimensionality is the
        collection's, refuses it otherwise, and panics when empty. */
    method AddLine(l: Line) returns (r: Outcome<Result<(), string>>)
      modifies this
      ensures (r, lines) == AddLineTo(old(lines), l)
    {
      var d := Dimensionality();
      if d.Panic? {
        return Panic(d.fault);
      }
      if l.Dimensionality() == d.value {
        lines := lines + [l];
        r := Value(Ok(()));
      } else {
        r := Value(Err(DifferingDimensions));
      }
    }
  }
}
