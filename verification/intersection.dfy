/** The plane/mesh slicer of scripts/intersection.js: walk an indexed triangle
    list, pick at most two edge crossings per triangle, and chain the emitted
    segments with `findLines`. The line/plane arithmetic itself
    (`plane.intersectLine`) is a parameter: `hit(p, q)` is the crossing of the
    edge from `p` to `q`, if any. */
module Intersection {
  import opened Geometry
  import opened Lines

  /** Where the cutting plane crosses the edge from the first point to the
      second, or `None` when it misses the edge. */
  type Hit = (Point, Point) -> Option<Point>

  /** World-space vertex positions and a flat index buffer, three indices
      per triangle. */
  datatype Mesh = Mesh(positions: seq<Point>, index: seq<nat>)

  predicate ValidMesh(m: Mesh) {
    |m.index| % 3 == 0 && forall i :: 0 <= i < |m.index| ==> m.index[i] < |m.positions|
  }

  datatype Triangle = Triangle(a: Point, b: Point, c: Point)

  /** The `t`-th triangle: index entries 3t, 3t+1 and 3t+2. */
  function TriangleAt(m: Mesh, t: nat): Triangle
    requires ValidMesh(m) && 3 * t + 2 < |m.index|
  {
    Triangle(m.positions[m.index[3 * t]], m.positions[m.index[3 * t + 1]], m.positions[m.index[3 * t + 2]])
  }

  /** The mesh's triangles in index-buffer order. */
  function Triangles(m: Mesh): (ts: seq<Triangle>)
    requires ValidMesh(m)
    ensures |ts| == |m.index| / 3
    ensures forall t :: 0 <= t < |ts| ==>
      ts[t] == Triangle(m.positions[m.index[3 * t]], m.positions[m.index[3 * t + 1]], m.positions[m.index[3 * t + 2]])
  {
    seq(|m.index| / 3, t requires 0 <= t < |m.index| / 3 => TriangleAt(m, t))
  }

  /** The per-triangle slot policy: AB fills the first slot; BC fills the
      second if the first is taken, otherwise the first; CA is tried only
      while the second slot is empty and always lands there. A segment is
      emitted whenever the second slot is filled, even if the first is not. */
  function SliceTriangle(hit: Hit, t: Triangle): (r: Option<Line>)
    ensures var ab, bc, ca := hit(t.a, t.b), hit(t.b, t.c), hit(t.c, t.a);
      && (ab.Some? && bc.Some? ==> r == Some(NewLine(ab, bc, DefaultTolerance)))
      && (ab.Some? && bc.None? ==> r == if ca.Some? then Some(NewLine(ab, ca, DefaultTolerance)) else None)
      && (ab.None? && bc.Some? ==> r == if ca.Some? then Some(NewLine(bc, ca, DefaultTolerance)) else None)
      && (ab.None? && bc.None? ==> r == if ca.Some? then Some(NewLine(None, ca, DefaultTolerance)) else None)
    ensures r.Some? <==> (hit(t.a, t.b).Some? && hit(t.b, t.c).Some?) || hit(t.c, t.a).Some?
    ensures r.Some? ==> Fresh(r.value) && r.value.end.Some? && r.value.tolerance == DefaultTolerance
  {
    var ab := hit(t.a, t.b);
    var bisectA: Vertex := ab;
    var bc := hit(t.b, t.c);
    var slots: (Vertex, Vertex) :=
      if bc.Some? then (if bisectA.Some? then (bisectA, bc) else (bc, None)) else (bisectA, None);
    var bisectB: Vertex := if slots.1.None? then hit(t.c, t.a) else slots.1;
    if bisectB.Some? then Some(NewLine(slots.0, bisectB, DefaultTolerance)) else None
  }

  /** The segments emitted for a run of triangles, in triangle order. */
  function Emitted(hit: Hit, ts: seq<Triangle>): seq<Line>
  {
    if |ts| == 0 then []
    else
      var last := SliceTriangle(hit, ts[|ts| - 1]);
      Emitted(hit, ts[..|ts| - 1]) + (if last.Some? then [last.value] else [])
  }

  /** The loop of `getIntersectionPoints`: read the index buffer three
      entries at a time and collect each triangle's segment. */
  method CollectSegments(m: Mesh, hit: Hit) returns (segments: seq<Line>)
    requires ValidMesh(m)
    ensures segments == Emitted(hit, Triangles(m))
    ensures |segments| <= |m.index| / 3
    ensures forall l :: l in segments ==> Fresh(l) && l.end.Some? && l.tolerance == DefaultTolerance
  {
    var ts := Triangles(m);
    segments := [];
    var idx := 0;
    while idx < |m.index|
      invariant 0 <= idx <= |m.index| && idx % 3 == 0
      invariant segments == Emitted(hit, ts[..idx / 3])
      invariant |segments| <= idx / 3
      invariant forall l :: l in segments ==> Fresh(l) && l.end.Some? && l.tolerance == DefaultTolerance
    {
      var t := Triangle(m.positions[m.index[idx]], m.positions[m.index[idx + 1]], m.positions[m.index[idx + 2]]);
      assert t == ts[idx / 3];
      assert ts[..idx / 3 + 1][..idx / 3] == ts[..idx / 3];
      var segment := SliceTriangle(hit, t);
      if segment.Some? {
        segments := segments + [segment.value];
      }
      idx := idx + 3;
    }
    assert ts[..idx / 3] == ts;
  }

  /** `getIntersectionPoints(mesh, plane)`: slice every triangle, then chain. */
  method GetIntersectionPoints(m: Mesh, hit: Hit) returns (r: Result<seq<Line>>)
    requires ValidMesh(m)
    ensures r == FindLines(Emitted(hit, Triangles(m)))
  {
    var segments := CollectSegments(m, hit);
    r := FindLines(segments);
  }
}
