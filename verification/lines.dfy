/** The segment chainer: the `Line` class of scripts/line.js. A `Line` is an
    immutable value here; every mutating method of the class becomes a function
    returning the updated line. */
module Lines {
  import opened Geometry

  /** Default per-axis matching tolerance of the `Line` constructor. */
  const DefaultTolerance: real := 0.001

  /** A polyline under construction. `start` and `end` are its free ends,
      `vertices` runs from `start` to `end`, `isClosed` records that the two
      free ends met, and `modified` that the last scan merged something. */
  datatype Line = Line(
    start: Vertex,
    end: Vertex,
    vertices: seq<Vertex>,
    tolerance: real,
    isClosed: bool,
    modified: bool)

  /** The JavaScript `#equals` on two present points: every axis differs by
      strictly less than the tolerance. */
  predicate Near(tol: real, p: Point, q: Point) {
    Abs(p.x - q.x) < tol && Abs(p.y - q.y) < tol && Abs(p.z - q.z) < tol
  }

  /** `#equals` on stored vertices: reading a coordinate of `null` faults. */
  function Equals(tol: real, u: Vertex, v: Vertex): (r: Result<bool>)
    ensures r.Err? <==> u.None? || v.None?
  {
    if u.None? || v.None? then Err(NullVertex) else Ok(Near(tol, u.value, v.value))
  }

  /** Both free ends are present. */
  predicate Complete(l: Line) {
    l.start.Some? && l.end.Some?
  }

  /** The vertex list starts at `start` and ends at `end`. */
  predicate Anchored(l: Line) {
    |l.vertices| >= 2 && l.vertices[0] == l.start && l.vertices[|l.vertices| - 1] == l.end
  }

  /** A line exactly as the constructor leaves it. */
  predicate Fresh(l: Line) {
    l.vertices == [l.start, l.end] && !l.isClosed && !l.modified
  }

  /** Some free end of `a` is within `a`'s tolerance of some end of `b`. */
  predicate Touches(a: Line, b: Line) {
    Complete(a) && Complete(b) &&
    var tol := a.tolerance;
    (Near(tol, a.start.value, b.start.value) || Near(tol, a.start.value, b.end.value) ||
     Near(tol, a.end.value, b.end.value) || Near(tol, a.end.value, b.start.value))
  }

  /** `new Line(start, end, tolerance)`. */
  function NewLine(start: Vertex, end: Vertex, tolerance: real): (l: Line)
    ensures Fresh(l) && Anchored(l)
    ensures l.start == start && l.end == end && l.tolerance == tolerance
  {
    Line(start, end, [start, end], tolerance, false, false)
  }

  /** `reset()`: clears `modified` and changes nothing else. */
  function Reset(l: Line): (r: Line)
    ensures !r.modified
    ensures r.start == l.start && r.end == l.end && r.vertices == l.vertices
    ensures r.tolerance == l.tolerance && r.isClosed == l.isClosed
  {
    l.(modified := false)
  }

  /** What `combine` hands back: `null` after absorbing the candidate (here
      with the grown line), or the candidate itself when nothing matched. */
  datatype Combined = Absorbed(grown: Line) | Rejected(candidate: Line)

  /** The tail of a successful `combine`: mark the line modified and closed
      once its free ends meet. */
  function Settle(l: Line): (r: Result<Combined>)
    ensures r.Err? <==> !Complete(l)
    ensures r.Ok? ==> r.value.Absorbed? && r.value.grown.modified
    ensures r.Ok? ==> r.value.grown.isClosed == (l.isClosed || Near(l.tolerance, l.start.value, l.end.value))
    ensures r.Ok? ==> r.value.grown == l.(modified := r.value.grown.modified, isClosed := r.value.grown.isClosed)
  {
    var closes :- Equals(l.tolerance, l.start, l.end);
    Ok(Absorbed(l.(modified := true, isClosed := l.isClosed || closes)))
  }

  /** `combine(line)`: try start~line.start, start~line.end, end~line.end and
      end~line.start in that order; on the first match extend the polyline by
      the candidate's other endpoint at the matching side. */
  function Combine(cur: Line, cand: Line): (r: Result<Combined>)
    // faults exactly when some endpoint is null; the first test reads both starts
    ensures r.Ok? <==> Complete(cur) && Complete(cand)
    ensures cur.start.None? || cand.start.None? ==> r.Err?
    // no match: the candidate comes back untouched
    ensures r.Ok? ==> (r.value.Rejected? <==> !Touches(cur, cand))
    ensures r.Ok? && r.value.Rejected? ==> r.value.candidate == cand
    // a match grows the polyline by exactly one vertex and keeps its tolerance
    ensures r.Ok? && r.value.Absorbed? ==>
      var g := r.value.grown;
      && |g.vertices| == |cur.vertices| + 1
      && g.modified
      && g.tolerance == cur.tolerance
      && Complete(g)
      && g.isClosed == (cur.isClosed || Near(cur.tolerance, g.start.value, g.end.value))
      && (Anchored(cur) ==> Anchored(g))
    // the four matches, in the order they are tried
    ensures r.Ok? && Near(cur.tolerance, cur.start.value, cand.start.value) ==>
      r.value.Absorbed? && r.value.grown.vertices == [cand.end] + cur.vertices &&
      r.value.grown.start == cand.end && r.value.grown.end == cur.end
    ensures r.Ok? && !Near(cur.tolerance, cur.start.value, cand.start.value)
                  && Near(cur.tolerance, cur.start.value, cand.end.value) ==>
      r.value.Absorbed? && r.value.grown.vertices == [cand.start] + cur.vertices &&
      r.value.grown.start == cand.start && r.value.grown.end == cur.end
    ensures r.Ok? && !Near(cur.tolerance, cur.start.value, cand.start.value)
                  && !Near(cur.tolerance, cur.start.value, cand.end.value)
                  && Near(cur.tolerance, cur.end.value, cand.end.value) ==>
      r.value.Absorbed? && r.value.grown.vertices == cur.vertices + [cand.start] &&
      r.value.grown.start == cur.start && r.value.grown.end == cand.start
    ensures r.Ok? && !Near(cur.tolerance, cur.start.value, cand.start.value)
                  && !Near(cur.tolerance, cur.start.value, cand.end.value)
                  && !Near(cur.tolerance, cur.end.value, cand.end.value)
                  && Near(cur.tolerance, cur.end.value, cand.start.value) ==>
      r.value.Absorbed? && r.value.grown.vertices == cur.vertices + [cand.end] &&
      r.value.grown.start == cur.start && r.value.grown.end == cand.end
  {
    var tol := cur.tolerance;
    var startStart :- Equals(tol, cur.start, cand.start);
    if startStart then
      Settle(cur.(start := cand.end, vertices := [cand.end] + cur.vertices))
    else
      var startEnd :- Equals(tol, cur.start, cand.end);
      if startEnd then
        Settle(cur.(start := cand.start, vertices := [cand.start] + cur.vertices))
      else
        var endEnd :- Equals(tol, cur.end, cand.end);
        if endEnd then
          Settle(cur.(end := cand.start, vertices := cur.vertices + [cand.start]))
        else
          // both vertices were read by the earlier tests, so this one cannot fault
          if Near(tol, cur.end.value, cand.start.value) then
            Settle(cur.(end := cand.end, vertices := cur.vertices + [cand.end]))
          else
            Ok(Rejected(cand))
  }

  /** How one pass of the `do … while` loop in `findLines.r` ends: the line
      closed on a merge (`passed` holds the candidates that failed to merge so
      far, `unscanned` those not yet tried), or the whole worklist was scanned
      (`checked` holds what did not merge). */
  datatype ScanEnd =
    | ClosedEarly(line: Line, passed: seq<Line>, unscanned: seq<Line>)
    | PassDone(line: Line, checked: seq<Line>)

  /** One pass of `findLines.r` over `rem`, with `checked` the candidates that
      already failed to merge in this pass. */
  function Scan(cur: Line, rem: seq<Line>, checked: seq<Line>): (r: Result<ScanEnd>)
    decreases |rem|
    // the remaining candidates are a sub-multiset of what the pass was given
    ensures r.Ok? && r.value.ClosedEarly? ==>
      var e := r.value;
      && multiset(e.passed + e.unscanned) <= multiset(checked + rem)
      && |e.passed| + |e.unscanned| < |checked| + |rem|
      && |e.line.vertices| + |e.passed| + |e.unscanned| == |cur.vertices| + |checked| + |rem|
      && e.line.isClosed && e.line.modified
    ensures r.Ok? && r.value.PassDone? ==>
      && multiset(r.value.checked) <= multiset(checked + rem)
      && |r.value.checked| <= |checked| + |rem|
      && |r.value.line.vertices| + |r.value.checked| == |cur.vertices| + |checked| + |rem|
      && (r.value.line.isClosed ==> r.value.line == cur)
      && (r.value.line.modified ==> cur.modified || |r.value.checked| < |checked| + |rem|)
    // a pass in which nothing merged rejected every candidate
    ensures r.Ok? && r.value.PassDone? && |r.value.checked| == |checked| + |rem| ==>
      && r.value.line == cur
      && r.value.checked == checked + rem
      && forall l :: l in rem ==> !Touches(cur, l)
    ensures r.Ok? ==> r.value.line.tolerance == cur.tolerance
  {
    if |rem| == 0 then
      Ok(PassDone(cur, checked))
    else
      var c :- Combine(cur, rem[0]);
      assert rem == [rem[0]] + rem[1..];
      assert checked + rem == (checked + [rem[0]]) + rem[1..];
      match c
      case Rejected(line) =>
        Scan(cur, rem[1..], checked + [line])
      case Absorbed(grown) =>
        if grown.isClosed then
          Ok(ClosedEarly(grown, checked, rem[1..]))
        else
          Scan(grown, rem[1..], checked)
  }

  /** The recursive `r(cur, rem, acc)` inside `findLines`. The measure is
      lexicographic: pending lines (the worklist plus a current line), then
      whether there is no current line, then whether the current line carries
      a `modified` flag that the next pass will clear. */
  function Chain(cur: Option<Line>, rem: seq<Line>, acc: seq<Line>): (r: Result<seq<Line>>)
    decreases |rem| + (if cur.Some? then 1 else 0),
              (if cur.None? then 1 else 0),
              (if cur.Some? && cur.value.modified then 1 else 0)
    ensures r.Ok? ==> acc <= r.value
  {
    if |rem| == 0 then
      Ok(if cur.Some? then acc + [cur.value] else acc)
    else if cur.None? then
      Chain(Some(rem[0]), rem[1..], acc)
    else
      var pass :- Scan(cur.value, rem, []);
      match pass
      case ClosedEarly(line, passed, unscanned) =>
        Chain(None, passed + unscanned, acc + [line])
      case PassDone(line, checked) =>
        if line.modified then
          Chain(Some(Reset(line)), checked, acc)
        else
          Chain(None, checked, acc + [line])
  }

  /** `Line.findLines(lines)`: chain the input lines into polylines. */
  function FindLines(lines: seq<Line>): (r: Result<seq<Line>>)
    ensures |lines| == 0 ==> r == Ok([])
  {
    Chain(None, lines, [])
  }
}
