/** Properties of the segment chainer in module `Lines`: the tolerance
    relation, and what `findLines` keeps invariant over a whole run. */
module ChainProofs {
  import opened Geometry
  import opened Lines
  import opened SeqFacts

  /** Number of edges of a polyline list: each line contributes one edge
      fewer than it has vertices. */
  function Edges(ls: seq<Line>): int
  {
    if |ls| == 0 then 0 else Edges(ls[..|ls| - 1]) + |ls[|ls| - 1].vertices| - 1
  }

  lemma EdgesAppend(ls: seq<Line>, l: Line)
    ensures Edges(ls + [l]) == Edges(ls) + |l.vertices| - 1
  {
    assert (ls + [l])[..|ls|] == ls;
  }

  /** Every line is a bare two-vertex segment, as the constructor makes them. */
  predicate Segments(ls: seq<Line>) {
    forall l :: l in ls ==> |l.vertices| == 2
  }

  // ---------------------------------------------------------------------
  // The tolerance relation `#equals`

  /** Matching is symmetric. */
  lemma NearSymmetric(tol: real, p: Point, q: Point)
    ensures Near(tol, p, q) <==> Near(tol, q, p)
  {
  }

  /** A point matches itself exactly when the tolerance is positive. */
  lemma NearReflexiveIff(tol: real, p: Point)
    ensures Near(tol, p, p) <==> tol > 0.0
  {
  }

  /** The comparison is strict: a gap of exactly the tolerance on one axis
      does not match. */
  lemma NearStrictBoundary(tol: real, p: Point)
    requires tol > 0.0
    ensures !Near(tol, p, Point(p.x + tol, p.y, p.z))
    ensures Near(tol, p, Point(p.x + tol / 2.0, p.y, p.z))
  {
  }

  /** Matching is not transitive: two half-tolerance steps chain, but their
      ends are a full tolerance apart. */
  lemma NearNotTransitive(tol: real)
    requires tol > 0.0
    ensures var p, q, s := Point(0.0, 0.0, 0.0), Point(tol / 2.0, 0.0, 0.0), Point(tol, 0.0, 0.0);
            Near(tol, p, q) && Near(tol, q, s) && !Near(tol, p, s)
  {
  }

  // ---------------------------------------------------------------------
  // Invariants of findLines

  /** The candidates a pass hands back to `r`. */
  function Leftover(e: ScanEnd): seq<Line> {
    match e
    case ClosedEarly(_, passed, unscanned) => passed + unscanned
    case PassDone(_, checked) => checked
  }

  lemma InRest(l: Line, rest: seq<Line>, rem: seq<Line>)
    requires l in rest && multiset(rest) <= multiset(rem)
    ensures l in rem
  {
    assert l in multiset(rest);
  }

  /** Every segment is consumed exactly once: the edges of the finished
      polylines are the edges already emitted, those of the current line,
      and one per pending segment. The number of lines only grows by the
      current line and the pending segments. */
  lemma {:induction false} ChainCount(cur: Option<Line>, rem: seq<Line>, acc: seq<Line>)
    requires Segments(rem)
    ensures var r := Chain(cur, rem, acc);
      r.Ok? ==>
        && Edges(r.value) == Edges(acc) + (if cur.Some? then |cur.value.vertices| - 1 else 0) + |rem|
        && |r.value| <= |acc| + |rem| + (if cur.Some? then 1 else 0)
        && (cur.Some? || |rem| > 0 ==> |r.value| > |acc|)
    decreases |rem| + (if cur.Some? then 1 else 0),
              (if cur.None? then 1 else 0),
              (if cur.Some? && cur.value.modified then 1 else 0)
  {
    if |rem| == 0 {
      if cur.Some? {
        EdgesAppend(acc, cur.value);
      }
    } else if cur.None? {
      ChainCount(Some(rem[0]), rem[1..], acc);
    } else {
      var pass := Scan(cur.value, rem, []);
      assert [] + rem == rem;
      if pass.Ok? {
        match pass.value
        case ClosedEarly(line, passed, unscanned) =>
          var rest := passed + unscanned;
          forall l | l in rest ensures |l.vertices| == 2 {
            InRest(l, rest, rem);
          }
          ChainCount(None, rest, acc + [line]);
          EdgesAppend(acc, line);
        case PassDone(line, checked) =>
          forall l | l in checked ensures |l.vertices| == 2 {
            InRest(l, checked, rem);
          }
          if line.modified {
            ChainCount(Some(Reset(line)), checked, acc);
          } else {
            ChainCount(None, checked, acc + [line]);
            EdgesAppend(acc, line);
          }
      }
    }
  }

  /** No segment is lost or duplicated: over all polylines `findLines`
      returns, vertices minus one sum to the number of input segments, and
      there are between one and that many polylines. */
  lemma FindLinesCount(lines: seq<Line>)
    requires Segments(lines)
    ensures var r := FindLines(lines);
      r.Ok? ==> Edges(r.value) == |lines| && |r.value| <= |lines| && (|lines| > 0 ==> |r.value| > 0)
  {
    ChainCount(None, lines, []);
  }

  /** A pass over complete lines does not fault and leaves a complete line. */
  lemma {:induction false} ScanNoFault(cur: Line, rem: seq<Line>, checked: seq<Line>)
    requires Complete(cur)
    requires forall l :: l in rem ==> Complete(l)
    ensures var r := Scan(cur, rem, checked); r.Ok? && Complete(r.value.line)
    decreases |rem|
  {
    if |rem| > 0 {
      assert rem[0] in rem;
      forall l | l in rem[1..] ensures Complete(l) {
        assert l in rem;
      }
      match Combine(cur, rem[0]).value
      case Rejected(line) =>
        ScanNoFault(cur, rem[1..], checked + [line]);
      case Absorbed(grown) =>
        if !grown.isClosed {
          ScanNoFault(grown, rem[1..], checked);
        }
    }
  }

  /** A pass keeps the vertex list running from `start` to `end`. */
  lemma {:induction false} ScanAnchored(cur: Line, rem: seq<Line>, checked: seq<Line>)
    requires Anchored(cur)
    ensures var r := Scan(cur, rem, checked); r.Ok? ==> Anchored(r.value.line)
    decreases |rem|
  {
    if |rem| > 0 {
      var c := Combine(cur, rem[0]);
      if c.Ok? {
        match c.value
        case Rejected(line) =>
          ScanAnchored(cur, rem[1..], checked + [line]);
        case Absorbed(grown) =>
          if !grown.isClosed {
            ScanAnchored(grown, rem[1..], checked);
          }
      }
    }
  }

  /** `findLines` faults only on a null endpoint: when every pending line has
      both ends, the run succeeds. */
  lemma {:induction false} ChainNoFault(cur: Option<Line>, rem: seq<Line>, acc: seq<Line>)
    requires cur.Some? ==> Complete(cur.value)
    requires forall l :: l in rem ==> Complete(l)
    ensures Chain(cur, rem, acc).Ok?
    decreases |rem| + (if cur.Some? then 1 else 0),
              (if cur.None? then 1 else 0),
              (if cur.Some? && cur.value.modified then 1 else 0)
  {
    if |rem| == 0 {
    } else if cur.None? {
      ChainNoFault(Some(rem[0]), rem[1..], acc);
    } else {
      var pass := Scan(cur.value, rem, []);
      assert [] + rem == rem;
      ScanNoFault(cur.value, rem, []);
      match pass.value
      case ClosedEarly(line, passed, unscanned) =>
        var rest := passed + unscanned;
        forall l | l in rest ensures Complete(l) {
          InRest(l, rest, rem);
        }
        ChainNoFault(None, rest, acc + [line]);
      case PassDone(line, checked) =>
        forall l | l in checked ensures Complete(l) {
          InRest(l, checked, rem);
        }
        if line.modified {
          ChainNoFault(Some(Reset(line)), checked, acc);
        } else {
          ChainNoFault(None, checked, acc + [line]);
        }
    }
  }

  lemma FindLinesNoFault(lines: seq<Line>)
    requires forall l :: l in lines ==> Complete(l)
    ensures FindLines(lines).Ok?
  {
    ChainNoFault(None, lines, []);
  }

  /** Every polyline produced keeps its vertex list running from `start` to
      `end`, provided the inputs do. */
  lemma {:induction false} ChainAnchored(cur: Option<Line>, rem: seq<Line>, acc: seq<Line>)
    requires cur.Some? ==> Anchored(cur.value)
    requires forall l :: l in rem ==> Anchored(l)
    requires forall l :: l in acc ==> Anchored(l)
    ensures var r := Chain(cur, rem, acc); r.Ok? ==> forall l :: l in r.value ==> Anchored(l)
    decreases |rem| + (if cur.Some? then 1 else 0),
              (if cur.None? then 1 else 0),
              (if cur.Some? && cur.value.modified then 1 else 0)
  {
    if |rem| == 0 {
    } else if cur.None? {
      ChainAnchored(Some(rem[0]), rem[1..], acc);
    } else {
      var pass := Scan(cur.value, rem, []);
      assert [] + rem == rem;
      ScanAnchored(cur.value, rem, []);
      if pass.Ok? {
        var line := pass.value.line;
        var leftover := Leftover(pass.value);
        forall l | l in leftover ensures Anchored(l) {
          InRest(l, leftover, rem);
        }
        if pass.value.ClosedEarly? {
          ChainAnchored(None, leftover, acc + [line]);
        } else if line.modified {
          ChainAnchored(Some(Reset(line)), leftover, acc);
        } else {
          ChainAnchored(None, leftover, acc + [line]);
        }
      }
    }
  }

  lemma FindLinesAnchored(lines: seq<Line>)
    requires forall l :: l in lines ==> Fresh(l)
    ensures var r := FindLines(lines); r.Ok? ==> forall l :: l in r.value ==> Anchored(l)
  {
    forall l | l in lines ensures Anchored(l) {
      assert Fresh(l);
    }
    ChainAnchored(None, lines, []);
  }

  /** Every vertex of `l`, and both its free ends, lie in `pool`. */
  predicate Within(l: Line, pool: set<Vertex>) {
    l.start in pool && l.end in pool && forall v :: v in l.vertices ==> v in pool
  }

  /** All vertices of all lines in `ls`. */
  function Pool(ls: seq<Line>): set<Vertex> {
    set l, v | l in ls && v in l.vertices :: v
  }

  /** A merge only moves vertices of the two lines it joins. */
  lemma CombineWithin(cur: Line, cand: Line, pool: set<Vertex>)
    requires Within(cur, pool) && Within(cand, pool)
    ensures var r := Combine(cur, cand); r.Ok? && r.value.Absorbed? ==> Within(r.value.grown, pool)
  {
  }

  lemma {:induction false} ScanWithin(cur: Line, rem: seq<Line>, checked: seq<Line>, pool: set<Vertex>)
    requires Within(cur, pool)
    requires forall l :: l in rem ==> Within(l, pool)
    ensures var r := Scan(cur, rem, checked); r.Ok? ==> Within(r.value.line, pool)
    decreases |rem|
  {
    if |rem| > 0 {
      var c := Combine(cur, rem[0]);
      assert rem[0] in rem;
      forall l | l in rem[1..] ensures Within(l, pool) {
        assert l in rem;
      }
      if c.Ok? {
        match c.value
        case Rejected(line) =>
          ScanWithin(cur, rem[1..], checked + [line], pool);
        case Absorbed(grown) =>
          CombineWithin(cur, rem[0], pool);
          if !grown.isClosed {
            ScanWithin(grown, rem[1..], checked, pool);
          }
      }
    }
  }

  lemma {:induction false} ChainWithin(cur: Option<Line>, rem: seq<Line>, acc: seq<Line>, pool: set<Vertex>)
    requires cur.Some? ==> Within(cur.value, pool)
    requires forall l :: l in rem ==> Within(l, pool)
    requires forall l :: l in acc ==> Within(l, pool)
    ensures var r := Chain(cur, rem, acc); r.Ok? ==> forall l :: l in r.value ==> Within(l, pool)
    decreases |rem| + (if cur.Some? then 1 else 0),
              (if cur.None? then 1 else 0),
              (if cur.Some? && cur.value.modified then 1 else 0)
  {
    if |rem| == 0 {
    } else if cur.None? {
      assert rem[0] in rem;
      ChainWithin(Some(rem[0]), rem[1..], acc, pool);
    } else {
      var pass := Scan(cur.value, rem, []);
      assert [] + rem == rem;
      ScanWithin(cur.value, rem, [], pool);
      if pass.Ok? {
        match pass.value
        case ClosedEarly(line, passed, unscanned) =>
          var rest := passed + unscanned;
          forall l | l in rest ensures Within(l, pool) {
            InRest(l, rest, rem);
          }
          ChainWithin(None, rest, acc + [line], pool);
        case PassDone(line, checked) =>
          forall l | l in checked ensures Within(l, pool) {
            InRest(l, checked, rem);
          }
          if line.modified {
            ChainWithin(Some(Reset(line)), checked, acc, pool);
          } else {
            ChainWithin(None, checked, acc + [line], pool);
          }
      }
    }
  }

  /** `findLines` invents no points: every vertex of every polyline it
      returns is a vertex of some input line. */
  lemma FindLinesInventsNoVertex(lines: seq<Line>)
    requires forall l :: l in lines ==> Anchored(l)
    ensures var r := FindLines(lines);
      r.Ok? ==> forall l, v :: l in r.value && v in l.vertices ==> v in Pool(lines)
  {
    var pool := Pool(lines);
    forall l | l in lines ensures Within(l, pool) {
      assert l.vertices[0] in l.vertices;
      assert l.vertices[|l.vertices| - 1] in l.vertices;
    }
    ChainWithin(None, lines, [], pool);
  }

  // ---------------------------------------------------------------------
  // Order and policy within one pass

  /** The rejected candidates stay in the order they were tried. On an early
      close the untried tail follows them unchanged, and every rejected
      candidate was tried before the candidate just in front of that tail
      (`ScanClosedBy` shows that this candidate is the one that closed the
      line). */
  predicate KeepsOrder(rem: seq<Line>, checked: seq<Line>, e: ScanEnd) {
    match e
    case ClosedEarly(_, passed, unscanned) => ClosedInOrder(rem, checked, passed, unscanned)
    case PassDone(_, done) => checked <= done
  }

  lemma {:induction false} KeepsOrderAfterReject(rem: seq<Line>, checked: seq<Line>, e: ScanEnd)
    requires |rem| > 0 && KeepsOrder(rem[1..], checked + [rem[0]], e)
    ensures KeepsOrder(rem, checked, e)
  {
    match e
    case ClosedEarly(_, passed, unscanned) =>
      ClosedInOrderAfterReject(rem, checked, passed, unscanned);
    case PassDone(_, done) =>
      PrefixOfExtension(checked, rem[0], done);
  }

  lemma {:induction false} KeepsOrderAfterGrow(rem: seq<Line>, checked: seq<Line>, e: ScanEnd)
    requires |rem| > 0 && KeepsOrder(rem[1..], checked, e)
    ensures KeepsOrder(rem, checked, e)
  {
    match e
    case ClosedEarly(_, passed, unscanned) =>
      ClosedInOrderAfterGrow(rem, checked, passed, unscanned);
    case PassDone(_, _) =>
  }

  lemma {:induction false} ScanKeepsOrder(cur: Line, rem: seq<Line>, checked: seq<Line>)
    ensures var r := Scan(cur, rem, checked); r.Ok? ==> KeepsOrder(rem, checked, r.value)
    decreases |rem|
  {
    if |rem| > 0 {
      var c := Combine(cur, rem[0]);
      if c.Ok? {
        match c.value
        case Rejected(line) =>
          ScanKeepsOrder(cur, rem[1..], checked + [line]);
          var r := Scan(cur, rem[1..], checked + [line]);
          if r.Ok? {
            KeepsOrderAfterReject(rem, checked, r.value);
          }
        case Absorbed(grown) =>
          if grown.isClosed {
            assert rem[..0] == [];
          } else {
            ScanKeepsOrder(grown, rem[1..], checked);
            var r := Scan(grown, rem[1..], checked);
            if r.Ok? {
              KeepsOrderAfterGrow(rem, checked, r.value);
            }
          }
      }
    }
  }

  /** Candidates are tried from left to right and the first one that touches
      the current line is absorbed: a candidate that does not touch it is
      set aside in `checked`, one that does is merged and never set aside. */
  lemma {:induction false} ScanFirstCandidate(cur: Line, rem: seq<Line>, checked: seq<Line>)
    requires |rem| > 0 && Complete(cur) && Complete(rem[0])
    ensures !Touches(cur, rem[0]) ==> Scan(cur, rem, checked) == Scan(cur, rem[1..], checked + [rem[0]])
    ensures Touches(cur, rem[0]) ==>
      && Combine(cur, rem[0]).Ok? && Combine(cur, rem[0]).value.Absorbed?
      && var g := Combine(cur, rem[0]).value.grown;
         Scan(cur, rem, checked) == if g.isClosed then Ok(ClosedEarly(g, checked, rem[1..])) else Scan(g, rem[1..], checked)
  {
  }

  /** Once a pass has merged something the line stays modified: `combine`
      sets `modified` on every merge and nothing in the pass clears it. */
  lemma {:induction false} ScanStaysModified(cur: Line, rem: seq<Line>, checked: seq<Line>)
    requires cur.modified
    ensures var r := Scan(cur, rem, checked); r.Ok? ==> r.value.line.modified
    decreases |rem|
  {
    if |rem| > 0 {
      var c := Combine(cur, rem[0]);
      if c.Ok? {
        match c.value
        case Rejected(line) =>
          ScanStaysModified(cur, rem[1..], checked + [line]);
        case Absorbed(grown) =>
          if !grown.isClosed {
            ScanStaysModified(grown, rem[1..], checked);
          }
      }
    }
  }

  /** A pass started on an unmodified line that ends unmodified merged
      nothing: the line comes back unchanged, every candidate is set aside in
      order, and none of them touches the line. */
  lemma {:induction false} ScanUnmodifiedTouchesNothing(cur: Line, rem: seq<Line>, checked: seq<Line>)
    requires !cur.modified
    ensures var r := Scan(cur, rem, checked);
      r.Ok? && r.value.PassDone? && !r.value.line.modified ==>
        && r.value.line == cur
        && r.value.checked == checked + rem
        && forall l :: l in rem ==> !Touches(cur, l)
    decreases |rem|
  {
    if |rem| > 0 {
      var c := Combine(cur, rem[0]);
      if c.Ok? {
        match c.value
        case Rejected(line) =>
          ScanUnmodifiedTouchesNothing(cur, rem[1..], checked + [line]);
          var r := Scan(cur, rem, checked);
          if r.Ok? && r.value.PassDone? && !r.value.line.modified {
            assert checked + rem == (checked + [rem[0]]) + rem[1..];
            assert !Touches(cur, rem[0]);
            forall l | l in rem ensures !Touches(cur, l) {
              if l != rem[0] {
                assert l in rem[1..];
              }
            }
          }
        case Absorbed(grown) =>
          if !grown.isClosed {
            ScanStaysModified(grown, rem[1..], checked);
          }
      }
    }
  }

  /** The exit of `r` that emits the current line: when a pass over the
      pending lines leaves an unmodified line unmodified, no pending line
      touches it, and `r` pushes it and goes on with the pending lines as
      they were. */
  lemma {:induction false} ChainEmitsUntouched(cur: Line, rem: seq<Line>, acc: seq<Line>)
    requires |rem| > 0 && !cur.modified
    ensures var p := Scan(cur, rem, []);
      p.Ok? && p.value.PassDone? && !p.value.line.modified ==>
        && Chain(Some(cur), rem, acc) == Chain(None, rem, acc + [cur])
        && forall l :: l in rem ==> !Touches(cur, l)
  {
    ScanUnmodifiedTouchesNothing(cur, rem, []);
    assert [] + rem == rem;
  }

  /** A pass over `pre + post` is a pass over `pre` followed by one over
      `post`: a fault or an early close in `pre` ends the whole pass (the
      candidates of `post` join the untried tail), and otherwise the pass goes
      on over `post` with the line and the set-aside candidates it reached. */
  lemma {:induction false} ScanSplits(cur: Line, pre: seq<Line>, post: seq<Line>, checked: seq<Line>)
    ensures var a := Scan(cur, pre, checked);
      var b := Scan(cur, pre + post, checked);
      && (a.Err? ==> b == a)
      && (a.Ok? && a.value.ClosedEarly? ==> b == Ok(ClosedEarly(a.value.line, a.value.passed, a.value.unscanned + post)))
      && (a.Ok? && a.value.PassDone? ==> b == Scan(a.value.line, post, a.value.checked))
    decreases |pre|
  {
    if |pre| == 0 {
      assert pre + post == post;
    } else {
      var all := pre + post;
      assert all[0] == pre[0];
      assert all[1..] == pre[1..] + post;
      var c := Combine(cur, pre[0]);
      if c.Ok? {
        match c.value
        case Rejected(line) =>
          ScanSplits(cur, pre[1..], post, checked + [line]);
        case Absorbed(grown) =>
          if !grown.isClosed {
            ScanSplits(grown, pre[1..], post, checked);
          }
      }
    }
  }

  /** The pass stops on the candidate that closes the line: running it on
      the candidates up to and including that one gives the same closed line
      and the same set-aside candidates, with nothing left untried. */
  lemma {:induction false} ScanClosedBy(cur: Line, rem: seq<Line>, checked: seq<Line>)
    ensures var r := Scan(cur, rem, checked);
      r.Ok? && r.value.ClosedEarly? ==>
        && |r.value.unscanned| < |rem|
        && Scan(cur, rem[..|rem| - |r.value.unscanned|], checked) == Ok(ClosedEarly(r.value.line, r.value.passed, []))
  {
    var r := Scan(cur, rem, checked);
    if r.Ok? && r.value.ClosedEarly? {
      ScanKeepsOrder(cur, rem, checked);
      var m := |rem| - |r.value.unscanned|;
      var pre, post := rem[..m], rem[m..];
      assert pre + post == rem;
      ScanSplits(cur, pre, post, checked);
      var a := Scan(cur, pre, checked);
      if a.Ok? && a.value.PassDone? {
        ScanKeepsOrder(a.value.line, post, a.value.checked);
        assert false;
      }
      assert a.value.unscanned + post == r.value.unscanned;
    }
  }

  // ---------------------------------------------------------------------
  // Closed polylines

  /** A polyline marked closed has both ends, and they are within tolerance. */
  predicate ClosedMeets(l: Line) {
    l.isClosed ==> Complete(l) && Near(l.tolerance, l.start.value, l.end.value)
  }

  /** A pass started on an open line either closes it with its ends within
      tolerance, or ends with the line still open. */
  lemma {:induction false} ScanClosedMeets(cur: Line, rem: seq<Line>, checked: seq<Line>)
    requires !cur.isClosed
    ensures var r := Scan(cur, rem, checked);
      r.Ok? ==>
        && (r.value.ClosedEarly? ==> Complete(r.value.line) && Near(r.value.line.tolerance, r.value.line.start.value, r.value.line.end.value))
        && (r.value.PassDone? ==> !r.value.line.isClosed)
    decreases |rem|
  {
    if |rem| > 0 {
      var c := Combine(cur, rem[0]);
      if c.Ok? {
        match c.value
        case Rejected(line) =>
          ScanClosedMeets(cur, rem[1..], checked + [line]);
        case Absorbed(grown) =>
          if !grown.isClosed {
            ScanClosedMeets(grown, rem[1..], checked);
          }
      }
    }
  }

  /** On open inputs `r` only ever scans with an open current line, so every
      polyline it marks closed really has its two ends within tolerance; a
      closed polyline goes straight to the output and is never merged again. */
  lemma {:induction false} ChainClosedMeets(cur: Option<Line>, rem: seq<Line>, acc: seq<Line>)
    requires cur.Some? ==> !cur.value.isClosed
    requires forall l :: l in rem ==> !l.isClosed
    requires forall l :: l in acc ==> ClosedMeets(l)
    ensures var r := Chain(cur, rem, acc); r.Ok? ==> forall l :: l in r.value ==> ClosedMeets(l)
    decreases |rem| + (if cur.Some? then 1 else 0),
              (if cur.None? then 1 else 0),
              (if cur.Some? && cur.value.modified then 1 else 0)
  {
    if |rem| == 0 {
    } else if cur.None? {
      assert rem[0] in rem;
      ChainClosedMeets(Some(rem[0]), rem[1..], acc);
    } else {
      var pass := Scan(cur.value, rem, []);
      assert [] + rem == rem;
      ScanClosedMeets(cur.value, rem, []);
      if pass.Ok? {
        match pass.value
        case ClosedEarly(line, passed, unscanned) =>
          var rest := passed + unscanned;
          forall l | l in rest ensures !l.isClosed {
            InRest(l, rest, rem);
          }
          ChainClosedMeets(None, rest, acc + [line]);
        case PassDone(line, checked) =>
          forall l | l in checked ensures !l.isClosed {
            InRest(l, checked, rem);
          }
          if line.modified {
            ChainClosedMeets(Some(Reset(line)), checked, acc);
          } else {
            ChainClosedMeets(None, checked, acc + [line]);
          }
      }
    }
  }

  /** Every polyline `findLines` reports as closed has its two free ends
      within tolerance of each other. */
  lemma {:induction false} FindLinesClosedMeets(lines: seq<Line>)
    requires forall l :: l in lines ==> !l.isClosed
    ensures var r := FindLines(lines);
      r.Ok? ==> forall l :: l in r.value && l.isClosed ==> Complete(l) && Near(l.tolerance, l.start.value, l.end.value)
  {
    ChainClosedMeets(None, lines, []);
  }

  // ---------------------------------------------------------------------
  // Every segment reaches the output

  lemma {:induction false} InPool(l: Line, v: Vertex, ls: seq<Line>)
    requires l in ls && v in l.vertices
    ensures v in Pool(ls)
  {
  }

  /** A merge keeps every vertex of the line and adds an endpoint of the
      candidate. */
  lemma {:induction false} CombineKeeps(cur: Line, cand: Line)
    ensures var r := Combine(cur, cand);
      r.Ok? && r.value.Absorbed? ==>
        && (forall v :: v in cur.vertices ==> v in r.value.grown.vertices)
        && (cand.start in r.value.grown.vertices || cand.end in r.value.grown.vertices)
  {
  }

  /** A pass loses nothing: the line keeps its vertices, and each candidate
      is either handed back or has an endpoint among the line's vertices. */
  lemma {:induction false} ScanKeeps(cur: Line, rem: seq<Line>, checked: seq<Line>)
    ensures var r := Scan(cur, rem, checked);
      r.Ok? ==>
        && (forall v :: v in cur.vertices ==> v in r.value.line.vertices)
        && forall l :: l in checked + rem ==>
             l in Leftover(r.value) || l.start in r.value.line.vertices || l.end in r.value.line.vertices
    decreases |rem|
  {
    if |rem| > 0 {
      var c := Combine(cur, rem[0]);
      assert checked + rem == (checked + [rem[0]]) + rem[1..];
      if c.Ok? {
        match c.value
        case Rejected(line) =>
          ScanKeeps(cur, rem[1..], checked + [line]);
        case Absorbed(grown) =>
          CombineKeeps(cur, rem[0]);
          if !grown.isClosed {
            ScanKeeps(grown, rem[1..], checked);
          }
      }
    }
  }

  /** Both ends of `l` or one of them lies among the vertices of `out`. */
  predicate Reaches(l: Line, out: seq<Line>) {
    l.start in Pool(out) || l.end in Pool(out)
  }

  lemma {:induction false} EmittedInPool(line: Line, acc: seq<Line>, out: seq<Line>)
    requires acc + [line] <= out
    ensures forall v :: v in line.vertices ==> v in Pool(out)
  {
    assert line == out[|acc|];
    forall v | v in line.vertices ensures v in Pool(out) {
      InPool(line, v, out);
    }
  }

  /** What one pass guarantees, carried over to the final output once the
      line it leaves and the candidates it hands back have reached it. */
  lemma {:induction false} PassReaches(cur: Line, rem: seq<Line>, line: Line, leftover: seq<Line>, out: seq<Line>)
    requires forall v :: v in cur.vertices ==> v in line.vertices
    requires forall l :: l in rem ==> l in leftover || l.start in line.vertices || l.end in line.vertices
    requires forall v :: v in line.vertices ==> v in Pool(out)
    requires forall l :: l in leftover ==> Reaches(l, out)
    ensures forall v :: v in cur.vertices ==> v in Pool(out)
    ensures forall l :: l in rem ==> Reaches(l, out)
  {
  }

  lemma {:induction false} ChainKeeps(cur: Option<Line>, rem: seq<Line>, acc: seq<Line>)
    requires cur.Some? ==> Anchored(cur.value)
    requires forall l :: l in rem ==> Anchored(l)
    ensures var r := Chain(cur, rem, acc);
      r.Ok? ==>
        && (cur.Some? ==> forall v :: v in cur.value.vertices ==> v in Pool(r.value))
        && forall l :: l in rem ==> Reaches(l, r.value)
    decreases |rem| + (if cur.Some? then 1 else 0),
              (if cur.None? then 1 else 0),
              (if cur.Some? && cur.value.modified then 1 else 0)
  {
    var r := Chain(cur, rem, acc);
    if r.Ok? {
      if |rem| == 0 {
        if cur.Some? {
          EmittedInPool(cur.value, acc, r.value);
        }
      } else if cur.None? {
        assert rem[0] in rem;
        ChainKeeps(Some(rem[0]), rem[1..], acc);
        assert rem[0].start in rem[0].vertices;
        forall l | l in rem ensures Reaches(l, r.value) {
          if l != rem[0] {
            assert l in rem[1..];
          }
        }
      } else {
        var pass := Scan(cur.value, rem, []);
        ScanKeeps(cur.value, rem, []);
        ScanAnchored(cur.value, rem, []);
        assert [] + rem == rem;
        var line := pass.value.line;
        var leftover := Leftover(pass.value);
        forall l | l in leftover ensures Anchored(l) {
          InRest(l, leftover, rem);
        }
        if pass.value.ClosedEarly? {
          ChainKeeps(None, leftover, acc + [line]);
          EmittedInPool(line, acc, r.value);
        } else if line.modified {
          ChainKeeps(Some(Reset(line)), leftover, acc);
        } else {
          ChainKeeps(None, leftover, acc + [line]);
          EmittedInPool(line, acc, r.value);
        }
        PassReaches(cur.value, rem, line, leftover, r.value);
      }
    }
  }

  /** No input segment is dropped: every input line has an endpoint among
      the vertices of the polylines `findLines` returns. */
  lemma {:induction false} FindLinesKeepsEverySegment(lines: seq<Line>)
    requires forall l :: l in lines ==> Anchored(l)
    ensures var r := FindLines(lines);
      r.Ok? ==> forall l :: l in lines ==> l.start in Pool(r.value) || l.end in Pool(r.value)
  {
    ChainKeeps(None, lines, []);
  }

  /** A first input line with a `null` start makes `findLines` fault as soon
      as there is a second line to compare it with. */
  lemma FirstNullStartFaults(lines: seq<Line>)
    requires |lines| >= 2 && lines[0].start.None?
    ensures FindLines(lines) == Err(NullVertex)
  {
    var none: seq<Line> := [];
    var rest := lines[1..];
    assert Combine(lines[0], rest[0]).Err?;
    assert Scan(lines[0], rest, none) == Err(NullVertex);
    assert Chain(Some(lines[0]), rest, none) == Err(NullVertex);
  }
}
