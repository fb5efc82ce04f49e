/** Worked runs of `findLines` on small inputs. */
module ChainExamples {
  import opened Geometry
  import opened Lines

  function P(x: real, y: real): Vertex {
    Some(Point(x, y, 0.0))
  }

  function Seg(a: Vertex, b: Vertex): Line {
    NewLine(a, b, DefaultTolerance)
  }

  const NoLines: seq<Line> := []

  // The unit square, walked counter-clockwise from the origin.
  const S1: Line := Seg(P(0.0, 0.0), P(1.0, 0.0))
  const S2: Line := Seg(P(1.0, 0.0), P(1.0, 1.0))
  const S3: Line := Seg(P(1.0, 1.0), P(0.0, 1.0))
  const S4: Line := Seg(P(0.0, 1.0), P(0.0, 0.0))

  // The polyline after absorbing S2, then S3, then S4.
  const L2: Line := Line(P(0.0, 0.0), P(1.0, 1.0), [P(0.0, 0.0), P(1.0, 0.0), P(1.0, 1.0)], DefaultTolerance, false, true)
  const L3: Line := Line(P(0.0, 0.0), P(0.0, 1.0), [P(0.0, 0.0), P(1.0, 0.0), P(1.0, 1.0), P(0.0, 1.0)],
                         DefaultTolerance, false, true)
  const L4: Line := Line(P(0.0, 1.0), P(0.0, 1.0), [P(0.0, 1.0), P(0.0, 0.0), P(1.0, 0.0), P(1.0, 1.0), P(0.0, 1.0)],
                         DefaultTolerance, true, true)

  lemma SquareFirstJoin()
    ensures Combine(S1, S2) == Ok(Absorbed(L2))
  {
    assert Equals(DefaultTolerance, S1.start, S2.start) == Ok(false);
    assert Equals(DefaultTolerance, S1.start, S2.end) == Ok(false);
    assert Equals(DefaultTolerance, S1.end, S2.end) == Ok(false);
    assert S1.vertices + [S2.end] == L2.vertices;
  }

  lemma SquareSecondJoin()
    ensures Combine(L2, S3) == Ok(Absorbed(L3))
  {
    assert Equals(DefaultTolerance, L2.start, S3.start) == Ok(false);
    assert Equals(DefaultTolerance, L2.start, S3.end) == Ok(false);
    assert Equals(DefaultTolerance, L2.end, S3.end) == Ok(false);
    assert L2.vertices + [S3.end] == L3.vertices;
  }

  lemma SquareClosingJoin()
    ensures Combine(L3, S4) == Ok(Absorbed(L4))
  {
    assert Equals(DefaultTolerance, L3.start, S4.start) == Ok(false);
    assert Equals(DefaultTolerance, L3.start, S4.end) == Ok(true);
    assert [S4.start] + L3.vertices == L4.vertices;
  }

  /** Four segments around the unit square close into one polyline whose
      first and last vertex are the same corner; it is emitted in the same
      pass that closes it. */
  lemma UnitSquareCloses()
    ensures FindLines([S1, S2, S3, S4]) == Ok([L4])
  {
    SquareFirstJoin();
    SquareSecondJoin();
    SquareClosingJoin();
    assert [S1, S2, S3, S4][1..] == [S2, S3, S4];
    assert [S2, S3, S4][1..] == [S3, S4];
    assert [S3, S4][1..] == [S4];
    assert [S4][1..] == NoLines;
    assert NoLines + NoLines == NoLines;
    assert Scan(L3, [S4], NoLines) == Ok(ClosedEarly(L4, NoLines, NoLines));
    assert Scan(L2, [S3, S4], NoLines) == Ok(ClosedEarly(L4, NoLines, NoLines));
    assert Scan(S1, [S2, S3, S4], NoLines) == Ok(ClosedEarly(L4, NoLines, NoLines));
    assert NoLines + [L4] == [L4];
    assert Chain(None, NoLines, [L4]) == Ok([L4]);
    assert Chain(Some(S1), [S2, S3, S4], NoLines) == Ok([L4]);
  }

  // An open "L" of two segments and one stray segment.
  const T3: Line := Seg(P(2.0, 2.0), P(3.0, 3.0))

  lemma StrayRejected(l: Line)
    requires l == L2 || l == Reset(L2)
    ensures Combine(l, T3) == Ok(Rejected(T3))
  {
    assert Equals(DefaultTolerance, l.start, T3.start) == Ok(false);
    assert Equals(DefaultTolerance, l.start, T3.end) == Ok(false);
    assert Equals(DefaultTolerance, l.end, T3.end) == Ok(false);
  }

  /** Two joined segments and one far away give an open three-vertex
      polyline and an untouched two-vertex one; neither is closed. The
      joined line is only emitted after a second pass finds nothing more. */
  lemma OpenChainAndStray()
    ensures FindLines([S1, S2, T3]) == Ok([Reset(L2), T3])
    ensures !Reset(L2).isClosed && |Reset(L2).vertices| == 3
  {
    SquareFirstJoin();
    StrayRejected(L2);
    StrayRejected(Reset(L2));
    assert [S1, S2, T3][1..] == [S2, T3];
    assert [S2, T3][1..] == [T3];
    assert NoLines + [T3] == [T3];
    assert Scan(L2, NoLines, [T3]) == Ok(PassDone(L2, [T3]));
    assert Scan(L2, [T3], NoLines) == Ok(PassDone(L2, [T3]));
    assert Scan(S1, [S2, T3], NoLines) == Ok(PassDone(L2, [T3]));
    // second pass: the grown line no longer matches anything
    assert Scan(Reset(L2), NoLines, [T3]) == Ok(PassDone(Reset(L2), [T3]));
    assert Scan(Reset(L2), [T3], NoLines) == Ok(PassDone(Reset(L2), [T3]));
    assert [Reset(L2)] + [T3] == [Reset(L2), T3];
    assert NoLines + [Reset(L2)] == [Reset(L2)];
    assert Chain(Some(T3), NoLines, [Reset(L2)]) == Ok([Reset(L2), T3]);
    assert Chain(None, [T3], [Reset(L2)]) == Ok([Reset(L2), T3]);
    assert Chain(Some(Reset(L2)), [T3], NoLines) == Ok([Reset(L2), T3]);
    assert Chain(Some(S1), [S2, T3], NoLines) == Ok([Reset(L2), T3]);
  }

  // Two segments whose facing ends lie exactly the tolerance apart, at the
  // origin where 0.001 is also the gap between the two binary64 values.
  const G1: Line := Seg(P(-1.0, 0.0), P(0.0, 0.0))
  const G2: Line := Seg(P(0.001, 0.0), P(1.0, 0.0))

  /** A segment whose endpoint is off by exactly the tolerance is not joined:
      the comparison in `#equals` is strict. */
  lemma ToleranceGapNotJoined()
    ensures FindLines([G1, G2]) == Ok([G1, G2])
  {
    assert Combine(G1, G2) == Ok(Rejected(G2));
    assert [G1, G2][1..] == [G2];
    assert NoLines + [G2] == [G2];
    assert Scan(G1, NoLines, [G2]) == Ok(PassDone(G1, [G2]));
    assert Scan(G1, [G2], NoLines) == Ok(PassDone(G1, [G2]));
    assert [G1] + [G2] == [G1, G2];
    assert NoLines + [G1] == [G1];
    assert Chain(Some(G2), NoLines, [G1]) == Ok([G1, G2]);
    assert Chain(None, [G2], [G1]) == Ok([G1, G2]);
    assert Chain(Some(G1), [G2], NoLines) == Ok([G1, G2]);
  }

  // A T-junction: three segments share the end (1, 0).
  const JA: Line := Seg(P(0.0, 0.0), P(1.0, 0.0))
  const JB: Line := Seg(P(1.0, 0.0), P(2.0, 0.0))
  const JC: Line := Seg(P(1.0, 0.0), P(1.0, 1.0))

  // `JA` after absorbing `JB`, and after absorbing `JC`.
  const JAB: Line := Line(P(0.0, 0.0), P(2.0, 0.0), [P(0.0, 0.0), P(1.0, 0.0), P(2.0, 0.0)], DefaultTolerance, false, true)
  const JAC: Line := Line(P(0.0, 0.0), P(1.0, 1.0), [P(0.0, 0.0), P(1.0, 0.0), P(1.0, 1.0)], DefaultTolerance, false, true)

  /** Straight on first: `JB` extends `JA`, and `JC` is left on its own. */
  lemma JunctionStraightFirst()
    ensures FindLines([JA, JB, JC]) == Ok([Reset(JAB), JC])
  {
    assert Equals(DefaultTolerance, JA.start, JB.start) == Ok(false);
    assert Equals(DefaultTolerance, JA.start, JB.end) == Ok(false);
    assert Equals(DefaultTolerance, JA.end, JB.end) == Ok(false);
    assert JA.vertices + [JB.end] == JAB.vertices;
    assert Equals(DefaultTolerance, JAB.start, JAB.end) == Ok(false);
    assert Combine(JA, JB) == Ok(Absorbed(JAB));
    assert Combine(JAB, JC) == Ok(Rejected(JC));
    assert Combine(Reset(JAB), JC) == Ok(Rejected(JC));
    assert [JA, JB, JC][1..] == [JB, JC];
    assert [JB, JC][1..] == [JC];
    assert NoLines + [JC] == [JC];
    assert Scan(JAB, NoLines, [JC]) == Ok(PassDone(JAB, [JC]));
    assert Scan(JAB, [JC], NoLines) == Ok(PassDone(JAB, [JC]));
    assert Scan(JA, [JB, JC], NoLines) == Ok(PassDone(JAB, [JC]));
    assert Scan(Reset(JAB), NoLines, [JC]) == Ok(PassDone(Reset(JAB), [JC]));
    assert Scan(Reset(JAB), [JC], NoLines) == Ok(PassDone(Reset(JAB), [JC]));
    assert [Reset(JAB)] + [JC] == [Reset(JAB), JC];
    assert NoLines + [Reset(JAB)] == [Reset(JAB)];
    assert Chain(Some(JC), NoLines, [Reset(JAB)]) == Ok([Reset(JAB), JC]);
    assert Chain(None, [JC], [Reset(JAB)]) == Ok([Reset(JAB), JC]);
    assert Chain(Some(Reset(JAB)), [JC], NoLines) == Ok([Reset(JAB), JC]);
    assert Chain(Some(JA), [JB, JC], NoLines) == Ok([Reset(JAB), JC]);
  }

  /** Branch first: `JC` extends `JA`, and `JB` is left on its own. */
  lemma JunctionBranchFirst()
    ensures FindLines([JA, JC, JB]) == Ok([Reset(JAC), JB])
  {
    assert Equals(DefaultTolerance, JA.start, JC.start) == Ok(false);
    assert Equals(DefaultTolerance, JA.start, JC.end) == Ok(false);
    assert Equals(DefaultTolerance, JA.end, JC.end) == Ok(false);
    assert JA.vertices + [JC.end] == JAC.vertices;
    assert Equals(DefaultTolerance, JAC.start, JAC.end) == Ok(false);
    assert Combine(JA, JC) == Ok(Absorbed(JAC));
    assert Combine(JAC, JB) == Ok(Rejected(JB));
    assert Combine(Reset(JAC), JB) == Ok(Rejected(JB));
    assert [JA, JC, JB][1..] == [JC, JB];
    assert [JC, JB][1..] == [JB];
    assert NoLines + [JB] == [JB];
    assert Scan(JAC, NoLines, [JB]) == Ok(PassDone(JAC, [JB]));
    assert Scan(JAC, [JB], NoLines) == Ok(PassDone(JAC, [JB]));
    assert Scan(JA, [JC, JB], NoLines) == Ok(PassDone(JAC, [JB]));
    assert Scan(Reset(JAC), NoLines, [JB]) == Ok(PassDone(Reset(JAC), [JB]));
    assert Scan(Reset(JAC), [JB], NoLines) == Ok(PassDone(Reset(JAC), [JB]));
    assert [Reset(JAC)] + [JB] == [Reset(JAC), JB];
    assert NoLines + [Reset(JAC)] == [Reset(JAC)];
    assert Chain(Some(JB), NoLines, [Reset(JAC)]) == Ok([Reset(JAC), JB]);
    assert Chain(None, [JB], [Reset(JAC)]) == Ok([Reset(JAC), JB]);
    assert Chain(Some(Reset(JAC)), [JB], NoLines) == Ok([Reset(JAC), JB]);
    assert Chain(Some(JA), [JC, JB], NoLines) == Ok([Reset(JAC), JB]);
  }

  /** The vertex sets of a list of polylines. */
  function VertexSets(ls: seq<Line>): set<set<Vertex>> {
    set l | l in ls :: set v | v in l.vertices
  }

  /** Where three segment ends meet, input order decides which segment joins
      the current polyline: the same three segments in two orders give two
      different sets of polylines, even compared as sets of vertices. */
  lemma JunctionDependsOnOrder()
    ensures FindLines([JA, JB, JC]).Ok? && FindLines([JA, JC, JB]).Ok?
    ensures |FindLines([JA, JB, JC]).value| == 2 && |FindLines([JA, JC, JB]).value| == 2
    ensures FindLines([JA, JB, JC]).value[0].vertices == [P(0.0, 0.0), P(1.0, 0.0), P(2.0, 0.0)]
    ensures FindLines([JA, JC, JB]).value[0].vertices == [P(0.0, 0.0), P(1.0, 0.0), P(1.0, 1.0)]
    ensures VertexSets(FindLines([JA, JB, JC]).value) != VertexSets(FindLines([JA, JC, JB]).value)
  {
    JunctionStraightFirst();
    JunctionBranchFirst();
    var straight := {P(0.0, 0.0), P(1.0, 0.0), P(2.0, 0.0)};
    assert (set v | v in Reset(JAB).vertices) == straight;
    assert straight in VertexSets([Reset(JAB), JC]);
    assert P(0.0, 0.0) !in JB.vertices;
    assert P(2.0, 0.0) !in Reset(JAC).vertices;
    assert straight !in VertexSets([Reset(JAC), JB]);
  }

  /** A lone line with a null start is never compared, so it passes through. */
  lemma LoneNullStartPassesThrough(q: Point)
    ensures FindLines([Seg(None, Some(q))]) == Ok([Seg(None, Some(q))])
  {
    var n := Seg(None, Some(q));
    assert [n][1..] == NoLines;
    assert NoLines + [n] == [n];
    assert Chain(Some(n), NoLines, NoLines) == Ok([n]);
  }

  /** A null start faults as soon as the line is compared with another. */
  lemma NullStartFaults(q: Point, l: Line)
    ensures FindLines([Seg(None, Some(q)), l]) == Err(NullVertex)
  {
    var n := Seg(None, Some(q));
    assert [n, l][1..] == [l];
    assert Combine(n, l) == Err(NullVertex);
    assert Scan(n, [l], NoLines) == Err(NullVertex);
    assert Chain(Some(n), [l], NoLines) == Err(NullVertex);
  }
}
