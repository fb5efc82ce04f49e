/** Properties of the slicer in module `Intersection`. */
module IntersectionProofs {
  import opened Geometry
  import opened Lines
  import opened Intersection
  import ChainProofs

  /** Only the CA edge is crossed: the case in which a segment with a `null`
      first endpoint is emitted. */
  predicate OnlyCaHits(hit: Hit, t: Triangle) {
    hit(t.a, t.b).None? && hit(t.b, t.c).None? && hit(t.c, t.a).Some?
  }

  /** Slicing distributes over concatenation: segments keep triangle order
      and each triangle contributes independently of the others. */
  lemma {:induction false} EmittedAppend(hit: Hit, xs: seq<Triangle>, ys: seq<Triangle>)
    ensures Emitted(hit, xs + ys) == Emitted(hit, xs) + Emitted(hit, ys)
    decreases |ys|
  {
    if |ys| == 0 {
      assert xs + ys == xs;
    } else {
      var zs := xs + ys;
      assert zs[..|zs| - 1] == xs + ys[..|ys| - 1];
      assert zs[|zs| - 1] == ys[|ys| - 1];
      EmittedAppend(hit, xs, ys[..|ys| - 1]);
    }
  }

  /** At most one segment per triangle. */
  lemma {:induction false} EmittedBound(hit: Hit, ts: seq<Triangle>)
    ensures |Emitted(hit, ts)| <= |ts|
  {
    if |ts| > 0 {
      EmittedBound(hit, ts[..|ts| - 1]);
    }
  }

  /** One triangle on its own yields its slot-policy segment, or nothing. */
  lemma EmittedSingle(hit: Hit, t: Triangle)
    ensures Emitted(hit, [t]) == if SliceTriangle(hit, t).Some? then [SliceTriangle(hit, t).value] else []
  {
    assert [t][..0] == [];
  }

  /** When AB and BC both hit, CA is never consulted: any two crossing
      oracles that agree on AB and BC give the same segment. */
  lemma CaIgnoredWhenAbAndBcHit(hit1: Hit, hit2: Hit, t: Triangle)
    requires hit1(t.a, t.b).Some? && hit1(t.b, t.c).Some?
    requires hit1(t.a, t.b) == hit2(t.a, t.b) && hit1(t.b, t.c) == hit2(t.b, t.c)
    ensures SliceTriangle(hit1, t) == SliceTriangle(hit2, t)
    ensures SliceTriangle(hit1, t).value.vertices == [hit1(t.a, t.b), hit1(t.b, t.c)]
  {
  }

  /** A plane that misses every edge of every triangle yields no segments. */
  lemma {:induction false} MissEverywhere(hit: Hit, ts: seq<Triangle>)
    requires forall t :: t in ts ==> hit(t.a, t.b).None? && hit(t.b, t.c).None? && hit(t.c, t.a).None?
    ensures Emitted(hit, ts) == []
    ensures FindLines(Emitted(hit, ts)) == Ok([])
  {
    if |ts| > 0 {
      assert ts[|ts| - 1] in ts;
      forall t | t in ts[..|ts| - 1] ensures hit(t.a, t.b).None? && hit(t.b, t.c).None? && hit(t.c, t.a).None? {
        assert t in ts;
      }
      MissEverywhere(hit, ts[..|ts| - 1]);
    }
  }

  /** Unless some triangle is crossed only on CA, every emitted segment has
      both endpoints. */
  lemma {:induction false} EmittedComplete(hit: Hit, ts: seq<Triangle>)
    requires forall t :: t in ts ==> !OnlyCaHits(hit, t)
    ensures forall l :: l in Emitted(hit, ts) ==> Complete(l)
  {
    if |ts| > 0 {
      assert ts[|ts| - 1] in ts;
      forall t | t in ts[..|ts| - 1] ensures !OnlyCaHits(hit, t) {
        assert t in ts;
      }
      EmittedComplete(hit, ts[..|ts| - 1]);
    }
  }

  /** Every emitted segment is a fresh two-vertex line with the default
      tolerance. */
  lemma {:induction false} EmittedFresh(hit: Hit, ts: seq<Triangle>)
    ensures forall l :: l in Emitted(hit, ts) ==> Fresh(l) && l.tolerance == DefaultTolerance
  {
    if |ts| > 0 {
      EmittedFresh(hit, ts[..|ts| - 1]);
    }
  }

  /** On a mesh where no triangle is crossed only on CA, slicing succeeds and
      the chained polylines hold exactly one edge per emitted segment, and so
      at most one per triangle. */
  lemma SliceCount(m: Mesh, hit: Hit)
    requires ValidMesh(m)
    requires forall t :: t in Triangles(m) ==> !OnlyCaHits(hit, t)
    ensures var segments := Emitted(hit, Triangles(m));
      && FindLines(segments).Ok?
      && ChainProofs.Edges(FindLines(segments).value) == |segments|
      && |segments| <= |m.index| / 3
  {
    var segments := Emitted(hit, Triangles(m));
    EmittedComplete(hit, Triangles(m));
    EmittedFresh(hit, Triangles(m));
    EmittedBound(hit, Triangles(m));
    ChainProofs.FindLinesNoFault(segments);
    ChainProofs.FindLinesCount(segments);
  }
}
