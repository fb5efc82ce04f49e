# Contour slicing core of terrain-playground, in Dafny

This project models the three pieces of real logic in the terrain playground's
contour tooling and proves properties about them:

- **The segment chainer.** This is the `Line` class of `scripts/line.js`. It
  merges an unordered list of two-point segments into polylines. Two segments
  join when an endpoint of one lies within a per-axis tolerance of an endpoint
  of the other, and a polyline is closed once its two free ends meet.
- **The plane/mesh slicer.** This is `getIntersectionPoints` in
  `scripts/intersection.js`. It walks the index buffer one triangle at a time,
  uses a first-free-slot policy to choose at most two edge crossings, emits
  at most one segment per triangle, and hands the list to `Line.findLines`.
- **The `mulberry32` generator** in `scripts/utils.js`.

Modules:

- `Geometry` (geometry.dfy) holds the shared types:
  - `Point` has exact real coordinates.
  - `Vertex` is `Option<Point>`, so that JavaScript's `null` endpoint can be
    represented.
  - `Result` carries the one fault the code can raise. Reading a coordinate of
    a `null` vertex in `#equals` is a TypeError, modelled as `Err(NullVertex)`.
- `Lines` (lines.dfy) is the `Line` class as immutable values. Each mutating
  method becomes a function that returns the updated line:
  - `combine` returns `Absorbed(grown)` or `Rejected(candidate)`.
  - One pass of the `do … while` loop of `findLines.r` is `Scan`.
  - The recursive `r` itself is `Chain`. Its termination measure is
    lexicographic: pending lines, then "no current line", then "the current
    line is still marked modified".
- `ChainProofs` (chain_proofs.dfy) holds the properties of the tolerance
  relation and the invariants of a whole `findLines` run:
  - segments are neither lost nor duplicated;
  - a run over complete lines never faults;
  - vertex lists stay anchored at the free ends;
  - no vertex is invented, and every input segment reaches the output;
  - a polyline marked closed has its two ends within tolerance;
  - a pass tries candidates left to right, absorbs the first that touches,
    and keeps the order of those it sets aside.
- `SeqFacts` (seq_facts.dfy) holds list facts, for any element type, about
  the order in which a pass hands its candidates back.
- `ChainExamples` (chain_examples.dfy) works through the unit square, an open
  "L" with a stray segment, the tolerance boundary, a T-junction chained in
  two input orders, and the `null`-start cases.
- `Intersection` (intersection.dfy) holds the slicer. The three.js call
  `plane.intersectLine` becomes a parameter `hit(p, q)`, which is the crossing
  of the edge from `p` to `q` when there is one.
- `IntersectionProofs` (intersection_proofs.dfy) holds the slot policy, the
  per-triangle bound, and the end-to-end edge count.
- `Mulberry` (mulberry.dfy) holds `mulberry32`:
  - The captured state is an unbounded integer.
  - The mixer works on `bv32`, and `Math.imul` is the exact product taken
    modulo 2^32. Its three rounds are separate functions, so that the
    xorshift rounds can be shown invertible.
  - The output is the exact rational `u / 2^32`.

`scripts/intersection.js:52` guards the push only on the second slot. So a
plane that crosses only edge CA fills the second slot and leaves the first
empty, and the code pushes `new Line(null, hitCA)`. `Intersection.SliceTriangle`
does the same. `ChainProofs.FirstNullStartFaults` and
`ChainExamples.NullStartFaults` show that such a segment makes `findLines`
fault as soon as it is compared with another line.

When `combine` finds a matching pair of ends, it adds the candidate's *other*
endpoint at the matching side and makes it the new free end
(scripts/line.js:76-87). `Lines.Combine` does the same.

Where three or more segment ends meet, which segment joins the current
polyline depends on the order of the input: `combine` absorbs the first
candidate that touches, so the same segments in another order can give a
different set of polylines (`ChainExamples.JunctionDependsOnOrder`).

Input lines are not required to be fresh. A line handed to `findLines` may
already be marked `modified` or `isClosed`. This is why `Chain`'s measure has
a third component.

## Model

| member | source | states |
|---|---|---|
| Lines.NewLine | scripts/line.js:56-63 | A new line has vertex list `[start, end]`, is neither closed nor modified, keeps the given ends and tolerance, and is anchored (first vertex is `start`, last is `end`). |
| Lines.Reset | scripts/line.js:65-68 | `reset` clears `modified` and changes no other field. |
| Lines.Equals | scripts/line.js:98-102 | Comparing two vertices faults exactly when one of them is `null`. |
| Lines.Settle | scripts/line.js:91-95 | After a match the line is marked modified. It is closed exactly when it was already closed or its new free ends are within tolerance. No other field changes. It faults when a free end is `null`. |
| Lines.Combine | scripts/line.js:75-96 | Faults exactly when an endpoint of either line is `null`. Rejects exactly when no end of one line is within tolerance of an end of the other, and then returns the candidate untouched. The four matches are tried in source order, each adding the candidate's other endpoint at the matching side and moving that free end. A merge grows the vertex list by exactly one, sets `modified`, keeps the tolerance and anchoring, and closes the line exactly when its new ends meet. |
| Lines.Scan | scripts/line.js:26-37 | One pass of the do-while loop. An early close returns a closed, modified line, the candidates set aside before it, and the untried ones. The candidates left over are a sub-multiset of those given, and strictly fewer. Vertices gained plus candidates left equal what went in. A pass with no merge returns the line unchanged together with every candidate, none of which touches it. A pass that ends with a modified line either merged something or started modified. |
| Lines.Chain | scripts/line.js:16-43 | The recursion terminates under the lexicographic measure (pending lines plus current, no current line, current still modified). Polylines already emitted are never retracted: the result extends `acc`. |
| Lines.FindLines | scripts/line.js:7-48 | Empty input gives empty output. |
| ChainProofs.NearSymmetric | scripts/line.js:98-102 | The tolerance relation is symmetric. |
| ChainProofs.NearReflexiveIff | scripts/line.js:98-102 | A point matches itself if and only if the tolerance is positive. |
| ChainProofs.NearStrictBoundary | scripts/line.js:99-101 | A gap of exactly the tolerance on one axis does not match, while half of it does. |
| ChainProofs.NearNotTransitive | scripts/line.js:98-102 | Two half-tolerance steps match pairwise, but their outer points do not match. |
| ChainProofs.ChainCount | scripts/line.js:16-43 | Over any run of `r` on two-vertex pending lines: edges of the result = edges of `acc` + edges of the current line + number of pending lines. At most one output line per pending line plus current. At least one new output when anything is pending. |
| ChainProofs.FindLinesCount | scripts/line.js:16-45 | Summed over all output polylines, vertex count minus one equals the number of input segments. There are at most as many polylines as segments, and at least one for non-empty input. |
| ChainProofs.ScanNoFault | scripts/line.js:26-37 | A pass over lines whose ends are all present never faults and leaves a complete line. |
| ChainProofs.FindLinesNoFault | scripts/line.js:16-45 | `findLines` on lines whose ends are all present always succeeds. |
| ChainProofs.ScanAnchored | scripts/line.js:76-87 | A pass keeps the vertex list running from `start` to `end`. |
| ChainProofs.ChainAnchored | scripts/line.js:16-43 | Every polyline `r` returns is anchored at its free ends, given anchored inputs. |
| ChainProofs.FindLinesAnchored | scripts/line.js:57-59 | On freshly constructed segments, every output polyline starts at `start` and ends at `end`. |
| ChainProofs.CombineWithin | scripts/line.js:76-87 | A merge only uses vertices of the two lines it joins. |
| ChainProofs.ScanWithin | scripts/line.js:26-37 | A pass only uses vertices of the current line and the candidates. |
| ChainProofs.ChainWithin | scripts/line.js:16-43 | Every vertex of every output polyline comes from a vertex pool that holds every pending and finished line. |
| ChainProofs.FindLinesInventsNoVertex | scripts/line.js:7-48 | Every vertex of every output polyline is a vertex of some input line. |
| ChainProofs.ChainNoFault | scripts/line.js:16-43 | A run of `r` whose current and pending lines all have both ends never faults. |
| ChainProofs.ScanKeepsOrder | scripts/line.js:26-37 | The lines already set aside stay a prefix of the returned list. On an early close the returned list ends with exactly the untried tail of the input, and everything set aside came from before the candidate just in front of that tail. |
| ChainProofs.ScanFirstCandidate | scripts/line.js:27-37 | Candidates are tried left to right. One that does not touch the current line is set aside and the pass goes on with the same line. One that touches it is absorbed: the pass stops if the line closed and otherwise goes on with the grown line. |
| ChainProofs.ScanSplits | scripts/line.js:27-37 | The do-while pass over a list is the pass over its front part followed by the pass over the rest. A fault or an early close in the front ends the whole pass, with the rest joining the untried tail. Otherwise the pass goes on over the rest with the line and the set-aside candidates it reached. |
| ChainProofs.ScanClosedBy | scripts/line.js:27-36 | An early close happens on the last candidate tried. Running the pass on the candidates up to and including the one just in front of the untried tail gives the same closed line and the same set-aside candidates, with no candidate left untried. So that candidate is the one whose merge closed the line, and nothing after it was looked at. |
| ChainProofs.ScanStaysModified | scripts/line.js:26-37 | A pass that starts on a modified line ends with a modified line: every merge sets `modified` and nothing in the pass clears it. |
| ChainProofs.ScanUnmodifiedTouchesNothing | scripts/line.js:26-37 | A pass that starts on an unmodified line and ends with it unmodified merged nothing. The line comes back unchanged, every candidate is set aside in order, and no candidate touches the line. |
| ChainProofs.ChainEmitsUntouched | scripts/line.js:38-42 | When a pass leaves an unmodified current line unmodified, no pending line touches it. `r` pushes that line and goes on with the pending lines exactly as they were. |
| ChainProofs.ScanClosedMeets | scripts/line.js:91-95 | A pass started on an open line ends either with a complete line whose ends are within tolerance (early close) or with a line still open. |
| ChainProofs.ChainClosedMeets | scripts/line.js:16-43 | On open inputs, every polyline `r` outputs that is marked closed has both ends within tolerance of each other. |
| ChainProofs.FindLinesClosedMeets | scripts/line.js:7-48 | Every polyline `findLines` returns as closed has its two free ends within tolerance. |
| ChainProofs.CombineKeeps | scripts/line.js:76-87 | A merge keeps every vertex of the line and adds an endpoint of the candidate. |
| ChainProofs.ScanKeeps | scripts/line.js:26-37 | A pass keeps every vertex of the line, and each candidate is either handed back or has an endpoint among the line's vertices. |
| ChainProofs.ChainKeeps | scripts/line.js:16-43 | Every vertex of the current line, and an endpoint of every pending line, appears in some output polyline. |
| ChainProofs.FindLinesKeepsEverySegment | scripts/line.js:7-48 | No input segment is dropped: each has an endpoint among the vertices of the output polylines. |
| ChainProofs.FirstNullStartFaults | scripts/line.js:23-28 | If the first line has a `null` start and a second line exists, `findLines` faults. |
| ChainExamples.SquareFirstJoin | scripts/line.js:85-87 | The second square edge matches end-to-start, so its far corner is appended at the end. |
| ChainExamples.SquareSecondJoin | scripts/line.js:85-87 | The third square edge again matches end-to-start and its far corner is appended. |
| ChainExamples.SquareClosingJoin | scripts/line.js:79-81 | The fourth edge matches start-to-end, is prepended, and closes the loop. |
| ChainExamples.UnitSquareCloses | scripts/line.js:16-43 | Four segments around the unit square chain into exactly one closed polyline of five vertices with a repeated corner. It is emitted in the pass that closes it. |
| ChainExamples.StrayRejected | scripts/line.js:88-90 | A segment far from both free ends comes back untouched. |
| ChainExamples.OpenChainAndStray | scripts/line.js:16-43 | An open "L" plus a stray segment gives exactly two open polylines, of three and two vertices. The grown one is emitted after a second pass finds nothing more. |
| ChainExamples.ToleranceGapNotJoined | scripts/line.js:98-102 | Two segments whose facing ends at the origin are exactly 0.001 apart stay separate. |
| ChainExamples.JunctionStraightFirst | scripts/line.js:16-43 | For the T-junction (0,0)–(1,0), (1,0)–(2,0), (1,0)–(1,1) in that order, the second segment extends the first and the branch is left on its own: the result is the polyline (0,0),(1,0),(2,0) followed by the branch. |
| ChainExamples.JunctionBranchFirst | scripts/line.js:16-43 | The same junction with the branch listed second: the branch extends the first segment, giving (0,0),(1,0),(1,1) followed by the segment (1,0)–(2,0). |
| ChainExamples.JunctionDependsOnOrder | scripts/line.js:27-37 | Reordering the input changes the output: both orders give two polylines, their first polylines differ, and the two results differ even compared as sets of vertex sets. |
| ChainExamples.LoneNullStartPassesThrough | scripts/line.js:17-24 | A single line with a `null` start is never compared, so it is returned as is. |
| ChainExamples.NullStartFaults | scripts/line.js:26-28 | A line with a `null` start faults when compared with any second line. |
| Intersection.Triangles | scripts/intersection.js:23-29 | The `t`-th triangle is formed from index entries `3t`, `3t+1` and `3t+2`, and there are (index count) / 3 triangles. |
| Intersection.SliceTriangle | scripts/intersection.js:35-54 | The full truth table of the slot policy over the AB, BC and CA hits. A segment is emitted if and only if AB and BC both hit, or CA hits. It is fresh, its second end is present, and it has the default tolerance. CA alone yields a segment with a `null` first end. |
| Intersection.CollectSegments | scripts/intersection.js:22-55 | The loop that steps by three collects exactly the per-triangle segments in triangle order, at most one per triangle, each fresh. |
| Intersection.GetIntersectionPoints | scripts/intersection.js:9-57 | The result is `findLines` applied to the emitted segment list. |
| IntersectionProofs.EmittedAppend | scripts/intersection.js:23-55 | The segments of two runs of triangles are the segments of each run concatenated, so triangle order is kept. |
| IntersectionProofs.EmittedBound | scripts/intersection.js:23-55 | At most one segment per triangle. |
| IntersectionProofs.EmittedSingle | scripts/intersection.js:52-54 | A single triangle contributes its slot-policy segment, or nothing. |
| IntersectionProofs.CaIgnoredWhenAbAndBcHit | scripts/intersection.js:37-50 | When AB and BC both hit, the segment is (hitAB, hitBC), and any two oracles that agree on AB and BC agree on the segment. |
| IntersectionProofs.MissEverywhere | scripts/intersection.js:49-57 | A plane that misses every edge yields no segments and no polylines. |
| IntersectionProofs.EmittedComplete | scripts/intersection.js:35-54 | Unless some triangle is crossed only on CA, every emitted segment has both ends. |
| IntersectionProofs.EmittedFresh | scripts/intersection.js:53 | Every emitted segment is a freshly constructed line with the default tolerance. |
| IntersectionProofs.SliceCount | scripts/intersection.js:22-57 | On a valid mesh where no triangle is crossed only on CA, slicing succeeds. The output polylines hold exactly one edge per emitted segment, and there are at most (index count) / 3 segments. |
| Mulberry.FirstXorShiftInjective | scripts/utils.js:6 | The `t ^ t >>> 15` that opens the first round is injective on 32-bit values. |
| Mulberry.LastRoundInverts | scripts/utils.js:8 | The closing `t ^ t >>> 14` is undone by xoring in the copies shifted by 14 and 28. |
| Mulberry.MixLastRoundInjective | scripts/utils.js:5-8 | The state after the second round can be recovered from the mixer's output, so two states with the same output agree after the second round. |
| Mulberry.Unit | scripts/utils.js:8 | Dividing an unsigned 32-bit integer by 4294967296 gives a value in [0, 1), and the division is exact. |
| Mulberry.Value | scripts/utils.js:5-8 | Every value the closure returns lies in [0, 1). |
| Mulberry.Seed | scripts/utils.js:3 | `mulberry32(seed)` captures the seed as its state. |
| Mulberry.Next | scripts/utils.js:4-9 | Each call advances the state by exactly 0x6D2B79F5 and returns a value in [0, 1). |
| Mulberry.OutputsFollowNext | scripts/utils.js:4-9 | The value sequence is one call's value followed by the sequence of the generator that call leaves behind. |
| Mulberry.RunClosedForm | scripts/utils.js:5 | The `k`-th value of any step-then-output closure is its output at the start state plus `k + 1` steps. |
| Mulberry.OutputsClosedForm | scripts/utils.js:3-9 | The `k`-th value of `mulberry32(seed)` is the mixer applied to `seed + (k + 1) * 0x6D2B79F5`. |
| Mulberry.OutputsInUnitInterval | scripts/utils.js:8 | Every value in a generated sequence lies in [0, 1). |
| Mulberry.ValueDependsOnLow32Bits | scripts/utils.js:5-8 | A value depends only on the post-increment state modulo 2^32. |
| Mulberry.RunDependsOnLow32Bits | scripts/utils.js:5-8 | Two start states that agree modulo 2^32 give the same run, for any output map that sees only the low 32 bits. |
| Mulberry.SameLow32BitsSameOutputs | scripts/utils.js:3-9 | Seeds that agree modulo 2^32 give identical sequences, and so in particular does the same seed. |

## Left out

- `plane.intersectLine`, `Line3`, `setFromCoplanarPoints`, `fromBufferAttribute` and `mesh.localToWorld` are three.js floating-point geometry whose source is not part of this model. The crossing test is the parameter `hit`, and positions are taken as already in world space.
- `setPointOfIntersection` clones every hit so that emitted endpoints do not alias the reused target vector. Points are values here, so the copy has nothing left to model.
- Malformed meshes, meaning an index count that is not a multiple of three or an index out of range, are excluded by `ValidMesh`. JavaScript would read `undefined` and produce NaN coordinates.
- `findLines` consumes its input array with `shift()`, and `combine` mutates the current line in place. Lists and lines are immutable values here, and the caller never looks at the consumed array.
- Lines.FindLines: the input lines are assumed to be distinct objects. JavaScript mutates the current line in place, so passing the same `Line` twice behaves differently. With X=(0,0)–(1,0) and Z=(1,0)–(2,0), `findLines([X, Z, X])` closes X in the program but yields an open polyline here. `getIntersectionPoints` never passes a line twice.
- Mulberry.Imul and Mulberry.ToUint32: these transcribe `Math.imul` and ToUint32 directly. Their value as an integer modulo 2^32 is not stated as a lemma, because the conversion from an unbounded integer to `bv32` is beyond the solver. Likewise no known-answer value of `Mix` is stated. What is proved is that a value depends only on the state modulo 2^32 (`Mulberry.ValueDependsOnLow32Bits`), and that the two xorshift rounds are invertible.
- `console.time` and `console.timeEnd` have no effect on results and are not modelled.
- IEEE-754 rounding is not modelled. Coordinates and tolerance are exact reals, so `Math.abs(a - b) < tol` is exact.
- A tolerance of zero or less is not rejected by the code, and it is not rejected by the model either: no two points then match, as `ChainProofs.NearReflexiveIff` shows.
- Mulberry.Seed: only integer seeds are modelled. `mulberry32` accepts any Number, and the seed field of the settings panel (scripts/terraGen.js:78) can supply a fraction such as 12.5. JavaScript's bitwise operators and `Math.imul` would then truncate `seed + k * 0x6D2B79F5` toward zero, and non-finite seeds become 0. The model's integer state cannot express either case.
- Mulberry.Next: JavaScript stores the captured state `a` as a double. After enough calls to pass 2^53, `a += 0x6D2B79F5` would round. The model keeps `a` exact.
- Scene, GUI, material, shader and render-loop code (scripts/sandbox.js, scripts/terraGen.js, scripts/terrain.js, scripts/contour.js) are I/O and engine plumbing and are not part of this model. So are the Perlin heightfield (`ImprovedNoise`) and the global `Math.random` replacement.
- The older point-cloud `getIntersectionPoints` in scripts/utils.js only builds `THREE.Points`, and the newer slicer replaces it. The debugging grid in scripts/plane.js and the constant record in scripts/settings.js are left out as well.
