# Isolines and point location on triangular meshes

This project models three C routines of the OPNML mesh utilities. Each one
loops over the elements of an unstructured triangular mesh, writes into an
output buffer, and returns a count.

- `isopts` (`util/mex/contmex5.c`) extracts an ordinary isoline. For each
  element it sorts the three nodal values with up to three conditional swaps and skips the
  element when the contour value lies outside them. It writes a side of the
  element when two values coincide with the contour value within `TOL`
  (1e-10), and otherwise one interpolated segment. The rows go into `cmat`
  and their number goes into `*cnt`.
- `isophase` (`adcirc_util/mex/isopmex5.c`) extracts an isoline of a phase
  field. It skips elements with a NaN nodal value. Below contour value 1 it
  remaps phases above 180 by subtracting 360 and uses an edge-jump limit of
  260 (150 otherwise). It walks the directed edges (k, k+1 mod 3) and
  collects crossing points in the scratch tables `xp`/`yp`. An element with
  at least two points writes them, followed by one NaN/NaN break row.
- The point-location scan of `findelemex` (`util/mex/findelemex5.c`) starts
  every result at -1. For each element in order, it tests every unresolved
  query point against three area coordinates
  `S_k = (T_k + B_k*x + A_k*y) * 0.5/AR_j`, each widened to
  `[-tol, 1+tol]`. A point takes the first matching 1-based element number,
  and points still unresolved at the end become NaN.

Modules:

- `Mesh` (mesh.dfy) holds the shared vocabulary:
  - a value that may be missing (`Missing | Val(r)`, for NaN);
  - points and four-column segments;
  - the column-major index `Ele(i, j, m) = i + m*j`, which is both the
    `ELE` macro and the `AA`/`BB`/`TT` macros;
  - the mesh with its 0-based element table and each element's corners;
  - linear interpolation along an edge;
  - `Concat`, which lays per-element pieces of output one after another.
- `Contour` (contour.dfy), `PhaseContour` (phase.dfy) and `FindElem`
  (findelem.dfy) each model one routine.

Each module has the same layout:

- Pure specification functions describe what one element contributes and
  what the first k elements produce (`ContourUpTo`, `PhaseUpTo`, `Located`).
  Lemmas state the routine's promises about these functions.
- Imperative methods follow the C loops over Dafny arrays: swaps on
  `n0..n2`/`s0..s2`, the `nsw`/`icnt` flags, the `xp`/`yp`/`var`/`xx`/`yy`
  scratch arrays, and the in-place `fnd` array. Each method is proved to
  produce exactly the specified buffer contents and count, and to leave the
  rest of the buffer untouched.
- Every `goto` becomes an early return or an `if`, with the same branches
  in the same order.

One case in `isopts` is worth spelling out. Take the triangle A=(0,0),
B=(1,0), C=(0,1) with values 0, 5, 10 and contour value 5. One might expect
the edge B–C, since 5 is the value at B. The code instead takes the
interior branch: `cval < s1` is false, so the second fraction is
`(5-5)/(10-5) = 0` and the segment runs from the midpoint of A–C to vertex
B. `Contour.WorkedExample` proves this output.

## Model

| member | source | states |
|---|---|---|
| `Mesh.Ele` | util/mex/contmex5.c:122 | entry (i, j) of an m-row column-major table lies in column j's block `[j*m, (j+1)*m)` at offset i, inside the 3m-entry table |
| `Mesh.EleInjective` | util/mex/findelemex5.c:19-21 | two different (row, column) pairs never share a flat index, so the three coefficient columns of an element are distinct entries |
| `Mesh.TriMesh.Node` | util/mex/contmex5.c:140-145 | vertex j of element k read from the element table is a valid node number |
| `Mesh.TriMesh.Corners` | adcirc_util/mex/isopmex5.c:173-176 | an element has three corner points, corner j at the coordinates of its vertex j |
| `Mesh.Lerp` | util/mex/contmex5.c:216-218 | interpolating by fraction 0 gives the first end point, by fraction 1 the second |
| `Contour.SortedPositions` | util/mex/contmex5.c:140-163 | the positions 0, 1, 2 are listed once each, sorted by value, with equal values kept in their original order |
| `Contour.StableOrderUnique` | util/mex/contmex5.c:140-163 | a sorted order of three values that keeps ties in order is unique |
| `Contour.Arrange` | util/mex/contmex5.c:140-163 | after the three conditional swaps, s0 <= s1 <= s2 |
| `Contour.ArrangeIsStableSort` | util/mex/contmex5.c:140-163 | the swaps leave at each place the vertex of the stable sorted order, so (n0, n1, n2) is a permutation of the element's nodes with ties kept in order |
| `Contour.ArrangeElement` | util/mex/contmex5.c:140-163 | the imperative swap sequence on n0..n2, s0..s2 computes exactly `Arrange` of the element's vertices |
| `Contour.Fraction` | util/mex/contmex5.c:219-230 | the fraction along a side falls back to 1.0 when the side's two values are equal |
| `Contour.Classify` | util/mex/contmex5.c:171-214 | the element is skipped exactly when cval is below s0 or above s2, and the interior branch is taken only when s0 <= cval <= s2 with s0 and s2 at least TOL apart |
| `Contour.FractionSound` | util/mex/contmex5.c:216-230 | for distinct end values, interpolating the values by the fraction gives back cval; when cval lies between them the fraction is in [0, 1] |
| `Contour.ElementRows` | util/mex/contmex5.c:171-236 | an element writes at most three rows, and writes none exactly when cval is below s0 or above s2 |
| `Contour.Edge20Unreachable` | util/mex/contmex5.c:190-197 | with sorted values the side n2 -> n0 branch is never taken |
| `Contour.WholeUnreachable` | util/mex/contmex5.c:198-214 | the whole-element branch is never taken, whatever the order of the values |
| `Contour.ElementRowsCount` | util/mex/contmex5.c:171-214 | a sorted element writes no row when cval is outside [s0, s2] and exactly one row otherwise |
| `Contour.ElementOnSide` | util/mex/contmex5.c:174-189 | when s0 and s1 equal cval within TOL, the row is exactly vertex n0 to vertex n1; otherwise, when s1 and s2 do, it is exactly n1 to n2 |
| `Contour.InteriorSegment` | util/mex/contmex5.c:215-236 | in the interior branch s0 < s2, so the division is safe. Point A is on side n0-n2 and point B on n0-n1 (cval < s1) or n1-n2 (otherwise), each at a fraction in [0, 1] where the interpolated value is cval. The 1.0 fallback is never used |
| `Contour.WorkedExample` | util/mex/contmex5.c:215-230 | values 0, 5, 10 on A=(0,0), B=(1,0), C=(0,1) at cval 5 give the single segment from (0, 0.5) to (1, 0) |
| `Contour.Corner` | util/mex/contmex5.c:140-147 | the vertex read for element k carries a valid node number and that node's value |
| `Contour.ElementSegments` | util/mex/contmex5.c:140-236 | after its vertices are arranged, an element writes at most one row |
| `Contour.Pieces` | util/mex/contmex5.c:137-237 | one entry per element processed |
| `Contour.PiecesAt` | util/mex/contmex5.c:137-237 | entry l of the per-element rows is what element l writes |
| `Contour.ElementSegmentsCount` | util/mex/contmex5.c:171-214 | an element writes one row when its unsorted values span cval (some at most, some at least cval) and none otherwise |
| `Contour.ContourUpTo` | util/mex/contmex5.c:69-73 | the first k elements write at most k rows, so the whole mesh writes at most ne, well within the 6ne+1 rows allocated |
| `Contour.ContourCount` | util/mex/contmex5.c:137-239 | the number of rows is the number of elements whose values span cval |
| `Contour.ContourPrefix` | util/mex/contmex5.c:137-239 | rows appear in element order: the rows of the first j elements are a prefix of those of the first k |
| `Contour.ContourStep` | util/mex/contmex5.c:137-237 | one more element appends exactly its own rows |
| `Contour.WriteRows` | util/mex/contmex5.c:176-180 | the rows are stored at consecutive indices from count on, and nothing else in cmat changes |
| `Contour.ContourElement` | util/mex/contmex5.c:139-237 | one pass of the element loop appends element k's rows after those of elements 0..k-1, and leaves the rest of cmat unchanged |
| `Contour.IsoPts` | util/mex/contmex5.c:110-241 | cnt <= ne; cmat[0..cnt) holds exactly the rows of all elements in element order, and the rest of cmat is unchanged |
| `PhaseContour.PointRows` | adcirc_util/mex/isopmex5.c:220-223 | one row per collected point, carrying that point's two coordinates |
| `PhaseContour.Remap` | adcirc_util/mex/isopmex5.c:179-183 | below cval 1 a phase above 180 becomes itself minus 360; any other phase (cval >= 1, or phase <= 180) is kept. Below cval 1 a phase in [0, 360) is mapped into (-180, 180] |
| `PhaseContour.Limit` | adcirc_util/mex/isopmex5.c:177-182 | the edge-jump limit is 260 exactly when cval < 1 and 150 otherwise |
| `PhaseContour.Crosses` | adcirc_util/mex/isopmex5.c:195-200 | an edge is crossed exactly when cval lies between its two values, inclusive, and the jump along it is at most the limit |
| `PhaseContour.EdgeParam` | adcirc_util/mex/isopmex5.c:201-202 | the crossing fraction is 1 when the jump is at most 1e-7 |
| `PhaseContour.EdgeParamSound` | adcirc_util/mex/isopmex5.c:201-204 | above the 1e-7 threshold, interpolating by the fraction gives exactly cval. When cval lies between the values, the fraction is in [0, 1] and the interpolated value is within 1e-7 of cval |
| `PhaseContour.Next` | adcirc_util/mex/isopmex5.c:193-194 | the far end of edge k is vertex (k+1) mod 3 |
| `PhaseContour.EdgePoint` | adcirc_util/mex/isopmex5.c:192-215 | an edge contributes at most one point |
| `PhaseContour.Seed` | adcirc_util/mex/isopmex5.c:186-191 | the vertex test contributes at most one point |
| `PhaseContour.EdgesUpTo` | adcirc_util/mex/isopmex5.c:192-217 | the first n edges contribute at most n points |
| `PhaseContour.ElementPoints` | adcirc_util/mex/isopmex5.c:186-217 | an element collects at most four points (one vertex and three edges), so icnt stays within xp[6]/yp[6] |
| `PhaseContour.ElementPointsOnBoundary` | adcirc_util/mex/isopmex5.c:192-215 | every collected point lies on the boundary of the element |
| `PhaseContour.GenericElementTwoOrNone` | adcirc_util/mex/isopmex5.c:186-217 | when no vertex equals cval and no jump exceeds the limit, an element collects zero or exactly two points |
| `PhaseContour.SeededVertexRepeated` | adcirc_util/mex/isopmex5.c:186-215 | a vertex 0 equal to cval on a crossed edge 0->1 with jump above 1e-7 is collected twice, first by the vertex test and then as the start of that edge |
| `PhaseContour.WrappedExample` | adcirc_util/mex/isopmex5.c:172-217 | phases 350, 10, 20 at cval 0.5 are remapped to -10, 10, 20, and the element collects exactly two points |
| `PhaseContour.PhaseValues` | adcirc_util/mex/isopmex5.c:173-184 | an element has three remapped values in vertex order |
| `PhaseContour.HasMissing` | adcirc_util/mex/isopmex5.c:152-154 | an element is missing a value exactly when the nodal value at one of its three vertices is missing |
| `PhaseContour.PhaseElement` | adcirc_util/mex/isopmex5.c:149-217 | an element with a NaN nodal value collects nothing; every element collects at most four points |
| `PhaseContour.Emit` | adcirc_util/mex/isopmex5.c:218-227 | an element writes nothing with fewer than two points, and otherwise its points in order followed by one break row |
| `PhaseContour.Pieces` | adcirc_util/mex/isopmex5.c:147-228 | one entry of collected points per element processed |
| `PhaseContour.PiecesAt` | adcirc_util/mex/isopmex5.c:147-228 | entry l of the per-element points is what element l collects |
| `PhaseContour.PiecesShortAll` | adcirc_util/mex/isopmex5.c:186-215 | no element collects more than four points |
| `PhaseContour.GroupedAppend` | adcirc_util/mex/isopmex5.c:218-227 | appending one element's output to well-grouped rows keeps them well grouped |
| `PhaseContour.AssembleGrouped` | adcirc_util/mex/isopmex5.c:147-228 | the rows of pieces of at most four points, laid one after another, are well grouped: pieces of two to four defined points, each closed by exactly one break row |
| `PhaseContour.AssembleLength` | adcirc_util/mex/isopmex5.c:218-227 | the rows of pieces of at most four points number at most five per piece |
| `PhaseContour.PhaseUpTo` | adcirc_util/mex/isopmex5.c:74-78 | the rows of the first k elements are well grouped and number at most 5k, within the 6ne+1 rows allocated |
| `PhaseContour.PhaseStep` | adcirc_util/mex/isopmex5.c:147-228 | one more element appends exactly its own rows |
| `PhaseContour.PhasePrefix` | adcirc_util/mex/isopmex5.c:145-229 | rows appear in element order: the rows of the first j elements are a prefix of those of the first k |
| `PhaseContour.MissingElementSilent` | adcirc_util/mex/isopmex5.c:152-154 | an element with a missing nodal value adds no rows |
| `PhaseContour.Store` | adcirc_util/mex/isopmex5.c:205-215 | storing at index icnt extends the points held in xp[1..icnt]/yp[1..icnt] by the new point |
| `PhaseContour.CrossingPoint` | adcirc_util/mex/isopmex5.c:203-204 | the coordinates `v1*(xb-xa)+xa`, `v1*(yb-ya)+ya` are the interpolated point at fraction v1 |
| `PhaseContour.CrossEdge` | adcirc_util/mex/isopmex5.c:193-204 | the between test and jump test succeed exactly when the edge contributes a point, and then the computed point is that point |
| `PhaseContour.CollectEdge` | adcirc_util/mex/isopmex5.c:192-216 | one pass of the edge loop appends the edge's point, if any, to xp/yp and keeps nsw set exactly when icnt > 0 |
| `PhaseContour.CollectCrossings` | adcirc_util/mex/isopmex5.c:186-217 | the vertex test and the edge loop leave exactly the element's collected points in xp[1..icnt]/yp[1..icnt], with nsw set exactly when icnt > 0 |
| `PhaseContour.LoadElement` | adcirc_util/mex/isopmex5.c:172-184 | the vertex loop leaves the element's remapped values and corners in var/xx/yy, and the limit chosen by cval |
| `PhaseContour.ElementCrossings` | adcirc_util/mex/isopmex5.c:172-217 | for an element without NaN, xp/yp end up holding exactly the points the element collects |
| `PhaseContour.WritePiece` | adcirc_util/mex/isopmex5.c:218-227 | the emission writes exactly the element's output rows at count, at most five, and changes nothing else |
| `PhaseContour.WritePoints` | adcirc_util/mex/isopmex5.c:219-223 | xp[1..icnt] and yp[1..icnt] are written as rows from count on, in order, and nothing else in cmat changes |
| `PhaseContour.PhaseElementRows` | adcirc_util/mex/isopmex5.c:147-228 | one pass of the element loop, including the NaN skip, appends element l's rows after those of elements 0..l-1, and leaves the rest of cmat unchanged |
| `PhaseContour.IsoPhase` | adcirc_util/mex/isopmex5.c:119-231 | cnt <= 5*ne; cmat[0..cnt) holds exactly the rows of all elements in element order, and the rest of cmat is unchanged |
| `FindElem.AreaCoord` | util/mex/findelemex5.c:75-80 | S_k times 2*AR_j is T_k + B_k*x + A_k*y, with the coefficients of vertex k of element j read at flat index j + ne*k |
| `FindElem.Rejects` | util/mex/findelemex5.c:77-81 | the bitwise or of the two comparisons rejects exactly the quantities above 1+tol or below -tol, like a logical or |
| `FindElem.ContainsWithin` | util/mex/findelemex5.c:70-81 | an element passes the test exactly when its three area coordinates all lie in [-tol, 1+tol] |
| `FindElem.Found` | util/mex/findelemex5.c:72-86 | an element recorded after the first n elements is one of them |
| `FindElem.FoundFirst` | util/mex/findelemex5.c:72-86 | the recorded element contains the point and no earlier element does; nothing is recorded exactly when none of the first n elements contains the point |
| `FindElem.FoundIsFirst` | util/mex/findelemex5.c:72-86 | conversely, the first containing element is the one recorded |
| `FindElem.FoundStable` | util/mex/findelemex5.c:74-82 | once an element is recorded for a point it never changes |
| `FindElem.Located` | util/mex/findelemex5.c:82-87 | a result that is not NaN is an integer in 1..ne |
| `FindElem.LocatedMeaning` | util/mex/findelemex5.c:72-87 | a result is NaN exactly when no element contains the point, and is j+1 exactly when j is the first element that contains it, so it lies in 1..ne |
| `FindElem.NoElements` | util/mex/findelemex5.c:72-87 | with no elements every result is NaN |
| `FindElem.TestElement` | util/mex/findelemex5.c:75-81 | the test computes S1, S2, S3 in turn, stopping at the first rejected one, and accepts exactly when the element contains the point |
| `FindElem.ScanElement` | util/mex/findelemex5.c:73-85 | one pass of the point loop for element j takes every entry from the state after elements 0..j-1 to the state after elements 0..j |
| `FindElem.MarkMissing` | util/mex/findelemex5.c:87 | the last loop turns the entries still at -1 into NaN and keeps the others, giving the final results |
| `FindElem.FindElements` | util/mex/findelemex5.c:68-87 | a fresh array of one entry per query point, each the 1-based first containing element or NaN |

## Left out

- The MEX marshalling of each `mexFunction` is a foreign host API and is left out: argument checks, `mxGetPr`/`mxGetM`, `mxCreateDoubleMatrix`/`mxSetPr`, and the transposition of `cmat` into `newcmat`. The model takes arrays and sequences directly.
- The `(int)dele - 1` shift of node numbers is left out: the element table is taken already 0-based. It must reference valid nodes (`TriMesh.Valid`), which the C code assumes without checking.
- The NRC-style allocators (`mxDmatrix`, `mxDvector`, `mxIvector`) are left out: util/mex/opnml_mex5_allocs.c is not part of this model. Buffers are Dafny arrays.
- IEEE double rounding is left out: values are mathematical reals, and the `TOL`, `1e-7` and `[-tol, 1+tol]` comparisons are exact comparisons on reals.
- NaN is the `Missing` constructor, and `mxGetNaN`/`mxIsNaN` are the constructor and its test. Rows and results are `Value`s.
- The `#ifdef DEBUG` printing block of `isophase` (adcirc_util/mex/isopmex5.c:156-170) is compiled out and is not modelled.
- `isopts` has no missing-value handling, so the ordinary field is all reals.
- `IsoPts`: the model requires `cmat` to have at least `ne` rows, not the `6*ne+1` the caller allocates. `ContourUpTo` shows that `ne` rows are enough.
- `IsoPhase`: the model requires `cmat` to have at least `5*ne` rows, not `6*ne+1`. `PhaseUpTo` shows that `5*ne` rows are enough.
- `FindElements`: the model requires every `AR[j]` to be nonzero. In the C code, `0.5/AR[j]` with a zero scale produces IEEE infinities or NaN, and that is part of the floating-point behaviour left out.
- `FindElements`: the result array has `np` entries. The C code allocates `np+1` entries and never uses the last one.
- `PhaseElementRows`: the scratch arrays `var`/`xx`/`yy` and `xp`/`yp` are allocated afresh for each element, not once per call. Their contents are fully rewritten before each use in the C code as well.
- `CollectCrossings`: `icnt` starts at 0 for each element. In the C code it keeps its old value while `nsw` is 0, and it is read only when `nsw` is 1.
