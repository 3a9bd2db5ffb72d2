// Phase isoline extraction (isophase): per element with no missing value,
// remap the phases for contours near zero, walk the three directed edges,
// collect the points where the contour value is crossed, and emit them as
// one polyline piece closed by a missing/missing break row.
module PhaseContour {
  import opened Mesh

  /** Edge-jump limit of the general regime (plmt). */
  const PLMT: real := 150.0
  /** Edge-jump limit of the near-zero regime, cval < 1 (p0lmt). */
  const P0LMT: real := 260.0
  /** Below this difference the crossing fraction falls back to 1. */
  const SMALL: real := 1.0e-7

  /** One two-column row of the output buffer. */
  datatype Row = Row(x: Value, y: Value)

  /** The break row that ends each element's polyline piece. */
  const BreakRow: Row := Row(Missing, Missing)

  function PointRow(p: Point): Row {
    Row(Val(p.x), Val(p.y))
  }

  function PointRows(pts: seq<Point>): (rows: seq<Row>)
    ensures |rows| == |pts|
    ensures forall i :: 0 <= i < |pts| ==> rows[i] == PointRow(pts[i])
  {
    seq(|pts|, i requires 0 <= i < |pts| => PointRow(pts[i]))
  }

  // ---------------------------------------------------------------------
  // Vertex values and edges
  // ---------------------------------------------------------------------

  /** A phase as the crossing tests see it: for a contour value below 1
      a phase above 180 is taken as the same angle minus 360. */
  function Remap(v: real, cval: real): (r: real)
    ensures r == v || r == v - 360.0
    ensures cval >= 1.0 ==> r == v
    ensures v <= 180.0 ==> r == v
    ensures cval < 1.0 && v > 180.0 ==> r == v - 360.0
    ensures cval < 1.0 && 0.0 <= v < 360.0 ==> -180.0 < r <= 180.0
  {
    if cval < 1.0 && v > 180.0 then v - 360.0 else v
  }

  /** The edge-jump limit: the wider one exactly in the near-zero regime. */
  function Limit(cval: real): (vlmt: real)
    ensures vlmt == P0LMT || vlmt == PLMT
    ensures vlmt == P0LMT <==> cval < 1.0
  {
    if cval < 1.0 then P0LMT else PLMT
  }

  /** The edge from value a to value b is crossed: cval lies between the
      two values, inclusive, and the jump along the edge is within the
      limit. */
  function Crosses(a: real, b: real, cval: real, vlmt: real): (r: bool)
    ensures r <==> (a <= cval <= b || b <= cval <= a) && Abs(b - a) <= vlmt
  {
    var between := if a > b then !(cval < b || cval > a) else !(cval < a || cval > b);
    between && !(Abs(b - a) > vlmt)
  }

  /** The crossing fraction v1 from a towards b; 1 when the two values
      are too close to divide by their difference. */
  function EdgeParam(a: real, b: real, cval: real): (f: real)
    ensures Abs(b - a) <= SMALL ==> f == 1.0
  {
    if Abs(b - a) > SMALL then (cval - a) / (b - a) else 1.0
  }

  /** The fraction interpolates to cval exactly unless the fallback was
      taken; between the two values it lies in [0, 1], and the value
      interpolated there is within SMALL of cval in every case. */
  lemma EdgeParamSound(a: real, b: real, cval: real)
    ensures Abs(b - a) > SMALL ==> a + (b - a) * EdgeParam(a, b, cval) == cval
    ensures (a <= cval <= b || b <= cval <= a) ==>
              0.0 <= EdgeParam(a, b, cval) <= 1.0 && Abs(a + (b - a) * EdgeParam(a, b, cval) - cval) <= SMALL
  {
    var f := EdgeParam(a, b, cval);
    var d := b - a;
    if Abs(d) > SMALL {
      assert f == (cval - a) / d;
      assert d * f == cval - a;
      if a <= cval <= b || b <= cval <= a {
        QuotientInUnit(cval - a, d);
      }
    }
  }

  /** A quotient of two same-signed values, the numerator no larger in
      magnitude, lies in [0, 1]. */
  lemma QuotientInUnit(n: real, d: real)
    requires d != 0.0 && (0.0 <= n <= d || d <= n <= 0.0)
    ensures 0.0 <= n / d <= 1.0
  {
  }

  /** The edge after vertex k: (k, k+1 mod 3). */
  function Next(k: nat): (k2: nat)
    requires k < NVERT
    ensures k2 < NVERT && k2 == (k + 1) % NVERT
  {
    if k + 1 > NVERT - 1 then 0 else k + 1
  }

  /** The point edge k contributes: none, or its crossing point. */
  function EdgePoint(v: seq<real>, p: seq<Point>, cval: real, vlmt: real, k: nat): (r: seq<Point>)
    requires |v| == NVERT && |p| == NVERT && k < NVERT
    ensures |r| <= 1
  {
    var k2 := Next(k);
    if Crosses(v[k], v[k2], cval, vlmt) then [Lerp(p[k], p[k2], EdgeParam(v[k], v[k2], cval))] else []
  }

  /** Points of edges 0 .. n-1, in edge order. */
  function EdgesUpTo(v: seq<real>, p: seq<Point>, cval: real, vlmt: real, n: nat): (r: seq<Point>)
    requires |v| == NVERT && |p| == NVERT && n <= NVERT
    ensures |r| <= n
  {
    if n == 0 then [] else EdgesUpTo(v, p, cval, vlmt, n - 1) + EdgePoint(v, p, cval, vlmt, n - 1)
  }

  /** Vertex 0, and only vertex 0, is tested for equality with cval. */
  function Seed(v: seq<real>, p: seq<Point>, cval: real): (r: seq<Point>)
    requires |v| == NVERT && |p| == NVERT
    ensures |r| <= 1
  {
    if cval == v[0] then [p[0]] else []
  }

  /** All points an element with (remapped) values v and corners p
      collects: the seeded vertex, then the edge crossings in edge order;
      at most one vertex plus three edges. */
  function ElementPoints(v: seq<real>, p: seq<Point>, cval: real, vlmt: real): (r: seq<Point>)
    requires |v| == NVERT && |p| == NVERT
    ensures |r| <= 4
  {
    Seed(v, p, cval) + EdgesUpTo(v, p, cval, vlmt, NVERT)
  }

  /** The three edges' contributions, spelled out. */
  lemma EdgesUpToAll(v: seq<real>, p: seq<Point>, cval: real, vlmt: real)
    requires |v| == NVERT && |p| == NVERT
    ensures EdgesUpTo(v, p, cval, vlmt, NVERT) ==
              EdgePoint(v, p, cval, vlmt, 0) + EdgePoint(v, p, cval, vlmt, 1) + EdgePoint(v, p, cval, vlmt, 2)
  {
    assert EdgesUpTo(v, p, cval, vlmt, 1) == EdgePoint(v, p, cval, vlmt, 0);
  }

  /** Every collected point lies on the boundary of the element. */
  lemma ElementPointsOnBoundary(v: seq<real>, p: seq<Point>, cval: real, vlmt: real)
    requires |v| == NVERT && |p| == NVERT
    ensures forall i :: 0 <= i < |ElementPoints(v, p, cval, vlmt)| ==>
              OnBoundary(ElementPoints(v, p, cval, vlmt)[i], p[0], p[1], p[2])
  {
    var r := ElementPoints(v, p, cval, vlmt);
    assert Lerp(p[0], p[1], 0.0) == p[0];
    forall k | 0 <= k < NVERT
      ensures forall i :: 0 <= i < |EdgePoint(v, p, cval, vlmt, k)| ==>
                OnBoundary(EdgePoint(v, p, cval, vlmt, k)[i], p[0], p[1], p[2])
    {
      var k2 := Next(k);
      if Crosses(v[k], v[k2], cval, vlmt) {
        var f := EdgeParam(v[k], v[k2], cval);
        EdgeParamSound(v[k], v[k2], cval);
        assert OnEdge(Lerp(p[k], p[k2], f), p[k], p[k2]);
      }
    }
    EdgesUpToAll(v, p, cval, vlmt);
  }

  /** When no vertex equals cval and no edge jump exceeds the limit, the
      boundary is crossed an even number of times: the element collects
      no point or exactly two. */
  lemma GenericElementTwoOrNone(v: seq<real>, p: seq<Point>, cval: real, vlmt: real)
    requires |v| == NVERT && |p| == NVERT
    requires v[0] != cval && v[1] != cval && v[2] != cval
    requires Abs(v[1] - v[0]) <= vlmt && Abs(v[2] - v[1]) <= vlmt && Abs(v[0] - v[2]) <= vlmt
    ensures |ElementPoints(v, p, cval, vlmt)| == 0 || |ElementPoints(v, p, cval, vlmt)| == 2
  {
    EdgesUpToAll(v, p, cval, vlmt);
  }

  /** A vertex 0 that equals cval is collected twice when edge 0 -> 1 is
      crossed with a jump above SMALL: once by the equality test, once as
      the start of that edge. */
  lemma SeededVertexRepeated(v: seq<real>, p: seq<Point>, cval: real, vlmt: real)
    requires |v| == NVERT && |p| == NVERT
    requires v[0] == cval && SMALL < Abs(v[1] - v[0]) <= vlmt
    ensures |ElementPoints(v, p, cval, vlmt)| >= 2
    ensures ElementPoints(v, p, cval, vlmt)[0] == p[0] && ElementPoints(v, p, cval, vlmt)[1] == p[0]
  {
    assert EdgeParam(v[0], v[1], cval) == 0.0;
    EdgesUpToAll(v, p, cval, vlmt);
  }

  /** Phases 350, 10, 20 at contour value 0.5: 350 is remapped to -10,
      so the edges -10 -> 10 and 20 -> -10 are crossed within the wider
      limit and the element collects exactly two points. */
  lemma WrappedExample(p: seq<Point>)
    requires |p| == NVERT
    ensures [Remap(350.0, 0.5), Remap(10.0, 0.5), Remap(20.0, 0.5)] == [-10.0, 10.0, 20.0]
    ensures |ElementPoints([Remap(350.0, 0.5), Remap(10.0, 0.5), Remap(20.0, 0.5)], p, 0.5, Limit(0.5))| == 2
  {
    var v := [Remap(350.0, 0.5), Remap(10.0, 0.5), Remap(20.0, 0.5)];
    assert v == [-10.0, 10.0, 20.0];
    EdgesUpToAll(v, p, 0.5, Limit(0.5));
  }

  // ---------------------------------------------------------------------
  // The whole mesh
  // ---------------------------------------------------------------------

  predicate PhaseOn(m: TriMesh, pha: seq<Value>) {
    m.Valid() && |pha| == |m.x|
  }

  /** Element l has a missing nodal value at one of its vertices. */
  predicate HasMissing(m: TriMesh, pha: seq<Value>, l: nat)
    requires PhaseOn(m, pha) && l < m.ne
    ensures HasMissing(m, pha, l) <==> exists j :: 0 <= j < NVERT && pha[m.Node(l, j)].Missing?
  {
    pha[m.Node(l, 0)].Missing? || pha[m.Node(l, 1)].Missing? || pha[m.Node(l, 2)].Missing?
  }

  /** Remapped nodal values of element l, in vertex order. */
  function PhaseValues(m: TriMesh, pha: seq<Value>, cval: real, l: nat): (v: seq<real>)
    requires PhaseOn(m, pha) && l < m.ne && !HasMissing(m, pha, l)
    ensures |v| == NVERT
  {
    [Remap(pha[m.Node(l, 0)].v, cval), Remap(pha[m.Node(l, 1)].v, cval), Remap(pha[m.Node(l, 2)].v, cval)]
  }

  /** The points element l collects; none when a value is missing. */
  function PhaseElement(m: TriMesh, pha: seq<Value>, cval: real, l: nat): (pts: seq<Point>)
    requires PhaseOn(m, pha) && l < m.ne
    ensures |pts| <= 4
    ensures HasMissing(m, pha, l) ==> pts == []
  {
    if HasMissing(m, pha, l) then []
    else ElementPoints(PhaseValues(m, pha, cval, l), m.Corners(l), cval, Limit(cval))
  }

  /** What an element with collected points pts appends: nothing with
      fewer than two points, else the points and one break row. */
  function Emit(pts: seq<Point>): (rows: seq<Row>)
    ensures |pts| < 2 ==> rows == []
    ensures |pts| >= 2 ==> |rows| == |pts| + 1 && rows[|pts|] == BreakRow && rows[..|pts|] == PointRows(pts)
  {
    if |pts| >= 2 then PointRows(pts) + [BreakRow] else []
  }

  /** The points of elements 0 .. k-1, one entry per element. */
  function Pieces(m: TriMesh, pha: seq<Value>, cval: real, k: nat): (ps: seq<seq<Point>>)
    requires PhaseOn(m, pha) && k <= m.ne
    ensures |ps| == k
  {
    if k == 0 then [] else Pieces(m, pha, cval, k - 1) + [PhaseElement(m, pha, cval, k - 1)]
  }

  /** Entry l of the pieces is the points of element l. */
  lemma {:induction false} PiecesAt(m: TriMesh, pha: seq<Value>, cval: real, k: nat, l: nat)
    requires PhaseOn(m, pha) && l < k <= m.ne
    ensures Pieces(m, pha, cval, k)[l] == PhaseElement(m, pha, cval, l)
  {
    if l < k - 1 {
      PiecesAt(m, pha, cval, k - 1, l);
    }
  }

  /** No element collects more than four points. */
  lemma PiecesShortAll(m: TriMesh, pha: seq<Value>, cval: real, k: nat)
    requires PhaseOn(m, pha) && k <= m.ne
    ensures forall l :: 0 <= l < k ==> |Pieces(m, pha, cval, k)[l]| <= 4
  {
    forall l | 0 <= l < k
      ensures |Pieces(m, pha, cval, k)[l]| <= 4
    {
      PiecesAt(m, pha, cval, k, l);
    }
  }

  /** The rows each piece of points writes, piece by piece. */
  function Emitted(pieces: seq<seq<Point>>): (rs: seq<seq<Row>>)
    ensures |rs| == |pieces|
  {
    if |pieces| == 0 then [] else Emitted(pieces[..|pieces| - 1]) + [Emit(pieces[|pieces| - 1])]
  }

  /** The output rows of elements 0 .. k-1, in element order: well-grouped
      polyline pieces, at most five rows per element. */
  function PhaseUpTo(m: TriMesh, pha: seq<Value>, cval: real, k: nat): (rows: seq<Row>)
    requires PhaseOn(m, pha) && k <= m.ne
    ensures Grouped(rows)
    ensures |rows| <= 5 * k
  {
    var ps := Pieces(m, pha, cval, k);
    PiecesShortAll(m, pha, cval, k);
    AssembleGrouped(ps);
    AssembleLength(ps);
    Concat(Emitted(ps))
  }

  predicate EndsWithBreak(rows: seq<Row>) {
    rows == [] || rows[|rows| - 1] == BreakRow
  }

  /** Every row is a break or carries two real coordinates. */
  predicate RowsDefined(rows: seq<Row>) {
    forall i :: 0 <= i < |rows| ==> rows[i] == BreakRow || (rows[i].x.Val? && rows[i].y.Val?)
  }

  /** The number of point rows in the run that ends at index i. */
  function Run(rows: seq<Row>, i: nat): (n: nat)
    requires i < |rows|
    ensures n <= i + 1
    ensures n == 0 <==> rows[i] == BreakRow
  {
    if rows[i] == BreakRow then 0 else if i == 0 then 1 else 1 + Run(rows, i - 1)
  }

  /** Every break row closes a piece of at least two points. */
  predicate BreaksClose(rows: seq<Row>) {
    forall i :: 0 < i < |rows| && rows[i] == BreakRow ==> Run(rows, i - 1) >= 2
  }

  /** No piece has more than four points. */
  predicate PiecesShort(rows: seq<Row>) {
    forall i :: 0 <= i < |rows| ==> Run(rows, i) <= 4
  }

  /** The output is a sequence of polyline pieces of two to four points,
      each followed by one break row, with nothing else in it. */
  predicate Grouped(rows: seq<Row>) {
    EndsWithBreak(rows) && RowsDefined(rows) && (|rows| > 0 ==> rows[0] != BreakRow) &&
    BreaksClose(rows) && PiecesShort(rows)
  }

  lemma GroupedAppend(rows: seq<Row>, pts: seq<Point>)
    requires Grouped(rows) && |pts| <= 4
    ensures Grouped(rows + Emit(pts))
  {
    var g := Emit(pts);
    if |pts| < 2 {
      assert rows + g == rows;
    } else {
      assert g == PointRows(pts) + [BreakRow];
      assert OnePiece(g);
      AppendDefined(rows, g);
      AppendRuns(rows, g);
    }
  }

  /** A piece of two to four point rows followed by a break. */
  predicate OnePiece(g: seq<Row>) {
    3 <= |g| <= 5 && g[|g| - 1] == BreakRow &&
    forall i :: 0 <= i < |g| - 1 ==> g[i].x.Val? && g[i].y.Val?
  }

  lemma AppendDefined(rows: seq<Row>, g: seq<Row>)
    requires RowsDefined(rows) && OnePiece(g)
    ensures RowsDefined(rows + g) && EndsWithBreak(rows + g)
  {
    var out := rows + g;
    forall i | 0 <= i < |out|
      ensures out[i] == BreakRow || (out[i].x.Val? && out[i].y.Val?)
    {
      if i >= |rows| {
        assert out[i] == g[i - |rows|];
      }
    }
  }

  /** Appending leaves the runs inside rows as they were. */
  lemma {:induction false} RunPrefix(rows: seq<Row>, g: seq<Row>, i: nat)
    requires i < |rows|
    ensures Run(rows + g, i) == Run(rows, i)
  {
    assert (rows + g)[i] == rows[i];
    if i > 0 {
      RunPrefix(rows, g, i - 1);
    }
  }

  /** Inside the appended piece the run counts its point rows so far. */
  lemma {:induction false} RunPiece(rows: seq<Row>, g: seq<Row>, i: nat)
    requires EndsWithBreak(rows) && OnePiece(g) && |rows| <= i < |rows| + |g| - 1
    ensures Run(rows + g, i) == i - |rows| + 1
  {
    var out := rows + g;
    assert out[i] == g[i - |rows|];
    assert out[i] != BreakRow;
    if i > |rows| {
      RunPiece(rows, g, i - 1);
    } else if i > 0 {
      assert out[i - 1] == rows[|rows| - 1];
    }
  }

  lemma AppendRuns(rows: seq<Row>, g: seq<Row>)
    requires Grouped(rows) && OnePiece(g)
    ensures (rows + g)[0] != BreakRow && BreaksClose(rows + g) && PiecesShort(rows + g)
  {
    var out := rows + g;
    if |rows| == 0 {
      assert out[0] == g[0];
    } else {
      assert out[0] == rows[0];
    }
    forall i | 0 <= i < |out|
      ensures Run(out, i) <= 4
    {
      if i < |rows| {
        RunPrefix(rows, g, i);
      } else if i < |out| - 1 {
        RunPiece(rows, g, i);
      } else {
        assert out[i] == g[|g| - 1];
      }
    }
    forall i | 0 < i < |out| && out[i] == BreakRow
      ensures Run(out, i - 1) >= 2
    {
      if i < |rows| {
        assert out[i] == rows[i];
        RunPrefix(rows, g, i - 1);
      } else {
        assert out[i] == g[i - |rows|];
        assert i == |out| - 1;
        RunPiece(rows, g, i - 1);
      }
    }
  }

  /** One more piece appends exactly its rows. */
  lemma EmittedSnoc(pieces: seq<seq<Point>>, pts: seq<Point>)
    ensures Concat(Emitted(pieces + [pts])) == Concat(Emitted(pieces)) + Emit(pts)
  {
    assert (pieces + [pts])[..|pieces|] == pieces;
    ConcatSnoc(Emitted(pieces), Emit(pts));
  }

  /** Pieces of at most four points assemble into well-grouped rows. */
  lemma {:induction false} AssembleGrouped(pieces: seq<seq<Point>>)
    requires forall l :: 0 <= l < |pieces| ==> |pieces[l]| <= 4
    ensures Grouped(Concat(Emitted(pieces)))
  {
    if |pieces| > 0 {
      var init, last := pieces[..|pieces| - 1], pieces[|pieces| - 1];
      AssembleGrouped(init);
      GroupedAppend(Concat(Emitted(init)), last);
      assert pieces == init + [last];
      EmittedSnoc(init, last);
    }
  }

  /** Each piece adds at most five rows (four points and a break). */
  lemma {:induction false} AssembleLength(pieces: seq<seq<Point>>)
    requires forall l :: 0 <= l < |pieces| ==> |pieces[l]| <= 4
    ensures |Concat(Emitted(pieces))| <= 5 * |pieces|
  {
    if |pieces| > 0 {
      var init, last := pieces[..|pieces| - 1], pieces[|pieces| - 1];
      AssembleLength(init);
      assert pieces == init + [last];
      EmittedSnoc(init, last);
    }
  }

  /** One more element appends exactly its own rows. */
  lemma PhaseStep(m: TriMesh, pha: seq<Value>, cval: real, l: nat)
    requires PhaseOn(m, pha) && l < m.ne
    ensures PhaseUpTo(m, pha, cval, l + 1) == PhaseUpTo(m, pha, cval, l) + Emit(PhaseElement(m, pha, cval, l))
  {
    EmittedSnoc(Pieces(m, pha, cval, l), PhaseElement(m, pha, cval, l));
  }

  /** Rows are written in element order: the rows of the first j
      elements are a prefix of those of the first k. */
  lemma {:induction false} PhasePrefix(m: TriMesh, pha: seq<Value>, cval: real, j: nat, k: nat)
    requires PhaseOn(m, pha) && j <= k <= m.ne
    ensures PhaseUpTo(m, pha, cval, j) <= PhaseUpTo(m, pha, cval, k)
  {
    if j < k {
      PhasePrefix(m, pha, cval, j, k - 1);
      PhaseStep(m, pha, cval, k - 1);
      PrefixOfAppend(PhaseUpTo(m, pha, cval, j), PhaseUpTo(m, pha, cval, k - 1), Emit(PhaseElement(m, pha, cval, k - 1)));
    }
  }

  /** An element with a missing nodal value writes nothing. */
  lemma MissingElementSilent(m: TriMesh, pha: seq<Value>, cval: real, l: nat)
    requires PhaseOn(m, pha) && l < m.ne && HasMissing(m, pha, l)
    ensures PhaseUpTo(m, pha, cval, l + 1) == PhaseUpTo(m, pha, cval, l)
  {
    PhaseStep(m, pha, cval, l);
  }

  // ---------------------------------------------------------------------
  // The routine
  // ---------------------------------------------------------------------

  /** isophase: writes the rows of the whole mesh to cmat and returns
      their number; the rest of cmat is left alone. */
  method IsoPhase(ne: nat, x: array<real>, y: array<real>, ele: array<int>, pha: array<Value>, cval: real,
                  cmat: array<Row>) returns (cnt: nat)
    requires PhaseOn(TriMesh(x[..], y[..], ele[..], ne), pha[..])
    requires cmat.Length >= 5 * ne
    modifies cmat
    ensures cnt <= 5 * ne
    ensures cmat[..cnt] == PhaseUpTo(TriMesh(x[..], y[..], ele[..], ne), pha[..], cval, ne)
    ensures cmat[cnt..] == old(cmat[cnt..])
  {
    ghost var m := TriMesh(x[..], y[..], ele[..], ne);
    ghost var orig := cmat[..];
    var count: nat := 0;
    for l := 0 to ne
      invariant count <= 5 * l
      invariant cmat[..count] == PhaseUpTo(m, pha[..], cval, l)
      invariant cmat[count..] == orig[count..]
    {
      count := PhaseElementRows(m, ne, x, y, ele, pha, cval, cmat, orig, l, count);
    }
    cnt := count;
  }

  /** The body of the element loop for element l: appends the element's
      rows to those of the elements before it, leaving the rest of cmat
      as it was on entry (orig). The scratch tables are local to the
      element. */
  method PhaseElementRows(ghost m: TriMesh, ne: nat, x: array<real>, y: array<real>, ele: array<int>,
                          pha: array<Value>, cval: real, cmat: array<Row>, ghost orig: seq<Row>,
                          l: nat, count: nat)
    returns (count': nat)
    requires PhaseOn(m, pha[..]) && m == TriMesh(x[..], y[..], ele[..], ne) && l < ne
    requires count <= 5 * l && 5 * ne <= cmat.Length && |orig| == cmat.Length
    requires cmat[..count] == PhaseUpTo(m, pha[..], cval, l)
    requires cmat[count..] == orig[count..]
    modifies cmat
    ensures count' <= 5 * (l + 1)
    ensures cmat[..count'] == PhaseUpTo(m, pha[..], cval, l + 1)
    ensures cmat[count'..] == orig[count'..]
  {
    PhaseStep(m, pha[..], cval, l);
    var n0 := ele[Ele(l, 0, ne)];
    var n1 := ele[Ele(l, 1, ne)];
    var n2 := ele[Ele(l, 2, ne)];
    var test := pha[n0].Missing? || pha[n1].Missing? || pha[n2].Missing?;
    if test {
      return count;
    }
    var pts, xp, yp, nsw, icnt := ElementCrossings(m, ne, x, y, ele, pha, cval, l);
    ghost var before := cmat[..];
    count' := WritePiece(cmat, count, pts, xp, yp, nsw, icnt);
    SuffixFrom(before, orig, count, count');
  }

  /** The scratch tables xp, yp hold the points acc at indices 1 .. |acc|
      (index 0 is unused, as in isophase). */
  ghost predicate Holds(xp: array<real>, yp: array<real>, acc: seq<Point>)
    reads xp, yp
  {
    xp.Length == 6 && yp.Length == 6 && |acc| < 6 &&
    forall i :: 1 <= i <= |acc| ==> xp[i] == acc[i - 1].x && yp[i] == acc[i - 1].y
  }

  /** The scratch tables vals, xx, yy hold an element's values vs and
      corners ps at indices 0 .. 2. */
  ghost predicate Loaded(vals: array<real>, xx: array<real>, yy: array<real>, vs: seq<real>, ps: seq<Point>)
    reads vals, xx, yy
  {
    |vs| == NVERT && |ps| == NVERT && vals.Length >= NVERT && xx.Length >= NVERT && yy.Length >= NVERT &&
    forall i :: 0 <= i < NVERT ==> vals[i] == vs[i] && xx[i] == ps[i].x && yy[i] == ps[i].y
  }

  /** Writes the collected points xp[1..icnt], yp[1..icnt] and a break
      row at count when there are at least two of them. */
  method WritePiece(cmat: array<Row>, count: nat, ghost pts: seq<Point>, xp: array<real>, yp: array<real>,
                    nsw: bool, icnt: nat) returns (count': nat)
    requires count + 5 <= cmat.Length && |pts| <= 4
    requires (nsw <==> icnt > 0) && icnt == |pts| && Holds(xp, yp, pts)
    modifies cmat
    ensures count' <= count + 5
    ensures cmat[..count'] == old(cmat[..count]) + Emit(pts)
    ensures cmat[count'..] == old(cmat[count'..])
  {
    count' := count;
    if nsw && icnt > 1 {
      count' := WritePoints(cmat, count, pts, xp, yp, icnt);
      ghost var mid := cmat[..];
      cmat[count'] := BreakRow;
      assert cmat[..count' + 1] == mid[..count'] + [BreakRow];
      assert cmat[count' + 1..] == mid[count' + 1..];
      count' := count' + 1;
    }
  }

  /** The point rows of the emission: xp[i], yp[i] for i = 1 .. icnt. */
  method WritePoints(cmat: array<Row>, count: nat, ghost pts: seq<Point>, xp: array<real>, yp: array<real>,
                     icnt: nat) returns (count': nat)
    requires count + |pts| < cmat.Length && icnt == |pts| && Holds(xp, yp, pts)
    modifies cmat
    ensures count' == count + |pts|
    ensures cmat[..count'] == old(cmat[..count]) + PointRows(pts)
    ensures cmat[count'..] == old(cmat[count'..])
  {
    count' := count;
    for i := 1 to icnt + 1
      invariant count' == count + i - 1
      invariant cmat[..count'] == old(cmat[..count]) + PointRows(pts[..i - 1])
      invariant cmat[count'..] == old(cmat[count'..])
    {
      cmat[count'] := Row(Val(xp[i]), Val(yp[i]));
      count' := count' + 1;
      assert PointRows(pts[..i]) == PointRows(pts[..i - 1]) + [PointRow(pts[i - 1])];
    }
    assert pts[..|pts|] == pts;
  }

  /** The vertex loop and the edge loop for an element with no missing
      value: the collected points, held in xp[1..icnt] and yp[1..icnt]. */
  method ElementCrossings(ghost m: TriMesh, ne: nat, x: array<real>, y: array<real>, ele: array<int>,
                          pha: array<Value>, cval: real, l: nat)
    returns (ghost pts: seq<Point>, xp: array<real>, yp: array<real>, nsw: bool, icnt: nat)
    requires PhaseOn(m, pha[..]) && m == TriMesh(x[..], y[..], ele[..], ne) && l < ne
    requires !HasMissing(m, pha[..], l)
    ensures pts == PhaseElement(m, pha[..], cval, l)
    ensures (nsw <==> icnt > 0) && icnt == |pts| && Holds(xp, yp, pts)
  {
    ghost var vs := PhaseValues(m, pha[..], cval, l);
    ghost var ps := m.Corners(l);
    var vals, xx, yy, vlmt := LoadElement(m, ne, x, y, ele, pha, cval, l);
    pts, xp, yp, nsw, icnt := CollectCrossings(vals, xx, yy, vlmt, cval, vs, ps);
  }

  /** The vertex loop: the element's corners and remapped values, and the
      edge-jump limit. */
  method LoadElement(ghost m: TriMesh, ne: nat, x: array<real>, y: array<real>, ele: array<int>,
                     pha: array<Value>, cval: real, l: nat)
    returns (vals: array<real>, xx: array<real>, yy: array<real>, vlmt: real)
    requires PhaseOn(m, pha[..]) && m == TriMesh(x[..], y[..], ele[..], ne) && l < ne
    requires !HasMissing(m, pha[..], l)
    ensures vals.Length == 9 && xx.Length == 9 && yy.Length == 9
    ensures Loaded(vals, xx, yy, PhaseValues(m, pha[..], cval, l), m.Corners(l))
    ensures vlmt == Limit(cval)
  {
    vals := new real[9];
    xx := new real[9];
    yy := new real[9];
    vlmt := PLMT;
    ghost var vs := PhaseValues(m, pha[..], cval, l);
    ghost var ps := m.Corners(l);
    for k := 0 to NVERT
      invariant forall i :: 0 <= i < k ==> vals[i] == vs[i] && xx[i] == ps[i].x && yy[i] == ps[i].y
      invariant k > 0 ==> vlmt == Limit(cval)
    {
      var n := ele[Ele(l, k, ne)];
      assert n == m.Node(l, k);
      xx[k] := x[n];
      yy[k] := y[n];
      vals[k] := pha[n].v;
      vlmt := PLMT;
      if cval < 1.0 {
        vlmt := P0LMT;
        if vals[k] > 180.0 {
          vals[k] := vals[k] - 360.0;
        }
      }
    }
  }

  /** The vertex-0 test and the edge loop over values vs and corners ps,
      held in vals, xx and yy. */
  method CollectCrossings(vals: array<real>, xx: array<real>, yy: array<real>, vlmt: real, cval: real,
                          ghost vs: seq<real>, ghost ps: seq<Point>)
    returns (ghost pts: seq<Point>, xp: array<real>, yp: array<real>, nsw: bool, icnt: nat)
    requires Loaded(vals, xx, yy, vs, ps)
    ensures pts == ElementPoints(vs, ps, cval, vlmt)
    ensures (nsw <==> icnt > 0) && icnt == |pts| && Holds(xp, yp, pts)
  {
    xp := new real[6];
    yp := new real[6];
    nsw := false;
    icnt := 0;
    if cval == vals[0] {
      nsw := true;
      icnt := 1;
      xp[icnt] := xx[0];
      yp[icnt] := yy[0];
    }
    ghost var acc := Seed(vs, ps, cval);
    assert EdgesUpTo(vs, ps, cval, vlmt, 0) == [];
    for k := 0 to NVERT
      invariant acc == Seed(vs, ps, cval) + EdgesUpTo(vs, ps, cval, vlmt, k)
      invariant (nsw <==> icnt > 0) && icnt == |acc| <= k + 1 && Holds(xp, yp, acc)
      modifies xp, yp
    {
      nsw, icnt, acc := CollectEdge(vals, xx, yy, vlmt, cval, k, vs, ps, xp, yp, nsw, icnt, acc);
    }
    pts := acc;
  }

  /** One pass of the edge loop: appends the crossing point of edge k,
      if any, to the points collected so far. */
  method CollectEdge(vals: array<real>, xx: array<real>, yy: array<real>, vlmt: real, cval: real, k: nat,
                     ghost vs: seq<real>, ghost ps: seq<Point>, xp: array<real>, yp: array<real>,
                     nsw: bool, icnt: nat, ghost acc: seq<Point>)
    returns (nsw': bool, icnt': nat, ghost acc': seq<Point>)
    requires Loaded(vals, xx, yy, vs, ps) && k < NVERT
    requires xp != yp && xp != vals && xp != xx && xp != yy && yp != vals && yp != xx && yp != yy
    requires acc == Seed(vs, ps, cval) + EdgesUpTo(vs, ps, cval, vlmt, k)
    requires (nsw <==> icnt > 0) && icnt == |acc| <= k + 1 && Holds(xp, yp, acc)
    modifies xp, yp
    ensures acc' == Seed(vs, ps, cval) + EdgesUpTo(vs, ps, cval, vlmt, k + 1)
    ensures (nsw' <==> icnt' > 0) && icnt' == |acc'| <= k + 2 && Holds(xp, yp, acc')
  {
    var found, xcon, ycon := CrossEdge(vals, xx, yy, vlmt, cval, k, vs, ps);
    CollectedStep(vs, ps, cval, vlmt, k);
    nsw', icnt', acc' := nsw, icnt, acc + EdgePoint(vs, ps, cval, vlmt, k);
    if found {
      if nsw {
        icnt' := icnt + 1;
      } else {
        nsw' := true;
        icnt' := 1;
      }
      Store(xp, yp, icnt', xcon, ycon, acc);
      assert acc' == acc + [Point(xcon, ycon)];
    } else {
      assert acc' == acc;
    }
  }

  /** The points collected after edge k extend those collected before it. */
  lemma CollectedStep(vs: seq<real>, ps: seq<Point>, cval: real, vlmt: real, k: nat)
    requires |vs| == NVERT && |ps| == NVERT && k < NVERT
    ensures Seed(vs, ps, cval) + EdgesUpTo(vs, ps, cval, vlmt, k) + EdgePoint(vs, ps, cval, vlmt, k) ==
              Seed(vs, ps, cval) + EdgesUpTo(vs, ps, cval, vlmt, k + 1)
  {
    assert EdgesUpTo(vs, ps, cval, vlmt, k + 1) == EdgesUpTo(vs, ps, cval, vlmt, k) + EdgePoint(vs, ps, cval, vlmt, k);
  }

  /** Stores the next collected point at index icnt = |acc| + 1. */
  method Store(xp: array<real>, yp: array<real>, icnt: nat, xcon: real, ycon: real, ghost acc: seq<Point>)
    requires xp != yp && Holds(xp, yp, acc) && icnt == |acc| + 1 < 6
    modifies xp, yp
    ensures Holds(xp, yp, acc + [Point(xcon, ycon)])
  {
    xp[icnt] := xcon;
    yp[icnt] := ycon;
  }

  /** The crossing point as isophase writes it, fraction first. */
  method CrossingPoint(xa: real, ya: real, xb: real, yb: real, v1: real) returns (xcon: real, ycon: real)
    ensures Point(xcon, ycon) == Lerp(Point(xa, ya), Point(xb, yb), v1)
  {
    xcon := v1 * (xb - xa) + xa;
    ycon := v1 * (yb - ya) + ya;
  }

  /** One pass of the edge loop: whether edge k is crossed and, if so,
      where. */
  method CrossEdge(vals: array<real>, xx: array<real>, yy: array<real>, vlmt: real, cval: real, k: nat,
                   ghost vs: seq<real>, ghost ps: seq<Point>)
    returns (found: bool, xcon: real, ycon: real)
    requires Loaded(vals, xx, yy, vs, ps) && k < NVERT
    ensures found <==> EdgePoint(vs, ps, cval, vlmt, k) != []
    ensures found ==> EdgePoint(vs, ps, cval, vlmt, k) == [Point(xcon, ycon)]
  {
    var k2 := k + 1;
    if k2 > NVERT - 1 {
      k2 := 0;
    }
    found := false;
    xcon, ycon := 0.0, 0.0;
    var between;
    if vals[k] > vals[k2] {
      between := !(cval < vals[k2] || cval > vals[k]);
    } else {
      between := !(cval < vals[k] || cval > vals[k2]);
    }
    if between {
      var v3 := vals[k2] - vals[k];
      if !(Abs(v3) > vlmt) {
        var v1 := 1.0;
        if Abs(v3) > SMALL {
          v1 := (cval - vals[k]) / v3;
        }
        xcon, ycon := CrossingPoint(xx[k], yy[k], xx[k2], yy[k2], v1);
        found := true;
        assert v1 == EdgeParam(vs[k], vs[k2], cval);
        assert Point(xx[k], yy[k]) == ps[k] && Point(xx[k2], yy[k2]) == ps[k2];
      }
    }
  }
}
