// Ordinary isoline extraction (isopts): per element, order the three
// nodal values, classify the element against the contour value, and emit
// the segment (or segments) of the isoline that crosses it.
module Contour {
  import opened Mesh

  /** Tolerance of the coincidence tests. */
  const TOL: real := 1.0e-10

  // ---------------------------------------------------------------------
  // Arranging the three vertices of an element
  // ---------------------------------------------------------------------

  /** p lists the positions 0, 1, 2 once each, orders v ascending, and
      keeps equal values in their original order. */
  predicate StableOrder(v: seq<real>, p: seq<nat>)
    requires |v| == 3
  {
    && |p| == 3
    && p[0] < 3 && p[1] < 3 && p[2] < 3
    && p[0] != p[1] && p[1] != p[2] && p[0] != p[2]
    && v[p[0]] <= v[p[1]] <= v[p[2]]
    && (v[p[0]] == v[p[1]] ==> p[0] < p[1])
    && (v[p[1]] == v[p[2]] ==> p[1] < p[2])
  }

  /** The stable ascending order of three values, as positions. */
  function SortedPositions(v: seq<real>): (p: seq<nat>)
    requires |v| == 3
    ensures StableOrder(v, p)
  {
    var (a, b) := if v[1] < v[0] then (1, 0) else (0, 1);
    if v[2] < v[b] then
      (if v[2] < v[a] then [2, a, b] else [a, 2, b])
    else
      [a, b, 2]
  }

  /** A stable ascending order of three values is unique. */
  lemma StableOrderUnique(v: seq<real>, p: seq<nat>)
    requires |v| == 3 && StableOrder(v, p)
    ensures p == SortedPositions(v)
  {
  }

  /** A vertex of an element: its node number and its nodal value. */
  datatype Vertex = Vertex(n: nat, s: real)

  /** The three vertices of an element, in some order. */
  datatype Tri = Tri(v0: Vertex, v1: Vertex, v2: Vertex) {
    function At(j: nat): Vertex
      requires j < 3
    {
      if j == 0 then v0 else if j == 1 then v1 else v2
    }

    function Vals(): seq<real> {
      [v0.s, v1.s, v2.s]
    }
  }

  /** The arrangement step of isopts: the swaps that exchange n0/n1,
      then n1/n2, then n0/n1 again whenever the later value is strictly
      smaller. */
  function Arrange(t: Tri): (r: Tri)
    ensures r.v0.s <= r.v1.s <= r.v2.s
  {
    var (a, b) := if t.v1.s < t.v0.s then (t.v1, t.v0) else (t.v0, t.v1);
    if t.v2.s < b.s then
      (if t.v2.s < a.s then Tri(t.v2, a, b) else Tri(a, t.v2, b))
    else
      Tri(a, b, t.v2)
  }

  /** The swaps compute THE stable sort of the three vertices: the
      vertex at each place is the one at the stable sorted position. */
  lemma ArrangeIsStableSort(t: Tri)
    ensures var p := SortedPositions(t.Vals());
      Arrange(t) == Tri(t.At(p[0]), t.At(p[1]), t.At(p[2]))
  {
  }

  // ---------------------------------------------------------------------
  // One element
  // ---------------------------------------------------------------------

  /** The branch of the case split an element with arranged values
      s0, s1, s2 takes. */
  datatype Case = Outside | Edge01 | Edge12 | Edge20 | Whole | Interior

  function Classify(s0: real, s1: real, s2: real, cval: real): (c: Case)
    ensures c == Outside <==> cval < s0 || cval > s2
    ensures c == Interior ==> s0 <= cval <= s2 && Abs(s0 - s2) >= TOL
  {
    if cval < s0 || cval > s2 then Outside
    else if Abs(s0 - s1) < TOL && Abs(s0 - cval) < TOL then Edge01
    else if Abs(s1 - s2) < TOL && Abs(s1 - cval) < TOL then Edge12
    else if Abs(s0 - s2) < TOL && Abs(s2 - cval) < TOL then Edge20
    else if Abs(s0 - s2) < TOL then Whole
    else Interior
  }

  /** Fraction along an edge from value lo to value hi at which the
      linear interpolant equals cval; 1.0 when the two values are equal. */
  function Fraction(cval: real, lo: real, hi: real): (f: real)
    ensures lo == hi ==> f == 1.0
  {
    if lo != hi then (cval - lo) / (hi - lo) else 1.0
  }

  /** Interpolating by the fraction gives back cval, and between the two
      end values the fraction lies in [0, 1]. */
  lemma FractionSound(cval: real, lo: real, hi: real)
    ensures lo != hi ==> lo + (hi - lo) * Fraction(cval, lo, hi) == cval
    ensures lo < hi && lo <= cval <= hi ==> 0.0 <= Fraction(cval, lo, hi) <= 1.0
  {
    var f := Fraction(cval, lo, hi);
    var d := hi - lo;
    if lo != hi {
      assert f == (cval - lo) / d;
      assert d * f == cval - lo;
    }
  }

  /** The rows an element with arranged vertices p0, p1, p2 and values
      s0, s1, s2 writes, in the order it writes them. */
  function ElementRows(p0: Point, p1: Point, p2: Point, s0: real, s1: real, s2: real, cval: real): (rows: seq<Segment>)
    ensures |rows| <= 3
    ensures rows == [] <==> Classify(s0, s1, s2, cval) == Outside
  {
    match Classify(s0, s1, s2, cval)
    case Outside => []
    case Edge01 => [Segment(p0, p1)]
    case Edge12 => [Segment(p1, p2)]
    case Edge20 => [Segment(p2, p0)]
    case Whole => [Segment(p0, p1), Segment(p1, p2), Segment(p2, p0)]
    case Interior =>
      var a := Lerp(p0, p2, (cval - s0) / (s2 - s0));
      var b := if cval < s1 then Lerp(p0, p1, Fraction(cval, s0, s1))
               else Lerp(p1, p2, Fraction(cval, s1, s2));
      [Segment(a, b)]
  }

  /** The whole-element branch can never be taken, whatever the order of
      the values: the side n2 -> n0 test before it already holds. */
  lemma WholeUnreachable(s0: real, s1: real, s2: real, cval: real)
    ensures Classify(s0, s1, s2, cval) != Whole
  {
  }

  /** With arranged values the side n2 -> n0 branch can never be taken
      either: the side n0 -> n1 test holds first. */
  lemma Edge20Unreachable(s0: real, s1: real, s2: real, cval: real)
    requires s0 <= s1 <= s2
    ensures Classify(s0, s1, s2, cval) != Edge20
  {
  }

  /** An arranged element writes nothing exactly when cval is outside
      [s0, s2], and exactly one row otherwise. */
  lemma ElementRowsCount(p0: Point, p1: Point, p2: Point, s0: real, s1: real, s2: real, cval: real)
    requires s0 <= s1 <= s2
    ensures |ElementRows(p0, p1, p2, s0, s1, s2, cval)| == if cval < s0 || cval > s2 then 0 else 1
  {
    WholeUnreachable(s0, s1, s2, cval);
    Edge20Unreachable(s0, s1, s2, cval);
  }

  /** A contour running along side n0 -> n1, or else along n1 -> n2, is
      emitted as exactly that side. */
  lemma ElementOnSide(p0: Point, p1: Point, p2: Point, s0: real, s1: real, s2: real, cval: real)
    requires s0 <= cval <= s2
    ensures Abs(s0 - s1) < TOL && Abs(s0 - cval) < TOL ==>
              ElementRows(p0, p1, p2, s0, s1, s2, cval) == [Segment(p0, p1)]
    ensures !(Abs(s0 - s1) < TOL && Abs(s0 - cval) < TOL) && Abs(s1 - s2) < TOL && Abs(s1 - cval) < TOL ==>
              ElementRows(p0, p1, p2, s0, s1, s2, cval) == [Segment(p1, p2)]
  {
  }

  /** In the interior branch the segment runs from the point on side
      n0 -> n2 where the interpolated value is cval to the point on side
      n0 -> n1 (cval < s1) or n1 -> n2 (otherwise) where it is cval. The
      divisor s2 - s0 is nonzero, each side used has distinct end values,
      so every fraction lies in [0, 1] and the 1.0 fallback is never used. */
  lemma InteriorSegment(p0: Point, p1: Point, p2: Point, s0: real, s1: real, s2: real, cval: real)
    requires s0 <= s1 <= s2 && s0 <= cval <= s2
    requires !(Abs(s0 - s1) < TOL && Abs(s0 - cval) < TOL)
    requires !(Abs(s1 - s2) < TOL && Abs(s1 - cval) < TOL)
    ensures s0 < s2
    ensures (cval - s0) / (s2 - s0) == Fraction(cval, s0, s2)
    ensures cval < s1 ==> s0 < s1
    ensures cval >= s1 ==> s1 < s2
    ensures 0.0 <= Fraction(cval, s0, s2) <= 1.0 && s0 + (s2 - s0) * Fraction(cval, s0, s2) == cval
    ensures cval < s1 ==> 0.0 <= Fraction(cval, s0, s1) <= 1.0 && s0 + (s1 - s0) * Fraction(cval, s0, s1) == cval
    ensures cval >= s1 ==> 0.0 <= Fraction(cval, s1, s2) <= 1.0 && s1 + (s2 - s1) * Fraction(cval, s1, s2) == cval
    ensures ElementRows(p0, p1, p2, s0, s1, s2, cval) ==
      [Segment(Lerp(p0, p2, Fraction(cval, s0, s2)),
               if cval < s1 then Lerp(p0, p1, Fraction(cval, s0, s1))
               else Lerp(p1, p2, Fraction(cval, s1, s2)))]
  {
    Edge20Unreachable(s0, s1, s2, cval);
    WholeUnreachable(s0, s1, s2, cval);
    FractionSound(cval, s0, s2);
    FractionSound(cval, s0, s1);
    FractionSound(cval, s1, s2);
    assert Classify(s0, s1, s2, cval) == Interior;
  }

  /** A triangle A=(0,0), B=(1,0), C=(0,1) with values 0, 5, 10 and
      contour value 5 takes the interior branch: the segment runs from
      the midpoint of A-C to vertex B, not along the edge B-C. */
  lemma WorkedExample()
    ensures ElementRows(Point(0.0, 0.0), Point(1.0, 0.0), Point(0.0, 1.0), 0.0, 5.0, 10.0, 5.0) ==
              [Segment(Point(0.0, 0.5), Point(1.0, 0.0))]
  {
    assert Classify(0.0, 5.0, 10.0, 5.0) == Interior;
    assert Fraction(5.0, 5.0, 10.0) == 0.0;
  }

  // ---------------------------------------------------------------------
  // The whole mesh
  // ---------------------------------------------------------------------

  predicate FieldOn(m: TriMesh, q: seq<real>) {
    m.Valid() && |q| == |m.x|
  }

  /** Vertex j of element k with its value. */
  function Corner(m: TriMesh, q: seq<real>, k: nat, j: nat): (c: Vertex)
    requires FieldOn(m, q) && k < m.ne && j < NVERT
    ensures c.n < |q| && c.s == q[c.n]
  {
    var n := m.Node(k, j);
    Vertex(n, q[n])
  }

  /** The vertices of element k in table order. */
  function Vertices(m: TriMesh, q: seq<real>, k: nat): (t: Tri)
    requires FieldOn(m, q) && k < m.ne
    ensures t.v0.n < |q| && t.v1.n < |q| && t.v2.n < |q|
  {
    Tri(Corner(m, q, k, 0), Corner(m, q, k, 1), Corner(m, q, k, 2))
  }

  /** Element k's values span cval: some value is at most cval and some
      value is at least cval. Stated without any sorting. */
  predicate Spans(m: TriMesh, q: seq<real>, cval: real, k: nat)
    requires FieldOn(m, q) && k < m.ne
  {
    var t := Vertices(m, q, k);
    (t.v0.s <= cval || t.v1.s <= cval || t.v2.s <= cval) &&
    (t.v0.s >= cval || t.v1.s >= cval || t.v2.s >= cval)
  }

  /** The rows element k writes, after arranging its vertices: at most
      one. */
  function ElementSegments(m: TriMesh, q: seq<real>, cval: real, k: nat): (rows: seq<Segment>)
    requires FieldOn(m, q) && k < m.ne
    ensures |rows| <= 1
  {
    var r := Arrange(Vertices(m, q, k));
    var p0, p1, p2 := m.Coord(r.v0.n), m.Coord(r.v1.n), m.Coord(r.v2.n);
    ElementRowsCount(p0, p1, p2, r.v0.s, r.v1.s, r.v2.s, cval);
    ElementRows(p0, p1, p2, r.v0.s, r.v1.s, r.v2.s, cval)
  }

  /** An element writes one row exactly when its values span cval. */
  lemma ElementSegmentsCount(m: TriMesh, q: seq<real>, cval: real, k: nat)
    requires FieldOn(m, q) && k < m.ne
    ensures |ElementSegments(m, q, cval, k)| == if Spans(m, q, cval, k) then 1 else 0
  {
    var r := Arrange(Vertices(m, q, k));
    ElementRowsCount(m.Coord(r.v0.n), m.Coord(r.v1.n), m.Coord(r.v2.n), r.v0.s, r.v1.s, r.v2.s, cval);
  }

  /** The rows of each element 0 .. k-1, element by element. */
  function Pieces(m: TriMesh, q: seq<real>, cval: real, k: nat): (ps: seq<seq<Segment>>)
    requires FieldOn(m, q) && k <= m.ne
    ensures |ps| == k
  {
    if k == 0 then [] else Pieces(m, q, cval, k - 1) + [ElementSegments(m, q, cval, k - 1)]
  }

  /** Entry l of the pieces is the rows of element l. */
  lemma {:induction false} PiecesAt(m: TriMesh, q: seq<real>, cval: real, k: nat, l: nat)
    requires FieldOn(m, q) && l < k <= m.ne
    ensures Pieces(m, q, cval, k)[l] == ElementSegments(m, q, cval, l)
  {
    SnocPrefix(Pieces(m, q, cval, k - 1), ElementSegments(m, q, cval, k - 1), l);
    if l < k - 1 {
      PiecesAt(m, q, cval, k - 1, l);
    }
  }

  /** The first j pieces of the first k elements are the pieces of the
      first j elements. */
  lemma {:induction false} PiecesPrefix(m: TriMesh, q: seq<real>, cval: real, j: nat, k: nat)
    requires FieldOn(m, q) && j <= k <= m.ne
    ensures Pieces(m, q, cval, k)[..j] == Pieces(m, q, cval, j)
  {
    if j < k {
      PiecesPrefix(m, q, cval, j, k - 1);
      SnocPrefix(Pieces(m, q, cval, k - 1), ElementSegments(m, q, cval, k - 1), j);
    }
  }

  /** Number of elements among 0 .. k-1 whose values span cval. */
  function SpanCount(m: TriMesh, q: seq<real>, cval: real, k: nat): (c: nat)
    requires FieldOn(m, q) && k <= m.ne
    ensures c <= k
  {
    if k == 0 then 0 else SpanCount(m, q, cval, k - 1) + (if Spans(m, q, cval, k - 1) then 1 else 0)
  }

  /** The rows of the first k elements number one per spanning element. */
  lemma {:induction false} PiecesCount(m: TriMesh, q: seq<real>, cval: real, k: nat)
    requires FieldOn(m, q) && k <= m.ne
    ensures |Concat(Pieces(m, q, cval, k))| == SpanCount(m, q, cval, k)
  {
    if k > 0 {
      PiecesCount(m, q, cval, k - 1);
      ElementSegmentsCount(m, q, cval, k - 1);
      ConcatSnoc(Pieces(m, q, cval, k - 1), ElementSegments(m, q, cval, k - 1));
    }
  }

  /** The contour rows of elements 0 .. k-1, in element order: at most
      one per element. */
  function ContourUpTo(m: TriMesh, q: seq<real>, cval: real, k: nat): (rows: seq<Segment>)
    requires FieldOn(m, q) && k <= m.ne
    ensures |rows| <= k
  {
    PiecesCount(m, q, cval, k);
    Concat(Pieces(m, q, cval, k))
  }

  /** The number of contour rows is the number of elements whose values
      span cval. */
  lemma ContourCount(m: TriMesh, q: seq<real>, cval: real, k: nat)
    requires FieldOn(m, q) && k <= m.ne
    ensures |ContourUpTo(m, q, cval, k)| == SpanCount(m, q, cval, k)
  {
    PiecesCount(m, q, cval, k);
  }

  /** Rows are written in element order: the rows of the first j
      elements are a prefix of those of the first k. */
  lemma ContourPrefix(m: TriMesh, q: seq<real>, cval: real, j: nat, k: nat)
    requires FieldOn(m, q) && j <= k <= m.ne
    ensures ContourUpTo(m, q, cval, j) <= ContourUpTo(m, q, cval, k)
  {
    ConcatPrefix(Pieces(m, q, cval, k), j);
    PiecesPrefix(m, q, cval, j, k);
  }

  /** One more element appends its rows. */
  lemma ContourStep(m: TriMesh, q: seq<real>, cval: real, k: nat)
    requires FieldOn(m, q) && k < m.ne
    ensures ContourUpTo(m, q, cval, k + 1) == ContourUpTo(m, q, cval, k) + ElementSegments(m, q, cval, k)
  {
    ConcatSnoc(Pieces(m, q, cval, k), ElementSegments(m, q, cval, k));
  }

  // ---------------------------------------------------------------------
  // The routine
  // ---------------------------------------------------------------------

  /** The arrangement step of isopts for element k: three swaps that
      leave the element's nodes n0, n1, n2 in stable ascending order of
      their values s0, s1, s2. */
  method ArrangeElement(ghost m: TriMesh, ne: nat, ele: array<int>, q: array<real>, k: nat)
      returns (n0: nat, n1: nat, n2: nat, s0: real, s1: real, s2: real)
    requires FieldOn(m, q[..]) && m.ele == ele[..] && m.ne == ne && k < ne
    ensures Tri(Vertex(n0, s0), Vertex(n1, s1), Vertex(n2, s2)) == Arrange(Vertices(m, q[..], k))
  {
    n0 := ele[Ele(k, 0, ne)];
    s0 := q[n0];
    n1 := ele[Ele(k, 1, ne)];
    s1 := q[n1];
    if s1 < s0 {
      n0 := n1;
      s0 := s1;
      n1 := ele[Ele(k, 0, ne)];
      s1 := q[n1];
    }
    n2 := ele[Ele(k, 2, ne)];
    s2 := q[n2];
    if s2 < s1 {
      n2 := n1;
      s2 := s1;
      n1 := ele[Ele(k, 2, ne)];
      s1 := q[n1];
      if s1 < s0 {
        n1 := n0;
        s1 := s0;
        n0 := ele[Ele(k, 2, ne)];
        s0 := q[n0];
      }
    }
  }

  /** Writes rows into cmat from row start on, row by row. */
  method WriteRows(cmat: array<Segment>, start: nat, rows: seq<Segment>)
    requires start + |rows| <= cmat.Length
    modifies cmat
    ensures cmat[..start + |rows|] == old(cmat[..start]) + rows
    ensures cmat[start + |rows|..] == old(cmat[start + |rows|..])
  {
    for i := 0 to |rows|
      invariant cmat[..start + i] == old(cmat[..start]) + rows[..i]
      invariant cmat[start + i..] == old(cmat[start + i..])
    {
      cmat[start + i] := rows[i];
      assert rows[..i + 1] == rows[..i] + [rows[i]];
    }
    assert rows[..|rows|] == rows;
  }

  /** The body of the element loop of isopts for element k: arrange its
      nodes, compute its rows and append them to the rows of the elements
      before it, leaving the rest of cmat as it was on entry (orig). */
  method ContourElement(ghost m: TriMesh, ne: nat, x: array<real>, y: array<real>, ele: array<int>,
                        q: array<real>, cval: real, cmat: array<Segment>, ghost orig: seq<Segment>,
                        k: nat, count: nat)
      returns (count': nat)
    requires FieldOn(m, q[..]) && m == TriMesh(x[..], y[..], ele[..], ne) && k < ne
    requires count <= k && k < cmat.Length && |orig| == cmat.Length
    requires cmat[..count] == ContourUpTo(m, q[..], cval, k)
    requires cmat[count..] == orig[count..]
    modifies cmat
    ensures count' <= k + 1
    ensures cmat[..count'] == ContourUpTo(m, q[..], cval, k + 1)
    ensures cmat[count'..] == orig[count'..]
  {
    var n0, n1, n2, s0, s1, s2 := ArrangeElement(m, ne, ele, q, k);
    var rows := ElementRows(Point(x[n0], y[n0]), Point(x[n1], y[n1]), Point(x[n2], y[n2]),
                            s0, s1, s2, cval);
    ElementRowsCount(Point(x[n0], y[n0]), Point(x[n1], y[n1]), Point(x[n2], y[n2]), s0, s1, s2, cval);
    ContourStep(m, q[..], cval, k);
    ghost var before := cmat[..];
    WriteRows(cmat, count, rows);
    count' := count + |rows|;
    SuffixFrom(before, orig, count, count');
  }

  /** isopts: ne elements, node coordinates x, y, 0-based element table
      ele (column-major), nodal field q, contour value cval; writes the
      contour rows to the front of cmat and returns their number. The
      caller allocates 6*ne+1 rows; ne rows are enough. */
  method IsoPts(ne: nat, x: array<real>, y: array<real>, ele: array<int>, q: array<real>,
                cval: real, cmat: array<Segment>) returns (cnt: nat)
    requires FieldOn(TriMesh(x[..], y[..], ele[..], ne), q[..])
    requires cmat.Length >= ne
    modifies cmat
    ensures cnt <= ne
    ensures cmat[..cnt] == ContourUpTo(TriMesh(x[..], y[..], ele[..], ne), q[..], cval, ne)
    ensures cmat[cnt..] == old(cmat[cnt..])
  {
    ghost var m := TriMesh(x[..], y[..], ele[..], ne);
    ghost var orig := cmat[..];
    var count: nat := 0;
    for k := 0 to ne
      invariant count <= k
      invariant cmat[..count] == ContourUpTo(m, q[..], cval, k)
      invariant cmat[count..] == orig[count..]
    {
      count := ContourElement(m, ne, x, y, ele, q, cval, cmat, orig, k, count);
    }
    cnt := count;
  }
}
