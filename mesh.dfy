// Shared vocabulary of the three per-triangle routines: nodal values that
// may be missing, points and segments, the column-major flat tables that
// hold element connectivity and per-element coefficients, and linear
// interpolation along a triangle edge.
module Mesh {

  /** A floating-point value that may be the missing-value sentinel (NaN). */
  datatype Value = Missing | Val(v: real)

  datatype Point = Point(x: real, y: real)

  /** One four-column row of the ordinary contour buffer: (xa, ya, xb, yb). */
  datatype Segment = Segment(a: Point, b: Point)

  /** Vertices per element: every routine here is specific to triangles. */
  const NVERT: nat := 3

  function Abs(r: real): (a: real)
    ensures a >= 0.0 && (a == r || a == -r)
  {
    if r < 0.0 then -r else r
  }

  /** Flat index of entry (i, j) of a table with m rows stored column by
      column: the ELE(i,j,m) macro of both contour routines and the
      AA/BB/TT(i,j,m) macros of the point locator. Column j occupies the
      block [j*m, (j+1)*m). */
  function Ele(i: nat, j: nat, m: nat): (r: nat)
    requires i < m && j < NVERT
    ensures r < NVERT * m
    ensures j * m <= r < (j + 1) * m
    ensures r - j * m == i
  {
    i + m * j
  }

  /** Distinct table entries never share a flat index. */
  lemma EleInjective(i: nat, j: nat, i': nat, j': nat, m: nat)
    requires i < m && j < NVERT && i' < m && j' < NVERT
    requires Ele(i, j, m) == Ele(i', j', m)
    ensures i == i' && j == j'
  {
  }

  /** A mesh: nn node coordinates and an ne-by-3 element table (node
      numbers already shifted to 0-based), stored column-major. */
  datatype TriMesh = TriMesh(x: seq<real>, y: seq<real>, ele: seq<int>, ne: nat) {

    /** Every node number the element table references names a node. */
    predicate Valid() {
      |x| == |y| && NVERT * ne <= |ele| &&
      forall t :: 0 <= t < NVERT * ne ==> 0 <= ele[t] < |x|
    }

    /** Vertex j of element k. */
    function Node(k: nat, j: nat): (n: nat)
      requires Valid() && k < ne && j < NVERT
      ensures n < |x| && n == ele[Ele(k, j, ne)]
    {
      ele[Ele(k, j, ne)]
    }

    function Coord(n: nat): Point
      requires Valid() && n < |x|
    {
      Point(x[n], y[n])
    }

    /** The corner points of element k, in vertex order. */
    function Corners(k: nat): (p: seq<Point>)
      requires Valid() && k < ne
      ensures |p| == NVERT
      ensures forall j :: 0 <= j < NVERT ==> p[j] == Coord(Node(k, j))
    {
      [Coord(Node(k, 0)), Coord(Node(k, 1)), Coord(Node(k, 2))]
    }
  }

  /** The point a fraction f of the way from a to b. */
  function Lerp(a: Point, b: Point, f: real): (p: Point)
    ensures f == 0.0 ==> p == a
    ensures f == 1.0 ==> p == b
  {
    Point(a.x + (b.x - a.x) * f, a.y + (b.y - a.y) * f)
  }

  /** p lies on the closed segment from a to b. */
  ghost predicate OnEdge(p: Point, a: Point, b: Point) {
    exists f: real {:trigger Lerp(a, b, f)} :: 0.0 <= f <= 1.0 && p == Lerp(a, b, f)
  }

  /** p lies on the boundary of the triangle (p0, p1, p2). */
  ghost predicate OnBoundary(p: Point, p0: Point, p1: Point, p2: Point) {
    OnEdge(p, p0, p1) || OnEdge(p, p1, p2) || OnEdge(p, p2, p0)
  }

  /** Per-element pieces of output, one after another. */
  function Concat<T>(ps: seq<seq<T>>): seq<T> {
    if |ps| == 0 then [] else Concat(ps[..|ps| - 1]) + ps[|ps| - 1]
  }

  /** One more piece appends exactly that piece. */
  lemma ConcatSnoc<T>(ps: seq<seq<T>>, p: seq<T>)
    ensures Concat(ps + [p]) == Concat(ps) + p
  {
    assert (ps + [p])[..|ps|] == ps;
  }

  /** Concatenating the first j pieces gives a prefix of concatenating all. */
  lemma {:induction false} ConcatPrefix<T>(ps: seq<seq<T>>, j: nat)
    requires j <= |ps|
    ensures Concat(ps[..j]) <= Concat(ps)
  {
    if j < |ps| {
      ConcatPrefix(ps[..|ps| - 1], j);
      assert ps[..|ps| - 1][..j] == ps[..j];
      PrefixOfAppend(Concat(ps[..j]), Concat(ps[..|ps| - 1]), ps[|ps| - 1]);
    } else {
      assert ps[..j] == ps;
    }
  }

  /** Appending one entry changes neither a prefix nor an entry before it. */
  lemma SnocPrefix<T>(a: seq<T>, e: T, j: nat)
    ensures j <= |a| ==> (a + [e])[..j] == a[..j]
    ensures j < |a| ==> (a + [e])[j] == a[j]
    ensures (a + [e])[|a|] == e
  {
    if j <= |a| {
      assert (a + [e])[..j] == a[..j];
    }
  }

  /** A prefix of b is a prefix of anything that extends b. */
  lemma PrefixOfAppend<T>(a: seq<T>, b: seq<T>, c: seq<T>)
    requires a <= b
    ensures a <= b + c
  {
    assert (b + c)[..|b|] == b;
  }

  /** Equal suffixes from i on are equal from any later j on. */
  lemma SuffixFrom<T>(a: seq<T>, b: seq<T>, i: nat, j: nat)
    requires i <= j <= |a| && |a| == |b| && a[i..] == b[i..]
    ensures a[j..] == b[j..]
  {
    assert a[j..] == a[i..][j - i..];
    assert b[j..] == b[i..][j - i..];
  }
}
