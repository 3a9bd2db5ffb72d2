// Point location (findelemex): for every query point, the number of the
// first element whose three area coordinates all lie within the closed
// unit interval widened by a tolerance, or the missing value when no
// element contains the point.
module FindElem {
  import opened Mesh

  datatype Option<T> = None | Some(value: T)

  /** Per-element geometry: twice-area-related scale ar[j] and, for each
      vertex k, the coefficients a, b, t of the area coordinate, stored
      column-major (entry (j, k) at flat index j + ne*k). */
  datatype Coeffs = Coeffs(ar: seq<real>, a: seq<real>, b: seq<real>, t: seq<real>) {
    /** Number of elements: the row count of ar. */
    function NE(): nat {
      |ar|
    }

    /** Every coefficient table has all three columns, and no scale is
        zero, so that 0.5/ar[j] is defined. */
    predicate Valid() {
      NVERT * |ar| <= |a| && NVERT * |ar| <= |b| && NVERT * |ar| <= |t| &&
      forall j :: 0 <= j < |ar| ==> ar[j] != 0.0
    }
  }

  /** Area coordinate k of point (px, py) with respect to element j:
      (T_k + B_k*px + A_k*py) / (2*AR_j), the coefficients of vertex k of
      element j read at flat index j + ne*k. */
  function AreaCoord(c: Coeffs, j: nat, k: nat, px: real, py: real): (s: real)
    requires c.Valid() && j < c.NE() && k < NVERT
    ensures var e := j + c.NE() * k;
      s * (2.0 * c.ar[j]) == c.t[e] + c.b[e] * px + c.a[e] * py
  {
    var e := Ele(j, k, c.NE());
    (c.t[e] + c.b[e] * px + c.a[e] * py) * (0.5 / c.ar[j])
  }

  /** A comparison result as the 0/1 integer C gives it. */
  function Flag(b: bool): bv1 {
    if b then 1 else 0
  }

  /** The rejection test of one area coordinate: the bitwise OR of the
      two comparisons against the widened bounds 1 + tol and 0 - tol. It
      rejects exactly the coordinates outside [-tol, 1 + tol], as a
      logical or would. */
  function Rejects(s: real, tol: real): (r: bool)
    ensures r <==> s > 1.0 + tol || s < -tol
  {
    var above, below := Flag(s > 1.0 + tol), Flag(s < 0.0 - tol);
    assert above == 1 <==> s > 1.0 + tol;
    assert below == 1 <==> s < -tol;
    assert (above | below) == 1 <==> above == 1 || below == 1;
    (above | below) == 1
  }

  /** Element j contains the point: none of its three coordinates is
      rejected. */
  predicate Contains(c: Coeffs, j: nat, px: real, py: real, tol: real)
    requires c.Valid() && j < c.NE()
  {
    !Rejects(AreaCoord(c, j, 0, px, py), tol) &&
    !Rejects(AreaCoord(c, j, 1, px, py), tol) &&
    !Rejects(AreaCoord(c, j, 2, px, py), tol)
  }

  /** Element j contains the point exactly when all three area
      coordinates lie in [-tol, 1 + tol]. */
  lemma ContainsWithin(c: Coeffs, j: nat, px: real, py: real, tol: real)
    requires c.Valid() && j < c.NE()
    ensures Contains(c, j, px, py, tol) <==>
              forall k :: 0 <= k < NVERT ==> -tol <= AreaCoord(c, j, k, px, py) <= 1.0 + tol
  {
  }

  /** The element the scan has recorded for the point after elements
      0 .. n-1: the first of them that contains it, if any. */
  function Found(c: Coeffs, px: real, py: real, tol: real, n: nat): (r: Option<nat>)
    requires c.Valid() && n <= c.NE()
    ensures r.Some? ==> r.value < n
  {
    if n == 0 then None
    else
      var before := Found(c, px, py, tol, n - 1);
      if before.Some? then before
      else if Contains(c, n - 1, px, py, tol) then Some(n - 1)
      else None
  }

  /** Found is the first containing element: it contains the point and no
      earlier element does; and nothing is found exactly when no element
      among the first n contains the point. */
  lemma {:induction false} FoundFirst(c: Coeffs, px: real, py: real, tol: real, n: nat)
    requires c.Valid() && n <= c.NE()
    ensures Found(c, px, py, tol, n).Some? ==>
              var j := Found(c, px, py, tol, n).value;
              Contains(c, j, px, py, tol) && forall i :: 0 <= i < j ==> !Contains(c, i, px, py, tol)
    ensures Found(c, px, py, tol, n).None? <==> forall i :: 0 <= i < n ==> !Contains(c, i, px, py, tol)
  {
    if n > 0 {
      FoundFirst(c, px, py, tol, n - 1);
    }
  }

  /** Conversely, an element that contains the point and has no earlier
      containing element is the one found. */
  lemma FoundIsFirst(c: Coeffs, px: real, py: real, tol: real, n: nat, j: nat)
    requires c.Valid() && j < n <= c.NE()
    requires Contains(c, j, px, py, tol)
    requires forall i :: 0 <= i < j ==> !Contains(c, i, px, py, tol)
    ensures Found(c, px, py, tol, n) == Some(j)
  {
    FoundFirst(c, px, py, tol, n);
    if Found(c, px, py, tol, n).Some? {
      var f := Found(c, px, py, tol, n).value;
      assert !(f < j) && !(j < f);
    }
  }

  /** Once an element is recorded for the point it never changes. */
  lemma {:induction false} FoundStable(c: Coeffs, px: real, py: real, tol: real, n: nat, n': nat)
    requires c.Valid() && n <= n' <= c.NE()
    ensures Found(c, px, py, tol, n).Some? ==> Found(c, px, py, tol, n') == Found(c, px, py, tol, n)
  {
    if n < n' {
      FoundStable(c, px, py, tol, n, n' - 1);
    }
  }

  /** The working value of an entry during the scan: -1 while no element
      has been recorded, else the 1-based element number. */
  function Mark(f: Option<nat>): Value {
    match f
    case None => Val(-1.0)
    case Some(j) => Val((j + 1) as real)
  }

  /** The value returned for one point: the 1-based number of the first
      containing element, or missing. */
  function Located(c: Coeffs, px: real, py: real, tol: real): (r: Value)
    requires c.Valid()
    ensures r.Val? ==> 1.0 <= r.v <= c.NE() as real && r.v.Floor as real == r.v
  {
    match Found(c, px, py, tol, c.NE())
    case None => Missing
    case Some(j) => Val((j + 1) as real)
  }

  /** The returned value is missing exactly when no element contains the
      point, and otherwise the number j + 1 of the first element j that
      does, so an integer in 1 .. ne. */
  lemma LocatedMeaning(c: Coeffs, px: real, py: real, tol: real)
    requires c.Valid()
    ensures Located(c, px, py, tol).Missing? <==>
              forall i :: 0 <= i < c.NE() ==> !Contains(c, i, px, py, tol)
    ensures forall j: nat :: j < c.NE() ==>
              (Located(c, px, py, tol) == Val((j + 1) as real) <==>
                 Contains(c, j, px, py, tol) && forall i :: 0 <= i < j ==> !Contains(c, i, px, py, tol))
  {
    FoundFirst(c, px, py, tol, c.NE());
    forall j: nat | j < c.NE() && Contains(c, j, px, py, tol) &&
                    (forall i :: 0 <= i < j ==> !Contains(c, i, px, py, tol))
      ensures Located(c, px, py, tol) == Val((j + 1) as real)
    {
      FoundIsFirst(c, px, py, tol, c.NE(), j);
    }
  }

  /** With no elements every point is reported missing. */
  lemma NoElements(c: Coeffs, px: real, py: real, tol: real)
    requires c.Valid() && c.NE() == 0
    ensures Located(c, px, py, tol) == Missing
  {
  }

  // ---------------------------------------------------------------------
  // The routine
  // ---------------------------------------------------------------------

  /** The containment test of the scan for element j and point (px, py):
      each coordinate is computed only when the previous ones passed. */
  method TestElement(ghost c: Coeffs, ar: array<real>, a: array<real>, b: array<real>, t: array<real>,
                     ne: nat, j: nat, px: real, py: real, tol: real) returns (inside: bool)
    requires c == Coeffs(ar[..], a[..], b[..], t[..]) && c.Valid() && ne == c.NE() && j < ne
    ensures inside == Contains(c, j, px, py, tol)
  {
    var one := 1.0 + tol;
    var zero := 0.0 - tol;
    var fac := 0.5 / ar[j];
    var s1 := (t[Ele(j, 0, ne)] + b[Ele(j, 0, ne)] * px + a[Ele(j, 0, ne)] * py) * fac;
    assert s1 == AreaCoord(c, j, 0, px, py);
    if (Flag(s1 > one) | Flag(s1 < zero)) == 1 {
      return false;
    }
    var s2 := (t[Ele(j, 1, ne)] + b[Ele(j, 1, ne)] * px + a[Ele(j, 1, ne)] * py) * fac;
    assert s2 == AreaCoord(c, j, 1, px, py);
    if (Flag(s2 > one) | Flag(s2 < zero)) == 1 {
      return false;
    }
    var s3 := (t[Ele(j, 2, ne)] + b[Ele(j, 2, ne)] * px + a[Ele(j, 2, ne)] * py) * fac;
    assert s3 == AreaCoord(c, j, 2, px, py);
    if (Flag(s3 > one) | Flag(s3 < zero)) == 1 {
      return false;
    }
    return true;
  }

  /** Entry ip of the working array is negative: no element recorded. */
  predicate Unset(v: Value) {
    v.Val? && v.v < 0.0
  }

  /** One pass of the point loop for element j: every point still
      without an element is tested against element j. */
  method ScanElement(ghost c: Coeffs, xp: array<real>, yp: array<real>, ar: array<real>, a: array<real>,
                     b: array<real>, t: array<real>, ne: nat, j: nat, tol: real, fnd: array<Value>)
    requires c == Coeffs(ar[..], a[..], b[..], t[..]) && c.Valid() && ne == c.NE() && j < ne
    requires xp.Length == yp.Length == fnd.Length
    requires forall ip :: 0 <= ip < fnd.Length ==> fnd[ip] == Mark(Found(c, xp[ip], yp[ip], tol, j))
    modifies fnd
    ensures forall ip :: 0 <= ip < fnd.Length ==> fnd[ip] == Mark(Found(c, xp[ip], yp[ip], tol, j + 1))
  {
    for ip := 0 to fnd.Length
      invariant forall q :: 0 <= q < ip ==> fnd[q] == Mark(Found(c, xp[q], yp[q], tol, j + 1))
      invariant forall q :: ip <= q < fnd.Length ==> fnd[q] == Mark(Found(c, xp[q], yp[q], tol, j))
    {
      if Unset(fnd[ip]) {
        var inside := TestElement(c, ar, a, b, t, ne, j, xp[ip], yp[ip], tol);
        if inside {
          fnd[ip] := Val((j + 1) as real);
        }
      }
    }
  }

  /** The last loop: entries still negative become missing. */
  method MarkMissing(ghost c: Coeffs, xp: array<real>, yp: array<real>, tol: real, fnd: array<Value>)
    requires c.Valid() && xp.Length == yp.Length == fnd.Length
    requires forall ip :: 0 <= ip < fnd.Length ==> fnd[ip] == Mark(Found(c, xp[ip], yp[ip], tol, c.NE()))
    modifies fnd
    ensures forall ip :: 0 <= ip < fnd.Length ==> fnd[ip] == Located(c, xp[ip], yp[ip], tol)
  {
    for ip := 0 to fnd.Length
      invariant forall q :: 0 <= q < ip ==> fnd[q] == Located(c, xp[q], yp[q], tol)
      invariant forall q :: ip <= q < fnd.Length ==> fnd[q] == Mark(Found(c, xp[q], yp[q], tol, c.NE()))
    {
      if Unset(fnd[ip]) {
        fnd[ip] := Missing;
      }
    }
  }

  /** findelemex: for query points (xp[i], yp[i]) and element geometry
      ar, a, b, t (ne = ar.Length elements), the 1-based number of the
      first containing element of each point, or missing. */
  method FindElements(xp: array<real>, yp: array<real>, ar: array<real>, a: array<real>, b: array<real>,
                      t: array<real>, tol: real) returns (fnd: array<Value>)
    requires xp.Length == yp.Length
    requires Coeffs(ar[..], a[..], b[..], t[..]).Valid()
    ensures fresh(fnd) && fnd.Length == xp.Length
    ensures forall ip :: 0 <= ip < fnd.Length ==>
              fnd[ip] == Located(Coeffs(ar[..], a[..], b[..], t[..]), xp[ip], yp[ip], tol)
  {
    ghost var c := Coeffs(ar[..], a[..], b[..], t[..]);
    var np := xp.Length;
    var ne := ar.Length;
    fnd := new Value[np];
    for ip := 0 to np
      invariant forall q :: 0 <= q < ip ==> fnd[q] == Mark(None)
    {
      fnd[ip] := Val(-1.0);
    }
    for j := 0 to ne
      invariant forall ip :: 0 <= ip < np ==> fnd[ip] == Mark(Found(c, xp[ip], yp[ip], tol, j))
    {
      ScanElement(c, xp, yp, ar, a, b, t, ne, j, tol, fnd);
    }
    MarkMissing(c, xp, yp, tol, fnd);
  }
}
