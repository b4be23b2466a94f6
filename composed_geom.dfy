/**
 * The Java geometry tree of the JDBC client (jdbc2/src/org/postgis): a
 * Point is a leaf, every other geometry is a ComposedGeom holding an
 * ordered array of child geometries (ComposedGeom.java). The array may be
 * null, which every accessor checks for.
 *
 * Point.java and Geometry.java are not part of this model. A point counts
 * one point and is its own first, last and 0-th point; its WKT spelling is
 * the parameter `pointText`; and Point.equalsintern is taken to compare
 * the coordinates after casting its argument to Point.
 */
module JdbcGeometry {
  import opened Wrappers

  /** The composed classes of the client. */
  datatype Kind = LineString | LinearRing | Polygon | MultiPoint | MultiLineString | MultiPolygon | GeometryCollection

  /** A point's coordinates and its dimension (2, or 3 with z). */
  datatype Pt = Pt(x: real, y: real, z: real, dimension: int)

  datatype Geometry =
    | Point(p: Pt, srid: int)
    | Composed(kind: Kind, dimension: int, srid: int, subgeoms: Subgeoms)

  /** A ComposedGeom's subgeoms field: a null reference or an array. */
  datatype Subgeoms = Null | Array(elems: seq<Geometry>)

  /** Geometry's srid before anything sets it. */
  const SRID_UNSET := -1

  const NEGATIVE_INDEX := "Negative index not allowed"
  const EMPTY_GEOMETRY := "Empty Geometry has no Points!"
  const INDEX_TOO_LARGE := "Index too large!"
  const CLASS_CAST := "ClassCastException"

  function Dimension(g: Geometry): int
  {
    if g.Point? then g.p.dimension else g.dimension
  }

  /** The children of a composed geometry: none when the array is null. */
  function Kids(g: Geometry): (r: seq<Geometry>)
    ensures forall i :: 0 <= i < |r| ==> r[i] < g
  {
    if g.Composed? && g.subgeoms.Array? then
      g.subgeoms.elems
    else []
  }

  /**
   * The protected ComposedGeom(type, geoms) constructor: the children are
   * the given array, and the dimension is the first child's, or 0 when
   * there is none.
   */
  function NewComposed(kind: Kind, geoms: seq<Geometry>): (r: Geometry)
    ensures r.Composed? && r.kind == kind && r.srid == SRID_UNSET && Kids(r) == geoms
    ensures |geoms| > 0 ==> Dimension(r) == Dimension(geoms[0])
    ensures |geoms| == 0 ==> Dimension(r) == 0
  {
    Composed(kind, if |geoms| > 0 then Dimension(geoms[0]) else 0, SRID_UNSET, Array(geoms))
  }

  /** isEmpty: the array is null or has no element. */
  predicate IsEmpty(g: Geometry)
    requires g.Composed?
  {
    g.subgeoms.Null? || |g.subgeoms.elems| == 0
  }

  // ---- the points in depth-first order ----------------------------------------

  /** Every point of the tree, depth first, left to right. */
  function Leaves(g: Geometry): seq<Pt>
    decreases g, 1
  {
    if g.Point? then [g.p] else LeavesUpTo(g, |Kids(g)|)
  }

  /** The points of the first n children. */
  function LeavesUpTo(g: Geometry, n: nat): seq<Pt>
    requires n <= |Kids(g)|
    decreases g, 0, n
  {
    if n == 0 then [] else LeavesUpTo(g, n - 1) + Leaves(Kids(g)[n - 1])
  }

  /** The points of the first i children come before those of the first j. */
  lemma {:induction false} LeavesUpToPrefix(g: Geometry, i: nat, j: nat)
    requires i <= j <= |Kids(g)|
    ensures LeavesUpTo(g, i) <= LeavesUpTo(g, j)
    decreases j
  {
    if i < j {
      LeavesUpToPrefix(g, i, j - 1);
    }
  }

  /** An empty composed geometry has no points; the converse fails for children that are themselves empty. */
  lemma EmptyHasNoPoints(g: Geometry)
    requires g.Composed? && IsEmpty(g)
    ensures Leaves(g) == []
  {
  }

  /**
   * numPoints: 0 for a null or empty array, otherwise the sum of the
   * children's counts, which is the number of points of the tree.
   */
  method NumPoints(g: Geometry) returns (r: int)
    ensures r == |Leaves(g)|
    decreases g
  {
    if g.Point? {
      return 1;
    }
    if g.subgeoms.Null? || |g.subgeoms.elems| == 0 {
      return 0;
    }
    var subgeoms := g.subgeoms.elems;
    r := 0;
    var i := 0;
    while i < |subgeoms|
      invariant 0 <= i <= |subgeoms|
      invariant r == |LeavesUpTo(g, i)|
    {
      var np := NumPoints(subgeoms[i]);
      r := r + np;
      i := i + 1;
    }
  }

  /**
   * getPoint(n): the n-th point in depth-first order; a negative index, an
   * empty geometry and an index past the last point each throw.
   */
  method GetPoint(g: Geometry, n: int) returns (r: Result<Pt>)
    requires g.Composed?
    ensures n < 0 ==> r == Err(NEGATIVE_INDEX)
    ensures n >= 0 && IsEmpty(g) ==> r == Err(EMPTY_GEOMETRY)
    ensures n >= 0 && !IsEmpty(g) && n >= |Leaves(g)| ==> r == Err(INDEX_TOO_LARGE)
    ensures 0 <= n < |Leaves(g)| ==> r == Ok(Leaves(g)[n])
    decreases g
  {
    if n < 0 {
      return Err(NEGATIVE_INDEX);
    }
    if g.subgeoms.Null? || |g.subgeoms.elems| == 0 {
      return Err(EMPTY_GEOMETRY);
    }
    var subgeoms := g.subgeoms.elems;
    var m := n;
    var i := 0;
    while i < |subgeoms|
      invariant 0 <= i <= |subgeoms|
      invariant 0 <= m && m + |LeavesUpTo(g, i)| == n
    {
      var current := subgeoms[i];
      var np := NumPoints(current);
      if m < np {
        LeavesUpToPrefix(g, i + 1, |subgeoms|);
        assert LeavesUpTo(g, i + 1) == LeavesUpTo(g, i) + Leaves(current);
        assert Leaves(g)[n] == Leaves(current)[m];
        if current.Point? {
          return Ok(current.p);
        }
        r := GetPoint(current, m);
        return r;
      }
      m := m - np;
      i := i + 1;
    }
    return Err(INDEX_TOO_LARGE);
  }

  // ---- first and last point ----------------------------------------------------

  /**
   * getFirstPoint as written: the first point of the first child, throwing
   * when the array is null or empty at any level it descends through.
   */
  function FirstPoint(g: Geometry): (r: Result<Pt>)
    ensures r.Ok? ==> |Leaves(g)| > 0 && r.value == Leaves(g)[0]
    ensures r.Err? ==> r.msg == EMPTY_GEOMETRY
  {
    if g.Point? then Ok(g.p)
    else if |Kids(g)| == 0 then Err(EMPTY_GEOMETRY)
    else
      var r := FirstPoint(Kids(g)[0]);
      LeavesUpToPrefix(g, 1, |Kids(g)|);
      r
  }

  /** getLastPoint as written: the last point of the last child. */
  function LastPoint(g: Geometry): (r: Result<Pt>)
    ensures r.Ok? ==> |Leaves(g)| > 0 && r.value == Leaves(g)[|Leaves(g)| - 1]
    ensures r.Err? ==> r.msg == EMPTY_GEOMETRY
  {
    if g.Point? then Ok(g.p)
    else if |Kids(g)| == 0 then Err(EMPTY_GEOMETRY)
    else LastPoint(Kids(g)[|Kids(g)| - 1])
  }

  /** Every composed geometry in the tree has at least one child. */
  predicate Dense(g: Geometry)
  {
    g.Point? || (|Kids(g)| > 0 && forall i :: 0 <= i < |Kids(g)| ==> Dense(Kids(g)[i]))
  }

  /** On a tree without empty parts the optimised accessors agree with getPoint(0) and getPoint(numPoints() - 1). */
  lemma {:induction false} DenseEnds(g: Geometry)
    requires Dense(g)
    ensures FirstPoint(g).Ok? && LastPoint(g).Ok?
  {
    if g.Composed? {
      DenseEnds(Kids(g)[0]);
      DenseEnds(Kids(g)[|Kids(g)| - 1]);
    }
  }

  /**
   * A collection whose first child is an empty collection and whose second
   * is a point: getPoint(0) finds the point, getFirstPoint throws.
   */
  lemma FirstPointMissesLaterPoint(p: Pt)
    ensures var g := NewComposed(GeometryCollection, [NewComposed(GeometryCollection, []), Point(p, SRID_UNSET)]);
      Leaves(g) == [p] && FirstPoint(g) == Err(EMPTY_GEOMETRY)
  {
    var e := NewComposed(GeometryCollection, []);
    var g := NewComposed(GeometryCollection, [e, Point(p, SRID_UNSET)]);
    assert LeavesUpTo(g, 1) == [];
    assert LeavesUpTo(g, 2) == [p];
  }

  /**
   * The first point as getPoint(0) finds it: the empty geometry throws
   * EMPTY_GEOMETRY, a geometry with children but no points throws
   * INDEX_TOO_LARGE, otherwise the first point of the first child that has one.
   */
  function FirstPointFixed(g: Geometry): (r: Result<Pt>)
    requires g.Composed?
    ensures IsEmpty(g) ==> r == Err(EMPTY_GEOMETRY)
    ensures !IsEmpty(g) && Leaves(g) == [] ==> r == Err(INDEX_TOO_LARGE)
    ensures Leaves(g) != [] ==> r == Ok(Leaves(g)[0])
  {
    if IsEmpty(g) then Err(EMPTY_GEOMETRY)
    else FirstAmong(g, 0)
  }

  /** The first point of the children from index i on. */
  function FirstAmong(g: Geometry, i: nat): (r: Result<Pt>)
    requires g.Composed? && i <= |Kids(g)|
    requires LeavesUpTo(g, i) == []
    ensures Leaves(g) == [] ==> r == Err(INDEX_TOO_LARGE)
    ensures Leaves(g) != [] ==> r == Ok(Leaves(g)[0])
    decreases |Kids(g)| - i
  {
    LeavesUpToPrefix(g, i, |Kids(g)|);
    if i == |Kids(g)| then Err(INDEX_TOO_LARGE)
    else
      var kid := Leaves(Kids(g)[i]);
      LeavesUpToPrefix(g, i + 1, |Kids(g)|);
      assert LeavesUpTo(g, i + 1) == kid;
      if kid != [] then Ok(kid[0]) else FirstAmong(g, i + 1)
  }

  /** A collection whose last child is an empty collection: getLastPoint throws although the geometry has a point. */
  lemma LastPointMissesEarlierPoint(p: Pt)
    ensures var g := NewComposed(GeometryCollection, [Point(p, SRID_UNSET), NewComposed(GeometryCollection, [])]);
      Leaves(g) == [p] && LastPoint(g) == Err(EMPTY_GEOMETRY)
  {
    var e := NewComposed(GeometryCollection, []);
    var g := NewComposed(GeometryCollection, [Point(p, SRID_UNSET), e]);
    assert LeavesUpTo(g, 1) == [p];
    assert LeavesUpTo(g, 2) == [p];
  }

  /**
   * The last point as getPoint(numPoints() - 1) finds it when there is
   * one: the last point of the last child that has a point.
   */
  function LastPointFixed(g: Geometry): (r: Result<Pt>)
    requires g.Composed?
    ensures IsEmpty(g) ==> r == Err(EMPTY_GEOMETRY)
    ensures !IsEmpty(g) && Leaves(g) == [] ==> r == Err(INDEX_TOO_LARGE)
    ensures Leaves(g) != [] ==> r == Ok(Leaves(g)[|Leaves(g)| - 1])
  {
    if IsEmpty(g) then Err(EMPTY_GEOMETRY)
    else LastAmong(g, |Kids(g)|)
  }

  /** The last point of the first i children, when the later ones have none. */
  function LastAmong(g: Geometry, i: nat): (r: Result<Pt>)
    requires g.Composed? && i <= |Kids(g)|
    requires LeavesUpTo(g, i) == Leaves(g)
    ensures Leaves(g) == [] ==> r == Err(INDEX_TOO_LARGE)
    ensures Leaves(g) != [] ==> r == Ok(Leaves(g)[|Leaves(g)| - 1])
    decreases i
  {
    if i == 0 then Err(INDEX_TOO_LARGE)
    else
      var kid := Leaves(Kids(g)[i - 1]);
      if kid != [] then Ok(kid[|kid| - 1]) else LastAmong(g, i - 1)
  }

  // ---- equality ----------------------------------------------------------------

  /**
   * equalsintern as written, for a receiver and an argument of the same
   * class: a composed receiver casts its argument to ComposedGeom, then
   * compares null arrays, lengths and the children in order, stopping at
   * the first child that differs. The children are compared by their own
   * equalsintern, with no check that they are of the same class.
   */
  function EqualsIntern(self: Geometry, other: Geometry): (r: Result<bool>)
    decreases self, 1
  {
    if self.Point? then
      if other.Point? then Ok(self.p == other.p) else Err(CLASS_CAST)
    else if other.Point? then Err(CLASS_CAST)
    else if other.subgeoms.Null? && self.subgeoms.Null? then Ok(true)
    else if other.subgeoms.Null? || self.subgeoms.Null? then Ok(false)
    else if |other.subgeoms.elems| != |self.subgeoms.elems| then Ok(false)
    else ChildrenEqual(self, other, 0)
  }

  /** The loop over the children from index i on. */
  function ChildrenEqual(self: Geometry, other: Geometry, i: nat): (r: Result<bool>)
    requires self.Composed? && other.Composed? && |Kids(self)| == |Kids(other)| && i <= |Kids(self)|
    decreases self, 0, |Kids(self)| - i
  {
    if i == |Kids(self)| then Ok(true)
    else
      var c := EqualsIntern(Kids(self)[i], Kids(other)[i]);
      if c.Err? then c else if !c.value then Ok(false) else ChildrenEqual(self, other, i + 1)
  }

  /**
   * The Java loop calls other's child with this child as argument; the
   * comparison is symmetric, so the orientation does not change the result.
   */
  lemma {:induction false} EqualsInternSymmetric(a: Geometry, b: Geometry)
    ensures EqualsIntern(a, b) == EqualsIntern(b, a)
    decreases a, 1
  {
    if a.Composed? && b.Composed? && a.subgeoms.Array? && b.subgeoms.Array? && |Kids(a)| == |Kids(b)| {
      ChildrenSymmetric(a, b, 0);
    }
  }

  lemma {:induction false} ChildrenSymmetric(a: Geometry, b: Geometry, i: nat)
    requires a.Composed? && b.Composed? && |Kids(a)| == |Kids(b)| && i <= |Kids(a)|
    ensures ChildrenEqual(a, b, i) == ChildrenEqual(b, a, i)
    decreases a, 0, |Kids(a)| - i
  {
    if i < |Kids(a)| {
      EqualsInternSymmetric(Kids(a)[i], Kids(b)[i]);
      ChildrenSymmetric(a, b, i + 1);
    }
  }

  /**
   * Structural equality, the reference the lemmas compare equalsintern
   * against: the same variant, kind and dimension, then the children
   * pairwise in order. The srid is not compared.
   */
  predicate Equal(a: Geometry, b: Geometry)
    decreases a
  {
    match a
    case Point(p, _) => b.Point? && p == b.p
    case Composed(k, dim, _, subs) =>
      b.Composed? && b.kind == k && b.dimension == dim
      && subs.Null? == b.subgeoms.Null?
      && |Kids(a)| == |Kids(b)|
      && forall i :: 0 <= i < |Kids(a)| ==> Equal(Kids(a)[i], Kids(b)[i])
  }

  /** Equal is reflexive and symmetric. */
  lemma {:induction false} EqualReflexive(a: Geometry)
    ensures Equal(a, a)
  {
    if a.Composed? {
      forall i | 0 <= i < |Kids(a)|
        ensures Equal(Kids(a)[i], Kids(a)[i])
      {
        EqualReflexive(Kids(a)[i]);
      }
    }
  }

  lemma {:induction false} EqualSymmetric(a: Geometry, b: Geometry)
    requires Equal(a, b)
    ensures Equal(b, a)
  {
    if a.Composed? {
      forall i | 0 <= i < |Kids(b)|
        ensures Equal(Kids(b)[i], Kids(a)[i])
      {
        EqualSymmetric(Kids(a)[i], Kids(b)[i]);
      }
    }
  }

  /** Equal geometries have the same points. */
  lemma {:induction false} EqualSameLeaves(a: Geometry, b: Geometry)
    requires Equal(a, b)
    ensures Leaves(a) == Leaves(b)
    decreases a, 1
  {
    if a.Composed? {
      EqualSameLeavesUpTo(a, b, |Kids(a)|);
    }
  }

  lemma {:induction false} EqualSameLeavesUpTo(a: Geometry, b: Geometry, n: nat)
    requires a.Composed? && Equal(a, b) && n <= |Kids(a)|
    ensures LeavesUpTo(a, n) == LeavesUpTo(b, n)
    decreases a, 0, n
  {
    if n > 0 {
      EqualSameLeavesUpTo(a, b, n - 1);
      EqualSameLeaves(Kids(a)[n - 1], Kids(b)[n - 1]);
    }
  }

  /** Where Equal holds, equalsintern agrees. */
  lemma {:induction false} EqualMeansEqualsIntern(a: Geometry, b: Geometry)
    requires Equal(a, b)
    ensures EqualsIntern(a, b) == Ok(true)
    decreases a, 1
  {
    if a.Composed? && a.subgeoms.Array? {
      EqualChildren(a, b, 0);
    }
  }

  lemma {:induction false} EqualChildren(a: Geometry, b: Geometry, i: nat)
    requires a.Composed? && Equal(a, b) && i <= |Kids(a)|
    ensures ChildrenEqual(a, b, i) == Ok(true)
    decreases a, 0, |Kids(a)| - i
  {
    if i < |Kids(a)| {
      EqualMeansEqualsIntern(Kids(a)[i], Kids(b)[i]);
      EqualChildren(a, b, i + 1);
    }
  }

  /**
   * Two collections whose only children are a point and a line: the line
   * casts the point to ComposedGeom and equalsintern throws, where the two
   * are simply not equal.
   */
  lemma MixedChildrenThrow(p: Pt, q: Pt)
    ensures var a := NewComposed(GeometryCollection, [Point(p, SRID_UNSET)]);
      var b := NewComposed(GeometryCollection, [NewComposed(LineString, [Point(p, SRID_UNSET), Point(q, SRID_UNSET)])]);
      EqualsIntern(a, b) == Err(CLASS_CAST) && !Equal(a, b)
  {
    var pt := Point(p, SRID_UNSET);
    var a := NewComposed(GeometryCollection, [pt]);
    var l := NewComposed(LineString, [pt, Point(q, SRID_UNSET)]);
    var b := NewComposed(GeometryCollection, [l]);
    assert Kids(a)[0] == pt && Kids(b)[0] == l;
    assert EqualsIntern(pt, l) == Err(CLASS_CAST);
    assert ChildrenEqual(a, b, 0) == Err(CLASS_CAST);
    assert !Equal(pt, l);
  }

  /**
   * A collection holding a line and one holding a multipoint with the same
   * points: equalsintern never looks at the children's class and finds them
   * equal.
   */
  lemma ChildKindIgnored(p: Pt, q: Pt)
    ensures var pts := [Point(p, SRID_UNSET), Point(q, SRID_UNSET)];
      var a := NewComposed(GeometryCollection, [NewComposed(LineString, pts)]);
      var b := NewComposed(GeometryCollection, [NewComposed(MultiPoint, pts)]);
      EqualsIntern(a, b) == Ok(true) && !Equal(a, b)
  {
    var pts := [Point(p, SRID_UNSET), Point(q, SRID_UNSET)];
    var l := NewComposed(LineString, pts);
    var m := NewComposed(MultiPoint, pts);
    var a := NewComposed(GeometryCollection, [l]);
    var b := NewComposed(GeometryCollection, [m]);
    assert Kids(l) == pts && Kids(m) == pts;
    assert EqualsIntern(pts[0], pts[0]) == Ok(true);
    assert EqualsIntern(pts[1], pts[1]) == Ok(true);
    assert ChildrenEqual(l, m, 2) == Ok(true);
    assert ChildrenEqual(l, m, 1) == Ok(true);
    assert ChildrenEqual(l, m, 0) == Ok(true);
    assert EqualsIntern(l, m) == Ok(true);
    assert Kids(a)[0] == l && Kids(b)[0] == m;
    assert ChildrenEqual(a, b, 1) == Ok(true);
    assert ChildrenEqual(a, b, 0) == Ok(true);
    assert !Equal(l, m);
  }

  // ---- text --------------------------------------------------------------------

  /** mediumWKT: " EMPTY" for a null or empty array, otherwise the children's text, comma-separated, in parentheses. */
  function MediumText(g: Geometry, pointText: Pt -> string): string
    decreases g, 1
  {
    if g.Point? then pointText(g.p)
    else if |Kids(g)| == 0 then " EMPTY"
    else "(" + InnerText(g, |Kids(g)|, pointText) + ")"
  }

  /** innerWKT over the first n children, n >= 1. */
  function InnerText(g: Geometry, n: nat, pointText: Pt -> string): string
    requires 1 <= n <= |Kids(g)|
    decreases g, 0, n
  {
    if n == 1 then MediumText(Kids(g)[0], pointText)
    else InnerText(g, n - 1, pointText) + "," + MediumText(Kids(g)[n - 1], pointText)
  }

  /** The text of a composed geometry is " EMPTY" exactly when it is empty. */
  lemma EmptyText(g: Geometry, pointText: Pt -> string)
    requires g.Composed?
    ensures MediumText(g, pointText) == " EMPTY" <==> IsEmpty(g)
  {
    if !IsEmpty(g) {
      assert MediumText(g, pointText)[0] == '(';
    }
  }

  /** The children's texts and one comma between each two, with nothing else but the parentheses. */
  lemma {:induction false} InnerTextLength(g: Geometry, n: nat, pointText: Pt -> string)
    requires 1 <= n <= |Kids(g)|
    ensures |InnerText(g, n, pointText)| == n - 1 + TextSum(g, n, pointText)
  {
    if n > 1 {
      InnerTextLength(g, n - 1, pointText);
    }
  }

  /** The total length of the first n children's texts. */
  function TextSum(g: Geometry, n: nat, pointText: Pt -> string): nat
    requires n <= |Kids(g)|
  {
    if n == 0 then 0 else TextSum(g, n - 1, pointText) + |MediumText(Kids(g)[n - 1], pointText)|
  }

  /** mediumWKT appends the text to the buffer. */
  method MediumWkt(g: Geometry, sb: string, pointText: Pt -> string) returns (out: string)
    ensures out == sb + MediumText(g, pointText)
    decreases g, 1
  {
    if g.Point? {
      return sb + pointText(g.p);
    }
    if g.subgeoms.Null? || |g.subgeoms.elems| == 0 {
      return sb + " EMPTY";
    }
    out := sb + "(";
    out := InnerWkt(g, out, pointText);
    out := out + ")";
  }

  /** innerWKT: the first child, then a comma and each further child. */
  method InnerWkt(g: Geometry, sb: string, pointText: Pt -> string) returns (out: string)
    requires |Kids(g)| >= 1
    ensures out == sb + InnerText(g, |Kids(g)|, pointText)
    decreases g, 0
  {
    var subgeoms := Kids(g);
    out := MediumWkt(subgeoms[0], sb, pointText);
    var i := 1;
    while i < |subgeoms|
      invariant 1 <= i <= |subgeoms|
      invariant out == sb + InnerText(g, i, pointText)
    {
      out := out + ",";
      out := MediumWkt(subgeoms[i], out, pointText);
      i := i + 1;
    }
  }

  // ---- the memoised hash code ----------------------------------------------------

  const NULL_POINTER := "NullPointerException"

  /** The values of the two hash fields. */
  datatype HashFields = HashFields(nohash: bool, hashcode: bv32)

  /**
   * The hash fields of a composed geometry. Object.hashCode of the
   * geometry and of its array are identity hashes; the model receives them
   * as parameters, the array's as None when the array is null.
   */
  class HashCache {
    var nohash: bool
    var hashcode: bv32

    constructor ()
      ensures nohash && hashcode == 0
    {
      nohash := true;
      hashcode := 0;
    }

    /** hashCode: computed on the first call, then returned unchanged. */
    method HashCode(superHash: bv32, arrayHash: Option<bv32>) returns (h: Result<bv32>)
      modifies this
      ensures var step := HashStep(old(nohash), old(hashcode), superHash, arrayHash);
        if step.Ok? then HashFields(nohash, hashcode) == step.value && h == Ok(hashcode)
        else h == Err(step.msg) && nohash == old(nohash) && hashcode == old(hashcode)
    {
      if nohash {
        if arrayHash.None? {
          return Err(NULL_POINTER);
        }
        hashcode := superHash ^ arrayHash.value;
        nohash := false;
      }
      h := Ok(hashcode);
    }
  }

  /**
   * The hash fields after one call: the first call combines the two
   * identity hashes, or throws when the array is null; later calls keep
   * the fields.
   */
  function HashStep(nohash: bool, hashcode: bv32, superHash: bv32, arrayHash: Option<bv32>): (r: Result<HashFields>)
    ensures r.Err? <==> nohash && arrayHash.None?
    ensures r.Err? ==> r.msg == NULL_POINTER
    ensures r.Ok? ==> !r.value.nohash
    ensures !nohash ==> r == Ok(HashFields(nohash, hashcode))
  {
    if !nohash then Ok(HashFields(nohash, hashcode))
    else if arrayHash.None? then Err(NULL_POINTER)
    else Ok(HashFields(false, superHash ^ arrayHash.value))
  }

  /** After a first call that succeeds, every later call gives the same value whatever the identity hashes are then. */
  lemma HashMemoised(s1: bv32, a1: bv32, s2: bv32, a2: Option<bv32>, hashcode: bv32)
    ensures var first := HashStep(true, hashcode, s1, Some(a1));
      first == Ok(HashFields(false, s1 ^ a1)) && HashStep(first.value.nohash, first.value.hashcode, s2, a2) == first
  {
  }
}
