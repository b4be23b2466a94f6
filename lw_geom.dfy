/**
 * The type-generic LWGEOM functions of liblwgeom (liblwgeom/lwgeom.c): the
 * type classification, promotion to a MULTI type, SRID propagation, ring
 * counting, dimensionality, structural equality and the box/SRID cache.
 *
 * The C dispatches on the type number and casts the struct accordingly;
 * here the struct is a `Geom` whose variant matches its type (`Shaped`).
 */
module LwGeom {
  import opened Bytes
  import opened Wrappers
  import opened PointArrays
  import opened LwTypes
  import LwPoint
  import LwPoly
  import LwTriangle

  // ---- type classification ----------------------------------------------------

  /** lwtype_is_collection: the nine types that hold sub-geometries. */
  predicate IsCollectionType(t: nat)
  {
    t == MULTIPOINTTYPE || t == MULTILINETYPE || t == MULTIPOLYGONTYPE || t == COLLECTIONTYPE
    || t == COMPOUNDTYPE || t == MULTICURVETYPE || t == MULTISURFACETYPE
    || t == POLYHEDRALSURFACETYPE || t == TINTYPE
  }

  /** lwgeom_is_collection on a (non-NULL) geometry: its type number is a collection type. */
  predicate IsCollection(g: Geom)
  {
    IsCollectionType(TypeOf(g.typ))
  }

  /**
   * lwtype_get_collectiontype: the homogeneous collection that holds a
   * type, GEOMETRYCOLLECTION by default. Every type is held by a
   * collection type, and only the seven singleton types named in the
   * switch get a homogeneous one; every other type, the collections
   * included, gets GEOMETRYCOLLECTION.
   */
  function GetCollectionType(t: nat): (c: nat)
    ensures IsCollectionType(c)
    ensures c != COLLECTIONTYPE <==>
      t in {POINTTYPE, LINETYPE, POLYGONTYPE, CIRCSTRINGTYPE, COMPOUNDTYPE, CURVEPOLYTYPE, TRIANGLETYPE}
  {
    if t == POINTTYPE then MULTIPOINTTYPE
    else if t == LINETYPE then MULTILINETYPE
    else if t == POLYGONTYPE then MULTIPOLYGONTYPE
    else if t == CIRCSTRINGTYPE then MULTICURVETYPE
    else if t == COMPOUNDTYPE then MULTICURVETYPE
    else if t == CURVEPOLYTYPE then MULTISURFACETYPE
    else if t == TRIANGLETYPE then TINTYPE
    else COLLECTIONTYPE
  }

  /** The MULTITYPE table of lwgeom.c: the MULTI type a singleton type is promoted to, 0 for none. */
  function MultiType(t: nat): nat
    requires t < 16
  {
    [0, MULTIPOINTTYPE, MULTILINETYPE, MULTIPOLYGONTYPE, 0, 0, 0, 0,
     MULTICURVETYPE, MULTICURVETYPE, MULTISURFACETYPE, POLYHEDRALSURFACETYPE, 0, TINTYPE, 0, 0][t]
  }

  /**
   * The table agrees with lwtype_get_collectiontype on the singleton types
   * that are not collections, except the triangle: the table's TIN entry
   * sits at position 13 (POLYHEDRALSURFACETYPE), so a triangle has no
   * entry. Every non-zero entry is a collection type.
   */
  lemma MultiTypeTable(t: nat)
    requires t < 16
    ensures MultiType(t) != 0 ==> IsCollectionType(MultiType(t))
    ensures t in {POINTTYPE, LINETYPE, POLYGONTYPE, CIRCSTRINGTYPE, CURVEPOLYTYPE} ==> MultiType(t) == GetCollectionType(t)
    ensures MultiType(TRIANGLETYPE) == 0 && GetCollectionType(TRIANGLETYPE) == TINTYPE
  {
  }

  // ---- lwgeom_as_multi --------------------------------------------------------

  /**
   * What lwgeom_as_multi returns: a clone of the input, or the arguments of
   * the lwcollection_construct call that wraps it (lwcollection_construct
   * is not part of this model): the MULTI type, the input's SRID and box,
   * and the one member.
   */
  datatype MultiResult = Cloned(g: Geom) | Wrapped(mtype: nat, srid: int, bbox: Option<Box2D>, member: Geom)

  /**
   * lwgeom_as_multi: collections are cloned unchanged; a singleton with a
   * MULTITYPE entry becomes a one-member collection of that type whose
   * member is a clone of the input with SRID -1 and no box (its type byte
   * is kept), the SRID and box moving to the collection; anything else is
   * cloned unchanged.
   */
  function AsMulti(g: Geom): (r: MultiResult)
    ensures IsCollection(g) ==> r == Cloned(g)
    ensures !IsCollection(g) && MultiType(TypeOf(g.typ)) != 0 ==>
      r.Wrapped? && r.mtype == MultiType(TypeOf(g.typ)) && r.srid == g.srid && r.bbox == g.bbox
      && r.member.srid == SRID_UNKNOWN && r.member.bbox.None? && r.member.typ == g.typ
    ensures !IsCollection(g) && MultiType(TypeOf(g.typ)) == 0 ==> r == Cloned(g)
  {
    if IsCollection(g) then Cloned(g)
    else
      var t := TypeOf(g.typ);
      if MultiType(t) != 0 then
        var member := match g
          case Single(typ, _, _, pa) => Single(typ, SRID_UNKNOWN, None, pa)
          case Poly(typ, _, _, rings, maxrings) => Poly(typ, SRID_UNKNOWN, None, rings, maxrings)
          case Coll(typ, _, _, geoms) => Coll(typ, SRID_UNKNOWN, None, geoms);
        Wrapped(MultiType(t), g.srid, g.bbox, member)
      else Cloned(g)
  }

  /**
   * Promotion keeps the geometry: the member differs from the input only
   * in its SRID and box, which the wrapper carries instead; and what it
   * wraps, it wraps in a collection type, so promoting again clones.
   */
  lemma AsMultiKeepsGeometry(g: Geom)
    ensures AsMulti(g).Wrapped? ==>
      var w := AsMulti(g);
      IsCollectionType(w.mtype) && w.member.Count() == g.Count() && w.member.Members() == g.Members()
      && (g.Single? ==> w.member == Single(g.typ, SRID_UNKNOWN, None, g.pa))
      && (g.Poly? ==> w.member == Poly(g.typ, SRID_UNKNOWN, None, g.rings, g.maxrings))
  {
    if AsMulti(g).Wrapped? {
      MultiTypeTable(TypeOf(g.typ));
    }
  }

  // ---- lwgeom_set_srid -------------------------------------------------------------

  /** g with its own SRID field replaced. */
  function WithSRID(g: Geom, srid: int): (r: Geom)
    ensures r.srid == srid && r.typ == g.typ && r.bbox == g.bbox && r.Count() == g.Count()
  {
    match g
    case Single(typ, _, bbox, pa) => Single(typ, srid, bbox, pa)
    case Poly(typ, _, bbox, rings, maxrings) => Poly(typ, srid, bbox, rings, maxrings)
    case Coll(typ, _, bbox, geoms) => Coll(typ, srid, bbox, geoms)
  }

  /**
   * lwgeom_set_srid: the root gets srid; when the root is a collection
   * type, every member is set (recursively) to SRID_UNKNOWN. The SRID flag
   * of the type byte is not touched. Curve polygons are not collection
   * types, so their rings keep their SRIDs.
   */
  function SetSRID(g: Geom, srid: int): (r: Geom)
    ensures r.srid == srid && r.typ == g.typ
    decreases g
  {
    if g.Coll? && IsCollection(g) then
      Coll(g.typ, srid, g.bbox, seq(|g.geoms|, i requires 0 <= i < |g.geoms| => SetSRID(g.geoms[i], SRID_UNKNOWN)))
    else WithSRID(g, srid)
  }

  /** Every member of every collection in g, at any depth, has SRID_UNKNOWN. */
  predicate MembersUnknown(g: Geom)
    decreases g
  {
    g.Coll? && IsCollection(g) ==>
      forall i :: 0 <= i < |g.geoms| ==> g.geoms[i].srid == SRID_UNKNOWN && MembersUnknown(g.geoms[i])
  }

  /** Type bytes, boxes, counts and the nesting are kept: only SRID fields change. */
  predicate SameShape(a: Geom, b: Geom)
    decreases a
  {
    a.typ == b.typ && a.bbox == b.bbox && a.Count() == b.Count()
    && (a.Single? <==> b.Single?) && (a.Poly? <==> b.Poly?) && (a.Coll? <==> b.Coll?)
    && (a.Single? ==> a.pa == b.pa)
    && (a.Poly? ==> a.rings == b.rings && a.maxrings == b.maxrings)
    && (a.Coll? ==> |a.geoms| == |b.geoms| && forall i :: 0 <= i < |a.geoms| ==> SameShape(a.geoms[i], b.geoms[i]))
  }

  /**
   * lwgeom_set_srid sets the root's SRID, leaves every member of a
   * collection with SRID_UNKNOWN at every depth, changes nothing but SRID
   * fields, and setting the same SRID twice is setting it once.
   */
  lemma {:induction false} SetSRIDProperties(g: Geom, srid: int)
    ensures SetSRID(g, srid).srid == srid
    ensures MembersUnknown(SetSRID(g, srid))
    ensures SameShape(g, SetSRID(g, srid))
    ensures SetSRID(SetSRID(g, srid), srid) == SetSRID(g, srid)
    decreases g
  {
    var r := SetSRID(g, srid);
    if !(g.Coll? && IsCollection(g)) {
      SameShapeReflexive(g);
    } else {
      forall i | 0 <= i < |g.geoms|
        ensures r.geoms[i].srid == SRID_UNKNOWN && MembersUnknown(r.geoms[i])
        ensures SameShape(g.geoms[i], r.geoms[i])
        ensures SetSRID(r.geoms[i], SRID_UNKNOWN) == r.geoms[i]
      {
        SetSRIDProperties(g.geoms[i], SRID_UNKNOWN);
      }
      var rr := SetSRID(r, srid);
      assert rr.geoms == r.geoms;
    }
  }

  lemma {:induction false} SameShapeReflexive(g: Geom)
    ensures SameShape(g, g)
    decreases g
  {
    if g.Coll? {
      forall i | 0 <= i < |g.geoms| ensures SameShape(g.geoms[i], g.geoms[i]) {
        SameShapeReflexive(g.geoms[i]);
      }
    }
  }

  // ---- emptiness, rings, dimensionality -------------------------------------------

  /** The types lwgeom_is_empty and its relatives dispatch on: 1 to 15; type 0 is an error. */
  predicate KnownType(t: nat)
  {
    1 <= t <= 15
  }

  /**
   * lwgeom_is_empty: a point, line, circular string or triangle without an
   * array or points; a polygon without rings; a collection-like struct
   * without members. Any other type number is an error.
   */
  function IsEmpty(g: Geom): (r: Result<bool>)
    requires Shaped(g)
    ensures r.Ok? <==> KnownType(TypeOf(g.typ))
    ensures r.Ok? ==> (r.value <==> g.Count() == 0 && (g.Single? ==> g.pa.None? || |g.pa.value.points| == 0))
  {
    if !KnownType(TypeOf(g.typ)) then Err(UNSUPPORTED_TYPE)
    else match g
      case Single(_, _, _, pa) => Ok(pa.None? || |pa.value.points| == 0)
      case Poly(_, _, _, rings, _) => Ok(rings.None? || |rings.value| == 0)
      case Coll(_, _, _, geoms) => Ok(|geoms| == 0)
  }

  /** Every type number in g, its own and its members' at any depth, is a known one. */
  predicate AllKnown(g: Geom)
    decreases g
  {
    KnownType(TypeOf(g.typ)) && (g.Coll? ==> forall i :: 0 <= i < |g.geoms| ==> AllKnown(g.geoms[i]))
  }

  const UNSUPPORTED_TYPE := "lwgeom_is_empty: unsupported input geometry type"

  /** The first error among rs, else the sum of the counts. */
  function SumResults(rs: seq<Result<nat>>): (r: Result<nat>)
    ensures r.Ok? <==> forall i :: 0 <= i < |rs| ==> rs[i].Ok?
    ensures r.Err? ==> exists i :: 0 <= i < |rs| && rs[i] == r
  {
    if rs == [] then Ok(0)
    else if rs[0].Err? then rs[0]
    else
      var rest := SumResults(rs[1..]);
      if rest.Err? then rest else Ok(rs[0].value + rest.value)
  }

  /** The first error among rs, else the largest value, 0 for none. */
  function MaxResults(rs: seq<Result<nat>>): (r: Result<nat>)
    ensures r.Ok? <==> forall i :: 0 <= i < |rs| ==> rs[i].Ok?
  {
    if rs == [] then Ok(0)
    else if rs[0].Err? then rs[0]
    else
      var rest := MaxResults(rs[1..]);
      if rest.Err? then rest else Ok(if rs[0].value > rest.value then rs[0].value else rest.value)
  }

  /**
   * lwgeom_count_rings: 0 for an empty geometry and for points and curves,
   * 1 for a triangle, nrings for a polygon or curve polygon, the sum over
   * the members for the surface collections; type 0 is an error.
   */
  function CountRings(g: Geom): (r: Result<nat>)
    requires Shaped(g)
    ensures AllKnown(g) ==> r.Ok?
    ensures r.Err? ==> r.msg == UNSUPPORTED_TYPE
    ensures r.Ok? && TypeOf(g.typ) in {POINTTYPE, LINETYPE, CIRCSTRINGTYPE, MULTIPOINTTYPE, MULTILINETYPE} ==> r.value == 0
    decreases g
  {
    var e := IsEmpty(g);
    if e.Err? then Err(e.msg)
    else if e.value then Ok(0)
    else
      var t := TypeOf(g.typ);
      if t in {POINTTYPE, CIRCSTRINGTYPE, COMPOUNDTYPE, MULTICURVETYPE, MULTIPOINTTYPE, MULTILINETYPE, LINETYPE} then Ok(0)
      else if t == TRIANGLETYPE then Ok(1)
      else if t == POLYGONTYPE || t == CURVEPOLYTYPE then Ok(g.Count())
      else
        SumResults(seq(|g.geoms|, i requires 0 <= i < |g.geoms| => CountRings(g.geoms[i])))
  }

  /**
   * lwgeom_count_vertices: 0 for an empty geometry, 1 for a point, the
   * number of points of a line, circular string or triangle, the points
   * of all rings of a polygon, and the sum over the members of every
   * collection-like struct (lwcollection_count_vertices); type 0 is an
   * error.
   */
  function CountVertices(g: Geom): (r: Result<nat>)
    requires Shaped(g)
    ensures r.Ok? <==> AllKnown(g)
    ensures r.Err? ==> r.msg == UNSUPPORTED_TYPE
    ensures r.Ok? && g.Single? && !IsEmpty(g).value ==> r.value >= 1
    decreases g
  {
    var e := IsEmpty(g);
    if e.Err? then Err(e.msg)
    else if e.value then Ok(0)
    else
      var t := TypeOf(g.typ);
      if t == POINTTYPE then Ok(1)
      else if g.Single? then Ok(|g.pa.value.points|)
      else if g.Poly? then Ok(SumPoints(LwPoly.RingsOf(g)))
      else
        var rs := seq(|g.geoms|, i requires 0 <= i < |g.geoms| => CountVertices(g.geoms[i]));
        assert forall i :: 0 <= i < |g.geoms| ==> g.geoms[i] in g.geoms && rs[i] == CountVertices(g.geoms[i]);
        SumResults(rs)
  }

  /**
   * A multipoint of non-empty points has one vertex per member, and a
   * line's vertex count is its number of points.
   */
  lemma {:induction false} CountVerticesMultiPoint(g: Geom)
    requires Shaped(g) && g.Coll? && TypeOf(g.typ) == MULTIPOINTTYPE
    requires forall i :: 0 <= i < |g.geoms| ==>
      g.geoms[i].Single? && TypeOf(g.geoms[i].typ) == POINTTYPE && g.geoms[i].pa.Some? && |g.geoms[i].pa.value.points| > 0
    ensures CountVertices(g) == Ok(|g.geoms|)
  {
    var rs := seq(|g.geoms|, i requires 0 <= i < |g.geoms| => CountVertices(g.geoms[i]));
    forall i | 0 <= i < |g.geoms| ensures rs[i] == Ok(1) {
      assert Shaped(g.geoms[i]);
    }
    SumOnes(rs);
  }

  lemma {:induction false} SumOnes(rs: seq<Result<nat>>)
    requires forall i :: 0 <= i < |rs| ==> rs[i] == Ok(1)
    ensures SumResults(rs) == Ok(|rs|)
  {
    if rs != [] {
      SumOnes(rs[1..]);
    }
  }

  /** The sum over two runs of results is the sum of the two sums, and the first error wins. */
  lemma {:induction false} SumResultsAppend(a: seq<Result<nat>>, b: seq<Result<nat>>)
    ensures SumResults(a + b) ==
      if SumResults(a).Err? then SumResults(a)
      else if SumResults(b).Err? then SumResults(b)
      else Ok(SumResults(a).value + SumResults(b).value)
  {
    if a != [] {
      assert (a + b)[1..] == a[1..] + b;
      SumResultsAppend(a[1..], b);
    } else {
      assert a + b == b;
    }
  }

  /** One more count at the end: the first error stays, else the new count is added or its error taken. */
  lemma SumResultsSnoc(a: seq<Result<nat>>, x: Result<nat>)
    ensures SumResults(a + [x]) ==
      if SumResults(a).Err? then SumResults(a)
      else if x.Err? then x
      else Ok(SumResults(a).value + x.value)
  {
    SumResultsAppend(a, [x]);
    assert [x][1..] == [];
  }

  /**
   * Ring counts add up over a surface collection: a multipolygon's ring
   * count is the sum of its polygons' nrings.
   */
  lemma {:induction false} MultiPolygonRings(g: Geom)
    requires Shaped(g) && g.Coll? && TypeOf(g.typ) == MULTIPOLYGONTYPE
    requires forall i :: 0 <= i < |g.geoms| ==> g.geoms[i].Poly?
    ensures CountRings(g) == Ok(PolyRingTotal(g.geoms))
  {
    var rs := seq(|g.geoms|, i requires 0 <= i < |g.geoms| => CountRings(g.geoms[i]));
    forall i | 0 <= i < |g.geoms| ensures rs[i] == Ok(g.geoms[i].Count()) {
      assert Shaped(g.geoms[i]);
    }
    RingTotals(g.geoms, rs);
  }

  /** The total nrings of a list of polygons. */
  function PolyRingTotal(ps: seq<Geom>): nat
  {
    if ps == [] then 0 else ps[0].Count() + PolyRingTotal(ps[1..])
  }

  lemma {:induction false} RingTotals(ps: seq<Geom>, rs: seq<Result<nat>>)
    requires |rs| == |ps| && forall i :: 0 <= i < |ps| ==> rs[i] == Ok(ps[i].Count())
    ensures SumResults(rs) == Ok(PolyRingTotal(ps))
  {
    if ps != [] {
      RingTotals(ps[1..], rs[1..]);
    }
  }

  /**
   * lwgeom_dimensionality: 0 for puntal types, 1 for lineal ones, 2 for
   * areal ones, 3 or 2 for polyhedral surfaces and TINs as lwgeom_is_solid
   * says (not part of this model: a parameter), and for a
   * GEOMETRYCOLLECTION the largest over its members, 0 when it has none.
   * Type 0 is an error.
   */
  function Dimensionality(g: Geom, isSolid: Geom -> bool): (r: Result<nat>)
    requires Shaped(g)
    ensures r.Ok? ==> r.value <= 3
    ensures TypeOf(g.typ) != COLLECTIONTYPE ==> (r.Ok? <==> KnownType(TypeOf(g.typ)))
    decreases g
  {
    var t := TypeOf(g.typ);
    if t == POINTTYPE || t == MULTIPOINTTYPE then Ok(0)
    else if t in {LINETYPE, CIRCSTRINGTYPE, MULTILINETYPE, COMPOUNDTYPE, MULTICURVETYPE} then Ok(1)
    else if t in {POLYGONTYPE, TRIANGLETYPE, CURVEPOLYTYPE, MULTIPOLYGONTYPE, MULTISURFACETYPE} then Ok(2)
    else if t == POLYHEDRALSURFACETYPE || t == TINTYPE then Ok(if isSolid(g) then 3 else 2)
    else if t == COLLECTIONTYPE then
      var rs := seq(|g.geoms|, i requires 0 <= i < |g.geoms| => Dimensionality(g.geoms[i], isSolid));
      assert forall i :: 0 <= i < |g.geoms| ==> g.geoms[i] in g.geoms && rs[i] == Dimensionality(g.geoms[i], isSolid);
      MaxAtMost(rs, 3);
      MaxResults(rs)
    else Err("lwgeom_dimensionality: unsupported input geometry type")
  }

  /** No value above b gives a largest value above b. */
  lemma {:induction false} MaxAtMost(rs: seq<Result<nat>>, b: nat)
    requires forall i :: 0 <= i < |rs| ==> rs[i].Ok? ==> rs[i].value <= b
    ensures MaxResults(rs).Ok? ==> MaxResults(rs).value <= b
  {
    if rs != [] {
      assert forall i :: 0 <= i < |rs[1..]| ==> rs[1..][i] == rs[i + 1];
      MaxAtMost(rs[1..], b);
    }
  }

  /** The largest value is at least every value, and is one of them unless there are none. */
  lemma {:induction false} MaxResultsBounds(rs: seq<Result<nat>>)
    requires MaxResults(rs).Ok?
    ensures forall i :: 0 <= i < |rs| ==> rs[i].value <= MaxResults(rs).value
    ensures rs == [] ==> MaxResults(rs).value == 0
    ensures rs != [] ==> exists i :: 0 <= i < |rs| && rs[i].value == MaxResults(rs).value
  {
    if rs != [] {
      MaxResultsBounds(rs[1..]);
      if MaxResults(rs[1..]).value > rs[0].value {
        var j :| 0 < |rs[1..]| && 0 <= j < |rs[1..]| && rs[1..][j].value == MaxResults(rs[1..]).value;
        assert rs[j + 1].value == MaxResults(rs).value;
      }
      forall i | 1 <= i < |rs| ensures rs[i].value <= MaxResults(rs).value {
        assert rs[i] == rs[1..][i - 1];
      }
    }
  }

  /**
   * Dimensionality is at most 3, and a collection's is the largest of its
   * members': at least each member's, equal to one of them, 0 when empty.
   */
  lemma {:induction false} DimensionalityBounds(g: Geom, isSolid: Geom -> bool)
    requires Shaped(g) && Dimensionality(g, isSolid).Ok?
    ensures Dimensionality(g, isSolid).value <= 3
    ensures TypeOf(g.typ) == COLLECTIONTYPE ==>
      forall i :: 0 <= i < |g.geoms| ==> (Dimensionality(g.geoms[i], isSolid).Ok?
         && Dimensionality(g.geoms[i], isSolid).value <= Dimensionality(g, isSolid).value)
    ensures TypeOf(g.typ) == COLLECTIONTYPE && |g.geoms| == 0 ==> Dimensionality(g, isSolid).value == 0
    ensures TypeOf(g.typ) == COLLECTIONTYPE && |g.geoms| > 0 ==>
      exists i :: 0 <= i < |g.geoms| && Dimensionality(g.geoms[i], isSolid) == Dimensionality(g, isSolid)
    decreases g
  {
    if TypeOf(g.typ) == COLLECTIONTYPE {
      var rs := seq(|g.geoms|, i requires 0 <= i < |g.geoms| => Dimensionality(g.geoms[i], isSolid));
      assert Dimensionality(g, isSolid) == MaxResults(rs);
      MaxResultsBounds(rs);
      forall i | 0 <= i < |g.geoms|
        ensures Dimensionality(g.geoms[i], isSolid).Ok? && Dimensionality(g.geoms[i], isSolid).value <= Dimensionality(g, isSolid).value
      {
        assert rs[i] == Dimensionality(g.geoms[i], isSolid);
      }
      if |g.geoms| > 0 {
        var j :| 0 <= j < |rs| && rs[j].value == MaxResults(rs).value;
        assert Shaped(g.geoms[j]);
        DimensionalityBounds(g.geoms[j], isSolid);
        assert rs[j] == Dimensionality(g, isSolid);
      }
    }
  }

  // ---- lwgeom_same ----------------------------------------------------------------

  /**
   * lwgeom_same: false for different type numbers, for different Z/M
   * flags, and for two cached boxes that differ; then the type's own test:
   * lwpoint_same, lwpoly_same, lwtriangle_same, lwline_same (ptarray_same
   * of the arrays) and, for the multi types, TINs, polyhedral surfaces and
   * collections, lwcollection_same (not part of this model: a parameter).
   * The curve types are an error.
   */
  function Same(g1: Geom, g2: Geom, collSame: (Geom, Geom) -> bool): (r: Result<bool>)
    requires Shaped(g1) && Shaped(g2)
    requires (g1.Single? ==> g1.pa.Some?) && (g2.Single? ==> g2.pa.Some?)
    ensures TypeOf(g1.typ) != TypeOf(g2.typ) ==> r == Ok(false)
    ensures TypeOf(g1.typ) == TypeOf(g2.typ) && (TypeHasZ(g1.typ) != TypeHasZ(g2.typ) || TypeHasM(g1.typ) != TypeHasM(g2.typ)) ==> r == Ok(false)
    ensures g1.bbox.Some? && g2.bbox.Some? && g1.bbox != g2.bbox ==> r == Ok(false)
    ensures r == Ok(true) ==> TypeOf(g1.typ) == TypeOf(g2.typ) && TypeHasZ(g1.typ) == TypeHasZ(g2.typ) && TypeHasM(g1.typ) == TypeHasM(g2.typ)
  {
    var t := TypeOf(g1.typ);
    if t != TypeOf(g2.typ) then Ok(false)
    else if TypeHasZ(g1.typ) != TypeHasZ(g2.typ) || TypeHasM(g1.typ) != TypeHasM(g2.typ) then Ok(false)
    else if g1.bbox.Some? && g2.bbox.Some? && g1.bbox != g2.bbox then Ok(false)
    else if t in {POINTTYPE, LINETYPE, TRIANGLETYPE} then Ok(PtArrSame(g1.pa.value, g2.pa.value))
    else if t == POLYGONTYPE then Ok(LwPoly.SameRings(g1, g2))
    else if t in {MULTIPOINTTYPE, MULTILINETYPE, MULTIPOLYGONTYPE, POLYHEDRALSURFACETYPE, TINTYPE, COLLECTIONTYPE} then
      Ok(collSame(g1, g2))
    else Err("lwgeom_same: unsupported geometry type")
  }

  /** A point, line, triangle or polygon is the same as itself. */
  lemma SameReflexive(g: Geom, collSame: (Geom, Geom) -> bool)
    requires Shaped(g) && (g.Single? ==> g.pa.Some?) && TypeOf(g.typ) in {POINTTYPE, LINETYPE, TRIANGLETYPE, POLYGONTYPE}
    ensures Same(g, g, collSame) == Ok(true)
  {
    if g.Single? {
      PtArrSameIsEquality(g.pa.value, g.pa.value);
    }
    if g.Poly? {
      LwPoly.SameRingsIsEquality(g, g);
    }
  }

  // ---- SRID and box cache ------------------------------------------------------------

  /** lwgeom_has_srid: the SRID is positive. */
  predicate HasSRID(g: Geom)
  {
    g.srid > 0
  }

  /** lwgeom_drop_srid: the SRID flag is cleared and the SRID set to -1. */
  function DropSRID(g: Geom): (r: Geom)
    ensures !HasSRID(r) && !TypeHasSRID(r.typ) && r.srid == SRID_UNKNOWN
    ensures TypeOf(r.typ) == TypeOf(g.typ) && TypeHasBBox(r.typ) == TypeHasBBox(g.typ)
    ensures TypeHasZ(r.typ) == TypeHasZ(g.typ) && TypeHasM(r.typ) == TypeHasM(g.typ)
  {
    var w := WithSRID(g, SRID_UNKNOWN);
    WithTyp(w, WithSRIDFlag(g.typ, false))
  }

  /** g with its type byte replaced. */
  function WithTyp(g: Geom, t: byte): (r: Geom)
    ensures r.typ == t && r.srid == g.srid && r.bbox == g.bbox && r.Count() == g.Count()
  {
    match g
    case Single(_, srid, bbox, pa) => Single(t, srid, bbox, pa)
    case Poly(_, srid, bbox, rings, maxrings) => Poly(t, srid, bbox, rings, maxrings)
    case Coll(_, srid, bbox, geoms) => Coll(t, srid, bbox, geoms)
  }

  /** g with its box field replaced. */
  function WithBox(g: Geom, b: Option<Box2D>): (r: Geom)
    ensures r.typ == g.typ && r.srid == g.srid && r.bbox == b && r.Count() == g.Count()
  {
    match g
    case Single(typ, srid, _, pa) => Single(typ, srid, b, pa)
    case Poly(typ, srid, _, rings, maxrings) => Poly(typ, srid, b, rings, maxrings)
    case Coll(typ, srid, _, geoms) => Coll(typ, srid, b, geoms)
  }

  /**
   * lwgeom_add_bbox: nothing changes when a box is cached; otherwise the
   * box lwgeom_compute_box2d gives (not part of this model: `computed`,
   * None for NULL) is stored and the box flag set.
   */
  function AddBBox(g: Geom, computed: Option<Box2D>): (r: Geom)
    ensures g.bbox.Some? ==> r == g
    ensures g.bbox.None? ==> r.bbox == computed && TypeHasBBox(r.typ) && r.srid == g.srid
    ensures g.bbox.None? ==> TypeOf(r.typ) == TypeOf(g.typ) && TypeHasSRID(r.typ) == TypeHasSRID(g.typ)
    ensures g.bbox.None? ==> TypeHasZ(r.typ) == TypeHasZ(g.typ) && TypeHasM(r.typ) == TypeHasM(g.typ)
  {
    if g.bbox.Some? then g
    else WithTyp(WithBox(g, computed), WithBBoxFlag(g.typ, true))
  }

  /** lwgeom_drop_bbox: the box is released and the box flag cleared. */
  function DropBBox(g: Geom): (r: Geom)
    ensures r.bbox.None? && !TypeHasBBox(r.typ) && r.srid == g.srid
    ensures TypeOf(r.typ) == TypeOf(g.typ) && TypeHasSRID(r.typ) == TypeHasSRID(g.typ)
  {
    WithTyp(WithBox(g, None), WithBBoxFlag(g.typ, false))
  }

  /**
   * Adding a box is idempotent once a box is there: a second call, with
   * whatever lwgeom_compute_box2d would give, changes nothing. Dropping
   * the box and adding it back leaves the computed box and the flag set.
   */
  lemma BBoxCache(g: Geom, computed: Option<Box2D>, again: Option<Box2D>)
    requires g.bbox.Some? || computed.Some?
    ensures AddBBox(AddBBox(g, computed), again) == AddBBox(g, computed)
    ensures AddBBox(DropBBox(g), computed).bbox == computed && TypeHasBBox(AddBBox(DropBBox(g), computed).typ)
  {
  }
}
