/**
 * The structural repairs applied before a geometry is handed to GEOS:
 * lwgeom_make_geos_friendly and its helpers (postgis/lwgeom_geos_clean.c)
 * and the make-valid helpers of ST_MakeValid (postgis/lwgeom_geos.c).
 *
 * Both walk the geometry by type: points and multipoints are left alone,
 * lines get a second point, every polygon ring is closed in 2D and padded
 * to at least four points, collections are rebuilt member by member
 * without their cached box, and curve types are refused. The two differ
 * only in what they do with a one-point line: the GEOS-friendly repair
 * duplicates the point, make-valid turns the line into a point.
 *
 * Geometries are values here; where the source replaces `poly->rings` or
 * `line->points` in place, the repaired struct is returned.
 */
module GeosClean {
  import opened Wrappers
  import opened PointArrays
  import opened LwTypes
  import LwPoint

  const UNSUPPORTED := "unsupported input geometry type"

  /** Which repair: lwgeom_make_geos_friendly or lwgeom_make_valid. */
  datatype Repair = GeosFriendly | MakeValid

  // ---- rings ---------------------------------------------------------------

  /** A ring both repairs can read: well formed, with a point 0. */
  predicate IsRing(pa: PtArr)
  {
    pa.WellFormed() && |pa.points| >= 1
  }

  /** ptarray_addPoint at the end with one of the array's own points: the point appended. */
  function Appended(pa: PtArr, p: Raw): (r: PtArr)
    requires pa.WellFormed() && |p| == NDims(pa.hasz, pa.hasm)
    ensures r.WellFormed() && r.hasz == pa.hasz && r.hasm == pa.hasm && r.points == pa.points + [p]
  {
    var q := Padded(p, NDims(pa.hasz, pa.hasm));
    assert q == p;
    PtArr(pa.hasz, pa.hasm, pa.points + [q])
  }

  /**
   * ptarray_close2d: the ring itself when its first and last points agree
   * in x and y, else a copy with its first point appended, which is then
   * closed.
   */
  function Close2d(ring: PtArr): (r: PtArr)
    requires IsRing(ring)
    ensures IsRing(r) && Closed2d(r) && r.hasz == ring.hasz && r.hasm == ring.hasm
    ensures r.points == ring.points + (if Closed2d(ring) then [] else [ring.points[0]])
  {
    if Closed2d(ring) then ring else Appended(ring, ring.points[0])
  }

  /** How many copies of the first point bring n points up to four. */
  function Shortfall(n: nat): nat
  {
    if n < 4 then 4 - n else 0
  }

  /** What ring_make_geos_friendly returns: the closed ring, padded with copies of its first point to four points. */
  function FriendlyRing(ring: PtArr): PtArr
    requires IsRing(ring)
  {
    var c := Close2d(ring);
    PtArr(c.hasz, c.hasm, c.points + seq(Shortfall(|c.points|), _ => ring.points[0]))
  }

  /**
   * The repaired ring is closed in 2D, has at least four points, starts
   * with the input's points and adds only copies of the first point; a
   * closed ring of four or more points comes back as it was, so the repair
   * is idempotent.
   */
  lemma FriendlyRingProps(ring: PtArr)
    requires IsRing(ring)
    ensures var r := FriendlyRing(ring);
      IsRing(r) && Closed2d(r) && |r.points| >= 4 && r.hasz == ring.hasz && r.hasm == ring.hasm
      && ring.points <= r.points
      && (forall i :: |ring.points| <= i < |r.points| ==> r.points[i] == ring.points[0])
      && (Closed2d(ring) && |ring.points| >= 4 ==> r == ring)
      && FriendlyRing(r) == r
  {
    var c := Close2d(ring);
    var r := FriendlyRing(ring);
    var pad := seq(Shortfall(|c.points|), _ => ring.points[0]);
    assert r.points == ring.points + ((if Closed2d(ring) then [] else [ring.points[0]]) + pad);
    assert r.points[0] == ring.points[0];
    if |pad| > 0 {
      assert r.points[|r.points| - 1] == ring.points[0];
    } else {
      assert r.points == c.points;
    }
    assert IsRing(r) && Closed2d(r);
    assert Close2d(r) == r;
    assert Shortfall(|r.points|) == 0;
    assert FriendlyRing(r).points == r.points + [];
    if Closed2d(ring) && |ring.points| >= 4 {
      assert r.points == ring.points + [];
    }
  }

  /** ring_make_geos_friendly: close the ring, then add its first point while it has fewer than four. */
  method RingMakeFriendly(ring: PtArr) returns (r: PtArr)
    requires IsRing(ring)
    ensures r == FriendlyRing(ring)
  {
    ghost var c := Close2d(ring);
    r := Close2d(ring);
    while |r.points| < 4
      invariant IsRing(r) && r.hasz == ring.hasz && r.hasm == ring.hasm
      invariant |c.points| <= |r.points| <= |c.points| + Shortfall(|c.points|)
      invariant r.points == c.points + seq(|r.points| - |c.points|, _ => ring.points[0])
      decreases 4 - |r.points|
    {
      assert r.points[0] == ring.points[0];
      r := Appended(r, r.points[0]);
    }
  }

  /**
   * ring_make_valid as written: close the ring, and when it then has
   * fewer than four points add its first point once, with no loop.
   */
  function RingMakeValidAsWritten(ring: PtArr): PtArr
    requires IsRing(ring)
  {
    var c := Close2d(ring);
    if |c.points| < 4 then Appended(c, c.points[0]) else c
  }

  /** The single padding step reaches four points only for a ring of at least three points once closed. */
  lemma RingMakeValidAgrees(ring: PtArr)
    requires IsRing(ring)
    ensures RingMakeValidAsWritten(ring) == FriendlyRing(ring) <==> |Close2d(ring).points| >= 3
  {
    var c := Close2d(ring);
    var a := RingMakeValidAsWritten(ring);
    var f := FriendlyRing(ring);
    FriendlyRingProps(ring);
    if |c.points| >= 4 {
      assert f.points == c.points + [];
    } else if |c.points| == 3 {
      assert c.points[0] == ring.points[0];
      assert a.points == f.points;
    } else {
      assert |a.points| == |c.points| + 1 < 4;
    }
  }

  /** A closed ring of two equal points: ring_make_valid leaves it at three points, short of the four a ring needs. */
  lemma RingMakeValidPadsOnce(p: Raw)
    requires |p| == 2
    ensures var ring := PtArr(false, false, [p, p]);
      IsRing(ring) && |RingMakeValidAsWritten(ring).points| == 3 && |FriendlyRing(ring).points| == 4
  {
    var ring := PtArr(false, false, [p, p]);
    assert Closed2d(ring);
    assert Close2d(ring) == ring;
  }

  // ---- geometries ------------------------------------------------------------

  predicate IsCollectionKind(t: nat)
  {
    t == MULTILINETYPE || t == MULTIPOLYGONTYPE || t == COLLECTIONTYPE
  }

  /**
   * What the type switch reads without faulting: a line is an LWLINE with a
   * point array, a polygon an LWPOLY whose rings have a point 0, a multi
   * line, multi polygon or collection an LWCOLLECTION of such members.
   */
  predicate Repairable(g: Geom)
    decreases g
  {
    var t := TypeOf(g.typ);
    if t == LINETYPE then LineReadable(g)
    else if t == POLYGONTYPE then PolyReadable(g)
    else if IsCollectionKind(t) then g.Coll? && forall i :: 0 <= i < |g.geoms| ==> Repairable(g.geoms[i])
    else true
  }

  /** An LWLINE with a well-formed point array. */
  predicate LineReadable(g: Geom)
  {
    g.Single? && g.pa.Some? && g.pa.value.WellFormed()
  }

  /** An LWPOLY whose rings all have a point 0. */
  predicate PolyReadable(g: Geom)
  {
    g.Poly? && (g.rings.Some? ==> forall i :: 0 <= i < |g.rings.value| ==> IsRing(g.rings.value[i]))
  }

  /** The types the switch accepts, in every collection member too. */
  predicate Supported(g: Geom)
    decreases g
  {
    var t := TypeOf(g.typ);
    (t == POINTTYPE || t == MULTIPOINTTYPE || t == LINETYPE || t == POLYGONTYPE || IsCollectionKind(t))
    && (IsCollectionKind(t) && g.Coll? ==> forall i :: 0 <= i < |g.geoms| ==> Supported(g.geoms[i]))
  }

  /** What GEOS accepts structurally: no line of exactly one point, every ring closed in 2D with at least four points. */
  predicate Ready(g: Geom)
    decreases g
  {
    var t := TypeOf(g.typ);
    Supported(g) && Repairable(g)
    && (t == LINETYPE ==> |g.pa.value.points| != 1)
    && (t == POLYGONTYPE && g.rings.Some? ==>
          forall i :: 0 <= i < |g.rings.value| ==> Closed2d(g.rings.value[i]) && |g.rings.value[i].points| >= 4)
    && (IsCollectionKind(t) ==> forall i :: 0 <= i < |g.geoms| ==> Ready(g.geoms[i]))
  }

  /**
   * lwline_make_geos_friendly duplicates the point of a one-point line;
   * lwline_make_valid turns such a line into a point (lwpoint_construct
   * with the line's SRID, no box and the line's points). Other lines come
   * back as they are.
   */
  function LineRepaired(v: Repair, line: Geom): (r: Geom)
    requires LineReadable(line)
    ensures |line.pa.value.points| != 1 ==> r == line
    ensures |line.pa.value.points| == 1 && v == GeosFriendly ==>
      r == line.(pa := Some(PtArr(line.pa.value.hasz, line.pa.value.hasm, line.pa.value.points + line.pa.value.points)))
    ensures |line.pa.value.points| == 1 && v == MakeValid ==>
      r.Single? && TypeOf(r.typ) == POINTTYPE && r.srid == line.srid && r.bbox.None? && r.pa == line.pa
  {
    var pa := line.pa.value;
    if |pa.points| != 1 then line
    else match v
      case GeosFriendly =>
        assert pa.points == [pa.points[0]];
        line.(pa := Some(Appended(pa, pa.points[0])))
      case MakeValid => LwPoint.Construct(line.srid, None, line.pa).value
  }

  /** Every ring replaced by its repaired form, in order; a polygon without rings comes back as it is. */
  function PolyRepaired(poly: Geom): (r: Geom)
    requires PolyReadable(poly)
  {
    if poly.Count() == 0 then poly
    else poly.(rings := Some(seq(|poly.rings.value|, i requires 0 <= i < |poly.rings.value| => FriendlyRing(poly.rings.value[i]))))
  }

  /**
   * The switch of lwgeom_make_geos_friendly and lwgeom_make_valid: points
   * and multipoints as they are, lines and polygons repaired, collections
   * rebuilt, any other type an error (lwerror does not return, so an error
   * in a member is the collection's error).
   */
  function Repaired(v: Repair, g: Geom): (r: Result<Geom>)
    requires Repairable(g)
    ensures r.Err? ==> r.msg == UNSUPPORTED
    decreases g, 1
  {
    var t := TypeOf(g.typ);
    if t == POINTTYPE || t == MULTIPOINTTYPE then Ok(g)
    else if t == LINETYPE then Ok(LineRepaired(v, g))
    else if t == POLYGONTYPE then Ok(PolyRepaired(g))
    else if IsCollectionKind(t) then CollectionRepaired(v, g)
    else Err(UNSUPPORTED)
  }

  /**
   * lwcollection_make_geos_friendly / lwcollection_make_valid: a copy of
   * the collection's header without its box, holding the repaired members
   * in order.
   */
  function CollectionRepaired(v: Repair, g: Geom): (r: Result<Geom>)
    requires g.Coll? && forall i :: 0 <= i < |g.geoms| ==> Repairable(g.geoms[i])
    ensures r.Err? ==> r.msg == UNSUPPORTED
    decreases g, 0
  {
    if exists i | 0 <= i < |g.geoms| :: Repaired(v, g.geoms[i]).Err? then Err(UNSUPPORTED)
    else Ok(Coll(g.typ, g.srid, None,
      seq(|g.geoms|, i requires 0 <= i < |g.geoms| && Repaired(v, g.geoms[i]).Ok? => Repaired(v, g.geoms[i]).value)))
  }

  /** A repair fails exactly on a geometry holding a type the switch refuses. */
  lemma {:induction false} RepairedErrIff(v: Repair, g: Geom)
    requires Repairable(g)
    ensures Repaired(v, g).Ok? <==> Supported(g)
    decreases g
  {
    var t := TypeOf(g.typ);
    if IsCollectionKind(t) {
      forall i | 0 <= i < |g.geoms|
        ensures Repaired(v, g.geoms[i]).Ok? <==> Supported(g.geoms[i])
      {
        RepairedErrIff(v, g.geoms[i]);
      }
    }
  }

  /**
   * A repaired geometry is ready for GEOS, keeps the SRID, keeps the type
   * (except a one-point line made valid, which becomes a point), keeps the
   * number of collection members, and a second repair changes nothing.
   */
  lemma {:induction false} RepairedReady(v: Repair, g: Geom)
    requires Repairable(g) && Repaired(v, g).Ok?
    ensures var r := Repaired(v, g).value;
      Ready(r) && r.srid == g.srid && Repaired(v, r) == Ok(r)
      && (TypeOf(g.typ) == LINETYPE && v == MakeValid && |g.pa.value.points| == 1 ==> TypeOf(r.typ) == POINTTYPE)
      && (TypeOf(g.typ) != LINETYPE || v == GeosFriendly || |g.pa.value.points| != 1 ==> r.typ == g.typ)
      && (IsCollectionKind(TypeOf(g.typ)) ==> r.Coll? && |r.geoms| == |g.geoms| && r.bbox.None?)
    decreases g
  {
    var t := TypeOf(g.typ);
    var r := Repaired(v, g).value;
    if t == POINTTYPE || t == MULTIPOINTTYPE {
    } else if t == LINETYPE {
      var pa := g.pa.value;
      if |pa.points| == 1 && v == GeosFriendly {
        assert |r.pa.value.points| == 2;
      }
    } else if t == POLYGONTYPE {
      if g.Count() != 0 {
        var rs := g.rings.value;
        forall i | 0 <= i < |rs|
          ensures IsRing(r.rings.value[i]) && Closed2d(r.rings.value[i]) && |r.rings.value[i].points| >= 4
          ensures FriendlyRing(r.rings.value[i]) == r.rings.value[i]
        {
          FriendlyRingProps(rs[i]);
        }
        var ps := r.rings.value;
        assert seq(|ps|, i requires 0 <= i < |ps| => FriendlyRing(ps[i])) == ps;
      }
    } else {
      assert IsCollectionKind(t);
      assert Repaired(v, g) == CollectionRepaired(v, g);
      assert !exists i | 0 <= i < |g.geoms| :: Repaired(v, g.geoms[i]).Err?;
      forall i | 0 <= i < |g.geoms|
        ensures r.geoms[i] == Repaired(v, g.geoms[i]).value
        ensures Ready(r.geoms[i]) && Repaired(v, r.geoms[i]) == Ok(r.geoms[i])
      {
        RepairedReady(v, g.geoms[i]);
      }
      assert !exists i | 0 <= i < |r.geoms| :: Repaired(v, r.geoms[i]).Err?;
      assert CollectionRepaired(v, r).value.geoms == r.geoms;
    }
  }

  // ---- the repairs as the source runs them -------------------------------------

  /** lwpoly_make_geos_friendly: a polygon without rings as it is, else a new ring array filled in a loop. */
  method PolyMakeFriendly(poly: Geom) returns (r: Geom)
    requires PolyReadable(poly)
    ensures r == PolyRepaired(poly)
  {
    if poly.Count() == 0 {
      return poly;
    }
    var rings := poly.rings.value;
    var newRings := new PtArr[|rings|](_ => rings[0]);
    for i := 0 to |rings|
      invariant forall k :: 0 <= k < i ==> newRings[k] == FriendlyRing(rings[k])
    {
      var ringOut := RingMakeFriendly(rings[i]);
      newRings[i] := ringOut;
    }
    assert newRings[..] == PolyRepaired(poly).rings.value;
    r := poly.(rings := Some(newRings[..]));
  }

  /**
   * lwpoly_make_valid: every ring repaired (with the loop of the
   * GEOS-friendly repair) and kept, counted into a new ring array.
   */
  method PolyMakeValid(poly: Geom) returns (r: Geom)
    requires PolyReadable(poly)
    ensures r == PolyRepaired(poly)
  {
    var nrings := poly.Count();
    if nrings == 0 {
      return poly;
    }
    var rings := poly.rings.value;
    var newRings := new PtArr[nrings](_ => rings[0]);
    var newNrings := 0;
    for i := 0 to nrings
      invariant newNrings == i
      invariant forall k :: 0 <= k < i ==> newRings[k] == FriendlyRing(rings[k])
    {
      var ringOut := RingMakeFriendly(rings[i]);
      newRings[newNrings] := ringOut;
      newNrings := newNrings + 1;
    }
    assert newRings[..newNrings] == PolyRepaired(poly).rings.value;
    r := poly.(rings := Some(newRings[..newNrings]));
  }

  /** lwgeom_make_geos_friendly. */
  method MakeGeosFriendly(g: Geom) returns (r: Result<Geom>)
    requires Repairable(g)
    ensures r == Repaired(GeosFriendly, g)
    decreases g, 1
  {
    var t := TypeOf(g.typ);
    if t == POINTTYPE || t == MULTIPOINTTYPE {
      r := Ok(g);
    } else if t == LINETYPE {
      r := Ok(LineRepaired(GeosFriendly, g));
    } else if t == POLYGONTYPE {
      var p := PolyMakeFriendly(g);
      r := Ok(p);
    } else if IsCollectionKind(t) {
      r := CollectionMakeFriendly(g);
    } else {
      r := Err(UNSUPPORTED);
    }
  }

  /** lwcollection_make_geos_friendly: the members repaired one by one into a new member array. */
  method CollectionMakeFriendly(g: Geom) returns (r: Result<Geom>)
    requires g.Coll? && forall i :: 0 <= i < |g.geoms| ==> Repairable(g.geoms[i])
    ensures r == CollectionRepaired(GeosFriendly, g)
    decreases g, 0
  {
    var newGeoms := new Geom[|g.geoms|](_ => g);
    var newNgeoms := 0;
    for i := 0 to |g.geoms|
      invariant newNgeoms == i
      invariant forall k :: 0 <= k < i ==> Repaired(GeosFriendly, g.geoms[k]).Ok?
      invariant forall k :: 0 <= k < i ==> newGeoms[k] == Repaired(GeosFriendly, g.geoms[k]).value
    {
      var newg := MakeGeosFriendly(g.geoms[i]);
      if newg.Err? {
        assert Repaired(GeosFriendly, g.geoms[i]).Err?;
        return newg;
      }
      newGeoms[newNgeoms] := newg.value;
      newNgeoms := newNgeoms + 1;
    }
    assert newGeoms[..newNgeoms] == CollectionRepaired(GeosFriendly, g).value.geoms;
    r := Ok(Coll(g.typ, g.srid, None, newGeoms[..newNgeoms]));
  }

  /** lwgeom_make_valid. */
  method MakeValidGeom(g: Geom) returns (r: Result<Geom>)
    requires Repairable(g)
    ensures r == Repaired(MakeValid, g)
    decreases g, 1
  {
    var t := TypeOf(g.typ);
    if t == POINTTYPE || t == MULTIPOINTTYPE {
      r := Ok(g);
    } else if t == LINETYPE {
      r := Ok(LineRepaired(MakeValid, g));
    } else if t == POLYGONTYPE {
      var p := PolyMakeValid(g);
      r := Ok(p);
    } else if IsCollectionKind(t) {
      r := CollectionMakeValid(g);
    } else {
      r := Err(UNSUPPORTED);
    }
  }

  /** lwcollection_make_valid: the members made valid one by one into a new member array. */
  method CollectionMakeValid(g: Geom) returns (r: Result<Geom>)
    requires g.Coll? && forall i :: 0 <= i < |g.geoms| ==> Repairable(g.geoms[i])
    ensures r == CollectionRepaired(MakeValid, g)
    decreases g, 0
  {
    var newGeoms := new Geom[|g.geoms|](_ => g);
    var newNgeoms := 0;
    for i := 0 to |g.geoms|
      invariant newNgeoms == i
      invariant forall k :: 0 <= k < i ==> Repaired(MakeValid, g.geoms[k]).Ok?
      invariant forall k :: 0 <= k < i ==> newGeoms[k] == Repaired(MakeValid, g.geoms[k]).value
    {
      var newg := MakeValidGeom(g.geoms[i]);
      if newg.Err? {
        assert Repaired(MakeValid, g.geoms[i]).Err?;
        return newg;
      }
      newGeoms[newNgeoms] := newg.value;
      newNgeoms := newNgeoms + 1;
    }
    assert newGeoms[..newNgeoms] == CollectionRepaired(MakeValid, g).value.geoms;
    r := Ok(Coll(g.typ, g.srid, None, newGeoms[..newNgeoms]));
  }
}
