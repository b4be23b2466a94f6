/**
 * The structural part of liblwgeom's geodetic support
 * (liblwgeom/lwgeodetic.c): the longitude/latitude range check, the
 * vertex count and the way per-array geodetic boxes are gathered over
 * rings and members. These functions handle the seven OGC types only.
 *
 * Coordinates are the bit patterns of doubles, compared by `Key`
 * (Bytes); the trigonometry that turns points into a box is not
 * modelled: a box is described by the point arrays it is computed from.
 */
module LwGeodetic {
  import opened Bytes
  import opened Wrappers
  import opened LwTypes
  import LwPoly
  import LwGeom

  /** The bit patterns of 180.0, 90.0, -180.0 and -90.0. */
  const DEG180: word := 0x4066_8000_0000_0000
  const DEG90: word := 0x4056_8000_0000_0000
  const NEG180: word := 0xC066_8000_0000_0000
  const NEG90: word := 0xC056_8000_0000_0000

  /** The types the geodetic functions dispatch on. */
  predicate IsGeodeticType(t: nat)
  {
    t in {POINTTYPE, LINETYPE, POLYGONTYPE, MULTIPOINTTYPE, MULTILINETYPE, MULTIPOLYGONTYPE, COLLECTIONTYPE}
  }

  /** The collection types among them. */
  predicate IsGeodeticCollection(t: nat)
  {
    t in {MULTIPOINTTYPE, MULTILINETYPE, MULTIPOLYGONTYPE, COLLECTIONTYPE}
  }

  /** lwgeom_needs_bbox: every type but a point needs a box. */
  predicate NeedsBBox(g: Geom)
  {
    TypeOf(g.typ) != POINTTYPE
  }

  /**
   * getPoint2d_p_ro: the x and y of point n, which the C asserts is
   * within the array.
   */
  function Point2d(pa: PtArr, n: int): (xy: seq<word>)
    requires pa.WellFormed() && 0 <= n < |pa.points|
    ensures |xy| == 2 && xy == pa.points[n][..2]
  {
    pa.points[n][..2]
  }

  // ---- the range check -----------------------------------------------------------------

  /** The test of ptarray_check_geodetic on one point: not x < -180, y < -90, x > 180 or y > 90. */
  predicate InRange(xy: seq<word>)
    requires |xy| == 2
  {
    !(DoubleLess(xy[0], NEG180) || DoubleLess(xy[1], NEG90) || DoubleLess(DEG180, xy[0]) || DoubleLess(DEG90, xy[1]))
  }

  /** The range is [-180, 180] by [-90, 90] in number order: the negated bounds are the negated numbers. */
  lemma InRangeBounds(xy: seq<word>)
    requires |xy| == 2
    ensures Key(NEG180) == -Key(DEG180) && Key(NEG90) == -Key(DEG90)
    ensures InRange(xy) <==> -Key(DEG180) <= Key(xy[0]) <= Key(DEG180) && -Key(DEG90) <= Key(xy[1]) <= Key(DEG90)
  {
  }

  /** Every point of the array is in range. */
  predicate PtArrGeodetic(pa: PtArr)
    requires pa.WellFormed()
  {
    forall i :: 0 <= i < |pa.points| ==> InRange(Point2d(pa, i))
  }

  /** ptarray_check_geodetic: false at the first point out of range, true if there is none. */
  method CheckPtArray(pa: PtArr) returns (ok: bool)
    requires pa.WellFormed()
    ensures ok <==> PtArrGeodetic(pa)
    ensures !ok ==> exists i :: 0 <= i < |pa.points| && !InRange(Point2d(pa, i))
  {
    var t := 0;
    while t < |pa.points|
      invariant 0 <= t <= |pa.points|
      invariant forall i :: 0 <= i < t ==> InRange(Point2d(pa, i))
    {
      var pt := Point2d(pa, t);
      if DoubleLess(pt[0], NEG180) || DoubleLess(pt[1], NEG90) || DoubleLess(DEG180, pt[0]) || DoubleLess(DEG90, pt[1]) {
        return false;
      }
      t := t + 1;
    }
    return true;
  }

  /** The point arrays the check reads: present, with the ordinates their flags say. */
  predicate Readable(g: Geom)
    decreases g
  {
    match g
    case Single(_, _, _, pa) => pa.Some? && pa.value.WellFormed()
    case Poly(_, _, _, rings, _) => rings.Some? ==> forall i :: 0 <= i < |rings.value| ==> rings.value[i].WellFormed()
    case Coll(_, _, _, geoms) => forall i :: 0 <= i < |geoms| ==> Readable(geoms[i])
  }

  /**
   * lwgeom_check_geodetic: a point or line is checked by its array, a
   * polygon ring by ring until one fails, a collection member by member
   * until one fails; any other type is an error.
   */
  function Geodetic(g: Geom): Result<bool>
    requires Shaped(g) && Readable(g)
    decreases g, |g.Members()| + 1
  {
    var t := TypeOf(g.typ);
    if t == POINTTYPE || t == LINETYPE then Ok(PtArrGeodetic(g.pa.value))
    else if t == POLYGONTYPE then
      Ok(forall i :: 0 <= i < |LwPoly.RingsOf(g)| ==> PtArrGeodetic(LwPoly.RingsOf(g)[i]))
    else if IsGeodeticCollection(t) then GeodeticFrom(g, 0)
    else Err("unsupported input geometry type")
  }

  /** The members of g from position i on, checked in order until one is not Ok(true). */
  function GeodeticFrom(g: Geom, i: nat): Result<bool>
    requires Shaped(g) && Readable(g) && g.Coll? && i <= |g.geoms|
    decreases g, |g.geoms| - i
  {
    if i == |g.geoms| then Ok(true)
    else
      assert g.geoms[i] in g.geoms;
      var r := Geodetic(g.geoms[i]);
      if r != Ok(true) then r else GeodeticFrom(g, i + 1)
  }

  /** lwgeom_check_geodetic with its loops over rings and members. */
  method CheckGeodetic(g: Geom) returns (r: Result<bool>)
    requires Shaped(g) && Readable(g)
    ensures r == Geodetic(g)
    decreases g, |g.Members()| + 1
  {
    var t := TypeOf(g.typ);
    if t == POINTTYPE || t == LINETYPE {
      var ok := CheckPtArray(g.pa.value);
      return Ok(ok);
    } else if t == POLYGONTYPE {
      var rings := LwPoly.RingsOf(g);
      var i := 0;
      while i < |rings|
        invariant 0 <= i <= |rings|
        invariant forall k :: 0 <= k < i ==> PtArrGeodetic(rings[k])
      {
        var ok := CheckPtArray(rings[i]);
        if !ok {
          return Ok(false);
        }
        i := i + 1;
      }
      return Ok(true);
    } else if IsGeodeticCollection(t) {
      var i := 0;
      while i < |g.geoms|
        invariant 0 <= i <= |g.geoms|
        invariant GeodeticFrom(g, i) == GeodeticFrom(g, 0)
      {
        assert g.geoms[i] in g.geoms;
        var m := CheckGeodetic(g.geoms[i]);
        if m != Ok(true) {
          return m;
        }
        i := i + 1;
      }
      return Ok(true);
    }
    return Err("unsupported input geometry type");
  }

  // ---- what the check means -----------------------------------------------------------

  /** Built from the seven types only. */
  predicate Supported(g: Geom)
    requires Shaped(g)
    decreases g
  {
    var t := TypeOf(g.typ);
    t in {POINTTYPE, LINETYPE, POLYGONTYPE}
    || (IsGeodeticCollection(t) && forall i :: 0 <= i < |g.geoms| ==> Supported(g.geoms[i]))
  }

  /** Every point of every array of g is in range. */
  predicate AllInRange(g: Geom)
    requires Readable(g)
    decreases g
  {
    match g
    case Single(_, _, _, pa) => PtArrGeodetic(pa.value)
    case Poly(_, _, _, _, _) => forall i :: 0 <= i < |LwPoly.RingsOf(g)| ==> PtArrGeodetic(LwPoly.RingsOf(g)[i])
    case Coll(_, _, _, geoms) => forall i :: 0 <= i < |geoms| ==> AllInRange(geoms[i])
  }

  /**
   * The geodetic check holds exactly when g is built from the seven
   * types and every point of every ring and member is in range; when it
   * is false, some point is out of range.
   */
  lemma {:induction false} GeodeticMeaning(g: Geom)
    requires Shaped(g) && Readable(g)
    ensures Geodetic(g) == Ok(true) <==> Supported(g) && AllInRange(g)
    ensures Geodetic(g) == Ok(false) ==> !AllInRange(g)
    decreases g, |g.Members()| + 1
  {
    if IsGeodeticCollection(TypeOf(g.typ)) {
      GeodeticFromMeaning(g, 0);
    }
  }

  lemma {:induction false} GeodeticFromMeaning(g: Geom, i: nat)
    requires Shaped(g) && Readable(g) && g.Coll? && i <= |g.geoms|
    ensures GeodeticFrom(g, i) == Ok(true) <==>
      forall k :: i <= k < |g.geoms| ==> Supported(g.geoms[k]) && AllInRange(g.geoms[k])
    ensures GeodeticFrom(g, i) == Ok(false) ==> exists k :: i <= k < |g.geoms| && !AllInRange(g.geoms[k])
    decreases g, |g.geoms| - i
  {
    if i < |g.geoms| {
      assert g.geoms[i] in g.geoms;
      GeodeticMeaning(g.geoms[i]);
      GeodeticFromMeaning(g, i + 1);
    }
  }

  // ---- vertex count --------------------------------------------------------------------

  /**
   * lwgeom_count_vertices of lwgeodetic.c: a point counts 1 when it has
   * an array (0 without), a line its number of points (0 without), a
   * polygon the points of all its rings, a collection the sum over its
   * members; any other type is an error. Unlike the function of the same
   * name in lwgeom.c, no emptiness test comes first.
   */
  function Vertices(g: Geom): Result<nat>
    requires Shaped(g)
    decreases g, |g.Members()| + 1
  {
    var t := TypeOf(g.typ);
    if t == POINTTYPE then Ok(if g.pa.None? then 0 else 1)
    else if t == LINETYPE then Ok(if g.pa.None? then 0 else |g.pa.value.points|)
    else if t == POLYGONTYPE then Ok(SumPoints(LwPoly.RingsOf(g)))
    else if IsGeodeticCollection(t) then VerticesUpTo(g, |g.geoms|)
    else Err("unsupported input geometry type")
  }

  /** The count over the first k members, stopping at the first error. */
  function VerticesUpTo(g: Geom, k: nat): Result<nat>
    requires Shaped(g) && g.Coll? && k <= |g.geoms|
    decreases g, k
  {
    if k == 0 then Ok(0)
    else
      var prev := VerticesUpTo(g, k - 1);
      assert g.geoms[k - 1] in g.geoms;
      if prev.Err? then prev
      else
        var v := Vertices(g.geoms[k - 1]);
        if v.Err? then v else Ok(prev.value + v.value)
  }

  /** lwgeom_count_vertices of lwgeodetic.c, with its loops over rings and members. */
  method CountVertices(g: Geom) returns (r: Result<nat>)
    requires Shaped(g)
    ensures r == Vertices(g)
    decreases g, |g.Members()| + 1
  {
    var t := TypeOf(g.typ);
    if t == POINTTYPE {
      return Ok(if g.pa.None? then 0 else 1);
    } else if t == LINETYPE {
      return Ok(if g.pa.None? then 0 else |g.pa.value.points|);
    } else if t == POLYGONTYPE {
      var rings := LwPoly.RingsOf(g);
      var v := 0;
      var i := 0;
      while i < |rings|
        invariant 0 <= i <= |rings|
        invariant v == SumPoints(rings[..i])
      {
        assert rings[..i + 1][..i] == rings[..i];
        v := v + |rings[i].points|;
        i := i + 1;
      }
      assert rings[..i] == rings;
      return Ok(v);
    } else if IsGeodeticCollection(t) {
      var v := 0;
      var i := 0;
      while i < |g.geoms|
        invariant 0 <= i <= |g.geoms|
        invariant VerticesUpTo(g, i) == Ok(v)
      {
        assert g.geoms[i] in g.geoms;
        var m := CountVertices(g.geoms[i]);
        if m.Err? {
          UpToErrorStays(g, i + 1, |g.geoms|);
          return m;
        }
        v := v + m.value;
        i := i + 1;
      }
      return Ok(v);
    }
    return Err("unsupported input geometry type");
  }

  /** An error among the first k members is the count's error over any longer prefix. */
  lemma {:induction false} UpToErrorStays(g: Geom, k: nat, n: nat)
    requires Shaped(g) && g.Coll? && k <= n <= |g.geoms| && VerticesUpTo(g, k).Err?
    ensures VerticesUpTo(g, n) == VerticesUpTo(g, k)
    decreases n
  {
    if n > k {
      UpToErrorStays(g, k, n - 1);
    }
  }

  /** Every point struct with an array has at least one point in it. */
  predicate NoEmptyPoint(g: Geom)
    decreases g
  {
    (g.Single? && TypeOf(g.typ) == POINTTYPE && g.pa.Some? ==> |g.pa.value.points| >= 1)
    && (g.Coll? ==> forall i :: 0 <= i < |g.geoms| ==> NoEmptyPoint(g.geoms[i]))
  }

  /**
   * The two vertex counts agree on the seven types, as long as no point
   * has an empty array: lwgeom.c counts such a point as empty (0),
   * lwgeodetic.c counts it as 1.
   */
  lemma {:induction false} VertexCountsAgree(g: Geom)
    requires Shaped(g) && Supported(g) && NoEmptyPoint(g)
    ensures Vertices(g) == LwGeom.CountVertices(g)
    decreases g
  {
    if g.Coll? {
      var rs := seq(|g.geoms|, i requires 0 <= i < |g.geoms| => LwGeom.CountVertices(g.geoms[i]));
      forall i | 0 <= i < |g.geoms| ensures Vertices(g.geoms[i]) == rs[i] {
        assert g.geoms[i] in g.geoms;
        VertexCountsAgree(g.geoms[i]);
      }
      UpToIsSum(g, rs, |g.geoms|);
      assert rs[..|g.geoms|] == rs;
    }
  }

  lemma {:induction false} UpToIsSum(g: Geom, rs: seq<Result<nat>>, k: nat)
    requires Shaped(g) && g.Coll? && k <= |g.geoms| && |rs| == |g.geoms|
    requires forall i :: 0 <= i < |g.geoms| ==> Vertices(g.geoms[i]) == rs[i]
    ensures VerticesUpTo(g, k) == LwGeom.SumResults(rs[..k])
  {
    if k > 0 {
      UpToIsSum(g, rs, k - 1);
      assert g.geoms[k - 1] in g.geoms;
      assert rs[..k] == rs[..k - 1] + [rs[k - 1]];
      LwGeom.SumResultsSnoc(rs[..k - 1], rs[k - 1]);
    }
  }

  /** A point with an empty array: one vertex here, none in lwgeom.c. */
  lemma EmptyPointCountsDiffer()
    ensures var p := Single(POINTTYPE as byte, SRID_UNKNOWN, None, Some(PtArr(false, false, [])));
      Shaped(p) && Vertices(p) == Ok(1) && LwGeom.CountVertices(p) == Ok(0)
  {
  }

  // ---- geodetic boxes -------------------------------------------------------------------

  /**
   * How lwgeom_calculate_gbox_geodetic gathers a box: the point arrays
   * whose boxes are duplicated (the first) and merged (the rest) into the
   * result, in order; None is G_FAILURE. An array without points fails; a
   * polygon fails with no rings or a failing ring; a collection fails
   * with no members, skips failing members and fails only when every
   * member does; a box without the geodetic flag and any other type are
   * errors.
   */
  function BoxSources(g: Geom, geodeticFlag: bool): Result<Option<seq<PtArr>>>
    requires Shaped(g) && Readable(g)
    decreases g, |g.Members()| + 1
  {
    var t := TypeOf(g.typ);
    if !geodeticFlag then Err("lwgeom_get_gbox_geodetic: non-geodetic gbox provided")
    else if t == POINTTYPE || t == LINETYPE then Ok(if |g.pa.value.points| == 0 then None else Some([g.pa.value]))
    else if t == POLYGONTYPE then
      var rings := LwPoly.RingsOf(g);
      Ok(if |rings| == 0 || exists i :: 0 <= i < |rings| && |rings[i].points| == 0 then None else Some(rings))
    else if IsGeodeticCollection(t) then
      if |g.geoms| == 0 then Ok(None) else BoxSourcesFrom(g, 0, geodeticFlag)
    else Err("unsupported input geometry type")
  }

  /** The members of g from i on: an error stops everything, a failing member is skipped. */
  function BoxSourcesFrom(g: Geom, i: nat, geodeticFlag: bool): Result<Option<seq<PtArr>>>
    requires Shaped(g) && Readable(g) && g.Coll? && i <= |g.geoms|
    decreases g, |g.geoms| - i
  {
    if i == |g.geoms| then Ok(None)
    else
      assert g.geoms[i] in g.geoms;
      var r := BoxSources(g.geoms[i], geodeticFlag);
      if r.Err? then r
      else
        var rest := BoxSourcesFrom(g, i + 1, geodeticFlag);
        if rest.Err? then rest
        else if r.value.None? then rest
        else if rest.value.None? then r
        else Ok(Some(r.value.value + rest.value.value))
  }

  /**
   * A box that is found comes from at least one array, and every array
   * it comes from has points; a collection's box is found exactly when
   * some member's box is found.
   */
  lemma {:induction false} BoxSourcesFound(g: Geom, geodeticFlag: bool)
    requires Shaped(g) && Readable(g) && BoxSources(g, geodeticFlag).Ok?
    ensures BoxSources(g, geodeticFlag).value.Some? ==>
      |BoxSources(g, geodeticFlag).value.value| >= 1
      && forall k :: 0 <= k < |BoxSources(g, geodeticFlag).value.value| ==> |BoxSources(g, geodeticFlag).value.value[k].points| >= 1
    ensures IsGeodeticCollection(TypeOf(g.typ)) ==>
      (BoxSources(g, geodeticFlag).value.Some? <==>
         exists i :: 0 <= i < |g.geoms| && BoxSources(g.geoms[i], geodeticFlag).Ok? && BoxSources(g.geoms[i], geodeticFlag).value.Some?)
    decreases g, |g.Members()| + 1
  {
    if IsGeodeticCollection(TypeOf(g.typ)) && |g.geoms| > 0 {
      BoxSourcesFromFound(g, 0, geodeticFlag);
    }
  }

  lemma {:induction false} BoxSourcesFromFound(g: Geom, i: nat, geodeticFlag: bool)
    requires Shaped(g) && Readable(g) && g.Coll? && i <= |g.geoms| && BoxSourcesFrom(g, i, geodeticFlag).Ok?
    ensures forall k :: i <= k < |g.geoms| ==> BoxSources(g.geoms[k], geodeticFlag).Ok?
    ensures BoxSourcesFrom(g, i, geodeticFlag).value.Some? ==>
      |BoxSourcesFrom(g, i, geodeticFlag).value.value| >= 1
      && forall k :: 0 <= k < |BoxSourcesFrom(g, i, geodeticFlag).value.value| ==> |BoxSourcesFrom(g, i, geodeticFlag).value.value[k].points| >= 1
    ensures BoxSourcesFrom(g, i, geodeticFlag).value.Some? <==>
      exists k :: i <= k < |g.geoms| && BoxSources(g.geoms[k], geodeticFlag).Ok? && BoxSources(g.geoms[k], geodeticFlag).value.Some?
    decreases g, |g.geoms| - i
  {
    if i < |g.geoms| {
      assert g.geoms[i] in g.geoms;
      BoxSourcesFound(g.geoms[i], geodeticFlag);
      BoxSourcesFromFound(g, i + 1, geodeticFlag);
    }
  }
}
