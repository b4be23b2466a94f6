/**
 * Homogenisation of liblwgeom (liblwgeom/lwhomogenize.c): a geometry is
 * brought to its simplest form. The members of a GEOMETRYCOLLECTION are
 * flattened, depth first, into three buckets (points, lines, polygons),
 * and the result is the lone element, a MULTI of one bucket, or a
 * collection with one entry per non-empty bucket.
 *
 * The LWGEOM_HOMOGENIZE struct is the class `Buckets`, which the
 * flattening fills in place. What the constructors called along the way
 * build (lwcollection_construct_empty and the lwm*_construct_empty of the
 * buckets, not part of this model) is described by `Built`.
 */
module LwHomogenize {
  import opened Bytes
  import opened Wrappers
  import opened LwTypes
  import LwGeom

  /** The contents of the three buckets: the points, lines and polygons gathered so far, in order. */
  datatype Gathered = Gathered(points: seq<Geom>, lines: seq<Geom>, polys: seq<Geom>)

  /** Bucket by bucket concatenation. */
  function Plus(a: Gathered, b: Gathered): Gathered
  {
    Gathered(a.points + b.points, a.lines + b.lines, a.polys + b.polys)
  }

  const NoContents := Gathered([], [], [])

  /** A geometry the homogeniser builds. */
  datatype Built =
    | Clone(g: Geom)
      /** lwcollection_construct_empty(srid, 0, 0). */
    | Empty(srid: int)
      /** A bucket returned as a MULTI: lwm*_construct_empty(-1, hasz, hasm), its members added, then srid and box assigned. */
    | Multi(mtype: nat, srid: int, bbox: Option<Box2D>, hasz: bool, hasm: bool, members: seq<Geom>)
      /** lwcollection_construct_empty(srid, hasz, hasm) with the input's box and one part per non-empty bucket. */
    | Mixed(srid: int, bbox: Option<Box2D>, hasz: bool, hasm: bool, parts: seq<Built>)

  /** The leaf types that go into a bucket. */
  predicate IsLeafType(t: nat)
  {
    t == POINTTYPE || t == LINETYPE || t == POLYGONTYPE
  }

  // ---- the flattening, specified ------------------------------------------------

  /**
   * lwcollection_homogenize_subgeom on the buckets b: a point, line or
   * polygon is added, with SRID -1, to its bucket; a collection has its
   * members flattened in order; any other type is an error. `fixed`
   * selects the collection test: lwtype_is_collection of the type number
   * (fixed), or lwgeom_is_collection applied to the type number as the
   * code is written, which reads the number 0 as a NULL geometry (so not
   * a collection) and any other number as an address to read a geometry
   * from.
   */
  function Flatten(b: Gathered, g: Geom, fixed: bool): Result<Gathered>
    requires Shaped(g)
    decreases g, |g.Members()| + 1
  {
    var t := TypeOf(g.typ);
    var c := LwGeom.WithSRID(g, SRID_UNKNOWN);
    if t == POINTTYPE then Ok(b.(points := b.points + [c]))
    else if t == LINETYPE then Ok(b.(lines := b.lines + [c]))
    else if t == POLYGONTYPE then Ok(b.(polys := b.polys + [c]))
    else if !fixed && t != 0 then Err("lwgeom_is_collection reads a geometry at the address given by the type number")
    else if fixed && LwGeom.IsCollectionType(t) then FlattenFrom(b, g, 0, fixed)
    else Err("lwcollection_homogenize: Unsupported geometry type")
  }

  /** The members of g from position i on, flattened in order into b. */
  function FlattenFrom(b: Gathered, g: Geom, i: nat, fixed: bool): Result<Gathered>
    requires Shaped(g) && g.Coll? && i <= |g.geoms|
    decreases g, |g.geoms| - i
  {
    if i == |g.geoms| then Ok(b)
    else
      assert g.geoms[i] in g.geoms;
      var r := Flatten(b, g.geoms[i], fixed);
      if r.Err? then r else FlattenFrom(r.value, g, i + 1, fixed)
  }

  // ---- the flattening, as an independent reference ---------------------------------

  /** A tree of points, lines, polygons and collection types only: what the (fixed) flattening accepts. */
  predicate Supported(g: Geom)
    requires Shaped(g)
    decreases g, |g.Members()| + 1
  {
    var t := TypeOf(g.typ);
    IsLeafType(t) || (LwGeom.IsCollectionType(t) && SupportedFrom(g, 0))
  }

  predicate SupportedFrom(g: Geom, i: nat)
    requires Shaped(g) && i <= |g.Members()|
    decreases g, |g.Members()| - i
  {
    i == |g.Members()| || (assert g.geoms[i] in g.geoms; Supported(g.geoms[i]) && SupportedFrom(g, i + 1))
  }

  /** The leaves of g in depth-first order, each with SRID -1. */
  function Leaves(g: Geom): seq<Geom>
    requires Shaped(g) && Supported(g)
    decreases g, |g.Members()| + 1
  {
    if IsLeafType(TypeOf(g.typ)) then [LwGeom.WithSRID(g, SRID_UNKNOWN)] else LeavesFrom(g, 0)
  }

  function LeavesFrom(g: Geom, i: nat): seq<Geom>
    requires Shaped(g) && i <= |g.Members()| && SupportedFrom(g, i)
    decreases g, |g.Members()| - i
  {
    if i == |g.Members()| then []
    else
      assert g.geoms[i] in g.geoms;
      Leaves(g.geoms[i]) + LeavesFrom(g, i + 1)
  }

  /** The leaves of type t, in order. */
  function OfType(gs: seq<Geom>, t: nat): (r: seq<Geom>)
    ensures forall k :: 0 <= k < |r| ==> TypeOf(r[k].typ) == t
    ensures |r| <= |gs|
  {
    if gs == [] then []
    else (if TypeOf(gs[0].typ) == t then [gs[0]] else []) + OfType(gs[1..], t)
  }

  lemma {:induction false} OfTypeAppend(a: seq<Geom>, b: seq<Geom>, t: nat)
    ensures OfType(a + b, t) == OfType(a, t) + OfType(b, t)
  {
    if a == [] {
      assert a + b == b;
    } else {
      assert (a + b)[1..] == a[1..] + b;
      OfTypeAppend(a[1..], b, t);
    }
  }

  /** The buckets a list of leaves goes into. */
  function Split(leaves: seq<Geom>): Gathered
  {
    Gathered(OfType(leaves, POINTTYPE), OfType(leaves, LINETYPE), OfType(leaves, POLYGONTYPE))
  }

  lemma SplitAppend(a: seq<Geom>, b: seq<Geom>)
    ensures Split(a + b) == Plus(Split(a), Split(b))
  {
    OfTypeAppend(a, b, POINTTYPE);
    OfTypeAppend(a, b, LINETYPE);
    OfTypeAppend(a, b, POLYGONTYPE);
  }

  /**
   * The (fixed) flattening succeeds exactly on supported trees, and then
   * appends to each bucket the leaves of that type in depth-first order:
   * nested collections are expanded in place and every leaf is kept,
   * with SRID -1.
   */
  lemma {:induction false} FlattenIsLeaves(b: Gathered, g: Geom)
    requires Shaped(g)
    ensures Flatten(b, g, true).Ok? <==> Supported(g)
    ensures Supported(g) ==> Flatten(b, g, true) == Ok(Plus(b, Split(Leaves(g))))
    decreases g, |g.Members()| + 1
  {
    var t := TypeOf(g.typ);
    if IsLeafType(t) {
      var c := LwGeom.WithSRID(g, SRID_UNKNOWN);
      assert [c][1..] == [];
      assert c.typ == g.typ;
      assert forall u :: OfType([c], u) == (if u == t then [c] else []);
      assert b.points + [] == b.points && b.lines + [] == b.lines && b.polys + [] == b.polys;
    } else if LwGeom.IsCollectionType(t) {
      FlattenFromIsLeaves(b, g, 0);
    }
  }

  lemma PlusLaws(a: Gathered, b: Gathered, c: Gathered)
    ensures Plus(Plus(a, b), c) == Plus(a, Plus(b, c))
    ensures Plus(a, NoContents) == a
  {
    assert (a.points + b.points) + c.points == a.points + (b.points + c.points);
    assert (a.lines + b.lines) + c.lines == a.lines + (b.lines + c.lines);
    assert (a.polys + b.polys) + c.polys == a.polys + (b.polys + c.polys);
    assert a.points + [] == a.points && a.lines + [] == a.lines && a.polys + [] == a.polys;
  }

  lemma {:induction false} FlattenFromIsLeaves(b: Gathered, g: Geom, i: nat)
    requires Shaped(g) && g.Coll? && i <= |g.geoms|
    ensures FlattenFrom(b, g, i, true).Ok? <==> SupportedFrom(g, i)
    ensures SupportedFrom(g, i) ==> FlattenFrom(b, g, i, true) == Ok(Plus(b, Split(LeavesFrom(g, i))))
    decreases g, |g.geoms| - i
  {
    if i == |g.geoms| {
      PlusLaws(b, b, b);
      assert Split([]) == NoContents;
    } else {
      assert g.geoms[i] in g.geoms;
      var m := g.geoms[i];
      FlattenIsLeaves(b, m);
      var r := Flatten(b, m, true);
      if r.Ok? {
        FlattenFromIsLeaves(r.value, g, i + 1);
        if SupportedFrom(g, i) {
          SplitAppend(Leaves(m), LeavesFrom(g, i + 1));
          PlusLaws(b, Split(Leaves(m)), Split(LeavesFrom(g, i + 1)));
        }
      }
    }
  }

  // ---- the buckets ------------------------------------------------------------------

  /** LWGEOM_HOMOGENIZE: the point, line and polygon buckets being filled. */
  class Buckets {
    var points: seq<Geom>
    var lines: seq<Geom>
    var polys: seq<Geom>

    function Contents(): Gathered
      reads this
    {
      Gathered(points, lines, polys)
    }

    /** The three empty buckets lwcollection_homogenize sets up. */
    constructor ()
      ensures Contents() == NoContents
    {
      points, lines, polys := [], [], [];
    }

    /**
     * lwcollection_homogenize_subgeom: g flattened into the buckets, or
     * the error that stops it (the buckets are then abandoned).
     */
    method AddSubgeom(g: Geom, fixed: bool) returns (r: Result<()>)
      requires Shaped(g)
      modifies this
      ensures r.Ok? <==> Flatten(old(Contents()), g, fixed).Ok?
      ensures r.Ok? ==> Contents() == Flatten(old(Contents()), g, fixed).value
      decreases g, |g.Members()| + 1
    {
      var t := TypeOf(g.typ);
      var c := LwGeom.WithSRID(g, SRID_UNKNOWN);
      if t == POINTTYPE {
        points := points + [c];
      } else if t == LINETYPE {
        lines := lines + [c];
      } else if t == POLYGONTYPE {
        polys := polys + [c];
      } else if !fixed && t != 0 {
        return Err("lwgeom_is_collection reads a geometry at the address given by the type number");
      } else if fixed && LwGeom.IsCollectionType(t) {
        r := AddMembers(g, fixed);
        return;
      } else {
        return Err("lwcollection_homogenize: Unsupported geometry type");
      }
      return Ok(());
    }

    /** The loop of lwcollection_homogenize_subgeom over a collection's members. */
    method AddMembers(g: Geom, fixed: bool) returns (r: Result<()>)
      requires Shaped(g) && g.Coll?
      modifies this
      ensures r.Ok? <==> FlattenFrom(old(Contents()), g, 0, fixed).Ok?
      ensures r.Ok? ==> Contents() == FlattenFrom(old(Contents()), g, 0, fixed).value
      decreases g, |g.geoms|
    {
      var i := 0;
      while i < |g.geoms|
        invariant 0 <= i <= |g.geoms|
        invariant FlattenFrom(Contents(), g, i, fixed) == FlattenFrom(old(Contents()), g, 0, fixed)
      {
        assert g.geoms[i] in g.geoms;
        var e := AddSubgeom(g.geoms[i], fixed);
        if e.Err? {
          return Err("lwcollection_homogenize: Unsupported geometry type");
        }
        i := i + 1;
      }
      return Ok(());
    }
  }

  // ---- assembling the result -----------------------------------------------------------

  /** One bucket as a part of a mixed result: its lone element, or the bucket as a MULTI, or nothing. */
  function Part(bucket: seq<Geom>, mtype: nat, hasz: bool, hasm: bool): (r: seq<Built>)
    ensures |r| == (if |bucket| == 0 then 0 else 1)
  {
    if |bucket| == 1 then [Clone(bucket[0])]
    else if |bucket| > 0 then [Multi(mtype, SRID_UNKNOWN, None, hasz, hasm, bucket)]
    else []
  }

  /** A geometry with the collection's SRID, and the collection's box when it has one. */
  function Relabel(m: Geom, srid: int, bbox: Option<Box2D>): Geom
  {
    LwGeom.WithBox(LwGeom.WithSRID(m, srid), if bbox.Some? then bbox else m.bbox)
  }

  /** Whether at least two buckets are non-empty. */
  predicate IsMixed(b: Gathered)
  {
    (|b.points| > 0 && |b.lines| > 0) || (|b.points| > 0 && |b.polys| > 0) || (|b.lines| > 0 && |b.polys| > 0)
  }

  /**
   * The result lwcollection_homogenize assembles from the filled buckets
   * of the collection col: a mixed collection when two buckets or more
   * are non-empty; else the lone element or the MULTI of the one
   * non-empty bucket, with col's SRID (and box, when col has one); else an
   * empty collection with col's SRID.
   */
  function Assemble(col: Geom, b: Gathered): Built
  {
    var hasz := TypeHasZ(col.typ);
    var hasm := TypeHasM(col.typ);
    if IsMixed(b) then
      Mixed(col.srid, col.bbox, hasz, hasm,
            Part(b.points, MULTIPOINTTYPE, hasz, hasm) + Part(b.lines, MULTILINETYPE, hasz, hasm)
            + Part(b.polys, MULTIPOLYGONTYPE, hasz, hasm))
    else if |b.points| == 1 then Clone(Relabel(b.points[0], col.srid, col.bbox))
    else if |b.lines| == 1 then Clone(Relabel(b.lines[0], col.srid, col.bbox))
    else if |b.polys| == 1 then Clone(Relabel(b.polys[0], col.srid, col.bbox))
    else if |b.points| > 1 then Multi(MULTIPOINTTYPE, col.srid, col.bbox, hasz, hasm, b.points)
    else if |b.lines| > 1 then Multi(MULTILINETYPE, col.srid, col.bbox, hasz, hasm, b.lines)
    else if |b.polys| > 1 then Multi(MULTIPOLYGONTYPE, col.srid, col.bbox, hasz, hasm, b.polys)
    else Empty(col.srid)
  }

  /** The number of non-empty buckets. */
  function NonEmpty(b: Gathered): nat
  {
    (if |b.points| > 0 then 1 else 0) + (if |b.lines| > 0 then 1 else 0) + (if |b.polys| > 0 then 1 else 0)
  }

  /**
   * The shape of the assembled result: a mixed collection exactly when two
   * or more buckets are non-empty, with one part per non-empty bucket (a
   * lone element, or a MULTI with SRID -1); an empty collection exactly
   * when every bucket is empty; otherwise a result carrying the input's
   * SRID and every gathered leaf.
   */
  lemma AssembleShape(col: Geom, b: Gathered)
    ensures Assemble(col, b).Mixed? <==> NonEmpty(b) >= 2
    ensures Assemble(col, b).Mixed? ==> |Assemble(col, b).parts| == NonEmpty(b) && Assemble(col, b).srid == col.srid
    ensures Assemble(col, b).Mixed? ==> forall k :: 0 <= k < |Assemble(col, b).parts| ==>
      (Assemble(col, b).parts[k].Clone? || (Assemble(col, b).parts[k].Multi? && Assemble(col, b).parts[k].srid == SRID_UNKNOWN
         && |Assemble(col, b).parts[k].members| >= 2))
    ensures Assemble(col, b).Empty? <==> NonEmpty(b) == 0
    ensures Assemble(col, b).Empty? ==> Assemble(col, b).srid == col.srid
    ensures NonEmpty(b) == 1 ==>
      ((Assemble(col, b).Clone? && Assemble(col, b).g.srid == col.srid)
       || (Assemble(col, b).Multi? && Assemble(col, b).srid == col.srid
           && Assemble(col, b).members == b.points + b.lines + b.polys))
  {
  }

  /**
   * lwcollection_homogenize: an empty collection gives an empty
   * collection with its SRID; otherwise the members are flattened into
   * fresh buckets and the result assembled from them.
   */
  method CollectionHomogenize(col: Geom, fixed: bool) returns (r: Result<Built>)
    requires Shaped(col) && col.Coll?
    ensures |col.geoms| == 0 ==> r == Ok(Empty(col.srid))
    ensures |col.geoms| > 0 ==> (r.Ok? <==> FlattenFrom(NoContents, col, 0, fixed).Ok?)
    ensures |col.geoms| > 0 && r.Ok? ==> r.value == Assemble(col, FlattenFrom(NoContents, col, 0, fixed).value)
  {
    if |col.geoms| == 0 {
      return Ok(Empty(col.srid));
    }
    var buckets := new Buckets();
    var e := buckets.AddMembers(col, fixed);
    if e.Err? {
      return Err(e.msg);
    }
    return Ok(Assemble(col, buckets.Contents()));
  }

  /**
   * lwgeom_homogenize: an empty geometry, a point, a line or a polygon is
   * cloned; a MULTIPOINT, MULTILINESTRING or MULTIPOLYGON of one member
   * gives that member with the parent's SRID (and box, when it has one);
   * a larger one is cloned; a GEOMETRYCOLLECTION is homogenised; any
   * other type is an error.
   */
  method Homogenize(g: Geom, fixed: bool) returns (r: Result<Built>)
    requires Shaped(g)
    ensures LwGeom.IsEmpty(g).Err? ==> r.Err?
    ensures LwGeom.IsEmpty(g) == Ok(true) ==> r == Ok(Clone(g))
    ensures LwGeom.IsEmpty(g) == Ok(false) && IsLeafType(TypeOf(g.typ)) ==> r == Ok(Clone(g))
    ensures LwGeom.IsEmpty(g) == Ok(false) && TypeOf(g.typ) in {MULTIPOINTTYPE, MULTILINETYPE, MULTIPOLYGONTYPE} ==>
      r == Ok(if |g.geoms| == 1 then Clone(Relabel(g.geoms[0], g.srid, g.bbox)) else Clone(g))
    ensures LwGeom.IsEmpty(g) == Ok(false) && TypeOf(g.typ) == COLLECTIONTYPE ==>
      (r.Ok? <==> FlattenFrom(NoContents, g, 0, fixed).Ok?)
      && (r.Ok? ==> r.value == Assemble(g, FlattenFrom(NoContents, g, 0, fixed).value))
    ensures (LwGeom.IsEmpty(g) == Ok(false) && !IsLeafType(TypeOf(g.typ))
      && TypeOf(g.typ) !in {MULTIPOINTTYPE, MULTILINETYPE, MULTIPOLYGONTYPE, COLLECTIONTYPE}) ==> r.Err?
  {
    var e := LwGeom.IsEmpty(g);
    if e.Err? {
      return Err(e.msg);
    }
    if e.value {
      return Ok(Clone(g));
    }
    var t := TypeOf(g.typ);
    if IsLeafType(t) {
      return Ok(Clone(g));
    }
    if t == MULTIPOINTTYPE || t == MULTILINETYPE || t == MULTIPOLYGONTYPE {
      if |g.geoms| == 1 {
        return Ok(Clone(Relabel(g.geoms[0], g.srid, g.bbox)));
      }
      return Ok(Clone(g));
    }
    if t == COLLECTIONTYPE {
      r := CollectionHomogenize(g, fixed);
      return;
    }
    return Err("lwgeom_homogenize: Geometry Type not supported");
  }

  // ---- the collection test as written ---------------------------------------------------

  /**
   * As written, a member of a GEOMETRYCOLLECTION that is itself a
   * collection is never flattened: its type number is read as the
   * address of a geometry. The fixed flattening expands it.
   */
  lemma NestedCollectionAsWritten(b: Gathered, g: Geom)
    requires Shaped(g) && LwGeom.IsCollectionType(TypeOf(g.typ))
    ensures Flatten(b, g, false).Err?
    ensures Supported(g) ==> Flatten(b, g, true).Ok?
  {
    FlattenIsLeaves(b, g);
  }

  /** POINT(p) with the given SRID: the leaf in the example below. */
  function PointOf(srid: int): Geom
  {
    Single(POINTTYPE as byte, srid, None, Some(PtArr(false, false, [[0, 0]])))
  }

  /** GEOMETRYCOLLECTION(MULTIPOINT(POINT(0 0))) with SRID 4326. */
  function NestedExample(): (gc: Geom)
    ensures Shaped(gc) && gc.Coll? && |gc.geoms| == 1 && TypeOf(gc.geoms[0].typ) == MULTIPOINTTYPE
  {
    var mp := Coll(MULTIPOINTTYPE as byte, SRID_UNKNOWN, None, [PointOf(SRID_UNKNOWN)]);
    assert Shaped(PointOf(SRID_UNKNOWN));
    assert Shaped(mp);
    Coll(COLLECTIONTYPE as byte, 4326, None, [mp])
  }

  /** As written, homogenising the example reads through the multipoint's type number, 4, as an address. */
  lemma NestedExampleAsWritten()
    ensures FlattenFrom(NoContents, NestedExample(), 0, false).Err?
  {
    var gc := NestedExample();
    assert gc.geoms[0] in gc.geoms;
    assert Flatten(NoContents, gc.geoms[0], false).Err?;
  }

  /**
   * Fixed, the example flattens to the one point, and the result is
   * POINT(0 0) with SRID 4326, as the header comment of
   * lwcollection_homogenize describes.
   */
  lemma NestedExampleFixed()
    ensures FlattenFrom(NoContents, NestedExample(), 0, true) == Ok(Gathered([PointOf(SRID_UNKNOWN)], [], []))
    ensures Assemble(NestedExample(), Gathered([PointOf(SRID_UNKNOWN)], [], [])) == Clone(PointOf(4326))
  {
    var gc := NestedExample();
    var mp := gc.geoms[0];
    assert mp in gc.geoms;
    assert mp.geoms == [PointOf(SRID_UNKNOWN)];
    var once := Gathered([PointOf(SRID_UNKNOWN)], [], []);
    assert LwGeom.WithSRID(PointOf(SRID_UNKNOWN), SRID_UNKNOWN) == PointOf(SRID_UNKNOWN);
    assert [] + [PointOf(SRID_UNKNOWN)] == [PointOf(SRID_UNKNOWN)];
    assert Flatten(NoContents, PointOf(SRID_UNKNOWN), true) == Ok(once);
    assert FlattenFrom(once, mp, 1, true) == Ok(once);
    assert FlattenFrom(NoContents, mp, 0, true) == Ok(once);
    assert Flatten(NoContents, mp, true) == Ok(once);
    assert FlattenFrom(once, gc, 1, true) == Ok(once);
  }
}
