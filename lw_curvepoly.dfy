/**
 * LWCURVEPOLY of liblwgeom (liblwgeom/lwcurvepoly.c): a polygon whose rings
 * are whole geometries (lines, circular strings or compound curves).
 *
 * The struct keeps an array of ring pointers that add_ring grows in place;
 * `Ring` stands for one LWGEOM the array points at, so that the duplicate
 * test of add_ring compares pointers, as the C does.
 */
module LwCurvePoly {
  import opened Bytes
  import opened Wrappers
  import opened LwTypes

  /** An LWGEOM reached through a pointer: two rings are the same ring only if they are the same object. */
  class Ring {
    const geom: Geom

    constructor (g: Geom)
      ensures geom == g
    {
      geom := g;
    }
  }

  /** The ring types a curve polygon accepts: lines, circular strings and compound curves. */
  predicate IsRingType(typ: nat)
  {
    typ == LINETYPE || typ == CIRCSTRINGTYPE || typ == COMPOUNDTYPE
  }

  /**
   * The capacity add_ring leaves: 2 slots when there is no storage (the
   * counts start again from 0), then twice as many when the slots are full.
   */
  function GrownCapacity(hasStorage: bool, nrings: nat, maxrings: nat): (m: nat)
    ensures hasStorage && nrings < maxrings ==> m == maxrings
    ensures !hasStorage ==> m == 2
  {
    var max := if hasStorage then maxrings else 2;
    var n := if hasStorage then nrings else 0;
    if n == max then 2 * max else max
  }

  class CurvePoly {
    var typ: byte
    var srid: int
    var bbox: Option<Box2D>
    /** Whether the ring array is allocated (rings != NULL). */
    var hasStorage: bool
    /** The rings held in the first nrings slots, in order. */
    var rings: seq<Ring>
    var nrings: nat
    var maxrings: nat

    /**
     * With storage, the slots hold the counted rings and there is at least
     * one slot. Without storage the counts may be anything: add_ring
     * detects an inconsistent struct rather than assuming it away.
     */
    predicate Valid()
      reads this
    {
      (hasStorage ==> |rings| == nrings <= maxrings && maxrings >= 1)
      && (!hasStorage ==> rings == [])
    }

    /** lwcurvepoly_construct_empty: no rings, room for one, the SRID flag set for any SRID other than -1. */
    constructor Empty(srid: int, hasz: bool, hasm: bool)
      ensures Valid() && hasStorage && rings == [] && nrings == 0 && maxrings == 1 && bbox.None?
      ensures this.srid == srid && TypeOf(typ) == CURVEPOLYTYPE && !TypeHasBBox(typ)
      ensures TypeHasZ(typ) == hasz && TypeHasM(typ) == hasm && (TypeHasSRID(typ) <==> srid != SRID_UNKNOWN)
    {
      typ := MakeTypeFull(hasz, hasm, srid != SRID_UNKNOWN, CURVEPOLYTYPE, false);
      this.srid := srid;
      bbox := None;
      hasStorage := true;
      rings := [];
      nrings := 0;
      maxrings := 1;
    }
  }

  /**
   * lwcurvepoly_add_ring. Without a polygon or a ring: false, nothing
   * changes. No storage but non-zero counts: an error. A ring that is not a
   * line, circular string or compound curve: false, nothing changes.
   * Otherwise storage is made (2 slots) when absent and doubled when full;
   * then a ring already held (the same pointer) gives true without being
   * added again, and any other ring is appended and counted.
   */
  method AddRing(poly: CurvePoly?, ring: Ring?) returns (r: Result<bool>)
    requires poly != null ==> poly.Valid()
    modifies poly
    ensures poly != null ==> poly.Valid()
    ensures poly == null || ring == null ==> r == Ok(false)
    ensures poly != null && ring != null && !old(poly.hasStorage) && (old(poly.nrings) != 0 || old(poly.maxrings) != 0)
            ==> r.Err?
    ensures poly != null && r != Ok(true) ==>
              poly.hasStorage == old(poly.hasStorage) && poly.rings == old(poly.rings)
              && poly.nrings == old(poly.nrings) && poly.maxrings == old(poly.maxrings)
    ensures poly != null && ring != null && (old(poly.hasStorage) || (old(poly.nrings) == 0 && old(poly.maxrings) == 0)) ==>
              r == Ok(IsRingType(TypeOf(ring.geom.typ)))
    ensures poly != null && r == Ok(true) ==>
              poly.hasStorage && poly.maxrings == GrownCapacity(old(poly.hasStorage), old(poly.nrings), old(poly.maxrings))
              && poly.rings == Added(old(poly.rings), ring)
    ensures poly != null ==> poly.typ == old(poly.typ) && poly.srid == old(poly.srid) && poly.bbox == old(poly.bbox)
  {
    if poly == null || ring == null {
      return Ok(false);
    }
    if !poly.hasStorage && (poly.nrings != 0 || poly.maxrings != 0) {
      return Err("Curvepolygon is in inconsistent state. Null memory but non-zero collection counts.");
    }
    var ringtype := TypeOf(ring.geom.typ);
    if !IsRingType(ringtype) {
      return Ok(false);
    }
    if !poly.hasStorage {
      poly.maxrings := 2;
      poly.nrings := 0;
      poly.hasStorage := true;
      poly.rings := [];
    }
    if poly.nrings == poly.maxrings {
      poly.maxrings := poly.maxrings * 2;
    }
    var i := 0;
    while i < poly.nrings
      invariant 0 <= i <= poly.nrings == |poly.rings|
      invariant ring !in poly.rings[..i]
    {
      if poly.rings[i] == ring {
        return Ok(true);
      }
      i := i + 1;
    }
    assert poly.rings[..i] == poly.rings;
    poly.rings := poly.rings + [ring];
    poly.nrings := poly.nrings + 1;
    return Ok(true);
  }

  /** The rings after add_ring accepts ring: unchanged when the same object is already held, else ring appended. */
  function Added(rs: seq<Ring>, ring: Ring): (r: seq<Ring>)
    ensures ring in r && |rs| <= |r| <= |rs| + 1 && r[..|rs|] == rs
  {
    if ring in rs then rs else rs + [ring]
  }

  /**
   * Adding a ring twice is adding it once, and rings that are distinct
   * objects stay distinct objects: the ring array never holds one pointer
   * twice.
   */
  lemma AddedProperties(rs: seq<Ring>, ring: Ring)
    ensures Added(Added(rs, ring), ring) == Added(rs, ring)
    ensures (forall i, j :: 0 <= i < j < |rs| ==> rs[i] != rs[j]) ==>
      var rs' := Added(rs, ring); forall i, j :: 0 <= i < j < |rs'| ==> rs'[i] != rs'[j]
  {
  }

  // ---- deserialize ------------------------------------------------------------

  /** A ring lwcurvepoly_deserialize accepts under a curve polygon with type byte t. */
  predicate RingAccepted(t: byte, g: Geom)
  {
    (TypeOf(g.typ) == CIRCSTRINGTYPE || TypeOf(g.typ) == LINETYPE || TypeOf(g.typ) == COMPOUNDTYPE)
    && TypeNDims(g.typ) == TypeNDims(t)
  }

  /**
   * lwcurvepoly_deserialize on the type byte and header s[..] together with
   * the member geometries that lwgeom_inspect and lwgeom_deserialize (not
   * part of this model) produce: a non-curve-polygon type byte is an
   * error; each ring, in order, must be a circular string, a line or a
   * compound curve, and must have the curve polygon's number of dimensions.
   */
  method Deserialize(s: seq<byte>, members: seq<Geom>) returns (r: Result<Geom>)
    requires |s| >= 1 && |s| >= HeaderSize(s[0])
    ensures r.Ok? <==> TypeOf(s[0]) == CURVEPOLYTYPE && forall i :: 0 <= i < |members| ==> RingAccepted(s[0], members[i])
    ensures r.Ok? ==> r.value == Coll(s[0], ReadHeader(s).srid, ReadHeader(s).bbox, members)
  {
    var t := s[0];
    if TypeOf(t) != CURVEPOLYTYPE {
      return Err("lwcurvepoly_deserialize called on NON curvepoly");
    }
    var h := ReadHeader(s);
    var i := 0;
    while i < |members|
      invariant 0 <= i <= |members|
      invariant forall k :: 0 <= k < i ==> RingAccepted(t, members[k])
    {
      var ringtype := TypeOf(members[i].typ);
      if ringtype != CIRCSTRINGTYPE && ringtype != LINETYPE && ringtype != COMPOUNDTYPE {
        return Err("Only Circular curves, Linestrings and Compound curves are supported as rings");
      }
      if TypeNDims(members[i].typ) != TypeNDims(t) {
        return Err("Mixed dimensions (curvepoly, ring)");
      }
      i := i + 1;
    }
    return Ok(Coll(t, h.srid, h.bbox, members));
  }
}
