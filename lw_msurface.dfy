/**
 * LWMSURFACE of liblwgeom (liblwgeom/lwmsurface.c): a collection of
 * polygons and curve polygons.
 *
 * lwmsurface_deserialize keeps the type, the Z/M flags of the serialized
 * type byte and the SRID, makes no member array for 0 members, and decodes
 * every member with the decoder its type byte selects; the model writes
 * the struct's type and flags as one type byte, as the other structs do.
 */
module LwMSurface {
  import opened Bytes
  import opened Wrappers
  import opened LwTypes

  /** A member type a multisurface holds. */
  predicate IsSurfaceType(typ: nat)
  {
    typ == POLYGONTYPE || typ == CURVEPOLYTYPE
  }

  /** A member lwmsurface_deserialize accepts: a surface type byte, and a decoded member with the collection's dimensions. */
  predicate MemberAccepted(t: byte, sub: seq<byte>, g: Geom)
    requires |sub| >= 1
  {
    IsSurfaceType(TypeOf(sub[0])) && TypeNDims(g.typ) == TypeNDims(t)
  }

  /**
   * lwmsurface_deserialize, given the header s and the sub-geometries that
   * lwgeom_inspect finds (lwgeom_inspect is not part of this model; the
   * polygon and curve polygon decoders are parameters). A
   * non-multisurface type byte is an error; each member, in order, is
   * decoded as a polygon or a curve polygon by its type byte, any other
   * member type is an error, and so is a member with another number of
   * dimensions than the collection.
   */
  method Deserialize(s: seq<byte>, subs: seq<seq<byte>>, polyDecode: seq<byte> -> Geom, curveDecode: seq<byte> -> Geom)
    returns (r: Result<Geom>)
    requires |s| >= 1 && |s| >= HeaderSize(s[0])
    requires forall i :: 0 <= i < |subs| ==> |subs[i]| >= 1
    ensures r.Ok? <==> (TypeOf(s[0]) == MULTISURFACETYPE
      && forall i :: 0 <= i < |subs| ==> MemberAccepted(s[0], subs[i], Member(subs[i], polyDecode, curveDecode)))
    ensures r.Ok? ==> r.value.Coll? && r.value.typ == s[0]
    ensures r.Ok? ==> r.value.srid == ReadHeader(s).srid && r.value.bbox == ReadHeader(s).bbox
    ensures r.Ok? ==> |r.value.Members()| == |subs|
    ensures r.Ok? ==> forall i :: 0 <= i < |subs| ==> r.value.Members()[i] == Member(subs[i], polyDecode, curveDecode)
  {
    var t := s[0];
    if TypeOf(t) != MULTISURFACETYPE {
      return Err("lwmsurface_deserialize called on a non-multisurface");
    }
    var h := ReadHeader(s);
    var geoms: seq<Geom> := [];
    var i := 0;
    while i < |subs|
      invariant 0 <= i <= |subs| && |geoms| == i
      invariant forall k :: 0 <= k < i ==> geoms[k] == Member(subs[k], polyDecode, curveDecode)
      invariant forall k :: 0 <= k < i ==> MemberAccepted(t, subs[k], geoms[k])
    {
      var stype := TypeOf(subs[i][0]);
      var g: Geom;
      if stype == POLYGONTYPE {
        g := polyDecode(subs[i]);
      } else if stype == CURVEPOLYTYPE {
        g := curveDecode(subs[i]);
      } else {
        return Err("Only Polygons and Curved Polygons are supported in a MultiSurface.");
      }
      if TypeNDims(g.typ) != TypeNDims(t) {
        return Err("Mixed dimensions (multisurface, surface)");
      }
      geoms := geoms + [g];
      i := i + 1;
    }
    return Ok(Coll(t, h.srid, h.bbox, geoms));
  }

  /** The member the type byte selects: a polygon, else a curve polygon. */
  function Member(sub: seq<byte>, polyDecode: seq<byte> -> Geom, curveDecode: seq<byte> -> Geom): Geom
    requires |sub| >= 1
  {
    if TypeOf(sub[0]) == POLYGONTYPE then polyDecode(sub) else curveDecode(sub)
  }
}
