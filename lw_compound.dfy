/**
 * LWCOMPOUND of liblwgeom (liblwgeom/lwcompound.c): a curve made of lines
 * and circular strings, joined end to end.
 *
 * lwcompound_deserialize gives the struct the bare type COMPOUNDTYPE and
 * keeps the Z/M of the serialized type byte in a separate flags field;
 * each component keeps the full type byte it was serialized with. The
 * model writes the struct's type and flags as one type byte.
 */
module LwCompound {
  import opened Bytes
  import opened Wrappers
  import opened PointArrays
  import opened LwTypes

  /** The type field lwcompound_deserialize stores: COMPOUNDTYPE with no flag bits. */
  const BARE_COMPOUND: byte := COMPOUNDTYPE as byte

  /** The component decoder lwcompound_deserialize picks: lwline_deserialize for a line, lwcircstring_deserialize otherwise. */
  function Component(sub: seq<byte>, lineDecode: seq<byte> -> Geom, circDecode: seq<byte> -> Geom): Geom
    requires |sub| >= 1
  {
    if TypeOf(sub[0]) == LINETYPE then lineDecode(sub) else circDecode(sub)
  }

  /** The components of the sub-geometries, in order. */
  function Components(subs: seq<seq<byte>>, lineDecode: seq<byte> -> Geom, circDecode: seq<byte> -> Geom): (cs: seq<Geom>)
    requires forall i :: 0 <= i < |subs| ==> |subs[i]| >= 1
    ensures |cs| == |subs|
    ensures forall i :: 0 <= i < |subs| ==> cs[i] == Component(subs[i], lineDecode, circDecode)
  {
    seq(|subs|, i requires 0 <= i < |subs| => Component(subs[i], lineDecode, circDecode))
  }

  /**
   * lwcompound_deserialize as written, given the header s and the
   * sub-geometries that lwgeom_inspect finds (lwgeom_inspect,
   * lwline_deserialize and lwcircstring_deserialize are not part of this
   * model, so the decoders are parameters). A non-compound type byte is an
   * error. Each component is compared with TYPE_NDIMS of the struct's type
   * field, which holds the bare COMPOUNDTYPE and so always counts 2.
   */
  method DeserializeAsWritten(s: seq<byte>, subs: seq<seq<byte>>, lineDecode: seq<byte> -> Geom, circDecode: seq<byte> -> Geom)
    returns (r: Result<Geom>)
    requires |s| >= 1 && |s| >= HeaderSize(s[0])
    requires forall i :: 0 <= i < |subs| ==> |subs[i]| >= 1
    ensures r.Ok? <==> (TypeOf(s[0]) == COMPOUNDTYPE
      && forall i :: 0 <= i < |subs| ==> TypeNDims(Component(subs[i], lineDecode, circDecode).typ) == TypeNDims(BARE_COMPOUND))
    ensures r.Ok? ==> r.value == Coll(s[0], ReadHeader(s).srid, ReadHeader(s).bbox, Components(subs, lineDecode, circDecode))
  {
    r := DeserializeWith(s, subs, lineDecode, circDecode, BARE_COMPOUND);
  }

  /** lwcompound_deserialize comparing each component with the Z/M the serialized type byte carries. */
  method Deserialize(s: seq<byte>, subs: seq<seq<byte>>, lineDecode: seq<byte> -> Geom, circDecode: seq<byte> -> Geom)
    returns (r: Result<Geom>)
    requires |s| >= 1 && |s| >= HeaderSize(s[0])
    requires forall i :: 0 <= i < |subs| ==> |subs[i]| >= 1
    ensures r.Ok? <==> (TypeOf(s[0]) == COMPOUNDTYPE
      && forall i :: 0 <= i < |subs| ==> TypeNDims(Component(subs[i], lineDecode, circDecode).typ) == TypeNDims(s[0]))
    ensures r.Ok? ==> r.value == Coll(s[0], ReadHeader(s).srid, ReadHeader(s).bbox, Components(subs, lineDecode, circDecode))
  {
    r := DeserializeWith(s, subs, lineDecode, circDecode, s[0]);
  }

  /** The loop of lwcompound_deserialize, with the dimension test made against dimsOf. */
  method DeserializeWith(s: seq<byte>, subs: seq<seq<byte>>, lineDecode: seq<byte> -> Geom, circDecode: seq<byte> -> Geom, dimsOf: byte)
    returns (r: Result<Geom>)
    requires |s| >= 1 && |s| >= HeaderSize(s[0])
    requires forall i :: 0 <= i < |subs| ==> |subs[i]| >= 1
    ensures r.Ok? <==> (TypeOf(s[0]) == COMPOUNDTYPE
      && forall i :: 0 <= i < |subs| ==> TypeNDims(Component(subs[i], lineDecode, circDecode).typ) == TypeNDims(dimsOf))
    ensures r.Ok? ==> r.value == Coll(s[0], ReadHeader(s).srid, ReadHeader(s).bbox, Components(subs, lineDecode, circDecode))
  {
    if TypeOf(s[0]) != COMPOUNDTYPE {
      return Err("lwcompound_deserialize called on non compound");
    }
    var h := ReadHeader(s);
    var geoms: seq<Geom> := [];
    var i := 0;
    while i < |subs|
      invariant 0 <= i <= |subs| && |geoms| == i
      invariant forall k :: 0 <= k < i ==> geoms[k] == Component(subs[k], lineDecode, circDecode)
      invariant forall k :: 0 <= k < i ==> TypeNDims(geoms[k].typ) == TypeNDims(dimsOf)
    {
      var g := if TypeOf(subs[i][0]) == LINETYPE then lineDecode(subs[i]) else circDecode(subs[i]);
      if TypeNDims(g.typ) != TypeNDims(dimsOf) {
        return Err("Mixed dimensions (compound, line/circularstring)");
      }
      geoms := geoms + [g];
      i := i + 1;
    }
    assert geoms == Components(subs, lineDecode, circDecode);
    return Ok(Coll(s[0], h.srid, h.bbox, geoms));
  }

  /** The bare compound type counts two dimensions, whatever Z/M the serialized byte had. */
  lemma BareCompoundIs2D()
    ensures TypeNDims(BARE_COMPOUND) == 2
  {
    assert Flags(BARE_COMPOUND) == 0;
  }

  /**
   * As written, a compound whose components carry Z (or M) is always
   * rejected, even though its own serialized type byte carries the same
   * flags; the corrected deserialize accepts it.
   */
  lemma ZCompoundRejected(s: seq<byte>, subs: seq<seq<byte>>, lineDecode: seq<byte> -> Geom, circDecode: seq<byte> -> Geom)
    requires |s| >= 1 && |s| >= HeaderSize(s[0]) && TypeOf(s[0]) == COMPOUNDTYPE && TypeNDims(s[0]) > 2
    requires forall i :: 0 <= i < |subs| ==> |subs[i]| >= 1
    requires forall i :: 0 <= i < |subs| ==> TypeNDims(Component(subs[i], lineDecode, circDecode).typ) == TypeNDims(s[0])
    requires |subs| >= 1
    ensures TypeNDims(Component(subs[0], lineDecode, circDecode).typ) != TypeNDims(BARE_COMPOUND)
  {
    BareCompoundIs2D();
  }

  // ---- is_closed -------------------------------------------------------------------

  /** A component is_closed can read: a line or circular string struct with a point array. */
  predicate HasPoints(g: Geom)
  {
    g.Single? && g.pa.Some? && g.pa.value.WellFormed()
  }

  /** The number of ordinates is_closed compares: x, y, and z when the compound has Z. */
  function CompareLen(hasz: bool): nat
  {
    if hasz then 3 else 2
  }

  /**
   * What lwcompound_is_closed can evaluate: at least one component, the
   * first one's point array non-empty, and the last one a line or circular
   * string by its type field (for anything else the C reads point -1),
   * with enough ordinates in both points.
   */
  predicate ClosableShape(hasz: bool, geoms: seq<Geom>)
  {
    |geoms| >= 1 && HasPoints(geoms[0]) && HasPoints(geoms[|geoms| - 1])
    && |geoms[0].pa.value.points| >= 1
    && (geoms[|geoms| - 1].typ == CIRCSTRINGTYPE as byte || geoms[|geoms| - 1].typ == LINETYPE as byte)
    && |geoms[|geoms| - 1].pa.value.points| >= 1
    && NDims(geoms[0].pa.value.hasz, geoms[0].pa.value.hasm) >= CompareLen(hasz)
    && NDims(geoms[|geoms| - 1].pa.value.hasz, geoms[|geoms| - 1].pa.value.hasm) >= CompareLen(hasz)
  }

  /**
   * lwcompound_is_closed: the first point of the first component and the
   * last point of the last component have the same x and y (and z when
   * the compound has Z), compared as bytes.
   */
  function IsClosed(hasz: bool, geoms: seq<Geom>): (r: bool)
    requires ClosableShape(hasz, geoms)
    ensures var p := geoms[0].pa.value.points[0];
      var q := geoms[|geoms| - 1].pa.value.points[|geoms[|geoms| - 1].pa.value.points| - 1];
      r <==> p[0] == q[0] && p[1] == q[1] && (hasz ==> p[2] == q[2])
  {
    var first := geoms[0].pa.value.points;
    var last := geoms[|geoms| - 1].pa.value.points;
    var npoints := |last|;
    var k := CompareLen(hasz);
    first[0][..k] == last[npoints - 1][..k]
  }

  /**
   * A compound of one component is closed exactly when that component's
   * point array is closed: in 2D without Z (ptarray_isclosed2d), in 3D
   * with Z (ptarray_isclosed3d).
   */
  lemma OneComponentClosed(hasz: bool, g: Geom)
    requires ClosableShape(hasz, [g]) && (hasz ==> g.pa.value.hasz)
    ensures IsClosed(hasz, [g]) <==> if hasz then Closed3d(g.pa.value) else Closed2d(g.pa.value)
  {
  }

  /**
   * Closure only looks at the ends: components in between do not matter,
   * and a compound whose first component starts where its last one ends is
   * closed.
   */
  lemma ClosedByEnds(hasz: bool, geoms: seq<Geom>, middle: seq<Geom>)
    requires ClosableShape(hasz, geoms) && |geoms| >= 2
    ensures var g := [geoms[0]] + middle + [geoms[|geoms| - 1]];
      ClosableShape(hasz, g) && IsClosed(hasz, g) == IsClosed(hasz, geoms)
  {
    var g := [geoms[0]] + middle + [geoms[|geoms| - 1]];
    assert g[0] == geoms[0] && g[|g| - 1] == geoms[|geoms| - 1];
  }
}
