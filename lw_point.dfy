/**
 * LWPOINT of liblwgeom (liblwgeom/lwpoint.c): its serialized form, the
 * constructors and the small queries.
 *
 * The serialized point is the type byte, the box when the type byte says
 * so, the SRID when the type byte says so, then the ordinates of its one
 * point.
 */
module LwPoint {
  import opened Bytes
  import opened Wrappers
  import opened PointArrays
  import opened LwTypes

  /** What serialize_buf can work on: a point struct with a point array holding a point. */
  predicate Serializable(p: Geom)
  {
    p.Single? && p.pa.Some? && p.pa.value.WellFormed() && |p.pa.value.points| >= 1 && IsInt32(p.srid)
  }

  /** The struct's type byte and its array agree on Z and M (TYPE_GETZM of both). */
  predicate ZMMatch(p: Geom)
    requires p.Single? && p.pa.Some?
  {
    TypeHasZ(p.typ) == p.pa.value.hasz && TypeHasM(p.typ) == p.pa.value.hasm
  }

  /** The type byte serialize_buf writes: the struct's Z/M, an SRID iff SRID != -1, a box iff one is cached. */
  function WrittenType(p: Geom): byte
  {
    MakeTypeFull(TypeHasZ(p.typ), TypeHasM(p.typ), p.srid != -1, POINTTYPE, p.bbox.Some?)
  }

  /** The bytes lwpoint_serialize_buf writes for p. */
  function Serialized(p: Geom): seq<byte>
    requires Serializable(p)
  {
    HeaderBytes(WrittenType(p), p.bbox, p.srid) + PointsBytes([p.pa.value.points[0]])
  }

  /** lwpoint_serialize_size */
  function SerializeSize(p: Geom): nat
  {
    1 + (if p.srid != -1 then 4 else 0) + (if p.bbox.Some? then BOX_SIZE else 0) + 8 * TypeNDims(p.typ)
  }

  /** lwpoint_serialize_size counts exactly the bytes serialize_buf writes. */
  lemma SerializeSizeAgrees(p: Geom)
    requires Serializable(p) && ZMMatch(p)
    ensures |Serialized(p)| == SerializeSize(p)
  {
    PointsBytesLength([p.pa.value.points[0]], NDims(p.pa.value.hasz, p.pa.value.hasm));
  }

  /**
   * lwpoint_serialize_buf: a Z/M mismatch between the struct and its array
   * is an error and writes nothing; otherwise the layout is written from
   * the start of buf and its size reported.
   */
  method SerializeBuf(p: Geom, buf: array<byte>) returns (r: Result<nat>)
    requires Serializable(p) && SerializeSize(p) <= buf.Length
    modifies buf
    ensures r.Ok? <==> ZMMatch(p)
    ensures r.Ok? ==> r.value == SerializeSize(p) && buf[..r.value] == Serialized(p)
    ensures r.Err? ==> buf[..] == old(buf[..])
  {
    var pa := p.pa.value;
    if TypeHasZ(p.typ) != pa.hasz || TypeHasM(p.typ) != pa.hasm {
      return Err("Dimensions mismatch in lwpoint");
    }
    var hasSRID := p.srid != -1;
    var size := 1;
    if hasSRID {
      size := size + 4;
    }
    if p.bbox.Some? {
      size := size + BOX_SIZE;
    }
    size := size + 8 * TypeNDims(p.typ);
    SerializeSizeAgrees(p);
    var t := MakeTypeFull(TypeHasZ(p.typ), TypeHasM(p.typ), hasSRID, POINTTYPE, p.bbox.Some?);
    var loc := PutHeader(buf, t, p.bbox, p.srid);
    loc := Put(buf, loc, PointsBytes([pa.points[0]]));
    return Ok(size);
  }

  /** lwgeom_size_point: 0 for a non-point, else the length its type byte announces. */
  function SizeOf(s: seq<byte>): nat
    requires |s| >= 1
  {
    if TypeOf(s[0]) != POINTTYPE then 0
    else 1 + (if TypeHasBBox(s[0]) then BOX_SIZE else 0) + (if TypeHasSRID(s[0]) then 4 else 0) + 8 * TypeNDims(s[0])
  }

  /** lwgeom_size_point on a serialized point is the size serialize_size computed for it. */
  lemma SizeOfSerialized(p: Geom)
    requires Serializable(p) && ZMMatch(p)
    ensures |Serialized(p)| >= 1 && SizeOf(Serialized(p)) == SerializeSize(p) == |Serialized(p)|
  {
    SerializeSizeAgrees(p);
  }

  /** The serialized form reaches as far as its header announces. */
  predicate Readable(s: seq<byte>)
  {
    |s| >= 1 && |s| >= SizeOf(s)
  }

  /**
   * What lwpoint_deserialize builds: a non-point type is an error; the box
   * is read only when flagged, the SRID is -1 when not flagged, and the one
   * point has the ordinates the type byte calls for.
   */
  function Decode(s: seq<byte>): (r: Result<Geom>)
    requires Readable(s)
  {
    var t := s[0];
    if TypeOf(t) != POINTTYPE then Err("lwpoint_deserialize: attempt to deserialize a point which is really another type")
    else
      var h := ReadHeader(s);
      var loc := HeaderSize(t);
      var nd := TypeNDims(t);
      Ok(Single(t, h.srid, h.bbox, Some(PtArr(TypeHasZ(t), TypeHasM(t), PointsOf(s[loc..loc + 8 * nd], nd, 1)))))
  }

  /** lwpoint_deserialize, reading through a cursor. */
  method Deserialize(s: seq<byte>) returns (r: Result<Geom>)
    requires Readable(s)
    ensures r == Decode(s)
  {
    var t := s[0];
    if TypeOf(t) != POINTTYPE {
      return Err("lwpoint_deserialize: attempt to deserialize a point which is really another type");
    }
    var loc := 1;
    var bbox: Option<Box2D> := None;
    if TypeHasBBox(t) {
      bbox := Some(s[loc..loc + BOX_SIZE]);
      loc := loc + BOX_SIZE;
    }
    var srid := SRID_UNKNOWN;
    if TypeHasSRID(t) {
      srid := Int32Of(s[loc..loc + 4]);
      loc := loc + 4;
    }
    assert Header(bbox, srid) == ReadHeader(s);
    var nd := TypeNDims(t);
    var pa := PtArr(TypeHasZ(t), TypeHasM(t), PointsOf(s[loc..loc + 8 * nd], nd, 1));
    return Ok(Single(t, srid, bbox, Some(pa)));
  }

  /** A point struct exactly as deserialize builds one: one point, and flags that match what it holds. */
  predicate Canonical(p: Geom)
  {
    Serializable(p) && ZMMatch(p) && |p.pa.value.points| == 1 && p.typ == WrittenType(p)
  }

  /** Where the header and the point sit in the serialized form. */
  lemma SerializedLayout(p: Geom) returns (h: nat)
    requires Serializable(p) && ZMMatch(p)
    ensures var s := Serialized(p); var t := WrittenType(p); var nd := TypeNDims(t);
      h == HeaderSize(t) && |s| >= 1 && s[0] == t && |s| == h + 8 * nd
      && ReadHeader(s) == Header(p.bbox, p.srid)
      && s[h..h + 8 * nd] == PointsBytes([p.pa.value.points[0]])
  {
    var pa := p.pa.value;
    var t := WrittenType(p);
    var ptb := PointsBytes([pa.points[0]]);
    PointsBytesLength([pa.points[0]], TypeNDims(t));
    ReadHeaderBytes(t, p.bbox, p.srid, ptb);
    h := HeaderSize(t);
  }

  /** Bytes laid out as lwpoint_serialize_buf writes p read back as p's parts. */
  lemma DecodeLayout(s: seq<byte>, p: Geom, h: nat)
    requires Serializable(p) && ZMMatch(p)
    requires var t := WrittenType(p); var nd := TypeNDims(t);
      h == HeaderSize(t) && |s| >= 1 && s[0] == t && |s| == h + 8 * nd
      && ReadHeader(s) == Header(p.bbox, p.srid)
      && s[h..h + 8 * nd] == PointsBytes([p.pa.value.points[0]])
    ensures Readable(s)
    ensures Decode(s) == Ok(Single(WrittenType(p), p.srid, p.bbox, Some(PtArr(p.pa.value.hasz, p.pa.value.hasm, [p.pa.value.points[0]]))))
  {
    var pa := p.pa.value;
    PointsRoundTrip([pa.points[0]], TypeNDims(WrittenType(p)));
  }

  /**
   * lwpoint_deserialize inverts lwpoint_serialize_buf: it rebuilds the
   * written type byte, the box, the SRID (-1 when none was written) and the
   * first point.
   */
  lemma DecodeSerialized(p: Geom)
    requires Serializable(p) && ZMMatch(p)
    ensures Readable(Serialized(p))
    ensures Decode(Serialized(p))
         == Ok(Single(WrittenType(p), p.srid, p.bbox, Some(PtArr(p.pa.value.hasz, p.pa.value.hasm, [p.pa.value.points[0]]))))
  {
    var h := SerializedLayout(p);
    DecodeLayout(Serialized(p), p, h);
  }

  /** A canonical point survives lwpoint_serialize_buf then lwpoint_deserialize unchanged. */
  lemma DecodeCanonical(p: Geom)
    requires Canonical(p)
    ensures Readable(Serialized(p)) && Decode(Serialized(p)) == Ok(p)
  {
    DecodeSerialized(p);
    assert [p.pa.value.points[0]] == p.pa.value.points;
  }

  /**
   * lwpoint_construct: no point without an array; the Z/M flags come from
   * the array, the SRID flag is set only for SRID > 0, and the box is kept
   * without setting its flag.
   */
  function Construct(srid: int, bbox: Option<Box2D>, pa: Option<PtArr>): (r: Option<Geom>)
    ensures r.Some? <==> pa.Some?
    ensures r.Some? ==> r.value.Single? && r.value.pa == pa && r.value.srid == srid && r.value.bbox == bbox
    ensures r.Some? ==> TypeOf(r.value.typ) == POINTTYPE && !TypeHasBBox(r.value.typ)
    ensures r.Some? ==> (TypeHasSRID(r.value.typ) <==> srid > 0)
    ensures r.Some? ==> TypeHasZ(r.value.typ) == pa.value.hasz && TypeHasM(r.value.typ) == pa.value.hasm
  {
    if pa.None? then None
    else Some(Single(MakeTypeFull(pa.value.hasz, pa.value.hasm, srid > 0, POINTTYPE, false), srid, bbox, pa))
  }

  /** lwpoint_construct_empty: no array, no box, the SRID flag set only for srid > 0. */
  function ConstructEmpty(srid: int, hasz: bool, hasm: bool): (r: Geom)
    ensures r.Single? && r.pa.None? && r.bbox.None? && r.srid == srid
    ensures TypeOf(r.typ) == POINTTYPE && TypeHasZ(r.typ) == hasz && TypeHasM(r.typ) == hasm
    ensures TypeHasSRID(r.typ) <==> srid > 0
  {
    Single(MakeTypeFull(hasz, hasm, srid > 0, POINTTYPE, false), srid, None, None)
  }

  /** lwpoint_is_empty: no array, or an array without points. */
  predicate IsEmpty(p: Geom)
    requires p.Single?
  {
    p.pa.None? || |p.pa.value.points| == 0
  }

  /** The empty constructor builds an empty point, and construct on a non-empty array a non-empty one. */
  lemma EmptyConstructors(srid: int, hasz: bool, hasm: bool, bbox: Option<Box2D>, pa: PtArr)
    ensures IsEmpty(ConstructEmpty(srid, hasz, hasm))
    ensures IsEmpty(Construct(srid, bbox, Some(pa)).value) <==> |pa.points| == 0
  {
  }

  /** lwpoint_same: ptarray_same of the two arrays, that is, equal point lists. */
  predicate Same(p1: Geom, p2: Geom)
    requires p1.Single? && p1.pa.Some? && p2.Single? && p2.pa.Some?
  {
    PtArrSame(p1.pa.value, p2.pa.value)
  }

  /** Two points are the same exactly when their arrays are equal values; box and SRID do not matter. */
  lemma SameIsArrayEquality(p1: Geom, p2: Geom)
    requires p1.Single? && p1.pa.Some? && p2.Single? && p2.pa.Some?
    ensures Same(p1, p2) <==> p1.pa == p2.pa
  {
    PtArrSameIsEquality(p1.pa.value, p2.pa.value);
  }

  /** TYPE_SETTYPE: replace the type nibble, keeping the flags. */
  function SetType(t: byte, typ: nat): (r: byte)
    requires typ < 16
    ensures TypeOf(r) == typ && TypeHasZ(r) == TypeHasZ(t) && TypeHasM(r) == TypeHasM(t)
    ensures TypeHasSRID(r) == TypeHasSRID(t) && TypeHasBBox(r) == TypeHasBBox(t)
  {
    MakeTypeFull(TypeHasZ(t), TypeHasM(t), TypeHasSRID(t), typ, TypeHasBBox(t))
  }

  /**
   * lwpoint_force_dims: an empty point becomes an empty point with the new
   * flags; otherwise the array is copied with the new flags and the point is
   * constructed without a box. The SRID and the type are kept.
   */
  function ForceDims(p: Geom, hasz: bool, hasm: bool): (r: Geom)
    requires p.Single? && (p.pa.Some? ==> p.pa.value.WellFormed())
    ensures r.Single? && r.srid == p.srid && r.bbox.None?
    ensures TypeOf(r.typ) == TypeOf(p.typ) && TypeHasZ(r.typ) == hasz && TypeHasM(r.typ) == hasm
    ensures IsEmpty(r) <==> IsEmpty(p)
    ensures !IsEmpty(p) ==> r.pa.value.hasz == hasz && r.pa.value.hasm == hasm && r.pa.value.WellFormed()
    ensures !IsEmpty(p) ==> |r.pa.value.points| == |p.pa.value.points|
  {
    var out := if IsEmpty(p) then ConstructEmpty(p.srid, hasz, hasm)
               else Construct(p.srid, None, Some(ForcePts(p.pa.value, hasz, hasm))).value;
    Single(SetType(out.typ, TypeOf(p.typ)), out.srid, out.bbox, out.pa)
  }

  /** Forcing a point to the flags it already has keeps its ordinates; forcing twice is forcing once. */
  lemma ForceDimsProperties(p: Geom, hasz: bool, hasm: bool)
    requires p.Single? && (p.pa.Some? ==> p.pa.value.WellFormed())
    ensures !IsEmpty(p) && p.pa.value.hasz == hasz && p.pa.value.hasm == hasm ==> ForceDims(p, hasz, hasm).pa == p.pa
    ensures ForceDims(ForceDims(p, hasz, hasm), hasz, hasm) == ForceDims(p, hasz, hasm)
  {
    var r := ForceDims(p, hasz, hasm);
    if !IsEmpty(p) {
      ForcePtsSame(r.pa.value);
      if p.pa.value.hasz == hasz && p.pa.value.hasm == hasm {
        ForcePtsSame(p.pa.value);
      }
      var r2 := ForceDims(r, hasz, hasm);
      assert r2.typ == r.typ by {
        TypeByteParts(r2.typ, r.typ);
      }
    } else {
      var r2 := ForceDims(r, hasz, hasm);
      assert r2.typ == r.typ by {
        TypeByteParts(r2.typ, r.typ);
      }
    }
  }
}
