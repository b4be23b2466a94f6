/**
 * The geometry structs of liblwgeom and the type byte of its serialized form.
 *
 * Every serialized geometry starts with one type byte: the low nibble is the
 * geometry type, 0x10 says the points carry M, 0x20 that they carry Z, 0x40
 * that a 4-byte SRID follows and 0x80 that a 16-byte box (BOX2DFLOAT4)
 * follows. The deserialized structs (LWPOINT, LWLINE, LWPOLY, LWCOLLECTION
 * and their relatives) keep that byte in their `type` field, an SRID
 * (-1 for unknown), an optional cached box, and their points, rings or
 * member geometries.
 */
module LwTypes {
  import opened Bytes
  import opened Wrappers
  import opened PointArrays

  const POINTTYPE: nat := 1
  const LINETYPE: nat := 2
  const POLYGONTYPE: nat := 3
  const MULTIPOINTTYPE: nat := 4
  const MULTILINETYPE: nat := 5
  const MULTIPOLYGONTYPE: nat := 6
  const COLLECTIONTYPE: nat := 7
  const CIRCSTRINGTYPE: nat := 8
  const COMPOUNDTYPE: nat := 9
  const CURVEPOLYTYPE: nat := 10
  const MULTICURVETYPE: nat := 11
  const MULTISURFACETYPE: nat := 12
  const POLYHEDRALSURFACETYPE: nat := 13
  const TRIANGLETYPE: nat := 14
  const TINTYPE: nat := 15

  const SRID_UNKNOWN: int := -1
  const SRID_MAXIMUM: int := 999999

  /** The size of a BOX2DFLOAT4: four 4-byte floats. */
  const BOX_SIZE: nat := 16

  /** A cached BOX2DFLOAT4, kept as the 16 bytes it occupies. */
  type Box2D = b: seq<byte> | |b| == 16 witness seq(16, _ => 0)

  // ---- the type byte ----------------------------------------------------

  /** TYPE_GETTYPE: the geometry type in the low nibble. */
  function TypeOf(t: byte): nat { t % 16 }

  /** The flag nibble: bit 0 M, bit 1 Z, bit 2 SRID, bit 3 BBOX. */
  function Flags(t: byte): nat { t / 16 }

  /** TYPE_HASZ (bit 5 of the byte) */
  predicate TypeHasZ(t: byte) { Flags(t) / 2 % 2 == 1 }

  /** TYPE_HASM (bit 4) */
  predicate TypeHasM(t: byte) { Flags(t) % 2 == 1 }

  /** TYPE_HASSRID (lwgeom_hasSRID, bit 6) */
  predicate TypeHasSRID(t: byte) { Flags(t) / 4 % 2 == 1 }

  /** TYPE_HASBBOX (lwgeom_hasBBOX, bit 7) */
  predicate TypeHasBBox(t: byte) { Flags(t) >= 8 }

  /** TYPE_NDIMS: 2, plus one for Z, plus one for M. */
  function TypeNDims(t: byte): nat { NDims(TypeHasZ(t), TypeHasM(t)) }

  function Bit(b: bool): nat { if b then 1 else 0 }

  /** The flag nibble of the given flags. */
  function FlagBits(hasz: bool, hasm: bool, hasSRID: bool, hasBBox: bool): (f: nat)
    ensures f < 16
    ensures f % 2 == Bit(hasm) && f / 2 % 2 == Bit(hasz) && f / 4 % 2 == Bit(hasSRID) && (f >= 8) == hasBBox
  {
    Bit(hasm) + 2 * Bit(hasz) + 4 * Bit(hasSRID) + 8 * Bit(hasBBox)
  }

  /** A flag nibble is the one its four bits spell. */
  lemma FlagBitsOf(f: nat)
    requires f < 16
    ensures FlagBits(f / 2 % 2 == 1, f % 2 == 1, f / 4 % 2 == 1, f >= 8) == f
  {
    if f < 8 {
      if f < 4 {
        assert f == 0 || f == 1 || f == 2 || f == 3;
      } else {
        assert f == 4 || f == 5 || f == 6 || f == 7;
      }
    } else {
      if f < 12 {
        assert f == 8 || f == 9 || f == 10 || f == 11;
      } else {
        assert f == 12 || f == 13 || f == 14 || f == 15;
      }
    }
  }

  /** lwgeom_makeType_full: the type in the low nibble and one bit per flag. */
  function MakeTypeFull(hasz: bool, hasm: bool, hasSRID: bool, typ: nat, hasBBox: bool): (t: byte)
    requires typ < 16
    ensures TypeOf(t) == typ && TypeHasZ(t) == hasz && TypeHasM(t) == hasm
    ensures TypeHasSRID(t) == hasSRID && TypeHasBBox(t) == hasBBox
  {
    var f := FlagBits(hasz, hasm, hasSRID, hasBBox);
    assert (typ + 16 * f) / 16 == f && (typ + 16 * f) % 16 == typ;
    typ + 16 * f
  }

  /** Every type byte is the one makeType_full builds from its own parts. */
  lemma MakeTypeFullOfParts(t: byte)
    ensures MakeTypeFull(TypeHasZ(t), TypeHasM(t), TypeHasSRID(t), TypeOf(t), TypeHasBBox(t)) == t
  {
    FlagBitsOf(Flags(t));
  }

  /** Type bytes agreeing on every part are the same byte. */
  lemma TypeByteParts(t: byte, u: byte)
    requires TypeOf(t) == TypeOf(u) && TypeHasZ(t) == TypeHasZ(u) && TypeHasM(t) == TypeHasM(u)
    requires TypeHasSRID(t) == TypeHasSRID(u) && TypeHasBBox(t) == TypeHasBBox(u)
    ensures t == u
  {
    MakeTypeFullOfParts(t);
    MakeTypeFullOfParts(u);
  }

  /** TYPE_SETHASBBOX */
  function WithBBoxFlag(t: byte, b: bool): (r: byte)
    ensures TypeOf(r) == TypeOf(t) && TypeHasZ(r) == TypeHasZ(t) && TypeHasM(r) == TypeHasM(t)
    ensures TypeHasSRID(r) == TypeHasSRID(t) && TypeHasBBox(r) == b
  {
    MakeTypeFull(TypeHasZ(t), TypeHasM(t), TypeHasSRID(t), TypeOf(t), b)
  }

  /** TYPE_SETHASSRID */
  function WithSRIDFlag(t: byte, b: bool): (r: byte)
    ensures TypeOf(r) == TypeOf(t) && TypeHasZ(r) == TypeHasZ(t) && TypeHasM(r) == TypeHasM(t)
    ensures TypeHasSRID(r) == b && TypeHasBBox(r) == TypeHasBBox(t)
  {
    MakeTypeFull(TypeHasZ(t), TypeHasM(t), b, TypeOf(t), TypeHasBBox(t))
  }

  // ---- the header every serialized geometry starts with -------------------

  /** The length of the type byte, the box and the SRID that the type byte announces. */
  function HeaderSize(t: byte): nat
  {
    1 + (if TypeHasBBox(t) then BOX_SIZE else 0) + (if TypeHasSRID(t) then 4 else 0)
  }

  /** The box (when flagged) and the SRID (-1 when not flagged) read after the type byte. */
  datatype Header = Header(bbox: Option<Box2D>, srid: int)

  function ReadHeader(s: seq<byte>): (h: Header)
    requires |s| >= 1 && |s| >= HeaderSize(s[0])
    ensures h.bbox.Some? <==> TypeHasBBox(s[0])
    ensures !TypeHasSRID(s[0]) ==> h.srid == SRID_UNKNOWN
  {
    var t := s[0];
    var boxEnd := if TypeHasBBox(t) then 1 + BOX_SIZE else 1;
    var bbox: Option<Box2D> := if TypeHasBBox(t) then Some(s[1..1 + BOX_SIZE]) else None;
    Header(bbox, if TypeHasSRID(t) then Int32Of(s[boxEnd..boxEnd + 4]) else SRID_UNKNOWN)
  }

  /** The type byte, then the box and the SRID as serialize_buf writes them. */
  function HeaderBytes(t: byte, bbox: Option<Box2D>, srid: int): (b: seq<byte>)
    requires IsInt32(srid)
    ensures |b| >= 1 && b[0] == t
  {
    [t] + (if bbox.Some? then bbox.value else []) + (if srid != SRID_UNKNOWN then Int32Bytes(srid) else [])
  }

  /**
   * Reading the header back gives the box and the SRID that were written,
   * whatever follows it, as long as the flags announce what was written.
   */
  lemma ReadHeaderBytes(t: byte, bbox: Option<Box2D>, srid: int, rest: seq<byte>)
    requires IsInt32(srid) && TypeHasBBox(t) == bbox.Some? && TypeHasSRID(t) == (srid != SRID_UNKNOWN)
    ensures |HeaderBytes(t, bbox, srid)| == HeaderSize(t)
    ensures var s := HeaderBytes(t, bbox, srid) + rest;
      |s| >= HeaderSize(s[0]) && s[0] == t && ReadHeader(s) == Header(bbox, srid)
      && s[HeaderSize(t)..] == rest
  {
    var boxb := if bbox.Some? then bbox.value else [];
    var sridb := if srid != SRID_UNKNOWN then Int32Bytes(srid) else [];
    var s := HeaderBytes(t, bbox, srid) + rest;
    assert s == [t] + boxb + sridb + rest;
    if bbox.Some? {
      assert s[1..1 + BOX_SIZE] == bbox.value;
    }
    if srid != SRID_UNKNOWN {
      assert s[1 + |boxb|..1 + |boxb| + 4] == sridb;
      Int32RoundTrip(srid);
    }
    assert s[HeaderSize(t)..] == rest;
  }

  /** Writes the header at the start of buf; the cursor ends right after it. */
  method PutHeader(buf: array<byte>, t: byte, bbox: Option<Box2D>, srid: int) returns (loc: nat)
    requires IsInt32(srid) && |HeaderBytes(t, bbox, srid)| <= buf.Length
    modifies buf
    ensures loc == |HeaderBytes(t, bbox, srid)| && buf[..loc] == HeaderBytes(t, bbox, srid)
  {
    loc := Put(buf, 0, [t]);
    if bbox.Some? {
      loc := Put(buf, loc, bbox.value);
    }
    if srid != SRID_UNKNOWN {
      loc := Put(buf, loc, Int32Bytes(srid));
    }
  }

  // ---- point lists --------------------------------------------------------

  /** A POINTARRAY as a value: its Z/M flags and its points. */
  datatype PtArr = PtArr(hasz: bool, hasm: bool, points: seq<Raw>)
  {
    /** Every point has the ordinates the flags call for. */
    predicate WellFormed()
    {
      forall i :: 0 <= i < |points| ==> |points[i]| == NDims(hasz, hasm)
    }

    function NPoints(): nat { |points| }
  }

  /** ptarray_isclosed2d on a value: the first and last points have the same x and y bytes. */
  predicate Closed2d(pa: PtArr)
    requires pa.WellFormed() && |pa.points| >= 1
  {
    pa.points[0][..2] == pa.points[|pa.points| - 1][..2]
  }

  /** ptarray_isclosed3d on a value with Z: the first and last points have the same x, y and z bytes. */
  predicate Closed3d(pa: PtArr)
    requires pa.WellFormed() && |pa.points| >= 1 && pa.hasz
  {
    pa.points[0][..3] == pa.points[|pa.points| - 1][..3]
  }

  /** The number of points over a list of point lists. */
  function SumPoints(rs: seq<PtArr>): nat
  {
    if rs == [] then 0 else SumPoints(rs[..|rs| - 1]) + |rs[|rs| - 1].points|
  }

  /** The bytes n points of nd ordinates take: 8·nd bytes per point. */
  function PointsSize(nd: nat, n: nat): nat
  {
    if n == 0 then 0 else PointsSize(nd, n - 1) + 8 * nd
  }

  lemma {:induction false} PointsSizeMul(nd: nat, n: nat)
    ensures PointsSize(nd, n) == 8 * (nd * n)
  {
    if n > 0 {
      PointsSizeMul(nd, n - 1);
      assert nd * n == nd * (n - 1) + nd;
    }
  }

  /** The bytes of a point list as memcpy copies it: the ordinates of each point in turn. */
  function PointsBytes(ps: seq<Raw>): (b: seq<byte>)
  {
    if ps == [] then [] else WordsBytes(ps[0]) + PointsBytes(ps[1..])
  }

  /** Point i of n starts at PointsSize(nd, i) and fits. */
  lemma {:induction false} PointBounds(nd: nat, i: nat, n: nat)
    requires i < n
    ensures PointsSize(nd, i) + 8 * nd <= PointsSize(nd, n)
  {
    if i < n - 1 {
      PointBounds(nd, i, n - 1);
    }
  }

  /** Point i of n with nd ordinates each, read from bytes 8·nd·i on. */
  function PointAt(b: seq<byte>, nd: nat, n: nat, i: nat): (p: Raw)
    requires |b| == PointsSize(nd, n) && i < n
    ensures |p| == nd
  {
    PointBounds(nd, i, n);
    WordsOf(b[PointsSize(nd, i)..PointsSize(nd, i) + 8 * nd])
  }

  /** The n points of nd ordinates each read from their bytes. */
  function PointsOf(b: seq<byte>, nd: nat, n: nat): (ps: seq<Raw>)
    requires |b| == PointsSize(nd, n)
    ensures |ps| == n && forall i :: 0 <= i < n ==> |ps[i]| == nd
  {
    seq(n, i requires 0 <= i < n => PointAt(b, nd, n, i))
  }

  lemma {:induction false} PointsBytesLength(ps: seq<Raw>, nd: nat)
    requires forall i :: 0 <= i < |ps| ==> |ps[i]| == nd
    ensures |PointsBytes(ps)| == PointsSize(nd, |ps|)
  {
    if ps != [] {
      PointsBytesLength(ps[1..], nd);
    }
  }

  /** Point i of a point list sits at bytes 8·nd·i to 8·nd·(i+1). */
  lemma {:induction false} PointsBytesAt(ps: seq<Raw>, nd: nat, i: nat)
    requires forall k :: 0 <= k < |ps| ==> |ps[k]| == nd
    requires i < |ps|
    ensures |PointsBytes(ps)| == PointsSize(nd, |ps|) && PointsSize(nd, i) + 8 * nd <= |PointsBytes(ps)|
    ensures PointsBytes(ps)[PointsSize(nd, i)..PointsSize(nd, i) + 8 * nd] == WordsBytes(ps[i])
  {
    PointsBytesLength(ps, nd);
    PointBounds(nd, i, |ps|);
    if i > 0 {
      var a, b, o := WordsBytes(ps[0]), PointsBytes(ps[1..]), PointsSize(nd, i - 1);
      assert |a| == 8 * nd;
      assert PointsSize(nd, i) == |a| + o;
      assert ps[1..][i - 1] == ps[i];
      PointsBytesAt(ps[1..], nd, i - 1);
      SliceOfConcat(PointsBytes(ps), a, b, PointsSize(nd, i), o, 8 * nd);
    } else {
      SliceAppend([], PointsBytes(ps), 0, 8 * nd);
      assert PointsBytes(ps)[..8 * nd] == WordsBytes(ps[0]);
    }
  }

  /** Point i read back from the bytes of a point list. */
  lemma PointAtBytes(ps: seq<Raw>, nd: nat, i: nat)
    requires forall k :: 0 <= k < |ps| ==> |ps[k]| == nd
    requires i < |ps|
    ensures |PointsBytes(ps)| == PointsSize(nd, |ps|)
    ensures PointAt(PointsBytes(ps), nd, |ps|, i) == ps[i]
  {
    PointsBytesAt(ps, nd, i);
    WordsRoundTrip(ps[i]);
  }

  /** Reading back the bytes of a point list gives the points back. */
  lemma PointsRoundTrip(ps: seq<Raw>, nd: nat)
    requires forall i :: 0 <= i < |ps| ==> |ps[i]| == nd
    ensures |PointsBytes(ps)| == PointsSize(nd, |ps|)
    ensures PointsOf(PointsBytes(ps), nd, |ps|) == ps
  {
    PointsBytesLength(ps, nd);
    var r := PointsOf(PointsBytes(ps), nd, |ps|);
    forall i | 0 <= i < |ps| ensures r[i] == ps[i] {
      PointAtBytes(ps, nd, i);
    }
  }


  /**
   * ptarray_same on point-list values: the same Z/M flags, the same number
   * of points and the same ordinates (memcmp) point by point.
   */
  predicate PtArrSame(a: PtArr, b: PtArr)
  {
    a.hasz == b.hasz && a.hasm == b.hasm && |a.points| == |b.points|
    && forall i :: 0 <= i < |a.points| ==> a.points[i] == b.points[i]
  }

  /** Point-list values are ptarray_same exactly when they are equal. */
  lemma PtArrSameIsEquality(a: PtArr, b: PtArr)
    ensures PtArrSame(a, b) <==> a == b
  {
    if PtArrSame(a, b) {
      assert a.points == b.points;
    }
  }

  /**
   * ptarray_force_dims: every point read as a POINT4D (absent ordinates
   * 0.0) and stored into a new list with the requested flags.
   */
  function ForcePts(pa: PtArr, z: bool, m: bool): (r: PtArr)
    requires pa.WellFormed()
    ensures r.hasz == z && r.hasm == m && r.WellFormed() && |r.points| == |pa.points|
  {
    PtArr(z, m, seq(|pa.points|, i requires 0 <= i < |pa.points| => Store(Load(pa.points[i], pa.hasz, pa.hasm), z, m)))
  }

  /**
   * Each forced point reads back as the original POINT4D with x and y kept,
   * z and m kept where the new flags have them and 0.0 where they do not.
   */
  lemma ForcePtsLoad(pa: PtArr, z: bool, m: bool, i: nat)
    requires pa.WellFormed() && i < |pa.points|
    ensures var p := Load(pa.points[i], pa.hasz, pa.hasm);
      Load(ForcePts(pa, z, m).points[i], z, m) == Point4(p.x, p.y, if z then p.z else ZERO, if m then p.m else ZERO)
  {
    LoadStore(Load(pa.points[i], pa.hasz, pa.hasm), z, m);
  }

  /** Forcing a list to the flags it already has changes nothing. */
  lemma ForcePtsSame(pa: PtArr)
    requires pa.WellFormed()
    ensures ForcePts(pa, pa.hasz, pa.hasm) == pa
  {
    var r := ForcePts(pa, pa.hasz, pa.hasm);
    forall i | 0 <= i < |pa.points| ensures r.points[i] == pa.points[i] {
      StoreLoad(pa.points[i], pa.hasz, pa.hasm);
    }
  }

  /** Forcing to four dimensions and back to the original flags gives the list back. */
  lemma ForcePtsUpDown(pa: PtArr)
    requires pa.WellFormed()
    ensures ForcePts(ForcePts(pa, true, true), pa.hasz, pa.hasm) == pa
  {
    var up := ForcePts(pa, true, true);
    var r := ForcePts(up, pa.hasz, pa.hasm);
    forall i | 0 <= i < |pa.points| ensures r.points[i] == pa.points[i] {
      var p := Load(pa.points[i], pa.hasz, pa.hasm);
      LoadStore(p, true, true);
      StoreLoad(pa.points[i], pa.hasz, pa.hasm);
    }
  }

  // ---- geometries ------------------------------------------------------------

  /**
   * A deserialized geometry. `Single` is LWPOINT, LWLINE, LWCIRCSTRING and
   * LWTRIANGLE (a type byte, an SRID, a box and one point array, NULL when
   * absent); `Poly` is LWPOLY (rings, NULL when absent, and the capacity
   * maxrings); `Coll` is LWCOLLECTION and every struct laid out like it
   * (the multi types, compound curves, curve polygons, surfaces, TINs),
   * whose member array is absent exactly when it is empty.
   */
  datatype Geom =
    | Single(typ: byte, srid: int, bbox: Option<Box2D>, pa: Option<PtArr>)
    | Poly(typ: byte, srid: int, bbox: Option<Box2D>, rings: Option<seq<PtArr>>, maxrings: nat)
    | Coll(typ: byte, srid: int, bbox: Option<Box2D>, geoms: seq<Geom>)
  {
    /** nrings / ngeoms: 0 when the array is absent. */
    function Count(): nat
    {
      match this
      case Single(_, _, _, _) => 0
      case Poly(_, _, _, rings, _) => if rings.Some? then |rings.value| else 0
      case Coll(_, _, _, geoms) => |geoms|
    }

    /** The member geometries of a collection (none for other structs). */
    function Members(): seq<Geom>
    {
      if Coll? then geoms else []
    }
  }

  /** The struct matches its type: the cast the type switch performs is to the struct it is. */
  predicate Shaped(g: Geom)
    decreases g
  {
    match g
    case Single(t, _, _, _) => TypeOf(t) in {POINTTYPE, LINETYPE, CIRCSTRINGTYPE, TRIANGLETYPE}
    case Poly(t, _, _, _, _) => TypeOf(t) == POLYGONTYPE
    case Coll(t, _, _, geoms) =>
      TypeOf(t) !in {POINTTYPE, LINETYPE, CIRCSTRINGTYPE, TRIANGLETYPE, POLYGONTYPE}
      && forall m | m in geoms :: Shaped(m)
  }
}
