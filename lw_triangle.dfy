/**
 * LWTRIANGLE of liblwgeom (liblwgeom/lwtriangle.c): its serialized form,
 * its constructors and the conversion from a closed line.
 *
 * The serialized triangle is the type byte, the box and the SRID when the
 * type byte says so, a 32-bit point count, then the points, each with the
 * ordinates the type byte calls for. That is the layout of one polygon
 * ring after the header, so the ring helpers of LwPoly are used for it.
 */
module LwTriangle {
  import opened Bytes
  import opened Wrappers
  import opened PointArrays
  import opened LwTypes
  import LwPoly

  // ---- constructors --------------------------------------------------------

  /**
   * lwtriangle_construct: the Z/M flags come from the array, the SRID flag
   * is set for every SRID other than -1, and the box is kept without
   * setting its flag.
   */
  function Construct(srid: int, bbox: Option<Box2D>, pa: PtArr): (r: Geom)
    ensures r.Single? && r.pa == Some(pa) && r.srid == srid && r.bbox == bbox
    ensures TypeOf(r.typ) == TRIANGLETYPE && !TypeHasBBox(r.typ)
    ensures TypeHasSRID(r.typ) <==> srid != SRID_UNKNOWN
    ensures TypeHasZ(r.typ) == pa.hasz && TypeHasM(r.typ) == pa.hasm
  {
    Single(MakeTypeFull(pa.hasz, pa.hasm, srid != SRID_UNKNOWN, TRIANGLETYPE, false), srid, bbox, Some(pa))
  }

  /** lwtriangle_construct_empty: no array and no box; the SRID flag is set only for srid > 0. */
  function ConstructEmpty(srid: int, hasz: bool, hasm: bool): (r: Geom)
    ensures r.Single? && r.pa.None? && r.bbox.None? && r.srid == srid
    ensures TypeOf(r.typ) == TRIANGLETYPE && TypeHasZ(r.typ) == hasz && TypeHasM(r.typ) == hasm
    ensures TypeHasSRID(r.typ) <==> srid > 0
  {
    Single(MakeTypeFull(hasz, hasm, srid > 0, TRIANGLETYPE, false), srid, None, None)
  }

  /**
   * The two constructors disagree on the SRID flag: they agree for -1 and
   * for positive SRIDs, and for 0 and other negative SRIDs only
   * lwtriangle_construct sets it.
   */
  lemma ConstructorsSRIDFlag(srid: int, pa: PtArr)
    ensures TypeHasSRID(Construct(srid, None, pa).typ) == TypeHasSRID(ConstructEmpty(srid, pa.hasz, pa.hasm).typ)
            <==> srid == SRID_UNKNOWN || srid > 0
  {
  }

  // ---- serialized form -----------------------------------------------------

  /** What serialize_buf can work on: a triangle struct with a well-formed array and 32-bit counts. */
  predicate Serializable(t: Geom)
  {
    t.Single? && t.pa.Some? && t.pa.value.WellFormed() && |t.pa.value.points| < TWO32 && IsInt32(t.srid)
  }

  /** The struct's type byte and its array agree on Z and M (TYPE_GETZM of both). */
  predicate ZMMatch(t: Geom)
    requires t.Single? && t.pa.Some?
  {
    TypeHasZ(t.typ) == t.pa.value.hasz && TypeHasM(t.typ) == t.pa.value.hasm
  }

  /** The type byte serialize_buf writes: the struct's Z/M, an SRID iff SRID != -1, a box iff one is cached. */
  function WrittenType(t: Geom): byte
  {
    MakeTypeFull(TypeHasZ(t.typ), TypeHasM(t.typ), t.srid != SRID_UNKNOWN, TRIANGLETYPE, t.bbox.Some?)
  }

  /** The bytes lwtriangle_serialize_buf writes for t. */
  function Serialized(t: Geom): seq<byte>
    requires Serializable(t)
  {
    HeaderBytes(WrittenType(t), t.bbox, t.srid) + LwPoly.RingBytes(t.pa.value)
  }

  /** lwtriangle_serialize_size: type byte, SRID, box, point count and the array's points. */
  function SerializeSize(t: Geom): nat
    requires t.Single? && t.pa.Some?
  {
    var pa := t.pa.value;
    1 + (if t.srid != SRID_UNKNOWN then 4 else 0) + (if t.bbox.Some? then BOX_SIZE else 0)
    + 4 + PointsSize(NDims(pa.hasz, pa.hasm), |pa.points|)
  }

  /** lwtriangle_serialize_size counts exactly the bytes serialize_buf writes. */
  lemma SerializeSizeAgrees(t: Geom)
    requires Serializable(t) && ZMMatch(t)
    ensures |Serialized(t)| == SerializeSize(t)
  {
    var pa := t.pa.value;
    LwPoly.RingBytesLength(pa, pa.hasz, pa.hasm);
  }

  /**
   * lwtriangle_serialize_buf: a Z/M mismatch between the struct and its
   * array is an error and writes nothing; otherwise the layout is written
   * from the start of buf and the distance the cursor moved is reported,
   * which is what lwtriangle_serialize_size computes.
   */
  method SerializeBuf(t: Geom, buf: array<byte>) returns (r: Result<nat>)
    requires Serializable(t) && SerializeSize(t) <= buf.Length
    modifies buf
    ensures r.Ok? <==> ZMMatch(t)
    ensures r.Ok? ==> r.value == SerializeSize(t) && buf[..r.value] == Serialized(t)
    ensures r.Err? ==> buf[..] == old(buf[..])
  {
    var pa := t.pa.value;
    if TypeHasZ(t.typ) != pa.hasz || TypeHasM(t.typ) != pa.hasm {
      return Err("Dimensions mismatch in lwtriangle");
    }
    SerializeSizeAgrees(t);
    var hasSRID := t.srid != SRID_UNKNOWN;
    var typ := MakeTypeFull(TypeHasZ(t.typ), TypeHasM(t.typ), hasSRID, TRIANGLETYPE, t.bbox.Some?);
    var loc := PutHeader(buf, typ, t.bbox, t.srid);
    loc := LwPoly.PutRing(buf, loc, pa);
    return Ok(loc);
  }

  // ---- reading the serialized form -------------------------------------------

  /** The serialized form reaches as far as the point count of a triangle announces. */
  predicate Readable(s: seq<byte>)
  {
    |s| >= 1
    && (TypeOf(s[0]) == TRIANGLETYPE ==>
          var h := HeaderSize(s[0]);
          |s| >= h + 4 && |s| >= h + 4 + PointsSize(TypeNDims(s[0]), UInt32Of(s[h..h + 4])))
  }

  /**
   * lwgeom_size_triangle: a non-triangle is an error; otherwise the type
   * byte, the box and the SRID it announces, the count and the points.
   */
  function SizeOf(s: seq<byte>): (r: Result<nat>)
    requires Readable(s)
    ensures r.Ok? <==> TypeOf(s[0]) == TRIANGLETYPE
    ensures r.Ok? ==> r.value <= |s|
  {
    var t := s[0];
    if TypeOf(t) != TRIANGLETYPE then Result<nat>.Err("lwgeom_size_triangle::attempt to find the length of a non-triangle")
    else
      var h := HeaderSize(t);
      Ok(h + 4 + PointsSize(TypeNDims(t), UInt32Of(s[h..h + 4])))
  }

  /**
   * What lwtriangle_deserialize builds: a non-triangle is an error; the box
   * is read only when flagged, the SRID is -1 when not flagged, and the
   * points are read with the type byte's Z/M.
   */
  function Decode(s: seq<byte>): (r: Result<Geom>)
    requires Readable(s)
  {
    var t := s[0];
    if TypeOf(t) != TRIANGLETYPE then Err("lwtriangle_deserialize: attempt to deserialize a triangle which is really another type")
    else
      var h := ReadHeader(s);
      var loc := HeaderSize(t);
      var nd := TypeNDims(t);
      var n := UInt32Of(s[loc..loc + 4]);
      Ok(Single(t, h.srid, h.bbox, Some(PtArr(TypeHasZ(t), TypeHasM(t), PointsOf(s[loc + 4..loc + 4 + PointsSize(nd, n)], nd, n)))))
  }

  /** lwtriangle_deserialize, reading through a cursor. */
  method Deserialize(s: seq<byte>) returns (r: Result<Geom>)
    requires Readable(s)
    ensures r == Decode(s)
  {
    var t := s[0];
    if TypeOf(t) != TRIANGLETYPE {
      return Err("lwtriangle_deserialize: attempt to deserialize a triangle which is really another type");
    }
    var nd := TypeNDims(t);
    var loc := 1;
    var bbox: Option<Box2D> := None;
    if TypeHasBBox(t) {
      bbox := Some(s[loc..loc + BOX_SIZE]);
      loc := loc + BOX_SIZE;
    }
    var srid := SRID_UNKNOWN;
    if TypeHasSRID(t) {
      srid := Int32Of(s[loc..loc + 4]);
      loc := loc + 4;
    }
    assert Header(bbox, srid) == ReadHeader(s);
    var npoints := UInt32Of(s[loc..loc + 4]);
    loc := loc + 4;
    var pa := PtArr(TypeHasZ(t), TypeHasM(t), PointsOf(s[loc..loc + PointsSize(nd, npoints)], nd, npoints));
    return Ok(Single(t, srid, bbox, Some(pa)));
  }

  /** A triangle struct exactly as deserialize builds one. */
  predicate Canonical(t: Geom)
  {
    Serializable(t) && ZMMatch(t) && t.typ == WrittenType(t)
  }

  /** Where the header, the point count and the points sit in the serialized form. */
  lemma SerializedLayout(t: Geom) returns (h: nat)
    requires Serializable(t) && ZMMatch(t)
    ensures var s := Serialized(t); var w := WrittenType(t); var pa := t.pa.value;
      var end := h + 4 + PointsSize(TypeNDims(w), |pa.points|);
      h == HeaderSize(w) && |s| >= 1 && s[0] == w && |s| == end
      && ReadHeader(s) == Header(t.bbox, t.srid)
      && UInt32Of(s[h..h + 4]) == |pa.points|
      && s[h + 4..end] == PointsBytes(pa.points)
  {
    var pa := t.pa.value;
    var w := WrittenType(t);
    var body := LwPoly.RingBytes(pa);
    var s := Serialized(t);
    h := HeaderSize(w);
    assert |s| == h + |body| && s[0] == w && ReadHeader(s) == Header(t.bbox, t.srid) && s[h..] == body by {
      ReadHeaderBytes(w, t.bbox, t.srid, body);
    }
    assert s[h..h + |body|] == body;
    LwPoly.RingCountAt(s, h, pa, pa.hasz, pa.hasm);
    LwPoly.RingAt(s, h, pa, pa.hasz, pa.hasm);
  }

  /** Bytes holding a triangle header, a count n and n points after it read back as those parts. */
  lemma DecodeAt(s: seq<byte>, h: nat, n: nat)
    requires |s| >= 1 && TypeOf(s[0]) == TRIANGLETYPE && h == HeaderSize(s[0])
    requires h + 4 <= |s| && UInt32Of(s[h..h + 4]) == n && |s| == h + 4 + PointsSize(TypeNDims(s[0]), n)
    ensures Readable(s) && SizeOf(s) == Ok(|s|)
    ensures Decode(s) == Ok(Single(s[0], ReadHeader(s).srid, ReadHeader(s).bbox,
      Some(PtArr(TypeHasZ(s[0]), TypeHasM(s[0]), PointsOf(s[h + 4..], TypeNDims(s[0]), n)))))
  {
    assert s[h + 4..h + 4 + PointsSize(TypeNDims(s[0]), n)] == s[h + 4..];
  }

  /** Bytes laid out as lwtriangle_serialize_buf writes t read back as t's parts. */
  lemma DecodeLayout(s: seq<byte>, t: Geom, h: nat)
    requires Serializable(t) && ZMMatch(t)
    requires var w := WrittenType(t); var pa := t.pa.value;
      var end := h + 4 + PointsSize(TypeNDims(w), |pa.points|);
      h == HeaderSize(w) && |s| >= 1 && s[0] == w && |s| == end
      && ReadHeader(s) == Header(t.bbox, t.srid)
      && UInt32Of(s[h..h + 4]) == |pa.points|
      && s[h + 4..end] == PointsBytes(pa.points)
    ensures Readable(s) && SizeOf(s) == Ok(|s|)
    ensures Decode(s) == Ok(Single(WrittenType(t), t.srid, t.bbox, t.pa))
  {
    var pa := t.pa.value;
    var nd := TypeNDims(WrittenType(t));
    var end := h + 4 + PointsSize(nd, |pa.points|);
    assert s[h + 4..] == PointsBytes(pa.points) by {
      assert end == |s|;
      assert s[h + 4..] == s[h + 4..end];
    }
    DecodeAt(s, h, |pa.points|);
    PointsRoundTrip(pa.points, nd);
  }

  /**
   * lwtriangle_deserialize inverts lwtriangle_serialize_buf: it gives back
   * the written type byte, the box, the SRID (-1 when none was written)
   * and the points; lwgeom_size_triangle of the bytes is their length.
   */
  lemma DecodeSerialized(t: Geom)
    requires Serializable(t) && ZMMatch(t)
    ensures Readable(Serialized(t))
    ensures Decode(Serialized(t)) == Ok(Single(WrittenType(t), t.srid, t.bbox, t.pa))
    ensures SizeOf(Serialized(t)) == Ok(|Serialized(t)|)
    ensures |Serialized(t)| == SerializeSize(t)
  {
    var h := SerializedLayout(t);
    DecodeLayout(Serialized(t), t, h);
    SerializeSizeAgrees(t);
  }

  /** A canonical triangle survives lwtriangle_serialize_buf then lwtriangle_deserialize unchanged. */
  lemma DecodeCanonical(t: Geom)
    requires Canonical(t)
    ensures Readable(Serialized(t)) && Decode(Serialized(t)) == Ok(t)
  {
    DecodeSerialized(t);
  }

  // ---- queries and edits ----------------------------------------------------------

  /** lwtriangle_same: ptarray_same of the two arrays. */
  predicate Same(t1: Geom, t2: Geom)
    requires t1.Single? && t1.pa.Some? && t2.Single? && t2.pa.Some?
  {
    PtArrSame(t1.pa.value, t2.pa.value)
  }

  /** Two triangles are the same exactly when their arrays are equal values; box and SRID do not matter. */
  lemma SameIsArrayEquality(t1: Geom, t2: Geom)
    requires t1.Single? && t1.pa.Some? && t2.Single? && t2.pa.Some?
    ensures Same(t1, t2) <==> t1.pa == t2.pa
  {
    PtArrSameIsEquality(t1.pa.value, t2.pa.value);
  }

  /**
   * lwtriangle_reverse: ptarray_reverse on the points. ptarray_reverse
   * reads point -1 of an empty array, so at least one point is required.
   */
  function Reverse(t: Geom): (r: Geom)
    requires t.Single? && t.pa.Some? && |t.pa.value.points| >= 1
    ensures r.Single? && r.pa.Some? && r.typ == t.typ && r.srid == t.srid && r.bbox == t.bbox
    ensures r.pa.value.hasz == t.pa.value.hasz && r.pa.value.hasm == t.pa.value.hasm
    ensures |r.pa.value.points| == |t.pa.value.points|
    ensures forall i :: 0 <= i < |t.pa.value.points| ==>
      r.pa.value.points[i] == t.pa.value.points[|t.pa.value.points| - 1 - i]
  {
    var pa := t.pa.value;
    assert forall i | 0 <= i < |pa.points| :: Reversed(pa.points)[i] == pa.points[|pa.points| - 1 - i] by {
      forall i | 0 <= i < |pa.points| {
        ReversedAt(pa.points, i);
      }
    }
    Single(t.typ, t.srid, t.bbox, Some(PtArr(pa.hasz, pa.hasm, Reversed(pa.points))))
  }

  /** Reversing a triangle twice gives it back. */
  lemma ReverseTwice(t: Geom)
    requires t.Single? && t.pa.Some? && |t.pa.value.points| >= 1
    ensures Reverse(Reverse(t)) == t
  {
    ReversedTwice(t.pa.value.points);
  }

  // ---- from a line --------------------------------------------------------------

  /** A line struct whose type byte and array agree on Z, as lwline_construct makes them. */
  predicate LineShaped(l: Geom)
  {
    l.Single? && l.pa.Some? && l.pa.value.WellFormed() && TypeHasZ(l.typ) == l.pa.value.hasz
  }

  /** The closure test of lwtriangle_from_lwline: in 2D without Z, in 3D with Z. */
  predicate ShellClosed(l: Geom)
    requires LineShaped(l) && |l.pa.value.points| >= 1
  {
    if TypeHasZ(l.typ) then Closed3d(l.pa.value) else Closed2d(l.pa.value)
  }

  /**
   * lwtriangle_is_repeated_points as written: true when removing repeated
   * points leaves an array ptarray_same as the original, that is, when no
   * point repeats.
   */
  predicate IsRepeatedPointsAsWritten(t: Geom)
    requires t.Single? && t.pa.Some?
  {
    var pa := t.pa.value;
    PtArrSame(PtArr(pa.hasz, pa.hasm, RemoveRepeatedSpec(pa.points)), pa)
  }

  /** What the name and the caller's message mean: removing repeated points changes the array. */
  predicate IsRepeatedPoints(t: Geom)
    requires t.Single? && t.pa.Some?
  {
    !IsRepeatedPointsAsWritten(t)
  }

  /** For arrays of three or more points, the corrected test holds exactly when a point repeats its neighbour. */
  lemma IsRepeatedPointsMeaning(t: Geom)
    requires t.Single? && t.pa.Some? && |t.pa.value.points| >= 3
    ensures IsRepeatedPoints(t) <==> !NoRepeats(t.pa.value.points)
    ensures IsRepeatedPointsAsWritten(t) <==> NoRepeats(t.pa.value.points)
  {
    var pa := t.pa.value;
    RemoveRepeatedFixpoint(pa.points);
    PtArrSameIsEquality(PtArr(pa.hasz, pa.hasm, RemoveRepeatedSpec(pa.points)), pa);
  }

  /**
   * lwtriangle_from_lwline as written: a shell without exactly 4 points or
   * not closed is an error; then the triangle is built from a copy of the
   * points with the shell's SRID and no box, and is rejected when
   * lwtriangle_is_repeated_points holds.
   */
  function FromLineAsWritten(shell: Geom): (r: Result<Geom>)
    requires LineShaped(shell)
  {
    if |shell.pa.value.points| != 4 then Err("lwtriangle_from_lwline: shell must have exactly 4 points")
    else if !ShellClosed(shell) then Err("lwtriangle_from_lwline: shell must be closed")
    else
      var ret := Construct(shell.srid, None, shell.pa.value);
      if IsRepeatedPointsAsWritten(ret) then Err("lwtriangle_from_lwline: some points are repeated in triangle")
      else Ok(ret)
  }

  /** lwtriangle_from_lwline with the repeated-point test the message describes. */
  function FromLine(shell: Geom): (r: Result<Geom>)
    requires LineShaped(shell)
    ensures r.Ok? ==> r.value.Single? && r.value.pa == shell.pa && r.value.srid == shell.srid && TypeOf(r.value.typ) == TRIANGLETYPE
    ensures |shell.pa.value.points| != 4 || !ShellClosed(shell) ==> r.Err?
  {
    if |shell.pa.value.points| != 4 then Err("lwtriangle_from_lwline: shell must have exactly 4 points")
    else if !ShellClosed(shell) then Err("lwtriangle_from_lwline: shell must be closed")
    else
      var ret := Construct(shell.srid, None, shell.pa.value);
      if IsRepeatedPoints(ret) then Err("lwtriangle_from_lwline: some points are repeated in triangle")
      else Ok(ret)
  }

  /**
   * The corrected conversion accepts exactly the closed 4-point shells in
   * which no point repeats its neighbour, and builds a triangle holding
   * the shell's points and SRID, with Z/M taken from the points.
   */
  lemma FromLineAccepts(shell: Geom)
    requires LineShaped(shell)
    ensures FromLine(shell).Ok? <==>
      |shell.pa.value.points| == 4 && ShellClosed(shell) && NoRepeats(shell.pa.value.points)
    ensures FromLine(shell).Ok? ==>
      var r := FromLine(shell).value;
      r.pa == shell.pa && r.srid == shell.srid && r.bbox.None? && TypeOf(r.typ) == TRIANGLETYPE
      && TypeHasZ(r.typ) == shell.pa.value.hasz && TypeHasM(r.typ) == shell.pa.value.hasm
  {
    if |shell.pa.value.points| == 4 {
      IsRepeatedPointsMeaning(Construct(shell.srid, None, shell.pa.value));
    }
  }

  /**
   * The test as written is inverted: every closed 4-point shell without
   * repeated neighbours, a genuine triangle, is rejected, and a closed
   * shell with a repeated neighbour is accepted.
   */
  lemma FromLineAsWrittenInverted(shell: Geom)
    requires LineShaped(shell) && |shell.pa.value.points| == 4 && ShellClosed(shell)
    ensures FromLineAsWritten(shell).Ok? <==> !NoRepeats(shell.pa.value.points)
    ensures FromLineAsWritten(shell).Ok? <==> FromLine(shell).Err?
  {
    IsRepeatedPointsMeaning(Construct(shell.srid, None, shell.pa.value));
  }

  /** A concrete shell: the closed 2D ring (0,0) (1,0) (0,1) (0,0), with the coordinates as bit patterns. */
  function UnitShell(): (l: Geom)
    ensures LineShaped(l) && |l.pa.value.points| == 4
  {
    var a: Raw := [0, 0];
    var b: Raw := [1, 0];
    var c: Raw := [0, 1];
    Single(MakeTypeFull(false, false, false, LINETYPE, false), SRID_UNKNOWN, None, Some(PtArr(false, false, [a, b, c, a])))
  }

  /** The unit shell is rejected by lwtriangle_from_lwline as written and accepted by the corrected one. */
  lemma UnitShellRejected()
    ensures FromLineAsWritten(UnitShell()).Err?
    ensures FromLine(UnitShell()).Ok?
  {
    var l := UnitShell();
    assert !TypeHasZ(l.typ);
    assert ShellClosed(l);
    assert NoRepeats(l.pa.value.points);
    FromLineAsWrittenInverted(l);
  }
}
