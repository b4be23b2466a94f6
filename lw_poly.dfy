/**
 * LWPOLY of liblwgeom (liblwgeom/lwpoly.c): construction, the serialized
 * form and the queries over its rings.
 *
 * The serialized polygon is the header (type byte, optional box, optional
 * SRID), the 32-bit ring count, then for each ring its 32-bit point count
 * followed by its points.
 */
module LwPoly {
  import opened Bytes
  import opened Wrappers
  import opened PointArrays
  import opened LwTypes

  /** The rings of a polygon struct; none when the ring array is absent. */
  function RingsOf(p: Geom): seq<PtArr>
    requires p.Poly?
  {
    if p.rings.Some? then p.rings.value else []
  }

  /** Every ring has the Z and M flags of the first. */
  predicate UniformZM(rings: seq<PtArr>)
  {
    forall i :: 0 <= i < |rings| ==> rings[i].hasz == rings[0].hasz && rings[i].hasm == rings[0].hasm
  }

  /** A ring carries the Z and M the polygon's type byte announces. */
  predicate RingMatches(t: byte, r: PtArr)
  {
    TypeHasZ(t) == r.hasz && TypeHasM(t) == r.hasm
  }

  predicate ZMMatch(p: Geom)
    requires p.Poly?
  {
    forall i :: 0 <= i < |RingsOf(p)| ==> RingMatches(p.typ, RingsOf(p)[i])
  }

  /**
   * lwpoly_construct: at least one ring, all with the same Z/M; the type
   * byte takes the first ring's Z/M and an SRID flag only for SRID > 0, and
   * the polygon is exactly full (maxrings = nrings). The box is kept without
   * its flag.
   */
  method Construct(srid: int, bbox: Option<Box2D>, rings: seq<PtArr>) returns (r: Result<Geom>)
    ensures r.Ok? <==> |rings| >= 1 && UniformZM(rings)
    ensures r.Ok? ==> r.value.Poly? && r.value.rings == Some(rings) && r.value.maxrings == |rings|
    ensures r.Ok? ==> r.value.srid == srid && r.value.bbox == bbox && ZMMatch(r.value)
    ensures r.Ok? ==> TypeOf(r.value.typ) == POLYGONTYPE && !TypeHasBBox(r.value.typ)
    ensures r.Ok? ==> (TypeHasSRID(r.value.typ) <==> srid > 0)
  {
    if |rings| < 1 {
      return Err("lwpoly_construct: need at least 1 ring");
    }
    var hasz, hasm := rings[0].hasz, rings[0].hasm;
    var i := 1;
    while i < |rings|
      invariant 1 <= i <= |rings|
      invariant forall k :: 0 <= k < i ==> rings[k].hasz == hasz && rings[k].hasm == hasm
    {
      if rings[i].hasz != hasz || rings[i].hasm != hasm {
        return Err("lwpoly_construct: mixed dimensioned rings");
      }
      i := i + 1;
    }
    return Ok(Poly(MakeTypeFull(hasz, hasm, srid > 0, POLYGONTYPE, false), srid, bbox, Some(rings), |rings|));
  }

  /** lwpoly_construct_empty: no rings in an allocated array with room for one. */
  function ConstructEmpty(srid: int, hasz: bool, hasm: bool): (r: Geom)
    ensures r.Poly? && r.rings == Some([]) && r.maxrings == 1 && r.bbox.None? && r.srid == srid
    ensures TypeOf(r.typ) == POLYGONTYPE && TypeHasZ(r.typ) == hasz && TypeHasM(r.typ) == hasm
    ensures TypeHasSRID(r.typ) <==> srid > 0
  {
    Poly(MakeTypeFull(hasz, hasm, srid > 0, POLYGONTYPE, false), srid, None, Some([]), 1)
  }

  /** lwpoly_is_empty: no ring array or no rings. */
  predicate IsEmpty(p: Geom)
    requires p.Poly?
  {
    p.rings.None? || |p.rings.value| == 0
  }

  // ---- serialized form -----------------------------------------------------

  /** What serialize_buf can work on: 32-bit counts and well-formed rings. */
  predicate Serializable(p: Geom)
  {
    p.Poly? && IsInt32(p.srid) && |RingsOf(p)| < TWO32
    && forall i :: 0 <= i < |RingsOf(p)| ==> RingsOf(p)[i].WellFormed() && |RingsOf(p)[i].points| < TWO32
  }

  /** One ring as serialize_buf writes it: its point count, then its points. */
  function RingBytes(r: PtArr): seq<byte>
  {
    UInt32Bytes(|r.points| % TWO32) + PointsBytes(r.points)
  }

  function RingsBytes(rs: seq<PtArr>): seq<byte>
  {
    if rs == [] then [] else RingsBytes(rs[..|rs| - 1]) + RingBytes(rs[|rs| - 1])
  }

  lemma {:induction false} RingsBytesFront(rs: seq<PtArr>)
    requires |rs| >= 1
    ensures RingsBytes(rs) == RingBytes(rs[0]) + RingsBytes(rs[1..])
  {
    if |rs| > 1 {
      RingsBytesFront(rs[..|rs| - 1]);
      assert rs[..|rs| - 1][1..] == rs[1..][..|rs[1..]| - 1];
    } else {
      assert rs[..0] == [] && rs[1..] == [];
    }
  }

  /** The type byte serialize_buf writes. */
  function WrittenType(p: Geom): byte
  {
    MakeTypeFull(TypeHasZ(p.typ), TypeHasM(p.typ), p.srid != SRID_UNKNOWN, POLYGONTYPE, p.bbox.Some?)
  }

  /** The bytes lwpoly_serialize_buf writes for p. */
  function Serialized(p: Geom): seq<byte>
    requires Serializable(p)
  {
    HeaderBytes(WrittenType(p), p.bbox, p.srid) + UInt32Bytes(|RingsOf(p)|) + RingsBytes(RingsOf(p))
  }

  /** The ring section's size with nd ordinates per point: 4 bytes and the points for each ring. */
  function RingsSize(rs: seq<PtArr>, nd: nat): nat
  {
    if rs == [] then 0 else RingsSize(rs[..|rs| - 1], nd) + 4 + PointsSize(nd, |rs[|rs| - 1].points|)
  }

  /** What lwpoly_serialize_size adds up: header, ring count, and per ring a count and nd ordinates per point. */
  function SizeSpec(p: Geom): nat
    requires p.Poly?
  {
    1 + (if p.srid != SRID_UNKNOWN then 4 else 0) + (if p.bbox.Some? then BOX_SIZE else 0) + 4
    + RingsSize(RingsOf(p), TypeNDims(p.typ))
  }

  /** lwpoly_serialize_size, looping over the rings. */
  method SerializeSize(p: Geom) returns (size: nat)
    requires p.Poly?
    ensures size == SizeSpec(p)
  {
    var rings := RingsOf(p);
    var nd := TypeNDims(p.typ);
    size := 1;
    if p.srid != SRID_UNKNOWN {
      size := size + 4;
    }
    if p.bbox.Some? {
      size := size + BOX_SIZE;
    }
    size := size + 4;
    ghost var head := size;
    var i := 0;
    while i < |rings|
      invariant 0 <= i <= |rings|
      invariant size == head + RingsSize(rings[..i], nd)
    {
      assert rings[..i + 1][..i] == rings[..i];
      size := size + 4;
      PointsSizeMul(nd, |rings[i].points|);
      size := size + 8 * (nd * |rings[i].points|);
      i := i + 1;
    }
    assert rings[..|rings|] == rings;
  }

  lemma {:induction false} RingsBytesLength(rs: seq<PtArr>, nd: nat)
    requires forall i :: 0 <= i < |rs| ==> forall j :: 0 <= j < |rs[i].points| ==> |rs[i].points[j]| == nd
    ensures |RingsBytes(rs)| == RingsSize(rs, nd)
  {
    if rs != [] {
      RingsBytesLength(rs[..|rs| - 1], nd);
      PointsBytesLength(rs[|rs| - 1].points, nd);
    }
  }

  /** lwpoly_serialize_size counts exactly the bytes serialize_buf writes. */
  lemma SerializeSizeAgrees(p: Geom)
    requires Serializable(p) && ZMMatch(p)
    ensures |Serialized(p)| == SizeSpec(p)
  {
    var rs := RingsOf(p);
    var nd := TypeNDims(p.typ);
    forall i | 0 <= i < |rs| ensures forall j :: 0 <= j < |rs[i].points| ==> |rs[i].points[j]| == nd {
      assert RingMatches(p.typ, rs[i]);
    }
    RingsBytesLength(rs, nd);
    ReadHeaderBytes(WrittenType(p), p.bbox, p.srid, []);
  }

  /**
   * lwpoly_serialize_buf: writes the header and the ring count, then each
   * ring; a ring whose Z/M differ from the polygon's is an error (after the
   * rings before it have been written). On success the written bytes are
   * the layout and the reported size is serialize_size's.
   */
  method SerializeBuf(p: Geom, buf: array<byte>) returns (r: Result<nat>)
    requires Serializable(p) && |Serialized(p)| <= buf.Length
    modifies buf
    ensures r.Ok? <==> ZMMatch(p)
    ensures r.Ok? ==> r.value == |Serialized(p)| == SizeSpec(p) && buf[..r.value] == Serialized(p)
  {
    var rings := RingsOf(p);
    var hasSRID := p.srid != SRID_UNKNOWN;
    var size := 1 + 4 + 4 * |rings|;
    var t := MakeTypeFull(TypeHasZ(p.typ), TypeHasM(p.typ), hasSRID, POLYGONTYPE, p.bbox.Some?);
    if p.bbox.Some? {
      size := size + BOX_SIZE;
    }
    if hasSRID {
      size := size + 4;
    }
    var loc := PutHeader(buf, t, p.bbox, p.srid);
    loc := Put(buf, loc, UInt32Bytes(|rings|));
    assert buf[..loc] == HeaderBytes(t, p.bbox, p.srid) + UInt32Bytes(|rings|);
    var ok, end, psize := PutRings(buf, loc, TypeHasZ(p.typ), TypeHasM(p.typ), rings);
    if !ok {
      return Err("Dimensions mismatch in lwpoly");
    }
    size := size + psize;
    SerializeSizeAgrees(p);
    return Ok(size);
  }

  /**
   * The ring loop of lwpoly_serialize_buf from loc: each ring's count and
   * points in turn, stopping at the first ring whose Z/M differ from the
   * polygon's. Gives the cursor after the rings and the bytes their points
   * take.
   */
  method PutRings(buf: array<byte>, loc: nat, hasz: bool, hasm: bool, rings: seq<PtArr>) returns (ok: bool, cursor: nat, psize: nat)
    requires loc + |RingsBytes(rings)| <= buf.Length
    modifies buf
    ensures ok <==> forall k :: 0 <= k < |rings| ==> rings[k].hasz == hasz && rings[k].hasm == hasm
    ensures ok ==> cursor == loc + |RingsBytes(rings)| && buf[..cursor] == old(buf[..loc]) + RingsBytes(rings)
    ensures ok ==> 4 * |rings| + psize == RingsSize(rings, NDims(hasz, hasm))
  {
    var nd := NDims(hasz, hasm);
    ghost var pre := buf[..loc];
    cursor := loc;
    psize := 0;
    var i := 0;
    while i < |rings|
      invariant 0 <= i <= |rings| && cursor <= buf.Length
      invariant forall k :: 0 <= k < i ==> rings[k].hasz == hasz && rings[k].hasm == hasm
      invariant RingsPut(buf[..cursor], pre, rings, i, psize, nd)
    {
      if rings[i].hasz != hasz || rings[i].hasm != hasm {
        return false, cursor, psize;
      }
      cursor, psize := PutNextRing(buf, cursor, psize, rings, i, nd, pre);
      i := i + 1;
    }
    assert rings[..|rings|] == rings;
    ok := true;
  }

  /** The bytes written so far hold the prefix and the first i rings, and psize their points' bytes. */
  ghost predicate RingsPut(written: seq<byte>, pre: seq<byte>, rings: seq<PtArr>, i: nat, psize: nat, nd: nat)
    requires i <= |rings|
  {
    |written| == |pre| + |RingsBytes(rings[..i])| && written == pre + RingsBytes(rings[..i])
    && 4 * i + psize == RingsSize(rings[..i], nd)
  }

  /** Writes ring i after the bytes of the rings before it. */
  method PutNextRing(buf: array<byte>, loc: nat, psize: nat, rings: seq<PtArr>, i: nat, nd: nat, ghost pre: seq<byte>)
    returns (next: nat, psize': nat)
    requires i < |rings| && loc <= buf.Length && |pre| + |RingsBytes(rings)| <= buf.Length
    requires RingsPut(buf[..loc], pre, rings, i, psize, nd)
    modifies buf
    ensures next <= buf.Length && RingsPut(buf[..next], pre, rings, i + 1, psize', nd)
  {
    PrefixStep(rings, i);
    SizeStep(rings, i, nd);
    Assoc(pre, RingsBytes(rings[..i]), RingBytes(rings[i]));
    next := PutRing(buf, loc, rings[i]);
    psize' := psize + PointsSize(nd, |rings[i].points|);
  }

  /** Writes one ring at loc: its point count, then its points. */
  method PutRing(buf: array<byte>, loc: nat, r: PtArr) returns (next: nat)
    requires loc + |RingBytes(r)| <= buf.Length
    modifies buf
    ensures next == loc + |RingBytes(r)| && buf[..next] == old(buf[..loc]) + RingBytes(r)
  {
    next := Put(buf, loc, UInt32Bytes(|r.points| % TWO32));
    next := Put(buf, next, PointsBytes(r.points));
  }

  /** The size of the first i+1 rings: the first i's, then ring i's count and points. */
  lemma SizeStep(rings: seq<PtArr>, i: nat, nd: nat)
    requires i < |rings|
    ensures RingsSize(rings[..i + 1], nd) == RingsSize(rings[..i], nd) + 4 + PointsSize(nd, |rings[i].points|)
  {
    assert rings[..i + 1][..i] == rings[..i];
  }

  /** The first i+1 rings are the first i and ring i, and their bytes fit in all the rings' bytes. */
  lemma PrefixStep(rings: seq<PtArr>, i: nat)
    requires i < |rings|
    ensures RingsBytes(rings[..i + 1]) == RingsBytes(rings[..i]) + RingBytes(rings[i])
    ensures |RingsBytes(rings[..i])| + |RingBytes(rings[i])| <= |RingsBytes(rings)|
    decreases |rings| - i
  {
    assert rings[..i + 1][..i] == rings[..i];
    if i + 1 < |rings| {
      PrefixStep(rings, i + 1);
    } else {
      assert rings[..i + 1] == rings;
    }
  }

  // ---- reading the serialized form ------------------------------------------

  /** The offset after n rings read from off, or None if they would reach past the end. */
  function RingsEnd(s: seq<byte>, off: nat, n: nat, nd: nat): Option<nat>
    decreases n
  {
    if n == 0 then Some(off)
    else if off + 4 > |s| then None
    else
      var next := off + 4 + PointsSize(nd, UInt32Of(s[off..off + 4]));
      if next > |s| then None else RingsEnd(s, next, n - 1, nd)
  }

  /** The n rings read from off: each a point count and that many points. */
  function ReadRings(s: seq<byte>, off: nat, n: nat, hasz: bool, hasm: bool): (rs: seq<PtArr>)
    requires RingsEnd(s, off, n, NDims(hasz, hasm)).Some?
    ensures |rs| == n
    decreases n
  {
    if n == 0 then []
    else
      var nd := NDims(hasz, hasm);
      var np := UInt32Of(s[off..off + 4]);
      var next := off + 4 + PointsSize(nd, np);
      [PtArr(hasz, hasm, PointsOf(s[off + 4..next], nd, np))] + ReadRings(s, next, n - 1, hasz, hasm)
  }

  /** One step of walking the rings: the first ring's count, then the rest. */
  lemma EndStep(s: seq<byte>, off: nat, n: nat, nd: nat)
    requires n > 0 && RingsEnd(s, off, n, nd).Some?
    ensures EndStepHolds(s, off, n, nd)
  {
  }

  predicate EndStepHolds(s: seq<byte>, off: nat, n: nat, nd: nat)
    requires n > 0
  {
    off + 4 <= |s| && off + 4 + PointsSize(nd, UInt32Of(s[off..off + 4])) <= |s|
    && RingsEnd(s, off + 4 + PointsSize(nd, UInt32Of(s[off..off + 4])), n - 1, nd) == RingsEnd(s, off, n, nd)
  }

  /** One step of reading rings: the first ring's count and points, then the rest. */
  lemma ReadStep(s: seq<byte>, off: nat, n: nat, hasz: bool, hasm: bool)
    requires n > 0 && RingsEnd(s, off, n, NDims(hasz, hasm)).Some?
    ensures EndStepHolds(s, off, n, NDims(hasz, hasm))
    ensures var nd := NDims(hasz, hasm); var np := UInt32Of(s[off..off + 4]); var next := off + 4 + PointsSize(nd, np);
      ReadRings(s, off, n, hasz, hasm) == [PtArr(hasz, hasm, PointsOf(s[off + 4..next], nd, np))] + ReadRings(s, next, n - 1, hasz, hasm)
  {
  }

  /** The serialized form reaches as far as its counts announce. */
  predicate Readable(s: seq<byte>)
  {
    |s| >= 1
    && (TypeOf(s[0]) == POLYGONTYPE ==>
          var h := HeaderSize(s[0]);
          |s| >= h + 4 && RingsEnd(s, h + 4, UInt32Of(s[h..h + 4]), TypeNDims(s[0])).Some?)
  }

  /**
   * What lwpoly_deserialize builds: a non-polygon is an error; otherwise the
   * header's box and SRID (-1 when absent), nrings = maxrings = the count
   * read, no ring array for 0 rings, and the rings read in order with the
   * type byte's Z/M.
   */
  function Decode(s: seq<byte>): (r: Result<Geom>)
    requires Readable(s)
  {
    var t := s[0];
    if TypeOf(t) != POLYGONTYPE then Err("lwpoly_deserialize: attempt to deserialize a poly which is really another type")
    else
      var h := ReadHeader(s);
      var loc := HeaderSize(t);
      var n := UInt32Of(s[loc..loc + 4]);
      var rings := ReadRings(s, loc + 4, n, TypeHasZ(t), TypeHasM(t));
      Ok(Poly(t, h.srid, h.bbox, if n == 0 then None else Some(rings), n))
  }

  /** lwpoly_deserialize, reading the rings through a cursor. */
  method Deserialize(s: seq<byte>) returns (r: Result<Geom>)
    requires Readable(s)
    ensures r == Decode(s)
  {
    var t := s[0];
    if TypeOf(t) != POLYGONTYPE {
      return Err("lwpoly_deserialize: attempt to deserialize a poly which is really another type");
    }
    var hasz, hasm, nd := TypeHasZ(t), TypeHasM(t), TypeNDims(t);
    var loc := 1;
    var bbox: Option<Box2D> := None;
    if TypeHasBBox(t) {
      bbox := Some(s[loc..loc + BOX_SIZE]);
      loc := loc + BOX_SIZE;
    }
    var srid := SRID_UNKNOWN;
    if TypeHasSRID(t) {
      srid := Int32Of(s[loc..loc + 4]);
      loc := loc + 4;
    }
    assert Header(bbox, srid) == ReadHeader(s);
    var nrings := UInt32Of(s[loc..loc + 4]);
    loc := loc + 4;
    var cursor: nat := loc;
    var rings := ReadRingsAt(s, cursor, nrings, hasz, hasm);
    return Ok(Poly(t, srid, bbox, if nrings == 0 then None else Some(rings), nrings));
  }

  /** The ring loop of lwpoly_deserialize: n rings read through a cursor from off. */
  method ReadRingsAt(s: seq<byte>, off: nat, n: nat, hasz: bool, hasm: bool) returns (rings: seq<PtArr>)
    requires RingsEnd(s, off, n, NDims(hasz, hasm)).Some?
    ensures rings == ReadRings(s, off, n, hasz, hasm)
  {
    ghost var whole := ReadRings(s, off, n, hasz, hasm);
    var cursor: nat := off;
    rings := [];
    var left := n;
    while left > 0
      invariant RingsEnd(s, cursor, left, NDims(hasz, hasm)).Some?
      invariant rings + ReadRings(s, cursor, left, hasz, hasm) == whole
    {
      var pa, next := ReadRing(s, cursor, left, hasz, hasm);
      AppendFront(rings, pa, ReadRings(s, next, left - 1, hasz, hasm), ReadRings(s, cursor, left, hasz, hasm));
      rings := rings + [pa];
      cursor := next;
      left := left - 1;
    }
    assert rings + [] == rings;
  }

  /** One ring read at off: its count, then its points; the cursor moves past them. */
  method ReadRing(s: seq<byte>, off: nat, n: nat, hasz: bool, hasm: bool) returns (pa: PtArr, next: nat)
    requires n > 0 && RingsEnd(s, off, n, NDims(hasz, hasm)).Some?
    ensures RingsEnd(s, next, n - 1, NDims(hasz, hasm)) == RingsEnd(s, off, n, NDims(hasz, hasm))
    ensures ReadRings(s, off, n, hasz, hasm) == [pa] + ReadRings(s, next, n - 1, hasz, hasm)
  {
    ReadStep(s, off, n, hasz, hasm);
    var nd := NDims(hasz, hasm);
    var npoints := UInt32Of(s[off..off + 4]);
    next := off + 4 + PointsSize(nd, npoints);
    pa := PtArr(hasz, hasm, PointsOf(s[off + 4..next], nd, npoints));
  }

  lemma Assoc<T>(a: seq<T>, b: seq<T>, c: seq<T>)
    ensures a + b + c == a + (b + c)
  {
  }

  lemma AppendFront<T>(a: seq<T>, x: T, b: seq<T>, c: seq<T>)
    requires c == [x] + b
    ensures a + [x] + b == a + c
  {
  }

  /** lwgeom_size_poly: -9999 for no input or a non-polygon, else the length its counts announce. */
  function SizeOf(s: Option<seq<byte>>): int
    requires s.Some? ==> Readable(s.value)
  {
    if s.None? || TypeOf(s.value[0]) != POLYGONTYPE then -9999
    else
      var h := HeaderSize(s.value[0]);
      RingsEnd(s.value, h + 4, UInt32Of(s.value[h..h + 4]), TypeNDims(s.value[0])).value
  }

  /** lwgeom_size_poly, walking the ring counts. */
  method SizePoly(s: Option<seq<byte>>) returns (result: int)
    requires s.Some? ==> Readable(s.value)
    ensures result == SizeOf(s)
  {
    if s.None? {
      return -9999;
    }
    var b := s.value;
    var t := b[0];
    var nd := TypeNDims(t);
    if TypeOf(t) != POLYGONTYPE {
      return -9999;
    }
    var loc: nat := HeaderSize(t);
    var nrings := UInt32Of(b[loc..loc + 4]);
    loc := loc + 4;
    ghost var end := RingsEnd(b, loc, nrings, nd);
    assert end == Some(SizeOf(s) as nat);
    var i := 0;
    while i < nrings
      invariant 0 <= i <= nrings
      invariant RingsEnd(b, loc, nrings - i, nd) == end
      invariant end.Some?
    {
      EndStep(b, loc, nrings - i, nd);
      var npoints := UInt32Of(b[loc..loc + 4]);
      loc := loc + 4 + PointsSize(nd, npoints);
      i := i + 1;
    }
    return loc;
  }

  /** A slice holding x + y holds x and then y. */
  lemma SliceSplit<T>(s: seq<T>, a: nat, x: seq<T>, y: seq<T>)
    requires a + |x| + |y| <= |s| && s[a..a + |x| + |y|] == x + y
    ensures s[a..a + |x|] == x && s[a + |x|..a + |x| + |y|] == y
  {
    assert s[a..a + |x|] == s[a..a + |x| + |y|][..|x|];
    assert s[a + |x|..a + |x| + |y|] == s[a..a + |x| + |y|][|x|..];
  }

  /** A ring with the given flags that lwpoly_serialize_buf writes in full. */
  predicate Fits(r: PtArr, hasz: bool, hasm: bool)
  {
    r.hasz == hasz && r.hasm == hasm && r.WellFormed() && |r.points| < TWO32
  }

  /** The count of a ring read from bytes that hold the ring at off, and the ring's length. */
  lemma RingCountAt(s: seq<byte>, off: nat, r: PtArr, hasz: bool, hasm: bool)
    requires Fits(r, hasz, hasm)
    requires off + |RingBytes(r)| <= |s| && s[off..off + |RingBytes(r)|] == RingBytes(r)
    ensures |RingBytes(r)| == 4 + PointsSize(NDims(hasz, hasm), |r.points|)
    ensures UInt32Of(s[off..off + 4]) == |r.points|
  {
    var np := |r.points| % TWO32;
    RingBytesLength(r, hasz, hasm);
    SliceSplit(s, off, UInt32Bytes(np), PointsBytes(r.points));
    UInt32At(s, off, np);
  }

  /** The points of a ring sit right after its count. */
  lemma RingAt(s: seq<byte>, off: nat, r: PtArr, hasz: bool, hasm: bool)
    requires Fits(r, hasz, hasm)
    requires off + |RingBytes(r)| <= |s| && s[off..off + |RingBytes(r)|] == RingBytes(r)
    ensures |RingBytes(r)| == 4 + PointsSize(NDims(hasz, hasm), |r.points|)
    ensures s[off + 4..off + |RingBytes(r)|] == PointsBytes(r.points)
  {
    var np := |r.points| % TWO32;
    PointsBytesLength(r.points, NDims(hasz, hasm));
    SliceSplit(s, off, UInt32Bytes(np), PointsBytes(r.points));
  }

  /** The length of the rings' bytes: the first ring's, then the rest's. */
  lemma RingsBytesLengthFront(rs: seq<PtArr>)
    requires |rs| >= 1
    ensures |RingsBytes(rs)| == |RingBytes(rs[0])| + |RingsBytes(rs[1..])|
  {
    RingsBytesFront(rs);
  }

  /** The length of a fitting ring's bytes: a count and its points. */
  lemma RingBytesLength(r: PtArr, hasz: bool, hasm: bool)
    requires Fits(r, hasz, hasm)
    ensures |RingBytes(r)| == 4 + PointsSize(NDims(hasz, hasm), |r.points|)
  {
    PointsBytesLength(r.points, NDims(hasz, hasm));
  }

  /** The rings read back one after the other from off: each one's count, then its points. */
  predicate LaidOut(s: seq<byte>, off: nat, rs: seq<PtArr>, hasz: bool, hasm: bool)
    decreases |rs|
  {
    rs == []
    || (var np := |rs[0].points|; var k := off + 4 + PointsSize(NDims(hasz, hasm), np);
        Fits(rs[0], hasz, hasm) && k <= |s|
        && UInt32Of(s[off..off + 4]) == np
        && PointsOf(s[off + 4..k], NDims(hasz, hasm), np) == rs[0].points
        && LaidOut(s, k, rs[1..], hasz, hasm))
  }

  /** A fitting ring's count and points read back from where its bytes sit. */
  lemma RingBack(s: seq<byte>, off: nat, r: PtArr, hasz: bool, hasm: bool) returns (k: nat)
    requires Fits(r, hasz, hasm)
    requires off + |RingBytes(r)| <= |s| && s[off..off + |RingBytes(r)|] == RingBytes(r)
    ensures k == off + |RingBytes(r)| == off + 4 + PointsSize(NDims(hasz, hasm), |r.points|)
    ensures UInt32Of(s[off..off + 4]) == |r.points|
    ensures PointsOf(s[off + 4..k], NDims(hasz, hasm), |r.points|) == r.points
  {
    RingCountAt(s, off, r, hasz, hasm);
    RingAt(s, off, r, hasz, hasm);
    k := off + |RingBytes(r)|;
    PointsRoundTrip(r.points, NDims(hasz, hasm));
  }

  /** One ring read back at off, followed by rings laid out after it. */
  lemma LaidOutCons(s: seq<byte>, off: nat, rs: seq<PtArr>, hasz: bool, hasm: bool, k: nat)
    requires rs != [] && Fits(rs[0], hasz, hasm)
    requires k == off + 4 + PointsSize(NDims(hasz, hasm), |rs[0].points|) <= |s|
    requires UInt32Of(s[off..off + 4]) == |rs[0].points|
    requires PointsOf(s[off + 4..k], NDims(hasz, hasm), |rs[0].points|) == rs[0].points
    requires LaidOut(s, k, rs[1..], hasz, hasm)
    ensures LaidOut(s, off, rs, hasz, hasm)
  {
  }

  /** Fitting rings whose bytes sit at off are laid out there one by one. */
  lemma {:induction false} LaidOutOf(s: seq<byte>, off: nat, rs: seq<PtArr>, hasz: bool, hasm: bool)
    requires forall i :: 0 <= i < |rs| ==> Fits(rs[i], hasz, hasm)
    requires off + |RingsBytes(rs)| <= |s| && s[off..off + |RingsBytes(rs)|] == RingsBytes(rs)
    ensures LaidOut(s, off, rs, hasz, hasm)
    decreases |rs|
  {
    if rs != [] {
      RingsBytesFront(rs);
      SliceSplit(s, off, RingBytes(rs[0]), RingsBytes(rs[1..]));
      var k := RingBack(s, off, rs[0], hasz, hasm);
      LaidOutOf(s, k, rs[1..], hasz, hasm);
      LaidOutCons(s, off, rs, hasz, hasm, k);
    }
  }

  /** One step of RingsEnd over a count read from off. */
  lemma EndUnfold(s: seq<byte>, off: nat, n: nat, m: nat, nd: nat, np: nat, k: nat)
    requires n == m + 1 && k == off + 4 + PointsSize(nd, np) && k <= |s| && UInt32Of(s[off..off + 4]) == np
    ensures RingsEnd(s, off, n, nd) == RingsEnd(s, k, m, nd)
  {
  }

  /** The first of laid-out rings read back at off, and the rest laid out right after it. */
  lemma LaidOutFront(s: seq<byte>, off: nat, rs: seq<PtArr>, hasz: bool, hasm: bool) returns (k: nat)
    requires rs != [] && LaidOut(s, off, rs, hasz, hasm)
    ensures Fits(rs[0], hasz, hasm)
    ensures k == off + 4 + PointsSize(NDims(hasz, hasm), |rs[0].points|) <= |s|
    ensures UInt32Of(s[off..off + 4]) == |rs[0].points|
    ensures PointsOf(s[off + 4..k], NDims(hasz, hasm), |rs[0].points|) == rs[0].points
    ensures LaidOut(s, k, rs[1..], hasz, hasm)
  {
    k := off + 4 + PointsSize(NDims(hasz, hasm), |rs[0].points|);
  }

  /** The bytes rings take, counted from the first: for each, a count and its points. */
  function RingsSpan(rs: seq<PtArr>, nd: nat): nat
  {
    if rs == [] then 0 else 4 + PointsSize(nd, |rs[0].points|) + RingsSpan(rs[1..], nd)
  }

  /** Walking the counts of laid-out rings ends right after them. */
  lemma {:induction false} RingsEndAt(s: seq<byte>, off: nat, rs: seq<PtArr>, hasz: bool, hasm: bool)
    requires LaidOut(s, off, rs, hasz, hasm)
    ensures RingsEnd(s, off, |rs|, NDims(hasz, hasm)) == Some(off + RingsSpan(rs, NDims(hasz, hasm)))
    decreases |rs|
  {
    if rs != [] {
      var k := LaidOutFront(s, off, rs, hasz, hasm);
      EndUnfold(s, off, |rs|, |rs[1..]|, NDims(hasz, hasm), |rs[0].points|, k);
      RingsEndAt(s, k, rs[1..], hasz, hasm);
    }
  }

  /** Laid-out rings' bytes are as long as RingsSpan says. */
  lemma {:induction false} RingsSpanBytes(s: seq<byte>, off: nat, rs: seq<PtArr>, hasz: bool, hasm: bool)
    requires LaidOut(s, off, rs, hasz, hasm)
    ensures |RingsBytes(rs)| == RingsSpan(rs, NDims(hasz, hasm))
    decreases |rs|
  {
    if rs == [] {
      assert RingsBytes(rs) == [];
    } else {
      var k := LaidOutFront(s, off, rs, hasz, hasm);
      RingBytesLength(rs[0], hasz, hasm);
      RingsBytesLengthFront(rs);
      RingsSpanBytes(s, k, rs[1..], hasz, hasm);
    }
  }

  /** One step of ReadRings over a count read from off. */
  lemma ReadUnfold(s: seq<byte>, off: nat, n: nat, m: nat, hasz: bool, hasm: bool, np: nat, k: nat)
    requires n == m + 1 && RingsEnd(s, off, n, NDims(hasz, hasm)).Some? && RingsEnd(s, k, m, NDims(hasz, hasm)).Some?
    requires off + 4 <= |s| && UInt32Of(s[off..off + 4]) == np && k == off + 4 + PointsSize(NDims(hasz, hasm), np) <= |s|
    ensures ReadRings(s, off, n, hasz, hasm)
      == [PtArr(hasz, hasm, PointsOf(s[off + 4..k], NDims(hasz, hasm), np))] + ReadRings(s, k, m, hasz, hasm)
  {
  }

  /** The first of laid-out rings is read back at off, and reading goes on right after it. */
  lemma ReadLaidOutStep(s: seq<byte>, off: nat, rs: seq<PtArr>, hasz: bool, hasm: bool) returns (k: nat)
    requires rs != [] && LaidOut(s, off, rs, hasz, hasm)
    requires RingsEnd(s, off, |rs|, NDims(hasz, hasm)).Some?
    ensures LaidOut(s, k, rs[1..], hasz, hasm)
    ensures RingsEnd(s, k, |rs[1..]|, NDims(hasz, hasm)).Some?
    ensures ReadRings(s, off, |rs|, hasz, hasm) == [rs[0]] + ReadRings(s, k, |rs[1..]|, hasz, hasm)
  {
    k := LaidOutFront(s, off, rs, hasz, hasm);
    EndUnfold(s, off, |rs|, |rs[1..]|, NDims(hasz, hasm), |rs[0].points|, k);
    ReadUnfold(s, off, |rs|, |rs[1..]|, hasz, hasm, |rs[0].points|, k);
  }

  /** Reading laid-out rings gives the rings back. */
  lemma {:induction false} ReadRingsLaidOut(s: seq<byte>, off: nat, rs: seq<PtArr>, hasz: bool, hasm: bool)
    requires LaidOut(s, off, rs, hasz, hasm)
    requires RingsEnd(s, off, |rs|, NDims(hasz, hasm)).Some?
    ensures ReadRings(s, off, |rs|, hasz, hasm) == rs
    decreases |rs|
  {
    if rs != [] {
      var k := ReadLaidOutStep(s, off, rs, hasz, hasm);
      ReadRingsLaidOut(s, k, rs[1..], hasz, hasm);
      assert [rs[0]] + rs[1..] == rs;
    }
  }

  /** A polygon struct exactly as deserialize builds one. */
  predicate Canonical(p: Geom)
  {
    Serializable(p) && ZMMatch(p) && p.typ == WrittenType(p)
    && (p.rings.Some? <==> |RingsOf(p)| > 0) && p.maxrings == |RingsOf(p)|
  }

  /** Where the header, the ring count and the rings sit in the serialized form. */
  lemma SerializedLayout(p: Geom) returns (h: nat)
    requires Serializable(p) && ZMMatch(p)
    ensures var s := Serialized(p); var t := WrittenType(p); var rs := RingsOf(p);
      h == HeaderSize(t) && |s| >= 1 && s[0] == t && |s| == h + 4 + |RingsBytes(rs)|
      && ReadHeader(s) == Header(p.bbox, p.srid)
      && UInt32Of(s[h..h + 4]) == |rs|
      && s[h + 4..h + 4 + |RingsBytes(rs)|] == RingsBytes(rs)
  {
    var rs := RingsOf(p);
    var t := WrittenType(p);
    var countb := UInt32Bytes(|rs|);
    var body := RingsBytes(rs);
    var s := Serialized(p);
    h := HeaderSize(t);
    ReadHeaderBytes(t, p.bbox, p.srid, countb + body);
    Assoc(HeaderBytes(t, p.bbox, p.srid), countb, body);
    assert s[h..h + 4] == countb;
    UInt32RoundTrip(|rs|);
    assert s[0..|s|] == s;
    SliceSplit(s, 0, HeaderBytes(t, p.bbox, p.srid) + countb, body);
  }

  /** The rings of a polygon whose rings match its type are laid out after the count. */
  lemma RingsFit(p: Geom, s: seq<byte>, off: nat)
    requires Serializable(p) && ZMMatch(p)
    requires off + |RingsBytes(RingsOf(p))| <= |s| && s[off..off + |RingsBytes(RingsOf(p))|] == RingsBytes(RingsOf(p))
    ensures LaidOut(s, off, RingsOf(p), TypeHasZ(WrittenType(p)), TypeHasM(WrittenType(p)))
  {
    var rs := RingsOf(p);
    forall i | 0 <= i < |rs| ensures Fits(rs[i], TypeHasZ(WrittenType(p)), TypeHasM(WrittenType(p))) {
      assert RingMatches(p.typ, rs[i]);
    }
    LaidOutOf(s, off, rs, TypeHasZ(WrittenType(p)), TypeHasM(WrittenType(p)));
  }

  /** A header, a ring count and laid-out rings reach exactly to the end of the bytes. */
  lemma ReadableLaidOut(s: seq<byte>, t: byte, rs: seq<PtArr>)
    requires |s| >= 1 && s[0] == t && TypeOf(t) == POLYGONTYPE
    requires |s| == HeaderSize(t) + 4 + |RingsBytes(rs)|
    requires UInt32Of(s[HeaderSize(t)..HeaderSize(t) + 4]) == |rs|
    requires LaidOut(s, HeaderSize(t) + 4, rs, TypeHasZ(t), TypeHasM(t))
    ensures Readable(s) && SizeOf(Some(s)) == |s|
  {
    RingsEndAt(s, HeaderSize(t) + 4, rs, TypeHasZ(t), TypeHasM(t));
    RingsSpanBytes(s, HeaderSize(t) + 4, rs, TypeHasZ(t), TypeHasM(t));
  }

  /** A header, a ring count and laid-out rings read back as the polygon they describe. */
  lemma DecodeLaidOut(s: seq<byte>, t: byte, bbox: Option<Box2D>, srid: int, rs: seq<PtArr>)
    requires |s| >= 1 && s[0] == t && TypeOf(t) == POLYGONTYPE
    requires |s| == HeaderSize(t) + 4 + |RingsBytes(rs)|
    requires ReadHeader(s) == Header(bbox, srid)
    requires UInt32Of(s[HeaderSize(t)..HeaderSize(t) + 4]) == |rs|
    requires LaidOut(s, HeaderSize(t) + 4, rs, TypeHasZ(t), TypeHasM(t))
    requires Readable(s)
    ensures Decode(s) == Ok(Poly(t, srid, bbox, if |rs| == 0 then None else Some(rs), |rs|))
  {
    ReadRingsLaidOut(s, HeaderSize(t) + 4, rs, TypeHasZ(t), TypeHasM(t));
  }

  /**
   * lwpoly_deserialize inverts lwpoly_serialize_buf: it gives back the
   * written type byte, the box, the SRID (-1 when none was written), the
   * ring count and every ring's points; lwgeom_size_poly of the bytes is
   * their length.
   */
  lemma DecodeSerialized(p: Geom)
    requires Serializable(p) && ZMMatch(p)
    ensures Readable(Serialized(p))
    ensures var n := |RingsOf(p)|;
      Decode(Serialized(p)) == Ok(Poly(WrittenType(p), p.srid, p.bbox, if n == 0 then None else Some(RingsOf(p)), n))
    ensures SizeOf(Some(Serialized(p))) == |Serialized(p)| == SizeSpec(p)
  {
    var s := Serialized(p);
    var t := WrittenType(p);
    var rs := RingsOf(p);
    var h := SerializedLayout(p);
    assert LaidOut(s, h + 4, rs, TypeHasZ(t), TypeHasM(t)) by {
      RingsFit(p, s, h + 4);
    }
    ReadableLaidOut(s, t, rs);
    DecodeLaidOut(s, t, p.bbox, p.srid, rs);
    SerializeSizeAgrees(p);
  }

  /** A canonical polygon survives lwpoly_serialize_buf then lwpoly_deserialize unchanged. */
  lemma DecodeCanonical(p: Geom)
    requires Canonical(p)
    ensures Readable(Serialized(p)) && Decode(Serialized(p)) == Ok(p)
  {
    DecodeSerialized(p);
  }

  // ---- ring operations -----------------------------------------------------------

  /**
   * lwpoly_add_ring: false (and nothing changes) without a polygon or a
   * ring; otherwise the ring is appended last and nrings grows by one. The
   * storage is reallocated when full, but maxrings keeps its old value.
   */
  function AddRing(poly: Option<Geom>, pa: Option<PtArr>): (r: Option<Geom>)
    requires poly.Some? ==> poly.value.Poly?
    ensures r.Some? <==> poly.Some? && pa.Some?
    ensures r.Some? ==> r.value.Poly? && RingsOf(r.value) == RingsOf(poly.value) + [pa.value]
    ensures r.Some? ==> r.value.maxrings == poly.value.maxrings
    ensures r.Some? ==> r.value.typ == poly.value.typ && r.value.srid == poly.value.srid && r.value.bbox == poly.value.bbox
  {
    if poly.None? || pa.None? then None
    else
      var p := poly.value;
      Some(Poly(p.typ, p.srid, p.bbox, Some(RingsOf(p) + [pa.value]), p.maxrings))
  }

  /** lwpoly_count_vertices: the points over all rings. */
  method CountVertices(p: Geom) returns (v: nat)
    requires p.Poly?
    ensures v == SumPoints(RingsOf(p))
  {
    var rings := RingsOf(p);
    v := 0;
    var i := 0;
    while i < |rings|
      invariant 0 <= i <= |rings| && v == SumPoints(rings[..i])
    {
      assert rings[..i + 1][..i] == rings[..i];
      v := v + |rings[i].points|;
      i := i + 1;
    }
    assert rings[..|rings|] == rings;
  }

  /** Adding a ring adds its points to the vertex count and leaves the polygon non-empty. */
  lemma AddRingCounts(p: Geom, pa: PtArr)
    requires p.Poly?
    ensures var r := AddRing(Some(p), Some(pa)).value;
      SumPoints(RingsOf(r)) == SumPoints(RingsOf(p)) + |pa.points| && !IsEmpty(r) && |RingsOf(r)| == |RingsOf(p)| + 1
  {
    var rs := RingsOf(p) + [pa];
    assert rs[..|rs| - 1] == RingsOf(p);
  }

  /** lwpoly_same in terms of the rings: equal counts and ptarray_same ring by ring. */
  predicate SameRings(p1: Geom, p2: Geom)
    requires p1.Poly? && p2.Poly?
  {
    |RingsOf(p1)| == |RingsOf(p2)|
    && forall i :: 0 <= i < |RingsOf(p1)| ==> PtArrSame(RingsOf(p1)[i], RingsOf(p2)[i])
  }

  /** lwpoly_same, comparing the rings in order. */
  method Same(p1: Geom, p2: Geom) returns (r: bool)
    requires p1.Poly? && p2.Poly?
    ensures r == SameRings(p1, p2)
  {
    var r1, r2 := RingsOf(p1), RingsOf(p2);
    if |r1| != |r2| {
      return false;
    }
    var i := 0;
    while i < |r1|
      invariant 0 <= i <= |r1|
      invariant forall k :: 0 <= k < i ==> PtArrSame(r1[k], r2[k])
    {
      if !(r1[i].hasz == r2[i].hasz && r1[i].hasm == r2[i].hasm && r1[i].points == r2[i].points) {
        return false;
      }
      i := i + 1;
    }
    return true;
  }

  /** Two polygons are the same exactly when their ring lists are equal; order counts, the SRID and box do not. */
  lemma SameRingsIsEquality(p1: Geom, p2: Geom)
    requires p1.Poly? && p2.Poly?
    ensures SameRings(p1, p2) <==> RingsOf(p1) == RingsOf(p2)
  {
    if SameRings(p1, p2) {
      forall i | 0 <= i < |RingsOf(p1)| ensures RingsOf(p1)[i] == RingsOf(p2)[i] {
        PtArrSameIsEquality(RingsOf(p1)[i], RingsOf(p2)[i]);
      }
    }
  }

  /** A line struct with a point array. */
  predicate LineStruct(l: Geom)
  {
    l.Single? && l.pa.Some? && l.pa.value.WellFormed()
  }

  /** A line that lwpoly_from_lwlines accepts as a ring: at least 4 points, closed in 2D. */
  predicate RingLike(l: Geom)
    requires LineStruct(l)
  {
    |l.pa.value.points| >= 4 && Closed2d(l.pa.value)
  }

  /** The holes lwpoly_from_lwlines works on. */
  predicate Lines(ls: seq<Geom>)
  {
    forall i :: 0 <= i < |ls| ==> LineStruct(ls[i])
  }

  /** The point arrays of the shell and the holes, in order. */
  function RingArrays(shell: Geom, holes: seq<Geom>): (rs: seq<PtArr>)
    requires LineStruct(shell) && Lines(holes)
    ensures |rs| == |holes| + 1
  {
    [shell.pa.value] + seq(|holes|, i requires 0 <= i < |holes| => holes[i].pa.value)
  }

  /**
   * lwpoly_from_lwlines: the shell and every hole must have at least 4
   * points and be closed in 2D, and each hole must carry the shell's SRID;
   * then the polygon is constructed from copies of their arrays (which fails
   * on mixed Z/M) with the shell's SRID and no box.
   */
  method FromLines(shell: Geom, holes: seq<Geom>) returns (r: Result<Geom>)
    requires LineStruct(shell) && Lines(holes)
    ensures r.Ok? <==> RingLike(shell)
                       && (forall i :: 0 <= i < |holes| ==> holes[i].srid == shell.srid && RingLike(holes[i]))
                       && UniformZM(RingArrays(shell, holes))
    ensures r.Ok? ==> r.value.Poly? && RingsOf(r.value) == RingArrays(shell, holes)
    ensures r.Ok? ==> r.value.srid == shell.srid && r.value.bbox.None? && ZMMatch(r.value)
  {
    var spa := shell.pa.value;
    if |spa.points| < 4 {
      return Err("lwpoly_from_lwlines: shell must have at least 4 points");
    }
    if spa.points[0][..2] != spa.points[|spa.points| - 1][..2] {
      return Err("lwpoly_from_lwlines: shell must be closed");
    }
    var rings := [spa];
    var n := 1;
    while n <= |holes|
      invariant 1 <= n <= |holes| + 1 && |rings| == n
      invariant forall i :: 0 <= i < n - 1 ==> holes[i].srid == shell.srid && RingLike(holes[i])
      invariant rings == RingArrays(shell, holes)[..n]
    {
      var hole := holes[n - 1];
      var hpa := hole.pa.value;
      if hole.srid != shell.srid {
        return Err("lwpoly_from_lwlines: mixed SRIDs in input lines");
      }
      if |hpa.points| < 4 {
        return Err("lwpoly_from_lwlines: holes must have at least 4 points");
      }
      if hpa.points[0][..2] != hpa.points[|hpa.points| - 1][..2] {
        return Err("lwpoly_from_lwlines: holes must be closed");
      }
      rings := rings + [hpa];
      n := n + 1;
    }
    assert rings == RingArrays(shell, holes);
    r := Construct(shell.srid, None, rings);
  }
}
