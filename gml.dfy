/**
 * ST_AsGML (postgis/lwgeom_gml.c): the arguments LWGEOM_asGML normalises,
 * and the GML 2 and GML 3.1.1 element skeleton it writes for points,
 * lines, polygons and collections, together with the buffer sizes the C
 * code allocates before writing.
 *
 * Coordinates are written with sprintf("%.*f") followed by
 * trim_trailing_zeros; that spelling of a double is the parameter `num`
 * (it receives the 8-byte word and the precision). The srsName lookup in
 * spatial_ref_sys (getSRSbySRID, through SPI) is the parameter `srsOf`.
 */
module Gml {
  import opened Wrappers
  import opened Bytes
  import opened PointArrays
  import opened LwTypes

  const SHOW_DIGS_DOUBLE: nat := 15
  const MAX_DOUBLE_PRECISION: nat := 15
  /** The characters allowed for one ordinate besides its decimals: the digits shown, a point and a sign. */
  const MAX_DIGS_DOUBLE: nat := SHOW_DIGS_DOUBLE + 2

  const VERSION_ERROR := "Only GML 2 and GML 3 are supported"
  const GML2_TYPE_ERROR := "geometry_to_gml2: geometry type not supported"

  /** How one ordinate is spelled at a precision. */
  type Num = (word, nat) -> string

  /** GML 2, or GML 3.1.1 with or without the swapped axis order (option bit 16, is_deegree). */
  datatype Dialect = Gml2 | Gml3(deegree: bool)

  // ---- arguments ---------------------------------------------------------------

  /** The precision argument: 15 when absent, otherwise clamped to [0, 15]. */
  function Precision(arg: Option<int>): (r: nat)
    ensures r <= MAX_DOUBLE_PRECISION
    ensures arg.None? ==> r == MAX_DOUBLE_PRECISION
    ensures arg.Some? && 0 <= arg.value <= MAX_DOUBLE_PRECISION ==> r == arg.value
    ensures arg.Some? && arg.value > MAX_DOUBLE_PRECISION ==> r == MAX_DOUBLE_PRECISION
    ensures arg.Some? && arg.value < 0 ==> r == 0
  {
    if arg.None? then MAX_DOUBLE_PRECISION
    else if arg.value > MAX_DOUBLE_PRECISION then MAX_DOUBLE_PRECISION
    else if arg.value < 0 then 0
    else arg.value
  }

  /**
   * Bit k of a C int: Dafny's division by a positive number rounds down,
   * so this is the bit of the two's complement form for negative values too.
   */
  predicate OptionBit(option: int, k: nat)
  {
    (option / Pow2(k)) % 2 == 1
  }

  /**
   * The srsName: none for the unknown SRID, otherwise the looked-up name,
   * in the long urn:ogc:def:crs form when option bit 1 is set and the
   * short AUTH:CODE form otherwise (the lookup may find none).
   */
  function SrsFor(srid: int, option: int, srsOf: (int, bool) -> Option<string>): (r: Option<string>)
    ensures srid == SRID_UNKNOWN ==> r.None?
    ensures srid != SRID_UNKNOWN ==> r == srsOf(srid, !OptionBit(option, 0))
  {
    if srid == SRID_UNKNOWN then None
    else if OptionBit(option, 0) then srsOf(srid, false)
    else srsOf(srid, true)
  }

  /** The dialect for a version of 2 or 3 and the option word. */
  function DialectOf(version: int, option: int): (d: Dialect)
    ensures d.Gml2? <==> version == 2
    ensures d.Gml3? ==> d.deegree == OptionBit(option, 4)
  {
    if version == 2 then Gml2 else Gml3(OptionBit(option, 4))
  }

  /**
   * LWGEOM_asGML: the version must be 2 or 3 (checked before anything
   * else); a NULL geometry gives NULL; otherwise the geometry is written
   * in that dialect with the normalised precision and srsName.
   */
  function AsGml(version: int, geom: Option<Geom>, precision: Option<int>, option: Option<int>,
                 srsOf: (int, bool) -> Option<string>, num: Num): (r: Result<Option<string>>)
    requires geom.Some? && (version == 2 || version == 3) ==> Writable(DialectOf(version, OptionOf(option)), geom.value)
    ensures version != 2 && version != 3 ==> r == Err(VERSION_ERROR)
    ensures (version == 2 || version == 3) && geom.None? ==> r == Ok(None)
    ensures (version == 2 || version == 3) && geom.Some? ==>
      var d := DialectOf(version, OptionOf(option));
      var w := Render(d, geom.value, SrsFor(geom.value.srid, OptionOf(option), srsOf), num, Precision(precision));
      (r.Ok? <==> w.Ok?) && (r.Ok? ==> r.value == Some(w.value))
  {
    if version != 2 && version != 3 then Err(VERSION_ERROR)
    else if geom.None? then Ok(None)
    else
      var opt := OptionOf(option);
      var w := Render(DialectOf(version, opt), geom.value, SrsFor(geom.value.srid, opt, srsOf), num, Precision(precision));
      if w.Err? then Err(w.msg) else Ok(Some(w.value))
  }

  /** The option argument, 0 when absent. */
  function OptionOf(option: Option<int>): int
  {
    if option.Some? then option.value else 0
  }

  // ---- geometries GML can show -------------------------------------------------

  predicate IsPoint(g: Geom) { g.Single? && TypeOf(g.typ) == POINTTYPE }
  predicate IsLine(g: Geom) { g.Single? && TypeOf(g.typ) == LINETYPE }
  predicate IsPolygon(g: Geom) { g.Poly? && TypeOf(g.typ) == POLYGONTYPE }

  /**
   * A geometry the writers handle: a point or line with its points, a
   * polygon with at least one ring (the writers read rings[0]), or a
   * collection of such geometries.
   */
  predicate Shaped(g: Geom)
  {
    match g
    case Single(_, _, _, pa) => (IsPoint(g) || IsLine(g)) && pa.Some? && pa.value.WellFormed()
    case Poly(_, _, _, rings, _) =>
      IsPolygon(g) && rings.Some? && |rings.value| >= 1 && forall i :: 0 <= i < |rings.value| ==> rings.value[i].WellFormed()
    case Coll(_, _, _, geoms) => forall i :: 0 <= i < |geoms| ==> Shaped(geoms[i])
  }

  /** The types geometry_to_gml2 accepts. */
  predicate Gml2Accepts(t: nat)
  {
    t == POINTTYPE || t == LINETYPE || t == POLYGONTYPE || t == MULTIPOINTTYPE
    || t == MULTILINETYPE || t == MULTIPOLYGONTYPE || t == COLLECTIONTYPE
  }

  /** What the writers are defined on: a shaped geometry, or any geometry GML 2 turns away by its type. */
  predicate Writable(d: Dialect, g: Geom)
  {
    Shaped(g) || (d.Gml2? && !Gml2Accepts(TypeOf(g.typ)))
  }

  // ---- text --------------------------------------------------------------------

  /** An opening tag, with the srsName attribute when there is one. */
  function Open(name: string, srs: Option<string>): string
  {
    "<gml:" + name + (if srs.Some? then " srsName=\"" + srs.value + "\"" else "") + ">"
  }

  function Close(name: string): string
  {
    "</gml:" + name + ">"
  }

  /** An element without attributes around some content. */
  function Wrap(name: string, content: string): string
  {
    Tag(name) + content + Close(name)
  }

  /** One point: x and y (swapped for deegree), then z when the array has Z. */
  function Tuple(p: Raw, hasz: bool, d: Dialect, num: Num, prec: nat): string
    requires |p| >= (if hasz then 3 else 2)
  {
    var sep := if d.Gml2? then "," else " ";
    var xy := if d.Gml3? && d.deegree then num(p[1], prec) + sep + num(p[0], prec) else num(p[0], prec) + sep + num(p[1], prec);
    xy + if hasz then sep + num(p[2], prec) else ""
  }

  /** pointArray_toGML2 / pointArray_toGML3: the points in order, separated by one space. */
  function Coords(pts: seq<Raw>, hasz: bool, d: Dialect, num: Num, prec: nat): string
    requires forall i :: 0 <= i < |pts| ==> |pts[i]| >= (if hasz then 3 else 2)
  {
    if pts == [] then ""
    else Coords(pts[..|pts| - 1], hasz, d, num, prec) + (if |pts| > 1 then " " else "")
         + Tuple(pts[|pts| - 1], hasz, d, num, prec)
  }

  /** Every point of a well-formed array has x and y, and z when the array has Z. */
  lemma WellFormedOrdinates(pa: PtArr)
    requires pa.WellFormed()
    ensures forall i :: 0 <= i < |pa.points| ==> |pa.points[i]| >= (if pa.hasz then 3 else 2)
  {
  }

  function PointArray(pa: PtArr, d: Dialect, num: Num, prec: nat): string
    requires pa.WellFormed()
  {
    WellFormedOrdinates(pa);
    Coords(pa.points, pa.hasz, d, num, prec)
  }

  /** An opening tag without attributes. */
  function Tag(name: string): string
  {
    "<gml:" + name + ">"
  }

  /** The element holding a list of coordinates: coordinates in GML 2, pos or posList in GML 3. */
  function CoordList(d: Dialect): string { if d.Gml2? then "coordinates" else "posList" }
  function CoordPos(d: Dialect): string { if d.Gml2? then "coordinates" else "pos" }

  /** The text around a point's coordinates. */
  function PointHead(d: Dialect): string { Tag(CoordPos(d)) }
  function PointTail(d: Dialect): string { Close(CoordPos(d)) + Close("Point") }

  /** The element name and the text around a line's coordinates. */
  function LineName(d: Dialect): string { if d.Gml2? then "LineString" else "Curve" }
  function LineHead(d: Dialect): string
  {
    if d.Gml2? then Tag("coordinates") else Tag("segments") + Tag("LineStringSegment") + Tag("posList")
  }
  function LineTail(d: Dialect): string
  {
    if d.Gml2? then Close("coordinates") + Close("LineString")
    else Close("posList") + Close("LineStringSegment") + Close("segments") + Close("Curve")
  }

  /** The boundary elements of a polygon. */
  function Outer(d: Dialect): string { if d.Gml2? then "outerBoundaryIs" else "exterior" }
  function Inner(d: Dialect): string { if d.Gml2? then "innerBoundaryIs" else "interior" }

  /** The text around the exterior ring and around each interior ring. */
  function OuterHead(d: Dialect): string { Tag(Outer(d)) + Tag("LinearRing") + Tag(CoordList(d)) }
  function OuterTail(d: Dialect): string { Close(CoordList(d)) + Close("LinearRing") + Close(Outer(d)) }
  function InnerHead(d: Dialect): string { Tag(Inner(d)) + Tag("LinearRing") + Tag(CoordList(d)) }
  function InnerTail(d: Dialect): string { Close(CoordList(d)) + Close("LinearRing") + Close(Inner(d)) }

  /** The collection element: MultiLineString/MultiPolygon in GML 2 become MultiCurve/MultiSurface in GML 3. */
  function MultiName(d: Dialect, t: nat): string
  {
    if t == MULTIPOINTTYPE then "MultiPoint"
    else if t == MULTILINETYPE then (if d.Gml2? then "MultiLineString" else "MultiCurve")
    else if t == MULTIPOLYGONTYPE then (if d.Gml2? then "MultiPolygon" else "MultiSurface")
    else "MultiGeometry"
  }

  /** The member elements of a collection. */
  function LineMember(d: Dialect): string { if d.Gml2? then "lineStringMember" else "curveMember" }
  function PolygonMember(d: Dialect): string { if d.Gml2? then "polygonMember" else "surfaceMember" }

  /** The name of the outermost element written for a shaped geometry. */
  function ElementName(d: Dialect, g: Geom): string
  {
    if IsPoint(g) then "Point" else if IsLine(g) then LineName(d)
    else if IsPolygon(g) then "Polygon" else MultiName(d, TypeOf(g.typ))
  }

  function PointElement(d: Dialect, pa: PtArr, srs: Option<string>, num: Num, prec: nat): string
    requires pa.WellFormed()
  {
    Open("Point", srs) + PointBody(d, pa, num, prec)
  }

  /** What follows a point's opening tag. */
  function PointBody(d: Dialect, pa: PtArr, num: Num, prec: nat): string
    requires pa.WellFormed()
  {
    PointHead(d) + PointArray(pa, d, num, prec) + PointTail(d)
  }

  function LineElement(d: Dialect, pa: PtArr, srs: Option<string>, num: Num, prec: nat): string
    requires pa.WellFormed()
  {
    Open(LineName(d), srs) + LineBody(d, pa, num, prec)
  }

  /** What follows a line's opening tag. */
  function LineBody(d: Dialect, pa: PtArr, num: Num, prec: nat): string
    requires pa.WellFormed()
  {
    LineHead(d) + PointArray(pa, d, num, prec) + LineTail(d)
  }

  /** The interior rings in order. */
  function Interiors(d: Dialect, rings: seq<PtArr>, num: Num, prec: nat): string
    requires forall i :: 0 <= i < |rings| ==> rings[i].WellFormed()
  {
    if rings == [] then ""
    else InteriorPiece(d, rings[0], num, prec) + Interiors(d, rings[1..], num, prec)
  }

  /** One interior ring inside its boundary element. */
  function InteriorPiece(d: Dialect, ring: PtArr, num: Num, prec: nat): string
    requires ring.WellFormed()
  {
    InnerHead(d) + PointArray(ring, d, num, prec) + InnerTail(d)
  }

  function PolygonElement(d: Dialect, rings: seq<PtArr>, srs: Option<string>, num: Num, prec: nat): string
    requires |rings| >= 1 && forall i :: 0 <= i < |rings| ==> rings[i].WellFormed()
  {
    Open("Polygon", srs) + PolygonBody(d, rings, num, prec)
  }

  /** What follows a polygon's opening tag: the exterior ring, the interior rings, the closing tag. */
  function PolygonBody(d: Dialect, rings: seq<PtArr>, num: Num, prec: nat): string
    requires |rings| >= 1 && forall i :: 0 <= i < |rings| ==> rings[i].WellFormed()
  {
    OuterHead(d) + PointArray(rings[0], d, num, prec) + OuterTail(d) + Interiors(d, rings[1..], num, prec) + Close("Polygon")
  }

  /**
   * geometry_to_gml2 / geometry_to_gml3: points, lines and polygons are
   * written as themselves; GML 2 writes the four collection types as a
   * collection and turns away every other type, GML 3 writes everything
   * else as a collection.
   */
  function Render(d: Dialect, g: Geom, srs: Option<string>, num: Num, prec: nat): (r: Result<string>)
    requires Writable(d, g)
    ensures r.Err? <==> d.Gml2? && !Gml2Accepts(TypeOf(g.typ))
    ensures r.Err? ==> r.msg == GML2_TYPE_ERROR
    decreases g, 3
  {
    if d.Gml2? && !Gml2Accepts(TypeOf(g.typ)) then Err(GML2_TYPE_ERROR)
    else Ok(Open(ElementName(d, g), srs) + Body(d, g, num, prec))
  }

  /** What follows the outermost opening tag, by the kind of geometry. */
  function Body(d: Dialect, g: Geom, num: Num, prec: nat): string
    requires Shaped(g)
    decreases g, 2
  {
    if IsPoint(g) then PointBody(d, g.pa.value, num, prec)
    else if IsLine(g) then LineBody(d, g.pa.value, num, prec)
    else if IsPolygon(g) then PolygonBody(d, g.rings.value, num, prec)
    else CollectionBody(d, g, num, prec)
  }

  /**
   * asgml2_inspected / asgml3_inspected: the collection element around its
   * members; only this outermost element carries the srsName.
   */
  function Collection(d: Dialect, g: Geom, srs: Option<string>, num: Num, prec: nat): string
    requires g.Coll? && Shaped(g)
    decreases g, 2
  {
    Open(MultiName(d, TypeOf(g.typ)), srs) + CollectionBody(d, g, num, prec)
  }

  /** What follows a collection's opening tag: its members and the closing tag. */
  function CollectionBody(d: Dialect, g: Geom, num: Num, prec: nat): string
    requires g.Coll? && Shaped(g)
    decreases g, 1
  {
    Members(d, g, |g.geoms|, num, prec) + Close(MultiName(d, TypeOf(g.typ)))
  }

  /** The first n members in order. */
  function Members(d: Dialect, g: Geom, n: nat, num: Num, prec: nat): string
    requires g.Coll? && Shaped(g) && n <= |g.geoms|
    decreases g, 0, n
  {
    if n == 0 then "" else Members(d, g, n - 1, num, prec) + Member(d, g.geoms[n - 1], num, prec)
  }

  /**
   * A point, line or polygon member: its element without srsName inside
   * its member element; a nested collection: the collection element
   * without srsName and without a member element.
   */
  function Member(d: Dialect, m: Geom, num: Num, prec: nat): string
    requires Shaped(m)
    decreases m, 4
  {
    if IsPoint(m) || IsLine(m) || IsPolygon(m) then Wrap(MemberName(d, m), Open(ElementName(d, m), None) + Body(d, m, num, prec))
    else Collection(d, m, None, num, prec)
  }

  /** The member element of a point, line or polygon. */
  function MemberName(d: Dialect, m: Geom): string
  {
    if IsPoint(m) then "pointMember" else if IsLine(m) then LineMember(d) else PolygonMember(d)
  }

  // ---- properties of the text --------------------------------------------------

  /**
   * The srsName appears only in the outermost tag: with and without it the
   * output is the same apart from that tag.
   */
  lemma SrsOnOutermost(d: Dialect, g: Geom, s: string, num: Num, prec: nat)
    requires Shaped(g) && (d.Gml3? || Gml2Accepts(TypeOf(g.typ)))
    ensures Render(d, g, None, num, prec).Ok? && Render(d, g, Some(s), num, prec).Ok?
    ensures var name := ElementName(d, g);
      var plain := Render(d, g, None, num, prec).value;
      |plain| >= |name| + 6 && plain[..|name| + 6] == "<gml:" + name + ">"
      && Render(d, g, Some(s), num, prec).value == "<gml:" + name + " srsName=\"" + s + "\">" + plain[|name| + 6..]
  {
    OpenSplits(ElementName(d, g), s, Body(d, g, num, prec));
  }

  /** An opening tag without srsName is followed directly by the rest; with one, only the tag differs. */
  lemma OpenSplits(name: string, s: string, rest: string)
    ensures var plain := Open(name, None) + rest;
      |plain| >= |name| + 6 && plain[..|name| + 6] == "<gml:" + name + ">" && plain[|name| + 6..] == rest
      && Open(name, Some(s)) + rest == "<gml:" + name + " srsName=\"" + s + "\">" + rest
  {
    var tag := "<gml:" + name + ">";
    assert Open(name, None) == tag;
    assert |tag| == |name| + 6;
    assert (tag + rest)[..|tag|] == tag;
    assert (tag + rest)[|tag|..] == rest;
  }

  /** x and y exchanged, the other ordinates kept. */
  function SwapXY(p: Raw): (q: Raw)
    requires |p| >= 2
    ensures |q| == |p| && q[0] == p[1] && q[1] == p[0] && q[2..] == p[2..]
  {
    [p[1], p[0]] + p[2..]
  }

  /** Deegree's axis order writes every point as the plain GML 3 order writes it with x and y exchanged. */
  lemma {:induction false} DeegreeSwapsAxes(pts: seq<Raw>, hasz: bool, num: Num, prec: nat)
    requires forall i :: 0 <= i < |pts| ==> |pts[i]| >= (if hasz then 3 else 2)
    ensures Coords(pts, hasz, Gml3(true), num, prec)
         == Coords(seq(|pts|, i requires 0 <= i < |pts| => SwapXY(pts[i])), hasz, Gml3(false), num, prec)
  {
    var swapped := seq(|pts|, i requires 0 <= i < |pts| => SwapXY(pts[i]));
    if pts != [] {
      var n := |pts|;
      DeegreeSwapsAxes(pts[..n - 1], hasz, num, prec);
      assert swapped[..n - 1] == seq(n - 1, i requires 0 <= i < n - 1 => SwapXY(pts[..n - 1][i]));
      assert Tuple(pts[n - 1], hasz, Gml3(true), num, prec) == Tuple(swapped[n - 1], hasz, Gml3(false), num, prec);
    }
  }

  // ---- buffer sizes -------------------------------------------------------------

  /** sizeof of a string literal: its characters and the terminating NUL. */
  function SizeOf(s: string): nat { |s| + 1 }

  /** The sizeof figures the size functions add up; TagSizes ties each to its literal. */
  const SRS_TAGS: nat := 12
  const ORDINATE_SEP: nat := 3
  const POINT2_TAGS: nat := 30
  const POINT3_TAGS: nat := 22
  const LINE2_TAGS: nat := 35
  const LINE3_TAGS: nat := 63
  const POLYGON2_TAGS: nat := 28
  const OUTER2_TAGS: nat := 56
  const INNER2_TAGS: nat := 56
  const POLYGON3_OPEN: nat := 14
  const EXTERIOR3_OPEN: nat := 44
  const EXTERIOR3_CLOSE: nat := 47
  const INTERIOR3_OPEN: nat := 44
  const INTERIOR3_CLOSE: nat := 47
  const POLYGON3_CLOSE: nat := 15
  const MULTI_TAGS: nat := 44
  const POINT_MEMBER_TAGS: nat := 19
  const LINE2_MEMBER_TAGS: nat := 24
  const LINE3_MEMBER_TAGS: nat := 19
  const POLYGON2_MEMBER_TAGS: nat := 21
  const POLYGON3_MEMBER_TAGS: nat := 21

  /** Each figure above is the sizeof of the literal the C code measures. */
  lemma TagSizes()
    ensures SRS_TAGS == SizeOf(" srsName=..")
         && ORDINATE_SEP == SizeOf(", ")
         && POINT2_TAGS == SizeOf("<gml:point><gml:coordinates>/")
         && POINT3_TAGS == SizeOf("<gml:point><gml:pos>/")
         && LINE2_TAGS == SizeOf("<gml:linestring><gml:coordinates>/")
         && LINE3_TAGS == SizeOf("<gml:Curve><gml:segments><gml:LineStringSegment><gml:posList>/")
         && POLYGON2_TAGS == SizeOf("<gml:polygon></gml:polygon>")
         && OUTER2_TAGS == SizeOf("<gml:outerboundaryis><gml:linearring><gml:coordinates>/")
         && INNER2_TAGS == SizeOf("<gml:innerboundaryis><gml:linearring><gml:coordinates>/")
         && POLYGON3_OPEN == SizeOf("<gml:Polygon>")
         && EXTERIOR3_OPEN == SizeOf("<gml:exterior><gml:LinearRing><gml:posList>")
         && EXTERIOR3_CLOSE == SizeOf("</gml:posList></gml:LinearRing></gml:exterior>")
         && INTERIOR3_OPEN == SizeOf("<gml:interior><gml:LinearRing><gml:posList>")
         && INTERIOR3_CLOSE == SizeOf("</gml:posList></gml:LinearRing></gml:interior>")
         && POLYGON3_CLOSE == SizeOf("</gml:Polygon>")
         && MULTI_TAGS == SizeOf("<gml:MultiLineString></gml:MultiLineString>")
         && POINT_MEMBER_TAGS == SizeOf("<gml:pointMember>/")
         && LINE2_MEMBER_TAGS == SizeOf("<gml:lineStringMember>/")
         && LINE3_MEMBER_TAGS == SizeOf("<gml:curveMember>/")
         && POLYGON2_MEMBER_TAGS == SizeOf("<gml:polygonMember>/")
         && POLYGON3_MEMBER_TAGS == SizeOf("<gml:surfaceMember>/")
  {
  }

  /** sizeof(" srsName=..") and the name, when there is one. */
  function SrsSize(srs: Option<string>): nat
  {
    if srs.Some? then |srs.value| + SRS_TAGS else 0
  }

  /**
   * pointArray_GMLsize: `digs` characters plus the precision plus
   * sizeof(", ") per ordinate, two ordinates for 2-dimensional arrays and
   * three otherwise, for every point. The C code uses MAX_DIGS_DOUBLE.
   */
  function PointArraySize(pa: PtArr, prec: nat, digs: nat): nat
  {
    (digs + prec + ORDINATE_SEP) * (if NDims(pa.hasz, pa.hasm) == 2 then 2 else 3) * |pa.points|
  }

  function RingsSize(rings: seq<PtArr>, prec: nat, digs: nat): nat
  {
    if rings == [] then 0 else PointArraySize(rings[0], prec, digs) + RingsSize(rings[1..], prec, digs)
  }

  /** asgml2_point_size / asgml3_point_size */
  function PointSize(d: Dialect, pa: PtArr, srs: Option<string>, prec: nat, digs: nat): nat
  {
    PointArraySize(pa, prec, digs)
    + (if d.Gml2? then POINT2_TAGS * 2 else POINT3_TAGS * 2)
    + SrsSize(srs)
  }

  /**
   * asgml2_line_size / asgml3_line_size. `room` is added to the GML 3
   * figure: the C code adds nothing.
   */
  function LineSize(d: Dialect, pa: PtArr, srs: Option<string>, prec: nat, digs: nat, room: nat): nat
  {
    PointArraySize(pa, prec, digs)
    + (if d.Gml2? then LINE2_TAGS * 2
       else LINE3_TAGS * 2 + room)
    + SrsSize(srs)
  }

  /** asgml2_poly_size / asgml3_poly_size, for at least one ring. */
  function PolygonSize(d: Dialect, rings: seq<PtArr>, srs: Option<string>, prec: nat, digs: nat): nat
    requires |rings| >= 1
  {
    (if d.Gml2? then
       POLYGON2_TAGS
       + OUTER2_TAGS * 2
       + INNER2_TAGS * 2 * |rings|
     else
       POLYGON3_OPEN
       + EXTERIOR3_OPEN
       + EXTERIOR3_CLOSE
       + INTERIOR3_OPEN * (|rings| - 1)
       + INTERIOR3_CLOSE * (|rings| - 1)
       + POLYGON3_CLOSE)
    + SrsSize(srs) + RingsSize(rings, prec, digs)
  }

  /** What LWGEOM_asGML allocates for a shaped geometry. */
  function Size(d: Dialect, g: Geom, srs: Option<string>, prec: nat, digs: nat, room: nat): nat
    requires Shaped(g)
    decreases g, 2
  {
    if IsPoint(g) then PointSize(d, g.pa.value, srs, prec, digs)
    else if IsLine(g) then LineSize(d, g.pa.value, srs, prec, digs, room)
    else if IsPolygon(g) then PolygonSize(d, g.rings.value, srs, prec, digs)
    else CollectionSize(d, g, srs, prec, digs, room)
  }

  /** asgml2_inspected_size / asgml3_inspected_size: room for the longest collection tag pair, then every member. */
  function CollectionSize(d: Dialect, g: Geom, srs: Option<string>, prec: nat, digs: nat, room: nat): nat
    requires g.Coll? && Shaped(g)
    decreases g, 1
  {
    MULTI_TAGS + SrsSize(srs) + MembersSize(d, g, |g.geoms|, prec, digs, room)
  }

  function MembersSize(d: Dialect, g: Geom, n: nat, prec: nat, digs: nat, room: nat): nat
    requires g.Coll? && Shaped(g) && n <= |g.geoms|
    decreases g, 0, n
  {
    if n == 0 then 0 else MembersSize(d, g, n - 1, prec, digs, room) + MemberSize(d, g.geoms[n - 1], prec, digs, room)
  }

  function MemberSize(d: Dialect, m: Geom, prec: nat, digs: nat, room: nat): nat
    requires Shaped(m)
    decreases m, 4
  {
    if IsPoint(m) then POINT_MEMBER_TAGS * 2 + PointSize(d, m.pa.value, None, prec, digs)
    else if IsLine(m) then
      (if d.Gml2? then LINE2_MEMBER_TAGS * 2 else LINE3_MEMBER_TAGS * 2)
      + LineSize(d, m.pa.value, None, prec, digs, room)
    else if IsPolygon(m) then
      (if d.Gml2? then POLYGON2_MEMBER_TAGS * 2 else POLYGON3_MEMBER_TAGS * 2)
      + PolygonSize(d, m.rings.value, None, prec, digs)
    else CollectionSize(d, m, None, prec, digs, room)
  }

  // ---- the text fits the buffer ---------------------------------------------------

  /** Every ordinate is spelled in at most w characters at this precision. */
  predicate NumWithin(num: Num, prec: nat, w: nat)
  {
    forall x: word :: |num(x, prec)| <= w
  }

  /** Room for one written point and the space before it: 2 or 3 ordinates of w characters, each with a separator. */
  function PointWidth(hasz: bool, w: nat): nat
  {
    if hasz then 3 * (w + 1) else 2 * (w + 1)
  }

  lemma TupleLen(p: Raw, hasz: bool, d: Dialect, num: Num, prec: nat, w: nat)
    requires |p| >= (if hasz then 3 else 2) && NumWithin(num, prec, w)
    ensures |Tuple(p, hasz, d, num, prec)| < PointWidth(hasz, w)
  {
    assert |num(p[0], prec)| <= w && |num(p[1], prec)| <= w;
    if hasz {
      assert |num(p[2], prec)| <= w;
    }
  }

  /** The coordinates take at most PointWidth characters per point. */
  lemma {:induction false} CoordsLen(pts: seq<Raw>, hasz: bool, d: Dialect, num: Num, prec: nat, w: nat)
    requires forall i :: 0 <= i < |pts| ==> |pts[i]| >= (if hasz then 3 else 2)
    requires NumWithin(num, prec, w)
    ensures |Coords(pts, hasz, d, num, prec)| <= |pts| * PointWidth(hasz, w)
  {
    if pts != [] {
      var n := |pts|;
      var k := PointWidth(hasz, w);
      var init := Coords(pts[..n - 1], hasz, d, num, prec);
      var last := Tuple(pts[n - 1], hasz, d, num, prec);
      CoordsLen(pts[..n - 1], hasz, d, num, prec, w);
      TupleLen(pts[n - 1], hasz, d, num, prec, w);
      assert |Coords(pts, hasz, d, num, prec)| <= |init| + 1 + |last|;
      MulSucc(n - 1, k);
    }
  }

  /** With ordinates of at most digs + prec characters, pointArray_GMLsize covers the coordinates. */
  lemma PointArrayFits(pa: PtArr, d: Dialect, num: Num, prec: nat, digs: nat)
    requires pa.WellFormed() && NumWithin(num, prec, digs + prec)
    ensures |PointArray(pa, d, num, prec)| <= PointArraySize(pa, prec, digs)
  {
    WellFormedOrdinates(pa);
    var w := digs + prec;
    var n := |pa.points|;
    CoordsLen(pa.points, pa.hasz, d, num, prec, w);
    var mult := if NDims(pa.hasz, pa.hasm) == 2 then 2 else 3;
    var per := (w + ORDINATE_SEP) * mult;
    assert PointWidth(pa.hasz, w) <= per;
    MulMono(n, PointWidth(pa.hasz, w), per);
    assert PointArraySize(pa, prec, digs) == per * n;
  }

  lemma MulSucc(n: nat, k: nat)
    ensures n * k + k == (n + 1) * k
  {
  }

  lemma MulMono(n: nat, a: nat, b: nat)
    requires a <= b
    ensures n * a <= n * b && n * b == b * n
  {
  }

  lemma OpenLen(name: string, srs: Option<string>)
    ensures |Open(name, srs)| + (if srs.Some? then 1 else 0) == |name| + 6 + SrsSize(srs)
  {
  }

  lemma CloseLen(name: string)
    ensures |Close(name)| == |name| + 7
  {
  }

  lemma WrapLen(name: string, content: string)
    ensures |Wrap(name, content)| == 2 * |name| + 13 + |content|
  {
  }

  /** asgml2_point_size / asgml3_point_size leave room for the point and its NUL. */
  lemma PointFits(d: Dialect, pa: PtArr, srs: Option<string>, num: Num, prec: nat, digs: nat)
    requires pa.WellFormed() && NumWithin(num, prec, digs + prec)
    ensures |PointElement(d, pa, srs, num, prec)| < PointSize(d, pa, srs, prec, digs)
  {
    OpenLen("Point", srs);
    PointArrayFits(pa, d, num, prec, digs);
  }

  /**
   * asgml2_line_size / asgml3_line_size cover the line; there is room for
   * the NUL too unless the line is GML 3, has no srsName and room is 0.
   */
  lemma LineFits(d: Dialect, pa: PtArr, srs: Option<string>, num: Num, prec: nat, digs: nat, room: nat)
    requires pa.WellFormed() && NumWithin(num, prec, digs + prec)
    ensures |LineElement(d, pa, srs, num, prec)| <= LineSize(d, pa, srs, prec, digs, room)
    ensures d.Gml2? || srs.Some? || room >= 1 ==> |LineElement(d, pa, srs, num, prec)| < LineSize(d, pa, srs, prec, digs, room)
  {
    OpenLen(LineName(d), srs);
    PointArrayFits(pa, d, num, prec, digs);
  }

  /** The interior rings take at most their tags and their pointArray_GMLsize each. */
  lemma {:induction false} InteriorsFit(d: Dialect, rings: seq<PtArr>, num: Num, prec: nat, digs: nat, k: nat)
    requires forall i :: 0 <= i < |rings| ==> rings[i].WellFormed()
    requires NumWithin(num, prec, digs + prec) && k == |InnerHead(d)| + |InnerTail(d)|
    ensures |Interiors(d, rings, num, prec)| <= |rings| * k + RingsSize(rings, prec, digs)
  {
    if rings != [] {
      var ring := PointArray(rings[0], d, num, prec);
      var rest := Interiors(d, rings[1..], num, prec);
      InteriorsFit(d, rings[1..], num, prec, digs, k);
      PointArrayFits(rings[0], d, num, prec, digs);
      assert |Interiors(d, rings, num, prec)| == k + |ring| + |rest|;
      MulSucc(|rings| - 1, k);
    }
  }

  lemma RingTagLens(d: Dialect)
    ensures |OuterHead(d)| + |OuterTail(d)| == (if d.Gml2? then 111 else 89)
    ensures |InnerHead(d)| + |InnerTail(d)| == (if d.Gml2? then 111 else 89)
  {
  }

  /** asgml2_poly_size / asgml3_poly_size leave room for the polygon and its NUL. */
  lemma PolygonFits(d: Dialect, rings: seq<PtArr>, srs: Option<string>, num: Num, prec: nat, digs: nat)
    requires |rings| >= 1 && forall i :: 0 <= i < |rings| ==> rings[i].WellFormed()
    requires NumWithin(num, prec, digs + prec)
    ensures |PolygonElement(d, rings, srs, num, prec)| < PolygonSize(d, rings, srs, prec, digs)
  {
    var n := |rings|;
    var k := if d.Gml2? then 111 else 89;
    OpenLen("Polygon", srs);
    CloseLen("Polygon");
    RingTagLens(d);
    var outer := PointArray(rings[0], d, num, prec);
    var inner := Interiors(d, rings[1..], num, prec);
    PointArrayFits(rings[0], d, num, prec, digs);
    InteriorsFit(d, rings[1..], num, prec, digs, k);
    assert |PolygonBody(d, rings, num, prec)| == k + |outer| + |inner| + 14;
    assert |inner| <= (n - 1) * k + RingsSize(rings[1..], prec, digs);
    assert RingsSize(rings, prec, digs) == PointArraySize(rings[0], prec, digs) + RingsSize(rings[1..], prec, digs);
    if d.Gml2? {
      assert PolygonSize(d, rings, srs, prec, digs) == 140 + 112 * n + SrsSize(srs) + RingsSize(rings, prec, digs);
    } else {
      assert PolygonSize(d, rings, srs, prec, digs) == 120 + 91 * (n - 1) + SrsSize(srs) + RingsSize(rings, prec, digs);
    }
  }

  lemma MultiNameLen(d: Dialect, t: nat)
    ensures |MultiName(d, t)| <= 15
  {
  }

  /** asgml2_inspected_size / asgml3_inspected_size leave room for the collection and its NUL. */
  lemma CollectionFits(d: Dialect, g: Geom, srs: Option<string>, num: Num, prec: nat, digs: nat, room: nat)
    requires g.Coll? && Shaped(g) && NumWithin(num, prec, digs + prec)
    ensures |Open(MultiName(d, TypeOf(g.typ)), srs) + CollectionBody(d, g, num, prec)|
            < CollectionSize(d, g, srs, prec, digs, room)
    decreases g, 1
  {
    var name := MultiName(d, TypeOf(g.typ));
    MultiNameLen(d, TypeOf(g.typ));
    OpenLen(name, srs);
    CloseLen(name);
    MembersFit(d, g, |g.geoms|, num, prec, digs, room);
  }

  lemma MembersFit(d: Dialect, g: Geom, n: nat, num: Num, prec: nat, digs: nat, room: nat)
    requires g.Coll? && Shaped(g) && n <= |g.geoms| && NumWithin(num, prec, digs + prec)
    ensures |Members(d, g, n, num, prec)| <= MembersSize(d, g, n, prec, digs, room)
    decreases g, 0, n
  {
    if n > 0 {
      MembersFit(d, g, n - 1, num, prec, digs, room);
      MemberFits(d, g.geoms[n - 1], num, prec, digs, room);
    }
  }

  /** Each member, inside its member element, fits the figure added for it, whatever the room. */
  lemma MemberFits(d: Dialect, m: Geom, num: Num, prec: nat, digs: nat, room: nat)
    requires Shaped(m) && NumWithin(num, prec, digs + prec)
    ensures |Member(d, m, num, prec)| < MemberSize(d, m, prec, digs, room)
    decreases m, 2
  {
    if IsPoint(m) {
      WrapLen("pointMember", PointElement(d, m.pa.value, None, num, prec));
      PointFits(d, m.pa.value, None, num, prec, digs);
    } else if IsLine(m) {
      WrapLen(LineMember(d), LineElement(d, m.pa.value, None, num, prec));
      LineFits(d, m.pa.value, None, num, prec, digs, room);
    } else if IsPolygon(m) {
      WrapLen(PolygonMember(d), PolygonElement(d, m.rings.value, None, num, prec));
      PolygonFits(d, m.rings.value, None, num, prec, digs);
    } else {
      CollectionFits(d, m, None, num, prec, digs, room);
    }
  }

  /**
   * With ordinates of at most digs + prec characters and at least one
   * spare byte on a GML 3 line, the figure LWGEOM_asGML allocates holds
   * the text and its NUL.
   */
  lemma OutputFits(d: Dialect, g: Geom, srs: Option<string>, num: Num, prec: nat, digs: nat, room: nat)
    requires Shaped(g) && (d.Gml3? || Gml2Accepts(TypeOf(g.typ)))
    requires NumWithin(num, prec, digs + prec) && room >= 1
    ensures Render(d, g, srs, num, prec).Ok?
    ensures |Render(d, g, srs, num, prec).value| < Size(d, g, srs, prec, digs, room)
  {
    if IsPoint(g) {
      PointFits(d, g.pa.value, srs, num, prec, digs);
    } else if IsLine(g) {
      LineFits(d, g.pa.value, srs, num, prec, digs, room);
    } else if IsPolygon(g) {
      PolygonFits(d, g.rings.value, srs, num, prec, digs);
    } else {
      CollectionFits(d, g, srs, num, prec, digs, room);
    }
  }

  // ---- what the C code allocates, and what it should --------------------------------

  /** The size LWGEOM_asGML allocates: MAX_DIGS_DOUBLE characters per ordinate, nothing spare on a GML 3 line. */
  function AllocatedSize(d: Dialect, g: Geom, srs: Option<string>, prec: nat): nat
    requires Shaped(g)
  {
    Size(d, g, srs, prec, MAX_DIGS_DOUBLE, 0)
  }

  /**
   * The longest "%.*f" spelling of a finite double, its decimals aside:
   * 309 integer digits, a sign and a decimal point.
   */
  const FIXED_DIGS: nat := 311

  /** The size that holds any output: FIXED_DIGS per ordinate and one spare byte on a GML 3 line. */
  function NeededSize(d: Dialect, g: Geom, srs: Option<string>, prec: nat): nat
    requires Shaped(g)
  {
    Size(d, g, srs, prec, FIXED_DIGS, 1)
  }

  /** With the corrected figures the output and its NUL always fit. */
  lemma NeededSizeFits(d: Dialect, g: Geom, srs: Option<string>, num: Num, prec: nat)
    requires Shaped(g) && (d.Gml3? || Gml2Accepts(TypeOf(g.typ)))
    requires NumWithin(num, prec, FIXED_DIGS + prec)
    ensures Render(d, g, srs, num, prec).Ok?
    ensures |Render(d, g, srs, num, prec).value| < NeededSize(d, g, srs, prec)
  {
    OutputFits(d, g, srs, num, prec, FIXED_DIGS, 1);
  }

  /**
   * A GML 3 line with no points and no srsName is 126 characters long,
   * exactly the size allocated for it: the NUL sprintf writes lands past
   * the end of the buffer.
   */
  lemma EmptyCurveFillsBuffer(deegree: bool, num: Num, prec: nat)
    ensures var g := Single(LINETYPE, SRID_UNKNOWN, None, Some(PtArr(false, false, [])));
      Shaped(g)
      && |Render(Gml3(deegree), g, None, num, prec).value| == 126
      && AllocatedSize(Gml3(deegree), g, None, prec) == 126
  {
    var d := Gml3(deegree);
    var pa := PtArr(false, false, []);
    assert PointArray(pa, d, num, prec) == "";
    assert |Open("Curve", None)| == 11;
    assert |LineHead(d)| == 50;
    assert |LineTail(d)| == 65;
  }

  /**
   * POINT(2e31 2e31) at precision 0 in GML 2: "%.0f" spells each
   * ordinate in 32 characters, which the 33-byte scratch buffers hold, but
   * the 123 characters of text do not fit the 100 bytes allocated.
   */
  lemma WideNumberOverflows(num: Num, x: word, y: word)
    requires |num(x, 0)| == 32 && |num(y, 0)| == 32
    ensures var g := Single(POINTTYPE, SRID_UNKNOWN, None, Some(PtArr(false, false, [[x, y]])));
      Shaped(g)
      && |Render(Gml2, g, None, num, 0).value| == 123
      && AllocatedSize(Gml2, g, None, 0) == 100
  {
    var pa := PtArr(false, false, [[x, y]]);
    assert |Coords(pa.points, false, Gml2, num, 0)| == 65 by {
      assert pa.points[..0] == [];
    }
    assert |Open("Point", None)| == 11;
    assert |PointHead(Gml2)| == 17;
    assert |PointTail(Gml2)| == 30;
  }

  // ---- writing through an advancing pointer ----------------------------------------

  /**
   * What a write of s at pos did to the buffer: s sits at pos, and every
   * other character is as it was before.
   */
  ghost predicate Wrote(before: seq<char>, after: seq<char>, pos: nat, s: string)
  {
    pos + |s| <= |before| && after == before[..pos] + s + before[pos + |s|..]
  }

  /** Two writes, the second where the first ended, are one write of the two texts. */
  lemma WroteThen(a: seq<char>, b: seq<char>, c: seq<char>, pos: nat, s: string, t: string)
    requires Wrote(a, b, pos, s) && Wrote(b, c, pos + |s|, t)
    ensures Wrote(a, c, pos, s + t)
  {
    assert b[..pos + |s|] == a[..pos] + s;
    assert b[pos + |s| + |t|..] == a[pos + |s| + |t|..];
    assert c == a[..pos] + s + t + a[pos + |s| + |t|..];
  }

  /** WroteThen with the position of the second write named: at is where the first ended. */
  lemma WroteThenAt(a: seq<char>, b: seq<char>, c: seq<char>, pos: nat, at: nat, s: string, t: string)
    requires at == pos + |s| && Wrote(a, b, pos, s) && Wrote(b, c, at, t)
    ensures Wrote(a, c, pos, s + t)
  {
    WroteThen(a, b, c, pos, s, t);
  }

  /** One sprintf through the pointer: the characters of s are copied to buf from pos on; the count written. */
  method Sprintf(buf: array<char>, pos: nat, s: string) returns (n: nat)
    requires pos + |s| <= buf.Length
    modifies buf
    ensures n == |s| && Wrote(old(buf[..]), buf[..], pos, s)
  {
    n := 0;
    while n < |s|
      invariant n <= |s|
      invariant forall k :: 0 <= k < buf.Length ==> buf[k] == (if pos <= k < pos + n then s[k - pos] else old(buf[k]))
    {
      buf[pos + n] := s[n];
      n := n + 1;
    }
    assert buf[..] == old(buf[..])[..pos] + s + old(buf[..])[pos + |s|..];
  }

  /** The next sprintf of a writer: s goes after the `at` characters `done` already written from pos. */
  method SprintfMore(buf: array<char>, pos: nat, at: nat, ghost before: seq<char>, ghost done: string, s: string)
    returns (n: nat)
    requires at == |done| && Wrote(before, buf[..], pos, done) && pos + at + |s| <= buf.Length
    modifies buf
    ensures n == |done + s| && Wrote(before, buf[..], pos, done + s)
  {
    ghost var mid := buf[..];
    var k := Sprintf(buf, pos + at, s);
    WroteThenAt(before, mid, buf[..], pos, pos + at, done, s);
    n := at + k;
  }

  /** Concatenation is associative; the writers regroup their texts with it. */
  lemma Assoc(a: string, b: string, c: string)
    ensures a + (b + c) == a + b + c
  {
  }

  /** The text of the first i points is never longer than that of all of them. */
  lemma {:induction false} CoordsPrefixLen(pts: seq<Raw>, hasz: bool, d: Dialect, num: Num, prec: nat, i: nat)
    requires forall j :: 0 <= j < |pts| ==> |pts[j]| >= (if hasz then 3 else 2)
    requires i <= |pts|
    ensures |Coords(pts[..i], hasz, d, num, prec)| <= |Coords(pts, hasz, d, num, prec)|
    decreases |pts|
  {
    if i < |pts| {
      var q := pts[..|pts| - 1];
      assert q[..i] == pts[..i];
      CoordsPrefixLen(q, hasz, d, num, prec, i);
    } else {
      assert pts[..i] == pts;
    }
  }

  /** The text of the first i + 1 points: that of the first i, a space unless i is 0, then point i. */
  lemma CoordsStep(pts: seq<Raw>, hasz: bool, d: Dialect, num: Num, prec: nat, i: nat)
    requires forall j :: 0 <= j < |pts| ==> |pts[j]| >= (if hasz then 3 else 2)
    requires i < |pts|
    ensures Coords(pts[..i + 1], hasz, d, num, prec)
         == Coords(pts[..i], hasz, d, num, prec) + (if i > 0 then " " else "") + Tuple(pts[i], hasz, d, num, prec)
    ensures |Coords(pts[..i + 1], hasz, d, num, prec)| <= |Coords(pts, hasz, d, num, prec)|
  {
    assert pts[..i + 1][..i] == pts[..i];
    CoordsPrefixLen(pts, hasz, d, num, prec, i + 1);
  }

  /** One turn of the point loop: the separating space unless this is the first point, then the point. */
  method PutNextPoint(buf: array<char>, pos: nat, at: nat, ghost before: seq<char>,
                      pts: seq<Raw>, hasz: bool, d: Dialect, num: Num, prec: nat, i: nat) returns (n: nat)
    requires forall j :: 0 <= j < |pts| ==> |pts[j]| >= (if hasz then 3 else 2)
    requires i < |pts| && at == |Coords(pts[..i], hasz, d, num, prec)|
    requires Wrote(before, buf[..], pos, Coords(pts[..i], hasz, d, num, prec))
    requires pos + |Coords(pts, hasz, d, num, prec)| <= buf.Length
    modifies buf
    ensures n == |Coords(pts[..i + 1], hasz, d, num, prec)|
    ensures Wrote(before, buf[..], pos, Coords(pts[..i + 1], hasz, d, num, prec))
  {
    ghost var done := Coords(pts[..i], hasz, d, num, prec);
    var tuple := Tuple(pts[i], hasz, d, num, prec);
    CoordsStep(pts, hasz, d, num, prec, i);
    var sep := if i > 0 then " " else "";
    n := SprintfMore(buf, pos, at, before, done, sep);
    n := SprintfMore(buf, pos, n, before, done + sep, tuple);
  }

  /**
   * pointArray_toGML2 / pointArray_toGML3: each point in turn, a space
   * before every point but the first; the count written.
   */
  method PutPointArray(buf: array<char>, pos: nat, pa: PtArr, d: Dialect, num: Num, prec: nat) returns (n: nat)
    requires pa.WellFormed() && pos + |PointArray(pa, d, num, prec)| <= buf.Length
    modifies buf
    ensures n == |PointArray(pa, d, num, prec)| && Wrote(old(buf[..]), buf[..], pos, PointArray(pa, d, num, prec))
  {
    WellFormedOrdinates(pa);
    ghost var b0 := buf[..];
    var pts := pa.points;
    n := 0;
    var i := 0;
    assert pts[..0] == [];
    assert b0 == b0[..pos] + Coords(pts[..0], pa.hasz, d, num, prec) + b0[pos..];
    while i < |pts|
      invariant i <= |pts|
      invariant n == |Coords(pts[..i], pa.hasz, d, num, prec)|
      invariant Wrote(b0, buf[..], pos, Coords(pts[..i], pa.hasz, d, num, prec))
    {
      n := PutNextPoint(buf, pos, n, b0, pts, pa.hasz, d, num, prec, i);
      i := i + 1;
    }
    assert pts[..i] == pts;
  }

  /** A point array written after the `at` characters `done` already written from pos. */
  method PutPointArrayMore(buf: array<char>, pos: nat, at: nat, ghost before: seq<char>, ghost done: string,
                           pa: PtArr, d: Dialect, num: Num, prec: nat) returns (n: nat)
    requires pa.WellFormed()
    requires at == |done| && Wrote(before, buf[..], pos, done) && pos + at + |PointArray(pa, d, num, prec)| <= buf.Length
    modifies buf
    ensures n == |done + PointArray(pa, d, num, prec)| && Wrote(before, buf[..], pos, done + PointArray(pa, d, num, prec))
  {
    ghost var mid := buf[..];
    var k := PutPointArray(buf, pos + at, pa, d, num, prec);
    WroteThenAt(before, mid, buf[..], pos, pos + at, done, PointArray(pa, d, num, prec));
    n := at + k;
  }

  /** The part of asgml2_point_buf / asgml3_point_buf after the opening tag; the count written. */
  method PutPointBody(buf: array<char>, pos: nat, d: Dialect, pa: PtArr, num: Num, prec: nat) returns (n: nat)
    requires pa.WellFormed() && pos + |PointBody(d, pa, num, prec)| <= buf.Length
    modifies buf
    ensures n == |PointBody(d, pa, num, prec)| && Wrote(old(buf[..]), buf[..], pos, PointBody(d, pa, num, prec))
  {
    ghost var b0 := buf[..];
    n := Sprintf(buf, pos, PointHead(d));
    n := PutPointArrayMore(buf, pos, n, b0, PointHead(d), pa, d, num, prec);
    n := SprintfMore(buf, pos, n, b0, PointHead(d) + PointArray(pa, d, num, prec), PointTail(d));
  }

  /** asgml2_point_buf / asgml3_point_buf: the point element, with the srsName when given; the count written. */
  method PutPoint(buf: array<char>, pos: nat, d: Dialect, pa: PtArr, srs: Option<string>, num: Num, prec: nat) returns (n: nat)
    requires pa.WellFormed() && pos + |PointElement(d, pa, srs, num, prec)| <= buf.Length
    modifies buf
    ensures n == |PointElement(d, pa, srs, num, prec)| && Wrote(old(buf[..]), buf[..], pos, PointElement(d, pa, srs, num, prec))
  {
    ghost var b0 := buf[..];
    n := Sprintf(buf, pos, Open("Point", srs));
    ghost var b1 := buf[..];
    var k := PutPointBody(buf, pos + n, d, pa, num, prec);
    WroteThenAt(b0, b1, buf[..], pos, pos + n, Open("Point", srs), PointBody(d, pa, num, prec));
    n := n + k;
  }

  /** The part of asgml2_line_buf / asgml3_line_buf after the opening tag; the count written. */
  method PutLineBody(buf: array<char>, pos: nat, d: Dialect, pa: PtArr, num: Num, prec: nat) returns (n: nat)
    requires pa.WellFormed() && pos + |LineBody(d, pa, num, prec)| <= buf.Length
    modifies buf
    ensures n == |LineBody(d, pa, num, prec)| && Wrote(old(buf[..]), buf[..], pos, LineBody(d, pa, num, prec))
  {
    ghost var b0 := buf[..];
    n := Sprintf(buf, pos, LineHead(d));
    n := PutPointArrayMore(buf, pos, n, b0, LineHead(d), pa, d, num, prec);
    n := SprintfMore(buf, pos, n, b0, LineHead(d) + PointArray(pa, d, num, prec), LineTail(d));
  }

  /** asgml2_line_buf / asgml3_line_buf: the line element, with the srsName when given; the count written. */
  method PutLine(buf: array<char>, pos: nat, d: Dialect, pa: PtArr, srs: Option<string>, num: Num, prec: nat) returns (n: nat)
    requires pa.WellFormed() && pos + |LineElement(d, pa, srs, num, prec)| <= buf.Length
    modifies buf
    ensures n == |LineElement(d, pa, srs, num, prec)| && Wrote(old(buf[..]), buf[..], pos, LineElement(d, pa, srs, num, prec))
  {
    ghost var b0 := buf[..];
    n := Sprintf(buf, pos, Open(LineName(d), srs));
    ghost var b1 := buf[..];
    var k := PutLineBody(buf, pos + n, d, pa, num, prec);
    WroteThenAt(b0, b1, buf[..], pos, pos + n, Open(LineName(d), srs), LineBody(d, pa, num, prec));
    n := n + k;
  }

  /** Texts joined in order. */
  function Concat(parts: seq<string>): string
  {
    if parts == [] then "" else Concat(parts[..|parts| - 1]) + parts[|parts| - 1]
  }

  /** The texts of a prefix joined are never longer than all of them joined. */
  lemma {:induction false} ConcatPrefixLen(parts: seq<string>, i: nat)
    requires i <= |parts|
    ensures |Concat(parts[..i])| <= |Concat(parts)|
    decreases |parts|
  {
    if i < |parts| {
      var q := parts[..|parts| - 1];
      assert q[..i] == parts[..i];
      ConcatPrefixLen(q, i);
    } else {
      assert parts[..i] == parts;
    }
  }

  /** Before any text is written, none of the texts is. */
  lemma WroteNothing(b: seq<char>, pos: nat, parts: seq<string>)
    requires pos <= |b|
    ensures |Concat(parts[..0])| == 0 && Wrote(b, b, pos, Concat(parts[..0])) && parts[..|parts|] == parts
  {
    assert parts[..0] == [];
    assert b == b[..pos] + [] + b[pos..];
  }

  /** The first i + 1 texts joined are the first i joined, then text i. */
  lemma ConcatSnoc(parts: seq<string>, i: nat)
    requires i < |parts|
    ensures Concat(parts[..i + 1]) == Concat(parts[..i]) + parts[i]
  {
    assert parts[..i + 1][..i] == parts[..i];
  }

  /** Text i written where the first i texts end: the first i + 1 texts are written. */
  lemma WroteNext(before: seq<char>, mid: seq<char>, after: seq<char>, pos: nat, at: nat, parts: seq<string>, i: nat)
    requires i < |parts| && at == |Concat(parts[..i])|
    requires Wrote(before, mid, pos, Concat(parts[..i])) && Wrote(mid, after, pos + at, parts[i])
    ensures Wrote(before, after, pos, Concat(parts[..i + 1]))
  {
    ConcatSnoc(parts, i);
    WroteThen(before, mid, after, pos, Concat(parts[..i]), parts[i]);
  }

  /** Joining a text and then the rest is that text before the rest joined. */
  lemma {:induction false} ConcatCons(p: string, parts: seq<string>)
    ensures Concat([p] + parts) == p + Concat(parts)
    decreases |parts|
  {
    if parts != [] {
      var q := parts[..|parts| - 1];
      var last := parts[|parts| - 1];
      var whole := [p] + parts;
      assert whole[..|whole| - 1] == [p] + q;
      assert whole[|whole| - 1] == last;
      assert Concat(whole) == Concat([p] + q) + last;
      ConcatCons(p, q);
      assert Concat(parts) == Concat(q) + last;
      Assoc(p, Concat(q), last);
    }
  }

  /** The interior ring pieces, one per ring, in order. */
  function InteriorPieces(d: Dialect, rings: seq<PtArr>, num: Num, prec: nat): (r: seq<string>)
    requires forall i :: 0 <= i < |rings| ==> rings[i].WellFormed()
    ensures |r| == |rings|
  {
    if rings == [] then [] else [InteriorPiece(d, rings[0], num, prec)] + InteriorPieces(d, rings[1..], num, prec)
  }

  /** Piece i is ring i inside its boundary element. */
  lemma {:induction false} InteriorPieceAt(d: Dialect, rings: seq<PtArr>, num: Num, prec: nat, i: nat)
    requires forall j :: 0 <= j < |rings| ==> rings[j].WellFormed()
    requires i < |rings|
    ensures InteriorPieces(d, rings, num, prec)[i] == InteriorPiece(d, rings[i], num, prec)
    decreases i
  {
    if i > 0 {
      InteriorPieceAt(d, rings[1..], num, prec, i - 1);
    }
  }

  /** The interior rings are their pieces joined in order. */
  lemma {:induction false} InteriorsAsConcat(d: Dialect, rings: seq<PtArr>, num: Num, prec: nat)
    requires forall i :: 0 <= i < |rings| ==> rings[i].WellFormed()
    ensures Interiors(d, rings, num, prec) == Concat(InteriorPieces(d, rings, num, prec))
    decreases |rings|
  {
    if rings != [] {
      InteriorsAsConcat(d, rings[1..], num, prec);
      ConcatCons(InteriorPiece(d, rings[0], num, prec), InteriorPieces(d, rings[1..], num, prec));
    }
  }

  /** One interior ring inside its boundary element, written as its piece; the count written. */
  method PutInteriorPiece(buf: array<char>, pos: nat, d: Dialect, ring: PtArr, ghost piece: string, num: Num, prec: nat)
    returns (n: nat)
    requires ring.WellFormed() && piece == InteriorPiece(d, ring, num, prec) && pos + |piece| <= buf.Length
    modifies buf
    ensures n == |piece| && Wrote(old(buf[..]), buf[..], pos, piece)
  {
    ghost var b0 := buf[..];
    n := Sprintf(buf, pos, InnerHead(d));
    n := PutPointArrayMore(buf, pos, n, b0, InnerHead(d), ring, d, num, prec);
    n := SprintfMore(buf, pos, n, b0, InnerHead(d) + PointArray(ring, d, num, prec), InnerTail(d));
  }

  /** Interior ring i, written as the i-th piece; the count written. */
  method PutInteriorText(buf: array<char>, pos: nat, d: Dialect, inner: seq<PtArr>, ghost texts: seq<string>,
                         num: Num, prec: nat, i: nat) returns (n: nat)
    requires forall j :: 0 <= j < |inner| ==> inner[j].WellFormed()
    requires i < |inner| && texts == InteriorPieces(d, inner, num, prec) && pos + |texts[i]| <= buf.Length
    modifies buf
    ensures n == |texts[i]| && Wrote(old(buf[..]), buf[..], pos, texts[i])
  {
    InteriorPieceAt(d, inner, num, prec, i);
    n := PutInteriorPiece(buf, pos, d, inner[i], texts[i], num, prec);
  }

  /** One turn of the interior ring loop: interior ring i after those before it. */
  method PutNextInterior(buf: array<char>, pos: nat, at: nat, ghost before: seq<char>, ghost texts: seq<string>,
                         d: Dialect, inner: seq<PtArr>, num: Num, prec: nat, i: nat) returns (n: nat)
    requires forall j :: 0 <= j < |inner| ==> inner[j].WellFormed()
    requires i < |inner| && texts == InteriorPieces(d, inner, num, prec)
    requires at == |Concat(texts[..i])| && Wrote(before, buf[..], pos, Concat(texts[..i]))
    requires pos + |Concat(texts)| <= buf.Length
    modifies buf
    ensures n == |Concat(texts[..i + 1])| && Wrote(before, buf[..], pos, Concat(texts[..i + 1]))
  {
    ConcatSnoc(texts, i);
    ConcatPrefixLen(texts, i + 1);
    ghost var mid := buf[..];
    var k := PutInteriorText(buf, pos + at, d, inner, texts, num, prec, i);
    WroteNext(before, mid, buf[..], pos, at, texts, i);
    n := at + k;
  }

  /** The interior ring loop, written as the pieces joined in order; the count written. */
  method PutInteriorPieces(buf: array<char>, pos: nat, d: Dialect, inner: seq<PtArr>, ghost texts: seq<string>, num: Num, prec: nat)
    returns (n: nat)
    requires forall j :: 0 <= j < |inner| ==> inner[j].WellFormed()
    requires texts == InteriorPieces(d, inner, num, prec) && pos + |Concat(texts)| <= buf.Length
    modifies buf
    ensures n == |Concat(texts)| && Wrote(old(buf[..]), buf[..], pos, Concat(texts))
  {
    ghost var b0 := buf[..];
    WroteNothing(b0, pos, texts);
    n := 0;
    var i := 0;
    while i < |inner|
      invariant i <= |inner|
      invariant texts[..|inner|] == texts
      invariant n == |Concat(texts[..i])|
      invariant Wrote(b0, buf[..], pos, Concat(texts[..i]))
    {
      n := PutNextInterior(buf, pos, n, b0, texts, d, inner, num, prec, i);
      i := i + 1;
    }
  }

  /**
   * The loop of asgml2_poly_buf / asgml3_poly_buf over rings 1 to
   * nrings - 1, each inside its interior boundary element; the count written.
   */
  method PutInteriors(buf: array<char>, pos: nat, d: Dialect, inner: seq<PtArr>, ghost text: string, num: Num, prec: nat)
    returns (n: nat)
    requires forall j :: 0 <= j < |inner| ==> inner[j].WellFormed()
    requires text == Interiors(d, inner, num, prec) && pos + |text| <= buf.Length
    modifies buf
    ensures n == |text| && Wrote(old(buf[..]), buf[..], pos, text)
  {
    InteriorsAsConcat(d, inner, num, prec);
    n := PutInteriorPieces(buf, pos, d, inner, InteriorPieces(d, inner, num, prec), num, prec);
  }

  /** The exterior ring inside its boundary element; the count written. */
  method PutExterior(buf: array<char>, pos: nat, d: Dialect, ring: PtArr, ghost text: string, num: Num, prec: nat)
    returns (n: nat)
    requires ring.WellFormed() && text == OuterHead(d) + PointArray(ring, d, num, prec) + OuterTail(d)
    requires pos + |text| <= buf.Length
    modifies buf
    ensures n == |text| && Wrote(old(buf[..]), buf[..], pos, text)
  {
    ghost var b0 := buf[..];
    n := Sprintf(buf, pos, OuterHead(d));
    n := PutPointArrayMore(buf, pos, n, b0, OuterHead(d), ring, d, num, prec);
    n := SprintfMore(buf, pos, n, b0, OuterHead(d) + PointArray(ring, d, num, prec), OuterTail(d));
  }

  /** The part of asgml2_poly_buf / asgml3_poly_buf after the opening tag; the count written. */
  method PutPolygonBody(buf: array<char>, pos: nat, d: Dialect, rings: seq<PtArr>, num: Num, prec: nat) returns (n: nat)
    requires |rings| >= 1 && forall j :: 0 <= j < |rings| ==> rings[j].WellFormed()
    requires pos + |PolygonBody(d, rings, num, prec)| <= buf.Length
    modifies buf
    ensures n == |PolygonBody(d, rings, num, prec)| && Wrote(old(buf[..]), buf[..], pos, PolygonBody(d, rings, num, prec))
  {
    ghost var b0 := buf[..];
    ghost var outer := OuterHead(d) + PointArray(rings[0], d, num, prec) + OuterTail(d);
    ghost var inner := Interiors(d, rings[1..], num, prec);
    n := PutExterior(buf, pos, d, rings[0], outer, num, prec);
    ghost var b1 := buf[..];
    var k := PutInteriors(buf, pos + n, d, rings[1..], inner, num, prec);
    WroteThenAt(b0, b1, buf[..], pos, pos + n, outer, inner);
    n := SprintfMore(buf, pos, n + k, b0, outer + inner, Close("Polygon"));
  }

  /** asgml2_poly_buf / asgml3_poly_buf: the polygon element, with the srsName when given; the count written. */
  method PutPolygon(buf: array<char>, pos: nat, d: Dialect, rings: seq<PtArr>, srs: Option<string>, num: Num, prec: nat)
    returns (n: nat)
    requires |rings| >= 1 && forall j :: 0 <= j < |rings| ==> rings[j].WellFormed()
    requires pos + |PolygonElement(d, rings, srs, num, prec)| <= buf.Length
    modifies buf
    ensures n == |PolygonElement(d, rings, srs, num, prec)|
    ensures Wrote(old(buf[..]), buf[..], pos, PolygonElement(d, rings, srs, num, prec))
  {
    ghost var b0 := buf[..];
    n := Sprintf(buf, pos, Open("Polygon", srs));
    ghost var b1 := buf[..];
    var k := PutPolygonBody(buf, pos + n, d, rings, num, prec);
    WroteThenAt(b0, b1, buf[..], pos, pos + n, Open("Polygon", srs), PolygonBody(d, rings, num, prec));
    n := n + k;
  }

  /** pointMember: a point element without srsName inside the member element; the count written. */
  method PutPointMember(buf: array<char>, pos: nat, d: Dialect, pa: PtArr, num: Num, prec: nat) returns (n: nat)
    requires pa.WellFormed() && pos + |Wrap("pointMember", PointElement(d, pa, None, num, prec))| <= buf.Length
    modifies buf
    ensures n == |Wrap("pointMember", PointElement(d, pa, None, num, prec))|
    ensures Wrote(old(buf[..]), buf[..], pos, Wrap("pointMember", PointElement(d, pa, None, num, prec)))
  {
    ghost var b0 := buf[..];
    ghost var element := PointElement(d, pa, None, num, prec);
    n := Sprintf(buf, pos, Tag("pointMember"));
    ghost var b1 := buf[..];
    var k := PutPoint(buf, pos + n, d, pa, None, num, prec);
    WroteThenAt(b0, b1, buf[..], pos, pos + n, Tag("pointMember"), element);
    n := SprintfMore(buf, pos, n + k, b0, Tag("pointMember") + element, Close("pointMember"));
  }

  /** lineStringMember or curveMember: a line element without srsName inside the member element; the count written. */
  method PutLineMember(buf: array<char>, pos: nat, d: Dialect, pa: PtArr, num: Num, prec: nat) returns (n: nat)
    requires pa.WellFormed() && pos + |Wrap(LineMember(d), LineElement(d, pa, None, num, prec))| <= buf.Length
    modifies buf
    ensures n == |Wrap(LineMember(d), LineElement(d, pa, None, num, prec))|
    ensures Wrote(old(buf[..]), buf[..], pos, Wrap(LineMember(d), LineElement(d, pa, None, num, prec)))
  {
    ghost var b0 := buf[..];
    ghost var element := LineElement(d, pa, None, num, prec);
    var name := LineMember(d);
    n := Sprintf(buf, pos, Tag(name));
    ghost var b1 := buf[..];
    var k := PutLine(buf, pos + n, d, pa, None, num, prec);
    WroteThenAt(b0, b1, buf[..], pos, pos + n, Tag(name), element);
    n := SprintfMore(buf, pos, n + k, b0, Tag(name) + element, Close(name));
  }

  /** polygonMember or surfaceMember: a polygon element without srsName inside the member element; the count written. */
  method PutPolygonMember(buf: array<char>, pos: nat, d: Dialect, rings: seq<PtArr>, num: Num, prec: nat) returns (n: nat)
    requires |rings| >= 1 && forall j :: 0 <= j < |rings| ==> rings[j].WellFormed()
    requires pos + |Wrap(PolygonMember(d), PolygonElement(d, rings, None, num, prec))| <= buf.Length
    modifies buf
    ensures n == |Wrap(PolygonMember(d), PolygonElement(d, rings, None, num, prec))|
    ensures Wrote(old(buf[..]), buf[..], pos, Wrap(PolygonMember(d), PolygonElement(d, rings, None, num, prec)))
  {
    ghost var b0 := buf[..];
    ghost var element := PolygonElement(d, rings, None, num, prec);
    var name := PolygonMember(d);
    n := Sprintf(buf, pos, Tag(name));
    ghost var b1 := buf[..];
    var k := PutPolygon(buf, pos + n, d, rings, None, num, prec);
    WroteThenAt(b0, b1, buf[..], pos, pos + n, Tag(name), element);
    n := SprintfMore(buf, pos, n + k, b0, Tag(name) + element, Close(name));
  }

  /**
   * One member of asgml2_inspected_buf / asgml3_inspected_buf: a point,
   * line or polygon inside its member element, a nested collection
   * written as a collection; the count written.
   */
  method PutMember(buf: array<char>, pos: nat, d: Dialect, m: Geom, ghost text: string, num: Num, prec: nat) returns (n: nat)
    requires Shaped(m) && text == Member(d, m, num, prec) && pos + |text| <= buf.Length
    modifies buf
    ensures n == |text| && Wrote(old(buf[..]), buf[..], pos, text)
    decreases m, 6
  {
    if IsPoint(m) {
      n := PutPointMember(buf, pos, d, m.pa.value, num, prec);
    } else if IsLine(m) {
      n := PutLineMember(buf, pos, d, m.pa.value, num, prec);
    } else if IsPolygon(m) {
      n := PutPolygonMember(buf, pos, d, m.rings.value, num, prec);
    } else {
      n := PutCollection(buf, pos, d, m, None, num, prec);
    }
  }

  /** f applied to each of the first n elements of xs, in order. */
  function MapPrefix<A, B>(f: A --> B, xs: seq<A>, n: nat): (r: seq<B>)
    requires n <= |xs| && forall j :: 0 <= j < |xs| ==> f.requires(xs[j])
    ensures |r| == n
  {
    if n == 0 then [] else MapPrefix(f, xs, n - 1) + [f(xs[n - 1])]
  }

  /** Element i of the mapped prefix is f of element i. */
  lemma {:induction false} MapPrefixAt<A, B>(f: A --> B, xs: seq<A>, n: nat, i: nat)
    requires i < n <= |xs| && forall j :: 0 <= j < |xs| ==> f.requires(xs[j])
    ensures MapPrefix(f, xs, n)[i] == f(xs[i])
    decreases n
  {
    if i < n - 1 {
      MapPrefixAt(f, xs, n - 1, i);
    }
  }

  /** The text of a member, as a function of the member. */
  function MemberOf(d: Dialect, num: Num, prec: nat): Geom --> string
  {
    (m: Geom) requires Shaped(m) => Member(d, m, num, prec)
  }

  /** The texts of the first n members, one per member, in order. */
  function MemberTexts(d: Dialect, g: Geom, n: nat, num: Num, prec: nat): (r: seq<string>)
    requires g.Coll? && Shaped(g) && n <= |g.geoms|
    ensures |r| == n
  {
    MapPrefix(MemberOf(d, num, prec), g.geoms, n)
  }

  /** Joining one more text appends it. */
  lemma ConcatAppend(parts: seq<string>, p: string)
    ensures Concat(parts + [p]) == Concat(parts) + p
  {
    assert (parts + [p])[..|parts|] == parts;
  }

  /** Indexing a sequence with one more element appended. */
  lemma IndexAppend(parts: seq<string>, p: string, i: nat)
    requires i <= |parts|
    ensures (parts + [p])[i] == if i < |parts| then parts[i] else p
  {
  }

  /** The i-th member text is the text of member i. */
  lemma MemberTextAt(d: Dialect, g: Geom, n: nat, num: Num, prec: nat, i: nat)
    requires g.Coll? && Shaped(g) && i < n <= |g.geoms|
    ensures MemberTexts(d, g, n, num, prec)[i] == Member(d, g.geoms[i], num, prec)
  {
    MapPrefixAt(MemberOf(d, num, prec), g.geoms, n, i);
  }

  /** Member i of a collection, written as the i-th member text; the count written. */
  method PutMemberText(buf: array<char>, pos: nat, d: Dialect, g: Geom, ghost texts: seq<string>, num: Num, prec: nat, i: nat)
    returns (n: nat)
    requires g.Coll? && Shaped(g) && i < |g.geoms| && texts == MemberTexts(d, g, |g.geoms|, num, prec)
    requires pos + |texts[i]| <= buf.Length
    modifies buf
    ensures n == |texts[i]| && Wrote(old(buf[..]), buf[..], pos, texts[i])
    decreases g, 0
  {
    assert Shaped(g.geoms[i]);
    MemberTextAt(d, g, |g.geoms|, num, prec, i);
    n := PutMember(buf, pos, d, g.geoms[i], texts[i], num, prec);
  }

  /** The first n members of a collection are their member texts joined. */
  lemma {:induction false} MembersAsConcat(d: Dialect, g: Geom, n: nat, num: Num, prec: nat)
    requires g.Coll? && Shaped(g) && n <= |g.geoms|
    ensures Members(d, g, n, num, prec) == Concat(MemberTexts(d, g, n, num, prec))
    decreases n
  {
    if n > 0 {
      MembersAsConcat(d, g, n - 1, num, prec);
      ConcatAppend(MemberTexts(d, g, n - 1, num, prec), Member(d, g.geoms[n - 1], num, prec));
    }
  }

  /** One turn of the member loop: member i after those before it. */
  method PutNextMember(buf: array<char>, pos: nat, at: nat, ghost before: seq<char>, ghost texts: seq<string>,
                       d: Dialect, g: Geom, num: Num, prec: nat, i: nat) returns (n: nat)
    requires g.Coll? && Shaped(g) && i < |g.geoms| && texts == MemberTexts(d, g, |g.geoms|, num, prec)
    requires at == |Concat(texts[..i])| && Wrote(before, buf[..], pos, Concat(texts[..i]))
    requires pos + |Concat(texts)| <= buf.Length
    modifies buf
    ensures n == |Concat(texts[..i + 1])| && Wrote(before, buf[..], pos, Concat(texts[..i + 1]))
    decreases g, 1
  {
    ConcatSnoc(texts, i);
    ConcatPrefixLen(texts, i + 1);
    ghost var mid := buf[..];
    var k := PutMemberText(buf, pos + at, d, g, texts, num, prec, i);
    WroteNext(before, mid, buf[..], pos, at, texts, i);
    n := at + k;
  }

  /** The member loop, written as the member texts joined in order; the count written. */
  method PutMemberTexts(buf: array<char>, pos: nat, d: Dialect, g: Geom, ghost texts: seq<string>, num: Num, prec: nat)
    returns (n: nat)
    requires g.Coll? && Shaped(g) && texts == MemberTexts(d, g, |g.geoms|, num, prec) && pos + |Concat(texts)| <= buf.Length
    modifies buf
    ensures n == |Concat(texts)| && Wrote(old(buf[..]), buf[..], pos, Concat(texts))
    decreases g, 2
  {
    ghost var b0 := buf[..];
    WroteNothing(b0, pos, texts);
    n := 0;
    var i := 0;
    while i < |g.geoms|
      invariant i <= |g.geoms|
      invariant texts[..|g.geoms|] == texts
      invariant n == |Concat(texts[..i])|
      invariant Wrote(b0, buf[..], pos, Concat(texts[..i]))
    {
      n := PutNextMember(buf, pos, n, b0, texts, d, g, num, prec, i);
      i := i + 1;
    }
  }

  /** The loop of asgml2_inspected_buf / asgml3_inspected_buf over the members, in order; the count written. */
  method PutMembers(buf: array<char>, pos: nat, d: Dialect, g: Geom, num: Num, prec: nat) returns (n: nat)
    requires g.Coll? && Shaped(g) && pos + |Members(d, g, |g.geoms|, num, prec)| <= buf.Length
    modifies buf
    ensures n == |Members(d, g, |g.geoms|, num, prec)| && Wrote(old(buf[..]), buf[..], pos, Members(d, g, |g.geoms|, num, prec))
    decreases g, 3
  {
    MembersAsConcat(d, g, |g.geoms|, num, prec);
    n := PutMemberTexts(buf, pos, d, g, MemberTexts(d, g, |g.geoms|, num, prec), num, prec);
  }

  /** What follows a collection's opening tag: the members, then the closing tag; the count written. */
  method PutCollectionBody(buf: array<char>, pos: nat, d: Dialect, g: Geom, num: Num, prec: nat) returns (n: nat)
    requires g.Coll? && Shaped(g) && pos + |CollectionBody(d, g, num, prec)| <= buf.Length
    modifies buf
    ensures n == |CollectionBody(d, g, num, prec)| && Wrote(old(buf[..]), buf[..], pos, CollectionBody(d, g, num, prec))
    decreases g, 4
  {
    ghost var b0 := buf[..];
    n := PutMembers(buf, pos, d, g, num, prec);
    n := SprintfMore(buf, pos, n, b0, Members(d, g, |g.geoms|, num, prec), Close(MultiName(d, TypeOf(g.typ))));
  }

  /** asgml2_inspected_buf / asgml3_inspected_buf: the collection element, with the srsName when given; the count written. */
  method PutCollection(buf: array<char>, pos: nat, d: Dialect, g: Geom, srs: Option<string>, num: Num, prec: nat)
    returns (n: nat)
    requires g.Coll? && Shaped(g) && pos + |Collection(d, g, srs, num, prec)| <= buf.Length
    modifies buf
    ensures n == |Collection(d, g, srs, num, prec)| && Wrote(old(buf[..]), buf[..], pos, Collection(d, g, srs, num, prec))
    decreases g, 5
  {
    ghost var b0 := buf[..];
    var open := Open(MultiName(d, TypeOf(g.typ)), srs);
    n := Sprintf(buf, pos, open);
    ghost var b1 := buf[..];
    var k := PutCollectionBody(buf, pos + n, d, g, num, prec);
    WroteThenAt(b0, b1, buf[..], pos, pos + n, open, CollectionBody(d, g, num, prec));
    n := n + k;
  }

  /** The writer geometry_to_gml2 / geometry_to_gml3 dispatch to, by the kind of geometry; the count written. */
  method PutGeom(buf: array<char>, pos: nat, d: Dialect, g: Geom, srs: Option<string>, num: Num, prec: nat) returns (n: nat)
    requires Shaped(g) && pos + |Open(ElementName(d, g), srs) + Body(d, g, num, prec)| <= buf.Length
    modifies buf
    ensures n == |Open(ElementName(d, g), srs) + Body(d, g, num, prec)|
    ensures Wrote(old(buf[..]), buf[..], pos, Open(ElementName(d, g), srs) + Body(d, g, num, prec))
  {
    if IsPoint(g) {
      n := PutPoint(buf, pos, d, g.pa.value, srs, num, prec);
    } else if IsLine(g) {
      n := PutLine(buf, pos, d, g.pa.value, srs, num, prec);
    } else if IsPolygon(g) {
      n := PutPolygon(buf, pos, d, g.rings.value, srs, num, prec);
    } else {
      n := PutCollection(buf, pos, d, g, srs, num, prec);
    }
  }
  /**
   * asgml2_point, asgml2_line, … asgml3_inspected with the corrected size:
   * a buffer of NeededSize characters, the text written from its start,
   * and the NUL the last sprintf adds right after it. The writers require
   * the text to fit; with AllocatedSize in place of NeededSize, the NUL
   * of EmptyCurveFillsBuffer and the text of WideNumberOverflows fall
   * outside the buffer.
   */
  method WriteGml(d: Dialect, g: Geom, srs: Option<string>, num: Num, prec: nat) returns (out: array<char>)
    requires Shaped(g) && (d.Gml3? || Gml2Accepts(TypeOf(g.typ)))
    requires NumWithin(num, prec, FIXED_DIGS + prec)
    ensures out.Length == NeededSize(d, g, srs, prec)
    ensures var t := Render(d, g, srs, num, prec).value;
      |t| < out.Length && out[..|t|] == t && out[|t|] == '\0'
  {
    NeededSizeFits(d, g, srs, num, prec);
    out := new char[NeededSize(d, g, srs, prec)];
    ghost var before := out[..];
    var n := PutGeom(out, 0, d, g, srs, num, prec);
    Terminate(out, n, before, Open(ElementName(d, g), srs) + Body(d, g, num, prec));
  }

  /** The NUL that sprintf adds after a text written from the start of the buffer. */
  method Terminate(buf: array<char>, n: nat, ghost before: seq<char>, ghost t: string)
    requires Wrote(before, buf[..], 0, t) && n == |t| < buf.Length
    modifies buf
    ensures buf[..|t|] == t && buf[|t|] == '\0'
  {
    assert buf[..n] == t;
    buf[n] := '\0';
    assert buf[..n] == t;
  }
}
