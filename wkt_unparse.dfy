/**
 * The text and hex writers of the older tree (lwgeom/wktunparse.c).
 *
 * A serialized geometry of that tree is a type byte (see OldTypes), an
 * optional 16-byte bounding box, an optional 4-byte SRID, then the body:
 * the ordinates of a point, or a 4-byte count followed by that many points,
 * rings or member geometries. The writers walk these bytes with a cursor and
 * append to one character buffer that doubles when it runs short. The C
 * keeps the buffer, the write position, the dimension count of the geometry
 * being written and the integer-coordinate depth in file-level variables;
 * here they are the fields of an Unparser.
 *
 * Each writer is proved against a function that says what text it appends
 * and where the cursor ends, or None when the bytes run out or a count is
 * negative (the C reads past the end then; the writers require well-formed
 * input).
 */
module WktUnparse {
  import opened Bytes
  import opened Wrappers
  import opened OldTypes
  import HexWkb
  import LwWktIn

  // The integer-coordinate simple types of lwgeom/wktparse.h.
  const POINTTYPEI: nat := 10
  const LINETYPEI: nat := 11
  const POLYGONTYPEI: nat := 12

  /** The longest text one ordinate or integer may take: write_double and write_int ensure 32 characters, one of them for the NUL. */
  const MAX_NUM: nat := 31

  predicate NoNul(t: string)
  {
    forall i :: 0 <= i < |t| ==> t[i] != '\0'
  }

  /** Text without NUL and without parentheses. */
  predicate Plain(t: string)
  {
    forall i :: 0 <= i < |t| ==> t[i] != '\0' && t[i] != '(' && t[i] != ')'
  }

  /**
   * How sprintf spells an ordinate ("%.15g", or "%.8g" for integer
   * coordinates) from the bytes it was read from and whether it was an
   * integer coordinate. Formatting doubles is not part of this model; a
   * spelling is short and holds no NUL and no parenthesis.
   */
  type NumFormat = f: (seq<byte>, bool) -> string | forall b, gi :: |f(b, gi)| <= MAX_NUM && Plain(f(b, gi))
    witness (b: seq<byte>, gi: bool) => "0"

  /** What the writers read: the serialized bytes, the machine's byte order (memcpy copies integers as the machine lays them out) and the spelling of numbers. */
  datatype Src = Src(g: seq<byte>, little: bool, num: NumFormat)

  /** read_int: the int32 in the four bytes at the cursor, in the machine's order. */
  function ReadInt(s: Src, at: nat): (v: int)
    requires at + 4 <= |s.g|
    ensures IsInt32(v)
  {
    Int32Of(HexWkb.Ordered(s.g[at..at + 4], s.little))
  }

  /** The four bytes of an int as the machine lays them out. */
  function NativeInt32(x: int, little: bool): (b: seq<byte>)
    requires IsInt32(x)
    ensures |b| == 4
  {
    HexWkb.Ordered(Int32Bytes(x), little)
  }

  /** Writing back an int just read gives the bytes it was read from. */
  lemma CountVerbatim(s: Src, at: nat)
    requires at + 4 <= |s.g|
    ensures NativeInt32(ReadInt(s, at), s.little) == s.g[at..at + 4]
  {
    var b := s.g[at..at + 4];
    Int32BytesOf(HexWkb.Ordered(b, s.little));
    if !s.little {
      HexWkb.MirroredTwice(b);
    }
  }

  /** The bytes one ordinate takes: 4 for an integer coordinate, 8 for a double. */
  function Width(gi: bool): nat
  {
    if gi then 4 else 8
  }

  /** The bytes k ordinates take. */
  function Span(k: nat, gi: bool): nat
  {
    if gi then 4 * k else 8 * k
  }

  /** What a writer produced: the text appended, the cursor after the bytes read, and the dimension count left set. */
  datatype Out = Out(text: string, next: nat, dims: nat)

  /** Where the body of the geometry at `at` starts: past the type byte, the box and the SRID, as the type byte flags them. */
  function BodyAt(s: Src, at: nat): nat
    requires at < |s.g|
  {
    at + 1 + (if TypeHasBBox(s.g[at]) then 16 else 0) + (if TypeHasSrid(s.g[at]) then 4 else 0)
  }

  /** "SRID=" and the SRID as "%i" writes it, then ";", when the type byte flags an SRID. */
  function SridPrefix(s: Src, at: nat): string
    requires at < |s.g| && BodyAt(s, at) <= |s.g|
  {
    if TypeHasSrid(s.g[at]) then "SRID=" + LwWktIn.SridText(ReadInt(s, BodyAt(s, at) - 4)) + ";" else ""
  }

  // ---- the text form -------------------------------------------------------

  /** The item writer output_collection is handed. */
  datatype Kind = PointItem | RingItem | MultiPointItem | GeomItem

  /** The keyword of a simple type, or nothing for a type the writer does not know. */
  function Keyword(simple: nat): string
  {
    if simple == POINTTYPE || simple == POINTTYPEI then "POINT"
    else if simple == LINETYPE || simple == LINETYPEI then "LINESTRING"
    else if simple == POLYGONTYPE || simple == POLYGONTYPEI then "POLYGON"
    else if simple == MULTIPOINTTYPE then "MULTIPOINT"
    else if simple == MULTILINETYPE then "MULTILINESTRING"
    else if simple == MULTIPOLYGONTYPE then "MULTIPOLYGON"
    else if simple == COLLECTIONTYPE then "GEOMETRYCOLLECTION"
    else ""
  }

  /** Keywords are short and plain. */
  lemma KeywordPlain(simple: nat)
    ensures |Keyword(simple)| <= 18 && Plain(Keyword(simple))
  {
  }

  /** One ordinate of k still to write, followed by a space unless it is the last. */
  function OrdHead(s: Src, at: nat, k: nat, gi: bool): string
    requires at + Width(gi) <= |s.g|
  {
    s.num(s.g[at..at + Width(gi)], gi) + (if k > 1 then " " else "")
  }

  /** The k ordinates from `at` on, separated by spaces. */
  function OrdText(s: Src, at: nat, k: nat, gi: bool): string
    requires at + Span(k, gi) <= |s.g|
    decreases k
  {
    if k == 0 then "" else OrdHead(s, at, k, gi) + OrdText(s, at + Width(gi), k - 1, gi)
  }

  /** output_point: the ordinates of one point of `dims` dimensions. */
  function PointText(s: Src, at: nat, dims: nat, gi: bool): (r: Option<Out>)
    requires at <= |s.g| && 2 <= dims <= 5
    ensures r.Some? ==> at < r.value.next <= |s.g| && r.value.dims == dims
  {
    if at + Span(dims, gi) > |s.g| then None
    else Some(Out(OrdText(s, at, dims, gi), at + Span(dims, gi), dims))
  }

  /** output_single: a point in parentheses. */
  function Single(s: Src, at: nat, dims: nat, gi: bool): (r: Option<Out>)
    requires at <= |s.g| && 2 <= dims <= 5
    ensures r.Some? ==> at < r.value.next <= |s.g| && r.value.dims == dims
  {
    match PointText(s, at, dims, gi)
    case None => None
    case Some(o) => Some(Out("(" + o.text + ")", o.next, o.dims))
  }

  /** output_wkt: SRID prefix, keyword unless suppressed, then the body; the dimension count is taken from the type byte. */
  function WktAt(s: Src, at: nat, sup: bool, gi: bool): (r: Option<Out>)
    requires at <= |s.g|
    ensures r.Some? ==> at < r.value.next <= |s.g| && 2 <= r.value.dims <= 5
    decreases |s.g| - at, 0, 0
  {
    if at == |s.g| || BodyAt(s, at) > |s.g| then None
    else
      var simple := TypeSimple(s.g[at]);
      match Body(s, BodyAt(s, at), simple, TypeNdims(s.g[at]), gi)
      case None => None
      case Some(o) => Some(Out(SridPrefix(s, at) + ((if sup then "" else Keyword(simple)) + o.text), o.next, o.dims))
  }

  /** The simple types output_wkt and output_wkb hand to a collection writer. */
  predicate IsCollType(simple: nat)
  {
    LINETYPE <= simple <= COLLECTIONTYPE || simple == LINETYPEI || simple == POLYGONTYPEI
  }

  /** The types written with integer coordinates. */
  predicate IsIntType(simple: nat)
  {
    simple == POINTTYPEI || simple == LINETYPEI || simple == POLYGONTYPEI
  }

  /** The item writer output_wkt hands output_collection for a type. */
  function CollKind(simple: nat): Kind
  {
    if simple == LINETYPE || simple == LINETYPEI then PointItem
    else if simple == POLYGONTYPE || simple == POLYGONTYPEI then RingItem
    else if simple == MULTIPOINTTYPE then MultiPointItem
    else GeomItem
  }

  /** The multi types suppress their members' keywords; the geometry collection does not. */
  predicate CollSup(simple: nat)
  {
    simple == MULTIPOINTTYPE || simple == MULTILINETYPE || simple == MULTIPOLYGONTYPE
  }

  /** The switch of output_wkt: a point in parentheses, a collection with the writer of the type, or nothing for an unknown type. */
  function Body(s: Src, at: nat, simple: nat, dims: nat, gi: bool): (r: Option<Out>)
    requires at <= |s.g| && 2 <= dims <= 5
    ensures r.Some? ==> at <= r.value.next <= |s.g| && 2 <= r.value.dims <= 5
    decreases |s.g| - at, 1, 0
  {
    if simple == POINTTYPE || simple == POINTTYPEI then Single(s, at, dims, gi || IsIntType(simple))
    else if IsCollType(simple) then Coll(s, at, CollKind(simple), CollSup(simple), gi || IsIntType(simple), dims)
    else Some(Out("", at, dims))
  }

  /** output_collection: " EMPTY" for a count of 0, else the items in parentheses, separated by commas. */
  function Coll(s: Src, at: nat, k: Kind, sup: bool, gi: bool, dims: nat): (r: Option<Out>)
    requires at <= |s.g| && 2 <= dims <= 5
    ensures r.Some? ==> at + 4 <= r.value.next <= |s.g| && 2 <= r.value.dims <= 5
    decreases |s.g| - at, 0, 0
  {
    if at + 4 > |s.g| then None
    else
      var cnt := ReadInt(s, at);
      if cnt < 0 then None
      else if cnt == 0 then Some(Out(" EMPTY", at + 4, dims))
      else
        match Items(s, at + 4, cnt, k, sup, gi, dims)
        case None => None
        case Some(o) => Some(Out("(" + o.text + ")", o.next, o.dims))
  }

  /** What is left of a collection's items with cnt to go: nothing once cnt is 0. */
  function ItemsLeft(s: Src, at: nat, cnt: nat, k: Kind, sup: bool, gi: bool, dims: nat): Option<Out>
    requires at <= |s.g| && 2 <= dims <= 5
  {
    if cnt == 0 then Some(Out("", at, dims)) else Items(s, at, cnt, k, sup, gi, dims)
  }

  /** cnt items one after the other, separated by commas; each item sees the dimension count the one before left. */
  function Items(s: Src, at: nat, cnt: nat, k: Kind, sup: bool, gi: bool, dims: nat): (r: Option<Out>)
    requires at <= |s.g| && 1 <= cnt && 2 <= dims <= 5
    ensures r.Some? ==> at < r.value.next <= |s.g| && 2 <= r.value.dims <= 5
    decreases |s.g| - at, 2, cnt
  {
    match Item(s, at, k, sup, gi, dims)
    case None => None
    case Some(o) =>
      if cnt == 1 then Some(o)
      else
        match Items(s, o.next, cnt - 1, k, sup, gi, o.dims)
        case None => None
        case Some(p) => Some(Out(o.text + ("," + p.text), p.next, p.dims))
  }

  /**
   * One item: a point, a ring (output_collection_2), a member of a
   * multipoint (output_multipoint: a plain or integer point is written as
   * bare ordinates after its type byte, anything else in full), or a member
   * geometry (output_wkt).
   */
  function Item(s: Src, at: nat, k: Kind, sup: bool, gi: bool, dims: nat): (r: Option<Out>)
    requires at <= |s.g| && 2 <= dims <= 5
    ensures r.Some? ==> at < r.value.next <= |s.g| && 2 <= r.value.dims <= 5
    decreases |s.g| - at, 1, 0
  {
    match k
    case PointItem => PointText(s, at, dims, gi)
    case RingItem => Coll(s, at, PointItem, sup, gi, dims)
    case MultiPointItem =>
      if at == |s.g| then None
      else if TypeSimple(s.g[at]) == POINTTYPE then PointText(s, at + 1, dims, gi)
      else if TypeSimple(s.g[at]) == POINTTYPEI then PointText(s, at + 1, dims, true)
      else WktAt(s, at, sup, gi)
    case GeomItem => WktAt(s, at, sup, gi)
  }

  // ---- the hex form ----------------------------------------------------------

  /** The item writer output_wkb_collection is handed. */
  datatype WkbKind = WkbPointItem | WkbRingItem | WkbGeomItem

  /** The type word output_wkb writes: the simple type, with bit 31 set for 3 dimensions and bit 30 for 4. */
  function WkbTypeWord(simple: nat, dims: nat): (w: nat)
    requires simple < 16
    ensures w < TWO32
  {
    if dims == 3 then simple + 0x8000_0000
    else if dims == 4 then simple + 0x4000_0000
    else simple
  }

  /** The int an unsigned 32-bit value becomes when passed to write_wkb_int. */
  function Signed32(v: nat): (x: int)
    requires v < TWO32
    ensures IsInt32(x)
  {
    if v < 0x8000_0000 then v else v - TWO32
  }

  /** output_wkb_point: the raw bytes of one point as hex. */
  function WkbPointHex(s: Src, at: nat, dims: nat, gi: bool): (r: Option<Out>)
    requires at <= |s.g| && 2 <= dims <= 5
    ensures r.Some? ==> at < r.value.next <= |s.g| && r.value.dims == dims
  {
    if at + Span(dims, gi) > |s.g| then None
    else Some(Out(HexWkb.HexEncode(s.g[at..at + Span(dims, gi)]), at + Span(dims, gi), dims))
  }

  /** The endian byte (1 on a little-endian machine) and the type word, as hex. */
  function WkbHead(little: bool, simple: nat, dims: nat): string
    requires simple < 16
  {
    HexWkb.HexEncode([HexWkb.Flag(little)]) + HexWkb.HexEncode(NativeInt32(Signed32(WkbTypeWord(simple, dims)), little))
  }

  /** What output_wkb writes before the body: the SRID prefix as text, then the endian byte and the type word as hex. */
  function WkbPrefix(s: Src, at: nat): string
    requires at < |s.g| && BodyAt(s, at) <= |s.g|
  {
    SridPrefix(s, at) + WkbHead(s.little, TypeSimple(s.g[at]), TypeNdims(s.g[at]))
  }

  /** output_wkb: SRID prefix as text, then the endian byte and the type word as hex, then the body. */
  function WkbAt(s: Src, at: nat, gi: bool): (r: Option<Out>)
    requires at <= |s.g|
    ensures r.Some? ==> at < r.value.next <= |s.g| && 2 <= r.value.dims <= 5
    decreases |s.g| - at, 0, 0
  {
    if at == |s.g| || BodyAt(s, at) > |s.g| then None
    else
      var simple := TypeSimple(s.g[at]);
      var dims := TypeNdims(s.g[at]);
      match WkbBody(s, BodyAt(s, at), simple, dims, gi)
      case None => None
      case Some(o) => Some(Out(WkbPrefix(s, at) + o.text, o.next, o.dims))
  }

  /** The item writer output_wkb hands output_wkb_collection for a type. */
  function WkbCollKind(simple: nat): WkbKind
  {
    if simple == LINETYPE || simple == LINETYPEI then WkbPointItem
    else if simple == POLYGONTYPE || simple == POLYGONTYPEI then WkbRingItem
    else WkbGeomItem
  }

  /** output_wkb unfolded once: the header's fields, then the body. */
  lemma WkbAtParts(s: Src, at: nat, gi: bool)
    requires at <= |s.g| && WkbAt(s, at, gi).Some?
    ensures at < |s.g| && BodyAt(s, at) <= |s.g|
    ensures WkbBody(s, BodyAt(s, at), TypeSimple(s.g[at]), TypeNdims(s.g[at]), gi).Some?
    ensures var b := WkbBody(s, BodyAt(s, at), TypeSimple(s.g[at]), TypeNdims(s.g[at]), gi).value;
      WkbAt(s, at, gi).value == Out(WkbPrefix(s, at) + b.text, b.next, b.dims)
  {
  }

  /** The switch of output_wkb. */
  function WkbBody(s: Src, at: nat, simple: nat, dims: nat, gi: bool): (r: Option<Out>)
    requires at <= |s.g| && 2 <= dims <= 5
    ensures r.Some? ==> at <= r.value.next <= |s.g| && 2 <= r.value.dims <= 5
    decreases |s.g| - at, 1, 0
  {
    if simple == POINTTYPE || simple == POINTTYPEI then WkbPointHex(s, at, dims, gi || IsIntType(simple))
    else if IsCollType(simple) then WkbColl(s, at, WkbCollKind(simple), gi || IsIntType(simple), dims)
    else Some(Out("", at, dims))
  }

  /** output_wkb_collection: the count as the machine lays it out, in hex, then the items. */
  function WkbColl(s: Src, at: nat, k: WkbKind, gi: bool, dims: nat): (r: Option<Out>)
    requires at <= |s.g| && 2 <= dims <= 5
    ensures r.Some? ==> at + 4 <= r.value.next <= |s.g| && 2 <= r.value.dims <= 5
    decreases |s.g| - at, 0, 0
  {
    if at + 4 > |s.g| then None
    else
      var cnt := ReadInt(s, at);
      var head := HexWkb.HexEncode(NativeInt32(cnt, s.little));
      if cnt < 0 then None
      else if cnt == 0 then Some(Out(head, at + 4, dims))
      else
        match WkbItems(s, at + 4, cnt, k, gi, dims)
        case None => None
        case Some(o) => Some(Out(head + o.text, o.next, o.dims))
  }

  /** What is left of a collection's items in hex with cnt to go: nothing once cnt is 0. */
  function WkbItemsLeft(s: Src, at: nat, cnt: nat, k: WkbKind, gi: bool, dims: nat): Option<Out>
    requires at <= |s.g| && 2 <= dims <= 5
  {
    if cnt == 0 then Some(Out("", at, dims)) else WkbItems(s, at, cnt, k, gi, dims)
  }

  /** cnt items one after the other. */
  function WkbItems(s: Src, at: nat, cnt: nat, k: WkbKind, gi: bool, dims: nat): (r: Option<Out>)
    requires at <= |s.g| && 1 <= cnt && 2 <= dims <= 5
    ensures r.Some? ==> at < r.value.next <= |s.g| && 2 <= r.value.dims <= 5
    decreases |s.g| - at, 2, cnt
  {
    match WkbItem(s, at, k, gi, dims)
    case None => None
    case Some(o) =>
      if cnt == 1 then Some(o)
      else
        match WkbItems(s, o.next, cnt - 1, k, gi, o.dims)
        case None => None
        case Some(p) => Some(Out(o.text + p.text, p.next, p.dims))
  }

  /** One item: a point, a ring (output_wkb_collection_2) or a member geometry. */
  function WkbItem(s: Src, at: nat, k: WkbKind, gi: bool, dims: nat): (r: Option<Out>)
    requires at <= |s.g| && 2 <= dims <= 5
    ensures r.Some? ==> at < r.value.next <= |s.g| && 2 <= r.value.dims <= 5
    decreases |s.g| - at, 1, 0
  {
    match k
    case WkbPointItem => WkbPointHex(s, at, dims, gi)
    case WkbRingItem => WkbColl(s, at, WkbPointItem, gi, dims)
    case WkbGeomItem => WkbAt(s, at, gi)
  }

  // ---- the writer ------------------------------------------------------------

  /** The output buffer, the write position, the dimension count in force and the integer-coordinate depth. */
  class Unparser {
    var buf: array<char>
    var pos: nat
    var dims: nat
    var lwgi: nat
    /** The text written so far. */
    ghost var written: string

    /** The buffer starts at 128 characters, the position stays inside it and the characters before it are the text written. */
    ghost predicate Valid()
      reads this, buf
    {
      128 <= buf.Length && pos < buf.Length && buf[..pos] == written
    }

    /** The start of unparse_WKT and unparse_WKB: a buffer of 128 characters, nothing written, no integer coordinates. */
    constructor ()
      ensures Valid() && written == [] && lwgi == 0 && fresh(buf)
    {
      buf := new char[128];
      pos := 0;
      written := [];
      dims := 0;
      lwgi := 0;
    }

    /** ensure: when chars more would reach the end, the buffer doubles, its old contents copied. */
    method Ensure(chars: nat)
      requires Valid() && chars <= buf.Length
      modifies this
      ensures Valid() && pos == old(pos) && written == old(written) && dims == old(dims) && lwgi == old(lwgi)
      ensures pos + chars < buf.Length
      ensures if old(pos) + chars >= old(buf.Length) then fresh(buf) && buf.Length == 2 * old(buf.Length) else buf == old(buf)
      ensures buf[..old(buf.Length)] == old(buf[..])
    {
      if pos + chars >= buf.Length {
        var bigger := new char[2 * buf.Length];
        forall i | 0 <= i < buf.Length {
          bigger[i] := buf[i];
        }
        buf := bigger;
      }
    }

    /** strcpy: the text and a NUL at the write position; the position stays. */
    method CopyAt(text: string)
      requires Valid() && pos + |text| < buf.Length
      modifies buf
      ensures buf[..pos] == old(buf[..pos]) && buf[pos..pos + |text|] == text && buf[pos + |text|] == '\0'
    {
      forall i | 0 <= i < |text| {
        buf[pos + i] := text[i];
      }
      buf[pos + |text|] := '\0';
    }

    /** to_end: the position moves up to the next NUL. */
    method ToEnd(ghost end: nat)
      requires pos <= end < buf.Length && buf[end] == '\0'
      requires forall k :: pos <= k < end ==> buf[k] != '\0'
      modifies this
      ensures pos == end && buf == old(buf) && written == old(written) && dims == old(dims) && lwgi == old(lwgi)
    {
      while buf[pos] != '\0'
        invariant old(pos) <= pos <= end
        invariant buf == old(buf) && written == old(written) && dims == old(dims) && lwgi == old(lwgi)
        decreases end - pos
      {
        pos := pos + 1;
      }
    }

    /** write_str (and the sprintf of write_double and write_int): the text is appended. */
    method WriteStr(text: string)
      requires Valid() && |text| <= MAX_NUM && NoNul(text)
      modifies this, buf
      ensures buf == old(buf) || fresh(buf)
      ensures Valid() && dims == old(dims) && lwgi == old(lwgi)
      ensures written == old(written) + text
    {
      Ensure(32);
      CopyAt(text);
      ghost var start := pos;
      ToEnd(pos + |text|);
      assert buf[..pos] == buf[..start] + buf[start..pos];
      written := written + text;
    }

    /** write_double: the spelling of the ordinate in the bytes given. */
    method WriteDouble(s: Src, bytes: seq<byte>)
      requires Valid()
      modifies this, buf
      ensures buf == old(buf) || fresh(buf)
      ensures Valid() && dims == old(dims) && lwgi == old(lwgi)
      ensures written == old(written) + s.num(bytes, lwgi > 0)
    {
      WriteStr(s.num(bytes, lwgi > 0));
    }

    /** write_int: the int as "%i" spells it. */
    method WriteInt(x: int)
      requires Valid() && IsInt32(x)
      modifies this, buf
      ensures buf == old(buf) || fresh(buf)
      ensures Valid() && dims == old(dims) && lwgi == old(lwgi)
      ensures written == old(written) + LwWktIn.SridText(x)
    {
      IntTextShort(x);
      WriteStr(LwWktIn.SridText(x));
    }

    /** The start of output_wkt and output_wkb: the dimension count from the type byte, the box skipped, the SRID written as text. */
    method WriteHeader(s: Src, at: nat) returns (next: nat)
      requires Valid() && at < |s.g| && BodyAt(s, at) <= |s.g|
      modifies this, buf
      ensures buf == old(buf) || fresh(buf)
      ensures Valid() && lwgi == old(lwgi) && dims == TypeNdims(s.g[at])
      ensures written == old(written) + SridPrefix(s, at) && next == BodyAt(s, at)
    {
      var t := s.g[at];
      dims := TypeNdims(t);
      next := at + 1;
      if TypeHasBBox(t) {
        next := next + 16;
      }
      if TypeHasSrid(t) {
        WriteSrid(ReadInt(s, next));
        next := next + 4;
      }
    }

    /** The SRID part of the header: "SRID=", the SRID, ";". */
    method WriteSrid(x: int)
      requires Valid() && IsInt32(x)
      modifies this, buf
      ensures buf == old(buf) || fresh(buf)
      ensures Valid() && dims == old(dims) && lwgi == old(lwgi)
      ensures written == old(written) + ("SRID=" + LwWktIn.SridText(x) + ";")
    {
      ghost var w0 := written;
      WriteStr("SRID=");
      WriteInt(x);
      WriteStr(";");
      assert written == w0 + ("SRID=" + LwWktIn.SridText(x) + ";");
    }

    // ---- text writers

    /** One turn of output_point's loop: an ordinate, then a space unless it is the last. */
    method WriteOrdinate(s: Src, at: nat, k: nat)
      requires Valid() && 1 <= k && at + Width(lwgi > 0) <= |s.g|
      modifies this, buf
      ensures buf == old(buf) || fresh(buf)
      ensures Valid() && dims == old(dims) && lwgi == old(lwgi)
      ensures written == old(written) + OrdHead(s, at, k, lwgi > 0)
    {
      WriteDouble(s, s.g[at..at + Width(lwgi > 0)]);
      if k > 1 {
        WriteStr(" ");
      }
    }

    /** output_point: the ordinates of one point, separated by spaces. */
    method OutputPoint(s: Src, at: nat) returns (next: nat)
      requires Valid() && 2 <= dims <= 5 && at <= |s.g|
      requires PointText(s, at, dims, lwgi > 0).Some?
      modifies this, buf
      ensures buf == old(buf) || fresh(buf)
      ensures Valid() && dims == old(dims) && lwgi == old(lwgi)
      ensures var o := PointText(s, at, dims, lwgi > 0).value;
        written == old(written) + o.text && next == o.next
    {
      var gi := lwgi > 0;
      ghost var w0 := written;
      next := at;
      var i := 0;
      while i < dims
        invariant 0 <= i <= dims && Valid() && dims == old(dims) && lwgi == old(lwgi)
        invariant buf == old(buf) || fresh(buf)
        invariant next + Span(dims - i, gi) == at + Span(dims, gi)
        invariant written + OrdText(s, next, dims - i, gi) == w0 + OrdText(s, at, dims, gi)
      {
        ghost var before := written;
        WriteOrdinate(s, next, dims - i);
        HexWkb.Assoc3(before, OrdHead(s, next, dims - i, gi), OrdText(s, next + Width(gi), dims - i - 1, gi));
        next := next + Width(gi);
        i := i + 1;
      }
    }

    /** output_single: "(", the point, ")". */
    method OutputSingle(s: Src, at: nat) returns (next: nat)
      requires Valid() && 2 <= dims <= 5 && at <= |s.g|
      requires Single(s, at, dims, lwgi > 0).Some?
      modifies this, buf
      ensures buf == old(buf) || fresh(buf)
      ensures Valid() && dims == old(dims) && lwgi == old(lwgi)
      ensures var o := Single(s, at, dims, lwgi > 0).value;
        written == old(written) + o.text && next == o.next
    {
      ghost var w0 := written;
      WriteStr("(");
      next := OutputPoint(s, at);
      ghost var p := PointText(s, at, dims, lwgi > 0).value;
      WriteStr(")");
      HexWkb.Assoc(w0, "(", p.text, ")");
    }

    /** output_collection: the count, then " EMPTY" or the items in parentheses, separated by commas. */
    method OutputCollection(s: Src, at: nat, k: Kind, sup: bool) returns (next: nat)
      requires Valid() && 2 <= dims <= 5 && at <= |s.g|
      requires Coll(s, at, k, sup, lwgi > 0, dims).Some?
      modifies this, buf
      ensures buf == old(buf) || fresh(buf)
      ensures Valid() && lwgi == old(lwgi)
      ensures var o := Coll(s, at, k, sup, lwgi > 0, old(dims)).value;
        written == old(written) + o.text && next == o.next && dims == o.dims
      decreases |s.g| - at, 0, 0
    {
      var cnt := ReadInt(s, at);
      next := at + 4;
      ghost var c := Coll(s, at, k, sup, lwgi > 0, dims).value;
      if cnt == 0 {
        WriteStr(" EMPTY");
        assert c == Out(" EMPTY", at + 4, dims);
      } else {
        ghost var all := Items(s, next, cnt, k, sup, lwgi > 0, dims).value;
        ghost var w0 := written;
        WriteStr("(");
        next := OutputItems(s, next, cnt, k, sup);
        WriteStr(")");
        HexWkb.Assoc(w0, "(", all.text, ")");
        assert c == Out("(" + all.text + ")", all.next, all.dims);
      }
    }

    /** The loop of output_collection: count items, commas between them. */
    method OutputItems(s: Src, at: nat, count: nat, k: Kind, sup: bool) returns (next: nat)
      requires Valid() && 2 <= dims <= 5 && at <= |s.g| && 1 <= count
      requires Items(s, at, count, k, sup, lwgi > 0, dims).Some?
      modifies this, buf
      ensures buf == old(buf) || fresh(buf)
      ensures Valid() && lwgi == old(lwgi)
      ensures var o := Items(s, at, count, k, sup, lwgi > 0, old(dims)).value;
        written == old(written) + o.text && next == o.next && dims == o.dims
      decreases |s.g| - at, 2, count
    {
      ghost var gi := lwgi > 0;
      ghost var all := Items(s, at, count, k, sup, gi, dims).value;
      ghost var target := written + all.text;
      var cnt := count;
      next := at;
      while cnt > 0
        invariant Valid() && lwgi == old(lwgi) && 2 <= dims <= 5 && at <= next <= |s.g|
        invariant buf == old(buf) || fresh(buf)
        invariant cnt >= 0 && ItemsLeft(s, next, cnt, k, sup, gi, dims).Some?
        invariant var r := ItemsLeft(s, next, cnt, k, sup, gi, dims).value;
          written + r.text == target && r.next == all.next && r.dims == all.dims
        decreases cnt
      {
        next := CollectionTurn(s, next, cnt, k, sup);
        cnt := cnt - 1;
      }
    }

    /** One turn of output_collection's loop: the next item, then a comma when more follow. */
    method CollectionTurn(s: Src, at: nat, cnt: nat, k: Kind, sup: bool) returns (next: nat)
      requires Valid() && 2 <= dims <= 5 && at <= |s.g| && 1 <= cnt
      requires Items(s, at, cnt, k, sup, lwgi > 0, dims).Some?
      modifies this, buf
      ensures buf == old(buf) || fresh(buf)
      ensures Valid() && lwgi == old(lwgi) && 2 <= dims <= 5 && at < next <= |s.g|
      ensures ItemsLeft(s, next, cnt - 1, k, sup, lwgi > 0, dims).Some?
      ensures var o := Items(s, at, cnt, k, sup, lwgi > 0, old(dims)).value;
        var p := ItemsLeft(s, next, cnt - 1, k, sup, lwgi > 0, dims).value;
        written + p.text == old(written) + o.text && p.next == o.next && p.dims == o.dims
      decreases |s.g| - at, 2, 0
    {
      ghost var w0 := written;
      ghost var item := Item(s, at, k, sup, lwgi > 0, dims).value;
      next := OutputItem(s, at, k, sup);
      if cnt > 1 {
        ghost var p := Items(s, next, cnt - 1, k, sup, lwgi > 0, dims).value;
        WriteStr(",");
        HexWkb.Assoc(w0, item.text, ",", p.text);
        HexWkb.Assoc3(item.text, ",", p.text);
      }
    }

    /** output_collection_2: a ring, a collection of points. */
    method OutputCollection2(s: Src, at: nat, sup: bool) returns (next: nat)
      requires Valid() && 2 <= dims <= 5 && at <= |s.g|
      requires Coll(s, at, PointItem, sup, lwgi > 0, dims).Some?
      modifies this, buf
      ensures buf == old(buf) || fresh(buf)
      ensures Valid() && lwgi == old(lwgi)
      ensures var o := Coll(s, at, PointItem, sup, lwgi > 0, old(dims)).value;
        written == old(written) + o.text && next == o.next && dims == o.dims
      decreases |s.g| - at, 0, 1
    {
      next := OutputCollection(s, at, PointItem, sup);
    }

    /** output_multipoint: a plain or integer point as bare ordinates, anything else in full. */
    method OutputMultipoint(s: Src, at: nat, sup: bool) returns (next: nat)
      requires Valid() && 2 <= dims <= 5 && at <= |s.g|
      requires Item(s, at, MultiPointItem, sup, lwgi > 0, dims).Some?
      modifies this, buf
      ensures buf == old(buf) || fresh(buf)
      ensures Valid() && lwgi == old(lwgi)
      ensures var o := Item(s, at, MultiPointItem, sup, lwgi > 0, old(dims)).value;
        written == old(written) + o.text && next == o.next && dims == o.dims
      decreases |s.g| - at, 0, 1
    {
      var simple := TypeSimple(s.g[at]);
      if simple == POINTTYPE {
        next := OutputPoint(s, at + 1);
      } else if simple == POINTTYPEI {
        lwgi := lwgi + 1;
        next := OutputPoint(s, at + 1);
        lwgi := lwgi - 1;
      } else {
        next := OutputWkt(s, at, sup);
      }
    }

    /** The call through output_collection's function pointer. */
    method OutputItem(s: Src, at: nat, k: Kind, sup: bool) returns (next: nat)
      requires Valid() && 2 <= dims <= 5 && at <= |s.g|
      requires Item(s, at, k, sup, lwgi > 0, dims).Some?
      modifies this, buf
      ensures buf == old(buf) || fresh(buf)
      ensures Valid() && lwgi == old(lwgi)
      ensures var o := Item(s, at, k, sup, lwgi > 0, old(dims)).value;
        written == old(written) + o.text && next == o.next && dims == o.dims
      decreases |s.g| - at, 1, 0
    {
      match k
      case PointItem => next := OutputPoint(s, at);
      case RingItem => next := OutputCollection2(s, at, sup);
      case MultiPointItem => next := OutputMultipoint(s, at, sup);
      case GeomItem => next := OutputWkt(s, at, sup);
    }

    /** output_wkt: the header, then the keyword unless suppressed and the body. */
    method OutputWkt(s: Src, at: nat, sup: bool) returns (next: nat)
      requires Valid() && at <= |s.g|
      requires WktAt(s, at, sup, lwgi > 0).Some?
      modifies this, buf
      ensures buf == old(buf) || fresh(buf)
      ensures Valid() && lwgi == old(lwgi)
      ensures var o := WktAt(s, at, sup, lwgi > 0).value;
        written == old(written) + o.text && next == o.next && dims == o.dims
      decreases |s.g| - at, 0, 0
    {
      ghost var w0 := written;
      next := WriteHeader(s, at);
      ghost var o := Body(s, next, TypeSimple(s.g[at]), dims, lwgi > 0).value;
      next := OutputBody(s, next, TypeSimple(s.g[at]), sup);
      HexWkb.Assoc3(w0, SridPrefix(s, at), (if sup then "" else Keyword(TypeSimple(s.g[at]))) + o.text);
    }

    /** The switch of output_wkt: the keyword unless suppressed, then the writer of the type. */
    method OutputBody(s: Src, at: nat, simple: nat, sup: bool) returns (next: nat)
      requires Valid() && 2 <= dims <= 5 && at <= |s.g|
      requires Body(s, at, simple, dims, lwgi > 0).Some?
      modifies this, buf
      ensures buf == old(buf) || fresh(buf)
      ensures Valid() && lwgi == old(lwgi)
      ensures var o := Body(s, at, simple, old(dims), lwgi > 0).value;
        written == old(written) + ((if sup then "" else Keyword(simple)) + o.text) && next == o.next && dims == o.dims
      decreases |s.g| - at, 1, 1
    {
      ghost var w0 := written;
      ghost var o := Body(s, at, simple, dims, lwgi > 0).value;
      WriteKeyword(simple, sup);
      next := OutputTyped(s, at, simple);
      HexWkb.Assoc3(w0, if sup then "" else Keyword(simple), o.text);
    }

    /** The keyword of a type, unless it is suppressed. */
    method WriteKeyword(simple: nat, sup: bool)
      requires Valid()
      modifies this, buf
      ensures buf == old(buf) || fresh(buf)
      ensures Valid() && dims == old(dims) && lwgi == old(lwgi)
      ensures written == old(written) + (if sup then "" else Keyword(simple))
    {
      if !sup && Keyword(simple) != "" {
        KeywordPlain(simple);
        WriteStr(Keyword(simple));
      }
    }

    /** The writer output_wkt picks for a type, with the integer flag raised around the integer types. */
    method OutputTyped(s: Src, at: nat, simple: nat) returns (next: nat)
      requires Valid() && 2 <= dims <= 5 && at <= |s.g|
      requires Body(s, at, simple, dims, lwgi > 0).Some?
      modifies this, buf
      ensures buf == old(buf) || fresh(buf)
      ensures Valid() && lwgi == old(lwgi)
      ensures var o := Body(s, at, simple, old(dims), lwgi > 0).value;
        written == old(written) + o.text && next == o.next && dims == o.dims
      decreases |s.g| - at, 1, 0
    {
      var integer := IsIntType(simple);
      if integer {
        lwgi := lwgi + 1;
      }
      if simple == POINTTYPE || simple == POINTTYPEI {
        next := OutputSingle(s, at);
      } else if IsCollType(simple) {
        next := OutputCollection(s, at, CollKind(simple), CollSup(simple));
      } else {
        next := at;
      }
      if integer {
        lwgi := lwgi - 1;
      }
    }

    // ---- hex writers

    /** The two hex characters of one byte, high nibble first. */
    method PutHex(b: byte)
      requires Valid() && pos + 2 < buf.Length
      modifies this, buf
      ensures buf == old(buf) && Valid() && dims == old(dims) && lwgi == old(lwgi)
      ensures pos == old(pos) + 2 && written == old(written) + HexWkb.DeparseHex(b)
    {
      buf[pos] := HexWkb.HexDigit(b / 16);
      buf[pos + 1] := HexWkb.HexDigit(b % 16);
      assert buf[..pos + 2] == buf[..pos] + HexWkb.DeparseHex(b);
      pos := pos + 2;
      written := written + HexWkb.DeparseHex(b);
    }

    /** write_wkb_bytes: two hex characters per byte, high nibble first. */
    method WriteWkbBytes(bytes: seq<byte>)
      requires Valid() && 2 * |bytes| <= buf.Length
      modifies this, buf
      ensures buf == old(buf) || fresh(buf)
      ensures Valid() && dims == old(dims) && lwgi == old(lwgi)
      ensures written == old(written) + HexWkb.HexEncode(bytes)
    {
      ghost var w0 := written;
      Ensure(2 * |bytes|);
      var i := 0;
      while i < |bytes|
        invariant 0 <= i <= |bytes| && Valid() && dims == old(dims) && lwgi == old(lwgi)
        invariant buf == old(buf) || fresh(buf)
        invariant pos + 2 * (|bytes| - i) < buf.Length
        invariant written == w0 + HexWkb.HexEncode(bytes[..i])
      {
        PutHex(bytes[i]);
        HexWkb.HexEncodeConcat(bytes[..i], [bytes[i]]);
        assert bytes[..i + 1] == bytes[..i] + [bytes[i]];
        i := i + 1;
      }
      assert bytes[..i] == bytes;
    }

    /** write_wkb_int: the bytes of the int as the machine lays them out, as hex. */
    method WriteWkbInt(x: int, little: bool)
      requires Valid() && IsInt32(x)
      modifies this, buf
      ensures buf == old(buf) || fresh(buf)
      ensures Valid() && dims == old(dims) && lwgi == old(lwgi)
      ensures written == old(written) + HexWkb.HexEncode(NativeInt32(x, little))
    {
      WriteWkbBytes(NativeInt32(x, little));
    }

    /** output_wkb_point: the bytes of the point's ordinates as hex. */
    method OutputWkbPoint(s: Src, at: nat) returns (next: nat)
      requires Valid() && 2 <= dims <= 5 && at <= |s.g|
      requires WkbPointHex(s, at, dims, lwgi > 0).Some?
      modifies this, buf
      ensures buf == old(buf) || fresh(buf)
      ensures Valid() && dims == old(dims) && lwgi == old(lwgi)
      ensures var o := WkbPointHex(s, at, dims, lwgi > 0).value;
        written == old(written) + o.text && next == o.next
    {
      var n := Span(dims, lwgi > 0);
      WriteWkbBytes(s.g[at..at + n]);
      next := at + n;
    }

    /** output_wkb_collection: the count as hex, then the items. */
    method OutputWkbCollection(s: Src, at: nat, k: WkbKind) returns (next: nat)
      requires Valid() && 2 <= dims <= 5 && at <= |s.g|
      requires WkbColl(s, at, k, lwgi > 0, dims).Some?
      modifies this, buf
      ensures buf == old(buf) || fresh(buf)
      ensures Valid() && lwgi == old(lwgi)
      ensures var o := WkbColl(s, at, k, lwgi > 0, old(dims)).value;
        written == old(written) + o.text && next == o.next && dims == o.dims
      decreases |s.g| - at, 0, 0
    {
      var cnt := ReadInt(s, at);
      next := at + 4;
      ghost var w0 := written;
      WriteWkbInt(cnt, s.little);
      if cnt > 0 {
        next := OutputWkbItems(s, next, cnt, k);
      }
    }

    /** The loop of output_wkb_collection: count items, one after the other. */
    method OutputWkbItems(s: Src, at: nat, count: nat, k: WkbKind) returns (next: nat)
      requires Valid() && 2 <= dims <= 5 && at <= |s.g| && 1 <= count
      requires WkbItems(s, at, count, k, lwgi > 0, dims).Some?
      modifies this, buf
      ensures buf == old(buf) || fresh(buf)
      ensures Valid() && lwgi == old(lwgi)
      ensures var o := WkbItems(s, at, count, k, lwgi > 0, old(dims)).value;
        written == old(written) + o.text && next == o.next && dims == o.dims
      decreases |s.g| - at, 2, count
    {
      ghost var gi := lwgi > 0;
      ghost var all := WkbItems(s, at, count, k, gi, dims).value;
      ghost var target := written + all.text;
      var cnt := count;
      next := at;
      while cnt > 0
        invariant Valid() && lwgi == old(lwgi) && 2 <= dims <= 5 && at <= next <= |s.g|
        invariant buf == old(buf) || fresh(buf)
        invariant cnt >= 0 && WkbItemsLeft(s, next, cnt, k, gi, dims).Some?
        invariant var r := WkbItemsLeft(s, next, cnt, k, gi, dims).value;
          written + r.text == target && r.next == all.next && r.dims == all.dims
        decreases cnt
      {
        next := WkbCollectionTurn(s, next, cnt, k);
        cnt := cnt - 1;
      }
    }

    /** One turn of output_wkb_collection's loop: the next item. */
    method WkbCollectionTurn(s: Src, at: nat, cnt: nat, k: WkbKind) returns (next: nat)
      requires Valid() && 2 <= dims <= 5 && at <= |s.g| && 1 <= cnt
      requires WkbItems(s, at, cnt, k, lwgi > 0, dims).Some?
      modifies this, buf
      ensures buf == old(buf) || fresh(buf)
      ensures Valid() && lwgi == old(lwgi) && 2 <= dims <= 5 && at < next <= |s.g|
      ensures WkbItemsLeft(s, next, cnt - 1, k, lwgi > 0, dims).Some?
      ensures var o := WkbItems(s, at, cnt, k, lwgi > 0, old(dims)).value;
        var p := WkbItemsLeft(s, next, cnt - 1, k, lwgi > 0, dims).value;
        written + p.text == old(written) + o.text && p.next == o.next && p.dims == o.dims
      decreases |s.g| - at, 2, 0
    {
      ghost var w0 := written;
      ghost var item := WkbItem(s, at, k, lwgi > 0, dims).value;
      next := OutputWkbItem(s, at, k);
      if cnt > 1 {
        ghost var p := WkbItems(s, next, cnt - 1, k, lwgi > 0, dims).value;
        assert written + p.text == w0 + (item.text + p.text);
      }
    }

    /** The call through output_wkb_collection's function pointer. */
    method OutputWkbItem(s: Src, at: nat, k: WkbKind) returns (next: nat)
      requires Valid() && 2 <= dims <= 5 && at <= |s.g|
      requires WkbItem(s, at, k, lwgi > 0, dims).Some?
      modifies this, buf
      ensures buf == old(buf) || fresh(buf)
      ensures Valid() && lwgi == old(lwgi)
      ensures var o := WkbItem(s, at, k, lwgi > 0, old(dims)).value;
        written == old(written) + o.text && next == o.next && dims == o.dims
      decreases |s.g| - at, 1, 0
    {
      match k
      case WkbPointItem => next := OutputWkbPoint(s, at);
      case WkbRingItem => next := OutputWkbCollection(s, at, WkbPointItem);
      case WkbGeomItem => next := OutputWkb(s, at);
    }

    /** output_wkb: the header, the endian byte and the type word as hex, then the body. */
    method OutputWkb(s: Src, at: nat) returns (next: nat)
      requires Valid() && at <= |s.g|
      requires WkbAt(s, at, lwgi > 0).Some?
      modifies this, buf
      ensures buf == old(buf) || fresh(buf)
      ensures Valid() && lwgi == old(lwgi)
      ensures var o := WkbAt(s, at, lwgi > 0).value;
        written == old(written) + o.text && next == o.next && dims == o.dims
      decreases |s.g| - at, 0, 0
    {
      WkbAtParts(s, at, lwgi > 0);
      ghost var w0 := written;
      next := WritePrefix(s, at);
      var simple := TypeSimple(s.g[at]);
      ghost var o := WkbBody(s, next, simple, dims, lwgi > 0).value;
      next := OutputWkbBody(s, next, simple);
      HexWkb.Assoc3(w0, WkbPrefix(s, at), o.text);
    }

    /** The start of output_wkb: the header, then the endian byte and the type word as hex. */
    method WritePrefix(s: Src, at: nat) returns (next: nat)
      requires Valid() && at < |s.g| && BodyAt(s, at) <= |s.g|
      modifies this, buf
      ensures buf == old(buf) || fresh(buf)
      ensures Valid() && lwgi == old(lwgi) && dims == TypeNdims(s.g[at])
      ensures written == old(written) + WkbPrefix(s, at) && next == BodyAt(s, at)
    {
      ghost var w0 := written;
      next := WriteHeader(s, at);
      WriteWkbHead(s.little, TypeSimple(s.g[at]));
      HexWkb.Assoc3(w0, SridPrefix(s, at), WkbHead(s.little, TypeSimple(s.g[at]), dims));
    }

    /** The endian byte and the type word of output_wkb. */
    method WriteWkbHead(little: bool, simple: nat)
      requires Valid() && simple < 16
      modifies this, buf
      ensures buf == old(buf) || fresh(buf)
      ensures Valid() && dims == old(dims) && lwgi == old(lwgi)
      ensures written == old(written) + WkbHead(little, simple, dims)
    {
      ghost var w0 := written;
      WriteWkbBytes([HexWkb.Flag(little)]);
      WriteWkbInt(Signed32(WkbTypeWord(simple, dims)), little);
      HexWkb.Assoc3(w0, HexWkb.HexEncode([HexWkb.Flag(little)]), HexWkb.HexEncode(NativeInt32(Signed32(WkbTypeWord(simple, dims)), little)));
    }

    /** The switch of output_wkb. */
    method OutputWkbBody(s: Src, at: nat, simple: nat) returns (next: nat)
      requires Valid() && 2 <= dims <= 5 && at <= |s.g|
      requires WkbBody(s, at, simple, dims, lwgi > 0).Some?
      modifies this, buf
      ensures buf == old(buf) || fresh(buf)
      ensures Valid() && lwgi == old(lwgi)
      ensures var o := WkbBody(s, at, simple, old(dims), lwgi > 0).value;
        written == old(written) + o.text && next == o.next && dims == o.dims
      decreases |s.g| - at, 1, 0
    {
      var integer := IsIntType(simple);
      if integer {
        lwgi := lwgi + 1;
      }
      if simple == POINTTYPE || simple == POINTTYPEI {
        next := OutputWkbPoint(s, at);
      } else if IsCollType(simple) {
        next := OutputWkbCollection(s, at, WkbCollKind(simple));
      } else {
        next := at;
      }
      if integer {
        lwgi := lwgi - 1;
      }
    }

    /** The end of unparse_WKB: a NUL after the text. */
    method Terminate()
      requires Valid()
      modifies this, buf
      ensures Valid() && written == old(written) && buf[pos] == '\0'
    {
      Ensure(1);
      buf[pos] := '\0';
    }
  }

  /** "%i" of an int32 takes at most 11 characters: a sign and ten digits. */
  lemma IntTextShort(x: int)
    requires IsInt32(x)
    ensures |LwWktIn.SridText(x)| <= 11 && Plain(LwWktIn.SridText(x))
  {
    var n := if x < 0 then -x else x;
    DecimalShort(n, 10);
    LwWktIn.DecimalDigits(n);
  }

  function Pow10(k: nat): nat
  {
    if k == 0 then 1 else 10 * Pow10(k - 1)
  }

  /** A number below 10^k has at most k digits. */
  lemma {:induction false} DecimalShort(n: nat, k: nat)
    requires 1 <= k && n < Pow10(k)
    ensures |LwWktIn.Decimal(n)| <= k
  {
    if n >= 10 {
      assert k >= 2;
      DecimalShort(n / 10, k - 1);
    }
  }

  // ---- what the text form promises ----------------------------------------------

  /**
   * Reading a text left to right from parenthesis depth d: the depth at the
   * end, or None at a NUL or at a ")" with nothing open.
   */
  function Scan(t: string, d: nat): Option<nat>
    decreases |t|
  {
    if t == [] then Some(d)
    else if t[0] == '\0' then None
    else if t[0] == '(' then Scan(t[1..], d + 1)
    else if t[0] == ')' then (if d == 0 then None else Scan(t[1..], d - 1))
    else Scan(t[1..], d)
  }

  /** A text with no NUL whose parentheses all match. */
  predicate WellNested(t: string)
  {
    Scan(t, 0) == Some(0)
  }

  lemma {:induction false} ScanConcat(a: string, b: string, d: nat)
    ensures Scan(a + b, d) == (match Scan(a, d) case None => None case Some(e) => Scan(b, e))
    decreases |a|
  {
    if a == [] {
      assert a + b == b;
    } else {
      assert (a + b)[0] == a[0] && (a + b)[1..] == a[1..] + b;
      if a[0] != '\0' && a[0] != '(' && a[0] != ')' {
        ScanConcat(a[1..], b, d);
      } else if a[0] == '(' {
        ScanConcat(a[1..], b, d + 1);
      } else if a[0] == ')' && d > 0 {
        ScanConcat(a[1..], b, d - 1);
      }
    }
  }

  /** Opening more parentheses before a text changes only the depth it ends at. */
  lemma {:induction false} ScanLift(t: string, d: nat, e: nat, extra: nat)
    requires Scan(t, d) == Some(e)
    ensures Scan(t, d + extra) == Some(e + extra)
    decreases |t|
  {
    if t != [] {
      if t[0] == '(' {
        ScanLift(t[1..], d + 1, e, extra);
      } else if t[0] == ')' {
        ScanLift(t[1..], d - 1, e, extra);
      } else {
        ScanLift(t[1..], d, e, extra);
      }
    }
  }

  lemma {:induction false} ScanPlain(t: string, d: nat)
    requires Plain(t)
    ensures Scan(t, d) == Some(d)
    decreases |t|
  {
    if t != [] {
      assert Plain(t[1..]) by {
        forall i | 0 <= i < |t[1..]| ensures t[1..][i] != '\0' && t[1..][i] != '(' && t[1..][i] != ')' {
          assert t[1..][i] == t[i + 1];
        }
      }
      ScanPlain(t[1..], d);
    }
  }

  lemma NestedConcat(a: string, b: string)
    requires WellNested(a) && WellNested(b)
    ensures WellNested(a + b)
  {
    ScanConcat(a, b, 0);
  }

  lemma NestedWrap(t: string)
    requires WellNested(t)
    ensures WellNested("(" + t + ")")
  {
    var w := "(" + t + ")";
    assert w[0] == '(' && w[1..] == t + ")";
    ScanLift(t, 0, 0, 1);
    ScanConcat(t, ")", 1);
    assert Scan(")", 1) == Some(0);
  }

  lemma NestedPlain(t: string)
    requires Plain(t)
    ensures WellNested(t)
  {
    ScanPlain(t, 0);
  }

  lemma {:induction false} OrdTextPlain(s: Src, at: nat, k: nat, gi: bool)
    requires at + Span(k, gi) <= |s.g|
    ensures Plain(OrdText(s, at, k, gi))
    decreases k
  {
    if k > 0 {
      OrdTextPlain(s, at + Width(gi), k - 1, gi);
      var h := OrdHead(s, at, k, gi);
      var t := OrdText(s, at + Width(gi), k - 1, gi);
      assert Plain(h);
      assert OrdText(s, at, k, gi) == h + t;
      forall i | 0 <= i < |h + t| ensures (h + t)[i] != '\0' && (h + t)[i] != '(' && (h + t)[i] != ')' {
        if i < |h| {
          assert (h + t)[i] == h[i];
        } else {
          assert (h + t)[i] == t[i - |h|];
        }
      }
    }
  }

  lemma SridPrefixNested(s: Src, at: nat)
    requires at < |s.g| && BodyAt(s, at) <= |s.g|
    ensures WellNested(SridPrefix(s, at))
  {
    if TypeHasSrid(s.g[at]) {
      var n := LwWktIn.SridText(ReadInt(s, BodyAt(s, at) - 4));
      IntTextShort(ReadInt(s, BodyAt(s, at) - 4));
      NestedPlain("SRID=");
      NestedPlain(n);
      NestedPlain(";");
      NestedConcat("SRID=", n);
      NestedConcat("SRID=" + n, ";");
    } else {
      NestedPlain("");
    }
  }

  lemma PointTextNested(s: Src, at: nat, dims: nat, gi: bool)
    requires at <= |s.g| && 2 <= dims <= 5 && PointText(s, at, dims, gi).Some?
    ensures WellNested(PointText(s, at, dims, gi).value.text)
  {
    OrdTextPlain(s, at, dims, gi);
    NestedPlain(OrdText(s, at, dims, gi));
  }

  /**
   * Everything output_wkt writes is free of NUL and has its parentheses
   * matched: every "(" it opens it closes, and never a ")" before.
   */
  lemma {:induction false} WktAtNested(s: Src, at: nat, sup: bool, gi: bool)
    requires at <= |s.g| && WktAt(s, at, sup, gi).Some?
    ensures WellNested(WktAt(s, at, sup, gi).value.text)
    decreases |s.g| - at, 0, 0
  {
    var simple := TypeSimple(s.g[at]);
    var kw := if sup then "" else Keyword(simple);
    BodyNested(s, BodyAt(s, at), simple, TypeNdims(s.g[at]), gi);
    SridPrefixNested(s, at);
    KeywordPlain(simple);
    NestedPlain(kw);
    var o := Body(s, BodyAt(s, at), simple, TypeNdims(s.g[at]), gi).value;
    NestedConcat(kw, o.text);
    NestedConcat(SridPrefix(s, at), kw + o.text);
  }

  lemma {:induction false} BodyNested(s: Src, at: nat, simple: nat, dims: nat, gi: bool)
    requires at <= |s.g| && 2 <= dims <= 5 && Body(s, at, simple, dims, gi).Some?
    ensures WellNested(Body(s, at, simple, dims, gi).value.text)
    decreases |s.g| - at, 1, 0
  {
    if simple == POINTTYPE || simple == POINTTYPEI {
      PointTextNested(s, at, dims, gi || IsIntType(simple));
      NestedWrap(PointText(s, at, dims, gi || IsIntType(simple)).value.text);
    } else if IsCollType(simple) {
      CollNested(s, at, CollKind(simple), CollSup(simple), gi || IsIntType(simple), dims);
    } else {
      NestedPlain("");
    }
  }

  lemma {:induction false} CollNested(s: Src, at: nat, k: Kind, sup: bool, gi: bool, dims: nat)
    requires at <= |s.g| && 2 <= dims <= 5 && Coll(s, at, k, sup, gi, dims).Some?
    ensures WellNested(Coll(s, at, k, sup, gi, dims).value.text)
    decreases |s.g| - at, 0, 0
  {
    var cnt := ReadInt(s, at);
    if cnt == 0 {
      NestedPlain(" EMPTY");
    } else {
      ItemsNested(s, at + 4, cnt, k, sup, gi, dims);
      NestedWrap(Items(s, at + 4, cnt, k, sup, gi, dims).value.text);
    }
  }

  lemma {:induction false} ItemsNested(s: Src, at: nat, cnt: nat, k: Kind, sup: bool, gi: bool, dims: nat)
    requires at <= |s.g| && 1 <= cnt && 2 <= dims <= 5 && Items(s, at, cnt, k, sup, gi, dims).Some?
    ensures WellNested(Items(s, at, cnt, k, sup, gi, dims).value.text)
    decreases |s.g| - at, 2, cnt
  {
    ItemNested(s, at, k, sup, gi, dims);
    var o := Item(s, at, k, sup, gi, dims).value;
    if cnt > 1 {
      ItemsNested(s, o.next, cnt - 1, k, sup, gi, o.dims);
      var p := Items(s, o.next, cnt - 1, k, sup, gi, o.dims).value;
      NestedPlain(",");
      NestedConcat(",", p.text);
      NestedConcat(o.text, "," + p.text);
    }
  }

  lemma {:induction false} ItemNested(s: Src, at: nat, k: Kind, sup: bool, gi: bool, dims: nat)
    requires at <= |s.g| && 2 <= dims <= 5 && Item(s, at, k, sup, gi, dims).Some?
    ensures WellNested(Item(s, at, k, sup, gi, dims).value.text)
    decreases |s.g| - at, 1, 0
  {
    match k
    case PointItem => PointTextNested(s, at, dims, gi);
    case RingItem => CollNested(s, at, PointItem, sup, gi, dims);
    case MultiPointItem =>
      if TypeSimple(s.g[at]) == POINTTYPE {
        PointTextNested(s, at + 1, dims, gi);
      } else if TypeSimple(s.g[at]) == POINTTYPEI {
        PointTextNested(s, at + 1, dims, true);
      } else {
        WktAtNested(s, at, sup, gi);
      }
    case GeomItem => WktAtNested(s, at, sup, gi);
  }

  /**
   * A two-dimensional point with no box and no SRID is written as the
   * keyword, then its x and y spelled as numbers, separated by a space, in
   * parentheses.
   */
  lemma PointWkt(s: Src, at: nat)
    requires at < |s.g| && TypeSimple(s.g[at]) == POINTTYPE && TypeNdims(s.g[at]) == 2
    requires !TypeHasBBox(s.g[at]) && !TypeHasSrid(s.g[at]) && at + 17 <= |s.g|
    ensures WktAt(s, at, false, false)
      == Some(Out("POINT(" + s.num(s.g[at + 1..at + 9], false) + " " + s.num(s.g[at + 9..at + 17], false) + ")", at + 17, 2))
  {
    var x := s.num(s.g[at + 1..at + 9], false);
    var y := s.num(s.g[at + 9..at + 17], false);
    assert OrdText(s, at + 17, 0, false) == "";
    assert OrdText(s, at + 9, 1, false) == y;
    assert OrdText(s, at + 1, 2, false) == x + " " + y;
    assert BodyAt(s, at) == at + 1 && SridPrefix(s, at) == "" && Keyword(POINTTYPE) == "POINT";
    assert Body(s, at + 1, POINTTYPE, 2, false) == Some(Out("(" + (x + " " + y) + ")", at + 17, 2));
    assert "" + ("POINT" + ("(" + (x + " " + y) + ")")) == "POINT(" + x + " " + y + ")";
  }

  // ---- what the hex form promises -----------------------------------------------

  /**
   * For a point, a line or a polygon of 2 to 4 dimensions, the type word
   * output_wkb writes is the one the WKB writer of the tree constructs.
   */
  lemma TypeWordAgrees(simple: nat, dims: nat)
    requires POINTTYPE <= simple <= POLYGONTYPE && 2 <= dims <= 4
    ensures WkbTypeWord(simple, dims) == HexWkb.ConstructWkbType(simple as bv32, dims) as int
  {
    if simple == POINTTYPE {
      assert HexWkb.ConstructWkbType(1, 3) == 0x8000_0001 && HexWkb.ConstructWkbType(1, 4) == 0x4000_0001;
    } else if simple == LINETYPE {
      assert HexWkb.ConstructWkbType(2, 3) == 0x8000_0002 && HexWkb.ConstructWkbType(2, 4) == 0x4000_0002;
    } else {
      assert HexWkb.ConstructWkbType(3, 3) == 0x8000_0003 && HexWkb.ConstructWkbType(3, 4) == 0x4000_0003;
    }
  }

  /** An unsigned type word passed through write_wkb_int keeps its four bytes. */
  lemma TypeWordBytes(w: nat, little: bool)
    requires w < TWO32
    ensures NativeInt32(Signed32(w), little) == HexWkb.UInt32In(w, little)
  {
  }

  /** The endian byte, the type word output_wkb writes and the point's bytes verbatim. */
  function PointWkbBytes(s: Src, at: nat): seq<byte>
    requires at < |s.g| && BodyAt(s, at) + 8 * TypeNdims(s.g[at]) <= |s.g|
  {
    [HexWkb.Flag(s.little)] + NativeInt32(Signed32(WkbTypeWord(POINTTYPE, TypeNdims(s.g[at]))), s.little)
      + s.g[BodyAt(s, at)..BodyAt(s, at) + 8 * TypeNdims(s.g[at])]
  }

  /** A point with no SRID comes out of output_wkb as the hex of the endian byte, the type word and the point's bytes verbatim. */
  lemma WkbPointText(s: Src, at: nat)
    requires at < |s.g| && TypeSimple(s.g[at]) == POINTTYPE && !TypeHasSrid(s.g[at])
    requires BodyAt(s, at) + 8 * TypeNdims(s.g[at]) <= |s.g|
    ensures WkbAt(s, at, false).Some? && WkbAt(s, at, false).value.text == HexWkb.HexEncode(PointWkbBytes(s, at))
  {
    var dims := TypeNdims(s.g[at]);
    var b := BodyAt(s, at);
    var flag := [HexWkb.Flag(s.little)];
    var word := NativeInt32(Signed32(WkbTypeWord(POINTTYPE, dims)), s.little);
    var body := s.g[b..b + 8 * dims];
    assert flag + word + body == PointWkbBytes(s, at);
    assert WkbPrefix(s, at) + HexWkb.HexEncode(body) == HexWkb.HexEncode(flag + word + body) by {
      assert SridPrefix(s, at) == "";
      HexWkb.HexEncodeConcat(flag, word);
      HexWkb.HexEncodeConcat(flag + word, body);
    }
    PointHexAt(s, b, dims);
    assert WkbBody(s, b, POINTTYPE, dims, false) == WkbPointHex(s, b, dims, false);
    WkbAtUnfold(s, at, false);
  }

  /** output_wkb_point of a point of double ordinates: the hex of its 8 * dims bytes. */
  lemma PointHexAt(s: Src, at: nat, dims: nat)
    requires 2 <= dims <= 5 && at + 8 * dims <= |s.g|
    ensures WkbPointHex(s, at, dims, false) == Some(Out(HexWkb.HexEncode(s.g[at..at + 8 * dims]), at + 8 * dims, dims))
  {
  }

  /** output_wkb of a body that can be written: the prefix, then the body. */
  lemma WkbAtUnfold(s: Src, at: nat, gi: bool)
    requires at < |s.g| && BodyAt(s, at) <= |s.g|
    requires WkbBody(s, BodyAt(s, at), TypeSimple(s.g[at]), TypeNdims(s.g[at]), gi).Some?
    ensures var o := WkbBody(s, BodyAt(s, at), TypeSimple(s.g[at]), TypeNdims(s.g[at]), gi).value;
      WkbAt(s, at, gi) == Some(Out(WkbPrefix(s, at) + o.text, o.next, o.dims))
  {
  }

  /**
   * A point with no SRID, 2 to 4 dimensions and ordinates ws laid out in
   * the machine's order comes out of output_wkb as the hex of the WKB point
   * the WKB writer builds from the same ordinates.
   */
  lemma WkbPointAgrees(s: Src, at: nat, ws: seq<word>)
    requires at < |s.g| && TypeSimple(s.g[at]) == POINTTYPE && !TypeHasSrid(s.g[at])
    requires TypeNdims(s.g[at]) <= 4 && |ws| == TypeNdims(s.g[at])
    requires BodyAt(s, at) + 8 * |ws| <= |s.g|
    requires s.g[BodyAt(s, at)..BodyAt(s, at) + 8 * |ws|] == HexWkb.WordsIn(ws, s.little)
    ensures WkbAt(s, at, false).Some?
    ensures WkbAt(s, at, false).value.text == HexWkb.HexEncode(HexWkb.WkbPoint(OldPtArr(|ws|, [ws]), s.little))
  {
    var body := s.g[BodyAt(s, at)..BodyAt(s, at) + 8 * |ws|];
    var x := [HexWkb.Flag(s.little)] + NativeInt32(Signed32(WkbTypeWord(POINTTYPE, |ws|)), s.little) + body;
    assert PointWkbBytes(s, at) == x;
    assert HexWkb.WkbPoint(OldPtArr(|ws|, [ws]), s.little) == x by {
      PointBytesAgree(ws, s.little, body);
    }
    WkbPointText(s, at);
  }

  /** The WKB writer's point is the endian byte, the type word output_wkb writes, then the ordinates. */
  lemma PointBytesAgree(ws: seq<word>, little: bool, body: seq<byte>)
    requires 2 <= |ws| <= 4 && body == HexWkb.WordsIn(ws, little)
    ensures HexWkb.WkbPoint(OldPtArr(|ws|, [ws]), little)
      == [HexWkb.Flag(little)] + NativeInt32(Signed32(WkbTypeWord(POINTTYPE, |ws|)), little) + body
  {
    TypeWordAgrees(POINTTYPE, |ws|);
    TypeWordBytes(WkbTypeWord(POINTTYPE, |ws|), little);
  }

  // ---- the entry points ------------------------------------------------------

  /** unparse_WKT: no geometry gives no text; otherwise the text of the geometry after its 4-byte size. */
  method UnparseWkt(geom: Option<seq<byte>>, little: bool, num: NumFormat) returns (r: Option<string>)
    requires geom.Some? ==> 4 <= |geom.value| && WktAt(Src(geom.value, little, num), 4, false, false).Some?
    ensures geom.None? <==> r.None?
    ensures geom.Some? ==> r.value == WktAt(Src(geom.value, little, num), 4, false, false).value.text
    ensures geom.Some? ==> WellNested(r.value)
  {
    if geom.None? {
      return None;
    }
    WktAtNested(Src(geom.value, little, num), 4, false, false);
    var u := new Unparser();
    var _ := u.OutputWkt(Src(geom.value, little, num), 4, false);
    return Some(u.buf[..u.pos]);
  }

  /** unparse_WKB: no geometry gives no text; otherwise the hex of the geometry after its 4-byte size, NUL-terminated. */
  method UnparseWkb(geom: Option<seq<byte>>, little: bool, num: NumFormat) returns (r: Option<string>)
    requires geom.Some? ==> 4 <= |geom.value| && WkbAt(Src(geom.value, little, num), 4, false).Some?
    ensures geom.None? <==> r.None?
    ensures geom.Some? ==> r.value == WkbAt(Src(geom.value, little, num), 4, false).value.text + ['\0']
  {
    if geom.None? {
      return None;
    }
    var u := new Unparser();
    var _ := u.OutputWkb(Src(geom.value, little, num), 4);
    u.Terminate();
    assert u.buf[..u.pos + 1] == u.buf[..u.pos] + [u.buf[u.pos]];
    return Some(u.buf[..u.pos + 1]);
  }
}
