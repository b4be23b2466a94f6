/**
 * The building rules the well-known-text parser applies as it reduces its
 * grammar (liblwgeom/lwin_wkt.c): reading the SRID prefix, reading a
 * dimensionality token ("Z", "M", "ZM"), building coordinates and point
 * arrays, and constructing points, lines, circular strings, multipoints
 * and collections with the point-count and dimension checks.
 *
 * Errors are reported through the parser's global result: an error code
 * and the message the code indexes. That global is the ParserResult
 * object here, and each building step that can report takes it and
 * modifies it.
 */
module LwWktIn {
  import opened Bytes
  import opened Wrappers
  import opened PointArrays
  import opened LwTypes
  import LwPoint
  import LwGeom

  // ---- error codes and the global parse result ------------------------------------

  /** The parser's error messages, indexed by error code. */
  const MESSAGES: seq<string> := [
    "",
    "geometry requires more points",
    "geometry must have an odd number of points",
    "geometry contains non-closed rings",
    "can not mix dimensionality in a geometry",
    "parse error - invalid geometry",
    "invalid WKB type",
    "incontinuous compound curve",
    "triangle must have exactly 4 points",
    "unknown parse error",
    "geometry has too many points"
  ]

  const PARSER_ERROR_MOREPOINTS: nat := 1
  const PARSER_ERROR_ODDPOINTS: nat := 2
  const PARSER_ERROR_MIXDIMS: nat := 4
  const PARSER_ERROR_OTHER: nat := 9
  const PARSER_ERROR_LESSPOINTS: nat := 10

  /** The parser check flags: PARSER_CHECK_MINPOINTS is bit 1, PARSER_CHECK_ODD bit 2. */
  predicate CheckMinPoints(flags: nat) { flags % 2 == 1 }
  predicate CheckOdd(flags: nat) { flags / 2 % 2 == 1 }

  /** global_parser_result: the error code and message, the check flags, and the parsed geometry. */
  class ParserResult {
    var errcode: nat
    var message: string
    var checkFlags: nat
    var geom: Option<Geom>

    constructor (flags: nat)
      ensures errcode == 0 && message == "" && checkFlags == flags && geom.None?
    {
      errcode, message, checkFlags, geom := 0, "", flags, None;
    }

    /** SET_PARSER_ERROR: the code and the message it indexes. */
    method SetError(code: nat)
      requires code < |MESSAGES|
      modifies this
      ensures errcode == code && message == MESSAGES[code]
      ensures checkFlags == old(checkFlags) && geom == old(geom)
    {
      errcode, message := code, MESSAGES[code];
    }
  }

  // ---- the SRID prefix -------------------------------------------------------------

  const LONG_MAX: int := 0x7FFF_FFFF_FFFF_FFFF
  const LONG_MIN: int := -0x8000_0000_0000_0000

  predicate IsSpace(c: char)
  {
    c == ' ' || c == '\t' || c == '\n' || c == '\U{B}' || c == '\U{C}' || c == '\r'
  }

  predicate IsDigit(c: char) { '0' <= c <= '9' }

  function DigitValue(c: char): nat
    requires IsDigit(c)
  {
    c as int - '0' as int
  }

  function DigitChar(d: nat): (c: char)
    requires d < 10
    ensures IsDigit(c) && DigitValue(c) == d
  {
    ('0' as int + d) as char
  }

  predicate AllDigits(s: string)
  {
    forall i :: 0 <= i < |s| ==> IsDigit(s[i])
  }

  /** The value of a run of decimal digits, most significant first. */
  function DecimalValue(s: string): nat
    requires AllDigits(s)
  {
    if s == [] then 0 else DecimalValue(s[..|s| - 1]) * 10 + DigitValue(s[|s| - 1])
  }

  /** The end of the white space that starts at i. */
  function SpaceEnd(s: string, i: nat): (j: nat)
    requires i <= |s|
    ensures i <= j <= |s| && (j < |s| ==> !IsSpace(s[j]))
    ensures forall k :: i <= k < j ==> IsSpace(s[k])
    decreases |s| - i
  {
    if i < |s| && IsSpace(s[i]) then SpaceEnd(s, i + 1) else i
  }

  /** The end of the run of digits that starts at i. */
  function DigitEnd(s: string, i: nat): (j: nat)
    requires i <= |s|
    ensures i <= j <= |s| && (j < |s| ==> !IsDigit(s[j]))
    ensures forall k :: i <= k < j ==> IsDigit(s[k])
    decreases |s| - i
  {
    if i < |s| && IsDigit(s[i]) then DigitEnd(s, i + 1) else i
  }

  /** A value held in a C long: out-of-range values saturate, as strtol's do. */
  function Clamp(v: int): (r: int)
    ensures LONG_MIN <= r <= LONG_MAX
    ensures LONG_MIN <= v <= LONG_MAX ==> r == v
  {
    if v > LONG_MAX then LONG_MAX else if v < LONG_MIN then LONG_MIN else v
  }

  /**
   * strtol in base 10: leading white space, an optional sign, then the
   * longest run of digits; no digits reads as 0, and a value beyond a
   * long saturates.
   */
  function Strtol(s: string): (r: int)
    ensures LONG_MIN <= r <= LONG_MAX
  {
    var i := SpaceEnd(s, 0);
    var neg := i < |s| && s[i] == '-';
    var j := if i < |s| && (s[i] == '-' || s[i] == '+') then i + 1 else i;
    var k := DigitEnd(s, j);
    assert forall m :: 0 <= m < k - j ==> s[j..k][m] == s[j + m];
    if k == j then 0
    else Clamp(if neg then -(DecimalValue(s[j..k]) as int) else DecimalValue(s[j..k]))
  }

  /** The (int) cast of a long: the low 32 bits, read as two's complement. */
  function CastToInt(l: int): (r: int)
    ensures IsInt32(r)
    ensures IsInt32(l) ==> r == l
  {
    var u := l % TWO32;
    if u >= 0x8000_0000 then u - TWO32 else u
  }

  /**
   * wkt_lexer_read_srid: 0 without a token; otherwise the integer strtol
   * reads after the five characters "SRID=", cast to int. The lexer only
   * passes tokens that start with "SRID=".
   */
  function ReadSrid(token: Option<string>): (r: int)
    requires token.Some? ==> |token.value| >= 5
    ensures IsInt32(r) && (token.None? ==> r == 0)
  {
    if token.None? then 0 else CastToInt(Strtol(token.value[5..]))
  }

  /** The decimal digits of n, most significant first, without leading zeros. */
  function Decimal(n: nat): string
  {
    if n < 10 then [DigitChar(n)] else Decimal(n / 10) + [DigitChar(n % 10)]
  }

  /** A minus sign, or nothing. */
  function Sign(neg: bool): string
  {
    if neg then "-" else ""
  }

  /** The SRID as written after "SRID=": a minus sign for negatives, then the digits. */
  function SridText(srid: int): string
  {
    Sign(srid < 0) + Decimal(if srid < 0 then -srid else srid)
  }

  /** Decimal writes a non-empty run of digits whose value is n. */
  lemma {:induction false} DecimalDigits(n: nat)
    ensures |Decimal(n)| >= 1 && AllDigits(Decimal(n)) && DecimalValue(Decimal(n)) == n
    decreases n
  {
    if n >= 10 {
      DecimalDigits(n / 10);
      var d := Decimal(n / 10);
      var s := d + [DigitChar(n % 10)];
      assert s[..|s| - 1] == d;
    }
  }

  /** strtol on a string that starts with an optional minus sign and a run of digits from j to e. */
  lemma StrtolOfRun(s: string, neg: bool, j: nat, e: nat)
    requires j == (if neg then 1 else 0) && j < e <= |s|
    requires neg ==> s[0] == '-'
    requires AllDigits(s[j..e])
    requires e == |s| || !IsDigit(s[e])
    ensures Strtol(s) == Clamp(if neg then -(DecimalValue(s[j..e]) as int) else DecimalValue(s[j..e]))
  {
    assert forall k :: j <= k < e ==> s[k] == s[j..e][k - j];
    assert !IsSpace(s[0]) by {
      if !neg {
        assert s[0] == s[j..e][0];
      }
    }
    assert SpaceEnd(s, 0) == 0;
    assert DigitEnd(s, j) == e;
  }

  /** strtol reads back the digits of n written after an optional minus sign, whatever follows them. */
  lemma StrtolDecimal(n: nat, neg: bool, rest: string)
    requires rest == [] || !IsDigit(rest[0])
    ensures Strtol(Sign(neg) + Decimal(n) + rest) == Clamp(if neg then -(n as int) else n)
  {
    DecimalDigits(n);
    var d := Decimal(n);
    var s := Sign(neg) + d + rest;
    var j := |Sign(neg)|;
    var e := j + |d|;
    assert s[j..e] == d;
    assert e < |s| ==> s[e] == rest[0];
    assert neg ==> s[0] == '-';
    StrtolOfRun(s, neg, j, e);
  }

  /** What follows "SRID=" and precedes the ";" is what strtol reads, with the ";". */
  lemma ReadSridOfToken(text: string)
    ensures ReadSrid(Some("SRID=" + text + ";")) == CastToInt(Strtol(text + ";"))
  {
    assert ("SRID=" + text + ";")[5..] == text + ";";
  }

  /**
   * Reading an SRID token gives back every int SRID written after
   * "SRID=", and the token ";" that ends it is not read.
   */
  lemma ReadSridOfText(srid: int)
    requires IsInt32(srid)
    ensures ReadSrid(Some("SRID=" + SridText(srid) + ";")) == srid
  {
    ReadSridOfToken(SridText(srid));
    StrtolDecimal(if srid < 0 then -srid else srid, srid < 0, ";");
  }

  /** The cast to int keeps only the low 32 bits: SRIDs that differ by 2^32 read the same. */
  lemma ReadSridWraps(n: nat)
    requires n + TWO32 <= LONG_MAX
    ensures ReadSrid(Some("SRID=" + SridText(n + TWO32) + ";")) == ReadSrid(Some("SRID=" + SridText(n) + ";"))
  {
    ReadSridOfToken(SridText(n));
    ReadSridOfToken(SridText(n + TWO32));
    StrtolDecimal(n, false, ";");
    StrtolDecimal(n + TWO32, false, ";");
    CastToIntWraps(n);
  }

  /** Values of a long that differ by 2^32 cast to the same int. */
  /** Digits alone, with no sign and nothing after them, read as their value clamped to a long. */
  lemma StrtolOfDecimal(n: nat)
    ensures Strtol(Decimal(n)) == Clamp(n)
  {
    StrtolDecimal(n, false, []);
    assert Sign(false) + Decimal(n) + [] == Decimal(n);
  }

  lemma CastToIntWraps(l: int)
    ensures CastToInt(l + TWO32) == CastToInt(l)
  {
    assert TWO32 == 0x1_0000_0000;
    assert (l + 0x1_0000_0000) % 0x1_0000_0000 == l % 0x1_0000_0000;
  }

  // ---- dimensionality tokens -------------------------------------------------------

  /** The Z and M flags of a parsed coordinate or dimensionality token. */
  datatype DimFlags = DimFlags(z: bool, m: bool)

  const NO_FLAGS: DimFlags := DimFlags(false, false)

  function FlagsNDims(f: DimFlags): nat { NDims(f.z, f.m) }

  predicate HasEither(s: string, a: char, b: char)
  {
    exists i :: 0 <= i < |s| && (s[i] == a || s[i] == b)
  }

  /** The flags a dimensionality token sets: Z for any 'Z' or 'z' in it, M for any 'M' or 'm'. */
  function DimsOf(token: Option<string>): DimFlags
  {
    if token.None? then NO_FLAGS
    else DimFlags(HasEither(token.value, 'Z', 'z'), HasEither(token.value, 'M', 'm'))
  }

  /** wkt_dimensionality: scan the token, setting Z and M as their letters appear. */
  method WktDimensionality(token: Option<string>) returns (f: DimFlags)
    ensures f == DimsOf(token)
  {
    f := NO_FLAGS;
    if token.None? {
      return;
    }
    var s := token.value;
    var i := 0;
    while i < |s|
      invariant 0 <= i <= |s|
      invariant f.z <==> exists k :: 0 <= k < i && (s[k] == 'Z' || s[k] == 'z')
      invariant f.m <==> exists k :: 0 <= k < i && (s[k] == 'M' || s[k] == 'm')
    {
      if s[i] == 'Z' || s[i] == 'z' {
        f := f.(z := true);
      }
      if s[i] == 'M' || s[i] == 'm' {
        f := f.(m := true);
      }
      i := i + 1;
    }
  }

  /** The tokens the lexer produces read as their letters say, in either case; no token, no flags. */
  lemma DimsOfTokens()
    ensures DimsOf(None) == NO_FLAGS
    ensures DimsOf(Some("Z")) == DimsOf(Some("z")) == DimFlags(true, false)
    ensures DimsOf(Some("M")) == DimsOf(Some("m")) == DimFlags(false, true)
    ensures DimsOf(Some("ZM")) == DimsOf(Some("zm")) == DimFlags(true, true)
  {
    assert "Z"[0] == 'Z' && "z"[0] == 'z' && "M"[0] == 'M' && "m"[0] == 'm';
    assert "ZM"[0] == 'Z' && "ZM"[1] == 'M' && "zm"[0] == 'z' && "zm"[1] == 'm';
  }

  // ---- coordinates -----------------------------------------------------------------

  /** A parsed coordinate: its flags and four ordinates (absent ones hold 0.0). */
  datatype Coord = Coord(flags: DimFlags, x: word, y: word, z: word, m: word)

  /** wkt_parser_coord_2: x and y, no Z or M. */
  function Coord2(c1: word, c2: word): (p: Coord)
    ensures FromParser(p) && FlagsNDims(p.flags) == 2 && Ordinates(p) == [c1, c2, ZERO, ZERO]
  {
    Coord(NO_FLAGS, c1, c2, ZERO, ZERO)
  }

  /** wkt_parser_coord_3: three ordinates, flagged Z (an XYM coordinate is fixed later). */
  function Coord3(c1: word, c2: word, c3: word): (p: Coord)
    ensures FromParser(p) && FlagsNDims(p.flags) == 3 && Ordinates(p) == [c1, c2, c3, ZERO]
  {
    Coord(DimFlags(true, false), c1, c2, c3, ZERO)
  }

  /** wkt_parser_coord_4: four ordinates, flagged Z and M. */
  function Coord4(c1: word, c2: word, c3: word, c4: word): (p: Coord)
    ensures FromParser(p) && FlagsNDims(p.flags) == 4 && Ordinates(p) == [c1, c2, c3, c4]
  {
    Coord(DimFlags(true, true), c1, c2, c3, c4)
  }

  /** The ordinates of a coordinate, in the order they were written. */
  function Ordinates(p: Coord): seq<word> { [p.x, p.y, p.z, p.m] }

  /** What the coordinate constructors build: never M without Z. */
  predicate FromParser(p: Coord) { p.flags.m ==> p.flags.z }

  /**
   * The point wkt_parser_ptarray_add_coord hands on: x and y, z when the
   * array has Z, m when it has M, and for an XYM array m taken from the
   * third ordinate. Ordinates the array does not hold are 0.0.
   */
  function ToPoint4(p: Coord, hasz: bool, hasm: bool): Point4
  {
    Point4(p.x, p.y, if hasz then p.z else ZERO, if hasm then (if hasz then p.m else p.z) else ZERO)
  }

  /**
   * A coordinate stored in an array with as many dimensions as it has
   * keeps its ordinates in the order written: XYM arrays take the third
   * ordinate as m, as the parser reads XYM and XYZ alike.
   */
  lemma StoredInOrder(p: Coord, hasz: bool, hasm: bool)
    requires FromParser(p) && FlagsNDims(p.flags) == NDims(hasz, hasm)
    ensures Store(ToPoint4(p, hasz, hasm), hasz, hasm) == Ordinates(p)[..NDims(hasz, hasm)]
  {
  }

  // ---- point arrays ----------------------------------------------------------------

  /** A point array's flags and points, as a value. */
  ghost function ValueOf(pa: PointArray): PtArr
    reads pa, pa.slots
    requires pa.Valid()
  {
    PtArr(pa.hasz, pa.hasm, pa.Contents())
  }

  /** A possibly missing point array as a value: NULL is None. */
  ghost function Input(pa: PointArray?): Option<PtArr>
    reads if pa == null then {} else {pa, pa.slots}
    requires pa != null ==> pa.Valid()
  {
    if pa == null then None else Some(ValueOf(pa))
  }

  /**
   * wkt_pointarray_dimensionality on a value: no flags keeps the array; a
   * different number of dimensions fails; otherwise the array takes the
   * requested Z and M.
   */
  function Adjusted(pa: PtArr, f: DimFlags): Option<PtArr>
  {
    if f == NO_FLAGS then Some(pa)
    else if NDims(pa.hasz, pa.hasm) != FlagsNDims(f) then None
    else Some(PtArr(f.z, f.m, pa.points))
  }

  /** The array after the dimensionality step: adjusted when it succeeds, unchanged otherwise. */
  function AfterDims(pa: PtArr, f: DimFlags): PtArr
  {
    if Adjusted(pa, f).Some? then Adjusted(pa, f).value else pa
  }

  /**
   * The dimensionality step succeeds exactly when no flags were given or
   * the counts agree; it keeps the points and their number of ordinates,
   * and an array read as XYZ with an "M" token becomes XYM.
   */
  lemma AdjustedMeaning(pa: PtArr, f: DimFlags)
    ensures Adjusted(pa, f).Some? <==> (f == NO_FLAGS || NDims(pa.hasz, pa.hasm) == FlagsNDims(f))
    ensures Adjusted(pa, f).Some? ==>
      var q := Adjusted(pa, f).value;
      q.points == pa.points && NDims(q.hasz, q.hasm) == NDims(pa.hasz, pa.hasm)
      && (pa.WellFormed() ==> q.WellFormed())
      && (f != NO_FLAGS ==> q.hasz == f.z && q.hasm == f.m)
    ensures pa.hasz && !pa.hasm && f == DimFlags(false, true) ==>
      Adjusted(pa, f) == Some(PtArr(false, true, pa.points))
  {
  }

  /** wkt_pointarray_dimensionality: sets the array's Z and M in place when the counts agree. */
  method SetDimensionality(pa: PointArray?, f: DimFlags) returns (ok: bool)
    requires pa != null ==> pa.Valid()
    modifies pa
    ensures pa == null ==> ok
    ensures pa != null ==> pa.Valid() && pa.slots == old(pa.slots) && pa.npoints == old(pa.npoints)
    ensures pa != null ==> (ok <==> Adjusted(old(ValueOf(pa)), f).Some?)
    ensures pa != null ==> ValueOf(pa) == AfterDims(old(ValueOf(pa)), f)
  {
    if f == NO_FLAGS || pa == null {
      return true;
    }
    if NDims(pa.hasz, pa.hasm) != FlagsNDims(f) {
      return false;
    }
    pa.hasz, pa.hasm := f.z, f.m;
    return true;
  }

  /**
   * wkt_parser_ptarray_add_coord. No array, no action. A coordinate with
   * another number of dimensions than the array reports MIXDIMS and
   * leaves the array as it was; otherwise its point is appended (the
   * appending call, ptarray_add_point, is taken to append as
   * ptarray_append_point does with repeated points allowed).
   */
  method AddCoord(res: ParserResult, pa: PointArray?, p: Coord)
    requires pa != null ==> pa.Valid()
    modifies res, pa, if pa == null then {} else {pa.slots}
    ensures pa == null ==> unchanged(res)
    ensures pa != null ==> pa.Valid() && pa.hasz == old(pa.hasz) && pa.hasm == old(pa.hasm)
    ensures pa != null ==> pa.slots == old(pa.slots) || fresh(pa.slots)
    ensures pa != null && FlagsNDims(p.flags) != NDims(pa.hasz, pa.hasm) ==>
      pa.Contents() == old(pa.Contents())
      && res.errcode == PARSER_ERROR_MIXDIMS && res.message == MESSAGES[PARSER_ERROR_MIXDIMS]
      && res.checkFlags == old(res.checkFlags) && res.geom == old(res.geom)
    ensures pa != null && FlagsNDims(p.flags) == NDims(pa.hasz, pa.hasm) ==>
      pa.Contents() == old(pa.Contents()) + [Store(ToPoint4(p, pa.hasz, pa.hasm), pa.hasz, pa.hasm)]
      && unchanged(res)
  {
    if pa == null {
      return;
    }
    if FlagsNDims(p.flags) != NDims(pa.hasz, pa.hasm) {
      res.SetError(PARSER_ERROR_MIXDIMS);
      return;
    }
    var ok := pa.AppendPoint(ToPoint4(p, pa.hasz, pa.hasm), true);
  }

  /**
   * wkt_parser_ptarray_new: an empty array with Z when the coordinate has
   * more than two dimensions and M when it has four, holding that one
   * coordinate. The dimensions always agree, so no error is reported. The
   * capacity ptarray_construct_empty reserves is not given by the call and
   * is a parameter here.
   */
  method PtArrayNew(res: ParserResult, p: Coord, room: nat) returns (pa: PointArray)
    modifies res
    ensures fresh(pa) && fresh(pa.slots) && pa.Valid()
    ensures var nd := FlagsNDims(p.flags); pa.hasz == (nd > 2) && pa.hasm == (nd > 3)
    ensures pa.Contents() == [Store(ToPoint4(p, pa.hasz, pa.hasm), pa.hasz, pa.hasm)]
    ensures unchanged(res)
  {
    var nd := FlagsNDims(p.flags);
    pa := new PointArray.ConstructEmpty(nd > 2, nd > 3, room);
    assert NDims(pa.hasz, pa.hasm) == nd;
    AddCoord(res, pa, p);
  }

  // ---- building geometries ---------------------------------------------------------

  /** What a building step does: builds a geometry, or reports an error code. */
  datatype Outcome = Built(g: Geom) | Failed(code: nat)

  /** The building step returned the built geometry, or NULL on an error. */
  predicate Returned(o: Outcome, g: Option<Geom>)
  {
    if o.Built? then g == Some(o.g) else g.None?
  }

  /** Hands back the built geometry, or records the error and hands back NULL. */
  method Report(res: ParserResult, o: Outcome) returns (g: Option<Geom>)
    requires o.Failed? ==> o.code < |MESSAGES|
    modifies res
    ensures Returned(o, g) && res.checkFlags == old(res.checkFlags) && res.geom == old(res.geom)
    ensures o.Failed? ==> res.errcode == o.code && res.message == MESSAGES[o.code]
    ensures o.Built? ==> unchanged(res)
  {
    if o.Failed? {
      res.SetError(o.code);
      return None;
    }
    return Some(o.g);
  }

  /** An empty single geometry of type typ with the token's Z and M, and unknown SRID. */
  function EmptyOf(typ: nat, f: DimFlags): Geom
    requires typ < 16
  {
    Single(MakeTypeFull(f.z, f.m, false, typ, false), SRID_UNKNOWN, None, None)
  }

  /** A single geometry of type typ over the array q, with unknown SRID and no box. */
  function LineOf(typ: nat, q: PtArr): Geom
    requires typ < 16
  {
    Single(MakeTypeFull(q.hasz, q.hasm, false, typ, false), SRID_UNKNOWN, None, Some(q))
  }

  /**
   * wkt_parser_point_new on values: no array builds the empty point;
   * otherwise the dimensionality step must succeed and exactly one point
   * must be there.
   */
  function PointOutcome(pa: Option<PtArr>, f: DimFlags): (o: Outcome)
    ensures o.Failed? ==> o.code in {PARSER_ERROR_MIXDIMS, PARSER_ERROR_LESSPOINTS}
  {
    if pa.None? then Built(LwPoint.ConstructEmpty(SRID_UNKNOWN, f.z, f.m))
    else match Adjusted(pa.value, f)
      case None => Failed(PARSER_ERROR_MIXDIMS)
      case Some(q) =>
        if |q.points| != 1 then Failed(PARSER_ERROR_LESSPOINTS)
        else Built(LwPoint.Construct(SRID_UNKNOWN, None, Some(q)).value)
  }

  /**
   * A point is built exactly when there is no array, or the token agrees
   * with the array and it holds one point; the point built has that one
   * point with the token's Z and M (or the array's without a token), and
   * an empty point has the token's.
   */
  lemma PointOutcomeMeaning(pa: Option<PtArr>, f: DimFlags)
    ensures PointOutcome(pa, f).Built? <==>
      (pa.None? || (Adjusted(pa.value, f).Some? && |pa.value.points| == 1))
    ensures PointOutcome(pa, f).Built? ==>
      var g := PointOutcome(pa, f).g;
      g.Single? && TypeOf(g.typ) == POINTTYPE && g.srid == SRID_UNKNOWN && g.bbox.None?
      && (pa.None? ==> g.pa.None? && TypeHasZ(g.typ) == f.z && TypeHasM(g.typ) == f.m)
      && (pa.Some? ==>
            g.pa.Some? && g.pa.value.points == pa.value.points && |g.pa.value.points| == 1
            && TypeHasZ(g.typ) == (if f == NO_FLAGS then pa.value.hasz else f.z)
            && TypeHasM(g.typ) == (if f == NO_FLAGS then pa.value.hasm else f.m))
  {
  }

  /** wkt_parser_point_new, over the parser's own point array. */
  method PointNew(res: ParserResult, pa: PointArray?, token: Option<string>) returns (g: Option<Geom>)
    requires pa != null ==> pa.Valid()
    modifies res, pa
    ensures pa != null ==> pa.Valid() && ValueOf(pa) == AfterDims(old(ValueOf(pa)), DimsOf(token))
    ensures var o := PointOutcome(old(Input(pa)), DimsOf(token));
      Returned(o, g) && res.checkFlags == old(res.checkFlags) && res.geom == old(res.geom)
      && (o.Failed? ==> res.errcode == o.code && res.message == MESSAGES[o.code])
      && (o.Built? ==> unchanged(res))
  {
    var f := WktDimensionality(token);
    if pa == null {
      return Some(LwPoint.ConstructEmpty(SRID_UNKNOWN, f.z, f.m));
    }
    var ok := SetDimensionality(pa, f);
    var o: Outcome;
    if !ok {
      o := Failed(PARSER_ERROR_MIXDIMS);
    } else if pa.npoints != 1 {
      o := Failed(PARSER_ERROR_LESSPOINTS);
    } else {
      o := Built(LwPoint.Construct(SRID_UNKNOWN, None, Some(PtArr(pa.hasz, pa.hasm, pa.slots[..pa.npoints]))).value);
    }
    g := Report(res, o);
  }

  /** The members lwmpoint_construct makes: one point per point of the array. */
  function PointsOf(q: PtArr): (ps: seq<Geom>)
    ensures |ps| == |q.points|
    ensures forall i :: 0 <= i < |q.points| ==> ps[i].Single? && ps[i].pa == Some(PtArr(q.hasz, q.hasm, [q.points[i]]))
  {
    seq(|q.points|, i requires 0 <= i < |q.points| => LwPoint.Construct(SRID_UNKNOWN, None, Some(PtArr(q.hasz, q.hasm, [q.points[i]]))).value)
  }

  /**
   * wkt_parser_multipoint_new on values: no array builds the empty
   * multipoint; otherwise only the dimensionality step can fail, and any
   * number of points is accepted.
   */
  function MultiPointOutcome(pa: Option<PtArr>, f: DimFlags): (o: Outcome)
    ensures o.Failed? ==> o.code == PARSER_ERROR_MIXDIMS
  {
    if pa.None? then Built(Coll(MakeTypeFull(f.z, f.m, false, MULTIPOINTTYPE, false), SRID_UNKNOWN, None, []))
    else match Adjusted(pa.value, f)
      case None => Failed(PARSER_ERROR_MIXDIMS)
      case Some(q) =>
        Built(Coll(MakeTypeFull(q.hasz, q.hasm, false, MULTIPOINTTYPE, false), SRID_UNKNOWN, None, PointsOf(q)))
  }

  /** A multipoint holds one point per point of the array, in order, and fails only on mixed dimensions. */
  lemma MultiPointOutcomeMeaning(pa: Option<PtArr>, f: DimFlags)
    ensures MultiPointOutcome(pa, f).Built? <==> (pa.None? || Adjusted(pa.value, f).Some?)
    ensures MultiPointOutcome(pa, f).Built? ==>
      var g := MultiPointOutcome(pa, f).g;
      g.Coll? && TypeOf(g.typ) == MULTIPOINTTYPE && g.srid == SRID_UNKNOWN
      && |g.geoms| == (if pa.None? then 0 else |pa.value.points|)
      && (pa.Some? ==> forall i :: 0 <= i < |g.geoms| ==> g.geoms[i].pa.Some? && g.geoms[i].pa.value.points == [pa.value.points[i]])
  {
  }

  /** wkt_parser_multipoint_new, over the parser's own point array. */
  method MultipointNew(res: ParserResult, pa: PointArray?, token: Option<string>) returns (g: Option<Geom>)
    requires pa != null ==> pa.Valid()
    modifies res, pa
    ensures pa != null ==> pa.Valid() && ValueOf(pa) == AfterDims(old(ValueOf(pa)), DimsOf(token))
    ensures var o := MultiPointOutcome(old(Input(pa)), DimsOf(token));
      Returned(o, g) && res.checkFlags == old(res.checkFlags) && res.geom == old(res.geom)
      && (o.Failed? ==> res.errcode == o.code && res.message == MESSAGES[o.code])
      && (o.Built? ==> unchanged(res))
  {
    var f := WktDimensionality(token);
    if pa == null {
      return Some(Coll(MakeTypeFull(f.z, f.m, false, MULTIPOINTTYPE, false), SRID_UNKNOWN, None, []));
    }
    var ok := SetDimensionality(pa, f);
    var o: Outcome;
    if !ok {
      o := Failed(PARSER_ERROR_MIXDIMS);
    } else {
      var q := PtArr(pa.hasz, pa.hasm, pa.slots[..pa.npoints]);
      o := Built(Coll(MakeTypeFull(q.hasz, q.hasm, false, MULTIPOINTTYPE, false), SRID_UNKNOWN, None, PointsOf(q)));
    }
    g := Report(res, o);
  }

  /** Which point counts the odd-points check rejects. */
  datatype OddRule = NoOddCheck | RejectOdd | RejectEven

  predicate OddRejects(rule: OddRule, n: nat)
  {
    match rule
    case NoOddCheck => false
    case RejectOdd => n % 2 == 1
    case RejectEven => n % 2 == 0
  }

  /**
   * The line and circular string constructors on values: no array builds
   * the empty geometry; then the dimensionality step, then (under
   * PARSER_CHECK_MINPOINTS) the minimum point count, then (under
   * PARSER_CHECK_ODD) the odd-points rule.
   */
  function StringOutcome(typ: nat, pa: Option<PtArr>, f: DimFlags, check: nat, minPoints: nat, rule: OddRule): (o: Outcome)
    requires typ < 16
    ensures o.Failed? ==> o.code in {PARSER_ERROR_MIXDIMS, PARSER_ERROR_MOREPOINTS, PARSER_ERROR_ODDPOINTS}
  {
    if pa.None? then Built(EmptyOf(typ, f))
    else match Adjusted(pa.value, f)
      case None => Failed(PARSER_ERROR_MIXDIMS)
      case Some(q) =>
        if CheckMinPoints(check) && |q.points| < minPoints then Failed(PARSER_ERROR_MOREPOINTS)
        else if CheckOdd(check) && OddRejects(rule, |q.points|) then Failed(PARSER_ERROR_ODDPOINTS)
        else Built(LineOf(typ, q))
  }

  /** The shared body of the line and circular string constructors. */
  method StringNew(res: ParserResult, pa: PointArray?, token: Option<string>, typ: nat, minPoints: nat, rule: OddRule)
    returns (g: Option<Geom>)
    requires typ < 16
    requires pa != null ==> pa.Valid()
    modifies res, pa
    ensures pa != null ==> pa.Valid() && ValueOf(pa) == AfterDims(old(ValueOf(pa)), DimsOf(token))
    ensures var o := StringOutcome(typ, old(Input(pa)), DimsOf(token), old(res.checkFlags), minPoints, rule);
      Returned(o, g) && res.checkFlags == old(res.checkFlags) && res.geom == old(res.geom)
      && (o.Failed? ==> res.errcode == o.code && res.message == MESSAGES[o.code])
      && (o.Built? ==> unchanged(res))
  {
    var f := WktDimensionality(token);
    if pa == null {
      return Some(EmptyOf(typ, f));
    }
    var ok := SetDimensionality(pa, f);
    var o: Outcome;
    if !ok {
      o := Failed(PARSER_ERROR_MIXDIMS);
    } else if CheckMinPoints(res.checkFlags) && pa.npoints < minPoints {
      o := Failed(PARSER_ERROR_MOREPOINTS);
    } else if CheckOdd(res.checkFlags) && OddRejects(rule, pa.npoints) {
      o := Failed(PARSER_ERROR_ODDPOINTS);
    } else {
      o := Built(LineOf(typ, PtArr(pa.hasz, pa.hasm, pa.slots[..pa.npoints])));
    }
    g := Report(res, o);
  }

  /** wkt_parser_linestring_new: at least 2 points under PARSER_CHECK_MINPOINTS, no odd-points rule. */
  method LinestringNew(res: ParserResult, pa: PointArray?, token: Option<string>) returns (g: Option<Geom>)
    requires pa != null ==> pa.Valid()
    modifies res, pa
    ensures pa != null ==> pa.Valid() && ValueOf(pa) == AfterDims(old(ValueOf(pa)), DimsOf(token))
    ensures var o := StringOutcome(LINETYPE, old(Input(pa)), DimsOf(token), old(res.checkFlags), 2, NoOddCheck);
      Returned(o, g) && res.checkFlags == old(res.checkFlags) && res.geom == old(res.geom)
      && (o.Failed? ==> res.errcode == o.code && res.message == MESSAGES[o.code])
      && (o.Built? ==> unchanged(res))
  {
    g := StringNew(res, pa, token, LINETYPE, 2, NoOddCheck);
  }

  /**
   * wkt_parser_circularstring_new as written: at least 3 points under
   * PARSER_CHECK_MINPOINTS, and under PARSER_CHECK_ODD an odd number of
   * points is rejected, with the message that the geometry must have an
   * odd number of points.
   */
  method CircularstringNewAsWritten(res: ParserResult, pa: PointArray?, token: Option<string>) returns (g: Option<Geom>)
    requires pa != null ==> pa.Valid()
    modifies res, pa
    ensures pa != null ==> pa.Valid() && ValueOf(pa) == AfterDims(old(ValueOf(pa)), DimsOf(token))
    ensures var o := StringOutcome(CIRCSTRINGTYPE, old(Input(pa)), DimsOf(token), old(res.checkFlags), 3, RejectOdd);
      Returned(o, g) && res.checkFlags == old(res.checkFlags) && res.geom == old(res.geom)
      && (o.Failed? ==> res.errcode == o.code && res.message == MESSAGES[o.code])
      && (o.Built? ==> unchanged(res))
  {
    g := StringNew(res, pa, token, CIRCSTRINGTYPE, 3, RejectOdd);
  }

  /** wkt_parser_circularstring_new with the odd-points rule its message states: an even count is rejected. */
  method CircularstringNew(res: ParserResult, pa: PointArray?, token: Option<string>) returns (g: Option<Geom>)
    requires pa != null ==> pa.Valid()
    modifies res, pa
    ensures pa != null ==> pa.Valid() && ValueOf(pa) == AfterDims(old(ValueOf(pa)), DimsOf(token))
    ensures var o := StringOutcome(CIRCSTRINGTYPE, old(Input(pa)), DimsOf(token), old(res.checkFlags), 3, RejectEven);
      Returned(o, g) && res.checkFlags == old(res.checkFlags) && res.geom == old(res.geom)
      && (o.Failed? ==> res.errcode == o.code && res.message == MESSAGES[o.code])
      && (o.Built? ==> unchanged(res))
  {
    g := StringNew(res, pa, token, CIRCSTRINGTYPE, 3, RejectEven);
  }

  /**
   * A line built under PARSER_CHECK_MINPOINTS has at least two points (or
   * is the empty line); without the check any count is accepted; a token
   * that disagrees with the array is always MIXDIMS.
   */
  lemma LineOutcomeMeaning(pa: Option<PtArr>, f: DimFlags, check: nat)
    ensures var o := StringOutcome(LINETYPE, pa, f, check, 2, NoOddCheck);
      (o.Built? <==> (pa.None? || (Adjusted(pa.value, f).Some? && (CheckMinPoints(check) ==> |pa.value.points| >= 2))))
      && (o.Built? ==>
            o.g.Single? && TypeOf(o.g.typ) == LINETYPE && o.g.srid == SRID_UNKNOWN
            && (pa.Some? ==> o.g.pa.Some? && o.g.pa.value.points == pa.value.points))
      && (pa.Some? && Adjusted(pa.value, f).None? ==> o == Failed(PARSER_ERROR_MIXDIMS))
  {
  }

  /**
   * As written, under PARSER_CHECK_ODD every circular string built from an
   * array has an even number of points, while the message reported on the
   * other branch says it must have an odd number.
   */
  lemma CircOddAsWritten(pa: PtArr, f: DimFlags, check: nat)
    requires CheckOdd(check)
    ensures var o := StringOutcome(CIRCSTRINGTYPE, Some(pa), f, check, 3, RejectOdd);
      o.Built? ==> |pa.points| % 2 == 0
  {
  }

  /**
   * With the rule its message states, under PARSER_CHECK_ODD every
   * circular string built from an array has an odd number of points, and
   * under PARSER_CHECK_MINPOINTS too at least three.
   */
  lemma CircOddFixed(pa: PtArr, f: DimFlags, check: nat)
    ensures var o := StringOutcome(CIRCSTRINGTYPE, Some(pa), f, check, 3, RejectEven);
      (o.Built? && CheckOdd(check) ==> |pa.points| % 2 == 1)
      && (o.Built? && CheckMinPoints(check) ==> |pa.points| >= 3)
      && (o.Built? <==>
            Adjusted(pa, f).Some? && !(CheckMinPoints(check) && |pa.points| < 3)
            && !(CheckOdd(check) && |pa.points| % 2 == 0))
  {
  }

  /**
   * A five-point circular string (two arcs sharing a point), parsed with
   * PARSER_CHECK_ODD, is rejected as written with the message that it
   * must have an odd number of points, and built with the corrected rule.
   */
  lemma FivePointArcRejected(pa: PtArr, check: nat)
    requires |pa.points| == 5 && CheckOdd(check)
    ensures StringOutcome(CIRCSTRINGTYPE, Some(pa), NO_FLAGS, check, 3, RejectOdd) == Failed(PARSER_ERROR_ODDPOINTS)
    ensures MESSAGES[PARSER_ERROR_ODDPOINTS] == "geometry must have an odd number of points"
    ensures StringOutcome(CIRCSTRINGTYPE, Some(pa), NO_FLAGS, check, 3, RejectEven).Built?
  {
  }

  // ---- collections -----------------------------------------------------------------

  /** An empty collection of the given type with the given Z and M and unknown SRID. */
  function EmptyCollection(typ: nat, hasz: bool, hasm: bool): Geom
    requires typ < 16
  {
    Coll(MakeTypeFull(hasz, hasm, false, typ, false), SRID_UNKNOWN, None, [])
  }

  /**
   * wkt_parser_collection_finalize on values: no collection builds the
   * empty collection of the type with the token's Z and M. Otherwise the
   * token's number of dimensions must be the collection's, and for
   * GEOMETRYCOLLECTION its Z and M must be the collection's too; the
   * collection then takes the type, keeping its flags and members.
   */
  function FinalizeOutcome(lwtype: nat, col: Option<Geom>, f: DimFlags): (o: Outcome)
    requires lwtype < 16
    ensures o.Failed? ==> o.code == PARSER_ERROR_MIXDIMS
  {
    if col.None? then Built(EmptyCollection(lwtype, f.z, f.m))
    else
      var c := col.value;
      if FlagsNDims(f) != TypeNDims(c.typ) then Failed(PARSER_ERROR_MIXDIMS)
      else if lwtype == COLLECTIONTYPE && (f.z != TypeHasZ(c.typ) || f.m != TypeHasM(c.typ)) then Failed(PARSER_ERROR_MIXDIMS)
      else Built(LwGeom.WithTyp(c, LwPoint.SetType(c.typ, lwtype)))
  }

  /** wkt_parser_collection_finalize: reports MIXDIMS, or returns the typed collection. */
  method CollectionFinalize(res: ParserResult, lwtype: nat, col: Option<Geom>, token: Option<string>) returns (g: Option<Geom>)
    requires lwtype < 16
    modifies res
    ensures var o := FinalizeOutcome(lwtype, col, DimsOf(token));
      Returned(o, g) && res.checkFlags == old(res.checkFlags) && res.geom == old(res.geom)
      && (o.Failed? ==> res.errcode == o.code && res.message == MESSAGES[o.code])
      && (o.Built? ==> unchanged(res))
  {
    var f := WktDimensionality(token);
    if col.None? {
      return Some(EmptyCollection(lwtype, f.z, f.m));
    }
    var c := col.value;
    if FlagsNDims(f) != TypeNDims(c.typ) {
      res.SetError(PARSER_ERROR_MIXDIMS);
      return None;
    }
    if lwtype == COLLECTIONTYPE && (f.z != TypeHasZ(c.typ) || f.m != TypeHasM(c.typ)) {
      res.SetError(PARSER_ERROR_MIXDIMS);
      return None;
    }
    return Some(LwGeom.WithTyp(c, LwPoint.SetType(c.typ, lwtype)));
  }

  /**
   * A finalized collection has the requested type, and its SRID, box,
   * members and Z/M are those it was built with; the token only has to
   * agree with it: exactly for GEOMETRYCOLLECTION, by count for the other
   * types.
   */
  lemma FinalizeMeaning(lwtype: nat, c: Geom, f: DimFlags)
    requires lwtype < 16
    ensures var o := FinalizeOutcome(lwtype, Some(c), f);
      (o.Built? <==>
          FlagsNDims(f) == TypeNDims(c.typ)
          && (lwtype == COLLECTIONTYPE ==> f.z == TypeHasZ(c.typ) && f.m == TypeHasM(c.typ)))
      && (o.Built? ==>
            TypeOf(o.g.typ) == lwtype && TypeHasZ(o.g.typ) == TypeHasZ(c.typ) && TypeHasM(o.g.typ) == TypeHasM(c.typ)
            && o.g.srid == c.srid && o.g.bbox == c.bbox && o.g.Members() == c.Members())
  {
  }

  /**
   * A collection whose members carry Z is rejected when no dimensionality
   * token is written, and a Z multi-geometry written with an "M" token is
   * accepted and stays Z: for types other than GEOMETRYCOLLECTION only the
   * count of dimensions is compared.
   */
  lemma FinalizeComparesCounts(lwtype: nat, c: Geom)
    requires lwtype < 16 && lwtype != COLLECTIONTYPE && TypeHasZ(c.typ) && !TypeHasM(c.typ)
    ensures FinalizeOutcome(lwtype, Some(c), DimsOf(None)) == Failed(PARSER_ERROR_MIXDIMS)
    ensures var o := FinalizeOutcome(lwtype, Some(c), DimsOf(Some("M")));
      o.Built? && TypeHasZ(o.g.typ) && !TypeHasM(o.g.typ)
  {
    DimsOfTokens();
  }

  /**
   * wkt_parser_collection_add_geom on values: no geometry, no action; no
   * collection reports the OTHER error; a geometry whose Z or M differs
   * from the collection's reports MIXDIMS; otherwise the geometry is
   * appended (lwcollection_add_lwgeom is taken to append it).
   */
  method CollectionAddGeom(res: ParserResult, col: Option<Geom>, geom: Option<Geom>) returns (c: Option<Geom>)
    requires col.Some? ==> col.value.Coll?
    modifies res
    ensures geom.None? ==> c == col && unchanged(res)
    ensures geom.Some? && col.None? ==> c.None? && res.errcode == PARSER_ERROR_OTHER && res.message == MESSAGES[PARSER_ERROR_OTHER]
    ensures geom.Some? && col.Some? && (TypeHasZ(col.value.typ) != TypeHasZ(geom.value.typ) || TypeHasM(col.value.typ) != TypeHasM(geom.value.typ)) ==>
      c == col && res.errcode == PARSER_ERROR_MIXDIMS && res.message == MESSAGES[PARSER_ERROR_MIXDIMS]
    ensures geom.Some? && col.Some? && TypeHasZ(col.value.typ) == TypeHasZ(geom.value.typ) && TypeHasM(col.value.typ) == TypeHasM(geom.value.typ) ==>
      c == Some(col.value.(geoms := col.value.geoms + [geom.value])) && unchanged(res)
    ensures res.checkFlags == old(res.checkFlags) && res.geom == old(res.geom)
  {
    if geom.None? {
      return col;
    }
    if col.None? {
      res.SetError(PARSER_ERROR_OTHER);
      return None;
    }
    var k := col.value;
    var g := geom.value;
    if TypeHasZ(k.typ) != TypeHasZ(g.typ) || TypeHasM(k.typ) != TypeHasM(g.typ) {
      res.SetError(PARSER_ERROR_MIXDIMS);
      return col;
    }
    return Some(k.(geoms := k.geoms + [g]));
  }

  /**
   * wkt_parser_collection_new: no geometry reports the OTHER error;
   * otherwise an empty collection with the geometry's Z and M receives it,
   * which can never mix dimensions.
   */
  method CollectionNew(res: ParserResult, geom: Option<Geom>) returns (c: Option<Geom>)
    modifies res
    ensures geom.None? ==> c.None? && res.errcode == PARSER_ERROR_OTHER && res.message == MESSAGES[PARSER_ERROR_OTHER]
    ensures geom.Some? ==> unchanged(res)
    ensures geom.Some? ==> c == Some(Coll(MakeTypeFull(TypeHasZ(geom.value.typ), TypeHasM(geom.value.typ), false, COLLECTIONTYPE, false),
                        SRID_UNKNOWN, None, [geom.value]))
    ensures res.checkFlags == old(res.checkFlags) && res.geom == old(res.geom)
  {
    if geom.None? {
      res.SetError(PARSER_ERROR_OTHER);
      return None;
    }
    var g := geom.value;
    var empty := EmptyCollection(COLLECTIONTYPE, TypeHasZ(g.typ), TypeHasM(g.typ));
    assert empty.geoms + [g] == [g];
    c := CollectionAddGeom(res, Some(empty), geom);
  }

  // ---- the parsed geometry ---------------------------------------------------------

  /** The SRID wkt_parser_geometry_new gives the result: the parsed one when it is known and below SRID_MAXIMUM. */
  function ParsedSRID(srid: int): int
  {
    if srid != SRID_UNKNOWN && srid < SRID_MAXIMUM then srid else SRID_UNKNOWN
  }

  /**
   * The SRID kept is the parsed one or SRID_UNKNOWN, and always below
   * SRID_MAXIMUM; SRIDs from SRID_MAXIMUM up are dropped, while negative
   * SRIDs other than SRID_UNKNOWN are kept.
   */
  lemma ParsedSRIDRange(srid: int)
    ensures ParsedSRID(srid) == srid || ParsedSRID(srid) == SRID_UNKNOWN
    ensures ParsedSRID(srid) < SRID_MAXIMUM
    ensures srid >= SRID_MAXIMUM ==> ParsedSRID(srid) == SRID_UNKNOWN
    ensures srid < SRID_UNKNOWN ==> ParsedSRID(srid) == srid
    ensures 0 <= srid < SRID_MAXIMUM ==> ParsedSRID(srid) == srid
  {
  }

  /**
   * wkt_parser_geometry_new: a missing geometry is an error; otherwise the
   * geometry gets the parsed SRID (members of collections get
   * SRID_UNKNOWN, as lwgeom_set_srid does) and becomes the parse result.
   */
  method GeometryNew(res: ParserResult, geom: Option<Geom>, srid: int) returns (r: Result<()>)
    modifies res
    ensures r.Ok? <==> geom.Some?
    ensures geom.None? ==> unchanged(res)
    ensures geom.Some? ==> res.geom == Some(LwGeom.SetSRID(geom.value, ParsedSRID(srid)))
    ensures geom.Some? ==> res.errcode == old(res.errcode) && res.message == old(res.message) && res.checkFlags == old(res.checkFlags)
  {
    if geom.None? {
      return Err("Parsed geometry is null!");
    }
    var s := if srid != SRID_UNKNOWN && srid < SRID_MAXIMUM then srid else SRID_UNKNOWN;
    res.geom := Some(LwGeom.SetSRID(geom.value, s));
    return Ok(());
  }

  /** The parse result carries the parsed SRID at its root and SRID_UNKNOWN in every member. */
  lemma GeometryNewSRID(g: Geom, srid: int)
    ensures LwGeom.SetSRID(g, ParsedSRID(srid)).srid == ParsedSRID(srid)
    ensures LwGeom.MembersUnknown(LwGeom.SetSRID(g, ParsedSRID(srid)))
    ensures LwGeom.SameShape(g, LwGeom.SetSRID(g, ParsedSRID(srid)))
  {
    LwGeom.SetSRIDProperties(g, ParsedSRID(srid));
  }
}
