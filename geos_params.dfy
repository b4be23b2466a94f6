/**
 * The argument handling around the GEOS calls of postgis/lwgeom_geos.c that
 * does not itself call GEOS: the parameter string of ST_Buffer, the walk
 * over a geometry array and its NULL bitmap in the union aggregate, and the
 * upper-casing of a relate pattern.
 */
module GeosParams {
  import opened Wrappers
  import opened Bytes
  import opened LwTypes
  import opened PgLwgeom
  import LwWktIn

  // ---- ST_Buffer parameters -------------------------------------------------

  const ENDCAP_ROUND: nat := 1
  const ENDCAP_FLAT: nat := 2
  const ENDCAP_SQUARE: nat := 3
  const JOIN_ROUND: nat := 1
  const JOIN_MITRE: nat := 2
  const JOIN_BEVEL: nat := 3

  /**
   * The settings the parameter string selects. The mitre limit is a double
   * read with atof; it is kept as the text handed to atof, None standing
   * for DEFAULT_MITRE_LIMIT (5.0).
   */
  datatype BufferParams = BufferParams(endCapStyle: nat, joinStyle: nat, mitreLimit: Option<string>, quadsegs: int)

  /** Eight quadrant segments, round end caps and round joins. */
  const DEFAULTS := BufferParams(ENDCAP_ROUND, JOIN_ROUND, None, 8)

  /** Where a token starting at s[0] ends: the first space, or the end of s. */
  function TokenEnd(s: string): (e: nat)
    requires s != [] && s[0] != ' '
    ensures 1 <= e <= |s| && (forall i :: 0 <= i < e ==> s[i] != ' ') && (e < |s| ==> s[e] == ' ')
  {
    if |s| == 1 || s[1] == ' ' then 1 else 1 + TokenEnd(s[1..])
  }

  /** A non-empty run of characters other than a space. */
  predicate IsWord(t: string)
  {
    t != [] && forall i :: 0 <= i < |t| ==> t[i] != ' '
  }

  /** The tokens strtok(…, " ") returns: the maximal runs of characters other than a space, in order. */
  function Tokens(s: string): (r: seq<string>)
    ensures forall j :: 0 <= j < |r| ==> IsWord(r[j])
    decreases |s|
  {
    if s == [] then []
    else if s[0] == ' ' then Tokens(s[1..])
    else [s[..TokenEnd(s)]] + Tokens(s[TokenEnd(s)..])
  }

  /** strchr: the index of the first c in s, or |s| when there is none. */
  function IndexOf(s: string, c: char): (r: nat)
    ensures r <= |s| && (forall i :: 0 <= i < r ==> s[i] != c) && (r < |s| ==> s[r] == c)
  {
    if s == [] then 0 else if s[0] == c then 0 else 1 + IndexOf(s[1..], c)
  }

  /**
   * atoi as glibc defines it: the (int) cast of strtol in base 10, so a
   * value beyond a long saturates and the cast then keeps the low 32 bits.
   */
  function Atoi(s: string): (r: int)
    ensures IsInt32(r)
  {
    LwWktIn.CastToInt(LwWktIn.Strtol(s))
  }

  /** Every int written in decimal, with a minus sign when negative, reads back as itself. */
  lemma AtoiOfDecimal(n: nat, neg: bool)
    requires if neg then n <= 0x8000_0000 else n < 0x8000_0000
    ensures Atoi(LwWktIn.Sign(neg) + LwWktIn.Decimal(n)) == (if neg then -(n as int) else n)
  {
    LwWktIn.StrtolDecimal(n, neg, []);
    assert LwWktIn.Sign(neg) + LwWktIn.Decimal(n) + [] == LwWktIn.Sign(neg) + LwWktIn.Decimal(n);
  }

  /** A quad_segs value beyond an int wraps: n + 2^32 reads as n does, for n + 2^32 within a long. */
  lemma AtoiWraps(n: nat)
    requires n + TWO32 <= LwWktIn.LONG_MAX
    ensures Atoi(LwWktIn.Decimal(n + TWO32)) == Atoi(LwWktIn.Decimal(n))
  {
    LwWktIn.StrtolOfDecimal(n);
    LwWktIn.StrtolOfDecimal(n + TWO32);
    LwWktIn.CastToIntWraps(n);
  }

  /**
   * One key=value token applied to the settings: the key is what precedes
   * the first '=' and the value what follows it, which must not be empty;
   * endcap takes round, flat or butt, or square; join takes round, mitre or
   * miter, or bevel; mitre_limit and miter_limit take the value as text for
   * atof; quad_segs takes atoi of the value; anything else is refused.
   */
  function ApplyParam(p: BufferParams, tok: string): (r: Result<BufferParams>)
    ensures r.Ok? ==> IndexOf(tok, '=') + 1 < |tok| && Key(tok) in PARAM_KEYS
    ensures r.Ok? ==> KeepsOthers(r.value, p, Key(tok))
    ensures r.Err? ==> r.msg in PARAM_ERRORS
  {
    var k := IndexOf(tok, '=');
    if k == |tok| || k + 1 == |tok| then Err("Missing value for buffer parameter")
    else
      var key := tok[..k];
      var val := tok[k + 1..];
      if key == "endcap" then
        if val == "round" then Ok(p.(endCapStyle := ENDCAP_ROUND))
        else if val == "flat" || val == "butt" then Ok(p.(endCapStyle := ENDCAP_FLAT))
        else if val == "square" then Ok(p.(endCapStyle := ENDCAP_SQUARE))
        else Err("Invalid buffer end cap style")
      else if key == "join" then
        if val == "round" then Ok(p.(joinStyle := JOIN_ROUND))
        else if val == "mitre" || val == "miter" then Ok(p.(joinStyle := JOIN_MITRE))
        else if val == "bevel" then Ok(p.(joinStyle := JOIN_BEVEL))
        else Err("Invalid buffer end cap style")
      else if key == "mitre_limit" || key == "miter_limit" then Ok(p.(mitreLimit := Some(val)))
      else if key == "quad_segs" then Ok(p.(quadsegs := Atoi(val)))
      else Err("Invalid buffer parameter")
  }

  /** The key of a token: what precedes its first '='. */
  function Key(tok: string): string
  {
    tok[..IndexOf(tok, '=')]
  }

  const PARAM_KEYS: set<string> := {"endcap", "join", "mitre_limit", "miter_limit", "quad_segs"}
  const PARAM_ERRORS: set<string> :=
    {"Missing value for buffer parameter", "Invalid buffer end cap style", "Invalid buffer parameter"}

  /** q has p's value for every setting other than the one key names. */
  predicate KeepsOthers(q: BufferParams, p: BufferParams, key: string)
  {
    (key != "endcap" ==> q.endCapStyle == p.endCapStyle)
    && (key != "join" ==> q.joinStyle == p.joinStyle)
    && (key != "mitre_limit" && key != "miter_limit" ==> q.mitreLimit == p.mitreLimit)
    && (key != "quad_segs" ==> q.quadsegs == p.quadsegs)
  }

  /** Some token of ts has one of the keys. */
  predicate Mentions(ts: seq<string>, keys: set<string>)
  {
    exists k :: 0 <= k < |ts| && Key(ts[k]) in keys
  }

  /** q has p's value for every setting that no token of ts names. */
  predicate Keeps(q: BufferParams, p: BufferParams, ts: seq<string>)
  {
    (!Mentions(ts, {"endcap"}) ==> q.endCapStyle == p.endCapStyle)
    && (!Mentions(ts, {"join"}) ==> q.joinStyle == p.joinStyle)
    && (!Mentions(ts, {"mitre_limit", "miter_limit"}) ==> q.mitreLimit == p.mitreLimit)
    && (!Mentions(ts, {"quad_segs"}) ==> q.quadsegs == p.quadsegs)
  }

  /** The tokens applied in order; the first refused token is the error (lwerror does not return). */
  function ApplyAll(ts: seq<string>, p: BufferParams): (r: Result<BufferParams>)
    ensures r.Ok? ==> Keeps(r.value, p, ts)
    ensures r.Err? ==> r.msg in PARAM_ERRORS
  {
    if ts == [] then Ok(p)
    else match ApplyParam(p, ts[0])
      case Err(e) => Err(e)
      case Ok(q) => ApplyAll(ts[1..], q)
  }

  /** The settings a parameter string selects, starting from the defaults. */
  function BufferParamsOf(s: string): (r: Result<BufferParams>)
    ensures r.Ok? ==> Keeps(r.value, DEFAULTS, Tokens(s))
    ensures r.Err? ==> r.msg in PARAM_ERRORS
  {
    ApplyAll(Tokens(s), DEFAULTS)
  }

  /** A token the parser accepts; whether it does depends on the token alone. */
  predicate GoodParam(tok: string)
  {
    ApplyParam(DEFAULTS, tok).Ok?
  }

  /** A parameter string is accepted iff each of its tokens is. */
  lemma {:induction false} ApplyAllOkIff(ts: seq<string>, p: BufferParams)
    ensures ApplyAll(ts, p).Ok? <==> forall k :: 0 <= k < |ts| ==> GoodParam(ts[k])
    decreases |ts|
  {
    if ts != [] {
      assert ApplyParam(p, ts[0]).Ok? == GoodParam(ts[0]);
      if ApplyParam(p, ts[0]).Ok? {
        ApplyAllOkIff(ts[1..], ApplyParam(p, ts[0]).value);
        assert forall k :: 1 <= k < |ts| ==> ts[k] == ts[1..][k - 1];
      }
    }
  }

  /** Applying two runs of tokens is applying the first, then the second to its result. */
  lemma {:induction false} ApplyAllConcat(a: seq<string>, b: seq<string>, p: BufferParams)
    ensures ApplyAll(a + b, p) ==
      match ApplyAll(a, p) case Err(e) => Err(e) case Ok(q) => ApplyAll(b, q)
    decreases |a|
  {
    if a != [] {
      assert (a + b)[0] == a[0] && (a + b)[1..] == a[1..] + b;
      if ApplyParam(p, a[0]).Ok? {
        ApplyAllConcat(a[1..], b, ApplyParam(p, a[0]).value);
      }
    } else {
      assert a + b == b;
    }
  }

  /** A token ends where a space joins a second string on, as it ends in the first alone. */
  lemma TokenEndConcat(a: string, b: string)
    requires a != [] && a[0] != ' '
    ensures TokenEnd(a + [' '] + b) == TokenEnd(a)
  {
    var s := a + [' '] + b;
    TokenEndAt(s, TokenEnd(a));
  }

  /** Two strings joined by a space tokenize as the first's tokens followed by the second's. */
  lemma {:induction false} TokensConcat(a: string, b: string)
    ensures Tokens(a + [' '] + b) == Tokens(a) + Tokens(b)
    decreases |a|
  {
    var s := a + [' '] + b;
    if a == [] {
      assert s[1..] == b;
    } else if a[0] == ' ' {
      assert s[1..] == a[1..] + [' '] + b;
      TokensConcat(a[1..], b);
    } else {
      WordThenRest(a, b);
      TokensConcat(a[TokenEnd(a)..], b);
    }
  }

  /** A string starting with a word: that word is the first token of it joined to anything. */
  lemma WordThenRest(a: string, b: string)
    requires a != [] && a[0] != ' '
    ensures Tokens(a + [' '] + b) == [a[..TokenEnd(a)]] + Tokens(a[TokenEnd(a)..] + [' '] + b)
    ensures Tokens(a) == [a[..TokenEnd(a)]] + Tokens(a[TokenEnd(a)..])
  {
    var s := a + [' '] + b;
    TokenEndConcat(a, b);
    var e := TokenEnd(a);
    assert s[..e] == a[..e];
    assert s[e..] == a[e..] + [' '] + b;
  }

  /** A later token overrides what earlier tokens set: the string with one more token is the first string's settings with that token applied. */
  lemma LaterTokenWins(s: string, tok: string)
    requires |tok| > 0 && forall i :: 0 <= i < |tok| ==> tok[i] != ' '
    ensures BufferParamsOf(s + [' '] + tok) ==
      match BufferParamsOf(s) case Err(e) => Err(e) case Ok(q) => ApplyParam(q, tok)
  {
    TokensConcat(s, tok);
    assert TokenEnd(tok) == |tok|;
    assert tok[..|tok|] == tok && tok[|tok|..] == [];
    assert Tokens(tok) == [tok];
    ApplyAllConcat(Tokens(s), [tok], DEFAULTS);
    if BufferParamsOf(s).Ok? {
      var q := BufferParamsOf(s).value;
      assert ApplyAll([tok], q) == ApplyParam(q, tok) by {
        if ApplyParam(q, tok).Ok? {
          assert [tok][1..] == [];
        }
      }
    }
  }

  /** The first position at or after i holding c, or |s|. */
  method FindChar(s: string, i: nat, c: char) returns (r: nat)
    requires i <= |s|
    ensures i + IndexOf(s[i..], c) == r
  {
    r := i;
    while r < |s| && s[r] != c
      invariant i <= r <= |s|
      invariant forall j :: i <= j < r ==> s[j] != c
    {
      r := r + 1;
    }
    IndexOfAt(s[i..], c, r - i);
  }

  /** IndexOf is the first position holding c. */
  lemma IndexOfAt(s: string, c: char, r: nat)
    requires r <= |s| && (forall j :: 0 <= j < r ==> s[j] != c) && (r < |s| ==> s[r] == c)
    ensures IndexOf(s, c) == r
  {
  }

  /**
   * The strtok loop of buffer: with no parameter argument the defaults;
   * otherwise spaces are skipped, each token is split at its first '='
   * and applied, and the first refused token ends the parse with an error.
   */
  method ParseBufferParams(params: Option<string>) returns (r: Result<BufferParams>)
    ensures params.None? ==> r == Ok(DEFAULTS)
    ensures params.Some? ==> r == BufferParamsOf(params.value)
  {
    if params.None? {
      return Ok(DEFAULTS);
    }
    var s := params.value;
    var cur := DEFAULTS;
    var pos := 0;
    while pos < |s|
      invariant 0 <= pos <= |s|
      invariant ApplyAll(Tokens(s[pos..]), cur) == BufferParamsOf(s)
      decreases |s| - pos
    {
      if s[pos] == ' ' {
        assert s[pos..][1..] == s[pos + 1..];
        pos := pos + 1;
      } else {
        var end := FindChar(s, pos, ' ');
        var tok := s[pos..end];
        TokenStep(s, pos, end, cur);
        var applied := ApplyParam(cur, tok);
        if applied.Err? {
          return Err(applied.msg);
        }
        cur := applied.value;
        pos := end;
      }
    }
    assert s[pos..] == [];
    r := Ok(cur);
  }

  /** A token running from pos to the next space is the next token applied. */
  lemma TokenStep(s: string, pos: nat, end: nat, cur: BufferParams)
    requires pos < end <= |s| && s[pos] != ' ' && end == pos + IndexOf(s[pos..], ' ')
    ensures ApplyAll(Tokens(s[pos..]), cur) ==
      match ApplyParam(cur, s[pos..end]) case Err(e) => Err(e) case Ok(q) => ApplyAll(Tokens(s[end..]), q)
  {
    var t := s[pos..];
    TokenEndAt(t, end - pos);
    assert t[..end - pos] == s[pos..end] && t[end - pos..] == s[end..];
    assert Tokens(t) == [s[pos..end]] + Tokens(s[end..]);
  }

  /** TokenEnd is the first space. */
  lemma TokenEndAt(s: string, e: nat)
    requires s != [] && s[0] != ' ' && 1 <= e <= |s|
    requires (forall i :: 0 <= i < e ==> s[i] != ' ') && (e < |s| ==> s[e] == ' ')
    ensures TokenEnd(s) == e
  {
  }

  // ---- the NULL bitmap of a geometry array -----------------------------------

  /** Element i of the array is not NULL: there is no bitmap, or bit i mod 8 of byte i div 8 is set. */
  predicate Present(bitmap: Option<seq<byte>>, i: nat)
    requires bitmap.Some? ==> i / 8 < |bitmap.value|
  {
    bitmap.None? || Bit(bitmap.value[i / 8], i % 8)
  }

  /** Bit k of a byte, counting from the least significant. */
  predicate Bit(b: byte, k: nat)
    requires k < 8
  {
    match k
    case 0 => b % 2 == 1
    case 1 => (b / 2) % 2 == 1
    case 2 => (b / 4) % 2 == 1
    case 3 => (b / 8) % 2 == 1
    case 4 => (b / 16) % 2 == 1
    case 5 => (b / 32) % 2 == 1
    case 6 => (b / 64) % 2 == 1
    case _ => (b / 128) % 2 == 1
  }

  /** A bitmap long enough for n elements. */
  predicate Covers(bitmap: Option<seq<byte>>, n: nat)
  {
    bitmap.Some? ==> n <= 8 * |bitmap.value|
  }

  /** How many of the first n elements are not NULL: how many values the array's data holds for them. */
  function PresentCount(bitmap: Option<seq<byte>>, n: nat): (c: nat)
    requires Covers(bitmap, n)
    ensures c <= n
  {
    if n == 0 then 0 else PresentCount(bitmap, n - 1) + (if Present(bitmap, n - 1) then 1 else 0)
  }

  /** Counts only grow. */
  lemma {:induction false} PresentCountMono(bitmap: Option<seq<byte>>, m: nat, n: nat)
    requires m <= n && Covers(bitmap, n)
    ensures PresentCount(bitmap, m) <= PresentCount(bitmap, n)
    decreases n - m
  {
    if m < n {
      PresentCountMono(bitmap, m, n - 1);
    }
  }

  /** Without a bitmap every element is present. */
  lemma {:induction false} NoBitmapAllPresent(n: nat)
    ensures PresentCount(None, n) == n
  {
    if n > 0 {
      NoBitmapAllPresent(n - 1);
    }
  }

  /** A polygon or a multipolygon. */
  predicate Polygonal(g: PgGeom)
  {
    TypeOf(g.typ) == POLYGONTYPE || TypeOf(g.typ) == MULTIPOLYGONTYPE
  }

  /** The index of the first element from j on among the first k that is not polygonal, or k. */
  function FirstNonPolygonal(data: seq<PgGeom>, k: nat, j: nat): (r: nat)
    requires j <= k <= |data|
    ensures j <= r <= k && (forall i :: j <= i < r ==> Polygonal(data[i])) && (r < k ==> !Polygonal(data[r]))
    decreases k - j
  {
    if j == k then k else if !Polygonal(data[j]) then j else FirstNonPolygonal(data, k, j + 1)
  }

  /** How many elements the walk reads before it stops: up to and including the first non-polygonal one. */
  function Examined(data: seq<PgGeom>, k: nat): (e: nat)
    requires k <= |data|
    ensures e <= k
  {
    var f := FirstNonPolygonal(data, k, 0);
    if f < k then f + 1 else k
  }

  /**
   * What the first pass of pgis_union_geometry_array finds out: no result
   * for an empty array; for one element, that element or no result when it
   * is NULL; otherwise whether every value is polygonal, the SRID and Z
   * flag of the first value, and how many values were read.
   */
  datatype UnionStart = NoResult | Element(g: PgGeom) | Scanned(allpolys: bool, srid: int, is3d: bool, consumed: nat)

  /**
   * The walk over the array with its NULL bitmap: a mask that doubles and
   * moves to the next byte after 0x80; each non-NULL value is the next in
   * the data. The first one read sets the SRID and the Z flag, each later
   * one must have the same SRID, and the walk stops after the first
   * non-polygonal value. The values of `data` are the non-NULL elements in
   * order; errorIfSRIDMismatch raises an error exactly when the SRIDs differ.
   */
  method UnionScan(nelems: nat, bitmap: Option<seq<byte>>, data: seq<PgGeom>) returns (r: Result<UnionStart>)
    requires Covers(bitmap, nelems) && PresentCount(bitmap, nelems) <= |data|
    requires forall k :: 0 <= k < |data| ==> Valid(data[k])
    ensures nelems == 0 ==> r == Ok(NoResult)
    ensures nelems == 1 ==> r == Ok(if Present(bitmap, 0) then Element(data[0]) else NoResult)
    ensures nelems >= 2 ==> ScanOutcome(data, PresentCount(bitmap, nelems), r)
  {
    if nelems == 0 {
      return Ok(NoResult);
    }
    if nelems == 1 {
      if bitmap.Some? && bitmap.value[0] % 2 == 0 {
        return Ok(NoResult);
      }
      assert PresentCount(bitmap, 1) == 1;
      return Ok(Element(data[0]));
    }
    r := WalkArray(nelems, bitmap, data);
  }

  /**
   * What the walk over the first k values reports: a mixed-SRID error
   * exactly when a value it reads has another SRID than the first;
   * otherwise whether all k values are polygonal, the first value's SRID
   * and Z flag, and how many values it read.
   */
  ghost predicate ScanOutcome(data: seq<PgGeom>, k: nat, r: Result<UnionStart>)
    requires k <= |data| && forall i :: 0 <= i < |data| ==> Valid(data[i])
  {
    var e := Examined(data, k);
    (r.Err? <==> exists j :: 1 <= j < e && GetSrid(data[j]) != GetSrid(data[0]))
    && (r.Ok? ==> r.value == Scanned(
          forall j :: 0 <= j < k ==> Polygonal(data[j]),
          if e > 0 then GetSrid(data[0]) else SRID_UNKNOWN,
          e > 0 && TypeHasZ(data[0].typ),
          e))
  }

  /** The loop of the first pass over an array of at least two elements. */
  method WalkArray(nelems: nat, bitmap: Option<seq<byte>>, data: seq<PgGeom>) returns (r: Result<UnionStart>)
    requires Covers(bitmap, nelems) && PresentCount(bitmap, nelems) <= |data|
    requires forall k :: 0 <= k < |data| ==> Valid(data[k])
    ensures ScanOutcome(data, PresentCount(bitmap, nelems), r)
  {
    ghost var k := PresentCount(bitmap, nelems);
    var offset := 0;
    var bitmask: nat := 1;
    var byteAt: nat := 0;
    var gotsrid := false;
    var srid := SRID_UNKNOWN;
    var is3d := false;
    var i := 0;
    while i < nelems
      invariant 0 <= i <= nelems
      invariant bitmap.Some? ==> MaskAt(i, bitmask, byteAt)
      invariant offset == PresentCount(bitmap, i)
      invariant Walked(data, k, offset, gotsrid, srid, is3d)
    {
      PresentCountMono(bitmap, i + 1, nelems);
      var present, nextMask, nextByte := NextElement(bitmap, i, bitmask, byteAt);
      if present {
        var stop;
        stop, srid, is3d := Visit(data, k, offset, gotsrid, srid, is3d);
        if stop.Some? {
          return stop.value;
        }
        gotsrid := true;
        offset := offset + 1;
      }
      bitmask, byteAt := nextMask, nextByte;
      i := i + 1;
    }
    ExaminedAll(data, k, srid, is3d);
    return Ok(Scanned(true, srid, is3d, offset));
  }

  /**
   * The state of the walk after reading `offset` of the first k values:
   * all polygonal, all with the first one's SRID, and the SRID and Z flag
   * taken from the first one once there is one.
   */
  ghost predicate Walked(data: seq<PgGeom>, k: nat, offset: nat, gotsrid: bool, srid: int, is3d: bool)
  {
    k <= |data| && (forall i :: 0 <= i < |data| ==> Valid(data[i]))
    && offset <= FirstNonPolygonal(data, k, 0) && SameSrids(data, offset)
    && gotsrid == (offset > 0)
    && (gotsrid ==> srid == GetSrid(data[0]) && is3d == TypeHasZ(data[0].typ))
    && (!gotsrid ==> srid == SRID_UNKNOWN && !is3d)
  }

  /** Every value among the first n has the SRID of the first. */
  ghost predicate SameSrids(data: seq<PgGeom>, n: nat)
    requires n <= |data| && forall k :: 0 <= k < |data| ==> Valid(data[k])
  {
    forall j :: 1 <= j < n ==> GetSrid(data[j]) == GetSrid(data[0])
  }

  /**
   * Reading value number `offset`: the first sets the SRID and the Z flag;
   * a later one with another SRID ends the walk with the mixed-SRID error,
   * and a non-polygonal one ends it with the values read so far.
   */
  method Visit(data: seq<PgGeom>, ghost k: nat, offset: nat, gotsrid: bool, srid: int, is3d: bool)
    returns (stop: Option<Result<UnionStart>>, srid': int, is3d': bool)
    requires offset < k && Walked(data, k, offset, gotsrid, srid, is3d)
    ensures stop.Some? ==> ScanOutcome(data, k, stop.value)
    ensures stop.None? ==> Walked(data, k, offset + 1, true, srid', is3d')
  {
    stop, srid', is3d' := None, srid, is3d;
    var pggeom := data[offset];
    if !gotsrid {
      srid' := GetSrid(pggeom);
      if TypeHasZ(pggeom.typ) {
        is3d' := true;
      }
    } else if srid != GetSrid(pggeom) {
      assert offset < Examined(data, k);
      return Some(Err("Operation on mixed SRID geometries")), srid', is3d';
    }
    if !Polygonal(pggeom) {
      assert Examined(data, k) == offset + 1;
      return Some(Ok(Scanned(false, srid', is3d', offset + 1))), srid', is3d';
    }
  }

  /** The walk reads every value when all are polygonal. */
  lemma ExaminedAll(data: seq<PgGeom>, k: nat, srid: int, is3d: bool)
    requires Walked(data, k, k, k > 0, srid, is3d)
    ensures ScanOutcome(data, k, Ok(Scanned(true, srid, is3d, k)))
  {
  }

  /** The mask and byte index that the walk holds for element i. */
  predicate MaskAt(i: nat, bitmask: nat, byteAt: nat)
  {
    bitmask == Pow2(i % 8) && byteAt == i / 8
  }

  /** Testing element i against the mask: it is present, and counted, exactly when its bit is set. */
  method TestBit(bitmap: Option<seq<byte>>, i: nat, bitmask: nat, byteAt: nat) returns (present: bool)
    requires Covers(bitmap, i + 1) && (bitmap.Some? ==> MaskAt(i, bitmask, byteAt))
    ensures present == Present(bitmap, i)
    ensures PresentCount(bitmap, i + 1) == PresentCount(bitmap, i) + if present then 1 else 0
  {
    if bitmap.Some? {
      Pow2Byte(i % 8);
    }
    present := bitmap.None? || (bitmap.value[byteAt] as int / bitmask) % 2 == 1;
  }

  /** The bit after bit i: the next bit of the same byte, or bit 0 of the next byte after bit 7. */
  lemma NextBit(i: nat)
    ensures i % 8 < 7 ==> (i + 1) % 8 == i % 8 + 1 && (i + 1) / 8 == i / 8
    ensures i % 8 == 7 ==> (i + 1) % 8 == 0 && (i + 1) / 8 == i / 8 + 1
  {
    var q, r := i / 8, i % 8;
    assert i == 8 * q + r;
    if r < 7 {
      assert i + 1 == 8 * q + (r + 1);
    } else {
      assert i + 1 == 8 * (q + 1) + 0;
    }
  }

  /** The bits of a byte, lowest first. */
  lemma Pow2Byte(k: nat)
    requires k < 8
    ensures Pow2(k) == [1, 2, 4, 8, 16, 32, 64, 128][k]
  {
    if k > 0 {
      Pow2Byte(k - 1);
    }
  }

  /** Element i of the walk: whether it is present, and the mask and byte for element i + 1. */
  method NextElement(bitmap: Option<seq<byte>>, i: nat, bitmask: nat, byteAt: nat) returns (present: bool, m: nat, b: nat)
    requires Covers(bitmap, i + 1) && (bitmap.Some? ==> MaskAt(i, bitmask, byteAt))
    ensures present == Present(bitmap, i)
    ensures PresentCount(bitmap, i + 1) == PresentCount(bitmap, i) + if present then 1 else 0
    ensures bitmap.Some? ==> MaskAt(i + 1, m, b)
  {
    present := TestBit(bitmap, i, bitmask, byteAt);
    m, b := bitmask, byteAt;
    if bitmap.Some? {
      m, b := AdvanceMask(i, bitmask, byteAt);
    }
  }

  /** Advancing the NULL bitmap: the mask doubles, and after 0x80 moves to bit 0 of the next byte. */
  method AdvanceMask(i: nat, bitmask: nat, byteAt: nat) returns (m: nat, b: nat)
    requires MaskAt(i, bitmask, byteAt)
    ensures MaskAt(i + 1, m, b)
  {
    Pow2Byte(i % 8);
    NextBit(i);
    m := bitmask * 2;
    b := byteAt;
    if m == 0x100 {
      b := b + 1;
      m := 1;
    }
    if i % 8 < 7 {
      Pow2Byte(i % 8 + 1);
    }
  }

  // ---- relate patterns ---------------------------------------------------------

  /** The character GEOS expects: 't' and 'f' upper-cased, anything else as it is. */
  function UpperTF(c: char): char
  {
    if c == 't' then 'T' else if c == 'f' then 'F' else c
  }

  /** The pattern handed to GEOSRelatePattern. */
  function RelatePattern(patt: seq<char>): (r: seq<char>)
    ensures |r| == |patt| && forall i :: 0 <= i < |r| ==> r[i] == UpperTF(patt[i])
  {
    seq(|patt|, i requires 0 <= i < |patt| => UpperTF(patt[i]))
  }

  /**
   * A relate pattern has no lower-case 't' or 'f' left, every other
   * character is kept, and upper-casing it again changes nothing.
   */
  lemma RelatePatternProps(patt: seq<char>)
    ensures var r := RelatePattern(patt);
      (forall i :: 0 <= i < |r| ==> r[i] != 't' && r[i] != 'f')
      && (forall i :: 0 <= i < |r| ==> patt[i] != 't' && patt[i] != 'f' ==> r[i] == patt[i])
      && RelatePattern(r) == r
  {
  }

  /** The loop of relate_pattern: 't' and 'f' replaced in place, up to the end of the string. */
  method UppercasePattern(patt: array<char>)
    modifies patt
    ensures patt[..] == RelatePattern(old(patt[..]))
  {
    for i := 0 to patt.Length
      invariant forall j :: 0 <= j < i ==> patt[j] == UpperTF(old(patt[j]))
      invariant forall j :: i <= j < patt.Length ==> patt[j] == old(patt[j])
    {
      if patt[i] == 't' {
        patt[i] := 'T';
      }
      if patt[i] == 'f' {
        patt[i] := 'F';
      }
    }
  }
}
