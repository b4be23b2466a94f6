/**
 * MultiPolygon.java of the JDBC client: the string constructor and the
 * two accessors. PGtokenizer (the top-level comma split and removePara,
 * which drops one pair of enclosing parentheses) and the Polygon string
 * constructor are not part of this model; they are parameters.
 */
module JdbcMultiPolygon {
  import opened Wrappers
  import opened JavaStrings
  import opened JdbcGeometry

  const KEYWORD := "MULTIPOLYGON"
  const NOT_MULTIPOLYGON := "postgis.multipolygongeometry"
  const INDEX_OUT_OF_BOUNDS := "ArrayIndexOutOfBoundsException"

  /** The unseen PGtokenizer and Polygon(String) the constructor calls. */
  datatype Helpers = Helpers(
    removePara: string -> string,
    tokenize: string -> seq<string>,
    polygon: string -> Result<Geometry>)

  /** Each token through the polygon parser, in order, stopping at the first that throws. */
  function ParseAll(tokens: seq<string>, polygon: string -> Result<Geometry>): (r: Result<seq<Geometry>>)
  {
    if tokens == [] then Ok([])
    else
      var init := ParseAll(tokens[..|tokens| - 1], polygon);
      if init.Err? then init
      else
        var last := polygon(tokens[|tokens| - 1]);
        if last.Err? then Err(last.msg) else Ok(init.value + [last.value])
  }

  /** A successful run has one polygon per token, each the token's parse. */
  lemma {:induction false} ParseAllOk(tokens: seq<string>, polygon: string -> Result<Geometry>)
    requires ParseAll(tokens, polygon).Ok?
    ensures |ParseAll(tokens, polygon).value| == |tokens|
    ensures forall i :: 0 <= i < |tokens| ==> polygon(tokens[i]) == Ok(ParseAll(tokens, polygon).value[i])
  {
    if tokens != [] {
      ParseAllOk(tokens[..|tokens| - 1], polygon);
    }
  }

  /** A failed run reports the first token that does not parse. */
  lemma {:induction false} ParseAllErr(tokens: seq<string>, polygon: string -> Result<Geometry>)
    requires ParseAll(tokens, polygon).Err?
    ensures exists i :: (0 <= i < |tokens| && FirstFailure(tokens, polygon, i) &&
                         ParseAll(tokens, polygon).msg == polygon(tokens[i]).msg)
  {
    var n := |tokens|;
    var init := tokens[..n - 1];
    if ParseAll(init, polygon).Err? {
      ParseAllErr(init, polygon);
      var i :| 0 <= i < |init| && FirstFailure(init, polygon, i)
        && ParseAll(init, polygon).msg == polygon(init[i]).msg;
      assert tokens[i] == init[i];
      assert FirstFailure(tokens, polygon, i);
    } else {
      ParseAllOk(init, polygon);
      assert FirstFailure(tokens, polygon, n - 1);
    }
  }

  /** Token i is the first whose parse throws. */
  predicate FirstFailure(tokens: seq<string>, polygon: string -> Result<Geometry>, i: nat)
  {
    i < |tokens| && polygon(tokens[i]).Err?
    && forall j :: 0 <= j < i ==> polygon(tokens[j]).Ok?
  }

  /** The loop that fills subgeoms, one new Polygon per token. */
  method ParsePolygons(tokens: seq<string>, polygon: string -> Result<Geometry>) returns (r: Result<seq<Geometry>>)
    ensures r == ParseAll(tokens, polygon)
  {
    var subgeoms: seq<Geometry> := [];
    var p := 0;
    while p < |tokens|
      invariant 0 <= p <= |tokens|
      invariant ParseAll(tokens[..p], polygon) == Ok(subgeoms)
    {
      var g := polygon(tokens[p]);
      if g.Err? {
        ParseAllStops(tokens, polygon, p);
        return Err(g.msg);
      }
      assert tokens[..p + 1][..p] == tokens[..p];
      subgeoms := subgeoms + [g.value];
      p := p + 1;
    }
    assert tokens[..p] == tokens;
    return Ok(subgeoms);
  }

  /** Once a token throws, the whole run throws its message. */
  lemma {:induction false} ParseAllStops(tokens: seq<string>, polygon: string -> Result<Geometry>, p: nat)
    requires p < |tokens| && ParseAll(tokens[..p], polygon).Ok? && polygon(tokens[p]).Err?
    ensures ParseAll(tokens, polygon) == Err(polygon(tokens[p]).msg)
    decreases |tokens|
  {
    if p + 1 == |tokens| {
      assert tokens[..|tokens| - 1] == tokens[..p];
    } else {
      var init := tokens[..|tokens| - 1];
      assert init[..p] == tokens[..p];
      ParseAllStops(init, polygon, p);
    }
  }

  /** The text the tokenizer receives: the keyword dropped, trimmed, the outer parentheses removed. */
  function Body(value: string, h: Helpers): string
    requires |Trim(value)| >= |KEYWORD|
  {
    h.removePara(Trim(Trim(value)[|KEYWORD|..]))
  }

  /**
   * MultiPolygon(String): the trimmed text must start with MULTIPOLYGON;
   * each token becomes a polygon, and the dimension is the first
   * polygon's, which throws when there are none.
   */
  function MultiPolygonOf(value: string, h: Helpers): (r: Result<Geometry>)
    ensures !StartsWith(Trim(value), KEYWORD) ==> r == Err(NOT_MULTIPOLYGON)
    ensures r.Ok? ==> r.value.Composed? && r.value.kind == MultiPolygon && r.value.srid == SRID_UNSET
  {
    var v := Trim(value);
    if !StartsWith(v, KEYWORD) then Err(NOT_MULTIPOLYGON)
    else
      var polygons := ParseAll(h.tokenize(Body(value, h)), h.polygon);
      if polygons.Err? then Err(polygons.msg)
      else if |polygons.value| == 0 then Err(INDEX_OUT_OF_BOUNDS)
      else Ok(Composed(MultiPolygon, Dimension(polygons.value[0]), SRID_UNSET, Array(polygons.value)))
  }

  /** The constructor itself, with its loop. */
  method NewMultiPolygon(value: string, h: Helpers) returns (r: Result<Geometry>)
    ensures r == MultiPolygonOf(value, h)
  {
    var v := Trim(value);
    if !StartsWith(v, KEYWORD) {
      return Err(NOT_MULTIPOLYGON);
    }
    var t := h.tokenize(Body(value, h));
    var polygons := ParsePolygons(t, h.polygon);
    if polygons.Err? {
      return Err(polygons.msg);
    }
    var subgeoms := polygons.value;
    if |subgeoms| == 0 {
      return Err(INDEX_OUT_OF_BOUNDS);
    }
    return Ok(Composed(MultiPolygon, Dimension(subgeoms[0]), SRID_UNSET, Array(subgeoms)));
  }

  /**
   * A multipolygon read from text has one polygon per token, in token
   * order, and the first polygon's dimension; a text whose body has no
   * token throws.
   */
  lemma MultiPolygonParts(value: string, h: Helpers)
    requires StartsWith(Trim(value), KEYWORD)
    ensures var tokens := h.tokenize(Body(value, h));
      var r := MultiPolygonOf(value, h);
      (tokens == [] ==> r == Err(INDEX_OUT_OF_BOUNDS))
      && (r.Ok? ==> (|Kids(r.value)| == |tokens| > 0 &&
                     Dimension(r.value) == Dimension(Kids(r.value)[0]) &&
                     forall i :: 0 <= i < |tokens| ==> h.polygon(tokens[i]) == Ok(Kids(r.value)[i])))
      && ((forall i :: 0 <= i < |tokens| ==> h.polygon(tokens[i]).Ok?) && tokens != [] ==> r.Ok?)
  {
    var tokens := h.tokenize(Body(value, h));
    var all := ParseAll(tokens, h.polygon);
    if all.Ok? {
      ParseAllOk(tokens, h.polygon);
    } else {
      ParseAllErr(tokens, h.polygon);
    }
  }

  /** numPolygons: the length of the array; a null array throws. */
  function NumPolygons(g: Geometry): (r: Result<int>)
    requires g.Composed?
    ensures r.Err? <==> g.subgeoms.Null?
    ensures r.Ok? ==> r.value == |Kids(g)|
  {
    if g.subgeoms.Null? then Err(NULL_POINTER) else Ok(|g.subgeoms.elems|)
  }

  /**
   * getPolygon(idx): the polygon at idx, or null outside [0, length). The
   * bounds test uses the non-short-circuit &, so a null array throws
   * whatever idx is.
   */
  function GetPolygon(g: Geometry, idx: int): (r: Result<Option<Geometry>>)
    requires g.Composed?
    ensures r.Err? <==> g.subgeoms.Null?
    ensures r.Ok? ==> (r.value.Some? <==> 0 <= idx < |Kids(g)|)
    ensures r.Ok? && r.value.Some? ==> r.value.value == Kids(g)[idx]
  {
    if g.subgeoms.Null? then Err(NULL_POINTER)
    else if idx >= 0 && idx < |g.subgeoms.elems| then Ok(Some(g.subgeoms.elems[idx]))
    else Ok(None)
  }

  /** On a parsed multipolygon the accessors return the count and the token's polygon. */
  lemma ParsedAccessors(value: string, h: Helpers, idx: int)
    requires MultiPolygonOf(value, h).Ok?
    ensures var g := MultiPolygonOf(value, h).value;
      var tokens := h.tokenize(Body(value, h));
      NumPolygons(g) == Ok(|tokens|)
      && (0 <= idx < |tokens| ==> (GetPolygon(g, idx).Ok? && GetPolygon(g, idx).value.Some? &&
                                   h.polygon(tokens[idx]) == Ok(GetPolygon(g, idx).value.value)))
      && (!(0 <= idx < |tokens|) ==> GetPolygon(g, idx) == Ok(None))
  {
    MultiPolygonParts(value, h);
  }
}
