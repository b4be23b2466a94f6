/**
 * PGgeometry.java of the JDBC client: the string facade that turns the
 * text a server returns into a Geometry. The Point, LineString, Polygon,
 * MultiPoint, MultiLineString and GeometryCollection string constructors
 * and BinaryParser are not part of this model; they are parameters.
 */
module PgGeometry {
  import opened Wrappers
  import opened JavaStrings
  import opened JdbcGeometry
  import opened JdbcMultiPolygon

  const INDEX_OUT_OF_BOUNDS_ := "ArrayIndexOutOfBoundsException"
  const UNKNOWN_TYPE := "Unknown type: "

  /** The constructors geomFromString dispatches to. */
  datatype Parsers = Parsers(
    multiPolygonHelpers: Helpers,
    multiLineString: string -> Result<Geometry>,
    multiPoint: string -> Result<Geometry>,
    lineString: string -> Result<Geometry>,
    point: string -> Result<Geometry>,
    geometryCollection: string -> Result<Geometry>,
    binary: string -> Result<Geometry>)

  /**
   * splitAtFirst: the whole string when the border does not occur,
   * otherwise the parts before and after its first occurrence.
   */
  function SplitAtFirst(whole: string, border: char): (r: seq<string>)
    ensures border !in whole <==> r == [whole]
    ensures border in whole ==> |r| == 2 && r[0] + [border] + r[1] == whole && border !in r[0]
  {
    var index := IndexOf(whole, border);
    if index == -1 then [whole]
    else
      assert whole == whole[..index] + [border] + whole[index + 1..];
      [whole[..index], whole[index + 1..]]
  }

  /** The srid field set on a geometry already built. */
  function WithSrid(g: Geometry, srid: int): (r: Geometry)
    ensures r.srid == srid
    ensures r.Point? == g.Point?
    ensures r.Point? ==> r.p == g.p
    ensures r.Composed? ==> r.kind == g.kind && r.dimension == g.dimension && r.subgeoms == g.subgeoms
  {
    if g.Point? then Point(g.p, srid) else Composed(g.kind, g.dimension, srid, g.subgeoms)
  }

  /** new GeometryCollection(): the EMPTY array, and Geometry's default dimension field. */
  function EmptyCollection(): (r: Geometry)
    ensures r.Composed? && r.kind == GeometryCollection && IsEmpty(r) && r.srid == SRID_UNSET
  {
    Composed(GeometryCollection, 0, SRID_UNSET, Array([]))
  }

  /** The body of geomFromString after the SRID prefix is gone. */
  function Dispatch(value: string, ps: Parsers): (r: Result<Geometry>)
    ensures EndsWith(value, "EMPTY") ==> r == Ok(EmptyCollection())
  {
    if EndsWith(value, "EMPTY") then Ok(EmptyCollection())
    else if StartsWith(value, "MULTIPOLYGON") then MultiPolygonOf(value, ps.multiPolygonHelpers)
    else if StartsWith(value, "MULTILINESTRING") then ps.multiLineString(value)
    else if StartsWith(value, "MULTIPOINT") then ps.multiPoint(value)
    else if StartsWith(value, "POLYGON") then ps.multiPolygonHelpers.polygon(value)
    else if StartsWith(value, "LINESTRING") then ps.lineString(value)
    else if StartsWith(value, "POINT") then ps.point(value)
    else if StartsWith(value, "GEOMETRYCOLLECTION") then ps.geometryCollection(value)
    else if StartsWith(value, "00") || StartsWith(value, "01") then ps.binary(value)
    else Err(UNKNOWN_TYPE + value)
  }

  /**
   * geomFromString: trim; with an "SRID" prefix, split at the first ';'
   * and read the integer after the first '=' of the part before it; build
   * the geometry from the rest; set its srid unless that is -1.
   */
  function GeomFromString(value: string, ps: Parsers): (r: Result<Geometry>)
    ensures !StartsWith(Trim(value), "SRID") ==> r == Dispatch(Trim(value), ps)
  {
    FromTrimmed(Trim(value), ps)
  }

  /** geomFromString after its first statement. */
  function FromTrimmed(v: string, ps: Parsers): Result<Geometry>
  {
    if !StartsWith(v, "SRID") then Dispatch(v, ps)
    else
      var parts := SplitAtFirst(v, ';');
      if |parts| < 2 then Err(INDEX_OUT_OF_BOUNDS_)
      else
        var eq := SplitAtFirst(parts[0], '=');
        if |eq| < 2 then Err(INDEX_OUT_OF_BOUNDS_)
        else WithPrefix(eq[1], parts[1], ps)
  }

  /** The geometry after the SRID prefix, with the srid read from sridText. */
  function WithPrefix(sridText: string, rest: string, ps: Parsers): Result<Geometry>
  {
    var srid := ParseInt(sridText);
    if srid.Err? then Err(srid.msg)
    else
      var result := Dispatch(rest, ps);
      if result.Err? then result
      else Ok(if srid.value != -1 then WithSrid(result.value, srid.value) else result.value)
  }

  /** Only the trimmed text matters: padding the value changes nothing. */
  lemma TrimsFirst(value: string, ps: Parsers)
    ensures GeomFromString(value, ps) == GeomFromString(Trim(value), ps)
  {
    TrimIdempotent(value);
  }

  /** A text ending in EMPTY is an empty collection whatever keyword it names. */
  lemma EmptyCollapses(value: string, ps: Parsers)
    requires !StartsWith(Trim(value), "SRID") && EndsWith(Trim(value), "EMPTY")
    ensures GeomFromString(value, ps) == Ok(EmptyCollection())
  {
  }

  /** The SRID prefix needs a ';' after it. */
  lemma MissingSemicolon(value: string, ps: Parsers)
    requires StartsWith(Trim(value), "SRID") && ';' !in Trim(value)
    ensures GeomFromString(value, ps) == Err(INDEX_OUT_OF_BOUNDS_)
  {
  }

  /** The keywords the dispatch tests, in its order. */
  function Keyword(i: nat): string
    requires i < 7
  {
    [ "MULTIPOLYGON", "MULTILINESTRING", "MULTIPOINT", "POLYGON", "LINESTRING", "POINT", "GEOMETRYCOLLECTION" ][i]
  }

  /** The constructor for the i-th keyword. */
  function Constructor(ps: Parsers, i: nat, value: string): Result<Geometry>
    requires i < 7
  {
    match i
    case 0 => MultiPolygonOf(value, ps.multiPolygonHelpers)
    case 1 => ps.multiLineString(value)
    case 2 => ps.multiPoint(value)
    case 3 => ps.multiPolygonHelpers.polygon(value)
    case 4 => ps.lineString(value)
    case 5 => ps.point(value)
    case _ => ps.geometryCollection(value)
  }

  /**
   * No keyword is a prefix of another, so a text starting with a keyword
   * reaches that keyword's constructor whatever the order of the tests.
   */
  lemma KeywordSelects(value: string, ps: Parsers, i: nat)
    requires i < 7 && StartsWith(value, Keyword(i)) && !EndsWith(value, "EMPTY")
    ensures Dispatch(value, ps) == Constructor(ps, i, value)
  {
    var k := Keyword(i);
    assert value[..|k|] == k;
    var multi := "MULTIPOLYGON";
    if i == 1 {
      Differs(value, multi, 5);
    } else if i == 2 {
      Differs(value, multi, 7);
      Differs(value, "MULTILINESTRING", 5);
    } else if i >= 3 {
      Differs(value, multi, 0);
      Differs(value, "MULTILINESTRING", 0);
      Differs(value, "MULTIPOINT", 0);
      if i >= 4 {
        if i == 5 {
          Differs(value, "POLYGON", 2);
        } else {
          Differs(value, "POLYGON", 0);
        }
      }
      if i >= 5 {
        Differs(value, "LINESTRING", 0);
      }
      if i == 6 {
        Differs(value, "POINT", 0);
      }
    }
  }

  /** Hexadecimal text starting 00 or 01 goes to the binary parser. */
  lemma HexSelectsBinary(value: string, ps: Parsers)
    requires (StartsWith(value, "00") || StartsWith(value, "01")) && !EndsWith(value, "EMPTY")
    ensures Dispatch(value, ps) == ps.binary(value)
  {
    assert value[0] == '0';
  }

  /**
   * With a prefix SRID=n; the geometry is read from the text after the
   * first ';' and the srid from the text between the first '=' and that
   * ';' (WithPrefix).
   */
  lemma SridApplied(value: string, ps: Parsers, sridText: string, rest: string)
    requires Trim(value) == "SRID" + ['='] + sridText + [';'] + rest
    requires ';' !in sridText
    ensures GeomFromString(value, ps) == WithPrefix(sridText, rest, ps)
  {
    PrefixSplits(Trim(value), ps, sridText, rest);
  }

  lemma PrefixSplits(v: string, ps: Parsers, sridText: string, rest: string)
    requires v == "SRID" + ['='] + sridText + [';'] + rest
    requires ';' !in sridText
    ensures FromTrimmed(v, ps) == WithPrefix(sridText, rest, ps)
  {
    var key := "SRID";
    var head := key + ['='] + sridText;
    assert v == key + (['='] + sridText + [';'] + rest);
    assert StartsWith(v, key);
    assert v == head + [';'] + rest;
    assert ';' !in key;
    assert ';' !in head;
    SplitUnique(head, rest, ';');
    assert '=' !in key;
    SplitUnique(key, sridText, '=');
  }

  /** Splitting a + [c] + b where c is not in a gives a and b. */
  lemma SplitUnique(a: string, b: string, c: char)
    requires c !in a
    ensures SplitAtFirst(a + [c] + b, c) == [a, b]
  {
    var w := a + [c] + b;
    var r := SplitAtFirst(w, c);
    assert w[|a|] == c;
    assert r[0] == w[..|a|] == a;
    assert r[1] == w[|a| + 1..] == b;
  }

  /**
   * The text after the ';' is not trimmed again: a space there reaches no
   * keyword and the text is of unknown type.
   */
  lemma SpaceAfterSemicolonUnknown(value: string, ps: Parsers, sridText: string, rest: string)
    requires Trim(value) == "SRID" + ['='] + sridText + [';'] + rest
    requires ';' !in sridText && ParseInt(sridText).Ok?
    requires |rest| > 0 && rest[0] == ' ' && !EndsWith(rest, "EMPTY")
    ensures GeomFromString(value, ps) == Err(UNKNOWN_TYPE + rest)
  {
    SridApplied(value, ps, sridText, rest);
    UnknownFirstChar(rest, ps);
  }

  /** Text whose first char starts no keyword and no hexadecimal form is of unknown type. */
  lemma UnknownFirstChar(v: string, ps: Parsers)
    requires |v| > 0 && v[0] !in "MPLG0" && !EndsWith(v, "EMPTY")
    ensures Dispatch(v, ps) == Err(UNKNOWN_TYPE + v)
  {
    Differs(v, "MULTIPOLYGON", 0);
    Differs(v, "MULTILINESTRING", 0);
    Differs(v, "MULTIPOINT", 0);
    Differs(v, "POLYGON", 0);
    Differs(v, "LINESTRING", 0);
    Differs(v, "POINT", 0);
    Differs(v, "GEOMETRYCOLLECTION", 0);
    Differs(v, "00", 0);
    Differs(v, "01", 0);
  }

  /** A text that differs from k at index j does not start with k. */
  lemma Differs(v: string, k: string, j: nat)
    requires j < |k| && (j >= |v| || v[j] != k[j])
    ensures !StartsWith(v, k)
  {
  }

  /** PGgeometry's geom field, replaced by setValue. */
  class PGgeometry {
    var geom: Option<Geometry>

    constructor ()
      ensures geom == None
    {
      geom := None;
    }

    /** setValue: the field takes the parsed geometry; a throw leaves it as it was. */
    method SetValue(value: string, ps: Parsers) returns (r: Result<()>)
      modifies this
      ensures var g := GeomFromString(value, ps);
        if g.Ok? then r == Ok(()) && geom == Some(g.value)
        else r == Err(g.msg) && geom == old(geom)
    {
      var g := GeomFromString(value, ps);
      if g.Err? {
        return Err(g.msg);
      }
      geom := Some(g.value);
      return Ok(());
    }
  }
}
