/**
 * The structures of the older lwgeom tree (lwgeom/): its type numbers and
 * its point array, which carries a dimension count rather than Z/M flags.
 *
 * A point array holds `npoints` points of `ndims` doubles each, x, y, then
 * z and m as the count calls for; the doubles are the 8-byte words of the
 * Bytes module.
 */
module OldTypes {
  import opened Bytes

  // The simple type numbers of lwgeom/wktparse.h.
  const POINTTYPE: nat := 1
  const LINETYPE: nat := 2
  const POLYGONTYPE: nat := 3
  const MULTIPOINTTYPE: nat := 4
  const MULTILINETYPE: nat := 5
  const MULTIPOLYGONTYPE: nat := 6
  const COLLECTIONTYPE: nat := 7

  /*
   * The type byte of a serialized geometry in the older tree: bit 7 flags a
   * bounding box, bit 6 an SRID, bits 4 and 5 hold the dimension count less
   * two and the low four bits the simple type.
   */

  /** The dimension count the type byte carries, 2 to 5. */
  function TypeNdims(t: byte): (n: nat)
    ensures 2 <= n <= 5
  {
    (t / 16) % 4 + 2
  }

  predicate TypeHasBBox(t: byte) { t >= 128 }

  predicate TypeHasSrid(t: byte) { (t / 64) % 2 == 1 }

  function TypeSimple(t: byte): (n: nat)
    ensures n < 16
  {
    t % 16
  }

  /**
   * lwgeom_makeType_full: the type byte for a dimension count, an SRID flag,
   * a simple type and a box flag, in the layout the readers above decode.
   */
  function MakeType(ndims: nat, hasSrid: bool, typ: nat, hasBBox: bool): (t: byte)
    requires 2 <= ndims <= 5 && typ < 16
  {
    (if hasBBox then 128 else 0) + (if hasSrid then 64 else 0) + (ndims - 2) * 16 + typ
  }

  /** The readers give back every field the type byte was made from. */
  lemma MakeTypeReadsBack(ndims: nat, hasSrid: bool, typ: nat, hasBBox: bool)
    requires 2 <= ndims <= 5 && typ < 16
    ensures var t := MakeType(ndims, hasSrid, typ, hasBBox);
      TypeNdims(t) == ndims && TypeHasSrid(t) == hasSrid && TypeSimple(t) == typ && TypeHasBBox(t) == hasBBox
  {
    var t := MakeType(ndims, hasSrid, typ, hasBBox);
    var hi := (if hasBBox then 8 else 0) + (if hasSrid then 4 else 0) + (ndims - 2);
    assert t == hi * 16 + typ;
    assert t / 16 == hi && t % 16 == typ;
    var lo := (if hasBBox then 2 else 0) + (if hasSrid then 1 else 0);
    assert hi == lo * 4 + (ndims - 2);
    assert hi % 4 == ndims - 2;
    assert t / 64 == lo;
  }

  /** The unknown SRID of the older tree. */
  const NO_SRID: int := -1

  type Raw = seq<word>

  /** POINTARRAY of the older tree as a value: its dimension count and its points. */
  datatype OldPtArr = OldPtArr(ndims: nat, points: seq<Raw>)
  {
    /** Every point has ndims ordinates and the count is a 2, 3 or 4 the type byte can carry. */
    predicate WellFormed()
    {
      2 <= ndims <= 4 && forall i :: 0 <= i < |points| ==> |points[i]| == ndims
    }

    function NPoints(): nat { |points| }
  }

  /** The ordinates of a point list, point after point. */
  function Flat(ps: seq<Raw>): (ws: seq<word>)
  {
    if ps == [] then [] else ps[0] + Flat(ps[1..])
  }

  /** A list of points of nd ordinates each has nd ordinates per point in all. */
  lemma {:induction false} FlatLength(ps: seq<Raw>, nd: nat)
    requires forall i :: 0 <= i < |ps| ==> |ps[i]| == nd
    ensures |Flat(ps)| == |ps| * nd
  {
    if ps != [] {
      FlatLength(ps[1..], nd);
    }
  }
}
