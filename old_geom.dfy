/**
 * The geometry structs of the older lwgeom tree (lwgeom/lwpoint.c,
 * lwgeom/lwcollection.c, lwgeom/lwmpoint.c, lwgeom/lwmpoly.c): the point's
 * and the collections' serialized forms, their constructors, clones and the
 * `add` operations that build a two-member or a grown collection.
 *
 * Every struct starts with the same header (type, ndims, hasbbox, SRID); a
 * point holds one point array, a collection a counted array of member
 * pointers. Members are objects, so clones are fresh objects and an array
 * of pointers can be shared between two structs.
 *
 * The serializers and deserializers of the members' own types
 * (lwgeom_serialize_buf, lwgeom_deserialize, lwpoly_deserialize,
 * lwgeom_inspect, lwgeom_compute_bbox_p) are not part of this model: their
 * results are parameters.
 */
module OldGeom {
  import opened Bytes
  import opened Wrappers
  import opened OldTypes

  /** The uint32 value a caller's -1 becomes in a `uint32 where` argument. */
  const MINUS_ONE: nat := 0xFFFF_FFFF

  /** sizeof(BOX2DFLOAT4) */
  const BOX_SIZE: nat := 16

  /** The header every geometry struct of the older tree starts with. */
  datatype Header = Header(typ: nat, ndims: nat, srid: int, hasbbox: bool)

  /**
   * LWPOINT, LWCOLLECTION, LWMPOINT and LWMPOLY as one struct: the common
   * header, the point array a point holds, and the member pointers with
   * their count a collection holds.
   */
  class Geom {
    var typ: nat
    var ndims: nat
    var srid: int
    var hasbbox: bool
    var point: Option<OldPtArr>
    var geoms: array<Geom>
    var ngeoms: nat

    function Head(): Header
      reads this
    {
      Header(typ, ndims, srid, hasbbox)
    }

    /** The members the count announces are all in the array. */
    predicate Valid()
      reads this
    {
      ngeoms <= geoms.Length
    }

    /** lwalloc of a struct followed by the stores of all its fields. */
    constructor (h: Header, point: Option<OldPtArr>, geoms: array<Geom>, ngeoms: nat)
      ensures Head() == h && this.point == point && this.geoms == geoms && this.ngeoms == ngeoms
    {
      typ := h.typ;
      ndims := h.ndims;
      srid := h.srid;
      hasbbox := h.hasbbox;
      this.point := point;
      this.geoms := geoms;
      this.ngeoms := ngeoms;
    }
  }

  /** c holds what g holds besides its header: the same point array and the same member array. */
  predicate SameContent(c: Geom, g: Geom)
    reads c, g
  {
    c.point == g.point && c.geoms == g.geoms && c.ngeoms == g.ngeoms
  }

  /** cs are struct copies of gs, one for one and in order. */
  predicate Copies(cs: seq<Geom>, gs: seq<Geom>)
    reads set i | 0 <= i < |cs| :: cs[i]
    reads set i | 0 <= i < |gs| :: gs[i]
  {
    |cs| == |gs| && forall i :: 0 <= i < |cs| ==> cs[i].Head() == gs[i].Head() && SameContent(cs[i], gs[i])
  }

  /** The headers of a list of structs. */
  function Heads(gs: seq<Geom>): (hs: seq<Header>)
    reads set i | 0 <= i < |gs| :: gs[i]
    ensures |hs| == |gs| && forall i :: 0 <= i < |gs| ==> hs[i] == gs[i].Head()
  {
    seq(|gs|, i requires 0 <= i < |gs| reads gs => gs[i].Head())
  }

  /** Copies have the headers of what they copy. */
  lemma CopiesHeads(cs: seq<Geom>, gs: seq<Geom>)
    requires Copies(cs, gs)
    ensures Heads(cs) == Heads(gs)
  {
  }

  // ---- LWPOINT ---------------------------------------------------------

  /** The four SRID bytes, present only when the SRID is not -1. */
  function SridBytes(srid: int): (r: seq<byte>)
    requires IsInt32(srid)
    ensures |r| == if srid != NO_SRID then 4 else 0
  {
    if srid != NO_SRID then Int32Bytes(srid) else []
  }

  /** lwpoint_serialize_size: type byte, SRID, box, and ndims doubles. */
  function PointSerializeSize(h: Header): nat
  {
    1 + (if h.srid != NO_SRID then 4 else 0) + (if h.hasbbox then BOX_SIZE else 0) + h.ndims * 8
  }

  /** The size lwpoint_serialize_buf reports: it counts ordinates only for 2, 3 or 4 dimensions. */
  function PointBufSize(h: Header): nat
  {
    1 + (if h.srid != NO_SRID then 4 else 0) + (if h.hasbbox then BOX_SIZE else 0)
      + (if h.ndims == 3 then 24 else if h.ndims == 2 then 16 else if h.ndims == 4 then 32 else 0)
  }

  /** The two sizes agree exactly when the dimension count is one serialize_buf knows (or 0, which adds nothing to either). */
  lemma PointSizesAgree(h: Header)
    ensures PointBufSize(h) == PointSerializeSize(h) <==> h.ndims == 0 || 2 <= h.ndims <= 4
  {
  }

  /**
   * The bytes lwpoint_serialize_buf writes: the type byte, the box bytes
   * lwgeom_compute_bbox_p fills in (a parameter here) when the point caches
   * a box, the SRID when it is not -1, then the ordinates of point 0.
   */
  function PointBytes(h: Header, pt: Raw, box: seq<byte>): (r: seq<byte>)
    requires 2 <= h.ndims <= 4 && |pt| == h.ndims && |box| == BOX_SIZE && IsInt32(h.srid)
  {
    [MakeType(h.ndims, h.srid != NO_SRID, POINTTYPE, h.hasbbox)] + (if h.hasbbox then box else []) + SridBytes(h.srid) + WordsBytes(pt)
  }

  /** A point lwpoint_serialize_buf can write: its one point has the struct's 2, 3 or 4 ordinates. */
  predicate PointWritable(p: Geom)
    reads p
  {
    2 <= p.ndims <= 4 && IsInt32(p.srid) && p.point.Some? && p.point.value.ndims == p.ndims
    && p.point.value.WellFormed() && |p.point.value.points| >= 1
  }

  /**
   * lwpoint_serialize_buf: writes the layout through an advancing cursor
   * and reports its size, which is the size serialize_size computes.
   */
  method PointSerializeBuf(p: Geom, box: seq<byte>, buf: array<byte>) returns (retsize: nat)
    requires PointWritable(p) && |box| == BOX_SIZE && PointSerializeSize(p.Head()) <= buf.Length
    modifies buf
    ensures retsize == PointBufSize(p.Head()) == PointSerializeSize(p.Head())
    ensures buf[..retsize] == PointBytes(p.Head(), p.point.value.points[0], box)
    ensures buf[retsize..] == old(buf[retsize..])
  {
    var hasSRID := p.srid != NO_SRID;
    var size := 1;
    if hasSRID {
      size := size + 4;
    }
    if p.hasbbox {
      size := size + BOX_SIZE;
    }
    if p.ndims == 3 {
      size := size + 24;
    } else if p.ndims == 2 {
      size := size + 16;
    } else if p.ndims == 4 {
      size := size + 32;
    }
    var t := MakeType(p.ndims, hasSRID, POINTTYPE, p.hasbbox);
    var bx := if p.hasbbox then box else [];
    var loc := PutHead(buf, t, bx, p.srid);
    var pt := p.point.value.points[0];
    loc := PutRest(buf, loc, WordsBytes(pt));
    assert loc == size;
    retsize := size;
  }

  /**
   * The head every serialize_buf of the older tree writes through its
   * cursor: the type byte, the box bytes when there are any, the SRID when
   * it is not -1.
   */
  method PutHead(buf: array<byte>, t: byte, bx: seq<byte>, srid: int) returns (loc: nat)
    requires IsInt32(srid) && 1 + |bx| + 4 <= buf.Length
    modifies buf
    ensures loc == 1 + |bx| + |SridBytes(srid)|
    ensures buf[..loc] == [t] + bx + SridBytes(srid)
    ensures forall i :: loc <= i < buf.Length ==> buf[i] == old(buf[i])
  {
    buf[0] := t;
    assert buf[..1] == [t];
    loc := PutRest(buf, 1, bx);
    loc := PutRest(buf, loc, SridBytes(srid));
  }

  /** Put, stated position by position for what follows the copied bytes. */
  method PutRest(buf: array<byte>, loc: nat, s: seq<byte>) returns (next: nat)
    requires loc + |s| <= buf.Length
    modifies buf
    ensures next == loc + |s|
    ensures buf[..next] == old(buf[..loc]) + s
    ensures forall i :: next <= i < buf.Length ==> buf[i] == old(buf[i])
  {
    next := Put(buf, loc, s);
    forall i | next <= i < buf.Length
      ensures buf[i] == old(buf[i])
    {
      assert buf[i] == buf[next..][i - next];
    }
  }

  /** What lwpoint_deserialize builds, as values: the struct's header and its point array. */
  datatype Decoded = Decoded(head: Header, pa: OldPtArr)

  /** The bytes lwpoint_deserialize reads: a non-point type byte is looked at alone. */
  predicate PointReadable(s: seq<byte>)
  {
    |s| >= 1 &&
    (TypeSimple(s[0]) == POINTTYPE ==>
      |s| >= 1 + (if TypeHasBBox(s[0]) then BOX_SIZE else 0) + (if TypeHasSrid(s[0]) then 4 else 0) + 8 * TypeNdims(s[0]))
  }

  /**
   * lwpoint_deserialize: NULL for a non-point type byte; otherwise the box
   * is skipped when flagged, the SRID is read when flagged and is -1
   * otherwise, and one point of the type byte's dimension count follows.
   */
  function PointDecode(s: seq<byte>): (r: Option<Decoded>)
    requires PointReadable(s)
  {
    var t := s[0];
    if TypeSimple(t) != POINTTYPE then None
    else
      var loc := 1 + (if TypeHasBBox(t) then BOX_SIZE else 0);
      var srid := if TypeHasSrid(t) then Int32Of(s[loc..loc + 4]) else NO_SRID;
      var at := loc + (if TypeHasSrid(t) then 4 else 0);
      var nd := TypeNdims(t);
      Some(Decoded(Header(POINTTYPE, nd, srid, TypeHasBBox(t)), OldPtArr(nd, [WordsOf(s[at..at + 8 * nd])])))
  }

  /** A decoded point is a well-formed point struct of the type byte's dimension count. */
  lemma PointDecodeShape(s: seq<byte>)
    requires PointReadable(s)
    ensures PointDecode(s).None? <==> TypeSimple(s[0]) != POINTTYPE
    ensures PointDecode(s).Some? ==>
      var d := PointDecode(s).value;
      d.head.typ == POINTTYPE && d.head.ndims == TypeNdims(s[0]) == d.pa.ndims && |d.pa.points| == 1
      && |d.pa.points[0]| == d.head.ndims && d.head.hasbbox == TypeHasBBox(s[0])
      && (d.head.srid == NO_SRID <== !TypeHasSrid(s[0]))
  {
  }

  /** lwpoint_deserialize inverts lwpoint_serialize_buf: header, SRID (-1 when absent) and the point come back. */
  lemma PointRoundTrip(h: Header, pt: Raw, box: seq<byte>)
    requires 2 <= h.ndims <= 4 && |pt| == h.ndims && |box| == BOX_SIZE && IsInt32(h.srid)
    ensures PointReadable(PointBytes(h, pt, box))
    ensures PointDecode(PointBytes(h, pt, box)) == Some(Decoded(h.(typ := POINTTYPE), OldPtArr(h.ndims, [pt])))
  {
    var s := PointBytes(h, pt, box);
    var t := MakeType(h.ndims, h.srid != NO_SRID, POINTTYPE, h.hasbbox);
    MakeTypeReadsBack(h.ndims, h.srid != NO_SRID, POINTTYPE, h.hasbbox);
    var bx := if h.hasbbox then box else [];
    var loc := 1 + |bx|;
    var sb := SridBytes(h.srid);
    var at := loc + |sb|;
    var ws := WordsBytes(pt);
    assert s == ([t] + bx) + sb + ws;
    assert s[0] == t;
    if h.srid != NO_SRID {
      SliceOfConcat(s, [t] + bx, sb + ws, loc, 0, 4);
      assert (sb + ws)[0..4] == sb;
      Int32RoundTrip(h.srid);
    }
    SliceOfConcat(s, ([t] + bx) + sb, ws, at, 0, |ws|);
    assert ws[0..|ws|] == ws;
    WordsRoundTrip(pt);
  }

  /**
   * lwpoint_deserialize as the cursor reads it: a fresh struct holding what
   * PointDecode describes, or NULL (None) for another type.
   */
  method PointDeserialize(s: seq<byte>) returns (r: Option<Geom>)
    requires PointReadable(s)
    ensures r.None? <==> PointDecode(s).None?
    ensures r.Some? ==> (fresh(r.value) && r.value.Head() == PointDecode(s).value.head
      && r.value.point == Some(PointDecode(s).value.pa) && r.value.ngeoms == 0)
  {
    var t := s[0];
    if TypeSimple(t) != POINTTYPE {
      return None;
    }
    var loc := 1;
    var hasbbox := false;
    if TypeHasBBox(t) {
      hasbbox := true;
      loc := loc + BOX_SIZE;
    }
    var srid := NO_SRID;
    if TypeHasSrid(t) {
      srid := Int32Of(s[loc..loc + 4]);
      loc := loc + 4;
    }
    var nd := TypeNdims(t);
    var pa := OldPtArr(nd, [WordsOf(s[loc..loc + 8 * nd])]);
    var none := new Geom[0];
    var g := new Geom(Header(POINTTYPE, nd, srid, hasbbox), Some(pa), none, 0);
    return Some(g);
  }

  /**
   * lwpoint_construct: NULL for a NULL array; otherwise a point struct
   * with the given dimension count and SRID. hasbbox is never stored, so it
   * holds whatever the allocation held: the parameter `leftover`.
   */
  method PointConstruct(ndims: nat, srid: int, point: Option<OldPtArr>, leftover: bool) returns (r: Option<Geom>)
    ensures r.None? <==> point.None?
    ensures r.Some? ==> (fresh(r.value) && r.value.Head() == Header(POINTTYPE, ndims, srid, leftover)
      && r.value.point == point && r.value.ngeoms == 0)
  {
    if point.None? {
      return None;
    }
    var none := new Geom[0];
    var g := new Geom(Header(POINTTYPE, ndims, srid, leftover), point, none, 0);
    return Some(g);
  }

  /**
   * lwpoint_clone: a memcpy of the struct, so the copy shares the point
   * array and any member array. Members are cloned the same way wherever
   * lwgeom_clone is called (its dispatch is not part of this model).
   */
  method Clone(g: Geom) returns (r: Geom)
    ensures fresh(r) && r.Head() == g.Head() && SameContent(r, g)
  {
    r := new Geom(g.Head(), g.point, g.geoms, g.ngeoms);
  }

  /** A member as lwpoint_add leaves it: SRID -1 and no box. */
  function Reset(h: Header): (r: Header)
    ensures r.typ == h.typ && r.ndims == h.ndims && r.srid == NO_SRID && !r.hasbbox
  {
    h.(srid := NO_SRID, hasbbox := false)
  }

  /** The member headers lwpoint_add builds: the target then the addition for -1, the reverse for 0. */
  function PairHeads(where: nat, to: Header, what: Header): seq<Header>
  {
    if where == MINUS_ONE then [Reset(to), Reset(what)] else [Reset(what), Reset(to)]
  }

  /** The type lwpoint_add and lwmpoint_add give their result: MULTIPOINT for a point addition, else COLLECTION. */
  function AddedType(what: Header): (t: nat)
    ensures t == MULTIPOINTTYPE <==> what.typ == POINTTYPE
    ensures t != MULTIPOINTTYPE ==> t == COLLECTIONTYPE
  {
    if what.typ == POINTTYPE then MULTIPOINTTYPE else COLLECTIONTYPE
  }

  /** s with x inserted at pos. */
  function Inserted<T>(s: seq<T>, pos: nat, x: T): (r: seq<T>)
    requires pos <= |s|
    ensures |r| == |s| + 1 && r[pos] == x
    ensures forall i :: 0 <= i < pos ==> r[i] == s[i]
    ensures forall i :: pos < i <= |s| ==> r[i] == s[i - 1]
  {
    s[..pos] + [x] + s[pos..]
  }

  /** s with the element at pos removed. */
  function Removed<T>(s: seq<T>, pos: nat): (r: seq<T>)
    requires pos < |s|
    ensures |r| == |s| - 1
  {
    s[..pos] + s[pos + 1..]
  }

  /** Removing what was inserted gives the original sequence back. */
  lemma RemoveInserted<T>(s: seq<T>, pos: nat, x: T)
    requires pos <= |s|
    ensures Removed(Inserted(s, pos, x), pos) == s
  {
    var r := Inserted(s, pos, x);
    assert r[..pos] == s[..pos];
    assert r[pos + 1..] == s[pos..];
    assert s[..pos] + s[pos..] == s;
  }

  /** lwpoint_add's pair is the target with the addition inserted in front (0) or behind (-1), both reset. */
  lemma PairIsInsertion(where: nat, to: Header, what: Header)
    requires where == 0 || where == MINUS_ONE
    ensures var ins := Inserted([to], if where == MINUS_ONE then 1 else 0, what);
      PairHeads(where, to, what) == [Reset(ins[0]), Reset(ins[1])]
  {
  }

  /**
   * lwpoint_add: only 0 (prepend) and -1 (append) are accepted; the result
   * is a new two-member collection of fresh clones, ordered by `where`,
   * whose members lose their SRID and box, with the target's dimension
   * count and SRID and a box if either input had one.
   */
  method PointAdd(to: Geom, where: nat, what: Geom) returns (r: Result<Geom>)
    requires where < TWO32
    ensures r.Err? <==> where != 0 && where != MINUS_ONE
    ensures r.Ok? ==>
      var c := r.value;
      fresh(c) && fresh(c.geoms) && c.geoms.Length == 2 && fresh(c.geoms[0]) && fresh(c.geoms[1])
      && c.Head() == Header(AddedType(what.Head()), to.ndims, to.srid, what.hasbbox || to.hasbbox)
      && c.ngeoms == 2 && c.point.None?
      && Heads(c.geoms[..]) == PairHeads(where, to.Head(), what.Head())
      && SameContent(c.geoms[0], if where == MINUS_ONE then to else what)
      && SameContent(c.geoms[1], if where == MINUS_ONE then what else to)
  {
    if where != MINUS_ONE && where != 0 {
      return Err("lwpoint_add only supports 0 or -1 as second argument");
    }
    var geoms := ResetPair(if where == MINUS_ONE then to else what, if where == MINUS_ONE then what else to);
    var addedType := if what.typ == POINTTYPE then MULTIPOINTTYPE else COLLECTIONTYPE;
    var col := CollectionConstruct(addedType, to.ndims, to.srid, what.hasbbox || to.hasbbox, 2, geoms);
    return Ok(col);
  }

  /** The member array lwpoint_add builds: fresh clones of a and b, in that order, with SRID -1 and no box. */
  method ResetPair(a: Geom, b: Geom) returns (geoms: array<Geom>)
    ensures fresh(geoms) && geoms.Length == 2 && fresh(geoms[0]) && fresh(geoms[1])
    ensures geoms[0].Head() == Reset(a.Head()) && geoms[1].Head() == Reset(b.Head())
    ensures SameContent(geoms[0], a) && SameContent(geoms[1], b)
  {
    var first := Clone(a);
    var second := Clone(b);
    first.srid, second.srid := NO_SRID, NO_SRID;
    first.hasbbox, second.hasbbox := false, false;
    geoms := new Geom[2](_ => first);
    geoms[1] := second;
  }

  // ---- LWCOLLECTION ----------------------------------------------------

  /**
   * lwcollection_construct: a new struct holding the given header fields and
   * the given member array itself (not a copy). The SRID travels through a
   * uint32 parameter and back into the int32 field, which keeps it.
   */
  method CollectionConstruct(typ: nat, ndims: nat, srid: int, hasbbox: bool, ngeoms: nat, geoms: array<Geom>)
    returns (r: Geom)
    ensures fresh(r) && r.Head() == Header(typ, ndims, srid, hasbbox)
    ensures r.geoms == geoms && r.ngeoms == ngeoms && r.point.None?
  {
    r := new Geom(Header(typ, ndims, srid, hasbbox), None, geoms, ngeoms);
  }

  /** A fresh copy of g's header and content. */
  predicate CopyOf(c: Geom, g: Geom)
    reads c, g
  {
    c.Head() == g.Head() && SameContent(c, g)
  }

  /**
   * The position lwcollection_add and lwmpoint_add insert at, as written:
   * -1 means the end; otherwise `where < -1 || where > ngeoms` rejects it.
   * With `where` a uint32, the -1 there is 0xFFFFFFFF, so every position
   * but -1 itself is rejected, 0 (prepend) included.
   */
  function AddPositionAsWritten(where: nat, n: nat): (r: Option<nat>)
    requires where < TWO32
  {
    if where == MINUS_ONE then Some(n)
    else if where < MINUS_ONE || where > n then None
    else Some(where)
  }

  /** As written, only an append gets through. */
  lemma AddAsWrittenOnlyAppends(where: nat, n: nat)
    requires where < TWO32
    ensures AddPositionAsWritten(where, n).Some? <==> where == MINUS_ONE
    ensures AddPositionAsWritten(where, n).Some? ==> AddPositionAsWritten(where, n).value == n
  {
  }

  /** The position the comments promise: -1 for the end, 0 to ngeoms as given, anything past the end an error. */
  function AddPosition(where: nat, n: nat): (r: Option<nat>)
    requires where < TWO32
    ensures r.Some? <==> where == MINUS_ONE || where <= n
    ensures r.Some? ==> r.value <= n
    ensures where != MINUS_ONE && where <= n ==> r == Some(where)
  {
    if where == MINUS_ONE then Some(n)
    else if where > n then None
    else Some(where)
  }

  /** Prepending to a non-empty collection is refused as written and accepted as intended. */
  lemma PrependRejectedAsWritten(n: nat)
    ensures AddPositionAsWritten(0, n).None?
    ensures AddPosition(0, n) == Some(0)
  {
  }

  /**
   * The member array lwcollection_add and lwmpoint_add build: ngeoms + 1
   * fresh clones, the target's members before pos, the addition at pos,
   * the remaining members after it.
   */
  method ClonedInsert(src: array<Geom>, n: nat, pos: nat, what: Geom) returns (geoms: array<Geom>)
    requires n <= src.Length && pos <= n
    ensures fresh(geoms) && geoms.Length == n + 1
    ensures forall i :: 0 <= i < geoms.Length ==> fresh(geoms[i])
    ensures Copies(geoms[..], Inserted(src[..n], pos, what))
  {
    var c := Clone(what);
    geoms := new Geom[n + 1](_ => c);
    CloneInto(src, 0, pos, geoms, 0);
    geoms[pos] := c;
    CloneInto(src, pos, n, geoms, 1);
    ghost var ins := Inserted(src[..n], pos, what);
    forall i | 0 <= i < geoms.Length
      ensures CopyOf(geoms[i], ins[i])
    {
      if i > pos {
        assert ins[i] == src[i - 1];
      }
    }
  }

  /** The clone loops of the add operations: dst[j + shift] := lwgeom_clone(src[j]) for j in [lo, hi). */
  method CloneInto(src: array<Geom>, lo: nat, hi: nat, dst: array<Geom>, shift: nat)
    requires lo <= hi <= src.Length && hi + shift <= dst.Length && src != dst
    modifies dst
    ensures forall j :: lo + shift <= j < hi + shift ==> fresh(dst[j]) && CopyOf(dst[j], old(src[j - shift]))
    ensures forall j :: 0 <= j < dst.Length && !(lo + shift <= j < hi + shift) ==> dst[j] == old(dst[j])
  {
    var i := lo;
    while i < hi
      invariant lo <= i <= hi
      invariant forall j :: lo + shift <= j < i + shift ==> fresh(dst[j]) && CopyOf(dst[j], old(src[j - shift]))
      invariant forall j :: 0 <= j < dst.Length && !(lo + shift <= j < i + shift) ==> dst[j] == old(dst[j])
    {
      var c := Clone(src[i]);
      dst[i + shift] := c;
      i := i + 1;
    }
  }

  /**
   * lwcollection_add (with the intended position check): a new
   * GEOMETRYCOLLECTION of ngeoms + 1 fresh clones with the addition at
   * its position and the target's members around it in order, with the
   * target's dimension count and SRID and a box if either input had one.
   */
  method CollectionAdd(to: Geom, where: nat, what: Geom) returns (r: Result<Geom>)
    requires to.Valid() && where < TWO32
    ensures r.Err? <==> AddPosition(where, to.ngeoms).None?
    ensures r.Ok? ==> (
      var c := r.value;
      fresh(c) && fresh(c.geoms) && (forall i :: 0 <= i < c.geoms.Length ==> fresh(c.geoms[i]))
      && c.Head() == Header(COLLECTIONTYPE, to.ndims, to.srid, what.hasbbox || to.hasbbox)
      && c.point.None? && c.ngeoms == to.ngeoms + 1
      && Copies(c.geoms[..], Inserted(to.geoms[..to.ngeoms], AddPosition(where, to.ngeoms).value, what)))
  {
    var pos := AddPosition(where, to.ngeoms);
    if pos.None? {
      return Err("lwcollection_add: add position out of range");
    }
    var geoms := ClonedInsert(to.geoms, to.ngeoms, pos.value, what);
    var col := CollectionConstruct(COLLECTIONTYPE, to.ndims, to.srid, what.hasbbox || to.hasbbox, to.ngeoms + 1, geoms);
    return Ok(col);
  }

  /**
   * lwmpoint_add (with the intended position check): as lwcollection_add,
   * but the result is a MULTIPOINT when the addition is a point.
   */
  method MPointAdd(to: Geom, where: nat, what: Geom) returns (r: Result<Geom>)
    requires to.Valid() && where < TWO32
    ensures r.Err? <==> AddPosition(where, to.ngeoms).None?
    ensures r.Ok? ==> (
      var c := r.value;
      fresh(c) && fresh(c.geoms) && (forall i :: 0 <= i < c.geoms.Length ==> fresh(c.geoms[i]))
      && c.Head() == Header(AddedType(what.Head()), to.ndims, to.srid, what.hasbbox || to.hasbbox)
      && c.point.None? && c.ngeoms == to.ngeoms + 1
      && Copies(c.geoms[..], Inserted(to.geoms[..to.ngeoms], AddPosition(where, to.ngeoms).value, what)))
  {
    var pos := AddPosition(where, to.ngeoms);
    if pos.None? {
      return Err("lwmpoint_add: add position out of range");
    }
    var geoms := ClonedInsert(to.geoms, to.ngeoms, pos.value, what);
    var addedType := if what.typ == POINTTYPE then MULTIPOINTTYPE else COLLECTIONTYPE;
    var col := CollectionConstruct(addedType, to.ndims, to.srid, what.hasbbox || to.hasbbox, to.ngeoms + 1, geoms);
    return Ok(col);
  }

  /** The members of an added-to collection, read back without the addition, are the target's members in order. */
  lemma AddedMembersKeepOrder(cs: seq<Geom>, src: seq<Geom>, pos: nat, what: Geom)
    requires pos <= |src| && Copies(cs, Inserted(src, pos, what))
    ensures Heads(cs) == Inserted(Heads(src), pos, what.Head())
    ensures Removed(Heads(cs), pos) == Heads(src)
  {
    RemoveInserted(Heads(src), pos, what.Head());
  }

  /**
   * lwcollection_clone as written: the memcpy copies the pointer to the
   * member array, so the clone loop stores the member clones into the
   * source's own array. The clone and the source share one array, and the
   * source's members are replaced by copies.
   */
  method CollectionCloneAsWritten(g: Geom) returns (r: Geom)
    requires g.Valid()
    modifies g.geoms
    ensures fresh(r) && r.Head() == g.Head() && SameContent(r, g)
    ensures forall i :: 0 <= i < g.ngeoms ==> fresh(g.geoms[i])
    ensures Copies(g.geoms[..g.ngeoms], old(g.geoms[..g.ngeoms]))
    ensures g.geoms[g.ngeoms..] == old(g.geoms[g.ngeoms..])
  {
    r := Clone(g);
    var i := 0;
    while i < g.ngeoms
      invariant 0 <= i <= g.ngeoms
      invariant CopyOf(r, g)
      invariant forall j :: 0 <= j < i ==> fresh(g.geoms[j]) && CopyOf(g.geoms[j], old(g.geoms[j]))
      invariant forall j :: i <= j < g.geoms.Length ==> g.geoms[j] == old(g.geoms[j])
    {
      var c := Clone(g.geoms[i]);
      r.geoms[i] := c;
      i := i + 1;
    }
  }

  /** The clone lwcollection_clone evidently means: a fresh member array of fresh copies, the source untouched. */
  method CollectionClone(g: Geom) returns (r: Geom)
    requires g.Valid()
    ensures fresh(r) && fresh(r.geoms) && r.Head() == g.Head() && r.point == g.point && r.ngeoms == g.ngeoms
    ensures forall i :: 0 <= i < r.geoms.Length ==> fresh(r.geoms[i])
    ensures Copies(r.geoms[..], g.geoms[..g.ngeoms])
  {
    var geoms := new Geom[g.ngeoms](_ => g);
    var i := 0;
    while i < g.ngeoms
      invariant 0 <= i <= g.ngeoms
      invariant forall j :: 0 <= j < i ==> fresh(geoms[j]) && CopyOf(geoms[j], g.geoms[j])
    {
      geoms[i] := Clone(g.geoms[i]);
      i := i + 1;
    }
    r := new Geom(g.Head(), g.point, geoms, g.ngeoms);
  }

  /** A one-member collection cloned as written no longer holds its member: the source's array now points at the copy. */
  method CloneReplacesSourceMember() returns (member: Geom, after: Geom)
    ensures member != after
  {
    var none := new Geom[0];
    member := new Geom(Header(POINTTYPE, 2, NO_SRID, false), None, none, 0);
    var geoms := new Geom[1](_ => member);
    var coll := CollectionConstruct(COLLECTIONTYPE, 2, NO_SRID, false, 1, geoms);
    var copy := CollectionCloneAsWritten(coll);
    after := coll.geoms[0];
  }

  // ---- serialized collections -------------------------------------------

  /** The summed length of the members' serialized forms. */
  function Total(subs: seq<seq<byte>>): nat
  {
    if subs == [] then 0 else Total(subs[..|subs| - 1]) + |subs[|subs| - 1]|
  }

  /** The members' serialized forms one after the other. */
  function Concat(subs: seq<seq<byte>>): (r: seq<byte>)
  {
    if subs == [] then [] else Concat(subs[..|subs| - 1]) + subs[|subs| - 1]
  }

  /** The concatenation is as long as the summed lengths, and no member is longer than the sum. */
  lemma {:induction false} ConcatLength(subs: seq<seq<byte>>)
    ensures |Concat(subs)| == Total(subs)
    ensures forall i :: 0 <= i < |subs| ==> |subs[i]| <= Total(subs)
  {
    if subs != [] {
      var init := subs[..|subs| - 1];
      ConcatLength(init);
      forall i | 0 <= i < |subs| - 1
        ensures |subs[i]| <= Total(subs)
      {
        assert subs[i] == init[i];
      }
    }
  }

  /**
   * What writing each member at the same offset leaves: every member is
   * copied over the start of what the previous ones left, so the last
   * member's bytes win wherever it reaches.
   */
  function Overlay(base: seq<byte>, subs: seq<seq<byte>>): (r: seq<byte>)
    requires forall i :: 0 <= i < |subs| ==> |subs[i]| <= |base|
    ensures |r| == |base|
    decreases |subs|
  {
    if subs == [] then base
    else Overlay(subs[0] + base[|subs[0]|..], subs[1..])
  }

  /**
   * The collection head the serialize_buf functions write: the type byte,
   * the box bytes if any, the SRID when it is not -1, the member count.
   */
  function CollHeadBytes(t: byte, bx: seq<byte>, srid: int, n: nat): (r: seq<byte>)
    requires IsInt32(srid) && n < TWO32
    ensures |r| == 5 + |bx| + |SridBytes(srid)|
  {
    [t] + bx + SridBytes(srid) + UInt32Bytes(n)
  }

  /** lwcollection_serialize_size: type byte and count, SRID, box, and the members' sizes. */
  function CollectionSerializeSize(h: Header, subs: seq<seq<byte>>): nat
  {
    5 + (if h.srid != NO_SRID then 4 else 0) + (if h.hasbbox then BOX_SIZE else 0) + Total(subs)
  }

  /** lwmpoly_serialize_size: type byte and count, SRID, and the polygons' sizes (no box). */
  function MPolySerializeSize(h: Header, subs: seq<seq<byte>>): nat
  {
    5 + (if h.srid != NO_SRID then 4 else 0) + Total(subs)
  }

  /**
   * The type byte lwcollection_serialize_buf and lwmpoly_serialize_buf
   * write: lwgeom_makeType takes no box flag, so the byte never announces
   * a box.
   */
  function CollTypeByte(h: Header, typ: nat): byte
    requires 2 <= h.ndims <= 5 && typ < 16
  {
    MakeType(h.ndims, h.srid != NO_SRID, typ, false)
  }

  /** A collection struct the serialize_buf functions can write, with what lwgeom_serialize_buf writes for each member. */
  predicate CollWritable(c: Geom, subs: seq<seq<byte>>)
    reads c
  {
    2 <= c.ndims <= 5 && IsInt32(c.srid) && c.ngeoms < TWO32 && |subs| == c.ngeoms
  }

  /**
   * The member loop of lwcollection_serialize_buf and lwmpoly_serialize_buf
   * as written: each member is written at loc, which is never advanced;
   * the sizes are summed.
   */
  method PutMembersAtOneOffset(buf: array<byte>, loc: nat, subs: seq<seq<byte>>) returns (total: nat)
    requires loc + Total(subs) <= buf.Length
    modifies buf
    ensures total == Total(subs)
    ensures buf[..loc] == old(buf[..loc])
    ensures (ConcatLength(subs); buf[loc..] == Overlay(old(buf[loc..]), subs))
  {
    ConcatLength(subs);
    total := 0;
    var i := 0;
    while i < |subs|
      invariant 0 <= i <= |subs|
      invariant total == Total(subs[..i])
      invariant buf[..loc] == old(buf[..loc])
      invariant Overlay(buf[loc..], subs[i..]) == Overlay(old(buf[loc..]), subs)
    {
      ghost var before := buf[loc..];
      var next := PutRest(buf, loc, subs[i]);
      assert buf[loc..] == subs[i] + before[|subs[i]|..] by {
        forall k | 0 <= k < |buf[loc..]|
          ensures buf[loc..][k] == (subs[i] + before[|subs[i]|..])[k]
        {
          if k < |subs[i]| {
            assert buf[loc + k] == buf[..next][loc + k];
          }
        }
      }
      assert subs[i..][1..] == subs[i + 1..];
      assert subs[..i + 1][..i] == subs[..i];
      total := total + |subs[i]|;
      i := i + 1;
    }
    assert subs[..|subs|] == subs;
  }

  /** The member loop as evidently intended: each member is written after the previous one. */
  method PutMembersInTurn(buf: array<byte>, loc: nat, subs: seq<seq<byte>>) returns (next: nat)
    requires loc + Total(subs) <= buf.Length
    modifies buf
    ensures next == loc + Total(subs)
    ensures buf[..next] == old(buf[..loc]) + Concat(subs)
    ensures forall k :: next <= k < buf.Length ==> buf[k] == old(buf[k])
  {
    ConcatLength(subs);
    next := loc;
    var i := 0;
    while i < |subs|
      invariant 0 <= i <= |subs|
      invariant next == loc + Total(subs[..i]) && Total(subs[..i]) <= Total(subs)
      invariant buf[..next] == old(buf[..loc]) + Concat(subs[..i])
      invariant forall k :: next <= k < buf.Length ==> buf[k] == old(buf[k])
    {
      TotalPrefix(subs, i + 1);
      assert subs[..i + 1][..i] == subs[..i];
      next := PutRest(buf, next, subs[i]);
      i := i + 1;
    }
    assert subs[..|subs|] == subs;
  }

  /** A prefix of the members is no longer in all than all of them. */
  lemma {:induction false} TotalPrefix(subs: seq<seq<byte>>, k: nat)
    requires k <= |subs|
    ensures Total(subs[..k]) <= Total(subs)
    decreases |subs|
  {
    if k < |subs| {
      var init := subs[..|subs| - 1];
      assert init[..k] == subs[..k];
      TotalPrefix(init, k);
    } else {
      assert subs[..k] == subs;
    }
  }

  /** Writes a collection head followed by the members, through one of the two member loops. */
  method PutCollection(buf: array<byte>, t: byte, bx: seq<byte>, srid: int, subs: seq<seq<byte>>, inTurn: bool)
    returns (hl: nat, total: nat)
    requires IsInt32(srid) && |subs| < TWO32 && 5 + |bx| + |SridBytes(srid)| + Total(subs) <= buf.Length
    modifies buf
    ensures hl == |CollHeadBytes(t, bx, srid, |subs|)| && total == Total(subs)
    ensures buf[..hl] == CollHeadBytes(t, bx, srid, |subs|)
    ensures inTurn ==> buf[hl..hl + total] == Concat(subs) && buf[hl + total..] == old(buf[hl + total..])
    ensures !inTurn ==> (ConcatLength(subs); buf[hl..] == Overlay(old(buf[hl..]), subs))
  {
    var loc := PutHead(buf, t, bx, srid);
    hl := PutRest(buf, loc, UInt32Bytes(|subs|));
    ghost var mid := buf[..];
    assert mid[hl..] == old(buf[hl..]);
    if inTurn {
      var next := PutMembersInTurn(buf, hl, subs);
      total := next - hl;
      assert buf[hl..next] == buf[..next][hl..];
      assert buf[next..] == old(buf[next..]);
    } else {
      total := PutMembersAtOneOffset(buf, hl, subs);
    }
  }

  /**
   * lwcollection_serialize_buf as written: the head, then every member at
   * the same offset; the reported size is the one serialize_size computes.
   */
  method CollectionSerializeBufAsWritten(coll: Geom, box: seq<byte>, subs: seq<seq<byte>>, buf: array<byte>)
    returns (retsize: nat)
    requires CollWritable(coll, subs) && |box| == BOX_SIZE && CollectionSerializeSize(coll.Head(), subs) <= buf.Length
    modifies buf
    ensures retsize == CollectionSerializeSize(coll.Head(), subs)
    ensures var hb := CollHeadBytes(CollTypeByte(coll.Head(), COLLECTIONTYPE), if coll.hasbbox then box else [], coll.srid, coll.ngeoms);
      buf[..|hb|] == hb && (ConcatLength(subs); buf[|hb|..] == Overlay(old(buf[|hb|..]), subs))
  {
    var hl, total := PutCollection(buf, CollTypeByte(coll.Head(), COLLECTIONTYPE), if coll.hasbbox then box else [], coll.srid, subs, false);
    retsize := hl + total;
  }

  /** lwcollection_serialize_buf as intended: the head, then the members one after the other, exactly the reported size. */
  method CollectionSerializeBuf(coll: Geom, box: seq<byte>, subs: seq<seq<byte>>, buf: array<byte>)
    returns (retsize: nat)
    requires CollWritable(coll, subs) && |box| == BOX_SIZE && CollectionSerializeSize(coll.Head(), subs) <= buf.Length
    modifies buf
    ensures retsize == CollectionSerializeSize(coll.Head(), subs)
    ensures buf[..retsize] == CollHeadBytes(CollTypeByte(coll.Head(), COLLECTIONTYPE), if coll.hasbbox then box else [], coll.srid, coll.ngeoms) + Concat(subs)
    ensures buf[retsize..] == old(buf[retsize..])
  {
    var hl, total := PutCollection(buf, CollTypeByte(coll.Head(), COLLECTIONTYPE), if coll.hasbbox then box else [], coll.srid, subs, true);
    retsize := hl + total;
    assert buf[..retsize] == buf[..hl] + buf[hl..retsize];
  }

  /** lwmpoly_serialize_buf as written: no box, then every polygon at the same offset; the size serialize_size computes. */
  method MPolySerializeBufAsWritten(mpoly: Geom, subs: seq<seq<byte>>, buf: array<byte>) returns (retsize: nat)
    requires CollWritable(mpoly, subs) && MPolySerializeSize(mpoly.Head(), subs) <= buf.Length
    modifies buf
    ensures retsize == MPolySerializeSize(mpoly.Head(), subs)
    ensures var hb := CollHeadBytes(CollTypeByte(mpoly.Head(), MULTIPOLYGONTYPE), [], mpoly.srid, mpoly.ngeoms);
      buf[..|hb|] == hb && (ConcatLength(subs); buf[|hb|..] == Overlay(old(buf[|hb|..]), subs))
  {
    var hl, total := PutCollection(buf, CollTypeByte(mpoly.Head(), MULTIPOLYGONTYPE), [], mpoly.srid, subs, false);
    retsize := hl + total;
  }

  /** lwmpoly_serialize_buf as intended: the polygons one after the other, exactly the reported size. */
  method MPolySerializeBuf(mpoly: Geom, subs: seq<seq<byte>>, buf: array<byte>) returns (retsize: nat)
    requires CollWritable(mpoly, subs) && MPolySerializeSize(mpoly.Head(), subs) <= buf.Length
    modifies buf
    ensures retsize == MPolySerializeSize(mpoly.Head(), subs)
    ensures buf[..retsize] == CollHeadBytes(CollTypeByte(mpoly.Head(), MULTIPOLYGONTYPE), [], mpoly.srid, mpoly.ngeoms) + Concat(subs)
    ensures buf[retsize..] == old(buf[retsize..])
  {
    var hl, total := PutCollection(buf, CollTypeByte(mpoly.Head(), MULTIPOLYGONTYPE), [], mpoly.srid, subs, true);
    retsize := hl + total;
    assert buf[..retsize] == buf[..hl] + buf[hl..retsize];
  }

  /**
   * Two members of the same length with different bytes: writing both at
   * one offset leaves the second where the first belongs, so the bytes
   * differ from the members laid one after the other.
   */
  lemma OverlayLosesFirstMember(base: seq<byte>, a: seq<byte>, b: seq<byte>)
    requires |a| == |b| && a != b && |a| + |b| <= |base|
    ensures Overlay(base, [a, b]) == b + base[|a|..]
    ensures Overlay(base, [a, b]) != Concat([a, b]) + base[|a| + |b|..]
  {
    OverlayPair(base, a, b);
    ConcatPair(a, b);
    var m := b + base[|a|..];
    var c := a + b + base[|a| + |b|..];
    assert m[..|a|] == b;
    assert c[..|a|] == a;
  }

  /** Two members of the same length written at one offset: the second over the first. */
  lemma OverlayPair(base: seq<byte>, a: seq<byte>, b: seq<byte>)
    requires |a| == |b| && |a| + |b| <= |base|
    ensures Overlay(base, [a, b]) == b + base[|a|..]
  {
    var m := a + base[|a|..];
    OverlayStep(base, [a, b]);
    assert [a, b][1..] == [b];
    OverlayStep(m, [b]);
    assert [b][1..] == [];
    assert m[|b|..] == base[|a|..];
  }

  /** One step of Overlay: the first member is copied over the start. */
  lemma OverlayStep(base: seq<byte>, subs: seq<seq<byte>>)
    requires subs != [] && forall i :: 0 <= i < |subs| ==> |subs[i]| <= |base|
    ensures Overlay(base, subs) == Overlay(subs[0] + base[|subs[0]|..], subs[1..])
  {
  }

  /** Two members laid out in turn. */
  lemma ConcatPair(a: seq<byte>, b: seq<byte>)
    ensures Concat([a, b]) == a + b
  {
    assert [a, b][..1] == [a];
    assert [a][..0] == [];
    assert Concat([a]) == Concat([]) + a;
  }

  // ---- deserializing collections -----------------------------------------

  /** What lwgeom_inspect reports of a serialized collection: its SRID and the bytes of each member. */
  datatype Inspected = Inspected(srid: int, subs: seq<seq<byte>>)

  /** A fresh member struct for each header, in order. */
  method MemberStructs(hs: seq<Header>) returns (geoms: array<Geom>)
    ensures fresh(geoms) && geoms.Length == |hs|
    ensures forall i :: 0 <= i < |hs| ==> fresh(geoms[i]) && geoms[i].Head() == hs[i] && geoms[i].ngeoms == 0
  {
    var none := new Geom[0];
    var filler := new Geom(Header(0, 0, NO_SRID, false), None, none, 0);
    geoms := new Geom[|hs|](_ => filler);
    var i := 0;
    while i < |hs|
      invariant 0 <= i <= |hs|
      invariant forall j :: 0 <= j < i ==> fresh(geoms[j]) && geoms[j].Head() == hs[j] && geoms[j].ngeoms == 0
    {
      geoms[i] := new Geom(hs[i], None, none, 0);
      i := i + 1;
    }
  }

  /** The headers lwgeom_deserialize gives the members (that decoder is the parameter dec). */
  function MemberHeads(subs: seq<seq<byte>>, dec: seq<byte> -> Header): (hs: seq<Header>)
    ensures |hs| == |subs| && forall i :: 0 <= i < |subs| ==> hs[i] == dec(subs[i])
  {
    seq(|subs|, i requires 0 <= i < |subs| => dec(subs[i]))
  }

  /**
   * lwcollection_deserialize: NULL unless the type byte says COLLECTION;
   * otherwise the box flag and dimension count come from the type byte,
   * the SRID from lwgeom_inspect, and there is one member per inspected
   * sub-geometry, each decoded by lwgeom_deserialize.
   */
  method CollectionDeserialize(s: seq<byte>, insp: Inspected, dec: seq<byte> -> Header) returns (r: Option<Geom>)
    requires |s| >= 1
    ensures r.None? <==> TypeSimple(s[0]) != COLLECTIONTYPE
    ensures r.Some? ==> (fresh(r.value) && fresh(r.value.geoms)
      && r.value.Head() == Header(COLLECTIONTYPE, TypeNdims(s[0]), insp.srid, TypeHasBBox(s[0]))
      && r.value.point.None? && r.value.ngeoms == r.value.geoms.Length == |insp.subs|
      && Heads(r.value.geoms[..]) == MemberHeads(insp.subs, dec))
  {
    var t := s[0];
    if TypeSimple(t) != COLLECTIONTYPE {
      return None;
    }
    var geoms := MemberStructs(MemberHeads(insp.subs, dec));
    var col := new Geom(Header(COLLECTIONTYPE, TypeNdims(t), insp.srid, TypeHasBBox(t)), None, geoms, |insp.subs|);
    return Some(col);
  }

  /** Every member decodes as a point (lwpoint_deserialize) with the multipoint's dimension count. */
  predicate PointsMatch(subs: seq<seq<byte>>, nd: nat)
    requires forall i :: 0 <= i < |subs| ==> PointReadable(subs[i])
  {
    forall i :: 0 <= i < |subs| ==> PointDecode(subs[i]).Some? && PointDecode(subs[i]).value.head.ndims == nd
  }

  /**
   * lwmpoint_deserialize: an error unless the type byte says MULTIPOINT;
   * each member is decoded with lwpoint_deserialize, and a member whose
   * dimension count differs from the multipoint's is an error. (A member
   * that is not a point gives NULL, which the source dereferences; it is
   * an error here too.)
   */
  method MPointDeserialize(s: seq<byte>, insp: Inspected) returns (r: Result<Geom>)
    requires |s| >= 1 && forall i :: 0 <= i < |insp.subs| ==> PointReadable(insp.subs[i])
    ensures r.Ok? <==> TypeSimple(s[0]) == MULTIPOINTTYPE && PointsMatch(insp.subs, TypeNdims(s[0]))
    ensures r.Ok? ==> (fresh(r.value) && fresh(r.value.geoms)
      && r.value.Head() == Header(MULTIPOINTTYPE, TypeNdims(s[0]), insp.srid, TypeHasBBox(s[0]))
      && r.value.ngeoms == r.value.geoms.Length == |insp.subs|
      && forall i :: 0 <= i < |insp.subs| ==>
        r.value.geoms[i].Head() == PointDecode(insp.subs[i]).value.head
        && r.value.geoms[i].point == Some(PointDecode(insp.subs[i]).value.pa))
  {
    var t := s[0];
    if TypeSimple(t) != MULTIPOINTTYPE {
      return Err("lwmpoint_deserialize called on NON multipoint");
    }
    var nd := TypeNdims(t);
    var geoms := DecodePoints(insp.subs, nd);
    if geoms.Err? {
      return Err(geoms.msg);
    }
    var col := new Geom(Header(MULTIPOINTTYPE, nd, insp.srid, TypeHasBBox(t)), None, geoms.value, |insp.subs|);
    return Ok(col);
  }

  /** The member loop of lwmpoint_deserialize: each member through lwpoint_deserialize, stopping at the first mismatch. */
  method DecodePoints(subs: seq<seq<byte>>, nd: nat) returns (r: Result<array<Geom>>)
    requires forall i :: 0 <= i < |subs| ==> PointReadable(subs[i])
    ensures r.Ok? <==> PointsMatch(subs, nd)
    ensures r.Ok? ==> (fresh(r.value) && r.value.Length == |subs|
      && forall i :: 0 <= i < |subs| ==>
        r.value[i].Head() == PointDecode(subs[i]).value.head && r.value[i].point == Some(PointDecode(subs[i]).value.pa))
  {
    var none := new Geom[0];
    var filler := new Geom(Header(0, 0, NO_SRID, false), None, none, 0);
    var geoms := new Geom[|subs|](_ => filler);
    var i := 0;
    while i < |subs|
      invariant 0 <= i <= |subs|
      invariant forall j :: 0 <= j < i ==> PointDecode(subs[j]).Some? && PointDecode(subs[j]).value.head.ndims == nd
      invariant forall j :: 0 <= j < i ==>
        geoms[j].Head() == PointDecode(subs[j]).value.head && geoms[j].point == Some(PointDecode(subs[j]).value.pa)
    {
      var m := PointDeserialize(subs[i]);
      if m.None? {
        return Err("lwmpoint_deserialize: member is not a point");
      }
      if m.value.ndims != nd {
        return Err("Mixed dimensions (multipoint, point)");
      }
      geoms[i] := m.value;
      i := i + 1;
    }
    return Ok(geoms);
  }

  /** Every member decodes (lwpoly_deserialize, the parameter dec) with the given dimension count. */
  predicate PolysMatch(subs: seq<seq<byte>>, dec: seq<byte> -> Option<Header>, nd: nat)
  {
    forall i :: 0 <= i < |subs| ==> dec(subs[i]).Some? && dec(subs[i]).value.ndims == nd
  }

  /**
   * lwmpoly_deserialize: an error unless the type byte says MULTIPOLYGON;
   * each member is decoded by lwpoly_deserialize, and a polygon whose
   * dimension count differs from the multipolygon's is an error (as is a
   * NULL polygon, which the source dereferences). The box flag is never
   * stored: it holds whatever the allocation held, the parameter
   * `leftover`.
   */
  method MPolyDeserialize(s: seq<byte>, insp: Inspected, dec: seq<byte> -> Option<Header>, leftover: bool)
    returns (r: Result<Geom>)
    requires |s| >= 1
    ensures r.Ok? <==> TypeSimple(s[0]) == MULTIPOLYGONTYPE && PolysMatch(insp.subs, dec, TypeNdims(s[0]))
    ensures r.Ok? ==> (fresh(r.value) && fresh(r.value.geoms)
      && r.value.Head() == Header(MULTIPOLYGONTYPE, TypeNdims(s[0]), insp.srid, leftover)
      && r.value.ngeoms == r.value.geoms.Length == |insp.subs|
      && forall i :: 0 <= i < |insp.subs| ==> r.value.geoms[i].Head() == dec(insp.subs[i]).value)
  {
    var t := s[0];
    if TypeSimple(t) != MULTIPOLYGONTYPE {
      return Err("lwmpoly_deserialize called on NON multipoly");
    }
    var nd := TypeNdims(t);
    var i := 0;
    while i < |insp.subs|
      invariant 0 <= i <= |insp.subs|
      invariant PolysMatch(insp.subs[..i], dec, nd)
    {
      var m := dec(insp.subs[i]);
      if m.None? {
        return Err("lwmpoly_deserialize: NULL polygon");
      }
      if m.value.ndims != nd {
        return Err("Mixed dimensions (multipoly, poly)");
      }
      i := i + 1;
    }
    assert insp.subs[..i] == insp.subs;
    var hs := seq(|insp.subs|, j requires 0 <= j < |insp.subs| => dec(insp.subs[j]).value);
    var geoms := MemberStructs(hs);
    var col := new Geom(Header(MULTIPOLYGONTYPE, nd, insp.srid, leftover), None, geoms, |insp.subs|);
    return Ok(col);
  }

  // ---- the collection's box ----------------------------------------------

  /**
   * The box lwcollection_compute_bbox_p folds, from the first member's box
   * onwards: a member without a box, or a union box2d_union_p refuses,
   * gives none.
   */
  function FoldBoxes<B>(acc: B, rest: seq<Option<B>>, union: (B, B) -> Option<B>): Option<B>
  {
    if rest == [] then Some(acc)
    else if rest[0].None? then None
    else match union(acc, rest[0].value)
      case None => None
      case Some(u) => FoldBoxes(u, rest[1..], union)
  }

  /** lwcollection_compute_bbox_p's result, given each member's box (lwgeom_compute_bbox_p, None when it fails). */
  function CollectionBox<B>(boxes: seq<Option<B>>, union: (B, B) -> Option<B>): Option<B>
  {
    if boxes == [] || boxes[0].None? then None else FoldBoxes(boxes[0].value, boxes[1..], union)
  }

  /** lwcollection_compute_bbox_p: 0 (None) for no members or a failing member or union, else the union of the members' boxes. */
  method CollectionComputeBox<B>(boxes: seq<Option<B>>, union: (B, B) -> Option<B>) returns (r: Option<B>)
    ensures r == CollectionBox(boxes, union)
  {
    if |boxes| == 0 {
      return None;
    }
    if boxes[0].None? {
      return None;
    }
    var box := boxes[0].value;
    var i := 1;
    while i < |boxes|
      invariant 1 <= i <= |boxes|
      invariant CollectionBox(boxes, union) == FoldBoxes(box, boxes[i..], union)
    {
      assert boxes[i..][1..] == boxes[i + 1..];
      if boxes[i].None? {
        return None;
      }
      var u := union(box, boxes[i].value);
      if u.None? {
        return None;
      }
      box := u.value;
      i := i + 1;
    }
    return Some(box);
  }

  /** A member without a box leaves the collection without one. */
  lemma {:induction false} FoldFailsOnMissing<B>(acc: B, rest: seq<Option<B>>, union: (B, B) -> Option<B>, k: nat)
    requires k < |rest| && rest[k].None?
    ensures FoldBoxes(acc, rest, union).None?
    decreases k
  {
    if rest[0].Some? {
      match union(acc, rest[0].value)
      case None =>
      case Some(u) => FoldFailsOnMissing(u, rest[1..], union, k - 1);
    }
  }

  /** With a union that never fails, the fold succeeds when every member has a box. */
  lemma {:induction false} FoldSucceedsOnAll<B>(acc: B, rest: seq<Option<B>>, union: (B, B) -> Option<B>)
    requires forall a, b :: union(a, b).Some?
    requires forall i :: 0 <= i < |rest| ==> rest[i].Some?
    ensures FoldBoxes(acc, rest, union).Some?
    decreases |rest|
  {
    if rest != [] {
      FoldSucceedsOnAll(union(acc, rest[0].value).value, rest[1..], union);
    }
  }

  /**
   * The collection has a box only if it has members and every member has
   * one; when box2d_union_p never fails, that is also enough.
   */
  lemma CollectionBoxIff<B>(boxes: seq<Option<B>>, union: (B, B) -> Option<B>)
    ensures CollectionBox(boxes, union).Some? ==> |boxes| > 0 && forall i :: 0 <= i < |boxes| ==> boxes[i].Some?
    ensures (forall a, b :: union(a, b).Some?) ==>
      (CollectionBox(boxes, union).Some? <==> |boxes| > 0 && forall i :: 0 <= i < |boxes| ==> boxes[i].Some?)
  {
    if exists i :: 0 <= i < |boxes| && boxes[i].None? {
      var i :| 0 <= i < |boxes| && boxes[i].None?;
      if i > 0 && boxes[0].Some? {
        FoldFailsOnMissing(boxes[0].value, boxes[1..], union, i - 1);
      }
    } else if |boxes| > 0 && forall a, b :: union(a, b).Some? {
      FoldSucceedsOnAll(boxes[0].value, boxes[1..], union);
    }
  }
}
