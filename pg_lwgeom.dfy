/**
 * PG_LWGEOM (postgis/lwgeom_pg.c): a serialized geometry behind a varlena
 * size header, and the functions that build one and edit its SRID and its
 * cached box by copying bytes into a new buffer.
 *
 * The struct is the size header (the length of the whole struct, the
 * header's own four bytes included), the type byte, and the data: the box
 * when the type byte says so, the SRID when it says so, then the rest of the
 * serialized geometry. The header is kept as a number; its varlena bit
 * encoding is not part of this model.
 */
module PgLwgeom {
  import opened Bytes
  import opened Wrappers
  import opened LwTypes

  datatype PgGeom = PgGeom(size: nat, typ: byte, data: seq<byte>)

  /** Where the SRID sits in the data: after the box, if there is one. */
  function SridAt(t: byte): nat
  {
    if TypeHasBBox(t) then BOX_SIZE else 0
  }

  /** Where the rest of the geometry starts in the data. */
  function RestAt(t: byte): nat
  {
    SridAt(t) + (if TypeHasSRID(t) then 4 else 0)
  }

  /** The size header counts header, type byte and data, and the data holds what the type byte announces. */
  predicate Valid(g: PgGeom)
  {
    g.size == 5 + |g.data| && |g.data| >= RestAt(g.typ)
  }

  /** The cached box bytes (empty without a box). */
  function BoxBytes(g: PgGeom): seq<byte>
    requires Valid(g)
  {
    g.data[..SridAt(g.typ)]
  }

  /** What follows the box and the SRID. */
  function Rest(g: PgGeom): seq<byte>
    requires Valid(g)
  {
    g.data[RestAt(g.typ)..]
  }

  /** pglwgeom_get_srid: -1 without the SRID flag, else the int32 that follows the box. */
  function GetSrid(g: PgGeom): (r: int)
    requires Valid(g)
    ensures IsInt32(r)
    ensures !TypeHasSRID(g.typ) ==> r == SRID_UNKNOWN
  {
    if !TypeHasSRID(g.typ) then SRID_UNKNOWN
    else Int32Of(g.data[SridAt(g.typ)..SridAt(g.typ) + 4])
  }

  /** The SRID bytes of an SRID: four, or none for the unknown SRID. */
  function SridField(srid: int): (r: seq<byte>)
    requires IsInt32(srid)
    ensures |r| == if srid != SRID_UNKNOWN then 4 else 0
  {
    if srid != SRID_UNKNOWN then Int32Bytes(srid) else []
  }

  /** The four flag predicates and the type agree. */
  predicate SameKind(t: byte, u: byte)
  {
    TypeOf(t) == TypeOf(u) && TypeHasZ(t) == TypeHasZ(u) && TypeHasM(t) == TypeHasM(u)
  }

  /**
   * A geometry with the given SRID: the same kind, box and rest, the SRID
   * flag set iff the SRID is known, and the SRID bytes after the box.
   */
  function WithSrid(g: PgGeom, srid: int): (r: PgGeom)
    requires Valid(g) && IsInt32(srid)
  {
    var d := BoxBytes(g) + SridField(srid) + Rest(g);
    PgGeom(5 + |d|, WithSRIDFlag(g.typ, srid != SRID_UNKNOWN), d)
  }

  /**
   * Setting the SRID keeps the kind, the box and the rest, reads back as
   * the SRID set (-1 for the unknown SRID), and grows or shrinks the
   * struct by the four SRID bytes.
   */
  lemma WithSridParts(g: PgGeom, srid: int)
    requires Valid(g) && IsInt32(srid)
    ensures var r := WithSrid(g, srid);
      Valid(r) && GetSrid(r) == srid && SameKind(r.typ, g.typ) && TypeHasBBox(r.typ) == TypeHasBBox(g.typ)
      && TypeHasSRID(r.typ) == (srid != SRID_UNKNOWN)
      && BoxBytes(r) == BoxBytes(g) && Rest(r) == Rest(g)
      && r.size + (if TypeHasSRID(g.typ) then 4 else 0) == g.size + (if srid != SRID_UNKNOWN then 4 else 0)
  {
    var r := WithSrid(g, srid);
    var b := BoxBytes(g);
    var f := SridField(srid);
    assert r.data == b + f + Rest(g);
    assert r.data[..|b|] == b;
    if srid != SRID_UNKNOWN {
      assert r.data[|b|..|b| + 4] == f;
      Int32RoundTrip(srid);
    }
    assert r.data[|b| + |f|..] == Rest(g);
  }

  /** The data is its box, its SRID bytes and its rest. */
  lemma DataParts(g: PgGeom)
    requires Valid(g) && (TypeHasSRID(g.typ) ==> GetSrid(g) != SRID_UNKNOWN)
    ensures g.data == BoxBytes(g) + SridField(GetSrid(g)) + Rest(g)
  {
    var a := SridAt(g.typ);
    if TypeHasSRID(g.typ) {
      var s := g.data[a..a + 4];
      Int32BytesOf(s);
      assert g.data == g.data[..a] + s + g.data[a + 4..];
    } else {
      assert RestAt(g.typ) == a;
      assert SridField(GetSrid(g)) == [];
      assert g.data == g.data[..a] + g.data[a..];
    }
  }

  /** Setting the SRID a geometry already reports gives the geometry back, except an SRID field holding -1, which is dropped. */
  lemma WithOwnSrid(g: PgGeom)
    requires Valid(g) && (TypeHasSRID(g.typ) ==> GetSrid(g) != SRID_UNKNOWN)
    ensures WithSrid(g, GetSrid(g)) == g
  {
    DataParts(g);
    TypeByteParts(WithSRIDFlag(g.typ, GetSrid(g) != SRID_UNKNOWN), g.typ);
  }

  /** Only the last SRID set counts. */
  lemma WithSridTwice(g: PgGeom, a: int, b: int)
    requires Valid(g) && IsInt32(a) && IsInt32(b)
    ensures (WithSridParts(g, a); WithSrid(WithSrid(g, a), b) == WithSrid(g, b))
  {
    WithSridParts(g, a);
    var r := WithSrid(g, a);
    TypeByteParts(WithSRIDFlag(r.typ, b != SRID_UNKNOWN), WithSRIDFlag(g.typ, b != SRID_UNKNOWN));
  }

  /**
   * pglwgeom_set_srid: with an SRID and a known new SRID, a copy with the
   * SRID bytes overwritten; with an SRID and the unknown SRID, four bytes
   * shorter without them; without an SRID and -1, an unchanged copy;
   * without an SRID and a new one, four bytes longer with it after the box.
   */
  method SetSrid(g: PgGeom, newSrid: int) returns (r: PgGeom)
    requires Valid(g) && IsInt32(newSrid)
    ensures r == WithSrid(g, newSrid)
    ensures TypeHasSRID(g.typ) && newSrid != SRID_UNKNOWN ==> r.size == g.size && r.typ == g.typ
    ensures !TypeHasSRID(g.typ) && newSrid == SRID_UNKNOWN ==> r == g
  {
    var t := g.typ;
    var bboxOffset := if TypeHasBBox(t) then BOX_SIZE else 0;
    var len := g.size;
    if TypeHasSRID(t) {
      if newSrid != SRID_UNKNOWN {
        r := OverwriteSrid(g, newSrid);
      } else {
        r := DropSrid(g);
      }
    } else {
      if newSrid == SRID_UNKNOWN {
        var out := new byte[len - 5];
        var end := Put(out, 0, g.data);
        r := PgGeom(len, t, out[..]);
        assert out[..] == out[..end];
        assert g.data == BoxBytes(g) + Rest(g);
        TypeByteParts(WithSRIDFlag(t, false), t);
      } else {
        r := InsertSrid(g, newSrid);
      }
    }
  }

  /** The copy that overwrites the SRID bytes in place: memcpy of the struct, then of the new SRID after the box. */
  method OverwriteSrid(g: PgGeom, newSrid: int) returns (r: PgGeom)
    requires Valid(g) && IsInt32(newSrid) && TypeHasSRID(g.typ) && newSrid != SRID_UNKNOWN
    ensures r == WithSrid(g, newSrid) && r.size == g.size && r.typ == g.typ
  {
    var t := g.typ;
    var bboxOffset := if TypeHasBBox(t) then BOX_SIZE else 0;
    var out := new byte[g.size - 5];
    var end := Put(out, 0, g.data);
    assert out[..] == g.data;
    end := Put(out, bboxOffset, Int32Bytes(newSrid));
    assert out[..] == out[..end] + out[end..];
    r := PgGeom(g.size, t, out[..]);
    assert r.data == BoxBytes(g) + SridField(newSrid) + Rest(g);
    TypeByteParts(WithSRIDFlag(t, true), t);
  }

  /** The copy that drops the SRID: the type byte without the SRID flag, the box, then what followed the SRID. */
  method DropSrid(g: PgGeom) returns (r: PgGeom)
    requires Valid(g) && TypeHasSRID(g.typ)
    ensures r == WithSrid(g, SRID_UNKNOWN)
  {
    var t := g.typ;
    var len := g.size;
    var out := new byte[len - 4 - 5];
    var locNew := 0;
    var locOld := 0;
    var lenLeft := len - 4 - 1;
    if TypeHasBBox(t) {
      locNew := Put(out, locNew, g.data[locOld..locOld + BOX_SIZE]);
      locOld := locOld + BOX_SIZE;
      lenLeft := lenLeft - BOX_SIZE;
    }
    locOld := locOld + 4;
    lenLeft := lenLeft - 4;
    assert locOld + lenLeft == |g.data| && locOld == RestAt(t);
    ghost var box := out[..locNew];
    locNew := Put(out, locNew, g.data[locOld..locOld + lenLeft]);
    assert out[..] == out[..locNew];
    r := PgGeom(len - 4, MakeTypeFull(TypeHasZ(t), TypeHasM(t), false, TypeOf(t), TypeHasBBox(t)), out[..]);
    assert r.data == BoxBytes(g) + Rest(g);
  }

  /** The copy that adds an SRID: the type byte with the SRID flag, the box, the new SRID, then the rest. */
  method InsertSrid(g: PgGeom, newSrid: int) returns (r: PgGeom)
    requires Valid(g) && IsInt32(newSrid) && !TypeHasSRID(g.typ) && newSrid != SRID_UNKNOWN
    ensures r == WithSrid(g, newSrid)
  {
    var t := g.typ;
    var len := g.size;
    var lenNew := len + 4;
    var out := new byte[lenNew - 5];
    var locNew := 0;
    var locOld := 0;
    var lenLeft := len - 4 - 1;
    if TypeHasBBox(t) {
      locNew := Put(out, locNew, g.data[locOld..locOld + BOX_SIZE]);
      locOld := locOld + BOX_SIZE;
      lenLeft := lenLeft - BOX_SIZE;
    }
    assert locOld + lenLeft == |g.data| && locOld == RestAt(t);
    locNew := Put(out, locNew, Int32Bytes(newSrid));
    locNew := Put(out, locNew, g.data[locOld..locOld + lenLeft]);
    assert out[..] == out[..locNew];
    r := PgGeom(lenNew, MakeTypeFull(TypeHasZ(t), TypeHasM(t), true, TypeOf(t), TypeHasBBox(t)), out[..]);
    assert r.data == BoxBytes(g) + SridField(newSrid) + Rest(g);
  }

  /** A geometry without its cached box: the box flag cleared and the box bytes gone, the SRID and the rest kept. */
  function WithoutBox(g: PgGeom): (r: PgGeom)
    requires Valid(g)
  {
    var d := g.data[SridAt(g.typ)..];
    PgGeom(5 + |d|, WithBBoxFlag(g.typ, false), d)
  }

  /**
   * Dropping the box clears the flag, shrinks the struct by the box iff it
   * had one, keeps the kind, the SRID and the rest, and is idempotent.
   */
  lemma WithoutBoxParts(g: PgGeom)
    requires Valid(g)
    ensures var r := WithoutBox(g);
      Valid(r) && !TypeHasBBox(r.typ) && SameKind(r.typ, g.typ) && TypeHasSRID(r.typ) == TypeHasSRID(g.typ)
      && GetSrid(r) == GetSrid(g) && Rest(r) == Rest(g)
      && r.size == g.size - (if TypeHasBBox(g.typ) then BOX_SIZE else 0)
      && WithoutBox(r) == r
  {
    var r := WithoutBox(g);
    TypeByteParts(WithBBoxFlag(r.typ, false), r.typ);
    assert r.data[0..] == r.data;
    if TypeHasSRID(g.typ) {
      assert r.data[0..4] == g.data[SridAt(g.typ)..SridAt(g.typ) + 4];
    }
  }

  /**
   * pglwgeom_drop_bbox: the varlena body (type byte and data) is rebuilt
   * without the box: copied whole when there is none, else the type byte
   * with the flag cleared followed by everything after the box.
   */
  method DropBbox(g: PgGeom) returns (r: PgGeom)
    requires Valid(g)
    ensures r == WithoutBox(g)
    ensures !TypeHasBBox(g.typ) ==> r == g
  {
    var size := g.size;
    var newsize := size;
    var hasbox := TypeHasBBox(g.typ);
    if hasbox {
      newsize := size - BOX_SIZE;
    }
    var body := new byte[newsize - 4];
    var t := WithBBoxFlag(g.typ, false);
    body[0] := t;
    if !hasbox {
      var whole := [g.typ] + g.data;
      var end := Put(body, 0, whole);
      assert end == body.Length;
      assert body[..] == body[..end] == whole;
      TypeByteParts(t, g.typ);
    } else {
      var end := Put(body, 1, g.data[BOX_SIZE..]);
      assert body[..] == body[..end] == [t] + g.data[BOX_SIZE..];
    }
    r := PgGeom(newsize, body[0], body[1..]);
    assert body[..] == [body[0]] + body[1..];
  }

  /**
   * What PG_LWGEOM_construct builds from a serialized geometry: the type
   * byte with the SRID flag iff the SRID is known and the box flag iff a
   * box is wanted, the box, the SRID, then the geometry past its own header.
   */
  function Constructed(ser: seq<byte>, srid: int, wantbbox: bool, box: Box2D): (r: PgGeom)
    requires |ser| >= 1 && |ser| >= HeaderSize(ser[0]) && IsInt32(srid)
  {
    var d := (if wantbbox then box else []) + SridField(srid) + ser[HeaderSize(ser[0])..];
    PgGeom(5 + |d|, MakeTypeFull(TypeHasZ(ser[0]), TypeHasM(ser[0]), srid != SRID_UNKNOWN, TypeOf(ser[0]), wantbbox), d)
  }

  /**
   * The constructed geometry reports the given SRID, carries the box iff it
   * was wanted, keeps the input's kind and everything past its header, and
   * is the input's length with the old box and SRID replaced by the new.
   */
  lemma ConstructedParts(ser: seq<byte>, srid: int, wantbbox: bool, box: Box2D)
    requires |ser| >= 1 && |ser| >= HeaderSize(ser[0]) && IsInt32(srid)
    ensures var r := Constructed(ser, srid, wantbbox, box);
      Valid(r) && GetSrid(r) == srid && TypeHasBBox(r.typ) == wantbbox && SameKind(r.typ, ser[0])
      && BoxBytes(r) == (if wantbbox then box else []) && Rest(r) == ser[HeaderSize(ser[0])..]
      && r.size == 4 + |ser| - HeaderSize(ser[0]) + HeaderSize(r.typ)
  {
    var r := Constructed(ser, srid, wantbbox, box);
    var b: seq<byte> := if wantbbox then box else [];
    var f := SridField(srid);
    assert r.data == b + f + ser[HeaderSize(ser[0])..];
    assert r.data[..|b|] == b;
    if srid != SRID_UNKNOWN {
      assert r.data[|b|..|b| + 4] == f;
      Int32RoundTrip(srid);
    }
    assert r.data[|b| + |f|..] == ser[HeaderSize(ser[0])..];
  }

  /** Setting the SRID of a constructed geometry is constructing it with that SRID. */
  lemma ConstructThenSetSrid(ser: seq<byte>, srid: int, wantbbox: bool, box: Box2D, s: int)
    requires |ser| >= 1 && |ser| >= HeaderSize(ser[0]) && IsInt32(srid) && IsInt32(s)
    ensures (ConstructedParts(ser, srid, wantbbox, box);
      WithSrid(Constructed(ser, srid, wantbbox, box), s) == Constructed(ser, s, wantbbox, box))
  {
    ConstructedParts(ser, srid, wantbbox, box);
    ConstructedParts(ser, s, wantbbox, box);
    var r := Constructed(ser, srid, wantbbox, box);
    TypeByteParts(WithSRIDFlag(r.typ, s != SRID_UNKNOWN), Constructed(ser, s, wantbbox, box).typ);
  }

  /** Dropping the box of a constructed geometry is constructing it without one. */
  lemma ConstructThenDropBox(ser: seq<byte>, srid: int, wantbbox: bool, box: Box2D)
    requires |ser| >= 1 && |ser| >= HeaderSize(ser[0]) && IsInt32(srid)
    ensures (ConstructedParts(ser, srid, wantbbox, box);
      WithoutBox(Constructed(ser, srid, wantbbox, box)) == Constructed(ser, srid, false, box))
  {
    ConstructedParts(ser, srid, wantbbox, box);
    var r := Constructed(ser, srid, wantbbox, box);
    var q := Constructed(ser, srid, false, box);
    var b: seq<byte> := if wantbbox then box else [];
    var rest := SridField(srid) + ser[HeaderSize(ser[0])..];
    assert r.data == b + rest;
    assert q.data == rest;
    assert SridAt(r.typ) == |b|;
    assert r.data[|b|..] == rest;
    TypeByteParts(WithBBoxFlag(r.typ, false), q.typ);
  }

  /**
   * PG_LWGEOM_construct: the input's own box and SRID are skipped, the box
   * is wanted when asked for or when is_worth_caching_serialized_bbox says
   * so (the parameter `worth`), and the box getbox2d_p computes is the
   * parameter `box`.
   */
  method Construct(ser: seq<byte>, srid: int, wantbbox: bool, worth: bool, box: Box2D) returns (r: PgGeom)
    requires |ser| >= 1 && |ser| >= HeaderSize(ser[0]) && IsInt32(srid)
    ensures r == Constructed(ser, srid, wantbbox || worth, box)
  {
    var want := wantbbox || worth;
    var size := |ser|;
    var eptr := size;
    var iptr := 1;
    if TypeHasSRID(ser[0]) {
      iptr := iptr + 4;
      size := size - 4;
    }
    if TypeHasBBox(ser[0]) {
      iptr := iptr + BOX_SIZE;
      size := size - BOX_SIZE;
    }
    var wantsrid := false;
    if srid != SRID_UNKNOWN {
      wantsrid := true;
      size := size + 4;
    }
    if want {
      size := size + BOX_SIZE;
    }
    size := size + 4;
    assert iptr == HeaderSize(ser[0]);
    var t := MakeTypeFull(TypeHasZ(ser[0]), TypeHasM(ser[0]), wantsrid, TypeOf(ser[0]), want);
    var out := new byte[size - 5];
    PutData(out, if want then box else [], srid, ser[iptr..eptr]);
    r := PgGeom(size, t, out[..]);
  }

  /** Writes the box (when wanted), the SRID (when known) and the remaining bytes one after another. */
  method PutData(out: array<byte>, box: seq<byte>, srid: int, tail: seq<byte>)
    requires IsInt32(srid) && out.Length == |box| + |SridField(srid)| + |tail|
    modifies out
    ensures out[..] == box + SridField(srid) + tail
  {
    var optr := Put(out, 0, box);
    if srid != SRID_UNKNOWN {
      optr := Put(out, optr, Int32Bytes(srid));
    }
    optr := Put(out, optr, tail);
    assert out[..] == out[..optr];
  }

  /**
   * pglwgeom_serialize's size check: the struct is sized from
   * lwgeom_serialize_size (the parameter `computed`) and an error is
   * raised unless lwgeom_serialize_buf wrote exactly that many bytes.
   * The check is compiled in only when PARANOIA_LEVEL > 0; the model is
   * of a build with it compiled in.
   */
  function Serialize(computed: nat, written: seq<byte>): (r: Result<PgGeom>)
    requires |written| >= 1
    ensures r.Ok? <==> |written| == computed
    ensures r.Ok? ==> (r.value.size == 4 + computed && r.value.size == 5 + |r.value.data|
      && [r.value.typ] + r.value.data == written)
  {
    if |written| != computed then Err("pglwgeom_serialize: serialized size differs from computed size")
    else Ok(PgGeom(computed + 4, written[0], written[1..]))
  }
}
