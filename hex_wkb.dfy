/**
 * The hex text and well-known binary helpers of the older lwgeom tree
 * (lwgeom/lwgeom_inout.c).
 *
 * The canonical text form of a geometry is its WKB written as upper-case hex,
 * two characters per byte, high nibble first. A WKB starts with an endian
 * flag (1 for NDR, least significant byte first; 0 for XDR, most significant
 * first), then a 32-bit type word and the counts and doubles of the
 * geometry, all in the order the flag names. The writers copy the machine's
 * own representation of each integer and double and then reverse the bytes
 * when the machine's order is not the one asked for; the machine's order is
 * the parameter `little` (true on a little-endian machine).
 */
module HexWkb {
  import opened Bytes
  import opened Wrappers
  import opened OldTypes
  import PointArrays

  // ---- hex digits ----------------------------------------------------------

  /** One of the sixteen characters "0123456789ABCDEF". */
  predicate IsHexChar(c: char)
  {
    '0' <= c <= '9' || 'A' <= c <= 'F'
  }

  /** The character deparse_hex writes for a nibble: a decimal digit, then upper-case 'A' to 'F'. */
  function HexDigit(n: nat): (c: char)
    requires n < 16
    ensures IsHexChar(c)
  {
    if n < 10 then ('0' as int + n) as char else ('A' as int + n - 10) as char
  }

  /** The nibble parse_hex reads from one character; a character outside the sixteen leaves the nibble 0. */
  function Nibble(c: char): (n: nat)
    ensures n < 16
  {
    if '0' <= c <= '9' then c as int - '0' as int
    else if 'A' <= c <= 'F' then c as int - 'A' as int + 10
    else 0
  }

  /** deparse_hex: the digit of the high nibble, then the digit of the low nibble. */
  function DeparseHex(b: byte): (r: string)
    ensures |r| == 2 && IsHexChar(r[0]) && IsHexChar(r[1])
  {
    [HexDigit(b / 16), HexDigit(b % 16)]
  }

  /** parse_hex: the first character gives the high nibble, the second the low nibble. */
  function ParseHex(c0: char, c1: char): (b: byte)
    ensures b / 16 == Nibble(c0) && b % 16 == Nibble(c1)
  {
    Nibble(c0) * 16 + Nibble(c1)
  }

  /** Every byte survives deparse_hex then parse_hex, and its high nibble is written first. */
  lemma ParseDeparse(b: byte)
    ensures ParseHex(DeparseHex(b)[0], DeparseHex(b)[1]) == b
    ensures Nibble(DeparseHex(b)[0]) == b / 16 && Nibble(DeparseHex(b)[1]) == b % 16
  {
    assert Nibble(HexDigit(b / 16)) == b / 16;
    assert Nibble(HexDigit(b % 16)) == b % 16;
  }

  /** Every pair of hex characters survives parse_hex then deparse_hex: the text form is unique. */
  lemma DeparseParse(c0: char, c1: char)
    requires IsHexChar(c0) && IsHexChar(c1)
    ensures DeparseHex(ParseHex(c0, c1)) == [c0, c1]
  {
    assert HexDigit(Nibble(c0)) == c0;
    assert HexDigit(Nibble(c1)) == c1;
  }

  // ---- hex strings ---------------------------------------------------------

  predicate AllHex(s: string)
  {
    forall i :: 0 <= i < |s| ==> IsHexChar(s[i])
  }

  /** strspn(s, "0123456789ABCDEF"): the length of the longest prefix of hex characters. */
  function HexSpan(s: string): (n: nat)
    ensures n <= |s| && AllHex(s[..n])
    ensures n < |s| ==> !IsHexChar(s[n])
  {
    if s == [] || !IsHexChar(s[0]) then 0
    else
      var n := 1 + HexSpan(s[1..]);
      assert forall i :: 1 <= i < n ==> s[..n][i] == s[1..][..n - 1][i - 1];
      n
  }

  /** The span is the whole string exactly when every character is a hex character. */
  lemma HexSpanWhole(s: string)
    ensures HexSpan(s) == |s| <==> AllHex(s)
  {
    if HexSpan(s) == |s| {
      assert s[..|s|] == s;
    }
  }

  /** The bytes of an even-length text, two characters per byte. */
  function HexDecode(s: string): (b: seq<byte>)
    requires |s| % 2 == 0
    ensures |b| == |s| / 2
  {
    if s == [] then [] else [ParseHex(s[0], s[1])] + HexDecode(s[2..])
  }

  /** The text of a byte string, two upper-case hex characters per byte. */
  function HexEncode(b: seq<byte>): (s: string)
    ensures |s| == 2 * |b| && AllHex(s)
  {
    if b == [] then [] else DeparseHex(b[0]) + HexEncode(b[1..])
  }

  lemma {:induction false} HexDecodeAt(s: string, t: nat)
    requires |s| % 2 == 0 && t < |s| / 2
    ensures HexDecode(s)[t] == ParseHex(s[2 * t], s[2 * t + 1])
  {
    if t > 0 {
      HexDecodeAt(s[2..], t - 1);
    }
  }

  lemma {:induction false} HexEncodeAt(b: seq<byte>, t: nat)
    requires t < |b|
    ensures HexEncode(b)[2 * t] == DeparseHex(b[t])[0] && HexEncode(b)[2 * t + 1] == DeparseHex(b[t])[1]
  {
    if t > 0 {
      HexEncodeAt(b[1..], t - 1);
    }
  }

  /** The text of two byte strings one after the other is the two texts one after the other. */
  lemma {:induction false} HexEncodeConcat(a: seq<byte>, b: seq<byte>)
    ensures HexEncode(a + b) == HexEncode(a) + HexEncode(b)
  {
    if a == [] {
      assert a + b == b;
    } else {
      assert (a + b)[0] == a[0] && (a + b)[1..] == a[1..] + b;
      HexEncodeConcat(a[1..], b);
      calc {
        HexEncode(a + b);
        DeparseHex(a[0]) + HexEncode(a[1..] + b);
        DeparseHex(a[0]) + (HexEncode(a[1..]) + HexEncode(b));
        (DeparseHex(a[0]) + HexEncode(a[1..])) + HexEncode(b);
      }
    }
  }

  /** Decoding the text of a byte string gives the byte string back. */
  lemma {:induction false} HexDecodeEncode(b: seq<byte>)
    ensures HexDecode(HexEncode(b)) == b
  {
    if b != [] {
      var s := HexEncode(b);
      assert s[2..] == HexEncode(b[1..]);
      ParseDeparse(b[0]);
      HexDecodeEncode(b[1..]);
    }
  }

  /** Encoding the bytes of an even-length hex text gives the text back. */
  lemma {:induction false} HexEncodeDecode(s: string)
    requires |s| % 2 == 0 && AllHex(s)
    ensures HexEncode(HexDecode(s)) == s
  {
    if s != [] {
      DeparseParse(s[0], s[1]);
      assert AllHex(s[2..]) by {
        assert forall i :: 0 <= i < |s| - 2 ==> s[2..][i] == s[i + 2];
      }
      HexEncodeDecode(s[2..]);
      assert s == [s[0], s[1]] + s[2..];
    }
  }

  const ODD_LENGTH: string := "LWGEOM_in parser - should be even number of characters!"
  const BAD_CHARACTERS: string := "WKB_in parser - input contains bad characters.  Should only have '0123456789ABCDEF'!"

  /**
   * LWGEOM_in up to the WKB it hands to wkb_to_lwgeom: an odd-length text is
   * an error, then so is any character outside the sixteen hex characters;
   * otherwise the bytes are decoded into a buffer of len/2 + 4 bytes from
   * byte 4 on, and those len/2 bytes are the result.
   */
  method LwgeomIn(str: string) returns (r: Result<seq<byte>>)
    ensures |str| % 2 == 1 ==> r == Err(ODD_LENGTH)
    ensures |str| % 2 == 0 && !AllHex(str) ==> r == Err(BAD_CHARACTERS)
    ensures r.Ok? <==> |str| % 2 == 0 && AllHex(str)
    ensures r.Ok? ==> r.value == HexDecode(str)
  {
    var len := |str|;
    if (len / 2) * 2 != len {
      return Err(ODD_LENGTH);
    }
    HexSpanWhole(str);
    if HexSpan(str) != len {
      return Err(BAD_CHARACTERS);
    }
    var size := len / 2 + 4;
    var wkb := new byte[size];
    for t := 0 to len / 2
      invariant forall k :: 0 <= k < t ==> wkb[k + 4] == HexDecode(str)[k]
    {
      wkb[t + 4] := ParseHex(str[t * 2], str[t * 2 + 1]);
      HexDecodeAt(str, t);
    }
    r := Ok(wkb[4..]);
  }

  /**
   * LWGEOM_out, given the WKB that lwgeom_to_wkb produces: a buffer of
   * 2·size + 1 characters holding the hex text and a final NUL.
   */
  method LwgeomOut(wkb: seq<byte>) returns (result: string)
    ensures result == HexEncode(wkb) + ['\0']
  {
    var size := |wkb|;
    var sizeResult := size * 2 + 1;
    var buf := new char[sizeResult];
    buf[sizeResult - 1] := '\0';
    for t := 0 to size
      invariant buf[sizeResult - 1] == '\0'
      invariant forall k :: 0 <= k < 2 * t ==> buf[k] == HexEncode(wkb)[k]
    {
      var pair := DeparseHex(wkb[t]);
      buf[t * 2] := pair[0];
      buf[t * 2 + 1] := pair[1];
      HexEncodeAt(wkb, t);
    }
    result := buf[..];
    assert result == HexEncode(wkb) + ['\0'];
  }

  /** Every text LWGEOM_out writes, without its NUL, is one LWGEOM_in accepts, and it decodes to the same WKB. */
  lemma OutThenIn(wkb: seq<byte>)
    ensures |HexEncode(wkb)| % 2 == 0 && AllHex(HexEncode(wkb))
    ensures HexDecode(HexEncode(wkb)) == wkb
  {
    HexDecodeEncode(wkb);
  }

  // ---- byte order ----------------------------------------------------------

  /** The bytes of b, last first. */
  function Mirrored(b: seq<byte>): (r: seq<byte>)
    ensures |r| == |b|
  {
    seq(|b|, i requires 0 <= i < |b| => b[|b| - 1 - i])
  }

  /** Mirroring is the reversal of the point array code, taken element by element. */
  lemma MirroredIsReversed(b: seq<byte>)
    ensures Mirrored(b) == PointArrays.Reversed(b)
  {
    forall k | 0 <= k < |b|
      ensures PointArrays.Reversed(b)[k] == b[|b| - 1 - k]
    {
      PointArrays.ReversedAt(b, k);
    }
  }

  /** Mirroring twice gives the bytes back. */
  lemma MirroredTwice(b: seq<byte>)
    ensures Mirrored(Mirrored(b)) == b
  {
  }

  /** The bytes b, given least significant first, in the order asked for. */
  function Ordered(b: seq<byte>, lsbFirst: bool): (r: seq<byte>)
    ensures |r| == |b|
  {
    if lsbFirst then b else Mirrored(b)
  }

  /** Reversing the bytes of one order gives the other order. */
  lemma MirroredOrdered(b: seq<byte>, lsbFirst: bool)
    ensures Mirrored(Ordered(b, lsbFirst)) == Ordered(b, !lsbFirst)
  {
    if !lsbFirst {
      MirroredTwice(b);
    }
  }

  /** The flag byte of an order: 1 (NDR) for least significant first, 0 (XDR) otherwise. */
  function Flag(ndr: bool): byte
  {
    if ndr then 1 else 0
  }

  const BAD_ENDIAN: string := "WKB: endian flag isnt a 0 or 1.  WKB screwed?"

  /**
   * requiresflip: whether the machine's byte order differs from the one
   * the flag asks for (1 asks for little-endian, 0 for big-endian); any
   * other flag is an error.
   */
  function RequiresFlip(flag: byte, little: bool): (r: Result<bool>)
    ensures r.Ok? <==> flag <= 1
    ensures r.Ok? ==> (r.value <==> little != (flag == 1))
    ensures r.Err? ==> r.msg == BAD_ENDIAN
  {
    if flag == 1 then Ok(!little)
    else if flag == 0 then Ok(little)
    else Err(BAD_ENDIAN)
  }

  /** The order a valid flag asks for, reached from either machine order by a flip exactly when requiresflip says so. */
  lemma FlipReachesFlag(b: seq<byte>, flag: byte, little: bool)
    requires flag <= 1
    ensures RequiresFlip(flag, little).value ==> Mirrored(Ordered(b, little)) == Ordered(b, flag == 1)
    ensures !RequiresFlip(flag, little).value ==> Ordered(b, little) == Ordered(b, flag == 1)
  {
    MirroredOrdered(b, little);
  }

  /** An unsigned 32-bit integer in the order asked for. */
  function UInt32In(v: nat, lsbFirst: bool): (r: seq<byte>)
    requires v < TWO32
    ensures |r| == 4
  {
    Ordered(UInt32Bytes(v), lsbFirst)
  }

  /** The integer four bytes in the given order stand for. */
  function ReadUInt32In(b: seq<byte>, lsbFirst: bool): (v: nat)
    requires |b| == 4
    ensures v < TWO32
  {
    UInt32Of(Ordered(b, lsbFirst))
  }

  /** An integer written in an order reads back in that order. */
  lemma ReadUInt32InOf(v: nat, lsbFirst: bool)
    requires v < TWO32
    ensures ReadUInt32In(UInt32In(v, lsbFirst), lsbFirst) == v
  {
    if !lsbFirst {
      MirroredTwice(UInt32Bytes(v));
    }
    UInt32RoundTrip(v);
  }

  /** Doubles in the order asked for: each word's 8 bytes, least significant first or last. */
  function WordsIn(ws: seq<word>, lsbFirst: bool): (r: seq<byte>)
    ensures |r| == 8 * |ws|
  {
    if ws == [] then [] else Ordered(WordBytes(ws[0]), lsbFirst) + WordsIn(ws[1..], lsbFirst)
  }

  /** Least significant first is the layout the Bytes module gives words. */
  lemma {:induction false} WordsInLittle(ws: seq<word>)
    ensures WordsIn(ws, true) == WordsBytes(ws)
  {
    if ws != [] {
      WordsInLittle(ws[1..]);
    }
  }

  lemma {:induction false} WordsInAppend(ws: seq<word>, w: word, e: bool)
    ensures WordsIn(ws + [w], e) == WordsIn(ws, e) + Ordered(WordBytes(w), e)
  {
    if ws != [] {
      assert (ws + [w])[1..] == ws[1..] + [w];
      WordsInAppend(ws[1..], w, e);
    }
  }

  // ---- flipping bytes in place ---------------------------------------------

  /** s with the n bytes from i on in reverse order. */
  function FlippedAt(s: seq<byte>, i: nat, n: nat): (r: seq<byte>)
    requires i + n <= |s|
    ensures |r| == |s|
  {
    seq(|s|, j requires 0 <= j < |s| => if i <= j < i + n then s[2 * i + n - 1 - j] else s[j])
  }

  /** Flipping the same bytes twice gives the bytes back. */
  lemma FlippedAtTwice(s: seq<byte>, i: nat, n: nat)
    requires i + n <= |s|
    ensures FlippedAt(FlippedAt(s, i, n), i, n) == s
  {
    var f := FlippedAt(FlippedAt(s, i, n), i, n);
    assert forall j :: 0 <= j < |s| ==> f[j] == s[j];
  }

  /** Flipping the middle part of a concatenation mirrors that part. */
  lemma FlippedAtConcat(a: seq<byte>, b: seq<byte>, c: seq<byte>)
    ensures FlippedAt(a + b + c, |a|, |b|) == a + Mirrored(b) + c
  {
    var s, m := a + b + c, Mirrored(b);
    var f, g := FlippedAt(s, |a|, |b|), a + m + c;
    forall j | 0 <= j < |f|
      ensures f[j] == g[j]
    {
      if j < |a| {
        assert f[j] == s[j] == a[j] == g[j];
      } else if j < |a| + |b| {
        var i := |b| - 1 - (j - |a|);
        assert f[j] == s[|a| + i];
        assert (a + b)[|a| + i] == b[i];
        assert g[j] == m[j - |a|];
      } else {
        assert f[j] == s[j] == c[j - |a| - |b|] == g[j];
      }
    }
  }

  /** The flipped bytes are the same bytes in reverse order, and nothing else moves. */
  lemma FlippedAtParts(s: seq<byte>, i: nat, n: nat)
    requires i + n <= |s|
    ensures FlippedAt(s, i, n) == s[..i] + Mirrored(s[i..i + n]) + s[i + n..]
  {
    assert s == s[..i] + s[i..i + n] + s[i + n..];
    FlippedAtConcat(s[..i], s[i..i + n], s[i + n..]);
  }

  /** swap_char. */
  method SwapChar(a: array<byte>, i: nat, j: nat)
    requires i < a.Length && j < a.Length
    modifies a
    ensures a[..] == old(a[..])[i := old(a[j])][j := old(a[i])]
  {
    var c := a[i];
    a[i] := a[j];
    a[j] := c;
  }

  /** flip_endian_int32: the four bytes from i on are reversed. */
  method FlipInt32(a: array<byte>, i: nat)
    requires i + 4 <= a.Length
    modifies a
    ensures a[..] == FlippedAt(old(a[..]), i, 4)
  {
    ghost var s := a[..];
    SwapChar(a, i + 3, i);
    SwapChar(a, i + 2, i + 1);
    assert forall j :: 0 <= j < a.Length ==> a[..][j] == FlippedAt(s, i, 4)[j];
  }

  /** flip_endian_double: the eight bytes from i on are reversed. */
  method FlipDouble(a: array<byte>, i: nat)
    requires i + 8 <= a.Length
    modifies a
    ensures a[..] == FlippedAt(old(a[..]), i, 8)
  {
    ghost var s := a[..];
    SwapChar(a, i + 7, i);
    SwapChar(a, i + 6, i + 1);
    SwapChar(a, i + 5, i + 2);
    SwapChar(a, i + 4, i + 3);
    assert forall j :: 0 <= j < a.Length ==> a[..][j] == FlippedAt(s, i, 8)[j];
  }

  /** s with each of the first k doubles from off on in reverse byte order. */
  function FlipWords(s: seq<byte>, off: nat, k: nat): (r: seq<byte>)
    requires off + 8 * k <= |s|
    ensures |r| == |s|
  {
    if k == 0 then s else FlippedAt(FlipWords(s, off, k - 1), off + 8 * (k - 1), 8)
  }

  /** No double flipped yet is the bytes unchanged. */
  lemma FlipWordsNone(s: seq<byte>, off: nat)
    requires off <= |s|
    ensures FlipWords(s, off, 0) == s
  {
  }

  /** One more flipped double: the next one is reversed. */
  lemma FlipWordsNext(s: seq<byte>, off: nat, k: nat)
    requires off + 8 * (k + 1) <= |s|
    ensures FlipWords(s, off, k + 1) == FlippedAt(FlipWords(s, off, k), off + 8 * k, 8)
  {
  }

  /** The doubles flipPoints reverses per point: 3 for dims 3, 4 for dims 4, 2 otherwise. */
  function PointDoubles(dims: int): nat
  {
    if dims == 3 then 3 else if dims == 4 then 4 else 2
  }

  lemma MulSucc(a: nat, c: nat)
    ensures (a + 1) * c == a * c + c
  {
  }

  lemma MulMono(a: nat, b: nat, c: nat)
    requires a <= b
    ensures a * c <= b * c
  {
  }

  /** Flipping the double after the k already flipped. */
  method FlipNext(a: array<byte>, ghost s: seq<byte>, pts: nat, ghost k: nat, loc: nat)
    requires pts + 8 * (k + 1) <= |s| == a.Length && loc == pts + 8 * k
    requires a[..] == FlipWords(s, pts, k)
    modifies a
    ensures a[..] == FlipWords(s, pts, k + 1)
  {
    ghost var before := a[..];
    FlipDouble(a, loc);
    FlipWordsNext(s, pts, k);
    assert a[..] == FlippedAt(before, loc, 8);
  }

  /** The doubles of one point: two, then a third for dims 3 and 4, then a fourth for dims 4. */
  method FlipPoint(a: array<byte>, ghost s: seq<byte>, pts: nat, ghost k: nat, loc: nat, dims: int)
    requires pts + 8 * (k + PointDoubles(dims)) <= |s| == a.Length && loc == pts + 8 * k
    requires a[..] == FlipWords(s, pts, k)
    modifies a
    ensures a[..] == FlipWords(s, pts, k + PointDoubles(dims))
  {
    ghost var d := PointDoubles(dims);
    ghost var k1, k2, k3 := k + 1, k + 2, k + 3;
    FlipNext(a, s, pts, k, loc);
    FlipNext(a, s, pts, k1, loc + 8);
    ghost var done := k2;
    if dims == 3 || dims == 4 {
      FlipNext(a, s, pts, k2, loc + 16);
      done := k3;
    }
    if dims == 4 {
      FlipNext(a, s, pts, k3, loc + 24);
      done := k3 + 1;
    }
    assert done == k + d && a[..] == FlipWords(s, pts, done);
  }

  /**
   * flipPoints: for each of npoints points of `size` bytes (32 for dims 4,
   * 24 for dims 3, 16 otherwise), the doubles at 0, 8 and, for dims 3 and 4,
   * 16, and for dims 4 also 24, are reversed; so npoints·size/8 doubles in a
   * row are.
   */
  method FlipPoints(a: array<byte>, pts: nat, npoints: nat, dims: int)
    requires pts + 8 * (npoints * PointDoubles(dims)) <= a.Length
    modifies a
    ensures a[..] == FlipWords(old(a[..]), pts, npoints * PointDoubles(dims))
  {
    ghost var s := a[..];
    ghost var d := PointDoubles(dims);
    var loc := pts;
    var size := 16;
    if dims == 4 {
      size := 32;
    }
    if dims == 3 {
      size := 24;
    }
    assert size == 8 * d;
    ghost var k := 0;
    for t := 0 to npoints
      invariant k == t * d && loc == pts + 8 * k
      invariant a[..] == FlipWords(s, pts, k)
    {
      MulMono(t + 1, npoints, d);
      MulSucc(t, d);
      FlipPoint(a, s, pts, k, loc, dims);
      loc := loc + size;
      k := k + d;
    }
  }

  /** The parts of a three-part concatenation. */
  lemma Parts<T>(x: seq<T>, a: seq<T>, b: seq<T>, c: seq<T>)
    requires x == a + b + c
    ensures x[..|a|] == a && x[|a|..|a| + |b|] == b && x[|a| + |b|..] == c
    ensures x[..|a| + |b|] == a + b
  {
    assert x[..|a| + |b|] == a + b;
  }

  /** A sequence is its prefix up to k and the rest. */
  lemma SplitAt<T>(s: seq<T>, k: nat)
    requires k <= |s|
    ensures s == s[..k] + s[k..]
  {
  }

  /** Regrouping a four-part concatenation. */
  lemma Regroup2<T>(p: seq<T>, o: seq<T>, r: seq<T>, y: seq<T>)
    ensures p + (o + r) + y == p + o + (r + y)
  {
  }

  /** Regrouping a five-part concatenation. */
  lemma Regroup<T>(x: seq<T>, a: seq<T>, b: seq<T>, c: seq<T>, y: seq<T>)
    ensures (x + a) + b + (c + y) == x + (a + b) + c + y
  {
  }

  /** Flipping one more double reverses it where it lies. */
  lemma FlipWordsStep(z: seq<byte>, off: nat, k: nat, p: seq<byte>, o: seq<byte>, q: seq<byte>)
    requires 1 <= k && off + 8 * k <= |z|
    requires |p| == off + 8 * (k - 1) && |o| == 8
    requires FlipWords(z, off, k - 1) == p + o + q
    ensures FlipWords(z, off, k) == p + Mirrored(o) + q
  {
    FlipWordsNext(z, off, k - 1);
    FlippedAtConcat(p, o, q);
  }

  /** Flipping the first k doubles of a run turns them into the other order. */
  lemma {:induction false} FlipWordsPart(x: seq<byte>, ws: seq<word>, y: seq<byte>, e: bool, k: nat)
    requires k <= |ws|
    ensures FlipWords(x + WordsIn(ws, e) + y, |x|, k) == x + WordsIn(ws[..k], !e) + WordsIn(ws[k..], e) + y
  {
    if k == 0 {
      assert ws[..0] == [] && ws[0..] == ws;
      FlipWordsNone(x + WordsIn(ws, e) + y, |x|);
    } else {
      var z := x + WordsIn(ws, e) + y;
      FlipWordsPart(x, ws, y, e, k - 1);
      var w := WordBytes(ws[k - 1]);
      var done, rest := WordsIn(ws[..k - 1], !e), WordsIn(ws[k..], e);
      WordsInAround(ws, k, e);
      Regroup2(x + done, Ordered(w, e), rest, y);
      FlipWordsStep(z, |x|, k, x + done, Ordered(w, e), rest + y);
      MirroredOrdered(w, e);
      Regroup(x, done, Ordered(w, !e), rest, y);
    }
  }

  /** The k-th double of a run, with the doubles before it in one order and those after it in another. */
  lemma WordsInAround(ws: seq<word>, k: nat, e: bool)
    requires 1 <= k <= |ws|
    ensures WordsIn(ws[k - 1..], e) == Ordered(WordBytes(ws[k - 1]), e) + WordsIn(ws[k..], e)
    ensures WordsIn(ws[..k], !e) == WordsIn(ws[..k - 1], !e) + Ordered(WordBytes(ws[k - 1]), !e)
    ensures |WordsIn(ws[..k - 1], !e)| == 8 * (k - 1)
  {
    assert ws[k - 1..][1..] == ws[k..];
    assert ws[..k - 1] + [ws[k - 1]] == ws[..k];
    WordsInAppend(ws[..k - 1], ws[k - 1], !e);
  }

  /** Flipping a whole run of doubles written in one order gives the run in the other order. */
  lemma FlipWordsIn(x: seq<byte>, ws: seq<word>, y: seq<byte>, e: bool)
    ensures FlipWords(x + WordsIn(ws, e) + y, |x|, |ws|) == x + WordsIn(ws, !e) + y
  {
    FlipWordsPart(x, ws, y, e, |ws|);
    assert ws[..|ws|] == ws && ws[|ws|..] == [];
  }

  /** Flipping the doubles of a run twice gives the run back. */
  lemma FlipWordsTwice(x: seq<byte>, ws: seq<word>, y: seq<byte>, e: bool)
    ensures FlipWords(FlipWords(x + WordsIn(ws, e) + y, |x|, |ws|), |x|, |ws|) == x + WordsIn(ws, e) + y
  {
    FlipWordsIn(x, ws, y, e);
    FlipWordsIn(x, ws, y, !e);
  }

  // ---- the WKB type word -----------------------------------------------------

  /** wkb_dims: 3 when bit 31 is set, else 4 when bit 30 is set, else 2. */
  function WkbDims(t: bv32): (d: nat)
    ensures 2 <= d <= 4
  {
    if t & 0x8000_0000 != 0 then 3 else if t & 0x4000_0000 != 0 then 4 else 2
  }

  /** wkb_simpletype: the low four bits. */
  function WkbSimpleType(t: bv32): (r: bv32)
    ensures r < 16
  {
    t & 0x0F
  }

  /**
   * constructWKBType: the simple type with bit 31 set for 3 dimensions and
   * bit 30 set for any count but 2 and 3. wkb_dims and wkb_simpletype read
   * back the dimensions and the type.
   */
  function ConstructWkbType(simpleType: bv32, dims: int): (r: bv32)
    ensures simpleType < 16 && 2 <= dims <= 4 ==> WkbDims(r) == dims && WkbSimpleType(r) == simpleType
    ensures r & 0x3FFF_FFFF == simpleType & 0x3FFF_FFFF
  {
    if dims == 2 then simpleType
    else if dims == 3 then simpleType | 0x8000_0000
    else simpleType | 0x4000_0000
  }

  // ---- point, line and polygon WKB -------------------------------------------

  /** lwpoint_to_wkb's layout: flag, type word, then the ordinates of the first point, in the flag's order. */
  function WkbPoint(pa: OldPtArr, ndr: bool): (b: seq<byte>)
    requires pa.WellFormed() && |pa.points| >= 1
  {
    [Flag(ndr)] + UInt32In(ConstructWkbType(POINTTYPE as bv32, pa.ndims) as int, ndr) + WordsIn(pa.points[0], ndr)
  }

  /** lwline_to_wkb's layout: flag, type word, point count, then every ordinate, in the flag's order. */
  function WkbLine(pa: OldPtArr, ndr: bool): (b: seq<byte>)
    requires pa.WellFormed() && |pa.points| < TWO32
  {
    [Flag(ndr)] + UInt32In(ConstructWkbType(LINETYPE as bv32, pa.ndims) as int, ndr)
      + UInt32In(|pa.points|, ndr) + WordsIn(Flat(pa.points), ndr)
  }

  /** Rings all well formed with the polygon's dimension count and a 32-bit point count each. */
  predicate RingsOk(ndims: nat, rings: seq<OldPtArr>)
  {
    forall i :: 0 <= i < |rings| ==> rings[i].WellFormed() && rings[i].ndims == ndims && |rings[i].points| < TWO32
  }

  /** A ring as lwpoly_to_wkb writes it: point count, then ordinates. */
  function RingIn(ring: OldPtArr, ndr: bool): (b: seq<byte>)
    requires |ring.points| < TWO32
  {
    UInt32In(|ring.points|, ndr) + WordsIn(Flat(ring.points), ndr)
  }

  /** The rings one after the other. */
  function RingsIn(rings: seq<OldPtArr>, ndr: bool): (b: seq<byte>)
    requires forall i :: 0 <= i < |rings| ==> |rings[i].points| < TWO32
  {
    if rings == [] then []
    else RingsIn(rings[..|rings| - 1], ndr) + RingIn(rings[|rings| - 1], ndr)
  }

  /** The points over all rings, the total_points lwpoly_to_wkb sums. */
  function TotalPoints(rings: seq<OldPtArr>): nat
  {
    if rings == [] then 0 else TotalPoints(rings[..|rings| - 1]) + |rings[|rings| - 1].points|
  }

  /** lwpoly_to_wkb's layout: flag, type word, ring count, then each ring, in the flag's order. */
  function WkbPoly(ndims: nat, rings: seq<OldPtArr>, ndr: bool): (b: seq<byte>)
    requires RingsOk(ndims, rings) && |rings| < TWO32
  {
    [Flag(ndr)] + UInt32In(ConstructWkbType(POLYGONTYPE as bv32, ndims) as int, ndr)
      + UInt32In(|rings|, ndr) + RingsIn(rings, ndr)
  }

  lemma MulDist(a: nat, b: nat, c: nat)
    ensures (a + b) * c == a * c + b * c
  {
  }

  /** The bytes the rings take: 4 per ring and 8·ndims per point. */
  lemma {:induction false} RingsInLength(ndims: nat, rings: seq<OldPtArr>, ndr: bool)
    requires RingsOk(ndims, rings)
    ensures |RingsIn(rings, ndr)| == 4 * |rings| + 8 * (TotalPoints(rings) * ndims)
  {
    if rings != [] {
      var init, last := rings[..|rings| - 1], rings[|rings| - 1];
      RingsInLength(ndims, init, ndr);
      FlatLength(last.points, ndims);
      MulDist(TotalPoints(init), |last.points|, ndims);
      assert |RingIn(last, ndr)| == 4 + 8 * (|last.points| * ndims);
    }
  }

  /** The type word of a simple type and a dimension count gives both back. */
  lemma TypeWord(simpleType: nat, ndims: nat)
    requires simpleType < 16 && 2 <= ndims <= 4
    ensures WkbDims(ConstructWkbType(simpleType as bv32, ndims)) == ndims
    ensures WkbSimpleType(ConstructWkbType(simpleType as bv32, ndims)) == simpleType as bv32
  {
  }

  /**
   * A reader of the WKB finds what the writer put: byte 0 is the flag, the
   * type word read in the flag's order gives the dimensions and the simple
   * type, and the size is 5 + 8·ndims for a point.
   */
  lemma WkbPointHeader(pa: OldPtArr, ndr: bool)
    requires pa.WellFormed() && |pa.points| >= 1
    ensures |WkbPoint(pa, ndr)| == 5 + 8 * pa.ndims
    ensures WkbPoint(pa, ndr)[0] == Flag(ndr)
    ensures ReadUInt32In(WkbPoint(pa, ndr)[1..5], ndr) == ConstructWkbType(POINTTYPE as bv32, pa.ndims) as int
    ensures WkbDims(ConstructWkbType(POINTTYPE as bv32, pa.ndims)) == pa.ndims
    ensures WkbSimpleType(ConstructWkbType(POINTTYPE as bv32, pa.ndims)) == POINTTYPE as bv32
  {
    var t := ConstructWkbType(POINTTYPE as bv32, pa.ndims) as int;
    TypeWord(POINTTYPE, pa.ndims);
    assert WkbPoint(pa, ndr)[1..5] == UInt32In(t, ndr);
    ReadUInt32InOf(t, ndr);
  }

  /** The line's size is 9 + 8·ndims·npoints, and its type word and point count read back. */
  lemma WkbLineHeader(pa: OldPtArr, ndr: bool)
    requires pa.WellFormed() && |pa.points| < TWO32
    ensures |WkbLine(pa, ndr)| == 9 + |pa.points| * (8 * pa.ndims)
    ensures WkbLine(pa, ndr)[0] == Flag(ndr)
    ensures ReadUInt32In(WkbLine(pa, ndr)[1..5], ndr) == ConstructWkbType(LINETYPE as bv32, pa.ndims) as int
    ensures ReadUInt32In(WkbLine(pa, ndr)[5..9], ndr) == |pa.points|
    ensures WkbDims(ConstructWkbType(LINETYPE as bv32, pa.ndims)) == pa.ndims
    ensures WkbSimpleType(ConstructWkbType(LINETYPE as bv32, pa.ndims)) == LINETYPE as bv32
  {
    var t := ConstructWkbType(LINETYPE as bv32, pa.ndims) as int;
    PointListBytes(pa.points, pa.ndims);
    assert |WkbLine(pa, ndr)| == 9 + 8 * |Flat(pa.points)|;
    TypeWord(LINETYPE, pa.ndims);
    assert WkbLine(pa, ndr)[1..5] == UInt32In(t, ndr);
    assert WkbLine(pa, ndr)[5..9] == UInt32In(|pa.points|, ndr);
    ReadUInt32InOf(t, ndr);
    ReadUInt32InOf(|pa.points|, ndr);
  }

  /** The polygon's size is 9 + 8·ndims·total_points + 4·nrings, and its type word and ring count read back. */
  lemma WkbPolyHeader(ndims: nat, rings: seq<OldPtArr>, ndr: bool)
    requires RingsOk(ndims, rings) && |rings| < TWO32 && 2 <= ndims <= 4
    ensures |WkbPoly(ndims, rings, ndr)| == 9 + TotalPoints(rings) * (8 * ndims) + 4 * |rings|
    ensures WkbPoly(ndims, rings, ndr)[0] == Flag(ndr)
    ensures ReadUInt32In(WkbPoly(ndims, rings, ndr)[1..5], ndr) == ConstructWkbType(POLYGONTYPE as bv32, ndims) as int
    ensures ReadUInt32In(WkbPoly(ndims, rings, ndr)[5..9], ndr) == |rings|
    ensures WkbDims(ConstructWkbType(POLYGONTYPE as bv32, ndims)) == ndims
    ensures WkbSimpleType(ConstructWkbType(POLYGONTYPE as bv32, ndims)) == POLYGONTYPE as bv32
  {
    var t := ConstructWkbType(POLYGONTYPE as bv32, ndims) as int;
    TypeWord(POLYGONTYPE, ndims);
    RingsInLength(ndims, rings, ndr);
    Mul8(TotalPoints(rings), ndims);
    assert WkbPoly(ndims, rings, ndr)[1..5] == UInt32In(t, ndr);
    assert WkbPoly(ndims, rings, ndr)[5..9] == UInt32In(|rings|, ndr);
    ReadUInt32InOf(t, ndr);
    ReadUInt32InOf(|rings|, ndr);
  }

  // ---- the writers -------------------------------------------------------------

  lemma Mul8(a: nat, b: nat)
    ensures a * (8 * b) == 8 * (a * b)
  {
  }

  /** The ptsize·npoints bytes the writers copy for a point list are its doubles. */
  lemma PointListBytes(points: seq<Raw>, ndims: nat)
    requires forall i :: 0 <= i < |points| ==> |points[i]| == ndims
    ensures (8 * ndims) * |points| == 8 * |Flat(points)|
  {
    FlatLength(points, ndims);
    Mul8(|points|, ndims);
  }

  /** The rings written so far take no more room than all of them. */
  lemma {:induction false} RingsInPrefix(rings: seq<OldPtArr>, t: nat, ndr: bool)
    requires t <= |rings| && forall i :: 0 <= i < |rings| ==> |rings[i].points| < TWO32
    ensures |RingsIn(rings[..t], ndr)| <= |RingsIn(rings, ndr)|
  {
    if t < |rings| {
      var init := rings[..|rings| - 1];
      assert init[..t] == rings[..t];
      RingsInPrefix(init, t, ndr);
    } else {
      assert rings[..t] == rings;
    }
  }

  /** The rings up to t + 1 are those up to t and ring t. */
  lemma RingStep(rings: seq<OldPtArr>, t: nat, ndr: bool)
    requires t < |rings| && forall i :: 0 <= i < |rings| ==> |rings[i].points| < TWO32
    ensures RingsIn(rings[..t + 1], ndr) == RingsIn(rings[..t], ndr) + RingIn(rings[t], ndr)
  {
    assert rings[..t + 1][..t] == rings[..t];
  }

  lemma Assoc3<T>(a: seq<T>, b: seq<T>, c: seq<T>)
    ensures (a + b) + c == a + (b + c)
  {
  }

  lemma Assoc<T>(a: seq<T>, b: seq<T>, c: seq<T>, d: seq<T>)
    ensures a + b + c + d == a + (b + c + d)
  {
  }

  /** lwpoly_to_wkb's wkbsize is the size of the polygon's WKB. */
  lemma PolySize(ndims: nat, rings: seq<OldPtArr>, totalPoints: nat, ndr: bool)
    requires RingsOk(ndims, rings) && totalPoints == TotalPoints(rings)
    ensures 1 + 4 + 4 + totalPoints * (8 * ndims) + 4 * |rings| == 9 + |RingsIn(rings, ndr)|
  {
    RingsInLength(ndims, rings, ndr);
    Mul8(totalPoints, ndims);
  }

  /**
   * memcpy of an integer's machine bytes to loc, then flip_endian_int32 when
   * requiresflip says so: the integer lands in the flag's order on either
   * machine, and nothing else changes.
   */
  method PutInt32(buf: array<byte>, loc: nat, v: nat, flag: byte, little: bool, need: bool)
    requires v < TWO32 && loc + 4 <= buf.Length
    requires flag <= 1 && need == RequiresFlip(flag, little).value
    modifies buf
    ensures buf[..loc + 4] == old(buf[..loc]) + UInt32In(v, flag == 1)
    ensures buf[loc + 4..] == old(buf[loc + 4..])
  {
    var next := Put(buf, loc, UInt32In(v, little));
    ghost var s := buf[..];
    ghost var p, rest := s[..loc], s[loc + 4..];
    SplitAt(s, loc + 4);
    Parts(s, p, UInt32In(v, little), rest);
    if need {
      FlipInt32(buf, loc);
      FlippedAtConcat(p, UInt32In(v, little), rest);
    }
    FlipReachesFlag(UInt32Bytes(v), flag, little);
    Parts(buf[..], p, UInt32In(v, flag == 1), rest);
  }

  /**
   * memcpy of a point list's machine bytes to loc, then flipPoints when
   * requiresflip says so: the ordinates land in the flag's order on either
   * machine, and nothing else changes.
   */
  method PutPoints(buf: array<byte>, loc: nat, points: seq<Raw>, ndims: nat, flag: byte, little: bool, need: bool)
    requires 2 <= ndims <= 4 && forall i :: 0 <= i < |points| ==> |points[i]| == ndims
    requires loc + 8 * |Flat(points)| <= buf.Length
    requires flag <= 1 && need == RequiresFlip(flag, little).value
    modifies buf
    ensures buf[..loc + 8 * |Flat(points)|] == old(buf[..loc]) + WordsIn(Flat(points), flag == 1)
    ensures buf[loc + 8 * |Flat(points)|..] == old(buf[loc + 8 * |Flat(points)|..])
  {
    var ws := Flat(points);
    var next := Put(buf, loc, WordsIn(ws, little));
    ghost var s := buf[..];
    ghost var p, rest := s[..loc], s[next..];
    SplitAt(s, next);
    Parts(s, p, WordsIn(ws, little), rest);
    if need {
      FlatLength(points, ndims);
      FlipPoints(buf, loc, |points|, ndims);
      FlipWordsIn(p, ws, rest, little);
    }
    Parts(buf[..], p, WordsIn(ws, flag == 1), rest);
  }

  /**
   * One ring of lwpoly_to_wkb's loop: its point count, then its ordinates,
   * each in the flag's order; loc moves past them, and nothing after them
   * changes.
   */
  method PutRing(buf: array<byte>, loc: nat, ring: OldPtArr, ndims: nat, flag: byte, little: bool, need: bool)
    returns (next: nat)
    requires ring.WellFormed() && ring.ndims == ndims && |ring.points| < TWO32
    requires loc + |RingIn(ring, flag == 1)| <= buf.Length
    requires flag <= 1 && need == RequiresFlip(flag, little).value
    modifies buf
    ensures next == loc + |RingIn(ring, flag == 1)|
    ensures buf[..next] == old(buf[..loc]) + RingIn(ring, flag == 1)
    ensures buf[next..] == old(buf[next..])
  {
    var ptsize := 8 * ndims;
    var npoints := |ring.points|;
    PointListBytes(ring.points, ndims);
    ghost var before := buf[..loc];
    PutInt32(buf, loc, npoints, flag, little, need);
    PutPoints(buf, loc + 4, ring.points, ndims, flag, little, need);
    next := loc + 4 + ptsize * npoints;
    assert buf[..next] == before + UInt32In(npoints, flag == 1) + WordsIn(Flat(ring.points), flag == 1);
  }

  /** One turn of lwpoly_to_wkb's ring loop: the rings before t are written, and ring t follows them. */
  method PutNextRing(buf: array<byte>, loc: nat, ghost header: seq<byte>, rings: seq<OldPtArr>, t: nat, ndims: nat,
                     flag: byte, little: bool, need: bool)
    returns (next: nat)
    requires RingsOk(ndims, rings) && t < |rings|
    requires loc == |header| + |RingsIn(rings[..t], flag == 1)|
    requires |header| + |RingsIn(rings, flag == 1)| <= buf.Length && loc <= buf.Length
    requires buf[..loc] == header + RingsIn(rings[..t], flag == 1)
    requires flag <= 1 && need == RequiresFlip(flag, little).value
    modifies buf
    ensures next == |header| + |RingsIn(rings[..t + 1], flag == 1)| && next <= buf.Length
    ensures buf[..next] == header + RingsIn(rings[..t + 1], flag == 1)
  {
    ghost var done, ring := RingsIn(rings[..t], flag == 1), RingIn(rings[t], flag == 1);
    RingsInPrefix(rings, t + 1, flag == 1);
    RingStep(rings, t, flag == 1);
    assert rings[t] in rings;
    next := PutRing(buf, loc, rings[t], ndims, flag, little, need);
    Assoc3(header, done, ring);
  }

  /** lwpoly_to_wkb's first loop: the points over all rings. */
  method SumPoints(rings: seq<OldPtArr>) returns (totalPoints: nat)
    ensures totalPoints == TotalPoints(rings)
  {
    totalPoints := 0;
    for t := 0 to |rings|
      invariant totalPoints == TotalPoints(rings[..t])
    {
      assert rings[..t + 1][..t] == rings[..t];
      totalPoints := totalPoints + |rings[t].points|;
    }
    assert rings[..|rings|] == rings;
  }

  /** lwpoly_to_wkb's ring loop: the rings one after the other from loc on, in the flag's order. */
  method PutRings(buf: array<byte>, loc0: nat, rings: seq<OldPtArr>, ndims: nat, flag: byte, little: bool, need: bool)
    requires RingsOk(ndims, rings) && loc0 + |RingsIn(rings, flag == 1)| <= buf.Length
    requires flag <= 1 && need == RequiresFlip(flag, little).value
    modifies buf
    ensures buf[..loc0 + |RingsIn(rings, flag == 1)|] == old(buf[..loc0]) + RingsIn(rings, flag == 1)
  {
    ghost var header := buf[..loc0];
    var loc := loc0;
    for t := 0 to |rings|
      invariant loc == loc0 + |RingsIn(rings[..t], flag == 1)| && loc <= buf.Length
      invariant buf[..loc] == header + RingsIn(rings[..t], flag == 1)
    {
      loc := PutNextRing(buf, loc, header, rings, t, ndims, flag, little, need);
    }
    assert rings[..|rings|] == rings;
  }

  /**
   * lwpoint_to_wkb on a point whose array holds at least one point: the
   * result is the same on either machine, the WKB of the point in the order
   * the flag names; a flag other than 0 or 1 is requiresflip's error.
   */
  method PointToWkb(pa: OldPtArr, flag: byte, little: bool) returns (r: Result<seq<byte>>)
    requires pa.WellFormed() && |pa.points| >= 1
    ensures r.Ok? <==> flag <= 1
    ensures r.Ok? ==> r.value == WkbPoint(pa, flag == 1)
  {
    var needFlip := RequiresFlip(flag, little);
    if needFlip.Err? {
      return Err(needFlip.msg);
    }
    var need := needFlip.value;
    var ptsize := 8 * pa.ndims;
    var wkbsize := 1 + 4 + ptsize;
    var result := new byte[wkbsize];
    result[0] := flag;
    var wkbtype := ConstructWkbType(POINTTYPE as bv32, pa.ndims);
    assert result[..1] == [Flag(flag == 1)];
    PutInt32(result, 1, wkbtype as int, flag, little, need);
    ghost var header := result[..5];
    var first := pa.points[..1];
    assert Flat(first) == pa.points[0] by {
      assert first[1..] == [];
    }
    PutPoints(result, 5, first, pa.ndims, flag, little, need);
    assert result[..] == result[..wkbsize] == header + WordsIn(pa.points[0], flag == 1);
    return Ok(result[..]);
  }

  /**
   * lwline_to_wkb: the same on either machine, the line's WKB in the order
   * the flag names; a flag other than 0 or 1 is requiresflip's error.
   */
  method LineToWkb(pa: OldPtArr, flag: byte, little: bool) returns (r: Result<seq<byte>>)
    requires pa.WellFormed() && |pa.points| < TWO32
    ensures r.Ok? <==> flag <= 1
    ensures r.Ok? ==> r.value == WkbLine(pa, flag == 1)
  {
    var needFlip := RequiresFlip(flag, little);
    if needFlip.Err? {
      return Err(needFlip.msg);
    }
    var need := needFlip.value;
    var ptsize := 8 * pa.ndims;
    var npoints := |pa.points|;
    PointListBytes(pa.points, pa.ndims);
    var wkbsize := 1 + 4 + 4 + npoints * ptsize;
    var result := new byte[wkbsize];
    result[0] := flag;
    var wkbtype := ConstructWkbType(LINETYPE as bv32, pa.ndims);
    assert result[..1] == [Flag(flag == 1)];
    PutInt32(result, 1, wkbtype as int, flag, little, need);
    PutInt32(result, 5, npoints, flag, little, need);
    ghost var header := result[..9];
    assert header == [Flag(flag == 1)] + UInt32In(wkbtype as int, flag == 1) + UInt32In(npoints, flag == 1);
    PutPoints(result, 9, pa.points, pa.ndims, flag, little, need);
    assert result[..] == result[..wkbsize] == header + WordsIn(Flat(pa.points), flag == 1);
    return Ok(result[..]);
  }

  /**
   * lwpoly_to_wkb on a polygon whose rings share its dimension count: the
   * same on either machine, the polygon's WKB in the order the flag names;
   * a flag other than 0 or 1 is requiresflip's error.
   */
  method PolyToWkb(ndims: nat, rings: seq<OldPtArr>, flag: byte, little: bool) returns (r: Result<seq<byte>>)
    requires 2 <= ndims <= 4 && RingsOk(ndims, rings) && |rings| < TWO32
    ensures r.Ok? <==> flag <= 1
    ensures r.Ok? ==> r.value == WkbPoly(ndims, rings, flag == 1)
  {
    var needFlip := RequiresFlip(flag, little);
    if needFlip.Err? {
      return Err(needFlip.msg);
    }
    var need := needFlip.value;
    var ptsize := 8 * ndims;
    var totalPoints := SumPoints(rings);
    PolySize(ndims, rings, totalPoints, flag == 1);
    var wkbsize := 1 + 4 + 4 + totalPoints * ptsize + 4 * |rings|;
    var result := new byte[wkbsize];
    result[0] := flag;
    var wkbtype := ConstructWkbType(POLYGONTYPE as bv32, ndims);
    assert result[..1] == [Flag(flag == 1)];
    PutInt32(result, 1, wkbtype as int, flag, little, need);
    PutInt32(result, 5, |rings|, flag, little, need);
    ghost var header := result[..9];
    assert header == [Flag(flag == 1)] + UInt32In(wkbtype as int, flag == 1) + UInt32In(|rings|, flag == 1);
    PutRings(result, 9, rings, ndims, flag, little, need);
    assert result[..] == result[..wkbsize] == header + RingsIn(rings, flag == 1);
    return Ok(result[..]);
  }
}
