/**
 * Bytes, little-endian integers and the 8-byte words that stand for doubles.
 *
 * The serialized forms keep each double as 8 bytes copied with memcpy. The model
 * treats a double as the 64-bit pattern it occupies (a `word`), written
 * little-endian as the x86 machines PostGIS targets do. Ordering and C `==`
 * on doubles are given by `Key` below, which agrees with IEEE 754 ordering on
 * every pattern that is not a NaN.
 */
module Bytes {
  type byte = x: int | 0 <= x < 256
  type word = x: int | 0 <= x < 0x1_0000_0000_0000_0000

  const SIGN_BIT: int := 0x8000_0000_0000_0000
  const TWO32: int := 0x1_0000_0000

  /** 2 to the power k: the value of bit k. */
  function Pow2(k: nat): (r: nat)
    ensures r >= 1
  {
    if k == 0 then 1 else 2 * Pow2(k - 1)
  }

  function Pow256(n: nat): (r: nat)
    ensures r >= 1
  {
    if n == 0 then 1 else 256 * Pow256(n - 1)
  }

  /** The n low-order bytes of v, least significant first. */
  function LE(v: nat, n: nat): (r: seq<byte>)
    ensures |r| == n
  {
    if n == 0 then [] else [v % 256] + LE(v / 256, n - 1)
  }

  /** The unsigned value of a little-endian byte string. */
  function FromLE(s: seq<byte>): (v: nat)
    ensures v < Pow256(|s|)
  {
    if s == [] then 0 else s[0] + 256 * FromLE(s[1..])
  }

  lemma {:induction false} FromLEOfLE(v: nat, n: nat)
    requires v < Pow256(n)
    ensures FromLE(LE(v, n)) == v
  {
    if n > 0 {
      var r := LE(v, n);
      assert r[1..] == LE(v / 256, n - 1);
      FromLEOfLE(v / 256, n - 1);
    }
  }

  lemma {:induction false} LEOfFromLE(s: seq<byte>)
    ensures LE(FromLE(s), |s|) == s
  {
    if s != [] {
      var v := FromLE(s);
      assert v % 256 == s[0] && v / 256 == FromLE(s[1..]);
      LEOfFromLE(s[1..]);
    }
  }

  /** Equal-length little-endian strings are equal exactly when their values are. */
  lemma LEInjective(a: nat, b: nat, n: nat)
    requires a < Pow256(n) && b < Pow256(n)
    requires LE(a, n) == LE(b, n)
    ensures a == b
  {
    FromLEOfLE(a, n);
    FromLEOfLE(b, n);
  }

  // ---- 32-bit integers -------------------------------------------------

  predicate IsInt32(x: int) { -0x8000_0000 <= x < 0x8000_0000 }

  /** The four bytes memcpy copies out of an int32 (two's complement). */
  function Int32Bytes(x: int): (r: seq<byte>)
    requires IsInt32(x)
    ensures |r| == 4
  {
    LE(if x < 0 then x + TWO32 else x, 4)
  }

  /** The int32 read back from four bytes. */
  function Int32Of(s: seq<byte>): (x: int)
    requires |s| == 4
    ensures IsInt32(x)
  {
    var u := FromLE(s);
    assert Pow256(4) == TWO32;
    if u < 0x8000_0000 then u else u - TWO32
  }

  lemma Int32RoundTrip(x: int)
    requires IsInt32(x)
    ensures Int32Of(Int32Bytes(x)) == x
  {
    assert Pow256(4) == TWO32;
    FromLEOfLE(if x < 0 then x + TWO32 else x, 4);
  }

  lemma Int32BytesOf(s: seq<byte>)
    requires |s| == 4
    ensures Int32Bytes(Int32Of(s)) == s
  {
    assert Pow256(4) == TWO32;
    LEOfFromLE(s);
  }

  /** The four bytes of an unsigned 32-bit count. */
  function UInt32Bytes(n: nat): (r: seq<byte>)
    requires n < TWO32
    ensures |r| == 4
  {
    LE(n, 4)
  }

  function UInt32Of(s: seq<byte>): (n: nat)
    requires |s| == 4
    ensures n < TWO32
  {
    assert Pow256(4) == TWO32;
    FromLE(s)
  }

  lemma UInt32RoundTrip(n: nat)
    requires n < TWO32
    ensures UInt32Of(UInt32Bytes(n)) == n
  {
    assert Pow256(4) == TWO32;
    FromLEOfLE(n, 4);
  }

  /** A count written at off reads back from off. */
  lemma UInt32At(s: seq<byte>, off: nat, n: nat)
    requires n < TWO32 && off + 4 <= |s| && s[off..off + 4] == UInt32Bytes(n)
    ensures UInt32Of(s[off..off + 4]) == n
  {
    UInt32RoundTrip(n);
  }

  // ---- doubles as 8-byte words -----------------------------------------

  function WordBytes(w: word): (r: seq<byte>)
    ensures |r| == 8
  {
    LE(w, 8)
  }

  function WordOf(s: seq<byte>): (w: word)
    requires |s| == 8
  {
    assert Pow256(8) == 0x1_0000_0000_0000_0000;
    FromLE(s)
  }

  lemma WordRoundTrip(w: word)
    ensures WordOf(WordBytes(w)) == w
  {
    assert Pow256(8) == 0x1_0000_0000_0000_0000;
    FromLEOfLE(w, 8);
  }

  lemma WordBytesOf(s: seq<byte>)
    requires |s| == 8
    ensures WordBytes(WordOf(s)) == s
  {
    assert Pow256(8) == 0x1_0000_0000_0000_0000;
    LEOfFromLE(s);
  }

  /** The concatenated bytes of a sequence of words. */
  function WordsBytes(ws: seq<word>): (r: seq<byte>)
    ensures |r| == 8 * |ws|
  {
    if ws == [] then [] else WordBytes(ws[0]) + WordsBytes(ws[1..])
  }

  /** The words read back from a byte string whose length is a multiple of 8: word i from bytes 8i to 8i+8. */
  function WordsOf(s: seq<byte>): (ws: seq<word>)
    requires |s| % 8 == 0
    ensures 8 * |ws| == |s|
  {
    seq(|s| / 8, i requires 0 <= i < |s| / 8 => WordOf(s[8 * i..8 * i + 8]))
  }

  /** A slice of a + b that starts o into b is that slice of b. */
  lemma SliceOfConcat<T>(x: seq<T>, a: seq<T>, b: seq<T>, lo: nat, o: nat, w: nat)
    requires x == a + b && lo == |a| + o && o + w <= |b|
    ensures x[lo..lo + w] == b[o..o + w]
  {
    SliceAppend(a, b, o, o + w);
  }

  /** A slice past the first part of a concatenation is a slice of the second part. */
  lemma SliceAppend<T>(a: seq<T>, b: seq<T>, x: nat, y: nat)
    requires x <= y <= |b|
    ensures (a + b)[|a| + x..|a| + y] == b[x..y]
  {
    assert forall k :: 0 <= k < y - x ==> (a + b)[|a| + x..|a| + y][k] == b[x..y][k];
  }

  /** Word i of a byte string of words sits at bytes 8i to 8i+8. */
  lemma {:induction false} WordsBytesAt(ws: seq<word>, i: nat)
    requires i < |ws|
    ensures WordsBytes(ws)[8 * i..8 * i + 8] == WordBytes(ws[i])
  {
    if i > 0 {
      WordsBytesAt(ws[1..], i - 1);
      SliceAppend(WordBytes(ws[0]), WordsBytes(ws[1..]), 8 * (i - 1), 8 * (i - 1) + 8);
    }
  }

  lemma WordsRoundTrip(ws: seq<word>)
    ensures WordsOf(WordsBytes(ws)) == ws
  {
    var r := WordsOf(WordsBytes(ws));
    forall i | 0 <= i < |ws| ensures r[i] == ws[i] {
      WordsBytesAt(ws, i);
      WordRoundTrip(ws[i]);
    }
  }

  // ---- writing into a buffer -------------------------------------------

  /** memcpy of s into buf at loc; the cursor moves past the copied bytes. */
  method Put(buf: array<byte>, loc: nat, s: seq<byte>) returns (next: nat)
    requires loc + |s| <= buf.Length
    modifies buf
    ensures next == loc + |s|
    ensures buf[..next] == old(buf[..loc]) + s
    ensures buf[next..] == old(buf[next..])
  {
    forall i | 0 <= i < |s| {
      buf[loc + i] := s[i];
    }
    next := loc + |s|;
    assert buf[..next] == buf[..loc] + buf[loc..next];
  }

  /**
   * The number order of the double whose bit pattern is w: non-negative
   * patterns count up from 0, negative ones (sign bit set) count down. +0.0
   * and -0.0 share the key 0, as C `==` treats them as equal.
   */
  function Key(w: word): int
  {
    if w < SIGN_BIT then w else -(w - SIGN_BIT)
  }

  /** C `==` on two doubles (NaN left out). */
  predicate DoubleEq(a: word, b: word) { Key(a) == Key(b) }

  /** C `<` on two doubles (NaN left out). */
  predicate DoubleLess(a: word, b: word) { Key(a) < Key(b) }

  /** The only two patterns equal under C `==` without being the same bits are the two zeros. */
  lemma DoubleEqIsBitsOrZero(a: word, b: word)
    ensures DoubleEq(a, b) <==> (a == b || (a in {0, SIGN_BIT} && b in {0, SIGN_BIT}))
  {
  }
}
