/**
 * The growable point buffer of liblwgeom (POINTARRAY, liblwgeom/ptarray.c).
 *
 * A point array holds `npoints` points in storage for `maxpoints`; each
 * stored point is the run of `NDims` doubles the flags call for, in the order
 * x, y, then z when the Z flag is set, then m when the M flag is set. Points
 * are kept here as those runs of 8-byte words, so `memcpy` and `memcmp` on a
 * point are copies and comparisons of the run.
 */
module PointArrays {
  import opened Bytes
  import opened Wrappers

  /** POINT4D: the four-ordinate point the accessors read and write. */
  datatype Point4 = Point4(x: word, y: word, z: word, m: word)

  /** BOX3D as ptarray_compute_box3d_p fills it. */
  datatype Box3D = Box3D(xmin: word, xmax: word, ymin: word, ymax: word, zmin: word, zmax: word)

  /** The bit pattern of 0.0, used for absent ordinates (NO_Z_VALUE, NO_M_VALUE). */
  const ZERO: word := 0

  type Raw = seq<word>

  function NDims(hasz: bool, hasm: bool): nat
  {
    2 + (if hasz then 1 else 0) + (if hasm then 1 else 0)
  }

  /** The ordinates ptarray_set_point4d stores for p in an array with the given flags. */
  function Store(p: Point4, hasz: bool, hasm: bool): (r: Raw)
    ensures |r| == NDims(hasz, hasm)
  {
    [p.x, p.y] + (if hasz then [p.z] else []) + (if hasm then [p.m] else [])
  }

  /** The POINT4D getPoint4d_p reads from a stored point; absent ordinates read as 0.0. */
  function Load(raw: Raw, hasz: bool, hasm: bool): Point4
    requires |raw| == NDims(hasz, hasm)
  {
    Point4(raw[0], raw[1], if hasz then raw[2] else ZERO, if hasm then raw[|raw| - 1] else ZERO)
  }

  /** Reading back a stored point gives it back, with the absent ordinates zeroed. */
  lemma LoadStore(p: Point4, hasz: bool, hasm: bool)
    ensures Load(Store(p, hasz, hasm), hasz, hasm)
         == Point4(p.x, p.y, if hasz then p.z else ZERO, if hasm then p.m else ZERO)
  {
  }

  /** Storing what was read gives back the stored ordinates. */
  lemma StoreLoad(raw: Raw, hasz: bool, hasm: bool)
    requires |raw| == NDims(hasz, hasm)
    ensures Store(Load(raw, hasz, hasm), hasz, hasm) == raw
  {
    var r := Store(Load(raw, hasz, hasm), hasz, hasm);
    assert |r| == |raw|;
    forall i | 0 <= i < |raw| ensures r[i] == raw[i] { }
  }

  /** Equality of the ordinates an array with these flags holds, with C `==` on doubles. */
  predicate SameInDims(p: Point4, q: Point4, hasz: bool, hasm: bool)
  {
    DoubleEq(p.x, q.x) && DoubleEq(p.y, q.y)
    && (hasz ==> DoubleEq(p.z, q.z)) && (hasm ==> DoubleEq(p.m, q.m))
  }

  function Inserted<T>(s: seq<T>, where: nat, x: T): (r: seq<T>)
    requires where <= |s|
    ensures |r| == |s| + 1 && r[where] == x
    ensures forall i :: 0 <= i < where ==> r[i] == s[i]
    ensures forall i :: where < i < |r| ==> r[i] == s[i - 1]
  {
    s[..where] + [x] + s[where..]
  }

  function Removed<T>(s: seq<T>, where: nat): (r: seq<T>)
    requires where < |s|
    ensures |r| == |s| - 1
    ensures forall i :: 0 <= i < where ==> r[i] == s[i]
    ensures forall i :: where <= i < |r| ==> r[i] == s[i + 1]
  {
    s[..where] + s[where + 1..]
  }

  /** Removing what was just inserted gives the array back. */
  lemma RemovedInserted<T>(s: seq<T>, where: nat, x: T)
    requires where <= |s|
    ensures Removed(Inserted(s, where, x), where) == s
  {
    var r := Removed(Inserted(s, where, x), where);
    assert |r| == |s|;
    forall i | 0 <= i < |s| ensures r[i] == s[i] { }
  }

  function Reversed<T>(s: seq<T>): (r: seq<T>)
    ensures |r| == |s|
  {
    if s == [] then [] else Reversed(s[1..]) + [s[0]]
  }

  lemma {:induction false} ReversedAt<T>(s: seq<T>, k: nat)
    requires k < |s|
    ensures Reversed(s)[k] == s[|s| - 1 - k]
  {
    if k < |s| - 1 {
      ReversedAt(s[1..], k);
    }
  }

  /** Reversing twice gives the array back. */
  lemma ReversedTwice<T>(s: seq<T>)
    ensures Reversed(Reversed(s)) == s
  {
    var r := Reversed(Reversed(s));
    forall k | 0 <= k < |s| ensures r[k] == s[k] {
      ReversedAt(Reversed(s), k);
      ReversedAt(s, |s| - 1 - k);
    }
  }

  // ---- duplicate removal ------------------------------------------------

  /** No two neighbouring points are the same ordinates. */
  predicate NoRepeats(s: seq<Raw>)
  {
    forall i :: 0 < i < |s| ==> s[i - 1] != s[i]
  }

  /** The reference collapse of runs of equal neighbours into one point. */
  function Dedup(s: seq<Raw>): (r: seq<Raw>)
    decreases |s|
  {
    if |s| <= 1 then s
    else Dedup(s[..|s| - 1]) + (if s[|s| - 2] == s[|s| - 1] then [] else [s[|s| - 1]])
  }

  lemma {:induction false} DedupEnds(s: seq<Raw>)
    requires |s| >= 1
    ensures 1 <= |Dedup(s)| <= |s|
    ensures Dedup(s)[0] == s[0] && Dedup(s)[|Dedup(s)| - 1] == s[|s| - 1]
    decreases |s|
  {
    if |s| > 1 {
      DedupEnds(s[..|s| - 1]);
    }
  }

  lemma {:induction false} DedupOfNoRepeats(s: seq<Raw>)
    requires NoRepeats(s)
    ensures Dedup(s) == s
    decreases |s|
  {
    if |s| > 1 {
      var t := s[..|s| - 1];
      assert NoRepeats(t) by {
        forall i | 0 < i < |t| ensures t[i - 1] != t[i] { assert t[i] == s[i] && t[i - 1] == s[i - 1]; }
      }
      DedupOfNoRepeats(t);
      assert s == t + [s[|s| - 1]];
    }
  }

  lemma {:induction false} DedupShorter(s: seq<Raw>)
    requires !NoRepeats(s)
    ensures |Dedup(s)| < |s|
    decreases |s|
  {
    var t := s[..|s| - 1];
    if s[|s| - 2] == s[|s| - 1] {
      if |t| >= 1 { DedupEnds(t); }
    } else {
      assert !NoRepeats(t) by {
        var i :| 0 < i < |s| && s[i - 1] == s[i];
        assert i < |s| - 1;
        assert t[i - 1] == t[i];
      }
      DedupShorter(t);
    }
  }

  lemma {:induction false} DedupHasNoRepeats(s: seq<Raw>)
    ensures NoRepeats(Dedup(s))
    decreases |s|
  {
    if |s| > 1 {
      var t := s[..|s| - 1];
      DedupHasNoRepeats(t);
      DedupEnds(t);
    }
  }

  /** Scanning one more point of the input extends the collapse by that point unless it repeats its neighbour. */
  lemma DedupStep(s: seq<Raw>, k: nat)
    requires 1 <= k < |s|
    ensures Dedup(s[..k + 1]) == Dedup(s[..k]) + (if s[k - 1] == s[k] then [] else [s[k]])
    ensures 1 <= |Dedup(s[..k])| <= k && Dedup(s[..k])[0] == s[0]
  {
    assert s[..k + 1][..k] == s[..k];
    DedupEnds(s[..k]);
  }

  /** The last step of the scan: the collapse so far is only the first point exactly when the result is two points. */
  lemma DedupLast(s: seq<Raw>)
    requires |s| >= 3
    ensures var d := Dedup(s[..|s| - 1]);
      (|d| == 1 ==> RemoveRepeatedSpec(s) == d + [s[|s| - 1]])
      && (|d| > 1 ==> RemoveRepeatedSpec(s) == d + (if s[|s| - 2] == s[|s| - 1] then [] else [s[|s| - 1]]))
  {
    var n := |s|;
    DedupStep(s, n - 1);
    assert s[..n] == s;
    DedupEnds(s[..n - 1]);
    DedupEnds(s);
  }

  /**
   * The array ptarray_remove_repeated_points returns: an array of fewer than
   * three points is copied; otherwise runs of equal neighbours collapse to
   * their first point, except that a last point is kept when it would
   * otherwise be the only point besides the first.
   */
  function RemoveRepeatedSpec(s: seq<Raw>): seq<Raw>
  {
    if |s| < 3 then s
    else if |Dedup(s)| == 1 then [s[0], s[|s| - 1]]
    else Dedup(s)
  }

  /** The result starts with the first point and ends with (a copy of) the last one. */
  lemma RemoveRepeatedEnds(s: seq<Raw>)
    requires |s| >= 1
    ensures var r := RemoveRepeatedSpec(s);
      |r| >= 1 && r[0] == s[0] && r[|r| - 1] == s[|s| - 1]
      && (|s| >= 2 ==> |r| >= 2) && |r| <= |s|
  {
    DedupEnds(s);
  }

  /** An array without neighbouring repeats comes back unchanged, and only such an array does (from three points on). */
  lemma RemoveRepeatedFixpoint(s: seq<Raw>)
    ensures |s| < 3 ==> RemoveRepeatedSpec(s) == s
    ensures |s| >= 3 ==> (RemoveRepeatedSpec(s) == s <==> NoRepeats(s))
  {
    if |s| >= 3 {
      DedupEnds(s);
      if NoRepeats(s) {
        DedupOfNoRepeats(s);
      } else {
        DedupShorter(s);
      }
    }
  }

  /** Removing repeated points a second time changes nothing. */
  lemma RemoveRepeatedIdempotent(s: seq<Raw>)
    ensures RemoveRepeatedSpec(RemoveRepeatedSpec(s)) == RemoveRepeatedSpec(s)
  {
    if |s| >= 3 {
      DedupEnds(s);
      if |Dedup(s)| != 1 {
        DedupHasNoRepeats(s);
        RemoveRepeatedFixpoint(Dedup(s));
      }
    }
  }

  // ---- bounding boxes ---------------------------------------------------

  /** Ordinate c (0 = x, 1 = y, 2 = z) of a stored point, as getPoint3dz_p reads it. */
  function Ordinate(raw: Raw, c: nat, hasz: bool, hasm: bool): word
    requires |raw| == NDims(hasz, hasm) && c <= 2
  {
    var p := Load(raw, hasz, hasm);
    if c == 0 then p.x else if c == 1 then p.y else p.z
  }

  /** Ordinate c of every point, in order. */
  function Column(s: seq<Raw>, c: nat, hasz: bool, hasm: bool): (col: seq<word>)
    requires c <= 2 && forall i :: 0 <= i < |s| ==> |s[i]| == NDims(hasz, hasm)
    ensures |col| == |s| && forall i :: 0 <= i < |s| ==> col[i] == Ordinate(s[i], c, hasz, hasm)
  {
    seq(|s|, i requires 0 <= i < |s| => Ordinate(s[i], c, hasz, hasm))
  }

  /** v is one of xs and no element of xs is below it in double order. */
  predicate IsLeast(v: word, xs: seq<word>)
  {
    v in xs && forall i :: 0 <= i < |xs| ==> Key(v) <= Key(xs[i])
  }

  /** v is one of xs and no element of xs is above it in double order. */
  predicate IsGreatest(v: word, xs: seq<word>)
  {
    v in xs && forall i :: 0 <= i < |xs| ==> Key(xs[i]) <= Key(v)
  }

  /** The box of the points s: least and greatest x, y, and z when the array has Z (0.0 for z otherwise). */
  predicate IsBox(b: Box3D, s: seq<Raw>, hasz: bool, hasm: bool)
    requires forall i :: 0 <= i < |s| ==> |s[i]| == NDims(hasz, hasm)
  {
    IsLeast(b.xmin, Column(s, 0, hasz, hasm)) && IsGreatest(b.xmax, Column(s, 0, hasz, hasm))
    && IsLeast(b.ymin, Column(s, 1, hasz, hasm)) && IsGreatest(b.ymax, Column(s, 1, hasz, hasm))
    && (hasz ==> IsLeast(b.zmin, Column(s, 2, hasz, hasm)) && IsGreatest(b.zmax, Column(s, 2, hasz, hasm)))
    && (!hasz ==> b.zmin == ZERO && b.zmax == ZERO)
  }

  /** The first point alone is its own box. */
  lemma FirstBox(s: seq<Raw>, hasz: bool, hasm: bool)
    requires 1 <= |s| && forall i :: 0 <= i < |s| ==> |s[i]| == NDims(hasz, hasm)
    ensures var p := Load(s[0], hasz, hasm);
      IsBox(Box3D(p.x, p.x, p.y, p.y, if hasz then p.z else ZERO, if hasz then p.z else ZERO), s[..1], hasz, hasm)
  {
    var p := Load(s[0], hasz, hasm);
    assert Column(s[..1], 0, hasz, hasm) == [p.x];
    assert Column(s[..1], 1, hasz, hasm) == [p.y];
    assert Column(s[..1], 2, hasz, hasm) == [p.z];
  }

  /** One step of a minimum scan: replacing the running minimum when the next value is below it. */
  lemma LeastStep(xs: seq<word>, t: nat, m: word)
    requires t < |xs| && IsLeast(m, xs[..t])
    ensures IsLeast(if DoubleLess(xs[t], m) then xs[t] else m, xs[..t + 1])
  {
    assert xs[..t + 1] == xs[..t] + [xs[t]];
  }

  lemma GreatestStep(xs: seq<word>, t: nat, m: word)
    requires t < |xs| && IsGreatest(m, xs[..t])
    ensures IsGreatest(if DoubleLess(m, xs[t]) then xs[t] else m, xs[..t + 1])
  {
    assert xs[..t + 1] == xs[..t] + [xs[t]];
  }

  lemma ColumnPrefix(s: seq<Raw>, t: nat, c: nat, hasz: bool, hasm: bool)
    requires t <= |s| && c <= 2 && forall i :: 0 <= i < |s| ==> |s[i]| == NDims(hasz, hasm)
    ensures Column(s[..t], c, hasz, hasm) == Column(s, c, hasz, hasm)[..t]
  {
  }

  /** The capacity insert_point leaves: 32 when there was no storage, twice as much when full. */
  function Grown(npoints: nat, maxpoints: nat): nat
  {
    if maxpoints == 0 then 32 else if npoints == maxpoints then 2 * maxpoints else maxpoints
  }

  class PointArray {
    var hasz: bool
    var hasm: bool
    /** The allocated point slots (serialized_pointlist); length 0 stands for no storage. */
    var slots: array<Raw>
    var npoints: nat
    var maxpoints: nat

    ghost predicate Valid()
      reads this, slots
    {
      npoints <= maxpoints && maxpoints == slots.Length
      && forall i :: 0 <= i < npoints ==> |slots[i]| == NDims(hasz, hasm)
    }

    /** The points in order. */
    ghost function Contents(): (s: seq<Raw>)
      reads this, slots
      requires Valid()
      ensures |s| == npoints
      ensures forall i :: 0 <= i < |s| ==> |s[i]| == NDims(hasz, hasm)
    {
      slots[..npoints]
    }

    /** ptarray_construct: room for exactly n points, all n counted (their ordinates are not initialised). */
    constructor Construct(z: bool, m: bool, n: nat)
      ensures Valid() && fresh(slots)
      ensures hasz == z && hasm == m && npoints == n && maxpoints == n
    {
      hasz, hasm := z, m;
      var nd := NDims(z, m);
      slots := new Raw[n](_ => seq(nd, _ => ZERO));
      npoints, maxpoints := n, n;
    }

    /** ptarray_construct_empty: no points, room for max. */
    constructor ConstructEmpty(z: bool, m: bool, max: nat)
      ensures Valid() && fresh(slots)
      ensures hasz == z && hasm == m && npoints == 0 && maxpoints == max && Contents() == []
    {
      hasz, hasm := z, m;
      slots := new Raw[max];
      npoints, maxpoints := 0, max;
    }

    /** The storage step of ptarray_insert_point: 32 slots when there are none, twice as many when full. */
    method Reserve()
      requires Valid()
      modifies this
      ensures Valid() && hasz == old(hasz) && hasm == old(hasm) && npoints == old(npoints)
      ensures Contents() == old(Contents()) && npoints < maxpoints
      ensures maxpoints == Grown(old(npoints), old(maxpoints))
      ensures slots == old(slots) || fresh(slots)
    {
      if maxpoints == 0 {
        maxpoints := 32;
        npoints := 0;
        slots := new Raw[32];
      }
      if npoints == maxpoints {
        var bigger := new Raw[2 * maxpoints];
        forall i | 0 <= i < npoints {
          bigger[i] := slots[i];
        }
        slots := bigger;
        maxpoints := 2 * maxpoints;
      }
    }

    /**
     * ptarray_insert_point. An offset outside [0, npoints] raises an error
     * and changes nothing; otherwise the points from `where` on move up one
     * place and p is stored at `where`. Storage is allocated (32 slots) when
     * there is none and doubled when full.
     */
    method InsertPoint(p: Point4, where: int) returns (ok: bool)
      requires Valid()
      modifies this, slots
      ensures Valid() && hasz == old(hasz) && hasm == old(hasm)
      ensures ok <==> 0 <= where <= old(npoints)
      ensures ok ==> Contents() == Inserted(old(Contents()), where, Store(p, hasz, hasm))
      ensures ok ==> maxpoints == Grown(old(npoints), old(maxpoints))
      ensures !ok ==> Contents() == old(Contents()) && maxpoints == old(maxpoints) && slots == old(slots)
      ensures slots == old(slots) || fresh(slots)
    {
      if where > npoints || where < 0 {
        return false;
      }
      ghost var before := Contents();
      Reserve();
      InsertAt(slots, where, npoints, Store(p, hasz, hasm));
      npoints := npoints + 1;
      InsertedDims(before, where, Store(p, hasz, hasm), NDims(hasz, hasm));
      return true;
    }

    /**
     * ptarray_append_point. When repeated points are not allowed and p
     * equals the last point in every ordinate the array has, nothing
     * changes; otherwise p is inserted after the last point.
     */
    method AppendPoint(p: Point4, repeatedOk: bool) returns (ok: bool)
      requires Valid()
      modifies this, slots
      ensures Valid() && hasz == old(hasz) && hasm == old(hasm) && ok
      ensures var skip := !repeatedOk && old(npoints) > 0
                && SameInDims(p, Load(old(Contents())[old(npoints) - 1], hasz, hasm), hasz, hasm);
        Contents() == (if skip then old(Contents()) else old(Contents()) + [Store(p, hasz, hasm)])
        && maxpoints == (if skip then old(maxpoints) else Grown(old(npoints), old(maxpoints)))
        && (skip ==> slots == old(slots))
      ensures slots == old(slots) || fresh(slots)
    {
      if !repeatedOk && npoints > 0 {
        var last := Load(slots[npoints - 1], hasz, hasm);
        if SameInDims(p, last, hasz, hasm) {
          return true;
        }
      }
      ghost var before := Contents();
      ok := InsertPoint(p, npoints);
      assert Inserted(before, |before|, Store(p, hasz, hasm)) == before + [Store(p, hasz, hasm)];
    }

    /**
     * ptarray_remove_point. An offset outside [0, npoints) raises an error
     * and changes nothing; otherwise the later points move down one place.
     */
    method RemovePoint(where: int) returns (ok: bool)
      requires Valid()
      modifies this, slots
      ensures Valid() && hasz == old(hasz) && hasm == old(hasm)
      ensures slots == old(slots) && maxpoints == old(maxpoints)
      ensures ok <==> 0 <= where < old(npoints)
      ensures Contents() == if ok then Removed(old(Contents()), where) else old(Contents())
    {
      if where >= npoints || where < 0 {
        return false;
      }
      ghost var before := Contents();
      var a := slots;
      var i := where;
      while i < npoints - 1
        modifies a
        invariant where <= i <= npoints - 1 && npoints == |before|
        invariant forall k :: 0 <= k < where ==> a[k] == before[k]
        invariant forall k :: where <= k < i ==> a[k] == before[k + 1]
        invariant forall k :: i <= k < npoints ==> a[k] == before[k]
      {
        a[i] := a[i + 1];
        i := i + 1;
      }
      npoints := npoints - 1;
      assert Contents() == Removed(before, where);
      return true;
    }

    /**
     * ptarray_reverse: swaps point i with point last-i for i up to last/2.
     * With no points it would touch the point before the first, so the
     * array must not be empty.
     */
    method Reverse()
      requires Valid() && npoints >= 1
      modifies slots
      ensures Valid() && Contents() == Reversed(old(Contents()))
    {
      ghost var before := Contents();
      ReverseRange(slots, npoints);
      forall k | 0 <= k < npoints ensures |slots[k]| == NDims(hasz, hasm) {
        assert slots[k] == slots[..npoints][k];
        ReversedAt(before, k);
      }
    }

    /** ptarray_same: the same Z and M flags, the same number of points, and the same ordinates point by point. */
    method Same(other: PointArray) returns (r: bool)
      requires Valid() && other.Valid()
      ensures r <==> hasz == other.hasz && hasm == other.hasm && Contents() == other.Contents()
    {
      if hasz != other.hasz || hasm != other.hasm {
        return false;
      }
      if npoints != other.npoints {
        return false;
      }
      var i := 0;
      while i < npoints
        invariant 0 <= i <= npoints
        invariant forall k :: 0 <= k < i ==> slots[k] == other.slots[k]
      {
        if slots[i] != other.slots[i] {
          return false;
        }
        i := i + 1;
      }
      return true;
    }

    /** The first point's x and y are bit-for-bit the last point's (ptarray_isclosed2d). */
    predicate IsClosed2d()
      reads this, slots
      requires Valid() && npoints >= 1
    {
      slots[0][..2] == slots[npoints - 1][..2]
    }

    /** The first point's x, y and z are bit-for-bit the last point's (ptarray_isclosed3d, for arrays with Z). */
    predicate IsClosed3d()
      reads this, slots
      requires Valid() && npoints >= 1 && hasz
    {
      slots[0][..3] == slots[npoints - 1][..3]
    }

    /**
     * ptarray_addPoint: a new array of npoints+1 points with the first
     * NDims of p's ordinates (missing ones zero) at `where`. Errors when p
     * has fewer than 2 or more than 4 ordinates or `where` is past the end.
     */
    method AddPoint(p: seq<word>, where: nat) returns (r: Result<PointArray>)
      requires Valid()
      ensures r.Ok? <==> 2 <= |p| <= 4 && where <= npoints
      ensures r.Ok? ==> fresh(r.value) && fresh(r.value.slots) && r.value.Valid()
      ensures r.Ok? ==> r.value.hasz == hasz && r.value.hasm == hasm && r.value.maxpoints == npoints + 1
      ensures r.Ok? ==> r.value.Contents() == Inserted(Contents(), where, Padded(p, NDims(hasz, hasm)))
    {
      if |p| < 2 || |p| > 4 {
        return Err("ptarray_addPoint: point dimension out of range");
      }
      if where > npoints {
        return Err("ptarray_addPoint: offset out of range");
      }
      var pbuf := Padded(p, NDims(hasz, hasm));
      var ret := new PointArray.Construct(hasz, hasm, npoints + 1);
      CopyInserted(slots, npoints, where, pbuf, ret.slots);
      InsertedDims(Contents(), where, pbuf, NDims(hasz, hasm));
      return Ok(ret);
    }

    /**
     * ptarray_removePoint: a new array without point `which`. The range
     * check and the refusal to shrink an array of fewer than 3 points are
     * compiled in (PARANOIA_LEVEL > 0).
     */
    method RemovePointCopy(which: nat) returns (r: Result<PointArray>)
      requires Valid()
      ensures r.Ok? <==> which < npoints && npoints >= 3
      ensures r.Ok? ==> fresh(r.value) && fresh(r.value.slots) && r.value.Valid()
      ensures r.Ok? ==> r.value.hasz == hasz && r.value.hasm == hasm
      ensures r.Ok? ==> r.value.Contents() == Removed(Contents(), which)
    {
      if which >= npoints {
        return Err("ptarray_removePoint: offset out of range");
      }
      if npoints < 3 {
        return Err("ptarray_removePoint: can't remove a point from a 2-vertex POINTARRAY");
      }
      var ret := new PointArray.Construct(hasz, hasm, npoints - 1);
      CopyRemoved(slots, npoints, which, ret.slots);
      return Ok(ret);
    }

    /**
     * ptarray_clone as written: the new header copies npoints and maxpoints,
     * but storage is allocated for npoints points only.
     */
    method CloneAsWritten() returns (out: PointArray)
      requires Valid()
      ensures fresh(out) && fresh(out.slots)
      ensures out.hasz == hasz && out.hasm == hasm
      ensures out.npoints == npoints && out.maxpoints == maxpoints && out.slots.Length == npoints
      ensures out.slots[..] == Contents()
      ensures out.Valid() <==> npoints == maxpoints
    {
      out := new PointArray.Construct(hasz, hasm, npoints);
      forall i | 0 <= i < npoints {
        out.slots[i] := slots[i];
      }
      out.maxpoints := maxpoints;
    }

    /** ptarray_clone with the capacity matching the storage it allocates. */
    method Clone() returns (out: PointArray)
      requires Valid()
      ensures fresh(out) && fresh(out.slots) && out.Valid()
      ensures out.hasz == hasz && out.hasm == hasm && out.Contents() == Contents()
    {
      out := new PointArray.Construct(hasz, hasm, npoints);
      forall i | 0 <= i < npoints {
        out.slots[i] := slots[i];
      }
    }

    /**
     * ptarray_remove_repeated_points: a new array following
     * RemoveRepeatedSpec. From 3 points on it keeps room for all the input
     * points; below 3 points it is ptarray_clone as written, so the copy
     * claims the input's capacity over storage for its points only, and is
     * well formed exactly when the input was full.
     */
    method RemoveRepeatedPoints() returns (out: PointArray)
      requires Valid()
      ensures fresh(out) && fresh(out.slots)
      ensures out.hasz == hasz && out.hasm == hasm
      ensures out.npoints <= out.slots.Length && out.slots[..out.npoints] == RemoveRepeatedSpec(Contents())
      ensures out.maxpoints == (if npoints < 3 then maxpoints else npoints)
      ensures out.Valid() <==> npoints >= 3 || npoints == maxpoints
    {
      if npoints < 3 {
        out := CloneAsWritten();
        RemoveRepeatedFixpoint(Contents());
        return;
      }
      out := new PointArray.Construct(hasz, hasm, npoints);
      var opn := CopyWithoutRepeats(slots, npoints, out.slots, NDims(hasz, hasm));
      out.npoints := opn;
    }

    /**
     * ptarray_compute_box3d_p: no box for an empty array; otherwise the
     * least and greatest x, y (and z when the array has Z) over the points,
     * with zmin = zmax = 0.0 when it has none.
     */
    method ComputeBox3d() returns (r: Option<Box3D>)
      requires Valid()
      ensures r.Some? <==> npoints > 0
      ensures r.Some? ==> r.value == BoxOf(Contents(), hasz, hasm) && IsBox(r.value, Contents(), hasz, hasm)
    {
      if npoints == 0 {
        return None;
      }
      ghost var s := Contents();
      var pt := Load(slots[0], hasz, hasm);
      var b := Box3D(pt.x, pt.x, pt.y, pt.y, if hasz then pt.z else ZERO, if hasz then pt.z else ZERO);
      assert b == BoxOf(s[..1], hasz, hasm);
      var t := 1;
      while t < npoints
        invariant 1 <= t <= npoints
        invariant b == BoxOf(s[..t], hasz, hasm)
      {
        pt := Load(slots[t], hasz, hasm);
        BoxOfStep(s, t, hasz, hasm);
        b := Extend(b, pt, hasz);
        t := t + 1;
      }
      assert s[..npoints] == s;
      BoxOfIsBox(s, hasz, hasm);
      return Some(b);
    }
  }

  /**
   * ptarray_merge: a new array holding the points of pa1 followed by those
   * of pa2, exactly full. Arrays with different Z/M flags are an error.
   */
  method Merge(pa1: PointArray, pa2: PointArray) returns (r: Result<PointArray>)
    requires pa1.Valid() && pa2.Valid()
    ensures r.Ok? <==> pa1.hasz == pa2.hasz && pa1.hasm == pa2.hasm
    ensures r.Ok? ==> fresh(r.value) && fresh(r.value.slots) && r.value.Valid()
    ensures r.Ok? ==> r.value.hasz == pa1.hasz && r.value.hasm == pa1.hasm
    ensures r.Ok? ==> r.value.maxpoints == pa1.npoints + pa2.npoints
    ensures r.Ok? ==> r.value.Contents() == pa1.Contents() + pa2.Contents()
  {
    if pa1.hasz != pa2.hasz || pa1.hasm != pa2.hasm {
      return Err("ptarray_cat: Mixed dimension");
    }
    var n1 := pa1.npoints;
    var pa := new PointArray.Construct(pa1.hasz, pa1.hasm, n1 + pa2.npoints);
    CopyConcat(pa1.slots, n1, pa2.slots, pa2.npoints, pa.slots);
    ConcatDims(pa1.Contents(), pa2.Contents(), NDims(pa1.hasz, pa1.hasm));
    return Ok(pa);
  }

  /** The scan of ptarray_remove_repeated_points over n >= 3 points of src, writing the kept points to dst. */
  method CopyWithoutRepeats(src: array<Raw>, n: nat, dst: array<Raw>, nd: nat) returns (opn: nat)
    requires src != dst && 3 <= n <= src.Length && n <= dst.Length
    requires forall k :: 0 <= k < n ==> |src[k]| == nd
    requires forall k :: 0 <= k < n ==> |dst[k]| == nd
    modifies dst
    ensures opn <= n && dst[..opn] == RemoveRepeatedSpec(src[..n])
    ensures forall k :: 0 <= k < n ==> |dst[k]| == nd
  {
    ghost var s := src[..n];
    opn := 1;
    dst[0] := src[0];
    var ipn := 1;
    assert s[..1] == [s[0]];
    while ipn < n
      invariant 1 <= ipn <= n && 1 <= opn <= ipn && s == src[..n]
      invariant forall k :: 0 <= k < n ==> |dst[k]| == nd
      invariant ipn < n ==> dst[..opn] == Dedup(s[..ipn])
      invariant ipn == n ==> dst[..opn] == RemoveRepeatedSpec(s)
    {
      ghost var out0 := dst[..opn];
      var keep := (ipn == n - 1 && opn == 1) || src[ipn - 1] != src[ipn];
      if keep {
        dst[opn] := src[ipn];
        opn := opn + 1;
        assert dst[..opn] == out0 + [s[ipn]];
      }
      ScanStep(s, ipn, out0, keep, dst[..opn]);
      ipn := ipn + 1;
    }
  }

  /** One point of the scan: point ipn is kept when it differs from the one before, or when it is the last and only the first was kept. */
  lemma ScanStep(s: seq<Raw>, ipn: nat, out0: seq<Raw>, keep: bool, out: seq<Raw>)
    requires 3 <= |s| && 1 <= ipn < |s| && out0 == Dedup(s[..ipn])
    requires keep == ((ipn == |s| - 1 && |out0| == 1) || s[ipn - 1] != s[ipn])
    requires out == out0 + (if keep then [s[ipn]] else [])
    ensures 1 <= |out| <= ipn + 1
    ensures ipn + 1 < |s| ==> out == Dedup(s[..ipn + 1])
    ensures ipn + 1 == |s| ==> out == RemoveRepeatedSpec(s)
  {
    DedupStep(s, ipn);
    if ipn == |s| - 1 {
      DedupLast(s);
    }
  }

  /** The shift and store of ptarray_insert_point: x goes in at where, the points from there on move up one slot. */
  method InsertAt(a: array<Raw>, where: nat, n: nat, x: Raw)
    requires where <= n < a.Length
    modifies a
    ensures a[..n + 1] == Inserted(old(a[..n]), where, x)
  {
    ShiftUp(a, where, n);
    a[where] := x;
  }

  /** The copies of ptarray_addPoint: the points before where, x, then the rest, into a new array. */
  method CopyInserted(src: array<Raw>, n: nat, where: nat, x: Raw, dst: array<Raw>)
    requires src != dst && where <= n <= src.Length && dst.Length == n + 1
    modifies dst
    ensures dst[..] == Inserted(src[..n], where, x)
  {
    forall i | 0 <= i < where {
      dst[i] := src[i];
    }
    dst[where] := x;
    forall i | where < i < n + 1 {
      dst[i] := src[i - 1];
    }
  }

  /** The copies of ptarray_removePoint: the points before which, then those after it, into a new array. */
  method CopyRemoved(src: array<Raw>, n: nat, which: nat, dst: array<Raw>)
    requires src != dst && which < n <= src.Length && dst.Length == n - 1
    modifies dst
    ensures dst[..] == Removed(src[..n], which)
  {
    forall i | 0 <= i < which {
      dst[i] := src[i];
    }
    forall i | which <= i < n - 1 {
      dst[i] := src[i + 1];
    }
  }

  /** The swap loop of ptarray_reverse: the first n slots in reverse order, the rest untouched. */
  method ReverseRange(a: array<Raw>, n: nat)
    requires 1 <= n <= a.Length
    modifies a
    ensures a[..n] == Reversed(old(a[..n]))
    ensures a[n..] == old(a[n..])
  {
    ghost var before := a[..n];
    var last := n - 1;
    var mid := last / 2;
    var i := 0;
    while i <= mid
      invariant 0 <= i <= mid + 1
      invariant forall k :: 0 <= k < i ==> a[k] == before[last - k] && a[last - k] == before[k]
      invariant forall k :: i <= k <= last - i ==> a[k] == before[k]
      invariant a[n..] == old(a[n..])
    {
      var tmp := a[last - i];
      a[last - i] := a[i];
      a[i] := tmp;
      i := i + 1;
    }
    forall k | 0 <= k < n ensures a[k] == before[last - k] {
      if i <= k <= last - i {
      } else if k > last - i {
        assert a[last - (last - k)] == before[last - k];
      }
    }
    forall k | 0 <= k < n ensures a[..n][k] == Reversed(before)[k] {
      ReversedAt(before, k);
    }
  }

  /** The copies of ptarray_merge: the first array's points, then the second's, into a new array. */
  method CopyConcat(src1: array<Raw>, n1: nat, src2: array<Raw>, n2: nat, dst: array<Raw>)
    requires dst != src1 && dst != src2 && n1 <= src1.Length && n2 <= src2.Length && dst.Length == n1 + n2
    modifies dst
    ensures dst[..] == src1[..n1] + src2[..n2]
  {
    forall i | 0 <= i < n1 {
      dst[i] := src1[i];
    }
    forall i | n1 <= i < n1 + n2 {
      dst[i] := src2[i - n1];
    }
  }

  /** Points of nd ordinates followed by points of nd ordinates. */
  lemma ConcatDims(s1: seq<Raw>, s2: seq<Raw>, nd: nat)
    requires forall i :: 0 <= i < |s1| ==> |s1[i]| == nd
    requires forall i :: 0 <= i < |s2| ==> |s2[i]| == nd
    ensures forall i :: 0 <= i < |s1 + s2| ==> |(s1 + s2)[i]| == nd
  {
  }

  /** Inserting a point of nd ordinates among points of nd ordinates keeps every point at nd. */
  lemma InsertedDims(s: seq<Raw>, where: nat, x: Raw, nd: nat)
    requires where <= |s| && |x| == nd && forall i :: 0 <= i < |s| ==> |s[i]| == nd
    ensures forall i :: 0 <= i < |s| + 1 ==> |Inserted(s, where, x)[i]| == nd
  {
  }

  /** The memmove of ptarray_insert_point: the points in [where, n) move up one slot. */
  method ShiftUp(a: array<Raw>, where: nat, n: nat)
    requires where <= n < a.Length
    modifies a
    ensures forall k :: 0 <= k <= where ==> a[k] == old(a[k])
    ensures forall k :: where < k <= n ==> a[k] == old(a[k - 1])
    ensures forall k :: n < k < a.Length ==> a[k] == old(a[k])
  {
    var i := n;
    while i > where
      invariant where <= i <= n
      invariant forall k :: 0 <= k <= i ==> a[k] == old(a[k])
      invariant forall k :: i < k <= n ==> a[k] == old(a[k - 1])
      invariant forall k :: n < k < a.Length ==> a[k] == old(a[k])
    {
      a[i] := a[i - 1];
      i := i - 1;
    }
  }

  /** The box after one more point: each bound moves out to the point's ordinate when it lies beyond. */
  function Extend(b: Box3D, p: Point4, hasz: bool): Box3D
  {
    Box3D(
      if DoubleLess(p.x, b.xmin) then p.x else b.xmin,
      if DoubleLess(b.xmax, p.x) then p.x else b.xmax,
      if DoubleLess(p.y, b.ymin) then p.y else b.ymin,
      if DoubleLess(b.ymax, p.y) then p.y else b.ymax,
      if hasz && DoubleLess(p.z, b.zmin) then p.z else b.zmin,
      if hasz && DoubleLess(b.zmax, p.z) then p.z else b.zmax)
  }

  /** Extending the box of the first t points by point t gives the box of the first t+1. */
  lemma ExtendStep(b: Box3D, s: seq<Raw>, t: nat, hasz: bool, hasm: bool)
    requires 1 <= t < |s| && forall i :: 0 <= i < |s| ==> |s[i]| == NDims(hasz, hasm)
    requires IsBox(b, s[..t], hasz, hasm)
    ensures IsBox(Extend(b, Load(s[t], hasz, hasm), hasz), s[..t + 1], hasz, hasm)
  {
    ColumnStep(s, t, 0, hasz, hasm, b.xmin, b.xmax);
    ColumnStep(s, t, 1, hasz, hasm, b.ymin, b.ymax);
    if hasz {
      ColumnStep(s, t, 2, hasz, hasm, b.zmin, b.zmax);
    }
  }

  /** One column of the box scan: the bounds of the first t ordinates, moved out by ordinate t. */
  lemma ColumnStep(s: seq<Raw>, t: nat, c: nat, hasz: bool, hasm: bool, lo: word, hi: word)
    requires t < |s| && c <= 2 && forall i :: 0 <= i < |s| ==> |s[i]| == NDims(hasz, hasm)
    requires IsLeast(lo, Column(s[..t], c, hasz, hasm)) && IsGreatest(hi, Column(s[..t], c, hasz, hasm))
    ensures var v := Ordinate(s[t], c, hasz, hasm);
      IsLeast(if DoubleLess(v, lo) then v else lo, Column(s[..t + 1], c, hasz, hasm))
      && IsGreatest(if DoubleLess(hi, v) then v else hi, Column(s[..t + 1], c, hasz, hasm))
  {
    var xs := Column(s, c, hasz, hasm);
    ColumnPrefix(s, t, c, hasz, hasm);
    ColumnPrefix(s, t + 1, c, hasz, hasm);
    LeastStep(xs, t, lo);
    GreatestStep(xs, t, hi);
  }

  /** The box ptarray_compute_box3d_p scans out of the points, point by point. */
  function BoxOf(s: seq<Raw>, hasz: bool, hasm: bool): Box3D
    requires 1 <= |s| && forall i :: 0 <= i < |s| ==> |s[i]| == NDims(hasz, hasm)
  {
    if |s| == 1 then
      var p := Load(s[0], hasz, hasm);
      Box3D(p.x, p.x, p.y, p.y, if hasz then p.z else ZERO, if hasz then p.z else ZERO)
    else Extend(BoxOf(s[..|s| - 1], hasz, hasm), Load(s[|s| - 1], hasz, hasm), hasz)
  }

  lemma BoxOfStep(s: seq<Raw>, t: nat, hasz: bool, hasm: bool)
    requires 1 <= t < |s| && forall i :: 0 <= i < |s| ==> |s[i]| == NDims(hasz, hasm)
    ensures BoxOf(s[..t + 1], hasz, hasm) == Extend(BoxOf(s[..t], hasz, hasm), Load(s[t], hasz, hasm), hasz)
  {
    assert s[..t + 1][..t] == s[..t];
  }

  /** The scanned box holds the least and greatest of each ordinate. */
  lemma {:induction false} BoxOfIsBox(s: seq<Raw>, hasz: bool, hasm: bool)
    requires 1 <= |s| && forall i :: 0 <= i < |s| ==> |s[i]| == NDims(hasz, hasm)
    ensures IsBox(BoxOf(s, hasz, hasm), s, hasz, hasm)
    decreases |s|
  {
    if |s| == 1 {
      FirstBox(s, hasz, hasm);
      assert s[..1] == s;
    } else {
      var t := |s| - 1;
      BoxOfIsBox(s[..t], hasz, hasm);
      ExtendStep(BoxOf(s[..t], hasz, hasm), s, t, hasz, hasm);
      assert s[..t + 1] == s;
    }
  }

  /** The ordinates of p, padded with 0.0 to four and cut to n (the POINT4D buffer of ptarray_addPoint). */
  function Padded(p: seq<word>, n: nat): (r: Raw)
    requires |p| <= 4 && n <= 4
    ensures |r| == n
    ensures forall i :: 0 <= i < n ==> r[i] == (if i < |p| then p[i] else ZERO)
  {
    (p + seq(4 - |p|, _ => ZERO))[..n]
  }
}
