/**
 * The prepared-geometry cache of lwgeom/lwgeom_geos_c.c: the predicates
 * containsPrepared, containsProperlyPrepared, coversPrepared and
 * intersectsPrepared keep one PREPARED_GEOM_CACHE per call site, keyed by
 * a surrogate key for their first argument. A geometry is prepared only
 * on the second consecutive call with the same key, and any other key
 * drops what was prepared.
 *
 * GEOSPrepare(POSTGIS2GEOS(g)) is a foreign call; the model records the
 * serialized geometry it was prepared from in its place.
 */
module PrepCache {
  import opened Wrappers
  import opened Bytes
  import opened LwTypes
  import opened PgLwgeom

  /** What a cache holds: the key, and the prepared geometry if there is one. */
  datatype CacheState = CacheState(key: int, prepared: Option<seq<byte>>)

  /**
   * One call of get_prepared_geometry_cache on the cache as it was before
   * (None when fn_extra was still NULL), for the geometry g under `key`.
   */
  function Step(cache: Option<CacheState>, g: seq<byte>, key: int): (r: CacheState)
    ensures r.key == key
    ensures r.prepared.Some? ==> cache.Some? && cache.value.key == key
    ensures r.prepared.Some? ==> r.prepared == Some(g) || r.prepared == cache.value.prepared
  {
    if cache.None? then CacheState(key, None)
    else if cache.value.key == key then
      if cache.value.prepared.None? then CacheState(key, Some(g)) else cache.value
    else CacheState(key, None)
  }

  /** The cache after a run of calls, each a geometry and its key, from an absent cache. */
  function Run(calls: seq<(seq<byte>, int)>): (r: Option<CacheState>)
    ensures r.None? <==> calls == []
    ensures r.Some? ==> r.value.key == calls[|calls| - 1].1
  {
    if calls == [] then None
    else Some(Step(Run(calls[..|calls| - 1]), calls[|calls| - 1].0, calls[|calls| - 1].1))
  }

  /**
   * Whatever the cache holds prepared was prepared from a geometry passed
   * under the current key, by a call after which every call used that key.
   */
  lemma {:induction false} PreparedUnderKey(calls: seq<(seq<byte>, int)>)
    requires Run(calls).Some? && Run(calls).value.prepared.Some?
    ensures exists i :: 0 <= i < |calls| && calls[i].0 == Run(calls).value.prepared.value &&
                        forall j :: i <= j < |calls| ==> calls[j].1 == Run(calls).value.key
  {
    var n := |calls|;
    var before := calls[..n - 1];
    var c := Run(calls).value;
    assert Run(calls) == Some(Step(Run(before), calls[n - 1].0, calls[n - 1].1));
    if c.prepared == Some(calls[n - 1].0) {
      assert calls[n - 1].0 == c.prepared.value;
    } else {
      PreparedUnderKey(before);
      var i :| 0 <= i < |before| && before[i].0 == Run(before).value.prepared.value
        && forall j :: i <= j < |before| ==> before[j].1 == Run(before).value.key;
      assert calls[i].0 == c.prepared.value;
      assert forall j :: i <= j < n ==> calls[j].1 == c.key by {
        forall j | i <= j < n
          ensures calls[j].1 == c.key
        {
          if j < n - 1 {
            assert before[j] == calls[j];
          }
        }
      }
    }
  }

  /** Two consecutive calls with the same key leave a prepared geometry, whatever came before. */
  lemma SecondCallPrepares(cache: Option<CacheState>, g1: seq<byte>, g2: seq<byte>, key: int)
    ensures Step(Some(Step(cache, g1, key)), g2, key).prepared.Some?
  {
  }

  /** A call with another key always drops the prepared geometry. */
  lemma NewKeyClears(cache: CacheState, g: seq<byte>, key: int)
    requires cache.key != key
    ensures Step(Some(cache), g, key) == CacheState(key, None)
  {
  }

  /** Once prepared, repeated calls under the same key keep the same prepared geometry. */
  lemma {:induction false} PreparedKept(calls: seq<(seq<byte>, int)>, more: seq<(seq<byte>, int)>)
    requires Run(calls).Some? && Run(calls).value.prepared.Some?
    requires forall j :: 0 <= j < |more| ==> more[j].1 == Run(calls).value.key
    ensures Run(calls + more) == Run(calls)
    decreases |more|
  {
    if more != [] {
      var m := |more|;
      PreparedKept(calls, more[..m - 1]);
      assert (calls + more)[..|calls + more| - 1] == calls + more[..m - 1];
      assert (calls + more)[|calls + more| - 1] == more[m - 1];
    } else {
      assert calls + more == calls;
    }
  }

  /** The cache record kept in fn_extra. */
  class PreparedGeomCache {
    var key: int
    var prepared: Option<seq<byte>>

    constructor (key: int)
      ensures this.key == key && prepared == None
    {
      this.key := key;
      prepared := None;
    }

    function State(): CacheState
      reads this
    {
      CacheState(key, prepared)
    }
  }

  /**
   * get_prepared_geometry_cache: creates the cache when there is none,
   * prepares the geometry when the key repeats and nothing is prepared,
   * and otherwise takes the new key and drops what was prepared.
   */
  method GetPreparedGeometryCache(cache: PreparedGeomCache?, serialized: seq<byte>, key: int)
    returns (c: PreparedGeomCache)
    modifies cache
    ensures cache == null ==> fresh(c)
    ensures cache != null ==> c == cache
    ensures c.State() == Step(if cache == null then None else Some(old(cache.State())), serialized, key)
  {
    if cache == null {
      c := new PreparedGeomCache(key);
    } else if cache.key == key {
      c := cache;
      if cache.prepared.None? {
        cache.prepared := Some(serialized);
      }
    } else {
      c := cache;
      cache.prepared := None;
      cache.key := key;
    }
  }

  const RELATE_COLLECTION := "Relate Operation called with a LWGEOMCOLLECTION type.  This is unsupported"

  /**
   * errorIfGeometryCollection: the relate operations refuse a
   * GEOMETRYCOLLECTION in either argument.
   */
  function CheckNotCollection(g1: PgGeom, g2: PgGeom): (r: Result<()>)
    ensures r.Err? <==> TypeOf(g1.typ) == COLLECTIONTYPE || TypeOf(g2.typ) == COLLECTIONTYPE
    ensures r.Err? ==> r.msg == RELATE_COLLECTION
  {
    if TypeOf(g1.typ) == COLLECTIONTYPE || TypeOf(g2.typ) == COLLECTIONTYPE then Err(RELATE_COLLECTION)
    else Ok(())
  }
}
