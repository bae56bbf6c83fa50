/** The cache of sent requests and their results (network/request_cache.go). */
module RequestCache {
  import opened Wrappers

  datatype Error = NotFound | RequestFailed | Transport

  // A result, an error, or both: a get that found nothing is stored with its response.
  datatype CachedResult<+T> = CachedResult(res: Option<T>, err: Option<Error>)

  class RequestCache<T> {
    var cache: map<string, CachedResult<T>>

    constructor ()
      ensures cache == map[]
    {
      cache := map[];
    }

    method Add(identifier: string, res: Option<T>, err: Option<Error>)
      modifies this
      ensures cache == old(cache)[identifier := CachedResult(res, err)]
    {
      cache := cache[identifier := CachedResult(res, err)];
    }

    method Get(identifier: string) returns (entry: Option<CachedResult<T>>)
      ensures entry == if identifier in cache then Some(cache[identifier]) else None
    {
      entry := if identifier in cache then Some(cache[identifier]) else None;
    }

    // Exactly the entries without an error.
    method GetSuccessfulRequests() returns (m: map<string, CachedResult<T>>)
      ensures forall k :: k in m <==> k in cache && cache[k].err.None?
      ensures forall k :: k in m ==> m[k] == cache[k]
    {
      m := map[];
      var keys := cache.Keys;
      while keys != {}
        invariant keys <= cache.Keys
        invariant forall k :: k in m <==> k in cache && k !in keys && cache[k].err.None?
        invariant forall k :: k in m ==> m[k] == cache[k]
        decreases |keys|
      {
        var k :| k in keys;
        keys := keys - {k};
        if cache[k].err.None? {
          m := m[k := cache[k]];
        }
      }
    }
  }
}
