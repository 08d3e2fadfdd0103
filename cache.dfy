/**
 * `get_or_cache_data`: a session dictionary caching one value per key,
 * guarded by a dependency fingerprint stored under `key + "__deps"`.
 * The loader the core passes is always a Drive download, so the loader is
 * modelled as `Drive.GetFileContent(fileId)`.
 */
module Cache {
  import opened Values
  import opened Text
  import opened Remote

  /** `f"{key}__deps"` */
  function DepKey(key: string): (k: string)
    ensures EndsWith(k, "__deps") && |k| == |key| + 6 && k[..|key|] == key
  {
    key + "__deps"
  }

  /** The stored value is served: both keys are present and the stored fingerprint equals `deps`. */
  predicate Hit(store: map<string, Value>, key: string, deps: Value)
  {
    key in store && DepKey(key) in store && store[DepKey(key)] == deps
  }

  /** The session after a miss: `session[key] = data; session[dep_key] = dependencies`. */
  function Record(store: map<string, Value>, key: string, data: Value, deps: Value): (r: map<string, Value>)
    ensures r.Keys == store.Keys + {key, DepKey(key)}
    ensures Hit(r, key, deps) && r[key] == data
    ensures forall k :: k in store && k != key && k != DepKey(key) ==> r[k] == store[k]
  {
    store[key := data][DepKey(key) := deps]
  }

  /** The per-session store (`st.session_state`). */
  class Session {
    var store: map<string, Value>

    constructor ()
      ensures store == map[]
    {
      store := map[];
    }

    /**
     * `get_or_cache_data(key, lambda: get_file_content(fileId), deps)`: on a
     * hit the stored value is returned and nothing is downloaded; on a miss
     * the file is downloaded once and recorded with `deps`.
     */
    method GetOrCache(key: string, fileId: string, deps: Value, drive: Drive) returns (data: Value)
      modifies this, drive
      ensures old(Hit(store, key, deps)) ==>
        data == old(store[key]) && store == old(store) && drive.downloads == old(drive.downloads)
      ensures !old(Hit(store, key, deps)) ==>
        && data == Str(drive.content(fileId))
        && store == Record(old(store), key, data, deps)
        && drive.downloads == old(drive.downloads) + [fileId]
    {
      if key in store && DepKey(key) in store {
        if store[DepKey(key)] == deps {
          return store[key];
        }
      }
      var text := drive.GetFileContent(fileId);
      data := Str(text);
      store := store[key := data];
      store := store[DepKey(key) := deps];
    }
  }

  /**
   * Recording one key leaves every lookup of another key as it was, as long
   * as neither key ends in `__deps` (otherwise one key's data could sit where
   * the other keeps its fingerprint).
   */
  lemma RecordKeepsOtherHits(store: map<string, Value>, key: string, data: Value, deps: Value,
                             other: string, otherDeps: Value)
    requires other != key && !EndsWith(key, "__deps") && !EndsWith(other, "__deps")
    ensures Hit(Record(store, key, data, deps), other, otherDeps) == Hit(store, other, otherDeps)
    ensures other in store ==> Record(store, key, data, deps)[other] == store[other]
  {
  }

  /**
   * Without the `__deps` restriction keys can collide: storing data under
   * `DepKey(key)` overwrites the fingerprint of `key`, so `key` misses.
   */
  lemma DepsSuffixCollides(store: map<string, Value>, key: string, deps: Value, data: Value, otherDeps: Value)
    requires data != deps
    ensures !Hit(Record(store, DepKey(key), data, otherDeps), key, deps)
  {
  }
}
