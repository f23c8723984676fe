/** The tiny time-to-live cache of the remote-lookup module: a dictionary from
    (operation name, argument tuple) to (time stored, value), read with lazy eviction.
    The clock is an explicit count of whole seconds. */
module TtlCache {
  import opened Wrappers

  /** `CACHE_TTL`: six hours, in seconds. */
  const CacheTtl: int := 60 * 60 * 6

  /** An argument of a cached operation: the lookups are keyed by strings and, for the
      ProZ lookup, by the result limit. */
  datatype Arg = StrArg(s: string) | IntArg(n: int)

  /** `_akey(name, *parts)`: the operation's name and its argument tuple. */
  datatype Key = Key(name: string, parts: seq<Arg>)

  /** What the lookups store: `None`, a title, a list of translations, or the
      `{"en_title", "pl_title", "pl_url"}` record of a Polish article. */
  datatype Value =
    | NoneValue
    | StrValue(s: string)
    | ListValue(items: seq<string>)
    | PolishArticle(enTitle: string, plTitle: string, plUrl: string)

  /** The cache dictionary: each key holds the time it was stored and the value. */
  type Store = map<Key, (int, Value)>

  /** `_akey`: the key of an operation applied to its arguments. */
  function AKey(name: string, parts: seq<Arg>): Key {
    Key(name, parts)
  }

  /** Two calls share a cache slot exactly when they name the same operation with the
      same arguments. */
  lemma AKeyInjective(n1: string, p1: seq<Arg>, n2: string, p2: seq<Arg>)
    ensures AKey(n1, p1) == AKey(n2, p2) <==> n1 == n2 && p1 == p2
  {
  }

  /** An entry stored at `ts` has expired at `now` when more than `CacheTtl` seconds have
      passed. */
  predicate Expired(ts: int, now: int) {
    now - ts > CacheTtl
  }

  /** `_cache_get` at time `now`: the value read and the cache afterwards. A missing key
      reads as `None`; an expired key reads as `None` and is removed. */
  function Get(store: Store, k: Key, now: int): (Value, Store) {
    if k !in store then (NoneValue, store)
    else if Expired(store[k].0, now) then (NoneValue, store - {k})
    else (store[k].1, store)
  }

  /** `_cache_set` with the clock reading `written`. */
  function Set(store: Store, k: Key, written: int, v: Value): Store {
    store[k := (written, v)]
  }

  /** The caching discipline of every lookup: read the key; a read that is not `None` is
      the answer; otherwise the freshly computed value is stored and returned. The clock is
      read twice: at `now` by the read, and at `written` by the write, after the requests
      that computed the value. */
  function Memo(store: Store, k: Key, now: int, written: int, computed: Value): (Value, Store) {
    var (cached, store') := Get(store, k, now);
    if cached != NoneValue then (cached, store') else (computed, Set(store', k, written, computed))
  }

  /** A read within `CacheTtl` of a write returns exactly the value written, and changes
      nothing. */
  lemma GetAfterSet(store: Store, k: Key, t: int, v: Value, now: int)
    requires now - t <= CacheTtl
    ensures Get(Set(store, k, t, v), k, now) == (v, Set(store, k, t, v))
  {
  }

  /** A key never written reads as `None` and changes nothing. */
  lemma GetMissing(store: Store, k: Key, now: int)
    requires k !in store
    ensures Get(store, k, now) == (NoneValue, store)
  {
  }

  /** Writing one key leaves every other key as it was. */
  lemma SetOthersUnchanged(store: Store, k: Key, t: int, v: Value, other: Key)
    requires other != k
    ensures other in Set(store, k, t, v) <==> other in store
    ensures other in store ==> Set(store, k, t, v)[other] == store[other]
    ensures Get(Set(store, k, t, v), other, t).0 == Get(store, other, t).0
  {
  }

  /** A read after more than `CacheTtl` returns `None` and removes that key only. */
  lemma GetExpired(store: Store, k: Key, now: int)
    requires k in store && now - store[k].0 > CacheTtl
    ensures Get(store, k, now).0 == NoneValue
    ensures k !in Get(store, k, now).1
    ensures forall other :: other != k ==>
      (other in Get(store, k, now).1 <==> other in store) &&
      (other in store ==> Get(store, k, now).1[other] == store[other])
  {
  }

  /** Any read leaves every other key as it was, and never adds a key. */
  lemma GetOthersUnchanged(store: Store, k: Key, now: int, other: Key)
    requires other != k
    ensures other in Get(store, k, now).1 <==> other in store
    ensures other in store ==> Get(store, k, now).1[other] == store[other]
    ensures Get(store, k, now).1.Keys <= store.Keys
  {
  }

  /** A cached `None` counts as a miss: the lookup is computed again and the new value is
      stored. */
  lemma MemoCachedNone(store: Store, k: Key, now: int, written: int, computed: Value)
    requires k in store && store[k].1 == NoneValue
    ensures Memo(store, k, now, written, computed) == (computed, store[k := (written, computed)])
  {
    if Expired(store[k].0, now) {
      assert (store - {k})[k := (written, computed)] == store[k := (written, computed)];
    }
  }

  /** A cached empty list is a hit: it is returned and nothing is recomputed or written. */
  lemma MemoCachedEmptyList(store: Store, k: Key, now: int, written: int, computed: Value)
    requires k in store && store[k].1 == ListValue([]) && !Expired(store[k].0, now)
    ensures Memo(store, k, now, written, computed) == (ListValue([]), store)
  {
  }

  /** Repeating a lookup, with its read at the moment of the first read, gives the same
      answer without recomputing or writing, unless the answer was `None`; the first write,
      if any, must not be stamped more than `CacheTtl` before that moment. */
  lemma MemoRepeat(store: Store, k: Key, now: int, written1: int, computed1: Value, written2: int, computed2: Value)
    requires now - written1 <= CacheTtl
    requires Memo(store, k, now, written1, computed1).0 != NoneValue
    ensures Memo(Memo(store, k, now, written1, computed1).1, k, now, written2, computed2)
         == Memo(store, k, now, written1, computed1)
  {
  }

  /** A cache miss is computed and stored: the corrected write leaves the new value in the
      cache, stamped with the time of the write, and any read within `CacheTtl` of that
      write finds it. */
  lemma MemoMissStores(store: Store, k: Key, now: int, written: int, computed: Value, later: int)
    requires Get(store, k, now).0 == NoneValue
    requires later - written <= CacheTtl
    ensures Memo(store, k, now, written, computed).0 == computed
    ensures var store' := Memo(store, k, now, written, computed).1;
      k in store' && store'[k] == (written, computed) && Get(store', k, later) == (computed, store')
  {
  }

  // ---------------- `_cache_set` as its callers invoke it ----------------

  /** The outcome of a lookup as the module is written: a value and the cache after it, or
      an exception that leaves the cache as it then is. */
  datatype Outcome = Returned(value: Value, store: Store) | Raised(store: Store)

  /** The call `_cache_set(*key, value=v)` against `def _cache_set(name, value, *parts)`.
      The items of `key` fill `name`, then `value`, then `*parts`; when `key` has more than
      the name, `value` is filled positionally and again by keyword, and Python raises
      `TypeError` before the body runs. `None` is that exception. */
  function CacheSetAsWritten(store: Store, k: Key, written: int, v: Value): (r: Option<Store>)
    ensures r == None <==> k.parts != []
    ensures r != None ==> r.value == Set(store, k, written, v)
  {
    var positional := 1 + |k.parts|;
    if positional >= 2 then None else Some(Set(store, k, written, v))
  }

  /** `_cache_set(*key, value=v)` followed by `return v`, as written. */
  function SetAndReturnAsWritten(store: Store, k: Key, written: int, v: Value): Outcome {
    match CacheSetAsWritten(store, k, written, v)
    case None => Raised(store)
    case Some(store') => Returned(v, store')
  }

  /** The caching discipline as written: read the key, return a hit, and otherwise store
      and return the computed value. */
  function MemoAsWritten(store: Store, k: Key, now: int, written: int, computed: Value): Outcome {
    var (cached, store') := Get(store, k, now);
    if cached != NoneValue then Returned(cached, store') else SetAndReturnAsWritten(store', k, written, computed)
  }

  /** As written, every write of a lookup raises, for every lookup is keyed by at least
      one argument. */
  lemma CacheSetAsWrittenRaises(store: Store, k: Key, written: int, v: Value)
    requires k.parts != []
    ensures CacheSetAsWritten(store, k, written, v) == None
    ensures SetAndReturnAsWritten(store, k, written, v) == Raised(store)
  {
  }

  /** As written, a lookup that misses raises and a hit is answered as the corrected
      lookup answers it; either way nothing is ever added to the cache, so an empty cache
      stays empty and every lookup on it raises. */
  lemma MemoAsWrittenNeverStores(store: Store, k: Key, now: int, written: int, computed: Value)
    requires k.parts != []
    ensures var o := MemoAsWritten(store, k, now, written, computed);
      && (o.Raised? <==> Get(store, k, now).0 == NoneValue)
      && o.store == Get(store, k, now).1
      && o.store.Keys <= store.Keys
      && (o.Returned? ==> (o.value, o.store) == Memo(store, k, now, written, computed))
      && (store == map[] ==> o == Raised(map[]))
  {
  }

  /** `resolve_en_title("lymphoma")` on an empty cache, whatever the search finds: as
      written it raises `TypeError` and caches nothing; corrected, it returns the title
      and caches it. */
  lemma CacheSetTypeErrorExample()
    ensures var k, v := AKey("resolve_en_title", [StrArg("lymphoma")]), StrValue("Lymphoma");
      && MemoAsWritten(map[], k, 0, 1, v) == Raised(map[])
      && Memo(map[], k, 0, 1, v) == (v, map[k := (1, v)])
  {
  }

  /** The module-level `_cache` dictionary. */
  class Cache {
    var store: Store

    constructor()
      ensures store == map[]
    {
      store := map[];
    }

    /** `_cache_get(name, *parts)` at time `now`. */
    method CacheGet(name: string, parts: seq<Arg>, now: int) returns (v: Value)
      modifies this
      ensures (v, store) == Get(old(store), AKey(name, parts), now)
    {
      var k := AKey(name, parts);
      if k !in store {
        return NoneValue;
      }
      var (ts, data) := store[k];
      if now - ts > CacheTtl {
        store := store - {k};
        return NoneValue;
      }
      return data;
    }

    /** `_cache_set` with the clock reading `written`, binding its arguments as every caller means them,
        `_cache_set(name, *parts, value)`: the key is the name and the parts, and the
        value is the one passed by keyword. */
    method CacheSet(name: string, value: Value, parts: seq<Arg>, written: int)
      modifies this
      ensures store == Set(old(store), AKey(name, parts), written, value)
    {
      store := store[AKey(name, parts) := (written, value)];
    }
  }
}
