/**
 * The object cache: a raw store of JSON strings (`ObjectCache`, here with
 * the in-memory backend's behaviour: an entry stays until removed) and the
 * typed layer every backend gets for free (`TypedObjectCache`), which
 * serialises on the way in and deserialises on the way out. JSON itself is a
 * pair of parameters: `serialize` (which may fail) and `deserialize` (which
 * may reject a stored text).
 */
module Cache {
  import opened Wrappers

  /** Rust's `u32`, the type of a TTL in seconds; 0 asks for the default. */
  newtype u32 = x: int | 0 <= x < 0x1_0000_0000

  /** The three answers a lookup can give. */
  datatype CacheResult<T> = NotFound | ExistsButNoValue | Found(value: T)

  /** A raw lookup in a store holding `entries`. */
  function Lookup(entries: map<string, string>, key: string): (r: CacheResult<string>)
    ensures r.Found? <==> key in entries
    ensures r.Found? ==> r.value == entries[key]
    ensures !r.ExistsButNoValue?
  {
    if key in entries then Found(entries[key]) else NotFound
  }

  /**
   * The typed answer to a raw answer: a found text that does not
   * deserialise reads as `ExistsButNoValue`; the other answers carry over.
   */
  function Typed<T>(raw: CacheResult<string>, deserialize: string -> Option<T>): (r: CacheResult<T>)
    ensures r.NotFound? <==> raw.NotFound?
    ensures r.Found? <==> raw.Found? && deserialize(raw.value).Some?
    ensures r.Found? ==> Some(r.value) == deserialize(raw.value)
    ensures r.ExistsButNoValue? <==> raw.ExistsButNoValue? || (raw.Found? && deserialize(raw.value).None?)
  {
    match raw
    case Found(json) =>
      (match deserialize(json)
       case Some(v) => Found(v)
       case None => ExistsButNoValue)
    case NotFound => NotFound
    case ExistsButNoValue => ExistsButNoValue
  }

  /** The texts loading `values` writes for the keys in `within`: those that serialise. */
  function Serialized<T>(values: map<string, T>, within: set<string>, serialize: T -> Option<string>)
    : (s: map<string, string>)
    ensures forall k :: k in s <==> k in values && k in within && serialize(values[k]).Some?
    ensures forall k :: k in s ==> Some(s[k]) == serialize(values[k])
  {
    map k | k in values && k in within && serialize(values[k]).Some? :: serialize(values[k]).value
  }

  /** A raw object cache holding JSON texts, with the TTL each was last stored with. */
  class RawCache {
    var entries: map<string, string>
    var ttls: map<string, u32>

    predicate Valid()
      reads this
    {
      entries.Keys == ttls.Keys
    }

    constructor ()
      ensures Valid() && entries == map[] && ttls == map[]
    {
      entries, ttls := map[], map[];
    }

    /** `get_raw`. */
    method GetRaw(key: string) returns (r: CacheResult<string>)
      ensures r == Lookup(entries, key)
    {
      if key in entries {
        r := Found(entries[key]);
      } else {
        r := NotFound;
      }
    }

    /** `insert_raw`: stores or replaces the text under `key`. */
    method InsertRaw(key: string, value: string, ttl: u32)
      requires Valid()
      modifies this
      ensures Valid()
      ensures entries == old(entries)[key := value] && ttls == old(ttls)[key := ttl]
    {
      entries := entries[key := value];
      ttls := ttls[key := ttl];
    }

    /** `remove`. */
    method Remove(key: string)
      requires Valid()
      modifies this
      ensures Valid()
      ensures entries == old(entries) - {key} && ttls == old(ttls) - {key}
    {
      entries := entries - {key};
      ttls := ttls - {key};
    }

    /** `invalidate_all`. */
    method InvalidateAll()
      modifies this
      ensures Valid() && entries == map[] && ttls == map[]
    {
      entries, ttls := map[], map[];
    }
  }

  /** `get::<T>`: the raw lookup, deserialised. */
  method Get<T>(c: RawCache, key: string, deserialize: string -> Option<T>) returns (r: CacheResult<T>)
    ensures r == Typed(Lookup(c.entries, key), deserialize)
  {
    var raw := c.GetRaw(key);
    r := Typed(raw, deserialize);
  }

  /** `insert::<T>`: stores the serialised value; a value that fails to serialise is dropped. */
  method Insert<T>(c: RawCache, key: string, value: T, ttl: u32, serialize: T -> Option<string>)
    requires c.Valid()
    modifies c
    ensures c.Valid()
    ensures serialize(value).Some? ==>
      c.entries == old(c.entries)[key := serialize(value).value] && c.ttls == old(c.ttls)[key := ttl]
    ensures serialize(value).None? ==> c.entries == old(c.entries) && c.ttls == old(c.ttls)
  {
    match serialize(value)
    case Some(json) => c.InsertRaw(key, json, ttl);
    case None =>
  }

  /** `insert_with_default_ttl::<T>`: `insert` with TTL 0. */
  method InsertWithDefaultTtl<T>(c: RawCache, key: string, value: T, serialize: T -> Option<string>)
    requires c.Valid()
    modifies c
    ensures c.Valid()
    ensures serialize(value).Some? ==>
      c.entries == old(c.entries)[key := serialize(value).value] && c.ttls == old(c.ttls)[key := 0]
    ensures serialize(value).None? ==> c.entries == old(c.entries) && c.ttls == old(c.ttls)
  {
    Insert(c, key, value, 0, serialize);
  }

  /** The TTLs `load_l2_cache` stores: 0 for every key it writes. */
  function DefaultTtls(written: map<string, string>): (t: map<string, u32>)
    ensures t.Keys == written.Keys && forall k :: k in t ==> t[k] == 0
  {
    map k | k in written :: 0 as u32
  }

  lemma UnionThenUpdate<V>(a: map<string, V>, b: map<string, V>, k: string, v: V)
    ensures (a + b)[k := v] == a + b[k := v]
  {
  }

  /** Storing one more value that serialises extends what loading wrote by that key. */
  lemma LoadStepStored<T>(entries0: map<string, string>, ttls0: map<string, u32>, values: map<string, T>,
                          done: set<string>, k: string, serialize: T -> Option<string>)
    requires k in values && serialize(values[k]).Some?
    ensures (entries0 + Serialized(values, done, serialize))[k := serialize(values[k]).value]
      == entries0 + Serialized(values, done + {k}, serialize)
    ensures (ttls0 + DefaultTtls(Serialized(values, done, serialize)))[k := 0]
      == ttls0 + DefaultTtls(Serialized(values, done + {k}, serialize))
  {
    var json := serialize(values[k]).value;
    var written := Serialized(values, done, serialize);
    assert Serialized(values, done + {k}, serialize) == written[k := json];
    UnionThenUpdate(entries0, written, k, json);
    UnionThenUpdate(ttls0, DefaultTtls(written), k, 0);
    assert DefaultTtls(written)[k := 0] == DefaultTtls(written[k := json]);
  }

  /** A value that does not serialise adds nothing to what loading wrote. */
  lemma LoadStepDropped<T>(values: map<string, T>, done: set<string>, k: string, serialize: T -> Option<string>)
    requires k in values && serialize(values[k]).None?
    ensures Serialized(values, done + {k}, serialize) == Serialized(values, done, serialize)
  {
  }

  /**
   * `load_l2_cache::<T>`: inserts every entry of `values` with TTL 0, in the
   * map's own (unspecified) iteration order. Since the keys are distinct the
   * order does not matter: every value that serialises ends up stored under
   * its key, and no other key changes.
   */
  method LoadL2Cache<T>(c: RawCache, values: map<string, T>, serialize: T -> Option<string>)
    requires c.Valid()
    modifies c
    ensures c.Valid()
    ensures c.entries == old(c.entries) + Serialized(values, values.Keys, serialize)
    ensures c.ttls == old(c.ttls) + DefaultTtls(Serialized(values, values.Keys, serialize))
  {
    ghost var entries0, ttls0 := c.entries, c.ttls;
    var remaining := values.Keys;
    ghost var done: set<string> := {};
    while remaining != {}
      invariant remaining + done == values.Keys && remaining !! done
      invariant c.Valid()
      invariant c.entries == entries0 + Serialized(values, done, serialize)
      invariant c.ttls == ttls0 + DefaultTtls(Serialized(values, done, serialize))
      decreases remaining
    {
      var k :| k in remaining;
      InsertWithDefaultTtl(c, k, values[k], serialize);
      if serialize(values[k]).Some? {
        LoadStepStored(entries0, ttls0, values, done, k, serialize);
      } else {
        LoadStepDropped(values, done, k, serialize);
      }
      remaining := remaining - {k};
      done := done + {k};
    }
  }

  /** A value that serialises and deserialises back is read back after storing it. */
  method InsertThenGet<T>(c: RawCache, key: string, value: T, ttl: u32,
                          serialize: T -> Option<string>, deserialize: string -> Option<T>)
    returns (r: CacheResult<T>)
    requires c.Valid()
    requires serialize(value).Some? && deserialize(serialize(value).value) == Some(value)
    modifies c
    ensures r == Found(value)
  {
    Insert(c, key, value, ttl, serialize);
    r := Get(c, key, deserialize);
  }

  /** After `remove` a lookup reports the key absent, whatever was stored. */
  method RemoveThenGet<T>(c: RawCache, key: string, deserialize: string -> Option<T>) returns (r: CacheResult<T>)
    requires c.Valid()
    modifies c
    ensures r == NotFound
  {
    c.Remove(key);
    r := Get(c, key, deserialize);
  }
}
