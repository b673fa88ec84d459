/**
 * Server start-up: the cache factory with its fixed redis-then-moka fallback,
 * and `prepare_server_startup`, which builds the storage first and the cache
 * second and aborts if either cannot be built.
 */
module Startup {
  import opened Wrappers
  import opened Errors
  import opened StorageRegistry
  import opened StorageFactory

  const NoCacheBackendAvailable: string := "No cache backend available"

  /** The candidates that are registered, in their original order. */
  function RegisteredOnly<C>(names: seq<string>, entries: map<string, C>): (r: seq<string>)
    ensures forall n :: n in r <==> n in names && n in entries
    ensures |r| <= |names|
  {
    if names == [] then []
    else if names[0] in entries then [names[0]] + RegisteredOnly(names[1..], entries)
    else RegisteredOnly(names[1..], entries)
  }

  /** Every name in `names` is registered and its constructor fails. */
  predicate AllFail<C, H, E>(names: seq<string>, entries: map<string, C>, construct: C -> Result<H, E>) {
    forall n :: n in names ==> n in entries && construct(entries[n]).Err?
  }

  /** The constructors of `names` ran in order: all failed except the last, which built `h`. */
  ghost predicate LastSucceeds<C, H, E>(names: seq<string>, entries: map<string, C>, construct: C -> Result<H, E>, h: H) {
    && names != []
    && names[|names| - 1] in entries && construct(entries[names[|names| - 1]]) == Ok(h)
    && AllFail(names[..|names| - 1], entries, construct)
  }

  lemma ConsAllFail<C, H, E>(name: string, names: seq<string>, entries: map<string, C>, construct: C -> Result<H, E>)
    requires name in entries && construct(entries[name]).Err? && AllFail(names, entries, construct)
    ensures AllFail([name] + names, entries, construct)
  {
  }

  lemma ConsLastSucceeds<C, H, E>(name: string, names: seq<string>, entries: map<string, C>, construct: C -> Result<H, E>, h: H)
    requires name in entries && construct(entries[name]).Err? && LastSucceeds(names, entries, construct, h)
    ensures LastSucceeds([name] + names, entries, construct, h)
  {
    assert ([name] + names)[..|names|] == [name] + names[..|names| - 1];
    ConsAllFail(name, names[..|names| - 1], entries, construct);
  }

  /**
   * A general fallback chain, the reference the cache factory is checked
   * against: try each registered candidate in order, keep the first
   * constructor that succeeds, report `No cache backend available` when none
   * does.
   */
  function Fallback<C, H, E>(candidates: seq<string>, entries: map<string, C>, construct: C -> Result<H, E>)
    : (a: Attempt<H, string>)
    ensures a.invoked <= RegisteredOnly(candidates, entries)
    ensures a.result.Ok? ==> LastSucceeds(a.invoked, entries, construct, a.result.value)
    ensures a.result.Err? ==>
      && a.result.error == NoCacheBackendAvailable
      && a.invoked == RegisteredOnly(candidates, entries)
      && AllFail(a.invoked, entries, construct)
  {
    if candidates == [] then Attempt(Err(NoCacheBackendAvailable), [])
    else
      var name := candidates[0];
      var rest := Fallback(candidates[1..], entries, construct);
      if name in entries then
        match construct(entries[name])
        case Ok(h) =>
          assert [name][..0] == [];
          Attempt(Ok(h), [name])
        case Err(_) =>
          if rest.result.Ok? then
            ConsLastSucceeds(name, rest.invoked, entries, construct, rest.result.value);
            Attempt(rest.result, [name] + rest.invoked)
          else
            ConsAllFail(name, rest.invoked, entries, construct);
            Attempt(rest.result, [name] + rest.invoked)
      else rest
  }

  /** The chain yields a value exactly when some registered candidate constructs successfully. */
  lemma {:induction false} FallbackSucceedsIff<C, H, E>(candidates: seq<string>, entries: map<string, C>, construct: C -> Result<H, E>)
    ensures Fallback(candidates, entries, construct).result.Ok? <==>
      exists i :: 0 <= i < |candidates| && candidates[i] in entries && construct(entries[candidates[i]]).Ok?
  {
    if candidates != [] {
      FallbackSucceedsIff(candidates[1..], entries, construct);
      var name := candidates[0];
      if name in entries && construct(entries[name]).Ok? {
        assert candidates[0] in entries && construct(entries[candidates[0]]).Ok?;
      } else {
        forall i | 1 <= i < |candidates|
          ensures candidates[i] == candidates[1..][i - 1]
        {
        }
      }
    }
  }

  /** With distinct candidates, no constructor is tried twice. */
  lemma {:induction false} FallbackTriesEachOnce<C, H, E>(candidates: seq<string>, entries: map<string, C>, construct: C -> Result<H, E>)
    requires Distinct(candidates)
    ensures Distinct(Fallback(candidates, entries, construct).invoked)
  {
    RegisteredOnlyDistinct(candidates, entries);
  }

  lemma {:induction false} RegisteredOnlyDistinct<C>(names: seq<string>, entries: map<string, C>)
    requires Distinct(names)
    ensures Distinct(RegisteredOnly(names, entries))
  {
    if names != [] {
      RegisteredOnlyDistinct(names[1..], entries);
      assert names[0] !in names[1..];
    }
  }

  /**
   * `create_cache`: redis first, then moka; the first constructor that
   * succeeds wins, and the result is "No cache backend available" when
   * neither does. Constructor errors are logged and dropped.
   */
  function CreateCache<C, H>(registry: Registry<C>, construct: C -> Result<H, HWSystemError>): (a: Attempt<H, string>)
    reads registry
    ensures a == Fallback(["redis", "moka"], registry.entries, construct)
    ensures a.invoked == [] || a.invoked == ["redis"] || a.invoked == ["moka"] || a.invoked == ["redis", "moka"]
    ensures "moka" in a.invoked && "redis" in registry.entries ==> a.invoked == ["redis", "moka"]
    ensures "redis" in registry.entries && construct(registry.entries["redis"]).Ok? ==>
      a.invoked == ["redis"] && a.result == Ok(construct(registry.entries["redis"]).value)
  {
    // what the moka branch does when it is reached
    var viaMoka :=
      match registry.Get("moka")
      case Some(ctor) =>
        (match construct(ctor)
         case Ok(cache) => Attempt(Ok(cache), ["moka"])
         case Err(_) => Attempt(Err(NoCacheBackendAvailable), ["moka"]))
      case None => Attempt(Err(NoCacheBackendAvailable), []);
    match registry.Get("redis")
    case Some(ctor) =>
      (match construct(ctor)
       case Ok(cache) => Attempt(Ok(cache), ["redis"])
       case Err(_) =>
         assert viaMoka.invoked == [] || viaMoka.invoked == ["moka"];
         assert ["redis"] + ["moka"] == ["redis", "moka"];
         assert ["redis"] + [] == ["redis"];
         Attempt(viaMoka.result, ["redis"] + viaMoka.invoked))
    case None => viaMoka
  }

  /** A constructor run during start-up, tagged with the registry it came from. */
  datatype Invocation = StorageConstructor(name: string) | CacheConstructor(name: string)

  datatype StartupContext<S, K> = StartupContext(storage: S, cache: K)

  /** What start-up did: the context it built or the reason it aborted, and every constructor it ran. */
  datatype Boot<S, K> = Boot(context: Result<StartupContext<S, K>, string>, trace: seq<Invocation>)

  function StorageRuns(names: seq<string>): (r: seq<Invocation>)
    ensures |r| == |names|
    ensures forall i :: 0 <= i < |r| ==> r[i] == StorageConstructor(names[i])
  {
    if names == [] then [] else [StorageConstructor(names[0])] + StorageRuns(names[1..])
  }

  function CacheRuns(names: seq<string>): (r: seq<Invocation>)
    ensures |r| == |names|
    ensures forall i :: 0 <= i < |r| ==> r[i] == CacheConstructor(names[i])
  {
    if names == [] then [] else [CacheConstructor(names[0])] + CacheRuns(names[1..])
  }

  /**
   * `prepare_server_startup`: storage is built first (the environment-driven
   * factory), then the cache; a failure of either aborts start-up with the
   * corresponding `expect` message, and a storage failure means no cache
   * constructor runs at all.
   */
  function PrepareServerStartup<SC, S, CC, K>(
    env: Option<string>,
    storageRegistry: Registry<SC>, buildStorage: SC -> Result<S, HWSystemError>,
    cacheRegistry: Registry<CC>, buildCache: CC -> Result<K, HWSystemError>)
    : (b: Boot<S, K>)
    reads storageRegistry, cacheRegistry
    ensures var storage := CreateFromEnv(env, storageRegistry, buildStorage);
      && (storage.result.Err? ==>
            b.context == Err("Failed to create storage backend") && b.trace == StorageRuns(storage.invoked))
      && (storage.result.Ok? ==>
            var cache := CreateCache(cacheRegistry, buildCache);
            && b.trace == StorageRuns(storage.invoked) + CacheRuns(cache.invoked)
            && (cache.result.Err? ==> b.context == Err("Failed to create cache"))
            && (cache.result.Ok? ==> b.context == Ok(StartupContext(storage.result.value, cache.result.value))))
  {
    var storage := CreateFromEnv(env, storageRegistry, buildStorage);
    match storage.result
    case Err(_) => Boot(Err("Failed to create storage backend"), StorageRuns(storage.invoked))
    case Ok(st) =>
      var cache := CreateCache(cacheRegistry, buildCache);
      var trace := StorageRuns(storage.invoked) + CacheRuns(cache.invoked);
      match cache.result
      case Err(_) => Boot(Err("Failed to create cache"), trace)
      case Ok(k) => Boot(Ok(StartupContext(st, k)), trace)
  }

  /** No cache run precedes a storage run in a trace made of storage runs, then cache runs. */
  predicate StorageFirst(t: seq<Invocation>) {
    forall i, j :: 0 <= i < j < |t| ==> !(t[i].CacheConstructor? && t[j].StorageConstructor?)
  }

  lemma RunsInOrder(storageNames: seq<string>, cacheNames: seq<string>)
    ensures StorageFirst(StorageRuns(storageNames))
    ensures StorageFirst(StorageRuns(storageNames) + CacheRuns(cacheNames))
  {
    var t := StorageRuns(storageNames) + CacheRuns(cacheNames);
    var n := |storageNames|;
    assert forall k :: 0 <= k < n ==> t[k].StorageConstructor?;
    assert forall k :: n <= k < |t| ==> t[k].CacheConstructor?;
  }

  /** Storage constructors always run before any cache constructor. */
  lemma StorageBeforeCache<SC, S, CC, K>(
    env: Option<string>,
    storageRegistry: Registry<SC>, buildStorage: SC -> Result<S, HWSystemError>,
    cacheRegistry: Registry<CC>, buildCache: CC -> Result<K, HWSystemError>)
    ensures var t := PrepareServerStartup(env, storageRegistry, buildStorage, cacheRegistry, buildCache).trace;
      forall i, j :: 0 <= i < j < |t| ==> !(t[i].CacheConstructor? && t[j].StorageConstructor?)
  {
    var storage := CreateFromEnv(env, storageRegistry, buildStorage);
    var cache := CreateCache(cacheRegistry, buildCache);
    RunsInOrder(storage.invoked, cache.invoked);
    assert StorageFirst(PrepareServerStartup(env, storageRegistry, buildStorage, cacheRegistry, buildCache).trace);
  }
}
