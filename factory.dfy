/**
 * The two storage factories. Each resolves a backend name, looks it up in the
 * plugin registry and either runs the registered constructor once or fails
 * with `StoragePluginNotFound`. Running a constructor (opening a pool,
 * running the migrations) is an oracle `construct` from the handle to the
 * constructor's own result.
 */
module StorageFactory {
  import opened Wrappers
  import opened Errors
  import opened StorageRegistry

  /** What a factory call did: its result, and the names whose constructors it ran, in order. */
  datatype Attempt<H, E> = Attempt(result: Result<H, E>, invoked: seq<string>)

  /** The part of the application configuration the factory reads: `config.database.backend`. */
  datatype DatabaseSettings = DatabaseSettings(backend: string)
  datatype AppConfig = AppConfig(database: DatabaseSettings)

  /** The error for a name nobody registered; it embeds the requested name only. */
  const UnknownBackend: string := "Unknown storage backend: "

  function NotFound(backend: string): HWSystemError {
    StoragePluginNotFound(UnknownBackend + backend)
  }

  /** The lookup-then-construct step both factories share. */
  function CreateNamed<C, H>(registry: Registry<C>, backend: string, construct: C -> Result<H, HWSystemError>)
    : (a: Attempt<H, HWSystemError>)
    reads registry
    ensures |a.invoked| <= 1
    ensures a.invoked == [] <==> backend !in registry.entries
    ensures a.invoked != [] ==> a.invoked == [backend] && a.result == construct(registry.entries[backend])
    ensures a.invoked == [] ==> a.result == Err(NotFound(backend))
  {
    match registry.Get(backend)
    case Some(ctor) => Attempt(construct(ctor), [backend])
    case None => Attempt(Err(NotFound(backend)), [])
  }

  /**
   * `repository::StorageFactory::create`: the name is
   * `config.database.backend`; a registered name's constructor runs exactly
   * once and its result (storage or error) is returned unchanged; an
   * unregistered name runs no constructor and yields `StoragePluginNotFound`.
   */
  function CreateFromConfig<C, H>(config: AppConfig, registry: Registry<C>, construct: C -> Result<H, HWSystemError>)
    : (a: Attempt<H, HWSystemError>)
    reads registry
    ensures config.database.backend in registry.entries ==>
      a.invoked == [config.database.backend] && a.result == construct(registry.entries[config.database.backend])
    ensures config.database.backend !in registry.entries ==>
      a.invoked == [] && a.result == Err(NotFound(config.database.backend))
  {
    CreateNamed(registry, config.database.backend, construct)
  }

  /** The `STORAGE_BACKEND` environment variable, or `"sqlite"` when it is unset. */
  function BackendName(env: Option<string>): string {
    match env
    case Some(name) => name
    case None => "sqlite"
  }

  /**
   * `storages::StorageFactory::create`: the same lookup, on the name taken
   * from the environment with `"sqlite"` as default; lookup and error use
   * that same name.
   */
  function CreateFromEnv<C, H>(env: Option<string>, registry: Registry<C>, construct: C -> Result<H, HWSystemError>)
    : (a: Attempt<H, HWSystemError>)
    reads registry
    ensures var name := if env.Some? then env.value else "sqlite";
      && (name in registry.entries ==> a.invoked == [name] && a.result == construct(registry.entries[name]))
      && (name !in registry.entries ==> a.invoked == [] && a.result == Err(NotFound(name)))
  {
    CreateNamed(registry, BackendName(env), construct)
  }

  /** The error an operator sees names the missing backend after the plugin-not-found prefix. */
  lemma NotFoundDisplay(backend: string)
    ensures Display(NotFound(backend)) == StoragePluginNotFoundPrefix + UnknownBackend + backend
    ensures ParseDisplay(Display(NotFound(backend))) == Some(NotFound(backend))
  {
    assert Display(NotFound(backend)) == StoragePluginNotFoundPrefix + (UnknownBackend + backend);
  }

  /**
   * The not-found error depends only on the requested name: which other
   * backends are registered (they are logged, not returned) does not matter.
   */
  lemma NotFoundIgnoresOtherEntries<C, H>(r1: Registry<C>, r2: Registry<C>, backend: string, construct: C -> Result<H, HWSystemError>)
    requires backend !in r1.entries && backend !in r2.entries
    ensures CreateNamed(r1, backend, construct) == CreateNamed(r2, backend, construct)
  {
  }

  /**
   * No memoisation: a factory call made after a (re-)registration looks the
   * name up afresh and runs the constructor registered last.
   */
  method CreateAfterRegister<C, H>(registry: Registry<C>, config: AppConfig, ctor: C, construct: C -> Result<H, HWSystemError>)
    returns (a: Attempt<H, HWSystemError>)
    modifies registry
    ensures registry.entries == old(registry.entries)[config.database.backend := ctor]
    ensures a.invoked == [config.database.backend] && a.result == construct(ctor)
  {
    registry.Register(config.database.backend, ctor);
    a := CreateFromConfig(config, registry, construct);
  }
}
