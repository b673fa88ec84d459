# rust-hwsystem-next: start-up, storage plugins, migrations, cache and validation in Dafny

The homework management back end starts by building a storage and then a
cache. Both come from plugin registries that map a backend name to a
constructor.

- **Storage.** Storage is chosen by name. One factory reads the name from
  `config.database.backend`. The other reads the `STORAGE_BACKEND`
  environment variable and uses `sqlite` when it is unset.
- **Cache.** The cache tries `redis`, then falls back to `moka`.
- **Migrations.** The SQL storage constructors bring their schema up to date
  with a migration manager. The manager keeps a `schema_migrations` table and
  applies every catalog entry newer than the largest recorded version. Each
  entry runs in its own transaction, and the run stops at the first failure.
  There are three copies of the manager:
  - a PostgreSQL copy, which splits the SQL on `;` and words its errors in
    English;
  - two SQLite copies, which run the SQL as one query and word their errors in
    Chinese.
- **Typed cache.** Above the raw JSON-string cache, a typed layer serialises
  values on the way in and deserialises them on the way out.
- **Smaller pieces:**
  - the application error type and its `Display`;
  - the role and status enums with their text codecs;
  - the username and email validators;
  - the role check that guards routes.

Each Dafny module models one or more of the core source files:

| module | Dafny file | source files |
|---|---|---|
| `StorageRegistry` | `registry.dfy` | `src/storages/register.rs` |
| `StorageFactory` | `factory.dfy` | `src/repository/mod.rs` and `src/storages/mod.rs`: one factory function each, over the registry of `src/storages/register.rs` |
| `Startup` | `startup.dfy` | `src/system/lifetime/startup.rs` |
| `Migrations` | `migrations.dfy` | `src/repository/backends/postgresql/migrations.rs`, `src/repository/backends/sqlite/migrations.rs`, `src/storages/backends/sqlite/migrations.rs`: one manager for all three, parameterised by catalog and `Dialect` |
| `MigrationCatalogs` | `catalogs.dfy` | the migration lists of the same three files |
| `Cache` | `cache.dfy` | `src/cache/traits.rs`, `src/cache/object_cache/moka.rs` |
| `Errors` | `errors.dfy` | `src/errors.rs` |
| `ClassUserRoles` | `class_user_roles.dfy` | `src/models/class_users/entities.rs` |
| `ClassStudentRoles` | `class_student_roles.dfy` | `src/models/class_student/entities.rs` |
| `ApiUserModels` | `api_user_models.dfy` | `src/api_models/users/entities.rs` |
| `StorageUserModels` | `storage_user_models.dfy` | `src/storages/models.rs` |
| `Validate` | `validate.dfy` | `src/utils/validate.rs` |
| `RoleGuard` | `require_role.dfy` | `src/middlewares/require_role.rs` |

Shared helpers:

- `Wrappers`: `Option` and `Result`.
- `Text`: Rust's `split`, `trim`, `find`/`rfind` and integer formatting.
- `Hex`: `{:x}` of a digest.
- `SerdeNames`: serde's `snake_case` renaming.

Code that changes state is modelled as classes whose methods change fields:

- the registry;
- the raw cache;
- the migration database and its manager.

Code that only computes is modelled as functions and lemmas. The database
answers each step (create table, query, begin, execute, insert, commit)
nondeterministically with success or an error text. Every contract of the
manager therefore holds whatever the database does.

## Model

| member | source | states |
|---|---|---|
| StorageRegistry.Registry.constructor | src/storages/register.rs:11-12 | the registry starts empty |
| StorageRegistry.Registry.Register | src/storages/register.rs:14-19 | registering inserts or silently overwrites the entry for the name; every other entry is unchanged and no name is lost |
| StorageRegistry.Registry.Get | src/storages/register.rs:21-23 | lookup succeeds exactly for registered names and returns the constructor registered last |
| StorageRegistry.Registry.Names | src/storages/register.rs:25-27 | the list holds every registered name exactly once and nothing else, so its length is the number of entries |
| StorageRegistry.Registry.DebugLines | src/storages/register.rs:30-40 | an empty registry logs the one "No storage backends registered." line; otherwise a header, then one ` - name` line per registered name and only those |
| StorageRegistry.RegisterThenGet | src/storages/register.rs:14-23 | after registering, the name resolves to the new constructor and any other name resolves as before |
| StorageRegistry.RegisterOnlyGrows | src/storages/register.rs:14-19 | registration never removes a name and never shrinks the registry |
| StorageRegistry.DistinctCardinality | src/storages/register.rs:25-27 | a list without repeats has as many elements as its set of names |
| StorageFactory.CreateNamed | src/repository/mod.rs:118-128 | a registered name runs its constructor exactly once and returns its result unchanged; an unregistered name runs nothing and fails with `StoragePluginNotFound` |
| StorageFactory.CreateFromConfig | src/repository/mod.rs:114-129 | the repository factory looks up `config.database.backend`, with the two outcomes above |
| StorageFactory.CreateFromEnv | src/storages/mod.rs:34-48 | the storage factory looks up `STORAGE_BACKEND`, or `sqlite` when unset, and reports that same name when it is missing |
| StorageFactory.NotFoundDisplay | src/storages/mod.rs:44-46 | the not-found error displays as the plugin-not-found prefix, `Unknown storage backend: `, then the name, and parses back to the same error |
| StorageFactory.NotFoundIgnoresOtherEntries | src/storages/mod.rs:40-46 | the failure does not depend on which other backends are registered; they are only logged |
| StorageFactory.CreateAfterRegister | src/storages/register.rs:14-23 | no memoisation: a factory call after re-registration runs the constructor registered last |
| Startup.Fallback | src/system/lifetime/startup.rs:12-40 | a reference fallback chain: only registered candidates are tried, in order; on success every earlier one failed and the last tried built the value; on failure all registered candidates were tried, all failed, and the error is `No cache backend available` |
| Startup.FallbackSucceedsIff | src/system/lifetime/startup.rs:12-40 | the chain succeeds exactly when some registered candidate's constructor succeeds |
| Startup.FallbackTriesEachOnce | src/system/lifetime/startup.rs:12-40 | with distinct candidates no constructor runs twice |
| Startup.CreateCache | src/system/lifetime/startup.rs:12-40 | `create_cache` is the chain over `redis` then `moka`: the only possible runs are none, redis, moka, or redis then moka; moka runs after a registered redis only when redis failed; a working redis wins |
| Startup.PrepareServerStartup | src/system/lifetime/startup.rs:44-65 | storage is built first; a storage failure aborts with "Failed to create storage backend" and runs no cache constructor; otherwise a cache failure aborts with "Failed to create cache", and success pairs the two values |
| Startup.StorageBeforeCache | src/system/lifetime/startup.rs:55-61 | in the trace of constructor runs, no cache constructor ever precedes a storage constructor |
| Errors.Display | src/errors.rs:16-30 | each variant displays as its own fixed prefix followed by its message, and the text parses back to the same error |
| Errors.PrefixFree | src/errors.rs:19-27 | the nine prefixes are pairwise different and none is a prefix of another |
| Errors.DisplayParses | src/errors.rs:16-30 | reading the prefix back recovers the variant and the message |
| Errors.DisplayInjective | src/errors.rs:16-30 | different errors display differently |
| Migrations.VersionTag | src/repository/backends/postgresql/migrations.rs:75-77 | a version is written as `v` followed by a sign and digits that read back as that version |
| Migrations.VersionTagInjective | src/repository/backends/postgresql/migrations.rs:75-77 | two versions with the same tag are equal |
| Text.NatToDecimalValue | src/repository/backends/postgresql/migrations.rs:75-77 | the decimal digits of a natural number read back as that number |
| Text.IntToDecimalValue | src/repository/backends/postgresql/migrations.rs:75-77 | the signed decimal text of an integer reads back as that integer |
| Text.IntToDecimalInjective | src/repository/backends/postgresql/migrations.rs:75-77 | distinct integers have distinct decimal texts |
| Migrations.StageError | src/repository/backends/postgresql/migrations.rs:36 | every manager error is `DatabaseOperation`, starting with the failing step's fixed text |
| Migrations.FailureNamesVersion | src/repository/backends/sqlite/migrations.rs:69-91 | a failed execute, record or commit step's message holds the tag of the migration's version followed by a non-digit, so it names exactly that version |
| Migrations.StatementsShape | src/repository/backends/postgresql/migrations.rs:68-81 | PostgreSQL runs the `;`-separated pieces trimmed, skipping empty ones; every statement it runs is non-empty, has no surrounding white space and holds no `;`; SQLite runs the whole text as one statement |
| Migrations.NonEmptyTrimmedShape | src/repository/backends/postgresql/migrations.rs:68-71 | every executed piece is non-empty, with no white space at either end |
| Migrations.NonEmptyTrimmedWithin | src/repository/backends/postgresql/migrations.rs:68-69 | trimming never introduces a character: one absent from every piece is absent from every statement |
| Migrations.Checksum | src/repository/backends/postgresql/migrations.rs:84-86 | the recorded checksum is 64 lower-case hex digits |
| Migrations.MaxVersion | src/repository/backends/postgresql/migrations.rs:42-55 | the current version is 0 for an empty table, and otherwise the largest recorded version |
| Migrations.MaxOf | src/repository/backends/postgresql/migrations.rs:43 | every non-empty set of versions has a largest element |
| Migrations.Pending | src/repository/backends/postgresql/migrations.rs:122-125 | a migration is pending iff it is in the catalog and newer than the current version; nothing is pending iff no entry is newer; the list is no longer than the catalog (order and multiplicity: the next two rows) |
| Migrations.PendingOfOne | src/repository/backends/postgresql/migrations.rs:122-125 | a one-entry catalog yields that entry iff it is newer than the current version |
| Migrations.PendingAppend | src/repository/backends/postgresql/migrations.rs:122-125 | the pending list of a concatenated catalog is the concatenation of the pending lists: catalog order and multiplicity are kept |
| Migrations.PendingAscending | src/repository/backends/postgresql/migrations.rs:122-125 | for an ascending catalog the pending migrations are applied in ascending version order |
| Migrations.RecordAll | src/repository/backends/postgresql/migrations.rs:88-102 | recording a list of migrations adds exactly their versions to the table's keys, each row under its own version; rows of other versions are unchanged |
| Migrations.RecordAllRow | src/repository/backends/postgresql/migrations.rs:88-102 | with distinct versions, the row of the k-th recorded migration holds that migration's version, name, time and checksum |
| Migrations.RecordAllRows | src/repository/backends/postgresql/migrations.rs:88-102 | with distinct versions, every recorded migration's row is its own |
| Migrations.UpToDateAfterMigrating | src/repository/backends/postgresql/migrations.rs:118-142 | once every pending migration is recorded nothing is pending, so a second `migrate_up` applies nothing |
| Migrations.ReachesLatestVersion | src/repository/backends/postgresql/migrations.rs:118-142 | for an ascending catalog with something pending, migrating ends at the catalog's last version |
| Migrations.Database.Insert | src/repository/backends/postgresql/migrations.rs:26-27 | `version` is the primary key: inserting an already recorded version always fails, and a failed insert changes nothing |
| Migrations.MigrationManager.Init | src/repository/backends/postgresql/migrations.rs:23-39 | `init` creates the table if absent and never touches existing rows or schema; a failure is the create-table error |
| Migrations.MigrationManager.GetCurrentVersion | src/repository/backends/postgresql/migrations.rs:42-55 | on success the largest recorded version, or 0 for an empty table; a failure is the query-version error |
| Migrations.MigrationManager.ExecuteStatements | src/repository/backends/postgresql/migrations.rs:67-81 | on success exactly the migration's statements were executed, in order |
| Migrations.MigrationManager.ApplyMigration | src/repository/backends/postgresql/migrations.rs:58-115 | success adds exactly one row (version, name, time, hex SHA-256 of the SQL) for a version not yet recorded, and appends the statements; any failure leaves table and schema unchanged and its message names the failing step |
| Migrations.MigrationManager.ApplyPending | src/repository/backends/postgresql/migrations.rs:134-136 | applies the list in order and stops at the first failure; the migrations before the failing one stay committed and the error is the failing one's |
| Migrations.MigrationManager.MigrateFrom | src/repository/backends/postgresql/migrations.rs:120-141 | from a known current version, commits a prefix of the pending migrations; success means all were applied and nothing is pending any more |
| Migrations.MigrationManager.MigrateUp | src/repository/backends/postgresql/migrations.rs:118-142 | `migrate_up`: the same, starting from the version the table holds; with nothing pending the state is unchanged; the final version query can still turn success into its error |
| Migrations.MigrationManager.InitThenMigrate | src/repository/backends/sqlite/migrations.rs:23-37 | `init` then `migrate_up`: success leaves the table present and nothing pending; without a table nothing was changed |
| MigrationCatalogs.TwoStepCatalog | src/repository/backends/postgresql/migrations.rs:146-328 | versions 1 `create_table_with_indexes` and 2 `add_test_data`, ascending |
| MigrationCatalogs.OneStepCatalog | src/storages/backends/sqlite/migrations.rs:126-226 | the storage copy ships only version 1 |
| MigrationCatalogs.TwoStepFromEmpty | src/repository/backends/sqlite/migrations.rs:126-300 | on an empty table both migrations are pending, and migrating records versions 1 and 2 and ends at 2 |
| MigrationCatalogs.TwoStepAfterFirst | src/repository/backends/sqlite/migrations.rs:98-105 | with version 1 recorded only `add_test_data` is pending |
| MigrationCatalogs.OneStepFromEmpty | src/storages/backends/sqlite/migrations.rs:98-122 | the storage copy on an empty table ends at version 1 |
| MigrationCatalogs.NothingPendingWhenCurrent | src/repository/backends/sqlite/migrations.rs:107-110 | at or past the catalog's last version nothing is pending |
| Hex.HexLowerDigits | src/repository/backends/postgresql/migrations.rs:86 | `{:x}` writes only lower-case hex digits, two per byte |
| Hex.HexRoundTrip | src/repository/backends/postgresql/migrations.rs:84-86 | the hex text decodes back to the digest |
| Hex.HexLowerInjective | src/repository/backends/postgresql/migrations.rs:84-86 | different digests give different checksums |
| Cache.Typed | src/cache/traits.rs:69-88 | `NotFound` and `ExistsButNoValue` carry over; a found text is `Found` exactly when it deserialises, and otherwise `ExistsButNoValue` |
| Cache.RawCache.GetRaw | src/cache/object_cache/moka.rs:41-47 | the raw lookup finds exactly the stored keys, with their stored text |
| Cache.RawCache.InsertRaw | src/cache/object_cache/moka.rs:49-59 | stores or replaces the text under the key; nothing else changes |
| Cache.RawCache.Remove | src/cache/object_cache/moka.rs:61-63 | removes the key and nothing else |
| Cache.RawCache.InvalidateAll | src/cache/object_cache/moka.rs:65-67 | empties the cache |
| Cache.Get | src/cache/traits.rs:69-88 | the typed lookup is the raw lookup, deserialised |
| Cache.Insert | src/cache/traits.rs:90-102 | a value that serialises is stored under its key with the TTL; one that does not is dropped and the cache is unchanged |
| Cache.InsertWithDefaultTtl | src/cache/traits.rs:104-109 | `insert` with TTL 0 |
| Cache.LoadL2Cache | src/cache/traits.rs:111-121 | whatever the iteration order, every value that serialises ends up stored under its key with TTL 0, and no other key changes |
| Cache.InsertThenGet | src/cache/traits.rs:69-102 | a value whose JSON reads back is found after inserting it |
| Cache.RemoveThenGet | src/cache/traits.rs:69-88 | after `remove` a lookup reports the key absent |
| ClassUserRoles.ClassTeacherRoles | src/models/class_users/entities.rs:21-23 | only the teacher holds the teacher's rights, listed once |
| ClassUserRoles.ClassRepresentativeRoles | src/models/class_users/entities.rs:24-26 | every role except the student holds the representative's rights, each listed once |
| ClassUserRoles.AllRoles | src/models/class_users/entities.rs:27-29 | all three roles, each listed once |
| ClassUserRoles.RoleSetsNested | src/models/class_users/entities.rs:21-29 | teacher roles are representative roles, which are among all roles; `all_roles` lists every role exactly once |
| ClassUserRoles.Display | src/models/class_users/entities.rs:49-57 | each role displays as one of the three name constants |
| ClassUserRoles.FromStr | src/models/class_users/entities.rs:59-70 | exactly the three names parse, each to the role it displays; anything else is "Invalid class user role: " and the text |
| ClassUserRoles.DisplayRoundTrip | src/models/class_users/entities.rs:49-70 | `FromStr` inverts `Display`, so `Display` is injective |
| ClassUserRoles.Deserialize | src/models/class_users/entities.rs:32-47 | accepts the same names as `FromStr` with the same results; the error quotes the text and lists the three names |
| ClassUserRoles.Serialize | src/models/class_users/entities.rs:8-14 | the derived snake-case `Serialize` writes exactly the `Display` name of every role |
| ClassUserRoles.SerializeRoundTrip | src/models/class_users/entities.rs:8-47 | whatever `Serialize` writes, the hand-written `Deserialize` reads back to the same role |
| ClassStudentRoles.Display | src/models/class_student/entities.rs:33-41 | each role displays as one of the three names |
| ClassStudentRoles.FromStr | src/models/class_student/entities.rs:43-54 | exactly the three names parse; anything else is "Invalid class user role: " and the text |
| ClassStudentRoles.DisplayRoundTrip | src/models/class_student/entities.rs:33-54 | `FromStr` inverts `Display` |
| ClassStudentRoles.Deserialize | src/models/class_student/entities.rs:16-31 | the hand-written `Deserialize` accepts what `FromStr` accepts, with its own error text |
| ClassStudentRoles.AgreesWithClassUsers | src/models/class_student/entities.rs:8-54 | the duplicate declaration shows, accepts and rejects exactly like the class-user one |
| ClassStudentRoles.Serialize | src/models/class_student/entities.rs:8-14 | the derived snake-case `Serialize` of the duplicate enum writes exactly its `Display` name |
| ClassStudentRoles.SerializeRoundTrip | src/models/class_student/entities.rs:8-31 | whatever `Serialize` writes, `Deserialize` reads back to the same role |
| ApiUserModels.RoleDisplay | src/api_models/users/entities.rs:16-25 | a role displays as its serde rename |
| ApiUserModels.RoleFromStr | src/api_models/users/entities.rs:27-39 | exactly the four names parse, each to the role it displays; otherwise "Invalid user role: " and the text |
| ApiUserModels.RoleRoundTrip | src/api_models/users/entities.rs:16-39 | `FromStr` inverts `Display`, so `Display` is injective |
| ApiUserModels.StatusDisplay | src/api_models/users/entities.rs:52-60 | a status displays as its serde rename |
| ApiUserModels.StatusFromStr | src/api_models/users/entities.rs:62-73 | exactly the three names parse; otherwise "Invalid user status: " and the text |
| ApiUserModels.StatusRoundTrip | src/api_models/users/entities.rs:52-73 | `FromStr` inverts `Display` |
| StorageUserModels.RoleDisplay | src/storages/models.rs:16-25 | a role displays as its serde rename |
| StorageUserModels.RoleFromStr | src/storages/models.rs:27-39 | exactly the four names parse; otherwise "Invalid user role: " and the text |
| StorageUserModels.RoleRoundTrip | src/storages/models.rs:16-39 | `FromStr` inverts `Display` |
| StorageUserModels.RolesAgreeWithApi | src/storages/models.rs:4-39 | a role text means the same role in the storage and in the API models |
| StorageUserModels.StatusDisplay | src/storages/models.rs:49-56 | a status displays as its serde rename |
| StorageUserModels.StatusFromStr | src/storages/models.rs:58-68 | only `active` and `inactive` parse |
| StorageUserModels.StatusRoundTrip | src/storages/models.rs:49-68 | `FromStr` inverts `Display` |
| StorageUserModels.StatusesNarrowerThanApi | src/storages/models.rs:41-68 | every status the storage layer parses the API parses too, but the API's `suspended` cannot be read back by the storage models |
| Validate.ValidateUsername | src/utils/validate.rs:1-12 | accepted iff 5 to 16 UTF-8 bytes of `[A-Za-z0-9_-]`; the length check comes first and picks the error |
| Validate.Utf8LenIsCountIffAscii | src/utils/validate.rs:3 | the byte length equals the character count exactly when every character is ASCII |
| Validate.AcceptedUsernameIsAscii | src/utils/validate.rs:1-12 | an accepted username is ASCII, so it also has 5 to 16 characters |
| Validate.AcceptedUsernameHasNoWhitespace | src/utils/validate.rs:7-10 | an accepted username holds no white space |
| Validate.ValidateEmail | src/utils/validate.rs:14-21 | `validate_email` as written: any rejection carries the one fixed format error; which texts it accepts is stated by the next row |
| Validate.ValidateEmailMatchesPattern | src/utils/validate.rs:14-21 | the validator accepts exactly the texts the anchored regex matches |
| Validate.SplitIsForced | src/utils/validate.rs:16 | in any match the `@` is the first one and the escaped dot is the last dot |
| Validate.AcceptedEmailHasOneAt | src/utils/validate.rs:16 | an accepted email has exactly one `@` |
| Validate.AcceptedEmailHasNoWhitespace | src/utils/validate.rs:16 | an accepted email holds no white space |
| Validate.PipeInTopLevelDomainAccepted | src/utils/validate.rs:16 | as written, `a@b.c\|` is accepted |
| Validate.ValidateEmailLettersOnly | src/utils/validate.rs:16 | the corrected validator, letters only after the last dot: any rejection carries the same format error; its accepted language is stated by the next three rows |
| Validate.LettersOnlyAccepts | src/utils/validate.rs:16 | the corrected validator accepts exactly what the written one accepts, minus addresses with a `\|` after the last dot |
| Validate.LettersOnlyTopLevelDomain | src/utils/validate.rs:16 | every address the corrected validator accepts ends with two or more ASCII letters after its last dot |
| Validate.LettersOnlyRejectsPipe | src/utils/validate.rs:16 | the corrected validator rejects `a@b.c\|` |
| RoleGuard.New | src/middlewares/require_role.rs:54-59 | one required role, under "all" |
| RoleGuard.NewAny | src/middlewares/require_role.rs:62-67 | the given roles, under "any" |
| RoleGuard.NewAll | src/middlewares/require_role.rs:70-75 | the given roles, under "all" |
| RoleGuard.HasPermission | src/middlewares/require_role.rs:143-149 | under "all" every required role equals the caller's role; under "any" the caller's role is among them |
| RoleGuard.NewGrantsExactly | src/middlewares/require_role.rs:54-59 | a single-role guard admits exactly that role |
| RoleGuard.NewAnyGrantsListed | src/middlewares/require_role.rs:62-67 | an any-of guard admits exactly the listed roles; an empty list admits nobody |
| RoleGuard.NewAllGrants | src/middlewares/require_role.rs:70-75 | an all-of guard admits everybody when empty and nobody when two different roles are listed |
| RoleGuard.Call | src/middlewares/require_role.rs:130-179 | no claims gives 401 "Authentication required"; a refused role gives 403 "Access denied. Required role(s): " and the list; only a granted request reaches the inner service, exactly once, and its response or error is passed on |
| RoleGuard.OwnAnswersAreErrors | src/middlewares/require_role.rs:79-86 | every answer the guard writes itself is a 401 or 403 JSON error whose `code` equals the status |
| RoleGuard.AnyOfMonotone | src/middlewares/require_role.rs:147-149 | adding a role to an any-of list never revokes access, and listing the caller's role grants it |
| Text.JoinSplit | src/repository/backends/postgresql/migrations.rs:68 | splitting on `;` loses nothing: joining the pieces gives the text back |
| Text.SplitWithoutSeparator | src/repository/backends/postgresql/migrations.rs:68 | no piece holds the separator |
| Text.TrimDrops | src/repository/backends/postgresql/migrations.rs:69 | `trim` drops only white space, and a non-empty result has no white space at either end |
| Text.TrimEmpty | src/repository/backends/postgresql/migrations.rs:69-70 | a piece trims to nothing exactly when it is all white space |
| SerdeNames.SnakeAppend | src/models/class_users/entities.rs:9 | snake-case renaming works word by word |
| SerdeNames.TwoWords | src/models/class_users/entities.rs:9-12 | a two-word identifier becomes the two lower-case words joined by `_` |

## Left out

- Logging (`tracing`) is left out. It changes nothing the callers see.
- The rustls provider install and the debug-only registry dumps at start-up are left out, apart from the dump lines that `DebugLines` models.
- The cache registry's source is not part of this model. It is assumed to have the storage registry's shape, so `create_cache` takes a `Registry`.
- Async execution, locks and concurrency are left out. The registries' `RwLock` and concurrent callers are not modelled; every call is atomic.
- Storage constructors are left out (opening pools, reading connection settings, file paths). Running one is a function parameter.
- The registration macros that fill the registries at start-up are left out.
- SQL is not interpreted. The migration SQL bodies are parameters of the catalogs. The schema is the list of executed statements.
- The current time (`chrono::Utc::now`) is the `appliedAt` parameter.
- SHA-256 is a parameter, and only its 32-byte output is modelled.
- JSON is not modelled. `serde_json::to_string` and `from_str` are the `serialize` and `deserialize` parameters.
- Moka's TTL is left out. Moka ignores the per-item TTL and expires entries by its global policy. The model records the TTL requested and never expires entries.
- Cache.RawCache: capacity eviction (`max_capacity`, src/cache/object_cache/moka.rs:24-29) is left out. The raw cache is a map that keeps every entry until it is removed. `InsertRaw`'s "nothing else changes" and `InsertThenGet`'s "found after inserting it" rely on this and hold only for a cache that is not full.
- Startup.PrepareServerStartup: the two `.expect` panics become an error value carrying the `expect` text. The panic message's `: {err:?}` suffix (the storage or cache error itself) is dropped.
- Migrations.MigrationManager: `GetCurrentVersion`, `ApplyMigration`, `ApplyPending`, `MigrateFrom` and `MigrateUp` require the migrations table to exist. Every caller meets this: each storage constructor calls `init` before `migrate_up` (for example src/storages/backends/sqlite/storage.rs:53-55). `InitThenMigrate` models that composed sequence, including `init`'s failure.
- Redis is left out. Only the in-memory (moka) raw cache behaviour is modelled.
- The `sqlx_enum_type` macro (database encoding of the role enums) is left out.
- RoleGuard.DebugList: writes each role in double quotes without Rust's `{:?}` escaping, because role names never hold quotes or control characters.
- RoleGuard.Call: only the `sub` and `role` claims are modelled. JWT decoding, which fills the request's claims, is not part of this model.
- Unlike the other per-migration errors, the begin-transaction error carries no version. The model follows the code here, even though a version might be expected in every per-migration error.
- Integer width: versions are `i32` (a `newtype`). The timestamp is an unbounded `int`.

## Findings

| source | as written | input that shows it | evidently intended | confidence | as-written member | corrected member |
|---|---|---|---|---|---|---|
| src/utils/validate.rs:16 | the top-level-domain class `[A-Z\|a-z]` also admits a literal `\|` | `a@b.c\|` is accepted | `[A-Za-z]`: letters only after the last dot | high; not executed | Validate.PipeInTopLevelDomainAccepted | Validate.ValidateEmailLettersOnly |
