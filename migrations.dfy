/**
 * The schema migration manager shared (near verbatim) by the PostgreSQL and
 * the two SQLite backends. The `schema_migrations` table is a map from
 * version to record; the current version is its largest key, or 0 when it is
 * empty; `migrate_up` applies, in catalog order, every catalog entry whose
 * version exceeds the current one, each in its own all-or-nothing
 * transaction, and stops at the first failure.
 *
 * The database is a `Database` object whose every step (create table, query,
 * begin, execute, insert, commit) may succeed or fail with some error text:
 * the outcome is chosen nondeterministically, so every contract below holds
 * whatever the database answers. A transaction is a snapshot of the table and
 * of the applied statements, restored on rollback.
 */
module Migrations {
  import opened Wrappers
  import opened Errors
  import opened Text
  import opened Hex

  /** Rust's `i32`, the type of `Migration::version` and of the version column. */
  newtype i32 = x: int | -0x8000_0000 <= x < 0x8000_0000

  datatype Migration = Migration(version: i32, name: string, upSql: string)

  /** A row of `schema_migrations`. */
  datatype MigrationRecord = MigrationRecord(version: i32, name: string, appliedAt: int, checksum: string)

  /**
   * The PostgreSQL copy splits `up_sql` into statements and words its errors
   * in English; the SQLite copies run `up_sql` as one query and word their
   * errors in Chinese.
   */
  datatype Dialect = Postgres | Sqlite

  predicate SplitsStatements(d: Dialect) {
    d == Postgres
  }

  /** The step of the manager that can fail. */
  datatype Stage = CreateTable | QueryVersion | BeginTx | Execute | RecordRow | Commit

  /**
   * How the per-migration errors name a version: `v` and the version's
   * decimal digits (with a `-` for a negative one), which read back as the
   * version.
   */
  function VersionTag(version: i32): (t: string)
    ensures |t| >= 2 && t[0] == 'v' && t[1..] == IntToDecimal(version as int)
    ensures SignedDecimalValue(t[1..]) == version as int
    ensures AllChars(t[1..], c => c == '-' || '0' <= c <= '9')
  {
    IntToDecimalValue(version as int);
    var digits := IntToDecimal(version as int);
    assert AllChars(digits, c => c == '-' || '0' <= c <= '9') by {
      if version < 0 {
        forall i | 1 <= i < |digits|
          ensures '0' <= digits[i] <= '9'
        {
          assert digits[1..][i - 1] == digits[i];
        }
      }
    }
    "v" + digits
  }

  /** Different versions get different tags. */
  lemma VersionTagInjective(a: i32, b: i32)
    requires VersionTag(a) == VersionTag(b)
    ensures a == b
  {
    assert VersionTag(a)[1..] == VersionTag(b)[1..];
  }

  /**
   * The fixed text in front of the database's own error text, per copy and
   * step; the per-migration steps name the version.
   */
  function StageText(d: Dialect, stage: Stage, version: i32): string {
    var v := VersionTag(version);
    match d
    case Postgres =>
      (match stage
       case CreateTable => "Failed to create migrations table: "
       case QueryVersion => "Failed to query database version: "
       case BeginTx => "Failed to begin migration transaction: "
       case Execute => "Failed to execute migration " + v + ": "
       case RecordRow => "Failed to record migration " + v + ": "
       case Commit => "Failed to commit migration " + v + ": ")
    case Sqlite =>
      (match stage
       case CreateTable => "创建迁移表失败: "
       case QueryVersion => "查询数据库版本失败: "
       case BeginTx => "开始迁移事务失败: "
       case Execute => "执行迁移" + v + "失败: "
       case RecordRow => "记录迁移" + v + "失败: "
       case Commit => "提交迁移" + v + "失败: ")
  }

  /** The error a failing step returns: `DatabaseOperation` of the step's text and the cause. */
  function StageError(d: Dialect, stage: Stage, version: i32, cause: string): (e: HWSystemError)
    ensures e.DatabaseOperation? && StageText(d, stage, version) <= e.msg
  {
    DatabaseOperation(StageText(d, stage, version) + cause)
  }

  /** `e` is what a failure of `stage` produces, whatever the database's error text. */
  predicate IsStageFailure(d: Dialect, stage: Stage, version: i32, e: HWSystemError) {
    e.DatabaseOperation? && StageText(d, stage, version) <= e.msg
  }

  /** `e` is what a failed `apply_migration` of version `v` produces. */
  predicate IsApplyFailure(d: Dialect, v: i32, e: HWSystemError) {
    || IsStageFailure(d, BeginTx, v, e)
    || IsStageFailure(d, Execute, v, e)
    || IsStageFailure(d, RecordRow, v, e)
    || IsStageFailure(d, Commit, v, e)
  }

  /** `tag` occurs in `msg` starting at index `i`. */
  predicate OccursAt(msg: string, tag: string, i: int) {
    0 <= i <= |msg| - |tag| && msg[i..i + |tag|] == tag
  }

  /** Text that starts with `front + tag + back` holds `tag` right after `front`. */
  lemma TagAfterFront(msg: string, front: string, tag: string, back: string)
    requires front + tag + back <= msg
    ensures OccursAt(msg, tag, |front|)
  {
    assert (front + tag + back)[|front|..|front| + |tag|] == tag;
  }

  /**
   * The text of a per-migration step other than `begin` is fixed words, the
   * version tag, and fixed words that do not start with a digit.
   */
  lemma VersionedStageText(d: Dialect, stage: Stage, v: i32) returns (front: string, back: string)
    requires stage in {Execute, RecordRow, Commit}
    ensures StageText(d, stage, v) == front + VersionTag(v) + back
    ensures back != [] && !('0' <= back[0] <= '9')
  {
    back := if d == Postgres then ": " else "失败: ";
    match (d, stage)
    case (Postgres, Execute) => front := "Failed to execute migration ";
    case (Postgres, RecordRow) => front := "Failed to record migration ";
    case (Postgres, _) => front := "Failed to commit migration ";
    case (Sqlite, Execute) => front := "执行迁移";
    case (Sqlite, RecordRow) => front := "记录迁移";
    case (Sqlite, _) => front := "提交迁移";
  }

  /**
   * `msg` names version `v` at `i`: the tag stands there and no further digit
   * follows it, so the number read after the `v` is exactly `v`.
   */
  predicate NamesVersionAt(msg: string, v: i32, i: int) {
    && OccursAt(msg, VersionTag(v), i)
    && i + |VersionTag(v)| < |msg|
    && !('0' <= msg[i + |VersionTag(v)|] <= '9')
  }

  /** Every failure of a per-migration step other than `begin` names the version. */
  lemma FailureNamesVersion(d: Dialect, stage: Stage, v: i32, e: HWSystemError)
    requires stage in {Execute, RecordRow, Commit}
    requires IsStageFailure(d, stage, v, e)
    ensures exists i :: NamesVersionAt(e.msg, v, i)
  {
    var front, back := VersionedStageText(d, stage, v);
    var tag := VersionTag(v);
    TagAfterFront(e.msg, front, tag, back);
    assert (front + tag + back)[|front| + |tag|] == back[0];
    assert NamesVersionAt(e.msg, v, |front|);
  }

  lemma AbsentFromSlice(s: string, i: nat, j: nat, c: char)
    requires i <= j <= |s| && c !in s
    ensures c !in s[i..j]
  {
    forall k | 0 <= k < j - i
      ensures s[i..j][k] != c
    {
      assert s[i..j][k] == s[i + k];
    }
  }

  /** Trimming only removes characters: every character kept was in the input. */
  lemma TrimmedWithin(s: string, c: char)
    requires c !in s
    ensures c !in Trim(s)
  {
    AbsentFromSlice(s, TrimStart(s), TrimEnd(s), c);
  }

  /** Non-empty, with no white space at either end. */
  predicate Trimmed(s: string) {
    s != "" && !IsWhitespace(s[0]) && !IsWhitespace(s[|s| - 1])
  }

  /** What one `;`-separated piece contributes: its trimmed text, unless that is empty. */
  function Kept(piece: string): seq<string> {
    var t := Trim(piece);
    if t == "" then [] else [t]
  }

  /** The trimmed, non-empty pieces, in order (the `;`-splitting loop's output). */
  function NonEmptyTrimmed(pieces: seq<string>): (stmts: seq<string>)
    ensures |stmts| <= |pieces|
  {
    if pieces == [] then []
    else NonEmptyTrimmed(pieces[..|pieces| - 1]) + Kept(pieces[|pieces| - 1])
  }

  lemma NonEmptyTrimmedStep(pieces: seq<string>, i: nat)
    requires i < |pieces|
    ensures NonEmptyTrimmed(pieces[..i + 1]) == NonEmptyTrimmed(pieces[..i]) + Kept(pieces[i])
  {
    assert pieces[..i + 1][..i] == pieces[..i];
  }

  /** Every statement is non-empty and starts and ends with a character other than white space. */
  lemma {:induction false} NonEmptyTrimmedShape(pieces: seq<string>)
    ensures forall i :: 0 <= i < |NonEmptyTrimmed(pieces)| ==> Trimmed(NonEmptyTrimmed(pieces)[i])
  {
    if pieces != [] {
      var front := pieces[..|pieces| - 1];
      var last := pieces[|pieces| - 1];
      NonEmptyTrimmedShape(front);
      var done := NonEmptyTrimmed(front);
      assert NonEmptyTrimmed(pieces) == done + Kept(last);
      if Trim(last) != "" {
        TrimDrops(last);
        assert Trimmed(Trim(last));
        assert Kept(last) == [Trim(last)];
        forall i | 0 <= i < |done| + 1
          ensures Trimmed((done + [Trim(last)])[i])
        {
          if i < |done| {
            assert (done + [Trim(last)])[i] == done[i];
          }
        }
      } else {
        assert done + Kept(last) == done;
      }
    }
  }

  /** A character absent from every piece is absent from every statement. */
  lemma {:induction false} NonEmptyTrimmedWithin(pieces: seq<string>, c: char)
    requires forall i :: 0 <= i < |pieces| ==> c !in pieces[i]
    ensures forall i :: 0 <= i < |NonEmptyTrimmed(pieces)| ==> c !in NonEmptyTrimmed(pieces)[i]
  {
    if pieces != [] {
      var last := pieces[|pieces| - 1];
      NonEmptyTrimmedWithin(pieces[..|pieces| - 1], c);
      TrimmedWithin(last, c);
    }
  }

  /**
   * The statements `apply_migration` executes for `up_sql`: PostgreSQL runs
   * every trimmed non-empty `;`-separated piece in order, SQLite runs the
   * text as one query.
   */
  function Statements(sql: string, split: bool): seq<string> {
    if split then NonEmptyTrimmed(Split(sql, ';')) else [sql]
  }

  /**
   * Split statements are non-empty, hold no `;` and have no white space at
   * either end; unsplit, the whole text is the one statement.
   */
  lemma StatementsShape(sql: string, split: bool)
    ensures !split ==> Statements(sql, split) == [sql]
    ensures split ==> forall i :: 0 <= i < |Statements(sql, split)| ==>
      Trimmed(Statements(sql, split)[i]) && ';' !in Statements(sql, split)[i]
  {
    if split {
      NonEmptyTrimmedShape(Split(sql, ';'));
      NonEmptyTrimmedWithin(Split(sql, ';'), ';');
    }
  }

  /** The lower-case hex SHA-256 of `up_sql` recorded as the checksum. */
  function Checksum(sha256: string -> Digest, sql: string): (c: string)
    ensures |c| == 64
    ensures forall i :: 0 <= i < |c| ==> c[i] in HexDigits
  {
    HexLowerDigits(sha256(sql));
    HexLower(sha256(sql))
  }

  /** `v` is the largest element of `keys`. */
  predicate IsMax(keys: set<i32>, v: i32) {
    v in keys && forall k :: k in keys ==> k <= v
  }

  /** Every non-empty finite set of versions has a largest element. */
  ghost function MaxOf(keys: set<i32>): (v: i32)
    requires keys != {}
    ensures IsMax(keys, v)
  {
    var x :| x in keys;
    if keys == {x} then x
    else
      var m := MaxOf(keys - {x});
      assert forall k :: k in keys ==> k == x || k in keys - {x};
      if x < m then m else x
  }

  /** A set has at most one largest element. */
  lemma MaxUnique(keys: set<i32>, a: i32, b: i32)
    requires IsMax(keys, a) && IsMax(keys, b)
    ensures a == b
  {
    assert a <= b && b <= a;
  }

  /** `SELECT MAX(version)` with `unwrap_or(0)`: the largest key, or 0 for an empty table. */
  function MaxVersion(keys: set<i32>): (v: i32)
    ensures keys == {} ==> v == 0
    ensures keys != {} ==> IsMax(keys, v)
  {
    if keys == {} then 0
    else
      assert IsMax(keys, MaxOf(keys));
      var v :| IsMax(keys, v);
      v
  }

  /** The pending migrations: the catalog entries newer than `current`, in catalog order. */
  function Pending(catalog: seq<Migration>, current: i32): (p: seq<Migration>)
    ensures forall m :: m in p <==> m in catalog && m.version > current
    ensures p == [] <==> forall m :: m in catalog ==> m.version <= current
    ensures |p| <= |catalog|
  {
    if catalog == [] then []
    else
      var rest := Pending(catalog[1..], current);
      assert forall m :: m in catalog <==> m == catalog[0] || m in catalog[1..];
      if catalog[0].version > current then [catalog[0]] + rest else rest
  }

  /** One catalog entry is pending exactly when it is newer than `current`. */
  lemma PendingOfOne(m: Migration, current: i32)
    ensures Pending([m], current) == if m.version > current then [m] else []
  {
    assert [m][1..] == [];
  }

  /**
   * `Pending` filters piece by piece: it keeps the catalog's order and every
   * kept entry as many times as it occurs, and sorts nothing.
   */
  lemma {:induction false} PendingAppend(a: seq<Migration>, b: seq<Migration>, current: i32)
    ensures Pending(a + b, current) == Pending(a, current) + Pending(b, current)
  {
    if a == [] {
      assert a + b == b;
    } else {
      assert (a + b)[0] == a[0];
      assert (a + b)[1..] == a[1..] + b;
      PendingAppend(a[1..], b, current);
    }
  }

  /** What `migrate_up` would apply to a table holding `records`. */
  function PendingFor(catalog: seq<Migration>, records: map<i32, MigrationRecord>): seq<Migration> {
    Pending(catalog, MaxVersion(records.Keys))
  }

  predicate StrictlyIncreasing(catalog: seq<Migration>) {
    forall i, j :: 0 <= i < j < |catalog| ==> catalog[i].version < catalog[j].version
  }

  /** A migration older than every entry of an ascending list keeps it ascending in front. */
  lemma ConsIncreasing(m: Migration, rest: seq<Migration>)
    requires StrictlyIncreasing(rest)
    requires forall n :: n in rest ==> m.version < n.version
    ensures StrictlyIncreasing([m] + rest)
  {
    var s := [m] + rest;
    forall i, j | 0 <= i < j < |s|
      ensures s[i].version < s[j].version
    {
      assert s[j] == rest[j - 1];
      if i > 0 {
        assert s[i] == rest[i - 1];
      }
    }
  }

  /** For an ascending catalog, the pending migrations are applied in ascending version order. */
  lemma {:induction false} PendingAscending(catalog: seq<Migration>, current: i32)
    requires StrictlyIncreasing(catalog)
    ensures StrictlyIncreasing(Pending(catalog, current))
  {
    if catalog != [] {
      var tail := catalog[1..];
      assert StrictlyIncreasing(tail) by {
        forall i, j | 0 <= i < j < |tail|
          ensures tail[i].version < tail[j].version
        {
          assert tail[i] == catalog[i + 1] && tail[j] == catalog[j + 1];
        }
      }
      PendingAscending(tail, current);
      var rest := Pending(tail, current);
      if catalog[0].version > current {
        forall n | n in rest
          ensures catalog[0].version < n.version
        {
          var k :| 0 <= k < |tail| && tail[k] == n;
          assert catalog[k + 1] == n;
        }
        ConsIncreasing(catalog[0], rest);
      }
    }
  }

  function RecordFor(sha256: string -> Digest, m: Migration, appliedAt: int): MigrationRecord {
    MigrationRecord(m.version, m.name, appliedAt, Checksum(sha256, m.upSql))
  }

  function Versions(ms: seq<Migration>): set<i32> {
    set m | m in ms :: m.version
  }

  /** No two entries of `ms` share a version. */
  predicate DistinctVersions(ms: seq<Migration>) {
    forall i, j :: 0 <= i < j < |ms| ==> ms[i].version != ms[j].version
  }

  /** The table after recording each migration of `ms` in turn. */
  function RecordAll(records: map<i32, MigrationRecord>, ms: seq<Migration>,
                     appliedAt: i32 -> int, sha256: string -> Digest)
    : (r: map<i32, MigrationRecord>)
    ensures r.Keys == records.Keys + Versions(ms)
    ensures forall m :: m in ms ==> r[m.version].version == m.version
    ensures forall v :: v in records && v !in Versions(ms) ==> r[v] == records[v]
  {
    if ms == [] then records
    else
      var last := ms[|ms| - 1];
      var front := ms[..|ms| - 1];
      assert forall m :: m in ms <==> m in front || m == last;
      RecordAll(records, front, appliedAt, sha256)[last.version := RecordFor(sha256, last, appliedAt(last.version))]
  }

  /** Dropping the last migration keeps the versions distinct. */
  lemma DistinctVersionsFront(ms: seq<Migration>)
    requires ms != [] && DistinctVersions(ms)
    ensures DistinctVersions(ms[..|ms| - 1])
  {
    var front := ms[..|ms| - 1];
    forall i, j | 0 <= i < j < |front|
      ensures front[i].version != front[j].version
    {
      assert front[i] == ms[i] && front[j] == ms[j];
    }
  }

  /** With distinct versions, the row of the `k`-th recorded migration is that migration's own. */
  lemma {:induction false} RecordAllRow(records: map<i32, MigrationRecord>, ms: seq<Migration>,
                                        appliedAt: i32 -> int, sha256: string -> Digest, k: nat)
    requires DistinctVersions(ms) && k < |ms|
    ensures RecordAll(records, ms, appliedAt, sha256)[ms[k].version] == RecordFor(sha256, ms[k], appliedAt(ms[k].version))
  {
    if k < |ms| - 1 {
      var front := ms[..|ms| - 1];
      DistinctVersionsFront(ms);
      RecordAllRow(records, front, appliedAt, sha256, k);
      assert front[k] == ms[k];
      assert ms[k].version != ms[|ms| - 1].version;
    }
  }

  /**
   * When the recorded migrations have distinct versions, each one's row holds
   * its own version, name, time and checksum.
   */
  lemma RecordAllRows(records: map<i32, MigrationRecord>, ms: seq<Migration>,
                      appliedAt: i32 -> int, sha256: string -> Digest)
    requires DistinctVersions(ms)
    ensures forall m :: m in ms ==>
      RecordAll(records, ms, appliedAt, sha256)[m.version] == RecordFor(sha256, m, appliedAt(m.version))
  {
    forall m | m in ms
      ensures RecordAll(records, ms, appliedAt, sha256)[m.version] == RecordFor(sha256, m, appliedAt(m.version))
    {
      var k :| 0 <= k < |ms| && ms[k] == m;
      RecordAllRow(records, ms, appliedAt, sha256, k);
    }
  }

  /** The statements executed by applying each migration of `ms` in turn. */
  function StatementsOf(ms: seq<Migration>, split: bool): seq<string> {
    if ms == [] then []
    else StatementsOf(ms[..|ms| - 1], split) + Statements(ms[|ms| - 1].upSql, split)
  }

  lemma ConcatAssociative<T>(a: seq<T>, b: seq<T>, c: seq<T>)
    ensures (a + b) + c == a + (b + c)
  {
  }

  lemma AppliedStep(records: map<i32, MigrationRecord>, ms: seq<Migration>, i: nat,
                    appliedAt: i32 -> int, sha256: string -> Digest, split: bool)
    requires i < |ms|
    ensures RecordAll(records, ms[..i + 1], appliedAt, sha256) ==
      RecordAll(records, ms[..i], appliedAt, sha256)[ms[i].version := RecordFor(sha256, ms[i], appliedAt(ms[i].version))]
    ensures StatementsOf(ms[..i + 1], split) == StatementsOf(ms[..i], split) + Statements(ms[i].upSql, split)
  {
    assert ms[..i + 1][..i] == ms[..i];
  }

  /**
   * Running every pending migration leaves nothing pending: the new current
   * version is at least every catalog version. This is why a second
   * `migrate_up` applies nothing.
   */
  lemma UpToDateAfterMigrating(catalog: seq<Migration>, records: map<i32, MigrationRecord>,
                               appliedAt: i32 -> int, sha256: string -> Digest)
    ensures var after := RecordAll(records, Pending(catalog, MaxVersion(records.Keys)), appliedAt, sha256);
      Pending(catalog, MaxVersion(after.Keys)) == []
  {
    var current := MaxVersion(records.Keys);
    var p := Pending(catalog, current);
    var after := RecordAll(records, p, appliedAt, sha256);
    var latest := MaxVersion(after.Keys);
    assert current <= latest by {
      if records.Keys == {} {
        if p != [] {
          assert p[0].version in after.Keys;
        }
      }
    }
    forall m | m in catalog
      ensures m.version <= latest
    {
      if m.version > current {
        assert m in p;
        assert m.version in after.Keys;
      }
    }
  }

  /** Once every pending migration is recorded, nothing is pending any more. */
  lemma MigratedAll(catalog: seq<Migration>, records: map<i32, MigrationRecord>,
                    appliedAt: i32 -> int, sha256: string -> Digest, applied: nat)
    requires applied == |PendingFor(catalog, records)|
    ensures PendingFor(catalog, RecordAll(records, PendingFor(catalog, records)[..applied], appliedAt, sha256)) == []
  {
    var p := PendingFor(catalog, records);
    assert p[..applied] == p;
    UpToDateAfterMigrating(catalog, records, appliedAt, sha256);
  }

  /** In an ascending catalog the last entry has the largest version. */
  lemma LastIsLargest(catalog: seq<Migration>)
    requires StrictlyIncreasing(catalog) && catalog != []
    ensures forall m :: m in catalog ==> m.version <= catalog[|catalog| - 1].version
  {
    forall m | m in catalog
      ensures m.version <= catalog[|catalog| - 1].version
    {
      var k :| 0 <= k < |catalog| && catalog[k] == m;
      if k < |catalog| - 1 {
        assert catalog[k].version < catalog[|catalog| - 1].version;
      }
    }
  }

  /**
   * For an ascending catalog with something pending, migrating brings the
   * current version to the catalog's last version.
   */
  lemma ReachesLatestVersion(catalog: seq<Migration>, records: map<i32, MigrationRecord>,
                             appliedAt: i32 -> int, sha256: string -> Digest)
    requires StrictlyIncreasing(catalog)
    requires Pending(catalog, MaxVersion(records.Keys)) != []
    ensures var after := RecordAll(records, Pending(catalog, MaxVersion(records.Keys)), appliedAt, sha256);
      MaxVersion(after.Keys) == catalog[|catalog| - 1].version
  {
    var current := MaxVersion(records.Keys);
    var p := Pending(catalog, current);
    var after := RecordAll(records, p, appliedAt, sha256);
    var last := catalog[|catalog| - 1];
    LastIsLargest(catalog);
    assert p[0] in catalog && p[0].version > current;
    assert last in catalog && current < last.version;
    assert last in p;
    assert last.version in Versions(p);
    forall j | j in after.Keys
      ensures j <= last.version
    {
      if j in records.Keys {
        assert IsMax(records.Keys, current);
      } else {
        assert j in Versions(p);
        var n :| n in p && n.version == j;
        assert n in catalog;
      }
    }
    assert IsMax(after.Keys, last.version);
    MaxUnique(after.Keys, MaxVersion(after.Keys), last.version);
  }

  /** A transaction's snapshot of the state it may roll back to. */
  datatype Transaction = Transaction(records: map<i32, MigrationRecord>, schema: seq<string>)

  /**
   * A database holding the `schema_migrations` table and the statements
   * applied to its schema. Every operation may fail, with some error text.
   */
  class Database {
    var tableExists: bool
    var records: map<i32, MigrationRecord>
    var schema: seq<string>

    /** A database nobody has initialised yet. */
    constructor Fresh()
      ensures !tableExists && records == map[] && schema == []
    {
      tableExists, records, schema := false, map[], [];
    }

    /** `CREATE TABLE IF NOT EXISTS schema_migrations`: never touches existing rows. */
    method CreateMigrationsTable() returns (err: Option<string>)
      modifies this`tableExists
      ensures err.None? ==> tableExists
      ensures err.Some? ==> tableExists == old(tableExists)
    {
      var fails: bool := *;
      if fails {
        var cause: string := *;
        err := Some(cause);
      } else {
        tableExists := true;
        err := None;
      }
    }

    /** `SELECT MAX(version) FROM schema_migrations`, defaulting to 0. */
    method SelectMaxVersion() returns (r: Result<i32, string>)
      requires tableExists
      ensures r.Ok? ==> r.value == MaxVersion(records.Keys)
    {
      var fails: bool := *;
      if fails {
        var cause: string := *;
        r := Err(cause);
      } else {
        r := Ok(MaxVersion(records.Keys));
      }
    }

    method Begin() returns (tx: Result<Transaction, string>)
      ensures tx.Ok? ==> tx.value == Transaction(records, schema)
    {
      var fails: bool := *;
      if fails {
        var cause: string := *;
        tx := Err(cause);
      } else {
        tx := Ok(Transaction(records, schema));
      }
    }

    /** Runs one statement inside the open transaction. */
    method Execute(stmt: string) returns (err: Option<string>)
      modifies this`schema
      ensures err.None? ==> schema == old(schema) + [stmt]
      ensures err.Some? ==> schema == old(schema)
    {
      var fails: bool := *;
      if fails {
        var cause: string := *;
        err := Some(cause);
      } else {
        schema := schema + [stmt];
        err := None;
      }
    }

    /** `INSERT INTO schema_migrations`; `version` is the primary key, so a second row for it is refused. */
    method Insert(rec: MigrationRecord) returns (err: Option<string>)
      requires tableExists
      modifies this`records
      ensures err.None? ==> rec.version !in old(records) && records == old(records)[rec.version := rec]
      ensures err.Some? ==> records == old(records)
    {
      var fails: bool := *;
      if fails || rec.version in records {
        var cause: string := *;
        err := Some(cause);
      } else {
        records := records[rec.version := rec];
        err := None;
      }
    }

    method Commit() returns (err: Option<string>)
    {
      var fails: bool := *;
      if fails {
        var cause: string := *;
        err := Some(cause);
      } else {
        err := None;
      }
    }

    /** Dropping an uncommitted transaction: everything since `Begin` is undone. */
    method Rollback(tx: Transaction)
      modifies this`records, this`schema
      ensures records == tx.records && schema == tx.schema
    {
      records, schema := tx.records, tx.schema;
    }
  }

  /**
   * `PostgresqlMigrationManager` / `SqliteMigrationManager`: a pool on one
   * database, the compiled-in catalog (`get_all_migrations`) and the copy's
   * dialect. SHA-256 (FIPS 180-4) is a parameter.
   */
  class MigrationManager {
    const db: Database
    const catalog: seq<Migration>
    const dialect: Dialect
    const sha256: string -> Digest

    constructor (db: Database, catalog: seq<Migration>, dialect: Dialect, sha256: string -> Digest)
      ensures this.db == db && this.catalog == catalog && this.dialect == dialect && this.sha256 == sha256
    {
      this.db, this.catalog, this.dialect, this.sha256 := db, catalog, dialect, sha256;
    }

    /** `init`: creates the table if absent; existing rows and schema are left alone. */
    method Init() returns (r: Result<(), HWSystemError>)
      modifies db`tableExists
      ensures r.Ok? ==> db.tableExists
      ensures r.Err? ==> db.tableExists == old(db.tableExists) && IsStageFailure(dialect, CreateTable, 0, r.error)
      ensures db.records == old(db.records) && db.schema == old(db.schema)
    {
      var err := db.CreateMigrationsTable();
      if err.Some? {
        return Err(StageError(dialect, CreateTable, 0, err.value));
      }
      r := Ok(());
    }

    /** `get_current_version`: the largest recorded version, 0 for an empty table. */
    method GetCurrentVersion() returns (r: Result<i32, HWSystemError>)
      requires db.tableExists
      ensures r.Ok? ==> r.value == MaxVersion(db.records.Keys)
      ensures r.Ok? && db.records != map[] ==> IsMax(db.records.Keys, r.value)
      ensures r.Ok? && db.records == map[] ==> r.value == 0
      ensures r.Err? ==> IsStageFailure(dialect, QueryVersion, 0, r.error)
    {
      var max := db.SelectMaxVersion();
      if max.Err? {
        return Err(StageError(dialect, QueryVersion, 0, max.error));
      }
      r := Ok(max.value);
    }

    /**
     * The closing `get_current_version` of `migrate_up`, whose value is only
     * logged: what matters is whether it fails.
     */
    method ReadVersionAfterMigrating() returns (err: Option<HWSystemError>)
      requires db.tableExists
      ensures err.Some? ==> IsStageFailure(dialect, QueryVersion, 0, err.value)
    {
      var current := GetCurrentVersion();
      err := if current.Err? then Some(current.error) else None;
    }

    /** One round of the splitting loop: a piece that trims to nothing is skipped. */
    method ExecutePiece(piece: string) returns (err: Option<string>)
      modifies db`schema
      ensures err.None? ==> db.schema == old(db.schema) + Kept(piece)
    {
      var stmt := Trim(piece);
      if stmt == "" {
        return None;
      }
      err := db.Execute(stmt);
    }

    /**
     * The execution step of `apply_migration`, inside the open transaction:
     * on success exactly the migration's statements were applied, in order.
     * After a failure the caller rolls back, so what was applied is left open.
     */
    method ExecuteStatements(sql: string) returns (err: Option<string>)
      modifies db`schema
      ensures err.None? ==> db.schema == old(db.schema) + Statements(sql, SplitsStatements(dialect))
    {
      if !SplitsStatements(dialect) {
        err := db.Execute(sql);
        return;
      }
      ghost var schema0 := db.schema;
      var pieces := Split(sql, ';');
      var i := 0;
      while i < |pieces|
        invariant 0 <= i <= |pieces|
        invariant db.schema == schema0 + NonEmptyTrimmed(pieces[..i])
      {
        ghost var done := NonEmptyTrimmed(pieces[..i]);
        err := ExecutePiece(pieces[i]);
        if err.Some? {
          return;
        }
        ConcatAssociative(schema0, done, Kept(pieces[i]));
        NonEmptyTrimmedStep(pieces, i);
        i := i + 1;
      }
      assert pieces[..|pieces|] == pieces;
      err := None;
    }

    /**
     * `apply_migration`: begin, execute the statements, insert the record
     * (version, name, `appliedAt`, hex SHA-256 of `up_sql`), commit. On
     * success exactly one record is added and the statements are applied; on
     * any failure nothing changes and the error names the failing step.
     */
    method ApplyMigration(m: Migration, appliedAt: int) returns (r: Result<(), HWSystemError>)
      requires db.tableExists
      modifies db`records, db`schema
      ensures r.Ok? ==>
        && m.version !in old(db.records)
        && db.records == old(db.records)[m.version := RecordFor(sha256, m, appliedAt)]
        && db.schema == old(db.schema) + Statements(m.upSql, SplitsStatements(dialect))
      ensures r.Err? ==>
        && db.records == old(db.records) && db.schema == old(db.schema)
        && IsApplyFailure(dialect, m.version, r.error)
    {
      var tx := db.Begin();
      if tx.Err? {
        return Err(StageError(dialect, BeginTx, m.version, tx.error));
      }
      var snapshot := tx.value;
      var executed := ExecuteStatements(m.upSql);
      if executed.Some? {
        db.Rollback(snapshot);
        return Err(StageError(dialect, Execute, m.version, executed.value));
      }
      var inserted := db.Insert(RecordFor(sha256, m, appliedAt));
      if inserted.Some? {
        db.Rollback(snapshot);
        return Err(StageError(dialect, RecordRow, m.version, inserted.value));
      }
      var committed := db.Commit();
      if committed.Some? {
        db.Rollback(snapshot);
        return Err(StageError(dialect, Commit, m.version, committed.value));
      }
      r := Ok(());
    }

    /**
     * The loop of `migrate_up`: applies `pending` in order and stops at the
     * first failure, keeping the migrations committed before it.
     */
    method ApplyPending(pending: seq<Migration>, appliedAt: i32 -> int)
      returns (r: Result<(), HWSystemError>, ghost applied: nat)
      requires db.tableExists
      modifies db`records, db`schema
      ensures applied <= |pending|
      ensures db.records == RecordAll(old(db.records), pending[..applied], appliedAt, sha256)
      ensures db.schema == old(db.schema) + StatementsOf(pending[..applied], SplitsStatements(dialect))
      ensures r.Ok? <==> applied == |pending|
      ensures r.Err? ==> IsApplyFailure(dialect, pending[applied].version, r.error)
    {
      ghost var records0, schema0 := db.records, db.schema;
      var i := 0;
      while i < |pending|
        invariant 0 <= i <= |pending|
        invariant db.records == RecordAll(records0, pending[..i], appliedAt, sha256)
        invariant db.schema == schema0 + StatementsOf(pending[..i], SplitsStatements(dialect))
      {
        var m := pending[i];
        ghost var done := StatementsOf(pending[..i], SplitsStatements(dialect));
        var res := ApplyMigration(m, appliedAt(m.version));
        if res.Err? {
          return Err(res.error), i;
        }
        AppliedStep(records0, pending, i, appliedAt, sha256, SplitsStatements(dialect));
        ConcatAssociative(schema0, done, Statements(m.upSql, SplitsStatements(dialect)));
        i := i + 1;
      }
      assert pending[..|pending|] == pending;
      return Ok(()), |pending|;
    }

    /**
     * `migrate_up` once the current version is known: applies the catalog
     * entries newer than `current` in catalog order, stops at the first
     * failure, and reads the version again at the end.
     */
    method MigrateFrom(current: i32, appliedAt: i32 -> int) returns (r: Result<(), HWSystemError>, ghost applied: nat)
      requires db.tableExists && current == MaxVersion(db.records.Keys)
      modifies db`records, db`schema
      ensures applied <= |Pending(catalog, current)|
      ensures db.records == RecordAll(old(db.records), Pending(catalog, current)[..applied], appliedAt, sha256)
      ensures db.schema == old(db.schema) + StatementsOf(Pending(catalog, current)[..applied], SplitsStatements(dialect))
      ensures r.Ok? ==> applied == |Pending(catalog, current)|
      ensures r.Err? ==>
        || IsStageFailure(dialect, QueryVersion, 0, r.error)
        || (applied < |Pending(catalog, current)| && IsApplyFailure(dialect, Pending(catalog, current)[applied].version, r.error))
      ensures r.Ok? ==> PendingFor(catalog, db.records) == []
    {
      ghost var records0 := db.records;
      var pending := Pending(catalog, current);
      if |pending| == 0 {
        assert pending[..0] == pending;
        MigratedAll(catalog, records0, appliedAt, sha256, 0);
        return Ok(()), 0;
      }
      r, applied := ApplyPending(pending, appliedAt);
      if r.Err? {
        return;
      }
      MigratedAll(catalog, records0, appliedAt, sha256, applied);
      var reread := ReadVersionAfterMigrating();
      if reread.Some? {
        r := Err(reread.value);
      }
    }

    /**
     * `migrate_up`: reads the current version, applies the pending catalog
     * entries in catalog order and stops at the first failure. `applied`
     * counts the migrations committed by this call: they are exactly the
     * first `applied` pending ones, and every one before the failing one
     * stays committed. With nothing pending the state is unchanged.
     */
    method MigrateUp(appliedAt: i32 -> int) returns (r: Result<(), HWSystemError>, ghost applied: nat)
      requires db.tableExists
      modifies db`records, db`schema
      ensures applied <= |PendingFor(catalog, old(db.records))|
      ensures db.records == RecordAll(old(db.records), PendingFor(catalog, old(db.records))[..applied], appliedAt, sha256)
      ensures db.schema == old(db.schema) + StatementsOf(PendingFor(catalog, old(db.records))[..applied], SplitsStatements(dialect))
      ensures r.Ok? ==> applied == |PendingFor(catalog, old(db.records))|
      ensures r.Err? ==>
        || IsStageFailure(dialect, QueryVersion, 0, r.error)
        || (applied < |PendingFor(catalog, old(db.records))|
            && IsApplyFailure(dialect, PendingFor(catalog, old(db.records))[applied].version, r.error))
      ensures r.Ok? ==> PendingFor(catalog, db.records) == []
    {
      var current := GetCurrentVersion();
      if current.Err? {
        r, applied := Err(current.error), 0;
        assert PendingFor(catalog, db.records)[..0] == [];
        return;
      }
      r, applied := MigrateFrom(current.value, appliedAt);
    }

    /**
     * What each storage constructor does with its manager: `init`, then
     * `migrate_up`, stopping at the first error.
     */
    method InitThenMigrate(appliedAt: i32 -> int) returns (r: Result<(), HWSystemError>)
      modifies db`tableExists, db`records, db`schema
      ensures r.Ok? ==> db.tableExists && PendingFor(catalog, db.records) == []
      ensures !db.tableExists ==> r.Err? && db.records == old(db.records) && db.schema == old(db.schema)
    {
      r := Init();
      if r.Err? {
        return;
      }
      ghost var applied;
      r, applied := MigrateUp(appliedAt);
    }
  }
}
