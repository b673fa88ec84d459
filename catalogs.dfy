/**
 * The compiled-in migration catalogs (`get_all_migrations`). The PostgreSQL
 * and the repository SQLite copies ship two migrations, the storage SQLite
 * copy ships only the first. The SQL texts are parameters: their content is
 * opaque to the manager, which only splits, executes and hashes them.
 */
module MigrationCatalogs {
  import opened Migrations
  import opened Hex

  /** Versions 1 `create_table_with_indexes` and 2 `add_test_data`. */
  function TwoStepCatalog(schemaSql: string, testDataSql: string): (c: seq<Migration>)
    ensures |c| == 2 && c[0].version == 1 && c[1].version == 2
    ensures c[0].name == "create_table_with_indexes" && c[1].name == "add_test_data"
    ensures StrictlyIncreasing(c)
  {
    [Migration(1, "create_table_with_indexes", schemaSql), Migration(2, "add_test_data", testDataSql)]
  }

  /** Version 1 `create_table_with_indexes` only. */
  function OneStepCatalog(schemaSql: string): (c: seq<Migration>)
    ensures |c| == 1 && c[0].version == 1 && c[0].name == "create_table_with_indexes"
    ensures StrictlyIncreasing(c)
  {
    [Migration(1, "create_table_with_indexes", schemaSql)]
  }

  /**
   * On an empty `schema_migrations` table both migrations are pending, and
   * migrating records versions 1 and 2 and reaches version 2.
   */
  lemma TwoStepFromEmpty(schemaSql: string, testDataSql: string, appliedAt: i32 -> int, sha256: string -> Digest)
    ensures var c := TwoStepCatalog(schemaSql, testDataSql);
      && Pending(c, MaxVersion({})) == c
      && RecordAll(map[], c, appliedAt, sha256).Keys == {1, 2}
      && MaxVersion(RecordAll(map[], c, appliedAt, sha256).Keys) == 2
  {
    var c := TwoStepCatalog(schemaSql, testDataSql);
    assert Pending(c[1..], 0) == c[1..];
    assert Pending(c, 0) == c;
    assert Versions(c) == {1, 2} by {
      assert c[0] in c && c[1] in c;
      assert forall m :: m in c ==> m == c[0] || m == c[1];
    }
    ReachesLatestVersion(c, map[], appliedAt, sha256);
  }

  /** With version 1 already recorded only `add_test_data` is pending. */
  lemma TwoStepAfterFirst(schemaSql: string, testDataSql: string, records: map<i32, MigrationRecord>)
    requires records.Keys == {1}
    ensures var c := TwoStepCatalog(schemaSql, testDataSql);
      Pending(c, MaxVersion(records.Keys)) == [c[1]]
  {
    var c := TwoStepCatalog(schemaSql, testDataSql);
    assert MaxVersion(records.Keys) == 1;
    assert Pending(c[1..][1..], 1) == [];
  }

  /** The storage copy's catalog on an empty table: one migration, ending at version 1. */
  lemma OneStepFromEmpty(schemaSql: string, appliedAt: i32 -> int, sha256: string -> Digest)
    ensures var c := OneStepCatalog(schemaSql);
      && Pending(c, MaxVersion({})) == c
      && MaxVersion(RecordAll(map[], c, appliedAt, sha256).Keys) == 1
  {
    var c := OneStepCatalog(schemaSql);
    assert Pending(c[1..], 0) == [];
    assert Pending(c, 0) == c;
    ReachesLatestVersion(c, map[], appliedAt, sha256);
  }

  /**
   * A database already at a version at or past the catalog's last has
   * nothing pending: `migrate_up` returns before touching anything.
   */
  lemma NothingPendingWhenCurrent(c: seq<Migration>, records: map<i32, MigrationRecord>)
    requires StrictlyIncreasing(c) && c != []
    requires c[|c| - 1].version <= MaxVersion(records.Keys)
    ensures Pending(c, MaxVersion(records.Keys)) == []
  {
    LastIsLargest(c);
  }
}
