/**
  Schema bookkeeping: the append-only `schema_version` log, the migration
  check, the integrity report, the statistics and the repair that deletes
  orphaned index rows.
*/
module Schema {
  import opened Common
  import opened Models
  import opened Database

  /** `SCHEMA_VERSION`. */
  const SchemaVersion: int := 1

  /** `SchemaError`: the SQL a function runs failed (here: a table it reads is missing). */
  datatype SchemaError = StatisticsFailed | RepairFailed

  // ---------------------------------------------------------------------------
  // Versions

  /** `get_schema_version`: 0 without a version table or with an empty one, else the last version written. */
  function GetSchemaVersion(db: Db): (v: int)
    ensures db.versionLog.None? || db.versionLog.value == [] ==> v == 0
    ensures db.versionLog.Some? && db.versionLog.value != [] ==> v == db.versionLog.value[|db.versionLog.value| - 1]
  {
    match db.versionLog
    case None => 0
    case Some(log) => if log == [] then 0 else log[|log| - 1]
  }

  /** The log after `set_schema_version(v)`: the table is created if need be and `v` appended. */
  function AppendVersion(db: Db, v: int): (r: Db)
    ensures DbValid(db) ==> DbValid(r)
    ensures r.versionLog == Some((if db.versionLog.Some? then db.versionLog.value else []) + [v])
    ensures r.repos == db.repos && r.indexes == db.indexes
  {
    db.(fileExists := true, versionLog := Some((if db.versionLog.Some? then db.versionLog.value else []) + [v]))
  }

  /** Whatever was logged before, setting a version makes it the version read back. */
  lemma SetThenGet(db: Db, v: int)
    requires DbValid(db)
    ensures GetSchemaVersion(AppendVersion(db, v)) == v
  {
  }

  /** Setting versions never forgets earlier entries: the old log is a prefix of the new one. */
  lemma AppendKeepsHistory(db: Db, v: int)
    requires DbValid(db) && db.versionLog.Some?
    ensures AppendVersion(db, v).versionLog.value[..|db.versionLog.value|] == db.versionLog.value
  {
  }

  /** `set_schema_version(version)`. */
  method SetSchemaVersion(store: Store, version: int)
    requires store.Valid()
    modifies store
    ensures store.Valid()
    ensures store.db == AppendVersion(old(store.db), version)
    ensures GetSchemaVersion(store.db) == version
  {
    store.db := AppendVersion(store.db, version);
  }

  /** `check_migration_needed`: `(current < SCHEMA_VERSION, current, SCHEMA_VERSION)`. */
  function CheckMigrationNeeded(db: Db): (r: (bool, int, int))
    ensures r.1 == GetSchemaVersion(db) && r.2 == SchemaVersion
    ensures r.0 <==> r.1 < r.2
  {
    var current := GetSchemaVersion(db);
    (current < SchemaVersion, current, SchemaVersion)
  }

  /** A database without a version table needs migrating; once the current version is set it does not. */
  lemma MigrationLifecycle(db: Db)
    requires DbValid(db)
    ensures db.versionLog.None? ==> CheckMigrationNeeded(db).0
    ensures !CheckMigrationNeeded(AppendVersion(db, SchemaVersion)).0
  {
  }

  // ---------------------------------------------------------------------------
  // Integrity

  /** Whether an index row points at a repository that is not in the table. */
  predicate IsOrphan(repos: seq<Repository>, e: SearchIndex) {
    forall i :: 0 <= i < |repos| ==> repos[i].id != Some(e.repoId)
  }

  /** `SELECT ... FROM searchindex WHERE repo_id NOT IN (SELECT id FROM repository)`. */
  function Orphans(repos: seq<Repository>, indexes: seq<SearchIndex>): (r: seq<SearchIndex>)
    ensures |r| <= |indexes|
    ensures forall e :: e in r <==> e in indexes && IsOrphan(repos, e)
  {
    if indexes == [] then []
    else (if IsOrphan(repos, indexes[0]) then [indexes[0]] else []) + Orphans(repos, indexes[1..])
  }

  /** The index rows a repair keeps: those whose repository exists. */
  function Owned(repos: seq<Repository>, indexes: seq<SearchIndex>): (r: seq<SearchIndex>)
    ensures |r| <= |indexes|
    ensures forall e :: e in r <==> e in indexes && !IsOrphan(repos, e)
  {
    if indexes == [] then []
    else (if IsOrphan(repos, indexes[0]) then [] else [indexes[0]]) + Owned(repos, indexes[1..])
  }

  /** Repair splits the table into the rows it deletes and the rows it keeps, losing none. */
  lemma {:induction false} OrphansPartition(repos: seq<Repository>, indexes: seq<SearchIndex>)
    ensures |Orphans(repos, indexes)| + |Owned(repos, indexes)| == |indexes|
    decreases |indexes|
  {
    if indexes != [] {
      OrphansPartition(repos, indexes[1..]);
    }
  }

  /** What is left after deleting the orphans has no orphan. */
  lemma {:induction false} OwnedHasNoOrphans(repos: seq<Repository>, indexes: seq<SearchIndex>)
    ensures Orphans(repos, Owned(repos, indexes)) == []
    decreases |indexes|
  {
    if indexes != [] {
      var rest := Owned(repos, indexes[1..]);
      OwnedHasNoOrphans(repos, indexes[1..]);
      if !IsOrphan(repos, indexes[0]) {
        assert Owned(repos, indexes) == [indexes[0]] + rest;
        assert ([indexes[0]] + rest)[0] == indexes[0];
        assert ([indexes[0]] + rest)[1..] == rest;
      } else {
        assert Owned(repos, indexes) == [] + rest == rest;
      }
    }
  }

  lemma {:induction false} OwnedKeyed(repos: seq<Repository>, indexes: seq<SearchIndex>)
    requires KeyedIndexes(indexes)
    ensures KeyedIndexes(Owned(repos, indexes))
    decreases |indexes|
  {
    if indexes != [] {
      OwnedKeyed(repos, indexes[1..]);
      var rest := Owned(repos, indexes[1..]);
      forall k | 0 <= k < |rest|
        ensures rest[k].id != indexes[0].id
      {
        assert rest[k] in indexes[1..];
      }
    }
  }

  /** The report `validate_schema` returns; the last two entries are absent when their checks did not run. */
  datatype ValidationReport = ValidationReport(
    databaseExists: bool,
    schemaVersion: int,
    tablesExist: bool,
    foreignKeysEnabled: bool,
    indexesExist: bool,
    dataIntegrity: bool,
    existingTables: Option<seq<string>>,
    orphanedIndexes: Option<nat>)

  /** The two tables `validate_schema` requires that exist, in the order it checks them. */
  function ExistingTables(db: Db): seq<string>
  {
    (if db.repositoryTable then ["repository"] else []) + (if db.searchIndexTable then ["searchindex"] else [])
  }

  /** `validate_schema`. */
  function ValidateSchema(db: Db): (r: ValidationReport)
    ensures r.databaseExists <==> db.fileExists
    ensures r.dataIntegrity ==> r.tablesExist && Orphans(db.repos, db.indexes) == []
  {
    if !db.fileExists then ValidationReport(false, 0, false, false, false, false, None, None)
    else
      var existing := ExistingTables(db);
      var tablesExist := |existing| == 2;
      var orphans := if tablesExist then Some(|Orphans(db.repos, db.indexes)|) else None;
      ValidationReport(true, GetSchemaVersion(db), tablesExist, db.foreignKeys, db.namedIndexes > 0,
                       tablesExist && orphans.value == 0, Some(existing), orphans)
  }

  /** The report's flags: defaults for a missing file; otherwise tables iff both exist, integrity iff no orphans. */
  lemma ValidateSchemaFlags(db: Db)
    ensures !db.fileExists ==> ValidateSchema(db) == ValidationReport(false, 0, false, false, false, false, None, None)
    ensures db.fileExists ==> var r := ValidateSchema(db);
      && r.databaseExists && r.schemaVersion == GetSchemaVersion(db)
      && (r.tablesExist <==> db.repositoryTable && db.searchIndexTable)
      && (r.dataIntegrity <==> r.tablesExist && Orphans(db.repos, db.indexes) == [])
      && (r.orphanedIndexes.Some? <==> r.tablesExist)
      && r.foreignKeysEnabled == db.foreignKeys
      && (r.indexesExist <==> db.namedIndexes > 0)
  {
  }

  /**
    After `create_db_and_tables` on a database missing a table, or after
    `reset_database`, validation finds both tables and the named indexes.
  */
  lemma CreatedSchemaValidates(db: Db)
    requires DbValid(db) && !(db.repositoryTable && db.searchIndexTable)
    ensures var r := ValidateSchema(CreateAll(db));
      r.databaseExists && r.tablesExist && r.indexesExist
  {
  }

  // ---------------------------------------------------------------------------
  // Statistics

  function CountIndexed(repos: seq<Repository>): (n: nat)
    ensures n <= |repos|
  {
    if repos == [] then 0 else (if repos[0].indexed then 1 else 0) + CountIndexed(repos[1..])
  }

  /** `get_database_statistics`: file size and three counts. */
  datatype Statistics = Statistics(
    sizeBytes: nat,
    repositoryCount: nat,
    searchIndexCount: nat,
    indexedRepositoryCount: nat)

  function GetDatabaseStatistics(db: Db): (r: Result<Statistics, SchemaError>)
    ensures r.Err? <==> db.fileExists && !(db.repositoryTable && db.searchIndexTable)
    ensures r.Ok? ==> r.value.indexedRepositoryCount <= r.value.repositoryCount
  {
    if !db.fileExists then Ok(Statistics(0, 0, 0, 0))
    else if !db.repositoryTable || !db.searchIndexTable then Err(StatisticsFailed)
    else Ok(Statistics(db.sizeBytes, |db.repos|, |db.indexes|, CountIndexed(db.repos)))
  }

  /** Zeros for a missing file; otherwise the counts of rows, index rows and indexed rows, the last bounded by the first. */
  lemma StatisticsCounts(db: Db)
    ensures !db.fileExists ==> GetDatabaseStatistics(db) == Ok(Statistics(0, 0, 0, 0))
    ensures GetDatabaseStatistics(db).Ok? && db.fileExists ==>
      var s := GetDatabaseStatistics(db).value;
      && s.repositoryCount == |db.repos| && s.searchIndexCount == |db.indexes|
      && s.indexedRepositoryCount <= s.repositoryCount
      && (s.indexedRepositoryCount == s.repositoryCount <==> forall i :: 0 <= i < |db.repos| ==> db.repos[i].indexed)
  {
    if GetDatabaseStatistics(db).Ok? && db.fileExists {
      AllIndexedIff(db.repos);
    }
  }

  lemma {:induction false} AllIndexedIff(repos: seq<Repository>)
    ensures CountIndexed(repos) == |repos| <==> forall i :: 0 <= i < |repos| ==> repos[i].indexed
    decreases |repos|
  {
    if repos != [] {
      AllIndexedIff(repos[1..]);
      assert forall i :: 1 <= i < |repos| ==> repos[i] == repos[1..][i - 1];
    }
  }

  // ---------------------------------------------------------------------------
  // Repair

  /** The report `repair_database` returns. */
  datatype RepairReport = RepairReport(
    backupCreated: bool,
    foreignKeysFixed: bool,
    orphanedIndexesRemoved: nat,
    schemaVersionSet: bool)

  /**
    What `repair_database` reports for its backup step as written: the boolean
    parameter `create_backup` hides the module function of the same name, so the
    call raises TypeError, which the step swallows.
  */
  function BackupCreatedAsWritten(createBackup: bool, backupWouldSucceed: bool): (created: bool)
  {
    false
  }

  /** The backup step as evidently intended: a backup is made when asked for, unless making it fails. */
  function BackupCreated(createBackup: bool, backupWouldSucceed: bool): (created: bool)
  {
    createBackup && backupWouldSucceed
  }

  /**
    The outcome of `repair_database` once its backup step reported
    `backupCreated`: the report and the database afterwards. Fails, changing
    nothing, when a table the DELETE reads is missing; otherwise the orphaned
    index rows go, and `SCHEMA_VERSION` is logged when no version was set.
  */
  function RepairResult(db: Db, backupCreated: bool): (out: (Result<RepairReport, SchemaError>, Db))
    requires DbValid(db)
    ensures DbValid(out.1)
    ensures out.0.Err? <==> !(db.repositoryTable && db.searchIndexTable)
    ensures out.0.Err? ==> out.1 == db
    ensures out.0.Ok? ==>
      && out.0.value.backupCreated == backupCreated
      && out.0.value.foreignKeysFixed
      && out.0.value.orphanedIndexesRemoved == |Orphans(db.repos, db.indexes)|
      && (out.0.value.schemaVersionSet <==> GetSchemaVersion(db) == 0)
      && out.1.repos == db.repos && Orphans(out.1.repos, out.1.indexes) == []
  {
    if !(db.repositoryTable && db.searchIndexTable) then (Err(RepairFailed), db)
    else
      OwnedKeyed(db.repos, db.indexes);
      OwnedHasNoOrphans(db.repos, db.indexes);
      var cleaned := db.(indexes := Owned(db.repos, db.indexes));
      var versionSet := GetSchemaVersion(db) == 0;
      (Ok(RepairReport(backupCreated, true, |Orphans(db.repos, db.indexes)|, versionSet)),
       if versionSet then AppendVersion(cleaned, SchemaVersion) else cleaned)
  }

  /** As written, no successful repair ever reports a backup, whatever was asked and whatever the backup would do. */
  lemma BackupNeverReported(db: Db, createBackup: bool, backupWouldSucceed: bool)
    requires DbValid(db)
    ensures var out := RepairResult(db, BackupCreatedAsWritten(createBackup, backupWouldSucceed));
      out.0.Ok? ==> !out.0.value.backupCreated
  {
  }

  /**
    The corrected repair reports a backup exactly when one was asked for and
    made; apart from that flag its report and its database are those of the
    repair as written, and the two reports differ exactly in that case.
  */
  lemma BackupReportedWhenMade(db: Db, createBackup: bool, backupWouldSucceed: bool)
    requires DbValid(db)
    ensures var written := RepairResult(db, BackupCreatedAsWritten(createBackup, backupWouldSucceed));
      var intended := RepairResult(db, BackupCreated(createBackup, backupWouldSucceed));
      && written.1 == intended.1
      && written.0.Err? == intended.0.Err?
      && (intended.0.Ok? ==> (intended.0.value.backupCreated <==> createBackup && backupWouldSucceed))
      && (intended.0.Ok? ==> written.0.value == intended.0.value.(backupCreated := false))
      && (intended.0.Ok? ==> (written.0 != intended.0 <==> createBackup && backupWouldSucceed))
  {
  }

  /** The repair steps after the backup step, with the flag that step reported. */
  method RepairWith(store: Store, backupCreated: bool) returns (r: Result<RepairReport, SchemaError>)
    requires store.Valid()
    modifies store
    ensures store.Valid()
    ensures (r, store.db) == RepairResult(old(store.db), backupCreated)
  {
    if !store.db.repositoryTable || !store.db.searchIndexTable {
      return Err(RepairFailed);
    }
    var removed := |Orphans(store.db.repos, store.db.indexes)|;
    OwnedKeyed(store.db.repos, store.db.indexes);
    store.db := store.db.(indexes := Owned(store.db.repos, store.db.indexes));
    var versionSet := false;
    if GetSchemaVersion(store.db) == 0 {
      SetSchemaVersion(store, SchemaVersion);
      versionSet := true;
    }
    r := Ok(RepairReport(backupCreated, true, removed, versionSet));
  }

  /**
    `repair_database` as written: deletes the orphaned index rows and reports
    how many, then logs `SCHEMA_VERSION` when no version was set; its backup
    flag is never set. Fails, changing nothing, when a table the DELETE reads
    is missing.
  */
  method RepairDatabase(store: Store, createBackup: bool, backupWouldSucceed: bool)
    returns (r: Result<RepairReport, SchemaError>)
    requires store.Valid()
    modifies store
    ensures store.Valid()
    ensures (r, store.db) == RepairResult(old(store.db), BackupCreatedAsWritten(createBackup, backupWouldSucceed))
    ensures r.Err? <==> !(old(store.db.repositoryTable) && old(store.db.searchIndexTable))
    ensures r.Err? ==> store.db == old(store.db)
    ensures r.Ok? ==>
      var cleaned := old(store.db).(indexes := Owned(old(store.db.repos), old(store.db.indexes)));
      && !r.value.backupCreated
      && r.value.foreignKeysFixed
      && r.value.orphanedIndexesRemoved == |Orphans(old(store.db.repos), old(store.db.indexes))|
      && (r.value.schemaVersionSet <==> GetSchemaVersion(old(store.db)) == 0)
      && store.db == (if r.value.schemaVersionSet then AppendVersion(cleaned, SchemaVersion) else cleaned)
  {
    r := RepairWith(store, BackupCreatedAsWritten(createBackup, backupWouldSucceed));
  }

  /** `repair_database` with the backup step as evidently intended. */
  method RepairDatabaseCorrected(store: Store, createBackup: bool, backupWouldSucceed: bool)
    returns (r: Result<RepairReport, SchemaError>)
    requires store.Valid()
    modifies store
    ensures store.Valid()
    ensures (r, store.db) == RepairResult(old(store.db), BackupCreated(createBackup, backupWouldSucceed))
    ensures r.Ok? ==> (r.value.backupCreated <==> createBackup && backupWouldSucceed)
  {
    r := RepairWith(store, BackupCreated(createBackup, backupWouldSucceed));
  }

  /** After a successful repair the integrity check passes and no migration is needed. */
  lemma RepairRestoresIntegrity(db: Db)
    requires DbValid(db) && db.repositoryTable && db.searchIndexTable
    ensures var cleaned := db.(indexes := Owned(db.repos, db.indexes));
      var after := if GetSchemaVersion(db) == 0 then AppendVersion(cleaned, SchemaVersion) else cleaned;
      ValidateSchema(after).dataIntegrity
      && (GetSchemaVersion(db) == 0 || GetSchemaVersion(db) >= SchemaVersion ==> !CheckMigrationNeeded(after).0)
  {
    OwnedHasNoOrphans(db.repos, db.indexes);
  }
}
