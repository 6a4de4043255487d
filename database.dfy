/**
  The SQLite layer: where the database file lives, the process-wide engine
  handle that is reused or rebuilt, the session discipline (roll back on an
  exception, always close) and the contents of the database file itself.
*/
module Database {
  import opened Common
  import opened Models
  import opened Strings

  // ---------------------------------------------------------------------------
  // DatabaseConfig

  /** `DatabaseConfig`: the database file, its directory and the SQLAlchemy URL. */
  datatype DatabaseConfig = DatabaseConfig(kodeklipDir: string, dbPath: string, databaseUrl: string)

  /** `Path(p).parent` for a path without redundant separators. */
  function Parent(p: string): string
  {
    match LastIndexOf(p, '/')
    case None => "."
    case Some(k) => if k == 0 then "/" else p[..k]
  }

  /** `Path(p).name`: what follows the last separator. */
  function Name(p: string): string
  {
    match LastIndexOf(p, '/')
    case None => p
    case Some(k) => p[k + 1..]
  }

  /** A path with a separator is its parent, a separator and its name. */
  lemma ParentAndName(p: string)
    requires '/' in p
    ensures LastIndexOf(p, '/').value == 0 ==> Parent(p) == "/" && p == "/" + Name(p)
    ensures LastIndexOf(p, '/').value > 0 ==> p == Parent(p) + "/" + Name(p)
  {
    var r := LastIndexOf(p, '/');
    var k := r.value;
    var name := p[k + 1..];
    assert Name(p) == name;
    assert p == p[..k] + "/" + name;
    if k == 0 {
      assert Parent(p) == "/";
    } else {
      assert Parent(p) == p[..k];
    }
  }

  /** A path without a separator lies in the working directory. */
  lemma ParentOfBareName(p: string)
    requires '/' !in p
    ensures Parent(p) == "." && Name(p) == p
  {
  }

  function DefaultDir(home: string): string
  {
    home + "/.kodeklip"
  }

  /** `DatabaseConfig(db_path)`; `home` is the user's home directory. */
  function MakeConfig(dbPath: Option<string>, home: string): (c: DatabaseConfig)
    ensures dbPath.None? ==> c.kodeklipDir == DefaultDir(home) && c.dbPath == DefaultDir(home) + "/db.sqlite"
    ensures dbPath.Some? ==> c.dbPath == dbPath.value && c.kodeklipDir == Parent(dbPath.value)
    ensures c.databaseUrl == "sqlite:///" + c.dbPath
  {
    match dbPath
    case None =>
      var dir := DefaultDir(home);
      var db := dir + "/db.sqlite";
      DatabaseConfig(dir, db, "sqlite:///" + db)
    case Some(p) =>
      DatabaseConfig(Parent(p), p, "sqlite:///" + p)
  }

  /** Whatever path is given, the database file is named in its directory. */
  lemma ConfigFileInDirectory(dbPath: Option<string>, home: string)
    requires dbPath.Some? ==> LastIndexOf(dbPath.value, '/').Some? && LastIndexOf(dbPath.value, '/').value > 0
    ensures var c := MakeConfig(dbPath, home); c.dbPath == c.kodeklipDir + "/" + Name(c.dbPath)
  {
    var c := MakeConfig(dbPath, home);
    if dbPath.Some? {
      ParentAndName(dbPath.value);
    } else {
      var dir := DefaultDir(home);
      assert dir + "/db.sqlite" == dir + "/" + "db.sqlite";
      assert '/' in c.dbPath by { assert c.dbPath[|dir|] == '/'; }
      assert '/' !in "db.sqlite";
      NameAfterLastSlash(dir + "/", "db.sqlite");
    }
  }

  lemma NameAfterLastSlash(prefix: string, name: string)
    requires prefix != [] && prefix[|prefix| - 1] == '/' && '/' !in name
    ensures Name(prefix + name) == name
  {
    var p := prefix + name;
    var k := LastIndexOf(p, '/').value;
    assert p[|prefix| - 1] == '/';
    assert p[|prefix|..] == name;
  }

  // ---------------------------------------------------------------------------
  // The database file

  /**
    The contents of the SQLite file: whether it exists, which of the two tables
    exist, their rows in rowid order, the `schema_version` log when that table
    exists, and the PRAGMA and catalog facts `validate_schema` reads.
  */
  datatype Db = Db(
    fileExists: bool,
    sizeBytes: nat,
    repositoryTable: bool,
    searchIndexTable: bool,
    repos: seq<Repository>,
    indexes: seq<SearchIndex>,
    versionLog: Option<seq<int>>,
    foreignKeys: bool,
    namedIndexes: nat)

  /** What every state of the file satisfies: no tables without a file, keys and the alias index respected. */
  predicate DbValid(db: Db) {
    && (!db.fileExists ==> !db.repositoryTable && !db.searchIndexTable && db.versionLog.None?)
    && (!db.repositoryTable ==> db.repos == [])
    && (!db.searchIndexTable ==> db.indexes == [])
    && UniqueAliases(db.repos)
    && KeyedRepositories(db.repos)
    && KeyedIndexes(db.indexes)
  }

  /** The database file at the configured path. */
  class Store {
    var db: Db

    constructor(db: Db)
      requires DbValid(db)
      ensures this.db == db
    {
      this.db := db;
    }

    predicate Valid()
      reads this
    {
      DbValid(db)
    }
  }

  /** The named indexes `create_all` builds with `repository`: `ix_repository_alias`. */
  const RepositoryTableIndexes: nat := 1

  /** The named indexes `create_all` builds with `searchindex`: `ix_searchindex_file_path` and `ix_searchindex_content_hash`. */
  const SearchIndexTableIndexes: nat := 2

  /**
    `SQLModel.metadata.create_all`: both tables exist afterwards, each table it
    creates comes with its named indexes, and existing rows are kept.
  */
  function CreateAll(db: Db): (r: Db)
    requires DbValid(db)
    ensures DbValid(r)
    ensures r.fileExists && r.repositoryTable && r.searchIndexTable
    ensures r.repos == db.repos && r.indexes == db.indexes && r.versionLog == db.versionLog
    ensures r.namedIndexes == db.namedIndexes
      + (if db.repositoryTable then 0 else RepositoryTableIndexes)
      + (if db.searchIndexTable then 0 else SearchIndexTableIndexes)
    ensures !(db.repositoryTable && db.searchIndexTable) ==> r.namedIndexes > 0
  {
    db.(fileExists := true, repositoryTable := true, searchIndexTable := true,
        namedIndexes := db.namedIndexes
          + (if db.repositoryTable then 0 else RepositoryTableIndexes)
          + (if db.searchIndexTable then 0 else SearchIndexTableIndexes))
  }

  /** A fresh file holding the two empty tables, as `reset_database` leaves it. */
  function EmptyDb(sizeBytes: nat, foreignKeys: bool): (r: Db)
    ensures DbValid(r)
    ensures r.fileExists && r.repositoryTable && r.searchIndexTable
    ensures r.repos == [] && r.indexes == [] && r.versionLog.None?
    ensures r.namedIndexes == RepositoryTableIndexes + SearchIndexTableIndexes
  {
    Db(true, sizeBytes, true, true, [], [], None, foreignKeys, RepositoryTableIndexes + SearchIndexTableIndexes)
  }

  /** `get_database_info`: `sizeBytes` is present exactly when the file exists. */
  datatype DatabaseInfo = DatabaseInfo(
    databasePath: string,
    databaseExists: bool,
    kodeklipDir: string,
    dirExists: bool,
    sizeBytes: Option<nat>)

  /** `get_database_info`; whether the directory exists is read from the filesystem, hence a parameter. */
  function GetDatabaseInfo(dbPath: Option<string>, home: string, db: Db, dirExists: bool): (info: DatabaseInfo)
    ensures info.databasePath == MakeConfig(dbPath, home).dbPath
    ensures info.kodeklipDir == MakeConfig(dbPath, home).kodeklipDir
    ensures info.databaseExists == db.fileExists
    ensures info.sizeBytes.Some? <==> db.fileExists
    ensures info.sizeBytes.Some? ==> info.sizeBytes.value == db.sizeBytes
  {
    var config := MakeConfig(dbPath, home);
    DatabaseInfo(config.dbPath, db.fileExists, config.kodeklipDir, dirExists,
                 if db.fileExists then Some(db.sizeBytes) else None)
  }

  // ---------------------------------------------------------------------------
  // The engine globals

  /** An engine handle: the URL it connects to and which creation produced it. */
  datatype Engine = Engine(url: string, serial: nat)

  /** The condition under which `get_engine` builds a new handle. */
  predicate NeedsRebuild(engine: Option<Engine>, config: Option<DatabaseConfig>, dbPath: Option<string>): (rebuild: bool)
    ensures engine.None? ==> rebuild
    ensures rebuild && engine.Some? ==> dbPath.Some? && config.Some? && config.value.dbPath != dbPath.value
  {
    engine.None? || (dbPath.Some? && config.Some? && config.value.dbPath != dbPath.value)
  }

  /** With a handle open, asking without a path always reuses it, whatever path it was built for. */
  lemma ReuseWithoutPath(engine: Option<Engine>, config: Option<DatabaseConfig>)
    requires engine.Some?
    ensures !NeedsRebuild(engine, config, None)
  {
  }

  /** A handle built for a path is reused when the same path is asked for again. */
  lemma ReuseSamePath(dbPath: Option<string>, home: string, e: Engine, again: string)
    requires again == MakeConfig(dbPath, home).dbPath
    ensures !NeedsRebuild(Some(e), Some(MakeConfig(dbPath, home)), Some(again))
  {
  }

  /** A handle is rebuilt when a different explicit path is asked for. */
  lemma RebuildOtherPath(dbPath: Option<string>, home: string, e: Engine, other: string)
    requires other != MakeConfig(dbPath, home).dbPath
    ensures NeedsRebuild(Some(e), Some(MakeConfig(dbPath, home)), Some(other))
  {
  }

  /** The module globals `_engine` and `_config`. */
  class EngineGlobals {
    var engine: Option<Engine>
    var config: Option<DatabaseConfig>
    /** How many handles have been built so far; numbers each new one. */
    var built: nat

    predicate Valid()
      reads this
    {
      && (engine.Some? <==> config.Some?)
      && (engine.Some? ==> engine.value.url == config.value.databaseUrl && engine.value.serial < built)
    }

    constructor()
      ensures Valid() && engine.None? && config.None? && built == 0
    {
      engine := None;
      config := None;
      built := 0;
    }

    /** `get_engine(db_path)`: reuse the open handle unless `NeedsRebuild`, otherwise build one for the new config. */
    method GetEngine(dbPath: Option<string>, home: string) returns (e: Engine)
      requires Valid()
      modifies this
      ensures Valid() && engine == Some(e)
      ensures old(NeedsRebuild(engine, config, dbPath)) ==>
        && config == Some(MakeConfig(dbPath, home))
        && e == Engine(MakeConfig(dbPath, home).databaseUrl, old(built))
        && built == old(built) + 1
      ensures !old(NeedsRebuild(engine, config, dbPath)) ==>
        engine == old(engine) && config == old(config) && built == old(built)
    {
      if NeedsRebuild(engine, config, dbPath) {
        var c := MakeConfig(dbPath, home);
        config := Some(c);
        engine := Some(Engine(c.databaseUrl, built));
        built := built + 1;
      }
      e := engine.value;
    }

    /** `close_engine`: both globals are cleared; on a closed handle nothing changes. */
    method CloseEngine()
      requires Valid()
      modifies this
      ensures Valid() && engine.None? && config.None? && built == old(built)
    {
      if engine.Some? {
        engine := None;
        config := None;
      }
    }

    /** `create_db_and_tables(db_path)`: obtain the handle, then create both tables. */
    method CreateDbAndTables(dbPath: Option<string>, home: string, store: Store)
      requires Valid() && store.Valid()
      modifies this, store
      ensures Valid() && store.Valid() && engine.Some?
      ensures old(NeedsRebuild(engine, config, dbPath)) ==>
        && config == Some(MakeConfig(dbPath, home))
        && engine == Some(Engine(MakeConfig(dbPath, home).databaseUrl, old(built)))
      ensures !old(NeedsRebuild(engine, config, dbPath)) ==> engine == old(engine) && config == old(config)
      ensures store.db == CreateAll(old(store.db))
    {
      var _ := GetEngine(dbPath, home);
      store.db := CreateAll(store.db);
    }

    /**
      `reset_database(db_path)`: the globals are cleared and the file deleted,
      then `create_db_and_tables` builds a new handle for `db_path` and an empty
      file with both tables. `sizeBytes` is the size SQLite gives the new file.
    */
    method ResetDatabase(dbPath: Option<string>, home: string, store: Store, sizeBytes: nat)
      requires Valid() && store.Valid()
      modifies this, store
      ensures Valid() && store.Valid()
      ensures config == Some(MakeConfig(dbPath, home))
      ensures engine == Some(Engine(MakeConfig(dbPath, home).databaseUrl, old(built)))
      ensures store.db == EmptyDb(sizeBytes, old(store.db.foreignKeys))
    {
      if engine.Some? {
        engine := None;
        config := None;
      }
      store.db := store.db.(fileExists := false, repositoryTable := false, searchIndexTable := false,
                            repos := [], indexes := [], versionLog := None, sizeBytes := sizeBytes,
                            namedIndexes := 0);
      CreateDbAndTables(dbPath, home, store);
    }
  }

  /** After `reset_database`, `get_database_info` reports an existing file and the file holds no rows. */
  lemma InfoAfterReset(dbPath: Option<string>, home: string, sizeBytes: nat, fk: bool, dirExists: bool)
    ensures var info := GetDatabaseInfo(dbPath, home, EmptyDb(sizeBytes, fk), dirExists);
      info.databaseExists && info.sizeBytes == Some(sizeBytes)
  {
  }

  // ---------------------------------------------------------------------------
  // Sessions

  /**
    A session of `get_session`: changes are staged in `pending` and reach the
    file only through `Commit`.
  */
  class Session {
    const store: Store
    var pending: Db
    var isOpen: bool

    constructor(store: Store)
      ensures this.store == store && pending == store.db && isOpen
    {
      this.store := store;
      pending := store.db;
      isOpen := true;
    }

    /** `session.add` / `session.delete`: the staged contents become `d`. */
    method Stage(d: Db)
      requires isOpen
      modifies this
      ensures pending == d && isOpen
    {
      pending := d;
    }

    /** `session.commit()`: the staged contents are written to the file. */
    method Commit()
      requires isOpen && DbValid(pending)
      modifies store
      ensures store.db == pending
    {
      store.db := pending;
    }

    /**
      Leaving the `with` block: when the body raised, uncommitted changes are
      rolled back and the exception propagates; in every case the session closes.
    */
    method Exit(raised: bool) returns (propagates: bool)
      requires isOpen
      modifies this
      ensures !isOpen && propagates == raised
      ensures raised ==> pending == store.db
      ensures !raised ==> pending == old(pending)
    {
      if raised {
        pending := store.db;
      }
      isOpen := false;
      propagates := raised;
    }
  }
}
