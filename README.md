# KodeKlip core in Dafny

KodeKlip is a command-line tool that keeps a local cache of git repositories and searches them with ripgrep. This project models the deterministic core of that tool and proves properties of the model. The core has four layers:

- **Search engine** (`src/kodeklip/search.py`). It covers:
  - the ripgrep output parser;
  - the translation of `SearchOptions` into ripgrep flags;
  - the in-memory `SearchCache` with its normalised keys and lazy expiry;
  - the control flow of `search_repository` and `search_all_repositories`;
  - the text formatters.
- **Repository cache manager** (`src/kodeklip/git_manager.py`). It is a state machine over a catalog (the `Repository` rows) and a filesystem map under the cache directory. Clone, update, remote check, remove, orphan cleanup, catalog/filesystem sync and disk usage are its transitions. Git's answers are inputs.
- **Catalog and schema layer** (`repository_manager.py`, `schema.py`, `models.py`, `database.py`). It covers:
  - CRUD over repository rows, with the cascade to index rows;
  - the append-only schema-version log;
  - the orphan repair;
  - the rule for reusing the global engine handle;
  - the session's rollback discipline.
- **Front-end helpers** (`main.py`, `tui.py`). They cover:
  - sorting and relevance scoring;
  - alias derivation and validation;
  - pagination and the mapping of `find` options;
  - relative-time buckets and the `update` counters;
  - the TSV export;
  - the selection set, the preview window and its language table, the status bar and the clipboard text.

Modules:

| module | file | models |
|---|---|---|
| `Common` | common.dfy | `Option`/`Result`, timestamps |
| `Strings` | strings.dfy | Python's `strip`, `split`, `splitlines`, `int()`, `str(int)`, `lower`, `isalnum`, `replace`; lexicographic order |
| `Sorting` | sorting.dfy | Python's stable `sorted` as insertion sort: permutation, order, stability |
| `FileTree` | filetree.dfy | the filesystem as a map from path to entry (`FileSystem` class) |
| `Models` | models.dfy | the `Repository` and `SearchIndex` records and the relations between them |
| `Database` | database.dfy | `DatabaseConfig`, the `_engine`/`_config` globals, the store, the session |
| `RepositoryManager` | repository_manager.dfy | `repository_manager.py` |
| `Schema` | schema.dfy | `schema.py` |
| `SearchTypes` | search_types.dfy | `SearchResult`, `SearchOptions`, `to_dict`, suffix and language lookup |
| `SearchCaching` | search_caching.dfy | `SearchCache` |
| `RipgrepSearch` | ripgrep_search.dfy | parser, invocation builder, `RipgrepSearcher` |
| `SearchFormat` | search_format.dfy | `SearchResultFormatter` |
| `GitUrl` | git_url.dfy | `validate_repository_url` as nine hand-written URL shapes |
| `GitManager` | git_manager.dfy | `GitRepository` |
| `Cli` | cli.dfy | helpers of `main.py` |
| `Tui` | tui.dfy | helpers of `tui.py` |

External effects become parameters:

- The ripgrep run is a function `Runner` from (path, query, flags) to output text or an error.
- Git's outcomes are parameters: what a clone left behind or the error it raised, `Repo()` errors, the dirty flag, fetch flags and pull errors.
- The clock is a `now: Timestamp` parameter in whole seconds.
- The home directory is a string parameter.
- The database file and tables are fields of a `Db` value held by a `Store` object.

## Model

| member | source | states |
|---|---|---|
| Models.NewRepository | src/kodeklip/models.py:23-37 | a fresh record has no id, no last update and is not indexed; alias, url and path are the given ones |
| Models.NewSearchIndex | src/kodeklip/models.py:51-67 | a fresh index row has no id and no embedding, is stamped with the given time and keeps repo id, path and hash |
| Models.IndexesOf | src/kodeklip/models.py:40 | the `search_indexes` relation holds exactly the index rows whose `repo_id` is the repository's id |
| Models.Owners | src/kodeklip/models.py:70 | the owners of an index row are exactly the catalog rows whose id is its `repo_id` |
| Models.AtMostOneOwner | src/kodeklip/models.py:52-54 | with unique ids, every index row belongs to at most one repository |
| Models.FindAlias | src/kodeklip/repository_manager.py:55-56 | the lookup by alias returns the first row with that alias, and nothing exactly when no row has it |
| Models.AppendKeyed | src/kodeklip/models.py:23-26 | appending a row whose alias and id are new keeps aliases unique and ids distinct |
| Models.NextId | src/kodeklip/models.py:23-51 | the key SQLite gives the next row of either table is positive and larger than every key in use |
| Models.RepositoryIds | src/kodeklip/models.py:23 | the keys of the repository rows, one per row in table order |
| Models.NextRepositoryId | src/kodeklip/models.py:23 | the key given to an inserted repository row is positive and larger than every existing key |
| Database.MakeConfig | src/kodeklip/database.py:25-34 | without a path the database is `db.sqlite` under `~/.kodeklip`; with one, that path, its parent directory, and the URL `sqlite:///` + path |
| Database.ConfigFileInDirectory | src/kodeklip/database.py:28-32 | the database file is always named inside the configured directory |
| Database.ParentAndName | src/kodeklip/database.py:32 | a path is its parent, a slash and its last segment |
| Database.Store.constructor | src/kodeklip/database.py:62-68 | a store over a valid database |
| Database.CreateAll | src/kodeklip/database.py:87-92 | `create_all` makes both tables, adds the named indexes of each table it creates (one for `repository`, two for `searchindex`), and keeps every row and the version log |
| Database.EmptyDb | src/kodeklip/database.py:168-172 | the recreated database exists, has both tables and their three named indexes, and holds no rows and no version |
| Database.GetDatabaseInfo | src/kodeklip/database.py:132-146 | the info reports the configured paths, and carries a size exactly when the file exists |
| Database.NeedsRebuild | src/kodeklip/database.py:53-56 | no open handle always means a rebuild; with one open, only a different explicit path does (specified further by the three lemmas below) |
| Database.ReuseWithoutPath | src/kodeklip/database.py:53-55 | `get_engine(None)` reuses any open handle, even one for a custom path |
| Database.ReuseSamePath | src/kodeklip/database.py:53-55 | asking again for the configured path reuses the handle |
| Database.RebuildOtherPath | src/kodeklip/database.py:53-56 | asking for another path rebuilds the handle |
| Database.EngineGlobals.constructor | src/kodeklip/database.py:38-39 | both globals start empty |
| Database.EngineGlobals.GetEngine | src/kodeklip/database.py:51-78 | rebuilds exactly when the reuse rule says so, with the new configuration's URL; otherwise nothing changes |
| Database.EngineGlobals.CloseEngine | src/kodeklip/database.py:181-186 | both globals are cleared, so the next `get_engine` builds a new handle; the count of handles built is kept |
| Database.EngineGlobals.CreateDbAndTables | src/kodeklip/database.py:81-92 | gets the engine under the reuse rule, then creates the tables and keeps the data |
| Database.EngineGlobals.ResetDatabase | src/kodeklip/database.py:157-172 | the globals are rebuilt from the given path and the database is empty but present |
| Database.InfoAfterReset | src/kodeklip/database.py:141-144 | after a reset the info reports an existing file with its size |
| Database.Session.constructor | src/kodeklip/database.py:113 | a session starts open, and its working state is the store's database |
| Database.Session.Stage | src/kodeklip/database.py:115 | staged changes live only in the session |
| Database.Session.Commit | src/kodeklip/database.py:115 | commit writes the staged database to the store |
| Database.Session.Exit | src/kodeklip/database.py:114-120 | the session always closes; an exception rolls the staged state back to the store and propagates; otherwise the staged state stays |
| RepositoryManager.GetRepository | src/kodeklip/repository_manager.py:98-113 | NotFound exactly when no row has the alias; a result is a row with that alias; a broken table is a query error |
| RepositoryManager.RepositoryExists | src/kodeklip/repository_manager.py:242-251 | true exactly when some row has the alias |
| RepositoryManager.ExistsIffFound | src/kodeklip/repository_manager.py:103-108 | `repository_exists` is false exactly when `get_repository` raises NotFound |
| RepositoryManager.ListRepositories | src/kodeklip/repository_manager.py:128-135 | fails exactly when the table is missing |
| RepositoryManager.ListIsOrderedPermutation | src/kodeklip/repository_manager.py:130-132 | the list holds every row once, in strictly ascending alias order |
| RepositoryManager.GetRepositoryCount | src/kodeklip/repository_manager.py:266-273 | the count is the number of rows |
| RepositoryManager.GetRepositoryInfo | src/kodeklip/repository_manager.py:290-323 | a failed lookup is passed on as is; a found info carries the alias and the key of a row that has it (the count is specified by `InfoCountsOwnIndexes`) |
| RepositoryManager.InfoCountsOwnIndexes | src/kodeklip/repository_manager.py:290-323 | the info fails exactly when the lookup does, copies the record's fields and counts exactly the index rows owned by it |
| RepositoryManager.IndexesOfCounts | src/kodeklip/repository_manager.py:302-306 | the index count is the size of the `search_indexes` relation |
| RepositoryManager.AddRepository | src/kodeklip/repository_manager.py:52-81 | AlreadyExists and no change when the alias is present; otherwise exactly one new row, unindexed and never updated |
| RepositoryManager.InsertKeepsValid | src/kodeklip/repository_manager.py:64-73 | the insert keeps aliases unique and ids distinct |
| RepositoryManager.ApplyStatusFields | src/kodeklip/repository_manager.py:170-174 | only the fields given a value change; id, alias, url and path never do |
| RepositoryManager.ApplyStatusIdempotent | src/kodeklip/repository_manager.py:170-174 | no arguments leave the row as it was, and repeating an update changes nothing more |
| RepositoryManager.UpdateRepositoryStatus | src/kodeklip/repository_manager.py:159-185 | fails with no change exactly when the lookup fails; otherwise exactly that row is replaced by its updated version |
| RepositoryManager.OtherIndexes | src/kodeklip/repository_manager.py:211-217 | what the cascade keeps is exactly the index rows pointing elsewhere |
| RepositoryManager.OwnedAndOthersPartition | src/kodeklip/repository_manager.py:211-217 | the deleted and kept index rows together are the old index rows |
| RepositoryManager.OtherIndexesKeyed | src/kodeklip/repository_manager.py:216-217 | the cascade keeps index ids distinct |
| RepositoryManager.RemoveAtKeepsKeys | src/kodeklip/repository_manager.py:220 | removing a row keeps the keys unique, and its alias is gone |
| RepositoryManager.DeleteIndexesOf | src/kodeklip/repository_manager.py:211-217 | the delete loop keeps exactly the index rows of other repositories, in order |
| RepositoryManager.RemoveRepository | src/kodeklip/repository_manager.py:201-226 | `Ok(false)` and no change for an unknown alias; otherwise the row and every index row pointing at it go, so the alias is absent and a second call returns `Ok(false)` |
| Schema.GetSchemaVersion | src/kodeklip/schema.py:50-73 | 0 without a version table or with an empty one; otherwise the latest version inserted |
| Schema.AppendVersion | src/kodeklip/schema.py:88-107 | the log gains the version at its end (created when missing); rows are untouched |
| Schema.SetThenGet | src/kodeklip/schema.py:76-110 | reading right after setting `v` gives `v` |
| Schema.AppendKeepsHistory | src/kodeklip/schema.py:101-106 | earlier versions stay in the log |
| Schema.SetSchemaVersion | src/kodeklip/schema.py:86-110 | the store's log gains the version, which the next read returns |
| Schema.CheckMigrationNeeded | src/kodeklip/schema.py:302-311 | returns the current version and 1, with "needed" exactly when current < 1 |
| Schema.MigrationLifecycle | src/kodeklip/schema.py:17 | a database without a version needs migrating; after version 1 is set it does not |
| Schema.Orphans | src/kodeklip/schema.py:180-187 | exactly the index rows whose `repo_id` matches no repository |
| Schema.Owned | src/kodeklip/schema.py:403-410 | what the orphan delete keeps: exactly the index rows with an owner |
| Schema.OrphansPartition | src/kodeklip/schema.py:403-414 | the removed count plus the kept rows make up all index rows |
| Schema.OwnedHasNoOrphans | src/kodeklip/schema.py:403-410 | after the delete no orphan is left |
| Schema.OwnedKeyed | src/kodeklip/schema.py:403-410 | the delete keeps index ids distinct |
| Schema.ValidateSchema | src/kodeklip/schema.py:125-198 | the database exists iff the file does, and integrity holds only with both tables and no orphan (every flag is specified by `ValidateSchemaFlags`) |
| Schema.CreatedSchemaValidates | src/kodeklip/schema.py:150-175 | after `create_all` builds a missing table, validation finds the file, both tables and named indexes |
| Schema.ValidateSchemaFlags | src/kodeklip/schema.py:125-198 | a missing file gives the default report; otherwise tables exist iff both do, and integrity holds iff they exist and no orphan is found |
| Schema.CountIndexed | src/kodeklip/schema.py:352-357 | the indexed count never exceeds the row count |
| Schema.GetDatabaseStatistics | src/kodeklip/schema.py:326-362 | fails exactly when the file exists without both tables; the indexed count never exceeds the row count (the counts are specified by `StatisticsCounts`) |
| Schema.StatisticsCounts | src/kodeklip/schema.py:326-362 | zero counts for a missing file; otherwise rows, index rows, and indexed rows, all indexed iff the counts agree |
| Schema.AllIndexedIff | src/kodeklip/schema.py:352-357 | every row is indexed exactly when the indexed count equals the row count |
| Schema.RepairResult | src/kodeklip/schema.py:397-425 | given the backup step's flag: fails with no change unless both tables exist; otherwise the report carries that flag and the orphan count, no orphan is left, the repository rows stay, and the version is set exactly when it was 0 |
| Schema.BackupNeverReported | src/kodeklip/schema.py:389-395 | as written, no successful repair reports a backup |
| Schema.BackupReportedWhenMade | src/kodeklip/schema.py:389-425 | the corrected repair leaves the same database and fails in the same cases; its report differs from the as-written one only in `backup_created`, which is true exactly when a backup was asked for and made, and the two reports differ exactly then |
| Schema.RepairWith | src/kodeklip/schema.py:397-425 | the repair after its backup step changes the store as `RepairResult` says and returns its report |
| Schema.RepairDatabase | src/kodeklip/schema.py:380-425 | fails with no change unless both tables exist; otherwise exactly the orphans are deleted and counted, version 1 is set exactly when the version was 0, and no backup is ever reported |
| Schema.RepairDatabaseCorrected | src/kodeklip/schema.py:380-425 | the same repair with a report that says a backup was made exactly when one was asked for and succeeded |
| Schema.RepairRestoresIntegrity | src/kodeklip/schema.py:397-420 | after a repair the integrity check passes, and no migration is needed when the version was 0 (so the repair set it) or was already at least 1 |
| SearchTypes.NewResult | src/kodeklip/search.py:29-38 | a parsed result has match offsets 0 and no context lines |
| SearchTypes.ToDict | src/kodeklip/search.py:115-125 | the dictionary has exactly the seven field names |
| SearchTypes.FromDict | src/kodeklip/search.py:177 | `SearchResult(**d)` succeeds only when every key is a field name and the three required fields are present |
| SearchTypes.FromToDict | src/kodeklip/search.py:115-125 | `SearchResult(**r.to_dict())` gives back `r` |
| SearchTypes.Encoded | src/kodeklip/search.py:194 | every stored dictionary decodes back to its result |
| SearchTypes.Suffix | src/kodeklip/search.py:48 | the suffix is empty or a dot with no other dot or slash, at the end of the path |
| SearchTypes.FileExtension | src/kodeklip/search.py:46-48 | the extension has no dot or slash and, when not empty, the path ends with a dot and it |
| SearchTypes.ExtensionOfName | src/kodeklip/search.py:46-48 | `dir/stem.ext` has extension `ext` |
| SearchTypes.LanguageFor | src/kodeklip/search.py:89-113 | a language exactly when the lowercased extension is in the table, and it is one of the table's languages |
| SearchTypes.PythonHighlighted | src/kodeklip/search.py:92 | `.py` in any letter case is Python |
| SearchTypes.NoSuffixNoLanguage | src/kodeklip/search.py:113 | a path without a dot has no language |
| SearchTypes.DefaultOptions | src/kodeklip/search.py:129-141 | empty lists, no context, case-sensitive off, smart case, regex mode and 1000 results |
| SearchCaching.SortedEqual | src/kodeklip/search.py:154-163 | two lists sort to the same list exactly when they hold the same multiset |
| SearchCaching.KeyDecides | src/kodeklip/search.py:151-166 | two keys are equal exactly when `alias:query` is equal and the options agree, the lists as multisets |
| SearchCaching.AliasQueryCollide | src/kodeklip/search.py:165 | alias `a:b` with query `c` and alias `a` with query `b:c` share a key |
| SearchCaching.Decoded | src/kodeklip/search.py:177 | one result per stored dictionary, each its decoding |
| SearchCaching.DecodedEncoded | src/kodeklip/search.py:168-195 | what `set` stores, `get` rebuilds unchanged |
| SearchCaching.Lookup | src/kodeklip/search.py:172-181 | a hit exactly when the key is present and younger than the TTL; a hit changes nothing, a miss removes only that key |
| SearchCaching.Store | src/kodeklip/search.py:191-195 | the key is added and no other key is lost |
| SearchCaching.LookupAfterStore | src/kodeklip/search.py:168-195 | a lookup after a store returns the stored results exactly while their age is under the TTL |
| SearchCaching.ExpiryDropsOnlyItsKey | src/kodeklip/search.py:178-180 | an expired entry is deleted and every other entry stays as it was |
| SearchCaching.StoreKeepsOtherKeys | src/kodeklip/search.py:191-195 | storing one key does not change what another key returns |
| SearchCaching.SearchCache.constructor | src/kodeklip/search.py:148-149 | an empty cache with a ten-minute TTL |
| SearchCaching.SearchCache.Get | src/kodeklip/search.py:168-181 | answers and updates the cache as `Lookup` does under the key of (alias, query, options): a fresh entry is returned, a stale one dropped |
| SearchCaching.SearchCache.Set | src/kodeklip/search.py:183-195 | the cache becomes `Store` of the old cache under the key of (alias, query, options), stamped with `now` |
| SearchCaching.SearchCache.Clear | src/kodeklip/search.py:197-199 | the cache is empty |
| RipgrepSearch.Each | src/kodeklip/search.py:384-393 | one flag per list entry, in list order |
| RipgrepSearch.Switches | src/kodeklip/search.py:396-405 | the switches are only context and case flags |
| RipgrepSearch.BuildFlags | src/kodeklip/search.py:378-408 | the loop builds exactly the invocation |
| RipgrepSearch.AddEach | src/kodeklip/search.py:384-393 | the per-list loop adds exactly one flag per entry |
| RipgrepSearch.Invocation | src/kodeklip/search.py:378-408 | the flags open with filename and line number and close with max-count (each part is specified by the `Invocation*` lemmas) |
| RipgrepSearch.InvocationFrame | src/kodeklip/search.py:378-408 | the flags open with filename and line number and close with the one max-count flag |
| RipgrepSearch.InvocationTypes | src/kodeklip/search.py:384-385 | the type filters are exactly `file_types`, in order |
| RipgrepSearch.InvocationExcludedTypes | src/kodeklip/search.py:386-387 | the negated type filters are exactly `exclude_types`, in order |
| RipgrepSearch.InvocationGlobs | src/kodeklip/search.py:390-393 | the globs are the include patterns, then each exclude pattern with `!` in front |
| RipgrepSearch.InvocationContext | src/kodeklip/search.py:396-399 | a context flag is present exactly when its count is positive, with that count |
| RipgrepSearch.InvocationCase | src/kodeklip/search.py:402-405 | ignore-case exactly when asked; smart case exactly when not ignoring case and smart case is on |
| RipgrepSearch.RegexModeOnlyInKey | src/kodeklip/search.py:151-166 | `regex_mode` changes the cache key but not the invocation |
| RipgrepSearch.CutAt | src/kodeklip/search.py:426 | one split at the first separator: the prefix holds none and the pieces rejoin to the input |
| RipgrepSearch.SplitTwo | src/kodeklip/search.py:426 | `split(':', 2)`: one to three parts that rejoin to the line, with no colon before the last part |
| RipgrepSearch.RelativeTo | src/kodeklip/search.py:436-443 | the path is kept, or it is the repository itself, or joining the repository with the result gives it back |
| RipgrepSearch.RelativeUnder | src/kodeklip/search.py:437-440 | a path under the repository root becomes its relative name |
| RipgrepSearch.ParseLine | src/kodeklip/search.py:421-449 | a result only from a non-blank line with three parts and an integer middle part; the line ends with the content, and the path is made relative |
| RipgrepSearch.ParsedLines | src/kodeklip/search.py:421-456 | at most one result per line |
| RipgrepSearch.ParsedSnoc | src/kodeklip/search.py:421-454 | results come in line order, each line adding its result or nothing |
| RipgrepSearch.ParseRipgrepResults | src/kodeklip/search.py:416-456 | the loop returns exactly the per-line results of the split output |
| RipgrepSearch.SplitRipgrepLine | src/kodeklip/search.py:426 | later colons stay in the content |
| RipgrepSearch.ParseRipgrepLine | src/kodeklip/search.py:426-449 | a printed `path:line:content` line parses back to that result, with the path made relative |
| RipgrepSearch.Printed | src/kodeklip/search.py:426 | one printed line per match, in match order |
| RipgrepSearch.Reported | src/kodeklip/search.py:445-449 | one reported result per match, with the path made relative |
| RipgrepSearch.ParsePrinted | src/kodeklip/search.py:416-456 | parsing ripgrep's full output gives back every match, in order, with paths made relative |
| RipgrepSearch.ParsedPrinted | src/kodeklip/search.py:421-454 | line by line, each printed match parses back to its reported result, in order |
| RipgrepSearch.ExampleLine | src/kodeklip/search.py:426-449 | `/repos/app/src/app.py:12:def run():` under `/repos/app` gives `src/app.py`, 12, `def run():` |
| RipgrepSearch.ExamplePath | src/kodeklip/search.py:436-440 | `/repos/app/src/app.py` relative to `/repos/app` is `src/app.py` |
| RipgrepSearch.Executed | src/kodeklip/search.py:376-414 | a run error is the error; otherwise the parse of the run's output for exactly the built flags |
| RipgrepSearch.ExecuteSearch | src/kodeklip/search.py:370-414 | the method computes `Executed` |
| RipgrepSearch.Uncached | src/kodeklip/search.py:348-368 | an alias outside the catalog is "not found"; results come only from a catalogued row whose path exists, and are its run's results (specified fully by the two lemmas below) |
| RipgrepSearch.UncachedNotFound | src/kodeklip/search.py:348-352 | "not found" exactly when no row has the alias |
| RipgrepSearch.UncachedCatalogued | src/kodeklip/search.py:354-368 | a missing path is a ValueError; otherwise the run's error becomes a RuntimeError and its output the results |
| RipgrepSearch.Search | src/kodeklip/search.py:336-368 | caching stays on exactly when it was on, and every cached entry stays decodable |
| RipgrepSearch.SearchAgreesOnMiss | src/kodeklip/search.py:336-368 | on a cache miss, or with caching off, the search answers as the uncached search |
| RipgrepSearch.FailuresNotCached | src/kodeklip/search.py:359-368 | a failed search stores nothing under its key |
| RipgrepSearch.RepeatAnsweredFromCache | src/kodeklip/search.py:336-368 | a repeat within the TTL returns the first answer and leaves the cache as the first search left it, even if the catalog, files or ripgrep changed |
| RipgrepSearch.HitIgnoresCatalog | src/kodeklip/search.py:340-343 | a cache hit answers without looking at the catalog |
| RipgrepSearch.SearchAll | src/kodeklip/search.py:473-492 | at most one entry per row, each a non-empty result list for a catalogued alias; the cache stays on or off and its entries stay decodable |
| RipgrepSearch.SearchAllStep | src/kodeklip/search.py:483-490 | each row adds its own search's entry, with the cache that search leaves |
| RipgrepSearch.SearchAllUncached | src/kodeklip/search.py:483-490 | without a cache, an alias is in the result with `rs` exactly when it is catalogued and its search succeeds with the non-empty `rs` |
| RipgrepSearch.SearchAllDistinct | src/kodeklip/search.py:476-487 | with unique aliases, no alias appears twice |
| RipgrepSearch.RipgrepSearcher.State | src/kodeklip/search.py:262-277 | caching is on exactly when the cache object exists |
| RipgrepSearch.RipgrepSearcher.constructor | src/kodeklip/search.py:262-277 | caching is on with an empty cache exactly when asked |
| RipgrepSearch.RipgrepSearcher.SearchRepository | src/kodeklip/search.py:336-368 | the answer and the new cache are `Search` of the old cache |
| RipgrepSearch.RipgrepSearcher.SearchAllRepositories | src/kodeklip/search.py:473-492 | the result and the new cache are `SearchAll` over the catalog in order, with distinct aliases |
| RipgrepSearch.RipgrepSearcher.SearchNext | src/kodeklip/search.py:483-490 | one pass of the loop appends the repository's entry |
| SearchFormat.Truncate | src/kodeklip/search.py:220-222 | short text is kept; long text becomes a prefix of it plus `...` |
| SearchFormat.TruncateFits | src/kodeklip/search.py:220-222 | truncated text is never wider than the limit |
| SearchFormat.TruncateIdempotent | src/kodeklip/search.py:220-222 | truncating twice is truncating once |
| SearchFormat.TruncateKeepsIff | src/kodeklip/search.py:221 | text is unchanged exactly when it fits |
| SearchFormat.ContentCell | src/kodeklip/search.py:220-222 | the stripped content, or its first 77 characters plus `...` when longer than 80 |
| SearchFormat.ContentCellStable | src/kodeklip/search.py:220-222 | a cell reformatted is unchanged |
| SearchFormat.TableTitle | src/kodeklip/search.py:213 | the title names the query only when there is one |
| SearchFormat.TableRow | src/kodeklip/search.py:224-228 | the row shows the result's path and a cell that fits the column (specified fully by `TableRowShows`) |
| SearchFormat.TableRowShows | src/kodeklip/search.py:224-228 | a row shows the path, the line number (read back) and the cell, kept whole exactly when it fits |
| SearchFormat.FormatResultsTable | src/kodeklip/search.py:209-230 | one row per result, in order |
| SearchFormat.StartLine | src/kodeklip/search.py:76 | the panel numbering starts at 1 or at the first context line |
| SearchFormat.ToPanel | src/kodeklip/search.py:58-79 | the panel is numbered exactly when the result has a language |
| SearchFormat.PanelShowsMatch | src/kodeklip/search.py:61-68 | the panel holds the context before, the match, the context after, in that order |
| SearchFormat.FormatResultsDetailed | src/kodeklip/search.py:232-239 | one panel for each of the first 10 results |
| SearchFormat.TotalMatches | src/kodeklip/search.py:249-252 | no repository has more matches than the total (specified further by the lemmas below) |
| SearchFormat.TotalMatchesAppend | src/kodeklip/search.py:249-252 | the total adds over concatenation |
| SearchFormat.TotalZeroIff | src/kodeklip/search.py:249-252 | the total is 0 exactly when every repository has no matches |
| SearchFormat.TotalCoversRows | src/kodeklip/search.py:241-256 | for a `search_all_repositories` result, the total is at least the number of repositories |
| SearchFormat.SummaryRowsRead | src/kodeklip/search.py:250-253 | each row reads back as its repository and its match count |
| SearchFormat.FormatSummary | src/kodeklip/search.py:241-256 | one row per repository with its count, and a title carrying the total |
| GitUrl.ValidRepositoryUrl | src/kodeklip/git_manager.py:46-78 | an accepted URL is present and not blank once stripped (the shapes are specified by the lemmas below) |
| GitUrl.StripInsensitive | src/kodeklip/git_manager.py:78 | validation looks only at the stripped URL |
| GitUrl.BlankRefused | src/kodeklip/git_manager.py:58-59 | an empty or blank URL is refused |
| GitUrl.GitHubHttpsAccepted | src/kodeklip/git_manager.py:64 | `https://github.com/owner/name` is accepted |
| GitUrl.GitHubScpAccepted | src/kodeklip/git_manager.py:65 | `git@github.com:owner/name` is accepted |
| GitUrl.FtpRefused | src/kodeklip/git_manager.py:62-78 | no `ftp://` URL is accepted |
| GitUrl.OwnerOnlyRefused | src/kodeklip/git_manager.py:62-78 | a GitHub URL without a repository name is refused |
| FileTree.ChildIsJoin | src/kodeklip/git_manager.py:90 | a child of a directory is the directory joined with its name |
| FileTree.JoinIsChild | src/kodeklip/git_manager.py:90 | joining a plain name gives a child with that name |
| FileTree.JoinInjective | src/kodeklip/git_manager.py:90 | different names give different paths |
| FileTree.FileSystem.constructor | src/kodeklip/git_manager.py:43-44 | a filesystem over the given entries |
| FileTree.FileSystem.MakeDirs | src/kodeklip/git_manager.py:44 | `mkdir(parents=True, exist_ok=True)`: an existing entry is kept, a missing one becomes an empty directory |
| FileTree.FileSystem.RemoveTreeQuietly | src/kodeklip/git_manager.py:171 | `rmtree(ignore_errors=True)`: the entry goes when it can |
| FileTree.FileSystem.RemoveTree | src/kodeklip/git_manager.py:561 | `rmtree`: reports success exactly when the entry could go, and then removes only it |
| FileTree.FileSystem.ListDir | src/kodeklip/git_manager.py:547 | `iterdir`: every child name once |
| GitManager.CloneNote | src/kodeklip/git_manager.py:173-179 | the hint follows the first matching phrase: authentication, then missing repository, then network |
| GitManager.UpdateNote | src/kodeklip/git_manager.py:315-319 | the update hint: authentication, else network |
| GitManager.HasNewCommits | src/kodeklip/git_manager.py:343-383 | there are new commits exactly when some fetched ref is not up to date |
| GitManager.AliasSet | src/kodeklip/git_manager.py:539-541 | exactly the catalog's aliases |
| GitManager.SizeSumSplit | src/kodeklip/git_manager.py:553-569 | the orphans' sizes split into what was freed and what failed |
| GitManager.CleanupComplete | src/kodeklip/git_manager.py:547-549 | after the loop the orphans are exactly the child directories named after no alias, each once |
| GitManager.UntouchedChild | src/kodeklip/git_manager.py:547-567 | a child the loop has not reached yet is still as it was |
| GitManager.Classify | src/kodeklip/git_manager.py:604-627 | missing iff the path is absent; not a repository iff present without `.git`; in place iff present with `.git` at the alias's directory; misplaced otherwise |
| GitManager.TotalSize | src/kodeklip/git_manager.py:677-685 | no repository's size exceeds the total, which is 0 exactly when every size is |
| GitManager.AliasesWith | src/kodeklip/git_manager.py:608-627 | an alias is in a bucket exactly when some row with it is classified so |
| GitManager.RemovedAliases | src/kodeklip/git_manager.py:608-619 | the deleted records are exactly the missing and the invalid rows |
| GitManager.Synced | src/kodeklip/git_manager.py:608-630 | the kept rows are the misplaced ones, rewritten to the alias directory, and the ones already in place |
| GitManager.SyncedKeys | src/kodeklip/git_manager.py:608-630 | the sync keeps aliases unique and ids distinct |
| GitManager.SyncBucketsExclusive | src/kodeklip/git_manager.py:608-627 | with unique aliases, no alias is in two buckets |
| GitManager.RemovedAreMissingAndInvalid | src/kodeklip/git_manager.py:608-619 | the removed list is the missing list plus the invalid list |
| GitManager.RemovedAreDeleted | src/kodeklip/git_manager.py:608-619 | a removed alias has no row afterwards |
| GitManager.SecondSync | src/kodeklip/git_manager.py:623-628 | a second sync finds nothing exactly when every rewritten path holds a clone with `.git` |
| GitManager.SecondSyncQuiet | src/kodeklip/git_manager.py:623-628 | when every rewritten path holds a clone, the next sync finds every row in place |
| GitManager.SecondSyncReports | src/kodeklip/git_manager.py:623-628 | a rewrite to a path without a clone is reported again by the next sync |
| GitManager.Footprint | src/kodeklip/git_manager.py:674-689 | a directory measures at most its size, and exactly its size when it can be walked |
| GitManager.RepoSizes | src/kodeklip/git_manager.py:671-689 | one size for each row whose path exists, under its alias |
| GitManager.Largest | src/kodeklip/git_manager.py:697-701 | five entries, or all of them when there are fewer |
| GitManager.LargestAreLargest | src/kodeklip/git_manager.py:697-701 | the entries are in descending size, are taken from the sizes, and none left out is larger |
| GitManager.LargestKeepsTies | src/kodeklip/git_manager.py:698-700 | equal sizes keep their record order |
| GitManager.KeepLeftover | src/kodeklip/git_manager.py:150-155 | a clone without `.git` leaves what it made in place |
| GitManager.DiscardLeftover | src/kodeklip/git_manager.py:168-188 | a failed clone's leftovers are removed when they can be |
| GitManager.GitRepository.constructor | src/kodeklip/git_manager.py:39-44 | the cache directory is `repos` under the configured directory, created when missing |
| GitManager.GitRepository.LocalPath | src/kodeklip/git_manager.py:90 | the alias's directory is the child of the cache directory named after it |
| GitManager.GitRepository.ExistingAliases | src/kodeklip/git_manager.py:190-213 | the aliases `repository_exists` accepts: a row with the alias and a clone with `.git` |
| GitManager.GitRepository.CloneRepository | src/kodeklip/git_manager.py:106-188 | each refusal (bad URL, blank alias, existing directory, existing row) changes nothing; a clone with `.git` adds exactly one row and the directory; one without `.git` keeps its leftovers; a failed one removes them |
| GitManager.GitRepository.CloneStripped | src/kodeklip/git_manager.py:113-132 | the two existence checks on the stripped alias |
| GitManager.GitRepository.RunClone | src/kodeklip/git_manager.py:134-188 | the clone's end state given git's outcome |
| GitManager.GitRepository.CloneSucceeded | src/kodeklip/git_manager.py:150-166 | a clone with `.git` is recorded |
| GitManager.GitRepository.CloneWithoutGit | src/kodeklip/git_manager.py:150-155 | a clone without `.git` is reported and left in place |
| GitManager.GitRepository.CloneErrored | src/kodeklip/git_manager.py:168-188 | a failed clone is reported and cleaned up |
| GitManager.GitRepository.RecordClone | src/kodeklip/git_manager.py:158-166 | the new row is appended, and the repository then exists |
| GitManager.GitRepository.UpdateRepository | src/kodeklip/git_manager.py:257-331 | refuses an unknown alias, an open error, a dirty tree or a fetch error; pulls exactly when some ref moved; on success reports changes exactly when a ref moved and stamps only that row with `now` |
| GitManager.GitRepository.CheckRemoteUpdates | src/kodeklip/git_manager.py:343-383 | the same checks with no pull and no write; updates exactly when some ref moved |
| GitManager.SyncKeepsOwners | src/kodeklip/git_manager.py:598-630 | after a sync that commits, every index row's owner is still in the catalog |
| GitManager.GitRepository.RemoveRepository | src/kodeklip/git_manager.py:476-518 | an unknown alias changes nothing; a row that owns index rows cannot be deleted, so the call fails with the driver's message and nothing changes; otherwise only the row goes, then the directory unless kept, and success means the repository no longer exists |
| GitManager.GitRepository.CleanupOrphanedFiles | src/kodeklip/git_manager.py:527-581 | the orphans are exactly the child directories named after no alias; the removable ones are deleted and their sizes summed; the rest are failures; nothing else changes |
| GitManager.GitRepository.CleanupChildren | src/kodeklip/git_manager.py:547-569 | the cleanup loop over the listing |
| GitManager.GitRepository.CleanupEntry | src/kodeklip/git_manager.py:548-569 | one child: skipped, removed and measured, or failed |
| GitManager.GitRepository.SyncDatabaseWithFilesystem | src/kodeklip/git_manager.py:590-646 | the buckets follow the per-row classification; the sync fails, changing nothing, exactly when a row it would delete owns index rows; otherwise the deleted and rewritten rows and the message follow the classification; the filesystem is not touched |
| GitManager.GitRepository.GetDiskUsage | src/kodeklip/git_manager.py:655-708 | the row count, the per-alias sizes, their total and mean, and the five largest |
| Cli.RelevanceScore | src/kodeklip/main.py:43-53 | blank content raises; otherwise 10 for a main/index/core path, plus 5, plus the depth bonus, between 5 and 35 |
| Cli.SortResults | src/kodeklip/main.py:35-57 | fails exactly for relevance over a blank line; an unknown key keeps the list |
| Cli.SortByFile | src/kodeklip/main.py:37-38 | a permutation in path order, equal paths keeping their order |
| Cli.SortByLine | src/kodeklip/main.py:39-40 | a permutation in (path, line) order, ties keeping their order |
| Cli.SortByRelevance | src/kodeklip/main.py:41-55 | a permutation in descending score, ties keeping their order |
| Cli.SortByFileIdempotent | src/kodeklip/main.py:37-38 | sorting by file twice is sorting once |
| Cli.IsValidAlias | src/kodeklip/main.py:168 | a valid alias is never empty (characterised exactly by `ValidAliasIff`) |
| Cli.DeriveAlias | src/kodeklip/main.py:164-165 | definition; specified by `DeriveFromRepoName` and `TrailingSlashRejected` |
| Cli.ValidAliasIff | src/kodeklip/main.py:168 | an alias is valid exactly when it has only letters, digits, `-` and `_` and at least one letter or digit |
| Cli.DeriveFromRepoName | src/kodeklip/main.py:164-165 | `.../name.git` and `.../name` both give `name` |
| Cli.TrailingSlashRejected | src/kodeklip/main.py:164-168 | a URL ending in `/` derives an empty alias, which is refused |
| Cli.AddAlias | src/kodeklip/main.py:155-173 | a bad URL is refused; an accepted alias is valid and is the given one or, when none is given, the derived one |
| Cli.FindOptions | src/kodeklip/main.py:473-483 | the context serves both sides, the type list is `[t]` or empty, and case-insensitive and smart case are both the negation of case-sensitive |
| Cli.FindInvocation | src/kodeklip/main.py:473-483 | ripgrep gets ignore-case exactly when not case-sensitive, never smart case, context flags exactly for a positive context, and the one type |
| Cli.PageCount | src/kodeklip/main.py:562-563 | definition; specified by `PageCountIsCeiling` |
| Cli.PageCountIsCeiling | src/kodeklip/main.py:562-563 | the page count is the ceiling of n over the page size |
| Cli.FirstPage | src/kodeklip/main.py:562-567 | the shown results are a prefix of length min(n, page size), or all results without a positive page size |
| Cli.MorePagesIffCut | src/kodeklip/main.py:608-609 | the hint about more pages appears exactly when results were left out |
| Cli.LastUpdatedCell | src/kodeklip/main.py:259-274 | "Never" exactly for a row never updated |
| Cli.RelativeTime | src/kodeklip/main.py:263-272 | definition; specified by `RelativeTimeBuckets`, `AnHourIsSixtyMinutes` and `FutureStampShowsHours` |
| Cli.RelativeTimeBuckets | src/kodeklip/main.py:263-272 | days from a day on, hours (1 to 23) above an hour, minutes above a minute, otherwise "Just now" |
| Cli.AnHourIsSixtyMinutes | src/kodeklip/main.py:265-270 | exactly one hour reads "60m ago" |
| Cli.FutureStampShowsHours | src/kodeklip/main.py:262-267 | a stamp 30 seconds in the future reads "23h ago" |
| Cli.Tally | src/kodeklip/main.py:356-373 | definition; specified by `TallyTotal` and `TallyErrorsIff` |
| Cli.TallyTotal | src/kodeklip/main.py:356-373 | updated, unchanged and failed add up to the aliases processed |
| Cli.TallyErrorsIff | src/kodeklip/main.py:371-384 | there are no errors exactly when every update succeeded |
| Cli.CatalogAliases | src/kodeklip/main.py:340-347 | the aliases of the catalog rows, in table order |
| Cli.UpdateTargets | src/kodeklip/main.py:340-354 | an alias outside the existing set is refused with the `not found` message, and only then; `--all` or no alias takes the whole catalog, otherwise the one alias |
| Cli.UpdateSelection | src/kodeklip/main.py:340-354 | an alias is refused exactly when `repository_exists` rejects it (no row, or no clone with `.git`); `--all` or no alias takes every catalog alias in order, otherwise the one alias |
| Cli.CountUpdates | src/kodeklip/main.py:356-384 | the counters match the tally and the exit code is 1 exactly when some update failed |
| Cli.TsvLine | src/kodeklip/main.py:94-96 | definition; specified by `TsvLineFields` |
| Cli.TsvLineFields | src/kodeklip/main.py:94-96 | each body line splits at tabs into the path, the line number (read back) and the stripped content with tabs replaced |
| Cli.TsvHeader | src/kodeklip/main.py:85-92 | six header lines ending in the column names |
| Cli.FormatTableForFile | src/kodeklip/main.py:83-98 | the header, then one line per result, joined by newlines |
| Tui.ContentCell | src/kodeklip/tui.py:44-47 | the stripped content, or its first 57 characters plus `...` when longer than 60 |
| Tui.RowOf | src/kodeklip/tui.py:49-55 | the row is unmarked, shows the path and a cell that fits (specified fully by `RowOfShows`) |
| Tui.RowOfShows | src/kodeklip/tui.py:49-55 | a row's key reads back as its index, its line as the line number, and its cell fits |
| Tui.Toggled | src/kodeklip/tui.py:57-73 | the index flips membership and no other index changes |
| Tui.ToggleTwice | src/kodeklip/tui.py:57-73 | toggling twice restores the selection |
| Tui.PyIndex | src/kodeklip/tui.py:77 | Python indexing: negative indexes count from the end, and out of range raises |
| Tui.SearchResultsTable.constructor | src/kodeklip/tui.py:28-35 | no selection and the cursor on the first row |
| Tui.SearchResultsTable.Mount | src/kodeklip/tui.py:37-55 | one row per result, in order |
| Tui.SearchResultsTable.ToggleRowSelection | src/kodeklip/tui.py:57-73 | the selection is toggled at that index and the cursor stays |
| Tui.SearchResultsTable.GetSelectedResults | src/kodeklip/tui.py:75-77 | raises exactly when a selected index is out of range; otherwise one result per selected index, each index once |
| Tui.SearchResultsTable.CurrentResult | src/kodeklip/tui.py:79-83 | the result under the cursor exactly when the cursor is on a row |
| Tui.SearchResultsTable.Status | src/kodeklip/tui.py:297-306 | "No results" exactly when there are none |
| Tui.WindowStart | src/kodeklip/tui.py:113-115 | the first line shown is at most ten lines before the match and never after it |
| Tui.WindowEnd | src/kodeklip/tui.py:113-116 | the end of the window is the file's end or ten lines past the match, whichever comes first |
| Tui.WindowAtMost21 | src/kodeklip/tui.py:113-118 | the preview shows at most 21 lines |
| Tui.WindowHoldsMatch | src/kodeklip/tui.py:113-118 | for a line in the file, the window is the slice around it and holds it at its place |
| Tui.ShowResult | src/kodeklip/tui.py:96-138 | "file not found" exactly when there is no file; a highlighted preview uses the detected language and highlights the match |
| Tui.ShowLines | src/kodeklip/tui.py:112-135 | a preview from lines is never "not found", and highlights the match in the given language |
| Tui.PlainPreviewMarksMatch | src/kodeklip/tui.py:131-135 | without a language, the matched line alone carries `>>> `, at its place and with its text |
| Tui.PlainLines | src/kodeklip/tui.py:131-135 | one numbered line per window line (specified fully by `PlainMarksOnlyMatch`) |
| Tui.PlainMarksOnlyMatch | src/kodeklip/tui.py:133-135 | each numbered line is marked exactly when its number is the match's, and ends with its text |
| Tui.PlainLinesMarkMatch | src/kodeklip/tui.py:113-135 | for a line in the file, the plain window marks that line alone, at its place, with its text |
| Tui.DetectLanguage | src/kodeklip/tui.py:140-176 | a language exactly when the lower-cased suffix is in the preview table, and then that entry; no suffix, no language |
| Tui.PreviewTableDiffersFromPanel | src/kodeklip/tui.py:142-173 | the preview table is not the panel's: `.tsx` is previewed as TSX but has no panel language, while both give `.py` Python |
| Tui.PythonPreviewed | src/kodeklip/tui.py:140-176 | `.py` in any letter case is previewed as Python |
| Tui.StatusText | src/kodeklip/tui.py:189-192 | "No results" exactly when the total is 0 |
| Tui.StatusBarText | src/kodeklip/tui.py:187-196 | the status followed by the shortcut list |
| Tui.ClipHeader | src/kodeklip/tui.py:369-373 | three header lines, with the plural exactly when the count exceeds 1 |
| Tui.ClipBlock | src/kodeklip/tui.py:376-382 | each result takes five lines of the clipboard text |
| Tui.ClipBody | src/kodeklip/tui.py:375-382 | five lines per result |
| Tui.ClipboardBlocks | src/kodeklip/tui.py:367-384 | the k-th result's block sits after the header at line 3 + 5k |
| Tui.FormatResultsForClipboard | src/kodeklip/tui.py:367-384 | the header then each result's block, joined by newlines |
| Tui.LaunchInteractiveSearch | src/kodeklip/tui.py:387-394 | nothing is shown exactly when there are no results; otherwise the app gets the results and the path |

## Left out

- The md5 digest and JSON text of the cache key: the key is the structured value before hashing, which is equal exactly when the digest input is (digest collisions are not modelled).
- `SearchResult(**d)` on values of the wrong Python type. `Strings.ParseInt` follows `int()` on ASCII input: surrounding whitespace, one optional sign, and digit groups joined by single underscores. Non-ASCII digits are not modelled.
- Path handling is textual: `Path.relative_to` and `Path / name` are string operations on `/`-separated paths, with no `..` or `.` normalisation. The Python 3.12 suffix rule for names ending in a dot is not modelled.
- Time is whole seconds from a `now` parameter; one `now` serves each call.
- `str.isalnum`, `str.lower` and `\w` are modelled for ASCII letters and digits only. `str.strip` and `str.splitlines` use the full `str.isspace` and line-boundary sets.
- SQLite and SQLAlchemy behaviour beyond one rule: when a deleted repository row owns index rows, the ORM sets their non-null `repo_id` to NULL and the commit fails. `GitManager.NotNullFailure` stands for the driver's message, whose SQL text and parameters are not modelled. PRAGMAs, WAL mode and SQL text are not modelled, and a database error is one error value. The named indexes are a count: `create_all` adds those of each table it creates, and `indexes_exist` reads whether the count is positive. Their names are not modelled.
- `Database.Session` models `get_session` on its own. The catalog operations write the store directly, as one committed step or a rollback that changes nothing.
- MB/GB float conversion and the `:.1f`/`:.2f` messages: sizes are integer bytes, and the cleanup message is a summary datatype.
- `get_repository_status`, the clone progress callback and spinner.
- Rich and Textual rendering (panels, syntax, tables, the layout, key bindings, markup such as `[dim]`), pyperclip and `notify`.
- Binary discovery for ripgrep and `validate_ripgrep`. The Ripgrepy run is the `Runner` parameter.
- `_format_detailed_results_for_file` is not part of this model. The `Generated:` timestamp of the TSV header is a parameter.
- Cursor movement, `update_cell` exceptions, file read errors in the preview and `SearchResult.__str__`.
- Python set iteration order: `GetSelectedResults` takes the order as a ghost output.
- `create_backup`/`restore_backup` file copies: whether a backup would succeed is a parameter.
- `GitRepository.get_repository_info` and `GitRepository.list_repositories` are plain catalog reads, the same as `RepositoryManager.GetRepository` and an unordered listing. They have no members of their own.
- The preview table (30 suffixes) and the panel table (20 extensions) are two different literal tables. Only sample entries of their overlap are related by a lemma; agreement on all 20 shared extensions is not proved.
- GitManager.Largest: its own contract states only the length; order, selection and ties are in `LargestAreLargest` and `LargestKeepsTies`.
- Concurrency and cross-process races on the store.

## Findings

| source | as written | input that shows it | evidently intended | confidence | as-written member | corrected member |
|---|---|---|---|---|---|---|
| src/kodeklip/schema.py:366-395 | the boolean parameter `create_backup` shadows the module function `create_backup`, so the call raises a TypeError that the `except` swallows and `backup_created` stays False | `repair_database(create_backup=True)` on a database whose backup would succeed | `backup_created` is True exactly when a backup was asked for and made | not executed | Schema.RepairDatabase | Schema.RepairDatabaseCorrected |

`Schema.RepairDatabase` reports the as-written flag, since that is what the program returns; `Schema.BackupNeverReported` shows it is never set. `Schema.RepairDatabaseCorrected` uses the corrected `Schema.BackupCreated`, and `Schema.BackupReportedWhenMade` proves that the two repairs differ only in that flag, and exactly when a backup was asked for and made.
