/**
  CRUD over the catalog: adding, reading, listing, updating and removing
  `Repository` rows, removal cascading to the repository's `SearchIndex` rows.
  Queries are functions of the database contents; the three operations that
  write are methods on the `Store`, each one session that commits at the end or
  changes nothing.
*/
module RepositoryManager {
  import opened Common
  import opened Strings
  import opened Sorting
  import opened Models
  import opened Database

  /**
    `RepositoryAlreadyExistsError`, `RepositoryNotFoundError`, and the generic
    `RepositoryError` raised when the query itself fails (here: its table is missing).
  */
  datatype RepositoryError =
    | AlreadyExists(alias: string)
    | NotFound(alias: string)
    | QueryFailed

  function Message(e: RepositoryError): string
  {
    match e
    case AlreadyExists(a) => "Repository with alias '" + a + "' already exists"
    case NotFound(a) => "Repository with alias '" + a + "' not found"
    case QueryFailed => "Failed to query the repository table"
  }

  // ---------------------------------------------------------------------------
  // Queries

  /** `get_repository`: the row with this alias, or NotFound. */
  function GetRepository(db: Db, alias: string): (r: Result<Repository, RepositoryError>)
    ensures !db.repositoryTable ==> r == Err(QueryFailed)
    ensures db.repositoryTable ==> (r == Err(NotFound(alias)) <==> forall i :: 0 <= i < |db.repos| ==> db.repos[i].alias != alias)
    ensures r.Ok? ==> r.value in db.repos && r.value.alias == alias
  {
    if !db.repositoryTable then Err(QueryFailed)
    else match FindAlias(db.repos, alias)
      case None => Err(NotFound(alias))
      case Some(i) => Ok(db.repos[i])
  }

  /** `repository_exists`. */
  function RepositoryExists(db: Db, alias: string): (r: Result<bool, RepositoryError>)
    ensures !db.repositoryTable <==> r.Err?
    ensures r.Ok? ==> (r.value <==> exists i :: 0 <= i < |db.repos| && db.repos[i].alias == alias)
  {
    if !db.repositoryTable then Err(QueryFailed) else Ok(FindAlias(db.repos, alias).Some?)
  }

  /** `get_repository` fails with NotFound exactly when `repository_exists` is false. */
  lemma ExistsIffFound(db: Db, alias: string)
    requires db.repositoryTable
    ensures RepositoryExists(db, alias) == Ok(false) <==> GetRepository(db, alias) == Err(NotFound(alias))
    ensures RepositoryExists(db, alias) == Ok(true) <==> GetRepository(db, alias).Ok?
  {
  }

  /** SQL `ORDER BY alias` under SQLite's default (code point) collation. */
  predicate AliasLe(a: Repository, b: Repository) {
    LexLe(a.alias, b.alias)
  }

  lemma AliasOrderIsTotal()
    ensures TotalPreorder(AliasLe)
  {
    forall a: Repository, b: Repository
      ensures AliasLe(a, b) || AliasLe(b, a)
    {
      LexLeTotal(a.alias, b.alias);
    }
    forall a: Repository, b: Repository, c: Repository | AliasLe(a, b) && AliasLe(b, c)
      ensures AliasLe(a, c)
    {
      LexLeTrans(a.alias, b.alias, c.alias);
    }
  }

  /** `list_repositories`: every row, ordered by alias. */
  function ListRepositories(db: Db): (r: Result<seq<Repository>, RepositoryError>)
    ensures r.Err? <==> !db.repositoryTable
  {
    if !db.repositoryTable then Err(QueryFailed) else Ok(Sort(db.repos, AliasLe))
  }

  /** The listing holds exactly the rows of the table, each once, in strictly ascending alias order. */
  lemma ListIsOrderedPermutation(db: Db)
    requires DbValid(db) && db.repositoryTable
    ensures var l := ListRepositories(db).value;
      && multiset(l) == multiset(db.repos)
      && (forall i, j :: 0 <= i < j < |l| ==> LexLe(l[i].alias, l[j].alias) && l[i].alias != l[j].alias)
  {
    var l := Sort(db.repos, AliasLe);
    AliasOrderIsTotal();
    SortSorted(db.repos, AliasLe);
    SortPermutes(db.repos, AliasLe);
    forall i, j | 0 <= i < j < |l|
      ensures l[i].alias != l[j].alias
    {
      DistinctAliasesAfterPermutation(db.repos, l, i, j);
    }
  }

  /** A permutation of rows with unique aliases still has unique aliases. */
  lemma DistinctAliasesAfterPermutation(s: seq<Repository>, t: seq<Repository>, i: nat, j: nat)
    requires UniqueAliases(s) && multiset(s) == multiset(t)
    requires i < j < |t|
    ensures t[i].alias != t[j].alias
  {
    assert t[i] in multiset(s) && t[j] in multiset(s);
    var a :| 0 <= a < |s| && s[a] == t[i];
    var b :| 0 <= b < |s| && s[b] == t[j];
    MultiplicityOfUnique(s, a);
    RepeatedElement(t, i, j);
  }

  lemma RepeatedElement<T>(t: seq<T>, i: nat, j: nat)
    requires i < j < |t|
    ensures t[i] == t[j] ==> multiset(t)[t[i]] >= 2
  {
    assert t == t[..i] + [t[i]] + t[i + 1..j] + [t[j]] + t[j + 1..];
  }

  lemma {:induction false} MultiplicityOfUnique(s: seq<Repository>, a: nat)
    requires UniqueAliases(s) && a < |s|
    ensures multiset(s)[s[a]] == 1
    decreases |s|
  {
    if a == 0 {
      assert s == [s[0]] + s[1..];
      assert s[0] !in s[1..];
    } else {
      assert s == [s[0]] + s[1..];
      assert s[1..][a - 1] == s[a];
      MultiplicityOfUnique(s[1..], a - 1);
    }
  }

  /** `get_repository_count`. */
  function GetRepositoryCount(db: Db): (r: Result<nat, RepositoryError>)
    ensures r.Err? <==> !db.repositoryTable
    ensures r.Ok? ==> r.value == |db.repos|
  {
    if !db.repositoryTable then Err(QueryFailed) else Ok(|db.repos|)
  }

  /** The dictionary `get_repository_info` returns. */
  datatype RepositoryInfo = RepositoryInfo(
    id: Option<int>,
    alias: string,
    url: string,
    localPath: string,
    lastUpdated: Option<Timestamp>,
    indexed: bool,
    searchIndexCount: nat)

  /** `get_repository_info`: the row's fields and how many index rows point at it. */
  function GetRepositoryInfo(db: Db, alias: string): (r: Result<RepositoryInfo, RepositoryError>)
    requires DbValid(db)
    ensures GetRepository(db, alias).Err? ==> r == Err(GetRepository(db, alias).error)
    ensures r.Ok? ==> r.value.alias == alias && exists x :: x in db.repos && x.alias == alias && x.id == r.value.id
  {
    match GetRepository(db, alias)
    case Err(e) => Err(e)
    case Ok(rec) =>
      if !db.searchIndexTable then Err(QueryFailed)
      else Ok(RepositoryInfo(rec.id, rec.alias, rec.url, rec.localPath, rec.lastUpdated, rec.indexed,
                             |IndexesOf(db.indexes, rec.id.value)|))
  }

  /** Info agrees with `get_repository`, and the count is the number of index rows whose `repoId` is the row's id. */
  lemma InfoCountsOwnIndexes(db: Db, alias: string)
    requires DbValid(db) && db.searchIndexTable
    ensures GetRepositoryInfo(db, alias).Err? <==> GetRepository(db, alias).Err?
    ensures GetRepositoryInfo(db, alias).Ok? ==>
      var rec := GetRepository(db, alias).value;
      var info := GetRepositoryInfo(db, alias).value;
      && info.id == rec.id && info.alias == alias && info.url == rec.url && info.localPath == rec.localPath
      && info.lastUpdated == rec.lastUpdated && info.indexed == rec.indexed
      && info.searchIndexCount == CountOwned(db.indexes, rec.id.value)
  {
    if GetRepository(db, alias).Ok? {
      var rec := GetRepository(db, alias).value;
      assert rec in db.repos;
      IndexesOfCounts(db.indexes, rec.id.value);
    }
  }

  /** The number of index rows with this `repoId`, counted one row at a time. */
  function CountOwned(indexes: seq<SearchIndex>, id: int): nat
  {
    if indexes == [] then 0
    else CountOwned(indexes[..|indexes| - 1], id) + (if indexes[|indexes| - 1].repoId == id then 1 else 0)
  }

  lemma {:induction false} IndexesOfCounts(indexes: seq<SearchIndex>, id: int)
    ensures |IndexesOf(indexes, id)| == CountOwned(indexes, id)
    decreases |indexes|
  {
    if indexes != [] {
      var init := indexes[..|indexes| - 1];
      var last := indexes[|indexes| - 1];
      IndexesOfCounts(init, id);
      IndexesOfAppend(init, last, id);
      assert init + [last] == indexes;
    }
  }

  // ---------------------------------------------------------------------------
  // Writes

  /** The row `add_repository` inserts: defaults from the model, the next rowid as key. */
  function InsertedRow(repos: seq<Repository>, alias: string, url: string, localPath: string): Repository
  {
    NewRepository(alias, url, localPath).(id := Some(NextRepositoryId(repos)))
  }

  /** Inserting a row under a new alias keeps the catalog's aliases and keys unique. */
  lemma InsertKeepsValid(db: Db, alias: string, url: string, localPath: string)
    requires DbValid(db) && db.repositoryTable && FindAlias(db.repos, alias).None?
    ensures DbValid(db.(repos := db.repos + [InsertedRow(db.repos, alias, url, localPath)]))
  {
    var x := InsertedRow(db.repos, alias, url, localPath);
    forall y | y in db.repos ensures y.alias != x.alias && y.id != x.id {
      var i :| 0 <= i < |db.repos| && db.repos[i] == y;
    }
    AppendKeyed(db.repos, x);
  }

  /** `add_repository`: refuses an alias already present; otherwise appends one row with `lastUpdated = None` and `indexed = false`. */
  method AddRepository(store: Store, alias: string, url: string, localPath: string)
    returns (r: Result<Repository, RepositoryError>)
    requires store.Valid()
    modifies store
    ensures store.Valid()
    ensures !old(store.db.repositoryTable) ==> r == Err(QueryFailed) && store.db == old(store.db)
    ensures old(store.db.repositoryTable) && old(FindAlias(store.db.repos, alias)).Some? ==>
      r == Err(AlreadyExists(alias)) && store.db == old(store.db)
    ensures old(store.db.repositoryTable) && old(FindAlias(store.db.repos, alias)).None? ==>
      && r == Ok(InsertedRow(old(store.db.repos), alias, url, localPath))
      && store.db == old(store.db).(repos := old(store.db.repos) + [r.value])
  {
    if !store.db.repositoryTable {
      return Err(QueryFailed);
    }
    if FindAlias(store.db.repos, alias).Some? {
      return Err(AlreadyExists(alias));
    }
    var row := InsertedRow(store.db.repos, alias, url, localPath);
    InsertKeepsValid(store.db, alias, url, localPath);
    store.db := store.db.(repos := store.db.repos + [row]);
    r := Ok(row);
  }

  /** The row after `update_repository_status`: only the fields given a value change. */
  function ApplyStatus(rec: Repository, lastUpdated: Option<Timestamp>, indexed: Option<bool>): (r: Repository)
  {
    var withTime := if lastUpdated.Some? then rec.(lastUpdated := lastUpdated) else rec;
    if indexed.Some? then withTime.(indexed := indexed.value) else withTime
  }

  /** Each field of the updated row is the given value when one was given and the old value otherwise. */
  lemma ApplyStatusFields(rec: Repository, lastUpdated: Option<Timestamp>, indexed: Option<bool>)
    ensures var r := ApplyStatus(rec, lastUpdated, indexed);
      && r.id == rec.id && r.alias == rec.alias && r.url == rec.url && r.localPath == rec.localPath
      && r.lastUpdated == (if lastUpdated.Some? then lastUpdated else rec.lastUpdated)
      && r.indexed == (if indexed.Some? then indexed.value else rec.indexed)
  {
  }

  /** Updating with no values leaves the row as it was; updating twice with the same values is updating once. */
  lemma ApplyStatusIdempotent(rec: Repository, lastUpdated: Option<Timestamp>, indexed: Option<bool>)
    ensures ApplyStatus(rec, None, None) == rec
    ensures ApplyStatus(ApplyStatus(rec, lastUpdated, indexed), lastUpdated, indexed) == ApplyStatus(rec, lastUpdated, indexed)
  {
  }

  /** `update_repository_status`: NotFound for an unknown alias, otherwise that one row is rewritten by `ApplyStatus`. */
  method UpdateRepositoryStatus(store: Store, alias: string, lastUpdated: Option<Timestamp>, indexed: Option<bool>)
    returns (r: Result<Repository, RepositoryError>)
    requires store.Valid()
    modifies store
    ensures store.Valid()
    ensures r.Err? ==> store.db == old(store.db) && r == old(GetRepository(store.db, alias))
    ensures old(GetRepository(store.db, alias)).Err? <==> r.Err?
    ensures r.Ok? ==>
      var i := old(FindAlias(store.db.repos, alias)).value;
      && r.value == ApplyStatus(old(store.db.repos[i]), lastUpdated, indexed)
      && store.db == old(store.db).(repos := old(store.db.repos)[i := r.value])
  {
    if !store.db.repositoryTable {
      return Err(QueryFailed);
    }
    var found := FindAlias(store.db.repos, alias);
    if found.None? {
      return Err(NotFound(alias));
    }
    var i := found.value;
    var row := ApplyStatus(store.db.repos[i], lastUpdated, indexed);
    store.db := store.db.(repos := store.db.repos[i := row]);
    r := Ok(row);
  }

  /** The index rows that do not belong to repository `id`, in row order. */
  function OtherIndexes(indexes: seq<SearchIndex>, id: int): (r: seq<SearchIndex>)
    ensures forall e :: e in r <==> e in indexes && e.repoId != id
  {
    if indexes == [] then []
    else
      var init := indexes[..|indexes| - 1];
      var last := indexes[|indexes| - 1];
      assert indexes == init + [last];
      OtherIndexes(init, id) + (if last.repoId != id then [last] else [])
  }

  /** One more row is kept at the end exactly when it belongs to another repository. */
  lemma OtherIndexesSnoc(init: seq<SearchIndex>, last: SearchIndex, id: int)
    ensures OtherIndexes(init + [last], id) == OtherIndexes(init, id) + (if last.repoId != id then [last] else [])
  {
    assert (init + [last])[..|init|] == init;
  }

  /** A repository's index rows and the rest partition the table. */
  lemma OwnedAndOthersPartition(indexes: seq<SearchIndex>, id: int)
    ensures |IndexesOf(indexes, id)| + |OtherIndexes(indexes, id)| == |indexes|
    ensures multiset(IndexesOf(indexes, id)) + multiset(OtherIndexes(indexes, id)) == multiset(indexes)
  {
    PartitionCounts(indexes, id);
    PartitionLength(indexes, id);
  }

  lemma {:induction false} PartitionCounts(indexes: seq<SearchIndex>, id: int)
    ensures multiset(IndexesOf(indexes, id)) + multiset(OtherIndexes(indexes, id)) == multiset(indexes)
    decreases |indexes|
  {
    if indexes != [] {
      var init := indexes[..|indexes| - 1];
      var last := indexes[|indexes| - 1];
      assert init + [last] == indexes;
      PartitionCounts(init, id);
      IndexesOfAppend(init, last, id);
    }
  }

  lemma {:induction false} PartitionLength(indexes: seq<SearchIndex>, id: int)
    ensures |IndexesOf(indexes, id)| + |OtherIndexes(indexes, id)| == |indexes|
    decreases |indexes|
  {
    if indexes != [] {
      var init := indexes[..|indexes| - 1];
      var last := indexes[|indexes| - 1];
      assert init + [last] == indexes;
      PartitionLength(init, id);
      IndexesOfAppend(init, last, id);
    }
  }

  lemma {:induction false} OtherIndexesKeyed(indexes: seq<SearchIndex>, id: int)
    requires KeyedIndexes(indexes)
    ensures KeyedIndexes(OtherIndexes(indexes, id))
    decreases |indexes|
  {
    if indexes != [] {
      var init := indexes[..|indexes| - 1];
      var last := indexes[|indexes| - 1];
      assert init + [last] == indexes;
      assert KeyedIndexes(init);
      OtherIndexesKeyed(init, id);
      OtherIndexesSnoc(init, last, id);
      if last.repoId != id {
        var o := OtherIndexes(init, id);
        forall i | 0 <= i < |o|
          ensures o[i].id != last.id
        {
          assert o[i] in init;
          var k :| 0 <= k < |init| && init[k] == o[i];
          assert indexes[k] == o[i];
        }
        KeyedSnoc(o, last);
      }
    }
  }

  /** A row whose key no earlier row has keeps the keys distinct. */
  lemma KeyedSnoc(o: seq<SearchIndex>, last: SearchIndex)
    requires KeyedIndexes(o) && last.id.Some?
    requires forall i :: 0 <= i < |o| ==> o[i].id != last.id
    ensures KeyedIndexes(o + [last])
  {
    var s := o + [last];
    forall i, j | 0 <= i < j < |s|
      ensures s[i].id != s[j].id
    {
      if j < |o| {
        assert s[i] == o[i] && s[j] == o[j];
      } else {
        assert s[i] == o[i] && s[j] == last;
      }
    }
  }

  function RemoveAt(repos: seq<Repository>, i: nat): seq<Repository>
    requires i < |repos|
  {
    repos[..i] + repos[i + 1..]
  }

  lemma RemoveAtKeepsKeys(repos: seq<Repository>, i: nat)
    requires i < |repos| && UniqueAliases(repos) && KeyedRepositories(repos)
    ensures UniqueAliases(RemoveAt(repos, i)) && KeyedRepositories(RemoveAt(repos, i))
    ensures forall k :: 0 <= k < |RemoveAt(repos, i)| ==> RemoveAt(repos, i)[k].alias != repos[i].alias
  {
    var r := RemoveAt(repos, i);
    forall a, b | 0 <= a < b < |r|
      ensures r[a].alias != r[b].alias && r[a].id != r[b].id
    {
      var a' := if a < i then a else a + 1;
      var b' := if b < i then b else b + 1;
      assert r[a] == repos[a'] && r[b] == repos[b'];
    }
    forall k | 0 <= k < |r|
      ensures r[k].alias != repos[i].alias
    {
      var k' := if k < i then k else k + 1;
      assert r[k] == repos[k'];
    }
  }

  /** Deleting a repository's index rows one row at a time keeps the other rows, in order. */
  method DeleteIndexesOf(indexes: seq<SearchIndex>, id: int) returns (kept: seq<SearchIndex>)
    ensures kept == OtherIndexes(indexes, id)
  {
    kept := [];
    var k := 0;
    while k < |indexes|
      invariant 0 <= k <= |indexes|
      invariant kept == OtherIndexes(indexes[..k], id)
    {
      assert indexes[..k + 1] == indexes[..k] + [indexes[k]];
      OtherIndexesSnoc(indexes[..k], indexes[k], id);
      if indexes[k].repoId != id {
        kept := kept + [indexes[k]];
      }
      k := k + 1;
    }
    assert indexes[..k] == indexes;
  }

  /**
    `remove_repository`: `Ok(false)` and no change for an unknown alias;
    otherwise the row and every index row pointing at it are deleted.
  */
  method RemoveRepository(store: Store, alias: string) returns (r: Result<bool, RepositoryError>)
    requires store.Valid()
    modifies store
    ensures store.Valid()
    ensures !old(store.db.repositoryTable) ==> r == Err(QueryFailed) && store.db == old(store.db)
    ensures old(store.db.repositoryTable) && old(FindAlias(store.db.repos, alias)).None? ==>
      r == Ok(false) && store.db == old(store.db)
    ensures old(store.db.repositoryTable) && old(FindAlias(store.db.repos, alias)).Some? && !old(store.db.searchIndexTable) ==>
      r == Err(QueryFailed) && store.db == old(store.db)
    ensures r == Ok(true) ==>
      var i := old(FindAlias(store.db.repos, alias)).value;
      var id := old(store.db.repos[i].id.value);
      && store.db == old(store.db).(repos := RemoveAt(old(store.db.repos), i),
                                    indexes := OtherIndexes(old(store.db.indexes), id))
      && FindAlias(store.db.repos, alias).None?
    ensures r.Ok? <==> old(store.db.repositoryTable) && (old(FindAlias(store.db.repos, alias)).Some? ==> old(store.db.searchIndexTable))
    ensures r == Ok(true) <==> old(store.db.repositoryTable) && old(store.db.searchIndexTable) && old(FindAlias(store.db.repos, alias)).Some?
  {
    if !store.db.repositoryTable {
      return Err(QueryFailed);
    }
    var found := FindAlias(store.db.repos, alias);
    if found.None? {
      return Ok(false);
    }
    if !store.db.searchIndexTable {
      return Err(QueryFailed);
    }
    var i := found.value;
    var id := store.db.repos[i].id.value;
    // delete the repository's index rows first
    var indexes := store.db.indexes;
    var kept := DeleteIndexesOf(indexes, id);
    OtherIndexesKeyed(indexes, id);
    RemoveAtKeepsKeys(store.db.repos, i);
    store.db := store.db.(repos := RemoveAt(store.db.repos, i), indexes := kept);
    r := Ok(true);
  }
}
