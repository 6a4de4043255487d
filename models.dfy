/**
  The two tables of the catalog: a `Repository` row per cloned repository and
  a `SearchIndex` row per indexed file chunk, each index row pointing at the
  repository it belongs to through `repoId`.
*/
module Models {
  import opened Common

  /** A wall-clock instant in whole seconds; the clock itself is an input of every operation. */
  type Timestamp = int

  /** A `Repository` row. `id` stays `None` until the row is inserted. */
  datatype Repository = Repository(
    id: Option<int>,
    alias: string,
    url: string,
    localPath: string,
    lastUpdated: Option<Timestamp>,
    indexed: bool)

  /** A `SearchIndex` row; `repoId` is a foreign key to `Repository.id`. */
  datatype SearchIndex = SearchIndex(
    id: Option<int>,
    repoId: int,
    filePath: string,
    contentHash: string,
    embeddingData: Option<string>,
    createdAt: Timestamp)

  /** `Repository(alias=..., url=..., local_path=...)` with every other field at its default. */
  function NewRepository(alias: string, url: string, localPath: string): (r: Repository)
    ensures r.id.None? && r.lastUpdated.None? && !r.indexed
    ensures r.alias == alias && r.url == url && r.localPath == localPath
  {
    Repository(None, alias, url, localPath, None, false)
  }

  /** `SearchIndex(repo_id=..., file_path=..., content_hash=...)` built at time `now`. */
  function NewSearchIndex(repoId: int, filePath: string, contentHash: string, now: Timestamp): (e: SearchIndex)
    ensures e.id.None? && e.embeddingData.None? && e.createdAt == now
    ensures e.repoId == repoId && e.filePath == filePath && e.contentHash == contentHash
  {
    SearchIndex(None, repoId, filePath, contentHash, None, now)
  }

  /** The unique index on `Repository.alias`. */
  predicate UniqueAliases(repos: seq<Repository>) {
    forall i, j :: 0 <= i < j < |repos| ==> repos[i].alias != repos[j].alias
  }

  /** Every stored repository row has a primary key, and no two share one. */
  predicate KeyedRepositories(repos: seq<Repository>) {
    && (forall i :: 0 <= i < |repos| ==> repos[i].id.Some?)
    && (forall i, j :: 0 <= i < j < |repos| ==> repos[i].id != repos[j].id)
  }

  predicate KeyedIndexes(indexes: seq<SearchIndex>) {
    && (forall i :: 0 <= i < |indexes| ==> indexes[i].id.Some?)
    && (forall i, j :: 0 <= i < j < |indexes| ==> indexes[i].id != indexes[j].id)
  }

  /** The relationship `Repository.search_indexes`: the index rows whose `repoId` is `id`, in row order. */
  function IndexesOf(indexes: seq<SearchIndex>, id: int): (r: seq<SearchIndex>)
    ensures |r| <= |indexes|
    ensures forall e :: e in r <==> e in indexes && e.repoId == id
  {
    if indexes == [] then []
    else (if indexes[0].repoId == id then [indexes[0]] else []) + IndexesOf(indexes[1..], id)
  }

  /** The relationship `SearchIndex.repository`: the repository rows an index row points at. */
  function Owners(repos: seq<Repository>, e: SearchIndex): (r: seq<Repository>)
    ensures forall x :: x in r <==> x in repos && x.id == Some(e.repoId)
  {
    if repos == [] then []
    else (if repos[0].id == Some(e.repoId) then [repos[0]] else []) + Owners(repos[1..], e)
  }

  /** With distinct primary keys, an index row belongs to at most one repository. */
  lemma {:induction false} AtMostOneOwner(repos: seq<Repository>, e: SearchIndex)
    requires KeyedRepositories(repos)
    ensures |Owners(repos, e)| <= 1
    decreases |repos|
  {
    if repos != [] {
      AtMostOneOwner(repos[1..], e);
      if repos[0].id == Some(e.repoId) {
        var o := Owners(repos[1..], e);
        assert Owners(repos, e) == [repos[0]] + o;
        NoOwners(repos[1..], e);
      }
    }
  }

  lemma {:induction false} NoOwners(repos: seq<Repository>, e: SearchIndex)
    requires forall j :: 0 <= j < |repos| ==> repos[j].id != Some(e.repoId)
    ensures Owners(repos, e) == []
    decreases |repos|
  {
    if repos != [] {
      NoOwners(repos[1..], e);
    }
  }

  /** Adding an index row for `id` adds one to that repository's entries and leaves every other repository's unchanged. */
  lemma {:induction false} IndexesOfAppend(indexes: seq<SearchIndex>, e: SearchIndex, id: int)
    ensures IndexesOf(indexes + [e], id) == IndexesOf(indexes, id) + (if e.repoId == id then [e] else [])
    decreases |indexes|
  {
    if indexes == [] {
      assert indexes + [e] == [e];
    } else {
      assert (indexes + [e])[1..] == indexes[1..] + [e];
      IndexesOfAppend(indexes[1..], e, id);
    }
  }

  /** The first row with this alias (`select(Repository).where(alias == a).first()`). */
  function FindAlias(repos: seq<Repository>, alias: string): (r: Option<nat>)
    ensures r.None? <==> forall i :: 0 <= i < |repos| ==> repos[i].alias != alias
    ensures r.Some? ==> r.value < |repos| && repos[r.value].alias == alias
    ensures r.Some? ==> forall i :: 0 <= i < r.value ==> repos[i].alias != alias
  {
    if repos == [] then None
    else if repos[0].alias == alias then Some(0)
    else match FindAlias(repos[1..], alias)
      case None => None
      case Some(k) => Some(k + 1)
  }

  /** A row appended to the table is found under its alias. */
  lemma FoundAfterAppend(repos: seq<Repository>, row: Repository)
    ensures FindAlias(repos + [row], row.alias).Some?
  {
    assert (repos + [row])[|repos|].alias == row.alias;
  }

  /** A row whose alias and key no other row has keeps the catalog's keys distinct. */
  lemma AppendKeyed(rows: seq<Repository>, x: Repository)
    requires UniqueAliases(rows) && KeyedRepositories(rows) && x.id.Some?
    requires forall y :: y in rows ==> y.alias != x.alias && y.id != x.id
    ensures UniqueAliases(rows + [x]) && KeyedRepositories(rows + [x])
  {
    var r := rows + [x];
    forall a, b | 0 <= a < b < |r| ensures r[a].alias != r[b].alias && r[a].id != r[b].id {
      if b == |rows| {
        assert r[a] in rows;
      } else {
        assert r[a] == rows[a] && r[b] == rows[b];
      }
    }
    forall a | 0 <= a < |r| ensures r[a].id.Some? {
      if a < |rows| { assert r[a] == rows[a]; }
    }
  }

  /**
    The rowid SQLite gives the next row inserted into a table whose rows carry
    the keys `ids`: one more than the largest in use, 1 for an empty table.
  */
  function NextId(ids: seq<Option<int>>): (r: int)
    ensures r >= 1
    ensures forall i :: 0 <= i < |ids| && ids[i].Some? ==> ids[i].value < r
  {
    if ids == [] then 1
    else
      var rest := NextId(ids[1..]);
      if ids[0].Some? && ids[0].value >= rest then ids[0].value + 1 else rest
  }

  /** The keys of the repository rows, in table order. */
  function RepositoryIds(repos: seq<Repository>): (ids: seq<Option<int>>)
    ensures |ids| == |repos| && forall i :: 0 <= i < |repos| ==> ids[i] == repos[i].id
  {
    seq(|repos|, i requires 0 <= i < |repos| => repos[i].id)
  }

  /** The key the next inserted repository row gets: positive and larger than every key in use. */
  function NextRepositoryId(repos: seq<Repository>): (r: int)
    ensures r >= 1
    ensures forall i :: 0 <= i < |repos| && repos[i].id.Some? ==> repos[i].id.value < r
  {
    NextId(RepositoryIds(repos))
  }
}
