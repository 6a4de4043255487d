/**
  `GitRepository`: the local cache of cloned repositories under
  `<kodeklip dir>/repos`, kept in step with the catalog's `Repository` rows.
  Every operation is a transition of the pair (catalog, filesystem). What git
  does (whether a clone or a fetch raises, what it leaves on disk, whether the
  working tree is dirty, the per-ref fetch flags) is an input of the
  transition.
*/
module GitManager {
  import opened Common
  import opened Strings
  import opened Models
  import opened Database
  import opened FileTree
  import opened GitUrl
  import opened Sorting
  import RepositoryManager

  /** `FetchInfo.HEAD_UPTODATE` in GitPython. */
  const HeadUpToDate: int := 4

  /** An exception raised by a git call: `GitCommandError`, `InvalidGitRepositoryError`, or any other, with its text. */
  datatype GitError = CommandError(text: string) | InvalidRepository(text: string) | OtherError(text: string)

  /** What `Repo.clone_from` did: returned or raised, and what it left at the target path. */
  datatype CloneOutcome =
    | Cloned(left: Option<Entry>)
    | CloneFailed(error: GitError, left: Option<Entry>)
  {
    predicate WellFormed() {
      left.Some? && left.value.hasGit ==> left.value.isDir
    }
  }

  const AuthNote: string := "\nNote: For private repositories, ensure your SSH keys are configured or use a personal access token."
  const MissingRemoteNote: string := "\nThe repository URL may be incorrect or the repository may not exist."
  const NetworkNote: string := "\nNetwork error. Please check your internet connection and try again."

  predicate NetworkTrouble(t: string) {
    Contains(t, "Network is unreachable") || Contains(t, "Temporary failure")
  }

  /** The hint appended to a failed clone: the first of the three that applies, or none. */
  function CloneNote(t: string): (n: string)
    ensures n == "" || n == AuthNote || n == MissingRemoteNote || n == NetworkNote
    ensures n == AuthNote <==> Contains(t, "Authentication failed")
    ensures n == MissingRemoteNote <==> !Contains(t, "Authentication failed") && Contains(t, "Repository not found")
    ensures n == NetworkNote <==>
      !Contains(t, "Authentication failed") && !Contains(t, "Repository not found") && NetworkTrouble(t)
  {
    if Contains(t, "Authentication failed") then AuthNote
    else if Contains(t, "Repository not found") then MissingRemoteNote
    else if NetworkTrouble(t) then NetworkNote
    else ""
  }

  /** The hint appended to a failed update: authentication or network, never the missing-remote one. */
  function UpdateNote(t: string): (n: string)
    ensures n == "" || n == AuthNote || n == NetworkNote
    ensures n == AuthNote <==> Contains(t, "Authentication failed")
    ensures n == NetworkNote <==> !Contains(t, "Authentication failed") && NetworkTrouble(t)
  {
    if Contains(t, "Authentication failed") then AuthNote
    else if NetworkTrouble(t) then NetworkNote
    else ""
  }

  function CloneFailureMessage(e: GitError): string
  {
    match e
    case CommandError(t) => "Git clone failed: " + t + CloneNote(t)
    case InvalidRepository(t) => "Unexpected error during clone: " + t
    case OtherError(t) => "Unexpected error during clone: " + t
  }

  function UpdateFailureMessage(alias: string, e: GitError): string
  {
    match e
    case CommandError(t) => "Git update failed: " + t + UpdateNote(t)
    case InvalidRepository(_) => "Local repository '" + alias + "' is corrupted or not a valid git repository"
    case OtherError(t) => "Unexpected error during update: " + t
  }

  function CheckFailureMessage(alias: string, e: GitError): string
  {
    match e
    case CommandError(t) => "Failed to check remote updates: " + t + (if NetworkTrouble(t) then NetworkNote else "")
    case InvalidRepository(_) => "Local repository '" + alias + "' is corrupted or not a valid git repository"
    case OtherError(t) => "Unexpected error checking remote updates: " + t
  }

  /** Some ref moved: a fetch flag other than `HEAD_UPTODATE`. */
  predicate AnyNotUpToDate(flags: seq<int>) {
    exists i :: 0 <= i < |flags| && flags[i] != HeadUpToDate
  }

  /** The scan of `fetch_info` shared by `update_repository` and `check_remote_updates`: stops at the first moved ref. */
  method HasNewCommits(flags: seq<int>) returns (has: bool)
    ensures has <==> AnyNotUpToDate(flags)
  {
    has := false;
    var i := 0;
    while i < |flags|
      invariant 0 <= i <= |flags|
      invariant forall j :: 0 <= j < i ==> flags[j] == HeadUpToDate
    {
      if flags[i] != HeadUpToDate {
        has := true;
        break;
      }
      i := i + 1;
    }
  }

  /** The names of the catalog's repositories. */
  function AliasSet(repos: seq<Repository>): (s: set<string>)
    ensures forall a :: a in s <==> FindAlias(repos, a).Some?
  {
    set r | r in repos :: r.alias
  }

  // ---------------------------------------------------------------------------
  // cleanup_orphaned_files

  /** A child of the cache directory that is a directory named after no catalog alias. */
  predicate IsOrphanDir(entries: map<string, Entry>, dir: string, aliases: set<string>, n: string) {
    PathJoin(dir, n) in entries && entries[PathJoin(dir, n)].isDir && n !in aliases
  }

  function OrphanIn(entries: map<string, Entry>, dir: string, aliases: set<string>): string -> bool {
    n => IsOrphanDir(entries, dir, aliases, n)
  }

  /** Walking it for its size succeeds and `rmtree` can delete it. */
  predicate Clearable(entries: map<string, Entry>, dir: string, n: string) {
    PathJoin(dir, n) in entries && entries[PathJoin(dir, n)].walkable && entries[PathJoin(dir, n)].removable
  }

  function ClearableIn(entries: map<string, Entry>, dir: string): string -> bool {
    n => Clearable(entries, dir, n)
  }

  function StuckIn(entries: map<string, Entry>, dir: string): string -> bool {
    n => !Clearable(entries, dir, n)
  }

  /** The total size of the named children, in bytes. */
  function SizeSum(names: seq<string>, entries: map<string, Entry>, dir: string): nat
  {
    if names == [] then 0
    else
      var n := names[|names| - 1];
      SizeSum(names[..|names| - 1], entries, dir) + (if PathJoin(dir, n) in entries then entries[PathJoin(dir, n)].size else 0)
  }

  lemma SizeSumSnoc(names: seq<string>, n: string, entries: map<string, Entry>, dir: string)
    ensures SizeSum(names + [n], entries, dir)
         == SizeSum(names, entries, dir) + (if PathJoin(dir, n) in entries then entries[PathJoin(dir, n)].size else 0)
  {
    assert (names + [n])[..|names|] == names;
  }

  /** The paths of the named children. */
  function PathsOf(names: seq<string>, dir: string): set<string>
  {
    set n | n in names :: PathJoin(dir, n)
  }

  lemma PathsOfSnoc(names: seq<string>, n: string, dir: string)
    ensures PathsOf(names + [n], dir) == PathsOf(names, dir) + {PathJoin(dir, n)}
  {
  }

  /** A child's path is among the paths of some names exactly when the child is one of them. */
  lemma PathsOfMember(names: seq<string>, dir: string, n: string)
    ensures PathJoin(dir, n) in PathsOf(names, dir) <==> n in names
  {
    if PathJoin(dir, n) in PathsOf(names, dir) {
      var m :| m in names && PathJoin(dir, m) == PathJoin(dir, n);
      JoinInjective(dir, m, n);
    }
  }

  /** Cleanup never touches the directory of a catalogued alias: only orphans are removed. */
  lemma AliasDirsKept(removed: seq<string>, dir: string, aliases: set<string>, a: string)
    requires forall n :: n in removed ==> n !in aliases
    requires a in aliases
    ensures PathJoin(dir, a) !in PathsOf(removed, dir)
  {
    PathsOfMember(removed, dir, a);
  }

  /** The orphans' sizes split between what was freed and what could not be removed. */
  lemma {:induction false} SizeSumSplit(names: seq<string>, entries: map<string, Entry>, dir: string)
    ensures SizeSum(names, entries, dir)
         == SizeSum(Filter(names, ClearableIn(entries, dir)), entries, dir) + SizeSum(Filter(names, StuckIn(entries, dir)), entries, dir)
    decreases |names|
  {
    if names != [] {
      var init := names[..|names| - 1];
      var n := names[|names| - 1];
      assert names == init + [n];
      SizeSumSplit(init, entries, dir);
      FilterSnoc(init, n, ClearableIn(entries, dir));
      FilterSnoc(init, n, StuckIn(entries, dir));
      var a := Filter(init, ClearableIn(entries, dir));
      var b := Filter(init, StuckIn(entries, dir));
      if Clearable(entries, dir, n) {
        assert (a + [n])[..|a|] == a;
        assert Filter(names, StuckIn(entries, dir)) == b;
      } else {
        assert (b + [n])[..|b|] == b;
        assert Filter(names, ClearableIn(entries, dir)) == a;
      }
    }
  }

  /** The cleanup loop's invariant after the children `seen`. */
  ghost predicate CleanupState(start: map<string, Entry>, dir: string, aliases: set<string>, seen: seq<string>,
                               orphaned: seq<string>, removed: seq<string>, failed: seq<string>, freed: nat,
                               entries: map<string, Entry>)
  {
    && orphaned == Filter(seen, OrphanIn(start, dir, aliases))
    && removed == Filter(orphaned, ClearableIn(start, dir))
    && failed == Filter(orphaned, StuckIn(start, dir))
    && freed == SizeSum(removed, start, dir)
    && entries == start - PathsOf(removed, dir)
  }

  /** A child not yet seen has not been removed: its entry is as it was at the start. */
  lemma UntouchedChild(start: map<string, Entry>, dir: string, aliases: set<string>, seen: seq<string>,
                       orphaned: seq<string>, removed: seq<string>, failed: seq<string>, freed: nat,
                       entries: map<string, Entry>, n: string)
    requires CleanupState(start, dir, aliases, seen, orphaned, removed, failed, freed, entries)
    requires PathJoin(dir, n) in start && n !in seen
    ensures PathJoin(dir, n) in entries && entries[PathJoin(dir, n)] == start[PathJoin(dir, n)]
  {
    assert n !in orphaned;
    assert n !in removed;
    PathsOfMember(removed, dir, n);
  }

  /** A child that is no orphan leaves every list as it was. */
  lemma SkippedStep(start: map<string, Entry>, dir: string, aliases: set<string>, seen: seq<string>,
                    orphaned: seq<string>, removed: seq<string>, failed: seq<string>, freed: nat,
                    entries: map<string, Entry>, n: string)
    requires CleanupState(start, dir, aliases, seen, orphaned, removed, failed, freed, entries)
    requires !IsOrphanDir(start, dir, aliases, n)
    ensures CleanupState(start, dir, aliases, seen + [n], orphaned, removed, failed, freed, entries)
  {
    FilterSnoc(seen, n, OrphanIn(start, dir, aliases));
  }

  /** An orphan that is deleted joins the orphans and the removed, and its size is freed. */
  lemma RemovedStep(start: map<string, Entry>, dir: string, aliases: set<string>, seen: seq<string>,
                    orphaned: seq<string>, removed: seq<string>, failed: seq<string>, freed: nat, n: string)
    requires CleanupState(start, dir, aliases, seen, orphaned, removed, failed, freed, start - PathsOf(removed, dir))
    requires IsOrphanDir(start, dir, aliases, n) && Clearable(start, dir, n)
    ensures CleanupState(start, dir, aliases, seen + [n], orphaned + [n], removed + [n], failed,
                         freed + start[PathJoin(dir, n)].size, start - PathsOf(removed, dir) - {PathJoin(dir, n)})
  {
    FilterSnoc(seen, n, OrphanIn(start, dir, aliases));
    FilterSnoc(orphaned, n, ClearableIn(start, dir));
    FilterSnoc(orphaned, n, StuckIn(start, dir));
    SizeSumSnoc(removed, n, start, dir);
    PathsOfSnoc(removed, n, dir);
    MinusUnion(start, PathsOf(removed, dir), PathJoin(dir, n));
  }

  /** An orphan that cannot be measured or deleted joins the orphans and the failures; nothing is freed. */
  lemma FailedStep(start: map<string, Entry>, dir: string, aliases: set<string>, seen: seq<string>,
                   orphaned: seq<string>, removed: seq<string>, failed: seq<string>, freed: nat,
                   entries: map<string, Entry>, n: string)
    requires CleanupState(start, dir, aliases, seen, orphaned, removed, failed, freed, entries)
    requires IsOrphanDir(start, dir, aliases, n) && !Clearable(start, dir, n)
    ensures CleanupState(start, dir, aliases, seen + [n], orphaned + [n], removed, failed + [n], freed, entries)
  {
    FilterSnoc(seen, n, OrphanIn(start, dir, aliases));
    FilterSnoc(orphaned, n, ClearableIn(start, dir));
    FilterSnoc(orphaned, n, StuckIn(start, dir));
  }

  /** After every child was seen, the orphans are exactly the orphaned children, each listed once. */
  lemma CleanupComplete(start: map<string, Entry>, dir: string, aliases: set<string>, names: seq<string>,
                        orphaned: seq<string>, removed: seq<string>, failed: seq<string>, freed: nat,
                        entries: map<string, Entry>)
    requires CleanupState(start, dir, aliases, names, orphaned, removed, failed, freed, entries)
    requires Distinct(names) && forall n :: n in names <==> n in ChildNames(start, dir)
    ensures Distinct(orphaned)
    ensures forall n :: n in orphaned <==> n in ChildNames(start, dir) && IsOrphanDir(start, dir, aliases, n)
  {
    FilterDistinct(names, OrphanIn(start, dir, aliases));
  }

  /** What `cleanup_orphaned_files` reports besides its lists; the megabyte figure is left out. */
  datatype CleanupSummary = NoReposDir | NoOrphans | Cleaned(removedCount: nat, freedBytes: nat, failedCount: nat)

  // ---------------------------------------------------------------------------
  // sync_database_with_filesystem

  /** The bucket `sync_database_with_filesystem` puts a row in. */
  datatype SyncStatus = Missing | NotARepository | Misplaced | InPlace

  /** Missing path, path without `.git`, path other than the alias's directory, or in place, checked in that order. */
  function Classify(r: Repository, entries: map<string, Entry>, dir: string): (s: SyncStatus)
    ensures s == Missing <==> r.localPath !in entries
    ensures s == NotARepository <==> r.localPath in entries && !entries[r.localPath].hasGit
    ensures s == InPlace <==> r.localPath in entries && entries[r.localPath].hasGit && r.localPath == PathJoin(dir, r.alias)
  {
    if r.localPath !in entries then Missing
    else if !entries[r.localPath].hasGit then NotARepository
    else if r.localPath != PathJoin(dir, r.alias) then Misplaced
    else InPlace
  }

  /**
    The text of the database error a refused delete raises: the ORM clears
    the `repo_id` of the row's index rows (the relationship has no delete
    cascade), and the NOT NULL column refuses it at commit.
  */
  const NotNullFailure: string := "(sqlite3.IntegrityError) NOT NULL constraint failed: searchindex.repo_id"

  /** Deleting row `r` through the ORM fails at commit: some index row still points at it. */
  predicate DeleteRefused(r: Repository, indexes: seq<SearchIndex>) {
    r.id.Some? && IndexesOf(indexes, r.id.value) != []
  }

  /** The sync's single commit fails: some row it deletes still owns index rows. */
  predicate SyncRefused(repos: seq<Repository>, entries: map<string, Entry>, dir: string, indexes: seq<SearchIndex>) {
    exists k :: 0 <= k < |repos| && Classify(repos[k], entries, dir) != Misplaced
      && Classify(repos[k], entries, dir) != InPlace && DeleteRefused(repos[k], indexes)
  }

  /**
    A committed sync leaves no index row without its repository: every
    index row that had an owner before still has one, with the same id.
  */
  lemma SyncKeepsOwners(repos: seq<Repository>, entries: map<string, Entry>, dir: string, indexes: seq<SearchIndex>, e: SearchIndex)
    requires !SyncRefused(repos, entries, dir, indexes)
    requires e in indexes && exists k :: 0 <= k < |repos| && repos[k].id == Some(e.repoId)
    ensures exists x :: x in Synced(repos, entries, dir) && x.id == Some(e.repoId)
  {
    var k :| 0 <= k < |repos| && repos[k].id == Some(e.repoId);
    assert e in IndexesOf(indexes, e.repoId);
    var st := Classify(repos[k], entries, dir);
    if st == Misplaced {
      assert repos[k].(localPath := PathJoin(dir, repos[k].alias)) in Synced(repos, entries, dir);
    } else {
      assert st == InPlace;
      assert repos[k] in Synced(repos, entries, dir);
    }
  }

  /** The aliases of the rows in bucket `st`, in row order. */
  function AliasesWith(repos: seq<Repository>, entries: map<string, Entry>, dir: string, st: SyncStatus): (r: seq<string>)
    ensures forall a :: a in r <==> exists k :: 0 <= k < |repos| && repos[k].alias == a && Classify(repos[k], entries, dir) == st
  {
    if repos == [] then []
    else
      var init := repos[..|repos| - 1];
      var last := repos[|repos| - 1];
      assert repos == init + [last];
      AliasesWith(init, entries, dir, st) + (if Classify(last, entries, dir) == st then [last.alias] else [])
  }

  /** The aliases of the rows deleted: missing or not a repository, in row order. */
  function RemovedAliases(repos: seq<Repository>, entries: map<string, Entry>, dir: string): (r: seq<string>)
    ensures forall a :: a in r <==> exists k :: (0 <= k < |repos| && repos[k].alias == a
      && (Classify(repos[k], entries, dir) == Missing || Classify(repos[k], entries, dir) == NotARepository))
  {
    if repos == [] then []
    else
      var init := repos[..|repos| - 1];
      var last := repos[|repos| - 1];
      assert repos == init + [last];
      var st := Classify(last, entries, dir);
      RemovedAliases(init, entries, dir) + (if st == Missing || st == NotARepository then [last.alias] else [])
  }

  /** The rows after a sync: deleted ones dropped, misplaced ones pointed at the alias's directory. */
  function Synced(repos: seq<Repository>, entries: map<string, Entry>, dir: string): (r: seq<Repository>)
    ensures forall x :: x in r ==> x.localPath == PathJoin(dir, x.alias)
    ensures forall x :: x in r ==>
      exists k :: (&& 0 <= k < |repos|
                   && repos[k] == x.(localPath := repos[k].localPath)
                   && (Classify(repos[k], entries, dir) == Misplaced || Classify(repos[k], entries, dir) == InPlace))
    ensures forall k :: 0 <= k < |repos| && Classify(repos[k], entries, dir) == Misplaced ==>
      repos[k].(localPath := PathJoin(dir, repos[k].alias)) in r
    ensures forall k :: 0 <= k < |repos| && Classify(repos[k], entries, dir) == InPlace ==> repos[k] in r
  {
    if repos == [] then []
    else
      var init := repos[..|repos| - 1];
      var last := repos[|repos| - 1];
      assert repos == init + [last];
      var rest := Synced(init, entries, dir);
      match Classify(last, entries, dir)
      case Missing => rest
      case NotARepository => rest
      case Misplaced => rest + [last.(localPath := PathJoin(dir, last.alias))]
      case InPlace => rest + [last]
  }

  /** One more row extends every list of the sync by that row's bucket. */
  lemma SyncStep(repos: seq<Repository>, i: nat, entries: map<string, Entry>, dir: string)
    requires i < |repos|
    ensures var r := repos[i];
      var st := Classify(r, entries, dir);
      && AliasesWith(repos[..i + 1], entries, dir, Missing)
         == AliasesWith(repos[..i], entries, dir, Missing) + (if st == Missing then [r.alias] else [])
      && AliasesWith(repos[..i + 1], entries, dir, NotARepository)
         == AliasesWith(repos[..i], entries, dir, NotARepository) + (if st == NotARepository then [r.alias] else [])
      && AliasesWith(repos[..i + 1], entries, dir, Misplaced)
         == AliasesWith(repos[..i], entries, dir, Misplaced) + (if st == Misplaced then [r.alias] else [])
      && RemovedAliases(repos[..i + 1], entries, dir)
         == RemovedAliases(repos[..i], entries, dir) + (if st == Missing || st == NotARepository then [r.alias] else [])
      && Synced(repos[..i + 1], entries, dir)
         == Synced(repos[..i], entries, dir) + (if st == Misplaced then [r.(localPath := PathJoin(dir, r.alias))]
                                                else if st == InPlace then [r] else [])
  {
    assert repos[..i + 1][..i] == repos[..i];
    assert repos[..i + 1][i] == repos[i];
  }

  /** Sync keeps the catalog's keys: rows are only dropped, or re-pointed with alias and id intact. */
  lemma {:induction false} SyncedKeys(repos: seq<Repository>, entries: map<string, Entry>, dir: string)
    requires UniqueAliases(repos) && KeyedRepositories(repos)
    ensures UniqueAliases(Synced(repos, entries, dir)) && KeyedRepositories(Synced(repos, entries, dir))
    decreases |repos|
  {
    if repos != [] {
      var init := repos[..|repos| - 1];
      var last := repos[|repos| - 1];
      SyncedKeys(init, entries, dir);
      var rest := Synced(init, entries, dir);
      forall x | x in rest ensures x.alias != last.alias && x.id != last.id {
        var k :| 0 <= k < |init| && init[k] == x.(localPath := init[k].localPath);
        assert init[k] == repos[k];
      }
      var r := Synced(repos, entries, dir);
      if |r| > |rest| {
        assert r == rest + [r[|r| - 1]];
        assert r[|r| - 1].alias == last.alias && r[|r| - 1].id == last.id;
        AppendKeyed(rest, r[|r| - 1]);
      }
    }
  }

  /** With distinct aliases, a row lands in at most one of the three buckets. */
  lemma SyncBucketsExclusive(repos: seq<Repository>, entries: map<string, Entry>, dir: string, a: string, s1: SyncStatus, s2: SyncStatus)
    requires UniqueAliases(repos)
    requires a in AliasesWith(repos, entries, dir, s1) && a in AliasesWith(repos, entries, dir, s2)
    ensures s1 == s2
  {
    var k1 :| 0 <= k1 < |repos| && repos[k1].alias == a && Classify(repos[k1], entries, dir) == s1;
    var k2 :| 0 <= k2 < |repos| && repos[k2].alias == a && Classify(repos[k2], entries, dir) == s2;
    assert k1 == k2;
  }

  /** `removed_records` lists exactly the missing and the invalid rows. */
  lemma {:induction false} RemovedAreMissingAndInvalid(repos: seq<Repository>, entries: map<string, Entry>, dir: string)
    ensures multiset(RemovedAliases(repos, entries, dir))
         == multiset(AliasesWith(repos, entries, dir, Missing)) + multiset(AliasesWith(repos, entries, dir, NotARepository))
    decreases |repos|
  {
    if repos != [] {
      RemovedAreMissingAndInvalid(repos[..|repos| - 1], entries, dir);
    }
  }

  /** Every removed row is gone from the catalog after the sync. */
  lemma RemovedAreDeleted(repos: seq<Repository>, entries: map<string, Entry>, dir: string, a: string)
    requires UniqueAliases(repos)
    requires a in RemovedAliases(repos, entries, dir)
    ensures forall x :: x in Synced(repos, entries, dir) ==> x.alias != a
  {
    var j :| 0 <= j < |repos| && repos[j].alias == a
      && (Classify(repos[j], entries, dir) == Missing || Classify(repos[j], entries, dir) == NotARepository);
    forall x | x in Synced(repos, entries, dir) ensures x.alias != a {
      var k :| 0 <= k < |repos| && repos[k] == x.(localPath := repos[k].localPath)
        && (Classify(repos[k], entries, dir) == Misplaced || Classify(repos[k], entries, dir) == InPlace);
      assert k != j;
      if k < j { assert repos[k].alias != repos[j].alias; } else { assert repos[j].alias != repos[k].alias; }
    }
  }

  /** A sync with nothing to report. */
  predicate NothingToSync(repos: seq<Repository>, entries: map<string, Entry>, dir: string) {
    && AliasesWith(repos, entries, dir, Missing) == []
    && AliasesWith(repos, entries, dir, NotARepository) == []
    && AliasesWith(repos, entries, dir, Misplaced) == []
  }

  /**
    Running the sync again reports nothing exactly when every path the first
    run rewrote holds a clone with `.git`; otherwise the rewritten row is
    reported again, as missing or invalid.
  */
  lemma SecondSync(repos: seq<Repository>, entries: map<string, Entry>, dir: string)
    ensures NothingToSync(Synced(repos, entries, dir), entries, dir) <==>
      forall k :: 0 <= k < |repos| && Classify(repos[k], entries, dir) == Misplaced ==>
        PathJoin(dir, repos[k].alias) in entries && entries[PathJoin(dir, repos[k].alias)].hasGit
  {
    if forall k :: 0 <= k < |repos| && Classify(repos[k], entries, dir) == Misplaced ==>
         PathJoin(dir, repos[k].alias) in entries && entries[PathJoin(dir, repos[k].alias)].hasGit
    {
      SecondSyncQuiet(repos, entries, dir);
    } else {
      var k :| 0 <= k < |repos| && Classify(repos[k], entries, dir) == Misplaced
        && !(PathJoin(dir, repos[k].alias) in entries && entries[PathJoin(dir, repos[k].alias)].hasGit);
      SecondSyncReports(repos, entries, dir, k);
    }
  }

  /** When every rewritten path holds a clone, every kept row is in place. */
  lemma SecondSyncQuiet(repos: seq<Repository>, entries: map<string, Entry>, dir: string)
    requires forall k :: 0 <= k < |repos| && Classify(repos[k], entries, dir) == Misplaced ==>
      PathJoin(dir, repos[k].alias) in entries && entries[PathJoin(dir, repos[k].alias)].hasGit
    ensures NothingToSync(Synced(repos, entries, dir), entries, dir)
  {
    var kept := Synced(repos, entries, dir);
    forall j | 0 <= j < |kept| ensures Classify(kept[j], entries, dir) == InPlace {
      var x := kept[j];
      assert x in kept;
      var k :| 0 <= k < |repos| && repos[k] == x.(localPath := repos[k].localPath)
        && (Classify(repos[k], entries, dir) == Misplaced || Classify(repos[k], entries, dir) == InPlace);
      assert repos[k].alias == x.alias;
    }
    NoBucket(kept, entries, dir, Missing);
    NoBucket(kept, entries, dir, NotARepository);
    NoBucket(kept, entries, dir, Misplaced);
  }

  /** A rewritten path without a clone is reported again, as missing or invalid. */
  lemma SecondSyncReports(repos: seq<Repository>, entries: map<string, Entry>, dir: string, k: int)
    requires 0 <= k < |repos| && Classify(repos[k], entries, dir) == Misplaced
    requires !(PathJoin(dir, repos[k].alias) in entries && entries[PathJoin(dir, repos[k].alias)].hasGit)
    ensures !NothingToSync(Synced(repos, entries, dir), entries, dir)
  {
    var kept := Synced(repos, entries, dir);
    var x := repos[k].(localPath := PathJoin(dir, repos[k].alias));
    assert x in kept;
    var j :| 0 <= j < |kept| && kept[j] == x;
    var st := Classify(x, entries, dir);
    assert st == Missing || st == NotARepository;
    assert x.alias in AliasesWith(kept, entries, dir, st);
  }

  lemma {:induction false} NoBucket(rows: seq<Repository>, entries: map<string, Entry>, dir: string, st: SyncStatus)
    requires st != InPlace
    requires forall j :: 0 <= j < |rows| ==> Classify(rows[j], entries, dir) == InPlace
    ensures AliasesWith(rows, entries, dir, st) == []
    decreases |rows|
  {
    if rows != [] {
      NoBucket(rows[..|rows| - 1], entries, dir, st);
    }
  }

  // ---------------------------------------------------------------------------
  // get_disk_usage

  /** `repo_sizes`: an entry per row whose path exists, 0 when its walk fails, in row order. */
  /** The bytes one repository counts for: its size, or 0 when walking it raises. */
  function Footprint(e: Entry): (n: nat)
    ensures n <= e.size && (e.walkable ==> n == e.size)
  {
    if e.walkable then e.size else 0
  }

  /** `repo_sizes`: one `(alias, bytes)` per row whose path exists, in row order. */
  function RepoSizes(repos: seq<Repository>, entries: map<string, Entry>): (r: seq<(string, nat)>)
    ensures |r| <= |repos|
    ensures forall x :: x in r <==> exists q :: (q in repos && q.localPath in entries
      && x == (q.alias, Footprint(entries[q.localPath])))
  {
    if repos == [] then []
    else
      var init := repos[..|repos| - 1];
      var last := repos[|repos| - 1];
      assert repos == init + [last];
      RepoSizes(init, entries) +
        (if last.localPath in entries then [(last.alias, Footprint(entries[last.localPath]))] else [])
  }

  /** The sum of the sizes: no entry exceeds it, and it is 0 exactly when every size is. */
  function TotalSize(sizes: seq<(string, nat)>): (t: nat)
    ensures forall k :: 0 <= k < |sizes| ==> sizes[k].1 <= t
    ensures t == 0 <==> forall k :: 0 <= k < |sizes| ==> sizes[k].1 == 0
  {
    if sizes == [] then 0 else TotalSize(sizes[..|sizes| - 1]) + sizes[|sizes| - 1].1
  }

  /** The order of `sorted(..., key=size, reverse=True)`: larger first. */
  predicate SizeAtLeast(a: (string, nat), b: (string, nat)) {
    a.1 >= b.1
  }

  /** `largest_repos`: the first five of the sizes sorted stably from largest to smallest. */
  function Largest(sizes: seq<(string, nat)>): (r: seq<(string, nat)>)
    ensures |r| == if |sizes| < 5 then |sizes| else 5
  {
    SortPermutes(sizes, SizeAtLeast);
    assert |multiset(Sort(sizes, SizeAtLeast))| == |multiset(sizes)|;
    var sorted := Sort(sizes, SizeAtLeast);
    if |sorted| < 5 then sorted else sorted[..5]
  }

  lemma SizeOrderTotal()
    ensures TotalPreorder(SizeAtLeast)
  {
  }

  /**
    `largest_repos` is ordered from largest to smallest, takes its entries
    from the sizes, and no entry left out is larger than one listed.
  */
  lemma LargestAreLargest(sizes: seq<(string, nat)>)
    ensures SortedBy(Largest(sizes), SizeAtLeast)
    ensures multiset(Largest(sizes)) <= multiset(sizes)
    ensures forall x, y :: x in Largest(sizes) && y in multiset(sizes) - multiset(Largest(sizes)) ==> x.1 >= y.1
  {
    var sorted := Sort(sizes, SizeAtLeast);
    SizeOrderTotal();
    SortSorted(sizes, SizeAtLeast);
    SortPermutes(sizes, SizeAtLeast);
    if |sorted| >= 5 {
      var top, rest := sorted[..5], sorted[5..];
      assert sorted == top + rest;
      assert Largest(sizes) == top;
      forall x, y | x in top && y in multiset(sizes) - multiset(top) ensures x.1 >= y.1 {
        assert y in multiset(rest);
        var j :| 0 <= j < |rest| && rest[j] == y;
        var i :| 0 <= i < |top| && top[i] == x;
        assert SizeAtLeast(sorted[i], sorted[5 + j]);
      }
    }
  }

  /** Repositories of equal size are listed in catalog order: their order in `largest_repos` begins theirs in the sizes. */
  lemma LargestKeepsTies(sizes: seq<(string, nat)>, v: (string, nat))
    ensures Ties(Largest(sizes), v, SizeAtLeast) <= Ties(sizes, v, SizeAtLeast)
  {
    var sorted := Sort(sizes, SizeAtLeast);
    SizeOrderTotal();
    SortStable(sizes, v, SizeAtLeast);
    if |sorted| >= 5 {
      assert sorted == sorted[..5] + sorted[5..];
      TiesAppend(sorted[..5], sorted[5..], v, SizeAtLeast);
    }
  }

  /**
    The end state of a clone into a free path: a clone holding `.git` adds
    the row and the directory; a clone without it keeps whatever was left
    there; a failed clone removes what it left unless that cannot be deleted.
  */
  predicate CloneDone(db0: Db, fs0: map<string, Entry>, a: string, url: string, p: string, outcome: CloneOutcome,
                      success: bool, message: string, record: Option<Repository>, db: Db, fs: map<string, Entry>)
  {
    match outcome
    case Cloned(left) =>
      if left.Some? && left.value.hasGit then
        && success && record.Some?
        && record.value == RepositoryManager.InsertedRow(db0.repos, a, url, p)
        && message == "Successfully cloned " + a + " to " + p
        && db == db0.(repos := db0.repos + [record.value])
        && fs == fs0[p := left.value]
        && FindAlias(db.repos, a).Some? && p in fs && fs[p].hasGit
      else
        && !success && record.None?
        && message == "Clone appeared to succeed but repository not found locally"
        && db == db0
        && fs == (if left.Some? then fs0[p := left.value] else fs0)
    case CloneFailed(e, left) =>
      && !success && record.None?
      && message == CloneFailureMessage(e)
      && db == db0
      && fs == (if left.Some? && !left.value.removable then fs0[p := left.value] else fs0)
  }

  /** A clone without `.git`: whatever git left at the free path `p` stays there. */
  method KeepLeftover(fs: FileSystem, p: string, left: Option<Entry>)
    requires fs.Valid() && p !in fs.entries && (left.Some? && left.value.hasGit ==> left.value.isDir)
    modifies fs
    ensures fs.Valid()
    ensures fs.entries == if left.Some? then old(fs.entries)[p := left.value] else old(fs.entries)
  {
    fs.Place(p, left);
    if left.None? {
      RemoveAbsent(old(fs.entries), p);
    }
  }

  /** A failed clone: what git left at the free path `p` is deleted quietly, and stays only when it cannot be deleted. */
  method DiscardLeftover(fs: FileSystem, p: string, left: Option<Entry>)
    requires fs.Valid() && p !in fs.entries && (left.Some? && left.value.hasGit ==> left.value.isDir)
    modifies fs
    ensures fs.Valid()
    ensures fs.entries == if left.Some? && !left.value.removable then old(fs.entries)[p := left.value] else old(fs.entries)
  {
    fs.Place(p, left);
    if fs.Exists(p) {
      fs.RemoveTreeQuietly(p);
    }
    if left.None? {
      RemoveAbsent(old(fs.entries), p);
    } else if left.value.removable {
      PlaceThenRemove(old(fs.entries), p, left.value);
    }
  }

  class GitRepository {
    /** `config.kodeklip_dir / "repos"`. */
    const reposDir: string
    /** The catalog. */
    const store: Store
    /** The filesystem the cache lives in. */
    const fs: FileSystem

    predicate Valid()
      reads this, store, fs
    {
      store.Valid() && store.db.repositoryTable && fs.Valid()
    }

    /** `GitRepository(db_path)`: derives the cache directory and creates it when missing. */
    constructor(dbPath: Option<string>, home: string, store: Store, fs: FileSystem)
      requires store.Valid() && store.db.repositoryTable && fs.Valid()
      modifies fs
      ensures Valid() && this.store == store && this.fs == fs
      ensures reposDir == MakeConfig(dbPath, home).kodeklipDir + "/repos"
      ensures fs.entries == if reposDir in old(fs.entries) then old(fs.entries) else old(fs.entries)[reposDir := EmptyDir()]
    {
      reposDir := MakeConfig(dbPath, home).kodeklipDir + "/repos";
      this.store := store;
      this.fs := fs;
      new;
      fs.MakeDirs(reposDir);
    }

    /** `_get_local_path(alias)`: the alias's directory under the cache directory. */
    function LocalPath(alias: string): (p: string)
      ensures '/' !in alias && alias != [] ==> IsChild(reposDir, p) && ChildName(reposDir, p) == alias
    {
      JoinFacts(reposDir, alias);
      PathJoin(reposDir, alias)
    }

    /** `repository_exists(alias)`: a clone with `.git` at the alias's directory and a catalog row. */
    predicate RepositoryExists(alias: string)
      reads this, store, fs
    {
      fs.HasGit(LocalPath(alias)) && FindAlias(store.db.repos, alias).Some?
    }

    /** The aliases `repository_exists` accepts. */
    function ExistingAliases(): (s: set<string>)
      reads this, store, fs
      ensures forall a :: a in s <==> RepositoryExists(a)
    {
      set a | a in AliasSet(store.db.repos) && fs.HasGit(LocalPath(a))
    }

    /** The URL is valid, the stripped alias is nonempty and its directory does not exist yet. */
    predicate CloneAdmitted(url: string, alias: string)
      reads this, fs
    {
      ValidRepositoryUrl(Some(url)) && Strip(alias) != [] && LocalPath(Strip(alias)) !in fs.entries
    }

    /**
      `clone_repository(url, alias)`. A refused request changes nothing. A
      clone that raised is cleaned up (unless its directory cannot be
      deleted); a clone that returned without leaving a `.git` is left in
      place; a good clone gets exactly one catalog row.
    */
    method CloneRepository(url: string, alias: string, outcome: CloneOutcome)
      returns (success: bool, message: string, record: Option<Repository>)
      requires Valid() && outcome.WellFormed()
      modifies store, fs
      ensures Valid()
      ensures !ValidRepositoryUrl(Some(url)) ==>
        && !success && message == "Invalid repository URL: " + url && record.None?
        && store.db == old(store.db) && fs.entries == old(fs.entries)
      ensures ValidRepositoryUrl(Some(url)) && Strip(alias) == [] ==>
        && !success && message == "Repository alias cannot be empty" && record.None?
        && store.db == old(store.db) && fs.entries == old(fs.entries)
      ensures ValidRepositoryUrl(Some(url)) && Strip(alias) != [] && LocalPath(Strip(alias)) in old(fs.entries) ==>
        && !success && message == "Repository with alias '" + Strip(alias) + "' already exists" && record.None?
        && store.db == old(store.db) && fs.entries == old(fs.entries)
      ensures old(CloneAdmitted(url, alias)) && old(FindAlias(store.db.repos, Strip(alias))).Some? ==>
        && !success && message == "Repository alias '" + Strip(alias) + "' already exists in database" && record.None?
        && store.db == old(store.db) && fs.entries == old(fs.entries)
      ensures old(CloneAdmitted(url, alias)) && old(FindAlias(store.db.repos, Strip(alias))).None? ==>
        var a := Strip(alias);
        var p := LocalPath(a);
        match outcome
        case Cloned(left) =>
          if left.Some? && left.value.hasGit then
            && success && record.Some?
            && record.value == RepositoryManager.InsertedRow(old(store.db.repos), a, url, p)
            && message == "Successfully cloned " + a + " to " + p
            && store.db == old(store.db).(repos := old(store.db.repos) + [record.value])
            && fs.entries == old(fs.entries)[p := left.value]
            && RepositoryExists(a)
          else
            && !success && record.None?
            && message == "Clone appeared to succeed but repository not found locally"
            && store.db == old(store.db)
            && fs.entries == (if left.Some? then old(fs.entries)[p := left.value] else old(fs.entries))
        case CloneFailed(e, left) =>
          && !success && record.None?
          && message == CloneFailureMessage(e)
          && store.db == old(store.db)
          && fs.entries == (if left.Some? && !left.value.removable then old(fs.entries)[p := left.value] else old(fs.entries))
    {
      if !ValidRepositoryUrl(Some(url)) {
        return false, "Invalid repository URL: " + url, None;
      }
      if Strip(alias) == [] {
        return false, "Repository alias cannot be empty", None;
      }
      success, message, record := CloneStripped(url, Strip(alias), outcome);
    }

    /** `clone_repository` from the stripped alias on: the two existence checks, then the clone. */
    method CloneStripped(url: string, a: string, outcome: CloneOutcome)
      returns (success: bool, message: string, record: Option<Repository>)
      requires Valid() && outcome.WellFormed()
      modifies store, fs
      ensures Valid()
      ensures LocalPath(a) in old(fs.entries) ==>
        && !success && message == "Repository with alias '" + a + "' already exists" && record.None?
        && store.db == old(store.db) && fs.entries == old(fs.entries)
      ensures LocalPath(a) !in old(fs.entries) && old(FindAlias(store.db.repos, a)).Some? ==>
        && !success && message == "Repository alias '" + a + "' already exists in database" && record.None?
        && store.db == old(store.db) && fs.entries == old(fs.entries)
      ensures LocalPath(a) !in old(fs.entries) && old(FindAlias(store.db.repos, a)).None? ==>
        CloneDone(old(store.db), old(fs.entries), a, url, LocalPath(a), outcome, success, message, record, store.db, fs.entries)
    {
      var p := LocalPath(a);
      if fs.Exists(p) {
        return false, "Repository with alias '" + a + "' already exists", None;
      }
      if FindAlias(store.db.repos, a).Some? {
        return false, "Repository alias '" + a + "' already exists in database", None;
      }
      success, message, record := RunClone(url, a, outcome);
    }

    /** What the clone itself leaves behind, given git's outcome: see `CloneDone`. */
    method RunClone(url: string, a: string, outcome: CloneOutcome)
      returns (success: bool, message: string, record: Option<Repository>)
      requires Valid() && outcome.WellFormed()
      requires LocalPath(a) !in fs.entries && FindAlias(store.db.repos, a).None?
      modifies store, fs
      ensures Valid()
      ensures CloneDone(old(store.db), old(fs.entries), a, url, LocalPath(a), outcome, success, message, record, store.db, fs.entries)
    {
      match outcome
      case Cloned(left) =>
        if left.Some? && left.value.hasGit {
          success, message, record := CloneSucceeded(url, a, left.value);
        } else {
          success, message, record := CloneWithoutGit(url, a, left);
        }
      case CloneFailed(e, left) =>
        success, message, record := CloneErrored(url, a, e, left);
    }

    /** A clone that left `.git` behind is recorded. */
    method CloneSucceeded(url: string, a: string, left: Entry)
      returns (success: bool, message: string, record: Option<Repository>)
      requires Valid() && left.hasGit && left.isDir
      requires FindAlias(store.db.repos, a).None?
      modifies store, fs
      ensures Valid()
      ensures CloneDone(old(store.db), old(fs.entries), a, url, LocalPath(a), Cloned(Some(left)), success, message, record, store.db, fs.entries)
    {
      record := RecordClone(a, url, left);
      success, message := true, "Successfully cloned " + a + " to " + LocalPath(a);
    }

    /** A clone that reported success but left no `.git`: nothing is recorded, and what it left stays. */
    method CloneWithoutGit(url: string, a: string, left: Option<Entry>)
      returns (success: bool, message: string, record: Option<Repository>)
      requires Valid() && LocalPath(a) !in fs.entries
      requires left.Some? ==> !left.value.hasGit
      modifies fs
      ensures Valid()
      ensures CloneDone(old(store.db), old(fs.entries), a, url, LocalPath(a), Cloned(left), success, message, record, store.db, fs.entries)
    {
      KeepLeftover(fs, LocalPath(a), left);
      success, message, record := false, "Clone appeared to succeed but repository not found locally", None;
    }

    /** A clone that raised: nothing is recorded, and what it left is deleted quietly. */
    method CloneErrored(url: string, a: string, e: GitError, left: Option<Entry>)
      returns (success: bool, message: string, record: Option<Repository>)
      requires Valid() && LocalPath(a) !in fs.entries
      requires left.Some? && left.value.hasGit ==> left.value.isDir
      modifies fs
      ensures Valid()
      ensures CloneDone(old(store.db), old(fs.entries), a, url, LocalPath(a), CloneFailed(e, left), success, message, record, store.db, fs.entries)
    {
      DiscardLeftover(fs, LocalPath(a), left);
      success, message, record := false, CloneFailureMessage(e), None;
    }

    /** The end of a good clone: the clone is in place and the row `(alias, url, path, indexed = False)` is inserted. */
    method RecordClone(a: string, url: string, left: Entry) returns (record: Option<Repository>)
      requires Valid() && left.hasGit && left.isDir
      requires FindAlias(store.db.repos, a).None?
      modifies store, fs
      ensures Valid()
      ensures record == Some(RepositoryManager.InsertedRow(old(store.db.repos), a, url, LocalPath(a)))
      ensures store.db == old(store.db).(repos := old(store.db.repos) + [record.value])
      ensures fs.entries == old(fs.entries)[LocalPath(a) := left]
      ensures RepositoryExists(a)
    {
      var p := LocalPath(a);
      fs.Place(p, Some(left));
      var row := RepositoryManager.InsertedRow(store.db.repos, a, url, p);
      RepositoryManager.InsertKeepsValid(store.db, a, url, p);
      store.db := store.db.(repos := store.db.repos + [row]);
      FoundAfterAppend(old(store.db.repos), row);
      record := Some(row);
    }

    /**
      `update_repository(alias)`. Git's answers are inputs: `openError` for
      `Repo(path)`, `dirty`, the fetch flags or the error `fetch()` raised,
      and `pullError`. `pulled` records whether `pull()` was called.
    */
    method UpdateRepository(alias: string, openError: Option<GitError>, dirty: bool,
                            fetch: Result<seq<int>, GitError>, pullError: Option<GitError>, now: Timestamp)
      returns (success: bool, message: string, hasChanges: bool, pulled: bool)
      requires Valid()
      modifies store
      ensures Valid()
      ensures !old(RepositoryExists(alias)) ==>
        !success && message == "Repository '" + alias + "' does not exist" && !pulled && store.db == old(store.db)
      ensures old(RepositoryExists(alias)) && openError.Some? ==>
        !success && message == UpdateFailureMessage(alias, openError.value) && !pulled
      ensures old(RepositoryExists(alias)) && openError.None? && dirty ==>
        !success && message == "Repository '" + alias + "' has uncommitted changes" && !pulled
      ensures old(RepositoryExists(alias)) && openError.None? && !dirty && fetch.Err? ==>
        !success && message == UpdateFailureMessage(alias, fetch.error) && !pulled
      ensures pulled <==> old(RepositoryExists(alias)) && openError.None? && !dirty && fetch.Ok? && AnyNotUpToDate(fetch.value)
      ensures pulled && pullError.Some? ==> !success && message == UpdateFailureMessage(alias, pullError.value)
      ensures success <==>
        old(RepositoryExists(alias)) && openError.None? && !dirty && fetch.Ok? && (pulled ==> pullError.None?)
      ensures !success ==> !hasChanges && store.db == old(store.db)
      ensures success ==>
        var i := old(FindAlias(store.db.repos, alias)).value;
        && hasChanges == AnyNotUpToDate(fetch.value)
        && message == (if hasChanges then "Successfully updated " + alias + " - pulled new changes"
                       else "Repository " + alias + " is already up to date")
        && store.db == old(store.db).(repos := old(store.db.repos)[i := old(store.db.repos)[i].(lastUpdated := Some(now))])
    {
      pulled := false;
      hasChanges := false;
      if !RepositoryExists(alias) {
        return false, "Repository '" + alias + "' does not exist", false, false;
      }
      if openError.Some? {
        return false, UpdateFailureMessage(alias, openError.value), false, false;
      }
      if dirty {
        return false, "Repository '" + alias + "' has uncommitted changes", false, false;
      }
      if fetch.Err? {
        return false, UpdateFailureMessage(alias, fetch.error), false, false;
      }
      var changed := HasNewCommits(fetch.value);
      if changed {
        pulled := true;
        if pullError.Some? {
          return false, UpdateFailureMessage(alias, pullError.value), false, true;
        }
        message := "Successfully updated " + alias + " - pulled new changes";
      } else {
        message := "Repository " + alias + " is already up to date";
      }
      var _ := RepositoryManager.UpdateRepositoryStatus(store, alias, Some(now), None);
      success, hasChanges := true, changed;
    }

    /** `check_remote_updates(alias)`: the same decision as `UpdateRepository`, with no pull and no catalog write. */
    method CheckRemoteUpdates(alias: string, openError: Option<GitError>, fetch: Result<seq<int>, GitError>)
      returns (success: bool, message: string, hasUpdates: bool)
      requires Valid()
      ensures !RepositoryExists(alias) ==> !success && message == "Repository '" + alias + "' does not exist"
      ensures RepositoryExists(alias) && openError.Some? ==>
        !success && message == CheckFailureMessage(alias, openError.value)
      ensures RepositoryExists(alias) && openError.None? && fetch.Err? ==>
        !success && message == CheckFailureMessage(alias, fetch.error)
      ensures success <==> RepositoryExists(alias) && openError.None? && fetch.Ok?
      ensures hasUpdates <==> success && AnyNotUpToDate(fetch.value)
      ensures success ==> message == (if hasUpdates then "Repository " + alias + " has remote updates available"
                                      else "Repository " + alias + " is up to date with remote")
    {
      if !RepositoryExists(alias) {
        return false, "Repository '" + alias + "' does not exist", false;
      }
      if openError.Some? {
        return false, CheckFailureMessage(alias, openError.value), false;
      }
      if fetch.Err? {
        return false, CheckFailureMessage(alias, fetch.error), false;
      }
      hasUpdates := HasNewCommits(fetch.value);
      success := true;
      if hasUpdates {
        message := "Repository " + alias + " has remote updates available";
      } else {
        message := "Repository " + alias + " is up to date with remote";
      }
    }

    /**
      `remove_repository(alias, keep_files)`: the catalog row goes first (and
      only the row); then, unless `keepFiles`, the alias's directory. When
      index rows still point at the row the commit fails, is rolled back,
      and nothing changes.
    */
    method RemoveRepository(alias: string, keepFiles: bool) returns (success: bool, message: string)
      requires Valid()
      modifies store, fs
      ensures Valid()
      ensures old(FindAlias(store.db.repos, alias)).None? ==>
        && !success && message == "Repository '" + alias + "' not found in database"
        && store.db == old(store.db) && fs.entries == old(fs.entries)
      ensures old(FindAlias(store.db.repos, alias)).Some?
              && old(DeleteRefused(store.db.repos[FindAlias(store.db.repos, alias).value], store.db.indexes)) ==>
        && !success && message == "Failed to remove repository '" + alias + "': " + NotNullFailure
        && store.db == old(store.db) && fs.entries == old(fs.entries)
      ensures old(FindAlias(store.db.repos, alias)).Some?
              && !old(DeleteRefused(store.db.repos[FindAlias(store.db.repos, alias).value], store.db.indexes)) ==>
        var i := old(FindAlias(store.db.repos, alias)).value;
        var p := LocalPath(alias);
        && store.db == old(store.db).(repos := RepositoryManager.RemoveAt(old(store.db.repos), i))
        && FindAlias(store.db.repos, alias).None?
        && (keepFiles || p !in old(fs.entries) ==>
              && success && fs.entries == old(fs.entries)
              && message == (if keepFiles then "Removed repository '" + alias + "' from database (kept local files)"
                             else "Removed repository '" + alias + "' from database (no local files found)"))
        && (!keepFiles && p in old(fs.entries) ==>
              && success == old(fs.entries)[p].removable
              && fs.entries == (if success then old(fs.entries) - {p} else old(fs.entries))
              && message == (if success then "Successfully removed repository '" + alias + "' and local files"
                             else "Failed to completely remove local files for '" + alias + "'"))
      ensures success ==> !RepositoryExists(alias)
    {
      var found := FindAlias(store.db.repos, alias);
      if found.None? {
        return false, "Repository '" + alias + "' not found in database";
      }
      var i := found.value;
      if DeleteRefused(store.db.repos[i], store.db.indexes) {
        return false, "Failed to remove repository '" + alias + "': " + NotNullFailure;
      }
      var p := LocalPath(alias);
      RepositoryManager.RemoveAtKeepsKeys(store.db.repos, i);
      store.db := store.db.(repos := RepositoryManager.RemoveAt(store.db.repos, i));
      if !keepFiles && fs.Exists(p) {
        fs.RemoveTreeQuietly(p);
        if fs.Exists(p) {
          return false, "Failed to completely remove local files for '" + alias + "'";
        }
        message := "Successfully removed repository '" + alias + "' and local files";
      } else if keepFiles {
        message := "Removed repository '" + alias + "' from database (kept local files)";
      } else {
        message := "Removed repository '" + alias + "' from database (no local files found)";
      }
      success := true;
    }

    /**
      `cleanup_orphaned_files()`: every child directory of the cache directory
      named after no catalog alias is an orphan; each orphan is measured and
      deleted, or lands in the failures when either step raises.
    */
    method CleanupOrphanedFiles()
      returns (summary: CleanupSummary, orphaned: seq<string>, removed: seq<string>, failed: seq<string>, freed: nat)
      requires Valid()
      modifies fs
      ensures Valid()
      ensures reposDir !in old(fs.entries) ==>
        summary == NoReposDir && orphaned == [] && removed == [] && failed == [] && freed == 0 && fs.entries == old(fs.entries)
      ensures reposDir in old(fs.entries) ==>
        && Distinct(orphaned)
        && (forall n :: n in orphaned <==>
              n in ChildNames(old(fs.entries), reposDir) && IsOrphanDir(old(fs.entries), reposDir, AliasSet(store.db.repos), n))
        && removed == Filter(orphaned, ClearableIn(old(fs.entries), reposDir))
        && failed == Filter(orphaned, StuckIn(old(fs.entries), reposDir))
        && freed == SizeSum(removed, old(fs.entries), reposDir)
        && fs.entries == old(fs.entries) - PathsOf(removed, reposDir)
        && summary == (if orphaned == [] then NoOrphans else Cleaned(|removed|, freed, |failed|))
    {
      orphaned, removed, failed, freed := [], [], [], 0;
      var aliases := AliasSet(store.db.repos);
      if !fs.Exists(reposDir) {
        return NoReposDir, orphaned, removed, failed, freed;
      }
      ghost var start := fs.entries;
      var names := fs.ListDir(reposDir);
      orphaned, removed, failed, freed := CleanupChildren(names, aliases);
      CleanupComplete(start, reposDir, aliases, names, orphaned, removed, failed, freed, fs.entries);
      if orphaned == [] {
        summary := NoOrphans;
      } else {
        summary := Cleaned(|removed|, freed, |failed|);
      }
    }

    /** The cleanup loop over the listed children, in listing order. */
    method CleanupChildren(names: seq<string>, aliases: set<string>)
      returns (orphaned: seq<string>, removed: seq<string>, failed: seq<string>, freed: nat)
      requires fs.Valid() && Distinct(names)
      requires forall n :: n in names ==> n in ChildNames(fs.entries, reposDir)
      modifies fs
      ensures fs.Valid()
      ensures CleanupState(old(fs.entries), reposDir, aliases, names, orphaned, removed, failed, freed, fs.entries)
    {
      orphaned, removed, failed, freed := [], [], [], 0;
      ghost var start := fs.entries;
      var i := 0;
      while i < |names|
        invariant 0 <= i <= |names|
        invariant fs.Valid()
        invariant CleanupState(start, reposDir, aliases, names[..i], orphaned, removed, failed, freed, fs.entries)
      {
        var n := names[i];
        ChildNamesExist(start, reposDir, n);
        NextUnseen(names, i);
        orphaned, removed, failed, freed := CleanupEntry(n, aliases, start, names[..i], orphaned, removed, failed, freed);
        i := i + 1;
      }
      assert names[..i] == names;
    }

    /** One pass of the cleanup loop: the child `n` is skipped, or recorded as an orphan and then removed or failed. */
    method CleanupEntry(n: string, aliases: set<string>, ghost start: map<string, Entry>, ghost seen: seq<string>,
                        orphaned: seq<string>, removed: seq<string>, failed: seq<string>, freed: nat)
      returns (orphaned': seq<string>, removed': seq<string>, failed': seq<string>, freed': nat)
      requires fs.Valid() && PathJoin(reposDir, n) in start && n !in seen
      requires CleanupState(start, reposDir, aliases, seen, orphaned, removed, failed, freed, fs.entries)
      modifies fs
      ensures fs.Valid()
      ensures CleanupState(start, reposDir, aliases, seen + [n], orphaned', removed', failed', freed', fs.entries)
    {
      var p := PathJoin(reposDir, n);
      UntouchedChild(start, reposDir, aliases, seen, orphaned, removed, failed, freed, fs.entries, n);
      orphaned', removed', failed', freed' := orphaned, removed, failed, freed;
      if fs.entries[p].isDir && n !in aliases {
        orphaned' := orphaned + [n];
        var ok := false;
        if fs.entries[p].walkable {
          var size := fs.entries[p].size;
          ok := fs.RemoveTree(p);
          if ok {
            RemovedStep(start, reposDir, aliases, seen, orphaned, removed, failed, freed, n);
            removed' := removed + [n];
            freed' := freed + size;
          }
        }
        if !ok {
          FailedStep(start, reposDir, aliases, seen, orphaned, removed, failed, freed, fs.entries, n);
          failed' := failed + [n];
        }
      } else {
        SkippedStep(start, reposDir, aliases, seen, orphaned, removed, failed, freed, fs.entries, n);
      }
    }

    /**
      `sync_database_with_filesystem()`: one pass over the rows in order,
      bucketing each by `Classify`; deleted and rewritten rows are committed
      together at the end, and that commit fails as a whole when a deleted
      row still owns index rows. The buckets are reported either way. The
      filesystem is only read.
    */
    method SyncDatabaseWithFilesystem()
      returns (success: bool, message: string, missing: seq<string>, invalid: seq<string>, updated: seq<string>, removedRecords: seq<string>)
      requires Valid()
      modifies store
      ensures Valid()
      ensures missing == AliasesWith(old(store.db.repos), fs.entries, reposDir, Missing)
      ensures invalid == AliasesWith(old(store.db.repos), fs.entries, reposDir, NotARepository)
      ensures updated == AliasesWith(old(store.db.repos), fs.entries, reposDir, Misplaced)
      ensures removedRecords == RemovedAliases(old(store.db.repos), fs.entries, reposDir)
      ensures success <==> !old(SyncRefused(store.db.repos, fs.entries, reposDir, store.db.indexes))
      ensures !success ==> store.db == old(store.db) && message == "Database synchronization failed: " + NotNullFailure
      ensures success ==> store.db == old(store.db).(repos := Synced(old(store.db.repos), fs.entries, reposDir))
      ensures success ==> message == if |missing| + |invalid| + |updated| > 0
        then "Synchronized database: removed " + NatToString(|removedRecords|) + " records, updated "
             + NatToString(|updated|) + " paths"
        else "Database is already synchronized with filesystem"
    {
      var repos := store.db.repos;
      missing, invalid, updated, removedRecords := [], [], [], [];
      var kept: seq<Repository> := [];
      var i := 0;
      while i < |repos|
        invariant 0 <= i <= |repos|
        invariant store.db == old(store.db)
        invariant missing == AliasesWith(repos[..i], fs.entries, reposDir, Missing)
        invariant invalid == AliasesWith(repos[..i], fs.entries, reposDir, NotARepository)
        invariant updated == AliasesWith(repos[..i], fs.entries, reposDir, Misplaced)
        invariant removedRecords == RemovedAliases(repos[..i], fs.entries, reposDir)
        invariant kept == Synced(repos[..i], fs.entries, reposDir)
      {
        var r := repos[i];
        SyncStep(repos, i, fs.entries, reposDir);
        var p := r.localPath;
        if !fs.Exists(p) {
          missing := missing + [r.alias];
          removedRecords := removedRecords + [r.alias];
        } else if !fs.HasGit(p) {
          invalid := invalid + [r.alias];
          removedRecords := removedRecords + [r.alias];
        } else if p != LocalPath(r.alias) {
          updated := updated + [r.alias];
          kept := kept + [r.(localPath := LocalPath(r.alias))];
        } else {
          kept := kept + [r];
        }
        i := i + 1;
      }
      assert repos[..i] == repos;
      if SyncRefused(repos, fs.entries, reposDir, store.db.indexes) {
        return false, "Database synchronization failed: " + NotNullFailure, missing, invalid, updated, removedRecords;
      }
      SyncedKeys(repos, fs.entries, reposDir);
      store.db := store.db.(repos := kept);
      success := true;
      if |missing| + |invalid| + |updated| > 0 {
        message := "Synchronized database: removed " + NatToString(|removedRecords|) + " records, updated "
                   + NatToString(|updated|) + " paths";
      } else {
        message := "Database is already synchronized with filesystem";
      }
    }

    /**
      `get_disk_usage()`: one pass over the rows in order, measuring each
      existing path; then the average and the five largest. Sizes are bytes.
    */
    method GetDiskUsage()
      returns (totalRepos: nat, repoSizes: seq<(string, nat)>, totalBytes: nat, avgBytes: real, largest: seq<(string, nat)>)
      requires Valid()
      ensures totalRepos == |store.db.repos|
      ensures repoSizes == RepoSizes(store.db.repos, fs.entries)
      ensures totalBytes == TotalSize(repoSizes)
      ensures avgBytes == if totalRepos > 0 then totalBytes as real / totalRepos as real else 0.0
      ensures largest == Largest(repoSizes)
    {
      var repos := store.db.repos;
      totalRepos := |repos|;
      repoSizes, totalBytes := [], 0;
      var i := 0;
      while i < |repos|
        invariant 0 <= i <= |repos|
        invariant repoSizes == RepoSizes(repos[..i], fs.entries)
        invariant totalBytes == TotalSize(repoSizes)
      {
        var r := repos[i];
        assert repos[..i + 1][..i] == repos[..i];
        if fs.Exists(r.localPath) {
          var size := Footprint(fs.entries[r.localPath]);
          assert (repoSizes + [(r.alias, size)])[..|repoSizes|] == repoSizes;
          repoSizes := repoSizes + [(r.alias, size)];
          totalBytes := totalBytes + size;
        }
        i := i + 1;
      }
      assert repos[..i] == repos;
      avgBytes := if totalRepos > 0 then totalBytes as real / totalRepos as real else 0.0;
      largest := Largest(repoSizes);
    }
  }
}
