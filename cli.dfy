/**
  The rules inside the command-line front end: how `find` orders, pages and
  exports its results and which options it gives the searcher, how `add`
  derives and checks an alias, how `list` shows the age of a clone, and how
  `update` counts its outcomes. Printing, prompts and argument parsing are
  not modelled.
*/
module Cli {
  import opened Common
  import opened Strings
  import opened Sorting
  import opened Models
  import opened SearchTypes
  import GitUrl
  import RipgrepSearch
  import opened GitManager

  // ---------------------------------------------------------------------------
  // _sort_results

  /** `key=lambda r: r.file_path`. */
  predicate PathLe(a: SearchResult, b: SearchResult) {
    LexLe(a.filePath, b.filePath)
  }

  /** `key=lambda r: (r.file_path, r.line_number)`: tuples compare by path, then by line. */
  predicate PathLineLe(a: SearchResult, b: SearchResult) {
    LexLe(a.filePath, b.filePath) && (a.filePath == b.filePath ==> a.lineNumber <= b.lineNumber)
  }

  /** The end of the first word of a stripped line: the first whitespace character, or the end. */
  function WordEnd(t: string): (k: nat)
    ensures k <= |t|
    ensures forall i :: 0 <= i < k ==> !IsSpace(t[i])
    ensures k < |t| ==> IsSpace(t[k])
  {
    if t == [] || IsSpace(t[0]) then 0 else 1 + WordEnd(t[1..])
  }

  /** `t.split()[0]` for a stripped line that is not empty. */
  function FirstWord(t: string): string
  {
    t[..WordEnd(t)]
  }

  /** The path names a main, index or core file or directory, in any case. */
  predicate NameBonus(path: string) {
    Contains(Lower(path), "main") || Contains(Lower(path), "index") || Contains(Lower(path), "core")
  }

  /** `max(0, 20 - path.count('/'))`: shallower paths score higher. */
  function DepthBonus(path: string): (b: nat)
    ensures b <= 20
  {
    if 20 - CountChar(path, '/') > 0 then 20 - CountChar(path, '/') else 0
  }

  /**
    `relevance_score` where it does not raise: ten for a main, index or core
    path, five when the stripped line starts with its own first word, and the
    depth bonus.
  */
  function Score(r: SearchResult): int
  {
    var t := Strip(r.lineContent);
    (if NameBonus(r.filePath) then 10 else 0)
      + (if t != [] && StartsWith(t, FirstWord(t)) then 5 else 0)
      + DepthBonus(r.filePath)
  }

  /**
    `relevance_score`: a blank line has no first word and raises IndexError
    (`None`); on any other line the "starts with its first word" test always
    holds, so the line always earns its five points.
  */
  function RelevanceScore(r: SearchResult): (s: Option<int>)
    ensures s.None? <==> Strip(r.lineContent) == []
    ensures s.Some? ==> s.value == (if NameBonus(r.filePath) then 10 else 0) + 5 + DepthBonus(r.filePath)
    ensures s.Some? ==> 5 <= s.value <= 35
  {
    if Strip(r.lineContent) == [] then None else Some(Score(r))
  }

  /** `sorted(..., key=relevance_score, reverse=True)`: higher scores first, ties in input order. */
  predicate ScoreAtLeast(a: SearchResult, b: SearchResult) {
    Score(a) >= Score(b)
  }

  /** Every line of the list has a first word. */
  predicate NoBlankLines(results: seq<SearchResult>) {
    forall i :: 0 <= i < |results| ==> Strip(results[i].lineContent) != []
  }

  /**
    `_sort_results`: by path, by path and line, or by relevance; any other key
    leaves the list as it is. `None` is the IndexError relevance scoring
    raises on a blank line.
  */
  function SortResults(results: seq<SearchResult>, sortBy: string): (r: Option<seq<SearchResult>>)
    ensures r.None? <==> sortBy == "relevance" && !NoBlankLines(results)
    ensures sortBy != "file" && sortBy != "line" && sortBy != "relevance" ==> r == Some(results)
  {
    if sortBy == "file" then Some(Sort(results, PathLe))
    else if sortBy == "line" then Some(Sort(results, PathLineLe))
    else if sortBy == "relevance" then
      if NoBlankLines(results) then Some(Sort(results, ScoreAtLeast)) else None
    else Some(results)
  }

  lemma PathOrder()
    ensures TotalPreorder(PathLe)
  {
    forall a, b ensures PathLe(a, b) || PathLe(b, a) {
      LexLeTotal(a.filePath, b.filePath);
    }
    forall a, b, c | PathLe(a, b) && PathLe(b, c) ensures PathLe(a, c) {
      LexLeTrans(a.filePath, b.filePath, c.filePath);
    }
  }

  lemma PathLineOrder()
    ensures TotalPreorder(PathLineLe)
  {
    forall a, b ensures PathLineLe(a, b) || PathLineLe(b, a) {
      LexLeTotal(a.filePath, b.filePath);
      if LexLe(a.filePath, b.filePath) && LexLe(b.filePath, a.filePath) {
        LexLeAntisym(a.filePath, b.filePath);
      }
    }
    forall a, b, c | PathLineLe(a, b) && PathLineLe(b, c) ensures PathLineLe(a, c) {
      LexLeTrans(a.filePath, b.filePath, c.filePath);
      if a.filePath == c.filePath {
        LexLeAntisym(a.filePath, b.filePath);
      }
    }
  }

  lemma ScoreOrder()
    ensures TotalPreorder(ScoreAtLeast)
  {
  }

  /** Sorting by file: the same results, ordered by path, results with the same path kept in their order. */
  lemma SortByFile(results: seq<SearchResult>)
    ensures SortResults(results, "file").Some?
    ensures var s := SortResults(results, "file").value;
      && multiset(s) == multiset(results)
      && (forall i, j :: 0 <= i < j < |s| ==> LexLe(s[i].filePath, s[j].filePath))
      && (forall v :: Ties(s, v, PathLe) == Ties(results, v, PathLe))
  {
    PathOrder();
    SortPermutes(results, PathLe);
    SortSorted(results, PathLe);
    forall v ensures Ties(Sort(results, PathLe), v, PathLe) == Ties(results, v, PathLe) {
      SortStable(results, v, PathLe);
    }
  }

  /** Sorting by line: ordered by path and, within a path, by line number; equal pairs kept in their order. */
  lemma SortByLine(results: seq<SearchResult>)
    ensures SortResults(results, "line").Some?
    ensures var s := SortResults(results, "line").value;
      && multiset(s) == multiset(results)
      && (forall i, j :: 0 <= i < j < |s| ==> LexLe(s[i].filePath, s[j].filePath))
      && (forall i, j :: 0 <= i < j < |s| && s[i].filePath == s[j].filePath ==> s[i].lineNumber <= s[j].lineNumber)
      && (forall v :: Ties(s, v, PathLineLe) == Ties(results, v, PathLineLe))
  {
    PathLineOrder();
    SortPermutes(results, PathLineLe);
    SortSorted(results, PathLineLe);
    var s := Sort(results, PathLineLe);
    assert forall i, j :: 0 <= i < j < |s| ==> PathLineLe(s[i], s[j]);
    forall v ensures Ties(s, v, PathLineLe) == Ties(results, v, PathLineLe) {
      SortStable(results, v, PathLineLe);
    }
  }

  /** Sorting by relevance: scores never increase down the list, and equal scores keep their input order. */
  lemma SortByRelevance(results: seq<SearchResult>)
    requires NoBlankLines(results)
    ensures SortResults(results, "relevance").Some?
    ensures var s := SortResults(results, "relevance").value;
      && multiset(s) == multiset(results)
      && (forall i, j :: 0 <= i < j < |s| ==> Score(s[i]) >= Score(s[j]))
      && (forall v :: Ties(s, v, ScoreAtLeast) == Ties(results, v, ScoreAtLeast))
  {
    ScoreOrder();
    SortPermutes(results, ScoreAtLeast);
    SortSorted(results, ScoreAtLeast);
    var s := Sort(results, ScoreAtLeast);
    assert forall i, j :: 0 <= i < j < |s| ==> ScoreAtLeast(s[i], s[j]);
    forall v ensures Ties(s, v, ScoreAtLeast) == Ties(results, v, ScoreAtLeast) {
      SortStable(results, v, ScoreAtLeast);
    }
  }

  /** Sorting by file twice is sorting once. */
  lemma SortByFileIdempotent(results: seq<SearchResult>)
    ensures SortResults(SortResults(results, "file").value, "file") == SortResults(results, "file")
  {
    PathOrder();
    SortSorted(results, PathLe);
    SortOfSorted(Sort(results, PathLe), PathLe);
  }

  // ---------------------------------------------------------------------------
  // add: the alias

  /** `repo_url.split("/")[-1].replace(".git", "")`. */
  function DeriveAlias(url: string): string
  {
    var parts := Split(url, '/');
    ReplaceAll(parts[|parts| - 1], ".git", "")
  }

  /** `alias.replace("-", "").replace("_", "").isalnum()`; `isalnum` is false on the empty string. */
  predicate IsValidAlias(alias: string): (ok: bool)
    ensures ok ==> alias != []
  {
    var t := ReplaceAll(ReplaceAll(alias, "-", ""), "_", "");
    t != [] && forall i :: 0 <= i < |t| ==> IsAlnum(t[i])
  }

  /** An alias is valid exactly when it uses letters, digits, `-` and `_` only and has at least one letter or digit. */
  lemma ValidAliasIff(alias: string)
    ensures IsValidAlias(alias) <==>
      (forall c :: c in alias ==> IsAlnum(c) || c == '-' || c == '_') && exists c :: c in alias && IsAlnum(c)
  {
    var u := ReplaceAll(alias, "-", "");
    var t := ReplaceAll(u, "_", "");
    ReplaceCharIsWithout(alias, '-');
    ReplaceCharIsWithout(u, '_');
    WithoutChars(alias, '-');
    WithoutChars(u, '_');
    assert forall c :: c in t <==> c in alias && c != '-' && c != '_';
    if IsValidAlias(alias) {
      assert t[0] in t;
    }
    if (forall c :: c in alias ==> IsAlnum(c) || c == '-' || c == '_') && exists c :: c in alias && IsAlnum(c) {
      var c :| c in alias && IsAlnum(c);
      assert c in t;
    }
  }

  /** The last piece of a path whose final name holds no `/`. */
  lemma LastSegment(dir: string, name: string)
    requires '/' !in name
    ensures var parts := Split(dir + "/" + name, '/'); parts[|parts| - 1] == name
  {
    var parts := Split(dir, '/');
    var whole := parts + [name];
    JoinSplit(dir, '/');
    JoinSnoc(parts, name);
    SplitJoin(whole, '/');
  }

  lemma {:induction false} JoinSnoc(parts: seq<string>, last: string)
    requires |parts| >= 1
    ensures Join(parts + [last], "/") == Join(parts, "/") + "/" + last
    decreases |parts|
  {
    if |parts| == 1 {
      assert (parts + [last])[1..] == [last];
    } else {
      assert (parts + [last])[1..] == parts[1..] + [last];
      JoinSnoc(parts[1..], last);
    }
  }

  /** A name without dots loses only its trailing `.git`. */
  lemma {:induction false} DropGitSuffix(name: string)
    requires '.' !in name
    ensures ReplaceAll(name + ".git", ".git", "") == name
    decreases |name|
  {
    if name != [] {
      var s := name + ".git";
      assert s[0] == name[0] && s[0] != '.';
      assert s[1..] == name[1..] + ".git";
      DropGitSuffix(name[1..]);
      assert name == [name[0]] + name[1..];
    }
  }

  /** A name without dots has no `.git` to remove. */
  lemma {:induction false} NoGitInside(name: string)
    requires '.' !in name
    ensures !Contains(name, ".git")
    decreases |name|
  {
    if name != [] {
      assert name[0] != '.';
      assert !StartsWith(name, ".git");
      NoGitInside(name[1..]);
    }
  }

  /** `https://host/owner/name.git` and `https://host/owner/name` both give the alias `name`. */
  lemma DeriveFromRepoName(dir: string, name: string)
    requires '/' !in name && '.' !in name
    ensures DeriveAlias(dir + "/" + name + ".git") == name
    ensures DeriveAlias(dir + "/" + name) == name
  {
    assert dir + "/" + name + ".git" == dir + "/" + (name + ".git");
    LastSegment(dir, name + ".git");
    DropGitSuffix(name);
    LastSegment(dir, name);
    NoGitInside(name);
    ReplaceAbsent(name, ".git", "");
  }

  /** A URL ending in `/` derives the empty alias, which is rejected. */
  lemma TrailingSlashRejected(dir: string)
    ensures DeriveAlias(dir + "/") == [] && !IsValidAlias(DeriveAlias(dir + "/"))
  {
    LastSegment(dir, []);
    assert dir + "/" == dir + "/" + [];
  }

  /**
    `add` up to the catalog check: an invalid URL is rejected first, then the
    alias (the given one, or the derived one when none or an empty one is
    given) must be valid.
  */
  function AddAlias(url: string, alias: Option<string>): (r: Result<string, string>)
    ensures r.Ok? <==>
      (GitUrl.ValidRepositoryUrl(Some(url))
       && IsValidAlias(if alias.None? || alias.value == [] then DeriveAlias(url) else alias.value))
    ensures !GitUrl.ValidRepositoryUrl(Some(url)) ==> r == Err("Invalid repository URL: " + url)
    ensures r.Ok? ==> IsValidAlias(r.value)
    ensures r.Ok? && alias.Some? && alias.value != [] ==> r.value == alias.value
    ensures r.Ok? && (alias.None? || alias.value == []) ==> r.value == DeriveAlias(url)
  {
    if !GitUrl.ValidRepositoryUrl(Some(url)) then Err("Invalid repository URL: " + url)
    else
      var a := if alias.None? || alias.value == [] then DeriveAlias(url) else alias.value;
      if IsValidAlias(a) then Ok(a) else Err("Invalid alias: " + a)
  }

  // ---------------------------------------------------------------------------
  // find: options and pagination

  /**
    The options `find` builds: the one file type if given, the same context
    on both sides, and `ignore_case` and `smart_case` both set to the opposite
    of `--case-sensitive`.
  */
  function FindOptions(fileType: Option<string>, context: int, caseSensitive: bool, regex: bool,
                       limit: int, excludes: seq<string>, includes: seq<string>): (o: SearchOptions)
    ensures o.fileTypes == (if fileType.Some? && fileType.value != [] then [fileType.value] else [])
    ensures o.contextBefore == context && o.contextAfter == context
    ensures o.ignoreCase == !caseSensitive && o.smartCase == !caseSensitive
    ensures o.regexMode == regex && o.maxResults == limit
    ensures o.excludePatterns == excludes && o.includePatterns == includes && o.excludeTypes == []
  {
    SearchOptions(if fileType.Some? && fileType.value != [] then [fileType.value] else [], [],
                  context, context, !caseSensitive, !caseSensitive, regex, limit, includes, excludes)
  }

  /**
    What ripgrep is asked from `find`: `--ignore-case` exactly when the search
    is not case sensitive, never `--smart-case`, context flags only for a
    positive context, and the file type as the only `--type`.
  */
  lemma FindInvocation(fileType: Option<string>, context: int, caseSensitive: bool, regex: bool,
                       limit: int, excludes: seq<string>, includes: seq<string>)
    ensures var fs := RipgrepSearch.Invocation(FindOptions(fileType, context, caseSensitive, regex, limit, excludes, includes));
      && (RipgrepSearch.IgnoreCase in fs <==> !caseSensitive)
      && RipgrepSearch.SmartCase !in fs
      && (forall n :: RipgrepSearch.BeforeContext(n) in fs <==> context > 0 && n == context)
      && (forall n :: RipgrepSearch.AfterContext(n) in fs <==> context > 0 && n == context)
      && RipgrepSearch.Picked(fs, RipgrepSearch.TypeKind) == (if fileType.Some? && fileType.value != [] then [fileType.value] else [])
  {
    var o := FindOptions(fileType, context, caseSensitive, regex, limit, excludes, includes);
    RipgrepSearch.InvocationCase(o);
    RipgrepSearch.InvocationContext(o);
    RipgrepSearch.InvocationTypes(o);
  }

  /** `(len(results) + page_size - 1) // page_size`. */
  function PageCount(n: nat, pageSize: int): nat
    requires pageSize > 0
  {
    (n + pageSize - 1) / pageSize
  }

  /** The page count is the ceiling of `n / page_size`: enough pages for every result, and no empty page. */
  lemma PageCountIsCeiling(n: nat, pageSize: int)
    requires pageSize > 0
    ensures PageCount(n, pageSize) * pageSize >= n
    ensures n > 0 ==> (PageCount(n, pageSize) - 1) * pageSize < n
    ensures PageCount(n, pageSize) == 0 <==> n == 0
  {
    var q := PageCount(n, pageSize);
    var r := (n + pageSize - 1) % pageSize;
    assert n + pageSize - 1 == q * pageSize + r;
    assert (q - 1) * pageSize == q * pageSize - pageSize;
    if q == 0 {
      assert n + pageSize - 1 == r;
    }
  }

  /** The results `find` shows: the first page when a positive page size is given, otherwise all of them. */
  function FirstPage(results: seq<SearchResult>, pageSize: Option<int>): (shown: seq<SearchResult>)
    ensures IsPrefix(results, shown)
    ensures |shown| == if pageSize.Some? && pageSize.value > 0 && pageSize.value < |results| then pageSize.value else |results|
  {
    if pageSize.Some? && pageSize.value > 0 then
      if pageSize.value < |results| then results[..pageSize.value] else results
    else results
  }

  /** `shown` is a prefix of `results`. */
  predicate IsPrefix(results: seq<SearchResult>, shown: seq<SearchResult>) {
    |shown| <= |results| && results[..|shown|] == shown
  }

  /** The hint about further pages is printed exactly when the first page leaves results out. */
  lemma MorePagesIffCut(results: seq<SearchResult>, pageSize: int)
    requires pageSize > 0
    ensures PageCount(|results|, pageSize) > 1 <==> |FirstPage(results, Some(pageSize))| < |results|
  {
    PageCountIsCeiling(|results|, pageSize);
    var q := PageCount(|results|, pageSize);
    if q > 1 {
      assert (q - 1) * pageSize >= pageSize;
    }
    if |results| > pageSize {
      assert q * pageSize > pageSize;
    }
  }

  // ---------------------------------------------------------------------------
  // list: relative time

  /**
    The Last Updated cell for a clone updated `diff` seconds ago. Python's
    `timedelta` keeps whole days in `days` and the remainder, never
    negative, in `seconds`: floor division and modulo by 86400.
  */
  function RelativeTime(diff: int): string
  {
    var days := diff / 86400;
    var seconds := diff % 86400;
    if days > 0 then IntToString(days) + "d ago"
    else if seconds > 3600 then IntToString(seconds / 3600) + "h ago"
    else if seconds > 60 then IntToString(seconds / 60) + "m ago"
    else "Just now"
  }

  /** `Never` for a clone never updated, its age otherwise. */
  function LastUpdatedCell(lastUpdated: Option<Timestamp>, now: Timestamp): (cell: string)
    ensures lastUpdated.None? <==> cell == "Never"
  {
    if lastUpdated.None? then "Never" else RelativeTime(now - lastUpdated.value)
  }

  /**
    The four buckets of a non-negative age: days from a full day on, hours
    above an hour, minutes above a minute, and "Just now" up to a minute.
  */
  lemma RelativeTimeBuckets(diff: int)
    requires diff >= 0
    ensures diff >= 86400 ==> RelativeTime(diff) == IntToString(diff / 86400) + "d ago"
    ensures 3600 < diff < 86400 ==> RelativeTime(diff) == IntToString(diff / 3600) + "h ago" && 1 <= diff / 3600 <= 23
    ensures 60 < diff <= 3600 ==> RelativeTime(diff) == IntToString(diff / 60) + "m ago" && 1 <= diff / 60 <= 60
    ensures diff <= 60 ==> RelativeTime(diff) == "Just now"
  {
    if diff < 86400 {
      assert diff / 86400 == 0 && diff % 86400 == diff;
    }
  }

  /** Exactly one hour is still counted in minutes. */
  lemma AnHourIsSixtyMinutes()
    ensures RelativeTime(3600) == "60m ago"
  {
    RelativeTimeBuckets(3600);
    assert IntToString(60) == "60";
  }

  /** A clone stamped a little in the future shows as almost a day old, not as just now. */
  lemma FutureStampShowsHours()
    ensures RelativeTime(-30) == "23h ago"
  {
    assert -30 / 86400 == -1 && -30 % 86400 == 86370;
    assert 86370 / 3600 == 23;
    assert IntToString(23) == "23";
  }

  // ---------------------------------------------------------------------------
  // update: the counters

  /** What `update_repository` returned for one alias: `(success, has_changes)`. */
  datatype UpdateOutcome = UpdateOutcome(success: bool, hasChanges: bool)

  /** Updated, up to date, and failed, over the outcomes in order. */
  function Tally(outcomes: seq<UpdateOutcome>): (t: (nat, nat, nat))
  {
    if outcomes == [] then (0, 0, 0)
    else
      var t := Tally(outcomes[..|outcomes| - 1]);
      var o := outcomes[|outcomes| - 1];
      if !o.success then (t.0, t.1, t.2 + 1)
      else if o.hasChanges then (t.0 + 1, t.1, t.2)
      else (t.0, t.1 + 1, t.2)
  }

  /** Every alias processed is counted exactly once. */
  lemma {:induction false} TallyTotal(outcomes: seq<UpdateOutcome>)
    ensures Tally(outcomes).0 + Tally(outcomes).1 + Tally(outcomes).2 == |outcomes|
    decreases |outcomes|
  {
    if outcomes != [] {
      TallyTotal(outcomes[..|outcomes| - 1]);
    }
  }

  /** The error count is zero exactly when every update succeeded. */
  lemma {:induction false} TallyErrorsIff(outcomes: seq<UpdateOutcome>)
    ensures Tally(outcomes).2 == 0 <==> forall i :: 0 <= i < |outcomes| ==> outcomes[i].success
    decreases |outcomes|
  {
    if outcomes != [] {
      var init := outcomes[..|outcomes| - 1];
      TallyErrorsIff(init);
      assert forall i :: 0 <= i < |init| ==> init[i] == outcomes[i];
    }
  }

  /** The aliases of the catalog's rows, in row order. */
  function CatalogAliases(repos: seq<Repository>): (r: seq<string>)
    ensures |r| == |repos| && forall i :: 0 <= i < |repos| ==> r[i] == repos[i].alias
  {
    seq(|repos|, i requires 0 <= i < |repos| => repos[i].alias)
  }

  /**
    The aliases `update` works on: every catalog alias with `--all` or without
    an alias, otherwise the one named, which `repository_exists` must accept;
    `existing` is the set of aliases it accepts.
  */
  function UpdateTargets(alias: Option<string>, all: bool, catalog: seq<string>, existing: set<string>)
    : (r: Result<seq<string>, string>)
    ensures r.Err? <==> !all && alias.Some? && alias.value != [] && alias.value !in existing
    ensures r.Err? ==> r.error == "Repository '" + alias.value + "' not found"
    ensures r.Ok? && (all || alias.None? || alias.value == []) ==> r.value == catalog
    ensures r.Ok? && !(all || alias.None? || alias.value == []) ==> r.value == [alias.value] && alias.value in existing
  {
    if all || alias.None? || alias.value == [] then Ok(catalog)
    else if alias.value !in existing then Err("Repository '" + alias.value + "' not found")
    else Ok([alias.value])
  }

  /**
    The target selection of `update` against a repository manager: a named
    alias is refused unless it has a catalog row and a clone with `.git`.
  */
  method UpdateSelection(g: GitRepository, alias: Option<string>, all: bool) returns (r: Result<seq<string>, string>)
    requires g.Valid()
    ensures r.Err? <==> !all && alias.Some? && alias.value != [] && !g.RepositoryExists(alias.value)
    ensures r.Ok? && (all || alias.None? || alias.value == []) ==> r.value == CatalogAliases(g.store.db.repos)
    ensures r.Ok? && !(all || alias.None? || alias.value == []) ==> r.value == [alias.value] && g.RepositoryExists(alias.value)
  {
    r := UpdateTargets(alias, all, CatalogAliases(g.store.db.repos), g.ExistingAliases());
  }

  /**
    The `update` loop's counters: updated, up to date and failed counts, and
    the exit status, 1 exactly when some update failed.
  */
  method CountUpdates(outcomes: seq<UpdateOutcome>) returns (updated: nat, upToDate: nat, errors: nat, exitCode: int)
    ensures (updated, upToDate, errors) == Tally(outcomes)
    ensures updated + upToDate + errors == |outcomes|
    ensures exitCode == 1 <==> exists i :: 0 <= i < |outcomes| && !outcomes[i].success
    ensures exitCode == 0 || exitCode == 1
  {
    updated, upToDate, errors := 0, 0, 0;
    for i := 0 to |outcomes|
      invariant (updated, upToDate, errors) == Tally(outcomes[..i])
    {
      assert outcomes[..i + 1][..i] == outcomes[..i];
      var o := outcomes[i];
      if o.success {
        if o.hasChanges {
          updated := updated + 1;
        } else {
          upToDate := upToDate + 1;
        }
      } else {
        errors := errors + 1;
      }
    }
    assert outcomes[..|outcomes|] == outcomes;
    TallyTotal(outcomes);
    TallyErrorsIff(outcomes);
    exitCode := if errors > 0 then 1 else 0;
  }

  // ---------------------------------------------------------------------------
  // _format_table_results_for_file

  /** One body line of the exported table: path, line and the stripped line with its tabs as four spaces. */
  function TsvLine(r: SearchResult): string
  {
    r.filePath + "\t" + IntToString(r.lineNumber) + "\t" + ReplaceAll(Strip(r.lineContent), "\t", "    ")
  }

  /** Replacing a character by a text without it leaves none of it. */
  lemma {:induction false} ReplaceRemoves(s: string, c: char, rep: string)
    requires c !in rep
    ensures c !in ReplaceAll(s, [c], rep)
    decreases |s|
  {
    if |s| >= 1 {
      ReplaceRemoves(s[1..], c, rep);
    }
  }

  /** A body line reads back, split at its tabs, as the path, the line number and the content cell. */
  lemma TsvLineFields(r: SearchResult)
    requires '\t' !in r.filePath
    ensures var fields := Split(TsvLine(r), '\t');
      && |fields| == 3 && fields[0] == r.filePath
      && ParseInt(fields[1]) == Some(r.lineNumber)
      && fields[2] == ReplaceAll(Strip(r.lineContent), "\t", "    ")
  {
    ReplaceRemoves(Strip(r.lineContent), '\t', "    ");
    NoTabInNumber(r.lineNumber);
    SplitThree(r.filePath, IntToString(r.lineNumber), ReplaceAll(Strip(r.lineContent), "\t", "    "), '\t');
    IntRoundTrip(r.lineNumber);
  }

  lemma NoTabInNumber(i: int)
    ensures '\t' !in IntToString(i)
  {
    if i < 0 {
      assert IntToString(i) == "-" + NatToString(-i);
    }
  }

  /** Three pieces without the separator, joined by it, split back into those pieces. */
  lemma SplitThree(a: string, b: string, c: string, sep: char)
    requires sep !in a && sep !in b && sep !in c
    ensures Split(a + [sep] + b + [sep] + c, sep) == [a, b, c]
  {
    assert [b, c][1..] == [c];
    assert Join([b, c], [sep]) == b + [sep] + c;
    assert [a, b, c][1..] == [b, c];
    assert Join([a, b, c], [sep]) == a + [sep] + (b + [sep] + c);
    assert a + [sep] + b + [sep] + c == a + [sep] + (b + [sep] + c);
    SplitJoin([a, b, c], sep);
  }

  /** The six header lines; the generation time is given, not read from a clock. */
  function TsvHeader(query: string, alias: string, count: nat, generated: string): (h: seq<string>)
    ensures |h| == 6 && h[5] == "File\tLine\tContent"
  {
    ["# KodeKlip Search Results",
     "# Query: '" + query + "' in repository: " + alias,
     "# Found " + IntToString(count) + " matches",
     "# Generated: " + generated + "Z",
     "",
     "File\tLine\tContent"]
  }

  /** `_format_table_results_for_file`: the header, then one body line per result, joined by newlines. */
  method FormatTableForFile(results: seq<SearchResult>, query: string, alias: string, generated: string)
    returns (lines: seq<string>, text: string)
    ensures |lines| == 6 + |results|
    ensures lines[..6] == TsvHeader(query, alias, |results|, generated)
    ensures forall i :: 0 <= i < |results| ==> lines[6 + i] == TsvLine(results[i])
    ensures text == Join(lines, "\n")
  {
    lines := TsvHeader(query, alias, |results|, generated);
    ghost var body: seq<string> := [];
    for i := 0 to |results|
      invariant |body| == i && lines == TsvHeader(query, alias, |results|, generated) + body
      invariant forall j :: 0 <= j < i ==> body[j] == TsvLine(results[j])
    {
      var result := results[i];
      var content := ReplaceAll(Strip(result.lineContent), "\t", "    ");
      MapSnoc(body, results, i, TsvLine);
      AppendAssoc(TsvHeader(query, alias, |results|, generated), body, [TsvLine(result)]);
      body := body + [TsvLine(result)];
      lines := lines + [result.filePath + "\t" + IntToString(result.lineNumber) + "\t" + content];
    }
    HeadThenTail(TsvHeader(query, alias, |results|, generated), body);
    text := Join(lines, "\n");
  }
}
