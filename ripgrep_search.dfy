/**
  `RipgrepSearcher`: how a search is turned into a ripgrep invocation, how
  ripgrep's `path:line:content` output is read back, and the control flow of
  searching one repository or all of them through the cache. The ripgrep run
  itself is an input: a function from the repository path, the query and the
  flags to the output text or the message of the exception it raised.
*/
module RipgrepSearch {
  import opened Common
  import opened Strings
  import opened Models
  import opened FileTree
  import opened SearchTypes
  import opened SearchCaching

  // ---------------------------------------------------------------------------
  // The invocation

  /** One builder call of `_execute_search`. */
  datatype Flag =
    | WithFilename
    | LineNumber
    | Type(name: string)
    | TypeNot(name: string)
    | Glob(pattern: string)
    | BeforeContext(before: int)
    | AfterContext(after: int)
    | IgnoreCase
    | SmartCase
    | MaxCount(count: int)

  /** The four list-driven loops of `_execute_search`, by the flag each adds per entry. */
  datatype Builder = TypeOf | TypeNotOf | GlobOf | NegatedGlobOf

  /** The flag a loop adds for one entry; an excluded pattern becomes a glob with a leading "!". */
  function Make(b: Builder, t: string): Flag {
    match b
    case TypeOf => Type(t)
    case TypeNotOf => TypeNot(t)
    case GlobOf => Glob(t)
    case NegatedGlobOf => Glob("!" + t)
  }

  /** One flag per list entry, in list order. */
  function Each(ts: seq<string>, b: Builder): (fs: seq<Flag>)
    ensures |fs| == |ts| && forall i {:trigger fs[i]} :: 0 <= i < |ts| ==> fs[i] == Make(b, ts[i])
  {
    if ts == [] then [] else Each(ts[..|ts| - 1], b) + [Make(b, ts[|ts| - 1])]
  }

  /** The case flag: `ignore_case` wins over `smart_case`. */
  function CaseFlags(o: SearchOptions): seq<Flag> {
    if o.ignoreCase then [IgnoreCase] else if o.smartCase then [SmartCase] else []
  }

  /** The file filters: types, excluded types, globs, negated globs. */
  function Filters(o: SearchOptions): seq<Flag> {
    Each(o.fileTypes, TypeOf) + Each(o.excludeTypes, TypeNotOf)
      + Each(o.includePatterns, GlobOf) + Each(o.excludePatterns, NegatedGlobOf)
  }

  /** The context and case switches. */
  function Switches(o: SearchOptions): (fs: seq<Flag>)
    ensures forall f :: f in fs ==> f.BeforeContext? || f.AfterContext? || f.IgnoreCase? || f.SmartCase?
  {
    (if o.contextBefore > 0 then [BeforeContext(o.contextBefore)] else [])
      + (if o.contextAfter > 0 then [AfterContext(o.contextAfter)] else [])
      + CaseFlags(o)
  }

  /** The flags `_execute_search` gives ripgrep, in the order it adds them. */
  function Invocation(o: SearchOptions): (fs: seq<Flag>)
    ensures |fs| >= 3 && fs[0] == WithFilename && fs[1] == LineNumber && fs[|fs| - 1] == MaxCount(o.maxResults)
  {
    [WithFilename, LineNumber] + Filters(o) + Switches(o) + [MaxCount(o.maxResults)]
  }

  lemma EachSnoc(ts: seq<string>, i: nat, b: Builder)
    requires i < |ts|
    ensures Each(ts[..i + 1], b) == Each(ts[..i], b) + [Make(b, ts[i])]
  {
    assert ts[..i + 1][..i] == ts[..i];
  }

  /** `_execute_search` up to the run: the flags added one builder call at a time. */
  method BuildFlags(o: SearchOptions) returns (flags: seq<Flag>)
    ensures flags == Invocation(o)
  {
    flags := [WithFilename, LineNumber];
    var types := AddEach(o.fileTypes, TypeOf);
    var notTypes := AddEach(o.excludeTypes, TypeNotOf);
    var globs := AddEach(o.includePatterns, GlobOf);
    var notGlobs := AddEach(o.excludePatterns, NegatedGlobOf);
    flags := flags + (types + notTypes + globs + notGlobs);
    assert flags == [WithFilename, LineNumber] + Filters(o);
    var switches: seq<Flag> := [];
    if o.contextBefore > 0 {
      switches := switches + [BeforeContext(o.contextBefore)];
    }
    if o.contextAfter > 0 {
      switches := switches + [AfterContext(o.contextAfter)];
    }
    if o.ignoreCase {
      switches := switches + [IgnoreCase];
    } else if o.smartCase {
      switches := switches + [SmartCase];
    }
    assert switches == Switches(o);
    flags := flags + switches + [MaxCount(o.maxResults)];
  }

  /** One loop of `_execute_search`: a flag per list entry. */
  method AddEach(ts: seq<string>, b: Builder) returns (fs: seq<Flag>)
    ensures fs == Each(ts, b)
  {
    fs := [];
    for i := 0 to |ts|
      invariant fs == Each(ts[..i], b)
    {
      EachSnoc(ts, i, b);
      fs := fs + [Make(b, ts[i])];
    }
    assert ts[..|ts|] == ts;
  }

  /** The three kinds of filter flag, by what ripgrep does with the argument. */
  datatype FilterKind = TypeKind | TypeNotKind | GlobKind

  /** The argument of a filter flag of kind `k`. */
  function Arg(f: Flag, k: FilterKind): Option<string> {
    match k
    case TypeKind => if f.Type? then Some(f.name) else None
    case TypeNotKind => if f.TypeNot? then Some(f.name) else None
    case GlobKind => if f.Glob? then Some(f.pattern) else None
  }

  /** The arguments of the flags of kind `k`, in order. */
  function Picked(flags: seq<Flag>, k: FilterKind): (r: seq<string>)
    ensures |r| <= |flags|
  {
    if flags == [] then []
    else
      Picked(flags[..|flags| - 1], k)
        + (match Arg(flags[|flags| - 1], k) case Some(a) => [a] case None => [])
  }

  lemma {:induction false} PickedAppend(a: seq<Flag>, b: seq<Flag>, k: FilterKind)
    ensures Picked(a + b, k) == Picked(a, k) + Picked(b, k)
    decreases |b|
  {
    if b == [] {
      assert a + b == a;
    } else {
      var b' := b[..|b| - 1];
      assert (a + b)[..|a + b| - 1] == a + b';
      PickedAppend(a, b', k);
    }
  }

  /** Flags that all carry an argument of kind `k` give back exactly those arguments. */
  lemma {:induction false} PickedAll(fs: seq<Flag>, k: FilterKind, us: seq<string>)
    requires |us| == |fs| && forall i :: 0 <= i < |fs| ==> Arg(fs[i], k) == Some(us[i])
    ensures Picked(fs, k) == us
    decreases |fs|
  {
    if fs != [] {
      var n := |fs| - 1;
      assert Arg(fs[n], k) == Some(us[n]);
      assert Picked(fs, k) == Picked(fs[..n], k) + [us[n]];
      PickedAll(fs[..n], k, us[..n]);
      assert us == us[..n] + [us[n]];
    }
  }

  /** A loop's flags, read back by the kind it builds, give its list, mapped to the argument each entry became. */
  lemma PickedEach(ts: seq<string>, b: Builder, k: FilterKind, us: seq<string>)
    requires |us| == |ts| && forall i :: 0 <= i < |ts| ==> Arg(Make(b, ts[i]), k) == Some(us[i])
    ensures Picked(Each(ts, b), k) == us
  {
    PickedAll(Each(ts, b), k, us);
  }

  /** Flags of another kind contribute nothing. */
  lemma {:induction false} PickedNone(fs: seq<Flag>, k: FilterKind)
    requires forall i :: 0 <= i < |fs| ==> Arg(fs[i], k).None?
    ensures Picked(fs, k) == []
    decreases |fs|
  {
    if fs != [] {
      PickedNone(fs[..|fs| - 1], k);
    }
  }

  /** The kind of flag a loop builds. */
  function Kind(b: Builder): FilterKind {
    match b
    case TypeOf => TypeKind
    case TypeNotOf => TypeNotKind
    case GlobOf => GlobKind
    case NegatedGlobOf => GlobKind
  }

  /** A loop contributes nothing to the arguments of another kind. */
  lemma PickedEachOther(ts: seq<string>, b: Builder, k: FilterKind)
    requires Kind(b) != k
    ensures Picked(Each(ts, b), k) == []
  {
    var fs := Each(ts, b);
    forall i | 0 <= i < |fs| ensures Arg(fs[i], k).None? {
      assert fs[i] == Make(b, ts[i]);
    }
    PickedNone(fs, k);
  }

  /** `!p` for every pattern `p`. */
  function Negated(ps: seq<string>): (r: seq<string>)
    ensures |r| == |ps| && forall i :: 0 <= i < |ps| ==> r[i] == "!" + ps[i]
  {
    seq(|ps|, i requires 0 <= i < |ps| => "!" + ps[i])
  }

  /**
    The invocation always starts with the file-name and line-number flags and
    ends with `max_count`, which appears nowhere else.
  */
  lemma InvocationFrame(o: SearchOptions)
    ensures var fs := Invocation(o);
      && |fs| >= 3 && fs[0] == WithFilename && fs[1] == LineNumber
      && fs[|fs| - 1] == MaxCount(o.maxResults)
      && forall i :: 0 <= i < |fs| - 1 ==> !fs[i].MaxCount?
  {
    var fs := Invocation(o);
    forall i | 0 <= i < |fs| - 1 ensures !fs[i].MaxCount? {
      if 2 <= i < 2 + |Filters(o)| {
        FilterKinds(o, i - 2);
      } else if i >= 2 + |Filters(o)| {
        assert fs[i] in Switches(o);
      }
    }
  }

  /** Every filter flag is a `type`, `type_not` or `glob` flag. */
  lemma FilterKinds(o: SearchOptions, i: nat)
    requires i < |Filters(o)|
    ensures Filters(o)[i].Type? || Filters(o)[i].TypeNot? || Filters(o)[i].Glob?
  {
  }

  /** Only the filter block holds filter flags. */
  lemma PickedInvocation(o: SearchOptions, k: FilterKind)
    ensures Picked(Invocation(o), k) == Picked(Filters(o), k)
  {
    var head: seq<Flag> := [WithFilename, LineNumber];
    var last: seq<Flag> := [MaxCount(o.maxResults)];
    PickedNone(head, k);
    PickedNone(last, k);
    SwitchesPickNothing(o, k);
    PickedOnly(head, Filters(o), Switches(o), last, k);
  }

  lemma PickedOnly(a: seq<Flag>, m: seq<Flag>, s: seq<Flag>, z: seq<Flag>, k: FilterKind)
    requires Picked(a, k) == [] && Picked(s, k) == [] && Picked(z, k) == []
    ensures Picked(a + m + s + z, k) == Picked(m, k)
  {
    PickedAppend(a + m + s, z, k);
    PickedAppend(a + m, s, k);
    PickedAppend(a, m, k);
  }

  lemma SwitchesPickNothing(o: SearchOptions, k: FilterKind)
    ensures Picked(Switches(o), k) == []
  {
    var sw := Switches(o);
    forall i | 0 <= i < |sw| ensures Arg(sw[i], k).None? {
      assert sw[i] in sw;
    }
    PickedNone(sw, k);
  }

  /** A flag that is neither a filter nor one of the fixed ones is in the invocation exactly when it is a switch. */
  lemma InInvocation(o: SearchOptions, f: Flag)
    requires !f.Type? && !f.TypeNot? && !f.Glob? && f != WithFilename && f != LineNumber && !f.MaxCount?
    ensures f in Invocation(o) <==> f in Switches(o)
  {
    var head: seq<Flag> := [WithFilename, LineNumber];
    assert Invocation(o) == head + Filters(o) + Switches(o) + [MaxCount(o.maxResults)];
    if f in Filters(o) {
      var i :| 0 <= i < |Filters(o)| && Filters(o)[i] == f;
      FilterKinds(o, i);
    }
  }

  /** The filter block split into its four loops. */
  lemma PickedFilters(o: SearchOptions, k: FilterKind)
    ensures Picked(Filters(o), k)
      == Picked(Each(o.fileTypes, TypeOf), k) + Picked(Each(o.excludeTypes, TypeNotOf), k)
       + Picked(Each(o.includePatterns, GlobOf), k) + Picked(Each(o.excludePatterns, NegatedGlobOf), k)
  {
    var t, tn := Each(o.fileTypes, TypeOf), Each(o.excludeTypes, TypeNotOf);
    var g, ng := Each(o.includePatterns, GlobOf), Each(o.excludePatterns, NegatedGlobOf);
    PickedAppend(t + tn + g, ng, k);
    PickedAppend(t + tn, g, k);
    PickedAppend(t, tn, k);
  }

  /** One `type` flag per entry of `file_types`, in order. */
  lemma InvocationTypes(o: SearchOptions)
    ensures Picked(Invocation(o), TypeKind) == o.fileTypes
  {
    calc {
      Picked(Invocation(o), TypeKind);
    == { PickedInvocation(o, TypeKind); PickedFilters(o, TypeKind); }
      Picked(Each(o.fileTypes, TypeOf), TypeKind) + Picked(Each(o.excludeTypes, TypeNotOf), TypeKind)
        + Picked(Each(o.includePatterns, GlobOf), TypeKind) + Picked(Each(o.excludePatterns, NegatedGlobOf), TypeKind);
    == { PickedEach(o.fileTypes, TypeOf, TypeKind, o.fileTypes);
         PickedEachOther(o.excludeTypes, TypeNotOf, TypeKind);
         PickedEachOther(o.includePatterns, GlobOf, TypeKind);
         PickedEachOther(o.excludePatterns, NegatedGlobOf, TypeKind); }
      o.fileTypes + [] + [] + [];
    }
  }

  /** One `type_not` flag per entry of `exclude_types`, in order. */
  lemma InvocationExcludedTypes(o: SearchOptions)
    ensures Picked(Invocation(o), TypeNotKind) == o.excludeTypes
  {
    calc {
      Picked(Invocation(o), TypeNotKind);
    == { PickedInvocation(o, TypeNotKind); PickedFilters(o, TypeNotKind); }
      Picked(Each(o.fileTypes, TypeOf), TypeNotKind) + Picked(Each(o.excludeTypes, TypeNotOf), TypeNotKind)
        + Picked(Each(o.includePatterns, GlobOf), TypeNotKind) + Picked(Each(o.excludePatterns, NegatedGlobOf), TypeNotKind);
    == { PickedEachOther(o.fileTypes, TypeOf, TypeNotKind);
         PickedEach(o.excludeTypes, TypeNotOf, TypeNotKind, o.excludeTypes);
         PickedEachOther(o.includePatterns, GlobOf, TypeNotKind);
         PickedEachOther(o.excludePatterns, NegatedGlobOf, TypeNotKind); }
      [] + o.excludeTypes + [] + [];
    }
  }

  /** One glob per include pattern, then one negated glob per exclude pattern, in order. */
  lemma InvocationGlobs(o: SearchOptions)
    ensures Picked(Invocation(o), GlobKind) == o.includePatterns + Negated(o.excludePatterns)
  {
    PickedInvocation(o, GlobKind);
    PickedFilters(o, GlobKind);
    PickedEachOther(o.fileTypes, TypeOf, GlobKind);
    PickedEachOther(o.excludeTypes, TypeNotOf, GlobKind);
    GlobsPicked(o.includePatterns);
    NegatedGlobsPicked(o.excludePatterns);
    EmptyPrefix(o.includePatterns, Negated(o.excludePatterns));
  }

  lemma GlobsPicked(ps: seq<string>)
    ensures Picked(Each(ps, GlobOf), GlobKind) == ps
  {
    PickedEach(ps, GlobOf, GlobKind, ps);
  }

  lemma NegatedGlobsPicked(ps: seq<string>)
    ensures Picked(Each(ps, NegatedGlobOf), GlobKind) == Negated(ps)
  {
    PickedEach(ps, NegatedGlobOf, GlobKind, Negated(ps));
  }

  lemma EmptyPrefix<T>(c: seq<T>, d: seq<T>)
    ensures [] + [] + c + d == c + d
  {
  }

  /** What the switch block holds: each context count when positive, and the case flag. */
  lemma SwitchesHold(o: SearchOptions, f: Flag)
    ensures f in Switches(o) <==>
      || (o.contextBefore > 0 && f == BeforeContext(o.contextBefore))
      || (o.contextAfter > 0 && f == AfterContext(o.contextAfter))
      || f in CaseFlags(o)
  {
  }

  /** A context flag appears exactly when its count is positive, carrying that count. */
  lemma InvocationContext(o: SearchOptions)
    ensures forall n :: BeforeContext(n) in Invocation(o) <==> o.contextBefore > 0 && n == o.contextBefore
    ensures forall n :: AfterContext(n) in Invocation(o) <==> o.contextAfter > 0 && n == o.contextAfter
  {
    forall n ensures BeforeContext(n) in Invocation(o) <==> o.contextBefore > 0 && n == o.contextBefore {
      InInvocation(o, BeforeContext(n));
      SwitchesHold(o, BeforeContext(n));
    }
    forall n ensures AfterContext(n) in Invocation(o) <==> o.contextAfter > 0 && n == o.contextAfter {
      InInvocation(o, AfterContext(n));
      SwitchesHold(o, AfterContext(n));
    }
  }

  /** `ignore_case` suppresses `smart_case`; with both false neither flag is given. */
  lemma InvocationCase(o: SearchOptions)
    ensures IgnoreCase in Invocation(o) <==> o.ignoreCase
    ensures SmartCase in Invocation(o) <==> !o.ignoreCase && o.smartCase
  {
    InInvocation(o, IgnoreCase);
    SwitchesHold(o, IgnoreCase);
    InInvocation(o, SmartCase);
    SwitchesHold(o, SmartCase);
  }

  /** `regex_mode` separates cache entries but never reaches ripgrep. */
  lemma RegexModeOnlyInKey(alias: string, query: string, o: SearchOptions)
    ensures Invocation(o) == Invocation(o.(regexMode := !o.regexMode))
    ensures MakeKey(alias, query, o) != MakeKey(alias, query, o.(regexMode := !o.regexMode))
  {
  }

  // ---------------------------------------------------------------------------
  // Reading ripgrep's output

  /** `s.partition(c)` without the separator: the text before the first `c`, and the rest after it if there is one. */
  function CutAt(s: string, c: char): (r: (string, Option<string>))
    ensures r.1.None? ==> r.0 == s && c !in s
    ensures r.1.Some? ==> s == r.0 + [c] + r.1.value && c !in r.0
  {
    match IndexOf(s, c)
    case None => (s, None)
    case Some(i) =>
      assert s == s[..i] + [c] + s[i + 1..];
      (s[..i], Some(s[i + 1..]))
  }

  /** `line.split(':', 2)`: at most three pieces; only the last may hold a ':'. */
  function SplitTwo(line: string): (parts: seq<string>)
    ensures 1 <= |parts| <= 3 && Join(parts, ":") == line
    ensures forall k :: 0 <= k < |parts| - 1 ==> ':' !in parts[k]
    ensures |parts| < 3 ==> ':' !in parts[|parts| - 1]
    ensures |parts| == 3 ==> EndsWith(line, parts[2])
  {
    var (a, rest) := CutAt(line, ':');
    if rest.None? then
      JoinOne(a);
      [a]
    else
      var (b, tail) := CutAt(rest.value, ':');
      if tail.None? then
        JoinTwo(a, b);
        [a, b]
      else
        JoinThree(a, b, tail.value);
        EndsWithConcat(a + ":" + (b + ":"), tail.value);
        [a, b, tail.value]
  }

  lemma EndsWithConcat(x: string, c: string)
    ensures EndsWith(x + c, c)
  {
    assert (x + c)[|x|..] == c;
  }

  lemma JoinOne(a: string)
    ensures Join([a], ":") == a
  {
  }

  lemma JoinTwo(a: string, b: string)
    ensures Join([a, b], ":") == a + ":" + b
  {
    assert [a, b][1..] == [b];
  }

  lemma JoinThree(a: string, b: string, c: string)
    ensures Join([a, b, c], ":") == a + ":" + (b + ":" + c) == a + ":" + (b + ":") + c
  {
    assert [a, b, c][1..] == [b, c];
    JoinTwo(b, c);
  }

  /**
    The file path as reported: an absolute path under the (absolute) repository
    path loses that prefix, the repository path itself becomes "."; any other
    path is kept as ripgrep printed it.
  */
  function RelativeTo(path: string, repo: string): (r: string)
    ensures r == path || (path == repo && r == ".") || (repo == "/" && path == "/" + r) || PathJoin(repo, r) == path
  {
    if StartsWith(path, "/") && StartsWith(repo, "/") then
      if path == repo then "."
      else if repo == "/" then
        assert path == "/" + path[1..];
        path[1..]
      else if StartsWith(path, repo + "/") then
        assert path == repo + "/" + path[|repo| + 1..];
        path[|repo| + 1..]
      else path
    else path
  }

  /** A file under the repository is reported by its path inside it. */
  lemma RelativeUnder(repo: string, name: string)
    requires StartsWith(repo, "/") && repo != "/" && name != []
    ensures RelativeTo(PathJoin(repo, name), repo) == name
  {
    var path := PathJoin(repo, name);
    assert path[..|repo| + 1] == repo + "/";
    assert path[..1] == repo[..1];
    assert path[|repo| + 1..] == name;
  }

  /**
    One line of output: blank lines and lines with fewer than two ':' are
    skipped, as is a line whose middle piece is not an integer.
  */
  function ParseLine(line: string, repo: string): (r: Option<SearchResult>)
    ensures r.Some? ==> Strip(line) != [] && |SplitTwo(line)| == 3
    ensures r.Some? ==> ParseInt(SplitTwo(line)[1]) == Some(r.value.lineNumber) && EndsWith(line, r.value.lineContent)
    ensures r.Some? ==> r.value == NewResult(RelativeTo(SplitTwo(line)[0], repo), r.value.lineNumber, r.value.lineContent)
  {
    if Strip(line) == [] then None
    else
      var parts := SplitTwo(line);
      if |parts| < 3 then None
      else
        match ParseInt(parts[1])
        case None => None
        case Some(n) =>
          Some(NewResult(RelativeTo(parts[0], repo), n, parts[2]))
  }

  /** The results of the lines that parse, in output order. */
  function ParsedLines(lines: seq<string>, repo: string): (rs: seq<SearchResult>)
    ensures |rs| <= |lines|
  {
    if lines == [] then []
    else
      ParsedLines(lines[..|lines| - 1], repo)
        + (match ParseLine(lines[|lines| - 1], repo) case Some(r) => [r] case None => [])
  }

  lemma ParsedSnoc(lines: seq<string>, i: nat, repo: string)
    requires i < |lines|
    ensures ParsedLines(lines[..i + 1], repo)
      == ParsedLines(lines[..i], repo) + (match ParseLine(lines[i], repo) case Some(r) => [r] case None => [])
  {
    assert lines[..i + 1][..i] == lines[..i];
  }

  /** `_parse_ripgrep_results`. */
  method ParseRipgrepResults(output: string, repoPath: string) returns (results: seq<SearchResult>)
    ensures results == ParsedLines(SplitLines(output), repoPath)
  {
    var lines := SplitLines(output);
    results := [];
    for i := 0 to |lines|
      invariant results == ParsedLines(lines[..i], repoPath)
    {
      ParsedSnoc(lines, i, repoPath);
      var line := lines[i];
      if Strip(line) == [] {
        continue;
      }
      var parts := SplitTwo(line);
      if |parts| < 3 {
        continue;
      }
      match ParseInt(parts[1]) {
        case None =>
        case Some(n) =>
          results := results + [NewResult(RelativeTo(parts[0], repoPath), n, parts[2])];
      }
    }
    assert lines[..|lines|] == lines;
  }

  /** The line ripgrep prints for a match with `--with-filename --line-number`. */
  function RipgrepLine(path: string, line: int, content: string): string {
    path + ":" + IntToString(line) + ":" + content
  }

  lemma IntToStringChars(i: int)
    ensures forall k :: 0 <= k < |IntToString(i)| ==> IsDigit(IntToString(i)[k]) || IntToString(i)[k] == '-'
  {
    if i < 0 {
      var d := NatToString(-i);
      assert forall k :: 1 <= k < |IntToString(i)| ==> IntToString(i)[k] == d[k - 1];
    }
  }

  lemma SplitRipgrepLine(path: string, line: int, content: string)
    requires ':' !in path
    ensures SplitTwo(RipgrepLine(path, line, content)) == [path, IntToString(line), content]
  {
    var n := IntToString(line);
    IntToStringChars(line);
    assert ':' !in n;
    var rest := n + ":" + content;
    assert RipgrepLine(path, line, content) == path + [':'] + rest;
    CutAtFirst(path, ':', rest);
    assert rest == n + [':'] + content;
    CutAtFirst(n, ':', content);
  }

  /** Cutting at the first `c` of `pre + [c] + post`, when `pre` has none, gives `pre` and `post`. */
  lemma CutAtFirst(pre: string, c: char, post: string)
    requires c !in pre
    ensures CutAt(pre + [c] + post, c) == (pre, Some(post))
  {
    var s := pre + [c] + post;
    assert s[|pre|] == c;
    assert IndexOf(s, c) == Some(|pre|);
    assert s[..|pre|] == pre && s[|pre| + 1..] == post;
  }

  /** A printed match reads back as that match, its path made relative to the repository. */
  lemma ParseRipgrepLine(path: string, line: int, content: string, repo: string)
    requires ':' !in path
    ensures ParseLine(RipgrepLine(path, line, content), repo) == Some(NewResult(RelativeTo(path, repo), line, content))
  {
    var l := RipgrepLine(path, line, content);
    SplitRipgrepLine(path, line, content);
    IntRoundTrip(line);
    RipgrepLineNotBlank(path, line, content);
    assert ParseLine(l, repo) == Some(NewResult(RelativeTo(path, repo), line, content));
  }

  lemma RipgrepLineNotBlank(path: string, line: int, content: string)
    ensures Strip(RipgrepLine(path, line, content)) != []
  {
    var l := RipgrepLine(path, line, content);
    assert l[|path|] == ':';
    assert !IsSpace(l[|path|]);
    StripEmptyIffBlank(l);
  }

  /** A match ripgrep can print on one line: no ':' in the path, no line break anywhere. */
  predicate Printable(r: SearchResult) {
    && ':' !in r.filePath
    && (forall i :: 0 <= i < |r.filePath| ==> !IsLineBoundary(r.filePath[i]))
    && (forall i :: 0 <= i < |r.lineContent| ==> !IsLineBoundary(r.lineContent[i]))
  }

  /** The output ripgrep prints for a list of matches. */
  function Printed(rs: seq<SearchResult>): (lines: seq<string>)
    ensures |lines| == |rs|
    ensures forall i :: 0 <= i < |rs| ==> lines[i] == RipgrepLine(rs[i].filePath, rs[i].lineNumber, rs[i].lineContent)
  {
    if rs == [] then []
    else
      var r := rs[|rs| - 1];
      Printed(rs[..|rs| - 1]) + [RipgrepLine(r.filePath, r.lineNumber, r.lineContent)]
  }

  /** Every match with its path made relative to the repository and its other fields at their defaults. */
  function Reported(rs: seq<SearchResult>, repo: string): (out: seq<SearchResult>)
    ensures |out| == |rs|
    ensures forall i :: 0 <= i < |rs| ==> out[i] == NewResult(RelativeTo(rs[i].filePath, repo), rs[i].lineNumber, rs[i].lineContent)
  {
    if rs == [] then []
    else
      var r := rs[|rs| - 1];
      Reported(rs[..|rs| - 1], repo) + [NewResult(RelativeTo(r.filePath, repo), r.lineNumber, r.lineContent)]
  }

  lemma PrintedLinesUnbroken(rs: seq<SearchResult>)
    requires forall i :: 0 <= i < |rs| ==> Printable(rs[i])
    ensures forall k, i :: 0 <= k < |Printed(rs)| && 0 <= i < |Printed(rs)[k]| ==> !IsLineBoundary(Printed(rs)[k][i])
  {
    forall k | 0 <= k < |rs| ensures forall i :: 0 <= i < |Printed(rs)[k]| ==> !IsLineBoundary(Printed(rs)[k][i]) {
      assert Printable(rs[k]);
      LineUnbroken(rs[k].filePath, rs[k].lineNumber, rs[k].lineContent);
    }
  }

  /** A printed match holds no line break when its path and its line hold none. */
  lemma LineUnbroken(path: string, line: int, content: string)
    requires forall i :: 0 <= i < |path| ==> !IsLineBoundary(path[i])
    requires forall i :: 0 <= i < |content| ==> !IsLineBoundary(content[i])
    ensures forall i :: 0 <= i < |RipgrepLine(path, line, content)| ==> !IsLineBoundary(RipgrepLine(path, line, content)[i])
  {
    var n := IntToString(line);
    IntToStringChars(line);
    var l := RipgrepLine(path, line, content);
    forall i | 0 <= i < |l| ensures !IsLineBoundary(l[i]) {
      assert l[i] in path || l[i] in ":" || l[i] in n || l[i] in content;
    }
  }

  /**
    Reading back what ripgrep printed, one match per newline-terminated line,
    gives every match in order, with its path relative to the repository.
  */
  lemma {:induction false} ParsePrinted(rs: seq<SearchResult>, repo: string)
    requires forall i :: 0 <= i < |rs| ==> Printable(rs[i])
    ensures ParsedLines(SplitLines(Terminated(Printed(rs))), repo) == Reported(rs, repo)
  {
    PrintedLinesUnbroken(rs);
    SplitLinesTerminated(Printed(rs));
    ParsedPrinted(rs, repo);
  }

  lemma {:induction false} ParsedPrinted(rs: seq<SearchResult>, repo: string)
    requires forall i :: 0 <= i < |rs| ==> Printable(rs[i])
    ensures ParsedLines(Printed(rs), repo) == Reported(rs, repo)
    decreases |rs|
  {
    if rs != [] {
      var n := |rs| - 1;
      var ls := Printed(rs);
      assert ls[..n] == Printed(rs[..n]);
      ParsedPrinted(rs[..n], repo);
      ParseRipgrepLine(rs[n].filePath, rs[n].lineNumber, rs[n].lineContent, repo);
    }
  }

  /** The line ripgrep prints for `src/app.py` line 12 of a repository at `/repos/app` reads back with the path inside the repository. */
  lemma ExampleLine()
    ensures ParseLine(RipgrepLine(PathJoin("/repos/app", "src/app.py"), 12, "def run():"), "/repos/app")
      == Some(NewResult("src/app.py", 12, "def run():"))
  {
    ExamplePath();
    ParseRipgrepLine(PathJoin("/repos/app", "src/app.py"), 12, "def run():", "/repos/app");
  }

  lemma ExamplePath()
    ensures ':' !in PathJoin("/repos/app", "src/app.py")
    ensures RelativeTo(PathJoin("/repos/app", "src/app.py"), "/repos/app") == "src/app.py"
  {
    assert PathJoin("/repos/app", "src/app.py") == "/repos/app/src/app.py";
    RelativeUnder("/repos/app", "src/app.py");
  }

  // ---------------------------------------------------------------------------
  // Searching

  /** The two exceptions `search_repository` raises, with their messages. */
  datatype SearchError = ValueError(message: string) | RuntimeError(message: string)

  /**
    Running ripgrep on a repository path with a pattern and flags: its output,
    or the message of the exception the run raised.
  */
  type Runner = (string, string, seq<Flag>) -> Result<string, string>

  /** What `_execute_search` returns, or the message of what it raised. */
  function Executed(repoPath: string, query: string, o: SearchOptions, run: Runner): (r: Result<seq<SearchResult>, string>)
    ensures r.Err? <==> run(repoPath, query, Invocation(o)).Err?
    ensures r.Ok? ==> r.value == ParsedLines(SplitLines(run(repoPath, query, Invocation(o)).value), repoPath)
  {
    match run(repoPath, query, Invocation(o))
    case Err(e) => Err(e)
    case Ok(out) => Ok(ParsedLines(SplitLines(out), repoPath))
  }

  /** `_execute_search`: build the invocation, run it, read its output. */
  method ExecuteSearch(repoPath: string, query: string, o: SearchOptions, run: Runner) returns (r: Result<seq<SearchResult>, string>)
    ensures r == Executed(repoPath, query, o, run)
  {
    var flags := BuildFlags(o);
    var outcome := run(repoPath, query, flags);
    if outcome.Err? {
      return Err(outcome.error);
    }
    var results := ParseRipgrepResults(outcome.value, repoPath);
    return Ok(results);
  }

  /**
    `search_repository` past the cache: the repository must be in the catalog
    and its directory must exist (`ValueError` otherwise), and a failing run
    is reported as a `RuntimeError`.
  */
  function Uncached(alias: string, query: string, o: SearchOptions, repos: seq<Repository>, entries: map<string, Entry>, run: Runner): (r: Result<seq<SearchResult>, SearchError>)
    ensures FindAlias(repos, alias).None? ==> r == Err(ValueError("Repository '" + alias + "' not found"))
    ensures r.Ok? ==>
      && FindAlias(repos, alias).Some? && repos[FindAlias(repos, alias).value].localPath in entries
      && Executed(repos[FindAlias(repos, alias).value].localPath, query, o, run) == Ok(r.value)
  {
    match FindAlias(repos, alias)
    case None => Err(ValueError("Repository '" + alias + "' not found"))
    case Some(i) =>
      var path := repos[i].localPath;
      if path !in entries then Err(ValueError("Repository path does not exist: " + path))
      else
        match Executed(path, query, o, run)
        case Err(e) => Err(RuntimeError("Search failed: " + e))
        case Ok(rs) => Ok(rs)
  }

  /** A search fails with "not found" exactly when no repository of the catalog has the alias. */
  lemma UncachedNotFound(alias: string, query: string, o: SearchOptions, repos: seq<Repository>, entries: map<string, Entry>, run: Runner)
    ensures Uncached(alias, query, o, repos, entries, run) == Err(ValueError("Repository '" + alias + "' not found"))
      <==> forall i :: 0 <= i < |repos| ==> repos[i].alias != alias
  {
    match FindAlias(repos, alias)
    case None =>
    case Some(i) =>
      var path := repos[i].localPath;
      assert ("Repository '" + alias + "' not found")[11] == '\'';
      assert ("Repository path does not exist: " + path)[11] == 'p';
  }

  /**
    In a catalog with unique aliases, searching a repository's alias searches
    that repository's directory: a missing directory, a failed run, or the
    parsed output of the run.
  */
  lemma UncachedCatalogued(i: nat, query: string, o: SearchOptions, repos: seq<Repository>, entries: map<string, Entry>, run: Runner)
    requires UniqueAliases(repos) && i < |repos|
    ensures var path := repos[i].localPath;
      Uncached(repos[i].alias, query, o, repos, entries, run)
        == if path !in entries then Err(ValueError("Repository path does not exist: " + path))
           else match run(path, query, Invocation(o))
             case Err(e) => Err(RuntimeError("Search failed: " + e))
             case Ok(out) => Ok(ParsedLines(SplitLines(out), path))
  {
    var f := FindAlias(repos, repos[i].alias);
    assert f.Some?;
    assert f.value == i;
  }

  /** The options a call was given, or `SearchOptions()` when it was given none. */
  function OptionsOr(options: Option<SearchOptions>): SearchOptions {
    match options
    case None => DefaultOptions()
    case Some(o) => o
  }

  /**
    `search_repository` with the cache's map as state (`None` when caching is
    off): a fresh entry answers without looking at the catalog; otherwise the
    search runs and only a success is stored.
  */
  function Search(state: Option<map<CacheKey, CacheEntry>>, alias: string, query: string, o: SearchOptions,
                  repos: seq<Repository>, entries: map<string, Entry>, run: Runner, now: Timestamp)
    : (out: (Result<seq<SearchResult>, SearchError>, Option<map<CacheKey, CacheEntry>>))
    requires state.Some? ==> EntriesDecodable(state.value)
    ensures out.1.Some? == state.Some? && (out.1.Some? ==> EntriesDecodable(out.1.value))
  {
    match state
    case None => (Uncached(alias, query, o, repos, entries, run), None)
    case Some(c) =>
      var k := MakeKey(alias, query, o);
      var got := Lookup(c, k, now, CacheTtl);
      if got.0.Some? then (Ok(got.0.value), Some(got.1))
      else
        var r := Uncached(alias, query, o, repos, entries, run);
        (r, Some(if r.Ok? then Store(got.1, k, r.value, now) else got.1))
  }

  /** Without a cache a search is the search past the cache; with one, a miss gives the same answer. */
  lemma SearchAgreesOnMiss(state: Option<map<CacheKey, CacheEntry>>, alias: string, query: string, o: SearchOptions,
                           repos: seq<Repository>, entries: map<string, Entry>, run: Runner, now: Timestamp)
    requires state.Some? ==> EntriesDecodable(state.value)
    requires state.Some? ==> Lookup(state.value, MakeKey(alias, query, o), now, CacheTtl).0.None?
    ensures Search(state, alias, query, o, repos, entries, run, now).0 == Uncached(alias, query, o, repos, entries, run)
  {
  }

  /** A failed search stores nothing: afterwards its key has no entry. */
  lemma FailuresNotCached(c: map<CacheKey, CacheEntry>, alias: string, query: string, o: SearchOptions,
                          repos: seq<Repository>, entries: map<string, Entry>, run: Runner, now: Timestamp)
    requires EntriesDecodable(c)
    ensures var out := Search(Some(c), alias, query, o, repos, entries, run, now);
      out.0.Err? ==> MakeKey(alias, query, o) !in out.1.value
  {
  }

  /**
    A successful search, repeated with the same options before the time-to-live
    has passed, is answered from the cache with the same results and leaves the
    cache as it was; empty results are cached too.
  */
  lemma RepeatAnsweredFromCache(c: map<CacheKey, CacheEntry>, alias: string, query: string, o: SearchOptions,
                                repos: seq<Repository>, entries: map<string, Entry>, run: Runner, t1: Timestamp, t2: Timestamp,
                                repos2: seq<Repository>, entries2: map<string, Entry>, run2: Runner)
    requires EntriesDecodable(c) && t1 <= t2 < t1 + CacheTtl
    requires Lookup(c, MakeKey(alias, query, o), t1, CacheTtl).0.None?
    requires Search(Some(c), alias, query, o, repos, entries, run, t1).0.Ok?
    ensures var first := Search(Some(c), alias, query, o, repos, entries, run, t1);
      Search(first.1, alias, query, o, repos2, entries2, run2, t2) == first
  {
    var k := MakeKey(alias, query, o);
    var c0 := Lookup(c, k, t1, CacheTtl).1;
    var r1 := Uncached(alias, query, o, repos, entries, run);
    LookupAfterStore(c0, k, r1.value, t1, t2, CacheTtl);
  }

  /** The key's results, when the cache holds a fresh entry for it: the catalog, the disk and ripgrep are not consulted. */
  lemma HitIgnoresCatalog(c: map<CacheKey, CacheEntry>, alias: string, query: string, o: SearchOptions, now: Timestamp,
                          repos1: seq<Repository>, entries1: map<string, Entry>, run1: Runner,
                          repos2: seq<Repository>, entries2: map<string, Entry>, run2: Runner)
    requires EntriesDecodable(c)
    requires Lookup(c, MakeKey(alias, query, o), now, CacheTtl).0.Some?
    ensures Search(Some(c), alias, query, o, repos1, entries1, run1, now) == Search(Some(c), alias, query, o, repos2, entries2, run2, now)
    ensures Search(Some(c), alias, query, o, repos1, entries1, run1, now).0.Ok?
  {
  }

  /** Some row has the alias. */
  predicate Listed(rows: seq<Repository>, a: string) {
    exists i :: 0 <= i < |rows| && rows[i].alias == a
  }

  /** An alias is listed in rows exactly when it is listed before the last row or is the last row's. */
  lemma ListedSnoc(rows: seq<Repository>, a: string)
    requires rows != []
    ensures Listed(rows, a) <==> Listed(rows[..|rows| - 1], a) || rows[|rows| - 1].alias == a
  {
    var n := |rows| - 1;
    if Listed(rows, a) && rows[n].alias != a {
      var i :| 0 <= i < |rows| && rows[i].alias == a;
      assert rows[..n][i].alias == a;
    }
    if Listed(rows[..n], a) {
      var i :| 0 <= i < n && rows[..n][i].alias == a;
      assert rows[i].alias == a;
    }
  }

  /** The entry a repository adds to the combined result: one when its search succeeded with results. */
  function Found(alias: string, r: Result<seq<SearchResult>, SearchError>): (e: seq<(string, seq<SearchResult>)>)
    ensures e == (if r.Ok? && r.value != [] then [(alias, r.value)] else [])
  {
    if r.Ok? && r.value != [] then [(alias, r.value)] else []
  }

  /**
    `search_all_repositories` over the first rows of the catalog: an entry per
    repository whose search succeeded with results, in catalog order; failures
    and empty results are skipped; the cache state is threaded through.
  */
  function SearchAll(state: Option<map<CacheKey, CacheEntry>>, query: string, o: SearchOptions,
                     repos: seq<Repository>, entries: map<string, Entry>, run: Runner, now: Timestamp, rows: seq<Repository>)
    : (out: (seq<(string, seq<SearchResult>)>, Option<map<CacheKey, CacheEntry>>))
    requires state.Some? ==> EntriesDecodable(state.value)
    ensures out.1.Some? == state.Some? && (out.1.Some? ==> EntriesDecodable(out.1.value))
    ensures |out.0| <= |rows|
    ensures forall e :: e in out.0 ==> e.1 != [] && Listed(rows, e.0)
  {
    if rows == [] then ([], state)
    else
      var prev := SearchAll(state, query, o, repos, entries, run, now, rows[..|rows| - 1]);
      var alias := rows[|rows| - 1].alias;
      ListedSnoc(rows, alias);
      forall a ensures Listed(rows[..|rows| - 1], a) ==> Listed(rows, a) {
        ListedSnoc(rows, a);
      }
      var last := Search(prev.1, alias, query, o, repos, entries, run, now);
      (prev.0 + Found(alias, last.0), last.1)
  }

  /** One more row of the catalog: its search runs on the state the earlier rows left. */
  lemma SearchAllStep(state: Option<map<CacheKey, CacheEntry>>, query: string, o: SearchOptions,
                      repos: seq<Repository>, entries: map<string, Entry>, run: Runner, now: Timestamp, rows: seq<Repository>, i: nat)
    requires state.Some? ==> EntriesDecodable(state.value)
    requires i < |rows|
    ensures var prev := SearchAll(state, query, o, repos, entries, run, now, rows[..i]);
      var last := Search(prev.1, rows[i].alias, query, o, repos, entries, run, now);
      SearchAll(state, query, o, repos, entries, run, now, rows[..i + 1]) == (prev.0 + Found(rows[i].alias, last.0), last.1)
  {
    assert rows[..i + 1][..i] == rows[..i];
  }

  /**
    Without a cache, a repository of the catalog appears in the combined result
    exactly when its own search succeeds with results, and with those results.
  */
  lemma {:induction false} SearchAllUncached(query: string, o: SearchOptions, repos: seq<Repository>, entries: map<string, Entry>,
                                            run: Runner, now: Timestamp, rows: seq<Repository>, a: string, rs: seq<SearchResult>)
    ensures (a, rs) in SearchAll(None, query, o, repos, entries, run, now, rows).0
      <==> Listed(rows, a) && Uncached(a, query, o, repos, entries, run) == Ok(rs) && rs != []
    decreases |rows|
  {
    if rows != [] {
      var n := |rows| - 1;
      SearchAllUncached(query, o, repos, entries, run, now, rows[..n], a, rs);
      ListedSnoc(rows, a);
      var prev := SearchAll(None, query, o, repos, entries, run, now, rows[..n]);
      var last := Uncached(rows[n].alias, query, o, repos, entries, run);
      assert SearchAll(None, query, o, repos, entries, run, now, rows).0 == prev.0 + Found(rows[n].alias, last);
    }
  }

  /** No alias has two entries: the pairs form a dictionary. */
  predicate DistinctAliases(r: seq<(string, seq<SearchResult>)>) {
    forall i, j :: 0 <= i < j < |r| ==> r[i].0 != r[j].0
  }

  /** Over a catalog with unique aliases, no alias appears twice in the combined result (it is a dictionary). */
  lemma {:induction false} SearchAllDistinct(state: Option<map<CacheKey, CacheEntry>>, query: string, o: SearchOptions,
                                            repos: seq<Repository>, entries: map<string, Entry>, run: Runner, now: Timestamp, rows: seq<Repository>)
    requires state.Some? ==> EntriesDecodable(state.value)
    requires UniqueAliases(rows)
    ensures DistinctAliases(SearchAll(state, query, o, repos, entries, run, now, rows).0)
    decreases |rows|
  {
    if rows != [] {
      var n := |rows| - 1;
      UniqueLast(rows);
      SearchAllDistinct(state, query, o, repos, entries, run, now, rows[..n]);
      var prev := SearchAll(state, query, o, repos, entries, run, now, rows[..n]);
      var last := Search(prev.1, rows[n].alias, query, o, repos, entries, run, now);
      assert SearchAll(state, query, o, repos, entries, run, now, rows).0 == prev.0 + Found(rows[n].alias, last.0);
      AppendDistinct(prev.0, Found(rows[n].alias, last.0));
    }
  }

  /** With unique aliases, the rows before the last keep them unique and do not list the last row's alias. */
  lemma UniqueLast(rows: seq<Repository>)
    requires UniqueAliases(rows) && rows != []
    ensures UniqueAliases(rows[..|rows| - 1]) && !Listed(rows[..|rows| - 1], rows[|rows| - 1].alias)
  {
  }

  lemma AppendDistinct(acc: seq<(string, seq<SearchResult>)>, more: seq<(string, seq<SearchResult>)>)
    requires DistinctAliases(acc)
    requires |more| <= 1 && forall e, f :: e in acc && f in more ==> e.0 != f.0
    ensures DistinctAliases(acc + more)
  {
    var r := acc + more;
    forall i, j | 0 <= i < j < |r| ensures r[i].0 != r[j].0 {
      if j >= |acc| {
        assert r[i] in acc && r[j] in more;
      }
    }
  }

  class RipgrepSearcher {
    /** `None` when caching is off; the cache object is created once and then updated in place. */
    const cache: SearchCache?

    predicate Valid()
      reads this, cache
    {
      cache != null ==> cache.Valid() && cache.ttl == CacheTtl
    }

    /** The cache's map, or `None` when caching is off. */
    function State(): (s: Option<map<CacheKey, CacheEntry>>)
      reads this, cache
      requires Valid()
      ensures s.Some? == (cache != null) && (s.Some? ==> EntriesDecodable(s.value))
    {
      if cache == null then None else Some(cache.cache)
    }

    /** `RipgrepSearcher(enable_cache=...)` once the ripgrep binary has been found: an empty cache, or none. */
    constructor(enableCache: bool)
      ensures Valid() && State() == if enableCache then Some(map[]) else None
      ensures cache != null ==> fresh(cache)
    {
      if enableCache {
        cache := new SearchCache();
      } else {
        cache := null;
      }
    }

    /** `search_repository`. */
    method SearchRepository(alias: string, query: string, options: Option<SearchOptions>,
                            repos: seq<Repository>, fs: FileSystem, run: Runner, now: Timestamp)
      returns (r: Result<seq<SearchResult>, SearchError>)
      requires Valid()
      modifies cache
      ensures Valid()
      ensures (r, State()) == Search(old(State()), alias, query, OptionsOr(options), repos, fs.entries, run, now)
    {
      var o := OptionsOr(options);
      if cache != null {
        var cached := cache.Get(alias, query, o, now);
        if cached.Some? {
          return Ok(cached.value);
        }
      }
      var found := FindAlias(repos, alias);
      if found.None? {
        return Err(ValueError("Repository '" + alias + "' not found"));
      }
      var repoPath := repos[found.value].localPath;
      if !fs.Exists(repoPath) {
        return Err(ValueError("Repository path does not exist: " + repoPath));
      }
      var results := ExecuteSearch(repoPath, query, o, run);
      if results.Err? {
        return Err(RuntimeError("Search failed: " + results.error));
      }
      if cache != null {
        cache.Set(alias, query, o, results.value, now);
      }
      return Ok(results.value);
    }

    /** `search_all_repositories`: every repository of the catalog in turn, failures skipped. */
    method SearchAllRepositories(query: string, options: Option<SearchOptions>,
                                 repos: seq<Repository>, fs: FileSystem, run: Runner, now: Timestamp)
      returns (results: seq<(string, seq<SearchResult>)>)
      requires Valid() && UniqueAliases(repos)
      modifies cache
      ensures Valid()
      ensures (results, State()) == SearchAll(old(State()), query, OptionsOr(options), repos, fs.entries, run, now, repos)
      ensures DistinctAliases(results)
    {
      var o := OptionsOr(options);
      results := [];
      for i := 0 to |repos|
        invariant Valid()
        invariant results == SearchAll(old(State()), query, o, repos, fs.entries, run, now, repos[..i]).0
        invariant State() == SearchAll(old(State()), query, o, repos, fs.entries, run, now, repos[..i]).1
      {
        SearchAllStep(old(State()), query, o, repos, fs.entries, run, now, repos, i);
        results := SearchNext(repos[i].alias, query, o, repos, fs, run, now, results);
      }
      assert repos[..|repos|] == repos;
      SearchAllDistinct(old(State()), query, o, repos, fs.entries, run, now, repos);
    }

    /** One pass of `search_all_repositories`: the repository's search, its results added when it succeeded with some. */
    method SearchNext(alias: string, query: string, o: SearchOptions, repos: seq<Repository>, fs: FileSystem,
                      run: Runner, now: Timestamp, results: seq<(string, seq<SearchResult>)>)
      returns (results': seq<(string, seq<SearchResult>)>)
      requires Valid()
      modifies cache
      ensures Valid()
      ensures var last := Search(old(State()), alias, query, o, repos, fs.entries, run, now);
        results' == results + Found(alias, last.0) && State() == last.1
    {
      var outcome := SearchRepository(alias, query, Some(o), repos, fs, run, now);
      results' := results;
      if outcome.Ok? && outcome.value != [] {
        results' := results + [(alias, outcome.value)];
      }
    }
  }
}
