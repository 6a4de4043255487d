/**
  The values the search engine passes around: one match as ripgrep reports
  it, its dictionary form (the form the cache stores and the JSON output
  prints), and the options of a search.
*/
module SearchTypes {
  import opened Common
  import opened Strings
  import Database

  /** `SearchResult`: one matching line; the match offsets and context lists keep their defaults unless given. */
  datatype SearchResult = SearchResult(
    filePath: string,
    lineNumber: int,
    lineContent: string,
    matchStart: int,
    matchEnd: int,
    contextBefore: seq<string>,
    contextAfter: seq<string>)

  /** `SearchResult(file_path=..., line_number=..., line_content=...)`. */
  function NewResult(filePath: string, lineNumber: int, lineContent: string): (r: SearchResult)
    ensures r.filePath == filePath && r.lineNumber == lineNumber && r.lineContent == lineContent
    ensures r.matchStart == 0 && r.matchEnd == 0 && r.contextBefore == [] && r.contextAfter == []
  {
    SearchResult(filePath, lineNumber, lineContent, 0, 0, [], [])
  }

  // ---------------------------------------------------------------------------
  // to_dict and SearchResult(**d)

  /** A value of the dictionary form: a string, an integer or a list of strings. */
  datatype Value = Text(text: string) | Number(number: int) | Texts(texts: seq<string>)

  /** The seven field names, which are the keys `to_dict` writes and the keywords the constructor takes. */
  const FieldNames: set<string> :=
    {"file_path", "line_number", "line_content", "match_start", "match_end", "context_before", "context_after"}

  /** `to_dict`: every field under its own name. */
  function ToDict(r: SearchResult): (d: map<string, Value>)
    ensures d.Keys == FieldNames
  {
    map[
      "file_path" := Text(r.filePath),
      "line_number" := Number(r.lineNumber),
      "line_content" := Text(r.lineContent),
      "match_start" := Number(r.matchStart),
      "match_end" := Number(r.matchEnd),
      "context_before" := Texts(r.contextBefore),
      "context_after" := Texts(r.contextAfter)]
  }

  /** The string under `k`, if `d` has one there. */
  function TextAt(d: map<string, Value>, k: string): Option<string> {
    if k in d && d[k].Text? then Some(d[k].text) else None
  }

  /** The integer under `k`, or `dflt` when `k` is absent. */
  function NumberAt(d: map<string, Value>, k: string, dflt: int): Option<int> {
    if k !in d then Some(dflt) else if d[k].Number? then Some(d[k].number) else None
  }

  /** The list under `k`, or the empty list when `k` is absent. */
  function TextsAt(d: map<string, Value>, k: string): Option<seq<string>> {
    if k !in d then Some([]) else if d[k].Texts? then Some(d[k].texts) else None
  }

  /**
    `SearchResult(**d)`: an unknown keyword or a missing required one raises
    (`None`); the four fields with defaults may be absent.
  */
  function FromDict(d: map<string, Value>): (r: Option<SearchResult>)
    ensures r.Some? ==> d.Keys <= FieldNames && "file_path" in d && "line_number" in d && "line_content" in d
  {
    var p, n, c := TextAt(d, "file_path"), NumberAt(d, "line_number", 0), TextAt(d, "line_content");
    var s, e := NumberAt(d, "match_start", 0), NumberAt(d, "match_end", 0);
    var b, a := TextsAt(d, "context_before"), TextsAt(d, "context_after");
    if d.Keys <= FieldNames && "line_number" in d
       && p.Some? && n.Some? && c.Some? && s.Some? && e.Some? && b.Some? && a.Some?
    then Some(SearchResult(p.value, n.value, c.value, s.value, e.value, b.value, a.value))
    else None
  }

  /** Rebuilding a result from its dictionary gives the same result back. */
  lemma FromToDict(r: SearchResult)
    ensures FromDict(ToDict(r)) == Some(r)
  {
  }

  /** Every result is rebuilt from its dictionary. */
  function Encoded(rs: seq<SearchResult>): (ds: seq<map<string, Value>>)
    ensures |ds| == |rs| && forall i :: 0 <= i < |rs| ==> FromDict(ds[i]) == Some(rs[i])
  {
    seq(|rs|, i requires 0 <= i < |rs| => ToDict(rs[i]))
  }

  // ---------------------------------------------------------------------------
  // file_extension and the highlighting language

  /** `Path(p).suffix`: from the last "." of the name, when that dot neither starts nor ends the name. */
  function Suffix(path: string): (s: string)
    ensures s == [] || (s[0] == '.' && '.' !in s[1..] && '/' !in s && |s| >= 2 && EndsWith(path, s))
  {
    var name := Database.Name(path);
    match LastIndexOf(name, '.')
    case None => ""
    case Some(i) =>
      if 0 < i < |name| - 1 then
        NameSuffix(path);
        name[i..]
      else ""
  }

  lemma NameSuffix(path: string)
    ensures '/' !in Database.Name(path) && EndsWith(path, Database.Name(path))
  {
    match LastIndexOf(path, '/')
    case None =>
    case Some(k) => assert path[|path| - |path[k + 1..]|..] == path[k + 1..];
  }

  /** `file_extension`: the suffix without its dot. */
  function FileExtension(path: string): (e: string)
    ensures '.' !in e && '/' !in e
    ensures e != [] ==> EndsWith(path, "." + e)
  {
    var s := Suffix(path);
    if s == [] then "" else
      ExtensionOfSuffix(path, s);
      s[1..]
  }

  lemma ExtensionOfSuffix(path: string, s: string)
    requires s != [] && s[0] == '.' && '/' !in s && EndsWith(path, s)
    ensures '/' !in s[1..] && EndsWith(path, "." + s[1..])
  {
    assert "." + s[1..] == s;
  }

  /** A file named `stem.ext` has the extension `ext`, whatever directory it is in. */
  lemma ExtensionOfName(dir: string, stem: string, ext: string)
    requires stem != [] && '/' !in stem && ext != [] && '.' !in ext && '/' !in ext
    ensures FileExtension(dir + "/" + stem + "." + ext) == ext
  {
    var name := stem + "." + ext;
    assert dir + "/" + stem + "." + ext == dir + "/" + name;
    NoSlashInName(stem, ext);
    NameOfJoin(dir, name);
    SuffixOfName(stem, ext);
  }

  lemma NoSlashInName(stem: string, ext: string)
    requires '/' !in stem && '/' !in ext
    ensures '/' !in stem + "." + ext
  {
    var name := stem + "." + ext;
    forall i | 0 <= i < |name| ensures name[i] != '/' {
      if i < |stem| { assert name[i] == stem[i]; }
      else if i > |stem| { assert name[i] == ext[i - |stem| - 1]; }
    }
  }

  lemma SuffixOfName(stem: string, ext: string)
    requires stem != [] && ext != [] && '.' !in ext
    ensures LastIndexOf(stem + "." + ext, '.') == Some(|stem|)
    ensures (stem + "." + ext)[|stem|..] == "." + ext
  {
    var name := stem + "." + ext;
    AppendAssoc(stem, ".", ext);
    SuffixOfAppend(stem, "." + ext);
    SuffixOfAppend(stem + ".", ext);
    assert name[|stem|] == '.';
    LastAfter(name, '.', |stem|);
  }

  /** The name of `dir/name` is `name`. */
  lemma NameOfJoin(dir: string, name: string)
    requires '/' !in name
    ensures Database.Name(dir + "/" + name) == name
  {
    var path := dir + "/" + name;
    assert path[|dir|] == '/' && path[|dir| + 1..] == name;
    LastAfter(path, '/', |dir|);
  }

  /** The last occurrence of `c` is at `k` when nothing after `k` is `c`. */
  lemma LastAfter(s: string, c: char, k: nat)
    requires k < |s| && s[k] == c && c !in s[k + 1..]
    ensures LastIndexOf(s, c) == Some(k)
  {
  }

  /** The extension table of `_get_language_for_extension`. */
  const ExtensionLanguages: map<string, string> := map[
    "py" := "python", "js" := "javascript", "ts" := "typescript", "rs" := "rust",
    "go" := "go", "java" := "java", "c" := "c", "cpp" := "cpp", "h" := "c",
    "hpp" := "cpp", "md" := "markdown", "json" := "json", "yaml" := "yaml",
    "yml" := "yaml", "xml" := "xml", "html" := "html", "css" := "css",
    "sql" := "sql", "sh" := "bash", "bash" := "bash"]

  /** `_get_language_for_extension`: the table entry of the lower-cased extension. */
  function LanguageFor(r: SearchResult): (lang: Option<string>)
    ensures lang.Some? <==> Lower(FileExtension(r.filePath)) in ExtensionLanguages
    ensures lang.Some? ==> lang.value in ExtensionLanguages.Values
  {
    var e := Lower(FileExtension(r.filePath));
    if e in ExtensionLanguages then Some(ExtensionLanguages[e]) else None
  }

  /** A Python file is highlighted as Python, whatever the case of its extension. */
  lemma PythonHighlighted(dir: string, stem: string, ext: string)
    requires stem != [] && '/' !in stem
    requires |ext| == 2 && (ext[0] == 'p' || ext[0] == 'P') && (ext[1] == 'y' || ext[1] == 'Y')
    ensures LanguageFor(NewResult(dir + "/" + stem + "." + ext, 1, "")) == Some("python")
  {
    assert ext == [ext[0], ext[1]];
    ExtensionOfName(dir, stem, ext);
    LowerPy(ext);
    PyLanguage(dir + "/" + stem + "." + ext, ext);
  }

  lemma PyLanguage(path: string, ext: string)
    requires FileExtension(path) == ext && Lower(ext) == "py"
    ensures LanguageFor(NewResult(path, 1, "")) == Some("python")
  {
    assert NewResult(path, 1, "").filePath == path;
    PyEntry();
  }

  lemma PyEntry()
    ensures "py" in ExtensionLanguages && ExtensionLanguages["py"] == "python"
  {
  }

  lemma LowerPy(ext: string)
    requires |ext| == 2 && (ext[0] == 'p' || ext[0] == 'P') && (ext[1] == 'y' || ext[1] == 'Y')
    ensures Lower(ext) == "py"
  {
    assert LowerChar(ext[0]) == 'p' && LowerChar(ext[1]) == 'y';
  }

  /** A file without a suffix gets no language. */
  lemma NoSuffixNoLanguage(r: SearchResult)
    requires '.' !in r.filePath
    ensures LanguageFor(r) == None
  {
    assert FileExtension(r.filePath) == [];
    assert Lower([]) == [];
  }

  // ---------------------------------------------------------------------------
  // SearchOptions

  /** `SearchOptions`. */
  datatype SearchOptions = SearchOptions(
    fileTypes: seq<string>,
    excludeTypes: seq<string>,
    contextBefore: int,
    contextAfter: int,
    ignoreCase: bool,
    smartCase: bool,
    regexMode: bool,
    maxResults: int,
    includePatterns: seq<string>,
    excludePatterns: seq<string>)

  /** `SearchOptions()`: no filters, no context, smart case, regular expressions, 1000 results. */
  function DefaultOptions(): (o: SearchOptions)
    ensures o.fileTypes == [] && o.excludeTypes == [] && o.includePatterns == [] && o.excludePatterns == []
    ensures o.contextBefore == 0 && o.contextAfter == 0
    ensures !o.ignoreCase && o.smartCase && o.regexMode && o.maxResults == 1000
  {
    SearchOptions([], [], 0, 0, false, true, true, 1000, [], [])
  }
}
