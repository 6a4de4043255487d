/**
  The interactive browser's own rules: the rows of the results table and the
  set of selected rows, the window of the file shown beside them, the
  language that window is highlighted in, the status bar, the text copied to
  the clipboard, and the refusal to open the browser without results. The
  widgets, key bindings, layout and clipboard access are not modelled.
*/
module Tui {
  import opened Common
  import opened Strings
  import opened SearchTypes
  import SearchFormat
  import FileTree

  // ---------------------------------------------------------------------------
  // SearchResultsTable

  /** One row of the results table: its key, the selection mark, File, Line and Content. */
  datatype TableRow = TableRow(key: string, mark: string, file: string, line: string, content: string)

  /** The width of the Content column. */
  const CellWidth: nat := 60
  /** How much of a longer line the Content column keeps. */
  const CellKeep: nat := 57

  /** The Content cell: the stripped line, cut to 60 characters. */
  function ContentCell(content: string): (c: string)
    ensures |c| <= CellWidth
    ensures |Strip(content)| <= CellWidth ==> c == Strip(content)
    ensures |Strip(content)| > CellWidth ==> c == Strip(content)[..CellKeep] + "..."
  {
    SearchFormat.Truncate(Strip(content), CellWidth, CellKeep)
  }

  /** The row `on_mount` adds for the `i`-th result, keyed by its index. */
  function RowOf(i: nat, r: SearchResult): (row: TableRow)
    ensures row.mark == "" && row.file == r.filePath && |row.content| <= CellWidth
  {
    TableRow(IntToString(i), "", r.filePath, IntToString(r.lineNumber), ContentCell(r.lineContent))
  }

  /**
    A row's key reads back as its index, its Line cell as the line number, and
    its Content cell is the stripped line, cut to 60 characters exactly when
    it is longer.
  */
  lemma RowOfShows(i: nat, r: SearchResult)
    ensures ParseInt(RowOf(i, r).key) == Some(i)
    ensures ParseInt(RowOf(i, r).line) == Some(r.lineNumber)
    ensures |RowOf(i, r).content| <= CellWidth
    ensures RowOf(i, r).content == Strip(r.lineContent) <==> |Strip(r.lineContent)| <= CellWidth
  {
    IntRoundTrip(i);
    IntRoundTrip(r.lineNumber);
    SearchFormat.TruncateKeepsIff(Strip(r.lineContent), CellWidth, CellKeep);
  }

  /** The selection after toggling row `i`: added when absent, removed when present. */
  function Toggled(s: set<int>, i: int): (t: set<int>)
    ensures i in t <==> i !in s
    ensures forall j :: j != i ==> (j in t <==> j in s)
  {
    if i in s then s - {i} else s + {i}
  }

  /** Toggling the same row twice gives the selection back. */
  lemma ToggleTwice(s: set<int>, i: int)
    ensures Toggled(Toggled(s, i), i) == s
  {
    var t := Toggled(Toggled(s, i), i);
    forall j ensures j in t <==> j in s {
      if j != i {
        assert j in Toggled(s, i) <==> j in s;
      }
    }
  }

  /** `results[i]` as Python reads it: a negative index counts from the end; anything else outside raises IndexError (`None`). */
  function PyIndex(results: seq<SearchResult>, i: int): (r: Option<SearchResult>)
    ensures r.None? <==> i < -|results| || i >= |results|
    ensures 0 <= i < |results| ==> r == Some(results[i])
  {
    if 0 <= i < |results| then Some(results[i])
    else if -|results| <= i < 0 then Some(results[|results| + i])
    else None
  }

  /** A set that is not empty has an element to pick. */
  lemma HasElement(s: set<int>)
    requires |s| > 0
    ensures exists x :: x in s
  {
    if forall x :: x !in s {
      assert false;
    }
  }

  class SearchResultsTable {
    const results: seq<SearchResult>
    var selectedRows: set<int>
    /** The highlighted row, which the table's cursor keys move. */
    var cursorRow: int

    /** A table over `results`, nothing selected, the cursor on the first row. */
    constructor(results: seq<SearchResult>)
      ensures this.results == results && selectedRows == {} && cursorRow == 0
    {
      this.results := results;
      selectedRows := {};
      cursorRow := 0;
    }

    /** `on_mount`: one row per result, in order, keyed by its index. */
    method Mount() returns (rows: seq<TableRow>)
      ensures |rows| == |results|
      ensures forall i :: 0 <= i < |results| ==> rows[i] == RowOf(i, results[i])
    {
      var rs := results;
      rows := [];
      for i := 0 to |rs|
        invariant |rows| == i
        invariant forall j :: 0 <= j < i ==> rows[j] == RowOf(j, rs[j])
      {
        var result := rs[i];
        var row := TableRow(IntToString(i), "", result.filePath, IntToString(result.lineNumber), ContentCell(result.lineContent));
        rows := rows + [row];
      }
    }

    /** `toggle_row_selection`: only the selection changes, at that one index. */
    method ToggleRowSelection(rowIndex: int)
      modifies this
      ensures selectedRows == Toggled(old(selectedRows), rowIndex)
      ensures cursorRow == old(cursorRow)
    {
      if rowIndex in selectedRows {
        selectedRows := selectedRows - {rowIndex};
      } else {
        selectedRows := selectedRows + {rowIndex};
      }
    }

    /**
      `get_selected_results`: one result per selected index, in the order the
      set is walked (`order`, which the caller cannot rely on); it raises
      (`None`) when some selected index is outside the list.
    */
    method GetSelectedResults() returns (r: Option<seq<SearchResult>>, ghost order: seq<int>)
      ensures r.None? <==> exists i :: i in selectedRows && PyIndex(results, i).None?
      ensures r.Some? ==> |order| == |r.value|
      ensures r.Some? ==> forall i :: i in selectedRows <==> i in order
      ensures r.Some? ==> forall j, k :: 0 <= j < k < |order| ==> order[j] != order[k]
      ensures r.Some? ==> forall k :: 0 <= k < |order| ==> Some(r.value[k]) == PyIndex(results, order[k])
    {
      var rest := selectedRows;
      var picked: seq<SearchResult> := [];
      order := [];
      while |rest| > 0
        invariant rest <= selectedRows
        invariant forall i :: i in selectedRows ==> (i in rest <==> i !in order)
        invariant forall k :: 0 <= k < |order| ==> order[k] in selectedRows
        invariant |picked| == |order|
        invariant forall j, k :: 0 <= j < k < |order| ==> order[j] != order[k]
        invariant forall k :: 0 <= k < |order| ==> Some(picked[k]) == PyIndex(results, order[k])
        decreases |rest|
      {
        HasElement(rest);
        var i :| i in rest;
        var x := PyIndex(results, i);
        if x.None? {
          return None, order;
        }
        picked := picked + [x.value];
        order := order + [i];
        rest := rest - {i};
      }
      r := Some(picked);
    }

    /** `get_current_result`: the highlighted result while the cursor is on a row. */
    function CurrentResult(): (r: Option<SearchResult>)
      reads this
      ensures r.Some? <==> 0 <= cursorRow < |results|
      ensures r.Some? ==> r.value == results[cursorRow]
    {
      if 0 <= cursorRow < |results| then Some(results[cursorRow]) else None
    }

    /** `SearchApp.update_status`: the selection size, the cursor and the number of results. */
    function Status(): (t: string)
      reads this
      ensures |results| == 0 <==> t == "No results"
    {
      StatusText(|selectedRows|, cursorRow, |results|)
    }
  }

  // ---------------------------------------------------------------------------
  // FilePreview

  /** `s[a:b]` as Python reads it: negative bounds count from the end, and bounds are clamped to the list. */
  function PySlice(s: seq<string>, a: int, b: int): (r: seq<string>)
    ensures |r| <= |s|
  {
    var lo := if a < 0 then (if a + |s| < 0 then 0 else a + |s|) else (if a > |s| then |s| else a);
    var hi := if b < 0 then (if b + |s| < 0 then 0 else b + |s|) else (if b > |s| then |s| else b);
    if lo < hi then s[lo..hi] else []
  }

  /** Lines shown on each side of the match. */
  const ContextLines: int := 10

  /** `max(0, n - 10 - 1)`: the index of the first line shown. */
  function WindowStart(n: int): (s: nat)
    ensures n >= 1 ==> s <= n - 1
    ensures n - 1 - s <= ContextLines
  {
    if n - ContextLines - 1 > 0 then n - ContextLines - 1 else 0
  }

  /** `min(len(lines), n + 10)`: the index just past the last line shown. */
  function WindowEnd(n: int, total: nat): (e: int)
    ensures e <= total && e <= n + ContextLines
    ensures e == total || e == n + ContextLines
  {
    if n + ContextLines < total then n + ContextLines else total
  }

  /** The lines of the file the preview shows around line `n`. */
  function Window(lines: seq<string>, n: int): seq<string>
  {
    PySlice(lines, WindowStart(n), WindowEnd(n, |lines|))
  }

  /** At most 21 lines are shown for any line number that is not far below zero. */
  lemma WindowAtMost21(lines: seq<string>, n: int)
    requires n >= -ContextLines
    ensures |Window(lines, n)| <= 2 * ContextLines + 1
  {
  }

  /** For a line of the file, the window holds that line at its place, with up to ten lines on each side. */
  lemma WindowHoldsMatch(lines: seq<string>, n: int)
    requires 1 <= n <= |lines|
    ensures var w := Window(lines, n);
      && 0 <= n - 1 - WindowStart(n) < |w|
      && w[n - 1 - WindowStart(n)] == lines[n - 1]
      && w == lines[WindowStart(n)..WindowEnd(n, |lines|)]
  {
  }

  /** The four-character marker: `>>> ` on the matched line only. */
  function Marker(i: int, n: int): string
  {
    if i == n then ">>> " else "    "
  }

  /** `f"{marker}{i:4d}: {line}"` for each line of the window, numbered from `first`. */
  function PlainLines(window: seq<string>, first: int, n: int): (out: seq<string>)
    ensures |out| == |window|
  {
    seq(|window|, k requires 0 <= k < |window| => Marker(first + k, n) + PadLeft(IntToString(first + k), 4) + ": " + window[k])
  }

  /** One numbered line: its marker, then the number right-aligned in four columns, then the text. */
  lemma NumberedLine(i: int, n: int, line: string)
    ensures var l := Marker(i, n) + PadLeft(IntToString(i), 4) + ": " + line;
      && (StartsWith(l, ">>> ") <==> i == n)
      && EndsWith(l, ": " + line)
  {
    var head := Marker(i, n);
    var l := head + PadLeft(IntToString(i), 4) + ": " + line;
    assert l == head + (PadLeft(IntToString(i), 4) + ": " + line);
    assert l[..4] == head;
    assert l == head + PadLeft(IntToString(i), 4) + (": " + line);
  }

  /** Exactly the line numbered `n` carries the `>>> ` marker, and every line ends with its own text. */
  lemma PlainMarksOnlyMatch(window: seq<string>, first: int, n: int)
    ensures forall k :: 0 <= k < |window| ==> (StartsWith(PlainLines(window, first, n)[k], ">>> ") <==> first + k == n)
    ensures forall k :: 0 <= k < |window| ==> EndsWith(PlainLines(window, first, n)[k], ": " + window[k])
  {
    forall k | 0 <= k < |window|
      ensures StartsWith(PlainLines(window, first, n)[k], ">>> ") <==> first + k == n
      ensures EndsWith(PlainLines(window, first, n)[k], ": " + window[k])
    {
      NumberedLine(first + k, n, window[k]);
    }
  }

  /** What the preview pane shows. */
  datatype Preview =
    | FileNotFound(path: string)
    | Highlighted(language: string, code: string, startLine: int, highlight: int)
    | Plain(lines: seq<string>)

  /**
    `show_result`: the file's text is given (`None` when it does not exist).
    A known language and a non-empty window give highlighted code numbered
    from the window's first line; otherwise numbered plain lines.
  */
  function ShowResult(r: SearchResult, repoPath: string, file: Option<string>): (p: Preview)
    ensures file.None? <==> p.FileNotFound?
    ensures p.Highlighted? ==> DetectLanguage(r.filePath) == Some(p.language) && p.highlight == r.lineNumber
  {
    if file.None? then FileNotFound(FileTree.PathJoin(repoPath, r.filePath))
    else ShowLines(SplitLines(file.value), r.lineNumber, DetectLanguage(r.filePath))
  }

  /** The preview of the lines of an existing file around line `n`, given the language detected for its path. */
  function ShowLines(lines: seq<string>, n: int, language: Option<string>): (p: Preview)
    ensures !p.FileNotFound?
    ensures p.Highlighted? ==> language == Some(p.language) && p.highlight == n
  {
    var window := Window(lines, n);
    if language.Some? && window != [] then
      Highlighted(language.value, Join(window, "\n"), WindowStart(n) + 1, n)
    else Plain(PlainLines(window, WindowStart(n) + 1, n))
  }

  /** In a plain preview of a line of the file, that line is shown once with the marker and its own number. */
  lemma {:induction false} PlainPreviewMarksMatch(r: SearchResult, repoPath: string, text: string)
    requires DetectLanguage(r.filePath).None?
    requires 1 <= r.lineNumber <= |SplitLines(text)|
    ensures var p := ShowResult(r, repoPath, Some(text));
      p.Plain? && MarksLine(p.lines, r.lineNumber - 1 - WindowStart(r.lineNumber), SplitLines(text)[r.lineNumber - 1])
  {
    PlainLinesMarkMatch(SplitLines(text), r.lineNumber);
  }

  /** Of the numbered lines `out`, the one at `m` alone carries the `>>> ` marker, and it ends with `line`. */
  predicate MarksLine(out: seq<string>, m: int, line: string) {
    && 0 <= m < |out|
    && (forall k :: 0 <= k < |out| ==> (StartsWith(out[k], ">>> ") <==> k == m))
    && EndsWith(out[m], ": " + line)
  }

  /** Without a language, the numbered window around line `n` marks that line alone, at its place, and shows its text. */
  lemma {:induction false} PlainLinesMarkMatch(lines: seq<string>, n: int)
    requires 1 <= n <= |lines|
    ensures var p := ShowLines(lines, n, None);
      p.Plain? && MarksLine(p.lines, n - 1 - WindowStart(n), lines[n - 1])
  {
    WindowHoldsMatch(lines, n);
    PlainMarksOnlyMatch(Window(lines, n), WindowStart(n) + 1, n);
  }

  /** `_detect_language`'s table, keyed by the suffix with its dot. */
  const PreviewLanguages: map<string, string> := map[
    ".py" := "python", ".js" := "javascript", ".ts" := "typescript", ".jsx" := "jsx",
    ".tsx" := "tsx", ".rs" := "rust", ".go" := "go", ".java" := "java", ".c" := "c",
    ".cpp" := "cpp", ".cc" := "cpp", ".cxx" := "cpp", ".h" := "c", ".hpp" := "cpp",
    ".md" := "markdown", ".json" := "json", ".yaml" := "yaml", ".yml" := "yaml",
    ".xml" := "xml", ".html" := "html", ".css" := "css", ".sql" := "sql",
    ".sh" := "bash", ".bash" := "bash", ".zsh" := "zsh", ".php" := "php",
    ".rb" := "ruby", ".swift" := "swift", ".kt" := "kotlin", ".scala" := "scala"]

  /** `_detect_language`: the table entry of the lower-cased suffix; nothing for an unknown suffix or none. */
  function DetectLanguage(path: string): (lang: Option<string>)
    ensures lang.Some? <==> Lower(Suffix(path)) in PreviewLanguages
    ensures lang.Some? ==> lang.value == PreviewLanguages[Lower(Suffix(path))]
    ensures Suffix(path) == [] ==> lang.None?
  {
    var e := Lower(Suffix(path));
    if e in PreviewLanguages then Some(PreviewLanguages[e]) else None
  }


  /**
    The preview table is not the result panel's: it is larger, so a `.tsx`
    file is previewed as TSX but gets no panel language, while both give a
    `.py` file Python.
  */
  lemma PreviewTableDiffersFromPanel()
    ensures ".tsx" in PreviewLanguages && PreviewLanguages[".tsx"] == "tsx" && "tsx" !in ExtensionLanguages
    ensures PreviewLanguages[".py"] == ExtensionLanguages["py"] == "python"
  {
  }

  /** A Python file is previewed as Python, whatever the case of its suffix. */
  lemma PythonPreviewed(dir: string, stem: string, ext: string)
    requires stem != [] && '/' !in stem
    requires |ext| == 2 && (ext[0] == 'p' || ext[0] == 'P') && (ext[1] == 'y' || ext[1] == 'Y')
    ensures DetectLanguage(dir + "/" + stem + "." + ext) == Some("python")
  {
    var path := dir + "/" + stem + "." + ext;
    assert ext == [ext[0], ext[1]];
    ExtensionOfName(dir, stem, ext);
    SuffixOfPy(Suffix(path), ext);
    PyPreview(path);
  }

  lemma PyPreview(path: string)
    requires Lower(Suffix(path)) == ".py"
    ensures DetectLanguage(path) == Some("python")
  {
    PyPreviewEntry();
  }

  lemma PyPreviewEntry()
    ensures ".py" in PreviewLanguages && PreviewLanguages[".py"] == "python"
  {
  }

  lemma SuffixOfPy(s: string, ext: string)
    requires |ext| == 2 && (ext[0] == 'p' || ext[0] == 'P') && (ext[1] == 'y' || ext[1] == 'Y')
    requires s != [] && s[1..] == ext && s[0] == '.'
    ensures Lower(s) == ".py"
  {
    assert |s| == 3 && s[1] == ext[0] && s[2] == ext[1];
    assert LowerChar(s[0]) == '.' && LowerChar(s[1]) == 'p' && LowerChar(s[2]) == 'y';
  }

  // ---------------------------------------------------------------------------
  // StatusBar

  const Shortcuts: string := "j/k:Navigate | Space:Select | c:Copy | y:Yank Line | Enter:View Full | q:Quit"

  /** `update_status`: "No results" for an empty list, otherwise the selection size and the 1-based position. */
  function StatusText(selected: int, current: int, total: int): (t: string)
    ensures total == 0 <==> t == "No results"
  {
    var status :=
      if total == 0 then "No results"
      else "Selected: " + IntToString(selected) + " | Current: " + IntToString(current + 1) + "/" + IntToString(total);
    assert total != 0 ==> status[0] == 'S';
    status
  }

  /** The whole bar: the status, then the key shortcuts. */
  function StatusBarText(selected: int, current: int, total: int): (t: string)
    ensures StartsWith(t, StatusText(selected, current, total)) && EndsWith(t, Shortcuts)
  {
    StatusText(selected, current, total) + " | " + Shortcuts
  }

  // ---------------------------------------------------------------------------
  // SearchApp._format_results_for_clipboard

  /** The three header lines; "result" takes an "s" only for more than one. */
  function ClipHeader(query: string, count: int): (h: seq<string>)
    ensures |h| == 3 && h[2] == []
    ensures EndsWith(h[1], "results") <==> count > 1
  {
    var noun := if count > 1 then "results" else "result";
    var h := ["# KodeKlip Search Results: '" + query + "'", "# " + IntToString(count) + " " + noun, ""];
    assert EndsWith(h[1], noun);
    assert count <= 1 ==> h[1][|h[1]| - 1] == 't';
    h
  }

  /** The five lines of one result: its `## path:line` heading, the stripped line fenced, and a blank line. */
  function ClipBlock(r: SearchResult): (b: seq<string>)
    ensures |b| == 5
  {
    ["## " + r.filePath + ":" + IntToString(r.lineNumber), "```", Strip(r.lineContent), "```", ""]
  }

  /** The blocks of the results, in order: five lines per result. */
  function ClipBody(results: seq<SearchResult>): (b: seq<string>)
    ensures |b| == 5 * |results|
  {
    if results == [] then [] else ClipBody(results[..|results| - 1]) + ClipBlock(results[|results| - 1])
  }

  /** The `k`-th five lines of the body are the `k`-th result's block. */
  lemma {:induction false} ClipBodyBlock(results: seq<SearchResult>, k: nat)
    requires k < |results|
    ensures |ClipBody(results)| == 5 * |results|
    ensures ClipBody(results)[5 * k..5 * k + 5] == ClipBlock(results[k])
    decreases |results|, 1
  {
    if k < |results| - 1 {
      ClipBodyEarlier(results, k);
    } else {
      ClipBodyLast(results, k);
    }
  }

  lemma {:induction false} ClipBodyEarlier(results: seq<SearchResult>, k: nat)
    requires k < |results| - 1
    ensures ClipBody(results)[5 * k..5 * k + 5] == ClipBlock(results[k])
    decreases |results|, 0
  {
    var init := results[..|results| - 1];
    var front := ClipBody(init);
    var last := ClipBlock(results[|results| - 1]);
    assert ClipBody(results) == front + last;
    ClipBodyBlock(init, k);
    assert init[k] == results[k];
    BlockInFront(front, last, 5 * k, 5 * k + 5);
  }

  lemma ClipBodyLast(results: seq<SearchResult>, k: nat)
    requires k == |results| - 1
    ensures ClipBody(results)[5 * k..5 * k + 5] == ClipBlock(results[k])
  {
    var front := ClipBody(results[..k]);
    var last := ClipBlock(results[k]);
    assert ClipBody(results) == front + last;
    BlockAtEnd(front, last, 5 * k, 5 * k + 5);
  }

  lemma BlockInFront<T>(front: seq<T>, last: seq<T>, a: nat, b: nat)
    requires a <= b <= |front|
    ensures (front + last)[a..b] == front[a..b]
  {
    SliceOfAppend(front, last, a, b);
  }

  lemma BlockAtEnd<T>(front: seq<T>, last: seq<T>, a: nat, b: nat)
    requires a == |front| && b == |front| + |last|
    ensures (front + last)[a..b] == last
  {
    SliceOfAppend(front, last, a, b);
  }

  /** `_format_results_for_clipboard`: the header, then a block per result, in order, joined by newlines. */
  method FormatResultsForClipboard(query: string, results: seq<SearchResult>) returns (lines: seq<string>, text: string)
    ensures lines == ClipHeader(query, |results|) + ClipBody(results)
    ensures text == Join(lines, "\n")
  {
    var header := ClipHeader(query, |results|);
    lines := header;
    for i := 0 to |results|
      invariant lines == header + ClipBody(results[..i])
    {
      var result := results[i];
      var block := ["## " + result.filePath + ":" + IntToString(result.lineNumber), "```", Strip(result.lineContent), "```", ""];
      assert results[..i + 1][..i] == results[..i];
      assert ClipBody(results[..i + 1]) == ClipBody(results[..i]) + block;
      AppendAssoc(header, ClipBody(results[..i]), block);
      lines := lines + block;
    }
    assert results[..|results|] == results;
    text := Join(lines, "\n");
  }

  /**
    What the clipboard holds: three header lines, then for the `k`-th result
    its five-line block, starting at line `3 + 5 * k`.
  */
  lemma ClipboardBlocks(query: string, results: seq<SearchResult>, k: nat)
    requires k < |results|
    ensures var lines := ClipHeader(query, |results|) + ClipBody(results);
      && |lines| == 3 + 5 * |results|
      && lines[3 + 5 * k..3 + 5 * k + 5] == ClipBlock(results[k])
  {
    ClipBodyBlock(results, k);
    SliceOfAppend(ClipHeader(query, |results|), ClipBody(results), 3 + 5 * k, 3 + 5 * k + 5);
  }

  // ---------------------------------------------------------------------------
  // launch_interactive_search

  /** What launching does: nothing without results, otherwise an app over the results titled with the query. */
  datatype Launch = NothingToShow(message: string) | Launched(title: string, results: seq<SearchResult>, repoPath: string)

  /** `launch_interactive_search`: an empty list never opens the browser. */
  function LaunchInteractiveSearch(results: seq<SearchResult>, query: string, repoPath: string): (l: Launch)
    ensures l.NothingToShow? <==> results == []
    ensures l.Launched? ==> l.results == results && l.repoPath == repoPath
  {
    if results == [] then NothingToShow("No results to display interactively")
    else Launched("KodeKlip - Search: '" + query + "'", results, repoPath)
  }
}
