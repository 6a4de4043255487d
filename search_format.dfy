/**
  `SearchResultFormatter`: the text of the results table (long lines cut to
  80 characters), the detailed view (one panel for each of the first ten
  results, the match numbered with its own line number), and the summary of a
  search over every repository (one row per repository and the total).
  Colours, borders and syntax highlighting are rendering and are not modelled;
  a table or a panel is the text it shows.
*/
module SearchFormat {
  import opened Common
  import opened Strings
  import opened SearchTypes

  // ---------------------------------------------------------------------------
  // Cutting long cells

  /**
    A cell longer than `width` becomes its first `keep` characters followed by
    "..."; a cell that fits stays as it is.
  */
  function Truncate(s: string, width: nat, keep: nat): (r: string)
    requires keep <= width
    ensures |s| <= width ==> r == s
    ensures |s| > width ==> |r| == keep + 3 && StartsWith(s, r[..keep]) && EndsWith(r, "...")
  {
    if |s| > width then s[..keep] + "..." else s
  }

  /** When the three dots fit in the width, a cut cell is never wider than the width. */
  lemma TruncateFits(s: string, width: nat, keep: nat)
    requires keep + 3 <= width
    ensures |Truncate(s, width, keep)| <= width
  {
  }

  /** Cutting a cell that was already cut changes nothing. */
  lemma TruncateIdempotent(s: string, width: nat, keep: nat)
    requires keep + 3 <= width
    ensures Truncate(Truncate(s, width, keep), width, keep) == Truncate(s, width, keep)
  {
    TruncateFits(s, width, keep);
  }

  /** Whether a cell was cut can be seen from the cell: exactly the cells longer than the width are cut. */
  lemma TruncateKeepsIff(s: string, width: nat, keep: nat)
    requires keep + 3 <= width
    ensures Truncate(s, width, keep) == s <==> |s| <= width
  {
  }

  /** The width of the Content column of the results table. */
  const ContentWidth: nat := 80
  /** How much of a longer line the results table keeps. */
  const ContentKeep: nat := 77

  /** The Content cell of the results table: the stripped line, cut to 80 characters. */
  function ContentCell(content: string): (c: string)
    ensures |c| <= ContentWidth
    ensures |Strip(content)| <= ContentWidth ==> c == Strip(content)
    ensures |Strip(content)| > ContentWidth ==> c == Strip(content)[..ContentKeep] + "..."
  {
    Truncate(Strip(content), ContentWidth, ContentKeep)
  }

  /** A Content cell neither starts nor ends with whitespace, so showing it again shows the same cell. */
  lemma ContentCellStable(content: string)
    ensures ContentCell(ContentCell(content)) == ContentCell(content)
  {
    var s := Strip(content);
    var c := ContentCell(content);
    if c != [] {
      if |s| > ContentWidth {
        assert c[0] == s[0] && c[|c| - 1] == '.';
      }
      StripOfTrimmed(c);
    }
    assert Strip(c) == c;
  }

  // ---------------------------------------------------------------------------
  // format_results_table

  /** One row of the results table: File, Line and Content. */
  datatype Row = Row(file: string, line: string, content: string)

  /** A table as the text it shows: its title and its rows. */
  datatype Table = Table(title: string, rows: seq<Row>)

  /** The title names the query when there is one. */
  function TableTitle(query: string): (t: string)
    ensures query == [] ==> t == "Search Results"
    ensures query != [] ==> t == "Search Results: '" + query + "'"
  {
    if query != [] then "Search Results: '" + query + "'" else "Search Results"
  }

  /** The row of one result. */
  function TableRow(r: SearchResult): (row: Row)
    ensures row.file == r.filePath && |row.content| <= ContentWidth
  {
    Row(r.filePath, IntToString(r.lineNumber), ContentCell(r.lineContent))
  }

  /**
    What a row shows of its result: the path as it is, a line number that
    reads back as the result's line number, and the stripped line, cut when it
    is longer than the column.
  */
  lemma TableRowShows(r: SearchResult)
    ensures TableRow(r).file == r.filePath
    ensures ParseInt(TableRow(r).line) == Some(r.lineNumber)
    ensures |TableRow(r).content| <= ContentWidth
    ensures TableRow(r).content == Strip(r.lineContent) <==> |Strip(r.lineContent)| <= ContentWidth
  {
    IntRoundTrip(r.lineNumber);
    TruncateKeepsIff(Strip(r.lineContent), ContentWidth, ContentKeep);
  }

  /** `format_results_table`: one row per result, in order. */
  method FormatResultsTable(results: seq<SearchResult>, query: string) returns (table: Table)
    ensures table.title == TableTitle(query)
    ensures |table.rows| == |results|
    ensures forall i :: 0 <= i < |results| ==> table.rows[i] == TableRow(results[i])
  {
    var rows: seq<Row> := [];
    for i := 0 to |results|
      invariant |rows| == i
      invariant forall j :: 0 <= j < i ==> rows[j] == TableRow(results[j])
    {
      var result := results[i];
      var content := Strip(result.lineContent);
      if |content| > 80 {
        content := content[..77] + "...";
      }
      rows := rows + [Row(result.filePath, IntToString(result.lineNumber), content)];
    }
    table := Table(TableTitle(query), rows);
  }

  // ---------------------------------------------------------------------------
  // to_rich_panel and format_results_detailed

  /**
    A panel as the text it shows: the `path:line` title, the highlighting
    language, the lines (context before, the match, context after) and, when
    highlighted, the number given to its first line.
  */
  datatype Panel = Panel(title: string, language: Option<string>, lines: seq<string>, startLine: Option<int>)

  /** The number of the first line shown: the match's number less the context above it, at least 1. */
  function StartLine(r: SearchResult): (n: int)
    ensures n >= 1
    ensures r.lineNumber - |r.contextBefore| >= 1 ==> n + |r.contextBefore| == r.lineNumber
  {
    if r.lineNumber - |r.contextBefore| > 1 then r.lineNumber - |r.contextBefore| else 1
  }

  /** `to_rich_panel`: numbered lines only when the file's language is known. */
  function ToPanel(r: SearchResult): (p: Panel)
    ensures p.language == LanguageFor(r)
    ensures p.startLine.Some? <==> LanguageFor(r).Some?
  {
    var language := LanguageFor(r);
    Panel(r.filePath + ":" + IntToString(r.lineNumber), language,
          r.contextBefore + [r.lineContent] + r.contextAfter,
          if language.Some? then Some(StartLine(r)) else None)
  }

  /**
    The matched line sits right after the context above it, between the two
    context lists; when its number leaves room for that context, the number
    shown beside it is its own line number.
  */
  lemma PanelShowsMatch(r: SearchResult)
    ensures var p := ToPanel(r);
      && |p.lines| == |r.contextBefore| + 1 + |r.contextAfter|
      && p.lines[|r.contextBefore|] == r.lineContent
      && p.lines[..|r.contextBefore|] == r.contextBefore
      && p.lines[|r.contextBefore| + 1..] == r.contextAfter
      && (p.startLine.Some? && r.lineNumber - |r.contextBefore| >= 1 ==>
            p.startLine.value + |r.contextBefore| == r.lineNumber)
  {
    var p := ToPanel(r);
    assert p.lines == r.contextBefore + [r.lineContent] + r.contextAfter;
    assert p.lines[..|r.contextBefore|] == r.contextBefore;
    assert p.lines[|r.contextBefore| + 1..] == r.contextAfter;
  }

  /** At most this many results are shown in the detailed view. */
  const DetailedLimit: nat := 10

  /** `format_results_detailed`: a panel for each of the first ten results, in order. */
  method FormatResultsDetailed(results: seq<SearchResult>) returns (panels: seq<Panel>)
    ensures |panels| == if |results| < DetailedLimit then |results| else DetailedLimit
    ensures forall i :: 0 <= i < |panels| ==> panels[i] == ToPanel(results[i])
  {
    var n := if |results| < 10 then |results| else 10;
    panels := [];
    for i := 0 to n
      invariant |panels| == i
      invariant forall j :: 0 <= j < i ==> panels[j] == ToPanel(results[j])
    {
      var panel := ToPanel(results[i]);
      MapSnoc(panels, results, i, ToPanel);
      panels := panels + [panel];
    }
  }

  // ---------------------------------------------------------------------------
  // format_summary

  /** The number of matches over every repository of a combined result. */
  function TotalMatches(d: seq<(string, seq<SearchResult>)>): (n: nat)
    ensures forall k :: 0 <= k < |d| ==> |d[k].1| <= n
  {
    if d == [] then 0 else TotalMatches(d[..|d| - 1]) + |d[|d| - 1].1|
  }

  /** Totals add up over the repositories. */
  lemma {:induction false} TotalMatchesAppend(a: seq<(string, seq<SearchResult>)>, b: seq<(string, seq<SearchResult>)>)
    ensures TotalMatches(a + b) == TotalMatches(a) + TotalMatches(b)
    decreases |b|
  {
    if b != [] {
      var init := b[..|b| - 1];
      assert (a + b)[..|a + b| - 1] == a + init;
      assert (a + b)[|a + b| - 1] == b[|b| - 1];
      assert TotalMatches(a + b) == TotalMatches(a + init) + |b[|b| - 1].1|;
      TotalMatchesAppend(a, init);
    } else {
      assert a + b == a;
    }
  }

  /** The total is zero exactly when no repository has a match. */
  lemma {:induction false} TotalZeroIff(d: seq<(string, seq<SearchResult>)>)
    ensures TotalMatches(d) == 0 <==> forall i :: 0 <= i < |d| ==> d[i].1 == []
    decreases |d|
  {
    if d != [] {
      var init := d[..|d| - 1];
      TotalZeroIff(init);
      assert forall i :: 0 <= i < |init| ==> init[i] == d[i];
    }
  }

  /** When every listed repository has a match, as in a combined search result, the total is at least the number of repositories. */
  lemma {:induction false} TotalCoversRows(d: seq<(string, seq<SearchResult>)>)
    requires forall i :: 0 <= i < |d| ==> d[i].1 != []
    ensures TotalMatches(d) >= |d|
    decreases |d|
  {
    if d != [] {
      var init := d[..|d| - 1];
      assert forall i :: 0 <= i < |init| ==> init[i] == d[i];
      TotalCoversRows(init);
    }
  }

  lemma TotalMatchesSnoc(d: seq<(string, seq<SearchResult>)>, i: nat)
    requires i < |d|
    ensures TotalMatches(d[..i + 1]) == TotalMatches(d[..i]) + |d[i].1|
  {
    assert d[..i + 1][..i] == d[..i];
  }

  /** The row of one repository: its alias and its number of matches. */
  function SummaryRow(e: (string, seq<SearchResult>)): (string, string) {
    (e.0, IntToString(|e.1|))
  }

  /** Each row reads back as its repository and that repository's number of matches. */
  lemma SummaryRowsRead(rows: seq<(string, string)>, d: seq<(string, seq<SearchResult>)>)
    requires |rows| == |d| && forall j :: 0 <= j < |d| ==> rows[j] == SummaryRow(d[j])
    ensures forall j :: 0 <= j < |d| ==> rows[j].0 == d[j].0 && ParseInt(rows[j].1) == Some(|d[j].1|)
  {
    forall j | 0 <= j < |d| ensures ParseInt(rows[j].1) == Some(|d[j].1|) {
      IntRoundTrip(|d[j].1|);
    }
  }

  /** The summary as the text it shows: its title and one (Repository, Matches) row per repository. */
  datatype Summary = Summary(title: string, rows: seq<(string, string)>)

  function SummaryTitle(query: string, total: nat): string
  {
    "Search Summary: '" + query + "' (" + IntToString(total) + " total matches)"
  }

  /** `format_summary`: a row per repository in order, and the total in the title. */
  method FormatSummary(d: seq<(string, seq<SearchResult>)>, query: string) returns (summary: Summary)
    ensures |summary.rows| == |d|
    ensures forall i :: 0 <= i < |d| ==> summary.rows[i].0 == d[i].0 && ParseInt(summary.rows[i].1) == Some(|d[i].1|)
    ensures summary.title == SummaryTitle(query, TotalMatches(d))
  {
    var rows: seq<(string, string)> := [];
    var total := 0;
    for i := 0 to |d|
      invariant |rows| == i && total == TotalMatches(d[..i])
      invariant forall j :: 0 <= j < i ==> rows[j] == SummaryRow(d[j])
    {
      var count := |d[i].1|;
      TotalMatchesSnoc(d, i);
      total := total + count;
      MapSnoc(rows, d, i, SummaryRow);
      rows := rows + [(d[i].0, IntToString(count))];
    }
    assert d[..|d|] == d;
    SummaryRowsRead(rows, d);
    summary := Summary(SummaryTitle(query, total), rows);
  }
}
