/** The two decisions the navigator makes from what the page shows: which
    input field to type into, and whether the results have arrived. */
module Navigation {
  import opened Wrappers
  import opened Text
  import opened Seqs
  import opened Naming
  import opened Extraction

  /** Strategy `i` is the first, in priority order, that matched anything. */
  predicate FirstMatchingStrategy<E>(strategies: seq<seq<E>>, i: int) {
    0 <= i < |strategies| && |strategies[i]| > 0 &&
    forall j :: 0 <= j < i ==> |strategies[j]| == 0
  }

  /** Locates an input field: each strategy's result is the list of elements
      its selector matched; the first element found by the first strategy
      that found any wins, and `None` stands for "input not found". */
  method FindInput<E>(strategies: seq<seq<E>>) returns (found: Option<E>)
    ensures found.None? <==> forall i :: 0 <= i < |strategies| ==> |strategies[i]| == 0
    ensures found.Some? ==> exists i :: FirstMatchingStrategy(strategies, i) && found.value == strategies[i][0]
  {
    for i := 0 to |strategies|
      invariant forall j :: 0 <= j < i ==> |strategies[j]| == 0
    {
      var els := strategies[i];
      if |els| > 0 {
        assert FirstMatchingStrategy(strategies, i);
        return Some(els[0]);
      }
    }
    return None;
  }

  /** What the readiness test sees of the page: whether the "results match
      your search criteria" banner is present, and the tables. */
  datatype Snapshot = Snapshot(bannerShown: bool, tables: seq<Table>)

  /** Whitespace as XPath's `normalize-space` sees it. */
  predicate IsXmlSpace(c: char) {
    c == ' ' || c == '\t' || c == '\n' || c == '\r'
  }

  /** XPath `normalize-space`: trimmed, inner whitespace runs collapsed to one space. */
  function NormalizeSpace(s: string): (r: string)
    ensures r != [] ==> !IsXmlSpace(r[0]) && !IsXmlSpace(r[|r| - 1])
  {
    StripBy(ReplaceRuns(s, IsXmlSpace, ' '), IsXmlSpace)
  }

  /** A `tr` with at least one `td` (the selector `//table//tr[td]`). */
  predicate HasCells(r: Row) {
    |r.cells| > 0
  }

  /** The number of rows with cells, over all tables. */
  function CellRowCount(tables: seq<Table>): nat {
    if tables == [] then 0
    else CellRowCount(tables[..|tables| - 1]) + |Filter(tables[|tables| - 1], HasCells)|
  }

  /** Some row's first cell, whitespace-normalised, is exactly the query. */
  predicate HasQueryRow(tables: seq<Table>, query: string) {
    exists k, j :: 0 <= k < |tables| && 0 <= j < |tables[k]| &&
      HasCells(tables[k][j]) && NormalizeSpace(tables[k][j].cells[0]) == query
  }

  /** The results count as loaded when any one of three weak signals holds:
      the banner, a row for the query, or more than one row with cells. */
  predicate ResultsReady(p: Snapshot, query: string) {
    p.bannerShown || HasQueryRow(p.tables, query) || CellRowCount(p.tables) > 1
  }

  lemma {:induction false} CellRowCountCovers(tables: seq<Table>, k: int)
    requires 0 <= k < |tables|
    ensures |Filter(tables[k], HasCells)| <= CellRowCount(tables)
    decreases |tables|
  {
    if k < |tables| - 1 {
      CellRowCountCovers(tables[..|tables| - 1], k);
    }
  }

  /** A page on which some table would yield two or more records always passes
      the readiness test, whatever the query and the banner. */
  lemma {:induction false} ReadyWhenTwoRowsExtractable(p: Snapshot, query: string, k: int)
    requires 0 <= k < |p.tables| && |TableRows(p.tables[k])| >= 2
    ensures ResultsReady(p, query)
  {
    var t := p.tables[k];
    FilterWeaker(t[1..], IsDataRow, HasCells);
    assert t == [t[0]] + t[1..];
    FilterAppend([t[0]], t[1..], HasCells);
    CellRowCountCovers(p.tables, k);
  }

  /** The converse fails: a page can pass the readiness test although no table
      yields a single record (two one-cell rows, no banner). */
  lemma {:induction false} ReadyWithoutRecords(query: string)
    ensures exists p :: ResultsReady(p, query) &&
              forall k :: 0 <= k < |p.tables| ==> TableRows(p.tables[k]) == []
  {
    var row := Row(["x"], []);
    var p := Snapshot(false, [[row, row]]);
    assert Filter([row, row], HasCells) == [row, row];
    assert CellRowCount(p.tables) == 2;
    assert TableRows(p.tables[0]) == [];
    assert ResultsReady(p, query);
  }

  /** Waits for the results: `polls` is what the page showed at each poll
      before the time limit, and the wait succeeds at the first poll that
      passes the readiness test. The selector is taken to match the query
      text literally, whatever characters it holds. */
  method WaitForResults(polls: seq<Snapshot>, query: string) returns (ready: bool)
    ensures ready <==> exists i :: 0 <= i < |polls| && ResultsReady(polls[i], query)
  {
    for i := 0 to |polls|
      invariant forall j :: 0 <= j < i ==> !ResultsReady(polls[j], query)
    {
      if ResultsReady(polls[i], query) {
        return true;
      }
    }
    return false;
  }

  const Apostrophe: char := '\''
  const DoubleQuote: char := '"'

  /** The row selector: the query is spliced between apostrophes, unescaped. */
  const RowSelectorHead: string := "//table//tr[td and normalize-space(td[1])="
  const RowSelectorTail: string := "]"

  function RowSelector(query: string): string {
    RowSelectorHead + [Apostrophe] + query + [Apostrophe] + RowSelectorTail
  }

  /** An XPath expression without double quotes delimits its string literals
      with apostrophes only, so an odd number of apostrophes leaves a
      literal open and the expression does not parse. This is a sufficient
      condition for a malformed expression, not the only one: `'x'y'z'` has
      no literal open and still does not parse. */
  predicate LeavesLiteralOpen(expr: string) {
    DoubleQuote !in expr && Count(expr, Apostrophe) % 2 == 1
  }

  /** The row selector for this query leaves a literal open, so evaluating
      it fails. */
  predicate RowSelectorOpen(query: string) {
    LeavesLiteralOpen(RowSelector(query))
  }

  /** Characterises the `LeavesLiteralOpen` condition on the selector: it
      holds exactly for queries without a double quote and with an odd
      number of apostrophes, such as `Engineer's Drawing`, and for those
      evaluating the selector fails. The condition is sufficient, not
      necessary: the query `"'` also leaves a literal open. */
  lemma {:induction false} RowSelectorOpenExactly(query: string)
    ensures RowSelectorOpen(query) <==> DoubleQuote !in query && Count(query, Apostrophe) % 2 == 1
  {
    SelectorEndsUnquoted();
    QuotedOpen(RowSelectorHead, query, RowSelectorTail);
  }

  /** The fixed text around the query holds no quote of either kind. */
  lemma {:induction false} SelectorEndsUnquoted()
    ensures Apostrophe !in RowSelectorHead && DoubleQuote !in RowSelectorHead
    ensures Apostrophe !in RowSelectorTail && DoubleQuote !in RowSelectorTail
  {
  }

  /** Quoting text between two quote-free parts leaves a literal open exactly
      when the text itself does. */
  lemma {:induction false} QuotedOpen(h: string, q: string, t: string)
    requires Apostrophe !in h && DoubleQuote !in h
    requires Apostrophe !in t && DoubleQuote !in t
    ensures LeavesLiteralOpen(h + [Apostrophe] + q + [Apostrophe] + t) <==> LeavesLiteralOpen(q)
  {
    QuotedCount(h, q, t, Apostrophe);
    QuotedMembers(h, q, t, Apostrophe, DoubleQuote);
    var n := Count(q, Apostrophe);
    assert (n + 2) % 2 == n % 2;
  }

  /** Quoting `q` with `c` adds two to the count of `c`. */
  lemma {:induction false} QuotedCount(h: string, q: string, t: string, c: char)
    requires c !in h && c !in t
    ensures Count(h + [c] + q + [c] + t, c) == Count(q, c) + 2
  {
    CountAppend(h, [c], c);
    CountAppend(h + [c], q, c);
    CountAppend(h + [c] + q, [c], c);
    CountAppend(h + [c] + q + [c], t, c);
    assert [c][1..] == [];
  }

  /** Quoting adds no character other than the quote itself. */
  lemma {:induction false} QuotedMembers(h: string, q: string, t: string, c: char, d: char)
    requires d !in h && d !in t && d != c
    ensures d in h + [c] + q + [c] + t <==> d in q
  {
    var s := h + [c] + q + [c] + t;
    if d in s {
      var i :| 0 <= i < |s| && s[i] == d;
      assert q[i - |h| - 1] == d;
    }
    if d in q {
      var i :| 0 <= i < |q| && q[i] == d;
      assert s[|h| + 1 + i] == d;
    }
  }

  /** The wait as written, for the queries whose selector either means what
      it says (no apostrophe) or fails to parse: the three signals are tried
      in order, so the row selector is evaluated whenever the banner is
      absent; when the banner is present the wait succeeds, but the report
      that follows evaluates the row selector anyway. A failure to evaluate
      it ends the wait with "not ready". */
  function ReadyAsWritten(polls: seq<Snapshot>, query: string): bool
    requires Apostrophe !in query || RowSelectorOpen(query)
  {
    if polls == [] then false
    else if polls[0].bannerShown then !RowSelectorOpen(query)
    else if RowSelectorOpen(query) then false
    else if HasQueryRow(polls[0].tables, query) || CellRowCount(polls[0].tables) > 1 then true
    else ReadyAsWritten(polls[1..], query)
  }

  /** For a query without an apostrophe the wait as written is the intended one. */
  lemma {:induction false} ReadyAsWrittenWellFormed(polls: seq<Snapshot>, query: string)
    requires Apostrophe !in query
    ensures ReadyAsWritten(polls, query) <==> exists i :: 0 <= i < |polls| && ResultsReady(polls[i], query)
    decreases |polls|
  {
    ClosedWithoutApostrophe(query);
    if polls != [] {
      ReadyAsWrittenWellFormed(polls[1..], query);
      if exists i :: 0 <= i < |polls| && ResultsReady(polls[i], query) {
        var i :| 0 <= i < |polls| && ResultsReady(polls[i], query);
        if i > 0 {
          assert ResultsReady(polls[1..][i - 1], query);
        }
      }
    }
  }

  lemma {:induction false} ClosedWithoutApostrophe(query: string)
    requires Apostrophe !in query
    ensures !RowSelectorOpen(query)
  {
    RowSelectorOpenExactly(query);
    assert Count(query, Apostrophe) == 0;
  }

  /** A query whose selector leaves a literal open never gets past the wait
      as written, even when the page shows the results banner. */
  lemma {:induction false} ApostropheNeverReady(polls: seq<Snapshot>, query: string)
    requires DoubleQuote !in query && Count(query, Apostrophe) % 2 == 1
    ensures RowSelectorOpen(query) && !ReadyAsWritten(polls, query)
    ensures polls != [] && polls[0].bannerShown ==> ResultsReady(polls[0], query)
  {
    RowSelectorOpenExactly(query);
  }

  /** A query with a single apostrophe and no double quote, such as
      `Engineer's Drawing`, is such a query. */
  lemma {:induction false} SingleApostrophe(a: string, b: string)
    requires Apostrophe !in a && Apostrophe !in b
    requires DoubleQuote !in a && DoubleQuote !in b
    ensures var query := a + [Apostrophe] + b;
      DoubleQuote !in query && Count(query, Apostrophe) == 1
  {
    var query := a + [Apostrophe] + b;
    CountAppend(a, [Apostrophe], Apostrophe);
    CountAppend(a + [Apostrophe], b, Apostrophe);
    assert [Apostrophe][1..] == [];
    assert forall i :: 0 <= i < |query| ==> query[i] == Apostrophe || query[i] in a || query[i] in b;
  }
}
