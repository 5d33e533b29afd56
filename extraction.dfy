/** Turning the tables of a rendered results page into paper records.
    The page is abstracted as its tables in document order; a table is its
    `<tr>` rows; a row is the texts of its `<td>` cells and its `<a>` links. */
module Extraction {
  import opened Wrappers
  import opened Text
  import opened Seqs

  /** A link: its visible text and its `href` attribute, `None` when missing. */
  datatype Anchor = Anchor(text: string, href: Option<string>)

  /** A table row: the texts of its `<td>` cells and its links, in document order. */
  datatype Row = Row(cells: seq<string>, anchors: seq<Anchor>)

  type Table = seq<Row>

  /** One archived paper, as listed by the portal. An empty `downloadHref`
      means the row offers no file. */
  datatype Record = Record(
    courseCode: string,
    courseName: string,
    year: string,
    semester: string,
    examType: string,
    downloadHref: string)

  const CourseCodeLabel: string := "course code"
  const CourseCodeKey: string := "course_code"

  /** First-cell texts (trimmed, lower-cased) that mark a repeated header row. */
  predicate IsHeaderLabel(s: string) {
    s == CourseCodeLabel || s == CourseCodeKey
  }

  /** A row that can describe a paper: at least five cells, and a first cell
      that is not a header label. */
  predicate IsDataRow(r: Row) {
    |r.cells| >= 5 && !IsHeaderLabel(Lower(Strip(r.cells[0])))
  }

  /** The rows a table contributes: its data rows after the first row (taken
      to be the header), in order; a table of fewer than two rows contributes none. */
  function TableRows(t: Table): (rows: seq<Row>)
    ensures forall i :: 0 <= i < |rows| ==> IsDataRow(rows[i]) && |rows[i].cells| >= 5
    ensures |t| < 2 ==> rows == []
    ensures |t| >= 2 ==> Subsequence(rows, t[1..])
    ensures forall j :: 1 <= j < |t| && IsDataRow(t[j]) ==> t[j] in rows
  {
    if |t| < 2 then []
    else
      FilterSubsequence(t[1..], IsDataRow);
      assert forall j :: 1 <= j < |t| ==> t[j] == t[1..][j - 1];
      forall j | 1 <= j < |t| && IsDataRow(t[j]) ensures t[j] in Filter(t[1..], IsDataRow) {
        FilterComplete(t[1..], IsDataRow, t[j]);
      }
      Filter(t[1..], IsDataRow)
  }

  /** Every data row after the header is kept as often as it occurs, and
      nothing else is. */
  lemma {:induction false} TableRowsExact(t: Table)
    requires |t| >= 2
    ensures forall r :: multiset(TableRows(t))[r] == if IsDataRow(r) then multiset(t[1..])[r] else 0
  {
    forall r ensures multiset(TableRows(t))[r] == if IsDataRow(r) then multiset(t[1..])[r] else 0 {
      FilterMultiset(t[1..], IsDataRow, r);
    }
  }

  /** Table `k` is the first table of the page that contributes a row. */
  predicate FirstGoodTable(page: seq<Table>, k: int) {
    0 <= k < |page| && TableRows(page[k]) != [] &&
    forall j :: 0 <= j < k ==> TableRows(page[j]) == []
  }

  /** At most one table is the first good one, so extraction from a fixed page
      always gives the same rows. */
  lemma {:induction false} FirstGoodTableUnique(page: seq<Table>, k1: int, k2: int)
    requires FirstGoodTable(page, k1) && FirstGoodTable(page, k2)
    ensures k1 == k2
  {
  }

  /** The inner loop over one table of at least two rows: its rows after the
      header with at least five cells, skipping repeated header rows. */
  method ScanTable(t: Table) returns (rows: seq<Row>)
    requires |t| >= 2
    ensures rows == TableRows(t)
  {
    rows := [];
    for j := 1 to |t|
      invariant rows == Filter(t[1..j], IsDataRow)
    {
      var r := t[j];
      assert t[1..j + 1] == t[1..j] + [r];
      if |r.cells| >= 5 {
        var first := Lower(Strip(r.cells[0]));
        if IsHeaderLabel(first) {
          continue;
        }
        rows := rows + [r];
      }
    }
    assert t[1..|t|] == t[1..];
  }

  /** The valid result rows of the page: the rows of the first table, in
      document order, that yields any valid row; none when no table does. */
  method CollectResultsRows(page: seq<Table>) returns (rows: seq<Row>)
    ensures rows == [] <==> forall k :: 0 <= k < |page| ==> TableRows(page[k]) == []
    ensures rows != [] ==> exists k :: FirstGoodTable(page, k) && rows == TableRows(page[k])
    ensures forall i :: 0 <= i < |rows| ==> IsDataRow(rows[i])
  {
    rows := [];
    var i := 0;
    while i < |page|
      invariant 0 <= i <= |page|
      invariant rows == []
      invariant forall j :: 0 <= j < i ==> TableRows(page[j]) == []
    {
      var t := page[i];
      if |t| < 2 {
        i := i + 1;
        continue;
      }
      rows := ScanTable(t);
      if rows != [] {
        assert FirstGoodTable(page, i);
        break;
      }
      i := i + 1;
    }
  }

  /** A link whose text, trimmed and lower-cased, is `download`. */
  predicate IsDownloadLink(a: Anchor) {
    Lower(Strip(a.text)) == DownloadLabel
  }

  const DownloadLabel: string := "download"

  /** Link `k` is the first download link of the row. */
  predicate FirstDownloadLink(anchors: seq<Anchor>, k: int) {
    0 <= k < |anchors| && IsDownloadLink(anchors[k]) &&
    forall j :: 0 <= j < k ==> !IsDownloadLink(anchors[j])
  }

  /** The trimmed text of cell `i`, or `""` when the row is shorter. */
  function CellText(cells: seq<string>, i: nat): string {
    if i < |cells| then Strip(cells[i]) else ""
  }

  /** The `href` of the first download link, `""` when there is none or it
      has no `href`. */
  function DownloadHref(anchors: seq<Anchor>): string {
    if anchors == [] then ""
    else if IsDownloadLink(anchors[0]) then anchors[0].href.GetOr("")
    else DownloadHref(anchors[1..])
  }

  /** The link kept is that of the first download link; without one it is empty. */
  lemma {:induction false} DownloadHrefFirst(anchors: seq<Anchor>, k: int)
    ensures FirstDownloadLink(anchors, k) ==> DownloadHref(anchors) == anchors[k].href.GetOr("")
    ensures (forall j :: 0 <= j < |anchors| ==> !IsDownloadLink(anchors[j])) ==> DownloadHref(anchors) == ""
    decreases |anchors|
  {
    if anchors != [] && !IsDownloadLink(anchors[0]) {
      DownloadHrefFirst(anchors[1..], k - 1);
      assert forall j :: 0 <= j < |anchors| - 1 ==> anchors[1..][j] == anchors[j + 1];
    }
  }

  /** What the portal row `row` describes: the first five cells, trimmed
      (empty when missing), and the link of its first download link. */
  function RecordOf(row: Row): Record {
    Record(CellText(row.cells, 0), CellText(row.cells, 1), CellText(row.cells, 2),
           CellText(row.cells, 3), CellText(row.cells, 4), DownloadHref(row.anchors))
  }

  /** Builds the record for one row. The first two cells must exist. */
  method RowToRecord(row: Row) returns (rec: Record)
    requires |row.cells| >= 2
    ensures rec == RecordOf(row)
  {
    var tds := row.cells;
    rec := Record(Strip(tds[0]), Strip(tds[1]), CellText(tds, 2), CellText(tds, 3), CellText(tds, 4), "");
    var i := 0;
    while i < |row.anchors|
      invariant 0 <= i <= |row.anchors|
      invariant DownloadHref(row.anchors[i..]) == DownloadHref(row.anchors)
      invariant rec.downloadHref == ""
    {
      var a := row.anchors[i];
      if IsDownloadLink(a) {
        rec := rec.(downloadHref := a.href.GetOr(""));
        break;
      }
      assert row.anchors[i..][1..] == row.anchors[i + 1..];
      i := i + 1;
    }
  }

  /** The record of each row, in row order (the loop in `main` that calls
      `row_to_record`). */
  method RecordsOf(rows: seq<Row>) returns (records: seq<Record>)
    requires forall i :: 0 <= i < |rows| ==> |rows[i].cells| >= 2
    ensures records == Map(rows, RecordOf)
  {
    records := [];
    for i := 0 to |rows|
      invariant records == Map(rows[..i], RecordOf)
    {
      var rec := RowToRecord(rows[i]);
      MapInit(rows[..i + 1], RecordOf);
      assert rows[..i + 1][..i] == rows[..i];
      records := records + [rec];
    }
    assert rows[..|rows|] == rows;
  }

  /** The records of the valid result rows, one per row and in row order. */
  method ExtractRecords(page: seq<Table>) returns (records: seq<Record>, rows: seq<Row>)
    ensures rows == [] <==> forall k :: 0 <= k < |page| ==> TableRows(page[k]) == []
    ensures rows != [] ==> exists k :: FirstGoodTable(page, k) && rows == TableRows(page[k])
    ensures records == Map(rows, RecordOf)
  {
    rows := CollectResultsRows(page);
    records := RecordsOf(rows);
  }
}
