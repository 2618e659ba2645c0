/** The end-of-day report page: the fetched block `G1:L26` shown as a table
    whose header is row 0 and whose body is every later row, padded to the
    header's width, with section rows singled out and the rest shaded by
    parity. */
module EodReport {
  import opened Optional
  import opened Text
  import opened Gateway
  import Config

  const ReportRange: string := "G1:L26"

  /** The read the page issues: the route's sheet or the default, and the
      fixed report range. */
  function ReportFetch(param: Option<string>, env: Option<string>): (f: Fetch)
    ensures f.range == ReportRange && f.sheet != ""
    ensures param.Some? && param.value != "" ==> f.sheet == param.value
    ensures param.None? || param.value == "" ==> f.sheet == Config.DefaultSheet(env)
  {
    Fetch(Config.SheetOrDefault(param, env), ReportRange)
  }

  /** `values[0] ? values[0].length : 0`: the width of row 0, and 0 for an
      empty table. */
  function Columns(values: RawTable): (c: nat)
    ensures |values| == 0 ==> c == 0
    ensures |values| > 0 ==> c == |values[0]|
  {
    if |values| == 0 then 0 else |values[0]|
  }

  /** `row[j] ?? ""`. */
  function CellOr(row: seq<string>, j: nat): string {
    if j < |row| then row[j] else ""
  }

  function Max(a: nat, b: nat): nat {
    if a < b then b else a
  }

  /** The cells rendered for one body row: `Math.max(columns, row.length)`
      of them, the row's own cells first and "" after them. Nothing is ever
      cut off. */
  function PadRow(row: seq<string>, columns: nat): (cells: seq<string>)
    ensures |cells| == Max(columns, |row|)
    ensures cells[..|row|] == row
    ensures forall j :: |row| <= j < |cells| ==> cells[j] == ""
  {
    seq(Max(columns, |row|), j requires 0 <= j => CellOr(row, j))
  }

  /** Padding a padded row again changes nothing. */
  lemma PadRowIdempotent(row: seq<string>, columns: nat)
    ensures PadRow(PadRow(row, columns), columns) == PadRow(row, columns)
  {
  }

  /** A section heading: the first cell (missing counts as ""), trimmed and
      lower-cased, starts with "breakdown" or "daily revenue". */
  predicate IsSection(row: seq<string>) {
    var first := ToLower(Trim(CellOr(row, 0)));
    StartsWith(first, "breakdown") || StartsWith(first, "daily revenue")
  }

  datatype RowClass = Section | Shaded | Plain

  /** Upper or lower case in the first cell makes no difference. */
  lemma SectionIgnoresCase(row: seq<string>)
    requires |row| > 0
    ensures IsSection(row) <==> IsSection([ToLower(row[0])])
  {
    TrimLower(row[0]);
    ToLowerIdempotent(Trim(row[0]));
  }

  /** Blanks before the heading make no difference. */
  lemma SectionIgnoresLeadingBlanks(row: seq<string>)
    requires |row| > 0
    ensures IsSection(row) <==> IsSection([TrimStart(row[0])])
  {
    TrimAfterTrimStart(row[0]);
  }

  /** `isSection ? section : (rIdx % 2 === 0 ? shaded : plain)`. */
  function RowStyle(section: bool, k: nat): RowClass {
    if section then Section else if k % 2 == 0 then Shaded else Plain
  }

  /** Position matters only to the rows that are not sections: a section
      row keeps its class wherever it stands, and the other rows alternate
      between shaded and plain. */
  lemma RowStyleByPosition(section: bool, k: nat)
    ensures section ==> RowStyle(section, k) == RowStyle(section, k + 1) == Section
    ensures !section ==> RowStyle(section, k) != Section
    ensures !section ==> RowStyle(section, k) != RowStyle(section, k + 1)
    ensures !section ==> RowStyle(section, k) == RowStyle(section, k + 2)
  {
    assert (k + 1) % 2 != k % 2;
    assert (k + 2) % 2 == k % 2;
  }

  /** The row class of body row `k`: section rows always get the section
      style; the others are shaded on even body indices. */
  function Classify(row: seq<string>, k: nat): (c: RowClass)
    ensures c == Section <==> IsSection(row)
    ensures c == Shaded <==> !IsSection(row) && k % 2 == 0
    ensures c == Plain <==> !IsSection(row) && k % 2 == 1
  {
    RowStyle(IsSection(row), k)
  }

  datatype BodyRow = BodyRow(cells: seq<string>, style: RowClass)

  datatype Report = Report(header: seq<string>, body: seq<BodyRow>)

  /** The rendered table. The header is exactly row 0 (as many cells as
      there are columns); the body is rows 1.. in order, row 0 never among
      them; each body row shows all of its cells followed by blanks up to
      the column count; its class follows the section and parity rules. */
  function Render(values: RawTable): (r: Report)
    ensures |r.header| == Columns(values)
    ensures r.header == (if |values| == 0 then [] else values[0])
    ensures |r.body| == (if |values| == 0 then 0 else |values| - 1)
    ensures forall k :: 0 <= k < |r.body| ==>
      && |r.body[k].cells| == Max(Columns(values), |values[k + 1]|)
      && r.body[k].cells[..|values[k + 1]|] == values[k + 1]
      && (forall j :: |values[k + 1]| <= j < |r.body[k].cells| ==> r.body[k].cells[j] == "")
    ensures forall k :: 0 <= k < |r.body| ==>
      && (r.body[k].style == Section <==> IsSection(values[k + 1]))
      && (r.body[k].style == Shaded <==> !IsSection(values[k + 1]) && k % 2 == 0)
  {
    var columns := Columns(values);
    var header := seq(columns, j requires 0 <= j < columns => CellOr(values[0], j));
    var rows := if |values| == 0 then [] else values[1..];
    var body := seq(|rows|, k requires 0 <= k < |rows| => BodyRow(PadRow(rows[k], columns), Classify(rows[k], k)));
    Report(header, body)
  }

  /** The table shown for a response: one without values shows no header
      cell and no body row. */
  function RenderResponse(values: Option<RawTable>): (r: Report)
    ensures values.None? ==> r == Report([], [])
    ensures values.Some? ==> r == Render(values.value)
  {
    Render(ValuesOrEmpty(values))
  }

  /** A padded, capitalised heading is a section row. This and the other
      worked examples below take their sample as a parameter pinned to a
      literal, so that the solver meets the literal only through the
      helper lemmas that unfold it. */
  lemma BreakdownHeadingIsSection(cell: string)
    requires cell == " Breakdown"
    ensures IsSection([cell, "x"])
  {
    TrimsToBreakdown(cell);
    LowersToBreakdown(Trim(cell));
  }

  lemma TrimsToBreakdown(cell: string)
    requires cell == " Breakdown"
    ensures Trim(cell) == "Breakdown"
  {
    var word := cell[1..];
    assert word == "Breakdown";
    assert IsSpace(cell[0]) && !IsSpace(word[0]) && !IsSpace(word[8]);
    assert TrimStart(cell) == word;
    assert TrimEnd(word) == word;
  }

  lemma LowersToBreakdown(word: string)
    requires word == "Breakdown"
    ensures ToLower(word) == "breakdown"
  {
    assert word[0] == 'B';
    assert ToLower(word)[0] == 'b';
  }

  /** Case does not matter for the section test. */
  lemma DailyRevenueHeadingIsSection(cell: string)
    requires cell == "DAILY REVENUE"
    ensures IsSection([cell])
  {
    TrimsToItself(cell);
    LowersToDailyRevenue(cell);
  }

  lemma TrimsToItself(cell: string)
    requires cell == "DAILY REVENUE"
    ensures Trim(cell) == cell
  {
    assert !IsSpace(cell[0]) && !IsSpace(cell[12]);
    assert TrimStart(cell) == cell;
    assert TrimEnd(cell) == cell;
  }

  lemma LowersToDailyRevenue(cell: string)
    requires cell == "DAILY REVENUE"
    ensures ToLower(cell) == "daily revenue"
  {
    var lower := ToLower(cell);
    assert |lower| == 13 && lower[0] == 'd' && lower[5] == ' ';
  }

  /** A missing first cell, or a heading only in a later cell, is not a
      section (a worked example on a pinned sample row). */
  lemma NonSectionRows(row: seq<string>)
    requires row == ["Total", "breakdown"]
    ensures !IsSection([])
    ensures !IsSection(row)
  {
    var cell := CellOr(row, 0);
    assert cell == "Total";
    assert !IsSpace(cell[0]) && !IsSpace(cell[4]);
    TrimOfTrimmed(cell);
    assert ToLower(cell)[0] == 't';
  }
}
