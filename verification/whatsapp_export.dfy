/** The WhatsApp export page: the fetched block `G28:I62` flattened into a
    plain-text message, one line per row that has any text. */
module WhatsappExport {
  import opened Optional
  import opened Text
  import opened Seqs
  import opened Gateway
  import Config

  const ExportRange: string := "G28:I62"

  /** The read the page issues: the route's sheet or the default, and the
      fixed export range. */
  function ExportFetch(param: Option<string>, env: Option<string>): (f: Fetch)
    ensures f.range == ExportRange && f.sheet != ""
    ensures param.Some? && param.value != "" ==> f.sheet == param.value
    ensures param.None? || param.value == "" ==> f.sheet == Config.DefaultSheet(env)
  {
    Fetch(Config.SheetOrDefault(param, env), ExportRange)
  }

  /** Every cell trimmed. */
  function TrimCells(row: seq<string>): (cells: seq<string>)
    ensures |cells| == |row|
    ensures forall j :: 0 <= j < |row| ==> cells[j] == Trim(row[j])
  {
    seq(|row|, j requires 0 <= j < |row| => Trim(row[j]))
  }

  /** One row's line: trimmed cells joined with single spaces (so an empty
      interior cell still leaves its separator), then trimmed as a whole. */
  function Line(row: seq<string>): (l: string)
    ensures Trimmed(l)
  {
    Trim(Join(TrimCells(row), " "))
  }

  /** A row contributes a line when its line is not empty. */
  predicate HasText(row: seq<string>) {
    Line(row) != ""
  }

  /** A row has text exactly when one of its cells is not blank: the
      separators alone never make a line. */
  lemma HasTextIffSomeCell(row: seq<string>)
    ensures HasText(row) <==> exists j :: 0 <= j < |row| && Trim(row[j]) != ""
  {
    var cells := TrimCells(row);
    assert Blank(" ") by {
      assert IsSpace(" "[0]);
    }
    BlankJoin(cells, " ");
    forall j | 0 <= j < |row|
      ensures Blank(cells[j]) <==> Trim(row[j]) == ""
    {
      BlankTrimmed(cells[j]);
    }
  }

  /** When the first and last cells are not blank the outer trim changes
      nothing: the line is the trimmed cells joined with single spaces,
      one separator per gap, blank interior cells included. */
  lemma LineOfNonBlankEnds(row: seq<string>)
    requires |row| >= 1 && Trim(row[0]) != "" && Trim(row[|row| - 1]) != ""
    ensures Line(row) == Join(TrimCells(row), " ")
  {
    var cells := TrimCells(row);
    JoinOfTrimmed(cells, " ");
    TrimOfTrimmed(Join(cells, " "));
  }

  predicate NonEmpty(line: string) {
    line != ""
  }

  /** `values.map(Line)`. */
  function AllLines(values: RawTable): (ls: seq<string>)
    ensures |ls| == |values|
    ensures forall i :: 0 <= i < |values| ==> ls[i] == Line(values[i])
  {
    seq(|values|, i requires 0 <= i < |values| => Line(values[i]))
  }

  /** Positions of the rows that contribute a line, in order. */
  function LineIndices(values: RawTable): seq<nat> {
    KeptIndices(AllLines(values), NonEmpty)
  }

  /** `values.map(Line).filter(line => line.length > 0)`: the non-empty
      lines, one per contributing row, in row order. */
  function Lines(values: RawTable): (ls: seq<string>)
    ensures |ls| == |LineIndices(values)|
    ensures forall k :: 0 <= k < |ls| ==>
      LineIndices(values)[k] < |values| && ls[k] == Line(values[LineIndices(values)[k]])
    ensures forall k :: 0 <= k < |ls| ==> ls[k] != "" && Trimmed(ls[k])
  {
    Filter(AllLines(values), NonEmpty)
  }

  /** The contributing rows are exactly the rows with text, in order. */
  lemma LineIndicesAreRowsWithText(values: RawTable)
    ensures StrictlyIncreasing(LineIndices(values))
    ensures forall i :: 0 <= i < |values| ==> (HasText(values[i]) <==> i in LineIndices(values))
  {
    var ix := LineIndices(values);
    forall i | 0 <= i < |values| && i in ix
      ensures HasText(values[i])
    {
      var k :| 0 <= k < |ix| && ix[k] == i;
    }
  }

  /** The exported text: "" for an empty table, otherwise the lines joined
      with "\n". It is "" exactly when no row has text, and it never starts
      or ends with whitespace, so in particular never with a newline. */
  function Export(values: RawTable): (text: string)
    ensures |values| == 0 ==> text == ""
    ensures text == "" <==> forall i :: 0 <= i < |values| ==> !HasText(values[i])
    ensures Trimmed(text)
  {
    var ls := Lines(values);
    NoBlankLinesIffNoText(values);
    if |values| == 0 || |ls| == 0 then ""
    else
      JoinOfTrimmed(ls, "\n");
      Join(ls, "\n")
  }

  /** The text for a response: one without values exports "". */
  function ExportResponse(values: Option<RawTable>): (text: string)
    ensures values.None? ==> text == ""
    ensures values.Some? ==> text == Export(values.value)
  {
    Export(ValuesOrEmpty(values))
  }

  /** No line survives exactly when no row has text. */
  lemma NoBlankLinesIffNoText(values: RawTable)
    ensures Lines(values) == [] <==> forall i :: 0 <= i < |values| ==> !HasText(values[i])
  {
    var all := AllLines(values);
    NoneKept(all, NonEmpty);
    assert forall i :: 0 <= i < |values| ==> (NonEmpty(all[i]) <==> HasText(values[i]));
  }

  /** The cells hold no line break of their own. */
  predicate SingleLineCells(values: RawTable) {
    forall i, j :: 0 <= i < |values| && 0 <= j < |values[i]| ==> '\n' !in values[i][j]
  }

  lemma LineIsSingleLine(row: seq<string>)
    requires forall j :: 0 <= j < |row| ==> '\n' !in row[j]
    ensures '\n' !in Line(row)
  {
    JoinExcludes(TrimCells(row), " ", '\n');
  }

  /** With single-line cells, splitting a non-empty export at "\n" gives
      back exactly its lines (an empty export has none), and no two
      newlines are adjacent: no blank line. */
  lemma ExportSplitsIntoLines(values: RawTable)
    requires SingleLineCells(values)
    ensures Export(values) != "" ==> Split(Export(values), '\n') == Lines(values)
    ensures Export(values) == "" ==> Lines(values) == []
    ensures var t := Export(values); forall i :: 0 <= i < |t| - 1 ==> !(t[i] == '\n' && t[i + 1] == '\n')
  {
    NoBlankLinesIffNoText(values);
    var ls := Lines(values);
    if ls == [] {
      return;
    }
    var ix := LineIndices(values);
    forall k | 0 <= k < |ls|
      ensures '\n' !in ls[k]
    {
      LineIsSingleLine(values[ix[k]]);
    }
    SplitJoin(ls, '\n');
    JoinNoDoubleSeparator(ls, '\n');
  }

  /** What the page shows: the text, or "No data" with Copy disabled. */
  datatype View = View(shown: string, copyEnabled: bool)

  function Show(text: string): (v: View)
    ensures v.copyEnabled <==> text != ""
    ensures v.shown == (if text == "" then "No data" else text)
  {
    View(if text == "" then "No data" else text, text != "")
  }

  /** Copy is disabled and "No data" shown exactly when no row has text. */
  lemma CopyDisabledIffBlank(values: RawTable)
    ensures var v := Show(Export(values));
      (!v.copyEnabled <==> forall i :: 0 <= i < |values| ==> !HasText(values[i]))
      && (!v.copyEnabled ==> v.shown == "No data")
  {
  }

  /** Cells that are already trimmed are left alone. */
  lemma TrimCellsOfTrimmed(row: seq<string>)
    requires forall j :: 0 <= j < |row| ==> Trimmed(row[j])
    ensures TrimCells(row) == row
  {
    forall j | 0 <= j < |row|
      ensures TrimCells(row)[j] == row[j]
    {
      TrimOfTrimmed(row[j]);
    }
  }

  /** Empty interior cells keep their separators. */
  lemma InteriorBlankCell()
    ensures Line(["A", "", "B"]) == "A  B"
  {
    var row := ["A", "", "B"];
    assert Trimmed(row[0]) && Trimmed(row[1]) && Trimmed(row[2]);
    TrimCellsOfTrimmed(row);
    assert Join(row[1..], " ") == " B" by {
      assert row[1..][1..] == ["B"];
    }
    assert Join(row, " ") == "A  B";
    TrimOfTrimmed("A  B");
  }

  lemma TwoCellLine()
    ensures Line(["A", "B"]) == "A B"
  {
    var row := ["A", "B"];
    assert Trimmed(row[0]) && Trimmed(row[1]);
    TrimCellsOfTrimmed(row);
    assert row[1..] == ["B"];
    assert Join(row, " ") == "A B";
    TrimOfTrimmed("A B");
  }

  lemma BlankLine()
    ensures Line(["", " "]) == ""
  {
    var row := ["", " "];
    var blank := " ";
    assert forall i :: 0 <= i < |blank| ==> IsSpace(blank[i]);
    assert Trim(blank) == "";
    var cells := TrimCells(row);
    assert cells == ["", ""];
    assert Join(cells, " ") == blank;
  }

  lemma OneCellLine()
    ensures Line(["C"]) == "C"
  {
    var row := ["C"];
    assert Trimmed(row[0]);
    TrimCellsOfTrimmed(row);
    TrimOfTrimmed("C");
  }

  lemma SampleAllLines()
    ensures var all := AllLines([["A", "B"], ["", " "], ["C"]]);
      |all| == 3 && all[0] == "A B" && all[1] == "" && all[2] == "C"
  {
    var values := [["A", "B"], ["", " "], ["C"]];
    assert values[0] == ["A", "B"] && values[1] == ["", " "] && values[2] == ["C"];
    TwoCellLine();
    BlankLine();
    OneCellLine();
  }

  /** The filter step of SampleLines, with the three sample lines as a
      pinned parameter. */
  lemma SampleFilter(all: seq<string>)
    requires |all| == 3 && all[0] == "A B" && all[1] == "" && all[2] == "C"
    ensures Filter(all, NonEmpty) == ["A B", "C"]
  {
    assert Filter(all[..1], NonEmpty) == ["A B"] by {
      assert all[..1][..0] == [];
    }
    assert Filter(all[..2], NonEmpty) == ["A B"] by {
      assert all[..2][..1] == all[..1];
    }
    assert all[..2] == all[..|all| - 1];
  }

  lemma SampleLines()
    ensures Lines([["A", "B"], ["", " "], ["C"]]) == ["A B", "C"]
  {
    SampleAllLines();
    SampleFilter(AllLines([["A", "B"], ["", " "], ["C"]]));
  }

  /** A row of blanks drops out; the rest keep their order. */
  lemma BlankRowDropped()
    ensures Export([["A", "B"], ["", " "], ["C"]]) == "A B" + "\n" + "C"
  {
    var ls := ["A B", "C"];
    SampleLines();
    assert ls[1..] == ["C"];
    assert Join(ls, "\n") == "A B" + "\n" + Join(["C"], "\n");
  }
}
