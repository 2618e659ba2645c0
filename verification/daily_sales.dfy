/** The daily sales entry grid: thirty rows of five text fields, loaded from
    the sheet's `A2:E31` block, edited one cell at a time, cleared, and
    submitted as the list of rows that hold anything. */
module DailySales {
  import opened Optional
  import opened Decimal
  import opened Seqs
  import opened Gateway

  /** The grid never grows or shrinks. */
  const GridSize: nat := 30

  /** The block the grid is loaded from: columns A to E of rows 2 to 31. */
  const GridRange: string := "A2:E31"

  const TimeOptions: seq<string> := ["HH", "D", "LN"]
  const PaymentOptions: seq<string> := ["Cash", "PPay", "Master", "Visa"]

  datatype SalesRow = SalesRow(ord: string, time: string, amount: string, payment: string, covers: string)

  /** The record keys an edit can name. */
  datatype Field = Ord | Time | Amount | Payment | Covers

  const EmptyRow: SalesRow := SalesRow("", "", "", "", "")

  function Get(r: SalesRow, f: Field): string {
    match f
    case Ord => r.ord
    case Time => r.time
    case Amount => r.amount
    case Payment => r.payment
    case Covers => r.covers
  }

  /** `{ ...r, [f]: v }`. */
  function Set(r: SalesRow, f: Field, v: string): (r': SalesRow)
    ensures Get(r', f) == v
    ensures forall h :: h != f ==> Get(r', h) == Get(r, h)
  {
    match f
    case Ord => r.(ord := v)
    case Time => r.(time := v)
    case Amount => r.(amount := v)
    case Payment => r.(payment := v)
    case Covers => r.(covers := v)
  }

  /** A row is filled when any of its fields is a non-empty string (the
      only falsy string in JavaScript is ""). */
  predicate IsFilled(r: SalesRow)
    ensures IsFilled(r) <==> exists f :: Get(r, f) != ""
  {
    assert Get(r, Ord) == r.ord && Get(r, Time) == r.time && Get(r, Amount) == r.amount;
    assert Get(r, Payment) == r.payment && Get(r, Covers) == r.covers;
    r.ord != "" || r.time != "" || r.amount != "" || r.payment != "" || r.covers != ""
  }

  predicate AllowedTime(v: string) {
    v == "" || v in TimeOptions
  }

  predicate AllowedPayment(v: string) {
    v == "" || v in PaymentOptions
  }

  /** The grid invariant: thirty rows whose select fields hold an option or
      nothing. */
  predicate ValidGrid(g: seq<SalesRow>) {
    |g| == GridSize && forall i :: 0 <= i < |g| ==> AllowedTime(g[i].time) && AllowedPayment(g[i].payment)
  }

  /** The grid a page starts with, and what Clear puts back. */
  function EmptyGrid(): (g: seq<SalesRow>)
    ensures ValidGrid(g)
    ensures forall i :: 0 <= i < |g| ==> !IsFilled(g[i])
  {
    seq(GridSize, _ => EmptyRow)
  }

  // ---------------------------------------------------------------- load

  /** `(vals[i] || [])[j] || ""`: a missing row or cell reads as "". */
  function Cell(raw: RawTable, i: nat, j: nat): string {
    if i < |raw| && j < |raw[i]| then raw[i][j] else ""
  }

  /** `options.includes(v) ? v : ""`. */
  function KeepIfOption(v: string, options: seq<string>): string {
    if v in options then v else ""
  }

  function LoadRow(raw: RawTable, i: nat): SalesRow {
    SalesRow(Cell(raw, i, 0), KeepIfOption(Cell(raw, i, 1), TimeOptions), Cell(raw, i, 2),
             KeepIfOption(Cell(raw, i, 3), PaymentOptions), Cell(raw, i, 4))
  }

  /** The projection of a fetched table onto the grid. It is total: any
      table yields thirty rows; ord, amount and covers are columns 0, 2 and
      4; time and payment (columns 1 and 3) survive only when they are
      exactly one of the options, and are blanked otherwise. */
  function Load(raw: RawTable): (g: seq<SalesRow>)
    ensures ValidGrid(g)
    ensures forall i :: 0 <= i < GridSize ==>
      g[i].ord == Cell(raw, i, 0) && g[i].amount == Cell(raw, i, 2) && g[i].covers == Cell(raw, i, 4)
    ensures forall i :: 0 <= i < GridSize ==>
      (g[i].time != "" <==> Cell(raw, i, 1) in TimeOptions) &&
      (g[i].time != "" ==> g[i].time == Cell(raw, i, 1))
    ensures forall i :: 0 <= i < GridSize ==>
      (g[i].payment != "" <==> Cell(raw, i, 3) in PaymentOptions) &&
      (g[i].payment != "" ==> g[i].payment == Cell(raw, i, 3))
    ensures forall i :: |raw| <= i < GridSize ==> g[i] == EmptyRow
  {
    seq(GridSize, i requires 0 <= i < GridSize => LoadRow(raw, i))
  }

  /** The read the page issues once a sheet is selected; without a
      selected sheet it loads nothing. */
  function LoadFetch(sheet: Option<string>): (f: Option<Fetch>)
    ensures sheet.None? || sheet.value == "" ==> f.None?
    ensures sheet.Some? && sheet.value != "" ==> f == Some(Fetch(sheet.value, GridRange))
  {
    if sheet.None? || sheet.value == "" then None else Some(Fetch(sheet.value, GridRange))
  }

  /** `"A2:E" + (30 + 1)`: the range spans one sheet row per grid row,
      below the header row. */
  lemma GridRangeSpansGrid()
    ensures GridRange == "A2:E" + NatToString(GridSize + 1)
  {
    assert NatToString(3) == "3" && NatToString(1) == "1";
  }

  /** `res.values || []` loaded: a response without values gives the
      empty grid. */
  function LoadResponse(values: Option<RawTable>): (g: seq<SalesRow>)
    ensures values.None? ==> g == EmptyGrid()
    ensures values.Some? ==> g == Load(values.value)
  {
    var g := Load(ValuesOrEmpty(values));
    assert values.None? ==> g == EmptyGrid();
    g
  }

  /** Only the first thirty rows and first five columns of a table matter:
      tables that agree there load to the same grid. */
  lemma LoadReadsOnlyTheBlock(raw1: RawTable, raw2: RawTable)
    requires forall i, j :: 0 <= i < GridSize && 0 <= j < 5 ==> Cell(raw1, i, j) == Cell(raw2, i, j)
    ensures Load(raw1) == Load(raw2)
  {
    forall i | 0 <= i < GridSize
      ensures Load(raw1)[i] == Load(raw2)[i]
    {
      assert Cell(raw1, i, 1) == Cell(raw2, i, 1);
      assert Cell(raw1, i, 3) == Cell(raw2, i, 3);
    }
  }

  /** The grid's cells laid out as a table, one row per grid row, columns
      in record order. */
  function AsTable(g: seq<SalesRow>): (raw: RawTable)
    ensures |raw| == |g|
    ensures forall i :: 0 <= i < |g| ==> |raw[i]| == 5
  {
    seq(|g|, i requires 0 <= i < |g| => [g[i].ord, g[i].time, g[i].amount, g[i].payment, g[i].covers])
  }

  /** Loading is the identity on a grid that already satisfies the
      invariant: a valid grid laid out as a table loads back unchanged. */
  lemma LoadAsTable(g: seq<SalesRow>)
    requires ValidGrid(g)
    ensures Load(AsTable(g)) == g
  {
    var raw := AsTable(g);
    forall i | 0 <= i < GridSize
      ensures Load(raw)[i] == g[i]
    {
      assert Cell(raw, i, 1) == g[i].time;
      assert Cell(raw, i, 3) == g[i].payment;
    }
  }

  /** Loading twice through the table layout is loading once. */
  lemma LoadIdempotent(raw: RawTable)
    ensures Load(AsTable(Load(raw))) == Load(raw)
  {
    LoadAsTable(Load(raw));
  }

  // ---------------------------------------------------------------- edit

  /** `onChange(idx, key, value)`: field `f` of row `idx` becomes `v`;
      nothing else changes. */
  function Edit(g: seq<SalesRow>, idx: nat, f: Field, v: string): (g': seq<SalesRow>)
    requires idx < |g|
    ensures |g'| == |g|
    ensures Get(g'[idx], f) == v
    ensures forall h :: h != f ==> Get(g'[idx], h) == Get(g[idx], h)
    ensures forall j :: 0 <= j < |g| && j != idx ==> g'[j] == g[j]
  {
    g[idx := Set(g[idx], f, v)]
  }

  /** An edit that puts an option (or nothing) into a select field keeps
      the grid invariant; free-text fields can take any value. */
  lemma EditKeepsValid(g: seq<SalesRow>, idx: nat, f: Field, v: string)
    requires ValidGrid(g) && idx < |g|
    requires f == Time ==> AllowedTime(v)
    requires f == Payment ==> AllowedPayment(v)
    ensures ValidGrid(Edit(g, idx, f, v))
  {
    var g' := Edit(g, idx, f, v);
    assert g'[idx].time == Get(g'[idx], Time);
    assert g'[idx].payment == Get(g'[idx], Payment);
    assert g[idx].time == Get(g[idx], Time);
    assert g[idx].payment == Get(g[idx], Payment);
  }

  // ----------------------------------------------------- visible rows

  /** The greatest index of a filled row, or -1 when none is filled. */
  function LastFilledIndex(g: seq<SalesRow>): (r: int)
    ensures -1 <= r < |g|
    ensures r >= 0 ==> IsFilled(g[r])
    ensures forall j :: r < j < |g| ==> !IsFilled(g[j])
  {
    if |g| == 0 then -1
    else if IsFilled(g[|g| - 1]) then |g| - 1
    else LastFilledIndex(g[..|g| - 1])
  }

  /** The page's forward scan: remember the index of each filled row met. */
  method ScanLastFilledIndex(g: seq<SalesRow>) returns (idx: int)
    ensures idx == LastFilledIndex(g)
  {
    idx := -1;
    var i := 0;
    while i < |g|
      invariant 0 <= i <= |g|
      invariant idx == LastFilledIndex(g[..i])
    {
      if IsFilled(g[i]) {
        idx := i;
      }
      assert g[..i + 1][..i] == g[..i];
      i := i + 1;
    }
    assert g[..|g|] == g;
  }

  /** Where the Clear/Save actions go: just after the last filled row. */
  function InsertionIndex(g: seq<SalesRow>): (r: int)
    ensures 0 <= r <= |g|
    ensures r > 0 ==> IsFilled(g[r - 1])
    ensures forall j :: r <= j < |g| ==> !IsFilled(g[j])
  {
    LastFilledIndex(g) + 1
  }

  /** `max(1, min(rows.length, lastFilledIndex + 2))`: at least one row is
      shown, every filled row is shown, and below the last filled row
      exactly one empty row is shown unless the grid is full. */
  function VisibleCount(g: seq<SalesRow>): (n: int)
    ensures 1 <= n
    ensures |g| > 0 ==> n <= |g|
    ensures forall j :: 0 <= j < |g| && IsFilled(g[j]) ==> j < n
    ensures LastFilledIndex(g) < |g| - 1 ==> n == LastFilledIndex(g) + 2 && !IsFilled(g[n - 1])
    ensures LastFilledIndex(g) == |g| - 1 && |g| > 0 ==> n == |g|
  {
    var last := LastFilledIndex(g);
    var m := if |g| < last + 2 then |g| else last + 2;
    if m < 1 then 1 else m
  }

  /** `rows.slice(0, visibleCount).length`: the rows the render loop
      walks. The slice never reaches past the grid, so an empty grid shows
      no row even though the visible count is 1. */
  function ShownCount(g: seq<SalesRow>): (n: nat)
    ensures n <= |g|
    ensures |g| > 0 ==> n == VisibleCount(g)
    ensures |g| == 0 ==> n == 0
  {
    if VisibleCount(g) <= |g| then VisibleCount(g) else |g|
  }

  /** The actions are rendered (before the row at the insertion index)
      exactly when that row is among the rows walked, which is exactly
      when the grid has a last row and it is empty. */
  predicate ActionsShown(g: seq<SalesRow>)
    ensures ActionsShown(g) <==> |g| > 0 && !IsFilled(g[|g| - 1])
    ensures ActionsShown(g) <==> LastFilledIndex(g) < |g| - 1
  {
    InsertionIndex(g) < ShownCount(g)
  }

  /** One item of the rendered grid body. */
  datatype GridItem = Actions | Entry(index: nat)

  /** Entry items for rows `k` up to (not including) `n`. */
  function Entries(k: nat, n: nat): (r: seq<GridItem>)
    requires k <= n
    ensures |r| == n - k
    ensures forall i :: 0 <= i < |r| ==> r[i] == Entry(k + i)
  {
    seq(n - k, i requires 0 <= i < n - k => Entry(k + i))
  }

  /** The page's render loop from row `k`: before each row, the actions if
      this row is the insertion index. */
  function ItemsFrom(k: nat, n: nat, ins: nat): seq<GridItem>
    decreases n - k
  {
    if k >= n then []
    else (if k == ins then [Actions] else []) + [Entry(k)] + ItemsFrom(k + 1, n, ins)
  }

  /** The rendered body: the visible rows in order, with the actions
      inserted before the row at the insertion index if it is visible. */
  function RenderedItems(g: seq<SalesRow>): seq<GridItem> {
    ItemsFrom(0, ShownCount(g), InsertionIndex(g))
  }

  lemma {:induction false} ItemsFromShape(k: nat, n: nat, ins: nat)
    requires k <= n
    ensures ItemsFrom(k, n, ins) ==
      if k <= ins < n then Entries(k, ins) + [Actions] + Entries(ins, n) else Entries(k, n)
    decreases n - k
  {
    if k < n {
      ItemsFromShape(k + 1, n, ins);
      if k == ins {
        assert Entries(k, ins) == [];
        assert [Entry(k)] + Entries(k + 1, n) == Entries(k, n);
      } else if k < ins < n {
        assert [Entry(k)] + Entries(k + 1, ins) == Entries(k, ins);
      } else {
        assert [Entry(k)] + Entries(k + 1, n) == Entries(k, n);
      }
    }
  }

  /** The rendered body is the shown rows 0 .. ShownCount-1 in order;
      the actions appear once, right before the row at the insertion
      index, when they are shown at all, and never otherwise. */
  lemma RenderedLayout(g: seq<SalesRow>)
    ensures ActionsShown(g) ==>
              RenderedItems(g) == Entries(0, InsertionIndex(g)) + [Actions] + Entries(InsertionIndex(g), ShownCount(g))
    ensures !ActionsShown(g) ==> RenderedItems(g) == Entries(0, ShownCount(g))
    ensures Actions in RenderedItems(g) <==> ActionsShown(g)
  {
    ItemsFromShape(0, ShownCount(g), InsertionIndex(g));
    var items := RenderedItems(g);
    if ActionsShown(g) {
      assert items[InsertionIndex(g)] == Actions;
    } else {
      assert forall i :: 0 <= i < |items| ==> items[i].Entry?;
    }
  }

  /** As written, a grid whose last row is filled renders no Clear/Save
      actions at all: the insertion index equals the visible count, and the
      render loop never reaches it. */
  lemma FullGridHidesActions(g: seq<SalesRow>)
    requires |g| == GridSize && IsFilled(g[GridSize - 1])
    ensures Actions !in RenderedItems(g)
  {
    RenderedLayout(g);
  }

  /** The evidently intended layout: the actions always appear once, right
      after the last filled row, even when that row is the grid's last. */
  function RenderedItemsWithActions(g: seq<SalesRow>): (items: seq<GridItem>)
    ensures items == Entries(0, InsertionIndex(g)) + [Actions] + Entries(InsertionIndex(g), ShownCount(g))
  {
    RenderedLayout(g);
    if ActionsShown(g) then RenderedItems(g) else RenderedItems(g) + [Actions]
  }

  /** In the corrected layout the Save action is always reachable, and
      nothing but the actions is added to the visible rows, which keep
      their order. */
  lemma ActionsAlwaysRendered(g: seq<SalesRow>)
    ensures Actions in RenderedItemsWithActions(g)
    ensures RenderedItemsWithActions(g)[InsertionIndex(g)] == Actions
    ensures |RenderedItemsWithActions(g)| == ShownCount(g) + 1
    ensures forall i :: 0 <= i < |RenderedItemsWithActions(g)| && RenderedItemsWithActions(g)[i] != Actions ==>
      RenderedItemsWithActions(g)[i] == Entry(if i < InsertionIndex(g) then i else i - 1)
  {
    SplicedActions(InsertionIndex(g), ShownCount(g));
  }

  /** Rows 0 .. n-1 with the actions spliced in at `ins`: one item more
      than rows, the actions at `ins`, each row shifted past them by one. */
  lemma SplicedActions(ins: nat, n: nat)
    requires ins <= n
    ensures var items := Entries(0, ins) + [Actions] + Entries(ins, n);
      && |items| == n + 1
      && items[ins] == Actions
      && Actions in items
      && forall i :: 0 <= i < |items| && items[i] != Actions ==>
           items[i] == Entry(if i < ins then i else i - 1)
  {
    var items := Entries(0, ins) + [Actions] + Entries(ins, n);
    forall i | 0 <= i < |items| && items[i] != Actions
      ensures items[i] == Entry(if i < ins then i else i - 1)
    {
      if i < ins {
        assert items[i] == Entries(0, ins)[i];
      } else if i > ins {
        assert items[i] == Entries(ins, n)[i - ins - 1];
      }
    }
    assert items[ins] == Actions;
  }

  /** With the first `m` rows filled and the rest empty, the last filled
      index is m-1, m+1 rows are visible and the actions sit at m. */
  lemma FilledPrefixLayout(g: seq<SalesRow>, m: nat)
    requires |g| == GridSize && 0 <= m < GridSize
    requires forall i :: 0 <= i < m ==> IsFilled(g[i])
    requires forall i :: m <= i < |g| ==> !IsFilled(g[i])
    ensures LastFilledIndex(g) == m - 1
    ensures VisibleCount(g) == m + 1
    ensures InsertionIndex(g) == m && ActionsShown(g)
  {
    var last := LastFilledIndex(g);
    if m > 0 {
      assert IsFilled(g[m - 1]);
    }
  }

  // ---------------------------------------------------------------- save

  /** `{ ...r, ord: r.ord || String(i + 1) }`: an empty order number
      becomes the row's 1-based position. */
  function WithDefaultOrd(r: SalesRow, i: nat): SalesRow {
    r.(ord := if r.ord == "" then NatToString(i + 1) else r.ord)
  }

  /** The grid positions of the filled rows, in order. */
  function FilledIndices(g: seq<SalesRow>): seq<nat> {
    KeptIndices(g, IsFilled)
  }

  /** The `reduce` of onSave: the filled rows, in grid order, each with its
      order number defaulted to its position. */
  function RowsToSave(g: seq<SalesRow>): (rows: seq<SalesRow>)
    ensures |rows| == |FilledIndices(g)|
    ensures forall k :: 0 <= k < |rows| ==>
      rows[k] == WithDefaultOrd(g[FilledIndices(g)[k]], FilledIndices(g)[k])
  {
    if |g| == 0 then []
    else
      var prefix := g[..|g| - 1];
      var i := |g| - 1;
      var rows := RowsToSave(prefix);
      assert forall k :: 0 <= k < |FilledIndices(prefix)| ==>
        g[FilledIndices(prefix)[k]] == prefix[FilledIndices(prefix)[k]];
      rows + (if IsFilled(g[i]) then [WithDefaultOrd(g[i], i)] else [])
  }

  /** What the saved list means row by row: each entry comes from a filled
      grid row, later entries from later rows, every filled row is there;
      its time, amount, payment and covers are unchanged, its order number
      is kept when given and otherwise is the row's 1-based position. */
  lemma SavedRows(g: seq<SalesRow>)
    ensures var ix := FilledIndices(g); var rows := RowsToSave(g);
      && StrictlyIncreasing(ix)
      && (forall i :: 0 <= i < |g| ==> (IsFilled(g[i]) <==> i in ix))
      && (forall k :: 0 <= k < |rows| ==>
            && ix[k] < |g|
            && IsFilled(g[ix[k]])
            && rows[k].ord != ""
            && rows[k].time == g[ix[k]].time
            && rows[k].amount == g[ix[k]].amount
            && rows[k].payment == g[ix[k]].payment
            && rows[k].covers == g[ix[k]].covers
            && (g[ix[k]].ord != "" ==> rows[k].ord == g[ix[k]].ord)
            && (g[ix[k]].ord == "" ==> AllDigits(rows[k].ord) && Value(rows[k].ord) == ix[k] + 1))
  {
    var ix := FilledIndices(g);
    var rows := RowsToSave(g);
    forall k | 0 <= k < |rows|
      ensures g[ix[k]].ord == "" ==> Value(rows[k].ord) == ix[k] + 1
    {
      assert rows[k] == WithDefaultOrd(g[ix[k]], ix[k]);
      if g[ix[k]].ord == "" {
        ValueOfNatToString(ix[k] + 1);
      }
    }
  }

  /** What the Save button hands the gateway. */
  datatype SaveRequest = NothingToSave | Submit(rows: seq<SalesRow>, sheet: Option<string>)

  /** onSave: with no filled row the gateway is not called ("No rows to
      save."); otherwise the saved rows go out with the selected sheet. */
  function Save(g: seq<SalesRow>, sheet: Option<string>): (r: SaveRequest)
    ensures r.NothingToSave? <==> forall i :: 0 <= i < |g| ==> !IsFilled(g[i])
    ensures r.Submit? ==> r.rows == RowsToSave(g) && |r.rows| > 0 && r.sheet == sheet
  {
    NoneKept(g, IsFilled);
    var rows := RowsToSave(g);
    if |rows| == 0 then NothingToSave else Submit(rows, sheet)
  }

  /** After Clear: nothing is filled, one row is visible, the actions come
      first, and saving does not call the gateway. */
  lemma ClearResets(sheet: Option<string>)
    ensures var g := EmptyGrid();
      && LastFilledIndex(g) == -1
      && VisibleCount(g) == 1
      && InsertionIndex(g) == 0
      && RenderedItems(g) == [Actions, Entry(0)]
      && Save(g, sheet) == NothingToSave
  {
    var g := EmptyGrid();
    RenderedLayout(g);
    assert Entries(0, 0) + [Actions] + Entries(0, 1) == [Actions, Entry(0)];
  }
}
