# Daily sales entry and end-of-day views — a Dafny model

This project models the pure logic inside a small restaurant data-entry app. The app has three pages that read and write one spreadsheet tab per day. The model covers:

- **Sheet identifier** (`sheet_id.dfy`): a day's tab is named `ddMMyy`, for example `051025` for 5 October 2025. This name is also the route segment. The model encodes a date and decodes it again, and computes which sheet the entry page picks from its route.
- **Entry grid** (`daily_sales.dfy`): a fixed grid of 30 rows. Each row has the fields order number, time block, amount, payment type and covers. The model covers:
  - loading the grid from the fetched `A2:E31` block, with allow-listed time blocks and payment types;
  - single-cell edits and Clear;
  - which rows are visible, and where the Clear/Save actions are inserted;
  - the list of rows Save submits.
- **End-of-day report** (`eod_report.dfy`): the fetched `G1:L26` block becomes a table. Row 0 is the header. Every other row is padded to the header's width and classed as a section, shaded or plain row.
- **WhatsApp export** (`whatsapp_export.dfy`): the fetched `G28:I62` block becomes plain text. Cells are trimmed and space-joined, blank lines are dropped, and the lines are newline-joined. The model also covers when Copy is enabled.
- **Bottom navigation** (`bottom_nav.dfy`): the sheet segment read from the pathname with `/\/(example|whatsapp)\/?([^\/#?]+)?/`, and the WhatsApp link built from it.

Shared pieces:

- `text.dfy` has JavaScript `trim` (the exact ECMAScript whitespace set), ASCII lower-casing, `join` and single-character `split`.
- `decimal.dfy` has `String(n)` and two-digit padding.
- `seqs.dfy` has order-preserving filtering.
- `config.dfy` has the default sheet fallback.
- `gateway.dfy` has the raw table type.
- `optional.dfy` has an option type.

The environment variable `VITE_SHEET_NAME`, today's date and the fetched cell values are plain parameters. Nothing here performs I/O.

## Model

| member | source | states |
|---|---|---|
| SheetId.Encode | src/pages/DailySales.tsx:24 | a valid date's identifier is exactly six decimal digits |
| SheetId.Decode | src/pages/DailySales.tsx:22 | only a six-digit string can decode, and what it decodes to has a day of 1-31, a month of 1-12 and a two-digit year |
| SheetId.DecodeEncode | src/pages/DailySales.tsx:22-24 | decoding the `ddMMyy` identifier of a date gives back its day, its month and its year modulo 100 |
| SheetId.EncodeDecode | src/pages/DailySales.tsx:22-24 | every identifier that decodes is the encoding of what it decodes to, so each short date has exactly one spelling |
| SheetId.SelectedSheet | src/pages/DailySales.tsx:21-24 | without a route sheet the entry page uses today's identifier; a well-formed route sheet is used unchanged; a malformed one yields no sheet |
| SheetId.FallbackIsSheetId | src/pages/Example.tsx:6 | the literal fallback "051025" is the identifier of 5 October (20)25 |
| Config.DefaultSheet | src/pages/Whatsapp.tsx:6 | the default sheet is never empty: it is the environment value when set and non-empty, else "051025" |
| Config.SheetOrDefault | src/pages/Example.tsx:15 | a view's sheet is the route's sheet when present and non-empty, else the default, and never empty |
| Gateway.ValuesOrEmpty | src/pages/DailySales.tsx:35 | a response without `values` reads as the empty table; otherwise the table is the response's values |
| DailySales.LoadFetch | src/pages/DailySales.tsx:31-34 | without a selected sheet nothing is fetched; otherwise the selected sheet's grid range is fetched |
| DailySales.GridRangeSpansGrid | src/pages/DailySales.tsx:34 | the fetched range is `A2:E` followed by the decimal numeral of 30 + 1, i.e. one spreadsheet row per grid row below the header |
| DailySales.LoadResponse | src/pages/DailySales.tsx:35-44 | a response without `values` loads the empty grid; otherwise the grid is loaded from the values |
| DailySales.IsFilled | src/pages/DailySales.tsx:88-89 | a row is filled iff at least one of its five fields is non-empty |
| DailySales.Load | src/pages/DailySales.tsx:36-44 | any table loads to exactly 30 valid rows; ord, amount and covers come from columns 0, 2 and 4, with missing cells as ""; time and payment are kept iff they are exactly an allowed option, else ""; rows past the table are empty |
| DailySales.LoadReadsOnlyTheBlock | src/pages/DailySales.tsx:36-44 | rows past index 29 and columns past 4 are ignored: tables that agree on that block load the same grid |
| DailySales.LoadAsTable | src/pages/DailySales.tsx:36-44 | a grid that satisfies the invariant, laid out as a table, loads back unchanged |
| DailySales.LoadIdempotent | src/pages/DailySales.tsx:36-44 | laying out a loaded grid and loading it again changes nothing |
| DailySales.EmptyGrid | src/pages/DailySales.tsx:191 | Clear yields 30 rows, none filled, satisfying the grid invariant |
| DailySales.ClearResets | src/pages/DailySales.tsx:191 | after Clear nothing is filled, one row is visible, the actions come first, and Save does not call the gateway |
| DailySales.Edit | src/pages/DailySales.tsx:60-66 | an edit sets exactly one field of one row; the length, every other row and every other field are unchanged |
| DailySales.EditKeepsValid | src/pages/DailySales.tsx:213-237 | an edit that puts an offered option into time or payment keeps the grid invariant |
| DailySales.LastFilledIndex | src/pages/DailySales.tsx:91-97 | the result is the greatest filled index: that row is filled and no later row is; it is -1 iff no row is filled |
| DailySales.ScanLastFilledIndex | src/pages/DailySales.tsx:91-97 | the page's forward scan computes that greatest filled index |
| DailySales.InsertionIndex | src/pages/DailySales.tsx:99 | the insertion index lies between 0 and the grid length, follows a filled row (unless it is 0), and every row from it on is empty |
| DailySales.VisibleCount | src/pages/DailySales.tsx:100 | between 1 and 30 rows are visible; every filled row is visible; exactly one empty row shows below the last filled row unless that row is the last |
| DailySales.ShownCount | src/pages/DailySales.tsx:182 | the number of rows `rows.slice(0, visibleCount)` renders: never more than the grid, the visible count for a non-empty grid, and 0 for an empty one |
| DailySales.ActionsShown | src/pages/DailySales.tsx:182-184 | the actions are rendered among the shown rows iff the grid is non-empty and its last row is empty, i.e. iff the last filled index is below the last row |
| DailySales.RenderedLayout | src/pages/DailySales.tsx:182-201 | the body shows the rows of `rows.slice(0, visibleCount)` in order, and shows the actions once, before the insertion row, exactly when they are shown at all |
| DailySales.FilledPrefixLayout | src/pages/DailySales.tsx:91-100 | with rows 0..m-1 filled and the rest empty: the last filled index is m-1, m+1 rows are visible, and the actions sit at m |
| DailySales.FullGridHidesActions | src/pages/DailySales.tsx:182-184 | as written, a grid whose row 29 is filled renders no Clear/Save actions |
| DailySales.RenderedItemsWithActions | src/pages/DailySales.tsx:99 | corrected layout: the visible rows in order with the actions placed at the insertion index, also when that index is 30 |
| DailySales.ActionsAlwaysRendered | src/pages/DailySales.tsx:99 | in the corrected layout the actions always appear, at the insertion index, and nothing else changes |
| DailySales.RowsToSave | src/pages/DailySales.tsx:70-76 | the save list has one entry per filled row, in grid order, each with ord defaulted to its 1-based position |
| DailySales.SavedRows | src/pages/DailySales.tsx:70-76 | the saved entries come from exactly the filled rows, in increasing grid order; time, amount, payment and covers are unchanged; ord is kept when given, else it is the decimal numeral of index+1 |
| DailySales.Save | src/pages/DailySales.tsx:68-81 | the gateway is skipped ("No rows to save.") iff no row is filled; otherwise the non-empty save list is submitted with the selected sheet |
| Decimal.ValueOfNatToString | src/pages/DailySales.tsx:73 | `String(i + 1)` reads back as i+1 |
| EodReport.ReportFetch | src/pages/Example.tsx:15-24 | the report fetches `G1:L26` of the route's sheet when it is present and non-empty, else of the default sheet, so the sheet is never empty |
| EodReport.RenderResponse | src/pages/Example.tsx:25 | a response without `values` renders an empty header and no body; otherwise the values are rendered |
| EodReport.Columns | src/pages/Example.tsx:38 | the column count is the length of row 0, and 0 for an empty table |
| EodReport.SectionIgnoresCase | src/pages/Example.tsx:64-65 | the section test is case-insensitive: a row is a section row iff the lower-cased first cell alone is |
| EodReport.SectionIgnoresLeadingBlanks | src/pages/Example.tsx:64-65 | leading whitespace of the first cell does not matter: a row is a section row iff its first cell with that whitespace removed is |
| EodReport.Classify | src/pages/Example.tsx:64-66 | a row is styled as a section iff it is a section row; a non-section row is shaded iff its body index is even and plain iff it is odd |
| EodReport.RowStyleByPosition | src/pages/Example.tsx:66 | section rows keep their style at every position; non-section rows are never styled as sections and alternate between shaded and plain with period 2 |
| EodReport.Render | src/pages/Example.tsx:38-74 | the header has as many cells as row 0 and equals it; the body is rows 1.. in order; each body row has max(columns, its length) cells, its own cells first and "" after; a row is a section row iff its first cell qualifies, and a non-section row at body index k is shaded iff k is even |
| EodReport.PadRow | src/pages/Example.tsx:69-71 | a rendered row has max(columns, length) cells; its own cells come first, unchanged and never cut off, followed by blanks |
| EodReport.PadRowIdempotent | src/pages/Example.tsx:69-71 | padding a padded row again changes nothing |
| EodReport.BreakdownHeadingIsSection | src/pages/Example.tsx:64-65 | a first cell with leading blanks and capitals that starts with "breakdown" makes a section row |
| EodReport.DailyRevenueHeadingIsSection | src/pages/Example.tsx:64-65 | "DAILY REVENUE" in any case makes a section row |
| EodReport.NonSectionRows | src/pages/Example.tsx:64-65 | an empty row is not a section row; a heading word in a later cell does not count |
| Text.Trim | src/pages/Whatsapp.tsx:41 | the result has no whitespace at either end, and it is empty iff the input is all whitespace |
| Text.TrimKeepsMiddle | src/pages/Whatsapp.tsx:41 | the result is the contiguous middle of the input that starts where the leading whitespace ends, character for character |
| Text.TrimDropsOnlyBlanks | src/pages/Whatsapp.tsx:41 | every character dropped before and after that middle is whitespace |
| Text.TrimLower | src/pages/Example.tsx:65 | trimming and lower-casing commute |
| Text.TrimAfterTrimStart | src/pages/Example.tsx:65 | trimming after removing leading whitespace gives the same result as trimming |
| Text.SplitJoin | src/pages/Whatsapp.tsx:43 | joining pieces free of a separator character and splitting at that character gives the pieces back |
| WhatsappExport.Line | src/pages/Whatsapp.tsx:41 | a row's line never starts or ends with whitespace |
| WhatsappExport.HasTextIffSomeCell | src/pages/Whatsapp.tsx:41-42 | a row yields a line iff at least one of its cells is non-blank after trimming |
| WhatsappExport.LineOfNonBlankEnds | src/pages/Whatsapp.tsx:41 | when the first and last cells are non-blank, a row's line is just its trimmed cells joined by single spaces: the outer trim changes nothing |
| WhatsappExport.InteriorBlankCell | src/pages/Whatsapp.tsx:41 | ["A","","B"] gives "A  B": an empty interior cell keeps its separator |
| WhatsappExport.ExportFetch | src/pages/Whatsapp.tsx:12-24 | the export fetches `G28:I62` of the route's sheet when it is present and non-empty, else of the default sheet, so the sheet is never empty |
| WhatsappExport.ExportResponse | src/pages/Whatsapp.tsx:25-44 | a response without `values` exports ""; otherwise the values are exported |
| WhatsappExport.Lines | src/pages/Whatsapp.tsx:40-42 | the lines are the non-empty, trimmed lines of the contributing rows, in row order |
| WhatsappExport.LineIndicesAreRowsWithText | src/pages/Whatsapp.tsx:40-42 | the contributing rows are exactly the rows whose trimmed join is non-empty, each once, in increasing order |
| WhatsappExport.Export | src/pages/Whatsapp.tsx:38-44 | an empty table exports ""; the text is "" iff no row has text; it never starts or ends with whitespace, so never with a newline |
| WhatsappExport.ExportSplitsIntoLines | src/pages/Whatsapp.tsx:42-43 | with single-line cells, splitting a non-empty text at "\n" gives back exactly the lines, an empty text means there are no lines, and no two newlines are adjacent |
| WhatsappExport.BlankRowDropped | src/pages/Whatsapp.tsx:38-44 | [["A","B"],[""," "],["C"]] exports "A B\nC" |
| WhatsappExport.Show | src/pages/Whatsapp.tsx:69-76 | Copy is enabled iff the text is non-empty; the panel shows the text, or "No data" when it is empty |
| WhatsappExport.CopyDisabledIffBlank | src/pages/Whatsapp.tsx:69-76 | Copy is disabled iff no row has text, and then "No data" is shown |
| BottomNav.SheetSegment | src/components/BottomNav.tsx:7 | a captured segment is non-empty and free of '/', '#' and '?'; without a keyword occurrence nothing is captured; the leftmost occurrence decides |
| BottomNav.CurrentSheet | src/components/BottomNav.tsx:8 | the current sheet is the captured segment, else the configured default, and never empty |
| BottomNav.WhatsappLink | src/components/BottomNav.tsx:43 | the link is "/whatsapp/" followed by the current sheet |
| BottomNav.SegmentAfterWhatsapp | src/components/BottomNav.tsx:7 | "/whatsapp/" + s + a tail that begins with a stop character (or is empty) captures s |
| BottomNav.LinkKeepsSheet | src/components/BottomNav.tsx:43 | when the default is a valid segment, following the WhatsApp link keeps the current sheet |
| BottomNav.SlashOptional | src/components/BottomNav.tsx:7 | "/whatsapp051025" captures "051025" |
| BottomNav.NoWordBoundary | src/components/BottomNav.tsx:7 | "/examples/x" captures "s" |
| BottomNav.NoSegment | src/components/BottomNav.tsx:7-8 | "/whatsapp/" and "/whatsapp?x" capture nothing |
| BottomNav.LeftmostWins | src/components/BottomNav.tsx:7 | "/whatsapp/?q/example/x" captures nothing: the leftmost keyword decides |
| BottomNav.ReportRouteFallsBack | src/components/BottomNav.tsx:7-8 | "/eod-report/051025" has no keyword, so the bar falls back to the default sheet |

## Left out

- HTTP, JSON and URL encoding, and the environment lookup in `src/lib/api.ts`. These are I/O and configuration. The fetched `values` and the environment value are parameters.
- React effects, loading flags, the `cancelled` guard against stale responses, and the 10-row loading skeleton. These are UI lifecycle, not data logic.
- Toasts, including the "404" / "sheet not found" text check on load errors. These are notifications built around a foreign error string.
- Clipboard writing and its `execCommand` fallback. These are browser APIs.
- Route declarations and the calendar navigation on the home page. These belong to the router; the home page only reuses the `ddMMyy` encoding modelled here.
- JSX markup, CSS classes other than the row-class decision, and the mobile "Ord #" toggle. These are presentation only.
- Cells that are numbers or `null` at run time. Every cell is modelled as a string.
- SheetId.Decode: does not check that the day exists in the month (31/02). It also does not pick the century of a two-digit year, because both are date-library behaviour. SheetId.SelectedSheet therefore accepts identifiers the library would turn into an invalid date.
- SheetId.Decode: accepts exactly six digits. The date library's `ddMMyy` parse also takes one-digit fields, for example reading "11025" as 11 February 2005, so SheetId.SelectedSheet rejects some spellings the page accepts.
- SheetId.SelectedSheet: for a route sheet that does not parse, the page's `format` call throws. The model returns no sheet instead.
- Text.ToLower: lower-cases ASCII only. JavaScript's Unicode-aware `toLowerCase` also maps, for example, the Kelvin sign to "k", so EodReport.IsSection can differ from the page on such characters.
- WhatsappExport.ExportSplitsIntoLines: assumes no cell contains a line break. `trim` keeps interior newlines, so a cell holding "A\n\nB" puts a blank line into the export. The unconditional "no blank line" statement is false for such cells.
- DailySales.Edit: requires the row index to be inside the grid. The page only passes indices of rendered rows; a JavaScript assignment past the end would grow the array.

## Findings

| source | as written | input that shows it | evidently intended | confidence | as-written member | corrected member |
|---|---|---|---|---|---|---|
| src/pages/DailySales.tsx:99-100 | the actions are rendered only when the row at `lastFilledIndex + 1` is visible, and with row 29 filled that index is 30, outside the 30 visible rows | a grid whose last row (index 29) is filled, for example all 30 rows filled | Clear and Save stay available, placed after the last filled row | medium, not executed | DailySales.FullGridHidesActions | DailySales.ActionsAlwaysRendered |
