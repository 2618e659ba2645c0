/** The one shape the views receive from the remote sheet gateway: the
    `values` of a range read, a table of cell strings of any shape. The HTTP
    exchange itself is not modelled. */
module Gateway {
  import opened Optional

  type RawTable = seq<seq<string>>

  /** A range read as a view asks for it: the sheet tab and the A1-notation
      range. */
  datatype Fetch = Fetch(sheet: string, range: string)

  /** `res.values || []`: a response without values is an empty table. */
  function ValuesOrEmpty(values: Option<RawTable>): (t: RawTable)
    ensures values.None? ==> t == []
    ensures values.Some? ==> t == values.value
  {
    values.GetOr([])
  }
}
