/** The sheet a read-only view falls back to when its route carries none:
    the `VITE_SHEET_NAME` environment value, or the literal "051025". The
    environment lookup itself is a parameter. */
module Config {
  import opened Optional

  const FallbackSheet: string := "051025"

  /** `VITE_SHEET_NAME || "051025"`: an unset or empty variable falls back
      to the literal, so the default is never empty. */
  function DefaultSheet(env: Option<string>): (r: string)
    ensures r != ""
    ensures env.Some? && env.value != "" ==> r == env.value
    ensures env.None? || env.value == "" ==> r == FallbackSheet
  {
    if env.Some? && env.value != "" then env.value else FallbackSheet
  }

  /** `sheetParam || DEFAULT_SHEET`: the route's sheet when it has a
      non-empty one, else the default. */
  function SheetOrDefault(param: Option<string>, env: Option<string>): (r: string)
    ensures r != ""
    ensures param.Some? && param.value != "" ==> r == param.value
    ensures param.None? || param.value == "" ==> r == DefaultSheet(env)
  {
    if param.Some? && param.value != "" then param.value else DefaultSheet(env)
  }
}
