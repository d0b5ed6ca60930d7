/** Missing-value charts: the mode check of `DataAnalysis.show_columns_population`
    in MLUtils.py. The drawing itself is done by a charting library and is not modelled;
    the model says which chart is drawn. */
module DataAnalysis {
  import opened Frame

  /** The two charts the utility can draw. */
  datatype PlotKind = Matrix | Bar

  /** The mode string that selects each chart. */
  function ModeName(kind: PlotKind): string
  {
    match kind
    case Matrix => "matrix"
    case Bar => "bar"
  }

  /** `show_columns_population`: accepts the modes "matrix" and "bar" and reports which
      chart it draws; any other mode is an error. */
  function ShowColumnsPopulation(mode: string): (r: Result<PlotKind>)
    ensures r.Ok? <==> mode == "matrix" || mode == "bar"
    ensures r.Ok? ==> ModeName(r.value) == mode
    ensures r.Err? ==> r.error == InvalidArgument
  {
    if mode != "matrix" && mode != "bar" then
      Err(InvalidArgument)
    else if mode == "matrix" then
      Ok(Matrix)
    else
      Ok(Bar)
  }

  /** Each chart's mode name selects that chart. */
  lemma ModeNameSelectsKind(kind: PlotKind)
    ensures ShowColumnsPopulation(ModeName(kind)) == Ok(kind)
  {
  }
}
