/**
  The data side of `plot` in src/snip_tsv.py: the x and y lists handed to
  the line plot. Drawing, showing and saving the figure are not modelled.
*/
module Plotting {
  import opened Results
  import opened Coercion
  import opened Table

  /** `[r[col] for r in records]`: IndexError at the first record without position `col`. */
  function Column(records: seq<seq<Value>>, col: int): (r: Result<seq<Value>, Error>)
    ensures r.Success? <==> Indexable(records, col)
    ensures r.Failure? ==> r.error == IndexError
    ensures r.Success? ==> |r.value| == |records|
    ensures r.Success? ==> forall i :: 0 <= i < |records| ==> r.value[i] == Cell(records[i], col)
    decreases |records|
  {
    if records == [] then Success([])
    else if !ValidIndex(records[0], col) then Failure(IndexError)
    else
      match Column(records[1..], col)
      case Failure(e) => Failure(e)
      case Success(rest) => Success([Cell(records[0], col)] + rest)
  }

  /** The series that was plotted and the status `plot` returns. */
  datatype Series = Series(xs: seq<Value>, ys: seq<Value>, status: int)

  /**
    `plot(data, out_file, plot_x, plot_y)`: the x list is column `plotX` and
    the y list column `plotY` of every record, in row order, so point `i` of
    the line is record `i`; the status is 0.
  */
  function Plot(data: Data, plotX: int, plotY: int): (r: Result<Series, Error>)
    ensures r.Success? <==> Indexable(data.records, plotX) && Indexable(data.records, plotY)
    ensures r.Failure? ==> r.error == IndexError
    ensures r.Success? ==> r.value.status == 0
    ensures r.Success? ==> |r.value.xs| == |r.value.ys| == |data.records|
    ensures r.Success? ==> forall i :: 0 <= i < |data.records| ==>
      r.value.xs[i] == Cell(data.records[i], plotX) && r.value.ys[i] == Cell(data.records[i], plotY)
  {
    match Column(data.records, plotX)
    case Failure(e) => Failure(e)
    case Success(xs) =>
      match Column(data.records, plotY)
      case Failure(e) => Failure(e)
      case Success(ys) => Success(Series(xs, ys, 0))
  }
}
