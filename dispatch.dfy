/**
  `handler` of src/snip_tsv.py: coerce the two crop markers, read the table,
  then either crop and write it or plot it.
*/
module Dispatch {
  import opened Results
  import opened Coercion
  import opened Table
  import opened Cropper
  import opened Plotting

  /** The parsed command-line options `handler` reads (streams and delimiter left out). */
  datatype Args = Args(
    header: bool,
    plotX: int,
    plotY: int,
    cropCol: int,
    cropStart: Option<string>,
    cropEnd: Option<string>)

  /** Which path `handler` took, and what it produced. */
  datatype Outcome = Wrote(written: Written) | Plotted(series: Series)

  /** The status `handler` returns. */
  function Status(o: Outcome): int
  {
    match o
    case Wrote(w) => w.status
    case Plotted(s) => s.status
  }

  /**
    `handler(args)` on the rows of the input file. Both markers are coerced
    before anything is read; the crop-and-write path is taken exactly when
    the coerced start marker is not None.
  */
  function Handler(eval: Evaluator, args: Args, input: seq<seq<string>>): (r: Result<Outcome, Error>)
    ensures Coerce(eval, args.cropStart).Failure? ==> r == Failure(Coerce(eval, args.cropStart).error)
    ensures (Coerce(eval, args.cropStart).Success? && Coerce(eval, args.cropEnd).Failure?) ==>
      r == Failure(Coerce(eval, args.cropEnd).error)
    ensures (Coerce(eval, args.cropStart).Success? && Coerce(eval, args.cropEnd).Success? &&
             ReadFile(eval, input, args.header).Failure?) ==>
      r == Failure(ReadFile(eval, input, args.header).error)
    ensures (Coerce(eval, args.cropStart).Success? && Coerce(eval, args.cropStart) != Success(NoneLit) &&
             Coerce(eval, args.cropEnd).Success? && ReadFile(eval, input, args.header).Success? &&
             !Indexable(ReadFile(eval, input, args.header).value.records, args.cropCol)) ==>
      r == Failure(IndexError)
    ensures (Coerce(eval, args.cropStart) == Success(NoneLit) &&
             Coerce(eval, args.cropEnd).Success? && ReadFile(eval, input, args.header).Success? &&
             !(Indexable(ReadFile(eval, input, args.header).value.records, args.plotX) &&
               Indexable(ReadFile(eval, input, args.header).value.records, args.plotY))) ==>
      r == Failure(IndexError)
    ensures r.Success? ==> Coerce(eval, args.cropStart).Success? && Coerce(eval, args.cropEnd).Success?
    ensures r.Success? ==> ReadFile(eval, input, args.header).Success?
    ensures r.Success? ==> (r.value.Wrote? <==> Coerce(eval, args.cropStart) != Success(NoneLit))
    ensures r.Success? ==> Status(r.value) == 0
  {
    match Coerce(eval, args.cropStart)
    case Failure(e) => Failure(e)
    case Success(start) =>
      match Coerce(eval, args.cropEnd)
      case Failure(e) => Failure(e)
      case Success(end) =>
        match ReadFile(eval, input, args.header)
        case Failure(e) => Failure(e)
        case Success(data) =>
          if start != NoneLit then
            match CropSpec(data, args.cropCol, start, end)
            case Failure(e) => Failure(e)
            case Success(cropped) => Success(Wrote(WriteRecords(cropped)))
          else
            match Plot(data, args.plotX, args.plotY)
            case Failure(e) => Failure(e)
            case Success(series) => Success(Plotted(series))
  }

  /**
    Omitting the start flag, or passing text the evaluator reads as None
    (the literal `None`), selects plotting.
  */
  lemma NoStartMarkerPlots(eval: Evaluator, args: Args, input: seq<seq<string>>)
    requires args.cropStart.None? || eval(args.cropStart.value) == Evaluated(NoneLit)
    requires Handler(eval, args, input).Success?
    ensures Handler(eval, args, input).value.Plotted?
  {
  }

  /**
    With a start marker, a successful run writes exactly the crop of the
    table read from the input, header first.
  */
  lemma CropPathWritesCrop(eval: Evaluator, args: Args, input: seq<seq<string>>, start: Value, end: Value, data: Data)
    requires Coerce(eval, args.cropStart) == Success(start) && start != NoneLit
    requires Coerce(eval, args.cropEnd) == Success(end)
    requires ReadFile(eval, input, args.header) == Success(data)
    requires Indexable(data.records, args.cropCol)
    ensures Handler(eval, args, input) == Success(Wrote(WriteRecords(CropSpec(data, args.cropCol, start, end).value)))
  {
  }

  /**
    Without a start marker, a successful run plots column `plotX` against
    column `plotY` of the records read from the input.
  */
  lemma PlotPathPlotsColumns(eval: Evaluator, args: Args, input: seq<seq<string>>, data: Data, i: nat)
    requires Coerce(eval, args.cropStart) == Success(NoneLit)
    requires ReadFile(eval, input, args.header) == Success(data)
    requires Handler(eval, args, input).Success?
    requires i < |data.records|
    ensures Handler(eval, args, input).value.series.xs[i] == Cell(data.records[i], args.plotX)
    ensures Handler(eval, args, input).value.series.ys[i] == Cell(data.records[i], args.plotY)
  {
  }

  /**
    Without a start marker, when both plot columns exist in every record, the
    run succeeds and plots exactly column `plotX` against column `plotY`.
  */
  lemma PlotPathPlots(eval: Evaluator, args: Args, input: seq<seq<string>>, data: Data)
    requires Coerce(eval, args.cropStart) == Success(NoneLit)
    requires Coerce(eval, args.cropEnd).Success?
    requires ReadFile(eval, input, args.header) == Success(data)
    requires Indexable(data.records, args.plotX) && Indexable(data.records, args.plotY)
    ensures Handler(eval, args, input) == Success(Plotted(Plot(data, args.plotX, args.plotY).value))
  {
  }
}
