/** The error paths of the pipeline, as values. */
module Outcomes {

  datatype Option<T> = None | Some(value: T)
  {
    function GetOr(default: T): T
    {
      match this
      case Some(v) => v
      case None => default
    }
  }

  /** The exceptions the rebuild can raise. */
  datatype Failure =
    | EmptyHistory        // ValueError: max/min of an empty year column
    | BaseDivisionByZero  // ZeroDivisionError: base_total / (1.0 + reserve_margin) with reserve_margin == -1
    | ZeroStep            // ZeroDivisionError: np.arange with a zero step
    | LoadFailed          // the history download or its parsing raised
    | DuplicateFrameKey   // IntegrityError: two frame rows share (year, metric)

  datatype Result<T> = Ok(value: T) | Err(failure: Failure)
}
