/** Failure-compatible wrappers shared by the whole model.

    The aggregation script never catches an exception: the first one ends the
    run before the output table is written.  The model therefore carries every
    such crash as an `Err` that the callers propagate unchanged with `:-`.
 */
module Outcomes {

  /** The ways the script can crash on data it reads. */
  datatype Error =
    /** A row read while the station's state is still unknown has no field at
        the location column, so indexing it raises. */
    | MissingLocationField
    /** A state's bucket cannot be turned into a matrix with the averaged
        columns: its rows differ in width, or a selected column lies beyond it. */
    | MalformedBucket(state: string)
    /** A selected field of a state's bucket is not a number. */
    | NotNumeric(state: string)

  datatype Option<+T> = None | Some(value: T)

  datatype Result<+T> = Ok(value: T) | Err(error: Error) {

    predicate IsFailure() {
      Err?
    }

    function PropagateFailure<U>(): Result<U>
      requires Err?
    {
      Err(error)
    }

    function Extract(): T
      requires Ok?
    {
      value
    }
  }

  /** The results in order, or the error of the first one that failed: what a
      loop that stops at its first exception leaves. */
  function AllOk<T>(rs: seq<Result<T>>): (r: Result<seq<T>>)
    ensures r.Ok? <==> forall i :: 0 <= i < |rs| ==> rs[i].Ok?
    ensures r.Ok? ==> |r.value| == |rs| && forall i :: 0 <= i < |rs| ==> rs[i] == Ok(r.value[i])
    ensures r.Err? ==> exists i :: 0 <= i < |rs| && rs[i] == Err(r.error) && forall k :: 0 <= k < i ==> rs[k].Ok?
    decreases |rs|
  {
    if |rs| == 0 then Ok([])
    else
      match rs[0]
      case Err(e) => Err(e)
      case Ok(v) =>
        match AllOk(rs[1..])
        case Err(e) =>
          var j :| 0 <= j < |rs| - 1 && rs[1..][j] == Err(e) && forall k :: 0 <= k < j ==> rs[1..][k].Ok?;
          assert rs[j + 1] == Err(e) && forall k :: 0 <= k < j + 1 ==> rs[k].Ok?;
          Err(e)
        case Ok(vs) =>
          assert forall i :: 0 < i < |rs| ==> rs[i] == rs[1..][i - 1];
          Ok([v] + vs)
  }
}
