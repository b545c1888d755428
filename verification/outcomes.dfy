/** Optional values and the failures the table-splitting step can raise.

    Every failure of the step is an exception in the original program that
    aborts the run; here each one is a value of `Error` carried by `Result`.
 */
module Outcomes {

  /** Python's `None` or a present value. */
  datatype Option<+T> = None | Some(value: T)

  /** The exceptions the splitting step can end with. */
  datatype Error =
      /** pandas' EmptyDataError: a buffer with no non-blank line to parse */
    | EmptyData
      /** pandas' ParserError: a record with more fields than the table has columns */
    | FieldCount(expected: nat, saw: nat)
      /** KeyError: the designated section is not among the aggregated tables */
    | MissingKey(key: string)
      /** KeyError from dropping columns: the listed labels are not columns of the table */
    | MissingColumns(labels: seq<string>)
      /** OSError while writing an output file */
    | WriteFailed(path: string)

  /** A computed value or the error that aborted the computation; usable with `:-`. */
  datatype Result<+T> = Ok(value: T) | Err(error: Error) {

    predicate IsFailure() {
      Err?
    }

    function PropagateFailure<U>(): Result<U>
      requires Err?
    {
      Err(error)
    }

    function Extract(): T
      requires Ok?
    {
      value
    }
  }

  /** The values of a sequence of results, or the first error among them:
      the work stops at the first step that fails. */
  function AllOk<T>(rs: seq<Result<T>>): (r: Result<seq<T>>)
    ensures r.Ok? <==> forall i :: 0 <= i < |rs| ==> rs[i].Ok?
    ensures r.Ok? ==> |r.value| == |rs| && forall i :: 0 <= i < |rs| ==> rs[i] == Ok(r.value[i])
    ensures r.Err? ==> exists i :: 0 <= i < |rs| && rs[i] == Err(r.error) && forall j :: 0 <= j < i ==> rs[j].Ok?
  {
    if rs == [] then Ok([])
    else
      match rs[0]
      case Err(e) => Err(e)
      case Ok(x) =>
        var rest :- AllOk(rs[1..]);
        Ok([x] + rest)
  }
}
