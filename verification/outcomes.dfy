/** Failure-carrying datatypes shared by the whole model.

    The Python code signals failure with exceptions; here each exception the
    substitution engine can raise becomes a constructor of `Error`, and every
    operation that can raise returns a `Result`. */
module Outcomes {

  /** The exceptions the substitution engine and the config layer can raise. */
  datatype Error =
    | NotImplemented(placeholder: string)      // `{...}` understood by no provider
    | KeyError(key: string)                    // `env:KEY` with KEY unset
    | NoSection(section: string)               // raw config lookup, missing section
    | NoOption(section: string, option: string) // raw config lookup, missing option
    | UnknownKwarg                             // `_get` called with keyword arguments

  datatype Option<+T> = None | Some(value: T)

  /** Either a value or the first exception raised while computing it. */
  datatype Result<+T> = Ok(value: T) | Err(error: Error) {

    predicate IsFailure() {
      Err?
    }

    function PropagateFailure<U>(): Result<U>
      requires Err?
    {
      Err(error)
    }

    function Extract(): T
      requires Ok?
    {
      value
    }
  }

  /** A list comprehension whose elements may raise: the values in order,
      or the exception of the first element that raised. */
  function AllOk<T>(rs: seq<Result<T>>): (r: Result<seq<T>>)
    ensures r.Ok? ==> |r.value| == |rs| && forall i :: 0 <= i < |rs| ==> rs[i] == Ok(r.value[i])
    ensures r.Err? ==> exists i :: 0 <= i < |rs| && (forall j :: 0 <= j < i ==> rs[j].Ok?) && rs[i] == Err(r.error)
  {
    if rs == [] then Ok([])
    else if rs[0].Err? then Err(rs[0].error)
    else
      var rest := AllOk(rs[1..]);
      if rest.Err? then
        ghost var i :| 0 <= i < |rs[1..]| && (forall j :: 0 <= j < i ==> rs[1..][j].Ok?) && rs[1..][i] == Err(rest.error);
        assert forall j :: 1 <= j < i + 1 ==> rs[j] == rs[1..][j - 1];
        assert rs[i + 1] == rs[1..][i];
        Err(rest.error)
      else
        var r := [rs[0].value] + rest.value;
        assert forall i :: 1 <= i < |rs| ==> rs[i] == rs[1..][i - 1] && r[i] == rest.value[i - 1];
        Ok(r)
  }
}
