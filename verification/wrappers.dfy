/** Failure-compatible datatypes shared by every module of the model. */
module Wrappers {

  /** Conventional Some/None; stands for Python's `x | None`. */
  datatype Option<+T> = None | Some(value: T)

  /** The two ways an operation of the pipeline can fail.
      - `Invalid` is a ValueError, including a pydantic validation error:
        the per-entry loops that read mocks and test cases catch it and skip
        the entry.
      - `Abort` is every other exception the code can raise (AssertionError,
        TypeError, AttributeError, IndexError, a YAML parse error): it escapes
        those loops and reaches the caller. */
  datatype Error = Invalid | Abort

  /** An operation's outcome; usable with `:-`. */
  datatype Result<+T> = Ok(value: T) | Err(error: Error) {

    predicate IsFailure() {
      Err?
    }

    function PropagateFailure<U>(): Result<U>
      requires Err?
    {
      Err(error)
    }

    function Extract(): T
      requires Ok?
    {
      value
    }
  }

  /** Outcome `i` is the first failure of the run. */
  predicate FirstFailure<T>(results: seq<Result<T>>, i: int) {
    0 <= i < |results| && results[i].Err? && forall j :: 0 <= j < i ==> results[j].Ok?
  }

  /** The values of a run of outcomes, in order, or the first failure
      among them. */
  function Sequence<T>(results: seq<Result<T>>): (r: Result<seq<T>>)
    ensures r.Ok? <==> forall i :: 0 <= i < |results| ==> results[i].Ok?
    ensures r.Ok? ==> |r.value| == |results| && forall i :: 0 <= i < |results| ==> results[i] == Ok(r.value[i])
    ensures r.Err? ==> exists i :: FirstFailure(results, i) && results[i] == Err(r.error)
    decreases |results|
  {
    if |results| == 0 then Ok([])
    else
      assert forall i :: 1 <= i < |results| ==> results[i] == results[1..][i - 1];
      match results[0]
      case Err(e) => Err(e)
      case Ok(v) =>
        match Sequence(results[1..])
        case Err(e) =>
          assert exists i :: FirstFailure(results, i) && results[i] == Err(e) by {
            var i :| FirstFailure(results[1..], i) && results[1..][i] == Err(e);
            assert FirstFailure(results, i + 1);
          }
          Err(e)
        case Ok(rest) => Ok([v] + rest)
  }

  /** `f` applied to every element, in order. */
  function Apply<A, B>(f: A -> B, s: seq<A>): (r: seq<B>)
    ensures |r| == |s|
    ensures forall i :: 0 <= i < |s| ==> r[i] == f(s[i])
  {
    seq(|s|, i requires 0 <= i < |s| => f(s[i]))
  }

  /** Applying `f` distributes over append. */
  lemma ApplyAppend<A, B>(f: A -> B, a: seq<A>, b: seq<A>)
    ensures Apply(f, a + b) == Apply(f, a) + Apply(f, b)
  {
    var ab := a + b;
    assert forall i :: 0 <= i < |a| ==> ab[i] == a[i];
    assert forall i :: |a| <= i < |ab| ==> ab[i] == b[i - |a|];
  }
}
