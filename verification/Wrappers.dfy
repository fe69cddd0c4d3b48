/** Failure-carrying results: a Python `None` becomes `None`, a raised exception becomes `Failure`. */
module Wrappers {

  datatype Option<+T> = None | Some(value: T) {
    function GetOr(default: T): T {
      if Some? then value else default
    }
  }

  /** The kinds of exception the modelled code raises. */
  datatype Error =
    | ValueError | OverflowError | IndexError | AttributeError | KeyError
    | AssertionError | NotImplementedError | StructError | UnicodeError | StopIteration

  datatype Result<+T> = Success(value: T) | Failure(error: Error) {
    predicate IsFailure() {
      Failure?
    }

    function PropagateFailure<U>(): Result<U>
      requires Failure?
    {
      Failure(error)
    }

    function Extract(): T
      requires Success?
    {
      value
    }
  }

  /** What a loop gives that has collected `done` and whose remaining turns give `rest`. */
  function Appended<T>(done: seq<T>, rest: Result<seq<T>>): Result<seq<T>> {
    if rest.Success? then Success(done + rest.value) else rest
  }

  lemma AppendedTwice<T>(a: seq<T>, b: seq<T>, rest: Result<seq<T>>)
    ensures Appended(a, Appended(b, rest)) == Appended(a + b, rest)
    ensures Appended([], rest) == rest && a + [] == a
  {
    if rest.Success? {
      assert a + (b + rest.value) == a + b + rest.value && [] + rest.value == rest.value;
    }
  }

  lemma Regroup<T>(a: seq<T>, b: seq<T>, c: seq<T>)
    ensures a + (b + c) == a + b + c
  {
  }
}
