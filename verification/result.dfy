/** `Result<T>`: an immutable pass/fail pair of a flag and a payload that may be
    null. The constructor is private, so `Pass` and `Fail` are the only ways to
    build one; the fields are final, so a value never changes after construction. */
module Results {
  import opened Lang

  datatype Result<T> = Result(passed: bool, result: Nullable<T>) {

    /** Whether the operation succeeded. */
    function Passed(): bool {
      passed
    }

    /** The payload; null whenever the result was built by `Fail`. */
    function Get(): Nullable<T> {
      result
    }
  }

  /** A failed result: it reports failure and carries null. */
  function Fail<T>(): (r: Result<T>)
    ensures !r.Passed()
    ensures r.Get() == Null
  {
    Result(false, Null)
  }

  /** A passed result: it reports success and hands back exactly the value given. */
  function Pass<T>(value: Nullable<T>): (r: Result<T>)
    ensures r.Passed()
    ensures r.Get() == value
  {
    Result(true, value)
  }
}
