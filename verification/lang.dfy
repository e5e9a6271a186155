/** Java-language vocabulary shared by the rest of the model: references that may be
    null, calls that may throw, and the "first element matching a predicate" search
    that the source writes as `stream().filter(p).findFirst()` or `indexOf`. */
module Lang {

  /** A Java reference that may be `null`. */
  datatype Nullable<+T> = Null | NonNull(value: T)

  /** The unchecked exceptions the modelled code can let escape. */
  datatype Exception =
    | NullPointer             // dereferencing a null result (a missing element, file name or parent)
    | IndexOutOfBounds        // `List.get` or an explicit bounds check
    | StringIndexOutOfBounds  // `String.substring` with inverted or negative bounds

  /** The outcome of a Java call: it either returns a value or throws. */
  datatype Outcome<+T> = Returns(value: T) | Throws(error: Exception) {

    predicate IsFailure() {
      Throws?
    }

    function PropagateFailure<U>(): Outcome<U>
      requires Throws?
    {
      Throws(error)
    }

    function Extract(): T
      requires Returns?
    {
      value
    }
  }

  /** Index of the first element of `xs` satisfying `p`, or `Null` when none does
      (`findFirst` over a filtered stream, `List.indexOf`). */
  function FirstWhere<T>(xs: seq<T>, p: T -> bool): (r: Nullable<nat>)
    ensures r.NonNull? ==> r.value < |xs| && p(xs[r.value])
    ensures r.NonNull? ==> forall j :: 0 <= j < r.value ==> !p(xs[j])
    ensures r.Null? <==> forall j :: 0 <= j < |xs| ==> !p(xs[j])
  {
    if |xs| == 0 then Null
    else if p(xs[0]) then NonNull(0)
    else match FirstWhere(xs[1..], p)
      case Null => Null
      case NonNull(k) => NonNull(k + 1)
  }

  /** The first element of `xs` satisfying `p`, as a nullable reference. */
  function FindFirst<T>(xs: seq<T>, p: T -> bool): (r: Nullable<T>)
    ensures r.Null? <==> forall j :: 0 <= j < |xs| ==> !p(xs[j])
    ensures r.NonNull? ==> exists k :: 0 <= k < |xs| && xs[k] == r.value && p(xs[k]) &&
                                       forall j :: 0 <= j < k ==> !p(xs[j])
  {
    match FirstWhere(xs, p)
    case Null => Null
    case NonNull(k) => NonNull(xs[k])
  }

  /** The first element satisfying `p` is determined by its position. */
  lemma FindFirstIs<T>(xs: seq<T>, p: T -> bool, i: nat)
    requires i < |xs| && p(xs[i])
    requires forall j :: 0 <= j < i ==> !p(xs[j])
    ensures FirstWhere(xs, p) == NonNull(i) && FindFirst(xs, p) == NonNull(xs[i])
  {
  }
}
