/** What the two persistent structures share: the errors their mutators report
    and the doubling growth of the array that holds one root per version. */
module Versions {

  /** Initial capacity of a version array. */
  const MaxSize: nat := 1000

  datatype Error =
    | NotFound    // delete of a key absent from the current version
    | EmptyStack  // pop of a version with no elements

  datatype Outcome = Pass | Fail(error: Error)

  datatype Result<T> = Success(value: T) | Failure(error: Error)

  /** `increaseArray`: a new array twice as long, holding the old entries at the
      same indices and `blank` (the source's null root) in every new slot. */
  method Doubled<T>(a: array<T>, blank: T) returns (b: array<T>)
    ensures fresh(b)
    ensures b.Length == 2 * a.Length
    ensures b[..a.Length] == a[..]
    ensures forall i :: a.Length <= i < b.Length ==> b[i] == blank
  {
    b := new T[2 * a.Length](_ => blank);
    for i := 0 to a.Length
      invariant b[..i] == a[..i]
      invariant forall j :: a.Length <= j < b.Length ==> b[j] == blank
    {
      b[i] := a[i];
    }
  }
}
