/** Small shared vocabulary. Times are whole nanoseconds on one clock. */
module Common {

  datatype Option<+T> = None | Some(value: T)

  type Time = int

  const SECOND: int := 1_000_000_000

  /** No element occurs twice. */
  ghost predicate Distinct<T>(s: seq<T>) {
    forall i, j :: 0 <= i < j < |s| ==> s[i] != s[j]
  }
}
