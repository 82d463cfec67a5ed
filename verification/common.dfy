/** Small shared vocabulary: an optional value and an order-preserving
    subsequence relation on sequences. */
module Common {

  /** A value that may be absent (a Go nil interface, a failed parse). */
  datatype Option<+T> = None | Some(value: T)

  /** `a` can be obtained from `b` by deleting elements, keeping the order of
      those that remain. */
  ghost predicate IsSubsequence<T>(a: seq<T>, b: seq<T>)
    decreases |b|
  {
    if |a| == 0 then true
    else if |b| == 0 then false
    else (a[0] == b[0] && IsSubsequence(a[1..], b[1..])) || IsSubsequence(a, b[1..])
  }
}
