/** The string requirements a candidate must pass (src/Requirements).

    `RequirementContract` has a single operation, `passes(string): bool`. Its two
    implementations in the library keep one threshold, set by the constructor
    and never changed, and compare `strlen` (the byte length) to it. Any other
    implementation of the contract is a `Custom` requirement whose `passes` is an
    arbitrary predicate. */
module Requirements {
  import opened Php

  datatype Requirement =
    | ExactLength(length: int)
    | MinimumLength(length: int)
    | Custom(test: Bytes -> bool)
  {
    /** `passes($string)`: the verdict of the requirement on a candidate. A
        length requirement only passes strings at least as long as its
        threshold, and a minimum of zero or less passes every string. */
    predicate Passes(s: Bytes): (ok: bool)
      ensures ok && !Custom? ==> |s| >= length
      ensures MinimumLength? && length <= 0 ==> ok
    {
      match this
      case ExactLength(n) => |s| == n
      case MinimumLength(n) => |s| >= n
      case Custom(test) => test(s)
    }
  }

  /** All strings an exact-length requirement accepts have one and the same length. */
  lemma ExactLengthSameLength(n: int, s: Bytes, t: Bytes)
    requires ExactLength(n).Passes(s) && ExactLength(n).Passes(t)
    ensures |s| == |t|
  {
  }

  /** An exact-length requirement passes exactly the strings of that many bytes;
      a negative length accepts nothing. */
  lemma ExactLengthAccepts(n: int, s: Bytes)
    ensures ExactLength(n).Passes(s) <==> n >= 0 && |s| == n
  {
  }

  /** A string of exactly `n` bytes also has at least `n` bytes. */
  lemma ExactImpliesMinimum(n: int, s: Bytes)
    requires ExactLength(n).Passes(s)
    ensures MinimumLength(n).Passes(s) && |s| >= n
  {
  }

  /** A minimum length of zero or less accepts every string, the empty one included. */
  lemma MinimumNonPositiveAcceptsAll(n: int, s: Bytes)
    requires n <= 0
    ensures MinimumLength(n).Passes(s) && MinimumLength(n).Passes([])
  {
  }

  /** A minimum-length requirement is monotone: appending to a passing string keeps it passing. */
  lemma MinimumLengthMonotone(n: int, s: Bytes, t: Bytes)
    requires MinimumLength(n).Passes(s)
    ensures MinimumLength(n).Passes(s + t)
  {
  }
}
