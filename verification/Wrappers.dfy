/** Small types, functions and lemmas that several modules use. */
module Wrappers {

  datatype Option<+T> = None | Some(value: T)

  /** The result of running code that may write outside the memory it was given: after that nothing is known. */
  datatype Outcome<+T> = Known(value: T) | Overrun

  function Reverse<T>(s: seq<T>): (r: seq<T>)
    ensures |r| == |s|
  {
    seq(|s|, i requires 0 <= i < |s| => s[|s| - 1 - i])
  }

  /** No multiple but zero lies strictly between `-b` and `b`. */
  lemma Between(b: int, d: int)
    requires b > 0 && -b < b * d < b
    ensures d == 0
  {
  }
}
