/** Optional values and results with an error, used where the Python code returns
    `None` or raises an exception. */
module Wrappers {

  datatype Option<+T> = None | Some(value: T)

  /** The exception Python raises for a list index that is out of range. */
  datatype PyError = IndexError

  datatype Result<+T> = Ok(value: T) | Err(error: PyError)

  /** Python's `xs[i]`: a negative index counts from the end, anything outside
      `-len(xs) .. len(xs)-1` raises `IndexError`. */
  function PyIndex<T>(xs: seq<T>, i: int): (r: Result<T>)
    ensures r.Ok? <==> -|xs| <= i < |xs|
    ensures r.Ok? && 0 <= i ==> r.value == xs[i]
    ensures r.Ok? && i < 0 ==> r.value == xs[|xs| + i]
  {
    if 0 <= i < |xs| then Ok(xs[i])
    else if -|xs| <= i < 0 then Ok(xs[|xs| + i])
    else Err(IndexError)
  }

  /** Python's slice `xs[1:]`, which is empty (not an error) on an empty list. */
  function PyDropFirst<T>(xs: seq<T>): (r: seq<T>)
    ensures |xs| == 0 ==> r == []
    ensures |xs| > 0 ==> [xs[0]] + r == xs
  {
    if |xs| == 0 then [] else xs[1..]
  }
}
