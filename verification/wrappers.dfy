/** Optional values: the model's stand-in for the NaN cells a pandas merge leaves
    behind when one side of a join has no matching row. */
module Wrappers {

  datatype Option<+T> = None | Some(value: T)

  /** The right-hand side of a left (or outer) join, seen from one key:
      every match wrapped in `Some`, or a single `None` when there is none. */
  function Options<T>(xs: seq<T>): (r: seq<Option<T>>)
    ensures |r| == if |xs| == 0 then 1 else |xs|
    ensures |xs| == 0 ==> r[0].None?
    ensures forall i :: 0 <= i < |xs| ==> r[i] == Some(xs[i])
  {
    if |xs| == 0 then [None] else seq(|xs|, i requires 0 <= i < |xs| => Some(xs[i]))
  }
}
