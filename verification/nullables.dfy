/** A C# reference or nullable value: either `null` or a value. */
module Nullables {

  datatype Nullable<+T> = Null | Value(value: T)

  /** The values of a list with no nulls in it. */
  function Values<T>(xs: seq<Nullable<T>>): (vs: seq<T>)
    requires forall k :: 0 <= k < |xs| ==> xs[k].Value?
    ensures |vs| == |xs|
    ensures forall k :: 0 <= k < |xs| ==> xs[k] == Value(vs[k])
  {
    seq(|xs|, k requires 0 <= k < |xs| => xs[k].value)
  }
}
