/** Sequences with a member taken out. */
module Sequences {

  function RemoveAt<T>(s: seq<T>, i: nat): (rest: seq<T>)
    requires i < |s|
    ensures |rest| == |s| - 1
  {
    s[..i] + s[i + 1..]
  }
}
