/** Replacing a stretch of a sequence. */
module Sequences {

  function Splice<T>(s: seq<T>, i: nat, j: nat, mid: seq<T>): (r: seq<T>)
    requires i <= j <= |s|
    ensures |r| == |s| - (j - i) + |mid|
  {
    s[..i] + mid + s[j..]
  }

  /** A stretch overwritten by one of the same length. */
  function Overlay<T>(s: seq<T>, at: nat, mid: seq<T>): (r: seq<T>)
    requires at + |mid| <= |s|
    ensures |r| == |s| && forall k | 0 <= k < |s| :: r[k] == if at <= k < at + |mid| then mid[k - at] else s[k]
  {
    Splice(s, at, at + |mid|, mid)
  }
}
