/** Sequences turned around and cut short, as Python's reversed() and slices do. */
module Sequences {
  import opened Bits

  function Reverse<T>(s: seq<T>): seq<T> {
    seq(|s|, i requires 0 <= i < |s| => s[|s| - 1 - i])
  }

  function Clip<T>(s: seq<T>, n: nat): seq<T> {
    s[..Min(|s|, n)]
  }

  lemma {:induction false} SliceOfSlice<T>(s: seq<T>, b: nat, e: nat, k: nat)
    requires b <= e <= |s| && k <= e - b
    ensures s[b..e][..k] == s[b..b + k]
  {
  }
}
