/** The loops that make room in an array, or close a gap in it, by moving entries one by one. */
module Shifting {

  /** Move every entry behind `i` one place down; the last place is given up. */
  method CloseGap<T>(a: seq<T>, i: nat) returns (b: seq<T>)
    requires i < |a|
    ensures b == a[..i] + a[i + 1..]
  {
    b := a;
    for j := i + 1 to |a|
      invariant |b| == |a|
      invariant forall k | 0 <= k < i :: b[k] == a[k]
      invariant forall k | i < k < j :: b[k - 1] == a[k]
      invariant forall k | j <= k < |a| :: b[k] == a[k]
    {
      b := b[j - 1 := b[j]];
    }
    b := b[..|a| - 1];
  }

  /** Move every entry from `i` on one place up, from the end, and put `x` into the gap.  The new
      last place holds anything at first. */
  method OpenGap<T>(a: seq<T>, i: nat, x: T, anything: T) returns (b: seq<T>)
    requires i <= |a|
    ensures b == a[..i] + [x] + a[i..]
  {
    b := a + [anything];
    var j := |a|;
    while j > i
      invariant i <= j <= |a| && |b| == |a| + 1
      invariant forall k | 0 <= k < j :: b[k] == a[k]
      invariant forall k | j < k <= |a| :: b[k] == a[k - 1]
    {
      b := b[j := b[j - 1]];
      j := j - 1;
    }
    b := b[i := x];
  }
}
