/** Sequences read as rings: shared by the linked list and by the task ring. */
module Rings {

  /** The element at position i of a ring that has been gone round at most once. */
  ghost function At<A>(s: seq<A>, i: int): A
    requires -|s| <= i < 2 * |s|
  {
    if i < 0 then s[i + |s|] else if i < |s| then s[i] else s[i - |s|]
  }

  ghost predicate Distinct<A>(s: seq<A>) {
    forall i, j | 0 <= i < j < |s| :: s[i] != s[j]
  }

  function Rotated<A>(s: seq<A>, k: nat): seq<A>
    requires k <= |s|
  {
    s[k..] + s[..k]
  }

  ghost function Without<A>(s: seq<A>, k: nat): seq<A>
    requires k < |s|
  {
    s[..k] + s[k + 1..]
  }

  ghost function With<A>(s: seq<A>, k: nat, x: A): seq<A>
    requires k <= |s|
  {
    s[..k] + [x] + s[k..]
  }

  /** One is after the other exactly when the other is before the one. */
  lemma Neighbours<A>(s: seq<A>, i: nat, k: nat)
    requires Distinct(s) && i < |s| && k < |s|
    ensures At(s, k + 1) == s[i] <==> At(s, i - 1) == s[k]
  {}

  /** The neighbours of what is left when position k is taken out. */
  lemma WithoutAt<A>(s: seq<A>, k: nat, i: nat)
    requires Distinct(s) && k < |s| && i < |s| - 1
    ensures var j, r := if i < k then i else i + 1, Without(s, k);
            && r[i] == s[j] && s[j] != s[k]
            && At(r, i + 1) == (if At(s, j + 1) == s[k] then At(s, k + 1) else At(s, j + 1))
            && At(r, i - 1) == (if At(s, j - 1) == s[k] then At(s, k - 1) else At(s, j - 1))
  {}

  lemma WithoutDistinct<A>(s: seq<A>, k: nat)
    requires Distinct(s) && k < |s|
    ensures Distinct(Without(s, k)) && |Without(s, k)| == |s| - 1
  {}

  lemma AtIn<A>(s: seq<A>, i: int)
    requires -|s| <= i < 2 * |s|
    ensures At(s, i) in s
  {}
}
