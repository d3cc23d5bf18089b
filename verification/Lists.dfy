/** Sequence helpers shared by the models: a list without one of its elements,
    one element repeated, and what is left of a list from a position on. Their
    contracts say what is at each index. */
module Lists {

  /** The list without its element i. */
  function Without<T>(s: seq<T>, i: nat): (rest: seq<T>)
    requires i < |s|
    ensures |rest| == |s| - 1
    ensures forall k :: 0 <= k < |rest| ==> rest[k] == s[if k < i then k else k + 1]
  {
    if i == 0 then s[1..] else [s[0]] + Without(s[1..], i - 1)
  }

  /** x, n times */
  function Repeat<T>(x: T, n: nat): (r: seq<T>)
    ensures |r| == n && forall k :: 0 <= k < n ==> r[k] == x
  {
    seq(n, _ => x)
  }

  /** What is left from position i on. */
  lemma Drop1<T>(s: seq<T>, i: nat)
    requires i < |s|
    ensures s[i..] != [] && s[i..][0] == s[i] && s[i..][1..] == s[i + 1..]
  {
  }
}
