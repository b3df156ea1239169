/** Python's `next(generator, default)` first-match search and list slicing `xs[:n]`. */
module Sequences {
  import opened Options

  /**
   * `r` is the first element of `s` that satisfies `p`, or None when no
   * element does.
   */
  ghost predicate IsFirstMatch<T>(s: seq<T>, p: T -> bool, r: Option<T>) {
    match r
    case None => forall i | 0 <= i < |s| :: !p(s[i])
    case Some(x) =>
      exists i | 0 <= i < |s| :: s[i] == x && p(s[i]) && forall j | 0 <= j < i :: !p(s[j])
  }

  /** `next((x for x in s if p(x)), None)`: the first element satisfying `p`, in order. */
  function First<T>(s: seq<T>, p: T -> bool): (r: Option<T>)
    ensures IsFirstMatch(s, p, r)
  {
    if s == [] then None
    else if p(s[0]) then Some(s[0])
    else
      var r := First(s[1..], p);
      assert forall i | 1 <= i < |s| :: s[1..][i - 1] == s[i];
      r
  }

  /** `s[:n]` for a non-negative `n`: the first `n` elements, or all of them when there are fewer. */
  function Take<T>(s: seq<T>, n: nat): (r: seq<T>)
    ensures |r| == if n <= |s| then n else |s|
    ensures r <= s
  {
    if n <= |s| then s[..n] else s
  }
}
