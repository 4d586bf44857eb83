/** The label shortening applied to step names under each node. */
module Labels {

  /** Number of name characters shown under a node before truncation. */
  const LabelWidth: nat := 14

  /** `truncateString`: a string longer than `n` keeps its first `n`
      characters followed by two dots; a shorter one is returned as is. */
  function Truncate(s: string, n: nat): (r: string)
    ensures |s| <= n ==> r == s
    ensures |s| > n ==> |r| == n + 2 && r[..n] == s[..n] && r[n..] == ".."
  {
    if |s| > n then s[..n] + ".." else s
  }

  /** Truncating an already truncated string changes nothing: a result that
      was shortened is `n + 2` long, so it is cut again at the same place. */
  lemma TruncateIdempotent(s: string, n: nat)
    ensures Truncate(Truncate(s, n), n) == Truncate(s, n)
  {
  }

  /** Exactly which strings come back unchanged: the short ones, and the
      long ones that already end in two dots right after position `n`. */
  lemma TruncateFixedPoint(s: string, n: nat)
    ensures Truncate(s, n) == s <==> |s| <= n || (|s| == n + 2 && s[n..] == "..")
  {
  }

  /** The label drawn under a node. */
  function Label(name: string): (r: string)
    ensures |name| <= LabelWidth ==> r == name
    ensures |name| > LabelWidth ==>
      |r| == LabelWidth + 2 && r[..LabelWidth] == name[..LabelWidth] && r[LabelWidth..] == ".."
  {
    Truncate(name, LabelWidth)
  }
}
