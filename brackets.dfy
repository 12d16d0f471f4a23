/**
 * The bracket scanner (ExpressionParser.extractExprWithinParenthesis) as a
 * reference function, and what it finds: the text between the first `(` and
 * the `)` that matches it.
 */
module Brackets {
  import opened Wrappers
  import opened JavaStrings

  const OPEN_BRACKET: char := '('
  const CLOSE_BRACKET: char := ')'

  /** A group's inner text and the offset just past its closing bracket. */
  datatype ExpressionBracket = ExpressionBracket(expr: string, offsetEnd: nat)

  /** Nesting depth after reading `t`: each `(` adds one, each `)` takes one away. */
  function Depth(t: string): int
  {
    if t == [] then 0
    else
      Depth(t[..|t| - 1])
      + (if t[|t| - 1] == OPEN_BRACKET then 1 else if t[|t| - 1] == CLOSE_BRACKET then -1 else 0)
  }

  /** Every `)` in `t` closes a `(` of `t`, and every `(` is closed. */
  ghost predicate Balanced(t: string)
  {
    Depth(t) == 0 && forall k :: 0 <= k <= |t| ==> Depth(t[..k]) >= 0
  }

  /**
   * The scan loop started at offset `i` with nesting level `level`: the offset
   * of the first `)` met at level 0, if the text has one.
   */
  function MatchingClose(s: string, i: nat, level: nat): (r: Option<nat>)
    ensures r.Some? ==> i <= r.value < |s| && s[r.value] == CLOSE_BRACKET
    decreases |s| - i
  {
    if i >= |s| then None
    else if s[i] == OPEN_BRACKET then MatchingClose(s, i + 1, level + 1)
    else if s[i] == CLOSE_BRACKET then
      if level == 0 then Some(i) else MatchingClose(s, i + 1, level - 1)
    else MatchingClose(s, i + 1, level)
  }

  /** The text has a `(` and the scan from it finds its `)` before the end. */
  predicate HasMatchingClose(s: string)
  {
    OPEN_BRACKET in s && MatchingClose(s, IndexOf(s, OPEN_BRACKET) + 1, 0).Some?
  }

  /**
   * The first group of `s`: the text strictly between the first `(` and the
   * `)` the scan stops at, which sits just before `offsetEnd`.
   */
  function Bracket(s: string): (b: ExpressionBracket)
    requires HasMatchingClose(s)
    ensures IndexOf(s, OPEN_BRACKET) + 1 < b.offsetEnd <= |s|
    ensures s[b.offsetEnd - 1] == CLOSE_BRACKET
    ensures b.expr == s[IndexOf(s, OPEN_BRACKET) + 1..b.offsetEnd - 1]
    ensures |b.expr| + 2 <= |s|
  {
    var o := IndexOf(s, OPEN_BRACKET);
    var c := MatchingClose(s, o + 1, 0).value;
    ExpressionBracket(s[o + 1..c], c + 1)
  }

  /** `t2` is `t` with one more character read. */
  lemma DepthStep(s: string, start: nat, i: nat)
    requires start <= i < |s|
    ensures Depth(s[start..i + 1]) == Depth(s[start..i])
      + (if s[i] == OPEN_BRACKET then 1 else if s[i] == CLOSE_BRACKET then -1 else 0)
  {
    assert s[start..i + 1][..i - start] == s[start..i];
  }

  /** From a state where no prefix went below level 0, the `)` the scan stops at closes a balanced text. */
  lemma {:induction false} ScanBalanced(s: string, start: nat, i: nat, level: nat)
    requires start <= i <= |s|
    requires level == Depth(s[start..i])
    requires forall k :: start <= k <= i ==> Depth(s[start..k]) >= 0
    requires MatchingClose(s, i, level).Some?
    ensures Balanced(s[start..MatchingClose(s, i, level).value])
    decreases |s| - i
  {
    var c := MatchingClose(s, i, level).value;
    if s[i] == CLOSE_BRACKET && level == 0 {
      forall k | 0 <= k <= c - start
        ensures Depth(s[start..c][..k]) >= 0
      {
        assert s[start..c][..k] == s[start..start + k];
      }
    } else {
      DepthStep(s, start, i);
      ScanBalanced(s, start, i + 1, Depth(s[start..i + 1]));
    }
  }

  /** The scan reaches any `)` that closes a balanced text, so it finds one. */
  lemma {:induction false} ScanFinds(s: string, start: nat, i: nat, level: nat, c: nat)
    requires start <= i <= c < |s| && s[c] == CLOSE_BRACKET
    requires Balanced(s[start..c])
    requires level == Depth(s[start..i])
    ensures MatchingClose(s, i, level).Some?
    decreases c - i
  {
    assert s[start..c][..i - start] == s[start..i];
    if i < c && !(s[i] == CLOSE_BRACKET && level == 0) {
      DepthStep(s, start, i);
      assert s[start..c][..i + 1 - start] == s[start..i + 1];
      ScanFinds(s, start, i + 1, Depth(s[start..i + 1]), c);
    }
  }

  /** `c` is a `)` after the first `(` and the text between them is balanced. */
  ghost predicate Closes(s: string, c: nat)
    requires OPEN_BRACKET in s
  {
    var o := IndexOf(s, OPEN_BRACKET);
    o < c < |s| && s[c] == CLOSE_BRACKET && Balanced(s[o + 1..c])
  }

  /** The scan succeeds exactly when the first `(` has a `)` closing a balanced text. */
  lemma MatchingCloseExists(s: string)
    requires OPEN_BRACKET in s
    ensures HasMatchingClose(s) <==> exists c :: Closes(s, c)
  {
    var o := IndexOf(s, OPEN_BRACKET);
    if HasMatchingClose(s) {
      ScanBalanced(s, o + 1, o + 1, 0);
      assert Closes(s, MatchingClose(s, o + 1, 0).value);
    }
    if c :| Closes(s, c) {
      ScanFinds(s, o + 1, o + 1, 0, c);
    }
  }

  /** The text of the group is balanced. */
  lemma BracketBalanced(s: string)
    requires HasMatchingClose(s)
    ensures Balanced(Bracket(s).expr)
  {
    ScanBalanced(s, IndexOf(s, OPEN_BRACKET) + 1, IndexOf(s, OPEN_BRACKET) + 1, 0);
  }

  /** The `)` closing the group is the first one the scan meets at level 0. */
  lemma BracketFirstClose(s: string)
    requires HasMatchingClose(s)
    ensures var o := IndexOf(s, OPEN_BRACKET);
      forall k :: o < k < Bracket(s).offsetEnd - 1 && s[k] == CLOSE_BRACKET ==> Depth(s[o + 1..k]) > 0
  {
    var o := IndexOf(s, OPEN_BRACKET);
    var c := MatchingClose(s, o + 1, 0).value;
    ScanBalanced(s, o + 1, o + 1, 0);
    forall k | o < k < c && s[k] == CLOSE_BRACKET
      ensures Depth(s[o + 1..k]) > 0
    {
      InnerClose(s, o + 1, c, k);
    }
  }

  /** Inside a balanced text every `)` is met above level 0. */
  lemma InnerClose(s: string, start: nat, c: nat, k: nat)
    requires start <= k < c <= |s| && s[k] == CLOSE_BRACKET
    requires Balanced(s[start..c])
    ensures Depth(s[start..k]) > 0
  {
    DepthStep(s, start, k);
    assert s[start..c][..k + 1 - start] == s[start..k + 1];
  }
}
