/**
 * The java.lang.String operations the parser calls, over `seq<char>`.
 * Regular expressions are not modelled: every pattern the parser passes is read
 * as the literal text it matches.
 */
module JavaStrings {

  /** `s.indexOf(c)`: the first index holding `c`, or -1 when there is none. */
  function IndexOf(s: string, c: char): (r: int)
    ensures -1 <= r < |s|
    ensures r == -1 <==> c !in s
    ensures r >= 0 ==> s[r] == c && c !in s[..r]
  {
    if s == [] then -1
    else if s[0] == c then 0
    else
      var k := IndexOf(s[1..], c);
      assert k >= 0 ==> s[1..][..k] == s[1..k + 1];
      if k < 0 then -1 else k + 1
  }

  // ---------------------------------------------------------------------------
  // replaceAll(" ", "") and replace(" ", "")
  // ---------------------------------------------------------------------------

  /** `s.replaceAll(" ", "")`: `s` with every space dropped, the other characters kept in order. */
  function RemoveSpaces(s: string): (r: string)
    ensures |r| <= |s|
    ensures forall c :: c in r <==> c in s && c != ' '
  {
    if s == [] then []
    else (if s[0] == ' ' then [] else [s[0]]) + RemoveSpaces(s[1..])
  }

  /** Exactly the spaces are dropped: the result is shorter by the number of spaces. */
  lemma {:induction false} RemoveSpacesCount(s: string)
    ensures |RemoveSpaces(s)| == |s| - multiset(s)[' ']
  {
    if s != [] {
      assert s == [s[0]] + s[1..];
      RemoveSpacesCount(s[1..]);
    }
  }

  /** A text without spaces is left as it is. */
  lemma {:induction false} RemoveSpacesKeeps(s: string)
    requires ' ' !in s
    ensures RemoveSpaces(s) == s
  {
    if s != [] {
      RemoveSpacesKeeps(s[1..]);
    }
  }

  /** Dropping spaces distributes over concatenation. */
  lemma {:induction false} RemoveSpacesAppend(a: string, b: string)
    ensures RemoveSpaces(a + b) == RemoveSpaces(a) + RemoveSpaces(b)
  {
    if a == [] {
      assert a + b == b;
    } else {
      assert (a + b)[1..] == a[1..] + b;
      RemoveSpacesAppend(a[1..], b);
    }
  }

  /** Dropping the spaces twice is dropping them once. */
  lemma RemoveSpacesIdempotent(s: string)
    ensures RemoveSpaces(RemoveSpaces(s)) == RemoveSpaces(s)
  {
    RemoveSpacesKeeps(RemoveSpaces(s));
  }

  // ---------------------------------------------------------------------------
  // replaceAll(target, replacement) with a literal target
  // ---------------------------------------------------------------------------

  predicate StartsWith(s: string, p: string)
  {
    |p| <= |s| && s[..|p|] == p
  }

  /**
   * `s.replaceAll(target, replacement)` for a target matched literally: the
   * occurrences are found from left to right and do not overlap.
   */
  function ReplaceAll(s: string, target: string, replacement: string): string
    requires |target| > 0
    decreases |s|
  {
    if |s| < |target| then s
    else if s[..|target|] == target then replacement + ReplaceAll(s[|target|..], target, replacement)
    else [s[0]] + ReplaceAll(s[1..], target, replacement)
  }

  /** One differing position, or a text too short, rules a prefix out. */
  lemma Mismatch(s: string, p: string, k: nat)
    requires k < |p| && (k >= |s| || s[k] != p[k])
    ensures !StartsWith(s, p)
  {
    if |p| <= |s| {
      assert s[..|p|][k] == s[k];
    }
  }

  /** A text that does not start with the target keeps its first character. */
  lemma ReplaceAllSkips(c: char, s: string, target: string, replacement: string)
    requires |target| > 0 && !StartsWith([c] + s, target)
    ensures ReplaceAll([c] + s, target, replacement) == [c] + ReplaceAll(s, target, replacement)
  {
    assert ([c] + s)[1..] == s;
  }

  /** A prefix at none of whose positions the target starts is kept as it is. */
  lemma {:induction false} ReplaceAllSkipsPrefix(u: string, s: string, target: string, replacement: string)
    requires |target| > 0
    requires forall k :: 0 <= k < |u| ==> !StartsWith(u[k..] + s, target)
    ensures ReplaceAll(u + s, target, replacement) == u + ReplaceAll(s, target, replacement)
  {
    if u != [] {
      var tail := u[1..];
      assert u + s == [u[0]] + (tail + s);
      assert u[0..] == u;
      ReplaceAllSkips(u[0], tail + s, target, replacement);
      forall k | 0 <= k < |tail| ensures !StartsWith(tail[k..] + s, target) {
        assert tail[k..] == u[k + 1..];
      }
      ReplaceAllSkipsPrefix(tail, s, target, replacement);
      assert u == [u[0]] + tail;
    } else {
      assert u + s == s;
    }
  }

  /** A text starting with `p` starts with every prefix of `p`. */
  lemma StartsWithPrefix(s: string, p: string, n: nat)
    requires n <= |p| && StartsWith(s, p)
    ensures StartsWith(s, p[..n])
  {
    assert s[..|p|][..n] == s[..n];
  }

  /** Dropping the first character of a text and of a prefix keeps it a prefix. */
  lemma StartsWithTail(c: char, s: string, p: string)
    requires |p| > 0 && StartsWith([c] + s, p)
    ensures StartsWith(s, p[1..])
  {
    assert ([c] + s)[..|p|][1..] == s[..|p| - 1];
  }

  /** A text starting with the target has that occurrence replaced. */
  lemma ReplaceAllMatches(s: string, target: string, replacement: string)
    requires |target| > 0
    ensures ReplaceAll(target + s, target, replacement) == replacement + ReplaceAll(s, target, replacement)
  {
    assert (target + s)[..|target|] == target;
    assert (target + s)[|target|..] == s;
  }

  /** When the first character of the target never occurs, nothing is replaced. */
  lemma {:induction false} ReplaceAllAbsent(s: string, target: string, replacement: string)
    requires |target| > 0 && target[0] !in s
    ensures ReplaceAll(s, target, replacement) == s
  {
    if |s| >= |target| {
      assert s[..|target|][0] == s[0];
      ReplaceAllAbsent(s[1..], target, replacement);
    }
  }

  /** Replacing never introduces a character that is in neither the text nor the replacement. */
  lemma {:induction false} ReplaceAllChars(s: string, target: string, replacement: string, c: char)
    requires |target| > 0 && c !in s && c !in replacement
    ensures c !in ReplaceAll(s, target, replacement)
  {
    if |s| >= |target| {
      if s[..|target|] == target {
        assert forall i :: |target| <= i < |s| ==> s[|target|..][i - |target|] == s[i];
        ReplaceAllChars(s[|target|..], target, replacement, c);
      } else {
        ReplaceAllChars(s[1..], target, replacement, c);
      }
    }
  }

  /** With a one-character target, replacing distributes over concatenation. */
  lemma {:induction false} ReplaceCharAppend(a: string, b: string, target: char, replacement: string)
    ensures ReplaceAll(a + b, [target], replacement)
         == ReplaceAll(a, [target], replacement) + ReplaceAll(b, [target], replacement)
  {
    if a != [] {
      assert (a + b)[1..] == a[1..] + b;
      assert (a + b)[..1] == a[..1];
      ReplaceCharAppend(a[1..], b, target, replacement);
      var t := [target];
      var head := if a[0] == target then replacement else [a[0]];
      assert a[..1] == t <==> a[0] == target;
      assert ReplaceAll(a, t, replacement) == head + ReplaceAll(a[1..], t, replacement);
      assert ReplaceAll(a + b, t, replacement) == head + ReplaceAll(a[1..] + b, t, replacement);
    } else {
      assert a + b == b;
    }
  }

  // ---------------------------------------------------------------------------
  // split(separator) with limit 0
  // ---------------------------------------------------------------------------

  /** All the pieces of `s` between occurrences of `sep`, empty ones included. */
  function Pieces(s: string, sep: char): (r: seq<string>)
    ensures |r| >= 1
    ensures forall i :: 0 <= i < |r| ==> sep !in r[i]
    ensures forall i, c :: 0 <= i < |r| && c in r[i] ==> c in s
    ensures r[0] == [] <==> s == [] || s[0] == sep
    decreases |s|
  {
    if s == [] then [[]]
    else
      var rest := Pieces(s[1..], sep);
      assert forall c :: c in s[1..] ==> c in s;
      if s[0] == sep then [[]] + rest
      else [[s[0]] + rest[0]] + rest[1..]
  }

  /** The pieces put back together with the separator between them. */
  function Join(parts: seq<string>, sep: char): string
  {
    if parts == [] then []
    else if |parts| == 1 then parts[0]
    else parts[0] + [sep] + Join(parts[1..], sep)
  }

  /** Joining the pieces gives back the text: splitting loses nothing. */
  lemma {:induction false} JoinPieces(s: string, sep: char)
    ensures Join(Pieces(s, sep), sep) == s
  {
    if s != [] {
      var rest := Pieces(s[1..], sep);
      JoinPieces(s[1..], sep);
      if s[0] == sep {
        assert Pieces(s, sep)[1..] == rest;
        assert Join(Pieces(s, sep), sep) == [] + [sep] + Join(rest, sep);
      } else if |rest| == 1 {
        assert Join(Pieces(s, sep), sep) == [s[0]] + rest[0];
      } else {
        assert rest == [rest[0]] + rest[1..];
        assert Pieces(s, sep)[1..] == rest[1..];
        assert Join(rest, sep) == rest[0] + [sep] + Join(rest[1..], sep);
      }
    }
  }

  /** The last piece is empty exactly when the text is empty or ends with the separator. */
  lemma {:induction false} LastPiece(s: string, sep: char)
    ensures var r := Pieces(s, sep); r[|r| - 1] == [] <==> s == [] || s[|s| - 1] == sep
  {
    if s != [] {
      LastPiece(s[1..], sep);
      if s[1..] != [] {
        assert s[1..][|s[1..]| - 1] == s[|s| - 1];
      }
    }
  }

  /**
   * When `bad` never stands just before a separator nor at the end of `s`,
   * no piece ends with `bad`.
   */
  lemma {:induction false} PiecesEnd(s: string, sep: char, bad: char)
    requires sep != bad
    requires s == [] || s[|s| - 1] != bad
    requires forall i :: 0 <= i < |s| - 1 ==> !(s[i] == bad && s[i + 1] == sep)
    ensures forall p :: p in Pieces(s, sep) ==> p == [] || p[|p| - 1] != bad
  {
    if s != [] {
      var t := s[1..];
      assert forall i :: 0 <= i < |t| ==> t[i] == s[i + 1];
      assert t != [] ==> t[|t| - 1] == s[|s| - 1];
      PiecesEnd(t, sep, bad);
      var rest := Pieces(t, sep);
      if s[0] != sep {
        var first := [s[0]] + rest[0];
        if rest[0] == [] {
          assert t == [] || t[0] == sep;
          assert first == [s[0]];
        } else {
          assert rest[0] in rest;
          assert first[|first| - 1] == rest[0][|rest[0]| - 1];
        }
        forall p | p in Pieces(s, sep) ensures p == [] || p[|p| - 1] != bad {
          if p != first {
            assert p in rest[1..];
          }
        }
      }
    }
  }

  /** Drops the empty strings at the end of `parts`. */
  function DropTrailingEmpty(parts: seq<string>): (r: seq<string>)
    ensures |r| <= |parts| && r == parts[..|r|]
    ensures r == [] || r[|r| - 1] != []
    ensures forall i :: |r| <= i < |parts| ==> parts[i] == []
  {
    if parts == [] then []
    else if parts[|parts| - 1] == [] then DropTrailingEmpty(parts[..|parts| - 1])
    else parts
  }

  /**
   * `s.split(sep)`: when `sep` does not occur the result is `[s]`; otherwise it
   * is the pieces with the empty ones at the end removed (the limit-0 rule).
   */
  function Split(s: string, sep: char): (r: seq<string>)
    ensures sep !in s ==> r == [s]
    ensures forall i :: 0 <= i < |r| ==> sep !in r[i]
    ensures |r| > 1 ==> sep in s
  {
    if sep !in s then [s]
    else
      var r := DropTrailingEmpty(Pieces(s, sep));
      assert forall i :: 0 <= i < |r| ==> r[i] == Pieces(s, sep)[i];
      r
  }

  /** A text that does not end with the separator splits into all its pieces. */
  lemma SplitAll(s: string, sep: char)
    requires s != [] && s[|s| - 1] != sep
    ensures Split(s, sep) == Pieces(s, sep)
  {
    LastPiece(s, sep);
    if sep !in s {
      NoSeparatorOnePiece(s, sep);
    }
  }

  /** Without a separator there is a single piece, the whole text. */
  lemma {:induction false} NoSeparatorOnePiece(s: string, sep: char)
    requires sep !in s
    ensures Pieces(s, sep) == [s]
  {
    if s != [] {
      NoSeparatorOnePiece(s[1..], sep);
      assert [s[0]] + s[1..] == s;
    }
  }
}
