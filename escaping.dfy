/**
 * The operator escaping of parseExpression: `|` and `&` are written as
 * " OR " and " AND " before the rewrite, the words are turned back into
 * operators after it and the spaces are dropped. Patterns are read as
 * literal text.
 */
module Escaping {
  import opened JavaStrings
  import opened Precedence

  /** `t.replaceAll("\\|", " OR ").replaceAll("&", " AND ")`. */
  function EscapeOperators(t: string): string
  {
    ReplaceAll(ReplaceAll(t, [OR], " OR "), [AND], " AND ")
  }

  /** `t.replaceAll(" AND ", "&").replaceAll(" OR ", "|").replace(" ", "")`. */
  function RestoreOperators(t: string): string
  {
    RemoveSpaces(ReplaceAll(ReplaceAll(t, " AND ", [AND]), " OR ", [OR]))
  }

  /** No `|` is directly followed by the letters AND. */
  predicate NoOrBeforeAndWord(t: string)
  {
    forall i :: 0 <= i < |t| && t[i] == OR ==> !StartsWith(t[i + 1..], "AND")
  }

  // Character-by-character descriptions of the escaped texts.

  function EscapeChar(c: char): string
  {
    if c == OR then " OR " else if c == AND then " AND " else [c]
  }

  function Escaped(t: string): string
  {
    if t == [] then [] else EscapeChar(t[0]) + Escaped(t[1..])
  }

  function EscapeOrChar(c: char): string
  {
    if c == OR then " OR " else [c]
  }

  function EscapedOr(t: string): string
  {
    if t == [] then [] else EscapeOrChar(t[0]) + EscapedOr(t[1..])
  }

  /** The first replacement writes each `|` as " OR ". */
  lemma {:induction false} FirstPass(t: string)
    ensures ReplaceAll(t, [OR], " OR ") == EscapedOr(t)
  {
    if t != [] {
      FirstPass(t[1..]);
      assert t == [t[0]] + t[1..];
      ReplaceCharAppend([t[0]], t[1..], OR, " OR ");
      assert ReplaceAll([t[0]], [OR], " OR ") == EscapeOrChar(t[0]) by {
        if t[0] != OR {
          ReplaceAllAbsent([t[0]], [OR], " OR ");
        }
      }
    }
  }

  /** The second replacement writes each `&` as " AND ". */
  lemma {:induction false} SecondPass(t: string)
    ensures ReplaceAll(EscapedOr(t), [AND], " AND ") == Escaped(t)
  {
    if t != [] {
      SecondPass(t[1..]);
      ReplaceCharAppend(EscapeOrChar(t[0]), EscapedOr(t[1..]), AND, " AND ");
      assert ReplaceAll(EscapeOrChar(t[0]), [AND], " AND ") == EscapeChar(t[0]) by {
        if t[0] != AND {
          ReplaceAllAbsent(EscapeOrChar(t[0]), [AND], " AND ");
        }
      }
    }
  }

  lemma EscapeIsEscaped(t: string)
    ensures EscapeOperators(t) == Escaped(t)
  {
    FirstPass(t);
    SecondPass(t);
  }

  /** A prefix without spaces of the escaped text is a prefix of the text itself. */
  lemma {:induction false} EscapedPrefix(t: string, p: string)
    requires ' ' !in p && StartsWith(Escaped(t), p)
    ensures StartsWith(t, p)
  {
    if p != [] {
      assert Escaped(t)[0] == p[0];
      assert t != [];
      assert EscapeChar(t[0])[0] == p[0];
      assert t[0] != OR && t[0] != AND;
      assert Escaped(t) == [t[0]] + Escaped(t[1..]);
      assert Escaped(t[1..])[..|p| - 1] == Escaped(t)[1..|p|];
      EscapedPrefix(t[1..], p[1..]);
      assert t[..|p|] == [t[0]] + t[1..][..|p| - 1];
    }
  }

  /** " OR " before a text not starting with the letters AND holds no " AND ". */
  lemma SkipOrWord(rest: string)
    requires !StartsWith(rest, "AND")
    ensures ReplaceAll(" OR " + rest, " AND ", [AND]) == " OR " + ReplaceAll(rest, " AND ", [AND])
  {
    var u := " OR ";
    forall k | 0 <= k < |u| ensures !StartsWith(u[k..] + rest, " AND ") {
      if k == 0 {
        Mismatch(u[k..] + rest, " AND ", 1);
      } else if k == 1 || k == 2 {
        Mismatch(u[k..] + rest, " AND ", 0);
      } else if StartsWith(u[k..] + rest, " AND ") {
        assert u[k..] + rest == [' '] + rest;
        StartsWithTail(' ', rest, " AND ");
        StartsWithPrefix(rest, "AND ", 3);
      }
    }
    ReplaceAllSkipsPrefix(u, rest, " AND ", [AND]);
  }

  /** Turning " AND " back into `&` undoes the second replacement. */
  lemma {:induction false} UndoSecond(t: string)
    requires ' ' !in t && NoOrBeforeAndWord(t)
    ensures ReplaceAll(Escaped(t), " AND ", [AND]) == EscapedOr(t)
  {
    if t != [] {
      var rest := Escaped(t[1..]);
      assert NoOrBeforeAndWord(t[1..]) by {
        forall i | 0 <= i < |t[1..]| && t[1..][i] == OR
          ensures !StartsWith(t[1..][i + 1..], "AND")
        {
          assert t[1..][i + 1..] == t[i + 2..];
        }
      }
      assert ' ' !in t[1..];
      UndoSecond(t[1..]);
      if t[0] == OR {
        assert !StartsWith(t[1..], "AND");
        if StartsWith(rest, "AND") {
          EscapedPrefix(t[1..], "AND");
        }
        SkipOrWord(rest);
        assert Escaped(t) == " OR " + rest;
      } else if t[0] == AND {
        ReplaceAllMatches(rest, " AND ", [AND]);
        assert Escaped(t) == " AND " + rest;
      } else {
        Mismatch([t[0]] + rest, " AND ", 0);
        ReplaceAllSkips(t[0], rest, " AND ", [AND]);
        assert Escaped(t) == [t[0]] + rest;
      }
    }
  }

  /** Turning " OR " back into `|` undoes the first replacement on text without spaces. */
  lemma {:induction false} UndoFirst(t: string)
    requires ' ' !in t
    ensures ReplaceAll(EscapedOr(t), " OR ", [OR]) == t
  {
    if t != [] {
      var rest := EscapedOr(t[1..]);
      assert ' ' !in t[1..];
      UndoFirst(t[1..]);
      if t[0] == OR {
        ReplaceAllMatches(rest, " OR ", [OR]);
        assert EscapedOr(t) == " OR " + rest;
      } else {
        Mismatch([t[0]] + rest, " OR ", 0);
        ReplaceAllSkips(t[0], rest, " OR ", [OR]);
        assert EscapedOr(t) == [t[0]] + rest;
      }
      assert t == [t[0]] + t[1..];
    }
  }

  /**
   * Escaping and restoring give the text back when it has no spaces and no
   * `|` directly before the letters AND.
   */
  lemma EscapeRoundTrip(t: string)
    requires ' ' !in t && NoOrBeforeAndWord(t)
    ensures RestoreOperators(EscapeOperators(t)) == t
  {
    EscapeIsEscaped(t);
    UndoSecond(t);
    UndoFirst(t);
    RemoveSpacesKeeps(t);
  }

  /** Escaping brings in nothing but spaces and the letters of OR and AND. */
  lemma EscapeKeepsOut(t: string, c: char)
    requires c !in t && c !in " OR " && c !in " AND "
    ensures c !in EscapeOperators(t)
  {
    ReplaceAllChars(t, [OR], " OR ", c);
    ReplaceAllChars(ReplaceAll(t, [OR], " OR "), [AND], " AND ", c);
  }

  /** A `|` before the letters AND does not survive the round trip: `|AND|` comes back as `OR&OR`. */
  lemma OrBeforeAndWordLost()
    ensures RestoreOperators(EscapeOperators("|AND|")) == "OR&OR"
  {
    EscapeExample();
    AndWordExample();
    OrWordExample();
    SpacesExample();
  }

  lemma EscapeExample()
    ensures EscapeOperators("|AND|") == " OR AND OR "
  {
    EscapeIsEscaped("|AND|");
    assert Escaped("|") == " OR ";
    assert Escaped("D|") == "D OR ";
    assert Escaped("ND|") == "ND OR ";
    assert Escaped("AND|") == "AND OR ";
  }

  lemma AndWordExample()
    ensures ReplaceAll(" OR AND OR ", " AND ", [AND]) == " OR&OR "
  {
    var tgt := " AND ";
    var u, tail := " OR", "OR ";
    forall k | 0 <= k < |u| ensures !StartsWith(u[k..] + (tgt + tail), tgt) {
      if k == 0 {
        Mismatch(u[k..] + (tgt + tail), tgt, 1);
      } else {
        Mismatch(u[k..] + (tgt + tail), tgt, 0);
      }
    }
    ReplaceAllSkipsPrefix(u, tgt + tail, tgt, [AND]);
    ReplaceAllMatches(tail, tgt, [AND]);
    assert ReplaceAll(tail, tgt, [AND]) == tail;
    assert u + (tgt + tail) == " OR AND OR ";
    assert u + ([AND] + tail) == " OR&OR ";
  }

  lemma OrWordExample()
    ensures ReplaceAll(" OR&OR ", " OR ", [OR]) == " OR&OR "
  {
    var tgt := " OR ";
    var s := " OR&OR ";
    forall k | 0 <= k < |s| ensures !StartsWith(s[k..] + [], tgt) {
      if k == 0 {
        Mismatch(s[k..] + [], tgt, 3);
      } else if k < 6 {
        Mismatch(s[k..] + [], tgt, 0);
      } else {
        Mismatch(s[k..] + [], tgt, 1);
      }
    }
    ReplaceAllSkipsPrefix(s, [], tgt, [OR]);
    assert s + [] == s;
  }

  lemma SpacesExample()
    ensures RemoveSpaces(" OR&OR ") == "OR&OR"
  {
    var sp, w := " ", "OR&OR";
    assert " OR&OR " == sp + (w + sp);
    RemoveSpacesAppend(sp, w + sp);
    RemoveSpacesAppend(w, sp);
    RemoveSpacesKeeps(w);
    assert RemoveSpaces(sp) == [];
  }
}
