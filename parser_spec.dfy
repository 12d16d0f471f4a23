/**
 * parseExpression as a reference function: the group-extraction loop, the
 * rewrite of what is left of the text, the flat parse of it and the
 * substitution of the stored groups.
 */
module ParserSpec {
  import opened Wrappers
  import opened JavaExceptions
  import opened JavaStrings
  import opened ExpressionNodes
  import opened Brackets
  import opened Precedence
  import opened Escaping
  import opened Substitution

  // ---------------------------------------------------------------------------
  // Keys "P" + idx
  // ---------------------------------------------------------------------------

  function Digit(d: nat): char
    requires d < 10
  {
    ('0' as int + d) as char
  }

  /** The decimal digits of `n`, most significant first, as Java prints an int. */
  function Decimal(n: nat): (r: string)
    ensures |r| >= 1
  {
    if n < 10 then [Digit(n)] else Decimal(n / 10) + [Digit(n % 10)]
  }

  /** The key `"P" + idx` a group is stored under. */
  function Key(idx: nat): string
  {
    "P" + Decimal(idx)
  }

  /** A key is a `P` followed by the decimal text of its counter, at least one digit long. */
  lemma KeyShape(idx: nat)
    ensures var k := Key(idx); |k| >= 2 && k[0] == 'P' && k[1..] == Decimal(idx)
  {
  }

  lemma {:induction false} DecimalInjective(a: nat, b: nat)
    requires Decimal(a) == Decimal(b)
    ensures a == b
    decreases a
  {
    var da, db := Decimal(a), Decimal(b);
    if a >= 10 && b >= 10 {
      assert da[..|da| - 1] == Decimal(a / 10);
      assert db[..|db| - 1] == Decimal(b / 10);
      DecimalInjective(a / 10, b / 10);
      assert da[|da| - 1] == Digit(a % 10) && db[|db| - 1] == Digit(b % 10);
    }
  }

  /** Different indices give different keys, so no stored group is overwritten. */
  lemma KeyInjective(i: nat, j: nat)
    ensures Key(i) == Key(j) ==> i == j
  {
    if Key(i) == Key(j) {
      assert Key(i)[1..] == Decimal(i) && Key(j)[1..] == Decimal(j);
      DecimalInjective(i, j);
    }
  }

  /** The keys of the `n` indices from `from` on. */
  function KeysFrom(from: nat, n: nat): (r: set<string>)
    ensures forall j: nat :: from <= j < from + n ==> Key(j) in r
    decreases n
  {
    if n == 0 then {} else {Key(from)} + KeysFrom(from + 1, n - 1)
  }

  // ---------------------------------------------------------------------------
  // The extraction loop (lines 155-180) and parseExpression
  // ---------------------------------------------------------------------------

  /** The variables of the extraction loop. */
  datatype Extraction = Extraction(
    workingExpr: string,
    idx: nat,
    exprMap: map<string, string>,
    exprNodes: map<string, Tree>)

  /**
   * What is left of the working text once its first group is taken: the text
   * after the character that follows the `)`, or nothing.
   */
  function Remainder(w: string): (r: string)
    requires HasMatchingClose(w)
    ensures |r| < |w|
    ensures forall c :: c in r ==> c in w
  {
    var eb := Bracket(w);
    if eb.offsetEnd + 1 <= |w| then w[eb.offsetEnd + 1..] else []
  }

  /** One round of the loop, the group's parse being `node`. */
  function Round(st: Extraction, node: Tree): (r: Extraction)
    requires HasMatchingClose(st.workingExpr)
    ensures |r.workingExpr| < |st.workingExpr| && r.idx == st.idx + 1
  {
    var eb := Bracket(st.workingExpr);
    var key := Key(st.idx);
    Extraction(Remainder(st.workingExpr), st.idx + 1,
               st.exprMap[key := EscapeOperators(eb.expr)],
               st.exprNodes[key := node])
  }

  /**
   * The extraction loop from state `st`: each round stores the escaped text
   * of the first group and its parse under the next key, then continues on
   * the remainder. A `(` without its `)` makes the scan read past the end.
   */
  function Extracted(st: Extraction): Result<Extraction, Fault>
    decreases |st.workingExpr|, 0
  {
    var w := st.workingExpr;
    if OPEN_BRACKET !in w then Ok(st)
    else if !HasMatchingClose(w) then Failure(ArrayIndexOutOfBounds)
    else
      match Parsed(Bracket(w).expr)
      case Failure(e) => Failure(e)
      case Ok(node) => Extracted(Round(st, node))
  }

  /**
   * parseExpression. Without a `(` the text with spaces removed is parsed
   * flat. Otherwise the groups are extracted; the text left after the last
   * group has its operators escaped and restored (the rewrite of each stored
   * group's text changes nothing, as nothing left has a `(`), is parsed flat,
   * and the stored groups are substituted.
   */
  function Parsed(expressionInput: string): Result<Tree, Fault>
    decreases |expressionInput|, 1
  {
    var expression := RemoveSpaces(expressionInput);
    if OPEN_BRACKET !in expression then Ok(FlatParsed(expression))
    else
      match Extracted(Extraction(expression, 0, map[], map[]))
      case Failure(e) => Failure(e)
      case Ok(x) =>
        Substituted(FlatParsed(RestoreOperators(EscapeOperators(x.workingExpr))), x.exprNodes)
  }

  /** The texts inside the top-level groups of `w`, in the order the loop takes them. */
  function Groups(w: string): (gs: seq<string>)
    ensures forall j :: 0 <= j < |gs| ==> |gs[j]| < |w|
    decreases |w|
  {
    if OPEN_BRACKET !in w || !HasMatchingClose(w) then []
    else [Bracket(w).expr] + Groups(Remainder(w))
  }

  // ---------------------------------------------------------------------------
  // Properties
  // ---------------------------------------------------------------------------

  /** The result depends only on the text with its spaces removed. */
  lemma ParsedIgnoresSpaces(s: string)
    ensures Parsed(s) == Parsed(RemoveSpaces(s))
  {
    RemoveSpacesIdempotent(s);
  }

  /** Without a `(` the result is the flat parse of the text with spaces removed. */
  lemma ParsedWithoutBrackets(s: string)
    requires OPEN_BRACKET !in RemoveSpaces(s)
    ensures Parsed(s) == Ok(FlatParsed(RemoveSpaces(s)))
  {
  }

  /**
   * Without a `(` and without an empty operand at the end of a segment, the
   * tree built renders back to the text with spaces removed.
   */
  lemma ParsedRendersBack(s: string)
    requires OPEN_BRACKET !in RemoveSpaces(s) && WellTerminated(RemoveSpaces(s))
    ensures Parsed(s).Ok? && Render(Parsed(s).value) == RemoveSpaces(s)
  {
    FlatRoundTrip(RemoveSpaces(s));
  }

  /** Every group is balanced, and the groups are strictly shorter than the text they come from. */
  lemma {:induction false} GroupsBalanced(w: string)
    ensures forall g :: g in Groups(w) ==> Balanced(g) && |g| < |w|
    decreases |w|
  {
    if OPEN_BRACKET in w && HasMatchingClose(w) {
      BracketBalanced(w);
      GroupsBalanced(Remainder(w));
    }
  }

  /**
   * A round that the loop completes. This only unfolds Extracted; the
   * results about the loop are ExtractedEnds, ExtractedKeys and ExtractedNodes.
   */
  lemma ExtractedStep(st: Extraction)
    requires Extracted(st).Ok? && OPEN_BRACKET in st.workingExpr
    ensures HasMatchingClose(st.workingExpr) && Parsed(Bracket(st.workingExpr).expr).Ok?
    ensures Extracted(st) == Extracted(Round(st, Parsed(Bracket(st.workingExpr).expr).value))
  {
  }

  /** The loop ends with no `(` left, after one round per group, and the text left keeps having no spaces. */
  lemma {:induction false} ExtractedEnds(st: Extraction)
    requires Extracted(st).Ok?
    ensures var x := Extracted(st).value;
      && OPEN_BRACKET !in x.workingExpr
      && (' ' !in st.workingExpr ==> ' ' !in x.workingExpr)
      && x.idx == st.idx + |Groups(st.workingExpr)|
    decreases |st.workingExpr|
  {
    if OPEN_BRACKET in st.workingExpr {
      ExtractedStep(st);
      ExtractedEnds(Round(st, Parsed(Bracket(st.workingExpr).expr).value));
    }
  }

  /** The loop adds exactly the keys of the indices it hands out, one per group. */
  lemma {:induction false} ExtractedKeys(st: Extraction)
    requires Extracted(st).Ok?
    ensures Extracted(st).value.exprNodes.Keys
         == st.exprNodes.Keys + KeysFrom(st.idx, |Groups(st.workingExpr)|)
    decreases |st.workingExpr|
  {
    if OPEN_BRACKET in st.workingExpr {
      ExtractedStep(st);
      var next := Round(st, Parsed(Bracket(st.workingExpr).expr).value);
      ExtractedKeys(next);
      RoundKeys(st, Parsed(Bracket(st.workingExpr).expr).value);
    }
  }

  /** One round adds the key of its index and leaves one group fewer. */
  lemma RoundKeys(st: Extraction, node: Tree)
    requires OPEN_BRACKET in st.workingExpr && HasMatchingClose(st.workingExpr)
    ensures var next := Round(st, node);
      st.exprNodes.Keys + KeysFrom(st.idx, |Groups(st.workingExpr)|)
      == next.exprNodes.Keys + KeysFrom(next.idx, |Groups(next.workingExpr)|)
  {
    var rest := Remainder(st.workingExpr);
    GroupsStep(st.workingExpr);
    KeysShift(st.exprNodes.Keys, st.exprNodes[Key(st.idx) := node].Keys, st.idx, |Groups(rest)|);
  }

  /** Taking the first group leaves the groups of the remainder. */
  lemma GroupsStep(w: string)
    requires OPEN_BRACKET in w && HasMatchingClose(w)
    ensures |Groups(w)| == 1 + |Groups(Remainder(w))|
  {
  }

  /** Adding the key of index `idx` to `a` moves it out of the keys still to come. */
  lemma KeysShift(a: set<string>, b: set<string>, idx: nat, n: nat)
    requires b == a + {Key(idx)}
    ensures a + KeysFrom(idx, n + 1) == b + KeysFrom(idx + 1, n)
  {
    KeysFromStep(idx, n);
    UnionShift(a, Key(idx), KeysFrom(idx + 1, n));
  }

  lemma KeysFromStep(from: nat, n: nat)
    ensures KeysFrom(from, n + 1) == {Key(from)} + KeysFrom(from + 1, n)
  {
  }

  lemma UnionShift<T>(a: set<T>, k: T, rest: set<T>)
    ensures a + ({k} + rest) == (a + {k}) + rest
  {
  }

  /**
   * `m` holds, from key `Key(idx)` onwards and one key per group of `gs` in
   * order, the parse of that group's text.
   */
  predicate StoredNodes(m: map<string, Tree>, idx: nat, gs: seq<string>)
    decreases |gs|
  {
    gs == [] ||
    (Key(idx) in m && Parsed(gs[0]) == Ok(m[Key(idx)]) && StoredNodes(m, idx + 1, gs[1..]))
  }

  /** Likewise for the escaped texts of the groups. */
  predicate StoredTexts(m: map<string, string>, idx: nat, gs: seq<string>)
    decreases |gs|
  {
    gs == [] ||
    (Key(idx) in m && m[Key(idx)] == EscapeOperators(gs[0]) && StoredTexts(m, idx + 1, gs[1..]))
  }

  /** The extraction loop stores the parse of each group, in order, under the keys from the starting index on. */
  lemma {:induction false} ExtractedNodes(st: Extraction)
    requires Extracted(st).Ok?
    ensures StoredNodes(Extracted(st).value.exprNodes, st.idx, Groups(st.workingExpr))
    decreases |st.workingExpr|
  {
    var w := st.workingExpr;
    if OPEN_BRACKET in w {
      ExtractedStep(st);
      var eb := Bracket(w);
      var node := Parsed(eb.expr).value;
      var next := Round(st, node);
      ExtractedNodes(next);
      LaterKeysDiffer(st.idx);
      FirstKeyKept(next, Key(st.idx), node, EscapeOperators(eb.expr));
      ShiftGroups(st, next);
    }
  }

  /** Likewise for the escaped texts stored in `exprMap`. */
  lemma {:induction false} ExtractedTexts(st: Extraction)
    requires Extracted(st).Ok?
    ensures StoredTexts(Extracted(st).value.exprMap, st.idx, Groups(st.workingExpr))
    decreases |st.workingExpr|
  {
    var w := st.workingExpr;
    if OPEN_BRACKET in w {
      ExtractedStep(st);
      var eb := Bracket(w);
      var node := Parsed(eb.expr).value;
      var next := Round(st, node);
      ExtractedTexts(next);
      LaterKeysDiffer(st.idx);
      FirstKeyKept(next, Key(st.idx), node, EscapeOperators(eb.expr));
      ShiftGroups(st, next);
    }
  }

  /** Every key handed out after index `i` differs from the key of `i`. */
  lemma LaterKeysDiffer(i: nat)
    ensures forall j: nat :: i + 1 <= j ==> Key(j) != Key(i)
  {
    forall j: nat | i + 1 <= j ensures Key(j) != Key(i) {
      KeyInjective(j, i);
    }
  }

  /**
   * The groups after the first are the groups of the remainder, one index
   * further on. This only unfolds Groups, for use by the lemmas about the loop.
   */
  lemma ShiftGroups(st: Extraction, next: Extraction)
    requires HasMatchingClose(st.workingExpr) && next.workingExpr == Remainder(st.workingExpr)
    requires next.idx == st.idx + 1
    ensures var gs := Groups(st.workingExpr);
      |gs| >= 1 && gs[0] == Bracket(st.workingExpr).expr && gs[1..] == Groups(next.workingExpr)
  {
  }

  /** A key no later round hands out keeps the values stored under it. */
  lemma {:induction false} FirstKeyKept(st: Extraction, key: string, node: Tree, text: string)
    requires Extracted(st).Ok?
    requires key in st.exprNodes && st.exprNodes[key] == node
    requires key in st.exprMap && st.exprMap[key] == text
    requires forall j: nat :: st.idx <= j ==> Key(j) != key
    ensures var x := Extracted(st).value; key in x.exprNodes && x.exprNodes[key] == node
    ensures var x := Extracted(st).value; key in x.exprMap && x.exprMap[key] == text
    decreases |st.workingExpr|
  {
    if OPEN_BRACKET in st.workingExpr {
      ExtractedStep(st);
      FirstKeyKept(Round(st, Parsed(Bracket(st.workingExpr).expr).value), key, node, text);
    }
  }
}
