/**
 * The operator-precedence layer for text without brackets
 * (parseExpressionWithoutParenthesis, parseExpressionAndNot, parseOperatorNot,
 * parseSheet) as reference functions on trees.
 *
 * Both splits are read as splits on the operator character itself;
 * regular expressions are not modelled. As regular expressions the Java
 * patterns mean something else: the AND pattern (a doubled backslash, then `&`)
 * matches only a backslash followed by `&`, and the OR pattern (a doubled
 * backslash, then `|`) is the alternation of a backslash and the empty string,
 * which cuts the text between every two characters.
 */
module Precedence {
  import opened Wrappers
  import opened JavaStrings
  import opened ExpressionNodes

  const OR: char := '|'
  const AND: char := '&'
  const NOT: char := '!'

  /**
   * One operand of an AND: a leading `!` makes a NOT over a sheet of the rest
   * (only that one `!` is stripped); anything else is a sheet of the whole text.
   */
  function NotOrSheet(piece: string): (t: Tree)
    ensures Render(t) == piece
    ensures t.op == Some(Not) <==> |piece| > 0 && piece[0] == NOT
    ensures t.op == Some(Not) ==> t.subNodes == [Sheet(piece[1..])]
    ensures t.op == None ==> t == Sheet(piece)
  {
    if |piece| > 0 && piece[0] == NOT then
      assert [piece[0]] + piece[1..] == piece;
      OpNode(Not, [Sheet(piece[1..])])
    else Sheet(piece)
  }

  /** The AND pieces of an OR segment, spaces removed first. */
  function AndPieces(expr: string): seq<string>
  {
    Split(RemoveSpaces(expr), AND)
  }

  /** The operands of an AND, one per piece, in order. */
  function AndOperands(pieces: seq<string>): (r: seq<Tree>)
    ensures |r| == |pieces|
    ensures forall i :: 0 <= i < |pieces| ==> r[i] == NotOrSheet(pieces[i])
  {
    if pieces == [] then []
    else AndOperands(pieces[..|pieces| - 1]) + [NotOrSheet(pieces[|pieces| - 1])]
  }

  /** parseExpressionAndNot with no current node: an AND over the pieces, or one operand. */
  function AndNotParsed(expr: string): (t: Tree)
  {
    var pieces := AndPieces(expr);
    if |pieces| > 1 then OpNode(And, AndOperands(pieces))
    else NotOrSheet(expr)
  }

  /** True when `expr` holds one of the three operators. */
  predicate HasOperator(expr: string)
  {
    OR in expr || AND in expr || NOT in expr
  }

  /** The OR segments of a text. */
  function OrSegments(expr: string): seq<string>
  {
    Split(expr, OR)
  }

  /** The operands of an OR, one per segment, in order. */
  function OrOperands(segments: seq<string>): (r: seq<Tree>)
    ensures |r| == |segments|
    ensures forall i :: 0 <= i < |segments| ==> r[i] == AndNotParsed(segments[i])
  {
    if segments == [] then []
    else OrOperands(segments[..|segments| - 1]) + [AndNotParsed(segments[|segments| - 1])]
  }

  /** One more segment adds its operand at the end. */
  lemma OrOperandsSnoc(segments: seq<string>, i: nat)
    requires i < |segments|
    ensures OrOperands(segments[..i + 1]) == OrOperands(segments[..i]) + [AndNotParsed(segments[i])]
  {
    assert segments[..i + 1][..i] == segments[..i];
  }

  /** parseExpressionWithoutParenthesis. */
  function FlatParsed(expr: string): (t: Tree)
  {
    if !HasOperator(expr) then Sheet(expr)
    else
      var segments := OrSegments(expr);
      if |segments| > 1 then OpNode(Or, OrOperands(segments))
      else AndNotParsed(expr)
  }

  // ---------------------------------------------------------------------------
  // The layers, as the source promises them
  // ---------------------------------------------------------------------------

  /**
   * Operator-free text is a single sheet holding exactly that text. This only
   * unfolds FlatParsed; it states the first branch of the source in one place.
   */
  lemma OperatorFreeIsSheet(expr: string)
    requires !HasOperator(expr)
    ensures FlatParsed(expr) == Sheet(expr)
    ensures Render(FlatParsed(expr)) == expr
  {
  }

  /**
   * With more than one OR segment the result is an OR node with one child per
   * segment, in order, each the AND/NOT layer's tree of that segment; with at
   * most one, it is the AND/NOT layer's tree of the whole text. This only
   * unfolds FlatParsed; FlatParsedShape and FlatRoundTrip are the results built on it.
   */
  lemma OrLayer(expr: string)
    requires HasOperator(expr)
    ensures var segments := OrSegments(expr); var t := FlatParsed(expr);
      if |segments| > 1 then
        && t.op == Some(Or) && t.value == None
        && |t.subNodes| == |segments|
        && forall i :: 0 <= i < |segments| ==> t.subNodes[i] == AndNotParsed(segments[i])
      else t == AndNotParsed(expr)
  {
  }

  /**
   * With more than one AND piece the result is an AND node with one child per
   * piece, in order: a NOT over the rest of a piece starting with `!`, a sheet
   * of any other piece. With at most one piece the whole text is one operand.
   * This only unfolds AndNotParsed; AndNotShape and AndNotRoundTrip are the
   * results built on it.
   */
  lemma AndNotLayer(expr: string)
    ensures var pieces := AndPieces(expr); var t := AndNotParsed(expr);
      if |pieces| > 1 then
        && t.op == Some(And) && t.value == None
        && |t.subNodes| == |pieces|
        && forall i :: 0 <= i < |pieces| ==>
             if |pieces[i]| > 0 && pieces[i][0] == NOT
             then t.subNodes[i] == OpNode(Not, [Sheet(pieces[i][1..])])
             else t.subNodes[i] == Sheet(pieces[i])
      else if |expr| > 0 && expr[0] == NOT then t == OpNode(Not, [Sheet(expr[1..])])
      else t == Sheet(expr)
  {
  }

  // ---------------------------------------------------------------------------
  // Shape of the trees built
  // ---------------------------------------------------------------------------

  /** A sheet, or a NOT over exactly one sheet. */
  predicate IsOperand(t: Tree)
  {
    t.op != Some(Or) && t.op != Some(And) &&
    (t.op == None ==> t.value.Some? && t.subNodes == []) &&
    (t.op == Some(Not) ==> t.value == None && |t.subNodes| == 1 && t.subNodes[0].op == None
                           && t.subNodes[0].value.Some? && t.subNodes[0].subNodes == [])
  }

  /** An operand, or an AND over at least two operands. */
  predicate IsConjunction(t: Tree)
  {
    IsOperand(t) ||
    (t.op == Some(And) && t.value == None && |t.subNodes| >= 2 &&
     forall i :: 0 <= i < |t.subNodes| ==> IsOperand(t.subNodes[i]))
  }

  /** A conjunction, or an OR over at least two conjunctions. */
  predicate IsFlatTree(t: Tree)
  {
    IsConjunction(t) ||
    (t.op == Some(Or) && t.value == None && |t.subNodes| >= 2 &&
     forall i :: 0 <= i < |t.subNodes| ==> IsConjunction(t.subNodes[i]))
  }

  /**
   * Without brackets the tree is at most three levels deep: OR over AND over
   * NOT over sheets, every OR and AND having two or more operands and every
   * NOT exactly one sheet (so a second `!` stays in the sheet's value).
   */
  lemma FlatParsedShape(expr: string)
    ensures IsFlatTree(FlatParsed(expr))
  {
    if HasOperator(expr) {
      var segments := OrSegments(expr);
      if |segments| > 1 {
        var kids := OrOperands(segments);
        forall i | 0 <= i < |kids| ensures IsConjunction(kids[i]) {
          AndNotShape(segments[i]);
        }
      } else {
        AndNotShape(expr);
      }
    }
  }

  /** The AND/NOT layer builds a conjunction. */
  lemma AndNotShape(s: string)
    ensures IsConjunction(AndNotParsed(s))
  {
    var pieces := AndPieces(s);
    if |pieces| > 1 {
      var kids := AndOperands(pieces);
      assert forall i :: 0 <= i < |kids| ==> IsOperand(kids[i]);
    }
  }

  // ---------------------------------------------------------------------------
  // Rendering back: the parse loses nothing of well-terminated text
  // ---------------------------------------------------------------------------

  /** No operand is empty at the end of a segment or of the text: no trailing `|` or `&`, and no `&|`. */
  predicate WellTerminated(s: string)
  {
    (s == [] || (s[|s| - 1] != OR && s[|s| - 1] != AND)) &&
    forall i :: 0 <= i < |s| - 1 ==> !(s[i] == AND && s[i + 1] == OR)
  }

  /** Rendering children one by one and joining them. */
  lemma RenderJoin(o: Operator, parts: seq<string>, kids: seq<Tree>)
    requires o != Not && |kids| == |parts|
    requires forall i :: 0 <= i < |parts| ==> Render(kids[i]) == parts[i]
    ensures Render(OpNode(o, kids)) == Join(parts, if o == Or then OR else AND)
  {
    assert RenderAll(kids) == parts;
  }

  /** An OR segment without spaces that does not end with `&` renders back to itself. */
  lemma AndNotRoundTrip(s: string)
    requires ' ' !in s
    requires s == [] || s[|s| - 1] != AND
    ensures Render(AndNotParsed(s)) == s
  {
    RemoveSpacesKeeps(s);
    var pieces := AndPieces(s);
    if |pieces| > 1 {
      SplitAll(s, AND);
      JoinPieces(s, AND);
      RenderJoin(And, pieces, AndOperands(pieces));
    }
  }

  /** Every OR segment of well-terminated text renders back to itself. */
  lemma SegmentsRoundTrip(s: string)
    requires ' ' !in s && WellTerminated(s) && s != [] && OR in s
    ensures OrSegments(s) == Pieces(s, OR)
    ensures forall i :: 0 <= i < |OrSegments(s)| ==> Render(AndNotParsed(OrSegments(s)[i])) == OrSegments(s)[i]
  {
    var segments := OrSegments(s);
    SplitAll(s, OR);
    PiecesEnd(s, OR, AND);
    forall i | 0 <= i < |segments|
      ensures Render(AndNotParsed(segments[i])) == segments[i]
    {
      assert segments[i] in Pieces(s, OR);
      AndNotRoundTrip(segments[i]);
    }
  }

  /**
   * Text without spaces and without an empty operand at the end of a segment
   * renders back to itself: splitting on OR and AND loses nothing.
   */
  lemma FlatRoundTrip(s: string)
    requires ' ' !in s && WellTerminated(s)
    ensures Render(FlatParsed(s)) == s
  {
    if HasOperator(s) {
      var segments := OrSegments(s);
      if |segments| > 1 {
        SegmentsRoundTrip(s);
        JoinPieces(s, OR);
        RenderJoin(Or, segments, OrOperands(segments));
      } else {
        AndNotRoundTrip(s);
      }
    }
  }
}
