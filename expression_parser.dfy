/**
 * ExpressionParser as the Java code runs it: methods that build
 * ExpressionNode objects step by step, each proved to build the tree the
 * reference functions of Brackets, Precedence, Substitution and ParserSpec
 * describe. A Java exception becomes a Failure result.
 */
module ExpressionParser {
  import opened Wrappers
  import opened JavaExceptions
  import opened JavaStrings
  import opened JavaLists
  import opened ExpressionNodes
  import opened Brackets
  import opened Precedence
  import opened Escaping
  import opened Substitution
  import opened ParserSpec

  /**
   * The nodes stored in `exprNodes` are valid, lie inside `stored`, and stand
   * for the trees of `mm`, key by key.
   */
  ghost predicate StoredAs(exprNodes: map<string, ExpressionNode>, mm: map<string, Tree>, stored: set<object>)
    reads stored
  {
    exprNodes.Keys == mm.Keys &&
    forall k :: k in exprNodes ==>
      exprNodes[k] in stored && exprNodes[k].Repr <= stored && exprNodes[k].Valid() && exprNodes[k].model == mm[k]
  }

  /**
   * extractExprWithinParenthesis: scans from just after the first `(` for the
   * `)` at nesting level 0. Running past the end of the text is the
   * ArrayIndexOutOfBoundsException of the character-array read.
   */
  method ExtractExprWithinParenthesis(workingExpr: string) returns (r: Result<ExpressionBracket, Fault>)
    requires OPEN_BRACKET in workingExpr
    ensures r.Ok? <==> HasMatchingClose(workingExpr)
    ensures r.Ok? ==> r.value == Bracket(workingExpr)
    ensures r.Failure? ==> r.error == ArrayIndexOutOfBounds
  {
    var chars := workingExpr;
    var offsetOpenBracket := IndexOf(workingExpr, OPEN_BRACKET);
    var offsetEnd := offsetOpenBracket + 1;
    var bracketLevel := 0;
    var closingBracketFound := false;
    while !closingBracketFound
      invariant offsetOpenBracket + 1 <= offsetEnd <= |chars|
      invariant !closingBracketFound ==>
        bracketLevel >= 0 &&
        MatchingClose(chars, offsetEnd, bracketLevel) == MatchingClose(chars, offsetOpenBracket + 1, 0)
      invariant closingBracketFound ==>
        MatchingClose(chars, offsetOpenBracket + 1, 0) == Some(offsetEnd - 1)
      decreases |chars| - offsetEnd
    {
      if offsetEnd >= |chars| {
        return Failure(ArrayIndexOutOfBounds);
      }
      if chars[offsetEnd] == OPEN_BRACKET {
        bracketLevel := bracketLevel + 1;
      }
      if chars[offsetEnd] == CLOSE_BRACKET {
        if bracketLevel == 0 {
          closingBracketFound := true;
        }
        bracketLevel := bracketLevel - 1;
      }
      offsetEnd := offsetEnd + 1;
    }
    var withinBracketExpr := workingExpr[offsetOpenBracket + 1..offsetEnd - 1];
    return Ok(ExpressionBracket(withinBracketExpr, offsetEnd));
  }

  /**
   * parseExpression: the text with spaces removed is parsed flat when it has
   * no `(`; otherwise the groups are extracted and parsed recursively, the
   * text left is escaped, rewritten and restored, parsed flat, and the stored
   * groups are substituted into the result. The exceptions the Java code
   * throws are the failures of ParserSpec.Parsed.
   */
  method ParseExpression(expressionInput: string) returns (r: Result<ExpressionNode, Fault>)
    ensures r.Ok? <==> Parsed(expressionInput).Ok?
    ensures r.Failure? ==> Parsed(expressionInput) == Failure(r.error)
    ensures r.Ok? ==> r.value.Valid() && r.value.model == Parsed(expressionInput).value
    decreases |expressionInput|, 1
  {
    var expression := RemoveSpaces(expressionInput);
    if OPEN_BRACKET !in expression {
      var flat := ParseExpressionWithoutParenthesis(expression);
      return Ok(flat);
    }
    ghost var start := Extraction(expression, 0, map[], map[]);
    var extracted;
    ghost var mm, stored;
    extracted, mm, stored := ExtractGroups(expression);
    if extracted.Failure? {
      return Failure(extracted.error);
    }
    var (workingExpr, exprMap, exprNodes) := extracted.value;
    ExtractedEnds(start);
    var exp := EscapeOperators(workingExpr);
    EscapeKeepsOut(workingExpr, OPEN_BRACKET);
    exp := RewriteGroups(exp, exprMap);
    exp := RestoreOperators(exp);
    var returnedNode := ParseExpressionWithoutParenthesis(exp);
    r := SubstituteAll(returnedNode, exprNodes, mm, stored);
  }

  /**
   * The extraction loop of parseExpression: while a `(` is left, the first
   * group is found, its escaped text and its parse are stored under the next
   * key, and the loop goes on after the group. `mm` holds the trees of the
   * nodes stored, which lie inside `stored`.
   */
  method ExtractGroups(expression: string)
    returns (r: Result<(string, map<string, string>, map<string, ExpressionNode>), Fault>,
             ghost mm: map<string, Tree>, ghost stored: set<object>)
    ensures var x := Extracted(Extraction(expression, 0, map[], map[]));
      && (r.Ok? <==> x.Ok?)
      && (r.Failure? ==> x == Failure(r.error))
      && (r.Ok? ==>
            && r.value.0 == x.value.workingExpr && r.value.1 == x.value.exprMap
            && mm == x.value.exprNodes && StoredAs(r.value.2, mm, stored))
    decreases |expression|, 0
  {
    ghost var start := Extraction(expression, 0, map[], map[]);
    var idx: nat := 0;
    var workingExpr := expression;
    var exprMap: map<string, string> := map[];
    var exprNodes: map<string, ExpressionNode> := map[];
    mm, stored := map[], {};
    while OPEN_BRACKET in workingExpr
      invariant |workingExpr| <= |expression|
      invariant Extracted(start) == Extracted(Extraction(workingExpr, idx, exprMap, mm))
      invariant StoredAs(exprNodes, mm, stored)
      decreases |workingExpr|
    {
      ghost var st := Extraction(workingExpr, idx, exprMap, mm);
      var found := ExtractExprWithinParenthesis(workingExpr);
      if found.Failure? {
        return Failure(found.error), mm, stored;
      }
      var eb := found.value;
      exprMap := exprMap[Key(idx) := EscapeOperators(eb.expr)];
      var sub := ParseExpression(eb.expr);
      if sub.Failure? {
        ExtractionFails(st, sub.error);
        return Failure(sub.error), mm, stored;
      }
      StoredAsPut(exprNodes, mm, stored, Key(idx), sub.value);
      exprNodes := exprNodes[Key(idx) := sub.value];
      mm := mm[Key(idx) := sub.value.model];
      stored := stored + sub.value.Repr;
      idx := idx + 1;
      if eb.offsetEnd + 1 <= |workingExpr| {
        workingExpr := workingExpr[eb.offsetEnd + 1..];
      } else {
        workingExpr := "";
      }
      ExtractionRound(st, eb, sub.value.model, Extraction(workingExpr, idx, exprMap, mm));
    }
    return Ok((workingExpr, exprMap, exprNodes)), mm, stored;
  }

  /** A group whose parse fails makes the extraction fail the same way. */
  lemma ExtractionFails(st: Extraction, e: Fault)
    requires OPEN_BRACKET in st.workingExpr && HasMatchingClose(st.workingExpr)
    requires Parsed(Bracket(st.workingExpr).expr) == Failure(e)
    ensures Extracted(st) == Failure(e)
  {
  }

  /** One completed round of the extraction loop, as the method runs it. */
  lemma ExtractionRound(st: Extraction, eb: ExpressionBracket, node: Tree, next: Extraction)
    requires OPEN_BRACKET in st.workingExpr && HasMatchingClose(st.workingExpr)
    requires eb == Bracket(st.workingExpr) && Parsed(eb.expr) == Ok(node)
    requires next.workingExpr == (if eb.offsetEnd + 1 <= |st.workingExpr| then st.workingExpr[eb.offsetEnd + 1..] else [])
    requires next.idx == st.idx + 1
    requires next.exprMap == st.exprMap[Key(st.idx) := EscapeOperators(eb.expr)]
    requires next.exprNodes == st.exprNodes[Key(st.idx) := node]
    ensures Extracted(st) == Extracted(next)
  {
    RoundIs(st, eb, node, next);
  }

  lemma RoundIs(st: Extraction, eb: ExpressionBracket, node: Tree, next: Extraction)
    requires HasMatchingClose(st.workingExpr) && eb == Bracket(st.workingExpr)
    requires next.workingExpr == (if eb.offsetEnd + 1 <= |st.workingExpr| then st.workingExpr[eb.offsetEnd + 1..] else [])
    requires next.idx == st.idx + 1
    requires next.exprMap == st.exprMap[Key(st.idx) := EscapeOperators(eb.expr)]
    requires next.exprNodes == st.exprNodes[Key(st.idx) := node]
    ensures next == Round(st, node)
  {
  }

  /** Storing one more valid node under a key. */
  lemma StoredAsPut(exprNodes: map<string, ExpressionNode>, mm: map<string, Tree>, stored: set<object>,
                    key: string, n: ExpressionNode)
    requires StoredAs(exprNodes, mm, stored) && n.Valid()
    ensures StoredAs(exprNodes[key := n], mm[key := n.model], stored + n.Repr)
  {
  }

  /**
   * The rewrite of parseExpression: for every stored key, in no particular
   * order, the escaped text of its group written between brackets is
   * replaced by the key. Text without a `(` holds no such occurrence.
   */
  method RewriteGroups(exp: string, exprMap: map<string, string>) returns (r: string)
    ensures OPEN_BRACKET !in exp ==> r == exp
  {
    r := exp;
    var keys := exprMap.Keys;
    while keys != {}
      invariant keys <= exprMap.Keys
      invariant OPEN_BRACKET !in exp ==> r == exp
      decreases keys
    {
      var key :| key in keys;
      var target := [OPEN_BRACKET] + exprMap[key] + [CLOSE_BRACKET];
      if OPEN_BRACKET !in exp {
        ReplaceAllAbsent(r, target, key);
      }
      r := ReplaceAll(r, target, key);
      keys := keys - {key};
    }
  }

  /**
   * parseSheet: a sheet of `expr`, either returned or, when there is a
   * current node, added as its last sub-node and the current node returned.
   * `added` is the node built for `expr` in both cases.
   */
  method ParseSheet(currentNode: ExpressionNode?, expr: string) returns (r: ExpressionNode, ghost added: ExpressionNode)
    requires currentNode != null ==> currentNode.Valid()
    modifies currentNode
    ensures r.Valid() && fresh(added) && fresh(added.Repr) && added.model == Sheet(expr)
    ensures currentNode == null ==> r == added && Distinct(r.subNodes)
    ensures currentNode != null ==>
      && r == currentNode
      && r.subNodes == old(currentNode.subNodes) + [added]
      && r.model == old(currentNode.model).(subNodes := old(currentNode.model.subNodes) + [added.model])
      && r.Repr == old(currentNode.Repr) + added.Repr
  {
    var sheet := new ExpressionNode.WithValue(expr);
    added := sheet;
    if currentNode != null {
      currentNode.AddSubNode(sheet);
    } else {
      return sheet, added;
    }
    return currentNode, added;
  }

  /**
   * parseOperatorNot: a NOT over a sheet of `expr` without its first
   * character, returned or added to the current node.
   */
  method ParseOperatorNot(currentNode: ExpressionNode?, expr: string) returns (r: ExpressionNode, ghost added: ExpressionNode)
    requires |expr| > 0
    requires currentNode != null ==> currentNode.Valid()
    modifies currentNode
    ensures r.Valid() && fresh(added) && fresh(added.Repr) && added.model == OpNode(Not, [Sheet(expr[1..])])
    ensures currentNode == null ==> r == added && Distinct(r.subNodes)
    ensures currentNode != null ==>
      && r == currentNode
      && r.subNodes == old(currentNode.subNodes) + [added]
      && r.model == old(currentNode.model).(subNodes := old(currentNode.model.subNodes) + [added.model])
      && r.Repr == old(currentNode.Repr) + added.Repr
  {
    var subNodeNot := new ExpressionNode.WithOperator(Some(Not));
    var sheet := new ExpressionNode.WithValue(expr[1..]);
    subNodeNot.AddSubNode(sheet);
    added := subNodeNot;
    if currentNode != null {
      currentNode.AddSubNode(subNodeNot);
    } else {
      return subNodeNot, added;
    }
    return currentNode, added;
  }

  /** One operand of an AND: a NOT over a sheet of the rest after a leading `!`, else a sheet. */
  method NewOperand(andOperator: string) returns (node: ExpressionNode)
    ensures node.Valid() && fresh(node.Repr)
    ensures node.model == NotOrSheet(andOperator)
  {
    if |andOperator| > 0 && andOperator[0] == NOT {
      node := new ExpressionNode.WithOperator(Some(Not));
      var sheet := new ExpressionNode.WithValue(andOperator[1..]);
      node.AddSubNode(sheet);
    } else {
      node := new ExpressionNode.WithValue(andOperator);
    }
  }

  /** An AND node with one operand per piece, in order. */
  method NewAndNode(andOperatorArray: seq<string>) returns (subNodeAND: ExpressionNode)
    ensures subNodeAND.Valid() && fresh(subNodeAND.Repr)
    ensures subNodeAND.model == OpNode(And, AndOperands(andOperatorArray))
    ensures Distinct(subNodeAND.subNodes)
  {
    subNodeAND := new ExpressionNode.WithOperator(Some(And));
    for i := 0 to |andOperatorArray|
      invariant subNodeAND.Valid() && fresh(subNodeAND.Repr)
      invariant subNodeAND.model == OpNode(And, AndOperands(andOperatorArray[..i]))
      invariant Distinct(subNodeAND.subNodes)
    {
      ghost var before := subNodeAND.subNodes;
      var operand := NewOperand(andOperatorArray[i]);
      subNodeAND.AddSubNode(operand);
      assert andOperatorArray[..i + 1][..i] == andOperatorArray[..i];
      DistinctAppend(before, operand);
    }
    assert andOperatorArray[..|andOperatorArray|] == andOperatorArray;
  }

  /**
   * parseExpressionAndNot: with more than one AND piece, an AND node over one
   * operand per piece; otherwise a NOT or a sheet of the whole text. The node
   * built is returned or added to the current node.
   */
  method ParseExpressionAndNot(currentNode: ExpressionNode?, expr: string) returns (r: ExpressionNode, ghost added: ExpressionNode)
    requires currentNode != null ==> currentNode.Valid()
    modifies currentNode
    ensures r.Valid() && fresh(added) && fresh(added.Repr) && added.model == AndNotParsed(expr)
    ensures currentNode == null ==> r == added && Distinct(r.subNodes)
    ensures currentNode != null ==>
      && r == currentNode
      && r.subNodes == old(currentNode.subNodes) + [added]
      && r.model == old(currentNode.model).(subNodes := old(currentNode.model.subNodes) + [added.model])
      && r.Repr == old(currentNode.Repr) + added.Repr
  {
    var andOperatorArray := Split(RemoveSpaces(expr), AND);
    if |andOperatorArray| > 1 {
      var subNodeAND := NewAndNode(andOperatorArray);
      added := subNodeAND;
      if currentNode != null {
        currentNode.AddSubNode(subNodeAND);
        return currentNode, added;
      } else {
        return subNodeAND, added;
      }
    } else if |expr| > 0 && expr[0] == NOT {
      r, added := ParseOperatorNot(currentNode, expr);
      return r, added;
    }
    r, added := ParseSheet(currentNode, expr);
  }

  /**
   * parseExpressionWithoutParenthesis: operator-free text is one sheet; with
   * more than one OR segment an OR node gets one child per segment from the
   * AND/NOT layer, otherwise the AND/NOT layer parses the whole text.
   */
  method ParseExpressionWithoutParenthesis(expr: string) returns (r: ExpressionNode)
    ensures r.Valid() && fresh(r.Repr)
    ensures r.model == FlatParsed(expr)
    ensures Distinct(r.subNodes)
  {
    if !(OR in expr) && !(AND in expr) && !(NOT in expr) {
      r := new ExpressionNode.WithValue(expr);
      return r;
    }
    var orOperatorArray := Split(expr, OR);
    var currentNode: ExpressionNode;
    if |orOperatorArray| > 1 {
      currentNode := NewOrNode(orOperatorArray);
    } else {
      ghost var added;
      currentNode, added := ParseExpressionAndNot(null, expr);
    }
    return currentNode;
  }

  /** An OR node with one child per segment, each added by the AND/NOT layer. */
  method NewOrNode(orOperatorArray: seq<string>) returns (currentNode: ExpressionNode)
    ensures currentNode.Valid() && fresh(currentNode.Repr)
    ensures currentNode.model == OpNode(Or, OrOperands(orOperatorArray))
    ensures Distinct(currentNode.subNodes)
  {
    currentNode := new ExpressionNode.WithOperator(Some(Or));
    for i := 0 to |orOperatorArray|
      invariant currentNode.Valid() && fresh(currentNode.Repr)
      invariant currentNode.model == OpNode(Or, OrOperands(orOperatorArray[..i]))
      invariant Distinct(currentNode.subNodes)
    {
      ghost var before := currentNode.subNodes;
      OrOperandsSnoc(orOperatorArray, i);
      ghost var added;
      currentNode, added := ParseExpressionAndNot(currentNode, orOperatorArray[i]);
      DistinctAppend(before, added);
    }
    assert orOperatorArray[..|orOperatorArray|] == orOperatorArray;
  }

  /**
   * processSubstitution: a child with a non-empty value that is a key is
   * replaced by the stored node; any other child's first sub-node is looked at
   * (IndexOutOfBoundsException when there is none) and, when its value is a
   * key, the child is replaced by a new NOT over the stored node. Replacing
   * adds the new node at the end and then removes the child. `added` is the
   * node added, when there is one.
   */
  method ProcessSubstitution(exprNode: ExpressionNode, tmpNode: ExpressionNode,
                             exprNodes: map<string, ExpressionNode>, ghost mm: map<string, Tree>,
                             ghost stored: set<object>,
                             ghost before: seq<ExpressionNode>, ghost after: seq<ExpressionNode>,
                             ghost mb: seq<Tree>, ghost ma: seq<Tree>)
    returns (r: Result<(), Fault>, ghost added: ExpressionNode)
    requires exprNode.Valid() && tmpNode.Valid() && tmpNode !in exprNode.Repr
    requires StoredAs(exprNodes, mm, stored) && tmpNode !in stored
    requires tmpNode.subNodes == before + [exprNode] + after && exprNode !in before
    requires tmpNode.model.subNodes == mb + [exprNode.model] + ma && |mb| == |before|
    modifies tmpNode
    ensures tmpNode.Valid() && StoredAs(exprNodes, mm, stored)
    ensures var c := old(Classify(exprNode.model, mm));
      && (r.Failure? <==> c.Crash?)
      && (r.Failure? ==> r.error == IndexOutOfBounds)
      && (!c.Replace? ==> tmpNode.subNodes == old(tmpNode.subNodes) && tmpNode.model == old(tmpNode.model))
      && (c.Replace? ==>
            && tmpNode.subNodes == before + after + [added]
            && tmpNode.model == old(tmpNode.model).(subNodes := mb + ma + [c.node]))
  {
    var replacement := FindReplacement(exprNode, exprNodes, mm, stored);
    added := exprNode;
    if replacement.Failure? {
      return Failure(replacement.error), added;
    }
    if replacement.value != null {
      ReplaceChild(tmpNode, exprNode, replacement.value, before, after, mb, ma);
      added := replacement.value;
    }
    return Ok(()), added;
  }

  /**
   * The decision processSubstitution takes for one child, without changing the
   * new root: the stored node for a child whose non-empty value is a key, a new
   * NOT over the stored node for a child whose first sub-node's value is a key,
   * null when the child stays, and IndexOutOfBounds for a child that has
   * neither a non-empty value nor a sub-node.
   */
  method FindReplacement(exprNode: ExpressionNode, exprNodes: map<string, ExpressionNode>,
                         ghost mm: map<string, Tree>, ghost stored: set<object>)
    returns (r: Result<ExpressionNode?, Fault>)
    requires exprNode.Valid() && StoredAs(exprNodes, mm, stored)
    ensures var c := Classify(exprNode.model, mm);
      && (r.Failure? <==> c.Crash?)
      && (r.Failure? ==> r.error == IndexOutOfBounds)
      && (r.Ok? ==> (r.value != null <==> c.Replace?))
      && (c.Replace? && r.Ok? && r.value != null ==>
            && r.value.Valid() && r.value.model == c.node
            && r.value.Repr <= stored + {r.value}
            && (r.value in stored || fresh(r.value)))
  {
    ghost var c := Classify(exprNode.model, mm);
    if exprNode.value.Some? && exprNode.value.value != [] {
      if exprNode.value.value in exprNodes {
        var storedNode := exprNodes[exprNode.value.value];
        assert c == Replace(storedNode.model);
        return Ok(storedNode);
      } else {
        assert c == Keep;
        return Ok(null);
      }
    }
    if |exprNode.subNodes| == 0 {
      assert c == Crash;
      return Failure(IndexOutOfBounds);
    }
    var subNodeNot := exprNode.subNodes[0];
    assert subNodeNot in exprNode.subNodes;
    assert subNodeNot.model == exprNode.model.subNodes[0] && subNodeNot.model.value == subNodeNot.value;
    if subNodeNot.value.Some? && subNodeNot.value.value in exprNodes {
      var storedNode := exprNodes[subNodeNot.value.value];
      assert c == Replace(OpNode(Not, [storedNode.model]));
      var notNode := NewNotNode(storedNode);
      return Ok(notNode);
    }
    assert c == Keep;
    return Ok(null);
  }

  /** A new NOT node over `storedNode`. */
  method NewNotNode(storedNode: ExpressionNode) returns (notNode: ExpressionNode)
    requires storedNode.Valid()
    ensures notNode.Valid() && fresh(notNode) && notNode.Repr == {notNode} + storedNode.Repr
    ensures notNode.model == OpNode(Not, [storedNode.model])
  {
    notNode := new ExpressionNode.WithOperator(Some(Not));
    notNode.AddSubNode(storedNode);
  }

  /**
   * The substitution loop of parseExpression: a new node with the provisional
   * root's operator starts with the root's sub-nodes, and each of them is
   * handed to processSubstitution in turn.
   */
  method SubstituteAll(returnedNode: ExpressionNode, exprNodes: map<string, ExpressionNode>,
                       ghost mm: map<string, Tree>, ghost stored: set<object>)
    returns (r: Result<ExpressionNode, Fault>)
    requires returnedNode.Valid() && Distinct(returnedNode.subNodes)
    requires StoredAs(exprNodes, mm, stored)
    ensures var s := Substituted(returnedNode.model, mm);
      && (r.Ok? <==> s.Ok?)
      && (r.Failure? ==> s == Failure(r.error))
      && (r.Ok? ==> r.value.Valid() && r.value.model == s.value)
  {
    var tmpNode := new ExpressionNode.WithOperator(returnedNode.op);
    tmpNode.AddAllSubNodes(returnedNode.subNodes, returnedNode.Repr);
    var L := returnedNode.subNodes;
    ghost var ML := returnedNode.model.subNodes;
    ghost var K: seq<ExpressionNode> := [];
    ghost var A: seq<ExpressionNode> := [];
    assert L[0..] == L && ML[0..] == ML;
    for i := 0 to |L|
      invariant Substituting(returnedNode, exprNodes, mm, stored, tmpNode, L, ML, i, K, A)
    {
      var res;
      res, K, A := SubstituteChild(returnedNode, exprNodes, mm, stored, tmpNode, L, ML, i, K, A);
      if res.Failure? {
        return Failure(res.error);
      }
    }
    SubstitutionDone(ML, mm, tmpNode.model.subNodes);
    assert returnedNode.model.op == returnedNode.op;
    return Ok(tmpNode);
  }

  /** The state of the substitution loop after `i` children. */
  ghost predicate Substituting(returnedNode: ExpressionNode, exprNodes: map<string, ExpressionNode>,
                               mm: map<string, Tree>, stored: set<object>, tmpNode: ExpressionNode,
                               L: seq<ExpressionNode>, ML: seq<Tree>, i: nat,
                               K: seq<ExpressionNode>, A: seq<ExpressionNode>)
    reads returnedNode, returnedNode.Repr, stored, tmpNode, tmpNode.Repr
  {
    && returnedNode.Valid() && returnedNode.subNodes == L && returnedNode.model.subNodes == ML
    && StoredAs(exprNodes, mm, stored)
    && tmpNode.Valid() && tmpNode.op == returnedNode.op && tmpNode.value == None
    && tmpNode !in returnedNode.Repr && tmpNode !in stored
    && Books(tmpNode, L, ML, mm, i, K, A)
  }

  /** Once every child is handled, the new root's trees are those the reference substitution gives. */
  lemma SubstitutionDone(ML: seq<Tree>, mm: map<string, Tree>, subs: seq<Tree>)
    requires subs == Kept(ML[..|ML|], mm) + ML[|ML|..] + Appended(ML[..|ML|], mm)
    requires !Crashes(ML[..|ML|], mm)
    ensures subs == Kept(ML, mm) + Appended(ML, mm) && !Crashes(ML, mm)
  {
    assert ML[..|ML|] == ML && ML[|ML|..] == [];
    EmptyMiddle(Kept(ML, mm), ML[|ML|..], Appended(ML, mm));
  }

  /**
   * Where the substitution loop stands after `i` children: the new root holds
   * the references kept so far (`K`), the children not yet handled, and the
   * nodes appended so far (`A`); its trees are those Kept and Appended give.
   */
  ghost predicate Books(tmpNode: ExpressionNode, L: seq<ExpressionNode>, ML: seq<Tree>, mm: map<string, Tree>,
                        i: nat, K: seq<ExpressionNode>, A: seq<ExpressionNode>)
    reads tmpNode
  {
    i <= |L| && i <= |ML| &&
    tmpNode.subNodes == K + L[i..] + A &&
    (forall n :: n in K ==> n in L[..i]) &&
    |K| == |Kept(ML[..i], mm)| &&
    tmpNode.model.subNodes == Kept(ML[..i], mm) + ML[i..] + Appended(ML[..i], mm) &&
    !Crashes(ML[..i], mm)
  }

  /** One pass of the substitution loop: processSubstitution on the next child. */
  method SubstituteChild(returnedNode: ExpressionNode, exprNodes: map<string, ExpressionNode>,
                         ghost mm: map<string, Tree>, ghost stored: set<object>, tmpNode: ExpressionNode,
                         L: seq<ExpressionNode>, ghost ML: seq<Tree>, i: nat,
                         ghost K: seq<ExpressionNode>, ghost A: seq<ExpressionNode>)
    returns (res: Result<(), Fault>, ghost K': seq<ExpressionNode>, ghost A': seq<ExpressionNode>)
    requires i < |L| && Distinct(L)
    requires Substituting(returnedNode, exprNodes, mm, stored, tmpNode, L, ML, i, K, A)
    modifies tmpNode
    ensures res.Failure? ==> Crashes(ML, mm) && res.error == IndexOutOfBounds
    ensures res.Ok? ==>
      Substituting(returnedNode, exprNodes, mm, stored, tmpNode, L, ML, i + 1, K', A')
  {
    var exprNode := L[i];
    assert exprNode in returnedNode.subNodes;
    assert exprNode.Valid() && exprNode.Repr <= returnedNode.Repr && exprNode.model == ML[i];
    ghost var c := Classify(ML[i], mm);
    ghost var P, Q := Kept(ML[..i], mm), Appended(ML[..i], mm);
    NextChild(K, L, A, i, P, ML, Q);
    ghost var added;
    res, added := ProcessSubstitution(exprNode, tmpNode, exprNodes, mm, stored,
                                      K, L[i + 1..] + A, P, ML[i + 1..] + Q);
    if res.Failure? {
      SubstitutionStep(ML, mm, i);
      return res, K, A;
    }
    if c.Replace? {
      ReplacedChild(K, L, A, i, added, ML, mm);
      K', A' := K, A + [added];
    } else {
      KeptChild(K, L, A, i, ML, mm);
      K', A' := K + [exprNode], A;
    }
  }

  lemma EmptyMiddle<T>(a: seq<T>, b: seq<T>, c: seq<T>)
    requires b == []
    ensures a + b + c == a + c
  {
  }

  /**
   * The child handled next is split off the part of the list not yet handled,
   * and, the sub-nodes being distinct, is not among the children kept so far.
   */
  lemma NextChild<T>(K: seq<T>, L: seq<T>, A: seq<T>, i: nat, P: seq<Tree>, ML: seq<Tree>, Q: seq<Tree>)
    requires i < |L| && i < |ML| && Distinct(L) && forall n :: n in K ==> n in L[..i]
    ensures L[i] !in K
    ensures K + L[i..] + A == K + [L[i]] + (L[i + 1..] + A)
    ensures P + ML[i..] + Q == P + [ML[i]] + (ML[i + 1..] + Q)
  {
    assert L[i] !in L[..i];
    assert L[i..] == [L[i]] + L[i + 1..];
    assert ML[i..] == [ML[i]] + ML[i + 1..];
  }

  /** The books after a child has been replaced: the replacement moves to the appended part. */
  lemma ReplacedChild<T>(K: seq<T>, L: seq<T>, A: seq<T>, i: nat, added: T, ML: seq<Tree>, mm: map<string, Tree>)
    requires i < |L| && i < |ML| && Classify(ML[i], mm).Replace?
    requires forall n :: n in K ==> n in L[..i]
    requires !Crashes(ML[..i], mm)
    ensures K + (L[i + 1..] + A) + [added] == K + L[i + 1..] + (A + [added])
    ensures Kept(ML[..i], mm) + (ML[i + 1..] + Appended(ML[..i], mm)) + [Classify(ML[i], mm).node]
         == Kept(ML[..i + 1], mm) + ML[i + 1..] + Appended(ML[..i + 1], mm)
    ensures Kept(ML[..i + 1], mm) == Kept(ML[..i], mm)
    ensures !Crashes(ML[..i + 1], mm)
    ensures forall n :: n in K ==> n in L[..i + 1]
  {
    SubstitutionStep(ML, mm, i);
    assert L[..i + 1] == L[..i] + [L[i]];
  }

  /** The books after a child has been kept: it moves to the kept part. */
  lemma KeptChild<T>(K: seq<T>, L: seq<T>, A: seq<T>, i: nat, ML: seq<Tree>, mm: map<string, Tree>)
    requires i < |L| && i < |ML| && Classify(ML[i], mm).Keep?
    requires forall n :: n in K ==> n in L[..i]
    requires !Crashes(ML[..i], mm)
    ensures K + L[i..] + A == (K + [L[i]]) + L[i + 1..] + A
    ensures Kept(ML[..i], mm) + ML[i..] + Appended(ML[..i], mm)
         == Kept(ML[..i + 1], mm) + ML[i + 1..] + Appended(ML[..i + 1], mm)
    ensures |Kept(ML[..i + 1], mm)| == |Kept(ML[..i], mm)| + 1
    ensures !Crashes(ML[..i + 1], mm)
    ensures forall n :: n in K + [L[i]] ==> n in L[..i + 1]
  {
    SubstitutionStep(ML, mm, i);
    assert L[..i + 1] == L[..i] + [L[i]];
    assert L[i..] == [L[i]] + L[i + 1..];
    assert ML[i..] == [ML[i]] + ML[i + 1..];
  }

  /**
   * Replacing a child: the new node is added at the end and the child, which
   * first occurs just after `before`, is removed.
   */
  method ReplaceChild(tmpNode: ExpressionNode, exprNode: ExpressionNode, node: ExpressionNode,
                      ghost before: seq<ExpressionNode>, ghost after: seq<ExpressionNode>,
                      ghost mb: seq<Tree>, ghost ma: seq<Tree>)
    requires tmpNode.Valid() && node.Valid() && tmpNode !in node.Repr
    requires tmpNode.subNodes == before + [exprNode] + after && exprNode !in before
    requires tmpNode.model.subNodes == mb + [exprNode.model] + ma && |mb| == |before|
    modifies tmpNode
    ensures tmpNode.Valid() && tmpNode.Repr == old(tmpNode.Repr) + node.Repr
    ensures tmpNode.subNodes == before + after + [node]
    ensures tmpNode.model == old(tmpNode.model).(subNodes := mb + ma + [node.model])
  {
    ReplaceFacts(before, exprNode, after, node, mb, exprNode.model, ma, node.model);
    tmpNode.AddSubNode(node);
    tmpNode.RemoveSubNode(exprNode);
  }

  /** Adding `y` at the end and then removing `x`, which first occurs just after `before`. */
  lemma ReplaceFacts<T, M>(before: seq<T>, x: T, after: seq<T>, y: T,
                           mb: seq<M>, mx: M, ma: seq<M>, my: M)
    requires x !in before && |mb| == |before|
    ensures var s := before + [x] + after + [y];
      x in s && FirstIndex(s, x) == |before| && RemoveFirst(s, x) == before + after + [y]
    ensures var m := mb + [mx] + ma + [my];
      m[..|before|] + m[|before| + 1..] == mb + ma + [my]
  {
    var s := before + [x] + after + [y];
    assert s == before + [x] + (after + [y]);
    FirstIndexAt(before, x, after + [y]);
    RemoveFirstAt(before, x, after + [y]);
    var m := mb + [mx] + ma + [my];
    assert m[..|mb|] == mb && m[|mb| + 1..] == ma + [my];
  }
}
