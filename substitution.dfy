/**
 * The substitution step of parseExpression (processSubstitution and the loop
 * that drives it) as reference functions: which children of the provisional
 * root stay, which are replaced by a stored sub-tree, and when the step fails.
 */
module Substitution {
  import opened Wrappers
  import opened JavaExceptions
  import opened ExpressionNodes
  import opened Precedence

  /** What processSubstitution does with one child. */
  datatype Replacement =
    | Keep                  // the child stays where it is
    | Replace(node: Tree)   // the child is removed and `node` is appended
    | Crash                 // the child has neither a value nor a sub-node to look at

  /**
   * A child with a non-empty value is replaced by the stored tree when its
   * value is a key. Any other child has its first sub-node looked at (there
   * must be one); when that sub-node's value is a key the child is replaced by
   * a NOT over the stored tree.
   */
  function Classify(child: Tree, exprNodes: map<string, Tree>): Replacement
  {
    if child.value.Some? && child.value.value != [] then
      if child.value.value in exprNodes then Replace(exprNodes[child.value.value]) else Keep
    else if child.subNodes == [] then Crash
    else
      var first := child.subNodes[0];
      if first.value.Some? && first.value.value in exprNodes then
        Replace(OpNode(Not, [exprNodes[first.value.value]]))
      else Keep
  }

  /** The children that stay, in their original order. */
  function Kept(cs: seq<Tree>, exprNodes: map<string, Tree>): (r: seq<Tree>)
    ensures |r| <= |cs|
  {
    if cs == [] then []
    else
      var last := cs[|cs| - 1];
      Kept(cs[..|cs| - 1], exprNodes) + (if Classify(last, exprNodes).Keep? then [last] else [])
  }

  /** The trees appended in place of the replaced children, in the order the children come. */
  function Appended(cs: seq<Tree>, exprNodes: map<string, Tree>): (r: seq<Tree>)
    ensures |r| <= |cs|
  {
    if cs == [] then []
    else
      var c := Classify(cs[|cs| - 1], exprNodes);
      Appended(cs[..|cs| - 1], exprNodes) + (if c.Replace? then [c.node] else [])
  }

  /** Some child makes processSubstitution ask for a sub-node that is not there. */
  predicate Crashes(cs: seq<Tree>, exprNodes: map<string, Tree>)
  {
    exists i :: 0 <= i < |cs| && Classify(cs[i], exprNodes).Crash?
  }

  /**
   * The tree parseExpression returns from the provisional root: a node with
   * the root's operator over the children that stay followed by the trees
   * appended, or the exception a child without a value or sub-node raises.
   */
  function Substituted(root: Tree, exprNodes: map<string, Tree>): (r: Result<Tree, Fault>)
    ensures r.Failure? <==> Crashes(root.subNodes, exprNodes)
    ensures r.Failure? ==> r.error == IndexOutOfBounds
    ensures r.Ok? ==> r.value.op == root.op && r.value.value == None
  {
    if Crashes(root.subNodes, exprNodes) then Failure(IndexOutOfBounds)
    else Ok(Tree(root.op, None, Kept(root.subNodes, exprNodes) + Appended(root.subNodes, exprNodes)))
  }

  // ---------------------------------------------------------------------------
  // Properties
  // ---------------------------------------------------------------------------

  /**
   * processSubstitution looks only at the first sub-node of a child without a
   * value, whatever the child's operator: an AND or OR whose first operand
   * names a stored key is replaced by a NOT over the stored tree, and its
   * other operands are dropped.
   */
  lemma OperatorChildBecomesNot(o: Operator, k: string, rest: seq<Tree>, exprNodes: map<string, Tree>)
    requires k in exprNodes
    ensures Classify(OpNode(o, [Sheet(k)] + rest), exprNodes) == Replace(OpNode(Not, [exprNodes[k]]))
  {
  }

  /** Substitution works child by child: the kept and the appended lists of a concatenation are concatenations. */
  lemma {:induction false} SubstitutionSplits(a: seq<Tree>, b: seq<Tree>, exprNodes: map<string, Tree>)
    ensures Kept(a + b, exprNodes) == Kept(a, exprNodes) + Kept(b, exprNodes)
    ensures Appended(a + b, exprNodes) == Appended(a, exprNodes) + Appended(b, exprNodes)
    decreases |b|
  {
    if b == [] {
      assert a + b == a;
    } else {
      var b' := b[..|b| - 1];
      assert (a + b)[..|a + b| - 1] == a + b';
      assert (a + b)[|a + b| - 1] == b[|b| - 1];
      SubstitutionSplits(a, b', exprNodes);
    }
  }

  /** Handling one more child, as the loop over the root's sub-nodes does. */
  lemma SubstitutionStep(cs: seq<Tree>, exprNodes: map<string, Tree>, i: nat)
    requires i < |cs|
    ensures var c := Classify(cs[i], exprNodes);
      && Kept(cs[..i + 1], exprNodes) == Kept(cs[..i], exprNodes) + (if c.Keep? then [cs[i]] else [])
      && Appended(cs[..i + 1], exprNodes) == Appended(cs[..i], exprNodes) + (if c.Replace? then [c.node] else [])
      && (Crashes(cs[..i + 1], exprNodes) <==> Crashes(cs[..i], exprNodes) || c.Crash?)
      && (c.Crash? ==> Crashes(cs, exprNodes))
  {
    var p, q := cs[..i], cs[..i + 1];
    assert q[..i] == p && q[i] == cs[i];
    if Crashes(q, exprNodes) && !Classify(cs[i], exprNodes).Crash? {
      var j :| 0 <= j < |q| && Classify(q[j], exprNodes).Crash?;
      assert p[j] == q[j];
    }
    if Crashes(p, exprNodes) {
      var j :| 0 <= j < |p| && Classify(p[j], exprNodes).Crash?;
      assert q[j] == p[j];
    }
    if Classify(cs[i], exprNodes).Crash? {
      assert q[i] == cs[i];
    }
  }

  /** Every child that matches no key is kept. */
  lemma {:induction false} KeptComplete(cs: seq<Tree>, exprNodes: map<string, Tree>, i: nat)
    requires i < |cs| && Classify(cs[i], exprNodes).Keep?
    ensures cs[i] in Kept(cs, exprNodes)
    decreases |cs|
  {
    if i < |cs| - 1 {
      KeptComplete(cs[..|cs| - 1], exprNodes, i);
    }
  }

  /** Every tree kept is a child that matches no key. */
  lemma {:induction false} KeptSound(cs: seq<Tree>, exprNodes: map<string, Tree>, t: Tree)
    requires t in Kept(cs, exprNodes)
    ensures t in cs && Classify(t, exprNodes).Keep?
    decreases |cs|
  {
    var init, last := cs[..|cs| - 1], cs[|cs| - 1];
    if t in Kept(init, exprNodes) {
      KeptSound(init, exprNodes, t);
      assert init <= cs;
    } else {
      assert t == last;
    }
  }

  /** Every replaced child has its replacement appended. */
  lemma {:induction false} AppendedComplete(cs: seq<Tree>, exprNodes: map<string, Tree>, i: nat)
    requires i < |cs| && Classify(cs[i], exprNodes).Replace?
    ensures Classify(cs[i], exprNodes).node in Appended(cs, exprNodes)
    decreases |cs|
  {
    if i < |cs| - 1 {
      AppendedComplete(cs[..|cs| - 1], exprNodes, i);
    }
  }

  /** Every appended tree replaces some child. */
  lemma {:induction false} AppendedSound(cs: seq<Tree>, exprNodes: map<string, Tree>, t: Tree)
    requires t in Appended(cs, exprNodes)
    ensures exists i :: 0 <= i < |cs| && Classify(cs[i], exprNodes) == Replace(t)
    decreases |cs|
  {
    var c := Classify(cs[|cs| - 1], exprNodes);
    if t in Appended(cs[..|cs| - 1], exprNodes) {
      AppendedSound(cs[..|cs| - 1], exprNodes, t);
      var i :| 0 <= i < |cs| - 1 && Classify(cs[..|cs| - 1][i], exprNodes) == Replace(t);
      assert cs[..|cs| - 1][i] == cs[i];
    } else {
      assert c == Replace(t);
    }
  }

  /** Without a failing child, every child either stays or is replaced by exactly one tree. */
  lemma {:induction false} SubstitutionCount(cs: seq<Tree>, exprNodes: map<string, Tree>)
    requires !Crashes(cs, exprNodes)
    ensures |Kept(cs, exprNodes)| + |Appended(cs, exprNodes)| == |cs|
    decreases |cs|
  {
    if cs != [] {
      var init := cs[..|cs| - 1];
      assert !Crashes(init, exprNodes) by {
        forall i | 0 <= i < |init| ensures !Classify(init[i], exprNodes).Crash? {
          assert init[i] == cs[i];
        }
      }
      SubstitutionCount(init, exprNodes);
      assert !Classify(cs[|cs| - 1], exprNodes).Crash?;
    }
  }

  /** When no child matches a key, the children are kept as they are. */
  lemma {:induction false} NothingToSubstitute(cs: seq<Tree>, exprNodes: map<string, Tree>)
    requires forall i :: 0 <= i < |cs| ==> Classify(cs[i], exprNodes).Keep?
    ensures Kept(cs, exprNodes) == cs && Appended(cs, exprNodes) == []
    decreases |cs|
  {
    if cs != [] {
      var init, last := cs[..|cs| - 1], cs[|cs| - 1];
      forall i | 0 <= i < |init| ensures Classify(init[i], exprNodes).Keep? {
        assert init[i] == cs[i];
      }
      NothingToSubstitute(init, exprNodes);
      KeepStep(cs, exprNodes);
    }
  }

  lemma KeepStep(cs: seq<Tree>, exprNodes: map<string, Tree>)
    requires cs != [] && Classify(cs[|cs| - 1], exprNodes).Keep?
    ensures Kept(cs, exprNodes) == Kept(cs[..|cs| - 1], exprNodes) + [cs[|cs| - 1]]
    ensures Appended(cs, exprNodes) == Appended(cs[..|cs| - 1], exprNodes)
    ensures cs == cs[..|cs| - 1] + [cs[|cs| - 1]]
  {
    var last := cs[|cs| - 1];
    assert Kept(cs, exprNodes) == Kept(cs[..|cs| - 1], exprNodes) + [last];
    assert Appended(cs, exprNodes) == Appended(cs[..|cs| - 1], exprNodes) + [];
  }

  /**
   * A child of a tree built without brackets makes the step fail exactly when
   * it is a sheet with an empty value: every other such child has a value or
   * a sub-node.
   */
  lemma FlatChildCrashes(t: Tree, exprNodes: map<string, Tree>, i: nat)
    requires IsFlatTree(t) && i < |t.subNodes|
    ensures Classify(t.subNodes[i], exprNodes).Crash? <==> t.subNodes[i] == Sheet([])
  {
    var c := t.subNodes[i];
    match t.op
    case Some(Or) =>
      assert IsConjunction(c);
      ConjunctionCrashes(c, exprNodes);
    case Some(And) =>
      assert IsOperand(c);
      ConjunctionCrashes(c, exprNodes);
    case Some(Not) =>
      assert IsOperand(t);
    case None =>
  }

  lemma ConjunctionCrashes(c: Tree, exprNodes: map<string, Tree>)
    requires IsConjunction(c)
    ensures Classify(c, exprNodes).Crash? <==> c == Sheet([])
  {
    match c.op
    case Some(Or) =>
    case Some(And) =>
    case Some(Not) =>
    case None =>
  }
}
