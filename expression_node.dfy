/**
 * The node type the parser builds. ExpressionNode itself is not part of this
 * model; what is here is inferred from how the parser uses it: a node made with
 * an operator has no value, a node made with a value (a "sheet") has no
 * operator, and every node has a mutable list of sub-nodes.
 */
module ExpressionNodes {
  import opened Wrappers
  import opened JavaStrings
  import opened JavaLists

  datatype Operator = Or | And | Not

  /** The value of an ExpressionNode: operator, value and sub-nodes, in order. */
  datatype Tree = Tree(op: Option<Operator>, value: Option<string>, subNodes: seq<Tree>)

  /** `new ExpressionNode(value)` with no sub-nodes yet. */
  function Sheet(v: string): Tree
  {
    Tree(None, Some(v), [])
  }

  /** `new ExpressionNode(operator)` once `subs` have been added to it. */
  function OpNode(o: Operator, subs: seq<Tree>): Tree
  {
    Tree(Some(o), None, subs)
  }

  /**
   * The text a tree stands for: the operands of OR and AND joined with `|` and
   * `&`, a NOT as `!` before its first operand, a sheet as its value.
   */
  function Render(t: Tree): string
    decreases t
  {
    match t.op
    case None => if t.value.Some? then t.value.value else []
    case Some(Not) => ['!'] + (if |t.subNodes| > 0 then Render(t.subNodes[0]) else [])
    case Some(o) => Join(RenderAll(t.subNodes), if o == Or then '|' else '&')
  }

  /** The texts of a list of trees, position by position. */
  function RenderAll(ts: seq<Tree>): (r: seq<string>)
    ensures |r| == |ts|
    ensures forall i :: 0 <= i < |ts| ==> r[i] == Render(ts[i])
    decreases ts
  {
    if ts == [] then [] else [Render(ts[0])] + RenderAll(ts[1..])
  }

  class ExpressionNode {
    const op: Option<Operator>
    const value: Option<string>
    var subNodes: seq<ExpressionNode>

    /** The tree this node and its sub-nodes stand for. */
    ghost var model: Tree
    /** This node and every node below it. */
    ghost var Repr: set<object>

    /**
     * Every sub-node is valid and lies inside this node's footprint, never
     * reaching back to this node; `model` is this node's own fields over the
     * sub-nodes' models. Sub-nodes may share nodes below them.
     */
    ghost predicate Valid()
      reads this, Repr
      ensures Valid() ==> this in Repr
      decreases Repr
    {
      this in Repr &&
      (forall n :: n in subNodes ==>
         n in Repr && n.Repr <= Repr && this !in n.Repr && n.Valid()) &&
      model.op == op && model.value == value && |model.subNodes| == |subNodes| &&
      (forall i :: 0 <= i < |subNodes| ==> model.subNodes[i] == subNodes[i].model)
    }

    /** `new ExpressionNode(operator)`, where the operator may be absent. */
    constructor WithOperator(o: Option<Operator>)
      ensures Valid() && fresh(Repr) && Repr == {this}
      ensures op == o && value == None && subNodes == []
      ensures model == Tree(o, None, [])
    {
      op := o;
      value := None;
      subNodes := [];
      model := Tree(o, None, []);
      Repr := {this};
    }

    /** `new ExpressionNode(value)`: a sheet. */
    constructor WithValue(v: string)
      ensures Valid() && fresh(Repr) && Repr == {this}
      ensures op == None && value == Some(v) && subNodes == []
      ensures model == Sheet(v)
    {
      op := None;
      value := Some(v);
      subNodes := [];
      model := Sheet(v);
      Repr := {this};
    }

    /** `getSubNodes().add(n)`. */
    method AddSubNode(n: ExpressionNode)
      requires Valid() && n.Valid() && this !in n.Repr
      modifies this
      ensures Valid() && n.Valid()
      ensures subNodes == old(subNodes) + [n]
      ensures model == old(model).(subNodes := old(model.subNodes) + [n.model])
      ensures Repr == old(Repr) + n.Repr
    {
      subNodes := subNodes + [n];
      Repr := Repr + n.Repr;
      model := model.(subNodes := model.subNodes + [n.model]);
    }

    /** `getSubNodes().addAll(list)`; `footprint` covers the nodes of `list`. */
    method AddAllSubNodes(list: seq<ExpressionNode>, ghost footprint: set<object>)
      requires Valid() && this !in footprint
      requires forall n :: n in list ==> n in footprint && n.Repr <= footprint && n.Valid()
      modifies this
      ensures Valid()
      ensures subNodes == old(subNodes) + list
      ensures model == old(model).(subNodes := old(model.subNodes) + ModelsOf(list))
      ensures Repr == old(Repr) + footprint
    {
      ghost var before := subNodes;
      ghost var models := ModelsOf(list);
      subNodes := subNodes + list;
      Repr := Repr + footprint;
      model := model.(subNodes := model.subNodes + models);
      assert forall n :: n in subNodes ==> n in before || n in list;
      assert forall i :: |before| <= i < |subNodes| ==> subNodes[i] == list[i - |before|];
    }

    /** `getSubNodes().remove(n)`: drops the first occurrence of that node, if any. */
    method RemoveSubNode(n: ExpressionNode)
      requires Valid()
      modifies this
      ensures Valid() && Repr == old(Repr)
      ensures subNodes == RemoveFirst(old(subNodes), n)
      ensures n !in old(subNodes) ==> model == old(model)
      ensures n in old(subNodes) ==>
        var k := FirstIndex(old(subNodes), n);
        model == old(model).(subNodes := old(model.subNodes)[..k] + old(model.subNodes)[k + 1..])
    {
      if n in subNodes {
        var k := FirstIndex(subNodes, n);
        subNodes := subNodes[..k] + subNodes[k + 1..];
        model := model.(subNodes := model.subNodes[..k] + model.subNodes[k + 1..]);
      }
    }
  }

  /** The models of a list of nodes, position by position. */
  ghost function ModelsOf(ns: seq<ExpressionNode>): (r: seq<Tree>)
    reads ns
    ensures |r| == |ns|
    ensures forall i :: 0 <= i < |ns| ==> r[i] == ns[i].model
  {
    if ns == [] then [] else [ns[0].model] + ModelsOf(ns[1..])
  }
}
