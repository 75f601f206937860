/** modules/optimizations/empty_nodes.py: delete the first empty
    `Attributes`, `Redirections` or `CatchTypes` element. */
module EmptyNodes {
  import opened Python
  import opened ElementTree
  import opened Utils
  import opened Rules

  predicate Removable(n: Node)
  {
    (n.tag == "Attributes" || n.tag == "Redirections" || n.tag == "CatchTypes") && n.children == []
  }

  function EmptyNode(n: Node): Verdict
  {
    if Removable(n) then Act(Delete) else Skip
  }

  /** `opt_remove_empty_nodes(ast)`. */
  function RemoveEmptyNodes(root: Node): Step
  {
    FirstMatch(root, EmptyNode)
  }

  method OptRemoveEmptyNodes(ast: Ast) returns (out: Outcome)
    modifies ast
    ensures StepOf(out, ast.root) == RemoveEmptyNodes(old(ast.root))
  {
    out := ApplyFirst(ast, EmptyNode);
  }

  /** `vs[k]` is the first removable element of the walk. */
  predicate FirstRemovable(vs: seq<Visit>, k: nat)
  {
    k < |vs| && Removable(vs[k].node) && forall j :: 0 <= j < k ==> !Removable(vs[j].node)
  }

  lemma FirstActRemovable(vs: seq<Visit>)
    ensures var k := FirstAct(vs, EmptyNode);
      (k < |vs| ==> FirstRemovable(vs, k)) && (k == |vs| ==> forall j :: 0 <= j < |vs| ==> !Removable(vs[j].node))
  {
    var k := FirstAct(vs, EmptyNode);
    forall j | 0 <= j < k
      ensures !Removable(vs[j].node)
    {
      assert EmptyNode(vs[j].node).Skip?;
    }
    if k < |vs| {
      assert EmptyNode(vs[k].node).Act?;
    }
  }

  /** The rule reports False exactly when no element is removable, and then
      leaves the tree as it was. */
  lemma RemoveEmptyNodesFalse(root: Node)
    ensures (RemoveEmptyNodes(root).Done? && !RemoveEmptyNodes(root).truthy)
      ==> forall j :: 0 <= j < |Walk(root)| ==> !Removable(Walk(root)[j].node)
    ensures (forall j :: 0 <= j < |Walk(root)| ==> !Removable(Walk(root)[j].node))
      ==> RemoveEmptyNodes(root).Done? && !RemoveEmptyNodes(root).truthy
    ensures RemoveEmptyNodes(root).Done? && !RemoveEmptyNodes(root).truthy ==> RemoveEmptyNodes(root).tree == root
  {
    var vs := Walk(root);
    var k := FirstAct(vs, EmptyNode);
    FirstActRemovable(vs);
    if k < |vs| {
      assert EmptyNode(vs[k].node) == Act(Delete);
      assert RemoveEmptyNodes(root) == Perform(root, vs[k].path, Delete);
      assert Removable(Walk(root)[k].node);
      assert !(forall j :: 0 <= j < |Walk(root)| ==> !Removable(Walk(root)[j].node));
      assert RemoveEmptyNodes(root).Raised? || RemoveEmptyNodes(root).truthy;
    } else {
      assert RemoveEmptyNodes(root) == FirstMatch(root, EmptyNode) == Done(false, root);
    }
  }

  /** On success the first removable element in pre-order is the one
      deleted, and the tree loses exactly one element. */
  lemma RemoveEmptyNodesDeletes(root: Node, t: Node)
    requires RemoveEmptyNodes(root) == Done(true, t)
    ensures exists k: nat :: FirstRemovable(Walk(root), k) && Ok(t) == DeleteResult(root, Walk(root)[k].path, None)
    ensures Size(t) == Size(root) - 1
  {
    var vs := Walk(root);
    var k := FirstAct(vs, EmptyNode);
    FirstActRemovable(vs);
    assert k < |vs|;
    assert EmptyNode(vs[k].node) == Act(Delete);
    assert RemoveEmptyNodes(root) == Perform(root, vs[k].path, Delete);
    PerformDeleteSize(root, vs[k].path);
    assert Locates(root, vs[k]);
    var n := At(root, vs[k].path);
    assert Everything(Head(n)) && CountSeq(n.children, Everything) == 0;
  }
}
