/** modules/optimizations/unary_expressions.py: the unary `-join` becomes a
    binary `-join` with an empty separator. */
module UnaryExpressions {
  import opened Python
  import opened ElementTree
  import opened Utils
  import opened Rules

  /** The element `opt_unary_expression_join` makes of a unary Join, in place:
      retagged, `TokenKind` dropped, `Operator` and `StaticType` set, and an
      empty single-quoted string appended. */
  function JoinAsBinary(n: Node): Node
  {
    Node("BinaryExpressionAst",
         (n.attrib - {"TokenKind"})["Operator" := "Join"]["StaticType" := "System.Object"],
         n.text,
         n.children + [ConstantString("", "SingleQuoted")])
  }

  /** A unary expression without `TokenKind` raises KeyError. */
  function UnaryJoin(n: Node): Verdict
  {
    if n.tag != "UnaryExpressionAst" then Skip
    else if "TokenKind" !in n.attrib then Act(Fail)
    else if n.attrib["TokenKind"] != "Join" then Skip
    else Act(Mutate(JoinAsBinary(n)))
  }

  predicate IsUnaryJoin(n: Node)
  {
    n.tag == "UnaryExpressionAst" && "TokenKind" in n.attrib && n.attrib["TokenKind"] == "Join"
  }

  /** `opt_unary_expression_join(ast)`. */
  function UnaryExpressionJoin(root: Node): Step
  {
    FirstMatch(root, UnaryJoin)
  }

  method OptUnaryExpressionJoin(ast: Ast) returns (out: Outcome)
    modifies ast
    ensures StepOf(out, ast.root) == UnaryExpressionJoin(old(ast.root))
  {
    out := ApplyFirst(ast, UnaryJoin);
  }

  /** With no unary Join (and every unary expression carrying a
      `TokenKind`), the rule returns False and changes nothing. */
  lemma UnaryJoinAbsent(root: Node)
    requires forall j :: 0 <= j < |Walk(root)| ==> var n := Walk(root)[j].node;
      n.tag == "UnaryExpressionAst" ==> "TokenKind" in n.attrib && n.attrib["TokenKind"] != "Join"
    ensures UnaryExpressionJoin(root) == Done(false, root)
  {
    NoMatchUnchanged(root, UnaryJoin);
  }

  /** The element `m` is `n` rewritten as `opt_unary_expression_join` does:
      a binary Join whose attributes are `n`'s without `TokenKind` plus
      `Operator` and `StaticType`, and whose children are `n`'s followed by
      one empty single-quoted string. */
  predicate RewrittenJoin(n: Node, m: Node)
  {
    m.tag == "BinaryExpressionAst"
    && "TokenKind" !in m.attrib
    && "Operator" in m.attrib && m.attrib["Operator"] == "Join"
    && "StaticType" in m.attrib && m.attrib["StaticType"] == "System.Object"
    && (forall a :: a in n.attrib && a != "TokenKind" && a != "Operator" && a != "StaticType" ==>
          a in m.attrib && m.attrib[a] == n.attrib[a])
    && |m.children| == |n.children| + 1
    && m.children[..|n.children|] == n.children
    && m.children[|n.children|] == ConstantString("", "SingleQuoted")
  }

  lemma JoinAsBinaryRewrites(n: Node)
    requires IsUnaryJoin(n)
    ensures RewrittenJoin(n, JoinAsBinary(n))
    ensures Size(JoinAsBinary(n)) == Size(n) + 1
    ensures Count(JoinAsBinary(n), IsUnaryJoin) == Count(n, IsUnaryJoin) - 1
  {
    var m := JoinAsBinary(n);
    assert m.children[..|n.children|] == n.children;
    CountSeqSnoc(n.children, ConstantString("", "SingleQuoted"), IsUnaryJoin);
    CountSeqSnoc(n.children, ConstantString("", "SingleQuoted"), Everything);
  }

  /** `vs[k]` is the first unary Join of the walk. */
  predicate FirstUnaryJoin(vs: seq<Visit>, k: nat)
  {
    k < |vs| && IsUnaryJoin(vs[k].node) && forall j :: 0 <= j < k ==> !IsUnaryJoin(vs[j].node)
  }

  lemma FirstActUnaryJoin(vs: seq<Visit>)
    requires FirstAct(vs, UnaryJoin) < |vs| && UnaryJoin(vs[FirstAct(vs, UnaryJoin)].node) != Act(Fail)
    ensures FirstUnaryJoin(vs, FirstAct(vs, UnaryJoin))
  {
    var k := FirstAct(vs, UnaryJoin);
    forall j | 0 <= j < k
      ensures !IsUnaryJoin(vs[j].node)
    {
      assert UnaryJoin(vs[j].node).Skip?;
    }
  }

  /** The rewrite at one path: the tree afterwards holds the rewritten
      element there, has one element more and one unary Join fewer. */
  lemma MutateJoinAt(root: Node, path: Path)
    requires ValidPath(root, path) && IsUnaryJoin(At(root, path))
    ensures var t := ReplaceAt(root, path, JoinAsBinary(At(root, path)));
      ValidPath(t, path) && RewrittenJoin(At(root, path), At(t, path))
      && Size(t) == Size(root) + 1
      && Count(t, IsUnaryJoin) == Count(root, IsUnaryJoin) - 1
  {
    var m := JoinAsBinary(At(root, path));
    JoinAsBinaryRewrites(At(root, path));
    AtReplaced(root, path, m);
    SizeReplaceAt(root, path, m);
    CountReplaceAt(root, path, m, IsUnaryJoin);
  }

  /** On success the first unary Join in pre-order is the element rewritten,
      in place; the tree then has one unary Join fewer and one element more. */
  lemma UnaryJoinEffect(root: Node, t: Node)
    requires UnaryExpressionJoin(root) == Done(true, t)
    ensures exists k: nat ::
      FirstUnaryJoin(Walk(root), k)
      && ValidPath(t, Walk(root)[k].path) && RewrittenJoin(Walk(root)[k].node, At(t, Walk(root)[k].path))
    ensures Size(t) == Size(root) + 1
    ensures Count(t, IsUnaryJoin) == Count(root, IsUnaryJoin) - 1
  {
    var vs := Walk(root);
    var k := FirstAct(vs, UnaryJoin);
    assert k < |vs|;
    var n := vs[k].node;
    assert UnaryJoin(n) != Act(Fail);
    FirstActUnaryJoin(vs);
    assert Locates(root, vs[k]);
    assert t == ReplaceAt(root, vs[k].path, JoinAsBinary(n));
    MutateJoinAt(root, vs[k].path);
  }
}
