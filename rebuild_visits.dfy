/** `stats.nodes` of modules/rebuilder.py counts the calls of
    `_rebuild_internal`; the printer never visits an element twice, so a
    print that finishes counts at most the elements of the tree. */
module RebuildVisits {
  import opened Python
  import opened ElementTree
  import opened Rebuild

  // ------------------------------------------------------------ sizes

  /** The number of elements under the children from the `i`-th on. */
  function SizeFrom(cs: seq<Node>, i: nat): nat
    requires i <= |cs|
  {
    CountSeq(cs[i..], Everything)
  }

  lemma SizeStep(cs: seq<Node>, i: nat)
    requires i < |cs|
    ensures SizeFrom(cs, i) == Size(cs[i]) + SizeFrom(cs, i + 1)
  {
    assert cs[i..][0] == cs[i];
    assert cs[i..][1..] == cs[i + 1..];
  }

  lemma SizeEnd(cs: seq<Node>)
    ensures SizeFrom(cs, |cs|) == 0
  {
    assert cs[|cs|..] == [];
  }

  /** An element is itself and the elements under its children. */
  lemma SizeOf(n: Node)
    ensures Size(n) == 1 + SizeFrom(n.children, 0)
  {
    assert n.children[0..] == n.children;
  }

  /** The `a`-th child and those after it are among the children from the
      `i`-th on. */
  lemma {:induction false} Pick(cs: seq<Node>, i: nat, a: nat)
    requires i <= a < |cs|
    ensures Size(cs[a]) + SizeFrom(cs, a + 1) <= SizeFrom(cs, i)
    decreases a - i
  {
    SizeStep(cs, i);
    if i < a {
      Pick(cs, i + 1, a);
    }
  }

  /** Two different children together are no bigger than all of them. */
  lemma Two(cs: seq<Node>, a: nat, b: nat)
    requires a < b < |cs|
    ensures Size(cs[a]) + Size(cs[b]) <= SizeFrom(cs, 0)
  {
    Pick(cs, 0, a);
    Pick(cs, a + 1, b);
  }

  /** Three different children together are no bigger than all of them. */
  lemma Three(cs: seq<Node>, a: nat, b: nat, c: nat)
    requires a < b < c < |cs|
    ensures Size(cs[a]) + Size(cs[b]) + Size(cs[c]) <= SizeFrom(cs, 0)
  {
    Pick(cs, 0, a);
    Pick(cs, a + 1, b);
    Pick(cs, b + 1, c);
  }

  // ------------------------------------------------------------ the bound

  /** A print that finishes counts the element and at most every element
      under it. */
  lemma RenderVisits(n: Node, level: nat, top: bool)
    ensures Render(n, level, top).Out? ==> 1 <= Render(n, level, top).nodes <= Size(n)
    decreases n, 3
  {
    BodyVisits(n, level, top);
    SizeOf(n);
  }

  lemma BodyVisits(n: Node, level: nat, top: bool)
    ensures Body(n, level, top).Out? ==> Body(n, level, top).nodes <= SizeFrom(n.children, 0)
    decreases n, 2
  {
    var k := KindOf(n.tag);
    if IsWrapped(k) {
      WrappedVisits(n, level);
    } else if IsListed(k) {
      JoinedVisits(n, 0, level, Separator(k));
    } else if k == Statements {
      StatementsVisits(n, 0, level);
    } else if k == Parameters {
      ParametersVisits(n, 0, level);
    } else if IsBlock(k) {
      BlockVisits(n, level, top);
    } else if IsCompound(k) {
      CompoundVisits(n, level);
    } else if IsExpression(k) {
      ExpressionVisits(n, level);
    }
  }

  lemma ChildVisits(n: Node, k: nat, level: nat)
    ensures Child(n, k, level).Out? ==> k < |n.children| && Child(n, k, level).nodes <= Size(n.children[k])
    decreases n, 0, 0
  {
    if k < |n.children| {
      RenderVisits(n.children[k], level, false);
    }
  }

  lemma KidsVisits(m: Node, i: nat, level: nat)
    requires i <= |m.children|
    ensures Kids(m, i, level).Out? ==> Kids(m, i, level).nodes <= SizeFrom(m.children, i)
    decreases m, 0, |m.children| - i
  {
    if i < |m.children| {
      RenderVisits(m.children[i], level, false);
      KidsVisits(m, i + 1, level);
      SizeStep(m.children, i);
    }
  }

  lemma JoinedVisits(m: Node, i: nat, level: nat, sep: string)
    requires i <= |m.children|
    ensures Joined(m, i, level, sep).Out? ==> Joined(m, i, level, sep).nodes <= SizeFrom(m.children, i)
    decreases m, 0, |m.children| - i
  {
    if i < |m.children| {
      RenderVisits(m.children[i], level, false);
      JoinedVisits(m, i + 1, level, sep);
      SizeStep(m.children, i);
    }
  }

  lemma StatementLineVisits(m: Node, i: nat, level: nat)
    requires i < |m.children|
    ensures StatementLine(m, i, level).Out? ==> StatementLine(m, i, level).nodes <= Size(m.children[i])
    decreases m, 0, 0
  {
    RenderVisits(m.children[i], level, false);
  }

  lemma StatementsVisits(m: Node, i: nat, level: nat)
    requires i <= |m.children|
    ensures StatementsFrom(m, i, level).Out? ==> StatementsFrom(m, i, level).nodes <= SizeFrom(m.children, i)
    decreases m, 0, |m.children| - i
  {
    if i < |m.children| {
      StatementLineVisits(m, i, level);
      StatementsVisits(m, i + 1, level);
      SizeStep(m.children, i);
    }
  }

  lemma ParameterLineVisits(m: Node, i: nat, level: nat)
    requires i < |m.children|
    ensures ParameterLine(m, i, level).Out? ==> ParameterLine(m, i, level).nodes <= Size(m.children[i])
    decreases m, 0, 0
  {
    RenderVisits(m.children[i], level, false);
  }

  lemma ParametersVisits(m: Node, i: nat, level: nat)
    requires i <= |m.children|
    ensures ParametersFrom(m, i, level).Out? ==> ParametersFrom(m, i, level).nodes <= SizeFrom(m.children, i)
    decreases m, 0, |m.children| - i
  {
    if i < |m.children| {
      ParameterLineVisits(m, i, level);
      ParametersVisits(m, i + 1, level);
      SizeStep(m.children, i);
    }
  }

  lemma KidsExceptVisits(m: Node, i: nat, level: nat, tag: string)
    requires i <= |m.children|
    ensures KidsExcept(m, i, level, tag).Out? ==> KidsExcept(m, i, level, tag).nodes <= SizeFrom(m.children, i)
    decreases m, 0, |m.children| - i
  {
    if i < |m.children| {
      RenderVisits(m.children[i], level, false);
      KidsExceptVisits(m, i + 1, level, tag);
      SizeStep(m.children, i);
    }
  }

  /** The children that `KidsExcept` skips are not counted: the `k`-th, of
      the skipped tag, fits beside what it prints. */
  lemma KidsExceptLeaves(m: Node, i: nat, level: nat, tag: string, k: nat)
    requires i <= k < |m.children| && m.children[k].tag == tag
    ensures KidsExcept(m, i, level, tag).Out? ==>
      KidsExcept(m, i, level, tag).nodes + Size(m.children[k]) <= SizeFrom(m.children, i)
    decreases m, 0, |m.children| - i
  {
    SizeStep(m.children, i);
    if i == k {
      KidsExceptVisits(m, i + 1, level, tag);
    } else {
      RenderVisits(m.children[i], level, false);
      KidsExceptLeaves(m, i + 1, level, tag, k);
    }
  }

  lemma LeadVisits(n: Node, level: nat)
    ensures Lead(n, level).Out? ==> Lead(n, level).nodes == 0
  {
  }

  lemma WrappedVisits(n: Node, level: nat)
    ensures Wrapped(n, level).Out? ==> Wrapped(n, level).nodes <= SizeFrom(n.children, 0)
    decreases n, 1
  {
    LeadVisits(n, level);
    KidsVisits(n, 0, level);
  }

  lemma BracedVisits(n: Node, from: nat, level: nat)
    requires from <= |n.children|
    ensures Braced(n, from, level).Out? ==> Braced(n, from, level).nodes <= SizeFrom(n.children, from)
    decreases n, 0, |n.children| - from + 1
  {
    KidsVisits(n, from, level + 1);
  }

  lemma ParamBlockVisits(n: Node, level: nat, top: bool)
    ensures ParamBlockOf(n, level, top).Out? ==> ParamBlockOf(n, level, top).nodes <= SizeFrom(n.children, 0)
    decreases n, 0, |n.children| + 2
  {
    if n.children != [] {
      var from := AfterAttributes(n);
      RenderVisits(n.children[0], level, false);
      KidsVisits(n, from, level);
      BracedVisits(n, from, level);
      SizeStep(n.children, 0);
    }
  }

  lemma BlockVisits(n: Node, level: nat, top: bool)
    ensures Block(n, level, top).Out? ==> Block(n, level, top).nodes <= SizeFrom(n.children, 0)
    decreases n, 1
  {
    BracedVisits(n, 0, level);
    ParamBlockVisits(n, level, top);
    KidsVisits(n, 0, level);
  }

  lemma IfFoundVisits(n: Node, tag: string, level: nat, after: string)
    ensures var k := FirstWithTag(n.children, tag);
      IfFound(n, tag, level, after).Out? ==>
        IfFound(n, tag, level, after).nodes <= (if k < |n.children| then Size(n.children[k]) else 0)
    decreases n, 0, 0
  {
    var k := FirstWithTag(n.children, tag);
    if k < |n.children| {
      RenderVisits(n.children[k], level, false);
    }
  }

  lemma AttributesVisits(n: Node, level: nat)
    ensures AttributesOf(n, level).Out? ==> AttributesOf(n, level).nodes <= SizeFrom(n.children, 0)
    decreases n, 1, 0
  {
    var cs := n.children;
    var a, b := FirstWithTag(cs, "TypeConstraintAst"), FirstWithTag(cs, "AttributeAst");
    IfFoundVisits(n, "TypeConstraintAst", level, "");
    IfFoundVisits(n, "AttributeAst", level, "\n");
    if a < |cs| {
      Pick(cs, 0, a);
    }
    if b < |cs| {
      Pick(cs, 0, b);
    }
    if a < |cs| && b < |cs| {
      if a < b {
        Two(cs, a, b);
      } else if b < a {
        Two(cs, b, a);
      }
    }
  }

  lemma AttributeVisits(n: Node, level: nat)
    ensures AttributeOf(n, level).Out? ==> AttributeOf(n, level).nodes <= SizeFrom(n.children, 0)
    decreases n, 1, 0
  {
    KidsVisits(n, 0, level);
  }

  lemma DeclaredVisits(n: Node, from: nat, level: nat)
    ensures Declared(n, from, level).Out? && from <= |n.children| ==> Declared(n, from, level).nodes <= SizeFrom(n.children, from)
    decreases n, 0, 1
  {
    if |n.children| - from == 2 {
      ChildVisits(n, from, level);
      ChildVisits(n, from + 1, level);
      SizeStep(n.children, from);
      SizeStep(n.children, from + 1);
      SizeEnd(n.children);
    }
  }

  lemma ParameterVisits(n: Node, level: nat)
    ensures ParameterOf(n, level).Out? ==> ParameterOf(n, level).nodes <= SizeFrom(n.children, 0)
    decreases n, 1, 0
  {
    if n.children != [] {
      var from := AfterAttributes(n);
      ChildVisits(n, 0, level);
      DeclaredVisits(n, from, level);
      SizeStep(n.children, 0);
    }
  }

  lemma ForEachVisits(n: Node, level: nat)
    ensures ForEachOf(n, level).Out? ==> ForEachOf(n, level).nodes <= SizeFrom(n.children, 0)
    decreases n, 1, 0
  {
    ChildVisits(n, 0, level);
    ChildVisits(n, 1, level);
    ChildVisits(n, 2, level);
    if |n.children| >= 3 {
      Three(n.children, 0, 1, 2);
    }
  }

  lemma FunctionVisits(n: Node, level: nat)
    ensures FunctionOf(n, level).Out? ==> FunctionOf(n, level).nodes <= SizeFrom(n.children, 0)
    decreases n, 1, 0
  {
    ChildVisits(n, 0, level);
    ChildVisits(n, 1, level);
    if |n.children| == 2 {
      Two(n.children, 0, 1);
    } else if |n.children| == 1 {
      Pick(n.children, 0, 0);
    }
  }

  lemma IfVisits(n: Node, level: nat)
    ensures IfOf(n, level).Out? ==> IfOf(n, level).nodes <= SizeFrom(n.children, 0)
    decreases n, 1, 0
  {
    ChildVisits(n, 0, level);
    ChildVisits(n, 1, level);
    ChildVisits(n, 2, level);
    if |n.children| == 3 {
      Three(n.children, 0, 1, 2);
    } else if |n.children| >= 2 {
      Two(n.children, 0, 1);
    }
  }

  /** The two fixed children of a try statement, or of an index or member
      expression, or the operands of an operation. */
  lemma PairVisits(n: Node, level: nat)
    ensures Child(n, 0, level).Out? && Child(n, 1, level).Out? ==>
      Child(n, 0, level).nodes + Child(n, 1, level).nodes <= SizeFrom(n.children, 0)
    decreases n, 0, 1
  {
    ChildVisits(n, 0, level);
    ChildVisits(n, 1, level);
    if |n.children| >= 2 {
      Two(n.children, 0, 1);
    }
  }

  lemma CompoundVisits(n: Node, level: nat)
    ensures Compound(n, level).Out? ==> Compound(n, level).nodes <= SizeFrom(n.children, 0)
    decreases n, 1, 1
  {
    var k := KindOf(n.tag);
    if k == Attributes {
      AttributesVisits(n, level);
    } else if k == Attribute {
      AttributeVisits(n, level);
    } else if k == Parameter {
      ParameterVisits(n, level);
    } else if k == ForEachStatement {
      ForEachVisits(n, level);
    } else if k == FunctionDefinition {
      FunctionVisits(n, level);
    } else if k == TryStatement {
      PairVisits(n, level);
    } else {
      IfVisits(n, level);
    }
  }

  lemma ConvertVisits(n: Node, level: nat)
    ensures ConvertOf(n, level).Out? ==> ConvertOf(n, level).nodes <= SizeFrom(n.children, 0)
    decreases n, 1, 0
  {
    var k := FirstWithTag(n.children, "TypeConstraintAst");
    if k < |n.children| {
      RenderVisits(n.children[k], level, false);
      KidsExceptLeaves(n, 0, level, "TypeConstraintAst", k);
    }
  }

  lemma ArrayVisits(n: Node, level: nat)
    ensures ArrayOf(n, level).Out? ==> ArrayOf(n, level).nodes <= SizeFrom(n.children, 0)
    decreases n, 1, 0
  {
    if n.children != [] {
      JoinedVisits(n.children[0], 0, level, ", ");
      SizeOf(n.children[0]);
      Pick(n.children, 0, 0);
    }
  }

  lemma InvokeVisits(n: Node, level: nat)
    ensures InvokeOf(n, level).Out? ==> InvokeOf(n, level).nodes <= SizeFrom(n.children, 0)
    decreases n, 1, 0
  {
    ChildVisits(n, 0, level);
    ChildVisits(n, 1, level);
    ChildVisits(n, 2, level);
    if |n.children| == 3 {
      Three(n.children, 0, 1, 2);
    } else if |n.children| == 2 {
      Two(n.children, 0, 1);
    }
  }

  lemma ExpressionVisits(n: Node, level: nat)
    ensures Expression(n, level).Out? ==> Expression(n, level).nodes <= SizeFrom(n.children, 0)
    decreases n, 1, 1
  {
    match KindOf(n.tag)
    case ConvertExpression => ConvertVisits(n, level);
    case ArrayLiteral => ArrayVisits(n, level);
    case AssignmentStatement => PairVisits(n, level);
    case BinaryExpression => PairVisits(n, level);
    case IndexExpression => PairVisits(n, level);
    case MemberExpression => PairVisits(n, level);
    case InvokeMemberExpression => InvokeVisits(n, level);
    case _ => InvokeVisits(n, level);
  }
}
