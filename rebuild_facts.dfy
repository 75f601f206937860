/** What the printer of modules/rebuilder.py prints, stated about `Render`,
    the function the class `Rebuild.Rebuilder` is proved to follow. */
module RebuildFacts {
  import opened Python
  import opened ElementTree
  import opened Rebuild
  import EscapedChars
  import Operators

  // ------------------------------------------------------------ text

  /** Regrouping printed pieces, stated on variables so that no literal
      text has to be taken apart. */
  lemma Regroup3(a: string, b: string, c: string)
    ensures a + (b + c) == a + b + c
  {
  }

  lemma Regroup5(a: string, b: string, c: string, d: string, e: string)
    ensures a + (b + (c + (d + e))) == a + b + c + d + e
  {
  }

  lemma Regroup4(a: string, b: string, c: string, d: string)
    ensures a + (b + (c + d)) == a + b + c + d
  {
  }

  lemma NoText(a: string, b: string)
    ensures a == "" ==> a + b == b
    ensures b == "" ==> a + b == a
  {
  }

  // ------------------------------------------------------------ dispatch

  /** The dispatch table is exact from the `i`-th kind on: a kind found for
      a tag has that tag, and a tag no kind from there on has is not found. */
  lemma {:induction false} KindFromExact(tag: string, i: nat)
    ensures KindFrom(tag, i) != Unknown ==> TagName(KindFrom(tag, i)) == tag
    ensures (forall j :: i <= j < |Known| ==> TagName(Known[j]) != tag) ==> KindFrom(tag, i) == Unknown
    decreases |Known| - i
  {
    if i < |Known| && TagName(Known[i]) != tag {
      KindFromExact(tag, i + 1);
    }
  }

  /** `_rebuild_internal` takes a branch only for the tag that branch
      names, and the fall-through for the tags none of its branches names. */
  lemma KindOfExact(tag: string)
    ensures KindOf(tag) != Unknown ==> TagName(KindOf(tag)) == tag
    ensures (forall k :: k in Known ==> TagName(k) != tag) ==> KindOf(tag) == Unknown
  {
    KindFromExact(tag, 0);
  }

  /** Every call of `_rebuild_internal` counts itself once, on top of what
      the branch it takes prints and counts. */
  lemma RenderBody(n: Node, level: nat, top: bool)
    ensures Body(n, level, top).Out? <==> Render(n, level, top).Out?
    ensures Body(n, level, top).Out? ==>
      Render(n, level, top).text == Body(n, level, top).text && Render(n, level, top).nodes == Body(n, level, top).nodes + 1
  {
    var b := Body(n, level, top);
    if b.Out? {
      NoText("", b.text);
    }
  }

  /** An element with a tag the printer does not know writes nothing and
      none of its children is visited: the count rises by one, for the
      element itself. */
  lemma UnknownTagIgnored(n: Node, level: nat, top: bool)
    requires forall k :: k in Known ==> TagName(k) != n.tag
    ensures Render(n, level, top).Out? && Render(n, level, top).text == "" && Render(n, level, top).nodes == 1
  {
    KindOfExact(n.tag);
    BodyOfUnknown(n, level, top);
    assert "" + "" == "";
  }

  lemma BodyOfUnknown(n: Node, level: nat, top: bool)
    requires KindOf(n.tag) == Unknown
    ensures Body(n, level, top) == W("")
  {
    var k := KindOf(n.tag);
    assert !IsWrapped(k) && !IsListed(k) && !IsBlock(k) && !IsCompound(k) && !IsExpression(k);
  }

  // ------------------------------------------------------------ indentation and operators

  /** `indent()` writes three spaces per level, so one level deeper is
      three spaces more. */
  lemma IndentationGrows(level: nat)
    ensures Indentation(level).Out? && |Indentation(level).text| == 3 * level
    ensures Indentation(level + 1).text == Indentation(level).text + "   "
  {
    assert Spaces(IndentWidth * (level + 1)) == Spaces(IndentWidth * level) + "   ";
  }

  /** The rebuilder's `OPS` agrees with the table of modules/operators.py
      wherever both define an operator, spells every operator with a space
      on each side, and an operator it lacks writes nothing. */
  lemma OperatorSpelling(op: string)
    ensures op in Ops ==> op in Operators.Ops && OperatorText(op) == Operators.Ops[op]
    ensures op in Ops ==> Operators.Spaced(OperatorText(op))
    ensures op !in Ops ==> OperatorText(op) == ""
  {
  }

  /** A postfix increment, a multiplication and a range are in the table
      of modules/operators.py but not in the rebuilder's, so they print as
      nothing. */
  lemma OperatorsMissing()
    ensures forall op :: op in ["PostfixPlusPlus", "PostfixMinusMinus", "Multiply", "Igt", "Ilt", "DotDot"] ==>
      op in Operators.Ops && OperatorText(op) == ""
  {
  }

  // ------------------------------------------------------------ leaves

  /** A string constant, expandable or not: its text escaped, bare for a
      bare word and between single or double quotes otherwise, with no
      raw newline anywhere; a missing `StringConstantType` raises. */
  lemma StringConstantPrints(n: Node, level: nat, top: bool)
    requires KindOf(n.tag) == StringConstantExpression || KindOf(n.tag) == ExpandableStringExpression
    ensures Render(n, level, top).Out? <==> "StringConstantType" in n.attrib
    ensures Render(n, level, top).Out? ==> Render(n, level, top).nodes == 1 && '\n' !in Render(n, level, top).text
    ensures "StringConstantType" in n.attrib ==>
      var kind := n.attrib["StringConstantType"];
      var body := if n.text.Some? then EscapedChars.Escape(n.text.value) else "";
      var r := Render(n, level, top).text;
      (kind == "BareWord" ==> r == body)
      && (kind == "SingleQuoted" ==> r == "'" + body + "'")
      && (kind == "DoubleQuoted" ==> r == "\"" + body + "\"")
      && (kind != "BareWord" && kind != "SingleQuoted" && kind != "DoubleQuoted" ==> r == "")
  {
    RenderBody(n, level, top);
    StringConstantBody(n, level, top);
    if n.text.Some? {
      EscapedChars.EscapeHasNoNewline(n.text.value);
    }
  }

  /** The dispatch sends both string constant kinds to `StringText`. */
  lemma StringConstantBody(n: Node, level: nat, top: bool)
    requires KindOf(n.tag) == StringConstantExpression || KindOf(n.tag) == ExpandableStringExpression
    ensures Body(n, level, top) == StringText(n)
  {
    var k := KindOf(n.tag);
    assert !IsWrapped(k) && !IsListed(k) && !IsBlock(k) && !IsCompound(k) && IsExpression(k);
  }

  /** A variable prints as `$` and its path; without `VariablePath` it
      raises. */
  lemma VariablePrints(n: Node, level: nat, top: bool)
    requires KindOf(n.tag) == VariableExpression
    ensures Render(n, level, top).Out? <==> "VariablePath" in n.attrib
    ensures Render(n, level, top).Out? ==>
      Render(n, level, top).text == "$" + n.attrib["VariablePath"] && Render(n, level, top).nodes == 1
  {
    RenderBody(n, level, top);
  }

  /** A constant prints its text when its static type is `int`, and nothing
      for any other type; without `StaticType`, or an `int` without text,
      it raises. */
  lemma ConstantPrints(n: Node, level: nat, top: bool)
    requires KindOf(n.tag) == ConstantExpression
    ensures Render(n, level, top).Out? <==> "StaticType" in n.attrib && (n.attrib["StaticType"] == "int" ==> n.text.Some?)
    ensures Render(n, level, top).Out? ==>
      Render(n, level, top).nodes == 1
      && Render(n, level, top).text == (if n.attrib["StaticType"] == "int" then n.text.value else "")
  {
    RenderBody(n, level, top);
  }

  /** The member branch: receiver, separator, member. */
  lemma MemberBody(n: Node, level: nat, top: bool)
    requires KindOf(n.tag) == MemberExpression
    ensures Child(n, 0, level).Out? && "Static" !in n.attrib ==> Body(n, level, top) == Exception
    ensures Child(n, 0, level).Out? && "Static" in n.attrib && Child(n, 1, level).Out? ==>
      var a, b, r := Child(n, 0, level), Child(n, 1, level), Body(n, level, top);
      r.Out? && r.text == a.text + ((if n.attrib["Static"] == "True" then "::" else ".") + b.text)
      && r.nodes == a.nodes + b.nodes
  {
  }

  /** A member access prints the receiver, `::` for a static member or `.`
      otherwise, and the member; without `Static` it raises once the
      receiver is printed. */
  lemma MemberPrints(n: Node, level: nat, top: bool)
    requires KindOf(n.tag) == MemberExpression
    ensures Child(n, 0, level).Out? && "Static" !in n.attrib ==> !Render(n, level, top).Out?
    ensures Child(n, 0, level).Out? && "Static" in n.attrib && Child(n, 1, level).Out? ==>
      var a, b, r := Child(n, 0, level), Child(n, 1, level), Render(n, level, top);
      r.Out? && r.text == a.text + (if n.attrib["Static"] == "True" then "::" else ".") + b.text
      && r.nodes == 1 + a.nodes + b.nodes
  {
    RenderBody(n, level, top);
    MemberBody(n, level, top);
    if Child(n, 0, level).Out? && "Static" in n.attrib && Child(n, 1, level).Out? {
      var a, b := Child(n, 0, level), Child(n, 1, level);
      var sep := if n.attrib["Static"] == "True" then "::" else ".";
      Regroup3(a.text, sep, b.text);
    }
  }

  // ------------------------------------------------------------ blocks

  /** `body` between braces on lines of their own, at indentation `level`. */
  function BracedText(level: nat, body: string): string
  {
    Spaces(3 * level) + "{\n" + body + Spaces(3 * level) + "}\n"
  }

  /** Braces around the children from `from` on, which print one level
      deeper; both braces sit at the block's own level. */
  lemma BracedPrints(n: Node, from: nat, level: nat)
    requires from <= |n.children|
    ensures var k, r := Kids(n, from, level + 1), Braced(n, from, level);
      k.Out? ==> r.Out? && r.nodes == k.nodes && r.text == BracedText(level, k.text)
  {
    var k := Kids(n, from, level + 1);
    if k.Out? {
      Regroup5(Spaces(3 * level), "{\n", k.text, Spaces(3 * level), "}\n");
    }
  }

  /** The block kinds print through `Block`. */
  lemma BlockBranch(n: Node, level: nat, top: bool)
    requires IsBlock(KindOf(n.tag))
    ensures Body(n, level, top) == Block(n, level, top)
  {
  }

  /** A script block at the root prints its children at its own level,
      without braces. */
  lemma ScriptBlockAtRoot(n: Node, level: nat)
    requires KindOf(n.tag) == ScriptBlock || KindOf(n.tag) == ScriptBlockExpression
    ensures Body(n, level, true) == Kids(n, 0, level)
  {
    BlockBranch(n, level, true);
  }

  /** A script block below the root, with or without the expression around
      it, is braced on a new line, its children one level deeper. */
  lemma ScriptBlockNested(n: Node, level: nat)
    requires KindOf(n.tag) == ScriptBlock || KindOf(n.tag) == ScriptBlockExpression
    ensures var k, r := Kids(n, 0, level + 1), Body(n, level, false);
      k.Out? ==> r.Out? && r.nodes == k.nodes && r.text == "\n" + BracedText(level, k.text)
  {
    BlockBranch(n, level, false);
    BracedPrints(n, 0, level);
  }

  /** A param block: its attributes, then `param` at the block's level,
      then the parameters, braced one level deeper on a new line unless the
      block is the root; without children it raises. */
  lemma ParamBlockPrints(n: Node, level: nat, top: bool)
    requires KindOf(n.tag) == ParamBlock
    ensures n.children == [] ==> Body(n, level, top) == Exception
    ensures n.children != [] ==>
      var from := AfterAttributes(n);
      var a := if from == 1 then Render(n.children[0], level, false) else W("");
      var k := Kids(n, from, if top then level else level + 1);
      var r := Body(n, level, top);
      a.Out? && k.Out? ==>
        r.Out? && r.nodes == a.nodes + k.nodes
        && r.text == a.text + Spaces(3 * level) + "param" + (if top then k.text else "\n" + BracedText(level, k.text))
  {
    BlockBranch(n, level, top);
    if n.children != [] {
      var from := AfterAttributes(n);
      var a := if from == 1 then Render(n.children[0], level, false) else W("");
      var k := Kids(n, from, if top then level else level + 1);
      BracedPrints(n, from, level);
      if a.Out? && k.Out? {
        Regroup4(a.text, Spaces(3 * level), "param", if top then k.text else "\n" + BracedText(level, k.text));
      }
    }
  }

  /** A statement block is braced wherever it is, the root included. */
  lemma StatementBlockBraces(n: Node, level: nat, top: bool)
    requires KindOf(n.tag) == StatementBlock
    ensures var k, r := Kids(n, 0, level + 1), Body(n, level, top);
      k.Out? ==> r.Out? && r.nodes == k.nodes && r.text == BracedText(level, k.text)
  {
    BlockBranch(n, level, top);
    BracedPrints(n, 0, level);
  }

  // ------------------------------------------------------------ statements

  /** After a statement: nothing after an If, Try or ForEach statement, or
      after a pipeline whose last written element is a script block
      expression; the endless loop of `lastWrite` for a pipeline whose
      chain of last children runs out; `";\n"` after anything else. */
  lemma TerminatorCases(c: Node)
    ensures Terminator(c).Out? ==> Terminator(c).nodes == 0
    ensures Terminator(c) == Endless <==> c.tag == "PipelineAst" && !LastWriteEnds(c)
    ensures Terminator(c).Out? && Terminator(c).text == "" <==>
      c.tag == "IfStatementAst" || c.tag == "TryStatementAst" || c.tag == "ForEachStatementAst"
      || (c.tag == "PipelineAst" && LastWriteEnds(c) && LastWritten(c).tag == "ScriptBlockExpressionAst")
    ensures Terminator(c).Out? && Terminator(c).text == ";\n" <==>
      (c.tag != "IfStatementAst" && c.tag != "TryStatementAst" && c.tag != "ForEachStatementAst"
       && c.tag != "PipelineAst")
      || (c.tag == "PipelineAst" && LastWriteEnds(c) && LastWritten(c).tag != "ScriptBlockExpressionAst")
  {
  }

  /** Each statement of a `Statements` element is preceded by the
      indentation of the level and followed by its terminator. */
  lemma StatementLinePrints(m: Node, i: nat, level: nat)
    requires i < |m.children|
    ensures var s, t, r := Render(m.children[i], level, false), Terminator(m.children[i]), StatementLine(m, i, level);
      s.Out? && t.Out? ==> r.Out? && r.nodes == s.nodes && r.text == Spaces(3 * level) + s.text + t.text
  {
    var s, t := Render(m.children[i], level, false), Terminator(m.children[i]);
    if s.Out? && t.Out? {
      Regroup3(Spaces(3 * level), s.text, t.text);
    }
  }

  // ------------------------------------------------------------ attributes

  /** `node.find(tag)` as a condition: false when no child has the tag or
      the first that has it has no children of its own. */
  predicate FoundFalse(n: Node, tag: string)
  {
    var k := FirstWithTag(n.children, tag); k == |n.children| || n.children[k].children == []
  }

  /** A `find` that is false prints nothing and visits nothing. */
  lemma IfFoundSkipped(n: Node, tag: string, level: nat, after: string)
    requires FoundFalse(n, tag)
    ensures IfFound(n, tag, level, after) == W("")
  {
  }

  /** A `find` that is true prints the element found, then `after`. */
  lemma IfFoundPrinted(n: Node, tag: string, level: nat, after: string)
    requires !FoundFalse(n, tag)
    ensures var k := FirstWithTag(n.children, tag); var f, r := Render(n.children[k], level, false), IfFound(n, tag, level, after);
      f.Out? ==> r.Out? && r.text == f.text + after && r.nodes == f.nodes
  {
  }

  /** The `find` tests of the `Attributes` branch: a type constraint or an
      attribute found without children is false and is not printed, so an
      `Attributes` element whose first of each is childless or missing
      prints nothing and visits nothing. */
  lemma ChildlessAttributesSkipped(n: Node, level: nat)
    requires FoundFalse(n, "TypeConstraintAst") && FoundFalse(n, "AttributeAst")
    ensures AttributesOf(n, level).Out? && AttributesOf(n, level).text == "" && AttributesOf(n, level).nodes == 0
  {
    IfFoundSkipped(n, "TypeConstraintAst", level, "");
    IfFoundSkipped(n, "AttributeAst", level, "\n");
    NoText("", "");
  }

  /** A type constraint found with children is printed, and an attribute
      found with children is printed and followed by a newline. */
  lemma AttributesPrinted(n: Node, level: nat)
    ensures var k, j := FirstWithTag(n.children, "TypeConstraintAst"), FirstWithTag(n.children, "AttributeAst");
      var r := AttributesOf(n, level);
      !FoundFalse(n, "TypeConstraintAst") && FoundFalse(n, "AttributeAst") && Render(n.children[k], level, false).Out? ==>
        r.Out? && r.text == Render(n.children[k], level, false).text
  {
  }
}
