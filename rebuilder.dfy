/** The printer of modules/rebuilder.py: it walks the tree, dispatching on
    the tag, and appends PowerShell text to its output, keeping an
    indentation level.  `Render` says what one call of `_rebuild_internal`
    prints; the class `Rebuilder` does it in place and is proved to agree. */
module Rebuild {
  import opened Python
  import opened ElementTree
  import EscapedChars
  import Operators

  /** `OPS`: the rebuilder's own operator spellings, a part of the table in
      modules/operators.py. */
  const Ops: map<string, string> := map[
    "Minus" := " - ",
    "Plus" := " + ",
    "Format" := " -f ",
    "Equals" := " = ",
    "PlusEquals" := " += ",
    "Is" := " -is ",
    "As" := " -as ",
    "Ieq" := " -eq ",
    "Ige" := " -ge ",
    "Ile" := " -le ",
    "Ine" := " -ne ",
    "Bxor" := " -bxor ",
    "Ireplace" := " -replace ",
    "Join" := " -join ",
    "Imatch" := " -match ",
    "And" := " -and ",
    "Or" := " -or "
  ]

  /** `_indent`: spaces per level. */
  const IndentWidth: nat := 3

  /** What printing a subtree produces: the text and the number of
      `_rebuild_internal` calls, an exception (KeyError, IndexError, or an
      attribute of None), or the endless loop of `lastWrite`. */
  datatype Printed = Out(text: string, nodes: nat) | Exception | Endless

  /** One step after another: the first failure is the result. */
  function Then(a: Printed, b: Printed): Printed
  {
    match a
    case Out(s, c) => (match b
                       case Out(t, d) => Out(s + t, c + d)
                       case _ => b)
    case _ => a
  }

  function W(s: string): Printed
  {
    Out(s, 0)
  }

  function Spaces(k: nat): (r: string)
    ensures |r| == k && forall i :: 0 <= i < k ==> r[i] == ' '
  {
    seq(k, _ => ' ')
  }

  /** `indent()`. */
  function Indentation(level: nat): Printed
  {
    W(Spaces(IndentWidth * level))
  }

  /** `pre + node.attrib[key] + post`; KeyError when absent. */
  function Key(n: Node, key: string, pre: string, post: string): Printed
  {
    if key in n.attrib then W(pre + n.attrib[key] + post) else Exception
  }

  /** What `rebuild_operator(op)` writes. */
  function OperatorText(op: string): string
  {
    if op in Ops then Ops[op] else ""
  }

  /** `rebuild_operator(node.attrib[key])`. */
  function Op(n: Node, key: string): Printed
  {
    if key in n.attrib then W(OperatorText(n.attrib[key])) else Exception
  }

  /** `"::"` for a static member, `"."` otherwise; KeyError without `Static`. */
  function StaticSep(n: Node): Printed
  {
    if "Static" in n.attrib then W(if n.attrib["Static"] == "True" then "::" else ".") else Exception
  }

  // ------------------------------------------------------------ tags

  /** The element kinds the printer knows, one per tag it tests for, and
      `Unknown` for every other tag. */
  datatype Kind =
    | NamedBlock | Pipeline | Redirections | UsingStatements | Command | Elements | Nested
    | CommandExpression | ErrorExpression | ErrorStatement | ParenExpression | ReturnStatement
    | CatchClauses | CatchClause | CommandParameter | NamedAttributeArgument | UnaryExpression
    | NamedArguments | PipelineElements | CommandElements | Arguments
    | Statements | Parameters
    | ScriptBlockExpression | ScriptBlock | ParamBlock | StatementBlock
    | Attributes | Attribute | Parameter | ForEachStatement | FunctionDefinition | TryStatement
    | IfStatement
    | BreakStatement | TypeConstraint | TypeExpression | ConvertExpression | ArrayLiteral
    | VariableExpression | AssignmentStatement | BinaryExpression | ExitStatement
    | ContinueStatement | ConstantExpression | StringConstantExpression
    | ExpandableStringExpression | IndexExpression | MemberExpression | InvokeMemberExpression
    | Unknown

  /** The tag `_rebuild_internal` tests for each known kind. */
  function TagName(k: Kind): string
  {
    match k
    case NamedBlock => "NamedBlockAst"
    case Pipeline => "PipelineAst"
    case Redirections => "Redirections"
    case UsingStatements => "UsingStatements"
    case Command => "CommandAst"
    case Elements => "Elements"
    case Nested => "NestedAst"
    case CommandExpression => "CommandExpressionAst"
    case ErrorExpression => "ErrorExpressionAst"
    case ErrorStatement => "ErrorStatementAst"
    case ParenExpression => "ParenExpressionAst"
    case ReturnStatement => "ReturnStatementAst"
    case CatchClauses => "CatchClauses"
    case CatchClause => "CatchClauseAst"
    case CommandParameter => "CommandParameterAst"
    case NamedAttributeArgument => "NamedAttributeArgumentAst"
    case UnaryExpression => "UnaryExpressionAst"
    case NamedArguments => "NamedArguments"
    case PipelineElements => "PipelineElements"
    case CommandElements => "CommandElements"
    case Arguments => "Arguments"
    case Statements => "Statements"
    case Parameters => "Parameters"
    case ScriptBlockExpression => "ScriptBlockExpressionAst"
    case ScriptBlock => "ScriptBlockAst"
    case ParamBlock => "ParamBlockAst"
    case StatementBlock => "StatementBlockAst"
    case Attributes => "Attributes"
    case Attribute => "AttributeAst"
    case Parameter => "ParameterAst"
    case ForEachStatement => "ForEachStatementAst"
    case FunctionDefinition => "FunctionDefinitionAst"
    case TryStatement => "TryStatementAst"
    case IfStatement => "IfStatementAst"
    case BreakStatement => "BreakStatementAst"
    case TypeConstraint => "TypeConstraintAst"
    case TypeExpression => "TypeExpressionAst"
    case ConvertExpression => "ConvertExpressionAst"
    case ArrayLiteral => "ArrayLiteralAst"
    case VariableExpression => "VariableExpressionAst"
    case AssignmentStatement => "AssignmentStatementAst"
    case BinaryExpression => "BinaryExpressionAst"
    case ExitStatement => "ExitStatementAst"
    case ContinueStatement => "ContinueStatementAst"
    case ConstantExpression => "ConstantExpressionAst"
    case StringConstantExpression => "StringConstantExpressionAst"
    case ExpandableStringExpression => "ExpandableStringExpressionAst"
    case IndexExpression => "IndexExpressionAst"
    case MemberExpression => "MemberExpressionAst"
    case InvokeMemberExpression => "InvokeMemberExpressionAst"
    case Unknown => ""
  }

  /** The known kinds, in the order the table is searched. */
  const Known: seq<Kind> := [
    NamedBlock, Pipeline, Redirections, UsingStatements, Command, Elements, Nested,
    CommandExpression, ErrorExpression, ErrorStatement, ParenExpression, ReturnStatement,
    CatchClauses, CatchClause, CommandParameter, NamedAttributeArgument, UnaryExpression,
    NamedArguments, PipelineElements, CommandElements, Arguments, Statements, Parameters,
    ScriptBlockExpression, ScriptBlock, ParamBlock, StatementBlock, Attributes, Attribute,
    Parameter, ForEachStatement, FunctionDefinition, TryStatement, IfStatement, BreakStatement,
    TypeConstraint, TypeExpression, ConvertExpression, ArrayLiteral, VariableExpression,
    AssignmentStatement, BinaryExpression, ExitStatement, ContinueStatement, ConstantExpression,
    StringConstantExpression, ExpandableStringExpression, IndexExpression, MemberExpression,
    InvokeMemberExpression
  ]

  /** The first known kind from the `i`-th on whose tag is `tag`. */
  function KindFrom(tag: string, i: nat): Kind
    decreases |Known| - i
  {
    if i >= |Known| then Unknown
    else if TagName(Known[i]) == tag then Known[i]
    else KindFrom(tag, i + 1)
  }

  /** Which branch of `_rebuild_internal` a tag takes. */
  function KindOf(tag: string): Kind
  {
    KindFrom(tag, 0)
  }

  // ------------------------------------------------------------ lastWrite

  /** The tags `lastWrite` descends through. */
  predicate IsPipelineTag(tag: string)
  {
    tag == "PipelineAst" || tag == "PipelineElements" || tag == "CommandAst" || tag == "CommandElements"
  }

  /** `lastWrite(node)` returns: the chain of last children through
      pipeline-kind elements reaches an element of another kind. */
  predicate LastWriteEnds(n: Node)
  {
    !IsPipelineTag(n.tag) || (n.children != [] && LastWriteEnds(n.children[|n.children| - 1]))
  }

  /** The element `lastWrite(node)` returns. */
  function LastWritten(n: Node): (r: Node)
    requires LastWriteEnds(n)
    ensures !IsPipelineTag(r.tag)
    ensures !IsPipelineTag(n.tag) ==> r == n
  {
    if !IsPipelineTag(n.tag) then n else LastWritten(n.children[|n.children| - 1])
  }

  // ------------------------------------------------------------ the printer

  /** `_rebuild_internal(node)` at indentation `level`; `top` says that the
      element is the one `rebuild` was called on, the only one that is not
      in the parent map. */
  function Render(n: Node, level: nat, top: bool): Printed
    decreases n, 3
  {
    Then(Out("", 1), Body(n, level, top))
  }

  /** The dispatch on the tag; an unknown tag prints nothing and its
      children are not visited. */
  function Body(n: Node, level: nat, top: bool): Printed
    decreases n, 2
  {
    var k := KindOf(n.tag);
    if IsWrapped(k) then Wrapped(n, level)
    else if IsListed(k) then Joined(n, 0, level, Separator(k))
    else if k == Statements then StatementsFrom(n, 0, level)
    else if k == Parameters then ParametersFrom(n, 0, level)
    else if IsBlock(k) then Block(n, level, top)
    else if IsCompound(k) then Compound(n, level)
    else if IsExpression(k) then Expression(n, level)
    else W("")
  }

  /** `node[k]` printed; IndexError when there is no such child. */
  function Child(n: Node, k: nat, level: nat): Printed
    decreases n, 0, 0
  {
    if k < |n.children| then Render(n.children[k], level, false) else Exception
  }

  /** The children from the `i`-th on, each printed in turn. */
  function Kids(m: Node, i: nat, level: nat): Printed
    requires i <= |m.children|
    decreases m, 0, |m.children| - i
  {
    if i == |m.children| then W("")
    else Then(Render(m.children[i], level, false), Kids(m, i + 1, level))
  }

  /** The children from the `i`-th on, with `sep` written before every one
      but the first. */
  function Joined(m: Node, i: nat, level: nat, sep: string): Printed
    requires i <= |m.children|
    decreases m, 0, |m.children| - i
  {
    if i == |m.children| then W("")
    else Then(W(if i > 0 then sep else ""), Then(Render(m.children[i], level, false), Joined(m, i + 1, level, sep)))
  }

  /** What follows a statement: `";\n"`, except after an If, Try or ForEach
      statement, or a pipeline whose `lastWrite` is a script block. */
  function Terminator(c: Node): Printed
  {
    var t := c.tag;
    if t != "IfStatementAst" && t != "TryStatementAst" && t != "ForEachStatementAst" && t != "PipelineAst" then
      W(";\n")
    else if t != "PipelineAst" then W("")
    else if !LastWriteEnds(c) then Endless
    else if LastWritten(c).tag != "ScriptBlockExpressionAst" then W(";\n")
    else W("")
  }

  /** The statements from the `i`-th on: indent, statement, terminator. */
  function StatementsFrom(m: Node, i: nat, level: nat): Printed
    requires i <= |m.children|
    decreases m, 0, |m.children| - i
  {
    if i == |m.children| then W("") else Then(StatementLine(m, i, level), StatementsFrom(m, i + 1, level))
  }

  /** The `i`-th statement, indented and terminated. */
  function StatementLine(m: Node, i: nat, level: nat): Printed
    requires i < |m.children|
    decreases m, 0, 0
  {
    Then(Indentation(level), Then(Render(m.children[i], level, false), Terminator(m.children[i])))
  }

  /** The separator after the `i`-th parameter: `", "` when its position is
      below its own child count less one. */
  function ParameterSep(i: nat, c: Node): string
  {
    if i < |c.children| - 1 then ", " else ""
  }

  /** The parameters from the `i`-th on: each followed by its separator,
      then a newline. */
  function ParametersFrom(m: Node, i: nat, level: nat): Printed
    requires i <= |m.children|
    decreases m, 0, |m.children| - i
  {
    if i == |m.children| then W("") else Then(ParameterLine(m, i, level), ParametersFrom(m, i + 1, level))
  }

  /** The `i`-th parameter, its separator and a newline. */
  function ParameterLine(m: Node, i: nat, level: nat): Printed
    requires i < |m.children|
    decreases m, 0, 0
  {
    Then(Render(m.children[i], level, false), W(ParameterSep(i, m.children[i]) + "\n"))
  }

  /** The children from the `i`-th on whose tag is not `tag`. */
  function KidsExcept(m: Node, i: nat, level: nat, tag: string): Printed
    requires i <= |m.children|
    decreases m, 0, |m.children| - i
  {
    if i == |m.children| then W("")
    else if m.children[i].tag == tag then KidsExcept(m, i + 1, level, tag)
    else Then(Render(m.children[i], level, false), KidsExcept(m, i + 1, level, tag))
  }

  // ----- elements printed as a lead, their children, and a trail

  predicate IsWrapped(k: Kind)
  {
    k.NamedBlock? || k.Pipeline? || k.Redirections? || k.UsingStatements? || k.Command?
    || k.Elements? || k.Nested? || k.CommandExpression? || k.ErrorExpression?
    || k.ErrorStatement? || k.ParenExpression? || k.ReturnStatement? || k.CatchClauses?
    || k.CatchClause? || k.CommandParameter? || k.NamedAttributeArgument? || k.UnaryExpression?
  }

  function Lead(n: Node, level: nat): Printed
  {
    match KindOf(n.tag)
    case ParenExpression => W("(")
    case ReturnStatement => W("return")
    case CatchClauses => Indentation(level)
    case CatchClause => W("catch\n")
    case CommandParameter => Key(n, "ParameterName", "-", "")
    case NamedAttributeArgument => Key(n, "ArgumentName", "", "=")
    case UnaryExpression => Op(n, "TokenKind")
    case _ => W("")
  }

  function Trail(k: Kind): string
  {
    if k == ParenExpression then ")" else ""
  }

  function Wrapped(n: Node, level: nat): Printed
    decreases n, 1
  {
    Then(Lead(n, level), Then(Kids(n, 0, level), W(Trail(KindOf(n.tag)))))
  }

  // ----- child lists with a separator

  predicate IsListed(k: Kind)
  {
    k.NamedArguments? || k.PipelineElements? || k.CommandElements? || k.Arguments?
  }

  function Separator(k: Kind): string
  {
    if k == PipelineElements then " | " else if k == CommandElements then " " else ", "
  }

  // ----- blocks, braced when not the root

  predicate IsBlock(k: Kind)
  {
    k.ScriptBlockExpression? || k.ScriptBlock? || k.ParamBlock? || k.StatementBlock?
  }

  /** The children from `from` on, one level deeper, between braces. */
  function Braced(n: Node, from: nat, level: nat): Printed
    requires from <= |n.children|
    decreases n, 0, |n.children| - from + 1
  {
    Then(Indentation(level), Then(W("{\n"), Then(Kids(n, from, level + 1), Then(Indentation(level), W("}\n")))))
  }

  /** Where the children of a parameter or param block start: after a
      leading `Attributes` child. */
  function AfterAttributes(n: Node): nat
    requires n.children != []
  {
    if n.children[0].tag == "Attributes" then 1 else 0
  }

  function Block(n: Node, level: nat, top: bool): Printed
    decreases n, 1
  {
    var k := KindOf(n.tag);
    if k == StatementBlock then Braced(n, 0, level)
    else if k == ParamBlock then ParamBlockOf(n, level, top)
    else if top then Kids(n, 0, level)
    else Then(W("\n"), Braced(n, 0, level))
  }

  /** The attributes, then `param` and the parameters, braced when the
      block is not the root; IndexError without children. */
  function ParamBlockOf(n: Node, level: nat, top: bool): Printed
    decreases n, 0, |n.children| + 2
  {
    if n.children == [] then Exception
    else
      var from := AfterAttributes(n);
      Then(if from == 1 then Render(n.children[0], level, false) else W(""),
        Then(Indentation(level), Then(W("param"),
          if top then Kids(n, from, level) else Then(W("\n"), Braced(n, from, level)))))
  }

  // ----- statements and declarations with fixed children

  predicate IsCompound(k: Kind)
  {
    k.Attributes? || k.Attribute? || k.Parameter? || k.ForEachStatement?
    || k.FunctionDefinition? || k.TryStatement? || k.IfStatement?
  }

  /** Some child has children of its own: the attribute has arguments. */
  predicate HasArgs(cs: seq<Node>)
  {
    exists k :: 0 <= k < |cs| && cs[k].children != []
  }

  /** `if found := node.find(tag): rebuild(found); write(after)`: a found
      element is false when it has no children. */
  function IfFound(n: Node, tag: string, level: nat, after: string): Printed
    decreases n, 0, 0
  {
    var k := FirstWithTag(n.children, tag);
    if k < |n.children| && n.children[k].children != [] then
      Then(Render(n.children[k], level, false), W(after))
    else W("")
  }

  function Compound(n: Node, level: nat): Printed
    decreases n, 1, 1
  {
    var k := KindOf(n.tag);
    if k == Attributes then AttributesOf(n, level)
    else if k == Attribute then AttributeOf(n, level)
    else if k == Parameter then ParameterOf(n, level)
    else if k == ForEachStatement then ForEachOf(n, level)
    else if k == FunctionDefinition then FunctionOf(n, level)
    else if k == TryStatement then Then(W("try\n"), Then(Child(n, 0, level), Child(n, 1, level)))
    else IfOf(n, level)
  }

  /** The type constraint and then the attribute, each only when found
      with children. */
  function AttributesOf(n: Node, level: nat): Printed
    decreases n, 1, 0
  {
    Then(IfFound(n, "TypeConstraintAst", level, ""), IfFound(n, "AttributeAst", level, "\n"))
  }

  /** `[TypeName]`, and the children in parentheses when an argument has
      children. */
  function AttributeOf(n: Node, level: nat): Printed
    decreases n, 1, 0
  {
    Then(Indentation(level), Then(Key(n, "TypeName", "[", "]"),
      if HasArgs(n.children) then Then(W("("), Then(Kids(n, 0, level), W(")"))) else Kids(n, 0, level)))
  }

  /** Leading attributes, then `[StaticType]name = value` when exactly two
      children remain. */
  function ParameterOf(n: Node, level: nat): Printed
    decreases n, 1, 0
  {
    if n.children == [] then Exception
    else
      var from := AfterAttributes(n);
      Then(if from == 1 then Child(n, 0, level) else W(""), Declared(n, from, level))
  }

  /** When exactly two children remain from `from` on: `[StaticType]`, then
      those two around `" = "`; otherwise nothing. */
  function Declared(n: Node, from: nat, level: nat): Printed
    decreases n, 0, 1
  {
    if |n.children| - from != 2 then W("")
    else
      Then(Indentation(level), Then(Key(n, "StaticType", "[", "]"),
        Then(Child(n, from, level), Then(W(" = "), Child(n, from + 1, level)))))
  }

  /** `foreach(variable in collection)` and the body: children 0, 2, 1. */
  function ForEachOf(n: Node, level: nat): Printed
    decreases n, 1, 0
  {
    Then(W("\n"), Then(W("foreach("), Then(Child(n, 0, level), Then(W(" in "),
      Then(Child(n, 2, level), Then(W(")\n"), Child(n, 1, level)))))))
  }

  function FunctionOf(n: Node, level: nat): Printed
    decreases n, 1, 0
  {
    var cs := n.children;
    if |cs| == 2 then
      Then(Key(n, "Name", "function ", ""), Then(W("("), Then(Child(n, 0, level),
        Then(W(")"), Child(n, 1, level)))))
    else if |cs| == 1 then Then(Key(n, "Name", "function ", ""), Child(n, 0, level))
    else W("")
  }

  function IfOf(n: Node, level: nat): Printed
    decreases n, 1, 0
  {
    Then(W("if ("), Then(Child(n, 0, level), Then(W(")\n"), Then(Child(n, 1, level),
      if |n.children| == 3 then Then(Indentation(level), Then(W("else\n"), Then(Child(n, 2, level), W("\n"))))
      else W("")))))
  }

  // ----- expressions

  predicate IsExpression(k: Kind)
  {
    k.BreakStatement? || k.TypeConstraint? || k.TypeExpression? || k.ConvertExpression?
    || k.ArrayLiteral? || k.VariableExpression? || k.AssignmentStatement?
    || k.BinaryExpression? || k.ExitStatement? || k.ContinueStatement?
    || k.ConstantExpression? || k.StringConstantExpression? || k.ExpandableStringExpression?
    || k.IndexExpression? || k.MemberExpression? || k.InvokeMemberExpression?
  }

  /** A string constant: its text escaped, in the quotes of its kind. */
  function StringText(n: Node): Printed
  {
    if "StringConstantType" !in n.attrib then Exception
    else
      var kind := n.attrib["StringConstantType"];
      var body := if n.text.None? then "" else EscapedChars.EscapeString(n.text.value, kind);
      if kind == "BareWord" then W(body)
      else if kind == "SingleQuoted" then W("'" + body + "'")
      else if kind == "DoubleQuoted" then W("\"" + body + "\"")
      else W("")
  }

  function Expression(n: Node, level: nat): Printed
    decreases n, 1, 1
  {
    match KindOf(n.tag)
    case BreakStatement => W("break")
    case ExitStatement => W("exit")
    case ContinueStatement => W("continue")
    case TypeConstraint => Key(n, "TypeName", "[", "]")
    case TypeExpression => Key(n, "TypeName", "[", "]")
    case VariableExpression => Key(n, "VariablePath", "$", "")
    case ConvertExpression => ConvertOf(n, level)
    case ArrayLiteral => ArrayOf(n, level)
    case AssignmentStatement => OperationOf(n, level)
    case BinaryExpression => OperationOf(n, level)
    case ConstantExpression => ConstantText(n)
    case StringConstantExpression => StringText(n)
    case ExpandableStringExpression => StringText(n)
    case IndexExpression => Then(Child(n, 0, level), Then(W("["), Then(Child(n, 1, level), W("]"))))
    case MemberExpression => Then(Child(n, 0, level), Then(StaticSep(n), Child(n, 1, level)))
    case _ => InvokeOf(n, level)
  }

  /** An assignment or a binary operation: left operand, operator, right
      operand. */
  function OperationOf(n: Node, level: nat): Printed
    decreases n, 1, 0
  {
    Then(Child(n, 0, level), Then(Op(n, "Operator"), Child(n, 1, level)))
  }

  /** An integer constant prints its text; other constants print nothing. */
  function ConstantText(n: Node): Printed
  {
    if "StaticType" !in n.attrib then Exception
    else if n.attrib["StaticType"] != "int" then W("")
    else if n.text.None? then Exception
    else W(n.text.value)
  }

  /** The first type constraint, then every other child; without a type
      constraint `find` gives None and printing it raises. */
  function ConvertOf(n: Node, level: nat): Printed
    decreases n, 1, 0
  {
    var k := FirstWithTag(n.children, "TypeConstraintAst");
    if k == |n.children| then Exception
    else Then(Render(n.children[k], level, false), KidsExcept(n, 0, level, "TypeConstraintAst"))
  }

  /** `@(...)` around the grandchildren under the first child. */
  function ArrayOf(n: Node, level: nat): Printed
    decreases n, 1, 0
  {
    if n.children == [] then Exception
    else Then(W("@("), Then(Joined(n.children[0], 0, level, ", "), W(")")))
  }

  /** With three children: the receiver and the member, then the arguments
      in parentheses; with two: receiver, member and `()`. */
  function InvokeOf(n: Node, level: nat): Printed
    decreases n, 1, 0
  {
    var cs := n.children;
    if |cs| == 3 then
      Then(Child(n, 1, level), Then(StaticSep(n), Then(Child(n, 2, level),
        Then(W("("), Then(Child(n, 0, level), W(")"))))))
    else if |cs| == 2 then
      Then(Child(n, 0, level), Then(StaticSep(n), Then(Child(n, 1, level), W("()"))))
    else W("")
  }

  // ------------------------------------------------------------ in place

  /** How a call of the printer ended: normally, by an exception, or in
      the endless loop of `lastWrite`, where the model stops. */
  datatype Status = Finished | Threw | Looped

  function StatusOf(p: Printed): Status
  {
    match p
    case Out(_, _) => Finished
    case Exception => Threw
    case Endless => Looped
  }


  /** Two successful steps and then `q`: grouping does not matter. */
  lemma ThenThen(a: Printed, b: Printed, q: Printed)
    requires a.Out?
    ensures Then(a, Then(b, q)) == Then(Then(a, b), q)
  {
    if b.Out? && q.Out? {
      assert a.text + (b.text + q.text) == (a.text + b.text) + q.text;
    }
  }

  lemma ThenEmptyLeft(p: Printed)
    ensures Then(W(""), p) == p
  {
    if p.Out? {
      assert "" + p.text == p.text;
    }
  }

  lemma ThenEmptyRight(p: Printed)
    ensures Then(p, W("")) == p
  {
    if p.Out? {
      assert p.text + "" == p.text;
    }
  }

  /** Output `o1` and count `c1` are `o0` and `c0` after `p` printed, if it
      printed at all. */
  predicate Extends(o0: string, c0: nat, o1: string, c1: nat, p: Printed)
  {
    p.Out? ==> o1 == o0 + p.text && c1 == c0 + p.nodes
  }

  /** Printing `p` and then `q` extends the output by `Then(p, q)`. */
  lemma Chain(o0: string, c0: nat, o1: string, c1: nat, p: Printed, o2: string, c2: nat, q: Printed)
    requires p.Out? && Extends(o0, c0, o1, c1, p) && Extends(o1, c1, o2, c2, q)
    ensures Extends(o0, c0, o2, c2, Then(p, q))
  {
    if q.Out? {
      assert (o0 + p.text) + q.text == o0 + (p.text + q.text);
    }
  }

  /** The statements from the `i`-th on are that statement's line, then
      the rest; a line that does not print ends the list. */
  lemma StatementsNext(m: Node, i: nat, l: nat, done: Printed)
    requires i < |m.children| && done.Out?
    ensures Then(done, StatementsFrom(m, i, l)) == Then(Then(done, StatementLine(m, i, l)), StatementsFrom(m, i + 1, l))
    ensures !Then(done, StatementLine(m, i, l)).Out? ==> Then(done, StatementsFrom(m, i, l)) == Then(done, StatementLine(m, i, l))
  {
    ThenThen(done, StatementLine(m, i, l), StatementsFrom(m, i + 1, l));
  }

  /** The list from the `i`-th parameter on is that parameter's line, then
      the rest; a line that does not print ends the list. */
  lemma ParametersNext(m: Node, i: nat, l: nat, done: Printed)
    requires i < |m.children| && done.Out?
    ensures Then(done, ParametersFrom(m, i, l)) == Then(Then(done, ParameterLine(m, i, l)), ParametersFrom(m, i + 1, l))
    ensures !Then(done, ParameterLine(m, i, l)).Out? ==> Then(done, ParametersFrom(m, i, l)) == Then(done, ParameterLine(m, i, l))
  {
    ThenThen(done, ParameterLine(m, i, l), ParametersFrom(m, i + 1, l));
  }

  /** A parameter printed, then its separator and a newline: one more line
      of the list is done. */
  lemma ParameterStep(m: Node, i: nat, l: nat, done: Printed, o0: string, c0: nat, o1: string, c1: nat, o2: string, c2: nat)
    requires i < |m.children| && done.Out? && Extends(o0, c0, o1, c1, done)
    requires Render(m.children[i], l, false).Out? && Extends(o1, c1, o2, c2, Render(m.children[i], l, false))
    ensures Extends(o0, c0, o2 + ParameterSep(i, m.children[i]) + "\n", c2, Then(done, ParameterLine(m, i, l)))
  {
    var r := Render(m.children[i], l, false);
    var sep := ParameterSep(i, m.children[i]);
    assert o2 + sep + "\n" == o2 + (sep + "\n");
    Chain(o1, c1, o2, c2, r, o2 + sep + "\n", c2, W(sep + "\n"));
    Chain(o0, c0, o1, c1, done, o2 + sep + "\n", c2, ParameterLine(m, i, l));
  }

  /** `Rebuilder`: the output file as the text written so far, the
      indentation level and the count of visited elements. */
  class Rebuilder {
    var output: string
    var level: nat
    var nodes: nat

    constructor ()
      ensures output == "" && level == 0 && nodes == 0
    {
      output, level, nodes := "", 0, 0;
    }

    /** The state after printing `p` from output `o`, count `c` and level
        `l`: the text appended, the count raised, the level restored, and
        `st` saying how it ended. */
    ghost predicate Did(o: string, c: nat, l: nat, p: Printed, st: Status)
      reads this
    {
      st == StatusOf(p) && Extends(o, c, output, nodes, p) && (p.Out? ==> level == l)
    }

    /** `indent()`: `3 * _level` spaces. */
    method Indent()
      modifies this
      ensures output == old(output) + Spaces(IndentWidth * level)
      ensures level == old(level) && nodes == old(nodes)
    {
      output := output + Spaces(IndentWidth * level);
    }

    /** `write(s)`. */
    method Write(s: string)
      modifies this
      ensures output == old(output) + s && level == old(level) && nodes == old(nodes)
    {
      output := output + s;
    }

    /** A write whose text may first raise, as a lookup of a missing
        attribute does. */
    method Put(p: Printed) returns (st: Status)
      requires p.Out? ==> p.nodes == 0
      modifies this
      ensures Did(old(output), old(nodes), old(level), p, st)
    {
      match p {
        case Out(s, _) => Write(s); st := Finished;
        case Exception => st := Threw;
        case Endless => st := Looped;
      }
    }

    /** `rebuild_operator(op)`: the spelling from `OPS`, or nothing (the
        source logs an error). */
    method RebuildOperator(op: string)
      modifies this
      ensures output == old(output) + OperatorText(op) && level == old(level) && nodes == old(nodes)
    {
      if op in Ops {
        Write(Ops[op]);
      }
    }

    /** `lastWrite(node)`: down the last children while the element is of a
        pipeline kind. */
    static method LastWrite(node: Node) returns (r: Node)
      requires LastWriteEnds(node)
      ensures r == LastWritten(node)
    {
      var n := node;
      while IsPipelineTag(n.tag)
        invariant LastWriteEnds(n) && LastWritten(n) == LastWritten(node)
        decreases n
      {
        n := n.children[|n.children| - 1];
      }
      r := n;
    }

    /** `rebuild(node)`: the count restarts and the file is written afresh. */
    method Rebuild(root: Node) returns (st: Status)
      modifies this
      ensures Did("", 0, old(level), Render(root, old(level), true), st)
    {
      nodes := 0;
      output := "";
      st := RebuildInternal(root, true);
    }

    /** `_rebuild_internal(node)`. */
    method RebuildInternal(n: Node, top: bool) returns (st: Status)
      modifies this
      ensures Did(old(output), old(nodes), old(level), Render(n, old(level), top), st)
      decreases n, 3
    {
      ghost var o0, c0, l := output, nodes, level;
      nodes := nodes + 1;
      st := RebuildBody(n, top);
      Chain(o0, c0, o0, c0 + 1, Out("", 1), output, nodes, Body(n, l, top));
    }

    /** The dispatch on the tag. */
    method RebuildBody(n: Node, top: bool) returns (st: Status)
      modifies this
      ensures Did(old(output), old(nodes), old(level), Body(n, old(level), top), st)
      decreases n, 2
    {
      var k := KindOf(n.tag);
      if IsWrapped(k) {
        st := RebuildWrapped(n);
      } else if IsListed(k) {
        st := RebuildJoined(n, Separator(k));
      } else if k == Statements {
        st := RebuildStatements(n);
      } else if k == Parameters {
        st := RebuildParameters(n);
      } else if IsBlock(k) {
        st := RebuildBlock(n, top);
      } else if IsCompound(k) {
        st := RebuildCompound(n);
      } else if IsExpression(k) {
        st := RebuildExpression(n);
      } else {
        st := Finished;
      }
    }

    /** `self._rebuild_internal(subnodes[k])`. */
    method RebuildChild(n: Node, k: nat) returns (st: Status)
      modifies this
      ensures Did(old(output), old(nodes), old(level), Child(n, k, old(level)), st)
      decreases n, 0, 0
    {
      if k < |n.children| {
        st := RebuildInternal(n.children[k], false);
      } else {
        st := Threw;
      }
    }

    /** `for subnode in subnodes[from:]: self._rebuild_internal(subnode)`. */
    method RebuildKids(m: Node, from: nat) returns (st: Status)
      requires from <= |m.children|
      modifies this
      ensures Did(old(output), old(nodes), old(level), Kids(m, from, old(level)), st)
      decreases m, 0, |m.children| - from
    {
      ghost var o0, c0, l := output, nodes, level;
      ghost var done := W("");
      var i := from;
      while i < |m.children|
        invariant from <= i <= |m.children| && level == l
        invariant done.Out? && Extends(o0, c0, output, nodes, done)
        invariant Kids(m, from, l) == Then(done, Kids(m, i, l))
      {
        ghost var r := Render(m.children[i], l, false);
        st := RebuildKid(m, i, o0, c0, done);
        ThenThen(done, r, Kids(m, i + 1, l));
        if st != Finished {
          return;
        }
        done := Then(done, r);
        i := i + 1;
      }
      st := Finished;
    }

    /** One turn of the loop of `RebuildKids`: the `i`-th child, after the
        text `done` already written since `o0`. */
    method RebuildKid(m: Node, i: nat, ghost o0: string, ghost c0: nat, ghost done: Printed) returns (st: Status)
      requires i < |m.children| && done.Out? && Extends(o0, c0, output, nodes, done)
      modifies this
      ensures Did(o0, c0, old(level), Then(done, Render(m.children[i], old(level), false)), st)
      decreases m, 0, 0
    {
      ghost var o1, c1 := output, nodes;
      st := RebuildInternal(m.children[i], false);
      Chain(o0, c0, o1, c1, done, output, nodes, Render(m.children[i], old(level), false));
    }

    /** The children, `sep` before every one but the first. */
    method RebuildJoined(m: Node, sep: string) returns (st: Status)
      modifies this
      ensures Did(old(output), old(nodes), old(level), Joined(m, 0, old(level), sep), st)
      decreases m, 0, |m.children|
    {
      ghost var o0, c0, l := output, nodes, level;
      ghost var done := W("");
      var i := 0;
      while i < |m.children|
        invariant i <= |m.children| && level == l
        invariant done.Out? && Extends(o0, c0, output, nodes, done)
        invariant Joined(m, 0, l, sep) == Then(done, Joined(m, i, l, sep))
      {
        ghost var o1, c1 := output, nodes;
        ghost var r := Render(m.children[i], l, false);
        var lead := if i > 0 then sep else "";
        Write(lead);
        ghost var o2 := output;
        st := RebuildInternal(m.children[i], false);
        if st != Finished {
          return;
        }
        Chain(o1, c1, o2, c1, W(lead), output, nodes, r);
        Chain(o0, c0, o1, c1, done, output, nodes, Then(W(lead), r));
        ThenThen(W(lead), r, Joined(m, i + 1, l, sep));
        ThenThen(done, Then(W(lead), r), Joined(m, i + 1, l, sep));
        done := Then(done, Then(W(lead), r));
        i := i + 1;
      }
      st := Finished;
    }

    /** The children of `Statements`: indent, statement, terminator. */
    method RebuildStatements(m: Node) returns (st: Status)
      modifies this
      ensures Did(old(output), old(nodes), old(level), StatementsFrom(m, 0, old(level)), st)
      decreases m, 0, |m.children|
    {
      ghost var o0, c0, l := output, nodes, level;
      ghost var done := W("");
      ghost var total := StatementsFrom(m, 0, l);
      ThenEmptyLeft(total);
      var i := 0;
      while i < |m.children|
        invariant i <= |m.children| && level == l
        invariant done.Out? && Extends(o0, c0, output, nodes, done)
        invariant total == Then(done, StatementsFrom(m, i, l))
      {
        st, done := StatementRound(m, i, o0, c0, done, total);
        if st != Finished {
          return;
        }
        i := i + 1;
      }
      ThenEmptyRight(done);
      st := Finished;
    }

    /** One turn of the loop of `RebuildStatements`: the `i`-th statement,
        indented and terminated, after the text `done` already written
        since `o0` of the list `total`. Either the list is on its way, with
        `next` written and the rest still to come, or it ended here. */
    method StatementRound(m: Node, i: nat, ghost o0: string, ghost c0: nat, ghost done: Printed, ghost total: Printed)
      returns (st: Status, ghost next: Printed)
      requires i < |m.children| && done.Out? && Extends(o0, c0, output, nodes, done)
      requires total == Then(done, StatementsFrom(m, i, level))
      modifies this
      ensures Did(o0, c0, old(level), Then(done, StatementLine(m, i, old(level))), st)
      ensures next == Then(done, StatementLine(m, i, old(level)))
      ensures st == Finished ==> next.Out? && total == Then(next, StatementsFrom(m, i + 1, old(level)))
      ensures st != Finished ==> Did(o0, c0, old(level), total, st)
      decreases m, 0, 0
    {
      ghost var l := level;
      StatementsNext(m, i, l, done);
      next := Then(done, StatementLine(m, i, l));
      var c := m.children[i];
      ghost var r := Render(c, l, false);
      ghost var o1, c1 := output, nodes;
      Indent();
      ghost var o2 := output;
      st := RebuildInternal(c, false);
      if st != Finished {
        return;
      }
      ghost var o3, c3 := output, nodes;
      st := RebuildTerminator(c);
      if st != Finished {
        return;
      }
      Chain(o2, c1, o3, c3, r, output, nodes, Terminator(c));
      Chain(o1, c1, o2, c1, Indentation(l), output, nodes, Then(r, Terminator(c)));
      Chain(o0, c0, o1, c1, done, output, nodes, StatementLine(m, i, l));
    }

    /** What follows a statement. */
    method RebuildTerminator(c: Node) returns (st: Status)
      modifies this
      ensures Did(old(output), old(nodes), old(level), Terminator(c), st)
    {
      var t := c.tag;
      if t != "IfStatementAst" && t != "TryStatementAst" && t != "ForEachStatementAst" && t != "PipelineAst" {
        Write(";\n");
      } else if t == "PipelineAst" {
        if !LastWriteEnds(c) {
          return Looped;
        }
        var last := LastWrite(c);
        if last.tag != "ScriptBlockExpressionAst" {
          Write(";\n");
        }
      }
      st := Finished;
    }

    /** The children of `Parameters`, each followed by its separator and a
        newline. */
    method RebuildParameters(m: Node) returns (st: Status)
      modifies this
      ensures Did(old(output), old(nodes), old(level), ParametersFrom(m, 0, old(level)), st)
      decreases m, 0, |m.children|
    {
      ghost var o0, c0, l := output, nodes, level;
      ghost var done := W("");
      ghost var total := ParametersFrom(m, 0, l);
      ThenEmptyLeft(total);
      var i := 0;
      while i < |m.children|
        invariant i <= |m.children| && level == l
        invariant done.Out? && Extends(o0, c0, output, nodes, done)
        invariant total == Then(done, ParametersFrom(m, i, l))
      {
        st, done := ParameterRound(m, i, o0, c0, done, total);
        if st != Finished {
          return;
        }
        i := i + 1;
      }
      ThenEmptyRight(done);
      st := Finished;
    }

    /** One turn of the loop of `RebuildParameters`: the `i`-th parameter,
        its separator and a newline, after the text `done` already written
        since `o0` of the list `total`. Either the list is on its way, with
        `next` written and the rest still to come, or it ended here. */
    method ParameterRound(m: Node, i: nat, ghost o0: string, ghost c0: nat, ghost done: Printed, ghost total: Printed)
      returns (st: Status, ghost next: Printed)
      requires i < |m.children| && done.Out? && Extends(o0, c0, output, nodes, done)
      requires total == Then(done, ParametersFrom(m, i, level))
      modifies this
      ensures Did(o0, c0, old(level), Then(done, ParameterLine(m, i, old(level))), st)
      ensures next == Then(done, ParameterLine(m, i, old(level)))
      ensures st == Finished ==> next.Out? && total == Then(next, ParametersFrom(m, i + 1, old(level)))
      ensures st != Finished ==> Did(o0, c0, old(level), total, st)
      decreases m, 0, 0
    {
      ghost var l, o1, c1 := level, output, nodes;
      ParametersNext(m, i, l, done);
      next := Then(done, ParameterLine(m, i, l));
      var c := m.children[i];
      st := RebuildInternal(c, false);
      if st != Finished {
        return;
      }
      ghost var o2, c2 := output, nodes;
      WriteSeparator(i, c);
      Write("\n");
      ParameterStep(m, i, l, done, o0, c0, o1, c1, o2, c2);
    }

    /** `", "` after a parameter whose position is below its own child
        count less one. */
    method WriteSeparator(i: nat, c: Node)
      modifies this
      ensures output == old(output) + ParameterSep(i, c) && level == old(level) && nodes == old(nodes)
    {
      if i < |c.children| - 1 {
        Write(", ");
      }
    }

    /** The children whose tag is not `tag`. */
    method RebuildKidsExcept(m: Node, tag: string) returns (st: Status)
      modifies this
      ensures Did(old(output), old(nodes), old(level), KidsExcept(m, 0, old(level), tag), st)
      decreases m, 0, |m.children|
    {
      ghost var o0, c0, l := output, nodes, level;
      ghost var done := W("");
      var i := 0;
      while i < |m.children|
        invariant i <= |m.children| && level == l
        invariant done.Out? && Extends(o0, c0, output, nodes, done)
        invariant KidsExcept(m, 0, l, tag) == Then(done, KidsExcept(m, i, l, tag))
      {
        if m.children[i].tag != tag {
          ghost var o1, c1 := output, nodes;
          ghost var r := Render(m.children[i], l, false);
          st := RebuildInternal(m.children[i], false);
          if st != Finished {
            return;
          }
          Chain(o0, c0, o1, c1, done, output, nodes, r);
          ThenThen(done, r, KidsExcept(m, i + 1, l, tag));
          done := Then(done, r);
        }
        i := i + 1;
      }
      st := Finished;
    }

    /** Lead, children, trail. */
    method RebuildWrapped(n: Node) returns (st: Status)
      modifies this
      ensures Did(old(output), old(nodes), old(level), Wrapped(n, old(level)), st)
      decreases n, 1
    {
      ghost var o0, c0, l := output, nodes, level;
      var k := KindOf(n.tag);
      if k == CatchClauses {
        Indent();
        st := Finished;
      } else {
        st := Put(Lead(n, level));
        if st != Finished {
          return;
        }
      }
      ghost var o1, c1 := output, nodes;
      st := RebuildKids(n, 0);
      if st != Finished {
        return;
      }
      ghost var o2, c2 := output, nodes;
      Write(Trail(k));
      Chain(o1, c1, o2, c2, Kids(n, 0, l), output, nodes, W(Trail(k)));
      Chain(o0, c0, o1, c1, Lead(n, l), output, nodes, Then(Kids(n, 0, l), W(Trail(k))));
    }

    /** Indent, open brace, the children one level deeper, close brace. */
    method RebuildBraced(n: Node, from: nat) returns (st: Status)
      requires from <= |n.children|
      modifies this
      ensures Did(old(output), old(nodes), old(level), Braced(n, from, old(level)), st)
      decreases n, 0, |n.children| - from + 1
    {
      ghost var o0, c0, l := output, nodes, level;
      Indent();
      ghost var o1 := output;
      Write("{\n");
      ghost var o2 := output;
      level := level + 1;
      st := RebuildKids(n, from);
      if st != Finished {
        return;
      }
      level := level - 1;
      ghost var o3, c3 := output, nodes;
      Indent();
      ghost var o4 := output;
      Write("}\n");
      Chain(o3, c3, o4, c3, Indentation(l), output, nodes, W("}\n"));
      Chain(o2, c0, o3, c3, Kids(n, from, l + 1), output, nodes, Then(Indentation(l), W("}\n")));
      Chain(o1, c0, o2, c0, W("{\n"), output, nodes, Then(Kids(n, from, l + 1), Then(Indentation(l), W("}\n"))));
      Chain(o0, c0, o1, c0, Indentation(l), output, nodes,
        Then(W("{\n"), Then(Kids(n, from, l + 1), Then(Indentation(l), W("}\n")))));
    }

    method RebuildBlock(n: Node, top: bool) returns (st: Status)
      modifies this
      ensures Did(old(output), old(nodes), old(level), Block(n, old(level), top), st)
      decreases n, 1
    {
      var k := KindOf(n.tag);
      if k == StatementBlock {
        st := RebuildBraced(n, 0);
      } else if k == ParamBlock {
        st := RebuildParamBlock(n, top);
      } else if top {
        st := RebuildKids(n, 0);
      } else {
        ghost var o0, c0, l := output, nodes, level;
        Write("\n");
        ghost var o1 := output;
        st := RebuildBraced(n, 0);
        Chain(o0, c0, o1, c0, W("\n"), output, nodes, Braced(n, 0, l));
      }
    }

    method RebuildParamBlock(n: Node, top: bool) returns (st: Status)
      modifies this
      ensures Did(old(output), old(nodes), old(level), ParamBlockOf(n, old(level), top), st)
      decreases n, 0, |n.children| + 2
    {
      if n.children == [] {
        return Threw;
      }
      ghost var o0, c0, l := output, nodes, level;
      var from := 0;
      if n.children[0].tag == "Attributes" {
        st := RebuildInternal(n.children[0], false);
        if st != Finished {
          return;
        }
        from := 1;
      }
      ghost var first := if from == 1 then Render(n.children[0], l, false) else W("");
      ghost var rest := if top then Kids(n, from, l) else Then(W("\n"), Braced(n, from, l));
      ghost var o1, c1 := output, nodes;
      Indent();
      ghost var o2 := output;
      Write("param");
      ghost var o3 := output;
      if top {
        st := RebuildKids(n, from);
      } else {
        Write("\n");
        ghost var o4 := output;
        st := RebuildBraced(n, from);
        Chain(o3, c1, o4, c1, W("\n"), output, nodes, Braced(n, from, l));
      }
      Chain(o2, c1, o3, c1, W("param"), output, nodes, rest);
      Chain(o1, c1, o2, c1, Indentation(l), output, nodes, Then(W("param"), rest));
      Chain(o0, c0, o1, c1, first, output, nodes, Then(Indentation(l), Then(W("param"), rest)));
    }

    method RebuildCompound(n: Node) returns (st: Status)
      modifies this
      ensures Did(old(output), old(nodes), old(level), Compound(n, old(level)), st)
      decreases n, 1, 1
    {
      var k := KindOf(n.tag);
      if k == Attributes {
        st := RebuildAttributes(n);
      } else if k == Attribute {
        st := RebuildAttribute(n);
      } else if k == Parameter {
        st := RebuildParameter(n);
      } else if k == ForEachStatement {
        st := RebuildForEach(n);
      } else if k == FunctionDefinition {
        st := RebuildFunctionDefinition(n);
      } else if k == TryStatement {
        st := RebuildTry(n);
      } else {
        st := RebuildIf(n);
      }
    }

    /** The walrus tests: a found child is printed only when it has
        children. */
    method RebuildIfFound(n: Node, tag: string, after: string) returns (st: Status)
      modifies this
      ensures Did(old(output), old(nodes), old(level), IfFound(n, tag, old(level), after), st)
      decreases n, 0, 0
    {
      var k := FirstWithTag(n.children, tag);
      if k < |n.children| && n.children[k].children != [] {
        ghost var o0, c0, l := output, nodes, level;
        st := RebuildInternal(n.children[k], false);
        if st != Finished {
          return;
        }
        ghost var o1, c1 := output, nodes;
        Write(after);
        Chain(o0, c0, o1, c1, Render(n.children[k], l, false), output, nodes, W(after));
      } else {
        st := Finished;
      }
    }

    method RebuildAttributes(n: Node) returns (st: Status)
      modifies this
      ensures Did(old(output), old(nodes), old(level), AttributesOf(n, old(level)), st)
      decreases n, 1, 0
    {
      ghost var o0, c0, l := output, nodes, level;
      st := RebuildIfFound(n, "TypeConstraintAst", "");
      if st != Finished {
        return;
      }
      ghost var o1, c1 := output, nodes;
      st := RebuildIfFound(n, "AttributeAst", "\n");
      Chain(o0, c0, o1, c1, IfFound(n, "TypeConstraintAst", l, ""), output, nodes,
        IfFound(n, "AttributeAst", l, "\n"));
    }

    method RebuildAttribute(n: Node) returns (st: Status)
      modifies this
      ensures Did(old(output), old(nodes), old(level), AttributeOf(n, old(level)), st)
      decreases n, 1, 0
    {
      ghost var o0, c0, l := output, nodes, level;
      Indent();
      ghost var o1 := output;
      st := Put(Key(n, "TypeName", "[", "]"));
      if st != Finished {
        return;
      }
      ghost var o2 := output;
      var haveArgs := false;
      var i := 0;
      while i < |n.children|
        invariant i <= |n.children|
        invariant haveArgs <==> exists k :: 0 <= k < i && n.children[k].children != []
        invariant haveArgs ==> HasArgs(n.children)
      {
        if n.children[i].children != [] {
          haveArgs := true;
          break;
        }
        i := i + 1;
      }
      ghost var rest := if HasArgs(n.children) then Then(W("("), Then(Kids(n, 0, l), W(")"))) else Kids(n, 0, l);
      if haveArgs {
        Write("(");
        ghost var o3 := output;
        st := RebuildKids(n, 0);
        if st != Finished {
          return;
        }
        ghost var o4, c4 := output, nodes;
        Write(")");
        Chain(o3, c0, o4, c4, Kids(n, 0, l), output, nodes, W(")"));
        Chain(o2, c0, o3, c0, W("("), output, nodes, Then(Kids(n, 0, l), W(")")));
      } else {
        st := RebuildKids(n, 0);
      }
      Chain(o1, c0, o2, c0, Key(n, "TypeName", "[", "]"), output, nodes, rest);
      Chain(o0, c0, o1, c0, Indentation(l), output, nodes, Then(Key(n, "TypeName", "[", "]"), rest));
    }

    method RebuildParameter(n: Node) returns (st: Status)
      modifies this
      ensures Did(old(output), old(nodes), old(level), ParameterOf(n, old(level)), st)
      decreases n, 1, 0
    {
      if n.children == [] {
        return Threw;
      }
      ghost var o0, c0, l := output, nodes, level;
      var from := 0;
      if n.children[0].tag == "Attributes" {
        st := RebuildChild(n, 0);
        if st != Finished {
          return;
        }
        from := 1;
      }
      ghost var first := if from == 1 then Child(n, 0, l) else W("");
      ghost var o1, c1 := output, nodes;
      st := RebuildDeclared(n, from);
      Chain(o0, c0, o1, c1, first, output, nodes, Declared(n, from, l));
    }

    method RebuildDeclared(n: Node, from: nat) returns (st: Status)
      modifies this
      ensures Did(old(output), old(nodes), old(level), Declared(n, from, old(level)), st)
      decreases n, 0, 1
    {
      if |n.children| - from != 2 {
        return Finished;
      }
      ghost var o0, c0, l := output, nodes, level;
      Indent();
      ghost var o1 := output;
      st := Put(Key(n, "StaticType", "[", "]"));
      if st != Finished {
        return;
      }
      ghost var o2 := output;
      st := RebuildChild(n, from);
      if st != Finished {
        return;
      }
      ghost var o3, c3 := output, nodes;
      Write(" = ");
      ghost var o4 := output;
      st := RebuildChild(n, from + 1);
      ghost var p3 := Then(W(" = "), Child(n, from + 1, l));
      Chain(o3, c3, o4, c3, W(" = "), output, nodes, Child(n, from + 1, l));
      Chain(o2, c0, o3, c3, Child(n, from, l), output, nodes, p3);
      Chain(o1, c0, o2, c0, Key(n, "StaticType", "[", "]"), output, nodes, Then(Child(n, from, l), p3));
      Chain(o0, c0, o1, c0, Indentation(l), output, nodes,
        Then(Key(n, "StaticType", "[", "]"), Then(Child(n, from, l), p3)));
    }

    method RebuildForEach(n: Node) returns (st: Status)
      modifies this
      ensures Did(old(output), old(nodes), old(level), ForEachOf(n, old(level)), st)
      decreases n, 1, 0
    {
      ghost var o0, c0, l := output, nodes, level;
      Write("\n");
      ghost var o1 := output;
      Write("foreach(");
      ghost var o2 := output;
      st := RebuildChild(n, 0);
      if st != Finished {
        return;
      }
      ghost var o3, c3 := output, nodes;
      Write(" in ");
      ghost var o4 := output;
      st := RebuildChild(n, 2);
      if st != Finished {
        return;
      }
      ghost var o5, c5 := output, nodes;
      Write(")\n");
      ghost var o6 := output;
      st := RebuildChild(n, 1);
      ghost var p5 := Then(W(")\n"), Child(n, 1, l));
      ghost var p3 := Then(W(" in "), Then(Child(n, 2, l), p5));
      Chain(o5, c5, o6, c5, W(")\n"), output, nodes, Child(n, 1, l));
      Chain(o4, c3, o5, c5, Child(n, 2, l), output, nodes, p5);
      Chain(o3, c3, o4, c3, W(" in "), output, nodes, Then(Child(n, 2, l), p5));
      Chain(o2, c0, o3, c3, Child(n, 0, l), output, nodes, p3);
      Chain(o1, c0, o2, c0, W("foreach("), output, nodes, Then(Child(n, 0, l), p3));
      Chain(o0, c0, o1, c0, W("\n"), output, nodes, Then(W("foreach("), Then(Child(n, 0, l), p3)));
    }

    method RebuildFunctionDefinition(n: Node) returns (st: Status)
      modifies this
      ensures Did(old(output), old(nodes), old(level), FunctionOf(n, old(level)), st)
      decreases n, 1, 0
    {
      ghost var o0, c0, l := output, nodes, level;
      if |n.children| == 2 {
        st := Put(Key(n, "Name", "function ", ""));
        if st != Finished {
          return;
        }
        ghost var o1 := output;
        Write("(");
        ghost var o2 := output;
        st := RebuildChild(n, 0);
        if st != Finished {
          return;
        }
        ghost var o3, c3 := output, nodes;
        Write(")");
        ghost var o4 := output;
        st := RebuildChild(n, 1);
        Chain(o3, c3, o4, c3, W(")"), output, nodes, Child(n, 1, l));
        Chain(o2, c0, o3, c3, Child(n, 0, l), output, nodes, Then(W(")"), Child(n, 1, l)));
        Chain(o1, c0, o2, c0, W("("), output, nodes, Then(Child(n, 0, l), Then(W(")"), Child(n, 1, l))));
        Chain(o0, c0, o1, c0, Key(n, "Name", "function ", ""), output, nodes,
          Then(W("("), Then(Child(n, 0, l), Then(W(")"), Child(n, 1, l)))));
      } else if |n.children| == 1 {
        st := Put(Key(n, "Name", "function ", ""));
        if st != Finished {
          return;
        }
        ghost var o1 := output;
        st := RebuildChild(n, 0);
        Chain(o0, c0, o1, c0, Key(n, "Name", "function ", ""), output, nodes, Child(n, 0, l));
      } else {
        st := Finished;
      }
    }

    /** `try`, the body, the catch clauses. */
    method RebuildTry(n: Node) returns (st: Status)
      modifies this
      ensures Did(old(output), old(nodes), old(level),
        Then(W("try\n"), Then(Child(n, 0, old(level)), Child(n, 1, old(level)))), st)
      decreases n, 1, 0
    {
      ghost var o0, c0, l := output, nodes, level;
      Write("try\n");
      ghost var o1 := output;
      st := RebuildChild(n, 0);
      if st != Finished {
        return;
      }
      ghost var o2, c2 := output, nodes;
      st := RebuildChild(n, 1);
      Chain(o1, c0, o2, c2, Child(n, 0, l), output, nodes, Child(n, 1, l));
      Chain(o0, c0, o1, c0, W("try\n"), output, nodes, Then(Child(n, 0, l), Child(n, 1, l)));
    }

    method RebuildIf(n: Node) returns (st: Status)
      modifies this
      ensures Did(old(output), old(nodes), old(level), IfOf(n, old(level)), st)
      decreases n, 1, 0
    {
      ghost var o0, c0, l := output, nodes, level;
      Write("if (");
      ghost var o1 := output;
      st := RebuildChild(n, 0);
      if st != Finished {
        return;
      }
      ghost var o2, c2 := output, nodes;
      Write(")\n");
      ghost var o3 := output;
      st := RebuildChild(n, 1);
      if st != Finished {
        return;
      }
      ghost var o4, c4 := output, nodes;
      ghost var tail := if |n.children| == 3 then
        Then(Indentation(l), Then(W("else\n"), Then(Child(n, 2, l), W("\n")))) else W("");
      if |n.children| == 3 {
        Indent();
        ghost var o5 := output;
        Write("else\n");
        ghost var o6 := output;
        st := RebuildChild(n, 2);
        if st != Finished {
          return;
        }
        ghost var o7, c7 := output, nodes;
        Write("\n");
        Chain(o6, c4, o7, c7, Child(n, 2, l), output, nodes, W("\n"));
        Chain(o5, c4, o6, c4, W("else\n"), output, nodes, Then(Child(n, 2, l), W("\n")));
        Chain(o4, c4, o5, c4, Indentation(l), output, nodes, Then(W("else\n"), Then(Child(n, 2, l), W("\n"))));
      }
      ghost var p2 := Then(W(")\n"), Then(Child(n, 1, l), tail));
      Chain(o3, c2, o4, c4, Child(n, 1, l), output, nodes, tail);
      Chain(o2, c2, o3, c2, W(")\n"), output, nodes, Then(Child(n, 1, l), tail));
      Chain(o1, c0, o2, c2, Child(n, 0, l), output, nodes, p2);
      Chain(o0, c0, o1, c0, W("if ("), output, nodes, Then(Child(n, 0, l), p2));
    }

    method RebuildExpression(n: Node) returns (st: Status)
      modifies this
      ensures Did(old(output), old(nodes), old(level), Expression(n, old(level)), st)
      decreases n, 1, 1
    {
      match KindOf(n.tag) {
        case BreakStatement =>
          Write("break");
          st := Finished;
        case ExitStatement =>
          Write("exit");
          st := Finished;
        case ContinueStatement =>
          Write("continue");
          st := Finished;
        case TypeConstraint =>
          st := Put(Key(n, "TypeName", "[", "]"));
        case TypeExpression =>
          st := Put(Key(n, "TypeName", "[", "]"));
        case VariableExpression =>
          st := Put(Key(n, "VariablePath", "$", ""));
        case ConvertExpression =>
          st := RebuildConvert(n);
        case ArrayLiteral =>
          st := RebuildArrayLiteral(n);
        case AssignmentStatement =>
          st := RebuildOperation(n);
        case BinaryExpression =>
          st := RebuildOperation(n);
        case ConstantExpression =>
          st := RebuildConstant(n);
        case StringConstantExpression =>
          st := Put(StringText(n));
        case ExpandableStringExpression =>
          st := Put(StringText(n));
        case IndexExpression =>
          st := RebuildIndex(n);
        case MemberExpression =>
          st := RebuildMember(n);
        case _ =>
          st := RebuildInvokeMember(n);
      }
    }

    /** Left operand, the operator's spelling, right operand. */
    method RebuildOperation(n: Node) returns (st: Status)
      modifies this
      ensures Did(old(output), old(nodes), old(level), OperationOf(n, old(level)), st)
      decreases n, 1, 0
    {
      ghost var o0, c0, l := output, nodes, level;
      st := RebuildChild(n, 0);
      if st != Finished {
        return;
      }
      if "Operator" !in n.attrib {
        return Threw;
      }
      ghost var o1, c1 := output, nodes;
      RebuildOperator(n.attrib["Operator"]);
      ghost var o2 := output;
      st := RebuildChild(n, 1);
      Chain(o1, c1, o2, c1, Op(n, "Operator"), output, nodes, Child(n, 1, l));
      Chain(o0, c0, o1, c1, Child(n, 0, l), output, nodes, Then(Op(n, "Operator"), Child(n, 1, l)));
    }

    method RebuildConstant(n: Node) returns (st: Status)
      modifies this
      ensures Did(old(output), old(nodes), old(level), ConstantText(n), st)
    {
      if "StaticType" !in n.attrib {
        return Threw;
      }
      if n.attrib["StaticType"] == "int" {
        if n.text.None? {
          return Threw;
        }
        Write(n.text.value);
      }
      st := Finished;
    }

    method RebuildIndex(n: Node) returns (st: Status)
      modifies this
      ensures Did(old(output), old(nodes), old(level),
        Then(Child(n, 0, old(level)), Then(W("["), Then(Child(n, 1, old(level)), W("]")))), st)
      decreases n, 1, 0
    {
      ghost var o0, c0, l := output, nodes, level;
      st := RebuildChild(n, 0);
      if st != Finished {
        return;
      }
      ghost var o1, c1 := output, nodes;
      Write("[");
      ghost var o2 := output;
      st := RebuildChild(n, 1);
      if st != Finished {
        return;
      }
      ghost var o3, c3 := output, nodes;
      Write("]");
      Chain(o2, c1, o3, c3, Child(n, 1, l), output, nodes, W("]"));
      Chain(o1, c1, o2, c1, W("["), output, nodes, Then(Child(n, 1, l), W("]")));
      Chain(o0, c0, o1, c1, Child(n, 0, l), output, nodes, Then(W("["), Then(Child(n, 1, l), W("]"))));
    }

    method RebuildMember(n: Node) returns (st: Status)
      modifies this
      ensures Did(old(output), old(nodes), old(level),
        Then(Child(n, 0, old(level)), Then(StaticSep(n), Child(n, 1, old(level)))), st)
      decreases n, 1, 0
    {
      ghost var o0, c0, l := output, nodes, level;
      st := RebuildChild(n, 0);
      if st != Finished {
        return;
      }
      ghost var o1, c1 := output, nodes;
      st := Put(StaticSep(n));
      if st != Finished {
        return;
      }
      ghost var o2 := output;
      st := RebuildChild(n, 1);
      Chain(o1, c1, o2, c1, StaticSep(n), output, nodes, Child(n, 1, l));
      Chain(o0, c0, o1, c1, Child(n, 0, l), output, nodes, Then(StaticSep(n), Child(n, 1, l)));
    }

    method RebuildConvert(n: Node) returns (st: Status)
      modifies this
      ensures Did(old(output), old(nodes), old(level), ConvertOf(n, old(level)), st)
      decreases n, 1, 0
    {
      var k := FirstWithTag(n.children, "TypeConstraintAst");
      if k == |n.children| {
        // `node.find` gave None, and printing None raises
        return Threw;
      }
      ghost var o0, c0, l := output, nodes, level;
      st := RebuildInternal(n.children[k], false);
      if st != Finished {
        return;
      }
      ghost var o1, c1 := output, nodes;
      st := RebuildKidsExcept(n, "TypeConstraintAst");
      Chain(o0, c0, o1, c1, Render(n.children[k], l, false), output, nodes,
        KidsExcept(n, 0, l, "TypeConstraintAst"));
    }

    method RebuildArrayLiteral(n: Node) returns (st: Status)
      modifies this
      ensures Did(old(output), old(nodes), old(level), ArrayOf(n, old(level)), st)
      decreases n, 1, 0
    {
      if n.children == [] {
        return Threw;
      }
      ghost var o0, c0, l := output, nodes, level;
      Write("@(");
      ghost var o1 := output;
      st := RebuildJoined(n.children[0], ", ");
      if st != Finished {
        return;
      }
      ghost var o2, c2 := output, nodes;
      Write(")");
      Chain(o1, c0, o2, c2, Joined(n.children[0], 0, l, ", "), output, nodes, W(")"));
      Chain(o0, c0, o1, c0, W("@("), output, nodes, Then(Joined(n.children[0], 0, l, ", "), W(")")));
    }

    method RebuildInvokeMember(n: Node) returns (st: Status)
      modifies this
      ensures Did(old(output), old(nodes), old(level), InvokeOf(n, old(level)), st)
      decreases n, 1, 0
    {
      ghost var o0, c0, l := output, nodes, level;
      if |n.children| == 3 {
        st := RebuildChild(n, 1);
        if st != Finished {
          return;
        }
        ghost var o1, c1 := output, nodes;
        st := Put(StaticSep(n));
        if st != Finished {
          return;
        }
        ghost var o2 := output;
        st := RebuildChild(n, 2);
        if st != Finished {
          return;
        }
        ghost var o3, c3 := output, nodes;
        Write("(");
        ghost var o4 := output;
        st := RebuildChild(n, 0);
        if st != Finished {
          return;
        }
        ghost var o5, c5 := output, nodes;
        Write(")");
        ghost var p3 := Then(W("("), Then(Child(n, 0, l), W(")")));
        Chain(o4, c3, o5, c5, Child(n, 0, l), output, nodes, W(")"));
        Chain(o3, c3, o4, c3, W("("), output, nodes, Then(Child(n, 0, l), W(")")));
        Chain(o2, c1, o3, c3, Child(n, 2, l), output, nodes, p3);
        Chain(o1, c1, o2, c1, StaticSep(n), output, nodes, Then(Child(n, 2, l), p3));
        Chain(o0, c0, o1, c1, Child(n, 1, l), output, nodes, Then(StaticSep(n), Then(Child(n, 2, l), p3)));
      } else if |n.children| == 2 {
        st := RebuildChild(n, 0);
        if st != Finished {
          return;
        }
        ghost var o1, c1 := output, nodes;
        st := Put(StaticSep(n));
        if st != Finished {
          return;
        }
        ghost var o2 := output;
        st := RebuildChild(n, 1);
        if st != Finished {
          return;
        }
        ghost var o3, c3 := output, nodes;
        Write("()");
        Chain(o2, c1, o3, c3, Child(n, 1, l), output, nodes, W("()"));
        Chain(o1, c1, o2, c1, StaticSep(n), output, nodes, Then(Child(n, 1, l), W("()")));
        Chain(o0, c0, o1, c1, Child(n, 0, l), output, nodes, Then(StaticSep(n), Then(Child(n, 1, l), W("()"))));
      } else {
        st := Finished;
      }
    }
  }
}
