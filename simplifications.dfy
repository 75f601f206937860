/** The rules of modules/optimizations/simplifications.py: normalising the
    case and quoting of words, unwrapping single-element parentheses,
    pipelines and arrays, and substituting variables bound to constants. */
module Simplifications {
  import opened Python
  import opened ElementTree
  import opened Utils
  import opened Rules

  const StringTypeKey := "StringConstantType"

  /** The element with its `j`-th child replaced. */
  function WithChild(n: Node, j: nat, c: Node): Node
    requires j < |n.children|
  {
    n.(children := n.children[j := c])
  }

  /** Changing a child in place through its parent is replacing the child. */
  lemma MutateChild(root: Node, p: Path, j: nat, c: Node)
    requires ValidPath(root, p) && j < |At(root, p).children|
    ensures ValidPath(root, p + [j])
    ensures ReplaceAt(root, p, WithChild(At(root, p), j, c)) == ReplaceAt(root, p + [j], c)
  {
    ValidExtend(root, p, j);
    ReplaceThroughParent(root, p + [j], c);
    assert Parent(p + [j]) == p && Last(p + [j]) == j;
  }

  /** A first-match rule that changes one child of the element it accepts
      leaves the rest of the tree alone: the new tree is the old one with
      that child replaced. */
  lemma ChildRewritten(root: Node, t: Node, vs: seq<Visit>, k: nat, j: nat, c: Node)
    requires vs == Walk(root) && k < |vs| && j < |vs[k].node.children|
    requires t == ReplaceAt(root, vs[k].path, WithChild(vs[k].node, j, c))
    ensures ValidPath(root, vs[k].path + [j]) && t == ReplaceAt(root, vs[k].path + [j], c)
  {
    assert Locates(root, vs[k]);
    MutateChild(root, vs[k].path, j, c);
  }

  // ---------------------------------------------------------------- opt_command_element_as_bareword

  /** A command element the rule turns into a bare word: a string constant
      with another quoting whose text is a known bare word. */
  predicate Markable(barewords: map<string, string>, c: Node)
  {
    c.tag == "StringConstantExpressionAst" && StringTypeKey in c.attrib
    && c.attrib[StringTypeKey] != "BareWord" && c.text.Some? && c.text.value in barewords
  }

  /** The loop over a `CommandElements` element's children from `i` on: the
      index of the first markable one; a string constant without a
      `StringConstantType` raises KeyError. */
  function MarkableFrom(barewords: map<string, string>, cs: seq<Node>, i: nat): (r: Py<Option<nat>>)
    requires i <= |cs|
    ensures r.Ok? && r.value.Some? ==>
      i <= r.value.value < |cs| && Markable(barewords, cs[r.value.value])
      && forall j :: i <= j < r.value.value ==> !Markable(barewords, cs[j])
    ensures r == Ok(None) ==> forall j :: i <= j < |cs| ==> !Markable(barewords, cs[j])
    ensures r.Throw? ==> exists j :: i <= j < |cs| && cs[j].tag == "StringConstantExpressionAst" && StringTypeKey !in cs[j].attrib
    decreases |cs| - i
  {
    if i == |cs| then Ok(None)
    else if cs[i].tag != "StringConstantExpressionAst" then MarkableFrom(barewords, cs, i + 1)
    else if StringTypeKey !in cs[i].attrib then Throw
    else if Markable(barewords, cs[i]) then Ok(Some(i))
    else MarkableFrom(barewords, cs, i + 1)
  }

  function MarkVerdict(barewords: map<string, string>, n: Node): Verdict
  {
    if n.tag != "CommandElements" then Skip
    else
      match MarkableFrom(barewords, n.children, 0)
      case Throw => Act(Fail)
      case Ok(None) => Skip
      case Ok(Some(j)) =>
        var c := n.children[j];
        Act(Mutate(WithChild(n, j, c.(attrib := c.attrib[StringTypeKey := "BareWord"]))))
  }

  function MarkRule(barewords: map<string, string>): Node -> Verdict
  {
    n => MarkVerdict(barewords, n)
  }

  /** `opt_command_element_as_bareword(ast)`. */
  function CommandElementAsBareword(tables: Tables, root: Node): Step
  {
    FirstMatch(root, MarkRule(tables.barewords))
  }

  method OptCommandElementAsBareword(tables: Tables, ast: Ast) returns (out: Outcome)
    modifies ast
    ensures StepOf(out, ast.root) == CommandElementAsBareword(tables, old(ast.root))
  {
    out := ApplyFirst(ast, MarkRule(tables.barewords));
  }

  /** On success the first markable command element becomes a bare word:
      only its `StringConstantType` changes, its text does not. */
  lemma MarkEffect(tables: Tables, root: Node, t: Node)
    requires CommandElementAsBareword(tables, root) == Done(true, t)
    ensures exists k: nat, j: nat ::
      k < |Walk(root)| && Walk(root)[k].node.tag == "CommandElements"
      && j < |Walk(root)[k].node.children|
      && var c := Walk(root)[k].node.children[j];
      Markable(tables.barewords, c)
      && (forall i :: 0 <= i < j ==> !Markable(tables.barewords, Walk(root)[k].node.children[i]))
      && ValidPath(root, Walk(root)[k].path + [j])
      && t == ReplaceAt(root, Walk(root)[k].path + [j], c.(attrib := c.attrib[StringTypeKey := "BareWord"]))
  {
    var cls := MarkRule(tables.barewords);
    FirstMatchChanged(root, cls, t);
    var vs := Walk(root);
    var k := FirstAct(vs, cls);
    var n := vs[k].node;
    assert cls(n) == MarkVerdict(tables.barewords, n);
    var j := MarkableFrom(tables.barewords, n.children, 0).value.value;
    var c := n.children[j];
    ChildRewritten(root, t, vs, k, j, c.(attrib := c.attrib[StringTypeKey := "BareWord"]));
  }

  // ---------------------------------------------------------------- opt_special_variable_case

  /** A variable whose lower-cased name is a known automatic variable gets
      that variable's canonical spelling; a variable without `VariablePath`
      raises KeyError. */
  function CaseVerdict(names: map<string, string>, n: Node): Verdict
  {
    if n.tag != "VariableExpressionAst" then Skip
    else if "VariablePath" !in n.attrib then Act(Fail)
    else
      var path := n.attrib["VariablePath"];
      if Lower(path) in names && path != names[Lower(path)] then
        Act(Mutate(n.(attrib := n.attrib["VariablePath" := names[Lower(path)]])))
      else Skip
  }

  function CaseRule(names: map<string, string>): Node -> Verdict
  {
    n => CaseVerdict(names, n)
  }

  /** `opt_special_variable_case(ast)`. */
  function SpecialVariableCase(tables: Tables, root: Node): Step
  {
    FirstMatch(root, CaseRule(tables.specialNames))
  }

  method OptSpecialVariableCase(tables: Tables, ast: Ast) returns (out: Outcome)
    modifies ast
    ensures StepOf(out, ast.root) == SpecialVariableCase(tables, old(ast.root))
  {
    out := ApplyFirst(ast, CaseRule(tables.specialNames));
  }

  /** The rule changes a variable exactly when its spelling differs from the
      canonical one, and then only its `VariablePath`; when the canonical
      spelling lower-cases to its own key, the rewritten variable is left
      alone afterwards. */
  lemma CaseChanges(names: map<string, string>, n: Node)
    requires n.tag == "VariableExpressionAst" && "VariablePath" in n.attrib
    ensures CaseVerdict(names, n).Act?
      <==> Lower(n.attrib["VariablePath"]) in names && n.attrib["VariablePath"] != names[Lower(n.attrib["VariablePath"])]
    ensures CaseVerdict(names, n).Act? ==>
      var m := CaseVerdict(names, n).action.repl;
      m.tag == n.tag && m.text == n.text && m.children == n.children
      && m.attrib.Keys == n.attrib.Keys
      && (forall key :: key in n.attrib && key != "VariablePath" ==> m.attrib[key] == n.attrib[key])
      && m.attrib["VariablePath"] == names[Lower(n.attrib["VariablePath"])]
      && m.attrib["VariablePath"] != n.attrib["VariablePath"]
      && (Lower(m.attrib["VariablePath"]) == Lower(n.attrib["VariablePath"]) ==> CaseVerdict(names, m).Skip?)
  {
  }

  // ---------------------------------------------------------------- opt_type_constraint_from_convert

  /** A cast whose leading type constraint names another type than the
      cast's `StaticType` gets the static type written into the constraint;
      a cast without children raises IndexError, a missing `TypeName` or
      `StaticType` KeyError. */
  function FromConvertVerdict(n: Node): Verdict
  {
    if n.tag != "ConvertExpressionAst" then Skip
    else if n.children == [] then Act(Fail)
    else
      var c := n.children[0];
      if c.tag != "TypeConstraintAst" then Skip
      else if "TypeName" !in c.attrib || "StaticType" !in n.attrib then Act(Fail)
      else if c.attrib["TypeName"] == n.attrib["StaticType"] then Skip
      else Act(Mutate(WithChild(n, 0, c.(attrib := c.attrib["TypeName" := n.attrib["StaticType"]]))))
  }

  /** `opt_type_constraint_from_convert(ast)`. */
  function TypeConstraintFromConvert(root: Node): Step
  {
    FirstMatch(root, FromConvertVerdict)
  }

  method OptTypeConstraintFromConvert(ast: Ast) returns (out: Outcome)
    modifies ast
    ensures StepOf(out, ast.root) == TypeConstraintFromConvert(old(ast.root))
  {
    out := ApplyFirst(ast, FromConvertVerdict);
  }

  /** After the rewrite the constraint names the static type, so the same
      cast is not rewritten again. */
  lemma FromConvertSettles(n: Node)
    requires FromConvertVerdict(n).Act? && FromConvertVerdict(n).action.Mutate?
    ensures var m := FromConvertVerdict(n).action.repl;
      m.attrib == n.attrib && |m.children| == |n.children|
      && m.children[0].attrib["TypeName"] == n.attrib["StaticType"] != n.children[0].attrib["TypeName"]
      && m.children[1..] == n.children[1..]
      && FromConvertVerdict(m) == Skip
  {
  }

  // ---------------------------------------------------------------- segment spelling

  /** `BAREWORDS[t.lower()] if t.lower() in BAREWORDS else t`. */
  function Canonical(barewords: map<string, string>, t: string): string
  {
    if Lower(t) in barewords then barewords[Lower(t)] else t
  }

  function CanonicalAll(barewords: map<string, string>, ts: seq<string>): (r: seq<string>)
    ensures |r| == |ts| && forall k :: 0 <= k < |ts| ==> r[k] == Canonical(barewords, ts[k])
  {
    seq(|ts|, k requires 0 <= k < |ts| => Canonical(barewords, ts[k]))
  }

  /** Respelling the `sep`-separated segments of `s`. */
  function Respell(barewords: map<string, string>, s: string, sep: string): string
    requires sep != []
  {
    Join(sep, CanonicalAll(barewords, Split(s, sep)))
  }

  /** The respelling `opt_type_constraint_case` and `opt_bareword_case`
      apply: first the `.`-separated segments, then the `-`-separated ones
      of the result. */
  function Canon(barewords: map<string, string>, s: string): string
  {
    Respell(barewords, Respell(barewords, s, "."), "-")
  }

  /** A name none of whose segments is a known word keeps its spelling. */
  lemma RespellUnknown(barewords: map<string, string>, s: string, sep: string)
    requires sep != []
    requires forall k :: 0 <= k < |Split(s, sep)| ==> Lower(Split(s, sep)[k]) !in barewords
    ensures Respell(barewords, s, sep) == s
  {
    assert CanonicalAll(barewords, Split(s, sep)) == Split(s, sep);
    JoinSplit(s, sep);
  }

  lemma CanonUnknown(barewords: map<string, string>, s: string)
    requires forall k :: 0 <= k < |Split(s, ".")| ==> Lower(Split(s, ".")[k]) !in barewords
    requires forall k :: 0 <= k < |Split(s, "-")| ==> Lower(Split(s, "-")[k]) !in barewords
    ensures Canon(barewords, s) == s
  {
    RespellUnknown(barewords, s, ".");
    RespellUnknown(barewords, s, "-");
  }

  /** A string without the one-character separator splits into itself. */
  lemma {:induction false} SplitWithout(s: string, c: char)
    requires c !in s
    ensures Split(s, [c]) == [s]
    decreases |s|
  {
    if s != [] {
      assert s[..1] == [s[0]];
      SplitWithout(s[1..], c);
      assert s == [s[0]] + s[1..];
    }
  }

  /** A single known word takes its canonical spelling, provided that
      spelling is itself canonical and has no `-`. */
  lemma CanonWord(barewords: map<string, string>, s: string)
    requires '.' !in s && '-' !in s && Lower(s) in barewords
    requires '-' !in barewords[Lower(s)] && Canonical(barewords, barewords[Lower(s)]) == barewords[Lower(s)]
    ensures Canon(barewords, s) == barewords[Lower(s)]
  {
    var v := barewords[Lower(s)];
    SplitWithout(s, '.');
    assert CanonicalAll(barewords, [s]) == [v];
    assert Respell(barewords, s, ".") == v;
    SplitWithout(v, '-');
    assert CanonicalAll(barewords, [v]) == [v];
  }

  // ---------------------------------------------------------------- opt_type_constraint_case

  /** A type constraint or type expression whose name respells differently
      gets the respelled name; a missing `TypeName` raises KeyError. */
  function TypeCaseVerdict(barewords: map<string, string>, n: Node): Verdict
  {
    if n.tag != "TypeConstraintAst" && n.tag != "TypeExpressionAst" then Skip
    else if "TypeName" !in n.attrib then Act(Fail)
    else
      var name := n.attrib["TypeName"];
      var respelled := Canon(barewords, name);
      if name == respelled then Skip else Act(Mutate(n.(attrib := n.attrib["TypeName" := respelled])))
  }

  function TypeCaseRule(barewords: map<string, string>): Node -> Verdict
  {
    n => TypeCaseVerdict(barewords, n)
  }

  /** `opt_type_constraint_case(ast)`. */
  function TypeConstraintCase(tables: Tables, root: Node): Step
  {
    FirstMatch(root, TypeCaseRule(tables.barewords))
  }

  method OptTypeConstraintCase(tables: Tables, ast: Ast) returns (out: Outcome)
    modifies ast
    ensures StepOf(out, ast.root) == TypeConstraintCase(tables, old(ast.root))
  {
    out := ApplyFirst(ast, TypeCaseRule(tables.barewords));
  }

  /** A type name whose segments are all unknown words is never rewritten. */
  lemma TypeCaseUnknown(barewords: map<string, string>, n: Node)
    requires "TypeName" in n.attrib
    requires forall k :: 0 <= k < |Split(n.attrib["TypeName"], ".")| ==> Lower(Split(n.attrib["TypeName"], ".")[k]) !in barewords
    requires forall k :: 0 <= k < |Split(n.attrib["TypeName"], "-")| ==> Lower(Split(n.attrib["TypeName"], "-")[k]) !in barewords
    ensures TypeCaseVerdict(barewords, n) == Skip
  {
    CanonUnknown(barewords, n.attrib["TypeName"]);
  }

  // ---------------------------------------------------------------- opt_simplify_paren_single_expression

  /** One `if len(subnodes) == 1 and subnodes[0].tag in [tag]` step: descend
      into the only child when it has that tag. */
  function Peel(m: Node, tag: string): (r: Node)
    ensures Size(r) <= Size(m)
  {
    if |m.children| == 1 && m.children[0].tag == tag then
      ChildSmaller(m, 0);
      m.children[0]
    else m
  }

  /** Elements the unwrapping rules do not lift out of their wrapper. */
  predicate Liftable(tag: string)
  {
    tag != "CommandAst" && tag != "UnaryExpressionAst" && tag != "BinaryExpressionAst"
  }

  /** What the paren's children are once the wrappers Pipeline,
      PipelineElements and CommandExpression have been peeled. */
  function ParenInner(n: Node): Node
  {
    Peel(Peel(Peel(n, "PipelineAst"), "PipelineElements"), "CommandExpressionAst")
  }

  function ParenVerdict(n: Node): Verdict
  {
    if n.tag != "ParenExpressionAst" then Skip
    else
      var inner := ParenInner(n);
      if |inner.children| == 1 && Liftable(inner.children[0].tag) then Act(Replace(inner.children[0]))
      else Skip
  }

  /** `opt_simplify_paren_single_expression(ast)`. */
  function SimplifyParenSingleExpression(root: Node): Step
  {
    FirstMatch(root, ParenVerdict)
  }

  method OptSimplifyParenSingleExpression(ast: Ast) returns (out: Outcome)
    modifies ast
    ensures StepOf(out, ast.root) == SimplifyParenSingleExpression(old(ast.root))
  {
    out := ApplyFirst(ast, ParenVerdict);
  }

  /** `(expr)` with a single lifted expression under its wrappers. */
  lemma ParenLifts(e: Node)
    requires Liftable(e.tag)
    ensures var cmd := Node("CommandExpressionAst", map[], None, [e]);
      var elems := Node("PipelineElements", map[], None, [cmd]);
      var pipe := Node("PipelineAst", map[], None, [elems]);
      ParenVerdict(Node("ParenExpressionAst", map[], None, [pipe])) == Act(Replace(e))
  {
  }

  /** The expression a paren is replaced by is strictly smaller than it. */
  lemma ParenShrinks(n: Node)
    requires ParenVerdict(n).Act?
    ensures ParenVerdict(n).action.Replace?
    ensures Size(ParenVerdict(n).action.repl) < Size(n)
    ensures Liftable(ParenVerdict(n).action.repl.tag)
  {
    ChildSmaller(ParenInner(n), 0);
  }

  /** On success the first liftable paren is replaced by its expression and
      the tree shrinks. */
  lemma ParenEffect(root: Node, t: Node)
    requires SimplifyParenSingleExpression(root) == Done(true, t)
    ensures var vs := Walk(root); var k := FirstAct(vs, ParenVerdict);
      k < |vs| && vs[k].node.tag == "ParenExpressionAst" && ParenVerdict(vs[k].node).action.Replace?
      && t == ReplaceAt(root, vs[k].path, ParenVerdict(vs[k].node).action.repl)
    ensures Size(t) < Size(root)
  {
    FirstMatchChanged(root, ParenVerdict, t);
    var vs := Walk(root);
    var k := FirstAct(vs, ParenVerdict);
    assert Locates(root, vs[k]);
    ParenShrinks(vs[k].node);
    SizeReplaceAt(root, vs[k].path, ParenVerdict(vs[k].node).action.repl);
  }

  // ---------------------------------------------------------------- opt_simplify_pipeline_single_command

  /** A pipeline with a single element, directly or under
      `PipelineElements`, is replaced by that element, whatever its tag. */
  function PipelineVerdict(n: Node): Verdict
  {
    if n.tag != "PipelineAst" then Skip
    else
      var inner := Peel(n, "PipelineElements");
      if |inner.children| == 1 then Act(Replace(inner.children[0])) else Skip
  }

  /** `opt_simplify_pipeline_single_command(ast)`. */
  function SimplifyPipelineSingleCommand(root: Node): Step
  {
    FirstMatch(root, PipelineVerdict)
  }

  method OptSimplifyPipelineSingleCommand(ast: Ast) returns (out: Outcome)
    modifies ast
    ensures StepOf(out, ast.root) == SimplifyPipelineSingleCommand(old(ast.root))
  {
    out := ApplyFirst(ast, PipelineVerdict);
  }

  /** The pipeline is replaced exactly when it holds one element, and by
      that element. */
  lemma PipelineSingle(n: Node)
    requires n.tag == "PipelineAst" && |n.children| == 1 && n.children[0].tag == "PipelineElements"
    ensures PipelineVerdict(n).Act? <==> |n.children[0].children| == 1
    ensures PipelineVerdict(n).Act? ==> PipelineVerdict(n) == Act(Replace(n.children[0].children[0]))
  {
  }

  /** On success the first single-element pipeline is replaced by its
      element and the tree shrinks. */
  lemma PipelineEffect(root: Node, t: Node)
    requires SimplifyPipelineSingleCommand(root) == Done(true, t)
    ensures var vs := Walk(root); var k := FirstAct(vs, PipelineVerdict);
      k < |vs| && vs[k].node.tag == "PipelineAst"
      && t == ReplaceAt(root, vs[k].path, PipelineVerdict(vs[k].node).action.repl)
    ensures Size(t) < Size(root)
  {
    FirstMatchChanged(root, PipelineVerdict, t);
    var vs := Walk(root);
    var k := FirstAct(vs, PipelineVerdict);
    assert Locates(root, vs[k]);
    var inner := Peel(vs[k].node, "PipelineElements");
    ChildSmaller(inner, 0);
    SizeReplaceAt(root, vs[k].path, inner.children[0]);
  }

  // ---------------------------------------------------------------- opt_simplify_single_array

  /** An array literal with a single liftable element is replaced by it. */
  function SingleArrayVerdict(n: Node): Verdict
  {
    if n.tag != "ArrayLiteralAst" then Skip
    else
      var inner := Peel(n, "Elements");
      if |inner.children| == 1 && Liftable(inner.children[0].tag) then Act(Replace(inner.children[0]))
      else Skip
  }

  /** `opt_simplify_single_array(ast)`. */
  function SimplifySingleArray(root: Node): Step
  {
    FirstMatch(root, SingleArrayVerdict)
  }

  method OptSimplifySingleArray(ast: Ast) returns (out: Outcome)
    modifies ast
    ensures StepOf(out, ast.root) == SimplifySingleArray(old(ast.root))
  {
    out := ApplyFirst(ast, SingleArrayVerdict);
  }

  /** An array literal built from one value collapses to that value's string
      constant; one built from several values is left alone. */
  lemma SingleArrayOfBuilt(values: seq<PyValue>, stringType: string)
    ensures |values| == 1 ==>
      SingleArrayVerdict(ArrayLiteralOf(values, stringType)) == Act(Replace(StringItem(Str(values[0]), stringType)))
    ensures |values| != 1 ==> SingleArrayVerdict(ArrayLiteralOf(values, stringType)) == Skip
  {
  }

  /** On success the first single-element array is replaced by its element
      and the tree shrinks. */
  lemma SingleArrayEffect(root: Node, t: Node)
    requires SimplifySingleArray(root) == Done(true, t)
    ensures var vs := Walk(root); var k := FirstAct(vs, SingleArrayVerdict);
      k < |vs| && vs[k].node.tag == "ArrayLiteralAst"
      && Liftable(SingleArrayVerdict(vs[k].node).action.repl.tag)
      && t == ReplaceAt(root, vs[k].path, SingleArrayVerdict(vs[k].node).action.repl)
    ensures Size(t) < Size(root)
  {
    FirstMatchChanged(root, SingleArrayVerdict, t);
    var vs := Walk(root);
    var k := FirstAct(vs, SingleArrayVerdict);
    assert Locates(root, vs[k]);
    var inner := Peel(vs[k].node, "Elements");
    ChildSmaller(inner, 0);
    SizeReplaceAt(root, vs[k].path, inner.children[0]);
  }

  // ---------------------------------------------------------------- opt_constant_string_type

  /** A member name the rule respells: a string constant whose lower-cased
      text is a known word and that is not yet a bare word. */
  predicate MemberRespellable(barewords: map<string, string>, c: Node)
  {
    c.tag == "StringConstantExpressionAst" && c.text.Some? && Lower(c.text.value) in barewords
    && StringTypeKey in c.attrib && c.attrib[StringTypeKey] != "BareWord"
  }

  /** The loop over `node.findall("StringConstantExpressionAst")` from child
      `i` on: a string constant without text raises AttributeError on
      `.lower()`, and one whose text is a known word but that has no
      `StringConstantType` raises KeyError. */
  function MemberFrom(barewords: map<string, string>, cs: seq<Node>, i: nat): (r: Py<Option<nat>>)
    requires i <= |cs|
    ensures r.Ok? && r.value.Some? ==>
      i <= r.value.value < |cs| && MemberRespellable(barewords, cs[r.value.value])
      && forall j :: i <= j < r.value.value ==> !MemberRespellable(barewords, cs[j])
    ensures r == Ok(None) ==> forall j :: i <= j < |cs| ==> !MemberRespellable(barewords, cs[j])
    decreases |cs| - i
  {
    if i == |cs| then Ok(None)
    else
      var c := cs[i];
      if c.tag != "StringConstantExpressionAst" then MemberFrom(barewords, cs, i + 1)
      else if c.text.None? then Throw
      else if Lower(c.text.value) !in barewords then MemberFrom(barewords, cs, i + 1)
      else if StringTypeKey !in c.attrib then Throw
      else if c.attrib[StringTypeKey] != "BareWord" then Ok(Some(i))
      else MemberFrom(barewords, cs, i + 1)
  }

  /** The respelled member name: the canonical spelling, as a bare word. */
  function RespelledMember(barewords: map<string, string>, c: Node): Node
    requires c.text.Some? && Lower(c.text.value) in barewords
  {
    c.(text := Some(barewords[Lower(c.text.value)]), attrib := c.attrib[StringTypeKey := "BareWord"])
  }

  /** Member names are respelled and made bare words; of a command's
      elements only the first is looked at, and a quoted string there
      becomes a bare word with its text kept. */
  function StringTypeVerdict(barewords: map<string, string>, n: Node): Verdict
  {
    if n.tag == "InvokeMemberExpressionAst" || n.tag == "MemberExpressionAst" then
      match MemberFrom(barewords, n.children, 0)
      case Throw => Act(Fail)
      case Ok(None) => Skip
      case Ok(Some(j)) => Act(Mutate(WithChild(n, j, RespelledMember(barewords, n.children[j]))))
    else if n.tag == "CommandElements" && n.children != [] then
      var c := n.children[0];
      if c.tag != "StringConstantExpressionAst" then Skip
      else if StringTypeKey !in c.attrib then Act(Fail)
      else if c.attrib[StringTypeKey] == "BareWord" then Skip
      else Act(Mutate(WithChild(n, 0, c.(attrib := c.attrib[StringTypeKey := "BareWord"]))))
    else Skip
  }

  function StringTypeRule(barewords: map<string, string>): Node -> Verdict
  {
    n => StringTypeVerdict(barewords, n)
  }

  /** `opt_constant_string_type(ast)`. */
  function ConstantStringType(tables: Tables, root: Node): Step
  {
    FirstMatch(root, StringTypeRule(tables.barewords))
  }

  method OptConstantStringType(tables: Tables, ast: Ast) returns (out: Outcome)
    modifies ast
    ensures StepOf(out, ast.root) == ConstantStringType(tables, old(ast.root))
  {
    out := ApplyFirst(ast, StringTypeRule(tables.barewords));
  }

  /** Only the first command element is looked at: the others may be
      anything without changing what the rule does. */
  lemma CommandFirstOnly(barewords: map<string, string>, n: Node, rest: seq<Node>)
    requires n.tag == "CommandElements" && n.children != []
    ensures var m := n.(children := [n.children[0]] + rest);
      StringTypeVerdict(barewords, m).Act? == StringTypeVerdict(barewords, n).Act?
      && (StringTypeVerdict(barewords, n).Act? && StringTypeVerdict(barewords, n).action.Mutate? ==>
        StringTypeVerdict(barewords, m).action.repl.children[0] == StringTypeVerdict(barewords, n).action.repl.children[0])
  {
  }

  /** A respelled member name is a bare word with its canonical text. */
  lemma MemberEffect(barewords: map<string, string>, n: Node)
    requires n.tag == "InvokeMemberExpressionAst" || n.tag == "MemberExpressionAst"
    requires StringTypeVerdict(barewords, n).Act? && StringTypeVerdict(barewords, n).action.Mutate?
    ensures exists j: nat ::
      j < |n.children| && MemberRespellable(barewords, n.children[j])
      && (forall i :: 0 <= i < j ==> !MemberRespellable(barewords, n.children[i]))
      && var m := StringTypeVerdict(barewords, n).action.repl;
      m == WithChild(n, j, RespelledMember(barewords, n.children[j]))
      && m.children[j].attrib[StringTypeKey] == "BareWord"
      && m.children[j].text == Some(barewords[Lower(n.children[j].text.value)])
  {
    var j := MemberFrom(barewords, n.children, 0).value.value;
    assert j < |n.children|;
  }

  // ---------------------------------------------------------------- opt_bareword_case

  /** `new_value[0] == "[" and new_value[-1] == "]"`. */
  predicate IsTypeWord(s: string)
    requires s != []
  {
    s[0] == '[' && s[|s| - 1] == ']'
  }

  /** The respelled bare word: inside the brackets for a `[type]`. */
  function BarewordText(barewords: map<string, string>, s: string): (r: string)
    requires s != []
    ensures IsTypeWord(s) ==> |s| >= 2 && r == "[" + Canon(barewords, s[1..|s| - 1]) + "]"
    ensures !IsTypeWord(s) ==> r == Canon(barewords, s)
  {
    if IsTypeWord(s) then "[" + Canon(barewords, s[1..|s| - 1]) + "]" else Canon(barewords, s)
  }

  /** A bare word whose respelling differs gets it; a string constant
      without `StringConstantType` raises KeyError, and a bare word without
      text or with empty text raises on `new_value[0]`. */
  function BarewordCaseVerdict(barewords: map<string, string>, n: Node): Verdict
  {
    if n.tag != "StringConstantExpressionAst" then Skip
    else if StringTypeKey !in n.attrib then Act(Fail)
    else if n.attrib[StringTypeKey] != "BareWord" then Skip
    else if n.text.None? || n.text.value == [] then Act(Fail)
    else
      var respelled := BarewordText(barewords, n.text.value);
      if respelled == n.text.value then Skip else Act(Mutate(n.(text := Some(respelled))))
  }

  function BarewordCaseRule(barewords: map<string, string>): Node -> Verdict
  {
    n => BarewordCaseVerdict(barewords, n)
  }

  /** `opt_bareword_case(ast)`. */
  function BarewordCase(tables: Tables, root: Node): Step
  {
    FirstMatch(root, BarewordCaseRule(tables.barewords))
  }

  method OptBarewordCase(tables: Tables, ast: Ast) returns (out: Outcome)
    modifies ast
    ensures StepOf(out, ast.root) == BarewordCase(tables, old(ast.root))
  {
    out := ApplyFirst(ast, BarewordCaseRule(tables.barewords));
  }

  /** A `[type]` bare word stays bracketed, and only its text changes. */
  lemma BarewordBracketsKept(barewords: map<string, string>, n: Node)
    requires BarewordCaseVerdict(barewords, n).Act? && BarewordCaseVerdict(barewords, n).action.Mutate?
    ensures var m := BarewordCaseVerdict(barewords, n).action.repl;
      n.text.Some? && n.text.value != [] && m.text.Some? && m.text.value != n.text.value
      && m == n.(text := m.text)
      && (IsTypeWord(n.text.value) ==> m.text.value != [] && IsTypeWord(m.text.value))
  {
  }

  /** A bracketed word with one known segment takes its canonical spelling
      inside the brackets. */
  lemma BarewordTypeWord(barewords: map<string, string>, w: string)
    requires '.' !in w && '-' !in w && Lower(w) in barewords
    requires '-' !in barewords[Lower(w)] && Canonical(barewords, barewords[Lower(w)]) == barewords[Lower(w)]
    ensures BarewordText(barewords, "[" + w + "]") == "[" + barewords[Lower(w)] + "]"
  {
    var s := "[" + w + "]";
    assert s[1..|s| - 1] == w;
    CanonWord(barewords, w);
  }

  // ---------------------------------------------------------------- opt_prefixed_variable_case

  /** The name with its first `:`-separated piece lower-cased. */
  function LowerPrefix(names: seq<string>): string
    requires |names| > 1
  {
    Join(":", [Lower(names[0])] + names[1..])
  }

  /** A bare word `variable:…` or `env:…` gets its prefix lower-cased; a
      string constant without `StringConstantType` raises KeyError and a bare
      word without text AttributeError. */
  function PrefixVerdict(n: Node): Verdict
  {
    if n.tag != "StringConstantExpressionAst" then Skip
    else if StringTypeKey !in n.attrib then Act(Fail)
    else if n.attrib[StringTypeKey] != "BareWord" then Skip
    else if n.text.None? then Act(Fail)
    else
      var names := Split(n.text.value, ":");
      if |names| > 1 && (Lower(names[0]) == "variable" || Lower(names[0]) == "env") then
        var renamed := LowerPrefix(names);
        if renamed == n.text.value then Skip else Act(Mutate(n.(text := Some(renamed))))
      else Skip
  }

  /** `opt_prefixed_variable_case(ast)`. */
  function PrefixedVariableCase(root: Node): Step
  {
    FirstMatch(root, PrefixVerdict)
  }

  method OptPrefixedVariableCase(ast: Ast) returns (out: Outcome)
    modifies ast
    ensures StepOf(out, ast.root) == PrefixedVariableCase(old(ast.root))
  {
    out := ApplyFirst(ast, PrefixVerdict);
  }

  /** Only the prefix changes: the rest of the name, from the first `:` on,
      is kept character for character. */
  lemma PrefixOnly(s: string)
    requires |Split(s, ":")| > 1
    ensures var p := Split(s, ":")[0];
      |p| < |s| && s[|p|] == ':'
      && LowerPrefix(Split(s, ":")) == Lower(p) + s[|p|..]
      && |LowerPrefix(Split(s, ":"))| == |s|
  {
    var names := Split(s, ":");
    JoinSplit(s, ":");
    assert s == names[0] + ":" + Join(":", names[1..]);
    var rest := names[1..];
    assert ([Lower(names[0])] + rest)[1..] == rest;
    assert LowerPrefix(names) == Lower(names[0]) + ":" + Join(":", rest);
    assert s[|names[0]|..] == ":" + Join(":", rest);
  }

  // ---------------------------------------------------------------- opt_replace_constant_variable_by_value

  /** A value `cst_assigned` holds: a string, a list of literal values, or
      None (a string constant without text, an array that is not all
      literals). */
  datatype Const = CStr(s: string) | CList(items: seq<PyValue>) | CNone

  /** What an element does to `cst_assigned`. */
  datatype Bind = Keep | Bound(name: string, value: Const) | Unbound(name: string)

  /** An assignment `$x = <command expression>` binds the lower-cased name
      to the constant when the expression is a single string constant or
      array literal, and unbinds it when the expression does not have
      exactly one element.  An assignment without children or with a
      variable but no right-hand side raises IndexError, a variable without
      `VariablePath` KeyError, and a non-literal array element the error of
      `get_array_literal_values`. */
  function BindOf(n: Node): Py<Bind>
  {
    if n.tag != "AssignmentStatementAst" then Ok(Keep)
    else if n.children == [] then Throw
    else
      var variable := n.children[0];
      if variable.tag != "VariableExpressionAst" then Ok(Keep)
      else if |n.children| < 2 then Throw
      else if n.children[1].tag != "CommandExpressionAst" then Ok(Keep)
      else
        var subs := n.children[1].children;
        if |subs| == 1 && subs[0].tag != "StringConstantExpressionAst" && subs[0].tag != "ArrayLiteralAst" then Ok(Keep)
        else if "VariablePath" !in variable.attrib then Throw
        else
          var name := Lower(variable.attrib["VariablePath"]);
          if |subs| != 1 then Ok(Unbound(name))
          else if subs[0].tag == "StringConstantExpressionAst" then
            Ok(Bound(name, if subs[0].text.Some? then CStr(subs[0].text.value) else CNone))
          else
            match ArrayLiteralValues(Some(subs[0]))
            case Throw => Throw
            case Ok(None) => Ok(Bound(name, CNone))
            case Ok(Some(vs)) => Ok(Bound(name, CList(vs)))
  }

  function ApplyBind(cst: map<string, Const>, b: Bind): map<string, Const>
  {
    match b
    case Keep => cst
    case Bound(x, v) => cst[x := v]
    case Unbound(x) => cst - {x}
  }

  /** `cst_assigned` once the walk has passed the visits `vs`. */
  function Bindings(vs: seq<Visit>): Py<map<string, Const>>
  {
    if vs == [] then Ok(map[])
    else
      match Bindings(vs[..|vs| - 1])
      case Throw => Throw
      case Ok(cst) =>
        match BindOf(vs[|vs| - 1].node)
        case Throw => Throw
        case Ok(b) => Ok(ApplyBind(cst, b))
  }

  lemma BindingsStep(vs: seq<Visit>, i: nat)
    requires i < |vs|
    ensures Bindings(vs[..i + 1]) ==
      match Bindings(vs[..i])
      case Throw => Throw
      case Ok(cst) =>
        match BindOf(vs[i].node)
        case Throw => Throw
        case Ok(b) => Ok(ApplyBind(cst, b))
  {
    assert vs[..i + 1][..i] == vs[..i];
  }

  /** The elements whose variable operands the rule substitutes. */
  predicate Substitutes(tag: string)
  {
    tag == "UnaryExpressionAst" || tag == "BinaryExpressionAst" || tag == "Arguments" || tag == "InvokeMemberExpressionAst"
  }

  /** The element a constant becomes: a string constant, bare inside a
      member invocation and double-quoted elsewhere, or an array literal of
      single-quoted strings.  None is not substituted. */
  function ConstNode(c: Const, tag: string): Node
    requires !c.CNone?
  {
    match c
    case CStr(s) => ConstantString(s, if tag == "InvokeMemberExpressionAst" then "BareWord" else "DoubleQuoted")
    case CList(items) => ArrayLiteralOf(items, "SingleQuoted")
  }

  /** A variable operand the rule may substitute: bound to a string or a
      list, and used exactly once in the whole tree. */
  predicate Substitutable(used: map<string, nat>, cst: map<string, Const>, c: Node)
  {
    c.tag == "VariableExpressionAst" && "VariablePath" in c.attrib
    && var x := Lower(c.attrib["VariablePath"]);
    x in cst && x in used && used[x] == 1 && !cst[x].CNone?
  }

  /** The loop over the operands from the `i`-th: the index of the first
      operand substituted; a variable without `VariablePath` raises
      KeyError. */
  function SubstFrom(used: map<string, nat>, cst: map<string, Const>, cs: seq<Node>, i: nat): (r: Py<Option<nat>>)
    requires i <= |cs|
    ensures r.Ok? && r.value.Some? ==>
      i <= r.value.value < |cs| && Substitutable(used, cst, cs[r.value.value])
      && forall j :: i <= j < r.value.value ==> !Substitutable(used, cst, cs[j])
    ensures r == Ok(None) ==> forall j :: i <= j < |cs| ==> !Substitutable(used, cst, cs[j])
    decreases |cs| - i
  {
    if i == |cs| then Ok(None)
    else if cs[i].tag != "VariableExpressionAst" then SubstFrom(used, cst, cs, i + 1)
    else if "VariablePath" !in cs[i].attrib then Throw
    else if Substitutable(used, cst, cs[i]) then Ok(Some(i))
    else SubstFrom(used, cst, cs, i + 1)
  }

  /** The rule at one element, given `cst_assigned` as it stands there. */
  function SubstVerdict(used: map<string, nat>, cst: map<string, Const>, n: Node): Verdict
  {
    if !Substitutes(n.tag) then Skip
    else
      match SubstFrom(used, cst, n.children, 0)
      case Throw => Act(Fail)
      case Ok(None) => Skip
      case Ok(Some(j)) =>
        var x := Lower(n.children[j].attrib["VariablePath"]);
        Act(Mutate(WithChild(n, j, ConstNode(cst[x], n.tag))))
  }

  /** The rule at the `k`-th visit: it raises when `cst_assigned` cannot be
      brought up to and including this element. */
  function ConstAt(used: map<string, nat>, vs: seq<Visit>, k: nat): Verdict
    requires k < |vs|
  {
    match Bindings(vs[..k + 1])
    case Throw => Act(Fail)
    case Ok(cst) => SubstVerdict(used, cst, vs[k].node)
  }

  function FirstConst(used: map<string, nat>, vs: seq<Visit>, i: nat): (k: nat)
    requires i <= |vs|
    ensures i <= k <= |vs|
    ensures forall j :: i <= j < k ==> ConstAt(used, vs, j).Skip?
    ensures k < |vs| ==> ConstAt(used, vs, k).Act?
    decreases |vs| - i
  {
    if i == |vs| then i else if ConstAt(used, vs, i).Act? then i else FirstConst(used, vs, i + 1)
  }

  lemma {:induction false} FirstConstIs(used: map<string, nat>, vs: seq<Visit>, i: nat, k: nat)
    requires i <= k <= |vs|
    requires forall j :: i <= j < k ==> ConstAt(used, vs, j).Skip?
    requires k < |vs| ==> ConstAt(used, vs, k).Act?
    ensures FirstConst(used, vs, i) == k
    decreases |vs| - i
  {
    if i < k {
      FirstConstIs(used, vs, i + 1, k);
    }
  }

  /** `opt_replace_constant_variable_by_value(ast)`. */
  function ReplaceConstantVariableByValue(root: Node): Step
  {
    match UsedVars(root)
    case Throw => Raised
    case Ok(used) =>
      var vs := Walk(root);
      var k := FirstConst(used, vs, 0);
      if k == |vs| then Done(false, root) else Perform(root, vs[k].path, ConstAt(used, vs, k).action)
  }

  /** Substituting the `j`-th operand, when it is the first one the rule
      accepts, is what the rule does at the element. */
  lemma SubstHit(root: Node, p: Path, used: map<string, nat>, cst: map<string, Const>, j: nat, m: Node)
    requires ValidPath(root, p) && j < |At(root, p).children|
    requires SubstFrom(used, cst, At(root, p).children, j) == SubstFrom(used, cst, At(root, p).children, 0)
    requires Substitutes(At(root, p).tag) && Substitutable(used, cst, At(root, p).children[j])
    requires m == ConstNode(cst[Lower(At(root, p).children[j].attrib["VariablePath"])], At(root, p).tag)
    ensures ValidPath(root, p + [j])
    ensures SubstVerdict(used, cst, At(root, p)) == Act(Mutate(WithChild(At(root, p), j, m)))
    ensures Perform(root, p, SubstVerdict(used, cst, At(root, p)).action) == Done(true, ReplaceAt(root, p + [j], m))
  {
    MutateChild(root, p, j, m);
  }

  /** The loop over the operands of the element at `p`, for the bindings
      `cst_assigned` has there. */
  method SubstituteOperand(ast: Ast, used: map<string, nat>, cst: map<string, Const>, p: Path)
    returns (out: Option<Outcome>)
    requires ValidPath(ast.root, p)
    modifies ast
    ensures out.None? ==> ast.root == old(ast.root) && SubstVerdict(used, cst, At(old(ast.root), p)).Skip?
    ensures out.Some? ==>
      SubstVerdict(used, cst, At(old(ast.root), p)).Act?
      && StepOf(out.value, ast.root) == Perform(old(ast.root), p, SubstVerdict(used, cst, At(old(ast.root), p)).action)
  {
    var n := At(ast.root, p);
    if !Substitutes(n.tag) {
      return None;
    }
    var j := 0;
    while j < |n.children|
      invariant j <= |n.children| && ast.root == old(ast.root)
      invariant SubstFrom(used, cst, n.children, j) == SubstFrom(used, cst, n.children, 0)
    {
      var c := n.children[j];
      if c.tag == "VariableExpressionAst" {
        if "VariablePath" !in c.attrib {
          return Some(Raises);
        }
        var x := Lower(c.attrib["VariablePath"]);
        if x in cst && x in used && used[x] == 1 && !cst[x].CNone? {
          var m: Node;
          if cst[x].CStr? {
            m := ConstantString(cst[x].s, if n.tag == "InvokeMemberExpressionAst" then "BareWord" else "DoubleQuoted");
          } else {
            m := CreateArrayLiteralValues(cst[x].items, "SingleQuoted");
          }
          SubstHit(ast.root, p, used, cst, j, m);
          ReplaceNoUntil(ast.root, p + [j], m);
          var ok := ReplaceNode(ast, p + [j], m, None);
          return Some(Returned(true));
        }
      }
      j := j + 1;
    }
    return None;
  }

  /** One more element for `cst_assigned`, and the rule there. */
  lemma BindAdvance(used: map<string, nat>, vs: seq<Visit>, i: nat, cst: map<string, Const>, b: Bind)
    requires i < |vs| && Bindings(vs[..i]) == Ok(cst) && BindOf(vs[i].node) == Ok(b)
    ensures Bindings(vs[..i + 1]) == Ok(ApplyBind(cst, b))
    ensures ConstAt(used, vs, i) == SubstVerdict(used, ApplyBind(cst, b), vs[i].node)
  {
    BindingsStep(vs, i);
  }

  /** The rule passed over the visits before the `i`-th. */
  predicate PassedOver(used: map<string, nat>, vs: seq<Visit>, i: nat)
    requires i <= |vs|
  {
    forall j :: 0 <= j < i ==> ConstAt(used, vs, j).Skip?
  }

  lemma PassedOverStep(used: map<string, nat>, vs: seq<Visit>, i: nat)
    requires i < |vs| && PassedOver(used, vs, i) && ConstAt(used, vs, i).Skip?
    ensures PassedOver(used, vs, i + 1)
  {
  }

  /** The rule acts at visit `i` when it passed over every earlier one. */
  lemma ConstFoundAt(root: Node, used: map<string, nat>, vs: seq<Visit>, i: nat, a: Action)
    requires UsedVars(root) == Ok(used) && vs == Walk(root) && i < |vs|
    requires PassedOver(used, vs, i)
    requires ConstAt(used, vs, i) == Act(a)
    ensures Locates(root, vs[i])
    ensures ReplaceConstantVariableByValue(root) == Perform(root, vs[i].path, a)
  {
    FirstConstIs(used, vs, 0, i);
    assert Locates(root, vs[i]);
  }

  lemma ConstNowhere(root: Node, used: map<string, nat>, vs: seq<Visit>)
    requires UsedVars(root) == Ok(used) && vs == Walk(root)
    requires PassedOver(used, vs, |vs|)
    ensures ReplaceConstantVariableByValue(root) == Done(false, root)
  {
    FirstConstIs(used, vs, 0, |vs|);
  }

  /** One element of the walk: bring `cst_assigned` up to it, then try its
      operands. */
  method VisitConst(ast: Ast, used: map<string, nat>, vs: seq<Visit>, i: nat, cst: map<string, Const>)
    returns (next: map<string, Const>, out: Option<Outcome>)
    requires vs == Walk(ast.root) && i < |vs| && Bindings(vs[..i]) == Ok(cst)
    modifies ast
    ensures out.None? ==>
      ast.root == old(ast.root) && ConstAt(used, vs, i).Skip? && Bindings(vs[..i + 1]) == Ok(next)
    ensures out.Some? ==>
      ConstAt(used, vs, i).Act?
      && StepOf(out.value, ast.root) == Perform(old(ast.root), vs[i].path, ConstAt(used, vs, i).action)
  {
    var n := vs[i].node;
    var b := BindOf(n);
    if b.Throw? {
      BindingsStep(vs, i);
      assert Locates(ast.root, vs[i]);
      return cst, Some(Raises);
    }
    next := Rebind(cst, b.value);
    BindAdvance(used, vs, i, cst, b.value);
    assert Locates(ast.root, vs[i]);
    out := SubstituteOperand(ast, used, next, vs[i].path);
  }

  /** The update of `cst_assigned` for one visited element. */
  method Rebind(cst: map<string, Const>, b: Bind) returns (next: map<string, Const>)
    ensures next == ApplyBind(cst, b)
  {
    next := cst;
    match b {
      case Keep =>
      case Bound(x, v) =>
        next := next[x := v];
      case Unbound(x) =>
        if x in next {
          next := next - {x};
        }
    }
  }

  method OptReplaceConstantVariableByValue(ast: Ast) returns (out: Outcome)
    modifies ast
    ensures StepOf(out, ast.root) == ReplaceConstantVariableByValue(old(ast.root))
  {
    ghost var root := ast.root;
    var cst: map<string, Const> := map[];
    var usedVars := GetUsedVars(ast.root);
    if usedVars.Throw? {
      return Raises;
    }
    var used := usedVars.value;
    var vs := Walk(ast.root);
    var i := 0;
    assert vs[..0] == [];
    while i < |vs|
      invariant 0 <= i <= |vs| && ast.root == root == old(ast.root) && vs == Walk(root)
      invariant Bindings(vs[..i]) == Ok(cst)
      invariant PassedOver(used, vs, i)
      decreases |vs| - i
    {
      var done;
      cst, done := VisitConst(ast, used, vs, i, cst);
      if done.Some? {
        ConstFoundAt(root, used, vs, i, ConstAt(used, vs, i).action);
        return done.value;
      }
      PassedOverStep(used, vs, i);
      i := i + 1;
    }
    ConstNowhere(root, used, vs);
    out := Returned(false);
  }

  /** A binding is dropped only by an assignment of the same variable to a
      command expression with other than one element; any other element
      keeps it, and its value changes only by another binding assignment. */
  lemma UnbindOnlyByReassign(cst: map<string, Const>, n: Node, b: Bind, x: string)
    requires BindOf(n) == Ok(b) && x in cst && x !in ApplyBind(cst, b)
    ensures n.tag == "AssignmentStatementAst" && |n.children| >= 2
    ensures n.children[0].tag == "VariableExpressionAst" && "VariablePath" in n.children[0].attrib
    ensures Lower(n.children[0].attrib["VariablePath"]) == x
    ensures n.children[1].tag == "CommandExpressionAst" && |n.children[1].children| != 1
  {
  }

  /** An assignment is not an element the rule substitutes in, so the
      bindings an operand is judged against are those of the elements
      before it. */
  lemma BindingsBeforeUse(vs: seq<Visit>, k: nat)
    requires k < |vs| && Substitutes(vs[k].node.tag)
    ensures Bindings(vs[..k + 1]) == Bindings(vs[..k])
  {
    BindingsStep(vs, k);
  }

  /** On success: `get_used_vars` returned; at the first element the rule
      acts on, a variable operand used exactly once in the tree and bound by
      an earlier assignment to a string or list is replaced by that
      constant, all earlier operands of the element are left alone, and
      nothing else changes. */
  lemma ConstantEffect(root: Node, t: Node)
    requires ReplaceConstantVariableByValue(root) == Done(true, t)
    ensures UsedVars(root).Ok?
    ensures exists k: nat, j: nat ::
      k < |Walk(root)| && Substitutes(Walk(root)[k].node.tag)
      && Bindings(Walk(root)[..k]).Ok?
      && j < |Walk(root)[k].node.children|
      && var cst := Bindings(Walk(root)[..k]).value;
      var c := Walk(root)[k].node.children[j];
      Substitutable(UsedVars(root).value, cst, c)
      && UsedVars(root).value[Lower(c.attrib["VariablePath"])] == 1
      && (forall i :: 0 <= i < j ==> !Substitutable(UsedVars(root).value, cst, Walk(root)[k].node.children[i]))
      && ValidPath(root, Walk(root)[k].path + [j])
      && t == ReplaceAt(root, Walk(root)[k].path + [j], ConstNode(cst[Lower(c.attrib["VariablePath"])], Walk(root)[k].node.tag))
  {
    var used := UsedVars(root).value;
    var vs := Walk(root);
    var k := FirstConst(used, vs, 0);
    var n := vs[k].node;
    assert Bindings(vs[..k + 1]).Ok?;
    var cst := Bindings(vs[..k + 1]).value;
    assert ConstAt(used, vs, k) == SubstVerdict(used, cst, n);
    BindingsBeforeUse(vs, k);
    var j := SubstFrom(used, cst, n.children, 0).value.value;
    var c := n.children[j];
    var m := ConstNode(cst[Lower(c.attrib["VariablePath"])], n.tag);
    assert Locates(root, vs[k]);
    ChildRewritten(root, t, vs, k, j, m);
  }
}
