/** modules/optimizations/binary_expressions.py: fold `+`, `-replace`, `-f`
    and `-join` over constant operands. */
module BinaryExpressions {
  import opened Python
  import opened ElementTree
  import opened Utils
  import opened Rules

  /** The `Operator` test every rule here starts with: a binary expression
      without `Operator` raises KeyError. */
  function OperatorIs(n: Node, op: string): Option<bool>
  {
    if n.tag != "BinaryExpressionAst" then Some(false)
    else if "Operator" !in n.attrib then None
    else Some(n.attrib["Operator"] == op)
  }

  // ---------------------------------------------------------------- opt_binary_expression_plus

  /** One operand of `+` as the rule reads it: a string constant's text, an
      array literal's values, `None` (a string without text, an array
      without `Elements` or with a non-literal element), an exception from
      reading the array, or something else. */
  datatype PlusArg = Text(s: string) | Items(vs: seq<PyValue>) | Absent | ArgRaises | NotOperand

  function PlusArgOf(c: Node): PlusArg
  {
    if c.tag == "StringConstantExpressionAst" then
      if c.text.Some? then Text(c.text.value) else Absent
    else if c.tag == "ArrayLiteralAst" then
      match ArrayLiteralValues(Some(c))
      case Throw => ArgRaises
      case Ok(None) => Absent
      case Ok(Some(vs)) => Items(vs)
    else NotOperand
  }

  predicate Foldable(a: PlusArg)
  {
    a.Text? || a.Items?
  }

  function ItemsOf(a: PlusArg): seq<PyValue>
    requires Foldable(a)
  {
    if a.Text? then [PStr(a.s)] else a.vs
  }

  /** The folded `left + right`: one double-quoted string for two strings,
      otherwise an array literal of the items of both sides. */
  function PlusFolded(l: PlusArg, r: PlusArg): Node
    requires Foldable(l) && Foldable(r)
  {
    if l.Text? && r.Text? then
      Node("StringConstantExpressionAst", map["StringConstantType" := "DoubleQuoted"], Some(l.s + r.s), [])
    else ArrayLiteralOf(ItemsOf(l) + ItemsOf(r), "SingleQuoted")
  }

  /** The left operand is read (and may raise) before the right one is
      looked at; a missing operand raises IndexError. */
  function PlusVerdict(n: Node): Verdict
  {
    match OperatorIs(n, "Plus")
    case None => Act(Fail)
    case Some(false) => Skip
    case Some(true) =>
      if n.children == [] then Act(Fail)
      else
        var l := PlusArgOf(n.children[0]);
        if l.NotOperand? then Skip
        else if l.ArgRaises? then Act(Fail)
        else if |n.children| < 2 then Act(Fail)
        else
          var r := PlusArgOf(n.children[1]);
          if r.NotOperand? then Skip
          else if r.ArgRaises? then Act(Fail)
          else if l.Absent? || r.Absent? then Skip
          else Act(Replace(PlusFolded(l, r)))
  }

  /** `opt_binary_expression_plus(ast)`. */
  function BinaryExpressionPlus(root: Node): Step
  {
    FirstMatch(root, PlusVerdict)
  }

  method OptBinaryExpressionPlus(ast: Ast) returns (out: Outcome)
    modifies ast
    ensures StepOf(out, ast.root) == BinaryExpressionPlus(old(ast.root))
  {
    out := ApplyFirst(ast, PlusVerdict);
  }

  /** Two strings fold into one double-quoted string holding both texts in
      order; a string and an array, or two arrays, fold into an array
      literal whose values read back as the `str` of the left items followed
      by the right items. */
  lemma PlusFoldedMeaning(l: PlusArg, r: PlusArg)
    requires Foldable(l) && Foldable(r)
    ensures l.Text? && r.Text? ==>
      PlusFolded(l, r).tag == "StringConstantExpressionAst" && PlusFolded(l, r).text == Some(l.s + r.s)
      && PlusFolded(l, r).attrib == map["StringConstantType" := "DoubleQuoted"]
    ensures !(l.Text? && r.Text?) ==>
      ArrayLiteralValues(Some(PlusFolded(l, r))) == Ok(Some(Strs(ItemsOf(l)) + Strs(ItemsOf(r))))
    ensures l.Text? && r.Items? ==> Strs(ItemsOf(l)) + Strs(ItemsOf(r)) == [PStr(l.s)] + Strs(r.vs)
    ensures l.Items? && r.Text? ==> Strs(ItemsOf(l)) + Strs(ItemsOf(r)) == Strs(l.vs) + [PStr(r.s)]
  {
    if !(l.Text? && r.Text?) {
      ArrayLiteralRoundTrip(ItemsOf(l) + ItemsOf(r), "SingleQuoted");
      assert Strs(ItemsOf(l) + ItemsOf(r)) == Strs(ItemsOf(l)) + Strs(ItemsOf(r));
    }
  }

  /** `+` is left alone when an operand is neither a string constant nor an
      array literal. */
  lemma PlusLeavesOtherOperands(n: Node)
    requires n.tag == "BinaryExpressionAst" && "Operator" in n.attrib && n.attrib["Operator"] == "Plus"
    requires |n.children| >= 2
    requires PlusArgOf(n.children[0]).NotOperand? || (!PlusArgOf(n.children[0]).ArgRaises? && PlusArgOf(n.children[1]).NotOperand?)
    ensures PlusVerdict(n) == Skip
  {
  }

  /** On success the first `+` the rule accepts is replaced, in its parent,
      by the fold of its two operands. */
  lemma PlusEffect(root: Node, t: Node)
    requires BinaryExpressionPlus(root) == Done(true, t)
    ensures var vs := Walk(root); var k := FirstAct(vs, PlusVerdict);
      k < |vs| && |vs[k].node.children| >= 2
      && Foldable(PlusArgOf(vs[k].node.children[0])) && Foldable(PlusArgOf(vs[k].node.children[1]))
      && vs[k].path != []
      && t == ReplaceAt(root, vs[k].path, PlusFolded(PlusArgOf(vs[k].node.children[0]), PlusArgOf(vs[k].node.children[1])))
  {
    FirstMatchAt(root, PlusVerdict);
    var vs := Walk(root);
    var k := FirstAct(vs, PlusVerdict);
    assert Locates(root, vs[k]);
    var n := vs[k].node;
    var m := PlusFolded(PlusArgOf(n.children[0]), PlusArgOf(n.children[1]));
    assert PlusVerdict(n) == Act(Replace(m));
    if vs[k].path != [] {
      ReplaceNoUntil(root, vs[k].path, m);
    }
  }

  // ---------------------------------------------------------------- opt_binary_expression_replace

  /** The text of the first string-constant child (None when there is no
      such child or it has no text). */
  function FirstStringText(n: Node): Option<string>
  {
    match Find(n, "StringConstantExpressionAst")
    case None => None
    case Some(c) => c.text
  }

  /** `-replace`: give up (return False for the whole rule) without exactly
      two literal values; raise when there is no target text or a value is
      not a string; otherwise the single-quoted replaced text. */
  function ReplaceVerdict(n: Node): Verdict
  {
    match OperatorIs(n, "Ireplace")
    case None => Act(Fail)
    case Some(false) => Skip
    case Some(true) =>
      match ArrayLiteralValues(Find(n, "ArrayLiteralAst"))
      case Throw => Act(Fail)
      case Ok(None) => Act(GiveUp)
      case Ok(Some(args)) =>
        if |args| != 2 then Act(GiveUp)
        else if FirstStringText(n).None? || !args[0].PStr? || !args[1].PStr? then Act(Fail)
        else Act(Replace(ConstantString(Python.Replace(FirstStringText(n).value, args[0].s, args[1].s), "SingleQuoted")))
  }

  /** `opt_binary_expression_replace(ast)`. */
  function BinaryExpressionReplace(root: Node): Step
  {
    FirstMatch(root, ReplaceVerdict)
  }

  method OptBinaryExpressionReplace(ast: Ast) returns (out: Outcome)
    modifies ast
    ensures StepOf(out, ast.root) == BinaryExpressionReplace(old(ast.root))
  {
    out := ApplyFirst(ast, ReplaceVerdict);
  }

  /** The first `-replace` without exactly two literal values ends the whole
      rule with False and no change, whatever comes after it. */
  lemma ReplaceGivesUp(root: Node, k: nat)
    requires k < |Walk(root)|
    requires forall j :: 0 <= j < k ==> ReplaceVerdict(Walk(root)[j].node).Skip?
    requires var n := Walk(root)[k].node;
      OperatorIs(n, "Ireplace") == Some(true)
      && var a := ArrayLiteralValues(Find(n, "ArrayLiteralAst"));
      a.Ok? && (a.value.None? || |a.value.value| != 2)
    ensures BinaryExpressionReplace(root) == Done(false, root)
  {
    FirstActIs(Walk(root), ReplaceVerdict, k);
  }

  /** On success the first `-replace` is replaced by a single-quoted string:
      its target text with every occurrence of the first value replaced by
      the second. */
  lemma ReplaceEffect(root: Node, t: Node)
    requires BinaryExpressionReplace(root) == Done(true, t)
    ensures var vs := Walk(root); var k := FirstAct(vs, ReplaceVerdict);
      k < |vs| && vs[k].path != []
      && var n := vs[k].node;
      var args := ArrayLiteralValues(Find(n, "ArrayLiteralAst"));
      args.Ok? && args.value.Some? && |args.value.value| == 2
      && args.value.value[0].PStr? && args.value.value[1].PStr? && FirstStringText(n).Some?
      && t == ReplaceAt(root, vs[k].path, ConstantString(Python.Replace(FirstStringText(n).value, args.value.value[0].s, args.value.value[1].s), "SingleQuoted"))
    ensures Size(t) < Size(root)
  {
    FirstMatchAt(root, ReplaceVerdict);
    var vs := Walk(root);
    var k := FirstAct(vs, ReplaceVerdict);
    assert Locates(root, vs[k]);
    var n := vs[k].node;
    var m := ReplaceVerdict(n).action.repl;
    ReplaceByLeafShrinks(root, vs[k].path, m);
  }

  // ---------------------------------------------------------------- opt_binary_expression_format

  /** `-f`: skip without literal values or when formatting raises
      IndexError; raise when there is no format text (`None.format`) or
      formatting raises anything else. */
  function FormatVerdict(format: (string, seq<PyValue>) -> FormatResult, n: Node): Verdict
  {
    match OperatorIs(n, "Format")
    case None => Act(Fail)
    case Some(false) => Skip
    case Some(true) =>
      match ArrayLiteralValues(Find(n, "ArrayLiteralAst"))
      case Throw => Act(Fail)
      case Ok(None) => Skip
      case Ok(Some(args)) =>
        if FirstStringText(n).None? then Act(Fail)
        else
          match format(FirstStringText(n).value, args)
          case FormatIndexError => Skip
          case FormatError => Act(Fail)
          case Formatted(s) => Act(Replace(ConstantString(s, "SingleQuoted")))
  }

  function FormatRule(format: (string, seq<PyValue>) -> FormatResult): Node -> Verdict
  {
    n => FormatVerdict(format, n)
  }

  /** `opt_binary_expression_format(ast)`, with Python's `str.format` given. */
  function BinaryExpressionFormat(tables: Tables, root: Node): Step
  {
    FirstMatch(root, FormatRule(tables.format))
  }

  method OptBinaryExpressionFormat(tables: Tables, ast: Ast) returns (out: Outcome)
    modifies ast
    ensures StepOf(out, ast.root) == BinaryExpressionFormat(tables, old(ast.root))
  {
    out := ApplyFirst(ast, FormatRule(tables.format));
  }

  /** A `-f` whose formatting raises IndexError, or without literal values,
      is passed over and the scan goes on. */
  lemma FormatSkips(format: (string, seq<PyValue>) -> FormatResult, n: Node)
    requires OperatorIs(n, "Format") == Some(true)
    requires var a := ArrayLiteralValues(Find(n, "ArrayLiteralAst"));
      a == Ok(None) || (a.Ok? && FirstStringText(n).Some? && format(FirstStringText(n).value, a.value.value) == FormatIndexError)
    ensures FormatVerdict(format, n) == Skip
  {
  }

  /** On success the first accepted `-f` becomes the single-quoted text that
      formatting produced, and the tree shrinks. */
  lemma FormatEffect(tables: Tables, root: Node, t: Node)
    requires BinaryExpressionFormat(tables, root) == Done(true, t)
    ensures var vs := Walk(root); var k := FirstAct(vs, FormatRule(tables.format));
      k < |vs| && vs[k].path != []
      && var n := vs[k].node;
      var args := ArrayLiteralValues(Find(n, "ArrayLiteralAst"));
      args.Ok? && args.value.Some? && FirstStringText(n).Some?
      && tables.format(FirstStringText(n).value, args.value.value).Formatted?
      && t == ReplaceAt(root, vs[k].path, ConstantString(tables.format(FirstStringText(n).value, args.value.value).s, "SingleQuoted"))
    ensures Size(t) < Size(root)
  {
    var cls := FormatRule(tables.format);
    FirstMatchAt(root, cls);
    var vs := Walk(root);
    var k := FirstAct(vs, cls);
    assert Locates(root, vs[k]);
    var n := vs[k].node;
    assert cls(n) == FormatVerdict(tables.format, n);
    var m := FormatVerdict(tables.format, n).action.repl;
    ReplaceByLeafShrinks(root, vs[k].path, m);
  }

  // ---------------------------------------------------------------- opt_binary_expression_join

  /** The values as strings, when they all are (`str.join` raises TypeError
      otherwise). */
  function AllStrings(vs: seq<PyValue>): (r: Option<seq<string>>)
    ensures r.Some? <==> forall k :: 0 <= k < |vs| ==> vs[k].PStr?
    ensures r.Some? ==> |r.value| == |vs| && forall k :: 0 <= k < |vs| ==> vs[k] == PStr(r.value[k])
  {
    if vs == [] then Some([])
    else if !vs[0].PStr? then None
    else
      match AllStrings(vs[1..])
      case None => None
      case Some(rest) => Some([vs[0].s] + rest)
  }

  /** `-join`: the joiner is the first string-constant child's text (empty
      when it has none; without such a child the rule logs `subnodes[0]`,
      which raises IndexError on a childless node, and skips); the values
      are the first array literal's; a non-string value makes `join` raise,
      which is caught and skipped. */
  function JoinVerdict(n: Node): Verdict
  {
    match OperatorIs(n, "Join")
    case None => Act(Fail)
    case Some(false) => Skip
    case Some(true) =>
      match Find(n, "StringConstantExpressionAst")
      case None => if n.children == [] then Act(Fail) else Skip
      case Some(j) =>
        var joiner := if j.text.Some? then j.text.value else "";
        match Find(n, "ArrayLiteralAst")
        case None => Skip
        case Some(a) =>
          match ArrayLiteralValues(Some(a))
          case Throw => Act(Fail)
          case Ok(None) => Skip
          case Ok(Some(vs)) =>
            match AllStrings(vs)
            case None => Skip
            case Some(parts) => Act(Replace(ConstantString(Join(joiner, parts), "SingleQuoted")))
  }

  /** `opt_binary_expression_join(ast)`. */
  function BinaryExpressionJoin(root: Node): Step
  {
    FirstMatch(root, JoinVerdict)
  }

  method OptBinaryExpressionJoin(ast: Ast) returns (out: Outcome)
    modifies ast
    ensures StepOf(out, ast.root) == BinaryExpressionJoin(old(ast.root))
  {
    out := ApplyFirst(ast, JoinVerdict);
  }

  /** A `-join` with no string-constant child, with no literal array, or
      with a non-string value is passed over. */
  lemma JoinSkips(n: Node)
    requires OperatorIs(n, "Join") == Some(true) && n.children != []
    requires Find(n, "StringConstantExpressionAst").None?
      || Find(n, "ArrayLiteralAst").None?
      || ArrayLiteralValues(Find(n, "ArrayLiteralAst")) == Ok(None)
      || (ArrayLiteralValues(Find(n, "ArrayLiteralAst")).Ok?
          && ArrayLiteralValues(Find(n, "ArrayLiteralAst")).value.Some?
          && exists k :: 0 <= k < |ArrayLiteralValues(Find(n, "ArrayLiteralAst")).value.value|
               && !ArrayLiteralValues(Find(n, "ArrayLiteralAst")).value.value[k].PStr?)
    ensures JoinVerdict(n) == Skip
  {
  }

  /** On success the first accepted `-join` becomes the single-quoted text of
      the values separated by the joiner, and the tree shrinks. */
  lemma JoinEffect(root: Node, t: Node)
    requires BinaryExpressionJoin(root) == Done(true, t)
    ensures var vs := Walk(root); var k := FirstAct(vs, JoinVerdict);
      k < |vs| && vs[k].path != []
      && var n := vs[k].node;
      Find(n, "StringConstantExpressionAst").Some? && Find(n, "ArrayLiteralAst").Some?
      && var j := Find(n, "StringConstantExpressionAst").value;
      var args := ArrayLiteralValues(Find(n, "ArrayLiteralAst"));
      args.Ok? && args.value.Some? && AllStrings(args.value.value).Some?
      && t == ReplaceAt(root, vs[k].path,
                        ConstantString(Join(if j.text.Some? then j.text.value else "", AllStrings(args.value.value).value), "SingleQuoted"))
    ensures Size(t) < Size(root)
  {
    FirstMatchAt(root, JoinVerdict);
    var vs := Walk(root);
    var k := FirstAct(vs, JoinVerdict);
    assert Locates(root, vs[k]);
    var n := vs[k].node;
    var m := JoinVerdict(n).action.repl;
    ReplaceByLeafShrinks(root, vs[k].path, m);
  }
}
