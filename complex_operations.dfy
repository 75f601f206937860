/** The rule of modules/optimizations/complex_operations.py: indexing a
    constant.  `"abc"[1]`, `"abc"[0, 2]` or `('a', 'b')[1]` is replaced by
    the array literal of the picked elements, each written as a
    single-quoted string. */
module ComplexOperations {
  import opened Python
  import opened ElementTree
  import opened Utils
  import opened Rules

  /** What is indexed: a string constant's text or the values of an array
      literal. */
  datatype Target = TString(s: string) | TList(items: seq<PyValue>)

  function Len(target: Target): nat
  {
    match target
    case TString(s) => |s|
    case TList(items) => |items|
  }

  /** `target[j]` for an index already made non-negative: a one-character
      string, or the list element. */
  function Element(target: Target, j: nat): PyValue
    requires j < Len(target)
  {
    match target
    case TString(s) => PStr([s[j]])
    case TList(items) => items[j]
  }

  /** An index Python accepts on `target`: an integer within range, counted
      from the end when negative. */
  predicate Admits(target: Target, index: PyValue)
  {
    index.PInt? && PyIndex(Len(target), index.i).Some?
  }

  /** `[target[index] for index in indexes]`: a non-integer index raises
      TypeError and an index out of range raises IndexError. */
  function Pick(target: Target, indexes: seq<PyValue>): (r: Py<seq<PyValue>>)
    ensures r.Ok? <==> forall k :: 0 <= k < |indexes| ==> Admits(target, indexes[k])
    ensures r.Ok? ==> |r.value| == |indexes|
    ensures r.Ok? ==> forall k :: 0 <= k < |indexes| ==>
      r.value[k] == Element(target, PyIndex(Len(target), indexes[k].i).value)
    decreases |indexes|
  {
    if indexes == [] then Ok([])
    else if !Admits(target, indexes[0]) then Throw
    else
      match Pick(target, indexes[1..])
      case Throw => Throw
      case Ok(rest) => Ok([Element(target, PyIndex(Len(target), indexes[0].i).value)] + rest)
  }

  /** `target` as the rule computes it from the first child, for the two
      tags it accepts; a string constant without text gives None, and so
      does an array literal that holds something other than literals. */
  function TargetOf(c: Node): (r: Py<Option<Target>>)
    requires c.tag == "StringConstantExpressionAst" || c.tag == "ArrayLiteralAst"
    ensures c.tag == "StringConstantExpressionAst" ==>
      r == Ok(if c.text.Some? then Some(TString(c.text.value)) else None)
    ensures c.tag == "ArrayLiteralAst" && r.Ok? && r.value.Some? ==>
      r.value.value.TList? && ArrayLiteralValues(Some(c)) == Ok(Some(r.value.value.items))
    ensures c.tag == "ArrayLiteralAst" ==> (r.Throw? <==> ArrayLiteralValues(Some(c)).Throw?)
  {
    if c.tag == "StringConstantExpressionAst" then
      Ok(if c.text.Some? then Some(TString(c.text.value)) else None)
    else
      match ArrayLiteralValues(Some(c))
      case Throw => Throw
      case Ok(vs) => Ok(if vs.Some? then Some(TList(vs.value)) else None)
  }

  /** `indexes` as the rule computes it from the second child: `[int(text)]`
      for an integer constant, which raises when the text is absent or not
      an integer, or the values of an array literal. */
  function IndexesOf(c: Node): (r: Py<Option<seq<PyValue>>>)
    requires c.tag == "ConstantExpressionAst" || c.tag == "ArrayLiteralAst"
    ensures c.tag == "ConstantExpressionAst" ==>
      (r.Ok? <==> c.text.Some? && ParseInt(c.text.value).Some?)
      && (r.Ok? ==> r.value == Some([PInt(ParseInt(c.text.value).value)]))
    ensures c.tag == "ArrayLiteralAst" ==> r == ArrayLiteralValues(Some(c))
  {
    if c.tag == "ConstantExpressionAst" then
      if c.text.None? then Throw
      else match ParseInt(c.text.value)
        case None => Throw
        case Some(v) => Ok(Some([PInt(v)]))
    else ArrayLiteralValues(Some(c))
  }

  predicate IsTargetTag(tag: string)
  {
    tag == "StringConstantExpressionAst" || tag == "ArrayLiteralAst"
  }

  predicate IsIndexTag(tag: string)
  {
    tag == "ConstantExpressionAst" || tag == "ArrayLiteralAst"
  }

  /** The classifier of `opt_value_of_const_array`, in the order the source
      evaluates things: the target is read before the second child is
      looked at, and both are read before either is tested for None. */
  function IndexVerdict(n: Node): Verdict
  {
    if n.tag != "IndexExpressionAst" then Skip
    else if |n.children| == 0 then Act(Fail)
    else if !IsTargetTag(n.children[0].tag) then Skip
    else
      match TargetOf(n.children[0])
      case Throw => Act(Fail)
      case Ok(target) =>
        if |n.children| < 2 then Act(Fail)
        else if !IsIndexTag(n.children[1].tag) then Skip
        else
          match IndexesOf(n.children[1])
          case Throw => Act(Fail)
          case Ok(indexes) =>
            if target.None? || indexes.None? || |indexes.value| == 0 then Skip
            else
              match Pick(target.value, indexes.value)
              case Throw => Act(Fail)
              case Ok(items) => Act(Replace(ArrayLiteralOf(items, "SingleQuoted")))
  }

  function ValueOfConstArray(root: Node): Step
  {
    FirstMatch(root, IndexVerdict)
  }

  method OptValueOfConstArray(ast: Ast) returns (out: Outcome)
    modifies ast
    ensures StepOf(out, ast.root) == ValueOfConstArray(old(ast.root))
  {
    out := ApplyFirst(ast, IndexVerdict);
  }

  /** The elements an accepted indexing picks, when it is accepted. */
  ghost predicate Picks(n: Node, target: Target, indexes: seq<PyValue>)
  {
    |n.children| >= 2 && IsTargetTag(n.children[0].tag) && IsIndexTag(n.children[1].tag)
    && TargetOf(n.children[0]) == Ok(Some(target))
    && IndexesOf(n.children[1]) == Ok(Some(indexes))
  }

  /** An accepted indexing has a readable target and at least one index,
      every index within range, and the replacement literal reads back as
      the picked elements, each turned into a string. */
  lemma IndexRewrite(n: Node)
    requires IndexVerdict(n).Act? && IndexVerdict(n).action.Replace?
    ensures n.tag == "IndexExpressionAst"
    ensures exists target: Target, indexes: seq<PyValue> ::
      Picks(n, target, indexes) && |indexes| > 0
      && (forall k :: 0 <= k < |indexes| ==> Admits(target, indexes[k]))
      && var items := Pick(target, indexes).value;
      IndexVerdict(n).action.repl == ArrayLiteralOf(items, "SingleQuoted")
      && ArrayLiteralValues(Some(IndexVerdict(n).action.repl)) == Ok(Some(Strs(items)))
  {
    var target := TargetOf(n.children[0]).value.value;
    var indexes := IndexesOf(n.children[1]).value.value;
    var items := Pick(target, indexes).value;
    ArrayLiteralRoundTrip(items, "SingleQuoted");
    assert Picks(n, target, indexes);
  }

  /** Indexing a string constant reads back, element by element, as the
      one-character strings at the chosen positions. */
  lemma StringIndexing(s: string, indexes: seq<PyValue>)
    requires forall k :: 0 <= k < |indexes| ==> Admits(TString(s), indexes[k])
    ensures var r := ArrayLiteralValues(Some(ArrayLiteralOf(Pick(TString(s), indexes).value, "SingleQuoted")));
      r.Ok? && r.value.Some? && |r.value.value| == |indexes|
      && forall k :: 0 <= k < |indexes| ==>
        r.value.value[k] == PStr([s[PyIndex(|s|, indexes[k].i).value]])
  {
    var items := Pick(TString(s), indexes).value;
    ArrayLiteralRoundTrip(items, "SingleQuoted");
  }

  /** An index the target does not admit makes Python raise. */
  lemma BadIndexFails(n: Node, target: Target, indexes: seq<PyValue>, k: nat)
    requires n.tag == "IndexExpressionAst" && Picks(n, target, indexes)
    requires k < |indexes| && !Admits(target, indexes[k])
    ensures IndexVerdict(n) == Act(Fail)
  {
    assert Pick(target, indexes).Throw?;
  }

  /** An empty index list, or a target or index list that reads as None,
      leaves the element alone. */
  lemma NothingToIndex(n: Node)
    requires n.tag == "IndexExpressionAst" && |n.children| >= 2
    requires IsTargetTag(n.children[0].tag) && IsIndexTag(n.children[1].tag)
    requires TargetOf(n.children[0]).Ok? && IndexesOf(n.children[1]).Ok?
    requires TargetOf(n.children[0]).value.None?
      || IndexesOf(n.children[1]).value.None? || IndexesOf(n.children[1]).value.value == []
    ensures IndexVerdict(n) == Skip
  {
  }

  /** The rule only ever replaces or raises. */
  lemma IndexActions(n: Node)
    requires IndexVerdict(n).Act?
    ensures IndexVerdict(n).action.Replace? || IndexVerdict(n).action.Fail?
  {
  }

  /** On success the first accepted indexing is replaced by its literal. */
  lemma IndexEffect(root: Node, t: Node)
    requires ValueOfConstArray(root) == Done(true, t)
    ensures var vs := Walk(root); var k := FirstAct(vs, IndexVerdict);
      k < |vs| && vs[k].path != []
      && IndexVerdict(vs[k].node).Act? && IndexVerdict(vs[k].node).action.Replace?
      && t == ReplaceAt(root, vs[k].path, IndexVerdict(vs[k].node).action.repl)
  {
    FirstMatchChanged(root, IndexVerdict, t);
    var vs := Walk(root);
    IndexActions(vs[FirstAct(vs, IndexVerdict)].node);
  }
}
