/** The common shape of the rewrite rules in modules/optimizations: a rule
    walks the tree in pre-order, stops at the first element its pattern
    accepts, edits the tree there and reports whether it changed something.
    A rule is modelled by a classifier that decides, from an element alone,
    whether to pass over it or what to do with it; the scan and the edit are
    shared. */
module Rules {
  import opened Python
  import opened ElementTree
  import opened Utils

  /** The result of running a rule: the truthiness of what it returned and
      the tree afterwards, or an exception escaping from it. */
  datatype Step = Done(truthy: bool, tree: Node) | Raised

  /** What a rule method reports back; the tree is the object it edited. */
  datatype Outcome = Returned(truthy: bool) | Raises

  function StepOf(out: Outcome, t: Node): Step
  {
    match out
    case Returned(b) => Done(b, t)
    case Raises => Raised
  }

  /** What a rule does at the element it stopped at:
      `replace_node(ast, node, repl)`; `delete_node(ast, node)` (or the
      equivalent removal from the parent); an in-place change of the element
      itself; `return False`; or an exception raised while looking at it. */
  datatype Action = Replace(repl: Node) | Delete | Mutate(repl: Node) | GiveUp | Fail

  datatype Verdict = Skip | Act(action: Action)

  /** The external pieces the rules call: the `BAREWORDS`,
      `SPECIAL_VARS_NAMES` and `SPECIAL_VARS_VALUES` tables, Python's
      `str.format`, and the rules `opt_alias` and `opt_invoke_expression`. */
  datatype Tables = Tables(
    barewords: map<string, string>,
    specialNames: map<string, string>,
    specialValues: map<string, Option<string>>,
    format: (string, seq<PyValue>) -> FormatResult,
    alias: Node -> Step,
    invokeExpression: Node -> Step)

  /** `fmt.format(*values)`: a string, an IndexError, or another exception. */
  datatype FormatResult = Formatted(s: string) | FormatIndexError | FormatError

  function Perform(root: Node, path: Path, a: Action): Step
    requires ValidPath(root, path)
  {
    match a
    case Replace(m) =>
      (match ReplaceResult(root, path, m, None)
       case Ok(t) => Done(true, t)
       case Throw => Raised)
    case Delete =>
      (match DeleteResult(root, path, None)
       case Ok(t) => Done(true, t)
       case Throw => Raised)
    case Mutate(m) => Done(true, ReplaceAt(root, path, m))
    case GiveUp => Done(false, root)
    case Fail => Raised
  }

  /** Index of the first visit the classifier acts on (`|vs|` when none). */
  function FirstAct(vs: seq<Visit>, cls: Node -> Verdict): (k: nat)
    ensures k <= |vs|
    ensures forall j :: 0 <= j < k ==> cls(vs[j].node).Skip?
    ensures k < |vs| ==> cls(vs[k].node).Act?
  {
    if vs == [] then 0 else if cls(vs[0].node).Act? then 0 else 1 + FirstAct(vs[1..], cls)
  }

  lemma FirstActIs(vs: seq<Visit>, cls: Node -> Verdict, i: nat)
    requires i <= |vs| && forall j :: 0 <= j < i ==> cls(vs[j].node).Skip?
    requires i < |vs| ==> cls(vs[i].node).Act?
    ensures FirstAct(vs, cls) == i
  {
  }

  /** A first-match rule: scan `root.iter()` and act at the first element
      the classifier accepts; `False` when there is none. */
  function FirstMatch(root: Node, cls: Node -> Verdict): Step
  {
    var vs := Walk(root);
    var k := FirstAct(vs, cls);
    if k == |vs| then Done(false, root) else Perform(root, vs[k].path, cls(vs[k].node).action)
  }

  /** When no element is accepted the rule returns False and leaves the tree. */
  lemma NoMatchUnchanged(root: Node, cls: Node -> Verdict)
    requires forall j :: 0 <= j < |Walk(root)| ==> cls(Walk(root)[j].node).Skip?
    ensures FirstMatch(root, cls) == Done(false, root)
  {
    FirstActIs(Walk(root), cls, |Walk(root)|);
  }

  /** Whatever a first-match rule changes, it changes at the first accepted
      element, in the way the classifier says. */
  lemma FirstMatchAt(root: Node, cls: Node -> Verdict)
    requires FirstMatch(root, cls) != Done(false, root)
    ensures var vs := Walk(root);
      var k := FirstAct(vs, cls);
      k < |vs| && (forall j :: 0 <= j < k ==> cls(vs[j].node).Skip?)
      && cls(vs[k].node).Act?
      && FirstMatch(root, cls) == Perform(root, vs[k].path, cls(vs[k].node).action)
  {
  }

  /** A replacement that succeeds is of a non-root element, by the new one. */
  lemma PerformReplaced(root: Node, path: Path, m: Node)
    requires ValidPath(root, path) && Perform(root, path, Replace(m)).Done?
    ensures path != [] && Perform(root, path, Replace(m)) == Done(true, ReplaceAt(root, path, m))
  {
    ReplaceNoUntil(root, path, m);
  }

  /** A first-match rule that reports a change either replaced the first
      accepted element, deleted it or changed it in place. */
  lemma FirstMatchChanged(root: Node, cls: Node -> Verdict, t: Node)
    requires FirstMatch(root, cls) == Done(true, t)
    ensures var vs := Walk(root);
      var k := FirstAct(vs, cls);
      k < |vs| && cls(vs[k].node).Act?
      && var a := cls(vs[k].node).action;
      (a.Replace? || a.Delete? || a.Mutate?)
      && (a.Replace? ==> vs[k].path != [] && t == ReplaceAt(root, vs[k].path, a.repl))
      && (a.Mutate? ==> t == ReplaceAt(root, vs[k].path, a.repl))
  {
    FirstMatchAt(root, cls);
    var vs := Walk(root);
    var k := FirstAct(vs, cls);
    assert Locates(root, vs[k]);
    var a := cls(vs[k].node).action;
    if a.Replace? {
      PerformReplaced(root, vs[k].path, a.repl);
    }
  }

  /** A rule that only ever deletes loses the deleted subtree. */
  lemma PerformDeleteSize(root: Node, path: Path)
    requires ValidPath(root, path)
    requires Perform(root, path, Delete).Done?
    ensures Size(Perform(root, path, Delete).tree) == Size(root) - Size(At(root, path))
  {
    DeleteEffect(root, path, None);
  }

  /** A replacement or an in-place change swaps the subtree's size for the
      new element's. */
  lemma PerformReplaceSize(root: Node, path: Path, a: Action)
    requires ValidPath(root, path) && (a.Replace? || a.Mutate?)
    requires Perform(root, path, a).Done?
    ensures Perform(root, path, a).tree == ReplaceAt(root, path, a.repl)
    ensures Size(Perform(root, path, a).tree) == Size(root) - Size(At(root, path)) + Size(a.repl)
  {
    if a.Replace? {
      ReplaceNoUntil(root, path, a.repl);
    }
    SizeReplaceAt(root, path, a.repl);
  }

  /** A successful deletion removes at least one element. */
  lemma DeleteShrinks(root: Node, path: Path)
    requires ValidPath(root, path)
    requires Perform(root, path, Delete).Done?
    ensures Size(Perform(root, path, Delete).tree) < Size(root)
  {
    PerformDeleteSize(root, path);
    var n := At(root, path);
    assert Everything(Head(n));
  }

  /** Replacing an element by one of its own children shrinks the tree. */
  lemma ReplaceByChildShrinks(root: Node, path: Path, i: nat)
    requires ValidPath(root, path) && i < |At(root, path).children|
    requires Perform(root, path, Replace(At(root, path).children[i])).Done?
    ensures Size(Perform(root, path, Replace(At(root, path).children[i])).tree) < Size(root)
  {
    PerformReplaceSize(root, path, Replace(At(root, path).children[i]));
    ChildSmaller(At(root, path), i);
  }

  /** Replacing an element that has children by a childless one shrinks
      the tree. */
  lemma ReplaceByLeafShrinks(root: Node, path: Path, m: Node)
    requires ValidPath(root, path) && At(root, path).children != [] && m.children == []
    requires Perform(root, path, Replace(m)).Done?
    ensures path != [] && Perform(root, path, Replace(m)).tree == ReplaceAt(root, path, m)
    ensures Size(Perform(root, path, Replace(m)).tree) < Size(root)
  {
    PerformReplaceSize(root, path, Replace(m));
    ChildSmaller(At(root, path), 0);
    assert Everything(Head(m)) && CountSeq(m.children, Everything) == 0;
  }

  /** Carry out one action on the tree in place. */
  method Run(ast: Ast, path: Path, a: Action) returns (out: Outcome)
    requires ValidPath(ast.root, path)
    modifies ast
    ensures StepOf(out, ast.root) == Perform(old(ast.root), path, a)
  {
    match a {
      case Replace(m) =>
        var ok := ReplaceNode(ast, path, m, None);
        out := if ok then Returned(true) else Raises;
      case Delete =>
        var ok := DeleteNode(ast, path, None);
        out := if ok then Returned(true) else Raises;
      case Mutate(m) =>
        ast.root := ReplaceAt(ast.root, path, m);
        out := Returned(true);
      case GiveUp =>
        out := Returned(false);
      case Fail =>
        out := Raises;
    }
  }

  /** The scan loop shared by the first-match rules. */
  method ApplyFirst(ast: Ast, cls: Node -> Verdict) returns (out: Outcome)
    modifies ast
    ensures StepOf(out, ast.root) == FirstMatch(old(ast.root), cls)
  {
    var vs := Walk(ast.root);
    var i := 0;
    while i < |vs|
      invariant 0 <= i <= |vs| && ast.root == old(ast.root)
      invariant forall j :: 0 <= j < i ==> cls(vs[j].node).Skip?
    {
      var verdict := cls(vs[i].node);
      if verdict.Act? {
        FirstActIs(vs, cls, i);
        out := Run(ast, vs[i].path, verdict.action);
        return;
      }
      i := i + 1;
    }
    FirstActIs(vs, cls, |vs|);
    out := Returned(false);
  }
}
