/** modules/optimizations/dead_codes.py: drop the assignment of a variable
    that is never used, and drop the use of a variable that was never
    assigned. */
module DeadCodes {
  import opened Python
  import opened ElementTree
  import opened Utils
  import opened Rules

  // ---------------------------------------------------------------- opt_unused_variable

  /** What `opt_unused_variable` does at one element, given the counts of
      `get_used_vars`: an assignment with no left-hand side raises
      IndexError, a variable without `VariablePath` raises KeyError, and an
      assignment to an unused, unprefixed variable is removed. */
  function UnusedVerdict(used: map<string, nat>, n: Node): Verdict
  {
    if n.tag != "AssignmentStatementAst" then Skip
    else if n.children == [] then Act(Fail)
    else if n.children[0].tag != "VariableExpressionAst" then Skip
    else if "VariablePath" !in n.children[0].attrib then Act(Fail)
    else
      var name := n.children[0].attrib["VariablePath"];
      if Lower(name) !in used && !IsPrefixedVar(name) then Act(Delete) else Skip
  }

  function UnusedAssignment(used: map<string, nat>): Node -> Verdict
  {
    n => UnusedVerdict(used, n)
  }

  /** The assignment `n` is one the rule removes. */
  predicate UnusedTarget(used: map<string, nat>, n: Node)
  {
    n.tag == "AssignmentStatementAst" && n.children != []
    && n.children[0].tag == "VariableExpressionAst"
    && "VariablePath" in n.children[0].attrib
    && Lower(n.children[0].attrib["VariablePath"]) !in used
    && !IsPrefixedVar(n.children[0].attrib["VariablePath"])
  }

  /** `opt_unused_variable(ast)`. */
  function UnusedVariable(root: Node): Step
  {
    match UsedVars(root)
    case Throw => Raised
    case Ok(used) => FirstMatch(root, UnusedAssignment(used))
  }

  method OptUnusedVariable(ast: Ast) returns (out: Outcome)
    modifies ast
    ensures StepOf(out, ast.root) == UnusedVariable(old(ast.root))
  {
    var used := GetUsedVars(ast.root);
    if used.Throw? {
      return Raises;
    }
    out := ApplyFirst(ast, UnusedAssignment(used.value));
  }

  /** The rule only ever removes an unused assignment: never one whose
      left-hand side is not a variable, nor one to an `env:` variable. */
  lemma UnusedVerdictDeletes(used: map<string, nat>, n: Node)
    ensures UnusedVerdict(used, n) == Act(Delete) <==> UnusedTarget(used, n)
    ensures n.tag == "AssignmentStatementAst" && n.children != [] && n.children[0].tag != "VariableExpressionAst"
      ==> UnusedVerdict(used, n) == Skip
    ensures n.children != [] && "VariablePath" in n.children[0].attrib && IsPrefixedVar(n.children[0].attrib["VariablePath"])
      ==> UnusedVerdict(used, n).Skip? || UnusedVerdict(used, n) == Act(Fail)
  {
  }

  /** `vs[k]` is the first element on which the rule acts, and it is an
      unused assignment. */
  predicate FirstUnused(used: map<string, nat>, vs: seq<Visit>, k: nat)
  {
    k < |vs| && UnusedTarget(used, vs[k].node)
    && forall j :: 0 <= j < k ==> UnusedVerdict(used, vs[j].node).Skip?
  }

  /** On success: `get_used_vars` returned, the first element in pre-order
      the rule acts on is an unused assignment, it is the one removed from
      its parent, and the tree shrinks. */
  lemma UnusedVariableEffect(root: Node, t: Node)
    requires UnusedVariable(root) == Done(true, t)
    ensures UsedVars(root).Ok?
    ensures exists k: nat ::
      FirstUnused(UsedVars(root).value, Walk(root), k)
      && Ok(t) == DeleteResult(root, Walk(root)[k].path, None)
    ensures Size(t) < Size(root)
  {
    var used := UsedVars(root).value;
    var vs := Walk(root);
    var cls := UnusedAssignment(used);
    FirstMatchAt(root, cls);
    var k := FirstAct(vs, cls);
    assert cls(vs[k].node) == UnusedVerdict(used, vs[k].node);
    UnusedVerdictDeletes(used, vs[k].node);
    assert forall j :: 0 <= j < k ==> UnusedVerdict(used, vs[j].node).Skip? by {
      forall j | 0 <= j < k
        ensures UnusedVerdict(used, vs[j].node).Skip?
      {
        assert cls(vs[j].node).Skip?;
      }
    }
    assert FirstUnused(used, vs, k);
    DeleteShrinks(root, vs[k].path);
  }

  /** With no unused assignment (and no element that makes the rule raise),
      the rule returns False and changes nothing. */
  lemma UnusedVariableAbsent(root: Node, used: map<string, nat>)
    requires UsedVars(root) == Ok(used)
    requires forall j :: 0 <= j < |Walk(root)| ==> UnusedVerdict(used, Walk(root)[j].node).Skip?
    ensures UnusedVariable(root) == Done(false, root)
  {
    var cls := UnusedAssignment(used);
    forall j | 0 <= j < |Walk(root)|
      ensures cls(Walk(root)[j].node).Skip?
    {
      assert cls(Walk(root)[j].node) == UnusedVerdict(used, Walk(root)[j].node);
    }
    NoMatchUnchanged(root, cls);
  }

  // ---------------------------------------------------------------- opt_remove_uninitialised_variable_usage

  /** The name an element adds to `assigned`: the lower-cased variable of an
      assignment; IndexError for an assignment without children, KeyError
      for a variable without `VariablePath`. */
  function AssignedName(n: Node): Py<Option<string>>
  {
    if n.tag != "AssignmentStatementAst" then Ok(None)
    else if n.children == [] then Throw
    else if n.children[0].tag != "VariableExpressionAst" then Ok(None)
    else if "VariablePath" !in n.children[0].attrib then Throw
    else Ok(Some(Lower(n.children[0].attrib["VariablePath"])))
  }

  /** The set `assigned` after the walk has passed the visits `vs`. */
  function Assigned(vs: seq<Visit>): Py<set<string>>
  {
    if vs == [] then Ok({})
    else
      match Assigned(vs[..|vs| - 1])
      case Throw => Throw
      case Ok(a) =>
        match AssignedName(vs[|vs| - 1].node)
        case Throw => Throw
        case Ok(None) => Ok(a)
        case Ok(Some(x)) => Ok(a + {x})
  }

  /** What the rule does with the variable operand `variable` of a binary
      expression whose other operand is `other`. */
  function DropUse(names: set<string>, variable: Node, other: Node): Verdict
  {
    if "VariablePath" !in variable.attrib then Act(Fail)
    else
      var name := variable.attrib["VariablePath"];
      if Lower(name) !in names && !IsPrefixedVar(name) then Act(Replace(other)) else Skip
  }

  /** A binary expression with fewer than two operands raises IndexError;
      the left operand is tried first, and the right one only when the left
      is not a variable. */
  function UninitUse(names: set<string>, n: Node): Verdict
  {
    if n.tag != "BinaryExpressionAst" then Skip
    else if |n.children| < 2 then Act(Fail)
    else if n.children[0].tag == "VariableExpressionAst" then DropUse(names, n.children[0], n.children[1])
    else if n.children[1].tag == "VariableExpressionAst" then DropUse(names, n.children[1], n.children[0])
    else Skip
  }

  /** The rule at the `k`-th visit: it raises when `assigned` cannot be
      brought up to and including this element, otherwise it judges the
      element against the names assigned so far. */
  function UninitAt(vs: seq<Visit>, k: nat): Verdict
    requires k < |vs|
  {
    match Assigned(vs[..k + 1])
    case Throw => Act(Fail)
    case Ok(a) => UninitUse(a, vs[k].node)
  }

  /** The first visit from `i` on at which the rule acts (`|vs|` if none). */
  function FirstUninit(vs: seq<Visit>, i: nat): (k: nat)
    requires i <= |vs|
    ensures i <= k <= |vs|
    ensures forall j :: i <= j < k ==> UninitAt(vs, j).Skip?
    ensures k < |vs| ==> UninitAt(vs, k).Act?
    decreases |vs| - i
  {
    if i == |vs| then i else if UninitAt(vs, i).Act? then i else FirstUninit(vs, i + 1)
  }

  lemma {:induction false} FirstUninitIs(vs: seq<Visit>, i: nat, k: nat)
    requires i <= k <= |vs|
    requires forall j :: i <= j < k ==> UninitAt(vs, j).Skip?
    requires k < |vs| ==> UninitAt(vs, k).Act?
    ensures FirstUninit(vs, i) == k
    decreases |vs| - i
  {
    if i < k {
      FirstUninitIs(vs, i + 1, k);
    }
  }

  /** `opt_remove_uninitialised_variable_usage(ast)`. */
  function RemoveUninitialisedVariableUsage(root: Node): Step
  {
    var vs := Walk(root);
    var k := FirstUninit(vs, 0);
    if k == |vs| then Done(false, root) else Perform(root, vs[k].path, UninitAt(vs, k).action)
  }

  /** One more element of the walk for `assigned`. */
  lemma AssignedStep(vs: seq<Visit>, i: nat)
    requires i < |vs|
    ensures Assigned(vs[..i + 1]) ==
      match Assigned(vs[..i])
      case Throw => Throw
      case Ok(a) =>
        match AssignedName(vs[i].node)
        case Throw => Throw
        case Ok(None) => Ok(a)
        case Ok(Some(x)) => Ok(a + {x})
  {
    assert vs[..i + 1][..i] == vs[..i];
  }

  /** The rule passed over the elements before the `i`-th and that one. */
  lemma SkippedThrough(vs: seq<Visit>, i: nat)
    requires i < |vs| && UninitAt(vs, i).Skip?
    requires forall j :: 0 <= j < i ==> UninitAt(vs, j).Skip?
    ensures forall j :: 0 <= j < i + 1 ==> UninitAt(vs, j).Skip?
  {
    forall j | 0 <= j < i + 1
      ensures UninitAt(vs, j).Skip?
    {
      if j < i {
        assert UninitAt(vs, j).Skip?;
      }
    }
  }

  /** The same step once `assigned` is known up to the `i`-th element. */
  lemma AssignedNext(vs: seq<Visit>, i: nat, names: set<string>, name: Py<Option<string>>)
    requires i < |vs| && Assigned(vs[..i]) == Ok(names) && AssignedName(vs[i].node) == name
    ensures name.Throw? ==> Assigned(vs[..i + 1]) == Throw
    ensures name.Ok? ==> Assigned(vs[..i + 1]) == Ok(if name.value.Some? then names + {name.value.value} else names)
  {
    AssignedStep(vs, i);
  }

  method OptRemoveUninitialisedVariableUsage(ast: Ast) returns (out: Outcome)
    modifies ast
    ensures StepOf(out, ast.root) == RemoveUninitialisedVariableUsage(old(ast.root))
  {
    var vs := Walk(ast.root);
    var names: set<string> := {};
    var i := 0;
    assert vs[..0] == [];
    while i < |vs|
      invariant 0 <= i <= |vs| && ast.root == old(ast.root) && vs == Walk(ast.root)
      invariant Assigned(vs[..i]) == Ok(names)
      invariant forall j :: 0 <= j < i ==> UninitAt(vs, j).Skip?
    {
      var done;
      var before := i;
      names, done, i := UninitVisit(ast, vs, i, names);
      if done.Some? {
        return done.value;
      }
      SkippedThrough(vs, before);
    }
    FirstUninitIs(vs, 0, |vs|);
    out := Returned(false);
  }

  /** One turn of the walk of `opt_remove_uninitialised_variable_usage`:
      the name the `i`-th element assigns joins `names`, and the rule acts
      there or passes on. */
  method UninitVisit(ast: Ast, vs: seq<Visit>, i: nat, names: set<string>)
    returns (next: set<string>, out: Option<Outcome>, after: nat)
    requires vs == Walk(ast.root) && i < |vs| && Assigned(vs[..i]) == Ok(names)
    requires forall j :: 0 <= j < i ==> UninitAt(vs, j).Skip?
    modifies ast
    ensures after == i + 1
    ensures out.None? ==>
      ast.root == old(ast.root) && Assigned(vs[..after]) == Ok(next) && UninitAt(vs, i).Skip?
    ensures out.Some? ==> StepOf(out.value, ast.root) == RemoveUninitialisedVariableUsage(old(ast.root))
  {
    var n := vs[i].node;
    var name := AssignedName(n);
    AssignedNext(vs, i, names, name);
    if name.Throw? {
      FirstUninitIs(vs, 0, i);
      return names, Some(Raises), i + 1;
    }
    next := names;
    if name.value.Some? {
      next := next + {name.value.value};
    }
    var verdict := UninitUse(next, n);
    if verdict.Act? {
      FirstUninitIs(vs, 0, i);
      var o := Run(ast, vs[i].path, verdict.action);
      return next, Some(o), i + 1;
    }
    out, after := None, i + 1;
  }

  /** An assignment is not a binary expression, so the name set a binary
      expression is judged against is the one of the elements before it. */
  lemma AssignedBeforeUse(vs: seq<Visit>, k: nat)
    requires k < |vs| && vs[k].node.tag == "BinaryExpressionAst"
    ensures Assigned(vs[..k + 1]) == Assigned(vs[..k])
  {
    AssignedStep(vs, k);
  }

  /** Only elements before (and at) the `k`-th decide its verdict: an
      assignment later in the walk does not protect an earlier use. */
  lemma UninitAtPrefix(vs: seq<Visit>, k: nat, later: seq<Visit>)
    requires k < |vs|
    ensures UninitAt(vs[..k + 1] + later, k) == UninitAt(vs, k)
  {
    assert (vs[..k + 1] + later)[..k + 1] == vs[..k + 1];
  }

  /** When the left operand is a variable it alone decides, the right
      operand is not looked at, and only the right operand can replace the
      expression. */
  lemma UninitLeftFirst(names: set<string>, n: Node, right: Node)
    requires n.tag == "BinaryExpressionAst" && |n.children| >= 2
    requires n.children[0].tag == "VariableExpressionAst"
    ensures UninitUse(names, n).Act? && UninitUse(names, n).action.Replace?
      ==> UninitUse(names, n).action.repl == n.children[1]
    ensures UninitUse(names, n).Act? && UninitUse(names, n).action.Replace?
      <==>
      "VariablePath" in n.children[0].attrib
      && Lower(n.children[0].attrib["VariablePath"]) !in names
      && !IsPrefixedVar(n.children[0].attrib["VariablePath"])
    ensures UninitUse(names, n).Skip? == UninitUse(names, n.(children := n.children[1 := right])).Skip?
  {
  }

  /** Whatever the rule replaces, it replaces by one of the expression's own
      operands. */
  lemma UninitReplacesByOperand(names: set<string>, n: Node)
    requires UninitUse(names, n).Act? && UninitUse(names, n).action.Replace?
    ensures n.tag == "BinaryExpressionAst" && |n.children| >= 2
    ensures UninitUse(names, n).action.repl == n.children[0] || UninitUse(names, n).action.repl == n.children[1]
    ensures n.children[0].tag == "VariableExpressionAst" ==> UninitUse(names, n).action.repl == n.children[1]
  {
  }

  /** On success: the first element the rule acts on in pre-order is a
      binary expression with an operand variable not assigned in any element
      before it; that expression is replaced by its other operand, and the
      tree shrinks. */
  lemma UninitEffect(root: Node, t: Node)
    requires RemoveUninitialisedVariableUsage(root) == Done(true, t)
    ensures exists k: nat, i: nat ::
      k < |Walk(root)| && (forall j :: 0 <= j < k ==> UninitAt(Walk(root), j).Skip?)
      && Assigned(Walk(root)[..k]).Ok?
      && i < |Walk(root)[k].node.children|
      && UninitUse(Assigned(Walk(root)[..k]).value, Walk(root)[k].node) == Act(Replace(Walk(root)[k].node.children[i]))
      && Ok(t) == ReplaceResult(root, Walk(root)[k].path, Walk(root)[k].node.children[i], None)
    ensures Size(t) < Size(root)
  {
    var k, i := UninitWitness(root, t);
    ReplaceByChildShrinks(root, Walk(root)[k].path, i);
  }

  /** The element and the operand of `UninitEffect`. */
  lemma UninitWitness(root: Node, t: Node) returns (k: nat, i: nat)
    requires RemoveUninitialisedVariableUsage(root) == Done(true, t)
    ensures k < |Walk(root)| && (forall j :: 0 <= j < k ==> UninitAt(Walk(root), j).Skip?)
    ensures Assigned(Walk(root)[..k]).Ok?
    ensures i < |Walk(root)[k].node.children| && Locates(root, Walk(root)[k])
    ensures UninitUse(Assigned(Walk(root)[..k]).value, Walk(root)[k].node) == Act(Replace(Walk(root)[k].node.children[i]))
    ensures Ok(t) == ReplaceResult(root, Walk(root)[k].path, Walk(root)[k].node.children[i], None)
  {
    var vs := Walk(root);
    k := FirstUninit(vs, 0);
    assert k < |vs|;
    var n := vs[k].node;
    assert Locates(root, vs[k]);
    var v := UninitAt(vs, k);
    assert Assigned(vs[..k + 1]).Ok?;
    var a := Assigned(vs[..k + 1]).value;
    assert v == UninitUse(a, n);
    assert v.action.Replace?;
    UninitReplacesByOperand(a, n);
    AssignedBeforeUse(vs, k);
    i := if v.action.repl == n.children[0] then 0 else 1;
    assert v.action.repl == n.children[i];
  }

  /** When the rule acts nowhere it returns False and changes nothing. */
  lemma UninitAbsent(root: Node)
    requires forall j :: 0 <= j < |Walk(root)| ==> UninitAt(Walk(root), j).Skip?
    ensures RemoveUninitialisedVariableUsage(root) == Done(false, root)
  {
    FirstUninitIs(Walk(root), 0, |Walk(root)|);
  }
}
