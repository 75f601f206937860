/** The driver of modules/optimize.py: `optimize_pass` tries the rules in a
    fixed order and stops at the first one that reports a change, and
    `Optimizer.optimize` repeats passes until one reports nothing. */
module Optimize {
  import opened Python
  import opened ElementTree
  import opened Rules
  import EmptyNodes
  import DeadCodes
  import Simplifications
  import UnaryExpressions
  import BinaryExpressions
  import InvokeMember
  import TypeConvertions
  import ComplexOperations

  /** The rules `optimize_pass` calls. */
  datatype Rule =
    | RemoveEmptyNodes
    | UnusedVariable
    | SimplifyParenSingleExpression
    | SimplifyPipelineSingleCommand
    | SimplifySingleArray
    | RemoveUninitialisedVariableUsage
    | UnaryExpressionJoin
    | BinaryExpressionPlus
    | BinaryExpressionFormat
    | BinaryExpressionReplace
    | BinaryExpressionJoin
    | InvokeSplitString
    | InvokeReplaceString
    | InvokeReverseArray
    | InvokeExpression
    | ConvertTypeToType
    | ConvertTypeToString
    | ConvertTypeToChar
    | ConvertTypeToArray
    | ValueOfConstArray
    | PrefixedVariableCase
    | BarewordCase
    | ConstantStringType
    | SpecialVariableCase
    | TypeConstraintFromConvert
    | CommandElementAsBareword
    | TypeConstraintCase
    | Alias
    | ReplaceConstantVariableByValue

  /** The list `optimizations` of `optimize_pass`, in its order. */
  const Catalog: seq<Rule> := [
    RemoveEmptyNodes, UnusedVariable, SimplifyParenSingleExpression,
    SimplifyPipelineSingleCommand, SimplifySingleArray, RemoveUninitialisedVariableUsage,
    UnaryExpressionJoin, BinaryExpressionPlus, BinaryExpressionFormat,
    BinaryExpressionReplace, BinaryExpressionJoin,
    InvokeSplitString, InvokeReplaceString, InvokeReverseArray, InvokeExpression,
    ConvertTypeToType, ConvertTypeToString, ConvertTypeToChar, ConvertTypeToArray,
    ValueOfConstArray,
    PrefixedVariableCase, BarewordCase, ConstantStringType, SpecialVariableCase,
    TypeConstraintFromConvert, CommandElementAsBareword, TypeConstraintCase, Alias,
    ReplaceConstantVariableByValue]

  /** `opt(ast)` for one rule of the catalog. */
  function Apply(tables: Tables, r: Rule, root: Node): Step
  {
    match r
    case RemoveEmptyNodes => EmptyNodes.RemoveEmptyNodes(root)
    case UnusedVariable => DeadCodes.UnusedVariable(root)
    case SimplifyParenSingleExpression => Simplifications.SimplifyParenSingleExpression(root)
    case SimplifyPipelineSingleCommand => Simplifications.SimplifyPipelineSingleCommand(root)
    case SimplifySingleArray => Simplifications.SimplifySingleArray(root)
    case RemoveUninitialisedVariableUsage => DeadCodes.RemoveUninitialisedVariableUsage(root)
    case UnaryExpressionJoin => UnaryExpressions.UnaryExpressionJoin(root)
    case BinaryExpressionPlus => BinaryExpressions.BinaryExpressionPlus(root)
    case BinaryExpressionFormat => BinaryExpressions.BinaryExpressionFormat(tables, root)
    case BinaryExpressionReplace => BinaryExpressions.BinaryExpressionReplace(root)
    case BinaryExpressionJoin => BinaryExpressions.BinaryExpressionJoin(root)
    case InvokeSplitString => InvokeMember.InvokeSplitString(root)
    case InvokeReplaceString => InvokeMember.InvokeReplaceString(root)
    case InvokeReverseArray => InvokeMember.InvokeReverseArray(root)
    case InvokeExpression => tables.invokeExpression(root)
    case ConvertTypeToType => TypeConvertions.ConvertTypeToType(root)
    case ConvertTypeToString => TypeConvertions.ConvertTypeToString(tables, root)
    case ConvertTypeToChar => TypeConvertions.ConvertTypeToChar(root)
    case ConvertTypeToArray => TypeConvertions.ConvertTypeToArray(root)
    case ValueOfConstArray => ComplexOperations.ValueOfConstArray(root)
    case PrefixedVariableCase => Simplifications.PrefixedVariableCase(root)
    case BarewordCase => Simplifications.BarewordCase(tables, root)
    case ConstantStringType => Simplifications.ConstantStringType(tables, root)
    case SpecialVariableCase => Simplifications.SpecialVariableCase(tables, root)
    case TypeConstraintFromConvert => Simplifications.TypeConstraintFromConvert(root)
    case CommandElementAsBareword => Simplifications.CommandElementAsBareword(tables, root)
    case TypeConstraintCase => Simplifications.TypeConstraintCase(tables, root)
    case Alias => tables.alias(root)
    case ReplaceConstantVariableByValue => Simplifications.ReplaceConstantVariableByValue(root)
  }

  /** One rule as a function on trees. */
  function RuleOf(tables: Tables, r: Rule): Node -> Step
  {
    root => Apply(tables, r, root)
  }

  /** The rules of `optimize_pass`, in its order. */
  function Optimizations(tables: Tables): (rs: seq<Node -> Step>)
    ensures |rs| == |Catalog|
    ensures forall i :: 0 <= i < |Catalog| ==> rs[i] == RuleOf(tables, Catalog[i])
  {
    seq(|Catalog|, i requires 0 <= i < |Catalog| => RuleOf(tables, Catalog[i]))
  }

  /** The loop of `optimize_pass` over `rules`: the first truthy result ends
      it with True, an exception escapes, and when every rule is falsy it
      returns False.  A falsy rule may still have edited the tree. */
  function Pass(rules: seq<Node -> Step>, root: Node): Step
    decreases |rules|
  {
    if rules == [] then Done(false, root)
    else
      match rules[0](root)
      case Raised => Raised
      case Done(true, t) => Done(true, t)
      case Done(false, t) => Pass(rules[1..], t)
  }

  /** Running two lists one after the other is running the second only when
      the first ends falsy, on the tree the first left. */
  lemma {:induction false} PassConcat(pre: seq<Node -> Step>, more: seq<Node -> Step>, root: Node)
    ensures Pass(pre + more, root) ==
      match Pass(pre, root)
      case Raised => Raised
      case Done(true, t) => Done(true, t)
      case Done(false, t) => Pass(more, t)
    decreases |pre|
  {
    if pre != [] {
      assert (pre + more)[0] == pre[0] && (pre + more)[1..] == pre[1..] + more;
      match pre[0](root)
      case Raised =>
      case Done(b, t) =>
        if !b {
          PassConcat(pre[1..], more, t);
        }
    } else {
      assert pre + more == more;
    }
  }

  /** The pass after the first `k + 1` rules, from the pass after `k`. */
  lemma PassSnoc(rules: seq<Node -> Step>, k: nat, root: Node)
    requires k < |rules|
    ensures Pass(rules[..k + 1], root) ==
      match Pass(rules[..k], root)
      case Raised => Raised
      case Done(true, t) => Done(true, t)
      case Done(false, t) => rules[k](t)
  {
    assert rules[..k + 1] == rules[..k] + [rules[k]];
    PassConcat(rules[..k], [rules[k]], root);
  }

  /** The `k`-th rule is the one the pass stopped at, with tree `t`: every
      rule before it returned a falsy value and it returned a truthy one. */
  predicate StopsAt(rules: seq<Node -> Step>, root: Node, k: nat, t: Node)
  {
    k < |rules| && Pass(rules[..k], root).Done? && !Pass(rules[..k], root).truthy
    && rules[k](Pass(rules[..k], root).tree) == Done(true, t)
  }

  /** Once a rule returns a truthy value the pass returns True with its
      tree, whatever rules follow: they are not run. */
  lemma PassStops(rules: seq<Node -> Step>, k: nat, root: Node, t: Node)
    requires StopsAt(rules, root, k, t)
    ensures Pass(rules, root) == Done(true, t)
  {
    PassSnoc(rules, k, root);
    assert rules == rules[..k + 1] + rules[k + 1..];
    PassConcat(rules[..k + 1], rules[k + 1..], root);
  }

  /** A pass that returns True does so at one rule, every rule before which
      returned a falsy value. */
  lemma {:induction false} PassTruthyAt(rules: seq<Node -> Step>, root: Node, t: Node)
    requires Pass(rules, root) == Done(true, t)
    ensures exists k :: StopsAt(rules, root, k, t)
    decreases |rules|
  {
    assert rules[..0] == [];
    match rules[0](root)
    case Done(b, u) =>
      if !b {
        PassTruthyAt(rules[1..], u, t);
        var k: nat :| StopsAt(rules[1..], u, k, t);
        assert rules[..k + 1] == [rules[0]] + rules[1..][..k];
        PassConcat([rules[0]], rules[1..][..k], root);
        assert Pass([rules[0]], root) == Done(false, u);
        assert StopsAt(rules, root, k + 1, t);
      } else {
        assert StopsAt(rules, root, 0, t);
      }
  }

  /** Every prefix of a pass that returned False also ended falsy. */
  lemma PrefixFalsy(rules: seq<Node -> Step>, k: nat, root: Node)
    requires k <= |rules| && Pass(rules, root).Done? && !Pass(rules, root).truthy
    ensures Pass(rules[..k], root).Done? && !Pass(rules[..k], root).truthy
  {
    assert rules == rules[..k] + rules[k..];
    PassConcat(rules[..k], rules[k..], root);
  }

  /** `optimize_pass` returns False exactly when every rule it ran returned
      a falsy value: first direction. */
  lemma PassFalsyEvery(rules: seq<Node -> Step>, root: Node)
    requires Pass(rules, root).Done? && !Pass(rules, root).truthy
    ensures forall k :: 0 <= k < |rules| ==>
      Pass(rules[..k], root).Done? && !Pass(rules[..k], root).truthy
      && var a := rules[k](Pass(rules[..k], root).tree);
      a.Done? && !a.truthy
  {
    forall k | 0 <= k < |rules|
      ensures Pass(rules[..k], root).Done? && !Pass(rules[..k], root).truthy
      ensures var a := rules[k](Pass(rules[..k], root).tree); a.Done? && !a.truthy
    {
      PrefixFalsy(rules, k, root);
      PrefixFalsy(rules, k + 1, root);
      PassSnoc(rules, k, root);
    }
  }

  /** The other direction: when every rule, run on what the earlier ones
      left, returns a falsy value, the pass returns False. */
  lemma {:induction false} EveryFalsyPass(rules: seq<Node -> Step>, root: Node)
    requires forall k :: 0 <= k < |rules| ==>
      var s := Pass(rules[..k], root);
      s.Done? && var a := rules[k](s.tree); a.Done? && !a.truthy
    ensures Pass(rules, root).Done? && !Pass(rules, root).truthy
  {
    var k := 0;
    assert rules[..0] == [];
    while k < |rules|
      invariant 0 <= k <= |rules|
      invariant Pass(rules[..k], root).Done? && !Pass(rules[..k], root).truthy
    {
      PassSnoc(rules, k, root);
      k := k + 1;
    }
    assert rules[..k] == rules;
  }

  /** `opt_convert_type_to_array` returns None whatever it did, so a pass
      never stops at it. */
  lemma ToArrayNeverStops(tables: Tables, root: Node)
    ensures RuleOf(tables, ConvertTypeToArray)(root).Done? ==> !RuleOf(tables, ConvertTypeToArray)(root).truthy
  {
  }

  /** Carry out one rule on the tree in place. */
  method RunRule(tables: Tables, r: Rule, ast: Ast) returns (out: Outcome)
    modifies ast
    ensures StepOf(out, ast.root) == Apply(tables, r, old(ast.root))
  {
    match r {
      case RemoveEmptyNodes => out := EmptyNodes.OptRemoveEmptyNodes(ast);
      case UnusedVariable => out := DeadCodes.OptUnusedVariable(ast);
      case SimplifyParenSingleExpression => out := Simplifications.OptSimplifyParenSingleExpression(ast);
      case SimplifyPipelineSingleCommand => out := Simplifications.OptSimplifyPipelineSingleCommand(ast);
      case SimplifySingleArray => out := Simplifications.OptSimplifySingleArray(ast);
      case RemoveUninitialisedVariableUsage => out := DeadCodes.OptRemoveUninitialisedVariableUsage(ast);
      case UnaryExpressionJoin => out := UnaryExpressions.OptUnaryExpressionJoin(ast);
      case BinaryExpressionPlus => out := BinaryExpressions.OptBinaryExpressionPlus(ast);
      case BinaryExpressionFormat => out := BinaryExpressions.OptBinaryExpressionFormat(tables, ast);
      case BinaryExpressionReplace => out := BinaryExpressions.OptBinaryExpressionReplace(ast);
      case BinaryExpressionJoin => out := BinaryExpressions.OptBinaryExpressionJoin(ast);
      case InvokeSplitString => out := InvokeMember.OptInvokeSplitString(ast);
      case InvokeReplaceString => out := InvokeMember.OptInvokeReplaceString(ast);
      case InvokeReverseArray => out := InvokeMember.OptInvokeReverseArray(ast);
      case InvokeExpression => out := RunExternal(tables.invokeExpression, ast);
      case ConvertTypeToType => out := TypeConvertions.OptConvertTypeToType(ast);
      case ConvertTypeToString => out := TypeConvertions.OptConvertTypeToString(tables, ast);
      case ConvertTypeToChar => out := TypeConvertions.OptConvertTypeToChar(ast);
      case ConvertTypeToArray => out := TypeConvertions.OptConvertTypeToArray(ast);
      case ValueOfConstArray => out := ComplexOperations.OptValueOfConstArray(ast);
      case PrefixedVariableCase => out := Simplifications.OptPrefixedVariableCase(ast);
      case BarewordCase => out := Simplifications.OptBarewordCase(tables, ast);
      case ConstantStringType => out := Simplifications.OptConstantStringType(tables, ast);
      case SpecialVariableCase => out := Simplifications.OptSpecialVariableCase(tables, ast);
      case TypeConstraintFromConvert => out := Simplifications.OptTypeConstraintFromConvert(ast);
      case CommandElementAsBareword => out := Simplifications.OptCommandElementAsBareword(tables, ast);
      case TypeConstraintCase => out := Simplifications.OptTypeConstraintCase(tables, ast);
      case Alias => out := RunExternal(tables.alias, ast);
      case ReplaceConstantVariableByValue => out := Simplifications.OptReplaceConstantVariableByValue(ast);
    }
  }

  /** A rule that is not part of this model, given by what it does to a
      tree. */
  method RunExternal(rule: Node -> Step, ast: Ast) returns (out: Outcome)
    modifies ast
    ensures StepOf(out, ast.root) == rule(old(ast.root))
  {
    match rule(ast.root) {
      case Raised => out := Raises;
      case Done(b, t) =>
        ast.root := t;
        out := Returned(b);
    }
  }

  /** `optimize_pass(ast)`. */
  method OptimizePass(tables: Tables, ast: Ast) returns (out: Outcome)
    modifies ast
    ensures StepOf(out, ast.root) == Pass(Optimizations(tables), old(ast.root))
  {
    var rules := Optimizations(tables);
    var i := 0;
    while i < |Catalog|
      invariant 0 <= i <= |Catalog|
      invariant Pass(rules, old(ast.root)) == Pass(rules[i..], ast.root)
    {
      assert rules[i..][0] == rules[i] && rules[i..][1..] == rules[i + 1..];
      var o := RunRule(tables, Catalog[i], ast);
      if o.Raises? || o.truthy {
        return o;
      }
      i := i + 1;
    }
    out := Returned(false);
  }

  /** How `optimize` ends: the tree once a pass returned False, an
      exception escaping from a pass, or the bound on the number of passes
      reached (the source has no bound). */
  datatype End = Settled(tree: Node) | Crashed | OutOfFuel

  /** `passes` passes returned True before the loop ended as `end`. */
  datatype Run = Run(passes: nat, end: End)

  /** `r` after `n` more passes that returned True. */
  function Shift(n: nat, r: Run): Run
  {
    Run(n + r.passes, r.end)
  }

  /** The loop `while optimize_pass(ast)`, with at most `fuel` passes
      tried. */
  function Fix(rules: seq<Node -> Step>, root: Node, fuel: nat): Run
    decreases fuel
  {
    if fuel == 0 then Run(0, OutOfFuel)
    else
      match Pass(rules, root)
      case Raised => Run(0, Crashed)
      case Done(false, t) => Run(0, Settled(t))
      case Done(true, t) =>
        var r := Fix(rules, t, fuel - 1);
        Run(r.passes + 1, r.end)
  }

  /** The tree after `n` passes that each returned True, or None when one
      of them did not. */
  function Truthy(rules: seq<Node -> Step>, root: Node, n: nat): Option<Node>
    decreases n
  {
    if n == 0 then Some(root)
    else
      match Pass(rules, root)
      case Done(true, t) => Truthy(rules, t, n - 1)
      case _ => None
  }

  /** The loop ends only after a pass in which no rule reported a change,
      and the count of modifications is the number of passes before it,
      each of which returned True. */
  lemma {:induction false} SettledAfterTruthy(rules: seq<Node -> Step>, root: Node, fuel: nat, n: nat, t: Node)
    requires Fix(rules, root, fuel) == Run(n, Settled(t))
    ensures Truthy(rules, root, n).Some?
    ensures var u := Truthy(rules, root, n).value;
      Pass(rules, u).Done? && !Pass(rules, u).truthy && Pass(rules, u).tree == t
    decreases fuel
  {
    match Pass(rules, root)
    case Done(b, u) =>
      if b {
        SettledAfterTruthy(rules, u, fuel - 1, n - 1, t);
      }
  }

  /** More fuel changes nothing once the loop has ended without running
      out: the bound only cuts off runs that would not end. */
  lemma {:induction false} FuelSuffices(rules: seq<Node -> Step>, root: Node, fuel: nat, more: nat)
    requires !Fix(rules, root, fuel).end.OutOfFuel?
    ensures Fix(rules, root, fuel + more) == Fix(rules, root, fuel)
    decreases fuel
  {
    match Pass(rules, root)
    case Raised =>
    case Done(b, u) =>
      if b {
        FuelSuffices(rules, u, fuel - 1, more);
      }
  }

  /** One more pass of the loop, given the outcome of the pass. */
  lemma FixStep(rules: seq<Node -> Step>, root: Node, fuel: nat, passes: nat, whole: Run)
    requires fuel > 0
    requires whole == Shift(passes, Fix(rules, root, fuel))
    ensures Pass(rules, root).Raised? ==> whole == Run(passes, Crashed)
    ensures Pass(rules, root).Done? && !Pass(rules, root).truthy ==>
      whole == Run(passes, Settled(Pass(rules, root).tree))
    ensures Pass(rules, root).Done? && Pass(rules, root).truthy ==>
      whole == Shift(passes + 1, Fix(rules, Pass(rules, root).tree, fuel - 1))
  {
  }

  /** One turn of the loop of `optimize`: a pass, and what it leaves of the
      run still to come. */
  method Round(tables: Tables, ast: Ast, ghost passes: nat, f: nat, ghost whole: Run) returns (o: Outcome)
    requires f > 0
    requires whole == Shift(passes, Fix(Optimizations(tables), ast.root, f))
    modifies ast
    ensures o.Raises? ==> whole == Run(passes, Crashed)
    ensures o.Returned? && !o.truthy ==> whole == Run(passes, Settled(ast.root))
    ensures o.Returned? && o.truthy ==>
      whole == Shift(passes + 1, Fix(Optimizations(tables), ast.root, f - 1))
  {
    FixStep(Optimizations(tables), ast.root, f, passes, whole);
    o := OptimizePass(tables, ast);
  }

  /** `Optimizer`: its statistics hold the number of modifications. */
  class Optimizer {
    var modifications: nat

    constructor ()
      ensures modifications == 0
    {
      modifications := 0;
    }

    /** `optimize(ast)`: passes until one returns False, counting those
        that returned True; it gives back the tree object it was given,
        rewritten in place. */
    method Optimize(tables: Tables, ast: Ast, fuel: nat) returns (result: Ast, run: Run)
      modifies this, ast
      ensures result == ast
      ensures run == Fix(Optimizations(tables), old(ast.root), fuel)
      ensures modifications == old(modifications) + run.passes
      ensures run.end.Settled? ==> ast.root == run.end.tree
    {
      ghost var whole := Fix(Optimizations(tables), ast.root, fuel);
      assert whole == Shift(0, whole);
      var passes: nat := 0;
      var f: nat := fuel;
      while f > 0
        invariant modifications == old(modifications) + passes
        invariant whole == Shift(passes, Fix(Optimizations(tables), ast.root, f))
        decreases f
      {
        var o := Round(tables, ast, passes, f, whole);
        if o.Raises? {
          return ast, Run(passes, Crashed);
        }
        if !o.truthy {
          return ast, Run(passes, Settled(ast.root));
        }
        modifications := modifications + 1;
        passes := passes + 1;
        f := f - 1;
      }
      result, run := ast, Run(passes, OutOfFuel);
    }
  }
}
