/** modules/optimizations/invoke_member.py: fold `.replace(a, b)` and
    `.split(sep)` called on a string constant, and `[array]::Reverse($v)` on
    a variable assigned an array literal. */
module InvokeMember {
  import opened Python
  import opened ElementTree
  import opened Utils
  import opened Rules

  /** `c.tag == "StringConstantExpressionAst" and c.attrib["StringConstantType"] == "BareWord"
      and c.text.lower() == name`: None when it raises (no string type, or
      no text to lower-case). */
  function BarewordNamed(c: Node, name: string): Option<bool>
  {
    if c.tag != "StringConstantExpressionAst" then Some(false)
    else if "StringConstantType" !in c.attrib then None
    else if c.attrib["StringConstantType"] != "BareWord" then Some(false)
    else if c.text.None? then None
    else Some(Lower(c.text.value) == name)
  }

  /** The receiver test: a string constant that is not a bareword; None when
      it has no string type. */
  function QuotedString(c: Node): Option<bool>
  {
    if c.tag != "StringConstantExpressionAst" then Some(false)
    else if "StringConstantType" !in c.attrib then None
    else Some(c.attrib["StringConstantType"] != "BareWord")
  }

  /** The texts of the string-constant arguments, in order. */
  function StringArgs(cs: seq<Node>): (r: seq<Option<string>>)
    ensures |r| <= |cs|
  {
    if cs == [] then []
    else if cs[0].tag == "StringConstantExpressionAst" then [cs[0].text] + StringArgs(cs[1..])
    else StringArgs(cs[1..])
  }

  /** Whether the member call `n` (with at least three children) calls the
      method `name` on a quoted string: Skip, raise, or go on. */
  function CallOn(n: Node, name: string): Option<bool>
    requires |n.children| >= 3
  {
    match BarewordNamed(n.children[2], name)
    case None => None
    case Some(false) => Some(false)
    case Some(true) => QuotedString(n.children[1])
  }

  // ---------------------------------------------------------------- opt_invoke_replace_string

  /** `.replace(a, b)` with exactly two string-constant arguments; a missing
      receiver text or argument text raises. */
  function InvokeReplaceVerdict(n: Node): Verdict
  {
    if n.tag != "InvokeMemberExpressionAst" || |n.children| < 3 then Skip
    else
      match CallOn(n, "replace")
      case None => Act(Fail)
      case Some(false) => Skip
      case Some(true) =>
        var args := StringArgs(n.children[0].children);
        if |args| != 2 then Skip
        else if n.children[1].text.None? || args[0].None? || args[1].None? then Act(Fail)
        else Act(Replace(ConstantString(Python.Replace(n.children[1].text.value, args[0].value, args[1].value), "SingleQuoted")))
  }

  /** `opt_invoke_replace_string(ast)`. */
  function InvokeReplaceString(root: Node): Step
  {
    FirstMatch(root, InvokeReplaceVerdict)
  }

  method OptInvokeReplaceString(ast: Ast) returns (out: Outcome)
    modifies ast
    ensures StepOf(out, ast.root) == InvokeReplaceString(old(ast.root))
  {
    out := ApplyFirst(ast, InvokeReplaceVerdict);
  }

  /** Member calls with fewer than three children, or with other than two
      string-constant arguments, are passed over. */
  lemma InvokeReplaceSkips(n: Node)
    requires n.tag == "InvokeMemberExpressionAst"
    requires |n.children| < 3 || (CallOn(n, "replace") == Some(true) && |StringArgs(n.children[0].children)| != 2)
    ensures InvokeReplaceVerdict(n) == Skip
  {
  }

  /** On success the first accepted `.replace` call becomes the single-quoted
      receiver text with the first argument replaced by the second, and the
      tree shrinks. */
  lemma InvokeReplaceEffect(root: Node, t: Node)
    requires InvokeReplaceString(root) == Done(true, t)
    ensures var vs := Walk(root); var k := FirstAct(vs, InvokeReplaceVerdict);
      k < |vs| && vs[k].path != []
      && var n := vs[k].node;
      n.tag == "InvokeMemberExpressionAst" && |n.children| >= 3 && CallOn(n, "replace") == Some(true)
      && var args := StringArgs(n.children[0].children);
      |args| == 2 && n.children[1].text.Some? && args[0].Some? && args[1].Some?
      && t == ReplaceAt(root, vs[k].path, ConstantString(Python.Replace(n.children[1].text.value, args[0].value, args[1].value), "SingleQuoted"))
    ensures Size(t) < Size(root)
  {
    FirstMatchAt(root, InvokeReplaceVerdict);
    var vs := Walk(root);
    var k := FirstAct(vs, InvokeReplaceVerdict);
    assert Locates(root, vs[k]);
    var m := InvokeReplaceVerdict(vs[k].node).action.repl;
    ReplaceByLeafShrinks(root, vs[k].path, m);
  }

  // ---------------------------------------------------------------- opt_invoke_split_string

  /** `receiver.split(sep)`: `split(None)` splits on white space, an empty
      separator raises ValueError. */
  function PySplit(receiver: string, sep: Option<string>): Py<seq<string>>
  {
    if sep.None? then Ok(SplitWhitespace(receiver))
    else if sep.value == [] then Throw
    else Ok(Split(receiver, sep.value))
  }

  function PStrs(parts: seq<string>): (r: seq<PyValue>)
    ensures |r| == |parts| && forall k :: 0 <= k < |parts| ==> r[k] == PStr(parts[k])
  {
    seq(|parts|, k requires 0 <= k < |parts| => PStr(parts[k]))
  }

  /** `.split(sep)` with `sep` the first string-constant argument: the call
      becomes an array literal of the pieces. */
  function InvokeSplitVerdict(n: Node): Verdict
  {
    if n.tag != "InvokeMemberExpressionAst" || |n.children| < 3 then Skip
    else
      match CallOn(n, "split")
      case None => Act(Fail)
      case Some(false) => Skip
      case Some(true) =>
        match Find(n.children[0], "StringConstantExpressionAst")
        case None => Skip
        case Some(a) =>
          if n.children[1].text.None? then Act(Fail)
          else
            match PySplit(n.children[1].text.value, a.text)
            case Throw => Act(Fail)
            case Ok(parts) => Act(Replace(ArrayLiteralOf(PStrs(parts), "SingleQuoted")))
  }

  /** `opt_invoke_split_string(ast)`. */
  function InvokeSplitString(root: Node): Step
  {
    FirstMatch(root, InvokeSplitVerdict)
  }

  method OptInvokeSplitString(ast: Ast) returns (out: Outcome)
    modifies ast
    ensures StepOf(out, ast.root) == InvokeSplitString(old(ast.root))
  {
    out := ApplyFirst(ast, InvokeSplitVerdict);
  }

  /** The array a `.split` call becomes reads back as the pieces in order,
      and for a non-empty separator joining the pieces on it gives the
      receiver text back. */
  lemma SplitFolded(receiver: string, sep: string)
    requires sep != []
    ensures ArrayLiteralValues(Some(ArrayLiteralOf(PStrs(Split(receiver, sep)), "SingleQuoted"))) == Ok(Some(PStrs(Split(receiver, sep))))
    ensures Join(sep, Split(receiver, sep)) == receiver
  {
    var ps := PStrs(Split(receiver, sep));
    ArrayLiteralRoundTrip(ps, "SingleQuoted");
    assert Strs(ps) == ps;
    JoinSplit(receiver, sep);
  }

  /** On success the first accepted `.split` call is replaced by the array
      literal of the pieces of the receiver text. */
  lemma InvokeSplitEffect(root: Node, t: Node)
    requires InvokeSplitString(root) == Done(true, t)
    ensures var vs := Walk(root); var k := FirstAct(vs, InvokeSplitVerdict);
      k < |vs| && vs[k].path != []
      && var n := vs[k].node;
      n.tag == "InvokeMemberExpressionAst" && |n.children| >= 3 && CallOn(n, "split") == Some(true)
      && Find(n.children[0], "StringConstantExpressionAst").Some? && n.children[1].text.Some?
      && var pieces := PySplit(n.children[1].text.value, Find(n.children[0], "StringConstantExpressionAst").value.text);
      pieces.Ok? && t == ReplaceAt(root, vs[k].path, ArrayLiteralOf(PStrs(pieces.value), "SingleQuoted"))
  {
    FirstMatchAt(root, InvokeSplitVerdict);
    var vs := Walk(root);
    var k := FirstAct(vs, InvokeSplitVerdict);
    assert Locates(root, vs[k]);
    var m := InvokeSplitVerdict(vs[k].node).action.repl;
    PerformReplaceSize(root, vs[k].path, Replace(m));
  }

  // ---------------------------------------------------------------- try_reverse_variable_if_not_used

  /** What `try_reverse_variable_if_not_used` makes of one element of its
      walk: go on; give up (`return False`: the first occurrence of the
      variable is not assigned to); raise; or reverse the `Elements` at the
      given path. */
  datatype Probe = GoOn | NotAssigned | ProbeRaises | Found(elements: Path, repl: Node)

  /** The `Elements` element under the `CommandExpressionAst` (first) and its
      `ArrayLiteralAst` (first) of the assignment at `pp`, with its children
      reversed.  No `CommandExpressionAst` raises (`None.tag`), no array
      literal goes on, no `Elements` raises (iterating over None). */
  function ProbeAssignment(root: Node, pp: Path): (r: Probe)
    requires ValidPath(root, pp)
    ensures r.Found? ==>
      ValidPath(root, r.elements) && |r.elements| == |pp| + 3 && r.elements[..|pp|] == pp
      && At(root, r.elements).tag == "Elements"
      && r.repl == Node("Elements", map[], None, Reversed(At(root, r.elements).children))
    ensures !r.NotAssigned?
  {
    var parent := At(root, pp);
    var i1 := FirstWithTag(parent.children, "CommandExpressionAst");
    if i1 == |parent.children| then ProbeRaises
    else
      var ce := parent.children[i1];
      var i2 := FirstWithTag(ce.children, "ArrayLiteralAst");
      if i2 == |ce.children| then GoOn
      else
        var al := ce.children[i2];
        var i3 := FirstWithTag(al.children, "Elements");
        if i3 == |al.children| then ProbeRaises
        else
          ValidExtend(root, pp, i1);
          ValidExtend(root, pp + [i1], i2);
          ValidExtend(root, pp + [i1] + [i2], i3);
          var e := pp + [i1] + [i2] + [i3];
          assert e == pp + [i1, i2, i3];
          Found(e, Node("Elements", map[], None, Reversed(al.children[i3].children)))
  }

  function ProbeVisit(root: Node, v: Visit, variable: string): (r: Probe)
    requires Locates(root, v)
  {
    if v.node.tag != "VariableExpressionAst" then GoOn
    else if "VariablePath" !in v.node.attrib then ProbeRaises
    else if Lower(v.node.attrib["VariablePath"]) != Lower(variable) then GoOn
    else if v.path == [] then ProbeRaises
    else
      ValidParent(root, v.path);
      if At(root, Parent(v.path)).tag != "AssignmentStatementAst" then NotAssigned
      else ProbeAssignment(root, Parent(v.path))
  }

  /** The result of the walk from the `i`-th element on. */
  function ProbeFrom(root: Node, variable: string, i: nat): (r: Probe)
    requires i <= |Walk(root)|
    ensures r != GoOn
    ensures r.Found? ==>
      ValidPath(root, r.elements) && r.elements != []
      && r.repl == Node("Elements", map[], None, Reversed(At(root, r.elements).children))
    decreases |Walk(root)| - i
  {
    var vs := Walk(root);
    if i == |vs| then NotAssigned
    else
      assert Locates(root, vs[i]);
      match ProbeVisit(root, vs[i], variable)
      case GoOn => ProbeFrom(root, variable, i + 1)
      case r => r
  }

  /** `try_reverse_variable_if_not_used(ast, variable, _)`: the tree after
      the `Elements` was replaced by its reversal, `None` for False, or an
      exception. */
  function TryReverse(root: Node, variable: string): Py<Option<(Path, Node)>>
  {
    match ProbeFrom(root, variable, 0)
    case ProbeRaises => Throw
    case Found(e, m) =>
      ReplaceNoUntil(root, e, m);
      Ok(Some((e, ReplaceAt(root, e, m))))
    case _ => Ok(None)
  }

  /** When the first occurrence of the variable in pre-order does not sit in
      an assignment, the attempt returns False and changes nothing. */
  lemma {:induction false} FirstOccurrenceUnassigned(root: Node, variable: string, i: nat, k: nat)
    requires i <= k < |Walk(root)| && Locates(root, Walk(root)[k])
    requires ProbeVisit(root, Walk(root)[k], variable) == NotAssigned
    requires forall j :: i <= j < k ==> Locates(root, Walk(root)[j]) && ProbeVisit(root, Walk(root)[j], variable) == GoOn
    ensures ProbeFrom(root, variable, i) == NotAssigned
    decreases k - i
  {
    if i < k {
      FirstOccurrenceUnassigned(root, variable, i + 1, k);
    }
  }

  lemma TryReverseUnassigned(root: Node, variable: string, k: nat)
    requires k < |Walk(root)|
    requires ProbeVisit(root, Walk(root)[k], variable) == NotAssigned
    requires forall j :: 0 <= j < k ==> ProbeVisit(root, Walk(root)[j], variable) == GoOn
    ensures TryReverse(root, variable) == Ok(None)
  {
    FirstOccurrenceUnassigned(root, variable, 0, k);
  }

  /** The reversal keeps the array: the new `Elements` holds the old
      children in reverse order, so reversing twice restores them. */
  lemma TryReverseEffect(root: Node, variable: string)
    requires TryReverse(root, variable).Ok? && TryReverse(root, variable).value.Some?
    ensures var (e, t) := TryReverse(root, variable).value.value;
      ValidPath(root, e) && e != []
      && t == ReplaceAt(root, e, Node("Elements", map[], None, Reversed(At(root, e).children)))
      && ValidPath(t, e) && At(t, e).tag == "Elements"
      && At(t, e).children == Reversed(At(root, e).children)
      && Reversed(At(t, e).children) == At(root, e).children
  {
    var p := ProbeFrom(root, variable, 0);
    AtReplaced(root, p.elements, p.repl);
    ReversedTwice(At(root, p.elements).children);
  }

  /** The loop that builds the reversed `Elements`, inserting each child at
      the front. */
  method ReverseChildren(kids: seq<Node>) returns (r: seq<Node>)
    ensures r == Reversed(kids)
  {
    r := [];
    for i := 0 to |kids|
      invariant r == Reversed(kids[..i])
    {
      assert kids[..i + 1] == kids[..i] + [kids[i]];
      r := [kids[i]] + r;
    }
    assert kids[..|kids|] == kids;
  }

  /** The walk of `try_reverse_variable_if_not_used`, then the
      `replace_node` of the `Elements`. */
  method TryReverseVariableIfNotUsed(ast: Ast, variable: string) returns (r: Py<Option<Path>>)
    modifies ast
    ensures match TryReverse(old(ast.root), variable)
      case Throw => r == Throw && ast.root == old(ast.root)
      case Ok(None) => r == Ok(None) && ast.root == old(ast.root)
      case Ok(Some((e, t))) => r == Ok(Some(e)) && ast.root == t
  {
    var root := ast.root;
    var vs := Walk(root);
    var i := 0;
    while i < |vs|
      invariant 0 <= i <= |vs| && ast.root == root
      invariant ProbeFrom(root, variable, 0) == ProbeFrom(root, variable, i)
    {
      assert Locates(root, vs[i]);
      var probe := ProbeVisit(root, vs[i], variable);
      if !probe.GoOn? {
        if probe.ProbeRaises? {
          return Throw;
        } else if probe.NotAssigned? {
          return Ok(None);
        }
        var kids := ReverseChildren(At(root, probe.elements).children);
        var m := Node("Elements", map[], None, kids);
        var ok := ReplaceNode(ast, probe.elements, m, None);
        ReplaceNoUntil(root, probe.elements, m);
        return Ok(Some(probe.elements));
      }
      i := i + 1;
    }
    return Ok(None);
  }

  // ---------------------------------------------------------------- opt_invoke_reverse_array

  /** `[array]::Reverse($v)`: child 1 a type expression named `array`, child
      2 a bareword (any name), and a variable in child 0.  A missing child
      raises IndexError, a missing attribute KeyError. */
  datatype Candidate = NoCandidate | CandidateRaises | Reverse(variable: string)

  function ReverseCandidate(n: Node): Candidate
  {
    if n.tag != "InvokeMemberExpressionAst" then NoCandidate
    else if |n.children| < 2 then CandidateRaises
    else if n.children[1].tag != "TypeExpressionAst" then NoCandidate
    else if "TypeName" !in n.children[1].attrib then CandidateRaises
    else if Lower(n.children[1].attrib["TypeName"]) != "array" then NoCandidate
    else if |n.children| < 3 then CandidateRaises
    else if n.children[2].tag != "StringConstantExpressionAst" then NoCandidate
    else if "StringConstantType" !in n.children[2].attrib then CandidateRaises
    else if n.children[2].attrib["StringConstantType"] != "BareWord" then NoCandidate
    else
      match Find(n.children[0], "VariableExpressionAst")
      case None => NoCandidate
      case Some(a) => if "VariablePath" !in a.attrib then CandidateRaises else Reverse(a.attrib["VariablePath"])
  }

  /** Where the call element at `p` is once the `Elements` at `e` has been
      reversed: only an element inside that array moves, to the mirrored
      index. */
  function Moved(p: Path, e: Path, width: nat): Path
  {
    if |e| < |p| && p[..|e|] == e && p[|e|] < width then e + [width - 1 - p[|e|]] + p[|e| + 1..] else p
  }

  /** The call element is still in the tree after the reversal. */
  lemma MovedValid(root: Node, p: Path, e: Path, m: Node)
    requires ValidPath(root, p) && ValidPath(root, e)
    requires m == Node("Elements", map[], None, Reversed(At(root, e).children))
    ensures ValidPath(ReplaceAt(root, e, m), Moved(p, e, |At(root, e).children|))
  {
    var t := ReplaceAt(root, e, m);
    var kids := At(root, e).children;
    var q := Moved(p, e, |kids|);
    AtReplaced(root, e, m);
    if |e| < |p| && p[..|e|] == e {
      var j := p[|e|];
      var rest := p[|e| + 1..];
      assert p == e + ([j] + rest);
      AtAppend(root, e, [j] + rest);
      ValidPathCons(At(root, e), j, rest);
      var j2 := |kids| - 1 - j;
      assert m.children[j2] == kids[j];
      ValidPathCons(m, j2, rest);
      assert q == e + ([j2] + rest);
      AtAppend(t, e, [j2] + rest);
    } else {
      ValidAfterReplace(root, e, m, p);
    }
  }

  function ReverseArrayFrom(root: Node, i: nat): Step
    requires i <= |Walk(root)|
    decreases |Walk(root)| - i
  {
    var vs := Walk(root);
    if i == |vs| then Done(false, root)
    else
      match ReverseCandidate(vs[i].node)
      case NoCandidate => ReverseArrayFrom(root, i + 1)
      case CandidateRaises => Raised
      case Reverse(x) =>
        match TryReverse(root, x)
        case Throw => Raised
        case Ok(None) => ReverseArrayFrom(root, i + 1)
        case Ok(Some((e, t))) =>
          assert Locates(root, vs[i]);
          TryReverseEffect(root, x);
          MovedValid(root, vs[i].path, e, Node("Elements", map[], None, Reversed(At(root, e).children)));
          match DeleteResult(t, Moved(vs[i].path, e, |At(root, e).children|), None)
          case Throw => Raised
          case Ok(t2) => Done(true, t2)
  }

  /** `opt_invoke_reverse_array(ast)`: the first call whose variable could
      be reversed is deleted; a call whose attempt returns False is passed
      over. */
  function InvokeReverseArray(root: Node): Step
  {
    ReverseArrayFrom(root, 0)
  }

  method OptInvokeReverseArray(ast: Ast) returns (out: Outcome)
    modifies ast
    ensures StepOf(out, ast.root) == InvokeReverseArray(old(ast.root))
  {
    var root := ast.root;
    var vs := Walk(root);
    var i := 0;
    while i < |vs|
      invariant 0 <= i <= |vs| && ast.root == root
      invariant InvokeReverseArray(root) == ReverseArrayFrom(root, i)
    {
      var c := ReverseCandidate(vs[i].node);
      if c.CandidateRaises? {
        return Raises;
      }
      if c.Reverse? {
        var r := TryReverseVariableIfNotUsed(ast, c.variable);
        if r.Throw? {
          return Raises;
        }
        if r.value.Some? {
          var e := r.value.value;
          assert Locates(root, vs[i]);
          TryReverseEffect(root, c.variable);
          var width := |At(root, e).children|;
          MovedValid(root, vs[i].path, e, Node("Elements", map[], None, Reversed(At(root, e).children)));
          var ok := DeleteNode(ast, Moved(vs[i].path, e, width), None);
          out := if ok then Returned(true) else Raises;
          return;
        }
      }
      i := i + 1;
    }
    out := Returned(false);
  }

  /** When the rule returns False it has changed nothing. */
  lemma {:induction false} ReverseArrayFalseUnchanged(root: Node, i: nat)
    requires i <= |Walk(root)|
    ensures ReverseArrayFrom(root, i).Done? && !ReverseArrayFrom(root, i).truthy ==> ReverseArrayFrom(root, i).tree == root
    decreases |Walk(root)| - i
  {
    if i < |Walk(root)| {
      ReverseArrayFalseUnchanged(root, i + 1);
    }
  }

  /** Reversing the elements in place keeps the number of elements. */
  lemma ReverseKeepsSize(root: Node, variable: string)
    requires TryReverse(root, variable).Ok? && TryReverse(root, variable).value.Some?
    ensures Size(TryReverse(root, variable).value.value.1) == Size(root)
  {
    var (e, t) := TryReverse(root, variable).value.value;
    TryReverseEffect(root, variable);
    var cs := At(root, e).children;
    SizeReplaceAt(root, e, Node("Elements", map[], None, Reversed(cs)));
    CountSeqReversed(cs, Everything);
    assert Everything(Head(At(root, e))) && Everything(Head(Node("Elements", map[], None, Reversed(cs))));
  }

  /** On success the call is gone: the tree is the reversed one with the
      call element removed, so it is smaller than the tree with the array
      reversed, and smaller than the tree the rule started from. */
  lemma ReverseArraySuccess(root: Node, i: nat, t2: Node)
    requires i <= |Walk(root)| && ReverseArrayFrom(root, i) == Done(true, t2)
    ensures exists x: string ::
      TryReverse(root, x).Ok? && TryReverse(root, x).value.Some?
      && Size(t2) < Size(TryReverse(root, x).value.value.1)
    ensures Size(t2) < Size(root)
    decreases |Walk(root)| - i
  {
    var vs := Walk(root);
    match ReverseCandidate(vs[i].node)
    case NoCandidate => ReverseArraySuccess(root, i + 1, t2);
    case Reverse(x) =>
      match TryReverse(root, x)
      case Ok(None) => ReverseArraySuccess(root, i + 1, t2);
      case Ok(Some((e, t))) =>
        assert Locates(root, vs[i]);
        TryReverseEffect(root, x);
        MovedValid(root, vs[i].path, e, Node("Elements", map[], None, Reversed(At(root, e).children)));
        var q := Moved(vs[i].path, e, |At(root, e).children|);
        DeleteEffect(t, q, None);
        assert Everything(Head(At(t, q)));
        ReverseKeepsSize(root, x);
  }
}
