/** The tree helpers of modules/utils.py: the parent map, variable-use
    counting, building and reading string-array literals, the `env:` prefix
    test, and the two in-place edits `replace_node` and `delete_node`. */
module Utils {
  import opened Python
  import opened ElementTree

  // ---------------------------------------------------------------- parent_map

  /** The keys of `parent_map(ast)`: every child of every visited element. */
  function ChildPaths(root: Node): set<Path>
  {
    var w := Walk(root);
    set j, k | 0 <= j < |w| && 0 <= k < |w[j].node.children| :: w[j].path + [k]
  }

  lemma ChildPathsAreNonRoot(root: Node)
    ensures forall c :: c in ChildPaths(root) <==> ValidPath(root, c) && c != []
  {
    var w := Walk(root);
    forall c | ValidPath(root, c) && c != []
      ensures c in ChildPaths(root)
    {
      ValidParent(root, c);
      WalkComplete(root, Parent(c));
      var j :| 0 <= j < |w| && w[j].path == Parent(c);
      assert Parent(c) + [Last(c)] == c;
    }
    forall c | c in ChildPaths(root)
      ensures ValidPath(root, c) && c != []
    {
      var j, k :| 0 <= j < |w| && 0 <= k < |w[j].node.children| && c == w[j].path + [k];
      ValidExtend(root, w[j].path, k);
    }
  }

  /** `parent_map(ast)`: every element below the root, mapped to its parent. */
  function ParentMap(root: Node): (m: map<Path, Path>)
    ensures forall c :: c in m <==> ValidPath(root, c) && c != []
    ensures forall c :: c in m ==> m[c] == Parent(c)
  {
    ChildPathsAreNonRoot(root);
    map c | c in ChildPaths(root) :: Parent(c)
  }

  // ---------------------------------------------------------------- get_used_vars

  /** What one element of the walk contributes to `get_used_vars`: nothing,
      one use of a lower-cased name, or a KeyError (the root has no parent;
      an assignment without `Operator`; a variable without `VariablePath`). */
  datatype Use = NotAUse | UseOf(name: string) | UseRaises

  function UseOfVisit(v: Visit): Use
  {
    if v.node.tag != "VariableExpressionAst" then NotAUse
    else if v.parent.None? then UseRaises
    else if v.parent.value.tag == "AssignmentStatementAst" && "Operator" !in v.parent.value.attrib then UseRaises
    else if v.parent.value.tag == "AssignmentStatementAst" && v.parent.value.attrib["Operator"] == "Equals" then NotAUse
    else if "VariablePath" !in v.node.attrib then UseRaises
    else UseOf(Lower(v.node.attrib["VariablePath"]))
  }

  /** The used names, in walk order, of the visits `vs`. */
  function UseNames(vs: seq<Visit>): Py<seq<string>>
  {
    if vs == [] then Ok([])
    else
      match UseNames(vs[..|vs| - 1])
      case Throw => Throw
      case Ok(ns) =>
        match UseOfVisit(vs[|vs| - 1])
        case NotAUse => Ok(ns)
        case UseOf(x) => Ok(ns + [x])
        case UseRaises => Throw
  }

  /** How often each name occurs, as the dictionary `used_vars` counts it. */
  function Tally(ns: seq<string>): map<string, nat>
  {
    if ns == [] then map[]
    else
      var t := Tally(ns[..|ns| - 1]);
      var x := ns[|ns| - 1];
      t[x := (if x in t then t[x] else 0) + 1]
  }

  lemma TallySnoc(ns: seq<string>, x: string)
    ensures Tally(ns + [x]) == Tally(ns)[x := (if x in Tally(ns) then Tally(ns)[x] else 0) + 1]
  {
    assert (ns + [x])[..|ns|] == ns;
  }

  /** The counts are the multiplicities of the names, so every key counts at
      least one occurrence. */
  lemma {:induction false} TallyCounts(ns: seq<string>)
    ensures forall x :: x in Tally(ns) <==> x in ns
    ensures forall x :: x in Tally(ns) ==> Tally(ns)[x] == multiset(ns)[x] && Tally(ns)[x] >= 1
  {
    if ns != [] {
      var init := ns[..|ns| - 1];
      var x := ns[|ns| - 1];
      assert ns == init + [x];
      TallyCounts(init);
      TallySnoc(init, x);
    }
  }

  function UsedVars(root: Node): Py<map<string, nat>>
  {
    match UseNames(Walk(root))
    case Throw => Throw
    case Ok(ns) => Ok(Tally(ns))
  }

  predicate SomeUse(vs: seq<Visit>, u: Use)
  {
    exists j :: 0 <= j < |vs| && UseOfVisit(vs[j]) == u
  }

  lemma SomeUseSnoc(vs: seq<Visit>, u: Use)
    requires vs != []
    ensures SomeUse(vs, u) <==> SomeUse(vs[..|vs| - 1], u) || UseOfVisit(vs[|vs| - 1]) == u
  {
    var init := vs[..|vs| - 1];
    if SomeUse(vs, u) {
      var j :| 0 <= j < |vs| && UseOfVisit(vs[j]) == u;
      if j < |init| {
        assert init[j] == vs[j];
      }
    }
    if SomeUse(init, u) {
      var j :| 0 <= j < |init| && UseOfVisit(init[j]) == u;
      assert vs[j] == init[j];
    }
  }

  /** A name is in the use list exactly when some visit uses it, and a
      raising visit anywhere makes the whole count raise. */
  lemma {:induction false} UseNamesMeaning(vs: seq<Visit>)
    ensures UseNames(vs).Throw? <==> SomeUse(vs, UseRaises)
    ensures UseNames(vs).Ok? ==> forall x :: x in UseNames(vs).value <==> SomeUse(vs, UseOf(x))
  {
    if vs != [] {
      var init := vs[..|vs| - 1];
      UseNamesMeaning(init);
      SomeUseSnoc(vs, UseRaises);
      forall x
        ensures SomeUse(vs, UseOf(x)) <==> SomeUse(init, UseOf(x)) || UseOfVisit(vs[|vs| - 1]) == UseOf(x)
      {
        SomeUseSnoc(vs, UseOf(x));
      }
    }
  }

  /** `get_used_vars` raises exactly when some element of the walk makes
      it raise. */
  lemma UsedVarsRaises(root: Node)
    ensures UsedVars(root).Throw? <==> SomeUse(Walk(root), UseRaises)
  {
    UseNamesMeaning(Walk(root));
  }

  /** `get_used_vars`: a name is a key exactly when some variable occurrence
      other than the target of a plain `=` assignment carries it (compared
      lower-cased), and its count is the number of such occurrences, so at
      least one. */
  lemma UsedVarsMeaning(root: Node, m: map<string, nat>)
    requires UsedVars(root) == Ok(m)
    ensures forall x :: x in m <==> SomeUse(Walk(root), UseOf(x))
    ensures forall x :: x in m ==> m[x] >= 1 && m[x] == multiset(UseNames(Walk(root)).value)[x]
  {
    UseNamesMeaning(Walk(root));
    TallyCounts(UseNames(Walk(root)).value);
  }

  /** The loop of `get_used_vars`, one dictionary update per counted use. */
  method GetUsedVars(root: Node) returns (r: Py<map<string, nat>>)
    ensures r == UsedVars(root)
  {
    var w := Walk(root);
    var used: map<string, nat> := map[];
    var i := 0;
    while i < |w|
      invariant 0 <= i <= |w|
      invariant UseNames(w[..i]).Ok? && used == Tally(UseNames(w[..i]).value)
    {
      UseNamesStep(w, i);
      ghost var ns := UseNames(w[..i]).value;
      match UseOfVisit(w[i]) {
        case NotAUse =>
        case UseRaises =>
          UseNamesThrowPersists(w, i + 1);
          assert w[..|w|] == w;
          return Throw;
        case UseOf(name) =>
          TallySnoc(ns, name);
          if name in used {
            used := used[name := used[name] + 1];
          } else {
            used := used[name := 1];
          }
      }
      i := i + 1;
    }
    assert w[..i] == w;
    r := Ok(used);
  }

  lemma UseNamesStep(w: seq<Visit>, i: nat)
    requires i < |w|
    ensures UseNames(w[..i + 1]) ==
      match UseNames(w[..i])
      case Throw => Throw
      case Ok(ns) =>
        match UseOfVisit(w[i])
        case NotAUse => Ok(ns)
        case UseOf(x) => Ok(ns + [x])
        case UseRaises => Throw
  {
    assert w[..i + 1][..i] == w[..i];
  }

  /** Once a prefix of the walk raises, every longer prefix raises. */
  lemma {:induction false} UseNamesThrowPersists(w: seq<Visit>, i: nat)
    requires i <= |w| && UseNames(w[..i]).Throw?
    ensures UseNames(w).Throw?
    decreases |w| - i
  {
    if i < |w| {
      assert w[..i + 1][..i] == w[..i];
      UseNamesThrowPersists(w, i + 1);
    } else {
      assert w[..i] == w;
    }
  }

  // ---------------------------------------------------------------- constructors

  /** `create_constant_string(value, string_type)`. */
  function ConstantString(value: string, stringType: string): (r: Node)
    ensures r.tag == "StringConstantExpressionAst" && r.text == Some(value) && r.children == []
    ensures r.attrib == map["StringConstantType" := stringType, "StaticType" := "string"]
  {
    Node("StringConstantExpressionAst", map["StringConstantType" := stringType, "StaticType" := "string"], Some(value), [])
  }

  /** One item of a built array literal: it carries no StaticType. */
  function StringItem(text: string, stringType: string): Node
  {
    Node("StringConstantExpressionAst", map["StringConstantType" := stringType], Some(text), [])
  }

  /** The tree `create_array_literal_values(values, string_type)` builds. */
  function ArrayLiteralOf(values: seq<PyValue>, stringType: string): (r: Node)
    ensures r.tag == "ArrayLiteralAst" && r.attrib == map["StaticType" := "System.Object[]"] && r.text.None?
    ensures |r.children| == 1 && r.children[0].tag == "Elements"
    ensures |r.children[0].children| == |values|
    ensures forall k :: 0 <= k < |values| ==> r.children[0].children[k] == StringItem(Str(values[k]), stringType)
  {
    var items := seq(|values|, k requires 0 <= k < |values| => StringItem(Str(values[k]), stringType));
    Node("ArrayLiteralAst", map["StaticType" := "System.Object[]"], None, [Node("Elements", map[], None, items)])
  }

  /** The loop of `create_array_literal_values`: one appended item per value. */
  method CreateArrayLiteralValues(values: seq<PyValue>, stringType: string) returns (a: Node)
    ensures a == ArrayLiteralOf(values, stringType)
  {
    var items: seq<Node> := [];
    for i := 0 to |values|
      invariant |items| == i
      invariant forall k :: 0 <= k < i ==> items[k] == StringItem(Str(values[k]), stringType)
    {
      items := items + [StringItem(Str(values[i]), stringType)];
    }
    assert items == seq(|values|, k requires 0 <= k < |values| => StringItem(Str(values[k]), stringType));
    a := Node("ArrayLiteralAst", map["StaticType" := "System.Object[]"], None, [Node("Elements", map[], None, items)]);
  }

  // ---------------------------------------------------------------- get_array_literal_values

  /** How `get_array_literal_values` reads one element: a string constant's
      text (None when it has none), an integer constant's `int(text)` (which
      raises on bad or missing text), or "not a literal". */
  datatype Lit = Value(v: PyValue) | NotLiteral | BadInt

  function LiteralValue(e: Node): Lit
  {
    if e.tag == "StringConstantExpressionAst" then
      Value(if e.text.Some? then PStr(e.text.value) else PNone)
    else if e.tag == "ConstantExpressionAst" then
      if e.text.Some? && ParseInt(e.text.value).Some? then Value(PInt(ParseInt(e.text.value).value)) else BadInt
    else NotLiteral
  }

  function LiteralValues(es: seq<Node>): (r: Py<Option<seq<PyValue>>>)
    ensures r.Ok? && r.value.Some? ==>
      |r.value.value| == |es| && forall k :: 0 <= k < |es| ==> LiteralValue(es[k]) == Value(r.value.value[k])
  {
    if es == [] then Ok(Some([]))
    else
      match LiteralValue(es[0])
      case NotLiteral => Ok(None)
      case BadInt => Throw
      case Value(v) =>
        match LiteralValues(es[1..])
        case Throw => Throw
        case Ok(None) => Ok(None)
        case Ok(Some(rest)) => Ok(Some([v] + rest))
  }

  /** `get_array_literal_values(node)`: None when there is no node, no
      `Elements` child, or a non-literal element comes first; otherwise one
      value per element. */
  function ArrayLiteralValues(node: Option<Node>): Py<Option<seq<PyValue>>>
  {
    if node.None? then Ok(None)
    else match Find(node.value, "Elements")
      case None => Ok(None)
      case Some(e) => LiteralValues(e.children)
  }

  /** With every element a literal, the reader succeeds; a `None` result with
      an `Elements` child means some element is not a literal. */
  lemma {:induction false} LiteralValuesCases(es: seq<Node>)
    ensures (forall k :: 0 <= k < |es| ==> LiteralValue(es[k]).Value?) ==> LiteralValues(es).Ok? && LiteralValues(es).value.Some?
    ensures LiteralValues(es) == Ok(None) ==> exists k :: 0 <= k < |es| && LiteralValue(es[k]).NotLiteral?
  {
    if es != [] {
      LiteralValuesCases(es[1..]);
      if LiteralValues(es) == Ok(None) && !LiteralValue(es[0]).NotLiteral? {
        var k :| 0 <= k < |es[1..]| && LiteralValue(es[1..][k]).NotLiteral?;
        assert LiteralValue(es[k + 1]).NotLiteral?;
      }
    }
  }

  /** `[str(v) for v in values]`. */
  function Strs(values: seq<PyValue>): (r: seq<PyValue>)
    ensures |r| == |values| && forall k :: 0 <= k < |values| ==> r[k] == PStr(Str(values[k]))
  {
    seq(|values|, k requires 0 <= k < |values| => PStr(Str(values[k])))
  }

  /** Reading back a built array literal gives `str(v)` of every value. */
  lemma ArrayLiteralRoundTrip(values: seq<PyValue>, stringType: string)
    ensures ArrayLiteralValues(Some(ArrayLiteralOf(values, stringType))) == Ok(Some(Strs(values)))
  {
    var a := ArrayLiteralOf(values, stringType);
    var es := a.children[0].children;
    assert Find(a, "Elements") == Some(a.children[0]);
    LiteralValuesCases(es);
    var got := LiteralValues(es).value.value;
    assert |got| == |values|;
    forall k | 0 <= k < |values|
      ensures got[k] == PStr(Str(values[k]))
    {
      assert LiteralValue(es[k]) == Value(got[k]);
    }
    assert got == Strs(values);
  }

  /** The loop of `get_array_literal_values`, returning early on the first
      element that is not a literal. */
  method GetArrayLiteralValues(node: Option<Node>) returns (r: Py<Option<seq<PyValue>>>)
    ensures r == ArrayLiteralValues(node)
  {
    if node.None? {
      return Ok(None);
    }
    var arguments := Find(node.value, "Elements");
    if arguments.None? {
      return Ok(None);
    }
    var es := arguments.value.children;
    var values: seq<PyValue> := [];
    LiteralResumeStart(es);
    assert es[0..] == es;
    for i := 0 to |es|
      invariant |values| == i
      invariant forall k :: 0 <= k < i ==> LiteralValue(es[k]) == Value(values[k])
      invariant LiteralValues(es) == LiteralResume(values, es[i..])
    {
      assert es[i..][1..] == es[i + 1..];
      match LiteralValue(es[i]) {
        case NotLiteral => return Ok(None);
        case BadInt => return Throw;
        case Value(v) =>
          LiteralResumeStep(values, es[i..], v);
          values := values + [v];
      }
    }
    assert es[|es|..] == [];
    assert values + [] == values;
    r := Ok(Some(values));
  }

  /** The reader's result once `done` has been read and `rest` remains. */
  function LiteralResume(done: seq<PyValue>, rest: seq<Node>): Py<Option<seq<PyValue>>>
  {
    match LiteralValues(rest)
    case Ok(Some(vs)) => Ok(Some(done + vs))
    case other => other
  }

  lemma LiteralResumeStep(done: seq<PyValue>, rest: seq<Node>, v: PyValue)
    requires rest != [] && LiteralValue(rest[0]) == Value(v)
    ensures LiteralResume(done, rest) == LiteralResume(done + [v], rest[1..])
  {
    match LiteralValues(rest[1..])
    case Ok(Some(vs)) => assert done + ([v] + vs) == done + [v] + vs;
    case _ =>
  }

  lemma LiteralResumeStart(es: seq<Node>)
    ensures LiteralValues(es) == LiteralResume([], es)
  {
    match LiteralValues(es)
    case Ok(Some(vs)) => assert [] + vs == vs;
    case _ =>
  }

  // ---------------------------------------------------------------- is_prefixed_var

  /** `is_prefixed_var(param)`: the text before the first `:`, lower-cased,
      is `env`. */
  function IsPrefixedVar(param: string): (r: bool)
    ensures r <==> Lower(BeforeFirst(param, ':')) == "env"
  {
    SplitFirstPiece(Lower(param), ':');
    LowerBeforeFirstColon(param);
    Split(Lower(param), ":")[0] == "env"
  }

  // ---------------------------------------------------------------- replace_node and delete_node

  /** The end of `replace_node`'s climb: the nearest ancestor-or-self of `p`
      tagged `tag`, or the root when there is none. */
  function AncestorWith(n: Node, p: Path, tag: string): (q: Path)
    requires ValidPath(n, p)
    ensures IsPrefix(q, p) && ValidPath(n, q)
    ensures q == [] || At(n, q).tag == tag
    ensures forall k :: |q| < k <= |p| ==> ValidPath(n, p[..k]) && At(n, p[..k]).tag != tag
    decreases |p|
  {
    ValidPrefixes(n, p);
    if p == [] || At(n, p).tag == tag then
      assert p[..|p|] == p;
      p
    else
      ValidParent(n, p);
      var q := AncestorWith(n, Parent(p), tag);
      assert forall k :: |q| < k <= |Parent(p)| ==> Parent(p)[..k] == p[..k];
      assert p[..|p|] == p;
      q
  }

  /** `replace_node(ast, old, new, until)`: KeyError when `old` is the root;
      otherwise the element reached by the `until` climb (or `old` itself) is
      removed from its parent and `new` is inserted into that parent at the
      index `old` had in its own parent.  A climb that reaches the root
      changes nothing. */
  function ReplaceResult(root: Node, target: Path, repl: Node, until: Option<string>): Py<Node>
    requires ValidPath(root, target)
  {
    if target == [] then Throw
    else
      var q := if until.None? then target else AncestorWith(root, target, until.value);
      if q == [] then Ok(root)
      else
        ValidParent(root, q);
        var kids := At(root, Parent(q)).children;
        Ok(WithChildren(root, Parent(q), InsertClamped(RemoveAt(kids, Last(q)), Last(target), repl)))
  }

  /** `delete_node(ast, old, until)`: KeyError when `old` is the root or the
      `until` climb reaches the root; otherwise the element reached is
      removed from its parent. */
  function DeleteResult(root: Node, target: Path, until: Option<string>): Py<Node>
    requires ValidPath(root, target)
  {
    if target == [] then Throw
    else
      var q := if until.None? then target else AncestorWith(root, target, until.value);
      if q == [] then Throw
      else
        ValidParent(root, q);
        var kids := At(root, Parent(q)).children;
        Ok(WithChildren(root, Parent(q), RemoveAt(kids, Last(q))))
  }

  /** Rewriting the parent's child list at the parent is replacing the child. */
  lemma {:induction false} ReplaceThroughParent(n: Node, p: Path, m: Node)
    requires ValidPath(n, p) && p != []
    ensures ValidPath(n, Parent(p)) && Last(p) < |At(n, Parent(p)).children|
    ensures ReplaceAt(n, p, m) == WithChildren(n, Parent(p), At(n, Parent(p)).children[Last(p) := m])
    decreases |p|
  {
    ValidParent(n, p);
    if |p| > 1 {
      ReplaceThroughParent(n.children[p[0]], p[1..], m);
      assert Parent(p)[1..] == Parent(p[1..]);
    }
  }

  /** Without `until`, `replace_node` puts `new` where `old` was: the parent
      keeps its child count and every other child in order. */
  lemma ReplaceNoUntil(root: Node, target: Path, repl: Node)
    requires ValidPath(root, target) && target != []
    ensures ReplaceResult(root, target, repl, None) == Ok(ReplaceAt(root, target, repl))
    ensures ValidPath(root, Parent(target)) && ValidPath(ReplaceAt(root, target, repl), Parent(target))
    ensures var before := At(root, Parent(target)).children;
      var after := At(ReplaceAt(root, target, repl), Parent(target)).children;
      |after| == |before| && Last(target) < |before| && after[Last(target)] == repl
      && forall k :: 0 <= k < |before| && k != Last(target) ==> after[k] == before[k]
  {
    ReplaceThroughParent(root, target, repl);
    var kids := At(root, Parent(target)).children;
    RemoveInsertSame(kids, Last(target), repl);
    AtReplaced(root, Parent(target), At(root, Parent(target)).(children := kids[Last(target) := repl]));
  }

  /** With `until`, `replace_node` changes the child list of the parent of the
      ancestor it climbed to: the ancestor goes, and `new` is inserted at
      `old`'s own index.  When the climb reaches the root nothing changes. */
  lemma ReplaceUntil(root: Node, target: Path, repl: Node, tag: string)
    requires ValidPath(root, target) && target != []
    ensures var q := AncestorWith(root, target, tag);
      q == [] ==> ReplaceResult(root, target, repl, Some(tag)) == Ok(root)
    ensures var q := AncestorWith(root, target, tag);
      q != [] ==>
        ValidPath(root, Parent(q)) && Last(q) < |At(root, Parent(q)).children|
        && ReplaceResult(root, target, repl, Some(tag)).Ok?
        && var t := ReplaceResult(root, target, repl, Some(tag)).value;
        ValidPath(t, Parent(q))
        && At(t, Parent(q)).children == InsertClamped(RemoveAt(At(root, Parent(q)).children, Last(q)), Last(target), repl)
  {
    var q := AncestorWith(root, target, tag);
    if q != [] {
      ValidParent(root, q);
      var kids := At(root, Parent(q)).children;
      AtReplaced(root, Parent(q), At(root, Parent(q)).(children := InsertClamped(RemoveAt(kids, Last(q)), Last(target), repl)));
    }
  }

  /** `delete_node` removes exactly the element reached; its siblings keep
      their order, and the tree loses that element's subtree. */
  lemma DeleteEffect(root: Node, target: Path, until: Option<string>)
    requires ValidPath(root, target)
    ensures DeleteResult(root, target, until).Ok? <==>
      target != [] && (until.Some? ==> AncestorWith(root, target, until.value) != [])
    ensures DeleteResult(root, target, until).Ok? ==>
      var q := if until.None? then target else AncestorWith(root, target, until.value);
      var t := DeleteResult(root, target, until).value;
      ValidPath(root, Parent(q)) && Last(q) < |At(root, Parent(q)).children|
      && ValidPath(t, Parent(q))
      && At(t, Parent(q)).children == RemoveAt(At(root, Parent(q)).children, Last(q))
      && Size(t) == Size(root) - Size(At(root, q))
  {
    if DeleteResult(root, target, until).Ok? {
      var q := if until.None? then target else AncestorWith(root, target, until.value);
      ValidParent(root, q);
      var pq := Parent(q);
      var kids := At(root, pq).children;
      var m := At(root, pq).(children := RemoveAt(kids, Last(q)));
      AtReplaced(root, pq, m);
      CountReplaceAt(root, pq, m, Everything);
      CountSeqRemove(kids, Last(q), Everything);
    }
  }

  /** `replace_node` in place: climb with the `until` loop, then remove and
      insert in the parent's child list.  `ok` is false when Python raises. */
  method ReplaceNode(ast: Ast, target: Path, repl: Node, until: Option<string>) returns (ok: bool)
    requires ValidPath(ast.root, target)
    modifies ast
    ensures ok == ReplaceResult(old(ast.root), target, repl, until).Ok?
    ensures ast.root == if ok then ReplaceResult(old(ast.root), target, repl, until).value else old(ast.root)
  {
    if target == [] {
      return false;
    }
    var root := ast.root;
    var element := target;
    if until.Some? {
      while element != [] && At(root, element).tag != until.value
        invariant ast.root == root && ValidPath(root, element)
        invariant AncestorWith(root, element, until.value) == AncestorWith(root, target, until.value)
        decreases |element|
      {
        ValidParent(root, element);
        element := Parent(element);
      }
      assert element == AncestorWith(root, target, until.value);
    }
    if element != [] {
      ValidParent(root, element);
      var parent := Parent(element);
      var kids := At(root, parent).children;
      kids := RemoveAt(kids, Last(element));
      kids := InsertClamped(kids, Last(target), repl);
      ast.root := WithChildren(root, parent, kids);
    }
    ok := true;
  }

  /** `delete_node` in place; `ok` is false when Python raises. */
  method DeleteNode(ast: Ast, target: Path, until: Option<string>) returns (ok: bool)
    requires ValidPath(ast.root, target)
    modifies ast
    ensures ok == DeleteResult(old(ast.root), target, until).Ok?
    ensures ast.root == if ok then DeleteResult(old(ast.root), target, until).value else old(ast.root)
  {
    if target == [] {
      return false;
    }
    var root := ast.root;
    var element := target;
    if until.Some? {
      while At(root, element).tag != until.value
        invariant ast.root == root && ValidPath(root, element)
        invariant AncestorWith(root, element, until.value) == AncestorWith(root, target, until.value)
        decreases |element|
      {
        if element == [] {
          assert AncestorWith(root, target, until.value) == [];
          return false;
        }
        ValidParent(root, element);
        element := Parent(element);
      }
      assert element == AncestorWith(root, target, until.value);
    }
    if element == [] {
      return false;
    }
    ValidParent(root, element);
    var parent := Parent(element);
    var kids := At(root, parent).children;
    ast.root := WithChildren(root, parent, RemoveAt(kids, Last(element)));
    ok := true;
  }
}
