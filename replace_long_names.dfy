/** The renaming pass of modules/optimizations/replace_long_names.py: every
    variable or parameter whose name (without a leading `$`) is at least
    sixty characters long is renamed `deob_0`, `deob_1`, ... in order of
    first appearance, the same long name getting the same new name. */
module ReplaceLongNames {
  import opened Python
  import opened ElementTree
  import opened Rules

  /** `RENAME_THRESHOLD`: names shorter than this are kept. */
  const RenameThreshold: nat := 60

  /** `VAR_ATTRIB`: the attribute that holds the name, for the two tags
      that carry one. */
  function NameKey(tag: string): (r: Option<string>)
    ensures r.Some? <==> tag == "VariableExpressionAst" || tag == "ParameterAst"
  {
    if tag == "VariableExpressionAst" then Some("VariablePath")
    else if tag == "ParameterAst" then Some("Name")
    else None
  }

  /** The synthetic name `f"deob_{counter}"`. */
  function DeobName(k: nat): (r: string)
    ensures |r| == 5 + |IntToDecimal(k)| && r[..5] == "deob_" && r[0] == 'd'
  {
    "deob_" + IntToDecimal(k)
  }

  /** Different counters give different names. */
  lemma DeobNameInjective(a: nat, b: nat)
    ensures DeobName(a) == DeobName(b) ==> a == b
  {
    if DeobName(a) == DeobName(b) {
      assert IntToDecimal(a) == DeobName(a)[5..];
      assert IntToDecimal(b) == DeobName(b)[5..];
      ParseIntOfDecimal(a);
      ParseIntOfDecimal(b);
    }
  }

  function Pow10(d: nat): nat
  {
    if d == 0 then 1 else 10 * Pow10(d - 1)
  }

  /** A counter below `10^d` has at most `d` decimal digits. */
  lemma {:induction false} DecimalLength(n: nat, d: nat)
    requires 1 <= d && n < Pow10(d)
    ensures |IntToDecimal(n)| <= d
    decreases d
  {
    if n >= 10 {
      assert d >= 2;
      DecimalLength(n / 10, d - 1);
    }
  }

  /** What the loop does at one element: leave it (not a variable or
      parameter, or a short name), raise (KeyError on the name attribute,
      IndexError on `name[0]` of an empty name), or rename its long name. */
  datatype Look = Quiet | Broken | Long(key: string, dollar: bool, bare: string)

  function LookAt(n: Node): (r: Look)
    ensures r.Long? ==> NameKey(n.tag) == Some(r.key) && r.key in n.attrib && |r.bare| >= RenameThreshold
    ensures r.Long? ==> n.attrib[r.key] == (if r.dollar then "$" + r.bare else r.bare)
  {
    match NameKey(n.tag)
    case None => Quiet
    case Some(k) =>
      if k !in n.attrib || n.attrib[k] == [] then Broken
      else
        var name := n.attrib[k];
        var dollar := name[0] == '$';
        var bare := if dollar then name[1..] else name;
        assert dollar ==> name == "$" + bare;
        if |bare| < RenameThreshold then Quiet else Long(k, dollar, bare)
  }

  /** The loop's `var_mapping` and `counter`. */
  datatype Names = Names(mapping: map<string, string>, counter: nat)

  /** `if name not in var_mapping: var_mapping[name] = f"deob_{counter}"; counter += 1`. */
  function Assign(st: Names, bare: string): (r: Names)
    ensures bare in r.mapping
  {
    if bare in st.mapping then st else Names(st.mapping[bare := DeobName(st.counter)], st.counter + 1)
  }

  /** The new name, with the `$` put back when there was one. */
  function NewName(mapping: map<string, string>, dollar: bool, bare: string): string
    requires bare in mapping
  {
    if dollar then "$" + mapping[bare] else mapping[bare]
  }

  /** The element as the pass leaves it, given the final mapping: a long
      name is replaced, anything else is kept. */
  function Renamed(n: Node, mapping: map<string, string>): Node
  {
    match LookAt(n)
    case Long(k, dollar, bare) =>
      if bare in mapping then n.(attrib := n.attrib[k := NewName(mapping, dollar, bare)]) else n
    case _ => n
  }

  /** The mapping numbers the long names met so far: `counter` of them, with
      the distinct names `deob_0` ... `deob_{counter-1}`. */
  predicate Numbered(st: Names)
  {
    |st.mapping| == st.counter
    && (forall a :: a in st.mapping ==> |a| >= RenameThreshold)
    && (forall a :: a in st.mapping ==> exists k: nat :: k < st.counter && st.mapping[a] == DeobName(k))
    && (forall a, b :: a in st.mapping && b in st.mapping && a != b ==> st.mapping[a] != st.mapping[b])
  }

  /** The same element paths, whatever their contents. */
  ghost predicate SameShape(a: Node, b: Node)
  {
    forall q: Path :: ValidPath(a, q) <==> ValidPath(b, q)
  }

  lemma RelabelShape(root: Node, t: Node, p: Path, m: Node)
    requires SameShape(root, t) && ValidPath(t, p) && m.children == At(t, p).children
    ensures SameShape(root, ReplaceAt(t, p, m))
  {
    forall q: Path
      ensures ValidPath(root, q) <==> ValidPath(ReplaceAt(t, p, m), q)
    {
      ReplaceKeepingChildren(t, p, m, q);
    }
  }

  /** The state of the scan at its end, or an exception. */
  datatype Scan = Scanned(result: bool, tree: Node, names: Names) | ScanRaised

  /** The loop of `opt_long_variable_names` from visit `i` on, with the
      tree, the mapping and the `result` flag so far.  It reads each
      element as it is now, and writes the new name into it in place. */
  function LongFrom(root: Node, vs: seq<Visit>, i: nat, t: Node, st: Names, result: bool): (r: Scan)
    requires vs == Walk(root) && i <= |vs| && SameShape(root, t)
    ensures r.Scanned? ==> SameShape(root, r.tree)
    decreases |vs| - i
  {
    if i == |vs| then Scanned(result, t, st)
    else
      assert Locates(root, vs[i]);
      var p := vs[i].path;
      var n := At(t, p);
      match LookAt(n)
      case Quiet => LongFrom(root, vs, i + 1, t, st, result)
      case Broken => ScanRaised
      case Long(k, dollar, bare) =>
        var st2 := Assign(st, bare);
        var m := n.(attrib := n.attrib[k := NewName(st2.mapping, dollar, bare)]);
        RelabelShape(root, t, p, m);
        LongFrom(root, vs, i + 1, ReplaceAt(t, p, m), st2, true)
  }

  function LongScan(root: Node): Scan
  {
    LongFrom(root, Walk(root), 0, root, Names(map[], 0), false)
  }

  /** `opt_long_variable_names(ast)`. */
  function LongVariableNames(root: Node): Step
  {
    match LongScan(root)
    case Scanned(result, t, _) => Done(result, t)
    case ScanRaised => Raised
  }

  lemma LongFromQuiet(root: Node, vs: seq<Visit>, i: nat, t: Node, st: Names, result: bool)
    requires vs == Walk(root) && i < |vs| && SameShape(root, t) && ValidPath(t, vs[i].path)
    requires LookAt(At(t, vs[i].path)).Quiet?
    ensures LongFrom(root, vs, i, t, st, result) == LongFrom(root, vs, i + 1, t, st, result)
  {
  }

  lemma LongFromBroken(root: Node, vs: seq<Visit>, i: nat, t: Node, st: Names, result: bool)
    requires vs == Walk(root) && i < |vs| && SameShape(root, t) && ValidPath(t, vs[i].path)
    requires LookAt(At(t, vs[i].path)).Broken?
    ensures LongFrom(root, vs, i, t, st, result) == ScanRaised
  {
  }

  lemma LongFromLong(root: Node, vs: seq<Visit>, i: nat, t: Node, st: Names, result: bool, m: Node)
    requires vs == Walk(root) && i < |vs| && SameShape(root, t) && ValidPath(t, vs[i].path)
    requires LookAt(At(t, vs[i].path)).Long?
    requires var l := LookAt(At(t, vs[i].path));
      var n := At(t, vs[i].path);
      m == n.(attrib := n.attrib[l.key := NewName(Assign(st, l.bare).mapping, l.dollar, l.bare)])
    ensures SameShape(root, ReplaceAt(t, vs[i].path, m))
    ensures LongFrom(root, vs, i, t, st, result)
      == LongFrom(root, vs, i + 1, ReplaceAt(t, vs[i].path, m), Assign(st, LookAt(At(t, vs[i].path)).bare), true)
  {
    RelabelShape(root, t, vs[i].path, m);
  }

  method OptLongVariableNames(ast: Ast) returns (out: Outcome)
    modifies ast
    ensures StepOf(out, ast.root) == LongVariableNames(old(ast.root))
  {
    var root := ast.root;
    var vs := Walk(root);
    var counter := 0;
    var mapping: map<string, string> := map[];
    var result := false;
    var i := 0;
    while i < |vs|
      invariant 0 <= i <= |vs| && SameShape(root, ast.root) && root == old(ast.root)
      invariant LongFrom(root, vs, i, ast.root, Names(mapping, counter), result) == LongScan(root)
    {
      assert Locates(root, vs[i]);
      var p := vs[i].path;
      var n := At(ast.root, p);
      var key := NameKey(n.tag);
      if key.Some? {
        if key.value !in n.attrib {
          LongFromBroken(root, vs, i, ast.root, Names(mapping, counter), result);
          out := Raises;
          return;
        }
        var name := n.attrib[key.value];
        if name == [] {
          LongFromBroken(root, vs, i, ast.root, Names(mapping, counter), result);
          out := Raises;
          return;
        }
        var dollar := false;
        if name[0] == '$' {
          name := name[1..];
          dollar := true;
        }
        assert LookAt(n) == if |name| < RenameThreshold then Quiet else Long(key.value, dollar, name);
        if |name| >= RenameThreshold {
          ghost var st := Names(mapping, counter);
          if name !in mapping {
            mapping := mapping[name := DeobName(counter)];
            counter := counter + 1;
          }
          var newName := mapping[name];
          if dollar {
            newName := "$" + newName;
          }
          var m := n.(attrib := n.attrib[key.value := newName]);
          LongFromLong(root, vs, i, ast.root, st, result, m);
          ast.root := ReplaceAt(ast.root, p, m);
          result := true;
        } else {
          LongFromQuiet(root, vs, i, ast.root, Names(mapping, counter), result);
        }
      } else {
        LongFromQuiet(root, vs, i, ast.root, Names(mapping, counter), result);
      }
      i := i + 1;
    }
    out := Returned(result);
  }

  // ---------------------------------------------------------------- what the pass does

  /** Visit `j` looks, after `i` visits, as the pass leaves it (renamed) when
      it has been visited, and as it was otherwise. */
  ghost predicate HeadOk(vs: seq<Visit>, i: nat, t: Node, mapping: map<string, string>, j: nat)
    requires j < |vs|
  {
    ValidPath(t, vs[j].path) && Head(At(t, vs[j].path)) == Head(if j < i then Renamed(vs[j].node, mapping) else vs[j].node)
  }

  ghost predicate HeadsSoFar(vs: seq<Visit>, i: nat, t: Node, mapping: map<string, string>)
  {
    forall j: nat :: j < |vs| ==> HeadOk(vs, i, t, mapping, j)
  }

  /** Visit `j` did not raise, and its name is mapped when it is long. */
  predicate VisitOk(vs: seq<Visit>, j: nat, st: Names)
    requires j < |vs|
  {
    !LookAt(vs[j].node).Broken? && (LookAt(vs[j].node).Long? ==> LookAt(vs[j].node).bare in st.mapping)
  }

  /** Visit `j` has the long name `a`. */
  predicate LongAt(vs: seq<Visit>, j: nat, a: string)
    requires j < |vs|
  {
    LookAt(vs[j].node).Long? && LookAt(vs[j].node).bare == a
  }

  predicate SomeLong(vs: seq<Visit>, j: nat)
    requires j < |vs|
  {
    LookAt(vs[j].node).Long?
  }

  /** After `i` visits no visited element raised, every long name met is
      mapped and the mapping holds nothing else. */
  predicate SeenSoFar(vs: seq<Visit>, i: nat, st: Names)
    requires i <= |vs|
  {
    (forall j: nat :: j < i ==> VisitOk(vs, j, st))
    && (forall a :: a in st.mapping ==> exists j: nat :: j < i && LongAt(vs, j, a))
  }

  /** `result` says whether a long name was met in the first `i` visits. */
  predicate ResultSoFar(vs: seq<Visit>, i: nat, result: bool)
    requires i <= |vs|
  {
    result <==> exists j: nat :: j < i && SomeLong(vs, j)
  }

  lemma LookAtHead(a: Node, b: Node)
    requires Head(a) == Head(b)
    ensures LookAt(a) == LookAt(b)
  {
    assert a.tag == b.tag && a.attrib == b.attrib;
  }

  /** A growing mapping renames the elements already renamed the same way. */
  lemma RenamedStable(n: Node, st: Names, bare: string)
    requires LookAt(n).Long? ==> LookAt(n).bare in st.mapping
    ensures Renamed(n, Assign(st, bare).mapping) == Renamed(n, st.mapping)
  {
  }

  lemma NumberedAssign(st: Names, bare: string)
    requires Numbered(st) && |bare| >= RenameThreshold
    ensures Numbered(Assign(st, bare))
  {
    if bare !in st.mapping {
      AssignNumbers(st, bare);
      AssignInjective(st, bare);
    }
  }

  /** A fresh name takes the next number. */
  lemma AssignNumbers(st: Names, bare: string)
    requires Numbered(st) && bare !in st.mapping
    ensures var r := Assign(st, bare);
      forall a :: a in r.mapping ==> exists k: nat :: k < r.counter && r.mapping[a] == DeobName(k)
  {
    var r := Assign(st, bare);
    forall a | a in r.mapping
      ensures exists k: nat :: k < r.counter && r.mapping[a] == DeobName(k)
    {
      if a != bare {
        var k: nat :| k < st.counter && st.mapping[a] == DeobName(k);
        assert r.mapping[a] == DeobName(k);
      } else {
        assert r.mapping[a] == DeobName(st.counter);
      }
    }
  }

  /** A fresh name differs from every name handed out before. */
  lemma AssignInjective(st: Names, bare: string)
    requires Numbered(st) && bare !in st.mapping
    ensures var r := Assign(st, bare);
      forall a, b :: a in r.mapping && b in r.mapping && a != b ==> r.mapping[a] != r.mapping[b]
  {
    var r := Assign(st, bare);
    forall a, b | a in r.mapping && b in r.mapping && a != b
      ensures r.mapping[a] != r.mapping[b]
    {
      if a == bare || b == bare {
        var other := if a == bare then b else a;
        var k: nat :| k < st.counter && st.mapping[other] == DeobName(k);
        DeobNameInjective(k, st.counter);
      }
    }
  }

  lemma HeadsStart(root: Node)
    ensures HeadsSoFar(Walk(root), 0, root, map[])
  {
    var vs := Walk(root);
    var none: map<string, string> := map[];
    forall j: nat | j < |vs|
      ensures HeadOk(vs, 0, root, none, j)
    {
      assert Locates(root, vs[j]);
    }
  }

  /** The element the scan reads at visit `i` looks as it did originally. */
  lemma ReadsOriginal(vs: seq<Visit>, i: nat, t: Node, mapping: map<string, string>)
    requires i < |vs| && HeadsSoFar(vs, i, t, mapping)
    ensures ValidPath(t, vs[i].path) && LookAt(At(t, vs[i].path)) == LookAt(vs[i].node)
  {
    assert HeadOk(vs, i, t, mapping, i);
    LookAtHead(At(t, vs[i].path), vs[i].node);
  }

  lemma HeadsQuiet(vs: seq<Visit>, i: nat, t: Node, mapping: map<string, string>)
    requires i < |vs| && HeadsSoFar(vs, i, t, mapping) && !LookAt(vs[i].node).Long?
    ensures HeadsSoFar(vs, i + 1, t, mapping)
  {
    var next := i + 1;
    forall j: nat | j < |vs|
      ensures HeadOk(vs, next, t, mapping, j)
    {
      assert HeadOk(vs, i, t, mapping, j);
      if j == i {
        assert Renamed(vs[i].node, mapping) == vs[i].node;
      }
    }
  }

  /** Writing the new name into the element at visit `i` renames it and
      leaves every other visited element as it was. */
  lemma HeadsLong(root: Node, vs: seq<Visit>, i: nat, t: Node, st: Names)
    requires vs == Walk(root) && i < |vs| && HeadsSoFar(vs, i, t, st.mapping)
    requires forall j: nat :: j < i ==> VisitOk(vs, j, st)
    requires LookAt(vs[i].node).Long?
    ensures ValidPath(t, vs[i].path)
    ensures var n := At(t, vs[i].path);
      var l := LookAt(vs[i].node);
      var st2 := Assign(st, l.bare);
      var m := n.(attrib := n.attrib[l.key := NewName(st2.mapping, l.dollar, l.bare)]);
      HeadsSoFar(vs, i + 1, ReplaceAt(t, vs[i].path, m), st2.mapping)
  {
    assert HeadOk(vs, i, t, st.mapping, i);
    var p := vs[i].path;
    var n := At(t, p);
    var l := LookAt(vs[i].node);
    var st2 := Assign(st, l.bare);
    var m := n.(attrib := n.attrib[l.key := NewName(st2.mapping, l.dollar, l.bare)]);
    var t2 := ReplaceAt(t, p, m);
    WalkDistinct(root);
    AtReplaced(t, p, m);
    var next := i + 1;
    forall j: nat | j < |vs|
      ensures HeadOk(vs, next, t2, st2.mapping, j)
    {
      assert HeadOk(vs, i, t, st.mapping, j);
      ReplaceKeepingChildren(t, p, m, vs[j].path);
      if j < i {
        assert VisitOk(vs, j, st);
        RenamedStable(vs[j].node, st, l.bare);
      } else if j == i {
        assert Head(At(t2, p)) == Head(Renamed(vs[i].node, st2.mapping));
      } else {
        assert vs[j].path != p;
      }
    }
  }

  lemma SeenQuiet(vs: seq<Visit>, i: nat, st: Names)
    requires i < |vs| && SeenSoFar(vs, i, st) && LookAt(vs[i].node).Quiet?
    ensures SeenSoFar(vs, i + 1, st)
  {
    assert VisitOk(vs, i, st);
    forall a | a in st.mapping
      ensures exists j: nat :: j < i + 1 && LongAt(vs, j, a)
    {
      var j: nat :| j < i && LongAt(vs, j, a);
    }
  }

  lemma SeenLong(vs: seq<Visit>, i: nat, st: Names)
    requires i < |vs| && SeenSoFar(vs, i, st) && LookAt(vs[i].node).Long?
    ensures SeenSoFar(vs, i + 1, Assign(st, LookAt(vs[i].node).bare))
  {
    var bare := LookAt(vs[i].node).bare;
    var st2 := Assign(st, bare);
    var next := i + 1;
    forall j: nat | j < next
      ensures VisitOk(vs, j, st2)
    {
      if j < i {
        assert VisitOk(vs, j, st);
      }
    }
    forall a | a in st2.mapping
      ensures exists j: nat :: j < i + 1 && LongAt(vs, j, a)
    {
      if a != bare {
        assert a in st.mapping;
        var j: nat :| j < i && LongAt(vs, j, a);
      } else {
        assert LongAt(vs, i, a);
      }
    }
  }

  lemma ResultStep(vs: seq<Visit>, i: nat, result: bool)
    requires i < |vs| && ResultSoFar(vs, i, result)
    ensures ResultSoFar(vs, i + 1, result || LookAt(vs[i].node).Long?)
  {
    if LookAt(vs[i].node).Long? {
      assert SomeLong(vs, i);
    } else if exists j: nat :: j < i + 1 && SomeLong(vs, j) {
      var j: nat :| j < i + 1 && SomeLong(vs, j);
      assert j < i;
    }
  }

  /** The scan's invariant after `i` visits. */
  ghost predicate Progress(vs: seq<Visit>, i: nat, t: Node, st: Names, result: bool)
    requires i <= |vs|
  {
    HeadsSoFar(vs, i, t, st.mapping) && SeenSoFar(vs, i, st) && Numbered(st) && st.counter <= i
    && ResultSoFar(vs, i, result)
  }

  /** One visit of a scan that does not raise keeps the invariant. */
  lemma ProgressNext(root: Node, vs: seq<Visit>, i: nat, t: Node, st: Names, result: bool)
      returns (t2: Node, st2: Names, r2: bool)
    requires vs == Walk(root) && i < |vs| && SameShape(root, t)
    requires Progress(vs, i, t, st, result)
    requires LongFrom(root, vs, i, t, st, result).Scanned?
    ensures SameShape(root, t2) && Progress(vs, i + 1, t2, st2, r2)
    ensures LongFrom(root, vs, i, t, st, result) == LongFrom(root, vs, i + 1, t2, st2, r2)
  {
    ReadsOriginal(vs, i, t, st.mapping);
    ResultStep(vs, i, result);
    var p := vs[i].path;
    var n := At(t, p);
    match LookAt(n)
    case Quiet =>
      HeadsQuiet(vs, i, t, st.mapping);
      SeenQuiet(vs, i, st);
      t2, st2, r2 := t, st, result;
    case Long(k, dollar, bare) =>
      st2 := Assign(st, bare);
      var m := n.(attrib := n.attrib[k := NewName(st2.mapping, dollar, bare)]);
      RelabelShape(root, t, p, m);
      HeadsLong(root, vs, i, t, st);
      SeenLong(vs, i, st);
      NumberedAssign(st, bare);
      t2, r2 := ReplaceAt(t, p, m), true;
  }

  /** The invariant holds at the end of a scan that does not raise. */
  lemma {:induction false} ProgressEnd(root: Node, vs: seq<Visit>, i: nat, t: Node, st: Names, result: bool)
    requires vs == Walk(root) && i <= |vs| && SameShape(root, t)
    requires Progress(vs, i, t, st, result)
    requires LongFrom(root, vs, i, t, st, result).Scanned?
    ensures var s := LongFrom(root, vs, i, t, st, result);
      Progress(vs, |vs|, s.tree, s.names, s.result)
    decreases |vs| - i
  {
    if i < |vs| {
      var t2, st2, r2 := ProgressNext(root, vs, i, t, st, result);
      ProgressEnd(root, vs, i + 1, t2, st2, r2);
    }
  }

  /** The invariant at the end of the scan, over the visits. */
  lemma ScanProgress(root: Node)
    requires LongScan(root).Scanned?
    ensures var s := LongScan(root);
      SameShape(root, s.tree) && Progress(Walk(root), |Walk(root)|, s.tree, s.names, s.result)
  {
    HeadsStart(root);
    ProgressEnd(root, Walk(root), 0, root, Names(map[], 0), false);
  }

  /** The visit of the walk at path `q`. */
  lemma VisitOf(root: Node, q: Path) returns (j: nat)
    requires ValidPath(root, q)
    ensures j < |Walk(root)| && Walk(root)[j].path == q && Walk(root)[j].node == At(root, q)
  {
    WalkComplete(root, q);
    var k :| 0 <= k < |Walk(root)| && Walk(root)[k].path == q;
    assert Locates(root, Walk(root)[k]);
    j := k;
  }

  /** What the pass does to each element: the tree keeps its shape, and each
      element keeps its tag, text and attributes except that a long name is
      replaced through the final mapping, which holds every long name of the
      tree; no element raised. */
  lemma LongNamesRenamed(root: Node, q: Path)
    requires LongScan(root).Scanned? && ValidPath(root, q)
    ensures var s := LongScan(root);
      SameShape(root, s.tree)
      && Head(At(s.tree, q)) == Head(Renamed(At(root, q), s.names.mapping))
      && !LookAt(At(root, q)).Broken?
      && (LookAt(At(root, q)).Long? ==> LookAt(At(root, q)).bare in s.names.mapping)
  {
    var vs := Walk(root);
    var s := LongScan(root);
    ScanProgress(root);
    var j := VisitOf(root, q);
    assert HeadOk(vs, |vs|, s.tree, s.names.mapping, j);
    assert VisitOk(vs, j, s.names);
  }

  lemma ScanNumbered(root: Node)
    requires LongScan(root).Scanned?
    ensures Numbered(LongScan(root).names) && LongScan(root).names.counter <= |Walk(root)|
  {
    ScanProgress(root);
  }

  lemma ScanKeys(root: Node, a: string) returns (q: Path)
    requires LongScan(root).Scanned? && a in LongScan(root).names.mapping
    ensures ValidPath(root, q) && HasLongName(At(root, q), a)
  {
    ScanProgress(root);
    var vs := Walk(root);
    var j: nat :| j < |vs| && LongAt(vs, j, a);
    assert Locates(root, vs[j]);
    q := vs[j].path;
  }

  /** The element's name is the long name `a` (without its `$`). */
  predicate HasLongName(n: Node, a: string)
  {
    LookAt(n).Long? && LookAt(n).bare == a
  }

  /** The final mapping numbers the long names `deob_0`, `deob_1`, ...
      without repeats, and there are no more of them than elements. */
  lemma LongNamesNumbered(root: Node)
    requires LongScan(root).Scanned?
    ensures Numbered(LongScan(root).names) && LongScan(root).names.counter <= Size(root)
  {
    ScanNumbered(root);
    WalkSize(root);
  }

  /** The final mapping holds only long names of the tree. */
  lemma LongNamesMapped(root: Node, a: string)
    requires LongScan(root).Scanned? && a in LongScan(root).names.mapping
    ensures exists q: Path :: ValidPath(root, q) && HasLongName(At(root, q), a)
  {
    var q := ScanKeys(root, a);
  }

  /** The pass returns True exactly when the tree has a long name. */
  lemma LongNamesResult(root: Node)
    requires LongScan(root).Scanned?
    ensures LongScan(root).result <==> exists q :: ValidPath(root, q) && LookAt(At(root, q)).Long?
  {
    var vs := Walk(root);
    var s := LongScan(root);
    ScanProgress(root);
    if s.result {
      var j: nat :| j < |vs| && SomeLong(vs, j);
      assert Locates(root, vs[j]);
    }
    if exists q :: ValidPath(root, q) && LookAt(At(root, q)).Long? {
      var q :| ValidPath(root, q) && LookAt(At(root, q)).Long?;
      var j := VisitOf(root, q);
      assert SomeLong(vs, j);
    }
  }

  /** Two long names get the same new name exactly when they are the same
      name; a leading `$` is kept. */
  lemma RenamingConsistent(root: Node, q1: Path, q2: Path)
    requires LongScan(root).Scanned?
    requires ValidPath(root, q1) && ValidPath(root, q2)
    requires LookAt(At(root, q1)).Long? && LookAt(At(root, q2)).Long?
    ensures var s := LongScan(root);
      var l1 := LookAt(At(root, q1));
      var l2 := LookAt(At(root, q2));
      l1.bare in s.names.mapping && l2.bare in s.names.mapping
      && (s.names.mapping[l1.bare] == s.names.mapping[l2.bare] <==> l1.bare == l2.bare)
      && Head(At(s.tree, q1)) == Head(At(root, q1)).(attrib := At(root, q1).attrib[l1.key := NewName(s.names.mapping, l1.dollar, l1.bare)])
  {
    LongNamesRenamed(root, q1);
    LongNamesRenamed(root, q2);
    LongNamesNumbered(root);
  }

  /** A renamed name is short. */
  lemma RenamedQuiet(n: Node, mapping: map<string, string>, bound: nat)
    requires !LookAt(n).Broken?
    requires LookAt(n).Long? ==> LookAt(n).bare in mapping
    requires forall a :: a in mapping ==> exists k: nat :: k < bound && mapping[a] == DeobName(k)
    requires bound <= Pow10(54)
    ensures LookAt(Renamed(n, mapping)).Quiet?
  {
    match LookAt(n)
    case Quiet =>
    case Long(key, dollar, bare) =>
      var k: nat :| k < bound && mapping[bare] == DeobName(k);
      DecimalLength(k, 54);
      var r := Renamed(n, mapping);
      assert r.attrib[key] == NewName(mapping, dollar, bare);
      if dollar {
        assert r.attrib[key] == "$" + DeobName(k);
        assert r.attrib[key][1..] == DeobName(k);
      }
  }

  /** A scan in which no element is touched returns False on the same tree. */
  lemma {:induction false} QuietScan(root: Node, i: nat, st: Names)
    requires i <= |Walk(root)|
    requires forall j :: i <= j < |Walk(root)| ==> LookAt(Walk(root)[j].node).Quiet?
    ensures LongFrom(root, Walk(root), i, root, st, false) == Scanned(false, root, st)
    decreases |Walk(root)| - i
  {
    if i < |Walk(root)| {
      assert Locates(root, Walk(root)[i]);
      QuietScan(root, i + 1, st);
    }
  }

  /** Running the pass again on its own output renames nothing and returns
      False, as long as the tree has fewer than `10^54` elements (beyond
      that the synthetic names themselves reach sixty characters). */
  lemma LongNamesTwice(root: Node)
    requires LongScan(root).Scanned? && Size(root) <= Pow10(54)
    ensures var t := LongScan(root).tree;
      LongVariableNames(t) == Done(false, t)
  {
    var s := LongScan(root);
    var t := s.tree;
    LongNamesRenamed(root, []);
    LongNamesNumbered(root);
    var ws := Walk(t);
    forall j | 0 <= j < |ws|
      ensures LookAt(ws[j].node).Quiet?
    {
      assert Locates(t, ws[j]);
      var q := ws[j].path;
      assert ValidPath(root, q);
      LongNamesRenamed(root, q);
      RenamedQuiet(At(root, q), s.names.mapping, s.names.counter);
      LookAtHead(At(t, q), Renamed(At(root, q), s.names.mapping));
    }
    QuietScan(t, 0, Names(map[], 0));
  }
}
