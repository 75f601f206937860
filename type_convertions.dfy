/** The cast rules of modules/optimizations/type_convertions.py.  Each looks
    at `ConvertExpressionAst` elements (a `[type]value` cast), reads the
    lower-cased type name of their `TypeConstraintAst` child, and replaces
    the cast by the value it denotes. */
module TypeConvertions {
  import opened Python
  import opened ElementTree
  import opened Utils
  import opened Rules

  /** `node.find("TypeConstraintAst")` followed by `.attrib["TypeName"].lower()`:
      no constraint gives None, a constraint without the attribute raises
      KeyError. */
  function TypeName(n: Node): (r: Py<Option<string>>)
    ensures r.Throw? <==> Find(n, "TypeConstraintAst").Some? && "TypeName" !in Find(n, "TypeConstraintAst").value.attrib
    ensures r.Ok? && r.value.Some? ==>
      Find(n, "TypeConstraintAst").Some?
      && r.value.value == Lower(Find(n, "TypeConstraintAst").value.attrib["TypeName"])
  {
    match Find(n, "TypeConstraintAst")
    case None => Ok(None)
    case Some(c) => if "TypeName" in c.attrib then Ok(Some(Lower(c.attrib["TypeName"]))) else Throw
  }

  /** The index of the child `find` returns. */
  function FoundIndex(n: Node, tag: string): (k: nat)
    requires Find(n, tag).Some?
    ensures k < |n.children| && n.children[k] == Find(n, tag).value
  {
    FirstWithTag(n.children, tag)
  }

  // ---------------------------------------------------------------- opt_convert_type_to_type

  /** `[type]"name"` becomes the bare word `[name]`; a string constant
      without text raises TypeError on the concatenation. */
  function TypeVerdict(n: Node): Verdict
  {
    if n.tag != "ConvertExpressionAst" then Skip
    else
      match TypeName(n)
      case Throw => Act(Fail)
      case Ok(name) =>
        if name != Some("type") then Skip
        else
          match Find(n, "StringConstantExpressionAst")
          case None => Skip
          case Some(c) =>
            if c.text.None? then Act(Fail)
            else Act(Replace(ConstantString("[" + c.text.value + "]", "BareWord")))
  }

  /** `opt_convert_type_to_type(ast)`; its loop falls off the end returning
      None, which is falsy like False. */
  function ConvertTypeToType(root: Node): Step
  {
    FirstMatch(root, TypeVerdict)
  }

  method OptConvertTypeToType(ast: Ast) returns (out: Outcome)
    modifies ast
    ensures StepOf(out, ast.root) == ConvertTypeToType(old(ast.root))
  {
    out := ApplyFirst(ast, TypeVerdict);
  }

  /** What the bare word reads back as: the bracketed type name. */
  predicate Bracketed(word: string, name: string)
  {
    |word| == |name| + 2 && word[0] == '[' && word[|word| - 1] == ']' && word[1..|word| - 1] == name
  }

  /** On success the first `[type]` cast of a string is replaced by a bare
      word that is that string in brackets, and the tree shrinks. */
  lemma TypeEffect(root: Node, t: Node)
    requires ConvertTypeToType(root) == Done(true, t)
    ensures var vs := Walk(root); var k := FirstAct(vs, TypeVerdict);
      k < |vs| && vs[k].path != []
      && var n := vs[k].node;
      n.tag == "ConvertExpressionAst" && TypeName(n) == Ok(Some("type"))
      && Find(n, "StringConstantExpressionAst").Some?
      && var name := Find(n, "StringConstantExpressionAst").value.text;
      name.Some?
      && exists word: string ::
        Bracketed(word, name.value) && t == ReplaceAt(root, vs[k].path, ConstantString(word, "BareWord"))
    ensures Size(t) < Size(root)
  {
    FirstMatchAt(root, TypeVerdict);
    var vs := Walk(root);
    var k := FirstAct(vs, TypeVerdict);
    assert Locates(root, vs[k]);
    var n := vs[k].node;
    var m := TypeVerdict(n).action.repl;
    ReplaceByLeafShrinks(root, vs[k].path, m);
    var name := Find(n, "StringConstantExpressionAst").value.text.value;
    var word := "[" + name + "]";
    assert word[1..|word| - 1] == name;
    assert Bracketed(word, name);
  }

  // ---------------------------------------------------------------- opt_convert_type_to_string

  /** The text a `[string]$name` cast becomes: the known value of an
      automatic variable, when the table has one, or else the variable's
      name itself. */
  function SpecialValue(values: map<string, Option<string>>, name: string): (r: string)
    ensures Lower(name) in values && values[Lower(name)].Some? ==> r == values[Lower(name)].value
    ensures !(Lower(name) in values && values[Lower(name)].Some?) ==> r == name
  {
    if Lower(name) in values && values[Lower(name)].Some? then values[Lower(name)].value else name
  }

  /** `[string]$v` becomes a double-quoted string; otherwise `[string]"s"`
      becomes the string constant itself. */
  function StringVerdict(values: map<string, Option<string>>, n: Node): Verdict
  {
    if n.tag != "ConvertExpressionAst" then Skip
    else
      match TypeName(n)
      case Throw => Act(Fail)
      case Ok(name) =>
        if name != Some("string") then Skip
        else
          match Find(n, "VariableExpressionAst")
          case Some(v) =>
            if "VariablePath" !in v.attrib then Act(Fail)
            else Act(Replace(ConstantString(SpecialValue(values, v.attrib["VariablePath"]), "DoubleQuoted")))
          case None =>
            match Find(n, "StringConstantExpressionAst")
            case Some(c) => Act(Replace(c))
            case None => Skip
  }

  function StringRule(values: map<string, Option<string>>): Node -> Verdict
  {
    n => StringVerdict(values, n)
  }

  /** `opt_convert_type_to_string(ast)`, with `SPECIAL_VARS_VALUES` given. */
  function ConvertTypeToString(tables: Tables, root: Node): Step
  {
    FirstMatch(root, StringRule(tables.specialValues))
  }

  method OptConvertTypeToString(tables: Tables, ast: Ast) returns (out: Outcome)
    modifies ast
    ensures StepOf(out, ast.root) == ConvertTypeToString(tables, old(ast.root))
  {
    out := ApplyFirst(ast, StringRule(tables.specialValues));
  }

  /** A `[string]` cast with neither a variable nor a string constant is
      passed over, as is every cast to another type. */
  lemma StringSkips(values: map<string, Option<string>>, n: Node)
    requires n.tag == "ConvertExpressionAst" && TypeName(n).Ok?
    requires TypeName(n).value != Some("string")
      || (Find(n, "VariableExpressionAst").None? && Find(n, "StringConstantExpressionAst").None?)
    ensures StringVerdict(values, n) == Skip
  {
  }

  /** On success the first accepted `[string]` cast is replaced either by a
      double-quoted string holding its variable's known value (or name), or,
      when it casts no variable, by its string constant child; the tree
      shrinks either way. */
  lemma StringEffect(tables: Tables, root: Node, t: Node)
    requires ConvertTypeToString(tables, root) == Done(true, t)
    ensures var vs := Walk(root); var k := FirstAct(vs, StringRule(tables.specialValues));
      k < |vs| && vs[k].path != []
      && var n := vs[k].node;
      n.tag == "ConvertExpressionAst" && TypeName(n) == Ok(Some("string"))
      && match Find(n, "VariableExpressionAst")
         case Some(v) =>
           "VariablePath" in v.attrib
           && t == ReplaceAt(root, vs[k].path, ConstantString(SpecialValue(tables.specialValues, v.attrib["VariablePath"]), "DoubleQuoted"))
         case None =>
           Find(n, "StringConstantExpressionAst").Some?
           && t == ReplaceAt(root, vs[k].path, Find(n, "StringConstantExpressionAst").value)
    ensures Size(t) < Size(root)
  {
    var cls := StringRule(tables.specialValues);
    FirstMatchAt(root, cls);
    var vs := Walk(root);
    var k := FirstAct(vs, cls);
    assert Locates(root, vs[k]);
    var n := vs[k].node;
    assert cls(n) == StringVerdict(tables.specialValues, n);
    var m := StringVerdict(tables.specialValues, n).action.repl;
    if Find(n, "VariableExpressionAst").Some? {
      ReplaceByLeafShrinks(root, vs[k].path, m);
    } else {
      var i := FoundIndex(n, "StringConstantExpressionAst");
      ReplaceByChildShrinks(root, vs[k].path, i);
      PerformReplaceSize(root, vs[k].path, Replace(m));
    }
  }

  // ---------------------------------------------------------------- opt_convert_type_to_char

  /** `[char]n` on an integer constant becomes the one-character string
      `chr(int(text))`; a constant without StaticType raises KeyError, a
      missing or non-decimal text raises from `int`, an out-of-range code
      point raises from `chr`. */
  function CharVerdict(n: Node): Verdict
  {
    if n.tag != "ConvertExpressionAst" then Skip
    else
      match TypeName(n)
      case Throw => Act(Fail)
      case Ok(name) =>
        if name != Some("char") then Skip
        else
          match Find(n, "ConstantExpressionAst")
          case None => Skip
          case Some(c) =>
            if "StaticType" !in c.attrib then Act(Fail)
            else if c.attrib["StaticType"] != "int" then Skip
            else if c.text.None? then Act(Fail)
            else
              match ParseInt(c.text.value)
              case None => Act(Fail)
              case Some(code) =>
                match Chr(code)
                case Throw => Act(Fail)
                case Ok(ch) => Act(Replace(ConstantString([ch], "SingleQuoted")))
  }

  /** `opt_convert_type_to_char(ast)`. */
  function ConvertTypeToChar(root: Node): Step
  {
    FirstMatch(root, CharVerdict)
  }

  method OptConvertTypeToChar(ast: Ast) returns (out: Outcome)
    modifies ast
    ensures StepOf(out, ast.root) == ConvertTypeToChar(old(ast.root))
  {
    out := ApplyFirst(ast, CharVerdict);
  }

  /** The cast of an integer constant whose text is the decimal form of a
      code point becomes the single character with that code point. */
  lemma CharOfDecimal(n: Node, code: int)
    requires 0 <= code < 0xD800 || 0xE000 <= code <= 0x10FFFF
    requires n.tag == "ConvertExpressionAst" && TypeName(n) == Ok(Some("char"))
    requires Find(n, "ConstantExpressionAst").Some?
    requires var c := Find(n, "ConstantExpressionAst").value;
      c.attrib == map["StaticType" := "int"] && c.text == Some(IntToDecimal(code))
    ensures CharVerdict(n).Act? && CharVerdict(n).action.Replace?
    ensures var m := CharVerdict(n).action.repl;
      m.tag == "StringConstantExpressionAst" && m.text.Some? && |m.text.value| == 1 && m.text.value[0] as int == code
  {
    ParseIntOfDecimal(code);
  }

  /** On success the first accepted `[char]` cast is replaced by a
      one-character string whose code point is the integer's value. */
  lemma CharEffect(root: Node, t: Node)
    requires ConvertTypeToChar(root) == Done(true, t)
    ensures var vs := Walk(root); var k := FirstAct(vs, CharVerdict);
      k < |vs| && vs[k].path != []
      && var n := vs[k].node;
      n.tag == "ConvertExpressionAst" && TypeName(n) == Ok(Some("char"))
      && Find(n, "ConstantExpressionAst").Some?
      && var c := Find(n, "ConstantExpressionAst").value;
      "StaticType" in c.attrib && c.attrib["StaticType"] == "int" && c.text.Some?
      && ParseInt(c.text.value).Some?
      && exists ch: char ::
        ch as int == ParseInt(c.text.value).value
        && t == ReplaceAt(root, vs[k].path, ConstantString([ch], "SingleQuoted"))
    ensures Size(t) < Size(root)
  {
    FirstMatchAt(root, CharVerdict);
    var vs := Walk(root);
    var k := FirstAct(vs, CharVerdict);
    assert Locates(root, vs[k]);
    var n := vs[k].node;
    var m := CharVerdict(n).action.repl;
    ReplaceByLeafShrinks(root, vs[k].path, m);
    var ch := m.text.value[0];
    assert m == ConstantString([ch], "SingleQuoted");
  }

  // ---------------------------------------------------------------- opt_convert_type_to_array

  /** The characters of a string as one-character string values. */
  function Chars(s: string): (r: seq<PyValue>)
    ensures |r| == |s| && forall k :: 0 <= k < |s| ==> r[k] == PStr([s[k]])
  {
    seq(|s|, k requires 0 <= k < |s| => PStr([s[k]]))
  }

  /** `[array]"s"` becomes the string constant; `[char[]]"s"` becomes the
      array literal of its characters, and raises TypeError when the
      constant has no text. */
  function ArrayVerdict(n: Node): Verdict
  {
    if n.tag != "ConvertExpressionAst" then Skip
    else
      match TypeName(n)
      case Throw => Act(Fail)
      case Ok(name) =>
        if name == Some("array") then
          match Find(n, "StringConstantExpressionAst")
          case None => Skip
          case Some(c) => Act(Replace(c))
        else if name == Some("char[]") then
          match Find(n, "StringConstantExpressionAst")
          case None => Skip
          case Some(c) =>
            if c.text.None? then Act(Fail)
            else Act(Replace(ArrayLiteralOf(Chars(c.text.value), "SingleQuoted")))
        else Skip
  }

  /** Reading back the array a `[char[]]` cast builds gives the characters
      of the string, and joining them gives the string again. */
  lemma CharArrayRoundTrip(s: string)
    ensures ArrayLiteralValues(Some(ArrayLiteralOf(Chars(s), "SingleQuoted"))) == Ok(Some(Chars(s)))
    ensures Join("", seq(|s|, k requires 0 <= k < |s| => [s[k]])) == s
  {
    ArrayLiteralRoundTrip(Chars(s), "SingleQuoted");
    assert Strs(Chars(s)) == Chars(s);
    JoinChars(s);
  }

  lemma {:induction false} JoinChars(s: string)
    ensures Join("", seq(|s|, k requires 0 <= k < |s| => [s[k]])) == s
    decreases |s|
  {
    var parts := seq(|s|, k requires 0 <= k < |s| => [s[k]]);
    if |s| > 1 {
      JoinChars(s[1..]);
      assert parts[1..] == seq(|s[1..]|, k requires 0 <= k < |s[1..]| => [s[1..][k]]);
      assert s == [s[0]] + s[1..];
    } else if |s| == 1 {
      assert parts[0] == s;
    }
  }

  /** Whether `p` lies strictly below one of the elements already replaced:
      such an element has been cut out of the tree. */
  predicate Detached(p: Path, done: seq<Path>)
  {
    exists j :: 0 <= j < |done| && IsPrefix(done[j], p) && |done[j]| < |p|
  }

  /** Every element of the original tree that has not been cut out is
      still reachable in the edited tree by the same path. */
  ghost predicate Tracks(root: Node, t: Node, done: seq<Path>)
  {
    forall q: Path :: ValidPath(root, q) && !Detached(q, done) ==> ValidPath(t, q)
  }

  lemma DetachedGrows(q: Path, done: seq<Path>, p: Path)
    ensures Detached(q, done) ==> Detached(q, done + [p])
  {
    if Detached(q, done) {
      var j :| 0 <= j < |done| && IsPrefix(done[j], q) && |done[j]| < |q|;
      assert (done + [p])[j] == done[j];
    }
  }

  lemma TracksStep(root: Node, t: Node, done: seq<Path>, p: Path, m: Node)
    requires Tracks(root, t, done) && ValidPath(t, p)
    ensures Tracks(root, ReplaceAt(t, p, m), done + [p])
  {
    forall q: Path | ValidPath(root, q) && !Detached(q, done + [p])
      ensures ValidPath(ReplaceAt(t, p, m), q)
    {
      DetachedGrows(q, done, p);
      assert (done + [p])[|done|] == p;
      ValidAfterReplace(t, p, m, q);
    }
  }

  /** The loop of `opt_convert_type_to_array` from visit `i` on.  It walks
      the elements of the tree as it was when the loop started, keeps going
      after every replacement and never returns a value.  `t` is the tree so
      far and `done` the paths replaced; a cast found inside an element
      already replaced is no longer in the tree, so `replace_node` raises
      KeyError on it. */
  function ArrayFrom(root: Node, vs: seq<Visit>, i: nat, t: Node, done: seq<Path>): (r: Step)
    requires vs == Walk(root) && i <= |vs| && Tracks(root, t, done)
    ensures r.Done? ==> !r.truthy
    decreases |vs| - i
  {
    if i == |vs| then Done(false, t)
    else
      match ArrayVerdict(vs[i].node)
      case Skip => ArrayFrom(root, vs, i + 1, t, done)
      case Act(a) =>
        if !a.Replace? || Detached(vs[i].path, done) then Raised
        else
          assert Locates(root, vs[i]);
          var p := vs[i].path;
          match ReplaceResult(t, p, a.repl, None)
          case Throw => Raised
          case Ok(t2) =>
            ReplaceNoUntil(t, p, a.repl);
            TracksStep(root, t, done, p, a.repl);
            ArrayFrom(root, vs, i + 1, t2, done + [p])
  }

  /** `opt_convert_type_to_array(ast)`: False-like (None) whatever it did. */
  function ConvertTypeToArray(root: Node): Step
  {
    ArrayFrom(root, Walk(root), 0, root, [])
  }

  /** `opt_convert_type_to_array(ast)` in place: every cast of a string to
      `[array]` or `[char[]]` met on the walk is replaced; `done` lists the
      elements already replaced, which `replace_node` no longer finds. */
  method OptConvertTypeToArray(ast: Ast) returns (out: Outcome)
    modifies ast
    ensures StepOf(out, ast.root) == ConvertTypeToArray(old(ast.root))
  {
    ghost var root := ast.root;
    var vs := Walk(ast.root);
    var done: seq<Path> := [];
    var i := 0;
    TracksStart(root);
    while i < |vs|
      invariant root == old(ast.root) && vs == Walk(root) && i <= |vs|
      invariant Tracks(root, ast.root, done)
      invariant ArrayFrom(root, vs, i, ast.root, done) == ConvertTypeToArray(root)
      decreases |vs| - i
    {
      var verdict := ArrayVerdict(vs[i].node);
      if verdict.Act? {
        var p := vs[i].path;
        if !verdict.action.Replace? || Detached(p, done) {
          out := Raises;
          return;
        }
        assert Locates(root, vs[i]);
        ghost var t := ast.root;
        var ok := ReplaceNode(ast, p, verdict.action.repl, None);
        if !ok {
          out := Raises;
          return;
        }
        ReplaceNoUntil(t, p, verdict.action.repl);
        TracksStep(root, t, done, p, verdict.action.repl);
        done := done + [p];
      }
      i := i + 1;
    }
    out := Returned(false);
  }

  /** A tree without `[array]` or `[char[]]` casts of strings is left alone. */
  lemma {:induction false} ArrayFromUnchanged(root: Node, i: nat, t: Node, done: seq<Path>)
    requires i <= |Walk(root)| && Tracks(root, t, done)
    requires forall j :: i <= j < |Walk(root)| ==> ArrayVerdict(Walk(root)[j].node).Skip?
    ensures ArrayFrom(root, Walk(root), i, t, done) == Done(false, t)
    decreases |Walk(root)| - i
  {
    if i < |Walk(root)| {
      ArrayFromUnchanged(root, i + 1, t, done);
    }
  }

  lemma ArrayUnchanged(root: Node)
    requires forall j :: 0 <= j < |Walk(root)| ==> ArrayVerdict(Walk(root)[j].node).Skip?
    ensures ConvertTypeToArray(root) == Done(false, root)
  {
    ArrayFromUnchanged(root, 0, root, []);
  }

  /** Visits the classifier passes over change nothing. */
  lemma {:induction false} ArrayFromSkips(root: Node, i: nat, k: nat, t: Node, done: seq<Path>)
    requires i <= k <= |Walk(root)| && Tracks(root, t, done)
    requires forall j :: i <= j < k ==> ArrayVerdict(Walk(root)[j].node).Skip?
    ensures ArrayFrom(root, Walk(root), i, t, done) == ArrayFrom(root, Walk(root), k, t, done)
    decreases k - i
  {
    if i < k {
      ArrayFromSkips(root, i + 1, k, t, done);
    }
  }

  /** A replacement at a visit still in the tree continues the scan on the
      edited tree. */
  lemma ArrayFromRewrite(root: Node, k: nat, t: Node, done: seq<Path>)
    requires k < |Walk(root)| && Walk(root)[k].path != [] && Tracks(root, t, done)
    requires ArrayVerdict(Walk(root)[k].node).Act? && ArrayVerdict(Walk(root)[k].node).action.Replace?
    requires !Detached(Walk(root)[k].path, done)
    ensures ValidPath(root, Walk(root)[k].path) && ValidPath(t, Walk(root)[k].path)
    ensures var p := Walk(root)[k].path;
      var m := ArrayVerdict(Walk(root)[k].node).action.repl;
      Tracks(root, ReplaceAt(t, p, m), done + [p])
      && ArrayFrom(root, Walk(root), k, t, done) == ArrayFrom(root, Walk(root), k + 1, ReplaceAt(t, p, m), done + [p])
  {
    var vs := Walk(root);
    assert Locates(root, vs[k]);
    var p := vs[k].path;
    var m := ArrayVerdict(vs[k].node).action.repl;
    ReplaceNoUntil(t, p, m);
    TracksStep(root, t, done, p, m);
  }

  /** The rule reports False even when it rewrote the tree: a script with a
      single `[array]` or `[char[]]` cast of a string, below the root, comes
      back changed, with a falsy return value. */
  lemma ArrayChangesSilently(root: Node, k: nat)
    requires k < |Walk(root)| && Walk(root)[k].path != []
    requires forall j :: 0 <= j < |Walk(root)| && j != k ==> ArrayVerdict(Walk(root)[j].node).Skip?
    requires ArrayVerdict(Walk(root)[k].node).Act? && ArrayVerdict(Walk(root)[k].node).action.Replace?
    ensures var vs := Walk(root);
      var m := ArrayVerdict(vs[k].node).action.repl;
      ConvertTypeToArray(root) == Done(false, ReplaceAt(root, vs[k].path, m))
      && ReplaceAt(root, vs[k].path, m) != root
  {
    var vs := Walk(root);
    var p := vs[k].path;
    var m := ArrayVerdict(vs[k].node).action.repl;
    TracksStart(root);
    ArrayFromSkips(root, 0, k, root, []);
    assert ConvertTypeToArray(root) == ArrayFrom(root, vs, k, root, []);
    assert !Detached(p, []);
    ArrayFromRewrite(root, k, root, []);
    var t := ReplaceAt(root, p, m);
    assert [] + [p] == [p];
    assert ConvertTypeToArray(root) == ArrayFrom(root, vs, k + 1, t, [p]);
    ArrayFromUnchanged(root, k + 1, t, [p]);
    AtReplaced(root, p, m);
    assert Locates(root, vs[k]);
    ArrayReplacementDiffers(vs[k].node);
    assert At(t, p) != At(root, p);
  }

  lemma TracksStart(root: Node)
    ensures Tracks(root, root, [])
  {
  }

  /** What a cast is replaced by is never the cast itself. */
  lemma ArrayReplacementDiffers(n: Node)
    requires ArrayVerdict(n).Act? && ArrayVerdict(n).action.Replace?
    ensures ArrayVerdict(n).action.repl.tag != n.tag
  {
  }
}
