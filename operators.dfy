/** The operator spelling table and the constant comparison of
    modules/operators.py. */
module Operators {
  import opened Python

  /** `OPS`: PowerShell spelling of each operator token kind. */
  const Ops: map<string, string> := map[
    "Minus" := " - ",
    "Plus" := " + ",
    "Multiply" := " * ",
    "Format" := " -f ",
    "Equals" := " = ",
    "PlusEquals" := " += ",
    "PostfixPlusPlus" := "++",
    "PostfixMinusMinus" := "--",
    "Is" := " -is ",
    "As" := " -as ",
    "Ieq" := " -eq ",
    "Ige" := " -ge ",
    "Igt" := " -gt ",
    "Ile" := " -le ",
    "Ilt" := " -lt ",
    "Ine" := " -ne ",
    "Bxor" := " -bxor ",
    "Ireplace" := " -replace ",
    "Join" := " -join ",
    "Imatch" := " -match ",
    "And" := " -and ",
    "Or" := " -or ",
    "DotDot" := ".."
  ]

  predicate IsComparison(op: string)
  {
    op == "Ieq" || op == "Ine" || op == "Ige" || op == "Igt" || op == "Ile" || op == "Ilt"
  }

  /** Python's `<` on two strings: code point by code point, a proper
      prefix before any longer string. */
  predicate StrLess(a: string, b: string)
  {
    if a == [] then b != []
    else if b == [] then false
    else if a[0] != b[0] then a[0] < b[0]
    else StrLess(a[1..], b[1..])
  }

  /** Both operands are numbers, or both are strings: the pairs Python can
      order. */
  predicate Orderable(a: PyValue, b: PyValue)
  {
    (a.PInt? && b.PInt?) || (a.PStr? && b.PStr?)
  }

  /** `a < b`: numbers by value, strings in code-point order; any other
      pair (`None` included) raises TypeError. */
  function PyLess(a: PyValue, b: PyValue): Py<bool>
  {
    if a.PInt? && b.PInt? then Ok(a.i < b.i)
    else if a.PStr? && b.PStr? then Ok(StrLess(a.s, b.s))
    else Throw
  }

  /** `a <= b`, with the same TypeError. */
  function PyLessEq(a: PyValue, b: PyValue): Py<bool>
  {
    if a.PInt? && b.PInt? then Ok(a.i <= b.i)
    else if a.PStr? && b.PStr? then Ok(StrLess(a.s, b.s) || a.s == b.s)
    else Throw
  }

  function Wrap(r: Py<bool>): Py<Option<bool>>
  {
    if r.Throw? then Throw else Ok(Some(r.value))
  }

  /** `do_const_comparison(a, b, operator)`: the six case-insensitive
      comparison operators on Python values, `None` for any other operator.
      Equality holds only between values of the same kind; ordering values
      of different kinds raises. */
  function DoConstComparison(a: PyValue, b: PyValue, op: string): (r: Py<Option<bool>>)
    ensures r == Ok(None) <==> !IsComparison(op)
    ensures r.Throw? <==> IsComparison(op) && op != "Ieq" && op != "Ine" && !Orderable(a, b)
  {
    if op == "Ieq" then Ok(Some(a == b))
    else if op == "Ine" then Ok(Some(a != b))
    else if op == "Ige" then Wrap(PyLessEq(b, a))
    else if op == "Igt" then Wrap(PyLess(b, a))
    else if op == "Ile" then Wrap(PyLessEq(a, b))
    else if op == "Ilt" then Wrap(PyLess(a, b))
    else Ok(None)
  }

  /** No string is below itself. */
  lemma {:induction false} StrLessIrreflexive(a: string)
    ensures !StrLess(a, a)
  {
    if a != [] {
      StrLessIrreflexive(a[1..]);
    }
  }

  /** String order is transitive. */
  lemma {:induction false} StrLessTransitive(a: string, b: string, c: string)
    requires StrLess(a, b) && StrLess(b, c)
    ensures StrLess(a, c)
  {
    if a != [] && b != [] && c != [] && a[0] == b[0] && b[0] == c[0] {
      StrLessTransitive(a[1..], b[1..], c[1..]);
    }
  }

  /** Two strings are equal or one is below the other, and only one of the
      three holds. */
  lemma {:induction false} StrTrichotomy(a: string, b: string)
    ensures (if StrLess(a, b) then 1 else 0) + (if a == b then 1 else 0) + (if StrLess(b, a) then 1 else 0) == 1
  {
    if a != [] && b != [] && a[0] == b[0] {
      StrTrichotomy(a[1..], b[1..]);
      assert a == [a[0]] + a[1..] && b == [b[0]] + b[1..];
    }
  }

  /** `-eq` and `-ne` never raise, and `-ne` is the negation of `-eq`. */
  lemma IneIsNotIeq(a: PyValue, b: PyValue)
    ensures DoConstComparison(a, b, "Ieq").Ok? && DoConstComparison(a, b, "Ine").Ok?
    ensures DoConstComparison(a, b, "Ine").value.value == !DoConstComparison(a, b, "Ieq").value.value
  {
  }

  /** `-gt` and `-ge` are `-lt` and `-le` with the operands swapped,
      raising for the same pairs. */
  lemma StrictAndLaxSwap(a: PyValue, b: PyValue)
    ensures DoConstComparison(a, b, "Igt") == DoConstComparison(b, a, "Ilt")
    ensures DoConstComparison(a, b, "Ige") == DoConstComparison(b, a, "Ile")
  {
  }

  /** On values Python can order, `-le` is `-lt` or `-eq`, and `-ge` is the
      negation of `-lt`. */
  lemma LaxIsStrictOrEqual(a: PyValue, b: PyValue)
    requires Orderable(a, b)
    ensures DoConstComparison(a, b, "Ile").value.value
      == (DoConstComparison(a, b, "Ilt").value.value || DoConstComparison(a, b, "Ieq").value.value)
    ensures DoConstComparison(a, b, "Ige").value.value == !DoConstComparison(a, b, "Ilt").value.value
  {
    if a.PStr? {
      StrTrichotomy(a.s, b.s);
    }
  }

  /** On values Python can order, exactly one of `-lt`, `-eq`, `-gt`
      holds. */
  lemma Trichotomy(a: PyValue, b: PyValue)
    requires Orderable(a, b)
    ensures (if DoConstComparison(a, b, "Ilt").value.value then 1 else 0)
      + (if DoConstComparison(a, b, "Ieq").value.value then 1 else 0)
      + (if DoConstComparison(a, b, "Igt").value.value then 1 else 0) == 1
  {
    if a.PStr? {
      StrTrichotomy(a.s, b.s);
    }
  }

  /** `-lt` is transitive. */
  lemma LessTransitive(a: PyValue, b: PyValue, c: PyValue)
    requires DoConstComparison(a, b, "Ilt") == Ok(Some(true)) && DoConstComparison(b, c, "Ilt") == Ok(Some(true))
    ensures DoConstComparison(a, c, "Ilt") == Ok(Some(true))
  {
    if a.PStr? {
      StrLessTransitive(a.s, b.s, c.s);
    }
  }

  /** Some values as Python compares them: a number never equals its
      spelling, ordering the two raises, and strings order by their first
      differing code point, a prefix first. */
  lemma ComparisonExamples()
    ensures DoConstComparison(PInt(1), PStr("1"), "Ieq") == Ok(Some(false))
    ensures DoConstComparison(PInt(1), PStr("1"), "Ilt") == Throw
    ensures DoConstComparison(PNone, PNone, "Ile") == Throw
    ensures DoConstComparison(PStr("abc"), PStr("abd"), "Ilt") == Ok(Some(true))
    ensures DoConstComparison(PStr("ab"), PStr("abc"), "Igt") == Ok(Some(false))
    ensures DoConstComparison(PStr("B"), PStr("a"), "Ilt") == Ok(Some(true))
  {
    assert StrLess("abc", "abd") by {
      assert "abc"[1..] == "bc" && "abd"[1..] == "bd";
      assert "bc"[1..] == "c" && "bd"[1..] == "d";
    }
    assert !StrLess("abc", "ab") by {
      assert "abc"[1..] == "bc" && "ab"[1..] == "b";
      assert "bc"[1..] == "c" && "b"[1..] == "";
    }
  }

  predicate Spaced(s: string)
  {
    |s| >= 3 && s[0] == ' ' && s[|s| - 1] == ' '
  }

  /** Infix operators are spelled with a space on each side; the postfix
      increments and the range operator without. */
  lemma OpsSpacing()
    ensures forall op :: op in Ops && op != "PostfixPlusPlus" && op != "PostfixMinusMinus" && op != "DotDot" ==> Spaced(Ops[op])
    ensures Ops["PostfixPlusPlus"] == "++" && Ops["PostfixMinusMinus"] == "--" && Ops["DotDot"] == ".."
  {
  }
}
