# deobshell core in Dafny

deobshell deobfuscates PowerShell scripts. An external step parses the
script into an XML tree of PowerShell AST elements (an ElementTree:
elements with a tag, an attribute dictionary, optional text and an ordered
list of children). The core works on that tree in three stages:

- it simplifies the tree with a catalog of rewrite rules, each of which
  looks for its first match in document order, changes the tree once and
  reports whether it did;
- a driver runs the catalog pass after pass until a pass changes nothing
  (the fixed point);
- a printer writes the tree back as PowerShell text, indented, with string
  constants escaped.

This project models that core and proves properties of the model:

- **Tree.** An element is the value `Node(tag, attrib, text, children)`, and
  an element's identity is its path of child indexes from the root.
  `ElementTree.Ast` is the mutable document whose `root` the rules
  reassign. `Walk` is `ast.iter()`: the pre-order list of every element
  with its path and parent.
- **Exceptions.** Python exceptions are values and are never excluded by a
  precondition: `Py<T>` (`Ok`/`Throw`) for helpers, and
  `Step = Done(truthy, tree) | Raised` for a rule.
- **Rules.** Every rule is a method over the `Ast`, proved equal to a
  specification function over the tree. A first-match rule is a
  classifier (element → skip, or an action), the shared
  `Rules.ApplyFirst` loop and `Rules.Perform`. The catalog's external
  tables and `str.format` come in as a `Tables` parameter.
- **Driver.** `Optimize.Fix` is the loop `while optimize_pass(ast)`,
  bounded by fuel.
- **Printer.** `Rebuild.Render` is the printed text, the count of elements
  visited, an exception, or non-termination. The `Rebuild.Rebuilder`
  class writes into its `output` string; each of its methods is proved to
  append exactly what `Render` or its branch function prints.

## Model

| member | source | states |
|---|---|---|
| ElementTree.Walk | modules/utils.py:17 | the walk starts at the root with no parent, and every visit locates its element and parent in the tree |
| ElementTree.WalkComplete | modules/utils.py:17 | every valid element path is visited by `ast.iter()` |
| ElementTree.WalkDistinct | modules/utils.py:17 | no element is visited twice |
| ElementTree.WalkSize | modules/utils.py:17 | the walk has exactly as many visits as the tree has elements |
| ElementTree.Find | modules/utils.py:59 | `find(tag)` is some child exactly when a child has that tag, and then it is a child with that tag |
| ElementTree.FirstWithTag | modules/utils.py:59 | the index `find` stops at: every earlier child has another tag, and the child there has the tag |
| ElementTree.FindAll | modules/optimizations/simplifications.py:126 | `findall(tag)` holds exactly the children with that tag |
| ElementTree.Filter | modules/optimizations/simplifications.py:126 | the filtered list holds exactly the members with the tag and is no longer than the input |
| ElementTree.AtReplaced | modules/utils.py:91-92 | after replacing the element at a path, that path holds the new element |
| ElementTree.AtOther | modules/utils.py:91-92 | replacing one element leaves every element on an unrelated path as it was |
| ElementTree.RemoveAt | modules/utils.py:91 | `list.remove` at an index: one element shorter, earlier elements kept, later ones shifted down by one |
| ElementTree.InsertClamped | modules/utils.py:92 | `list.insert(i, x)`: one element longer, with `x` at `i`, or at the end when `i` is past it |
| ElementTree.RemoveInsertSame | modules/utils.py:91-92 | removing at `j` and then inserting at `j` is updating index `j` |
| ElementTree.Reversed | modules/optimizations/invoke_member.py:129-130 | element `k` of the result is element `len - 1 - k` of the input |
| ElementTree.ReversedTwice | modules/optimizations/invoke_member.py:129-130 | reversing twice gives the list back |
| ElementTree.CountSeqReversed | modules/optimizations/invoke_member.py:129-130 | reversing a list of children keeps every element count |
| ElementTree.CountReplaceAt | modules/utils.py:91-92 | a replacement changes the count of any kind of element by exactly what was removed and what was added |
| ElementTree.SizeReplaceAt | modules/utils.py:91-92 | a replacement changes the element count by the size of the new subtree minus the size of the old one |
| ElementTree.ChildSmaller | modules/utils.py:79-80 | a child's subtree is strictly smaller than its parent's |
| ElementTree.Ast.constructor | modules/optimize.py:74 | the document holds the given root |
| Python.Lower | modules/utils.py:75 | ASCII lower-casing: same length, `A`–`Z` lowered and every other character kept |
| Python.LowerAppend | modules/utils.py:75 | ASCII lower-casing distributes over concatenation |
| Python.ParseIntOfDecimal | modules/optimizations/type_convertions.py:115 | `int()` of the decimal spelling of a number gives the number back |
| Python.DigitsRoundTrip | modules/optimizations/type_convertions.py:115 | the digits of a natural number read back as that number |
| Python.Chr | modules/optimizations/type_convertions.py:122 | `chr(n)` is the character with code point `n`, and raises outside 0..0x10FFFF |
| Python.PyIndex | modules/optimizations/complex_operations.py:30 | Python indexing: valid exactly for `-len <= i < len`, and a negative index counts from the end |
| Python.ReplaceBySelf | modules/optimizations/binary_expressions.py:75 | `s.replace(p, p)` is `s` |
| Python.ReplaceAbsent | modules/optimizations/binary_expressions.py:75 | replacing a pattern that does not occur leaves the text as it was |
| Python.Split | modules/optimizations/invoke_member.py:105 | `str.split(sep)` always gives at least one piece |
| Python.JoinSplit | modules/optimizations/simplifications.py:54-57 | joining the pieces of `s.split(sep)` with `sep` gives `s` back |
| Python.BeforeFirst | modules/utils.py:75 | the longest prefix without the separator, followed in the text by the separator when it is shorter |
| Python.SplitFirstPiece | modules/utils.py:75 | `split(c)[0]` is the text before the first `c` |
| Python.LowerBeforeFirstColon | modules/utils.py:75 | ASCII lower-casing before or after cutting at the first `:` gives the same prefix |
| Python.SplitWhitespaceWords | modules/optimizations/invoke_member.py:105 | `split(None)` gives non-empty pieces that contain none of the white space of `str.isspace` |
| Python.DropSpaces | modules/optimizations/invoke_member.py:105 | leading white space dropped: a suffix that starts with a non-space |
| Python.WordLength | modules/optimizations/invoke_member.py:105 | the leading run of non-space characters is no longer than the text, and non-empty when the text starts with one |
| Python.WordNoSpace | modules/optimizations/invoke_member.py:105 | that leading run holds no white space |
| Python.SplitOneWord | modules/optimizations/invoke_member.py:105 | a single word without white space splits into itself |
| Python.SplitTwoWords | modules/optimizations/invoke_member.py:105 | two words around one white-space character split into exactly those two words |
| Python.SplitIdeographicSpace | modules/optimizations/invoke_member.py:105 | the Unicode spaces of `str.isspace` separate words too: `"a\u3000b"` splits into `a` and `b` |
| Python.Xor | modules/utils.py:184-186 | `xor(data, key)` keeps the length of the data |
| Python.XorInvolution | modules/utils.py:184-186 | xor-ing twice with the same key gives the bytes back |
| Utils.ParentMap | modules/utils.py:79-80 | the keys are exactly the non-root elements, each mapped to its parent |
| Utils.TallyCounts | modules/utils.py:21-24 | the counting dictionary holds exactly the names seen, each with its number of occurrences (at least one) |
| Utils.UseNamesMeaning | modules/utils.py:14-25 | the scan raises exactly when some variable use has no parent or lacks an attribute, and otherwise counts exactly the uses outside an `=` assignment target |
| Utils.UsedVarsRaises | modules/utils.py:14-25 | `get_used_vars` raises exactly when some visit raises |
| Utils.UsedVarsMeaning | modules/utils.py:14-25 | the dictionary's keys are exactly the used names, each counted as many times as it is used |
| Utils.GetUsedVars | modules/utils.py:14-25 | the loop computes `UsedVars` |
| Utils.ConstantString | modules/utils.py:28-33 | a childless string constant with the text, the string type and the static type `string` |
| Utils.ArrayLiteralOf | modules/utils.py:36-52 | an `ArrayLiteralAst` of static type `System.Object[]` whose one `Elements` child holds one string constant per value, in order |
| Utils.CreateArrayLiteralValues | modules/utils.py:36-52 | the loop builds `ArrayLiteralOf` |
| Utils.LiteralValuesCases | modules/utils.py:60-68 | a list of literals only gives values, and `None` means some element is not a literal |
| Utils.Strs | modules/utils.py:48 | each value turned into its string with `str` |
| Utils.ArrayLiteralRoundTrip | modules/utils.py:36-71 | reading back a built array literal gives the values' strings |
| Utils.GetArrayLiteralValues | modules/utils.py:55-71 | the loop computes `ArrayLiteralValues` |
| Utils.IsPrefixedVar | modules/utils.py:74-76 | true exactly when the lower-cased text before the first `:` is `env` |
| Utils.AncestorWith | modules/utils.py:88-89 | the climb of `until`: an ancestor that has the tag or is the root, with no element of that tag on the way |
| Utils.ReplaceNoUntil | modules/utils.py:83-93 | without `until`, the parent keeps its child count and the new element stands at the old one's index, the other children unchanged |
| Utils.ReplaceUntil | modules/utils.py:83-93 | with `until`, the ancestor reached is removed and the new element inserted at the old element's own index; reaching the root changes nothing |
| Utils.DeleteEffect | modules/utils.py:96-104 | deletion succeeds exactly when the target, or the ancestor reached, has a parent; it removes that one child and the tree loses its subtree |
| Utils.ReplaceNode | modules/utils.py:83-93 | the document becomes `ReplaceResult`, or is unchanged when that raises |
| Utils.DeleteNode | modules/utils.py:96-104 | the document becomes `DeleteResult`, or is unchanged when that raises |
| Scopes.Innermost | modules/scope.py:14-19 | the innermost frame binding the name, or `None` when no frame binds it |
| Scopes.LookupMeaning | modules/scope.py:14-19 | `get_var` returns the value in the innermost frame that binds the name |
| Scopes.LookupNone | modules/scope.py:14-19 | `get_var` gives `None` exactly when no frame binds the name |
| Scopes.GetAfterSet | modules/scope.py:21-28 | after `set_var`, `get_var` returns the value just set |
| Scopes.AssignTouchesOneFrame | modules/scope.py:21-28 | `set_var` changes only the innermost frame binding the name, or the top frame when none does |
| Scopes.AssignOtherName | modules/scope.py:21-28 | `set_var` does not change what any other name looks up to |
| Scopes.GetAfterDel | modules/scope.py:30-33 | after `del_var` the name is unbound and the stack keeps its depth |
| Scopes.EnterLookup | modules/scope.py:8-9 | entering a scope changes no lookup and keeps the outer frames |
| Scopes.InnermostIs | modules/scope.py:14-19 | the frame found is the innermost that binds the name |
| Scopes.Scope.constructor | modules/scope.py:4-6 | a new scope has one empty frame |
| Scopes.Scope.Enter | modules/scope.py:8-9 | pushes an empty frame |
| Scopes.Scope.Leave | modules/scope.py:11-12 | pops the top frame |
| Scopes.Scope.GetVar | modules/scope.py:14-19 | the loop from the top frame down returns `Lookup` |
| Scopes.Scope.SetVar | modules/scope.py:21-28 | the stack becomes `Assign(old stack, name, value)` |
| Scopes.Scope.DelVar | modules/scope.py:30-33 | the stack becomes `Unbind(old stack, name)` |
| EscapedChars.EscapeCharCases | modules/escaped_chars.py:3-7 | a quote is doubled, a newline becomes `` `n ``, `#` becomes `` `# ``, every other character is kept |
| EscapedChars.EscapeAppend | modules/escaped_chars.py:10-11 | escaping distributes over concatenation |
| EscapedChars.EscapeLength | modules/escaped_chars.py:10-11 | the escaped text is longer by one character per special character |
| EscapedChars.EscapeHasNoNewline | modules/escaped_chars.py:10-11 | escaped text contains no newline |
| EscapedChars.EscapeIgnoresMode | modules/escaped_chars.py:10-11 | the string type passed in does not change the escaping |
| EscapedChars.EscapeNotInjective | modules/escaped_chars.py:3-7 | a newline and the two characters `` `n `` escape to the same text, so escaping cannot be undone |
| Operators.DoConstComparison | modules/operators.py:29-43 | `None` exactly for an operator that is not one of the six comparisons; a raise exactly when an ordering operator meets values that are not both numbers or both strings |
| Operators.StrLessIrreflexive | modules/operators.py:34-41 | no string is below itself in Python's string order |
| Operators.StrLessTransitive | modules/operators.py:34-41 | Python's string order is transitive |
| Operators.StrTrichotomy | modules/operators.py:34-41 | of two strings, exactly one is below the other or they are equal |
| Operators.IneIsNotIeq | modules/operators.py:30-33 | `-eq` and `-ne` never raise, and `-ne` is the negation of `-eq`, for values of any kind |
| Operators.StrictAndLaxSwap | modules/operators.py:34-41 | `-gt` and `-ge` are `-lt` and `-le` with the operands swapped, raising for the same pairs |
| Operators.LaxIsStrictOrEqual | modules/operators.py:30-41 | on two numbers or two strings, `-le` is `-lt` or `-eq`, and `-ge` is the negation of `-lt` |
| Operators.Trichotomy | modules/operators.py:30-41 | on two numbers or two strings, exactly one of `-lt`, `-eq` and `-gt` holds |
| Operators.LessTransitive | modules/operators.py:40-41 | `-lt` is transitive |
| Operators.ComparisonExamples | modules/operators.py:29-43 | a number never equals its spelling, ordering a number against a string or `None` against `None` raises, and strings order by code point with a prefix first |
| Operators.OpsSpacing | modules/operators.py:2-26 | every infix operator is spelled with a space on each side; `++`, `--` and `..` are not |
| Rules.FirstAct | modules/optimizations/empty_nodes.py:7-8 | the first visit the classifier accepts: every earlier visit is skipped |
| Rules.FirstActIs | modules/optimizations/empty_nodes.py:7-8 | a visit preceded only by skipped visits and accepted itself is the first match |
| Rules.NoMatchUnchanged | modules/optimizations/empty_nodes.py:18 | a rule whose classifier accepts nothing returns False on the same tree |
| Rules.FirstMatchAt | modules/optimizations/empty_nodes.py:6-18 | any change comes from the action at the first accepted visit |
| Rules.PerformReplaced | modules/utils.py:83-93 | a replacement that succeeds is of a non-root element by the new element |
| Rules.FirstMatchChanged | modules/optimizations/empty_nodes.py:6-18 | a rule that returns True replaced, deleted or changed in place its first accepted element |
| Rules.PerformDeleteSize | modules/utils.py:96-104 | a deletion loses exactly the deleted subtree |
| Rules.PerformReplaceSize | modules/utils.py:83-93 | a replacement or in-place change grows or shrinks the tree by the size difference |
| Rules.DeleteShrinks | modules/utils.py:96-104 | a deletion shrinks the tree |
| Rules.ReplaceByChildShrinks | modules/utils.py:83-93 | replacing an element by one of its children shrinks the tree |
| Rules.ReplaceByLeafShrinks | modules/utils.py:83-93 | replacing an element that has children by a leaf shrinks the tree |
| Rules.Run | modules/optimizations/empty_nodes.py:16-18 | performing an action leaves the document as `Perform` says and returns its value |
| Rules.ApplyFirst | modules/optimizations/empty_nodes.py:6-18 | the scan over `ast.iter()` computes `FirstMatch` |
| Optimize.Optimizations | modules/optimize.py:23-60 | the catalog has its 29 rules, in the order of the source |
| Optimize.PassConcat | modules/optimize.py:62-66 | a pass over two lists of rules is the pass over the first, then over the second unless the first stopped |
| Optimize.PassSnoc | modules/optimize.py:62-66 | one step of the loop over the rules |
| Optimize.PassStops | modules/optimize.py:62-66 | the pass returns True at the first rule that does |
| Optimize.PassTruthyAt | modules/optimize.py:62-66 | a pass that returns True does so at one rule, all earlier rules having returned a falsy value |
| Optimize.PrefixFalsy | modules/optimize.py:62-66 | a falsy pass is falsy over every prefix of its rules |
| Optimize.PassFalsyEvery | modules/optimize.py:62-66 | a pass returns False only when every rule returned a falsy value on the tree left by the earlier ones |
| Optimize.EveryFalsyPass | modules/optimize.py:62-66 | when every rule returns a falsy value, the pass returns False |
| Optimize.ToArrayNeverStops | modules/optimizations/type_convertions.py:77-101 | `opt_convert_type_to_array` never stops a pass |
| Optimize.RunRule | modules/optimize.py:63 | running a catalog entry on the document in place leaves it as that rule's function says |
| Optimize.RunExternal | modules/optimize.py:63 | an external rule leaves the document as its function says |
| Optimize.OptimizePass | modules/optimize.py:22-66 | the loop over the catalog computes `Pass(Optimizations)` |
| Optimize.SettledAfterTruthy | modules/optimize.py:79-80 | the driver stops only after a falsy pass, and counts exactly the truthy passes before it |
| Optimize.FuelSuffices | modules/optimize.py:79-80 | more fuel changes nothing once the loop has ended by itself |
| Optimize.FixStep | modules/optimize.py:79-80 | one turn of the loop: a raising pass ends the run as crashed, a falsy one as settled on its tree, a truthy one counts and leaves the rest of the run from its tree |
| Optimize.Round | modules/optimize.py:79-80 | running a pass in place moves the run forward as `FixStep` says |
| Optimize.Optimizer.constructor | modules/optimize.py:69-72 | no modifications yet |
| Optimize.Optimizer.Optimize | modules/optimize.py:74-88 | the result is the same document, the run is `Fix`, the statistics grow by the number of truthy passes, and a settled run leaves the settled tree |
| EmptyNodes.OptRemoveEmptyNodes | modules/optimizations/empty_nodes.py:6-18 | the rule computes `RemoveEmptyNodes` |
| EmptyNodes.FirstActRemovable | modules/optimizations/empty_nodes.py:7-10 | the first visit accepted is the first removable element, and none is removable when nothing is accepted |
| EmptyNodes.RemoveEmptyNodesFalse | modules/optimizations/empty_nodes.py:6-18 | the rule returns False exactly when no element is removable, and then the tree is unchanged |
| EmptyNodes.RemoveEmptyNodesDeletes | modules/optimizations/empty_nodes.py:6-18 | True means the first removable element was deleted and the tree lost exactly one element |
| UnaryExpressions.OptUnaryExpressionJoin | modules/optimizations/unary_expressions.py:6-19 | the rule computes `UnaryExpressionJoin` |
| UnaryExpressions.UnaryJoinAbsent | modules/optimizations/unary_expressions.py:6-19 | without a unary `-join` the rule returns False on the same tree |
| UnaryExpressions.JoinAsBinaryRewrites | modules/optimizations/unary_expressions.py:8-15 | the unary `-join` becomes a binary `-join` with an empty joiner; one element more and one unary `-join` fewer |
| UnaryExpressions.FirstActUnaryJoin | modules/optimizations/unary_expressions.py:7-8 | the first accepted visit is the first unary `-join` |
| UnaryExpressions.MutateJoinAt | modules/optimizations/unary_expressions.py:8-15 | rewriting one unary `-join` in the tree grows it by one element and removes one unary `-join` |
| UnaryExpressions.UnaryJoinEffect | modules/optimizations/unary_expressions.py:6-19 | True means the first unary `-join` was rewritten, one element more and one unary `-join` fewer |
| DeadCodes.OptUnusedVariable | modules/optimizations/dead_codes.py:6-21 | the rule computes `UnusedVariable` |
| DeadCodes.UnusedVerdictDeletes | modules/optimizations/dead_codes.py:10-18 | an assignment is deleted exactly when its target is an unused, unprefixed variable; an `env:` variable is never deleted |
| DeadCodes.UnusedVariableEffect | modules/optimizations/dead_codes.py:6-21 | True means one assignment to an unused variable was deleted and the tree shrank |
| DeadCodes.UnusedVariableAbsent | modules/optimizations/dead_codes.py:6-21 | with no unused assignment the rule returns False on the same tree |
| DeadCodes.FirstUninit | modules/optimizations/dead_codes.py:26-32 | the first visit the scan acts on, all earlier being skipped |
| DeadCodes.OptRemoveUninitialisedVariableUsage | modules/optimizations/dead_codes.py:24-52 | the rule computes `RemoveUninitialisedVariableUsage` |
| DeadCodes.UninitVisit | modules/optimizations/dead_codes.py:27-50 | one element of the walk: the name it assigns joins the set, and either the rule passes over it or the outcome is the whole rule's result |
| DeadCodes.AssignedBeforeUse | modules/optimizations/dead_codes.py:27-31 | a binary expression adds no assigned name |
| DeadCodes.UninitAtPrefix | modules/optimizations/dead_codes.py:27-32 | what the scan does at a visit depends only on the visits up to it |
| DeadCodes.UninitLeftFirst | modules/optimizations/dead_codes.py:32-42 | an uninitialised left operand is checked first and the expression is replaced by the right one |
| DeadCodes.UninitReplacesByOperand | modules/optimizations/dead_codes.py:32-50 | a binary expression is replaced only by one of its two operands |
| DeadCodes.UninitEffect | modules/optimizations/dead_codes.py:24-52 | True means the first binary expression using a never-assigned variable was replaced by its other operand, and the tree shrank |
| DeadCodes.UninitAbsent | modules/optimizations/dead_codes.py:24-52 | with no such use the rule returns False on the same tree |
| BinaryExpressions.OptBinaryExpressionPlus | modules/optimizations/binary_expressions.py:8-60 | the rule computes `BinaryExpressionPlus` |
| BinaryExpressions.PlusFoldedMeaning | modules/optimizations/binary_expressions.py:29-57 | two strings fold to their double-quoted concatenation; otherwise the array values are concatenated in order |
| BinaryExpressions.PlusLeavesOtherOperands | modules/optimizations/binary_expressions.py:15-27 | a `+` with an operand that is neither string nor array is skipped |
| BinaryExpressions.PlusEffect | modules/optimizations/binary_expressions.py:8-60 | True means the first foldable `+` was replaced by its folded constant |
| BinaryExpressions.OptBinaryExpressionReplace | modules/optimizations/binary_expressions.py:63-89 | the rule computes `BinaryExpressionReplace` |
| BinaryExpressions.ReplaceGivesUp | modules/optimizations/binary_expressions.py:72-73 | the first `-replace` without exactly two values ends the rule with False and no change |
| BinaryExpressions.ReplaceEffect | modules/optimizations/binary_expressions.py:63-89 | True means the first `-replace` became its target with the first value replaced by the second, and the tree shrank |
| BinaryExpressions.OptBinaryExpressionFormat | modules/optimizations/binary_expressions.py:92-120 | the rule computes `BinaryExpressionFormat` |
| BinaryExpressions.FormatSkips | modules/optimizations/binary_expressions.py:98-104 | a `-f` without literal values is skipped |
| BinaryExpressions.FormatEffect | modules/optimizations/binary_expressions.py:92-120 | True means the first `-f` became the formatted text, and the tree shrank |
| BinaryExpressions.AllStrings | modules/optimizations/binary_expressions.py:140-145 | the values as strings exactly when every value is a string |
| BinaryExpressions.OptBinaryExpressionJoin | modules/optimizations/binary_expressions.py:123-161 | the rule computes `BinaryExpressionJoin` |
| BinaryExpressions.JoinSkips | modules/optimizations/binary_expressions.py:123-161 | a `-join` without a joiner, without literal values or with a non-string value is skipped |
| BinaryExpressions.JoinEffect | modules/optimizations/binary_expressions.py:123-161 | True means the first `-join` became the values joined by the joiner, and the tree shrank |
| InvokeMember.StringArgs | modules/optimizations/invoke_member.py:58-66 | the argument texts gathered are at most as many as the arguments |
| InvokeMember.OptInvokeReplaceString | modules/optimizations/invoke_member.py:46-84 | the rule computes `InvokeReplaceString` |
| InvokeMember.InvokeReplaceSkips | modules/optimizations/invoke_member.py:52-68 | a call with fewer than three parts, or a `.replace` without exactly two string arguments, is skipped |
| InvokeMember.InvokeReplaceEffect | modules/optimizations/invoke_member.py:46-84 | True means the first `.replace` call became its receiver with the replacement applied, and the tree shrank |
| InvokeMember.PStrs | modules/optimizations/invoke_member.py:105-108 | the pieces as string values, in order |
| InvokeMember.OptInvokeSplitString | modules/optimizations/invoke_member.py:87-113 | the rule computes `InvokeSplitString` |
| InvokeMember.SplitFolded | modules/optimizations/invoke_member.py:105-108 | the array literal of the pieces reads back as the pieces, and they join back to the receiver |
| InvokeMember.InvokeSplitEffect | modules/optimizations/invoke_member.py:87-113 | True means the first `.split` call became the array literal of its pieces |
| InvokeMember.ProbeAssignment | modules/optimizations/invoke_member.py:121-133 | what a probe finds is an `Elements` element, to be replaced by its children reversed |
| InvokeMember.ProbeFrom | modules/optimizations/invoke_member.py:119-141 | the scan ends with a find, a refusal or a raise, never in the middle |
| InvokeMember.FirstOccurrenceUnassigned | modules/optimizations/invoke_member.py:119-139 | a first occurrence of the variable outside an assignment makes the scan give up |
| InvokeMember.TryReverseUnassigned | modules/optimizations/invoke_member.py:116-141 | then `try_reverse_variable_if_not_used` returns False and changes nothing |
| InvokeMember.TryReverseEffect | modules/optimizations/invoke_member.py:116-141 | on success the assigned array's elements are reversed in place, and reversing them again gives the original |
| InvokeMember.ReverseChildren | modules/optimizations/invoke_member.py:129-130 | the loop of `insert(0, element)` builds the reversed list |
| InvokeMember.TryReverseVariableIfNotUsed | modules/optimizations/invoke_member.py:116-141 | the document and the result are as `TryReverse` says, unchanged on a raise or a refusal |
| InvokeMember.MovedValid | modules/optimizations/invoke_member.py:131-159 | an element found before the reversal is still in the tree after it, at its moved path |
| InvokeMember.OptInvokeReverseArray | modules/optimizations/invoke_member.py:144-162 | the rule computes `InvokeReverseArray` |
| InvokeMember.ReverseArrayFalseUnchanged | modules/optimizations/invoke_member.py:144-162 | when the rule returns False the tree is unchanged |
| InvokeMember.ReverseKeepsSize | modules/optimizations/invoke_member.py:129-141 | reversing the elements in place keeps the number of elements of the tree |
| InvokeMember.ReverseArraySuccess | modules/optimizations/invoke_member.py:154-160 | on success the call element is deleted from the reversed tree, so the result is smaller than both the reversed tree and the tree the rule started from |
| TypeConvertions.TypeName | modules/optimizations/type_convertions.py:12-14 | the lower-cased type name of the cast, raising exactly when the constraint has no `TypeName` |
| TypeConvertions.FoundIndex | modules/optimizations/type_convertions.py:16 | the index of the child `find` returned |
| TypeConvertions.OptConvertTypeToType | modules/optimizations/type_convertions.py:9-33 | the rule computes `ConvertTypeToType` |
| TypeConvertions.TypeEffect | modules/optimizations/type_convertions.py:9-33 | True means the first `[type]` cast of a string became that string in brackets as a bare word, and the tree shrank |
| TypeConvertions.SpecialValue | modules/optimizations/type_convertions.py:46-55 | a known special variable gives its value, any other name is kept |
| TypeConvertions.OptConvertTypeToString | modules/optimizations/type_convertions.py:36-74 | the rule computes `ConvertTypeToString` |
| TypeConvertions.StringSkips | modules/optimizations/type_convertions.py:36-74 | a cast to another type, or one with neither variable nor string, is skipped |
| TypeConvertions.StringEffect | modules/optimizations/type_convertions.py:36-74 | True means the first `[string]` cast became its variable's value as a double-quoted string, or its string constant, and the tree shrank |
| TypeConvertions.OptConvertTypeToChar | modules/optimizations/type_convertions.py:104-130 | the rule computes `ConvertTypeToChar` |
| TypeConvertions.CharOfDecimal | modules/optimizations/type_convertions.py:112-124 | a `[char]` cast of a decimal code point becomes the one character with that code point |
| TypeConvertions.CharEffect | modules/optimizations/type_convertions.py:104-130 | True means the first `[char]` cast became a one-character string of the integer's code point, and the tree shrank |
| TypeConvertions.Chars | modules/optimizations/type_convertions.py:95 | one one-character string per character |
| TypeConvertions.CharArrayRoundTrip | modules/optimizations/type_convertions.py:95-97 | the array literal of the characters reads back as them, and they join back to the string |
| TypeConvertions.ArrayFrom | modules/optimizations/type_convertions.py:77-101 | the scan never returns True |
| TypeConvertions.OptConvertTypeToArray | modules/optimizations/type_convertions.py:77-101 | the rule computes `ConvertTypeToArray` |
| TypeConvertions.ArrayUnchanged | modules/optimizations/type_convertions.py:77-101 | with no cast to act on the tree is unchanged |
| TypeConvertions.ArrayChangesSilently | modules/optimizations/type_convertions.py:77-101 | a rule that rewrote the tree still returns a falsy value |
| TypeConvertions.ArrayReplacementDiffers | modules/optimizations/type_convertions.py:84-101 | a cast is never replaced by itself |
| ComplexOperations.Pick | modules/optimizations/complex_operations.py:30 | indexing succeeds exactly when every index is valid, and then picks one item per index |
| ComplexOperations.TargetOf | modules/optimizations/complex_operations.py:12-17 | the indexed value: the string's text, or the array's values, raising as reading them raises |
| ComplexOperations.IndexesOf | modules/optimizations/complex_operations.py:19-25 | one integer for a constant index, the array's values for an array of indexes |
| ComplexOperations.OptValueOfConstArray | modules/optimizations/complex_operations.py:7-38 | the rule computes `ValueOfConstArray` |
| ComplexOperations.IndexRewrite | modules/optimizations/complex_operations.py:19-34 | the replacement is the array literal of the picked items |
| ComplexOperations.StringIndexing | modules/optimizations/complex_operations.py:30 | indexing a string picks its characters at those indexes |
| ComplexOperations.BadIndexFails | modules/optimizations/complex_operations.py:30 | an index out of range raises |
| ComplexOperations.NothingToIndex | modules/optimizations/complex_operations.py:28 | with no target or no indexes the element is skipped |
| ComplexOperations.IndexActions | modules/optimizations/complex_operations.py:7-38 | the rule only ever replaces or raises |
| ComplexOperations.IndexEffect | modules/optimizations/complex_operations.py:7-38 | True means the first indexing was replaced by its picked values |
| ReplaceLongNames.NameKey | modules/optimizations/replace_long_names.py:7-10 | an attribute key exactly for variables and parameters |
| ReplaceLongNames.DeobName | modules/optimizations/replace_long_names.py:34-36 | `deob_` followed by the number |
| ReplaceLongNames.DeobNameInjective | modules/optimizations/replace_long_names.py:34-36 | different numbers give different names |
| ReplaceLongNames.LookAt | modules/optimizations/replace_long_names.py:19-27 | a long name is the attribute's text without its `$`, at least 60 characters long |
| ReplaceLongNames.Assign | modules/optimizations/replace_long_names.py:29-32 | the name is in the mapping afterwards |
| ReplaceLongNames.LongFrom | modules/optimizations/replace_long_names.py:18-39 | the scan keeps the tree's shape |
| ReplaceLongNames.LongFromQuiet | modules/optimizations/replace_long_names.py:26-27 | a short name is passed over |
| ReplaceLongNames.LongFromBroken | modules/optimizations/replace_long_names.py:19 | a variable or parameter without its attribute raises |
| ReplaceLongNames.OptLongVariableNames | modules/optimizations/replace_long_names.py:12-41 | the rule computes `LongVariableNames` |
| ReplaceLongNames.AssignNumbers | modules/optimizations/replace_long_names.py:29-32 | a fresh name takes the next number |
| ReplaceLongNames.AssignInjective | modules/optimizations/replace_long_names.py:29-32 | a fresh name differs from every name handed out before |
| ReplaceLongNames.LongNamesRenamed | modules/optimizations/replace_long_names.py:12-41 | every element ends up as itself with its long name renamed, and nothing raises on the way |
| ReplaceLongNames.LongNamesNumbered | modules/optimizations/replace_long_names.py:29-36 | the new names are numbered without gaps, at most one per element |
| ReplaceLongNames.LongNamesMapped | modules/optimizations/replace_long_names.py:29-32 | every mapped name is a long name in the tree |
| ReplaceLongNames.LongNamesResult | modules/optimizations/replace_long_names.py:39-41 | True exactly when the tree has a long name |
| ReplaceLongNames.RenamingConsistent | modules/optimizations/replace_long_names.py:21-38 | two long names get the same new name exactly when they are equal, and a leading `$` is kept |
| ReplaceLongNames.RenamedQuiet | modules/optimizations/replace_long_names.py:34-38 | a renamed name is short |
| ReplaceLongNames.QuietScan | modules/optimizations/replace_long_names.py:12-41 | a scan that touches nothing returns False on the same tree |
| ReplaceLongNames.LongNamesTwice | modules/optimizations/replace_long_names.py:12-41 | running the pass again on its own output returns False and changes nothing |
| Simplifications.MarkableFrom | modules/optimizations/simplifications.py:14-20 | the first command element to mark, raising when a string constant lacks its type |
| Simplifications.OptCommandElementAsBareword | modules/optimizations/simplifications.py:10-21 | the rule computes `CommandElementAsBareword` |
| Simplifications.MarkEffect | modules/optimizations/simplifications.py:10-21 | True means the first markable command element became a bare word, nothing else changed |
| Simplifications.OptSpecialVariableCase | modules/optimizations/simplifications.py:24-34 | the rule computes `SpecialVariableCase` |
| Simplifications.CaseChanges | modules/optimizations/simplifications.py:24-34 | a special variable is respelled exactly when it differs from its canonical spelling, and only its path changes |
| Simplifications.OptTypeConstraintFromConvert | modules/optimizations/simplifications.py:37-45 | the rule computes `TypeConstraintFromConvert` |
| Simplifications.FromConvertSettles | modules/optimizations/simplifications.py:37-45 | the constraint takes the cast's static type, the rest is kept, and the element is then left alone |
| Simplifications.CanonicalAll | modules/optimizations/simplifications.py:54-57 | each part replaced by its canonical spelling |
| Simplifications.RespellUnknown | modules/optimizations/simplifications.py:54-57 | a name with no known part is kept |
| Simplifications.CanonUnknown | modules/optimizations/simplifications.py:54-57 | respelling on `.` and then `-` keeps a name with no known part |
| Simplifications.SplitWithout | modules/optimizations/simplifications.py:54-57 | splitting on a character that does not occur gives the text |
| Simplifications.CanonWord | modules/optimizations/simplifications.py:54-57 | a single known word becomes its canonical spelling |
| Simplifications.OptTypeConstraintCase | modules/optimizations/simplifications.py:48-66 | the rule computes `TypeConstraintCase` |
| Simplifications.TypeCaseUnknown | modules/optimizations/simplifications.py:48-66 | a type name with no known part is skipped |
| Simplifications.Peel | modules/optimizations/simplifications.py:69-87 | what is peeled out of an element is no larger than it |
| Simplifications.OptSimplifyParenSingleExpression | modules/optimizations/simplifications.py:69-87 | the rule computes `SimplifyParenSingleExpression` |
| Simplifications.ParenLifts | modules/optimizations/simplifications.py:69-87 | a paren around a single wrapped expression is replaced by that expression |
| Simplifications.ParenShrinks | modules/optimizations/simplifications.py:69-87 | the replacement is a liftable expression, smaller than the paren |
| Simplifications.ParenEffect | modules/optimizations/simplifications.py:69-87 | True means the first such paren was replaced by its expression, and the tree shrank |
| Simplifications.OptSimplifyPipelineSingleCommand | modules/optimizations/simplifications.py:90-103 | the rule computes `SimplifyPipelineSingleCommand` |
| Simplifications.PipelineSingle | modules/optimizations/simplifications.py:90-103 | a pipeline is replaced by its element exactly when it has one |
| Simplifications.PipelineEffect | modules/optimizations/simplifications.py:90-103 | True means the first single-element pipeline was replaced by its element, and the tree shrank |
| Simplifications.OptSimplifySingleArray | modules/optimizations/simplifications.py:106-120 | the rule computes `SimplifySingleArray` |
| Simplifications.SingleArrayOfBuilt | modules/optimizations/simplifications.py:106-120 | a built array of one value collapses to that value, and one of several values is left alone |
| Simplifications.SingleArrayEffect | modules/optimizations/simplifications.py:106-120 | True means the first single-element array was replaced by its element, and the tree shrank |
| Simplifications.MemberFrom | modules/optimizations/simplifications.py:125-136 | the first member name to respell, all earlier ones left alone |
| Simplifications.OptConstantStringType | modules/optimizations/simplifications.py:123-147 | the rule computes `ConstantStringType` |
| Simplifications.CommandFirstOnly | modules/optimizations/simplifications.py:138-146 | only the first command element is looked at |
| Simplifications.MemberEffect | modules/optimizations/simplifications.py:125-136 | a respelled member is a bare word with its canonical text, all earlier members left alone |
| Simplifications.BarewordText | modules/optimizations/simplifications.py:150-173 | a `[type]` word keeps its brackets around the respelled name, any other word is respelled |
| Simplifications.OptBarewordCase | modules/optimizations/simplifications.py:150-173 | the rule computes `BarewordCase` |
| Simplifications.BarewordBracketsKept | modules/optimizations/simplifications.py:150-173 | only the text changes, and a bracketed word stays bracketed |
| Simplifications.BarewordTypeWord | modules/optimizations/simplifications.py:150-173 | a bracketed known word becomes its bracketed canonical spelling |
| Simplifications.OptPrefixedVariableCase | modules/optimizations/simplifications.py:176-191 | the rule computes `PrefixedVariableCase` |
| Simplifications.PrefixOnly | modules/optimizations/simplifications.py:179-183 | only the prefix before the first `:` is lower-cased; the rest, the `:` included, is kept |
| Simplifications.SubstFrom | modules/optimizations/simplifications.py:216-241 | the first operand to substitute, all earlier ones left alone |
| Simplifications.FirstConst | modules/optimizations/simplifications.py:198-241 | the first visit the scan acts on, all earlier being skipped |
| Simplifications.SubstHit | modules/optimizations/simplifications.py:216-241 | substituting an operand replaces exactly that child |
| Simplifications.SubstituteOperand | modules/optimizations/simplifications.py:216-241 | the document changes as the substitution verdict says, or not at all when it skips |
| Simplifications.VisitConst | modules/optimizations/simplifications.py:198-241 | one visit of the scan does what `ConstAt` says |
| Simplifications.OptReplaceConstantVariableByValue | modules/optimizations/simplifications.py:194-243 | the rule computes `ReplaceConstantVariableByValue` |
| Simplifications.UnbindOnlyByReassign | modules/optimizations/simplifications.py:199-214 | a binding is dropped only by a reassignment of that name to something other than one constant |
| Simplifications.BindingsBeforeUse | modules/optimizations/simplifications.py:199-214 | an element that substitutes adds no binding |
| Simplifications.ConstantEffect | modules/optimizations/simplifications.py:194-243 | True means the first variable used once and bound to a constant was replaced by the constant, nothing else changed |
| Rebuild.Spaces | modules/rebuilder.py:55-56 | that many spaces |
| Rebuild.LastWritten | modules/rebuilder.py:46-53 | the element the chain of last children ends at, not a pipeline kind, or the element itself when it is none |
| Rebuild.Rebuilder.constructor | modules/rebuilder.py:30-38 | empty output, level 0, no elements counted |
| Rebuild.Rebuilder.Indent | modules/rebuilder.py:55-56 | appends three spaces per level |
| Rebuild.Rebuilder.Write | modules/rebuilder.py:58-59 | appends the text |
| Rebuild.Rebuilder.Put | modules/rebuilder.py:58-59 | appends printed text, or ends as it does |
| Rebuild.Rebuilder.RebuildOperator | modules/rebuilder.py:61-65 | appends the operator's spelling, nothing for an unknown one |
| Rebuild.Rebuilder.LastWrite | modules/rebuilder.py:46-53 | the loop finds `LastWritten` |
| Rebuild.Rebuilder.Rebuild | modules/rebuilder.py:448-458 | the output is exactly `Render` of the root, starting from empty output and zero elements counted |
| Rebuild.Rebuilder.RebuildInternal | modules/rebuilder.py:67-446 | appends exactly `Render` of the element and counts its visits |
| Rebuild.Rebuilder.RebuildBody | modules/rebuilder.py:70-446 | appends exactly the branch for the element's tag |
| Rebuild.Rebuilder.RebuildChild | modules/rebuilder.py:67-446 | prints child `k`, raising when it is missing |
| Rebuild.Rebuilder.RebuildKids | modules/rebuilder.py:70-72 | prints the children from `from` on, in order |
| Rebuild.Rebuilder.RebuildKid | modules/rebuilder.py:71-72 | one child of that loop: the output grows by what the child prints, or the loop ends as the child does |
| Rebuild.Rebuilder.RebuildJoined | modules/rebuilder.py:299-304 | prints the children with the separator between them |
| Rebuild.Rebuilder.RebuildStatements | modules/rebuilder.py:164-174 | each statement on its own indented line, each followed by its terminator |
| Rebuild.Rebuilder.StatementRound | modules/rebuilder.py:167-174 | one statement indented and terminated after what is already written; either the list goes on or it ended there |
| Rebuild.Rebuilder.RebuildTerminator | modules/rebuilder.py:170-174 | the terminator that follows a statement |
| Rebuild.Rebuilder.RebuildParameters | modules/rebuilder.py:235-240 | the parameters with their separators |
| Rebuild.Rebuilder.ParameterRound | modules/rebuilder.py:236-240 | one parameter, its separator and a newline appended after what is already written; either the list goes on or it ended there |
| Rebuild.Rebuilder.WriteSeparator | modules/rebuilder.py:235-240 | appends the separator before a parameter |
| Rebuild.Rebuilder.RebuildKidsExcept | modules/rebuilder.py:291-297 | the children except those with the tag |
| Rebuild.Rebuilder.RebuildWrapped | modules/rebuilder.py:180-192 | the children between the element's delimiters |
| Rebuild.Rebuilder.RebuildBraced | modules/rebuilder.py:257-269 | the children braced one level deeper |
| Rebuild.Rebuilder.RebuildBlock | modules/rebuilder.py:242-269 | a script or statement block, braced unless a script block is the root |
| Rebuild.Rebuilder.RebuildParamBlock | modules/rebuilder.py:123-144 | the attributes, `param` and the braced parameters |
| Rebuild.Rebuilder.RebuildCompound | modules/rebuilder.py:82-408 | the dispatch for `Attributes`, attributes, parameters, `foreach`, function definitions, `try` and `if`: each prints as its own branch says |
| Rebuild.Rebuilder.RebuildIfFound | modules/rebuilder.py:82-88 | prints the element `find` returned only when it is truthy |
| Rebuild.Rebuilder.RebuildAttributes | modules/rebuilder.py:82-88 | the type constraint, then the attribute and a newline, each only when found with children |
| Rebuild.Rebuilder.RebuildAttribute | modules/rebuilder.py:90-109 | an attribute with its arguments |
| Rebuild.Rebuilder.RebuildParameter | modules/rebuilder.py:222-233 | a parameter with its attributes and default value |
| Rebuild.Rebuilder.RebuildDeclared | modules/rebuilder.py:222-233 | the children after the attributes |
| Rebuild.Rebuilder.RebuildForEach | modules/rebuilder.py:204-215 | `foreach (variable in collection)` and its body |
| Rebuild.Rebuilder.RebuildFunctionDefinition | modules/rebuilder.py:338-349 | `function name` and its body |
| Rebuild.Rebuilder.RebuildTry | modules/rebuilder.py:388-394 | `try`, its body and its catch clauses |
| Rebuild.Rebuilder.RebuildIf | modules/rebuilder.py:396-408 | `if (` condition `)`, a newline and the body; then an indented `else`, the third child and a newline only when there are exactly three children |
| Rebuild.Rebuilder.RebuildExpression | modules/rebuilder.py:285-445 | the expression branches |
| Rebuild.Rebuilder.RebuildOperation | modules/rebuilder.py:318-357 | an assignment or a binary expression: the left operand, the spelling of its `Operator`, the right operand; KeyError without `Operator` |
| Rebuild.Rebuilder.RebuildConstant | modules/rebuilder.py:359-361 | an `int` constant's text, nothing for any other static type; KeyError without `StaticType`, and an `int` constant without text raises |
| Rebuild.Rebuilder.RebuildIndex | modules/rebuilder.py:371-376 | `target[index]` |
| Rebuild.Rebuilder.RebuildMember | modules/rebuilder.py:378-386 | `receiver.member` or `receiver::member` |
| Rebuild.Rebuilder.RebuildConvert | modules/rebuilder.py:291-297 | the type constraint, then the other children |
| Rebuild.Rebuilder.RebuildArrayLiteral | modules/rebuilder.py:306-313 | the elements separated by commas |
| Rebuild.Rebuilder.RebuildInvokeMember | modules/rebuilder.py:410-440 | `receiver.member(arguments)` |
| RebuildFacts.KindOfExact | modules/rebuilder.py:70-446 | a tag selects the branch named after it, and an unknown tag selects none |
| RebuildFacts.RenderBody | modules/rebuilder.py:67-68 | printing an element is its branch, plus one element counted |
| RebuildFacts.UnknownTagIgnored | modules/rebuilder.py:445-446 | an unknown tag prints nothing and counts one element |
| RebuildFacts.IndentationGrows | modules/rebuilder.py:55-56 | the indentation is three spaces per level, three more for each level deeper |
| RebuildFacts.OperatorSpelling | modules/rebuilder.py:8-26 | a known operator is spelled as in the operators table, with spaces around it; an unknown one prints nothing |
| RebuildFacts.OperatorsMissing | modules/rebuilder.py:8-26 | `++`, `--`, `*`, `-gt`, `-lt` and `..` are in the operators table but print as nothing |
| RebuildFacts.StringConstantPrints | modules/rebuilder.py:363-369 | a string constant prints its escaped text, bare or quoted by its type, never with a raw newline, and raises without a type |
| RebuildFacts.VariablePrints | modules/rebuilder.py:315-316 | a variable prints as `$` and its path, raising without a path |
| RebuildFacts.ConstantPrints | modules/rebuilder.py:359-361 | an `int` constant prints its text, other types nothing, raising without a static type |
| RebuildFacts.MemberPrints | modules/rebuilder.py:378-386 | a member prints receiver, `::` or `.`, member, raising without `Static` |
| RebuildFacts.MemberBody | modules/rebuilder.py:378-386 | the member branch's text and element count |
| RebuildFacts.BracedPrints | modules/rebuilder.py:257-269 | braces at the block's level around children one level deeper |
| RebuildFacts.BlockBranch | modules/rebuilder.py:242-269 | the block kinds print through the block branch |
| RebuildFacts.ScriptBlockAtRoot | modules/rebuilder.py:242-255 | a root script block prints its children at its own level, without braces |
| RebuildFacts.ScriptBlockNested | modules/rebuilder.py:242-255 | a nested script block is braced on a new line, its children one level deeper |
| RebuildFacts.ParamBlockPrints | modules/rebuilder.py:123-144 | a param block prints attributes, `param` and the parameters, braced unless it is the root, and raises without children |
| RebuildFacts.StatementBlockBraces | modules/rebuilder.py:257-269 | a statement block is braced wherever it is |
| RebuildFacts.TerminatorCases | modules/rebuilder.py:164-174 | no terminator after if, try, foreach or a pipeline ending in a script block, `;` and a newline after anything else, and no end when `lastWrite` loops |
| RebuildFacts.StatementLinePrints | modules/rebuilder.py:164-174 | a statement line is the indentation, the statement and its terminator |
| RebuildFacts.IfFoundSkipped | modules/rebuilder.py:82-88 | a `find` that is falsy prints nothing |
| RebuildFacts.IfFoundPrinted | modules/rebuilder.py:82-88 | a truthy `find` prints the element found and then the text after it |
| RebuildFacts.ChildlessAttributesSkipped | modules/rebuilder.py:82-88 | attributes whose found elements have no children print nothing |
| RebuildFacts.AttributesPrinted | modules/rebuilder.py:82-88 | a type constraint found with children is printed |
| RebuildVisits.RenderVisits | modules/rebuilder.py:67-68 | a finished print counts at least one and at most all of the element's subtree |
| RebuildVisits.BodyVisits | modules/rebuilder.py:70-446 | a branch counts at most the elements below it |

## Left out

- The PowerShell parser that produces the XML tree (modules/ast.py), the command line (main.py) and the logger are not part of this model. Every `log_*` call is dropped.
- `opt_invoke_expression` and `opt_alias` enter the catalog as functions of the `Tables` parameter. They expand code through the parser, which is not part of this model.
- The contents of `BAREWORDS`, `SPECIAL_VARS_NAMES` and `SPECIAL_VARS_VALUES` are parameters, not constants.
- `str.format` is a parameter of `Tables`. Python's format mini-language is not modelled.
- The file and system helpers of modules/utils.py:107-190 (folders, sizes, time) are I/O and are left out. `xor` is modelled.
- The ratio of elements before and after optimizing (modules/optimize.py:76-86) is only logged, and is left out.
- The printer writes into an `output` string. Opening the file and `output.tell()` are I/O and are left out.
- `Rebuilder.lastNode` (modules/rebuilder.py:42-43) is never called, and is left out.
- Optimize.Optimizer.Optimize: the loop runs for at most `fuel` passes. The source has no bound, and nothing shows that all rules together make the tree shrink. A run that uses up its fuel ends as `OutOfFuel`. `Optimize.FuelSuffices` shows that more fuel changes no run that ended by itself.
- Python.ParseInt reads an optional sign and decimal digits. The white space, underscores and other digits that Python's `int()` also accepts are not modelled.
- Python.Lower lower-cases only `A`–`Z`. Python's `str.lower` also lower-cases every other cased letter, and can change the length (`'İ'.lower()` has two code points). So names that differ only in non-ASCII case are different names in the model. The variable-name comparisons that go through it treat `$Ä` and `$ä` as two variables where Python sees one: modules/utils.py:20, modules/optimizations/dead_codes.py:14, 31 and 45, modules/optimizations/invoke_member.py:120, and modules/optimizations/simplifications.py:27-29 and 208-220. The same holds for the barewords and type names looked up through it.
- Python.LowerAppend holds for the ASCII lower-casing of the model. Python's `str.lower` does not distribute over concatenation in general: a capital sigma lower-cases to a final `ς` or to `σ` depending on the letters around it.
- Python.LowerBeforeFirstColon rests on the same ASCII lower-casing.
- DeadCodes.UnusedVerdictDeletes decides "unused" on ASCII lower-cased names. So an assignment to `$Ä` whose variable is used only as `$ä` is deleted, where Python keeps it.
- Python.Chr treats a surrogate code point as raising, because Dafny's `char` cannot hold one. Python would return it.
- TypeConvertions.OptConvertTypeToArray: a cast below an element replaced earlier in the same scan is treated as raising. This is right for a cast that is really cut out of the tree: `replace_node` rebuilds the parent map (modules/utils.py:84) and raises KeyError on it. It differs in one case. An `[array]` cast is replaced by its own string-constant child (modules/optimizations/type_convertions.py:90), so a cast inside that child is still in the tree. Python rewrites that cast; the model reports a raise.
- ReplaceLongNames.LongNamesTwice holds for trees of at most 10^54 elements. Beyond that the synthetic names are themselves 60 characters long.
- Scopes.Scope.Leave and Scopes.Scope.SetVar require at least one frame. On an empty stack Python raises IndexError, which the model does not represent.
- Escaping has no inverse: a backtick is not escaped, as `EscapedChars.EscapeNotInjective` shows. So there is no round-trip lemma for it.
- PowerShell semantics of the rewritten script, such as whether a rewrite preserves meaning, are outside the model. Only the tree transformations the source performs are stated.
