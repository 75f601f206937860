/** The character-escape table of modules/escaped_chars.py and the string
    escaping the printer applies to string constants. */
module EscapedChars {

  /** `ESCAPED_CHARS`: a quote is doubled, a newline becomes `` `n `` and a
      `#` becomes `` `# ``. */
  const EscapedChars: map<char, string> := map['\'' := "''", '\n' := "`n", '#' := "`#"]

  function EscapeChar(c: char): string
  {
    if c in EscapedChars then EscapedChars[c] else [c]
  }

  /** `escape_string(s, mode)`: every character through the table, in
      order; `mode` is not consulted. */
  function EscapeString(s: string, mode: string): string
  {
    Escape(s)
  }

  function Escape(s: string): string
  {
    if s == [] then [] else EscapeChar(s[0]) + Escape(s[1..])
  }

  /** Number of characters the table rewrites. */
  function Specials(s: string): nat
  {
    multiset(s)['\''] + multiset(s)['\n'] + multiset(s)['#']
  }

  /** The three table entries and the identity elsewhere. */
  lemma EscapeCharCases(c: char)
    ensures c == '\'' ==> EscapeChar(c) == "''"
    ensures c == '\n' ==> EscapeChar(c) == "`n"
    ensures c == '#' ==> EscapeChar(c) == "`#"
    ensures c != '\'' && c != '\n' && c != '#' ==> EscapeChar(c) == [c]
  {
  }

  /** Escaping distributes over concatenation. */
  lemma {:induction false} EscapeAppend(a: string, b: string)
    ensures Escape(a + b) == Escape(a) + Escape(b)
  {
    if a != [] {
      assert (a + b)[0] == a[0] && (a + b)[1..] == a[1..] + b;
      EscapeAppend(a[1..], b);
    } else {
      assert a + b == b;
    }
  }

  /** The output is one character longer than the input per rewritten
      character. */
  lemma {:induction false} EscapeLength(s: string)
    ensures |Escape(s)| == |s| + Specials(s)
  {
    if s != [] {
      EscapeLength(s[1..]);
      assert s == [s[0]] + s[1..];
      assert multiset(s) == multiset([s[0]]) + multiset(s[1..]);
    }
  }

  /** The output never holds a raw newline. */
  lemma {:induction false} EscapeHasNoNewline(s: string)
    ensures '\n' !in Escape(s)
  {
    if s != [] {
      EscapeHasNoNewline(s[1..]);
      assert '\n' !in EscapeChar(s[0]);
    }
  }

  /** The result does not depend on `mode`. */
  lemma EscapeIgnoresMode(s: string, m1: string, m2: string)
    ensures EscapeString(s, m1) == EscapeString(s, m2)
  {
  }

  /** Two different inputs can print the same: a newline and the two
      characters backtick-n, so no unescaping inverse exists. */
  lemma EscapeNotInjective()
    ensures EscapeString("\n", "BareWord") == EscapeString("`n", "BareWord")
  {
    assert Escape("\n") == "`n" + Escape([]);
    assert Escape("`n") == "`" + Escape("n");
    assert Escape("n") == "n" + Escape([]);
  }
}
