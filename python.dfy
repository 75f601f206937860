/** The Python built-ins the deobfuscator relies on, defined exactly enough
    for the behaviour the rewrite rules and the printer depend on:
    `str.lower`, `str.replace`, `str.split` (with and without a separator),
    `str.join`, `str()` of a literal value, `int()` of literal text, `chr`,
    and sequence indexing with negative indices.  Where Python raises, the
    result says so (`Throw`) rather than forbidding the input. */
module Python {

  datatype Option<+T> = None | Some(value: T)

  /** The value of a Python expression that may raise an exception. */
  datatype Py<+T> = Ok(value: T) | Throw

  /** The scalar values the rules read out of literal nodes: a string
      constant's text (possibly absent), or an integer constant. */
  datatype PyValue = PStr(s: string) | PInt(i: int) | PNone

  // ---------------------------------------------------------------- lower

  function LowerChar(c: char): char
  {
    if 'A' <= c <= 'Z' then (c as int + 32) as char else c
  }

  /** `s.lower()` on the ASCII letters. */
  function Lower(s: string): (r: string)
    ensures |r| == |s|
    ensures forall i :: 0 <= i < |s| ==> r[i] == LowerChar(s[i])
  {
    if s == [] then [] else [LowerChar(s[0])] + Lower(s[1..])
  }

  lemma LowerAppend(a: string, b: string)
    ensures Lower(a + b) == Lower(a) + Lower(b)
  {
  }

  // ---------------------------------------------------------------- str and int

  function DigitChar(d: nat): char
    requires d < 10
  {
    "0123456789"[d]
  }

  function Digits(n: nat): (r: string)
    ensures |r| >= 1
    ensures AllDigits(r)
  {
    if n < 10 then [DigitChar(n)] else Digits(n / 10) + [DigitChar(n % 10)]
  }

  /** `str(n)` for an int: decimal digits, with a leading `-` when negative. */
  function IntToDecimal(n: int): (r: string)
    ensures |r| >= 1
  {
    if n < 0 then "-" + Digits(-n) else Digits(n)
  }

  /** `str(v)` for the values literal nodes carry; `str(None)` is "None". */
  function Str(v: PyValue): string
  {
    match v
    case PStr(s) => s
    case PInt(i) => IntToDecimal(i)
    case PNone => "None"
  }

  predicate IsDigit(c: char)
  {
    '0' <= c <= '9'
  }

  predicate AllDigits(s: string)
  {
    forall i :: 0 <= i < |s| ==> IsDigit(s[i])
  }

  function DigitsValue(s: string): nat
    requires AllDigits(s)
  {
    if s == [] then 0
    else
      assert IsDigit(s[|s| - 1]);
      DigitsValue(s[..|s| - 1]) * 10 + (s[|s| - 1] as int - '0' as int)
  }

  /** `int(text)` on a decimal literal: an optional sign and at least one
      digit; anything else makes Python raise ValueError (None). */
  function ParseInt(s: string): (r: Option<int>)
    ensures r.Some? ==> |s| >= 1
  {
    if |s| >= 1 && (s[0] == '-' || s[0] == '+') then
      var body := s[1..];
      if body != [] && AllDigits(body) then
        Some(if s[0] == '-' then -(DigitsValue(body) as int) else DigitsValue(body))
      else None
    else if s != [] && AllDigits(s) then Some(DigitsValue(s))
    else None
  }

  lemma {:induction false} DigitsRoundTrip(n: nat)
    ensures DigitsValue(Digits(n)) == n
  {
    if n >= 10 {
      DigitsRoundTrip(n / 10);
      var s := Digits(n / 10) + [DigitChar(n % 10)];
      assert s[..|s| - 1] == Digits(n / 10);
    }
  }

  /** `int(str(n)) == n`: the decimal printer and parser agree. */
  lemma ParseIntOfDecimal(n: int)
    ensures ParseInt(IntToDecimal(n)) == Some(n)
  {
    if n < 0 {
      assert IntToDecimal(n) == "-" + Digits(-n);
      ParseNegative(-n);
    } else {
      ParseDigits(n);
    }
  }

  lemma ParseDigits(n: nat)
    ensures ParseInt(Digits(n)) == Some(n)
  {
    DigitsRoundTrip(n);
    var s := Digits(n);
    assert IsDigit(s[0]);
  }

  lemma ParseNegative(n: nat)
    requires n > 0
    ensures ParseInt("-" + Digits(n)) == Some(-(n as int))
  {
    DigitsRoundTrip(n);
    var s := "-" + Digits(n);
    var body := s[1..];
    assert s[0] == '-' && body == Digits(n);
    assert body != [] && AllDigits(body);
  }

  /** `chr(n)`: Python raises ValueError outside 0..0x10FFFF.  Surrogate code
      points cannot be held in a Dafny char and are treated as raising too. */
  function Chr(n: int): (r: Py<char>)
    ensures r.Ok? ==> r.value as int == n
    ensures (n < 0 || n > 0x10FFFF) ==> r.Throw?
  {
    if 0 <= n < 0xD800 || 0xE000 <= n <= 0x10FFFF then Ok(n as char) else Throw
  }

  /** `xs[i]` position for a sequence of length `len`: negative indices count
      from the end; out of range raises IndexError (None). */
  function PyIndex(len: nat, i: int): (r: Option<nat>)
    ensures r.Some? ==> r.value < len
    ensures r.Some? <==> -(len as int) <= i < len
    ensures r.Some? && i >= 0 ==> r.value == i
    ensures r.Some? && i < 0 ==> r.value == len + i
  {
    if 0 <= i < len then Some(i) else if -(len as int) <= i < 0 then Some(len + i) else None
  }

  // ---------------------------------------------------------------- replace

  predicate OccursAt(s: string, pat: string, k: nat)
  {
    k + |pat| <= |s| && s[k..k + |pat|] == pat
  }

  /** `s.replace(pat, rep)`: every non-overlapping occurrence, scanning from
      the left.  An empty pattern puts `by` before every character and at
      the end, as Python does. */
  function Replace(s: string, pat: string, rep: string): string
  {
    if pat == [] then InterleaveWith(s, rep) else ReplaceNonEmpty(s, pat, rep)
  }

  function InterleaveWith(s: string, rep: string): string
  {
    if s == [] then rep else rep + [s[0]] + InterleaveWith(s[1..], rep)
  }

  function ReplaceNonEmpty(s: string, pat: string, rep: string): string
    requires pat != []
  {
    if |s| < |pat| then s
    else if s[..|pat|] == pat then rep + ReplaceNonEmpty(s[|pat|..], pat, rep)
    else [s[0]] + ReplaceNonEmpty(s[1..], pat, rep)
  }

  /** Replacing a pattern by itself gives the string back. */
  lemma {:induction false} ReplaceBySelf(s: string, pat: string)
    requires pat != []
    ensures Replace(s, pat, pat) == s
  {
    if |s| >= |pat| {
      if s[..|pat|] == pat {
        ReplaceBySelf(s[|pat|..], pat);
        assert s == s[..|pat|] + s[|pat|..];
      } else {
        ReplaceBySelf(s[1..], pat);
        assert s == [s[0]] + s[1..];
      }
    }
  }

  /** A pattern that does not occur leaves the string unchanged. */
  lemma {:induction false} ReplaceAbsent(s: string, pat: string, rep: string)
    requires pat != []
    requires forall k :: 0 <= k <= |s| ==> !OccursAt(s, pat, k)
    ensures Replace(s, pat, rep) == s
  {
    if |s| >= |pat| {
      assert !OccursAt(s, pat, 0);
      forall k | 0 <= k <= |s[1..]|
        ensures !OccursAt(s[1..], pat, k)
      {
        assert !OccursAt(s, pat, k + 1);
        assert k + |pat| <= |s[1..]| ==> s[1..][k..k + |pat|] == s[k + 1..k + 1 + |pat|];
      }
      ReplaceAbsent(s[1..], pat, rep);
      assert s == [s[0]] + s[1..];
    }
  }

  // ---------------------------------------------------------------- split and join

  /** `s.split(sep)` for a non-empty separator (Python raises ValueError on
      an empty one): the pieces between non-overlapping occurrences, found
      from the left; the result has at least one piece. */
  function Split(s: string, sep: string): (r: seq<string>)
    requires sep != []
    ensures |r| >= 1
  {
    if |s| >= |sep| && s[..|sep|] == sep then [""] + Split(s[|sep|..], sep)
    else if s == [] then [""]
    else
      var rest := Split(s[1..], sep);
      [[s[0]] + rest[0]] + rest[1..]
  }

  /** `sep.join(parts)`. */
  function Join(sep: string, parts: seq<string>): string
  {
    if parts == [] then ""
    else if |parts| == 1 then parts[0]
    else parts[0] + sep + Join(sep, parts[1..])
  }

  lemma JoinCons(sep: string, x: string, rest: seq<string>)
    requires |rest| >= 1
    ensures Join(sep, [x] + rest) == x + sep + Join(sep, rest)
  {
    assert ([x] + rest)[1..] == rest;
  }

  /** A character put in front of the first piece is put in front of the
      joined text. */
  lemma JoinPrepend(sep: string, c: char, rest: seq<string>)
    requires |rest| >= 1
    ensures Join(sep, [[c] + rest[0]] + rest[1..]) == [c] + Join(sep, rest)
  {
    if |rest| > 1 {
      JoinCons(sep, [c] + rest[0], rest[1..]);
      assert rest == [rest[0]] + rest[1..];
      JoinCons(sep, rest[0], rest[1..]);
    } else {
      assert [[c] + rest[0]] + rest[1..] == [[c] + rest[0]];
    }
  }

  lemma SplitAtSeparator(s: string, sep: string)
    requires sep != [] && |s| >= |sep| && s[..|sep|] == sep
    ensures Split(s, sep) == [""] + Split(s[|sep|..], sep)
  {
  }

  lemma SplitPastChar(s: string, sep: string)
    requires sep != [] && s != [] && !(|s| >= |sep| && s[..|sep|] == sep)
    ensures Split(s, sep) == [[s[0]] + Split(s[1..], sep)[0]] + Split(s[1..], sep)[1..]
  {
  }

  /** Splitting and joining on the same separator gives the string back. */
  lemma {:induction false} JoinSplit(s: string, sep: string)
    requires sep != []
    ensures Join(sep, Split(s, sep)) == s
  {
    if |s| >= |sep| && s[..|sep|] == sep {
      var tail := s[|sep|..];
      JoinSplit(tail, sep);
      SplitAtSeparator(s, sep);
      JoinCons(sep, "", Split(tail, sep));
      assert s == sep + tail;
    } else if s != [] {
      var tail := s[1..];
      JoinSplit(tail, sep);
      SplitPastChar(s, sep);
      JoinPrepend(sep, s[0], Split(tail, sep));
      assert s == [s[0]] + tail;
    }
  }

  /** The prefix of `s` before the first `c` (all of `s` when it has none). */
  function BeforeFirst(s: string, c: char): (r: string)
    ensures |r| <= |s| && r == s[..|r|]
    ensures forall i :: 0 <= i < |r| ==> r[i] != c
    ensures |r| < |s| ==> s[|r|] == c
  {
    if s == [] || s[0] == c then [] else [s[0]] + BeforeFirst(s[1..], c)
  }

  /** With a one-character separator, the first piece of `split` is the text
      before the first separator. */
  lemma {:induction false} SplitFirstPiece(s: string, c: char)
    ensures Split(s, [c])[0] == BeforeFirst(s, c)
  {
    if s != [] && s[0] != c {
      assert !(s[..1] == [c]);
      SplitFirstPiece(s[1..], c);
    } else if s != [] {
      assert s[..1] == [c];
    }
  }

  /** Lowering does not move a ':' or create one. */
  lemma {:induction false} LowerBeforeFirstColon(s: string)
    ensures BeforeFirst(Lower(s), ':') == Lower(BeforeFirst(s, ':'))
  {
    if s != [] {
      assert Lower(s)[1..] == Lower(s[1..]);
      LowerBeforeFirstColon(s[1..]);
    }
  }

  /** The white space of Python's `str.isspace`, the separators of a bare
      `split()`: the ASCII controls tab to carriage return and the four
      information separators, the space, next line, no-break space, and the
      Unicode spaces and line and paragraph separators. */
  predicate IsSpace(c: char)
  {
    c == ' ' || ('\t' <= c <= '\r') || ('\U{1C}' <= c <= '\U{1F}') || c == '\U{85}' || c == '\U{A0}'
    || c == '\U{1680}' || ('\U{2000}' <= c <= '\U{200A}') || c == '\U{2028}' || c == '\U{2029}'
    || c == '\U{202F}' || c == '\U{205F}' || c == '\U{3000}'
  }

  predicate NoSpace(w: string)
  {
    forall i :: 0 <= i < |w| ==> !IsSpace(w[i])
  }

  /** `s.split()` / `s.split(None)`: the maximal runs of non-space characters. */
  function SplitWhitespace(s: string): seq<string>
    decreases |s|
  {
    var t := DropSpaces(s);
    if t == [] then []
    else
      var n := WordLength(t);
      [t[..n]] + SplitWhitespace(t[n..])
  }

  /** Every piece of `split()` is non-empty and holds no white space. */
  lemma {:induction false} SplitWhitespaceWords(s: string)
    ensures forall k :: 0 <= k < |SplitWhitespace(s)| ==> SplitWhitespace(s)[k] != [] && NoSpace(SplitWhitespace(s)[k])
    decreases |s|
  {
    var t := DropSpaces(s);
    if t != [] {
      var n := WordLength(t);
      WordNoSpace(t);
      SplitWhitespaceWords(t[n..]);
      var r := SplitWhitespace(s);
      assert r == [t[..n]] + SplitWhitespace(t[n..]);
      forall k | 0 <= k < |r|
        ensures r[k] != [] && NoSpace(r[k])
      {
        if k > 0 {
          assert r[k] == SplitWhitespace(t[n..])[k - 1];
        }
      }
    }
  }

  /** A word followed by white space or by nothing is read whole. */
  lemma {:induction false} WordLengthOfWord(w: string, rest: string)
    requires NoSpace(w) && (rest == [] || IsSpace(rest[0]))
    ensures WordLength(w + rest) == |w|
    decreases |w|
  {
    if w == [] {
      assert w + rest == rest;
    } else {
      assert (w + rest)[0] == w[0] && (w + rest)[1..] == w[1..] + rest;
      assert forall i :: 0 <= i < |w[1..]| ==> w[1..][i] == w[i + 1];
      WordLengthOfWord(w[1..], rest);
    }
  }

  /** A text that starts with a word: that word, then the split of the
      rest. */
  lemma SplitWhitespaceWord(s: string)
    requires s != [] && !IsSpace(s[0])
    ensures SplitWhitespace(s) == [s[..WordLength(s)]] + SplitWhitespace(s[WordLength(s)..])
  {
    assert DropSpaces(s) == s;
  }

  /** Leading white space does not change the split. */
  lemma SplitWhitespaceSpace(c: char, w: string)
    requires IsSpace(c)
    ensures SplitWhitespace([c] + w) == SplitWhitespace(w)
  {
    assert ([c] + w)[1..] == w;
    assert DropSpaces([c] + w) == DropSpaces(w);
  }

  /** A word followed by white space or by nothing comes off whole. */
  lemma SplitWordThenRest(w: string, rest: string)
    requires w != [] && NoSpace(w) && (rest == [] || IsSpace(rest[0]))
    ensures SplitWhitespace(w + rest) == [w] + SplitWhitespace(rest)
  {
    assert (w + rest)[0] == w[0];
    WordLengthOfWord(w, rest);
    SplitWhitespaceWord(w + rest);
    assert (w + rest)[..|w|] == w && (w + rest)[|w|..] == rest;
  }

  /** A single word splits into itself. */
  lemma SplitOneWord(w: string)
    requires w != [] && NoSpace(w)
    ensures SplitWhitespace(w) == [w]
  {
    var none: string := [];
    SplitWordThenRest(w, none);
    assert w + none == w;
    assert DropSpaces(none) == [];
  }

  /** Two words around one white-space character split into those two
      words. */
  lemma SplitTwoWords(w1: string, c: char, w2: string)
    requires w1 != [] && w2 != [] && NoSpace(w1) && NoSpace(w2) && IsSpace(c)
    ensures SplitWhitespace(w1 + [c] + w2) == [w1, w2]
  {
    assert w1 + [c] + w2 == w1 + ([c] + w2);
    SplitWordThenRest(w1, [c] + w2);
    SplitWhitespaceSpace(c, w2);
    SplitOneWord(w2);
  }

  /** An ideographic space separates words as an ASCII space does. */
  lemma SplitIdeographicSpace()
    ensures SplitWhitespace("a\U{3000}b") == ["a", "b"]
  {
    assert "a" + ['\U{3000}'] + "b" == "a\U{3000}b";
    SplitTwoWords("a", '\U{3000}', "b");
  }

  function DropSpaces(s: string): (r: string)
    ensures |r| <= |s| && r == s[|s| - |r|..]
    ensures r != [] ==> !IsSpace(r[0])
  {
    if s != [] && IsSpace(s[0]) then DropSpaces(s[1..]) else s
  }

  /** Length of the leading run of non-space characters, at least one when
      the text starts with one. */
  function WordLength(s: string): (r: nat)
    ensures r <= |s|
    ensures s != [] && !IsSpace(s[0]) ==> r >= 1
  {
    if s == [] || IsSpace(s[0]) then 0 else 1 + WordLength(s[1..])
  }

  /** The leading run holds no white space. */
  lemma {:induction false} WordNoSpace(s: string)
    ensures NoSpace(s[..WordLength(s)])
  {
    if s != [] && !IsSpace(s[0]) {
      WordNoSpace(s[1..]);
      assert s[..WordLength(s)] == [s[0]] + s[1..][..WordLength(s[1..])];
    }
  }

  // ---------------------------------------------------------------- bytes

  /** utils.xor: every byte of `data` xor-ed with `key`. */
  function Xor(data: seq<bv8>, key: bv8): (r: seq<bv8>)
    ensures |r| == |data|
  {
    seq(|data|, i requires 0 <= i < |data| => data[i] ^ key)
  }

  /** Xor-ing twice with the same key gives the bytes back. */
  lemma XorInvolution(data: seq<bv8>, key: bv8)
    ensures Xor(Xor(data, key), key) == data
  {
    forall i | 0 <= i < |data|
      ensures Xor(Xor(data, key), key)[i] == data[i]
    {
      assert (data[i] ^ key) ^ key == data[i];
    }
  }
}
