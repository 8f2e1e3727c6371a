/** The pieces of Python's `str` behaviour the scripts rely on: whitespace and
    `strip()`, `int()` on text, ASCII `upper()`, the `in` substring test, the
    ordering `<=` used by `sort`, and `sep.join(...)` with its inverse. */
module Strings {
  import opened Values

  /** The characters for which Python's `str.isspace()` holds, which `strip()`
      removes: U+0009..U+000D, U+001C..U+0020, U+0085, U+00A0, U+1680,
      U+2000..U+200A, U+2028, U+2029, U+202F, U+205F, U+3000. `int()` skips all
      of them except the four separators U+001C..U+001F (see `IsSeparator`). */
  predicate IsSpace(c: char) {
    || ('\t' <= c <= '\r')
    || ('\U{1C}' <= c <= ' ')
    || c == '\U{85}' || c == '\U{A0}' || c == '\U{1680}'
    || ('\U{2000}' <= c <= '\U{200A}')
    || c == '\U{2028}' || c == '\U{2029}' || c == '\U{202F}' || c == '\U{205F}' || c == '\U{3000}'
  }

  /** Every character is whitespace (the empty string included). */
  predicate IsBlank(s: string) {
    forall i :: 0 <= i < |s| ==> IsSpace(s[i])
  }

  /** `s.strip()`: whitespace removed from both ends. */
  function Strip(s: string): string
    decreases |s|
  {
    if |s| > 0 && IsSpace(s[0]) then Strip(s[1..])
    else if |s| > 0 && IsSpace(s[|s| - 1]) then Strip(s[..|s| - 1])
    else s
  }

  /** `r` sits at offset `a` of `s` with only whitespace around it. */
  predicate IsTrimmedSlice(r: string, s: string, a: nat) {
    a + |r| <= |s| && r == s[a..a + |r|] && IsBlank(s[..a]) && IsBlank(s[a + |r|..])
  }

  /** What `strip()` leaves is a slice of the text with only whitespace cut
      off on either side. Returns where the slice starts. */
  lemma {:induction false} StripIsTrimmedSlice(s: string) returns (a: nat)
    ensures IsTrimmedSlice(Strip(s), s, a)
    decreases |s|
  {
    if |s| > 0 && IsSpace(s[0]) {
      var a' := StripIsTrimmedSlice(s[1..]);
      a := LeadingSpaceStep(s, a');
    } else if |s| > 0 && IsSpace(s[|s| - 1]) {
      a := StripIsTrimmedSlice(s[..|s| - 1]);
      TrailingSpaceStep(s, a);
    } else {
      a := 0;
      assert s[|s|..] == [];
    }
  }

  lemma LeadingSpaceStep(s: string, a': nat) returns (a: nat)
    requires |s| > 0 && IsSpace(s[0])
    requires IsTrimmedSlice(Strip(s[1..]), s[1..], a')
    ensures IsTrimmedSlice(Strip(s), s, a)
  {
    assert Strip(s) == Strip(s[1..]);
    FirstSplit(s);
    TrimmedSliceExtends(Strip(s), [s[0]], s[1..], [], s, a');
    a := a' + 1;
  }

  lemma TrailingSpaceStep(s: string, a: nat)
    requires |s| > 0 && !IsSpace(s[0]) && IsSpace(s[|s| - 1])
    requires IsTrimmedSlice(Strip(s[..|s| - 1]), s[..|s| - 1], a)
    ensures IsTrimmedSlice(Strip(s), s, a)
  {
    assert Strip(s) == Strip(s[..|s| - 1]);
    LastSplit(s);
    TrimmedSliceExtends(Strip(s), [], s[..|s| - 1], [s[|s| - 1]], s, a);
  }

  lemma FirstSplit(s: string)
    requires |s| > 0
    ensures [s[0]] + s[1..] + [] == s
  {
  }

  lemma LastSplit(s: string)
    requires |s| > 0
    ensures [] + s[..|s| - 1] + [s[|s| - 1]] == s
  {
  }

  /** Whitespace added on either side keeps a trimmed slice trimmed. */
  lemma TrimmedSliceExtends(r: string, pre: string, s: string, post: string, w: string, a: nat)
    requires IsBlank(pre) && IsBlank(post) && IsTrimmedSlice(r, s, a)
    requires w == pre + s + post
    ensures IsTrimmedSlice(r, w, |pre| + a)
  {
    var b := |pre| + a;
    assert w[b..b + |r|] == s[a..a + |r|];
    assert w[..b] == pre + s[..a];
    assert w[b + |r|..] == s[a + |r|..] + post;
  }

  /** `strip()` gives the empty string exactly for blank text, and otherwise
      text that neither starts nor ends with whitespace. */
  lemma {:induction false} StripEnds(s: string)
    ensures Strip(s) == [] <==> IsBlank(s)
    ensures |Strip(s)| > 0 ==> !IsSpace(Strip(s)[0]) && !IsSpace(Strip(s)[|Strip(s)| - 1])
    decreases |s|
  {
    if |s| > 0 && IsSpace(s[0]) {
      var t := s[1..];
      StripEnds(t);
      assert IsBlank(s) <==> IsBlank(t) by {
        assert forall k :: 1 <= k < |s| ==> s[k] == t[k - 1];
      }
    } else if |s| > 0 && IsSpace(s[|s| - 1]) {
      var t := s[..|s| - 1];
      StripEnds(t);
      assert IsBlank(s) <==> IsBlank(t) by {
        assert forall k :: 0 <= k < |t| ==> s[k] == t[k];
      }
    }
  }

  /** Text with no whitespace at either end is left as it is. */
  lemma StripKeepsTrimmed(s: string)
    requires |s| > 0 && !IsSpace(s[0]) && !IsSpace(s[|s| - 1])
    ensures Strip(s) == s
  {
  }

  /** `s[:n]` in Python: the first `n` characters, or all of `s` when shorter. */
  function Head(s: string, n: nat): (r: string)
    ensures |r| == if |s| < n then |s| else n
    ensures r == s[..|r|]
  {
    if |s| <= n then s else s[..n]
  }

  // ---------------------------------------------------------------- int()

  predicate IsDigit(c: char) {
    '0' <= c <= '9'
  }

  function DigitOf(c: char): nat {
    if IsDigit(c) then c as int - '0' as int else 0
  }

  function DigitChar(d: nat): char
    requires d < 10
  {
    ('0' as int + d) as char
  }

  /** Digits, optionally with single underscores between two digits: the
      body of a decimal literal that Python's `int()` accepts. */
  predicate IsDigitGroup(s: string) {
    && |s| > 0
    && IsDigit(s[0])
    && IsDigit(s[|s| - 1])
    && forall i :: 0 <= i < |s| ==> IsDigit(s[i]) || (s[i] == '_' && i + 1 < |s| && IsDigit(s[i + 1]))
  }

  /** The decimal value of the digits in `s`, underscores skipped. */
  function DigitsValue(s: string): nat
    decreases |s|
  {
    if |s| == 0 then 0
    else if s[|s| - 1] == '_' then DigitsValue(s[..|s| - 1])
    else DigitsValue(s[..|s| - 1]) * 10 + DigitOf(s[|s| - 1])
  }

  /** The ASCII information separators U+001C..U+001F: `isspace()` holds for
      them, but `int()` only skips the ASCII whitespace " \t\n\v\f\r" (after
      mapping non-ASCII whitespace to a space), so it rejects them. */
  predicate IsSeparator(c: char) {
    '\U{1C}' <= c <= '\U{1F}'
  }

  /** Python's `int(s)` for a `str` argument: surrounding whitespace is
      ignored, one optional sign, then a digit group; anything else raises
      ValueError, here `None`. A separator anywhere is neither skipped nor part
      of a digit group, so it always raises. */
  function PyInt(s: string): Option<int> {
    if exists i :: 0 <= i < |s| && IsSeparator(s[i]) then None
    else ParseSignedDigits(Strip(s))
  }

  /** What `int()` accepts once whitespace is stripped: an optional sign and a
      digit group. */
  function ParseSignedDigits(t: string): Option<int> {
    if |t| > 0 && (t[0] == '+' || t[0] == '-') then
      if IsDigitGroup(t[1..]) then
        var n: int := DigitsValue(t[1..]);
        Some(if t[0] == '-' then -n else n)
      else None
    else if IsDigitGroup(t) then Some(DigitsValue(t))
    else None
  }

  /** The shortest decimal spelling of `n`, as Python's `str(n)` writes it. */
  function DecimalString(n: nat): (s: string)
    ensures |s| > 0
    ensures forall i :: 0 <= i < |s| ==> IsDigit(s[i])
    decreases n
  {
    if n < 10 then [DigitChar(n)] else DecimalString(n / 10) + [DigitChar(n % 10)]
  }

  lemma {:induction false} DigitsValueOfDecimalString(n: nat)
    ensures DigitsValue(DecimalString(n)) == n
    decreases n
  {
    var s := DecimalString(n);
    if n >= 10 {
      DigitsValueOfDecimalString(n / 10);
      assert s[..|s| - 1] == DecimalString(n / 10);
    }
  }

  lemma DigitIsNotSpace(c: char)
    requires IsDigit(c)
    ensures !IsSpace(c)
  {
  }

  lemma DecimalStringIsDigitGroup(n: nat)
    ensures IsDigitGroup(DecimalString(n))
    ensures Strip(DecimalString(n)) == DecimalString(n)
  {
    var s := DecimalString(n);
    DigitIsNotSpace(s[0]);
    DigitIsNotSpace(s[|s| - 1]);
    StripKeepsTrimmed(s);
  }

  lemma ParseDigitGroup(t: string)
    requires IsDigitGroup(t)
    ensures ParseSignedDigits(t) == Some(DigitsValue(t) as int)
  {
  }

  /** A separator anywhere makes `int()` raise, even at either end where
      `strip()` would have removed it: `int("\x1c2021")` is a ValueError. */
  lemma SeparatorIsRejected(s: string, i: nat)
    requires i < |s| && IsSeparator(s[i])
    ensures PyInt(s) == None
    ensures IsSpace(s[i])
  {
  }

  /** `int(str(n)) == n`. */
  lemma PyIntOfDecimalString(n: nat)
    ensures PyInt(DecimalString(n)) == Some(n as int)
  {
    var s := DecimalString(n);
    DigitsValueOfDecimalString(n);
    DecimalStringIsDigitGroup(n);
    ParseDigitGroup(s);
  }

  /** Four ASCII digits parse to their value, whatever follows them. */
  lemma PyIntOfFourDigits(s: string)
    requires |s| >= 4
    requires forall i :: 0 <= i < 4 ==> IsDigit(s[i])
    ensures PyInt(Head(s, 4)) == Some(1000 * DigitOf(s[0]) + 100 * DigitOf(s[1]) + 10 * DigitOf(s[2]) + DigitOf(s[3]))
  {
    var h := Head(s, 4);
    DigitIsNotSpace(h[0]);
    DigitIsNotSpace(h[3]);
    StripKeepsTrimmed(h);
    assert IsDigitGroup(h);
    assert h[0] != '+' && h[0] != '-';
    assert h[..3][..2] == h[..2] && h[..2][..1] == h[..1] && h[..1][..0] == [];
    assert DigitsValue(h[..1]) == DigitOf(s[0]);
    assert DigitsValue(h[..2]) == 10 * DigitOf(s[0]) + DigitOf(s[1]);
    assert DigitsValue(h[..3]) == 100 * DigitOf(s[0]) + 10 * DigitOf(s[1]) + DigitOf(s[2]);
  }

  // ---------------------------------------------------------------- upper()

  function UpperChar(c: char): char {
    if 'a' <= c <= 'z' then (c as int - 32) as char else c
  }

  /** `s.upper()` restricted to ASCII letters. */
  function Upper(s: string): (r: string)
    ensures |r| == |s|
  {
    seq(|s|, i requires 0 <= i < |s| => UpperChar(s[i]))
  }

  lemma UpperIdempotent(s: string)
    ensures Upper(Upper(s)) == Upper(s)
  {
  }

  // ---------------------------------------------------------------- `in`

  predicate StartsWith(s: string, prefix: string) {
    |prefix| <= |s| && s[..|prefix|] == prefix
  }

  /** Python's `sub in s` on strings. */
  predicate Contains(s: string, sub: string)
    decreases |s|
  {
    StartsWith(s, sub) || (|s| > 0 && Contains(s[1..], sub))
  }

  lemma {:induction false} ContainsAt(s: string, sub: string, i: nat)
    requires i + |sub| <= |s| && s[i..i + |sub|] == sub
    ensures Contains(s, sub)
    decreases i
  {
    if i > 0 {
      assert s[1..][i - 1..i - 1 + |sub|] == s[i..i + |sub|];
      ContainsAt(s[1..], sub, i - 1);
    }
  }

  lemma {:induction false} ContainsWitness(s: string, sub: string) returns (i: nat)
    requires Contains(s, sub)
    ensures i + |sub| <= |s| && s[i..i + |sub|] == sub
    decreases |s|
  {
    if StartsWith(s, sub) {
      i := 0;
    } else {
      var j := ContainsWitness(s[1..], sub);
      i := j + 1;
      assert s[i..i + |sub|] == s[1..][j..j + |sub|];
    }
  }

  // ---------------------------------------------------------------- ordering

  /** Python's `a <= b` on strings: lexicographic by code point, a prefix
      ordered before its extensions. (Dafny's own `<=` on sequences is the
      prefix relation, hence this definition.) */
  predicate LexLe(a: string, b: string)
    decreases |a|
  {
    if |a| == 0 then true
    else if |b| == 0 then false
    else if a[0] != b[0] then a[0] < b[0]
    else LexLe(a[1..], b[1..])
  }

  lemma {:induction false} LexLeReflexive(a: string)
    ensures LexLe(a, a)
    decreases |a|
  {
    if |a| > 0 {
      LexLeReflexive(a[1..]);
    }
  }

  lemma {:induction false} LexLeTotal(a: string, b: string)
    ensures LexLe(a, b) || LexLe(b, a)
    decreases |a|
  {
    if |a| > 0 && |b| > 0 && a[0] == b[0] {
      LexLeTotal(a[1..], b[1..]);
    }
  }

  lemma {:induction false} LexLeAntisymmetric(a: string, b: string)
    requires LexLe(a, b) && LexLe(b, a)
    ensures a == b
    decreases |a|
  {
    if |a| > 0 {
      LexLeAntisymmetric(a[1..], b[1..]);
      assert a == [a[0]] + a[1..] && b == [b[0]] + b[1..];
    }
  }

  lemma {:induction false} LexLeTransitive(a: string, b: string, c: string)
    requires LexLe(a, b) && LexLe(b, c)
    ensures LexLe(a, c)
    decreases |a|
  {
    if |a| > 0 && a[0] == b[0] && b[0] == c[0] {
      LexLeTransitive(a[1..], b[1..], c[1..]);
    }
  }

  // ---------------------------------------------------------------- join / split

  /** `sep.join(parts)` for a one-character separator. */
  function Join(sep: char, parts: seq<string>): string
    decreases |parts|
  {
    if |parts| == 0 then ""
    else if |parts| == 1 then parts[0]
    else parts[0] + [sep] + Join(sep, parts[1..])
  }

  /** `s.split(sep)` for a one-character separator. */
  function Split(s: string, sep: char): (r: seq<string>)
    ensures |r| > 0
    decreases |s|
  {
    if |s| == 0 then [""]
    else if s[0] == sep then [""] + Split(s[1..], sep)
    else
      var rest := Split(s[1..], sep);
      [[s[0]] + rest[0]] + rest[1..]
  }

  lemma {:induction false} SplitWithoutSeparator(s: string, sep: char)
    requires sep !in s
    ensures Split(s, sep) == [s]
    decreases |s|
  {
    if |s| > 0 {
      SplitWithoutSeparator(s[1..], sep);
      assert [s[0]] + s[1..] == s;
    }
  }

  lemma {:induction false} SplitAtFirstSeparator(a: string, sep: char, b: string)
    requires sep !in a
    ensures Split(a + [sep] + b, sep) == [a] + Split(b, sep)
    decreases |a|
  {
    var s := a + [sep] + b;
    if |a| == 0 {
      assert s[0] == sep && s[1..] == b;
    } else {
      assert s[0] == a[0] && s[1..] == a[1..] + [sep] + b;
      SplitAtFirstSeparator(a[1..], sep, b);
      assert [a[0]] + a[1..] == a;
    }
  }

  /** Splitting undoes joining when no part contains the separator. */
  lemma {:induction false} SplitJoin(sep: char, parts: seq<string>)
    requires |parts| > 0
    requires forall i :: 0 <= i < |parts| ==> sep !in parts[i]
    ensures Split(Join(sep, parts), sep) == parts
    decreases |parts|
  {
    if |parts| == 1 {
      SplitWithoutSeparator(parts[0], sep);
    } else {
      SplitJoin(sep, parts[1..]);
      SplitAtFirstSeparator(parts[0], sep, Join(sep, parts[1..]));
      assert [parts[0]] + parts[1..] == parts;
    }
  }
}
