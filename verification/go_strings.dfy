/** The parts of Go's standard library that the games' string handling relies on:
    RE2's `\s` class, `unicode.IsSpace`, case mapping, `strings.TrimSpace`,
    `strings.TrimPrefix`/`TrimSuffix`, `strings.Split`, `%d` formatting and the
    byte length of a UTF-8 encoded string. Strings are sequences of Unicode
    scalar values (Go runes). */
module GoStrings {

  /** RE2's `\s`: tab, newline, form feed, carriage return and space (no vertical tab). */
  predicate IsRegexSpace(c: char) {
    c == '\t' || c == '\n' || c == '\U{C}' || c == '\r' || c == ' '
  }

  /** Go's `unicode.IsSpace`: the Unicode White_Space property. */
  predicate IsUnicodeSpace(c: char) {
    || c == '\t' || c == '\n' || c == '\U{B}' || c == '\U{C}' || c == '\r' || c == ' '
    || c == '\U{85}' || c == '\U{A0}' || c == '\U{1680}'
    || ('\U{2000}' <= c <= '\U{200A}')
    || c == '\U{2028}' || c == '\U{2029}' || c == '\U{202F}' || c == '\U{205F}' || c == '\U{3000}'
  }

  lemma RegexSpaceIsUnicodeSpace(c: char)
    ensures IsRegexSpace(c) ==> IsUnicodeSpace(c)
  {
  }

  predicate IsUpper(c: char) { 'A' <= c <= 'Z' }
  predicate IsLower(c: char) { 'a' <= c <= 'z' }
  predicate IsDigit(c: char) { '0' <= c <= '9' }

  function LowerChar(c: char): (r: char)
    ensures !IsUpper(r)
    ensures !IsUpper(c) ==> r == c
    ensures IsUpper(c) ==> IsLower(r) && r as int == c as int + 32
  {
    if IsUpper(c) then (c as int + 32) as char else c
  }

  function UpperChar(c: char): (r: char)
    ensures !IsLower(r)
    ensures !IsLower(c) ==> r == c
    ensures IsLower(c) ==> IsUpper(r) && r as int + 32 == c as int
  {
    if IsLower(c) then (c as int - 32) as char else c
  }

  /** `strings.ToLower`, restricted to the ASCII letters. */
  function ToLower(s: string): (r: string)
    ensures |r| == |s|
    ensures forall i :: 0 <= i < |s| ==> r[i] == LowerChar(s[i])
  {
    seq(|s|, i requires 0 <= i < |s| => LowerChar(s[i]))
  }

  /** `strings.ToUpper`, restricted to the ASCII letters. */
  function ToUpper(s: string): (r: string)
    ensures |r| == |s|
    ensures forall i :: 0 <= i < |s| ==> r[i] == UpperChar(s[i])
  {
    seq(|s|, i requires 0 <= i < |s| => UpperChar(s[i]))
  }

  /** `r` occurs in `s` as a contiguous run of characters. */
  ghost predicate IsInfix(r: string, s: string) {
    exists i :: InfixAt(r, s, i)
  }

  /** `r` occurs in `s` starting at index `i`. */
  ghost predicate InfixAt(r: string, s: string, i: int) {
    0 <= i <= |s| - |r| && s[i..i + |r|] == r
  }

  lemma InfixAtIndex(r: string, s: string, i: int)
    requires InfixAt(r, s, i)
    ensures forall k :: 0 <= k < |r| ==> r[k] == s[i + k]
  {
    forall k | 0 <= k < |r| ensures r[k] == s[i + k] {
      assert r[k] == s[i..i + |r|][k];
    }
  }

  /** A piece of a piece is a piece, at the sum of the offsets. */
  lemma InfixAtTransitive(a: string, b: string, c: string, i: int, j: int)
    requires InfixAt(a, b, i) && InfixAt(b, c, j)
    ensures InfixAt(a, c, j + i)
  {
    forall k | 0 <= k < |a| ensures c[j + i..j + i + |a|][k] == a[k] {
      assert a[k] == b[i + k];
      assert b[i + k] == c[j..j + |b|][i + k];
    }
    assert c[j + i..j + i + |a|] == a;
  }

  lemma InfixTransitive(a: string, b: string, c: string)
    requires IsInfix(a, b) && IsInfix(b, c)
    ensures IsInfix(a, c)
  {
    var i :| InfixAt(a, b, i);
    var j :| InfixAt(b, c, j);
    InfixAtTransitive(a, b, c, i, j);
  }

  /** Strip leading `unicode.IsSpace` characters. */
  function TrimLeftSpace(s: string): (r: string)
    ensures |r| <= |s| && r == s[|s| - |r|..]
    ensures r != [] ==> !IsUnicodeSpace(r[0])
  {
    if s != [] && IsUnicodeSpace(s[0]) then TrimLeftSpace(s[1..]) else s
  }

  /** Strip trailing `unicode.IsSpace` characters. */
  function TrimRightSpace(s: string): (r: string)
    ensures |r| <= |s| && r == s[..|r|]
    ensures r != [] ==> !IsUnicodeSpace(r[|r| - 1])
  {
    if s != [] && IsUnicodeSpace(s[|s| - 1]) then TrimRightSpace(s[..|s| - 1]) else s
  }

  lemma TrimRightKeepsFirst(s: string)
    ensures s != [] && !IsUnicodeSpace(s[0]) ==> TrimRightSpace(s) != [] && TrimRightSpace(s)[0] == s[0]
  {
    if |s| > 1 && !IsUnicodeSpace(s[0]) && IsUnicodeSpace(s[|s| - 1]) {
      TrimRightKeepsFirst(s[..|s| - 1]);
    }
  }

  /** Neither end of `s` is white space. */
  predicate Trimmed(s: string) {
    s != [] ==> !IsUnicodeSpace(s[0]) && !IsUnicodeSpace(s[|s| - 1])
  }

  /** `strings.TrimSpace`: neither end of the result is white space, and the
      result is the part of the input that starts after the leading white space. */
  function TrimSpace(s: string): (r: string)
    ensures Trimmed(r)
  {
    var left := TrimLeftSpace(s);
    TrimRightKeepsFirst(left);
    TrimRightSpace(left)
  }

  /** What `TrimSpace` keeps is the part of the input just after its leading
      white space. */
  lemma TrimSpaceInfix(s: string)
    ensures InfixAt(TrimSpace(s), s, |s| - |TrimLeftSpace(s)|)
  {
    var left := TrimLeftSpace(s);
    var r := TrimRightSpace(left);
    assert s[|s| - |left|..|s| - |left| + |r|] == left[..|r|];
  }

  /** A suffix of `s` occurs in `s` where it ends. */
  lemma SuffixInfix(r: string, s: string)
    requires |r| <= |s| && r == s[|s| - |r|..]
    ensures InfixAt(r, s, |s| - |r|)
  {
    assert s[|s| - |r|..|s|] == s[|s| - |r|..];
  }

  /** Trimming a string whose ends are not white space changes nothing. */
  lemma TrimSpaceTrimmed(s: string)
    requires Trimmed(s)
    ensures TrimSpace(s) == s
  {
    if s != [] {
      assert TrimLeftSpace(s) == s;
    }
  }

  lemma ToLowerLower(s: string)
    requires forall i :: 0 <= i < |s| ==> !IsUpper(s[i])
    ensures ToLower(s) == s
  {
  }

  /** `strings.Contains`: `sub` starts at some position of `s`. */
  predicate Contains(s: string, sub: string)
    decreases |s|
  {
    HasPrefix(s, sub) || (s != [] && Contains(s[1..], sub))
  }

  /** `strings.HasPrefix`. */
  predicate HasPrefix(s: string, prefix: string) {
    prefix <= s
  }

  /** `strings.TrimPrefix`: remove `prefix` once if `s` starts with it. */
  function TrimPrefix(s: string, prefix: string): string {
    if HasPrefix(s, prefix) then s[|prefix|..] else s
  }

  /** What `TrimPrefix` keeps is a suffix of its input: all of it when the
      prefix is absent, all but the prefix when it is present. */
  lemma TrimPrefixSuffix(s: string, prefix: string)
    ensures |TrimPrefix(s, prefix)| <= |s|
    ensures TrimPrefix(s, prefix) == s[|s| - |TrimPrefix(s, prefix)|..]
    ensures HasPrefix(s, prefix) ==> |TrimPrefix(s, prefix)| == |s| - |prefix|
    ensures !HasPrefix(s, prefix) ==> TrimPrefix(s, prefix) == s
  {
  }

  /** `strings.HasSuffix`. */
  predicate HasSuffix(s: string, suffix: string) {
    |suffix| <= |s| && s[|s| - |suffix|..] == suffix
  }

  /** `strings.TrimSuffix`: remove `suffix` once if `s` ends with it. */
  function TrimSuffix(s: string, suffix: string): string {
    if HasSuffix(s, suffix) then s[..|s| - |suffix|] else s
  }

  /** What `TrimSuffix` removes is the suffix, and only when it is there. */
  lemma TrimSuffixSpec(s: string, suffix: string)
    ensures HasSuffix(s, suffix) ==> TrimSuffix(s, suffix) + suffix == s
    ensures !HasSuffix(s, suffix) ==> TrimSuffix(s, suffix) == s
  {
  }

  /** Appending a suffix and trimming it again gives back the string. */
  lemma TrimSuffixAppend(t: string, suffix: string)
    ensures TrimSuffix(t + suffix, suffix) == t
  {
    var s := t + suffix;
    assert s[|s| - |suffix|..] == suffix;
    assert s[..|s| - |suffix|] == t;
  }

  /** `strings.ReplaceAll` with a one-character pattern and replacement. */
  function ReplaceChar(s: string, from: char, to: char): (r: string)
    ensures |r| == |s|
    ensures forall i :: 0 <= i < |s| ==> r[i] == (if s[i] == from then to else s[i])
  {
    seq(|s|, i requires 0 <= i < |s| => if s[i] == from then to else s[i])
  }

  /** `strings.Split` with a one-character separator, scanned left to right:
      `field` is the part of the current field already read. */
  function SplitFrom(s: string, sep: char, field: string): (fields: seq<string>)
    requires sep !in field
    ensures |fields| >= 1
    ensures forall k :: 0 <= k < |fields| - 1 ==> sep !in fields[k]
    ensures sep !in field && sep !in s ==> fields == [field + s]
  {
    if s == [] then assert field + s == field; [field]
    else if s[0] == sep then [field] + SplitFrom(s[1..], sep, [])
    else assert field + s == (field + [s[0]]) + s[1..]; SplitFrom(s[1..], sep, field + [s[0]])
  }

  function Split(s: string, sep: char): seq<string> {
    SplitFrom(s, sep, [])
  }

  /** `strings.Join` with a one-character separator. */
  function Join(fields: seq<string>, sep: char): string
    requires |fields| >= 1
  {
    if |fields| == 1 then fields[0] else fields[0] + [sep] + Join(fields[1..], sep)
  }

  lemma {:induction false} SplitFromJoin(s: string, sep: char, field: string)
    requires sep !in field
    ensures Join(SplitFrom(s, sep, field), sep) == field + s
    decreases |s|
  {
    if s == [] {
    } else if s[0] == sep {
      SplitFromJoin(s[1..], sep, []);
      assert s == [sep] + s[1..];
    } else {
      SplitFromJoin(s[1..], sep, field + [s[0]]);
      assert s == [s[0]] + s[1..];
    }
  }

  /** Splitting and joining on the same separator gives back the input. */
  lemma SplitJoin(s: string, sep: char)
    ensures Join(Split(s, sep), sep) == s
  {
    SplitFromJoin(s, sep, []);
  }

  function DigitChar(d: nat): (c: char)
    requires d < 10
    ensures IsDigit(c)
  {
    ('0' as int + d) as char
  }

  /** `fmt.Sprintf("%d", n)` for a non-negative `n`. */
  function NatToString(n: nat): (s: string)
    ensures |s| >= 1 && (n >= 10 ==> |s| >= 2)
    ensures forall i :: 0 <= i < |s| ==> IsDigit(s[i])
  {
    if n < 10 then [DigitChar(n)] else NatToString(n / 10) + [DigitChar(n % 10)]
  }

  /** Different numbers print differently. */
  lemma {:induction false} NatToStringInjective(n: nat, m: nat)
    requires NatToString(n) == NatToString(m)
    ensures n == m
  {
    var s := NatToString(n);
    if n >= 10 && m >= 10 {
      assert s[|s| - 1] == DigitChar(n % 10) == DigitChar(m % 10);
      assert s[..|s| - 1] == NatToString(n / 10) == NatToString(m / 10);
      NatToStringInjective(n / 10, m / 10);
    } else if n < 10 && m < 10 {
      assert s[0] == DigitChar(n) == DigitChar(m);
    }
  }

  /** `fmt.Sprintf("%d", n)`. */
  function IntToString(n: int): (s: string)
    ensures |s| >= 1
    ensures s[0] == '-' <==> n < 0
  {
    if n < 0 then "-" + NatToString(-n) else NatToString(n)
  }

  lemma IntToStringInjective(n: int, m: int)
    requires IntToString(n) == IntToString(m)
    ensures n == m
  {
    if n < 0 {
      assert IntToString(n)[1..] == NatToString(-n);
      assert IntToString(m)[1..] == NatToString(-m);
      NatToStringInjective(-n, -m);
    } else {
      NatToStringInjective(n, m);
    }
  }

  /** Number of bytes a character takes in UTF-8. */
  function Utf8Width(c: char): (w: nat)
    ensures 1 <= w <= 4
  {
    if c as int < 0x80 then 1 else if c as int < 0x800 then 2 else if c as int < 0x10000 then 3 else 4
  }

  /** Go's `len` of a string: its length in bytes once encoded as UTF-8. */
  function Utf8Length(s: string): (n: nat)
    ensures |s| <= n <= 4 * |s|
  {
    if s == [] then 0 else Utf8Width(s[0]) + Utf8Length(s[1..])
  }
}
