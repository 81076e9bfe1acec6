/**
 * The PHP and MySQL built-ins the plugin's logic rests on, as functions over strings:
 * `empty()` and the `(bool)` cast of a string, `trim()`, `sprintf("%d")`, `str_repeat()`,
 * containment of one string in another, MySQL's `real_escape_string` and the reading
 * of a quoted string literal, Joomla's `LIKE` escaping, and the `LIKE` operator with
 * its `%`, `_` and backslash escapes. A string is a sequence of single-byte characters.
 */
module Php {

  /** PHP's `empty()` on a string: "" and "0" are the empty strings. A string is
      truthy (`(bool)$s`, `if ($s)`) exactly when it is not empty. */
  predicate IsEmpty(s: string) {
    s == "" || s == "0"
  }

  /** The characters `trim()` strips by default: space, tab, newline, carriage
      return, NUL and vertical tab. */
  predicate IsTrimSpace(c: char) {
    c == ' ' || c == '\t' || c == '\n' || c == '\r' || c == '\0' || c as int == 0x0B
  }

  predicate AllTrimSpace(s: string) {
    forall k :: 0 <= k < |s| ==> IsTrimSpace(s[k])
  }

  /** `ltrim()`: drops the leading whitespace, keeps a suffix of `s`. */
  function TrimStart(s: string): (r: string)
    ensures |r| <= |s| && r == s[|s| - |r|..]
    ensures r != [] ==> !IsTrimSpace(r[0])
    ensures forall k :: 0 <= k < |s| - |r| ==> IsTrimSpace(s[k])
    decreases |s|
  {
    if s != [] && IsTrimSpace(s[0]) then TrimStart(s[1..]) else s
  }

  /** `rtrim()`: drops the trailing whitespace, keeps a prefix of `s`. */
  function TrimEnd(s: string): (r: string)
    ensures |r| <= |s| && r == s[..|r|]
    ensures r != [] ==> !IsTrimSpace(r[|r| - 1])
    ensures forall k :: |r| <= k < |s| ==> IsTrimSpace(s[k])
    decreases |s|
  {
    if s != [] && IsTrimSpace(s[|s| - 1]) then TrimEnd(s[..|s| - 1]) else s
  }

  /** `trim()`: the result is empty exactly when `s` is all whitespace, and
      otherwise neither starts nor ends with whitespace. */
  function Trim(s: string): (r: string)
    ensures r == [] <==> AllTrimSpace(s)
    ensures r != [] ==> !IsTrimSpace(r[0]) && !IsTrimSpace(r[|r| - 1])
  {
    var front := TrimStart(s);
    var r := TrimEnd(front);
    assert front != [] ==> r != [] by {
      if front != [] {
        assert !IsTrimSpace(front[0]);
      }
    }
    assert AllTrimSpace(s) ==> front == [] by {
      if front != [] {
        assert front[0] == s[|s| - |front|];
      }
    }
    r
  }

  /** What `trim()` returns is the slice of `s` left once the whitespace at both
      ends is cut off. */
  lemma TrimIsSlice(s: string) returns (i: nat, j: nat)
    ensures i <= j <= |s| && Trim(s) == s[i..j]
    ensures forall k :: 0 <= k < i ==> IsTrimSpace(s[k])
    ensures forall k :: j <= k < |s| ==> IsTrimSpace(s[k])
  {
    var front := TrimStart(s);
    var r := TrimEnd(front);
    i := |s| - |front|;
    j := i + |r|;
    assert Trim(s) == s[i..j] by {
      SliceOfSuffix(s, front, r, i);
    }
    assert forall k :: j <= k < |s| ==> IsTrimSpace(s[k]) by {
      SliceOfSuffix(s, front, r, i);
    }
  }

  lemma SliceOfSuffix(s: string, front: string, r: string, i: nat)
    requires i <= |s| && front == s[i..] && |r| <= |front| && r == front[..|r|]
    ensures r == s[i..i + |r|]
    ensures forall k :: i + |r| <= k < |s| ==> s[k] == front[k - i]
  {
  }

  /** `w` is a prefix of `s`. */
  predicate IsPrefix(w: string, s: string) {
    |w| <= |s| && s[..|w|] == w
  }

  /** `w` occurs somewhere in `s` (every string contains ""). */
  predicate Contains(s: string, w: string)
    decreases |s|
  {
    IsPrefix(w, s) || (s != [] && Contains(s[1..], w))
  }

  /** Where `s` contains `w`, `w` starts at some offset of `s`. */
  lemma {:induction false} ContainsOffset(s: string, w: string) returns (k: nat)
    requires Contains(s, w)
    ensures k <= |s| && IsPrefix(w, s[k..])
    decreases |s|
  {
    if IsPrefix(w, s) {
      k := 0;
      assert s[0..] == s;
    } else {
      var k' := ContainsOffset(s[1..], w);
      k := k' + 1;
      assert s[1..][k'..] == s[k..];
    }
  }

  /** Where `w` starts at offset `k` of `s`, `s` contains `w`. */
  lemma {:induction false} ContainsFromOffset(s: string, w: string, k: nat)
    requires k <= |s| && IsPrefix(w, s[k..])
    ensures Contains(s, w)
    decreases k
  {
    if k == 0 {
      assert s[0..] == s;
    } else {
      assert s[1..][k - 1..] == s[k..];
      ContainsFromOffset(s[1..], w, k - 1);
    }
  }

  /** A string of the same length contains `w` only if it is `w`. */
  lemma NotContainsLonger(w: string, s: string)
    requires |w| == |s| && w != s
    ensures !Contains(s, w)
  {
    if s != [] {
      if Contains(s[1..], w) {
        var k := ContainsOffset(s[1..], w);
      }
    }
  }

  /** Containment agrees with the positional definition: `w` starts at some
      offset `k` of `s`. */
  lemma ContainsAt(s: string, w: string)
    ensures Contains(s, w) <==> exists k :: 0 <= k <= |s| && IsPrefix(w, s[k..])
  {
    if Contains(s, w) {
      var k := ContainsOffset(s, w);
    }
    if k :| 0 <= k <= |s| && IsPrefix(w, s[k..]) {
      ContainsFromOffset(s, w, k);
    }
  }

  /** MySQL's `LIKE` on the value of a pattern (after the SQL string literal has
      been read): `%` matches any run of characters, `_` any one character, a
      backslash makes the character after it literal, anything else matches
      itself. Collation and case folding are not part of this definition. */
  function Like(p: string, s: string): bool
    decreases |p| + |s|
  {
    if p == [] then s == []
    else if p[0] == '%' then Like(p[1..], s) || (s != [] && Like(p, s[1..]))
    else if p[0] == '_' then s != [] && Like(p[1..], s[1..])
    else if p[0] == '\\' && |p| >= 2 then s != [] && s[0] == p[1] && Like(p[2..], s[1..])
    else s != [] && s[0] == p[0] && Like(p[1..], s[1..])
  }

  /** Ctrl-Z, which `real_escape_string` writes as `\Z`. */
  const CtrlZ: char := 0x1A as char

  /** What MySQL's `real_escape_string` writes for one character: `\0`, `\n`,
      `\r` and `\Z` for NUL, newline, carriage return and Ctrl-Z, a backslash
      before `\`, `'` and `"`, and any other character as itself. */
  function RealEscapeChar(c: char): (r: string)
    ensures |r| == 1 <==> r == [c]
  {
    if c == '\0' then "\\0"
    else if c == '\n' then "\\n"
    else if c == '\r' then "\\r"
    else if c == CtrlZ then "\\Z"
    else if c == '\\' || c == '\'' || c == '"' then ['\\', c]
    else [c]
  }

  /** `real_escape_string`, character by character. */
  function RealEscape(s: string): string
    decreases |s|
  {
    if s == [] then [] else RealEscapeChar(s[0]) + RealEscape(s[1..])
  }

  /** What MySQL makes of the escape sequence `\x` in a string literal: `\0`,
      `\b`, `\n`, `\r`, `\t` and `\Z` stand for control characters, `\%` and
      `\_` keep their backslash, and any other `\x` stands for `x`. */
  function LiteralEscape(x: char): string {
    if x == '0' then "\0"
    else if x == 'b' then [8 as char]
    else if x == 'n' then "\n"
    else if x == 'r' then "\r"
    else if x == 't' then "\t"
    else if x == 'Z' then [CtrlZ]
    else if x == '%' || x == '_' then ['\\', x]
    else [x]
  }

  /** The value MySQL reads from the body of a quoted string literal. */
  function ReadLiteral(s: string): string
    decreases |s|
  {
    if s == [] then []
    else if s[0] == '\\' && |s| >= 2 then LiteralEscape(s[1]) + ReadLiteral(s[2..])
    else [s[0]] + ReadLiteral(s[1..])
  }

  /** Reading back what `real_escape_string` wrote gives the string itself. */
  lemma {:induction false} ReadLiteralRealEscape(s: string)
    ensures ReadLiteral(RealEscape(s)) == s
    decreases |s|
  {
    if s != [] {
      var e := RealEscapeChar(s[0]);
      var rest := RealEscape(s[1..]);
      ReadLiteralRealEscape(s[1..]);
      var p := e + rest;
      if |e| == 1 {
        assert p[0] == s[0] && p[1..] == rest;
      } else {
        assert p[0] == '\\' && p[2..] == rest;
        assert LiteralEscape(p[1]) == [s[0]];
      }
      assert s == [s[0]] + s[1..];
    }
  }

  /** The value of `$db->quote($s)` as the database reads it: `$s` itself. */
  function QuotedValue(s: string): (r: string)
    ensures r == s
  {
    ReadLiteralRealEscape(s);
    ReadLiteral(RealEscape(s))
  }

  /** `addcslashes($s, '%_')`: a backslash before every `%` and `_`. */
  function EscapeWildcards(s: string): string
    decreases |s|
  {
    if s == [] then []
    else (if s[0] == '%' || s[0] == '_' then ['\\', s[0]] else [s[0]]) + EscapeWildcards(s[1..])
  }

  lemma {:induction false} EscapeWildcardsAppend(a: string, b: string)
    ensures EscapeWildcards(a + b) == EscapeWildcards(a) + EscapeWildcards(b)
    decreases |a|
  {
    if a == [] {
      assert a + b == b;
    } else {
      var h := if a[0] == '%' || a[0] == '_' then ['\\', a[0]] else [a[0]];
      assert (a + b)[0] == a[0] && (a + b)[1..] == a[1..] + b;
      assert EscapeWildcards(a + b) == h + EscapeWildcards(a[1..] + b);
      EscapeWildcardsAppend(a[1..], b);
      ConcatAssociates(h, EscapeWildcards(a[1..]), EscapeWildcards(b));
    }
  }

  /** Concatenation is associative. */
  lemma ConcatAssociates<T>(a: seq<T>, b: seq<T>, c: seq<T>)
    ensures (a + b) + c == a + (b + c)
  {
  }

  /** Joomla's `$db->escape($text, true)` on MySQL: `real_escape_string`, then a
      backslash before every `%` and `_`. */
  function EscapeLike(w: string): string {
    EscapeWildcards(RealEscape(w))
  }

  /** What one character of the term becomes in the escaped pattern: a
      backslash before a wildcard, otherwise what `real_escape_string` wrote. */
  function EscapeLikeChar(c: char): string {
    if c == '%' || c == '_' then ['\\', c] else RealEscapeChar(c)
  }

  /** Escaping the wildcards of what `real_escape_string` wrote for a character. */
  lemma EscapeWildcardsOfChar(c: char)
    ensures EscapeWildcards(RealEscapeChar(c)) == EscapeLikeChar(c)
  {
    var e := RealEscapeChar(c);
    if |e| == 1 {
      assert e == [c] && e[1..] == [];
    } else {
      var x := e[1];
      assert e == ['\\', x] && x != '%' && x != '_';
      assert e[1..] == [x] && e[1..][1..] == [];
      assert EscapeWildcards(e[1..]) == [x] + EscapeWildcards([]);
      assert EscapeWildcards(e) == ['\\'] + EscapeWildcards(e[1..]);
    }
  }

  /** The character `LIKE` matches for one character of an escaped term: the
      character itself, except that NUL, newline, carriage return and Ctrl-Z
      were written as `\0`, `\n`, `\r`, `\Z`, which `LIKE` reads as the
      letters `0`, `n`, `r`, `Z`. */
  function LikeChar(c: char): char {
    if c == '\0' then '0'
    else if c == '\n' then 'n'
    else if c == '\r' then 'r'
    else if c == CtrlZ then 'Z'
    else c
  }

  /** The text an escaped term matches literally. */
  function LikeText(w: string): (r: string)
    ensures |r| == |w| && forall k :: 0 <= k < |w| ==> r[k] == LikeChar(w[k])
    decreases |w|
  {
    if w == [] then [] else [LikeChar(w[0])] + LikeText(w[1..])
  }

  /** A term without NUL, newline, carriage return or Ctrl-Z matches itself. */
  predicate NoControlEscapes(w: string) {
    forall k :: 0 <= k < |w| ==> LikeChar(w[k]) == w[k]
  }

  /** A lone `%` matches every string. */
  lemma {:induction false} LikeAnything(s: string)
    ensures Like("%", s)
    decreases |s|
  {
    assert "%"[1..] == [];
    if s != [] {
      LikeAnything(s[1..]);
    }
  }

  /** The escaped term is the escaped characters one after the other. */
  lemma EscapeLikeCons(w: string)
    requires w != []
    ensures EscapeLike(w) == EscapeLikeChar(w[0]) + EscapeLike(w[1..])
  {
    EscapeWildcardsAppend(RealEscapeChar(w[0]), RealEscape(w[1..]));
    EscapeWildcardsOfChar(w[0]);
  }

  /** An escaped character followed by a pattern `q` matches `s` exactly when `s`
      starts with the character `LIKE` takes literally and `q` matches the rest. */
  lemma LikeEscapedChar(c: char, q: string, s: string)
    ensures Like(EscapeLikeChar(c) + q, s) <==> s != [] && s[0] == LikeChar(c) && Like(q, s[1..])
  {
    var e := EscapeLikeChar(c);
    var p := e + q;
    if |e| == 2 {
      assert e == ['\\', LikeChar(c)];
      assert p[0] == '\\' && p[1] == LikeChar(c) && p[2..] == q;
    } else {
      assert e == [c] && c != '%' && c != '_' && c != '\\' && LikeChar(c) == c;
      assert p[0] == c && p[1..] == q;
    }
  }

  /** An escaped term followed by a pattern `q` matches `s` exactly when the
      term's literal text is a prefix of `s` and `q` matches the rest: every `%`,
      `_` and backslash of the term stands for itself. */
  lemma {:induction false} LikeEscapedPrefix(w: string, q: string, s: string)
    ensures Like(EscapeLike(w) + q, s) <==> IsPrefix(LikeText(w), s) && Like(q, s[|w|..])
    decreases |w|
  {
    if w == [] {
      assert EscapeLike(w) + q == q;
      assert s[0..] == s;
    } else {
      EscapeLikeCons(w);
      var rest := EscapeLike(w[1..]) + q;
      ConcatAssociates(EscapeLikeChar(w[0]), EscapeLike(w[1..]), q);
      LikeEscapedChar(w[0], rest, s);
      IsPrefixCons(LikeChar(w[0]), LikeText(w[1..]), s);
      assert LikeText(w) == [LikeChar(w[0])] + LikeText(w[1..]);
      if s != [] {
        LikeEscapedPrefix(w[1..], q, s[1..]);
        if |w| <= |s| {
          assert s[1..][|w| - 1..] == s[|w|..];
        }
      }
    }
  }

  lemma IsPrefixCons(c: char, t: string, s: string)
    ensures IsPrefix([c] + t, s) <==> s != [] && s[0] == c && IsPrefix(t, s[1..])
  {
    if s != [] && |t| < |s| {
      assert s[..|t| + 1] == [s[0]] + s[1..][..|t|];
    }
  }

  /** The pattern `"%" + EscapeLike(w) + "%"` matches exactly the strings that
      contain the term's literal text, which is the term itself unless it holds
      NUL, newline, carriage return or Ctrl-Z. */
  lemma {:induction false} LikeEscapedContains(w: string, s: string)
    ensures Like("%" + EscapeLike(w) + "%", s) <==> Contains(s, LikeText(w))
    ensures NoControlEscapes(w) ==> LikeText(w) == w
    decreases |s|
  {
    var q := EscapeLike(w) + "%";
    var p := "%" + EscapeLike(w) + "%";
    assert p == "%" + q;
    assert p[0] == '%' && p[1..] == q;
    LikeEscapedPrefix(w, "%", s);
    if |w| <= |s| {
      LikeAnything(s[|w|..]);
    }
    if s != [] {
      LikeEscapedContains(w, s[1..]);
    }
  }

  /** A word used as a pattern without escaping matches every string it is a
      prefix of, followed by whatever `q` matches: its `%` and `_` match
      themselves among other things. */
  lemma {:induction false} LikeRawPrefix(w: string, q: string, s: string)
    requires '\\' !in w && IsPrefix(w, s) && Like(q, s[|w|..])
    ensures Like(w + q, s)
    decreases |w|
  {
    if w == [] {
      assert w + q == q;
      assert s[0..] == s;
    } else {
      var p := w + q;
      assert p[0] == w[0] && p[1..] == w[1..] + q;
      assert '\\' !in w[1..] by {
        assert forall c :: c in w[1..] ==> c in w;
      }
      assert IsPrefix(w[1..], s[1..]) by {
        assert s[1..][..|w| - 1] == s[..|w|][1..];
      }
      assert s[1..][|w[1..]|..] == s[|w|..];
      LikeRawPrefix(w[1..], q, s[1..]);
      if w[0] == '%' {
        assert Like(p, s[1..]) by {
          assert Like(p[1..], s[1..]);
        }
      }
    }
  }

  /** A leading `%` may skip any number of characters. */
  lemma {:induction false} LikePercentSkip(p: string, s: string, k: nat)
    requires k <= |s| && Like(p, s[k..])
    ensures Like("%" + p, s)
    decreases k
  {
    var pp := "%" + p;
    assert pp[0] == '%' && pp[1..] == p;
    if k == 0 {
      assert s[0..] == s;
    } else {
      assert s[1..][k - 1..] == s[k..];
      LikePercentSkip(p, s[1..], k - 1);
    }
  }

  /** The unescaped pattern `"%" + w + "%"` matches every string that contains
      `w`, provided `w` holds no backslash; it may match others too. */
  lemma LikeRawContains(w: string, s: string)
    requires '\\' !in w && Contains(s, w)
    ensures Like("%" + w + "%", s)
  {
    var k := ContainsOffset(s, w);
    LikeAnything(s[k..][|w|..]);
    LikeRawPrefix(w, "%", s[k..]);
    LikePercentSkip(w + "%", s, k);
    assert "%" + w + "%" == "%" + (w + "%");
  }

  function Digit(d: nat): (c: char)
    requires d < 10
    ensures '0' <= c <= '9'
  {
    ('0' as int + d) as char
  }

  predicate IsDigits(s: string) {
    forall k :: 0 <= k < |s| ==> '0' <= s[k] <= '9'
  }

  /** `sprintf("%d", n)` for a natural number: its decimal digits. */
  function NatToString(n: nat): (r: string)
    ensures r != [] && IsDigits(r)
    decreases n
  {
    if n < 10 then [Digit(n)] else NatToString(n / 10) + [Digit(n % 10)]
  }

  /** The number a string of decimal digits denotes. */
  function ParseNat(s: string): nat
    requires IsDigits(s)
    decreases |s|
  {
    if s == [] then 0 else 10 * ParseNat(s[..|s| - 1]) + (s[|s| - 1] as int - '0' as int)
  }

  /** Formatting a number and reading it back gives the number. */
  lemma {:induction false} ParseNatToString(n: nat)
    ensures ParseNat(NatToString(n)) == n
    decreases n
  {
    var r := NatToString(n);
    if n >= 10 {
      ParseNatToString(n / 10);
      assert r[..|r| - 1] == NatToString(n / 10);
    }
  }

  /** `sprintf("%d", i)` for any integer: a minus sign before the digits exactly
      when the number is negative. */
  function IntToString(i: int): (r: string)
    ensures r != []
    ensures r[0] == '-' <==> i < 0
    ensures i >= 0 ==> IsDigits(r) && ParseNat(r) == i
    ensures i < 0 ==> IsDigits(r[1..]) && ParseNat(r[1..]) == -i
  {
    if i < 0 then
      ParseNatToString(-i);
      "-" + NatToString(-i)
    else
      ParseNatToString(i);
      NatToString(i)
  }

  /** `str_repeat(c, n)`. */
  function Repeat(c: char, n: nat): (r: string)
    ensures |r| == n && forall k :: 0 <= k < n ==> r[k] == c
  {
    seq(n, _ => c)
  }
}
