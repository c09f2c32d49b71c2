/**
 * The few pieces of Python's `str` behaviour the pipeline relies on:
 * `strip()`, `split()` on whitespace, `split(sep)[-1]`, `split(sep, 1)[0]`,
 * slices that clamp at the ends, and `int()`/`str()` on small decimals.
 */
module Strings {
  import opened Wrappers

  predicate IsDigit(c: char) {
    '0' <= c <= '9'
  }

  /** The characters Python's `str.isspace()` accepts, so `strip()` and `split()` drop them. */
  const SpaceChars: seq<char> := [
    ' ', '\t', '\n', '\U{b}', '\U{c}', '\r', '\U{1c}', '\U{1d}', '\U{1e}', '\U{1f}',
    '\U{85}', '\U{a0}', '\U{1680}', '\U{2000}', '\U{2001}', '\U{2002}', '\U{2003}',
    '\U{2004}', '\U{2005}', '\U{2006}', '\U{2007}', '\U{2008}', '\U{2009}', '\U{200a}',
    '\U{2028}', '\U{2029}', '\U{202f}', '\U{205f}', '\U{3000}'
  ]

  /*
   * IsSpace looks c up in SpaceChars by recursion rather than by `in`, so
   * that proofs about split() do not case-split on 29 characters;
   * IsSpaceIff recovers the plain membership when it is needed.
   */
  predicate IsSpace(c: char) {
    Listed(c, SpaceChars)
  }

  predicate Listed(c: char, l: seq<char>) {
    l != [] && (l[0] == c || Listed(c, l[1..]))
  }

  lemma {:induction false} ListedIff(c: char, l: seq<char>)
    ensures Listed(c, l) <==> c in l
  {
    if l != [] {
      ListedIff(c, l[1..]);
    }
  }

  lemma IsSpaceIff(c: char)
    ensures IsSpace(c) <==> c in SpaceChars
  {
    ListedIff(c, SpaceChars);
  }

  lemma BlankIsSpace()
    ensures IsSpace(' ')
  {
    assert SpaceChars[0] == ' ';
  }

  /** No visible ASCII character is whitespace. */
  lemma VisibleNotSpace(c: char)
    requires '!' <= c <= '~'
    ensures !IsSpace(c)
  {
    SpaceCharsInvisible();
    NotListedOutside(c, SpaceChars);
  }

  /** Every whitespace character lies outside the visible ASCII range. */
  lemma SpaceCharsInvisible()
    ensures forall i :: 0 <= i < |SpaceChars| ==> SpaceChars[i] < '!' || '~' < SpaceChars[i]
  {
  }

  lemma {:induction false} NotListedOutside(c: char, l: seq<char>)
    requires '!' <= c <= '~'
    requires forall i :: 0 <= i < |l| ==> l[i] < '!' || '~' < l[i]
    ensures !Listed(c, l)
  {
    if l != [] {
      assert forall i :: 0 <= i < |l[1..]| ==> l[1..][i] == l[i + 1];
      NotListedOutside(c, l[1..]);
    }
  }

  predicate DigitsOnly(s: string) {
    forall i :: 0 <= i < |s| ==> IsDigit(s[i])
  }

  predicate NoSpace(s: string) {
    forall i :: 0 <= i < |s| ==> !IsSpace(s[i])
  }

  // ---- strip() ----

  function TrimStart(s: string): (r: string)
    ensures |r| <= |s| && r == s[|s| - |r|..]
    ensures r == [] || !IsSpace(r[0])
    decreases |s|
  {
    if s != [] && IsSpace(s[0]) then TrimStart(s[1..]) else s
  }

  function TrimEnd(s: string): (r: string)
    ensures |r| <= |s| && r == s[..|r|]
    ensures r == [] || !IsSpace(r[|r| - 1])
    decreases |s|
  {
    if s != [] && IsSpace(s[|s| - 1]) then TrimEnd(s[..|s| - 1]) else s
  }

  /** Python's `s.strip()`. */
  function Strip(s: string): (r: string)
    ensures |r| <= |s|
    ensures r == [] || (!IsSpace(r[0]) && !IsSpace(r[|r| - 1]))
  {
    TrimEnd(TrimStart(s))
  }

  lemma StripNoSpace(s: string)
    requires NoSpace(s)
    ensures Strip(s) == s
  {
    assert s == [] || !IsSpace(s[0]);
    assert TrimStart(s) == s;
  }

  lemma StripIdempotent(s: string)
    ensures Strip(Strip(s)) == Strip(s)
  {
    var r := Strip(s);
    assert TrimStart(r) == r;
    assert TrimEnd(r) == r;
  }

  /** A string whose ends are not whitespace is its own `strip()`. */
  lemma StripOfTrimmed(s: string)
    requires s == [] || (!IsSpace(s[0]) && !IsSpace(s[|s| - 1]))
    ensures Strip(s) == s
  {
    assert TrimStart(s) == s;
  }

  // ---- split() with no separator ----

  /** End of the run of non-whitespace characters that starts at k. */
  function TokenEnd(s: string, k: nat): (e: nat)
    requires k <= |s|
    ensures k <= e <= |s| && NoSpace(s[k..e]) && (e == |s| || IsSpace(s[e]))
    decreases |s| - k
  {
    if k < |s| && !IsSpace(s[k]) then TokenEnd(s, k + 1) else k
  }

  /** Non-empty parts without whitespace, as `split()` produces. */
  predicate Words(parts: seq<string>) {
    forall i :: 0 <= i < |parts| ==> parts[i] != [] && NoSpace(parts[i])
  }

  lemma WordsCons(head: string, rest: seq<string>)
    requires head != [] && NoSpace(head) && Words(rest)
    ensures Words([head] + rest)
  {
    var parts := [head] + rest;
    forall i | 0 <= i < |parts| ensures parts[i] != [] && NoSpace(parts[i]) {
      if i > 0 {
        assert parts[i] == rest[i - 1];
      }
    }
  }

  /** Python's `s.split()`: the maximal runs of non-whitespace, in order. */
  function SplitWs(s: string): (parts: seq<string>)
    ensures Words(parts)
    decreases |s|
  {
    var t := TrimStart(s);
    if t == [] then []
    else
      var e := TokenEnd(t, 0);
      assert e >= 1;
      var head := t[..e];
      assert head == t[0..e];
      var rest := SplitWs(t[e..]);
      WordsCons(head, rest);
      [head] + rest
  }

  lemma {:induction false} TokenEndAt(s: string, k: nat, e: nat)
    requires k <= e <= |s| && NoSpace(s[k..e]) && (e == |s| || IsSpace(s[e]))
    ensures TokenEnd(s, k) == e
    decreases e - k
  {
    if k < e {
      assert !IsSpace(s[k..e][0]);
      assert s[k + 1..e] == s[k..e][1..];
      TokenEndAt(s, k + 1, e);
    }
  }

  /** A word followed by whitespace (or by nothing) is the first part of the split. */
  lemma SplitAfterWord(a: string, rest: string)
    requires a != [] && NoSpace(a) && (rest == [] || IsSpace(rest[0]))
    ensures SplitWs(a + rest) == [a] + SplitWs(rest)
  {
    var s := a + rest;
    assert s[0] == a[0];
    assert TrimStart(s) == s;
    assert s[0..|a|] == a;
    TokenEndAt(s, 0, |a|);
    assert s[..|a|] == a && s[|a|..] == rest;
  }

  /** Leading whitespace does not change the split. */
  lemma SplitAfterSpace(c: char, b: string)
    requires IsSpace(c)
    ensures SplitWs([c] + b) == SplitWs(b)
  {
    assert ([c] + b)[1..] == b;
    assert TrimStart([c] + b) == TrimStart(b);
  }

  /** A non-empty word without whitespace splits into itself. */
  lemma SplitWord(a: string)
    requires a != [] && NoSpace(a)
    ensures SplitWs(a) == [a]
  {
    SplitAfterWord(a, []);
    assert a + [] == a;
    assert SplitWs([]) == [];
  }

  /** Two words joined by one space split back into the two words. */
  lemma SplitTwoWords(a: string, b: string)
    requires a != [] && NoSpace(a) && b != [] && NoSpace(b)
    ensures SplitWs(a + " " + b) == [a, b]
  {
    var rest := [' '] + b;
    JoinedBySpace(a, b);
    assert SplitWs(rest) == [b] by {
      BlankIsSpace();
      SplitAfterSpace(' ', b);
      SplitWord(b);
    }
    assert SplitWs(a + rest) == [a] + SplitWs(rest) by {
      BlankIsSpace();
      SplitAfterWord(a, rest);
    }
  }

  lemma JoinedBySpace(a: string, b: string)
    ensures a + " " + b == a + ([' '] + b)
  {
  }

  // ---- searching ----

  /** Index of the first occurrence of c, if any. */
  function IndexOf(s: string, c: char): (r: Option<nat>)
    ensures r.None? <==> c !in s
    ensures r.Some? ==> r.value < |s| && s[r.value] == c && c !in s[..r.value]
  {
    if s == [] then None
    else if s[0] == c then Some(0)
    else
      match IndexOf(s[1..], c)
      case None => None
      case Some(i) =>
        assert s[..i + 1] == [s[0]] + s[1..][..i];
        Some(i + 1)
  }

  /** Index of the last occurrence of c, if any. */
  function LastIndexOf(s: string, c: char): (r: Option<nat>)
    ensures r.None? <==> c !in s
    ensures r.Some? ==> r.value < |s| && s[r.value] == c && c !in s[r.value + 1..]
    decreases |s|
  {
    if s == [] then None
    else if s[|s| - 1] == c then Some(|s| - 1)
    else
      match LastIndexOf(s[..|s| - 1], c)
      case None => None
      case Some(i) =>
        assert s[i + 1..] == s[..|s| - 1][i + 1..] + [s[|s| - 1]];
        Some(i)
  }

  /** The first c is at i when s[i] is c and no c precedes it. */
  lemma IndexOfIs(s: string, c: char, i: nat)
    requires i < |s| && s[i] == c && c !in s[..i]
    ensures IndexOf(s, c) == Some(i)
  {
    var r := IndexOf(s, c).value;
    forall k | 0 <= k < i ensures s[k] != c {
      assert s[..i][k] == s[k];
    }
    forall k | 0 <= k < r ensures s[k] != c {
      assert s[..r][k] == s[k];
    }
  }

  /** The last c is at j when s[j] is c and no c follows it. */
  lemma LastIndexOfIs(s: string, c: char, j: nat)
    requires j < |s| && s[j] == c && c !in s[j + 1..]
    ensures LastIndexOf(s, c) == Some(j)
  {
    var r := LastIndexOf(s, c).value;
    forall k | j < k < |s| ensures s[k] != c {
      assert s[j + 1..][k - j - 1] == s[k];
    }
    forall k | r < k < |s| ensures s[k] != c {
      assert s[r + 1..][k - r - 1] == s[k];
    }
  }

  /** Python's `s.split(c)[-1]`: the text after the last c, or all of s. */
  function AfterLast(s: string, c: char): (r: string)
    ensures c !in r
    ensures |r| <= |s| && r == s[|s| - |r|..]
    ensures c !in s ==> r == s
    ensures c in s ==> s[|s| - |r| - 1] == c
  {
    match LastIndexOf(s, c)
    case None => s
    case Some(i) => s[i + 1..]
  }

  /** Python's `s.split(c, 1)[0]`: the text before the first c, or all of s. */
  function BeforeFirst(s: string, c: char): (r: string)
    ensures c !in r
    ensures r <= s
    ensures c !in s ==> r == s
    ensures c in s ==> s[|r|] == c
  {
    match IndexOf(s, c)
    case None => s
    case Some(i) => s[..i]
  }

  /** Python's `s[:n]`. */
  function Take(s: string, n: nat): (r: string)
    ensures |r| == if n < |s| then n else |s|
    ensures r <= s
  {
    if n < |s| then s[..n] else s
  }

  /** Python's `s[-n:]` for n > 0. */
  function TakeLast(s: string, n: nat): (r: string)
    ensures |r| == if n < |s| then n else |s|
    ensures r == s[|s| - |r|..]
  {
    if n < |s| then s[|s| - n..] else s
  }

  /** Python's `s.endswith(suffix)`. */
  predicate EndsWith(s: string, suffix: string) {
    |suffix| <= |s| && s[|s| - |suffix|..] == suffix
  }

  // ---- int() and str() on small decimals ----

  function DigitValue(c: char): (d: nat)
    requires IsDigit(c)
    ensures d < 10
  {
    c as int - '0' as int
  }

  function DigitChar(d: nat): (c: char)
    requires d < 10
    ensures IsDigit(c) && DigitValue(c) == d
  {
    (d + '0' as int) as char
  }

  /** Python's `int(s)` on a string of ASCII digits. */
  function DigitsValue(s: string): nat
    requires DigitsOnly(s)
    decreases |s|
  {
    if s == [] then 0 else DigitsValue(s[..|s| - 1]) * 10 + DigitValue(s[|s| - 1])
  }

  /** Python's `str(n)`: decimal digits, no leading zero. */
  function DecimalString(n: nat): (r: string)
    ensures r != [] && DigitsOnly(r)
    ensures |r| > 1 ==> r[0] != '0'
    ensures DigitsValue(r) == n
  {
    if n < 10 then [DigitChar(n)]
    else
      var r := DecimalString(n / 10) + [DigitChar(n % 10)];
      assert r[..|r| - 1] == DecimalString(n / 10);
      r
  }

  /**
   * `str(int(s))` for one or two digits: a two-digit string keeps its
   * digits unless it starts with `0`, which is dropped (`07` gives `7`).
   */
  lemma RenderSmallNumber(s: string)
    requires 1 <= |s| <= 2 && DigitsOnly(s)
    ensures DecimalString(DigitsValue(s)) == if |s| == 2 && s[0] == '0' then s[1..] else s
  {
    if |s| == 1 {
      assert s[..0] == [];
      assert DigitChar(DigitValue(s[0])) == s[0];
    } else {
      assert s[..1] == [s[0]];
      assert s[..1][..0] == [];
      assert DigitChar(DigitValue(s[0])) == s[0];
      assert DigitChar(DigitValue(s[1])) == s[1];
      var v := DigitsValue(s);
      assert v == DigitValue(s[0]) * 10 + DigitValue(s[1]);
      if s[0] == '0' {
        assert v == DigitValue(s[1]);
        assert s[1..] == [s[1]];
      } else {
        assert v / 10 == DigitValue(s[0]) && v % 10 == DigitValue(s[1]);
        assert DecimalString(v) == [s[0]] + [s[1]];
      }
    }
  }
}
