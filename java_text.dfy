/**
 * Text operations with the meaning the Java standard library gives them.
 * Strings are sequences of characters; letter-case mapping is the ASCII one.
 */
module JavaText {
  import opened Wrappers

  /** `Character.isWhitespace` restricted to the Basic Multilingual Plane. */
  predicate IsWhitespace(c: char)
  {
    c == ' ' || ('\t' <= c <= '\r') || ('\U{1C}' <= c <= '\U{1F}')
    || c == '\U{1680}' || ('\U{2000}' <= c <= '\U{2006}') || ('\U{2008}' <= c <= '\U{200A}')
    || c == '\U{2028}' || c == '\U{2029}' || c == '\U{205F}' || c == '\U{3000}'
  }

  predicate IsAsciiLetter(c: char) { ('A' <= c <= 'Z') || ('a' <= c <= 'z') }

  predicate IsAsciiDigit(c: char) { '0' <= c <= '9' }

  /** `Character.isLetter`, on ASCII. */
  predicate IsLetter(c: char) { IsAsciiLetter(c) }

  /** `Character.isJavaIdentifierStart`: ASCII letters, '_' and '$'; every non-ASCII character is taken as a letter. */
  predicate IsJavaIdentifierStart(c: char)
  {
    IsAsciiLetter(c) || c == '_' || c == '$' || (c > '\U{7F}' && !IsWhitespace(c) && c > '\U{9F}')
  }

  /** `Character.isJavaIdentifierPart`: identifier starts, digits and the identifier-ignorable control characters. */
  predicate IsJavaIdentifierPart(c: char)
  {
    IsJavaIdentifierStart(c) || IsAsciiDigit(c)
    || ('\U{0}' <= c <= '\U{8}') || ('\U{E}' <= c <= '\U{1B}') || ('\U{7F}' <= c <= '\U{9F}')
  }

  function LowerChar(c: char): (r: char)
    ensures IsAsciiLetter(c) <==> IsAsciiLetter(r)
    ensures !('A' <= r <= 'Z')
  {
    if 'A' <= c <= 'Z' then (c as int + 32) as char else c
  }

  /** `String.toLowerCase()` on ASCII letters. */
  function Lower(s: string): (r: string)
    ensures |r| == |s|
    ensures forall i :: 0 <= i < |s| ==> r[i] == LowerChar(s[i])
  {
    seq(|s|, i requires 0 <= i < |s| => LowerChar(s[i]))
  }

  /** Lower-casing a lower-cased string changes nothing. */
  lemma LowerIdempotent(s: string)
    ensures Lower(Lower(s)) == Lower(s)
  {
    forall i | 0 <= i < |s|
      ensures Lower(Lower(s))[i] == Lower(s)[i]
    {
      assert !('A' <= Lower(s)[i] <= 'Z');
    }
  }

  /** `String.equalsIgnoreCase`. */
  predicate EqualsIgnoreCase(a: string, b: string)
  {
    Lower(a) == Lower(b)
  }

  predicate StartsWith(s: string, prefix: string)
  {
    |prefix| <= |s| && s[..|prefix|] == prefix
  }

  predicate EndsWith(s: string, suffix: string)
  {
    |suffix| <= |s| && s[|s| - |suffix|..] == suffix
  }

  /** The first position at or after `i` that holds a character above ' ', or `|s|`. */
  function TrimStart(s: string, i: nat): (k: nat)
    requires i <= |s|
    ensures i <= k <= |s|
    ensures forall j :: i <= j < k ==> s[j] <= ' '
    ensures k < |s| ==> s[k] > ' '
    decreases |s| - i
  {
    if i < |s| && s[i] <= ' ' then TrimStart(s, i + 1) else i
  }

  /** The end of `s[lo..j]` once the characters up to and including ' ' are dropped from its right. */
  function TrimEnd(s: string, lo: nat, j: nat): (k: nat)
    requires lo <= j <= |s|
    ensures lo <= k <= j
    ensures forall m :: k <= m < j ==> s[m] <= ' '
    ensures k > lo ==> s[k - 1] > ' '
    decreases j - lo
  {
    if j > lo && s[j - 1] <= ' ' then TrimEnd(s, lo, j - 1) else j
  }

  /** `String.trim()`: drops every leading and trailing character up to and including ' '. */
  function Trim(s: string): (r: string)
    ensures |r| <= |s|
    ensures r == [] || (r[0] > ' ' && r[|r| - 1] > ' ')
  {
    var b := TrimStart(s, 0);
    s[b..TrimEnd(s, b, |s|)]
  }

  /** Text `trim()` leaves alone: non-empty, with no character up to ' ' at either end. */
  predicate IsTrimmedText(c: string)
  {
    c != [] && c[0] > ' ' && c[|c| - 1] > ' '
  }

  /** `trim()` of a trimmed string between blanks gives the string back. */
  lemma {:induction false} TrimAround(pre: string, t: string, post: string)
    requires forall i :: 0 <= i < |pre| ==> pre[i] <= ' '
    requires forall i :: 0 <= i < |post| ==> post[i] <= ' '
    requires t == [] || IsTrimmedText(t)
    ensures Trim(pre + t + post) == t
  {
    var s := pre + t + post;
    var b := TrimStart(s, 0);
    assert forall i :: 0 <= i < |pre| ==> s[i] == pre[i];
    assert forall i :: 0 <= i < |post| ==> s[|pre| + |t| + i] == post[i];
    if t == [] {
      assert b == |s|;
      assert Trim(s) == s[b..TrimEnd(s, b, |s|)];
    } else {
      assert s[|pre|] == t[0];
      assert s[|pre| + |t| - 1] == t[|t| - 1];
      assert b == |pre|;
      var e := TrimEnd(s, b, |s|);
      assert e == |pre| + |t|;
      assert s[b..e] == t;
    }
  }

  lemma TrimmedTrim(t: string)
    requires t == [] || IsTrimmedText(t)
    ensures Trim(t) == t
  {
    TrimAround([], t, []);
    assert [] + t + [] == t;
  }

  /** `s.indexOf(c, from)`: the first position at or after `from` that holds `c`, or -1. */
  function IndexOfChar(s: string, c: char, from: int): (r: int)
    ensures -1 <= r < |s|
    ensures r >= 0 ==> r >= from && s[r] == c && forall k :: from <= k < r && k >= 0 ==> s[k] != c
    ensures r < 0 ==> forall k :: from <= k < |s| && k >= 0 ==> s[k] != c
    decreases |s| - from
  {
    if from < 0 then IndexOfChar(s, c, 0)
    else if from >= |s| then -1
    else if s[from] == c then from
    else IndexOfChar(s, c, from + 1)
  }

  predicate MatchesAt(s: string, t: string, i: int)
  {
    0 <= i && i + |t| <= |s| && s[i..i + |t|] == t
  }

  /** `s.indexOf(t, from)` for a non-empty `t`. */
  function IndexOf(s: string, t: string, from: int): (r: int)
    requires |t| > 0
    ensures -1 <= r < |s|
    ensures r >= 0 ==> r >= from && MatchesAt(s, t, r) && forall k :: from <= k < r ==> !MatchesAt(s, t, k)
    ensures r < 0 ==> forall k :: from <= k < |s| ==> !MatchesAt(s, t, k)
    decreases |s| - from
  {
    if from < 0 then IndexOf(s, t, 0)
    else if from + |t| > |s| then -1
    else if s[from..from + |t|] == t then from
    else IndexOf(s, t, from + 1)
  }

  /** `s.lastIndexOf(c)`: the last position that holds `c`, or -1. */
  function LastIndexOfChar(s: string, c: char): (r: int)
    ensures -1 <= r < |s|
    ensures r >= 0 ==> s[r] == c
    ensures forall k :: r < k < |s| ==> s[k] != c
  {
    LastIndexOfCharBefore(s, c, |s|)
  }

  /** The last position before `j` that holds `c`, or -1. */
  function LastIndexOfCharBefore(s: string, c: char, j: nat): (r: int)
    requires j <= |s|
    ensures -1 <= r < j
    ensures r >= 0 ==> s[r] == c
    ensures forall k :: r < k < j ==> s[k] != c
  {
    if j == 0 then -1
    else if s[j - 1] == c then j - 1
    else LastIndexOfCharBefore(s, c, j - 1)
  }

  /** `s.lastIndexOf(t, from)` for a non-empty `t`: the last match starting at or before `from`, or -1. */
  function LastIndexOf(s: string, t: string, from: int): (r: int)
    requires |t| > 0
    ensures -1 <= r && (r < 0 || r <= from)
    ensures r >= 0 ==> MatchesAt(s, t, r)
    ensures forall k :: r < k <= from ==> !MatchesAt(s, t, k)
    decreases from + 1
  {
    if from < 0 then -1
    else if MatchesAt(s, t, from) then from
    else LastIndexOf(s, t, from - 1)
  }

  predicate Contains(s: string, t: string)
  {
    exists i :: 0 <= i <= |s| - |t| && MatchesAt(s, t, i)
  }

  /** `s.replace(t, u)` for a non-empty `t`: replaces matches from left to right without overlap. */
  function Replace(s: string, t: string, u: string): string
    requires |t| > 0
    decreases |s|
  {
    if |s| < |t| then s
    else if s[..|t|] == t then u + Replace(s[|t|..], t, u)
    else [s[0]] + Replace(s[1..], t, u)
  }

  /** `s.replace(t, u)` for a one-character `t == [a]`: every occurrence of `a` becomes `u`. */
  function EscapeChar(s: string, a: char, u: string): (r: string)
    ensures a !in u ==> a !in r
    ensures forall c :: c in r ==> c in s || c in u
    ensures a !in s ==> r == s
    decreases |s|
  {
    if s == [] then [] else (if s[0] == a then u else [s[0]]) + EscapeChar(s[1..], a, u)
  }

  /** Escaping works character by character, so it distributes over concatenation. */
  lemma {:induction false} EscapeCharConcat(s: string, t: string, a: char, u: string)
    ensures EscapeChar(s + t, a, u) == EscapeChar(s, a, u) + EscapeChar(t, a, u)
    decreases |s|
  {
    if s == [] {
      assert s + t == t;
    } else {
      assert (s + t)[0] == s[0];
      assert (s + t)[1..] == s[1..] + t;
      EscapeCharConcat(s[1..], t, a, u);
    }
  }

  /** `s.replace(a, b)` for characters. */
  function ReplaceChar(s: string, a: char, b: char): (r: string)
    ensures |r| == |s|
    ensures forall i :: 0 <= i < |s| ==> r[i] == (if s[i] == a then b else s[i])
  {
    if s == [] then [] else [if s[0] == a then b else s[0]] + ReplaceChar(s[1..], a, b)
  }

  // ---------------------------------------------------------------- split and compareTo

  /** The pieces of `s` between the occurrences of `c`: one more piece than there are `c`s. */
  function SplitPieces(s: string, c: char): (r: seq<string>)
    ensures |r| >= 1
    decreases |s|
  {
    var i := IndexOfChar(s, c, 0);
    if i < 0 then [s] else [s[..i]] + SplitPieces(s[i + 1..], c)
  }

  /** The list without the empty strings at its end. */
  function DropTrailingEmpty(xs: seq<string>): (r: seq<string>)
    ensures |r| <= |xs| && r == xs[..|r|]
    ensures r == [] || r[|r| - 1] != ""
    ensures forall k :: |r| <= k < |xs| ==> xs[k] == ""
  {
    if xs != [] && xs[|xs| - 1] == "" then DropTrailingEmpty(xs[..|xs| - 1]) else xs
  }

  /**
   * `s.split(c)` for a one-character expression: a string without `c` comes back as the only
   * element; otherwise the pieces between the `c`s, without the empty pieces at the end.
   */
  function Split(s: string, c: char): seq<string>
  {
    if c !in s then [s] else DropTrailingEmpty(SplitPieces(s, c))
  }

  /** No piece of a split contains the separator. */
  lemma {:induction false} SplitPiecesFree(s: string, c: char)
    ensures forall k :: 0 <= k < |SplitPieces(s, c)| ==> c !in SplitPieces(s, c)[k]
    decreases |s|
  {
    var i := IndexOfChar(s, c, 0);
    if i >= 0 {
      SplitPiecesFree(s[i + 1..], c);
      var r := SplitPieces(s, c);
      assert r == [s[..i]] + SplitPieces(s[i + 1..], c);
      forall k | 0 <= k < |r|
        ensures c !in r[k]
      {
        if k > 0 {
          assert r[k] == SplitPieces(s[i + 1..], c)[k - 1];
        }
      }
    }
  }

  /** `a.compareTo(b) <= 0`: the first differing character decides, and a prefix comes first. */
  predicate StrLeq(a: string, b: string)
    decreases |a|
  {
    a == [] || (b != [] && (a[0] < b[0] || (a[0] == b[0] && StrLeq(a[1..], b[1..]))))
  }

  lemma {:induction false} StrLeqTotal(a: string, b: string)
    ensures StrLeq(a, b) || StrLeq(b, a)
    decreases |a|
  {
    if a != [] && b != [] && a[0] == b[0] {
      StrLeqTotal(a[1..], b[1..]);
    }
  }

  lemma {:induction false} StrLeqAntisymmetric(a: string, b: string)
    requires StrLeq(a, b) && StrLeq(b, a)
    ensures a == b
    decreases |a|
  {
    if a != [] {
      StrLeqAntisymmetric(a[1..], b[1..]);
      assert a == [a[0]] + a[1..] && b == [b[0]] + b[1..];
    }
  }

  lemma {:induction false} StrLeqTransitive(a: string, b: string, c: string)
    requires StrLeq(a, b) && StrLeq(b, c)
    ensures StrLeq(a, c)
    decreases |a|
  {
    if a != [] && a[0] == b[0] && b[0] == c[0] {
      StrLeqTransitive(a[1..], b[1..], c[1..]);
    }
  }

  predicate SortedStrings(xs: seq<string>)
  {
    forall i, j :: 0 <= i < j < |xs| ==> StrLeq(xs[i], xs[j])
  }

  /** `x` placed before the first element it does not follow. */
  function InsertString(x: string, xs: seq<string>): seq<string>
  {
    if xs == [] || StrLeq(x, xs[0]) then [x] + xs else [xs[0]] + InsertString(x, xs[1..])
  }

  lemma {:induction false} InsertStringSorted(x: string, xs: seq<string>)
    requires SortedStrings(xs)
    ensures SortedStrings(InsertString(x, xs))
    ensures multiset(InsertString(x, xs)) == multiset(xs) + multiset{x}
    ensures |InsertString(x, xs)| == |xs| + 1
    decreases |xs|
  {
    if xs == [] || StrLeq(x, xs[0]) {
      var r := [x] + xs;
      forall i, j | 0 <= i < j < |r|
        ensures StrLeq(r[i], r[j])
      {
        if i == 0 && j > 1 {
          StrLeqTransitive(x, xs[0], xs[j - 1]);
        }
      }
    } else {
      StrLeqTotal(x, xs[0]);
      var rest := InsertString(x, xs[1..]);
      InsertStringSorted(x, xs[1..]);
      assert xs == [xs[0]] + xs[1..];
      var r := [xs[0]] + rest;
      forall i, j | 0 <= i < j < |r|
        ensures StrLeq(r[i], r[j])
      {
        if i == 0 {
          assert r[j] in multiset(rest);
          assert r[j] == x || r[j] in xs[1..];
          if r[j] != x {
            var m :| 0 <= m < |xs[1..]| && xs[1..][m] == r[j];
            assert xs[m + 1] == r[j];
          }
        }
      }
    }
  }

  /** `Collections.sort` on strings: the sorted arrangement of the same elements. */
  function SortStrings(xs: seq<string>): seq<string>
  {
    if xs == [] then [] else InsertString(xs[0], SortStrings(xs[1..]))
  }

  lemma {:induction false} SortStringsCorrect(xs: seq<string>)
    ensures SortedStrings(SortStrings(xs))
    ensures multiset(SortStrings(xs)) == multiset(xs)
    ensures |SortStrings(xs)| == |xs|
  {
    if xs != [] {
      SortStringsCorrect(xs[1..]);
      InsertStringSorted(xs[0], SortStrings(xs[1..]));
      assert xs == [xs[0]] + xs[1..];
    }
  }

  // ---------------------------------------------------------------- Java int

  const MinInt: int := -0x8000_0000
  const MaxInt: int := 0x7FFF_FFFF

  predicate IsJavaInt(n: int) { MinInt <= n <= MaxInt }

  /** Two's-complement wrap-around of 32-bit `int` arithmetic. */
  function Wrap32(n: int): (r: int)
    ensures IsJavaInt(r)
    ensures IsJavaInt(n) ==> r == n
    ensures (r - n) % 0x1_0000_0000 == 0
  {
    (n - MinInt) % 0x1_0000_0000 + MinInt
  }

  const MinLong: int := -0x8000_0000_0000_0000
  const MaxLong: int := 0x7FFF_FFFF_FFFF_FFFF

  predicate IsJavaLong(n: int) { MinLong <= n <= MaxLong }

  /** Two's-complement wrap-around of 64-bit `long` arithmetic. */
  function Wrap64(n: int): (r: int)
    ensures IsJavaLong(r)
    ensures IsJavaLong(n) ==> r == n
    ensures (r - n) % 0x1_0000_0000_0000_0000 == 0
  {
    (n - MinLong) % 0x1_0000_0000_0000_0000 + MinLong
  }

  predicate AllDigits(s: string) { forall i :: 0 <= i < |s| ==> IsAsciiDigit(s[i]) }

  /** The value of a string of decimal digits. */
  function DigitsValue(s: string): nat
    requires AllDigits(s)
  {
    if s == [] then 0 else DigitsValue(s[..|s| - 1]) * 10 + (s[|s| - 1] as int - '0' as int)
  }

  function DigitChar(d: nat): (c: char)
    requires d < 10
    ensures IsAsciiDigit(c) && c as int - '0' as int == d
  {
    ('0' as int + d) as char
  }

  /** The decimal digits of `n`, without leading zeros. */
  function NatToDigits(n: nat): (s: string)
    ensures |s| > 0 && AllDigits(s)
    ensures |s| > 1 ==> s[0] != '0'
  {
    if n < 10 then [DigitChar(n)] else NatToDigits(n / 10) + [DigitChar(n % 10)]
  }

  /** `Integer.toString(n)`. */
  function IntToString(n: int): (s: string)
    ensures |s| > 0
  {
    if n < 0 then "-" + NatToDigits(-n) else NatToDigits(n)
  }

  /** An optional sign followed by at least one decimal digit, read as an unbounded integer. */
  function ParseSigned(s: string): (r: Option<int>)
    ensures r.Some? ==> |s| > 0
  {
    if |s| == 0 then None
    else
      var signed := s[0] == '-' || s[0] == '+';
      var body := if signed then s[1..] else s;
      if |body| == 0 || !AllDigits(body) then None
      else Some(if s[0] == '-' then 0 - (DigitsValue(body) as int) else DigitsValue(body))
  }

  /**
   * `Integer.parseInt(s)`: an optional sign followed by at least one decimal digit, with a value in
   * the `int` range; `None` stands for the `NumberFormatException`.
   */
  function ParseInt(s: string): (r: Option<int>)
    ensures r.Some? ==> IsJavaInt(r.value)
    ensures r.Some? ==> |s| > 0
  {
    var v := ParseSigned(s);
    if v.Some? && IsJavaInt(v.value) then v else None
  }

  /** `Long.parseLong(s)`: the same syntax, with a value in the `long` range. */
  function ParseLong(s: string): (r: Option<int>)
    ensures r.Some? ==> IsJavaLong(r.value)
    ensures r.Some? ==> |s| > 0
  {
    var v := ParseSigned(s);
    if v.Some? && IsJavaLong(v.value) then v else None
  }

  lemma {:induction false} DigitsRoundTrip(n: nat)
    ensures DigitsValue(NatToDigits(n)) == n
  {
    if n >= 10 {
      var s := NatToDigits(n);
      assert s[..|s| - 1] == NatToDigits(n / 10);
      DigitsRoundTrip(n / 10);
    }
  }

  /** Reading the decimal text of any integer gives that integer back. */
  lemma ParseSignedToString(n: int)
    ensures ParseSigned(IntToString(n)) == Some(n)
  {
    var s := IntToString(n);
    if n < 0 {
      var d := NatToDigits(-n);
      DigitsRoundTrip(-n);
      assert s[0] == '-' && s[1..] == d;
    } else {
      DigitsRoundTrip(n);
      assert s == NatToDigits(n) && IsAsciiDigit(s[0]);
    }
  }

  /** Parsing the decimal text of any `int` gives that `int` back. */
  lemma ParseIntToString(n: int)
    requires IsJavaInt(n)
    ensures ParseInt(IntToString(n)) == Some(n)
  {
    ParseSignedToString(n);
  }

  /** `Long.parseLong(Long.toString(n)) == n` for every `long`. */
  lemma ParseLongToString(n: int)
    requires IsJavaLong(n)
    ensures ParseLong(IntToString(n)) == Some(n)
  {
    ParseSignedToString(n);
  }
}
