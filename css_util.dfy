/*
 * CSSUtil: merging class lists and splitting a size such as "12px" into its number and unit.
 */
module CssUtil {
  import opened Wrappers
  import opened JavaText
  import opened DocmaUtil

  // ------------------------------------------------------------------ class lists

  /** The default delimiters of `StringTokenizer`: space, tab, newline, carriage return, form feed. */
  predicate IsDelimiter(c: char)
  {
    c == ' ' || c == '\t' || c == '\n' || c == '\r' || c == '\U{0C}'
  }

  /** A token a `StringTokenizer` can return: non-empty, without a delimiter. */
  predicate IsToken(t: string)
  {
    t != [] && forall k :: 0 <= k < |t| ==> !IsDelimiter(t[k])
  }

  /** The end of the token that starts at the beginning of `s`. */
  function TokenEnd(s: string): (e: nat)
    ensures e <= |s|
    ensures forall k :: 0 <= k < e ==> !IsDelimiter(s[k])
    ensures e < |s| ==> IsDelimiter(s[e])
  {
    if s == [] || IsDelimiter(s[0]) then 0 else 1 + TokenEnd(s[1..])
  }

  /** The tokens `new StringTokenizer(s)` returns, in order. */
  function Tokens(s: string): (r: seq<string>)
    ensures forall i :: 0 <= i < |r| ==> IsToken(r[i])
    decreases |s|
  {
    if s == [] then []
    else if IsDelimiter(s[0]) then Tokens(s[1..])
    else
      var e := TokenEnd(s);
      [s[..e]] + Tokens(s[e..])
  }

  /** Joining tokens with single spaces and tokenizing again gives the same tokens. */
  lemma {:induction false} TokensOfJoin(parts: seq<string>)
    requires forall i :: 0 <= i < |parts| ==> IsToken(parts[i])
    ensures Tokens(Join(parts, " ")) == parts
    decreases |parts|
  {
    if parts == [] {
    } else if |parts| == 1 {
      TokenOfToken(parts[0], []);
      assert parts[0] + [] == parts[0];
    } else {
      var rest := Join(parts[1..], " ");
      TokensOfJoin(parts[1..]);
      TokenOfToken(parts[0], " " + rest);
      assert parts[0] + " " + rest == parts[0] + (" " + rest);
      assert (" " + rest)[1..] == rest;
    }
  }

  /** A token followed by nothing or by a delimiter is read whole. */
  lemma TokenOfToken(t: string, rest: string)
    requires IsToken(t)
    requires rest == [] || IsDelimiter(rest[0])
    ensures Tokens(t + rest) == [t] + Tokens(rest)
    ensures rest != [] ==> Tokens(rest) == Tokens(rest[1..])
  {
    TokenEndOfToken(t, rest);
    var s := t + rest;
    assert s[..|t|] == t && s[|t|..] == rest;
  }

  lemma {:induction false} TokenEndOfToken(t: string, rest: string)
    requires forall k :: 0 <= k < |t| ==> !IsDelimiter(t[k])
    requires rest == [] || IsDelimiter(rest[0])
    ensures TokenEnd(t + rest) == |t|
    decreases |t|
  {
    if t == [] {
      assert t + rest == rest;
    } else {
      assert (t + rest)[1..] == t[1..] + rest;
      TokenEndOfToken(t[1..], rest);
    }
  }

  /** The tokens of every present argument, in argument order. */
  function AllTokens(clsNames: seq<Option<string>>): seq<string>
  {
    if clsNames == [] then []
    else
      var last := clsNames[|clsNames| - 1];
      AllTokens(clsNames[..|clsNames| - 1]) + (if last.Some? then Tokens(last.value) else [])
  }

  lemma AllTokensSnoc(clsNames: seq<Option<string>>, i: nat)
    requires i < |clsNames|
    ensures AllTokens(clsNames[..i + 1]) ==
      AllTokens(clsNames[..i]) + (if clsNames[i].Some? then Tokens(clsNames[i].value) else [])
  {
    assert clsNames[..i + 1][..i] == clsNames[..i];
  }

  lemma {:induction false} AllTokensAreTokens(clsNames: seq<Option<string>>)
    ensures forall i :: 0 <= i < |AllTokens(clsNames)| ==> IsToken(AllTokens(clsNames)[i])
    decreases |clsNames|
  {
    if clsNames != [] {
      AllTokensAreTokens(clsNames[..|clsNames| - 1]);
    }
  }

  /** The first occurrence of each element, in order. */
  function Dedup(xs: seq<string>): seq<string>
  {
    if xs == [] then []
    else
      var d := Dedup(xs[..|xs| - 1]);
      if xs[|xs| - 1] in d then d else d + [xs[|xs| - 1]]
  }

  predicate Distinct(xs: seq<string>)
  {
    forall i, j :: 0 <= i < j < |xs| ==> xs[i] != xs[j]
  }

  /** `Dedup` keeps every element once and adds nothing. */
  lemma {:induction false} DedupIsDistinctCover(xs: seq<string>)
    ensures Distinct(Dedup(xs))
    ensures forall x :: x in Dedup(xs) <==> x in xs
    decreases |xs|
  {
    if xs != [] {
      var init := xs[..|xs| - 1];
      DedupIsDistinctCover(init);
      assert xs == init + [xs[|xs| - 1]];
    }
  }

  /** A list without repeats is its own `Dedup`. */
  lemma {:induction false} DedupOfDistinct(xs: seq<string>)
    requires Distinct(xs)
    ensures Dedup(xs) == xs
    decreases |xs|
  {
    if xs != [] {
      var init := xs[..|xs| - 1];
      DedupOfDistinct(init);
      assert xs == init + [xs[|xs| - 1]];
    }
  }

  /** The position of the first occurrence of `x` in `xs`. */
  function FirstIndex(xs: seq<string>, x: string): (i: nat)
    requires x in xs
    ensures i < |xs| && xs[i] == x && forall k :: 0 <= k < i ==> xs[k] != x
  {
    if xs[0] == x then 0 else 1 + FirstIndex(xs[1..], x)
  }

  /** A first occurrence inside a prefix is the first occurrence in the whole list. */
  lemma FirstIndexInPrefix(xs: seq<string>, n: nat, x: string)
    requires n <= |xs| && x in xs[..n]
    ensures FirstIndex(xs, x) == FirstIndex(xs[..n], x)
  {
    var i := FirstIndex(xs[..n], x);
    assert xs[i] == x;
    assert forall k :: 0 <= k < i ==> xs[k] == xs[..n][k];
  }

  /** `Dedup` lists the elements in the order of their first occurrences. */
  lemma {:induction false} DedupKeepsFirstOrder(xs: seq<string>, i: nat, j: nat)
    requires i < j < |Dedup(xs)|
    ensures Dedup(xs)[i] in xs && Dedup(xs)[j] in xs
    ensures FirstIndex(xs, Dedup(xs)[i]) < FirstIndex(xs, Dedup(xs)[j])
    decreases |xs|
  {
    var n := |xs| - 1;
    var init := xs[..n];
    var d := Dedup(init);
    DedupIsDistinctCover(init);
    assert d[i] in init;
    FirstIndexInPrefix(xs, n, d[i]);
    if j < |d| {
      DedupKeepsFirstOrder(init, i, j);
      FirstIndexInPrefix(xs, n, d[j]);
    } else {
      FirstIndexOfNew(xs);
    }
  }

  /** A last element that occurs nowhere before first occurs at the end. */
  lemma FirstIndexOfNew(xs: seq<string>)
    requires xs != [] && xs[|xs| - 1] !in xs[..|xs| - 1]
    ensures FirstIndex(xs, xs[|xs| - 1]) == |xs| - 1
  {
    assert forall k :: 0 <= k < |xs| - 1 ==> xs[..|xs| - 1][k] == xs[k];
  }

  /** One more element is kept exactly when it is new. */
  lemma DedupSnoc(xs: seq<string>, x: string)
    ensures Dedup(xs + [x]) == if x in Dedup(xs) then Dedup(xs) else Dedup(xs) + [x]
  {
    assert (xs + [x])[..|xs|] == xs;
  }

  /** The inner loop of `mergeCSSClasses`: each token of one argument is added unless already listed. */
  method AddNewTokens(res: seq<string>, before: seq<string>, toks: seq<string>) returns (res': seq<string>)
    requires res == Dedup(before)
    ensures res' == Dedup(before + toks)
  {
    res' := res;
    var j := 0;
    assert before + toks[..0] == before;
    while j < |toks|
      invariant 0 <= j <= |toks|
      invariant res' == Dedup(before + toks[..j])
    {
      var clsName := toks[j];
      DedupSnoc(before + toks[..j], clsName);
      assert before + toks[..j] + [clsName] == before + toks[..j + 1];
      if clsName !in res' {
        res' := res' + [clsName];
      }
      j := j + 1;
    }
    assert toks[..|toks|] == toks;
  }

  /** `mergeCSSClasses(clsNames...)`: `None` stands for a null argument. */
  method MergeCssClasses(clsNames: seq<Option<string>>) returns (r: string)
    ensures r == Join(Dedup(AllTokens(clsNames)), " ")
  {
    var res: seq<string> := [];
    var i := 0;
    while i < |clsNames|
      invariant 0 <= i <= |clsNames|
      invariant res == Dedup(AllTokens(clsNames[..i]))
    {
      AllTokensSnoc(clsNames, i);
      if clsNames[i].Some? {
        res := AddNewTokens(res, AllTokens(clsNames[..i]), Tokens(clsNames[i].value));
      } else {
        assert AllTokens(clsNames[..i]) + [] == AllTokens(clsNames[..i]);
      }
      i := i + 1;
    }
    assert clsNames[..|clsNames|] == clsNames;
    r := ConcatStrings(res, " ");
  }

  /**
   * The merged list, read back with a tokenizer: every token of the arguments exactly once, in
   * the order of first occurrence.
   */
  lemma MergedTokens(clsNames: seq<Option<string>>)
    ensures var merged := Tokens(Join(Dedup(AllTokens(clsNames)), " "));
      merged == Dedup(AllTokens(clsNames)) && Distinct(merged)
      && forall t :: t in merged <==> t in AllTokens(clsNames)
  {
    var all := AllTokens(clsNames);
    AllTokensAreTokens(clsNames);
    DedupIsDistinctCover(all);
    var d := Dedup(all);
    assert forall i :: 0 <= i < |d| ==> d[i] in all;
    TokensOfJoin(d);
  }

  // ------------------------------------------------------------------ sizes

  /** The characters of a size's unit: letters and '%'. */
  predicate IsUnitChar(c: char)
  {
    IsLetter(c) || c == '%'
  }

  /** Where the trailing run of unit characters of `s[..j]` starts. */
  function UnitStartBefore(s: string, j: nat): (k: nat)
    requires j <= |s|
    ensures k <= j
    ensures forall m :: k <= m < j ==> IsUnitChar(s[m])
    ensures k > 0 ==> !IsUnitChar(s[k - 1])
  {
    if j > 0 && IsUnitChar(s[j - 1]) then UnitStartBefore(s, j - 1) else j
  }

  /** Where the unit of `s` starts: after it only unit characters, before it none. */
  function UnitStart(s: string): (k: nat)
    ensures k <= |s|
    ensures forall m :: k <= m < |s| ==> IsUnitChar(s[m])
    ensures k > 0 ==> !IsUnitChar(s[k - 1])
  {
    UnitStartBefore(s, |s|)
  }

  /** The backward scan shared by `getSizeInt` and `getSizeUnit`: the index before the unit. */
  method UnitScan(padd: string) returns (idx: int)
    ensures idx + 1 == UnitStart(padd)
  {
    idx := |padd| - 1;
    while idx >= 0
      invariant -1 <= idx < |padd|
      invariant UnitStartBefore(padd, idx + 1) == UnitStart(padd)
      decreases idx + 1
    {
      var ch := padd[idx];
      if IsUnitChar(ch) {
        idx := idx - 1;
      } else {
        break;
      }
    }
  }

  /** `getSizeUnit(padd)`: the longest trailing run of letters and '%'. */
  method GetSizeUnit(padd: string) returns (unit: string)
    ensures unit == padd[UnitStart(padd)..]
  {
    var idx := UnitScan(padd);
    unit := padd[idx + 1..];
  }

  /** `getSizeInt(padd)`: the number before the unit, or 0 when it does not parse. */
  method GetSizeInt(padd: string) returns (n: int)
    ensures var p := ParseInt(padd[..UnitStart(padd)]); n == if p.Some? then p.value else 0
  {
    var idx := UnitScan(padd);
    var p := ParseInt(padd[..idx + 1]);
    n := if p.Some? then p.value else 0;
  }

  /** The number part and the unit put back together give the size text. */
  lemma SizeSplits(padd: string)
    ensures padd[..UnitStart(padd)] + padd[UnitStart(padd)..] == padd
  {
  }

  /** A size written as an `int` followed by a unit splits back into that `int` and that unit. */
  lemma SizeRoundTrip(n: int, unit: string)
    requires IsJavaInt(n)
    requires forall k :: 0 <= k < |unit| ==> IsUnitChar(unit[k])
    ensures var s := IntToString(n) + unit;
      s[UnitStart(s)..] == unit && ParseInt(s[..UnitStart(s)]) == Some(n)
  {
    var d := IntToString(n);
    var s := d + unit;
    assert !IsUnitChar(d[|d| - 1]) by {
      if n < 0 {
        assert d[|d| - 1] == NatToDigits(-n)[|NatToDigits(-n)| - 1];
      }
    }
    UnitStartAfter(s, |d|);
    assert s[..|d|] == d && s[|d|..] == unit;
    ParseIntToString(n);
  }

  /** When the unit characters start right after a non-unit character at `k - 1`, the unit starts at `k`. */
  lemma UnitStartAfter(s: string, k: nat)
    requires 0 < k <= |s| && !IsUnitChar(s[k - 1])
    requires forall m :: k <= m < |s| ==> IsUnitChar(s[m])
    ensures UnitStart(s) == k
  {
  }
}
