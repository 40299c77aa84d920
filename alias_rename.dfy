/** The default strategy that proposes a new alias when an alias is already taken. */
module AliasRename {
  import opened Wrappers
  import opened JavaText

  /**
   * `renameAlias`: an alias without '_' gets "_2" appended; when the text after the last '_' is a
   * Java `int` n, that text is replaced by n+1 (with 32-bit wrap-around); otherwise "_2" is appended.
   */
  function RenameAlias(alias: string): (r: string)
    ensures r != alias
  {
    var p := LastIndexOfChar(alias, '_');
    if p < 0 then alias + "_2"
    else
      match ParseInt(alias[p + 1..])
      case Some(n) =>
        NumberChanges(alias[p + 1..], n);
        alias[..p + 1] + IntToString(Wrap32(n + 1))
      case None => alias + "_2"
  }

  /** The number written after the separator always changes, even when n+1 wraps around. */
  lemma NumberChanges(numstr: string, n: int)
    requires ParseInt(numstr) == Some(n)
    ensures IntToString(Wrap32(n + 1)) != numstr
  {
    var m := Wrap32(n + 1);
    assert m != n by {
      if n == MaxInt { assert m == MinInt; } else { assert m == n + 1; }
    }
    ParseIntToString(m);
  }

  lemma NoSeparatorAppendsTwo(alias: string)
    requires forall i :: 0 <= i < |alias| ==> alias[i] != '_'
    ensures RenameAlias(alias) == alias + "_2"
  {
  }

  lemma IntTextHasNoSeparator(n: int)
    ensures forall i :: 0 <= i < |IntToString(n)| ==> IntToString(n)[i] != '_'
  {
    var digits := IntToString(n);
    if n < 0 {
      forall i | 0 <= i < |digits| ensures digits[i] != '_' {
        if i > 0 { assert digits[i] == NatToDigits(-n)[i - 1]; }
      }
    }
  }

  /** The last occurrence of `c` is the one placed just before a tail that does not contain it. */
  lemma {:induction false} LastIndexBeforeTail(prefix: string, c: char, tail: string)
    requires forall i :: 0 <= i < |tail| ==> tail[i] != c
    ensures LastIndexOfChar(prefix + [c] + tail, c) == |prefix|
  {
    var s := prefix + [c] + tail;
    var q := LastIndexOfChar(s, c);
    assert s[|prefix|] == c;
    assert q >= |prefix|;
    assert forall k :: |prefix| < k < |s| ==> s[k] == tail[k - |prefix| - 1];
  }

  /** An alias ending in '_' and the decimal text of an `int` n gets n+1 in its place. */
  lemma NumberedAliasIncrements(prefix: string, n: int)
    requires IsJavaInt(n)
    ensures RenameAlias(prefix + "_" + IntToString(n)) == prefix + "_" + IntToString(Wrap32(n + 1))
  {
    var digits := IntToString(n);
    var alias := prefix + "_" + digits;
    IntTextHasNoSeparator(n);
    LastIndexBeforeTail(prefix, '_', digits);
    assert alias == prefix + ['_'] + digits;
    var p := |prefix|;
    assert alias[p + 1..] == digits;
    assert alias[..p + 1] == prefix + "_";
    ParseIntToString(n);
  }

  /** A suffix after the last '_' that is not a Java `int` makes the strategy append "_2". */
  lemma NonNumericSuffixAppendsTwo(alias: string, p: int)
    requires 0 <= p < |alias| && alias[p] == '_'
    requires forall k :: p < k < |alias| ==> alias[k] != '_'
    requires ParseInt(alias[p + 1..]).None?
    ensures RenameAlias(alias) == alias + "_2"
  {
    var q := LastIndexOfChar(alias, '_');
    assert q == p;
    assert ParseInt(alias[q + 1..]).None?;
  }
}
