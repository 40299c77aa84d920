/*
 * DocmaUtil: the string helpers (joining with a separator, byte sizes, shortened strings) and the
 * lenient well-formedness check that drives the XML tokenizer over a text.
 */
module DocmaUtil {
  import opened Wrappers
  import opened JavaText
  import opened XmlParser

  /** The elements of `parts` with `sep` between each two neighbours. */
  function Join(parts: seq<string>, sep: string): string
    decreases |parts|
  {
    if parts == [] then ""
    else if |parts| == 1 then parts[0]
    else parts[0] + sep + Join(parts[1..], sep)
  }

  /** Appending one element to a non-empty list appends the separator and that element. */
  lemma {:induction false} JoinSnoc(parts: seq<string>, x: string, sep: string)
    requires parts != []
    ensures Join(parts + [x], sep) == Join(parts, sep) + sep + x
    decreases |parts|
  {
    if |parts| == 1 {
      assert (parts + [x])[1..] == [x];
    } else {
      assert (parts + [x])[1..] == parts[1..] + [x];
      JoinSnoc(parts[1..], x, sep);
    }
  }

  /** A joined list starts with its first element and ends with its last: no separator at either end. */
  lemma {:induction false} JoinEnds(parts: seq<string>, sep: string)
    requires parts != []
    ensures StartsWith(Join(parts, sep), parts[0])
    ensures EndsWith(Join(parts, sep), parts[|parts| - 1])
    decreases |parts|
  {
    if |parts| > 1 {
      JoinEnds(parts[1..], sep);
      var rest := Join(parts[1..], sep);
      var s := parts[0] + sep + rest;
      assert s[..|parts[0]|] == parts[0];
      assert s[|s| - |parts[|parts| - 1]|..] == rest[|rest| - |parts[|parts| - 1]|..];
    }
  }

  /** The length of a joined list: the elements' lengths plus one separator between each two. */
  function TotalLength(parts: seq<string>): nat
  {
    if parts == [] then 0 else |parts[0]| + TotalLength(parts[1..])
  }

  lemma {:induction false} JoinLength(parts: seq<string>, sep: string)
    requires parts != []
    ensures |Join(parts, sep)| == TotalLength(parts) + (|parts| - 1) * |sep|
    decreases |parts|
  {
    if |parts| > 1 {
      JoinLength(parts[1..], sep);
    }
  }

  /** Splitting a joined list at its separator gives the list back when no element holds the separator. */
  lemma {:induction false} PiecesOfJoin(parts: seq<string>, c: char)
    requires parts != [] && forall k :: 0 <= k < |parts| ==> c !in parts[k]
    ensures SplitPieces(Join(parts, [c]), c) == parts
    decreases |parts|
  {
    if |parts| > 1 {
      var rest := Join(parts[1..], [c]);
      var s := parts[0] + [c] + rest;
      assert s[|parts[0]|] == c;
      assert forall k :: 0 <= k < |parts[0]| ==> s[k] == parts[0][k];
      assert IndexOfChar(s, c, 0) == |parts[0]|;
      assert s[..|parts[0]|] == parts[0];
      assert s[|parts[0]| + 1..] == rest;
      PiecesOfJoin(parts[1..], c);
      assert parts == [parts[0]] + parts[1..];
    }
  }

  /** Joining the pieces of a split with the separator rebuilds the string. */
  lemma {:induction false} JoinOfPieces(s: string, c: char)
    ensures Join(SplitPieces(s, c), [c]) == s
    decreases |s|
  {
    var i := IndexOfChar(s, c, 0);
    if i >= 0 {
      var rest := SplitPieces(s[i + 1..], c);
      JoinOfPieces(s[i + 1..], c);
      JoinCons(s[..i], rest, [c]);
      assert s == s[..i] + [c] + s[i + 1..];
    }
  }

  /** Joining an element in front of a non-empty list. */
  lemma JoinCons(x: string, rest: seq<string>, sep: string)
    requires rest != []
    ensures Join([x] + rest, sep) == x + sep + Join(rest, sep)
  {
    assert ([x] + rest)[1..] == rest;
  }

  /**
   * `split(",")` undoes `concatStrings(list, ",")` when no element holds a comma and the last
   * element is not empty (`split` drops empty strings at the end).
   */
  lemma SplitOfJoin(parts: seq<string>, c: char)
    requires parts != [] && parts[|parts| - 1] != ""
    requires forall k :: 0 <= k < |parts| ==> c !in parts[k]
    ensures Split(Join(parts, [c]), c) == parts
  {
    PiecesOfJoin(parts, c);
    if |parts| > 1 {
      JoinEnds(parts[1..], [c]);
      var s := Join(parts, [c]);
      assert s == parts[0] + [c] + Join(parts[1..], [c]);
      assert s[|parts[0]|] == c;
    }
  }

  /** `concatStrings(List, sep)`. */
  method ConcatStrings(strList: seq<string>, sep: string) returns (r: string)
    ensures r == Join(strList, sep)
  {
    r := "";
    if |strList| > 0 {
      r := strList[0];
      assert strList[..1] == [strList[0]];
      var i := 1;
      while i < |strList|
        invariant 1 <= i <= |strList|
        invariant r == Join(strList[..i], sep)
      {
        assert strList[..i + 1] == strList[..i] + [strList[i]];
        JoinSnoc(strList[..i], strList[i], sep);
        r := r + sep + strList[i];
        i := i + 1;
      }
      assert strList[..|strList|] == strList;
    }
  }

  /** `concatStrings(String[], sep)`: the same over an array. */
  method ConcatStringArray(strArr: array<string>, sep: string) returns (r: string)
    ensures r == Join(strArr[..], sep)
  {
    r := "";
    if strArr.Length > 0 {
      r := strArr[0];
      assert strArr[..1] == [strArr[0]];
      var i := 1;
      while i < strArr.Length
        invariant 1 <= i <= strArr.Length
        invariant r == Join(strArr[..i], sep)
      {
        assert strArr[..i + 1] == strArr[..i] + [strArr[i]];
        JoinSnoc(strArr[..i], strArr[i], sep);
        r := r + sep + strArr[i];
        i := i + 1;
      }
      assert strArr[..strArr.Length] == strArr[..];
    }
  }

  /** `formatByteSize(size)`: bytes below 100000, whole kilobytes below 100000000, else whole megabytes. */
  function FormatByteSize(size: int): string
  {
    if size < 100000 then IntToString(size) + " Bytes"
    else if size < 100000 * 1000 then IntToString(size / 1000) + " KB"
    else IntToString(size / 1000000) + " MB"
  }

  /** The number and the unit a formatted size consists of. */
  function ReadByteSize(r: string): (string, string)
  {
    var k := IndexOfChar(r, ' ', 0);
    if k < 0 then (r, "") else (r[..k], r[k + 1..])
  }

  /** The digits and unit of `n` followed by " " and `unit`. */
  lemma ReadDigitsAndUnit(n: nat, unit: string)
    ensures ReadByteSize(NatToDigits(n) + " " + unit) == (NatToDigits(n), unit)
  {
    var d := NatToDigits(n);
    var r := d + " " + unit;
    assert r[|d|] == ' ';
    assert forall k :: 0 <= k < |d| ==> r[k] == d[k] && IsAsciiDigit(r[k]);
    assert IndexOfChar(r, ' ', 0) == |d|;
    assert r[..|d|] == d && r[|d| + 1..] == unit;
  }

  /**
   * A non-negative size reads back as the number of whole units it holds, with the unit the
   * thresholds choose.
   */
  lemma ByteSizeReadsBack(size: nat)
    ensures var (digits, unit) := ReadByteSize(FormatByteSize(size));
      AllDigits(digits) && var q := DigitsValue(digits);
      (size < 100000 ==> unit == "Bytes" && q == size)
      && (100000 <= size < 100000000 ==> unit == "KB" && q * 1000 <= size < q * 1000 + 1000)
      && (100000000 <= size ==> unit == "MB" && q * 1000000 <= size < q * 1000000 + 1000000)
  {
    var q: nat := if size < 100000 then size else if size < 100000000 then size / 1000 else size / 1000000;
    var unit := if size < 100000 then "Bytes" else if size < 100000000 then "KB" else "MB";
    assert FormatByteSize(size) == NatToDigits(q) + " " + unit;
    ReadDigitsAndUnit(q, unit);
    DigitsRoundTrip(q);
  }

  /** `extractStringStart(str, maxlen)`: a negative `maxlen` fails in `substring`. */
  function ExtractStringStart(str: string, maxlen: int): (r: Result<string>)
    ensures maxlen < 0 <==> r.Err?
    ensures r.Ok? && |str| <= maxlen ==> r.value == str
    ensures r.Ok? && |str| > maxlen ==>
      |r.value| == maxlen + 3 && StartsWith(str, r.value[..maxlen]) && EndsWith(r.value, "...")
  {
    if |str| <= maxlen then Ok(str)
    else if maxlen < 0 then Err("String index out of range: " + IntToString(maxlen))
    else Ok(str[..maxlen] + "...")
  }

  /** A text whose characters are all at most ' ' trims to nothing. */
  lemma BlankTrimsToNothing(s: string)
    requires forall k :: 0 <= k < |s| ==> s[k] <= ' '
    ensures Trim(s) == []
  {
    TrimAround(s, [], []);
    assert s + [] + [] == s;
  }

  /** The message text of a rejected input. */
  function Excerpt(s: string): string
  {
    ExtractStringStart(s, 60).value
  }

  /**
   * The end of the last token the tokenizer reports when it reads `s` on from `cursor`, comments,
   * PIs and CDATA skipped, or `lastEnd` when it reports none; or its first error.
   */
  ghost function LastTokenEnd(s: string, cursor: int, lastEnd: int): (r: Result<int>)
    requires 0 <= cursor <= |s| && 0 <= lastEnd <= |s|
    ensures r.Ok? ==> 0 <= r.value <= |s|
    decreases |s| - cursor
  {
    var n := NextToken(s, cursor, true, true, true);
    if n.0.Err? then Err(n.0.error)
    else if n.0.value.None? then Ok(lastEnd)
    else LastTokenEnd(s, n.1, n.0.value.value.end)
  }

  /**
   * What `checkWellFormedXML` accepts: blank text, or text that starts, after blanks, with a tag
   * that the tokenizer reads to its end without error, with only blanks after the last token.
   */
  ghost predicate AcceptedXml(xml: string)
  {
    var p := IndexOfChar(xml, '<', 0);
    if p < 0 then Trim(xml) == []
    else Trim(xml[..p]) == [] && var w := LastTokenEnd(xml, p, 0); w.Ok? && Trim(xml[w.value..]) == []
  }

  /** `<a></a>` is accepted: the tokenizer reads its start and end tag up to the end of the text. */
  lemma AcceptedSimpleElement()
    ensures LastTokenEnd("<a></a>", 0, 0) == Ok(7) && AcceptedXml("<a></a>")
  {
    var s := "<a></a>";
    assert s[0..3] == "<a>" && s[3..7] == "</a>";
    NextTokenOnStartTag(s, 0);
    NextTokenOnEndTag(s, 3);
    assert NextToken(s, 7, true, true, true) == (Ok(None), 7);
    assert IndexOfChar(s, '<', 0) == 0 && s[..0] == [] && s[7..] == [];
    BlankTrimsToNothing([]);
  }

  /** `<a></a>x` is rejected: a text other than blanks follows the last token. */
  lemma RejectedTextAfterElement()
    ensures LastTokenEnd("<a></a>x", 0, 0) == Ok(7) && !AcceptedXml("<a></a>x")
  {
    var t := "<a></a>x";
    assert t[0..3] == "<a>" && t[3..7] == "</a>";
    NextTokenOnStartTag(t, 0);
    NextTokenOnEndTag(t, 3);
    assert NextToken(t, 7, true, true, true) == (Ok(None), 7);
    assert IndexOfChar(t, '<', 0) == 0 && t[..0] == [] && t[7..] == "x";
    assert Trim("x") == "x";
  }

  /**
   * `checkWellFormedXML(xml)`: blank text passes; otherwise the text must start, after blanks,
   * with a tag, the tokenizer must read it without error, and only blanks may follow the end of
   * the last token it reports. `endPos` is that end (0 when no token was reported).
   */
  method CheckWellFormedXml(xml: string) returns (r: Result<()>, ghost endPos: int)
    ensures (forall k :: 0 <= k < |xml| ==> xml[k] <= ' ') ==> r.Ok?
    ensures IndexOfChar(xml, '<', 0) < 0 ==> (r.Ok? <==> Trim(xml) == [])
    ensures var p := IndexOfChar(xml, '<', 0); p >= 0 && Trim(xml[..p]) != [] ==> r.Err?
    ensures r.Ok? && IndexOfChar(xml, '<', 0) >= 0 ==> 0 <= endPos <= |xml| && Trim(xml[endPos..]) == []
    ensures r.Ok? <==> AcceptedXml(xml)
    ensures var p := IndexOfChar(xml, '<', 0);
      p >= 0 && Trim(xml[..p]) == [] ==>
        var w := LastTokenEnd(xml, p, 0);
        (w.Err? ==> r == Err(w.error)) && (w.Ok? ==> endPos == w.value)
  {
    endPos := 0;
    var startpos := IndexOfChar(xml, '<', 0);
    if startpos < 0 {
      if forall k :: 0 <= k < |xml| ==> xml[k] <= ' ' {
        BlankTrimsToNothing(xml);
      }
      if Trim(xml) != [] {
        return Err("String does not contain well-formed XML: " + Excerpt(Trim(xml))), endPos;
      }
      return Ok(()), endPos;
    }
    if Trim(xml[..startpos]) != [] {
      return Err("String does not start with XML tag: " + Excerpt(xml)), endPos;
    }
    var parser := new Parser(xml, startpos);
    while true
      invariant parser.Valid() && parser.xml == xml && 0 <= parser.cursorPos <= |xml|
      invariant parser.skipComments && parser.skipPIs && parser.skipCData
      invariant 0 <= parser.current.endOffset <= |xml|
      invariant LastTokenEnd(xml, startpos, 0) == LastTokenEnd(xml, parser.cursorPos, parser.current.endOffset)
      decreases |xml| - parser.cursorPos
    {
      var res := parser.Next();
      if res.Err? {
        return Err(res.error), endPos;
      }
      if res.value == Finished {
        break;
      }
    }
    var endpos := parser.current.endOffset;
    endPos := endpos;
    if endpos < |xml| {
      var after := Trim(xml[endpos..]);
      if after != [] {
        return Err("String is not well-formed XML: " + Excerpt(after)), endPos;
      }
    } else {
      assert xml[endpos..] == [];
      BlankTrimsToNothing([]);
    }
    return Ok(()), endPos;
  }
}
