/*
 * CSSParser: reads a CSS declaration list ("name: value; name: value") into a sorted map. A
 * value runs to the next ';' that is outside a quoted string and outside a comment.
 */
module CssParser {
  import opened Wrappers
  import opened JavaText

  /** Where `parsePropValue` is: in plain text, inside a string opened by `quote`, or in a comment. */
  datatype ScanState = Other | Quoted(quote: char) | Comment

  /** The position `parsePropValue` stops at when it is at `pos` in state `st`. */
  function ValueEndFrom(s: string, pos: nat, st: ScanState): (r: nat)
    requires pos <= |s|
    ensures pos <= r <= |s|
    ensures r < |s| ==> s[r] == ';'
    decreases |s| - pos
  {
    if pos == |s| then pos
    else
      var ch := s[pos];
      match st
      case Other =>
        if ch == ';' then pos
        else if ch == '"' || ch == '\'' then ValueEndFrom(s, pos + 1, Quoted(ch))
        else if ch == '/' && pos < |s| - 1 && s[pos + 1] == '*' then ValueEndFrom(s, pos + 2, Comment)
        else ValueEndFrom(s, pos + 1, Other)
      case Quoted(q) => ValueEndFrom(s, pos + 1, if ch == q then Other else st)
      case Comment =>
        if ch == '*' && pos < |s| - 1 && s[pos + 1] == '/' then ValueEndFrom(s, pos + 2, Other)
        else ValueEndFrom(s, pos + 1, Comment)
  }

  /** The end of the value that starts at `offset`: a top-level ';' or the end of the string. */
  function ValueEnd(s: string, offset: nat): (r: nat)
    requires offset <= |s|
    ensures offset <= r <= |s|
    ensures r < |s| ==> s[r] == ';'
  {
    ValueEndFrom(s, offset, Other)
  }

  /** `parsePropValue(str, offset)`. */
  method ParsePropValue(s: string, offset: nat) returns (pos: nat)
    requires offset <= |s|
    ensures pos == ValueEnd(s, offset)
  {
    var state := Other;
    pos := offset;
    var endOfProp := false;
    while pos < |s|
      invariant offset <= pos <= |s|
      invariant ValueEndFrom(s, pos, state) == ValueEnd(s, offset)
      decreases |s| - pos
    {
      var ch := s[pos];
      match state {
        case Other =>
          if ch == ';' {
            endOfProp := true;
          } else if ch == '"' || ch == '\'' {
            state := Quoted(ch);
          } else if ch == '/' && pos < |s| - 1 && s[pos + 1] == '*' {
            state := Comment;
            pos := pos + 1;
          }
        case Quoted(q) =>
          if ch == q {
            state := Other;
          }
        case Comment =>
          if ch == '*' && pos < |s| - 1 && s[pos + 1] == '/' {
            state := Other;
            pos := pos + 1;
          }
      }
      if endOfProp {
        break;
      }
      pos := pos + 1;
    }
  }

  /** Without quotes and comment openers, a value ends at the first ';' (or the end). */
  lemma {:induction false} PlainValueEndsAtSemicolon(s: string, pos: nat)
    requires pos <= |s|
    requires forall k :: pos <= k < |s| ==> s[k] != '"' && s[k] != '\'' && s[k] != '/'
    ensures ValueEndFrom(s, pos, Other) == if IndexOfChar(s, ';', pos) < 0 then |s| else IndexOfChar(s, ';', pos)
    decreases |s| - pos
  {
    if pos < |s| && s[pos] != ';' {
      PlainValueEndsAtSemicolon(s, pos + 1);
    }
  }

  /** Inside a string, the value does not end before the closing quote: a ';' there is text. */
  lemma {:induction false} QuotedTextIsSkipped(s: string, pos: nat, q: char, k: nat)
    requires pos <= k < |s|
    requires forall j :: pos <= j <= k ==> s[j] != q
    ensures ValueEndFrom(s, pos, Quoted(q)) > k
    decreases k - pos
  {
    if pos < k {
      QuotedTextIsSkipped(s, pos + 1, q, k);
    }
  }

  /** Inside a comment, the value does not end before a closing star-slash. */
  lemma {:induction false} CommentIsSkipped(s: string, pos: nat, k: nat)
    requires pos <= k < |s|
    requires forall j :: pos <= j <= k ==> !(s[j] == '*' && j < |s| - 1 && s[j + 1] == '/')
    ensures ValueEndFrom(s, pos, Comment) > k
    decreases k - pos
  {
    if pos < k {
      CommentIsSkipped(s, pos + 1, k);
    }
  }

  /** A value that opens a string which is still open at `k` has not ended at `k`. */
  lemma QuotedValueDoesNotEndInside(s: string, offset: nat, k: nat)
    requires offset < k < |s|
    requires s[offset] == '"' || s[offset] == '\''
    requires forall j :: offset < j <= k ==> s[j] != s[offset]
    ensures ValueEnd(s, offset) > k
  {
    QuotedTextIsSkipped(s, offset + 1, s[offset], k);
  }

  /** Where a declaration's name starts after `start`: past a comment opened at `start`, if any. */
  function NameStart(s: string, start: nat): (r: nat)
    requires start < |s|
    ensures start <= r <= |s|
  {
    if s[start] == '/' && start < |s| - 1 && s[start + 1] == '*' then
      var cend := IndexOf(s, "*/", start + 2);
      if cend < 0 then |s| else cend + 2
    else start
  }

  /**
   * One declaration of the list: its name runs from `from` to the ':' at `colon`, its value from
   * there to `end`, a top-level ';' or the end of the string.
   */
  datatype Span = Span(from: nat, colon: nat, end: nat)

  predicate SpanIn(s: string, sp: Span)
  {
    sp.from <= sp.colon < sp.end <= |s|
  }

  /** The declaration whose name starts at `from`, if a ':' follows. */
  function SpanAt(s: string, from: nat): (r: Option<Span>)
    requires from <= |s|
    ensures r.Some? ==> SpanIn(s, r.value) && r.value.from == from
  {
    var p := IndexOfChar(s, ':', from);
    if p < 0 then None else Some(Span(from, p, ValueEnd(s, p + 1)))
  }

  /** The declarations `parseCSSProperties` reads from `start` on, in order. */
  function SpansFrom(s: string, start: nat): (r: seq<Span>)
    requires start <= |s|
    ensures forall i :: 0 <= i < |r| ==> SpanIn(s, r[i])
    decreases |s| - start
  {
    if start == |s| then []
    else if s[start] == ';' || IsWhitespace(s[start]) then SpansFrom(s, start + 1)
    else
      var d := SpanAt(s, NameStart(s, start));
      if d.None? then [] else [d.value] + SpansFrom(s, d.value.end)
  }

  /** The (name, value) pair `parseCSSProperties` puts into its map for a declaration: both trimmed. */
  function EntryOf(s: string, sp: Span): (string, string)
    requires SpanIn(s, sp)
  {
    (Trim(s[sp.from..sp.colon]), Trim(s[sp.colon + 1..sp.end]))
  }

  /** Names and values carry no leading or trailing whitespace: trimming them again changes nothing. */
  lemma EntryIsTrimmed(s: string, sp: Span)
    requires SpanIn(s, sp)
    ensures Trim(EntryOf(s, sp).0) == EntryOf(s, sp).0 && Trim(EntryOf(s, sp).1) == EntryOf(s, sp).1
  {
    TrimmedTrim(EntryOf(s, sp).0);
    TrimmedTrim(EntryOf(s, sp).1);
  }

  /** Puts the declarations into `m` in order, so that a later one for a name wins. */
  function PutAll(m: map<string, string>, s: string, spans: seq<Span>): map<string, string>
    requires forall i :: 0 <= i < |spans| ==> SpanIn(s, spans[i])
    decreases |spans|
  {
    if spans == [] then m
    else
      var e := EntryOf(s, spans[0]);
      PutAll(m[e.0 := e.1], s, spans[1..])
  }

  /** The map `parseCSSProperties(css)` returns. */
  function Properties(css: string): map<string, string>
  {
    PutAll(map[], css, SpansFrom(css, 0))
  }

  /** `parseCSSProperties`. */
  method ParseCssProperties(css: string) returns (res: map<string, string>)
    ensures res == Properties(css)
  {
    res := map[];
    var startPos: nat := 0;
    var stop := false;
    while startPos < |css| && !stop
      invariant startPos <= |css|
      invariant stop ==> SpansFrom(css, startPos) == []
      invariant PutAll(res, css, SpansFrom(css, startPos)) == Properties(css)
      decreases |css| - startPos, if stop then 0 else 1
    {
      res, startPos, stop := ParseStep(css, startPos, res);
    }
    assert SpansFrom(css, startPos) == [];
  }

  /** One round of `parseCSSProperties`'s loop: skip a separator, or read a declaration, or stop. */
  method ParseStep(css: string, startPos: nat, res: map<string, string>) returns (res': map<string, string>, next: nat, stop: bool)
    requires startPos < |css|
    ensures startPos <= next <= |css| && (!stop ==> startPos < next)
    ensures stop ==> SpansFrom(css, next) == []
    ensures PutAll(res', css, SpansFrom(css, next)) == PutAll(res, css, SpansFrom(css, startPos))
  {
    var ch := css[startPos];
    if ch == ';' || IsWhitespace(ch) {
      SeparatorsSkipped(css, startPos, startPos + 1);
      return res, startPos + 1, false;
    }
    var found, pname, pval, endPos := ReadDeclaration(css, startPos);
    if !found {
      return res, startPos, true;
    }
    DeclarationStep(res, css, startPos, endPos, pname, pval);
    return res[pname := pval], endPos, false;
  }

  /** Putting the declaration `ReadDeclaration` read, then the rest: the declarations from `start` on. */
  lemma DeclarationStep(m: map<string, string>, s: string, start: nat, endPos: nat, name: string, value: string)
    requires start < endPos <= |s|
    requires var spans := SpansFrom(s, start);
      spans != [] && EntryOf(s, spans[0]) == (name, value) && spans[1..] == SpansFrom(s, endPos)
    ensures PutAll(m[name := value], s, SpansFrom(s, endPos)) == PutAll(m, s, SpansFrom(s, start))
  {
  }

  /** One declaration starts where the name does: `SpanAt` at `NameStart`. */
  lemma SpansAtDeclaration(s: string, start: nat, from: nat, p: int)
    requires start < |s| && s[start] != ';' && !IsWhitespace(s[start])
    requires from == NameStart(s, start) && p == IndexOfChar(s, ':', from)
    ensures p < 0 ==> SpansFrom(s, start) == []
    ensures p >= 0 ==> SpansFrom(s, start) == [Span(from, p, ValueEnd(s, p + 1))] + SpansFrom(s, ValueEnd(s, p + 1))
  {
    var d := SpanAt(s, from);
    assert d == if p < 0 then None else Some(Span(from, p, ValueEnd(s, p + 1)));
    assert SpansFrom(s, start) == if d.None? then [] else [d.value] + SpansFrom(s, d.value.end);
  }

  /** The declaration read at `start` is the first of the spans from there, the rest follow it. */
  lemma DeclarationRead(s: string, start: nat, from: nat, p: nat, end: nat, name: string, value: string)
    requires start < |s| && s[start] != ';' && !IsWhitespace(s[start])
    requires from == NameStart(s, start) && p == IndexOfChar(s, ':', from) && end == ValueEnd(s, p + 1)
    requires name == Trim(s[from..p]) && value == Trim(s[p + 1..end])
    ensures var spans := SpansFrom(s, start);
      spans != [] && spans[0].end == end && start < end
      && EntryOf(s, spans[0]) == (name, value) && spans[1..] == SpansFrom(s, end)
  {
    EntryAt(s, from, p, end);
    SpansAtDeclaration(s, start, from, p);
    var sp := Span(from, p, end);
    var rest := SpansFrom(s, end);
    assert ([sp] + rest)[0] == sp && ([sp] + rest)[1..] == rest;
  }

  /** The name and value of the declaration with name start `from`, colon `p` and end `end`. */
  lemma EntryAt(s: string, from: nat, p: nat, end: nat)
    requires from <= p < end <= |s|
    ensures EntryOf(s, Span(from, p, end)) == (Trim(s[from..p]), Trim(s[p + 1..end]))
  {
  }

  /**
   * The body of `parseCSSProperties`'s loop at a position that holds neither ';' nor whitespace:
   * skips a comment that starts there, then reads `name: value` up to the value's end. Not
   * `found` when no ':' follows.
   */
  method ReadDeclaration(css: string, start: nat) returns (found: bool, pname: string, pval: string, endPos: nat)
    requires start < |css| && css[start] != ';' && !IsWhitespace(css[start])
    ensures !found ==> SpansFrom(css, start) == []
    ensures found ==> var spans := SpansFrom(css, start);
      spans != [] && spans[0].end == endPos && start < endPos
      && EntryOf(css, spans[0]) == (pname, pval) && spans[1..] == SpansFrom(css, endPos)
  {
    var startPos := start;
    if css[startPos] == '/' && startPos < |css| - 1 && css[startPos + 1] == '*' {
      var cend := IndexOf(css, "*/", startPos + 2);
      startPos := if cend < 0 then |css| else cend + 2;
    }
    assert startPos == NameStart(css, start);
    var p := IndexOfChar(css, ':', startPos);
    SpansAtDeclaration(css, start, startPos, p);
    if p < 0 {
      return false, "", "", start;
    }
    pname := Trim(css[startPos..p]);
    endPos := ParsePropValue(css, p + 1);
    pval := Trim(css[p + 1..endPos]);
    found := true;
    DeclarationRead(css, start, startPos, p, endPos, pname, pval);
  }

  /** The names in the map are the names put into it. */
  lemma {:induction false} PutAllKeys(m: map<string, string>, s: string, spans: seq<Span>)
    requires forall i :: 0 <= i < |spans| ==> SpanIn(s, spans[i])
    ensures forall k :: k in PutAll(m, s, spans) <==>
      k in m || exists i :: 0 <= i < |spans| && EntryOf(s, spans[i]).0 == k
    decreases |spans|
  {
    if spans != [] {
      var e := EntryOf(s, spans[0]);
      PutAllKeys(m[e.0 := e.1], s, spans[1..]);
      assert forall i :: 0 < i < |spans| ==> spans[i] == spans[1..][i - 1];
    }
  }

  /** A later declaration of a name overwrites the earlier one. */
  lemma {:induction false} PutAllLastWins(m: map<string, string>, s: string, spans: seq<Span>, last: Span)
    requires forall i :: 0 <= i < |spans| ==> SpanIn(s, spans[i])
    requires SpanIn(s, last)
    ensures PutAll(m, s, spans + [last]) == PutAll(m, s, spans)[EntryOf(s, last).0 := EntryOf(s, last).1]
    decreases |spans|
  {
    if spans == [] {
      assert [] + [last] == [last];
    } else {
      assert (spans + [last])[1..] == spans[1..] + [last];
      var e := EntryOf(s, spans[0]);
      PutAllLastWins(m[e.0 := e.1], s, spans[1..], last);
    }
  }

  /** Leading ';' and whitespace are skipped. */
  lemma {:induction false} SeparatorsSkipped(s: string, i: nat, k: nat)
    requires i <= k <= |s|
    requires forall j :: i <= j < k ==> s[j] == ';' || IsWhitespace(s[j])
    ensures SpansFrom(s, i) == SpansFrom(s, k)
    decreases k - i
  {
    if i < k {
      SeparatorsSkipped(s, i + 1, k);
    }
  }

  /** Once no ':' remains, there are no more declarations. */
  lemma {:induction false} NoColonNoEntries(s: string, start: nat)
    requires start <= |s|
    requires forall j :: start <= j < |s| ==> s[j] != ':'
    ensures SpansFrom(s, start) == []
    decreases |s| - start
  {
    if start < |s| && (s[start] == ';' || IsWhitespace(s[start])) {
      NoColonNoEntries(s, start + 1);
    }
  }

  /** A single plain declaration: its trimmed name maps to its trimmed value. */
  lemma SingleDeclaration(s: string, p: nat)
    requires p < |s| && s[p] == ':'
    requires s[0] != ';' && s[0] != '/' && !IsWhitespace(s[0])
    requires forall k :: 0 <= k < p ==> s[k] != ':'
    requires forall k :: p < k < |s| ==> s[k] != '"' && s[k] != '\'' && s[k] != '/' && s[k] != ';'
    ensures SpansFrom(s, 0) == [Span(0, p, |s|)]
    ensures Properties(s) == map[Trim(s[..p]) := Trim(s[p + 1..])]
  {
    assert NameStart(s, 0) == 0;
    assert IndexOfChar(s, ':', 0) == p;
    SpansAtDeclaration(s, 0, 0, p);
    PlainValueEndsAtSemicolon(s, p + 1);
    assert ValueEnd(s, p + 1) == |s|;
    assert SpansFrom(s, |s|) == [];
    var sp := Span(0, p, |s|);
    assert [sp][1..] == [];
    assert s[0..p] == s[..p] && s[p + 1..|s|] == s[p + 1..];
    PropertiesOfOne(s, sp);
  }

  /** A list of one declaration yields a map of one entry. */
  lemma PropertiesOfOne(s: string, sp: Span)
    requires SpanIn(s, sp) && SpansFrom(s, 0) == [sp]
    ensures Properties(s) == map[EntryOf(s, sp).0 := EntryOf(s, sp).1]
  {
    var e := EntryOf(s, sp);
    assert [sp][1..] == [];
    assert PutAll(map[], s, [sp]) == PutAll(map[e.0 := e.1], s, []);
  }
}
