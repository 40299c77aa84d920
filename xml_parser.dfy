/**
 * A lenient XML tokenizer. It reports start tags, end tags and (optionally) comments, processing
 * instructions and CDATA sections; it does not check nesting. Attribute names follow Java's
 * identifier rules.
 */
module XmlParser {
  import opened Wrappers
  import opened JavaText

  datatype EventType = Finished | StartElement | EndElement | Comment | ProcessingInstruction | CData

  const DoctypeStart := "<!DOCTYPE"
  const CommentStart := "<!--"
  const CommentEnd := "-->"
  const CDataStart := "<![CDATA["
  const CDataEnd := "]]>"

  // ------------------------------------------------------------------ attribute scanning

  /** The states of the attribute scanner. */
  datatype ScanState = SearchNameStart | SearchEquals | SearchValueStart | SearchValueEnd

  /**
   * What the attribute scanner finds: the position of the closing '>' with the attribute pairs,
   * or the position of a syntax error.
   */
  datatype TagScan = TagEnd(pos: int, names: seq<string>, values: seq<string>) | SyntaxError(pos: int)

  /** The first position at or after `i` that does not hold whitespace, or `|s|`. */
  function SkipWhitespace(s: string, i: nat): (p: nat)
    requires i <= |s|
    ensures i <= p <= |s|
    ensures forall k :: i <= k < p ==> IsWhitespace(s[k])
    ensures p < |s| ==> !IsWhitespace(s[p])
    decreases |s| - i
  {
    if i == |s| || !IsWhitespace(s[i]) then i else SkipWhitespace(s, i + 1)
  }

  /** The shape every scan result has: a '>' at the end position with paired lists, or an error at or after the start. */
  ghost predicate ScanShaped(s: string, offset: nat, r: TagScan)
  {
    (r.TagEnd? ==> |r.names| == |r.values| && offset <= r.pos < |s| && s[r.pos] == '>')
    && (r.SyntaxError? ==> offset <= r.pos && (r.pos <= |s| || r.pos == offset))
  }

  /*
   * The attribute scanner of `parseTagAttributes`, one function per state. Each consumes the
   * character at `offset` (or, before '=', a run of whitespace) and continues in the next state.
   */

  /** SEARCH_NAME_START: between attributes; '>' or "/>" ends the tag, an identifier start begins a name. */
  function InNameStart(s: string, offset: nat, names: seq<string>, values: seq<string>): (r: TagScan)
    requires |names| == |values|
    decreases |s| - offset, 0
  {
    if offset >= |s| then SyntaxError(offset)
    else
      var ch := s[offset];
      if ch == '>' then TagEnd(offset, names, values)
      else if ch == '/' then
        if offset + 1 < |s| && s[offset + 1] == '>' then TagEnd(offset + 1, names, values)
        else SyntaxError(offset + 1)
      else if IsJavaIdentifierStart(ch) then InEquals(s, offset + 1, offset, names, values)
      else if !IsWhitespace(ch) then SyntaxError(offset)
      else InNameStart(s, offset + 1, names, values)
  }

  /** SEARCH_EQUALS: inside a name that began at `nameStart`; whitespace must lead to '='. */
  function InEquals(s: string, offset: nat, nameStart: nat, names: seq<string>, values: seq<string>): (r: TagScan)
    requires nameStart <= offset && |names| == |values|
    decreases |s| - offset, 1
  {
    if offset >= |s| then SyntaxError(offset)
    else AfterNameRun(s, offset, nameStart, SkipWhitespace(s, offset), names, values)
  }

  /** SEARCH_EQUALS once the whitespace run from `offset` to `p` is skipped. */
  function AfterNameRun(s: string, offset: nat, nameStart: nat, p: nat, names: seq<string>, values: seq<string>): (r: TagScan)
    requires nameStart <= offset <= p <= |s| && |names| == |values|
    decreases |s| - offset, 0
  {
    if p == |s| then SyntaxError(p)
    else if s[p] == '=' then InValueStart(s, p + 1, Trim(s[nameStart..p]), names, values)
    else if p > offset then SyntaxError(p)
    else if !(IsJavaIdentifierPart(s[p]) || s[p] == '-') then SyntaxError(offset)
    else InEquals(s, offset + 1, nameStart, names, values)
  }

  /** SEARCH_VALUE_START: after '='; a single or double quote opens the value. */
  function InValueStart(s: string, offset: nat, name: string, names: seq<string>, values: seq<string>): (r: TagScan)
    requires |names| == |values|
    decreases |s| - offset, 0
  {
    if offset >= |s| then SyntaxError(offset)
    else
      var ch := s[offset];
      if ch == '"' || ch == '\'' then InValueEnd(s, offset + 1, name, offset + 1, ch, names, values)
      else if !IsWhitespace(ch) then SyntaxError(offset)
      else InValueStart(s, offset + 1, name, names, values)
  }

  /** SEARCH_VALUE_END: inside a value opened by `quote` at `valueStart`; the same quote closes it. */
  function InValueEnd(s: string, offset: nat, name: string, valueStart: nat, quote: char,
                      names: seq<string>, values: seq<string>): (r: TagScan)
    requires valueStart <= offset && |names| == |values|
    decreases |s| - offset, 0
  {
    if offset >= |s| then SyntaxError(offset)
    else
      var ch := s[offset];
      if ch == quote then InNameStart(s, offset + 1, names + [name], values + [s[valueStart..offset]])
      else if ch == '<' then SyntaxError(offset)
      else InValueEnd(s, offset + 1, name, valueStart, quote, names, values)
  }

  /** The scan from state `st`, with the locals the Java loop keeps. */
  function Scan(s: string, offset: nat, st: ScanState, nameStart: nat, name: string, valueStart: nat,
                quote: char, names: seq<string>, values: seq<string>): (r: TagScan)
    requires st == SearchEquals ==> nameStart <= offset
    requires st == SearchValueEnd ==> valueStart <= offset
    requires |names| == |values|
  {
    match st
    case SearchNameStart => InNameStart(s, offset, names, values)
    case SearchEquals => InEquals(s, offset, nameStart, names, values)
    case SearchValueStart => InValueStart(s, offset, name, names, values)
    case SearchValueEnd => InValueEnd(s, offset, name, valueStart, quote, names, values)
  }

  /** The scan of the attributes of a tag whose name ends at `offset`. */
  function TagAttributes(s: string, offset: nat): (r: TagScan)
  {
    InNameStart(s, offset, [], [])
  }

  /** The `int` that `parseTagAttributes` returns for a scan: the '>' position, or the error position negated. */
  function JavaTagEnd(r: TagScan): int
  {
    match r
    case TagEnd(pos, _, _) => pos
    case SyntaxError(pos) => -pos
  }

  /* Every scan result is shaped: one lemma per scanner state, by induction along the text. */

  lemma {:induction false} NameStartShaped(s: string, offset: nat, names: seq<string>, values: seq<string>)
    requires |names| == |values|
    ensures ScanShaped(s, offset, InNameStart(s, offset, names, values))
    decreases |s| - offset, 0
  {
    if offset < |s| {
      var ch := s[offset];
      if ch == '>' || ch == '/' {
      } else if IsJavaIdentifierStart(ch) {
        EqualsShaped(s, offset + 1, offset, names, values);
      } else if IsWhitespace(ch) {
        NameStartShaped(s, offset + 1, names, values);
      }
    }
  }

  lemma {:induction false} EqualsShaped(s: string, offset: nat, nameStart: nat, names: seq<string>, values: seq<string>)
    requires nameStart <= offset && |names| == |values|
    ensures ScanShaped(s, offset, InEquals(s, offset, nameStart, names, values))
    decreases |s| - offset, 1
  {
    if offset < |s| {
      AfterNameRunShaped(s, offset, nameStart, SkipWhitespace(s, offset), names, values);
    }
  }

  lemma {:induction false} AfterNameRunShaped(s: string, offset: nat, nameStart: nat, p: nat, names: seq<string>, values: seq<string>)
    requires nameStart <= offset <= p <= |s| && |names| == |values|
    ensures ScanShaped(s, offset, AfterNameRun(s, offset, nameStart, p, names, values))
    decreases |s| - offset, 0
  {
    if p == |s| {
    } else if s[p] == '=' {
      ValueStartShaped(s, p + 1, Trim(s[nameStart..p]), names, values);
    } else if p > offset {
    } else if IsJavaIdentifierPart(s[p]) || s[p] == '-' {
      EqualsShaped(s, offset + 1, nameStart, names, values);
    }
  }

  lemma {:induction false} ValueStartShaped(s: string, offset: nat, name: string, names: seq<string>, values: seq<string>)
    requires |names| == |values|
    ensures ScanShaped(s, offset, InValueStart(s, offset, name, names, values))
    decreases |s| - offset, 0
  {
    if offset < |s| {
      var ch := s[offset];
      if ch == '"' || ch == '\'' {
        ValueEndShaped(s, offset + 1, name, offset + 1, ch, names, values);
      } else if IsWhitespace(ch) {
        ValueStartShaped(s, offset + 1, name, names, values);
      }
    }
  }

  lemma {:induction false} ValueEndShaped(s: string, offset: nat, name: string, valueStart: nat, quote: char,
                                          names: seq<string>, values: seq<string>)
    requires valueStart <= offset && |names| == |values|
    ensures ScanShaped(s, offset, InValueEnd(s, offset, name, valueStart, quote, names, values))
    decreases |s| - offset, 0
  {
    if offset < |s| {
      var ch := s[offset];
      if ch == quote {
        NameStartShaped(s, offset + 1, names + [name], values + [s[valueStart..offset]]);
      } else if ch != '<' {
        ValueEndShaped(s, offset + 1, name, valueStart, quote, names, values);
      }
    }
  }

  /** The attribute scan of a tag either finds its '>' (with paired lists) or an error at or after `offset`. */
  lemma TagAttributesShaped(s: string, offset: nat)
    ensures ScanShaped(s, offset, TagAttributes(s, offset))
  {
    NameStartShaped(s, offset, [], []);
  }

  /**
   * For a positive offset, which is what `next` always passes, the sign of the returned `int`
   * tells success from a syntax error, and success points at a '>'.
   */
  lemma JavaTagEndDecidesForPositiveOffset(s: string, offset: nat)
    requires offset > 0
    ensures JavaTagEnd(TagAttributes(s, offset)) >= 0 <==> TagAttributes(s, offset).TagEnd?
    ensures JavaTagEnd(TagAttributes(s, offset)) >= 0 ==>
      JavaTagEnd(TagAttributes(s, offset)) < |s| && s[JavaTagEnd(TagAttributes(s, offset))] == '>'
  {
    TagAttributesShaped(s, offset);
  }

  /** At offset 0 a syntax error is returned as -0, which a caller cannot tell from a '>' at position 0. */
  lemma JavaTagEndAmbiguousAtZero()
    ensures TagAttributes("!", 0).SyntaxError?
    ensures JavaTagEnd(TagAttributes("!", 0)) == 0
  {
    assert !IsJavaIdentifierStart('!') && !IsWhitespace('!');
  }

  /** The encoding the caller's `tag_end < 0` test needs: an error at `pos` becomes `-pos - 1`. */
  function TagEndIndex(r: TagScan): (i: int)
    ensures r.TagEnd? ==> i == r.pos
    ensures r.SyntaxError? && r.pos >= 0 ==> i < 0
  {
    match r
    case TagEnd(pos, _, _) => pos
    case SyntaxError(pos) => -pos - 1
  }

  /** With that encoding the result is non-negative exactly on success, at every offset. */
  lemma TagEndIndexDecides(s: string, offset: nat)
    ensures TagEndIndex(TagAttributes(s, offset)) >= 0 <==> TagAttributes(s, offset).TagEnd?
    ensures TagEndIndex(TagAttributes(s, offset)) >= 0 ==>
      TagEndIndex(TagAttributes(s, offset)) < |s| && s[TagEndIndex(TagAttributes(s, offset))] == '>'
  {
    TagAttributesShaped(s, offset);
  }

  /** The inner loop of the SEARCH_EQUALS state: skips the whitespace run that starts at `pos`. */
  method SkipWhitespaceRun(s: string, pos: nat) returns (p: nat, wasWhitespace: bool)
    requires pos < |s|
    ensures p == SkipWhitespace(s, pos)
    ensures wasWhitespace <==> p > pos
  {
    p, wasWhitespace := pos, false;
    var ch := s[pos];
    while IsWhitespace(ch)
      invariant pos <= p < |s| && ch == s[p]
      invariant SkipWhitespace(s, pos) == SkipWhitespace(s, p)
      invariant wasWhitespace <==> p > pos
      decreases |s| - p
    {
      wasWhitespace := true;
      p := p + 1;
      if p < |s| {
        ch := s[p];
      } else {
        return;
      }
    }
  }

  /* One step of the scanner per state; `None` continues, `Some(v)` is what parseTagAttributes returns. */

  method NameStartStep(s: string, pos: nat, names: seq<string>, values: seq<string>)
    returns (ret: Option<int>, state: ScanState, nameStart: nat)
    requires pos < |s| && |names| == |values|
    ensures ret.Some? ==> var t := InNameStart(s, pos, names, values);
      ret.value == JavaTagEnd(t) && (t.TagEnd? ==> t.names == names && t.values == values)
    ensures ret.None? ==> state == SearchNameStart || (state == SearchEquals && nameStart == pos)
    ensures ret.None? && state == SearchNameStart ==> InNameStart(s, pos + 1, names, values) == InNameStart(s, pos, names, values)
    ensures ret.None? && state == SearchEquals ==> InEquals(s, pos + 1, pos, names, values) == InNameStart(s, pos, names, values)
  {
    var ch := s[pos];
    state, nameStart := SearchNameStart, 0;
    if ch == '>' {
      return Some(pos), state, nameStart;
    } else if ch == '/' {
      var next := pos + 1;
      if next < |s| && s[next] == '>' {
        return Some(next), state, nameStart;
      }
      return Some(-next), state, nameStart;
    } else if IsJavaIdentifierStart(ch) {
      nameStart := pos;
      state := SearchEquals;
    } else if !IsWhitespace(ch) {
      return Some(-(pos as int)), state, nameStart;
    }
    ret := None;
  }

  method EqualsStep(s: string, pos: nat, nameStart: nat, names: seq<string>, values: seq<string>)
    returns (ret: Option<int>, next: nat, state: ScanState, name: string)
    requires nameStart <= pos < |s| && |names| == |values|
    ensures ret.Some? ==> var t := InEquals(s, pos, nameStart, names, values); t.SyntaxError? && ret.value == JavaTagEnd(t)
    ensures ret.None? ==> pos <= next < |s| && (state == SearchEquals || state == SearchValueStart)
    ensures ret.None? && state == SearchEquals ==>
      InEquals(s, next + 1, nameStart, names, values) == InEquals(s, pos, nameStart, names, values)
    ensures ret.None? && state == SearchValueStart ==>
      InValueStart(s, next + 1, name, names, values) == InEquals(s, pos, nameStart, names, values)
  {
    var wasWhitespace: bool;
    next, wasWhitespace := SkipWhitespaceRun(s, pos);
    assert InEquals(s, pos, nameStart, names, values) == AfterNameRun(s, pos, nameStart, next, names, values);
    state, name := SearchEquals, "";
    if next == |s| {
      return Some(-(next as int)), next, state, name;
    }
    var ch := s[next];
    if ch == '=' {
      name := Trim(s[nameStart..next]);
      state := SearchValueStart;
    } else if wasWhitespace {
      return Some(-(next as int)), next, state, name;
    } else if !(IsJavaIdentifierPart(ch) || ch == '-') {
      return Some(-(next as int)), next, state, name;
    }
    ret := None;
  }

  method ValueStartStep(s: string, pos: nat, name: string, names: seq<string>, values: seq<string>)
    returns (ret: Option<int>, state: ScanState, valueStart: nat, quote: char)
    requires pos < |s| && |names| == |values|
    ensures ret.Some? ==> var t := InValueStart(s, pos, name, names, values); t.SyntaxError? && ret.value == JavaTagEnd(t)
    ensures ret.None? ==> (state == SearchValueStart || (state == SearchValueEnd && valueStart == pos + 1))
    ensures ret.None? && state == SearchValueStart ==>
      InValueStart(s, pos + 1, name, names, values) == InValueStart(s, pos, name, names, values)
    ensures ret.None? && state == SearchValueEnd ==>
      InValueEnd(s, pos + 1, name, valueStart, quote, names, values) == InValueStart(s, pos, name, names, values)
  {
    var ch := s[pos];
    state, valueStart, quote := SearchValueStart, 0, '"';
    if ch == '"' || ch == '\'' {
      quote := ch;
      valueStart := pos + 1;
      state := SearchValueEnd;
    } else if !IsWhitespace(ch) {
      return Some(-(pos as int)), state, valueStart, quote;
    }
    ret := None;
  }

  method ValueEndStep(s: string, pos: nat, name: string, valueStart: nat, quote: char,
                      names: seq<string>, values: seq<string>)
    returns (ret: Option<int>, state: ScanState, names': seq<string>, values': seq<string>)
    requires valueStart <= pos < |s| && |names| == |values|
    ensures |names'| == |values'|
    ensures ret.Some? ==> var t := InValueEnd(s, pos, name, valueStart, quote, names, values);
      t.SyntaxError? && ret.value == JavaTagEnd(t)
    ensures ret.None? ==> state == SearchNameStart || state == SearchValueEnd
    ensures ret.None? && state == SearchNameStart ==>
      InNameStart(s, pos + 1, names', values') == InValueEnd(s, pos, name, valueStart, quote, names, values)
    ensures ret.None? && state == SearchValueEnd ==> names' == names && values' == values
    ensures ret.None? && state == SearchValueEnd ==>
      InValueEnd(s, pos + 1, name, valueStart, quote, names, values) == InValueEnd(s, pos, name, valueStart, quote, names, values)
  {
    var ch := s[pos];
    state, names', values' := SearchValueEnd, names, values;
    if ch == quote {
      names' := names + [name];
      values' := values + [s[valueStart..pos]];
      state := SearchNameStart;
    } else if ch == '<' {
      return Some(-(pos as int)), state, names', values';
    }
    ret := None;
  }

  /** One round of `parseTagAttributes`'s loop, in whichever state the scan is. */
  method ScanStep(s: string, pos: nat, state: ScanState, nameStart: nat, name: string, valueStart: nat, quote: char,
                  names: seq<string>, values: seq<string>)
    returns (ret: Option<int>, pos': nat, state': ScanState, nameStart': nat, name': string, valueStart': nat, quote': char,
             names': seq<string>, values': seq<string>)
    requires pos < |s| && |names| == |values|
    requires state == SearchEquals ==> nameStart <= pos
    requires state == SearchValueEnd ==> valueStart <= pos
    ensures |names'| == |values'|
    ensures ret.Some? ==> var t := Scan(s, pos, state, nameStart, name, valueStart, quote, names, values);
      ret.value == JavaTagEnd(t) && (t.TagEnd? ==> t.names == names' && t.values == values')
    ensures ret.None? ==> pos <= pos' < |s|
    ensures ret.None? ==> (state' == SearchEquals ==> nameStart' <= pos' + 1) && (state' == SearchValueEnd ==> valueStart' <= pos' + 1)
    ensures ret.None? ==>
      Scan(s, pos' + 1, state', nameStart', name', valueStart', quote', names', values')
      == Scan(s, pos, state, nameStart, name, valueStart, quote, names, values)
  {
    pos', state', nameStart', name', valueStart', quote', names', values' :=
      pos, state, nameStart, name, valueStart, quote, names, values;
    match state {
      case SearchNameStart =>
        ret, state', nameStart' := NameStartStep(s, pos, names, values);
      case SearchEquals =>
        ret, pos', state', name' := EqualsStep(s, pos, nameStart, names, values);
      case SearchValueStart =>
        ret, state', valueStart', quote' := ValueStartStep(s, pos, name, names, values);
      case SearchValueEnd =>
        ret, state', names', values' := ValueEndStep(s, pos, name, valueStart, quote, names, values);
    }
  }

  /**
   * `parseTagAttributes(seq, offset, names, values)`. A negative offset raises an exception;
   * otherwise the lists are refilled with the attribute pairs and the '>' position, or a
   * negated error position, is returned.
   */
  method ParseTagAttributes(s: string, offset: int) returns (r: Result<int>, names: seq<string>, values: seq<string>)
    ensures offset < 0 <==> r.Err?
    ensures r.Ok? ==> var t := TagAttributes(s, offset);
      r.value == JavaTagEnd(t) && (t.TagEnd? ==> names == t.names && values == t.values)
    ensures |names| == |values|
  {
    names, values := [], [];
    if offset < 0 {
      return Err("Negative offset in ParseTagAttributes()"), names, values;
    }
    var state := SearchNameStart;
    var name := "";
    var nameStart: nat := 0;
    var valueStart: nat := 0;
    var quote := '"';
    var pos: nat := offset;
    while pos < |s|
      invariant |names| == |values|
      invariant state == SearchEquals ==> nameStart <= pos
      invariant state == SearchValueEnd ==> valueStart <= pos
      invariant Scan(s, pos, state, nameStart, name, valueStart, quote, names, values) == TagAttributes(s, offset)
      decreases |s| - pos
    {
      var ret: Option<int>;
      ret, pos, state, nameStart, name, valueStart, quote, names, values :=
        ScanStep(s, pos, state, nameStart, name, valueStart, quote, names, values);
      if ret.Some? {
        return Ok(ret.value), names, values;
      }
      pos := pos + 1;
    }
    return Ok(-(pos as int)), names, values;
  }

  // ------------------------------------------------------------------ the tokenizer

  /** Where an opening tag's name ends: at the first '>', '/' or whitespace, or at the end of the text. */
  function NameEnd(s: string, i: nat): (e: nat)
    requires i <= |s|
    ensures i <= e <= |s|
    ensures forall k :: i <= k < e ==> s[k] != '>' && s[k] != '/' && !IsWhitespace(s[k])
    ensures e < |s| ==> s[e] == '>' || s[e] == '/' || IsWhitespace(s[e])
    decreases |s| - i
  {
    if i == |s| || s[i] == '>' || s[i] == '/' || IsWhitespace(s[i]) then i else NameEnd(s, i + 1)
  }

  /** The loop of `next()` that finds the end of an opening tag's name. */
  method ScanNameEnd(s: string, nameStart: nat) returns (nameEnd: nat)
    requires nameStart <= |s|
    ensures nameEnd == NameEnd(s, nameStart)
  {
    nameEnd := nameStart;
    while nameEnd < |s|
      invariant nameStart <= nameEnd <= |s|
      invariant NameEnd(s, nameEnd) == NameEnd(s, nameStart)
      decreases |s| - nameEnd
    {
      var ch := s[nameEnd];
      if ch == '>' || ch == '/' || IsWhitespace(ch) {
        break;
      }
      nameEnd := nameEnd + 1;
    }
  }

  function ParseError(pos: int, msg: string): string
  {
    "XML parse error at character position " + IntToString(pos) + ": " + msg
  }

  /** A same-named tag met while looking for the end of an element: a non-empty start or an end. */
  datatype NestingEvent = Open | Close

  /** Opened minus closed elements in a run of same-named tags. */
  function Depth(t: seq<NestingEvent>): int
  {
    if t == [] then 0 else Depth(t[..|t| - 1]) + (if t[|t| - 1] == Open then 1 else -1)
  }

  /** A token of `s` at start..end that begins with '<' and is not a DOCTYPE. */
  predicate TokenAt(s: string, start: int, end: int)
  {
    0 <= start < end <= |s| && s[start] == '<' && !MatchesAt(s, DoctypeStart, start)
  }

  /** An opening tag: its name runs up to the first '>', '/' or whitespace and its attributes scan to the '>'. */
  predicate StartTagAt(s: string, start: int, end: int, name: string, isEmpty: bool,
                       names: seq<string>, values: seq<string>)
  {
    0 <= start < |s| && start + 2 <= end <= |s|
    && var nameEnd := NameEnd(s, start + 1);
    name == s[start + 1..nameEnd]
    && TagAttributes(s, nameEnd) == TagEnd(end - 1, names, values)
    && (isEmpty <==> s[end - 2] == '/')
  }

  /** A closing tag: the first '>' after "</" ends it; the name is the trimmed text between. */
  predicate EndTagAt(s: string, start: int, end: int, name: string)
  {
    MatchesAt(s, "</", start) && start + 2 <= end - 1 < |s| && end - 1 == IndexOfChar(s, '>', start + 1)
    && name == Trim(s[start + 2..end - 1])
  }

  /** A token that runs from `open` to the first `close` after the '<'; its name is `open`. */
  predicate DelimitedAt(s: string, start: int, end: int, name: string, open: string, close: string)
    requires |close| > 0
  {
    MatchesAt(s, open, start) && end - |close| == IndexOf(s, close, start + 1) && name == open
  }

  /**
   * A token the parser reports: its kind, where it lies, its name, and (for a start tag) whether it
   * is empty and its attribute lists.
   */
  datatype Token = Token(kind: EventType, start: int, end: int, name: string, isEmpty: bool,
                         names: seq<string>, values: seq<string>)

  /** What `next()` guarantees of a reported token of `s`, given the skip flags. */
  predicate Shaped(s: string, t: Token, skipComments: bool, skipPIs: bool, skipCData: bool)
  {
    TokenAt(s, t.start, t.end) && |t.names| == |t.values|
    && match t.kind
       case Finished => false
       case StartElement => StartTagAt(s, t.start, t.end, t.name, t.isEmpty, t.names, t.values)
       case EndElement => EndTagAt(s, t.start, t.end, t.name)
       case Comment => !skipComments && DelimitedAt(s, t.start, t.end, t.name, CommentStart, CommentEnd)
       case CData => !skipCData && DelimitedAt(s, t.start, t.end, t.name, CDataStart, CDataEnd)
       case ProcessingInstruction => !skipPIs && DelimitedAt(s, t.start, t.end, t.name, "<?", "?>")
  }

  /** What one pass of the loop in `next()` does with the '<' it found: report a token, skip one, or fail. */
  datatype Step = Report(tok: Token) | Skip(next: int) | Fail(msg: string)

  /** A token that starts with "<!": a comment, a CDATA section, a DOCTYPE (always skipped) or an error. */
  function BangStep(s: string, tagStart: nat, skipComments: bool, skipCData: bool): (st: Step)
    requires tagStart + 1 < |s| && s[tagStart] == '<' && s[tagStart + 1] == '!'
    ensures st.Skip? ==> tagStart < st.next <= |s|
    ensures st.Report? ==> st.tok.start == tagStart && (st.tok.kind == Comment || st.tok.kind == CData)
    ensures st.Report? ==> Shaped(s, st.tok, skipComments, true, skipCData)
  {
    if MatchesAt(s, CommentStart, tagStart) then
      var e := IndexOf(s, CommentEnd, tagStart + 1);
      if e < 0 then Fail(ParseError(tagStart, "Missing end of comment!"))
      else if skipComments then Skip(e + |CommentEnd|)
      else
        CommentShaped(s, tagStart, true, skipCData);
        Report(Token(Comment, tagStart, e + |CommentEnd|, CommentStart, false, [], []))
    else if MatchesAt(s, CDataStart, tagStart) then
      var e := IndexOf(s, CDataEnd, tagStart + 1);
      if e < 0 then Fail(ParseError(tagStart, "Missing end of CDATA!"))
      else if skipCData then Skip(e + |CDataEnd|)
      else
        CDataShaped(s, tagStart, skipComments, true);
        Report(Token(CData, tagStart, e + |CDataEnd|, CDataStart, false, [], []))
    else if MatchesAt(s, DoctypeStart, tagStart) then
      var e := IndexOfChar(s, '>', tagStart + 1);
      if e < 0 then Fail(ParseError(tagStart, "Missing end of DOCTYPE!")) else Skip(e + 1)
    else Fail(ParseError(tagStart, "Unexpected position of character sequence '<!'"))
  }

  /** A processing instruction: it runs to the first "?>". */
  function PiStep(s: string, tagStart: nat, skipPIs: bool): (st: Step)
    requires tagStart + 1 < |s| && s[tagStart] == '<' && s[tagStart + 1] == '?'
    ensures st.Skip? ==> tagStart < st.next <= |s|
    ensures st.Report? ==> st.tok.start == tagStart && st.tok.kind == ProcessingInstruction
    ensures st.Report? ==> Shaped(s, st.tok, true, skipPIs, true)
  {
    var e := IndexOf(s, "?>", tagStart + 1);
    if e < 0 then Fail(ParseError(tagStart, "Missing '?>'"))
    else if skipPIs then Skip(e + 2)
    else
      assert s[tagStart..tagStart + 2] == "<?";
      PiShaped(s, tagStart, true, true);
      Report(Token(ProcessingInstruction, tagStart, e + 2, "<?", false, [], []))
  }

  /** A closing tag: it runs to the first '>'. */
  function EndStep(s: string, tagStart: nat): (st: Step)
    requires tagStart + 1 < |s| && s[tagStart] == '<' && s[tagStart + 1] == '/'
    ensures !st.Skip?
    ensures st.Report? ==> st.tok.start == tagStart && st.tok.kind == EndElement && Shaped(s, st.tok, true, true, true)
  {
    var tagEnd := IndexOfChar(s, '>', tagStart + 1);
    if tagEnd < 0 then Fail(ParseError(tagStart, "Invalid closing tag!"))
    else
      EndTagFacts(s, tagStart);
      Report(Token(EndElement, tagStart, tagEnd + 1, Trim(s[tagStart + 2..tagEnd]), false, [], []))
  }

  /**
   * An opening tag: the name runs up to the first '>', '/' or whitespace, then the attributes scan
   * to the closing '>', which ends the token; a "/>" makes it empty. A scan error fails.
   */
  function StartTagStep(s: string, tagStart: nat): (st: Step)
    requires tagStart + 1 < |s| && s[tagStart] == '<' && s[tagStart + 1] != '!'
    ensures !st.Skip?
    ensures st.Report? ==> st.tok.start == tagStart && st.tok.kind == StartElement && Shaped(s, st.tok, true, true, true)
    ensures st.Fail? <==> TagAttributes(s, NameEnd(s, tagStart + 1)).SyntaxError?
  {
    var nameEnd := NameEnd(s, tagStart + 1);
    TagAttributesShaped(s, nameEnd);
    match TagAttributes(s, nameEnd)
    case SyntaxError(_) => Fail(ParseError(tagStart, "Invalid element attributes!"))
    case TagEnd(pos, names, values) =>
      StartTagFacts(s, tagStart, nameEnd);
      Report(Token(StartElement, tagStart, pos + 1, s[tagStart + 1..nameEnd], s[pos - 1] == '/', names, values))
  }

  /** One pass of the loop of `next()` on the '<' at `tagStart`, dispatching on the character after it. */
  function TagStepOf(s: string, tagStart: nat, skipComments: bool, skipPIs: bool, skipCData: bool): (st: Step)
    requires tagStart + 1 < |s| && s[tagStart] == '<'
    ensures st.Skip? ==> tagStart < st.next <= |s|
    ensures st.Report? ==> st.tok.start == tagStart && Shaped(s, st.tok, skipComments, skipPIs, skipCData)
  {
    var nextCh := s[tagStart + 1];
    if nextCh == '!' then BangStep(s, tagStart, skipComments, skipCData)
    else if nextCh == '?' then PiStep(s, tagStart, skipPIs)
    else if nextCh == '/' then EndStep(s, tagStart)
    else StartTagStep(s, tagStart)
  }

  /**
   * The token `next()` reads from `cursor`, with the cursor after it: the first '<' at or after the
   * cursor is stepped on; a skipped token continues the search after it, a reported one ends it,
   * and a failure stops at the '<'. `None` is FINISHED, when no '<' is left.
   */
  function NextToken(s: string, cursor: int, skipComments: bool, skipPIs: bool, skipCData: bool)
    : (r: (Result<Option<Token>>, int))
    ensures cursor <= r.1
    ensures cursor <= |s| ==> r.1 <= |s|
    ensures r.0.Ok? && r.0.value.Some? ==> var t := r.0.value.value;
      Shaped(s, t, skipComments, skipPIs, skipCData) && cursor <= t.start && r.1 == t.end
    ensures (forall k :: cursor <= k < |s| && 0 <= k ==> s[k] != '<') ==> r == (Ok(None), cursor)
    decreases |s| - cursor
  {
    if cursor >= |s| then (Ok(None), cursor)
    else
      var tagStart := IndexOfChar(s, '<', cursor);
      if tagStart < 0 then (Ok(None), cursor)
      else if tagStart + 1 >= |s| then (Err("String index out of range: " + IntToString(tagStart + 1)), tagStart)
      else
        match TagStepOf(s, tagStart, skipComments, skipPIs, skipCData)
        case Fail(msg) => (Err(msg), tagStart)
        case Report(t) => (Ok(Some(t)), t.end)
        case Skip(next) => NextToken(s, next, skipComments, skipPIs, skipCData)
  }

  /** Once FINISHED is read, reading again from where it left the cursor reads FINISHED again. */
  lemma {:induction false} FinishedStays(s: string, cursor: int, skipComments: bool, skipPIs: bool, skipCData: bool)
    requires NextToken(s, cursor, skipComments, skipPIs, skipCData).0 == Ok(None)
    ensures var after := NextToken(s, cursor, skipComments, skipPIs, skipCData).1;
      NextToken(s, after, skipComments, skipPIs, skipCData) == (Ok(None), after)
    decreases |s| - cursor
  {
    if cursor < |s| {
      var tagStart := IndexOfChar(s, '<', cursor);
      if tagStart >= 0 && tagStart + 1 < |s| {
        var st := TagStepOf(s, tagStart, skipComments, skipPIs, skipCData);
        if st.Skip? {
          FinishedStays(s, st.next, skipComments, skipPIs, skipCData);
        }
      }
    }
  }

  /** On "<a>" the first token is the start tag `a`, ending after its '>'. */
  lemma NextTokenOnStartTag(s: string, cursor: nat)
    requires cursor + 3 <= |s| && s[cursor..cursor + 3] == "<a>"
    ensures NextToken(s, cursor, true, true, true)
            == (Ok(Some(Token(StartElement, cursor, cursor + 3, "a", false, [], []))), cursor + 3)
  {
    assert s[cursor] == '<' && s[cursor + 1] == 'a' && s[cursor + 2] == '>';
    assert IndexOfChar(s, '<', cursor) == cursor;
    assert !IsWhitespace('a');
    assert NameEnd(s, cursor + 2) == cursor + 2;
    assert NameEnd(s, cursor + 1) == cursor + 2;
    assert InNameStart(s, cursor + 2, [], []) == TagEnd(cursor + 2, [], []);
    assert TagAttributes(s, cursor + 2) == TagEnd(cursor + 2, [], []);
    assert s[cursor + 1..cursor + 2] == "a";
    assert StartTagStep(s, cursor) == Report(Token(StartElement, cursor, cursor + 3, "a", false, [], []));
    assert TagStepOf(s, cursor, true, true, true) == StartTagStep(s, cursor);
  }

  /** An opening tag: its name, then its attributes up to the closing '>'. */
  method StartStep(s: string, tagStart: nat) returns (st: Step)
    requires tagStart + 1 < |s| && s[tagStart] == '<' && s[tagStart + 1] != '!'
    ensures st == StartTagStep(s, tagStart)
  {
    var nameStart := tagStart + 1;
    var nameEnd := ScanNameEnd(s, nameStart);
    var name := s[nameStart..nameEnd];
    TagAttributesShaped(s, nameEnd);
    JavaTagEndDecidesForPositiveOffset(s, nameEnd);
    var res, names, values := ParseTagAttributes(s, nameEnd);
    var tagEnd := res.value;
    if tagEnd < 0 {
      return Fail(ParseError(tagStart, "Invalid element attributes!"));
    }
    StartTagFacts(s, tagStart, nameEnd);
    return Report(Token(StartElement, tagStart, tagEnd + 1, name, s[tagEnd - 1] == '/', names, values));
  }

  /** Shaped tokens stay shaped under any skip flags that do not suppress their kind. */
  lemma ShapedUnderFlags(s: string, t: Token, c: bool, p: bool, d: bool, c': bool, p': bool, d': bool)
    requires Shaped(s, t, c, p, d)
    requires (t.kind == Comment ==> !c') && (t.kind == ProcessingInstruction ==> !p') && (t.kind == CData ==> !d')
    ensures Shaped(s, t, c', p', d')
  {
  }

  /** One pass of the loop of `next()` on the '<' at `tagStart`, dispatching on the character after it. */
  method TagStep(s: string, tagStart: nat, skipComments: bool, skipPIs: bool, skipCData: bool) returns (st: Step)
    requires tagStart + 1 < |s| && s[tagStart] == '<'
    ensures st == TagStepOf(s, tagStart, skipComments, skipPIs, skipCData)
  {
    var nextCh := s[tagStart + 1];
    if nextCh == '!' {
      st := BangStep(s, tagStart, skipComments, skipCData);
    } else if nextCh == '?' {
      st := PiStep(s, tagStart, skipPIs);
    } else if nextCh == '/' {
      st := EndStep(s, tagStart);
    } else {
      st := StartStep(s, tagStart);
    }
  }

  /**
   * The loop of `next()`: from `cursor`, finds the next token to report, skipping DOCTYPE
   * declarations and any comment, PI or CDATA section whose flag is set. `None` is FINISHED.
   */
  method ReadToken(s: string, cursor: int, skipComments: bool, skipPIs: bool, skipCData: bool)
    returns (r: Result<Option<Token>>, cursorAfter: int)
    ensures (r, cursorAfter) == NextToken(s, cursor, skipComments, skipPIs, skipCData)
  {
    cursorAfter := cursor;
    while cursorAfter < |s|
      invariant NextToken(s, cursorAfter, skipComments, skipPIs, skipCData) == NextToken(s, cursor, skipComments, skipPIs, skipCData)
      decreases |s| - cursorAfter
    {
      var tagStart := IndexOfChar(s, '<', cursorAfter);
      if tagStart < 0 {
        return Ok(None), cursorAfter;
      }
      cursorAfter := tagStart;
      var nameStart := tagStart + 1;
      if nameStart >= |s| {
        return Err("String index out of range: " + IntToString(nameStart)), cursorAfter;
      }
      var st := TagStep(s, tagStart, skipComments, skipPIs, skipCData);
      match st
      case Fail(msg) =>
        return Err(msg), cursorAfter;
      case Report(t) =>
        return Ok(Some(t)), t.end;
      case Skip(next) =>
        cursorAfter := next;
    }
    return Ok(None), cursorAfter;
  }

  /**
   * The parser fields that describe the current token: `nextType`, `startOffset`, `endOffset`,
   * `elementName`, `isEmptyElem` and the two attribute lists.
   */
  datatype Fields = Fields(nextType: EventType, startOffset: int, endOffset: int, elementName: Option<string>,
                           isEmptyElem: bool, attNames: seq<string>, attValues: seq<string>)

  /** How `next()` records a reported token: a start tag sets every field, other tokens keep the start-tag ones. */
  function Apply(f: Fields, t: Token): (g: Fields)
    ensures g.nextType == t.kind && g.startOffset == t.start && g.endOffset == t.end && g.elementName == Some(t.name)
    ensures t.kind == StartElement ==> g.isEmptyElem == t.isEmpty && g.attNames == t.names && g.attValues == t.values
    ensures t.kind != StartElement ==> g.isEmptyElem == f.isEmptyElem && g.attNames == f.attNames && g.attValues == f.attValues
  {
    if t.kind == StartElement then Fields(t.kind, t.start, t.end, Some(t.name), t.isEmpty, t.names, t.values)
    else f.(nextType := t.kind, startOffset := t.start, endOffset := t.end, elementName := Some(t.name))
  }

  /** The attribute name as a map key: lower-cased by the `getAttributesLower` variants. */
  function AttributeKey(name: string, lower: bool): string
  {
    if lower then Lower(name) else name
  }

  /**
   * The map that putting the pairs `names[i]`, `values[i]` in order builds: every name is a key
   * (a key holds the value of the last pair with that key, `PutPairsLastWins`).
   */
  function {:induction false} PutPairs(names: seq<string>, values: seq<string>, lower: bool): (m: map<string, string>)
    requires |names| == |values|
    ensures forall k :: k in m <==> exists i :: 0 <= i < |names| && AttributeKey(names[i], lower) == k
  {
    if names == [] then map[]
    else
      var n := |names| - 1;
      var m0 := PutPairs(names[..n], values[..n], lower);
      var m := m0[AttributeKey(names[n], lower) := values[n]];
      assert forall k :: k in m0 <==> exists i :: 0 <= i < n && AttributeKey(names[..n][i], lower) == k;
      assert forall k :: k in m ==> exists i :: 0 <= i < |names| && AttributeKey(names[i], lower) == k by {
        forall k | k in m ensures exists i :: 0 <= i < |names| && AttributeKey(names[i], lower) == k {
          if k != AttributeKey(names[n], lower) {
            var i :| 0 <= i < n && AttributeKey(names[..n][i], lower) == k;
            assert AttributeKey(names[i], lower) == k;
          }
        }
      }
      assert forall k :: (exists i :: 0 <= i < |names| && AttributeKey(names[i], lower) == k) ==> k in m by {
        forall k | exists i :: 0 <= i < |names| && AttributeKey(names[i], lower) == k ensures k in m {
          var i :| 0 <= i < |names| && AttributeKey(names[i], lower) == k;
          if i < n {
            assert AttributeKey(names[..n][i], lower) == k;
          }
        }
      }
      m
  }

  /** A key holds the value of the last pair that has it. */
  lemma {:induction false} PutPairsLastWins(names: seq<string>, values: seq<string>, lower: bool, i: int)
    requires |names| == |values| && 0 <= i < |names|
    requires forall j :: i < j < |names| ==> AttributeKey(names[j], lower) != AttributeKey(names[i], lower)
    ensures AttributeKey(names[i], lower) in PutPairs(names, values, lower)
    ensures PutPairs(names, values, lower)[AttributeKey(names[i], lower)] == values[i]
  {
    var n := |names| - 1;
    var key := AttributeKey(names[i], lower);
    var m0 := PutPairs(names[..n], values[..n], lower);
    assert PutPairs(names, values, lower) == m0[AttributeKey(names[n], lower) := values[n]];
    if i < n {
      assert AttributeKey(names[n], lower) != key;
      assert names[..n][i] == names[i] && values[..n][i] == values[i];
      forall j | i < j < n ensures AttributeKey(names[..n][j], lower) != AttributeKey(names[..n][i], lower) {
        assert names[..n][j] == names[j];
      }
      PutPairsLastWins(names[..n], values[..n], lower, i);
      assert key in m0 && m0[key] == values[i];
    }
  }

  /** What a token does to the search for a closing tag: it is the closing tag, or the search goes on at a nesting level. */
  datatype NestingMove = Matched | Nested(level: nat)

  /**
   * A token read while looking for the end of an element named `elemName` with `level`
   * same-named elements open: a token named otherwise (ignoring case) changes nothing, a
   * non-empty same-named start tag opens a level, a same-named end tag closes one or, at level 0,
   * is the closing tag.
   */
  function NestingMoveOf(t: Token, elemName: string, level: nat): (m: NestingMove)
    ensures m.Matched? <==> EqualsIgnoreCase(t.name, elemName) && t.kind == EndElement && level == 0
  {
    if !EqualsIgnoreCase(t.name, elemName) then Nested(level)
    else if t.kind == StartElement && !t.isEmpty then Nested(level + 1)
    else if t.kind == EndElement then (if level == 0 then Matched else Nested(level - 1))
    else Nested(level)
  }

  /**
   * What `readUntilCorrespondingClosingTag()` returns, with the cursor after it, when it reads on
   * from `cursor` with `level` same-named elements open: the tokens are read one by one, each
   * moving the level, up to the closing tag; a tokenizer error is passed on, and running out of
   * tokens is an error at the cursor.
   */
  function Matching(s: string, cursor: int, skipComments: bool, skipPIs: bool, skipCData: bool,
                    elemName: string, level: nat): (r: (Result<EventType>, int))
    ensures r.0.Ok? ==> r.0.value == EndElement
    decreases |s| - cursor
  {
    var n := NextToken(s, cursor, skipComments, skipPIs, skipCData);
    if n.0.Err? then (Err(n.0.error), n.1)
    else if n.0.value.None? then
      (Err(ParseError(n.1, "Could not find matching end-tag for element " + elemName)), n.1)
    else
      match NestingMoveOf(n.0.value.value, elemName, level)
      case Matched => (Ok(EndElement), n.1)
      case Nested(level') => Matching(s, n.1, skipComments, skipPIs, skipCData, elemName, level')
  }

  /** A closing tag `</a>` is read as the end token `a`. */
  lemma NextTokenOnEndTag(s: string, cursor: nat)
    requires cursor + 4 <= |s| && s[cursor..cursor + 4] == "</a>"
    ensures NextToken(s, cursor, true, true, true) == (Ok(Some(Token(EndElement, cursor, cursor + 4, "a", false, [], []))), cursor + 4)
  {
    assert s[cursor] == '<' && s[cursor + 1] == '/' && s[cursor + 2] == 'a' && s[cursor + 3] == '>';
    assert IndexOfChar(s, '<', cursor) == cursor;
    assert IndexOfChar(s, '>', cursor + 1) == cursor + 3;
    assert s[cursor + 2..cursor + 3] == "a";
    assert Trim("a") == "a";
  }

  /**
   * Inside `<a><a></a></a>` the search for the end of the outer `a` skips the nested element and
   * stops after the last tag.
   */
  lemma MatchingSkipsNested()
    ensures Matching("<a><a></a></a>", 3, true, true, true, "a", 0) == (Ok(EndElement), 14)
  {
    var s := "<a><a></a></a>";
    assert s[3..6] == "<a>";
    NextTokenOnStartTag(s, 3);
    assert s[6..10] == "</a>";
    NextTokenOnEndTag(s, 6);
    assert s[10..14] == "</a>";
    NextTokenOnEndTag(s, 10);
    assert EqualsIgnoreCase("a", "a");
    assert Matching(s, 10, true, true, true, "a", 0) == (Ok(EndElement), 14);
    assert Matching(s, 6, true, true, true, "a", 1) == (Ok(EndElement), 14);
  }

  /**
   * One pass of the search for a closing tag from `cursor`: the next token is read, leaving the
   * cursor at `after`; an error or the end of the tokens stops the search (`done`), and a token
   * either is the closing tag or moves the nesting level to `level'`.
   */
  ghost predicate NestingRead(s: string, cursor: int, skipComments: bool, skipPIs: bool, skipCData: bool, elemName: string,
                              level: nat, done: Option<Result<EventType>>, after: int, level': nat)
  {
    var n := NextToken(s, cursor, skipComments, skipPIs, skipCData);
    after == n.1
    && (n.0.Err? ==> done == Some(Err(n.0.error)))
    && (n.0 == Ok(None) ==> done == Some(Err(ParseError(n.1, "Could not find matching end-tag for element " + elemName))))
    && (n.0.Ok? && n.0.value.Some? ==>
          match NestingMoveOf(n.0.value.value, elemName, level)
          case Matched => done == Some(Ok(EndElement))
          case Nested(l) => done.None? && level' == l)
  }

  /** A pass that stops gives the answer of the whole search; one that goes on leaves the same answer to come. */
  lemma MatchingAdvances(s: string, cursor: int, skipComments: bool, skipPIs: bool, skipCData: bool, elemName: string,
                         level: nat, done: Option<Result<EventType>>, after: int, level': nat)
    requires NestingRead(s, cursor, skipComments, skipPIs, skipCData, elemName, level, done, after, level')
    ensures done.Some? ==> Matching(s, cursor, skipComments, skipPIs, skipCData, elemName, level) == (done.value, after)
    ensures done.None? ==>
      Matching(s, cursor, skipComments, skipPIs, skipCData, elemName, level)
      == Matching(s, after, skipComments, skipPIs, skipCData, elemName, level')
  {
  }

  /** A lenient XML tokenizer over one text, holding the cursor and the current token. */
  class Parser {
    const xml: string
    const skipComments: bool
    const skipPIs: bool
    const skipCData: bool
    var cursorPos: int
    var current: Fields

    ghost predicate Valid()
      reads this
    {
      |current.attNames| == |current.attValues| && 0 <= current.startOffset <= current.endOffset <= |xml|
      && (current.nextType != Finished ==> current.elementName.Some?)
    }

    /** `XMLParser(xml, offset)`: scanning starts at `offset`; comments, PIs and CDATA are skipped. */
    constructor (xml: string, offset: int)
      ensures Valid() && this.xml == xml && cursorPos == offset
      ensures skipComments && skipPIs && skipCData
      ensures current == Fields(Finished, 0, 0, None, false, [], [])
    {
      this.xml := xml;
      skipComments, skipPIs, skipCData := true, true, true;
      cursorPos := offset;
      current := Fields(Finished, 0, 0, None, false, [], []);
    }

    /** `XMLParser(xml, skipComments, skipPIs, skipCDATA)`: scanning starts at 0. */
    constructor WithSkipFlags(xml: string, skipComments: bool, skipPIs: bool, skipCData: bool)
      ensures Valid() && this.xml == xml && cursorPos == 0
      ensures this.skipComments == skipComments && this.skipPIs == skipPIs && this.skipCData == skipCData
      ensures current == Fields(Finished, 0, 0, None, false, [], [])
    {
      this.xml := xml;
      this.skipComments, this.skipPIs, this.skipCData := skipComments, skipPIs, skipCData;
      cursorPos := 0;
      current := Fields(Finished, 0, 0, None, false, [], []);
    }

    /** The token just reported is a shaped `kind` token, with the cursor after it. */
    ghost predicate Reported(kind: EventType)
      reads this
    {
      Valid() && current.nextType == kind && cursorPos == current.endOffset && current.elementName.Some?
      && Shaped(xml, Token(kind, current.startOffset, current.endOffset, current.elementName.value,
                           current.isEmptyElem, current.attNames, current.attValues),
                skipComments, skipPIs, skipCData)
    }

    /**
     * `next()`: moves to the next reported token. DOCTYPE declarations are always skipped;
     * comments, processing instructions and CDATA sections are skipped when their flag is set.
     * FINISHED leaves the current token as it was; an end tag, comment, PI or CDATA section leaves
     * the start-tag fields (emptiness, attributes) as they were.
     */
    method Next() returns (r: Result<EventType>)
      requires Valid()
      modifies this
      ensures Valid()
      ensures r.Ok? && r.value != Finished ==> Reported(r.value) && old(cursorPos) <= current.startOffset
      ensures r.Ok? && r.value != EndElement ==> old(cursorPos) <= cursorPos
      ensures 0 <= old(cursorPos) <= |xml| ==> 0 <= cursorPos <= |xml|
      ensures r.Ok? && r.value != StartElement ==>
        current.isEmptyElem == old(current.isEmptyElem)
        && current.attNames == old(current.attNames) && current.attValues == old(current.attValues)
      ensures r == Ok(Finished) ==> current == old(current)
      ensures (forall k :: old(cursorPos) <= k < |xml| && 0 <= k ==> xml[k] != '<') ==> r == Ok(Finished)
      ensures var n := NextToken(xml, old(cursorPos), skipComments, skipPIs, skipCData);
        cursorPos == n.1
        && (n.0.Err? ==> r == Err(n.0.error) && current == old(current))
        && (n.0 == Ok(None) ==> r == Ok(Finished))
        && (n.0.Ok? && n.0.value.Some? ==> r == Ok(n.0.value.value.kind) && current == Apply(old(current), n.0.value.value))
    {
      var res, after := ReadToken(xml, cursorPos, skipComments, skipPIs, skipCData);
      cursorPos := after;
      if res.Err? {
        return Err(res.error);
      }
      if res.value.None? {
        return Ok(Finished);
      }
      var t := res.value.value;
      current := Apply(current, t);
      return Ok(t.kind);
    }

    /** `getAttributes(names, values)`: the current start tag's attribute lists; other events leave the caller's lists as they are. */
    function GetAttributes(names: seq<string>, values: seq<string>): (r: (seq<string>, seq<string>))
      reads this
      ensures current.nextType == StartElement ==> r == (current.attNames, current.attValues)
      ensures current.nextType != StartElement ==> r == (names, values)
    {
      if current.nextType == StartElement then (current.attNames, current.attValues) else (names, values)
    }

    /** `getAttributesLower(names, values)`: as `getAttributes`, then every name in the caller's list lower-cased. */
    function GetAttributesLower(names: seq<string>, values: seq<string>): (r: (seq<string>, seq<string>))
      reads this
      ensures current.nextType == StartElement ==>
        r.1 == current.attValues && |r.0| == |current.attNames|
        && forall i :: 0 <= i < |r.0| ==> r.0[i] == Lower(current.attNames[i])
      ensures current.nextType != StartElement ==>
        r.1 == values && |r.0| == |names|
        && forall i :: 0 <= i < |r.0| ==> r.0[i] == Lower(names[i])
    {
      var (ns, vs) := GetAttributes(names, values);
      (seq(|ns|, i requires 0 <= i < |ns| => Lower(ns[i])), vs)
    }

    /**
     * `getAttributes(attMap)` and, with `lower`, `getAttributesLower(attMap)`: on a start tag the
     * map is refilled from the attribute pairs (a repeated name keeps its last value); on any other
     * event the caller's map is returned as it is.
     */
    function GetAttributeMap(attMap: map<string, string>, lower: bool): (r: map<string, string>)
      requires Valid()
      reads this
      ensures current.nextType != StartElement ==> r == attMap
      ensures current.nextType == StartElement ==>
        forall k :: k in r <==> exists i :: 0 <= i < |current.attNames| && AttributeKey(current.attNames[i], lower) == k
    {
      if current.nextType == StartElement then PutPairs(current.attNames, current.attValues, lower) else attMap
    }

    /**
     * `readUntilCorrespondingClosingTag()`: after a non-empty start tag, reads on to the end tag
     * that closes it, counting same-named (ignoring case) non-empty start tags and end tags.
     * `trace` is the run of same-named tags read, the last being the matching end tag.
     */
    method ReadUntilCorrespondingClosingTag() returns (r: Result<EventType>, ghost trace: seq<NestingEvent>)
      requires Valid()
      modifies this
      ensures Valid()
      ensures old(current.nextType) != StartElement ==> r.Err? && cursorPos == old(cursorPos) && current == old(current)
      ensures old(current.nextType) == StartElement && old(current.isEmptyElem) ==>
        r == Ok(StartElement) && cursorPos == old(cursorPos) && current == old(current)
      ensures r.Ok? && !old(current.isEmptyElem) ==>
        r.value == EndElement && Reported(EndElement) && old(current.elementName).Some?
        && EqualsIgnoreCase(current.elementName.value, old(current.elementName).value)
        && |trace| > 0 && trace[|trace| - 1] == Close && Depth(trace) == -1 && NeverBelow(trace)
      ensures old(current.nextType) == StartElement && !old(current.isEmptyElem) ==>
        (r, cursorPos) == Matching(xml, old(cursorPos), skipComments, skipPIs, skipCData, old(current.elementName).value, 0)
    {
      trace := [];
      if current.nextType != StartElement {
        return Err("Invalid call of XMLParser.readUntilCorrespondingClosingTag()"), trace;
      }
      if current.isEmptyElem {
        return Ok(StartElement), trace;
      }
      r, trace := ReadToClosingTag(current.elementName.value);
    }

    /**
     * The loop of `readUntilCorrespondingClosingTag()`: reads on to the end tag that closes an
     * element named `elemName`, with `trace` the run of same-named tags read.
     */
    method ReadToClosingTag(elemName: string) returns (r: Result<EventType>, ghost trace: seq<NestingEvent>)
      requires Valid()
      modifies this
      ensures Valid()
      ensures r.Ok? ==>
        r.value == EndElement && Reported(EndElement) && EqualsIgnoreCase(current.elementName.value, elemName)
        && |trace| > 0 && trace[|trace| - 1] == Close && Depth(trace) == -1
        && NeverBelow(trace)
      ensures (r, cursorPos) == Matching(xml, old(cursorPos), skipComments, skipPIs, skipCData, elemName, 0)
    {
      trace := [];
      var level: nat := 0;
      while true
        invariant Valid()
        invariant level == Depth(trace)
        invariant NeverBelow(trace)
        invariant Matching(xml, cursorPos, skipComments, skipPIs, skipCData, elemName, level)
               == Matching(xml, old(cursorPos), skipComments, skipPIs, skipCData, elemName, 0)
        decreases |xml| - cursorPos
      {
        ghost var c0 := cursorPos;
        var done, level' := NestingStep(elemName, level);
        MatchingAdvances(xml, c0, skipComments, skipPIs, skipCData, elemName, level, done, cursorPos, level');
        if done.Some? {
          if done.value.Ok? {
            AppendKeepsNeverBelow(trace, Close);
            trace := trace + [Close];
          }
          return done.value, trace;
        }
        if level' == level + 1 {
          AppendKeepsNeverBelow(trace, Open);
          trace := trace + [Open];
        } else if level' + 1 == level {
          AppendKeepsNeverBelow(trace, Close);
          trace := trace + [Close];
        }
        level := level';
      }
    }

    /**
     * One pass of that loop at nesting `level`: the next token ends the search (`done`, with the
     * answer) or moves the nesting level by a same-named non-empty start tag or end tag.
     */
    method NestingStep(elemName: string, level: nat) returns (done: Option<Result<EventType>>, level': nat)
      requires Valid()
      modifies this
      ensures Valid()
      ensures NestingRead(xml, old(cursorPos), skipComments, skipPIs, skipCData, elemName, level, done, cursorPos, level')
      ensures done.Some? && done.value.Ok? ==>
        level == 0 && Reported(EndElement) && EqualsIgnoreCase(current.elementName.value, elemName)
      ensures done.None? ==> old(cursorPos) < cursorPos <= |xml| && (level' == level || level' == level + 1 || level' + 1 == level)
    {
      var eventType := Next();
      if eventType.Err? {
        return Some(eventType), level;
      }
      var kind := eventType.value;
      if kind == Finished {
        return Some(Err(ParseError(cursorPos, "Could not find matching end-tag for element " + elemName))), level;
      }
      level' := level;
      if EqualsIgnoreCase(current.elementName.value, elemName) {
        if kind == StartElement {
          if !current.isEmptyElem {
            level' := level + 1;
          }
        } else if kind == EndElement {
          if level == 0 {
            return Some(eventType), level;
          }
          level' := level - 1;
        }
      }
      done := None;
    }
  }

  /** A DOCTYPE marker needs "<!D": a tag whose second or third character differs is not one. */
  lemma NotDoctypeAt(s: string, i: nat)
    requires i + 1 < |s|
    requires s[i + 1] != '!' || (i + 2 < |s| && s[i + 2] != 'D')
    ensures !MatchesAt(s, DoctypeStart, i)
  {
    if i + |DoctypeStart| <= |s| {
      assert s[i..i + |DoctypeStart|][1] == s[i + 1];
      assert s[i..i + |DoctypeStart|][2] == s[i + 2];
    }
  }

  lemma EndTagFacts(s: string, tagStart: nat)
    requires tagStart + 1 < |s| && s[tagStart] == '<' && s[tagStart + 1] == '/'
    requires IndexOfChar(s, '>', tagStart + 1) >= 0
    ensures var tagEnd := IndexOfChar(s, '>', tagStart + 1);
      tagStart + 2 <= tagEnd
      && Shaped(s, Token(EndElement, tagStart, tagEnd + 1, Trim(s[tagStart + 2..tagEnd]), false, [], []), true, true, true)
  {
    assert s[tagStart..tagStart + 2] == "</";
    NotDoctypeAt(s, tagStart);
  }

  lemma DelimitedFacts(s: string, tagStart: nat, open: string, close: string)
    requires |close| > 0 && |open| >= 2 && MatchesAt(s, open, tagStart) && open[0] == '<'
    requires open[1] != '!' || (|open| >= 3 && open[2] != 'D')
    requires IndexOf(s, close, tagStart + 1) >= 0
    ensures var end := IndexOf(s, close, tagStart + 1) + |close|;
      TokenAt(s, tagStart, end) && DelimitedAt(s, tagStart, end, open, open, close)
  {
    assert s[tagStart..tagStart + |open|][0] == s[tagStart];
    assert s[tagStart..tagStart + |open|][1] == s[tagStart + 1];
    if |open| >= 3 {
      assert s[tagStart..tagStart + |open|][2] == s[tagStart + 2];
    }
    NotDoctypeAt(s, tagStart);
  }

  lemma CommentShaped(s: string, tagStart: nat, skipPIs: bool, skipCData: bool)
    requires MatchesAt(s, CommentStart, tagStart) && IndexOf(s, CommentEnd, tagStart + 1) >= 0
    ensures var end := IndexOf(s, CommentEnd, tagStart + 1) + |CommentEnd|;
      Shaped(s, Token(Comment, tagStart, end, CommentStart, false, [], []), false, skipPIs, skipCData)
  {
    DelimitedFacts(s, tagStart, CommentStart, CommentEnd);
  }

  lemma CDataShaped(s: string, tagStart: nat, skipComments: bool, skipPIs: bool)
    requires MatchesAt(s, CDataStart, tagStart) && IndexOf(s, CDataEnd, tagStart + 1) >= 0
    ensures var end := IndexOf(s, CDataEnd, tagStart + 1) + |CDataEnd|;
      Shaped(s, Token(CData, tagStart, end, CDataStart, false, [], []), skipComments, skipPIs, false)
  {
    DelimitedFacts(s, tagStart, CDataStart, CDataEnd);
  }

  lemma PiShaped(s: string, tagStart: nat, skipComments: bool, skipCData: bool)
    requires MatchesAt(s, "<?", tagStart) && IndexOf(s, "?>", tagStart + 1) >= 0
    ensures var end := IndexOf(s, "?>", tagStart + 1) + 2;
      Shaped(s, Token(ProcessingInstruction, tagStart, end, "<?", false, [], []), skipComments, false, skipCData)
  {
    DelimitedFacts(s, tagStart, "<?", "?>");
  }

  lemma StartTagFacts(s: string, tagStart: nat, nameEnd: nat)
    requires tagStart + 1 < |s| && s[tagStart] == '<' && s[tagStart + 1] != '!'
    requires nameEnd == NameEnd(s, tagStart + 1)
    requires JavaTagEnd(TagAttributes(s, nameEnd)) >= 0
    ensures var t := TagAttributes(s, nameEnd);
      t.TagEnd? && tagStart + 1 <= nameEnd <= t.pos < |s|
      && Shaped(s, Token(StartElement, tagStart, t.pos + 1, s[tagStart + 1..nameEnd], s[t.pos - 1] == '/', t.names, t.values),
                true, true, true)
  {
    TagAttributesShaped(s, nameEnd);
    NotDoctypeAt(s, tagStart);
  }

  /** Every proper prefix of a run of same-named tags leaves no element closed beyond the start. */
  ghost predicate NeverBelow(t: seq<NestingEvent>)
  {
    forall k :: 0 <= k < |t| ==> Depth(t[..k]) >= 0
  }

  /** Appending to a run whose depth is not negative keeps every proper prefix at a depth of at least 0. */
  lemma AppendKeepsNeverBelow(t: seq<NestingEvent>, e: NestingEvent)
    requires NeverBelow(t) && Depth(t) >= 0
    ensures NeverBelow(t + [e])
    ensures Depth(t + [e]) == Depth(t) + (if e == Open then 1 else -1)
  {
    AppendPrefixes(t, e);
  }

  lemma AppendPrefixes(t: seq<NestingEvent>, e: NestingEvent)
    ensures forall k :: 0 <= k <= |t| ==> (t + [e])[..k] == t[..k]
    ensures Depth(t + [e]) == Depth(t) + (if e == Open then 1 else -1)
  {
    assert (t + [e])[..|t|] == t;
    forall k | 0 <= k <= |t|
      ensures (t + [e])[..k] == t[..k]
    {
    }
  }
}
