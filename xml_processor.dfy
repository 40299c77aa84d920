/*
 * The streaming XML rewriter (SimpleXMLProcessor). A first pass records a context for every
 * start tag that some handler is registered for, and attaches the matching close tag to it; a
 * second pass hands each context to its handler and copies the input to the output, splicing
 * in replaced elements, replaced contents and rewritten start tags.
 */
module XmlProcessor {
  import opened Wrappers
  import opened JavaText
  import opened XmlParser
  import opened XmlElementContext

  /** One call a handler makes on its context. */
  datatype Action =
    | SetAttribute(name: string, value: Option<string>)
    | ReplaceElement(xml: string)
    | ReplaceElementContent(content: string)

  /** An element handler: the calls its `processElement` makes, given what it reads from the context. */
  datatype Handler = Handler(respond: ElementView -> seq<Action>)

  /** The exception the processor wraps a failed `substring` into. */
  const IndexOutOfRange := "String index out of range"

  /** The text `writeAttributes` emits for the first `n` pairs: ` name="value"`, with '"' written as `&quot;`. */
  function AttributesText(names: seq<string>, values: seq<string>, n: nat): string
    requires n <= |names| == |values|
  {
    if n == 0 then ""
    else AttributesText(names, values, n - 1) + " " + names[n - 1] + "=\"" + EscapeChar(values[n - 1], '"', "&quot;") + "\""
  }

  /** Each written value is free of '"', so it cannot end its quoted attribute early. */
  lemma WrittenValueHasNoQuote(v: string)
    ensures '"' !in EscapeChar(v, '"', "&quot;")
  {
    assert '"' !in "&quot;";
  }

  /** `writeAttributes`: appends every name/value pair of the context. */
  method WriteAttributes(names: seq<string>, values: seq<string>) returns (out: string)
    requires |names| == |values|
    ensures out == AttributesText(names, values, |names|)
  {
    out := "";
    var i := 0;
    while i < |names|
      invariant 0 <= i <= |names|
      invariant out == AttributesText(names, values, i)
    {
      var val := EscapeChar(values[i], '"', "&quot;");
      out := out + " " + names[i] + "=\"" + val + "\"";
      i := i + 1;
    }
  }

  /** The edit state of a context: what its handler may have changed. */
  ghost function EditOf(c: ElementContext): Edit
    reads c
  {
    Edit(c.attNames, c.attValues, c.replacedElem, c.replacedCont, c.attribChanged)
  }

  /**
   * `h.processElement(ctx)`: the handler reads the context once and makes its calls in order;
   * the context ends with the edit those calls make, its close tag and case mode kept.
   */
  method ProcessElement(h: Handler, ctx: ElementContext)
    requires ctx.Valid()
    modifies ctx
    ensures ctx.Valid()
    ensures ctx.closeTagStart == old(ctx.closeTagStart) && ctx.closeTagEnd == old(ctx.closeTagEnd)
    ensures ctx.ignoreAttributeCase == old(ctx.ignoreAttributeCase)
    ensures EditOf(ctx) == ActAll(old(EditOf(ctx)), ctx.ignoreAttributeCase, old(h.respond(ctx.View())))
  {
    var actions := h.respond(ctx.View());
    var i := 0;
    while i < |actions|
      invariant 0 <= i <= |actions|
      invariant ctx.Valid()
      invariant ctx.closeTagStart == old(ctx.closeTagStart) && ctx.closeTagEnd == old(ctx.closeTagEnd)
      invariant ctx.ignoreAttributeCase == old(ctx.ignoreAttributeCase)
      invariant EditOf(ctx) == ActAll(old(EditOf(ctx)), ctx.ignoreAttributeCase, actions[..i])
    {
      assert actions[..i + 1][..i] == actions[..i];
      match actions[i] {
        case SetAttribute(name, value) => ctx.SetAttribute(name, value);
        case ReplaceElement(xml) => ctx.ReplaceElement(xml);
        case ReplaceElementContent(content) => ctx.ReplaceElementContent(content);
      }
      i := i + 1;
    }
    assert actions[..|actions|] == actions;
  }

  /**
   * `xmlParser.next()` as the first pass sees it: a reported token lies after the old cursor,
   * is non-empty, and the cursor moves to its end.
   */
  method NextEvent(parser: Parser) returns (r: Result<EventType>)
    requires parser.Valid() && 0 <= parser.cursorPos <= |parser.xml|
    modifies parser
    ensures parser.Valid() && 0 <= parser.cursorPos <= |parser.xml|
    ensures r.Ok? ==> old(parser.cursorPos) <= parser.cursorPos
    ensures r.Ok? && r.value != Finished ==>
      old(parser.cursorPos) <= parser.current.startOffset < parser.current.endOffset == parser.cursorPos
      && parser.current.elementName.Some?
    ensures var n := NextToken(parser.xml, old(parser.cursorPos), parser.skipComments, parser.skipPIs, parser.skipCData);
      parser.cursorPos == n.1
      && (n.0.Err? ==> r == Err(n.0.error))
      && (n.0 == Ok(None) ==> r == Ok(Finished))
      && (n.0.Ok? && n.0.value.Some? ==> r == Ok(n.0.value.value.kind) && parser.current == Apply(old(parser.current), n.0.value.value))
  {
    r := parser.Next();
  }

  /** A context stands where a record does: the same open tag and close tag. */
  ghost predicate Placed(c: ElementContext, r: Rec)
    reads c
  {
    Opens(c, r) && c.closeTagStart == r.closeStart && c.closeTagEnd == r.closeEnd
  }

  /** A context holds a record: placed where it is, with its attributes. */
  ghost predicate Holds(c: ElementContext, r: Rec)
    reads c
  {
    Placed(c, r) && c.attNames == r.names && c.attValues == r.values
  }

  /** Contexts hold the records, one by one. */
  ghost predicate HoldAll(cs: seq<ElementContext>, recs: seq<Rec>)
    reads cs
  {
    |cs| == |recs| && forall i :: 0 <= i < |cs| ==> Holds(cs[i], recs[i])
  }

  /** The recorded and open contexts stand for the first pass's records and open indices. */
  ghost predicate Abstracts(recorded: seq<ElementContext>, open: seq<ElementContext>, st: PassState)
    reads recorded
  {
    HoldAll(recorded, st.recs) && |st.open| == |open|
    && forall k :: 0 <= k < |open| ==> 0 <= st.open[k] < |recorded| && open[k] == recorded[st.open[k]]
  }

  /** No context is recorded twice. */
  ghost predicate Distinct(cs: seq<ElementContext>)
  {
    forall i, j :: 0 <= i < |cs| && 0 <= j < |cs| && i != j ==> cs[i] != cs[j]
  }

  /** A token's effect on the first pass depends on its kind, name and offsets, and a start tag's on all of it. */
  lemma RecordByTag(setup: Setup, st: PassState, t: Token, u: Token)
    requires OpenOk(st) && t.kind == u.kind && t.start == u.start && t.end == u.end && t.name == u.name
    requires t.kind == StartElement ==> t == u
    ensures Record(setup, st, t) == Record(setup, st, u)
  {
  }

  /** A handler that asks for nothing, whatever it reads. */
  ghost predicate Silent(h: Handler)
  {
    forall v :: h.respond(v) == []
  }

  /**
   * Whether `t` is a start tag that some handler runs on, for handlers registered under keys
   * lower-cased or not as `ignoreCase` says.
   */
  predicate HandledUnder(ignoreCase: bool, handlers: map<string, Handler>, defaultHandler: Option<Handler>,
                         t: Token)
  {
    t.kind == StartElement && (defaultHandler.Some? || (if ignoreCase then Lower(t.name) else t.name) in handlers)
  }

  // ---------------------------------------------------------------- process() as a function

  /** The processor's configuration, which both passes read. */
  datatype Setup = Setup(ignoreElementCase: bool, ignoreAttributeCase: bool, handlers: map<string, Handler>,
                         defaultHandler: Option<Handler>)

  /** `elementKey(name)` under a configuration: lower-cased when element case is ignored. */
  function KeyUnder(ignoreCase: bool, name: string): string
  {
    if ignoreCase then Lower(name) else name
  }

  /** `sameElementName(a, b)` under a configuration. */
  predicate SameNameUnder(ignoreCase: bool, a: string, b: string)
  {
    if ignoreCase then EqualsIgnoreCase(a, b) else a == b
  }

  /** The handler the second pass looks up for a name: its own, else the default one. */
  function HandlerUnder(setup: Setup, name: string): Option<Handler>
  {
    var key := KeyUnder(setup.ignoreElementCase, name);
    if key in setup.handlers then Some(setup.handlers[key]) else setup.defaultHandler
  }

  /**
   * What the first pass knows of one recorded start tag: its offsets, name, emptiness and
   * attributes, and the close tag attached to it ((-1, -1) while there is none).
   */
  datatype Rec = Rec(start: int, end: int, name: string, isEmpty: bool, names: seq<string>, values: seq<string>,
                     closeStart: int, closeEnd: int)

  /** A record lies in `s` as a valid context does. */
  predicate RecOk(s: string, r: Rec)
  {
    0 <= r.start < r.end <= |s| && |r.names| == |r.values|
    && ((r.closeStart == -1 && r.closeEnd == -1) || r.end <= r.closeStart <= r.closeEnd <= |s|)
  }

  predicate RecsOk(s: string, recs: seq<Rec>)
  {
    forall i :: 0 <= i < |recs| ==> RecOk(s, recs[i])
  }

  /** Records follow each other in the document without overlapping. */
  predicate Ordered(recs: seq<Rec>)
  {
    forall i, j :: 0 <= i < j < |recs| ==> recs[i].end <= recs[j].start
  }

  /** The first pass between two tokens: the records so far and the indices of the open ones, innermost last. */
  datatype PassState = PassState(recs: seq<Rec>, open: seq<int>)

  predicate OpenOk(st: PassState)
  {
    forall k :: 0 <= k < |st.open| ==> 0 <= st.open[k] < |st.recs|
  }

  /**
   * What a close tag `name` at `start..end` does in the first pass: open records are popped
   * until one has the same element name; that one, and only that one, gets the close tag.
   */
  function CloseIn(ignoreCase: bool, recs: seq<Rec>, open: seq<int>, name: string, start: int, end: int)
    : (st: PassState)
    requires forall k :: 0 <= k < |open| ==> 0 <= open[k] < |recs|
    ensures |st.recs| == |recs| && |st.open| <= |open| && st.open == open[..|st.open|]
    decreases |open|
  {
    if open == [] then PassState(recs, [])
    else
      var k := open[|open| - 1];
      if SameNameUnder(ignoreCase, name, recs[k].name) then
        PassState(recs[k := recs[k].(closeStart := start, closeEnd := end)], open[..|open| - 1])
      else
        var st := CloseIn(ignoreCase, recs, open[..|open| - 1], name, start, end);
        assert open[..|open| - 1][..|st.open|] == open[..|st.open|];
        st
  }

  /**
   * Where the popping stops decides the close: the record open at `m`, the innermost with the
   * name, gets the tag and the stack drops to below it; with no such record (`m == -1`) it empties.
   */
  lemma {:induction false} CloseInAt(ignoreCase: bool, recs: seq<Rec>, open: seq<int>, name: string,
                                     start: int, end: int, m: int)
    requires forall k :: 0 <= k < |open| ==> 0 <= open[k] < |recs|
    requires -1 <= m < |open|
    requires forall k :: m < k < |open| ==> !SameNameUnder(ignoreCase, name, recs[open[k]].name)
    requires m >= 0 ==> SameNameUnder(ignoreCase, name, recs[open[m]].name)
    ensures CloseIn(ignoreCase, recs, open, name, start, end)
      == if m >= 0 then PassState(recs[open[m] := recs[open[m]].(closeStart := start, closeEnd := end)], open[..m])
         else PassState(recs, [])
    decreases |open|
  {
    if open != [] && m < |open| - 1 {
      var open' := open[..|open| - 1];
      assert forall k :: 0 <= k < |open'| ==> open'[k] == open[k];
      CloseInAt(ignoreCase, recs, open', name, start, end, m);
      if m >= 0 {
        assert open'[..m] == open[..m];
      }
    }
  }

  /**
   * What the first pass does with one token: a start tag some handler runs on gets a record,
   * kept open unless the tag is empty; an end tag closes an open record; anything else is passed over.
   */
  function Record(setup: Setup, st: PassState, t: Token): (st': PassState)
    requires OpenOk(st)
    ensures OpenOk(st')
  {
    match t.kind
    case StartElement =>
      if HandledUnder(setup.ignoreElementCase, setup.handlers, setup.defaultHandler, t) then
        PassState(st.recs + [Rec(t.start, t.end, t.name, t.isEmpty, t.names, t.values, -1, -1)],
                  if t.isEmpty then st.open else st.open + [|st.recs|])
      else st
    case EndElement => CloseIn(setup.ignoreElementCase, st.recs, st.open, t.name, t.start, t.end)
    case _ => st
  }

  /**
   * `parseInput()` from `cursor` on, as a function: the records the first pass makes, each with
   * the close tag the end tags gave it, or the first error of the tokenizer.
   */
  function FirstPass(s: string, setup: Setup, cursor: int, st: PassState): Result<seq<Rec>>
    requires OpenOk(st)
    decreases |s| - cursor
  {
    var n := NextToken(s, cursor, true, true, true);
    if n.0.Err? then Err(n.0.error)
    else if n.0.value.None? then Ok(st.recs)
    else FirstPass(s, setup, n.1, Record(setup, st, n.0.value.value))
  }

  /** What the first pass keeps between tokens: valid, ordered records, all before the cursor. */
  predicate PassOk(s: string, cursor: int, st: PassState)
  {
    OpenOk(st) && 0 <= cursor && RecsOk(s, st.recs) && Ordered(st.recs)
    && forall i :: 0 <= i < |st.recs| ==> st.recs[i].end <= cursor && st.recs[i].closeEnd <= cursor
  }

  /** A close tag after every record keeps them valid and ordered. */
  lemma {:induction false} CloseInOk(s: string, ignoreCase: bool, recs: seq<Rec>, open: seq<int>, cursor: int,
                                     name: string, start: int, end: int)
    requires PassOk(s, cursor, PassState(recs, open)) && cursor <= start < end <= |s|
    ensures PassOk(s, end, CloseIn(ignoreCase, recs, open, name, start, end))
    decreases |open|
  {
    if open != [] {
      var k := open[|open| - 1];
      if !SameNameUnder(ignoreCase, name, recs[k].name) {
        CloseInOk(s, ignoreCase, recs, open[..|open| - 1], cursor, name, start, end);
      }
    }
  }

  /** One token of the first pass keeps its records valid and ordered. */
  lemma RecordOk(s: string, setup: Setup, cursor: int, st: PassState, t: Token)
    requires PassOk(s, cursor, st) && Shaped(s, t, true, true, true) && cursor <= t.start
    ensures PassOk(s, t.end, Record(setup, st, t))
  {
    if t.kind == EndElement {
      CloseInOk(s, setup.ignoreElementCase, st.recs, st.open, cursor, t.name, t.start, t.end);
    }
  }

  /** The first pass makes valid records, in document order. */
  lemma {:induction false} FirstPassOk(s: string, setup: Setup, cursor: int, st: PassState)
    requires PassOk(s, cursor, st)
    ensures var p := FirstPass(s, setup, cursor, st); p.Ok? ==> RecsOk(s, p.value) && Ordered(p.value)
    decreases |s| - cursor
  {
    var n := NextToken(s, cursor, true, true, true);
    if n.0.Ok? && n.0.value.Some? {
      RecordOk(s, setup, cursor, st, n.0.value.value);
      FirstPassOk(s, setup, n.1, Record(setup, st, n.0.value.value));
    }
  }

  /** What a handler can change in its context: the attributes, the replacements, and whether attributes changed. */
  datatype Edit = Edit(attNames: seq<string>, attValues: seq<string>, replacedElem: Option<string>,
                       replacedCont: Option<string>, attribChanged: bool)

  /** A fresh context's edit state: its recorded attributes, nothing replaced. */
  function InitEdit(r: Rec): Edit
  {
    Edit(r.names, r.values, None, None, false)
  }

  /** One handler call on a context, as `XMLElementContextImpl` carries it out. */
  function Act(e: Edit, ignoreCase: bool, a: Action): (e': Edit)
    requires |e.attNames| == |e.attValues|
    ensures |e'.attNames| == |e'.attValues|
  {
    match a
    case SetAttribute(name, value) =>
      var l := SetAttributeLists(e.attNames, e.attValues, ignoreCase, name, value);
      e.(attNames := l.0, attValues := l.1, attribChanged := e.attribChanged || l.2)
    case ReplaceElement(xml) => e.(replacedElem := Some(xml))
    case ReplaceElementContent(content) => e.(replacedCont := Some(content))
  }

  /** A handler's calls, in order. */
  function ActAll(e: Edit, ignoreCase: bool, actions: seq<Action>): (e': Edit)
    requires |e.attNames| == |e.attValues|
    ensures |e'.attNames| == |e'.attValues|
    decreases |actions|
  {
    if actions == [] then e
    else Act(ActAll(e, ignoreCase, actions[..|actions| - 1]), ignoreCase, actions[|actions| - 1])
  }

  /** What a handler reads from the context of a record that nothing has changed yet. */
  function ViewOf(s: string, r: Rec, ignoreAttributeCase: bool): ElementView
    requires RecOk(s, r)
  {
    ElementView(r.name, r.isEmpty, r.names, r.values, ignoreAttributeCase, r.start,
                ElementText(s, r.start, r.end, r.closeEnd, r.isEmpty), ContentText(s, r.end, r.closeStart, r.isEmpty))
  }

  /**
   * The open tag the second pass writes for a record not replaced as a whole: rewritten from
   * the attributes when they changed; kept from the input when only the content is replaced,
   * an empty element's "/>" becoming ">"; otherwise nothing.
   */
  function OpenTagOf(s: string, r: Rec, e: Edit): string
    requires RecOk(s, r) && |e.attNames| == |e.attValues|
  {
    if e.attribChanged then
      "<" + r.name + AttributesText(e.attNames, e.attValues, |e.attNames|)
      + (if r.isEmpty && e.replacedCont.None? then "/>" else ">")
    else if e.replacedCont.None? then ""
    else if !r.isEmpty then s[r.start..r.end]
    else
      var idx := LastIndexOf(s, "/>", r.end - 1);
      if idx > r.start then s[r.start..idx] + ">" else ""
  }

  /**
   * What the second pass writes for a record after its handler made the edit `e`, from the
   * open tag on; where copying resumes; and whether the element was replaced.
   */
  function RewriteOf(s: string, r: Rec, e: Edit): (string, int, bool)
    requires RecOk(s, r) && |e.attNames| == |e.attValues|
  {
    var elemEnd := if r.isEmpty then r.end else r.closeEnd;
    if e.replacedElem.Some? then (e.replacedElem.value, elemEnd, true)
    else
      var tag := OpenTagOf(s, r, e);
      if e.replacedCont.Some? then (tag + e.replacedCont.value + "</" + r.name + ">", elemEnd, true)
      else (tag, if e.attribChanged then r.end else r.start, false)
  }

  /**
   * The visit of one record in the second pass: nothing when no handler is found for it; else
   * the rewrite after the handler's calls on a fresh context.
   */
  function VisitOf(s: string, setup: Setup, r: Rec): (string, int, bool)
    requires RecOk(s, r)
  {
    var h := HandlerUnder(setup, r.name);
    if h.None? then ("", r.start, false)
    else
      var iac := setup.ignoreAttributeCase;
      RewriteOf(s, r, ActAll(InitEdit(r), iac, h.value.respond(ViewOf(s, r, iac))))
  }

  /** The first record from `from` on that starts at or after `end`. */
  function SkipFrom(recs: seq<Rec>, from: int, end: int): (next: int)
    requires 0 <= from <= |recs|
    ensures from <= next <= |recs|
    decreases |recs| - from
  {
    if from < |recs| && recs[from].start < end then SkipFrom(recs, from + 1, end) else from
  }

  /** The text `p` followed by `w`, or the error of `w`. */
  function Prefixed(p: string, w: Result<string>): Result<string>
  {
    if w.Err? then w else Ok(p + w.value)
  }

  /**
   * The second pass from record `i` with the input copied up to `copyPos`: the input up to the
   * record, its visit, and the rest from the record after the element when it was replaced
   * (records inside it skipped), else from the next one; then the tail of the input. A copy
   * from a position past the next start, or from -1, is the range error.
   */
  function Render(s: string, setup: Setup, recs: seq<Rec>, i: int, copyPos: int): Result<string>
    requires RecsOk(s, recs) && 0 <= i <= |recs|
    decreases |recs| - i
  {
    if i == |recs| then
      if copyPos >= |s| then Ok("")
      else if copyPos < 0 then Err(IndexOutOfRange)
      else Ok(s[copyPos..])
    else
      var r := recs[i];
      if !(0 <= copyPos <= r.start) then Err(IndexOutOfRange)
      else
        var v := VisitOf(s, setup, r);
        var next := if v.2 && !r.isEmpty then SkipFrom(recs, i + 1, r.closeEnd) else i + 1;
        Prefixed(s[copyPos..r.start] + v.0, Render(s, setup, recs, next, v.1))
  }

  /** `process(input, output)` as a function: what it writes, or the exception it ends with. */
  function Output(s: string, setup: Setup): Result<string>
  {
    var pass := FirstPass(s, setup, 0, PassState([], []));
    if pass.Err? then Err(pass.error)
    else
      FirstPassOk(s, setup, 0, PassState([], []));
      Render(s, setup, pass.value, 0, 0)
  }

  /** One visit of the second pass, prefixed by what was written before it. */
  lemma RenderStep(s: string, setup: Setup, recs: seq<Rec>, i: int, copyPos: int, out: string)
    requires RecsOk(s, recs) && 0 <= i < |recs| && 0 <= copyPos <= recs[i].start
    ensures var v := VisitOf(s, setup, recs[i]);
      var next := if v.2 && !recs[i].isEmpty then SkipFrom(recs, i + 1, recs[i].closeEnd) else i + 1;
      Prefixed(out, Render(s, setup, recs, i, copyPos))
      == Prefixed(out + s[copyPos..recs[i].start] + v.0, Render(s, setup, recs, next, v.1))
  {
    var v := VisitOf(s, setup, recs[i]);
    var next := if v.2 && !recs[i].isEmpty then SkipFrom(recs, i + 1, recs[i].closeEnd) else i + 1;
    var rest := Render(s, setup, recs, next, v.1);
    if rest.Ok? {
      assert out + (s[copyPos..recs[i].start] + v.0 + rest.value) == out + s[copyPos..recs[i].start] + v.0 + rest.value;
    }
  }

  /**
   * When no visit from record `i` on writes anything or moves the copy position, the second
   * pass copies the rest of the input unchanged.
   */
  lemma {:induction false} RenderUnchanged(s: string, setup: Setup, recs: seq<Rec>, i: int, copyPos: int)
    requires RecsOk(s, recs) && Ordered(recs) && 0 <= i <= |recs|
    requires forall j :: i <= j < |recs| ==> VisitOf(s, setup, recs[j]) == ("", recs[j].start, false)
    requires 0 <= copyPos <= |s| && (i < |recs| ==> copyPos <= recs[i].start)
    ensures Render(s, setup, recs, i, copyPos) == Ok(s[copyPos..])
    decreases |recs| - i
  {
    if i < |recs| {
      var r := recs[i];
      assert RecOk(s, r) && VisitOf(s, setup, r) == ("", r.start, false);
      if i + 1 < |recs| {
        assert RecOk(s, recs[i + 1]) && r.start < r.end <= recs[i + 1].start;
      }
      RenderUnchanged(s, setup, recs, i + 1, r.start);
      assert Render(s, setup, recs, i, copyPos) == Prefixed(s[copyPos..r.start] + "", Render(s, setup, recs, i + 1, r.start));
      assert s[copyPos..r.start] + "" + s[r.start..] == s[copyPos..];
    }
  }

  /** A handler that asks for nothing leaves its record's visit empty. */
  lemma SilentVisit(s: string, setup: Setup, r: Rec)
    requires RecOk(s, r)
    requires HandlerUnder(setup, r.name).Some? ==> Silent(HandlerUnder(setup, r.name).value)
    ensures VisitOf(s, setup, r) == ("", r.start, false)
  {
  }


  /** Every registered handler, the default one included, asks for nothing. */
  ghost predicate SilentSetup(setup: Setup)
  {
    (setup.defaultHandler.Some? ==> Silent(setup.defaultHandler.value))
    && forall k :: k in setup.handlers ==> Silent(setup.handlers[k])
  }

  /** With handlers that ask for nothing, `process` writes its input back unchanged. */
  lemma SilentOutput(s: string, setup: Setup)
    requires SilentSetup(setup) && FirstPass(s, setup, 0, PassState([], [])).Ok?
    ensures Output(s, setup) == Ok(s)
  {
    var recs := FirstPass(s, setup, 0, PassState([], [])).value;
    FirstPassOk(s, setup, 0, PassState([], []));
    forall j | 0 <= j < |recs|
      ensures VisitOf(s, setup, recs[j]) == ("", recs[j].start, false)
    {
      SilentVisit(s, setup, recs[j]);
    }
    RenderUnchanged(s, setup, recs, 0, 0);
    assert s[0..] == s;
  }

  /** With no handler registered at all, the first pass records nothing. */
  lemma {:induction false} UnhandledRecordsNothing(s: string, setup: Setup, cursor: int, st: PassState)
    requires setup.defaultHandler.None? && setup.handlers == map[] && st.open == []
    ensures FirstPass(s, setup, cursor, st).Ok? ==> FirstPass(s, setup, cursor, st).value == st.recs
    decreases |s| - cursor
  {
    var n := NextToken(s, cursor, true, true, true);
    if n.0.Ok? && n.0.value.Some? {
      assert Record(setup, st, n.0.value.value) == st;
      UnhandledRecordsNothing(s, setup, n.1, st);
    }
  }

  /** The start-tag part of a record, which closing never changes. */
  function TagOf(r: Rec): (int, int, string, bool, seq<string>, seq<string>)
  {
    (r.start, r.end, r.name, r.isEmpty, r.names, r.values)
  }

  /**
   * The records the first pass adds from `cursor` on are start tags of `s` read at or after the
   * cursor that some handler runs on; the records it started with keep their start tags.
   */
  lemma {:induction false} FirstPassRecords(s: string, setup: Setup, cursor: int, st: PassState)
    requires OpenOk(st)
    ensures var p := FirstPass(s, setup, cursor, st);
      p.Ok? ==>
        |st.recs| <= |p.value| && (forall i :: 0 <= i < |st.recs| ==> TagOf(p.value[i]) == TagOf(st.recs[i]))
        && forall i :: |st.recs| <= i < |p.value| ==>
             var r := p.value[i];
             cursor <= r.start && StartTagAt(s, r.start, r.end, r.name, r.isEmpty, r.names, r.values)
             && HandledUnder(setup.ignoreElementCase, setup.handlers, setup.defaultHandler,
                             Token(StartElement, r.start, r.end, r.name, r.isEmpty, r.names, r.values))
    decreases |s| - cursor
  {
    var n := NextToken(s, cursor, true, true, true);
    if n.0.Ok? && n.0.value.Some? {
      var t := n.0.value.value;
      var st' := Record(setup, st, t);
      FirstPassRecords(s, setup, n.1, st');
      var p := FirstPass(s, setup, n.1, st');
      if p.Ok? {
        if t.kind == EndElement {
          CloseInTags(setup.ignoreElementCase, st.recs, st.open, t.name, t.start, t.end);
        }
        forall i | 0 <= i < |st.recs|
          ensures TagOf(p.value[i]) == TagOf(st.recs[i])
        {
          assert TagOf(st'.recs[i]) == TagOf(st.recs[i]);
        }
      }
    }
  }

  /** Closing changes no record's start tag. */
  lemma {:induction false} CloseInTags(ignoreCase: bool, recs: seq<Rec>, open: seq<int>, name: string, start: int, end: int)
    requires forall k :: 0 <= k < |open| ==> 0 <= open[k] < |recs|
    ensures var st := CloseIn(ignoreCase, recs, open, name, start, end);
      forall i :: 0 <= i < |recs| ==> TagOf(st.recs[i]) == TagOf(recs[i])
    decreases |open|
  {
    if open != [] && !SameNameUnder(ignoreCase, name, recs[open[|open| - 1]].name) {
      CloseInTags(ignoreCase, recs, open[..|open| - 1], name, start, end);
    }
  }

  /** A context opens where a record does: the same open tag, name and emptiness. */
  predicate Opens(c: ElementContext, r: Rec)
  {
    c.openTagStart == r.start && c.openTagEnd == r.end && c.tagName == r.name && c.emptyElement == r.isEmpty
  }

  class Processor {
    var input: string
    var ignoreElementCase: bool
    var ignoreAttributeCase: bool
    var defaultHandler: Option<Handler>
    var handlers: map<string, Handler>
    var elements: seq<ElementContext>

    constructor ()
      ensures input == "" && ignoreElementCase && ignoreAttributeCase
      ensures defaultHandler.None? && handlers == map[] && elements == []
    {
      input := "";
      ignoreElementCase, ignoreAttributeCase := true, true;
      defaultHandler, handlers, elements := None, map[], [];
    }

    /** `elementKey(name)`: the key handlers are stored under; lower-cased when element case is ignored. */
    function ElementKey(name: string): (k: string)
      reads this
      ensures ignoreElementCase ==> k == Lower(name)
      ensures !ignoreElementCase ==> k == name
    {
      KeyUnder(ignoreElementCase, name)
    }

    /** `sameElementName(a, b)`. */
    predicate SameElementName(a: string, b: string)
      reads this
    {
      SameNameUnder(ignoreElementCase, a, b)
    }

    /** Two names that are the same element name share one key, in both modes. */
    lemma SameNameSameKey(a: string, b: string)
      ensures SameElementName(a, b) <==> ElementKey(a) == ElementKey(b)
    {
    }

    /** The handler the second pass uses: the one registered for the name, else the default one. */
    function HandlerFor(name: string): (h: Option<Handler>)
      reads this
      ensures ElementKey(name) in handlers ==> h == Some(handlers[ElementKey(name)])
      ensures ElementKey(name) !in handlers ==> h == defaultHandler
    {
      HandlerUnder(Cfg(), name)
    }

    /** The configuration both passes read. */
    function Cfg(): Setup
      reads this
    {
      Setup(ignoreElementCase, ignoreAttributeCase, handlers, defaultHandler)
    }

    /** The first pass over the whole input, as a function. */
    ghost function Pass(): Result<seq<Rec>>
      reads this
    {
      FirstPass(input, Cfg(), 0, PassState([], []))
    }

    /** `setElementHandler(name, handler)`, with None for Java null, which unregisters. */
    method SetElementHandler(name: string, handler: Option<Handler>)
      modifies this
      ensures handler.None? ==> handlers == old(handlers) - {old(ElementKey(name))}
      ensures handler.Some? ==> handlers == old(handlers)[old(ElementKey(name)) := handler.value]
      ensures input == old(input) && elements == old(elements) && defaultHandler == old(defaultHandler)
      ensures ignoreElementCase == old(ignoreElementCase) && ignoreAttributeCase == old(ignoreAttributeCase)
      ensures forall other :: SameElementName(other, name) ==>
        HandlerFor(other) == if handler.Some? then handler else defaultHandler
    {
      var key := ElementKey(name);
      if handler.None? {
        handlers := handlers - {key};
      } else {
        handlers := handlers[key := handler.value];
      }
    }

    /** `setElementHandler(handler)`: the default handler, for every element without its own. */
    method SetDefaultHandler(handler: Option<Handler>)
      modifies this
      ensures defaultHandler == handler
      ensures input == old(input) && elements == old(elements) && handlers == old(handlers)
      ensures ignoreElementCase == old(ignoreElementCase) && ignoreAttributeCase == old(ignoreAttributeCase)
    {
      defaultHandler := handler;
    }

    method SetIgnoreElementCase(ignore: bool)
      modifies this
      ensures ignoreElementCase == ignore
      ensures input == old(input) && elements == old(elements) && handlers == old(handlers)
      ensures defaultHandler == old(defaultHandler) && ignoreAttributeCase == old(ignoreAttributeCase)
    {
      ignoreElementCase := ignore;
    }

    method SetIgnoreAttributeCase(ignore: bool)
      modifies this
      ensures ignoreAttributeCase == ignore
      ensures input == old(input) && elements == old(elements) && handlers == old(handlers)
      ensures defaultHandler == old(defaultHandler) && ignoreElementCase == old(ignoreElementCase)
    {
      ignoreAttributeCase := ignore;
    }

    /** Every registered handler, the default one included, asks for nothing. */
    ghost predicate AllSilent()
      reads this
    {
      SilentSetup(Cfg())
    }

    /**
     * The second pass, writing output, skips the contexts that start inside `c`: a handler ran on
     * it and replaced the non-empty element or its content.
     */
    ghost predicate Replaces(c: ElementContext, withOutput: bool)
      reads this, c
    {
      withOutput && HandlerFor(c.tagName).Some? && !c.emptyElement && (c.replacedElem.Some? || c.replacedCont.Some?)
    }

    /** The context `j` starts inside an element the second pass replaced at a visited index before it. */
    ghost predicate SkippedInside(j: int, visited: seq<int>, withOutput: bool)
      reads this, set c | c in elements
      requires 0 <= j < |elements|
    {
      exists i :: 0 <= i < j && i in visited && Replaces(elements[i], withOutput)
                  && elements[j].openTagStart < elements[i].closeTagEnd
    }

    /** A recorded context: valid, over the input, with a handler that will run on it. */
    ghost predicate Recorded(c: ElementContext)
      reads this, c
    {
      c.Valid() && c.input == input && c.ignoreAttributeCase == ignoreAttributeCase && c.openTagStart < c.openTagEnd
      && (defaultHandler.Some? || ElementKey(c.tagName) in handlers)
      && (c.closeTagStart >= 0 ==> !c.emptyElement)
    }

    /** What `parseInput` keeps between two tokens: the contexts so far, in order, and the open ones. */
    ghost predicate ParseState(cursor: int, recorded: seq<ElementContext>, open: seq<ElementContext>)
      reads this, set c | c in recorded
    {
      (forall c :: c in recorded ==> Recorded(c) && c.Unchanged() && c.openTagEnd <= cursor)
      && (forall i, j :: 0 <= i < j < |recorded| ==> recorded[i].openTagEnd <= recorded[j].openTagStart)
      && (forall c :: c in open ==> c in recorded && !c.emptyElement)
    }

    /**
     * One pass of the loop of `parseInput` against the first pass as a function, from `cursor`
     * to `after`: an error is its error, FINISHED ends it with the records so far, and any other
     * token leaves the same records to come from `after` with the state `st'`.
     */
    ghost predicate PassStep(cursor: int, st: PassState, r: Result<bool>, after: int, st': PassState)
      reads this
      requires OpenOk(st)
    {
      (r.Err? ==> FirstPass(input, Cfg(), cursor, st) == Err(r.error))
      && (r == Ok(true) ==> FirstPass(input, Cfg(), cursor, st) == Ok(st.recs) && st' == st)
      && (r == Ok(false) ==> OpenOk(st') && FirstPass(input, Cfg(), cursor, st) == FirstPass(input, Cfg(), after, st'))
    }

    /**
     * `parseInput()`: drives a parser over the input until it reports FINISHED, and returns the
     * recorded contexts in document order: they hold the records of the first pass, each with
     * the close tag matched to it. An error is the tokenizer's first error.
     */
    method ParseInput() returns (r: Result<seq<ElementContext>>)
      ensures r.Ok? ==> forall c :: c in r.value ==> fresh(c)
      ensures r.Ok? ==> ParseState(|input|, r.value, [])
      ensures r.Err? ==> Pass() == Err(r.error)
      ensures r.Ok? ==> Pass().Ok? && HoldAll(r.value, Pass().value)
    {
      var parser := new Parser(input, 0);
      var recorded: seq<ElementContext> := [];
      var open: seq<ElementContext> := [];
      var finished := false;
      ghost var pass := Pass();
      ghost var st := PassState([], []);
      while !finished
        invariant parser.Valid() && parser.xml == input && fresh(parser)
        invariant parser.skipComments && parser.skipPIs && parser.skipCData
        invariant 0 <= parser.cursorPos <= |input|
        invariant forall c :: c in recorded ==> fresh(c)
        invariant ParseState(parser.cursorPos, recorded, open)
        invariant Abstracts(recorded, open, st)
        invariant !finished ==> pass == FirstPass(input, Cfg(), parser.cursorPos, st)
        invariant finished ==> pass == Ok(st.recs)
        decreases !finished, |input| - parser.cursorPos
      {
        ghost var cursor, st0 := parser.cursorPos, st;
        var step;
        step, recorded, open, st := ReadAndRecord(parser, recorded, open, st);
        assert PassStep(cursor, st0, step, parser.cursorPos, st);
        if step.Err? {
          return Err(step.error);
        }
        finished := step.value;
      }
      assert ParseState(|input|, recorded, []);
      return Ok(recorded);
    }

    /**
     * One pass of the loop of `parseInput`: reads the next token. A start tag with a handler gets
     * a context, kept open unless the tag is empty; an end tag closes an open context.
     * The result is whether FINISHED was read.
     */
    method ReadAndRecord(parser: Parser, recorded: seq<ElementContext>, open: seq<ElementContext>, ghost st: PassState)
      returns (r: Result<bool>, recorded': seq<ElementContext>, open': seq<ElementContext>, ghost st': PassState)
      requires parser.Valid() && parser.xml == input
      requires parser.skipComments && parser.skipPIs && parser.skipCData
      requires 0 <= parser.cursorPos <= |input|
      requires ParseState(parser.cursorPos, recorded, open) && Abstracts(recorded, open, st)
      modifies parser, set c | c in open
      ensures parser.Valid() && 0 <= parser.cursorPos <= |input|
      ensures forall c :: c in recorded' ==> c in recorded || fresh(c)
      ensures r.Ok? ==> ParseState(parser.cursorPos, recorded', open') && Abstracts(recorded', open', st')
      ensures r == Ok(false) ==> old(parser.cursorPos) < parser.cursorPos
      ensures PassStep(old(parser.cursorPos), st, r, parser.cursorPos, st')
    {
      recorded', open', st' := recorded, open, st;
      var cursor := parser.cursorPos;
      var next := NextEvent(parser);
      if next.Err? {
        return Err(next.error), recorded', open', st';
      }
      if next.value == Finished {
        return Ok(true), recorded', open', st';
      }
      var f := parser.current;
      var t := Token(next.value, f.startOffset, f.endOffset, f.elementName.value, f.isEmptyElem, f.attNames, f.attValues);
      recorded', open', st' := RecordToken(t, cursor, parser.cursorPos, recorded, open, st);
      ghost var n := NextToken(input, cursor, true, true, true);
      RecordByTag(Cfg(), st, t, n.0.value.value);
      return Ok(false), recorded', open', st';
    }

    /**
     * What the loop of `parseInput` does with a token read from `cursor` up to `cursor'`: a start
     * tag with a handler gets a context, kept open unless the tag is empty; an end tag closes an
     * open context; other tokens change nothing.
     */
    method RecordToken(t: Token, cursor: int, cursor': int, recorded: seq<ElementContext>, open: seq<ElementContext>,
                       ghost st: PassState)
      returns (recorded': seq<ElementContext>, open': seq<ElementContext>, ghost st': PassState)
      requires ParseState(cursor, recorded, open) && Abstracts(recorded, open, st)
      requires 0 <= cursor <= t.start < t.end == cursor' <= |input| && |t.names| == |t.values|
      modifies set c | c in open
      ensures ParseState(cursor', recorded', open')
      ensures forall c :: c in recorded' ==> c in recorded || fresh(c)
      ensures st' == Record(Cfg(), st, t) && Abstracts(recorded', open', st')
    {
      recorded', open', st' := recorded, open, Record(Cfg(), st, t);
      match t.kind {
        case StartElement =>
          recorded', open' := RecordStartTag(t, cursor, cursor', recorded, open, st);
        case EndElement =>
          open' := RecordEndTag(t, cursor, cursor', recorded, open, st);
        case _ =>
      }
    }

    /** A start tag with a handler gets a context, kept open unless the tag is empty. */
    method RecordStartTag(t: Token, cursor: int, cursor': int, recorded: seq<ElementContext>, open: seq<ElementContext>,
                          ghost st: PassState)
      returns (recorded': seq<ElementContext>, open': seq<ElementContext>)
      requires t.kind == StartElement
      requires ParseState(cursor, recorded, open) && Abstracts(recorded, open, st)
      requires 0 <= cursor <= t.start < t.end == cursor' <= |input| && |t.names| == |t.values|
      ensures ParseState(cursor', recorded', open')
      ensures forall c :: c in recorded' ==> c in recorded || fresh(c)
      ensures Abstracts(recorded', open', Record(Cfg(), st, t))
    {
      recorded', open' := recorded, open;
      var ctx := RecordStart(t.start, t.end, t.isEmpty, t.name, t.names, t.values);
      if ctx.Some? {
        recorded' := recorded + [ctx.value];
        if !t.isEmpty {
          open' := open + [ctx.value];
        }
      }
    }

    /** An end tag closes the innermost open context with its name, popping those above it. */
    method RecordEndTag(t: Token, cursor: int, cursor': int, recorded: seq<ElementContext>, open: seq<ElementContext>,
                        ghost st: PassState)
      returns (open': seq<ElementContext>)
      requires t.kind == EndElement
      requires ParseState(cursor, recorded, open) && Abstracts(recorded, open, st)
      requires 0 <= cursor <= t.start < t.end == cursor' <= |input|
      modifies set c | c in open
      ensures ParseState(cursor', recorded, open')
      ensures Abstracts(recorded, open', Record(Cfg(), st, t))
    {
      RecordedDistinct(cursor, recorded, open);
      ghost var st';
      open', st' := CloseOpen(t.name, t.start, t.end, open, recorded, st);
    }

    /** Recorded contexts lie one after the other, so none is recorded twice. */
    lemma RecordedDistinct(cursor: int, recorded: seq<ElementContext>, open: seq<ElementContext>)
      requires ParseState(cursor, recorded, open)
      ensures Distinct(recorded)
    {
      forall i, j | 0 <= i < |recorded| && 0 <= j < |recorded| && i != j
        ensures recorded[i] != recorded[j]
      {
        assert recorded[i] in recorded && recorded[j] in recorded;
      }
    }

    /** The context `parseInput` records for a start tag, if some handler will run on it. */
    method RecordStart(start: int, end: int, isEmpty: bool, tagName: string, names: seq<string>, values: seq<string>)
      returns (ctx: Option<ElementContext>)
      requires 0 <= start < end <= |input| && |names| == |values|
      ensures ctx.Some? <==> defaultHandler.Some? || ElementKey(tagName) in handlers
      ensures ctx.Some? ==> fresh(ctx.value) && Recorded(ctx.value) && ctx.value.Unchanged()
      ensures ctx.Some? ==> ctx.value.openTagStart == start && ctx.value.openTagEnd == end
      ensures ctx.Some? ==> ctx.value.emptyElement == isEmpty && ctx.value.tagName == tagName
      ensures ctx.Some? ==> ctx.value.attNames == names && ctx.value.attValues == values
      ensures ctx.Some? ==> ctx.value.closeTagStart == -1 && ctx.value.closeTagEnd == -1
    {
      if defaultHandler.Some? || ElementKey(tagName) in handlers {
        var c := new ElementContext(input, start, end, isEmpty, tagName, names, values);
        c.SetIgnoreAttributeCase(ignoreAttributeCase);
        return Some(c);
      }
      return None;
    }

    /**
     * What an end tag named `tagName` does to the stack of open contexts: pop until one has that
     * name, and give that one (only) the close tag's offsets. If none has it, the stack empties.
     */
    method CloseOpen(tagName: string, start: int, end: int, open: seq<ElementContext>,
                     ghost recorded: seq<ElementContext>, ghost st: PassState)
      returns (open': seq<ElementContext>, ghost st': PassState)
      requires forall c :: c in open ==> c.Valid() && c.openTagEnd <= start <= end <= |c.input|
      requires Abstracts(recorded, open, st) && Distinct(recorded)
      modifies set c | c in open
      ensures |open'| <= |open| && open' == open[..|open'|]
      ensures open != [] ==> |open'| < |open|
      ensures forall k :: |open'| < k < |open| ==> !SameElementName(tagName, open[k].tagName)
      ensures |open'| < |open| && !SameElementName(tagName, open[|open'|].tagName) ==> open' == []
      ensures |open'| < |open| && SameElementName(tagName, open[|open'|].tagName) ==>
        open[|open'|].closeTagStart == start && open[|open'|].closeTagEnd == end
      ensures forall c :: c in open && (|open'| == |open| || c != open[|open'|] || !SameElementName(tagName, c.tagName)) ==>
        unchanged(c)
      ensures forall c :: c in open ==>
        c.Valid() && c.attNames == old(c.attNames) && c.attValues == old(c.attValues)
        && c.ignoreAttributeCase == old(c.ignoreAttributeCase) && c.Unchanged() == old(c.Unchanged())
      ensures st' == CloseIn(ignoreElementCase, st.recs, st.open, tagName, start, end) && Abstracts(recorded, open', st')
    {
      var m := PopTo(tagName, open);
      st' := CloseIn(ignoreElementCase, st.recs, st.open, tagName, start, end);
      forall k | m < k < |open|
        ensures !SameNameUnder(ignoreElementCase, tagName, st.recs[st.open[k]].name)
      {
        assert Holds(recorded[st.open[k]], st.recs[st.open[k]]);
      }
      if m < 0 {
        CloseInAt(ignoreElementCase, st.recs, st.open, tagName, start, end, m);
        return [], st';
      }
      CloseInAt(ignoreElementCase, st.recs, st.open, tagName, start, end, m);
      CloseAt(m, start, end, open, recorded, st);
      open' := open[..m];
    }

    /** The close of the open context at `m`: it alone gets the close tag's offsets, as its record does. */
    method CloseAt(m: int, start: int, end: int, open: seq<ElementContext>,
                   ghost recorded: seq<ElementContext>, ghost st: PassState)
      requires 0 <= m < |open|
      requires forall c :: c in open ==> c.Valid() && c.openTagEnd <= start <= end <= |c.input|
      requires Abstracts(recorded, open, st) && Distinct(recorded)
      modifies open[m]
      ensures open[m].closeTagStart == start && open[m].closeTagEnd == end
      ensures forall c :: c in open ==>
        c.Valid() && c.attNames == old(c.attNames) && c.attValues == old(c.attValues)
        && c.ignoreAttributeCase == old(c.ignoreAttributeCase) && c.Unchanged() == old(c.Unchanged())
      ensures HoldAll(recorded, st.recs[st.open[m] := st.recs[st.open[m]].(closeStart := start, closeEnd := end)])
    {
      ghost var j := st.open[m];
      ghost var recs' := st.recs[j := st.recs[j].(closeStart := start, closeEnd := end)];
      assert Holds(recorded[j], st.recs[j]);
      var ctx := open[m];
      assert ctx in open;
      ctx.SetClosingTagOffset(start, end);
      forall i | 0 <= i < |recorded|
        ensures Holds(recorded[i], recs'[i])
      {
        if i != j {
          assert recorded[i] != ctx;
        }
      }
    }

    /** The popping loop of an end tag: the innermost open context with the tag's name, or -1 when none has it. */
    method PopTo(tagName: string, open: seq<ElementContext>) returns (m: int)
      ensures -1 <= m < |open|
      ensures forall k :: m < k < |open| ==> !SameElementName(tagName, open[k].tagName)
      ensures m >= 0 ==> SameElementName(tagName, open[m].tagName)
    {
      m := |open| - 1;
      while m >= 0 && !SameElementName(tagName, open[m].tagName)
        invariant -1 <= m < |open|
        invariant forall k :: m < k < |open| ==> !SameElementName(tagName, open[k].tagName)
      {
        m := m - 1;
      }
    }

    /**
     * `process(input, output)`: records the contexts, then walks them in order, copying the
     * input up to each element, letting its handler run, and writing what the handler asked
     * for. `withOutput == false` is `process(input)`, a null output: handlers run, nothing is
     * written. Contexts that start inside a replaced non-empty element are skipped.
     */
    method Process(input: string, withOutput: bool) returns (r: Result<string>, ghost visited: seq<int>)
      modifies this
      ensures this.input == input
      ensures handlers == old(handlers) && defaultHandler == old(defaultHandler)
      ensures ignoreElementCase == old(ignoreElementCase) && ignoreAttributeCase == old(ignoreAttributeCase)
      ensures forall c :: c in elements ==> fresh(c)
      ensures withOutput ==> r == Output(input, Cfg())
      ensures !withOutput ==> r == if Pass().Err? then Err(Pass().error) else Ok("")
      ensures Pass().Err? ==> elements == []
      ensures Pass().Ok? ==> |elements| == |Pass().value| && forall i :: 0 <= i < |elements| ==> Opens(elements[i], Pass().value[i])
      ensures withOutput && AllSilent() && Pass().Ok? ==> r == Ok(input)
      ensures old(defaultHandler).None? && old(handlers) == map[] ==> elements == []
      ensures forall k :: 0 <= k < |visited| ==> 0 <= visited[k] < |elements|
      ensures forall k, l :: 0 <= k < l < |visited| ==> visited[k] < visited[l]
      ensures forall i, j ::
        (0 <= i < j < |elements| && i in visited && Replaces(elements[i], withOutput)
         && elements[j].openTagStart < elements[i].closeTagEnd) ==> j !in visited
      ensures r.Ok? ==> forall j :: 0 <= j < |elements| && j !in visited ==> SkippedInside(j, visited, withOutput)
      ensures forall j :: 0 <= j < |elements| && j !in visited ==> elements[j].Unchanged()
    {
      this.input := input;
      elements := [];
      r, visited := Run(withOutput);
      if Pass().Ok? && defaultHandler.None? && handlers == map[] {
        UnhandledRecordsNothing(input, Cfg(), 0, PassState([], []));
      }
      if withOutput && AllSilent() && Pass().Ok? {
        SilentOutput(input, Cfg());
      }
    }

    /** Both passes of `process` over the input already set: what `Output` gives, and the visits. */
    method Run(withOutput: bool) returns (r: Result<string>, ghost visited: seq<int>)
      requires elements == []
      modifies this`elements
      ensures forall c :: c in elements ==> fresh(c)
      ensures withOutput ==> r == Output(input, Cfg())
      ensures !withOutput ==> r == if Pass().Err? then Err(Pass().error) else Ok("")
      ensures Pass().Err? ==> elements == []
      ensures Pass().Ok? ==> |elements| == |Pass().value| && forall i :: 0 <= i < |elements| ==> Opens(elements[i], Pass().value[i])
      ensures forall k :: 0 <= k < |visited| ==> 0 <= visited[k] < |elements|
      ensures forall k, l :: 0 <= k < l < |visited| ==> visited[k] < visited[l]
      ensures forall i, j ::
        (0 <= i < j < |elements| && i in visited && Replaces(elements[i], withOutput)
         && elements[j].openTagStart < elements[i].closeTagEnd) ==> j !in visited
      ensures r.Ok? ==> forall j :: 0 <= j < |elements| && j !in visited ==> SkippedInside(j, visited, withOutput)
      ensures forall j :: 0 <= j < |elements| && j !in visited ==> elements[j].Unchanged()
    {
      visited := [];
      var parsed := ParseAll();
      if parsed.Err? {
        return Err(parsed.error), visited;
      }
      ghost var recs := Pass().value;
      FirstPassOk(input, Cfg(), 0, PassState([], []));
      r, visited := SecondPass(withOutput, recs);
    }

    /**
     * The first pass of `process`: `parseInput`, whose contexts become `elements` when it
     * succeeds; they hold the records of the first pass, close tags included.
     */
    method ParseAll() returns (r: Result<()>)
      requires elements == []
      modifies this`elements
      ensures r.Err? ==> Pass() == Err(r.error) && elements == []
      ensures r.Ok? ==> Pass().Ok? && HoldAll(elements, Pass().value)
      ensures forall c :: c in elements ==>
        fresh(c) && c.Valid() && c.Unchanged() && c.input == input && c.openTagStart < c.openTagEnd
        && c.ignoreAttributeCase == ignoreAttributeCase
      ensures forall i, j :: 0 <= i < j < |elements| ==> elements[i].openTagEnd <= elements[j].openTagStart
    {
      var parsed := ParseInput();
      if parsed.Err? {
        return Err(parsed.error);
      }
      assert forall c :: c in parsed.value ==> Recorded(c);
      elements := parsed.value;
      return Ok(());
    }

    /** A context as the first pass left it for a record: holding it, valid, unchanged, over the input. */
    ghost predicate Pristine(c: ElementContext, r: Rec)
      reads this, c
    {
      Holds(c, r) && c.Valid() && c.Unchanged() && c.input == input && c.ignoreAttributeCase == ignoreAttributeCase
    }

    /**
     * The second pass of `process` over the recorded contexts, for the records `recs` they hold:
     * with output it writes what `Render` gives from the first record; without, it writes
     * nothing and cannot fail. `visited` lists, in order, the contexts whose handler was called:
     * with output, every context except those that start inside an element replaced before
     * them, and no context inside one; contexts not visited are left as they were.
     */
    method SecondPass(withOutput: bool, ghost recs: seq<Rec>) returns (r: Result<string>, ghost visited: seq<int>)
      requires forall c :: c in elements ==> c.Valid() && c.input == input && c.openTagStart < c.openTagEnd
      requires forall i, j :: 0 <= i < j < |elements| ==> elements[i].openTagEnd <= elements[j].openTagStart
      requires RecsOk(input, recs) && |recs| == |elements|
      requires forall j :: 0 <= j < |elements| ==> Pristine(elements[j], recs[j])
      modifies set c | c in elements
      ensures withOutput ==> r == Render(input, Cfg(), recs, 0, 0)
      ensures !withOutput ==> r == Ok("")
      ensures forall k :: 0 <= k < |visited| ==> 0 <= visited[k] < |elements|
      ensures forall k, l :: 0 <= k < l < |visited| ==> visited[k] < visited[l]
      ensures forall i, j ::
        (0 <= i < j < |elements| && i in visited && Replaces(elements[i], withOutput)
         && elements[j].openTagStart < elements[i].closeTagEnd) ==> j !in visited
      ensures r.Ok? ==> forall j :: 0 <= j < |elements| && j !in visited ==> SkippedInside(j, visited, withOutput)
      ensures forall j :: 0 <= j < |elements| && j !in visited ==> unchanged(elements[j])
    {
      var failed, copyPos, out;
      ghost var reached;
      StartsIncrease();
      assert forall j :: 0 <= j < |elements| ==> elements[j] in elements;
      failed, copyPos, out, visited, reached := WalkContexts(withOutput, recs);
      if failed {
        return Err(IndexOutOfRange), visited;
      }
      if withOutput && copyPos < |input| {
        if copyPos < 0 {
          return Err(IndexOutOfRange), visited;
        }
        out := out + input[copyPos..];
      } else if withOutput {
        assert out + "" == out;
      }
      return Ok(out), visited;
    }

    /**
     * The loop of the second pass: visits the contexts in order until a copy fails or every
     * context was visited or skipped; `reached` is where it stopped. What it wrote, followed by
     * the rest of the rendering from where it stopped, is the rendering from the start.
     */
    method WalkContexts(withOutput: bool, ghost recs: seq<Rec>)
      returns (failed: bool, copyPos: int, out: string, ghost visited: seq<int>, ghost reached: int)
      requires Laid(recs) && PristineFrom(0, recs)
      modifies set c | c in elements
      ensures Walked(reached, visited, withOutput)
      ensures failed ==> withOutput && Render(input, Cfg(), recs, 0, 0) == Err(IndexOutOfRange)
      ensures !failed ==> reached == |elements| && Rendered(withOutput, recs, Render(input, Cfg(), recs, 0, 0), |elements|, copyPos, out)
      ensures forall j :: 0 <= j < |elements| && j !in visited ==> unchanged(elements[j])
    {
      var currentIdx := 0;
      copyPos, out, visited := 0, "", [];
      ghost var whole := Render(input, Cfg(), recs, 0, 0);
      assert whole.Ok? ==> "" + whole.value == whole.value;
      while currentIdx < |elements|
        invariant Walking(withOutput, recs, whole, currentIdx, copyPos, out, visited)
        invariant forall j :: 0 <= j < |elements| && j !in visited ==> unchanged(elements[j])
        decreases |elements| - currentIdx
      {
        failed, currentIdx, copyPos, out, visited := VisitNext(withOutput, currentIdx, copyPos, out, visited, recs, whole);
        if failed {
          return true, copyPos, out, visited, currentIdx;
        }
      }
      return false, copyPos, out, visited, currentIdx;
    }

    /**
     * The state of the loop of the second pass before the context at `currentIdx`: what it
     * wrote, followed by the rendering from there, is `whole`, the rendering from the start;
     * the contexts from `currentIdx` on are as the first pass left them.
     */
    ghost predicate Walking(withOutput: bool, recs: seq<Rec>, whole: Result<string>,
                            currentIdx: int, copyPos: int, out: string, visited: seq<int>)
      reads this, set c | c in elements
    {
      Laid(recs) && Walked(currentIdx, visited, withOutput) && PristineFrom(currentIdx, recs)
      && Rendered(withOutput, recs, whole, currentIdx, copyPos, out)
    }

    /** The recorded contexts, valid and in order, stand for the records `recs`. */
    ghost predicate Laid(recs: seq<Rec>)
      reads this, set c | c in elements
    {
      (forall c :: c in elements ==> c.Valid() && c.input == input)
      && (forall i, j :: 0 <= i < j < |elements| ==> elements[i].openTagStart < elements[j].openTagStart)
      && RecsOk(input, recs) && |recs| == |elements|
      && (forall j :: 0 <= j < |elements| ==> elements[j].openTagStart == recs[j].start)
    }

    /** The contexts from `from` on are as the first pass left them for their records. */
    ghost predicate PristineFrom(from: int, recs: seq<Rec>)
      reads this, set c | c in elements
      requires |recs| == |elements|
    {
      forall j :: 0 <= from <= j < |elements| ==> Pristine(elements[j], recs[j])
    }

    /** What the second pass wrote, followed by the rendering from `currentIdx`, is `whole`. */
    ghost predicate Rendered(withOutput: bool, recs: seq<Rec>, whole: Result<string>, currentIdx: int, copyPos: int,
                             out: string)
      reads this
      requires RecsOk(input, recs) && 0 <= currentIdx <= |recs|
    {
      (!withOutput ==> out == "")
      && (withOutput ==> whole == Prefixed(out, Render(input, Cfg(), recs, currentIdx, copyPos)))
    }

    /**
     * Where the second pass stands before the context at `currentIdx`: `visited` lists in order
     * the contexts handled so far, none inside an element replaced before it, and every context
     * passed over lies inside such an element.
     */
    ghost predicate Walked(currentIdx: int, visited: seq<int>, withOutput: bool)
      reads this, set c | c in elements
    {
      0 <= currentIdx <= |elements|
      && (forall k :: 0 <= k < |visited| ==> 0 <= visited[k] < currentIdx)
      && (forall k, l :: 0 <= k < l < |visited| ==> visited[k] < visited[l])
      && (forall i, j ::
            (0 <= i < j < |elements| && i in visited && Replaces(elements[i], withOutput)
             && elements[j].openTagStart < elements[i].closeTagEnd) ==> j < currentIdx && j !in visited)
      && (forall j :: 0 <= j < currentIdx && j !in visited ==> SkippedInside(j, visited, withOutput))
    }

    /**
     * One pass of the loop of the second pass: visit the context at `currentIdx`, then skip the
     * contexts inside it when it was replaced. What it writes is one step of the rendering; a
     * failed copy calls no handler and is the rendering's range error.
     */
    method VisitNext(withOutput: bool, currentIdx: int, copyPos: int, out: string, ghost visited: seq<int>,
                     ghost recs: seq<Rec>, ghost whole: Result<string>)
      returns (failed: bool, currentIdx': int, copyPos': int, out': string, ghost visited': seq<int>)
      requires Walking(withOutput, recs, whole, currentIdx, copyPos, out, visited) && currentIdx < |elements|
      modifies elements[currentIdx]
      ensures failed ==> visited' == visited && currentIdx' == currentIdx && unchanged(elements[currentIdx])
      ensures failed ==> Walked(currentIdx, visited, withOutput)
      ensures !failed ==> visited' == visited + [currentIdx] && currentIdx < currentIdx'
      ensures !failed ==> Walking(withOutput, recs, whole, currentIdx', copyPos', out', visited')
      ensures forall j :: 0 <= j < |elements| && j !in visited' ==> unchanged(elements[j])
      ensures !withOutput ==> !failed
      ensures withOutput && failed ==> whole == Err(IndexOutOfRange)
    {
      var replaced;
      ghost var r := recs[currentIdx];
      failed, copyPos', out', replaced := VisitAt(withOutput, currentIdx, copyPos, out, visited, r);
      if failed {
        return true, currentIdx, copyPos, out, visited;
      }
      visited' := visited + [currentIdx];
      currentIdx' := Advance(withOutput, currentIdx, replaced, visited, recs);
      forall j | currentIdx' <= j < |elements|
        ensures Pristine(elements[j], recs[j])
      {
        assert old(Pristine(elements[j], recs[j]));
      }
      if withOutput {
        RenderStep(input, Cfg(), recs, currentIdx, copyPos, out);
      }
    }

    /**
     * What follows the visit of the context at `idx` in the loop of the second pass: when it was
     * replaced, the contexts starting inside it are passed over, as `SkipFrom` says; `idx` joins
     * the visited ones.
     */
    method Advance(withOutput: bool, idx: int, replaced: bool, ghost visited: seq<int>, ghost recs: seq<Rec>)
      returns (next: int)
      requires forall c :: c in elements ==> c.Valid() && c.input == input
      requires forall i, j :: 0 <= i < j < |elements| ==> elements[i].openTagStart < elements[j].openTagStart
      requires 0 <= idx < |elements| && Walked(idx, visited, withOutput)
      requires replaced && !elements[idx].emptyElement <==> Replaces(elements[idx], withOutput)
      requires |recs| == |elements| && forall j :: 0 <= j < |elements| ==> elements[j].openTagStart == recs[j].start
      requires elements[idx].closeTagEnd == recs[idx].closeEnd && elements[idx].emptyElement == recs[idx].isEmpty
      ensures idx < next <= |elements|
      ensures Walked(next, visited + [idx], withOutput)
      ensures next == if replaced && !recs[idx].isEmpty then SkipFrom(recs, idx + 1, recs[idx].closeEnd) else idx + 1
    {
      var ctx := elements[idx];
      next := idx + 1;
      if replaced && !ctx.emptyElement {
        next := SkipStartingBefore(next, ctx.closeTagEnd, recs);
      }
      WalkOn(withOutput, idx, visited, next);
    }

    /**
     * The visit of the context at `idx` on its own: it changes that context only, and so keeps
     * what the second pass recorded about the contexts before it. With output it copies the
     * input up to the element and writes the element's visit as `VisitOf` gives it.
     */
    method VisitAt(withOutput: bool, idx: int, copyPos: int, out: string, ghost visited: seq<int>, ghost r: Rec)
      returns (failed: bool, copyPos': int, out': string, replaced: bool)
      requires forall c :: c in elements ==> c.Valid() && c.input == input
      requires forall i, j :: 0 <= i < j < |elements| ==> elements[i].openTagStart < elements[j].openTagStart
      requires 0 <= idx < |elements| && Walked(idx, visited, withOutput)
      requires Pristine(elements[idx], r) && RecOk(input, r)
      modifies elements[idx]
      ensures forall c :: c in elements ==> c.Valid() && c.input == input
      ensures forall i :: 0 <= i < |elements| && i != idx ==> unchanged(elements[i])
      ensures Walked(idx, visited, withOutput)
      ensures elements[idx].closeTagEnd == old(elements[idx].closeTagEnd)
      ensures !withOutput ==> out' == out && !replaced && !failed
      ensures !failed ==>
        (replaced <==> withOutput && HandlerFor(elements[idx].tagName).Some?
                       && (elements[idx].replacedElem.Some? || elements[idx].replacedCont.Some?))
      ensures failed ==> withOutput && !(0 <= copyPos <= elements[idx].openTagStart) && unchanged(elements[idx])
      ensures withOutput && !failed ==>
        var v := VisitOf(input, Cfg(), r);
        0 <= copyPos <= r.start && out' == out + input[copyPos..r.start] + v.0 && copyPos' == v.1 && replaced == v.2
    {
      var ctx := elements[idx];
      assert ctx in elements;
      failed, copyPos', out', replaced := VisitElement(ctx, withOutput, copyPos, out, r);
      forall i | 0 <= i < |elements| && i != idx
        ensures elements[i] != ctx && unchanged(elements[i])
      {
      }
      if failed {
        return;
      }
      forall k | 0 <= k < |visited|
        ensures visited[k] != idx && unchanged(elements[visited[k]])
      {
      }
      forall i | i in visited
        ensures 0 <= i < idx && Replaces(elements[i], withOutput) == old(Replaces(elements[i], withOutput))
      {
        var k :| 0 <= k < |visited| && visited[k] == i;
      }
      forall j | 0 <= j < idx && j !in visited
        ensures SkippedInside(j, visited, withOutput)
      {
        assert old(SkippedInside(j, visited, withOutput));
        var i :| 0 <= i < j && i in visited && old(Replaces(elements[i], withOutput))
                 && elements[j].openTagStart < old(elements[i].closeTagEnd);
        assert Replaces(elements[i], withOutput);
      }
    }

    /**
     * Visiting the context at `idx` and then passing over those that start inside it, when it is
     * replaced, keeps the second pass's record of what it handled: `idx` is handled, and every
     * context skipped lies inside it.
     */
    lemma WalkOn(withOutput: bool, idx: int, visited: seq<int>, next: int)
      requires Walked(idx, visited, withOutput) && idx < |elements|
      requires idx < next <= |elements|
      requires !Replaces(elements[idx], withOutput) ==> next == idx + 1
      requires forall j :: idx < j < next ==> elements[j].openTagStart < elements[idx].closeTagEnd
      requires Replaces(elements[idx], withOutput) ==>
        forall j :: next <= j < |elements| ==> elements[idx].closeTagEnd <= elements[j].openTagStart
      ensures Walked(next, visited + [idx], withOutput)
    {
      var visited' := visited + [idx];
      forall k | 0 <= k < |visited'|
        ensures 0 <= visited'[k] < next
      {
        if k < |visited| {
          assert visited'[k] == visited[k];
        }
      }
      forall k, l | 0 <= k < l < |visited'|
        ensures visited'[k] < visited'[l]
      {
        assert visited'[k] == visited[k];
        if l < |visited| {
          assert visited'[l] == visited[l];
        }
      }
      forall i, j |
        (0 <= i < j < |elements| && i in visited' && Replaces(elements[i], withOutput)
         && elements[j].openTagStart < elements[i].closeTagEnd)
        ensures j < next && j !in visited'
      {
        if i != idx {
          assert i in visited;
        }
      }
      forall j | 0 <= j < next && j !in visited'
        ensures SkippedInside(j, visited', withOutput)
      {
        if j < idx {
          assert SkippedInside(j, visited, withOutput);
          var i :| 0 <= i < j && i in visited && Replaces(elements[i], withOutput)
                   && elements[j].openTagStart < elements[i].closeTagEnd;
          assert i in visited' && Replaces(elements[i], withOutput);
        } else {
          assert idx in visited' && Replaces(elements[idx], withOutput);
        }
      }
    }

    /**
     * The skipping loop of the second pass: from `from`, the index of the first context that
     * starts at or after `elemEnd`, or the end of the list.
     */
    method SkipStartingBefore(from: int, elemEnd: int, ghost recs: seq<Rec>) returns (next: int)
      requires 0 <= from <= |elements|
      requires forall i, j :: 0 <= i < j < |elements| ==> elements[i].openTagStart < elements[j].openTagStart
      requires |recs| == |elements| && forall j :: 0 <= j < |elements| ==> elements[j].openTagStart == recs[j].start
      ensures from <= next <= |elements|
      ensures forall j :: from <= j < next ==> elements[j].openTagStart < elemEnd
      ensures forall j :: next <= j < |elements| ==> elemEnd <= elements[j].openTagStart
      ensures next == SkipFrom(recs, from, elemEnd)
    {
      next := from;
      while next < |elements| && elements[next].openTagStart < elemEnd
        invariant from <= next <= |elements|
        invariant forall j :: from <= j < next ==> elements[j].openTagStart < elemEnd
        invariant SkipFrom(recs, next, elemEnd) == SkipFrom(recs, from, elemEnd)
        decreases |elements| - next
      {
        next := next + 1;
      }
    }

    /** Recorded contexts start at strictly increasing offsets, so no context is recorded twice. */
    lemma StartsIncrease()
      requires forall c :: c in elements ==> c.openTagStart < c.openTagEnd
      requires forall i, j :: 0 <= i < j < |elements| ==> elements[i].openTagEnd <= elements[j].openTagStart
      ensures forall i, j :: 0 <= i < j < |elements| ==> elements[i].openTagStart < elements[j].openTagStart
    {
      forall i, j | 0 <= i < j < |elements|
        ensures elements[i].openTagStart < elements[j].openTagStart
      {
        assert elements[i] in elements;
      }
    }

    /**
     * One element of the second pass of `process`: copy the input up to the element, run its
     * handler, and write what the handler asked for, as `VisitOf` gives it for the record the
     * context holds. `failed` is the substring range error Java would throw; `replaced` says
     * whether the elements inside this one are to be skipped.
     */
    method VisitElement(ctx: ElementContext, withOutput: bool, copyPos: int, out: string, ghost r: Rec)
      returns (failed: bool, copyPos': int, out': string, replaced: bool)
      requires Pristine(ctx, r) && RecOk(input, r)
      modifies ctx
      ensures ctx.Valid() && ctx.closeTagStart == old(ctx.closeTagStart) && ctx.closeTagEnd == old(ctx.closeTagEnd)
      ensures !withOutput ==> out' == out && !replaced && !failed
      ensures !failed ==>
        (replaced <==> withOutput && HandlerFor(ctx.tagName).Some? && (ctx.replacedElem.Some? || ctx.replacedCont.Some?))
      ensures failed ==> withOutput && !(0 <= copyPos <= ctx.openTagStart) && unchanged(ctx)
      ensures withOutput && !failed ==>
        var v := VisitOf(input, Cfg(), r);
        0 <= copyPos <= r.start && out' == out + input[copyPos..r.start] + v.0 && copyPos' == v.1 && replaced == v.2
    {
      failed, copyPos', out', replaced := false, copyPos, out, false;
      if withOutput {
        var elemStart := ctx.openTagStart;
        if !(0 <= copyPos <= elemStart) {
          return true, copyPos, out, false;
        }
        out' := out + ctx.input[copyPos..elemStart];
        copyPos' := elemStart;
      }
      var h := HandlerFor(ctx.tagName);
      if h.Some? {
        assert ctx.View() == ViewOf(input, r, ignoreAttributeCase);
        assert EditOf(ctx) == InitEdit(r);
        ProcessElement(h.value, ctx);
        if withOutput {
          var text, newPos;
          text, newPos, replaced := RewriteElement(ctx, r);
          out', copyPos' := out' + text, newPos;
        }
      }
    }
  }

  /**
   * What the second pass writes for a context after its handler ran, starting at the element's
   * open tag, with the new copy position and whether the element was replaced: `RewriteOf` of
   * the record the context stands for and the handler's edit.
   */
  method RewriteElement(ctx: ElementContext, ghost r: Rec) returns (text: string, copyPos: int, replaced: bool)
    requires ctx.Valid() && Placed(ctx, r) && RecOk(ctx.input, r)
    ensures (text, copyPos, replaced) == RewriteOf(ctx.input, r, EditOf(ctx))
  {
    var elemEnd := if ctx.emptyElement then ctx.openTagEnd else ctx.closeTagEnd;
    if ctx.replacedElem.Some? {
      return ctx.replacedElem.value, elemEnd, true;
    }
    text := OpenTagText(ctx, r);
    copyPos, replaced := if ctx.attribChanged then ctx.openTagEnd else ctx.openTagStart, false;
    if ctx.replacedCont.Some? {
      text := text + ctx.replacedCont.value + "</" + ctx.tagName + ">";
      copyPos, replaced := elemEnd, true;
    }
  }

  /**
   * The open tag `RewriteElement` writes for an element that is not replaced: rewritten with the
   * changed attributes, or kept from the input when only the content is replaced (an empty
   * element's "/>" becoming ">"), or nothing.
   */
  method OpenTagText(ctx: ElementContext, ghost r: Rec) returns (text: string)
    requires ctx.Valid() && ctx.replacedElem.None? && Placed(ctx, r) && RecOk(ctx.input, r)
    ensures text == OpenTagOf(ctx.input, r, EditOf(ctx))
    ensures (!ctx.attribChanged && ctx.replacedCont.Some? && ctx.emptyElement && ctx.openTagStart + 2 < ctx.openTagEnd
             && ctx.input[ctx.openTagEnd - 2..ctx.openTagEnd] == "/>") ==>
      text == ctx.input[ctx.openTagStart..ctx.openTagEnd - 2] + ">"
  {
    text := "";
    if ctx.attribChanged {
      var attrs := WriteAttributes(ctx.attNames, ctx.attValues);
      text := "<" + ctx.tagName + attrs + (if ctx.emptyElement && ctx.replacedCont.None? then "/>" else ">");
    } else if ctx.replacedCont.Some? {
      if ctx.emptyElement {
        var idx := LastIndexOf(ctx.input, "/>", ctx.openTagEnd - 1);
        if ctx.openTagStart + 2 < ctx.openTagEnd && ctx.input[ctx.openTagEnd - 2..ctx.openTagEnd] == "/>" {
          assert MatchesAt(ctx.input, "/>", ctx.openTagEnd - 2);
          assert ctx.input[ctx.openTagEnd - 1] == ctx.input[ctx.openTagEnd - 2..ctx.openTagEnd][1] == '>';
          assert !MatchesAt(ctx.input, "/>", ctx.openTagEnd - 1);
        }
        if idx > ctx.openTagStart {
          text := ctx.input[ctx.openTagStart..idx] + ">";
        }
      } else {
        text := ctx.input[ctx.openTagStart..ctx.openTagEnd];
      }
    }
  }
}
