/*
 * XMLUtil: the two CSS-class rewriters built on the XML processor, and the two escapes. A
 * handler reads the element's `class` attribute and makes at most one `setAttribute` call, so
 * each handler is the function from the old class value to the value it writes.
 */
module XmlUtil {
  import opened Wrappers
  import opened JavaText
  import opened XmlElementContext
  import opened XmlProcessor
  import opened XmlParser

  const ClassAttribute := "class"

  /** `(" " + cls + " ").contains(" " + c + " ")`: `c` is one of the space-delimited tokens of `cls`. */
  predicate HasClassToken(cls: string, c: string)
  {
    Contains(" " + cls + " ", " " + c + " ")
  }

  /**
   * The add handler on an element whose `class` value is `current` (None: no attribute): the
   * value it sets, or None when it makes no call.
   */
  function AddedClass(current: Option<string>, cssCls: string): (r: Option<string>)
    ensures current.None? ==> r == Some(cssCls)
    ensures current.Some? ==> (r.None? <==> HasClassToken(Trim(current.value), cssCls))
    ensures current.Some? && r.Some? ==> StartsWith(r.value, Trim(current.value)) && EndsWith(r.value, " " + cssCls)
  {
    if current.None? then Some(cssCls)
    else
      var cls := Trim(current.value);
      if HasClassToken(cls, cssCls) then None else Some(cls + " " + cssCls)
  }

  /**
   * The remove handler on an element whose `class` value is `current`: None when it makes no
   * call; Some(None) when it removes the attribute; Some(Some(v)) when it sets `v`.
   */
  function RemovedClass(current: Option<string>, cssCls: string): (r: Option<Option<string>>)
    ensures current.None? ==> r.None?
    ensures r.Some? ==> r.value != Some(Trim(current.value))
    ensures r.Some? && r.value.Some? ==> r.value.value != "" && IsTrimmedText(r.value.value)
  {
    if current.None? then None
    else
      var cls := Trim(current.value);
      var stripped := Trim(Replace(" " + cls + " ", " " + cssCls + " ", " "));
      if cls == stripped then None
      else Some(if stripped == "" then None else Some(stripped))
  }

  /** The `class` value a handler reads from the context. */
  function ClassValue(v: ElementView): Option<string>
    requires |v.attNames| == |v.attValues|
  {
    AttributeValue(v.attNames, v.attValues, ClassAttribute, v.ignoreAttributeCase)
  }

  /** `AddCSSClsHandler.processElement`: only on elements named `elementName`, ignoring case. */
  function AddCssActions(elementName: string, cssCls: string, v: ElementView): (r: seq<Action>)
    ensures !EqualsIgnoreCase(v.name, elementName) || |v.attNames| != |v.attValues| ==> r == []
    ensures r != [] ==> |v.attNames| == |v.attValues| && r == [SetAttribute(ClassAttribute, AddedClass(ClassValue(v), cssCls))]
    ensures |v.attNames| == |v.attValues| && EqualsIgnoreCase(v.name, elementName) ==>
      (r == [] <==> AddedClass(ClassValue(v), cssCls).None?)
  {
    if !EqualsIgnoreCase(v.name, elementName) || |v.attNames| != |v.attValues| then []
    else
      var val := AddedClass(ClassValue(v), cssCls);
      if val.None? then [] else [SetAttribute(ClassAttribute, val)]
  }

  /** `RemoveCSSClsHandler.processElement`. */
  function RemoveCssActions(elementName: string, cssCls: string, v: ElementView): (r: seq<Action>)
    ensures !EqualsIgnoreCase(v.name, elementName) || |v.attNames| != |v.attValues| ==> r == []
    ensures r != [] ==>
      |v.attNames| == |v.attValues| && RemovedClass(ClassValue(v), cssCls).Some?
      && r == [SetAttribute(ClassAttribute, RemovedClass(ClassValue(v), cssCls).value)]
    ensures |v.attNames| == |v.attValues| && EqualsIgnoreCase(v.name, elementName) ==>
      (r == [] <==> RemovedClass(ClassValue(v), cssCls).None?)
  {
    if !EqualsIgnoreCase(v.name, elementName) || |v.attNames| != |v.attValues| then []
    else
      var val := RemovedClass(ClassValue(v), cssCls);
      if val.None? then [] else [SetAttribute(ClassAttribute, val.value)]
  }

  function AddCssHandler(elementName: string, cssCls: string): Handler
  {
    Handler((v: ElementView) => AddCssActions(elementName, cssCls, v))
  }

  function RemoveCssHandler(elementName: string, cssCls: string): Handler
  {
    Handler((v: ElementView) => RemoveCssActions(elementName, cssCls, v))
  }

  /**
   * The processor `addCSSClass` and `removeCSSClass` set up: element names compared ignoring
   * case, `h` registered for the element name, no default handler, attribute case ignored.
   */
  function ClassSetup(elementName: string, h: Handler): Setup
  {
    Setup(true, true, map[Lower(elementName) := h], None)
  }

  /** `addCSSClass`: the input unchanged for an empty class or element name, else what `process` writes. */
  method AddCssClass(content: string, elementName: string, cssCls: string) returns (r: Result<string>)
    ensures cssCls == "" || elementName == "" ==> r == Ok(content)
    ensures cssCls != "" && elementName != "" ==> r == Output(content, ClassSetup(elementName, AddCssHandler(elementName, cssCls)))
  {
    if cssCls == "" || elementName == "" {
      return Ok(content);
    }
    var proc := new Processor();
    proc.SetIgnoreElementCase(true);
    proc.SetElementHandler(elementName, Some(AddCssHandler(elementName, cssCls)));
    ghost var visited;
    r, visited := proc.Process(content, true);
  }

  /** `removeCSSClass`: as `addCSSClass`, with the remove handler. */
  method RemoveCssClass(content: string, elementName: string, cssCls: string) returns (r: Result<string>)
    ensures cssCls == "" || elementName == "" ==> r == Ok(content)
    ensures cssCls != "" && elementName != "" ==> r == Output(content, ClassSetup(elementName, RemoveCssHandler(elementName, cssCls)))
  {
    if cssCls == "" || elementName == "" {
      return Ok(content);
    }
    var proc := new Processor();
    proc.SetIgnoreElementCase(true);
    proc.SetElementHandler(elementName, Some(RemoveCssHandler(elementName, cssCls)));
    ghost var visited;
    r, visited := proc.Process(content, true);
  }

  /** The open tag of `r` written again with the attributes `names` and `values`. */
  function RewrittenOpenTag(r: Rec, names: seq<string>, values: seq<string>): string
    requires |names| == |values|
  {
    "<" + r.name + AttributesText(names, values, |names|) + (if r.isEmpty then "/>" else ">")
  }

  /**
   * What `addCSSClass` writes for any element of the document: an element with the name (in any
   * case) whose class list lacks the class gets its open tag rewritten with `class` set to the
   * extended list, and copying resumes after the open tag; every other element is left to the copy.
   */
  lemma AddVisit(s: string, elementName: string, cssCls: string, r: Rec)
    requires RecOk(s, r)
    ensures var cls := AddedClass(AttributeValue(r.names, r.values, ClassAttribute, true), cssCls);
      VisitOf(s, ClassSetup(elementName, AddCssHandler(elementName, cssCls)), r)
      == if EqualsIgnoreCase(r.name, elementName) && cls.Some? then
           var l := SetAttributeLists(r.names, r.values, true, ClassAttribute, cls);
           (RewrittenOpenTag(r, l.0, l.1), r.end, false)
         else ("", r.start, false)
  {
    var cls := AddedClass(AttributeValue(r.names, r.values, ClassAttribute, true), cssCls);
    var v := ViewOf(s, r, true);
    assert ClassValue(v) == AttributeValue(r.names, r.values, ClassAttribute, true);
    if EqualsIgnoreCase(r.name, elementName) && cls.Some? {
      var setup := ClassSetup(elementName, AddCssHandler(elementName, cssCls));
      assert HandlerUnder(setup, r.name) == Some(AddCssHandler(elementName, cssCls));
      var acts := [SetAttribute(ClassAttribute, cls)];
      assert AddCssHandler(elementName, cssCls).respond(v) == acts;
      SetMarksChanged(r.names, r.values, true, ClassAttribute, cls);
      assert acts[..0] == [];
      var e := ActAll(InitEdit(r), true, acts);
      var l := SetAttributeLists(r.names, r.values, true, ClassAttribute, cls);
      assert ActAll(InitEdit(r), true, acts[..0]) == InitEdit(r);
      assert l.2;
      assert e == Act(InitEdit(r), true, acts[0]);
      assert RewriteOf(s, r, e) == (RewrittenOpenTag(r, l.0, l.1), r.end, false);
    }
  }

  /**
   * What `removeCSSClass` writes for any element of the document: an element with the name
   * whose class list changes gets its open tag rewritten with `class` set to what is left, or
   * removed; every other element is left to the copy.
   */
  lemma RemoveVisit(s: string, elementName: string, cssCls: string, r: Rec)
    requires RecOk(s, r)
    ensures var cls := RemovedClass(AttributeValue(r.names, r.values, ClassAttribute, true), cssCls);
      VisitOf(s, ClassSetup(elementName, RemoveCssHandler(elementName, cssCls)), r)
      == if EqualsIgnoreCase(r.name, elementName) && cls.Some? then
           var l := SetAttributeLists(r.names, r.values, true, ClassAttribute, cls.value);
           (RewrittenOpenTag(r, l.0, l.1), r.end, false)
         else ("", r.start, false)
  {
    var cls := RemovedClass(AttributeValue(r.names, r.values, ClassAttribute, true), cssCls);
    var v := ViewOf(s, r, true);
    assert ClassValue(v) == AttributeValue(r.names, r.values, ClassAttribute, true);
    if EqualsIgnoreCase(r.name, elementName) && cls.Some? {
      var setup := ClassSetup(elementName, RemoveCssHandler(elementName, cssCls));
      assert HandlerUnder(setup, r.name) == Some(RemoveCssHandler(elementName, cssCls));
      var acts := [SetAttribute(ClassAttribute, cls.value)];
      assert RemoveCssHandler(elementName, cssCls).respond(v) == acts;
      SetMarksChanged(r.names, r.values, true, ClassAttribute, cls.value);
      assert acts[..0] == [];
      var e := ActAll(InitEdit(r), true, acts);
      var l := SetAttributeLists(r.names, r.values, true, ClassAttribute, cls.value);
      assert ActAll(InitEdit(r), true, acts[..0]) == InitEdit(r);
      assert l.2;
      assert e == Act(InitEdit(r), true, acts[0]);
      assert RewriteOf(s, r, e) == (RewrittenOpenTag(r, l.0, l.1), r.end, false);
    }
  }

  /**
   * When every element with the name already lists the class, `addCSSClass` writes its input
   * back unchanged.
   */
  lemma AddPresentIsNoChange(s: string, elementName: string, cssCls: string)
    requires var pass := FirstPass(s, ClassSetup(elementName, AddCssHandler(elementName, cssCls)), 0, PassState([], []));
      pass.Ok? && forall r :: r in pass.value && EqualsIgnoreCase(r.name, elementName) && |r.names| == |r.values| ==>
        AddedClass(AttributeValue(r.names, r.values, ClassAttribute, true), cssCls).None?
    ensures Output(s, ClassSetup(elementName, AddCssHandler(elementName, cssCls))) == Ok(s)
  {
    var setup := ClassSetup(elementName, AddCssHandler(elementName, cssCls));
    var recs := FirstPass(s, setup, 0, PassState([], [])).value;
    FirstPassOk(s, setup, 0, PassState([], []));
    forall j | 0 <= j < |recs|
      ensures VisitOf(s, setup, recs[j]) == ("", recs[j].start, false)
    {
      assert recs[j] in recs;
      AddVisit(s, elementName, cssCls, recs[j]);
    }
    RenderUnchanged(s, setup, recs, 0, 0);
    assert s[0..] == s;
  }

  /**
   * When no element with the name lists the class, `removeCSSClass` writes its input back
   * unchanged.
   */
  lemma RemoveAbsentIsNoChangeAnywhere(s: string, elementName: string, cssCls: string)
    requires var pass := FirstPass(s, ClassSetup(elementName, RemoveCssHandler(elementName, cssCls)), 0, PassState([], []));
      pass.Ok? && forall r :: r in pass.value && EqualsIgnoreCase(r.name, elementName) && |r.names| == |r.values| ==>
        RemovedClass(AttributeValue(r.names, r.values, ClassAttribute, true), cssCls).None?
    ensures Output(s, ClassSetup(elementName, RemoveCssHandler(elementName, cssCls))) == Ok(s)
  {
    var setup := ClassSetup(elementName, RemoveCssHandler(elementName, cssCls));
    var recs := FirstPass(s, setup, 0, PassState([], [])).value;
    FirstPassOk(s, setup, 0, PassState([], []));
    forall j | 0 <= j < |recs|
      ensures VisitOf(s, setup, recs[j]) == ("", recs[j].start, false)
    {
      assert recs[j] in recs;
      RemoveVisit(s, elementName, cssCls, recs[j]);
    }
    RenderUnchanged(s, setup, recs, 0, 0);
    assert s[0..] == s;
  }

  /** `escapePCDATA`: '<' and '>' become `&lt;` and `&gt;`. */
  function EscapePCData(value: string): (r: string)
    ensures '<' !in r && '>' !in r
    ensures '<' !in value && '>' !in value ==> r == value
  {
    EscapeChar(EscapeChar(value, '<', "&lt;"), '>', "&gt;")
  }

  /** `escapeDoubleQuotedCDATA`: '"' becomes `&quot;`. */
  function EscapeDoubleQuotedCData(value: string): (r: string)
    ensures '"' !in r
    ensures '"' !in value ==> r == value
  {
    EscapeChar(value, '"', "&quot;")
  }

  /** Both escapes work character by character, so they distribute over concatenation. */
  lemma EscapesDistribute(a: string, b: string)
    ensures EscapePCData(a + b) == EscapePCData(a) + EscapePCData(b)
    ensures EscapeDoubleQuotedCData(a + b) == EscapeDoubleQuotedCData(a) + EscapeDoubleQuotedCData(b)
  {
    EscapeCharConcat(a, b, '<', "&lt;");
    EscapeCharConcat(EscapeChar(a, '<', "&lt;"), EscapeChar(b, '<', "&lt;"), '>', "&gt;");
    EscapeCharConcat(a, b, '"', "&quot;");
  }

  /**
   * Adding a class twice is adding it once: after the first call's value is in place, the
   * handler makes no further call.
   */
  lemma AddIsIdempotent(current: Option<string>, cssCls: string)
    requires IsTrimmedText(cssCls)
    ensures var after := if AddedClass(current, cssCls).Some? then AddedClass(current, cssCls) else current;
      AddedClass(after, cssCls).None?
  {
    if current.None? {
      TrimmedTrim(cssCls);
      assert MatchesAt(" " + cssCls + " ", " " + cssCls + " ", 0);
    } else if AddedClass(current, cssCls).Some? {
      AddedToken(Trim(current.value), cssCls);
    }
  }

  /** The class value the add handler sets holds the added token. */
  lemma AddedToken(cls: string, cssCls: string)
    requires IsTrimmedText(cssCls) && Trim(cls) == cls
    ensures HasClassToken(Trim(cls + " " + cssCls), cssCls)
  {
    var token := " " + cssCls + " ";
    var v := cls + " " + cssCls;
    if cls == [] {
      TrimAround(" ", cssCls, []);
      assert " " + cssCls + [] == v;
      assert " " + cssCls + " " == [] + token + [];
      ContainsInMiddle([], token, []);
    } else {
      assert v[0] == cls[0] && v[|v| - 1] == cssCls[|cssCls| - 1];
      TrimmedTrim(v);
      assert " " + v + " " == (" " + cls) + token + [];
      ContainsInMiddle(" " + cls, token, []);
    }
  }

  lemma ContainsInMiddle(a: string, t: string, b: string)
    ensures Contains(a + t + b, t)
  {
    var s := a + t + b;
    assert s[|a|..|a| + |t|] == t;
    assert MatchesAt(s, t, |a|);
  }

  /** `replace` leaves a string without a match of the target as it is. */
  lemma {:induction false} ReplaceAbsent(s: string, t: string, u: string)
    requires |t| > 0
    requires !Contains(s, t)
    ensures Replace(s, t, u) == s
    decreases |s|
  {
    if |s| >= |t| {
      assert !MatchesAt(s, t, 0);
      assert s[..|t|] != t;
      forall i | 0 <= i <= |s[1..]| - |t| && MatchesAt(s[1..], t, i)
        ensures false
      {
        assert s[1..][i..i + |t|] == s[i + 1..i + 1 + |t|];
        assert MatchesAt(s, t, i + 1);
      }
      ReplaceAbsent(s[1..], t, u);
      assert [s[0]] + s[1..] == s;
    }
  }

  /** Removing a class that is not one of the tokens makes no call. */
  lemma RemoveAbsentIsNoChange(current: Option<string>, cssCls: string)
    requires current.Some? && !HasClassToken(Trim(current.value), cssCls)
    ensures RemovedClass(current, cssCls).None?
  {
    var cls := Trim(current.value);
    ReplaceAbsent(" " + cls + " ", " " + cssCls + " ", " ");
    TrimAround(" ", cls, " ");
  }

  /** Removing the only class removes the attribute; so remove undoes an add on an element without one. */
  lemma RemoveSoleClass(current: Option<string>, cssCls: string)
    requires IsTrimmedText(cssCls)
    requires current.Some? && Trim(current.value) == cssCls
    ensures RemovedClass(current, cssCls) == Some(None)
    ensures RemovedClass(AddedClass(None, cssCls), cssCls) == Some(None)
  {
    var token := " " + cssCls + " ";
    assert Replace(token, token, " ") == " " + Replace([], token, " ");
    assert Trim(" ") == [] by { TrimAround(" ", [], []); assert " " + [] + [] == " "; }
    TrimmedTrim(cssCls);
  }

  // ------------------------------------------------------------ removal among other classes

  /** A class token: non-empty, with no blank or control character, so `trim()` keeps it whole. */
  predicate IsClassToken(t: string)
  {
    t != [] && forall i :: 0 <= i < |t| ==> t[i] > ' '
  }

  predicate AllClassTokens(xs: seq<string>)
  {
    forall k :: 0 <= k < |xs| ==> IsClassToken(xs[k])
  }

  /** The tokens `xs` joined by single blanks, as a `class` value lists them. */
  function JoinClasses(xs: seq<string>): string
  {
    if xs == [] then "" else if |xs| == 1 then xs[0] else xs[0] + " " + JoinClasses(xs[1..])
  }

  /** Each token of `xs` preceded by one blank. */
  function Spaced(xs: seq<string>): string
  {
    if xs == [] then "" else " " + xs[0] + Spaced(xs[1..])
  }

  lemma {:induction false} SpacedConcat(a: seq<string>, b: seq<string>)
    ensures Spaced(a + b) == Spaced(a) + Spaced(b)
  {
    if a != [] {
      assert (a + b)[0] == a[0] && (a + b)[1..] == a[1..] + b;
      SpacedConcat(a[1..], b);
    } else {
      assert a + b == b;
    }
  }

  /** A blank before a non-empty joined list is the spaced list. */
  lemma {:induction false} JoinSpaced(xs: seq<string>)
    requires xs != []
    ensures " " + JoinClasses(xs) == Spaced(xs)
    ensures JoinClasses(xs) == xs[0] + Spaced(xs[1..])
  {
    if |xs| > 1 {
      JoinSpaced(xs[1..]);
    }
  }

  /** A non-empty joined list of tokens is what `trim()` leaves alone. */
  lemma {:induction false} JoinTrimmed(xs: seq<string>)
    requires xs != [] && AllClassTokens(xs)
    ensures IsTrimmedText(JoinClasses(xs))
  {
    assert IsClassToken(xs[0]);
    if |xs| > 1 {
      JoinTrimmed(xs[1..]);
      assert IsClassToken(xs[1..][0]);
      var j := JoinClasses(xs[1..]);
      assert JoinClasses(xs)[|JoinClasses(xs)| - 1] == j[|j| - 1];
    } else {
      assert IsClassToken(xs[0]) && xs[0][|xs[0]| - 1] > ' ';
    }
  }

  /** `replace` steps over text without a blank when the target starts with a blank. */
  lemma {:induction false} SkipNonBlank(p: string, rest: string, t: string, u: string)
    requires |t| > 0 && t[0] == ' ' && forall i :: 0 <= i < |p| ==> p[i] > ' '
    ensures Replace(p + rest, t, u) == p + Replace(rest, t, u)
    decreases |p|
  {
    var s := p + rest;
    if p == [] {
      assert s == rest;
    } else if |s| < |t| {
      assert Replace(rest, t, u) == rest;
    } else {
      assert s[..|t|] != t by {
        assert s[..|t|][0] == p[0];
      }
      assert s[1..] == p[1..] + rest;
      SkipNonBlank(p[1..], rest, t, u);
      assert s == [p[0]] + (p[1..] + rest);
      assert p == [p[0]] + p[1..];
    }
  }

  /** A blank and a token other than `c`, followed by a blank, do not start with `" " + c + " "`. */
  lemma FrontNoMatch(x: string, rest: string, c: string)
    requires IsClassToken(x) && IsClassToken(c) && x != c && rest != [] && rest[0] == ' '
    ensures var s, t := " " + x + rest, " " + c + " "; |s| >= |t| ==> s[..|t|] != t
  {
    var s, t := " " + x + rest, " " + c + " ";
    if |s| >= |t| {
      var k: nat;
      if |x| == |c| {
        var j :| 0 <= j < |x| && x[j] != c[j];
        assert s[j + 1] == x[j] && t[j + 1] == c[j];
        k := j + 1;
      } else if |x| > |c| {
        assert s[|c| + 1] == x[|c|] && t[|c| + 1] == ' ';
        k := |c| + 1;
      } else {
        assert s[|x| + 1] == rest[0] && t[|x| + 1] == c[|x|];
        k := |x| + 1;
      }
      assert s[..|t|][k] != t[k];
    }
  }

  /** `replace(" " + c + " ", u)` steps over a blank and a different token before another blank. */
  lemma SkipToken(x: string, rest: string, c: string, u: string)
    requires IsClassToken(x) && IsClassToken(c) && x != c && rest != [] && rest[0] == ' '
    ensures Replace(" " + x + rest, " " + c + " ", u) == " " + x + Replace(rest, " " + c + " ", u)
  {
    var t, s := " " + c + " ", " " + x + rest;
    FrontNoMatch(x, rest, c);
    SkipNonBlank(x, rest, t, u);
    if |s| >= |t| {
      assert s[1..] == x + rest;
      assert Replace(s, t, u) == [' '] + Replace(x + rest, t, u);
    } else {
      assert Replace(rest, t, u) == rest;
    }
  }

  /** `replace(" " + c + " ", u)` steps over spaced tokens other than `c` before a blank. */
  lemma {:induction false} SkipTokens(xs: seq<string>, z: string, c: string, u: string)
    requires AllClassTokens(xs) && IsClassToken(c) && c !in xs && z != [] && z[0] == ' '
    ensures Replace(Spaced(xs) + z, " " + c + " ", u) == Spaced(xs) + Replace(z, " " + c + " ", u)
  {
    if xs != [] {
      var ys := xs[1..];
      var rest := Spaced(ys) + z;
      assert rest != [] && rest[0] == ' ' by {
        if ys != [] { assert Spaced(ys)[0] == ' '; } else { assert rest == z; }
      }
      TailTokens(xs, c);
      var t := " " + c + " ";
      calc {
        Replace(Spaced(xs) + z, t, u);
        { assert Spaced(xs) + z == " " + xs[0] + rest; }
        Replace(" " + xs[0] + rest, t, u);
        { SkipToken(xs[0], rest, c, u); }
        " " + xs[0] + Replace(rest, t, u);
        { SkipTokens(ys, z, c, u); }
        " " + xs[0] + (Spaced(ys) + Replace(z, t, u));
        Spaced(xs) + Replace(z, t, u);
      }
    } else {
      assert Spaced(xs) + z == z;
    }
  }

  /** `replace` rewrites a match at the front and goes on after it. */
  lemma ReplaceFront(t: string, v: string, u: string)
    requires |t| > 0
    ensures Replace(t + v, t, u) == u + Replace(v, t, u)
  {
    var s := t + v;
    assert s[..|t|] == t && s[|t|..] == v;
  }

  /** After the match, a token other than `c` and the spaced tokens after it are kept. */
  lemma ReplaceAfterMatch(c: string, x: string, ys: seq<string>)
    requires IsClassToken(c) && IsClassToken(x) && AllClassTokens(ys) && c !in ys
    ensures var t := " " + c + " ";
      Replace(t + (x + (Spaced(ys) + " ")), t, " ") == " " + (x + (Spaced(ys) + " "))
  {
    var t := " " + c + " ";
    var rest := Spaced(ys) + " ";
    calc {
      Replace(t + (x + rest), t, " ");
      { ReplaceFront(t, x + rest, " "); }
      " " + Replace(x + rest, t, " ");
      { SkipNonBlank(x, rest, t, " "); }
      " " + (x + Replace(rest, t, " "));
      { SkipTokens(ys, " ", c, " "); }
      " " + (x + (Spaced(ys) + Replace(" ", t, " ")));
      { assert Replace(" ", t, " ") == " "; }
      " " + (x + rest);
    }
  }

  /** The match of `" " + c + " "` is replaced by one blank and the spaced tokens after it are kept. */
  lemma ReplaceMatch(c: string, after: seq<string>)
    requires IsClassToken(c) && AllClassTokens(after) && c !in after
    ensures Replace(" " + c + Spaced(after) + " ", " " + c + " ", " ") == Spaced(after) + " "
  {
    var t := " " + c + " ";
    if after == [] {
      assert " " + c + Spaced(after) + " " == t + [];
      ReplaceFront(t, [], " ");
    } else {
      TailTokens(after, c);
      ReplaceAfterMatch(c, after[0], after[1..]);
      SpacedFront(c, after);
    }
  }

  lemma TailTokens(xs: seq<string>, c: string)
    requires xs != [] && AllClassTokens(xs) && c !in xs
    ensures IsClassToken(xs[0]) && xs[0] != c && AllClassTokens(xs[1..]) && c !in xs[1..]
  {
    forall k | 0 <= k < |xs[1..]|
      ensures IsClassToken(xs[1..][k]) && xs[1..][k] != c
    {
      assert xs[1..][k] == xs[k + 1];
    }
  }

  lemma SpacedFront(c: string, xs: seq<string>)
    requires xs != []
    ensures " " + c + Spaced(xs) + " " == (" " + c + " ") + (xs[0] + (Spaced(xs[1..]) + " "))
  {
  }

  /** Replacing `" " + c + " "` in the spaced tokens with `c` once among them drops that `c`. */
  lemma ReplaceOne(before: seq<string>, c: string, after: seq<string>)
    requires IsClassToken(c) && AllClassTokens(before) && AllClassTokens(after)
    requires c !in before && c !in after
    ensures Replace(Spaced(before + [c] + after) + " ", " " + c + " ", " ") == Spaced(before + after) + " "
  {
    var t, z := " " + c + " ", " " + c + Spaced(after) + " ";
    calc {
      Replace(Spaced(before + [c] + after) + " ", t, " ");
      { SpacedAround(before, c, after); }
      Replace(Spaced(before) + z, t, " ");
      { SkipTokens(before, z, c, " "); }
      Spaced(before) + Replace(z, t, " ");
      { ReplaceMatch(c, after); }
      Spaced(before) + (Spaced(after) + " ");
      { SpacedConcat(before, after); }
      Spaced(before + after) + " ";
    }
  }

  lemma SpacedAround(before: seq<string>, c: string, after: seq<string>)
    ensures Spaced(before + [c] + after) + " " == Spaced(before) + (" " + c + Spaced(after) + " ")
  {
    SpacedConcat(before + [c], after);
    SpacedConcat(before, [c]);
    assert Spaced([c]) == " " + c;
  }

  /** `trim()` of the spaced tokens and a trailing blank is the joined tokens. */
  lemma TrimSpaced(xs: seq<string>)
    requires AllClassTokens(xs)
    ensures Trim(Spaced(xs) + " ") == JoinClasses(xs)
  {
    if xs == [] {
      TrimAround(" ", [], []);
      assert " " + [] + [] == Spaced(xs) + " ";
    } else {
      JoinSpaced(xs);
      JoinTrimmed(xs);
      TrimAround(" ", JoinClasses(xs), " ");
    }
  }

  /**
   * Removing a class that occurs once among other classes, listed with single blanks, keeps the
   * others in their order; when it was the only one the attribute is removed.
   */
  lemma RemoveOneClass(before: seq<string>, cssCls: string, after: seq<string>)
    requires IsClassToken(cssCls) && AllClassTokens(before) && AllClassTokens(after)
    requires cssCls !in before && cssCls !in after
    ensures var rest := before + after;
      RemovedClass(Some(JoinClasses(before + [cssCls] + after)), cssCls)
        == Some(if rest == [] then None else Some(JoinClasses(rest)))
  {
    var all, rest := before + [cssCls] + after, before + after;
    var t := " " + cssCls + " ";
    BothTokenLists(before, cssCls, after);
    JoinTrimmed(all);
    TrimmedTrim(JoinClasses(all));
    var stripped := Trim(Replace(" " + JoinClasses(all) + " ", t, " "));
    calc {
      stripped;
      { JoinSpaced(all); }
      Trim(Replace(Spaced(all) + " ", t, " "));
      { ReplaceOne(before, cssCls, after); }
      Trim(Spaced(rest) + " ");
      { TrimSpaced(rest); }
      JoinClasses(rest);
    }
    JoinLonger(before, cssCls, after);
    if rest != [] {
      JoinTrimmed(rest);
    }
  }

  lemma BothTokenLists(before: seq<string>, c: string, after: seq<string>)
    requires IsClassToken(c) && AllClassTokens(before) && AllClassTokens(after)
    ensures AllClassTokens(before + [c] + after) && AllClassTokens(before + after)
  {
    var all, rest := before + [c] + after, before + after;
    forall k | 0 <= k < |all|
      ensures IsClassToken(all[k])
    {
      if k < |before| { assert all[k] == before[k]; }
      else if k > |before| { assert all[k] == after[k - |before| - 1]; }
    }
    forall k | 0 <= k < |rest|
      ensures IsClassToken(rest[k])
    {
      if k < |before| { assert rest[k] == before[k]; } else { assert rest[k] == after[k - |before|]; }
    }
  }

  /** Joining one more token makes the value longer. */
  lemma JoinLonger(before: seq<string>, c: string, after: seq<string>)
    requires IsClassToken(c)
    ensures |JoinClasses(before + [c] + after)| > |JoinClasses(before + after)|
  {
    var all, rest := before + [c] + after, before + after;
    JoinSpaced(all);
    SpacedConcat(before + [c], after);
    SpacedConcat(before, [c]);
    SpacedConcat(before, after);
    if rest != [] {
      JoinSpaced(rest);
    }
  }

  /**
   * `replace` does not rescan what it wrote: in `"c c c"` the blank after the first match is used
   * up, so the middle `c` is not seen as a token and one `c` is left.
   */
  lemma RemoveRepeatedClass(c: string)
    requires IsClassToken(c)
    ensures RemovedClass(Some(c + " " + c + " " + c), c) == Some(Some(c))
  {
    var t := " " + c + " ";
    var cls := c + " " + c + " " + c;
    assert cls[0] == c[0] && cls[|cls| - 1] == c[|c| - 1];
    TrimmedTrim(cls);
    var s := " " + cls + " ";
    assert s == t + (c + t);
    assert s[..|t|] == t && s[|t|..] == c + t;
    SkipNonBlank(c, t, t, " ");
    assert t[..|t|] == t && t[|t|..] == [];
    assert Replace(s, t, " ") == " " + c + " ";
    TrimAround(" ", c, " ");
    assert |cls| > |c|;
  }

  // ------------------------------------------------------------ a worked example

  /** The document of the example: one paragraph with the class `a`. */
  const Paragraph := "<p class=\"a\">x</p>"

  /** The attribute scan of `<p class="a">` after its name reads the one attribute and stops at '>'. */
  lemma ParagraphAttributes()
    ensures TagAttributes(Paragraph, 2) == TagEnd(12, ["class"], ["a"])
  {
    var s := Paragraph;
    assert s[10..11] == "a";
    assert InNameStart(s, 12, ["class"], ["a"]) == TagEnd(12, ["class"], ["a"]);
    assert InValueEnd(s, 10, "class", 10, '"', [], []) == TagEnd(12, ["class"], ["a"]);
    assert InValueStart(s, 9, "class", [], []) == TagEnd(12, ["class"], ["a"]);
    assert s[3..8] == "class";
    assert TrimStart("class", 0) == 0 && TrimEnd("class", 0, 5) == 5;
    assert Trim(s[3..8]) == "class";
    assert SkipWhitespace(s, 8) == 8;
    assert InEquals(s, 8, 3, [], []) == TagEnd(12, ["class"], ["a"]);
    assert SkipWhitespace(s, 7) == 7;
    assert InEquals(s, 7, 3, [], []) == TagEnd(12, ["class"], ["a"]);
    assert SkipWhitespace(s, 6) == 6;
    assert InEquals(s, 6, 3, [], []) == TagEnd(12, ["class"], ["a"]);
    assert SkipWhitespace(s, 5) == 5;
    assert InEquals(s, 5, 3, [], []) == TagEnd(12, ["class"], ["a"]);
    assert SkipWhitespace(s, 4) == 4;
    assert InEquals(s, 4, 3, [], []) == TagEnd(12, ["class"], ["a"]);
    assert InNameStart(s, 3, [], []) == TagEnd(12, ["class"], ["a"]);
  }

  /** A name without upper-case letters is its own lower case. */
  lemma LowerKeeps(t: string)
    requires forall i :: 0 <= i < |t| ==> !('A' <= t[i] <= 'Z')
    ensures Lower(t) == t
  {
  }

  /** The example's first token: the paragraph's open tag with its class attribute. */
  lemma ParagraphOpenTag()
    ensures NextToken(Paragraph, 0, true, true, true)
      == (Ok(Some(Token(StartElement, 0, 13, "p", false, ["class"], ["a"]))), 13)
  {
    var s := Paragraph;
    assert IndexOfChar(s, '<', 0) == 0;
    assert NameEnd(s, 2) == 2 && NameEnd(s, 1) == 2;
    ParagraphAttributes();
    assert s[1..2] == "p";
    assert StartTagStep(s, 0) == Report(Token(StartElement, 0, 13, "p", false, ["class"], ["a"]));
  }

  /** The example's second token, after the text: the paragraph's close tag. */
  lemma ParagraphCloseTag()
    ensures NextToken(Paragraph, 13, true, true, true) == (Ok(Some(Token(EndElement, 14, 18, "p", false, [], []))), 18)
  {
    var s := Paragraph;
    assert IndexOfChar(s, '<', 13) == 14;
    assert IndexOfChar(s, '>', 15) == 17;
    assert s[16..17] == "p";
    assert TrimStart("p", 0) == 0 && TrimEnd("p", 0, 1) == 1;
    assert EndStep(s, 14) == Report(Token(EndElement, 14, 18, "p", false, [], []));
  }

  /** The paragraph's record before and after its close tag. */
  const ParagraphOpen := Rec(0, 13, "p", false, ["class"], ["a"], -1, -1)
  const ParagraphClosed := Rec(0, 13, "p", false, ["class"], ["a"], 14, 18)

  /** The first token of the example opens a record for the paragraph. */
  lemma ParagraphFirstStep(h: Handler)
    ensures FirstPass(Paragraph, ClassSetup("p", h), 0, PassState([], []))
      == FirstPass(Paragraph, ClassSetup("p", h), 13, PassState([ParagraphOpen], [0]))
  {
    var setup := ClassSetup("p", h);
    ParagraphOpenTag();
    LowerKeeps("p");
    assert Record(setup, PassState([], []), Token(StartElement, 0, 13, "p", false, ["class"], ["a"]))
      == PassState([ParagraphOpen], [0]);
  }

  /** The second token closes it. */
  lemma ParagraphSecondStep(h: Handler)
    ensures FirstPass(Paragraph, ClassSetup("p", h), 13, PassState([ParagraphOpen], [0]))
      == FirstPass(Paragraph, ClassSetup("p", h), 18, PassState([ParagraphClosed], []))
  {
    var setup := ClassSetup("p", h);
    ParagraphCloseTag();
    assert SameNameUnder(true, "p", "p");
    assert Record(setup, PassState([ParagraphOpen], [0]), Token(EndElement, 14, 18, "p", false, [], []))
      == PassState([ParagraphClosed], []);
  }

  /** After the close tag no token is left. */
  lemma ParagraphLastStep(h: Handler)
    ensures FirstPass(Paragraph, ClassSetup("p", h), 18, PassState([ParagraphClosed], [])) == Ok([ParagraphClosed])
  {
    assert NextToken(Paragraph, 18, true, true, true) == (Ok(None), 18);
  }

  /** The first pass over the example, for any handler registered for `p`, records the paragraph and its close tag. */
  lemma ParagraphPass(h: Handler)
    ensures FirstPass(Paragraph, ClassSetup("p", h), 0, PassState([], []))
      == Ok([Rec(0, 13, "p", false, ["class"], ["a"], 14, 18)])
  {
    ParagraphFirstStep(h);
    ParagraphSecondStep(h);
    ParagraphLastStep(h);
  }

  /** The add handler on the class list `a` sets `a b`. */
  lemma AddBToA()
    ensures AddedClass(Some("a"), "b") == Some("a b")
  {
    assert TrimStart("a", 0) == 0 && TrimEnd("a", 0, 1) == 1;
    assert Trim("a") == "a"[0..1] == "a";
    assert " " + "a" + " " == " a " && " " + "b" + " " == " b ";
    assert !MatchesAt(" a ", " b ", 0) by {
      assert " a "[1] != " b "[1];
    }
    assert !HasClassToken("a", "b");
    assert "a" + " " + "b" == "a b";
  }

  /** The open tag the example's visit writes. */
  lemma ParagraphRewrittenTag()
    ensures var r := Rec(0, 13, "p", false, ["class"], ["a"], 14, 18);
      RewrittenOpenTag(r, ["class"], ["a b"]) == "<p class=\"a b\">"
  {
    assert EscapeChar("a b", '"', "&quot;") == "a b";
  }

  /** Setting `class` on an element whose only attribute is `class` replaces its value. */
  lemma SetSoleClass(v: string, w: string)
    ensures SetAttributeLists([ClassAttribute], [v], true, ClassAttribute, Some(w)) == ([ClassAttribute], [w], true)
  {
    LowerKeeps(ClassAttribute);
    assert NameMatches(ClassAttribute, [ClassAttribute][0], true);
    assert AttributeIndex([ClassAttribute], ClassAttribute, true) == 0;
    assert [v][0 := w] == [w];
  }

  /** The visit of the example's paragraph by the add handler for `b`. */
  lemma ParagraphVisit()
    ensures VisitOf(Paragraph, ClassSetup("p", AddCssHandler("p", "b")), Rec(0, 13, "p", false, ["class"], ["a"], 14, 18))
      == ("<p class=\"a b\">", 13, false)
  {
    var r := Rec(0, 13, "p", false, ["class"], ["a"], 14, 18);
    LowerKeeps("p");
    SetSoleClass("a", "a b");
    assert AttributeValue(r.names, r.values, ClassAttribute, true) == Some("a");
    AddBToA();
    AddVisit(Paragraph, "p", "b", r);
    ParagraphRewrittenTag();
  }

  /** `addCSSClass("<p class=\"a\">x</p>", "p", "b")` writes `<p class="a b">x</p>`. */
  lemma AddClassToParagraph()
    ensures Output(Paragraph, ClassSetup("p", AddCssHandler("p", "b"))) == Ok("<p class=\"a b\">x</p>")
  {
    var s, setup := Paragraph, ClassSetup("p", AddCssHandler("p", "b"));
    var r := Rec(0, 13, "p", false, ["class"], ["a"], 14, 18);
    var tag := "<p class=\"a b\">";
    ParagraphPass(AddCssHandler("p", "b"));
    ParagraphVisit();
    ParagraphTail();
    assert Render(s, setup, [r], 1, 13) == Ok("x</p>");
    assert Render(s, setup, [r], 0, 0) == Ok(s[0..0] + tag + "x</p>");
    assert s[0..0] + tag == tag;
    ClassedParagraph();
  }

  /** What the example copies after the rewritten open tag. */
  lemma ParagraphTail()
    ensures Paragraph[13..] == "x</p>"
  {
  }

  /** The example's output, the rewritten open tag followed by the copied rest. */
  lemma ClassedParagraph()
    ensures "<p class=\"a b\">" + "x</p>" == "<p class=\"a b\">x</p>"
  {
  }
}
