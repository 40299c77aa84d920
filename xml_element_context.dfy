/*
 * The element context handed to an element handler by the XML processor
 * (XMLElementContextImpl): one recorded element of the input, with its attribute lists,
 * which the handler can read and change, and the replacements it asks for.
 */
module XmlElementContext {
  import opened Wrappers
  import opened JavaText

  /** Whether the attribute name `a` is the one asked for as `name`. */
  predicate NameMatches(name: string, a: string, ignoreCase: bool)
  {
    if ignoreCase then EqualsIgnoreCase(name, a) else name == a
  }

  /** The first index at or after `i` whose attribute name matches `name`, or -1. */
  function AttributeIndexFrom(names: seq<string>, name: string, ignoreCase: bool, i: nat): (r: int)
    requires i <= |names|
    ensures -1 <= r < |names|
    ensures r >= 0 ==> i <= r && NameMatches(name, names[r], ignoreCase)
    ensures r >= 0 ==> forall k :: i <= k < r ==> !NameMatches(name, names[k], ignoreCase)
    ensures r < 0 ==> forall k :: i <= k < |names| ==> !NameMatches(name, names[k], ignoreCase)
    decreases |names| - i
  {
    if i == |names| then -1
    else if NameMatches(name, names[i], ignoreCase) then i
    else AttributeIndexFrom(names, name, ignoreCase, i + 1)
  }

  /** `getAttributeIndex(name)`: the first matching index, or -1 when no name matches. */
  function AttributeIndex(names: seq<string>, name: string, ignoreCase: bool): (r: int)
    ensures -1 <= r < |names|
    ensures r >= 0 ==> NameMatches(name, names[r], ignoreCase)
    ensures r >= 0 ==> forall k :: 0 <= k < r ==> !NameMatches(name, names[k], ignoreCase)
    ensures r < 0 <==> forall k :: 0 <= k < |names| ==> !NameMatches(name, names[k], ignoreCase)
  {
    AttributeIndexFrom(names, name, ignoreCase, 0)
  }

  /** `getAttributeValue(name)`: the value at the first matching index, or None (Java null). */
  function AttributeValue(names: seq<string>, values: seq<string>, name: string, ignoreCase: bool): (r: Option<string>)
    requires |names| == |values|
    ensures r.Some? <==> exists k :: 0 <= k < |names| && NameMatches(name, names[k], ignoreCase)
    ensures r.Some? ==> r.value == values[AttributeIndex(names, name, ignoreCase)]
  {
    var idx := AttributeIndex(names, name, ignoreCase);
    if idx < 0 then None else Some(values[idx])
  }

  /**
   * The attribute lists after `setAttribute(name, value)`, and whether the call marks the
   * context as changed. A None value (Java null) removes the first matching pair; any other
   * value replaces the first matching value or appends a new pair.
   */
  function SetAttributeLists(names: seq<string>, values: seq<string>, ignoreCase: bool,
                             name: string, value: Option<string>): (r: (seq<string>, seq<string>, bool))
    requires |names| == |values|
    ensures |r.0| == |r.1|
  {
    var idx := AttributeIndex(names, name, ignoreCase);
    if value.None? then
      if idx >= 0 then (names[..idx] + names[idx + 1..], values[..idx] + values[idx + 1..], true)
      else (names, values, false)
    else if idx >= 0 then (names, values[idx := value.value], true)
    else (names + [name], values + [value.value], true)
  }

  /** The index of the first match does not depend on entries after it. */
  lemma {:induction false} AttributeIndexAppend(names: seq<string>, name: string, ignoreCase: bool, extra: string)
    ensures AttributeIndex(names + [extra], name, ignoreCase) ==
      if AttributeIndex(names, name, ignoreCase) >= 0 then AttributeIndex(names, name, ignoreCase)
      else if NameMatches(name, extra, ignoreCase) then |names| else -1
  {
    var n := names + [extra];
    var i := AttributeIndex(names, name, ignoreCase);
    var j := AttributeIndex(n, name, ignoreCase);
    assert forall k :: 0 <= k < |names| ==> n[k] == names[k];
    if i >= 0 {
      assert NameMatches(name, n[i], ignoreCase);
      assert j == i;
    } else {
      assert n[|names|] == extra;
    }
  }

  /** After setting a value, reading that attribute back gives the value. */
  lemma SetThenGet(names: seq<string>, values: seq<string>, ignoreCase: bool, name: string, v: string)
    requires |names| == |values|
    ensures var r := SetAttributeLists(names, values, ignoreCase, name, Some(v));
      AttributeValue(r.0, r.1, name, ignoreCase) == Some(v)
  {
    var idx := AttributeIndex(names, name, ignoreCase);
    if idx < 0 {
      AttributeIndexAppend(names, name, ignoreCase, name);
      assert NameMatches(name, name, ignoreCase);
    }
  }

  /**
   * Setting a value always marks the context changed; removing one marks it changed exactly
   * when the attribute was there.
   */
  lemma SetMarksChanged(names: seq<string>, values: seq<string>, ignoreCase: bool, name: string, value: Option<string>)
    requires |names| == |values|
    ensures SetAttributeLists(names, values, ignoreCase, name, value).2 <==>
      value.Some? || AttributeValue(names, values, name, ignoreCase).Some?
  {
  }

  /** A removal deletes one pair, at the first matching index, and keeps the others in order. */
  lemma RemoveDeletesFirstMatch(names: seq<string>, values: seq<string>, ignoreCase: bool, name: string)
    requires |names| == |values|
    requires AttributeValue(names, values, name, ignoreCase).Some?
    ensures var r := SetAttributeLists(names, values, ignoreCase, name, None);
      var idx := AttributeIndex(names, name, ignoreCase);
      |r.0| == |names| - 1
      && (forall k :: 0 <= k < idx ==> r.0[k] == names[k] && r.1[k] == values[k])
      && (forall k :: idx <= k < |r.0| ==> r.0[k] == names[k + 1] && r.1[k] == values[k + 1])
  {
  }

  /** Attributes whose name does not match `name` read the same before and after the call. */
  lemma {:induction false} SetKeepsOthers(names: seq<string>, values: seq<string>, ignoreCase: bool,
                                          name: string, value: Option<string>, other: string)
    requires |names| == |values|
    requires !NameMatches(other, name, ignoreCase)
    ensures var r := SetAttributeLists(names, values, ignoreCase, name, value);
      AttributeValue(r.0, r.1, other, ignoreCase) == AttributeValue(names, values, other, ignoreCase)
  {
    var idx := AttributeIndex(names, name, ignoreCase);
    var j := AttributeIndex(names, other, ignoreCase);
    var r := SetAttributeLists(names, values, ignoreCase, name, value);
    if idx >= 0 {
      // `other` cannot match the entry that `name` matches.
      assert !NameMatches(other, names[idx], ignoreCase);
      if value.None? {
        RemovalKeepsOthers(names, values, ignoreCase, idx, other);
      }
    } else if value.Some? {
      AttributeIndexAppend(names, other, ignoreCase, name);
    }
  }

  /** Removing the pair at `idx` keeps what a name that does not match it reads. */
  lemma RemovalKeepsOthers(names: seq<string>, values: seq<string>, ignoreCase: bool, idx: nat, other: string)
    requires |names| == |values| && idx < |names|
    requires !NameMatches(other, names[idx], ignoreCase)
    ensures AttributeValue(names[..idx] + names[idx + 1..], values[..idx] + values[idx + 1..], other, ignoreCase)
         == AttributeValue(names, values, other, ignoreCase)
  {
    var n := names[..idx] + names[idx + 1..];
    assert forall k :: 0 <= k < idx ==> n[k] == names[k];
    assert forall k :: idx <= k < |n| ==> n[k] == names[k + 1];
    var j := AttributeIndex(names, other, ignoreCase);
    var j' := AttributeIndex(n, other, ignoreCase);
    if j < 0 {
      assert j' < 0;
    } else if j < idx {
      assert j' == j;
    } else {
      assert NameMatches(other, n[j - 1], ignoreCase);
      assert j' == j - 1;
    }
  }

  /** `getElement()` over the offsets: only the open tag for an empty or unclosed element, else through the close tag. */
  function ElementText(input: string, openTagStart: int, openTagEnd: int, closeTagEnd: int, isEmpty: bool): string
    requires 0 <= openTagStart <= openTagEnd <= |input| && closeTagEnd <= |input|
  {
    if isEmpty || closeTagEnd <= openTagEnd then input[openTagStart..openTagEnd] else input[openTagStart..closeTagEnd]
  }

  /** `getElementContent()` over the offsets: "" for an empty or unclosed element, else the text between the tags. */
  function ContentText(input: string, openTagEnd: int, closeTagStart: int, isEmpty: bool): string
    requires 0 <= openTagEnd <= |input| && closeTagStart <= |input|
  {
    if isEmpty || closeTagStart <= openTagEnd then "" else input[openTagEnd..closeTagStart]
  }

  /** What a handler reads through the `XMLElementContext` interface. */
  datatype ElementView = ElementView(name: string, isEmpty: bool, attNames: seq<string>, attValues: seq<string>,
                                     ignoreAttributeCase: bool, offset: int, element: string, content: string)

  /** `XMLElementContextImpl`: a recorded element of `input` with the handler's edits. */
  class ElementContext {
    const input: string
    const openTagStart: int
    const openTagEnd: int
    var closeTagStart: int
    var closeTagEnd: int
    const emptyElement: bool
    const tagName: string
    var attNames: seq<string>
    var attValues: seq<string>
    var ignoreAttributeCase: bool
    var replacedElem: Option<string>
    var replacedCont: Option<string>
    var attribChanged: bool

    /** The open tag lies in the input; the close tag is unset (-1, -1) or lies after it. */
    ghost predicate Valid()
      reads this
    {
      |attNames| == |attValues| && 0 <= openTagStart <= openTagEnd <= |input|
      && ((closeTagStart == -1 && closeTagEnd == -1) || openTagEnd <= closeTagStart <= closeTagEnd <= |input|)
    }

    /** No replacement was asked for and the attributes were not changed. */
    predicate Unchanged()
      reads this
    {
      replacedElem.None? && replacedCont.None? && !attribChanged
    }

    constructor (input: string, tagStart: int, tagEnd: int, isEmpty: bool, tagName: string,
                 attNames: seq<string>, attValues: seq<string>)
      requires 0 <= tagStart <= tagEnd <= |input| && |attNames| == |attValues|
      ensures Valid() && Unchanged()
      ensures this.input == input && openTagStart == tagStart && openTagEnd == tagEnd
      ensures closeTagStart == -1 && closeTagEnd == -1
      ensures emptyElement == isEmpty && this.tagName == tagName
      ensures this.attNames == attNames && this.attValues == attValues && ignoreAttributeCase
    {
      this.input := input;
      openTagStart, openTagEnd := tagStart, tagEnd;
      closeTagStart, closeTagEnd := -1, -1;
      emptyElement := isEmpty;
      this.tagName := tagName;
      this.attNames, this.attValues := attNames, attValues;
      ignoreAttributeCase := true;
      replacedElem, replacedCont, attribChanged := None, None, false;
    }

    /** `setClosingTagOffset`: records where the matching close tag lies. */
    method SetClosingTagOffset(tagStart: int, tagEnd: int)
      requires Valid() && openTagEnd <= tagStart <= tagEnd <= |input|
      modifies this
      ensures Valid() && closeTagStart == tagStart && closeTagEnd == tagEnd
      ensures attNames == old(attNames) && attValues == old(attValues)
      ensures ignoreAttributeCase == old(ignoreAttributeCase)
      ensures replacedElem == old(replacedElem) && replacedCont == old(replacedCont)
      ensures attribChanged == old(attribChanged)
    {
      closeTagStart, closeTagEnd := tagStart, tagEnd;
    }

    method SetIgnoreAttributeCase(ignore: bool)
      requires Valid()
      modifies this
      ensures Valid() && ignoreAttributeCase == ignore
      ensures closeTagStart == old(closeTagStart) && closeTagEnd == old(closeTagEnd)
      ensures attNames == old(attNames) && attValues == old(attValues)
      ensures replacedElem == old(replacedElem) && replacedCont == old(replacedCont)
      ensures attribChanged == old(attribChanged)
    {
      ignoreAttributeCase := ignore;
    }

    /** `getAttributeIndex(name)`: the loop over the names, case-insensitive when so configured. */
    method GetAttributeIndex(name: string) returns (r: int)
      ensures r == AttributeIndex(attNames, name, ignoreAttributeCase)
    {
      var i := 0;
      while i < |attNames|
        invariant 0 <= i <= |attNames|
        invariant AttributeIndexFrom(attNames, name, ignoreAttributeCase, i) == AttributeIndex(attNames, name, ignoreAttributeCase)
      {
        if NameMatches(name, attNames[i], ignoreAttributeCase) {
          return i;
        }
        i := i + 1;
      }
      return -1;
    }

    /** `getAttributeValue(name)`: the value of the first matching attribute, or None. */
    method GetAttributeValue(name: string) returns (r: Option<string>)
      requires Valid()
      ensures r == AttributeValue(attNames, attValues, name, ignoreAttributeCase)
    {
      var idx := GetAttributeIndex(name);
      r := if idx < 0 then None else Some(attValues[idx]);
    }

    /** `getElement()`: only the open tag for an empty or unclosed element, else through the close tag. */
    function Element(): (r: string)
      requires Valid()
      reads this
      ensures emptyElement || closeTagEnd <= openTagEnd ==> r == input[openTagStart..openTagEnd]
      ensures !emptyElement && closeTagEnd > openTagEnd ==> r == input[openTagStart..closeTagEnd]
    {
      ElementText(input, openTagStart, openTagEnd, closeTagEnd, emptyElement)
    }

    /** `getElementContent()`: "" for an empty or unclosed element, else the text between the tags. */
    function ElementContent(): (r: string)
      requires Valid()
      reads this
      ensures emptyElement || closeTagStart <= openTagEnd ==> r == ""
      ensures !emptyElement && closeTagStart > openTagEnd ==> r == input[openTagEnd..closeTagStart]
    {
      ContentText(input, openTagEnd, closeTagStart, emptyElement)
    }

    /** Everything a handler can read: name, emptiness, attributes, offset, element and content. */
    function View(): (v: ElementView)
      requires Valid()
      reads this
      ensures v.name == tagName && v.isEmpty == emptyElement && v.offset == openTagStart
      ensures v.attNames == attNames && v.attValues == attValues && v.ignoreAttributeCase == ignoreAttributeCase
      ensures v.element == Element() && v.content == ElementContent()
    {
      ElementView(tagName, emptyElement, attNames, attValues, ignoreAttributeCase, openTagStart, Element(), ElementContent())
    }

    /** For a closed, non-empty element, the element is its open tag, its content and its close tag. */
    lemma ElementIsTagsAroundContent()
      requires Valid() && !emptyElement && closeTagStart >= 0
      ensures Element() == input[openTagStart..openTagEnd] + ElementContent() + input[closeTagStart..closeTagEnd]
    {
      if closeTagEnd == openTagEnd {
        assert closeTagStart == openTagEnd;
      } else {
        assert input[openTagStart..closeTagEnd]
          == input[openTagStart..openTagEnd] + input[openTagEnd..closeTagStart] + input[closeTagStart..closeTagEnd];
      }
    }

    method ReplaceElement(xml: string)
      requires Valid()
      modifies this
      ensures Valid() && replacedElem == Some(xml)
      ensures closeTagStart == old(closeTagStart) && closeTagEnd == old(closeTagEnd)
      ensures attNames == old(attNames) && attValues == old(attValues)
      ensures ignoreAttributeCase == old(ignoreAttributeCase)
      ensures replacedCont == old(replacedCont) && attribChanged == old(attribChanged)
    {
      replacedElem := Some(xml);
    }

    method ReplaceElementContent(content: string)
      requires Valid()
      modifies this
      ensures Valid() && replacedCont == Some(content)
      ensures closeTagStart == old(closeTagStart) && closeTagEnd == old(closeTagEnd)
      ensures attNames == old(attNames) && attValues == old(attValues)
      ensures ignoreAttributeCase == old(ignoreAttributeCase)
      ensures replacedElem == old(replacedElem) && attribChanged == old(attribChanged)
    {
      replacedCont := Some(content);
    }

    /** `setAttribute(name, value)`, with None for Java null. */
    method SetAttribute(name: string, value: Option<string>)
      requires Valid()
      modifies this
      ensures var r := SetAttributeLists(old(attNames), old(attValues), ignoreAttributeCase, name, value);
        attNames == r.0 && attValues == r.1 && attribChanged == (old(attribChanged) || r.2)
      ensures ignoreAttributeCase == old(ignoreAttributeCase)
      ensures closeTagStart == old(closeTagStart) && closeTagEnd == old(closeTagEnd)
      ensures replacedElem == old(replacedElem) && replacedCont == old(replacedCont)
      ensures Valid()
    {
      var idx := GetAttributeIndex(name);
      if value.None? {
        if idx >= 0 {
          attNames, attValues := attNames[..idx] + attNames[idx + 1..], attValues[..idx] + attValues[idx + 1..];
          attribChanged := true;
        }
      } else {
        if idx >= 0 {
          attValues := attValues[idx := value.value];
        } else {
          attNames, attValues := attNames + [name], attValues + [value.value];
        }
        attribChanged := true;
      }
    }
  }
}
