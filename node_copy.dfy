/*
 * Copying nodes between two sessions (the node half of DocStoreUtilities): creating a node of the
 * same type, renaming aliases that are taken in the target, the shallow copy of one node in the
 * original language and its translations, and the recursive copy of a group's children down to a
 * maximum depth.
 */
module NodeCopy {
  import opened Wrappers
  import opened JavaText
  import opened DocNodes

  /** The `copyNodeIdMode` values: assign new ids, keep the source ids, or keep them where free. */
  const CopyNodeIdReassign: int := 0
  const CopyNodeIdKeep: int := 1
  const CopyNodeIdTryKeep: int := 2

  /** How many group levels below a node `copyNode` copies. */
  const MaxCopyDepth: int := 60

  /** How often one alias may be renamed before the copy gives up. */
  const MaxAliasRenames: int := 100

  /** `getNodePosInArray(id, nodes, start)`: the first index from `start` on that holds `id`, or -1. */
  method GetNodePosInArray(id: string, ids: seq<string>, start: int) returns (r: int)
    requires 0 <= start
    ensures r == -1 || (start <= r < |ids| && ids[r] == id)
    ensures r == -1 ==> forall i :: start <= i < |ids| ==> ids[i] != id
    ensures r != -1 ==> forall i :: start <= i < r ==> ids[i] != id
  {
    var i := start;
    while i < |ids|
      invariant start <= i
      invariant forall j :: start <= j < i && j < |ids| ==> ids[j] != id
      decreases |ids| - i
    {
      if ids[i] == id {
        return i;
      }
      i := i + 1;
    }
    return -1;
  }

  /**
   * `createNodeOfSameType(sourceNode, targetSession, mode)`: a new, parentless node of the source
   * node's kind, under the source id (KEEP), under it unless taken (TRY_KEEP) or under a new id
   * (REASSIGN). Any other mode is refused.
   */
  method CreateNodeOfSameType(kind: Kind, srcId: string, target: NodeTree, mode: int) returns (r: Result<string>)
    requires target.Valid()
    modifies target
    ensures target.Valid() && target.kids == old(target.kids)
    ensures mode != CopyNodeIdReassign && mode != CopyNodeIdKeep && mode != CopyNodeIdTryKeep ==>
      r == Err("Invalid copyNodeId mode: " + IntToString(mode)) && target.nodes == old(target.nodes)
    ensures r.Err? ==> target.nodes == old(target.nodes)
    ensures r.Ok? ==> (r.value !in old(target.nodes) && target.nodes == old(target.nodes)[r.value := NewNode(kind)]
                       && Parentless(target.kids, r.value))
    ensures mode == CopyNodeIdKeep ==>
      r == if srcId in old(target.nodes) then Err("Node ID already exists: " + srcId) else Ok(srcId)
    ensures mode == CopyNodeIdTryKeep ==> r.Ok? && (srcId !in old(target.nodes) ==> r.value == srcId)
    ensures mode == CopyNodeIdReassign ==> r.Ok?
  {
    var nodeId: Option<string>;
    if mode == CopyNodeIdKeep {
      nodeId := Some(srcId);
    } else if mode == CopyNodeIdTryKeep {
      nodeId := Some(srcId);
      if target.NodeIdExists(srcId) {
        nodeId := None;
      }
    } else if mode == CopyNodeIdReassign {
      nodeId := None;
    } else {
      return Err("Invalid copyNodeId mode: " + IntToString(mode));
    }
    r := target.CreateNode(kind, nodeId);
  }

  // ------------------------------------------------------------ aliases

  /**
   * What `renameAliasesIfNotUnique` achieves for the aliases `before` against the target nodes
   * `nodes`: each alias that is taken is replaced by a free one and recorded in the alias map,
   * every free alias is kept, and so are the other entries of the map.
   */
  ghost predicate AliasesRenamed(nodes: map<string, Node>, before: seq<string>, after: seq<string>,
                                 m0: map<string, string>, m1: map<string, string>)
  {
    |after| == |before|
    && (forall j :: 0 <= j < |before| ==> !AliasInUse(nodes, after[j]))
    && (forall j :: 0 <= j < |before| && !AliasInUse(nodes, before[j]) ==> after[j] == before[j])
    && (forall k :: k in m1 <==> k in m0 || (k in before && AliasInUse(nodes, k)))
    && (forall k :: k in m1 && !(k in before && AliasInUse(nodes, k)) ==> m1[k] == m0[k])
    && (forall k :: k in before && AliasInUse(nodes, k) ==> !AliasInUse(nodes, m1[k]))
  }

  /**
   * `renameAliasesIfNotUnique(aliases, targetSession, strategy, aliasMap)`: renames in place each
   * alias already used in the target, asking the strategy again when the new name is one of the
   * batch, and records the renaming. A name still taken after 100 renames stops the copy.
   */
  method RenameAliasesIfNotUnique(aliases: array<string>, target: NodeTree, rename: string -> string,
                                  aliasMap: map<string, string>)
    returns (r: Result<map<string, string>>)
    modifies aliases
    ensures r.Ok? ==> AliasesRenamed(target.nodes, old(aliases[..]), aliases[..], aliasMap, r.value)
    ensures r.Err? ==> exists a :: r == Err("Could not find valid alias name: " + a) && target.KnowsAlias(a)
  {
    ghost var before := aliases[..];
    var m := aliasMap;
    for i := 0 to aliases.Length
      invariant aliases[i..] == before[i..]
      invariant AliasesRenamed(target.nodes, before[..i], aliases[..i], aliasMap, m)
    {
      var loopCount := 0;
      var targetAlias := aliases[i];
      while target.KnowsAlias(targetAlias)
        invariant 0 <= loopCount <= MaxAliasRenames
        invariant loopCount == 0 ==> targetAlias == aliases[i]
        invariant loopCount > 0 ==> target.KnowsAlias(aliases[i])
        decreases MaxAliasRenames - loopCount
      {
        loopCount := loopCount + 1;
        if loopCount > MaxAliasRenames {
          return Err("Could not find valid alias name: " + targetAlias);
        }
        targetAlias := rename(targetAlias);
        if targetAlias in aliases[..] {
          targetAlias := rename(targetAlias);
        }
      }
      assert aliases[i] == before[i];
      RenamedStep(target.nodes, before, aliases[..i], aliasMap, m, i, targetAlias);
      ghost var after := aliases[..i] + [targetAlias];
      if loopCount > 0 {
        m := m[aliases[i] := targetAlias];
        aliases[i] := targetAlias;
      }
      assert aliases[..i + 1] == after;
    }
    assert before[..aliases.Length] == before && aliases[..aliases.Length] == aliases[..];
    r := Ok(m);
  }

  /** One more alias handled: a free one is kept, a taken one is replaced by the free name `t`. */
  lemma RenamedStep(nodes: map<string, Node>, before: seq<string>, after: seq<string>,
                    m0: map<string, string>, m: map<string, string>, i: nat, t: string)
    requires i < |before| && |after| == i
    requires AliasesRenamed(nodes, before[..i], after, m0, m)
    requires !AliasInUse(nodes, t)
    requires !AliasInUse(nodes, before[i]) ==> t == before[i]
    ensures AliasesRenamed(nodes, before[..i + 1], after + [t], m0,
                           if AliasInUse(nodes, before[i]) then m[before[i] := t] else m)
  {
    assert before[..i + 1] == before[..i] + [before[i]];
  }

  // ------------------------------------------------------------ shallow copy

  /** The language `l` is one of the translations `langs`. */
  predicate InLangs(l: Lang, langs: set<string>)
  {
    l.Some? && l.value in langs
  }

  /**
   * What the original-language part of `copyNodeShallow` writes into the target node `t`, giving
   * `t'`, with the source session in translation mode `srcMode`: the (renamed) aliases, the target
   * alias of a reference, the title, every original attribute, and for content nodes the content
   * type, the file extension and the content when the source has any. Nothing else changes.
   */
  ghost predicate OriginalCopied(src: Node, t: Node, t': Node, aliases: seq<string>, srcMode: Lang,
                                 isRef: bool, isContent: bool)
  {
    t'.kind == t.kind && t'.aliases == aliases
    && t'.targetAlias == (if isRef then src.targetAlias else t.targetAlias)
    && t'.titles == Put(t.titles, None, InMode(src.titles, srcMode))
    && OriginalAttributesCopied(src, t, t', AttributeNames(src), srcMode)
    && t'.contentType == (if isContent then Put(t.contentType, None, InMode(src.contentType, srcMode)) else t.contentType)
    && t'.fileExt == (if isContent then Put(t.fileExt, None, InMode(src.fileExt, srcMode)) else t.fileExt)
    && t'.content == (if isContent && InMode(src.content, srcMode).Some? then t.content[None := InMode(src.content, srcMode).value]
                      else t.content)
  }

  /** The values of `from` in the languages `langs` overwrite those of `m`, giving `m'`. */
  ghost predicate LangValuesCopied<V>(from: map<Lang, V>, m: map<Lang, V>, m': map<Lang, V>, langs: set<string>)
  {
    forall l :: Lookup(m', l) == if InLangs(l, langs) && l in from then Some(from[l]) else Lookup(m, l)
  }

  /**
   * A translated content type or file extension of `from` is copied when the source has content
   * (`has`) in that language and the translated value differs from the original one.
   */
  ghost predicate DifferingValuesCopied(has: set<Lang>, from: map<Lang, string>, m: map<Lang, string>,
                                        m': map<Lang, string>, langs: set<string>)
  {
    forall l :: Lookup(m', l) ==
      if InLangs(l, langs) && l in has && l in from && Some(from[l]) != Lookup(from, None) then Some(from[l])
      else Lookup(m, l)
  }

  /** The translated attributes the source has, for its original attribute names. */
  ghost predicate AttributesCopied(src: Node, t: Node, t': Node, langs: set<string>)
  {
    AttributesCopiedFor(src, t, t', AttributeNames(src), langs)
  }

  /** The translated attributes the source has in `langs`, for the names `names`. */
  ghost predicate AttributesCopiedFor(src: Node, t: Node, t': Node, names: set<string>, langs: set<string>)
  {
    forall name, l :: Attribute(t', name, l) ==
      (if InLangs(l, langs) && name in names && Attribute(src, name, l).Some?
       then Attribute(src, name, l) else Attribute(t, name, l))
  }

  /** The original attributes `names` of the source, read in translation mode `srcMode`. */
  ghost predicate OriginalAttributesCopied(src: Node, t: Node, t': Node, names: set<string>, srcMode: Lang)
  {
    forall name, l :: Attribute(t', name, l) ==
      (if l.None? && name in names then AttributeInMode(src, name, srcMode) else Attribute(t, name, l))
  }

  /**
   * What the translation part of `copyNodeShallow` writes for the languages `langs`: the translated
   * title and attributes the source has, and for content nodes the translated content and the
   * translated content type and file extension where they differ from the original ones. Nothing
   * else changes.
   */
  ghost predicate TranslationsCopied(src: Node, t: Node, t': Node, langs: set<string>, isContent: bool)
  {
    t'.kind == t.kind && t'.aliases == t.aliases && t'.targetAlias == t.targetAlias
    && LangValuesCopied(src.titles, t.titles, t'.titles, langs)
    && AttributesCopied(src, t, t', langs)
    && (if isContent then
          LangValuesCopied(src.content, t.content, t'.content, langs)
          && DifferingValuesCopied(src.content.Keys, src.contentType, t.contentType, t'.contentType, langs)
          && DifferingValuesCopied(src.content.Keys, src.fileExt, t.fileExt, t'.fileExt, langs)
        else t'.content == t.content && t'.contentType == t.contentType && t'.fileExt == t.fileExt)
  }

  lemma LangValuesCopiedStep<V>(from: map<Lang, V>, m: map<Lang, V>, m1: map<Lang, V>, m2: map<Lang, V>,
                                a: set<string>, code: string)
    requires LangValuesCopied(from, m, m1, a) && LangValuesCopied(from, m1, m2, {code})
    ensures LangValuesCopied(from, m, m2, a + {code})
  {
    forall l
      ensures Lookup(m2, l) == if InLangs(l, a + {code}) && l in from then Some(from[l]) else Lookup(m, l)
    {
      assert Lookup(m1, l) == if InLangs(l, a) && l in from then Some(from[l]) else Lookup(m, l);
    }
  }

  lemma DifferingValuesCopiedStep(has: set<Lang>, from: map<Lang, string>, m: map<Lang, string>,
                                  m1: map<Lang, string>, m2: map<Lang, string>, a: set<string>, code: string)
    requires DifferingValuesCopied(has, from, m, m1, a) && DifferingValuesCopied(has, from, m1, m2, {code})
    ensures DifferingValuesCopied(has, from, m, m2, a + {code})
  {
    forall l
      ensures Lookup(m2, l) ==
        if InLangs(l, a + {code}) && l in has && l in from && Some(from[l]) != Lookup(from, None) then Some(from[l])
        else Lookup(m, l)
    {
      assert Lookup(m1, l) ==
        if InLangs(l, a) && l in has && l in from && Some(from[l]) != Lookup(from, None) then Some(from[l])
        else Lookup(m, l);
    }
  }

  lemma AttributesCopiedStep(src: Node, t: Node, t1: Node, t2: Node, a: set<string>, code: string)
    requires AttributesCopied(src, t, t1, a) && AttributesCopied(src, t1, t2, {code})
    ensures AttributesCopied(src, t, t2, a + {code})
  {
    forall name, l
      ensures Attribute(t2, name, l) ==
        (if InLangs(l, a + {code}) && name in AttributeNames(src) && Attribute(src, name, l).Some?
         then Attribute(src, name, l) else Attribute(t, name, l))
    {
      assert Attribute(t1, name, l) ==
        (if InLangs(l, a) && name in AttributeNames(src) && Attribute(src, name, l).Some?
         then Attribute(src, name, l) else Attribute(t, name, l));
    }
  }

  /** Copying the translations `a` and then `{code}` copies the translations `a + {code}`. */
  lemma TranslationsCopiedStep(src: Node, t: Node, t1: Node, t2: Node, a: set<string>, code: string, isContent: bool)
    requires TranslationsCopied(src, t, t1, a, isContent)
    requires TranslationsCopied(src, t1, t2, {code}, isContent)
    ensures TranslationsCopied(src, t, t2, a + {code}, isContent)
  {
    LangValuesCopiedStep(src.titles, t.titles, t1.titles, t2.titles, a, code);
    AttributesCopiedStep(src, t, t1, t2, a, code);
    if isContent {
      LangValuesCopiedStep(src.content, t.content, t1.content, t2.content, a, code);
      DifferingValuesCopiedStep(src.content.Keys, src.contentType, t.contentType, t1.contentType, t2.contentType, a, code);
      DifferingValuesCopiedStep(src.content.Keys, src.fileExt, t.fileExt, t1.fileExt, t2.fileExt, a, code);
    }
  }

  /** The loop over `getAttributeNames()` that copies the original attributes. */
  method CopyOriginalAttributes(src: Node, t: Node, srcMode: Lang) returns (t': Node)
    ensures t' == t.(atts := t'.atts)
    ensures OriginalAttributesCopied(src, t, t', AttributeNames(src), srcMode)
  {
    var rest := AttributeNames(src);
    t' := t;
    while rest != {}
      invariant rest <= AttributeNames(src)
      invariant t' == t.(atts := t'.atts)
      invariant OriginalAttributesCopied(src, t, t', AttributeNames(src) - rest, srcMode)
      decreases |rest|
    {
      var name :| name in rest;
      var v := AttributeInMode(src, name, srcMode);
      OriginalAttributeStep(src, t, t', AttributeNames(src) - rest, name, srcMode);
      assert AttributeNames(src) - (rest - {name}) == (AttributeNames(src) - rest) + {name};
      t' := WithAttribute(t', name, v, None);
      rest := rest - {name};
    }
  }

  /** One pass of the loop of `CopyOriginalAttributes`, for the attribute `name`. */
  lemma OriginalAttributeStep(src: Node, t: Node, t1: Node, done: set<string>, name: string, srcMode: Lang)
    requires OriginalAttributesCopied(src, t, t1, done, srcMode) && name in AttributeNames(src)
    ensures AttributeInMode(src, name, srcMode).Some?
    ensures OriginalAttributesCopied(src, t, WithAttribute(t1, name, AttributeInMode(src, name, srcMode), None),
                                     done + {name}, srcMode)
  {
    var v := AttributeInMode(src, name, srcMode);
    assert v.Some?;
    var t2 := WithAttribute(t1, name, v, None);
    forall n, l
      ensures Attribute(t2, n, l) ==
        (if l.None? && n in done + {name} then AttributeInMode(src, n, srcMode) else Attribute(t, n, l))
    {
      assert Attribute(t1, n, l) ==
        (if l.None? && n in done then AttributeInMode(src, n, srcMode) else Attribute(t, n, l));
    }
  }

  /** The loop over `getAttributeNames()` that copies the attributes translated into `code`. */
  method CopyTranslatedAttributes(src: Node, t: Node, code: string) returns (t': Node)
    ensures t' == t.(atts := t'.atts)
    ensures AttributesCopied(src, t, t', {code})
  {
    var rest := AttributeNames(src);
    t' := t;
    while rest != {}
      invariant rest <= AttributeNames(src)
      invariant t' == t.(atts := t'.atts)
      invariant AttributesCopiedFor(src, t, t', AttributeNames(src) - rest, {code})
      decreases |rest|
    {
      var name :| name in rest;
      var v := Attribute(src, name, Some(code));
      if v.Some? {
        t' := WithAttribute(t', name, v, Some(code));
      }
      rest := rest - {name};
    }
  }

  /**
   * The translated content type (or file extension) read in translation mode `l`, written when it
   * is set and differs from the original one.
   */
  function WithDiffering(from: map<Lang, string>, m: map<Lang, string>, l: Lang): map<Lang, string>
  {
    var v := InMode(from, l);
    if v.Some? && v != Lookup(from, None) then m[l := v.value] else m
  }

  lemma WithDifferingCopies(has: set<Lang>, from: map<Lang, string>, m: map<Lang, string>, code: string)
    requires Some(code) in has
    ensures DifferingValuesCopied(has, from, m, WithDiffering(from, m, Some(code)), {code})
  {
  }

  /** The content part of one pass of the translation loop, for a source with content in `code`. */
  method CopyTranslatedContent(src: Node, t: Node, code: string) returns (t': Node)
    requires Some(code) in src.content
    ensures t' == t.(content := t'.content, contentType := t'.contentType, fileExt := t'.fileExt)
    ensures LangValuesCopied(src.content, t.content, t'.content, {code})
    ensures DifferingValuesCopied(src.content.Keys, src.contentType, t.contentType, t'.contentType, {code})
    ensures DifferingValuesCopied(src.content.Keys, src.fileExt, t.fileExt, t'.fileExt, {code})
  {
    var l: Lang := Some(code);
    var stream := InMode(src.content, l);
    WithDifferingCopies(src.content.Keys, src.contentType, t.contentType, code);
    WithDifferingCopies(src.content.Keys, src.fileExt, t.fileExt, code);
    t' := t.(contentType := WithDiffering(src.contentType, t.contentType, l),
             fileExt := WithDiffering(src.fileExt, t.fileExt, l),
             content := t.content[l := stream.value]);
  }

  /** One pass of the translation loop of `copyNodeShallow`, for the language `code`. */
  method CopyTranslation(src: Node, t: Node, code: string, isContent: bool) returns (t': Node)
    ensures TranslationsCopied(src, t, t', {code}, isContent)
  {
    var l: Lang := Some(code);
    var title := Lookup(src.titles, l);
    var t1 := if title.Some? then t.(titles := t.titles[l := title.value]) else t;
    assert LangValuesCopied(src.titles, t.titles, t1.titles, {code});
    var t2 := CopyTranslatedAttributes(src, t1, code);
    assert AttributesCopied(src, t, t2, {code});
    if isContent && l in src.content {
      t' := CopyTranslatedContent(src, t2, code);
    } else {
      t' := t2;
      if isContent {
        NoContentToCopy(src, t, code);
      }
    }
  }

  /** Without content in `code`, the content part of the translation loop leaves everything as it is. */
  lemma NoContentToCopy(src: Node, t: Node, code: string)
    requires Some(code) !in src.content
    ensures LangValuesCopied(src.content, t.content, t.content, {code})
    ensures DifferingValuesCopied(src.content.Keys, src.contentType, t.contentType, t.contentType, {code})
    ensures DifferingValuesCopied(src.content.Keys, src.fileExt, t.fileExt, t.fileExt, {code})
  {
  }

  /** The loop of `copyNodeShallow` over the languages to copy. */
  method CopyTranslations(src: Node, t: Node, langs: seq<string>, isContent: bool) returns (t': Node)
    ensures TranslationsCopied(src, t, t', Elems(langs), isContent)
  {
    t' := t;
    for i := 0 to |langs|
      invariant TranslationsCopied(src, t, t', Elems(langs[..i]), isContent)
    {
      var t2 := CopyTranslation(src, t', langs[i], isContent);
      TranslationsCopiedStep(src, t, t', t2, Elems(langs[..i]), langs[i], isContent);
      assert (Elems(langs[..i + 1])) == (Elems(langs[..i])) + {langs[i]} by {
        assert langs[..i + 1] == langs[..i] + [langs[i]];
      }
      t' := t2;
    }
    assert langs[..|langs|] == langs;
  }

  /** The languages whose translations `copyNodeShallow` copies. */
  function CopiedLanguages(src: Node, languages: Option<seq<string>>, srcMode: Lang): set<string>
  {
    if languages.Some? then Elems(languages.value) else if srcMode.None? then Translations(src) else {}
  }

  const TargetModeError := "copyNodeShallow(): target session has to be in original mode!"
  const LanguagesError := "copyNodeShallow(): languages argument has to be null if source session is in translation mode!"

  /** The original-language part of `copyNodeShallow`, with the aliases already renamed. */
  method CopyOriginal(src: Node, t: Node, aliases: seq<string>, srcMode: Lang, isRef: bool, isContent: bool)
    returns (t': Node)
    ensures OriginalCopied(src, t, t', aliases, srcMode, isRef, isContent)
  {
    var ta := CopyOriginalAttributes(src, t, srcMode);
    var stream := InMode(src.content, srcMode);
    t' := Node(t.kind, aliases, if isRef then src.targetAlias else t.targetAlias,
               Put(t.titles, None, InMode(src.titles, srcMode)), ta.atts,
               if isContent && stream.Some? then t.content[None := stream.value] else t.content,
               if isContent then Put(t.contentType, None, InMode(src.contentType, srcMode)) else t.contentType,
               if isContent then Put(t.fileExt, None, InMode(src.fileExt, srcMode)) else t.fileExt);
    SameAttributes(src, t, ta, t', AttributeNames(src), srcMode);
  }

  lemma SameAttributes(src: Node, t: Node, ta: Node, t': Node, names: set<string>, srcMode: Lang)
    requires OriginalAttributesCopied(src, t, ta, names, srcMode) && t'.atts == ta.atts
    ensures OriginalAttributesCopied(src, t, t', names, srcMode)
  {
    forall name, l
      ensures Attribute(t', name, l) ==
        (if l.None? && name in names then AttributeInMode(src, name, srcMode) else Attribute(t, name, l))
    {
      assert Attribute(t', name, l) == Attribute(ta, name, l);
    }
  }

  /**
   * What `copyNodeShallow` makes of the target node `tar`, with the renamed `aliases`: first the
   * original language (`mid`), then the translations of `CopiedLanguages` (`t`).
   */
  ghost predicate ShallowCopied(src: Node, tar: Node, mid: Node, t: Node, aliases: seq<string>,
                                languages: Option<seq<string>>, srcMode: Lang)
  {
    OriginalCopied(src, tar, mid, aliases, srcMode, src.kind == Reference && tar.kind == Reference,
                   IsContent(src.kind) && IsContent(tar.kind))
    && TranslationsCopied(src, mid, t, CopiedLanguages(src, languages, srcMode),
                          IsContent(src.kind) && IsContent(tar.kind))
  }

  /** What `copyNodeShallow` makes of the target node `tar` once the aliases are renamed. */
  method CopyNodeValues(src: Node, tar: Node, aliases: seq<string>, languages: Option<seq<string>>, srcMode: Lang)
    returns (t: Node, ghost mid: Node)
    ensures ShallowCopied(src, tar, mid, t, aliases, languages, srcMode)
  {
    var isContent := IsContent(src.kind) && IsContent(tar.kind);
    t := CopyOriginal(src, tar, aliases, srcMode, src.kind == Reference && tar.kind == Reference, isContent);
    mid := t;
    var langs: seq<string>;
    if languages.Some? {
      langs := languages.value;
    } else if srcMode.None? {
      langs := TranslationList(src);
    } else {
      langs := [];
    }
    assert Elems(langs) == CopiedLanguages(src, languages, srcMode);
    t := CopyTranslations(src, t, langs, isContent);
  }

  /**
   * `copyNodeShallow(sourceNode, sourceSession, targetNode, targetSession, languages, …)`: copies
   * what one node holds, without its children, into the target node `tid`. The target session must
   * be in original mode, and a language list is refused while the source session is in translation
   * mode. `mid` is the node after the original-language part, before the translations.
   */
  method CopyNodeShallow(src: Node, target: NodeTree, tid: string, languages: Option<seq<string>>,
                         srcMode: Lang, tarMode: Lang, rename: string -> string, aliasMap: map<string, string>)
    returns (r: Result<map<string, string>>, ghost mid: Node)
    requires target.Valid() && tid in target.nodes
    modifies target
    ensures target.Valid() && target.kids == old(target.kids)
    ensures tid in target.nodes && target.nodes == old(target.nodes)[tid := target.nodes[tid]]
    ensures target.nodes[tid].kind == old(target.nodes)[tid].kind
    ensures tarMode.Some? ==> r == Err(TargetModeError)
    ensures tarMode.None? && languages.Some? && srcMode.Some? ==> r == Err(LanguagesError)
    ensures r.Err? ==> target.nodes == old(target.nodes)
    ensures r.Ok? ==> (tarMode.None? && (languages.None? || srcMode.None?)
      && AliasesRenamed(old(target.nodes), src.aliases, mid.aliases, aliasMap, r.value)
      && ShallowCopied(src, old(target.nodes)[tid], mid, target.nodes[tid], mid.aliases, languages, srcMode))
  {
    mid := target.nodes[tid];
    if tarMode.Some? {
      return Err(TargetModeError), mid;
    }
    if languages.Some? && srcMode.Some? {
      return Err(LanguagesError), mid;
    }
    var aliases := new string[|src.aliases|](i requires 0 <= i < |src.aliases| => src.aliases[i]);
    assert aliases[..] == src.aliases;
    var renamed := RenameAliasesIfNotUnique(aliases, target, rename, aliasMap);
    if renamed.Err? {
      return Err(renamed.error), mid;
    }
    var t;
    t, mid := CopyNodeValues(src, target.nodes[tid], aliases[..], languages, srcMode);
    target.UpdateNode(tid, t);
    r := Ok(renamed.value);
  }

  // ------------------------------------------------------------ recursive copy

  predicate IsGroupIn(nodes: map<string, Node>, id: string)
  {
    id in nodes && nodes[id].kind == Group
  }

  /**
   * How many nodes `copyNodeChildren` copies below group `g` with the depth budget `depth`, or
   * nothing when it reaches a group with a negative budget.
   */
  function CopyCount(nodes: map<string, Node>, kids: Kids, g: string, depth: int): Option<nat>
    decreases if depth < 0 then 0 else depth + 1, 1, 0
  {
    if depth < 0 then None else CopyCountOfAll(nodes, kids, ChildrenOf(kids, g), depth)
  }

  /** `count` is a group node itself and what `copyNodeChildren` copies below it with the full budget. */
  ghost predicate CountedBelow(nodes: map<string, Node>, kids: Kids, g: string, count: nat)
  {
    count >= 1 && CopyCount(nodes, kids, g, MaxCopyDepth) == Some(count - 1)
  }

  /** What copying the sibling nodes `xs` and their subtrees counts, with the budget `depth`. */
  function CopyCountOfAll(nodes: map<string, Node>, kids: Kids, xs: seq<string>, depth: int): Option<nat>
    requires depth >= 0
    decreases depth + 1, 0, |xs|
  {
    if xs == [] then Some(0)
    else
      var here := if IsGroupIn(nodes, xs[0]) then CopyCount(nodes, kids, xs[0], depth - 1) else Some(0);
      var rest := CopyCountOfAll(nodes, kids, xs[1..], depth);
      if here.Some? && rest.Some? then Some(1 + here.value + rest.value) else None
  }

  /** The count of one more sibling adds up: the node itself and what is copied below it. */
  lemma {:induction false} CopyCountOfAllSnoc(nodes: map<string, Node>, kids: Kids, xs: seq<string>, x: string, depth: int)
    requires depth >= 0
    ensures CopyCountOfAll(nodes, kids, xs + [x], depth) ==
      var here := if IsGroupIn(nodes, x) then CopyCount(nodes, kids, x, depth - 1) else Some(0);
      var before := CopyCountOfAll(nodes, kids, xs, depth);
      if here.Some? && before.Some? then Some(before.value + 1 + here.value) else None
    decreases |xs|
  {
    if xs != [] {
      assert (xs + [x])[1..] == xs[1..] + [x];
      CopyCountOfAllSnoc(nodes, kids, xs[1..], x, depth);
    } else {
      assert [x][1..] == [];
    }
  }

  /** The loop of `copyNodeChildren` counts one more child and what it copied below it. */
  lemma CopyCountStep(nodes: map<string, Node>, kids: Kids, xs: seq<string>, i: nat, depth: int, cnt: nat, below: nat, cnt': nat)
    requires depth >= 0 && i < |xs|
    requires CopyCountOfAll(nodes, kids, xs[..i], depth) == Some(cnt)
    requires if IsGroupIn(nodes, xs[i]) then CopyCount(nodes, kids, xs[i], depth - 1) == Some(below) else below == 0
    requires cnt' == cnt + 1 + below
    ensures CopyCountOfAll(nodes, kids, xs[..i + 1], depth) == Some(cnt')
  {
    CopyCountOfAllSnoc(nodes, kids, xs[..i], xs[i], depth);
    assert xs[..i + 1] == xs[..i] + [xs[i]];
  }

  /** A larger depth budget copies the same nodes. */
  lemma {:induction false} CopyCountDeeper(nodes: map<string, Node>, kids: Kids, g: string, depth: int)
    requires CopyCount(nodes, kids, g, depth).Some?
    ensures CopyCount(nodes, kids, g, depth + 1) == CopyCount(nodes, kids, g, depth)
    decreases if depth < 0 then 0 else depth + 1, 1, 0
  {
    CopyCountOfAllDeeper(nodes, kids, ChildrenOf(kids, g), depth);
  }

  lemma {:induction false} CopyCountOfAllDeeper(nodes: map<string, Node>, kids: Kids, xs: seq<string>, depth: int)
    requires depth >= 0 && CopyCountOfAll(nodes, kids, xs, depth).Some?
    ensures CopyCountOfAll(nodes, kids, xs, depth + 1) == CopyCountOfAll(nodes, kids, xs, depth)
    decreases depth + 1, 0, |xs|
  {
    if xs != [] {
      if IsGroupIn(nodes, xs[0]) {
        CopyCountDeeper(nodes, kids, xs[0], depth - 1);
      }
      CopyCountOfAllDeeper(nodes, kids, xs[1..], depth);
    }
  }

  /** Every node of `n0` is still there in `n`, holding the same. */
  ghost predicate Keeps(n0: map<string, Node>, n: map<string, Node>)
  {
    n0.Keys <= n.Keys && forall x {:trigger n[x]} {:trigger n0[x]} :: x in n0 ==> n[x] == n0[x]
  }

  /**
   * The arena `n`, `k` grew out of `n0`, `k0` by copying below group `tid`: every node that existed
   * keeps what it holds, every child list but that of `tid` is kept, and that one grew by the new
   * nodes `added`.
   */
  ghost predicate Grown(n0: map<string, Node>, k0: Kids, n: map<string, Node>, k: Kids, tid: string, added: seq<string>)
  {
    Keeps(n0, n)
    && (forall g {:trigger ChildrenOf(k, g)} {:trigger ChildrenOf(k0, g)} :: g in n0 && g != tid ==> ChildrenOf(k, g) == ChildrenOf(k0, g))
    && ChildrenOf(k, tid) == ChildrenOf(k0, tid) + added
    && (forall x {:trigger x in added} :: x in added ==> x !in n0 && x in n)
  }

  /** Growing below `tid` keeps every node and every other child list. */
  lemma GrownFrames(n0: map<string, Node>, k0: Kids, n: map<string, Node>, k: Kids, tid: string, added: seq<string>)
    requires Grown(n0, k0, n, k, tid, added)
    ensures Keeps(n0, n) && forall g :: g in n0 && g != tid ==> ChildrenOf(k, g) == ChildrenOf(k0, g)
  {
  }

  lemma GrownTrans(n0: map<string, Node>, k0: Kids, n1: map<string, Node>, k1: Kids, n2: map<string, Node>, k2: Kids,
                   tid: string, a1: seq<string>, a2: seq<string>)
    requires tid in n0
    requires Grown(n0, k0, n1, k1, tid, a1) && Grown(n1, k1, n2, k2, tid, a2)
    ensures Grown(n0, k0, n2, k2, tid, a1 + a2)
  {
  }

  /** Copying below a node `c` created after `n0` keeps what growing below `tid` achieved. */
  lemma GrownBelow(n0: map<string, Node>, k0: Kids, n1: map<string, Node>, k1: Kids, n2: map<string, Node>, k2: Kids,
                   tid: string, c: string, a1: seq<string>, a2: seq<string>)
    requires tid in n0 && c in n1 && c !in n0
    requires Grown(n0, k0, n1, k1, tid, a1) && Grown(n1, k1, n2, k2, c, a2)
    ensures Grown(n0, k0, n2, k2, tid, a1)
  {
  }

  /** The copies `added` are, position by position, of the kinds of the source nodes `children`. */
  ghost predicate KindsMatch(tn: map<string, Node>, added: seq<string>, sn: map<string, Node>, children: seq<string>)
  {
    |added| <= |children|
    && forall j {:trigger added[j]} :: 0 <= j < |added| ==> added[j] in tn && children[j] in sn && tn[added[j]].kind == sn[children[j]].kind
  }

  lemma KindsMatchStep(tn: map<string, Node>, tn': map<string, Node>,
                       added: seq<string>, x: string, sn: map<string, Node>, children: seq<string>)
    requires KindsMatch(tn, added, sn, children) && Keeps(tn, tn')
    requires |added| < |children| && children[|added|] in sn && x in tn' && tn'[x].kind == sn[children[|added|]].kind
    ensures KindsMatch(tn', added + [x], sn, children)
  {
  }

  /** The target node `t` is what `copyNodeShallow` makes of a new node for the source node `src`. */
  ghost predicate HoldsCopy(src: Node, t: Node, languages: Option<seq<string>>, srcMode: Lang)
  {
    exists mid :: ShallowCopied(src, NewNode(src.kind), mid, t, t.aliases, languages, srcMode)
  }

  /**
   * The new target node `x` holds a copy of the source node `c`; for a group, the children of `x`
   * are, in order, copies of those of `c` with `depth` levels left. Copies are nodes missing from
   * `old0`, and with a node id map every copy under a different id has its source id as a key.
   */
  ghost predicate CopiedTree(sn: map<string, Node>, sk: Kids, c: string, tn: map<string, Node>, tk: Kids, x: string,
                             depth: int, old0: set<string>, idMap: Option<map<string, string>>,
                             languages: Option<seq<string>>, srcMode: Lang)
    decreases if depth < 0 then 0 else depth + 1, 0
  {
    c in sn && x in tn && x !in old0 && HoldsCopy(sn[c], tn[x], languages, srcMode)
    && (idMap.Some? && c != x ==> c in idMap.value)
    && (sn[c].kind == Group ==>
          depth >= 0 && |ChildrenOf(tk, x)| == |ChildrenOf(sk, c)|
          && CopiedSeq(sn, sk, ChildrenOf(sk, c), tn, tk, ChildrenOf(tk, x), depth - 1, old0, idMap, languages, srcMode))
  }

  /** The target nodes `xs` are, position by position, copied trees of the source nodes `cs`. */
  ghost predicate CopiedSeq(sn: map<string, Node>, sk: Kids, cs: seq<string>, tn: map<string, Node>, tk: Kids,
                            xs: seq<string>, depth: int, old0: set<string>, idMap: Option<map<string, string>>,
                            languages: Option<seq<string>>, srcMode: Lang)
    decreases if depth < 0 then 0 else depth + 1, 1
  {
    |xs| <= |cs|
    && forall j :: 0 <= j < |xs| ==> CopiedTree(sn, sk, cs[j], tn, tk, xs[j], depth, old0, idMap, languages, srcMode)
  }

  /**
   * A copied tree stays one while the arena only grows below a node `tid` that existed before the
   * copy, the node id map only gains keys, and fewer nodes count as old.
   */
  lemma {:induction false} CopiedTreeKept(sn: map<string, Node>, sk: Kids, c: string, tn: map<string, Node>, tk: Kids,
                                          x: string, depth: int, old0: set<string>, m: Option<map<string, string>>,
                                          tn': map<string, Node>, tk': Kids, old1: set<string>,
                                          m': Option<map<string, string>>, tid: string,
                                          languages: Option<seq<string>>, srcMode: Lang)
    requires CopiedTree(sn, sk, c, tn, tk, x, depth, old0, m, languages, srcMode)
    requires old1 <= old0 && tid in old1
    requires Keeps(tn, tn') && forall g :: g in tn && g != tid ==> ChildrenOf(tk', g) == ChildrenOf(tk, g)
    requires (m.Some? <==> m'.Some?) && (m.Some? ==> m.value.Keys <= m'.value.Keys)
    ensures CopiedTree(sn, sk, c, tn', tk', x, depth, old1, m', languages, srcMode)
    decreases if depth < 0 then 0 else depth + 1, 0
  {
    assert tn'[x] == tn[x];
    assert HoldsCopy(sn[c], tn'[x], languages, srcMode);
    if sn[c].kind == Group {
      assert ChildrenOf(tk', x) == ChildrenOf(tk, x);
      CopiedSeqKept(sn, sk, ChildrenOf(sk, c), tn, tk, ChildrenOf(tk, x), depth - 1, old0, m, tn', tk', old1, m', tid,
                    languages, srcMode);
      assert CopiedSeq(sn, sk, ChildrenOf(sk, c), tn', tk', ChildrenOf(tk', x), depth - 1, old1, m', languages, srcMode);
    }
  }

  /** `CopiedTreeKept` for every tree of a sequence. */
  lemma CopiedSeqKept(sn: map<string, Node>, sk: Kids, cs: seq<string>, tn: map<string, Node>, tk: Kids,
                      xs: seq<string>, depth: int, old0: set<string>, m: Option<map<string, string>>,
                      tn': map<string, Node>, tk': Kids, old1: set<string>,
                      m': Option<map<string, string>>, tid: string,
                      languages: Option<seq<string>>, srcMode: Lang)
    requires CopiedSeq(sn, sk, cs, tn, tk, xs, depth, old0, m, languages, srcMode)
    requires old1 <= old0 && tid in old1
    requires Keeps(tn, tn') && forall g :: g in tn && g != tid ==> ChildrenOf(tk', g) == ChildrenOf(tk, g)
    requires (m.Some? <==> m'.Some?) && (m.Some? ==> m.value.Keys <= m'.value.Keys)
    ensures CopiedSeq(sn, sk, cs, tn', tk', xs, depth, old1, m', languages, srcMode)
    decreases if depth < 0 then 0 else depth + 1, 1
  {
    forall j | 0 <= j < |xs|
      ensures CopiedTree(sn, sk, cs[j], tn', tk', xs[j], depth, old1, m', languages, srcMode)
    {
      CopiedTreeKept(sn, sk, cs[j], tn, tk, xs[j], depth, old0, m, tn', tk', old1, m', tid, languages, srcMode);
    }
  }

  /**
   * What the copy does to the node id map `m0`, giving `m`: no key is lost, and every entry it adds
   * or changes maps a source node id to a new node holding a copy of that source node.
   */
  ghost predicate IdsMapped(m0: Option<map<string, string>>, m: Option<map<string, string>>, sn: map<string, Node>,
                            tn: map<string, Node>, old0: set<string>, languages: Option<seq<string>>, srcMode: Lang)
  {
    (m0.Some? <==> m.Some?)
    && (m0.Some? ==>
          m0.value.Keys <= m.value.Keys
          && forall k :: k in m.value && (k !in m0.value || m.value[k] != m0.value[k]) ==>
               k in sn && m.value[k] in tn && m.value[k] !in old0 && HoldsCopy(sn[k], tn[m.value[k]], languages, srcMode))
  }

  lemma IdsMappedTrans(m0: Option<map<string, string>>, m1: Option<map<string, string>>, m2: Option<map<string, string>>,
                       sn: map<string, Node>, tn1: map<string, Node>, tn2: map<string, Node>,
                       old0: set<string>, old1: set<string>, languages: Option<seq<string>>, srcMode: Lang)
    requires IdsMapped(m0, m1, sn, tn1, old0, languages, srcMode) && IdsMapped(m1, m2, sn, tn2, old1, languages, srcMode)
    requires Keeps(tn1, tn2) && old0 <= old1
    ensures IdsMapped(m0, m2, sn, tn2, old0, languages, srcMode)
  {
    if m0.Some? {
      forall k | k in m2.value && (k !in m0.value || m2.value[k] != m0.value[k])
        ensures k in sn && m2.value[k] in tn2 && m2.value[k] !in old0 && HoldsCopy(sn[k], tn2[m2.value[k]], languages, srcMode)
      {
        if k in m1.value && m2.value[k] == m1.value[k] {
          assert tn2[m1.value[k]] == tn1[m1.value[k]];
        }
      }
    }
  }

  /** The result of a copy: how many nodes it copied, and the node id and alias maps it filled. */
  datatype Copied = Copied(count: nat, nodeIdMap: Option<map<string, string>>, aliasMap: map<string, string>)

  /**
   * `copyNodeChildren(sourceGroup, …, targetGroup, …, maxDepth, …)`: appends to the target group a
   * copy of each child of the source group (of the same kind, shallow-copied), and copies the
   * children of each copied group with one level less, failing once the budget is below zero. Nodes
   * that existed before keep what they hold, and only the target group's child list grows; `added`
   * are the new child ids.
   */
  method CopyNodeChildren(sn: map<string, Node>, sk: Kids, sid: string, target: NodeTree, tid: string,
                          languages: Option<seq<string>>, maxDepth: int, srcMode: Lang, tarMode: Lang,
                          idMode: int, nodeIdMap: Option<map<string, string>>,
                          rename: string -> string, aliasMap: map<string, string>)
    returns (r: Result<Copied>, ghost added: seq<string>)
    requires Forest(sn, sk) && target.Valid()
    requires sid in sn && tid in target.nodes && target.nodes[tid].kind == Group
    modifies target
    decreases if maxDepth < 0 then 0 else maxDepth + 1, 3
    ensures target.Valid()
    ensures maxDepth < 0 ==> r == Err("Reached maximum copy depth!")
    ensures r.Ok? ==> CopyCount(sn, sk, sid, maxDepth) == Some(r.value.count)
    ensures r.Ok? ==> (nodeIdMap.Some? <==> r.value.nodeIdMap.Some?)
    ensures r.Ok? && nodeIdMap.Some? ==> nodeIdMap.value.Keys <= r.value.nodeIdMap.value.Keys
    ensures Grown(old(target.nodes), old(target.kids), target.nodes, target.kids, tid, added)
    ensures r.Ok? ==> |added| == |ChildrenOf(sk, sid)|
                      && KindsMatch(target.nodes, added, sn, ChildrenOf(sk, sid))
    ensures r.Ok? ==> IdsMapped(nodeIdMap, r.value.nodeIdMap, sn, target.nodes, old(target.nodes).Keys, languages, srcMode)
    ensures r.Ok? ==>
      CopiedSeq(sn, sk, ChildrenOf(sk, sid), target.nodes, target.kids, added, maxDepth - 1, old(target.nodes).Keys,
                r.value.nodeIdMap, languages, srcMode)
  {
    added := [];
    if maxDepth < 0 {
      return Err("Reached maximum copy depth!"), added;
    }
    var children := ChildrenOf(sk, sid);
    r := Ok(Copied(0, nodeIdMap, aliasMap));
    for i := 0 to |children|
      invariant target.Valid() && tid in target.nodes && target.nodes[tid].kind == Group
      invariant Grown(old(target.nodes), old(target.kids), target.nodes, target.kids, tid, added)
      invariant r.Ok? && |added| == i && KindsMatch(target.nodes, added, sn, children)
      invariant r.Ok? && CopyCountOfAll(sn, sk, children[..i], maxDepth) == Some(r.value.count)
      invariant r.Ok? && (nodeIdMap.Some? <==> r.value.nodeIdMap.Some?)
      invariant r.Ok? && nodeIdMap.Some? ==> nodeIdMap.value.Keys <= r.value.nodeIdMap.value.Keys
      invariant r.Ok? && IdsMapped(nodeIdMap, r.value.nodeIdMap, sn, target.nodes, old(target.nodes).Keys, languages, srcMode)
      invariant r.Ok? && CopiedSeq(sn, sk, children, target.nodes, target.kids, added, maxDepth - 1, old(target.nodes).Keys,
                                   r.value.nodeIdMap, languages, srcMode)
    {
      r, added := CopyNextChild(sn, sk, children, i, target, tid, old(target.nodes), old(target.kids), added,
                                r.value.count, languages, maxDepth, srcMode, tarMode, idMode,
                                nodeIdMap, r.value.nodeIdMap, rename, r.value.aliasMap);
      if r.Err? {
        return;
      }
    }
    assert children[..|children|] == children;
  }

  /**
   * One pass of the loop of `copyNodeChildren`: the `i`-th child is copied below `tid` behind the
   * copies made so far, and its count is added to theirs.
   */
  method CopyNextChild(sn: map<string, Node>, sk: Kids, children: seq<string>, i: nat, target: NodeTree, tid: string,
                       ghost n0: map<string, Node>, ghost k0: Kids, ghost added: seq<string>, cnt: nat,
                       languages: Option<seq<string>>, maxDepth: int, srcMode: Lang, tarMode: Lang,
                       idMode: int, ghost m0: Option<map<string, string>>, idMap: Option<map<string, string>>,
                       rename: string -> string, aMap: map<string, string>)
    returns (r: Result<Copied>, ghost added': seq<string>)
    requires Forest(sn, sk) && target.Valid() && maxDepth >= 0
    requires i < |children| && children[i] in sn
    requires tid in n0 && tid in target.nodes && target.nodes[tid].kind == Group
    requires Grown(n0, k0, target.nodes, target.kids, tid, added)
    requires |added| == i && KindsMatch(target.nodes, added, sn, children)
    requires IdsMapped(m0, idMap, sn, target.nodes, n0.Keys, languages, srcMode)
    requires CopiedSeq(sn, sk, children, target.nodes, target.kids, added, maxDepth - 1, n0.Keys, idMap, languages, srcMode)
    requires CopyCountOfAll(sn, sk, children[..i], maxDepth) == Some(cnt)
    modifies target
    decreases maxDepth + 1, 2
    ensures target.Valid() && tid in target.nodes && target.nodes[tid].kind == Group
    ensures Grown(n0, k0, target.nodes, target.kids, tid, added')
    ensures r.Ok? ==> |added'| == i + 1 && KindsMatch(target.nodes, added', sn, children)
    ensures r.Ok? ==> CopyCountOfAll(sn, sk, children[..i + 1], maxDepth) == Some(r.value.count)
    ensures r.Ok? ==> (idMap.Some? <==> r.value.nodeIdMap.Some?)
    ensures r.Ok? && idMap.Some? ==> idMap.value.Keys <= r.value.nodeIdMap.value.Keys
    ensures r.Ok? ==> IdsMapped(m0, r.value.nodeIdMap, sn, target.nodes, n0.Keys, languages, srcMode)
    ensures r.Ok? ==>
      CopiedSeq(sn, sk, children, target.nodes, target.kids, added', maxDepth - 1, n0.Keys, r.value.nodeIdMap, languages, srcMode)
  {
    ghost var n1, k1 := target.nodes, target.kids;
    var sub, idMap', aMap';
    ghost var appended;
    sub, idMap', aMap', appended := CopyChild(sn, sk, children[i], target, tid, languages, maxDepth, srcMode, tarMode,
                                              idMode, idMap, rename, aMap);
    GrownTrans(n0, k0, n1, k1, target.nodes, target.kids, tid, added, appended);
    added' := added + appended;
    if sub.Err? {
      r := Err(sub.error);
    } else {
      KindsMatchStep(n1, target.nodes, added, sub.value.0, sn, children);
      ChildAppended(sn, sk, children, n0, m0, n1, k1, idMap, target.nodes, target.kids, idMap', added, children[i], sub.value.0, tid,
                    maxDepth - 1, languages, srcMode);
      var cnt': nat := cnt + 1 + sub.value.1;
      CopyCountStep(sn, sk, children, i, maxDepth, cnt, sub.value.1, cnt');
      r := Ok(Copied(cnt', idMap', aMap'));
    }
  }

  /**
   * The copies made so far stay copied trees when the tree of the next source joins them, the
   * arena changing only the child list of `tid` in between.
   */
  lemma CopiesJoined(sn: map<string, Node>, sk: Kids, children: seq<string>,
                      n0: map<string, Node>, m0: Option<map<string, string>>,
                      n1: map<string, Node>, k1: Kids, m1: Option<map<string, string>>,
                      n2: map<string, Node>, k2: Kids, m2: Option<map<string, string>>,
                      added: seq<string>, child: string, clone: string, tid: string, depth: int,
                      languages: Option<seq<string>>, srcMode: Lang)
    requires tid in n0 && Keeps(n0, n1) && |added| < |children| && child == children[|added|]
    requires IdsMapped(m0, m1, sn, n1, n0.Keys, languages, srcMode)
    requires CopiedSeq(sn, sk, children, n1, k1, added, depth, n0.Keys, m1, languages, srcMode)
    requires Keeps(n1, n2) && forall g :: g in n1 && g != tid ==> ChildrenOf(k2, g) == ChildrenOf(k1, g)
    requires IdsMapped(m1, m2, sn, n2, n1.Keys, languages, srcMode)
    requires CopiedSeq(sn, sk, [child], n2, k2, [clone], depth, n1.Keys, m2, languages, srcMode)
    ensures IdsMapped(m0, m2, sn, n2, n0.Keys, languages, srcMode)
    ensures CopiedSeq(sn, sk, children, n2, k2, added + [clone], depth, n0.Keys, m2, languages, srcMode)
  {
    IdsMappedTrans(m0, m1, m2, sn, n1, n2, n0.Keys, n1.Keys, languages, srcMode);
    CopiedSeqKept(sn, sk, children, n1, k1, added, depth, n0.Keys, m1, n2, k2, n0.Keys, m2, tid, languages, srcMode);
    assert CopiedTree(sn, sk, [child][0], n2, k2, [clone][0], depth, n1.Keys, m2, languages, srcMode);
    CopiedTreeKept(sn, sk, child, n2, k2, clone, depth, n1.Keys, m2, n2, k2, n0.Keys, m2, tid,
                   languages, srcMode);
    CopiedSeqSnoc(sn, sk, children, n2, k2, added, clone, depth, n0.Keys, m2, languages, srcMode);
  }

  /** `CopiesJoined` for a next child copied below the group `tid` (see `copyNodeChildren`). */
  lemma ChildAppended(sn: map<string, Node>, sk: Kids, children: seq<string>,
                      n0: map<string, Node>, m0: Option<map<string, string>>,
                      n1: map<string, Node>, k1: Kids, m1: Option<map<string, string>>,
                      n2: map<string, Node>, k2: Kids, m2: Option<map<string, string>>,
                      added: seq<string>, child: string, clone: string, tid: string, depth: int,
                      languages: Option<seq<string>>, srcMode: Lang)
    requires tid in n0 && Keeps(n0, n1) && |added| < |children| && child == children[|added|]
    requires IdsMapped(m0, m1, sn, n1, n0.Keys, languages, srcMode)
    requires CopiedSeq(sn, sk, children, n1, k1, added, depth, n0.Keys, m1, languages, srcMode)
    requires Grown(n1, k1, n2, k2, tid, [clone]) && IdsMapped(m1, m2, sn, n2, n1.Keys, languages, srcMode)
    requires CopiedSeq(sn, sk, [child], n2, k2, [clone], depth, n1.Keys, m2, languages, srcMode)
    ensures IdsMapped(m0, m2, sn, n2, n0.Keys, languages, srcMode)
    ensures CopiedSeq(sn, sk, children, n2, k2, added + [clone], depth, n0.Keys, m2, languages, srcMode)
  {
    GrownFrames(n1, k1, n2, k2, tid, [clone]);
    CopiesJoined(sn, sk, children, n0, m0, n1, k1, m1, n2, k2, m2, added, child, clone, tid, depth, languages, srcMode);
  }

  /** A copied sequence of trees grows by the copied tree of the next source. */
  lemma CopiedSeqSnoc(sn: map<string, Node>, sk: Kids, cs: seq<string>, tn: map<string, Node>, tk: Kids,
                      xs: seq<string>, x: string, depth: int, old0: set<string>, idMap: Option<map<string, string>>,
                      languages: Option<seq<string>>, srcMode: Lang)
    requires |xs| < |cs| && CopiedSeq(sn, sk, cs, tn, tk, xs, depth, old0, idMap, languages, srcMode)
    requires CopiedTree(sn, sk, cs[|xs|], tn, tk, x, depth, old0, idMap, languages, srcMode)
    ensures CopiedSeq(sn, sk, cs, tn, tk, xs + [x], depth, old0, idMap, languages, srcMode)
  {
    var xs' := xs + [x];
    forall j | 0 <= j < |xs'|
      ensures CopiedTree(sn, sk, cs[j], tn, tk, xs'[j], depth, old0, idMap, languages, srcMode)
    {
      if j < |xs| {
        assert xs'[j] == xs[j];
      }
    }
  }

  /**
   * The first half of one pass of the loop of `copyNodeChildren`: a node of the child's kind is
   * created, recorded in the node id map when its id differs, appended to the target group and
   * shallow-copied. The result is the new node's id and the alias map after the shallow copy.
   */
  method CloneIntoGroup(src: Node, child: string, target: NodeTree, tid: string,
                        languages: Option<seq<string>>, srcMode: Lang, tarMode: Lang,
                        idMode: int, idMap: Option<map<string, string>>,
                        rename: string -> string, aMap: map<string, string>)
    returns (r: Result<(string, map<string, string>)>, idMap': Option<map<string, string>>,
             ghost appended: seq<string>)
    requires target.Valid() && tid in target.nodes && target.nodes[tid].kind == Group
    modifies target
    ensures target.Valid()
    ensures idMap.Some? <==> idMap'.Some?
    ensures idMap.Some? ==> idMap.value.Keys <= idMap'.value.Keys
    ensures Grown(old(target.nodes), old(target.kids), target.nodes, target.kids, tid, appended)
    ensures r.Ok? ==> (appended == [r.value.0] && r.value.0 !in old(target.nodes)
                       && r.value.0 in target.nodes && target.nodes[r.value.0].kind == src.kind)
    ensures r.Ok? ==> ChildrenOf(target.kids, r.value.0) == [] && HoldsCopy(src, target.nodes[r.value.0], languages, srcMode)
    ensures r.Ok? && idMap.Some? ==>
      idMap'.value == if child == r.value.0 then idMap.value else idMap.value[child := r.value.0]
  {
    idMap', appended := idMap, [];
    var created := CreateNodeOfSameType(src.kind, child, target, idMode);
    if created.Err? {
      return Err(created.error), idMap', appended;
    }
    var clone := created.value;
    if idMap.Some? && child != clone {
      idMap' := Some(idMap.value[child := clone]);
    }
    DetachedParentless(target.kids, clone);
    AppendedMeans(target.kids, tid, clone);
    target.AppendChild(tid, clone);
    appended := [clone];
    assert clone !in old(target.kids);
    var shallow := ShallowCopyNew(src, target, clone, languages, srcMode, tarMode, rename, aMap);
    if shallow.Err? {
      return Err(shallow.error), idMap', appended;
    }
    r := Ok((clone, shallow.value));
  }

  /** `copyNodeShallow` into a node just created for the source node `src`: it then holds a copy of it. */
  method ShallowCopyNew(src: Node, target: NodeTree, clone: string, languages: Option<seq<string>>,
                        srcMode: Lang, tarMode: Lang, rename: string -> string, aMap: map<string, string>)
    returns (r: Result<map<string, string>>)
    requires target.Valid() && clone in target.nodes && target.nodes[clone] == NewNode(src.kind)
    modifies target
    ensures target.Valid() && target.kids == old(target.kids)
    ensures clone in target.nodes && target.nodes == old(target.nodes)[clone := target.nodes[clone]]
    ensures target.nodes[clone].kind == src.kind
    ensures r.Ok? ==> HoldsCopy(src, target.nodes[clone], languages, srcMode)
  {
    ghost var mid;
    r, mid := CopyNodeShallow(src, target, clone, languages, srcMode, tarMode, rename, aMap);
    if r.Ok? {
      assert ShallowCopied(src, NewNode(src.kind), mid, target.nodes[clone], target.nodes[clone].aliases, languages, srcMode);
    }
  }

  /** A clone just made for `child` is recorded in the node id map as `copyNodeChildren` records it. */
  lemma CloneMapped(m0: Option<map<string, string>>, m: Option<map<string, string>>, sn: map<string, Node>,
                    child: string, tn: map<string, Node>, old0: set<string>, clone: string,
                    languages: Option<seq<string>>, srcMode: Lang)
    requires child in sn && clone in tn && clone !in old0 && HoldsCopy(sn[child], tn[clone], languages, srcMode)
    requires m0.Some? <==> m.Some?
    requires m0.Some? ==> m.value == if child == clone then m0.value else m0.value[child := clone]
    ensures IdsMapped(m0, m, sn, tn, old0, languages, srcMode)
    ensures m.Some? && child != clone ==> child in m.value
  {
  }

  /**
   * A group child cloned to `clone`, whose children were then copied below it as `below`, is a
   * copied tree.
   */
  lemma GroupCopied(sn: map<string, Node>, sk: Kids, child: string, n1: map<string, Node>, k1: Kids,
                    m1: Option<map<string, string>>, n2: map<string, Node>, k2: Kids, m2: Option<map<string, string>>,
                    clone: string, below: seq<string>, cs: seq<string>, depth: int, old0: set<string>, tid: string,
                    languages: Option<seq<string>>, srcMode: Lang)
    requires child in sn && sn[child].kind == Group && depth >= 0 && cs == ChildrenOf(sk, child)
    requires clone in n1 && clone !in old0 && old0 <= n1.Keys && tid in old0
    requires HoldsCopy(sn[child], n1[clone], languages, srcMode) && ChildrenOf(k1, clone) == []
    requires m1.Some? && child != clone ==> child in m1.value
    requires Grown(n1, k1, n2, k2, clone, below) && IdsMapped(m1, m2, sn, n2, n1.Keys, languages, srcMode)
    requires |below| == |cs|
    ensures CopiedSeq(sn, sk, cs, n2, k2, below, depth - 1, n1.Keys, m2, languages, srcMode) ==>
            CopiedSeq(sn, sk, [child], n2, k2, [clone], depth, old0, m2, languages, srcMode)
  {
    if CopiedSeq(sn, sk, cs, n2, k2, below, depth - 1, n1.Keys, m2, languages, srcMode) {
      assert n2[clone] == n1[clone];
      assert ChildrenOf(k2, clone) == below;
      CopiedSeqKept(sn, sk, cs, n2, k2, below, depth - 1, n1.Keys, m2, n2, k2, old0, m2, tid,
                    languages, srcMode);
      CopiedSingle(sn, sk, child, n2, k2, clone, depth, old0, m2, languages, srcMode);
    }
  }

  /** One copied tree is a copied sequence of length one. */
  lemma CopiedSingle(sn: map<string, Node>, sk: Kids, c: string, tn: map<string, Node>, tk: Kids, x: string,
                     depth: int, old0: set<string>, idMap: Option<map<string, string>>,
                     languages: Option<seq<string>>, srcMode: Lang)
    requires CopiedTree(sn, sk, c, tn, tk, x, depth, old0, idMap, languages, srcMode)
    ensures CopiedSeq(sn, sk, [c], tn, tk, [x], depth, old0, idMap, languages, srcMode)
  {
  }

  /** A child that is not a group is a copied tree once it is cloned and recorded. */
  lemma LeafCopied(sn: map<string, Node>, sk: Kids, child: string, tn: map<string, Node>, tk: Kids, clone: string,
                   depth: int, old0: set<string>, m: Option<map<string, string>>,
                   languages: Option<seq<string>>, srcMode: Lang)
    requires child in sn && sn[child].kind != Group
    requires clone in tn && clone !in old0 && HoldsCopy(sn[child], tn[clone], languages, srcMode)
    requires m.Some? && child != clone ==> child in m.value
    ensures CopiedSeq(sn, sk, [child], tn, tk, [clone], depth, old0, m, languages, srcMode)
  {
    assert CopiedTree(sn, sk, child, tn, tk, clone, depth, old0, m, languages, srcMode);
  }

  /**
   * One pass of the loop of `copyNodeChildren`: the child is cloned into the target group (see
   * `CloneIntoGroup`); a group's own children follow with one level less.
   */
  method CopyChild(sn: map<string, Node>, sk: Kids, child: string, target: NodeTree, tid: string,
                   languages: Option<seq<string>>, maxDepth: int, srcMode: Lang, tarMode: Lang,
                   idMode: int, idMap: Option<map<string, string>>,
                   rename: string -> string, aMap: map<string, string>)
    returns (r: Result<(string, nat)>, idMap': Option<map<string, string>>, aMap': map<string, string>,
             ghost appended: seq<string>)
    requires Forest(sn, sk) && target.Valid() && maxDepth >= 0
    requires child in sn && tid in target.nodes && target.nodes[tid].kind == Group
    modifies target
    decreases maxDepth + 1, 1
    ensures target.Valid()
    ensures idMap.Some? <==> idMap'.Some?
    ensures idMap.Some? ==> idMap.value.Keys <= idMap'.value.Keys
    ensures Grown(old(target.nodes), old(target.kids), target.nodes, target.kids, tid, appended)
    ensures r.Ok? ==> appended == [r.value.0] && target.nodes[r.value.0].kind == sn[child].kind
    ensures r.Ok? ==> (if IsGroupIn(sn, child)
                       then CopyCount(sn, sk, child, maxDepth - 1) == Some(r.value.1)
                       else r.value.1 == 0)
    ensures r.Ok? ==> IdsMapped(idMap, idMap', sn, target.nodes, old(target.nodes).Keys, languages, srcMode)
    ensures r.Ok? ==>
      CopiedSeq(sn, sk, [child], target.nodes, target.kids, [r.value.0], maxDepth - 1, old(target.nodes).Keys, idMap', languages, srcMode)
  {
    aMap' := aMap;
    var placed;
    placed, idMap', appended := CloneIntoGroup(sn[child], child, target, tid, languages, srcMode, tarMode,
                                               idMode, idMap, rename, aMap);
    if placed.Err? {
      return Err(placed.error), idMap', aMap', appended;
    }
    var clone := placed.value.0;
    aMap' := placed.value.1;
    var below := 0;
    CloneMapped(idMap, idMap', sn, child, target.nodes, old(target.nodes).Keys, clone, languages, srcMode);
    if sn[child].kind != Group {
      LeafCopied(sn, sk, child, target.nodes, target.kids, clone, maxDepth - 1, old(target.nodes).Keys, idMap',
                 languages, srcMode);
    } else {
      var sub := CopyBelowClone(sn, sk, child, target, tid, clone, languages, maxDepth, srcMode, tarMode, idMode,
                                idMap', rename, aMap', old(target.nodes), old(target.kids), idMap);
      if sub.Err? {
        return Err(sub.error), idMap', aMap', appended;
      }
      below := sub.value.count;
      idMap' := sub.value.nodeIdMap;
      aMap' := sub.value.aliasMap;
    }
    r := Ok((clone, below));
  }

  /**
   * The second half of one pass of the loop of `copyNodeChildren` for a group child: the children
   * of the source group are copied below its fresh clone with one level less. `n0`, `k0` and `m0`
   * are the target tree and the node id map before the clone was made.
   */
  method CopyBelowClone(sn: map<string, Node>, sk: Kids, child: string, target: NodeTree, tid: string, clone: string,
                        languages: Option<seq<string>>, maxDepth: int, srcMode: Lang, tarMode: Lang,
                        idMode: int, idMap: Option<map<string, string>>,
                        rename: string -> string, aMap: map<string, string>,
                        ghost n0: map<string, Node>, ghost k0: Kids, ghost m0: Option<map<string, string>>)
    returns (r: Result<Copied>)
    requires Forest(sn, sk) && target.Valid() && maxDepth >= 0
    requires child in sn && sn[child].kind == Group
    requires tid in n0 && clone in target.nodes && clone !in n0 && target.nodes[clone].kind == Group
    requires HoldsCopy(sn[child], target.nodes[clone], languages, srcMode) && ChildrenOf(target.kids, clone) == []
    requires idMap.Some? && child != clone ==> child in idMap.value
    requires Grown(n0, k0, target.nodes, target.kids, tid, [clone])
    requires IdsMapped(m0, idMap, sn, target.nodes, n0.Keys, languages, srcMode)
    modifies target
    decreases maxDepth + 1, 0
    ensures target.Valid()
    ensures Grown(n0, k0, target.nodes, target.kids, tid, [clone])
    ensures clone in target.nodes && target.nodes[clone] == old(target.nodes[clone])
    ensures r.Ok? ==> CopyCount(sn, sk, child, maxDepth - 1) == Some(r.value.count)
    ensures r.Ok? ==> IdsMapped(m0, r.value.nodeIdMap, sn, target.nodes, n0.Keys, languages, srcMode)
    ensures r.Ok? ==>
      CopiedSeq(sn, sk, [child], target.nodes, target.kids, [clone], maxDepth - 1, n0.Keys, r.value.nodeIdMap,
                languages, srcMode)
  {
    ghost var n1, k1 := target.nodes, target.kids;
    ghost var below;
    r, below := CopyNodeChildren(sn, sk, child, target, clone, languages, maxDepth - 1, srcMode, tarMode,
                                 idMode, idMap, rename, aMap);
    GrownBelow(n0, k0, n1, k1, target.nodes, target.kids, tid, clone, [clone], below);
    if r.Ok? {
      GroupCopied(sn, sk, child, n1, k1, idMap, target.nodes, target.kids, r.value.nodeIdMap, clone, below,
                  ChildrenOf(sk, child), maxDepth - 1, n0.Keys, tid, languages, srcMode);
      IdsMappedTrans(m0, idMap, r.value.nodeIdMap, sn, n1, target.nodes, n0.Keys, n1.Keys, languages, srcMode);
    }
  }

  // ------------------------------------------------------------ entry points

  /**
   * `copyNode(sourceNode, …, targetNode, …)`: copies the node `sid` into the existing target node
   * `tid`, and when both are groups, the subtree below it with the budget `MaxCopyDepth`. It counts
   * the target node itself and every node copied below it. `mid` is the target node after the
   * original-language part of the shallow copy; `added` are the new children of `tid`.
   */
  method CopyNode(sn: map<string, Node>, sk: Kids, sid: string, target: NodeTree, tid: string,
                  languages: Option<seq<string>>, srcMode: Lang, tarMode: Lang,
                  idMode: int, nodeIdMap: Option<map<string, string>>,
                  rename: string -> string, aliasMap: map<string, string>)
    returns (r: Result<Copied>, ghost mid: Node, ghost added: seq<string>)
    requires Forest(sn, sk) && target.Valid()
    requires sid in sn && tid in target.nodes
    modifies target
    ensures target.Valid() && tid in target.nodes && target.nodes[tid].kind == old(target.nodes)[tid].kind
    ensures Grown(old(target.nodes)[tid := target.nodes[tid]], old(target.kids), target.nodes, target.kids, tid, added)
    ensures tarMode.Some? ==> r == Err(TargetModeError)
    ensures r.Ok? ==> ShallowCopied(sn[sid], old(target.nodes)[tid], mid, target.nodes[tid], mid.aliases, languages, srcMode)
    ensures r.Ok? ==> (nodeIdMap.Some? <==> r.value.nodeIdMap.Some?)
    ensures r.Ok? && nodeIdMap.Some? ==> nodeIdMap.value.Keys <= r.value.nodeIdMap.value.Keys
    ensures r.Ok? ==> r.value.count >= 1
    ensures r.Ok? ==> IdsMapped(nodeIdMap, r.value.nodeIdMap, sn, target.nodes, old(target.nodes).Keys, languages, srcMode)
    ensures r.Ok? && IsGroupIn(sn, sid) && old(target.nodes)[tid].kind == Group ==>
      (CountedBelow(sn, sk, sid, r.value.count)
       && |added| == |ChildrenOf(sk, sid)|
       && KindsMatch(target.nodes, added, sn, ChildrenOf(sk, sid))
       && CopiedSeq(sn, sk, ChildrenOf(sk, sid), target.nodes, target.kids, added, MaxCopyDepth - 1,
                    old(target.nodes).Keys, r.value.nodeIdMap, languages, srcMode))
    ensures r.Ok? && !(IsGroupIn(sn, sid) && old(target.nodes)[tid].kind == Group) ==>
      r.value.count == 1 && added == []
  {
    added := [];
    var shallow;
    shallow, mid := CopyNodeShallow(sn[sid], target, tid, languages, srcMode, tarMode, rename, aliasMap);
    if shallow.Err? {
      return Err(shallow.error), mid, added;
    }
    ghost var n1 := target.nodes;
    r, added := CopyNodeBelow(sn, sk, sid, target, tid, languages, srcMode, tarMode, idMode, nodeIdMap, rename,
                              shallow.value);
    assert old(target.nodes)[tid := target.nodes[tid]] == n1;
    assert n1.Keys == old(target.nodes).Keys;
  }

  /**
   * The part of `copyNode` after the shallow copy: when both nodes are groups, the children of
   * `sid` are copied below `tid` with the budget `MaxCopyDepth`; the count includes the node `tid`.
   */
  method CopyNodeBelow(sn: map<string, Node>, sk: Kids, sid: string, target: NodeTree, tid: string,
                       languages: Option<seq<string>>, srcMode: Lang, tarMode: Lang,
                       idMode: int, nodeIdMap: Option<map<string, string>>,
                       rename: string -> string, aliasMap: map<string, string>)
    returns (r: Result<Copied>, ghost added: seq<string>)
    requires Forest(sn, sk) && target.Valid()
    requires sid in sn && tid in target.nodes
    modifies target
    ensures target.Valid() && tid in target.nodes && target.nodes[tid] == old(target.nodes)[tid]
    ensures Grown(old(target.nodes), old(target.kids), target.nodes, target.kids, tid, added)
    ensures r.Ok? ==> (nodeIdMap.Some? <==> r.value.nodeIdMap.Some?)
    ensures r.Ok? && nodeIdMap.Some? ==> nodeIdMap.value.Keys <= r.value.nodeIdMap.value.Keys
    ensures r.Ok? ==> r.value.count >= 1
    ensures r.Ok? ==> IdsMapped(nodeIdMap, r.value.nodeIdMap, sn, target.nodes, old(target.nodes).Keys, languages, srcMode)
    ensures r.Ok? && IsGroupIn(sn, sid) && old(target.nodes)[tid].kind == Group ==>
      (CountedBelow(sn, sk, sid, r.value.count)
       && |added| == |ChildrenOf(sk, sid)|
       && KindsMatch(target.nodes, added, sn, ChildrenOf(sk, sid))
       && CopiedSeq(sn, sk, ChildrenOf(sk, sid), target.nodes, target.kids, added, MaxCopyDepth - 1,
                    old(target.nodes).Keys, r.value.nodeIdMap, languages, srcMode))
    ensures r.Ok? && !(IsGroupIn(sn, sid) && old(target.nodes)[tid].kind == Group) ==>
      r.value.count == 1 && added == []
  {
    added := [];
    if sn[sid].kind == Group && target.nodes[tid].kind == Group {
      var sub;
      sub, added := CopyNodeChildren(sn, sk, sid, target, tid, languages, MaxCopyDepth, srcMode, tarMode,
                                     idMode, nodeIdMap, rename, aliasMap);
      if sub.Err? {
        return Err(sub.error), added;
      }
      r := Ok(sub.value.(count := 1 + sub.value.count));
    } else {
      r := Ok(Copied(1, nodeIdMap, aliasMap));
    }
  }

  /** Position of `x` in `xs`. */
  function IndexOf(xs: seq<string>, x: string): (i: nat)
    requires x in xs
    ensures i < |xs| && xs[i] == x && x !in xs[..i]
  {
    if xs[0] == x then 0 else 1 + IndexOf(xs[1..], x)
  }

  /** The children of a group in front of the insertion point `nodeAfter` (all of them for none). */
  function Front(xs: seq<string>, nodeAfter: Option<string>): seq<string>
    requires nodeAfter.Some? ==> nodeAfter.value in xs
  {
    if nodeAfter.None? then xs else xs[..IndexOf(xs, nodeAfter.value)]
  }

  /** The children from the insertion point `nodeAfter` on: `nodeAfter` and its later siblings. */
  function Back(xs: seq<string>, nodeAfter: Option<string>): (r: seq<string>)
    requires nodeAfter.Some? ==> nodeAfter.value in xs
    ensures Front(xs, nodeAfter) + r == xs
    ensures nodeAfter.None? <==> r == []
    ensures nodeAfter.Some? ==> r[0] == nodeAfter.value
  {
    if nodeAfter.None? then [] else xs[IndexOf(xs, nodeAfter.value)..]
  }

  /**
   * The arena `n`, `k` grew out of `n0`, `k0` by placing the new nodes `copies` between the
   * children `pre` and `post` of `parent`: every node that existed keeps what it holds and every
   * other child list is kept.
   */
  ghost predicate Positioned(n0: map<string, Node>, k0: Kids, n: map<string, Node>, k: Kids, parent: string,
                             pre: seq<string>, copies: seq<string>, post: seq<string>)
  {
    Keeps(n0, n)
    && (forall g {:trigger ChildrenOf(k, g)} {:trigger ChildrenOf(k0, g)} :: g in n0 && g != parent ==> ChildrenOf(k, g) == ChildrenOf(k0, g))
    && ChildrenOf(k0, parent) == pre + post
    && ChildrenOf(k, parent) == pre + copies + post
    && (forall x {:trigger x in copies} :: x in copies ==> x !in n0 && x in n)
  }

  lemma PositionedTrans(n0: map<string, Node>, k0: Kids, n1: map<string, Node>, k1: Kids, n2: map<string, Node>, k2: Kids,
                        parent: string, pre: seq<string>, copies: seq<string>, more: seq<string>, post: seq<string>)
    requires parent in n0
    requires Positioned(n0, k0, n1, k1, parent, pre, copies, post)
    requires Positioned(n1, k1, n2, k2, parent, pre + copies, more, post)
    ensures Positioned(n0, k0, n2, k2, parent, pre, copies + more, post)
  {
    assert pre + copies + more + post == pre + (copies + more) + post;
  }

  lemma DistinctIndex(xs: seq<string>, i: nat, j: nat)
    requires Distinct(xs) && i < |xs| && j < |xs| && xs[i] == xs[j]
    ensures i == j
  {
  }

  /**
   * `targetParent.insertBefore(copy, nodeAfter)` for a new node `copy`: it lands between the
   * children `pre` and `post`, in front of `nodeAfter`, or at the end when there is none.
   */
  method PlaceCopy(target: NodeTree, parent: string, c: string, nodeAfter: Option<string>,
                   ghost pre: seq<string>, ghost post: seq<string>)
    requires target.Valid() && parent in target.nodes && target.nodes[parent].kind == Group && c in target.nodes
    requires Parentless(target.kids, c)
    requires ChildrenOf(target.kids, parent) == pre + post
    requires nodeAfter.None? ==> post == []
    requires nodeAfter.Some? ==> post != [] && post[0] == nodeAfter.value
    modifies target
    ensures target.Valid() && target.nodes == old(target.nodes)
    ensures ChildrenOf(target.kids, parent) == pre + [c] + post
    ensures forall g :: g != parent ==> ChildrenOf(target.kids, g) == ChildrenOf(old(target.kids), g)
  {
    DetachedParentless(target.kids, c);
    AppendedMeans(target.kids, parent, c);
    if nodeAfter.None? {
      target.AppendChild(parent, c);
    } else {
      var cs := pre + post;
      assert cs[|pre|] == nodeAfter.value;
      assert nodeAfter.value in ChildrenOf(target.kids, parent);
      assert nodeAfter.value != c;
      var idx := target.InsertBefore(parent, c, nodeAfter.value);
      assert parent in old(target.kids);
      DistinctIndex(cs, idx, |pre|);
      assert cs[..idx] == pre && cs[idx..] == post;
    }
  }

  /**
   * The first half of a pass of the loop of `copyNodesToPosition`: a new node of kind `kind` is
   * created for the source node `sid` and placed in front of `post`, the rest of the children of
   * `parent`.
   */
  method CreateAtPosition(kind: Kind, sid: string, target: NodeTree, parent: string, nodeAfter: Option<string>,
                          ghost pre: seq<string>, ghost post: seq<string>, idMode: int)
    returns (r: Result<string>)
    requires target.Valid() && parent in target.nodes && target.nodes[parent].kind == Group
    requires ChildrenOf(target.kids, parent) == pre + post
    requires nodeAfter.None? ==> post == []
    requires nodeAfter.Some? ==> post != [] && post[0] == nodeAfter.value
    modifies target
    ensures target.Valid()
    ensures r.Err? ==> target.nodes == old(target.nodes) && target.kids == old(target.kids)
    ensures r.Ok? ==> (target.nodes == old(target.nodes)[r.value := NewNode(kind)] && r.value !in old(target.nodes)
                       && ChildrenOf(target.kids, r.value) == []
                       && Positioned(old(target.nodes), old(target.kids), target.nodes, target.kids, parent, pre, [r.value], post))
  {
    r := CreateNodeOfSameType(kind, sid, target, idMode);
    if r.Ok? {
      assert r.value !in target.kids;
      PlaceCopy(target, parent, r.value, nodeAfter, pre, post);
    }
  }

  /** Copying below the node `c` placed under `parent` keeps where it was placed. */
  lemma PositionedThenGrown(n0: map<string, Node>, k0: Kids, n1: map<string, Node>, k1: Kids, n2: map<string, Node>, k2: Kids,
                            parent: string, pre: seq<string>, post: seq<string>, c: string, added: seq<string>)
    requires parent in n0 && c in n1 && c in n2
    requires Positioned(n0, k0, n1, k1, parent, pre, [c], post)
    requires Grown(n1[c := n2[c]], k1, n2, k2, c, added)
    ensures Positioned(n0, k0, n2, k2, parent, pre, [c], post)
  {
    var m := n1[c := n2[c]];
    assert c in [c];
    forall x | x in n0
      ensures x in n2 && n2[x] == n0[x]
    {
      assert x in m && m[x] == n1[x];
      assert n2[x] == m[x];
    }
    forall g | g in n0 && g != parent
      ensures ChildrenOf(k2, g) == ChildrenOf(k0, g)
    {
      assert g in m && g != c;
      assert ChildrenOf(k2, g) == ChildrenOf(k1, g);
    }
    assert parent in m && parent != c;
    assert ChildrenOf(k2, parent) == ChildrenOf(k1, parent);
  }

  /**
   * One pass of the loop of `copyNodesToPosition`: the node `sid` is copied to a new node placed
   * in front of `post`, the rest of the children of `parent`; `placed` is that node, or nothing
   * when it could not be created.
   */
  method CopyToPosition(sn: map<string, Node>, sk: Kids, sid: string, target: NodeTree, parent: string, nodeAfter: Option<string>,
                        ghost pre: seq<string>, ghost post: seq<string>,
                        languages: Option<seq<string>>, srcMode: Lang, tarMode: Lang,
                        idMode: int, idMap: Option<map<string, string>>,
                        rename: string -> string, aMap: map<string, string>)
    returns (r: Result<Copied>, c: string, ghost placed: seq<string>)
    requires Forest(sn, sk) && target.Valid() && sid in sn
    requires parent in target.nodes && target.nodes[parent].kind == Group
    requires ChildrenOf(target.kids, parent) == pre + post
    requires nodeAfter.None? ==> post == []
    requires nodeAfter.Some? ==> post != [] && post[0] == nodeAfter.value
    modifies target
    ensures target.Valid()
    ensures Positioned(old(target.nodes), old(target.kids), target.nodes, target.kids, parent, pre, placed, post)
    ensures r.Ok? ==> placed == [c] && c in target.nodes && target.nodes[c].kind == sn[sid].kind
    ensures r.Ok? ==> (idMap.Some? <==> r.value.nodeIdMap.Some?)
    ensures r.Ok? && idMap.Some? ==> idMap.value.Keys <= r.value.nodeIdMap.value.Keys
    ensures r.Ok? && IsGroupIn(sn, sid) ==> CountedBelow(sn, sk, sid, r.value.count)
    ensures r.Ok? && !IsGroupIn(sn, sid) ==> r.value.count == 1
    ensures r.Ok? ==> IdsMapped(idMap, r.value.nodeIdMap, sn, target.nodes, old(target.nodes).Keys, languages, srcMode)
    ensures r.Ok? ==>
      CopiedSeq(sn, sk, [sid], target.nodes, target.kids, [c], MaxCopyDepth, old(target.nodes).Keys, r.value.nodeIdMap,
                languages, srcMode)
  {
    placed := [];
    var kind := sn[sid].kind;
    var created := CreateAtPosition(kind, sid, target, parent, nodeAfter, pre, post, idMode);
    if created.Err? {
      r, c := Err(created.error), sid;
    } else {
      c := created.value;
      placed := [c];
      var idMap' := idMap;
      if idMap.Some? && sid != c {
        idMap' := Some(idMap.value[sid := c]);
      }
      ghost var n1, k1 := target.nodes, target.kids;
      assert n1[c].kind == kind;
      ghost var mid, added;
      r, mid, added := CopyNode(sn, sk, sid, target, c, languages, srcMode, tarMode, idMode, idMap', rename, aMap);
      PositionedThenGrown(old(target.nodes), old(target.kids), n1, k1, target.nodes, target.kids, parent, pre, post, c, added);
      if r.Ok? {
        RootCopied(sn, sk, sid, old(target.nodes), n1, k1, target.nodes, target.kids, c, added, mid,
                   idMap, idMap', r.value.nodeIdMap, parent, languages, srcMode);
      }
    }
  }

  /**
   * The node `sid`, copied by `copyNode` onto the node `c` created for it after `n0`, is a copied
   * tree, and the node id map records it as `copyNodesToPosition` records it.
   */
  lemma RootCopied(sn: map<string, Node>, sk: Kids, sid: string, n0: map<string, Node>, n1: map<string, Node>, k1: Kids,
                   tn: map<string, Node>, tk: Kids, c: string, added: seq<string>, mid: Node,
                   m0: Option<map<string, string>>, m1: Option<map<string, string>>, m: Option<map<string, string>>,
                   parent: string, languages: Option<seq<string>>, srcMode: Lang)
    requires sid in sn && parent in n0 && c !in n0 && n0.Keys <= n1.Keys && c in n1 && n1[c].kind == sn[sid].kind
    requires ChildrenOf(k1, c) == [] && c in tn && Grown(n1[c := tn[c]], k1, tn, tk, c, added)
    requires m0.Some? <==> m1.Some?
    requires m0.Some? ==> m1.value == if sid == c then m0.value else m0.value[sid := c]
    ensures ShallowCopied(sn[sid], n1[c], mid, tn[c], mid.aliases, languages, srcMode)
            && IdsMapped(m1, m, sn, tn, n1.Keys, languages, srcMode)
            && (IsGroupIn(sn, sid) && n1[c].kind == Group ==>
                  |added| == |ChildrenOf(sk, sid)|
                  && CopiedSeq(sn, sk, ChildrenOf(sk, sid), tn, tk, added, MaxCopyDepth - 1, n1.Keys, m, languages, srcMode))
            && n1[c] == NewNode(sn[sid].kind)
        ==> IdsMapped(m0, m, sn, tn, n0.Keys, languages, srcMode)
            && CopiedSeq(sn, sk, [sid], tn, tk, [c], MaxCopyDepth, n0.Keys, m, languages, srcMode)
  {
    if ShallowCopied(sn[sid], n1[c], mid, tn[c], mid.aliases, languages, srcMode)
       && IdsMapped(m1, m, sn, tn, n1.Keys, languages, srcMode)
       && (IsGroupIn(sn, sid) && n1[c].kind == Group ==>
             |added| == |ChildrenOf(sk, sid)|
             && CopiedSeq(sn, sk, ChildrenOf(sk, sid), tn, tk, added, MaxCopyDepth - 1, n1.Keys, m, languages, srcMode))
       && n1[c] == NewNode(sn[sid].kind)
    {
      NewCopyHolds(sn[sid], n1[c], mid, tn[c], languages, srcMode);
      CloneMapped(m0, m1, sn, sid, tn, n0.Keys, c, languages, srcMode);
      IdsMappedTrans(m0, m1, m, sn, tn, tn, n0.Keys, n1.Keys, languages, srcMode);
      RootTree(sn, sk, sid, n0.Keys, n1.Keys, tn, tk, c, added, m, parent, languages, srcMode);
    }
  }

  /** A fresh node that received a shallow copy holds a copy of its source. */
  lemma NewCopyHolds(src: Node, tar: Node, mid: Node, t: Node, languages: Option<seq<string>>, srcMode: Lang)
    requires tar == NewNode(src.kind)
    ensures ShallowCopied(src, tar, mid, t, mid.aliases, languages, srcMode) ==> HoldsCopy(src, t, languages, srcMode)
  {
  }

  /** The tree half of `RootCopied`: below the copy `c` hang the copies `added` of the children of `sid`. */
  lemma RootTree(sn: map<string, Node>, sk: Kids, sid: string, old0: set<string>, old1: set<string>,
                 tn: map<string, Node>, tk: Kids, c: string, added: seq<string>, m: Option<map<string, string>>,
                 parent: string, languages: Option<seq<string>>, srcMode: Lang)
    requires sid in sn && parent in old0 && old0 <= old1 && c !in old0 && c in tn && ChildrenOf(tk, c) == added
    requires HoldsCopy(sn[sid], tn[c], languages, srcMode)
    requires m.Some? && sid != c ==> sid in m.value
    requires sn[sid].kind == Group ==> |added| == |ChildrenOf(sk, sid)|
    ensures (sn[sid].kind == Group ==>
               CopiedSeq(sn, sk, ChildrenOf(sk, sid), tn, tk, added, MaxCopyDepth - 1, old1, m, languages, srcMode))
            ==> CopiedSeq(sn, sk, [sid], tn, tk, [c], MaxCopyDepth, old0, m, languages, srcMode)
  {
    if sn[sid].kind == Group ==>
         CopiedSeq(sn, sk, ChildrenOf(sk, sid), tn, tk, added, MaxCopyDepth - 1, old1, m, languages, srcMode)
    {
      if sn[sid].kind == Group {
        CopiedSeqKept(sn, sk, ChildrenOf(sk, sid), tn, tk, added, MaxCopyDepth - 1, old1, m, tn, tk, old0, m,
                      parent, languages, srcMode);
      }
      assert CopiedTree(sn, sk, sid, tn, tk, c, MaxCopyDepth, old0, m, languages, srcMode);
      CopiedSingle(sn, sk, sid, tn, tk, c, MaxCopyDepth, old0, m, languages, srcMode);
    }
  }

  /**
   * One pass of the loop of `copyNodesToPosition`: the `i`-th source node is copied to its place
   * behind the copies made so far, and its count is added to theirs.
   */
  method CopyNextToPosition(sourceIds: seq<string>, i: nat, sn: map<string, Node>, sk: Kids, target: NodeTree,
                            parent: string, nodeAfter: Option<string>,
                            ghost n0: map<string, Node>, ghost k0: Kids,
                            ghost pre: seq<string>, ghost copies: seq<string>, ghost post: seq<string>, cnt: nat,
                            languages: Option<seq<string>>, srcMode: Lang, tarMode: Lang,
                            idMode: int, ghost m0: Option<map<string, string>>, idMap: Option<map<string, string>>,
                            rename: string -> string, aMap: map<string, string>)
    returns (r: Result<Copied>, ghost copies': seq<string>)
    requires Forest(sn, sk) && target.Valid()
    requires i < |sourceIds| && sourceIds[i] in sn
    requires parent in n0 && parent in target.nodes && target.nodes[parent].kind == Group
    requires nodeAfter.None? ==> post == []
    requires nodeAfter.Some? ==> post != [] && post[0] == nodeAfter.value
    requires Positioned(n0, k0, target.nodes, target.kids, parent, pre, copies, post)
    requires |copies| == i && KindsMatch(target.nodes, copies, sn, sourceIds)
    requires CopyCountOfAll(sn, sk, sourceIds[..i], MaxCopyDepth + 1) == Some(cnt)
    requires IdsMapped(m0, idMap, sn, target.nodes, n0.Keys, languages, srcMode)
    requires CopiedSeq(sn, sk, sourceIds, target.nodes, target.kids, copies, MaxCopyDepth, n0.Keys, idMap, languages, srcMode)
    modifies target
    ensures target.Valid()
    ensures Positioned(n0, k0, target.nodes, target.kids, parent, pre, copies', post)
    ensures r.Ok? ==> |copies'| == i + 1 && KindsMatch(target.nodes, copies', sn, sourceIds)
    ensures r.Ok? ==> CopyCountOfAll(sn, sk, sourceIds[..i + 1], MaxCopyDepth + 1) == Some(r.value.count)
    ensures r.Ok? ==> (idMap.Some? <==> r.value.nodeIdMap.Some?)
    ensures r.Ok? && idMap.Some? ==> idMap.value.Keys <= r.value.nodeIdMap.value.Keys
    ensures r.Ok? ==> IdsMapped(m0, r.value.nodeIdMap, sn, target.nodes, n0.Keys, languages, srcMode)
    ensures r.Ok? ==>
      CopiedSeq(sn, sk, sourceIds, target.nodes, target.kids, copies', MaxCopyDepth, n0.Keys, r.value.nodeIdMap,
                languages, srcMode)
  {
    ghost var n1, k1 := target.nodes, target.kids;
    var sub, c;
    ghost var placed;
    sub, c, placed := CopyToPosition(sn, sk, sourceIds[i], target, parent, nodeAfter, pre + copies, post,
                                     languages, srcMode, tarMode, idMode, idMap, rename, aMap);
    PositionedTrans(n0, k0, n1, k1, target.nodes, target.kids, parent, pre, copies, placed, post);
    copies' := copies + placed;
    if sub.Err? {
      r := Err(sub.error);
    } else {
      var total: nat := cnt + sub.value.count;
      OneMoreCopied(sn, sk, sourceIds, i, n1, target.nodes, copies, c, cnt, sub.value.count, total);
      CopyPlaced(sn, sk, sourceIds, n0, m0, n1, k1, idMap, target.nodes, target.kids, sub.value.nodeIdMap, copies, c,
                 parent, pre + copies, post, languages, srcMode);
      r := Ok(sub.value.(count := total));
    }
  }

  /** `CopiesJoined` for a next source copied to a node placed among the children of `parent`. */
  lemma CopyPlaced(sn: map<string, Node>, sk: Kids, sourceIds: seq<string>,
                   n0: map<string, Node>, m0: Option<map<string, string>>,
                   n1: map<string, Node>, k1: Kids, m1: Option<map<string, string>>,
                   n2: map<string, Node>, k2: Kids, m2: Option<map<string, string>>,
                   copies: seq<string>, c: string, parent: string, pre: seq<string>, post: seq<string>,
                   languages: Option<seq<string>>, srcMode: Lang)
    requires parent in n0 && Keeps(n0, n1) && |copies| < |sourceIds|
    requires IdsMapped(m0, m1, sn, n1, n0.Keys, languages, srcMode)
    requires CopiedSeq(sn, sk, sourceIds, n1, k1, copies, MaxCopyDepth, n0.Keys, m1, languages, srcMode)
    requires Positioned(n1, k1, n2, k2, parent, pre, [c], post) && IdsMapped(m1, m2, sn, n2, n1.Keys, languages, srcMode)
    requires CopiedSeq(sn, sk, [sourceIds[|copies|]], n2, k2, [c], MaxCopyDepth, n1.Keys, m2, languages, srcMode)
    ensures IdsMapped(m0, m2, sn, n2, n0.Keys, languages, srcMode)
    ensures CopiedSeq(sn, sk, sourceIds, n2, k2, copies + [c], MaxCopyDepth, n0.Keys, m2, languages, srcMode)
  {
    CopiesJoined(sn, sk, sourceIds, n0, m0, n1, k1, m1, n2, k2, m2, copies, sourceIds[|copies|], c, parent,
                 MaxCopyDepth, languages, srcMode);
  }

  /** One more source node copied with its subtree: its kind matches, and the count adds up. */
  lemma OneMoreCopied(sn: map<string, Node>, sk: Kids, sourceIds: seq<string>, i: nat,
                      n1: map<string, Node>, n2: map<string, Node>, copies: seq<string>, c: string, cnt: nat, count: nat,
                      total: nat)
    requires i < |sourceIds| && sourceIds[i] in sn && |copies| == i
    requires KindsMatch(n1, copies, sn, sourceIds) && Keeps(n1, n2)
    requires c in n2 && n2[c].kind == sn[sourceIds[i]].kind
    requires CopyCountOfAll(sn, sk, sourceIds[..i], MaxCopyDepth + 1) == Some(cnt)
    requires IsGroupIn(sn, sourceIds[i]) ==> CountedBelow(sn, sk, sourceIds[i], count)
    requires !IsGroupIn(sn, sourceIds[i]) ==> count == 1
    requires total == cnt + count
    ensures KindsMatch(n2, copies + [c], sn, sourceIds)
    ensures CopyCountOfAll(sn, sk, sourceIds[..i + 1], MaxCopyDepth + 1) == Some(total)
  {
    KindsMatchStep(n1, n2, copies, c, sn, sourceIds);
    var below: nat := count - 1;
    CopyCountStep(sn, sk, sourceIds, i, MaxCopyDepth + 1, cnt, below, total);
  }

  /**
   * `copyNodesToPosition(sourceNodes, …, targetParent, nodeAfter, …)`: for each source node in
   * turn, a node of its kind is created, recorded in the node id map when its id differs, inserted
   * into `parent` in front of `nodeAfter` (at the end when there is none) and copied with
   * `copyNode`. The count is the sum of what each `copyNode` counts.
   */
  method CopyNodesToPosition(sourceIds: seq<string>, sn: map<string, Node>, sk: Kids, target: NodeTree, parent: string,
                             nodeAfter: Option<string>, languages: Option<seq<string>>, srcMode: Lang, tarMode: Lang,
                             idMode: int, nodeIdMap: Option<map<string, string>>,
                             rename: string -> string, aliasMap: map<string, string>)
    returns (r: Result<Copied>, ghost copies: seq<string>)
    requires Forest(sn, sk) && target.Valid()
    requires forall i :: 0 <= i < |sourceIds| ==> sourceIds[i] in sn
    requires parent in target.nodes && target.nodes[parent].kind == Group
    requires nodeAfter.Some? ==> nodeAfter.value in ChildrenOf(target.kids, parent)
    modifies target
    ensures target.Valid()
    ensures Positioned(old(target.nodes), old(target.kids), target.nodes, target.kids, parent,
                       Front(ChildrenOf(old(target.kids), parent), nodeAfter), copies,
                       Back(ChildrenOf(old(target.kids), parent), nodeAfter))
    ensures r.Ok? ==> |copies| == |sourceIds| && KindsMatch(target.nodes, copies, sn, sourceIds)
    ensures r.Ok? ==> CopyCountOfAll(sn, sk, sourceIds, MaxCopyDepth + 1) == Some(r.value.count)
    ensures r.Ok? ==> (nodeIdMap.Some? <==> r.value.nodeIdMap.Some?)
    ensures r.Ok? && nodeIdMap.Some? ==> nodeIdMap.value.Keys <= r.value.nodeIdMap.value.Keys
    ensures r.Ok? ==> IdsMapped(nodeIdMap, r.value.nodeIdMap, sn, target.nodes, old(target.nodes).Keys, languages, srcMode)
    ensures r.Ok? ==>
      CopiedSeq(sn, sk, sourceIds, target.nodes, target.kids, copies, MaxCopyDepth, old(target.nodes).Keys,
                r.value.nodeIdMap, languages, srcMode)
  {
    ghost var n0, k0 := target.nodes, target.kids;
    ghost var pre := Front(ChildrenOf(k0, parent), nodeAfter);
    ghost var post := Back(ChildrenOf(k0, parent), nodeAfter);
    assert nodeAfter.None? ==> post == [];
    assert nodeAfter.Some? ==> post != [] && post[0] == nodeAfter.value;
    copies := [];
    r := Ok(Copied(0, nodeIdMap, aliasMap));
    assert Positioned(n0, k0, target.nodes, target.kids, parent, pre, copies, post) by {
      assert pre + copies + post == pre + post;
    }
    for i := 0 to |sourceIds|
      invariant target.Valid() && parent in target.nodes && target.nodes[parent].kind == Group
      invariant Positioned(n0, k0, target.nodes, target.kids, parent, pre, copies, post)
      invariant r.Ok? && |copies| == i && KindsMatch(target.nodes, copies, sn, sourceIds)
      invariant r.Ok? && CopyCountOfAll(sn, sk, sourceIds[..i], MaxCopyDepth + 1) == Some(r.value.count)
      invariant r.Ok? && (nodeIdMap.Some? <==> r.value.nodeIdMap.Some?)
      invariant r.Ok? && nodeIdMap.Some? ==> nodeIdMap.value.Keys <= r.value.nodeIdMap.value.Keys
      invariant r.Ok? && IdsMapped(nodeIdMap, r.value.nodeIdMap, sn, target.nodes, n0.Keys, languages, srcMode)
      invariant r.Ok? &&
        CopiedSeq(sn, sk, sourceIds, target.nodes, target.kids, copies, MaxCopyDepth, n0.Keys, r.value.nodeIdMap,
                  languages, srcMode)
    {
      r, copies := CopyNextToPosition(sourceIds, i, sn, sk, target, parent, nodeAfter, n0, k0,
                                      pre, copies, post, r.value.count, languages, srcMode, tarMode, idMode,
                                      nodeIdMap, r.value.nodeIdMap, rename, r.value.aliasMap);
      if r.Err? {
        return;
      }
    }
    assert sourceIds[..|sourceIds|] == sourceIds;
  }
}
