/*
 * Re-synchronising one node of a target store with the same node of a source store (the shallow
 * half of the sync in DocStoreUtilities): for one pair of languages the aliases, the title, the
 * attributes and, for content nodes, content type, file extension and content are written where
 * the target differs from the source; then the whole node, language by language.
 */
module NodeSync {
  import opened Wrappers
  import opened DocNodes
  import opened ByteStreams

  /** `convertTransToOrig`: a translation of the source becomes the original language of the target. */
  predicate Converts(sl: Lang, tl: Lang)
  {
    tl.None? && sl.Some?
  }

  /**
   * The source value `syncNodeShallowLang` compares with for one per-language map: the value in
   * `sl`, and when a translation is converted to the original, the original value in its absence.
   */
  function SourceValue<V>(m: map<Lang, V>, sl: Lang, tl: Lang): Option<V>
  {
    if sl in m then Some(m[sl]) else if Converts(sl, tl) then Lookup(m, None) else None
  }

  /** The same for one attribute of the source. */
  function SourceAttribute(src: Node, name: string, sl: Lang, tl: Lang): Option<string>
  {
    var v := Attribute(src, name, sl);
    if v.None? && Converts(sl, tl) then Attribute(src, name, None) else v
  }

  lemma LookupsEqual<K, V>(m1: map<K, V>, m2: map<K, V>)
    requires forall k :: Lookup(m1, k) == Lookup(m2, k)
    ensures m1 == m2
  {
    assert forall k :: k in m1 <==> k in m2 by {
      forall k
        ensures k in m1 <==> k in m2
      {
        assert Lookup(m1, k).Some? <==> Lookup(m2, k).Some?;
      }
    }
    forall k | k in m1
      ensures m1[k] == m2[k]
    {
      assert Lookup(m1, k) == Lookup(m2, k);
    }
  }

  /** Writing the value a map already holds leaves it as it is. */
  lemma PutSame<K(!new), V>(m: map<K, V>, k: K, v: Option<V>)
    requires Lookup(m, k) == v
    ensures Put(m, k, v) == m
  {
    LookupsEqual(Put(m, k, v), m);
  }

  lemma AttsEqual(a: Node, b: Node)
    requires forall name, l :: Attribute(a, name, l) == Attribute(b, name, l)
    ensures a.atts == b.atts
  {
    forall k: (string, Lang)
      ensures Lookup(a.atts, k) == Lookup(b.atts, k)
    {
      assert Attribute(a, k.0, k.1) == Attribute(b, k.0, k.1);
    }
    LookupsEqual(a.atts, b.atts);
  }

  // ------------------------------------------------------------ attributes

  /**
   * What `syncNodeAttributes` makes of the target `tar`: each original attribute name of the source
   * gets the source value in the target language; when the target language is the original one,
   * every target attribute whose name the source lacks goes with all its translations; nothing
   * else changes.
   */
  ghost predicate AttributesSynced(src: Node, tar: Node, t': Node, sl: Lang, tl: Lang)
  {
    forall name, l :: Attribute(t', name, l) ==
      if name in AttributeNames(src) && l == tl then SourceAttribute(src, name, sl, tl)
      else if tl.None? && name !in AttributeNames(src) && name in AttributeNames(tar) then None
      else Attribute(tar, name, l)
  }

  /** The target attributes already agree with the source, so `syncNodeAttributes` writes nothing. */
  ghost predicate AttributesInSync(src: Node, tar: Node, sl: Lang, tl: Lang)
  {
    (forall name :: name in AttributeNames(src) ==> SourceAttribute(src, name, sl, tl) == Attribute(tar, name, tl))
    && (tl.None? ==> AttributeNames(tar) <= AttributeNames(src))
  }

  /** The first loop of `syncNodeAttributes` has handled the source names `done`. */
  ghost predicate NamesSynced(src: Node, tar: Node, t: Node, sl: Lang, tl: Lang, done: set<string>)
  {
    forall name, l :: Attribute(t, name, l)
                      == if name in done && l == tl then SourceAttribute(src, name, sl, tl) else Attribute(tar, name, l)
  }

  /** None of the names `done` differs between source and target. */
  ghost predicate NoneDiffers(src: Node, tar: Node, sl: Lang, tl: Lang, done: set<string>)
  {
    forall name :: name in done ==> SourceAttribute(src, name, sl, tl) == Attribute(tar, name, tl)
  }

  /** The second loop has removed the target-only names `done`. */
  ghost predicate NamesRemoved(synced: Node, t: Node, done: set<string>)
  {
    forall name, l :: Attribute(t, name, l) == if name in done then None else Attribute(synced, name, l)
  }

  /** One name of the first loop: written when it differs, and nothing else changes. */
  method SyncAttribute(src: Node, tar: Node, t: Node, sl: Lang, tl: Lang, done: set<string>, name: string)
    returns (t': Node, wrote: bool)
    requires NamesSynced(src, tar, t, sl, tl, done) && name !in done && name in AttributeNames(src)
    ensures t' == t.(atts := t'.atts)
    ensures NamesSynced(src, tar, t', sl, tl, done + {name})
    ensures wrote <==> SourceAttribute(src, name, sl, tl) != Attribute(tar, name, tl)
  {
    var srcAtt := SourceAttribute(src, name, sl, tl);
    t', wrote := t, false;
    assert Attribute(t, name, tl) == Attribute(tar, name, tl);
    if srcAtt != Attribute(t, name, tl) {
      t', wrote := WithAttribute(t, name, srcAtt, tl), true;
      assert tl.None? ==> srcAtt.Some?;
      forall name', l
        ensures Attribute(t', name', l)
                == if name' in done + {name} && l == tl then SourceAttribute(src, name', sl, tl) else Attribute(tar, name', l)
      {
        if name' != name {
          assert Attribute(t', name', l) == Lookup(t'.atts, (name', l)) == Lookup(t.atts, (name', l)) == Attribute(t, name', l);
        } else if l == tl {
          assert Attribute(t', name, tl) == srcAtt;
        } else {
          assert Attribute(t', name, l) == Attribute(t, name, l);
        }
      }
    }
  }

  /** One name of the second loop: a target-only attribute goes with all its translations. */
  method RemoveAttribute(ghost synced: Node, t: Node, ghost done: set<string>, name: string) returns (t': Node)
    requires NamesRemoved(synced, t, done)
    ensures t' == t.(atts := t'.atts)
    ensures NamesRemoved(synced, t', done + {name})
  {
    t' := WithAttribute(t, name, None, None);
    forall name', l
      ensures Attribute(t', name', l) == if name' in done + {name} then None else Attribute(synced, name', l)
    {
      if name' != name {
        assert Attribute(t', name', l) == Lookup(t'.atts, (name', l)) == Lookup(t.atts, (name', l)) == Attribute(t, name', l);
      } else {
        assert Attribute(t', name, l) == None;
      }
    }
  }

  /** The first loop of `syncNodeAttributes`: every original name of the source, in some order. */
  method SyncSourceNames(src: Node, tar: Node, sl: Lang, tl: Lang) returns (t': Node, writes: nat)
    ensures t' == tar.(atts := t'.atts)
    ensures NamesSynced(src, tar, t', sl, tl, AttributeNames(src))
    ensures writes == 0 <==> NoneDiffers(src, tar, sl, tl, AttributeNames(src))
  {
    var srcNames := AttributeNames(src);
    t', writes := tar, 0;
    var rest := srcNames;
    while rest != {}
      invariant rest <= srcNames && t' == tar.(atts := t'.atts)
      invariant NamesSynced(src, tar, t', sl, tl, srcNames - rest)
      invariant writes == 0 <==> NoneDiffers(src, tar, sl, tl, srcNames - rest)
      decreases |rest|
    {
      var name :| name in rest;
      var wrote;
      t', wrote := SyncAttribute(src, tar, t', sl, tl, srcNames - rest, name);
      if wrote {
        writes := writes + 1;
      }
      assert srcNames - (rest - {name}) == (srcNames - rest) + {name};
      rest := rest - {name};
    }
    assert srcNames - rest == srcNames;
  }

  /** The second loop of `syncNodeAttributes`: removes each of `gone` with its translations. */
  method RemoveNames(t: Node, gone: set<string>) returns (t': Node, writes: nat)
    ensures t' == t.(atts := t'.atts)
    ensures NamesRemoved(t, t', gone) && writes == |gone|
  {
    t', writes := t, 0;
    var rest := gone;
    while rest != {}
      invariant rest <= gone && t' == t.(atts := t'.atts)
      invariant NamesRemoved(t, t', gone - rest)
      invariant writes == |gone - rest|
      decreases |rest|
    {
      var name :| name in rest;
      t' := RemoveAttribute(t, t', gone - rest, name);
      assert gone - (rest - {name}) == (gone - rest) + {name};
      writes := writes + 1;
      rest := rest - {name};
    }
    assert gone - rest == gone;
  }

  /**
   * `syncNodeAttributes(sourceNode, sourceLang, targetNode, targetLang)`: the target node after the
   * sync and how many `setAttribute` calls it made. A call is made only where the target differs.
   */
  method SyncNodeAttributes(src: Node, tar: Node, sl: Lang, tl: Lang) returns (t': Node, writes: nat)
    ensures t' == tar.(atts := t'.atts)
    ensures AttributesSynced(src, tar, t', sl, tl)
    ensures writes == 0 <==> AttributesInSync(src, tar, sl, tl)
  {
    t', writes := SyncSourceNames(src, tar, sl, tl);
    if tl.None? {
      var gone := Attributes(tar, tl).Keys - AttributeNames(src);
      ghost var synced := t';
      var removed;
      t', removed := RemoveNames(t', gone);
      SecondPassMeans(src, tar, synced, t', sl, gone);
      writes := writes + removed;
    } else {
      FirstPassMeans(src, tar, t', sl, tl);
    }
  }

  lemma FirstPassMeans(src: Node, tar: Node, t': Node, sl: Lang, tl: Lang)
    requires tl.Some? && NamesSynced(src, tar, t', sl, tl, AttributeNames(src))
    ensures AttributesSynced(src, tar, t', sl, tl)
    ensures NoneDiffers(src, tar, sl, tl, AttributeNames(src)) <==> AttributesInSync(src, tar, sl, tl)
  {
  }

  lemma SecondPassMeans(src: Node, tar: Node, synced: Node, t': Node, sl: Lang, gone: set<string>)
    requires NamesSynced(src, tar, synced, sl, None, AttributeNames(src))
    requires gone == Attributes(tar, None).Keys - AttributeNames(src)
    requires NamesRemoved(synced, t', gone)
    ensures AttributesSynced(src, tar, t', sl, None)
    ensures NoneDiffers(src, tar, sl, None, AttributeNames(src)) && gone == {} <==> AttributesInSync(src, tar, sl, None)
  {
    forall name
      ensures name in gone <==> name in AttributeNames(tar) && name !in AttributeNames(src)
    {
      assert name in Attributes(tar, None) <==> Attribute(tar, name, None).Some?;
    }
    assert gone == {} <==> AttributeNames(tar) <= AttributeNames(src) by {
      if name :| name in AttributeNames(tar) && name !in AttributeNames(src) {
        assert name in gone;
      }
    }
  }

  /**
   * The attribute sync changes the target exactly when the attributes were out of sync, and
   * afterwards they are in sync: a second sync writes nothing.
   */
  lemma AttributesSyncedMeans(src: Node, tar: Node, t': Node, sl: Lang, tl: Lang)
    requires AttributesSynced(src, tar, t', sl, tl)
    ensures t'.atts == tar.atts <==> AttributesInSync(src, tar, sl, tl)
    ensures AttributesInSync(src, t', sl, tl)
  {
    if AttributesInSync(src, tar, sl, tl) {
      forall name, l
        ensures Attribute(t', name, l) == Attribute(tar, name, l)
      {
        if tl.None? && name !in AttributeNames(src) && name in AttributeNames(tar) {
          assert false;
        }
      }
      AttsEqual(t', tar);
    }
    if t'.atts == tar.atts && tl.None? {
      forall name | name in AttributeNames(tar)
        ensures name in AttributeNames(src)
      {
        assert Attribute(t', name, None) == Attribute(tar, name, None);
      }
    }
    if tl.None? {
      forall name | name in AttributeNames(t')
        ensures name in AttributeNames(src)
      {
        assert Attribute(t', name, None).Some?;
      }
    }
  }

  // ------------------------------------------------------------ one language

  /**
   * The casts of `syncNodeShallowLang`: a source reference needs a target reference when the
   * original language is synced, and a source content node needs a target content node.
   */
  predicate Castable(sk: Kind, tk: Kind, tl: Lang)
  {
    (tl.None? && sk == Reference ==> tk == Reference) && (IsContent(sk) ==> IsContent(tk))
  }

  const ClassCastError := "java.lang.ClassCastException"

  /**
   * What `syncNodeShallowLang(…, sourceLang, targetLang)` makes of the target node `tar`: in the
   * original language the aliases and a reference's target alias are the source's; the title, the
   * attributes and for content nodes the content type, file extension and content read in `tl`
   * what the source offers for `sl`. Nothing else changes.
   */
  ghost predicate LangSynced(src: Node, tar: Node, t': Node, sl: Lang, tl: Lang)
  {
    var isContent := IsContent(src.kind);
    t'.kind == tar.kind
    && t'.aliases == (if tl.None? then src.aliases else tar.aliases)
    && t'.targetAlias == (if tl.None? && src.kind == Reference then src.targetAlias else tar.targetAlias)
    && t'.titles == Put(tar.titles, tl, SourceValue(src.titles, sl, tl))
    && AttributesSynced(src, tar, t', sl, tl)
    && t'.contentType == (if isContent then Put(tar.contentType, tl, SourceValue(src.contentType, sl, tl)) else tar.contentType)
    && t'.fileExt == (if isContent then Put(tar.fileExt, tl, SourceValue(src.fileExt, sl, tl)) else tar.fileExt)
    && t'.content == (if isContent then Put(tar.content, tl, SourceValue(src.content, sl, tl)) else tar.content)
  }

  /** Every value `syncNodeShallowLang` compares already agrees: it writes nothing. */
  ghost predicate InSync(src: Node, tar: Node, sl: Lang, tl: Lang)
  {
    var isContent := IsContent(src.kind);
    (tl.None? ==> tar.aliases == src.aliases)
    && (tl.None? && src.kind == Reference ==> tar.targetAlias == src.targetAlias)
    && Lookup(tar.titles, tl) == SourceValue(src.titles, sl, tl)
    && AttributesInSync(src, tar, sl, tl)
    && (isContent ==> Lookup(tar.contentType, tl) == SourceValue(src.contentType, sl, tl)
                      && Lookup(tar.fileExt, tl) == SourceValue(src.fileExt, sl, tl)
                      && Lookup(tar.content, tl) == SourceValue(src.content, sl, tl))
  }

  /**
   * `streamsAreEqual` over the content the two nodes offer; absent content is a null stream. The
   * streams are read in chunks of the comparison buffer's size.
   */
  method ContentEquals(srcData: Option<seq<bv8>>, tarData: Option<seq<bv8>>) returns (eq: bool)
    ensures eq <==> srcData == tarData
  {
    var s1: ByteStream? := null;
    var s2: ByteStream? := null;
    if srcData.Some? {
      s1 := new ByteStream(srcData.value, BufferSize);
    }
    if tarData.Some? {
      s2 := new ByteStream(tarData.value, BufferSize);
    }
    eq := StreamsAreEqual(s1, s2);
  }

  /** A per-language value: written only when the target's differs from what the source offers. */
  method SyncValue<V(==)>(src: map<Lang, V>, tar: map<Lang, V>, sl: Lang, tl: Lang) returns (m: map<Lang, V>, wrote: bool)
    ensures m == Put(tar, tl, SourceValue(src, sl, tl))
    ensures wrote <==> Lookup(tar, tl) != SourceValue(src, sl, tl)
  {
    var v := Lookup(src, sl);
    if Converts(sl, tl) && v.None? {
      v := Lookup(src, None);
    }
    m, wrote := tar, false;
    if v != Lookup(tar, tl) {
      m, wrote := Put(tar, tl, v), true;
    } else {
      PutSame(tar, tl, v);
    }
  }

  /**
   * The content part: the source stream exists when the source has content in `sl` or a
   * translation is converted; the target stream when the target has content in `tl`. Unequal
   * streams replace the target content, or delete it when the source offers none.
   */
  method SyncContent(src: map<Lang, seq<bv8>>, tar: map<Lang, seq<bv8>>, sl: Lang, tl: Lang)
    returns (m: map<Lang, seq<bv8>>, wrote: bool)
    ensures m == Put(tar, tl, SourceValue(src, sl, tl))
    ensures wrote <==> Lookup(tar, tl) != SourceValue(src, sl, tl)
  {
    var srcHasCont := sl in src;
    var srcData := if srcHasCont || Converts(sl, tl) then InMode(src, sl) else None;
    var tarData := if tl in tar then InMode(tar, tl) else None;
    var equal := ContentEquals(srcData, tarData);
    m, wrote := tar, false;
    if !equal {
      if srcData.None? {
        m := tar - {tl};
      } else {
        m := tar[tl := srcData.value];
      }
      wrote := true;
    } else {
      PutSame(tar, tl, srcData);
    }
  }

  /** The original-language part: the aliases, and the target alias of a reference. */
  method SyncAliases(src: Node, tar: Node, tl: Lang)
    returns (aliases: seq<string>, targetAlias: Option<string>, wroteAliases: bool, wroteTarget: bool)
    ensures aliases == (if tl.None? then src.aliases else tar.aliases)
    ensures targetAlias == (if tl.None? && src.kind == Reference then src.targetAlias else tar.targetAlias)
    ensures wroteAliases <==> tl.None? && src.aliases != tar.aliases
    ensures wroteTarget <==> tl.None? && src.kind == Reference && src.targetAlias != tar.targetAlias
  {
    aliases, targetAlias := tar.aliases, tar.targetAlias;
    wroteAliases, wroteTarget := false, false;
    if tl.None? {
      if src.aliases != tar.aliases {
        aliases, wroteAliases := src.aliases, true;
      }
      if src.kind == Reference {
        if src.targetAlias != tar.targetAlias {
          targetAlias, wroteTarget := src.targetAlias, true;
        }
      }
    }
  }

  /** The content part, for a source content node only: content type, file extension, content. */
  method SyncContentFields(src: Node, tar: Node, sl: Lang, tl: Lang)
    returns (ct: map<Lang, string>, ext: map<Lang, string>, content: map<Lang, seq<bv8>>,
             wroteCt: bool, wroteExt: bool, wroteContent: bool)
    ensures ct == (if IsContent(src.kind) then Put(tar.contentType, tl, SourceValue(src.contentType, sl, tl)) else tar.contentType)
    ensures ext == (if IsContent(src.kind) then Put(tar.fileExt, tl, SourceValue(src.fileExt, sl, tl)) else tar.fileExt)
    ensures content == (if IsContent(src.kind) then Put(tar.content, tl, SourceValue(src.content, sl, tl)) else tar.content)
    ensures wroteCt <==> IsContent(src.kind) && Lookup(tar.contentType, tl) != SourceValue(src.contentType, sl, tl)
    ensures wroteExt <==> IsContent(src.kind) && Lookup(tar.fileExt, tl) != SourceValue(src.fileExt, sl, tl)
    ensures wroteContent <==> IsContent(src.kind) && Lookup(tar.content, tl) != SourceValue(src.content, sl, tl)
  {
    ct, ext, content := tar.contentType, tar.fileExt, tar.content;
    wroteCt, wroteExt, wroteContent := false, false, false;
    if IsContent(src.kind) {
      ct, wroteCt := SyncValue(src.contentType, tar.contentType, sl, tl);
      ext, wroteExt := SyncValue(src.fileExt, tar.fileExt, sl, tl);
      content, wroteContent := SyncContent(src.content, tar.content, sl, tl);
    }
  }

  /**
   * What `syncNodeShallowLang` has written to `tar` when one of its casts fails. In the original
   * language the aliases are written first. A source reference then fails its cast before its
   * target alias is reached. A source content node gets its title and attributes written and
   * fails before its content fields are reached.
   */
  ghost predicate CastFailWrites(src: Node, tar: Node, t': Node, sl: Lang, tl: Lang)
  {
    var refFails := tl.None? && src.kind == Reference;
    t'.kind == tar.kind
    && t'.aliases == (if tl.None? then src.aliases else tar.aliases)
    && t'.targetAlias == tar.targetAlias
    && t'.titles == (if refFails then tar.titles else Put(tar.titles, tl, SourceValue(src.titles, sl, tl)))
    && (if refFails then t'.atts == tar.atts else AttributesSynced(src, tar, t', sl, tl))
    && t'.content == tar.content && t'.contentType == tar.contentType && t'.fileExt == tar.fileExt
  }

  /**
   * `syncNodeShallowLang(sourceNode, …, targetNode, …, sourceLang, targetLang)`: the target node
   * as the call leaves it (`left`), and the number of setter calls made. A failing cast is
   * reported after the writes that precede it.
   */
  method SyncNodeShallowLang(src: Node, tar: Node, sl: Lang, tl: Lang) returns (r: Result<Node>, left: Node, writes: nat)
    ensures !Castable(src.kind, tar.kind, tl) ==> r == Err(ClassCastError) && CastFailWrites(src, tar, left, sl, tl)
    ensures Castable(src.kind, tar.kind, tl) ==> r == Ok(left) && LangSynced(src, tar, left, sl, tl)
    ensures r.Ok? ==> (writes == 0 <==> InSync(src, tar, sl, tl))
    ensures r.Err? ==> (writes == 0 <==> left == tar)
  {
    if !Castable(src.kind, tar.kind, tl) {
      left, writes := WritesBeforeCast(src, tar, sl, tl);
      return Err(ClassCastError), left, writes;
    }
    var aliases, targetAlias, wroteAliases, wroteTarget := SyncAliases(src, tar, tl);
    var titles, wroteTitle := SyncValue(src.titles, tar.titles, sl, tl);
    var ta, attWrites := SyncNodeAttributes(src, tar, sl, tl);
    var ct, ext, content, wroteCt, wroteExt, wroteContent := SyncContentFields(src, tar, sl, tl);
    writes := attWrites + Count(wroteAliases) + Count(wroteTarget) + Count(wroteTitle)
              + Count(wroteCt) + Count(wroteExt) + Count(wroteContent);
    var t := Node(tar.kind, aliases, targetAlias, titles, ta.atts, content, ct, ext);
    Assembled(src, tar, t, ta, sl, tl);
    WritesMean(src, tar, sl, tl, attWrites, wroteAliases, wroteTarget, wroteTitle, wroteCt, wroteExt, wroteContent);
    r, left := Ok(t), t;
  }

  /**
   * The writes `syncNodeShallowLang` makes before a failing cast, and how many setter calls they
   * take: none exactly when nothing changes.
   */
  method WritesBeforeCast(src: Node, tar: Node, sl: Lang, tl: Lang) returns (left: Node, writes: nat)
    requires !Castable(src.kind, tar.kind, tl)
    ensures CastFailWrites(src, tar, left, sl, tl)
    ensures writes == 0 <==> left == tar
  {
    var aliases, _, wroteAliases, _ := SyncAliases(src, tar, tl);
    if tl.None? && src.kind == Reference {
      // the cast to a reference fails once the aliases are written
      return tar.(aliases := aliases), Count(wroteAliases);
    }
    // the cast to a content node fails once the title and the attributes are written
    var titles, wroteTitle := SyncValue(src.titles, tar.titles, sl, tl);
    var ta, attWrites := SyncNodeAttributes(src, tar, sl, tl);
    left := tar.(aliases := aliases, titles := titles, atts := ta.atts);
    writes := attWrites + Count(wroteAliases) + Count(wroteTitle);
    PartlyWritten(src, tar, left, ta, sl, tl, attWrites, wroteAliases, wroteTitle);
  }

  /** The writes before a failing content cast: no setter call exactly when nothing changed. */
  lemma PartlyWritten(src: Node, tar: Node, t: Node, ta: Node, sl: Lang, tl: Lang,
                      attWrites: nat, wroteAliases: bool, wroteTitle: bool)
    requires AttributesSynced(src, tar, ta, sl, tl) && (attWrites == 0 <==> AttributesInSync(src, tar, sl, tl))
    requires wroteAliases <==> tl.None? && src.aliases != tar.aliases
    requires wroteTitle <==> Lookup(tar.titles, tl) != SourceValue(src.titles, sl, tl)
    requires t == tar.(aliases := if tl.None? then src.aliases else tar.aliases,
                       titles := Put(tar.titles, tl, SourceValue(src.titles, sl, tl)), atts := ta.atts)
    ensures AttributesSynced(src, tar, t, sl, tl)
    ensures attWrites + Count(wroteAliases) + Count(wroteTitle) == 0 <==> t == tar
  {
    assert forall name, l :: Attribute(t, name, l) == Attribute(ta, name, l);
    AttributesSyncedMeans(src, tar, ta, sl, tl);
    PutUnchanged(tar.titles, tl, SourceValue(src.titles, sl, tl));
  }

  /** The node put together from the synced fields is the synced node. */
  lemma Assembled(src: Node, tar: Node, t: Node, ta: Node, sl: Lang, tl: Lang)
    requires AttributesSynced(src, tar, ta, sl, tl) && t.atts == ta.atts && t.kind == tar.kind
    requires t.aliases == (if tl.None? then src.aliases else tar.aliases)
    requires t.targetAlias == (if tl.None? && src.kind == Reference then src.targetAlias else tar.targetAlias)
    requires t.titles == Put(tar.titles, tl, SourceValue(src.titles, sl, tl))
    requires t.contentType == (if IsContent(src.kind) then Put(tar.contentType, tl, SourceValue(src.contentType, sl, tl)) else tar.contentType)
    requires t.fileExt == (if IsContent(src.kind) then Put(tar.fileExt, tl, SourceValue(src.fileExt, sl, tl)) else tar.fileExt)
    requires t.content == (if IsContent(src.kind) then Put(tar.content, tl, SourceValue(src.content, sl, tl)) else tar.content)
    ensures LangSynced(src, tar, t, sl, tl)
  {
    assert forall name, l :: Attribute(t, name, l) == Attribute(ta, name, l);
  }

  /** No setter call is made exactly when every compared value agrees. */
  lemma WritesMean(src: Node, tar: Node, sl: Lang, tl: Lang, attWrites: nat,
                   wroteAliases: bool, wroteTarget: bool, wroteTitle: bool, wroteCt: bool, wroteExt: bool, wroteContent: bool)
    requires attWrites == 0 <==> AttributesInSync(src, tar, sl, tl)
    requires wroteAliases <==> tl.None? && src.aliases != tar.aliases
    requires wroteTarget <==> tl.None? && src.kind == Reference && src.targetAlias != tar.targetAlias
    requires wroteTitle <==> Lookup(tar.titles, tl) != SourceValue(src.titles, sl, tl)
    requires wroteCt <==> IsContent(src.kind) && Lookup(tar.contentType, tl) != SourceValue(src.contentType, sl, tl)
    requires wroteExt <==> IsContent(src.kind) && Lookup(tar.fileExt, tl) != SourceValue(src.fileExt, sl, tl)
    requires wroteContent <==> IsContent(src.kind) && Lookup(tar.content, tl) != SourceValue(src.content, sl, tl)
    ensures (attWrites + Count(wroteAliases) + Count(wroteTarget) + Count(wroteTitle)
             + Count(wroteCt) + Count(wroteExt) + Count(wroteContent) == 0) <==> InSync(src, tar, sl, tl)
  {
  }

  function Count(b: bool): nat
  {
    if b then 1 else 0
  }

  lemma PutUnchanged<K(!new), V>(m: map<K, V>, k: K, v: Option<V>)
    ensures Put(m, k, v) == m <==> Lookup(m, k) == v
  {
    if Lookup(m, k) == v {
      PutSame(m, k, v);
    }
  }

  /**
   * A language sync changes the target exactly when it was out of sync, and leaves it in sync: a
   * second sync of the same languages writes nothing.
   */
  lemma LangSyncedMeans(src: Node, tar: Node, t': Node, sl: Lang, tl: Lang)
    requires LangSynced(src, tar, t', sl, tl)
    ensures t' == tar <==> InSync(src, tar, sl, tl)
    ensures InSync(src, t', sl, tl)
  {
    AttributesSyncedMeans(src, tar, t', sl, tl);
    PutUnchanged(tar.titles, tl, SourceValue(src.titles, sl, tl));
    PutUnchanged(tar.contentType, tl, SourceValue(src.contentType, sl, tl));
    PutUnchanged(tar.fileExt, tl, SourceValue(src.fileExt, sl, tl));
    PutUnchanged(tar.content, tl, SourceValue(src.content, sl, tl));
  }

  // ------------------------------------------------------------ the whole node

  /** `a` and `b` hold the same values in language `l`. */
  ghost predicate SameIn(a: Node, b: Node, l: Lang)
  {
    Lookup(a.titles, l) == Lookup(b.titles, l) && Lookup(a.content, l) == Lookup(b.content, l)
    && Lookup(a.contentType, l) == Lookup(b.contentType, l) && Lookup(a.fileExt, l) == Lookup(b.fileExt, l)
    && forall name :: Attribute(a, name, l) == Attribute(b, name, l)
  }

  /** `a` and `b` agree in every language but `l`, and in what is not per language. */
  ghost predicate OnlyIn(a: Node, b: Node, l: Lang)
  {
    a.kind == b.kind && a.aliases == b.aliases && a.targetAlias == b.targetAlias
    && forall l' :: l' != l ==> SameIn(a, b, l')
  }

  /** The node holds nothing in language `code`. */
  ghost predicate Empty(n: Node, code: string)
  {
    var l: Lang := Some(code);
    l !in n.titles && l !in n.content && l !in n.contentType && l !in n.fileExt
    && forall name :: Attribute(n, name, l) == None
  }

  lemma HasTranslationMeans(n: Node, code: string)
    ensures HasTranslation(n, code) <==> !Empty(n, code)
  {
    if !HasTranslation(n, code) {
      NoTranslationNoValues(n, code);
    } else if code in LangsOf(n.titles) {
      assert Some(code) in n.titles;
    } else if code in LangsOf(n.content) {
      assert Some(code) in n.content;
    } else if code in LangsOf(n.contentType) {
      assert Some(code) in n.contentType;
    } else if code in LangsOf(n.fileExt) {
      assert Some(code) in n.fileExt;
    } else {
      var k :| k in n.atts.Keys && k.1.Some? && k.1.value == code;
      assert Attribute(n, k.0, Some(code)).Some?;
    }
  }

  /** Whether a node has a translation depends only on what it holds in that language. */
  lemma SameTranslation(a: Node, b: Node, code: string)
    requires SameIn(a, b, Some(code))
    ensures HasTranslation(a, code) <==> HasTranslation(b, code)
  {
    HasTranslationMeans(a, code);
    HasTranslationMeans(b, code);
  }

  /** Being in sync for `tl` depends only on what the target holds in `tl` (and its aliases). */
  lemma InSyncKept(src: Node, t: Node, t': Node, sl: Lang, tl: Lang)
    requires InSync(src, t, sl, tl) && SameIn(t, t', tl) && t'.aliases == t.aliases && t'.targetAlias == t.targetAlias
    ensures InSync(src, t', sl, tl)
  {
    if tl.None? {
      forall name | name in AttributeNames(t')
        ensures name in AttributeNames(t)
      {
        assert Attribute(t', name, None) == Attribute(t, name, None);
      }
    }
  }

  lemma SameInTrans(a: Node, b: Node, c: Node, l: Lang)
    requires SameIn(a, b, l) && SameIn(b, c, l)
    ensures SameIn(a, c, l)
  {
    forall name
      ensures Attribute(a, name, l) == Attribute(c, name, l)
    {
      assert Attribute(a, name, l) == Attribute(b, name, l);
    }
  }

  lemma EmptyKept(t: Node, t': Node, code: string)
    requires Empty(t, code) && SameIn(t, t', Some(code))
    ensures Empty(t', code)
  {
  }

  /** A sync of a translation changes nothing outside that language. */
  lemma LangSyncedOnlyIn(src: Node, tar: Node, t': Node, sl: Lang, code: string)
    requires LangSynced(src, tar, t', sl, Some(code))
    ensures OnlyIn(tar, t', Some(code))
  {
    forall l | l != Some(code)
      ensures SameIn(tar, t', l)
    {
      forall name
        ensures Attribute(tar, name, l) == Attribute(t', name, l)
      {
      }
    }
  }

  lemma DeletedOnlyIn(t: Node, code: string)
    ensures OnlyIn(t, DeleteTranslation(t, code), Some(code))
    ensures Empty(DeleteTranslation(t, code), code)
  {
  }

  /**
   * What became of language `code` in the loop of `syncNodeShallow`, with `mid` the node before
   * the loop: skipped when it is `transAsOrig` or `origAsTrans`; deleted when the target had it and
   * the source has not; otherwise in sync with the source's translation.
   */
  ghost predicate TranslationHandled(src: Node, mid: Node, t: Node, code: string, tao: Lang, oat: Lang)
  {
    Some(code) == tao || Some(code) == oat
    || (if HasTranslation(mid, code) && !HasTranslation(src, code) then Empty(t, code)
        else InSync(src, t, Some(code), Some(code)))
  }

  /** Every translation language of the set, once. */
  method ListOf(langs: set<string>) returns (xs: seq<string>)
    ensures Distinct(xs) && Elems(xs) == langs
  {
    var rest := langs;
    xs := [];
    while rest != {}
      invariant rest <= langs && Distinct(xs) && Elems(xs) == langs - rest
      decreases |rest|
    {
      var code :| code in rest;
      assert code !in xs;
      assert Elems(xs + [code]) == Elems(xs) + {code};
      xs := xs + [code];
      rest := rest - {code};
    }
  }

  /** One language of the loop of `syncNodeShallow`. */
  method SyncTranslation(src: Node, t: Node, code: string, tao: Lang, oat: Lang) returns (t': Node, writes: nat)
    requires Castable(src.kind, t.kind, None)
    ensures OnlyIn(t, t', Some(code))
    ensures Some(code) == tao || Some(code) == oat ==> t' == t && writes == 0
    ensures TranslationHandled(src, t, t', code, tao, oat)
    ensures writes == 0 ==> t' == t
  {
    if Some(code) == tao || Some(code) == oat {
      return t, 0;
    }
    if HasTranslation(t, code) && !HasTranslation(src, code) {
      t' := DeleteTranslation(t, code);
      DeletedOnlyIn(t, code);
      writes := 1;
    } else {
      var r;
      r, t', writes := SyncNodeShallowLang(src, t, Some(code), Some(code));
      LangSyncedMeans(src, t, t', Some(code), Some(code));
      LangSyncedOnlyIn(src, t, t', Some(code), code);
    }
  }

  /** The loop of `syncNodeShallow` has handled `langs[..i]` and left every other language alone. */
  ghost predicate TranslationsHandled(src: Node, mid: Node, t: Node, langs: seq<string>, i: nat, tao: Lang, oat: Lang)
    requires i <= |langs|
  {
    t.kind == mid.kind && t.aliases == mid.aliases && t.targetAlias == mid.targetAlias
    && (forall j :: 0 <= j < i ==> TranslationHandled(src, mid, t, langs[j], tao, oat))
    && (forall l: Lang :: l.None? || l == oat || l.value !in langs[..i] ==> SameIn(mid, t, l))
  }

  lemma TranslationsStep(src: Node, mid: Node, t: Node, t': Node, langs: seq<string>, i: nat, tao: Lang, oat: Lang)
    requires i < |langs| && Distinct(langs)
    requires TranslationsHandled(src, mid, t, langs, i, tao, oat)
    requires OnlyIn(t, t', Some(langs[i])) && TranslationHandled(src, t, t', langs[i], tao, oat)
    requires Some(langs[i]) == tao || Some(langs[i]) == oat ==> t' == t
    ensures TranslationsHandled(src, mid, t', langs, i + 1, tao, oat)
  {
    var code := langs[i];
    assert code !in langs[..i];
    assert SameIn(mid, t, Some(code));
    SameTranslation(mid, t, code);
    forall j | 0 <= j < i + 1
      ensures TranslationHandled(src, mid, t', langs[j], tao, oat)
    {
      if j < i {
        var c := langs[j];
        assert c != code;
        assert SameIn(t, t', Some(c));
        if !(Some(c) == tao || Some(c) == oat) {
          if HasTranslation(mid, c) && !HasTranslation(src, c) {
            EmptyKept(t, t', c);
          } else {
            InSyncKept(src, t, t', Some(c), Some(c));
          }
        }
      }
    }
    forall l: Lang | l.None? || l == oat || l.value !in langs[..i + 1]
      ensures SameIn(mid, t', l)
    {
      if l == Some(code) {
        assert l == oat && t' == t;
      } else {
        assert l.None? || l == oat || l.value !in langs[..i];
        SameInTrans(mid, t, t', l);
      }
    }
  }

  /** Outside the original language and `origAsTrans`, `a` and `b` hold the same titles and content. */
  ghost predicate ValuesKept(a: Node, b: Node, oat: Lang)
  {
    forall l: Lang :: l.Some? && l != oat ==>
      Lookup(a.titles, l) == Lookup(b.titles, l) && Lookup(a.content, l) == Lookup(b.content, l)
      && Lookup(a.contentType, l) == Lookup(b.contentType, l) && Lookup(a.fileExt, l) == Lookup(b.fileExt, l)
  }

  /**
   * The first two steps of `syncNodeShallow`: the original language of the target from
   * `transAsOrig` of the source, then `origAsTrans` of the target from the source's original.
   */
  method SyncOriginal(src: Node, tar: Node, tao: Lang, oat: Lang) returns (r: Result<Node>, left: Node, writes: nat)
    ensures !Castable(src.kind, tar.kind, None) ==> r == Err(ClassCastError) && CastFailWrites(src, tar, left, tao, None)
    ensures Castable(src.kind, tar.kind, None) ==> r == Ok(left)
    ensures r.Ok? ==> InSync(src, r.value, tao, None) && (oat.Some? ==> InSync(src, r.value, None, oat))
    ensures r.Ok? ==> r.value.kind == tar.kind && ValuesKept(tar, r.value, oat)
    ensures r.Ok? && writes == 0 ==> r.value == tar
  {
    r, left, writes := SyncNodeShallowLang(src, tar, tao, None);
    if r.Err? {
      return;
    }
    var t := r.value;
    OriginalSynced(src, tar, t, tao, oat);
    if oat.Some? {
      var r2, t2, w2 := SyncNodeShallowLang(src, t, None, oat);
      OrigAsTransSynced(src, tar, t, t2, tao, oat.value);
      r, left, writes := r2, t2, writes + w2;
    }
  }

  lemma OriginalSynced(src: Node, tar: Node, t: Node, tao: Lang, oat: Lang)
    requires LangSynced(src, tar, t, tao, None)
    ensures InSync(src, t, tao, None) && t.kind == tar.kind && ValuesKept(tar, t, oat)
    ensures t == tar <==> InSync(src, tar, tao, None)
  {
    LangSyncedMeans(src, tar, t, tao, None);
    forall l: Lang | l.Some?
      ensures Lookup(tar.titles, l) == Lookup(t.titles, l) && Lookup(tar.content, l) == Lookup(t.content, l)
      ensures Lookup(tar.contentType, l) == Lookup(t.contentType, l) && Lookup(tar.fileExt, l) == Lookup(t.fileExt, l)
    {
    }
  }

  lemma OrigAsTransSynced(src: Node, tar: Node, t: Node, t2: Node, tao: Lang, code: string)
    requires InSync(src, t, tao, None) && t.kind == tar.kind && ValuesKept(tar, t, Some(code))
    requires LangSynced(src, t, t2, None, Some(code))
    ensures InSync(src, t2, tao, None) && InSync(src, t2, None, Some(code))
    ensures t2.kind == tar.kind && ValuesKept(tar, t2, Some(code))
    ensures t2 == t <==> InSync(src, t, None, Some(code))
  {
    LangSyncedMeans(src, t, t2, None, Some(code));
    LangSyncedOnlyIn(src, t, t2, None, code);
    InSyncKept(src, t, t2, tao, None);
    ValuesKeptOnlyIn(tar, t, t2, Some(code));
  }

  lemma ValuesKeptOnlyIn(tar: Node, t: Node, t2: Node, oat: Lang)
    requires ValuesKept(tar, t, oat) && OnlyIn(t, t2, oat)
    ensures ValuesKept(tar, t2, oat)
  {
    forall l: Lang | l.Some? && l != oat
      ensures Lookup(tar.titles, l) == Lookup(t2.titles, l) && Lookup(tar.content, l) == Lookup(t2.content, l)
      ensures Lookup(tar.contentType, l) == Lookup(t2.contentType, l) && Lookup(tar.fileExt, l) == Lookup(t2.fileExt, l)
    {
      assert SameIn(t, t2, l);
    }
  }

  /** The loop of `syncNodeShallow` over the languages `langs`, starting from `mid`. */
  method SyncTranslations(src: Node, mid: Node, langs: seq<string>, tao: Lang, oat: Lang) returns (t: Node, writes: nat)
    requires Distinct(langs) && Castable(src.kind, mid.kind, None)
    requires InSync(src, mid, tao, None) && (oat.Some? ==> InSync(src, mid, None, oat))
    ensures InSync(src, t, tao, None) && (oat.Some? ==> InSync(src, t, None, oat))
    ensures t.kind == mid.kind && t.aliases == mid.aliases
    ensures forall code :: code in langs ==> TranslationHandled(src, mid, t, code, tao, oat)
    ensures forall l: Lang :: l.Some? && l != oat && l.value !in langs ==> SameIn(mid, t, l)
    ensures writes == 0 ==> t == mid
  {
    t, writes := mid, 0;
    for i := 0 to |langs|
      invariant TranslationsHandled(src, mid, t, langs, i, tao, oat)
      invariant InSync(src, t, tao, None) && (oat.Some? ==> InSync(src, t, None, oat))
      invariant writes == 0 ==> t == mid
    {
      var t', w := SyncTranslation(src, t, langs[i], tao, oat);
      TranslationsStep(src, mid, t, t', langs, i, tao, oat);
      InSyncKept(src, t, t', tao, None);
      if oat.Some? {
        InSyncKept(src, t, t', None, oat);
      }
      t, writes := t', writes + w;
    }
    assert langs[..|langs|] == langs;
    forall code | code in langs
      ensures TranslationHandled(src, mid, t, code, tao, oat)
    {
      var j :| 0 <= j < |langs| && langs[j] == code;
    }
  }

  /**
   * `syncNodeShallow(sourceNode, …, targetNode, …, trans, transAsOrig, origAsTrans)`: the original
   * language of the target from `transAsOrig` of the source (the original when none), then
   * `origAsTrans` of the target from the source's original, then every language of `trans`
   * (without a set: every translation of the source or of the target by then) other than those
   * two: a translation only the target has is deleted, the others are synced. `mid` is the node
   * before that loop and `langs` the languages it runs over.
   */
  method SyncNodeShallow(src: Node, tar: Node, trans: Option<seq<string>>, tao: Lang, oat: Lang)
    returns (r: Result<Node>, left: Node, writes: nat, ghost mid: Node, ghost langs: seq<string>)
    requires trans.Some? ==> Distinct(trans.value)
    ensures !Castable(src.kind, tar.kind, None) ==> r == Err(ClassCastError) && CastFailWrites(src, tar, left, tao, None)
    ensures Castable(src.kind, tar.kind, None) ==> r == Ok(left)
    ensures r.Ok? ==> mid.kind == tar.kind && ValuesKept(tar, mid, oat)
    ensures r.Ok? ==> trans.Some? ==> langs == trans.value
    ensures r.Ok? ==> trans.None? ==> Elems(langs) == Translations(src) + Translations(mid)
    ensures r.Ok? ==> InSync(src, r.value, tao, None) && (oat.Some? ==> InSync(src, r.value, None, oat))
    ensures r.Ok? ==> r.value.kind == tar.kind
    ensures r.Ok? ==> forall code :: code in langs ==> TranslationHandled(src, mid, r.value, code, tao, oat)
    ensures r.Ok? ==> forall l: Lang :: l.Some? && l != oat && l.value !in langs ==> SameIn(mid, r.value, l)
    ensures r.Ok? && writes == 0 ==> r.value == tar
  {
    var r1, l1, w1 := SyncOriginal(src, tar, tao, oat);
    if r1.Err? {
      return r1, l1, w1, tar, [];
    }
    var m := r1.value;
    var xs;
    if trans.Some? {
      xs := trans.value;
    } else {
      xs := ListOf(Translations(src) + Translations(m));
    }
    mid, langs := m, xs;
    var t, w2 := SyncTranslations(src, m, xs, tao, oat);
    r, left, writes := Ok(t), t, w1 + w2;
  }
}
