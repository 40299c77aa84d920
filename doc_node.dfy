/*
 * The document nodes of an open store version, as the copy and sync engine sees them through the
 * `DocNode`, `DocGroup` and `DocContent` interfaces: a node kind, aliases, per-language titles,
 * attributes, content, content types and file extensions, and for a group the ordered child ids.
 * The nodes of a version live in an arena keyed by node id; creating, moving and removing nodes
 * are updates of that arena.
 */
module DocNodes {
  import opened Wrappers
  import opened VersionStores

  /** The node types `DocXML`, `DocGroup`, `DocImage`, `DocFile` and `DocReference`. */
  datatype Kind = Xml | Group | Image | File | Reference

  /** The kinds that are `DocContent`: they hold content, a content type and a file extension. */
  predicate IsContent(k: Kind)
  {
    k == Xml || k == Image || k == File
  }

  /** A language: `None` is the original language, `Some(code)` a translation. */
  type Lang = Option<string>

  datatype Node = Node(
    kind: Kind,
    aliases: seq<string>,
    targetAlias: Option<string>,
    titles: map<Lang, string>,
    atts: map<(string, Lang), string>,
    content: map<Lang, seq<bv8>>,
    contentType: map<Lang, string>,
    fileExt: map<Lang, string>)

  function Lookup<K, V>(m: map<K, V>, k: K): Option<V>
  {
    if k in m then Some(m[k]) else None
  }

  /** Writes a value; a missing value removes the entry. */
  function Put<K(!new), V>(m: map<K, V>, k: K, v: Option<V>): (r: map<K, V>)
    ensures Lookup(r, k) == v
    ensures forall j :: j != k ==> Lookup(r, j) == Lookup(m, j)
  {
    if v.Some? then m[k := v.value] else m - {k}
  }

  /**
   * What a getter without a language argument reads in translation mode `mode`: the translated
   * value, or the original one when there is no translation.
   */
  function InMode<V>(m: map<Lang, V>, mode: Lang): (r: Option<V>)
    ensures mode in m ==> r == Some(m[mode])
    ensures mode !in m ==> r == Lookup(m, None)
  {
    if mode in m then Some(m[mode]) else Lookup(m, None)
  }

  /** A node just created by `createXML()`, `createGroup()` and so on. */
  function NewNode(kind: Kind): Node
  {
    Node(kind, [], None, map[], map[], map[], map[], map[])
  }

  /** `getAttribute(name, lang)`. */
  function Attribute(n: Node, name: string, lang: Lang): Option<string>
  {
    Lookup(n.atts, (name, lang))
  }

  /** `getAttributes(lang)`: the attributes that have a value in `lang`. */
  function Attributes(n: Node, lang: Lang): (r: map<string, string>)
    ensures forall name :: Lookup(r, name) == Attribute(n, name, lang)
  {
    var r := map k | k in n.atts && k.1 == lang :: k.0 := n.atts[k];
    assert forall name :: Lookup(r, name) == Attribute(n, name, lang) by {
      forall name
        ensures Lookup(r, name) == Attribute(n, name, lang)
      {
        if (name, lang) in n.atts {
          assert name in r;
        }
      }
    }
    r
  }

  /** `getAttribute(name)` in translation mode `mode`: the translated value, or else the original one. */
  function AttributeInMode(n: Node, name: string, mode: Lang): (r: Option<string>)
    ensures (name, mode) in n.atts ==> r == Some(n.atts[(name, mode)])
    ensures (name, mode) !in n.atts ==> r == Attribute(n, name, None)
  {
    if (name, mode) in n.atts then Some(n.atts[(name, mode)]) else Attribute(n, name, None)
  }

  /** `getAttributeNames()`: the names of the attributes set in the original language. */
  function AttributeNames(n: Node): (r: set<string>)
    ensures forall name :: name in r <==> (name, None) in n.atts
  {
    var r := set k | k in n.atts.Keys && k.1.None? :: k.0;
    assert forall name :: (name, None) in n.atts ==> name in r by {
      forall name | (name, None) in n.atts
        ensures name in r
      {
        var k: (string, Lang) := (name, None);
        assert k in n.atts.Keys && k.1.None?;
      }
    }
    r
  }

  /**
   * `setAttribute(name, value, lang)`: a missing value removes the entry; removing in the original
   * language removes the attribute together with all its translations.
   */
  function WithAttribute(n: Node, name: string, v: Option<string>, lang: Lang): (r: Node)
    ensures Attribute(r, name, lang) == v
    ensures forall k: (string, Lang) :: k.0 != name ==> Lookup(r.atts, k) == Lookup(n.atts, k)
    ensures forall l :: v.Some? || lang.Some? ==> l != lang ==> Attribute(r, name, l) == Attribute(n, name, l)
    ensures v.None? && lang.None? ==> forall l :: Attribute(r, name, l) == None
  {
    if v.Some? then n.(atts := n.atts[(name, lang) := v.value])
    else if lang.None? then n.(atts := map k | k in n.atts && k.0 != name :: n.atts[k])
    else n.(atts := n.atts - {(name, lang)})
  }

  /** The translation languages a value map holds. */
  function LangsOf<V>(m: map<Lang, V>): set<string>
  {
    set l | l in m.Keys && l.Some? :: l.value
  }

  /** `getTranslations()`: every language in which the node holds some value. */
  function Translations(n: Node): set<string>
  {
    LangsOf(n.titles) + LangsOf(n.content) + LangsOf(n.contentType) + LangsOf(n.fileExt)
    + AttributeLangs(n)
  }

  /** The translation languages in which some attribute has a value. */
  function AttributeLangs(n: Node): set<string>
  {
    set k | k in n.atts.Keys && k.1.Some? :: k.1.value
  }

  /** `hasTranslation(code)`. */
  predicate HasTranslation(n: Node, code: string)
  {
    code in Translations(n)
  }

  /** A node holds no value in a language it has no translation for. */
  lemma NoTranslationNoValues(n: Node, code: string)
    requires !HasTranslation(n, code)
    ensures Some(code) !in n.titles && Some(code) !in n.content
    ensures Some(code) !in n.contentType && Some(code) !in n.fileExt
    ensures forall name :: Attribute(n, name, Some(code)) == None
  {
    var l: Lang := Some(code);
    assert l in n.titles.Keys ==> code in LangsOf(n.titles);
    assert l in n.content.Keys ==> code in LangsOf(n.content);
    assert l in n.contentType.Keys ==> code in LangsOf(n.contentType);
    assert l in n.fileExt.Keys ==> code in LangsOf(n.fileExt);
  }

  /** `getTranslations()` as an array: every translation language once, in some order. */
  method TranslationList(n: Node) returns (xs: seq<string>)
    ensures Distinct(xs) && forall code :: code in xs <==> HasTranslation(n, code)
  {
    var all := Translations(n);
    var rest := all;
    xs := [];
    while rest != {}
      invariant rest <= all && Distinct(xs)
      invariant forall code :: code in xs <==> code in all && code !in rest
      decreases |rest|
    {
      var code :| code in rest;
      assert code !in xs;
      xs := xs + [code];
      rest := rest - {code};
    }
  }

  /** `deleteTranslation(code)`: drops every value held in language `code`. */
  function DeleteTranslation(n: Node, code: string): (r: Node)
    ensures r.kind == n.kind && r.aliases == n.aliases && r.targetAlias == n.targetAlias
    ensures forall l :: l != Some(code) ==> (Lookup(r.titles, l) == Lookup(n.titles, l)
      && Lookup(r.content, l) == Lookup(n.content, l) && Lookup(r.contentType, l) == Lookup(n.contentType, l)
      && Lookup(r.fileExt, l) == Lookup(n.fileExt, l))
    ensures forall name, l :: l != Some(code) ==> Attribute(r, name, l) == Attribute(n, name, l)
    ensures Some(code) !in r.titles && Some(code) !in r.content && Some(code) !in r.contentType && Some(code) !in r.fileExt
    ensures forall name :: Attribute(r, name, Some(code)) == None
  {
    n.(titles := n.titles - {Some(code)},
       atts := map k | k in n.atts && k.1 != Some(code) :: n.atts[k],
       content := n.content - {Some(code)},
       contentType := n.contentType - {Some(code)},
       fileExt := n.fileExt - {Some(code)})
  }

  // ------------------------------------------------------------ the arena

  predicate Distinct(xs: seq<string>)
  {
    forall i, j :: 0 <= i < j < |xs| ==> xs[i] != xs[j]
  }

  /** The ids or names a sequence holds. */
  function Elems(xs: seq<string>): set<string>
  {
    set x | x in xs
  }

  /** The ordered child ids of each group that has children. */
  type Kids = map<string, seq<string>>

  /** `getChildNodes()` of `g`. */
  function ChildrenOf(kids: Kids, g: string): seq<string>
  {
    if g in kids then kids[g] else []
  }

  /**
   * The arena is a forest: only groups have children, every child id names a node, child lists
   * have no repeats, and a node is the child of at most one group.
   */
  ghost predicate Forest(nodes: map<string, Node>, kids: Kids)
  {
    (forall g :: g in kids ==> g in nodes && nodes[g].kind == Group)
    && (forall g, c :: g in kids && c in kids[g] ==> c in nodes)
    && (forall g :: g in kids ==> Distinct(kids[g]))
    && (forall g1, g2, c :: g1 in kids && g2 in kids && c in kids[g1] && c in kids[g2] ==> g1 == g2)
  }

  /** `c` taken out of every child list, as moving or removing it first does. */
  function Detached(kids: Kids, c: string): (r: Kids)
    ensures r.Keys == kids.Keys
    ensures forall g :: g in kids ==> r[g] == Without(kids[g], {c})
  {
    map g | g in kids :: Without(kids[g], {c})
  }

  /** `g.insertBefore(c, …)` at index `idx` of the child list that remains once `c` is detached. */
  function InsertedAt(kids: Kids, g: string, c: string, idx: nat): Kids
    requires idx <= |ChildrenOf(Detached(kids, c), g)|
  {
    var cs := ChildrenOf(Detached(kids, c), g);
    Detached(kids, c)[g := cs[..idx] + [c] + cs[idx..]]
  }

  /** `g.appendChild(c)`: `c` moves to the end of `g`'s children. */
  function Appended(kids: Kids, g: string, c: string): Kids
  {
    InsertedAt(kids, g, c, |ChildrenOf(Detached(kids, c), g)|)
  }

  lemma AppendedMeans(kids: Kids, g: string, c: string)
    ensures ChildrenOf(Appended(kids, g, c), g) == ChildrenOf(Detached(kids, c), g) + [c]
    ensures forall h :: h != g ==> ChildrenOf(Appended(kids, g, c), h) == ChildrenOf(Detached(kids, c), h)
  {
    var cs := ChildrenOf(Detached(kids, c), g);
    assert cs[..|cs|] == cs;
  }

  /** A childless node `c` leaves the arena and every child list. */
  function Removed(kids: Kids, c: string): (r: Kids)
    ensures r.Keys == kids.Keys - {c}
  {
    Detached(kids, c) - {c}
  }

  lemma {:induction false} WithoutDistinct(xs: seq<string>, gone: set<string>)
    requires Distinct(xs)
    ensures Distinct(Without(xs, gone))
  {
    if xs != [] {
      WithoutDistinct(xs[1..], gone);
      assert Distinct(xs[1..]);
      var t := Without(xs[1..], gone);
      if xs[0] !in gone {
        assert Without(xs, gone) == [xs[0]] + t;
        forall j | 0 <= j < |t|
          ensures t[j] != xs[0]
        {
          WithoutMeans(xs[1..], gone, t[j]);
          assert t[j] in t;
        }
      }
    }
  }

  /** Detaching keeps the forest, and takes exactly `c` out of each list. */
  lemma DetachedForest(nodes: map<string, Node>, kids: Kids, c: string)
    requires Forest(nodes, kids)
    ensures Forest(nodes, Detached(kids, c))
    ensures forall g, x :: x in ChildrenOf(Detached(kids, c), g) <==> x in ChildrenOf(kids, g) && x != c
  {
    var d := Detached(kids, c);
    forall g, x
      ensures x in ChildrenOf(d, g) <==> x in ChildrenOf(kids, g) && x != c
    {
      if g in kids {
        WithoutMeans(kids[g], {c}, x);
      }
    }
    forall g | g in kids
      ensures Distinct(d[g])
    {
      WithoutDistinct(kids[g], {c});
    }
    forall g1, g2, x | g1 in d && g2 in d && x in d[g1] && x in d[g2]
      ensures g1 == g2
    {
      WithoutMeans(kids[g1], {c}, x);
      WithoutMeans(kids[g2], {c}, x);
      assert x in kids[g1] && x in kids[g2];
    }
    forall g, x | g in d && x in d[g]
      ensures x in nodes
    {
      WithoutMeans(kids[g], {c}, x);
    }
  }

  /** Splicing a new id into a child list keeps it free of repeats and adds just that id. */
  lemma Spliced(cs: seq<string>, c: string, idx: nat)
    requires Distinct(cs) && c !in cs && idx <= |cs|
    ensures Distinct(cs[..idx] + [c] + cs[idx..])
    ensures forall x :: x in cs[..idx] + [c] + cs[idx..] <==> x in cs || x == c
  {
    var cs' := cs[..idx] + [c] + cs[idx..];
    forall x
      ensures x in cs' <==> x in cs || x == c
    {
      assert cs == cs[..idx] + cs[idx..];
    }
    forall i, j | 0 <= i < j < |cs'|
      ensures cs'[i] != cs'[j]
    {
      if i < idx && j < idx {
        assert cs'[i] == cs[i] && cs'[j] == cs[j];
      } else if i < idx && j == idx {
        assert cs'[i] == cs[i] && cs[i] in cs;
      } else if i < idx {
        assert cs'[i] == cs[i] && cs'[j] == cs[j - 1];
      } else if i == idx {
        assert cs'[j] == cs[j - 1] && cs[j - 1] in cs;
      } else {
        assert cs'[i] == cs[i - 1] && cs'[j] == cs[j - 1];
      }
    }
  }

  lemma InsertedForest(nodes: map<string, Node>, kids: Kids, g: string, c: string, idx: nat)
    requires Forest(nodes, kids) && g in nodes && c in nodes && nodes[g].kind == Group
    requires idx <= |ChildrenOf(Detached(kids, c), g)|
    ensures Forest(nodes, InsertedAt(kids, g, c, idx))
  {
    var d := Detached(kids, c);
    DetachedForest(nodes, kids, c);
    var cs := ChildrenOf(d, g);
    if g in kids {
      WithoutDistinct(kids[g], {c});
    }
    Spliced(cs, c, idx);
    var r := InsertedAt(kids, g, c, idx);
    forall h1, h2, x | h1 in r && h2 in r && x in r[h1] && x in r[h2]
      ensures h1 == h2
    {
      if x == c {
        assert c !in ChildrenOf(d, h1) && c !in ChildrenOf(d, h2);
      }
    }
  }

  lemma RemovedForest(nodes: map<string, Node>, kids: Kids, c: string)
    requires Forest(nodes, kids) && ChildrenOf(kids, c) == []
    ensures Forest(nodes - {c}, Removed(kids, c))
  {
    DetachedForest(nodes, kids, c);
    var r := Removed(kids, c);
    forall g, x | g in r && x in r[g]
      ensures x in nodes - {c}
    {
      assert x in ChildrenOf(Detached(kids, c), g);
    }
  }

  /** Some node of the arena carries `alias`. */
  predicate AliasInUse(nodes: map<string, Node>, alias: string)
  {
    exists id :: id in nodes && alias in nodes[id].aliases
  }

  lemma {:induction false} WithoutAbsent(xs: seq<string>, c: string)
    requires c !in xs
    ensures Without(xs, {c}) == xs
  {
    if xs != [] {
      WithoutAbsent(xs[1..], c);
      assert xs == [xs[0]] + xs[1..];
    }
  }

  /** Moving a node that is in no child list changes only the list it is put in. */
  lemma DetachedParentless(kids: Kids, c: string)
    requires Parentless(kids, c)
    ensures Detached(kids, c) == kids
  {
    forall g | g in kids
      ensures Without(kids[g], {c}) == kids[g]
    {
      WithoutAbsent(kids[g], c);
    }
  }

  /** A node whose id is in no child list. */
  predicate Parentless(kids: Kids, c: string)
  {
    forall g :: g in kids ==> c !in kids[g]
  }

  /** The nodes visible through a session that has a version open. */
  class NodeTree {
    var nodes: map<string, Node>
    var kids: Kids

    ghost predicate Valid()
      reads this
    {
      Forest(nodes, kids)
    }

    constructor (nodes: map<string, Node>, kids: Kids)
      requires Forest(nodes, kids)
      ensures Valid() && this.nodes == nodes && this.kids == kids
    {
      this.nodes := nodes;
      this.kids := kids;
    }

    /** `nodeIdExists(id)`, and `getNodeById(id) != null`. */
    predicate NodeIdExists(id: string)
      reads this
    {
      id in nodes
    }

    /** `getNodeIdByAlias(alias) != null`: some node carries the alias. */
    predicate KnowsAlias(alias: string)
      reads this
    {
      AliasInUse(nodes, alias)
    }

    /** The id the store hands out to a node created without one: longer than every id in use. */
    method NewNodeId() returns (id: string)
      ensures id !in nodes
    {
      var longest: nat := 0;
      var rest := nodes.Keys;
      while rest != {}
        invariant rest <= nodes.Keys
        invariant forall k :: k in nodes.Keys - rest ==> |k| <= longest
        decreases |rest|
      {
        var k :| k in rest;
        if |k| > longest {
          longest := |k|;
        }
        rest := rest - {k};
      }
      id := seq(longest + 1, _ => '0');
      assert |id| == longest + 1;
    }

    /**
     * `createXML(id)`, `createGroup(id)` and the others; without an id the store assigns a fresh
     * one. The new node is not yet part of any group. An id already in use is refused.
     */
    method CreateNode(kind: Kind, id: Option<string>) returns (r: Result<string>)
      requires Valid()
      modifies this
      ensures Valid() && kids == old(kids)
      ensures id.Some? && id.value in old(nodes) ==> r == Err("Node ID already exists: " + id.value) && nodes == old(nodes)
      ensures id.None? || id.value !in old(nodes) ==> r.Ok?
      ensures r.Ok? ==> (r.value !in old(nodes) && (id.Some? ==> r.value == id.value)
        && nodes == old(nodes)[r.value := NewNode(kind)] && Parentless(kids, r.value))
    {
      var newId: string;
      if id.Some? {
        if id.value in nodes {
          return Err("Node ID already exists: " + id.value);
        }
        newId := id.value;
      } else {
        newId := NewNodeId();
      }
      nodes := nodes[newId := NewNode(kind)];
      r := Ok(newId);
    }

    /** Rewrites what a node holds other than its kind; the tree shape is unchanged. */
    method UpdateNode(id: string, n: Node)
      requires Valid() && id in nodes && n.kind == nodes[id].kind
      modifies this
      ensures Valid() && nodes == old(nodes)[id := n] && kids == old(kids)
    {
      nodes := nodes[id := n];
    }

    /** `g.appendChild(c)`: moves `c` from wherever it was to the end of `g`'s children. */
    method AppendChild(g: string, c: string)
      requires Valid() && g in nodes && c in nodes && nodes[g].kind == Group
      modifies this
      ensures Valid() && nodes == old(nodes) && kids == Appended(old(kids), g, c)
    {
      InsertedForest(nodes, kids, g, c, |ChildrenOf(Detached(kids, c), g)|);
      kids := Appended(kids, g, c);
    }

    /** `g.insertBefore(c, ref)`: moves `c` right in front of `ref`, a child of `g` other than `c`. */
    method InsertBefore(g: string, c: string, ref: string) returns (ghost idx: nat)
      requires Valid() && g in nodes && c in nodes && nodes[g].kind == Group
      requires ref in ChildrenOf(kids, g) && ref != c
      modifies this
      ensures Valid() && nodes == old(nodes)
      ensures idx < |ChildrenOf(Detached(old(kids), c), g)| && ChildrenOf(Detached(old(kids), c), g)[idx] == ref
      ensures kids == InsertedAt(old(kids), g, c, idx)
    {
      var cs := ChildrenOf(Detached(kids, c), g);
      DetachedForest(nodes, kids, c);
      var i := 0;
      while cs[i] != ref
        invariant 0 <= i < |cs| && ref in cs[i..]
        decreases |cs| - i
      {
        i := i + 1;
      }
      idx := i;
      InsertedForest(nodes, kids, g, c, i);
      kids := InsertedAt(kids, g, c, i);
    }

    /** `g.removeChild(c)`: deletes the childless node `c`. */
    method RemoveChild(g: string, c: string)
      requires Valid() && c in ChildrenOf(kids, g) && ChildrenOf(kids, c) == []
      modifies this
      ensures Valid() && nodes == old(nodes) - {c} && kids == Removed(old(kids), c)
    {
      RemovedForest(nodes, kids, c);
      nodes := nodes - {c};
      kids := Removed(kids, c);
    }

    /** `getParentGroup()` of node `c`: the group listing it, if any. */
    method ParentGroup(c: string) returns (p: Option<string>)
      requires Valid()
      ensures p.Some? ==> c in ChildrenOf(kids, p.value) && p.value in nodes
      ensures p.None? ==> Parentless(kids, c)
    {
      var rest := kids.Keys;
      while rest != {}
        invariant rest <= kids.Keys
        invariant forall g :: g in kids.Keys - rest ==> c !in kids[g]
        decreases |rest|
      {
        var g :| g in rest;
        if c in kids[g] {
          return Some(g);
        }
        rest := rest - {g};
      }
      return None;
    }
  }
}
