/*
 * The persistent side of a document-store session, as the session helpers and the copy engine see
 * it: store properties, the ordered version list of each store, version properties and the
 * derived-from link of each version. Reading a property that was never written gives nothing;
 * writing a null value removes the property.
 */
module VersionStores {
  import opened Wrappers
  import opened DocStoreManagers

  type VersionId = string
  type Props = map<string, string>

  datatype Backend = Backend(
    storeProps: map<string, Props>,
    versionLists: map<string, seq<VersionId>>,
    versionProps: map<VersionAddress, Props>,
    derivedFrom: map<VersionAddress, VersionId>)

  function Property(p: Props, name: string): Option<string>
  {
    if name in p then Some(p[name]) else None
  }

  /** `getDocStoreProperty(storeId, name)`. */
  function StoreProperty(b: Backend, storeId: string, name: string): Option<string>
  {
    if storeId in b.storeProps then Property(b.storeProps[storeId], name) else None
  }

  /** `getVersionProperty(storeId, verId, name)`. */
  function VersionProperty(b: Backend, storeId: string, verId: VersionId, name: string): Option<string>
  {
    var a := VersionAddress(storeId, verId);
    if a in b.versionProps then Property(b.versionProps[a], name) else None
  }

  /** `listVersions(storeId)`: the store's versions in the backend's order. */
  function ListVersions(b: Backend, storeId: string): seq<VersionId>
  {
    if storeId in b.versionLists then b.versionLists[storeId] else []
  }

  /** `getVersionDerivedFrom(storeId, verId)`: the base version, or nothing for a root version. */
  function DerivedFrom(b: Backend, storeId: string, verId: VersionId): Option<VersionId>
  {
    var a := VersionAddress(storeId, verId);
    if a in b.derivedFrom then Some(b.derivedFrom[a]) else None
  }

  /** The versions of `xs`, in order, whose base version is `base`. */
  function DerivedOnes(b: Backend, storeId: string, xs: seq<VersionId>, base: Option<VersionId>): seq<VersionId>
  {
    if xs == [] then []
    else (if DerivedFrom(b, storeId, xs[0]) == base then [xs[0]] else [])
         + DerivedOnes(b, storeId, xs[1..], base)
  }

  /** A version belongs to the filtered list iff it is listed and derived from `base`. */
  lemma {:induction false} DerivedOnesMeans(b: Backend, storeId: string, xs: seq<VersionId>, base: Option<VersionId>, v: VersionId)
    ensures v in DerivedOnes(b, storeId, xs, base) <==> v in xs && DerivedFrom(b, storeId, v) == base
  {
    if xs != [] {
      DerivedOnesMeans(b, storeId, xs[1..], base, v);
      assert xs == [xs[0]] + xs[1..];
    }
  }

  /** `getSubVersions(storeId, verId)`: the listed versions derived directly from `verId`. */
  function SubVersions(b: Backend, storeId: string, verId: VersionId): seq<VersionId>
  {
    DerivedOnes(b, storeId, ListVersions(b, storeId), Some(verId))
  }

  /** The listed versions that are derived from no other version. */
  function RootVersions(b: Backend, storeId: string): seq<VersionId>
  {
    DerivedOnes(b, storeId, ListVersions(b, storeId), None)
  }

  /**
   * The derived-from links of `storeId` go strictly down in `rank`: a version derived from a base
   * ranks below it, so following the links ends.
   */
  ghost predicate VersionsRanked(b: Backend, storeId: string, rank: map<VersionId, nat>)
  {
    forall v :: DerivedFrom(b, storeId, v).Some? ==>
      v in rank && DerivedFrom(b, storeId, v).value in rank && rank[v] < rank[DerivedFrom(b, storeId, v).value]
  }

  /** The sub-versions of a version rank below it. */
  lemma SubVersionsRankBelow(b: Backend, storeId: string, rank: map<VersionId, nat>, vid: VersionId)
    requires VersionsRanked(b, storeId, rank)
    ensures var subs := SubVersions(b, storeId, vid);
      subs != [] ==> vid in rank && forall v :: v in subs ==> v in rank && rank[v] < rank[vid]
  {
    var subs := SubVersions(b, storeId, vid);
    forall v | v in subs
      ensures vid in rank && v in rank && rank[v] < rank[vid]
    {
      DerivedOnesMeans(b, storeId, ListVersions(b, storeId), Some(vid), v);
    }
    if subs != [] {
      assert subs[0] in subs;
    }
  }

  /** Writes the values in order; a missing value removes the property. */
  function SetProps(p: Props, names: seq<string>, values: seq<Option<string>>): Props
    requires |names| == |values|
    decreases |names|
  {
    if names == [] then p
    else
      var p1 := if values[0].Some? then p[names[0] := values[0].value] else p - {names[0]};
      SetProps(p1, names[1..], values[1..])
  }

  /** After writing distinct names, each one reads back its value and every other property is kept. */
  lemma {:induction false} SetPropsReads(p: Props, names: seq<string>, values: seq<Option<string>>, name: string)
    requires |names| == |values|
    requires forall i, j :: 0 <= i < j < |names| ==> names[i] != names[j]
    ensures forall i :: 0 <= i < |names| && names[i] == name ==> Property(SetProps(p, names, values), name) == values[i]
    ensures name !in names ==> Property(SetProps(p, names, values), name) == Property(p, name)
    decreases |names|
  {
    if names != [] {
      var p1 := if values[0].Some? then p[names[0] := values[0].value] else p - {names[0]};
      SetPropsReads(p1, names[1..], values[1..], name);
      forall i | 0 <= i < |names| && names[i] == name
        ensures Property(SetProps(p, names, values), name) == values[i]
      {
        if i > 0 {
          assert names[1..][i - 1] == name;
        } else {
          assert name !in names[1..];
        }
      }
    }
  }

  /** `setDocStoreProperties(storeId, names, values)`. */
  function WithStoreProps(b: Backend, storeId: string, names: seq<string>, values: seq<Option<string>>): Backend
    requires |names| == |values|
  {
    var p := if storeId in b.storeProps then b.storeProps[storeId] else map[];
    b.(storeProps := b.storeProps[storeId := SetProps(p, names, values)])
  }

  /** `setVersionProperties(storeId, verId, names, values)`. */
  function WithVersionProps(b: Backend, storeId: string, verId: VersionId, names: seq<string>, values: seq<Option<string>>): Backend
    requires |names| == |values|
  {
    var a := VersionAddress(storeId, verId);
    var p := if a in b.versionProps then b.versionProps[a] else map[];
    b.(versionProps := b.versionProps[a := SetProps(p, names, values)])
  }

  /** The list without the versions in `gone`. */
  function Without(xs: seq<VersionId>, gone: set<VersionId>): seq<VersionId>
  {
    if xs == [] then [] else (if xs[0] in gone then [] else [xs[0]]) + Without(xs[1..], gone)
  }

  lemma {:induction false} WithoutMeans(xs: seq<VersionId>, gone: set<VersionId>, v: VersionId)
    ensures v in Without(xs, gone) <==> v in xs && v !in gone
  {
    if xs != [] {
      WithoutMeans(xs[1..], gone, v);
      assert xs == [xs[0]] + xs[1..];
    }
  }

  lemma {:induction false} WithoutTwice(xs: seq<VersionId>, a: set<VersionId>, c: set<VersionId>)
    ensures Without(Without(xs, a), c) == Without(xs, a + c)
  {
    if xs != [] {
      WithoutTwice(xs[1..], a, c);
      var t := Without(xs[1..], a);
      if xs[0] in a {
        assert Without(xs, a) == t;
      } else {
        assert Without(xs, a) == [xs[0]] + t;
        assert Without(xs, a)[1..] == t;
      }
    }
  }

  lemma {:induction false} WithoutNothing(xs: seq<VersionId>)
    ensures Without(xs, {}) == xs
  {
    if xs != [] {
      WithoutNothing(xs[1..]);
    }
  }

  /** `deleteVersion(storeId, verId)`: the version leaves the list with its properties and its base link. */
  function WithoutVersion(b: Backend, storeId: string, verId: VersionId): Backend
  {
    var a := VersionAddress(storeId, verId);
    b.(versionLists := if storeId in b.versionLists then b.versionLists[storeId := Without(b.versionLists[storeId], {verId})] else b.versionLists,
       versionProps := b.versionProps - {a},
       derivedFrom := b.derivedFrom - {a})
  }

  /** Deleting a version keeps every other version of the store listed with its base link. */
  lemma WithoutVersionKeeps(b: Backend, storeId: string, verId: VersionId)
    ensures ListVersions(WithoutVersion(b, storeId, verId), storeId) == Without(ListVersions(b, storeId), {verId})
    ensures forall x :: x in ListVersions(WithoutVersion(b, storeId, verId), storeId) ==>
      x in ListVersions(b, storeId) && x != verId
      && DerivedFrom(WithoutVersion(b, storeId, verId), storeId, x) == DerivedFrom(b, storeId, x)
  {
    if storeId !in b.versionLists {
      assert Without([], {verId}) == [];
    }
    forall x | x in ListVersions(WithoutVersion(b, storeId, verId), storeId)
      ensures x in ListVersions(b, storeId) && x != verId
    {
      WithoutMeans(ListVersions(b, storeId), {verId}, x);
    }
  }

  /** Deleting a version keeps the rank of the remaining derived-from links. */
  lemma WithoutVersionRanked(b: Backend, storeId: string, verId: VersionId, rank: map<VersionId, nat>)
    requires VersionsRanked(b, storeId, rank)
    ensures VersionsRanked(WithoutVersion(b, storeId, verId), storeId, rank)
  {
    var b' := WithoutVersion(b, storeId, verId);
    forall v | DerivedFrom(b', storeId, v).Some?
      ensures DerivedFrom(b, storeId, v) == DerivedFrom(b', storeId, v)
    {
    }
  }
}
