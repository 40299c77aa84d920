/*
 * `copyVersion` of DocStoreUtilities and its helpers: one version of a source store is created in
 * the target store below the nearest of its bases that the target store already lists, its
 * properties are copied, its node tree is synced with the translations asked for, the image
 * renditions the target store lacks are copied, and its state and release date are copied per
 * language. `getRootVersions` lists the versions without a base.
 */
module VersionCopy {
  import opened Wrappers
  import opened JavaText
  import opened DocStoreManagers
  import opened VersionStores
  import opened DocNodes
  import opened NodeSync
  import opened DocStoreSessions
  import opened ImageRendition
  import opened DocmaUtil
  import opened ProgressCallbacks
  import opened TreeSync
  import opened SyncRecursive

  // ---------------------------------------------------------------- root versions

  /** Filtering one more version at the end of the list. */
  lemma {:induction false} DerivedOnesSnoc(b: Backend, storeId: string, xs: seq<VersionId>, x: VersionId, base: Option<VersionId>)
    ensures DerivedOnes(b, storeId, xs + [x], base)
      == DerivedOnes(b, storeId, xs, base) + (if DerivedFrom(b, storeId, x) == base then [x] else [])
    decreases |xs|
  {
    if xs == [] {
      assert [x][1..] == [];
    } else {
      DerivedOnesSnoc(b, storeId, xs[1..], x, base);
      assert (xs + [x])[1..] == xs[1..] + [x];
    }
  }

  /** `getRootVersions(storeId)`: the listed versions that have no base, in list order. */
  method GetRootVersions(session: DocStoreSession, storeId: string) returns (roots: seq<VersionId>)
    ensures roots == RootVersions(session.backend, storeId)
    ensures forall v :: v in roots <==> v in ListVersions(session.backend, storeId) && DerivedFrom(session.backend, storeId, v).None?
  {
    var all := ListVersions(session.backend, storeId);
    roots := [];
    for i := 0 to |all|
      invariant roots == DerivedOnes(session.backend, storeId, all[..i], None)
    {
      DerivedOnesSnoc(session.backend, storeId, all[..i], all[i], None);
      assert all[..i + 1] == all[..i] + [all[i]];
      if DerivedFrom(session.backend, storeId, all[i]) == None {
        roots := roots + [all[i]];
      }
    }
    assert all[..|all|] == all;
    forall v
      ensures v in roots <==> v in all && DerivedFrom(session.backend, storeId, v).None?
    {
      DerivedOnesMeans(session.backend, storeId, all, None, v);
    }
  }

  // ---------------------------------------------------------------- the base in the target store

  /** A version with a base ranks below its base. */
  lemma BaseRanksAbove(b: Backend, storeId: string, rank: map<VersionId, nat>, v: VersionId)
    requires VersionsRanked(b, storeId, rank)
    ensures var next := DerivedFrom(b, storeId, v);
      next.Some? ==> v in rank && next.value in rank && rank[v] < rank[next.value]
  {
  }

  /** The ranked versions that rank at least as high as `v`. */
  ghost function AtOrAbove(rank: map<VersionId, nat>, v: VersionId): set<VersionId>
    requires v in rank
  {
    set x | x in rank && rank[x] >= rank[v]
  }

  /** Going to a higher rank leaves fewer versions at or above. */
  lemma AtOrAboveShrinks(rank: map<VersionId, nat>, v: VersionId, w: VersionId)
    requires v in rank && w in rank && rank[v] < rank[w]
    ensures |AtOrAbove(rank, w)| < |AtOrAbove(rank, v)|
  {
    var a := AtOrAbove(rank, w);
    var b := AtOrAbove(rank, v);
    var c := a + {v};
    assert v !in a && c <= b;
    assert b == c + (b - c);
  }

  /** What the walk down the derived-from links has left: it ends at a version without a base. */
  ghost function BasesMeasure(rank: map<VersionId, nat>, start: Option<VersionId>): nat
  {
    if start.None? then 0 else if start.value in rank then 2 + |AtOrAbove(rank, start.value)| else 1
  }

  /** One step down the links lowers the measure. */
  lemma BasesMeasureDrops(b: Backend, storeId: string, rank: map<VersionId, nat>, v: VersionId)
    requires VersionsRanked(b, storeId, rank)
    ensures BasesMeasure(rank, DerivedFrom(b, storeId, v)) < BasesMeasure(rank, Some(v))
  {
    BaseRanksAbove(b, storeId, rank, v);
    var next := DerivedFrom(b, storeId, v);
    if next.Some? {
      AtOrAboveShrinks(rank, v, next.value);
    }
  }

  /** Version `start` and the bases below it, nearest first. */
  ghost function Bases(b: Backend, storeId: string, rank: map<VersionId, nat>, start: Option<VersionId>): seq<VersionId>
    requires VersionsRanked(b, storeId, rank)
    decreases BasesMeasure(rank, start)
  {
    if start.None? then []
    else
      var next := DerivedFrom(b, storeId, start.value);
      BasesMeasureDrops(b, storeId, rank, start.value);
      [start.value] + Bases(b, storeId, rank, next)
  }

  /** `base` is the first version of `chain` that `listed` holds, or nothing when it holds none. */
  ghost predicate NearestListed(chain: seq<VersionId>, listed: seq<VersionId>, base: Option<VersionId>)
  {
    if base.None? then forall k :: 0 <= k < |chain| ==> chain[k] !in listed
    else base.value in listed && exists k :: 0 <= k < |chain| && chain[k] == base.value
                                          && forall j :: 0 <= j < k ==> chain[j] !in listed
  }

  /**
   * The loop of `copyVersion` that walks from the base of `verId` in the source store down the
   * derived-from links while the target store does not list the version reached (versions that
   * were skipped in the copy).
   */
  method FindTargetBase(source: DocStoreSession, sourceStoreId: string, verId: VersionId, targetVers: seq<VersionId>,
                        ghost rank: map<VersionId, nat>) returns (base: Option<VersionId>)
    requires VersionsRanked(source.backend, sourceStoreId, rank)
    ensures NearestListed(Bases(source.backend, sourceStoreId, rank, DerivedFrom(source.backend, sourceStoreId, verId)), targetVers, base)
  {
    var b := source.backend;
    base := DerivedFrom(b, sourceStoreId, verId);
    ghost var chain := Bases(b, sourceStoreId, rank, base);
    ghost var done: seq<VersionId> := [];
    while base.Some? && base.value !in targetVers
      invariant chain == done + Bases(b, sourceStoreId, rank, base)
      invariant forall j :: 0 <= j < |done| ==> done[j] !in targetVers
      decreases BasesMeasure(rank, base)
    {
      var next := DerivedFrom(b, sourceStoreId, base.value);
      BasesMeasureDrops(b, sourceStoreId, rank, base.value);
      done := done + [base.value];
      base := next;
    }
    if base.Some? {
      assert chain[|done|] == base.value;
    }
  }

  // ---------------------------------------------------------------- creating the version

  /** The version is not listed in the store yet. */
  const VersionExistsError := "Version already exists: "

  /** `getVersionCreationDate`: the stored milliseconds, or nothing when missing or not a long. */
  function CreationDate(b: Backend, storeId: string, verId: VersionId): (r: Option<int>)
    ensures r.Some? ==> IsJavaLong(r.value) && VersionProperty(b, storeId, verId, PropVersionCreationDate).Some?
  {
    var millis := VersionProperty(b, storeId, verId, PropVersionCreationDate);
    if millis.Some? then ParseLong(millis.value) else None
  }

  /** `setVersionCreationDate` of a date: its milliseconds in decimal. */
  function WithCreationDate(b: Backend, storeId: string, verId: VersionId, millis: int): Backend
  {
    WithVersionProps(b, storeId, verId, [PropVersionCreationDate], [Some(IntToString(millis))])
  }

  /** A creation date written reads back, and nothing else of the version changes. */
  lemma CreationDateReadsBack(b: Backend, storeId: string, verId: VersionId, millis: int)
    requires IsJavaLong(millis)
    ensures CreationDate(WithCreationDate(b, storeId, verId, millis), storeId, verId) == Some(millis)
    ensures forall name :: name != PropVersionCreationDate ==>
      VersionProperty(WithCreationDate(b, storeId, verId, millis), storeId, verId, name) == VersionProperty(b, storeId, verId, name)
  {
    var p := if VersionAddress(storeId, verId) in b.versionProps then b.versionProps[VersionAddress(storeId, verId)] else map[];
    forall name
      ensures Property(SetProps(p, [PropVersionCreationDate], [Some(IntToString(millis))]), name)
        == if name == PropVersionCreationDate then Some(IntToString(millis)) else Property(p, name)
    {
      SetPropsReads(p, [PropVersionCreationDate], [Some(IntToString(millis))], name);
    }
    ParseLongToString(millis);
  }

  /**
   * The store after `createVersion(storeId, base, verId)`: the version is listed last, linked to
   * its base, and starts with the properties of the base version (none for a root version).
   */
  function CreatedVersion(b: Backend, storeId: string, base: Option<VersionId>, verId: VersionId): (r: Backend)
    ensures ListVersions(r, storeId) == ListVersions(b, storeId) + [verId]
    ensures DerivedFrom(r, storeId, verId) == base
    ensures forall name ::
      VersionProperty(r, storeId, verId, name) == if base.Some? then VersionProperty(b, storeId, base.value, name) else None
  {
    var a := VersionAddress(storeId, verId);
    var props := if base.Some? && VersionAddress(storeId, base.value) in b.versionProps
      then b.versionProps[VersionAddress(storeId, base.value)] else map[];
    Backend(b.storeProps, b.versionLists[storeId := ListVersions(b, storeId) + [verId]],
      b.versionProps[a := props],
      if base.Some? then b.derivedFrom[a := base.value] else b.derivedFrom - {a})
  }

  /**
   * `createVersion(storeId, base, verId)`: a listed id is refused, and so is what
   * `checkCreateVersion` refuses in the current translation mode; otherwise the version is created.
   */
  method CreateVersion(session: DocStoreSession, storeId: string, base: Option<VersionId>, verId: VersionId,
                       less: (VersionId, VersionId) -> bool) returns (r: Result<()>)
    modifies session
    ensures verId in ListVersions(old(session.backend), storeId) ==> r == Err(VersionExistsError + verId)
    ensures verId !in ListVersions(old(session.backend), storeId) ==>
      r == CheckCreateVersion(old(session.backend), old(session.translationMode), storeId, base, verId, less)
    ensures r.Ok? ==> session.backend == CreatedVersion(old(session.backend), storeId, base, verId)
    ensures r.Err? ==> session.backend == old(session.backend)
    ensures session.translationMode == old(session.translationMode) && session.transactionRunning == old(session.transactionRunning)
    ensures session.transactionSteps == old(session.transactionSteps) && session.openStoreId == old(session.openStoreId)
    ensures session.hookCalls == old(session.hookCalls)
  {
    if verId in ListVersions(session.backend, storeId) {
      return Err(VersionExistsError + verId);
    }
    r := CheckCreateVersion(session.backend, session.translationMode, storeId, base, verId, less);
    if r.Ok? {
      session.backend := CreatedVersion(session.backend, storeId, base, verId);
    }
  }

  /** `setVersionProperties(storeId, verId, names, values)` on a session. */
  method SetVersionProperties(session: DocStoreSession, storeId: string, verId: VersionId,
                              names: seq<string>, values: seq<Option<string>>)
    requires |names| == |values|
    modifies session
    ensures session.backend == WithVersionProps(old(session.backend), storeId, verId, names, values)
    ensures session.translationMode == old(session.translationMode) && session.transactionRunning == old(session.transactionRunning)
    ensures session.transactionSteps == old(session.transactionSteps) && session.openStoreId == old(session.openStoreId)
    ensures session.hookCalls == old(session.hookCalls)
  {
    session.backend := WithVersionProps(session.backend, storeId, verId, names, values);
  }

  /** `getVersionPropertyNames(storeId, verId)`. */
  function PropertyNames(b: Backend, storeId: string, verId: VersionId): (names: set<string>)
    ensures forall name :: name in names <==> VersionProperty(b, storeId, verId, name).Some?
  {
    var a := VersionAddress(storeId, verId);
    if a in b.versionProps then b.versionProps[a].Keys else {}
  }

  /** A write of distinct names at one version reads back what it wrote and keeps the rest. */
  lemma WithVersionPropsReads(b: Backend, storeId: string, verId: VersionId, names: seq<string>, values: seq<Option<string>>, name: string)
    requires |names| == |values| && Distinct(names)
    ensures forall i :: 0 <= i < |names| && names[i] == name ==>
      VersionProperty(WithVersionProps(b, storeId, verId, names, values), storeId, verId, name) == values[i]
    ensures name !in names ==>
      VersionProperty(WithVersionProps(b, storeId, verId, names, values), storeId, verId, name) == VersionProperty(b, storeId, verId, name)
  {
    var a := VersionAddress(storeId, verId);
    var p := if a in b.versionProps then b.versionProps[a] else map[];
    SetPropsReads(p, names, values, name);
  }

  /** `b'` differs from `b` at most in the properties of version `verId` of store `storeId`. */
  ghost predicate OnlyVersionPropsChanged(b: Backend, b': Backend, storeId: string, verId: VersionId)
  {
    b'.storeProps == b.storeProps && b'.versionLists == b.versionLists && b'.derivedFrom == b.derivedFrom
    && forall s, v, name :: (s, v) != (storeId, verId) ==> VersionProperty(b', s, v, name) == VersionProperty(b, s, v, name)
  }

  /**
   * The property copy of `copyVersion`: every property name of the target or of the source
   * version is written with the source's value, so that a name only the target version has (one
   * inherited from its base) is removed and the two versions end with the same properties.
   */
  method CopyVersionProperties(source: DocStoreSession, sourceStoreId: string,
                               target: DocStoreSession, targetStoreId: string, verId: VersionId)
    requires source != target
    modifies target
    ensures forall name ::
      VersionProperty(target.backend, targetStoreId, verId, name) == VersionProperty(source.backend, sourceStoreId, verId, name)
    ensures OnlyVersionPropsChanged(old(target.backend), target.backend, targetStoreId, verId)
    ensures target.translationMode == old(target.translationMode) && target.transactionRunning == old(target.transactionRunning)
    ensures target.transactionSteps == old(target.transactionSteps) && target.openStoreId == old(target.openStoreId)
    ensures target.hookCalls == old(target.hookCalls)
  {
    var allNames := PropertyNames(target.backend, targetStoreId, verId) + PropertyNames(source.backend, sourceStoreId, verId);
    var names := ListOf(allNames);
    var values: seq<Option<string>> := [];
    for i := 0 to |names|
      invariant |values| == i
      invariant forall k :: 0 <= k < i ==> values[k] == VersionProperty(source.backend, sourceStoreId, verId, names[k])
    {
      values := values + [VersionProperty(source.backend, sourceStoreId, verId, names[i])];
    }
    ghost var b0 := target.backend;
    SetVersionProperties(target, targetStoreId, verId, names, values);
    forall name
      ensures VersionProperty(target.backend, targetStoreId, verId, name) == VersionProperty(source.backend, sourceStoreId, verId, name)
    {
      WithVersionPropsReads(b0, targetStoreId, verId, names, values, name);
      if name in names {
        var i :| 0 <= i < |names| && names[i] == name;
      }
    }
  }

  /** `setVersionCreationDate` of a missing date dereferences null. */
  const NullPointerError := "java.lang.NullPointerException"

  /**
   * The first part of `copyVersion`: both sessions leave translation mode, the version is created
   * in the target store below the nearest base that store lists, takes the source's creation date
   * and then exactly the source version's properties. Returns the base chosen.
   */
  method CreateTargetVersion(source: DocStoreSession, sourceStoreId: string, target: DocStoreSession, targetStoreId: string,
                             verId: VersionId, less: (VersionId, VersionId) -> bool, ghost rank: map<VersionId, nat>)
    returns (r: Result<Option<VersionId>>)
    requires source != target && VersionsRanked(source.backend, sourceStoreId, rank)
    modifies source, target
    ensures source.backend == old(source.backend) && source.translationMode == None && target.translationMode == None
    ensures source.transactionRunning == old(source.transactionRunning) && source.transactionSteps == old(source.transactionSteps)
    ensures target.transactionRunning == old(target.transactionRunning) && target.transactionSteps == old(target.transactionSteps)
    ensures CreationDate(old(source.backend), sourceStoreId, verId).None? ==> r.Err?
    ensures verId in ListVersions(old(target.backend), targetStoreId) ==> r == Err(VersionExistsError + verId)
    ensures r.Ok? ==>
      NearestListed(Bases(old(source.backend), sourceStoreId, rank, DerivedFrom(old(source.backend), sourceStoreId, verId)),
                    ListVersions(old(target.backend), targetStoreId), r.value)
      && CheckCreateVersion(old(target.backend), None, targetStoreId, r.value, verId, less).Ok?
      && ListVersions(target.backend, targetStoreId) == ListVersions(old(target.backend), targetStoreId) + [verId]
      && DerivedFrom(target.backend, targetStoreId, verId) == r.value
    ensures r.Ok? ==> forall name ::
      VersionProperty(target.backend, targetStoreId, verId, name) == VersionProperty(old(source.backend), sourceStoreId, verId, name)
  {
    if target.translationMode.Some? {
      target.LeaveTranslationMode();
    }
    if source.translationMode.Some? {
      source.LeaveTranslationMode();
    }
    var createDate := CreationDate(source.backend, sourceStoreId, verId);
    var base := FindTargetBase(source, sourceStoreId, verId, ListVersions(target.backend, targetStoreId), rank);
    var created := CreateVersion(target, targetStoreId, base, verId, less);
    if created.Err? {
      return Err(created.error);
    }
    if createDate.None? {
      return Err(NullPointerError);
    }
    SetVersionProperties(target, targetStoreId, verId, [PropVersionCreationDate], [Some(IntToString(createDate.value))]);
    CopyVersionProperties(source, sourceStoreId, target, targetStoreId, verId);
    r := Ok(base);
  }

  // ---------------------------------------------------------------- translations

  /** The translation languages held in the source subtree of node `id`. */
  ghost function SubtreeLanguages(sn: map<string, Node>, sk: Kids, rank: map<string, nat>, id: string): set<string>
    requires Forest(sn, sk) && Ranked(sk, rank) && id in rank && id in sn
    decreases rank[id], 1
  {
    Translations(sn[id]) + LanguagesOfAll(sn, sk, rank, id, ChildrenOf(sk, id))
  }

  /** The translation languages held in the subtrees of `xs`, children of `g`. */
  ghost function LanguagesOfAll(sn: map<string, Node>, sk: Kids, rank: map<string, nat>, g: string, xs: seq<string>): set<string>
    requires Forest(sn, sk) && Ranked(sk, rank) && g in rank
    requires forall x :: x in xs ==> x in sn && x in rank && rank[x] < rank[g]
    decreases rank[g], 0, |xs|
  {
    if xs == [] then {} else LanguagesOfAll(sn, sk, rank, g, xs[..|xs| - 1]) + SubtreeLanguages(sn, sk, rank, xs[|xs| - 1])
  }

  /** One more child: the languages of the first `i + 1` children of `g` add up. */
  lemma LanguagesOfAllStep(sn: map<string, Node>, sk: Kids, rank: map<string, nat>, g: string, xs: seq<string>, i: nat)
    requires Forest(sn, sk) && Ranked(sk, rank) && g in rank && i < |xs|
    requires forall x :: x in xs ==> x in sn && x in rank && rank[x] < rank[g]
    ensures LanguagesOfAll(sn, sk, rank, g, xs[..i + 1]) == LanguagesOfAll(sn, sk, rank, g, xs[..i]) + SubtreeLanguages(sn, sk, rank, xs[i])
  {
    assert xs[..i + 1][..i] == xs[..i];
  }

  /** A node that is not a group holds only its own languages. */
  lemma LeafLanguages(sn: map<string, Node>, sk: Kids, rank: map<string, nat>, id: string)
    requires Forest(sn, sk) && Ranked(sk, rank) && id in rank && id in sn && sn[id].kind != Group
    ensures SubtreeLanguages(sn, sk, rank, id) == Translations(sn[id])
  {
    assert id !in sk;
  }

  /**
   * `get_TranslationLanguages(group, langs)`: adds to `langs` the translation languages of node
   * `gid` and of every node below it, going down into the child groups.
   */
  method CollectLanguages(sn: map<string, Node>, sk: Kids, ghost rank: map<string, nat>, gid: string, langs: set<string>)
    returns (langs': set<string>)
    requires Forest(sn, sk) && Ranked(sk, rank) && gid in rank && gid in sn
    decreases rank[gid], 1
    ensures langs' == langs + SubtreeLanguages(sn, sk, rank, gid)
  {
    ChildrenRanked(sn, sk, rank, gid);
    var children := ChildrenOf(sk, gid);
    langs' := langs + Translations(sn[gid]);
    for i := 0 to |children|
      invariant langs' == langs + Translations(sn[gid]) + LanguagesOfAll(sn, sk, rank, gid, children[..i])
    {
      LanguagesOfAllStep(sn, sk, rank, gid, children, i);
      langs' := CollectChildLanguages(sn, sk, rank, children[i], langs');
    }
    assert children[..|children|] == children;
  }

  /** One pass of the loop of `get_TranslationLanguages`: a child group is searched recursively. */
  method CollectChildLanguages(sn: map<string, Node>, sk: Kids, ghost rank: map<string, nat>, c: string, langs: set<string>)
    returns (langs': set<string>)
    requires Forest(sn, sk) && Ranked(sk, rank) && c in rank && c in sn
    decreases rank[c], 2
    ensures langs' == langs + SubtreeLanguages(sn, sk, rank, c)
  {
    if sn[c].kind == Group {
      langs' := CollectLanguages(sn, sk, rank, c, langs);
    } else {
      LeafLanguages(sn, sk, rank, c);
      langs' := langs + Translations(sn[c]);
    }
  }

  /** `transAsOrig` names a translation that is still pending. */
  const PendingAsOriginalError := "Cannot copy pending translation to original language: "

  /**
   * The languages `copyVersion` copies out of `langs`: `transAsOrig` and `origAsTrans` are taken
   * out, a pending `transAsOrig` is an error, and the iterator loop drops every pending translation.
   */
  method TranslationsToCopy(source: DocStoreSession, storeId: string, verId: VersionId, langs: set<string>, tao: Lang, oat: Lang)
    returns (r: Result<set<string>>)
    ensures r.Err? <==> tao.Some? && VersionState(source.backend, storeId, verId, tao) == TranslationPending
    ensures r.Err? ==> r.error == PendingAsOriginalError + verId + " " + tao.value
    ensures r.Ok? ==> forall l :: l in r.value <==>
      l in langs && Some(l) != tao && Some(l) != oat && VersionState(source.backend, storeId, verId, Some(l)) != TranslationPending
  {
    var transSet := langs;
    if tao.Some? {
      transSet := transSet - {tao.value};
      var st := VersionState(source.backend, storeId, verId, tao);
      if st == TranslationPending {
        return Err(PendingAsOriginalError + verId + " " + tao.value);
      }
    }
    if oat.Some? {
      transSet := transSet - {oat.value};
    }
    var order := ListOf(transSet);
    var kept := transSet;
    for i := 0 to |order|
      invariant forall l :: l in kept <==>
        l in transSet && (l in order[..i] ==> VersionState(source.backend, storeId, verId, Some(l)) != TranslationPending)
    {
      assert order[..i + 1] == order[..i] + [order[i]];
      if VersionState(source.backend, storeId, verId, Some(order[i])) == TranslationPending {
        kept := kept - {order[i]};
      }
    }
    assert order[..|order|] == order;
    r := Ok(kept);
  }

  // ---------------------------------------------------------------- state and release date

  /**
   * `b'` differs from `b` at most in the state and release date in `lang` of version `verId`,
   * the date under the lower-cased key of `setVersionState` or the key as given of
   * `setVersionReleaseDate`.
   */
  ghost predicate StateAndDateOnly(b: Backend, b': Backend, storeId: string, verId: VersionId, lang: Option<string>)
  {
    OnlyVersionPropsChanged(b, b', storeId, verId)
    && forall name :: name != StateKey(lang) && name != ReleaseDateKey(lang) && name != ReleaseDateKeyAsWritten(lang) ==>
         VersionProperty(b', storeId, verId, name) == VersionProperty(b, storeId, verId, name)
  }

  lemma StateAndDateOnlyTrans(b0: Backend, b1: Backend, b2: Backend, storeId: string, verId: VersionId, lang: Option<string>)
    requires StateAndDateOnly(b0, b1, storeId, verId, lang) && StateAndDateOnly(b1, b2, storeId, verId, lang)
    ensures StateAndDateOnly(b0, b2, storeId, verId, lang)
  {
  }

  /** A state change writes only the state and the release date of that language. */
  lemma WriteStateOnly(b: Backend, storeId: string, verId: VersionId, lang: Option<string>, newState: string, now: int)
    ensures StateAndDateOnly(b, WriteState(b, storeId, verId, lang, newState, now), storeId, verId, lang)
  {
    StateAndDateKeysDiffer(lang);
    var names := [StateKey(lang), ReleaseDateKey(lang)];
    var values := [Some(newState), if EqualsIgnoreCase(newState, Released) then Some(IntToString(now)) else None];
    forall name | name != StateKey(lang) && name != ReleaseDateKey(lang)
      ensures VersionProperty(WithVersionProps(b, storeId, verId, names, values), storeId, verId, name)
        == VersionProperty(b, storeId, verId, name)
    {
      WithVersionPropsReads(b, storeId, verId, names, values, name);
    }
  }

  /** A release-date write keeps every version state in that language. */
  lemma DateWriteOnly(b: Backend, storeId: string, verId: VersionId, lang: Option<string>, millis: string)
    ensures var b' := WithVersionProps(b, storeId, verId, [ReleaseDateKeyAsWritten(lang)], [Some(millis)]);
      StateAndDateOnly(b, b', storeId, verId, lang)
      && VersionState(b', storeId, verId, lang) == VersionState(b, storeId, verId, lang)
  {
    assert StateKey(lang)[11] == 's' && ReleaseDateKeyAsWritten(lang)[11] == 'r';
    var b' := WithVersionProps(b, storeId, verId, [ReleaseDateKeyAsWritten(lang)], [Some(millis)]);
    forall name | name != ReleaseDateKeyAsWritten(lang)
      ensures VersionProperty(b', storeId, verId, name) == VersionProperty(b, storeId, verId, name)
    {
      WithVersionPropsReads(b, storeId, verId, [ReleaseDateKeyAsWritten(lang)], [Some(millis)], name);
    }
    var base := DerivedFrom(b, storeId, verId);
    if base.Some? {
      assert VersionProperty(b', storeId, base.value, StateKey(lang)) == VersionProperty(b, storeId, base.value, StateKey(lang));
    }
  }

  /**
   * The state step of `copyVersionStateAndReleaseDate`, in the target's translation mode: a state
   * that is not pending and differs from the target's (as text) is set, and a refusal of
   * `setVersionState` is the error. On success the target reads the state, up to case.
   */
  method CopyState(target: DocStoreSession, targetStoreId: string, verId: VersionId, st: string, pending: bool, now: int)
    returns (r: Result<()>)
    requires st != ""
    modifies target
    ensures var lang := target.translationMode;
      var change := StateChangeOf(old(target.backend), targetStoreId, verId, lang, st);
      (r.Err? <==> !pending && st != VersionState(old(target.backend), targetStoreId, verId, lang) && change.Refused?)
      && (r.Err? ==> r == Err(change.msg) && target.backend == old(target.backend))
      && (r.Ok? && !pending ==> EqualsIgnoreCase(VersionState(target.backend, targetStoreId, verId, lang), st))
    ensures StateAndDateOnly(old(target.backend), target.backend, targetStoreId, verId, target.translationMode)
    ensures target.translationMode == old(target.translationMode) && target.transactionRunning == old(target.transactionRunning)
    ensures target.transactionSteps == old(target.transactionSteps) && target.openStoreId == old(target.openStoreId)
  {
    var targetState := target.CurrentVersionState(targetStoreId, verId);
    r := Ok(());
    if !pending && st != targetState {
      ghost var b0 := target.backend;
      r := target.SetVersionState(targetStoreId, verId, st, now);
      WriteStateOnly(b0, targetStoreId, verId, target.translationMode, st, now);
      WriteStateKeepsOthers(b0, targetStoreId, verId, target.translationMode, st, now);
    }
  }

  /**
   * The release-date step of `copyVersionStateAndReleaseDate`, in the target's translation mode:
   * a source date that differs from the target's is written, so the target then reads it.
   */
  method CopyReleaseDate(target: DocStoreSession, targetStoreId: string, verId: VersionId, date: Option<int>)
    requires date.Some? ==> IsJavaLong(date.value)
    modifies target
    ensures date.Some? ==> ReleaseDate(target.backend, targetStoreId, verId, target.translationMode) == date
    ensures date.None? ==> target.backend == old(target.backend)
    ensures VersionState(target.backend, targetStoreId, verId, target.translationMode)
      == VersionState(old(target.backend), targetStoreId, verId, target.translationMode)
    ensures StateAndDateOnly(old(target.backend), target.backend, targetStoreId, verId, target.translationMode)
    ensures target.translationMode == old(target.translationMode) && target.transactionRunning == old(target.transactionRunning)
    ensures target.transactionSteps == old(target.transactionSteps) && target.openStoreId == old(target.openStoreId)
  {
    var targetDate := target.CurrentReleaseDate(targetStoreId, verId);
    if date.Some? && date != targetDate {
      ghost var b0 := target.backend;
      target.SetVersionReleaseDate(targetStoreId, verId, date.value);
      DateWriteOnly(b0, targetStoreId, verId, target.translationMode, IntToString(date.value));
    }
  }

  /** `enterTranslationMode(lang)` for a language, else `leaveTranslationMode()` when in one. */
  method SetMode(session: DocStoreSession, lang: Option<string>)
    modifies session
    ensures session.translationMode == lang && session.backend == old(session.backend)
    ensures session.transactionRunning == old(session.transactionRunning) && session.transactionSteps == old(session.transactionSteps)
    ensures session.openStoreId == old(session.openStoreId) && session.hookCalls == old(session.hookCalls)
  {
    if lang.None? {
      if session.translationMode.Some? {
        session.LeaveTranslationMode();
      }
    } else {
      session.EnterTranslationMode(lang.value);
    }
  }

  /**
   * `copyVersionStateAndReleaseDate(..., verId, sourceLang, targetLang)` at time `now`: the target
   * version takes the source's state in `sourceLang` unless that is a pending translation or the
   * same text, and then the source's release date when there is one. Only the target version's
   * state and release date in `targetLang` change, and both sessions end outside translation mode,
   * on failure too.
   */
  method CopyVersionStateAndReleaseDate(source: DocStoreSession, sourceStoreId: string,
                                        target: DocStoreSession, targetStoreId: string, verId: VersionId,
                                        sourceLang: Option<string>, targetLang: Option<string>, now: int)
    returns (r: Result<()>)
    requires source != target
    modifies source, target
    ensures source.backend == old(source.backend) && source.translationMode == None && target.translationMode == None
    ensures source.transactionRunning == old(source.transactionRunning) && source.transactionSteps == old(source.transactionSteps)
    ensures target.transactionRunning == old(target.transactionRunning) && target.transactionSteps == old(target.transactionSteps)
    ensures StateAndDateOnly(old(target.backend), target.backend, targetStoreId, verId, targetLang)
    ensures var st := VersionState(old(source.backend), sourceStoreId, verId, sourceLang);
      var pending := sourceLang.Some? && st == TranslationPending;
      var change := StateChangeOf(old(target.backend), targetStoreId, verId, targetLang, st);
      (r.Err? <==> !pending && st != VersionState(old(target.backend), targetStoreId, verId, targetLang) && change.Refused?)
      && (r.Err? ==> r == Err(change.msg) && target.backend == old(target.backend))
      && (r.Ok? && !pending ==> EqualsIgnoreCase(VersionState(target.backend, targetStoreId, verId, targetLang), st))
    ensures r.Ok? ==> LangCopied(old(source.backend), sourceStoreId, target.backend, targetStoreId, verId, sourceLang, targetLang)
  {
    SetMode(source, sourceLang);
    SetMode(target, targetLang);
    var sourceState := source.CurrentVersionState(sourceStoreId, verId);
    var pending := sourceLang.Some? && sourceState == TranslationPending;
    ghost var b0 := target.backend;
    r := CopyState(target, targetStoreId, verId, sourceState, pending, now);
    if r.Ok? {
      ghost var b1 := target.backend;
      var sourceDate := source.CurrentReleaseDate(sourceStoreId, verId);
      CopyReleaseDate(target, targetStoreId, verId, sourceDate);
      StateAndDateOnlyTrans(b0, b1, target.backend, targetStoreId, verId, targetLang);
    }
    if sourceLang.Some? {
      source.LeaveTranslationMode();
    }
    if targetLang.Some? {
      target.LeaveTranslationMode();
    }
  }

  /** The keys of a translation never name the original's state or release date. */
  lemma TranslationKeysDiffer(l: string)
    ensures StateKey(Some(l)) != StateKey(None) && StateKey(Some(l)) != ReleaseDateKey(None)
    ensures ReleaseDateKey(Some(l)) != StateKey(None) && ReleaseDateKey(Some(l)) != ReleaseDateKey(None)
    ensures ReleaseDateKeyAsWritten(Some(l)) != StateKey(None) && ReleaseDateKeyAsWritten(Some(l)) != ReleaseDateKey(None)
  {
    assert |StateKey(Some(l))| > |StateKey(None)|;
    assert |ReleaseDateKey(Some(l))| > |ReleaseDateKey(None)|;
    assert |ReleaseDateKeyAsWritten(Some(l))| > |ReleaseDateKey(None)|;
    assert StateKey(Some(l))[11] == 's' && ReleaseDateKey(None)[11] == 'r';
    assert ReleaseDateKey(Some(l))[11] == 'r' && StateKey(None)[11] == 's';
    assert ReleaseDateKeyAsWritten(Some(l))[11] == 'r';
  }

  /** A change confined to a translation keeps the original language's state and release date. */
  lemma TranslationKeepsOriginal(b: Backend, b': Backend, storeId: string, verId: VersionId, l: string)
    requires StateAndDateOnly(b, b', storeId, verId, Some(l))
    ensures VersionState(b', storeId, verId, None) == VersionState(b, storeId, verId, None)
    ensures ReleaseDate(b', storeId, verId, None) == ReleaseDate(b, storeId, verId, None)
  {
    TranslationKeysDiffer(l);
    assert VersionProperty(b', storeId, verId, StateKey(None)) == VersionProperty(b, storeId, verId, StateKey(None));
    assert VersionProperty(b', storeId, verId, ReleaseDateKey(None)) == VersionProperty(b, storeId, verId, ReleaseDateKey(None));
    assert ReleaseDateKeyAsWritten(None) == ReleaseDateKey(None);
  }

  /**
   * A change confined to the state and release date of translation `written` keeps those of every
   * translation `l` that differs from it ignoring case.
   */
  lemma OtherTranslationKept(b: Backend, b': Backend, storeId: string, verId: VersionId, written: string, l: string)
    requires StateAndDateOnly(b, b', storeId, verId, Some(written)) && Lower(written) != Lower(l)
    ensures VersionState(b', storeId, verId, Some(l)) == VersionState(b, storeId, verId, Some(l))
    ensures ReleaseDate(b', storeId, verId, Some(l)) == ReleaseDate(b, storeId, verId, Some(l))
  {
    var n := |PropVersionState| + 1;
    var m := |PropVersionReleaseDate| + 1;
    assert StateKey(Some(l))[n..] == Lower(l) && StateKey(Some(written))[n..] == Lower(written);
    assert ReleaseDateKey(Some(l))[m..] == Lower(l) && ReleaseDateKey(Some(written))[m..] == Lower(written);
    assert ReleaseDateKeyAsWritten(Some(l))[m..] == l && ReleaseDateKeyAsWritten(Some(written))[m..] == written;
    LowerIdempotent(written);
    assert ReleaseDateKeyAsWritten(Some(l)) != ReleaseDateKey(Some(written));
    assert StateKey(Some(l))[11] == 's' && ReleaseDateKey(Some(written))[11] == 'r';
    assert ReleaseDateKeyAsWritten(Some(l))[11] == 'r' && StateKey(Some(written))[11] == 's';
    assert ReleaseDateKeyAsWritten(Some(written))[11] == 'r';
    assert VersionProperty(b', storeId, verId, StateKey(Some(l))) == VersionProperty(b, storeId, verId, StateKey(Some(l)));
    assert VersionProperty(b', storeId, verId, ReleaseDateKeyAsWritten(Some(l)))
        == VersionProperty(b, storeId, verId, ReleaseDateKeyAsWritten(Some(l)));
    var base := DerivedFrom(b, storeId, verId);
    if base.Some? {
      assert VersionProperty(b', storeId, base.value, StateKey(Some(l))) == VersionProperty(b, storeId, base.value, StateKey(Some(l)));
    }
  }

  /**
   * The target reads what `copyVersionStateAndReleaseDate(sourceLang, targetLang)` copies: the
   * source's state in `sourceLang` up to case, unless that is a pending translation, and the
   * source's release date whenever it has one.
   */
  ghost predicate LangCopied(sb: Backend, sourceStoreId: string, tb: Backend, targetStoreId: string, verId: VersionId,
                             sourceLang: Option<string>, targetLang: Option<string>)
  {
    var st := VersionState(sb, sourceStoreId, verId, sourceLang);
    var d := ReleaseDate(sb, sourceStoreId, verId, sourceLang);
    (!(sourceLang.Some? && st == TranslationPending) ==> EqualsIgnoreCase(VersionState(tb, targetStoreId, verId, targetLang), st))
    && (d.Some? ==> ReleaseDate(tb, targetStoreId, verId, targetLang) == d)
  }

  /** No translation of `langs` after position `j` and before `hi` equals `langs[j]` ignoring case. */
  ghost predicate CaseUniqueUpTo(langs: seq<string>, j: int, hi: int)
    requires 0 <= j < hi <= |langs|
  {
    forall k :: j < k < hi ==> Lower(langs[k]) != Lower(langs[j])
  }

  /** Neither another translation of `langs` nor `oat` equals `langs[j]` ignoring case. */
  ghost predicate CaseUnique(langs: seq<string>, j: int, oat: Lang)
    requires 0 <= j < |langs|
  {
    (forall k :: 0 <= k < |langs| && k != j ==> Lower(langs[k]) != Lower(langs[j]))
    && (oat.Some? ==> Lower(oat.value) != Lower(langs[j]))
  }

  lemma OnlyVersionPropsChangedTrans(b0: Backend, b1: Backend, b2: Backend, storeId: string, verId: VersionId)
    requires OnlyVersionPropsChanged(b0, b1, storeId, verId) && OnlyVersionPropsChanged(b1, b2, storeId, verId)
    ensures OnlyVersionPropsChanged(b0, b2, storeId, verId)
  {
  }

  /**
   * The end of `copyVersion`: the state and release date of the original language, then those of
   * each translation copied, then the original's as the `origAsTrans` translation. The first
   * refusal ends the copy; on success the target reads the source's original state (up to case)
   * and release date, which the later translation steps do not touch, the same for each copied
   * translation that no later step writes over (no other language equal to it ignoring case), and
   * the original's as the `origAsTrans` translation.
   */
  method CopyVersionStates(source: DocStoreSession, sourceStoreId: string, target: DocStoreSession, targetStoreId: string,
                           verId: VersionId, langs: seq<string>, oat: Lang, now: int)
    returns (r: Result<()>)
    requires source != target
    modifies source, target
    ensures source.backend == old(source.backend) && source.translationMode == None && target.translationMode == None
    ensures source.transactionRunning == old(source.transactionRunning) && source.transactionSteps == old(source.transactionSteps)
    ensures target.transactionRunning == old(target.transactionRunning) && target.transactionSteps == old(target.transactionSteps)
    ensures OnlyVersionPropsChanged(old(target.backend), target.backend, targetStoreId, verId)
    ensures var st := VersionState(old(source.backend), sourceStoreId, verId, None);
      var refused := st != VersionState(old(target.backend), targetStoreId, verId, None)
                     && StateChangeOf(old(target.backend), targetStoreId, verId, None, st).Refused?;
      (refused ==> r.Err?) && (r.Ok? ==> EqualsIgnoreCase(VersionState(target.backend, targetStoreId, verId, None), st))
    ensures r.Ok? ==> var d := ReleaseDate(old(source.backend), sourceStoreId, verId, None);
      d.Some? ==> ReleaseDate(target.backend, targetStoreId, verId, None) == d
    ensures r.Ok? ==> forall j | 0 <= j < |langs| && CaseUnique(langs, j, oat) ::
      LangCopied(old(source.backend), sourceStoreId, target.backend, targetStoreId, verId, Some(langs[j]), Some(langs[j]))
    ensures r.Ok? && oat.Some? ==> LangCopied(old(source.backend), sourceStoreId, target.backend, targetStoreId, verId, None, oat)
  {
    r := CopyVersionStateAndReleaseDate(source, sourceStoreId, target, targetStoreId, verId, None, None, now);
    if r.Err? {
      return;
    }
    ghost var b1 := target.backend;
    for i := 0 to |langs|
      invariant source.backend == old(source.backend) && source.translationMode == None && target.translationMode == None
      invariant source.transactionRunning == old(source.transactionRunning) && source.transactionSteps == old(source.transactionSteps)
      invariant target.transactionRunning == old(target.transactionRunning) && target.transactionSteps == old(target.transactionSteps)
      invariant OnlyVersionPropsChanged(old(target.backend), target.backend, targetStoreId, verId)
      invariant VersionState(target.backend, targetStoreId, verId, None) == VersionState(b1, targetStoreId, verId, None)
      invariant ReleaseDate(target.backend, targetStoreId, verId, None) == ReleaseDate(b1, targetStoreId, verId, None)
      invariant forall j | 0 <= j < i && CaseUniqueUpTo(langs, j, i) ::
        LangCopied(old(source.backend), sourceStoreId, target.backend, targetStoreId, verId, Some(langs[j]), Some(langs[j]))
    {
      ghost var b := target.backend;
      r := CopyVersionStateAndReleaseDate(source, sourceStoreId, target, targetStoreId, verId, Some(langs[i]), Some(langs[i]), now);
      if r.Err? {
        return;
      }
      TranslationKeepsOriginal(b, target.backend, targetStoreId, verId, langs[i]);
      OnlyVersionPropsChangedTrans(old(target.backend), b, target.backend, targetStoreId, verId);
      forall j | 0 <= j < i + 1 && CaseUniqueUpTo(langs, j, i + 1)
        ensures LangCopied(old(source.backend), sourceStoreId, target.backend, targetStoreId, verId, Some(langs[j]), Some(langs[j]))
      {
        if j < i {
          assert CaseUniqueUpTo(langs, j, i);
          OtherTranslationKept(b, target.backend, targetStoreId, verId, langs[i], langs[j]);
        }
      }
    }
    forall j | 0 <= j < |langs| && CaseUnique(langs, j, oat)
      ensures CaseUniqueUpTo(langs, j, |langs|)
    {
    }
    if oat.Some? {
      ghost var b := target.backend;
      r := CopyVersionStateAndReleaseDate(source, sourceStoreId, target, targetStoreId, verId, None, oat, now);
      if r.Ok? {
        TranslationKeepsOriginal(b, target.backend, targetStoreId, verId, oat.value);
        forall j | 0 <= j < |langs| && CaseUnique(langs, j, oat)
          ensures LangCopied(old(source.backend), sourceStoreId, target.backend, targetStoreId, verId, Some(langs[j]), Some(langs[j]))
        {
          OtherTranslationKept(b, target.backend, targetStoreId, verId, oat.value, langs[j]);
        }
      }
      OnlyVersionPropsChangedTrans(old(target.backend), b, target.backend, targetStoreId, verId);
    }
  }

  // ---------------------------------------------------------------- copyVersion

  /** A list without repeats holds each element at most once. */
  lemma {:induction false} DistinctCounts(xs: seq<string>, x: string)
    requires Distinct(xs)
    ensures multiset(xs)[x] <= 1
    decreases |xs|
  {
    if xs != [] {
      assert Distinct(xs[1..]) by {
        forall i, j | 0 <= i < j < |xs[1..]|
          ensures xs[1..][i] != xs[1..][j]
        {
          assert xs[1..][i] == xs[i + 1] && xs[1..][j] == xs[j + 1];
        }
      }
      DistinctCounts(xs[1..], x);
      assert xs == [xs[0]] + xs[1..];
      if x == xs[0] {
        assert x !in xs[1..];
      }
    }
  }

  /** A rearrangement of a list without repeats has none either. */
  lemma RearrangedDistinct(xs: seq<string>, ys: seq<string>)
    requires Distinct(xs) && multiset(ys) == multiset(xs)
    ensures Distinct(ys)
  {
    forall i, j | 0 <= i < j < |ys|
      ensures ys[i] != ys[j]
    {
      DistinctCounts(xs, ys[i]);
      assert ys == ys[..j] + [ys[j]] + ys[j + 1..];
      assert ys[i] in ys[..j];
      assert multiset(ys)[ys[i]] >= multiset(ys[..j])[ys[i]] + multiset([ys[j]])[ys[i]];
    }
  }

  /** The languages `copyVersion` starts from: those asked for, or all of the source tree's. */
  ghost function RequestedLanguages(sn: map<string, Node>, sk: Kids, rank: map<string, nat>, sid: string,
                                    trans: Option<seq<string>>): set<string>
    requires Forest(sn, sk) && Ranked(sk, rank) && sid in rank && sid in sn
  {
    if trans.None? then SubtreeLanguages(sn, sk, rank, sid) else Elems(trans.value)
  }

  /**
   * The translation set of `copyVersion` (`trans_set`, a sorted set): the languages asked for, or
   * those of the whole source tree, less `transAsOrig`, `origAsTrans` and the pending ones.
   */
  method SelectTranslations(source: DocStoreSession, sourceStoreId: string, verId: VersionId,
                            trans: Option<seq<string>>, tao: Lang, oat: Lang,
                            sn: map<string, Node>, sk: Kids, ghost rank: map<string, nat>, sid: string)
    returns (r: Result<seq<string>>)
    requires Forest(sn, sk) && Ranked(sk, rank) && sid in rank && sid in sn
    ensures r.Err? <==> tao.Some? && VersionState(source.backend, sourceStoreId, verId, tao) == TranslationPending
    ensures r.Err? ==> r.error == PendingAsOriginalError + verId + " " + tao.value
    ensures r.Ok? ==> SortedStrings(r.value) && Distinct(r.value)
    ensures r.Ok? ==> forall l :: l in r.value <==>
      l in RequestedLanguages(sn, sk, rank, sid, trans) && Some(l) != tao && Some(l) != oat
      && VersionState(source.backend, sourceStoreId, verId, Some(l)) != TranslationPending
  {
    var langs: set<string>;
    if trans.None? {
      langs := CollectLanguages(sn, sk, rank, sid, {});
    } else {
      langs := Elems(trans.value);
    }
    var kept := TranslationsToCopy(source, sourceStoreId, verId, langs, tao, oat);
    if kept.Err? {
      return Err(kept.error);
    }
    var list := ListOf(kept.value);
    SortStringsCorrect(list);
    RearrangedDistinct(list, SortStrings(list));
    r := Ok(SortStrings(list));
    forall l
      ensures l in r.value <==> l in list
    {
      assert l in r.value <==> l in multiset(r.value);
    }
  }

  // ---------------------------------------------------------------- image renditions

  /** The end of the rendition copy over a target backend: the new backend, or an error that is or is not a caught `DocException`. */
  datatype RenditionCopy = Copied(backend: Backend) | CopyFailed(error: string, caught: bool)

  /** The loop dereferences the missing rendition of a name listed without a format. */
  const NullRenditionError := "java.lang.NullPointerException"

  /** Whether rendition `name` reads back from store `storeId`. */
  predicate Present(b: Backend, storeId: string, name: string)
  {
    ImageRenditionOf(b, storeId, name).Ok? && ImageRenditionOf(b, storeId, name).value.Some?
  }

  /**
   * One round of the loop of `copyVersion` over the source renditions, on target backend `b`: a
   * rendition the target store does not read back is added, one it reads back is left alone.
   */
  function AddMissingRendition(b: Backend, storeId: string, rend: Option<Rendition>): RenditionCopy
  {
    if rend.None? then CopyFailed(NullRenditionError, false)
    else
      match ImageRenditionOf(b, storeId, rend.value.name)
      case Err(e) => CopyFailed(e, false)
      case Ok(Some(_)) => Copied(b)
      case Ok(None) =>
        if rend.value.name in RenditionNames(b, storeId) then CopyFailed("Rendition already exists: " + rend.value.name, true)
        else Copied(WithRendition(b, storeId, rend.value))
  }

  /** The whole loop over `rends`: the rounds in order, up to the first that fails. */
  function AddMissingRenditions(b: Backend, storeId: string, rends: seq<Option<Rendition>>): RenditionCopy
    decreases |rends|
  {
    if rends == [] then Copied(b)
    else
      match AddMissingRendition(b, storeId, rends[0])
      case CopyFailed(e, caught) => CopyFailed(e, caught)
      case Copied(b') => AddMissingRenditions(b', storeId, rends[1..])
  }

  /**
   * A round that succeeds on a store whose listed names are valid leaves them valid, makes the
   * rendition read back, and keeps every rendition that read back before.
   */
  lemma AddedRenditionReadsBack(b: Backend, storeId: string, rend: Rendition)
    requires AllValidNames(RenditionNames(b, storeId)) && Loadable(rend)
    requires AddMissingRendition(b, storeId, Some(rend)).Copied?
    ensures var b' := AddMissingRendition(b, storeId, Some(rend)).backend;
      AllValidNames(RenditionNames(b', storeId)) && Present(b', storeId, rend.name)
    ensures var b' := AddMissingRendition(b, storeId, Some(rend)).backend;
      forall n :: Present(b, storeId, n) ==> ImageRenditionOf(b', storeId, n) == ImageRenditionOf(b, storeId, n)
  {
    if !Present(b, storeId, rend.name) {
      AddedRenditionIsListed(b, storeId, rend);
      forall n | Present(b, storeId, n)
        ensures ImageRenditionOf(WithRendition(b, storeId, rend), storeId, n) == ImageRenditionOf(b, storeId, n)
      {
        OtherRenditionKept(b, storeId, rend.name,
          [Some(Join(SortStrings(RenditionNames(b, storeId) + [rend.name]), ",")), Some(rend.format),
           Some(IntToString(rend.maxWidth)), Some(IntToString(rend.maxHeight))], n);
      }
    }
  }

  /**
   * A rendition copy that succeeds on a store whose listed names are valid leaves every copied
   * rendition readable in the target, and every rendition the target already had unchanged.
   */
  lemma {:induction false} CopiedRenditionsReadBack(b: Backend, storeId: string, rends: seq<Option<Rendition>>)
    requires AllValidNames(RenditionNames(b, storeId))
    requires forall i :: 0 <= i < |rends| && rends[i].Some? ==> Loadable(rends[i].value)
    requires AddMissingRenditions(b, storeId, rends).Copied?
    ensures forall i :: 0 <= i < |rends| ==>
      rends[i].Some? && Present(AddMissingRenditions(b, storeId, rends).backend, storeId, rends[i].value.name)
    ensures forall n :: Present(b, storeId, n) ==>
      ImageRenditionOf(AddMissingRenditions(b, storeId, rends).backend, storeId, n) == ImageRenditionOf(b, storeId, n)
    decreases |rends|
  {
    if rends != [] {
      var tail := rends[1..];
      forall i | 0 <= i < |tail| && tail[i].Some?
        ensures Loadable(tail[i].value)
      {
        assert tail[i] == rends[i + 1];
      }
      AddedRenditionReadsBack(b, storeId, rends[0].value);
      var b1 := AddMissingRendition(b, storeId, rends[0]).backend;
      CopiedRenditionsReadBack(b1, storeId, tail);
      forall i | 1 <= i < |rends|
        ensures rends[i] == tail[i - 1]
      {
      }
    }
  }

  /** One round of the loop on the target session's open store. */
  method AddRendition(target: DocStoreSession, rend: Option<Rendition>) returns (r: Result<()>, caught: bool)
    requires target.openStoreId.Some?
    modifies target
    ensures target.translationMode == old(target.translationMode) && target.openStoreId == old(target.openStoreId)
    ensures target.hookCalls == old(target.hookCalls) && target.transactionRunning == old(target.transactionRunning)
    ensures target.transactionSteps == old(target.transactionSteps)
    ensures target.backend == old(target.backend).(storeProps := target.backend.storeProps)
    ensures match AddMissingRendition(old(target.backend), target.openStoreId.value, rend)
      case Copied(b) => r.Ok? && target.backend == b
      case CopyFailed(e, c) => r == Err(e) && caught == c
  {
    if rend.None? {
      return Err(NullRenditionError), false;
    }
    var existing := ImageRenditionOf(target.backend, target.openStoreId.value, rend.value.name);
    if existing.Err? {
      return Err(existing.error), false;
    }
    r, caught := Ok(()), false;
    if existing.value.None? {
      r := target.AddImageRendition(rend.value);
      caught := r.Err?;
    }
  }

  /**
   * The loop over the source renditions `rends` inside the target's transaction, which it does
   * not end: it stops at the first failure and says whether that one is a `DocException`.
   */
  method AddRenditions(target: DocStoreSession, rends: seq<Option<Rendition>>) returns (r: Result<()>, caught: bool)
    requires target.openStoreId.Some?
    modifies target
    ensures target.translationMode == old(target.translationMode) && target.openStoreId == old(target.openStoreId)
    ensures target.hookCalls == old(target.hookCalls) && target.transactionRunning == old(target.transactionRunning)
    ensures target.transactionSteps == old(target.transactionSteps)
    ensures target.backend == old(target.backend).(storeProps := target.backend.storeProps)
    ensures match AddMissingRenditions(old(target.backend), target.openStoreId.value, rends)
      case Copied(b) => r.Ok? && target.backend == b
      case CopyFailed(e, c) => r == Err(e) && caught == c
  {
    var storeId := target.openStoreId.value;
    caught := false;
    var i := 0;
    while i < |rends|
      invariant i <= |rends|
      invariant target.translationMode == old(target.translationMode) && target.openStoreId == old(target.openStoreId)
      invariant target.hookCalls == old(target.hookCalls) && target.transactionRunning == old(target.transactionRunning)
      invariant target.transactionSteps == old(target.transactionSteps)
      invariant target.backend == old(target.backend).(storeProps := target.backend.storeProps)
      invariant AddMissingRenditions(old(target.backend), storeId, rends) == AddMissingRenditions(target.backend, storeId, rends[i..])
    {
      assert rends[i..][1..] == rends[i + 1..];
      r, caught := AddRendition(target, rends[i]);
      if r.Err? {
        return;
      }
      i := i + 1;
    }
    r := Ok(());
  }

  /**
   * The copy of image rendition settings in `copyVersion`: the source store's renditions are
   * read, then inside a new target transaction each one the target store does not read back is
   * added, and the transaction is committed. A `DocException` (a name the target lists without a
   * format) rolls it back; a rendition that does not load, or is missing, leaves it running.
   */
  method CopyImageRenditions(source: DocStoreSession, target: DocStoreSession) returns (r: Result<()>)
    requires source != target && source.openStoreId.Some? && target.openStoreId.Some? && !target.transactionRunning
    modifies target
    ensures target.translationMode == old(target.translationMode) && target.openStoreId == old(target.openStoreId)
    ensures target.hookCalls == old(target.hookCalls)
    ensures target.backend == old(target.backend).(storeProps := target.backend.storeProps)
    ensures var loaded := LoadRenditions(source.backend, source.openStoreId.value, RenditionNames(source.backend, source.openStoreId.value));
      loaded.Err? ==> r == Err(loaded.error) && target.backend == old(target.backend)
                      && target.transactionSteps == old(target.transactionSteps) && !target.transactionRunning
    ensures var loaded := LoadRenditions(source.backend, source.openStoreId.value, RenditionNames(source.backend, source.openStoreId.value));
      loaded.Ok? ==> match AddMissingRenditions(old(target.backend), target.openStoreId.value, loaded.value)
        case Copied(b) =>
          r.Ok? && target.backend == b && !target.transactionRunning
          && target.transactionSteps == old(target.transactionSteps) + [Start, Commit]
        case CopyFailed(e, caught) =>
          r == Err(e) && target.transactionRunning == !caught
          && target.transactionSteps == old(target.transactionSteps) + (if caught then [Start, Rollback] else [Start])
  {
    var loaded := source.GetImageRenditions();
    if loaded.Err? {
      return Err(loaded.error);
    }
    // `startTransaction()`: no transaction is running, so this one is started here.
    var started := target.StartLocalTransaction();
    var caught;
    r, caught := AddRenditions(target, loaded.value);
    if r.Err? {
      if caught {
        target.RollbackLocalTransaction(started);
      }
      return;
    }
    target.CommitLocalTransaction(started);
  }

  /**
   * What `copyVersion` reports: the number of nodes synced and the translations copied; the
   * verification pass run afterwards adds its errors to `verifyErrors`.
   */
  datatype CopyVersionStatistics = CopyVersionStatistics(copiedNodes: nat, copiedTranslations: seq<string>, verifyErrors: nat)

  /**
   * The second half of `copyVersion`, after the version is created: the source tree is synced onto
   * the target tree with the translations `langs`, a running transaction is committed, the image
   * renditions are copied, and the states and release dates are copied. Returns the number of
   * nodes synced.
   */
  method SyncAndCopyStates(source: DocStoreSession, sourceStoreId: string, target: DocStoreSession, targetStoreId: string,
                           verId: VersionId, langs: seq<string>, tao: Lang, oat: Lang,
                           sn: map<string, Node>, sk: Kids, ghost rank: map<string, nat>, sid: string,
                           tree: NodeTree, tid: string, isDbTarget: bool, progress: ProgressCallback?, now: int)
    returns (r: Result<nat>)
    requires source != target && Distinct(langs) && source.translationMode == None
    requires source.openStoreId.Some? && target.openStoreId.Some?
    requires Forest(sn, sk) && Ranked(sk, rank) && sid in sn && sid in rank
    requires tree.Valid() && tid in tree.nodes && tid !in ChildrenOf(sk, sid)
    requires progress != null ==> progress.Valid() && IsJavaInt(|ChildrenOf(sk, sid)|)
    modifies source, target, tree, ProgressFrame(progress)
    ensures source.backend == old(source.backend)
    ensures tree.Valid() && KindsKept(sn, old(tree.nodes), tree.nodes)
    ensures target.backend.versionLists == old(target.backend.versionLists) && target.backend.derivedFrom == old(target.backend.derivedFrom)
    ensures r.Ok? ==> source.translationMode == None && target.translationMode == None && !target.transactionRunning
    ensures r.Ok? ==> r.value == if old(tree.nodes[tid].kind) == Group then Size(sk, rank, sid) else 1
    ensures r.Ok? ==> EqualsIgnoreCase(VersionState(target.backend, targetStoreId, verId, None),
                                       VersionState(source.backend, sourceStoreId, verId, None))
    ensures r.Ok? ==> var d := ReleaseDate(source.backend, sourceStoreId, verId, None);
      d.Some? ==> ReleaseDate(target.backend, targetStoreId, verId, None) == d
    ensures r.Ok? ==> forall j | 0 <= j < |langs| && CaseUnique(langs, j, oat) ::
      LangCopied(source.backend, sourceStoreId, target.backend, targetStoreId, verId, Some(langs[j]), Some(langs[j]))
    ensures r.Ok? && oat.Some? ==> LangCopied(source.backend, sourceStoreId, target.backend, targetStoreId, verId, None, oat)
    ensures r.Ok? && Anchored(sn, sk, rank, sid, tid) ==> TreeSynced(sn, sk, rank, sid, tree.nodes, tree.kids, tid, tao, oat)
  {
    var count := SyncNodeRecursive(sn, sk, rank, sid, tree, tid, target, Some(langs), tao, oat, isDbTarget, progress);
    if count.Err? {
      return Err(count.error);
    }
    target.CommitIfRunning();
    if target.translationMode.Some? {
      target.LeaveTranslationMode();
    }
    // The sync does not touch the source session, which is still outside translation mode.
    var copied := CopyImageRenditions(source, target);
    if copied.Err? {
      return Err(copied.error);
    }
    var states := CopyVersionStates(source, sourceStoreId, target, targetStoreId, verId, langs, oat, now);
    if states.Err? {
      return Err(states.error);
    }
    r := Ok(count.value);
  }

  /**
   * `copyVersion(..., verId, trans, transAsOrig, origAsTrans, progress)` at time `now`: the version
   * is created in the target store below the nearest base the target lists and takes the source's
   * properties; then `CopyVersionContent` fills it. The source store does not change.
   */
  method CopyVersion(source: DocStoreSession, sourceStoreId: string, target: DocStoreSession, targetStoreId: string,
                     verId: VersionId, trans: Option<seq<string>>, tao: Lang, oat: Lang,
                     sn: map<string, Node>, sk: Kids, ghost rank: map<string, nat>, sid: string,
                     tree: NodeTree, tid: string, isDbTarget: bool, progress: ProgressCallback?,
                     less: (VersionId, VersionId) -> bool, now: int, ghost vrank: map<VersionId, nat>)
    returns (r: Result<CopyVersionStatistics>)
    requires source != target && VersionsRanked(source.backend, sourceStoreId, vrank)
    requires Forest(sn, sk) && Ranked(sk, rank) && sid in sn && sid in rank
    requires tree.Valid() && tid in tree.nodes && tid !in ChildrenOf(sk, sid)
    requires progress != null ==> progress.Valid() && IsJavaInt(|ChildrenOf(sk, sid)|)
    modifies source, target, tree, ProgressFrame(progress)
    ensures source.backend == old(source.backend)
    ensures tree.Valid() && KindsKept(sn, old(tree.nodes), tree.nodes)
    ensures tao.Some? && VersionState(old(source.backend), sourceStoreId, verId, tao) == TranslationPending ==> r.Err?
    ensures r.Ok? ==> source.translationMode == None && target.translationMode == None && !target.transactionRunning
    ensures r.Ok? ==>
      ListVersions(target.backend, targetStoreId) == ListVersions(old(target.backend), targetStoreId) + [verId]
      && NearestListed(Bases(old(source.backend), sourceStoreId, vrank, DerivedFrom(old(source.backend), sourceStoreId, verId)),
                       ListVersions(old(target.backend), targetStoreId), DerivedFrom(target.backend, targetStoreId, verId))
    ensures r.Ok? ==> r.value.verifyErrors == 0
    ensures r.Ok? ==> r.value.copiedNodes == if old(tree.nodes[tid].kind) == Group then Size(sk, rank, sid) else 1
    ensures r.Ok? ==> SortedStrings(r.value.copiedTranslations) && forall l :: l in r.value.copiedTranslations <==>
      l in RequestedLanguages(sn, sk, rank, sid, trans) && Some(l) != tao && Some(l) != oat
      && VersionState(old(source.backend), sourceStoreId, verId, Some(l)) != TranslationPending
    ensures r.Ok? ==> EqualsIgnoreCase(VersionState(target.backend, targetStoreId, verId, None),
                                       VersionState(old(source.backend), sourceStoreId, verId, None))
    ensures r.Ok? ==> var d := ReleaseDate(old(source.backend), sourceStoreId, verId, None);
      d.Some? ==> ReleaseDate(target.backend, targetStoreId, verId, None) == d
    ensures r.Ok? ==> var copied := r.value.copiedTranslations;
      forall j | 0 <= j < |copied| && CaseUnique(copied, j, oat) ::
        LangCopied(old(source.backend), sourceStoreId, target.backend, targetStoreId, verId, Some(copied[j]), Some(copied[j]))
    ensures r.Ok? && oat.Some? ==> LangCopied(old(source.backend), sourceStoreId, target.backend, targetStoreId, verId, None, oat)
    ensures r.Ok? && Anchored(sn, sk, rank, sid, tid) ==> TreeSynced(sn, sk, rank, sid, tree.nodes, tree.kids, tid, tao, oat)
  {
    var created := CreateTargetVersion(source, sourceStoreId, target, targetStoreId, verId, less, vrank);
    if created.Err? {
      return Err(created.error);
    }
    ghost var b1 := target.backend;
    r := CopyVersionContent(source, sourceStoreId, target, targetStoreId, verId, trans, tao, oat,
                            sn, sk, rank, sid, tree, tid, isDbTarget, progress, now);
    assert ListVersions(target.backend, targetStoreId) == ListVersions(b1, targetStoreId);
    assert DerivedFrom(target.backend, targetStoreId, verId) == DerivedFrom(b1, targetStoreId, verId);
  }

  /**
   * The part of `copyVersion` after the version is created: both stores are opened, the source tree
   * (`sn`, `sk`, root `sid`) is synced onto the target tree from `tid`, a running transaction is
   * committed, the image renditions the target store lacks are copied, the original's state and
   * release date are copied, then each translation's; both stores are closed. Neither the version
   * lists nor the base links change, and the source store does not change at all.
   */
  method CopyVersionContent(source: DocStoreSession, sourceStoreId: string, target: DocStoreSession, targetStoreId: string,
                            verId: VersionId, trans: Option<seq<string>>, tao: Lang, oat: Lang,
                            sn: map<string, Node>, sk: Kids, ghost rank: map<string, nat>, sid: string,
                            tree: NodeTree, tid: string, isDbTarget: bool, progress: ProgressCallback?, now: int)
    returns (r: Result<CopyVersionStatistics>)
    requires source != target && source.translationMode == None
    requires Forest(sn, sk) && Ranked(sk, rank) && sid in sn && sid in rank
    requires tree.Valid() && tid in tree.nodes && tid !in ChildrenOf(sk, sid)
    requires progress != null ==> progress.Valid() && IsJavaInt(|ChildrenOf(sk, sid)|)
    modifies source, target, tree, ProgressFrame(progress)
    ensures source.backend == old(source.backend)
    ensures tree.Valid() && KindsKept(sn, old(tree.nodes), tree.nodes)
    ensures target.backend.versionLists == old(target.backend.versionLists) && target.backend.derivedFrom == old(target.backend.derivedFrom)
    ensures tao.Some? && VersionState(source.backend, sourceStoreId, verId, tao) == TranslationPending ==> r.Err?
    ensures r.Ok? ==> source.translationMode == None && target.translationMode == None && !target.transactionRunning
    ensures r.Ok? ==> r.value.verifyErrors == 0
    ensures r.Ok? ==> r.value.copiedNodes == if old(tree.nodes[tid].kind) == Group then Size(sk, rank, sid) else 1
    ensures r.Ok? ==> SortedStrings(r.value.copiedTranslations) && forall l :: l in r.value.copiedTranslations <==>
      l in RequestedLanguages(sn, sk, rank, sid, trans) && Some(l) != tao && Some(l) != oat
      && VersionState(source.backend, sourceStoreId, verId, Some(l)) != TranslationPending
    ensures r.Ok? ==> EqualsIgnoreCase(VersionState(target.backend, targetStoreId, verId, None),
                                       VersionState(source.backend, sourceStoreId, verId, None))
    ensures r.Ok? ==> var d := ReleaseDate(source.backend, sourceStoreId, verId, None);
      d.Some? ==> ReleaseDate(target.backend, targetStoreId, verId, None) == d
    ensures r.Ok? ==> var copied := r.value.copiedTranslations;
      forall j | 0 <= j < |copied| && CaseUnique(copied, j, oat) ::
        LangCopied(source.backend, sourceStoreId, target.backend, targetStoreId, verId, Some(copied[j]), Some(copied[j]))
    ensures r.Ok? && oat.Some? ==> LangCopied(source.backend, sourceStoreId, target.backend, targetStoreId, verId, None, oat)
    ensures r.Ok? && Anchored(sn, sk, rank, sid, tid) ==> TreeSynced(sn, sk, rank, sid, tree.nodes, tree.kids, tid, tao, oat)
  {
    source.OpenDocStore(sourceStoreId);
    target.OpenDocStore(targetStoreId);
    var langs := SelectTranslations(source, sourceStoreId, verId, trans, tao, oat, sn, sk, rank, sid);
    if langs.Err? {
      return Err(langs.error);
    }
    var count := SyncAndCopyStates(source, sourceStoreId, target, targetStoreId, verId, langs.value, tao, oat,
                                   sn, sk, rank, sid, tree, tid, isDbTarget, progress, now);
    if count.Err? {
      return Err(count.error);
    }
    source.CloseDocStore();
    target.CloseDocStore();
    r := Ok(CopyVersionStatistics(count.value, langs.value, 0));
  }
}
