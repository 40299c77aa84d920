/*
 * AbstractDocStoreSession: the session-level rules on top of a store backend. Version states live
 * in version properties (`docversion.state` in the original language, `docversion.state.<lang>`
 * per translation); a translation without a state of its own is pending until its base version's
 * translation is released. The session also classifies internal property names, guards version
 * renaming and creation, nests "local" transactions, keeps the comma-separated list of image
 * renditions and hands out UUIDs through the store manager's registry.
 */
module DocStoreSessions {
  import opened Wrappers
  import opened JavaText
  import opened ListenerLists
  import opened DocmaUtil
  import opened ImageRendition
  import opened DocStoreManagers
  import opened VersionStores

  const PropStoreRenditionNames := "docstore.imagerendition.names"
  const PropStoreRenditionFormat := "docstore.imagerendition.format"
  const PropStoreRenditionMaxWidth := "docstore.imagerendition.max_width"
  const PropStoreRenditionMaxHeight := "docstore.imagerendition.max_height"
  const PropStoreUuid := "docstore.uuid"
  const PropVersionUuid := "docversion.uuid"
  const PropVersionState := "docversion.state"
  const PropVersionCreationDate := "docversion.creationdate"
  const PropVersionReleaseDate := "docversion.releasedate"

  /** The internal store properties; an entry ending in "." stands for every name it starts. */
  const InternalStoreProps: seq<string> := [PropStoreRenditionNames, "docstore.imagerendition.format.",
    "docstore.imagerendition.max_width.", "docstore.imagerendition.max_height.", PropStoreUuid]
  const InternalVersionProps: seq<string> := [PropVersionState, "docversion.state.",
    PropVersionCreationDate, PropVersionReleaseDate, "docversion.releasedate.", PropVersionUuid]

  /** `name` is an entry, or starts with an entry that ends in ".". */
  predicate IsInternal(internal: seq<string>, name: string)
  {
    name in internal || exists k :: 0 <= k < |internal| && EndsWith(internal[k], ".") && StartsWith(name, internal[k])
  }

  /** `isInternalStoreProperty`. */
  predicate IsInternalStoreProperty(name: string)
  {
    IsInternal(InternalStoreProps, name)
  }

  /** `isInternalVersionProperty`. */
  predicate IsInternalVersionProperty(name: string)
  {
    IsInternal(InternalVersionProps, name)
  }

  /** The internal store properties spelled out: two fixed names and three per-rendition families. */
  lemma InternalStorePropertyNames(name: string)
    ensures IsInternalStoreProperty(name) <==>
      name == PropStoreRenditionNames || name == PropStoreUuid
      || StartsWith(name, "docstore.imagerendition.format.")
      || StartsWith(name, "docstore.imagerendition.max_width.")
      || StartsWith(name, "docstore.imagerendition.max_height.")
  {
    var e := InternalStoreProps;
    assert PropStoreRenditionNames[|PropStoreRenditionNames| - 1] == 's' && PropStoreUuid[|PropStoreUuid| - 1] == 'd';
    if exists k :: 0 <= k < |e| && EndsWith(e[k], ".") && StartsWith(name, e[k]) {
      var k :| 0 <= k < |e| && EndsWith(e[k], ".") && StartsWith(name, e[k]);
      assert k != 0 && k != 4;
    }
    if StartsWith(name, e[1]) || StartsWith(name, e[2]) || StartsWith(name, e[3]) {
      assert EndsWith(e[1], ".") && EndsWith(e[2], ".") && EndsWith(e[3], ".");
    }
  }

  /**
   * The internal version properties spelled out: the four fixed names, and a state or release
   * date per translation language.
   */
  lemma InternalVersionPropertyNames(name: string)
    ensures IsInternalVersionProperty(name) <==>
      name == PropVersionState || name == PropVersionCreationDate
      || name == PropVersionReleaseDate || name == PropVersionUuid
      || StartsWith(name, "docversion.state.") || StartsWith(name, "docversion.releasedate.")
  {
    var e := InternalVersionProps;
    assert e[0] == PropVersionState && e[2] == PropVersionCreationDate && e[3] == PropVersionReleaseDate
      && e[5] == PropVersionUuid;
    assert !EndsWith(e[0], ".") && !EndsWith(e[2], ".") && !EndsWith(e[3], ".") && !EndsWith(e[5], ".");
    assert EndsWith(e[1], ".") && EndsWith(e[4], ".");
    assert e[1] == "docversion.state." && e[4] == "docversion.releasedate.";
    if StartsWith(name, e[1]) || StartsWith(name, e[4]) {
      assert IsInternalVersionProperty(name);
    }
  }

  // ---------------------------------------------------------------- version states

  /** The `DocVersionState` names. */
  const Draft := "DRAFT"
  const Released := "RELEASED"
  const TranslationPending := "TRANSLATION_PENDING"

  /** The state property of the original (`None`) or of the translation into `lang`. */
  function StateKey(lang: Option<string>): string
  {
    if lang.None? then PropVersionState else PropVersionState + "." + Lower(lang.value)
  }

  /** The release-date property that `setVersionState` writes: the language lower-cased. */
  function ReleaseDateKey(lang: Option<string>): string
  {
    if lang.None? then PropVersionReleaseDate else PropVersionReleaseDate + "." + Lower(lang.value)
  }

  predicate IsReleasedText(s: Option<string>)
  {
    s.Some? && EqualsIgnoreCase(s.value, Released)
  }

  /**
   * `getVersionState(storeId, verId, lang)`: the stored state; without one, Draft, except that a
   * translation of a derived version is pending while its base's translation is not released.
   */
  function VersionState(b: Backend, storeId: string, verId: VersionId, lang: Option<string>): (st: string)
    ensures st != ""
    ensures var stored := VersionProperty(b, storeId, verId, StateKey(lang));
      stored.Some? && stored.value != "" ==> st == stored.value
    ensures lang.None? || DerivedFrom(b, storeId, verId).None? ==>
      st == Draft || VersionProperty(b, storeId, verId, StateKey(lang)) == Some(st)
  {
    var stored := VersionProperty(b, storeId, verId, StateKey(lang));
    if stored.Some? && stored.value != "" then stored.value
    else
      var base := DerivedFrom(b, storeId, verId);
      if lang.Some? && base.Some? && !IsReleasedText(VersionProperty(b, storeId, base.value, StateKey(lang)))
      then TranslationPending
      else Draft
  }

  /** No two of the three state names are equal ignoring case. */
  lemma StateNamesDiffer()
    ensures Lower(Draft) != Lower(Released) && Lower(Draft) != Lower(TranslationPending)
    ensures Lower(Released) != Lower(TranslationPending)
  {
  }

  /** Whether version `verId` reads Released in translation mode `lang`. */
  predicate IsReleased(b: Backend, storeId: string, verId: VersionId, lang: Option<string>)
  {
    EqualsIgnoreCase(VersionState(b, storeId, verId, lang), Released)
  }

  /** A call of one of the abstract hooks that subclasses implement. */
  datatype HookCall =
    | ReleaseTranslation(storeId: string, verId: VersionId, lang: string)
    | TranslationBackToPending(storeId: string, verId: VersionId, lang: string)

  /** What `setVersionState` decides. */
  datatype StateChange = Unchanged | Refused(msg: string) | Changed(hooks: seq<HookCall>)

  function PendingHooks(storeId: string, subs: seq<VersionId>, lang: string): (h: seq<HookCall>)
    ensures |h| == |subs|
    ensures forall i :: 0 <= i < |subs| ==> h[i] == TranslationBackToPending(storeId, subs[i], lang)
  {
    seq(|subs|, i requires 0 <= i < |subs| => TranslationBackToPending(storeId, subs[i], lang))
  }

  /**
   * The decision of `setVersionState` in translation mode `lang`: nothing to do, a refusal with its
   * message, or a change with the hooks it calls.
   */
  function StateChangeOf(b: Backend, storeId: string, verId: VersionId, lang: Option<string>, newState: string): (c: StateChange)
    ensures var oldState := VersionState(b, storeId, verId, lang);
      c.Unchanged? <==> EqualsIgnoreCase(newState, oldState)
    ensures var oldState := VersionState(b, storeId, verId, lang);
      c.Changed? ==> !EqualsIgnoreCase(oldState, TranslationPending)
                     && (EqualsIgnoreCase(newState, Draft) || EqualsIgnoreCase(newState, Released))
    ensures var oldState := VersionState(b, storeId, verId, lang);
      c.Changed? && EqualsIgnoreCase(oldState, Released) && EqualsIgnoreCase(newState, Draft) ==>
        (lang.None? ==> SubVersions(b, storeId, verId) == [] && c.hooks == [])
        && (lang.Some? ==>
          (forall i :: 0 <= i < |SubVersions(b, storeId, verId)| ==>
             !IsReleased(b, storeId, SubVersions(b, storeId, verId)[i], lang))
          && c.hooks == PendingHooks(storeId, SubVersions(b, storeId, verId), lang.value))
  {
    StateNamesDiffer();
    var oldState := VersionState(b, storeId, verId, lang);
    if EqualsIgnoreCase(newState, oldState) then Unchanged
    else if EqualsIgnoreCase(oldState, TranslationPending) then Refused("Cannot change version state " + oldState)
    else if !(EqualsIgnoreCase(newState, Draft) || EqualsIgnoreCase(newState, Released)) then
      Refused("Cannot change version state: invalid state " + newState)
    else if EqualsIgnoreCase(oldState, Draft) && EqualsIgnoreCase(newState, Released) then
      Changed(if lang.Some? then [ReleaseTranslation(storeId, verId, lang.value)] else [])
    else if EqualsIgnoreCase(oldState, Released) && EqualsIgnoreCase(newState, Draft) then
      var subs := SubVersions(b, storeId, verId);
      if lang.None? then
        if |subs| > 0 then Refused("Cannot unrelease version. Another version is derived from this version.")
        else Changed([])
      else if exists i :: 0 <= i < |subs| && IsReleased(b, storeId, subs[i], lang) then
        Refused("Cannot unrelease version: a derived version is already released.")
      else Changed(PendingHooks(storeId, subs, lang.value))
    else
      Changed([])
  }

  /** The write of a state change: the state and the release date (now when releasing, else removed). */
  function WriteState(b: Backend, storeId: string, verId: VersionId, lang: Option<string>, newState: string, now: int): Backend
  {
    WithVersionProps(b, storeId, verId, [StateKey(lang), ReleaseDateKey(lang)],
      [Some(newState), if EqualsIgnoreCase(newState, Released) then Some(IntToString(now)) else None])
  }

  lemma StateAndDateKeysDiffer(lang: Option<string>)
    ensures StateKey(lang) != ReleaseDateKey(lang)
  {
    assert StateKey(lang)[11] == 's' && ReleaseDateKey(lang)[11] == 'r';
  }

  /**
   * After the write, the version holds the new state in that language, and its release date is
   * the time of a release and absent after any other change.
   */
  lemma WriteStateReadsBack(b: Backend, storeId: string, verId: VersionId, lang: Option<string>, newState: string, now: int)
    ensures var b' := WriteState(b, storeId, verId, lang, newState, now);
      VersionProperty(b', storeId, verId, StateKey(lang)) == Some(newState)
      && VersionProperty(b', storeId, verId, ReleaseDateKey(lang))
         == (if EqualsIgnoreCase(newState, Released) then Some(IntToString(now)) else None)
  {
    StateAndDateKeysDiffer(lang);
    var a := VersionAddress(storeId, verId);
    var p := if a in b.versionProps then b.versionProps[a] else map[];
    var names := [StateKey(lang), ReleaseDateKey(lang)];
    var values := [Some(newState), if EqualsIgnoreCase(newState, Released) then Some(IntToString(now)) else None];
    SetPropsReads(p, names, values, StateKey(lang));
    SetPropsReads(p, names, values, ReleaseDateKey(lang));
  }

  /** A change then reads back as the new state, and the write touches neither other versions nor the version tree. */
  lemma WriteStateKeepsOthers(b: Backend, storeId: string, verId: VersionId, lang: Option<string>, newState: string, now: int)
    requires newState != ""
    ensures var b' := WriteState(b, storeId, verId, lang, newState, now);
      VersionState(b', storeId, verId, lang) == newState
      && ListVersions(b', storeId) == ListVersions(b, storeId) && b'.derivedFrom == b.derivedFrom
      && forall s, v, n :: (s, v) != (storeId, verId) ==> VersionProperty(b', s, v, n) == VersionProperty(b, s, v, n)
  {
    WriteStateReadsBack(b, storeId, verId, lang, newState, now);
  }

  /**
   * Releasing a base version's translation ends the pending reading of a derived version that has
   * no state of its own in that language; before, it read pending.
   */
  lemma ReleasingBaseLiftsPending(b: Backend, storeId: string, base: VersionId, sub: VersionId, lang: string, now: int)
    requires DerivedFrom(b, storeId, sub) == Some(base) && sub != base
    requires VersionProperty(b, storeId, sub, StateKey(Some(lang))) in {None, Some("")}
    ensures !IsReleasedText(VersionProperty(b, storeId, base, StateKey(Some(lang)))) ==>
      VersionState(b, storeId, sub, Some(lang)) == TranslationPending
    ensures VersionState(WriteState(b, storeId, base, Some(lang), Released, now), storeId, sub, Some(lang)) == Draft
  {
    WriteStateReadsBack(b, storeId, base, Some(lang), Released, now);
    var b' := WriteState(b, storeId, base, Some(lang), Released, now);
    assert VersionProperty(b', storeId, sub, StateKey(Some(lang))) == VersionProperty(b, storeId, sub, StateKey(Some(lang)));
  }

  /** Unreleasing a base version's translation makes a derived version without own state pending again. */
  lemma UnreleasingBaseRestoresPending(b: Backend, storeId: string, base: VersionId, sub: VersionId, lang: string, now: int)
    requires DerivedFrom(b, storeId, sub) == Some(base) && sub != base
    requires VersionProperty(b, storeId, sub, StateKey(Some(lang))) in {None, Some("")}
    ensures VersionState(WriteState(b, storeId, base, Some(lang), Draft, now), storeId, sub, Some(lang)) == TranslationPending
  {
    WriteStateReadsBack(b, storeId, base, Some(lang), Draft, now);
    var b' := WriteState(b, storeId, base, Some(lang), Draft, now);
    assert !EqualsIgnoreCase(Draft, Released) by {
      assert Lower(Draft)[0] == 'd' && Lower(Released)[0] == 'r';
    }
    assert VersionProperty(b', storeId, sub, StateKey(Some(lang))) == VersionProperty(b, storeId, sub, StateKey(Some(lang)));
  }

  // ---------------------------------------------------------------- release dates

  /**
   * The release-date property that `getVersionReleaseDate` and `setVersionReleaseDate` use: the
   * language code appended as given, without the lower-casing of `setVersionState`.
   */
  function ReleaseDateKeyAsWritten(lang: Option<string>): string
  {
    if lang.None? then PropVersionReleaseDate else PropVersionReleaseDate + "." + lang.value
  }

  /** `getVersionReleaseDate`: the stored milliseconds under the key as given, or nothing when absent or not a number. */
  function ReleaseDate(b: Backend, storeId: string, verId: VersionId, lang: Option<string>): (r: Option<int>)
    ensures r.Some? ==> IsJavaLong(r.value)
    ensures r.Some? <==> VersionProperty(b, storeId, verId, ReleaseDateKeyAsWritten(lang)).Some?
                         && ParseLong(VersionProperty(b, storeId, verId, ReleaseDateKeyAsWritten(lang)).value).Some?
  {
    var millis := VersionProperty(b, storeId, verId, ReleaseDateKeyAsWritten(lang));
    if millis.Some? then ParseLong(millis.value) else None
  }

  /** The reader as evidently intended: it looks up the lower-cased key that `setVersionState` writes. */
  function ReleaseDateIntended(b: Backend, storeId: string, verId: VersionId, lang: Option<string>): (r: Option<int>)
    ensures r.Some? ==> IsJavaLong(r.value)
  {
    var millis := VersionProperty(b, storeId, verId, ReleaseDateKey(lang));
    if millis.Some? then ParseLong(millis.value) else None
  }

  /**
   * With an upper-case language code the date written on release is not found by the reader as
   * written: here the version has just been released in translation mode "DE" at time 5.
   */
  lemma ReleaseDateLostForUpperCaseLanguage()
    ensures var b := WriteState(Backend(map[], map[], map[], map[]), "s", "1", Some("DE"), Released, 5);
      ReleaseDate(b, "s", "1", Some("DE")) == None && ReleaseDateIntended(b, "s", "1", Some("DE")) == Some(5)
  {
    var b0 := Backend(map[], map[], map[], map[]);
    var b := WriteState(b0, "s", "1", Some("DE"), Released, 5);
    WriteStateReadsBack(b0, "s", "1", Some("DE"), Released, 5);
    ParseLongToString(5);
    assert Lower("DE") == "de";
    assert ReleaseDateKeyAsWritten(Some("DE")) != StateKey(Some("DE"));
    assert ReleaseDateKeyAsWritten(Some("DE"))[23] == 'D' && ReleaseDateKey(Some("DE"))[23] == 'd';
    assert VersionProperty(b, "s", "1", ReleaseDateKeyAsWritten(Some("DE"))) == None by {
      var p := SetProps(map[], [StateKey(Some("DE")), ReleaseDateKey(Some("DE"))], [Some(Released), Some(IntToString(5))]);
      StateAndDateKeysDiffer(Some("DE"));
      SetPropsReads(map[], [StateKey(Some("DE")), ReleaseDateKey(Some("DE"))], [Some(Released), Some(IntToString(5))],
        ReleaseDateKeyAsWritten(Some("DE")));
    }
  }

  /** As intended, a release records the time: the release date reads back the `now` of the change. */
  lemma ReleaseRecordsDate(b: Backend, storeId: string, verId: VersionId, lang: Option<string>, now: int)
    requires IsJavaLong(now)
    ensures ReleaseDateIntended(WriteState(b, storeId, verId, lang, Released, now), storeId, verId, lang) == Some(now)
    ensures ReleaseDateIntended(WriteState(b, storeId, verId, lang, Draft, now), storeId, verId, lang) == None
  {
    WriteStateReadsBack(b, storeId, verId, lang, Released, now);
    WriteStateReadsBack(b, storeId, verId, lang, Draft, now);
    ParseLongToString(now);
    assert !EqualsIgnoreCase(Draft, Released) by {
      assert Lower(Draft)[0] == 'd' && Lower(Released)[0] == 'r';
    }
  }

  /**
   * As written, the release time reads back for the original language and for a language code
   * without upper-case letters, where the two keys coincide.
   */
  lemma ReleaseRecordsDateLowerCase(b: Backend, storeId: string, verId: VersionId, lang: Option<string>, now: int)
    requires IsJavaLong(now) && (lang.Some? ==> Lower(lang.value) == lang.value)
    ensures ReleaseDate(WriteState(b, storeId, verId, lang, Released, now), storeId, verId, lang) == Some(now)
    ensures ReleaseDate(WriteState(b, storeId, verId, lang, Draft, now), storeId, verId, lang) == None
  {
    assert ReleaseDateKeyAsWritten(lang) == ReleaseDateKey(lang);
    ReleaseRecordsDate(b, storeId, verId, lang, now);
  }

  // ---------------------------------------------------------------- version-id checks

  /** The version ids in strictly increasing order. */
  ghost predicate Increasing(ids: seq<VersionId>, less: (VersionId, VersionId) -> bool)
  {
    forall i, j :: 0 <= i < j < |ids| ==> less(ids[i], ids[j])
  }

  ghost predicate Transitive(less: (VersionId, VersionId) -> bool)
  {
    forall a, b, c :: less(a, b) && less(b, c) ==> less(a, c)
  }

  /**
   * `checkRenameVersion`: no user may be connected to the version, it must be listed, and the new
   * id must lie strictly between the ids of its neighbours in the list. `connected` is what the
   * store manager reports for the version and `less` is `isLowerThan` of the version ids.
   */
  function CheckRenameVersion(connected: set<string>, verIds: seq<VersionId>, oldVerId: VersionId, newVerId: VersionId,
                              less: (VersionId, VersionId) -> bool): (r: Result<()>)
    ensures r.Ok? ==> connected == {} && oldVerId in verIds
    ensures connected != {} ==> r == Err("Cannot rename version. Users are still connected.")
  {
    if connected != {} then Err("Cannot rename version. Users are still connected.")
    else
      var idx := FirstIndex(verIds, oldVerId);
      if idx == |verIds| then Err("Version '" + oldVerId + "' is not contained in version list.")
      else if idx > 0 && !less(verIds[idx - 1], newVerId) then
        Err("New version ID must be higher than '" + verIds[idx - 1] + "'.")
      else if idx < |verIds| - 1 && !less(newVerId, verIds[idx + 1]) then
        Err("New version ID must be lower than '" + verIds[idx + 1] + "'.")
      else Ok(())
  }

  /**
   * On an increasing version list, a rename is allowed exactly when nobody is connected, the
   * version is listed, and the list with the new id in its place is still increasing.
   */
  lemma RenameKeepsOrder(connected: set<string>, verIds: seq<VersionId>, oldVerId: VersionId, newVerId: VersionId,
                         less: (VersionId, VersionId) -> bool)
    requires Increasing(verIds, less) && Transitive(less)
    ensures CheckRenameVersion(connected, verIds, oldVerId, newVerId, less).Ok? <==>
      connected == {} && oldVerId in verIds
      && Increasing(verIds[FirstIndex(verIds, oldVerId) := newVerId], less)
  {
    var idx := FirstIndex(verIds, oldVerId);
    if connected == {} && idx < |verIds| {
      var ids' := verIds[idx := newVerId];
      if CheckRenameVersion(connected, verIds, oldVerId, newVerId, less).Ok? {
        forall i, j | 0 <= i < j < |ids'|
          ensures less(ids'[i], ids'[j])
        {
          if j == idx && i < idx - 1 {
            assert less(verIds[i], verIds[idx - 1]);
          } else if i == idx && j > idx + 1 {
            assert less(verIds[idx + 1], verIds[j]);
          }
        }
      } else {
        if idx > 0 && !less(verIds[idx - 1], newVerId) {
          assert ids'[idx - 1] == verIds[idx - 1] && ids'[idx] == newVerId;
        } else {
          assert ids'[idx + 1] == verIds[idx + 1] && ids'[idx] == newVerId;
        }
      }
    }
  }

  /**
   * `checkCreateVersion`: a version derived from a base needs a Released base (in the current
   * translation mode) and an id higher than the base's; a root version is always allowed.
   */
  function CheckCreateVersion(b: Backend, lang: Option<string>, storeId: string, base: Option<VersionId>, newVerId: VersionId,
                              less: (VersionId, VersionId) -> bool): (r: Result<()>)
    ensures r.Ok? <==> base.None? || (EqualsIgnoreCase(VersionState(b, storeId, base.value, lang), Released) && less(base.value, newVerId))
    ensures base.Some? && !EqualsIgnoreCase(VersionState(b, storeId, base.value, lang), Released) ==>
      r == Err("Cannot derive version from draft version.")
  {
    if base.None? then Ok(())
    else if !EqualsIgnoreCase(VersionState(b, storeId, base.value, lang), Released) then
      Err("Cannot derive version from draft version.")
    else if !less(base.value, newVerId) then Err("New version ID has to be higher than base version ID.")
    else Ok(())
  }

  /** A freshly released base admits derived versions with a higher id. */
  lemma CreateFromReleasedBase(b: Backend, storeId: string, base: VersionId, newVerId: VersionId, lang: Option<string>, now: int,
                               less: (VersionId, VersionId) -> bool)
    requires less(base, newVerId)
    ensures CheckCreateVersion(WriteState(b, storeId, base, lang, Released, now), lang, storeId, Some(base), newVerId, less).Ok?
  {
    WriteStateKeepsOthers(b, storeId, base, lang, Released, now);
  }

  // ---------------------------------------------------------------- image renditions

  /** The rendition names listed in the store; a missing or blank list is empty. */
  function RenditionNames(b: Backend, storeId: string): seq<string>
  {
    var ids := StoreProperty(b, storeId, PropStoreRenditionNames);
    if ids.None? || Trim(ids.value) == [] then [] else Split(ids.value, ',')
  }

  /** The four store properties of rendition `name`: the list and its format, width and height. */
  function RenditionKeys(name: string): seq<string>
  {
    [PropStoreRenditionNames, PropStoreRenditionFormat + "." + name,
     PropStoreRenditionMaxWidth + "." + name, PropStoreRenditionMaxHeight + "." + name]
  }

  /**
   * `getImageRendition(name)`: nothing without a non-blank format; the width and height are read
   * in that order and stay 0 from the first one that is not a number; an invalid name is an error.
   */
  function ImageRenditionOf(b: Backend, storeId: string, name: string): (r: Result<Option<Rendition>>)
    ensures r.Ok? && r.value.Some? ==> r.value.value.name == name && Loadable(r.value.value)
    ensures r.Err? ==> r.error == "Could not load image rendition: " + name
  {
    var format := StoreProperty(b, storeId, PropStoreRenditionFormat + "." + name);
    if format.None? || Trim(format.value) == [] then Ok(None)
    else
      var w := StoreProperty(b, storeId, PropStoreRenditionMaxWidth + "." + name);
      var h := StoreProperty(b, storeId, PropStoreRenditionMaxHeight + "." + name);
      var pw := if w.Some? then ParseInt(w.value) else None;
      var ph := if h.Some? then ParseInt(h.value) else None;
      var width := if pw.Some? then pw.value else 0;
      var height := if pw.Some? && ph.Some? then ph.value else 0;
      match NewRendition(name, format.value, width, height)
      case Ok(rend) => Ok(Some(rend))
      case Err(_) => Err("Could not load image rendition: " + name)
  }

  lemma RenditionKeysDistinct(name: string)
    ensures forall i, j :: 0 <= i < j < 4 ==> RenditionKeys(name)[i] != RenditionKeys(name)[j]
  {
    var k := RenditionKeys(name);
    assert k[0][24] == 'n' && k[1][24] == 'f' && k[2][24] == 'm' && k[3][24] == 'm';
    assert k[2][28] == 'w' && k[3][28] == 'h';
  }

  /** A string holding a visible character does not trim to nothing. */
  lemma VisibleSurvivesTrim(s: string, k: nat)
    requires k < |s| && s[k] > ' '
    ensures Trim(s) != []
  {
    var b := TrimStart(s, 0);
    assert b <= k;
    var e := TrimEnd(s, b, |s|);
    assert e > k;
  }

  /** A valid rendition name holds no comma and no character up to ' '. */
  predicate AllValidNames(names: seq<string>)
  {
    forall k :: 0 <= k < |names| ==> ValidRenditionName(names[k])
  }

  lemma ValidNameHasNoComma(name: string)
    requires ValidRenditionName(name)
    ensures ',' !in name && name != "" && name[0] > ' '
  {
    forall k | 0 <= k < |name|
      ensures name[k] != ','
    {
      if k == 0 {
        assert IsAsciiLetter(name[0]);
      }
    }
  }

  /** Writing the joined list of valid names as the first of distinct keys and reading it back gives the list. */
  lemma NamesReadBack(b: Backend, storeId: string, names: seq<string>, keys: seq<string>, values: seq<Option<string>>)
    requires AllValidNames(names)
    requires |keys| == |values| && keys != [] && keys[0] == PropStoreRenditionNames && values[0] == Some(Join(names, ","))
    requires forall i, j :: 0 <= i < j < |keys| ==> keys[i] != keys[j]
    ensures RenditionNames(WithStoreProps(b, storeId, keys, values), storeId) == names
  {
    var j := Join(names, ",");
    var p := if storeId in b.storeProps then b.storeProps[storeId] else map[];
    SetPropsReads(p, keys, values, PropStoreRenditionNames);
    assert StoreProperty(WithStoreProps(b, storeId, keys, values), storeId, PropStoreRenditionNames) == Some(j);
    if names == [] {
      assert Trim(j) == [];
    } else {
      forall k | 0 <= k < |names|
        ensures ',' !in names[k]
      {
        ValidNameHasNoComma(names[k]);
      }
      ValidNameHasNoComma(names[|names| - 1]);
      SplitOfJoin(names, ',');
      JoinEnds(names, ",");
      ValidNameHasNoComma(names[0]);
      assert j[0] == names[0][0];
      VisibleSurvivesTrim(j, 0);
    }
  }

  /** Sorting keeps a list of valid names valid. */
  lemma SortedNamesValid(names: seq<string>)
    requires AllValidNames(names)
    ensures AllValidNames(SortStrings(names)) && SortedStrings(SortStrings(names)) && |SortStrings(names)| == |names|
  {
    SortStringsCorrect(names);
    var s := SortStrings(names);
    forall k | 0 <= k < |s|
      ensures ValidRenditionName(s[k])
    {
      assert s[k] in multiset(names);
      var m :| 0 <= m < |names| && names[m] == s[k];
    }
  }

  lemma RemoveFirstValid(names: seq<string>, name: string)
    requires AllValidNames(names)
    ensures AllValidNames(RemoveFirst(names, name))
  {
    var i := FirstIndex(names, name);
    if i < |names| {
      var r := names[..i] + names[i + 1..];
      forall k | 0 <= k < |r|
        ensures ValidRenditionName(r[k])
      {
        if k < i {
          assert r[k] == names[k];
        } else {
          assert r[k] == names[k + 1];
        }
      }
    }
  }

  /**
   * The backend after `addImageRendition(rend)` on store `storeId`: the list becomes the sorted old
   * list plus the name, written with the format, width and height of the rendition.
   */
  function WithRendition(b: Backend, storeId: string, rend: Rendition): Backend
  {
    WithStoreProps(b, storeId, RenditionKeys(rend.name),
      [Some(Join(SortStrings(RenditionNames(b, storeId) + [rend.name]), ",")), Some(rend.format),
       Some(IntToString(rend.maxWidth)), Some(IntToString(rend.maxHeight))])
  }

  /**
   * After `addImageRendition` on a list of valid names, the list reads back sorted with the new
   * name in it, and the rendition itself reads back when its format is not blank.
   */
  lemma AddedRenditionIsListed(b: Backend, storeId: string, rend: Rendition)
    requires ValidRenditionName(rend.name) && IsJavaInt(rend.maxWidth) && IsJavaInt(rend.maxHeight)
    requires AllValidNames(RenditionNames(b, storeId)) && rend.name !in RenditionNames(b, storeId)
    ensures var names := SortStrings(RenditionNames(b, storeId) + [rend.name]);
      var b' := WithRendition(b, storeId, rend);
      RenditionNames(b', storeId) == names && SortedStrings(names) && AllValidNames(names)
      && rend.name in names
      && (Trim(rend.format) != [] ==> ImageRenditionOf(b', storeId, rend.name) == Ok(Some(rend)))
  {
    var old_ := RenditionNames(b, storeId) + [rend.name];
    assert AllValidNames(old_) by {
      assert forall k :: 0 <= k < |old_| ==> old_[k] == if k < |old_| - 1 then RenditionNames(b, storeId)[k] else rend.name;
    }
    SortedNamesValid(old_);
    SortStringsCorrect(old_);
    var names := SortStrings(old_);
    assert rend.name in multiset(names) by {
      assert old_[|old_| - 1] == rend.name;
    }
    var keys := RenditionKeys(rend.name);
    var values := [Some(Join(names, ",")), Some(rend.format), Some(IntToString(rend.maxWidth)), Some(IntToString(rend.maxHeight))];
    RenditionKeysDistinct(rend.name);
    NamesReadBack(b, storeId, names, keys, values);
    RenditionReadsBack(b, storeId, rend, Join(names, ","));
  }

  /** The format, width and height written under a rendition's keys read back as that rendition. */
  lemma RenditionReadsBack(b: Backend, storeId: string, rend: Rendition, joined: string)
    requires ValidRenditionName(rend.name) && IsJavaInt(rend.maxWidth) && IsJavaInt(rend.maxHeight)
    ensures var b' := WithStoreProps(b, storeId, RenditionKeys(rend.name),
        [Some(joined), Some(rend.format), Some(IntToString(rend.maxWidth)), Some(IntToString(rend.maxHeight))]);
      Trim(rend.format) != [] ==> ImageRenditionOf(b', storeId, rend.name) == Ok(Some(rend))
  {
    var keys := RenditionKeys(rend.name);
    var values := [Some(joined), Some(rend.format), Some(IntToString(rend.maxWidth)), Some(IntToString(rend.maxHeight))];
    RenditionKeysDistinct(rend.name);
    var p := if storeId in b.storeProps then b.storeProps[storeId] else map[];
    var b' := WithStoreProps(b, storeId, keys, values);
    assert b'.storeProps[storeId] == SetProps(p, keys, values);
    SetPropsReads(p, keys, values, keys[1]);
    SetPropsReads(p, keys, values, keys[2]);
    SetPropsReads(p, keys, values, keys[3]);
    if Trim(rend.format) != [] {
      RenditionFromProps(b', storeId, rend);
    }
  }

  /** A rendition reads back from the format, width and height stored under its keys. */
  lemma RenditionFromProps(b: Backend, storeId: string, rend: Rendition)
    requires ValidRenditionName(rend.name) && IsJavaInt(rend.maxWidth) && IsJavaInt(rend.maxHeight) && Trim(rend.format) != []
    requires StoreProperty(b, storeId, RenditionKeys(rend.name)[1]) == Some(rend.format)
    requires StoreProperty(b, storeId, RenditionKeys(rend.name)[2]) == Some(IntToString(rend.maxWidth))
    requires StoreProperty(b, storeId, RenditionKeys(rend.name)[3]) == Some(IntToString(rend.maxHeight))
    ensures ImageRenditionOf(b, storeId, rend.name) == Ok(Some(rend))
  {
    ParseIntToString(rend.maxWidth);
    ParseIntToString(rend.maxHeight);
  }

  /**
   * After `deleteImageRendition` of a listed name on a list of valid names, the list reads back
   * without its first occurrence and the rendition itself no longer reads back.
   */
  lemma DeletedRenditionIsUnlisted(b: Backend, storeId: string, name: string)
    requires AllValidNames(RenditionNames(b, storeId)) && name in RenditionNames(b, storeId)
    ensures var names := RemoveFirst(RenditionNames(b, storeId), name);
      var b' := WithStoreProps(b, storeId, RenditionKeys(name), [Some(Join(names, ",")), None, None, None]);
      RenditionNames(b', storeId) == names && AllValidNames(names)
      && ImageRenditionOf(b', storeId, name) == Ok(None)
  {
    var names := RemoveFirst(RenditionNames(b, storeId), name);
    RemoveFirstValid(RenditionNames(b, storeId), name);
    var keys := RenditionKeys(name);
    var values: seq<Option<string>> := [Some(Join(names, ",")), None, None, None];
    RenditionKeysDistinct(name);
    NamesReadBack(b, storeId, names, keys, values);
    var p := if storeId in b.storeProps then b.storeProps[storeId] else map[];
    SetPropsReads(p, keys, values, keys[1]);
  }

  /** What a rendition read back from a store satisfies: a valid name, a format that is not blank, `int` sizes. */
  predicate Loadable(rend: Rendition)
  {
    ValidRenditionName(rend.name) && Trim(rend.format) != [] && IsJavaInt(rend.maxWidth) && IsJavaInt(rend.maxHeight)
  }

  /** The keys of two different renditions differ, apart from the shared list key. */
  lemma OwnKeysDiffer(n: string, m: string)
    requires n != m
    ensures forall k, j :: 1 <= k < 4 && 0 <= j < 4 ==> RenditionKeys(n)[k] != RenditionKeys(m)[j]
  {
    var own, other := RenditionKeys(n), RenditionKeys(m);
    forall k, j | 1 <= k < 4 && 0 <= j < 4
      ensures own[k] != other[j]
    {
      if k == j {
        var prefix := [PropStoreRenditionFormat, PropStoreRenditionMaxWidth, PropStoreRenditionMaxHeight][k - 1] + ".";
        assert own[k] == prefix + n && other[j] == prefix + m;
        assert own[k][|prefix|..] == n && other[j][|prefix|..] == m;
      } else if k == 1 || j <= 1 {
        assert own[k][24] != other[j][24];
      } else {
        assert own[k][28] != other[j][28];
      }
    }
  }

  /** Writing the four keys of rendition `m` leaves what any other rendition `n` reads back. */
  lemma OtherRenditionKept(b: Backend, storeId: string, m: string, values: seq<Option<string>>, n: string)
    requires |values| == 4 && n != m
    ensures ImageRenditionOf(WithStoreProps(b, storeId, RenditionKeys(m), values), storeId, n) == ImageRenditionOf(b, storeId, n)
  {
    var keys, own := RenditionKeys(m), RenditionKeys(n);
    RenditionKeysDistinct(m);
    OwnKeysDiffer(n, m);
    var p := if storeId in b.storeProps then b.storeProps[storeId] else map[];
    var b' := WithStoreProps(b, storeId, keys, values);
    forall k | 1 <= k < 4
      ensures StoreProperty(b', storeId, own[k]) == StoreProperty(b, storeId, own[k])
    {
      SetPropsReads(p, keys, values, own[k]);
    }
    assert own[1] == PropStoreRenditionFormat + "." + n;
    assert own[2] == PropStoreRenditionMaxWidth + "." + n;
    assert own[3] == PropStoreRenditionMaxHeight + "." + n;
  }

  /**
   * `getImageRenditions()` over the listed `names`: the rendition of each trimmed name in list
   * order, with nothing where a name has no format; a name that does not load is an error.
   */
  function LoadRenditions(b: Backend, storeId: string, names: seq<string>): Result<seq<Option<Rendition>>>
  {
    LoadFrom(b, storeId, names, 0, [])
  }

  /** The loop of `getImageRenditions` from index `i` on, with the renditions `acc` read so far. */
  function LoadFrom(b: Backend, storeId: string, names: seq<string>, i: nat, acc: seq<Option<Rendition>>): Result<seq<Option<Rendition>>>
    requires i <= |names|
    decreases |names| - i
  {
    if i == |names| then Ok(acc)
    else
      match ImageRenditionOf(b, storeId, Trim(names[i]))
      case Err(e) => Err(e)
      case Ok(rend) => LoadFrom(b, storeId, names, i + 1, acc + [rend])
  }

  /** The loop from index `i` succeeds exactly when every name from there on loads. */
  lemma {:induction false} LoadFromSucceeds(b: Backend, storeId: string, names: seq<string>, i: nat, acc: seq<Option<Rendition>>)
    requires i <= |names|
    ensures LoadFrom(b, storeId, names, i, acc).Ok? <==>
      forall k :: i <= k < |names| ==> ImageRenditionOf(b, storeId, Trim(names[k])).Ok?
    decreases |names| - i
  {
    if i < |names| && ImageRenditionOf(b, storeId, Trim(names[i])).Ok? {
      LoadFromSucceeds(b, storeId, names, i + 1, acc + [ImageRenditionOf(b, storeId, Trim(names[i])).value]);
    }
  }

  /** A loop from index `i` that succeeds keeps `acc` and appends the rendition of each name from there on. */
  lemma {:induction false} LoadFromValues(b: Backend, storeId: string, names: seq<string>, i: nat, acc: seq<Option<Rendition>>)
    requires i <= |names| && LoadFrom(b, storeId, names, i, acc).Ok?
    ensures var rends := LoadFrom(b, storeId, names, i, acc).value;
      |rends| == |acc| + |names| - i && (forall k :: 0 <= k < |acc| ==> rends[k] == acc[k])
      && forall k :: i <= k < |names| ==> ImageRenditionOf(b, storeId, Trim(names[k])) == Ok(rends[|acc| + k - i])
    decreases |names| - i
  {
    if i < |names| {
      var acc' := acc + [ImageRenditionOf(b, storeId, Trim(names[i])).value];
      LoadFromValues(b, storeId, names, i + 1, acc');
    }
  }

  /** A loop from index `i` that fails reports the error of a name from there on. */
  lemma {:induction false} LoadFromError(b: Backend, storeId: string, names: seq<string>, i: nat, acc: seq<Option<Rendition>>)
    requires i <= |names| && LoadFrom(b, storeId, names, i, acc).Err?
    ensures exists k :: i <= k < |names| && ImageRenditionOf(b, storeId, Trim(names[k])) == Err(LoadFrom(b, storeId, names, i, acc).error)
    decreases |names| - i
  {
    var first := ImageRenditionOf(b, storeId, Trim(names[i]));
    if first.Ok? {
      LoadFromError(b, storeId, names, i + 1, acc + [first.value]);
    }
  }

  /**
   * `getImageRenditions()` succeeds exactly when every listed name loads, and then holds the
   * rendition of each trimmed name at its index; otherwise it fails with the error of one of them.
   */
  lemma LoadRenditionsMeaning(b: Backend, storeId: string, names: seq<string>)
    ensures LoadRenditions(b, storeId, names).Ok? <==>
      forall k :: 0 <= k < |names| ==> ImageRenditionOf(b, storeId, Trim(names[k])).Ok?
    ensures LoadRenditions(b, storeId, names).Ok? ==> |LoadRenditions(b, storeId, names).value| == |names|
    ensures LoadRenditions(b, storeId, names).Ok? ==> forall k :: 0 <= k < |names| ==>
      ImageRenditionOf(b, storeId, Trim(names[k])) == Ok(LoadRenditions(b, storeId, names).value[k])
    ensures LoadRenditions(b, storeId, names).Err? ==>
      exists k :: 0 <= k < |names| && ImageRenditionOf(b, storeId, Trim(names[k])) == Err(LoadRenditions(b, storeId, names).error)
  {
    var none: seq<Option<Rendition>> := [];
    var r := LoadFrom(b, storeId, names, 0, none);
    assert LoadRenditions(b, storeId, names) == r;
    LoadFromSucceeds(b, storeId, names, 0, none);
    if r.Ok? {
      LoadFromValues(b, storeId, names, 0, none);
      forall k | 0 <= k < |names|
        ensures ImageRenditionOf(b, storeId, Trim(names[k])) == Ok(r.value[k])
      {
        assert |none| + k - 0 == k;
      }
    } else {
      LoadFromError(b, storeId, names, 0, none);
    }
  }

  // ---------------------------------------------------------------- the session

  /** A transaction step issued to the backend. */
  datatype TxStep = Start | Commit | Rollback

  /** Every version still listed in `b` was listed in `b0`, and derives from the same base. */
  ghost predicate Remaining(b0: Backend, b: Backend, storeId: string)
  {
    forall x :: x in ListVersions(b, storeId) ==>
      x in ListVersions(b0, storeId) && DerivedFrom(b, storeId, x) == DerivedFrom(b0, storeId, x)
  }

  /**
   * What the loop of `deleteVersionsRecursive` has done with the first `i` versions of `vers`,
   * going from `b0` to `b`: each of them is in `deleted`, the list lost exactly `deleted`, and no
   * remaining version derives from one of them.
   */
  ghost predicate DeletedSoFar(b0: Backend, b: Backend, storeId: string, vers: seq<VersionId>, i: nat,
                               deleted: set<VersionId>)
    requires i <= |vers|
  {
    (forall k :: 0 <= k < i ==> vers[k] in deleted)
    && ListVersions(b, storeId) == Without(ListVersions(b0, storeId), deleted)
    && (forall k, x :: 0 <= k < i && x in ListVersions(b, storeId) ==> DerivedFrom(b, storeId, x) != Some(vers[k]))
    && Remaining(b0, b, storeId)
  }

  /** One pass of that loop, which deleted `step` (holding `vers[i]` unless deleted before). */
  lemma DeletedStep(b0: Backend, b1: Backend, b2: Backend, storeId: string, vers: seq<VersionId>, i: nat,
                    deleted: set<VersionId>, step: set<VersionId>)
    requires i < |vers| && DeletedSoFar(b0, b1, storeId, vers, i, deleted)
    requires vers[i] in deleted + step
    requires ListVersions(b2, storeId) == Without(ListVersions(b1, storeId), step)
    requires forall x :: x in ListVersions(b2, storeId) ==> DerivedFrom(b2, storeId, x) != Some(vers[i])
    requires Remaining(b1, b2, storeId)
    ensures DeletedSoFar(b0, b2, storeId, vers, i + 1, deleted + step)
  {
    WithoutTwice(ListVersions(b0, storeId), deleted, step);
    forall x | x in ListVersions(b2, storeId)
      ensures forall k :: 0 <= k <= i ==> DerivedFrom(b2, storeId, x) != Some(vers[k])
    {
      assert x in ListVersions(b1, storeId);
    }
  }

  class DocStoreSession {
    const storeManager: DocStoreManager
    const sessionId: string
    const userId: string
    var translationMode: Option<string>
    var transactionRunning: bool
    var transactionSteps: seq<TxStep>
    /** The store opened by this session (`getStoreId()`), if any. */
    var openStoreId: Option<string>
    var backend: Backend
    var hookCalls: seq<HookCall>

    constructor (storeManager: DocStoreManager, sessionId: string, userId: string, backend: Backend)
      ensures this.storeManager == storeManager && this.sessionId == sessionId && this.userId == userId
      ensures this.backend == backend && translationMode == None && openStoreId == None
      ensures !transactionRunning && transactionSteps == [] && hookCalls == []
    {
      this.storeManager := storeManager;
      this.sessionId := sessionId;
      this.userId := userId;
      this.backend := backend;
      translationMode := None;
      openStoreId := None;
      transactionRunning := false;
      transactionSteps := [];
      hookCalls := [];
    }

    method EnterTranslationMode(lang: string)
      modifies this
      ensures translationMode == Some(lang)
      ensures backend == old(backend) && transactionRunning == old(transactionRunning)
      ensures transactionSteps == old(transactionSteps) && openStoreId == old(openStoreId) && hookCalls == old(hookCalls)
    {
      translationMode := Some(lang);
    }

    method LeaveTranslationMode()
      modifies this
      ensures translationMode == None
      ensures backend == old(backend) && transactionRunning == old(transactionRunning)
      ensures transactionSteps == old(transactionSteps) && openStoreId == old(openStoreId) && hookCalls == old(hookCalls)
    {
      translationMode := None;
    }

    /** `getVersionState(storeId, verId)`: the state in the current translation mode. */
    function CurrentVersionState(storeId: string, verId: VersionId): (st: string)
      reads this
      ensures st == VersionState(backend, storeId, verId, translationMode)
    {
      VersionState(backend, storeId, verId, translationMode)
    }

    /** Whether one of `subs` reads Released in the current translation mode; stops at the first. */
    method AnyReleased(storeId: string, subs: seq<VersionId>) returns (found: bool)
      ensures found <==> exists k :: 0 <= k < |subs| && IsReleased(backend, storeId, subs[k], translationMode)
    {
      found := false;
      var i := 0;
      while i < |subs|
        invariant 0 <= i <= |subs|
        invariant forall k :: 0 <= k < i ==> !IsReleased(backend, storeId, subs[k], translationMode)
      {
        var released := IsReleased(backend, storeId, subs[i], translationMode);
        if released {
          return true;
        }
        i := i + 1;
      }
    }

    /** `setTranslationBackToPending` for each of `subs`, in order. */
    method SetBackToPending(storeId: string, subs: seq<VersionId>, lang: string)
      modifies this
      ensures hookCalls == old(hookCalls) + PendingHooks(storeId, subs, lang)
      ensures backend == old(backend) && translationMode == old(translationMode) && transactionRunning == old(transactionRunning)
      ensures transactionSteps == old(transactionSteps) && openStoreId == old(openStoreId)
    {
      var i := 0;
      while i < |subs|
        invariant 0 <= i <= |subs| && backend == old(backend) && translationMode == old(translationMode)
        invariant transactionRunning == old(transactionRunning) && transactionSteps == old(transactionSteps) && openStoreId == old(openStoreId)
        invariant hookCalls == old(hookCalls) + PendingHooks(storeId, subs[..i], lang)
      {
        assert PendingHooks(storeId, subs[..i + 1], lang)
          == PendingHooks(storeId, subs[..i], lang) + [TranslationBackToPending(storeId, subs[i], lang)];
        hookCalls := hookCalls + [TranslationBackToPending(storeId, subs[i], lang)];
        i := i + 1;
      }
      assert subs[..i] == subs;
    }

    /**
     * `setVersionState(storeId, verId, newState)` at time `now`: carries out the decision of
     * `StateChangeOf` in the current translation mode.
     */
    method SetVersionState(storeId: string, verId: VersionId, newState: string, now: int) returns (r: Result<()>)
      modifies this
      ensures var c := StateChangeOf(old(backend), storeId, verId, old(translationMode), newState);
        (!c.Changed? ==> backend == old(backend) && hookCalls == old(hookCalls))
        && (c.Unchanged? ==> r.Ok?)
        && (c.Refused? ==> r == Err(c.msg))
        && (c.Changed? ==> r.Ok? && hookCalls == old(hookCalls) + c.hooks
                           && backend == WriteState(old(backend), storeId, verId, old(translationMode), newState, now))
      ensures translationMode == old(translationMode) && transactionRunning == old(transactionRunning)
      ensures transactionSteps == old(transactionSteps) && openStoreId == old(openStoreId)
    {
      var lang := translationMode;
      var oldState := VersionState(backend, storeId, verId, lang);
      if EqualsIgnoreCase(newState, oldState) {
        return Ok(());
      }
      var wasDraft := EqualsIgnoreCase(oldState, Draft);
      var wasReleased := EqualsIgnoreCase(oldState, Released);
      var wasPending := EqualsIgnoreCase(oldState, TranslationPending);
      var toBeDraft := EqualsIgnoreCase(newState, Draft);
      var toBeReleased := EqualsIgnoreCase(newState, Released);
      if wasPending {
        return Err("Cannot change version state " + oldState);
      }
      if !(toBeDraft || toBeReleased) {
        return Err("Cannot change version state: invalid state " + newState);
      }
      if wasDraft && toBeReleased {
        if lang.Some? {
          hookCalls := hookCalls + [ReleaseTranslation(storeId, verId, lang.value)];
        }
      } else if wasReleased && toBeDraft {
        var subs := SubVersions(backend, storeId, verId);
        if lang.None? {
          if |subs| > 0 {
            return Err("Cannot unrelease version. Another version is derived from this version.");
          }
        } else {
          var hasReleased := AnyReleased(storeId, subs);
          if hasReleased {
            return Err("Cannot unrelease version: a derived version is already released.");
          }
          SetBackToPending(storeId, subs, lang.value);
        }
      }
      backend := WriteState(backend, storeId, verId, lang, newState, now);
      r := Ok(());
    }

    /** `getVersionReleaseDate(storeId, verId)` in the current translation mode. */
    function CurrentReleaseDate(storeId: string, verId: VersionId): (r: Option<int>)
      reads this
      ensures r == ReleaseDate(backend, storeId, verId, translationMode)
    {
      ReleaseDate(backend, storeId, verId, translationMode)
    }

    /** `setVersionReleaseDate(storeId, verId, date)`: the date in milliseconds, in the current mode. */
    method SetVersionReleaseDate(storeId: string, verId: VersionId, millis: int)
      requires IsJavaLong(millis)
      modifies this
      ensures backend == WithVersionProps(old(backend), storeId, verId, [ReleaseDateKeyAsWritten(translationMode)], [Some(IntToString(millis))])
      ensures ReleaseDate(backend, storeId, verId, translationMode) == Some(millis)
      ensures translationMode == old(translationMode) && transactionRunning == old(transactionRunning)
      ensures transactionSteps == old(transactionSteps) && openStoreId == old(openStoreId) && hookCalls == old(hookCalls)
    {
      var a := VersionAddress(storeId, verId);
      var p := if a in backend.versionProps then backend.versionProps[a] else map[];
      SetPropsReads(p, [ReleaseDateKeyAsWritten(translationMode)], [Some(IntToString(millis))], ReleaseDateKeyAsWritten(translationMode));
      ParseLongToString(millis);
      backend := WithVersionProps(backend, storeId, verId, [ReleaseDateKeyAsWritten(translationMode)], [Some(IntToString(millis))]);
    }

    // ------------------------------------------------------------ local transactions

    /** `startLocalTransaction`: starts a transaction only when none is running, and says whether it did. */
    method StartLocalTransaction() returns (started: bool)
      modifies this
      ensures started <==> !old(transactionRunning)
      ensures transactionRunning
      ensures transactionSteps == old(transactionSteps) + (if started then [Start] else [])
      ensures backend == old(backend) && translationMode == old(translationMode)
      ensures openStoreId == old(openStoreId) && hookCalls == old(hookCalls)
    {
      if transactionRunning {
        return false;
      }
      transactionRunning := true;
      transactionSteps := transactionSteps + [Start];
      return true;
    }

    /** `commitLocalTransaction(started)`: commits only the transaction this caller started. */
    method CommitLocalTransaction(started: bool)
      modifies this
      ensures transactionRunning == (old(transactionRunning) && !started)
      ensures transactionSteps == old(transactionSteps) + (if started then [Commit] else [])
      ensures backend == old(backend) && translationMode == old(translationMode)
      ensures openStoreId == old(openStoreId) && hookCalls == old(hookCalls)
    {
      if started {
        transactionRunning := false;
        transactionSteps := transactionSteps + [Commit];
      }
    }

    /** `rollbackLocalTransaction(started)`: rolls back only the transaction this caller started. */
    method RollbackLocalTransaction(started: bool)
      modifies this
      ensures transactionRunning == (old(transactionRunning) && !started)
      ensures transactionSteps == old(transactionSteps) + (if started then [Rollback] else [])
      ensures backend == old(backend) && translationMode == old(translationMode)
      ensures openStoreId == old(openStoreId) && hookCalls == old(hookCalls)
    {
      if started {
        transactionRunning := false;
        transactionSteps := transactionSteps + [Rollback];
      }
    }

    /**
     * `rollbackLocalTransactionRuntime` and `rollbackLocalTransactionRethrow`: the rollback of
     * `rollbackLocalTransaction`, after which the caught error is always raised again.
     */
    method RollbackLocalTransactionAndFail(started: bool, error: string) returns (r: Result<()>)
      modifies this
      ensures r == Err(error)
      ensures transactionRunning == (old(transactionRunning) && !started)
      ensures transactionSteps == old(transactionSteps) + (if started then [Rollback] else [])
      ensures backend == old(backend) && translationMode == old(translationMode)
      ensures openStoreId == old(openStoreId) && hookCalls == old(hookCalls)
    {
      RollbackLocalTransaction(started);
      r := Err(error);
    }

    /**
     * `commitTransaction()` followed by `startTransaction()` when a transaction is running: what
     * was done so far becomes durable and the caller goes on inside a new transaction.
     */
    method CommitAndRestart()
      modifies this
      ensures transactionRunning == old(transactionRunning)
      ensures transactionSteps == old(transactionSteps) + (if old(transactionRunning) then [Commit, Start] else [])
      ensures backend == old(backend) && translationMode == old(translationMode)
      ensures openStoreId == old(openStoreId) && hookCalls == old(hookCalls)
    {
      if transactionRunning {
        transactionSteps := transactionSteps + [Commit, Start];
      }
    }

    /** `commitTransaction()` when a transaction is running; none is running afterwards. */
    method CommitIfRunning()
      modifies this
      ensures !transactionRunning
      ensures transactionSteps == old(transactionSteps) + (if old(transactionRunning) then [Commit] else [])
      ensures backend == old(backend) && translationMode == old(translationMode)
      ensures openStoreId == old(openStoreId) && hookCalls == old(hookCalls)
    {
      if transactionRunning {
        transactionRunning := false;
        transactionSteps := transactionSteps + [Commit];
      }
    }

    // ------------------------------------------------------------ image renditions

    /**
     * `addImageRendition`: a name already listed is an error; otherwise the list becomes the
     * sorted old list plus the name, written with the format, width and height of the rendition.
     */
    method AddImageRendition(rendition: Rendition) returns (r: Result<()>)
      requires openStoreId.Some?
      modifies this
      ensures var names := RenditionNames(old(backend), old(openStoreId).value);
        (rendition.name in names ==> r == Err("Rendition already exists: " + rendition.name) && backend == old(backend))
        && (rendition.name !in names ==> r.Ok? && backend == WithRendition(old(backend), old(openStoreId).value, rendition))
      ensures translationMode == old(translationMode) && transactionRunning == old(transactionRunning)
      ensures transactionSteps == old(transactionSteps) && openStoreId == old(openStoreId) && hookCalls == old(hookCalls)
    {
      var storeId := openStoreId.value;
      var names := RenditionNames(backend, storeId);
      if rendition.name in names {
        return Err("Rendition already exists: " + rendition.name);
      }
      var namesStr := ConcatStrings(SortStrings(names + [rendition.name]), ",");
      backend := WithStoreProps(backend, storeId, RenditionKeys(rendition.name),
        [Some(namesStr), Some(rendition.format), Some(IntToString(rendition.maxWidth)), Some(IntToString(rendition.maxHeight))]);
      r := Ok(());
    }

    /**
     * `deleteImageRendition`: true iff the name was listed; then its first occurrence leaves the
     * list and its format, width and height properties are removed.
     */
    method DeleteImageRendition(name: string) returns (deleted: bool)
      requires openStoreId.Some?
      modifies this
      ensures var names := RenditionNames(old(backend), old(openStoreId).value);
        (deleted <==> name in names)
        && (!deleted ==> backend == old(backend))
        && (deleted ==> backend == WithStoreProps(old(backend), old(openStoreId).value, RenditionKeys(name),
             [Some(Join(RemoveFirst(names, name), ",")), None, None, None]))
      ensures translationMode == old(translationMode) && transactionRunning == old(transactionRunning)
      ensures transactionSteps == old(transactionSteps) && openStoreId == old(openStoreId) && hookCalls == old(hookCalls)
    {
      var storeId := openStoreId.value;
      var names := RenditionNames(backend, storeId);
      deleted := false;
      if name in names {
        RemoveFirstCounts(names, name);
        var nameStr := ConcatStrings(RemoveFirst(names, name), ",");
        backend := WithStoreProps(backend, storeId, RenditionKeys(name), [Some(nameStr), None, None, None]);
        deleted := true;
      }
    }

    /**
     * `openDocStore(storeId, verId)` as far as the session's own state goes: `storeId` becomes the
     * open store; loading the version's node tree is not part of this model.
     */
    method OpenDocStore(storeId: string)
      modifies this
      ensures openStoreId == Some(storeId)
      ensures backend == old(backend) && translationMode == old(translationMode) && transactionRunning == old(transactionRunning)
      ensures transactionSteps == old(transactionSteps) && hookCalls == old(hookCalls)
    {
      openStoreId := Some(storeId);
    }

    /** `closeDocStore()`: no store is open afterwards. */
    method CloseDocStore()
      modifies this
      ensures openStoreId == None
      ensures backend == old(backend) && translationMode == old(translationMode) && transactionRunning == old(transactionRunning)
      ensures transactionSteps == old(transactionSteps) && hookCalls == old(hookCalls)
    {
      openStoreId := None;
    }

    /**
     * `getImageRenditions()` of the open store: each listed name is trimmed and read with
     * `getImageRendition`, in list order, and the first one that does not load is an error.
     */
    method GetImageRenditions() returns (r: Result<seq<Option<Rendition>>>)
      requires openStoreId.Some?
      ensures r == LoadRenditions(backend, openStoreId.value, RenditionNames(backend, openStoreId.value))
    {
      var storeId := openStoreId.value;
      var names := RenditionNames(backend, storeId);
      var rends: seq<Option<Rendition>> := [];
      for i := 0 to |names|
        invariant LoadFrom(backend, storeId, names, i, rends) == LoadRenditions(backend, storeId, names)
      {
        var rend := ImageRenditionOf(backend, storeId, Trim(names[i]));
        if rend.Err? {
          return Err(rend.error);
        }
        rends := rends + [rend.value];
      }
      r := Ok(rends);
    }

    // ------------------------------------------------------------ UUIDs

    /**
     * `getDocStoreUUID(storeId)` at time `now`: a stored UUID is returned as it is; otherwise the
     * name-based UUID of `storeId + "_" + now` (`nameUuid`) is stored and registered with the
     * store manager, and a registry conflict is an error after the property is written.
     */
    method GetDocStoreUuid(storeId: string, now: int, nameUuid: string -> Uuid) returns (r: Result<Uuid>)
      modifies this, storeManager
      ensures var stored := StoreProperty(old(backend), storeId, PropStoreUuid);
        if stored.Some? && stored.value != "" then
          r == Ok(stored.value) && backend == old(backend) && storeManager.uuidMap == old(storeManager.uuidMap)
        else
          var u := nameUuid(storeId + "_" + IntToString(now));
          backend == WithStoreProps(old(backend), storeId, [PropStoreUuid], [Some(u)])
          && StoreProperty(backend, storeId, PropStoreUuid) == Some(u)
          && storeManager.uuidMap == Assigned(old(storeManager.uuidMap), u, StoreEntry(storeId))
          && (r.Ok? <==> !Conflicts(old(storeManager.uuidMap), u, StoreEntry(storeId)))
          && (r.Ok? ==> r.value == u)
      ensures translationMode == old(translationMode) && transactionRunning == old(transactionRunning)
      ensures transactionSteps == old(transactionSteps) && openStoreId == old(openStoreId) && hookCalls == old(hookCalls)
      ensures storeManager.docStores == old(storeManager.docStores) && storeManager.openSessions == old(storeManager.openSessions)
      ensures storeManager.nextSessionId == old(storeManager.nextSessionId)
    {
      var stored := StoreProperty(backend, storeId, PropStoreUuid);
      if stored.Some? && stored.value != "" {
        return Ok(stored.value);
      }
      var u := nameUuid(storeId + "_" + IntToString(now));
      var p := if storeId in backend.storeProps then backend.storeProps[storeId] else map[];
      SetPropsReads(p, [PropStoreUuid], [Some(u)], PropStoreUuid);
      backend := WithStoreProps(backend, storeId, [PropStoreUuid], [Some(u)]);
      var reg := storeManager.RegisterDocStoreUuid(u, storeId);
      if reg.Err? {
        return Err(reg.error);
      }
      r := Ok(u);
    }

    /** `setDocStoreUUID(storeId, uuid)`: only a store without a UUID takes one, and it is registered. */
    method SetDocStoreUuid(storeId: string, uuid: Uuid) returns (r: Result<()>)
      modifies this, storeManager
      ensures var stored := StoreProperty(old(backend), storeId, PropStoreUuid);
        if stored.Some? && stored.value != "" then
          r == Err("Cannot set UUID of store. UUID is already assigned.")
          && backend == old(backend) && storeManager.uuidMap == old(storeManager.uuidMap)
        else
          backend == WithStoreProps(old(backend), storeId, [PropStoreUuid], [Some(uuid)])
          && StoreProperty(backend, storeId, PropStoreUuid) == Some(uuid)
          && storeManager.uuidMap == Assigned(old(storeManager.uuidMap), uuid, StoreEntry(storeId))
          && (r.Ok? <==> !Conflicts(old(storeManager.uuidMap), uuid, StoreEntry(storeId)))
      ensures translationMode == old(translationMode) && transactionRunning == old(transactionRunning)
      ensures transactionSteps == old(transactionSteps) && openStoreId == old(openStoreId) && hookCalls == old(hookCalls)
      ensures storeManager.docStores == old(storeManager.docStores) && storeManager.openSessions == old(storeManager.openSessions)
      ensures storeManager.nextSessionId == old(storeManager.nextSessionId)
    {
      var stored := StoreProperty(backend, storeId, PropStoreUuid);
      if stored.Some? && stored.value != "" {
        return Err("Cannot set UUID of store. UUID is already assigned.");
      }
      var p := if storeId in backend.storeProps then backend.storeProps[storeId] else map[];
      SetPropsReads(p, [PropStoreUuid], [Some(uuid)], PropStoreUuid);
      backend := WithStoreProps(backend, storeId, [PropStoreUuid], [Some(uuid)]);
      r := storeManager.RegisterDocStoreUuid(uuid, storeId);
    }

    /** `getVersionUUID(storeId, verId)`: as for stores, with the name `storeId + "_" + verId + "_" + now`. */
    method GetVersionUuid(storeId: string, verId: VersionId, now: int, nameUuid: string -> Uuid) returns (r: Result<Uuid>)
      modifies this, storeManager
      ensures var stored := VersionProperty(old(backend), storeId, verId, PropVersionUuid);
        if stored.Some? && stored.value != "" then
          r == Ok(stored.value) && backend == old(backend) && storeManager.uuidMap == old(storeManager.uuidMap)
        else
          var u := nameUuid(storeId + "_" + verId + "_" + IntToString(now));
          var e := VersionEntry(VersionAddress(storeId, verId));
          backend == WithVersionProps(old(backend), storeId, verId, [PropVersionUuid], [Some(u)])
          && VersionProperty(backend, storeId, verId, PropVersionUuid) == Some(u)
          && storeManager.uuidMap == Assigned(old(storeManager.uuidMap), u, e)
          && (r.Ok? <==> !Conflicts(old(storeManager.uuidMap), u, e))
          && (r.Ok? ==> r.value == u)
      ensures translationMode == old(translationMode) && transactionRunning == old(transactionRunning)
      ensures transactionSteps == old(transactionSteps) && openStoreId == old(openStoreId) && hookCalls == old(hookCalls)
      ensures storeManager.docStores == old(storeManager.docStores) && storeManager.openSessions == old(storeManager.openSessions)
      ensures storeManager.nextSessionId == old(storeManager.nextSessionId)
    {
      var stored := VersionProperty(backend, storeId, verId, PropVersionUuid);
      if stored.Some? && stored.value != "" {
        return Ok(stored.value);
      }
      var u := nameUuid(storeId + "_" + verId + "_" + IntToString(now));
      var a := VersionAddress(storeId, verId);
      var p := if a in backend.versionProps then backend.versionProps[a] else map[];
      SetPropsReads(p, [PropVersionUuid], [Some(u)], PropVersionUuid);
      backend := WithVersionProps(backend, storeId, verId, [PropVersionUuid], [Some(u)]);
      var reg := storeManager.RegisterVersionUuid(u, a);
      if reg.Err? {
        return Err(reg.error);
      }
      r := Ok(u);
    }

    /** `setVersionUUID(storeId, verId, uuid)`: only a version without a UUID takes one, and it is registered. */
    method SetVersionUuid(storeId: string, verId: VersionId, uuid: Uuid) returns (r: Result<()>)
      modifies this, storeManager
      ensures var stored := VersionProperty(old(backend), storeId, verId, PropVersionUuid);
        if stored.Some? && stored.value != "" then
          r == Err("Cannot set UUID of version. UUID is already assigned.")
          && backend == old(backend) && storeManager.uuidMap == old(storeManager.uuidMap)
        else
          var e := VersionEntry(VersionAddress(storeId, verId));
          backend == WithVersionProps(old(backend), storeId, verId, [PropVersionUuid], [Some(uuid)])
          && VersionProperty(backend, storeId, verId, PropVersionUuid) == Some(uuid)
          && storeManager.uuidMap == Assigned(old(storeManager.uuidMap), uuid, e)
          && (r.Ok? <==> !Conflicts(old(storeManager.uuidMap), uuid, e))
      ensures translationMode == old(translationMode) && transactionRunning == old(transactionRunning)
      ensures transactionSteps == old(transactionSteps) && openStoreId == old(openStoreId) && hookCalls == old(hookCalls)
      ensures storeManager.docStores == old(storeManager.docStores) && storeManager.openSessions == old(storeManager.openSessions)
      ensures storeManager.nextSessionId == old(storeManager.nextSessionId)
    {
      var stored := VersionProperty(backend, storeId, verId, PropVersionUuid);
      if stored.Some? && stored.value != "" {
        return Err("Cannot set UUID of version. UUID is already assigned.");
      }
      var a := VersionAddress(storeId, verId);
      var p := if a in backend.versionProps then backend.versionProps[a] else map[];
      SetPropsReads(p, [PropVersionUuid], [Some(uuid)], PropVersionUuid);
      backend := WithVersionProps(backend, storeId, verId, [PropVersionUuid], [Some(uuid)]);
      r := storeManager.RegisterVersionUuid(uuid, a);
    }

    // ------------------------------------------------------------ deleting versions

    /**
     * `deleteVersionsRecursive(storeId, vers, progress)`: deletes each version of `vers` after its
     * sub-versions and returns every version deleted. `canceled` is the progress callback's cancel
     * flag (false without a callback); it ends the run with an error at the first deletion due.
     * `rank` witnesses that the derived-from links have no cycle.
     */
    method DeleteVersionsRecursive(storeId: string, vers: seq<VersionId>, canceled: bool,
                                   ghost rank: map<VersionId, nat>, ghost bound: nat)
      returns (r: Result<set<VersionId>>)
      requires VersionsRanked(backend, storeId, rank)
      requires forall v :: v in vers && v in rank ==> rank[v] < bound
      modifies this
      decreases bound, 1
      ensures VersionsRanked(backend, storeId, rank)
      ensures !canceled ==> r.Ok?
      ensures canceled && vers != [] ==> r == Err("Canceled by user.")
      ensures r.Ok? ==> forall v :: v in vers ==> v in r.value
      ensures r.Ok? ==> ListVersions(backend, storeId) == Without(ListVersions(old(backend), storeId), r.value)
      ensures r.Ok? ==> forall v, x :: v in vers && x in ListVersions(backend, storeId) ==> DerivedFrom(backend, storeId, x) != Some(v)
      ensures forall x :: x in ListVersions(backend, storeId) ==> x in ListVersions(old(backend), storeId)
      ensures forall x :: x in ListVersions(backend, storeId) ==> DerivedFrom(backend, storeId, x) == DerivedFrom(old(backend), storeId, x)
      ensures translationMode == old(translationMode) && transactionRunning == old(transactionRunning)
      ensures transactionSteps == old(transactionSteps) && openStoreId == old(openStoreId) && hookCalls == old(hookCalls)
    {
      var deleted: set<VersionId> := {};
      WithoutNothing(ListVersions(backend, storeId));
      var i := 0;
      while i < |vers|
        invariant 0 <= i <= |vers| && VersionsRanked(backend, storeId, rank)
        invariant DeletedSoFar(old(backend), backend, storeId, vers, i, deleted)
        invariant translationMode == old(translationMode) && transactionRunning == old(transactionRunning)
        invariant transactionSteps == old(transactionSteps) && openStoreId == old(openStoreId) && hookCalls == old(hookCalls)
        invariant canceled ==> i == 0 && deleted == {}
      {
        ghost var before := backend;
        var step := DeleteVersionStep(storeId, vers[i], deleted, canceled, rank, bound);
        if step.Err? {
          return Err(step.error);
        }
        DeletedStep(old(backend), before, backend, storeId, vers, i, deleted, step.value);
        deleted := deleted + step.value;
        i := i + 1;
      }
      forall v | v in vers
        ensures v in deleted
      {
        var k :| 0 <= k < |vers| && vers[k] == v;
      }
      r := Ok(deleted);
    }

    /**
     * One version of the loop of `deleteVersionsRecursive`: its sub-versions first, then the
     * version itself unless `deleted` already holds it. Returns the versions deleted in this step.
     */
    method DeleteVersionStep(storeId: string, vid: VersionId, deleted: set<VersionId>, canceled: bool,
                             ghost rank: map<VersionId, nat>, ghost bound: nat)
      returns (r: Result<set<VersionId>>)
      requires VersionsRanked(backend, storeId, rank)
      requires vid in rank ==> rank[vid] < bound
      modifies this
      decreases bound, 0
      ensures VersionsRanked(backend, storeId, rank)
      ensures !canceled ==> r.Ok?
      ensures canceled && vid !in deleted ==> r == Err("Canceled by user.")
      ensures r.Ok? ==> vid in deleted + r.value
      ensures r.Ok? ==> ListVersions(backend, storeId) == Without(ListVersions(old(backend), storeId), r.value)
      ensures r.Ok? ==> forall x :: x in ListVersions(backend, storeId) ==> DerivedFrom(backend, storeId, x) != Some(vid)
      ensures forall x :: x in ListVersions(backend, storeId) ==> x in ListVersions(old(backend), storeId)
      ensures forall x :: x in ListVersions(backend, storeId) ==> DerivedFrom(backend, storeId, x) == DerivedFrom(old(backend), storeId, x)
      ensures translationMode == old(translationMode) && transactionRunning == old(transactionRunning)
      ensures transactionSteps == old(transactionSteps) && openStoreId == old(openStoreId) && hookCalls == old(hookCalls)
    {
      var subs := SubVersions(backend, storeId, vid);
      var done: set<VersionId> := {};
      WithoutNothing(ListVersions(backend, storeId));
      if |subs| > 0 {
        SubVersionsRankBelow(backend, storeId, rank, vid);
        ghost var before := backend;
        var sub := DeleteVersionsRecursive(storeId, subs, canceled, rank, rank[vid]);
        if sub.Err? {
          return sub;
        }
        done := sub.value;
        forall x | x in ListVersions(backend, storeId)
          ensures DerivedFrom(backend, storeId, x) != Some(vid)
        {
          WithoutMeans(ListVersions(before, storeId), done, x);
          DerivedOnesMeans(before, storeId, ListVersions(before, storeId), Some(vid), x);
        }
      } else {
        forall x | x in ListVersions(backend, storeId)
          ensures DerivedFrom(backend, storeId, x) != Some(vid)
        {
          DerivedOnesMeans(backend, storeId, ListVersions(backend, storeId), Some(vid), x);
        }
      }
      if vid !in deleted + done {
        if canceled {
          return Err("Canceled by user.");
        }
        WithoutVersionKeeps(backend, storeId, vid);
        WithoutVersionRanked(backend, storeId, vid, rank);
        backend := WithoutVersion(backend, storeId, vid);
        WithoutTwice(ListVersions(old(backend), storeId), done, {vid});
        done := done + {vid};
      }
      r := Ok(done);
    }
  }
}
