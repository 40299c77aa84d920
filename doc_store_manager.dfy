/*
 * AbstractDocStoreManager: the UUID registry of stores and versions, the table of shared store
 * instances keyed by store and version, and the list of open sessions with their serial numbers.
 * The backend queries that fill the registry (list the stores, read a UUID, list the versions)
 * are passed in as a catalog value.
 */
module DocStoreManagers {
  import opened Wrappers
  import opened JavaText
  import opened ListenerLists
  import DocStores

  /** A UUID; only its identity matters. */
  type Uuid = string

  /** `DocVersionAddress`: a version of a store; its `equals` compares both parts. */
  datatype VersionAddress = VersionAddress(storeId: string, verId: string)

  /** A registry value: either a store id (a `String`) or a version address. */
  datatype UuidEntry = StoreEntry(storeId: string) | VersionEntry(addr: VersionAddress)

  /**
   * What the backend reports for one version: its id and its UUID, or `None` when
   * `getVersionUUID` throws for it.
   */
  datatype VersionListing = VersionListing(verId: string, uuid: Option<Uuid>)

  /**
   * What the backend reports for one store: `uuid` is `None` when `getDocStoreUUID` throws,
   * `versions` is `None` when `listVersions` throws.
   */
  datatype StoreListing = StoreListing(storeId: string, uuid: Option<Uuid>, versions: Option<seq<VersionListing>>)

  /** The versions of one store entered in order; a later put overwrites an earlier one. */
  function PutVersions(m: map<Uuid, UuidEntry>, storeId: string, vs: seq<VersionListing>): map<Uuid, UuidEntry>
    decreases |vs|
  {
    if vs == [] then m
    else
      var last := vs[|vs| - 1];
      var m' := PutVersions(m, storeId, vs[..|vs| - 1]);
      if last.uuid.Some? then m'[last.uuid.value := VersionEntry(VersionAddress(storeId, last.verId))] else m'
  }

  /** One store of `initUUIDMap`: a store whose UUID cannot be read is skipped with its versions. */
  function PutStore(m: map<Uuid, UuidEntry>, s: StoreListing): map<Uuid, UuidEntry>
  {
    if s.uuid.None? then m
    else
      var m' := m[s.uuid.value := StoreEntry(s.storeId)];
      if s.versions.Some? then PutVersions(m', s.storeId, s.versions.value) else m'
  }

  /** The registry `initUUIDMap` builds from the backend's catalog. */
  function Registry(catalog: seq<StoreListing>): map<Uuid, UuidEntry>
    decreases |catalog|
  {
    if catalog == [] then map[] else PutStore(Registry(catalog[..|catalog| - 1]), catalog[|catalog| - 1])
  }

  /** The UUIDs a store contributes: its own and those of its readable versions. */
  predicate Contributes(s: StoreListing, u: Uuid)
  {
    s.uuid == Some(u)
    || (s.uuid.Some? && s.versions.Some? && exists v :: v in s.versions.value && v.uuid == Some(u))
  }

  lemma {:induction false} PutVersionsKeys(m: map<Uuid, UuidEntry>, storeId: string, vs: seq<VersionListing>, u: Uuid)
    ensures u in PutVersions(m, storeId, vs) <==> u in m || exists v :: v in vs && v.uuid == Some(u)
    decreases |vs|
  {
    if vs != [] {
      var init := vs[..|vs| - 1];
      PutVersionsKeys(m, storeId, init, u);
      assert forall v :: v in vs <==> v in init || v == vs[|vs| - 1];
    }
  }

  /**
   * The registry holds exactly the UUIDs that some listed store contributes: a store whose UUID
   * cannot be read contributes nothing, not even its versions.
   */
  lemma {:induction false} RegistryKeys(catalog: seq<StoreListing>, u: Uuid)
    ensures u in Registry(catalog) <==> exists i :: 0 <= i < |catalog| && Contributes(catalog[i], u)
    decreases |catalog|
  {
    if catalog != [] {
      var init := catalog[..|catalog| - 1];
      var s := catalog[|catalog| - 1];
      RegistryKeys(init, u);
      if s.uuid.Some? && s.versions.Some? {
        PutVersionsKeys(Registry(init)[s.uuid.value := StoreEntry(s.storeId)], s.storeId, s.versions.value, u);
      }
      if exists i :: 0 <= i < |catalog| && Contributes(catalog[i], u) {
        var i :| 0 <= i < |catalog| && Contributes(catalog[i], u);
        if i < |init| {
          assert Contributes(init[i], u);
        }
      }
      if exists i :: 0 <= i < |init| && Contributes(init[i], u) {
        var i :| 0 <= i < |init| && Contributes(init[i], u);
        assert Contributes(catalog[i], u);
      }
    }
  }

  /** The last store of the catalog with a readable UUID is found under that UUID, unless one of its versions reuses it. */
  lemma LastStoreIsRegistered(catalog: seq<StoreListing>)
    requires catalog != [] && catalog[|catalog| - 1].uuid.Some?
    requires var s := catalog[|catalog| - 1];
      s.versions.Some? ==> forall v :: v in s.versions.value ==> v.uuid != s.uuid
    ensures var s := catalog[|catalog| - 1];
      s.uuid.value in Registry(catalog) && Registry(catalog)[s.uuid.value] == StoreEntry(s.storeId)
  {
    var s := catalog[|catalog| - 1];
    if s.versions.Some? {
      PutVersionsKeep(Registry(catalog[..|catalog| - 1])[s.uuid.value := StoreEntry(s.storeId)], s.storeId, s.versions.value, s.uuid.value);
    }
  }

  lemma {:induction false} PutVersionsKeep(m: map<Uuid, UuidEntry>, storeId: string, vs: seq<VersionListing>, u: Uuid)
    requires u in m && forall v :: v in vs ==> v.uuid != Some(u)
    ensures u in PutVersions(m, storeId, vs) && PutVersions(m, storeId, vs)[u] == m[u]
    decreases |vs|
  {
    if vs != [] {
      PutVersionsKeep(m, storeId, vs[..|vs| - 1], u);
    }
  }

  /** The numeric part of a session id and the session's open store, as the manager sees them. */
  class OpenSession {
    const serial: nat
    const sessionId: string
    const userId: string
    var storeId: Option<string>
    var verId: Option<string>

    constructor (serial: nat, userId: string)
      ensures this.serial == serial && sessionId == IntToString(serial) && this.userId == userId
      ensures storeId == None && verId == None
    {
      this.serial := serial;
      sessionId := IntToString(serial);
      this.userId := userId;
      storeId := None;
      verId := None;
    }

    /** The effect of `openDocStore` on what `getStoreId` and `getVersionId` report. */
    method OpenDocStore(storeId: string, verId: string)
      modifies this
      ensures this.storeId == Some(storeId) && this.verId == Some(verId)
    {
      this.storeId := Some(storeId);
      this.verId := Some(verId);
    }

    /** The effect of `closeDocStore`. */
    method CloseDocStore()
      modifies this
      ensures storeId == None && verId == None
    {
      storeId := None;
      verId := None;
    }
  }

  /** A session matches when each given argument equals the session's value; `None` matches anything. */
  predicate Matches(s: OpenSession, storeId: Option<string>, verId: Option<string>)
    reads s
  {
    (storeId.None? || s.storeId == storeId) && (verId.None? || s.verId == verId)
  }

  /** The user ids of the matching sessions. */
  function ConnectedUsers(q: seq<OpenSession>, storeId: Option<string>, verId: Option<string>): set<string>
    reads set s | s in q
    decreases |q|
  {
    if q == [] then {}
    else
      var last := q[|q| - 1];
      ConnectedUsers(q[..|q| - 1], storeId, verId) + (if Matches(last, storeId, verId) then {last.userId} else {})
  }

  /** A user is connected exactly when one of its sessions matches. */
  lemma {:induction false} ConnectedUsersMeans(q: seq<OpenSession>, storeId: Option<string>, verId: Option<string>, u: string)
    ensures u in ConnectedUsers(q, storeId, verId)
      <==> exists i :: 0 <= i < |q| && q[i].userId == u && Matches(q[i], storeId, verId)
    decreases |q|
  {
    if q != [] {
      var init := q[..|q| - 1];
      ConnectedUsersMeans(init, storeId, verId, u);
      if exists i :: 0 <= i < |q| && q[i].userId == u && Matches(q[i], storeId, verId) {
        var i :| 0 <= i < |q| && q[i].userId == u && Matches(q[i], storeId, verId);
        if i < |init| {
          assert init[i] == q[i];
        }
      }
      if exists i :: 0 <= i < |init| && init[i].userId == u && Matches(init[i], storeId, verId) {
        var i :| 0 <= i < |init| && init[i].userId == u && Matches(init[i], storeId, verId);
        assert q[i] == init[i];
      }
    }
  }

  /** `getStoreKey`: the store id and the version id joined by one space. */
  function StoreKey(storeId: string, verId: string): (k: string)
    ensures |k| == |storeId| + 1 + |verId|
  {
    storeId + " " + verId
  }

  /** Distinct (store, version) pairs get distinct keys as long as store ids contain no space. */
  lemma StoreKeyInjective(s1: string, v1: string, s2: string, v2: string)
    requires ' ' !in s1 && ' ' !in s2
    requires StoreKey(s1, v1) == StoreKey(s2, v2)
    ensures s1 == s2 && v1 == v2
  {
    var k := StoreKey(s1, v1);
    if |s1| < |s2| {
      SpaceInside(s1, v1, s2, v2);
      assert false;
    }
    if |s2| < |s1| {
      SpaceInside(s2, v2, s1, v1);
      assert false;
    }
    assert s1 == k[..|s1|] == s2;
    assert v1 == k[|s1| + 1..] == v2;
  }

  /** In a shorter store id's key, the space falls inside the longer store id. */
  lemma SpaceInside(s1: string, v1: string, s2: string, v2: string)
    requires |s1| < |s2| && StoreKey(s1, v1) == StoreKey(s2, v2)
    ensures s2[|s1|] == ' '
  {
    assert StoreKey(s1, v1)[|s1|] == ' ';
  }

  /** A store key is not unique without that side condition: two different pairs share a key. */
  lemma StoreKeyCollides()
    ensures StoreKey("a b", "1") == StoreKey("a", "b 1")
  {
  }

  predicate IncreasingSerials(q: seq<OpenSession>)
  {
    forall i, j :: 0 <= i < j < |q| ==> q[i].serial < q[j].serial
  }

  /** Removing one session keeps the serials increasing. */
  lemma RemoveKeepsIncreasing(q: seq<OpenSession>, s: OpenSession)
    requires IncreasingSerials(q)
    ensures IncreasingSerials(RemoveFirst(q, s))
    ensures forall x :: x in RemoveFirst(q, s) ==> x in q
  {
    var i := FirstIndex(q, s);
    if i < |q| {
      DeleteAtKeepsIncreasing(q, i);
      assert q == q[..i] + [q[i]] + q[i + 1..];
    }
  }

  /** Taking out the session at `i` keeps the serials of the others increasing. */
  lemma DeleteAtKeepsIncreasing(q: seq<OpenSession>, i: nat)
    requires IncreasingSerials(q) && i < |q|
    ensures IncreasingSerials(q[..i] + q[i + 1..])
  {
    var r := q[..i] + q[i + 1..];
    forall a, b | 0 <= a < b < |r|
      ensures r[a].serial < r[b].serial
    {
      if b < i {
        assert r[a] == q[a] && r[b] == q[b];
      } else if a < i {
        assert r[a] == q[a] && r[b] == q[b + 1];
      } else {
        assert r[a] == q[a + 1] && r[b] == q[b + 1];
      }
    }
  }

  /** Distinct session serials give distinct session id strings. */
  lemma SessionIdsDiffer(a: nat, b: nat)
    requires a != b
    ensures IntToString(a) != IntToString(b)
  {
    DigitsRoundTrip(a);
    DigitsRoundTrip(b);
  }

  /** The registry after registering `uuid` for `e`: unchanged while unbuilt or when `uuid` is taken. */
  function Assigned(reg: Option<map<Uuid, UuidEntry>>, uuid: Uuid, e: UuidEntry): Option<map<Uuid, UuidEntry>>
  {
    if reg.Some? && uuid !in reg.value then Some(reg.value[uuid := e]) else reg
  }

  /** Registering `uuid` for `e` is refused: the built registry maps `uuid` to something else. */
  predicate Conflicts(reg: Option<map<Uuid, UuidEntry>>, uuid: Uuid, e: UuidEntry)
  {
    reg.Some? && uuid in reg.value && reg.value[uuid] != e
  }

  class DocStoreManager {
    var uuidMap: Option<map<Uuid, UuidEntry>>
    var docStores: map<string, DocStores.DocStore>
    var openSessions: seq<OpenSession>
    var nextSessionId: nat

    /** Sessions are kept in connection order, and every serial has been handed out. */
    ghost predicate Valid()
      reads this
    {
      IncreasingSerials(openSessions) && forall s :: s in openSessions ==> s.serial <= nextSessionId
    }

    constructor ()
      ensures Valid() && uuidMap == None && docStores == map[] && openSessions == [] && nextSessionId == 0
    {
      uuidMap := None;
      docStores := map[];
      openSessions := [];
      nextSessionId := 0;
    }

    /** `initUUIDMap`: builds the registry from the catalog on the first call only. */
    method InitUuidMap(catalog: seq<StoreListing>)
      modifies this
      ensures old(uuidMap).Some? ==> uuidMap == old(uuidMap)
      ensures old(uuidMap).None? ==> uuidMap == Some(Registry(catalog))
      ensures docStores == old(docStores) && openSessions == old(openSessions) && nextSessionId == old(nextSessionId)
    {
      if uuidMap.Some? {
        return;
      }
      var m: map<Uuid, UuidEntry> := map[];
      var i := 0;
      while i < |catalog|
        invariant 0 <= i <= |catalog| && m == Registry(catalog[..i])
      {
        var s := catalog[i];
        assert catalog[..i + 1][..i] == catalog[..i];
        if s.uuid.Some? {
          m := m[s.uuid.value := StoreEntry(s.storeId)];
          if s.versions.Some? {
            var vs := s.versions.value;
            ghost var base := m;
            var k := 0;
            while k < |vs|
              invariant 0 <= k <= |vs| && m == PutVersions(base, s.storeId, vs[..k])
            {
              assert vs[..k + 1][..k] == vs[..k];
              if vs[k].uuid.Some? {
                m := m[vs[k].uuid.value := VersionEntry(VersionAddress(s.storeId, vs[k].verId))];
              }
              k := k + 1;
            }
            assert vs[..k] == vs;
          }
        }
        i := i + 1;
      }
      assert catalog[..i] == catalog;
      uuidMap := Some(m);
    }

    /**
     * `registerDocStoreUUID`: nothing happens while the registry is unbuilt; a new UUID is entered;
     * the same mapping again changes nothing; a UUID mapped to anything else is an error.
     */
    method RegisterDocStoreUuid(uuid: Uuid, storeId: string) returns (r: Result<()>)
      modifies this
      ensures old(uuidMap).None? ==> r.Ok? && uuidMap == None
      ensures old(uuidMap).Some? && uuid !in old(uuidMap).value ==>
        r.Ok? && uuidMap == Some(old(uuidMap).value[uuid := StoreEntry(storeId)])
      ensures old(uuidMap).Some? && uuid in old(uuidMap).value ==>
        uuidMap == old(uuidMap)
        && (r.Ok? <==> old(uuidMap).value[uuid] == StoreEntry(storeId))
        && (r.Err? ==> r.error == "Cannot reassign UUID!")
      ensures docStores == old(docStores) && openSessions == old(openSessions) && nextSessionId == old(nextSessionId)
    {
      if uuidMap.None? {
        return Ok(());
      }
      var m := uuidMap.value;
      if uuid !in m {
        uuidMap := Some(m[uuid := StoreEntry(storeId)]);
        r := Ok(());
      } else if m[uuid] != StoreEntry(storeId) {
        r := Err("Cannot reassign UUID!");
      } else {
        r := Ok(());
      }
    }

    /** `registerVersionUUID`: the same rules for a version address. */
    method RegisterVersionUuid(uuid: Uuid, addr: VersionAddress) returns (r: Result<()>)
      modifies this
      ensures old(uuidMap).None? ==> r.Ok? && uuidMap == None
      ensures old(uuidMap).Some? && uuid !in old(uuidMap).value ==>
        r.Ok? && uuidMap == Some(old(uuidMap).value[uuid := VersionEntry(addr)])
      ensures old(uuidMap).Some? && uuid in old(uuidMap).value ==>
        uuidMap == old(uuidMap)
        && (r.Ok? <==> old(uuidMap).value[uuid] == VersionEntry(addr))
        && (r.Err? ==> r.error == "Cannot reassign UUID!")
      ensures docStores == old(docStores) && openSessions == old(openSessions) && nextSessionId == old(nextSessionId)
    {
      if uuidMap.None? {
        return Ok(());
      }
      var m := uuidMap.value;
      if uuid !in m {
        uuidMap := Some(m[uuid := VersionEntry(addr)]);
        r := Ok(());
      } else if m[uuid] != VersionEntry(addr) {
        r := Err("Cannot reassign UUID!");
      } else {
        r := Ok(());
      }
    }

    /** `getDocStoreIdByUUID`: builds the registry if needed; only a store entry yields an id. */
    method GetDocStoreIdByUuid(catalog: seq<StoreListing>, uuid: Uuid) returns (r: Option<string>)
      modifies this
      ensures old(uuidMap).Some? ==> uuidMap == old(uuidMap)
      ensures old(uuidMap).None? ==> uuidMap == Some(Registry(catalog))
      ensures r.Some? <==> uuid in uuidMap.value && uuidMap.value[uuid].StoreEntry?
      ensures r.Some? ==> uuidMap.value[uuid] == StoreEntry(r.value)
      ensures docStores == old(docStores) && openSessions == old(openSessions) && nextSessionId == old(nextSessionId)
    {
      InitUuidMap(catalog);
      var m := uuidMap.value;
      r := if uuid in m && m[uuid].StoreEntry? then Some(m[uuid].storeId) else None;
    }

    /** `getVersionAddressByUUID`: builds the registry if needed; only a version entry yields an address. */
    method GetVersionAddressByUuid(catalog: seq<StoreListing>, uuid: Uuid) returns (r: Option<VersionAddress>)
      modifies this
      ensures old(uuidMap).Some? ==> uuidMap == old(uuidMap)
      ensures old(uuidMap).None? ==> uuidMap == Some(Registry(catalog))
      ensures r.Some? <==> uuid in uuidMap.value && uuidMap.value[uuid].VersionEntry?
      ensures r.Some? ==> uuidMap.value[uuid] == VersionEntry(r.value)
      ensures docStores == old(docStores) && openSessions == old(openSessions) && nextSessionId == old(nextSessionId)
    {
      InitUuidMap(catalog);
      var m := uuidMap.value;
      r := if uuid in m && m[uuid].VersionEntry? then Some(m[uuid].addr) else None;
    }

    /** `acquireStore`: the instance under the key, or a new one that is entered under it. */
    method AcquireStore(storeId: string, verId: string) returns (ds: DocStores.DocStore)
      modifies this
      ensures StoreKey(storeId, verId) in old(docStores) ==>
        ds == old(docStores)[StoreKey(storeId, verId)] && docStores == old(docStores)
      ensures StoreKey(storeId, verId) !in old(docStores) ==>
        fresh(ds) && ds.storeId == storeId && docStores == old(docStores)[StoreKey(storeId, verId) := ds]
      ensures uuidMap == old(uuidMap) && openSessions == old(openSessions) && nextSessionId == old(nextSessionId)
    {
      var key := StoreKey(storeId, verId);
      if key in docStores {
        ds := docStores[key];
      } else {
        ds := new DocStores.DocStore(storeId);
        docStores := docStores[key := ds];
      }
    }

    /** `getConnectedUsers(storeId, verId)`: the distinct users of the matching open sessions. */
    method GetConnectedUsers(storeId: Option<string>, verId: Option<string>) returns (users: set<string>)
      ensures users == ConnectedUsers(openSessions, storeId, verId)
    {
      users := {};
      var i := 0;
      while i < |openSessions|
        invariant 0 <= i <= |openSessions| && users == ConnectedUsers(openSessions[..i], storeId, verId)
      {
        var sess := openSessions[i];
        assert openSessions[..i + 1][..i] == openSessions[..i];
        if (storeId.None? || storeId == sess.storeId) && (verId.None? || verId == sess.verId) {
          users := users + {sess.userId};
        }
        i := i + 1;
      }
      assert openSessions[..i] == openSessions;
    }

    /** `releaseStore`: the instance is dropped only when no session is connected to it. */
    method ReleaseStore(storeId: string, verId: string)
      modifies this
      ensures ConnectedUsers(openSessions, Some(storeId), Some(verId)) == {} ==>
        docStores == old(docStores) - {StoreKey(storeId, verId)}
      ensures ConnectedUsers(openSessions, Some(storeId), Some(verId)) != {} ==> docStores == old(docStores)
      ensures uuidMap == old(uuidMap) && openSessions == old(openSessions) && nextSessionId == old(nextSessionId)
    {
      var users := GetConnectedUsers(Some(storeId), Some(verId));
      if |users| == 0 {
        docStores := docStores - {StoreKey(storeId, verId)};
      }
    }

    /** `destroyStoreInstance`: an error while users are connected; otherwise the instance is dropped. */
    method DestroyStoreInstance(storeId: string, verId: string) returns (r: Result<()>)
      modifies this
      ensures r.Err? <==> ConnectedUsers(openSessions, Some(storeId), Some(verId)) != {}
      ensures r.Ok? ==> docStores == old(docStores) - {StoreKey(storeId, verId)}
      ensures r.Err? ==>
        docStores == old(docStores) && r.error == "Cannot destroy store instance. Users are still connected!"
      ensures uuidMap == old(uuidMap) && openSessions == old(openSessions) && nextSessionId == old(nextSessionId)
    {
      var users := GetConnectedUsers(Some(storeId), Some(verId));
      if |users| > 0 {
        return Err("Cannot destroy store instance. Users are still connected!");
      }
      docStores := docStores - {StoreKey(storeId, verId)};
      r := Ok(());
    }

    /**
     * `destroyStoreInstances`: an error while users are connected to any version of the store;
     * otherwise every instance of that store is dropped, whatever its key.
     */
    method DestroyStoreInstances(storeId: string) returns (r: Result<()>)
      modifies this
      ensures r.Err? <==> ConnectedUsers(openSessions, Some(storeId), None) != {}
      ensures r.Ok? ==> docStores == map k | k in old(docStores) && old(docStores)[k].storeId != storeId :: old(docStores)[k]
      ensures r.Err? ==>
        docStores == old(docStores) && r.error == "Cannot destroy store instances. Users are still connected!"
      ensures uuidMap == old(uuidMap) && openSessions == old(openSessions) && nextSessionId == old(nextSessionId)
    {
      var users := GetConnectedUsers(Some(storeId), None);
      if |users| > 0 {
        return Err("Cannot destroy store instances. Users are still connected!");
      }
      DeleteStores(storeId);
      r := Ok(());
    }

    /** `deleteStores`: removes every instance whose store id matches. */
    method DeleteStores(storeId: string)
      modifies this
      ensures docStores == map k | k in old(docStores) && old(docStores)[k].storeId != storeId :: old(docStores)[k]
      ensures uuidMap == old(uuidMap) && openSessions == old(openSessions) && nextSessionId == old(nextSessionId)
    {
      var keys := docStores.Keys;
      ghost var all := docStores;
      while keys != {}
        invariant keys <= all.Keys && docStores.Keys <= all.Keys
        invariant forall k :: k in docStores ==> docStores[k] == all[k]
        invariant forall k :: k in all && k !in keys ==> (k in docStores <==> all[k].storeId != storeId)
        invariant forall k :: k in keys ==> k in docStores
        invariant uuidMap == old(uuidMap) && openSessions == old(openSessions) && nextSessionId == old(nextSessionId)
        decreases |keys|
      {
        var k :| k in keys;
        if docStores[k].storeId == storeId {
          docStores := docStores - {k};
        }
        keys := keys - {k};
      }
      ghost var kept := map k | k in all && all[k].storeId != storeId :: all[k];
      assert docStores.Keys == kept.Keys;
    }

    /** `connect`: the new session gets the next serial, above every serial handed out so far. */
    method Connect(userId: string) returns (sess: OpenSession)
      requires Valid()
      modifies this
      ensures Valid() && fresh(sess)
      ensures nextSessionId == old(nextSessionId) + 1 && sess.serial == nextSessionId
      ensures sess.sessionId == IntToString(sess.serial) && sess.userId == userId
      ensures sess.storeId == None && sess.verId == None
      ensures forall s :: s in old(openSessions) ==> s.serial < sess.serial
      ensures openSessions == old(openSessions) + [sess]
      ensures uuidMap == old(uuidMap) && docStores == old(docStores)
    {
      nextSessionId := nextSessionId + 1;
      sess := new OpenSession(nextSessionId, userId);
      openSessions := openSessions + [sess];
    }

    /** `destroySession`: removes the session from the open sessions. */
    method DestroySession(sess: OpenSession)
      requires Valid()
      modifies this
      ensures Valid() && openSessions == RemoveFirst(old(openSessions), sess)
      ensures uuidMap == old(uuidMap) && docStores == old(docStores) && nextSessionId == old(nextSessionId)
    {
      RemoveKeepsIncreasing(openSessions, sess);
      openSessions := RemoveFirst(openSessions, sess);
    }
  }
}
