/*
 * The walk of `copyVersionsRecursive` over the version tree of a source store, seen as the calls
 * it makes on the target side: every attempt at copying a version, the deletion of a failed copy
 * before the next attempt, the verification of a copied version and every finished progress step.
 * Whether an attempt fails (and with which message) and the state of the user's cancel flag are
 * not decided by this code: they are parameters.
 */
module CopyWalk {
  import opened Wrappers
  import opened VersionStores
  import opened SyncRecursive
  import opened DocStoreSessions

  /** The most attempts at copying one version (`MAX_LOOPS`). */
  const MaxLoops := 3

  datatype CopyEvent =
    | Attempt(verId: VersionId, loop: nat)   // `copyVersion`, the `loop`-th time for this version
    | DeleteCopy(verId: VersionId)           // `deleteVersion` of a half-copied version
    | Verify(verId: VersionId)               // `verifyVersion` of a copied version
    | StepDone                               // `progress.stepFinished()`

  /** `fails(v, k)`: the error of the `k`-th attempt at copying `v`, or nothing when it succeeds. */
  type Failures = (VersionId, nat) -> Option<string>

  /** `canceled(n)`: the cancel flag as the walk reads it after `n` calls. */
  type CancelFlag = nat -> bool

  // ---------------------------------------------------------------- the retry loop

  /** Attempt `loop` at copying `v`, after the deletion of the failed copy when it is a retry. */
  function AttemptCalls(v: VersionId, loop: nat): (ev: seq<CopyEvent>)
    ensures |ev| == if loop > 1 then 2 else 1
    ensures ev[|ev| - 1] == Attempt(v, loop)
  {
    if loop > 1 then [DeleteCopy(v), Attempt(v, loop)] else [Attempt(v, loop)]
  }

  /** The calls of attempts 1 to `k` at copying `v`. */
  function Attempts(v: VersionId, k: nat): (e: seq<CopyEvent>)
    ensures |e| == if k == 0 then 0 else 2 * k - 1
    ensures k > 0 ==> e[|e| - 1] == Attempt(v, k)
  {
    if k == 0 then [] else Attempts(v, k - 1) + AttemptCalls(v, k)
  }

  /** The versions of the trees below `verIds`, `verIds` included. */
  ghost function FamilyAll(b: Backend, storeId: string, verIds: seq<VersionId>, rank: map<VersionId, nat>, bound: nat): set<VersionId>
    requires VersionsRanked(b, storeId, rank)
    requires forall v :: v in verIds && v in rank ==> rank[v] < bound
    decreases bound, |verIds|, 1
  {
    if verIds == [] then {}
    else FamilyAll(b, storeId, verIds[..|verIds| - 1], rank, bound) + FamilyOne(b, storeId, verIds[|verIds| - 1], rank, bound)
  }

  ghost function FamilyOne(b: Backend, storeId: string, v: VersionId, rank: map<VersionId, nat>, bound: nat): set<VersionId>
    requires VersionsRanked(b, storeId, rank)
    requires v in rank ==> rank[v] < bound
    decreases bound, 0, 0
  {
    var subs := SubVersions(b, storeId, v);
    if subs == [] then {v}
    else
      SubVersionsRankBelow(b, storeId, rank, v);
      {v} + FamilyAll(b, storeId, subs, rank, rank[v])
  }

  // ---------------------------------------------------------------- what a walk promises

  /** Some attempt at copying `v` among `events` succeeded. */
  ghost predicate Copied(events: seq<CopyEvent>, v: VersionId, fails: Failures)
  {
    exists i :: 0 <= i < |events| && events[i].Attempt? && events[i].verId == v && fails(v, events[i].loop).None?
  }

  /** Every version of `vs` that is not skipped was copied, and verified when `verify` asks for it. */
  ghost predicate AllCopied(events: seq<CopyEvent>, vs: set<VersionId>, skip: set<VersionId>, verify: bool, fails: Failures)
  {
    forall v :: v in vs && v !in skip ==> Copied(events, v, fails) && (verify ==> Verify(v) in events)
  }

  /**
   * How a walk may fail after `end` calls: canceled by the user, or with the error of a failed
   * attempt that is its last call, made as the last attempt allowed or with the cancel flag set.
   */
  ghost predicate FailedAsAllowed(events: seq<CopyEvent>, error: string, end: nat, fails: Failures, canceled: CancelFlag)
  {
    error == CanceledError
    || (events != [] && events[|events| - 1].Attempt?
        && fails(events[|events| - 1].verId, events[|events| - 1].loop) == Some(error)
        && (events[|events| - 1].loop == MaxLoops || canceled(end)))
  }

  lemma AllCopiedAppend(a: seq<CopyEvent>, b: seq<CopyEvent>, va: set<VersionId>, vb: set<VersionId>,
                        skip: set<VersionId>, verify: bool, fails: Failures)
    requires AllCopied(a, va, skip, verify, fails) && AllCopied(b, vb, skip, verify, fails)
    ensures AllCopied(a + b, va + vb, skip, verify, fails)
  {
    forall v | v in va + vb && v !in skip
      ensures Copied(a + b, v, fails) && (verify ==> Verify(v) in a + b)
    {
      if v in va {
        var i :| 0 <= i < |a| && a[i].Attempt? && a[i].verId == v && fails(v, a[i].loop).None?;
        assert (a + b)[i] == a[i];
      } else {
        var i :| 0 <= i < |b| && b[i].Attempt? && b[i].verId == v && fails(v, b[i].loop).None?;
        assert (a + b)[|a| + i] == b[i];
      }
    }
  }

  lemma FailedAsAllowedAfter(a: seq<CopyEvent>, b: seq<CopyEvent>, error: string, end: nat, fails: Failures, canceled: CancelFlag)
    requires FailedAsAllowed(b, error, end, fails, canceled)
    ensures FailedAsAllowed(a + b, error, end, fails, canceled)
  {
    if error != CanceledError {
      assert (a + b)[|a + b| - 1] == b[|b| - 1];
    }
  }

  // ---------------------------------------------------------------- the walk

  /**
   * `copyVersionsRecursive(..., verIds, skipVerIds, ..., progress, verify)` after `n` calls: the
   * calls it makes and its outcome. `rank` witnesses that the derived-from links have no cycle.
   */
  method CopyVersionsRecursive(source: DocStoreSession, storeId: string, verIds: seq<VersionId>, skip: set<VersionId>,
                               verify: bool, n: nat, fails: Failures, canceled: CancelFlag,
                               ghost rank: map<VersionId, nat>, ghost bound: nat)
    returns (events: seq<CopyEvent>, r: Result<()>)
    requires VersionsRanked(source.backend, storeId, rank)
    requires forall v :: v in verIds && v in rank ==> rank[v] < bound
    decreases bound, |verIds|, 1
    ensures Orderly(events, skip)
    ensures r.Ok? ==> AllCopied(events, FamilyAll(source.backend, storeId, verIds, rank, bound), skip, verify, fails)
    ensures r.Err? ==> FailedAsAllowed(events, r.error, n + |events|, fails, canceled)
    ensures canceled(n) && verIds != [] ==> events == [] && r == Err(CanceledError)
  {
    ghost var b := source.backend;
    events := [];
    var i := 0;
    while i < |verIds|
      invariant 0 <= i <= |verIds|
      invariant Orderly(events, skip)
      invariant AllCopied(events, FamilyAll(b, storeId, verIds[..i], rank, bound), skip, verify, fails)
      invariant canceled(n) ==> i == 0 && events == []
    {
      var ev, res := CopyVersionAndSubs(source, storeId, verIds[i], skip, verify, n + |events|, fails, canceled, rank, bound);
      OrderlyAppend(events, ev, skip);
      if res.Err? {
        FailedAsAllowedAfter(events, ev, res.error, n + |events| + |ev|, fails, canceled);
        return events + ev, res;
      }
      assert verIds[..i + 1][..i] == verIds[..i];
      AllCopiedAppend(events, ev, FamilyAll(b, storeId, verIds[..i], rank, bound),
                      FamilyOne(b, storeId, verIds[i], rank, bound), skip, verify, fails);
      events := events + ev;
      i := i + 1;
    }
    assert verIds[..i] == verIds;
    r := Ok(());
  }

  /** One element of the loop of `copyVersionsRecursive`: the version, then the walk over its sub-versions. */
  method CopyVersionAndSubs(source: DocStoreSession, storeId: string, v: VersionId, skip: set<VersionId>,
                            verify: bool, n: nat, fails: Failures, canceled: CancelFlag,
                            ghost rank: map<VersionId, nat>, ghost bound: nat)
    returns (events: seq<CopyEvent>, r: Result<()>)
    requires VersionsRanked(source.backend, storeId, rank)
    requires v in rank ==> rank[v] < bound
    decreases bound, 0, 0
    ensures Orderly(events, skip)
    ensures r.Ok? ==> AllCopied(events, FamilyOne(source.backend, storeId, v, rank, bound), skip, verify, fails)
    ensures r.Err? ==> FailedAsAllowed(events, r.error, n + |events|, fails, canceled)
    ensures canceled(n) ==> events == [] && r == Err(CanceledError)
  {
    events, r := VisitVersion(v, skip, verify, n, fails, canceled);
    if r.Err? {
      return;
    }
    var subs := SubVersions(source.backend, storeId, v);
    if subs != [] {
      SubVersionsRankBelow(source.backend, storeId, rank, v);
      var more, res := CopyVersionsRecursive(source, storeId, subs, skip, verify, n + |events|, fails, canceled, rank, rank[v]);
      OrderlyAppend(events, more, skip);
      if res.Err? {
        FailedAsAllowedAfter(events, more, res.error, n + |events| + |more|, fails, canceled);
      } else {
        AllCopiedAppend(events, more, {v}, FamilyAll(source.backend, storeId, subs, rank, rank[v]), skip, verify, fails);
      }
      events, r := events + more, res;
    }
  }

  /** The copy of one version, unless skipped, and its verification when asked for, between cancel checks. */
  method VisitVersion(v: VersionId, skip: set<VersionId>, verify: bool, n: nat, fails: Failures, canceled: CancelFlag)
    returns (events: seq<CopyEvent>, r: Result<()>)
    ensures canceled(n) ==> events == [] && r == Err(CanceledError)
    ensures !canceled(n) && v in skip ==> events == [] && r == Ok(())
    ensures Orderly(events, skip)
    ensures r.Ok? ==> AllCopied(events, {v}, skip, verify, fails)
    ensures r.Err? ==> FailedAsAllowed(events, r.error, n + |events|, fails, canceled)
  {
    events, r := [], Ok(());
    if canceled(n) {
      return [], Err(CanceledError);
    }
    if v !in skip {
      ghost var k;
      events, r, k := CopyWithRetries(v, n, fails, canceled);
      AttemptsOrderly(v, k, skip);
      if r.Err? {
        return;
      }
      ghost var copied := events;
      assert copied[|copied| - 1] == Attempt(v, k);
      events := events + [StepDone];
      OrderlyAppend(copied, [StepDone], skip);
      if canceled(n + |events|) {
        return events, Err(CanceledError);
      }
      if verify {
        OrderlyAppend(events, [Verify(v), StepDone], skip);
        events := events + [Verify(v), StepDone];
        if canceled(n + |events|) {
          return events, Err(CanceledError);
        }
      }
      assert events[|copied| - 1] == copied[|copied| - 1];
    }
  }

  /**
   * The retry loop of one version: attempts 1 to `k`, each retry deleting the failed copy first.
   * Every attempt before `k` failed and was retried because it was not the last one allowed and
   * the cancel flag was clear; the loop succeeds iff attempt `k` does, and otherwise fails with
   * attempt `k`'s error, `k` being the last attempt allowed or the cancel flag being set.
   */
  method CopyWithRetries(v: VersionId, n: nat, fails: Failures, canceled: CancelFlag)
    returns (events: seq<CopyEvent>, r: Result<()>, ghost k: nat)
    ensures 1 <= k <= MaxLoops && events == Attempts(v, k)
    ensures forall j :: 1 <= j < k ==> fails(v, j).Some? && !canceled(n + |Attempts(v, j)|)
    ensures r.Ok? <==> fails(v, k).None?
    ensures r.Err? ==> fails(v, k) == Some(r.error) && (k == MaxLoops || canceled(n + |events|))
  {
    var loop := 0;
    var failed := false;
    events := [];
    while true
      invariant 0 <= loop < MaxLoops && failed == (loop > 0)
      invariant events == Attempts(v, loop)
      invariant forall j :: 1 <= j <= loop ==> fails(v, j).Some? && !canceled(n + |Attempts(v, j)|)
      decreases MaxLoops - loop
    {
      loop := loop + 1;
      if failed {
        events := events + [DeleteCopy(v)];
      }
      events := events + [Attempt(v, loop)];
      var outcome := fails(v, loop);
      if outcome.None? {
        return events, Ok(()), loop;
      }
      if loop >= MaxLoops || canceled(n + |events|) {
        return events, Err(outcome.value), loop;
      }
      failed := true;
    }
  }

  /** The attempts at copying a version that is not skipped are well formed. */
  lemma {:induction false} AttemptsOrderly(v: VersionId, k: nat, skip: set<VersionId>)
    requires k <= MaxLoops && v !in skip
    ensures Orderly(Attempts(v, k), skip)
  {
    if k > 0 {
      AttemptsOrderly(v, k - 1, skip);
      OrderlyAppend(Attempts(v, k - 1), AttemptCalls(v, k), skip);
    }
  }

  /**
   * The calls are well formed: every attempt is number 1 to `MaxLoops`, every attempt after the
   * first comes right after the deletion of the same version, and no call names a skipped version.
   */
  ghost predicate Orderly(events: seq<CopyEvent>, skip: set<VersionId>)
  {
    (forall i :: 0 <= i < |events| && events[i].Attempt? ==> 1 <= events[i].loop <= MaxLoops)
    && (|events| > 0 && events[0].Attempt? ==> events[0].loop == 1)
    && (forall i, j :: 0 <= i && j == i + 1 && j < |events| && events[j].Attempt? && events[j].loop > 1 ==>
          events[i] == DeleteCopy(events[j].verId))
    && (forall i :: 0 <= i < |events| && !events[i].StepDone? ==> events[i].verId !in skip)
  }

  lemma OrderlyAppend(a: seq<CopyEvent>, b: seq<CopyEvent>, skip: set<VersionId>)
    requires Orderly(a, skip) && Orderly(b, skip)
    ensures Orderly(a + b, skip)
  {
    var e := a + b;
    forall i | 0 <= i < |e|
      ensures e[i] == if i < |a| then a[i] else b[i - |a|]
    {
    }
    forall i, j | 0 <= i && j == i + 1 && j < |e| && e[j].Attempt? && e[j].loop > 1
      ensures e[i] == DeleteCopy(e[j].verId)
    {
      if j < |a| {
        assert e[i] == a[i] && e[j] == a[j];
      } else if j > |a| {
        assert e[i] == b[i - |a|] && e[j] == b[j - |a|];
      }
    }
  }
}
