/*
 * The verification pass of a store copy (`verifyVersion` and its helpers): once a version is
 * copied, the source and target node trees are walked in pairs and every difference found is
 * counted as a verification error, and the version properties of both stores are compared. A
 * reference tally says how many errors and visited nodes the walk reports; lemmas show that a
 * tree compared with itself reports no error and visits exactly its own nodes.
 */
module VersionVerify {
  import opened Wrappers
  import opened JavaText
  import opened VersionStores
  import opened DocNodes
  import opened NodeSync
  import opened DocStoreSessions
  import opened ProgressCallbacks
  import opened SyncRecursive
  import opened VersionCopy
  import opened DocStoreManagers

  /** `VERIFY_PROGRESS_INCREMENT`: one progress step per this many verified nodes. */
  const VerifyProgressIncrement := 25

  // ------------------------------------------------------------ progress, as the pass uses it

  /** `progress.startWork(steps)`: one more level of work is open. */
  method OpenWork(progress: ProgressCallback, steps: int)
    requires progress.Valid() && IsJavaInt(steps)
    modifies progress, progress.stepsTotal, progress.stepsFinished
    ensures progress.Valid() && progress.workLevel == old(progress.workLevel) + 1 && progress.cancelFlag == old(progress.cancelFlag)
    ensures progress.stepsTotal == old(progress.stepsTotal) || fresh(progress.stepsTotal)
    ensures progress.stepsFinished == old(progress.stepsFinished) || fresh(progress.stepsFinished)
  {
    progress.StartWork(steps);
  }

  /** `progress.finishWork()`: the level opened last is closed. */
  method CloseWork(progress: ProgressCallback)
    requires progress.Valid() && progress.workLevel >= 0
    modifies progress, progress.stepsFinished
    ensures progress.Valid() && progress.workLevel == old(progress.workLevel) - 1 && progress.cancelFlag == old(progress.cancelFlag)
    ensures progress.stepsTotal == old(progress.stepsTotal) && progress.stepsFinished == old(progress.stepsFinished)
  {
    progress.FinishWork();
  }

  /** `progress.stepFinished()`: one more step of the current level. */
  method Step(progress: ProgressCallback)
    requires progress.Valid()
    modifies progress, progress.stepsFinished
    ensures progress.Valid() && progress.Unmoved()
  {
    progress.StepFinished();
  }

  // ------------------------------------------------------------ what a node shows

  /** `getAlias()`: the first alias, if the node has any. */
  function Alias(n: Node): (r: Option<string>)
    ensures r.Some? <==> n.aliases != []
    ensures r.Some? ==> r.value in n.aliases
  {
    if n.aliases == [] then None else Some(n.aliases[0])
  }

  /** `getContentLength()` in translation mode `mode`: the length of the content shown, 0 without one. */
  function ContentLength(n: Node, mode: Lang): nat
  {
    var c := InMode(n.content, mode);
    if c.Some? then |c.value| else 0
  }

  /** `getAttributes()` in translation mode `mode`: the original attributes overlaid with the translated ones. */
  function AttributesInMode(n: Node, mode: Lang): (r: map<string, string>)
    ensures forall name :: Lookup(r, name) == AttributeInMode(n, name, mode)
  {
    Attributes(n, None) + Attributes(n, mode)
  }

  // ------------------------------------------------------------ comparing two maps

  /** The names among `names` that the target holds with a value the source does not hold under that name. */
  function Differing(names: set<string>, src: map<string, string>, tar: map<string, string>): set<string>
  {
    set name | name in names && name in tar && Lookup(src, name) != Some(tar[name])
  }

  /** The names among `names` that `vals` holds with a value other than the empty string. */
  function NonEmpty(names: set<string>, vals: map<string, string>): set<string>
  {
    set name | name in names && name in vals && vals[name] != ""
  }

  /**
   * The errors of comparing a target map with its source: each differing target entry, and each
   * source entry missing from the target unless its value is empty (the copy drops those).
   */
  function MapErrors(src: map<string, string>, tar: map<string, string>): nat
  {
    |Differing(tar.Keys, src, tar)| + |NonEmpty(src.Keys - tar.Keys, src)|
  }

  /** The target holds exactly the source entries, apart from source entries with an empty value. */
  predicate Agrees(src: map<string, string>, tar: map<string, string>)
  {
    && (forall name :: name in tar ==> name in src && src[name] == tar[name])
    && (forall name :: name in src && name !in tar ==> src[name] == "")
  }

  /** A map comparison reports no error exactly when the maps agree. */
  lemma MapErrorsZero(src: map<string, string>, tar: map<string, string>)
    ensures MapErrors(src, tar) == 0 <==> Agrees(src, tar)
  {
    if Agrees(src, tar) {
      assert Differing(tar.Keys, src, tar) == {};
      assert NonEmpty(src.Keys - tar.Keys, src) == {};
    } else if exists name :: name in tar && !(name in src && src[name] == tar[name]) {
      var name :| name in tar && !(name in src && src[name] == tar[name]);
      assert name in Differing(tar.Keys, src, tar);
    } else {
      var name :| name in src && name !in tar && src[name] != "";
      assert name in NonEmpty(src.Keys - tar.Keys, src);
    }
  }

  /** One more name checked adds one differing name exactly when its values differ. */
  lemma DifferingStep(names: set<string>, x: string, src: map<string, string>, tar: map<string, string>)
    requires x !in names && x in tar
    ensures |Differing(names + {x}, src, tar)| == |Differing(names, src, tar)| + Count(Lookup(src, x) != Some(tar[x]))
  {
    if Lookup(src, x) != Some(tar[x]) {
      assert Differing(names + {x}, src, tar) == Differing(names, src, tar) + {x};
    } else {
      assert Differing(names + {x}, src, tar) == Differing(names, src, tar);
    }
  }

  /** One more name checked adds one non-empty name exactly when its value is there and not empty. */
  lemma NonEmptyStep(names: set<string>, x: string, vals: map<string, string>)
    requires x !in names
    ensures |NonEmpty(names + {x}, vals)| == |NonEmpty(names, vals)| + Count(x in vals && vals[x] != "")
  {
    if x in vals && vals[x] != "" {
      assert NonEmpty(names + {x}, vals) == NonEmpty(names, vals) + {x};
    } else {
      assert NonEmpty(names + {x}, vals) == NonEmpty(names, vals);
    }
  }

  /**
   * The loop over the target entries in `verifyNodeAttribs` and `verifyVersionProperties`: one
   * error for each entry that the source does not hold with the same value.
   */
  method CountDiffering(src: map<string, string>, tar: map<string, string>, errors: nat) returns (errors': nat)
    ensures errors' == errors + |Differing(tar.Keys, src, tar)|
  {
    var rest := tar.Keys;
    ghost var seen: set<string> := {};
    errors' := errors;
    while rest != {}
      invariant rest !! seen && rest + seen == tar.Keys
      invariant errors' == errors + |Differing(seen, src, tar)|
      decreases |rest|
    {
      var name :| name in rest;
      DifferingStep(seen, name, src, tar);
      var srcVal := Lookup(src, name);
      if srcVal != Some(tar[name]) {
        errors' := errors' + 1;
      }
      rest := rest - {name};
      seen := seen + {name};
    }
  }

  /**
   * The loop over the source entries the target lacks: one error for each whose value is not
   * empty (an empty one is only noted as removed).
   */
  method CountNonEmpty(names: set<string>, vals: map<string, string>, errors: nat) returns (errors': nat)
    ensures errors' == errors + |NonEmpty(names, vals)|
  {
    var rest := names;
    ghost var seen: set<string> := {};
    errors' := errors;
    while rest != {}
      invariant rest !! seen && rest + seen == names
      invariant errors' == errors + |NonEmpty(seen, vals)|
      decreases |rest|
    {
      var name :| name in rest;
      NonEmptyStep(seen, name, vals);
      var value := Lookup(vals, name);
      if value.Some? && value.value != "" {
        errors' := errors' + 1;
      }
      rest := rest - {name};
      seen := seen + {name};
    }
  }

  /**
   * `verifyNodeAttribs`: the target attributes are compared with the source attributes, which the
   * first loop removes as it meets them; what is left of the source is then checked.
   */
  method VerifyNodeAttribs(srcAtts: map<string, string>, tarAtts: map<string, string>, errors: nat) returns (errors': nat)
    ensures errors' == errors + MapErrors(srcAtts, tarAtts)
    ensures errors' == errors <==> Agrees(srcAtts, tarAtts)
  {
    errors' := CountDiffering(srcAtts, tarAtts, errors);
    var left := srcAtts - tarAtts.Keys;
    errors' := CountNonEmpty(left.Keys, left, errors');
    assert NonEmpty(left.Keys, left) == NonEmpty(srcAtts.Keys - tarAtts.Keys, srcAtts);
    MapErrorsZero(srcAtts, tarAtts);
  }

  // ------------------------------------------------------------ one node

  /**
   * The errors `verifyVersionNode` counts for a node itself: the identity checks, and with
   * `extended` the title, attribute and content checks, all read in translation mode `mode`.
   */
  function NodeErrors(s: Node, t: Node, sid: string, tid: string, mode: Lang, extended: bool): nat
  {
    IdentityErrors(s, t, sid, tid) + if extended then ExtendedErrors(s, t, mode) else 0
  }

  /** A different id, node type, alias or alias list. */
  function IdentityErrors(s: Node, t: Node, sid: string, tid: string): nat
  {
    Count(sid != tid) + Count(s.kind != t.kind) + Count(Alias(s) != Alias(t)) + Count(s.aliases != t.aliases)
  }

  /** A different title, the attribute errors, and for two content nodes the content errors. */
  function ExtendedErrors(s: Node, t: Node, mode: Lang): nat
  {
    Count(InMode(s.titles, mode) != InMode(t.titles, mode))
    + MapErrors(AttributesInMode(s, mode), AttributesInMode(t, mode))
    + if IsContent(s.kind) && IsContent(t.kind) then ContentErrors(s, t, mode) else 0
  }

  /** A different content length, content type or file extension. */
  function ContentErrors(s: Node, t: Node, mode: Lang): nat
  {
    Count(ContentLength(s, mode) != ContentLength(t, mode))
    + Count(InMode(s.contentType, mode) != InMode(t.contentType, mode))
    + Count(InMode(s.fileExt, mode) != InMode(t.fileExt, mode))
  }

  /**
   * A node reports no error exactly when id, type and aliases match and, with `extended`, the
   * title matches, the attributes agree and two content nodes match in length, type and extension.
   */
  lemma NodeErrorsZero(s: Node, t: Node, sid: string, tid: string, mode: Lang, extended: bool)
    ensures NodeErrors(s, t, sid, tid, mode, extended) == 0 <==>
      && sid == tid && s.kind == t.kind && s.aliases == t.aliases
      && (extended ==> ExtendedAgree(s, t, mode))
  {
    if extended {
      ExtendedErrorsZero(s, t, mode);
    }
  }

  /** What the extended checks require of two nodes. */
  predicate ExtendedAgree(s: Node, t: Node, mode: Lang)
  {
    && InMode(s.titles, mode) == InMode(t.titles, mode)
    && Agrees(AttributesInMode(s, mode), AttributesInMode(t, mode))
    && (IsContent(s.kind) && IsContent(t.kind) ==>
      && ContentLength(s, mode) == ContentLength(t, mode)
      && InMode(s.contentType, mode) == InMode(t.contentType, mode)
      && InMode(s.fileExt, mode) == InMode(t.fileExt, mode))
  }

  lemma ExtendedErrorsZero(s: Node, t: Node, mode: Lang)
    ensures ExtendedErrors(s, t, mode) == 0 <==> ExtendedAgree(s, t, mode)
  {
    MapErrorsZero(AttributesInMode(s, mode), AttributesInMode(t, mode));
  }

  /** The checks of `verifyVersionNode` on the node itself, each adding one error when it fails. */
  method CheckNode(s: Node, t: Node, sid: string, tid: string, mode: Lang, extended: bool, errors: nat) returns (errors': nat)
    ensures errors' == errors + NodeErrors(s, t, sid, tid, mode, extended)
  {
    errors' := CheckIdentity(s, t, sid, tid, errors);
    if extended {
      errors' := CheckExtended(s, t, mode, errors');
    }
  }

  method CheckIdentity(s: Node, t: Node, sid: string, tid: string, errors: nat) returns (errors': nat)
    ensures errors' == errors + IdentityErrors(s, t, sid, tid)
  {
    errors' := errors;
    if sid != tid {
      errors' := errors' + 1;
    }
    if s.kind != t.kind {
      errors' := errors' + 1;
    }
    if Alias(s) != Alias(t) {
      errors' := errors' + 1;
    }
    if s.aliases != t.aliases {
      errors' := errors' + 1;
    }
  }

  method CheckExtended(s: Node, t: Node, mode: Lang, errors: nat) returns (errors': nat)
    ensures errors' == errors + ExtendedErrors(s, t, mode)
  {
    errors' := errors;
    if InMode(s.titles, mode) != InMode(t.titles, mode) {
      errors' := errors' + 1;
    }
    errors' := VerifyNodeAttribs(AttributesInMode(s, mode), AttributesInMode(t, mode), errors');
    if IsContent(s.kind) && IsContent(t.kind) {
      errors' := CheckContent(s, t, mode, errors');
    }
  }

  method CheckContent(s: Node, t: Node, mode: Lang, errors: nat) returns (errors': nat)
    ensures errors' == errors + ContentErrors(s, t, mode)
  {
    errors' := errors;
    if ContentLength(s, mode) != ContentLength(t, mode) {
      errors' := errors' + 1;
    }
    if InMode(s.contentType, mode) != InMode(t.contentType, mode) {
      errors' := errors' + 1;
    }
    if InMode(s.fileExt, mode) != InMode(t.fileExt, mode) {
      errors' := errors' + 1;
    }
  }

  // ------------------------------------------------------------ the tree walk

  /** The errors counted and the nodes visited by a walk. */
  datatype Tally = Tally(errors: nat, nodes: nat)

  function Add(a: Tally, b: Tally): Tally
  {
    Tally(a.errors + b.errors, a.nodes + b.nodes)
  }

  /** The source and target trees of a walk: two forests, the source one ranked. */
  ghost predicate Walkable(sn: map<string, Node>, sk: Kids, rank: map<string, nat>, tn: map<string, Node>, tk: Kids)
  {
    Forest(sn, sk) && Ranked(sk, rank) && Forest(tn, tk)
  }

  /**
   * What `verifyVersionNode` reports for the source subtree of `sid` against the target node
   * `tid`: the node's own errors, and for two groups a child-count error when the child lists
   * differ in length and the tallies of the children paired in order up to the shorter list.
   * Every node paired is visited once.
   */
  ghost function Check(sn: map<string, Node>, sk: Kids, rank: map<string, nat>, tn: map<string, Node>, tk: Kids,
                       sid: string, tid: string, mode: Lang, extended: bool): Tally
    requires Walkable(sn, sk, rank, tn, tk) && sid in sn && sid in rank && tid in tn
    decreases rank[sid], 1
  {
    var own := Tally(NodeErrors(sn[sid], tn[tid], sid, tid, mode, extended), 1);
    if sn[sid].kind == Group && tn[tid].kind == Group then
      var n := |ChildrenOf(sk, sid)|;
      var m := |ChildrenOf(tk, tid)|;
      Add(Tally(own.errors + Count(n != m), 1), ChildChecks(sn, sk, rank, tn, tk, sid, tid, mode, extended, Min(n, m)))
    else own
  }

  function Min(a: nat, b: nat): nat
  {
    if a < b then a else b
  }

  /** The tallies of the first `k` child pairs of `sid` and `tid`. */
  ghost function ChildChecks(sn: map<string, Node>, sk: Kids, rank: map<string, nat>, tn: map<string, Node>, tk: Kids,
                             sid: string, tid: string, mode: Lang, extended: bool, k: nat): Tally
    requires Walkable(sn, sk, rank, tn, tk) && sid in sn && sid in rank && tid in tn
    requires k <= |ChildrenOf(sk, sid)| && k <= |ChildrenOf(tk, tid)|
    decreases rank[sid], 0, k
  {
    if k == 0 then Tally(0, 0)
    else
      var c := ChildrenOf(sk, sid)[k - 1];
      var d := ChildrenOf(tk, tid)[k - 1];
      Add(ChildChecks(sn, sk, rank, tn, tk, sid, tid, mode, extended, k - 1), Check(sn, sk, rank, tn, tk, c, d, mode, extended))
  }

  /** A tree compared with itself reports no error and visits every node of it once. */
  lemma {:induction false} CheckSelf(sn: map<string, Node>, sk: Kids, rank: map<string, nat>, sid: string, mode: Lang, extended: bool)
    requires Walkable(sn, sk, rank, sn, sk) && sid in sn && sid in rank
    ensures Check(sn, sk, rank, sn, sk, sid, sid, mode, extended) == Tally(0, Size(sk, rank, sid))
    decreases rank[sid], 1
  {
    NodeErrorsZero(sn[sid], sn[sid], sid, sid, mode, extended);
    if sn[sid].kind == Group {
      var S := ChildrenOf(sk, sid);
      ChildChecksSelf(sn, sk, rank, sid, mode, extended, |S|);
      assert S[..|S|] == S;
    } else {
      LeafSize(sn, sk, rank, sid);
    }
  }

  lemma {:induction false} ChildChecksSelf(sn: map<string, Node>, sk: Kids, rank: map<string, nat>, sid: string,
                                           mode: Lang, extended: bool, k: nat)
    requires Walkable(sn, sk, rank, sn, sk) && sid in sn && sid in rank && k <= |ChildrenOf(sk, sid)|
    ensures ChildrenRankedBelow(sk, rank, sid)
    ensures ChildChecks(sn, sk, rank, sn, sk, sid, sid, mode, extended, k) ==
      Tally(0, SizeOfAll(sk, rank, sid, ChildrenOf(sk, sid)[..k]))
    decreases rank[sid], 0, k
  {
    var S := ChildrenOf(sk, sid);
    if k > 0 {
      ChildChecksSelf(sn, sk, rank, sid, mode, extended, k - 1);
      CheckSelf(sn, sk, rank, S[k - 1], mode, extended);
      SizeOfAllStep(sk, rank, sid, S, k - 1);
    }
  }

  /** The children of `sid` are ranked below it, as the size of a child list needs. */
  ghost predicate ChildrenRankedBelow(sk: Kids, rank: map<string, nat>, sid: string)
    requires sid in rank
  {
    forall x :: x in ChildrenOf(sk, sid) ==> x in rank && rank[x] < rank[sid]
  }

  /** A walk never visits more nodes than the source subtree holds. */
  lemma {:induction false} CheckVisitsAtMostSource(sn: map<string, Node>, sk: Kids, rank: map<string, nat>, tn: map<string, Node>, tk: Kids,
                                                   sid: string, tid: string, mode: Lang, extended: bool)
    requires Walkable(sn, sk, rank, tn, tk) && sid in sn && sid in rank && tid in tn
    ensures 1 <= Check(sn, sk, rank, tn, tk, sid, tid, mode, extended).nodes <= Size(sk, rank, sid)
    decreases rank[sid], 1
  {
    if sn[sid].kind == Group && tn[tid].kind == Group {
      var S := ChildrenOf(sk, sid);
      var k := Min(|S|, |ChildrenOf(tk, tid)|);
      ChildChecksAtMostSource(sn, sk, rank, tn, tk, sid, tid, mode, extended, k);
      SizeOfAllPrefix(sk, rank, sid, S, k);
      assert S[..|S|] == S;
    }
  }

  lemma {:induction false} ChildChecksAtMostSource(sn: map<string, Node>, sk: Kids, rank: map<string, nat>, tn: map<string, Node>, tk: Kids,
                                                   sid: string, tid: string, mode: Lang, extended: bool, k: nat)
    requires Walkable(sn, sk, rank, tn, tk) && sid in sn && sid in rank && tid in tn
    requires k <= |ChildrenOf(sk, sid)| && k <= |ChildrenOf(tk, tid)|
    ensures ChildrenRankedBelow(sk, rank, sid)
    ensures ChildChecks(sn, sk, rank, tn, tk, sid, tid, mode, extended, k).nodes <= SizeOfAll(sk, rank, sid, ChildrenOf(sk, sid)[..k])
    decreases rank[sid], 0, k
  {
    var S := ChildrenOf(sk, sid);
    if k > 0 {
      ChildChecksAtMostSource(sn, sk, rank, tn, tk, sid, tid, mode, extended, k - 1);
      CheckVisitsAtMostSource(sn, sk, rank, tn, tk, S[k - 1], ChildrenOf(tk, tid)[k - 1], mode, extended);
      SizeOfAllStep(sk, rank, sid, S, k - 1);
    }
  }

  /** The subtrees of a prefix of a child list are no larger than those of the whole list. */
  lemma {:induction false} SizeOfAllPrefix(sk: Kids, rank: map<string, nat>, g: string, xs: seq<string>, k: nat)
    requires Ranked(sk, rank) && g in rank && k <= |xs|
    requires forall x :: x in xs ==> x in rank && rank[x] < rank[g]
    ensures SizeOfAll(sk, rank, g, xs[..k]) <= SizeOfAll(sk, rank, g, xs)
    decreases |xs| - k
  {
    if k < |xs| {
      SizeOfAllPrefix(sk, rank, g, xs, k + 1);
      SizeOfAllStep(sk, rank, g, xs, k);
    } else {
      assert xs[..k] == xs;
    }
  }

  /**
   * `verifyVersionNode(sourceNode, targetNode, extended, progress, stats, node_count)`: after the
   * user's cancel check, the node itself is checked and counted, a progress step is finished every
   * `VerifyProgressIncrement` nodes, and for two groups the child lists are compared and the
   * children paired in order are verified recursively. Returns the node count with this subtree
   * added, and the error count with its errors added.
   */
  method VerifyVersionNode(sn: map<string, Node>, sk: Kids, ghost rank: map<string, nat>, tn: map<string, Node>, tk: Kids,
                           sid: string, tid: string, mode: Lang, extended: bool, progress: ProgressCallback,
                           errors: nat, count: nat)
    returns (r: Result<nat>, errors': nat)
    requires Walkable(sn, sk, rank, tn, tk) && sid in sn && sid in rank && tid in tn
    requires progress.Valid()
    modifies progress, progress.stepsFinished
    decreases rank[sid], 1
    ensures progress.Valid() && progress.Unmoved()
    ensures r.Err? <==> progress.cancelFlag
    ensures r.Err? ==> r.error == CanceledError && errors' == errors
    ensures r.Ok? ==> var t := Check(sn, sk, rank, tn, tk, sid, tid, mode, extended);
      r.value == count + t.nodes && errors' == errors + t.errors
  {
    var canceled := CheckCanceledByUser(progress);
    if canceled.Err? {
      return Err(canceled.error), errors;
    }
    errors' := CheckNode(sn[sid], tn[tid], sid, tid, mode, extended, errors);
    var nodeCount := count + 1;
    if nodeCount % VerifyProgressIncrement == 0 {
      Step(progress);
    }
    if sn[sid].kind == Group && tn[tid].kind == Group {
      if |ChildrenOf(sk, sid)| != |ChildrenOf(tk, tid)| {
        errors' := errors' + 1;
      }
      var res;
      res, errors' := VerifyChildren(sn, sk, rank, tn, tk, sid, tid, mode, extended, progress, errors', nodeCount);
      nodeCount := res.value;
    }
    r := Ok(nodeCount);
  }

  /** The child loop of `verifyVersionNode`: the children of two groups paired in order, up to the shorter list. */
  method VerifyChildren(sn: map<string, Node>, sk: Kids, ghost rank: map<string, nat>, tn: map<string, Node>, tk: Kids,
                        sid: string, tid: string, mode: Lang, extended: bool, progress: ProgressCallback,
                        errors: nat, count: nat)
    returns (r: Result<nat>, errors': nat)
    requires Walkable(sn, sk, rank, tn, tk) && sid in sn && sid in rank && tid in tn
    requires progress.Valid() && !progress.cancelFlag
    modifies progress, progress.stepsFinished
    decreases rank[sid], 0
    ensures progress.Valid() && progress.Unmoved() && r.Ok?
    ensures var t := ChildChecks(sn, sk, rank, tn, tk, sid, tid, mode, extended, Min(|ChildrenOf(sk, sid)|, |ChildrenOf(tk, tid)|));
      r.value == count + t.nodes && errors' == errors + t.errors
  {
    var S := ChildrenOf(sk, sid);
    var T := ChildrenOf(tk, tid);
    var nodeCount := count;
    errors' := errors;
    for i := 0 to Min(|S|, |T|)
      invariant progress.Valid() && progress.Unmoved()
      invariant var t := ChildChecks(sn, sk, rank, tn, tk, sid, tid, mode, extended, i);
        nodeCount == count + t.nodes && errors' == errors + t.errors
    {
      var res;
      res, errors' := VerifyVersionNode(sn, sk, rank, tn, tk, S[i], T[i], mode, extended, progress, errors', nodeCount);
      nodeCount := res.value;
    }
    r := Ok(nodeCount);
  }

  // ------------------------------------------------------------ version properties

  /** The properties of version `verId` of a store, by name. */
  function VersionProps(b: Backend, storeId: string, verId: VersionId): (r: map<string, string>)
    ensures forall name :: Lookup(r, name) == VersionProperty(b, storeId, verId, name)
  {
    var a := VersionAddress(storeId, verId);
    if a in b.versionProps then b.versionProps[a] else map[]
  }

  /** The errors of comparing the version properties of the target store with those of the source store. */
  function PropertyErrors(source: Backend, sourceStoreId: string, target: Backend, targetStoreId: string, verId: VersionId): nat
  {
    MapErrors(VersionProps(source, sourceStoreId, verId), VersionProps(target, targetStoreId, verId))
  }

  /**
   * `verifyVersionProperties` as written: the source names come from the source session, but
   * every source value is read through the target session, under the source store's id.
   */
  function PropertyErrorsAsWritten(source: Backend, sourceStoreId: string, target: Backend, targetStoreId: string,
                                   verId: VersionId): nat
  {
    var tar := VersionProps(target, targetStoreId, verId);
    var srcVals := VersionProps(target, sourceStoreId, verId);
    |Differing(tar.Keys, srcVals, tar)| + |NonEmpty(PropertyNames(source, sourceStoreId, verId) - tar.Keys, srcVals)|
  }

  /**
   * As written, a copy into another backend under the same store id is compared with itself:
   * whatever the source holds, no property error is ever reported.
   */
  lemma PropertiesUncheckedAsWritten(source: Backend, target: Backend, storeId: string, verId: VersionId)
    ensures PropertyErrorsAsWritten(source, storeId, target, storeId, verId) == 0
  {
    TargetComparedWithItselfAsWritten(source, storeId, target, storeId, verId);
  }

  /**
   * As written, whenever the target backend holds the version's properties under the source store
   * id as it does under the target's, the target is compared with itself and no error is reported.
   */
  lemma TargetComparedWithItselfAsWritten(source: Backend, sourceStoreId: string, target: Backend, targetStoreId: string,
                                          verId: VersionId)
    requires forall name :: VersionProperty(target, sourceStoreId, verId, name) == VersionProperty(target, targetStoreId, verId, name)
    ensures PropertyErrorsAsWritten(source, sourceStoreId, target, targetStoreId, verId) == 0
  {
    var tar := VersionProps(target, targetStoreId, verId);
    var srcVals := VersionProps(target, sourceStoreId, verId);
    forall name
      ensures (name in srcVals <==> name in tar) && (name in tar ==> srcVals[name] == tar[name])
    {
      assert Lookup(srcVals, name) == Lookup(tar, name);
    }
    assert srcVals == tar;
    assert Differing(tar.Keys, tar, tar) == {};
    assert NonEmpty(PropertyNames(source, sourceStoreId, verId) - tar.Keys, tar) == {};
  }

  /**
   * As written, a copy into a store whose backend knows nothing of the source store's version
   * reports every property of the target version as an error, however faithful the copy.
   */
  lemma OtherStoreAllReportedAsWritten(source: Backend, sourceStoreId: string, target: Backend, targetStoreId: string,
                                       verId: VersionId)
    requires VersionAddress(sourceStoreId, verId) !in target.versionProps
    ensures PropertyErrorsAsWritten(source, sourceStoreId, target, targetStoreId, verId)
         == |VersionProps(target, targetStoreId, verId).Keys|
  {
    var tar := VersionProps(target, targetStoreId, verId);
    var srcVals := VersionProps(target, sourceStoreId, verId);
    assert srcVals == map[];
    assert Differing(tar.Keys, srcVals, tar) == tar.Keys;
    assert NonEmpty(PropertyNames(source, sourceStoreId, verId) - tar.Keys, srcVals) == {};
  }

  /** A target whose version property differs from the source's: reported when read right, missed as written. */
  lemma DifferingPropertyMissedAsWritten()
    ensures var a := VersionAddress("docs", "1.0");
      var source := Backend(map[], map[], map[a := map["title" := "Manual"]], map[]);
      var target := Backend(map[], map[], map[a := map["title" := "Draft"]], map[]);
      PropertyErrors(source, "docs", target, "docs", "1.0") == 1
      && PropertyErrorsAsWritten(source, "docs", target, "docs", "1.0") == 0
  {
    var a := VersionAddress("docs", "1.0");
    var source := Backend(map[], map[], map[a := map["title" := "Manual"]], map[]);
    var target := Backend(map[], map[], map[a := map["title" := "Draft"]], map[]);
    var src := VersionProps(source, "docs", "1.0");
    var tar := VersionProps(target, "docs", "1.0");
    assert Differing(tar.Keys, src, tar) == {"title"};
    assert NonEmpty(src.Keys - tar.Keys, src) == {};
    PropertiesUncheckedAsWritten(source, target, "docs", "1.0");
  }

  /** Version properties read back unchanged report no error. */
  lemma CopiedPropertiesVerify(source: Backend, sourceStoreId: string, target: Backend, targetStoreId: string, verId: VersionId)
    requires forall name :: VersionProperty(target, targetStoreId, verId, name) == VersionProperty(source, sourceStoreId, verId, name)
    ensures PropertyErrors(source, sourceStoreId, target, targetStoreId, verId) == 0
  {
    var src := VersionProps(source, sourceStoreId, verId);
    var tar := VersionProps(target, targetStoreId, verId);
    forall name
      ensures (name in src <==> name in tar) && (name in src ==> src[name] == tar[name])
    {
      assert Lookup(src, name) == Lookup(tar, name);
    }
    assert src == tar;
    MapErrorsZero(src, tar);
  }

  /**
   * `verifyVersionProperties` as written: each target property whose value differs from the one
   * the target session reads under the source store's id, and each non-empty value so read for a
   * source property name the target lacks, is one error.
   */
  method VerifyVersionProperties(source: DocStoreSession, sourceStoreId: string, target: DocStoreSession,
                                 targetStoreId: string, verId: VersionId, errors: nat)
    returns (errors': nat)
    ensures errors' == errors + PropertyErrorsAsWritten(source.backend, sourceStoreId, target.backend, targetStoreId, verId)
  {
    var tar := VersionProps(target.backend, targetStoreId, verId);
    var srcNames := PropertyNames(source.backend, sourceStoreId, verId);
    var srcVals := VersionProps(target.backend, sourceStoreId, verId);
    errors' := CountDiffering(srcVals, tar, errors);
    errors' := CountNonEmpty(srcNames - tar.Keys, srcVals, errors');
  }

  // ------------------------------------------------------------ one language, one version

  /**
   * The node walk of `verifyVersionLang`, inside one level of progress work with a step per
   * `VerifyProgressIncrement` copied nodes (at least one), closed however the walk ends.
   */
  method VerifyTree(sn: map<string, Node>, sk: Kids, ghost rank: map<string, nat>, tn: map<string, Node>, tk: Kids,
                    sid: string, tid: string, mode: Lang, extended: bool, progress: ProgressCallback,
                    copiedNodes: nat, errors: nat)
    returns (r: Result<nat>, errors': nat)
    requires Walkable(sn, sk, rank, tn, tk) && sid in sn && sid in rank && tid in tn
    requires progress.Valid() && IsJavaInt(copiedNodes)
    modifies progress, progress.stepsTotal, progress.stepsFinished
    ensures progress.Valid() && progress.workLevel == old(progress.workLevel) && progress.cancelFlag == old(progress.cancelFlag)
    ensures progress.stepsTotal == old(progress.stepsTotal) || fresh(progress.stepsTotal)
    ensures progress.stepsFinished == old(progress.stepsFinished) || fresh(progress.stepsFinished)
    ensures r.Err? <==> progress.cancelFlag
    ensures r.Err? ==> r.error == CanceledError && errors' == errors
    ensures r.Ok? ==> var t := Check(sn, sk, rank, tn, tk, sid, tid, mode, extended);
      r.value == t.nodes && errors' == errors + t.errors
  {
    var steps := copiedNodes / VerifyProgressIncrement;
    OpenWork(progress, if steps < 1 then 1 else steps);
    r, errors' := VerifyVersionNode(sn, sk, rank, tn, tk, sid, tid, mode, extended, progress, errors, 0);
    CloseWork(progress);
  }

  /** The errors of verifying one language: the tree walk in that mode, then the version properties as written. */
  ghost function LangErrors(source: Backend, sourceStoreId: string, target: Backend, targetStoreId: string, verId: VersionId,
                            sn: map<string, Node>, sk: Kids, rank: map<string, nat>, sid: string,
                            tn: map<string, Node>, tk: Kids, tid: string, lang: Lang, extended: bool): nat
    requires Walkable(sn, sk, rank, tn, tk) && sid in sn && sid in rank && tid in tn
  {
    Check(sn, sk, rank, tn, tk, sid, tid, lang, extended).errors + PropertyErrorsAsWritten(source, sourceStoreId, target, targetStoreId, verId)
  }

  /**
   * `verifyVersionLang`: both sessions are put in the language's mode (the original language
   * leaves any translation mode), the trees are walked inside one level of progress work with a
   * step per `VerifyProgressIncrement` copied nodes, the version properties are compared, and a
   * translation mode entered is left again. The user's cancel stops the pass before the properties.
   */
  method VerifyVersionLang(source: DocStoreSession, sourceStoreId: string, target: DocStoreSession, targetStoreId: string,
                           verId: VersionId, sn: map<string, Node>, sk: Kids, ghost rank: map<string, nat>, sid: string,
                           tn: map<string, Node>, tk: Kids, tid: string, lang: Lang, extended: bool,
                           progress: ProgressCallback, copiedNodes: nat, errors: nat)
    returns (r: Result<()>, errors': nat)
    requires source != target
    requires Walkable(sn, sk, rank, tn, tk) && sid in sn && sid in rank && tid in tn
    requires progress.Valid() && IsJavaInt(copiedNodes)
    modifies source, target, progress, progress.stepsTotal, progress.stepsFinished
    ensures source.backend == old(source.backend) && target.backend == old(target.backend)
    ensures source.translationMode == None && target.translationMode == None
    ensures progress.Valid() && progress.workLevel == old(progress.workLevel) && progress.cancelFlag == old(progress.cancelFlag)
    ensures progress.stepsTotal == old(progress.stepsTotal) || fresh(progress.stepsTotal)
    ensures progress.stepsFinished == old(progress.stepsFinished) || fresh(progress.stepsFinished)
    ensures r.Err? <==> progress.cancelFlag
    ensures r.Err? ==> r.error == CanceledError && errors' == errors
    ensures r.Ok? ==> errors' == errors + LangErrors(old(source.backend), sourceStoreId, old(target.backend), targetStoreId, verId,
                                                     sn, sk, rank, sid, tn, tk, tid, lang, extended)
  {
    SetMode(source, lang);
    SetMode(target, lang);
    r, errors' := VerifyLangContent(source, sourceStoreId, target, targetStoreId, verId, sn, sk, rank, sid, tn, tk, tid,
                                    lang, extended, progress, copiedNodes, errors);
    if lang.Some? {
      source.LeaveTranslationMode();
      target.LeaveTranslationMode();
    }
  }

  /** The `try` block of `verifyVersionLang`: the node walk, then the version properties unless canceled. */
  method VerifyLangContent(source: DocStoreSession, sourceStoreId: string, target: DocStoreSession, targetStoreId: string,
                           verId: VersionId, sn: map<string, Node>, sk: Kids, ghost rank: map<string, nat>, sid: string,
                           tn: map<string, Node>, tk: Kids, tid: string, lang: Lang, extended: bool,
                           progress: ProgressCallback, copiedNodes: nat, errors: nat)
    returns (r: Result<()>, errors': nat)
    requires Walkable(sn, sk, rank, tn, tk) && sid in sn && sid in rank && tid in tn
    requires progress.Valid() && IsJavaInt(copiedNodes)
    modifies progress, progress.stepsTotal, progress.stepsFinished
    ensures progress.Valid() && progress.workLevel == old(progress.workLevel) && progress.cancelFlag == old(progress.cancelFlag)
    ensures progress.stepsTotal == old(progress.stepsTotal) || fresh(progress.stepsTotal)
    ensures progress.stepsFinished == old(progress.stepsFinished) || fresh(progress.stepsFinished)
    ensures r.Err? <==> progress.cancelFlag
    ensures r.Err? ==> r.error == CanceledError && errors' == errors
    ensures r.Ok? ==> errors' == errors + LangErrors(source.backend, sourceStoreId, target.backend, targetStoreId, verId,
                                                     sn, sk, rank, sid, tn, tk, tid, lang, extended)
  {
    var count;
    count, errors' := VerifyTree(sn, sk, rank, tn, tk, sid, tid, lang, extended, progress, copiedNodes, errors);
    if count.Err? {
      return Err(count.error), errors';
    }
    errors' := VerifyVersionProperties(source, sourceStoreId, target, targetStoreId, verId, errors');
    r := Ok(());
  }

  /** The errors of verifying the translations `trans` in turn. */
  ghost function TranslationErrors(source: Backend, sourceStoreId: string, target: Backend, targetStoreId: string, verId: VersionId,
                                   sn: map<string, Node>, sk: Kids, rank: map<string, nat>, sid: string,
                                   tn: map<string, Node>, tk: Kids, tid: string, trans: seq<string>, extended: bool): nat
    requires Walkable(sn, sk, rank, tn, tk) && sid in sn && sid in rank && tid in tn
    decreases |trans|
  {
    if trans == [] then 0
    else
      TranslationErrors(source, sourceStoreId, target, targetStoreId, verId, sn, sk, rank, sid, tn, tk, tid, trans[..|trans| - 1], extended)
      + LangErrors(source, sourceStoreId, target, targetStoreId, verId, sn, sk, rank, sid, tn, tk, tid, Some(trans[|trans| - 1]), extended)
  }

  /** The errors of the translations `trans[..i + 1]` are those of `trans[..i]` and then of `trans[i]`. */
  lemma TranslationErrorsStep(source: Backend, sourceStoreId: string, target: Backend, targetStoreId: string, verId: VersionId,
                              sn: map<string, Node>, sk: Kids, rank: map<string, nat>, sid: string,
                              tn: map<string, Node>, tk: Kids, tid: string, trans: seq<string>, extended: bool, i: nat)
    requires Walkable(sn, sk, rank, tn, tk) && sid in sn && sid in rank && tid in tn && i < |trans|
    ensures TranslationErrors(source, sourceStoreId, target, targetStoreId, verId, sn, sk, rank, sid, tn, tk, tid, trans[..i + 1], extended)
      == TranslationErrors(source, sourceStoreId, target, targetStoreId, verId, sn, sk, rank, sid, tn, tk, tid, trans[..i], extended)
         + LangErrors(source, sourceStoreId, target, targetStoreId, verId, sn, sk, rank, sid, tn, tk, tid, Some(trans[i]), extended)
  {
    assert trans[..i + 1][..i] == trans[..i];
  }

  /** The loop of `verifyVersion` over the copied translations, each verified and then counted as a progress step. */
  method VerifyTranslations(source: DocStoreSession, sourceStoreId: string, target: DocStoreSession, targetStoreId: string,
                            verId: VersionId, trans: seq<string>, extended: bool, progress: ProgressCallback, copiedNodes: nat,
                            sn: map<string, Node>, sk: Kids, ghost rank: map<string, nat>, sid: string,
                            tn: map<string, Node>, tk: Kids, tid: string, errors: nat)
    returns (errors': nat)
    requires source != target
    requires Walkable(sn, sk, rank, tn, tk) && sid in sn && sid in rank && tid in tn
    requires progress.Valid() && !progress.cancelFlag && IsJavaInt(copiedNodes)
    modifies source, target, progress, progress.stepsTotal, progress.stepsFinished
    ensures source.backend == old(source.backend) && target.backend == old(target.backend)
    ensures source.translationMode == old(source.translationMode) || source.translationMode == None
    ensures target.translationMode == old(target.translationMode) || target.translationMode == None
    ensures progress.Valid() && progress.workLevel == old(progress.workLevel) && !progress.cancelFlag
    ensures progress.stepsTotal == old(progress.stepsTotal) || fresh(progress.stepsTotal)
    ensures progress.stepsFinished == old(progress.stepsFinished) || fresh(progress.stepsFinished)
    ensures errors' == errors + TranslationErrors(source.backend, sourceStoreId, target.backend, targetStoreId, verId,
                                                  sn, sk, rank, sid, tn, tk, tid, trans, extended)
  {
    errors' := errors;
    for i := 0 to |trans|
      invariant source.backend == old(source.backend) && target.backend == old(target.backend)
      invariant source.translationMode == old(source.translationMode) || source.translationMode == None
      invariant target.translationMode == old(target.translationMode) || target.translationMode == None
      invariant progress.Valid() && progress.workLevel == old(progress.workLevel) && !progress.cancelFlag
      invariant progress.stepsTotal == old(progress.stepsTotal) || fresh(progress.stepsTotal)
      invariant progress.stepsFinished == old(progress.stepsFinished) || fresh(progress.stepsFinished)
      invariant errors' == errors + TranslationErrors(source.backend, sourceStoreId, target.backend, targetStoreId, verId,
                                                      sn, sk, rank, sid, tn, tk, tid, trans[..i], extended)
    {
      TranslationErrorsStep(source.backend, sourceStoreId, target.backend, targetStoreId, verId, sn, sk, rank, sid, tn, tk, tid, trans, extended, i);
      var res;
      res, errors' := VerifyVersionLang(source, sourceStoreId, target, targetStoreId, verId, sn, sk, rank, sid, tn, tk, tid,
                                        Some(trans[i]), extended, progress, copiedNodes, errors');
      Step(progress);
    }
    assert trans[..|trans|] == trans;
  }

  /**
   * `verifyVersion(sourceSession, sourceStoreId, targetSession, targetStoreId, verId, stats,
   * extended, progress)`: a translation mode left over in either session is left; one level of
   * progress work with a step for the original language and one per copied translation verifies
   * the original language and then each translation. A cancel by the user ends the pass early
   * and is not counted. The errors found are added to the statistics.
   */
  method VerifyVersion(source: DocStoreSession, sourceStoreId: string, target: DocStoreSession, targetStoreId: string,
                       verId: VersionId, stats: CopyVersionStatistics, extended: bool, progress: ProgressCallback,
                       sn: map<string, Node>, sk: Kids, ghost rank: map<string, nat>, sid: string,
                       tn: map<string, Node>, tk: Kids, tid: string)
    returns (stats': CopyVersionStatistics)
    requires source != target
    requires Walkable(sn, sk, rank, tn, tk) && sid in sn && sid in rank && tid in tn
    requires progress.Valid() && IsJavaInt(stats.copiedNodes) && IsJavaInt(1 + |stats.copiedTranslations|)
    modifies source, target, progress, progress.stepsTotal, progress.stepsFinished
    ensures source.backend == old(source.backend) && target.backend == old(target.backend)
    ensures source.translationMode == None && target.translationMode == None
    ensures progress.Valid() && progress.workLevel == old(progress.workLevel) && progress.cancelFlag == old(progress.cancelFlag)
    ensures stats'.copiedNodes == stats.copiedNodes && stats'.copiedTranslations == stats.copiedTranslations
    ensures progress.cancelFlag ==> stats' == stats
    ensures !progress.cancelFlag ==>
      stats'.verifyErrors == stats.verifyErrors
        + LangErrors(old(source.backend), sourceStoreId, old(target.backend), targetStoreId, verId, sn, sk, rank, sid, tn, tk, tid, None, extended)
        + TranslationErrors(old(source.backend), sourceStoreId, old(target.backend), targetStoreId, verId,
                            sn, sk, rank, sid, tn, tk, tid, stats.copiedTranslations, extended)
  {
    SetMode(target, None);
    SetMode(source, None);
    OpenWork(progress, 1 + |stats.copiedTranslations|);
    var res, errors := VerifyVersionLang(source, sourceStoreId, target, targetStoreId, verId, sn, sk, rank, sid, tn, tk, tid,
                                         None, extended, progress, stats.copiedNodes, stats.verifyErrors);
    if res.Ok? {
      Step(progress);
      errors := VerifyTranslations(source, sourceStoreId, target, targetStoreId, verId, stats.copiedTranslations, extended,
                                   progress, stats.copiedNodes, sn, sk, rank, sid, tn, tk, tid, errors);
    }
    // The only failure here is the user's cancel, which the `catch` of the source does not count.
    CloseWork(progress);
    stats' := stats.(verifyErrors := errors);
  }

  /**
   * A version tree verified against an exact copy of itself reports no error, as long as the
   * target backend reads the version's properties alike under both store ids (always so when the
   * ids are equal): as written the properties are compared within the target.
   */
  lemma {:induction false} ExactCopyVerifies(source: Backend, sourceStoreId: string, target: Backend, targetStoreId: string,
                                             verId: VersionId, sn: map<string, Node>, sk: Kids, rank: map<string, nat>,
                                             sid: string, trans: seq<string>, extended: bool)
    requires Walkable(sn, sk, rank, sn, sk) && sid in sn && sid in rank
    requires forall name :: VersionProperty(target, sourceStoreId, verId, name) == VersionProperty(target, targetStoreId, verId, name)
    ensures LangErrors(source, sourceStoreId, target, targetStoreId, verId, sn, sk, rank, sid, sn, sk, sid, None, extended) == 0
    ensures TranslationErrors(source, sourceStoreId, target, targetStoreId, verId, sn, sk, rank, sid, sn, sk, sid, trans, extended) == 0
    decreases |trans|
  {
    TargetComparedWithItselfAsWritten(source, sourceStoreId, target, targetStoreId, verId);
    CheckSelf(sn, sk, rank, sid, None, extended);
    if trans != [] {
      ExactCopyVerifies(source, sourceStoreId, target, targetStoreId, verId, sn, sk, rank, sid, trans[..|trans| - 1], extended);
      CheckSelf(sn, sk, rank, sid, Some(trans[|trans| - 1]), extended);
    }
  }
}
