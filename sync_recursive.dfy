/*
 * syncNodeRecursive: a source node and, for a group, its whole subtree are copied onto a target
 * node. Children are ordered and created, surplus target children deleted, and each source
 * child synced in turn; transactions are started, restarted and committed along the way, and the
 * first tree level reports progress and can be canceled.
 */
module SyncRecursive {
  import opened Wrappers
  import opened JavaText
  import opened DocNodes
  import opened NodeSync
  import opened DocStoreSessions
  import opened ProgressCallbacks
  import opened TreeSync
  import opened VersionStores

  const CanceledError := "The operation has been canceled by the user!"
  const IdMismatchError := "Synchronisation of child nodes failed: ID mismatch!"

  // ------------------------------------------------------------ the source tree

  /** Every source child has a smaller rank than its group: the source tree has no cycle. */
  ghost predicate Ranked(sk: Kids, rank: map<string, nat>)
  {
    forall g, c :: g in sk && c in sk[g] ==> g in rank && c in rank && rank[c] < rank[g]
  }

  /** The number of source nodes in the subtree of `id`, itself included. */
  ghost function Size(sk: Kids, rank: map<string, nat>, id: string): nat
    requires Ranked(sk, rank) && id in rank
    decreases rank[id], 1, 0
  {
    1 + SizeOfAll(sk, rank, id, ChildrenOf(sk, id))
  }

  /** The number of source nodes in the subtrees of `xs`, children of `g`. */
  ghost function SizeOfAll(sk: Kids, rank: map<string, nat>, g: string, xs: seq<string>): nat
    requires Ranked(sk, rank) && g in rank
    requires forall x :: x in xs ==> x in rank && rank[x] < rank[g]
    decreases rank[g], 0, |xs|
  {
    if xs == [] then 0 else SizeOfAll(sk, rank, g, xs[..|xs| - 1]) + Size(sk, rank, xs[|xs| - 1])
  }

  /** A node that is not a group has no children, so it alone is its subtree. */
  lemma LeafSize(sn: map<string, Node>, sk: Kids, rank: map<string, nat>, id: string)
    requires Forest(sn, sk) && Ranked(sk, rank) && id in rank && id in sn && sn[id].kind != Group
    ensures Size(sk, rank, id) == 1
  {
    assert id !in sk;
  }

  /** A subtree counts at least its own root. */
  lemma {:induction false} SizeOfAllBound(sk: Kids, rank: map<string, nat>, g: string, xs: seq<string>)
    requires Ranked(sk, rank) && g in rank
    requires forall x :: x in xs ==> x in rank && rank[x] < rank[g]
    ensures SizeOfAll(sk, rank, g, xs) >= |xs|
    decreases |xs|
  {
    if xs != [] {
      SizeOfAllBound(sk, rank, g, xs[..|xs| - 1]);
    }
  }

  /** One more child counted: the sizes of the first `i + 1` children of `g` add up. */
  lemma SizeOfAllStep(sk: Kids, rank: map<string, nat>, g: string, xs: seq<string>, i: nat)
    requires Ranked(sk, rank) && g in rank && i < |xs|
    requires forall x :: x in xs ==> x in rank && rank[x] < rank[g]
    ensures SizeOfAll(sk, rank, g, xs[..i + 1]) == SizeOfAll(sk, rank, g, xs[..i]) + Size(sk, rank, xs[i])
  {
    assert xs[..i + 1][..i] == xs[..i];
  }

  /** The children of a source node are ranked below it, and a node is never its own child. */
  lemma ChildrenRanked(sn: map<string, Node>, sk: Kids, rank: map<string, nat>, id: string)
    requires Forest(sn, sk) && Ranked(sk, rank) && id in rank
    ensures forall x :: x in ChildrenOf(sk, id) ==> x in sn && x in rank && rank[x] < rank[id]
    ensures id !in ChildrenOf(sk, id)
  {
  }

  /** The ids of the source subtree of `id`, itself included. */
  ghost function SubIds(sk: Kids, rank: map<string, nat>, id: string): set<string>
    requires Ranked(sk, rank) && id in rank
    decreases rank[id], 2
  {
    {id} + Below(sk, rank, id)
  }

  /** The ids strictly below `id` in the source tree. */
  ghost function Below(sk: Kids, rank: map<string, nat>, id: string): set<string>
    requires Ranked(sk, rank) && id in rank
    decreases rank[id], 1
  {
    SubIdsOfAll(sk, rank, id, ChildrenOf(sk, id))
  }

  /** The ids of the source subtrees of `xs`, children of `g`. */
  ghost function SubIdsOfAll(sk: Kids, rank: map<string, nat>, g: string, xs: seq<string>): set<string>
    requires Ranked(sk, rank) && g in rank
    requires forall x :: x in xs ==> x in rank && rank[x] < rank[g]
    decreases rank[g], 0, |xs|
  {
    if xs == [] then {} else SubIdsOfAll(sk, rank, g, xs[..|xs| - 1]) + SubIds(sk, rank, xs[|xs| - 1])
  }

  /** The ids two or more levels below `id`: below it, but not its children. */
  ghost function Deep(sk: Kids, rank: map<string, nat>, id: string): set<string>
    requires Ranked(sk, rank) && id in rank
  {
    Below(sk, rank, id) - Elems(ChildrenOf(sk, id))
  }

  /** The subtree of each of `xs` is part of theirs together. */
  lemma {:induction false} InSubIdsOfAll(sk: Kids, rank: map<string, nat>, g: string, xs: seq<string>, c: string)
    requires Ranked(sk, rank) && g in rank
    requires forall x :: x in xs ==> x in rank && rank[x] < rank[g]
    requires c in xs
    ensures SubIds(sk, rank, c) <= SubIdsOfAll(sk, rank, g, xs)
    decreases |xs|
  {
    if xs[|xs| - 1] != c {
      assert c in xs[..|xs| - 1] by {
        var j :| 0 <= j < |xs| && xs[j] == c;
        assert xs[..|xs| - 1][j] == c;
      }
      InSubIdsOfAll(sk, rank, g, xs[..|xs| - 1], c);
    }
  }

  /** An id of the subtrees of `xs` is in the subtree of one of them. */
  lemma {:induction false} FromSubIdsOfAll(sk: Kids, rank: map<string, nat>, g: string, xs: seq<string>, x: string)
    returns (c: string)
    requires Ranked(sk, rank) && g in rank
    requires forall x :: x in xs ==> x in rank && rank[x] < rank[g]
    requires x in SubIdsOfAll(sk, rank, g, xs)
    ensures c in xs && x in SubIds(sk, rank, c)
    decreases |xs|
  {
    if x in SubIds(sk, rank, xs[|xs| - 1]) {
      c := xs[|xs| - 1];
    } else {
      c := FromSubIdsOfAll(sk, rank, g, xs[..|xs| - 1], x);
    }
  }

  /** A child's subtree lies below its group. */
  lemma ChildBelow(sn: map<string, Node>, sk: Kids, rank: map<string, nat>, g: string, c: string)
    requires Forest(sn, sk) && Ranked(sk, rank) && g in rank && c in ChildrenOf(sk, g)
    ensures c in rank && rank[c] < rank[g] && SubIds(sk, rank, c) <= Below(sk, rank, g)
  {
    ChildrenRanked(sn, sk, rank, g);
    InSubIdsOfAll(sk, rank, g, ChildrenOf(sk, g), c);
  }

  /** Nothing in the subtree of `y` ranks above `y`. */
  lemma {:induction false} SubIdsRank(sn: map<string, Node>, sk: Kids, rank: map<string, nat>, y: string, x: string)
    requires Forest(sn, sk) && Ranked(sk, rank) && y in rank && x in SubIds(sk, rank, y)
    ensures x in rank && rank[x] <= rank[y]
    decreases rank[y]
  {
    if x != y {
      ChildrenRanked(sn, sk, rank, y);
      var c := FromSubIdsOfAll(sk, rank, y, ChildrenOf(sk, y), x);
      SubIdsRank(sn, sk, rank, c, x);
    }
  }

  /** A node is never below itself. */
  lemma NotBelowItself(sn: map<string, Node>, sk: Kids, rank: map<string, nat>, y: string)
    requires Forest(sn, sk) && Ranked(sk, rank) && y in rank
    ensures y !in Below(sk, rank, y)
  {
    if y in Below(sk, rank, y) {
      ChildrenRanked(sn, sk, rank, y);
      var c := FromSubIdsOfAll(sk, rank, y, ChildrenOf(sk, y), y);
      SubIdsRank(sn, sk, rank, c, y);
    }
  }

  /** A subtree holds the subtree of each of its nodes. */
  lemma {:induction false} SubIdsTrans(sn: map<string, Node>, sk: Kids, rank: map<string, nat>, z: string, y: string)
    requires Forest(sn, sk) && Ranked(sk, rank) && z in rank && y in SubIds(sk, rank, z)
    ensures y in rank && SubIds(sk, rank, y) <= SubIds(sk, rank, z)
    decreases rank[z]
  {
    SubIdsRank(sn, sk, rank, z, y);
    if y != z {
      ChildrenRanked(sn, sk, rank, z);
      var c := FromSubIdsOfAll(sk, rank, z, ChildrenOf(sk, z), y);
      SubIdsTrans(sn, sk, rank, c, y);
      ChildBelow(sn, sk, rank, z, c);
    }
  }

  /** A node below `y` is the child of a node of the subtree of `y`. */
  lemma {:induction false} ParentWithin(sn: map<string, Node>, sk: Kids, rank: map<string, nat>, y: string, x: string)
    returns (p: string)
    requires Forest(sn, sk) && Ranked(sk, rank) && y in rank && x in Below(sk, rank, y)
    ensures p in SubIds(sk, rank, y) && x in ChildrenOf(sk, p)
    decreases rank[y]
  {
    ChildrenRanked(sn, sk, rank, y);
    var c := FromSubIdsOfAll(sk, rank, y, ChildrenOf(sk, y), x);
    if x == c {
      p := y;
    } else {
      p := ParentWithin(sn, sk, rank, c, x);
      ChildBelow(sn, sk, rank, y, c);
      SubIdsTrans(sn, sk, rank, c, p);
    }
  }

  /** The source is a forest: a node is the child of one group only. */
  lemma OneParent(sn: map<string, Node>, sk: Kids, g1: string, g2: string, x: string)
    requires Forest(sn, sk) && x in ChildrenOf(sk, g1) && x in ChildrenOf(sk, g2)
    ensures g1 == g2
  {
  }

  /** Two subtrees that share a node are nested. */
  lemma {:induction false} Nested(sn: map<string, Node>, sk: Kids, rank: map<string, nat>, a: string, b: string, x: string)
    requires Forest(sn, sk) && Ranked(sk, rank) && a in rank && b in rank
    requires x in SubIds(sk, rank, a) && x in SubIds(sk, rank, b)
    ensures a in SubIds(sk, rank, b) || b in SubIds(sk, rank, a)
    decreases if x in rank then rank[a] as int - rank[x] as int else 0
  {
    SubIdsRank(sn, sk, rank, a, x);
    if x != a && x != b {
      var pa := ParentWithin(sn, sk, rank, a, x);
      var pb := ParentWithin(sn, sk, rank, b, x);
      OneParent(sn, sk, pa, pb, x);
      SubIdsRank(sn, sk, rank, a, pa);
      assert pa in sk;
      Nested(sn, sk, rank, a, b, pa);
    }
  }

  /** The subtrees of two different children of one group share no node. */
  lemma SiblingsApart(sn: map<string, Node>, sk: Kids, rank: map<string, nat>, g: string, a: string, b: string)
    requires Forest(sn, sk) && Ranked(sk, rank) && g in rank
    requires a in ChildrenOf(sk, g) && b in ChildrenOf(sk, g) && a != b
    ensures a in rank && b in rank && SubIds(sk, rank, a) !! SubIds(sk, rank, b)
  {
    ChildrenRanked(sn, sk, rank, g);
    if x :| x in SubIds(sk, rank, a) && x in SubIds(sk, rank, b) {
      Nested(sn, sk, rank, a, b, x);
      if a in SubIds(sk, rank, b) {
        InsideSibling(sn, sk, rank, g, b, a);
      } else {
        InsideSibling(sn, sk, rank, g, a, b);
      }
    }
  }

  /** A child of `g` is not in the subtree of another child of `g`. */
  lemma InsideSibling(sn: map<string, Node>, sk: Kids, rank: map<string, nat>, g: string, b: string, a: string)
    requires Forest(sn, sk) && Ranked(sk, rank) && g in rank
    requires a in ChildrenOf(sk, g) && b in ChildrenOf(sk, g) && a != b
    ensures b in rank && a !in SubIds(sk, rank, b)
  {
    ChildrenRanked(sn, sk, rank, g);
    if a in SubIds(sk, rank, b) {
      var p := ParentWithin(sn, sk, rank, b, a);
      OneParent(sn, sk, p, g, a);
      SubIdsRank(sn, sk, rank, b, g);
    }
  }

  /** The children of `g` lie below it. */
  lemma ChildrenBelow(sn: map<string, Node>, sk: Kids, rank: map<string, nat>, g: string)
    requires Forest(sn, sk) && Ranked(sk, rank) && g in rank
    ensures Elems(ChildrenOf(sk, g)) <= Below(sk, rank, g)
  {
    forall c | c in ChildrenOf(sk, g)
      ensures c in Below(sk, rank, g)
    {
      ChildBelow(sn, sk, rank, g, c);
    }
  }

  /** What lies below a child of `g` lies two or more levels below `g`. */
  lemma ChildDeep(sn: map<string, Node>, sk: Kids, rank: map<string, nat>, g: string, c: string)
    requires Forest(sn, sk) && Ranked(sk, rank) && g in rank && c in ChildrenOf(sk, g)
    ensures c in rank && Below(sk, rank, c) <= Deep(sk, rank, g)
  {
    ChildBelow(sn, sk, rank, g, c);
    forall x | x in Below(sk, rank, c)
      ensures x !in ChildrenOf(sk, g)
    {
      if x in ChildrenOf(sk, g) {
        var p := ParentWithin(sn, sk, rank, c, x);
        OneParent(sn, sk, p, g, x);
        SubIdsRank(sn, sk, rank, c, g);
      }
    }
  }

  // ------------------------------------------------------------ the target store

  lemma RebuiltKindsKept(sn: map<string, Node>, S: seq<string>, n0: map<string, Node>, n: map<string, Node>)
    requires Rebuilt(sn, S, n0, n)
    ensures KindsKept(sn, n0, n)
  {
    forall x | x in n0 && x in sn && n0[x].kind == sn[x].kind
      ensures x in n && n[x].kind == n0[x].kind
    {
    }
  }

  lemma PrunedKindsKept(sn: map<string, Node>, n0: map<string, Node>, n: map<string, Node>)
    requires Pruned(sn, n0, n)
    ensures KindsKept(sn, n0, n)
  {
  }

  // ------------------------------------------------------------ the synced tree

  /**
   * Target node `t` holds what `syncNodeShallow` writes from source node `src`: the source language
   * `tao` as its original and, when asked, the source original as translation `oat`.
   */
  ghost predicate OwnSynced(src: Node, t: Node, tao: Lang, oat: Lang)
  {
    InSync(src, t, tao, None) && (oat.Some? ==> InSync(src, t, None, oat))
  }

  /**
   * The target node `tid` is a node the source knows outside the subtree below `sid`, so that
   * syncing that subtree cannot delete, move or rewrite it. Every recursive call syncs a node
   * onto the target node of its own id, which is such a node.
   */
  ghost predicate Anchored(sn: map<string, Node>, sk: Kids, rank: map<string, nat>, sid: string, tid: string)
    requires Ranked(sk, rank) && sid in rank
  {
    tid in sn && tid !in Below(sk, rank, sid)
  }

  /**
   * What `syncNodeRecursive` leaves behind: target node `tid` is in sync with source node `sid`
   * and, when it is a group, its children begin with the source children in source order, each
   * synced in turn onto the target node of its own id, and its further children are known to the
   * source.
   */
  ghost predicate TreeSynced(sn: map<string, Node>, sk: Kids, rank: map<string, nat>, sid: string,
                             tn: map<string, Node>, tk: Kids, tid: string, tao: Lang, oat: Lang)
    requires Ranked(sk, rank) && sid in rank
    decreases rank[sid], 2
  {
    sid in sn && tid in tn && OwnSynced(sn[sid], tn[tid], tao, oat)
    && (tn[tid].kind == Group ==> LevelSynced(sn, sk, rank, sid, tn, tk, tid, tao, oat))
  }

  /** The children of target group `tid` after the sync of source node `sid`. */
  ghost predicate LevelSynced(sn: map<string, Node>, sk: Kids, rank: map<string, nat>, sid: string,
                              tn: map<string, Node>, tk: Kids, tid: string, tao: Lang, oat: Lang)
    requires Ranked(sk, rank) && sid in rank
    decreases rank[sid], 1
  {
    var S, C := ChildrenOf(sk, sid), ChildrenOf(tk, tid);
    |S| <= |C| && C[..|S|] == S && (forall k :: |S| <= k < |C| ==> C[k] in sn)
    && AllSynced(sn, sk, rank, sid, S, tn, tk, tao, oat)
  }

  /** Each of the source children `xs` of `g` is synced onto the target node of its id. */
  ghost predicate AllSynced(sn: map<string, Node>, sk: Kids, rank: map<string, nat>, g: string, xs: seq<string>,
                            tn: map<string, Node>, tk: Kids, tao: Lang, oat: Lang)
    requires Ranked(sk, rank) && g in rank
    decreases rank[g], 0
  {
    forall c :: c in xs ==> c in rank && rank[c] < rank[g] && TreeSynced(sn, sk, rank, c, tn, tk, c, tao, oat)
  }

  /**
   * A change confined to the nodes `X` and to dropping ids of `R` from other lists keeps a synced
   * subtree that shares no node with them.
   */
  lemma TreeSyncedKept(sn: map<string, Node>, sk: Kids, rank: map<string, nat>, sid: string, tid: string,
                       n0: map<string, Node>, k0: Kids, n: map<string, Node>, k: Kids, X: set<string>, R: set<string>,
                       tao: Lang, oat: Lang)
    requires Forest(sn, sk) && Ranked(sk, rank) && sid in rank && Confined(sn, X, R, n0, k0, n, k)
    requires tid in sn && tid !in X && Below(sk, rank, sid) !! X && Below(sk, rank, sid) !! R
    ensures TreeSynced(sn, sk, rank, sid, n0, k0, tid, tao, oat) ==> TreeSynced(sn, sk, rank, sid, n, k, tid, tao, oat)
    decreases rank[sid], 2
  {
    if TreeSynced(sn, sk, rank, sid, n0, k0, tid, tao, oat) {
      assert n[tid] == n0[tid];
      LevelKept(sn, sk, rank, sid, tid, n0, k0, n, k, X, R, tao, oat);
    }
  }

  lemma LevelKept(sn: map<string, Node>, sk: Kids, rank: map<string, nat>, sid: string, tid: string,
                  n0: map<string, Node>, k0: Kids, n: map<string, Node>, k: Kids, X: set<string>, R: set<string>,
                  tao: Lang, oat: Lang)
    requires Forest(sn, sk) && Ranked(sk, rank) && sid in rank && Confined(sn, X, R, n0, k0, n, k)
    requires tid in sn && tid !in X && Below(sk, rank, sid) !! X && Below(sk, rank, sid) !! R
    ensures LevelSynced(sn, sk, rank, sid, n0, k0, tid, tao, oat) ==> LevelSynced(sn, sk, rank, sid, n, k, tid, tao, oat)
    decreases rank[sid], 1
  {
    var S := ChildrenOf(sk, sid);
    if LevelSynced(sn, sk, rank, sid, n0, k0, tid, tao, oat) {
      ChildrenApart(sn, sk, rank, sid, X, R);
      SourceFrontKept(sn, S, ChildrenOf(k0, tid), ChildrenOf(k, tid), R);
      AllKept(sn, sk, rank, sid, S, n0, k0, n, k, X, R, tao, oat);
    }
  }

  /** Sets that share nothing with what lies below `g` share nothing with its children's subtrees. */
  lemma ChildrenApart(sn: map<string, Node>, sk: Kids, rank: map<string, nat>, g: string, X: set<string>, R: set<string>)
    requires Forest(sn, sk) && Ranked(sk, rank) && g in rank
    requires Below(sk, rank, g) !! X && Below(sk, rank, g) !! R
    ensures forall c :: c in ChildrenOf(sk, g) ==>
      c in sn && c !in X && c !in R && c in rank && Below(sk, rank, c) !! X && Below(sk, rank, c) !! R
  {
    forall c | c in ChildrenOf(sk, g)
      ensures c in sn && c !in X && c !in R && c in rank && Below(sk, rank, c) !! X && Below(sk, rank, c) !! R
    {
      ChildBelow(sn, sk, rank, g, c);
      assert c in SubIds(sk, rank, c);
    }
  }

  /**
   * Thinning a child list by ids of `R` keeps a front of source ids outside `R`, and what follows
   * stays known to the source.
   */
  lemma SourceFrontKept(sn: map<string, Node>, S: seq<string>, C0: seq<string>, C: seq<string>, R: set<string>)
    requires Thinned(C0, C, R, sn) && (forall x :: x in S ==> x in sn && x !in R)
    requires |S| <= |C0| && C0[..|S|] == S && (forall k :: |S| <= k < |C0| ==> C0[k] in sn)
    ensures |S| <= |C| && C[..|S|] == S && (forall k :: |S| <= k < |C| ==> C[k] in sn)
  {
    forall q | 0 <= q < |S|
      ensures !Droppable(C0[q], R, sn)
    {
      assert C0[q] == C0[..|S|][q];
    }
    ThinnedFront(C0, C, |S|, R, sn);
    var T0, T := C0[|S|..], C[|S|..];
    assert forall x :: x in T0 ==> x in sn by {
      forall x | x in T0
        ensures x in sn
      {
        var q :| 0 <= q < |T0| && T0[q] == x;
        assert C0[|S| + q] == x;
      }
    }
    forall q | |S| <= q < |C|
      ensures C[q] in sn
    {
      assert C[q] == T[q - |S|];
    }
  }

  lemma AllKept(sn: map<string, Node>, sk: Kids, rank: map<string, nat>, g: string, xs: seq<string>,
                n0: map<string, Node>, k0: Kids, n: map<string, Node>, k: Kids, X: set<string>, R: set<string>,
                tao: Lang, oat: Lang)
    requires Forest(sn, sk) && Ranked(sk, rank) && g in rank && Confined(sn, X, R, n0, k0, n, k)
    requires forall c :: c in xs ==> c in rank && rank[c] < rank[g]
    requires forall c :: c in xs ==> c in sn && c !in X && Below(sk, rank, c) !! X && Below(sk, rank, c) !! R
    ensures AllSynced(sn, sk, rank, g, xs, n0, k0, tao, oat) ==> AllSynced(sn, sk, rank, g, xs, n, k, tao, oat)
    decreases rank[g], 0
  {
    if AllSynced(sn, sk, rank, g, xs, n0, k0, tao, oat) {
      forall c | c in xs
        ensures TreeSynced(sn, sk, rank, c, n, k, c, tao, oat)
      {
        TreeSyncedKept(sn, sk, rank, c, c, n0, k0, n, k, X, R, tao, oat);
      }
    }
  }

  /**
   * One pass of the child loop: child `S[i]` synced, by a change confined to its own subtree,
   * joins the children synced before it, which that change keeps.
   */
  lemma ChildSynced(sn: map<string, Node>, sk: Kids, rank: map<string, nat>, sid: string, S: seq<string>, i: nat,
                    n1: map<string, Node>, k1: Kids, n2: map<string, Node>, k2: Kids, tao: Lang, oat: Lang)
    requires Forest(sn, sk) && Ranked(sk, rank) && sid in rank && S == ChildrenOf(sk, sid) && i < |S|
    requires S[i] in rank && Confined(sn, SubIds(sk, rank, S[i]), Below(sk, rank, S[i]), n1, k1, n2, k2)
    ensures AllSynced(sn, sk, rank, sid, S[..i], n1, k1, tao, oat) && TreeSynced(sn, sk, rank, S[i], n2, k2, S[i], tao, oat)
      ==> AllSynced(sn, sk, rank, sid, S[..i + 1], n2, k2, tao, oat)
  {
    ChildrenRanked(sn, sk, rank, sid);
    var X, R := SubIds(sk, rank, S[i]), Below(sk, rank, S[i]);
    forall c | c in S[..i]
      ensures c in sn && c !in X && Below(sk, rank, c) !! X && Below(sk, rank, c) !! R
    {
      var j :| 0 <= j < i && S[..i][j] == c;
      assert sid in sk && Distinct(sk[sid]);
      SiblingsApart(sn, sk, rank, sid, c, S[i]);
    }
    AllKept(sn, sk, rank, sid, S[..i], n1, k1, n2, k2, X, R, tao, oat);
    assert S[..i + 1] == S[..i] + [S[i]];
  }

  /** One pass of the child loop, confined to child `S[i]`'s subtree, stays within the loop's frame. */
  lemma ChildConfined(sn: map<string, Node>, sk: Kids, rank: map<string, nat>, sid: string, S: seq<string>, i: nat,
                      n1: map<string, Node>, k1: Kids, n2: map<string, Node>, k2: Kids)
    requires Forest(sn, sk) && Ranked(sk, rank) && sid in rank && S == ChildrenOf(sk, sid) && i < |S| && S[i] in rank
    requires Confined(sn, SubIds(sk, rank, S[i]), Below(sk, rank, S[i]), n1, k1, n2, k2)
    ensures Confined(sn, Below(sk, rank, sid), Deep(sk, rank, sid), n1, k1, n2, k2)
  {
    ChildBelow(sn, sk, rank, sid, S[i]);
    ChildDeep(sn, sk, rank, sid, S[i]);
    ConfinedMore(sn, SubIds(sk, rank, S[i]), Below(sk, rank, S[i]), Below(sk, rank, sid), Deep(sk, rank, sid), n1, k1, n2, k2);
  }

  /**
   * The end of a group's sync: the children reconciled onto `tid`, then a change confined to the
   * subtree below `sid` that drops only ids two or more levels down, leave the source children in
   * front; with each of them synced, so is the level.
   */
  lemma LevelReached(sn: map<string, Node>, sk: Kids, rank: map<string, nat>, sid: string, tid: string,
                     n1: map<string, Node>, k1: Kids, n2: map<string, Node>, k2: Kids, tao: Lang, oat: Lang)
    requires Forest(sn, sk) && Ranked(sk, rank) && sid in rank
    requires var S, C := ChildrenOf(sk, sid), ChildrenOf(k1, tid);
      |S| <= |C| && C[..|S|] == S && (forall k :: |S| <= k < |C| ==> C[k] in sn)
    requires Confined(sn, Below(sk, rank, sid), Deep(sk, rank, sid), n1, k1, n2, k2)
    ensures Anchored(sn, sk, rank, sid, tid) && AllSynced(sn, sk, rank, sid, ChildrenOf(sk, sid), n2, k2, tao, oat) ==>
      LevelSynced(sn, sk, rank, sid, n2, k2, tid, tao, oat)
  {
    if Anchored(sn, sk, rank, sid, tid) {
      ChildrenRanked(sn, sk, rank, sid);
      SourceFrontKept(sn, ChildrenOf(sk, sid), ChildrenOf(k1, tid), ChildrenOf(k2, tid), Deep(sk, rank, sid));
    }
  }

  // ------------------------------------------------------------ progress

  /** What the progress object of the first tree level lets the sync change. */
  function ProgressFrame(progress: ProgressCallback?): set<object>
    reads progress
  {
    if progress == null then {} else {progress as object, progress.stepsTotal, progress.stepsFinished}
  }

  /**
   * `checkCanceledByUser(progress)`: fails exactly when a progress object is given (only the
   * first tree level has one) and its cancel flag is set.
   */
  method CheckCanceledByUser(progress: ProgressCallback?) returns (r: Result<()>)
    ensures r.Err? <==> progress != null && progress.cancelFlag
    ensures r.Err? ==> r.error == CanceledError
  {
    if progress == null {
      return Ok(());
    }
    if progress.cancelFlag {
      return Err(CanceledError);
    }
    r := Ok(());
  }

  /**
   * `progress.stepFinished()` and `checkCanceledByUser(progress)` after a child of the first
   * tree level: one more step is counted, and the loop stops exactly when canceled.
   */
  method ReportStep(progress: ProgressCallback) returns (r: Result<()>)
    requires progress.Valid() && progress.workLevel >= 0
    modifies progress, progress.stepsFinished
    ensures progress.Valid() && progress.Unmoved()
    ensures old(progress.stepsFinished[progress.workLevel]) < progress.stepsTotal[progress.workLevel] ==>
      progress.stepsFinished[progress.workLevel] == old(progress.stepsFinished[progress.workLevel]) + 1
    ensures r.Err? <==> progress.cancelFlag
    ensures r.Err? ==> r.error == CanceledError
  {
    progress.StepFinished();
    r := CheckCanceledByUser(progress);
  }

  /** A front kept by the removal loop is the front the ordering loop produced. */
  lemma PrefixChain(S: seq<string>, C1: seq<string>, C2: seq<string>)
    requires |C1| >= |S| && C1[..|S|] == S[..|S|] && |C2| >= |S| && C2[..|S|] == C1[..|S|]
    ensures C2[..|S|] == S
  {
    assert S[..|S|] == S;
  }

  /**
   * What a sync keeps of the target session: the stores' content, no transaction left open
   * that was not running before, and, outside a database, the running one still running.
   */
  predicate TxKept(session: DocStoreSession, wasRunning: bool, isDbTarget: bool, b: Backend)
    reads session
  {
    (!wasRunning ==> !session.transactionRunning)
    && (wasRunning && !isDbTarget ==> session.transactionRunning)
    && session.backend == b
  }

  // ------------------------------------------------------------ the recursion

  /**
   * `syncNodeRecursive`: node `sid` of the source (nodes `sn`, child lists `sk`) is synced onto
   * node `tid` of the target and, when the target node is a group, so is the source subtree
   * below it. The count is the number of nodes synced: the subtree's size for a group, else 1.
   * A transaction is started when none runs and closed at the end, by a commit or, on failure,
   * a rollback; a database target also commits after each level. With a progress object the
   * call fails at once when canceled, and opens and closes one level of progress work.
   */
  method SyncNodeRecursive(sn: map<string, Node>, sk: Kids, ghost rank: map<string, nat>, sid: string,
                           target: NodeTree, tid: string, session: DocStoreSession,
                           trans: Option<seq<string>>, tao: Lang, oat: Lang, isDbTarget: bool,
                           progress: ProgressCallback?)
    returns (r: Result<nat>)
    requires Forest(sn, sk) && Ranked(sk, rank) && sid in sn && sid in rank
    requires target.Valid() && tid in target.nodes && tid !in ChildrenOf(sk, sid)
    requires trans.Some? ==> Distinct(trans.value)
    requires progress != null ==> progress.Valid() && IsJavaInt(|ChildrenOf(sk, sid)|)
    modifies target, session, ProgressFrame(progress)
    decreases rank[sid], 7
    ensures target.Valid() && KindsKept(sn, old(target.nodes), target.nodes)
    ensures r.Ok? ==> r.value == if old(target.nodes[tid].kind) == Group then Size(sk, rank, sid) else 1
    ensures TxKept(session, old(session.transactionRunning), isDbTarget, old(session.backend))
    ensures session.openStoreId == old(session.openStoreId)
    ensures progress != null ==>
      progress.Valid() && progress.workLevel == old(progress.workLevel) && progress.cancelFlag == old(progress.cancelFlag)
    ensures progress != null && old(progress.cancelFlag) ==>
      r == Err(CanceledError) && target.nodes == old(target.nodes) && target.kids == old(target.kids)
    ensures Confined(sn, {tid} + Below(sk, rank, sid), Below(sk, rank, sid), old(target.nodes), old(target.kids), target.nodes, target.kids)
    ensures r.Ok? && Anchored(sn, sk, rank, sid, tid) ==> TreeSynced(sn, sk, rank, sid, target.nodes, target.kids, tid, tao, oat)
  {
    var canceled := CheckCanceledByUser(progress);
    if canceled.Err? {
      ConfinedRefl(sn, {tid} + Below(sk, rank, sid), Below(sk, rank, sid), target.nodes, target.kids);
      return Err(canceled.error);
    }
    var started := session.StartLocalTransaction();
    r := SyncNodeBody(sn, sk, rank, sid, target, tid, session, trans, tao, oat, isDbTarget, progress);
    if started && session.transactionRunning {
      if r.Ok? {
        session.CommitLocalTransaction(true);
      } else {
        session.RollbackLocalTransaction(true);
      }
    }
  }

  /**
   * The `try` block of `syncNodeRecursive`, inside a running transaction: the node itself is
   * synced; a target group then has its children reconciled with the source children and each
   * source child synced recursively.
   */
  method SyncNodeBody(sn: map<string, Node>, sk: Kids, ghost rank: map<string, nat>, sid: string,
                      target: NodeTree, tid: string, session: DocStoreSession,
                      trans: Option<seq<string>>, tao: Lang, oat: Lang, isDbTarget: bool,
                      progress: ProgressCallback?)
    returns (r: Result<nat>)
    requires Forest(sn, sk) && Ranked(sk, rank) && sid in sn && sid in rank
    requires target.Valid() && tid in target.nodes && tid !in ChildrenOf(sk, sid)
    requires trans.Some? ==> Distinct(trans.value)
    requires progress != null ==> progress.Valid() && IsJavaInt(|ChildrenOf(sk, sid)|)
    requires session.transactionRunning
    modifies target, session, ProgressFrame(progress)
    decreases rank[sid], 6
    ensures target.Valid() && KindsKept(sn, old(target.nodes), target.nodes)
    ensures r.Ok? ==> r.value == if old(target.nodes[tid].kind) == Group then Size(sk, rank, sid) else 1
    ensures TxKept(session, true, isDbTarget, old(session.backend))
    ensures session.openStoreId == old(session.openStoreId)
    ensures progress != null ==>
      progress.Valid() && progress.workLevel == old(progress.workLevel) && progress.cancelFlag == old(progress.cancelFlag)
    ensures Confined(sn, {tid} + Below(sk, rank, sid), Below(sk, rank, sid), old(target.nodes), old(target.kids), target.nodes, target.kids)
    ensures r.Ok? && Anchored(sn, sk, rank, sid, tid) ==> TreeSynced(sn, sk, rank, sid, target.nodes, target.kids, tid, tao, oat)
  {
    ghost var n0, k0 := target.nodes, target.kids;
    ghost var X, R := {tid} + Below(sk, rank, sid), Below(sk, rank, sid);
    var kind := target.nodes[tid].kind;
    var own := SyncOwnNode(sn[sid], target, tid, trans, tao, oat);
    ghost var n1 := target.nodes;
    NodeSetConfined(sn, X, R, n0, k0, tid, n1[tid]);
    OwnNodeKindsKept(sn, n0, tid, target.nodes[tid]);
    if own.Err? {
      return Err(own.error);
    }
    if kind != Group {
      return Ok(1);
    }
    r := SyncGroup(sn, sk, rank, sid, target, tid, session, trans, tao, oat, isDbTarget, progress);
    KindsKeptTrans(sn, n0, n1, target.nodes);
    ConfinedTrans(sn, X, R, n0, k0, n1, k0, target.nodes, target.kids);
  }

  /**
   * The group part of that `try` block: the children of target group `tid` are reconciled with
   * the source children, then each source child is synced recursively. The count includes the
   * group itself.
   */
  method SyncGroup(sn: map<string, Node>, sk: Kids, ghost rank: map<string, nat>, sid: string,
                   target: NodeTree, tid: string, session: DocStoreSession,
                   trans: Option<seq<string>>, tao: Lang, oat: Lang, isDbTarget: bool,
                   progress: ProgressCallback?)
    returns (r: Result<nat>)
    requires Forest(sn, sk) && Ranked(sk, rank) && sid in sn && sid in rank
    requires target.Valid() && tid in target.nodes && target.nodes[tid].kind == Group && tid !in ChildrenOf(sk, sid)
    requires trans.Some? ==> Distinct(trans.value)
    requires progress != null ==> progress.Valid() && IsJavaInt(|ChildrenOf(sk, sid)|)
    requires session.transactionRunning
    modifies target, session, ProgressFrame(progress)
    decreases rank[sid], 5
    ensures target.Valid() && KindsKept(sn, old(target.nodes), target.nodes)
    ensures r.Ok? ==> r.value == Size(sk, rank, sid)
    ensures TxKept(session, true, isDbTarget, old(session.backend))
    ensures session.openStoreId == old(session.openStoreId)
    ensures progress != null ==>
      progress.Valid() && progress.workLevel == old(progress.workLevel) && progress.cancelFlag == old(progress.cancelFlag)
    ensures Confined(sn, {tid} + Below(sk, rank, sid), Below(sk, rank, sid), old(target.nodes), old(target.kids), target.nodes, target.kids)
    ensures r.Ok? && Anchored(sn, sk, rank, sid, tid) ==>
      tid in target.nodes && target.nodes[tid] == old(target.nodes[tid])
      && LevelSynced(sn, sk, rank, sid, target.nodes, target.kids, tid, tao, oat)
  {
    ghost var n0, k0 := target.nodes, target.kids;
    ghost var X, R := {tid} + Below(sk, rank, sid), Below(sk, rank, sid);
    var C := ReconcileChildren(sn, sk, rank, sid, target, session, tid, isDbTarget);
    ChildrenBelow(sn, sk, rank, sid);
    ConfinedMore(sn, {tid} + Elems(ChildrenOf(sk, sid)), Elems(ChildrenOf(sk, sid)), X, R, n0, k0, target.nodes, target.kids);
    if C.Err? {
      return Err(C.error);
    }
    ghost var n1, k1 := target.nodes, target.kids;
    r := SyncLevel(sn, sk, rank, sid, ChildrenOf(sk, sid), C.value, target, session, trans, tao, oat, isDbTarget, progress);
    KindsKeptTrans(sn, n0, n1, target.nodes);
    ConfinedMore(sn, Below(sk, rank, sid), Deep(sk, rank, sid), X, R, n1, k1, target.nodes, target.kids);
    ConfinedTrans(sn, X, R, n0, k0, n1, k1, target.nodes, target.kids);
    if r.Ok? {
      LevelReached(sn, sk, rank, sid, tid, n1, k1, target.nodes, target.kids, tao, oat);
      r := Ok(1 + r.value);
    }
  }

  /**
   * `syncNodeShallow` applied to target node `tid`: on success the node, of unchanged kind, holds
   * the source's original language (or the translation used as original) and, when asked, the
   * original as a translation; nothing else in the store changes. A failed cast leaves the node
   * with the writes made before it.
   */
  method SyncOwnNode(src: Node, target: NodeTree, tid: string, trans: Option<seq<string>>, tao: Lang, oat: Lang)
    returns (r: Result<()>)
    requires target.Valid() && tid in target.nodes
    requires trans.Some? ==> Distinct(trans.value)
    modifies target
    ensures target.Valid() && target.kids == old(target.kids)
    ensures r.Err? <==> !Castable(src.kind, old(target.nodes[tid].kind), None)
    ensures tid in target.nodes && target.nodes == old(target.nodes)[tid := target.nodes[tid]]
    ensures target.nodes[tid].kind == old(target.nodes[tid].kind)
    ensures r.Err? ==> r.error == ClassCastError && CastFailWrites(src, old(target.nodes[tid]), target.nodes[tid], tao, None)
    ensures r.Ok? ==> InSync(src, target.nodes[tid], tao, None) && (oat.Some? ==> InSync(src, target.nodes[tid], None, oat))
  {
    var synced, left, _, _, _ := SyncNodeShallow(src, target.nodes[tid], trans, tao, oat);
    target.UpdateNode(tid, left);
    if synced.Err? {
      return Err(synced.error);
    }
    r := Ok(());
  }

  /** Rewriting one node without changing its kind keeps every kind. */
  lemma OwnNodeKindsKept(sn: map<string, Node>, n0: map<string, Node>, tid: string, n: Node)
    requires tid in n0 && n.kind == n0[tid].kind
    ensures KindsKept(sn, n0, n0[tid := n])
  {
  }

  /**
   * The ordering and removal loops of `syncNodeRecursive` for a target group: afterwards its
   * first children are the source children in source order, each of the source kind, and every
   * further child is known to the source. A database target commits and restarts its
   * transaction when a child was placed or removed. The result is the new child list.
   */
  method ReconcileChildren(sn: map<string, Node>, sk: Kids, ghost rank: map<string, nat>, sid: string,
                           target: NodeTree, session: DocStoreSession, tid: string, isDbTarget: bool)
    returns (r: Result<seq<string>>)
    requires Forest(sn, sk) && Ranked(sk, rank) && sid in rank
    requires target.Valid() && tid in target.nodes && target.nodes[tid].kind == Group && tid !in ChildrenOf(sk, sid)
    modifies target, session
    ensures target.Valid() && KindsKept(sn, old(target.nodes), target.nodes)
    ensures session.transactionRunning == old(session.transactionRunning) && session.backend == old(session.backend)
      && session.openStoreId == old(session.openStoreId)
    ensures r.Ok? ==> r.value == ChildrenOf(target.kids, tid)
    ensures r.Ok? ==> |r.value| >= |ChildrenOf(sk, sid)| && r.value[..|ChildrenOf(sk, sid)|] == ChildrenOf(sk, sid)
    ensures r.Ok? ==> forall x :: x in ChildrenOf(sk, sid) ==> x in target.nodes && target.nodes[x].kind == sn[x].kind
    ensures r.Ok? ==> forall k :: |ChildrenOf(sk, sid)| <= k < |r.value| ==> r.value[k] in sn
    ensures r.Ok? ==> tid in target.nodes && target.nodes[tid] == old(target.nodes[tid])
    ensures Confined(sn, {tid} + Elems(ChildrenOf(sk, sid)), Elems(ChildrenOf(sk, sid)),
                     old(target.nodes), old(target.kids), target.nodes, target.kids)
  {
    var S := ChildrenOf(sk, sid);
    ChildrenRanked(sn, sk, rank, sid);
    ghost var n0 := target.nodes;
    var ordered := OrderChildren(sn, S, target, session, tid);
    if ordered.Err? {
      return Err(ordered.error);
    }
    ghost var n1, k1 := target.nodes, target.kids;
    assert n1[tid] == n0[tid] by {
      assert tid !in S;
    }
    MatchedKinds(sn, S, n1, ChildrenOf(target.kids, tid));
    r := PruneAndCommit(sn, S, target, session, tid, isDbTarget);
    KindsKeptTrans(sn, n0, n1, target.nodes);
    ConfinedMore(sn, {tid}, {}, {tid} + Elems(S), Elems(S), n1, k1, target.nodes, target.kids);
    ConfinedTrans(sn, {tid} + Elems(S), Elems(S), n0, old(target.kids), n1, k1, target.nodes, target.kids);
  }

  /** Once the whole of `S` is matched, every source child is a target node of the source kind. */
  lemma MatchedKinds(sn: map<string, Node>, S: seq<string>, tn: map<string, Node>, C: seq<string>)
    requires PrefixMatched(sn, S, tn, C, |S|)
    ensures forall x :: x in S ==> x in sn && x in tn && tn[x].kind == sn[x].kind
  {
    forall x | x in S
      ensures x in sn && x in tn && tn[x].kind == sn[x].kind
    {
      var j :| 0 <= j < |S| && S[j] == x;
    }
  }

  /**
   * The removal loop of `syncNodeRecursive` and the commit that follows it on a database target,
   * for a target group whose first children already are the source children `S`.
   */
  method PruneAndCommit(sn: map<string, Node>, S: seq<string>, target: NodeTree, session: DocStoreSession,
                        tid: string, isDbTarget: bool)
    returns (r: Result<seq<string>>)
    requires target.Valid() && tid in target.nodes && target.nodes[tid].kind == Group
    requires |ChildrenOf(target.kids, tid)| >= |S| && ChildrenOf(target.kids, tid)[..|S|] == S
    requires forall x :: x in S ==> x in sn && x in target.nodes && target.nodes[x].kind == sn[x].kind
    modifies target, session
    ensures target.Valid() && KindsKept(sn, old(target.nodes), target.nodes)
    ensures session.transactionRunning == old(session.transactionRunning) && session.backend == old(session.backend)
      && session.openStoreId == old(session.openStoreId)
    ensures r.Err? ==> r.error == SelfReplacementError
    ensures r.Ok? ==> r.value == ChildrenOf(target.kids, tid)
    ensures r.Ok? ==> |r.value| >= |S| && r.value[..|S|] == S
    ensures r.Ok? ==> forall x :: x in S ==> x in target.nodes && target.nodes[x].kind == sn[x].kind
    ensures r.Ok? ==> forall k :: |S| <= k < |r.value| ==> r.value[k] in sn
    ensures Confined(sn, {tid}, {}, old(target.nodes), old(target.kids), target.nodes, target.kids)
    ensures tid in target.nodes && target.nodes[tid] == old(target.nodes[tid])
  {
    ghost var C1 := ChildrenOf(target.kids, tid);
    var removed := RemoveExtraChildren(sn, |S|, target, session, tid);
    PrunedKindsKept(sn, old(target.nodes), target.nodes);
    if removed.Err? {
      return Err(removed.error);
    }
    var C := ChildrenOf(target.kids, tid);
    PrefixChain(S, C1, C);
    if isDbTarget && (|S| > 0 || removed.value) {
      session.CommitAndRestart();
    }
    r := Ok(C);
  }

  /**
   * The child loop of `syncNodeRecursive` with its progress reporting: a first-level call opens
   * one level of progress work with a step per source child and closes it however the loop
   * ends; a database target commits once all children are synced.
   */
  method SyncLevel(sn: map<string, Node>, sk: Kids, ghost rank: map<string, nat>, sid: string,
                   S: seq<string>, C: seq<string>, target: NodeTree, session: DocStoreSession,
                   trans: Option<seq<string>>, tao: Lang, oat: Lang, isDbTarget: bool,
                   progress: ProgressCallback?)
    returns (r: Result<nat>)
    requires Forest(sn, sk) && Ranked(sk, rank) && sid in sn && sid in rank && S == ChildrenOf(sk, sid)
    requires |C| >= |S| && C[..|S|] == S
    requires target.Valid() && forall x :: x in S ==> x in target.nodes && target.nodes[x].kind == sn[x].kind
    requires trans.Some? ==> Distinct(trans.value)
    requires progress != null ==> progress.Valid() && IsJavaInt(|S|)
    modifies target, session, ProgressFrame(progress)
    decreases rank[sid], 4
    ensures target.Valid() && KindsKept(sn, old(target.nodes), target.nodes)
    ensures r.Ok? ==> r.value == SizeOfAll(sk, rank, sid, S)
    ensures Confined(sn, Below(sk, rank, sid), Deep(sk, rank, sid), old(target.nodes), old(target.kids), target.nodes, target.kids)
    ensures r.Ok? ==> AllSynced(sn, sk, rank, sid, S, target.nodes, target.kids, tao, oat)
    ensures TxKept(session, old(session.transactionRunning), isDbTarget, old(session.backend))
    ensures session.openStoreId == old(session.openStoreId)
    ensures progress != null ==>
      progress.Valid() && progress.workLevel == old(progress.workLevel) && progress.cancelFlag == old(progress.cancelFlag)
  {
    if progress != null {
      progress.StartWork(|S|);
    }
    r := SyncChildrenAndCommit(sn, sk, rank, sid, S, C, target, session, trans, tao, oat, isDbTarget, progress);
    if progress != null {
      progress.FinishWork();
    }
  }

  /** The child loop, then on a database target a commit once every source child is synced. */
  method SyncChildrenAndCommit(sn: map<string, Node>, sk: Kids, ghost rank: map<string, nat>, sid: string,
                               S: seq<string>, C: seq<string>, target: NodeTree, session: DocStoreSession,
                               trans: Option<seq<string>>, tao: Lang, oat: Lang, isDbTarget: bool,
                               progress: ProgressCallback?)
    returns (r: Result<nat>)
    requires Forest(sn, sk) && Ranked(sk, rank) && sid in sn && sid in rank && S == ChildrenOf(sk, sid)
    requires |C| >= |S| && C[..|S|] == S
    requires target.Valid() && forall x :: x in S ==> x in target.nodes && target.nodes[x].kind == sn[x].kind
    requires trans.Some? ==> Distinct(trans.value)
    requires progress != null ==> progress.Valid() && progress.workLevel >= 0
    modifies target, session, ProgressFrame(progress)
    decreases rank[sid], 3
    ensures target.Valid() && KindsKept(sn, old(target.nodes), target.nodes)
    ensures r.Ok? ==> r.value == SizeOfAll(sk, rank, sid, S)
    ensures Confined(sn, Below(sk, rank, sid), Deep(sk, rank, sid), old(target.nodes), old(target.kids), target.nodes, target.kids)
    ensures r.Ok? ==> AllSynced(sn, sk, rank, sid, S, target.nodes, target.kids, tao, oat)
    ensures TxKept(session, old(session.transactionRunning), isDbTarget, old(session.backend))
    ensures session.openStoreId == old(session.openStoreId)
    ensures progress != null ==>
      progress.Valid() && progress.workLevel == old(progress.workLevel) && progress.cancelFlag == old(progress.cancelFlag)
      && progress.stepsTotal == old(progress.stepsTotal) && progress.stepsFinished == old(progress.stepsFinished)
  {
    r := SyncChildren(sn, sk, rank, sid, S, C, target, session, trans, tao, oat, isDbTarget, progress);
    if r.Ok? && isDbTarget && |S| > 0 {
      session.CommitIfRunning();
    }
  }

  /**
   * The loop over the source children `S` of `sid`, which are also the first children `C` of the
   * target group: each is synced recursively, without progress; with a progress object each
   * finished child is a step and a cancel stops the loop.
   */
  method SyncChildren(sn: map<string, Node>, sk: Kids, ghost rank: map<string, nat>, sid: string,
                      S: seq<string>, C: seq<string>, target: NodeTree, session: DocStoreSession,
                      trans: Option<seq<string>>, tao: Lang, oat: Lang, isDbTarget: bool,
                      progress: ProgressCallback?)
    returns (r: Result<nat>)
    requires Forest(sn, sk) && Ranked(sk, rank) && sid in sn && sid in rank && S == ChildrenOf(sk, sid)
    requires |C| >= |S| && C[..|S|] == S
    requires target.Valid() && forall x :: x in S ==> x in target.nodes && target.nodes[x].kind == sn[x].kind
    requires trans.Some? ==> Distinct(trans.value)
    requires progress != null ==> progress.Valid() && progress.workLevel >= 0
    modifies target, session, ProgressFrame(progress)
    decreases rank[sid], 2
    ensures target.Valid() && KindsKept(sn, old(target.nodes), target.nodes)
    ensures r.Ok? ==> r.value == SizeOfAll(sk, rank, sid, S)
    ensures Confined(sn, Below(sk, rank, sid), Deep(sk, rank, sid), old(target.nodes), old(target.kids), target.nodes, target.kids)
    ensures r.Ok? ==> AllSynced(sn, sk, rank, sid, S, target.nodes, target.kids, tao, oat)
    ensures TxKept(session, old(session.transactionRunning), isDbTarget, old(session.backend))
    ensures session.openStoreId == old(session.openStoreId)
    ensures progress != null ==>
      progress.Valid() && progress.workLevel == old(progress.workLevel) && progress.cancelFlag == old(progress.cancelFlag)
      && progress.stepsTotal == old(progress.stepsTotal) && progress.stepsFinished == old(progress.stepsFinished)
  {
    ghost var n0, k0 := target.nodes, target.kids;
    ChildrenRanked(sn, sk, rank, sid);
    ConfinedRefl(sn, Below(sk, rank, sid), Deep(sk, rank, sid), n0, k0);
    var total := 0;
    for i := 0 to |S|
      invariant target.Valid() && KindsKept(sn, n0, target.nodes)
      invariant Confined(sn, Below(sk, rank, sid), Deep(sk, rank, sid), n0, k0, target.nodes, target.kids)
      invariant AllSynced(sn, sk, rank, sid, S[..i], target.nodes, target.kids, tao, oat)
      invariant total == SizeOfAll(sk, rank, sid, S[..i])
      invariant TxKept(session, old(session.transactionRunning), isDbTarget, old(session.backend))
      invariant session.openStoreId == old(session.openStoreId)
      invariant progress != null ==>
        progress.Valid() && progress.workLevel == old(progress.workLevel) && progress.cancelFlag == old(progress.cancelFlag)
        && progress.stepsTotal == old(progress.stepsTotal) && progress.stepsFinished == old(progress.stepsFinished)
    {
      ghost var n1, k1 := target.nodes, target.kids;
      var child := VisitChild(sn, sk, rank, sid, S, C, i, target, session, trans, tao, oat, isDbTarget, progress);
      KindsKeptTrans(sn, n0, n1, target.nodes);
      ConfinedTrans(sn, Below(sk, rank, sid), Deep(sk, rank, sid), n0, k0, n1, k1, target.nodes, target.kids);
      if child.Err? {
        return Err(child.error);
      }
      SizeOfAllStep(sk, rank, sid, S, i);
      total := total + child.value;
    }
    assert S[..|S|] == S;
    r := Ok(total);
  }

  /**
   * One pass of the child loop: source child `S[i]` is synced (see `SyncOneChild`); on the first
   * level a progress step and a cancel check follow.
   */
  method VisitChild(sn: map<string, Node>, sk: Kids, ghost rank: map<string, nat>, sid: string,
                    S: seq<string>, C: seq<string>, i: nat, target: NodeTree, session: DocStoreSession,
                    trans: Option<seq<string>>, tao: Lang, oat: Lang, isDbTarget: bool,
                    progress: ProgressCallback?)
    returns (r: Result<nat>)
    requires Forest(sn, sk) && Ranked(sk, rank) && sid in rank && S == ChildrenOf(sk, sid) && i < |S|
    requires |C| >= |S| && C[..|S|] == S
    requires target.Valid() && S[i] in target.nodes && S[i] in sn && target.nodes[S[i]].kind == sn[S[i]].kind
    requires trans.Some? ==> Distinct(trans.value)
    requires progress != null ==> progress.Valid() && progress.workLevel >= 0
    modifies target, session, ProgressFrame(progress)
    decreases rank[sid], 1
    ensures target.Valid() && KindsKept(sn, old(target.nodes), target.nodes)
    ensures r.Ok? ==> S[i] in rank && rank[S[i]] < rank[sid] && r.value == Size(sk, rank, S[i])
    ensures Confined(sn, Below(sk, rank, sid), Deep(sk, rank, sid), old(target.nodes), old(target.kids), target.nodes, target.kids)
    ensures r.Ok? && AllSynced(sn, sk, rank, sid, S[..i], old(target.nodes), old(target.kids), tao, oat)
      ==> AllSynced(sn, sk, rank, sid, S[..i + 1], target.nodes, target.kids, tao, oat)
    ensures TxKept(session, old(session.transactionRunning), isDbTarget, old(session.backend))
    ensures session.openStoreId == old(session.openStoreId)
    ensures progress != null ==>
      progress.Valid() && progress.workLevel == old(progress.workLevel) && progress.cancelFlag == old(progress.cancelFlag)
      && progress.stepsTotal == old(progress.stepsTotal) && progress.stepsFinished == old(progress.stepsFinished)
  {
    ghost var n0, k0 := target.nodes, target.kids;
    r := SyncOneChild(sn, sk, rank, sid, S, C, i, target, session, trans, tao, oat, isDbTarget);
    ChildConfined(sn, sk, rank, sid, S, i, n0, k0, target.nodes, target.kids);
    ChildSynced(sn, sk, rank, sid, S, i, n0, k0, target.nodes, target.kids, tao, oat);
    if r.Ok? && progress != null {
      var step := ReportStep(progress);
      if step.Err? {
        r := Err(step.error);
      }
    }
  }

  /**
   * The id check against the target children, then source child `S[i]` synced, without progress,
   * onto the target node of its id.
   */
  method SyncOneChild(sn: map<string, Node>, sk: Kids, ghost rank: map<string, nat>, sid: string,
                      S: seq<string>, C: seq<string>, i: nat, target: NodeTree, session: DocStoreSession,
                      trans: Option<seq<string>>, tao: Lang, oat: Lang, isDbTarget: bool)
    returns (r: Result<nat>)
    requires Forest(sn, sk) && Ranked(sk, rank) && sid in rank && S == ChildrenOf(sk, sid) && i < |S|
    requires |C| >= |S| && C[..|S|] == S
    requires target.Valid() && S[i] in target.nodes && S[i] in sn && target.nodes[S[i]].kind == sn[S[i]].kind
    requires trans.Some? ==> Distinct(trans.value)
    modifies target, session
    decreases rank[sid], 0
    ensures target.Valid() && KindsKept(sn, old(target.nodes), target.nodes)
    ensures r.Ok? ==> S[i] in rank && rank[S[i]] < rank[sid] && r.value == Size(sk, rank, S[i])
    ensures TxKept(session, old(session.transactionRunning), isDbTarget, old(session.backend))
    ensures session.openStoreId == old(session.openStoreId)
    ensures S[i] in rank && Confined(sn, SubIds(sk, rank, S[i]), Below(sk, rank, S[i]), old(target.nodes), old(target.kids), target.nodes, target.kids)
    ensures r.Ok? ==> TreeSynced(sn, sk, rank, S[i], target.nodes, target.kids, S[i], tao, oat)
  {
    ChildrenRanked(sn, sk, rank, sid);
    ConfinedRefl(sn, SubIds(sk, rank, S[i]), Below(sk, rank, S[i]), target.nodes, target.kids);
    if S[i] != C[i] {
      return Err(IdMismatchError);
    }
    var id := S[i];
    ChildrenRanked(sn, sk, rank, id);
    NotBelowItself(sn, sk, rank, id);
    r := SyncNodeRecursive(sn, sk, rank, id, target, id, session, trans, tao, oat, isDbTarget, null);
    if sn[id].kind != Group {
      LeafSize(sn, sk, rank, id);
    }
  }
}
