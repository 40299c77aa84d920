/*
 * The recursive half of the synchronisation in DocStoreUtilities: deleting a single node while
 * its children move to a replacement group, bringing the children of a target group into the
 * order of the source group's children, and syncing a whole subtree node by node.
 */
module TreeSync {
  import opened Wrappers
  import opened VersionStores
  import opened DocNodes
  import opened NodeCopy
  import opened NodeSync
  import opened DocStoreSessions

  // ------------------------------------------------------------ child lists

  lemma {:induction false} WithoutConcat(a: seq<string>, b: seq<string>, gone: set<string>)
    ensures Without(a + b, gone) == Without(a, gone) + Without(b, gone)
  {
    if a != [] {
      WithoutConcat(a[1..], b, gone);
      assert (a + b)[0] == a[0] && (a + b)[1..] == a[1..] + b;
      assert Without(a + b, gone) == (if a[0] in gone then [] else [a[0]]) + Without(a[1..] + b, gone);
    } else {
      assert a + b == b;
    }
  }

  /** Taking the element at `i` out of a list without repeats closes the gap. */
  lemma {:induction false} WithoutAt(xs: seq<string>, i: nat)
    requires Distinct(xs) && i < |xs|
    ensures Without(xs, {xs[i]}) == xs[..i] + xs[i + 1..]
  {
    var x := xs[i];
    assert Distinct(xs[1..]);
    if i == 0 {
      assert x !in xs[1..];
      WithoutAbsent(xs[1..], x);
    } else {
      assert xs[0] != x;
      WithoutAt(xs[1..], i - 1);
      assert xs[1..][i - 1] == x;
      assert xs[..i] == [xs[0]] + xs[1..][..i - 1];
      assert xs[1..][i..] == xs[i + 1..];
    }
  }

  /** Detaching `c` takes it out of each child list and leaves the rest of the list in order. */
  lemma DetachedList(kids: Kids, c: string, g: string)
    ensures ChildrenOf(Detached(kids, c), g) == Without(ChildrenOf(kids, g), {c})
  {
  }

  // ------------------------------------------------------------ deleteSingleNode

  const SelfReplacementError := "deleteSingleNode(): a group cannot replace itself"

  /** The node as `deleteContent()` leaves it: a content node loses its content in the original language. */
  function ContentDeleted(n: Node): (r: Node)
    ensures r.kind == n.kind && r.titles == n.titles && r.atts == n.atts && r.aliases == n.aliases
    ensures IsContent(n.kind) ==> None !in r.content && forall l :: l != None ==> Lookup(r.content, l) == Lookup(n.content, l)
    ensures !IsContent(n.kind) ==> r == n
  {
    if IsContent(n.kind) then n.(content := n.content - {None}) else n
  }

  /** The child lists while the first `k` children of `del` have moved to the end of `repl`. */
  ghost predicate Moving(kids: Kids, k0: Kids, del: string, repl: string, narr: seq<string>, k: nat)
    requires k <= |narr|
  {
    ChildrenOf(kids, del) == narr[k..]
    && ChildrenOf(kids, repl) == ChildrenOf(k0, repl) + narr[..k]
    && forall g :: g != del && g != repl ==> ChildrenOf(kids, g) == ChildrenOf(k0, g)
  }

  lemma MovingStep(nodes: map<string, Node>, kids: Kids, k0: Kids, del: string, repl: string, narr: seq<string>, k: nat)
    requires Forest(nodes, k0) && del != repl && narr == ChildrenOf(k0, del) && k < |narr|
    requires Moving(kids, k0, del, repl, narr, k)
    ensures Moving(Appended(kids, repl, narr[k]), k0, del, repl, narr, k + 1)
  {
    var c := narr[k];
    AppendedMeans(kids, repl, c);
    ListedByDelOnly(nodes, k0, del, narr, k);
    MovedFromDel(kids, del, narr, k);
    MovedToRepl(kids, k0, repl, narr, k);
    forall g | g != del && g != repl
      ensures ChildrenOf(Appended(kids, repl, c), g) == ChildrenOf(k0, g)
    {
      DetachedList(kids, c, g);
      WithoutAbsent(ChildrenOf(k0, g), c);
    }
  }

  /** Child `k` of `del` appears in no other list, nor among the children before it. */
  lemma ListedByDelOnly(nodes: map<string, Node>, k0: Kids, del: string, narr: seq<string>, k: nat)
    requires Forest(nodes, k0) && narr == ChildrenOf(k0, del) && k < |narr|
    ensures Distinct(narr) && narr[k] !in narr[..k] && narr[k] !in narr[k + 1..]
    ensures forall g :: g != del ==> narr[k] !in ChildrenOf(k0, g)
  {
    assert del in k0;
    assert forall g :: g in k0 && g != del ==> narr[k] !in k0[g];
    assert narr[k] !in narr[..k] by {
      forall j | 0 <= j < k
        ensures narr[j] != narr[k]
      {
      }
    }
    assert narr[k] !in narr[k + 1..] by {
      forall j | k + 1 <= j < |narr|
        ensures narr[j] != narr[k]
      {
      }
    }
  }

  /** Detaching child `k` of `del` leaves the children after it. */
  lemma MovedFromDel(kids: Kids, del: string, narr: seq<string>, k: nat)
    requires k < |narr| && ChildrenOf(kids, del) == narr[k..] && narr[k] !in narr[k + 1..]
    ensures ChildrenOf(Detached(kids, narr[k]), del) == narr[k + 1..]
  {
    DetachedList(kids, narr[k], del);
    assert narr[k..] == [narr[k]] + narr[k + 1..];
    WithoutConcat([narr[k]], narr[k + 1..], {narr[k]});
    WithoutAbsent(narr[k + 1..], narr[k]);
  }

  /** Appending child `k` of `del` to `repl` extends the moved part by one. */
  lemma MovedToRepl(kids: Kids, k0: Kids, repl: string, narr: seq<string>, k: nat)
    requires k < |narr| && ChildrenOf(kids, repl) == ChildrenOf(k0, repl) + narr[..k]
    requires narr[k] !in ChildrenOf(k0, repl) && narr[k] !in narr[..k]
    ensures ChildrenOf(Detached(kids, narr[k]), repl) + [narr[k]] == ChildrenOf(k0, repl) + narr[..k + 1]
  {
    DetachedList(kids, narr[k], repl);
    WithoutAbsent(ChildrenOf(k0, repl) + narr[..k], narr[k]);
    assert narr[..k + 1] == narr[..k] + [narr[k]];
  }

  /** The loop of `deleteSingleNode` over the children of group `del`: each moves to the end of `repl`. */
  method MoveChildren(target: NodeTree, del: string, repl: string) returns (moved: nat)
    requires target.Valid() && del in target.nodes && repl in target.nodes && target.nodes[repl].kind == Group
    requires del != repl
    modifies target
    ensures target.Valid() && target.nodes == old(target.nodes)
    ensures moved == |ChildrenOf(old(target.kids), del)|
    ensures Moving(target.kids, old(target.kids), del, repl, ChildrenOf(old(target.kids), del), moved)
  {
    var narr := ChildrenOf(target.kids, del);
    ghost var k0 := target.kids;
    moved := 0;
    for k := 0 to |narr|
      invariant target.Valid() && target.nodes == old(target.nodes) && moved == k
      invariant Moving(target.kids, k0, del, repl, narr, k)
    {
      MovingStep(target.nodes, target.kids, k0, del, repl, narr, k);
      target.AppendChild(repl, narr[k]);
      moved := moved + 1;
    }
  }

  /**
   * `deleteSingleNode(targetSession, delNode, replacementGrp)`: a content node loses its content,
   * a group hands its children, in order, to the end of the replacement group; then the node is
   * removed from its parent group, which deletes it. A node without parent stays (the source
   * logs an error). A running transaction is committed and restarted so the id is free again.
   * The result is how many children moved.
   */
  method DeleteSingleNode(target: NodeTree, session: DocStoreSession, del: string, repl: string)
    returns (r: Result<nat>)
    requires target.Valid() && del in target.nodes && repl in target.nodes && target.nodes[repl].kind == Group
    modifies target, session
    ensures target.Valid()
    ensures del == repl ==> r == Err(SelfReplacementError) && target.nodes == old(target.nodes) && target.kids == old(target.kids)
    ensures del != repl ==> r == Ok(|ChildrenOf(old(target.kids), del)|)
    ensures r.Ok? ==> (if Parentless(old(target.kids), del)
                       then target.nodes == old(target.nodes)[del := ContentDeleted(old(target.nodes)[del])]
                       else target.nodes == old(target.nodes) - {del})
    ensures r.Ok? ==> ChildrenOf(target.kids, del) == []
    ensures r.Ok? ==>
      ChildrenOf(target.kids, repl) == Without(ChildrenOf(old(target.kids), repl) + ChildrenOf(old(target.kids), del), {del})
    ensures r.Ok? ==> forall g :: g != del && g != repl ==>
      ChildrenOf(target.kids, g) == Without(ChildrenOf(old(target.kids), g), {del})
    ensures session.transactionRunning == old(session.transactionRunning) && session.backend == old(session.backend)
      && session.openStoreId == old(session.openStoreId)
  {
    if del == repl {
      return Err(SelfReplacementError);
    }
    ghost var n0, k0 := target.nodes, target.kids;
    if IsContent(target.nodes[del].kind) {
      target.UpdateNode(del, ContentDeleted(target.nodes[del]));
    }
    ghost var n1 := target.nodes;
    var moved := MoveChildren(target, del, repl);
    ghost var k1 := target.kids;
    var parent := target.ParentGroup(del);
    if parent.Some? {
      target.RemoveChild(parent.value, del);
    }
    session.CommitAndRestart();
    Deleted(n1, k0, k1, target.kids, del, repl, parent.Some?);
    NodesAfterDelete(n0, n1, target.nodes, del, parent.Some?);
    r := Ok(moved);
  }

  /** The nodes after `deleteSingleNode`: the content is emptied, and the node is gone once removed. */
  lemma NodesAfterDelete(n0: map<string, Node>, n1: map<string, Node>, n2: map<string, Node>, del: string, removed: bool)
    requires del in n0
    requires n1 == if IsContent(n0[del].kind) then n0[del := ContentDeleted(n0[del])] else n0
    requires n2 == if removed then n1 - {del} else n1
    ensures n2 == if removed then n0 - {del} else n0[del := ContentDeleted(n0[del])]
  {
    if removed {
      assert n1 - {del} == n0 - {del};
    }
  }

  /** After the moves `del` has a parent exactly when it had one before. */
  lemma MovedParentless(nodes: map<string, Node>, k0: Kids, k1: Kids, del: string, repl: string)
    requires Forest(nodes, k0) && del != repl
    requires Moving(k1, k0, del, repl, ChildrenOf(k0, del), |ChildrenOf(k0, del)|)
    ensures Parentless(k0, del) <==> Parentless(k1, del)
  {
    var narr := ChildrenOf(k0, del);
    assert narr[..|narr|] == narr;
    if Parentless(k0, del) {
      forall g | g in k1
        ensures del !in k1[g]
      {
        assert k1[g] == ChildrenOf(k1, g);
        assert del !in ChildrenOf(k0, g) && del !in narr;
      }
    } else {
      var g :| g in k0 && del in k0[g];
      if g == del || g == repl {
        assert del in ChildrenOf(k1, repl);
      } else {
        assert del in ChildrenOf(k1, g);
      }
    }
  }

  /** What the removal from the parent group makes of the child lists left by the moves. */
  lemma Deleted(n1: map<string, Node>, k0: Kids, k1: Kids, k2: Kids, del: string, repl: string, removed: bool)
    requires Forest(n1, k0) && del != repl
    requires Moving(k1, k0, del, repl, ChildrenOf(k0, del), |ChildrenOf(k0, del)|)
    requires removed <==> !Parentless(k1, del)
    requires k2 == if removed then Removed(k1, del) else k1
    ensures removed <==> !Parentless(k0, del)
    ensures ChildrenOf(k2, del) == []
    ensures ChildrenOf(k2, repl) == Without(ChildrenOf(k0, repl) + ChildrenOf(k0, del), {del})
    ensures forall g :: g != del && g != repl ==> ChildrenOf(k2, g) == Without(ChildrenOf(k0, g), {del})
  {
    MovedParentless(n1, k0, k1, del, repl);
    var narr := ChildrenOf(k0, del);
    assert narr[..|narr|] == narr;
    forall g | g != del
      ensures ChildrenOf(k2, g) == Without(ChildrenOf(k1, g), {del})
    {
      if removed {
        DetachedList(k1, del, g);
      } else {
        assert g in k1 ==> k1[g] == ChildrenOf(k1, g);
        WithoutAbsent(ChildrenOf(k1, g), del);
      }
    }
  }

  // ------------------------------------------------------------ what a sync may change

  /** A child id that a sync may take out of a list it does not own: one of `R`, or unknown to the source. */
  ghost predicate Droppable(x: string, R: set<string>, sn: map<string, Node>)
  {
    x in R || x !in sn
  }

  /** `b` is what is left of the child list `a` after dropping some droppable ids, the rest in order. */
  ghost predicate Thinned(a: seq<string>, b: seq<string>, R: set<string>, sn: map<string, Node>)
    decreases |a|
  {
    if a == [] then b == []
    else if b != [] && b[0] == a[0] then Thinned(a[1..], b[1..], R, sn)
    else Droppable(a[0], R, sn) && Thinned(a[1..], b, R, sn)
  }

  lemma {:induction false} ThinnedRefl(a: seq<string>, R: set<string>, sn: map<string, Node>)
    ensures Thinned(a, a, R, sn)
    decreases |a|
  {
    if a != [] {
      ThinnedRefl(a[1..], R, sn);
    }
  }

  /** Taking a droppable id out of a list thins it. */
  lemma {:induction false} ThinnedWithout(a: seq<string>, d: string, R: set<string>, sn: map<string, Node>)
    requires Droppable(d, R, sn)
    ensures Thinned(a, Without(a, {d}), R, sn)
    decreases |a|
  {
    if a != [] {
      ThinnedWithout(a[1..], d, R, sn);
      var w := Without(a[1..], {d});
      if a[0] != d {
        assert Without(a, {d}) == [a[0]] + w;
      } else {
        assert Without(a, {d}) == w;
        if w != [] {
          WithoutMeans(a[1..], {d}, w[0]);
        }
      }
    }
  }

  lemma {:induction false} ThinnedTrans(a: seq<string>, b: seq<string>, c: seq<string>, R: set<string>, sn: map<string, Node>)
    requires Thinned(a, b, R, sn) && Thinned(b, c, R, sn)
    ensures Thinned(a, c, R, sn)
    decreases |a|
  {
    if a == [] {
    } else if b != [] && b[0] == a[0] {
      if c != [] && c[0] == b[0] {
        ThinnedTrans(a[1..], b[1..], c[1..], R, sn);
      } else {
        ThinnedTrans(a[1..], b[1..], c, R, sn);
      }
    } else {
      ThinnedTrans(a[1..], b, c, R, sn);
      if c != [] && c[0] == a[0] {
        assert Thinned(c, c[1..], R, sn) by {
          ThinnedRefl(c[1..], R, sn);
          if c[1..] != [] && c[1..][0] == c[0] {
            assert Thinned(c[1..], c[1..][1..], R, sn) by {
              ThinnedDropFront(c[1..], R, sn);
            }
          }
        }
        ThinnedTrans(a[1..], c, c[1..], R, sn);
      }
    }
  }

  /** Dropping the droppable first id of a list thins it. */
  lemma {:induction false} ThinnedDropFront(a: seq<string>, R: set<string>, sn: map<string, Node>)
    requires a != [] && Droppable(a[0], R, sn)
    ensures Thinned(a, a[1..], R, sn)
    decreases |a|
  {
    ThinnedRefl(a[1..], R, sn);
    if a[1..] != [] && a[1..][0] == a[0] {
      ThinnedDropFront(a[1..], R, sn);
    }
  }

  lemma {:induction false} ThinnedMore(a: seq<string>, b: seq<string>, R: set<string>, R': set<string>, sn: map<string, Node>)
    requires Thinned(a, b, R, sn) && R <= R'
    ensures Thinned(a, b, R', sn)
    decreases |a|
  {
    if a != [] {
      if b != [] && b[0] == a[0] {
        ThinnedMore(a[1..], b[1..], R, R', sn);
      } else {
        ThinnedMore(a[1..], b, R, R', sn);
      }
    }
  }

  /**
   * Thinning keeps a front of ids that may not be dropped, and what follows that front comes from
   * what followed it before.
   */
  lemma {:induction false} ThinnedFront(a: seq<string>, b: seq<string>, p: nat, R: set<string>, sn: map<string, Node>)
    requires Thinned(a, b, R, sn) && p <= |a|
    requires forall q :: 0 <= q < p ==> !Droppable(a[q], R, sn)
    ensures p <= |b| && b[..p] == a[..p]
    ensures forall x :: x in b[p..] ==> x in a[p..]
    decreases p
  {
    if p == 0 {
      ThinnedElems(a, b, R, sn);
      assert a[0..] == a && b[0..] == b;
    } else {
      assert !Droppable(a[0], R, sn);
      ThinnedFront(a[1..], b[1..], p - 1, R, sn) by {
        forall q | 0 <= q < p - 1
          ensures !Droppable(a[1..][q], R, sn)
        {
          assert a[1..][q] == a[q + 1];
        }
      }
      assert a[..p] == [a[0]] + a[1..][..p - 1];
      assert b[..p] == [b[0]] + b[1..][..p - 1];
      assert a[p..] == a[1..][p - 1..] && b[p..] == b[1..][p - 1..];
    }
  }

  /** Thinning adds no id. */
  lemma {:induction false} ThinnedElems(a: seq<string>, b: seq<string>, R: set<string>, sn: map<string, Node>)
    requires Thinned(a, b, R, sn)
    ensures forall x :: x in b ==> x in a
    decreases |a|
  {
    if a != [] {
      if b != [] && b[0] == a[0] {
        ThinnedElems(a[1..], b[1..], R, sn);
        assert b == [b[0]] + b[1..];
      } else {
        ThinnedElems(a[1..], b, R, sn);
      }
    }
  }

  /**
   * From `n0`, `k0` to `n`, `k` only the nodes `X` changed, appeared or went, every other node the
   * source knows is still there, and the child list of each other group the source knows only
   * lost droppable ids.
   */
  ghost predicate Confined(sn: map<string, Node>, X: set<string>, R: set<string>,
                           n0: map<string, Node>, k0: Kids, n: map<string, Node>, k: Kids)
  {
    NodesConfined(sn, X, n0, n) && KidsConfined(sn, X, R, k0, k)
  }

  ghost predicate NodesConfined(sn: map<string, Node>, X: set<string>, n0: map<string, Node>, n: map<string, Node>)
  {
    (forall y :: y in n && y !in X ==> y in n0 && n[y] == n0[y])
    && (forall y :: y in n0 && y in sn && y !in X ==> y in n)
  }

  ghost predicate KidsConfined(sn: map<string, Node>, X: set<string>, R: set<string>, k0: Kids, k: Kids)
  {
    forall g :: g in sn && g !in X ==> Thinned(ChildrenOf(k0, g), ChildrenOf(k, g), R, sn)
  }

  lemma ConfinedRefl(sn: map<string, Node>, X: set<string>, R: set<string>, n: map<string, Node>, k: Kids)
    ensures Confined(sn, X, R, n, k, n, k)
  {
    forall g | g in sn && g !in X
      ensures Thinned(ChildrenOf(k, g), ChildrenOf(k, g), R, sn)
    {
      ThinnedRefl(ChildrenOf(k, g), R, sn);
    }
  }

  lemma ConfinedTrans(sn: map<string, Node>, X: set<string>, R: set<string>,
                      n0: map<string, Node>, k0: Kids, n1: map<string, Node>, k1: Kids, n2: map<string, Node>, k2: Kids)
    requires Confined(sn, X, R, n0, k0, n1, k1) && Confined(sn, X, R, n1, k1, n2, k2)
    ensures Confined(sn, X, R, n0, k0, n2, k2)
  {
    forall g | g in sn && g !in X
      ensures Thinned(ChildrenOf(k0, g), ChildrenOf(k2, g), R, sn)
    {
      ThinnedTrans(ChildrenOf(k0, g), ChildrenOf(k1, g), ChildrenOf(k2, g), R, sn);
    }
  }

  /** A change confined to `X` and `R` is confined to any larger sets. */
  lemma ConfinedMore(sn: map<string, Node>, X: set<string>, R: set<string>, X': set<string>, R': set<string>,
                     n0: map<string, Node>, k0: Kids, n: map<string, Node>, k: Kids)
    requires Confined(sn, X, R, n0, k0, n, k) && X <= X' && R <= R'
    ensures Confined(sn, X', R', n0, k0, n, k)
  {
    forall g | g in sn && g !in X'
      ensures Thinned(ChildrenOf(k0, g), ChildrenOf(k, g), R', sn)
    {
      ThinnedMore(ChildrenOf(k0, g), ChildrenOf(k, g), R, R', sn);
    }
  }

  /** Child lists outside `X` that lost at most the droppable id `d`. */
  lemma DetachConfined(sn: map<string, Node>, X: set<string>, R: set<string>, k0: Kids, k: Kids, d: string)
    requires Droppable(d, R, sn)
    requires forall g :: g in sn && g !in X ==> ChildrenOf(k, g) == Without(ChildrenOf(k0, g), {d})
    ensures KidsConfined(sn, X, R, k0, k)
  {
    forall g | g in sn && g !in X
      ensures Thinned(ChildrenOf(k0, g), ChildrenOf(k, g), R, sn)
    {
      ThinnedWithout(ChildrenOf(k0, g), d, R, sn);
    }
  }

  /** Rewriting or creating a node of `X` without touching the child lists. */
  lemma NodeSetConfined(sn: map<string, Node>, X: set<string>, R: set<string>, n0: map<string, Node>, k: Kids,
                        id: string, v: Node)
    requires id in X
    ensures Confined(sn, X, R, n0, k, n0[id := v], k)
  {
    ConfinedRefl(sn, X, R, n0, k);
  }

  /**
   * `deleteSingleNode` of `del` with replacement group `repl`: `del` is one of `X` or unknown to the
   * source, and it is gone unless it is one of `X`.
   */
  lemma DeleteConfined(sn: map<string, Node>, X: set<string>, R: set<string>,
                       n0: map<string, Node>, k0: Kids, n: map<string, Node>, k: Kids, del: string, repl: string)
    requires repl in X && Droppable(del, R, sn) && (del in X || del !in sn)
    requires n == n0 - {del} || (del in X && del in n0 && n == n0[del := ContentDeleted(n0[del])])
    requires forall g :: g != del && g != repl ==> ChildrenOf(k, g) == Without(ChildrenOf(k0, g), {del})
    ensures Confined(sn, X, R, n0, k0, n, k)
  {
    DetachConfined(sn, X, R, k0, k, del);
  }

  /** `insertBefore` or `appendChild` of `id` into group `tid` of `X`: `id` leaves every other list. */
  lemma MovedConfined(sn: map<string, Node>, X: set<string>, R: set<string>, n: map<string, Node>, k0: Kids, k: Kids,
                      tid: string, id: string)
    requires tid in X && id in R
    requires forall g :: g != tid ==> ChildrenOf(k, g) == Without(ChildrenOf(k0, g), {id})
    ensures Confined(sn, X, R, n, k0, n, k)
  {
    DetachConfined(sn, X, R, k0, k, id);
  }

  // ------------------------------------------------------------ child reconciliation

  /** Every node of `n0` that has the kind the source gives its id is still there, of that kind. */
  ghost predicate KindsKept(sn: map<string, Node>, n0: map<string, Node>, n: map<string, Node>)
  {
    forall x :: x in n0 && x in sn && n0[x].kind == sn[x].kind ==> x in n && n[x].kind == n0[x].kind
  }

  lemma KindsKeptTrans(sn: map<string, Node>, n0: map<string, Node>, n1: map<string, Node>, n2: map<string, Node>)
    requires KindsKept(sn, n0, n1) && KindsKept(sn, n1, n2)
    ensures KindsKept(sn, n0, n2)
  {
  }

  /**
   * The first `i` children of the target group are the first `i` source children `S`, each a
   * node of the kind the source node has.
   */
  ghost predicate PrefixMatched(sn: map<string, Node>, S: seq<string>, tn: map<string, Node>, C: seq<string>, i: nat)
  {
    i <= |S| && i <= |C| && C[..i] == S[..i]
    && forall j :: 0 <= j < i ==> S[j] in sn && S[j] in tn && tn[S[j]].kind == sn[S[j]].kind
  }

  /**
   * From `n0` to `n` only source children `S` were rebuilt: every node is unchanged or a new node
   * of the source kind under a source child id, and a node is gone only when it was a source
   * child id of another kind.
   */
  ghost predicate Rebuilt(sn: map<string, Node>, S: seq<string>, n0: map<string, Node>, n: map<string, Node>)
  {
    (forall x :: x in n ==> (x in n0 && n[x] == n0[x]) || (x in S && x in sn && n[x] == NewNode(sn[x].kind)))
    && (forall x :: x in n0 && x !in n ==> x in S && x in sn && n0[x].kind != sn[x].kind)
  }

  lemma RebuiltTrans(sn: map<string, Node>, S: seq<string>, n0: map<string, Node>, n1: map<string, Node>, n2: map<string, Node>)
    requires Rebuilt(sn, S, n0, n1) && Rebuilt(sn, S, n1, n2)
    ensures Rebuilt(sn, S, n0, n2)
  {
    forall x | x in n0 && x !in n2
      ensures x in S && x in sn && n0[x].kind != sn[x].kind
    {
      if x in n1 {
        assert n1[x] == n0[x] || n1[x] == NewNode(sn[x].kind);
      }
    }
  }

  /** Deleting a node whose kind differs from the source keeps the kinds that match, and rebuilds once it is gone. */
  lemma MismatchDropped(sn: map<string, Node>, S: seq<string>, n0: map<string, Node>, n1: map<string, Node>, id: string)
    requires id in S && id in sn && id in n0 && n0[id].kind != sn[id].kind
    requires n1 == n0 - {id} || n1 == n0[id := ContentDeleted(n0[id])]
    ensures KindsKept(sn, n0, n1)
    ensures id !in n1 ==> Rebuilt(sn, S, n0, n1)
  {
  }

  /** Creating a missing source child under its own id rebuilds it and keeps every other node. */
  lemma CreatedRebuilt(sn: map<string, Node>, S: seq<string>, n0: map<string, Node>, n1: map<string, Node>, id: string)
    requires id in S && id in sn && id !in n0 && n1 == n0[id := NewNode(sn[id].kind)]
    ensures KindsKept(sn, n0, n1) && Rebuilt(sn, S, n0, n1)
  {
  }

  /** Removing `id` from a list, after something was appended, keeps a front part that lacks `id`. */
  lemma PrefixAfterDelete(C: seq<string>, D: seq<string>, id: string, i: nat)
    requires i <= |C| && id !in C[..i]
    ensures |Without(C + D, {id})| >= i && Without(C + D, {id})[..i] == C[..i]
  {
    WithoutConcat(C, D, {id});
    assert C == C[..i] + C[i..];
    WithoutConcat(C[..i], C[i..], {id});
    WithoutAbsent(C[..i], id);
  }

  /**
   * `targetGrp.insertBefore(targNode, tarChildren[srcPos])`, or `appendChild` past the end: node
   * `id`, not among the first `i` children, becomes child number `i` of group `tid`.
   */
  method MoveToPosition(target: NodeTree, tid: string, id: string, i: nat)
    requires target.Valid() && tid in target.nodes && target.nodes[tid].kind == Group && id in target.nodes
    requires i <= |ChildrenOf(target.kids, tid)| && id !in ChildrenOf(target.kids, tid)[..i]
    requires i < |ChildrenOf(target.kids, tid)| ==> ChildrenOf(target.kids, tid)[i] != id
    modifies target
    ensures target.Valid() && target.nodes == old(target.nodes)
    ensures |ChildrenOf(target.kids, tid)| > i
    ensures ChildrenOf(target.kids, tid)[..i + 1] == ChildrenOf(old(target.kids), tid)[..i] + [id]
    ensures forall g :: g != tid ==> ChildrenOf(target.kids, g) == Without(ChildrenOf(old(target.kids), g), {id})
  {
    var C := ChildrenOf(target.kids, tid);
    ghost var k0 := target.kids;
    ghost var D := ChildrenOf(Detached(k0, id), tid);
    DetachedPrefix(k0, tid, id, i);
    if i < |C| {
      DetachedForest(target.nodes, k0, id);
      var idx := target.InsertBefore(tid, id, C[i]);
      if idx != i {
        DistinctIndex(D, i, idx);
      }
    } else {
      target.AppendChild(tid, id);
    }
    PlacedAt(k0, tid, id, i);
  }

  /**
   * Detaching `id`, which is not among the first `i` children of `tid`, keeps those children in
   * front; the child at `i`, when it is not `id`, stays at `i`; with nothing past `i` the list
   * ends at `i`.
   */
  lemma DetachedPrefix(kids: Kids, tid: string, id: string, i: nat)
    requires i <= |ChildrenOf(kids, tid)| && id !in ChildrenOf(kids, tid)[..i]
    requires i < |ChildrenOf(kids, tid)| ==> ChildrenOf(kids, tid)[i] != id
    ensures var C, D := ChildrenOf(kids, tid), ChildrenOf(Detached(kids, id), tid);
      |D| >= i && D[..i] == C[..i] && (i < |C| ==> |D| > i && D[i] == C[i]) && (i == |C| ==> |D| == i)
  {
    var C := ChildrenOf(kids, tid);
    DetachedList(kids, id, tid);
    PrefixAfterDelete(C, [], id, i);
    assert C + [] == C;
    assert C == C[..i] + C[i..];
    WithoutConcat(C[..i], C[i..], {id});
    WithoutAbsent(C[..i], id);
    if i < |C| {
      assert Without(C[i..], {id}) == [C[i]] + Without(C[i + 1..], {id}) by {
        assert C[i..][1..] == C[i + 1..];
      }
    } else {
      assert C[i..] == [];
    }
  }

  /** `id` inserted at index `i` of the detached child lists of `tid`, seen from each group. */
  lemma PlacedAt(kids: Kids, tid: string, id: string, i: nat)
    requires i <= |ChildrenOf(Detached(kids, id), tid)| && i <= |ChildrenOf(kids, tid)|
    requires ChildrenOf(Detached(kids, id), tid)[..i] == ChildrenOf(kids, tid)[..i]
    ensures var c := ChildrenOf(InsertedAt(kids, tid, id, i), tid);
      |c| > i && c[..i + 1] == ChildrenOf(kids, tid)[..i] + [id]
    ensures forall g :: g != tid ==> ChildrenOf(InsertedAt(kids, tid, id, i), g) == Without(ChildrenOf(kids, g), {id})
  {
    var D := ChildrenOf(Detached(kids, id), tid);
    assert ChildrenOf(InsertedAt(kids, tid, id, i), tid) == D[..i] + [id] + D[i..];
    assert (D[..i] + [id] + D[i..])[..i + 1] == D[..i] + [id];
    forall g | g != tid
      ensures ChildrenOf(InsertedAt(kids, tid, id, i), g) == Without(ChildrenOf(kids, g), {id})
    {
      DetachedList(kids, id, g);
    }
  }

  /** A source child past the matched front is not among the matched children. */
  lemma NotInFront(sn: map<string, Node>, S: seq<string>, tn: map<string, Node>, C: seq<string>, i: nat)
    requires Distinct(S) && i < |S| && PrefixMatched(sn, S, tn, C, i)
    ensures S[i] !in C[..i]
  {
    forall j | 0 <= j < i
      ensures S[j] != S[i]
    {
    }
  }

  /** Every child listed by a group is a node of the arena. */
  lemma ChildIsNode(nodes: map<string, Node>, kids: Kids, g: string, k: nat)
    requires Forest(nodes, kids) && k < |ChildrenOf(kids, g)|
    ensures ChildrenOf(kids, g)[k] in nodes
  {
    assert g in kids;
  }

  /**
   * The search of one pass of the ordering loop of `syncNodeRecursive`: `getNodePosInArray` from
   * `srcPos` on, else the node of that id anywhere in the store; a node of another kind is deleted
   * (its children move to `tid`) and a node of the source kind is created under the source id when
   * none is left. The result is where the node was found among the children from `i` on, or -1.
   */
  method FindOrRebuild(sn: map<string, Node>, S: seq<string>, i: nat, target: NodeTree, session: DocStoreSession, tid: string)
    returns (r: Result<int>)
    requires Distinct(S) && i < |S| && tid !in S && (forall x :: x in S ==> x in sn)
    requires target.Valid() && tid in target.nodes && target.nodes[tid].kind == Group
    requires PrefixMatched(sn, S, target.nodes, ChildrenOf(target.kids, tid), i)
    modifies target, session
    ensures target.Valid() && tid in target.nodes && target.nodes[tid].kind == Group
    ensures session.transactionRunning == old(session.transactionRunning) && session.backend == old(session.backend)
      && session.openStoreId == old(session.openStoreId)
    ensures r.Err? ==> r.error == "Node ID already exists: " + S[i]
    ensures KindsKept(sn, old(target.nodes), target.nodes)
    ensures r.Ok? ==> PrefixMatched(sn, S, target.nodes, ChildrenOf(target.kids, tid), i)
    ensures r.Ok? ==> S[i] in target.nodes && target.nodes[S[i]].kind == sn[S[i]].kind
    ensures r.Ok? ==> Rebuilt(sn, S, old(target.nodes), target.nodes)
    ensures r.Ok? ==> r.value == -1 || r.value >= i
    ensures r.Ok? && r.value == i ==> i < |ChildrenOf(target.kids, tid)| && ChildrenOf(target.kids, tid)[i] == S[i]
    ensures r.Ok? && r.value != i ==>
      i < |ChildrenOf(target.kids, tid)| ==> ChildrenOf(target.kids, tid)[i] != S[i]
    ensures Confined(sn, {tid} + Elems(S), Elems(S), old(target.nodes), old(target.kids), target.nodes, target.kids)
  {
    var id := S[i];
    var C := ChildrenOf(target.kids, tid);
    NotInFront(sn, S, target.nodes, C, i);
    var targPos := GetNodePosInArray(id, C, i);
    if targPos >= 0 {
      ChildIsNode(target.nodes, target.kids, tid, targPos);
    }
    var found := targPos >= 0 || target.NodeIdExists(id);
    if !found || target.nodes[id].kind != sn[id].kind {
      var rebuilt := Rebuild(sn, S, i, target, session, tid);
      if rebuilt.Err? {
        return Err(rebuilt.error);
      }
      targPos := -1;
    } else {
      ConfinedRefl(sn, {tid} + Elems(S), Elems(S), target.nodes, target.kids);
    }
    r := Ok(targPos);
  }

  /**
   * No node of source child id `S[i]` with the source kind exists: a node of that id and another
   * kind is deleted, and a new node of the source kind is created under the id.
   */
  method Rebuild(sn: map<string, Node>, S: seq<string>, i: nat, target: NodeTree, session: DocStoreSession, tid: string)
    returns (r: Result<()>)
    requires Distinct(S) && i < |S| && tid !in S && (forall x :: x in S ==> x in sn)
    requires target.Valid() && tid in target.nodes && target.nodes[tid].kind == Group
    requires PrefixMatched(sn, S, target.nodes, ChildrenOf(target.kids, tid), i)
    requires S[i] in target.nodes ==> target.nodes[S[i]].kind != sn[S[i]].kind
    modifies target, session
    ensures target.Valid() && tid in target.nodes && target.nodes[tid].kind == Group
    ensures session.transactionRunning == old(session.transactionRunning) && session.backend == old(session.backend)
      && session.openStoreId == old(session.openStoreId)
    ensures r.Err? ==> r.error == "Node ID already exists: " + S[i]
    ensures KindsKept(sn, old(target.nodes), target.nodes)
    ensures r.Ok? ==> PrefixMatched(sn, S, target.nodes, ChildrenOf(target.kids, tid), i)
    ensures r.Ok? ==> S[i] in target.nodes && target.nodes[S[i]].kind == sn[S[i]].kind
    ensures r.Ok? ==> Rebuilt(sn, S, old(target.nodes), target.nodes)
    ensures r.Ok? ==> S[i] !in ChildrenOf(target.kids, tid)
    ensures Confined(sn, {tid} + Elems(S), Elems(S), old(target.nodes), old(target.kids), target.nodes, target.kids)
  {
    ghost var X, R := {tid} + Elems(S), Elems(S);
    ghost var n0, k0 := target.nodes, target.kids;
    if S[i] in target.nodes {
      DropMismatched(sn, S, i, target, session, tid);
    } else {
      assert S[i] !in ChildrenOf(target.kids, tid) by {
        assert tid in target.kids ==> forall c :: c in target.kids[tid] ==> c in target.nodes;
      }
      ConfinedRefl(sn, X, R, n0, k0);
    }
    ghost var n1, k1 := target.nodes, target.kids;
    var created := CreateMissing(sn, S, i, target, tid);
    ConfinedTrans(sn, X, R, n0, k0, n1, k1, target.nodes, target.kids);
    if created.Err? {
      return Err(created.error);
    }
    KindsKeptTrans(sn, n0, n1, target.nodes);
    RebuiltTrans(sn, S, n0, n1, target.nodes);
    r := Ok(());
  }

  /**
   * The node of source child id `S[i]` has another kind than the source node: `deleteSingleNode`
   * removes it, its children moving to the end of `tid`; the matched front stays.
   */
  method DropMismatched(sn: map<string, Node>, S: seq<string>, i: nat, target: NodeTree, session: DocStoreSession, tid: string)
    requires Distinct(S) && i < |S| && tid !in S && (forall x :: x in S ==> x in sn)
    requires target.Valid() && tid in target.nodes && target.nodes[tid].kind == Group
    requires PrefixMatched(sn, S, target.nodes, ChildrenOf(target.kids, tid), i)
    requires S[i] in target.nodes && target.nodes[S[i]].kind != sn[S[i]].kind
    modifies target, session
    ensures target.Valid() && tid in target.nodes && target.nodes[tid].kind == Group
    ensures session.transactionRunning == old(session.transactionRunning) && session.backend == old(session.backend)
      && session.openStoreId == old(session.openStoreId)
    ensures KindsKept(sn, old(target.nodes), target.nodes)
    ensures S[i] !in target.nodes ==> Rebuilt(sn, S, old(target.nodes), target.nodes)
    ensures PrefixMatched(sn, S, target.nodes, ChildrenOf(target.kids, tid), i)
    ensures S[i] !in ChildrenOf(target.kids, tid)
    ensures Confined(sn, {tid} + Elems(S), Elems(S), old(target.nodes), old(target.kids), target.nodes, target.kids)
  {
    var id := S[i];
    var C := ChildrenOf(target.kids, tid);
    NotInFront(sn, S, target.nodes, C, i);
    ghost var n0, k0 := target.nodes, target.kids;
    var _ := DeleteSingleNode(target, session, id, tid);
    DeleteConfined(sn, {tid} + Elems(S), Elems(S), n0, k0, target.nodes, target.kids, id, tid);
    MismatchDropped(sn, S, n0, target.nodes, id);
    PrefixAfterDelete(C, ChildrenOf(k0, id), id, i);
    assert id !in ChildrenOf(target.kids, tid) by {
      WithoutMeans(C + ChildrenOf(k0, id), {id}, id);
    }
  }

  /**
   * `createNodeOfSameType(srcNode, COPY_NODE_ID_KEEP)` for source child id `S[i]`: a new node of the
   * source kind, in no group, under the source id, or the error when the id is still taken.
   */
  method CreateMissing(sn: map<string, Node>, S: seq<string>, i: nat, target: NodeTree, tid: string)
    returns (r: Result<string>)
    requires i < |S| && tid !in S && (forall x :: x in S ==> x in sn)
    requires target.Valid() && tid in target.nodes && target.nodes[tid].kind == Group
    modifies target
    ensures target.Valid() && tid in target.nodes && target.nodes[tid].kind == Group
    ensures target.kids == old(target.kids)
    ensures r.Err? ==> r.error == "Node ID already exists: " + S[i] && target.nodes == old(target.nodes)
    ensures r.Ok? ==> KindsKept(sn, old(target.nodes), target.nodes) && Rebuilt(sn, S, old(target.nodes), target.nodes)
    ensures r.Ok? ==> S[i] !in old(target.nodes) && S[i] in target.nodes && target.nodes[S[i]].kind == sn[S[i]].kind
    ensures Confined(sn, {tid} + Elems(S), Elems(S), old(target.nodes), old(target.kids), target.nodes, target.kids)
  {
    var id := S[i];
    r := CreateNodeOfSameType(sn[id].kind, id, target, CopyNodeIdKeep);
    if r.Err? {
      ConfinedRefl(sn, {tid} + Elems(S), Elems(S), target.nodes, target.kids);
      return;
    }
    NodeSetConfined(sn, {tid} + Elems(S), Elems(S), old(target.nodes), target.kids, id, NewNode(sn[id].kind));
    CreatedRebuilt(sn, S, old(target.nodes), target.nodes, id);
  }

  /**
   * One pass of the ordering loop of `syncNodeRecursive`: source child `S[i]` is found or rebuilt
   * and, unless it already is, moved to position `i` of the target group's children.
   */
  method PlaceChild(sn: map<string, Node>, S: seq<string>, i: nat, target: NodeTree, session: DocStoreSession, tid: string)
    returns (r: Result<()>)
    requires Distinct(S) && i < |S| && tid !in S && (forall x :: x in S ==> x in sn)
    requires target.Valid() && tid in target.nodes && target.nodes[tid].kind == Group
    requires PrefixMatched(sn, S, target.nodes, ChildrenOf(target.kids, tid), i)
    modifies target, session
    ensures target.Valid() && tid in target.nodes && target.nodes[tid].kind == Group
    ensures session.transactionRunning == old(session.transactionRunning) && session.backend == old(session.backend)
      && session.openStoreId == old(session.openStoreId)
    ensures r.Err? ==> r.error == "Node ID already exists: " + S[i]
    ensures KindsKept(sn, old(target.nodes), target.nodes)
    ensures r.Ok? ==> PrefixMatched(sn, S, target.nodes, ChildrenOf(target.kids, tid), i + 1)
    ensures r.Ok? ==> Rebuilt(sn, S, old(target.nodes), target.nodes)
    ensures Confined(sn, {tid} + Elems(S), Elems(S), old(target.nodes), old(target.kids), target.nodes, target.kids)
  {
    var pos := FindOrRebuild(sn, S, i, target, session, tid);
    if pos.Err? {
      return Err(pos.error);
    }
    ghost var C := ChildrenOf(target.kids, tid);
    NotInFront(sn, S, target.nodes, C, i);
    if pos.value < 0 || pos.value > i {
      ghost var n1, k1 := target.nodes, target.kids;
      MoveToPosition(target, tid, S[i], i);
      MovedConfined(sn, {tid} + Elems(S), Elems(S), n1, k1, target.kids, tid, S[i]);
      ConfinedTrans(sn, {tid} + Elems(S), Elems(S), old(target.nodes), old(target.kids), n1, k1, target.nodes, target.kids);
    } else {
      assert C[..i + 1] == C[..i] + [C[i]];
    }
    PrefixExtended(sn, S, target.nodes, C, ChildrenOf(target.kids, tid), i);
    r := Ok(());
  }

  lemma PrefixExtended(sn: map<string, Node>, S: seq<string>, tn: map<string, Node>, C: seq<string>, C': seq<string>, i: nat)
    requires PrefixMatched(sn, S, tn, C, i) && i < |S|
    requires S[i] in sn && S[i] in tn && tn[S[i]].kind == sn[S[i]].kind
    requires |C'| > i && C'[..i + 1] == C[..i] + [S[i]]
    ensures PrefixMatched(sn, S, tn, C', i + 1)
  {
    assert S[..i + 1] == S[..i] + [S[i]];
  }

  /**
   * The ordering loop of `syncNodeRecursive` over the source children `S`: afterwards the first
   * `|S|` children of target group `tid` carry the source ids in source order, each a node of the
   * source kind.
   */
  method OrderChildren(sn: map<string, Node>, S: seq<string>, target: NodeTree, session: DocStoreSession, tid: string)
    returns (r: Result<()>)
    requires Distinct(S) && tid !in S && (forall x :: x in S ==> x in sn)
    requires target.Valid() && tid in target.nodes && target.nodes[tid].kind == Group
    modifies target, session
    ensures target.Valid() && tid in target.nodes && target.nodes[tid].kind == Group
    ensures session.transactionRunning == old(session.transactionRunning) && session.backend == old(session.backend)
      && session.openStoreId == old(session.openStoreId)
    ensures r.Err? ==> exists x :: x in S && r.error == "Node ID already exists: " + x
    ensures KindsKept(sn, old(target.nodes), target.nodes)
    ensures r.Ok? ==> PrefixMatched(sn, S, target.nodes, ChildrenOf(target.kids, tid), |S|)
    ensures r.Ok? ==> Rebuilt(sn, S, old(target.nodes), target.nodes)
    ensures Confined(sn, {tid} + Elems(S), Elems(S), old(target.nodes), old(target.kids), target.nodes, target.kids)
  {
    ghost var n0, k0 := target.nodes, target.kids;
    ConfinedRefl(sn, {tid} + Elems(S), Elems(S), n0, k0);
    for i := 0 to |S|
      invariant target.Valid() && tid in target.nodes && target.nodes[tid].kind == Group
      invariant session.transactionRunning == old(session.transactionRunning) && session.backend == old(session.backend)
      && session.openStoreId == old(session.openStoreId)
      invariant PrefixMatched(sn, S, target.nodes, ChildrenOf(target.kids, tid), i)
      invariant Rebuilt(sn, S, n0, target.nodes) && KindsKept(sn, n0, target.nodes)
      invariant Confined(sn, {tid} + Elems(S), Elems(S), n0, k0, target.nodes, target.kids)
    {
      ghost var n1, k1 := target.nodes, target.kids;
      var placed := PlaceChild(sn, S, i, target, session, tid);
      KindsKeptTrans(sn, n0, n1, target.nodes);
      ConfinedTrans(sn, {tid} + Elems(S), Elems(S), n0, k0, n1, k1, target.nodes, target.kids);
      if placed.Err? {
        assert S[i] in S;
        return Err(placed.error);
      }
      RebuiltTrans(sn, S, n0, n1, target.nodes);
    }
    r := Ok(());
  }

  /** From `n0` to `n` nodes were only deleted, and only nodes whose ids the source session lacks. */
  ghost predicate Pruned(sn: map<string, Node>, n0: map<string, Node>, n: map<string, Node>)
  {
    (forall x :: x in n ==> x in n0 && n[x] == n0[x])
    && (forall x :: x in n0 && x !in n ==> x !in sn)
  }

  /**
   * The removal loop of `syncNodeRecursive`: every child of `tid` from position `m` on whose id
   * the source session does not know is deleted (a deleted group's children move to the end of
   * `tid` and are looked at in turn); the first `m` children stay. The result says whether any
   * node was deleted.
   */
  method RemoveExtraChildren(sn: map<string, Node>, m: nat, target: NodeTree, session: DocStoreSession, tid: string)
    returns (r: Result<bool>)
    requires target.Valid() && tid in target.nodes && target.nodes[tid].kind == Group
    requires m <= |ChildrenOf(target.kids, tid)|
    modifies target, session
    ensures target.Valid() && tid in target.nodes && target.nodes[tid].kind == Group
    ensures session.transactionRunning == old(session.transactionRunning) && session.backend == old(session.backend)
      && session.openStoreId == old(session.openStoreId)
    ensures Pruned(sn, old(target.nodes), target.nodes)
    ensures r.Err? ==> r.error == SelfReplacementError
    ensures r.Ok? ==> |ChildrenOf(target.kids, tid)| >= m && ChildrenOf(target.kids, tid)[..m] == ChildrenOf(old(target.kids), tid)[..m]
    ensures r.Ok? ==> forall k :: m <= k < |ChildrenOf(target.kids, tid)| ==> ChildrenOf(target.kids, tid)[k] in sn
    ensures r.Ok? && !r.value ==> target.nodes == old(target.nodes) && target.kids == old(target.kids)
    ensures r.Ok? && r.value ==> |target.nodes| < |old(target.nodes)|
    ensures Confined(sn, {tid}, {}, old(target.nodes), old(target.kids), target.nodes, target.kids)
  {
    ghost var n0, k0 := target.nodes, target.kids;
    ConfinedRefl(sn, {tid}, {}, n0, k0);
    var C := ChildrenOf(target.kids, tid);
    var i: nat := m;
    var removed := false;
    while i < |C|
      invariant target.Valid() && session.transactionRunning == old(session.transactionRunning) && session.backend == old(session.backend)
      && session.openStoreId == old(session.openStoreId)
      invariant Removing(sn, n0, k0, tid, m, target.nodes, target.kids, C, i, removed)
      invariant Confined(sn, {tid}, {}, n0, k0, target.nodes, target.kids)
      decreases |target.nodes|, |C| - i
    {
      var step;
      ghost var n1, k1 := target.nodes, target.kids;
      step, C, i, removed := RemovalStep(sn, n0, k0, m, target, session, tid, C, i, removed);
      ConfinedTrans(sn, {tid}, {}, n0, k0, n1, k1, target.nodes, target.kids);
      if step.Err? {
        return Err(step.error);
      }
    }
    r := Ok(removed);
  }

  /** The state of the removal loop after looking at the children before position `i`. */
  ghost predicate Removing(sn: map<string, Node>, n0: map<string, Node>, k0: Kids, tid: string, m: nat,
                           nodes: map<string, Node>, kids: Kids, C: seq<string>, i: nat, removed: bool)
  {
    tid in nodes && nodes[tid].kind == Group
    && C == ChildrenOf(kids, tid) && Scanned(sn, C, ChildrenOf(k0, tid), m, i)
    && Pruned(sn, n0, nodes)
    && (!removed ==> nodes == n0 && kids == k0)
    && (removed ==> |nodes| < |n0|)
  }

  /** One turn of the removal loop: the child at `i` is deleted when the source does not know it. */
  method RemovalStep(sn: map<string, Node>, ghost n0: map<string, Node>, ghost k0: Kids, m: nat,
                     target: NodeTree, session: DocStoreSession, tid: string, C: seq<string>, i: nat, removed: bool)
    returns (r: Result<()>, C': seq<string>, i': nat, removed': bool)
    requires target.Valid() && Removing(sn, n0, k0, tid, m, target.nodes, target.kids, C, i, removed) && i < |C|
    modifies target, session
    ensures target.Valid() && session.transactionRunning == old(session.transactionRunning) && session.backend == old(session.backend)
      && session.openStoreId == old(session.openStoreId)
    ensures r.Err? ==> r.error == SelfReplacementError && target.nodes == old(target.nodes)
    ensures r.Ok? ==> Removing(sn, n0, k0, tid, m, target.nodes, target.kids, C', i', removed')
    ensures r.Ok? ==> |target.nodes| < |old(target.nodes)| || (target.nodes == old(target.nodes) && |C'| - i' < |C| - i)
    ensures Confined(sn, {tid}, {}, old(target.nodes), old(target.kids), target.nodes, target.kids)
  {
    if C[i] !in sn {
      ghost var n1 := target.nodes;
      var deleted := RemoveChildAt(sn, target, session, tid, i);
      if deleted.Err? {
        return Err(deleted.error), C, i, removed;
      }
      PrunedTrans(sn, n0, n1, target.nodes);
      FrontKept(sn, C, ChildrenOf(target.kids, tid), ChildrenOf(k0, tid), m, i);
      r, C', i', removed' := Ok(()), ChildrenOf(target.kids, tid), i, true;
    } else {
      r, C', i', removed' := Ok(()), C, i + 1, removed;
      ConfinedRefl(sn, {tid}, {}, target.nodes, target.kids);
    }
  }

  /** One deletion of the removal loop: the child at `i`, unknown to the source, is deleted. */
  method RemoveChildAt(sn: map<string, Node>, target: NodeTree, session: DocStoreSession, tid: string, i: nat)
    returns (r: Result<nat>)
    requires target.Valid() && tid in target.nodes && target.nodes[tid].kind == Group
    requires i < |ChildrenOf(target.kids, tid)| && ChildrenOf(target.kids, tid)[i] !in sn
    modifies target, session
    ensures target.Valid() && tid in target.nodes && target.nodes[tid].kind == Group
    ensures session.transactionRunning == old(session.transactionRunning) && session.backend == old(session.backend)
      && session.openStoreId == old(session.openStoreId)
    ensures Pruned(sn, old(target.nodes), target.nodes)
    ensures r.Err? ==> r.error == SelfReplacementError && target.nodes == old(target.nodes)
    ensures r.Ok? ==> |ChildrenOf(target.kids, tid)| >= i && ChildrenOf(target.kids, tid)[..i] == ChildrenOf(old(target.kids), tid)[..i]
    ensures r.Ok? ==> |target.nodes| < |old(target.nodes)|
    ensures Confined(sn, {tid}, {}, old(target.nodes), old(target.kids), target.nodes, target.kids)
  {
    var C := ChildrenOf(target.kids, tid);
    var x := C[i];
    ChildIsNode(target.nodes, target.kids, tid, i);
    ghost var k1, n1 := target.kids, target.nodes;
    r := DeleteSingleNode(target, session, x, tid);
    if r.Err? {
      ConfinedRefl(sn, {tid}, {}, target.nodes, target.kids);
      return;
    }
    assert !Parentless(k1, x) by {
      assert tid in k1 && x in k1[tid];
    }
    assert x !in C[..i] by {
      assert tid in k1 && Distinct(C);
    }
    PrefixAfterDelete(C, ChildrenOf(k1, x), x, i);
    assert target.nodes == n1 - {x};
    DeleteConfined(sn, {tid}, {}, n1, k1, target.nodes, target.kids, x, tid);
  }

  lemma PrunedTrans(sn: map<string, Node>, n0: map<string, Node>, n1: map<string, Node>, n2: map<string, Node>)
    requires Pruned(sn, n0, n1) && Pruned(sn, n1, n2)
    ensures Pruned(sn, n0, n2)
  {
  }

  /** The removal loop has kept the first `m` children and checked those up to `i`. */
  ghost predicate Scanned(sn: map<string, Node>, C: seq<string>, C0: seq<string>, m: nat, i: nat)
  {
    m <= i <= |C| && m <= |C0| && C[..m] == C0[..m] && forall k :: m <= k < i ==> C[k] in sn
  }

  lemma FrontKept(sn: map<string, Node>, C: seq<string>, C': seq<string>, C0: seq<string>, m: nat, i: nat)
    requires Scanned(sn, C, C0, m, i) && i <= |C'| && C'[..i] == C[..i]
    ensures Scanned(sn, C', C0, m, i)
  {
    assert C[..m] == C[..i][..m] && C'[..m] == C'[..i][..m];
    forall k | m <= k < i
      ensures C'[k] == C[k]
    {
      assert C[k] == C[..i][k] && C'[k] == C'[..i][k];
    }
  }
}
