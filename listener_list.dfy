/*
 * The listener lists of document stores and lock managers: entries are compared by identity,
 * removing drops the first identical entry, and adding removes before it appends.
 */
module ListenerLists {

  /** No entry occurs twice. */
  predicate NoDuplicates<T(==)>(xs: seq<T>)
  {
    forall i, j :: 0 <= i < j < |xs| ==> xs[i] != xs[j]
  }

  /** The position of the first entry identical to `x`, or `|xs|` when there is none. */
  function FirstIndex<T(==)>(xs: seq<T>, x: T): (i: nat)
    ensures i <= |xs|
    ensures i < |xs| ==> xs[i] == x
    ensures forall j :: 0 <= j < i ==> xs[j] != x
    decreases |xs|
  {
    if xs == [] then 0 else if xs[0] == x then 0 else 1 + FirstIndex(xs[1..], x)
  }

  /** The list without its first entry identical to `x`. */
  function RemoveFirst<T(==)>(xs: seq<T>, x: T): seq<T>
  {
    var i := FirstIndex(xs, x);
    if i < |xs| then xs[..i] + xs[i + 1..] else xs
  }

  /** Removing drops exactly one occurrence of `x` when there is one, and nothing otherwise. */
  lemma RemoveFirstCounts<T>(xs: seq<T>, x: T)
    ensures x !in xs ==> RemoveFirst(xs, x) == xs
    ensures x in xs ==> |RemoveFirst(xs, x)| == |xs| - 1
    ensures multiset(RemoveFirst(xs, x)) == multiset(xs) - multiset{x}
  {
    var i := FirstIndex(xs, x);
    if i < |xs| {
      assert xs == xs[..i] + [x] + xs[i + 1..];
      assert multiset(xs) == multiset(xs[..i]) + multiset{x} + multiset(xs[i + 1..]);
    } else {
      assert x !in xs;
      assert multiset(xs)[x] == 0;
    }
  }

  /** On a list without duplicates, removing `x` removes it completely and no other entry. */
  lemma RemoveFirstOfUnique<T>(xs: seq<T>, x: T)
    requires NoDuplicates(xs)
    ensures NoDuplicates(RemoveFirst(xs, x))
    ensures x !in RemoveFirst(xs, x)
    ensures forall y :: y != x ==> (y in RemoveFirst(xs, x) <==> y in xs)
  {
    var i := FirstIndex(xs, x);
    if i < |xs| {
      DropAtUnique(xs, i);
    }
  }

  /** Dropping the entry at `i` from a list without duplicates removes that entry and no other. */
  lemma DropAtUnique<T>(xs: seq<T>, i: nat)
    requires NoDuplicates(xs) && i < |xs|
    ensures NoDuplicates(xs[..i] + xs[i + 1..])
    ensures xs[i] !in xs[..i] + xs[i + 1..]
    ensures forall y :: y != xs[i] ==> (y in xs[..i] + xs[i + 1..] <==> y in xs)
  {
    var r := xs[..i] + xs[i + 1..];
    assert forall k :: 0 <= k < |r| ==> r[k] == xs[if k < i then k else k + 1];
    forall y | y in xs && y != xs[i]
      ensures y in r
    {
      var m :| 0 <= m < |xs| && xs[m] == y;
      assert r[if m < i then m else m - 1] == y;
    }
  }

  /** `add(listener)`: remove any identical entry, then append. */
  function AddLast<T(==)>(xs: seq<T>, x: T): seq<T>
  {
    RemoveFirst(xs, x) + [x]
  }

  /** After adding, `x` occurs exactly once and last, and the other entries are those before. */
  lemma AddLastOnce<T>(xs: seq<T>, x: T)
    requires NoDuplicates(xs)
    ensures NoDuplicates(AddLast(xs, x))
    ensures AddLast(xs, x)[|AddLast(xs, x)| - 1] == x
    ensures multiset(AddLast(xs, x))[x] == 1
    ensures forall y :: y != x ==> (y in AddLast(xs, x) <==> y in xs)
  {
    RemoveFirstOfUnique(xs, x);
    var r := RemoveFirst(xs, x);
    assert multiset(r)[x] == 0;
    assert multiset(r + [x]) == multiset(r) + multiset{x};
    forall i, j | 0 <= i < j < |r + [x]|
      ensures (r + [x])[i] != (r + [x])[j]
    {
      if j == |r| {
        assert (r + [x])[i] == r[i];
      } else {
        assert (r + [x])[i] == r[i] && (r + [x])[j] == r[j];
      }
    }
  }
}
