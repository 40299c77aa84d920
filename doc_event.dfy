/*
 * Document events (DocEventImpl) and the compression of an event queue (EventQueueUtil): runs of
 * adjacent events about the same parent, of the same kind and language, collapse into the last
 * event of the run, which collects the node ids of the whole run.
 */
module DocEvents {
  import opened Wrappers

  const NodesAdded := "nodesAdded"
  const NodesRemoved := "nodesRemoved"
  const NodesChanged := "nodesChanged"
  const NodesStructureChanged := "nodesStructureChanged"

  /** What an event says: its name, parent id, node ids and language (`None` for null). */
  datatype EventValue = EventValue(eventName: string, parentId: Option<string>, nodeIds: set<string>, lang: Option<string>)

  /** `DocEventImpl`: name, parent and language are fixed; the node-id set grows. */
  class DocEvent {
    const eventName: string
    const parentId: Option<string>
    const lang: Option<string>
    var nodeIds: set<string>

    constructor (evtName: string, parentId: Option<string>, nodeId: Option<string>, lang: Option<string>)
      ensures eventName == evtName && this.parentId == parentId && this.lang == lang
      ensures nodeIds == if nodeId.Some? then {nodeId.value} else {}
    {
      eventName := evtName;
      this.parentId := parentId;
      this.lang := lang;
      nodeIds := if nodeId.Some? then {nodeId.value} else {};
    }

    /** `addNodeIds(ids)`: the set becomes the union; a repeated id collapses. */
    method AddNodeIds(ids: set<string>)
      modifies this
      ensures nodeIds == old(nodeIds) + ids
    {
      nodeIds := nodeIds + ids;
    }

    function Value(): (v: EventValue)
      reads this
      ensures v.eventName == eventName && v.parentId == parentId && v.lang == lang && v.nodeIds == nodeIds
    {
      EventValue(eventName, parentId, nodeIds, lang)
    }
  }

  /** The values of a queue of events, in queue order. */
  function Values(q: seq<DocEvent>): (vs: seq<EventValue>)
    reads set e | e in q
    ensures |vs| == |q| && forall k :: 0 <= k < |q| ==> vs[k] == q[k].Value()
  {
    seq(|q|, k requires 0 <= k < |q| reads q => q[k].Value())
  }

  /** `isMergeable`: both parents present and equal, equal names, and equal (or both null) languages. */
  predicate Mergeable(a: EventValue, b: EventValue)
  {
    a.parentId.Some? && b.parentId.Some? && a.parentId == b.parentId
    && a.eventName == b.eventName && a.lang == b.lang
  }

  /** The later event survives a merge and collects both node-id sets. */
  function Merge(earlier: EventValue, later: EventValue): (m: EventValue)
    ensures m.nodeIds == earlier.nodeIds + later.nodeIds
    ensures m.eventName == later.eventName && m.parentId == later.parentId && m.lang == later.lang
  {
    later.(nodeIds := later.nodeIds + earlier.nodeIds)
  }

  /** The merging pass of `compressEvents`, which works from the back of the queue to the front. */
  function Compress(q: seq<EventValue>): (r: seq<EventValue>)
    ensures |r| <= |q| && (q != [] ==> r != [])
    decreases |q|
  {
    if q == [] then [] else Step(q[0], Compress(q[1..]))
  }

  /** The front event merges into the first event of the compressed rest, or stays before it. */
  function Step(x: EventValue, c: seq<EventValue>): seq<EventValue>
  {
    if c != [] && Mergeable(x, c[0]) then [Merge(x, c[0])] + c[1..] else [x] + c
  }

  /** Which events may merge depends only on name, parent and language. */
  predicate SameKey(a: EventValue, b: EventValue)
  {
    a.eventName == b.eventName && a.parentId == b.parentId && a.lang == b.lang
  }

  /** The first event of the compressed queue has the key of the first event of the queue. */
  lemma {:induction false} CompressHeadKey(q: seq<EventValue>)
    requires q != []
    ensures SameKey(Compress(q)[0], q[0])
    decreases |q|
  {
    if |q| > 1 {
      CompressHeadKey(q[1..]);
    }
  }

  /** No two neighbours of the compressed queue can merge. */
  lemma {:induction false} CompressLeavesNoMergeable(q: seq<EventValue>)
    ensures forall k :: 0 <= k < |Compress(q)| - 1 ==> !Mergeable(Compress(q)[k], Compress(q)[k + 1])
    decreases |q|
  {
    if q != [] {
      var c := Compress(q[1..]);
      CompressLeavesNoMergeable(q[1..]);
      var r := Compress(q);
      if c != [] && Mergeable(q[0], c[0]) {
        assert r == [Merge(q[0], c[0])] + c[1..];
        forall k | 0 <= k < |r| - 1
          ensures !Mergeable(r[k], r[k + 1])
        {
          if k == 0 {
            assert r[0].eventName == c[0].eventName && r[0].parentId == c[0].parentId && r[0].lang == c[0].lang;
            assert r[1] == c[1];
          } else {
            assert r[k] == c[k] && r[k + 1] == c[k + 1];
          }
        }
      } else {
        assert r == [q[0]] + c;
        forall k | 0 <= k < |r| - 1
          ensures !Mergeable(r[k], r[k + 1])
        {
          if k > 0 {
            assert r[k] == c[k - 1] && r[k + 1] == c[k];
          }
        }
      }
    }
  }

  /** A queue in which no neighbours can merge is left as it is. */
  lemma {:induction false} CompressOfUnmergeable(q: seq<EventValue>)
    requires forall k :: 0 <= k < |q| - 1 ==> !Mergeable(q[k], q[k + 1])
    ensures Compress(q) == q
    decreases |q|
  {
    if q != [] {
      forall k | 0 <= k < |q[1..]| - 1
        ensures !Mergeable(q[1..][k], q[1..][k + 1])
      {
        assert q[1..][k] == q[k + 1] && q[1..][k + 1] == q[k + 2];
      }
      CompressOfUnmergeable(q[1..]);
      assert [q[0]] + q[1..] == q;
    }
  }

  /** All node ids of a queue. */
  function AllNodeIds(q: seq<EventValue>): set<string>
  {
    if q == [] then {} else q[0].nodeIds + AllNodeIds(q[1..])
  }

  /** Compression loses no node id and invents none. */
  lemma {:induction false} CompressKeepsNodeIds(q: seq<EventValue>)
    ensures AllNodeIds(Compress(q)) == AllNodeIds(q)
    decreases |q|
  {
    if q != [] {
      var c := Compress(q[1..]);
      CompressKeepsNodeIds(q[1..]);
      if c != [] && Mergeable(q[0], c[0]) {
        var r := [Merge(q[0], c[0])] + c[1..];
        assert r[1..] == c[1..];
        assert AllNodeIds(c) == c[0].nodeIds + AllNodeIds(c[1..]);
      } else {
        assert ([q[0]] + c)[1..] == c;
      }
    }
  }

  /** One step of `Compress`, stated for an event put in front of a queue. */
  lemma CompressCons(x: EventValue, rest: seq<EventValue>)
    ensures Compress([x] + rest) == Step(x, Compress(rest))
  {
    assert ([x] + rest)[1..] == rest;
  }

  /** A step on a non-empty front part does not reach into what follows it. */
  lemma StepAppend(x: EventValue, c: seq<EventValue>, tail: seq<EventValue>)
    requires c != []
    ensures Step(x, c + tail) == Step(x, c) + tail
  {
    assert (c + tail)[0] == c[0] && (c + tail)[1..] == c[1..] + tail;
  }

  /**
   * Where neighbours cannot merge, the queue compresses part by part: surviving events keep
   * their relative order.
   */
  lemma {:induction false} CompressSplits(a: seq<EventValue>, b: seq<EventValue>)
    requires a != [] && b != [] && !Mergeable(a[|a| - 1], b[0])
    ensures Compress(a + b) == Compress(a) + Compress(b)
    decreases |a|
  {
    var x := a[0];
    var t := a[1..];
    if t == [] {
      assert a == [x];
      CompressCons(x, b);
      CompressHeadKey(b);
    } else {
      assert t[|t| - 1] == a[|a| - 1];
      calc {
        Compress(a + b);
        { assert a + b == [x] + (t + b); CompressCons(x, t + b); }
        Step(x, Compress(t + b));
        { CompressSplits(t, b); }
        Step(x, Compress(t) + Compress(b));
        { StepAppend(x, Compress(t), Compress(b)); }
        Step(x, Compress(t)) + Compress(b);
        { assert a == [x] + t; CompressCons(x, t); }
        Compress(a) + Compress(b);
      }
    }
  }

  /** How many events of the queue are NODES_CHANGED events. */
  function CountChanged(q: seq<EventValue>): nat
  {
    if q == [] then 0 else (if q[0].eventName == NodesChanged then 1 else 0) + CountChanged(q[1..])
  }

  predicate Distinct(q: seq<DocEvent>)
  {
    forall i, j :: 0 <= i < j < |q| ==> q[i] != q[j]
  }

  /**
   * One merge of the backward pass: `evt` is the event before the already compressed `tail`. It
   * merges into the first event of `tail`, which takes its slot, or it stays in front.
   */
  method MergeInto(evt: DocEvent, tail: seq<DocEvent>) returns (tail': seq<DocEvent>)
    requires tail != [] && evt !in tail && Distinct(tail)
    modifies tail[0]
    ensures Values(tail') == Step(old(evt.Value()), old(Values(tail)))
    ensures tail' == tail || tail' == [evt] + tail
    ensures Distinct(tail')
  {
    var nextevt := tail[0];
    if Mergeable(evt.Value(), nextevt.Value()) {
      ghost var vs := Values(tail);
      assert forall j :: 0 < j < |tail| ==> tail[j] != nextevt;
      nextevt.AddNodeIds(evt.nodeIds);
      tail' := tail;
      assert Values(tail') == [Merge(old(evt.Value()), vs[0])] + vs[1..];
    } else {
      tail' := [evt] + tail;
      assert Values(tail') == [evt.Value()] + Values(tail);
    }
  }

  /**
   * The merging pass of `compressEvents` over the event objects. The list it rewrites in place is
   * at every point the unvisited front `queue[..k]` followed by `tail`, which is what this
   * method keeps.
   */
  method MergePass(queue: seq<DocEvent>) returns (q: seq<DocEvent>)
    requires Distinct(queue)
    modifies set e | e in queue
    ensures Values(q) == Compress(old(Values(queue)))
    ensures forall e :: e in q ==> e in queue
  {
    ghost var ov := Values(queue);
    if queue == [] {
      return queue;
    }
    var k := |queue| - 1;
    var tail := [queue[k]];
    assert ov[k..] == [ov[k]] + [];
    CompressCons(ov[k], []);
    while k > 0
      invariant 0 <= k < |queue| && PassInvariant(queue, ov, k, tail)
      decreases k
    {
      tail := PassStep(queue, ov, k, tail);
      k := k - 1;
    }
    assert ov[0..] == ov;
    q := tail;
  }

  /** What the backward pass keeps: `tail` holds the compression of the visited values. */
  ghost predicate PassInvariant(queue: seq<DocEvent>, ov: seq<EventValue>, k: nat, tail: seq<DocEvent>)
    requires k <= |queue| && |ov| == |queue|
    reads set e | e in queue
    reads set e | e in tail
  {
    && tail != [] && Distinct(tail)
    && (forall e :: e in tail ==> e in queue)
    && (forall j :: 0 <= j < k ==> queue[j] !in tail && queue[j].Value() == ov[j])
    && Values(tail) == Compress(ov[k..])
  }

  /** One iteration of the backward pass. */
  method PassStep(queue: seq<DocEvent>, ghost ov: seq<EventValue>, k: nat, tail: seq<DocEvent>) returns (tail': seq<DocEvent>)
    requires 0 < k < |queue| && |ov| == |queue| && Distinct(queue)
    requires PassInvariant(queue, ov, k, tail)
    modifies set e | e in queue
    ensures PassInvariant(queue, ov, k - 1, tail')
  {
    var i := k - 1;
    assert ov[i..] == [ov[i]] + ov[k..];
    CompressCons(ov[i], ov[k..]);
    tail' := MergeInto(queue[i], tail);
  }

  /** The counting loop of `compressEvents`: it stops at the second NODES_CHANGED event. */
  method NeedsRestructure(q: seq<DocEvent>) returns (b: bool)
    ensures b <==> CountChanged(Values(q)) > 1
  {
    var cnt := 0;
    var i := 0;
    b := false;
    while i < |q|
      invariant 0 <= i <= |q| && cnt <= 1 && !b
      invariant cnt == CountChanged(Values(q)[..i])
    {
      CountChangedSnoc(Values(q), i);
      if q[i].eventName == NodesChanged {
        cnt := cnt + 1;
        if cnt > 1 {
          CountChangedMonotone(Values(q), i + 1);
          return true;
        }
      }
      i := i + 1;
    }
    assert Values(q)[..|q|] == Values(q);
  }

  lemma {:induction false} CountChangedAppend(a: seq<EventValue>, b: seq<EventValue>)
    ensures CountChanged(a + b) == CountChanged(a) + CountChanged(b)
    decreases |a|
  {
    if a != [] {
      assert (a + b)[1..] == a[1..] + b;
      CountChangedAppend(a[1..], b);
    } else {
      assert a + b == b;
    }
  }

  lemma CountChangedSnoc(q: seq<EventValue>, i: nat)
    requires i < |q|
    ensures CountChanged(q[..i + 1]) == CountChanged(q[..i]) + (if q[i].eventName == NodesChanged then 1 else 0)
  {
    assert q[..i + 1] == q[..i] + [q[i]];
    CountChangedAppend(q[..i], [q[i]]);
  }

  lemma CountChangedMonotone(q: seq<EventValue>, i: nat)
    requires i <= |q|
    ensures CountChanged(q[..i]) <= CountChanged(q)
  {
    assert q == q[..i] + q[i..];
    CountChangedAppend(q[..i], q[i..]);
  }

  /**
   * `compressEvents(queue)`: merges runs of mergeable neighbours into their last event; if more
   * than one NODES_CHANGED event is left, the whole queue is replaced by one new
   * NODES_STRUCTURE_CHANGED event without parent and language.
   */
  method CompressEvents(queue: seq<DocEvent>) returns (r: seq<DocEvent>)
    requires Distinct(queue)
    modifies set e | e in queue
    ensures var c := Compress(old(Values(queue)));
      if CountChanged(c) > 1 then
        |r| == 1 && fresh(r[0]) && r[0].Value() == EventValue(NodesStructureChanged, None, {}, None)
      else Values(r) == c && forall e :: e in r ==> e in queue
  {
    var q := MergePass(queue);
    var restructure := NeedsRestructure(q);
    if restructure {
      ghost var q0 := q;
      var pos := |q| - 1;
      while pos >= 0
        invariant -1 <= pos < |q0|
        invariant q == q0[..pos + 1]
        invariant forall e :: e in q ==> e in queue
      {
        q := q[..pos];
        pos := pos - 1;
      }
      var evt := new DocEvent(NodesStructureChanged, None, None, None);
      q := q + [evt];
    }
    r := q;
  }
}
