/*
 * AbstractDocStore: the document listeners of one store and the queue of node events that waits
 * for the next dispatch. Events are queued only while somebody listens; a dispatch compresses a
 * copy of the queue for delivery and empties the queue.
 */
module DocStores {
  import opened Wrappers
  import opened DocEvents
  import opened ListenerLists

  /** A registered document listener; only its identity matters here. */
  class DocListener {
    constructor ()
    {
    }
  }

  class DocStore {
    const storeId: string
    var docListeners: seq<DocListener>
    var eventQueue: seq<DocEvent>
    var dispatchRunning: bool

    /** No listener is registered twice and no event object is queued twice. */
    ghost predicate Valid()
      reads this
    {
      NoDuplicates(docListeners) && Distinct(eventQueue)
    }

    constructor (storeId: string)
      ensures this.storeId == storeId && Valid()
      ensures docListeners == [] && eventQueue == [] && !dispatchRunning
    {
      this.storeId := storeId;
      docListeners := [];
      eventQueue := [];
      dispatchRunning := false;
    }

    /**
     * Appends a new event about `nodeId` under `parentId` when at least one listener is
     * registered; otherwise nothing changes.
     */
    method QueueEvent(eventName: string, parentId: Option<string>, nodeId: Option<string>, lang: Option<string>)
      requires Valid()
      modifies this
      ensures Valid() && docListeners == old(docListeners) && dispatchRunning == old(dispatchRunning)
      ensures old(docListeners) == [] ==> eventQueue == old(eventQueue)
      ensures old(docListeners) != [] ==>
        |eventQueue| == |old(eventQueue)| + 1 && eventQueue[..|old(eventQueue)|] == old(eventQueue)
        && fresh(eventQueue[|eventQueue| - 1])
        && eventQueue[|eventQueue| - 1].Value()
           == EventValue(eventName, parentId, if nodeId.Some? then {nodeId.value} else {}, lang)
    {
      if docListeners != [] {
        var evt := new DocEvent(eventName, parentId, nodeId, lang);
        eventQueue := eventQueue + [evt];
        assert eventQueue[..|old(eventQueue)|] == old(eventQueue);
      }
    }

    /** `nodeAddedEvent(parent, node)`: an added event carries no language. */
    method NodeAddedEvent(parentId: Option<string>, nodeId: Option<string>)
      requires Valid()
      modifies this
      ensures Valid() && docListeners == old(docListeners) && dispatchRunning == old(dispatchRunning)
      ensures old(docListeners) == [] ==> eventQueue == old(eventQueue)
      ensures old(docListeners) != [] ==>
        |eventQueue| == |old(eventQueue)| + 1 && eventQueue[..|old(eventQueue)|] == old(eventQueue)
        && fresh(eventQueue[|eventQueue| - 1])
        && eventQueue[|eventQueue| - 1].Value()
           == EventValue(NodesAdded, parentId, if nodeId.Some? then {nodeId.value} else {}, None)
    {
      QueueEvent(NodesAdded, parentId, nodeId, None);
    }

    /** `nodeRemovedEvent(parent, node)`: a removed event carries no language. */
    method NodeRemovedEvent(parentId: Option<string>, nodeId: Option<string>)
      requires Valid()
      modifies this
      ensures Valid() && docListeners == old(docListeners) && dispatchRunning == old(dispatchRunning)
      ensures old(docListeners) == [] ==> eventQueue == old(eventQueue)
      ensures old(docListeners) != [] ==>
        |eventQueue| == |old(eventQueue)| + 1 && eventQueue[..|old(eventQueue)|] == old(eventQueue)
        && fresh(eventQueue[|eventQueue| - 1])
        && eventQueue[|eventQueue| - 1].Value()
           == EventValue(NodesRemoved, parentId, if nodeId.Some? then {nodeId.value} else {}, None)
    {
      QueueEvent(NodesRemoved, parentId, nodeId, None);
    }

    /** `nodeChangedEvent(parent, node, lang)`: the only event that carries a language. */
    method NodeChangedEvent(parentId: Option<string>, nodeId: Option<string>, lang: Option<string>)
      requires Valid()
      modifies this
      ensures Valid() && docListeners == old(docListeners) && dispatchRunning == old(dispatchRunning)
      ensures old(docListeners) == [] ==> eventQueue == old(eventQueue)
      ensures old(docListeners) != [] ==>
        |eventQueue| == |old(eventQueue)| + 1 && eventQueue[..|old(eventQueue)|] == old(eventQueue)
        && fresh(eventQueue[|eventQueue| - 1])
        && eventQueue[|eventQueue| - 1].Value()
           == EventValue(NodesChanged, parentId, if nodeId.Some? then {nodeId.value} else {}, lang)
    {
      QueueEvent(NodesChanged, parentId, nodeId, lang);
    }

    /** `addDocListener`: the listener ends up registered exactly once, as the last entry. */
    method AddDocListener(listener: DocListener)
      requires Valid()
      modifies this
      ensures Valid() && docListeners == AddLast(old(docListeners), listener)
      ensures eventQueue == old(eventQueue) && dispatchRunning == old(dispatchRunning)
    {
      var _ := RemoveDocListener(listener);
      docListeners := docListeners + [listener];
      AddLastOnce(old(docListeners), listener);
    }

    /** `removeDocListener`: removes the first identical entry; true iff there was one. */
    method RemoveDocListener(listener: DocListener) returns (found: bool)
      requires Valid()
      modifies this
      ensures Valid() && docListeners == RemoveFirst(old(docListeners), listener)
      ensures found <==> listener in old(docListeners)
      ensures eventQueue == old(eventQueue) && dispatchRunning == old(dispatchRunning)
    {
      var i := 0;
      while i < |docListeners|
        invariant 0 <= i <= |docListeners| && docListeners == old(docListeners)
        invariant forall j :: 0 <= j < i ==> docListeners[j] != listener
      {
        if docListeners[i] == listener {
          assert FirstIndex(docListeners, listener) == i;
          RemoveFirstOfUnique(docListeners, listener);
          docListeners := docListeners[..i] + docListeners[i + 1..];
          return true;
        }
        i := i + 1;
      }
      assert FirstIndex(docListeners, listener) == |docListeners|;
      return false;
    }

    /**
     * `dispatchEventQueue`: a nested call changes nothing. Otherwise, when there are listeners
     * and events, a copy of the queue is compressed and `delivered` is what every listener
     * receives, in order; then the queue is emptied and the running flag reset.
     */
    method DispatchEventQueue() returns (delivered: seq<DocEvent>)
      requires Valid()
      modifies this, set e | e in eventQueue
      ensures Valid() && docListeners == old(docListeners)
      ensures old(dispatchRunning) ==> delivered == [] && eventQueue == old(eventQueue) && dispatchRunning
      ensures !old(dispatchRunning) ==> eventQueue == [] && !dispatchRunning
      ensures !old(dispatchRunning) && (old(docListeners) == [] || old(eventQueue) == []) ==> delivered == []
      ensures !old(dispatchRunning) && old(docListeners) != [] && old(eventQueue) != [] ==>
        var c := Compress(old(Values(eventQueue)));
        if CountChanged(c) > 1 then
          |delivered| == 1 && fresh(delivered[0])
          && delivered[0].Value() == EventValue(NodesStructureChanged, None, {}, None)
        else Values(delivered) == c
    {
      delivered := [];
      if dispatchRunning {
        return;
      }
      dispatchRunning := true;
      if !(docListeners == [] || eventQueue == []) {
        var q := eventQueue;
        delivered := CompressEvents(q);
      }
      eventQueue := [];
      dispatchRunning := false;
    }

    /** `discardEventQueue`: drops the waiting events and leaves the listeners alone. */
    method DiscardEventQueue()
      requires Valid()
      modifies this
      ensures Valid() && eventQueue == []
      ensures docListeners == old(docListeners) && dispatchRunning == old(dispatchRunning)
    {
      eventQueue := [];
    }
  }
}
