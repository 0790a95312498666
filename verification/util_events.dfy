/**
 * The event emitter of the `util` module: the same protocol as module Events,
 * with listeners held as `Arc<EventListener<T>>` and a `remove` that scans the
 * list by index and stops at the first pointer-equal entry.
 */
module UtilEvents {
  import opened VectorExtensions
  import Events

  /** The shared `Arc<RwLock<Vec<Arc<EventListener<T>>>>>`. */
  class ListenerList {
    var items: seq<Listener>

    constructor()
      ensures items == []
    {
      items := [];
    }
  }

  class Emitter {
    const list: ListenerList

    /** `EventEmitter::new`: an emitter with an empty listener list. */
    constructor()
      ensures fresh(list) && list.items == []
    {
      list := new ListenerList();
    }

    /** `add_listener(f)`: creates a listener on this emitter's list and appends it. */
    method AddListener() returns (l: Listener)
      modifies list
      ensures fresh(l) && l.list == list
      ensures list.items == old(list.items) + [l]
    {
      l := new Listener(list);
      l.Add();
      RemoveFirstCount(old(list.items), l, l);
    }

    /** `emit(data)`: calls a snapshot of the list, in order, each listener once. */
    method Emit<T>(data: T) returns (calls: seq<(Listener, T)>)
      ensures |calls| == |list.items|
      ensures forall k :: 0 <= k < |calls| ==> calls[k] == (list.items[k], data)
    {
      var snapshot: seq<Listener> := [];
      for i := 0 to |list.items|
        invariant snapshot == list.items[..i]
      {
        snapshot := snapshot + [list.items[i]];
      }
      calls := [];
      for i := 0 to |snapshot|
        invariant |calls| == i
        invariant forall k :: 0 <= k < i ==> calls[k] == (snapshot[k], data)
      {
        calls := calls + [(snapshot[i], data)];
      }
    }
  }

  class Listener {
    const list: ListenerList

    /** `EventListener::new`: a listener bound to `list`, not yet added. */
    constructor(list: ListenerList)
      ensures this.list == list
    {
      this.list := list;
    }

    /** `add`: removes this listener, then pushes it, so it never occurs twice. */
    method Add()
      modifies list
      ensures list.items == Events.Added(old(list.items), this)
    {
      Remove();
      list.items := list.items + [this];
    }

    /** `remove`: scans by index and removes the first pointer-equal entry, then stops. */
    method Remove()
      modifies list
      ensures list.items == RemoveFirst(old(list.items), this)
    {
      var len := |list.items|;
      for i := 0 to len
        invariant list.items == old(list.items)
        invariant forall j :: 0 <= j < i ==> list.items[j] != this
      {
        if list.items[i] == this {
          FirstIndexUnique(list.items, this, i);
          list.items := list.items[..i] + list.items[i + 1..];
          return;
        }
      }
    }
  }
}
