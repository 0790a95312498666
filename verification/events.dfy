/**
 * The event emitter of the `events` module. An emitter owns a shared listener
 * list; a listener keeps a handle to that list and is compared by identity
 * (`Arc::ptr_eq`), which is Dafny's reference equality on `Listener`. The
 * listener's function is not modelled: `emit` returns the calls it makes, in
 * order, as pairs of a listener and the data value it passes.
 */
module Events {
  import opened Wrappers
  import opened VectorExtensions

  /** The shared `Arc<RwLock<Vec<EventListener<T>>>>`. */
  class ListenerList {
    var items: seq<Listener>

    constructor()
      ensures items == []
    {
      items := [];
    }
  }

  class Emitter {
    const list: ListenerList

    /** `EventEmitter::new`: an emitter with an empty listener list. */
    constructor()
      ensures fresh(list) && list.items == []
    {
      list := new ListenerList();
    }

    /**
     * `listener(f)`: creates a listener on this emitter's list and adds it;
     * the new listener is active and sits last.
     */
    method NewListener() returns (l: Listener)
      modifies list
      ensures fresh(l) && l.list == list
      ensures list.items == old(list.items) + [l]
      ensures l.IsActive()
    {
      l := new Listener(list);
      l.Add();
      RemoveFirstCount(old(list.items), l, l);
    }

    /**
     * `emit(data)`: copies the list first, then calls every copied listener
     * once, in list order, with a clone of `data`.
     */
    method Emit<T>(data: T) returns (calls: seq<(Listener, T)>)
      ensures |calls| == |list.items|
      ensures forall k :: 0 <= k < |calls| ==> calls[k] == (list.items[k], data)
    {
      var snapshot: seq<Listener> := [];
      for i := 0 to |list.items|
        invariant snapshot == list.items[..i]
      {
        snapshot := snapshot + [list.items[i]];
      }
      calls := [];
      for i := 0 to |snapshot|
        invariant |calls| == i
        invariant forall k :: 0 <= k < i ==> calls[k] == (snapshot[k], data)
      {
        calls := calls + [(snapshot[i], data)];
      }
    }
  }

  class Listener {
    const list: ListenerList

    /** `EventListener::new`: a listener bound to `list`, not yet added. */
    constructor(list: ListenerList)
      ensures this.list == list
    {
      this.list := list;
    }

    /** `is_active`: whether the list contains this listener. */
    predicate IsActive()
      reads list
    {
      this in list.items
    }

    /** `add`: removes this listener, then pushes it. */
    method Add()
      modifies list
      ensures list.items == Added(old(list.items), this)
    {
      Remove();
      list.items := list.items + [this];
    }

    /** `remove`: `remove_equals` on the list. */
    method Remove()
      modifies list
      ensures list.items == RemoveFirst(old(list.items), this)
    {
      var items, _ := RemoveEquals(list.items, this);
      list.items := items;
    }
  }

  /** The list after `add`: the first occurrence of `x` removed, then `x` pushed. */
  function Added<T(==)>(s: seq<T>, x: T): (r: seq<T>)
    ensures |r| > 0 && r[|r| - 1] == x
    ensures |r| == if x in s then |s| else |s| + 1
  {
    RemoveFirst(s, x) + [x]
  }

  /** After `add`, the listener occurs exactly once and last, provided it occurred at most once. */
  lemma AddedOnceLast<T>(s: seq<T>, x: T)
    requires Count(s, x) <= 1
    ensures Count(Added(s, x), x) == 1
    ensures Added(s, x)[|Added(s, x)| - 1] == x
  {
    RemoveFirstUnique(s, x);
    assert multiset(Added(s, x)) == multiset(RemoveFirst(s, x)) + multiset{x};
  }

  /** `add` keeps the number of occurrences of every other listener. */
  lemma AddedKeepsOthers<T>(s: seq<T>, x: T, y: T)
    requires y != x
    ensures Count(Added(s, x), y) == Count(s, y)
  {
    RemoveFirstCount(s, x, y);
    assert multiset(Added(s, x)) == multiset(RemoveFirst(s, x)) + multiset{x};
  }

  /** Adding twice is adding once: `add` never duplicates a listener. */
  lemma AddedIdempotent<T>(s: seq<T>, x: T)
    requires Count(s, x) <= 1
    ensures Added(Added(s, x), x) == Added(s, x)
  {
    var a := Added(s, x);
    RemoveFirstUnique(s, x);
    var r := RemoveFirst(s, x);
    assert FirstIndex(a, x) == Some(|r|) by {
      FirstIndexUnique(a, x, |r|);
    }
    assert a[..|r|] + a[|r| + 1..] == r;
  }

  /** After `remove`, a listener that occurred at most once is no longer active. */
  lemma RemovedInactive<T>(s: seq<T>, x: T)
    requires Count(s, x) <= 1
    ensures x !in RemoveFirst(s, x)
  {
    RemoveFirstUnique(s, x);
  }

  /** The at-most-once invariant of the list survives `add` and `remove`. */
  lemma AtMostOncePreserved<T>(s: seq<T>, x: T)
    requires forall y :: Count(s, y) <= 1
    ensures forall y :: Count(RemoveFirst(s, x), y) <= 1
    ensures forall y :: Count(Added(s, x), y) <= 1
  {
    forall y
      ensures Count(RemoveFirst(s, x), y) <= 1 && Count(Added(s, x), y) <= 1
    {
      RemoveFirstCount(s, x, y);
      if y == x {
        AddedOnceLast(s, x);
      } else {
        AddedKeepsOthers(s, x, y);
      }
    }
  }
}
