/**
 * The component slot table of an entity: an ordered sequence of type-tagged,
 * type-erased values. A Rust `TypeId` becomes a `TypeTag`; `Arc::downcast::<T>`
 * succeeding on a slot becomes "the slot's tag is T's tag". The functions here
 * are the values the `Node` methods of module Entity are proved against.
 */
module Components {
  import opened Wrappers

  /** The concrete Rust type of a component, by name. */
  type TypeTag = string

  /** A component's payload. Marker components of generated entity types hold named fields. */
  datatype Value =
    | Unit
    | Number(n: int)
    | Text(s: string)
    | Fields(fields: map<string, Value>)

  datatype Component = Component(tag: TypeTag, value: Value)

  /** The number of components of type `t`. */
  function CountTag(c: seq<Component>, t: TypeTag): (n: nat)
    ensures n <= |c|
    ensures n == 0 <==> forall i :: 0 <= i < |c| ==> c[i].tag != t
  {
    if |c| == 0 then 0 else (if c[0].tag == t then 1 else 0) + CountTag(c[1..], t)
  }

  /** Invariant 1 of the store: at most one component per type. */
  ghost predicate UniqueTags(c: seq<Component>)
  {
    forall i, j :: 0 <= i < j < |c| ==> c[i].tag != c[j].tag
  }

  /** The first slot of type `t`: what `get`'s scan stops at and what `delete` removes. */
  function FirstSlot(c: seq<Component>, t: TypeTag): (r: Option<nat>)
    ensures r.Some? ==> r.value < |c| && c[r.value].tag == t
    ensures r.Some? ==> forall j :: 0 <= j < r.value ==> c[j].tag != t
    ensures r.None? <==> forall j :: 0 <= j < |c| ==> c[j].tag != t
  {
    if |c| == 0 then None
    else if c[0].tag == t then Some(0)
    else match FirstSlot(c[1..], t)
      case None => None
      case Some(i) => Some(i + 1)
  }

  /** `get::<T>()`: the value in the first slot of type T. */
  function Lookup(c: seq<Component>, t: TypeTag): (r: Option<Value>)
    ensures r.None? <==> CountTag(c, t) == 0
    ensures r.Some? ==> Component(t, r.value) in c
  {
    match FirstSlot(c, t)
    case None => None
    case Some(i) => Some(c[i].value)
  }

  /** `delete::<T>()` on the table: the first slot of type T removed. */
  function Deleted(c: seq<Component>, t: TypeTag): (r: seq<Component>)
    ensures |c| - 1 <= |r| <= |c|
    ensures forall x :: x in r ==> x in c
  {
    if |c| == 0 then []
    else if c[0].tag == t then c[1..]
    else [c[0]] + Deleted(c[1..], t)
  }

  /** `set::<T>(v)` on the table: delete, then append. */
  function Stored(c: seq<Component>, t: TypeTag, v: Value): (r: seq<Component>)
    ensures 1 <= |r| <= |c| + 1 && r[|r| - 1] == Component(t, v)
    ensures forall x :: x in r[..|r| - 1] ==> x in c
  {
    Deleted(c, t) + [Component(t, v)]
  }

  /** `Deleted` cuts out exactly the first slot of the type. */
  lemma {:induction false} DeletedSplice(c: seq<Component>, t: TypeTag)
    ensures FirstSlot(c, t).None? ==> Deleted(c, t) == c
    ensures FirstSlot(c, t).Some? ==> var i := FirstSlot(c, t).value; Deleted(c, t) == c[..i] + c[i + 1..]
  {
    if |c| > 0 && c[0].tag != t {
      DeletedSplice(c[1..], t);
      match FirstSlot(c[1..], t) {
        case None =>
          assert [c[0]] + c[1..] == c;
        case Some(i) =>
          ConsSplice(c, i);
      }
    }
  }

  lemma ConsSplice(c: seq<Component>, i: nat)
    requires i + 1 < |c|
    ensures [c[0]] + (c[1..][..i] + c[1..][i + 1..]) == c[..i + 1] + c[i + 2..]
  {
    var l, r := [c[0]] + (c[1..][..i] + c[1..][i + 1..]), c[..i + 1] + c[i + 2..];
    assert |l| == |r|;
    forall k | 0 <= k < |l| ensures l[k] == r[k] {
      if k == 0 {
      } else if k <= i {
        assert l[k] == c[1..][..i][k - 1];
      } else {
        assert l[k] == c[1..][i + 1..][k - 1 - i];
      }
    }
  }

  /** Delete removes exactly the first slot of the type and keeps the others in order. */
  lemma {:induction false} DeletedSpec(c: seq<Component>, t: TypeTag)
    ensures CountTag(c, t) == 0 ==> Deleted(c, t) == c
    ensures CountTag(c, t) > 0 ==> |Deleted(c, t)| == |c| - 1 && CountTag(Deleted(c, t), t) == CountTag(c, t) - 1
    ensures forall u :: u != t ==> CountTag(Deleted(c, t), u) == CountTag(c, u)
  {
    if |c| > 0 {
      DeletedSpec(c[1..], t);
      if c[0].tag != t {
        var d := Deleted(c[1..], t);
        assert ([c[0]] + d)[1..] == d;
        assert [c[0]] + c[1..] == c;
      }
    }
  }

  lemma {:induction false} CountTagSplit(a: seq<Component>, b: seq<Component>, t: TypeTag)
    ensures CountTag(a + b, t) == CountTag(a, t) + CountTag(b, t)
  {
    if |a| > 0 {
      CountTagSplit(a[1..], b, t);
      assert (a + b)[1..] == a[1..] + b;
    } else {
      assert a + b == b;
    }
  }

  /** After `set`, the table holds the new value last; with at most one T before, exactly one after. */
  lemma StoredSpec(c: seq<Component>, t: TypeTag, v: Value)
    ensures Stored(c, t, v)[|Stored(c, t, v)| - 1] == Component(t, v)
    ensures CountTag(c, t) <= 1 ==> CountTag(Stored(c, t, v), t) == 1
    ensures forall u :: u != t ==> CountTag(Stored(c, t, v), u) == CountTag(c, u)
  {
    DeletedSpec(c, t);
    forall u ensures CountTag(Stored(c, t, v), u) == CountTag(Deleted(c, t), u) + (if u == t then 1 else 0) {
      CountTagSplit(Deleted(c, t), [Component(t, v)], u);
      assert [Component(t, v)][1..] == [];
    }
  }

  /** After `set`, the type set is present and every other type keeps its count. */
  lemma StoredCount(c: seq<Component>, t: TypeTag, v: Value, u: TypeTag)
    ensures u == t ==> CountTag(Stored(c, t, v), u) >= 1
    ensures u != t ==> CountTag(Stored(c, t, v), u) == CountTag(c, u)
  {
    CountTagSplit(Deleted(c, t), [Component(t, v)], u);
    assert [Component(t, v)][1..] == [];
    if u != t {
      DeletedSpec(c, t);
    }
  }

  /** `set` then `get` returns the value set, provided at most one T was attached before. */
  lemma GetAfterSet(c: seq<Component>, t: TypeTag, v: Value)
    requires CountTag(c, t) <= 1
    ensures Lookup(Stored(c, t, v), t) == Some(v)
  {
    DeletedSpec(c, t);
    var d := Deleted(c, t);
    assert CountTag(d, t) == 0;
    var e := d + [Component(t, v)];
    assert forall j :: 0 <= j < |d| ==> e[j] == d[j];
    assert e[|d|].tag == t;
  }

  /**
   * With two T components attached, `set` replaces only the first, so `get`
   * still finds the older one: the at-most-one condition above is needed.
   */
  lemma GetAfterSetWithDuplicate(v1: Value, v2: Value, v: Value)
    requires v != v2
    ensures var c := [Component("T", v1), Component("T", v2)];
      Lookup(Stored(c, "T", v), "T") == Some(v2)
  {
    var c := [Component("T", v1), Component("T", v2)];
    assert Deleted(c, "T") == [Component("T", v2)];
  }

  /** `delete` then `get` finds nothing, provided at most one T was attached. */
  lemma GetAfterDelete(c: seq<Component>, t: TypeTag)
    requires CountTag(c, t) <= 1
    ensures Lookup(Deleted(c, t), t) == None
  {
    DeletedSpec(c, t);
  }

  /** The first slot of a type is determined by the slots' tags. */
  lemma FirstSlotIs(c: seq<Component>, u: TypeTag, k: Option<nat>)
    requires k.Some? ==> k.value < |c| && c[k.value].tag == u && forall j :: 0 <= j < k.value ==> c[j].tag != u
    requires k.None? ==> forall j :: 0 <= j < |c| ==> c[j].tag != u
    ensures FirstSlot(c, u) == k
  {
  }

  lemma {:induction false} LookupDeletedOther(c: seq<Component>, t: TypeTag, u: TypeTag)
    requires u != t
    ensures Lookup(Deleted(c, t), u) == Lookup(c, u)
  {
    if |c| > 0 {
      if c[0].tag == t {
        LookupTail(c, u);
      } else if c[0].tag != u {
        var d := Deleted(c[1..], t);
        assert ([c[0]] + d)[1..] == d;
        LookupDeletedOther(c[1..], t, u);
        LookupTail([c[0]] + d, u);
        LookupTail(c, u);
      }
    }
  }

  /** A scan for `u` steps over a first slot of another type. */
  lemma LookupTail(c: seq<Component>, u: TypeTag)
    requires |c| > 0 && c[0].tag != u
    ensures Lookup(c, u) == Lookup(c[1..], u)
  {
  }

  lemma LookupAppendOther(d: seq<Component>, t: TypeTag, u: TypeTag, v: Value)
    requires u != t
    ensures Lookup(d + [Component(t, v)], u) == Lookup(d, u)
  {
    var e := d + [Component(t, v)];
    assert forall j :: 0 <= j < |d| ==> e[j] == d[j];
    FirstSlotIs(e, u, FirstSlot(d, u));
  }

  /** `set` and `delete` of one type leave `get` of every other type unchanged. */
  lemma OtherTypesUntouched(c: seq<Component>, t: TypeTag, u: TypeTag, v: Value)
    requires u != t
    ensures Lookup(Deleted(c, t), u) == Lookup(c, u)
    ensures Lookup(Stored(c, t, v), u) == Lookup(c, u)
  {
    LookupDeletedOther(c, t, u);
    LookupAppendOther(Deleted(c, t), t, u, v);
  }

  /** The store's invariant survives `set` and `delete`. */
  lemma UniqueTagsPreserved(c: seq<Component>, t: TypeTag, v: Value)
    requires UniqueTags(c)
    ensures UniqueTags(Deleted(c, t))
    ensures UniqueTags(Stored(c, t, v))
  {
    UniqueTagsDeleted(c, t);
    var d := Deleted(c, t);
    var e := d + [Component(t, v)];
    assert forall j :: 0 <= j < |d| ==> e[j] == d[j];
  }

  lemma UniqueTagsDeleted(c: seq<Component>, t: TypeTag)
    requires UniqueTags(c)
    ensures UniqueTags(Deleted(c, t))
    ensures forall k :: 0 <= k < |Deleted(c, t)| ==> Deleted(c, t)[k].tag != t
  {
    DeletedSplice(c, t);
    var d := Deleted(c, t);
    if FirstSlot(c, t).Some? {
      var i := FirstSlot(c, t).value;
      forall k | 0 <= k < |d|
        ensures d[k] == c[if k < i then k else k + 1]
      {
        if k < i {
          assert d[k] == c[..i][k];
        } else {
          assert d[k] == c[i + 1..][k - i];
        }
      }
    }
  }
}
