/**
 * The `VectorExtensions` helpers on `Vec<T>`: first-index search, search from
 * a start index, and removal of the first equal element. The methods keep the
 * source's loops; `FirstIndex` and `RemoveFirst` are the specifications they
 * are proved against and that the rest of the model reasons with.
 */
module VectorExtensions {
  import opened Wrappers

  /** The smallest index holding `x`, or `None` when `x` does not occur. */
  function FirstIndex<T(==)>(s: seq<T>, x: T): (r: Option<nat>)
    ensures r.Some? ==> r.value < |s| && s[r.value] == x
    ensures r.Some? ==> forall j :: 0 <= j < r.value ==> s[j] != x
    ensures r.None? <==> x !in s
  {
    if |s| == 0 then None
    else if s[0] == x then Some(0)
    else match FirstIndex(s[1..], x)
      case None => None
      case Some(i) => Some(i + 1)
  }

  /** `s` without its first occurrence of `x`; `s` itself when `x` is absent. */
  function RemoveFirst<T(==)>(s: seq<T>, x: T): (r: seq<T>)
    ensures x in s ==> |r| == |s| - 1
    ensures x !in s ==> r == s
  {
    match FirstIndex(s, x)
    case None => s
    case Some(i) => s[..i] + s[i + 1..]
  }

  function Count<T(==)>(s: seq<T>, x: T): nat
  {
    multiset(s)[x]
  }

  /** Removal drops exactly one occurrence when there is one, and keeps every other element. */
  lemma RemoveFirstCount<T>(s: seq<T>, x: T, y: T)
    ensures x in s ==> |RemoveFirst(s, x)| == |s| - 1
    ensures x !in s ==> RemoveFirst(s, x) == s
    ensures x in s ==> multiset(RemoveFirst(s, x)) == multiset(s) - multiset{x}
    ensures x in s && y != x ==> Count(RemoveFirst(s, x), y) == Count(s, y)
    ensures x in s ==> Count(RemoveFirst(s, x), x) == Count(s, x) - 1
  {
    if x in s {
      var i := FirstIndex(s, x).value;
      assert s == s[..i] + [s[i]] + s[i + 1..];
      calc {
        multiset(s);
        multiset(s[..i]) + multiset{x} + multiset(s[i + 1..]);
        multiset(RemoveFirst(s, x)) + multiset{x};
      }
    }
  }

  /** With at most one `x` beforehand, removal leaves none. */
  lemma RemoveFirstUnique<T>(s: seq<T>, x: T)
    requires Count(s, x) <= 1
    ensures x !in RemoveFirst(s, x)
  {
    RemoveFirstCount(s, x, x);
    if x in s {
      assert Count(RemoveFirst(s, x), x) == 0;
    }
  }

  /** `index_of`: a forward scan that returns at the first equal element. */
  method IndexOf<T(==)>(v: seq<T>, x: T) returns (r: Option<nat>)
    ensures r.Some? ==> r.value < |v| && v[r.value] == x && forall j :: 0 <= j < r.value ==> v[j] != x
    ensures r.None? ==> x !in v
    ensures r == FirstIndex(v, x)
  {
    for i := 0 to |v|
      invariant forall j :: 0 <= j < i ==> v[j] != x
    {
      if v[i] == x {
        FirstIndexUnique(v, x, i);
        return Some(i);
      }
    }
    return None;
  }

  /** The characterisation of `FirstIndex` pins it down. */
  lemma FirstIndexUnique<T>(s: seq<T>, x: T, i: nat)
    requires i < |s| && s[i] == x
    requires forall j :: 0 <= j < i ==> s[j] != x
    ensures FirstIndex(s, x) == Some(i)
  {
  }

  /** `index_of_from`: `None` when the start is past the end, else a scan from `start`. */
  method IndexOfFrom<T(==)>(v: seq<T>, x: T, start: nat) returns (r: Option<nat>)
    ensures start >= |v| ==> r.None?
    ensures r.Some? ==> start <= r.value < |v| && v[r.value] == x
    ensures r.Some? ==> forall j :: start <= j < r.value ==> v[j] != x
    ensures r.None? ==> forall j :: start <= j < |v| ==> v[j] != x
    ensures r == FirstIndexFrom(v, x, start)
  {
    if start >= |v| {
      return None;
    }
    for i := start to |v|
      invariant forall j :: start <= j < i ==> v[j] != x
    {
      if v[i] == x {
        return Some(i);
      }
    }
    return None;
  }

  /**
   * The smallest index at or after `start` holding `x`; `None` when `start`
   * is past the end or no such index exists.
   */
  function FirstIndexFrom<T(==)>(s: seq<T>, x: T, start: nat): (r: Option<nat>)
    ensures r.Some? ==> start <= r.value < |s| && s[r.value] == x
    ensures r.Some? ==> forall j :: start <= j < r.value ==> s[j] != x
    ensures r.None? ==> forall j :: start <= j < |s| ==> s[j] != x
    decreases |s| - start
  {
    if start >= |s| then None
    else if s[start] == x then Some(start)
    else FirstIndexFrom(s, x, start + 1)
  }

  /** Searching from `k` is searching the suffix `s[k..]` and shifting the answer. */
  lemma {:induction false} FirstIndexFromSuffix<T>(s: seq<T>, x: T, k: nat)
    requires k <= |s|
    ensures FirstIndexFrom(s, x, k) ==
      match FirstIndex(s[k..], x) case None => None case Some(i) => Some(i + k)
    decreases |s| - k
  {
    if k < |s| && s[k] != x {
      FirstIndexFromSuffix(s, x, k + 1);
      assert s[k..][1..] == s[k + 1..];
    }
  }

  /** `index_of_from(v, x, 0)` agrees with `index_of(v, x)` on a non-empty vector. */
  lemma IndexOfFromZero<T>(v: seq<T>, x: T)
    requires |v| > 0
    ensures FirstIndexFrom(v, x, 0) == FirstIndex(v, x)
  {
    FirstIndexFromSuffix(v, x, 0);
    assert v[0..] == v;
  }

  /** `remove_equals`: removes the first equal element in place and says whether it did. */
  method RemoveEquals<T(==)>(v: seq<T>, x: T) returns (v': seq<T>, removed: bool)
    ensures removed <==> x in v
    ensures v' == RemoveFirst(v, x)
    ensures removed ==> |v'| == |v| - 1
    ensures !removed ==> v' == v
  {
    var i := IndexOf(v, x);
    if i.Some? {
      v' := v[..i.value] + v[i.value + 1..];
      removed := true;
    } else {
      v' := v;
      removed := false;
    }
  }
}
