/**
 * The hierarchical entity store. An `Entity` handle is a reference to a
 * `Node`; handle equality, cloning and hashing are by identity, which Dafny's
 * reference equality on `Node` gives directly. A node has a name, a parent
 * back-reference (`null` for a detached node or a root), a component slot
 * table and an ordered list of children.
 *
 * Every operation runs as one sequential step; the per-field locks are not
 * modelled. Tree operations take a ghost set `g`, the nodes in use, and keep
 * `Forest(g)`: each node is a child of at most one node, at most once, and its
 * parent link points at that node. Nothing rules out a node becoming its own
 * child or a child of a descendant; `Forest` does not claim acyclicity.
 */
module Entity {
  import opened Wrappers
  import opened Components
  import opened Strings
  import VectorExtensions

  /** The error of a failed subtype conversion. */
  datatype EntityTypeError = EntityTypeError(message: string)

  /** A tree operation either completes or panics; a panic keeps the effects already made. */
  datatype Outcome = Completed | Panicked(message: string)

  const IndexOutOfBounds := "Specified index is out of bounds."
  const SomeIndicesOutOfBounds := "Some of the specified indices are out of bounds."

  ghost predicate Distinct(s: seq<Node>)
  {
    forall i, j :: 0 <= i < j < |s| ==> s[i] != s[j]
  }

  /** `s` with the entries at `i` and `j` exchanged (`Vec::swap`). */
  function Swapped(s: seq<Node>, i: nat, j: nat): (r: seq<Node>)
    requires i < |s| && j < |s|
    ensures |r| == |s| && r[i] == s[j] && r[j] == s[i]
    ensures forall k :: 0 <= k < |s| && k != i && k != j ==> r[k] == s[k]
    ensures multiset(r) == multiset(s)
  {
    s[i := s[j]][j := s[i]]
  }

  /** `s` with `x` inserted before index `i` (`Vec::insert`). */
  function Inserted(s: seq<Node>, i: nat, x: Node): (r: seq<Node>)
    requires i <= |s|
    ensures |r| == |s| + 1 && r[i] == x
    ensures forall k :: 0 <= k < i ==> r[k] == s[k]
    ensures forall k :: i < k <= |s| ==> r[k] == s[k - 1]
  {
    s[..i] + [x] + s[i..]
  }

  /**
   * The single-parent invariant over the nodes `g`: children and parents of
   * nodes in `g` are in `g`, every child's parent link points back at the
   * node listing it, a set parent link is matched by a children entry, and no
   * children list repeats a node. It follows that a node is listed by at most
   * one node.
   */
  ghost predicate Forest(g: set<Node>)
    reads g
  {
    && (forall n, i :: n in g && 0 <= i < |n.children| ==> n.children[i] in g && n.children[i].parent == n)
    && (forall n :: n in g && n.parent != null ==> n.parent in g)
    && (forall n :: n in g && n.parent != null ==> n in n.parent.children)
    && (forall n :: n in g ==> Distinct(n.children))
  }

  /** The parent links of the nodes `g`, as a value. */
  ghost function ParentsOf(g: set<Node>): (m: map<Node, Node?>)
    reads g
    ensures m.Keys == g
  {
    map n | n in g :: n.parent
  }

  /** The children lists of the nodes `g`, as a value. */
  ghost function KidsOf(g: set<Node>): (m: map<Node, seq<Node>>)
    reads g
    ensures m.Keys == g
  {
    map n | n in g :: n.children
  }

  /** `Forest` stated on snapshots of the parent links and the children lists. */
  ghost predicate Linked(g: set<Node>, par: map<Node, Node?>, kids: map<Node, seq<Node>>)
  {
    && par.Keys == g && kids.Keys == g
    && (forall n, i :: n in g && 0 <= i < |kids[n]| ==> kids[n][i] in g && par[kids[n][i]] == n)
    && (forall n :: n in g && par[n] != null ==> par[n] in g)
    && (forall n :: n in g && par[n] != null ==> n in kids[par[n]])
    && (forall n :: n in g ==> Distinct(kids[n]))
  }

  /** The invariant holds exactly when it holds of the snapshots. */
  lemma ForestIsLinked(g: set<Node>)
    ensures Forest(g) <==> Linked(g, ParentsOf(g), KidsOf(g))
  {
    var par, kids := ParentsOf(g), KidsOf(g);
    assert forall n :: n in g ==> par[n] == n.parent && kids[n] == n.children;
  }

  /** The snapshots of a heap that keeps the invariant satisfy it too. */
  lemma ForestSnapshot(g: set<Node>)
    requires Forest(g)
    ensures Linked(g, ParentsOf(g), KidsOf(g))
  {
    ForestIsLinked(g);
  }

  /** The invariant holds of the heap when the snapshots describe it node by node. */
  lemma LinkedIsForest(g: set<Node>, par: map<Node, Node?>, kids: map<Node, seq<Node>>)
    requires Linked(g, par, kids)
    requires forall n :: n in g ==> n.parent == par[n] && n.children == kids[n]
    ensures Forest(g)
  {
  }

  /** Removing the child at `k` of `p` and clearing its parent link keeps the invariant. */
  lemma DetachLinked(g: set<Node>, par: map<Node, Node?>, kids: map<Node, seq<Node>>, p: Node, k: nat)
    requires Linked(g, par, kids) && p in g && k < |kids[p]|
    ensures Linked(g, par[kids[p][k] := null], kids[p := kids[p][..k] + kids[p][k + 1..]])
  {
    var c := kids[p][k];
    var rest := RemovedAt(kids[p], k);
    RemovedAtDistinct(kids[p], k);
    var par', kids' := par[c := null], kids[p := rest];
    forall n, j | n in g && 0 <= j < |kids'[n]|
      ensures kids'[n][j] in g && par'[kids'[n][j]] == n
    {
      if n == p {
        assert kids'[n][j] == kids[p][if j < k then j else j + 1];
      } else {
        assert kids'[n][j] == kids[n][j];
      }
    }
    forall n | n in g && par'[n] != null
      ensures n in kids'[par'[n]]
    {
      assert n != c && par'[n] == par[n];
      if par[n] == p {
        assert n in kids[p] && n != kids[p][k];
      } else {
        assert kids'[par[n]] == kids[par[n]];
      }
    }
  }

  /** `s` without its entry at `k` (`Vec::remove`). */
  function RemovedAt(s: seq<Node>, k: nat): (r: seq<Node>)
    requires k < |s|
    ensures |r| == |s| - 1
    ensures forall j :: 0 <= j < |r| ==> r[j] == s[if j < k then j else j + 1]
  {
    s[..k] + s[k + 1..]
  }

  /** Removing an entry of a list without repeats drops exactly that entry. */
  lemma RemovedAtDistinct(s: seq<Node>, k: nat)
    requires k < |s| && Distinct(s)
    ensures forall x :: x in RemovedAt(s, k) <==> x in s && x != s[k]
    ensures Distinct(RemovedAt(s, k))
  {
    var r := RemovedAt(s, k);
    forall x | x in s && x != s[k]
      ensures x in r
    {
      var m :| 0 <= m < |s| && s[m] == x;
      assert r[if m < k then m else m - 1] == x;
    }
  }

  /** Insertion adds exactly the inserted node. */
  lemma InsertedMembers(s: seq<Node>, i: nat, c: Node)
    requires i <= |s|
    ensures forall x :: x in Inserted(s, i, c) <==> x == c || x in s
  {
    assert Inserted(s, i, c) == s[..i] + [c] + s[i..];
    assert s == s[..i] + s[i..];
  }

  /** Inserting a node that is not present keeps the list free of repeats. */
  lemma InsertedDistinct(s: seq<Node>, i: nat, c: Node)
    requires i <= |s| && Distinct(s) && c !in s
    ensures Distinct(Inserted(s, i, c))
  {
    var after := Inserted(s, i, c);
    forall a, b | 0 <= a < b < |after|
      ensures after[a] != after[b]
    {
      if a != i && b != i {
        assert after[a] == s[if a < i then a else a - 1];
        assert after[b] == s[if b < i then b else b - 1];
      } else if a == i {
        assert after[b] == s[b - 1];
      } else {
        assert after[a] == s[a];
      }
    }
  }

  /** Inserting a node without a parent at `i` among the children of `p`, linked to `p`, keeps the invariant. */
  lemma AttachLinked(g: set<Node>, par: map<Node, Node?>, kids: map<Node, seq<Node>>, p: Node, c: Node, i: nat)
    requires Linked(g, par, kids) && p in g && c in g && par[c] == null && i <= |kids[p]|
    ensures Linked(g, par[c := p], kids[p := Inserted(kids[p], i, c)])
  {
    var before := kids[p];
    var after := Inserted(before, i, c);
    var par', kids' := par[c := p], kids[p := after];
    forall j | 0 <= j < |before| ensures before[j] != c {}
    InsertedDistinct(before, i, c);
    InsertedMembers(before, i, c);
    forall n, j | n in g && 0 <= j < |kids'[n]|
      ensures kids'[n][j] in g && par'[kids'[n][j]] == n
    {
      if n == p && j != i {
        assert kids'[n][j] == before[if j < i then j else j - 1];
      } else if n != p {
        assert kids'[n][j] == kids[n][j];
      }
    }
    assert forall n :: n in g && n != c && par[n] == p ==> n in after;
  }

  /** Exchanging two children of `p` keeps the invariant. */
  lemma SwapLinked(g: set<Node>, par: map<Node, Node?>, kids: map<Node, seq<Node>>, p: Node, i: nat, j: nat)
    requires Linked(g, par, kids) && p in g && i < |kids[p]| && j < |kids[p]|
    ensures Linked(g, par, kids[p := Swapped(kids[p], i, j)])
  {
    var before := kids[p];
    var after := Swapped(before, i, j);
    var kids' := kids[p := after];
    forall n | n in g && par[n] != null
      ensures n in kids'[par[n]]
    {
      if par[n] == p {
        var m :| 0 <= m < |before| && before[m] == n;
        var m' := if m == i then j else if m == j then i else m;
        assert after[m'] == n;
      }
    }
    forall a, b | 0 <= a < b < |after|
      ensures after[a] != after[b]
    {
      var a' := if a == i then j else if a == j then i else a;
      var b' := if b == i then j else if b == j then i else b;
      assert after[a] == before[a'] && after[b] == before[b'];
    }
  }

  /** Clearing the parent links of all children of `p` and emptying its list keeps the invariant. */
  lemma ClearLinked(g: set<Node>, par: map<Node, Node?>, kids: map<Node, seq<Node>>, p: Node)
    requires Linked(g, par, kids) && p in g
    ensures Linked(g, map n | n in g :: if n in kids[p] then null else par[n], kids[p := []])
  {
    var par' := map n | n in g :: if n in kids[p] then null else par[n];
    var kids' := kids[p := []];
    forall n, j | n in g && 0 <= j < |kids'[n]|
      ensures kids'[n][j] in g && par'[kids'[n][j]] == n
    {
      assert n != p;
    }
  }

  /** After `remove_children` on `p`: the heap is the snapshots with `p`'s list emptied and its children's links cleared. */
  lemma ClearedIsForest(g: set<Node>, par: map<Node, Node?>, kids: map<Node, seq<Node>>, p: Node, cleared: seq<Node>)
    requires Linked(g, par, kids) && p in g && cleared == kids[p]
    requires forall k :: 0 <= k < |cleared| ==> cleared[k].parent == null
    requires forall n :: n in g && n !in cleared ==> n.parent == par[n]
    requires forall n :: n in g && n != p ==> n.children == kids[n]
    requires p.children == []
    ensures Forest(g)
  {
    ClearLinked(g, par, kids, p);
    var par' := map n | n in g :: if n in kids[p] then null else par[n];
    var kids' := kids[p := []];
    forall n | n in g
      ensures n.parent == par'[n] && n.children == kids'[n]
    {
      if n in cleared {
        var k :| 0 <= k < |cleared| && cleared[k] == n;
      }
    }
    LinkedIsForest(g, par', kids');
  }

  /** The parent of `n`, as a frame. */
  ghost function ParentSet(n: Node): set<Node>
    reads n
  {
    if n.parent == null then {} else {n.parent}
  }

  /** The first node of `cs` whose name is `s` (the `find` of `resolve_path`). */
  function FirstNamed(cs: seq<Node>, s: string): (r: Option<Node>)
    reads cs
    ensures r.Some? ==> r.value in cs && r.value.name == Some(s)
    ensures r.Some? ==> exists i :: 0 <= i < |cs| && cs[i] == r.value && forall k :: 0 <= k < i ==> cs[k].name != Some(s)
    ensures r.None? ==> forall c :: c in cs ==> c.name != Some(s)
  {
    if |cs| == 0 then None
    else if cs[0].name == Some(s) then Some(cs[0])
    else FirstNamed(cs[1..], s)
  }

  /** One path segment applied to the node `r`. */
  function Step(g: set<Node>, r: Node, s: string): (next: Option<Node>)
    reads g
    requires Forest(g) && r in g
    ensures next.Some? ==> next.value in g
  {
    if s == ".first" then (if |r.children| > 0 then Some(r.children[0]) else None)
    else if s == ".last" then (if |r.children| > 0 then Some(r.children[|r.children| - 1]) else None)
    else if s == ".." then (if r.parent == null then None else Some(r.parent))
    else if s == "" then Some(r)
    else FirstNamed(r.children, s)
  }

  /** Path resolution as a fold of `Step` over the segments; an absent result stays absent. */
  function Resolve(g: set<Node>, r: Option<Node>, segments: seq<string>): (res: Option<Node>)
    reads g
    requires Forest(g) && (r.Some? ==> r.value in g)
    ensures res.Some? ==> res.value in g
    decreases |segments|
  {
    if |segments| == 0 || r.None? then r
    else Resolve(g, Step(g, r.value, segments[0]), segments[1..])
  }

  class Node {
    var name: Option<string>
    var parent: Node?
    var components: seq<Component>
    var children: seq<Node>

    /** `Entity::new`: a node with no name, no parent, no components and no children. */
    constructor ()
      ensures name == None && parent == null && components == [] && children == []
    {
      name := None;
      parent := null;
      components := [];
      children := [];
    }

    /** `has::<T>()`: whether a component of type T is attached. */
    method Has(t: TypeTag) returns (b: bool)
      ensures b <==> CountTag(components, t) > 0
    {
      var r := Get(t);
      b := r.Some?;
    }

    /** `get::<T>()`: scans the slots and returns the first of type T. */
    method Get(t: TypeTag) returns (r: Option<Value>)
      ensures r == Lookup(components, t)
      ensures r.Some? <==> CountTag(components, t) > 0
    {
      for i := 0 to |components|
        invariant forall j :: 0 <= j < i ==> components[j].tag != t
      {
        if components[i].tag == t {
          FirstSlotIs(components, t, Some(i));
          return Some(components[i].value);
        }
      }
      FirstSlotIs(components, t, None);
      return None;
    }

    /** `set::<T>(v)`: deletes the first T component, then appends `v`; returns the same handle for chaining. */
    method Set(t: TypeTag, v: Value) returns (self: Node)
      modifies this`components
      ensures components == Stored(old(components), t, v)
      ensures self == this
    {
      var _ := Delete(t);
      components := components + [Component(t, v)];
      self := this;
    }

    /** `delete::<T>()`: removes the first T component and reports whether there was one. */
    method Delete(t: TypeTag) returns (deleted: bool)
      modifies this`components
      ensures deleted <==> CountTag(old(components), t) > 0
      ensures components == Deleted(old(components), t)
    {
      var snapshot := components;
      var i := 0;
      while i < |snapshot|
        invariant 0 <= i <= |snapshot| && components == snapshot
        invariant forall j :: 0 <= j < i ==> snapshot[j].tag != t
      {
        if snapshot[i].tag == t {
          FirstSlotIs(snapshot, t, Some(i));
          DeletedSplice(snapshot, t);
          components := components[..i] + components[i + 1..];
          return true;
        }
        i := i + 1;
      }
      FirstSlotIs(snapshot, t, None);
      DeletedSplice(snapshot, t);
      return false;
    }

    /** `parent()`: the parent link, when set. */
    function Parent(): (p: Option<Node>)
      reads this
      ensures p.Some? <==> parent != null
      ensures p.Some? ==> p.value == parent
    {
      if parent == null then None else Some(parent)
    }

    /** `children()`: a snapshot copy of the children list. */
    method Children() returns (c: seq<Node>)
      ensures c == children
    {
      c := [];
      var i := 0;
      while i < |children|
        invariant 0 <= i <= |children| && c == children[..i]
      {
        c := c + [children[i]];
        i := i + 1;
      }
    }

    /** `child_at(i)`: the child at position `i`, absent when out of range. */
    function ChildAt(index: nat): (r: Option<Node>)
      reads this
      ensures r.Some? <==> index < |children|
      ensures r.Some? ==> r.value == children[index]
    {
      if index < |children| then Some(children[index]) else None
    }

    /** `num_children()`: exactly the indices below it hold a child. */
    function NumChildren(): (n: nat)
      reads this
      ensures forall i: nat :: ChildAt(i).Some? <==> i < n
    {
      |children|
    }

    /** `name()`: what `set_name` last stored. */
    function Name(): (r: Option<string>)
      reads this
      ensures r == name
    {
      name
    }

    method SetName(n: Option<string>)
      modifies this`name
      ensures Name() == n
    {
      name := n;
    }

    /**
     * `remove_child(c)`: if `c` is a child (by identity), removes it and clears
     * its parent link; otherwise changes nothing.
     */
    method RemoveChild(child: Node, ghost g: set<Node>) returns (removed: bool)
      requires Forest(g) && this in g && child in g
      modifies this`children, child`parent
      ensures removed <==> child in old(children)
      ensures children == VectorExtensions.RemoveFirst(old(children), child)
      ensures removed ==> child.parent == null && child !in children
      ensures !removed ==> child.parent == old(child.parent)
      ensures Forest(g)
    {
      var i := VectorExtensions.IndexOf(children, child);
      if i.Some? {
        assert Distinct(children);
        RemovedAtDistinct(children, i.value);
        Detach(child, i.value, g);
        return true;
      } else {
        return false;
      }
    }

    /** Drops the child at `k` and clears its parent link: the body of a successful `remove_child`. */
    method Detach(child: Node, k: nat, ghost g: set<Node>)
      requires Forest(g) && this in g && k < |children| && children[k] == child
      modifies this`children, child`parent
      ensures children == RemovedAt(old(children), k) && child.parent == null
      ensures Forest(g)
    {
      ghost var par, kids := ParentsOf(g), KidsOf(g);
      ForestSnapshot(g);
      DetachLinked(g, par, kids, this, k);
      children := RemovedAt(children, k);
      child.parent := null;
      LinkedIsForest(g, par[child := null], kids[this := children]);
    }

    /** `remove_from_parent()`: asks the parent, if any, to remove this node. */
    method RemoveFromParent(ghost g: set<Node>) returns (removed: bool)
      requires Forest(g) && this in g
      modifies this`parent, ParentSet(this)`children
      ensures removed <==> old(parent) != null
      ensures parent == null
      ensures old(parent) != null ==> old(parent).children == VectorExtensions.RemoveFirst(old(parent.children), this)
      ensures Forest(g)
    {
      if parent != null {
        var p := parent;
        removed := p.RemoveChild(this, g);
      } else {
        removed := false;
      }
    }

    /**
     * `add_child(c)`: detaches `c` from its parent, then appends it here and
     * points its parent link at this node.
     */
    method AddChild(child: Node, ghost g: set<Node>)
      requires Forest(g) && this in g && child in g
      modifies this`children, child`parent, ParentSet(child)`children
      ensures child.parent == this
      ensures children == VectorExtensions.RemoveFirst(old(children), child) + [child]
      ensures old(child.parent) != this ==> children == old(children) + [child]
      ensures old(child.parent) != null && old(child.parent) != this ==>
        old(child.parent).children == VectorExtensions.RemoveFirst(old(child.parent.children), child)
      ensures Forest(g)
    {
      if child.parent != this {
        forall j | 0 <= j < |children| ensures children[j] != child {}
        VectorExtensions.RemoveFirstCount(children, child, child);
      }
      var _ := child.RemoveFromParent(g);
      assert Inserted(children, |children|, child) == children + [child];
      Attach(child, |children|, g);
    }

    /**
     * `add_child_at(i, c)`: detaches `c`, then panics unless `i` is below the
     * number of children at that point (so inserting at the end, or into a
     * node without children, always panics); otherwise inserts `c` at `i`.
     */
    method AddChildAt(index: nat, child: Node, ghost g: set<Node>) returns (outcome: Outcome)
      requires Forest(g) && this in g && child in g
      modifies this`children, child`parent, ParentSet(child)`children
      ensures old(child.parent) != null && old(child.parent) != this ==>
        old(child.parent).children == VectorExtensions.RemoveFirst(old(child.parent.children), child)
      ensures outcome.Completed? <==> index < |VectorExtensions.RemoveFirst(old(children), child)|
      ensures outcome.Completed? ==>
        && children == Inserted(VectorExtensions.RemoveFirst(old(children), child), index, child)
        && children[index] == child
        && child.parent == this
      ensures outcome.Panicked? ==>
        && outcome.message == IndexOutOfBounds
        && children == VectorExtensions.RemoveFirst(old(children), child)
        && child.parent == null
      ensures Forest(g)
    {
      var _ := child.RemoveFromParent(g);
      if !(index < |children|) {
        return Panicked(IndexOutOfBounds);
      }
      Attach(child, index, g);
      return Completed;
    }

    /** The second half of `add_child` and `add_child_at`: link a detached node in at `index`. */
    method Attach(child: Node, index: nat, ghost g: set<Node>)
      requires Forest(g) && this in g && child in g && child.parent == null && index <= |children|
      modifies this`children, child`parent
      ensures children == Inserted(old(children), index, child) && child.parent == this
      ensures Forest(g)
    {
      ghost var par, kids := ParentsOf(g), KidsOf(g);
      ForestSnapshot(g);
      AttachLinked(g, par, kids, this, child, index);
      child.parent := this;
      children := Inserted(children, index, child);
      LinkedIsForest(g, par[child := this], kids[this := children]);
    }

    /** `swap_children_by_indices(i, j)`: panics unless both are below the number of children. */
    method SwapChildrenByIndices(i: nat, j: nat, ghost g: set<Node>) returns (outcome: Outcome)
      requires Forest(g) && this in g
      modifies this`children
      ensures outcome.Completed? <==> i < |old(children)| && j < |old(children)|
      ensures outcome.Completed? ==> children == Swapped(old(children), i, j)
      ensures outcome.Panicked? ==> outcome.message == SomeIndicesOutOfBounds && children == old(children)
      ensures Forest(g)
    {
      if !(i < |children| && j < |children|) {
        return Panicked(SomeIndicesOutOfBounds);
      }
      Swap(i, j, g);
      return Completed;
    }

    /** `swap_children(a, b)`: panics unless both are children; otherwise swaps their positions. */
    method SwapChildren(a: Node, b: Node, ghost g: set<Node>) returns (outcome: Outcome)
      requires Forest(g) && this in g
      modifies this`children
      ensures outcome.Completed? <==> a in old(children) && b in old(children)
      ensures outcome.Completed? ==>
        var i := VectorExtensions.FirstIndex(old(children), a).value;
        var j := VectorExtensions.FirstIndex(old(children), b).value;
        children == Swapped(old(children), i, j) && children[i] == b && children[j] == a
      ensures outcome.Panicked? ==> outcome.message == SomeIndicesOutOfBounds && children == old(children)
      ensures Forest(g)
    {
      var i := VectorExtensions.IndexOf(children, a);
      var j := VectorExtensions.IndexOf(children, b);
      if !(i.Some? && j.Some?) {
        return Panicked(SomeIndicesOutOfBounds);
      }
      Swap(i.value, j.value, g);
      return Completed;
    }

    /** `Vec::swap` on the children list. */
    method Swap(i: nat, j: nat, ghost g: set<Node>)
      requires Forest(g) && this in g && i < |children| && j < |children|
      modifies this`children
      ensures children == Swapped(old(children), i, j)
      ensures Forest(g)
    {
      ghost var par, kids := ParentsOf(g), KidsOf(g);
      ForestSnapshot(g);
      SwapLinked(g, par, kids, this, i, j);
      children := Swapped(children, i, j);
      LinkedIsForest(g, par, kids[this := children]);
    }

    /** `remove_children()`: clears the parent link of every child, then empties the list. */
    method RemoveChildren(ghost g: set<Node>)
      requires Forest(g) && this in g
      modifies this`children, children`parent
      ensures children == []
      ensures forall c :: c in old(children) ==> c.parent == null
      ensures Forest(g)
    {
      ghost var par, kids := ParentsOf(g), KidsOf(g);
      ForestSnapshot(g);
      var snapshot := Children();
      ClearParents(snapshot);
      children := [];
      ClearedIsForest(g, par, kids, this, snapshot);
    }

    /** The loop of `remove_children`: clears the parent link of each node of `s`. */
    static method ClearParents(s: seq<Node>)
      modifies s`parent
      ensures forall k :: 0 <= k < |s| ==> s[k].parent == null
    {
      for i := 0 to |s|
        invariant forall k :: 0 <= k < i ==> s[k].parent == null
      {
        s[i].parent := null;
      }
    }

    /**
     * `resolve_path(path)`: splits `path` on `/` and folds the segments from
     * this node, stopping once the result is absent.
     */
    method ResolvePath(path: string, ghost g: set<Node>) returns (r: Option<Node>)
      requires Forest(g) && this in g
      ensures r == Resolve(g, Some(this), Split(path, '/'))
    {
      var segments := Split(path, '/');
      r := Some(this);
      var k := 0;
      while k < |segments|
        invariant 0 <= k <= |segments|
        invariant r.Some? ==> r.value in g
        invariant Resolve(g, r, segments[k..]) == Resolve(g, Some(this), segments)
      {
        if r.None? {
          break;
        }
        var s := segments[k];
        assert segments[k..][1..] == segments[k + 1..];
        if s == ".first" {
          var cs := r.value.Children();
          r := if |cs| > 0 then Some(cs[0]) else None;
        } else if s == ".last" {
          var cs := r.value.Children();
          r := if |cs| > 0 then Some(cs[|cs| - 1]) else None;
        } else if s == ".." {
          r := r.value.Parent();
        } else if s == "" {
        } else {
          var cs := r.value.Children();
          r := FirstNamed(cs, s);
        }
        k := k + 1;
      }
    }
  }

  /** A fresh node can join the nodes in use without breaking the invariant. */
  lemma ForestWithNewNode(g: set<Node>, n: Node)
    requires Forest(g) && n.parent == null && n.children == []
    requires forall m :: m in g ==> n !in m.children
    ensures Forest(g + {n})
  {
  }

  /** Once the result is absent it stays absent, whatever the remaining segments. */
  lemma {:induction false} ResolveAbsent(g: set<Node>, segments: seq<string>)
    requires Forest(g)
    ensures Resolve(g, None, segments) == None
  {
  }

  /** Resolution is a fold: resolving `a ++ b` resolves `a`, then `b` from there. */
  lemma {:induction false} ResolveConcat(g: set<Node>, r: Option<Node>, a: seq<string>, b: seq<string>)
    requires Forest(g) && (r.Some? ==> r.value in g)
    ensures Resolve(g, r, a + b) == Resolve(g, Resolve(g, r, a), b)
    decreases |a|
  {
    if |a| == 0 {
      assert a + b == b;
    } else if r.None? {
      ResolveAbsent(g, b);
    } else {
      assert (a + b)[0] == a[0] && (a + b)[1..] == a[1..] + b;
      ResolveConcat(g, Step(g, r.value, a[0]), a[1..], b);
    }
  }

  /** `resolve_path(p + "/" + q)` is `resolve_path(q)` from the result of `resolve_path(p)`. */
  lemma ResolveJoinedPath(g: set<Node>, n: Node, p: string, q: string)
    requires Forest(g) && n in g
    ensures Resolve(g, Some(n), Split(p + "/" + q, '/')) ==
            Resolve(g, Resolve(g, Some(n), Split(p, '/')), Split(q, '/'))
  {
    assert p + "/" + q == p + ['/'] + q;
    SplitAtSeparator(p, q, '/');
    ResolveConcat(g, Some(n), Split(p, '/'), Split(q, '/'));
  }

  /** A path made only of slashes (or empty) resolves to the starting node. */
  lemma {:induction false} ResolveOnlySlashes(g: set<Node>, n: Node, path: string)
    requires Forest(g) && n in g
    requires forall i :: 0 <= i < |path| ==> path[i] == '/'
    ensures Resolve(g, Some(n), Split(path, '/')) == Some(n)
    decreases |path|
  {
    if |path| == 0 {
      assert Split(path, '/') == [""];
    } else {
      ResolveOnlySlashes(g, n, path[1..]);
      assert Split(path, '/') == [""] + Split(path[1..], '/');
      assert (([""] + Split(path[1..], '/'))[1..]) == Split(path[1..], '/');
    }
  }

  /** `resolve_path(".first")` and `resolve_path(".last")` give the first and last child. */
  lemma ResolveFirstLast(g: set<Node>, n: Node)
    requires Forest(g) && n in g
    ensures Resolve(g, Some(n), Split(".first", '/')) ==
      if |n.children| == 0 then None else Some(n.children[0])
    ensures Resolve(g, Some(n), Split(".last", '/')) ==
      if |n.children| == 0 then None else Some(n.children[|n.children| - 1])
  {
    ResolveOneSegment(g, n, ".first");
    ResolveOneSegment(g, n, ".last");
  }

  /** A path without `/` is one segment: one `Step`. */
  lemma ResolveOneSegment(g: set<Node>, n: Node, s: string)
    requires Forest(g) && n in g && '/' !in s
    ensures Resolve(g, Some(n), Split(s, '/')) == Step(g, n, s)
  {
    SplitWithoutSeparator(s, '/');
    var r := Step(g, n, s);
    assert Resolve(g, Some(n), [s]) == Resolve(g, r, []);
  }

  /**
   * Stepping down to a named child and back up with `..` returns to the start:
   * `resolve_path("child1/..") == self`.
   */
  lemma ResolveChildThenParent(g: set<Node>, n: Node, s: string)
    requires Forest(g) && n in g
    requires s != "" && s != ".first" && s != ".last" && s != ".." && '/' !in s
    requires FirstNamed(n.children, s).Some?
    ensures Resolve(g, Some(n), Split(s + "/..", '/')) == Some(n)
  {
    assert s + "/.." == s + ['/'] + "..";
    SplitAtSeparator(s, "..", '/');
    SplitWithoutSeparator(s, '/');
    SplitWithoutSeparator("..", '/');
    assert Split(s + "/..", '/') == [s, ".."];
    assert [s, ".."][1..] == [".."];
    var c := FirstNamed(n.children, s).value;
    var j :| 0 <= j < |n.children| && n.children[j] == c;
    assert Step(g, n, s) == Some(c) && c.parent == n;
    assert Resolve(g, Some(c), [".."]) == Resolve(g, Step(g, c, ".."), []);
  }

  /** A name that no child carries resolves to nothing. */
  lemma ResolveMissingName(g: set<Node>, n: Node, s: string)
    requires Forest(g) && n in g
    requires s != "" && s != ".first" && s != ".last" && s != ".." && '/' !in s
    requires forall c :: c in n.children ==> c.name != Some(s)
    ensures Resolve(g, Some(n), Split(s, '/')) == None
  {
    SplitWithoutSeparator(s, '/');
  }

  /**
   * Under the invariant, `parent()` and `child_at()` agree: a node's parent
   * lists it, and every child a node lists has that node as its parent.
   */
  lemma ParentChildAgree(g: set<Node>, n: Node)
    requires Forest(g) && n in g
    ensures n.Parent().Some? ==> n.Parent().value in g && n in n.Parent().value.children
    ensures forall i: nat :: n.ChildAt(i).Some? ==> n.ChildAt(i).value in g && n.ChildAt(i).value.Parent() == Some(n)
  {
  }

  /** Under the invariant, a node is listed by at most one node, and by its parent. */
  lemma SingleParent(g: set<Node>, c: Node, m: Node, n: Node)
    requires Forest(g) && m in g && n in g
    requires c in m.children && c in n.children
    ensures m == n && c.parent == m
  {
  }
}
