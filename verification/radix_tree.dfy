/**
  The IPv4 radix tree of IPv4RadixIntTree: a binary trie over address bits, most
  significant first, stored in three parallel arrays (`lefts`, `rights`, `values`)
  indexed by node number, with node 0 as the root.

  Its meaning is a `Table` from prefixes to values: `Refines(t, m)` says the node
  reached by following prefix `p` holds `m[p]` (or `NoValue`). `Put` extends the
  table by one entry and `SelectValue` computes the longest-prefix match `Best`.
 */
module RadixTree {
  import opened Prefixes

  /** The source's NULL_PTR: no child. */
  const Null: int := -1
  const Root: int := 0
  /** Capacity of the no-argument constructor. */
  const DefaultCapacity: int := 1024

  datatype Tree = Tree(lefts: seq<int>, rights: seq<int>, values: seq<int>, allocatedSize: int, size: int)

  /** A child link is NULL or a non-root node in use. */
  predicate ChildOk(size: int, c: int) {
    c == Null || 1 <= c < size
  }

  /** Node `i` exists and links only to nodes in use. */
  predicate LinksOk(t: Tree, i: int) {
    0 <= i < |t.lefts| && i < |t.rights| && ChildOk(t.size, t.lefts[i]) && ChildOk(t.size, t.rights[i])
  }

  /** The arrays have the allocated length, and the nodes in use link only to nodes in use. */
  predicate Shape(t: Tree) {
    && |t.lefts| == t.allocatedSize
    && |t.rights| == t.allocatedSize
    && |t.values| == t.allocatedSize
    && 1 <= t.size <= t.allocatedSize
    && forall i {:trigger LinksOk(t, i)} :: 0 <= i < t.size ==> LinksOk(t, i)
  }

  /** Nodes `i` and `j` do not link to the same child. */
  predicate Unshared(t: Tree, i: int, j: int) {
    && 0 <= i < |t.lefts| && i < |t.rights| && 0 <= j < |t.lefts| && j < |t.rights|
    && (t.lefts[i] != Null ==> t.lefts[i] != t.rights[j])
    && (i != j && t.lefts[i] != Null ==> t.lefts[i] != t.lefts[j])
    && (i != j && t.rights[i] != Null ==> t.rights[i] != t.rights[j])
  }

  /** No node is linked twice: the arrays hold a tree, not a graph with sharing. */
  predicate Distinct(t: Tree) {
    forall i, j {:trigger Unshared(t, i, j)} :: 0 <= i < t.size && 0 <= j < t.size ==> Unshared(t, i, j)
  }

  function Child(t: Tree, n: int, right: bool): int {
    if 0 <= n < |t.lefts| && n < |t.rights| then
      if right then t.rights[n] else t.lefts[n]
    else Null
  }

  /** The node reached from the root by following `p`, or `Null`. */
  function Walk(t: Tree, p: Prefix): int
    decreases |p|
  {
    if p == [] then Root
    else
      var n := Walk(t, p[..|p| - 1]);
      if n == Null then Null else Child(t, n, p[|p| - 1])
  }

  /** The value stored at prefix `p`: the value of its node, or `NoValue` when there is none. */
  function Lookup(t: Tree, p: Prefix): int {
    var n := Walk(t, p);
    if 0 <= n < |t.values| then t.values[n] else NoValue
  }

  predicate Absent(t: Tree, p: Prefix) {
    Walk(t, p) == Null
  }

  /** No node sits below depth 32, so lookups stop after the 32 address bits. */
  ghost predicate Bounded(t: Tree) {
    forall p {:trigger Absent(t, p)} :: |p| == 33 ==> Absent(t, p)
  }

  ghost predicate Valid(t: Tree) {
    Shape(t) && Distinct(t) && Bounded(t)
  }

  /** The tree and the table agree at prefix `p`. */
  predicate Agrees(t: Tree, m: Table, p: Prefix) {
    Lookup(t, p) == Get(m, p)
  }

  /** The tree represents table `m`: every prefix of at most 32 bits looks up its entry in `m`. */
  ghost predicate Refines(t: Tree, m: Table) {
    && Valid(t)
    && TableOk(m)
    && forall p {:trigger Agrees(t, m, p)} :: |p| <= 32 ==> Agrees(t, m, p)
  }

  // ---------------------------------------------------------------------------
  // Facts about walks

  lemma ChildRange(t: Tree, n: int, right: bool)
    requires Shape(t) && 0 <= n < t.size
    ensures ChildOk(t.size, Child(t, n, right))
  {
    assert LinksOk(t, n);
  }

  /** In a tree without sharing, a child has one parent. */
  lemma ChildUnique(t: Tree, a: int, x: bool, b: int, y: bool)
    requires Shape(t) && Distinct(t) && 0 <= a < t.size && 0 <= b < t.size
    requires Child(t, a, x) == Child(t, b, y) != Null
    ensures a == b && x == y
  {
    assert Unshared(t, a, b) && Unshared(t, b, a);
  }

  lemma {:induction false} WalkRange(t: Tree, p: Prefix)
    requires Shape(t)
    ensures Walk(t, p) == Null || 0 <= Walk(t, p) < t.size
    ensures p != [] ==> Walk(t, p) != Root
    decreases |p|
  {
    if p != [] {
      var pp := p[..|p| - 1];
      WalkRange(t, pp);
      if Walk(t, pp) != Null {
        ChildRange(t, Walk(t, pp), p[|p| - 1]);
      }
    }
  }

  /** Only one prefix leads to each node. */
  lemma {:induction false} WalkUnique(t: Tree, p: Prefix, q: Prefix)
    requires Shape(t) && Distinct(t)
    requires Walk(t, p) == Walk(t, q) != Null
    ensures p == q
    decreases |p| + |q|
  {
    WalkRange(t, p);
    WalkRange(t, q);
    if p != [] && q != [] {
      var pp, qq := p[..|p| - 1], q[..|q| - 1];
      WalkRange(t, pp);
      WalkRange(t, qq);
      ChildUnique(t, Walk(t, pp), p[|p| - 1], Walk(t, qq), q[|q| - 1]);
      WalkUnique(t, pp, qq);
      assert p == pp + [p[|p| - 1]];
      assert q == qq + [q[|q| - 1]];
    }
  }

  /** Below a missing node nothing is reachable. */
  lemma {:induction false} WalkNullBelow(t: Tree, e: Prefix, p: Prefix)
    requires Walk(t, e) == Null
    requires |e| <= |p| && p[..|e|] == e
    ensures Walk(t, p) == Null
    decreases |p|
  {
    if |p| > |e| {
      assert p[..|p| - 1][..|e|] == e;
      WalkNullBelow(t, e, p[..|p| - 1]);
    } else {
      assert p == e;
    }
  }

  /** The node at depth `d` on the path of `key`, computed along the key's bits. */
  function WalkKey(t: Tree, key: bv32, d: nat): int {
    if d == 0 then Root
    else
      var n := WalkKey(t, key, d - 1);
      if n == Null then Null else Child(t, n, Bit(key, d - 1))
  }

  lemma {:induction false} WalkKeyIsWalk(t: Tree, key: bv32, d: nat)
    ensures WalkKey(t, key, d) == Walk(t, KeyPath(key, d))
  {
    if d > 0 {
      WalkKeyIsWalk(t, key, d - 1);
      var p, pp := KeyPath(key, d), KeyPath(key, d - 1);
      assert p == pp + [Bit(key, d - 1)];
      assert p[..d - 1] == pp && p[d - 1] == Bit(key, d - 1);
    }
  }

  lemma {:induction false} WalkNullKey(t: Tree, key: bv32, j: nat, n: nat)
    requires j <= n && WalkKey(t, key, j) == Null
    ensures WalkKey(t, key, n) == Null
  {
    if j < n {
      WalkNullKey(t, key, j, n - 1);
    }
  }

  /** Walks read only the links of the nodes in use. */
  lemma {:induction false} WalkLinks(t: Tree, u: Tree, p: Prefix)
    requires Shape(t)
    requires |u.lefts| >= t.size && |u.rights| >= t.size
    requires u.lefts[..t.size] == t.lefts[..t.size] && u.rights[..t.size] == t.rights[..t.size]
    ensures Walk(u, p) == Walk(t, p)
    decreases |p|
  {
    if p != [] {
      var pp := p[..|p| - 1];
      WalkLinks(t, u, pp);
      WalkRange(t, pp);
      var w := Walk(t, pp);
      if w != Null {
        assert u.lefts[w] == u.lefts[..t.size][w];
        assert u.rights[w] == u.rights[..t.size][w];
      }
    }
  }

  /** A tree with the same links on the nodes in use has the same shape and the same walks. */
  lemma SameLinks(t: Tree, u: Tree)
    requires Shape(t) && u.size == t.size
    requires |u.lefts| >= t.size && |u.rights| >= t.size
    requires u.lefts[..t.size] == t.lefts[..t.size] && u.rights[..t.size] == t.rights[..t.size]
    ensures forall i {:trigger LinksOk(u, i)} :: 0 <= i < u.size ==> LinksOk(u, i)
    ensures Distinct(t) ==> Distinct(u)
    ensures forall p {:trigger Walk(u, p)} :: Walk(u, p) == Walk(t, p)
  {
    forall i | 0 <= i < t.size
      ensures u.lefts[i] == t.lefts[i] && u.rights[i] == t.rights[i]
    {
      assert u.lefts[i] == u.lefts[..t.size][i];
      assert u.rights[i] == u.rights[..t.size][i];
    }
    forall i | 0 <= i < u.size
      ensures LinksOk(u, i)
    {
      assert LinksOk(t, i);
    }
    if Distinct(t) {
      forall i, j | 0 <= i < u.size && 0 <= j < u.size
        ensures Unshared(u, i, j)
      {
        assert Unshared(t, i, j);
      }
    }
    forall p
      ensures Walk(u, p) == Walk(t, p)
    {
      WalkLinks(t, u, p);
    }
  }

  // ---------------------------------------------------------------------------
  // The arena

  /** A tree of one node, the root, with no children and no value. */
  function Init(allocatedSize: int): (t: Tree)
    requires allocatedSize >= 1
    ensures t.size == 1 && t.allocatedSize == allocatedSize
    ensures Refines(t, map[])
  {
    var zeros := seq(allocatedSize, _ => 0);
    var t := Tree(zeros[Root := Null], zeros[Root := Null], zeros[Root := NoValue], allocatedSize, 1);
    InitEmpty(t);
    t
  }

  lemma InitEmpty(t: Tree)
    requires Shape(t) && t.size == 1
    requires t.lefts[Root] == Null && t.rights[Root] == Null && t.values[Root] == NoValue
    ensures Refines(t, map[])
  {
    forall p: Prefix
      ensures Walk(t, p) == if p == [] then Root else Null
    {
      if p != [] {
        assert p[..1] == [p[0]];
        WalkNullBelow(t, [p[0]], p);
      }
    }
  }

  /** The growth step: capacity doubles and the entries in use are kept. */
  function Expand(t: Tree): (t': Tree)
    requires Shape(t)
    ensures t'.allocatedSize == 2 * t.allocatedSize && t'.size == t.size
    ensures Shape(t')
    ensures t'.lefts[..t.allocatedSize] == t.lefts && t'.rights[..t.allocatedSize] == t.rights
    ensures t'.values[..t.allocatedSize] == t.values
  {
    var zeros := seq(t.allocatedSize, _ => 0);
    var u := Tree(t.lefts + zeros, t.rights + zeros, t.values + zeros, 2 * t.allocatedSize, t.size);
    assert u.lefts[..t.size] == t.lefts[..t.size] && u.rights[..t.size] == t.rights[..t.size];
    SameLinks(t, u);
    u
  }

  /** Growing changes nothing a walk or a lookup can see. */
  lemma ExpandRefines(t: Tree, m: Table)
    requires Refines(t, m)
    ensures Refines(Expand(t), m)
    ensures forall p: Prefix :: Walk(Expand(t), p) == Walk(t, p)
  {
    var u := Expand(t);
    assert u.lefts[..t.size] == t.lefts[..t.size] && u.rights[..t.size] == t.rights[..t.size];
    SameLinks(t, u);
    forall p: Prefix | |p| == 33
      ensures Absent(u, p)
    {
      assert Absent(t, p);
    }
    forall p: Prefix | |p| <= 32
      ensures Agrees(u, m, p)
    {
      assert Agrees(t, m, p);
      WalkRange(t, p);
      var n := Walk(t, p);
      if n != Null {
        assert u.values[n] == u.values[..t.allocatedSize][n];
      }
    }
  }

  /**
    The linking half of one step of `put`'s node-creating loop: a fresh node `size`, with no
    children and no value, becomes the `right` (or left) child of `node`.
   */
  function Link(t: Tree, node: int, right: bool): Tree
    requires Shape(t) && t.size < t.allocatedSize && 0 <= node < t.size
  {
    var next := t.size;
    var values := t.values[next := NoValue];
    var rights := t.rights[next := Null];
    var lefts := t.lefts[next := Null];
    Tree(if right then lefts else lefts[node := next],
         if right then rights[node := next] else rights,
         values, t.allocatedSize, t.size + 1)
  }

  function SetValue(t: Tree, node: int, value: int): Tree
    requires 0 <= node < |t.values|
  {
    t.(values := t.values[node := value])
  }

  /** Linking keeps the arrays a tree: the new node is fresh and linked once. */
  lemma LinkShape(t: Tree, node: int, right: bool)
    requires Shape(t) && Distinct(t) && t.size < t.allocatedSize
    requires 0 <= node < t.size && Child(t, node, right) == Null
    ensures Shape(Link(t, node, right)) && Distinct(Link(t, node, right))
  {
    var u := Link(t, node, right);
    forall i | 0 <= i < u.size
      ensures LinksOk(u, i)
    {
      if i < t.size {
        assert LinksOk(t, i);
      }
    }
    forall i, j | 0 <= i < u.size && 0 <= j < u.size
      ensures Unshared(u, i, j)
    {
      if i < t.size && j < t.size {
        assert Unshared(t, i, j) && LinksOk(t, i) && LinksOk(t, j);
      } else if i < t.size {
        assert LinksOk(t, i);
      }
    }
  }

  /** The links after `Link`: only `node`'s `right` link changes, and the new node has none. */
  lemma LinkChild(t: Tree, node: int, right: bool, w: int, c: bool)
    requires Shape(t) && t.size < t.allocatedSize && 0 <= node < t.size && 0 <= w <= t.size
    ensures Child(Link(t, node, right), w, c) ==
      if w == t.size then Null
      else if w == node && c == right then t.size
      else Child(t, w, c)
  {
  }

  /** After linking, the new node is reached by `q + [right]` only, and nothing is reached below it. */
  lemma {:induction false} LinkWalk(t: Tree, node: int, right: bool, q: Prefix, p: Prefix)
    requires Shape(t) && Distinct(t) && t.size < t.allocatedSize
    requires 0 <= node < t.size && Walk(t, q) == node && Child(t, node, right) == Null
    ensures Walk(Link(t, node, right), p) ==
      if p == q + [right] then t.size
      else if |p| > |q| + 1 && p[..|q| + 1] == q + [right] then Null
      else Walk(t, p)
    decreases |p|
  {
    var u := Link(t, node, right);
    var e := q + [right];
    if p != [] {
      var pp, c := p[..|p| - 1], p[|p| - 1];
      LinkWalk(t, node, right, q, pp);
      WalkRange(t, pp);
      assert p == pp + [c];
      var w := Walk(u, pp);
      if w != Null {
        LinkChild(t, node, right, w, c);
      }
      if pp == e {
        assert p[..|e|] == e;
      } else if |pp| > |e| && pp[..|e|] == e {
        assert p[..|e|] == pp[..|e|];
      } else {
        assert w == Walk(t, pp);
        if |p| > |e| {
          assert p[..|e|] == pp[..|e|];
        }
        if w != Null && w == node && c == right {
          WalkUnique(t, pp, q);
        }
        if p == e {
          assert pp == q && c == right;
        }
      }
    }
  }

  /** One step of `put`'s second loop keeps the table and links the next node of the path. */
  lemma LinkRefines(t: Tree, m: Table, node: int, right: bool, q: Prefix)
    requires Refines(t, m) && t.size < t.allocatedSize && |q| < 32
    requires 0 <= node < t.size && Walk(t, q) == node && Child(t, node, right) == Null
    ensures Refines(Link(t, node, right), m)
    ensures Walk(Link(t, node, right), q + [right]) == t.size
  {
    var u := Link(t, node, right);
    var e := q + [right];
    LinkShape(t, node, right);
    assert e[..|e| - 1] == q;
    LinkWalk(t, node, right, q, e);
    forall p: Prefix | |p| == 33
      ensures Absent(u, p)
    {
      LinkWalk(t, node, right, q, p);
      assert Absent(t, p);
    }
    forall p: Prefix | |p| <= 32
      ensures Agrees(u, m, p)
    {
      LinkLookup(t, m, node, right, q, p);
    }
  }

  lemma LinkLookup(t: Tree, m: Table, node: int, right: bool, q: Prefix, p: Prefix)
    requires Refines(t, m) && t.size < t.allocatedSize && |q| < 32 && |p| <= 32
    requires 0 <= node < t.size && Walk(t, q) == node && Child(t, node, right) == Null
    ensures Lookup(Link(t, node, right), p) == Get(m, p)
  {
    var e := q + [right];
    assert e[..|e| - 1] == q;
    assert Walk(t, e) == Null;
    assert Agrees(t, m, p) && Agrees(t, m, e);
    LinkWalk(t, node, right, q, p);
    WalkRange(t, p);
    if |p| > |e| && p[..|e|] == e {
      WalkNullBelow(t, e, p);
    }
  }

  /** Storing at the node of `q` changes the table at `q` only. */
  lemma SetRefines(t: Tree, m: Table, q: Prefix, value: int)
    requires Refines(t, m) && |q| <= 32
    requires Walk(t, q) != Null
    ensures 0 <= Walk(t, q) < |t.values|
    ensures Refines(SetValue(t, Walk(t, q), value), Store(m, q, value))
  {
    WalkRange(t, q);
    var n := Walk(t, q);
    var u := SetValue(t, n, value);
    SameLinks(t, u);
    var m2 := Store(m, q, value);
    TableOkStore(m, q, value);
    forall p: Prefix | |p| == 33
      ensures Absent(u, p)
    {
      assert Absent(t, p);
    }
    forall p: Prefix | |p| <= 32
      ensures Agrees(u, m2, p)
    {
      SetLookup(t, m, q, value, p);
    }
  }

  lemma SetLookup(t: Tree, m: Table, q: Prefix, value: int, p: Prefix)
    requires Refines(t, m) && |q| <= 32 && |p| <= 32
    requires Walk(t, q) != Null
    ensures 0 <= Walk(t, q) < |t.values|
    ensures Lookup(SetValue(t, Walk(t, q), value), p) == Get(Store(m, q, value), p)
  {
    GetStore(m, q, value, p);
    WalkRange(t, q);
    WalkRange(t, p);
    assert Agrees(t, m, p);
    WalkLinks(t, SetValue(t, Walk(t, q), value), p);
    if Walk(t, p) == Walk(t, q) {
      WalkUnique(t, p, q);
    }
  }

  // ---------------------------------------------------------------------------
  // put

  /** How deep the path of `key` already exists, up to depth `n`: where `put`'s first loop stops. */
  ghost function Reached(t: Tree, key: bv32, n: nat): nat
    ensures Reached(t, key, n) <= n
  {
    if n == 0 || WalkKey(t, key, n) != Null then n else Reached(t, key, n - 1)
  }

  lemma {:induction false} ReachedAt(t: Tree, key: bv32, d: nat, n: nat)
    requires d <= n && WalkKey(t, key, d) != Null
    requires d < n ==> WalkKey(t, key, d + 1) == Null
    ensures Reached(t, key, n) == d
  {
    if d < n {
      WalkNullKey(t, key, d + 1, n);
      ReachedAt(t, key, d, n - 1);
    }
  }

  lemma WalkKeyRange(t: Tree, key: bv32, d: nat)
    requires Shape(t)
    ensures WalkKey(t, key, d) == Null || 0 <= WalkKey(t, key, d) < t.size
  {
    WalkKeyIsWalk(t, key, d);
    WalkRange(t, KeyPath(key, d));
  }

  /** One step down the path of `key`, as the source's loops take it with their probe `bit`. */
  lemma WalkKeyNext(t: Tree, key: bv32, d: nat, right: bool)
    requires Shape(t) && right == Bit(key, d)
    requires 0 <= WalkKey(t, key, d) < t.size
    ensures WalkKey(t, key, d + 1) == if right then t.rights[WalkKey(t, key, d)] else t.lefts[WalkKey(t, key, d)]
  {
  }

  /** No path reaches below depth 32. */
  lemma DepthBound(t: Tree, key: bv32, d: nat)
    requires Bounded(t)
    ensures WalkKey(t, key, d) != Null ==> d <= 32
  {
    if d > 32 {
      WalkKeyIsWalk(t, key, 33);
      assert Absent(t, KeyPath(key, 33));
      WalkNullKey(t, key, 33, d);
    }
  }

  /** Growing keeps the table and the node on the path of `key`. */
  lemma ExpandStep(t: Tree, m: Table, key: bv32, d: nat)
    requires Refines(t, m)
    ensures Refines(Expand(t), m)
    ensures WalkKey(Expand(t), key, d) == WalkKey(t, key, d)
    ensures 0 <= WalkKey(t, key, d) < t.size ==>
      forall right :: Child(Expand(t), WalkKey(t, key, d), right) == Child(t, WalkKey(t, key, d), right)
  {
    ExpandRefines(t, m);
    WalkKeyIsWalk(t, key, d);
    WalkKeyIsWalk(Expand(t), key, d);
    var n := WalkKey(t, key, d);
    if 0 <= n < t.size {
      var u := Expand(t);
      assert u.lefts[n] == u.lefts[..t.allocatedSize][n];
      assert u.rights[n] == u.rights[..t.allocatedSize][n];
    }
  }

  /** The new node is reached along `key` one level below its parent. */
  lemma LinkWalkKey(t: Tree, key: bv32, d: nat, node: int)
    requires Shape(t) && Distinct(t) && t.size < t.allocatedSize
    requires node == WalkKey(t, key, d) && 0 <= node < t.size && Child(t, node, Bit(key, d)) == Null
    ensures WalkKey(Link(t, node, Bit(key, d)), key, d + 1) == t.size
  {
    var b := Bit(key, d);
    var q := KeyPath(key, d);
    var u := Link(t, node, b);
    WalkKeyIsWalk(t, key, d);
    LinkWalk(t, node, b, q, q);
    WalkKeyIsWalk(u, key, d);
    LinkChild(t, node, b, node, b);
  }

  /** One step of `put`'s second loop, stated along the path of `key`. */
  lemma LinkStep(t: Tree, m: Table, key: bv32, d: nat, node: int, right: bool)
    requires Refines(t, m) && t.size < t.allocatedSize && d < 32 && right == Bit(key, d)
    requires node == WalkKey(t, key, d) && 0 <= node < t.size && Child(t, node, right) == Null
    ensures Refines(Link(t, node, right), m)
    ensures WalkKey(Link(t, node, right), key, d + 1) == t.size
    ensures Link(t, node, right).lefts[t.size] == Null && Link(t, node, right).rights[t.size] == Null
  {
    WalkKeyIsWalk(t, key, d);
    LinkRefines(t, m, node, right, KeyPath(key, d));
    LinkWalkKey(t, key, d, node);
  }

  /** The path `put` stores under does not exist yet when its first loop falls off the tree. */
  lemma MissingPath(t: Tree, m: Table, key: bv32, d: nat, n: nat)
    requires Refines(t, m) && d < n <= 32 && WalkKey(t, key, d + 1) == Null
    ensures KeyPath(key, n) !in m
  {
    WalkNullKey(t, key, d + 1, n);
    WalkKeyIsWalk(t, key, n);
    assert Agrees(t, m, KeyPath(key, n)) && EntryOk(m, KeyPath(key, n));
  }

  /**
    The probe of `put`'s loops at depth `d`, for a mask whose leading run of
    1-bits has length `n`: `bit` is the probe of depth `d`, and the loop test
    `bit & mask != 0` holds exactly while `d < n`.
   */
  predicate Probing(mask: bv32, bit: bv32, d: nat, n: nat) {
    && d <= n <= 32 && LeadingOnesFrom(mask, d) == n
    && bit == BitAt(d) && (d >= 32 ==> bit == 0)
    && (bit & mask != 0 <==> d < n)
  }

  lemma ProbeGuard(mask: bv32, bit: bv32, d: nat, n: nat)
    requires d <= n <= 32 && LeadingOnesFrom(mask, d) == n
    requires bit == BitAt(d) && (d >= 32 ==> bit == 0)
    ensures bit & mask != 0 <==> d < n
  {
    ProbeBit(mask, bit, d);
    AndCommutes(bit, mask);
    if d < n {
      ProbeInside(mask, d, n);
    } else {
      ProbeOutside(mask, d, n);
      NoBitBelow(mask);
    }
  }

  /** Past the last level the probe is 0, so no mask has a bit there. */
  lemma NoBitBelow(mask: bv32)
    ensures !Bit(mask, 32)
  {
  }

  lemma ProbeInside(mask: bv32, d: nat, n: nat)
    requires d < n <= 32 && LeadingOnesFrom(mask, d) == n
    ensures Bit(mask, d)
  {
    LeadingOnesAbove(mask, d, d);
  }

  lemma ProbeOutside(mask: bv32, d: nat, n: nat)
    requires d == n <= 32 && LeadingOnesFrom(mask, d) == n
    ensures !Bit(mask, d) || d == 32
  {
    LeadingOnesEnd(mask, d);
  }

  lemma ProbeStart(mask: bv32)
    ensures Probing(mask, 0x8000_0000, 0, LeadingOnes(mask))
  {
    ProbeGuard(mask, 0x8000_0000, 0, LeadingOnes(mask));
  }

  /** `bit >>= 1` moves the probe one level down. */
  lemma ProbeNext(mask: bv32, bit: bv32, d: nat, n: nat)
    requires Probing(mask, bit, d, n) && d < n
    ensures Probing(mask, bit >> 1, d + 1, n)
  {
    BitAtNext(d);
    ProbeGuard(mask, bit >> 1, d + 1, n);
  }

  /**
    One step of `put`'s node-creating loop. When the arrays are full
    they are expanded first; then a fresh node is linked under `node`.
   */
  function Grow(t: Tree, node: int, right: bool): Tree
    requires Shape(t) && 0 <= node < t.size
  {
    var u := if t.size == t.allocatedSize then Expand(t) else t;
    Link(u, node, right)
  }

  /**
    The state of `put`'s second loop, `d` levels down: the tree still represents
    `m`, `node` is the end of the path of `key` built so far and has no child in the
    next direction, and one node was added per level below `Reached`.
   */
  ghost predicate Growing(t0: Tree, t: Tree, m: Table, key: bv32, n: nat, d: nat, node: int) {
    && d <= n <= 32
    && Refines(t, m)
    && node == WalkKey(t, key, d) && 0 <= node < t.size
    && (d < n ==> Child(t, node, Bit(key, d)) == Null)
    && t.size == t0.size + (d - Reached(t0, key, n))
    && t.allocatedSize >= t0.allocatedSize
  }

  lemma GrowStep(t0: Tree, t: Tree, m: Table, key: bv32, n: nat, d: nat, node: int, right: bool)
    requires Growing(t0, t, m, key, n, d, node) && d < n && right == Bit(key, d)
    ensures Growing(t0, Grow(t, node, right), m, key, n, d + 1, t.size)
  {
    var u := if t.size == t.allocatedSize then Expand(t) else t;
    if t.size == t.allocatedSize {
      ExpandStep(t, m, key, d);
    }
    LinkStep(u, m, key, d, node, right);
  }

  /**
    The descending loop of `put`: follow the existing nodes along `key` while the mask's
    run of 1-bits lasts. It stops at depth `Reached`, either at the end of the run
    (`next` is the node there) or where the next node is missing (`next` is NULL).
   */
  method Descend(t: Tree, key: bv32, mask: bv32) returns (node: int, next: int, bit: bv32, ghost d: nat)
    requires Shape(t)
    ensures Probing(mask, bit, d, LeadingOnes(mask))
    ensures node == WalkKey(t, key, d) && 0 <= node < t.size
    ensures next != Null ==> next == node && d == LeadingOnes(mask)
    ensures next == Null ==> d < LeadingOnes(mask) && WalkKey(t, key, d + 1) == Null
    ensures Reached(t, key, LeadingOnes(mask)) == d
  {
    ghost var n := LeadingOnes(mask);
    bit := 0x8000_0000;
    node := Root;
    next := Root;
    d := 0;
    ProbeStart(mask);
    while bit & mask != 0
      invariant Probing(mask, bit, d, n)
      invariant node == WalkKey(t, key, d) && 0 <= node < t.size
      invariant next == node
      decreases n - d
    {
      var right := key & bit != 0;
      ProbeBit(key, bit, d);
      WalkKeyNext(t, key, d, right);
      WalkKeyRange(t, key, d + 1);
      next := if right then t.rights[node] else t.lefts[node];
      if next == Null {
        break;
      }
      ProbeNext(mask, bit, d, n);
      bit := bit >> 1;
      node := next;
      d := d + 1;
    }
    ReachedAt(t, key, d, n);
  }

  /** One pass of `put`'s second loop, on the state `Growing` describes. */
  method GrowNode(t0: Tree, t: Tree, key: bv32, bit: bv32, node: int, ghost n: nat, ghost d: nat, ghost m: Table)
    returns (t': Tree)
    requires Growing(t0, t, m, key, n, d, node) && d < n && bit == BitAt(d)
    ensures Growing(t0, t', m, key, n, d + 1, t.size)
  {
    var right := key & bit != 0;
    ProbeBit(key, bit, d);
    GrowStep(t0, t, m, key, n, d, node, right);
    t' := Grow(t, node, right);
  }

  /**
    The node-creating loop of `put`: below the last existing node, create one node per
    remaining level of the mask's run, growing the arrays when they are full.
   */
  method Extend(t0: Tree, t: Tree, key: bv32, mask: bv32, node: int, bit: bv32, ghost d: nat, ghost m: Table)
    returns (t': Tree, last: int)
    requires Growing(t0, t, m, key, LeadingOnes(mask), d, node)
    requires Probing(mask, bit, d, LeadingOnes(mask))
    ensures Growing(t0, t', m, key, LeadingOnes(mask), LeadingOnes(mask), last)
  {
    ghost var n := LeadingOnes(mask);
    t' := t;
    last := node;
    var b := bit;
    ghost var e := d;
    while b & mask != 0
      invariant Probing(mask, b, e, n)
      invariant Growing(t0, t', m, key, n, e, last)
      decreases n - e
    {
      var next := t'.size;
      t' := GrowNode(t0, t', key, b, last, n, e, m);
      ProbeNext(mask, b, e, n);
      b := b >> 1;
      last := next;
      e := e + 1;
    }
  }

  /**
    `put(key, mask, value)`: descend along the bits of `key` under the leading run
    of 1-bits of `mask`, creating the missing nodes, and store `value` at the end.
    The table gains (or overwrites) exactly the entry for that prefix; the tree
    grows by one node per missing level; overwriting adds no node.
   */
  method Put(t: Tree, key: bv32, mask: bv32, value: int, ghost m: Table) returns (t': Tree)
    requires Refines(t, m)
    ensures Refines(t', Store(m, PutPath(key, mask), value))
    ensures t'.size == t.size + (LeadingOnes(mask) - Reached(t, key, LeadingOnes(mask)))
    ensures t'.allocatedSize >= t.allocatedSize
    ensures PutPath(key, mask) in m ==> t'.size == t.size && t'.allocatedSize == t.allocatedSize
  {
    ghost var n := LeadingOnes(mask);
    var node, next, bit, d := Descend(t, key, mask);
    if next != Null {
      WalkKeyIsWalk(t, key, n);
      SetRefines(t, m, KeyPath(key, n), value);
      t' := SetValue(t, node, value);
      return;
    }
    MissingPath(t, m, key, d, n);
    var u, last := Extend(t, t, key, mask, node, bit, d, m);
    WalkKeyIsWalk(u, key, n);
    SetRefines(u, m, KeyPath(key, n), value);
    t' := SetValue(u, last, value);
  }

  // ---------------------------------------------------------------------------
  // selectValue

  /**
    `selectValue(key)`: walk the path of `key`, remembering the last value seen.
    The result is the value of the longest stored prefix covering `key`, or
    `NoValue` when none does.
   */
  method SelectValue(t: Tree, key: bv32, ghost m: Table) returns (value: int)
    requires Refines(t, m)
    ensures value == Best(m, key)
  {
    var bit: bv32 := 0x8000_0000;
    value := NoValue;
    var node := Root;
    ghost var d := 0;
    while node != Null
      invariant d <= 33 && bit == BitAt(d)
      invariant node == WalkKey(t, key, d)
      invariant node == Null || 0 <= node < t.size
      invariant value == BestBelow(m, key, d)
      decreases 33 - d
    {
      SelectStep(t, m, key, d);
      if t.values[node] != NoValue {
        value := t.values[node];
      }
      var right := key & bit != 0;
      ProbeBit(key, bit, d);
      NextOnKey(t, key, d, node, right);
      node := if right then t.rights[node] else t.lefts[node];
      BitAtNext(d);
      bit := bit >> 1;
      d := d + 1;
    }
    SelectEnd(t, m, key, d);
  }

  /** One step down the path of `key`: the child the probe's bit selects. */
  /** The child `selectValue` moves to is the next node on the path of `key`. */
  lemma NextOnKey(t: Tree, key: bv32, d: nat, node: int, right: bool)
    requires Shape(t) && right == Bit(key, d)
    requires node == WalkKey(t, key, d) && 0 <= node < t.size
    ensures node < |t.lefts| && node < |t.rights|
    ensures (if right then t.rights[node] else t.lefts[node]) == WalkKey(t, key, d + 1)
    ensures WalkKey(t, key, d + 1) == Null || 0 <= WalkKey(t, key, d + 1) < t.size
  {
    WalkKeyNext(t, key, d, right);
    WalkKeyRange(t, key, d + 1);
  }

  /** At a node on the path of `key`, the node's value is the table's entry for that prefix. */
  lemma SelectStep(t: Tree, m: Table, key: bv32, d: nat)
    requires Refines(t, m) && WalkKey(t, key, d) != Null
    ensures d <= 32
    ensures 0 <= WalkKey(t, key, d) < |t.values|
    ensures BestUpTo(m, key, d) == if t.values[WalkKey(t, key, d)] != NoValue then t.values[WalkKey(t, key, d)] else BestBelow(m, key, d)
  {
    DepthBound(t, key, d);
    WalkKeyIsWalk(t, key, d);
    WalkKeyRange(t, key, d);
    assert Agrees(t, m, KeyPath(key, d));
    assert EntryOk(m, KeyPath(key, d));
  }

  /** Past the end of the path of `key` nothing longer is stored. */
  lemma SelectEnd(t: Tree, m: Table, key: bv32, d: nat)
    requires Refines(t, m) && d <= 33 && WalkKey(t, key, d) == Null
    ensures BestBelow(m, key, d) == Best(m, key)
  {
    forall i | d <= i <= 32
      ensures KeyPath(key, i) !in m
    {
      WalkNullKey(t, key, d, i);
      WalkKeyIsWalk(t, key, i);
      assert Agrees(t, m, KeyPath(key, i)) && EntryOk(m, KeyPath(key, i));
    }
    BestBelowSuffices(m, key, d, 32);
  }

  /** `size()`: the number of nodes in use, never more than the capacity. */
  function Size(t: Tree): (n: int)
    requires Shape(t)
    ensures 1 <= n <= t.allocatedSize
  {
    t.size
  }
}
