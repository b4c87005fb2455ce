/**
 GiST support for boxes (contrib/cube/cube.c): a search that prunes by enclosing keys loses
 nothing, and unions keep keys enclosing.
 */
module CubeGist {
  import opened Sorting
  import opened CubeBox
  import opened CubeOrder

  // ----- consistency -----

  datatype Strategy = Overlaps | Same | ContainsQuery | ContainedBy

  /** `g_cube_leaf_consistent`. */
  ghost predicate LeafConsistent(key: Box, q: Box, strategy: Strategy)
    requires key.Valid() && q.Valid()
  {
    match strategy
    case Overlaps => Overlap(key, q)
    case Same => Cmp(key, q) == 0
    case ContainsQuery => Contains(key, q)
    case ContainedBy => Contains(q, key)
  }

  /** `g_cube_internal_consistent`. */
  ghost predicate InternalConsistent(key: Box, q: Box, strategy: Strategy)
    requires key.Valid() && q.Valid()
  {
    match strategy
    case Overlaps => Overlap(key, q)
    case Same => Contains(key, q)
    case ContainsQuery => Contains(key, q)
    case ContainedBy => Overlap(key, q)
  }

  method LeafTest(key: Box, q: Box, strategy: Strategy) returns (r: bool)
    requires key.Valid() && q.Valid()
    ensures r == LeafConsistent(key, q, strategy)
  {
    match strategy
    case Overlaps => r := OverlapV0(key, q);
    case Same => var c := CmpV0(key, q); r := c == 0;
    case ContainsQuery => r := ContainsV0(key, q);
    case ContainedBy => r := ContainsV0(q, key);
  }

  method InternalTest(key: Box, q: Box, strategy: Strategy) returns (r: bool)
    requires key.Valid() && q.Valid()
    ensures r == InternalConsistent(key, q, strategy)
  {
    match strategy
    case Overlaps => r := OverlapV0(key, q);
    case Same => r := ContainsV0(key, q);
    case ContainsQuery => r := ContainsV0(key, q);
    case ContainedBy => r := OverlapV0(key, q);
  }

  /** In the dimensions that only the query has, it reaches zero. */
  ghost predicate StraddlesZero(q: Box, from: nat)
    requires q.Valid()
  {
    forall i: nat :: from <= i < q.dim ==> ReachesZero(q, i)
  }

  predicate ReachesZero(q: Box, i: nat)
    requires q.Valid()
  {
    q.Lo(i) <= 0.0 <= q.Hi(i)
  }

  lemma OverlapGrows(key: Box, x: Box, q: Box)
    requires Encloses(key, x) && q.Valid() && Overlap(x, q)
    ensures Overlap(key, q)
  {
    forall i: nat ensures Meet(key, q, i) {
      assert Inside(x, i, key.Lo(i), key.Hi(i)) && Meet(x, q, i);
    }
  }

  lemma ContainsGrows(key: Box, x: Box, q: Box)
    requires Encloses(key, x) && q.Valid() && Contains(x, q)
    ensures Contains(key, q)
  {
    forall i: nat | i < q.dim ensures Inside(q, i, key.Lo(i), key.Hi(i)) {
      assert Inside(x, i, key.Lo(i), key.Hi(i)) && Inside(q, i, x.Lo(i), x.Hi(i));
    }
  }

  lemma SameContains(x: Box, q: Box)
    requires x.Valid() && q.Valid() && Cmp(x, q) == 0
    ensures Contains(x, q)
  {
    CmpEqual(x, q);
    forall i: nat | i < q.dim ensures Inside(q, i, x.Lo(i), x.Hi(i)) {
      assert x.Lo(i) == q.Lo(i) && x.Hi(i) == q.Hi(i);
    }
  }

  /** A contained box meets its container, unless a dimension only the container has stays off zero. */
  lemma ContainedMeets(x: Box, q: Box)
    requires x.Valid() && q.Valid() && Contains(q, x)
    ensures Overlap(x, q) <==> StraddlesZero(q, x.dim)
  {
    forall i: nat ensures i < x.dim ==> Meet(x, q, i) {
      if i < x.dim { assert Inside(x, i, q.Lo(i), q.Hi(i)); }
    }
    forall i: nat ensures i >= x.dim ==> (Meet(x, q, i) <==> ReachesZero(q, i)) {}
    forall i: nat ensures i >= q.dim ==> ReachesZero(q, i) {}
  }

  /** Pruning by a key that encloses an entry keeps every match for three of the four strategies. */
  lemma EnclosingKeyIsConsistent(key: Box, x: Box, q: Box, strategy: Strategy)
    requires Encloses(key, x) && q.Valid() && LeafConsistent(x, q, strategy)
    requires strategy != ContainedBy || StraddlesZero(q, x.dim)
    ensures InternalConsistent(key, q, strategy)
  {
    match strategy
    case Overlaps => OverlapGrows(key, x, q);
    case Same => SameContains(x, q); ContainsGrows(key, x, q);
    case ContainsQuery => ContainsGrows(key, x, q);
    case ContainedBy => ContainedMeets(x, q); OverlapGrows(key, x, q);
  }

  /** For ContainedBy that is exactly so when the query reaches zero in its excess dimensions. */
  lemma ContainedByExactly(x: Box, q: Box)
    requires x.Valid() && q.Valid() && LeafConsistent(x, q, ContainedBy)
    ensures (forall key: Box :: Encloses(key, x) ==> InternalConsistent(key, q, ContainedBy)) <==> StraddlesZero(q, x.dim)
  {
    EnclosesSelf(x);
    ContainedMeets(x, q);
    if StraddlesZero(q, x.dim) {
      forall key: Box | Encloses(key, x) ensures InternalConsistent(key, q, ContainedBy) {
        EnclosingKeyIsConsistent(key, x, q, ContainedBy);
      }
    }
    if forall key: Box :: Encloses(key, x) ==> InternalConsistent(key, q, ContainedBy) {
      assert InternalConsistent(x, q, ContainedBy);
    }
  }

  /** Within the entry's own dimensions there are no excess ones. */
  lemma ContainedByLowDimension(q: Box, dim: nat)
    requires q.Valid() && q.dim <= dim
    ensures StraddlesZero(q, dim)
  {}

  /** The one-dimensional point 1 lies in [0, 2] x [5, 6] for the leaf test, yet is pruned above. */
  lemma ContainedByMisses()
    ensures var (x, q) := (Box(1, true, [1.0]), Box(2, false, [0.0, 5.0, 2.0, 6.0]));
      LeafConsistent(x, q, ContainedBy) && !InternalConsistent(x, q, ContainedBy)
  {
    var (x, q) := (Box(1, true, [1.0]), Box(2, false, [0.0, 5.0, 2.0, 6.0]));
    assert Inside(x, 0, q.Lo(0), q.Hi(0));
    assert !Meet(x, q, 1);
  }

  // ----- g_cube_union and trees -----

  /** `key` is what repeated unions of `entries[..n]` give. */
  ghost predicate IsFold(key: Box, entries: seq<Box>, n: nat)
    requires 1 <= n <= |entries| && forall i :: 0 <= i < |entries| ==> entries[i].Valid()
    decreases n
  {
    if n == 1 then key == entries[0]
    else exists k: Box :: k.Valid() && IsFold(k, entries, n - 1) && IsUnion(key, k, entries[n - 1])
  }

  method GUnion(entries: seq<Box>) returns (out: Box)
    requires |entries| >= 2 && forall i :: 0 <= i < |entries| ==> entries[i].Valid()
    ensures out.Valid() && IsFold(out, entries, |entries|)
  {
    out := entries[0];
    for i := 1 to |entries|
      invariant out.Valid() && IsFold(out, entries, i)
    {
      var next := Union(out, entries[i], false);
      FoldStep(out, next, entries, i);
      out := next;
    }
  }

  lemma {:induction false} FoldStep(k: Box, key: Box, entries: seq<Box>, i: nat)
    requires 1 <= i < |entries| && forall j :: 0 <= j < |entries| ==> entries[j].Valid()
    requires k.Valid() && IsFold(k, entries, i) && IsUnion(key, k, entries[i])
    ensures IsFold(key, entries, i + 1)
  {}

  /** A fold encloses every entry and nothing smaller does. */
  ghost predicate IsHull(key: Box, entries: seq<Box>, members: set<nat>) {
    && key.Valid()
    && (forall m :: m in members ==> m < |entries| && Encloses(key, entries[m]))
    && (forall e: Box :: EnclosesAll(e, entries, members) ==> Encloses(e, key))
  }

  ghost predicate EnclosesAll(e: Box, entries: seq<Box>, members: set<nat>) {
    forall m :: m in members ==> m < |entries| && Encloses(e, entries[m])
  }

  lemma HullOfOne(entries: seq<Box>, m: nat, key: Box)
    requires m < |entries| && entries[m].Valid() && IsUnion(key, entries[m], entries[m])
    ensures IsHull(key, entries, {m})
  {
    UnionIsLeast(key, entries[m], entries[m]);
    forall e: Box | EnclosesAll(e, entries, {m}) ensures Encloses(e, key) { assert m in {m}; }
  }

  lemma HullGrows(key: Box, r: Box, entries: seq<Box>, members: set<nat>, m: nat)
    requires IsHull(key, entries, members) && m < |entries| && entries[m].Valid() && IsUnion(r, key, entries[m])
    ensures IsHull(r, entries, members + {m})
  {
    UnionIsLeast(r, key, entries[m]);
    forall j | j in members + {m} ensures j < |entries| && Encloses(r, entries[j]) {
      if j in members { EnclosesTransitive(r, key, entries[j]); }
    }
    forall e: Box | EnclosesAll(e, entries, members + {m}) ensures Encloses(e, r) {
      assert m in members + {m};
      assert EnclosesAll(e, entries, members);
    }
  }

  lemma {:induction false} FoldIsHull(key: Box, entries: seq<Box>, n: nat)
    requires 1 <= n <= |entries| && forall i :: 0 <= i < |entries| ==> entries[i].Valid()
    requires key.Valid() && IsFold(key, entries, n)
    ensures IsHull(key, entries, Upto(n))
    decreases n
  {
    if n == 1 {
      assert IsUnion(key, entries[0], entries[0]) by {
        forall i: nat | i < key.dim ensures SpansAt(key, entries[0], entries[0], i) {}
      }
      HullOfOne(entries, 0, key);
      assert Upto(1) == {0};
    } else {
      var k: Box :| k.Valid() && IsFold(k, entries, n - 1) && IsUnion(key, k, entries[n - 1]);
      FoldIsHull(k, entries, n - 1);
      HullGrows(k, key, entries, Upto(n - 1), n - 1);
      assert Upto(n) == Upto(n - 1) + {n - 1};
    }
  }

  // ----- trees -----

  datatype Tree = Leaf(box: Box) | Node(key: Box, children: seq<Tree>)

  function KeyOf(t: Tree): Box { if t.Leaf? then t.box else t.key }

  ghost predicate Holds(t: Tree, x: Box) {
    match t
    case Leaf(b) => b == x
    case Node(_, children) => exists i :: 0 <= i < |children| && Holds(children[i], x)
  }

  /** Every node's key encloses all boxes below; it need not be the least such box. */
  ghost predicate WellFormed(t: Tree) {
    && KeyOf(t).Valid()
    && (t.Node? ==>
      && (forall i :: 0 <= i < |t.children| ==> WellFormed(t.children[i]))
      && (forall x :: Holds(t, x) ==> Encloses(t.key, x)))
  }

  lemma {:induction false} TreeEncloses(t: Tree, x: Box)
    requires WellFormed(t) && Holds(t, x)
    ensures Encloses(KeyOf(t), x)
  {
    if t.Leaf? { EnclosesSelf(t.box); }
  }

  function KeysOf(ts: seq<Tree>): (ks: seq<Box>)
    ensures |ks| == |ts| && forall i :: 0 <= i < |ts| ==> ks[i] == KeyOf(ts[i])
  {
    seq(|ts|, i requires 0 <= i < |ts| => KeyOf(ts[i]))
  }

  /** A page gets the union of its entries as key. */
  lemma {:induction false} NewPage(key: Box, children: seq<Tree>)
    requires forall i :: 0 <= i < |children| ==> WellFormed(children[i])
    requires IsHull(key, KeysOf(children), Upto(|children|))
    ensures WellFormed(Node(key, children))
  {
    var t := Node(key, children);
    forall x | Holds(t, x) ensures Encloses(key, x) {
      var i :| 0 <= i < |children| && Holds(children[i], x);
      TreeEncloses(children[i], x);
      assert i in Upto(|children|);
      assert Encloses(key, KeysOf(children)[i]);
      EnclosesTransitive(key, KeyOf(children[i]), x);
    }
  }

  /** `r` is `t` with `x` added to the node at the end of the path; every key on the way is united with it. */
  ghost predicate IsInserted(t: Tree, x: Box, path: seq<nat>, r: Tree)
    decreases |path|
  {
    && x.Valid() && t.Node? && r.Node? && t.key.Valid() && IsUnion(r.key, t.key, x)
    && if path == [] then r.children == t.children + [Leaf(x)]
       else
         && path[0] < |t.children| == |r.children| && r.children == t.children[path[0] := r.children[path[0]]]
         && IsInserted(t.children[path[0]], x, path[1..], r.children[path[0]])
  }

  lemma {:induction false} InsertedHolds(t: Tree, x: Box, path: seq<nat>, r: Tree, y: Box)
    requires IsInserted(t, x, path, r)
    ensures Holds(r, y) <==> Holds(t, y) || y == x
    decreases |path|
  {
    if path == [] {
      assert r.children[|t.children|] == Leaf(x) && Holds(Leaf(x), x);
      assert forall i :: 0 <= i < |t.children| ==> r.children[i] == t.children[i];
    } else {
      var n := path[0];
      InsertedHolds(t.children[n], x, path[1..], r.children[n], y);
      assert forall i :: 0 <= i < |t.children| && i != n ==> r.children[i] == t.children[i];
      assert Holds(r.children[n], y) <==> Holds(t.children[n], y) || y == x;
    }
  }

  /** Inserting keeps the tree in order, wherever the box goes. */
  lemma {:induction false} InsertKeeps(t: Tree, x: Box, path: seq<nat>, r: Tree)
    requires WellFormed(t) && IsInserted(t, x, path, r)
    ensures WellFormed(r)
    decreases |path|
  {
    if path != [] { InsertKeeps(t.children[path[0]], x, path[1..], r.children[path[0]]); }
    forall i | 0 <= i < |r.children| ensures WellFormed(r.children[i]) {
      if i < |t.children| { assert WellFormed(t.children[i]); }
    }
    UnionIsLeast(r.key, t.key, x);
    forall y | Holds(r, y) ensures Encloses(r.key, y) {
      InsertedHolds(t, x, path, r, y);
      if y != x { EnclosesTransitive(r.key, t.key, y); }
    }
  }

  /** `t` is `t0` with another list of children that holds nothing new: entries deleted, or pages below split. */
  ghost predicate IsReplaced(t: Tree, t0: Tree) {
    t.Node? && t0.Node? && t.key == t0.key && forall x :: Holds(t, x) ==> Holds(t0, x)
  }

  lemma {:induction false} ReplaceKeeps(t: Tree, t0: Tree)
    requires WellFormed(t0) && IsReplaced(t, t0) && forall i :: 0 <= i < |t.children| ==> WellFormed(t.children[i])
    ensures WellFormed(t)
  {}

  /** Some path of consistent keys leads to the entry. */
  ghost predicate Finds(t: Tree, x: Box, q: Box, strategy: Strategy)
    requires WellFormed(t) && q.Valid()
    decreases t
  {
    match t
    case Leaf(b) => b == x && LeafConsistent(b, q, strategy)
    case Node(key, children) =>
      InternalConsistent(key, q, strategy) && exists i :: 0 <= i < |children| && Finds(children[i], x, q, strategy)
  }

  /** With such keys a search finds every matching box, whatever the mix of dimensions. */
  lemma {:induction false} WellFormedFinds(t: Tree, x: Box, q: Box, strategy: Strategy)
    requires WellFormed(t) && q.Valid() && x.Valid() && Holds(t, x) && LeafConsistent(x, q, strategy)
    requires strategy != ContainedBy || StraddlesZero(q, x.dim)
    ensures Finds(t, x, q, strategy)
    decreases t
  {
    if t.Node? {
      TreeEncloses(t, x);
      EnclosingKeyIsConsistent(t.key, x, q, strategy);
      var i :| 0 <= i < |t.children| && Holds(t.children[i], x);
      WellFormedFinds(t.children[i], x, q, strategy);
    }
  }
}
