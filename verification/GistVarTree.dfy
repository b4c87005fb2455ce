/**
 Index trees over variable-length keys (contrib/btree_gist/btree_utils_var.c): trees that grow by
 new pages, inserts, deletes and page splits keep keys that no search is misled by, as long as no
 split of an internal page cuts a key that is outgrown.
 */
module GistVarTree {
  import opened Sorting
  import opened GistVarKey
  import opened GistVarSplit

  datatype Tree = Leaf(value: Bytes) | Node(key: Key, children: seq<Tree>)

  function KeyOf(t: Tree): Key { if t.Leaf? then Key(t.value, t.value) else t.key }

  ghost predicate Holds(t: Tree, v: Bytes) {
    match t
    case Leaf(w) => w == v
    case Node(_, children) => exists i :: 0 <= i < |children| && Holds(children[i], v)
  }

  function KeysOf(ts: seq<Tree>): (ks: seq<Key>)
    ensures |ks| == |ts| && forall i :: 0 <= i < |ts| ==> ks[i] == KeyOf(ts[i])
  {
    seq(|ts|, i requires 0 <= i < |ts| => KeyOf(ts[i]))
  }

  // ----- the invariant -----

  /** Every value below a node passes its key, which need not be the tightest such key. */
  ghost predicate WellFormed(t: Tree) {
    t.Node? ==> Ordered(t.key) && AllWellFormed(t.children) && PassesAll(t.key, t.children)
  }

  ghost predicate AllWellFormed(ts: seq<Tree>) { forall i :: 0 <= i < |ts| ==> WellFormed(ts[i]) }

  ghost predicate PassesAll(key: Key, children: seq<Tree>) {
    forall i, v :: 0 <= i < |children| && Holds(children[i], v) ==> Passes(key, v)
  }

  lemma {:induction false} KeyPasses(t: Tree, v: Bytes)
    requires WellFormed(t) && Holds(t, v)
    ensures Passes(KeyOf(t), v)
  {
    if t.Leaf? { LeafPasses(t.value); }
  }

  lemma {:induction false} KeysOrdered(ts: seq<Tree>)
    requires AllWellFormed(ts)
    ensures AllOrdered(KeysOf(ts))
  {
    forall i | 0 <= i < |ts| ensures Ordered(KeysOf(ts)[i]) {
      if ts[i].Leaf? { LeafPasses(ts[i].value); }
    }
  }

  // ----- new pages and page splits -----

  /** The bounds of the entries, cut at `n` bytes, as key of a page. */
  lemma {:induction false} CutPage(children: seq<Tree>, n: nat)
    requires children != [] && AllWellFormed(children) && n >= UnionCut(Bounds(KeysOf(children)))
    requires !Outgrown(KeysOf(children), Truncate(Bounds(KeysOf(children)), n - 1))
    ensures WellFormed(Node(Truncate(Bounds(KeysOf(children)), n - 1), children))
  {
    hide Passes, Outgrown, Bounds, Truncate;
    var keys := KeysOf(children);
    KeysOrdered(children);
    CutOrdered(keys, n);
    forall i, v | 0 <= i < |children| && Holds(children[i], v) ensures Passes(Truncate(Bounds(keys), n - 1), v) {
      KeyPasses(children[i], v);
      NotOutgrownPasses(keys, n, i, v);
    }
  }

  /** A page gets the union of its entries as key. */
  lemma {:induction false} NewPage(children: seq<Tree>)
    requires children != [] && AllWellFormed(children)
    ensures WellFormed(Node(Union(KeysOf(children)), children))
  {
    CutPage(children, UnionCut(Bounds(KeysOf(children))));
  }

  /** `t` is one of the two pages that `gbt_var_picksplit` makes of the trees. */
  ghost predicate IsHalf(t: Tree, trees: seq<Tree>, h: Halves) {
    IsSplit(KeysOf(trees), h) && (t == Node(h.lkey, Picked(trees, h.left)) || t == Node(h.rkey, Picked(trees, h.right)))
  }

  /** The halves hold what the page held, no more and no less. */
  lemma {:induction false} SplitHolds(trees: seq<Tree>, h: Halves, v: Bytes)
    requires IsSplit(KeysOf(trees), h)
    ensures Holds(Node(h.lkey, Picked(trees, h.left)), v) || Holds(Node(h.rkey, Picked(trees, h.right)), v)
      <==> exists i :: 0 <= i < |trees| && Holds(trees[i], v)
  {
    hide InSplitOrder, SplitKey;
    var (l, r, all) := (Picked(trees, h.left), Picked(trees, h.right), h.left + h.right);
    if i :| 0 <= i < |trees| && Holds(trees[i], v) {
      assert i in Elements(all);
      var j :| 0 <= j < |all| && all[j] == i;
      if j < |h.left| { assert l[j] == trees[i]; } else { assert r[j - |h.left|] == trees[i]; }
    }
    if i :| 0 <= i < |l| && Holds(l[i], v) { assert l[i] == trees[h.left[i]]; }
    if i :| 0 <= i < |r| && Holds(r[i], v) { assert r[i] == trees[h.right[i]]; }
  }

  /** The key of a half is its bounds, cut no shorter than a union would. */
  lemma HalfKey(t: Tree, trees: seq<Tree>, h: Halves) returns (n: nat)
    requires IsHalf(t, trees, h)
    ensures t.Node? && t.children != [] && n >= UnionCut(Bounds(KeysOf(t.children)))
    ensures t.key == Truncate(Bounds(KeysOf(t.children)), n - 1)
    ensures forall i :: 0 <= i < |t.children| ==> t.children[i] in trees
  {
    hide InSplitOrder, IsPermutation, Bounds, CommonPrefix;
    var (l, r) := (Picked(KeysOf(trees), h.left), Picked(KeysOf(trees), h.right));
    assert KeysOf(Picked(trees, h.left)) == l && KeysOf(Picked(trees, h.right)) == r;
    n := SplitCut(l, r) + 1;
  }

  ghost predicate IsSafeHalf(t: Tree, trees: seq<Tree>, h: Halves) {
    IsHalf(t, trees, h) && t.children != [] && !Outgrown(KeysOf(t.children), t.key)
  }

  /** A half whose key is not outgrown is a page like any other. */
  lemma {:induction false} HalfKeeps(t: Tree, trees: seq<Tree>, h: Halves)
    requires AllWellFormed(trees) && IsSafeHalf(t, trees, h)
    ensures WellFormed(t)
  {
    var n := HalfKey(t, trees, h);
    CutPage(t.children, n);
  }

  /** Which is the case for all leaf pages. */
  lemma LeafHalf(t: Tree)
    requires t.Node? && t.children != [] && forall i :: 0 <= i < |t.children| ==> t.children[i].Leaf?
    ensures !Outgrown(KeysOf(t.children), t.key)
  {
    LeavesNeverOutgrow(KeysOf(t.children), t.key);
  }

  /** Whatever is below the entries of an internal page passes its key. */
  ghost predicate KeepsAll(entries: seq<Key>, c: Key) {
    forall children :: AllWellFormed(children) && KeysOf(children) == entries ==> WellFormed(Node(c, children))
  }

  /** A tree with the given key that holds `v`, or nothing. */
  function Filled(k: Key, vs: seq<Bytes>): Tree { Node(k, seq(|vs|, i requires 0 <= i < |vs| => Leaf(vs[i]))) }

  lemma FilledIsWellFormed(k: Key, vs: seq<Bytes>)
    requires Ordered(k) && forall i :: 0 <= i < |vs| ==> Passes(k, vs[i])
    ensures WellFormed(Filled(k, vs))
  {
    var t := Filled(k, vs);
    assert forall i :: 0 <= i < |vs| ==> t.children[i] == Leaf(vs[i]);
  }

  /** A page of subtrees cut at `n` bytes keeps all that may be below exactly when its key is not outgrown. */
  lemma {:induction false} CutKeepsExactly(entries: seq<Key>, n: nat)
    requires entries != [] && AllOrdered(entries) && n >= UnionCut(Bounds(entries))
    ensures KeepsAll(entries, Truncate(Bounds(entries), n - 1)) <==> !Outgrown(entries, Truncate(Bounds(entries), n - 1))
  {
    var c := Truncate(Bounds(entries), n - 1);
    if Outgrown(entries, c) {
      OutgrownLoses(entries, n);
    } else {
      forall children | AllWellFormed(children) && KeysOf(children) == entries ensures WellFormed(Node(c, children)) {
        CutPage(children, n);
      }
    }
  }

  lemma {:induction false} OutgrownLoses(entries: seq<Key>, n: nat)
    requires entries != [] && AllOrdered(entries) && n >= UnionCut(Bounds(entries))
    requires Outgrown(entries, Truncate(Bounds(entries), n - 1))
    ensures !KeepsAll(entries, Truncate(Bounds(entries), n - 1))
  {
    hide Outgrown, Passes, Consistent;
    var c := Truncate(Bounds(entries), n - 1);
    var i, v := OutgrownMisses(entries, n);
    var children := seq(|entries|, j requires 0 <= j < |entries| => Filled(entries[j], if j == i then [v] else []));
    forall j | 0 <= j < |children| ensures WellFormed(children[j]) {
      FilledIsWellFormed(entries[j], if j == i then [v] else []);
    }
    assert KeysOf(children) == entries;
    assert Holds(children[i], v) by { assert children[i].children[0] == Leaf(v); }
    ValueMatchesItself(v);
    if WellFormed(Node(c, children)) {
      KeyPasses(Node(c, children), v);
      PassedIsFound(c, v, v, Equal);
      assert false;
    }
  }

  lemma ValueMatchesItself(v: Bytes)
    ensures Satisfies(v, v, Equal)
  {}

  // ----- inserting and deleting -----

  /** `path` leads from `t` to an internal node. */
  predicate IsPathIn(t: Tree, path: seq<nat>)
    decreases |path|
  {
    t.Node? && (path == [] || (path[0] < |t.children| && IsPathIn(t.children[path[0]], path[1..])))
  }

  /** `v` added to the node at the end of the path; every key on the way is united with it. */
  function Inserted(t: Tree, v: Bytes, path: seq<nat>): Tree
    requires IsPathIn(t, path)
    decreases |path|
  {
    var key := Union([t.key, Key(v, v)]);
    if path == [] then Node(key, t.children + [Leaf(v)])
    else Node(key, t.children[path[0] := Inserted(t.children[path[0]], v, path[1..])])
  }

  lemma {:induction false} InsertedHolds(t: Tree, v: Bytes, path: seq<nat>, w: Bytes)
    requires IsPathIn(t, path)
    ensures Holds(Inserted(t, v, path), w) <==> Holds(t, w) || w == v
    decreases |path|
  {
    var r := Inserted(t, v, path);
    if path == [] {
      assert r.children[|t.children|] == Leaf(v) && Holds(Leaf(v), v);
      assert forall i :: 0 <= i < |t.children| ==> r.children[i] == t.children[i];
    } else {
      var n := path[0];
      InsertedHolds(t.children[n], v, path[1..], w);
      assert forall i :: 0 <= i < |t.children| && i != n ==> r.children[i] == t.children[i];
      assert Holds(r.children[n], w) <==> Holds(t.children[n], w) || w == v;
    }
  }

  /** A value passes a key united with it, and so does whatever passed before. */
  lemma WidenedPasses(key: Key, v: Bytes, w: Bytes)
    requires Ordered(key) && (Passes(key, w) || w == v)
    ensures Passes(Union([key, Key(v, v)]), w)
  {
    LeafPasses(v);
    var keys := [key, Key(v, v)];
    assert Ordered(keys[0]) && Ordered(keys[1]);
    UnionPasses(keys, if w == v then 1 else 0, w);
  }

  lemma WidenedOrdered(key: Key, v: Bytes)
    requires Ordered(key)
    ensures Ordered(Union([key, Key(v, v)]))
  {
    LeafPasses(v);
    var keys := [key, Key(v, v)];
    assert Ordered(keys[0]) && Ordered(keys[1]);
    CutOrdered(keys, UnionCut(Bounds(keys)));
  }

  /** Inserting keeps the tree in order, wherever the value goes. */
  lemma {:induction false} InsertKeeps(t: Tree, v: Bytes, path: seq<nat>)
    requires WellFormed(t) && IsPathIn(t, path)
    ensures WellFormed(Inserted(t, v, path))
    decreases |path|
  {
    hide Passes, Union;
    var r := Inserted(t, v, path);
    if path != [] { InsertKeeps(t.children[path[0]], v, path[1..]); }
    forall i | 0 <= i < |r.children| ensures WellFormed(r.children[i]) {
      if i < |t.children| { assert WellFormed(t.children[i]); }
    }
    forall i, w | 0 <= i < |r.children| && Holds(r.children[i], w) ensures Passes(r.key, w) {
      assert Holds(r, w);
      InsertedHolds(t, v, path, w);
      if Holds(t, w) { KeyPasses(t, w); }
      WidenedPasses(t.key, v, w);
    }
    WidenedOrdered(t.key, v);
  }

  /** `t` is `t0` with another list of children that holds nothing new: entries deleted, or pages below split. */
  ghost predicate IsReplaced(t: Tree, t0: Tree) {
    t.Node? && t0.Node? && t.key == t0.key && forall v :: Holds(t, v) ==> Holds(t0, v)
  }

  lemma {:induction false} ReplaceKeeps(t: Tree, t0: Tree)
    requires WellFormed(t0) && IsReplaced(t, t0) && AllWellFormed(t.children)
    ensures WellFormed(t)
  {
    forall i, v | 0 <= i < |t.children| && Holds(t.children[i], v) ensures Passes(t.key, v) {
      assert Holds(t, v);
      KeyPasses(t0, v);
    }
  }

  // ----- histories -----

  ghost predicate IsInsert(t: Tree, t0: Tree, v: Bytes, path: seq<nat>) { IsPathIn(t0, path) && t == Inserted(t0, v, path) }

  ghost predicate IsNewPage(t: Tree) { t.Node? && t.children != [] && t.key == Union(KeysOf(t.children)) }

  lemma {:induction false} LeafIsWellFormed(t: Tree)
    requires t.Leaf?
    ensures WellFormed(t)
  {}

  lemma {:induction false} PageKeeps(t: Tree)
    requires IsNewPage(t) && AllWellFormed(t.children)
    ensures WellFormed(t)
  {
    NewPage(t.children);
  }

  lemma {:induction false} GrowthKeeps(t: Tree, t0: Tree, v: Bytes, path: seq<nat>)
    requires IsInsert(t, t0, v, path) && WellFormed(t0)
    ensures WellFormed(t)
  {
    InsertKeeps(t0, v, path);
  }

  /** `t` has grown from values in at most `n` steps, one on top of the other. */
  ghost predicate Grown(t: Tree, n: nat)
    decreases n, 0
  {
    if t.Leaf? || n == 0 then t.Leaf?
    else
      || (IsNewPage(t) && AllGrown(t.children, n - 1))
      || (exists trees, h :: IsSafeHalf(t, trees, h) && AllGrown(trees, n - 1))
      || (exists t0, v, path :: IsInsert(t, t0, v, path) && Grown(t0, n - 1))
      || (exists t0 :: IsReplaced(t, t0) && Grown(t0, n - 1) && AllGrown(t.children, n - 1))
  }

  ghost predicate AllGrown(ts: seq<Tree>, n: nat)
    decreases n, 1
  {
    forall i :: 0 <= i < |ts| ==> Grown(ts[i], n)
  }

  /** Every history leaves keys that all values below pass. */
  lemma {:induction false} GrownIsWellFormed(t: Tree, n: nat)
    requires Grown(t, n)
    ensures WellFormed(t)
    decreases n, 0
  {
    hide WellFormed, AllWellFormed, IsNewPage, IsSafeHalf, IsInsert, IsReplaced;
    if t.Leaf? {
      LeafIsWellFormed(t);
    } else if IsNewPage(t) && AllGrown(t.children, n - 1) {
      AllGrownWellFormed(t.children, n - 1);
      PageKeeps(t);
    } else if trees, h :| IsSafeHalf(t, trees, h) && AllGrown(trees, n - 1) {
      AllGrownWellFormed(trees, n - 1);
      HalfKeeps(t, trees, h);
    } else if t0, v, path :| IsInsert(t, t0, v, path) && Grown(t0, n - 1) {
      GrownIsWellFormed(t0, n - 1);
      GrowthKeeps(t, t0, v, path);
    } else {
      var t0 :| IsReplaced(t, t0) && Grown(t0, n - 1) && AllGrown(t.children, n - 1);
      GrownIsWellFormed(t0, n - 1);
      AllGrownWellFormed(t.children, n - 1);
      ReplaceKeeps(t, t0);
    }
  }

  lemma {:induction false} AllGrownWellFormed(ts: seq<Tree>, n: nat)
    requires AllGrown(ts, n)
    ensures AllWellFormed(ts)
    decreases n, 1
  {
    forall i | 0 <= i < |ts| ensures WellFormed(ts[i]) { GrownIsWellFormed(ts[i], n); }
  }

  // ----- searching -----

  /** The answer of a search that prunes every subtree whose key is not consistent. */
  ghost predicate Finds(t: Tree, v: Bytes, q: Bytes, strategy: Strategy) {
    match t
    case Leaf(w) => w == v && Consistent(Key(w, w), q, strategy, true)
    case Node(_, children) =>
      exists i :: 0 <= i < |children| && Consistent(KeyOf(children[i]), q, strategy, children[i].Leaf?) && Finds(children[i], v, q, strategy)
  }

  lemma {:induction false} WellFormedFinds(t: Tree, v: Bytes, q: Bytes, strategy: Strategy)
    requires WellFormed(t) && Holds(t, v) && Satisfies(v, q, strategy)
    ensures Finds(t, v, q, strategy)
    ensures t.Node? ==> Consistent(KeyOf(t), q, strategy, false)
    decreases t
  {
    if t.Node? {
      KeyPasses(t, v);
      PassedIsFound(t.key, v, q, strategy);
      var i :| 0 <= i < |t.children| && Holds(t.children[i], v);
      WellFormedFinds(t.children[i], v, q, strategy);
      assert Consistent(KeyOf(t.children[i]), q, strategy, t.children[i].Leaf?);
    }
  }

  /** In any tree at all, what a search finds is there and satisfies the operator. */
  lemma {:induction false} FoundIsExact(t: Tree, v: Bytes, q: Bytes, strategy: Strategy)
    requires Finds(t, v, q, strategy)
    ensures Holds(t, v) && Satisfies(v, q, strategy)
    decreases t
  {
    if t.Leaf? {
      LeafIsExact(v, q, strategy);
    } else {
      var i :| 0 <= i < |t.children| && Finds(t.children[i], v, q, strategy);
      FoundIsExact(t.children[i], v, q, strategy);
    }
  }

  /** After every history a search finds exactly the values that satisfy its operator, for all six. */
  lemma {:induction false} SearchFindsExactly(t: Tree, n: nat, v: Bytes, q: Bytes, strategy: Strategy)
    requires Grown(t, n)
    ensures Finds(t, v, q, strategy) <==> Holds(t, v) && Satisfies(v, q, strategy)
  {
    if Finds(t, v, q, strategy) { FoundIsExact(t, v, q, strategy); }
    if Holds(t, v) && Satisfies(v, q, strategy) {
      GrownIsWellFormed(t, n);
      WellFormedFinds(t, v, q, strategy);
    }
  }

  // ----- a split that loses a value -----

  /** A page with two values. */
  function Two(key: Key, a: Bytes, b: Bytes): Tree { Node(key, [Leaf(a), Leaf(b)]) }

  function FourTrees(): seq<Tree> {
    [Two(Key(AAC, ABC), AAC, ABCZ), Two(Key(ABCA, ABCD), ABCA, ABCD), Two(Key(BBBA, BBBC), BBBA, BBBC), Two(Key(BBBD, BBBF), BBBD, BBBF)]
  }

  lemma TwoIsNew(key: Key, a: Bytes, b: Bytes)
    requires Union([Key(a, a), Key(b, b)]) == key
    ensures Grown(Two(key, a, b), 1)
  {
    var t := Two(key, a, b);
    assert KeysOf(t.children) == [Key(a, a), Key(b, b)];
    assert IsNewPage(t) && AllGrown(t.children, 0);
  }

  /** Two values that differ in their last byte are kept whole. */
  lemma UnionOfTwo(a: Bytes, b: Bytes)
    requires |a| == |b| == 4 && a[..3] == b[..3] && a[3] < b[3]
    ensures Union([Key(a, a), Key(b, b)]) == Key(a, b)
  {
    Differ(a, b, 3);
    BoundsOfTwo(Key(a, a), Key(b, b));
    PrefixIs(a, b, 3);
  }

  lemma FourAreGrown()
    ensures AllGrown(FourTrees(), 1) && KeysOf(FourTrees()) == FourPages()
  {
    hide Union, Grown;
    FirstPage();
    TwoIsNew(Key(AAC, ABC), AAC, ABCZ);
    UnionOfTwo(ABCA, ABCD);
    TwoIsNew(Key(ABCA, ABCD), ABCA, ABCD);
    UnionOfTwo(BBBA, BBBC);
    TwoIsNew(Key(BBBA, BBBC), BBBA, BBBC);
    UnionOfTwo(BBBD, BBBF);
    TwoIsNew(Key(BBBD, BBBF), BBBD, BBBF);
  }

  lemma HalvesOfFour(trees: seq<Tree>, h: Halves)
    requires |trees| == 4 && h.left == [0, 1] && h.right == [2, 3] && IsSplit(KeysOf(trees), h)
    ensures IsHalf(Node(h.lkey, [trees[0], trees[1]]), trees, h) && IsHalf(Node(h.rkey, [trees[2], trees[3]]), trees, h)
  {
    hide InSplitOrder, SplitKey, IsPermutation;
    assert Picked(trees, h.left) == [trees[0], trees[1]] && Picked(trees, h.right) == [trees[2], trees[3]];
  }

  /** A search enters neither of two pages whose keys are not consistent. */
  lemma {:induction false} NeitherEntered(key: Key, l: Tree, r: Tree, v: Bytes, q: Bytes, strategy: Strategy)
    requires l.Node? && r.Node? && !Consistent(l.key, q, strategy, false) && !Consistent(r.key, q, strategy, false)
    ensures !Finds(Node(key, [l, r]), v, q, strategy)
  {}

  lemma {:induction false} HoldsBelow(key: Key, l: Tree, r: Tree, i: nat, j: nat)
    requires l.Node? && i < |l.children| && l.children[i].Node? && j < |l.children[i].children| && l.children[i].children[j].Leaf?
    ensures Holds(Node(key, [l, r]), l.children[i].children[j].value)
  {
    var v := l.children[i].children[j].value;
    assert Holds(l.children[i].children[j], v);
    assert Holds(l.children[i], v);
    assert Holds(l, v);
    assert Node(key, [l, r]).children[0] == l;
  }

  /** The page over both halves of a split of four pages that have grown holds "abcz", and no search for it finds it. */
  lemma SplitLosesValue(key: Key)
    ensures var (trees, h) := (FourTrees(), FourSplit());
      var (l, r) := (Node(h.lkey, [trees[0], trees[1]]), Node(h.rkey, [trees[2], trees[3]]));
      && AllGrown(trees, 1) && IsHalf(l, trees, h) && IsHalf(r, trees, h)
      && Holds(Node(key, [l, r]), ABCZ) && !Finds(Node(key, [l, r]), ABCZ, ABCZ, Equal)
  {
    hide AllGrown, IsSplit, IsHalf, Holds, Finds;
    var (trees, h) := (FourTrees(), FourSplit());
    var (l, r) := (Node(h.lkey, [trees[0], trees[1]]), Node(h.rkey, [trees[2], trees[3]]));
    FourAreGrown();
    FourIsSplit();
    HalvesOfFour(trees, h);
    HoldsBelow(key, l, r, 0, 1);
    InternalSplitMisses();
    Differ(ABCZ, BBBA, 0);
    NeitherEntered(key, l, r, ABCZ, ABCZ, Equal);
  }
}
