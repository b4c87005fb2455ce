/**
 Index trees over boxes (contrib/cube/cube.c): trees that grow by new pages, inserts, deletes and page
 splits keep keys that enclose all below, so searches and distances are not misled.
 */
module CubeTree {
  import opened Sorting
  import opened Roots
  import opened CubeBox
  import opened CubeGist
  import opened CubeSplit
  import opened CubeDistance

  ghost predicate AllWellFormed(ts: seq<Tree>) { forall i :: 0 <= i < |ts| ==> WellFormed(ts[i]) }

  // ----- page splits -----

  /** Entries picked from a vector have the least box around their offsets. */
  lemma {:induction false} PickedHull(key: Box, entries: seq<Box>, offsets: seq<nat>)
    requires IsHull(key, entries, Elements(offsets)) && forall j :: 0 <= j < |offsets| ==> offsets[j] < |entries|
    ensures IsHull(key, Picked(entries, offsets), Upto(|offsets|))
  {
    var picked := Picked(entries, offsets);
    forall m | m in Upto(|offsets|) ensures Encloses(key, picked[m]) {
      assert offsets[m] in Elements(offsets);
    }
    forall e: Box | EnclosesAll(e, picked, Upto(|offsets|)) ensures Encloses(e, key) {
      forall m | m in Elements(offsets) ensures m < |entries| && Encloses(e, entries[m]) {
        var j :| 0 <= j < |offsets| && offsets[j] == m;
        assert j in Upto(|offsets|);
        assert Encloses(e, picked[j]);
      }
      assert EnclosesAll(e, entries, Elements(offsets));
    }
  }

  /** The offsets of a split are those of entries, from 1 on. */
  lemma SplitOffsets(entries: seq<Box>, s: Split, m: nat)
    requires IsSplit(entries, s)
    ensures m in s.left || m in s.right <==> 1 <= m < |entries|
  {
    assert m in s.left <==> m in Elements(s.left);
    assert m in s.right <==> m in Elements(s.right);
    assert m in Elements(s.left) + Elements(s.right) <==> m in Upto(|entries|) - {0};
  }

  lemma SplitInRange(entries: seq<Box>, s: Split)
    requires IsSplit(entries, s)
    ensures forall j :: 0 <= j < |s.left| ==> 1 <= s.left[j] < |entries|
    ensures forall j :: 0 <= j < |s.right| ==> 1 <= s.right[j] < |entries|
  {
    forall j | 0 <= j < |s.left| ensures 1 <= s.left[j] < |entries| { SplitOffsets(entries, s, s.left[j]); }
    forall j | 0 <= j < |s.right| ensures 1 <= s.right[j] < |entries| { SplitOffsets(entries, s, s.right[j]); }
  }

  /** The vector without slot 0, which is not used. */
  function Entries(slots: seq<Tree>): seq<Tree> { if slots == [] then [] else slots[1..] }

  /** A page of a vector's trees at some offsets. */
  ghost predicate IsPageOf(t: Tree, key: Box, slots: seq<Tree>, offsets: seq<nat>) {
    && (forall j :: 0 <= j < |offsets| ==> 1 <= offsets[j] < |slots|)
    && t == Node(key, Picked(slots, offsets))
  }

  /** `t` is one of the two pages that `g_cube_picksplit` makes of the trees in slots 1 and up. */
  ghost predicate IsHalf(t: Tree, slots: seq<Tree>, s: Split) {
    IsSplit(KeysOf(slots), s) && (IsPageOf(t, s.ldatum, slots, s.left) || IsPageOf(t, s.rdatum, slots, s.right))
  }

  lemma {:induction false} PageKeeps(t: Tree, key: Box, slots: seq<Tree>, offsets: seq<nat>)
    requires IsPageOf(t, key, slots, offsets) && IsHull(key, KeysOf(slots), Elements(offsets))
    requires forall i :: 1 <= i < |slots| ==> WellFormed(slots[i])
    ensures WellFormed(t)
  {
    hide IsHull, WellFormed;
    PickedHull(key, KeysOf(slots), offsets);
    assert KeysOf(t.children) == Picked(KeysOf(slots), offsets);
    NewPage(key, t.children);
  }

  /** Both halves of a split are pages like any other. */
  lemma {:induction false} HalfKeeps(t: Tree, slots: seq<Tree>, s: Split)
    requires IsHalf(t, slots, s) && forall i :: 1 <= i < |slots| ==> WellFormed(slots[i])
    ensures WellFormed(t)
  {
    hide IsHull, WellFormed;
    if IsPageOf(t, s.ldatum, slots, s.left) {
      PageKeeps(t, s.ldatum, slots, s.left);
    } else {
      PageKeeps(t, s.rdatum, slots, s.right);
    }
  }

  lemma {:induction false} PageHolds(t: Tree, key: Box, slots: seq<Tree>, offsets: seq<nat>, x: Box)
    requires IsPageOf(t, key, slots, offsets)
    ensures Holds(t, x) <==> exists i :: i in offsets && Holds(slots[i], x)
  {
    if Holds(t, x) {
      var j :| 0 <= j < |t.children| && Holds(t.children[j], x);
      assert offsets[j] in offsets && Holds(slots[offsets[j]], x);
    }
    if i :| i in offsets && Holds(slots[i], x) {
      var j :| 0 <= j < |offsets| && offsets[j] == i;
      assert t.children[j] == slots[i];
    }
  }

  /** The halves hold what the page held, no more and no less. */
  lemma {:induction false} SplitHolds(l: Tree, r: Tree, slots: seq<Tree>, s: Split, x: Box)
    requires IsSplit(KeysOf(slots), s) && IsPageOf(l, s.ldatum, slots, s.left) && IsPageOf(r, s.rdatum, slots, s.right)
    ensures Holds(l, x) || Holds(r, x) <==> exists i :: 1 <= i < |slots| && Holds(slots[i], x)
  {
    PageHolds(l, s.ldatum, slots, s.left, x);
    PageHolds(r, s.rdatum, slots, s.right, x);
    if i :| 1 <= i < |slots| && Holds(slots[i], x) { SplitOffsets(KeysOf(slots), s, i); }
  }

  // ----- histories -----

  ghost predicate AllValid(bs: seq<Box>) { forall i :: 0 <= i < |bs| ==> bs[i].Valid() }

  /** The key is what `g_cube_union` makes of the entries. */
  ghost predicate IsNewPage(t: Tree) {
    && t.Node? && t.children != [] && t.key.Valid() && AllValid(KeysOf(t.children))
    && IsFold(t.key, KeysOf(t.children), |t.children|)
  }

  lemma {:induction false} NewPageKeeps(t: Tree)
    requires IsNewPage(t) && AllWellFormed(t.children)
    ensures WellFormed(t)
  {
    FoldIsHull(t.key, KeysOf(t.children), |t.children|);
    NewPage(t.key, t.children);
  }

  /** `t` has grown from boxes in at most `n` steps, one on top of the other. */
  ghost predicate Grown(t: Tree, n: nat)
    decreases n, 0
  {
    if t.Leaf? || n == 0 then t.Leaf? && t.box.Valid()
    else
      || (IsNewPage(t) && AllGrown(t.children, n - 1))
      || (exists slots, s :: IsHalf(t, slots, s) && AllGrown(Entries(slots), n - 1))
      || (exists t0, x, path :: IsInserted(t0, x, path, t) && Grown(t0, n - 1))
      || (exists t0 :: IsReplaced(t, t0) && Grown(t0, n - 1) && AllGrown(t.children, n - 1))
  }

  ghost predicate AllGrown(ts: seq<Tree>, n: nat)
    decreases n, 1
  {
    forall i :: 0 <= i < |ts| ==> Grown(ts[i], n)
  }

  /** Every history leaves keys that enclose all that is below. */
  lemma {:induction false} GrownIsWellFormed(t: Tree, n: nat)
    requires Grown(t, n)
    ensures WellFormed(t)
    decreases n, 0
  {
    hide WellFormed, IsNewPage, IsHalf, IsInserted, IsReplaced;
    if t.Leaf? {
      LeafIsWellFormed(t);
    } else if IsNewPage(t) && AllGrown(t.children, n - 1) {
      AllGrownWellFormed(t.children, n - 1);
      NewPageKeeps(t);
    } else if slots, s :| IsHalf(t, slots, s) && AllGrown(Entries(slots), n - 1) {
      AllGrownWellFormed(Entries(slots), n - 1);
      forall i | 1 <= i < |slots| ensures WellFormed(slots[i]) { assert Entries(slots)[i - 1] == slots[i]; }
      HalfKeeps(t, slots, s);
    } else if t0, x, path :| IsInserted(t0, x, path, t) && Grown(t0, n - 1) {
      GrownIsWellFormed(t0, n - 1);
      InsertKeeps(t0, x, path, t);
    } else {
      var t0 :| IsReplaced(t, t0) && Grown(t0, n - 1) && AllGrown(t.children, n - 1);
      GrownIsWellFormed(t0, n - 1);
      AllGrownWellFormed(t.children, n - 1);
      ReplaceKeeps(t, t0);
    }
  }

  lemma {:induction false} LeafIsWellFormed(t: Tree)
    requires t.Leaf? && t.box.Valid()
    ensures WellFormed(t)
  {}

  lemma {:induction false} AllGrownWellFormed(ts: seq<Tree>, n: nat)
    requires AllGrown(ts, n)
    ensures AllWellFormed(ts)
    decreases n, 1
  {
    forall i | 0 <= i < |ts| ensures WellFormed(ts[i]) { GrownIsWellFormed(ts[i], n); }
  }

  /** After every history no entry is nearer than a key above it, by the three distances and by each coordinate it has. */
  lemma {:induction false} NoEntryIsNearer(root: real -> real, t: Tree, n: nat, x: Box, q: Box, coord: nat)
    requires Grown(t, n) && Holds(t, x) && q.Valid() && IsRoot(root)
    ensures x.Valid() && KeyOf(t).Valid()
    ensures Taxicab(KeyOf(t), q, Dims(KeyOf(t), q)) <= Taxicab(x, q, Dims(x, q))
    ensures Euclid(root, KeyOf(t), q) <= Euclid(root, x, q)
    ensures Chebyshev(KeyOf(t), q, Dims(KeyOf(t), q)) <= Chebyshev(x, q, Dims(x, q))
    ensures 1 <= coord <= x.dim ==> CoordDistance(KeyOf(t), coord) <= CoordDistance(x, coord)
  {
    GrownIsWellFormed(t, n);
    TreeIsNoFarther(t, x, q);
  }
}
