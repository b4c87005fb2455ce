/**
 What the feature subspace tells apart (contrib/aqo/hash.c).  `FssForgetsOrder` and its like say
 which inputs get the same subspace; here is which do not: with list hashes that do not collide, the
 hash determines the relations, the kept clause hashes and the classes of the arguments.
 */
module AqoSeparates {
  import opened Sorting
  import opened AqoClauses
  import opened AqoEclasses
  import opened AqoFeatures
  import opened AqoFss
  import opened AqoConstants
  import opened AqoArgOrder

  type Clause = (Node, real)

  // ----- the kept clauses, counted -----

  /** A clause of hash `h` with constants, or without. */
  ghost function Grouped(env: Env, cs: set<Node>, h: int, hasConst: bool): Clause -> bool {
    (c: Clause) => ClauseHash(env, cs, c.0) == h && ClauseHasConsts(c.0) == hasConst
  }

  /** The same, with feature `f`. */
  ghost function Featured(env: Env, cs: set<Node>, h: int, hasConst: bool, f: real): Clause -> bool {
    (c: Clause) => ClauseHash(env, cs, c.0) == h && ClauseHasConsts(c.0) == hasConst && Feature(env, c.1) == f
  }

  /** Of the clauses with one hash all with constants are kept, and one without if it is the only one. */
  ghost function KeptCount(env: Env, ps: seq<Clause>, h: int): nat {
    var cs := ClauseSet(ps);
    Count(ps, Grouped(env, cs, h, true)) + if Count(ps, Grouped(env, cs, h, false)) == 1 then 1 else 0
  }

  ghost function KeptFeatures(env: Env, ps: seq<Clause>, h: int, f: real): nat {
    var cs := ClauseSet(ps);
    Count(ps, Featured(env, cs, h, true, f))
      + if Count(ps, Grouped(env, cs, h, false)) == 1 then Count(ps, Featured(env, cs, h, false, f)) else 0
  }

  ghost function InGroup(h: int, hasConst: bool): Item -> bool { (x: Item) => x.hash == h && x.hasConst == hasConst }

  ghost function InFeature(h: int, hasConst: bool, f: real): Item -> bool {
    (x: Item) => x.hash == h && x.hasConst == hasConst && x.feature == f
  }

  ghost function KeptIs(items: seq<Item>, h: int, f: real): Item -> bool {
    (x: Item) => KeptPair(items)(x) == Some((h, f))
  }

  lemma {:induction false} NonConstCount(items: seq<Item>, h: int)
    ensures NonConsts(items, h) == Count(items, InGroup(h, false))
  {
    SelectMapSize(items, NonConstOf(h), InGroup(h, false));
  }

  lemma {:induction false} GroupCount(env: Env, cs: set<Node>, ps: seq<Clause>, h: int, hasConst: bool)
    ensures Count(SelectMap(ps, ToItem(env, cs)), InGroup(h, hasConst)) == Count(ps, Grouped(env, cs, h, hasConst))
  {
    hide ClauseHash;
    CountMap(ps, ToItem(env, cs), Grouped(env, cs, h, hasConst), InGroup(h, hasConst));
  }

  lemma {:induction false} FeatureCount(env: Env, cs: set<Node>, ps: seq<Clause>, h: int, hasConst: bool, f: real)
    ensures Count(SelectMap(ps, ToItem(env, cs)), InFeature(h, hasConst, f)) == Count(ps, Featured(env, cs, h, hasConst, f))
  {
    hide ClauseHash;
    CountMap(ps, ToItem(env, cs), Featured(env, cs, h, hasConst, f), InFeature(h, hasConst, f));
  }

  lemma {:induction false} KeptPairCount(items: seq<Item>, h: int, f: real)
    ensures multiset(Canonical(items))[(h, f)]
      == Count(items, InFeature(h, true, f)) + if Count(items, InGroup(h, false)) == 1 then Count(items, InFeature(h, false, f)) else 0
  {
    hide NonConsts;
    SelectMapCount(items, KeptPair(items), (h, f), KeptIs(items, h, f));
    NonConstCount(items, h);
    if NonConsts(items, h) == 1 {
      CountSum(items, KeptIs(items, h, f), InFeature(h, true, f), InFeature(h, false, f));
    } else {
      CountSame(items, KeptIs(items, h, f), InFeature(h, true, f));
    }
  }

  /** The features and the kept hashes, by what they are: each pair as often as it is kept, in order. */
  lemma {:induction false} KeptExactly(env: Env, ps: seq<Clause>, h: int, f: real)
    ensures var kept := Canonical(SelectMap(ps, ToItem(env, ClauseSet(ps))));
      SortedBy(kept, PairLe) && multiset(kept)[(h, f)] == KeptFeatures(env, ps, h, f)
  {
    hide Canonical, ToItem;
    var cs := ClauseSet(ps);
    var items := SelectMap(ps, ToItem(env, cs));
    KeptPairCount(items, h, f);
    GroupCount(env, cs, ps, h, false);
    FeatureCount(env, cs, ps, h, true, f);
    FeatureCount(env, cs, ps, h, false, f);
    CanonicalSorted(items);
  }

  lemma CanonicalSorted(items: seq<Item>)
    ensures SortedBy(Canonical(items), PairLe)
  {}

  /**
   The features are determined by the clauses alone: they are the features of the kept clauses, by
   ascending clause hash and for each hash in ascending order.
   */
  lemma FeaturesExactly(env: Env, ps: seq<Clause>, relids: seq<int>, kept: seq<(int, real)>)
    requires SortedBy(kept, PairLe) && forall h, f :: multiset(kept)[(h, f)] == KeptFeatures(env, ps, h, f)
    ensures FssOf(env, ps, relids).features == Seconds(kept)
  {
    hide Canonical, KeptFeatures, ToItem;
    var items := SelectMap(ps, ToItem(env, ClauseSet(ps)));
    forall p: (int, real) ensures multiset(kept)[p] == multiset(Canonical(items))[p] {
      KeptExactly(env, ps, p.0, p.1);
    }
    PairLeIsTotal();
    CanonicalSorted(items);
    SortedUnique(kept, Canonical(items), PairLe);
  }

  // ----- the kept hashes -----

  ghost function FirstOf(): ((int, real)) -> Option<int> { (p: (int, real)) => Some(p.0) }

  lemma {:induction false} FirstsSelect(s: seq<(int, real)>)
    ensures SelectMap(s, FirstOf()) == Firsts(s)
  {
    SelectMapTotal(s, FirstOf());
  }

  ghost function KeptOf(items: seq<Item>, h: int): Item -> bool {
    (x: Item) => x.hash == h && (x.hasConst || NonConsts(items, h) == 1)
  }

  ghost function FirstIs(h: int): ((int, real)) -> bool { (p: (int, real)) => p.0 == h }

  lemma {:induction false} SelectedCount(items: seq<Item>, part: seq<Item>, h: int)
    ensures Count(SelectMap(part, KeptPair(items)), FirstIs(h)) == Count(part, KeptOf(items, h))
  {
    hide NonConsts;
    if part != [] {
      var front := part[..|part| - 1];
      SelectedCount(items, front, h);
      var (r, r0) := (SelectMap(part, KeptPair(items)), SelectMap(front, KeptPair(items)));
      if r != r0 { assert r[..|r| - 1] == r0; }
    }
  }

  lemma {:induction false} KeptHashCount(items: seq<Item>, h: int)
    ensures multiset(Firsts(Canonical(items)))[h]
      == Count(items, InGroup(h, true)) + if Count(items, InGroup(h, false)) == 1 then 1 else 0
  {
    hide NonConsts;
    var raw := SelectMap(items, KeptPair(items));
    SelectMapPermutes(Canonical(items), raw, FirstOf());
    FirstsSelect(Canonical(items));
    SelectMapCount(raw, FirstOf(), h, FirstIs(h));
    SelectedCount(items, items, h);
    NonConstCount(items, h);
    if NonConsts(items, h) == 1 {
      CountSum(items, KeptOf(items, h), InGroup(h, true), InGroup(h, false));
    } else {
      CountSame(items, KeptOf(items, h), InGroup(h, true));
    }
  }

  ghost function KeptHashes(env: Env, ps: seq<Clause>): seq<int> {
    Firsts(Canonical(SelectMap(ps, ToItem(env, ClauseSet(ps)))))
  }

  lemma KeptHashesCount(env: Env, ps: seq<Clause>, h: int)
    ensures multiset(KeptHashes(env, ps))[h] == KeptCount(env, ps, h)
  {
    hide Canonical, ToItem, Firsts;
    var cs := ClauseSet(ps);
    KeptHashCount(SelectMap(ps, ToItem(env, cs)), h);
    GroupCount(env, cs, ps, h, true);
    GroupCount(env, cs, ps, h, false);
  }

  lemma KeptHashesSorted(env: Env, ps: seq<Clause>)
    ensures SortedBy(KeptHashes(env, ps), IntLe)
  {
    var kept := Canonical(SelectMap(ps, ToItem(env, ClauseSet(ps))));
    CanonicalSorted(SelectMap(ps, ToItem(env, ClauseSet(ps))));
    assert forall i, j :: 0 <= i < j < |kept| ==> PairLe(kept[i], kept[j]);
  }

  /** The lists of kept hashes agree exactly when every hash is kept as often. */
  lemma KeptHashesAgree(env: Env, ps: seq<Clause>, qs: seq<Clause>)
    ensures KeptHashes(env, ps) == KeptHashes(env, qs) <==> forall h :: KeptCount(env, ps, h) == KeptCount(env, qs, h)
  {
    hide KeptHashes, KeptCount;
    var (a, b) := (KeptHashes(env, ps), KeptHashes(env, qs));
    forall h ensures multiset(a)[h] == KeptCount(env, ps, h) && multiset(b)[h] == KeptCount(env, qs, h) {
      KeptHashesCount(env, ps, h);
      KeptHashesCount(env, qs, h);
    }
    if forall h :: KeptCount(env, ps, h) == KeptCount(env, qs, h) {
      forall h ensures multiset(a)[h] == multiset(b)[h] { assert KeptCount(env, ps, h) == KeptCount(env, qs, h); }
      KeptHashesSorted(env, ps);
      KeptHashesSorted(env, qs);
      IntLeIsTotal();
      SortedUnique(a, b, IntLe);
    }
  }

  // ----- the classes -----

  ghost predicate Injective(env: Env) { forall s, t :: env.intsHash(s) == env.intsHash(t) ==> s == t }

  lemma ClassHashesAt(env: Env, cs: set<Node>, i: nat)
    ensures |EclassHashes(env, cs)| == |Ascending(ArgSet(env, cs))|
    ensures i < |Ascending(ArgSet(env, cs))| ==> EclassHashes(env, cs)[i] == EclassHash(env, cs, Ascending(ArgSet(env, cs))[i])
  {
    hide ArgSet, EclassHash;
    var args := Ascending(ArgSet(env, cs));
    if args != [] { ClassHashAt(env, cs, args, if i < |args| then i else 0); }
  }

  lemma SameHashSameClass(env: Env, cs: set<Node>, ds: set<Node>, x: int, y: int)
    requires Injective(env) && EclassHash(env, cs, x) == EclassHash(env, ds, y)
    ensures Class(env, cs, x) == Class(env, ds, y)
  {
    hide Class;
    assert Ascending(Class(env, cs, x)) == Ascending(Class(env, ds, y));
    assert Elements(Ascending(Class(env, cs, x))) == Class(env, cs, x) && Elements(Ascending(Class(env, ds, y))) == Class(env, ds, y);
  }

  lemma OwnClass(env: Env, cs: set<Node>, h: int)
    requires h in ArgSet(env, cs)
    ensures h in Class(env, cs, h)
  {
    LinkedReflexive(Edges(env, cs), h);
  }

  lemma ClassWithin(env: Env, cs: set<Node>, h: int)
    ensures Class(env, cs, h) <= ArgSet(env, cs)
  {}

  lemma ListedAt(xs: set<int>, x: int) returns (i: nat)
    requires x in xs
    ensures i < |Ascending(xs)| && Ascending(xs)[i] == x
  {
    assert x in Elements(Ascending(xs));
    i :| 0 <= i < |Ascending(xs)| && Ascending(xs)[i] == x;
  }

  /** Every argument of `cs` is one of `ds`: its class is the class of one. */
  lemma ArgsWithin(env: Env, cs: set<Node>, ds: set<Node>, x: int)
    requires Injective(env) && EclassHashes(env, cs) == EclassHashes(env, ds) && x in ArgSet(env, cs)
    ensures x in ArgSet(env, ds)
  {
    hide ArgSet, Class, EclassHash, EclassHashes;
    var i := ListedAt(ArgSet(env, cs), x);
    ClassHashesAt(env, cs, i);
    ClassHashesAt(env, ds, i);
    var y := Ascending(ArgSet(env, ds))[i];
    SameHashSameClass(env, cs, ds, x, y);
    OwnClass(env, cs, x);
    ClassWithin(env, ds, y);
  }

  /** The same arguments, in the same classes. */
  ghost predicate SamePartition(env: Env, cs: set<Node>, ds: set<Node>) {
    ArgSet(env, cs) == ArgSet(env, ds) && forall h :: h in ArgSet(env, cs) ==> Class(env, cs, h) == Class(env, ds, h)
  }

  lemma EclassHashesExactly(env: Env, cs: set<Node>, ds: set<Node>)
    requires Injective(env)
    ensures EclassHashes(env, cs) == EclassHashes(env, ds) <==> SamePartition(env, cs, ds)
  {
    hide ArgSet, Class, EclassHashes, Injective;
    if EclassHashes(env, cs) == EclassHashes(env, ds) {
      assert ArgSet(env, cs) == ArgSet(env, ds) by {
        forall x | x in ArgSet(env, cs) ensures x in ArgSet(env, ds) { ArgsWithin(env, cs, ds, x); }
        forall x | x in ArgSet(env, ds) ensures x in ArgSet(env, cs) { ArgsWithin(env, ds, cs, x); }
      }
      forall h | h in ArgSet(env, cs) ensures Class(env, cs, h) == Class(env, ds, h) {
        var i := ListedAt(ArgSet(env, cs), h);
        ClassHashesAt(env, cs, i);
        ClassHashesAt(env, ds, i);
        SameHashSameClass(env, cs, ds, h, h);
      }
    }
    if SamePartition(env, cs, ds) { PartitionHashes(env, cs, ds); }
  }

  lemma PartitionHashes(env: Env, cs: set<Node>, ds: set<Node>)
    requires SamePartition(env, cs, ds)
    ensures EclassHashes(env, cs) == EclassHashes(env, ds)
  {
    hide ArgSet, Class, EclassHashes;
    var args := Ascending(ArgSet(env, cs));
    ClassHashesAt(env, cs, 0);
    ClassHashesAt(env, ds, 0);
    forall i | 0 <= i < |args| ensures EclassHashes(env, cs)[i] == EclassHashes(env, ds)[i] {
      ClassHashesAt(env, cs, i);
      ClassHashesAt(env, ds, i);
      assert args[i] in Elements(args);
    }
  }

  // ----- the hash -----

  lemma SortIntsExactly(s: seq<int>, t: seq<int>)
    ensures SortInts(s) == SortInts(t) <==> multiset(s) == multiset(t)
  {
    if multiset(s) == multiset(t) { SortIntsForgetsOrder(s, t); }
  }

  lemma ThreeHashes(env: Env, a: seq<int>, b: seq<int>, c: seq<int>, a': seq<int>, b': seq<int>, c': seq<int>)
    requires Injective(env)
    ensures env.intsHash([env.intsHash(a), env.intsHash(b), env.intsHash(c)]) == env.intsHash([env.intsHash(a'), env.intsHash(b'), env.intsHash(c')])
      <==> a == a' && b == b' && c == c'
  {
    var (x, y) := ([env.intsHash(a), env.intsHash(b), env.intsHash(c)], [env.intsHash(a'), env.intsHash(b'), env.intsHash(c')]);
    if env.intsHash(x) == env.intsHash(y) {
      assert x[0] == y[0] && x[1] == y[1] && x[2] == y[2];
    }
  }

  /**
   With list hashes that do not collide, two objects get the same subspace hash exactly when they are
   over the same relations, keep every clause hash as often, and have the same arguments in the same classes.
   */
  lemma FssHashExactly(env: Env, ps: seq<Clause>, relids: seq<int>, qs: seq<Clause>, relids': seq<int>)
    requires Injective(env)
    ensures FssOf(env, ps, relids).hash == FssOf(env, qs, relids').hash <==>
      && multiset(relids) == multiset(relids')
      && (forall h :: KeptCount(env, ps, h) == KeptCount(env, qs, h))
      && SamePartition(env, ClauseSet(ps), ClauseSet(qs))
  {
    hide KeptCount, SamePartition, SortInts, Canonical, Firsts, EclassHashes, Injective;
    var (cs, ds) := (ClauseSet(ps), ClauseSet(qs));
    KeptHashesAgree(env, ps, qs);
    EclassHashesExactly(env, cs, ds);
    SortIntsExactly(relids, relids');
    ThreeHashes(env, KeptHashes(env, ps), EclassHashes(env, cs), SortInts(relids),
                KeptHashes(env, qs), EclassHashes(env, ds), SortInts(relids'));
  }

  // ----- clauses -----

  /** With hashes that do not collide, two equality clauses without constants get the same hash exactly when their arguments are linked. */
  lemma ClauseHashSeparates(env: Env, cs: set<Node>, c: Node, d: Node)
    requires Injective(env) && (forall i, j :: NodeHash(env, Param(i)) == NodeHash(env, Param(j)) ==> i == j)
    requires c in cs && d in cs && Classed(env, cs, c) && Classed(env, cs, d)
    ensures ClauseHash(env, cs, c) == ClauseHash(env, cs, d) <==> Linked(Edges(env, cs), NodeHash(env, c.args[0]), NodeHash(env, d.args[0]))
  {
    hide NodeHash, Edges, Class, ClauseHash;
    NoConstHash(env, cs, c);
    NoConstHash(env, cs, d);
    FirstIsArgument(env, cs, c);
    FirstIsArgument(env, cs, d);
    EclassHashSeparates(env, cs, NodeHash(env, c.args[0]), NodeHash(env, d.args[0]));
  }

  lemma FirstIsArgument(env: Env, cs: set<Node>, c: Node)
    requires c in cs && Classed(env, cs, c)
    ensures NodeHash(env, c.args[0]) in ArgSet(env, cs)
  {
    NoConstArgs(env, c.args, 0);
    assert EqArgs(env, c)[0] == NodeHash(env, c.args[0]);
  }

  /** An argument may be exchanged for one of its class. */
  ghost predicate Exchangeable(env: Env, cs: set<Node>, m: Node, n: Node) {
    m == n || (var (x, y) := (NodeHash(env, m), NodeHash(env, n));
      x in ArgSet(env, cs) && y in ArgSet(env, cs) && Linked(Edges(env, cs), x, y) && EclassHash(env, cs, x) != 0)
  }

  /** In any clause: what is hashed are the classes of the arguments, not the arguments. */
  lemma ClauseHashSeesClasses(env: Env, cs: set<Node>, c: Node, d: Node)
    requires HasArgs(c) && d.Expr? && d == c.(args := d.args) && |c.args| == |d.args|
    requires forall i :: 0 <= i < |c.args| ==> Exchangeable(env, cs, c.args[i], d.args[i])
    ensures ClauseHash(env, cs, c) == ClauseHash(env, cs, d)
  {
    hide NodeHash, Exchangeable;
    forall i | 0 <= i < |c.args| ensures ReplaceArgs(env, cs, c.args)[i] == ReplaceArgs(env, cs, d.args)[i] {
      ReplaceArgsAt(env, cs, c.args, i);
      ReplaceArgsAt(env, cs, d.args, i);
      ExchangedArg(env, cs, c.args[i], d.args[i]);
    }
    var r := ReplaceArgs(env, cs, c.args);
    assert r == ReplaceArgs(env, cs, d.args);
    assert c.(args := r) == d.(args := r);
  }

  lemma ExchangedArg(env: Env, cs: set<Node>, m: Node, n: Node)
    requires Exchangeable(env, cs, m, n)
    ensures ReplaceArg(env, cs, m) == ReplaceArg(env, cs, n)
  {
    hide NodeHash, Edges, Class;
    if m != n { LinkedSameClass(env, cs, NodeHash(env, m), NodeHash(env, n)); }
  }
}
