/**
 The values of constants do not reach the feature subspace (the promise at the head of
 contrib/aqo/hash.c): replacing them anywhere, at any depth, leaves the number of features,
 the features and the hash as they were.
 */
module AqoConstants {
  import opened Sorting
  import opened AqoClauses
  import opened AqoEclasses
  import opened AqoFeatures
  import opened AqoFss

  lemma {:induction false} AlikeAt(xs: seq<Node>, ys: seq<Node>, i: nat)
    requires AllAlike(xs, ys) && i < |xs|
    ensures Alike(xs[i], ys[i])
  {
    if i > 0 {
      AlikeAt(xs[1..], ys[1..], i - 1);
    }
  }

  lemma {:induction false} AlikeFromEach(xs: seq<Node>, ys: seq<Node>)
    requires |xs| == |ys| && forall i :: 0 <= i < |xs| ==> Alike(xs[i], ys[i])
    ensures AllAlike(xs, ys)
  {
    if xs != [] {
      AlikeFromEach(xs[1..], ys[1..]);
    }
  }

  lemma {:induction false} SelectMapPointwise<T, U>(s: seq<T>, t: seq<T>, f: T -> Option<U>, g: T -> Option<U>)
    requires |s| == |t| && forall i :: 0 <= i < |s| ==> f(s[i]) == g(t[i])
    ensures SelectMap(s, f) == SelectMap(t, g)
  {
    if s != [] {
      var n := |s| - 1;
      SelectMapPointwise(s[..n], t[..n], f, g);
    }
  }

  lemma {:induction false} EqArgsIgnoreConsts(env: Env, c: Node, d: Node)
    requires Alike(c, d)
    ensures EqArgs(env, c) == EqArgs(env, d)
  {
    if IsEqClause(c) {
      forall i | 0 <= i < |c.args| ensures ArgHash(env)(c.args[i]) == ArgHash(env)(d.args[i]) {
        AlikeAt(c.args, d.args, i);
        NodeHashIgnoresConsts(env, c.args[i], d.args[i]);
      }
      SelectMapPointwise(c.args, d.args, ArgHash(env), ArgHash(env));
    }
  }

  /** Clause sets with the same arguments, linked into the same classes. */
  ghost predicate SameClasses(env: Env, cs: set<Node>, ds: set<Node>) {
    ArgSet(env, cs) == ArgSet(env, ds) && forall h :: Class(env, cs, h) == Class(env, ds, h)
  }

  ghost predicate Covers(env: Env, cs: set<Node>, ds: set<Node>) {
    forall c :: c in cs ==> exists d :: d in ds && EqArgs(env, d) == EqArgs(env, c)
  }

  lemma CoversLinks(env: Env, cs: set<Node>, ds: set<Node>)
    requires Covers(env, cs, ds)
    ensures ArgSet(env, cs) <= ArgSet(env, ds) && Edges(env, cs) <= Edges(env, ds)
  {
    forall x | x in ArgSet(env, cs) ensures x in ArgSet(env, ds) {
      var c, k :| c in cs && 0 <= k < |EqArgs(env, c)| && x == EqArgs(env, c)[k];
      var d :| d in ds && EqArgs(env, d) == EqArgs(env, c);
    }
    forall e | e in Edges(env, cs) ensures e in Edges(env, ds) {
      var c :| c in cs && e in Consecutive(EqArgs(env, c));
      var d :| d in ds && EqArgs(env, d) == EqArgs(env, c);
    }
  }

  lemma SameClassHash(env: Env, cs: set<Node>, ds: set<Node>, h: int)
    requires SameClasses(env, cs, ds)
    ensures EclassHash(env, cs, h) == EclassHash(env, ds, h)
  {
    assert Class(env, cs, h) == Class(env, ds, h);
  }

  lemma {:induction false} ReplaceArgIgnoresConsts(env: Env, cs: set<Node>, ds: set<Node>, m: Node, n: Node)
    requires SameClasses(env, cs, ds) && Alike(m, n)
    ensures Alike(ReplaceArg(env, cs, m), ReplaceArg(env, ds, n))
  {
    NodeHashIgnoresConsts(env, m, n);
    SameClassHash(env, cs, ds, NodeHash(env, m));
  }

  lemma {:induction false} HasConstsIgnoresValues(xs: seq<Node>, ys: seq<Node>)
    requires AllAlike(xs, ys)
    ensures HasConsts(xs) == HasConsts(ys)
  {
    forall i | 0 <= i < |xs| ensures xs[i].Const? <==> ys[i].Const? {
      AlikeAt(xs, ys, i);
    }
  }

  lemma {:induction false} ClauseHashIgnoresConsts(env: Env, cs: set<Node>, ds: set<Node>, c: Node, d: Node)
    requires SameClasses(env, cs, ds) && Alike(c, d)
    ensures ClauseHash(env, cs, c) == ClauseHash(env, ds, d)
  {
    if !HasArgs(c) {
      NodeHashIgnoresConsts(env, c, d);
    } else {
      var (xs, ys) := (ReplaceArgs(env, cs, c.args), ReplaceArgs(env, ds, d.args));
      forall i | 0 <= i < |xs| ensures Alike(xs[i], ys[i]) {
        AlikeAt(c.args, d.args, i);
        ReplaceArgsAt(env, cs, c.args, i);
        ReplaceArgsAt(env, ds, d.args, i);
        ReplaceArgIgnoresConsts(env, cs, ds, c.args[i], d.args[i]);
      }
      AlikeFromEach(xs, ys);
      HasConstsIgnoresValues(xs, ys);
      NodeHashIgnoresConsts(env, c.(args := xs), d.(args := ys));
      if xs != [] { NodeHashIgnoresConsts(env, xs[0], ys[0]); }
    }
  }

  /** The same clauses with the same selectivities, up to the values of constants. */
  ghost predicate SameUpToConsts(ps: seq<(Node, real)>, qs: seq<(Node, real)>) {
    |ps| == |qs| && forall i :: 0 <= i < |ps| ==> Alike(ps[i].0, qs[i].0) && ps[i].1 == qs[i].1
  }

  ghost predicate SameEqArgs(env: Env, ps: seq<(Node, real)>, qs: seq<(Node, real)>) {
    |ps| == |qs| && forall i :: 0 <= i < |ps| ==> EqArgs(env, ps[i].0) == EqArgs(env, qs[i].0)
  }

  lemma ClauseSetsCovered(env: Env, ps: seq<(Node, real)>, qs: seq<(Node, real)>)
    requires SameEqArgs(env, ps, qs)
    ensures Covers(env, ClauseSet(ps), ClauseSet(qs))
  {
    forall c | c in ClauseSet(ps) ensures exists d :: d in ClauseSet(qs) && EqArgs(env, d) == EqArgs(env, c) {
      var p :| p in ps && p.0 == c;
      var i :| 0 <= i < |ps| && ps[i] == p;
      assert qs[i] in qs;
      assert qs[i].0 in ClauseSet(qs) && EqArgs(env, qs[i].0) == EqArgs(env, c);
    }
  }

  lemma SameUpToConstsSameEqArgs(env: Env, ps: seq<(Node, real)>, qs: seq<(Node, real)>)
    requires SameUpToConsts(ps, qs)
    ensures SameEqArgs(env, ps, qs) && SameEqArgs(env, qs, ps)
  {
    forall i | 0 <= i < |ps| ensures EqArgs(env, ps[i].0) == EqArgs(env, qs[i].0) {
      EqArgsIgnoreConsts(env, ps[i].0, qs[i].0);
    }
  }

  lemma SameUpToConstsSameClasses(env: Env, ps: seq<(Node, real)>, qs: seq<(Node, real)>)
    requires SameUpToConsts(ps, qs)
    ensures SameClasses(env, ClauseSet(ps), ClauseSet(qs))
  {
    hide ArgSet, Edges, ClauseSet, SameEqArgs, SameClasses;
    SameUpToConstsSameEqArgs(env, ps, qs);
    LinksCovered(env, ps, qs);
    LinksCovered(env, qs, ps);
    SameEdgesSameClasses(env, ClauseSet(ps), ClauseSet(qs));
  }

  lemma SameEdgesSameClasses(env: Env, cs: set<Node>, ds: set<Node>)
    requires ArgSet(env, cs) == ArgSet(env, ds) && Edges(env, cs) == Edges(env, ds)
    ensures SameClasses(env, cs, ds)
  {
    hide ArgSet, Edges;
  }

  lemma LinksCovered(env: Env, ps: seq<(Node, real)>, qs: seq<(Node, real)>)
    requires SameEqArgs(env, ps, qs)
    ensures ArgSet(env, ClauseSet(ps)) <= ArgSet(env, ClauseSet(qs))
    ensures Edges(env, ClauseSet(ps)) <= Edges(env, ClauseSet(qs))
  {
    ClauseSetsCovered(env, ps, qs);
    CoversLinks(env, ClauseSet(ps), ClauseSet(qs));
  }

  lemma ItemIgnoresConsts(env: Env, cs: set<Node>, ds: set<Node>, p: (Node, real), q: (Node, real))
    requires SameClasses(env, cs, ds) && Alike(p.0, q.0) && p.1 == q.1
    ensures ToItem(env, cs)(p) == ToItem(env, ds)(q)
  {
    ClauseHashIgnoresConsts(env, cs, ds, p.0, q.0);
    if HasArgs(p.0) { HasConstsIgnoresValues(p.0.args, q.0.args); }
  }

  /** The feature subspace does not depend on the values of constants. */
  lemma FssIgnoresConsts(env: Env, ps: seq<(Node, real)>, qs: seq<(Node, real)>, relids: seq<int>)
    requires SameUpToConsts(ps, qs)
    ensures FssOf(env, ps, relids) == FssOf(env, qs, relids)
  {
    var (cs, ds) := (ClauseSet(ps), ClauseSet(qs));
    SameUpToConstsSameClasses(env, ps, qs);
    forall i | 0 <= i < |ps| ensures ToItem(env, cs)(ps[i]) == ToItem(env, ds)(qs[i]) {
      ItemIgnoresConsts(env, cs, ds, ps[i], qs[i]);
    }
    SelectMapPointwise(ps, qs, ToItem(env, cs), ToItem(env, ds));
    EclassHashesAgree(env, cs, ds);
  }

  lemma EclassHashesAgree(env: Env, cs: set<Node>, ds: set<Node>)
    requires SameClasses(env, cs, ds)
    ensures EclassHashes(env, cs) == EclassHashes(env, ds)
  {
    ClassHashesAgree(env, cs, ds, Ascending(ArgSet(env, cs)));
  }

  lemma {:induction false} ClassHashesAgree(env: Env, cs: set<Node>, ds: set<Node>, args: seq<int>)
    requires SameClasses(env, cs, ds)
    ensures ClassHashes(env, cs, args) == ClassHashes(env, ds, args)
  {
    if args != [] {
      ClassHashesAgree(env, cs, ds, args[..|args| - 1]);
      SameClassHash(env, cs, ds, args[|args| - 1]);
    }
  }
}
