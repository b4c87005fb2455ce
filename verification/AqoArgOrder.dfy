/**
 The order of a clause's arguments (contrib/aqo/hash.c demands of `get_clause_hash` that it does not
 matter in equality clauses): it matters neither to the classes nor, in clauses without constants, to
 the feature subspace, and it does matter where a constant makes the whole clause be hashed.
 */
module AqoArgOrder {
  import opened Sorting
  import opened AqoText
  import opened AqoClauses
  import opened AqoEclasses
  import opened AqoFeatures
  import opened AqoFss
  import opened AqoConstants

  /** The same equality clause with its arguments in some order. */
  ghost predicate Reordered(c: Node, d: Node) {
    IsEqClause(c) && d.Expr? && d == c.(args := d.args) && multiset(d.args) == multiset(c.args)
  }

  lemma ReorderedBack(c: Node, d: Node)
    requires Reordered(c, d)
    ensures Reordered(d, c)
  {}

  // ----- classes -----

  /** All arguments of a clause are linked, whatever their order. */
  lemma {:induction false} ChainLinked(es: set<(int, int)>, s: seq<int>, i: nat, j: nat)
    requires Consecutive(s) <= es && i <= j < |s|
    ensures Linked(es, s[i], s[j])
    decreases |s|
  {
    if i == j {
      LinkedReflexive(es, s[i]);
    } else {
      var front := s[..|s| - 1];
      if j < |s| - 1 {
        ChainLinked(es, front, i, j);
      } else {
        ChainLinked(es, front, i, j - 1);
        LinkedEdge(es, s[j - 1], s[j]);
        LinkedTransitive(es, s[i], s[j - 1], s[j]);
      }
    }
  }

  lemma {:induction false} ArgsLinked(es: set<(int, int)>, s: seq<int>, x: int, y: int)
    requires Consecutive(s) <= es && x in s && y in s
    ensures Linked(es, x, y)
  {
    var i :| 0 <= i < |s| && s[i] == x;
    var j :| 0 <= j < |s| && s[j] == y;
    if i <= j {
      ChainLinked(es, s, i, j);
    } else {
      ChainLinked(es, s, j, i);
      LinkedSymmetric(es, y, x);
    }
  }

  lemma {:induction false} ConsecutiveIn(s: seq<int>, e: (int, int))
    requires e in Consecutive(s)
    ensures e.0 in s && e.1 in s
  {
    if |s| >= 2 && e != (s[|s| - 2], s[|s| - 1]) { ConsecutiveIn(s[..|s| - 1], e); }
  }

  lemma EqArgsReordered(env: Env, c: Node, d: Node)
    requires c == d || Reordered(c, d)
    ensures multiset(EqArgs(env, c)) == multiset(EqArgs(env, d)) && forall x :: x in EqArgs(env, c) <==> x in EqArgs(env, d)
  {
    if c != d { SelectMapPermutes(c.args, d.args, ArgHash(env)); }
    forall x ensures x in EqArgs(env, c) <==> x in EqArgs(env, d) {
      assert x in EqArgs(env, c) <==> x in multiset(EqArgs(env, c));
      assert x in EqArgs(env, d) <==> x in multiset(EqArgs(env, d));
    }
  }

  /** Every clause of `cs` is in `ds`, with its arguments in some order. */
  ghost predicate Matched(cs: set<Node>, ds: set<Node>) {
    forall c :: c in cs ==> exists d :: d in ds && (c == d || Reordered(c, d))
  }

  lemma EdgeLinked(env: Env, cs: set<Node>, ds: set<Node>, x: int, y: int)
    requires Matched(cs, ds) && (x, y) in Edges(env, cs)
    ensures Linked(Edges(env, ds), x, y)
  {
    var c :| c in cs && (x, y) in Consecutive(EqArgs(env, c));
    var d :| d in ds && (c == d || Reordered(c, d));
    ConsecutiveIn(EqArgs(env, c), (x, y));
    EqArgsReordered(env, c, d);
    assert Consecutive(EqArgs(env, d)) <= Edges(env, ds);
    ArgsLinked(Edges(env, ds), EqArgs(env, d), x, y);
  }

  lemma {:induction false} PathLinked(env: Env, cs: set<Node>, ds: set<Node>, path: seq<int>, x: int, y: int)
    requires Matched(cs, ds) && IsPath(Edges(env, cs), path, x, y)
    ensures Linked(Edges(env, ds), x, y)
    decreases |path|
  {
    var n := |path|;
    if n == 1 {
      LinkedReflexive(Edges(env, ds), x);
    } else {
      var z := path[n - 2];
      assert IsPath(Edges(env, cs), path[..n - 1], x, z);
      PathLinked(env, cs, ds, path[..n - 1], x, z);
      assert Adjacent(Edges(env, cs), path[n - 2], path[n - 1]);
      if (z, y) in Edges(env, cs) {
        EdgeLinked(env, cs, ds, z, y);
      } else {
        EdgeLinked(env, cs, ds, y, z);
        LinkedSymmetric(Edges(env, ds), y, z);
      }
      LinkedTransitive(Edges(env, ds), x, z, y);
    }
  }

  lemma MatchedArgs(env: Env, cs: set<Node>, ds: set<Node>)
    requires Matched(cs, ds)
    ensures ArgSet(env, cs) <= ArgSet(env, ds)
  {
    forall x | x in ArgSet(env, cs) ensures x in ArgSet(env, ds) {
      var c, k :| c in cs && 0 <= k < |EqArgs(env, c)| && x == EqArgs(env, c)[k];
      ArgMatched(env, cs, ds, c, k);
    }
  }

  lemma ArgMatched(env: Env, cs: set<Node>, ds: set<Node>, c: Node, k: nat)
    requires Matched(cs, ds) && c in cs && k < |EqArgs(env, c)|
    ensures EqArgs(env, c)[k] in ArgSet(env, ds)
  {
    hide Reordered, EqArgs;
    var x := EqArgs(env, c)[k];
    var d :| d in ds && (c == d || Reordered(c, d));
    EqArgsReordered(env, c, d);
    assert x in EqArgs(env, c);
    var l :| 0 <= l < |EqArgs(env, d)| && EqArgs(env, d)[l] == x;
  }

  lemma MatchedLinked(env: Env, cs: set<Node>, ds: set<Node>, x: int, y: int)
    requires Matched(cs, ds) && Linked(Edges(env, cs), x, y)
    ensures Linked(Edges(env, ds), x, y)
  {
    var path :| IsPath(Edges(env, cs), path, x, y);
    PathLinked(env, cs, ds, path, x, y);
  }

  /** The order of arguments, constants or not, does not change the classes. */
  lemma ClassesForgetArgOrder(env: Env, cs: set<Node>, ds: set<Node>)
    requires Matched(cs, ds) && Matched(ds, cs)
    ensures SameClasses(env, cs, ds)
  {
    hide Matched, ArgSet, Edges, Linked;
    MatchedArgs(env, cs, ds);
    MatchedArgs(env, ds, cs);
    forall h ensures Class(env, cs, h) == Class(env, ds, h) {
      forall x | x in ArgSet(env, cs) ensures Linked(Edges(env, cs), h, x) <==> Linked(Edges(env, ds), h, x) {
        if Linked(Edges(env, cs), h, x) { MatchedLinked(env, cs, ds, h, x); }
        if Linked(Edges(env, ds), h, x) { MatchedLinked(env, ds, cs, h, x); }
      }
    }
  }

  // ----- clauses without constants -----

  /** The hash of the one class that all arguments of a clause without constants are in. */
  ghost function ClauseClass(env: Env, cs: set<Node>, c: Node): int
    requires IsEqClause(c) && c.args != []
  {
    EclassHash(env, cs, NodeHash(env, c.args[0]))
  }

  lemma {:induction false} NoConstArgs(env: Env, args: seq<Node>, i: nat)
    requires !HasConsts(args) && i < |args|
    ensures |SelectMap(args, ArgHash(env))| == |args| && SelectMap(args, ArgHash(env))[i] == NodeHash(env, args[i])
  {
    hide NodeHash;
    var n := |args| - 1;
    assert !args[n].Const?;
    if n > 0 {
      assert forall k :: 0 <= k < n ==> args[..n][k] == args[k];
      NoConstArgs(env, args[..n], if i < n then i else 0);
    }
  }

  /** Every argument is replaced by the same class, or none is. */
  lemma {:induction false} ArgReplaced(env: Env, cs: set<Node>, c: Node, i: nat)
    requires c in cs && IsEqClause(c) && i < |c.args| && !HasConsts(c.args)
    ensures ReplaceArgs(env, cs, c.args)[i] == if ClauseClass(env, cs, c) != 0 then Param(ClauseClass(env, cs, c)) else c.args[i]
  {
    hide Class, Consecutive;
    var (es, s) := (Edges(env, cs), EqArgs(env, c));
    NoConstArgs(env, c.args, 0);
    NoConstArgs(env, c.args, i);
    assert Consecutive(s) <= es;
    ArgsLinked(es, s, s[0], s[i]);
    LinkedSameClass(env, cs, s[0], s[i]);
    assert s[i] in ArgSet(env, cs);
    ReplaceArgsAt(env, cs, c.args, i);
  }

  lemma NoConstHash(env: Env, cs: set<Node>, c: Node)
    requires c in cs && IsEqClause(c) && c.args != [] && !HasConsts(c.args)
    ensures ClauseHash(env, cs, c) == NodeHash(env, if ClauseClass(env, cs, c) != 0 then Param(ClauseClass(env, cs, c)) else c.args[0])
  {
    var args := ReplaceArgs(env, cs, c.args);
    forall i | 0 <= i < |args| ensures !args[i].Const? { ArgReplaced(env, cs, c, i); }
    ArgReplaced(env, cs, c, 0);
  }

  lemma ReorderedArg(c: Node, d: Node, i: nat)
    requires Reordered(c, d) && i < |d.args|
    ensures d.args[i] in c.args && c.args != []
  {
    assert d.args[i] in multiset(c.args);
  }

  lemma ConstsPermuted(a: seq<Node>, b: seq<Node>)
    requires multiset(a) == multiset(b) && HasConsts(a)
    ensures HasConsts(b)
  {
    var i :| 0 <= i < |a| && a[i].Const?;
    assert a[i] in multiset(b);
    var j :| 0 <= j < |b| && b[j] == a[i];
  }

  lemma ReorderedConsts(c: Node, d: Node)
    requires Reordered(c, d)
    ensures HasConsts(c.args) == HasConsts(d.args)
  {
    if HasConsts(c.args) { ConstsPermuted(c.args, d.args); }
    if HasConsts(d.args) { ConstsPermuted(d.args, c.args); }
  }

  /** Both orders are in one class, also across the two sets of clauses. */
  lemma ReorderedClass(env: Env, cs: set<Node>, ds: set<Node>, c: Node, d: Node)
    requires SameClasses(env, cs, ds) && c in cs && d in ds && Reordered(c, d) && c.args != [] && d.args != [] && !HasConsts(c.args)
    ensures ClauseClass(env, cs, c) == ClauseClass(env, ds, d)
  {
    var (es, s) := (Edges(env, cs), EqArgs(env, c));
    ReorderedArg(c, d, 0);
    var i :| 0 <= i < |c.args| && c.args[i] == d.args[0];
    NoConstArgs(env, c.args, 0);
    NoConstArgs(env, c.args, i);
    assert Consecutive(s) <= es;
    ArgsLinked(es, s, s[0], s[i]);
    LinkedSameClass(env, cs, s[0], s[i]);
    SameClassHash(env, cs, ds, s[i]);
  }

  /** The class hash of a clause is not 0, the number `get_arg_eclass` gives for no class. */
  ghost predicate Classed(env: Env, cs: set<Node>, c: Node) {
    IsEqClause(c) && c.args != [] && !HasConsts(c.args) && ClauseClass(env, cs, c) != 0
  }

  lemma ClauseHashForgetsArgOrder(env: Env, cs: set<Node>, ds: set<Node>, c: Node, d: Node)
    requires SameClasses(env, cs, ds) && c in cs && d in ds && Reordered(c, d) && Classed(env, cs, c)
    ensures ClauseHash(env, cs, c) == ClauseHash(env, ds, d)
  {
    assert |d.args| == |multiset(d.args)| == |multiset(c.args)| == |c.args|;
    ReorderedConsts(c, d);
    ReorderedClass(env, cs, ds, c, d);
    NoConstHash(env, cs, c);
    NoConstHash(env, ds, d);
  }

  // ----- exactly when -----

  /** `cs` with `d` in place of `c`. */
  ghost function Exchanged(cs: set<Node>, c: Node, d: Node): set<Node> { cs - {c} + {d} }

  lemma ExchangedMatched(cs: set<Node>, c: Node, d: Node)
    requires c in cs && Reordered(c, d)
    ensures Matched(cs, Exchanged(cs, c, d)) && Matched(Exchanged(cs, c, d), cs)
  {
    var ds := Exchanged(cs, c, d);
    ReorderedBack(c, d);
    forall x | x in cs ensures exists y :: y in ds && (x == y || Reordered(x, y)) {
      if x == c { assert d in ds && Reordered(x, d); } else { assert x in ds; }
    }
    forall y | y in ds ensures exists x :: x in cs && (y == x || Reordered(y, x)) {
      if y == d { assert c in cs && Reordered(y, c); } else { assert y in cs; }
    }
  }

  /** No order of the arguments changes the clause's hash. */
  ghost predicate ForgetsArgOrder(env: Env, cs: set<Node>, c: Node) {
    forall d :: Reordered(c, d) ==> ClauseHash(env, Exchanged(cs, c, d), d) == ClauseHash(env, cs, c)
  }

  ghost predicate SameArgHashes(env: Env, c: Node)
    requires c.Expr? && c.args != []
  {
    forall i :: 0 <= i < |c.args| ==> NodeHash(env, c.args[i]) == NodeHash(env, c.args[0])
  }

  /** The clause with argument `i` first. */
  function Fronted(c: Node, i: nat): (d: Node)
    requires c.Expr? && i < |c.args|
  {
    c.(args := c.args[0 := c.args[i]][i := c.args[0]])
  }

  lemma FrontedReordered(c: Node, i: nat)
    requires IsEqClause(c) && i < |c.args|
    ensures Reordered(c, Fronted(c, i))
  {}

  lemma ExchangedHash(env: Env, cs: set<Node>, c: Node, d: Node)
    requires c in cs && Reordered(c, d) && c.args != [] && !HasConsts(c.args)
    ensures d.args != [] && var e := ClauseClass(env, cs, c);
      ClauseHash(env, Exchanged(cs, c, d), d) == NodeHash(env, if e != 0 then Param(e) else d.args[0])
  {
    var ds := Exchanged(cs, c, d);
    assert |d.args| == |multiset(d.args)| == |multiset(c.args)| == |c.args|;
    ExchangedMatched(cs, c, d);
    ClassesForgetArgOrder(env, cs, ds);
    ReorderedConsts(c, d);
    ReorderedClass(env, cs, ds, c, d);
    NoConstHash(env, ds, d);
  }

  /**
   In an equality clause without constants the order of the arguments does not change the hash exactly
   when the class has a hash other than 0, or the arguments have all the same hash.
   */
  lemma ArgOrderExactly(env: Env, cs: set<Node>, c: Node)
    requires c in cs && IsEqClause(c) && c.args != [] && !HasConsts(c.args)
    ensures ForgetsArgOrder(env, cs, c) <==> ClauseClass(env, cs, c) != 0 || SameArgHashes(env, c)
  {
    hide ClauseHash, NodeHash, ClauseClass, Reordered;
    NoConstHash(env, cs, c);
    if ForgetsArgOrder(env, cs, c) && ClauseClass(env, cs, c) == 0 {
      forall i | 0 <= i < |c.args| ensures NodeHash(env, c.args[i]) == NodeHash(env, c.args[0]) {
        FrontedReordered(c, i);
        ExchangedHash(env, cs, c, Fronted(c, i));
      }
    }
    if ClauseClass(env, cs, c) != 0 || SameArgHashes(env, c) {
      forall d | Reordered(c, d) ensures ClauseHash(env, Exchanged(cs, c, d), d) == ClauseHash(env, cs, c) {
        OrderForgotten(env, cs, c, d);
      }
    }
  }

  lemma OrderForgotten(env: Env, cs: set<Node>, c: Node, d: Node)
    requires c in cs && Reordered(c, d) && c.args != [] && !HasConsts(c.args)
    requires ClauseClass(env, cs, c) != 0 || SameArgHashes(env, c)
    ensures ClauseHash(env, Exchanged(cs, c, d), d) == ClauseHash(env, cs, c)
  {
    NoConstHash(env, cs, c);
    ExchangedHash(env, cs, c, d);
    ReorderedArg(c, d, 0);
  }

  // ----- constants -----

  /** The first character of a text survives the rewriting. */
  lemma {:induction false} FirstStays(s: string, pat: string, stop: char -> bool)
    requires s != "" && pat != ""
    ensures Scrub(s, pat, stop, 0) != "" && Scrub(s, pat, stop, 0)[0] == s[0]
  {}

  lemma StripFirst(s: string)
    requires s != ""
    ensures Strip(s) != "" && Strip(s)[0] == s[0]
  {
    hide Scrub;
    var s1 := Scrub(s, CONST_PATTERN, IsBrace, 0);
    FirstStays(s, CONST_PATTERN, IsBrace);
    var s2 := Scrub(s1, LOCATION_PATTERN, IsBrace, 0);
    FirstStays(s1, LOCATION_PATTERN, IsBrace);
    var s3 := Scrub(s2, VARNO_PATTERN, IsColon, 0);
    FirstStays(s2, VARNO_PATTERN, IsColon);
    FirstStays(s3, VARNOOLD_PATTERN, IsColon);
  }

  /** Texts are hashed by their first character. */
  function FirstChar(s: string): int { if s == "" then 0 else s[0] as int }

  function Plain(): Env { Env(_ => "p", FirstChar, _ => 7, _ => 0.0) }

  const COLUMN: Node := Leaf("x")
  const FIVE: Node := Const("5")

  function Equality(a: Node, b: Node): Node { Expr(OpExpr, 96, "", [a, b], "") }

  lemma {:induction false} PlainHash(n: Node)
    requires Show(Plain(), n) != ""
    ensures NodeHash(Plain(), n) == Show(Plain(), n)[0] as int
  {
    StripFirst(Show(Plain(), n));
  }

  /** Arguments of `x = 5` or `5 = x`: the column is one, the constant is none. */
  lemma OneArgument(c: Node)
    requires c == Equality(COLUMN, FIVE) || c == Equality(FIVE, COLUMN)
    ensures ArgSet(Plain(), {c}) == {'x' as int}
  {
    PlainHash(COLUMN);
    var f := ArgHash(Plain());
    assert f(COLUMN) == Some('x' as int) && f(FIVE) == None;
    assert c.args[..1] == [c.args[0]] && c.args[..1][..0] == [];
    assert SelectMap(c.args[..1], f) == if c.args[0] == COLUMN then ['x' as int] else [];
    assert EqArgs(Plain(), c) == ['x' as int];
    assert Elements([c]) == {c};
    ArgSetOne(Plain(), c);
    assert Elements(['x' as int]) == {'x' as int};
  }

  lemma Replacements(c: Node)
    requires c == Equality(COLUMN, FIVE) || c == Equality(FIVE, COLUMN)
    ensures ReplaceArgs(Plain(), {c}, c.args) == if c.args[0] == COLUMN then [Param(7), FIVE] else [FIVE, Param(7)]
  {
    hide ArgSet, Class, NodeHash;
    OneArgument(c);
    PlainHash(COLUMN);
    PlainHash(FIVE);
    assert Show(Plain(), FIVE)[0] == '{';
    assert ReplaceArg(Plain(), {c}, COLUMN) == Param(7) && ReplaceArg(Plain(), {c}, FIVE) == FIVE;
    ReplaceArgsAt(Plain(), {c}, c.args, 0);
    ReplaceArgsAt(Plain(), {c}, c.args, 1);
  }

  lemma WholeClauseHash(c: Node)
    requires c == Equality(COLUMN, FIVE) || c == Equality(FIVE, COLUMN)
    ensures ClauseHash(Plain(), {c}, c) == (if c.args[0] == COLUMN then 'p' else '{') as int
  {
    hide ArgSet, Class, NodeHash, ReplaceArgs;
    Replacements(c);
    var r := if c.args[0] == COLUMN then Equality(Param(7), FIVE) else Equality(FIVE, Param(7));
    assert r.args[0].Const? || r.args[1].Const?;
    assert Show(Plain(), r)[0] == if c.args[0] == COLUMN then 'p' else '{';
    PlainHash(r);
  }

  /** With a constant the whole clause is hashed, and the order of its arguments shows: `x = 5` and `5 = x`. */
  lemma ConstantShowsArgOrder()
    ensures var (c, d) := (Equality(COLUMN, FIVE), Equality(FIVE, COLUMN));
      && Reordered(c, d) && ClauseClass(Plain(), {c}, c) != 0
      && ClauseHash(Plain(), {c}, c) != ClauseHash(Plain(), {d}, d)
  {
    hide ClauseHash, Class;
    var (c, d) := (Equality(COLUMN, FIVE), Equality(FIVE, COLUMN));
    assert d.args == [c.args[1], c.args[0]];
    WholeClauseHash(c);
    WholeClauseHash(d);
  }

  // ----- the feature subspace -----

  lemma {:induction false} ReplaceArgsSame(env: Env, cs: set<Node>, ds: set<Node>, args: seq<Node>)
    requires SameClasses(env, cs, ds)
    ensures ReplaceArgs(env, cs, args) == ReplaceArgs(env, ds, args)
  {
    hide NodeHash, ArgSet, Class;
    if args != [] {
      ReplaceArgsSame(env, cs, ds, args[..|args| - 1]);
      SameClassHash(env, cs, ds, NodeHash(env, args[|args| - 1]));
    }
  }

  /** The same clauses, those that are in a class with their arguments in any order. */
  ghost predicate SameUpToArgOrder(env: Env, ps: seq<(Node, real)>, qs: seq<(Node, real)>) {
    |ps| == |qs| && forall i :: 0 <= i < |ps| ==> SamePair(env, ClauseSet(ps), ps[i], qs[i])
  }

  ghost predicate SamePair(env: Env, cs: set<Node>, p: (Node, real), q: (Node, real)) {
    p.1 == q.1 && (p.0 == q.0 || (Reordered(p.0, q.0) && Classed(env, cs, p.0)))
  }

  lemma PairsMatched(env: Env, ps: seq<(Node, real)>, qs: seq<(Node, real)>)
    requires SameUpToArgOrder(env, ps, qs)
    ensures Matched(ClauseSet(ps), ClauseSet(qs)) && Matched(ClauseSet(qs), ClauseSet(ps))
  {
    hide Reordered, Classed;
    forall c | c in ClauseSet(ps) ensures exists d :: d in ClauseSet(qs) && (c == d || Reordered(c, d)) {
      var i :| 0 <= i < |ps| && ps[i].0 == c;
      assert SamePair(env, ClauseSet(ps), ps[i], qs[i]) && qs[i] in qs;
      assert qs[i].0 in ClauseSet(qs);
    }
    forall d | d in ClauseSet(qs) ensures exists c :: c in ClauseSet(ps) && (d == c || Reordered(d, c)) {
      var i :| 0 <= i < |qs| && qs[i].0 == d;
      assert SamePair(env, ClauseSet(ps), ps[i], qs[i]) && ps[i] in ps;
      assert ps[i].0 in ClauseSet(ps);
      if ps[i].0 != d { ReorderedBack(ps[i].0, d); }
    }
  }

  lemma ItemForgetsArgOrder(env: Env, cs: set<Node>, ds: set<Node>, p: (Node, real), q: (Node, real))
    requires SameClasses(env, cs, ds) && SamePair(env, cs, p, q) && p.0 in cs && q.0 in ds
    ensures ToItem(env, cs)(p) == ToItem(env, ds)(q)
  {
    hide SameClasses, NodeHash, ReplaceArgs, Classed;
    if p.0 == q.0 {
      if HasArgs(p.0) { ReplaceArgsSame(env, cs, ds, p.0.args); }
    } else {
      ClauseHashForgetsArgOrder(env, cs, ds, p.0, q.0);
      ReorderedConsts(p.0, q.0);
    }
  }

  /** The feature subspace does not depend on the order of arguments in such clauses. */
  lemma FssForgetsArgOrder(env: Env, ps: seq<(Node, real)>, qs: seq<(Node, real)>, relids: seq<int>)
    requires SameUpToArgOrder(env, ps, qs)
    ensures FssOf(env, ps, relids) == FssOf(env, qs, relids)
  {
    hide SamePair, SameClasses, Matched;
    var (cs, ds) := (ClauseSet(ps), ClauseSet(qs));
    PairsMatched(env, ps, qs);
    ClassesForgetArgOrder(env, cs, ds);
    forall i | 0 <= i < |ps| ensures ToItem(env, cs)(ps[i]) == ToItem(env, ds)(qs[i]) {
      assert ps[i] in ps && qs[i] in qs;
      assert ps[i].0 in cs && qs[i].0 in ds;
      ItemForgetsArgOrder(env, cs, ds, ps[i], qs[i]);
    }
    SelectMapPointwise(ps, qs, ToItem(env, cs), ToItem(env, ds));
    EclassHashesAgree(env, cs, ds);
  }
}
