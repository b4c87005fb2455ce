/**
 `get_fss_for_object` as a whole (contrib/aqo/hash.c), and the two promises made for it:
 the order of the clauses does not matter, and neither do the values of constants.
 */
module AqoFss {
  import opened Sorting
  import opened AqoClauses
  import opened AqoEclasses
  import opened AqoFeatures

  datatype Fss = Fss(features: seq<real>, hash: int)

  ghost function ClauseSet(pairs: seq<(Node, real)>): set<Node> { set p | p in pairs :: p.0 }

  ghost function Firsts(s: seq<(int, real)>): (r: seq<int>)
    ensures |r| == |s|
  {
    seq(|s|, i requires 0 <= i < |s| => s[i].0)
  }

  ghost function Seconds(s: seq<(int, real)>): (r: seq<real>)
    ensures |r| == |s|
  {
    seq(|s|, i requires 0 <= i < |s| => s[i].1)
  }

  ghost function EclassHashes(env: Env, cs: set<Node>): seq<int> {
    ClassHashes(env, cs, Ascending(ArgSet(env, cs)))
  }

  /** The hash of a feature subspace from the kept clause hashes, the classes and the relations. */
  ghost function FssHash(env: Env, cs: set<Node>, clauseHashes: seq<int>, relids: seq<int>): int {
    env.intsHash([env.intsHash(clauseHashes), env.intsHash(EclassHashes(env, cs)), env.intsHash(SortInts(relids))])
  }

  /** What a list of clauses with their selectivities and a list of relations stand for. */
  ghost function FssOf(env: Env, pairs: seq<(Node, real)>, relids: seq<int>): Fss {
    var cs := ClauseSet(pairs);
    var kept := Canonical(SelectMap(pairs, ToItem(env, cs)));
    Fss(Seconds(kept), FssHash(env, cs, Firsts(kept), relids))
  }

  // ----- the methods -----

  ghost predicate EclassTable(env: Env, cs: set<Node>, args: seq<int>, eclasses: seq<int>) {
    Lists(args, ArgSet(env, cs)) && eclasses == ClassHashes(env, cs, args)
  }

  /** `get_arg_eclass`. */
  method GetArgEclass(env: Env, ghost cs: set<Node>, h: int, args: seq<int>, eclasses: seq<int>) returns (e: int)
    requires EclassTable(env, cs, args, eclasses)
    ensures e == if h in ArgSet(env, cs) then EclassHash(env, cs, h) else 0
  {
    var di := FindId(h, args);
    assert h in args <==> h in Elements(args);
    if di == -1 {
      e := 0;
    } else {
      ClassHashAt(env, cs, args, di);
      e := eclasses[di];
    }
  }

  /** One argument replaced by its class. */
  method ReplaceOne(env: Env, ghost cs: set<Node>, node: Node, args: seq<int>, eclasses: seq<int>) returns (r: Node)
    requires EclassTable(env, cs, args, eclasses)
    ensures r == ReplaceArg(env, cs, node)
  {
    var e := GetArgEclass(env, cs, NodeHash(env, node), args, eclasses);
    r := if e != 0 then Param(e) else node;
  }

  /** The loop that replaces arguments by their classes. */
  method ReplaceEach(env: Env, ghost cs: set<Node>, nodes: seq<Node>, args: seq<int>, eclasses: seq<int>)
    returns (replaced: seq<Node>)
    requires EclassTable(env, cs, args, eclasses)
    ensures replaced == ReplaceArgs(env, cs, nodes)
  {
    replaced := [];
    for i := 0 to |nodes|
      invariant replaced == ReplaceArgs(env, cs, nodes[..i])
    {
      var r := ReplaceOne(env, cs, nodes[i], args, eclasses);
      assert nodes[..i + 1][..i] == nodes[..i];
      replaced := replaced + [r];
    }
    assert nodes[..|nodes|] == nodes;
  }

  /** An equality clause has a first argument: `linitial` demands it. */
  predicate WellFormed(c: Node) { IsEqClause(c) ==> c.args != [] }

  /** `get_clause_hash`. */
  method GetClauseHash(env: Env, ghost cs: set<Node>, c: Node, args: seq<int>, eclasses: seq<int>) returns (h: int)
    requires EclassTable(env, cs, args, eclasses)
    requires WellFormed(c)
    ensures h == ClauseHash(env, cs, c)
  {
    if !HasArgs(c) {
      return NodeHash(env, c);
    }
    var replaced := ReplaceEach(env, cs, c.args, args, eclasses);
    h := NodeHash(env, if !IsEqClause(c) || HasConsts(replaced) then c.(args := replaced) else replaced[0]);
  }

  /** The first loop: hash of every clause and whether it has constants. */
  method HashClauses(env: Env, clauses: seq<Node>, args: seq<int>, eclasses: seq<int>, ghost cs: set<Node>)
    returns (hashes: seq<int>, consts: seq<bool>)
    requires EclassTable(env, cs, args, eclasses)
    requires forall i :: 0 <= i < |clauses| ==> WellFormed(clauses[i])
    ensures |hashes| == |consts| == |clauses|
    ensures forall i :: 0 <= i < |clauses| ==> hashes[i] == ClauseHash(env, cs, clauses[i])
    ensures forall i :: 0 <= i < |clauses| ==> consts[i] == ClauseHasConsts(clauses[i])
  {
    hashes := HashEach(env, clauses, args, eclasses, cs);
    SelectMapTotal(clauses, HashOf(env, cs));
    consts := seq(|clauses|, i requires 0 <= i < |clauses| => ClauseHasConsts(clauses[i]));
  }

  ghost function HashOf(env: Env, cs: set<Node>): Node -> Option<int> { (c: Node) => Some(ClauseHash(env, cs, c)) }

  method HashEach(env: Env, clauses: seq<Node>, args: seq<int>, eclasses: seq<int>, ghost cs: set<Node>)
    returns (hashes: seq<int>)
    requires EclassTable(env, cs, args, eclasses)
    requires forall i :: 0 <= i < |clauses| ==> WellFormed(clauses[i])
    ensures hashes == SelectMap(clauses, HashOf(env, cs))
  {
    hashes := [];
    for i := 0 to |clauses|
      invariant hashes == SelectMap(clauses[..i], HashOf(env, cs))
    {
      var h := GetClauseHash(env, cs, clauses[i], args, eclasses);
      assert clauses[..i + 1][..i] == clauses[..i];
      hashes := hashes + [h];
    }
    assert clauses[..|clauses|] == clauses;
  }

  /** The scatter loop: entry `i` goes to position `inv[i]`. */
  method Scatter(env: Env, hashes: seq<int>, sels: seq<real>, inv: array<int>, ghost idx: seq<int>)
    returns (feat: array<real>, sc: array<int>)
    requires |hashes| == |sels| == |idx| == inv.Length
    requires forall j :: 0 <= j < |idx| ==> 0 <= idx[j] < |idx| && inv[idx[j]] == j
    requires forall v :: 0 <= v < |idx| ==> 0 <= inv[v] < |idx| && idx[inv[v]] == v
    ensures fresh(feat) && fresh(sc) && feat.Length == sc.Length == |idx|
    ensures forall j :: 0 <= j < |idx| ==> sc[j] == hashes[idx[j]] && feat[j] == Feature(env, sels[idx[j]])
  {
    feat := new real[|sels|](_ => 0.0);
    sc := new int[|sels|](_ => 0);
    for i := 0 to |sels|
      invariant forall k :: 0 <= k < i ==> sc[inv[k]] == hashes[k] && feat[inv[k]] == Feature(env, sels[k])
    {
      feat[inv[i]] := env.log(sels[i]);
      if feat[inv[i]] < LOG_SELECTIVITY_LOWER_BOUND {
        feat[inv[i]] := LOG_SELECTIVITY_LOWER_BOUND;
      }
      sc[inv[i]] := hashes[i];
    }
    forall j | 0 <= j < |idx| ensures sc[j] == hashes[idx[j]] && feat[j] == Feature(env, sels[idx[j]]) {
      assert inv[idx[j]] == j;
    }
  }

  /** Sorting and compaction of the hashed clauses. */
  method BuildFeatures(env: Env, hashes: seq<int>, consts: seq<bool>, sels: seq<real>, ghost items: seq<Item>)
    returns (features: seq<real>, sorted: seq<int>)
    requires |hashes| == |consts| == |sels| == |items|
    requires forall i :: 0 <= i < |items| ==> items[i] == Item(hashes[i], consts[i], Feature(env, sels[i]))
    ensures features == Seconds(Canonical(items)) && sorted == Firsts(Canonical(items))
  {
    var idx := Argsort(hashes);
    var inv := InversePermutation(idx);
    ghost var perm := idx[..];
    var feat, sc := Scatter(env, hashes, sels, inv, perm);
    ghost var t := seq(|items|, j requires 0 <= j < |items| => items[perm[j]]);
    var byPosition := seq(idx.Length, j requires 0 <= j < idx.Length reads idx requires 0 <= idx[j] < |consts| => consts[idx[j]]);
    ReindexPermutes(items, perm, t);
    CanonicalForgetsOrder(t, items);
    var n := Compact(t, feat, sc, byPosition);
    features, sorted := feat[..n], sc[..n];
    ghost var kept := PairsAt(sc[..], feat[..], 0, n);
    assert features == Seconds(kept) && sorted == Firsts(kept);
  }

  method GetFssForObject(env: Env, clauses: seq<Node>, sels: seq<real>, relids: seq<int>)
    returns (nfeatures: nat, fssHash: int, features: seq<real>)
    requires |clauses| == |sels|
    requires forall i :: 0 <= i < |clauses| ==> WellFormed(clauses[i])
    ensures nfeatures == |features|
    ensures Fss(features, fssHash) == FssOf(env, Pairs(clauses, sels), relids)
  {
    ghost var cs := Elements(clauses);
    PairedClauses(clauses, sels);
    var args, eclasses := GetEclasses(env, clauses);
    var hashes, consts := HashClauses(env, clauses, args, eclasses, cs);
    ghost var items := SelectMap(Pairs(clauses, sels), ToItem(env, cs));
    PairedItems(env, cs, clauses, sels);
    var sorted;
    features, sorted := BuildFeatures(env, hashes, consts, sels, items);
    nfeatures := |features|;
    ListsUnique(args, ArgSet(env, cs));
    fssHash := env.intsHash([env.intsHash(sorted), env.intsHash(eclasses), env.intsHash(SortInts(relids))]);
  }

  ghost function Pairs(clauses: seq<Node>, sels: seq<real>): (r: seq<(Node, real)>)
    requires |clauses| == |sels|
    ensures |r| == |clauses|
  {
    seq(|clauses|, i requires 0 <= i < |clauses| => (clauses[i], sels[i]))
  }

  lemma PairedClauses(clauses: seq<Node>, sels: seq<real>)
    requires |clauses| == |sels|
    ensures ClauseSet(Pairs(clauses, sels)) == Elements(clauses)
  {
    var pairs := Pairs(clauses, sels);
    forall c | c in clauses ensures c in ClauseSet(pairs) {
      var i :| 0 <= i < |clauses| && clauses[i] == c;
      assert pairs[i] in pairs;
    }
  }

  lemma PairedItems(env: Env, cs: set<Node>, clauses: seq<Node>, sels: seq<real>)
    requires |clauses| == |sels|
    ensures var items := SelectMap(Pairs(clauses, sels), ToItem(env, cs));
      && |items| == |clauses|
      && forall i :: 0 <= i < |clauses| ==>
        items[i] == Item(ClauseHash(env, cs, clauses[i]), ClauseHasConsts(clauses[i]), Feature(env, sels[i]))
  {
    SelectMapTotal(Pairs(clauses, sels), ToItem(env, cs));
  }

  // ----- the order of clauses and relations does not matter -----

  lemma FssForgetsOrder(env: Env, ps: seq<(Node, real)>, qs: seq<(Node, real)>, relids: seq<int>, relids': seq<int>)
    requires multiset(ps) == multiset(qs) && multiset(relids) == multiset(relids')
    ensures FssOf(env, ps, relids) == FssOf(env, qs, relids')
  {
    assert ClauseSet(ps) == ClauseSet(qs) by {
      SameElements(ps, qs);
      assert forall p :: p in ps <==> p in Elements(ps);
      assert forall p :: p in qs <==> p in Elements(qs);
    }
    var f := ToItem(env, ClauseSet(ps));
    SelectMapPermutes(ps, qs, f);
    CanonicalForgetsOrder(SelectMap(ps, f), SelectMap(qs, f));
    SortIntsForgetsOrder(relids, relids');
  }
}
