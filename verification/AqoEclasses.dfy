/**
 Equivalence classes of clause arguments by disjoint sets (contrib/aqo/hash.c).
 */
module AqoEclasses {
  import opened Sorting
  import opened AqoClauses

  // ----- get_clauselist_args -----

  ghost function AllArgs(env: Env, cs: seq<Node>): seq<int> {
    if cs == [] then [] else AllArgs(env, cs[..|cs| - 1]) + EqArgs(env, cs[|cs| - 1])
  }

  lemma {:induction false} AllArgsElements(env: Env, cs: seq<Node>)
    ensures Elements(AllArgs(env, cs)) == ArgSet(env, Elements(cs))
  {
    if cs == [] {
      assert ArgSet(env, Elements(cs)) == {};
    } else {
      var (front, c) := (cs[..|cs| - 1], cs[|cs| - 1]);
      AllArgsElements(env, front);
      ArgSetGrows(env, cs, front, c);
    }
  }

  lemma {:induction false} ArgSetGrows(env: Env, cs: seq<Node>, front: seq<Node>, c: Node)
    requires cs != [] && front == cs[..|cs| - 1] && c == cs[|cs| - 1]
    requires Elements(AllArgs(env, front)) == ArgSet(env, Elements(front))
    ensures Elements(AllArgs(env, cs)) == ArgSet(env, Elements(cs))
  {
    hide ArgSet, EqArgs, Elements;
    ElementsConcat(AllArgs(env, front), EqArgs(env, c));
    assert cs == front + [c];
    ElementsConcat(front, [c]);
    ArgSetConcat(env, Elements(front), Elements([c]));
    ArgSetOne(env, c);
  }

  lemma ArgSetConcat(env: Env, a: set<Node>, b: set<Node>)
    ensures ArgSet(env, a + b) == ArgSet(env, a) + ArgSet(env, b)
  {}

  lemma ArgSetOne(env: Env, c: Node)
    ensures ArgSet(env, Elements([c])) == Elements(EqArgs(env, c))
  {
    assert Elements([c]) == {c};
    assert forall k :: 0 <= k < |EqArgs(env, c)| ==> EqArgs(env, c)[k] in ArgSet(env, {c});
  }

  /** The inner loop: append the hashes of one clause's non-constant arguments. */
  method AppendArgs(env: Env, args: seq<Node>, acc: seq<int>) returns (acc': seq<int>)
    ensures acc' == acc + SelectMap(args, ArgHash(env))
  {
    acc' := acc;
    for m := 0 to |args|
      invariant acc' == acc + SelectMap(args[..m], ArgHash(env))
    {
      assert args[..m + 1][..m] == args[..m];
      if !args[m].Const? {
        acc' := acc' + [NodeHash(env, args[m])];
      }
    }
    assert args[..|args|] == args;
  }

  /** The nested loops that collect the hashes of non-constant arguments. */
  method CollectArgs(env: Env, cs: seq<Node>) returns (acc: seq<int>)
    ensures acc == AllArgs(env, cs)
  {
    acc := [];
    for l := 0 to |cs|
      invariant acc == AllArgs(env, cs[..l])
    {
      assert cs[..l + 1][..l] == cs[..l];
      if IsEqClause(cs[l]) {
        acc := AppendArgs(env, cs[l].args, acc);
      }
    }
    assert cs[..|cs|] == cs;
  }

  /** After `i` entries of the sorted `was` the first `w` of `a` are the distinct ones. */
  ghost predicate Deduped(was: seq<int>, a: seq<int>, i: nat, w: nat) {
    && |a| == |was| && 1 <= w <= i <= |was|
    && a[i - 1..] == was[i - 1..] && a[w - 1] == was[i - 1]
    && Lists(a[..w], Elements(was[..i]))
  }

  lemma SkipRepeated(was: seq<int>, a: seq<int>, i: nat, w: nat)
    requires Deduped(was, a, i, w) && i < |was| && was[i] == was[i - 1]
    ensures Deduped(was, a, i + 1, w)
  {
    assert was[..i + 1] == was[..i] + [was[i]];
    ElementsConcat(was[..i], [was[i]]);
    assert was[..i][i - 1] in Elements(was[..i]);
    assert a[i..] == a[i - 1..][1..] == was[i - 1..][1..] == was[i..];
  }

  lemma KeepNew(was: seq<int>, a: seq<int>, i: nat, w: nat)
    requires Deduped(was, a, i, w) && i < |was| && SortedBy(was, IntLe) && was[i] != was[i - 1]
    ensures Deduped(was, a[w := a[i]], i + 1, w + 1)
  {
    var a' := a[w := a[i]];
    assert a[i] == a[i - 1..][1] == was[i];
    assert was[..i + 1] == was[..i] + [was[i]];
    ElementsConcat(was[..i], [was[i]]);
    assert forall k :: 0 <= k < i ==> IntLe(was[k], was[i - 1]) || k == i - 1;
    assert IntLe(was[i - 1], was[i]);
    ListsGrow(a[..w], Elements(was[..i]), was[i]);
    assert a'[..w + 1] == a[..w] + [was[i]];
    assert a'[i..] == a[i - 1..][1..] == was[i - 1..][1..] == was[i..];
  }

  /** In-place removal of repeated neighbours from a sorted array. */
  method Dedupe(a: array<int>) returns (n: nat)
    requires SortedBy(a[..], IntLe)
    modifies a
    ensures n <= a.Length
    ensures Lists(a[..n], Elements(old(a[..])))
  {
    if a.Length == 0 {
      n := 0;
      return;
    }
    ghost var was := a[..];
    assert was[..1] == [was[0]];
    var i, sh := 1, 0;
    while i < a.Length
      invariant 0 <= sh < i <= a.Length && Deduped(was, a[..], i, i - sh)
    {
      sh := DedupeOne(a, i, sh, was);
      i := i + 1;
    }
    assert was[..i] == was;
    n := i - sh;
    assert a[..n] == a[..][..n];
  }

  method DedupeOne(a: array<int>, i: nat, sh: nat, ghost was: seq<int>) returns (sh': nat)
    requires sh < i < a.Length && SortedBy(was, IntLe) && Deduped(was, a[..], i, i - sh)
    modifies a
    ensures sh' <= i && Deduped(was, a[..], i + 1, i + 1 - sh')
  {
    ghost var now := a[..];
    assert now[i - 1] == now[i - 1..][0] == was[i - 1] && now[i] == now[i - 1..][1] == was[i];
    if a[i - 1] == a[i] {
      SkipRepeated(was, now, i, i - sh);
      sh' := sh + 1;
    } else {
      KeepNew(was, now, i, i - sh);
      a[i - sh] := a[i];
      assert a[..] == now[i - sh := now[i]];
      sh' := sh;
    }
  }

  /** `get_clauselist_args`: exactly the distinct argument hashes, in increasing order. */
  method GetClauselistArgs(env: Env, cs: seq<Node>) returns (args: seq<int>)
    ensures Lists(args, ArgSet(env, Elements(cs)))
  {
    var hashes := CollectArgs(env, cs);
    var a := new int[|hashes|](i requires 0 <= i < |hashes| => hashes[i]);
    assert a[..] == hashes;
    AllArgsElements(env, cs);
    QsortInts(a);
    var n := Dedupe(a);
    args := a[..n];
  }

  /** `bsearch` over the distinct argument hashes. */
  method FindId(x: int, args: seq<int>) returns (di: int)
    requires Increasing(args)
    ensures -1 <= di < |args|
    ensures di == -1 ==> x !in args
    ensures di != -1 ==> args[di] == x
  {
    var lo, hi := 0, |args|;
    while lo < hi
      invariant 0 <= lo <= hi <= |args|
      invariant forall i :: 0 <= i < lo ==> args[i] < x
      invariant forall i :: hi <= i < |args| ==> args[i] > x
    {
      var mid := (lo + hi) / 2;
      if args[mid] == x {
        return mid;
      } else if args[mid] < x {
        lo := mid + 1;
      } else {
        hi := mid;
      }
    }
    di := -1;
  }

  // ----- disjoint sets -----

  /**
   `p` is a forest of parent links (-1 at a root); `root` gives each node's root, and `depth`
   decreases along parent links.
   */
  ghost predicate Forest(p: seq<int>, root: seq<int>, depth: seq<nat>) {
    && |p| == |root| == |depth|
    && (forall v :: 0 <= v < |p| ==> 0 <= root[v] < |p| && p[root[v]] == -1)
    && (forall v :: 0 <= v < |p| && p[v] == -1 ==> root[v] == v)
    && (forall v :: 0 <= v < |p| && p[v] != -1 ==>
          0 <= p[v] < |p| && root[p[v]] == root[v] && depth[p[v]] < depth[v])
  }

  /** Find with path compression returns the root and changes no node's root. */
  method GetParent(p: array<int>, v: int, ghost root: seq<int>, ghost depth: seq<nat>) returns (r: int)
    requires Forest(p[..], root, depth) && 0 <= v < p.Length
    modifies p
    ensures Forest(p[..], root, depth)
    ensures r == root[v]
    ensures r == v || depth[r] < depth[v]
    decreases depth[v]
  {
    if p[v] == -1 {
      r := v;
    } else {
      r := GetParent(p, p[v], root, depth);
      assert root[r] == r by { assert p[..][root[v]] == -1; }
      p[v] := r;
    }
  }

  /** Two nodes share a root after the merge iff they did before, or their roots were merged. */
  ghost predicate Merged(before: seq<int>, after: seq<int>, v1: int, v2: int)
    requires |before| == |after| && 0 <= v1 < |before| && 0 <= v2 < |before|
  {
    forall i, j :: 0 <= i < |before| && 0 <= j < |before| ==>
      (after[i] == after[j] <==>
        || before[i] == before[j]
        || (before[i] == before[v1] && before[j] == before[v2])
        || (before[i] == before[v2] && before[j] == before[v1]))
  }

  method MergeEclasses(p: array<int>, v1: int, v2: int, ghost root: seq<int>, ghost depth: seq<nat>)
    returns (ghost root': seq<int>, ghost depth': seq<nat>)
    requires Forest(p[..], root, depth) && 0 <= v1 < p.Length && 0 <= v2 < p.Length
    modifies p
    ensures Forest(p[..], root', depth')
    ensures Merged(root, root', v1, v2)
  {
    var p1 := GetParent(p, v1, root, depth);
    var p2 := GetParent(p, v2, root, depth);
    root', depth' := root, depth;
    if p1 != p2 {
      ghost var was := p[..];
      if (v1 + v2) % 2 == 1 {
        p[p1] := p2;
        assert p[..] == was[p1 := p2];
        root', depth' := LinkRoots(was, root, depth, p1, p2);
      } else {
        p[p2] := p1;
        assert p[..] == was[p2 := p1];
        root', depth' := LinkRoots(was, root, depth, p2, p1);
      }
    }
  }

  /** Hanging root `a` below root `b`, whichever way round. */
  lemma LinkRoots(p: seq<int>, root: seq<int>, depth: seq<nat>, a: int, b: int)
    returns (root': seq<int>, depth': seq<nat>)
    requires Forest(p, root, depth)
    requires 0 <= a < |p| && 0 <= b < |p| && p[a] == -1 && p[b] == -1 && a != b
    ensures Forest(p[a := b], root', depth')
    ensures forall v :: 0 <= v < |p| ==> root'[v] == if root[v] == a then b else root[v]
  {
    root' := seq(|p|, v requires 0 <= v < |p| => if root[v] == a then b else root[v]);
    depth' := seq(|p|, v requires 0 <= v < |p| => if root[v] == a then depth[v] + depth[b] + 1 else depth[v]);
  }

  // ----- perform_eclasses_join -----

  /** Sharing a root is being linked. */
  ghost predicate Represents(root: seq<int>, es: set<(int, int)>, args: seq<int>) {
    && |root| == |args|
    && forall i, j :: 0 <= i < |args| && 0 <= j < |args| ==> (root[i] == root[j] <==> Linked(es, args[i], args[j]))
  }

  ghost predicate EdgesAmong(es: set<(int, int)>, args: seq<int>) {
    forall e :: e in es ==> e.0 in args && e.1 in args
  }

  /** A path stays within one tree when every edge does. */
  lemma {:induction false} PathKeepsRoot(es: set<(int, int)>, args: seq<int>, root: seq<int>, path: seq<int>, i: int, j: int)
    requires |root| == |args| && Increasing(args) && EdgesAmong(es, args)
    requires forall k, l :: 0 <= k < |args| && 0 <= l < |args| && (args[k], args[l]) in es ==> root[k] == root[l]
    requires 0 <= i < |args| && 0 <= j < |args| && IsPath(es, path, args[i], args[j])
    ensures root[i] == root[j]
    decreases |path|
  {
    if |path| > 1 {
      assert Adjacent(es, path[0], path[1]);
      assert path[1] in args;
      var m :| 0 <= m < |args| && args[m] == path[1];
      assert root[i] == root[m];
      var rest := path[1..];
      assert forall k :: 0 < k < |rest| ==> rest[k] == path[k + 1] && Adjacent(es, path[k], path[k + 1]);
      assert IsPath(es, rest, args[m], args[j]);
      PathKeepsRoot(es, args, root, rest, m, j);
    }
  }

  lemma {:induction false} MergeRepresents(root: seq<int>, root': seq<int>, es: set<(int, int)>, args: seq<int>, v1: int, v2: int)
    requires Increasing(args) && EdgesAmong(es, args) && Represents(root, es, args)
    requires |root'| == |root| && 0 <= v1 < |args| && 0 <= v2 < |args| && Merged(root, root', v1, v2)
    ensures Represents(root', es + {(args[v2], args[v1])}, args)
  {
    var fs := es + {(args[v2], args[v1])};
    forall i, j | 0 <= i < |args| && 0 <= j < |args| && root'[i] == root'[j] ensures Linked(fs, args[i], args[j]) {
      MergedLinked(root, es, args, v1, v2, i, j);
    }
    forall k, l | 0 <= k < |args| && 0 <= l < |args| && (args[k], args[l]) in fs ensures root'[k] == root'[l] {
      if (args[k], args[l]) in es {
        LinkedEdge(es, args[k], args[l]);
      }
    }
    forall i, j | 0 <= i < |args| && 0 <= j < |args| && Linked(fs, args[i], args[j]) ensures root'[i] == root'[j] {
      var path :| IsPath(fs, path, args[i], args[j]);
      PathKeepsRoot(fs, args, root', path, i, j);
    }
  }

  lemma MergedLinked(root: seq<int>, es: set<(int, int)>, args: seq<int>, v1: int, v2: int, i: int, j: int)
    requires Represents(root, es, args)
    requires 0 <= v1 < |args| && 0 <= v2 < |args| && 0 <= i < |args| && 0 <= j < |args|
    requires root[i] == root[j] || (root[i] == root[v1] && root[j] == root[v2]) || (root[i] == root[v2] && root[j] == root[v1])
    ensures Linked(es + {(args[v2], args[v1])}, args[i], args[j])
  {
    var fs := es + {(args[v2], args[v1])};
    if root[i] == root[j] {
      LinkedMonotone(es, fs, args[i], args[j]);
    } else {
      var (a, b) := if root[i] == root[v1] then (v1, v2) else (v2, v1);
      LinkedMonotone(es, fs, args[i], args[a]);
      LinkedMonotone(es, fs, args[b], args[j]);
      LinkedEdge(fs, args[a], args[b]);
      LinkedTransitive(fs, args[i], args[a], args[b]);
      LinkedTransitive(fs, args[i], args[b], args[j]);
    }
  }

  lemma NothingMerged(args: seq<int>, root: seq<int>)
    requires Increasing(args) && |root| == |args| && forall v :: 0 <= v < |root| ==> root[v] == v
    ensures Represents(root, {}, args)
  {
    forall i, j | 0 <= i < |args| && 0 <= j < |args| ensures root[i] == root[j] <==> Linked({}, args[i], args[j]) {
      if i == j {
        LinkedReflexive({}, args[i]);
      }
      if Linked({}, args[i], args[j]) {
        var path :| IsPath({}, path, args[i], args[j]);
        PathKeepsRoot({}, args, root, path, i, j);
      }
    }
  }

  lemma EdgesConcat(env: Env, a: set<Node>, b: set<Node>)
    ensures Edges(env, a + b) == Edges(env, a) + Edges(env, b)
  {}

  /** The disjoint sets in `p` stand for the links `es` among `args`. */
  ghost predicate Joined(p: seq<int>, root: seq<int>, depth: seq<nat>, es: set<(int, int)>, args: seq<int>) {
    Forest(p, root, depth) && Represents(root, es, args) && EdgesAmong(es, args)
  }

  /** One more link. */
  method JoinArgs(p: array<int>, i2: int, i3: int, args: seq<int>, ghost es: set<(int, int)>,
                  ghost root: seq<int>, ghost depth: seq<nat>)
    returns (ghost root': seq<int>, ghost depth': seq<nat>)
    requires Increasing(args) && p.Length == |args| && 0 <= i2 < |args| && 0 <= i3 < |args|
    requires Joined(p[..], root, depth, es, args)
    modifies p
    ensures Joined(p[..], root', depth', es + {(args[i3], args[i2])}, args)
  {
    root', depth' := MergeEclasses(p, i2, i3, root, depth);
    MergeRepresents(root, root', es, args, i2, i3);
  }

  /** The links of one clause, joined while its arguments are read. */
  method JoinClause(env: Env, c: Node, args: seq<int>, p: array<int>, ghost es: set<(int, int)>,
                    ghost root0: seq<int>, ghost depth0: seq<nat>)
    returns (ghost root: seq<int>, ghost depth: seq<nat>)
    requires IsEqClause(c) && Increasing(args) && p.Length == |args|
    requires Elements(EqArgs(env, c)) <= Elements(args)
    requires Joined(p[..], root0, depth0, es, args)
    modifies p
    ensures Joined(p[..], root, depth, es + Consecutive(EqArgs(env, c)), args)
  {
    root, depth := root0, depth0;
    var i3 := -1;
    ghost var read: seq<int> := [];
    assert es + Consecutive([]) == es;
    for l := 0 to |c.args|
      invariant read == SelectMap(c.args[..l], ArgHash(env))
      invariant if read == [] then i3 == -1 else 0 <= i3 < |args| && args[i3] == read[|read| - 1]
      invariant Joined(p[..], root, depth, es + Consecutive(read), args)
    {
      ReadOn(env, c, l, args);
      if !c.args[l].Const? {
        var h2 := NodeHash(env, c.args[l]);
        var i2 := FindId(h2, args);
        ConsecutiveGrows(es, read, h2);
        if i3 != -1 {
          root, depth := JoinArgs(p, i2, i3, args, es + Consecutive(read), root, depth);
        }
        i3 := i2;
        read := read + [h2];
      }
    }
    assert c.args[..|c.args|] == c.args;
  }

  lemma ReadOn(env: Env, c: Node, l: nat, args: seq<int>)
    requires IsEqClause(c) && l < |c.args| && Elements(EqArgs(env, c)) <= Elements(args)
    ensures SelectMap(c.args[..l + 1], ArgHash(env)) == SelectMap(c.args[..l], ArgHash(env)) +
      if c.args[l].Const? then [] else [NodeHash(env, c.args[l])]
    ensures !c.args[l].Const? ==> NodeHash(env, c.args[l]) in args
  {
    hide NodeHash;
    assert c.args[..l + 1][..l] == c.args[..l];
    assert c.args == c.args[..l + 1] + c.args[l + 1..];
    SelectMapConcat(c.args[..l + 1], c.args[l + 1..], ArgHash(env));
    if !c.args[l].Const? {
      assert EqArgs(env, c)[|SelectMap(c.args[..l], ArgHash(env))|] == NodeHash(env, c.args[l]);
      assert NodeHash(env, c.args[l]) in Elements(EqArgs(env, c));
    }
  }

  lemma {:induction false} ConsecutiveGrows(es: set<(int, int)>, read: seq<int>, h: int)
    ensures es + Consecutive(read + [h]) ==
      if read == [] then es + Consecutive(read) else es + Consecutive(read) + {(read[|read| - 1], h)}
  {
    assert (read + [h])[..|read|] == read;
  }

  /** `memset(p, -1, ...)`: every argument on its own. */
  method NewSets(args: seq<int>) returns (p: array<int>, ghost root: seq<int>, ghost depth: seq<nat>)
    requires Increasing(args)
    ensures fresh(p) && p.Length == |args| && Joined(p[..], root, depth, {}, args)
  {
    p := new int[|args|](_ => -1);
    root, depth := seq(|args|, v => v), seq(|args|, _ => 0);
    NothingMerged(args, root);
  }

  /** `perform_eclasses_join`: the disjoint sets are the linked arguments. */
  method PerformEclassesJoin(env: Env, cs: seq<Node>, args: seq<int>)
    returns (p: array<int>, ghost root: seq<int>, ghost depth: seq<nat>)
    requires Lists(args, ArgSet(env, Elements(cs)))
    ensures fresh(p) && p.Length == |args|
    ensures Joined(p[..], root, depth, Edges(env, Elements(cs)), args)
  {
    p, root, depth := NewSets(args);
    assert Edges(env, Elements(cs[..0])) == {};
    for l := 0 to |cs|
      invariant Joined(p[..], root, depth, Edges(env, Elements(cs[..l])), args)
    {
      EdgesOf(env, cs, l);
      ClauseArgsListed(env, cs, l, args);
      if IsEqClause(cs[l]) {
        root, depth := JoinClause(env, cs[l], args, p, Edges(env, Elements(cs[..l])), root, depth);
      }
    }
    assert cs[..|cs|] == cs;
  }

  lemma EdgesOf(env: Env, cs: seq<Node>, l: nat)
    requires l < |cs|
    ensures Edges(env, Elements(cs[..l + 1])) == Edges(env, Elements(cs[..l])) + Consecutive(EqArgs(env, cs[l]))
    ensures !IsEqClause(cs[l]) ==> Edges(env, Elements(cs[..l + 1])) == Edges(env, Elements(cs[..l]))
  {
    assert cs[..l + 1] == cs[..l] + [cs[l]];
    ElementsConcat(cs[..l], [cs[l]]);
    assert Elements([cs[l]]) == {cs[l]};
    EdgesConcat(env, Elements(cs[..l]), {cs[l]});
  }

  lemma ClauseArgsListed(env: Env, cs: seq<Node>, l: nat, args: seq<int>)
    requires l < |cs| && Lists(args, ArgSet(env, Elements(cs)))
    ensures Elements(EqArgs(env, cs[l])) <= Elements(args)
  {
    forall k | 0 <= k < |EqArgs(env, cs[l])| ensures EqArgs(env, cs[l])[k] in Elements(args) {
      assert cs[l] in Elements(cs);
      assert EqArgs(env, cs[l])[k] in ArgSet(env, Elements(cs));
    }
  }

  // ----- get_eclasses -----

  /** The members found so far of the class rooted at `v`. */
  ghost function Members(args: seq<int>, root: seq<int>, v: int, n: nat): seq<int>
    requires n <= |args| == |root|
  {
    if n == 0 then []
    else if root[n - 1] == v then Members(args, root, v, n - 1) + [args[n - 1]]
    else Members(args, root, v, n - 1)
  }

  lemma {:induction false} MembersAre(args: seq<int>, root: seq<int>, v: int, n: nat)
    requires n <= |args| == |root| && Increasing(args)
    ensures Increasing(Members(args, root, v, n))
    ensures Elements(Members(args, root, v, n)) == set i | 0 <= i < n && root[i] == v :: args[i]
  {
    if n > 0 {
      MembersAre(args, root, v, n - 1);
      var m := Members(args, root, v, n - 1);
      assert forall k :: 0 <= k < |m| ==> m[k] in Elements(m);
      ElementsConcat(m, [args[n - 1]]);
    }
  }

  /** The class list kept at a root is the class of any of its members. */
  lemma {:induction false} ClassOfRoot(env: Env, cs: set<Node>, args: seq<int>, root: seq<int>, i: int)
    requires Lists(args, ArgSet(env, cs)) && Represents(root, Edges(env, cs), args)
    requires 0 <= i < |args|
    ensures Lists(Members(args, root, root[i], |args|), Class(env, cs, args[i]))
  {
    var m := Members(args, root, root[i], |args|);
    MembersAre(args, root, root[i], |args|);
    assert Elements(m) == Class(env, cs, args[i]) by {
      forall j | 0 <= j < |args| ensures root[j] == root[i] <==> args[j] in Class(env, cs, args[i]) {
        assert args[j] in Elements(args);
      }
      assert forall x :: x in Class(env, cs, args[i]) ==> x in Elements(args);
    }
  }

  /** One argument is appended to the list kept at its root. */
  method AppendToClass(args: seq<int>, p: array<int>, lists: array<seq<int>>, i: nat, ghost root: seq<int>, ghost depth: seq<nat>)
    requires i < p.Length == lists.Length == |args| && Forest(p[..], root, depth)
    requires forall v :: 0 <= v < |args| ==> lists[v] == Members(args, root, v, i)
    modifies p, lists
    ensures Forest(p[..], root, depth)
    ensures forall v :: 0 <= v < |args| ==> lists[v] == Members(args, root, v, i + 1)
  {
    var v := GetParent(p, i, root, depth);
    lists[v] := lists[v] + [args[i]];
  }

  method CollectClasses(args: seq<int>, p: array<int>, ghost root: seq<int>, ghost depth: seq<nat>)
    returns (lists: array<seq<int>>)
    requires p.Length == |args| == |root| && Forest(p[..], root, depth)
    modifies p
    ensures fresh(lists) && lists.Length == |args| && Forest(p[..], root, depth)
    ensures forall v :: 0 <= v < |args| ==> lists[v] == Members(args, root, v, |args|)
  {
    hide Forest;
    lists := new seq<int>[|args|](_ => []);
    for i := 0 to |args|
      invariant Forest(p[..], root, depth)
      invariant forall v :: 0 <= v < |args| ==> lists[v] == Members(args, root, v, i)
    {
      AppendToClass(args, p, lists, i, root, depth);
    }
  }

  /** `e_hashes[disjoint_set_get_parent(p, i)]`. */
  method ArgEclass(env: Env, ghost cs: set<Node>, args: seq<int>, lists: array<seq<int>>, p: array<int>, i: int,
                   ghost root: seq<int>, ghost depth: seq<nat>)
    returns (h: int)
    requires Lists(args, ArgSet(env, cs)) && 0 <= i < |args| == p.Length == lists.Length
    requires Joined(p[..], root, depth, Edges(env, cs), args)
    requires forall v :: 0 <= v < |args| ==> lists[v] == Members(args, root, v, |args|)
    modifies p
    ensures Joined(p[..], root, depth, Edges(env, cs), args)
    ensures h == EclassHash(env, cs, args[i])
  {
    var v := GetParent(p, i, root, depth);
    MembersAre(args, root, v, |args|);
    SortIncreasing(lists[v]);
    ClassOfRoot(env, cs, args, root, i);
    ListsUnique(lists[v], Class(env, cs, args[i]));
    h := env.intsHash(SortInts(lists[v]));
  }

  ghost function ClassHashOf(env: Env, cs: set<Node>): int -> Option<int> { (h: int) => Some(EclassHash(env, cs, h)) }

  /** The class hashes of the arguments, in the order of the arguments. */
  ghost function ClassHashes(env: Env, cs: set<Node>, args: seq<int>): seq<int> {
    SelectMap(args, ClassHashOf(env, cs))
  }

  lemma ClassHashAt(env: Env, cs: set<Node>, args: seq<int>, i: nat)
    requires i < |args|
    ensures |ClassHashes(env, cs, args)| == |args|
    ensures ClassHashes(env, cs, args)[i] == EclassHash(env, cs, args[i])
  {
    SelectMapTotal(args, ClassHashOf(env, cs));
  }

  /** `get_eclasses`: every argument is paired with the hash of the arguments linked with it. */
  method GetEclasses(env: Env, cs: seq<Node>) returns (args: seq<int>, eclasses: seq<int>)
    ensures Lists(args, ArgSet(env, Elements(cs)))
    ensures eclasses == ClassHashes(env, Elements(cs), args)
  {
    args := GetClauselistArgs(env, cs);
    var p;
    ghost var root, depth;
    p, root, depth := PerformEclassesJoin(env, cs, args);
    var lists := CollectClasses(args, p, root, depth);
    eclasses := HashClasses(env, Elements(cs), args, lists, p, root, depth);
  }

  method HashClasses(env: Env, ghost cs: set<Node>, args: seq<int>, lists: array<seq<int>>, p: array<int>,
                     ghost root: seq<int>, ghost depth: seq<nat>)
    returns (eclasses: seq<int>)
    requires Lists(args, ArgSet(env, cs)) && |args| == |root| == p.Length == lists.Length
    requires Joined(p[..], root, depth, Edges(env, cs), args)
    requires forall v :: 0 <= v < |args| ==> lists[v] == Members(args, root, v, |args|)
    modifies p
    ensures eclasses == ClassHashes(env, cs, args)
  {
    hide Joined, Lists, Members;
    eclasses := [];
    for i := 0 to |args|
      invariant Joined(p[..], root, depth, Edges(env, cs), args)
      invariant eclasses == ClassHashes(env, cs, args[..i])
    {
      var h := ArgEclass(env, cs, args, lists, p, i, root, depth);
      assert args[..i + 1][..i] == args[..i];
      eclasses := eclasses + [h];
    }
    assert args[..|args|] == args;
  }

  /** With an injective list hash, two arguments get the same class hash iff they are linked. */
  lemma EclassHashSeparates(env: Env, cs: set<Node>, x: int, y: int)
    requires x in ArgSet(env, cs) && y in ArgSet(env, cs)
    requires forall s, t :: env.intsHash(s) == env.intsHash(t) ==> s == t
    ensures EclassHash(env, cs, x) == EclassHash(env, cs, y) <==> Linked(Edges(env, cs), x, y)
  {
    var es := Edges(env, cs);
    LinkedReflexive(es, y);
    if EclassHash(env, cs, x) == EclassHash(env, cs, y) {
      assert Ascending(Class(env, cs, x)) == Ascending(Class(env, cs, y));
      assert Class(env, cs, x) == Class(env, cs, y);
      assert y in Class(env, cs, y);
    }
    if Linked(es, x, y) {
      LinkedSameClass(env, cs, x, y);
    }
  }

  lemma LinkedSameClass(env: Env, cs: set<Node>, x: int, y: int)
    requires Linked(Edges(env, cs), x, y)
    ensures Class(env, cs, x) == Class(env, cs, y)
  {
    var es := Edges(env, cs);
    LinkedSymmetric(es, x, y);
    forall z | z in ArgSet(env, cs) ensures z in Class(env, cs, x) <==> z in Class(env, cs, y) {
      if Linked(es, x, z) { LinkedTransitive(es, y, x, z); }
      if Linked(es, y, z) { LinkedTransitive(es, x, y, z); }
    }
  }
}
