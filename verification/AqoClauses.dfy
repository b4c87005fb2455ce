/**
 Clauses, node hashes and equivalence classes of clause arguments (contrib/aqo/hash.c).

 `hash_any`, `log` and the text of a Param node are parameters (`Env`).  A node prints as its
 own text around the text of its arguments; a Const prints as "{CONST" text "}".
 */
module AqoClauses {
  import opened Sorting
  import opened AqoText

  datatype Tag = OpExpr | DistinctExpr | NullIfExpr | ScalarArrayOpExpr | OtherExpr

  datatype Node =
    | Const(text: string)
    | Param(id: int)
    | Leaf(text: string)
    | Expr(tag: Tag, opno: int, head: string, args: seq<Node>, tail: string)

  datatype Env = Env(paramText: int -> string, strHash: string -> int,
                     intsHash: seq<int> -> int, log: real -> real)

  /** The operator numbers `clause_is_eq_clause` accepts. */
  const EQ_OPERATORS: set<int> := {
    96, 91, 98, 387, 1070, 2988, 15, 92, 93, 94, 352, 353, 385, 386, 410, 416, 503, 532, 533, 560,
    566, 607, 649, 620, 670, 792, 811, 900, 1093, 1108, 1550, 1120, 1130, 1320, 1330, 1500, 1535,
    1616, 1220, 1201, 1752, 1784, 1804, 1862, 1868, 1955, 2060, 2542, 2972, 3222, 3516, 3629, 3676,
    3882, 3240 }

  /** `get_clause_args_ptr` is not NULL. */
  predicate HasArgs(c: Node) { c.Expr? && c.tag != OtherExpr }

  predicate IsEqClause(c: Node) { HasArgs(c) && c.opno in EQ_OPERATORS }

  predicate HasConsts(args: seq<Node>) { exists i :: 0 <= i < |args| && args[i].Const? }

  function Show(env: Env, n: Node): string {
    match n
    case Const(text) => CONST_PATTERN + text + "}"
    case Param(id) => env.paramText(id)
    case Leaf(text) => text
    case Expr(_, _, head, args, tail) => head + ShowAll(env, args) + tail
  }

  function ShowAll(env: Env, args: seq<Node>): string {
    if args == [] then "" else Show(env, args[0]) + " " + ShowAll(env, args[1..])
  }

  /** `remove_varnoold(remove_varno(remove_locations(remove_consts(s))))`. */
  function Strip(s: string): string {
    Scrub(Scrub(Scrub(Scrub(s, CONST_PATTERN, IsBrace, 0),
                      LOCATION_PATTERN, IsBrace, 0), VARNO_PATTERN, IsColon, 0),
          VARNOOLD_PATTERN, IsColon, 0)
  }

  /** `get_node_hash`. */
  function NodeHash(env: Env, n: Node): int { env.strHash(Strip(Show(env, n))) }

  // ----- specification: arguments, links and classes -----

  function ArgHash(env: Env): Node -> Option<int> {
    (n: Node) => if n.Const? then None else Some(NodeHash(env, n))
  }

  /** Hashes of the non-constant arguments of an equality clause, in order. */
  function EqArgs(env: Env, c: Node): seq<int> {
    if IsEqClause(c) then SelectMap(c.args, ArgHash(env)) else []
  }

  ghost function ArgSet(env: Env, cs: set<Node>): set<int> {
    set c, k | c in cs && 0 <= k < |EqArgs(env, c)| :: EqArgs(env, c)[k]
  }

  /** The pairs of neighbours in a sequence. */
  ghost function Consecutive(s: seq<int>): set<(int, int)> {
    if |s| < 2 then {} else Consecutive(s[..|s| - 1]) + {(s[|s| - 2], s[|s| - 1])}
  }

  ghost function Edges(env: Env, cs: set<Node>): set<(int, int)> {
    set c, e | c in cs && e in Consecutive(EqArgs(env, c)) :: e
  }

  ghost predicate Adjacent(es: set<(int, int)>, x: int, y: int) { (x, y) in es || (y, x) in es }

  ghost predicate IsPath(es: set<(int, int)>, path: seq<int>, x: int, y: int) {
    && |path| > 0 && path[0] == x && path[|path| - 1] == y
    && forall k :: 0 < k < |path| ==> Adjacent(es, path[k - 1], path[k])
  }

  /** The equivalence closure of the edges. */
  ghost predicate Linked(es: set<(int, int)>, x: int, y: int) { exists path :: IsPath(es, path, x, y) }

  /** The arguments linked with `h`. */
  ghost function Class(env: Env, cs: set<Node>, h: int): set<int> {
    set x | x in ArgSet(env, cs) && Linked(Edges(env, cs), h, x)
  }

  ghost function EclassHash(env: Env, cs: set<Node>, h: int): int {
    env.intsHash(Ascending(Class(env, cs, h)))
  }

  // ----- links form an equivalence -----

  lemma LinkedReflexive(es: set<(int, int)>, x: int)
    ensures Linked(es, x, x)
  {
    assert IsPath(es, [x], x, x);
  }

  lemma LinkedSymmetric(es: set<(int, int)>, x: int, y: int)
    requires Linked(es, x, y)
    ensures Linked(es, y, x)
  {
    var path :| IsPath(es, path, x, y);
    var n := |path|;
    var back := seq(n, i requires 0 <= i < n => path[n - 1 - i]);
    forall k | 0 < k < n ensures Adjacent(es, back[k - 1], back[k]) {
      var m := n - k;
      assert Adjacent(es, path[m - 1], path[m]);
    }
    assert IsPath(es, back, y, x);
  }

  lemma LinkedTransitive(es: set<(int, int)>, x: int, y: int, z: int)
    requires Linked(es, x, y) && Linked(es, y, z)
    ensures Linked(es, x, z)
  {
    var p :| IsPath(es, p, x, y);
    var q :| IsPath(es, q, y, z);
    var r := p + q[1..];
    forall k | 0 < k < |r| ensures Adjacent(es, r[k - 1], r[k]) {
      if k >= |p| {
        var m := k - |p| + 1;
        assert r[k] == q[m] && r[k - 1] == q[m - 1];
        assert Adjacent(es, q[m - 1], q[m]);
      } else {
        assert Adjacent(es, p[k - 1], p[k]);
      }
    }
    assert IsPath(es, r, x, z);
  }

  lemma LinkedMonotone(es: set<(int, int)>, fs: set<(int, int)>, x: int, y: int)
    requires es <= fs && Linked(es, x, y)
    ensures Linked(fs, x, y)
  {
    var p :| IsPath(es, p, x, y);
    forall k | 0 < k < |p| ensures Adjacent(fs, p[k - 1], p[k]) {
      assert Adjacent(es, p[k - 1], p[k]);
    }
    assert IsPath(fs, p, x, y);
  }

  lemma LinkedEdge(es: set<(int, int)>, x: int, y: int)
    requires Adjacent(es, x, y)
    ensures Linked(es, x, y)
  {
    assert IsPath(es, [x, y], x, y);
  }

  // ----- constants do not matter -----

  /** Same node up to the text of constants. */
  ghost predicate Alike(m: Node, n: Node) {
    match (m, n)
    case (Const(s), Const(t)) => StopFree(s, IsBrace) && StopFree(t, IsBrace)
    case (Expr(a, o, h, xs, t), Expr(b, p, g, ys, u)) => a == b && o == p && h == g && t == u && AllAlike(xs, ys)
    case (Param(i), Param(j)) => i == j
    case (Leaf(s), Leaf(t)) => s == t
    case _ => false
  }

  ghost predicate AllAlike(xs: seq<Node>, ys: seq<Node>)
    decreases xs
  {
    |xs| == |ys| && (xs != [] ==> Alike(xs[0], ys[0]) && AllAlike(xs[1..], ys[1..]))
  }

  ghost predicate SameScrubbed(s: string, t: string) {
    Scrub(s, CONST_PATTERN, IsBrace, 0) == Scrub(t, CONST_PATTERN, IsBrace, 0)
  }

  lemma {:induction false} ConstsErased(env: Env, m: Node, n: Node, a: string, b: string)
    requires Alike(m, n)
    ensures SameScrubbed(a + Show(env, m) + b, a + Show(env, n) + b)
    decreases m
  {
    match m
    case Const(s) =>
      BracePatternsHaveNoInnerStop();
      var c := "}" + b;
      ScrubErases(a, CONST_PATTERN, s, n.text, c, IsBrace);
      assert a + Show(env, m) + b == a + CONST_PATTERN + s + c;
      assert a + Show(env, n) + b == a + CONST_PATTERN + n.text + c;
    case Expr(_, _, head, xs, tail) =>
      var (a', b') := (a + head, tail + b);
      AllConstsErased(env, xs, n.args, a', b');
      assert a + Show(env, m) + b == a' + ShowAll(env, xs) + b';
      assert a + Show(env, n) + b == a' + ShowAll(env, n.args) + b';
    case Param(_) =>
    case Leaf(_) =>
  }

  lemma {:induction false} AllConstsErased(env: Env, xs: seq<Node>, ys: seq<Node>, a: string, b: string)
    requires AllAlike(xs, ys)
    ensures SameScrubbed(a + ShowAll(env, xs) + b, a + ShowAll(env, ys) + b)
    decreases xs
  {
    if xs != [] {
      var (rest, rest') := (ShowAll(env, xs[1..]), ShowAll(env, ys[1..]));
      ConstsErased(env, xs[0], ys[0], a, " " + rest + b);
      AllConstsErased(env, xs[1..], ys[1..], a + Show(env, ys[0]) + " ", b);
      assert a + ShowAll(env, xs) + b == a + Show(env, xs[0]) + (" " + rest + b);
      assert a + Show(env, ys[0]) + (" " + rest + b) == a + Show(env, ys[0]) + " " + rest + b;
      assert a + ShowAll(env, ys) + b == a + Show(env, ys[0]) + " " + rest' + b;
    }
  }

  /** A node hash does not see the values of constants, however deeply they are nested. */
  lemma {:induction false} NodeHashIgnoresConsts(env: Env, m: Node, n: Node)
    requires Alike(m, n)
    ensures NodeHash(env, m) == NodeHash(env, n)
  {
    ConstsErased(env, m, n, "", "");
    assert "" + Show(env, m) + "" == Show(env, m) && "" + Show(env, n) + "" == Show(env, n);
  }
}
