/**
 Sequences: order, sorting, permutations, counting and selection, shared by the components.

 `qsort` and `palloc` belong to the C library and to PostgreSQL, so `Qsort` promises only
 what the C standard does: the range ends up ordered and permuted.
 */
module Sorting {

  datatype Option<+T> = None | Some(value: T)

  ghost predicate TotalOrder<T(!new)>(le: (T, T) -> bool) {
    && (forall x :: le(x, x))
    && (forall x, y :: le(x, y) && le(y, x) ==> x == y)
    && (forall x, y, z :: le(x, y) && le(y, z) ==> le(x, z))
    && (forall x, y :: le(x, y) || le(y, x))
  }

  /** A preorder in which any two elements compare: all `qsort` needs of its comparator. */
  ghost predicate TotalPreorder<T(!new)>(le: (T, T) -> bool) {
    && (forall x, y, z :: le(x, y) && le(y, z) ==> le(x, z))
    && (forall x, y :: le(x, y) || le(y, x))
  }

  ghost predicate SortedBy<T(!new)>(s: seq<T>, le: (T, T) -> bool) {
    forall i, j :: 0 <= i < j < |s| ==> le(s[i], s[j])
  }

  predicate IntLe(x: int, y: int) { x <= y }

  predicate RealLe(x: real, y: real) { x <= y }

  function InsertInOrder<T(!new)>(x: T, s: seq<T>, le: (T, T) -> bool): (r: seq<T>)
    ensures multiset(r) == multiset(s) + multiset{x}
  {
    if s == [] || le(x, s[0]) then [x] + s
    else
      assert s == [s[0]] + s[1..];
      [s[0]] + InsertInOrder(x, s[1..], le)
  }

  lemma {:induction false} InsertKeepsSorted<T(!new)>(x: T, s: seq<T>, le: (T, T) -> bool)
    requires TotalPreorder(le) && SortedBy(s, le)
    ensures SortedBy(InsertInOrder(x, s, le), le)
  {
    if s != [] {
      if le(x, s[0]) {
        assert forall j :: 0 < j < |s| ==> le(s[0], s[j]) && le(x, s[j]);
      } else {
        var t := InsertInOrder(x, s[1..], le);
        InsertKeepsSorted(x, s[1..], le);
        forall j | 0 <= j < |t| ensures le(s[0], t[j]) {
          assert t[j] in multiset(t);
          assert t[j] == x || t[j] in s[1..];
        }
      }
    }
  }

  function SortBy<T(!new)>(s: seq<T>, le: (T, T) -> bool): (r: seq<T>)
    requires TotalPreorder(le)
    ensures SortedBy(r, le) && multiset(r) == multiset(s)
  {
    if s == [] then []
    else
      assert s == [s[0]] + s[1..];
      var t := SortBy(s[1..], le);
      InsertKeepsSorted(s[0], t, le);
      InsertInOrder(s[0], t, le)
  }

  /** Under a total order the sorted form of a multiset is unique. */
  lemma {:induction false} SortedUnique<T(!new)>(s: seq<T>, t: seq<T>, le: (T, T) -> bool)
    requires TotalOrder(le)
    requires SortedBy(s, le) && SortedBy(t, le) && multiset(s) == multiset(t)
    ensures s == t
  {
    assert |s| == |multiset(s)| == |multiset(t)| == |t|;
    if s != [] {
      SameFirst(s, t, le);
      WithoutFirst(s);
      WithoutFirst(t);
      SortedUnique(s[1..], t[1..], le);
    }
  }

  lemma SameFirst<T(!new)>(s: seq<T>, t: seq<T>, le: (T, T) -> bool)
    requires TotalOrder(le) && s != [] && t != []
    requires SortedBy(s, le) && SortedBy(t, le) && multiset(s) == multiset(t)
    ensures s[0] == t[0]
  {
    assert s[0] in multiset(t) && t[0] in multiset(s);
    assert le(s[0], t[0]) && le(t[0], s[0]);
  }

  lemma WithoutFirst<T>(s: seq<T>)
    requires s != []
    ensures s == [s[0]] + s[1..] && multiset(s[1..]) == multiset(s) - multiset{s[0]}
  {
    assert s == [s[0]] + s[1..];
  }

  /** Hence sorting forgets the order its input came in. */
  lemma {:induction false} SortForgetsOrder<T(!new)>(s: seq<T>, t: seq<T>, le: (T, T) -> bool)
    requires TotalOrder(le)
    requires multiset(s) == multiset(t)
    ensures SortBy(s, le) == SortBy(t, le)
  {
    SortedUnique(SortBy(s, le), SortBy(t, le), le);
  }

  /** `qsort(&a[lo], hi - lo, ...)`. */
  method Qsort<T(!new)>(a: array<T>, lo: nat, hi: nat, le: (T, T) -> bool)
    requires lo <= hi <= a.Length
    requires TotalPreorder(le)
    modifies a
    ensures SortedBy(a[lo..hi], le)
    ensures multiset(a[lo..hi]) == multiset(old(a[lo..hi]))
    ensures a[..lo] == old(a[..lo]) && a[hi..] == old(a[hi..])
  {
    var s := SortBy(a[lo..hi], le);
    assert |s| == |multiset(s)| == |multiset(a[lo..hi])| == hi - lo;
    WriteBack(a, lo, hi, s);
  }

  method WriteBack<T>(a: array<T>, lo: nat, hi: nat, s: seq<T>)
    requires lo <= hi <= a.Length && |s| == hi - lo
    modifies a
    ensures a[lo..hi] == s && a[..lo] == old(a[..lo]) && a[hi..] == old(a[hi..])
  {
    forall i | lo <= i < hi { a[i] := s[i - lo]; }
  }

  /** The elements at the given offsets. */
  function Picked<T>(s: seq<T>, offsets: seq<nat>): (r: seq<T>)
    requires forall j :: 0 <= j < |offsets| ==> offsets[j] < |s|
    ensures |r| == |offsets| && forall j :: 0 <= j < |r| ==> r[j] == s[offsets[j]]
  {
    seq(|offsets|, j requires 0 <= j < |offsets| => s[offsets[j]])
  }

  // ----- counting -----

  ghost predicate Distinct<T(!new)>(s: seq<T>) { forall i, j :: 0 <= i < j < |s| ==> s[i] != s[j] }

  /** The numbers below `n`. */
  ghost function Upto(n: nat): (r: set<nat>)
    ensures forall x: nat :: x in r <==> x < n
  {
    if n == 0 then {} else Upto(n - 1) + {n - 1}
  }

  lemma {:induction false} UptoCount(n: nat)
    ensures |Upto(n)| == n
  {
    if n > 0 { UptoCount(n - 1); }
  }

  lemma {:induction false} DistinctCount<T(!new)>(s: seq<T>)
    requires Distinct(s)
    ensures |Elements(s)| == |s|
  {
    if s != [] {
      var (front, last) := (s[..|s| - 1], s[|s| - 1]);
      DistinctCount(front);
      assert last !in front;
      assert s == front + [last];
      assert Elements(s) == Elements(front) + {last} && last !in Elements(front);
    }
  }

  lemma {:induction false} ElementsCount<T(!new)>(s: seq<T>)
    ensures |Elements(s)| <= |s|
    ensures |Elements(s)| == |s| ==> Distinct(s)
  {
    if s != [] {
      var (front, last) := (s[..|s| - 1], s[|s| - 1]);
      ElementsCount(front);
      assert s == front + [last];
      assert Elements(s) == Elements(front) + {last};
    }
  }

  lemma SubsetCount<T>(a: set<T>, b: set<T>)
    requires a <= b
    ensures |a| <= |b|
  {
    assert b == a + (b - a);
  }

  /** A sequence longer than a set it draws on repeats an element. */
  lemma Pigeonhole<T(!new)>(s: seq<T>, all: set<T>) returns (i: nat, j: nat)
    requires |s| > |all| && forall k :: 0 <= k < |s| ==> s[k] in all
    ensures i < j < |s| && s[i] == s[j]
  {
    if Distinct(s) {
      DistinctCount(s);
      SubsetCount(Elements(s), all);
    }
    i, j :| 0 <= i < j < |s| && s[i] == s[j];
  }

  // ----- strictly increasing integer sequences -----

  ghost predicate Increasing(s: seq<int>) {
    forall i, j :: 0 <= i < j < |s| ==> s[i] < s[j]
  }

  ghost function Elements<T>(s: seq<T>): set<T> { set x | x in s }

  /** `s` lists the set `xs` in increasing order. */
  ghost predicate Lists(s: seq<int>, xs: set<int>) { Increasing(s) && Elements(s) == xs }

  lemma ElementsConcat<T>(s: seq<T>, t: seq<T>)
    ensures Elements(s + t) == Elements(s) + Elements(t)
  {}

  ghost function Pick<T>(xs: set<T>): (x: T)
    requires xs != {}
    ensures x in xs
  {
    var x :| x in xs; x
  }

  /** The elements of a finite set of integers, in increasing order. */
  ghost function Ascending(xs: set<int>): (r: seq<int>)
    ensures Lists(r, xs)
  {
    if xs == {} then []
    else
      var m := Maximum(xs);
      var r := Ascending(xs - {m});
      ListsGrow(r, xs - {m}, m);
      assert xs - {m} + {m} == xs;
      r + [m]
  }

  lemma ListsGrow(r: seq<int>, xs: set<int>, m: int)
    requires Lists(r, xs) && forall x :: x in xs ==> x < m
    ensures Lists(r + [m], xs + {m})
  {
    assert forall i :: 0 <= i < |r| ==> r[i] in Elements(r);
    ElementsConcat(r, [m]);
  }

  ghost function Maximum(xs: set<int>): (m: int)
    requires xs != {}
    ensures m in xs && forall x :: x in xs ==> x <= m
  {
    var y := Pick(xs);
    if xs == {y} then y
    else
      var m := Maximum(xs - {y});
      assert forall x :: x in xs ==> x == y || x in xs - {y};
      if m < y then y else m
  }

  /** Increasing sequences with the same elements are the same sequence. */
  lemma {:induction false} IncreasingUnique(s: seq<int>, t: seq<int>)
    requires Increasing(s) && Increasing(t) && Elements(s) == Elements(t)
    ensures s == t
  {
    assert s != [] ==> s[0] in Elements(s);
    assert t != [] ==> t[0] in Elements(t);
    if s != [] {
      assert s[|s| - 1] in Elements(t) && t[|t| - 1] in Elements(s);
      var u, v := s[..|s| - 1], t[..|t| - 1];
      assert s == u + [s[|s| - 1]] && t == v + [t[|t| - 1]];
      assert Elements(u) == Elements(s) - {s[|s| - 1]};
      assert Elements(v) == Elements(t) - {t[|t| - 1]};
      IncreasingUnique(u, v);
    }
  }

  lemma {:induction false} ListsUnique(s: seq<int>, xs: set<int>)
    requires Lists(s, xs)
    ensures s == Ascending(xs)
  {
    IncreasingUnique(s, Ascending(xs));
  }

  lemma IntLeIsTotal()
    ensures TotalOrder(IntLe) && TotalPreorder(IntLe)
  {}

  function SortInts(s: seq<int>): (r: seq<int>)
    ensures SortedBy(r, IntLe) && multiset(r) == multiset(s)
  {
    IntLeIsTotal();
    SortBy(s, IntLe)
  }

  lemma SortIntsForgetsOrder(s: seq<int>, t: seq<int>)
    requires multiset(s) == multiset(t)
    ensures SortInts(s) == SortInts(t)
  {
    IntLeIsTotal();
    SortForgetsOrder(s, t, IntLe);
  }

  /** Sorting an increasing sequence changes nothing. */
  lemma SortIncreasing(s: seq<int>)
    requires Increasing(s)
    ensures SortInts(s) == s
  {
    IntLeIsTotal();
    SortedUnique(SortBy(s, IntLe), s, IntLe);
  }

  lemma SameElements<T>(s: seq<T>, t: seq<T>)
    requires multiset(s) == multiset(t)
    ensures Elements(s) == Elements(t)
  {
    assert forall x :: x in s <==> x in multiset(s);
    assert forall x :: x in t <==> x in multiset(t);
  }

  /** `qsort(a, n, sizeof(*a), int_cmp)`. */
  method QsortInts(a: array<int>)
    modifies a
    ensures SortedBy(a[..], IntLe)
    ensures multiset(a[..]) == multiset(old(a[..])) && Elements(a[..]) == Elements(old(a[..]))
  {
    ghost var was := a[..];
    assert a[0..a.Length] == was;
    IntLeIsTotal();
    Qsort(a, 0, a.Length, IntLe);
    assert a[0..a.Length] == a[..];
    SameElements(a[..], was);
  }

  lemma RealLeIsTotal()
    ensures TotalOrder(RealLe) && TotalPreorder(RealLe)
  {}

  /** `t` is `s` with positions `lo..hi` put in order. */
  ghost predicate SortedRange(s: seq<real>, t: seq<real>, lo: nat, hi: nat)
    requires lo <= hi <= |s| == |t|
  {
    && SortedBy(t[lo..hi], RealLe) && multiset(t[lo..hi]) == multiset(s[lo..hi])
    && t[..lo] == s[..lo] && t[hi..] == s[hi..]
  }

  /** `qsort(&a[lo], hi - lo, sizeof(*a), double_cmp)`. */
  method QsortReals(a: array<real>, lo: nat, hi: nat)
    requires lo <= hi <= a.Length
    modifies a
    ensures SortedRange(old(a[..]), a[..], lo, hi)
  {
    ghost var was := a[..];
    assert was[lo..hi] == a[lo..hi] && was[..lo] == a[..lo] && was[hi..] == a[hi..];
    RealLeIsTotal();
    Qsort(a, lo, hi, RealLe);
    assert a[..][lo..hi] == a[lo..hi] && a[..][..lo] == a[..lo] && a[..][hi..] == a[hi..];
  }

  // ----- select and map, independent of order -----

  function SelectMap<T, U>(s: seq<T>, f: T -> Option<U>): (r: seq<U>)
    ensures |r| <= |s|
  {
    if s == [] then []
    else
      var r := SelectMap(s[..|s| - 1], f);
      match f(s[|s| - 1])
      case None => r
      case Some(u) => r + [u]
  }

  lemma {:induction false} SelectMapConcat<T, U>(s: seq<T>, t: seq<T>, f: T -> Option<U>)
    ensures SelectMap(s + t, f) == SelectMap(s, f) + SelectMap(t, f)
    decreases |t|
  {
    if t == [] {
      assert s + t == s;
    } else {
      assert (s + t)[..|s + t| - 1] == s + t[..|t| - 1];
      SelectMapConcat(s, t[..|t| - 1], f);
    }
  }

  lemma MultisetMiddle<T>(a: seq<T>, x: seq<T>, b: seq<T>)
    ensures multiset(a + (x + b)) == multiset(a + b) + multiset(x)
  {}

  /** Taking out one element takes out its image. */
  lemma {:induction false} SelectMapRemove<T, U>(a: seq<T>, x: seq<T>, b: seq<T>, f: T -> Option<U>)
    ensures multiset(SelectMap(a + (x + b), f)) == multiset(SelectMap(a + b, f)) + multiset(SelectMap(x, f))
  {
    SelectMapConcat(a, x + b, f);
    SelectMapConcat(x, b, f);
    SelectMapConcat(a, b, f);
    MultisetMiddle(SelectMap(a, f), SelectMap(x, f), SelectMap(b, f));
  }

  lemma SplitAt<T>(t: seq<T>, k: nat)
    requires k < |t|
    ensures t == t[..k] + ([t[k]] + t[k + 1..])
    ensures multiset(t[..k] + t[k + 1..]) == multiset(t) - multiset{t[k]}
  {
    assert t == t[..k] + ([t[k]] + t[k + 1..]);
    MultisetMiddle(t[..k], [t[k]], t[k + 1..]);
  }

  /** Selecting and mapping permuted inputs gives permuted outputs. */
  lemma {:induction false} SelectMapPermutes<T, U>(s: seq<T>, t: seq<T>, f: T -> Option<U>)
    requires multiset(s) == multiset(t)
    ensures multiset(SelectMap(s, f)) == multiset(SelectMap(t, f))
    decreases |s|
  {
    if s == [] {
      assert |t| == |multiset(t)| == 0;
    } else {
      var x := s[0];
      assert x in multiset(t);
      var k :| 0 <= k < |t| && t[k] == x;
      SplitAt(s, 0);
      SplitAt(t, k);
      SelectMapPermutes(s[..0] + s[1..], t[..k] + t[k + 1..], f);
      SelectMapRemove(s[..0], [x], s[1..], f);
      SelectMapRemove(t[..k], [x], t[k + 1..], f);
    }
  }

  /** A total map keeps every position. */
  lemma {:induction false} SelectMapTotal<T, U>(s: seq<T>, f: T -> Option<U>)
    requires forall i :: 0 <= i < |s| ==> f(s[i]).Some?
    ensures |SelectMap(s, f)| == |s|
    ensures forall i :: 0 <= i < |s| ==> SelectMap(s, f)[i] == f(s[i]).value
  {
    if s != [] {
      SelectMapTotal(s[..|s| - 1], f);
    }
  }

  // ----- how often -----

  ghost function Count<T(!new)>(s: seq<T>, p: T -> bool): nat {
    if s == [] then 0 else Count(s[..|s| - 1], p) + if p(s[|s| - 1]) then 1 else 0
  }

  lemma {:induction false} SelectMapCount<T(!new), U(!new)>(s: seq<T>, f: T -> Option<U>, u: U, p: T -> bool)
    requires forall x :: p(x) <==> f(x) == Some(u)
    ensures multiset(SelectMap(s, f))[u] == Count(s, p)
  {
    if s != [] { SelectMapCount(s[..|s| - 1], f, u, p); }
  }

  lemma {:induction false} SelectMapSize<T(!new), U>(s: seq<T>, f: T -> Option<U>, p: T -> bool)
    requires forall x :: p(x) <==> f(x).Some?
    ensures |SelectMap(s, f)| == Count(s, p)
  {
    if s != [] { SelectMapSize(s[..|s| - 1], f, p); }
  }

  /** Counting images is counting what they are images of. */
  lemma {:induction false} CountMap<T(!new), U(!new)>(s: seq<T>, f: T -> Option<U>, p: T -> bool, q: U -> bool)
    requires forall x :: f(x).Some? && (p(x) <==> q(f(x).value))
    ensures Count(SelectMap(s, f), q) == Count(s, p)
  {
    if s != [] {
      var (front, r) := (s[..|s| - 1], SelectMap(s, f));
      CountMap(front, f, p, q);
      assert r[..|r| - 1] == SelectMap(front, f);
    }
  }

  lemma {:induction false} CountSum<T(!new)>(s: seq<T>, r: T -> bool, p: T -> bool, q: T -> bool)
    requires forall x :: (r(x) <==> p(x) || q(x)) && !(p(x) && q(x))
    ensures Count(s, r) == Count(s, p) + Count(s, q)
  {
    if s != [] { CountSum(s[..|s| - 1], r, p, q); }
  }

  lemma {:induction false} CountSame<T(!new)>(s: seq<T>, p: T -> bool, q: T -> bool)
    requires forall x :: p(x) <==> q(x)
    ensures Count(s, p) == Count(s, q)
  {
    if s != [] { CountSame(s[..|s| - 1], p, q); }
  }
}
