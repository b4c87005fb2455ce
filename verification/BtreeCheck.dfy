/**
 The B-tree verifier of amcheck in `readonly` mode (contrib/amcheck/verify_nbtree.c).

 The verifier compares neighbours only.  The theorems say what its acceptance implies for a
 whole level, and when its walk along the right links ends.  The index is a fixed map of
 pages; walks are given a bound on their number of steps, and `Unfinished` means that the C
 code would still be running.
 */
module BtreeCheck {
  import opened Sorting

  const P_NONE: nat := 0
  const INVALID: nat := 0xffff_ffff

  /** A line pointer's tuple: its key and, on internal pages, the block it links to. */
  datatype Item = Item(key: int, down: nat)

  datatype Page = Page(leaf: bool, root: bool, meta: bool, deleted: bool, halfDead: bool, garbage: bool,
                       level: nat, prev: nat, next: nat, items: seq<Item>) {
    predicate Ignored() { deleted || halfDead }

    predicate Rightmost() { next == P_NONE }

    /** `P_FIRSTDATAKEY`, counting from 0: a page that is not rightmost starts with its high key. */
    function First(): nat { if Rightmost() then 0 else 1 }

    /** The first item that is not "negative infinity". */
    function FirstReal(): nat { if leaf then First() else First() + 1 }

    function RealItems(): seq<Item> { if FirstReal() < |items| then items[FirstReal()..] else [] }
  }

  /** The pages of the file, and the comparison of the operator class as `key <= item`. */
  datatype Index = Index(pages: seq<Page>, metaOk: bool, rootBlock: nat, rootLevel: nat, le: (int, int) -> bool)

  /** `palloc_btree_page`: the page, unless reading it raises an error. */
  function Load(index: Index, b: nat): Option<Page> {
    if b >= |index.pages| then None
    else
      var p := index.pages[b];
      if p.meta && b != 0 then None
      else if b == 0 && !(p.meta && index.metaOk) then None
      else if p.leaf && !p.deleted && p.level != 0 then None
      else if b != 0 && !p.leaf && !p.deleted && p.level == 0 then None
      else if !p.leaf && p.garbage then None
      else Some(p)
  }

  // ----- bt_right_page_check_scankey -----

  datatype Fetched = Failed | NoKey | KeyIs(key: int) | Looping

  /** The first real item of the first live page from block `b` on. */
  function FirstKeyFrom(index: Index, b: nat, fuel: nat): Fetched
    decreases fuel
  {
    if fuel == 0 then Looping
    else
      match Load(index, b)
      case None => Failed
      case Some(p) =>
        if p.Ignored() && !p.Rightmost() then FirstKeyFrom(index, p.next, fuel - 1)
        else if p.RealItems() != [] then KeyIs(p.RealItems()[0].key)
        else NoKey
  }

  function RightKey(index: Index, p: Page): Fetched {
    if p.Rightmost() then NoKey else FirstKeyFrom(index, p.next, |index.pages| + 1)
  }

  // ----- bt_downlink_check -----

  ghost predicate DownlinkOk(index: Index, item: Item) {
    && Load(index, item.down).Some?
    && var items := Load(index, item.down).value.RealItems();
       forall i :: 0 <= i < |items| ==> index.le(item.key, items[i].key)
  }

  method DownlinkCheck(index: Index, item: Item) returns (ok: bool)
    ensures ok == DownlinkOk(index, item)
  {
    var child := Load(index, item.down);
    if child.None? {
      return false;
    }
    var p := child.value;
    var offset := p.First();
    while offset < |p.items|
      invariant p.First() <= offset
      invariant forall i :: 0 <= i < |p.RealItems()| && p.FirstReal() + i < offset ==> index.le(item.key, p.RealItems()[i].key)
    {
      if (p.leaf || offset != p.First()) && !index.le(item.key, p.items[offset].key) {
        assert p.RealItems()[offset - p.FirstReal()] == p.items[offset];
        return false;
      }
      offset := offset + 1;
    }
    ok := true;
  }

  // ----- bt_target_page_check -----

  datatype Verdict = Good | Bad | Stuck

  /** The checks made on one real item of the target page. */
  ghost function ItemVerdict(index: Index, p: Page, o: nat): Verdict
    requires p.FirstReal() <= o < |p.items|
  {
    var key := p.items[o].key;
    if !p.Rightmost() && !index.le(key, p.items[0].key) then Bad
    else if o + 1 < |p.items| && !index.le(key, p.items[o + 1].key) then Bad
    else if o + 1 == |p.items| && RightKey(index, p).Looping? then Stuck
    else if o + 1 == |p.items| && RightKey(index, p).Failed? then Bad
    else if o + 1 == |p.items| && RightKey(index, p).KeyIs? && !index.le(key, RightKey(index, p).key) then Bad
    else if !p.leaf && !DownlinkOk(index, p.items[o]) then Bad
    else Good
  }

  ghost function ItemsVerdict(index: Index, p: Page, o: nat): Verdict
    requires p.FirstReal() <= o
    decreases |p.items| - o
  {
    if o >= |p.items| then Good
    else if ItemVerdict(index, p, o).Good? then ItemsVerdict(index, p, o + 1)
    else ItemVerdict(index, p, o)
  }

  ghost function PageVerdict(index: Index, p: Page): Verdict { ItemsVerdict(index, p, p.FirstReal()) }

  method ItemCheck(index: Index, p: Page, o: nat) returns (v: Verdict)
    requires p.FirstReal() <= o < |p.items|
    ensures v == ItemVerdict(index, p, o)
  {
    var key := p.items[o].key;
    if !p.Rightmost() && !index.le(key, p.items[0].key) {
      return Bad;
    }
    if o + 1 < |p.items| && !index.le(key, p.items[o + 1].key) {
      return Bad;
    } else if o + 1 == |p.items| {
      var right := RightKey(index, p);
      if right.Looping? {
        return Stuck;
      }
      if right.Failed? || (right.KeyIs? && !index.le(key, right.key)) {
        return Bad;
      }
    }
    if !p.leaf {
      var ok := DownlinkCheck(index, p.items[o]);
      if !ok {
        return Bad;
      }
    }
    v := Good;
  }

  method TargetPageCheck(index: Index, p: Page) returns (v: Verdict)
    ensures v == PageVerdict(index, p)
  {
    var offset := p.FirstReal();
    while offset < |p.items|
      invariant p.FirstReal() <= offset
      invariant PageVerdict(index, p) == ItemsVerdict(index, p, offset)
    {
      v := ItemCheck(index, p, offset);
      if !v.Good? {
        return;
      }
      offset := offset + 1;
    }
    v := Good;
  }

  // ----- bt_check_level_from_leftmost -----

  datatype Level = Level(level: nat, leftmost: nat, trueRoot: bool)

  const NO_LEVEL := Level(INVALID, INVALID, false)

  /** Variables of the walk: left neighbour, current block, what is known of the level below. */
  datatype Cursor = Cursor(left: nat, current: nat, below: Level)

  datatype Stepped = Moved(to: Cursor) | Refused | Hung

  /** What the first live page tells about the next level down; none if the page breaks expectations. */
  function Below(level: Level, p: Page): Option<Level> {
    if p.prev != P_NONE || (level.trueRoot && !p.root) then None
    else if p.leaf then Some(Level(INVALID, P_NONE, false))
    else if p.First() >= |p.items| || p.level == 0 then None
    else Some(Level(p.level - 1, p.items[p.First()].down, false))
  }

  /** One iteration of the walk. */
  ghost function StepPage(index: Index, level: Level, c: Cursor): Stepped {
    match Load(index, c.current)
    case None => Refused
    case Some(p) =>
      if p.Ignored() then
        if p.Rightmost() || c.current == c.left || c.current == p.prev then Refused
        else Moved(Cursor(c.current, p.next, c.below))
      else
        var below := if c.below.leftmost == INVALID then Below(level, p) else Some(c.below);
        if below.None? || p.prev != c.left || p.level != level.level then Refused
        else if PageVerdict(index, p).Stuck? then Hung
        else if PageVerdict(index, p).Bad? || c.current == c.left || c.current == p.prev then Refused
        else Moved(Cursor(c.current, p.next, below.value))
  }

  datatype Outcome = Accepted(below: Level, visited: seq<nat>) | Rejected | Unfinished

  /** The walk from cursor `c`, having visited `visited`, for at most `fuel` more pages. */
  ghost function Walk(index: Index, level: Level, c: Cursor, visited: seq<nat>, fuel: nat): Outcome
    decreases fuel
  {
    if fuel == 0 then Unfinished
    else
      match StepPage(index, level, c)
      case Refused => Rejected
      case Hung => Unfinished
      case Moved(d) =>
        if d.current == P_NONE then Accepted(d.below, visited + [c.current])
        else Walk(index, level, d, visited + [c.current], fuel - 1)
  }

  ghost function CheckLevel(index: Index, level: Level, fuel: nat): Outcome {
    Walk(index, level, Cursor(P_NONE, level.leftmost, NO_LEVEL), [], fuel)
  }

  method VisitPage(index: Index, level: Level, c: Cursor) returns (r: Stepped)
    ensures r == StepPage(index, level, c)
  {
    var loaded := Load(index, c.current);
    if loaded.None? {
      return Refused;
    }
    var p := loaded.value;
    var below := c.below;
    if p.Ignored() {
      if p.Rightmost() {
        return Refused;
      }
    } else {
      if below.leftmost == INVALID {
        var b := Below(level, p);
        if b.None? {
          return Refused;
        }
        below := b.value;
      }
      if p.prev != c.left || p.level != level.level {
        return Refused;
      }
      var v := TargetPageCheck(index, p);
      if v.Bad? {
        return Refused;
      }
      if v.Stuck? {
        return Hung;
      }
    }
    if c.current == c.left || c.current == p.prev {
      return Refused;
    }
    r := Moved(Cursor(c.current, p.next, below));
  }

  method CheckLevelFromLeftmost(index: Index, level: Level, fuel: nat) returns (r: Outcome)
    ensures r == CheckLevel(index, level, fuel)
  {
    var c := Cursor(P_NONE, level.leftmost, NO_LEVEL);
    var visited: seq<nat> := [];
    var left := fuel;
    while left > 0
      invariant CheckLevel(index, level, fuel) == Walk(index, level, c, visited, left)
    {
      var step := VisitPage(index, level, c);
      if step.Refused? {
        return Rejected;
      }
      if step.Hung? {
        return Unfinished;
      }
      visited := visited + [c.current];
      c := step.to;
      left := left - 1;
      if c.current == P_NONE {
        return Accepted(c.below, visited);
      }
    }
    r := Unfinished;
  }

  // ----- what acceptance of a level means -----

  /** Every visited page passed, in the order of the right links, up to a page without right link. */
  ghost predicate Passed(index: Index, visited: seq<nat>, i: nat)
    requires i <= |visited|
  {
    forall k {:trigger NextOf(visited, k)} :: i <= k < |visited| ==> PassedOne(index, visited[k], NextOf(visited, k))
  }

  ghost function NextOf(visited: seq<nat>, k: nat): nat
    requires k < |visited|
  {
    if k + 1 == |visited| then P_NONE else visited[k + 1]
  }

  ghost predicate PassedOne(index: Index, b: nat, next: nat) {
    && Load(index, b).Some?
    && var p := Load(index, b).value;
      && p.next == next && (p.Ignored() ==> !p.Rightmost()) && (!p.Ignored() ==> PageVerdict(index, p).Good?)
  }

  /** One step of an accepted walk. */
  lemma MovedPassed(index: Index, level: Level, c: Cursor)
    requires StepPage(index, level, c).Moved?
    ensures PassedOne(index, c.current, StepPage(index, level, c).to.current)
  {}

  /** An accepted walk has passed every page from where it stood. */
  lemma {:induction false} AcceptedPassed(index: Index, level: Level, c: Cursor, visited: seq<nat>, fuel: nat)
    requires Walk(index, level, c, visited, fuel).Accepted?
    ensures var all := Walk(index, level, c, visited, fuel).visited;
      && visited + [c.current] <= all && Passed(index, all, |visited|)
      && forall k :: |visited| < k < |all| ==> all[k] != P_NONE
    decreases fuel
  {
    MovedPassed(index, level, c);
    var d := StepPage(index, level, c).to;
    var visited' := visited + [c.current];
    if d.current != P_NONE {
      AcceptedPassed(index, level, d, visited', fuel - 1);
      PassedBefore(index, Walk(index, level, d, visited', fuel - 1).visited, |visited|, c.current, d.current);
    }
  }

  lemma PassedBefore(index: Index, all: seq<nat>, n: nat, b: nat, next: nat)
    requires n + 1 < |all| && all[n] == b && all[n + 1] == next && PassedOne(index, b, next) && Passed(index, all, n + 1)
    ensures Passed(index, all, n)
  {
    forall k | n <= k < |all| ensures PassedOne(index, all[k], NextOf(all, k)) {}
  }

  /** The real items of a block, none if it is dead. */
  function LiveItems(index: Index, b: nat): seq<Item> {
    match Load(index, b)
    case None => []
    case Some(p) => if p.Ignored() then [] else p.RealItems()
  }

  /** The real items of the live pages from position `i` on, in right-link order. */
  ghost function ItemsFrom(index: Index, visited: seq<nat>, i: nat): seq<Item>
    requires i <= |visited|
    decreases |visited| - i
  {
    if i == |visited| then [] else LiveItems(index, visited[i]) + ItemsFrom(index, visited, i + 1)
  }

  predicate IsLive(index: Index, b: nat) { Load(index, b).Some? && !Load(index, b).value.Ignored() }

  /** Every live page has a real item. */
  ghost predicate NoEmptyPage(index: Index, visited: seq<nat>) {
    forall k :: 0 <= k < |visited| && IsLive(index, visited[k]) ==> LiveItems(index, visited[k]) != []
  }

  /** From position `j` on the next live page has no real item: `bt_right_page_check_scankey` returns no key. */
  predicate EmptyAhead(index: Index, visited: seq<nat>, j: nat)
    requires j <= |visited|
    decreases |visited| - j
  {
    j < |visited|
    && if IsLive(index, visited[j]) then LiveItems(index, visited[j]) == [] else EmptyAhead(index, visited, j + 1)
  }

  /** If the page at position `k` is followed by an empty one, its last item is within the first item further right. */
  ghost predicate OrderedAcross(index: Index, visited: seq<nat>, k: nat)
    requires k < |visited|
  {
    var (s, t) := (LiveItems(index, visited[k]), ItemsFrom(index, visited, k + 1));
    s != [] && t != [] && EmptyAhead(index, visited, k + 1) ==> index.le(s[|s| - 1].key, t[0].key)
  }

  ghost predicate AllOrderedAcross(index: Index, visited: seq<nat>) {
    forall k :: 0 <= k < |visited| ==> OrderedAcross(index, visited, k)
  }

  ghost predicate SortedItems(index: Index, s: seq<Item>) {
    forall i, j :: 0 <= i < j < |s| ==> index.le(s[i].key, s[j].key)
  }

  lemma {:induction false} FetchLive(index: Index, b: nat, fuel: nat)
    requires fuel > 0 && IsLive(index, b) && LiveItems(index, b) != []
    ensures FirstKeyFrom(index, b, fuel) == KeyIs(LiveItems(index, b)[0].key)
  {}

  lemma FetchDead(index: Index, b: nat, next: nat, fuel: nat)
    requires fuel > 0 && PassedOne(index, b, next) && !IsLive(index, b)
    ensures FirstKeyFrom(index, b, fuel) == FirstKeyFrom(index, next, fuel - 1) && next != P_NONE
    ensures LiveItems(index, b) == []
  {}

  /** The key fetched from the right is the first item of the rest of the level, unless an empty page comes first. */
  lemma {:induction false} FetchedIsNext(index: Index, visited: seq<nat>, i: nat, fuel: nat)
    requires i < |visited| && Passed(index, visited, i) && fuel >= |visited| - i && !EmptyAhead(index, visited, i)
    ensures ItemsFrom(index, visited, i) != []
    ensures FirstKeyFrom(index, visited[i], fuel) == KeyIs(ItemsFrom(index, visited, i)[0].key)
    decreases |visited| - i
  {
    if IsLive(index, visited[i]) {
      FetchLive(index, visited[i], fuel);
    } else {
      assert PassedOne(index, visited[i], NextOf(visited, i));
      FetchDead(index, visited[i], NextOf(visited, i), fuel);
      FetchedIsNext(index, visited, i + 1, fuel - 1);
    }
  }

  lemma {:induction false} GoodItem(index: Index, p: Page, from: nat, o: nat)
    requires p.FirstReal() <= from <= o < |p.items| && ItemsVerdict(index, p, from).Good?
    ensures ItemVerdict(index, p, o).Good?
    decreases o - from
  {
    if from < o { GoodItem(index, p, from + 1, o); }
  }

  /** Neighbours in order make a page in order. */
  lemma {:induction false} PageSorted(index: Index, p: Page, o: nat)
    requires TotalPreorder(index.le) && PageVerdict(index, p).Good? && p.FirstReal() <= o <= |p.items|
    ensures SortedItems(index, p.items[o..])
    decreases |p.items| - o
  {
    if o < |p.items| {
      GoodItem(index, p, p.FirstReal(), o);
      PageSorted(index, p, o + 1);
      var (s, t) := (p.items[o..], p.items[o + 1..]);
      assert s == [p.items[o]] + t;
      if t != [] {
        assert t[0] == p.items[o + 1];
        forall j | 0 <= j < |t| ensures index.le(p.items[o].key, t[j].key) {
          assert index.le(t[0].key, t[j].key);
        }
      }
    }
  }

  lemma ConcatSorted(index: Index, s: seq<Item>, t: seq<Item>)
    requires TotalPreorder(index.le) && SortedItems(index, s) && SortedItems(index, t)
    requires s != [] && t != [] ==> index.le(s[|s| - 1].key, t[0].key)
    ensures SortedItems(index, s + t)
  {
    forall i, j | 0 <= i < |s| && 0 <= j < |t| ensures index.le(s[i].key, t[j].key) {
      assert index.le(s[i].key, s[|s| - 1].key);
      assert index.le(t[0].key, t[j].key);
      assert index.le(s[i].key, t[0].key);
    }
  }

  lemma LastVersusRight(index: Index, p: Page)
    requires PageVerdict(index, p).Good? && p.RealItems() != [] && RightKey(index, p).KeyIs?
    ensures index.le(p.RealItems()[|p.RealItems()| - 1].key, RightKey(index, p).key)
  {
    GoodItem(index, p, p.FirstReal(), |p.items| - 1);
  }

  /** The last item of a page is not above the first item to its right, if no empty page hides that one. */
  lemma LastBelowNext(index: Index, visited: seq<nat>, i: nat)
    requires i + 1 < |visited| <= |index.pages| + 1 && Passed(index, visited, i)
    requires LiveItems(index, visited[i]) != [] && visited[i + 1] != P_NONE && !EmptyAhead(index, visited, i + 1)
    ensures var (s, t) := (LiveItems(index, visited[i]), ItemsFrom(index, visited, i + 1));
      t != [] && index.le(s[|s| - 1].key, t[0].key)
  {
    assert PassedOne(index, visited[i], NextOf(visited, i));
    FetchedIsNext(index, visited, i + 1, |index.pages| + 1);
    LastVersusRight(index, Load(index, visited[i]).value);
  }

  ghost predicate NoneLater(visited: seq<nat>, i: nat) { forall k :: i < k < |visited| ==> visited[k] != P_NONE }

  lemma {:induction false} RestSorted(index: Index, visited: seq<nat>, i: nat)
    requires TotalPreorder(index.le) && i <= |visited| <= |index.pages| + 1
    requires Passed(index, visited, i) && AllOrderedAcross(index, visited) && NoneLater(visited, i)
    ensures SortedItems(index, ItemsFrom(index, visited, i))
    decreases |visited| - i
  {
    if i < |visited| {
      RestSorted(index, visited, i + 1);
      OneMoreSorted(index, visited, i);
    }
  }

  lemma OneMoreSorted(index: Index, visited: seq<nat>, i: nat)
    requires TotalPreorder(index.le) && i < |visited| <= |index.pages| + 1
    requires Passed(index, visited, i) && AllOrderedAcross(index, visited) && NoneLater(visited, i)
    requires SortedItems(index, ItemsFrom(index, visited, i + 1))
    ensures SortedItems(index, ItemsFrom(index, visited, i))
  {
    hide SortedItems;
    assert PassedOne(index, visited[i], NextOf(visited, i)) && OrderedAcross(index, visited, i);
    if IsLive(index, visited[i]) {
      var p := Load(index, visited[i]).value;
      if p.RealItems() != [] { PageSorted(index, p, p.FirstReal()); } else { NothingSorted(index); }
      if p.RealItems() != [] && i + 1 < |visited| && !EmptyAhead(index, visited, i + 1) { LastBelowNext(index, visited, i); }
      ConcatSorted(index, p.RealItems(), ItemsFrom(index, visited, i + 1));
    } else {
      assert ItemsFrom(index, visited, i) == ItemsFrom(index, visited, i + 1);
    }
  }

  lemma NothingSorted(index: Index)
    ensures SortedItems(index, [])
  {}

  lemma SortedParts(index: Index, all: seq<Item>, s: seq<Item>, t: seq<Item>)
    requires all == s + t && SortedItems(index, all)
    ensures SortedItems(index, t) && (s != [] && t != [] ==> index.le(s[|s| - 1].key, t[0].key))
  {
    forall i, j | 0 <= i < j < |t| ensures index.le(t[i].key, t[j].key) {
      assert index.le(all[|s| + i].key, all[|s| + j].key);
    }
    if s != [] && t != [] { assert all[|s| - 1] == s[|s| - 1] && all[|s|] == t[0]; }
  }

  /** A level in order is in order from every page on. */
  lemma {:induction false} SortedFrom(index: Index, visited: seq<nat>, k: nat)
    requires SortedItems(index, ItemsFrom(index, visited, 0)) && k <= |visited|
    ensures SortedItems(index, ItemsFrom(index, visited, k))
  {
    if k > 0 {
      SortedFrom(index, visited, k - 1);
      SortedParts(index, ItemsFrom(index, visited, k - 1), LiveItems(index, visited[k - 1]), ItemsFrom(index, visited, k));
    }
  }

  lemma {:induction false} SortedAcross(index: Index, visited: seq<nat>, k: nat)
    requires SortedItems(index, ItemsFrom(index, visited, 0)) && k < |visited|
    ensures OrderedAcross(index, visited, k)
  {
    SortedFrom(index, visited, k);
    SortedParts(index, ItemsFrom(index, visited, k), LiveItems(index, visited[k]), ItemsFrom(index, visited, k + 1));
  }

  /** Right links that end at last cannot lead through a block twice. */
  lemma {:induction false} PassedNeverRepeats(index: Index, visited: seq<nat>, i: nat, j: nat)
    requires Passed(index, visited, 0) && i < j < |visited|
    requires forall k :: 0 < k < |visited| ==> visited[k] != P_NONE
    ensures visited[i] != visited[j]
    decreases |visited| - j
  {
    assert PassedOne(index, visited[i], NextOf(visited, i));
    assert PassedOne(index, visited[j], NextOf(visited, j));
    if j + 1 < |visited| { PassedNeverRepeats(index, visited, i + 1, j + 1); }
  }

  lemma PassedIsShort(index: Index, visited: seq<nat>)
    requires Passed(index, visited, 0) && forall k :: 0 < k < |visited| ==> visited[k] != P_NONE
    ensures |visited| <= |index.pages|
  {
    forall i, j | 0 <= i < j < |visited| ensures visited[i] != visited[j] {
      PassedNeverRepeats(index, visited, i, j);
    }
    DistinctCount(visited);
    var all := Upto(|index.pages|);
    UptoCount(|index.pages|);
    forall x | x in Elements(visited) ensures x in all {
      var i :| 0 <= i < |visited| && visited[i] == x;
      assert PassedOne(index, visited[i], NextOf(visited, i));
    }
    SubsetCount(Elements(visited), all);
  }

  /** An accepted level is in order from end to end exactly when order holds across its empty pages. */
  lemma {:induction false} AcceptedLevelSortedExactly(index: Index, level: Level, fuel: nat)
    requires TotalPreorder(index.le) && CheckLevel(index, level, fuel).Accepted?
    ensures var visited := CheckLevel(index, level, fuel).visited;
      SortedItems(index, ItemsFrom(index, visited, 0)) <==> AllOrderedAcross(index, visited)
  {
    var visited := CheckLevel(index, level, fuel).visited;
    AcceptedPassed(index, level, Cursor(P_NONE, level.leftmost, NO_LEVEL), [], fuel);
    if AllOrderedAcross(index, visited) {
      PassedIsShort(index, visited);
      RestSorted(index, visited, 0);
    }
    if SortedItems(index, ItemsFrom(index, visited, 0)) {
      forall k | 0 <= k < |visited| ensures OrderedAcross(index, visited, k) { SortedAcross(index, visited, k); }
    }
  }

  lemma {:induction false} NothingEmptyAhead(index: Index, visited: seq<nat>, j: nat)
    requires j <= |visited| && NoEmptyPage(index, visited)
    ensures !EmptyAhead(index, visited, j)
    decreases |visited| - j
  {
    if j < |visited| { NothingEmptyAhead(index, visited, j + 1); }
  }

  /** So it is if it has no empty live page at all. */
  lemma {:induction false} AcceptedLevelIsSorted(index: Index, level: Level, fuel: nat)
    requires TotalPreorder(index.le)
    requires CheckLevel(index, level, fuel).Accepted? && NoEmptyPage(index, CheckLevel(index, level, fuel).visited)
    ensures SortedItems(index, ItemsFrom(index, CheckLevel(index, level, fuel).visited, 0))
  {
    var visited := CheckLevel(index, level, fuel).visited;
    forall k | 0 <= k < |visited| ensures OrderedAcross(index, visited, k) { NothingEmptyAhead(index, visited, k + 1); }
    AcceptedLevelSortedExactly(index, level, fuel);
  }

  /** Three leaf pages with 5, nothing and 1: the empty page hides the disorder on either side of it. */
  function EmptyMiddle(): Index {
    Index([Page(false, false, true, false, false, false, 0, 0, 0, []),
           Page(true, false, false, false, false, false, 0, 0, 2, [Item(5, 0), Item(5, 0)]),
           Page(true, false, false, false, false, false, 0, 1, 3, [Item(5, 0)]),
           Page(true, false, false, false, false, false, 0, 2, 0, [Item(1, 0)])], true, 1, 0, IntLe)
  }

  lemma EmptyPageHidesDisorder()
    ensures var (index, level) := (EmptyMiddle(), Level(0, 1, false));
      && CheckLevel(index, level, 3) == Accepted(Level(INVALID, P_NONE, false), [1, 2, 3])
      && ItemsFrom(index, [1, 2, 3], 0) == [Item(5, 0), Item(1, 0)]
      && !SortedItems(index, [Item(5, 0), Item(1, 0)]) && !OrderedAcross(index, [1, 2, 3], 0)
  {
    var (index, level) := (EmptyMiddle(), Level(0, 1, false));
    var below := Level(INVALID, P_NONE, false);
    var (p1, p2, p3) := (index.pages[1], index.pages[2], index.pages[3]);
    assert PageVerdict(index, p1).Good? by {
      assert RightKey(index, p1) == NoKey;
      assert ItemVerdict(index, p1, 1).Good?;
      assert ItemsVerdict(index, p1, 2).Good?;
    }
    assert PageVerdict(index, p2).Good? && ItemVerdict(index, p3, 0).Good? && ItemsVerdict(index, p3, 1).Good?;
    assert StepPage(index, level, Cursor(0, 1, NO_LEVEL)) == Moved(Cursor(1, 2, below));
    assert StepPage(index, level, Cursor(1, 2, below)) == Moved(Cursor(2, 3, below));
    assert StepPage(index, level, Cursor(2, 3, below)) == Moved(Cursor(3, 0, below));
    assert Walk(index, level, Cursor(2, 3, below), [1, 2], 1) == Accepted(below, [1, 2, 3]);
    assert Walk(index, level, Cursor(1, 2, below), [1], 2) == Accepted(below, [1, 2, 3]);
    assert ItemsFrom(index, [1, 2, 3], 3) == [] && ItemsFrom(index, [1, 2, 3], 2) == [Item(1, 0)];
    assert ItemsFrom(index, [1, 2, 3], 1) == [Item(1, 0)];
    var items := [Item(5, 0), Item(1, 0)];
    assert !index.le(items[0].key, items[1].key);
  }

  /** On every accepted live page the items are within the high key and downlinks bound their children from below. */
  lemma AcceptedPageIsBounded(index: Index, level: Level, fuel: nat, k: nat, o: nat)
    requires CheckLevel(index, level, fuel).Accepted? && k < |CheckLevel(index, level, fuel).visited|
    requires IsLive(index, CheckLevel(index, level, fuel).visited[k])
    requires var p := Load(index, CheckLevel(index, level, fuel).visited[k]).value; p.FirstReal() <= o < |p.items|
    ensures var p := Load(index, CheckLevel(index, level, fuel).visited[k]).value;
      && (!p.Rightmost() ==> index.le(p.items[o].key, p.items[0].key))
      && (!p.leaf ==> DownlinkOk(index, p.items[o]))
  {
    var visited := CheckLevel(index, level, fuel).visited;
    AcceptedPassed(index, level, Cursor(P_NONE, level.leftmost, NO_LEVEL), [], fuel);
    assert PassedOne(index, visited[k], NextOf(visited, k));
    var p := Load(index, visited[k]).value;
    GoodItem(index, p, p.FirstReal(), o);
  }

  /** `b` is a real item of the page that `a` links to. */
  predicate IsChildItem(index: Index, a: Item, b: Item) {
    Load(index, a.down).Some? && b in Load(index, a.down).value.RealItems()
  }

  // ----- bt_check_every_level -----

  datatype Report = AllAccepted(levels: seq<seq<nat>>) | SomeRejected | StillRunning

  ghost predicate BelowOk(level: Level, below: Level) {
    below.leftmost == INVALID || below.leftmost == P_NONE || below.level + 1 == level.level
  }

  /** The level below is numbered one less, or there is none. */
  lemma {:induction false} BelowIsLower(index: Index, level: Level, c: Cursor, visited: seq<nat>, fuel: nat)
    requires Walk(index, level, c, visited, fuel).Accepted? && BelowOk(level, c.below)
    ensures BelowOk(level, Walk(index, level, c, visited, fuel).below)
    decreases fuel
  {
    var d := StepPage(index, level, c).to;
    assert BelowOk(level, d.below);
    if d.current != P_NONE { BelowIsLower(index, level, d, visited + [c.current], fuel - 1); }
  }

  lemma NextLevelIsLower(index: Index, level: Level, fuel: nat)
    requires CheckLevel(index, level, fuel).Accepted?
    ensures BelowOk(level, CheckLevel(index, level, fuel).below)
  {
    BelowIsLower(index, level, Cursor(P_NONE, level.leftmost, NO_LEVEL), [], fuel);
  }

  /** The levels from `level` down, each walked for at most `fuel` pages. */
  ghost function CheckFrom(index: Index, level: Level, fuel: nat): (r: Report)
    ensures r.AllAccepted? ==> 1 <= |r.levels| <= level.level + 1
    decreases level.level
  {
    match CheckLevel(index, level, fuel)
    case Rejected => SomeRejected
    case Unfinished => StillRunning
    case Accepted(below, visited) =>
      NextLevelIsLower(index, level, fuel);
      if below.leftmost == INVALID then SomeRejected
      else if below.leftmost == P_NONE then AllAccepted([visited])
      else
        match CheckFrom(index, below, fuel)
        case AllAccepted(levels) => AllAccepted([visited] + levels)
        case r => r
  }

  ghost function CheckIndex(index: Index, fuel: nat): Report {
    if Load(index, 0).None? then SomeRejected
    else if index.rootBlock == P_NONE then AllAccepted([])
    else CheckFrom(index, Level(index.rootLevel, index.rootBlock, true), fuel)
  }

  /** `bt_check_every_level`. */
  method CheckEveryLevel(index: Index, fuel: nat) returns (r: Report)
    ensures r == CheckIndex(index, fuel)
  {
    if Load(index, 0).None? {
      return SomeRejected;
    }
    var levels: seq<seq<nat>> := [];
    var current := Level(index.rootLevel, index.rootBlock, true);
    while current.leftmost != P_NONE
      invariant if current.leftmost == P_NONE then CheckIndex(index, fuel) == AllAccepted(levels)
        else CheckIndex(index, fuel) == Prepend(levels, CheckFrom(index, current, fuel))
      decreases if current.leftmost == P_NONE then 0 else current.level + 1
    {
      var outcome := CheckLevelFromLeftmost(index, current, fuel);
      if outcome.Rejected? {
        return SomeRejected;
      }
      if outcome.Unfinished? {
        return StillRunning;
      }
      NextLevelIsLower(index, current, fuel);
      if outcome.below.leftmost == INVALID {
        return SomeRejected;
      }
      levels := levels + [outcome.visited];
      current := outcome.below;
    }
    r := AllAccepted(levels);
  }

  ghost function Prepend(levels: seq<seq<nat>>, r: Report): Report {
    if r.AllAccepted? then AllAccepted(levels + r.levels) else r
  }

  /** Every level of an accepted index was walked from end to end and accepted. */
  lemma {:induction false} AcceptedLevels(index: Index, level: Level, fuel: nat, k: nat)
    requires CheckFrom(index, level, fuel).AllAccepted? && k < |CheckFrom(index, level, fuel).levels|
    ensures exists l :: CheckLevel(index, l, fuel).Accepted? && CheckLevel(index, l, fuel).visited == CheckFrom(index, level, fuel).levels[k]
    decreases level.level
  {
    NextLevelIsLower(index, level, fuel);
    if k > 0 {
      AcceptedLevels(index, CheckLevel(index, level, fuel).below, fuel, k - 1);
    }
  }

  lemma AcceptedLevelOf(index: Index, fuel: nat, k: nat) returns (l: Level)
    requires CheckIndex(index, fuel).AllAccepted? && k < |CheckIndex(index, fuel).levels|
    ensures CheckLevel(index, l, fuel).Accepted? && CheckLevel(index, l, fuel).visited == CheckIndex(index, fuel).levels[k]
  {
    var top := Level(index.rootLevel, index.rootBlock, true);
    AcceptedLevels(index, top, fuel, k);
    l :| CheckLevel(index, l, fuel).Accepted? && CheckLevel(index, l, fuel).visited == CheckFrom(index, top, fuel).levels[k];
  }

  /** So an accepted index is in order on a level exactly when that level is in order across its empty pages. */
  lemma {:induction false} AcceptedIndexSortedExactly(index: Index, fuel: nat, k: nat)
    requires TotalPreorder(index.le) && CheckIndex(index, fuel).AllAccepted? && k < |CheckIndex(index, fuel).levels|
    ensures var visited := CheckIndex(index, fuel).levels[k];
      SortedItems(index, ItemsFrom(index, visited, 0)) <==> AllOrderedAcross(index, visited)
  {
    var l := AcceptedLevelOf(index, fuel, k);
    AcceptedLevelSortedExactly(index, l, fuel);
  }

  // ----- descents -----

  /** The block is a live page that the check of some level passed. */
  ghost predicate OnLevel(index: Index, fuel: nat, b: nat) {
    && CheckIndex(index, fuel).AllAccepted? && IsLive(index, b)
    && exists k :: 0 <= k < |CheckIndex(index, fuel).levels| && b in CheckIndex(index, fuel).levels[k]
  }

  /** `a` is a real item of the live page `b` of an accepted level. */
  ghost predicate ItemOn(index: Index, fuel: nat, b: nat, a: Item) {
    OnLevel(index, fuel, b) && a in Load(index, b).value.RealItems()
  }

  lemma AcceptedItem(index: Index, fuel: nat, b: nat, a: Item)
    requires ItemOn(index, fuel, b, a) && !Load(index, b).value.leaf
    ensures DownlinkOk(index, a)
  {
    var k :| 0 <= k < |CheckIndex(index, fuel).levels| && b in CheckIndex(index, fuel).levels[k];
    var i :| 0 <= i < |CheckIndex(index, fuel).levels[k]| && CheckIndex(index, fuel).levels[k][i] == b;
    var l := AcceptedLevelOf(index, fuel, k);
    var p := Load(index, b).value;
    var o :| 0 <= o < |p.RealItems()| && p.RealItems()[o] == a;
    AcceptedPageIsBounded(index, l, fuel, i, p.FirstReal() + o);
  }

  /** A route down the tree: each item but the last is on an internal page, visited or not, and leads to the page of the next. */
  ghost predicate Route(index: Index, blocks: seq<nat>, path: seq<Item>) {
    |blocks| == |path| > 0 && forall k :: 0 <= k < |path| - 1 ==> RouteStep(index, blocks, path, k)
  }

  ghost predicate RouteStep(index: Index, blocks: seq<nat>, path: seq<Item>, k: nat) {
    && k + 1 < |path| == |blocks|
    && InternalItem(index, blocks[k], path[k])
    && path[k].down == blocks[k + 1] && IsChildItem(index, path[k], path[k + 1])
  }

  /** `a` is a real item of the internal page `b`. */
  ghost predicate InternalItem(index: Index, b: nat, a: Item) {
    Load(index, b).Some? && !Load(index, b).value.leaf && a in Load(index, b).value.RealItems()
  }

  /** A route that starts at an item of an accepted level. */
  ghost predicate RouteFrom(index: Index, fuel: nat, blocks: seq<nat>, path: seq<Item>) {
    Route(index, blocks, path) && ItemOn(index, fuel, blocks[0], path[0])
  }

  /** Every item of the path is bounded by all items before it. */
  ghost predicate Bounded(index: Index, path: seq<Item>) {
    forall m, n :: 0 <= m <= n < |path| ==> index.le(path[m].key, path[n].key)
  }

  /** The step from `k` is in order. */
  predicate StepBounded(index: Index, path: seq<Item>, k: nat) {
    k + 1 < |path| && index.le(path[k].key, path[k + 1].key)
  }

  ghost predicate StraysBounded(index: Index, fuel: nat, blocks: seq<nat>, path: seq<Item>)
    requires |blocks| == |path|
  {
    forall k :: 0 <= k < |path| - 1 && !OnLevel(index, fuel, blocks[k]) ==> StepBounded(index, path, k)
  }

  lemma VisitedStepBounded(index: Index, fuel: nat, blocks: seq<nat>, path: seq<Item>, k: nat)
    requires Route(index, blocks, path) && k + 1 < |path| && OnLevel(index, fuel, blocks[k])
    ensures StepBounded(index, path, k)
  {
    assert RouteStep(index, blocks, path, k);
    AcceptedItem(index, fuel, blocks[k], path[k]);
  }

  lemma {:induction false} StepsBound(index: Index, path: seq<Item>, m: nat, n: nat)
    requires TotalPreorder(index.le) && m <= n < |path| && forall k :: 0 <= k < |path| - 1 ==> StepBounded(index, path, k)
    ensures index.le(path[m].key, path[n].key)
    decreases n
  {
    if m < n {
      StepsBound(index, path, m, n - 1);
      assert StepBounded(index, path, n - 1);
    }
  }

  /** A route is in order exactly when its steps out of pages that no level has visited are. */
  lemma RouteBoundedExactly(index: Index, fuel: nat, blocks: seq<nat>, path: seq<Item>)
    requires TotalPreorder(index.le) && Route(index, blocks, path)
    ensures Bounded(index, path) <==> StraysBounded(index, fuel, blocks, path)
  {
    if StraysBounded(index, fuel, blocks, path) {
      forall k | 0 <= k < |path| - 1 ensures StepBounded(index, path, k) {
        if OnLevel(index, fuel, blocks[k]) { VisitedStepBounded(index, fuel, blocks, path, k); }
      }
      forall m, n | 0 <= m <= n < |path| ensures index.le(path[m].key, path[n].key) { StepsBound(index, path, m, n); }
    }
  }

  /** The page is reached from an accepted level, was not visited, and `a` is one of its downlinks. */
  ghost predicate StrayItem(index: Index, fuel: nat, blocks: seq<nat>, path: seq<Item>, b: nat, a: Item) {
    && RouteFrom(index, fuel, blocks, path) && blocks[|blocks| - 1] == b && path[|path| - 1] == a
    && InternalItem(index, b, a) && !OnLevel(index, fuel, b)
  }

  ghost predicate BoundsChild(index: Index, a: Item) { forall c :: IsChildItem(index, a, c) ==> index.le(a.key, c.key) }

  ghost predicate AllRoutesBounded(index: Index, fuel: nat) {
    forall blocks, path :: RouteFrom(index, fuel, blocks, path) ==> Bounded(index, path)
  }

  ghost predicate AllStraysBound(index: Index, fuel: nat) {
    forall blocks, path, b, a :: StrayItem(index, fuel, blocks, path, b, a) ==> BoundsChild(index, a)
  }

  /**
   Every route of an accepted index is in order exactly when the downlink check, which is not made on
   pages outside the visited levels, would pass on those that a downlink reaches all the same.
   */
  lemma RoutesBoundedExactly(index: Index, fuel: nat)
    requires TotalPreorder(index.le)
    ensures AllRoutesBounded(index, fuel) <==> AllStraysBound(index, fuel)
  {
    hide *;
    if AllRoutesBounded(index, fuel) { StraysAreBounded(index, fuel); }
    if AllStraysBound(index, fuel) { RoutesAreBounded(index, fuel); }
  }

  lemma StraysAreBounded(index: Index, fuel: nat)
    requires AllRoutesBounded(index, fuel)
    ensures AllStraysBound(index, fuel)
  {
    hide AllRoutesBounded, RouteStep, OnLevel, InternalItem, IsChildItem;
    forall blocks, path, b, a | StrayItem(index, fuel, blocks, path, b, a) ensures BoundsChild(index, a) {
      forall c | IsChildItem(index, a, c) ensures index.le(a.key, c.key) {
        LastIsBounded(index, fuel, blocks, path, c);
      }
    }
  }

  lemma LastIsBounded(index: Index, fuel: nat, blocks: seq<nat>, path: seq<Item>, c: Item)
    requires AllRoutesBounded(index, fuel) && RouteFrom(index, fuel, blocks, path)
    requires InternalItem(index, blocks[|blocks| - 1], path[|path| - 1]) && IsChildItem(index, path[|path| - 1], c)
    ensures index.le(path[|path| - 1].key, c.key)
  {
    hide Bounded, RouteStep, OnLevel, InternalItem, IsChildItem;
    OneStepFurther(index, fuel, blocks, path, c);
    LastStep(index, path, c);
  }

  lemma LastStep(index: Index, path: seq<Item>, c: Item)
    requires path != [] && Bounded(index, path + [c])
    ensures index.le(path[|path| - 1].key, c.key)
  {
    assert (path + [c])[|path| - 1] == path[|path| - 1] && (path + [c])[|path|] == c;
  }

  lemma RoutesAreBounded(index: Index, fuel: nat)
    requires TotalPreorder(index.le) && AllStraysBound(index, fuel)
    ensures AllRoutesBounded(index, fuel)
  {
    hide OnLevel, Bounded, TotalPreorder;
    forall blocks, path | RouteFrom(index, fuel, blocks, path) ensures Bounded(index, path) {
      forall k | 0 <= k < |path| - 1 && !OnLevel(index, fuel, blocks[k]) ensures StepBounded(index, path, k) {
        RouteUpTo(index, fuel, blocks, path, k);
        assert StrayItem(index, fuel, blocks[..k + 1], path[..k + 1], blocks[k], path[k]);
      }
      RouteBoundedExactly(index, fuel, blocks, path);
    }
  }

  lemma OneStepFurther(index: Index, fuel: nat, blocks: seq<nat>, path: seq<Item>, c: Item)
    requires RouteFrom(index, fuel, blocks, path) && InternalItem(index, blocks[|blocks| - 1], path[|path| - 1])
    requires IsChildItem(index, path[|path| - 1], c)
    ensures RouteFrom(index, fuel, blocks + [path[|path| - 1].down], path + [c])
  {
    hide OnLevel, InternalItem, IsChildItem;
    var (bs, ps) := (blocks + [path[|path| - 1].down], path + [c]);
    forall k | 0 <= k < |ps| - 1 ensures RouteStep(index, bs, ps, k) {
      if k < |path| - 1 { assert RouteStep(index, blocks, path, k); }
    }
  }

  lemma RouteUpTo(index: Index, fuel: nat, blocks: seq<nat>, path: seq<Item>, k: nat)
    requires RouteFrom(index, fuel, blocks, path) && k < |path| - 1
    ensures RouteFrom(index, fuel, blocks[..k + 1], path[..k + 1])
    ensures InternalItem(index, blocks[k], path[k]) && IsChildItem(index, path[k], path[k + 1])
  {
    assert RouteStep(index, blocks, path, k);
    var (bs, ps) := (blocks[..k + 1], path[..k + 1]);
    forall l | 0 <= l < |ps| - 1 ensures RouteStep(index, bs, ps, l) {
      assert RouteStep(index, blocks, path, l);
    }
  }

  /** So along any route over visited pages an item is bounded by every downlink above it. */
  lemma DescentIsBounded(index: Index, fuel: nat, blocks: seq<nat>, path: seq<Item>)
    requires TotalPreorder(index.le) && Route(index, blocks, path)
    requires forall k :: 0 <= k < |path| - 1 ==> OnLevel(index, fuel, blocks[k])
    ensures Bounded(index, path)
  {
    RouteBoundedExactly(index, fuel, blocks, path);
  }

  function Meta(): Page { Page(false, false, true, false, false, false, 0, 0, 0, []) }

  function Internal(level: nat, items: seq<Item>): Page { Page(false, level == 2, false, false, false, false, level, 0, 0, items) }

  function LeafOf(key: int): Page { Page(true, false, false, false, false, false, 0, 0, 0, [Item(key, 0)]) }

  /** A root with two children, of which the second is on no chain and has a downlink 7 to a leaf that holds 1. */
  function StrayPage(): Index {
    Index([Meta(), Internal(2, [Item(0, 2), Item(5, 3)]), Internal(1, [Item(0, 4)]),
           Internal(1, [Item(0, 4), Item(7, 5)]), LeafOf(1), LeafOf(1)], true, 1, 2, IntLe)
  }

  /** The check of each level of that file. */
  lemma StrayPageLevels()
    ensures CheckIndex(StrayPage(), 1) == AllAccepted([[1], [2], [4]])
  {
    var index := StrayPage();
    var (root, mid, leaf) := (Level(2, 1, true), Level(1, 2, false), Level(0, 4, false));
    assert DownlinkOk(index, Item(5, 3)) by { assert index.pages[3].RealItems() == [Item(7, 5)]; }
    assert ItemVerdict(index, index.pages[1], 1).Good? && ItemsVerdict(index, index.pages[1], 2).Good?;
    assert ItemVerdict(index, index.pages[4], 0).Good? && ItemsVerdict(index, index.pages[4], 1).Good?;
    assert StepPage(index, root, Cursor(0, 1, NO_LEVEL)) == Moved(Cursor(1, 0, mid));
    assert StepPage(index, mid, Cursor(0, 2, NO_LEVEL)) == Moved(Cursor(2, 0, leaf));
    assert StepPage(index, leaf, Cursor(0, 4, NO_LEVEL)) == Moved(Cursor(4, 0, Level(INVALID, P_NONE, false)));
    assert CheckLevel(index, root, 1) == Accepted(mid, [1]);
    assert CheckLevel(index, mid, 1) == Accepted(leaf, [2]);
    assert CheckLevel(index, leaf, 1) == Accepted(Level(INVALID, P_NONE, false), [4]);
    assert CheckFrom(index, leaf, 1) == AllAccepted([[4]]);
    assert CheckFrom(index, mid, 1) == AllAccepted([[2], [4]]);
  }

  /** That the child of a downlink is on the next level is never checked: this file is accepted, and a route in it is not in order. */
  lemma StrayPageMisleads()
    ensures var (index, blocks, path) := (StrayPage(), [1, 3, 5], [Item(5, 3), Item(7, 5), Item(1, 0)]);
      && CheckIndex(index, 1) == AllAccepted([[1], [2], [4]])
      && RouteFrom(index, 1, blocks, path) && !OnLevel(index, 1, 3) && !Bounded(index, path)
  {
    StrayPageLevels();
    StrayRoute();
    StrayIsUnvisited();
    var path := [Item(5, 3), Item(7, 5), Item(1, 0)];
    assert !StrayPage().le(path[0].key, path[2].key);
  }

  lemma StrayRoute()
    ensures Route(StrayPage(), [1, 3, 5], [Item(5, 3), Item(7, 5), Item(1, 0)])
  {
    var (index, blocks, path) := (StrayPage(), [1, 3, 5], [Item(5, 3), Item(7, 5), Item(1, 0)]);
    assert index.pages[1].RealItems() == [Item(5, 3)] && index.pages[3].RealItems() == [Item(7, 5)];
    assert index.pages[5].RealItems() == [Item(1, 0)];
    assert RouteStep(index, blocks, path, 0) && RouteStep(index, blocks, path, 1);
  }

  lemma StrayIsUnvisited()
    ensures ItemOn(StrayPage(), 1, 1, Item(5, 3)) && !OnLevel(StrayPage(), 1, 3)
  {
    hide CheckIndex;
    StrayPageLevels();
    var index := StrayPage();
    assert 1 in CheckIndex(index, 1).levels[0];
    assert index.pages[1].RealItems() == [Item(5, 3)];
  }
}
