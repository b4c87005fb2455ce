/**
 Which indexes amcheck accepts (contrib/amcheck/verify_nbtree.c), said of pages, links and keys alone:
 exactly the sound ones.  `BtreeCheck` says what acceptance implies; here is that nothing else is refused.
 */
module BtreeSound {
  import opened Sorting
  import opened BtreeCheck

  // ----- readable pages -----

  /** Block 0 and no other is the metapage, leaves and no other pages are on level 0 unless deleted, and only leaves have garbage. */
  predicate Readable(index: Index, b: nat) {
    && b < |index.pages|
    && var p := index.pages[b];
      && (p.meta <==> b == 0) && (b == 0 ==> index.metaOk)
      && (p.leaf && !p.deleted ==> p.level == 0) && (!p.leaf && !p.deleted && b > 0 ==> p.level > 0)
      && (p.garbage ==> p.leaf)
  }

  lemma LoadExactly(index: Index, b: nat)
    ensures Load(index, b) == if Readable(index, b) then Some(index.pages[b]) else None
  {}

  /** The key is a lower bound on the real items of the page. */
  predicate BoundsPage(index: Index, key: int, b: nat)
    requires Readable(index, b)
  {
    forall i :: 0 <= i < |index.pages[b].RealItems()| ==> index.le(key, index.pages[b].RealItems()[i].key)
  }

  // ----- the page to the right -----

  predicate SkippedOver(index: Index, b: nat) {
    Readable(index, b) && index.pages[b].Ignored() && !index.pages[b].Rightmost()
  }

  /** From block `b` over ignorable pages to the first that is live or has no right link. */
  ghost predicate LeadsTo(index: Index, b: nat, path: seq<nat>) {
    && path != [] && path[0] == b
    && (forall k :: 0 <= k < |path| - 1 ==> SkipsTo(index, path[k], path[k + 1]))
    && Readable(index, path[|path| - 1]) && !SkippedOver(index, path[|path| - 1])
  }

  predicate SkipsTo(index: Index, b: nat, next: nat) { SkippedOver(index, b) && index.pages[b].next == next }

  /** The key is not above the first real item of the page that the path leads to, if it has one. */
  predicate NotAbove(index: Index, key: int, b: nat) {
    Readable(index, b) && (index.pages[b].RealItems() != [] ==> index.le(key, index.pages[b].RealItems()[0].key))
  }

  /** There is no page to the right, or the key is not above what stands there. */
  ghost predicate BoundedRight(index: Index, p: Page, key: int) {
    p.Rightmost() || exists path :: LeadsTo(index, p.next, path) && NotAbove(index, key, path[|path| - 1])
  }

  // ----- pages -----

  /** Real items are within the high key and non-decreasing, the last not above what stands to the right, and each
      downlink is a lower bound on the real items of its child. */
  ghost predicate SoundPage(index: Index, p: Page) {
    && (forall o :: p.FirstReal() <= o < |p.items| ==> SoundItem(index, p, o))
    && (p.FirstReal() < |p.items| ==> BoundedRight(index, p, p.items[|p.items| - 1].key))
  }

  ghost predicate SoundItem(index: Index, p: Page, o: nat)
    requires p.FirstReal() <= o < |p.items|
  {
    && (!p.Rightmost() ==> index.le(p.items[o].key, p.items[0].key))
    && (o + 1 < |p.items| ==> index.le(p.items[o].key, p.items[o + 1].key))
    && (!p.leaf ==> Readable(index, p.items[o].down) && BoundsPage(index, p.items[o].key, p.items[o].down))
  }

  // ----- levels -----

  ghost function LeftOf(chain: seq<nat>, k: nat): nat
    requires k < |chain|
  {
    if k == 0 then P_NONE else chain[k - 1]
  }

  /** The first page of a level: leftmost, the root where it should be, and with a downlink if it is internal. */
  predicate FirstPageOk(level: Level, p: Page) {
    p.prev == P_NONE && (level.trueRoot ==> p.root) && (!p.leaf ==> p.First() < |p.items| && p.level > 0)
  }

  /** Links and level numbers agree, and live pages are sound. */
  ghost predicate SoundAt(index: Index, level: Level, chain: seq<nat>, k: nat)
    requires k < |chain|
  {
    && Readable(index, chain[k])
    && var p := index.pages[chain[k]];
      && p.next == NextOf(chain, k) && (k > 0 ==> chain[k] != P_NONE)
      && chain[k] != LeftOf(chain, k) && chain[k] != p.prev
      && (p.Ignored() ==> !p.Rightmost())
      && (!p.Ignored() ==> p.prev == LeftOf(chain, k) && p.level == level.level && SoundPage(index, p))
  }

  /** The first page is live; if there are others its downlink is a block number. */
  predicate StartsWell(index: Index, level: Level, chain: seq<nat>)
    requires chain != []
  {
    && Readable(index, chain[0])
    && var p := index.pages[chain[0]];
      && !p.Ignored() && FirstPageOk(level, p)
      && (|chain| > 1 && !p.leaf ==> p.items[p.First()].down != INVALID)
  }

  /** The chain of right links from the leftmost page on, up to a page without one. */
  ghost predicate SoundLevel(index: Index, level: Level, chain: seq<nat>) {
    && chain != [] && chain[0] == level.leftmost && StartsWell(index, level, chain)
    && forall k :: 0 <= k < |chain| ==> SoundAt(index, level, chain, k)
  }

  /** The level below, from the first page of a level. */
  function LevelBelow(p: Page): Level {
    if p.leaf || p.First() >= |p.items| || p.level == 0 then Level(INVALID, P_NONE, false)
    else Level(p.level - 1, p.items[p.First()].down, false)
  }

  // ----- the page to the right, as the check finds it -----

  lemma RestLeads(index: Index, b: nat, path: seq<nat>)
    requires LeadsTo(index, b, path) && |path| > 1
    ensures LeadsTo(index, path[1], path[1..])
  {
    var rest := path[1..];
    forall k | 0 <= k < |rest| - 1 ensures SkipsTo(index, rest[k], rest[k + 1]) {
      assert SkipsTo(index, path[k + 1], path[k + 2]);
    }
  }

  lemma {:induction false} FetchAlong(index: Index, b: nat, path: seq<nat>, fuel: nat)
    requires LeadsTo(index, b, path) && |path| <= fuel
    ensures var p := index.pages[path[|path| - 1]];
      FirstKeyFrom(index, b, fuel) == if p.RealItems() != [] then KeyIs(p.RealItems()[0].key) else NoKey
    decreases |path|
  {
    if |path| > 1 {
      assert SkipsTo(index, path[0], path[1]);
      RestLeads(index, b, path);
      FetchAlong(index, path[1], path[1..], fuel - 1);
    }
  }

  lemma {:induction false} FetchLeads(index: Index, b: nat, fuel: nat) returns (path: seq<nat>)
    requires !FirstKeyFrom(index, b, fuel).Failed? && !FirstKeyFrom(index, b, fuel).Looping?
    ensures LeadsTo(index, b, path) && |path| <= fuel
    decreases fuel
  {
    if SkippedOver(index, b) {
      var rest := FetchLeads(index, Load(index, b).value.next, fuel - 1);
      path := [b] + rest;
      forall k | 0 <= k < |path| - 1 ensures SkipsTo(index, path[k], path[k + 1]) {
        if k > 0 { assert SkipsTo(index, rest[k - 1], rest[k]); }
      }
    } else {
      path := [b];
    }
  }

  /** A path that ends passes no block twice. */
  lemma {:induction false} SameBlockSameRest(index: Index, path: seq<nat>, i: nat, j: nat)
    requires path != [] && LeadsTo(index, path[0], path) && i < j < |path| && path[i] == path[j]
    ensures false
    decreases |path| - j
  {
    assert SkipsTo(index, path[i], path[i + 1]);
    if j + 1 < |path| {
      assert SkipsTo(index, path[j], path[j + 1]);
      SameBlockSameRest(index, path, i + 1, j + 1);
    }
  }

  lemma PathIsShort(index: Index, b: nat, path: seq<nat>)
    requires LeadsTo(index, b, path)
    ensures |path| <= |index.pages|
  {
    forall i, j | 0 <= i < j < |path| ensures path[i] != path[j] {
      if path[i] == path[j] { SameBlockSameRest(index, path, i, j); }
    }
    assert Distinct(path);
    forall k | 0 <= k < |path| ensures path[k] < |index.pages| {
      if k < |path| - 1 { assert SkipsTo(index, path[k], path[k + 1]); }
    }
    DistinctCount(path);
    UptoCount(|index.pages|);
    assert Elements(path) <= Upto(|index.pages|);
    SubsetCount(Elements(path), Upto(|index.pages|));
  }

  predicate RightKeyOk(index: Index, p: Page, key: int) {
    var r := RightKey(index, p);
    !r.Looping? && !r.Failed? && (r.KeyIs? ==> index.le(key, r.key))
  }

  lemma RightKeyExactly(index: Index, p: Page, key: int)
    ensures RightKeyOk(index, p, key) <==> BoundedRight(index, p, key)
  {
    hide FirstKeyFrom, SkipsTo, SkippedOver;
    var n := |index.pages| + 1;
    if !p.Rightmost() {
      if RightKeyOk(index, p, key) {
        var path := FetchLeads(index, p.next, n);
        FetchAlong(index, p.next, path, n);
        assert NotAbove(index, key, path[|path| - 1]);
      }
      if path :| LeadsTo(index, p.next, path) && NotAbove(index, key, path[|path| - 1]) {
        PathIsShort(index, p.next, path);
        FetchAlong(index, p.next, path, n);
      }
    }
  }

  // ----- pages, as the check judges them -----

  lemma DownlinkExactly(index: Index, a: Item)
    ensures DownlinkOk(index, a) <==> Readable(index, a.down) && BoundsPage(index, a.key, a.down)
  {}

  lemma ItemExactly(index: Index, p: Page, o: nat)
    requires p.FirstReal() <= o < |p.items|
    ensures ItemVerdict(index, p, o).Good? <==>
      SoundItem(index, p, o) && (o + 1 == |p.items| ==> BoundedRight(index, p, p.items[o].key))
  {
    hide DownlinkOk, BoundsPage, RightKey, BoundedRight;
    DownlinkExactly(index, p.items[o]);
    RightKeyExactly(index, p, p.items[o].key);
  }

  lemma {:induction false} ItemsExactly(index: Index, p: Page, o: nat)
    requires p.FirstReal() <= o
    ensures ItemsVerdict(index, p, o).Good? <==>
      && (forall i :: o <= i < |p.items| ==> SoundItem(index, p, i))
      && (o < |p.items| ==> BoundedRight(index, p, p.items[|p.items| - 1].key))
    decreases |p.items| - o
  {
    hide ItemVerdict, SoundItem, BoundedRight;
    if o < |p.items| {
      ItemExactly(index, p, o);
      ItemsExactly(index, p, o + 1);
    }
  }

  /** A page passes exactly when it is sound. */
  lemma PageExactly(index: Index, p: Page)
    ensures PageVerdict(index, p).Good? <==> SoundPage(index, p)
  {
    ItemsExactly(index, p, p.FirstReal());
  }

  // ----- levels, as the check walks them -----

  /** The first page knows the level below. */
  predicate KnowsBelow(index: Index, level: Level, chain: seq<nat>, below: Level)
    requires chain != []
  {
    Load(index, chain[0]).Some? && !Load(index, chain[0]).value.Ignored() && FirstPageOk(level, Load(index, chain[0]).value)
    && below == LevelBelow(Load(index, chain[0]).value)
  }

  lemma BelowExactly(level: Level, p: Page)
    ensures Below(level, p).Some? <==> FirstPageOk(level, p)
    ensures Below(level, p).Some? ==> Below(level, p).value == LevelBelow(p)
  {}

  /** The first step. */
  lemma FirstStep(index: Index, level: Level, chain: seq<nat>)
    requires chain != [] && chain[0] == level.leftmost != P_NONE
    requires Load(index, chain[0]).Some? && Load(index, chain[0]).value.next == NextOf(chain, 0) && !Load(index, chain[0]).value.Ignored()
    ensures var (p, c) := (Load(index, chain[0]).value, Cursor(P_NONE, chain[0], NO_LEVEL));
      StepPage(index, level, c) == Moved(Cursor(chain[0], NextOf(chain, 0), LevelBelow(p)))
      <==> FirstPageOk(level, p) && SoundAt(index, level, chain, 0)
  {
    hide PageVerdict, SoundPage;
    var p := Load(index, chain[0]).value;
    PageExactly(index, p);
    BelowExactly(level, p);
  }

  /** Every other step. */
  lemma LaterStep(index: Index, level: Level, chain: seq<nat>, k: nat, below: Level)
    requires 0 < k < |chain| && below.leftmost != INVALID && chain[k] != P_NONE
    ensures StepPage(index, level, Cursor(chain[k - 1], chain[k], below)) == Moved(Cursor(chain[k], NextOf(chain, k), below))
      <==> SoundAt(index, level, chain, k)
  {
    hide PageVerdict, SoundPage;
    if Load(index, chain[k]).Some? { PageExactly(index, Load(index, chain[k]).value); }
  }

  /** A sound chain is walked to its end. */
  lemma {:induction false} SoundIsWalked(index: Index, level: Level, chain: seq<nat>, k: nat, below: Level, fuel: nat)
    requires 0 < k < |chain| && below.leftmost != INVALID && |chain| - k <= fuel
    requires forall j :: k <= j < |chain| ==> SoundAt(index, level, chain, j)
    ensures Walk(index, level, Cursor(chain[k - 1], chain[k], below), chain[..k], fuel) == Accepted(below, chain)
    decreases fuel
  {
    hide SoundAt, StepPage;
    NotNone(index, level, chain, k);
    LaterStep(index, level, chain, k, below);
    assert chain[..k] + [chain[k]] == chain[..k + 1];
    if k + 1 < |chain| {
      NotNone(index, level, chain, k + 1);
      SoundIsWalked(index, level, chain, k + 1, below, fuel - 1);
    } else {
      assert chain[..k + 1] == chain;
    }
  }

  lemma NotNone(index: Index, level: Level, chain: seq<nat>, k: nat)
    requires 0 < k < |chain| && SoundAt(index, level, chain, k)
    ensures chain[k] != P_NONE
  {}

  /** A sound level is accepted, with its chain and the level below. */
  lemma SoundIsAccepted(index: Index, level: Level, chain: seq<nat>, fuel: nat)
    requires level.leftmost != P_NONE && SoundLevel(index, level, chain) && |chain| <= fuel
    ensures CheckLevel(index, level, fuel) == Accepted(LevelBelow(Load(index, chain[0]).value), chain)
  {
    hide StepPage, SoundPage;
    var p := Load(index, chain[0]).value;
    assert SoundAt(index, level, chain, 0);
    FirstStep(index, level, chain);
    assert [] + [chain[0]] == chain[..1];
    if |chain| > 1 {
      assert SoundAt(index, level, chain, 1);
      SoundIsWalked(index, level, chain, 1, LevelBelow(p), fuel - 1);
    } else {
      assert chain[..1] == chain;
    }
  }

  /** An accepted walk has gone along a sound chain. */
  lemma {:induction false} WalkedIsSound(index: Index, level: Level, left: nat, current: nat, below: Level, visited: seq<nat>, fuel: nat)
    requires visited != [] && visited[|visited| - 1] == left && current != P_NONE && below.leftmost != INVALID
    requires Walk(index, level, Cursor(left, current, below), visited, fuel).Accepted?
    ensures var r := Walk(index, level, Cursor(left, current, below), visited, fuel);
      && r.below == below && visited + [current] <= r.visited && |r.visited| <= |visited| + fuel
      && forall k :: |visited| <= k < |r.visited| ==> SoundAt(index, level, r.visited, k)
    decreases fuel
  {
    hide SoundAt;
    var (c, k) := (Cursor(left, current, below), |visited|);
    var chain := Walk(index, level, c, visited, fuel).visited;
    StepKeepsBelow(index, level, c);
    var d := StepPage(index, level, c).to;
    if d.current != P_NONE {
      WalkedIsSound(index, level, current, d.current, below, visited + [current], fuel - 1);
      assert chain[k + 1] == d.current && chain[k] == current;
    }
    assert chain[k - 1] == left;
    LaterStep(index, level, chain, k, below);
  }

  lemma StepKeepsBelow(index: Index, level: Level, c: Cursor)
    requires StepPage(index, level, c).Moved?
    ensures StepPage(index, level, c).to.left == c.current
    ensures c.below.leftmost != INVALID ==> StepPage(index, level, c).to.below == c.below
  {}

  /** A walk that has not met a live page first is refused at the next live one. */
  lemma {:induction false} LateStartFails(index: Index, level: Level, c: Cursor, visited: seq<nat>, fuel: nat)
    requires c.below.leftmost == INVALID && c.left != P_NONE && c.current != P_NONE
    ensures !Walk(index, level, c, visited, fuel).Accepted?
    decreases fuel
  {
    hide PageVerdict;
    if fuel > 0 && StepPage(index, level, c).Moved? {
      var d := StepPage(index, level, c).to;
      LateStartFails(index, level, d, visited + [c.current], fuel - 1);
    }
  }

  lemma FirstMove(index: Index, level: Level)
    requires level.leftmost != P_NONE && StepPage(index, level, Cursor(P_NONE, level.leftmost, NO_LEVEL)).Moved?
    ensures Load(index, level.leftmost).Some?
    ensures var (p, d) := (Load(index, level.leftmost).value, StepPage(index, level, Cursor(P_NONE, level.leftmost, NO_LEVEL)).to);
      && d.left == level.leftmost && d.current == p.next
      && (p.Ignored() ==> d.below.leftmost == INVALID && p.next != P_NONE)
      && (!p.Ignored() ==> d.below == LevelBelow(p) && FirstPageOk(level, p))
  {
    hide PageVerdict;
  }

  /** An accepted level is sound along what was visited. */
  lemma AcceptedIsSound(index: Index, level: Level, fuel: nat)
    requires level.leftmost != P_NONE && CheckLevel(index, level, fuel).Accepted?
    ensures var r := CheckLevel(index, level, fuel);
      && |r.visited| <= fuel && SoundLevel(index, level, r.visited) && r.below == LevelBelow(Load(index, r.visited[0]).value)
  {
    hide StepPage, SoundAt;
    var c := Cursor(P_NONE, level.leftmost, NO_LEVEL);
    var chain := CheckLevel(index, level, fuel).visited;
    FirstMove(index, level);
    var (p, d) := (Load(index, level.leftmost).value, StepPage(index, level, c).to);
    assert [] + [c.current] == [level.leftmost];
    if d.current != P_NONE {
      if d.below.leftmost == INVALID { LateStartFails(index, level, d, [level.leftmost], fuel - 1); }
      WalkedIsSound(index, level, d.left, d.current, d.below, [level.leftmost], fuel - 1);
    }
    assert chain[0] == level.leftmost && NextOf(chain, 0) == p.next;
    FirstStep(index, level, chain);
  }

  /**
   A level is accepted, with what it visited, exactly when that is the chain of a sound level: pages load, links
   and level numbers agree, items are in order, within the high key and the next page, and downlinks bound children.
   */
  lemma AcceptedExactly(index: Index, level: Level, chain: seq<nat>, fuel: nat)
    requires level.leftmost != P_NONE
    ensures CheckLevel(index, level, fuel).Accepted? && CheckLevel(index, level, fuel).visited == chain
      <==> |chain| <= fuel && SoundLevel(index, level, chain)
  {
    hide CheckLevel, SoundLevel;
    if CheckLevel(index, level, fuel).Accepted? { AcceptedIsSound(index, level, fuel); }
    if |chain| <= fuel && SoundLevel(index, level, chain) { SoundIsAccepted(index, level, chain, fuel); }
  }

  // ----- the index -----

  /** The levels from `level` down are sound, up to one that has none below. */
  ghost predicate SoundFrom(index: Index, level: Level, chains: seq<seq<nat>>)
    decreases |chains|
  {
    && chains != [] && SoundLevel(index, level, chains[0])
    && var below := LevelBelow(Load(index, chains[0][0]).value);
      && below.leftmost != INVALID
      && if below.leftmost == P_NONE then |chains| == 1 else SoundFrom(index, below, chains[1..])
  }

  /** The metapage loads, and there is no root or all levels from the root down are sound. */
  ghost predicate SoundIndex(index: Index, chains: seq<seq<nat>>) {
    && Load(index, 0).Some?
    && if index.rootBlock == P_NONE then chains == [] else SoundFrom(index, Level(index.rootLevel, index.rootBlock, true), chains)
  }

  ghost predicate AllShort(chains: seq<seq<nat>>, fuel: nat) { forall i :: 0 <= i < |chains| ==> |chains[i]| <= fuel }

  lemma {:induction false} FromExactly(index: Index, level: Level, chains: seq<seq<nat>>, fuel: nat)
    requires level.leftmost != P_NONE
    ensures CheckFrom(index, level, fuel) == AllAccepted(chains) <==> AllShort(chains, fuel) && SoundFrom(index, level, chains)
    decreases level.level, 1
  {
    hide CheckLevel, SoundLevel;
    if CheckLevel(index, level, fuel).Accepted? {
      AcceptedIsSound(index, level, fuel);
      NextLevelIsLower(index, level, fuel);
      var (below, first) := (CheckLevel(index, level, fuel).below, CheckLevel(index, level, fuel).visited);
      if below.leftmost != INVALID && below.leftmost != P_NONE {
        FromStep(index, level, chains, fuel, below, first);
      } else {
        OneLevel(index, level, chains, fuel, below, first);
      }
    } else if chains != [] && |chains[0]| <= fuel && SoundLevel(index, level, chains[0]) {
      SoundIsAccepted(index, level, chains[0], fuel);
    }
  }

  lemma {:induction false} OneLevel(index: Index, level: Level, chains: seq<seq<nat>>, fuel: nat, below: Level, first: seq<nat>)
    requires level.leftmost != P_NONE && CheckLevel(index, level, fuel) == Accepted(below, first)
    requires below.leftmost == INVALID || below.leftmost == P_NONE
    requires |first| <= fuel && SoundLevel(index, level, first) && below == LevelBelow(Load(index, first[0]).value)
    ensures CheckFrom(index, level, fuel) == AllAccepted(chains) <==> AllShort(chains, fuel) && SoundFrom(index, level, chains)
  {
    hide CheckLevel, SoundLevel;
    if AllShort(chains, fuel) && SoundFrom(index, level, chains) {
      SoundIsAccepted(index, level, chains[0], fuel);
      assert chains == [first];
    }
  }

  lemma {:induction false} FromStep(index: Index, level: Level, chains: seq<seq<nat>>, fuel: nat, below: Level, first: seq<nat>)
    requires level.leftmost != P_NONE && CheckLevel(index, level, fuel) == Accepted(below, first)
    requires below.leftmost != INVALID && below.leftmost != P_NONE && below.level + 1 == level.level
    requires |first| <= fuel && SoundLevel(index, level, first) && below == LevelBelow(Load(index, first[0]).value)
    ensures CheckFrom(index, level, fuel) == AllAccepted(chains) <==> AllShort(chains, fuel) && SoundFrom(index, level, chains)
    decreases level.level, 0
  {
    hide CheckLevel, SoundLevel;
    if CheckFrom(index, level, fuel) == AllAccepted(chains) {
      FromExactly(index, below, chains[1..], fuel);
      assert chains == [first] + chains[1..];
      forall i | 0 <= i < |chains| ensures |chains[i]| <= fuel {
        if i > 0 { assert chains[i] == chains[1..][i - 1]; }
      }
    }
    if AllShort(chains, fuel) && SoundFrom(index, level, chains) {
      SoundIsAccepted(index, level, chains[0], fuel);
      FromExactly(index, below, chains[1..], fuel);
      assert AllShort(chains[1..], fuel);
      assert chains == [first] + chains[1..];
    }
  }

  /** An index is accepted exactly when it is sound: every level, and nothing else is asked. */
  lemma IndexAcceptedExactly(index: Index, chains: seq<seq<nat>>, fuel: nat)
    ensures CheckIndex(index, fuel) == AllAccepted(chains) <==> SoundIndex(index, chains) && AllShort(chains, fuel)
  {
    hide CheckFrom, SoundFrom;
    if index.rootBlock != P_NONE {
      FromExactly(index, Level(index.rootLevel, index.rootBlock, true), chains, fuel);
    }
  }
}
