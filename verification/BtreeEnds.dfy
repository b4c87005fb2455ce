/**
 When the walks of amcheck (contrib/amcheck/verify_nbtree.c) end.

 Both follow right links and neither keeps a record of where it has been.  A walk that does not
 end passes a block twice, and then the first block it passes twice is ignorable: a live page
 has to agree with its left neighbour.
 */
module BtreeEnds {
  import opened Sorting
  import opened BtreeCheck

  // ----- right links -----

  function NextBlock(index: Index, b: nat): nat { if b < |index.pages| then index.pages[b].next else b }

  /** The block `n` right links from `b`. */
  function Follow(index: Index, b: nat, n: nat): nat {
    if n == 0 then b else NextBlock(index, Follow(index, b, n - 1))
  }

  lemma {:induction false} FollowOn(index: Index, b: nat, m: nat, n: nat)
    ensures Follow(index, b, m + n) == Follow(index, Follow(index, b, m), n)
  {
    if n > 0 { FollowOn(index, b, m, n - 1); }
  }

  /** Once right links return to a block they go round. */
  lemma FollowRound(index: Index, b: nat, i: nat, j: nat, n: nat)
    requires i <= j && Follow(index, b, i) == Follow(index, b, j)
    ensures Follow(index, b, i + n) == Follow(index, b, j + n)
  {
    FollowOn(index, b, i, n);
    FollowOn(index, b, j, n);
  }

  // ----- the search for a live page to the right -----

  /** `bt_right_page_check_scankey` steps over the block. */
  predicate SteppedOver(index: Index, b: nat) {
    Load(index, b).Some? && Load(index, b).value.Ignored() && !Load(index, b).value.Rightmost()
  }

  ghost predicate AllSteppedOver(index: Index, b: nat, n: nat) {
    forall k :: 0 <= k < n ==> SteppedOver(index, Follow(index, b, k))
  }

  lemma {:induction false} LoopingIsDead(index: Index, b: nat, n: nat)
    ensures FirstKeyFrom(index, b, n).Looping? <==> AllSteppedOver(index, b, n)
    decreases n
  {
    if n > 0 {
      var next := NextBlock(index, b);
      LoopingIsDead(index, next, n - 1);
      forall k | 0 <= k < n - 1 ensures Follow(index, next, k) == Follow(index, b, k + 1) { FollowOn(index, b, 1, k); }
      if AllSteppedOver(index, b, n) {
        assert SteppedOver(index, Follow(index, b, 0));
        forall k | 0 <= k < n - 1 ensures SteppedOver(index, Follow(index, next, k)) {
          assert SteppedOver(index, Follow(index, b, k + 1));
        }
      }
      if SteppedOver(index, b) && AllSteppedOver(index, next, n - 1) {
        forall k | 0 <= k < n ensures SteppedOver(index, Follow(index, b, k)) {
          if k > 0 { assert SteppedOver(index, Follow(index, next, k - 1)); }
        }
      }
    }
  }

  lemma {:induction false} RoundIsSteppedOver(index: Index, b: nat, i: nat, j: nat, k: nat)
    requires i < j && Follow(index, b, i) == Follow(index, b, j) && AllSteppedOver(index, b, j)
    ensures SteppedOver(index, Follow(index, b, k))
    decreases k
  {
    if k >= j {
      RoundIsSteppedOver(index, b, i, j, k - (j - i));
      FollowRound(index, b, i, j, k - j);
    }
  }

  ghost function Followed(index: Index, b: nat, n: nat): (s: seq<nat>)
    ensures |s| == n && forall k :: 0 <= k < n ==> s[k] == Follow(index, b, k)
  {
    if n == 0 then [] else Followed(index, b, n - 1) + [Follow(index, b, n - 1)]
  }

  lemma SteppedOverRepeats(index: Index, b: nat, n: nat) returns (i: nat, j: nat)
    requires AllSteppedOver(index, b, n) && n > |index.pages|
    ensures i < j < n && Follow(index, b, i) == Follow(index, b, j)
  {
    var s := Followed(index, b, n);
    forall k | 0 <= k < n ensures s[k] in Upto(|index.pages|) { assert SteppedOver(index, Follow(index, b, k)); }
    UptoCount(|index.pages|);
    i, j := Pigeonhole(s, Upto(|index.pages|));
  }

  /** A search that has stepped over more blocks than there are never ends. */
  lemma LoopingForever(index: Index, b: nat, n: nat)
    requires FirstKeyFrom(index, b, |index.pages| + 1).Looping?
    ensures FirstKeyFrom(index, b, n).Looping?
  {
    LoopingIsDead(index, b, |index.pages| + 1);
    var i, j := SteppedOverRepeats(index, b, |index.pages| + 1);
    forall k | 0 <= k < n ensures SteppedOver(index, Follow(index, b, k)) { RoundIsSteppedOver(index, b, i, j, k); }
    LoopingIsDead(index, b, n);
  }

  // ----- walks -----

  predicate Known(below: Level) { below.leftmost != INVALID }

  /** Same place, and no less known of the level below. */
  predicate Ahead(c: Cursor, d: Cursor) {
    c.left == d.left && c.current == d.current && (Known(c.below) ==> Known(d.below))
  }

  type Step = Cursor -> Stepped

  /** A step goes right and never forgets what it knows of the level below. */
  ghost predicate StepsRight(index: Index, step: Step, c: Cursor) {
    step(c).Moved? ==>
      && step(c).to.left == c.current && step(c).to.current == NextBlock(index, c.current)
      && c.current < |index.pages| && (Known(c.below) ==> Known(step(c).to.below))
  }

  /** It does not fail for knowing more. */
  ghost predicate StepsAlike(step: Step, c: Cursor, d: Cursor) {
    Ahead(c, d) && step(c).Moved? ==> step(d).Moved? && Ahead(step(c).to, step(d).to)
  }

  ghost predicate Regular(index: Index, step: Step) {
    (forall c :: StepsRight(index, step, c)) && forall c, d :: StepsAlike(step, c, d)
  }

  ghost function StepOf(index: Index, level: Level): Step { (c: Cursor) => StepPage(index, level, c) }

  lemma StepIsRegular(index: Index, level: Level)
    ensures Regular(index, StepOf(index, level))
  {}

  /** The cursor after `n` pages, if the walk gets that far. */
  ghost function CursorAt(step: Step, c: Cursor, n: nat): Option<Cursor> {
    if n == 0 then Some(c)
    else if CursorAt(step, c, n - 1).None? then None
    else
      var r := step(CursorAt(step, c, n - 1).value);
      if r.Moved? && r.to.current != P_NONE then Some(r.to) else None
  }

  /** The walk passes its `n`-th page. */
  ghost predicate Passes(step: Step, c: Cursor, n: nat) {
    CursorAt(step, c, n).Some? && step(CursorAt(step, c, n).value).Moved?
  }

  /** The check of the `n`-th page does not end. */
  ghost predicate HangsAt(step: Step, c: Cursor, n: nat) {
    CursorAt(step, c, n).Some? && step(CursorAt(step, c, n).value).Hung?
  }

  ghost function BlockAt(step: Step, c: Cursor, n: nat): nat
    requires CursorAt(step, c, n).Some?
  {
    CursorAt(step, c, n).value.current
  }

  lemma {:induction false} Earlier(step: Step, c: Cursor, m: nat, n: nat)
    requires m <= n && CursorAt(step, c, n).Some?
    ensures CursorAt(step, c, m).Some? && (m < n ==> Passes(step, c, m))
  {
    if m < n { Earlier(step, c, m, n - 1); }
  }

  lemma {:induction false} BlockIsFollow(index: Index, step: Step, c: Cursor, n: nat)
    requires Regular(index, step) && CursorAt(step, c, n).Some?
    ensures BlockAt(step, c, n) == Follow(index, c.current, n)
  {
    if n > 0 {
      BlockIsFollow(index, step, c, n - 1);
      assert StepsRight(index, step, CursorAt(step, c, n - 1).value);
    }
  }

  /** After `n` pages the walk is still under way, or it has met a page whose check does not end. */
  ghost predicate Busy(step: Step, c: Cursor, n: nat) {
    CursorAt(step, c, n).Some? || exists m :: 0 <= m < n && HangsAt(step, c, m)
  }

  lemma BusyStops(step: Step, c: Cursor, m: nat, n: nat)
    requires CursorAt(step, c, m).Some? && CursorAt(step, c, m + 1).None? && m < n
    ensures Busy(step, c, n) <==> HangsAt(step, c, m)
  {
    if CursorAt(step, c, n).Some? { Earlier(step, c, m + 1, n); }
    if exists k :: 0 <= k < n && HangsAt(step, c, k) {
      var k :| 0 <= k < n && HangsAt(step, c, k);
      if k < m { Earlier(step, c, k, m); } else if k > m { Earlier(step, c, m + 1, k); }
    }
  }

  /** A walk of `fuel` pages from `c` is not over. */
  ghost predicate Running(step: Step, c: Cursor, fuel: nat)
    decreases fuel
  {
    fuel == 0 || step(c).Hung? || (step(c).Moved? && step(c).to.current != P_NONE && Running(step, step(c).to, fuel - 1))
  }

  lemma {:induction false} WalkIsRunning(index: Index, level: Level, c: Cursor, visited: seq<nat>, fuel: nat)
    ensures Walk(index, level, c, visited, fuel).Unfinished? <==> Running(StepOf(index, level), c, fuel)
    decreases fuel
  {
    if fuel > 0 {
      var r := StepPage(index, level, c);
      assert StepOf(index, level)(c) == r;
      if r.Moved? { WalkIsRunning(index, level, r.to, visited + [c.current], fuel - 1); }
    }
  }

  lemma {:induction false} RunningIsBusy(step: Step, start: Cursor, m: nat, fuel: nat)
    requires CursorAt(step, start, m).Some?
    ensures Running(step, CursorAt(step, start, m).value, fuel) <==> Busy(step, start, m + fuel)
    decreases fuel
  {
    if fuel > 0 {
      if CursorAt(step, start, m + 1).Some? {
        RunningIsBusy(step, start, m + 1, fuel - 1);
      } else {
        BusyStops(step, start, m, m + fuel);
      }
    }
  }

  // ----- passing a block again -----

  /** The walk passes a block it has passed before. */
  ghost predicate PassesAgain(step: Step, c: Cursor, i: nat, j: nat) {
    i < j && Passes(step, c, i) && Passes(step, c, j) && BlockAt(step, c, i) == BlockAt(step, c, j)
  }

  lemma {:induction false} KnownStays(index: Index, step: Step, c: Cursor, m: nat, n: nat)
    requires Regular(index, step) && m <= n && CursorAt(step, c, n).Some? && CursorAt(step, c, m).Some?
    ensures Known(CursorAt(step, c, m).value.below) ==> Known(CursorAt(step, c, n).value.below)
  {
    if m < n {
      Earlier(step, c, n - 1, n);
      KnownStays(index, step, c, m, n - 1);
      assert StepsRight(index, step, CursorAt(step, c, n - 1).value);
    }
  }

  /** Past a repeated block the walk is where it was, and goes round for ever. */
  lemma {:induction false} GoesRound(index: Index, step: Step, c: Cursor, i: nat, j: nat, n: nat)
    requires Regular(index, step) && PassesAgain(step, c, i, j)
    ensures CursorAt(step, c, i + 1 + n).Some? && CursorAt(step, c, j + 1 + n).Some?
    ensures Ahead(CursorAt(step, c, i + 1 + n).value, CursorAt(step, c, j + 1 + n).value)
    decreases n
  {
    if n == 0 {
      RoundStarts(index, step, c, i, j);
    } else {
      GoesRound(index, step, c, i, j, n - 1);
      if i + 1 + n <= j { Earlier(step, c, i + 1 + n, j); } else { GoesRound(index, step, c, i, j, i + n - j); }
      assert StepsAlike(step, CursorAt(step, c, i + n).value, CursorAt(step, c, j + n).value);
    }
  }

  lemma {:induction false} RoundStarts(index: Index, step: Step, c: Cursor, i: nat, j: nat)
    requires Regular(index, step) && PassesAgain(step, c, i, j)
    ensures CursorAt(step, c, i + 1).Some? && CursorAt(step, c, j + 1).Some?
    ensures Ahead(CursorAt(step, c, i + 1).value, CursorAt(step, c, j + 1).value)
  {
    Earlier(step, c, i + 1, j);
    assert StepsRight(index, step, CursorAt(step, c, i).value) && StepsRight(index, step, CursorAt(step, c, j).value);
    assert CursorAt(step, c, j + 1).Some?;
    KnownStays(index, step, c, i + 1, j + 1);
  }

  lemma HangsForEver(step: Step, c: Cursor, m: nat, n: nat)
    requires HangsAt(step, c, m)
    ensures Busy(step, c, n)
  {
    if n <= m { Earlier(step, c, n, m); }
  }

  lemma RoundForEver(index: Index, step: Step, c: Cursor, i: nat, j: nat, n: nat)
    requires Regular(index, step) && PassesAgain(step, c, i, j)
    ensures Busy(step, c, n)
  {
    if n <= j { Earlier(step, c, n, j); } else { GoesRound(index, step, c, i, j, n - j - 1); }
  }

  // ----- the walk along a level -----

  function StartOf(level: Level): Cursor { Cursor(P_NONE, level.leftmost, NO_LEVEL) }

  lemma UnfinishedExactly(index: Index, level: Level, fuel: nat)
    ensures CheckLevel(index, level, fuel).Unfinished? <==> Busy(StepOf(index, level), StartOf(level), fuel)
  {
    WalkIsRunning(index, level, StartOf(level), [], fuel);
    RunningIsBusy(StepOf(index, level), StartOf(level), 0, fuel);
  }

  /** A live page that is passed agrees with its left neighbour. */
  lemma LiveAgrees(index: Index, level: Level, c: Cursor)
    requires StepPage(index, level, c).Moved? && !index.pages[c.current].Ignored()
    ensures index.pages[c.current].prev == c.left
  {}

  lemma LeftIsPrevious(index: Index, step: Step, c: Cursor, n: nat)
    requires Regular(index, step) && CursorAt(step, c, n).Some? && n > 0
    ensures CursorAt(step, c, n - 1).Some? && CursorAt(step, c, n).value.left == BlockAt(step, c, n - 1)
  {
    assert StepsRight(index, step, CursorAt(step, c, n - 1).value);
  }

  /** An ignorable block is passed a second time. */
  ghost predicate DeadAgain(index: Index, step: Step, c: Cursor, i: nat, j: nat) {
    PassesAgain(step, c, i, j) && BlockAt(step, c, i) < |index.pages| && index.pages[BlockAt(step, c, i)].Ignored()
  }

  /** If a block is passed twice, an ignorable one is, no later: a live page would have two left neighbours. */
  lemma {:induction false} RepeatIsDead(index: Index, level: Level, i: nat, j: nat) returns (i': nat, j': nat)
    requires level.leftmost != P_NONE && PassesAgain(StepOf(index, level), StartOf(level), i, j)
    ensures i' <= i && j' <= j && DeadAgain(index, StepOf(index, level), StartOf(level), i', j')
    decreases i
  {
    var (step, start) := (StepOf(index, level), StartOf(level));
    StepIsRegular(index, level);
    var (c, d) := (CursorAt(step, start, i).value, CursorAt(step, start, j).value);
    assert StepsRight(index, step, c);
    if index.pages[c.current].Ignored() {
      return i, j;
    }
    LiveAgrees(index, level, c);
    LiveAgrees(index, level, d);
    LeftIsPrevious(index, step, start, j);
    if i > 0 {
      LeftIsPrevious(index, step, start, i);
      assert Passes(step, start, i - 1) && Passes(step, start, j - 1);
      i', j' := RepeatIsDead(index, level, i - 1, j - 1);
    }
  }

  ghost function Blocks(step: Step, c: Cursor, n: nat): (s: seq<nat>)
    requires CursorAt(step, c, n).Some?
    ensures |s| == n && forall k :: 0 <= k < n ==> CursorAt(step, c, k).Some? && s[k] == BlockAt(step, c, k)
  {
    if n == 0 then [] else Blocks(step, c, n - 1) + [BlockAt(step, c, n - 1)]
  }

  /** A walk over as many pages as the file has passes a block twice. */
  lemma LongWalkRepeats(index: Index, level: Level, n: nat) returns (i: nat, j: nat)
    requires level.leftmost != P_NONE && CursorAt(StepOf(index, level), StartOf(level), n).Some? && n >= |index.pages| > 0
    ensures i < j < n && PassesAgain(StepOf(index, level), StartOf(level), i, j)
  {
    var (step, start) := (StepOf(index, level), StartOf(level));
    StepIsRegular(index, level);
    var s := Blocks(step, start, n);
    var all := Upto(|index.pages|) - {P_NONE};
    forall k | 0 <= k < n ensures s[k] in all {
      Earlier(step, start, k, n);
      assert StepsRight(index, step, CursorAt(step, start, k).value);
    }
    UptoCount(|index.pages|);
    i, j := Pigeonhole(s, all);
    Earlier(step, start, i, n);
    Earlier(step, start, j, n);
  }

  /** Why a walk does not end: the check of a page hangs, or an ignorable block is passed a second time. */
  ghost predicate Trapped(index: Index, level: Level) {
    || (exists n :: 0 <= n < |index.pages| && HangsAt(StepOf(index, level), StartOf(level), n))
    || (exists i, j :: 0 <= i < j < |index.pages| && DeadAgain(index, StepOf(index, level), StartOf(level), i, j))
  }

  lemma BusyIsTrapped(index: Index, level: Level)
    requires level.leftmost != P_NONE && |index.pages| > 0 && CheckLevel(index, level, |index.pages|).Unfinished?
    ensures Trapped(index, level)
  {
    var (step, start, n) := (StepOf(index, level), StartOf(level), |index.pages|);
    UnfinishedExactly(index, level, n);
    if CursorAt(step, start, n).Some? {
      var i, j := LongWalkRepeats(index, level, n);
      var i', j' := RepeatIsDead(index, level, i, j);
    }
  }

  lemma TrappedForEver(index: Index, level: Level, fuel: nat)
    requires Trapped(index, level)
    ensures CheckLevel(index, level, fuel).Unfinished?
  {
    var (step, start) := (StepOf(index, level), StartOf(level));
    StepIsRegular(index, level);
    if exists n :: 0 <= n < |index.pages| && HangsAt(step, start, n) {
      var n :| 0 <= n < |index.pages| && HangsAt(step, start, n);
      HangsForEver(step, start, n, fuel);
    } else {
      var i, j :| 0 <= i < j < |index.pages| && DeadAgain(index, step, start, i, j);
      RoundForEver(index, step, start, i, j, fuel);
    }
    assert Busy(step, start, fuel);
    UnfinishedExactly(index, level, fuel);
  }

  /** The walk along a level never ends exactly when, within as many pages as the file has, the check of
      a page hangs or an ignorable block is passed a second time. */
  lemma NeverEndsExactly(index: Index, level: Level)
    requires level.leftmost != P_NONE
    ensures (forall fuel :: CheckLevel(index, level, fuel).Unfinished?) <==> Trapped(index, level)
  {
    if Trapped(index, level) {
      forall fuel: nat ensures CheckLevel(index, level, fuel).Unfinished? { TrappedForEver(index, level, fuel); }
    } else if |index.pages| > 0 {
      if CheckLevel(index, level, |index.pages|).Unfinished? { BusyIsTrapped(index, level); }
    } else {
      assert StepPage(index, level, StartOf(level)).Refused?;
      assert CheckLevel(index, level, 1).Rejected?;
    }
  }

  // ----- files without a circle of ignorable pages -----

  /** No ignorable page leads back to itself by right links. */
  ghost predicate NoDeadCircle(index: Index) {
    forall b, n {:trigger Follow(index, b, n)} :: 0 < b < |index.pages| && n > 0 && index.pages[b].Ignored() ==> Follow(index, b, n) != b
  }

  lemma NothingLoops(index: Index, p: Page)
    requires NoDeadCircle(index)
    ensures !RightKey(index, p).Looping?
  {
    if RightKey(index, p).Looping? {
      var (b, n) := (p.next, |index.pages| + 1);
      LoopingIsDead(index, b, n);
      var i, j := SteppedOverRepeats(index, b, n);
      assert SteppedOver(index, Follow(index, b, i));
      if i > 0 { assert SteppedOver(index, Follow(index, b, i - 1)); }
      FollowOn(index, b, i, j - i);
    }
  }

  lemma {:induction false} NeverStuck(index: Index, p: Page, o: nat)
    requires NoDeadCircle(index) && p.FirstReal() <= o
    ensures !ItemsVerdict(index, p, o).Stuck?
    decreases |p.items| - o
  {
    NothingLoops(index, p);
    if o < |p.items| { NeverStuck(index, p, o + 1); }
  }

  lemma NotTrapped(index: Index, level: Level)
    requires NoDeadCircle(index) && level.leftmost != P_NONE
    ensures !Trapped(index, level)
  {
    var (step, start) := (StepOf(index, level), StartOf(level));
    StepIsRegular(index, level);
    forall n | 0 <= n < |index.pages| ensures !HangsAt(step, start, n) {
      if CursorAt(step, start, n).Some? { NeverHung(index, level, CursorAt(step, start, n).value); }
    }
    forall i, j | 0 <= i < j < |index.pages| ensures !DeadAgain(index, step, start, i, j) {
      if DeadAgain(index, step, start, i, j) {
        BlockIsFollow(index, step, start, i);
        BlockIsFollow(index, step, start, j);
        FollowOn(index, level.leftmost, i, j - i);
      }
    }
  }

  lemma NeverHung(index: Index, level: Level, c: Cursor)
    requires NoDeadCircle(index)
    ensures !StepPage(index, level, c).Hung?
  {
    if Load(index, c.current).Some? {
      var p := Load(index, c.current).value;
      NeverStuck(index, p, p.FirstReal());
    }
  }

  /** Then a level is accepted or rejected within as many steps as there are blocks. */
  lemma LevelCheckEnds(index: Index, level: Level)
    requires NoDeadCircle(index) && |index.pages| > 0 && level.leftmost != P_NONE
    ensures !CheckLevel(index, level, |index.pages|).Unfinished?
  {
    NotTrapped(index, level);
    if CheckLevel(index, level, |index.pages|).Unfinished? { BusyIsTrapped(index, level); }
  }

  /** And the whole check ends, after at most one walk per level number. */
  lemma {:induction false} CheckEnds(index: Index, level: Level)
    requires NoDeadCircle(index) && |index.pages| > 0 && level.leftmost != P_NONE
    ensures !CheckFrom(index, level, |index.pages|).StillRunning?
    decreases level.level
  {
    LevelCheckEnds(index, level);
    var outcome := CheckLevel(index, level, |index.pages|);
    if outcome.Accepted? {
      NextLevelIsLower(index, level, |index.pages|);
      if outcome.below.leftmost != INVALID && outcome.below.leftmost != P_NONE {
        CheckEnds(index, outcome.below);
      }
    }
  }

  // ----- a file on which it does not -----

  function DeadPage(next: nat): Page { Page(true, false, false, true, false, false, 0, 0, next, []) }

  function DeadPair(): Index {
    Index([Page(false, false, true, false, false, false, 0, 0, 0, []), DeadPage(2), DeadPage(1)], true, 1, 0, IntLe)
  }

  /** Two dead pages linked in a circle, past the reach of the circularity test. */
  lemma DeadCircleNeverEnds(fuel: nat)
    ensures CheckLevel(DeadPair(), Level(0, 1, false), fuel).Unfinished?
  {
    var (index, level) := (DeadPair(), Level(0, 1, false));
    var (step, start) := (StepOf(index, level), StartOf(level));
    assert step(start) == Moved(Cursor(1, 2, NO_LEVEL));
    assert step(Cursor(1, 2, NO_LEVEL)) == Moved(Cursor(2, 1, NO_LEVEL));
    assert step(Cursor(2, 1, NO_LEVEL)) == Moved(Cursor(1, 2, NO_LEVEL));
    assert CursorAt(step, start, 1) == Some(Cursor(1, 2, NO_LEVEL));
    assert CursorAt(step, start, 2) == Some(Cursor(2, 1, NO_LEVEL));
    assert DeadAgain(index, step, start, 0, 2);
    TrappedForEver(index, level, fuel);
  }
}
