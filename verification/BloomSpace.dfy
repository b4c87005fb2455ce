/**
 What becomes of free space over whole runs (contrib/bloom: blvacuum.c), and that walks over the pages end.
 */
module BloomSpace {
  import opened BloomSignature
  import opened BloomPage
  import opened BloomProtocol
  import opened BloomRuns

  // ----- the list of pages with room -----

  /** A page that holds tuples and has room for one more. */
  predicate HasBoth(length: nat, p: Page) { TuplesOf(p) != [] && Fits(length, |TuplesOf(p)|) }

  lemma UnusedIsEmpty(s: State, b: nat)
    requires Inv(s) && b < |s.pages| && Unused(s.pages[b])
    ensures TuplesOf(s.pages[b]) == []
  {
    assert PageOk(s.length, s.pages[b]);
  }

  /** The page a vacuum visits is listed if it then holds tuples and has room. */
  lemma VisitLists(r: State, s: State, pid: nat)
    requires Steps(r, VacuumPage(pid), s) && pid in r.procs && r.procs[pid].Vacuum?
    requires r.procs[pid].blkno < |r.pages| && (Unused(r.pages[r.procs[pid].blkno]) ==> TuplesOf(r.pages[r.procs[pid].blkno]) == [])
    ensures pid in s.procs && s.procs[pid].Vacuum?
    ensures var (v, w) := (r.procs[pid], s.procs[pid]);
      && w.blkno == v.blkno + 1 && v.blkno < |s.pages|
      && w.list == if HasBoth(r.length, s.pages[v.blkno]) && |v.list| < META_BLOCKS then v.list + [v.blkno] else v.list
  {}

  /** One action as a vacuum sees it. */
  lemma VacuumListStep(r: State, a: Action, s: State, pid: nat)
    requires Inv(r) && Steps(r, a, s) && pid in r.procs && r.procs[pid].Vacuum? && a != VacuumMeta(pid)
    ensures pid in s.procs && s.procs[pid].Vacuum?
    ensures a != VacuumPage(pid) ==> s.procs[pid] == r.procs[pid]
    ensures a == VacuumPage(pid) ==>
      var (v, w) := (r.procs[pid], s.procs[pid]);
      && w.blkno == v.blkno + 1 && v.blkno < |s.pages|
      && w.list == if HasBoth(r.length, s.pages[v.blkno]) && |v.list| < META_BLOCKS then v.list + [v.blkno] else v.list
  {
    if a == VacuumPage(pid) {
      var b := r.procs[pid].blkno;
      assert b < |r.pages|;
      hide Inv, Steps;
      if Unused(r.pages[b]) { UnusedIsEmpty(r, b); }
      VisitLists(r, s, pid);
    } else {
      hide Inv, Steps;
      if !IsOther(a, pid) { OwnAction(r, a, s, pid); }
      OthersLeave(r, a, s, pid);
    }
  }

  /** The vacuum `pid` that began with action `i` still goes on in state `j`. */
  ghost predicate Vacuuming(actions: seq<Action>, i: nat, j: nat, pid: nat) {
    i < j <= |actions| && actions[i].StartVacuum? && actions[i].pid == pid && forall k :: i < k < j ==> actions[k] != VacuumMeta(pid)
  }

  ghost predicate InVacuum(s: State, pid: nat) { pid in s.procs && s.procs[pid].Vacuum? }

  lemma StepOf(length: nat, actions: seq<Action>, states: seq<State>, j: nat)
    requires Run(length, actions, states) && j < |actions|
    ensures Steps(states[j], actions[j], states[j + 1]) && Inv(states[j]) && states[j].length == length
  {
    RunInv(length, actions, states, j);
    RunLength(length, actions, states, j);
  }

  lemma VacuumBegins(r: State, a: Action, s: State)
    requires Steps(r, a, s) && a.StartVacuum?
    ensures InVacuum(s, a.pid) && s.procs[a.pid].blkno == 1 && s.procs[a.pid].list == []
  {}

  /** Only pages behind it are listed. */
  lemma {:induction false} ListedAreBehind(length: nat, actions: seq<Action>, states: seq<State>, i: nat, j: nat, pid: nat)
    requires Run(length, actions, states) && Vacuuming(actions, i, j, pid)
    ensures InVacuum(states[j], pid)
    ensures var v := states[j].procs[pid]; v.blkno >= 1 && forall l :: 0 <= l < |v.list| ==> v.list[l] < v.blkno
    decreases j
  {
    hide Steps, Inv, HasBoth;
    var (r, a, s) := (states[j - 1], actions[j - 1], states[j]);
    StepOf(length, actions, states, j - 1);
    if j - 1 > i {
      ListedAreBehind(length, actions, states, i, j - 1, pid);
      VacuumListStep(r, a, s, pid);
    } else {
      VacuumBegins(r, a, s);
    }
  }

  /** Every page behind it was visited. */
  lemma {:induction false} VisitOf(length: nat, actions: seq<Action>, states: seq<State>, i: nat, j: nat, pid: nat, b: nat) returns (k: nat)
    requires Run(length, actions, states) && Vacuuming(actions, i, j, pid)
    requires InVacuum(states[j], pid) && 1 <= b < states[j].procs[pid].blkno
    ensures i < k < j && actions[k] == VacuumPage(pid) && InVacuum(states[k], pid) && states[k].procs[pid].blkno == b
    decreases j
  {
    hide Steps, Inv, HasBoth;
    var (r, a, s) := (states[j - 1], actions[j - 1], states[j]);
    StepOf(length, actions, states, j - 1);
    if j - 1 == i { VacuumBegins(r, a, s); }
    ListedAreBehind(length, actions, states, i, j - 1, pid);
    VacuumListStep(r, a, s, pid);
    if b < r.procs[pid].blkno { k := VisitOf(length, actions, states, i, j - 1, pid, b); } else { k := j - 1; }
  }

  /** What a later action does to the place of page `b` on the list. */
  lemma ListedStays(r: State, a: Action, s: State, pid: nat, b: nat)
    requires Inv(r) && Steps(r, a, s) && InVacuum(r, pid) && a != VacuumMeta(pid) && b < r.procs[pid].blkno
    ensures InVacuum(s, pid) && b < s.procs[pid].blkno && (b in s.procs[pid].list <==> b in r.procs[pid].list)
  {
    hide Steps, Inv, HasBoth;
    VacuumListStep(r, a, s, pid);
  }

  /** What the visit does to it. */
  lemma ListedNow(r: State, s: State, pid: nat, b: nat)
    requires Inv(r) && Steps(r, VacuumPage(pid), s) && InVacuum(r, pid) && b == r.procs[pid].blkno
    requires forall l :: 0 <= l < |r.procs[pid].list| ==> r.procs[pid].list[l] < b
    ensures InVacuum(s, pid) && b < s.procs[pid].blkno && b < |s.pages|
    ensures b in s.procs[pid].list <==> HasBoth(r.length, s.pages[b]) && |r.procs[pid].list| < META_BLOCKS
  {
    hide Steps, Inv, HasBoth;
    VacuumListStep(r, VacuumPage(pid), s, pid);
    var (v, w) := (r.procs[pid], s.procs[pid]);
    if HasBoth(r.length, s.pages[b]) && |v.list| < META_BLOCKS { assert w.list[|v.list|] == b; }
  }

  /** Whether a page is listed is decided when it is visited. */
  lemma {:induction false} ListedWhenVisited(length: nat, actions: seq<Action>, states: seq<State>, i: nat, k: nat, j: nat, pid: nat, b: nat)
    requires Run(length, actions, states) && Vacuuming(actions, i, j, pid) && i < k < j
    requires actions[k] == VacuumPage(pid) && InVacuum(states[k], pid) && states[k].procs[pid].blkno == b
    ensures b < |states[k + 1].pages| && InVacuum(states[j], pid) && b < states[j].procs[pid].blkno
    ensures b in states[j].procs[pid].list <==> HasBoth(length, states[k + 1].pages[b]) && |states[k].procs[pid].list| < META_BLOCKS
    decreases j
  {
    hide Steps, Inv, HasBoth;
    assert |states| == |actions| + 1;
    hide Run;
    StepOf(length, actions, states, j - 1);
    if k < j - 1 {
      ListedWhenVisited(length, actions, states, i, k, j - 1, pid, b);
      ListedStays(states[j - 1], actions[j - 1], states[j], pid, b);
    } else {
      ListedAreBehind(length, actions, states, i, k, pid);
      ListedNow(states[k], states[j], pid, b);
    }
  }

  /** A vacuum that writes the metapage has visited every page there was when it began, and lists those that held tuples and
      had room when it left them, up to the number of entries. */
  lemma FreeListExactly(length: nat, actions: seq<Action>, states: seq<State>, i: nat, j: nat, pid: nat, b: nat) returns (k: nat)
    requires Run(length, actions, states) && Vacuuming(actions, i, j, pid) && j < |actions| && actions[j] == VacuumMeta(pid)
    requires 1 <= b < |states[i].pages|
    ensures i < k < j && actions[k] == VacuumPage(pid) && InVacuum(states[k], pid) && states[k].procs[pid].blkno == b < |states[k + 1].pages|
    ensures var m := states[j + 1].meta;
      && m.nStart == 0 && m.nEnd <= |m.notFull|
      && (b in m.notFull[..m.nEnd] <==> HasBoth(length, states[k + 1].pages[b]) && |states[k].procs[pid].list| < META_BLOCKS)
  {
    VacuumRuns(length, actions, states, i, j, pid, actions[i].dead);
    RunInv(length, actions, states, j);
    assert Steps(states[j], actions[j], states[j + 1]);
    var v := states[j].procs[pid];
    assert ProcOk(states[j].length, |states[j].pages|, v);
    assert states[j + 1].meta.notFull[..|v.list|] == v.list;
    hide Steps, Inv, Run;
    k := VisitOf(length, actions, states, i, j, pid, b);
    ListedWhenVisited(length, actions, states, i, k, j, pid, b);
  }

  // ----- pages offered for reuse -----

  /** Since action `i` nobody took block `b` from the free space map, and it has been new or deleted all along. */
  ghost predicate LeftFree(actions: seq<Action>, states: seq<State>, i: nat, j: nat, b: nat) {
    && i <= j <= |actions| && |states| == |actions| + 1
    && (forall k :: i <= k <= j ==> b < |states[k].pages| && Unused(states[k].pages[b]))
    && forall k :: i <= k < j ==> !(actions[k].Recycle? && actions[k].blk == b)
  }

  lemma OwnCleanup(r: State, s: State, pid: nat)
    requires Steps(r, CleanupPage(pid), s)
    ensures pid in r.procs && pid in s.procs && r.procs[pid].Cleanup? && s.procs[pid].Cleanup?
    ensures s.procs[pid].blkno == r.procs[pid].blkno + 1 <= r.procs[pid].npages == s.procs[pid].npages
  {}

  lemma CleanupStep(r: State, a: Action, s: State, pid: nat)
    requires Steps(r, a, s) && pid in r.procs && r.procs[pid].Cleanup?
    ensures pid in s.procs && s.procs[pid].Cleanup? && s.procs[pid].npages == r.procs[pid].npages
    ensures a != CleanupPage(pid) ==> s.procs[pid] == r.procs[pid]
    ensures a == CleanupPage(pid) ==> s.procs[pid].blkno == r.procs[pid].blkno + 1
  {
    hide Steps;
    if IsOther(a, pid) {
      OthersLeave(r, a, s, pid);
    } else {
      OwnAction(r, a, s, pid);
      OwnCleanup(r, s, pid);
    }
  }

  lemma OfferStep(r: State, a: Action, s: State, b: nat)
    requires Steps(r, a, s)
    ensures b in r.fsm && !(a.Recycle? && a.blk == b) ==> b in s.fsm
    ensures a.CleanupPage? && r.procs[a.pid].blkno == b < |r.pages| && Unused(r.pages[b]) ==> b in s.fsm
  {}

  lemma {:induction false} CleanupRuns(length: nat, actions: seq<Action>, states: seq<State>, i: nat, j: nat, pid: nat, b: nat)
    requires Run(length, actions, states) && i < j < |states| && actions[i] == StartCleanup(pid)
    requires LeftFree(actions, states, i, j, b) && b >= 1
    ensures pid in states[j].procs && states[j].procs[pid].Cleanup? && states[j].procs[pid].npages == |states[i].pages|
    ensures b < states[j].procs[pid].blkno ==> b in states[j].fsm
    decreases j
  {
    var (r, a, s) := (states[j - 1], actions[j - 1], states[j]);
    assert Steps(r, a, s);
    if j - 1 > i {
      hide Steps, Run;
      CleanupRuns(length, actions, states, i, j - 1, pid, b);
      CleanupStep(r, a, s, pid);
      OfferStep(r, a, s, b);
    }
  }

  /** A finished cleanup has offered every page that was free all the time and that nobody has taken since. */
  lemma CleanupOffersAll(length: nat, actions: seq<Action>, states: seq<State>, i: nat, j: nat, pid: nat, b: nat)
    requires Run(length, actions, states) && i < j < |states| && actions[i] == StartCleanup(pid)
    requires !Enabled(states[j], CleanupPage(pid)) && 1 <= b < |states[i].pages| && LeftFree(actions, states, i, j, b)
    ensures b in states[j].fsm
  {
    CleanupRuns(length, actions, states, i, j, pid, b);
  }

  // ----- walks over the pages -----

  /** Pages a vacuum, cleanup or scan has before it. */
  function PagesLeft(p: Proc): int {
    match p
    case Vacuum(n, b, _, _, _) => n - b
    case Cleanup(n, b) => n - b
    case Scan(_, b, _, snapshot) => |snapshot| - b
    case _ => 0
  }

  /** Every section of a walk takes it one page on, or ends it with no page left, and nobody else touches it;
      with `NobodyIsStuck` every walk comes to its end. */
  lemma WalkNearsEnd(r: State, a: Action, s: State, pid: nat)
    requires Steps(r, a, s) && pid in r.procs && !IsInsert(r.procs[pid])
    ensures IsOther(a, pid) ==> pid in s.procs && s.procs[pid] == r.procs[pid]
    ensures !IsOther(a, pid) ==>
      if pid in s.procs then 0 <= PagesLeft(s.procs[pid]) == PagesLeft(r.procs[pid]) - 1 else PagesLeft(r.procs[pid]) <= 0
  {
    if IsOther(a, pid) {
      hide Steps;
      OthersLeave(r, a, s, pid);
    } else {
      OwnAction(r, a, s, pid);
      match r.procs[pid]
      case Vacuum(_, _, _, _, _) => if a == VacuumPage(pid) { OwnVacuum(r, s, pid); }
      case Cleanup(_, _) => OwnCleanup(r, s, pid);
      case Scan(_, _, _, _) => OwnScan(r, s, pid);
    }
  }
}
