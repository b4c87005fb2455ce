/**
 What runs of the Bloom index keep, said of the actions alone (blinsert.c, blvacuum.c, blscan.c): an index
 holds what was inserted and not named dead, scans report what matches and nothing else, vacuums
 remove what they are told to and nothing else, and no process is stuck.
 */
module BloomRuns {
  import opened Sorting
  import opened BloomSignature
  import opened BloomPage
  import opened BloomProtocol

  /** `states` are the states before, between and after the actions, from an empty index. */
  ghost predicate Run(length: nat, actions: seq<Action>, states: seq<State>) {
    && 1 <= length <= 256 && |states| == |actions| + 1 && states[0] == Initial(length)
    && forall i :: 0 <= i < |actions| ==> Steps(states[i], actions[i], states[i + 1])
  }

  lemma {:induction false} RunInv(length: nat, actions: seq<Action>, states: seq<State>, j: nat)
    requires Run(length, actions, states) && j < |states|
    ensures Inv(states[j])
  {
    if j == 0 {
      InitialInv(length);
    } else {
      RunInv(length, actions, states, j - 1);
      assert Steps(states[j - 1], actions[j - 1], states[j]);
      StepKeepsInv(states[j - 1], actions[j - 1]);
    }
  }

  /** Some vacuum has been told that the row is dead. */
  ghost predicate Named(actions: seq<Action>, tid: Tid) {
    exists i :: 0 <= i < |actions| && actions[i].StartVacuum? && tid in actions[i].dead
  }

  /** An insert of the tuple has begun. */
  ghost predicate Begun(actions: seq<Action>, t: Tuple) { StartInsert(t.op, t) in actions }

  // ----- what one action does to the history -----

  lemma OpsStep(r: State, a: Action, s: State)
    requires Steps(r, a, s)
    ensures s.ops == if a.StartInsert? then r.ops[a.pid := a.t] else r.ops
  {}

  /** Tuples are removed by vacuums that name them. */
  lemma RemovedStep(r: State, a: Action, s: State, t: Tuple)
    requires Steps(r, a, s) && t in s.removed && t !in r.removed
    ensures a.VacuumPage? && t.tid in r.procs[a.pid].dead
  {
    if a.VacuumPage? {
      var v := r.procs[a.pid];
      KeptExactly(TuplesOf(r.pages[v.blkno]), v.dead, t);
    }
  }

  /** The action is not one of `pid`. */
  predicate IsOther(a: Action, pid: nat) { a.ExtendOnly? || a.pid != pid }

  /** A process is changed by its own actions only. */
  lemma OthersLeave(r: State, a: Action, s: State, pid: nat)
    requires Steps(r, a, s) && IsOther(a, pid)
    ensures (pid in s.procs <==> pid in r.procs) && (pid in r.procs ==> s.procs[pid] == r.procs[pid])
  {
    hide Filtered, Taken, HasRoom, Reinit, Append, Hits;
  }

  /** What the process can do next, if it walks over the pages. */
  lemma OwnAction(r: State, a: Action, s: State, pid: nat)
    requires Steps(r, a, s) && !IsOther(a, pid) && pid in r.procs
    ensures r.procs[pid].Vacuum? ==> a == VacuumPage(pid) || a == VacuumMeta(pid)
    ensures r.procs[pid].Cleanup? ==> a == CleanupPage(pid)
    ensures r.procs[pid].Scan? ==> a == ScanPage(pid)
  {}

  lemma OwnVacuum(r: State, s: State, pid: nat)
    requires Steps(r, VacuumPage(pid), s)
    ensures pid in r.procs && pid in s.procs && r.procs[pid].Vacuum? && s.procs[pid].Vacuum?
    ensures s.procs[pid].dead == r.procs[pid].dead && s.procs[pid].snapshot == r.procs[pid].snapshot
    ensures s.procs[pid].blkno == r.procs[pid].blkno + 1 <= r.procs[pid].npages == s.procs[pid].npages
  {}

  lemma OwnScan(r: State, s: State, pid: nat)
    requires Steps(r, ScanPage(pid), s)
    ensures pid in r.procs && pid in s.procs && r.procs[pid].Scan? && s.procs[pid].Scan?
    ensures s.procs[pid].query == r.procs[pid].query && s.procs[pid].snapshot == r.procs[pid].snapshot
    ensures s.procs[pid].found == r.procs[pid].found + Hits(r.pages[r.procs[pid].blkno], r.procs[pid].query)
    ensures s.procs[pid].blkno == r.procs[pid].blkno + 1 <= |r.procs[pid].snapshot|
  {}

  /** A process keeps its vacuum until the metapage is written. */
  lemma VacuumStep(r: State, a: Action, s: State, pid: nat)
    requires Steps(r, a, s) && pid in r.procs && r.procs[pid].Vacuum? && a != VacuumMeta(pid)
    ensures pid in s.procs && s.procs[pid].Vacuum?
    ensures s.procs[pid].dead == r.procs[pid].dead && s.procs[pid].snapshot == r.procs[pid].snapshot
  {
    hide Steps;
    if IsOther(a, pid) {
      OthersLeave(r, a, s, pid);
    } else {
      OwnAction(r, a, s, pid);
      OwnVacuum(r, s, pid);
    }
  }

  lemma StartOnly(r: State, a: Action, s: State, pid: nat)
    requires Steps(r, a, s) && pid !in r.procs && pid in s.procs && s.procs[pid].Vacuum?
    ensures a == StartVacuum(pid, s.procs[pid].dead)
  {}

  lemma WasVacuum(r: State, a: Action, s: State, pid: nat)
    requires Steps(r, a, s) && pid in r.procs && pid in s.procs && s.procs[pid].Vacuum?
    ensures r.procs[pid].Vacuum?
  {}

  /** And has one only if it was started. */
  lemma VacuumOrigin(r: State, a: Action, s: State, pid: nat)
    requires Steps(r, a, s) && pid in s.procs && s.procs[pid].Vacuum?
    ensures a == StartVacuum(pid, s.procs[pid].dead)
      || (pid in r.procs && r.procs[pid].Vacuum? && r.procs[pid].dead == s.procs[pid].dead)
  {
    hide Steps;
    if pid in r.procs {
      WasVacuum(r, a, s, pid);
      if a == VacuumMeta(pid) { Ends(r, s, pid); } else { VacuumStep(r, a, s, pid); }
    } else {
      StartOnly(r, a, s, pid);
    }
  }

  lemma Ends(r: State, s: State, pid: nat)
    requires Steps(r, VacuumMeta(pid), s)
    ensures pid !in s.procs
  {}

  lemma ScanStep(r: State, a: Action, s: State, pid: nat)
    requires Steps(r, a, s) && pid in r.procs && r.procs[pid].Scan?
    ensures pid in s.procs && s.procs[pid].Scan?
    ensures s.procs[pid].query == r.procs[pid].query && s.procs[pid].snapshot == r.procs[pid].snapshot
    ensures a != ScanPage(pid) ==> s.procs[pid].found == r.procs[pid].found
    ensures a == ScanPage(pid) ==> s.procs[pid].found == r.procs[pid].found + Hits(r.pages[r.procs[pid].blkno], r.procs[pid].query)
  {
    if IsOther(a, pid) {
      hide Steps;
      OthersLeave(r, a, s, pid);
    } else {
      OwnAction(r, a, s, pid);
      OwnScan(r, s, pid);
    }
  }

  // ----- contents -----

  lemma {:induction false} ContentsAt(pages: seq<Page>, t: Tuple)
    ensures t in Contents(pages) <==> exists b :: 0 <= b < |pages| && t in TuplesOf(pages[b])
  {
    if pages != [] {
      var n := |pages| - 1;
      ContentsAt(pages[..n], t);
      assert forall b :: 0 <= b < n ==> pages[..n][b] == pages[b];
      assert t in multiset(TuplesOf(pages[n])) <==> t in TuplesOf(pages[n]);
    }
  }

  lemma DataBlockOf(s: State, t: Tuple) returns (b: nat)
    requires Inv(s) && t in Contents(s.pages)
    ensures 1 <= b < |s.pages| && t in TuplesOf(s.pages[b])
  {
    ContentsAt(s.pages, t);
    b :| 0 <= b < |s.pages| && t in TuplesOf(s.pages[b]);
  }

  // ----- provenance -----

  lemma {:induction false} BegunExactly(length: nat, actions: seq<Action>, states: seq<State>, j: nat, t: Tuple)
    requires Run(length, actions, states) && j < |states|
    ensures t.op in states[j].ops && states[j].ops[t.op] == t <==> Begun(actions[..j], t)
  {
    if j > 0 {
      var (r, a, s) := (states[j - 1], actions[j - 1], states[j]);
      BegunExactly(length, actions, states, j - 1, t);
      assert Steps(r, a, s);
      OpsStep(r, a, s);
      assert actions[..j] == actions[..j - 1] + [a];
      if a.StartInsert? && a.pid == t.op && a.t != t && Begun(actions[..j - 1], t) { assert false; }
    }
  }

  ghost predicate DeadNamed(actions: seq<Action>, s: State) {
    forall pid, tid :: pid in s.procs && s.procs[pid].Vacuum? && tid in s.procs[pid].dead ==> Named(actions, tid)
  }

  ghost predicate RemovedNamed(actions: seq<Action>, s: State) {
    forall t :: t in s.removed ==> Named(actions, t.tid)
  }

  lemma NamedLonger(actions: seq<Action>, a: Action, tid: Tid)
    requires Named(actions, tid)
    ensures Named(actions + [a], tid)
  {
    var i :| 0 <= i < |actions| && actions[i].StartVacuum? && tid in actions[i].dead;
    assert (actions + [a])[i] == actions[i];
  }

  lemma NamedNow(actions: seq<Action>, a: Action, tid: Tid)
    requires a.StartVacuum? && tid in a.dead
    ensures Named(actions + [a], tid)
  {
    assert (actions + [a])[|actions|] == a;
  }

  lemma {:induction false} NamesKept(length: nat, actions: seq<Action>, states: seq<State>, j: nat)
    requires Run(length, actions, states) && j < |states|
    ensures DeadNamed(actions[..j], states[j]) && RemovedNamed(actions[..j], states[j])
  {
    if j > 0 {
      var (r, a, s) := (states[j - 1], actions[j - 1], states[j]);
      NamesKept(length, actions, states, j - 1);
      assert Steps(r, a, s) && actions[..j] == actions[..j - 1] + [a];
      NamesStep(actions[..j - 1], r, a, s);
    }
  }

  lemma NamesStep(before: seq<Action>, r: State, a: Action, s: State)
    requires Steps(r, a, s) && DeadNamed(before, r) && RemovedNamed(before, r)
    ensures DeadNamed(before + [a], s) && RemovedNamed(before + [a], s)
  {
    hide Steps, Named;
    forall pid, tid | pid in s.procs && s.procs[pid].Vacuum? && tid in s.procs[pid].dead ensures Named(before + [a], tid) {
      VacuumOrigin(r, a, s, pid);
      if a == StartVacuum(pid, s.procs[pid].dead) { NamedNow(before, a, tid); } else { NamedLonger(before, a, tid); }
    }
    forall t | t in s.removed ensures Named(before + [a], t.tid) {
      if t !in r.removed { RemovedOf(r, a, s, t); }
      NamedLonger(before, a, t.tid);
    }
  }

  lemma RemovedOf(r: State, a: Action, s: State, t: Tuple)
    requires Steps(r, a, s) && t in s.removed && t !in r.removed
    ensures a.VacuumPage? && a.pid in r.procs && r.procs[a.pid].Vacuum? && t.tid in r.procs[a.pid].dead
  {
    RemovedStep(r, a, s, t);
  }

  /** Only rows that some vacuum was told are dead are ever removed. */
  lemma RemovedWasNamed(length: nat, actions: seq<Action>, states: seq<State>, j: nat, t: Tuple)
    requires Run(length, actions, states) && j < |states| && t in states[j].removed
    ensures Named(actions[..j], t.tid)
  {
    NamesKept(length, actions, states, j);
  }

  /**
   In every interleaving: the index holds a tuple once if its insert has begun and is done, and not at all
   otherwise, for every row that no vacuum was told is dead; and it never holds a tuple twice, nor one whose
   insert has not begun or is not done.
   */
  lemma IndexHoldsExactly(length: nat, actions: seq<Action>, states: seq<State>, j: nat, t: Tuple)
    requires Run(length, actions, states) && j < |states|
    ensures var (n, done) := (Contents(states[j].pages)[t], Begun(actions[..j], t) && t.op !in states[j].procs);
      && n <= 1 && (n == 1 ==> done)
      && (!Named(actions[..j], t.tid) ==> (n == 1 <==> done))
  {
    var s := states[j];
    RunInv(length, actions, states, j);
    BegunExactly(length, actions, states, j, t);
    NamesKept(length, actions, states, j);
    Counted(s, t);
  }

  // ----- vacuums -----

  /** Between its start and its end a vacuum knows what it was told and what the index was. */
  lemma {:induction false} VacuumRuns(length: nat, actions: seq<Action>, states: seq<State>, i: nat, j: nat, pid: nat, dead: set<Tid>)
    requires Run(length, actions, states) && i < j < |states| && actions[i] == StartVacuum(pid, dead)
    requires forall k :: i < k < j ==> actions[k] != VacuumMeta(pid)
    ensures var s := states[j];
      pid in s.procs && s.procs[pid].Vacuum? && s.procs[pid].dead == dead && s.procs[pid].snapshot == states[i].pages
    decreases j
  {
    var (r, a, s) := (states[j - 1], actions[j - 1], states[j]);
    assert Steps(r, a, s);
    if j - 1 > i {
      VacuumRuns(length, actions, states, i, j - 1, pid, dead);
      VacuumStep(r, a, s, pid);
    }
  }

  /**
   When a vacuum comes to its last section, every row it was told is dead that was in the index when it
   began has been removed, once, and is in the index no more.
   */
  lemma VacuumRemovesAllDead(length: nat, actions: seq<Action>, states: seq<State>, i: nat, j: nat, pid: nat, dead: set<Tid>, t: Tuple)
    requires Run(length, actions, states) && i < j < |actions|
    requires actions[i] == StartVacuum(pid, dead) && actions[j] == VacuumMeta(pid)
    requires forall k :: i < k < j ==> actions[k] != VacuumMeta(pid)
    requires t in Contents(states[i].pages) && t.tid in dead
    ensures states[j].removed[t] == 1 && t !in Contents(states[j].pages)
  {
    var s := states[j];
    RunInv(length, actions, states, i);
    RunInv(length, actions, states, j);
    VacuumRuns(length, actions, states, i, j, pid, dead);
    var b := DataBlockOf(states[i], t);
    assert Steps(s, actions[j], states[j + 1]);
    var v := s.procs[pid];
    assert ProcOk(s.length, |s.pages|, v) && WatchOk(s.length, s.pages, s.removed, v);
    assert VacuumSees(v, s.pages, s.removed, b, t);
    Counted(s, t);
  }

  // ----- scans -----

  lemma {:induction false} ScanRuns(length: nat, actions: seq<Action>, states: seq<State>, i: nat, j: nat, pid: nat, query: Signature)
    requires Run(length, actions, states) && i < j < |states| && actions[i] == StartScan(pid, query)
    ensures var s := states[j];
      pid in s.procs && s.procs[pid].Scan? && s.procs[pid].query == query && s.procs[pid].snapshot == states[i].pages
    decreases j
  {
    var (r, a, s) := (states[j - 1], actions[j - 1], states[j]);
    assert Steps(r, a, s);
    if j - 1 > i {
      ScanRuns(length, actions, states, i, j - 1, pid, query);
      ScanStep(r, a, s, pid);
    }
  }

  /** A scan with no page left to read has reported every row that its query covers, was in the index when it began and still is. */
  lemma ScanReportsCovered(length: nat, actions: seq<Action>, states: seq<State>, i: nat, j: nat, pid: nat, query: Signature, t: Tuple)
    requires Run(length, actions, states) && i < j < |states| && actions[i] == StartScan(pid, query)
    requires !Enabled(states[j], ScanPage(pid))
    requires t in Contents(states[i].pages) && t in Contents(states[j].pages) && |t.sign| == |query| && Covers(t.sign, query)
    ensures pid in states[j].procs && states[j].procs[pid].Scan? && t.tid in states[j].procs[pid].found
  {
    hide Covers, Run;
    RunInv(length, actions, states, i);
    RunInv(length, actions, states, j);
    ScanRuns(length, actions, states, i, j, pid, query);
    var b := DataBlockOf(states[i], t);
    ScanAccount(states[j], pid, b, t);
  }

  lemma ScanAccount(s: State, pid: nat, b: nat, t: Tuple)
    requires Inv(s) && pid in s.procs && s.procs[pid].Scan? && !Enabled(s, ScanPage(pid)) && t in Contents(s.pages)
    requires var c := s.procs[pid];
      1 <= b < |c.snapshot| && t in TuplesOf(c.snapshot[b]) && |t.sign| == |c.query| && Covers(t.sign, c.query)
    ensures t.tid in s.procs[pid].found
  {
    hide Covers;
    var c := s.procs[pid];
    assert ProcOk(s.length, |s.pages|, c) && WatchOk(s.length, s.pages, s.removed, c);
    assert PageOk(s.length, c.snapshot[b]);
    assert ScanSees(c, s.pages, s.removed, b, t);
    Counted(s, t);
  }

  /** In particular every row that satisfies the scan's keys. */
  lemma {:induction false} ScanMissesNothing(length: nat, actions: seq<Action>, states: seq<State>, i: nat, j: nat, pid: nat, query: Signature,
                          t: Tuple, index: Index, keys: seq<ScanKey>, values: seq<Option<int>>)
    requires Run(length, actions, states) && i < j < |states| && actions[i] == StartScan(pid, query)
    requires !Enabled(states[j], ScanPage(pid))
    requires t in Contents(states[i].pages) && t in Contents(states[j].pages)
    requires index.Valid() && index.opts.bloomLength == length && BitsOf(query) == KeyBits(index.Bits(), keys, |keys|)
    requires IsTupleOf(index, t, t.tid, values) && Matches(index, keys, values)
    ensures pid in states[j].procs && states[j].procs[pid].Scan? && t.tid in states[j].procs[pid].found
  {
    hide Covers, Matches, KeyBits, RowBits, BitsOf, Steps;
    QueryLength(length, actions, states, i, pid, query);
    MatchingRowIsCovered(index, keys, values, t, t.tid, query);
    ScanReportsCovered(length, actions, states, i, j, pid, query, t);
  }

  lemma QueryLength(length: nat, actions: seq<Action>, states: seq<State>, i: nat, pid: nat, query: Signature)
    requires Run(length, actions, states) && i < |actions| && actions[i] == StartScan(pid, query)
    ensures |query| == length
  {
    RunLength(length, actions, states, i);
    assert Steps(states[i], actions[i], states[i + 1]);
  }

  lemma {:induction false} RunLength(length: nat, actions: seq<Action>, states: seq<State>, j: nat)
    requires Run(length, actions, states) && j < |states|
    ensures states[j].length == length
  {
    if j > 0 {
      RunLength(length, actions, states, j - 1);
      assert Steps(states[j - 1], actions[j - 1], states[j]);
      LengthStep(states[j - 1], actions[j - 1], states[j]);
    }
  }

  lemma LengthStep(r: State, a: Action, s: State)
    requires Steps(r, a, s)
    ensures s.length == r.length
  {}

  /** The row is in the index with a signature that covers the query. */
  ghost predicate CoveredRow(s: State, tid: Tid, query: Signature) {
    exists t :: t in Contents(s.pages) && t.tid == tid && |t.sign| == |query| && Covers(t.sign, query)
  }

  lemma HitsCover(s: State, b: nat, query: Signature, tid: Tid)
    requires Inv(s) && b < |s.pages| && |query| == s.length
    requires (forall t :: t in TuplesOf(s.pages[b]) ==> |t.sign| == |query|) && tid in Hits(s.pages[b], query)
    ensures CoveredRow(s, tid, query)
  {
    var t :| t in TuplesOf(s.pages[b]) && Covers(t.sign, query) && t.tid == tid;
    ContentsAt(s.pages, t);
  }

  lemma NewReport(r: State, a: Action, s: State, pid: nat, tid: Tid)
    requires Inv(r) && Steps(r, a, s) && pid in r.procs && r.procs[pid].Scan? && pid in s.procs && s.procs[pid].Scan?
    requires tid in s.procs[pid].found && tid !in r.procs[pid].found
    ensures CoveredRow(r, tid, r.procs[pid].query)
  {
    hide CoveredRow, Hits;
    ScanStep(r, a, s, pid);
    assert ProcOk(r.length, |r.pages|, r.procs[pid]);
    HitsCover(r, r.procs[pid].blkno, r.procs[pid].query, tid);
  }

  lemma NothingReported(r: State, a: Action, s: State, pid: nat, query: Signature)
    requires Steps(r, a, s) && a == StartScan(pid, query)
    ensures pid in s.procs && s.procs[pid].Scan? && s.procs[pid].found == {}
  {}

  /** A scan reports a row only if, while it ran, the row was in the index with a signature that covers the query. */
  lemma {:induction false} ScanReportsOnly(length: nat, actions: seq<Action>, states: seq<State>, i: nat, j: nat, pid: nat, query: Signature, tid: Tid)
    requires Run(length, actions, states) && i < j < |states| && actions[i] == StartScan(pid, query)
    requires pid in states[j].procs && states[j].procs[pid].Scan? && tid in states[j].procs[pid].found
    ensures exists k :: i < k < j && CoveredRow(states[k], tid, query)
    decreases j
  {
    hide Steps, CoveredRow, Inv;
    var (r, a, s) := (states[j - 1], actions[j - 1], states[j]);
    assert Steps(r, a, s);
    if j - 1 == i {
      NothingReported(r, a, s, pid, query);
    } else {
      ScanRuns(length, actions, states, i, j - 1, pid, query);
      if tid in r.procs[pid].found {
        ScanReportsOnly(length, actions, states, i, j - 1, pid, query, tid);
      } else {
        RunInv(length, actions, states, j - 1);
        NewReport(r, a, s, pid, tid);
      }
    }
  }

  // ----- progress -----

  /** The process has a section it may take now. */
  ghost predicate CanMove(s: State, pid: nat) {
    exists a :: Enabled(s, a) && !a.ExtendOnly? && a.pid == pid && !a.StartInsert? && !a.StartVacuum? && !a.StartCleanup? && !a.StartScan?
  }

  lemma HolderMoves(s: State, pid: nat)
    requires Inv(s) && s.lock == Some(pid)
    ensures CanMove(s, pid)
  {
    assert pid in s.procs && HoldsMeta(s.procs[pid]);
    if s.procs[pid].InsLoop? {
      assert Enabled(s, TryNext(pid));
    } else {
      assert Enabled(s, Extend(pid));
    }
  }

  /** The scan or cleanup has read all pages. */
  predicate ReadAll(p: Proc) { (p.Scan? && p.blkno >= |p.snapshot|) || (p.Cleanup? && p.blkno >= p.npages) }

  /** No deadlock: a process that is not done can move, or waits for the metapage, whose holder can. */
  lemma NobodyIsStuck(length: nat, actions: seq<Action>, states: seq<State>, j: nat, pid: nat)
    requires Run(length, actions, states) && j < |states| && pid in states[j].procs && !ReadAll(states[j].procs[pid])
    ensures CanMove(states[j], pid) || (states[j].lock.Some? && CanMove(states[j], states[j].lock.value))
  {
    var s := states[j];
    RunInv(length, actions, states, j);
    if s.lock.Some? { HolderMoves(s, s.lock.value); }
    match s.procs[pid]
    case InsHint(_) => assert s.lock.None? ==> Enabled(s, ReadHint(pid));
    case InsTry(_, _) => assert Enabled(s, TryHint(pid));
    case InsWait(_, _) => assert s.lock.None? ==> Enabled(s, LockMeta(pid));
    case InsLoop(_, _) => assert Enabled(s, TryNext(pid));
    case InsNew(_) => assert Enabled(s, Extend(pid));
    case Vacuum(n, b, _, _, _) => assert if b < n then Enabled(s, VacuumPage(pid)) else s.lock.None? ==> Enabled(s, VacuumMeta(pid));
    case Cleanup(_, _) => assert Enabled(s, CleanupPage(pid));
    case Scan(_, _, _, _) => assert Enabled(s, ScanPage(pid));
  }

  /** How far an insert is from its end: its phase, and what is left of that phase. */
  function Phase(p: Proc): nat {
    match p
    case InsHint(_) => 4
    case InsTry(_, _) => 3
    case InsWait(_, _) => 2
    case InsLoop(_, _) => 1
    case _ => 0
  }

  function Left(s: State, p: Proc): int
  {
    if p.InsLoop? then s.meta.nEnd - p.nStart else |s.fsm|
  }

  /** Every section of an insert stores the tuple and ends it, or brings it nearer to its end. */
  lemma InsertNearsEnd(r: State, a: Action, s: State, pid: nat)
    requires Inv(r) && Steps(r, a, s) && pid in r.procs && IsInsert(r.procs[pid]) && !a.ExtendOnly? && a.pid == pid
    ensures if pid in s.procs then
        && IsInsert(s.procs[pid]) && s.procs[pid].t == r.procs[pid].t
        && (Phase(s.procs[pid]) < Phase(r.procs[pid])
          || (Phase(s.procs[pid]) == Phase(r.procs[pid]) && 0 <= Left(s, s.procs[pid]) < Left(r, r.procs[pid])))
      else r.procs[pid].t in Contents(s.pages) && Contents(s.pages)[r.procs[pid].t] == 1
  {
    hide Contents, Steps, Inv;
    if pid in s.procs {
      InsertMovesOn(r, a, s, pid);
    } else {
      StepKeeps(r, a, s);
      StoredOnce(r, a, s, pid);
    }
  }

  lemma StepKeeps(r: State, a: Action, s: State)
    requires Inv(r) && Steps(r, a, s)
    ensures Inv(s)
  {
    hide Inv;
    StepKeepsInv(r, a);
  }

  ghost predicate MovedOn(r: State, s: State, pid: nat)
    requires pid in r.procs && pid in s.procs && IsInsert(r.procs[pid])
  {
    && IsInsert(s.procs[pid]) && s.procs[pid].t == r.procs[pid].t
    && (Phase(s.procs[pid]) < Phase(r.procs[pid])
      || (Phase(s.procs[pid]) == Phase(r.procs[pid]) && 0 <= Left(s, s.procs[pid]) < Left(r, r.procs[pid])))
  }

  lemma MovesUnlocked(r: State, a: Action, s: State, pid: nat)
    requires Steps(r, a, s) && pid in r.procs && IsInsert(r.procs[pid]) && pid in s.procs
    requires a == ReadHint(pid) || a == TryHint(pid) || a == LockMeta(pid)
    ensures MovedOn(r, s, pid)
  {
    hide HasRoom, Reinit, Append;
  }

  lemma MovesLocked(r: State, a: Action, s: State, pid: nat)
    requires Steps(r, a, s) && pid in r.procs && IsInsert(r.procs[pid]) && pid in s.procs
    requires a == TryNext(pid) || (a.Recycle? && a.pid == pid) || a == Extend(pid)
    ensures MovedOn(r, s, pid)
  {
    hide HasRoom, Reinit, Append;
  }

  lemma InsertMovesOn(r: State, a: Action, s: State, pid: nat)
    requires Steps(r, a, s) && pid in r.procs && IsInsert(r.procs[pid]) && !a.ExtendOnly? && a.pid == pid && pid in s.procs
    ensures MovedOn(r, s, pid)
  {
    assert Enabled(r, a);
    hide Steps;
    if a.ReadHint? || a.TryHint? || a.LockMeta? { MovesUnlocked(r, a, s, pid); } else { MovesLocked(r, a, s, pid); }
  }

  lemma StoredOnce(r: State, a: Action, s: State, pid: nat)
    requires Inv(r) && Inv(s) && Steps(r, a, s) && pid in r.procs && IsInsert(r.procs[pid]) && pid !in s.procs
    ensures Contents(s.pages)[r.procs[pid].t] == 1
  {
    hide Steps, Inv, Contents;
    var t := r.procs[pid].t;
    OwnTuple(r, pid);
    InsertHistory(r, a, s, pid);
    Counted(r, t);
    Counted(s, t);
  }

  lemma OwnTuple(s: State, pid: nat)
    requires Inv(s) && pid in s.procs && IsInsert(s.procs[pid])
    ensures var t := s.procs[pid].t; t.op == pid && pid in s.ops && s.ops[pid] == t
  {}

  lemma InsertHistory(r: State, a: Action, s: State, pid: nat)
    requires Steps(r, a, s) && pid in r.procs && IsInsert(r.procs[pid]) && pid !in s.procs
    ensures s.removed == r.removed && s.ops == r.ops
  {}

  lemma Counted(s: State, t: Tuple)
    requires Inv(s)
    ensures Contents(s.pages)[t] + s.removed[t] == Due(s.ops, s.procs, t)
  {
    assert (Contents(s.pages) + s.removed)[t] == s.landed[t];
  }
}
