/**
 Concurrent inserts, vacuums and scans of one Bloom index (blinsert.c, blvacuum.c, blscan.c).

 Each action is one lock section of the C code.  `blinsert` drops the metapage lock between
 reading its hint and locking the page it names, so every section may be separated from the
 next by sections of other processes.  `removed`, `landed`, `ops` and the snapshots are history.
 */
module BloomProtocol {
  import opened Sorting
  import opened BloomSignature
  import opened BloomPage

  /** Entries in `notFullPage`: (8192 - 24 - 8 - 144) / 4. */
  const META_BLOCKS: nat := 2004

  datatype Page = NewPage | MetaPage | DataPage(deleted: bool, tuples: seq<Tuple>)

  datatype Meta = Meta(nStart: nat, nEnd: nat, notFull: seq<nat>)

  datatype Proc =
    | InsHint(t: Tuple)                        // about to read the hint under a share lock
    | InsTry(t: Tuple, blk: nat)               // hint read, metapage unlocked
    | InsWait(t: Tuple, tried: Option<nat>)    // about to lock the metapage exclusively
    | InsLoop(t: Tuple, nStart: nat)           // holds the metapage lock, walking notFullPage
    | InsNew(t: Tuple)                         // holds the metapage lock, needs a new page
    | Vacuum(npages: nat, blkno: nat, list: seq<nat>, dead: set<Tid>, snapshot: seq<Page>)
    | Cleanup(npages: nat, blkno: nat)
    | Scan(query: Signature, blkno: nat, found: set<Tid>, snapshot: seq<Page>)

  predicate IsInsert(p: Proc) { p.InsHint? || p.InsTry? || p.InsWait? || p.InsLoop? || p.InsNew? }

  predicate HoldsMeta(p: Proc) { p.InsLoop? || p.InsNew? }

  /** `length` is the number of words in a signature. */
  datatype State = State(length: nat, pages: seq<Page>, meta: Meta, lock: Option<nat>, fsm: set<nat>,
                         procs: map<nat, Proc>, ops: map<nat, Tuple>,
                         landed: multiset<Tuple>, removed: multiset<Tuple>)

  datatype Action =
    | StartInsert(pid: nat, t: Tuple)
    | ReadHint(pid: nat)
    | TryHint(pid: nat)
    | LockMeta(pid: nat)
    | TryNext(pid: nat)
    | Recycle(pid: nat, blk: nat, locked: bool)
    | Extend(pid: nat)
    | ExtendOnly
    | StartVacuum(pid: nat, dead: set<Tid>)
    | VacuumPage(pid: nat)
    | VacuumMeta(pid: nat)
    | StartCleanup(pid: nat)
    | CleanupPage(pid: nat)
    | StartScan(pid: nat, query: Signature)
    | ScanPage(pid: nat)

  // ----- page operations -----

  function TuplesOf(p: Page): seq<Tuple> { if p.DataPage? then p.tuples else [] }

  predicate Unused(p: Page) { p.NewPage? || (p.DataPage? && p.deleted) }

  /** `BloomInitPage` on a new or deleted page. */
  function Reinit(p: Page): Page { if Unused(p) then DataPage(false, []) else p }

  function Append(p: Page, t: Tuple): Page {
    if p.DataPage? then DataPage(p.deleted, p.tuples + [t]) else p
  }

  predicate HasRoom(length: nat, p: Page) { Fits(length, |TuplesOf(Reinit(p))|) }

  function Filtered(p: Page, dead: set<Tid>): Page {
    if Unused(p) || p.MetaPage? then p
    else
      var kept := Kept(p.tuples, dead);
      if |kept| == |p.tuples| then p else DataPage(kept == [], kept)
  }

  function Taken(p: Page, dead: set<Tid>): seq<Tuple> { if Unused(p) then [] else Dropped(TuplesOf(p), dead) }

  // ----- actions -----

  predicate Enabled(s: State, a: Action) {
    match a
    case StartInsert(pid, t) => pid !in s.procs && pid !in s.ops && t.op == pid && |t.sign| == s.length
    case ReadHint(pid) => pid in s.procs && s.procs[pid].InsHint? && s.lock.None?
    case TryHint(pid) => pid in s.procs && s.procs[pid].InsTry?
    case LockMeta(pid) => pid in s.procs && s.procs[pid].InsWait? && s.lock.None?
    case TryNext(pid) => pid in s.procs && s.procs[pid].InsLoop?
    case Recycle(pid, blk, _) => pid in s.procs && s.procs[pid].InsNew? && blk in s.fsm
    case Extend(pid) => pid in s.procs && s.procs[pid].InsNew?
    case ExtendOnly => true
    case StartVacuum(pid, _) => pid !in s.procs && pid !in s.ops
    case VacuumPage(pid) => pid in s.procs && s.procs[pid].Vacuum? && s.procs[pid].blkno < s.procs[pid].npages
    case VacuumMeta(pid) =>
      pid in s.procs && s.procs[pid].Vacuum? && s.procs[pid].blkno >= s.procs[pid].npages && s.lock.None?
    case StartCleanup(pid) => pid !in s.procs && pid !in s.ops
    case CleanupPage(pid) => pid in s.procs && s.procs[pid].Cleanup? && s.procs[pid].blkno < s.procs[pid].npages
    case StartScan(pid, query) => pid !in s.procs && pid !in s.ops && |query| == s.length
    case ScanPage(pid) => pid in s.procs && s.procs[pid].Scan? && s.procs[pid].blkno < |s.procs[pid].snapshot|
  }

  function SetProc(s: State, pid: nat, p: Proc): State { s.(procs := s.procs[pid := p]) }

  /** The insert `pid` has stored its tuple on page `blk`, and is done. */
  function Land(s: State, pid: nat, t: Tuple, pages: seq<Page>): State {
    s.(pages := pages, procs := s.procs - {pid}, landed := s.landed + multiset{t})
  }

  /** The tuple goes on an existing page that has room. */
  function Store(s: State, pid: nat, t: Tuple, blk: nat): State
    requires blk < |s.pages|
  {
    Land(s, pid, t, s.pages[blk := Append(Reinit(s.pages[blk]), t)])
  }

  /** `notFullPage` is reset to the one new page and the metapage lock released. */
  function ResetMeta(s: State, blk: nat): State {
    s.(lock := None, meta := Meta(0, 1, if s.meta.notFull == [] then [blk] else s.meta.notFull[0 := blk]))
  }

  /** The page loop of `blbulkdelete`, one page. */
  function DoVacuumPage(s: State, pid: nat): State
    requires pid in s.procs && s.procs[pid].Vacuum? && s.procs[pid].blkno < |s.pages|
  {
    var v := s.procs[pid];
    var (was, now) := (s.pages[v.blkno], Filtered(s.pages[v.blkno], v.dead));
    var listed := !Unused(was) && TuplesOf(now) != [] && Fits(s.length, |TuplesOf(now)|) && |v.list| < META_BLOCKS;
    SetProc(s, pid, Vacuum(v.npages, v.blkno + 1, if listed then v.list + [v.blkno] else v.list, v.dead, v.snapshot))
      .(pages := s.pages[v.blkno := now], removed := s.removed + multiset(Taken(was, v.dead)))
  }

  /** `blinsert` locks the metapage, and passes over the page it has already tried. */
  function DoLockMeta(s: State, pid: nat): State
    requires pid in s.procs && s.procs[pid].InsWait? && s.meta.nEnd <= |s.meta.notFull|
  {
    var (t, n) := (s.procs[pid].t, s.meta.nStart);
    var skip := n < s.meta.nEnd && s.procs[pid].tried == Some(s.meta.notFull[n]);
    SetProc(s, pid, InsLoop(t, if skip then n + 1 else n)).(lock := Some(pid))
  }

  /** The loop of `blinsert` over the listed pages, one page. */
  function DoTryNext(s: State, pid: nat): State
    requires pid in s.procs && s.procs[pid].InsLoop? && s.meta.nEnd <= |s.meta.notFull|
    requires s.procs[pid].nStart < s.meta.nEnd ==> s.meta.notFull[s.procs[pid].nStart] < |s.pages|
  {
    var (t, n) := (s.procs[pid].t, s.procs[pid].nStart);
    if n >= s.meta.nEnd then SetProc(s, pid, InsNew(t))
    else
      var blk := s.meta.notFull[n];
      if HasRoom(s.length, s.pages[blk]) then
        Store(s, pid, t, blk).(lock := None, meta := s.meta.(nStart := n))
      else SetProc(s, pid, InsLoop(t, n + 1))
  }

  /** `BloomNewBuffer` extends the file. */
  function DoExtend(s: State, pid: nat): State
    requires pid in s.procs && s.procs[pid].InsNew?
  {
    var t := s.procs[pid].t;
    ResetMeta(Land(s, pid, t, s.pages + [DataPage(false, [t])]), |s.pages|)
  }

  /** The page loop of `blvacuumcleanup`, one page. */
  function DoCleanupPage(s: State, pid: nat): State
    requires pid in s.procs && s.procs[pid].Cleanup? && s.procs[pid].blkno < |s.pages|
  {
    var c := s.procs[pid];
    SetProc(s, pid, Cleanup(c.npages, c.blkno + 1)).(fsm := if Unused(s.pages[c.blkno]) then s.fsm + {c.blkno} else s.fsm)
  }

  /** The page loop of `blgetbitmap`, one page. */
  ghost function DoScanPage(s: State, pid: nat): State
    requires pid in s.procs && s.procs[pid].Scan? && s.procs[pid].blkno < |s.pages|
    requires forall t :: t in TuplesOf(s.pages[s.procs[pid].blkno]) ==> |t.sign| == |s.procs[pid].query|
  {
    var c := s.procs[pid];
    SetProc(s, pid, Scan(c.query, c.blkno + 1, c.found + Hits(s.pages[c.blkno], c.query), c.snapshot))
  }

  ghost predicate InRange(s: State, a: Action)
    requires Enabled(s, a)
  {
    match a
    case ReadHint(_) => s.meta.nEnd <= |s.meta.notFull|
    case TryHint(pid) => s.procs[pid].blk < |s.pages|
    case LockMeta(_) => s.meta.nEnd <= |s.meta.notFull|
    case TryNext(pid) =>
      && s.meta.nEnd <= |s.meta.notFull|
      && (s.procs[pid].nStart < s.meta.nEnd ==> s.meta.notFull[s.procs[pid].nStart] < |s.pages|)
    case Recycle(_, blk, _) => blk < |s.pages|
    case VacuumPage(pid) => s.procs[pid].blkno < |s.pages|
    case VacuumMeta(pid) => |s.procs[pid].list| <= |s.meta.notFull|
    case CleanupPage(pid) => s.procs[pid].blkno < |s.pages|
    case ScanPage(pid) =>
      && s.procs[pid].blkno < |s.pages|
      && forall t :: t in TuplesOf(s.pages[s.procs[pid].blkno]) ==> |t.sign| == |s.procs[pid].query|
    case _ => true
  }

  /** Effects; the accesses it makes are in range in every reachable state (see `StepKeepsInv`). */
  ghost function Do(s: State, a: Action): State
    requires Enabled(s, a) && InRange(s, a)
  {
    match a
    case StartInsert(pid, t) => SetProc(s, pid, InsHint(t)).(ops := s.ops[pid := t])
    case ReadHint(pid) =>
      var t := s.procs[pid].t;
      if s.meta.nEnd > s.meta.nStart then SetProc(s, pid, InsTry(t, s.meta.notFull[s.meta.nStart]))
      else SetProc(s, pid, InsWait(t, None))
    case TryHint(pid) =>
      var (t, blk) := (s.procs[pid].t, s.procs[pid].blk);
      if HasRoom(s.length, s.pages[blk]) then Store(s, pid, t, blk)
      else SetProc(s, pid, InsWait(t, Some(blk)))
    case LockMeta(pid) => DoLockMeta(s, pid)
    case TryNext(pid) => DoTryNext(s, pid)
    case Recycle(pid, blk, locked) =>
      var s1 := s.(fsm := s.fsm - {blk});
      if locked && Unused(s.pages[blk]) then ResetMeta(Store(s1, pid, s.procs[pid].t, blk), blk) else s1
    case Extend(pid) => DoExtend(s, pid)
    case ExtendOnly => s.(pages := s.pages + [NewPage])
    case StartVacuum(pid, dead) => SetProc(s, pid, Vacuum(|s.pages|, 1, [], dead, s.pages))
    case VacuumPage(pid) => DoVacuumPage(s, pid)
    case VacuumMeta(pid) =>
      var list := s.procs[pid].list;
      s.(procs := s.procs - {pid}, meta := Meta(0, |list|, list + s.meta.notFull[|list|..]))
    case StartCleanup(pid) => SetProc(s, pid, Cleanup(|s.pages|, 1))
    case CleanupPage(pid) => DoCleanupPage(s, pid)
    case StartScan(pid, query) => SetProc(s, pid, Scan(query, 1, {}, s.pages))
    case ScanPage(pid) => DoScanPage(s, pid)
  }

  /** The tuples of a page the scan adds to its bitmap; deleted and new pages are skipped. */
  ghost function Hits(p: Page, query: Signature): set<Tid>
    requires forall t :: t in TuplesOf(p) ==> |t.sign| == |query|
  {
    if Unused(p) then {} else set t | t in TuplesOf(p) && Covers(t.sign, query) :: t.tid
  }

  // ----- invariant -----

  /** A page is deleted exactly when it holds nothing, and never overflows. */
  ghost predicate PageOk(length: nat, p: Page) {
    p.DataPage? ==>
      && (p.deleted <==> p.tuples == [])
      && FreeSpace(length, |p.tuples|) >= 0
      && forall t :: t in p.tuples ==> |t.sign| == length
  }

  ghost predicate PagesOk(length: nat, pages: seq<Page>) {
    && 1 <= length <= 256
    && |pages| > 0 && pages[0] == MetaPage
    && (forall b :: 1 <= b < |pages| ==> !pages[b].MetaPage?)
    && (forall b :: 0 <= b < |pages| ==> PageOk(length, pages[b]))
  }

  /** The block is a data page. */
  predicate IsDataBlock(npages: nat, b: nat) { 1 <= b < npages }

  ghost predicate AllDataBlocks(npages: nat, list: seq<nat>, n: nat)
    requires n <= |list|
  {
    forall i :: 0 <= i < n ==> IsDataBlock(npages, list[i])
  }

  ghost predicate MetaOk(npages: nat, m: Meta) {
    && |m.notFull| == META_BLOCKS && m.nStart <= m.nEnd <= META_BLOCKS
    && AllDataBlocks(npages, m.notFull, m.nEnd)
  }

  ghost predicate ProcOk(length: nat, npages: nat, p: Proc) {
    match p
    case InsHint(t) => |t.sign| == length
    case InsTry(t, blk) => |t.sign| == length && IsDataBlock(npages, blk)
    case InsWait(t, _) => |t.sign| == length
    case InsLoop(t, _) => |t.sign| == length
    case InsNew(t) => |t.sign| == length
    case Vacuum(n, blkno, list, _, snapshot) =>
      n == |snapshot| <= npages && 1 <= blkno && |list| <= META_BLOCKS && AllDataBlocks(npages, list, |list|)
    case Cleanup(n, blkno) => n <= npages && 1 <= blkno
    case Scan(query, blkno, _, snapshot) => |query| == length && |snapshot| <= npages && 1 <= blkno
  }

  ghost predicate ProcsOk(length: nat, npages: nat, procs: map<nat, Proc>) {
    forall pid :: pid in procs ==> ProcOk(length, npages, procs[pid])
  }

  ghost predicate FsmOk(npages: nat, fsm: set<nat>) { forall b :: b in fsm ==> IsDataBlock(npages, b) }

  /** At most one process holds the metapage, and it is recorded as the holder. */
  ghost predicate LockOk(lock: Option<nat>, procs: map<nat, Proc>) {
    forall pid :: (pid in procs && HoldsMeta(procs[pid])) <==> lock == Some(pid)
  }

  /** Number of times the tuple must have landed: once when its insert is done, else never. */
  ghost function Due(ops: map<nat, Tuple>, procs: map<nat, Proc>, t: Tuple): nat {
    if t.op in ops && ops[t.op] == t && t.op !in procs then 1 else 0
  }

  ghost predicate OpsOk(ops: map<nat, Tuple>, procs: map<nat, Proc>, landed: multiset<Tuple>) {
    && (forall pid :: pid in ops ==> ops[pid].op == pid)
    && (forall pid :: pid in procs && IsInsert(procs[pid]) ==> pid in ops && ops[pid] == procs[pid].t)
    && (forall pid :: pid in procs && !IsInsert(procs[pid]) ==> pid !in ops)
    && (forall t: Tuple :: landed[t] == Due(ops, procs, t))
  }

  ghost function Contents(pages: seq<Page>): multiset<Tuple> {
    if pages == [] then multiset{} else Contents(pages[..|pages| - 1]) + multiset(TuplesOf(pages[|pages| - 1]))
  }

  /** What has landed is either still in the index or was removed by a vacuum. */
  ghost predicate Conserved(s: State) { Contents(s.pages) + s.removed == s.landed }

  /** A tuple present when the scan began: removed since, or reported if it matches, or still ahead. */
  ghost predicate ScanSees(c: Proc, pages: seq<Page>, removed: multiset<Tuple>, b: nat, t: Tuple)
    requires c.Scan? && |t.sign| == |c.query|
  {
    || t in removed
    || (b < c.blkno && (Covers(t.sign, c.query) ==> t.tid in c.found))
    || (c.blkno <= b < |pages| && t in TuplesOf(pages[b]))
  }

  ghost predicate ScanOk(length: nat, pages: seq<Page>, removed: multiset<Tuple>, c: Proc)
    requires c.Scan? && |c.query| == length
  {
    && PagesOk(length, c.snapshot)
    && forall b: nat, t :: 1 <= b < |c.snapshot| && t in TuplesOf(c.snapshot[b]) ==> ScanSees(c, pages, removed, b, t)
  }

  /** A dead tuple present when the vacuum began: removed since, or still ahead. */
  ghost predicate VacuumSees(c: Proc, pages: seq<Page>, removed: multiset<Tuple>, b: nat, t: Tuple)
    requires c.Vacuum?
  {
    t in removed || (c.blkno <= b < |pages| && t in TuplesOf(pages[b]))
  }

  ghost predicate VacuumOk(pages: seq<Page>, removed: multiset<Tuple>, c: Proc)
    requires c.Vacuum?
  {
    forall b: nat, t :: 1 <= b < |c.snapshot| && t in TuplesOf(c.snapshot[b]) && t.tid in c.dead ==> VacuumSees(c, pages, removed, b, t)
  }

  /** A scan or a vacuum keeps account of what it must still see. */
  ghost predicate WatchOk(length: nat, pages: seq<Page>, removed: multiset<Tuple>, c: Proc) {
    && (c.Scan? ==> |c.query| == length && ScanOk(length, pages, removed, c))
    && (c.Vacuum? ==> VacuumOk(pages, removed, c))
  }

  ghost predicate WatchesOk(s: State) {
    forall pid :: pid in s.procs ==> WatchOk(s.length, s.pages, s.removed, s.procs[pid])
  }

  /** Pages, metapage, lock and inserts agree. */
  ghost predicate Consistent(s: State) {
    && PagesOk(s.length, s.pages) && MetaOk(|s.pages|, s.meta) && FsmOk(|s.pages|, s.fsm)
    && ProcsOk(s.length, |s.pages|, s.procs) && LockOk(s.lock, s.procs)
    && OpsOk(s.ops, s.procs, s.landed) && Conserved(s)
  }

  ghost predicate Inv(s: State) { Consistent(s) && WatchesOk(s) }

  /** An index just made by `blbuildempty`. */
  ghost function Initial(length: nat): State {
    State(length, [MetaPage], Meta(0, 0, seq(META_BLOCKS, _ => 0)), None, {}, map[], map[], multiset{}, multiset{})
  }

  lemma InitialInv(length: nat)
    requires 1 <= length <= 256
    ensures Inv(Initial(length))
  {
    var s := Initial(length);
    assert Contents(s.pages) == multiset{} by { assert s.pages[..0] == []; }
  }

  /** In a good state no access of an action is out of range. */
  lemma ActionsInRange(s: State, a: Action)
    requires Inv(s) && Enabled(s, a)
    ensures InRange(s, a)
  {
    if a.ScanPage? {
      assert ProcOk(s.length, |s.pages|, s.procs[a.pid]);
    }
  }

  // ----- frames -----

  lemma MoreBlocks(length: nat, n: nat, n': nat, m: Meta, fsm: set<nat>, procs: map<nat, Proc>)
    requires n <= n' && MetaOk(n, m) && FsmOk(n, fsm) && ProcsOk(length, n, procs)
    ensures MetaOk(n', m) && FsmOk(n', fsm) && ProcsOk(length, n', procs)
  {
    forall pid | pid in procs ensures ProcOk(length, n', procs[pid]) {
      assert ProcOk(length, n, procs[pid]);
    }
  }

  /** Whatever was on a page is still there, or was removed. */
  ghost predicate Carried(pages: seq<Page>, pages': seq<Page>, removed: multiset<Tuple>, removed': multiset<Tuple>) {
    && |pages| <= |pages'| && removed <= removed'
    && forall b, t :: 0 <= b < |pages| && t in TuplesOf(pages[b]) ==> t in TuplesOf(pages'[b]) || t in removed'
  }

  lemma ScanCarried(length: nat, pages: seq<Page>, pages': seq<Page>, removed: multiset<Tuple>, removed': multiset<Tuple>, c: Proc)
    requires c.Scan? && |c.query| == length && ScanOk(length, pages, removed, c)
    requires Carried(pages, pages', removed, removed')
    ensures ScanOk(length, pages', removed', c)
  {
    forall b: nat, t | 1 <= b < |c.snapshot| && t in TuplesOf(c.snapshot[b]) ensures ScanSees(c, pages', removed', b, t) {
      assert PageOk(length, c.snapshot[b]);
      assert ScanSees(c, pages, removed, b, t);
    }
  }

  lemma WatchCarried(length: nat, pages: seq<Page>, pages': seq<Page>, removed: multiset<Tuple>, removed': multiset<Tuple>, c: Proc)
    requires WatchOk(length, pages, removed, c) && Carried(pages, pages', removed, removed')
    ensures WatchOk(length, pages', removed', c)
  {
    if c.Scan? { ScanCarried(length, pages, pages', removed, removed', c); }
    if c.Vacuum? {
      forall b: nat, t | 1 <= b < |c.snapshot| && t in TuplesOf(c.snapshot[b]) && t.tid in c.dead
        ensures VacuumSees(c, pages', removed', b, t)
      {
        assert VacuumSees(c, pages, removed, b, t);
      }
    }
  }

  /** Processes other than `pid` see what they saw. */
  lemma WatchesCarried(s: State, s': State, pid: nat)
    requires WatchesOk(s) && s'.length == s.length && Carried(s.pages, s'.pages, s.removed, s'.removed)
    requires forall q :: q in s'.procs && q != pid ==> q in s.procs && s'.procs[q] == s.procs[q]
    requires pid in s'.procs ==> WatchOk(s'.length, s'.pages, s'.removed, s'.procs[pid])
    ensures WatchesOk(s')
  {
    forall q | q in s'.procs ensures WatchOk(s'.length, s'.pages, s'.removed, s'.procs[q]) {
      if q != pid { WatchCarried(s.length, s.pages, s'.pages, s.removed, s'.removed, s.procs[q]); }
    }
  }

  lemma NothingMoved(s: State)
    ensures Carried(s.pages, s.pages, s.removed, s.removed)
  {}

  // ----- contents -----

  lemma SwapLast(a: multiset<Tuple>, b: multiset<Tuple>, c: multiset<Tuple>)
    ensures a + b + c == a + c + b
  {}

  lemma {:induction false} ContentsUpdate(pages: seq<Page>, b: nat, p: Page)
    requires b < |pages|
    ensures Contents(pages[b := p]) + multiset(TuplesOf(pages[b])) == Contents(pages) + multiset(TuplesOf(p))
  {
    var n := |pages| - 1;
    var (front, last) := (pages[..n], multiset(TuplesOf(pages[n])));
    var pages' := pages[b := p];
    var (was, now) := (multiset(TuplesOf(pages[b])), multiset(TuplesOf(p)));
    if b == n {
      assert pages'[..n] == front;
      SwapLast(Contents(front), now, was);
    } else {
      ContentsUpdate(front, b, p);
      assert pages'[..n] == front[b := p];
      SwapLast(Contents(front[b := p]), last, was);
      SwapLast(Contents(front), last, now);
    }
  }

  lemma {:induction false} ContentsGrow(pages: seq<Page>, p: Page)
    ensures Contents(pages + [p]) == Contents(pages) + multiset(TuplesOf(p))
  {
    assert (pages + [p])[..|pages|] == pages;
  }

  // ----- operations and the lock -----

  lemma InsertAdvances(ops: map<nat, Tuple>, procs: map<nat, Proc>, landed: multiset<Tuple>, pid: nat, p: Proc)
    requires OpsOk(ops, procs, landed) && pid in procs && IsInsert(procs[pid]) && IsInsert(p) && p.t == procs[pid].t
    ensures OpsOk(ops, procs[pid := p], landed)
  {
    forall t: Tuple ensures landed[t] == Due(ops, procs[pid := p], t) {
      assert landed[t] == Due(ops, procs, t);
    }
  }

  lemma OtherAdvances(ops: map<nat, Tuple>, procs: map<nat, Proc>, landed: multiset<Tuple>, pid: nat, p: Proc)
    requires OpsOk(ops, procs, landed) && pid !in ops && !IsInsert(p)
    ensures OpsOk(ops, procs[pid := p], landed) && OpsOk(ops, procs - {pid}, landed)
  {
    forall t: Tuple ensures landed[t] == Due(ops, procs[pid := p], t) == Due(ops, procs - {pid}, t) {
      assert landed[t] == Due(ops, procs, t);
    }
  }

  lemma InsertStarts(ops: map<nat, Tuple>, procs: map<nat, Proc>, landed: multiset<Tuple>, pid: nat, t: Tuple)
    requires OpsOk(ops, procs, landed) && pid !in procs && pid !in ops && t.op == pid
    ensures OpsOk(ops[pid := t], procs[pid := InsHint(t)], landed)
  {
    forall u: Tuple ensures landed[u] == Due(ops[pid := t], procs[pid := InsHint(t)], u) {
      assert landed[u] == Due(ops, procs, u);
    }
  }

  lemma InsertLands(ops: map<nat, Tuple>, procs: map<nat, Proc>, landed: multiset<Tuple>, pid: nat)
    requires OpsOk(ops, procs, landed) && pid in procs && IsInsert(procs[pid])
    ensures OpsOk(ops, procs - {pid}, landed + multiset{procs[pid].t})
  {
    forall u: Tuple ensures (landed + multiset{procs[pid].t})[u] == Due(ops, procs - {pid}, u) {
      assert landed[u] == Due(ops, procs, u);
    }
  }

  lemma LockTaken(lock: Option<nat>, procs: map<nat, Proc>, pid: nat, p: Proc)
    requires LockOk(lock, procs) && lock == None && HoldsMeta(p)
    ensures LockOk(Some(pid), procs[pid := p])
  {}

  lemma LockReleased(lock: Option<nat>, procs: map<nat, Proc>, pid: nat)
    requires LockOk(lock, procs) && pid in procs && HoldsMeta(procs[pid])
    ensures lock == Some(pid) && LockOk(None, procs - {pid})
  {
    assert lock == Some(pid);
  }

  lemma LockKept(lock: Option<nat>, procs: map<nat, Proc>, pid: nat, p: Proc)
    requires LockOk(lock, procs) && pid in procs && (HoldsMeta(p) <==> HoldsMeta(procs[pid]))
    ensures LockOk(lock, procs[pid := p])
  {}

  // ----- steps that only move a process -----

  lemma InsertMoves(s: State, pid: nat, p: Proc, lock: Option<nat>)
    requires Inv(s) && pid in s.procs && IsInsert(s.procs[pid]) && IsInsert(p) && p.t == s.procs[pid].t
    requires ProcOk(s.length, |s.pages|, p) && LockOk(lock, s.procs[pid := p])
    ensures Inv(SetProc(s, pid, p).(lock := lock))
  {
    InsertAdvances(s.ops, s.procs, s.landed, pid, p);
    NothingMoved(s);
    WatchesCarried(s, SetProc(s, pid, p).(lock := lock), pid);
  }

  /** An insert moves on and holds the metapage as before. */
  lemma InsertMovesOn(s: State, pid: nat, p: Proc)
    requires Inv(s) && pid in s.procs && IsInsert(s.procs[pid]) && IsInsert(p) && p.t == s.procs[pid].t
    requires ProcOk(s.length, |s.pages|, p) && (HoldsMeta(p) <==> HoldsMeta(s.procs[pid]))
    ensures Inv(SetProc(s, pid, p))
  {
    LockKept(s.lock, s.procs, pid, p);
    InsertMoves(s, pid, p, s.lock);
    assert SetProc(s, pid, p).(lock := s.lock) == SetProc(s, pid, p);
  }

  /** `BloomInitPage` is only ever applied to pages without tuples. */
  lemma ReinitErasesNothing(length: nat, p: Page)
    requires PageOk(length, p)
    ensures TuplesOf(Reinit(p)) == TuplesOf(p)
  {}

  lemma OneMoreFits(length: nat, n: nat)
    requires Fits(length, n)
    ensures FreeSpace(length, n + 1) >= 0
  {
    assert (n + 1) * TupleSize(length) == n * TupleSize(length) + TupleSize(length);
  }

  lemma AppendOk(length: nat, p: Page, t: Tuple)
    requires PageOk(length, p) && !p.MetaPage? && HasRoom(length, p) && |t.sign| == length
    ensures var q := Append(Reinit(p), t);
      PageOk(length, q) && q.DataPage? && TuplesOf(q) == TuplesOf(p) + [t]
  {
    OneMoreFits(length, |TuplesOf(Reinit(p))|);
  }

  lemma PageReplaced(length: nat, pages: seq<Page>, b: nat, q: Page)
    requires PagesOk(length, pages) && 1 <= b < |pages| && PageOk(length, q) && !q.MetaPage?
    ensures PagesOk(length, pages[b := q])
  {}

  lemma StoreCarries(pages: seq<Page>, b: nat, q: Page, t: Tuple, removed: multiset<Tuple>)
    requires b < |pages| && TuplesOf(q) == TuplesOf(pages[b]) + [t]
    ensures Carried(pages, pages[b := q], removed, removed)
    ensures Contents(pages[b := q]) == Contents(pages) + multiset{t}
  {
    ContentsUpdate(pages, b, q);
    MultisetAppend(TuplesOf(pages[b]), t);
    var was := multiset(TuplesOf(pages[b]));
    assert Contents(pages[b := q]) + was == Contents(pages) + multiset{t} + was by { SwapLast(Contents(pages), multiset{t}, was); }
    CancelSum(Contents(pages[b := q]), Contents(pages) + multiset{t}, was);
  }

  lemma CancelSum(a: multiset<Tuple>, b: multiset<Tuple>, c: multiset<Tuple>)
    requires a + c == b + c
    ensures a == b
  {
    assert a == (a + c) - c && b == (b + c) - c;
  }

  /** Storing on a listed page: the page is a data page with room, new and deleted ones are empty. */
  lemma StoreKeepsInv(s: State, pid: nat, blk: nat, lock: Option<nat>, meta: Meta)
    requires Inv(s) && pid in s.procs && IsInsert(s.procs[pid])
    requires IsDataBlock(|s.pages|, blk) && HasRoom(s.length, s.pages[blk])
    requires MetaOk(|s.pages|, meta) && LockOk(lock, s.procs - {pid})
    ensures Inv(Store(s, pid, s.procs[pid].t, blk).(lock := lock, meta := meta))
  {
    var t := s.procs[pid].t;
    var s' := Store(s, pid, t, blk).(lock := lock, meta := meta);
    assert ProcOk(s.length, |s.pages|, s.procs[pid]);
    assert PageOk(s.length, s.pages[blk]);
    AppendOk(s.length, s.pages[blk], t);
    var q := Append(Reinit(s.pages[blk]), t);
    PageReplaced(s.length, s.pages, blk, q);
    StoreCarries(s.pages, blk, q, t, s.removed);
    SwapLast(Contents(s.pages), multiset{t}, s.removed);
    InsertLands(s.ops, s.procs, s.landed, pid);
    WatchesCarried(s, s', pid);
  }

  lemma ReadHintStep(s: State, pid: nat)
    requires Inv(s) && Enabled(s, ReadHint(pid))
    ensures InRange(s, ReadHint(pid)) && Inv(Do(s, ReadHint(pid)))
  {
    var t := s.procs[pid].t;
    assert ProcOk(s.length, |s.pages|, s.procs[pid]);
    if s.meta.nEnd > s.meta.nStart {
      assert IsDataBlock(|s.pages|, s.meta.notFull[s.meta.nStart]);
      InsertMovesOn(s, pid, InsTry(t, s.meta.notFull[s.meta.nStart]));
    } else {
      InsertMovesOn(s, pid, InsWait(t, None));
    }
  }

  lemma TryHintStep(s: State, pid: nat)
    requires Inv(s) && Enabled(s, TryHint(pid))
    ensures InRange(s, TryHint(pid)) && Inv(Do(s, TryHint(pid)))
  {
    var (t, blk) := (s.procs[pid].t, s.procs[pid].blk);
    assert ProcOk(s.length, |s.pages|, s.procs[pid]);
    if HasRoom(s.length, s.pages[blk]) {
      StoreKeepsInv(s, pid, blk, s.lock, s.meta);
      assert Store(s, pid, t, blk).(lock := s.lock, meta := s.meta) == Store(s, pid, t, blk);
    } else {
      InsertMovesOn(s, pid, InsWait(t, Some(blk)));
    }
  }

  lemma LockMetaStep(s: State, pid: nat)
    requires Inv(s) && pid in s.procs && s.procs[pid].InsWait? && s.lock.None?
    ensures Inv(DoLockMeta(s, pid))
  {
    hide PagesOk, OpsOk, Conserved, WatchesOk, FsmOk, LockOk;
    var (t, n) := (s.procs[pid].t, s.meta.nStart);
    assert ProcOk(s.length, |s.pages|, s.procs[pid]);
    var skip := n < s.meta.nEnd && s.procs[pid].tried == Some(s.meta.notFull[n]);
    LockTaken(s.lock, s.procs, pid, InsLoop(t, if skip then n + 1 else n));
    InsertMoves(s, pid, InsLoop(t, if skip then n + 1 else n), Some(pid));
  }

  lemma TryNextStep(s: State, pid: nat)
    requires Inv(s) && pid in s.procs && s.procs[pid].InsLoop?
    requires s.procs[pid].nStart < s.meta.nEnd ==> s.meta.notFull[s.procs[pid].nStart] < |s.pages|
    ensures Inv(DoTryNext(s, pid))
  {
    hide PagesOk, OpsOk, Conserved, WatchesOk, FsmOk, LockOk;
    var (t, n) := (s.procs[pid].t, s.procs[pid].nStart);
    assert ProcOk(s.length, |s.pages|, s.procs[pid]);
    if n >= s.meta.nEnd {
      InsertMovesOn(s, pid, InsNew(t));
    } else {
      var blk := s.meta.notFull[n];
      assert IsDataBlock(|s.pages|, blk);
      if HasRoom(s.length, s.pages[blk]) {
        LockReleased(s.lock, s.procs, pid);
        StoreKeepsInv(s, pid, blk, None, s.meta.(nStart := n));
      } else {
        InsertMovesOn(s, pid, InsLoop(t, n + 1));
      }
    }
  }

  lemma RecycleStep(s: State, pid: nat, blk: nat, locked: bool)
    requires Inv(s) && Enabled(s, Recycle(pid, blk, locked))
    ensures InRange(s, Recycle(pid, blk, locked)) && Inv(Do(s, Recycle(pid, blk, locked)))
  {
    var s1 := s.(fsm := s.fsm - {blk});
    assert Inv(s1) by { NothingMoved(s); WatchesCarried(s, s1, pid); }
    if locked && Unused(s.pages[blk]) {
      EmptyPageFits(s.length);
      assert IsDataBlock(|s.pages|, blk);
      StoreKeepsInv(s1, pid, blk, None, ResetMeta(s1, blk).meta);
    }
  }

  lemma ExtendStep(s: State, pid: nat)
    requires Inv(s) && pid in s.procs && s.procs[pid].InsNew?
    ensures Inv(DoExtend(s, pid))
  {
    var (t, s') := (s.procs[pid].t, DoExtend(s, pid));
    assert ProcOk(s.length, |s.pages|, s.procs[pid]);
    NewPageOk(s.length, s.pages, t);
    MoreBlocks(s.length, |s.pages|, |s'.pages|, s.meta, s.fsm, s.procs);
    ContentsGrow(s.pages, DataPage(false, [t]));
    SwapLast(Contents(s.pages), multiset{t}, s.removed);
    InsertLands(s.ops, s.procs, s.landed, pid);
    WatchesCarried(s, s', pid);
  }

  lemma NewPageOk(length: nat, pages: seq<Page>, t: Tuple)
    requires PagesOk(length, pages) && |t.sign| == length
    ensures PagesOk(length, pages + [DataPage(false, [t])])
  {
    EmptyPageFits(length);
    OneMoreFits(length, 0);
  }

  lemma ExtendOnlyStep(s: State)
    requires Inv(s)
    ensures Inv(s.(pages := s.pages + [NewPage]))
  {
    var s' := s.(pages := s.pages + [NewPage]);
    MoreBlocks(s.length, |s.pages|, |s'.pages|, s.meta, s.fsm, s.procs);
    ContentsGrow(s.pages, NewPage);
    assert Carried(s.pages, s'.pages, s.removed, s'.removed);
    AllWatchesCarried(s, s');
  }

  lemma AllWatchesCarried(s: State, s': State)
    requires WatchesOk(s) && s'.length == s.length && s'.procs == s.procs && Carried(s.pages, s'.pages, s.removed, s'.removed)
    ensures WatchesOk(s')
  {
    forall q | q in s'.procs ensures WatchOk(s'.length, s'.pages, s'.removed, s'.procs[q]) {
      WatchCarried(s.length, s.pages, s'.pages, s.removed, s'.removed, s.procs[q]);
    }
  }

  lemma StartInsertStep(s: State, pid: nat, t: Tuple)
    requires Inv(s) && Enabled(s, StartInsert(pid, t))
    ensures Inv(Do(s, StartInsert(pid, t)))
  {
    InsertStarts(s.ops, s.procs, s.landed, pid, t);
    NothingMoved(s);
    WatchesCarried(s, Do(s, StartInsert(pid, t)), pid);
  }

  /** A process that is not an insert starts or moves on. */
  lemma OtherMoves(s: State, pid: nat, p: Proc, fsm: set<nat>)
    requires Inv(s) && pid !in s.ops && (pid in s.procs ==> !IsInsert(s.procs[pid]))
    requires !IsInsert(p) && WatchOk(s.length, s.pages, s.removed, p) && ProcOk(s.length, |s.pages|, p) && FsmOk(|s.pages|, fsm)
    ensures Inv(SetProc(s, pid, p).(fsm := fsm))
  {
    OtherAdvances(s.ops, s.procs, s.landed, pid, p);
    NothingMoved(s);
    WatchesCarried(s, SetProc(s, pid, p).(fsm := fsm), pid);
  }

  lemma FilteredOk(length: nat, p: Page, dead: set<Tid>)
    requires PageOk(length, p)
    ensures PageOk(length, Filtered(p, dead))
    ensures Filtered(p, dead).MetaPage? <==> p.MetaPage?
  {
    if !Unused(p) && p.DataPage? {
      var kept := Kept(p.tuples, dead);
      forall t | t in kept ensures |t.sign| == length { KeptExactly(p.tuples, dead, t); }
      FewerFit(length, |kept|, |p.tuples|);
    }
  }

  lemma FewerFit(length: nat, m: nat, n: nat)
    requires m <= n && FreeSpace(length, n) >= 0
    ensures FreeSpace(length, m) >= 0
  {
    assert m * TupleSize(length) <= n * TupleSize(length);
  }

  /** A vacuumed page keeps or gives up each of its tuples. */
  lemma FilteredSplits(p: Page, dead: set<Tid>)
    ensures multiset(TuplesOf(Filtered(p, dead))) + multiset(Taken(p, dead)) == multiset(TuplesOf(p))
  {
    if !Unused(p) && p.DataPage? {
      KeptAndDropped(p.tuples, dead);
      if |Kept(p.tuples, dead)| == |p.tuples| {
        NothingDropped(p.tuples, dead);
      }
    }
  }

  lemma VacuumCarries(pages: seq<Page>, b: nat, dead: set<Tid>, removed: multiset<Tuple>)
    requires b < |pages|
    ensures var removed' := removed + multiset(Taken(pages[b], dead));
      var pages' := pages[b := Filtered(pages[b], dead)];
      Carried(pages, pages', removed, removed') && Contents(pages') + removed' == Contents(pages) + removed
  {
    var (p, q) := (pages[b], Filtered(pages[b], dead));
    var taken := multiset(Taken(p, dead));
    FilteredSplits(p, dead);
    forall t | t in TuplesOf(p) ensures t in TuplesOf(q) || t in removed + taken {
      assert t in multiset(TuplesOf(p));
    }
    ContentsUpdate(pages, b, q);
    MoveSum(Contents(pages[b := q]), Contents(pages), multiset(TuplesOf(q)), taken, removed);
  }

  lemma MoveSum(c': multiset<Tuple>, c: multiset<Tuple>, q: multiset<Tuple>, taken: multiset<Tuple>, removed: multiset<Tuple>)
    requires c' + (q + taken) == c + q
    ensures c' + (removed + taken) == c + removed
  {
    assert c' + taken + q == c' + (q + taken);
    CancelSum(c' + taken, c, q);
    assert c' + (removed + taken) == c' + taken + removed;
  }

  /** A process that is no insert replaces pages of the index. */
  lemma {:induction false} PagesRewritten(s: State, pid: nat, p: Proc, pages: seq<Page>, removed: multiset<Tuple>)
    requires Consistent(s) && pid in s.procs && !IsInsert(s.procs[pid]) && !IsInsert(p)
    requires PagesOk(s.length, pages) && |pages| == |s.pages| && ProcOk(s.length, |pages|, p)
    requires Contents(pages) + removed == Contents(s.pages) + s.removed
    ensures Consistent(SetProc(s, pid, p).(pages := pages, removed := removed))
  {
    OtherAdvances(s.ops, s.procs, s.landed, pid, p);
  }

  lemma VacuumPageStep(s: State, pid: nat)
    requires Inv(s) && pid in s.procs && s.procs[pid].Vacuum? && s.procs[pid].blkno < |s.pages|
    ensures Inv(DoVacuumPage(s, pid))
  {
    var (v, s') := (s.procs[pid], DoVacuumPage(s, pid));
    VacuumPageConsistent(s, pid);
    assert WatchOk(s.length, s.pages, s.removed, v) && ProcOk(s.length, |s.pages|, v);
    VacuumAdvances(s.length, s.pages, s.removed, v, s'.procs[pid]);
    VacuumCarries(s.pages, v.blkno, v.dead, s.removed);
    WatchesCarried(s, s', pid);
  }

  lemma VacuumPageConsistent(s: State, pid: nat)
    requires Consistent(s) && pid in s.procs && s.procs[pid].Vacuum? && s.procs[pid].blkno < |s.pages|
    ensures Consistent(DoVacuumPage(s, pid))
  {
    var (v, s') := (s.procs[pid], DoVacuumPage(s, pid));
    assert ProcOk(s.length, |s.pages|, v);
    VacuumedPagesOk(s.length, s.pages, v.blkno, v.dead);
    VacuumCarries(s.pages, v.blkno, v.dead, s.removed);
    ListGrows(|s.pages|, v.list, v.blkno);
    PagesRewritten(s, pid, s'.procs[pid], s'.pages, s'.removed);
  }

  /** Vacuuming one more page keeps the account: the dead tuples of the page are removed. */
  lemma VacuumAdvances(length: nat, pages: seq<Page>, removed: multiset<Tuple>, v: Proc, v': Proc)
    requires v.Vacuum? && VacuumOk(pages, removed, v) && PagesOk(length, pages) && v.blkno < |pages|
    requires v'.Vacuum? && v'.blkno == v.blkno + 1 && v'.dead == v.dead && v'.snapshot == v.snapshot
    ensures VacuumOk(pages[v.blkno := Filtered(pages[v.blkno], v.dead)], removed + multiset(Taken(pages[v.blkno], v.dead)), v')
  {
    var (p, taken) := (pages[v.blkno], Taken(pages[v.blkno], v.dead));
    var (pages', removed') := (pages[v.blkno := Filtered(p, v.dead)], removed + multiset(taken));
    assert PageOk(length, p);
    forall b: nat, t | 1 <= b < |v.snapshot| && t in TuplesOf(v.snapshot[b]) && t.tid in v.dead ensures VacuumSees(v', pages', removed', b, t) {
      assert VacuumSees(v, pages, removed, b, t);
      if b == v.blkno && t in TuplesOf(p) {
        KeptExactly(TuplesOf(p), v.dead, t);
        assert t in multiset(taken);
      }
    }
  }

  lemma ListGrows(npages: nat, list: seq<nat>, b: nat)
    requires AllDataBlocks(npages, list, |list|) && IsDataBlock(npages, b)
    ensures AllDataBlocks(npages, list + [b], |list| + 1)
  {}

  lemma VacuumedPagesOk(length: nat, pages: seq<Page>, b: nat, dead: set<Tid>)
    requires PagesOk(length, pages) && 1 <= b < |pages|
    ensures PagesOk(length, pages[b := Filtered(pages[b], dead)])
  {
    assert PageOk(length, pages[b]);
    FilteredOk(length, pages[b], dead);
    PageReplaced(length, pages, b, Filtered(pages[b], dead));
  }

  lemma VacuumMetaStep(s: State, pid: nat)
    requires Inv(s) && Enabled(s, VacuumMeta(pid))
    ensures InRange(s, VacuumMeta(pid)) && Inv(Do(s, VacuumMeta(pid)))
  {
    assert ProcOk(s.length, |s.pages|, s.procs[pid]);
    OtherAdvances(s.ops, s.procs, s.landed, pid, s.procs[pid]);
    NothingMoved(s);
    WatchesCarried(s, Do(s, VacuumMeta(pid)), pid);
  }

  lemma CleanupPageStep(s: State, pid: nat)
    requires Inv(s) && pid in s.procs && s.procs[pid].Cleanup? && s.procs[pid].blkno < |s.pages|
    ensures Inv(DoCleanupPage(s, pid))
  {
    hide Inv;
    var c := s.procs[pid];
    var (p, fsm) := (Cleanup(c.npages, c.blkno + 1), if Unused(s.pages[c.blkno]) then s.fsm + {c.blkno} else s.fsm);
    CleanupMovesOn(s, pid, fsm);
    OtherMoves(s, pid, p, fsm);
    assert DoCleanupPage(s, pid) == SetProc(s, pid, p).(fsm := fsm);
  }

  lemma CleanupMovesOn(s: State, pid: nat, fsm: set<nat>)
    requires Inv(s) && pid in s.procs && s.procs[pid].Cleanup? && s.procs[pid].blkno < |s.pages|
    requires fsm <= s.fsm + {s.procs[pid].blkno}
    ensures pid !in s.ops && FsmOk(|s.pages|, fsm)
    ensures ProcOk(s.length, |s.pages|, Cleanup(s.procs[pid].npages, s.procs[pid].blkno + 1))
  {
    var c := s.procs[pid];
    assert ProcOk(s.length, |s.pages|, c);
    RecordFree(|s.pages|, s.fsm, fsm, c.blkno);
  }

  lemma RecordFree(npages: nat, fsm: set<nat>, fsm': set<nat>, b: nat)
    requires FsmOk(npages, fsm) && fsm' <= fsm + {b} && IsDataBlock(npages, b)
    ensures FsmOk(npages, fsm')
  {}

  lemma StartScanStep(s: State, pid: nat, query: Signature)
    requires Inv(s) && pid !in s.procs && pid !in s.ops && |query| == s.length
    ensures Inv(SetProc(s, pid, Scan(query, 1, {}, s.pages)))
  {
    FreshScanOk(s.length, s.pages, s.removed, query);
    OtherMoves(s, pid, Scan(query, 1, {}, s.pages), s.fsm);
    assert SetProc(s, pid, Scan(query, 1, {}, s.pages)).(fsm := s.fsm) == SetProc(s, pid, Scan(query, 1, {}, s.pages));
  }

  lemma FreshScanOk(length: nat, pages: seq<Page>, removed: multiset<Tuple>, query: Signature)
    requires PagesOk(length, pages) && |query| == length
    ensures ScanOk(length, pages, removed, Scan(query, 1, {}, pages))
  {
    forall b: nat, t | 1 <= b < |pages| && t in TuplesOf(pages[b])
      ensures |t.sign| == length && ScanSees(Scan(query, 1, {}, pages), pages, removed, b, t)
    {
      assert PageOk(length, pages[b]);
    }
  }

  lemma ScanPageStep(s: State, pid: nat)
    requires Inv(s) && pid in s.procs && s.procs[pid].Scan? && s.procs[pid].blkno < |s.pages|
    requires forall t :: t in TuplesOf(s.pages[s.procs[pid].blkno]) ==> |t.sign| == |s.procs[pid].query|
    ensures Inv(DoScanPage(s, pid))
  {
    var c := s.procs[pid];
    assert ProcOk(s.length, |s.pages|, c);
    var s' := DoScanPage(s, pid);
    ScanAdvances(s.length, s.pages, s.removed, c);
    OtherMoves(s, pid, s'.procs[pid], s.fsm);
    assert SetProc(s, pid, s'.procs[pid]).(fsm := s.fsm) == s';
  }

  /** Reading one more page keeps the scan's account of what it must still see. */
  lemma ScanAdvances(length: nat, pages: seq<Page>, removed: multiset<Tuple>, c: Proc)
    requires c.Scan? && |c.query| == length && PagesOk(length, pages) && ScanOk(length, pages, removed, c)
    requires 1 <= c.blkno < |pages|
    requires forall t :: t in TuplesOf(pages[c.blkno]) ==> |t.sign| == |c.query|
    ensures ScanOk(length, pages, removed, Scan(c.query, c.blkno + 1, c.found + Hits(pages[c.blkno], c.query), c.snapshot))
  {
    var c' := Scan(c.query, c.blkno + 1, c.found + Hits(pages[c.blkno], c.query), c.snapshot);
    assert PageOk(length, pages[c.blkno]);
    forall b: nat, t | 1 <= b < |c.snapshot| && t in TuplesOf(c.snapshot[b])
      ensures |t.sign| == length && ScanSees(c', pages, removed, b, t)
    {
      assert PageOk(length, c.snapshot[b]);
      assert ScanSees(c, pages, removed, b, t);
    }
  }

  // ----- theorems -----

  /** Every lock section keeps the invariant, whichever process takes it. */
  lemma StepKeepsInv(s: State, a: Action)
    requires Inv(s) && Enabled(s, a)
    ensures InRange(s, a) && Inv(Do(s, a))
  {
    ActionsInRange(s, a);
    match a
    case StartInsert(pid, t) => StartInsertStep(s, pid, t);
    case ReadHint(pid) => ReadHintStep(s, pid);
    case TryHint(pid) => TryHintStep(s, pid);
    case LockMeta(pid) => LockMetaStep(s, pid);
    case TryNext(pid) => TryNextStep(s, pid);
    case Recycle(pid, blk, locked) => RecycleStep(s, pid, blk, locked);
    case Extend(pid) => ExtendStep(s, pid);
    case ExtendOnly => ExtendOnlyStep(s);
    case StartVacuum(pid, dead) => OtherMoves(s, pid, Vacuum(|s.pages|, 1, [], dead, s.pages), s.fsm);
    case VacuumPage(pid) => VacuumPageStep(s, pid);
    case VacuumMeta(pid) => VacuumMetaStep(s, pid);
    case StartCleanup(pid) => OtherMoves(s, pid, Cleanup(|s.pages|, 1), s.fsm);
    case CleanupPage(pid) => CleanupPageStep(s, pid);
    case StartScan(pid, query) => StartScanStep(s, pid, query);
    case ScanPage(pid) => ScanPageStep(s, pid);
  }

  /** `s` is reached from an empty index by the actions, in that order. */
  ghost predicate Reaches(length: nat, actions: seq<Action>, s: State)
    decreases |actions|
  {
    if actions == [] then s == Initial(length)
    else
      var (front, a) := (actions[..|actions| - 1], actions[|actions| - 1]);
      exists r :: Reaches(length, front, r) && Steps(r, a, s)
  }

  ghost predicate Steps(r: State, a: Action, s: State) { Enabled(r, a) && InRange(r, a) && s == Do(r, a) }

  lemma {:induction false} ReachableInv(length: nat, actions: seq<Action>, s: State)
    requires 1 <= length <= 256 && Reaches(length, actions, s)
    ensures Inv(s)
    decreases |actions|
  {
    if actions == [] {
      InitialInv(length);
    } else {
      var (front, a) := (actions[..|actions| - 1], actions[|actions| - 1]);
      var r :| Reaches(length, front, r) && Steps(r, a, s);
      ReachableInv(length, front, r);
      StepKeepsInv(r, a);
    }
  }

  /**
   In every interleaving: an insert's tuple is in the index exactly once from the moment the
   insert is done until a vacuum removes it, and before that not at all.
   */
  lemma {:induction false} EachInsertLandsOnce(length: nat, actions: seq<Action>, s: State, t: Tuple)
    requires 1 <= length <= 256 && Reaches(length, actions, s)
    ensures Contents(s.pages)[t] + s.removed[t] == Due(s.ops, s.procs, t)
  {
    ReachableInv(length, actions, s);
    assert (Contents(s.pages) + s.removed)[t] == s.landed[t] == Due(s.ops, s.procs, t);
  }

  /** In every interleaving the metapage lists only data pages, and reuse of a page erases nothing. */
  lemma {:induction false} FreeListIsSafe(length: nat, actions: seq<Action>, s: State)
    requires 1 <= length <= 256 && Reaches(length, actions, s)
    ensures s.meta.nStart <= s.meta.nEnd <= META_BLOCKS == |s.meta.notFull|
    ensures forall i :: s.meta.nStart <= i < s.meta.nEnd ==>
      1 <= s.meta.notFull[i] < |s.pages| && !s.pages[s.meta.notFull[i]].MetaPage?
    ensures forall b :: 0 <= b < |s.pages| ==> TuplesOf(Reinit(s.pages[b])) == TuplesOf(s.pages[b])
  {
    ReachableInv(length, actions, s);
    assert forall i :: 0 <= i < s.meta.nEnd ==> IsDataBlock(|s.pages|, s.meta.notFull[i]);
    forall b | 0 <= b < |s.pages| ensures TuplesOf(Reinit(s.pages[b])) == TuplesOf(s.pages[b]) {
      assert PageOk(s.length, s.pages[b]);
    }
  }
}
