/** The gate in front of a local folder's index: scans, their failures, status updates, restarts and
    readers in any interleaving (internal/daemon/daemon.go:95-133 and 302-344,
    internal/store/scan.go:16-108). */
module Visibility {
  import opened Model
  import opened Paths
  import opened Tree
  import opened Json
  import opened Index
  import opened Scan
  import opened Walk

  /** The scanner. After a scan has ended, its outcome is still to be reported to the status. */
  datatype Scanner = Resting | Walking(draft: Draft) | Succeeded | Failed

  /** A committed scan: its rows, and as history the walk and the tree it ended on. */
  datatype Committed = Committed(draft: Draft, tree: Tree)

  /** One process of the daemon, over an index that outlives it. LastSuccess and LastError of the status
      are the flags `succeeded` and `failing`. `scans` and `results` are history of this process. */
  datatype Daemon = Daemon(
    id: string, allowed: set<string>, tree: Tree, index: Index, scanner: Scanner,
    succeeded: bool, failing: bool, admitted: set<nat>, scans: seq<Committed>, results: map<nat, Index>)

  datatype Event =
    | Edit(tree: Tree)
    | StartScan
    | ReadRoot
    | ReadDir(dir: string)
    | VisitName(path: string)
    | CommitScan
    | FailScan
    | Update
    | Authorize(reader: nat, peer: string)
    | ReadIndex(reader: nat)
    | Restart(index: Index)          // whatever earlier processes left

  /** The whole transaction at once; its row-by-row form and its rollback are in module Database. */
  function DoCommit(s: Daemon, w: Draft): Daemon {
    if !MarkerOk(s.tree, s.id) then s.(scanner := Failed)
    else s.(index := w.rows, scanner := Succeeded, scans := s.scans + [Committed(w, s.tree)])
  }

  function Continue(w: Option<Draft>): Scanner {
    if w.Some? then Walking(w.value) else Failed
  }

  function Shaken(c: Scanner): Scanner {
    if c.Walking? then Walking(Disturb(c.draft)) else c
  }

  predicate OfWalk(ev: Event) {
    ev.StartScan? || ev.ReadRoot? || ev.ReadDir? || ev.VisitName?
  }

  /** One event of the walk over the tree as it is now. */
  ghost function DoWalk(h: Hasher, id: string, t: Tree, c: Scanner, ev: Event): (c': Scanner)
    requires OfWalk(ev)
    ensures c'.Succeeded? ==> c == c'
    ensures !c.Walking? && !(c.Resting? && ev.StartScan?) ==> c' == c
  {
    match ev
    case StartScan => if !c.Resting? then c else if MarkerOk(t, id) then Walking(FIRST) else Failed
    case ReadRoot => if c.Walking? then Walking(Root(t, c.draft)) else c
    case ReadDir(d) =>
      if c.Walking? && d in c.draft.rows && d in c.draft.known && c.draft.known[d] then Continue(Enter(t, c.draft, d)) else c
    case VisitName(p) =>
      if c.Walking? && p in c.draft.known && !ReservedBase(p) && p !in c.draft.rows then Continue(Visit(h, t, c.draft, p)) else c
  }

  ghost function Step(h: Hasher, s: Daemon, ev: Event): Daemon {
    match ev
    case Edit(t) => if WellFormed(t) then s.(tree := t, scanner := Shaken(s.scanner)) else s
    case StartScan => s.(scanner := DoWalk(h, s.id, s.tree, s.scanner, ev))
    case ReadRoot => s.(scanner := DoWalk(h, s.id, s.tree, s.scanner, ev))
    case ReadDir(_) => s.(scanner := DoWalk(h, s.id, s.tree, s.scanner, ev))
    case VisitName(_) => s.(scanner := DoWalk(h, s.id, s.tree, s.scanner, ev))
    case CommitScan => if s.scanner.Walking? && Complete(s.scanner.draft) then DoCommit(s, s.scanner.draft) else s
    case FailScan => if s.scanner.Walking? then s.(scanner := Failed) else s
    case Update =>
      if s.scanner.Succeeded? then s.(scanner := Resting, succeeded := true, failing := false)
      else if s.scanner.Failed? then s.(scanner := Resting, failing := true)
      else s
    case Authorize(r, peer) =>
      if peer in s.allowed && MarkerOk(s.tree, s.id) && s.succeeded && !s.failing then s.(admitted := s.admitted + {r}) else s
    case ReadIndex(r) => if r in s.admitted then s.(admitted := s.admitted - {r}, results := s.results[r := s.index]) else s
    case Restart(m) =>
      s.(index := m, scanner := Resting, succeeded := false, failing := false, admitted := {}, scans := [], results := map[])
  }

  ghost predicate GoodScan(h: Hasher, c: Committed) {
    WellFormed(c.tree) && DraftInv(h, c.tree, c.draft) && Complete(c.draft)
  }

  ghost predicate Inv(h: Hasher, s: Daemon) {
    && WellFormed(s.tree)
    && (s.scanner.Walking? ==> DraftInv(h, s.tree, s.scanner.draft))
    && (forall i :: 0 <= i < |s.scans| ==> GoodScan(h, s.scans[i]))
    && (s.scans != [] ==> s.index == s.scans[|s.scans| - 1].draft.rows)
    && (s.scanner.Succeeded? || s.succeeded || s.admitted != {} ==> s.scans != [])
    && (forall r :: r in s.results ==> exists i :: 0 <= i < |s.scans| && s.results[r] == s.scans[i].draft.rows)
  }

  lemma WalkInv(h: Hasher, id: string, t: Tree, c: Scanner, ev: Event)
    requires HexHasher(h) && OfWalk(ev) && (c.Walking? ==> DraftInv(h, t, c.draft))
    ensures var c' := DoWalk(h, id, t, c, ev); c'.Walking? ==> DraftInv(h, t, c'.draft)
  {
    hide DraftInv, ReservedBase, Enter, Visit, Root, HexHasher, MarkerOk;
    match ev {
      case StartScan => FirstInv(h, t);
      case ReadRoot => if c.Walking? { RootInv(h, t, c.draft); }
      case ReadDir(d) =>
        if c.Walking? && d in c.draft.rows && d in c.draft.known && c.draft.known[d] {
          EnterInv(h, t, c.draft, d);
        }
      case VisitName(p) =>
        if c.Walking? && p in c.draft.known && !ReservedBase(p) && p !in c.draft.rows {
          VisitInv(h, t, c.draft, p);
        }
    }
  }

  lemma CommitInv(h: Hasher, s: Daemon)
    requires Inv(h, s) && s.scanner.Walking? && Complete(s.scanner.draft)
    ensures Inv(h, DoCommit(s, s.scanner.draft))
  {
    hide DraftInv, WellFormed, Complete, MarkerOk;
    var s' := DoCommit(s, s.scanner.draft);
    assert forall i :: 0 <= i < |s.scans| ==> s'.scans[i] == s.scans[i];
  }

  lemma GateInv(h: Hasher, s: Daemon, ev: Event)
    requires Inv(h, s) && !OfWalk(ev) && !ev.CommitScan? && !ev.Edit?
    ensures Inv(h, Step(h, s, ev))
  {
    hide DraftInv, WellFormed, GoodScan, MarkerOk;
  }

  lemma CommitStep(h: Hasher, s: Daemon)
    ensures Step(h, s, CommitScan) ==
              if s.scanner.Walking? && Complete(s.scanner.draft) then DoCommit(s, s.scanner.draft) else s
  {}

  lemma StepInv(h: Hasher, s: Daemon, ev: Event)
    requires HexHasher(h) && Inv(h, s)
    ensures Inv(h, Step(h, s, ev))
  {
    hide DraftInv, WellFormed, GoodScan, HexHasher, DoWalk, Disturb;
    if OfWalk(ev) {
      WalkInv(h, s.id, s.tree, s.scanner, ev);
    } else if ev.Edit? {
      if s.scanner.Walking? {
        EditInv(h, s.tree, s.scanner.draft, ev.tree);
      }
    } else {
      hide Inv, Step;
      if ev.CommitScan? {
        CommitStep(h, s);
        if s.scanner.Walking? && Complete(s.scanner.draft) {
          CommitInv(h, s);
        }
      } else {
        GateInv(h, s, ev);
      }
    }
  }

  ghost function Run(h: Hasher, s: Daemon, evs: seq<Event>): Daemon {
    if evs == [] then s else Step(h, Run(h, s, evs[..|evs| - 1]), evs[|evs| - 1])
  }

  /** A process that has just started, over any index. */
  ghost predicate Started(s: Daemon) {
    WellFormed(s.tree) && s.scanner.Resting? && !s.succeeded && s.admitted == {} && s.scans == [] && s.results == map[]
  }

  lemma {:induction false} RunInv(h: Hasher, s: Daemon, evs: seq<Event>)
    requires HexHasher(h) && Started(s)
    ensures Inv(h, Run(h, s, evs))
  {
    hide Inv, Step, HexHasher;
    if evs == [] {
      StartedInv(h, s);
    } else {
      RunInv(h, s, evs[..|evs| - 1]);
      StepInv(h, Run(h, s, evs[..|evs| - 1]), evs[|evs| - 1]);
    }
  }

  lemma StartedInv(h: Hasher, s: Daemon)
    requires Started(s)
    ensures Inv(h, s)
  {
    hide WellFormed;
  }

  /** Atomic visibility: whatever scans, failures, updates and restarts surround it, a list that the gate
      let through is the whole outcome of one committed scan of this process. Its rows are valid and
      within the limits, and every ancestor of a row is a row. */
  lemma ListsAreWholeScans(h: Hasher, s: Daemon, evs: seq<Event>, r: nat)
    requires HexHasher(h) && Started(s) && r in Run(h, s, evs).results
    ensures var s' := Run(h, s, evs);
            var m := s'.results[r];
            && (exists i :: 0 <= i < |s'.scans| && m == s'.scans[i].draft.rows)
            && ValidRows(m) && WithinLimits(m)
            && forall p, a :: p in m && IsAncestor(a, p) ==> a in m
  {
    hide Run, Inv, ValidRows, WithinLimits, HexHasher;
    RunInv(h, s, evs);
    ResultIsScan(h, Run(h, s, evs), r);
  }

  lemma ResultIsScan(h: Hasher, s: Daemon, r: nat)
    requires Inv(h, s) && r in s.results
    ensures var m := s.results[r];
            && (exists i :: 0 <= i < |s.scans| && m == s.scans[i].draft.rows)
            && ValidRows(m) && WithinLimits(m)
            && forall p, a :: p in m && IsAncestor(a, p) ==> a in m
  {
    hide ValidRows, WithinLimits, WellFormed, Led, QuietInv, Complete, IsAncestor;
    var i :| 0 <= i < |s.scans| && s.results[r] == s.scans[i].draft.rows;
    assert GoodScan(h, s.scans[i]);
  }

  /** What a committed scan is: the exact snapshot of a folder that was left alone meanwhile, and in any
      case closed under directory parents if and only if no directory that was recorded as a file has a
      recorded child. */
  lemma ScansAreSnapshots(h: Hasher, s: Daemon, evs: seq<Event>, i: nat)
    requires HexHasher(h) && Started(s) && i < |Run(h, s, evs).scans|
    ensures var c := Run(h, s, evs).scans[i];
            && (c.draft.quiet ==> c.draft.rows == Snapshot(h, c.tree))
            && (ParentClosed(c.draft.rows) <==>
                  !exists d, q :: Flipped(c.draft, d) && q in c.draft.rows && IsChild(d, q))
  {
    hide Run, Inv, HexHasher, Snapshot, GoodScan, ParentClosed, Flipped, IsChild;
    RunInv(h, s, evs);
    ScanIsGood(h, Run(h, s, evs), i);
    GoodScanIsSnapshot(h, Run(h, s, evs).scans[i]);
  }

  lemma ScanIsGood(h: Hasher, s: Daemon, i: nat)
    requires Inv(h, s) && i < |s.scans|
    ensures GoodScan(h, s.scans[i])
  {
    hide GoodScan, DraftInv, WellFormed;
  }

  lemma GoodScanIsSnapshot(h: Hasher, c: Committed)
    requires GoodScan(h, c)
    ensures c.draft.quiet ==> c.draft.rows == Snapshot(h, c.tree)
    ensures ParentClosed(c.draft.rows) <==> !exists d, q :: Flipped(c.draft, d) && q in c.draft.rows && IsChild(d, q)
  {
    hide DraftInv, WellFormed, Complete, Snapshot, ParentClosed, Flipped, IsChild;
    ClosedUnlessFlipped(h, c.tree, c.draft);
    if c.draft.quiet {
      QuietWalkIsSnapshot(h, c.tree, c.draft);
    }
  }

  /** A scan that does not commit leaves the index as it was; only a commit moves it, all at once. */
  lemma OnlyCommitMovesIndex(h: Hasher, s: Daemon, ev: Event)
    requires !ev.Restart?
    ensures Step(h, s, ev).index == s.index
            || (ev.CommitScan? && s.scanner.Walking? && Complete(s.scanner.draft) && Step(h, s, ev).index == s.scanner.draft.rows)
  {
    hide DoWalk, Disturb, Complete, WellFormed, MarkerOk;
  }

  /** The last scan outcome that this process has reported is a success. */
  ghost predicate LastReportGood(h: Hasher, s: Daemon, evs: seq<Event>) {
    exists i :: 0 <= i < |evs| && GoodReport(h, s, evs, i) && forall j :: i < j < |evs| ==> !Retracts(h, s, evs, j)
  }

  ghost predicate GoodReport(h: Hasher, s: Daemon, evs: seq<Event>, i: nat)
    requires i < |evs|
  {
    evs[i].Update? && Run(h, s, evs[..i]).scanner.Succeeded?
  }

  ghost predicate Retracts(h: Hasher, s: Daemon, evs: seq<Event>, j: nat)
    requires j < |evs|
  {
    evs[j].Restart? || (evs[j].Update? && Run(h, s, evs[..j]).scanner.Failed?)
  }

  lemma StatusStep(h: Hasher, s: Daemon, ev: Event)
    ensures var s' := Step(h, s, ev);
            (s'.succeeded && !s'.failing) <==>
              if ev.Restart? then false
              else if ev.Update? && s.scanner.Succeeded? then true
              else if ev.Update? && s.scanner.Failed? then false
              else s.succeeded && !s.failing
  {
    hide WellFormed, DoWalk, Disturb, MarkerOk, Complete;
  }

  /** After any run the status lets readers through exactly if the last report is a success. */
  lemma {:induction false} StatusFollowsReports(h: Hasher, s: Daemon, evs: seq<Event>)
    requires !s.succeeded
    ensures var s' := Run(h, s, evs); (s'.succeeded && !s'.failing) <==> LastReportGood(h, s, evs)
  {
    hide Step;
    if evs != [] {
      var n := |evs| - 1;
      var init := evs[..n];
      StatusFollowsReports(h, s, init);
      StatusStep(h, Run(h, s, init), evs[n]);
      hide Run;
      assert forall i :: 0 <= i < n ==> init[..i] == evs[..i] && init[i] == evs[i];
      if LastReportGood(h, s, init) && !Retracts(h, s, evs, n) {
        var i :| 0 <= i < n && GoodReport(h, s, init, i) && forall j :: i < j < n ==> !Retracts(h, s, init, j);
        assert GoodReport(h, s, evs, i);
        forall j | i < j < |evs| ensures !Retracts(h, s, evs, j) {
          assert j < n ==> !Retracts(h, s, init, j);
        }
      }
      if LastReportGood(h, s, evs) && !GoodReport(h, s, evs, n) {
        var i :| 0 <= i < |evs| && GoodReport(h, s, evs, i) && forall j :: i < j < |evs| ==> !Retracts(h, s, evs, j);
        assert GoodReport(h, s, init, i);
        forall j | i < j < n ensures !Retracts(h, s, init, j) {
          assert !Retracts(h, s, evs, j);
        }
      }
      if GoodReport(h, s, evs, n) {
        assert LastReportGood(h, s, evs);
      }
    }
  }

  /** After any run of scans, failures, updates and restarts, a new reader is admitted if and only if it is
      a peer of the folder, the marker is in place, and the last outcome that this process has reported is
      a success. */
  lemma GateIsExact(h: Hasher, s: Daemon, evs: seq<Event>, r: nat, peer: string)
    requires Started(s) && r !in Run(h, s, evs).admitted
    ensures var s' := Run(h, s, evs);
            r in Step(h, s', Authorize(r, peer)).admitted <==>
              peer in s'.allowed && MarkerOk(s'.tree, s'.id) && LastReportGood(h, s, evs)
  {
    hide Run, LastReportGood, WellFormed, MarkerOk;
    StatusFollowsReports(h, s, evs);
  }

  /** Event j is the visit of a name that its listing called a directory and that is a file now. */
  ghost predicate SeenAsFile(h: Hasher, s: Daemon, evs: seq<Event>, j: nat, d: string) {
    && j < |evs| && evs[j] == VisitName(d)
    && var a := Run(h, s, evs[..j]);
       var b := Run(h, s, evs[..j + 1]);
       && a.scanner.Walking? && d in a.scanner.draft.known && a.scanner.draft.known[d] && d !in a.scanner.draft.rows
       && b.scanner.Walking? && d in b.scanner.draft.rows && d in a.tree && a.tree[d].File?
  }

  /** The walk that was under way after event j has been under way since. */
  ghost predicate StillWalking(h: Hasher, s: Daemon, evs: seq<Event>, j: nat) {
    j < |evs| && forall i :: j < i <= |evs| ==> Run(h, s, evs[..i]).scanner.Walking?
  }

  /** In the walk under way, d was listed as a directory and visited as a file. */
  ghost predicate TurnedFile(h: Hasher, s: Daemon, evs: seq<Event>, d: string) {
    exists j: nat :: SeenAsFile(h, s, evs, j, d) && StillWalking(h, s, evs, j)
  }

  /** What this leaves in the draft. */
  ghost predicate Marks(c: Scanner, d: string) {
    && c.Walking? && d in c.draft.rows && d in c.draft.known && c.draft.known[d] && c.draft.rows[d].kind == "file"
  }

  /** The walk visits d and finds a file. */
  ghost predicate VisitsFile(t: Tree, c: Scanner, ev: Event, c': Scanner, d: string) {
    && ev == VisitName(d) && c.Walking? && d in c.draft.known && c.draft.known[d] && d !in c.draft.rows
    && c'.Walking? && d in c'.draft.rows && d in t && t[d].File?
  }

  lemma MarksWalk(h: Hasher, id: string, t: Tree, c: Scanner, ev: Event, d: string)
    requires OfWalk(ev) && (c.Walking? ==> DraftInv(h, t, c.draft))
    ensures var c' := DoWalk(h, id, t, c, ev);
            Marks(c', d) <==> c'.Walking? && (Marks(c, d) || VisitsFile(t, c, ev, c', d))
  {
    hide WellFormed, ValidRows, WithinLimits, Led, RowsClosed, QuietInv, ReservedBase, ScanEntry, MarkerOk, Scannable;
    assert c.Walking? ==> forall p :: p in c.draft.rows ==> p in c.draft.known;
    hide DraftInv;
    if ev.VisitName? && Scannable(t, ev.path) {
      VisitedThere(t, ev.path);
      ScanEntryKind(h, t, ev.path);
    }
  }

  lemma VisitedThere(t: Tree, p: string)
    requires Scannable(t, p)
    ensures p in t
  {
    hide ValidPath;
  }

  lemma MarksStep(h: Hasher, s: Daemon, ev: Event, d: string)
    requires Inv(h, s)
    ensures var s' := Step(h, s, ev);
            Marks(s'.scanner, d) <==> s'.scanner.Walking? && (Marks(s.scanner, d) || VisitsFile(s.tree, s.scanner, ev, s'.scanner, d))
  {
    hide WellFormed, DraftInv, DoWalk, MarkerOk, Complete, GoodScan;
    if OfWalk(ev) {
      MarksWalk(h, s.id, s.tree, s.scanner, ev, d);
    }
  }

  lemma {:induction false} MarksAreEvents(h: Hasher, s: Daemon, evs: seq<Event>, d: string)
    requires HexHasher(h) && Started(s)
    ensures Run(h, s, evs).scanner.Walking? ==> (Marks(Run(h, s, evs).scanner, d) <==> TurnedFile(h, s, evs, d))
  {
    hide Inv, Step, HexHasher, WellFormed, Marks;
    if evs != [] && Run(h, s, evs).scanner.Walking? {
      var n := |evs| - 1;
      var init := evs[..n];
      RunInv(h, s, init);
      MarksAreEvents(h, s, init, d);
      MarksStep(h, Run(h, s, init), evs[n], d);
      MarksWalks(Run(h, s, init).scanner, d);
      TurnedStep(h, s, evs, d);
      assert evs[..n + 1] == evs;
      hide Run, TurnedFile;
    }
  }

  lemma MarksWalks(c: Scanner, d: string)
    ensures Marks(c, d) ==> c.Walking?
  {}

  /** The events of a run and those of all but its last one. */
  lemma TurnedStep(h: Hasher, s: Daemon, evs: seq<Event>, d: string)
    requires evs != [] && Run(h, s, evs).scanner.Walking?
    ensures var n := |evs| - 1;
            TurnedFile(h, s, evs, d) <==>
              || (Run(h, s, evs[..n]).scanner.Walking? && TurnedFile(h, s, evs[..n], d))
              || SeenAsFile(h, s, evs, n, d)
  {
    hide Run, SeenAsFile, StillWalking;
    var n := |evs| - 1;
    var init := evs[..n];
    if j: nat :| SeenAsFile(h, s, evs, j, d) && StillWalking(h, s, evs, j) {
      EarlierEvent(h, s, evs, j, d);
      if j < n {
        assert SeenAsFile(h, s, init, j, d);
      } else {
        assert j == n by { SeenInRange(h, s, evs, j, d); }
      }
    }
    if Run(h, s, init).scanner.Walking? && TurnedFile(h, s, init, d) {
      var j: nat :| SeenAsFile(h, s, init, j, d) && StillWalking(h, s, init, j);
      SeenInRange(h, s, init, j, d);
      EarlierEvent(h, s, evs, j, d);
      assert SeenAsFile(h, s, evs, j, d);
    }
    if SeenAsFile(h, s, evs, n, d) {
      EarlierEvent(h, s, evs, n, d);
    }
  }

  lemma SeenInRange(h: Hasher, s: Daemon, evs: seq<Event>, j: nat, d: string)
    requires SeenAsFile(h, s, evs, j, d)
    ensures j < |evs|
  {
    hide Run;
  }

  lemma EarlierEvent(h: Hasher, s: Daemon, evs: seq<Event>, j: nat, d: string)
    requires evs != [] && Run(h, s, evs).scanner.Walking?
    ensures var n := |evs| - 1;
            && (j < n ==> (SeenAsFile(h, s, evs, j, d) <==> SeenAsFile(h, s, evs[..n], j, d)))
            && (j < n ==> (StillWalking(h, s, evs, j) <==> StillWalking(h, s, evs[..n], j)))
            && (j < n && StillWalking(h, s, evs[..n], j) ==> Run(h, s, evs[..n]).scanner.Walking?)
            && StillWalking(h, s, evs, n)
  {
    hide Run;
    var n := |evs| - 1;
    var init := evs[..n];
    assert evs[..|evs|] == evs && init[..n] == init;
    if j < n {
      assert init[j] == evs[j] && init[..j] == evs[..j] && init[..j + 1] == evs[..j + 1];
      assert forall i :: j < i <= n ==> init[..i] == evs[..i];
    }
  }

  /** The exact condition on the events for a committed scan to be closed under directory parents: no name
      with a recorded child was a file when it was visited, having been listed as a directory. */
  lemma ClosedExactlyUnlessTurned(h: Hasher, s: Daemon, evs: seq<Event>)
    requires HexHasher(h) && Started(s)
    requires Run(h, s, evs).scanner.Walking? && Step(h, Run(h, s, evs), CommitScan).scanner.Succeeded?
    ensures var m := Step(h, Run(h, s, evs), CommitScan).index;
            ParentClosed(m) <==> !exists d, q :: TurnedFile(h, s, evs, d) && q in m && IsChild(d, q)
  {
    hide Run, TurnedFile, ParentClosed, HexHasher, WellFormed, IsChild, Step, Complete, Flipped, DraftInv, GoodScan;
    RunInv(h, s, evs);
    var a := Run(h, s, evs);
    CommittedIndex(h, a);
    var w := a.scanner.draft;
    hide Inv;
    ClosedUnlessFlipped(h, a.tree, w);
    forall d, q | q in w.rows && IsChild(d, q) ensures Flipped(w, d) <==> TurnedFile(h, s, evs, d) {
      MarksAreEvents(h, s, evs, d);
      ParentIsMarked(h, a.tree, w, d, q);
    }
  }

  lemma CommittedIndex(h: Hasher, s: Daemon)
    requires s.scanner.Walking? && Step(h, s, CommitScan).scanner.Succeeded?
    ensures Complete(s.scanner.draft) && Step(h, s, CommitScan).index == s.scanner.draft.rows
  {
    hide Complete, MarkerOk;
  }

  lemma ParentIsMarked(h: Hasher, t: Tree, w: Draft, d: string, q: string)
    requires DraftInv(h, t, w) && Complete(w) && q in w.rows && IsChild(d, q)
    ensures Flipped(w, d) <==> Marks(Walking(w), d)
  {
    hide ValidRows, WithinLimits, ReservedBase, QuietInv, RowsClosed;
    assert Led(w, q) && !IsTop(q);
    var p :| Reached(w, q, p);
    assert p == d;
  }

  /** The events of a scan during which "a" turns from a directory into a file and back. */
  function FlippingEvents(id: string): seq<Event> {
    [StartScan, ReadRoot, Edit(Marked(id, IS_FILE)), VisitName("a"), Edit(Marked(id, HAS_CHILD)), ReadDir("a"),
     VisitName("a/b"), CommitScan]
  }

  lemma RunTake(h: Hasher, s: Daemon, evs: seq<Event>, k: nat, before: Daemon, after: Daemon)
    requires k < |evs| && Run(h, s, evs[..k]) == before && Step(h, before, evs[k]) == after
    ensures Run(h, s, evs[..k + 1]) == after
  {
    hide Step;
    assert evs[..k + 1][..k] == evs[..k];
  }

  lemma StartStep(h: Hasher, s: Daemon)
    requires s.scanner.Resting? && MarkerOk(s.tree, s.id)
    ensures Step(h, s, StartScan) == s.(scanner := Walking(FIRST))
  {
    hide MarkerOk;
  }

  lemma RootStep(h: Hasher, s: Daemon, w: Draft)
    requires s.scanner == Walking(w)
    ensures Step(h, s, ReadRoot) == s.(scanner := Walking(Root(s.tree, w)))
  {
    hide Root;
  }

  lemma EditStep(h: Hasher, s: Daemon, w: Draft, t: Tree)
    requires s.scanner == Walking(w) && WellFormed(t)
    ensures Step(h, s, Edit(t)) == s.(tree := t, scanner := Walking(Disturb(w)))
  {
    hide WellFormed, Disturb;
  }

  lemma VisitStep(h: Hasher, s: Daemon, w: Draft, p: string)
    requires s.scanner == Walking(w) && p in w.known && !ReservedBase(p) && p !in w.rows && Visit(h, s.tree, w, p).Some?
    ensures Step(h, s, VisitName(p)) == s.(scanner := Walking(Visit(h, s.tree, w, p).value))
  {
    hide Visit, ReservedBase;
  }

  lemma EnterStep(h: Hasher, s: Daemon, w: Draft, d: string)
    requires s.scanner == Walking(w) && d in w.rows && d in w.known && w.known[d] && Enter(s.tree, w, d).Some?
    ensures Step(h, s, ReadDir(d)) == s.(scanner := Walking(Enter(s.tree, w, d).value))
  {
    hide Enter;
  }

  lemma MarkedTrees(id: string)
    ensures forall t :: t == IS_DIR || t == IS_FILE || t == HAS_CHILD ==> WellFormed(Marked(id, t)) && MarkerOk(Marked(id, t), id)
  {
    hide ValidPath, ReservedBase;
    FlipNames();
    MarkerIsAlone();
    forall a ensures IsAncestor(a, "a/b") <==> a == "a" { assert a in Ancestors("a/b") <==> IsAncestor(a, "a/b"); }
    forall a ensures !IsAncestor(a, "a") { assert a in Ancestors("a") <==> IsAncestor(a, "a"); }
  }

  lemma MarkerIsAlone()
    ensures forall a :: !IsAncestor(a, MARKER_NAME)
  {
    assert forall k :: 0 <= k < |MARKER_NAME| ==> MARKER_NAME[k] != '/';
  }

  /** The drafts of the walk over a flipping directory, after its visits. */
  ghost function FirstVisit(h: Hasher, id: string): Option<Draft> {
    Visit(h, Marked(id, IS_FILE), Disturb(Root(Marked(id, IS_DIR), FIRST)), "a")
  }

  lemma FlippedFirst(h: Hasher, s: Daemon)
    requires HexHasher(h) && Started(s) && s.tree == Marked(s.id, IS_DIR)
    ensures FirstVisit(h, s.id).Some?
    ensures Run(h, s, FlippingEvents(s.id)[..4]) ==
              s.(tree := Marked(s.id, IS_FILE), scanner := Walking(FirstVisit(h, s.id).value))
  {
    hide HexHasher, Step, Marked, WellFormed, MarkerOk, Root, Visit, Enter, Disturb, ReservedBase, Run, FlippingEvents, FirstVisit,
      IS_DIR, IS_FILE, HAS_CHILD, FIRST;
    var id := s.id;
    var e := FlippingEvents(id);
    MarkedTrees(id);
    FirstFacts(h, id);
    FlippingEventsAre(h, s);
    var w0 := Root(Marked(id, IS_DIR), FIRST);
    var w1 := Disturb(w0);
    StartStep(h, s);
    var s1 := s.(scanner := Walking(FIRST));
    RunTake(h, s, e, 0, s, s1);
    RootStep(h, s1, FIRST);
    var s2 := s1.(scanner := Walking(w0));
    RunTake(h, s, e, 1, s1, s2);
    EditStep(h, s2, w0, Marked(id, IS_FILE));
    var s3 := s2.(tree := Marked(id, IS_FILE), scanner := Walking(w1));
    RunTake(h, s, e, 2, s2, s3);
    VisitStep(h, s3, w1, "a");
    RunTake(h, s, e, 3, s3, s3.(scanner := Walking(FirstVisit(h, id).value)));
  }

  lemma FirstFacts(h: Hasher, id: string)
    requires HexHasher(h)
    ensures var w1 := Disturb(Root(Marked(id, IS_DIR), FIRST));
            && FirstVisit(h, id) == Visit(h, Marked(id, IS_FILE), w1, "a") && FirstVisit(h, id).Some?
            && "a" in w1.known && "a" !in w1.rows && !ReservedBase("a")
  {
    hide HexHasher, Marked, Root, Visit, Disturb, ReservedBase, ManifestBytes;
    LookedAtAsFile(h, id);
    ListedAsDirectory(id);
    FlipNames();
    DisturbKeeps(Root(Marked(id, IS_DIR), FIRST));
    RootKeeps(Marked(id, IS_DIR), FIRST);
  }

  lemma DisturbKeeps(w: Draft)
    ensures Disturb(w).known == w.known && Disturb(w).rows == w.rows
  {}

  lemma RootKeeps(t: Tree, w: Draft)
    ensures Root(t, w).rows == w.rows
  {}

  lemma FlippedSecond(h: Hasher, s: Daemon)
    requires HexHasher(h) && Started(s) && s.tree == Marked(s.id, IS_DIR)
    ensures FlippedWalk(h, s.id).Some?
    ensures Run(h, s, FlippingEvents(s.id)[..7]) ==
              s.(tree := Marked(s.id, HAS_CHILD), scanner := Walking(FlippedWalk(h, s.id).value))
  {
    hide HexHasher, Step, Marked, WellFormed, MarkerOk, Root, Visit, Enter, Disturb, Complete, ReservedBase, ParentClosed, Run,
      FlippingEvents;
    var id := s.id;
    var e := FlippingEvents(id);
    MarkedTrees(id);
    FlippedWalkIsNotClosed(h, id);
    FlipNames();
    FlippingEventsAre(h, s);
    FlippedFirst(h, s);
    var w1 := Disturb(Root(Marked(id, IS_DIR), FIRST));
    var w2 := FirstVisit(h, id).value;
    var w3 := Disturb(w2);
    var w4 := Enter(Marked(id, HAS_CHILD), w3, "a").value;
    FlippedKnown(h, id, w1, w4);
    var s4 := s.(tree := Marked(id, IS_FILE), scanner := Walking(w2));
    EditStep(h, s4, w2, Marked(id, HAS_CHILD));
    var s5 := s4.(tree := Marked(id, HAS_CHILD), scanner := Walking(w3));
    RunTake(h, s, e, 4, s4, s5);
    EnterStep(h, s5, w3, "a");
    var s6 := s5.(scanner := Walking(w4));
    RunTake(h, s, e, 5, s5, s6);
    VisitStep(h, s6, w4, "a/b");
    RunTake(h, s, e, 6, s6, s6.(scanner := Walking(FlippedWalk(h, id).value)));
  }

  /** The exception happens: from a folder that holds the marker and the directory "a", a run of a scan and
      two edits commits an index that is not closed under directory parents. */
  lemma FlippedScanIsCommitted(h: Hasher, s: Daemon)
    requires HexHasher(h) && Started(s) && s.tree == Marked(s.id, IS_DIR)
    ensures var s' := Run(h, s, FlippingEvents(s.id)); |s'.scans| == 1 && !ParentClosed(s'.index)
  {
    hide HexHasher, Step, Marked, WellFormed, MarkerOk, FlippedWalk, Complete, ParentClosed, Run, FlippingEvents;
    var id := s.id;
    var e := FlippingEvents(id);
    MarkedTrees(id);
    FlippedWalkIsNotClosed(h, id);
    FlippingEventsAre(h, s);
    FlippedSecond(h, s);
    var s7 := s.(tree := Marked(id, HAS_CHILD), scanner := Walking(FlippedWalk(h, id).value));
    CommitStep(h, s7);
    RunTake(h, s, e, 7, s7, Step(h, s7, CommitScan));
    assert e[..8] == e;
  }

  lemma FlippingEventsAre(h: Hasher, s: Daemon)
    ensures var e := FlippingEvents(s.id);
            && |e| == 8 && e[0] == StartScan && e[1] == ReadRoot && e[2] == Edit(Marked(s.id, IS_FILE)) && e[3] == VisitName("a")
            && e[4] == Edit(Marked(s.id, HAS_CHILD)) && e[5] == ReadDir("a") && e[6] == VisitName("a/b") && e[7] == CommitScan
            && Run(h, s, e[..0]) == s
  {
    hide Marked;
  }

  lemma FlippedKnown(h: Hasher, id: string, w1: Draft, w4: Draft)
    requires HexHasher(h) && w1 == Disturb(Root(Marked(id, IS_DIR), FIRST))
    requires Visit(h, Marked(id, IS_FILE), w1, "a").Some?
    requires var w3 := Disturb(Visit(h, Marked(id, IS_FILE), w1, "a").value);
             && "a" in w3.rows && "a" in w3.known && w3.known["a"] && Enter(Marked(id, HAS_CHILD), w3, "a") == Some(w4)
    ensures "a" in w1.known && "a" !in w1.rows && "a/b" in w4.known && "a/b" !in w4.rows
  {
    hide Visit, Enter, Marked, HexHasher, ReservedBase;
    ListedAsDirectory(id);
    LookedAtAsFile(h, id);
    var w3 := Disturb(Visit(h, Marked(id, IS_FILE), w1, "a").value);
    EnteredAsDirectory(id, w3);
  }

  /** Event c commits the walk under way. */
  ghost predicate Commits(h: Hasher, s: Daemon, evs: seq<Event>, c: nat) {
    && c < |evs| && evs[c].CommitScan?
    && Run(h, s, evs[..c]).scanner.Walking? && Run(h, s, evs[..c + 1]).scanner.Succeeded?
  }

  /** Event c is the last commit among the first n events, in the process that is running then. */
  ghost predicate LastCommit(h: Hasher, s: Daemon, evs: seq<Event>, n: nat, c: nat) {
    && c < n <= |evs| && Commits(h, s, evs, c)
    && forall m :: c < m < n ==> !Commits(h, s, evs, m) && !evs[m].Restart?
  }

  /** What one event does to the index and to the scans of the process. */
  lemma IndexStep(h: Hasher, s: Daemon, ev: Event)
    ensures var s' := Step(h, s, ev);
            if ev.Restart? then s'.scans == []
            else if ev.CommitScan? && s.scanner.Walking? && s'.scanner.Succeeded? then s'.index == s.scanner.draft.rows
            else s'.index == s.index && s'.scans == s.scans
  {
    hide DoWalk, Disturb, Complete, WellFormed, MarkerOk;
  }

  /** The index of a process that has committed a scan is what its last commit recorded. */
  lemma {:induction false} IndexIsLastCommit(h: Hasher, s: Daemon, evs: seq<Event>) returns (c: nat)
    requires Started(s) && Run(h, s, evs).scans != []
    ensures LastCommit(h, s, evs, |evs|, c) && Run(h, s, evs).index == Run(h, s, evs[..c]).scanner.draft.rows
  {
    hide Step, WellFormed;
    assert evs != [];
    var n := |evs| - 1;
    var init := evs[..n];
    assert evs[..n + 1] == evs;
    IndexStep(h, Run(h, s, init), evs[n]);
    if Commits(h, s, evs, n) {
      c := n;
    } else {
      c := IndexIsLastCommit(h, s, init);
      LaterCommit(h, s, evs, c);
    }
  }

  lemma LaterCommit(h: Hasher, s: Daemon, evs: seq<Event>, c: nat)
    requires evs != [] && LastCommit(h, s, evs[..|evs| - 1], |evs| - 1, c)
    requires !Commits(h, s, evs, |evs| - 1) && !evs[|evs| - 1].Restart?
    ensures LastCommit(h, s, evs, |evs|, c) && evs[..|evs| - 1][..c] == evs[..c]
  {
    hide Run;
    var n := |evs| - 1;
    var init := evs[..n];
    forall m | 0 <= m < n ensures Commits(h, s, evs, m) <==> Commits(h, s, init, m) {
      assert init[..m] == evs[..m] && init[..m + 1] == evs[..m + 1] && init[m] == evs[m];
    }
  }

  /** Fresh lists: whenever an admitted reader reads, it gets exactly the rows of the last scan that was
      committed before that moment, since the process started. */
  lemma ListIsLastCommit(h: Hasher, s: Daemon, evs: seq<Event>, i: nat, r: nat)
    requires HexHasher(h) && Started(s) && i < |evs| && evs[i] == ReadIndex(r) && r in Run(h, s, evs[..i]).admitted
    ensures var s' := Run(h, s, evs[..i + 1]);
            && r in s'.results
            && exists c: nat :: LastCommit(h, s, evs, i, c) && s'.results[r] == Run(h, s, evs[..c]).scanner.draft.rows
  {
    hide HexHasher, WellFormed, GoodScan, DraftInv;
    var before := Run(h, s, evs[..i]);
    RunInv(h, s, evs[..i]);
    assert before.scans != [];
    assert evs[..i + 1][..i] == evs[..i];
    ReadStep(h, before, r);
    hide Inv, Step;
    var c := IndexIsLastCommit(h, s, evs[..i]);
    assert evs[..i][..c] == evs[..c];
    EarlierCommit(h, s, evs, i, c);
  }

  lemma ReadStep(h: Hasher, s: Daemon, r: nat)
    requires r in s.admitted
    ensures r in Step(h, s, ReadIndex(r)).results && Step(h, s, ReadIndex(r)).results[r] == s.index
  {}

  lemma EarlierCommit(h: Hasher, s: Daemon, evs: seq<Event>, i: nat, c: nat)
    requires i <= |evs| && LastCommit(h, s, evs[..i], i, c)
    ensures LastCommit(h, s, evs, i, c)
  {
    hide Run;
    var init := evs[..i];
    forall m | 0 <= m < i ensures Commits(h, s, evs, m) <==> Commits(h, s, init, m) {
      assert init[..m] == evs[..m] && init[..m + 1] == evs[..m + 1] && init[m] == evs[m];
    }
  }

  lemma ResultStep(h: Hasher, s: Daemon, ev: Event, r: nat)
    requires r in s.results && !ev.Restart? && ev != ReadIndex(r)
    ensures r in Step(h, s, ev).results && Step(h, s, ev).results[r] == s.results[r]
  {
    hide DoWalk, Disturb, Complete, WellFormed, MarkerOk;
  }

  /** And it keeps that list until it reads again. */
  lemma {:induction false} ListStays(h: Hasher, s: Daemon, evs: seq<Event>, i: nat, r: nat)
    requires i <= |evs| && r in Run(h, s, evs[..i]).results
    requires forall m :: i <= m < |evs| ==> !evs[m].Restart? && evs[m] != ReadIndex(r)
    ensures r in Run(h, s, evs).results && Run(h, s, evs).results[r] == Run(h, s, evs[..i]).results[r]
  {
    hide Step;
    if i == |evs| {
      assert evs[..i] == evs;
    } else {
      var init := evs[..|evs| - 1];
      assert init[..i] == evs[..i];
      ListStays(h, s, init, i, r);
      ResultStep(h, Run(h, s, init), evs[|evs| - 1], r);
    }
  }

  /** A walk that fails, and is reported, shuts the gate ... */
  lemma FailureShutsGate(h: Hasher, s: Daemon, r: nat, peer: string)
    requires s.scanner.Walking?
    ensures var s' := Step(h, Step(h, s, FailScan), Update);
            s'.scanner.Resting? && s'.index == s.index && Step(h, s', Authorize(r, peer)) == s'
  {
    hide MarkerOk;
  }

  /** ... and a complete one, over a folder whose marker is in place, opens it for every peer. */
  lemma SuccessOpensGate(h: Hasher, s: Daemon, r: nat, peer: string)
    requires s.scanner.Walking? && Complete(s.scanner.draft) && peer in s.allowed
    requires ".backuply-folder" in s.tree && s.tree[".backuply-folder"].File? && s.tree[".backuply-folder"].content == s.id + "\n"
    ensures var s' := Step(h, Step(h, s, CommitScan), Update);
            s'.scanner.Resting? && s'.index == s.scanner.draft.rows && r in Step(h, s', Authorize(r, peer)).admitted
  {
    hide Complete;
  }

  /** Without its marker a folder is neither walked nor committed. */
  lemma ScanNeedsMarker(h: Hasher, s: Daemon, ev: Event)
    requires !(".backuply-folder" in s.tree && s.tree[".backuply-folder"].File? && s.tree[".backuply-folder"].content == s.id + "\n")
    requires ev.StartScan? || ev.CommitScan?
    ensures Step(h, s, ev).index == s.index && Step(h, s, ev).scans == s.scans
    ensures s.scanner.Resting? ==> !Step(h, s, ev).scanner.Walking?
    ensures s.scanner.Walking? && Complete(s.scanner.draft) && ev.CommitScan? ==> Step(h, s, ev).scanner.Failed?
  {
    hide Complete;
  }

  /** What is left of a walk: names to visit and directories to enter. */
  function WalkLeft(t: Tree, w: Draft): nat {
    |t.Keys - w.rows.Keys| + |t.Keys - w.entered| + if w.rooted then 0 else 1
  }

  lemma Fewer(a: set<string>, b: set<string>, p: string)
    requires p in a && p !in b
    ensures |a - (b + {p})| < |a - b|
  {
    assert a - b == (a - (b + {p})) + {p};
  }

  /** A scan of a folder that is left alone, holds only what can be scanned, and fits, cannot fail: until it
      is complete the walk can go on, and comes nearer to its end. */
  lemma QuietWalkGoesOn(h: Hasher, s: Daemon) returns (ev: Event)
    requires Inv(h, s) && s.scanner.Walking? && s.scanner.draft.quiet && !Complete(s.scanner.draft)
    requires AllScannable(s.tree) && WithinLimits(Snapshot(h, s.tree))
    ensures OfWalk(ev)
    ensures var s' := Step(h, s, ev);
            && s'.scanner.Walking? && s'.scanner.draft.quiet && s'.tree == s.tree
            && WalkLeft(s.tree, s'.scanner.draft) < WalkLeft(s.tree, s.scanner.draft)
  {
    hide WithinLimits, ReservedBase, AllScannable, Snapshot, DraftInv, WellFormed, GoodScan, WalkLeft, Step, Root, Visit, Enter;
    var t := s.tree;
    var w := s.scanner.draft;
    if !w.rooted {
      ev := ReadRoot;
      RootStep(h, s, w);
      RootNearer(t, w);
    } else if p :| p in w.known && !ReservedBase(p) && p !in w.rows {
      ev := VisitName(p);
      VisitNearer(h, t, w, p);
      VisitStep(h, s, w, p);
    } else {
      var d :| d in w.known && !ReservedBase(d) && w.known[d] && d !in w.entered;
      ev := ReadDir(d);
      EnterNearer(h, t, w, d);
      EnterStep(h, s, w, d);
    }
  }

  lemma RootNearer(t: Tree, w: Draft)
    requires !w.rooted
    ensures WalkLeft(t, Root(t, w)) < WalkLeft(t, w) && Root(t, w).quiet == w.quiet
  {}

  lemma EnterNearer(h: Hasher, t: Tree, w: Draft, d: string)
    requires DraftInv(h, t, w) && w.quiet && d in w.known && w.known[d] && d in w.rows && d !in w.entered
    ensures Enter(t, w, d).Some? && WalkLeft(t, Enter(t, w, d).value) < WalkLeft(t, w) && Enter(t, w, d).value.quiet
  {
    hide ValidRows, WithinLimits, ReservedBase, ScanEntry, RowsClosed, Led, IsChild, ChildNames;
    Fewer(t.Keys, w.entered, d);
  }

  lemma VisitNearer(h: Hasher, t: Tree, w: Draft, p: string)
    requires DraftInv(h, t, w) && w.quiet && p in w.known && !ReservedBase(p) && p !in w.rows
    requires AllScannable(t) && WithinLimits(Snapshot(h, t))
    ensures Visit(h, t, w, p).Some? && WalkLeft(t, Visit(h, t, w, p).value) < WalkLeft(t, w) && Visit(h, t, w, p).value.quiet
  {
    hide DraftInv, Visit, AllScannable, WithinLimits, Snapshot, ReservedBase, ScanEntry, WalkLeft;
    VisitSucceeds(h, t, w, p);
    RowNearer(t, w, p, ScanEntry(h, t, p));
  }

  lemma RowNearer(t: Tree, w: Draft, p: string, e: Entry)
    requires p in t && p !in w.rows
    ensures WalkLeft(t, w.(rows := w.rows[p := e])) < WalkLeft(t, w)
  {
    Fewer(t.Keys, w.rows.Keys, p);
    assert w.rows[p := e].Keys == w.rows.Keys + {p};
  }

  lemma VisitSucceeds(h: Hasher, t: Tree, w: Draft, p: string)
    requires DraftInv(h, t, w) && w.quiet && p in w.known && !ReservedBase(p) && p !in w.rows
    requires AllScannable(t) && WithinLimits(Snapshot(h, t))
    ensures p in t && Visit(h, t, w, p).Some? && Visit(h, t, w, p).value == w.(rows := w.rows[p := ScanEntry(h, t, p)])
  {
    hide ReservedBase, ScanEntry, ManifestBytes, ValidRows, RowsClosed, IsChild, Scannable, Led;
    KnownIsShown(h, t, w, p);
    var rows := w.rows[p := ScanEntry(h, t, p)];
    forall q | q in rows ensures q in Snapshot(h, t) && ManifestLength(rows[q]) <= ManifestLength(Snapshot(h, t)[q]) {
      KnownIsShown(h, t, w, q);
    }
    hide Shown, DraftInv, Snapshot;
    DominatedBytes(rows, Snapshot(h, t));
  }
}
