/** Provenance through relays: a source that is edited, scanned and restarted, and any number of receivers
    that take their lists from the source or from one another (internal/store/scan.go:111-160,
    internal/store/apply.go:145-177, internal/daemon/daemon.go:269-279). */
module Relay {
  import opened Model
  import opened Paths
  import opened Tree
  import opened Layout
  import opened Index
  import opened Scan
  import opened Walk
  import V = Visibility
  import opened Machine
  import opened Safety

  /** The source's daemon, with the history of its scans: the rows of the scan under way that were made
      from file contents, with those contents, and the same of all committed scans. */
  datatype Source = Source(daemon: V.Daemon, seen: set<(Entry, Bytes)>, recorded: set<(Entry, Bytes)>)

  /** A receiver and the list of the pass it is in. */
  datatype Node = Node(folder: Folder, listed: set<Entry>)

  datatype World = World(source: Source, nodes: seq<Node>)

  datatype Action =
    | AtSource(doing: V.Event)              // edits, walks, commits, failures, reports, readers, restarts
    | ListSource(node: nat, reader: nat)    // a list that the source's gate let through
    | ListNode(node: nat, from: nat)
    | Act(node: nat, event: Event)          // anything the receiver, its user or its replies do

  /** The name that the walk has just recorded. */
  predicate JustRecorded(d: V.Daemon, d': V.Daemon, p: string) {
    d.scanner.Walking? && d'.scanner.Walking? && p !in d.scanner.draft.rows && p in d'.scanner.draft.rows
  }

  ghost function SourceStep(h: Hasher, s: Source, ev: V.Event): Source {
    var d' := V.Step(h, s.daemon, ev);
    var seen := if ev.StartScan? && s.daemon.scanner.Resting? then {}
                else if ev.VisitName? && JustRecorded(s.daemon, d', ev.path) && ev.path in s.daemon.tree
                        && s.daemon.tree[ev.path].File?
                then s.seen + {(d'.scanner.draft.rows[ev.path], s.daemon.tree[ev.path].content)}
                else s.seen;
    var recorded := if s.daemon.scanner.Walking? && d'.scanner.Succeeded? then s.recorded + s.seen else s.recorded;
    Source(d', seen, recorded)
  }

  /** What one action does to receiver i. Nothing relates the replies it gets to the folder they come
      from: that folder may be edited, rescanned or replaced block by block meanwhile. */
  ghost function NodeStep(h: Hasher, w: World, i: nat, a: Action): Node
    requires i < |w.nodes|
  {
    var n := w.nodes[i];
    match a
    case AtSource(_) => n
    case ListSource(j, r) =>
      if j == i && r in w.source.daemon.results then n.(listed := w.source.daemon.results[r].Values) else n
    case ListNode(j, k) => if j == i && k < |w.nodes| then n.(listed := w.nodes[k].folder.index.Values) else n
    case Act(j, ev) => if j != i || (ev.Begin? && ev.entry !in n.listed) then n else n.(folder := Step(h, n.folder, ev))
  }

  ghost function WorldStep(h: Hasher, w: World, a: Action): World {
    World(if a.AtSource? then SourceStep(h, w.source, a.doing) else w.source,
          seq(|w.nodes|, i requires 0 <= i < |w.nodes| => NodeStep(h, w, i, a)))
  }

  ghost function Play(h: Hasher, w: World, acts: seq<Action>): World {
    if acts == [] then w else WorldStep(h, Play(h, w, acts[..|acts| - 1]), acts[|acts| - 1])
  }

  /** A row that describes a content some pair of the history holds. */
  ghost predicate From(h: Hasher, history: set<(Entry, Bytes)>, e: Entry) {
    e.kind == "file" ==> exists c :: (e, c) in history && Fingerprint(h, e.path, c, e.mode) == e
  }

  ghost predicate RowsFrom(h: Hasher, history: set<(Entry, Bytes)>, m: Index) {
    forall p :: p in m ==> From(h, history, m[p])
  }

  ghost predicate SourceFrom(h: Hasher, s: Source) {
    && V.Inv(h, s.daemon)
    && (s.daemon.scanner.Walking? ==> RowsFrom(h, s.seen, s.daemon.scanner.draft.rows))
    && (forall i :: 0 <= i < |s.daemon.scans| ==> RowsFrom(h, s.recorded, s.daemon.scans[i].draft.rows))
  }

  ghost predicate NodeFrom(h: Hasher, history: set<(Entry, Bytes)>, n: Node) {
    && Inv(h, n.folder)
    && RowsFrom(h, history, n.folder.index)
    && (forall e :: e in n.listed ==> From(h, history, e))
    && (!n.folder.phase.Idle? ==> From(h, history, n.folder.phase.e))
  }

  ghost predicate Traced(h: Hasher, w: World) {
    && SourceFrom(h, w.source)
    && forall i :: 0 <= i < |w.nodes| ==> NodeFrom(h, w.source.recorded, w.nodes[i])
  }

  /** A source process that has just started, over any index; receivers that have received nothing, and
      may hold any files. */
  ghost predicate Start(w: World) {
    && V.Started(w.source.daemon) && w.source.seen == {} && w.source.recorded == {}
    && forall i :: 0 <= i < |w.nodes| ==>
         w.nodes[i].listed == {} && w.nodes[i].folder.index == map[] && w.nodes[i].folder.phase.Idle?
         && WellFormed(w.nodes[i].folder.tree)
  }

  lemma StartTraced(h: Hasher, w: World)
    requires Start(w)
    ensures Traced(h, w)
  {
    hide WellFormed, WithinLimits, Fingerprint, ValidEntry;
  }

  lemma FromGrows(h: Hasher, history: set<(Entry, Bytes)>, more: set<(Entry, Bytes)>, e: Entry)
    requires From(h, history, e) && history <= more
    ensures From(h, more, e)
  {
    hide Fingerprint;
  }

  lemma ScannedFrom(h: Hasher, t: Tree, p: string, seen: set<(Entry, Bytes)>)
    requires p in t && (t[p].File? ==> (ScanEntry(h, t, p), t[p].content) in seen)
    ensures From(h, seen, ScanEntry(h, t, p))
  {
    hide SliceBlocks;
  }

  lemma RowsGrow(h: Hasher, history: set<(Entry, Bytes)>, more: set<(Entry, Bytes)>, m: Index)
    requires RowsFrom(h, history, m) && history <= more
    ensures RowsFrom(h, more, m)
  {
    hide From;
    forall p | p in m ensures From(h, more, m[p]) {
      FromGrows(h, history, more, m[p]);
    }
  }

  /** A visit records at most the visited name, with what is there at that moment. */
  lemma VisitEffect(h: Hasher, d: V.Daemon, p: string)
    requires d.scanner.Walking?
    ensures var d' := V.Step(h, d, V.VisitName(p));
            d'.scanner.Walking? && d'.scanner.draft.rows != d.scanner.draft.rows ==>
              && JustRecorded(d, d', p) && p in d.tree
              && d'.scanner.draft.rows == d.scanner.draft.rows[p := ScanEntry(h, d.tree, p)]
  {
    hide ReservedBase, ScanEntry, WithinLimits, ValidPath;
  }

  /** Other events leave the rows of a walk as they are, or start a new one. */
  lemma OtherEffect(h: Hasher, d: V.Daemon, ev: V.Event)
    requires !ev.VisitName?
    ensures var d' := V.Step(h, d, ev);
            && (d'.scanner.Walking? && d.scanner.Walking? ==> d'.scanner.draft.rows == d.scanner.draft.rows)
            && (d'.scanner.Walking? && !d.scanner.Walking? ==> ev.StartScan? && d.scanner.Resting? && d'.scanner.draft.rows == map[])
  {
    hide WellFormed, Complete, MarkerOk;
  }

  lemma WalkTraced(h: Hasher, s: Source, ev: V.Event)
    requires s.daemon.scanner.Walking? ==> RowsFrom(h, s.seen, s.daemon.scanner.draft.rows)
    ensures var s' := SourceStep(h, s, ev);
            s'.daemon.scanner.Walking? ==> RowsFrom(h, s'.seen, s'.daemon.scanner.draft.rows)
  {
    hide From, ScanEntry, V.Step;
    var s' := SourceStep(h, s, ev);
    if ev.VisitName? && s.daemon.scanner.Walking? && s'.daemon.scanner.Walking? {
      VisitEffect(h, s.daemon, ev.path);
      if s'.daemon.scanner.draft.rows != s.daemon.scanner.draft.rows {
        RowsGrow(h, s.seen, s'.seen, s.daemon.scanner.draft.rows);
        ScannedFrom(h, s.daemon.tree, ev.path, s'.seen);
      } else {
        RowsGrow(h, s.seen, s'.seen, s.daemon.scanner.draft.rows);
      }
    } else if !ev.VisitName? {
      OtherEffect(h, s.daemon, ev);
    } else {
      NoWalkByVisit(h, s.daemon, ev.path);
    }
  }

  lemma NoWalkByVisit(h: Hasher, d: V.Daemon, p: string)
    ensures !d.scanner.Walking? ==> V.Step(h, d, V.VisitName(p)) == d
  {}

  /** A scan enters the history with the rows of the walk that is committed. */
  lemma ScansGrow(h: Hasher, d: V.Daemon, ev: V.Event)
    ensures var d' := V.Step(h, d, ev);
            || d'.scans == d.scans || d'.scans == []
            || (d.scanner.Walking? && d'.scanner.Succeeded? && d'.scans == d.scans + [V.Committed(d.scanner.draft, d.tree)])
  {
    hide WellFormed, Complete, MarkerOk, V.DoWalk, Disturb;
  }

  lemma SourceTraced(h: Hasher, s: Source, ev: V.Event)
    requires HexHasher(h) && SourceFrom(h, s)
    ensures SourceFrom(h, SourceStep(h, s, ev)) && s.recorded <= SourceStep(h, s, ev).recorded
  {
    hide RowsFrom, V.Step, V.Inv, JustRecorded, HexHasher;
    V.StepInv(h, s.daemon, ev);
    WalkTraced(h, s, ev);
    ScansGrow(h, s.daemon, ev);
    var s' := SourceStep(h, s, ev);
    forall i | 0 <= i < |s'.daemon.scans| ensures RowsFrom(h, s'.recorded, s'.daemon.scans[i].draft.rows) {
      if i < |s.daemon.scans| {
        RowsGrow(h, s.recorded, s'.recorded, s.daemon.scans[i].draft.rows);
      } else {
        RowsGrow(h, s.seen, s'.recorded, s.daemon.scanner.draft.rows);
      }
    }
  }

  /** A list that the gate let through has rows of a committed scan. */
  lemma ResultFrom(h: Hasher, s: Source, r: nat, e: Entry)
    requires SourceFrom(h, s) && r in s.daemon.results && e in s.daemon.results[r].Values
    ensures From(h, s.recorded, e)
  {
    hide From, V.GoodScan, DraftInv;
    var i :| 0 <= i < |s.daemon.scans| && s.daemon.results[r] == s.daemon.scans[i].draft.rows;
  }

  lemma NodeGrows(h: Hasher, history: set<(Entry, Bytes)>, more: set<(Entry, Bytes)>, n: Node)
    requires NodeFrom(h, history, n) && history <= more
    ensures NodeFrom(h, more, n)
  {
    hide Inv, From;
    forall e | From(h, history, e) ensures From(h, more, e) {
      FromGrows(h, history, more, e);
    }
  }

  lemma ActTraced(h: Hasher, history: set<(Entry, Bytes)>, n: Node, ev: Event)
    requires NodeFrom(h, history, n) && (ev.Begin? ==> ev.entry in n.listed)
    ensures NodeFrom(h, history, n.(folder := Step(h, n.folder, ev)))
  {
    hide Inv, From, Step;
    StepInv(h, n.folder, ev);
    RowsStay(h, n.folder, ev);
    PhaseKeepsEntry(h, n.folder, ev);
  }

  lemma NodeTraced(h: Hasher, w: World, i: nat, a: Action)
    requires Traced(h, w) && i < |w.nodes|
    ensures NodeFrom(h, w.source.recorded, NodeStep(h, w, i, a))
  {
    hide Inv, From, Step, SourceFrom;
    match a {
      case ListSource(j, r) =>
        if j == i && r in w.source.daemon.results {
          forall e | e in w.source.daemon.results[r].Values ensures From(h, w.source.recorded, e) {
            ResultFrom(h, w.source, r, e);
          }
        }
      case Act(j, ev) => if j == i && (ev.Begin? ==> ev.entry in w.nodes[i].listed) { ActTraced(h, w.source.recorded, w.nodes[i], ev); }
      case _ =>
    }
  }

  lemma WorldStepTraced(h: Hasher, w: World, a: Action)
    requires HexHasher(h) && Traced(h, w)
    ensures Traced(h, WorldStep(h, w, a))
  {
    hide SourceFrom, NodeFrom, SourceStep, NodeStep, HexHasher;
    var w' := WorldStep(h, w, a);
    if a.AtSource? {
      SourceTraced(h, w.source, a.doing);
    }
    forall i | 0 <= i < |w'.nodes| ensures NodeFrom(h, w'.source.recorded, w'.nodes[i]) {
      NodeTraced(h, w, i, a);
      NodeGrows(h, w.source.recorded, w'.source.recorded, w'.nodes[i]);
    }
  }

  lemma {:induction false} PlayTraced(h: Hasher, w: World, acts: seq<Action>)
    requires HexHasher(h) && Traced(h, w)
    ensures Traced(h, Play(h, w, acts)) && |Play(h, w, acts).nodes| == |w.nodes|
  {
    hide Traced, HexHasher;
    if acts != [] {
      PlayTraced(h, w, acts[..|acts| - 1]);
      WorldStepTraced(h, Play(h, w, acts[..|acts| - 1]), acts[|acts| - 1]);
    }
  }

  ghost function DaemonAt(h: Hasher, w: World, acts: seq<Action>, m: nat): V.Daemon
    requires m <= |acts|
  {
    Play(h, w, acts[..m]).source.daemon
  }

  /** Action j of the run is the visit of a walk at the source that finds content c at the path of e, and
      records e for it. */
  ghost predicate VisitedAt(h: Hasher, w: World, acts: seq<Action>, j: nat, e: Entry, c: Bytes) {
    && j < |acts| && acts[j] == AtSource(V.VisitName(e.path))
    && var d := DaemonAt(h, w, acts, j);
       var d' := DaemonAt(h, w, acts, j + 1);
       && JustRecorded(d, d', e.path) && d'.scanner.draft.rows[e.path] == e
       && e.path in d.tree && d.tree[e.path].File? && d.tree[e.path].content == c && e.mode == d.tree[e.path].mode % 0x200
  }

  /** The walk that was under way after action j is still under way after action m - 1. */
  ghost predicate WalkLasts(h: Hasher, w: World, acts: seq<Action>, j: nat, m: nat)
    requires m <= |acts|
  {
    j < m && forall i :: j < i <= m ==> DaemonAt(h, w, acts, i).scanner.Walking?
  }

  /** Action k commits the walk that was under way after action j. */
  ghost predicate CommittedAt(h: Hasher, w: World, acts: seq<Action>, j: nat, k: nat) {
    && k < |acts| && WalkLasts(h, w, acts, j, k) && acts[k] == AtSource(V.CommitScan)
    && DaemonAt(h, w, acts, k + 1).scanner.Succeeded?
  }

  lemma LastStep(h: Hasher, w: World, acts: seq<Action>)
    requires acts != []
    ensures var n := |acts| - 1;
            && Play(h, w, acts) == WorldStep(h, Play(h, w, acts[..n]), acts[n])
            && acts[..n + 1] == acts
            && forall m :: 0 <= m <= n ==> acts[..n][..m] == acts[..m]
  {
    hide WorldStep;
  }

  lemma EarlierVisit(h: Hasher, w: World, acts: seq<Action>, n: nat, j: nat, e: Entry, c: Bytes)
    requires n <= |acts| && VisitedAt(h, w, acts[..n], j, e, c)
    ensures VisitedAt(h, w, acts, j, e, c)
  {
    hide Play, JustRecorded;
    assert acts[..n][..j] == acts[..j] && acts[..n][..j + 1] == acts[..j + 1] && acts[..n][j] == acts[j];
  }

  lemma EarlierWalking(h: Hasher, w: World, acts: seq<Action>, n: nat, j: nat, m: nat)
    requires m <= n <= |acts| && WalkLasts(h, w, acts[..n], j, m)
    ensures WalkLasts(h, w, acts, j, m)
  {
    hide Play;
    forall i | j < i <= m ensures DaemonAt(h, w, acts, i).scanner.Walking? {
      assert acts[..n][..i] == acts[..i];
      assert DaemonAt(h, w, acts[..n], i).scanner.Walking?;
    }
  }

  /** What one event adds to what the walk has seen. */
  lemma SeenStep(h: Hasher, s: Source, ev: V.Event, x: (Entry, Bytes))
    requires var s' := SourceStep(h, s, ev); x in s'.seen && s'.daemon.scanner.Walking?
    ensures var s' := SourceStep(h, s, ev);
            || (s.daemon.scanner.Walking? && x in s.seen)
            || (&& ev == V.VisitName(x.0.path) && JustRecorded(s.daemon, s'.daemon, x.0.path)
                && s'.daemon.scanner.draft.rows[x.0.path] == x.0
                && x.0.path in s.daemon.tree && s.daemon.tree[x.0.path].File? && s.daemon.tree[x.0.path].content == x.1
                && x.0.mode == s.daemon.tree[x.0.path].mode % 0x200)
  {
    hide V.Step, ScanEntry;
    if ev.VisitName? {
      NoWalkByVisit(h, s.daemon, ev.path);
      if s.daemon.scanner.Walking? {
        VisitEffect(h, s.daemon, ev.path);
        if ev.path in s.daemon.tree {
          EntryPath(h, s.daemon.tree, ev.path);
          FileMode(h, s.daemon.tree, ev.path);
        }
      }
    } else {
      OtherEffect(h, s.daemon, ev);
    }
  }

  lemma FileMode(h: Hasher, t: Tree, p: string)
    requires p in t
    ensures t[p].File? ==> ScanEntry(h, t, p).mode == t[p].mode % 0x200
  {
    hide SliceBlocks;
  }

  /** Every pair that the walk under way has seen was visited since it began. */
  lemma {:induction false} SeenWasVisited(h: Hasher, w: World, acts: seq<Action>, e: Entry, c: Bytes) returns (j: nat)
    requires Start(w)
    requires var s := Play(h, w, acts).source; s.daemon.scanner.Walking? && (e, c) in s.seen
    ensures VisitedAt(h, w, acts, j, e, c) && WalkLasts(h, w, acts, j, |acts|)
  {
    hide WellFormed, SourceStep, NodeStep, JustRecorded;
    var n := |acts| - 1;
    assert acts != [];
    var init := acts[..n];
    LastStep(h, w, acts);
    hide Start;
    var before := Play(h, w, init).source;
    if acts[n].AtSource? {
      SeenStep(h, before, acts[n].doing, (e, c));
      SourceStepDaemon(h, before, acts[n].doing);
    }
    if before.daemon.scanner.Walking? && (e, c) in before.seen {
      j := SeenWasVisited(h, w, init, e, c) by { assert Start(w); }
      EarlierVisit(h, w, acts, n, j, e, c);
      EarlierWalking(h, w, acts, n, j, n);
    } else {
      j := n;
    }
  }

  lemma SourceStepDaemon(h: Hasher, s: Source, ev: V.Event)
    ensures SourceStep(h, s, ev).daemon == V.Step(h, s.daemon, ev)
  {
    hide V.Step, JustRecorded;
  }

  /** What one event adds to the history of committed scans. */
  lemma RecordedStep(h: Hasher, s: Source, ev: V.Event)
    ensures var s' := SourceStep(h, s, ev);
            || s'.recorded == s.recorded
            || (s'.recorded == s.recorded + s.seen && ev.CommitScan? && s.daemon.scanner.Walking? && s'.daemon.scanner.Succeeded?)
  {
    hide WellFormed, Complete, MarkerOk, V.DoWalk, Disturb, JustRecorded;
  }

  /** Every recorded pair was visited by a walk that was committed later. */
  lemma {:induction false} RecordedWasCommitted(h: Hasher, w: World, acts: seq<Action>, e: Entry, c: Bytes)
    returns (j: nat, k: nat)
    requires Start(w) && (e, c) in Play(h, w, acts).source.recorded
    ensures VisitedAt(h, w, acts, j, e, c) && CommittedAt(h, w, acts, j, k)
  {
    hide WellFormed, SourceStep, NodeStep, JustRecorded, VisitedAt, V.Started;
    var n := |acts| - 1;
    assert acts != [];
    var init := acts[..n];
    LastStep(h, w, acts);
    hide Start;
    var before := Play(h, w, init).source;
    if acts[n].AtSource? {
      RecordedStep(h, before, acts[n].doing);
      SourceStepDaemon(h, before, acts[n].doing);
    }
    if (e, c) in before.recorded {
      j, k := RecordedWasCommitted(h, w, init, e, c);
      EarlierVisit(h, w, acts, n, j, e, c);
      EarlierWalking(h, w, acts, n, j, k);
      assert init[..k + 1] == acts[..k + 1];
    } else {
      j := SeenWasVisited(h, w, init, e, c);
      k := n;
      EarlierVisit(h, w, acts, n, j, e, c);
      EarlierWalking(h, w, acts, n, j, n);
    }
  }

  /** A scan of the source found content c at the path of e, recorded e for it, and was committed. */
  ghost predicate WasScanned(h: Hasher, w: World, acts: seq<Action>, e: Entry, c: Bytes) {
    exists j, k :: VisitedAt(h, w, acts, j, e, c) && CommittedAt(h, w, acts, j, k)
  }

  /** Provenance: in every run of any network of receivers, with edits on every node at every moment,
      a rename installs only content that an earlier visit of that same path found on the source's disk,
      in a walk that was committed later in the run, with the mode it recorded; anything else would be an
      explicit hash collision with it. */
  lemma InstalledWasScanned(h: Hasher, w: World, acts: seq<Action>, i: nat)
    requires HexHasher(h) && Start(w) && i < |w.nodes|
    requires var n := Play(h, w, acts).nodes;
             i < |n| && n[i].folder.phase.Cleared? && Step(h, n[i].folder, Rename).phase.Committing?
    ensures var s := Play(h, w, acts).nodes[i].folder;
            var s' := Step(h, s, Rename);
            var p := s.phase.e.path;
            && p in s'.tree && s'.tree[p].File? && s'.tree[p].mode == s.phase.e.mode
            && exists c :: WasScanned(h, w, acts, s.phase.e, c)
                           && (s'.tree[p].content == c || Collision(h, s'.tree[p].content, c))
  {
    hide Traced, Play, Inv, Step, HexHasher, Start, VisitedAt, CommittedAt;
    StartTraced(h, w);
    PlayTraced(h, w, acts);
    var before := Play(h, w, acts);
    NodeIsFrom(h, before, i);
    RenamePutsDescribed(h, before.nodes[i].folder);
    var e := before.nodes[i].folder.phase.e;
    var c :| (e, c) in before.source.recorded && Fingerprint(h, e.path, c, e.mode) == e;
    hide Fingerprint;
    SamePrint(h, e, c, Step(h, before.nodes[i].folder, Rename).tree[e.path].content);
    var j, k := RecordedWasCommitted(h, w, acts, e, c);
    assert WasScanned(h, w, acts, e, c);
  }

  lemma NodeIsFrom(h: Hasher, w: World, i: nat)
    requires Traced(h, w) && i < |w.nodes|
    ensures NodeFrom(h, w.source.recorded, w.nodes[i])
  {}

  lemma SamePrint(h: Hasher, e: Entry, c: Bytes, d: Bytes)
    requires Fingerprint(h, e.path, c, e.mode) == e && Fingerprint(h, e.path, d, e.mode) == e
    ensures d == c || Collision(h, d, c)
  {}

  /** The same for the rows: every file row of every receiver is, as a whole, a row that a scan of the
      source made from what it found there, and that was committed. */
  lemma RowsWereScanned(h: Hasher, w: World, acts: seq<Action>, i: nat, p: string)
    requires HexHasher(h) && Start(w) && i < |w.nodes|
    requires var n := Play(h, w, acts).nodes;
             i < |n| && p in n[i].folder.index && n[i].folder.index[p].kind == "file"
    ensures exists c :: WasScanned(h, w, acts, Play(h, w, acts).nodes[i].folder.index[p], c)
  {
    hide Traced, Play, Inv, HexHasher, Start, VisitedAt, CommittedAt, Fingerprint;
    StartTraced(h, w);
    PlayTraced(h, w, acts);
    var now := Play(h, w, acts);
    NodeIsFrom(h, now, i);
    var e := now.nodes[i].folder.index[p];
    var c :| (e, c) in now.source.recorded && Fingerprint(h, e.path, c, e.mode) == e;
    var j, k := RecordedWasCommitted(h, w, acts, e, c);
    assert WasScanned(h, w, acts, e, c);
  }

  /** The other side of provenance: every row of the folder a list is taken from can be applied next. */
  lemma ListedMayBegin(h: Hasher, w: World, i: nat, k: nat, e: Entry)
    requires i < |w.nodes| && k < |w.nodes| && e in w.nodes[k].folder.index.Values
    requires w.nodes[i].folder.phase.Idle? && ValidEntry(e) && Fits(w.nodes[i].folder.index, e)
    ensures var w' := WorldStep(h, WorldStep(h, w, ListNode(i, k)), Act(i, Begin(e)));
            w'.nodes[i].folder == w.nodes[i].folder.(phase := Opened(e))
  {
    hide ValidEntry, Fits;
  }

  lemma ServedMayBegin(h: Hasher, w: World, i: nat, r: nat, e: Entry)
    requires i < |w.nodes| && r in w.source.daemon.results && e in w.source.daemon.results[r].Values
    requires w.nodes[i].folder.phase.Idle? && ValidEntry(e) && Fits(w.nodes[i].folder.index, e)
    ensures var w' := WorldStep(h, WorldStep(h, w, ListSource(i, r)), Act(i, Begin(e)));
            w'.nodes[i].folder == w.nodes[i].folder.(phase := Opened(e))
  {
    hide ValidEntry, Fits;
  }
}
