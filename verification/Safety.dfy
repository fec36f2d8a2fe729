/** What no run of the receiver machine can do: lose a local edit, expose a partial file, bring back
    a local deletion, or let the index run ahead of the disk. */
module Safety {
  import opened Model
  import opened Paths
  import opened Tree
  import opened Layout
  import opened Index
  import opened Assembly
  import opened Apply
  import opened Machine

  /** The index row that allows content c at p to be replaced. */
  ghost predicate Known(h: Hasher, s: Folder, p: string, c: Bytes) {
    p in s.index && s.index[p].kind == "file" && s.index[p].hash == h(c) && (p, h(c)) in s.verified
  }

  /** p is the temporary file of the Apply in progress. */
  predicate AtWork(s: Folder, p: string) {
    HasTemp(s.phase) && s.phase.tmp == p
  }

  /** A directory that an event makes: a missing parent of the entry, for the owner alone, or the entry
      itself, with its own permission bits and the owner's. */
  ghost predicate Makes(s: Folder, ev: Event, p: string, n: Node) {
    (ev.MakeParents? && (s.phase.DirFound? || s.phase.Decided?) && IsAncestor(p, s.phase.e.path) && n == Dir(0x1C0))
    || (ev.MakeDir? && s.phase.DirRooted? && s.phase.e.path == p && n.Dir? && WithOwnerBits(s.phase.e.mode, n.mode))
  }

  /** An event of the program leaves a path, under any name, in one of these relations. */
  ghost predicate Gentle(h: Hasher, s: Folder, ev: Event, p: string) {
    var s' := Step(h, s, ev);
    var chmod := ev.SetMode? && s.phase.Matching? && s.phase.e.path == p;
    var install := ev.Rename? && s.phase.Cleared? && s.phase.e.path == p;
    && (p in s.tree && s.tree[p].File? ==>
          && p in s'.tree && s'.tree[p].File?
          && if chmod then s'.tree[p] == File(s.tree[p].content, s.phase.e.mode)
             else s'.tree[p] == s.tree[p]
                  || (install && Known(h, s, p, s.tree[p].content) && Describes(h, s.phase.e, s'.tree[p])))
    && (p in s.tree && s.tree[p].Dir? ==> p in s'.tree && s'.tree[p] == if chmod then Dir(s.phase.e.mode) else s.tree[p])
    && (p in s.tree && s.tree[p].Special? ==> p in s'.tree && s'.tree[p].Special?)
    && (p !in s.tree && p in s'.tree ==>
          || Makes(s, ev, p, s'.tree[p]) || AtWork(s', p)
          || (install && p !in s.index && Describes(h, s.phase.e, s'.tree[p])))
  }

  /** The destination is as the last recheck found it. */
  predicate AsSeen(h: Hasher, t: Tree, p: string, cur: Option<Entry>) {
    if cur.Some? then p in t && t[p].File? && h(t[p].content) == cur.value.hash else p !in t
  }

  /** A rename that goes through although the destination is no longer what the recheck found, and is not
      already what the rename would make of it. */
  predicate Overwrites(h: Hasher, s: Folder, ev: Event, p: string) {
    && ev.Rename? && s.phase.Cleared? && s.phase.e.path == p
    && s.phase.tmp in s.tree && !(p in s.tree && s.tree[p].Dir?)
    && !AsSeen(h, s.tree, p, s.phase.cur)
    && !(p in s.tree && s.tree[p] == File(s.phase.build.data, s.phase.e.mode))
  }

  lemma AbortIsGentle(s: Folder, p: string)
    requires !AtWork(s, p)
    ensures p in Abort(s).tree <==> p in s.tree
    ensures p in s.tree ==> Abort(s).tree[p] == s.tree[p]
  {}

  lemma RenameIsGentle(h: Hasher, s: Folder, p: string)
    requires Inv(h, s) && !AtWork(s, p) && s.phase.Cleared?
    ensures Gentle(h, s, Rename, p) <==> !Overwrites(h, s, Rename, p)
  {
    hide ValidPath, WellFormed, WithinLimits, ValidEntry, Fingerprint, MarkerOk, IsAncestor;
    AbortIsGentle(s, p);
  }

  lemma TempStepIsGentle(h: Hasher, s: Folder, ev: Event, p: string)
    requires !AtWork(s, p)
    requires ev.CreateTemp? || ev.NextBlock? || ev.Seal? || ev.Recheck?
    ensures var s' := Step(h, s, ev);
            || ((p in s'.tree <==> p in s.tree) && (p in s.tree ==> s'.tree[p] == s.tree[p]))
            || (p !in s.tree && AtWork(s', p))
  {
    hide ValidPath, WellFormed, WithinLimits, ValidLayout, ComponentsOk, Fingerprint, AddBlock, BlockMap, TempPath, Unchanged, Fits;
    AbortIsGentle(s, p);
  }

  lemma EarlyStepIsGentle(h: Hasher, s: Folder, ev: Event, p: string)
    requires !AtWork(s, p)
    requires ev.Begin? || ev.Check? || ev.Look? || ev.TakePrint? || ev.Commit? || ev.Fail? || ev.Crash?
    ensures var s' := Step(h, s, ev);
            (p in s'.tree <==> p in s.tree) && (p in s.tree ==> s'.tree[p] == s.tree[p])
  {
    hide ValidPath, WellFormed, ValidRows, WithinLimits, ValidLayout, ComponentsOk, Fingerprint, Faithful;
    AbortIsGentle(s, p);
  }

  /** Whatever the program does in one event, an existing file keeps its bytes unless the index knows
      them, and its mode unless its content is the announced one; a directory stays; a directory appears
      only where the entry needs one; and a new file appears only complete, and only where none was
      indexed. The one exception, for any name but that of the temporary file at work, is a rename over a
      destination that has changed since the recheck. */
  lemma StepIsGentle(h: Hasher, s: Folder, ev: Event, p: string)
    requires Inv(h, s) && !AtWork(s, p) && !ev.Edit?
    ensures Gentle(h, s, ev, p) <==> !Overwrites(h, s, ev, p)
  {
    hide ValidPath, WellFormed, ValidRows, WithinLimits, ValidLayout, ComponentsOk, Fingerprint, Faithful, Unchanged, Inv, Fits,
      MarkerOk, Describes, IsAncestor, AsSeen, WithOwnerBits, OwnerAccess;
    match ev {
      case Rename => if s.phase.Cleared? { RenameIsGentle(h, s, p); }
      case CreateTemp(_) => TempStepIsGentle(h, s, ev, p);
      case NextBlock(_, _) => TempStepIsGentle(h, s, ev, p);
      case Seal => TempStepIsGentle(h, s, ev, p);
      case Recheck => TempStepIsGentle(h, s, ev, p);
      case SetMode => AbortIsGentle(s, p);
      case MakeParents => AbortIsGentle(s, p);
      case MakeDir =>
        AbortIsGentle(s, p);
        if s.phase.DirRooted? {
          OwnerBits(s.phase.e.mode) by { ModeIsPermission(h, s); }
        }
      case _ => EarlyStepIsGentle(h, s, ev, p);
    }
  }

  lemma ModeIsPermission(h: Hasher, s: Folder)
    requires Inv(h, s) && !s.phase.Idle?
    ensures s.phase.e.mode <= 0x1FF
  {
    hide ValidPath, WellFormed, ValidRows, WithinLimits, ValidLayout, PhaseInv, RowsVerified;
  }

  lemma TempOutside(h: Hasher, s: Folder)
    requires Inv(h, s)
    ensures HasTemp(s.phase) ==> !ValidPath(s.phase.tmp)
  {
    hide ValidPath, WellFormed, ValidRows, WithinLimits, ValidEntry, Faithful, Fingerprint;
  }

  /** The state after a sequence of events. */
  ghost function Exec(h: Hasher, s: Folder, evs: seq<Event>): Folder {
    if evs == [] then s else Step(h, Exec(h, s, evs[..|evs| - 1]), evs[|evs| - 1])
  }

  lemma {:induction false} RunInv(h: Hasher, s: Folder, evs: seq<Event>)
    requires Inv(h, s)
    ensures Inv(h, Exec(h, s, evs))
  {
    hide Inv, Step;
    if evs != [] {
      RunInv(h, s, evs[..|evs| - 1]);
      StepInv(h, Exec(h, s, evs[..|evs| - 1]), evs[|evs| - 1]);
    }
  }

  /** The exact condition for a local edit to be lost, over every run with edits at every moment: an event
      of the program is gentle to a path, unless and only unless it is a rename over a destination that
      differs from what the recheck found and from what the rename makes of it. */
  lemma NoLocalEditIsLost(h: Hasher, s: Folder, evs: seq<Event>, i: nat, p: string)
    requires Inv(h, s) && i < |evs| && !evs[i].Edit? && !AtWork(Exec(h, s, evs[..i]), p)
    ensures Gentle(h, Exec(h, s, evs[..i]), evs[i], p) <==> !Overwrites(h, Exec(h, s, evs[..i]), evs[i], p)
  {
    hide Inv, Step, Gentle, Overwrites;
    RunInv(h, s, evs[..i]);
    StepIsGentle(h, Exec(h, s, evs[..i]), evs[i], p);
  }

  /** Since its recheck, an Apply that is about to rename has found nothing changed. */
  predicate Intact(h: Hasher, s: Folder) {
    s.phase.Cleared? ==> AsSeen(h, s.tree, s.phase.e.path, s.phase.cur)
  }

  /** An edit, between the last recheck and the rename, that changes the destination. */
  ghost predicate LateEdit(h: Hasher, s: Folder, ev: Event) {
    ev.Edit? && s.phase.Cleared? && Intact(h, s) && !Intact(h, Step(h, s, ev))
  }

  lemma StepIntact(h: Hasher, s: Folder, ev: Event)
    requires Intact(h, s) && !LateEdit(h, s, ev)
    ensures Intact(h, Step(h, s, ev))
  {
    hide WellFormed, ValidEntry, Fits, WithinLimits, Fingerprint, BlockMap, AddBlock, TempPath, WithParents, MarkerOk;
  }

  /** From before event j to the end of the run, the machine is about to rename to p. */
  ghost predicate InWindow(h: Hasher, s: Folder, evs: seq<Event>, j: nat, p: string) {
    forall m :: j <= m <= |evs| ==> ClearedAt(Exec(h, s, evs[..m]), p)
  }

  lemma WindowStep(h: Hasher, s: Folder, ev: Event, p: string)
    requires ClearedAt(Step(h, s, ev), p) && (s.phase.Cleared? || ev.Edit?)
    ensures ClearedAt(s, p)
  {
    PhaseKeepsEntry(h, s, ev);
    EditTakes(h, s, ev);
    hide Step;
  }

  lemma {:induction false} FindLateEdit(h: Hasher, s: Folder, evs: seq<Event>, p: string) returns (j: nat)
    requires Intact(h, s) && ClearedAt(Exec(h, s, evs), p) && !Intact(h, Exec(h, s, evs))
    ensures j < |evs| && LateEdit(h, Exec(h, s, evs[..j]), evs[j]) && InWindow(h, s, evs, j, p)
  {
    hide Step, AsSeen;
    var n := |evs| - 1;
    var init := evs[..n];
    assert evs[..|evs|] == evs;
    if Intact(h, Exec(h, s, init)) {
      j := n;
      if !LateEdit(h, Exec(h, s, init), evs[n]) {
        StepIntact(h, Exec(h, s, init), evs[n]);
      }
      WindowStep(h, Exec(h, s, init), evs[n], p);
    } else {
      WindowStep(h, Exec(h, s, init), evs[n], p);
      j := FindLateEdit(h, s, init, p);
      assert init[..j] == evs[..j];
      forall m | j <= m <= |evs| ensures ClearedAt(Exec(h, s, evs[..m]), p) {
        if m <= n {
          assert init[..m] == evs[..m];
        }
      }
    }
  }

  /** So the last window is the only one: whatever is overwritten was put in the place of what the recheck
      found by an edit between that recheck and the rename. Edits of other paths, in any window, harm
      nothing. */
  lemma OnlyLateEditsAreLost(h: Hasher, s: Folder, evs: seq<Event>, i: nat, p: string)
    requires Intact(h, s) && i < |evs| && Overwrites(h, Exec(h, s, evs[..i]), evs[i], p)
    ensures exists j :: 0 <= j < i && LateEdit(h, Exec(h, s, evs[..j]), evs[j]) && InWindow(h, s, evs[..i], j, p)
  {
    hide LateEdit, Exec, Step, InWindow, AsSeen;
    var j := FindLateEdit(h, s, evs[..i], p);
    assert evs[..i][..j] == evs[..j] && evs[..i][j] == evs[j];
  }

  /** No entry announces the hash d for path p, now or later. */
  ghost predicate NeverAnnounced(s: Folder, evs: seq<Event>, p: string, d: Digest) {
    && (!s.phase.Idle? ==> !(s.phase.e.path == p && s.phase.e.hash == d))
    && forall i :: 0 <= i < |evs| && evs[i].Begin? ==> !(evs[i].entry.path == p && evs[i].entry.hash == d)
  }

  ghost predicate EditsKeep(evs: seq<Event>, p: string, c: Bytes) {
    forall i :: 0 <= i < |evs| && evs[i].Edit? ==> p in evs[i].tree && evs[i].tree[p].File? && evs[i].tree[p].content == c
  }

  /** The machine is about to rename to p. */
  predicate ClearedAt(s: Folder, p: string) {
    s.phase.Cleared? && s.phase.e.path == p
  }

  ghost predicate Holds(h: Hasher, s: Folder, p: string, c: Bytes) {
    && !AtWork(s, p) && p in s.tree && s.tree[p].File? && s.tree[p].content == c && (p, h(c)) !in s.verified
    && (!s.phase.Idle? ==> !(s.phase.e.path == p && s.phase.e.hash == h(c)))
    && !ClearedAt(s, p)
  }

  /** An Apply of p does not get past its recheck if the destination is a content of which the index knows
      nothing, ... */
  lemma UnknownIsNotCleared(h: Hasher, s: Folder, ev: Event, p: string)
    requires Inv(h, s) && !ClearedAt(s, p)
    requires p in s.tree && s.tree[p].File? && (p, h(s.tree[p].content)) !in s.verified
    ensures !ClearedAt(Step(h, s, ev), p)
  {
    hide WellFormed, WithinLimits, Fingerprint, BlockMap, AddBlock, TempPath, WithParents, MarkerOk, ComponentsOk, Fits, ValidPath,
      ValidLayout, Faithful;
  }

  /** ... or if it is indexed and gone. */
  lemma DeletedIsNotCleared(h: Hasher, s: Folder, ev: Event, p: string)
    requires Inv(h, s) && !ClearedAt(s, p) && Deleted(s, p)
    ensures !ClearedAt(Step(h, s, ev), p)
  {
    hide WellFormed, WithinLimits, Fingerprint, BlockMap, AddBlock, TempPath, WithParents, MarkerOk, Fits, ValidPath, ValidEntry,
      ValidRows, Faithful;
  }

  lemma StepHolds(h: Hasher, s: Folder, ev: Event, p: string, c: Bytes)
    requires Inv(h, s) && Holds(h, s, p, c)
    requires ev.Begin? ==> !(ev.entry.path == p && ev.entry.hash == h(c))
    requires ev.Edit? ==> p in ev.tree && ev.tree[p].File? && ev.tree[p].content == c
    ensures Holds(h, Step(h, s, ev), p, c)
  {
    hide Inv, Step, Describes, AsSeen;
    if !ev.Edit? {
      StepIsGentle(h, s, ev, p);
    }
    UnknownIsNotCleared(h, s, ev, p);
    PhaseKeepsEntry(h, s, ev);
    EditTakes(h, s, ev);
    TempIsNew(h, s, ev, p);
  }

  /** A path that exists never becomes the temporary file. */
  lemma TempIsNew(h: Hasher, s: Folder, ev: Event, p: string)
    requires !AtWork(s, p) && p in s.tree
    ensures !AtWork(Step(h, s, ev), p)
  {
    hide ValidPath, WellFormed, WithinLimits, ValidLayout, ComponentsOk, Fingerprint, AddBlock, TempPath, BlockMap, Unchanged, WithParents;
  }

  lemma EditTakes(h: Hasher, s: Folder, ev: Event)
    ensures ev.Edit? ==> Step(h, s, ev) == s || Step(h, s, ev) == s.(tree := ev.tree)
  {
    hide WellFormed;
  }

  /** Only Begin chooses the entry at work, and only that entry's hash is ever recorded. */
  lemma PhaseKeepsEntry(h: Hasher, s: Folder, ev: Event)
    ensures var s' := Step(h, s, ev);
            && (!s'.phase.Idle? ==> if s.phase.Idle? then ev.Begin? && s'.phase.e == ev.entry else s'.phase.e == s.phase.e)
            && (forall x :: x in s'.verified && x !in s.verified ==> !s.phase.Idle? && x == (s.phase.e.path, s.phase.e.hash))
  {
    hide ValidPath, WellFormed, WithinLimits, ValidLayout, ComponentsOk, Fingerprint, AddBlock, TempPath, BlockMap, Unchanged, WithParents;
  }

  /** A content that no listed version has is never overwritten, in any run, whatever versions are
      offered for its path and whatever is edited elsewhere at any moment. */
  lemma {:induction false} LocalContentPersists(h: Hasher, s: Folder, evs: seq<Event>, p: string, c: Bytes)
    requires Inv(h, s) && !AtWork(s, p) && !ClearedAt(s, p)
    requires p in s.tree && s.tree[p].File? && s.tree[p].content == c && (p, h(c)) !in s.verified
    requires NeverAnnounced(s, evs, p, h(c)) && EditsKeep(evs, p, c)
    ensures Holds(h, Exec(h, s, evs), p, c)
  {
    hide Inv, Step, AtWork, ClearedAt;
    if evs != [] {
      var n := |evs| - 1;
      assert forall i :: 0 <= i < n ==> evs[..n][i] == evs[i];
      LocalContentPersists(h, s, evs[..n], p, c);
      RunInv(h, s, evs[..n]);
      hide Holds;
      StepHolds(h, Exec(h, s, evs[..n]), evs[n], p, c);
    }
  }

  /** An indexed path has no file: it was deleted locally. */
  ghost predicate Deleted(s: Folder, p: string) {
    p in s.index && (p in s.tree ==> s.tree[p].Dir?)
  }

  /** A locally deleted indexed file is never restored, in any run. */
  lemma {:induction false} DeletionPersists(h: Hasher, s: Folder, evs: seq<Event>, p: string)
    requires Inv(h, s) && ValidPath(p) && Deleted(s, p) && !ClearedAt(s, p)
    requires forall i :: 0 <= i < |evs| && evs[i].Edit? ==> (p in evs[i].tree ==> evs[i].tree[p].Dir?)
    ensures Deleted(Exec(h, s, evs), p) && !ClearedAt(Exec(h, s, evs), p)
  {
    hide Inv, Step, ValidPath, ClearedAt;
    if evs != [] {
      var n := |evs| - 1;
      assert forall i :: 0 <= i < n ==> evs[..n][i] == evs[i];
      DeletionPersists(h, s, evs[..n], p);
      RunInv(h, s, evs[..n]);
      hide Deleted;
      StepDeleted(h, Exec(h, s, evs[..n]), evs[n], p);
    }
  }

  lemma StepDeleted(h: Hasher, s: Folder, ev: Event, p: string)
    requires Inv(h, s) && ValidPath(p) && Deleted(s, p) && !ClearedAt(s, p)
    requires ev.Edit? ==> (p in ev.tree ==> ev.tree[p].Dir?)
    ensures Deleted(Step(h, s, ev), p) && !ClearedAt(Step(h, s, ev), p)
  {
    hide ValidPath, Inv, Step, Known, Describes, AtWork, AsSeen;
    RowsStay(h, s, ev);
    EditTakes(h, s, ev);
    DeletedIsNotCleared(h, s, ev, p);
    if !ev.Edit? {
      assert !AtWork(s, p) by { TempOutside(h, s); NotAtWork(s, p); }
      StepIsGentle(h, s, ev, p);
      StepInv(h, s, ev);
      assert !AtWork(Step(h, s, ev), p) by { TempOutside(h, Step(h, s, ev)); NotAtWork(Step(h, s, ev), p); }
    }
  }

  lemma NotAtWork(s: Folder, p: string)
    requires ValidPath(p) && (HasTemp(s.phase) ==> !ValidPath(s.phase.tmp))
    ensures !AtWork(s, p)
  {
    hide ValidPath;
  }

  /** The index changes only by a commit, and only by the row of the entry at work. */
  lemma RowsStay(h: Hasher, s: Folder, ev: Event)
    ensures var s' := Step(h, s, ev);
            s'.index == s.index || (ev.Commit? && s.phase.Committing? && s'.index == s.index[s.phase.e.path := s.phase.e])
  {
    hide ValidPath, WellFormed, WithinLimits, ValidLayout, ComponentsOk, Fingerprint, AddBlock, TempPath, BlockMap, Unchanged, WithParents;
  }

  /** The index never runs ahead of the disk: a hash enters the history only at the moment the disk
      holds a content with that hash at that path. */
  lemma VerifiedWasOnDisk(h: Hasher, s: Folder, ev: Event, p: string, d: Digest)
    requires Inv(h, s) && (p, d) in Step(h, s, ev).verified && (p, d) !in s.verified
    ensures HasContent(h, Step(h, s, ev).tree, p, d)
  {
    hide ValidPath, WellFormed, ValidRows, WithinLimits, ValidLayout, AddBlock, TempPath, BlockMap, Unchanged, WithParents, Faithful, SliceBlocks;
  }

  lemma DirWasOnDisk(h: Hasher, s: Folder, ev: Event, p: string)
    requires p in Step(h, s, ev).dirs && p !in s.dirs
    ensures HasDir(Step(h, s, ev).tree, p)
  {
    hide ValidPath, WellFormed, WithinLimits, ValidLayout, AddBlock, TempPath, BlockMap, Unchanged, WithParents, Fingerprint, MarkerOk;
  }

  predicate HasContent(h: Hasher, t: Tree, p: string, d: Digest) {
    p in t && t[p].File? && h(t[p].content) == d
  }

  predicate HasDir(t: Tree, p: string) {
    p in t && t[p].Dir?
  }

  /** What row e says was on the disk. */
  predicate Had(h: Hasher, t: Tree, e: Entry) {
    if e.kind == "directory" then HasDir(t, e.path) else HasContent(h, t, e.path, e.hash)
  }

  lemma {:induction false} HistoryWasOnDisk(h: Hasher, s: Folder, evs: seq<Event>, e: Entry) returns (i: nat)
    requires Inv(h, s) && s.verified == {} && s.dirs == {}
    requires Verified(Exec(h, s, evs).verified, Exec(h, s, evs).dirs, e)
    ensures i <= |evs| && Had(h, Exec(h, s, evs[..i]).tree, e)
  {
    hide Inv, Step, HasContent, HasDir;
    assert evs != [];
    var n := |evs| - 1;
    var init := evs[..n];
    var before := Exec(h, s, init);
    if Verified(before.verified, before.dirs, e) {
      i := HistoryWasOnDisk(h, s, init, e);
      assert init[..i] == evs[..i];
    } else {
      RunInv(h, s, init);
      if e.kind == "directory" {
        DirWasOnDisk(h, before, evs[n], e.path);
      } else {
        VerifiedWasOnDisk(h, before, evs[n], e.path, e.hash);
      }
      assert evs[..|evs|] == evs;
      i := |evs|;
    }
  }

  /** The index never runs ahead of the disk: in every run of a folder that starts with an empty index,
      over all its applies, crashes and edits, every file row names a content that the disk held at that
      path at some earlier moment of the run, and every directory row a directory that was there. */
  lemma RowsWereOnDisk(h: Hasher, s: Folder, evs: seq<Event>, p: string)
    requires WellFormed(s.tree) && s.phase.Idle? && s.index == map[] && s.verified == {} && s.dirs == {}
    requires p in Exec(h, s, evs).index
    ensures var e := Exec(h, s, evs).index[p];
            e.path == p && exists i :: 0 <= i <= |evs| && Had(h, Exec(h, s, evs[..i]).tree, e)
  {
    hide Exec, Had;
    EmptyFolderInv(h, s);
    RunInv(h, s, evs);
    RowIsInHistory(h, Exec(h, s, evs), p);
    hide Inv;
    var i := HistoryWasOnDisk(h, s, evs, Exec(h, s, evs).index[p]);
  }

  lemma RowIsInHistory(h: Hasher, s: Folder, p: string)
    requires Inv(h, s) && p in s.index
    ensures Verified(s.verified, s.dirs, s.index[p]) && s.index[p].path == p
  {
    hide PhaseInv, WellFormed, ValidEntry, Fits, Verified;
  }

  lemma EmptyFolderInv(h: Hasher, s: Folder)
    requires WellFormed(s.tree) && s.phase.Idle? && s.index == map[]
    ensures Inv(h, s)
  {
    hide WellFormed;
  }

  /** What the recheck has to find: the folder's own marker, a plain way to the destination, and the
      destination as it was fingerprinted, or still absent. */
  ghost predicate Rechecked(h: Hasher, id: string, t: Tree, p: string, cur: Option<Entry>) {
    && ".backuply-folder" in t && t[".backuply-folder"].File? && t[".backuply-folder"].content == id + "\n"
    && (forall a :: IsAncestor(a, p) && a in t ==> t[a].Dir?)
    && (cur.Some? ==> p in t && t[p].File? && |t[p].content| <= MAX_FILE_SIZE && h(t[p].content) == cur.value.hash)
    && (cur.None? ==> p !in t)
  }

  lemma RecheckStep(h: Hasher, s: Folder, ev: Event)
    requires !s.phase.Cleared? && Step(h, s, ev).phase.Cleared?
    ensures ev.Recheck? && s.phase.Sealed? && Step(h, s, ev).phase.e == s.phase.e && Step(h, s, ev).phase.cur == s.phase.cur
    ensures Step(h, s, ev).id == s.id && Rechecked(h, s.id, s.tree, s.phase.e.path, s.phase.cur)
  {
    hide ValidPath, WellFormed, WithinLimits, ValidLayout, AddBlock, TempPath, BlockMap, WithParents, Fingerprint, IsAncestor;
    assert forall a :: IsAncestor(a, s.phase.e.path) ==> a in Ancestors(s.phase.e.path);
  }

  lemma ClearedStays(h: Hasher, s: Folder, ev: Event)
    requires s.phase.Cleared? && Step(h, s, ev).phase.Cleared?
    ensures Step(h, s, ev).phase == s.phase && Step(h, s, ev).id == s.id
  {
    hide ValidPath, WellFormed, WithinLimits, ValidLayout, AddBlock, TempPath, BlockMap, WithParents, Fingerprint, MarkerOk, Fits;
  }

  /** Nothing is renamed without a recheck: whenever the machine is about to rename, an event of the run was the
      recheck that found everything in place for this very entry. */
  lemma {:induction false} RenameWasRechecked(h: Hasher, s: Folder, evs: seq<Event>) returns (j: nat)
    requires !s.phase.Cleared? && Exec(h, s, evs).phase.Cleared?
    ensures j < |evs| && evs[j].Recheck?
    ensures var ph := Exec(h, s, evs).phase;
            Rechecked(h, Exec(h, s, evs).id, Exec(h, s, evs[..j]).tree, ph.e.path, ph.cur)
  {
    hide Step, Rechecked;
    var n := |evs| - 1;
    var init := evs[..n];
    if Exec(h, s, init).phase.Cleared? {
      j := RenameWasRechecked(h, s, init);
      ClearedStays(h, Exec(h, s, init), evs[n]);
      assert init[..j] == evs[..j];
    } else {
      RecheckStep(h, Exec(h, s, init), evs[n]);
      j := n;
    }
  }

  /** An Apply that ends takes its temporary file with it, however it ends, unless its process is killed; and a
      failure keeps every row. */
  lemma EndCleansUp(h: Hasher, s: Folder, ev: Event)
    requires s.phase.Building? || s.phase.Sealed? || s.phase.Cleared?
    requires !(Step(h, s, ev).phase.Building? || Step(h, s, ev).phase.Sealed? || Step(h, s, ev).phase.Cleared?) && !ev.Crash?
    ensures var s' := Step(h, s, ev);
            && s.phase.tmp !in s'.tree && s'.index == s.index
            && (s'.phase.Idle? ==> s'.returned == None)
  {
    hide ValidPath, WellFormed, WithinLimits, ValidLayout, AddBlock, TempPath, BlockMap, WithParents, Fingerprint, MarkerOk, Fits,
      ComponentsOk, Unchanged;
  }

  /** No torn assembly, over every run: whatever the source and the old file delivered block by block, and
      whatever was edited, the file a rename puts in place has the bytes of any content that has the
      announced fingerprint, or collides with it. */
  lemma NoTornAssembly(h: Hasher, s: Folder, evs: seq<Event>, original: Bytes)
    requires Inv(h, s) && Exec(h, s, evs).phase.Cleared?
    requires var e := Exec(h, s, evs).phase.e; e == Fingerprint(h, e.path, original, e.mode)
    requires Step(h, Exec(h, s, evs), Rename).phase.Committing?
    ensures var e := Exec(h, s, evs).phase.e;
            var t := Step(h, Exec(h, s, evs), Rename).tree;
            && e.path in t && t[e.path].File? && t[e.path].mode == e.mode
            && (t[e.path].content == original || Collision(h, t[e.path].content, original))
  {
    hide Exec, Inv, Step;
    RunInv(h, s, evs);
    RenamePutsDescribed(h, Exec(h, s, evs));
  }

  lemma RenamePutsDescribed(h: Hasher, s: Folder)
    requires Inv(h, s) && s.phase.Cleared? && Step(h, s, Rename).phase.Committing?
    ensures var s' := Step(h, s, Rename);
            var e := s.phase.e;
            && e.kind == "file" && e.path in s'.tree && s'.tree[e.path].File? && s'.tree[e.path].mode == e.mode
            && Fingerprint(h, e.path, s'.tree[e.path].content, e.mode) == e
  {
    hide ValidRows, WithinLimits, WellFormed, RowsVerified, ValidLayout, ValidPath, SliceBlocks;
  }

  /** The open window is real: whatever file an edit leaves at the path between the last recheck and
      the rename is overwritten. */
  lemma LateEditIsLost(h: Hasher, s: Folder, t: Tree, s1: Folder)
    requires Inv(h, s) && s.phase.Cleared? && s.phase.tmp in s.tree
    requires FairEdit(s, t) && s1 == Step(h, s, Edit(t))
    requires s.phase.tmp in t && s.phase.e.path in t && t[s.phase.e.path].File?
    ensures var s' := Step(h, s1, Rename);
            s.phase.e.path in s'.tree && s'.tree[s.phase.e.path] == File(s.phase.build.data, s.phase.e.mode)
  {
    hide *;
    EntryPathValid(h, s);
    TempOutside(h, s);
    ClearedHasTemp(s);
    EditTakesEffect(h, s, t);
    RenameInstalls(h, s, s1);
  }

  lemma ClearedHasTemp(s: Folder)
    ensures s.phase.Cleared? ==> HasTemp(s.phase)
  {}

  lemma EditTakesEffect(h: Hasher, s: Folder, t: Tree)
    requires FairEdit(s, t)
    ensures Step(h, s, Edit(t)) == s.(tree := t)
    ensures HasTemp(s.phase) && s.phase.tmp in t ==> s.phase.tmp in s.tree && t[s.phase.tmp] == s.tree[s.phase.tmp]
  {}

  lemma RenameInstalls(h: Hasher, s: Folder, s1: Folder)
    requires Inv(h, s) && s.phase.Cleared? && s1.phase == s.phase && s.phase.tmp != s.phase.e.path
    requires s.phase.tmp in s.tree && s.phase.tmp in s1.tree && s1.tree[s.phase.tmp] == s.tree[s.phase.tmp]
    requires s.phase.e.path in s1.tree && s1.tree[s.phase.e.path].File?
    ensures var s' := Step(h, s1, Rename);
            s.phase.e.path in s'.tree && s'.tree[s.phase.e.path] == File(s.phase.build.data, s.phase.e.mode)
  {
    hide ValidPath, WellFormed, ValidRows, WithinLimits, ValidEntry, Fingerprint, Unchanged, RowsVerified;
  }

  lemma EntryPathValid(h: Hasher, s: Folder)
    requires Inv(h, s) && !s.phase.Idle?
    ensures ValidPath(s.phase.e.path)
  {
    hide ValidPath, WellFormed, ValidRows, WithinLimits, ValidLayout, PhaseInv;
  }
}
