/** Apply as an interruptible machine (internal/store/apply.go): one event per phase, so that local
    edits, source changes, failures and process crashes can fall between any two phases. */
module Machine {
  import opened Model
  import opened Paths
  import opened Tree
  import opened Layout
  import opened Index
  import opened Assembly

  datatype Phase =
    | Idle
    | Opened(e: Entry)                             // validated, room in the index
    | Checked(e: Entry)                            // marker and components seen
    | Seen(e: Entry)                               // a regular file is at the path
    | Matching(e: Entry)                           // its content is the announced one
    | DirFound(e: Entry, exists': bool)            // directory entry, decided
    | DirRooted(e: Entry, exists': bool)           // its parents made
    | Decided(e: Entry, cur: Option<Entry>)        // a replacement will be built
    | Rooted(e: Entry, cur: Option<Entry>)         // parents made
    | Building(e: Entry, cur: Option<Entry>, tmp: string, build: Build, done: nat)
    | Sealed(e: Entry, cur: Option<Entry>, tmp: string, build: Build)
    | Cleared(e: Entry, cur: Option<Entry>, tmp: string, build: Build)   // rechecked
    | Committing(e: Entry, stats: Stats)

  /** A receiver folder. `verified` and `dirs` are history: the contents, by path and hash, and the
      directories that some Apply of that path has found or put on disk. `returned` is what the last
      call returned, None for an error. */
  datatype Folder = Folder(id: string, tree: Tree, index: Index, phase: Phase, verified: set<(string, Digest)>,
                           dirs: set<string>, returned: Option<Stats>)

  datatype Event =
    | Begin(entry: Entry)
    | Check
    | Look
    | TakePrint
    | SetMode
    | MakeParents
    | MakeDir
    | CreateTemp(nonce: string)
    | NextBlock(read: Option<Bytes>, reply: Option<Bytes>)
    | Seal
    | Recheck
    | Rename
    | Commit
    | Fail
    | Crash
    | Edit(tree: Tree)

  predicate HasTemp(ph: Phase) {
    ph.Building? || ph.Sealed? || ph.Cleared?
  }

  /** The deferred removal of the temporary file, and the release of the mutex. */
  function Abort(s: Folder): Folder {
    s.(phase := Idle, returned := None, tree := if HasTemp(s.phase) then s.tree - {s.phase.tmp} else s.tree)
  }

  predicate ParentsClear(t: Tree, p: string) {
    forall a :: a in Ancestors(p) && a in t ==> t[a].Dir?
  }

  predicate ParentsPresent(t: Tree, p: string) {
    forall a :: a in Ancestors(p) ==> a in t && t[a].Dir?
  }

  function DoLook(s: Folder): Folder
    requires s.phase.Checked?
  {
    var e := s.phase.e;
    var p := e.path;
    if p !in s.tree then
      if p in s.index then Abort(s)
      else if e.kind == "directory" then s.(phase := DirFound(e, false))
      else s.(phase := Decided(e, None))
    else if e.kind == "directory" then
      if s.tree[p].Dir? then s.(phase := DirFound(e, true), dirs := s.dirs + {p}) else Abort(s)
    else if s.tree[p].File? then s.(phase := Seen(e)) else Abort(s)
  }

  /** fingerprint: one snapshot of the file or an error. */
  predicate Printable(t: Tree, p: string) {
    ComponentsOk(t, p, false) && t[p].File? && |t[p].content| <= MAX_FILE_SIZE
  }

  function DoTakePrint(h: Hasher, s: Folder): Folder
    requires s.phase.Seen?
  {
    var e := s.phase.e;
    var p := e.path;
    if !Printable(s.tree, p) then Abort(s)
    else
      var cur := Fingerprint(h, p, s.tree[p].content, s.tree[p].mode);
      if cur.hash == e.hash then
        if cur.blocks != e.blocks then Abort(s)
        else s.(phase := Matching(e), verified := s.verified + {(p, e.hash)})
      else if p !in s.index || s.index[p].kind != "file" || s.index[p].hash != cur.hash then Abort(s)
      else s.(phase := Decided(e, Some(cur)))
  }

  /** Opens whatever is at the path now and sets its mode. */
  function DoSetMode(s: Folder): Folder
    requires s.phase.Matching?
  {
    var e := s.phase.e;
    if e.path !in s.tree then Abort(s)
    else
      var n := match s.tree[e.path]
               case File(c, _) => File(c, e.mode)
               case Dir(_) => Dir(e.mode)
               case Special => Special;
      s.(tree := s.tree[e.path := n], phase := Committing(e, Stats(0, 0, e.size)))
  }

  function DoMakeParents(s: Folder): Folder
    requires s.phase.DirFound? || s.phase.Decided?
  {
    var p := s.phase.e.path;
    if !ParentsClear(s.tree, p) then Abort(s)
    else s.(tree := WithParents(s.tree, p),
            phase := if s.phase.DirFound? then DirRooted(s.phase.e, s.phase.exists') else Rooted(s.phase.e, s.phase.cur))
  }

  function DoMakeDir(s: Folder): Folder
    requires s.phase.DirRooted?
  {
    var e := s.phase.e;
    if s.phase.exists' then s.(phase := Committing(e, Stats(0, 0, 0)))
    else if e.path in s.tree || !ParentsPresent(s.tree, e.path) then Abort(s)
    else s.(tree := s.tree[e.path := Dir(OwnerAccess(e.mode))], dirs := s.dirs + {e.path},
            phase := Committing(e, Stats(0, 0, 0)))
  }

  function DoCreateTemp(s: Folder, nonce: string): Folder
    requires s.phase.Rooted?
  {
    var tmp := TempPath(s.phase.e.path, nonce);
    if '/' in nonce then s
    else if tmp in s.tree || !ParentsPresent(s.tree, s.phase.e.path) then Abort(s)
    else s.(tree := s.tree[tmp := File("", 0x180)], phase := Building(s.phase.e, s.phase.cur, tmp, NOTHING, 0))
  }

  /** Writing through the open handle shows in the tree while the name still exists. */
  function WriteTemp(t: Tree, tmp: string, data: Bytes, mode: nat): Tree {
    if tmp in t then t[tmp := File(data, mode)] else t
  }

  /** One block: the old file is tried if its map has a candidate, and `read` is whatever ReadAt
      gives at that moment. */
  function DoNextBlock(h: Hasher, s: Folder, read: Option<Bytes>, reply: Option<Bytes>): Folder
    requires s.phase.Building?
  {
    var ph := s.phase;
    if ph.done >= |ph.e.blocks| then s
    else
      var b := ph.e.blocks[ph.done];
      var tried := if ph.cur.Some? && Candidate(BlockMap(ph.cur.value.blocks), b) then read else None;
      match AddBlock(h, ph.build, b, tried, reply)
      case Err(_) => Abort(s)
      case Ok(a) => s.(tree := WriteTemp(s.tree, ph.tmp, a.data, 0x180), phase := ph.(build := a, done := ph.done + 1))
  }

  function DoSeal(h: Hasher, s: Folder): Folder
    requires s.phase.Building?
  {
    var ph := s.phase;
    if ph.done < |ph.e.blocks| then s
    else if h(ph.build.data) != ph.e.hash then Abort(s)
    else s.(tree := WriteTemp(s.tree, ph.tmp, ph.build.data, ph.e.mode), phase := Sealed(ph.e, ph.cur, ph.tmp, ph.build))
  }

  predicate Unchanged(h: Hasher, t: Tree, p: string, cur: Option<Entry>) {
    if cur.Some? then Printable(t, p) && h(t[p].content) == cur.value.hash
    else p !in t
  }

  function DoRecheck(h: Hasher, s: Folder): Folder
    requires s.phase.Sealed?
  {
    var ph := s.phase;
    if MarkerOk(s.tree, s.id) && ComponentsOk(s.tree, ph.e.path, true) && Unchanged(h, s.tree, ph.e.path, ph.cur)
    then s.(phase := Cleared(ph.e, ph.cur, ph.tmp, ph.build))
    else Abort(s)
  }

  function DoRename(s: Folder): Folder
    requires s.phase.Cleared?
  {
    var ph := s.phase;
    var p := ph.e.path;
    if ph.tmp !in s.tree || (p in s.tree && s.tree[p].Dir?) then Abort(s)
    else s.(tree := s.tree[p := s.tree[ph.tmp]] - {ph.tmp}, verified := s.verified + {(p, ph.e.hash)},
            phase := Committing(ph.e, Stats(1, ph.build.received, ph.build.reused)))
  }

  /** People leave the reserved temporary name alone: it may vanish with its directory but is not
      forged. */
  ghost predicate FairEdit(s: Folder, t: Tree) {
    && WellFormed(t)
    && (HasTemp(s.phase) && s.phase.tmp in t ==> s.phase.tmp in s.tree && t[s.phase.tmp] == s.tree[s.phase.tmp])
  }

  /** The next state. An event that does not belong to the phase has no effect. */
  ghost function Step(h: Hasher, s: Folder, ev: Event): Folder {
    match ev
    case Begin(e) =>
      if !s.phase.Idle? then s
      else if ValidEntry(e) && Fits(s.index, e) then s.(phase := Opened(e))
      else s.(returned := None)
    case Check =>
      if !s.phase.Opened? then s
      else if MarkerOk(s.tree, s.id) && ComponentsOk(s.tree, s.phase.e.path, true) then s.(phase := Checked(s.phase.e))
      else Abort(s)
    case Look => if s.phase.Checked? then DoLook(s) else s
    case TakePrint => if s.phase.Seen? then DoTakePrint(h, s) else s
    case SetMode => if s.phase.Matching? then DoSetMode(s) else s
    case MakeParents => if s.phase.DirFound? || s.phase.Decided? then DoMakeParents(s) else s
    case MakeDir => if s.phase.DirRooted? then DoMakeDir(s) else s
    case CreateTemp(nonce) => if s.phase.Rooted? then DoCreateTemp(s, nonce) else s
    case NextBlock(read, reply) => if s.phase.Building? then DoNextBlock(h, s, read, reply) else s
    case Seal => if s.phase.Building? then DoSeal(h, s) else s
    case Recheck => if s.phase.Sealed? then DoRecheck(h, s) else s
    case Rename => if s.phase.Cleared? then DoRename(s) else s
    case Commit =>
      if s.phase.Committing?
      then s.(index := s.index[s.phase.e.path := s.phase.e], phase := Idle, returned := Some(s.phase.stats)) else s
    case Fail => Abort(s)
    case Crash => s.(phase := Idle)
    case Edit(t) => if FairEdit(s, t) then s.(tree := t) else s
  }

  /** The history has what entry e describes. */
  ghost predicate Verified(verified: set<(string, Digest)>, dirs: set<string>, e: Entry) {
    if e.kind == "directory" then e.path in dirs else (e.path, e.hash) in verified
  }

  /** Every row names what was verified for its path. */
  ghost predicate RowsVerified(index: Index, verified: set<(string, Digest)>, dirs: set<string>) {
    forall p :: p in index ==> Verified(verified, dirs, index[p])
  }

  /** What a phase that will replace the file knows: the index row it relies on, or its absence. */
  ghost predicate Justified(s: Folder, e: Entry, cur: Option<Entry>) {
    if cur.Some? then e.path in s.index && s.index[e.path].kind == "file" && s.index[e.path].hash == cur.value.hash
                      && cur.value.hash != e.hash
    else e.path !in s.index
  }

  ghost predicate TempInv(s: Folder, e: Entry, tmp: string, data: Bytes, mode: nat) {
    && !ValidPath(tmp)
    && (tmp in s.tree ==> s.tree[tmp] == File(data, mode))
    && (forall a :: IsAncestor(a, tmp) <==> IsAncestor(a, e.path))
  }

  ghost predicate PhaseInv(h: Hasher, s: Folder) {
    match s.phase
    case Idle => true
    case Opened(e) => true
    case Checked(e) => true
    case Seen(e) => e.kind == "file"
    case Matching(e) => e.kind == "file" && (e.path, e.hash) in s.verified
    case DirFound(e, x) => e.kind == "directory" && (x ==> e.path in s.dirs)
    case DirRooted(e, x) => e.kind == "directory" && (x ==> e.path in s.dirs)
    case Decided(e, cur) => e.kind == "file" && Justified(s, e, cur)
    case Rooted(e, cur) => e.kind == "file" && Justified(s, e, cur)
    case Building(e, cur, tmp, b, k) =>
      && e.kind == "file" && Justified(s, e, cur) && TempInv(s, e, tmp, b.data, 0x180)
      && Faithful(h, e.blocks, e.size, b.data, k) && b.received + b.reused == |b.data|
    case Sealed(e, cur, tmp, b) =>
      && e.kind == "file" && Justified(s, e, cur) && TempInv(s, e, tmp, b.data, e.mode)
      && Fingerprint(h, e.path, b.data, e.mode) == e && b.received + b.reused == e.size
    case Cleared(e, cur, tmp, b) =>
      && e.kind == "file" && Justified(s, e, cur) && TempInv(s, e, tmp, b.data, e.mode)
      && Fingerprint(h, e.path, b.data, e.mode) == e && b.received + b.reused == e.size
    case Committing(e, st) => Verified(s.verified, s.dirs, e) && st.received + st.reused == e.size
  }

  ghost predicate Inv(h: Hasher, s: Folder) {
    && WellFormed(s.tree) && ValidRows(s.index) && RowsVerified(s.index, s.verified, s.dirs)
    && (!s.phase.Idle? ==> ValidEntry(s.phase.e) && Fits(s.index, s.phase.e))
    && PhaseInv(h, s)
  }

  lemma AbortInv(h: Hasher, s: Folder)
    requires Inv(h, s)
    ensures Inv(h, Abort(s))
  {
    hide ValidRows, WithinLimits, ValidPath, ValidEntry;
    if HasTemp(s.phase) {
      RemoveLeafWellFormed(s.tree, s.phase.tmp);
    }
  }

  /** Removing a file keeps the tree well formed. */
  lemma RemoveLeafWellFormed(t: Tree, p: string)
    requires WellFormed(t) && (p in t ==> t[p].File?)
    ensures WellFormed(t - {p})
  {
    forall q, a | q in t - {p} && IsAncestor(a, q) ensures a in t - {p} && (t - {p})[a].Dir? {
      assert a in t && t[a].Dir?;
    }
  }

  lemma ReplaceFileWellFormed(t: Tree, p: string, n: Node)
    requires WellFormed(t) && p in t && !t[p].Dir?
    ensures WellFormed(t[p := n])
  {
    forall q, a | q in t[p := n] && IsAncestor(a, q) ensures a in t[p := n] && t[p := n][a].Dir? {
      assert q in t && a in t && t[a].Dir?;
    }
  }

  lemma SetModeInv(h: Hasher, s: Folder)
    requires Inv(h, s) && s.phase.Matching?
    ensures Inv(h, DoSetMode(s))
  {
    hide ValidRows, WithinLimits, ValidPath, ValidLayout;
    var p := s.phase.e.path;
    if p in s.tree {
      var s' := DoSetMode(s);
      if !s.tree[p].Dir? {
        ReplaceFileWellFormed(s.tree, p, s'.tree[p]);
      } else {
        InstallWellFormed(s.tree, p, s'.tree[p]);
      }
    } else {
      AbortInv(h, s);
    }
  }

  lemma ParentsInv(h: Hasher, s: Folder)
    requires Inv(h, s) && (s.phase.DirFound? || s.phase.Decided?)
    ensures Inv(h, DoMakeParents(s))
  {
    hide ValidRows, WithinLimits, ValidEntry;
    var p := s.phase.e.path;
    if ParentsClear(s.tree, p) {
      assert forall a :: IsAncestor(a, p) ==> a in Ancestors(p);
      WithParentsWellFormed(s.tree, p);
    } else {
      AbortInv(h, s);
    }
  }

  lemma MakeDirInv(h: Hasher, s: Folder)
    requires Inv(h, s) && s.phase.DirRooted?
    ensures Inv(h, DoMakeDir(s))
  {
    hide ValidRows, WithinLimits, ValidPath;
    var p := s.phase.e.path;
    AbortInv(h, s);
    if p !in s.tree && ParentsPresent(s.tree, p) {
      assert forall a :: IsAncestor(a, p) ==> a in Ancestors(p);
      InstallWellFormed(s.tree, p, Dir(OwnerAccess(s.phase.e.mode)));
    }
  }

  lemma CreateTempInv(h: Hasher, s: Folder, nonce: string)
    requires Inv(h, s) && s.phase.Rooted?
    ensures Inv(h, DoCreateTemp(s, nonce))
  {
    hide ValidRows, WithinLimits, ValidPath, TempPath;
    AbortInv(h, s);
    var e := s.phase.e;
    var tmp := TempPath(e.path, nonce);
    if '/' !in nonce && tmp !in s.tree && ParentsPresent(s.tree, e.path) {
      TempNotValid(e.path, nonce);
      TempAncestors(e.path, nonce);
      assert forall a :: IsAncestor(a, e.path) ==> a in Ancestors(e.path);
      InstallWellFormed(s.tree, tmp, File("", 0x180));
      assert Faithful(h, e.blocks, e.size, "", 0) by { StartFaithful(h, e); }
    }
  }

  lemma StartFaithful(h: Hasher, e: Entry)
    requires ValidEntry(e) && e.kind == "file"
    ensures Faithful(h, e.blocks, e.size, "", 0)
  {}

  lemma WriteTempWellFormed(t: Tree, tmp: string, data: Bytes, mode: nat)
    requires WellFormed(t) && (tmp in t ==> t[tmp].File?)
    ensures WellFormed(WriteTemp(t, tmp, data, mode))
  {
    if tmp in t {
      ReplaceFileWellFormed(t, tmp, File(data, mode));
    }
  }

  lemma NextBlockInv(h: Hasher, s: Folder, read: Option<Bytes>, reply: Option<Bytes>)
    requires Inv(h, s) && s.phase.Building?
    ensures Inv(h, DoNextBlock(h, s, read, reply))
  {
    hide ValidRows, WithinLimits, ValidPath, BlockMap, AddBlock, Faithful, WellFormed, ValidLayout;
    AbortInv(h, s);
    var ph := s.phase;
    if ph.done < |ph.e.blocks| {
      var b := ph.e.blocks[ph.done];
      var tried := if ph.cur.Some? && Candidate(BlockMap(ph.cur.value.blocks), b) then read else None;
      AddBlockFaithful(h, ph.e.blocks, ph.e.size, ph.build, ph.done, tried, reply);
      var r := AddBlock(h, ph.build, b, tried, reply);
      if r.Ok? {
        WriteTempWellFormed(s.tree, ph.tmp, r.value.data, 0x180);
      }
    }
  }

  lemma SealInv(h: Hasher, s: Folder)
    requires Inv(h, s) && s.phase.Building?
    ensures Inv(h, DoSeal(h, s))
  {
    hide ValidRows, WithinLimits, ValidPath, WellFormed;
    AbortInv(h, s);
    var ph := s.phase;
    if ph.done >= |ph.e.blocks| && h(ph.build.data) == ph.e.hash {
      FaithfulIsDescribed(h, ph.e, ph.build.data);
      WriteTempWellFormed(s.tree, ph.tmp, ph.build.data, ph.e.mode);
    }
  }

  lemma RenameInv(h: Hasher, s: Folder)
    requires Inv(h, s) && s.phase.Cleared?
    ensures Inv(h, DoRename(s))
  {
    hide ValidRows, WithinLimits, ValidPath, Unchanged, Fingerprint;
    AbortInv(h, s);
    var ph := s.phase;
    var p := ph.e.path;
    if ph.tmp in s.tree && !(p in s.tree && s.tree[p].Dir?) {
      assert forall a :: IsAncestor(a, p) ==> IsAncestor(a, ph.tmp);
      InstallWellFormed(s.tree, p, s.tree[ph.tmp]);
      RemoveLeafWellFormed(s.tree[p := s.tree[ph.tmp]], ph.tmp);
    }
  }

  lemma CommitInv(h: Hasher, s: Folder)
    requires Inv(h, s) && s.phase.Committing?
    ensures Inv(h, Step(h, s, Commit))
  {
    hide WithinLimits, ValidPath, ValidLayout, WellFormed;
  }

  lemma EditInv(h: Hasher, s: Folder, t: Tree)
    requires Inv(h, s)
    ensures Inv(h, Step(h, s, Edit(t)))
  {
    hide ValidRows, WithinLimits, ValidPath, WellFormed, Faithful, Fingerprint;
  }

  lemma RecheckInv(h: Hasher, s: Folder)
    requires Inv(h, s) && s.phase.Sealed?
    ensures Inv(h, DoRecheck(h, s))
  {
    hide ValidRows, WithinLimits, ValidPath, WellFormed, Fingerprint, Unchanged;
    AbortInv(h, s);
  }

  lemma TakePrintInv(h: Hasher, s: Folder)
    requires Inv(h, s) && s.phase.Seen?
    ensures Inv(h, DoTakePrint(h, s))
  {
    hide ValidRows, WithinLimits, ValidPath, WellFormed, ComponentsOk, ValidLayout;
    AbortInv(h, s);
  }

  lemma LookInv(h: Hasher, s: Folder)
    requires Inv(h, s) && s.phase.Checked?
    ensures Inv(h, DoLook(s))
  {
    hide ValidRows, WithinLimits, ValidPath, WellFormed, ComponentsOk, ValidLayout;
    AbortInv(h, s);
  }

  /** Every event keeps the invariant: the program's, and edits, failures and crashes at any moment. */
  lemma StepInv(h: Hasher, s: Folder, ev: Event)
    requires Inv(h, s)
    ensures Inv(h, Step(h, s, ev))
  {
    hide ValidRows, WithinLimits, ValidPath, WellFormed, ComponentsOk, DoLook, DoTakePrint, DoSetMode, DoMakeParents,
      DoMakeDir, DoCreateTemp, DoNextBlock, DoSeal, DoRecheck, DoRename, Abort, RowsVerified;
    match ev {
      case Begin(e) =>
      case Check => AbortInv(h, s);
      case Look => if s.phase.Checked? { LookInv(h, s); }
      case TakePrint => if s.phase.Seen? { TakePrintInv(h, s); }
      case SetMode => if s.phase.Matching? { SetModeInv(h, s); }
      case MakeParents => if s.phase.DirFound? || s.phase.Decided? { ParentsInv(h, s); }
      case MakeDir => if s.phase.DirRooted? { MakeDirInv(h, s); }
      case CreateTemp(nonce) => if s.phase.Rooted? { CreateTempInv(h, s, nonce); }
      case NextBlock(read, reply) => if s.phase.Building? { NextBlockInv(h, s, read, reply); }
      case Seal => if s.phase.Building? { SealInv(h, s); }
      case Recheck => if s.phase.Sealed? { RecheckInv(h, s); }
      case Rename => if s.phase.Cleared? { RenameInv(h, s); }
      case Commit => if s.phase.Committing? { CommitInv(h, s); }
      case Fail => AbortInv(h, s);
      case Crash =>
      case Edit(t) => EditInv(h, s, t);
    }
  }
}
