/** The undisturbed run of the machine is Apply, and killing it anywhere and applying the same entry
    again reaches the same folder (internal/store/apply.go:19-21, 75-108, 196-224). */
module Recovery {
  import opened Model
  import opened Paths
  import opened Tree
  import opened Layout
  import opened Index
  import opened Assembly
  import opened Apply
  import opened TempFile
  import opened Machine

  /** What ReadAt sees of the old file right now. */
  function ReadNow(ph: Phase, t: Tree): Option<Bytes>
    requires ph.Building? && ph.done < |ph.e.blocks|
  {
    var p := ph.e.path;
    if ph.cur.Some? && p in t && t[p].File?
    then ReadOld(Some(t[p].content), BlockMap(ph.cur.value.blocks), ph.e.blocks[ph.done])
    else None
  }

  /** The program's own next event. */
  function NextEvent(s: Folder, fetch: Replies, nonce: string): Event {
    match s.phase
    case Idle => Crash
    case Opened(_) => Check
    case Checked(_) => Look
    case Seen(_) => TakePrint
    case Matching(_) => SetMode
    case DirFound(_, _) => MakeParents
    case DirRooted(_, _) => MakeDir
    case Decided(_, _) => MakeParents
    case Rooted(_, _) => CreateTemp(nonce)
    case Building(e, _, _, _, k) => if k < |e.blocks| then NextBlock(ReadNow(s.phase, s.tree), fetch(k)) else Seal
    case Sealed(_, _, _, _) => Recheck
    case Cleared(_, _, _, _) => Rename
    case Committing(_, _) => Commit
  }

  /** k events of an undisturbed Apply of e. */
  ghost function Undisturbed(h: Hasher, s0: Folder, e: Entry, fetch: Replies, nonce: string, k: nat): Folder {
    if k == 0 then Step(h, s0, Begin(e))
    else
      var s := Undisturbed(h, s0, e, fetch, nonce, k - 1);
      Step(h, s, NextEvent(s, fetch, nonce))
  }

  /** What the machine decided to replace, in terms of the tree it started from. */
  ghost predicate Decision(h: Hasher, s0: Folder, e: Entry, cur: Option<Entry>) {
    var p := e.path;
    && e.kind == "file" && MarkerOk(s0.tree, s0.id) && ComponentsOk(s0.tree, p, true)
    && if p in s0.tree then
         && s0.tree[p].File? && |s0.tree[p].content| <= MAX_FILE_SIZE && h(s0.tree[p].content) != e.hash
         && p in s0.index && s0.index[p].kind == "file" && s0.index[p].hash == h(s0.tree[p].content)
         && cur == Some(Fingerprint(h, p, s0.tree[p].content, s0.tree[p].mode))
       else p !in s0.index && cur == None
  }

  ghost predicate DirDecision(s0: Folder, e: Entry, exists': bool) {
    && e.kind == "directory" && MarkerOk(s0.tree, s0.id) && ComponentsOk(s0.tree, e.path, true)
    && if exists' then e.path in s0.tree && s0.tree[e.path].Dir? else e.path !in s0.tree && e.path !in s0.index
  }

  function Returned(r: Result<Stats, Error>): Option<Stats> {
    if r.Ok? then Some(r.value) else None
  }

  /** Where an undisturbed Apply of e stands, phase by phase. */
  ghost predicate OnTrack(h: Hasher, s0: Folder, e: Entry, fetch: Replies, nonce: string, s: Folder) {
    var p := e.path;
    var t1 := WithParents(s0.tree, p);
    var tmp := TempPath(p, nonce);
    var old' := CurrentContent(s0.tree, p);
    var o := Applied(h, s0.id, s0.tree, s0.index, e, fetch);
    && s.id == s0.id
    && (!s.phase.Idle? ==> s.phase.e == e && ValidEntry(e) && Fits(s0.index, e) && s.index == s0.index)
    && match s.phase
       case Idle => s.tree == o.tree && s.index == o.index && s.returned == Returned(o.result)
       case Opened(_) => s.tree == s0.tree
       case Checked(_) => s.tree == s0.tree && MarkerOk(s0.tree, s0.id) && ComponentsOk(s0.tree, p, true)
       case Seen(_) =>
         s.tree == s0.tree && e.kind == "file" && MarkerOk(s0.tree, s0.id) && ComponentsOk(s0.tree, p, true)
         && p in s0.tree && s0.tree[p].File?
       case Matching(_) =>
         s.tree == s0.tree && p in s0.tree && s0.tree[p].File? && o.result == Ok(Stats(0, 0, e.size))
         && o.tree == s0.tree[p := File(s0.tree[p].content, e.mode)] && o.index == s0.index[p := e]
       case DirFound(_, x) => s.tree == s0.tree && DirDecision(s0, e, x)
       case DirRooted(_, x) => s.tree == t1 && DirDecision(s0, e, x)
       case Decided(_, cur) => s.tree == s0.tree && Decision(h, s0, e, cur)
       case Rooted(_, cur) => s.tree == t1 && Decision(h, s0, e, cur)
       case Building(_, cur, x, b, k) =>
         && x == tmp && Decision(h, s0, e, cur) && s.tree == t1[tmp := File(b.data, 0x180)]
         && k <= |e.blocks| && Assemble(h, e.blocks, old', BlockMap(OldBlocks(h, old')), fetch, k) == Ok(b)
       case Sealed(_, cur, x, b) =>
         && x == tmp && Decision(h, s0, e, cur) && s.tree == t1[tmp := File(b.data, e.mode)]
         && AssembleAll(h, e, old', fetch) == Ok(b)
       case Cleared(_, cur, x, b) =>
         && x == tmp && Decision(h, s0, e, cur) && s.tree == t1[tmp := File(b.data, e.mode)]
         && AssembleAll(h, e, old', fetch) == Ok(b)
       case Committing(_, st) => s.tree == o.tree && o.result == Ok(st) && o.index == s0.index[p := e]
  }

  /** The setting: an idle folder in order, and a temporary name that nothing uses. */
  ghost predicate Fresh(s0: Folder, e: Entry, nonce: string) {
    s0.phase.Idle? && WellFormed(s0.tree) && '/' !in nonce && TempPath(e.path, nonce) !in s0.tree
  }

  /** Once the decision to replace is made, Apply is Install. */
  lemma DecisionInstalls(h: Hasher, s0: Folder, e: Entry, cur: Option<Entry>, fetch: Replies)
    requires Decision(h, s0, e, cur) && ValidEntry(e) && Fits(s0.index, e)
    ensures Applied(h, s0.id, s0.tree, s0.index, e, fetch) ==
              Install(h, s0.tree, s0.index, e, CurrentContent(s0.tree, e.path), fetch)
    ensures cur.Some? ==> cur.value.blocks == OldBlocks(h, CurrentContent(s0.tree, e.path))
    ensures cur.Some? <==> CurrentContent(s0.tree, e.path).Some?
  {
    hide Install, ValidPath, ValidLayout, WithinLimits, ComponentsOk, MarkerOk;
  }

  lemma DirDecisionApplies(h: Hasher, s0: Folder, e: Entry, x: bool, fetch: Replies)
    requires DirDecision(s0, e, x) && ValidEntry(e) && Fits(s0.index, e) && WellFormed(s0.tree)
    ensures var o := Applied(h, s0.id, s0.tree, s0.index, e, fetch);
            && o.result == Ok(Stats(0, 0, 0)) && o.index == s0.index[e.path := e]
            && o.tree == if x then s0.tree else WithParents(s0.tree, e.path)[e.path := Dir(OwnerAccess(e.mode))]
    ensures x ==> WithParents(s0.tree, e.path) == s0.tree
  {
    hide Install, ValidPath, ValidLayout, WithinLimits, ComponentsOk, MarkerOk;
    if x { PresentHasParents(s0.tree, e.path); }
  }

  lemma BeginOnTrack(h: Hasher, s0: Folder, e: Entry, fetch: Replies, nonce: string)
    requires Fresh(s0, e, nonce)
    ensures OnTrack(h, s0, e, fetch, nonce, Step(h, s0, Begin(e)))
  {
    hide ValidEntry, WithinLimits, WellFormed, Install, ComponentsOk, MarkerOk, TempPath, WithParents;
  }

  lemma CheckOnTrack(h: Hasher, s0: Folder, e: Entry, fetch: Replies, nonce: string, s: Folder)
    requires Fresh(s0, e, nonce) && OnTrack(h, s0, e, fetch, nonce, s) && (s.phase.Opened? || s.phase.Checked? || s.phase.Seen?)
    ensures OnTrack(h, s0, e, fetch, nonce, Step(h, s, NextEvent(s, fetch, nonce)))
  {
    hide WithinLimits, WellFormed, Install, MarkerOk, TempPath, WithParents, ValidPath, ValidLayout, SliceBlocks, BlockMap, Assemble;
  }

  lemma MatchingOnTrack(h: Hasher, s0: Folder, e: Entry, fetch: Replies, nonce: string, s: Folder)
    requires Fresh(s0, e, nonce) && OnTrack(h, s0, e, fetch, nonce, s) && (s.phase.Matching? || s.phase.Committing?)
    ensures OnTrack(h, s0, e, fetch, nonce, Step(h, s, NextEvent(s, fetch, nonce)))
  {
    hide WithinLimits, WellFormed, Applied, MarkerOk, TempPath, WithParents, ValidEntry;
  }

  lemma ClearParents(t: Tree, p: string)
    requires ComponentsOk(t, p, true)
    ensures ParentsClear(t, p) && ParentsPresent(WithParents(t, p), p)
  {
    hide ValidPath, WithParents;
  }

  lemma DirOnTrack(h: Hasher, s0: Folder, e: Entry, fetch: Replies, nonce: string, s: Folder)
    requires Fresh(s0, e, nonce) && OnTrack(h, s0, e, fetch, nonce, s) && (s.phase.DirFound? || s.phase.DirRooted?)
    ensures OnTrack(h, s0, e, fetch, nonce, Step(h, s, NextEvent(s, fetch, nonce)))
  {
    hide WithinLimits, Applied, MarkerOk, TempPath, ValidEntry, ValidPath, WellFormed, SliceBlocks, BlockMap, WithParents,
      ComponentsOk, ParentsClear, ParentsPresent, Fits, OldBlocks, AddBlock, AssembleAll, Fingerprint, Printable, IsAncestor;
    DirDecisionApplies(h, s0, e, s.phase.exists', fetch);
    ClearParents(s0.tree, e.path);
    NotOwnAncestor(e.path);
  }

  lemma NotOwnAncestor(p: string)
    ensures !IsAncestor(p, p)
  {}

  lemma RootOnTrack(h: Hasher, s0: Folder, e: Entry, fetch: Replies, nonce: string, s: Folder)
    requires Fresh(s0, e, nonce) && OnTrack(h, s0, e, fetch, nonce, s) && (s.phase.Decided? || s.phase.Rooted?)
    ensures OnTrack(h, s0, e, fetch, nonce, Step(h, s, NextEvent(s, fetch, nonce)))
  {
    hide WithinLimits, Applied, MarkerOk, TempPath, ValidEntry, ValidPath, WellFormed, SliceBlocks, BlockMap, WithParents,
      ComponentsOk, ParentsClear, ParentsPresent, Fits, OldBlocks, AddBlock, AssembleAll, Fingerprint, Printable, IsAncestor;
    EntryHasPath(e);
    TempIsApart(s0.tree, e.path, nonce);
    assert ComponentsOk(s0.tree, e.path, true);
    hide Decision;
    ClearParents(s0.tree, e.path);
  }

  lemma EntryHasPath(e: Entry)
    requires ValidEntry(e)
    ensures ValidPath(e.path)
  {}

  lemma BlockOnTrack(h: Hasher, s0: Folder, e: Entry, fetch: Replies, nonce: string, s: Folder)
    requires Fresh(s0, e, nonce) && OnTrack(h, s0, e, fetch, nonce, s) && s.phase.Building? && s.phase.done < |e.blocks|
    ensures OnTrack(h, s0, e, fetch, nonce, Step(h, s, NextEvent(s, fetch, nonce)))
  {
    hide WithinLimits, Applied, MarkerOk, TempPath, ValidEntry, ValidPath, WellFormed, SliceBlocks, BlockMap, WithParents,
      ComponentsOk, ParentsClear, ParentsPresent, Fits, OldBlocks, AddBlock, Fingerprint, Printable, IsAncestor, AssembleAll, Assemble;
    EntryHasPath(e);
    TempIsApart(s0.tree, e.path, nonce);
    DecisionInstalls(h, s0, e, s.phase.cur, fetch);
    NotOwnAncestor(e.path);
    hide Decision;
    AssemblyContinues(h, s0, e, fetch, s.phase.done);
  }

  lemma SealOnTrack(h: Hasher, s0: Folder, e: Entry, fetch: Replies, nonce: string, s: Folder)
    requires Fresh(s0, e, nonce) && OnTrack(h, s0, e, fetch, nonce, s) && s.phase.Building? && s.phase.done >= |e.blocks|
    ensures OnTrack(h, s0, e, fetch, nonce, Step(h, s, NextEvent(s, fetch, nonce)))
  {
    hide WithinLimits, Applied, MarkerOk, TempPath, ValidEntry, ValidPath, WellFormed, SliceBlocks, BlockMap, WithParents,
      ComponentsOk, ParentsClear, ParentsPresent, Fits, OldBlocks, AddBlock, Fingerprint, Printable, IsAncestor, Assemble;
    EntryHasPath(e);
    TempIsApart(s0.tree, e.path, nonce);
    DecisionInstalls(h, s0, e, s.phase.cur, fetch);
    NotOwnAncestor(e.path);
    hide Decision;
  }

  /** One more turn of the assembly, and what its failure or its end means for the whole. */
  lemma AssemblyContinues(h: Hasher, s0: Folder, e: Entry, fetch: Replies, k: nat)
    requires k <= |e.blocks|
    ensures var old' := CurrentContent(s0.tree, e.path);
            var m := BlockMap(OldBlocks(h, old'));
            var now := Assemble(h, e.blocks, old', m, fetch, k);
            now.Ok? && k < |e.blocks| ==>
              var next := AddBlock(h, now.value, e.blocks[k], ReadOld(old', m, e.blocks[k]), fetch(k));
              && Assemble(h, e.blocks, old', m, fetch, k + 1) == next
              && (next.Err? ==> AssembleAll(h, e, old', fetch) == next)
  {
    hide AddBlock, BlockMap, OldBlocks, ReadOld;
    var old' := CurrentContent(s0.tree, e.path);
    var m := BlockMap(OldBlocks(h, old'));
    if k < |e.blocks| && Assemble(h, e.blocks, old', m, fetch, k + 1).Err? {
      AssembleStops(h, e.blocks, old', m, fetch, k + 1, |e.blocks|);
    }
  }

  lemma RenameOnTrack(h: Hasher, s0: Folder, e: Entry, fetch: Replies, nonce: string, s: Folder)
    requires Fresh(s0, e, nonce) && OnTrack(h, s0, e, fetch, nonce, s) && (s.phase.Sealed? || s.phase.Cleared?)
    ensures OnTrack(h, s0, e, fetch, nonce, Step(h, s, NextEvent(s, fetch, nonce)))
  {
    hide WithinLimits, Applied, MarkerOk, TempPath, ValidEntry, ValidPath, WellFormed, SliceBlocks, BlockMap, WithParents,
      ComponentsOk, ParentsClear, ParentsPresent, Fits, OldBlocks, AddBlock, AssembleAll, Fingerprint, IsAncestor;
    EntryHasPath(e);
    TempIsApart(s0.tree, e.path, nonce);
    DecisionInstalls(h, s0, e, s.phase.cur, fetch);
    var n := File(s.phase.build.data, e.mode);
    var tmp := TempPath(e.path, nonce);
    Rechecks(s0.tree, e.path, tmp, n, s0.id);
    Renamed(WithParents(s0.tree, e.path), tmp, e.path, n);
    if e.path in s0.tree {
      PresentIsPrintable(s.tree, e.path);
      FingerprintHash(h, e.path, s0.tree[e.path].content, s0.tree[e.path].mode);
    }
  }

  lemma PresentIsPrintable(t: Tree, p: string)
    requires ComponentsOk(t, p, true) && p in t && t[p].File? && |t[p].content| <= MAX_FILE_SIZE
    ensures Printable(t, p)
  {
    hide ValidPath;
  }

  lemma FingerprintHash(h: Hasher, p: string, c: Bytes, mode: nat)
    ensures Fingerprint(h, p, c, mode).hash == h(c)
  {}

  lemma StepOnTrack(h: Hasher, s0: Folder, e: Entry, fetch: Replies, nonce: string, s: Folder)
    requires Fresh(s0, e, nonce) && OnTrack(h, s0, e, fetch, nonce, s) && !s.phase.Idle?
    ensures OnTrack(h, s0, e, fetch, nonce, Step(h, s, NextEvent(s, fetch, nonce)))
  {
    hide OnTrack, Step, NextEvent;
    match s.phase {
      case Opened(_) => CheckOnTrack(h, s0, e, fetch, nonce, s);
      case Checked(_) => CheckOnTrack(h, s0, e, fetch, nonce, s);
      case Seen(_) => CheckOnTrack(h, s0, e, fetch, nonce, s);
      case Matching(_) => MatchingOnTrack(h, s0, e, fetch, nonce, s);
      case DirFound(_, _) => DirOnTrack(h, s0, e, fetch, nonce, s);
      case DirRooted(_, _) => DirOnTrack(h, s0, e, fetch, nonce, s);
      case Decided(_, _) => RootOnTrack(h, s0, e, fetch, nonce, s);
      case Rooted(_, _) => RootOnTrack(h, s0, e, fetch, nonce, s);
      case Building(_, _, _, _, k) =>
        if k < |e.blocks| { BlockOnTrack(h, s0, e, fetch, nonce, s); } else { SealOnTrack(h, s0, e, fetch, nonce, s); }
      case Sealed(_, _, _, _) => RenameOnTrack(h, s0, e, fetch, nonce, s);
      case Cleared(_, _, _, _) => RenameOnTrack(h, s0, e, fetch, nonce, s);
      case Committing(_, _) => MatchingOnTrack(h, s0, e, fetch, nonce, s);
    }
  }

  lemma IdleStays(h: Hasher, s: Folder, fetch: Replies, nonce: string)
    requires s.phase.Idle?
    ensures Step(h, s, NextEvent(s, fetch, nonce)) == s
  {}

  lemma {:induction false} RunOnTrack(h: Hasher, s0: Folder, e: Entry, fetch: Replies, nonce: string, k: nat)
    requires Fresh(s0, e, nonce)
    ensures OnTrack(h, s0, e, fetch, nonce, Undisturbed(h, s0, e, fetch, nonce, k))
  {
    hide OnTrack, Step, NextEvent, Fresh;
    if k == 0 {
      BeginOnTrack(h, s0, e, fetch, nonce);
    } else {
      RunOnTrack(h, s0, e, fetch, nonce, k - 1);
      var s := Undisturbed(h, s0, e, fetch, nonce, k - 1);
      if s.phase.Idle? {
        IdleStays(h, s, fetch, nonce);
      } else {
        StepOnTrack(h, s0, e, fetch, nonce, s);
      }
    }
  }

  /** How many events are left at most. */
  function Rank(ph: Phase): nat {
    match ph
    case Idle => 0
    case Committing(_, _) => 1
    case Cleared(_, _, _, _) => 2
    case Sealed(_, _, _, _) => 3
    case Building(e, _, _, _, k) => if k <= |e.blocks| then 4 + |e.blocks| - k else 4
    case Rooted(e, _) => 5 + |e.blocks|
    case Decided(e, _) => 6 + |e.blocks|
    case DirRooted(_, _) => 2
    case DirFound(_, _) => 3
    case Matching(_) => 2
    case Seen(e) => 7 + |e.blocks|
    case Checked(e) => 8 + |e.blocks|
    case Opened(e) => 9 + |e.blocks|
  }

  predicate Late(ph: Phase) {
    ph.Building? || ph.Sealed? || ph.Cleared? || ph.Committing? || ph.Rooted?
  }

  lemma LateRankDrops(h: Hasher, s: Folder, fetch: Replies, nonce: string)
    requires Late(s.phase) && '/' !in nonce
    ensures Rank(Step(h, s, NextEvent(s, fetch, nonce)).phase) < Rank(s.phase)
  {
    hide MarkerOk, ComponentsOk, Printable, Fingerprint, ParentsClear, ParentsPresent, WithParents, AddBlock, BlockMap, Unchanged,
      ReadOld, WriteTemp, TempPath, Fits, ValidEntry, OwnerAccess, Candidate, ReadNow;
  }

  lemma EarlyRankDrops(h: Hasher, s: Folder, fetch: Replies, nonce: string)
    requires !Late(s.phase) && !s.phase.Idle?
    ensures Rank(Step(h, s, NextEvent(s, fetch, nonce)).phase) < Rank(s.phase)
  {
    hide MarkerOk, ComponentsOk, Printable, Fingerprint, ParentsClear, ParentsPresent, WithParents, AddBlock, BlockMap, Unchanged,
      ReadOld, WriteTemp, TempPath, Fits, ValidEntry, OwnerAccess, Candidate, ReadNow;
  }

  lemma BeginRank(h: Hasher, s0: Folder, e: Entry)
    requires s0.phase.Idle?
    ensures Rank(Step(h, s0, Begin(e)).phase) <= 9 + |e.blocks|
  {
    hide Fits, ValidEntry;
  }

  lemma {:induction false} RankAfter(h: Hasher, s0: Folder, e: Entry, fetch: Replies, nonce: string, k: nat)
    requires s0.phase.Idle? && '/' !in nonce
    ensures Rank(Undisturbed(h, s0, e, fetch, nonce, k).phase) + k <= 9 + |e.blocks|
            || Undisturbed(h, s0, e, fetch, nonce, k).phase.Idle?
  {
    hide Step, NextEvent, Rank;
    if k > 0 {
      RankAfter(h, s0, e, fetch, nonce, k - 1);
      var s := Undisturbed(h, s0, e, fetch, nonce, k - 1);
      if s.phase.Idle? {
        IdleStays(h, s, fetch, nonce);
      } else if Late(s.phase) {
        LateRankDrops(h, s, fetch, nonce);
      } else {
        EarlyRankDrops(h, s, fetch, nonce);
      }
    } else {
      BeginRank(h, s0, e);
    }
  }

  /** The undisturbed machine stops after at most 10 events plus one per block, with exactly the tree
      and index of Apply. */
  lemma UndisturbedIsApply(h: Hasher, s0: Folder, e: Entry, fetch: Replies, nonce: string, k: nat)
    requires Fresh(s0, e, nonce) && k >= 10 + |e.blocks|
    ensures var s := Undisturbed(h, s0, e, fetch, nonce, k);
            var o := Applied(h, s0.id, s0.tree, s0.index, e, fetch);
            s.phase.Idle? && s.tree == o.tree && s.index == o.index && s.returned == Returned(o.result)
  {
    hide Undisturbed, Applied, WellFormed;
    RunOnTrack(h, s0, e, fetch, nonce, k);
    RankAfter(h, s0, e, fetch, nonce, k);
  }

  /** Repeating a successful Apply does nothing more and fetches nothing, whether or not the index
      had been committed. */
  lemma RepeatIsSilent(h: Hasher, id: string, t: Tree, index: Index, e: Entry, fetch: Replies,
                       index': Index, later: Replies)
    requires WellFormed(t) && Applied(h, id, t, index, e, fetch).result.Ok?
    requires index' == index || index' == index[e.path := e]
    ensures var o := Applied(h, id, t, index, e, fetch);
            var r := Applied(h, id, o.tree, index', e, later);
            && r.tree == o.tree && r.index == o.index && r.result.Ok?
            && r.result.value.received == 0 && r.result.value.files == 0
  {
    hide Applied, ValidEntry, WellFormed, MarkerOk, Describes, WithinLimits;
    var o := Applied(h, id, t, index, e, fetch);
    SuccessIsExact(h, id, t, index, e, fetch);
    KeepsWellFormed(h, id, t, index, e, fetch);
    SuccessHadMarker(h, id, t, index, e, fetch);
    assert index'[e.path := e] == o.index;
    SettledIsSilent(h, id, o.tree, index', e, later);
  }

  lemma SuccessHadMarker(h: Hasher, id: string, t: Tree, index: Index, e: Entry, fetch: Replies)
    requires Applied(h, id, t, index, e, fetch).result.Ok?
    ensures MarkerOk(Applied(h, id, t, index, e, fetch).tree, id) && ValidPath(e.path)
  {
    MarkerNotValid();
    OnlyDestination(h, id, t, index, e, fetch);
    hide ValidPath, Install, ValidLayout, WithinLimits;
  }

  lemma SettledIsSilent(h: Hasher, id: string, t: Tree, index: Index, e: Entry, fetch: Replies)
    requires WellFormed(t) && MarkerOk(t, id) && ValidEntry(e) && Fits(index, e)
    requires e.path in t && Describes(h, e, t[e.path])
    ensures var r := Applied(h, id, t, index, e, fetch);
            && r.tree == t && r.index == index[e.path := e] && r.result.Ok?
            && r.result.value.received == 0 && r.result.value.files == 0
  {
    hide ValidPath, SliceBlocks, ValidLayout, WithinLimits, MarkerOk, BlockCount;
    if e.kind == "file" {
      DescribedBlocks(h, e, t[e.path].content);
    }
    assert ComponentsOk(t, e.path, true);
  }

  lemma DescribedBlocks(h: Hasher, e: Entry, c: Bytes)
    requires Fingerprint(h, e.path, c, e.mode) == e
    ensures OldBlocks(h, Some(c)) == e.blocks && h(c) == e.hash && |c| == e.size
  {}

  lemma AllThere(t: Tree, p: string)
    requires forall a :: IsAncestor(a, p) ==> a in t
    ensures WithParents(t, p) == t
  {}

  /** What a crash after k events leaves behind. */
  ghost function Crashed(h: Hasher, s0: Folder, e: Entry, fetch: Replies, nonce: string, k: nat): Folder {
    Step(h, Undisturbed(h, s0, e, fetch, nonce, k), Crash)
  }

  lemma FailedInstall(h: Hasher, s0: Folder, e: Entry, cur: Option<Entry>, fetch: Replies)
    requires WellFormed(s0.tree)
    requires Applied(h, s0.id, s0.tree, s0.index, e, fetch).result.Err?
    requires Applied(h, s0.id, s0.tree, s0.index, e, fetch).tree != s0.tree
    requires cur == if e.path in s0.tree && s0.tree[e.path].File?
                    then Some(Fingerprint(h, e.path, s0.tree[e.path].content, s0.tree[e.path].mode)) else None
    ensures Decision(h, s0, e, cur) && ValidEntry(e) && Fits(s0.index, e)
    ensures Applied(h, s0.id, s0.tree, s0.index, e, fetch).tree == WithParents(s0.tree, e.path)
  {
    hide ValidPath, ValidLayout, WithinLimits, MarkerOk, WithParents, AssembleAll, SliceBlocks, WellFormed;
  }

  /** The six kinds of state a crash can leave. */
  datatype Leftover =
    | Untouched
    | Parents(cur: Option<Entry>)
    | Orphan(cur: Option<Entry>, temp: Node)
    | DirParents(exists': bool)
    | Installed
    | Finished

  ghost predicate LeftAs(h: Hasher, s0: Folder, e: Entry, fetch: Replies, nonce: string, c: Folder, l: Leftover) {
    var t1 := WithParents(s0.tree, e.path);
    var o := Applied(h, s0.id, s0.tree, s0.index, e, fetch);
    && (!l.Finished? ==> c.index == s0.index)
    && (!l.Finished? && !l.Untouched? ==> ValidEntry(e) && Fits(s0.index, e))
    && match l
       case Untouched => c.tree == s0.tree
       case Parents(cur) => Decision(h, s0, e, cur) && c.tree == t1
       case Orphan(cur, n) => Decision(h, s0, e, cur) && n.File? && c.tree == t1[TempPath(e.path, nonce) := n]
       case DirParents(x) => DirDecision(s0, e, x) && c.tree == t1
       case Installed => o.result.Ok? && c.tree == o.tree
       case Finished => c.tree == o.tree && c.index == o.index
  }

  function LeftoverOf(ph: Phase): Leftover {
    match ph
    case Rooted(_, cur) => Parents(cur)
    case Building(_, cur, _, b, _) => Orphan(cur, File(b.data, 0x180))
    case Sealed(e, cur, _, b) => Orphan(cur, File(b.data, e.mode))
    case Cleared(e, cur, _, b) => Orphan(cur, File(b.data, e.mode))
    case DirRooted(_, x) => DirParents(x)
    case Committing(_, _) => Installed
    case Idle => Finished
    case _ => Untouched
  }

  lemma PhaseLeaves(h: Hasher, s0: Folder, e: Entry, fetch: Replies, nonce: string, s: Folder)
    requires OnTrack(h, s0, e, fetch, nonce, s)
    ensures LeftAs(h, s0, e, fetch, nonce, s.(phase := Idle), LeftoverOf(s.phase))
  {
    hide Applied, Decision, DirDecision, WithParents, TempPath, AssembleAll, Assemble, ValidEntry, Fits, MarkerOk, ComponentsOk,
      OldBlocks, BlockMap, CurrentContent;
  }

  lemma CrashKind(h: Hasher, s0: Folder, e: Entry, fetch: Replies, nonce: string, k: nat) returns (l: Leftover)
    requires Fresh(s0, e, nonce)
    ensures LeftAs(h, s0, e, fetch, nonce, Crashed(h, s0, e, fetch, nonce, k), l)
  {
    hide Undisturbed, OnTrack, LeftAs, Fresh;
    RunOnTrack(h, s0, e, fetch, nonce, k);
    var s := Undisturbed(h, s0, e, fetch, nonce, k);
    PhaseLeaves(h, s0, e, fetch, nonce, s);
    l := LeftoverOf(s.phase);
  }

  /** Once the rename has happened, or the directory or mode is set, applying the entry again after a
      crash fetches nothing, whatever the peer would answer, and ends as the uninterrupted run. */
  lemma NoFetchAfterRename(h: Hasher, s0: Folder, e: Entry, fetch: Replies, nonce: string, k: nat, later: Replies)
    requires Fresh(s0, e, nonce) && Undisturbed(h, s0, e, fetch, nonce, k).phase.Committing?
    ensures var c := Crashed(h, s0, e, fetch, nonce, k);
            var o := Applied(h, s0.id, s0.tree, s0.index, e, fetch);
            var r := Applied(h, s0.id, c.tree, c.index, e, later);
            && r.tree == o.tree && r.index == o.index && r.result.Ok? && r.result.value.received == 0
  {
    hide Undisturbed, OnTrack, LeftAs, Fresh, Applied;
    RunOnTrack(h, s0, e, fetch, nonce, k);
    var s := Undisturbed(h, s0, e, fetch, nonce, k);
    PhaseLeaves(h, s0, e, fetch, nonce, s);
    InstalledLeft(h, s0, e, fetch, nonce, s.(phase := Idle));
    RepeatIsSilent(h, s0.id, s0.tree, s0.index, e, fetch, s0.index, later);
  }

  lemma InstalledLeft(h: Hasher, s0: Folder, e: Entry, fetch: Replies, nonce: string, c: Folder)
    requires Fresh(s0, e, nonce) && LeftAs(h, s0, e, fetch, nonce, c, Installed)
    ensures var o := Applied(h, s0.id, s0.tree, s0.index, e, fetch);
            WellFormed(s0.tree) && o.result.Ok? && c.tree == o.tree && c.index == s0.index
  {
    hide Applied, WellFormed;
  }

  lemma RetryOfDirectory(h: Hasher, s0: Folder, e: Entry, x: bool, fetch: Replies)
    requires WellFormed(s0.tree) && DirDecision(s0, e, x) && ValidEntry(e) && Fits(s0.index, e)
    ensures Applied(h, s0.id, WithParents(s0.tree, e.path), s0.index, e, fetch) ==
              Applied(h, s0.id, s0.tree, s0.index, e, fetch)
  {
    DirDecisionApplies(h, s0, e, x, fetch);
    hide WithinLimits, Applied, ValidPath, ValidLayout, WithParents, Fits;
    if !x {
      var t1 := WithParents(s0.tree, e.path);
      NotOwnAncestor(e.path);
      MarkerNotValid();
      AllThere(t1, e.path);
      WithParentsWellFormed(s0.tree, e.path);
      assert ComponentsOk(t1, e.path, true);
      var s1 := s0.(tree := t1);
      DirDecisionApplies(h, s1, e, false, fetch);
    }
  }

  /** After a crash the destination holds its complete old or complete new content, the index row is
      old or new, the new row only over the new content, and apart from parent directories at most the
      temporary file is extra. */
  lemma CrashLeavesOldOrNew(h: Hasher, s0: Folder, e: Entry, fetch: Replies, nonce: string, k: nat)
    requires Fresh(s0, e, nonce)
    ensures var c := Crashed(h, s0, e, fetch, nonce, k);
            var o := Applied(h, s0.id, s0.tree, s0.index, e, fetch);
            && (c.index == s0.index || (c.index == o.index && c.tree == o.tree))
            && (forall q :: q in s0.tree && q != e.path && q != TempPath(e.path, nonce) ==> q in c.tree && c.tree[q] == s0.tree[q])
            && (forall q :: q in c.tree && q !in s0.tree ==> q == e.path || q == TempPath(e.path, nonce) || IsAncestor(q, e.path))
            && (e.path in c.tree ==> (e.path in s0.tree && c.tree[e.path] == s0.tree[e.path])
                                     || (o.result.Ok? && c.tree == o.tree && Describes(h, e, c.tree[e.path])))
            && (e.path !in c.tree ==> e.path !in s0.tree)
  {
    hide Crashed, Applied, Decision, DirDecision, WithParents, TempPath, WellFormed, ValidEntry, Fits, IsAncestor, Describes, LeftAs;
    var l := CrashKind(h, s0, e, fetch, nonce, k);
    var c := Crashed(h, s0, e, fetch, nonce, k);
    if l.Installed? || l.Finished? {
      DoneIsOldOrNew(h, s0, e, fetch, nonce, c, l);
    } else {
      UndoneIsOld(h, s0, e, fetch, nonce, c, l);
    }
  }

  lemma UndoneIsOld(h: Hasher, s0: Folder, e: Entry, fetch: Replies, nonce: string, c: Folder, l: Leftover)
    requires Fresh(s0, e, nonce) && LeftAs(h, s0, e, fetch, nonce, c, l) && !l.Installed? && !l.Finished?
    ensures c.index == s0.index
    ensures forall q :: q in s0.tree && q != TempPath(e.path, nonce) ==> q in c.tree && c.tree[q] == s0.tree[q]
    ensures forall q :: q in c.tree && q !in s0.tree ==> q == TempPath(e.path, nonce) || IsAncestor(q, e.path)
    ensures e.path in s0.tree <==> e.path in c.tree
    ensures e.path in s0.tree ==> c.tree[e.path] == s0.tree[e.path]
  {
    hide Applied, Decision, DirDecision, TempPath, WellFormed, ValidEntry, Fits, IsAncestor;
    assert !IsAncestor(e.path, e.path) by { NotOwnAncestor(e.path); }
    if l.Orphan? { TempIsNotPath(s0, e, l.cur, h, nonce); }
  }

  lemma DoneIsOldOrNew(h: Hasher, s0: Folder, e: Entry, fetch: Replies, nonce: string, c: Folder, l: Leftover)
    requires Fresh(s0, e, nonce) && LeftAs(h, s0, e, fetch, nonce, c, l) && (l.Installed? || l.Finished?)
    ensures var o := Applied(h, s0.id, s0.tree, s0.index, e, fetch);
            && c.tree == o.tree && (c.index == s0.index || c.index == o.index)
            && (forall q :: q in s0.tree && q != e.path ==> q in c.tree && c.tree[q] == s0.tree[q])
            && (forall q :: q in c.tree && q !in s0.tree ==> q == e.path || IsAncestor(q, e.path))
            && (e.path in c.tree ==> (e.path in s0.tree && c.tree[e.path] == s0.tree[e.path])
                                     || (o.result.Ok? && Describes(h, e, c.tree[e.path])))
            && (e.path !in c.tree ==> e.path !in s0.tree)
  {
    hide Applied, Decision, DirDecision, WithParents, TempPath, WellFormed, ValidEntry, Fits, IsAncestor, Describes;
    var o := Applied(h, s0.id, s0.tree, s0.index, e, fetch);
    OnlyDestination(h, s0.id, s0.tree, s0.index, e, fetch);
    assert !IsAncestor(e.path, e.path) by { NotOwnAncestor(e.path); }
    if o.result.Ok? {
      SuccessIsExact(h, s0.id, s0.tree, s0.index, e, fetch);
    } else {
      FailureIsHarmless(h, s0.id, s0.tree, s0.index, e, fetch);
    }
  }

  lemma TempIsNotPath(s0: Folder, e: Entry, cur: Option<Entry>, h: Hasher, nonce: string)
    requires Decision(h, s0, e, cur) && '/' !in nonce
    ensures TempPath(e.path, nonce) != e.path
  {
    hide TempPath, Fingerprint, MarkerOk;
    TempNotValid(e.path, nonce);
  }

  /** The exact boundary of recovery: once the rename has happened and the row has not been written, an
      attempt with another version is refused as a local change exactly when its hash differs. */
  lemma UncommittedRenameBlocksOthers(h: Hasher, s0: Folder, e: Entry, cur: Option<Entry>, fetch: Replies,
                                      e2: Entry, later: Replies)
    requires WellFormed(s0.tree) && Decision(h, s0, e, cur) && ValidEntry(e) && Fits(s0.index, e)
    requires Applied(h, s0.id, s0.tree, s0.index, e, fetch).result.Ok?
    requires e2.path == e.path && e2.kind == "file" && ValidEntry(e2) && Fits(s0.index, e2)
    ensures var o := Applied(h, s0.id, s0.tree, s0.index, e, fetch);
            Applied(h, s0.id, o.tree, s0.index, e2, later).result == Err(LocalChange) <==> e2.hash != e.hash
  {
    var o := Applied(h, s0.id, s0.tree, s0.index, e, fetch);
    SuccessIsExact(h, s0.id, s0.tree, s0.index, e, fetch);
    KeepsWellFormed(h, s0.id, s0.tree, s0.index, e, fetch);
    SuccessHadMarker(h, s0.id, s0.tree, s0.index, e, fetch);
    DescribedBlocks(h, e, o.tree[e.path].content);
    OldRowDiffers(h, s0, e, cur);
    var t := o.tree;
    hide Decision, SliceBlocks, ValidLayout, WithinLimits, ValidPath, MarkerOk, Install, OldBlocks;
    AppliedOverOther(h, s0.id, t, s0.index, e2, later, e.hash);
  }

  lemma OldRowDiffers(h: Hasher, s0: Folder, e: Entry, cur: Option<Entry>)
    requires Decision(h, s0, e, cur)
    ensures e.path in s0.index ==> s0.index[e.path].hash != e.hash
  {
    hide MarkerOk, ComponentsOk, Fingerprint;
  }

  lemma AppliedOverOther(h: Hasher, id: string, t: Tree, index: Index, e2: Entry, later: Replies, d: Digest)
    requires WellFormed(t) && MarkerOk(t, id) && ValidEntry(e2) && e2.kind == "file" && Fits(index, e2)
    requires e2.path in t && t[e2.path].File? && |t[e2.path].content| <= MAX_FILE_SIZE && h(t[e2.path].content) == d
    requires e2.path in index ==> index[e2.path].hash != d
    ensures Applied(h, id, t, index, e2, later).result == Err(LocalChange) <==> e2.hash != d
  {
    hide ValidPath, ValidLayout, WithinLimits, MarkerOk, Install, OldBlocks;
    assert ComponentsOk(t, e2.path, true);
  }
}
