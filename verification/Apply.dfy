/** What one undisturbed Apply does to a folder (internal/store/apply.go:22-225), as a function of
    the tree, the folder's index, the entry and the peer's replies. */
module Apply {
  import opened Model
  import opened Paths
  import opened Tree
  import opened Layout
  import opened Index
  import opened Assembly

  datatype Outcome = Outcome(tree: Tree, index: Index, result: Result<Stats, Error>)

  function OldBlocks(h: Hasher, old': Option<Bytes>): seq<Block> {
    if old'.Some? then SliceBlocks(h, old'.value, BlockCount(|old'.value|)) else []
  }

  /** All blocks of the entry put together, with the current content as the old file. */
  function AssembleAll(h: Hasher, e: Entry, old': Option<Bytes>, fetch: Replies): Result<Build, Error> {
    var r := Assemble(h, e.blocks, old', BlockMap(OldBlocks(h, old')), fetch, |e.blocks|);
    if r.Ok? && h(r.value.data) != e.hash then Err(Mismatch) else r
  }

  /** Parents, assembly, rename and commit. */
  function Install(h: Hasher, t: Tree, index: Index, e: Entry, old': Option<Bytes>, fetch: Replies): Outcome {
    var t1 := WithParents(t, e.path);
    match AssembleAll(h, e, old', fetch)
    case Err(x) => Outcome(t1, index, Err(x))
    case Ok(a) => Outcome(t1[e.path := File(a.data, e.mode)], index[e.path := e], Ok(Stats(1, a.received, a.reused)))
  }

  function ApplyDirectory(t: Tree, index: Index, e: Entry): Outcome {
    if e.path in t then
      if t[e.path].Dir? then Outcome(t, index[e.path := e], Ok(Stats(0, 0, 0)))
      else Outcome(t, index, Err(LocalChange))
    else if e.path in index then Outcome(t, index, Err(LocalChange))
    else Outcome(WithParents(t, e.path)[e.path := Dir(OwnerAccess(e.mode))], index[e.path := e], Ok(Stats(0, 0, 0)))
  }

  function ApplyFile(h: Hasher, t: Tree, index: Index, e: Entry, fetch: Replies): Outcome {
    if e.path !in t then
      if e.path in index then Outcome(t, index, Err(LocalChange))
      else Install(h, t, index, e, None, fetch)
    else if !t[e.path].File? then Outcome(t, index, Err(LocalChange))
    else
      var c := t[e.path].content;
      if |c| > MAX_FILE_SIZE then Outcome(t, index, Err(Unsupported))
      else if h(c) == e.hash then
        if OldBlocks(h, Some(c)) != e.blocks then Outcome(t, index, Err(Mismatch))
        else Outcome(t[e.path := File(c, e.mode)], index[e.path := e], Ok(Stats(0, 0, e.size)))
      else if e.path !in index || index[e.path].kind != "file" || index[e.path].hash != h(c) then
        Outcome(t, index, Err(LocalChange))
      else Install(h, t, index, e, Some(c), fetch)
  }

  ghost function Applied(h: Hasher, id: string, t: Tree, index: Index, e: Entry, fetch: Replies): Outcome {
    if !ValidEntry(e) then Outcome(t, index, Err(Invalid))
    else if !Fits(index, e) then Outcome(t, index, Err(Budget))
    else if !MarkerOk(t, id) then Outcome(t, index, Err(Marker))
    else if !ComponentsOk(t, e.path, true) then Outcome(t, index, Err(Unsupported))
    else if e.kind == "directory" then ApplyDirectory(t, index, e)
    else ApplyFile(h, t, index, e, fetch)
  }

  /** The node that a finished Apply of e leaves at its path. */
  ghost predicate Describes(h: Hasher, e: Entry, n: Node) {
    if e.kind == "directory" then n.Dir?
    else n.File? && n.mode == e.mode && Fingerprint(h, e.path, n.content, e.mode) == e
  }

  lemma AssembledIsDescribed(h: Hasher, e: Entry, old': Option<Bytes>, fetch: Replies)
    requires ValidEntry(e) && e.kind == "file"
    ensures var r := AssembleAll(h, e, old', fetch);
            r.Ok? ==> Fingerprint(h, e.path, r.value.data, e.mode) == e
                      && r.value.received + r.value.reused == e.size
  {
    hide Assemble, BlockMap, OldBlocks;
    AssembleFaithful(h, e.blocks, e.size, old', BlockMap(OldBlocks(h, old')), fetch, |e.blocks|);
    var r := Assemble(h, e.blocks, old', BlockMap(OldBlocks(h, old')), fetch, |e.blocks|);
    if r.Ok? && h(r.value.data) == e.hash {
      FaithfulIsDescribed(h, e, r.value.data);
    }
  }

  /** Success means the path holds what the entry describes, byte for byte by its hashes, the
      index holds the entry, and every byte was either received or reused. */
  lemma SuccessIsExact(h: Hasher, id: string, t: Tree, index: Index, e: Entry, fetch: Replies)
    requires WellFormed(t) && Applied(h, id, t, index, e, fetch).result.Ok?
    ensures var o := Applied(h, id, t, index, e, fetch);
            && e.path in o.tree && Describes(h, e, o.tree[e.path])
            && o.index == index[e.path := e]
            && o.result.value.received + o.result.value.reused == e.size
            && ValidEntry(e) && WithinLimits(o.index)
  {
    hide AssembleAll, WithinLimits;
    if e.kind == "file" {
      AssembledIsDescribed(h, e, None, fetch);
      if e.path in t && t[e.path].File? {
        AssembledIsDescribed(h, e, Some(t[e.path].content), fetch);
      }
    }
  }

  /** Failure changes nothing but possibly missing parent directories: no content, no index row. */
  lemma FailureIsHarmless(h: Hasher, id: string, t: Tree, index: Index, e: Entry, fetch: Replies)
    requires Applied(h, id, t, index, e, fetch).result.Err?
    ensures var o := Applied(h, id, t, index, e, fetch);
            o.index == index && (o.tree == t || o.tree == WithParents(t, e.path))
  {
    hide AssembleAll, WithinLimits, OldBlocks;
  }

  lemma InstallKeepsWellFormed(t: Tree, p: string, n: Node)
    requires WellFormed(t) && ComponentsOk(t, p, true) && (p in t && t[p].Dir? ==> n.Dir?)
    ensures WellFormed(WithParents(t, p)[p := n])
  {
    hide ValidPath;
    WithParentsWellFormed(t, p);
    InstallWellFormed(WithParents(t, p), p, n);
  }

  lemma PresentHasParents(t: Tree, p: string)
    requires WellFormed(t) && p in t
    ensures WithParents(t, p) == t
  {
  }

  lemma KeepsWellFormed(h: Hasher, id: string, t: Tree, index: Index, e: Entry, fetch: Replies)
    requires WellFormed(t)
    ensures WellFormed(Applied(h, id, t, index, e, fetch).tree)
  {
    var o := Applied(h, id, t, index, e, fetch);
    hide AssembleAll, WithinLimits, OldBlocks, ValidPath, WellFormed, WithParents;
    if ComponentsOk(t, e.path, true) {
      WithParentsWellFormed(t, e.path);
      if e.path in o.tree && (e.path in t && t[e.path].Dir? ==> o.tree[e.path].Dir?) {
        InstallKeepsWellFormed(t, e.path, o.tree[e.path]);
      }
      if e.path in t {
        PresentHasParents(t, e.path);
      }
    }
  }

  /** What Apply may touch: the destination, and parents that were missing. */
  lemma OnlyDestination(h: Hasher, id: string, t: Tree, index: Index, e: Entry, fetch: Replies)
    ensures var o := Applied(h, id, t, index, e, fetch);
            && (forall p :: p in t && p != e.path ==> p in o.tree && o.tree[p] == t[p])
            && (forall p :: p in o.tree && p !in t ==> (o.tree[p] == Dir(0x1C0) && IsAncestor(p, e.path)) || p == e.path)
  {
    hide AssembleAll, WithinLimits, OldBlocks, ValidPath, ValidEntry, MarkerOk, ComponentsOk;
  }

  /** The modes of directories: one that Apply makes for an entry has the announced permission bits and all
      of the owner's, so that its children can be installed; one that is there keeps its mode. */
  lemma DirectoryModes(h: Hasher, id: string, t: Tree, index: Index, e: Entry, fetch: Replies)
    requires e.kind == "directory" && Applied(h, id, t, index, e, fetch).result.Ok?
    ensures var o := Applied(h, id, t, index, e, fetch);
            && (e.path in t ==> o.tree == t && t[e.path].Dir?)
            && (e.path !in t ==> e.path in o.tree && o.tree[e.path].Dir? && WithOwnerBits(e.mode, o.tree[e.path].mode))
  {
    hide WithOwnerBits, OwnerAccess, WithParents, WithinLimits, ValidPath, MarkerOk, ComponentsOk;
    OwnerBits(e.mode);
  }

  /** Without the folder's own marker nothing happens: a missing mount, or another folder in its place, is
      not touched. */
  lemma NoMarkerNoChange(h: Hasher, id: string, t: Tree, index: Index, e: Entry, fetch: Replies)
    requires !(".backuply-folder" in t && t[".backuply-folder"].File? && t[".backuply-folder"].content == id + "\n")
    ensures var o := Applied(h, id, t, index, e, fetch); o.tree == t && o.index == index && o.result.Err?
  {
    hide ApplyFile, ApplyDirectory, ValidEntry, Fits, ComponentsOk;
  }

  /** Rows are only added or replaced by the entry itself. */
  lemma KeepsRows(h: Hasher, id: string, t: Tree, index: Index, e: Entry, fetch: Replies)
    ensures var o := Applied(h, id, t, index, e, fetch);
            && (ValidRows(index) ==> ValidRows(o.index))
            && (o.index == index || o.index == index[e.path := e])
  {
    hide AssembleAll, WithinLimits, OldBlocks, ValidPath, MarkerOk, ComponentsOk, ValidLayout;
  }

  /** A present file with other content is replaced only if the index names its hash, and a locally
      deleted indexed path is brought back at most as a directory above the entry. */
  lemma NothingLocalIsLost(h: Hasher, id: string, t: Tree, index: Index, e: Entry, fetch: Replies, p: string)
    ensures var o := Applied(h, id, t, index, e, fetch);
            && (p in t && t[p].File? && !(p in index && index[p].kind == "file" && index[p].hash == h(t[p].content)) ==>
                  p in o.tree && o.tree[p].File? && o.tree[p].content == t[p].content)
            && (p !in t && p in index && p in o.tree ==> IsAncestor(p, e.path))
  {
    OnlyDestination(h, id, t, index, e, fetch);
    hide AssembleAll, WithinLimits, OldBlocks, ValidPath, ComponentsOk;
  }

  /** The installed content is the content the entry was made from, or an explicit collision. */
  lemma NoTornContent(h: Hasher, id: string, t: Tree, index: Index, e: Entry, fetch: Replies, original: Bytes)
    requires WellFormed(t) && e.kind == "file" && e.hash == h(original)
    requires Applied(h, id, t, index, e, fetch).result.Ok?
    ensures var o := Applied(h, id, t, index, e, fetch);
            && e.path in o.tree && o.tree[e.path].File?
            && (o.tree[e.path].content == original || Collision(h, o.tree[e.path].content, original))
  {
    SuccessIsExact(h, id, t, index, e, fetch);
  }

  function CurrentContent(t: Tree, p: string): Option<Bytes> {
    if p in t && t[p].File? then Some(t[p].content) else None
  }

  /** The bytes a successful Apply receives are exactly the sizes of the entry's blocks whose hash no block
      of the present file has, unless hashes collide: nothing when the content is the announced one,
      everything when there is no file. */
  lemma ReceivedIsFresh(h: Hasher, id: string, t: Tree, index: Index, e: Entry, fetch: Replies,
                        u: set<Bytes>, original: Bytes)
    requires Applied(h, id, t, index, e, fetch).result.Ok? && e.kind == "file"
    requires InjectiveOn(h, u) && Covers(u, original) && e == Fingerprint(h, e.path, original, e.mode)
    requires e.path in t && t[e.path].File? ==> Covers(u, t[e.path].content)
    ensures Applied(h, id, t, index, e, fetch).result.value.received ==
              FreshBytes(e.blocks, BlockMap(OldBlocks(h, CurrentContent(t, e.path))), |e.blocks|)
  {
    hide WithinLimits, ValidEntry, MarkerOk, ComponentsOk, Assemble, FreshBytes, BlockMap, SliceBlocks, Covers, InjectiveOn;
    if e.path in t {
      var c := t[e.path].content;
      NoCollisionSizesAgree(h, u, original, c);
      hide SizesAgree;
      DeltaIsExact(h, e.blocks, c, fetch, |e.blocks|);
      if OldBlocks(h, Some(c)) == e.blocks {
        NothingFresh(e.blocks, |e.blocks|);
      }
    } else {
      NoBlocksNoMap();
      NothingToReuse(h, e.blocks, BlockMap([]), fetch, |e.blocks|);
    }
  }

  lemma NoBlocksNoMap()
    ensures BlockMap([]) == map[]
  {}

  lemma {:induction false} NothingFresh(blocks: seq<Block>, k: nat)
    requires k <= |blocks|
    ensures FreshBytes(blocks, BlockMap(blocks), k) == 0
  {
    hide BlockMap;
    if k > 0 {
      NothingFresh(blocks, k - 1);
    }
  }
}
