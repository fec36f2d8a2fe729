/** The store of one folder as the mutable object it is: a tree on disk and the index database
    (internal/store/apply.go, internal/store/scan.go). */
module Store {
  import opened Model
  import opened Paths
  import opened Tree
  import opened Layout
  import opened Json
  import opened Index
  import opened Ledger
  import opened Database
  import opened Assembly
  import opened Apply
  import opened TempFile
  import opened Scan

  class FolderStore {
    const h: Hasher
    const id: string
    var db: IndexDb
    var tree: Tree

    constructor (h: Hasher, id: string, tree: Tree, db: IndexDb)
      ensures this.h == h && this.id == id && this.tree == tree && this.db == db
    {
      this.h, this.id, this.tree, this.db := h, id, tree, db;
    }

    ghost predicate Valid()
      reads this, db
    {
      Consistent(db.State()) && ValidDb(db.State()) && WellFormed(tree)
    }

    function FolderIndex(): Index
      reads this, db
    {
      Rows(db.entries, id)
    }

    /** put in the folder of this store. */
    method Commit(e: Entry)
      requires Valid() && ValidEntry(e) && Fits(FolderIndex(), e)
      modifies db
      ensures Valid()
      ensures FolderIndex() == old(FolderIndex())[e.path := e]
      ensures OthersUnchanged(old(db.State()), db.State(), id)
    {
      hide Rows, Consistent, OthersUnchanged, Fits, ValidEntry, ValidDb;
      ghost var before := db.State();
      var ok := db.Put(id, e);
      PutKeepsValid(before, db.State(), id, e);
    }

    /** The assembly loop: the map of old blocks, then block after block. */
    method AssembleFile(e: Entry, old': Option<Bytes>, fetch: Replies) returns (r: Result<Build, Error>)
      ensures r == AssembleAll(h, e, old', fetch)
    {
      hide BlockMap, OldBlocks, ReadOld, AddBlock;
      var current := OldBlocks(h, old');
      var blocks: map<Digest, Block> := map[];
      for j := 0 to |current|
        invariant blocks == BlockMap(current[..j])
      {
        blocks := blocks[current[j].hash := current[j]];
        MapExtends(current, j);
      }
      assert current[..|current|] == current;
      var a := NOTHING;
      for i := 0 to |e.blocks|
        invariant Assemble(h, e.blocks, old', blocks, fetch, i) == Ok(a)
      {
        var b := e.blocks[i];
        var next := AddBlock(h, a, b, ReadOld(old', blocks, b), fetch(i));
        assert Assemble(h, e.blocks, old', blocks, fetch, i + 1) == next;
        if next.Err? {
          AssembleStops(h, e.blocks, old', blocks, fetch, i + 1, |e.blocks|);
          return next;
        }
        a := next.value;
      }
      if h(a.data) != e.hash {
        return Err(Mismatch);
      }
      return Ok(a);
    }

    /** Apply without interference from outside. The temporary name is fresh, as its 128 random
        bits make it. */
    method Apply(e: Entry, fetch: Replies, nonce: string) returns (r: Result<Stats, Error>)
      requires Valid() && '/' !in nonce && TempPath(e.path, nonce) !in tree
      modifies this`tree, db
      ensures Valid()
      ensures var o := Applied(h, id, old(tree), old(FolderIndex()), e, fetch);
              tree == o.tree && FolderIndex() == o.index && r == o.result
      ensures OthersUnchanged(old(db.State()), db.State(), id)
    {
      hide Rows, Consistent, OthersUnchanged, Fits, ValidDb, ValidPath, AssembleAll, OldBlocks, WellFormed, ComponentsOk, WithParents;
      OthersSame(db.State(), id);
      KeepsWellFormed(h, id, tree, FolderIndex(), e, fetch);
      var valid := ValidateEntry(e);
      if !valid {
        return Err(Invalid);
      }
      var room := db.HasCapacity(id, e);
      if !room {
        return Err(Budget);
      }
      if !MarkerOk(tree, id) {
        return Err(Marker);
      }
      var plain := CheckComponents(tree, e.path, true);
      if !plain {
        return Err(Unsupported);
      }
      if e.kind == "directory" {
        r := ApplyDir(e);
        return;
      }
      var old': Option<Bytes> := None;
      if e.path in tree {
        if !tree[e.path].File? {
          return Err(LocalChange);
        }
        var c := tree[e.path].content;
        var seen := FingerprintFile(h, e.path, c, 0);
        if seen.Err? {
          return Err(Unsupported);
        }
        var current := seen.value;
        assert current.blocks == OldBlocks(h, Some(c)) by { OldBlocksOf(h, e.path, c); }
        if current.hash == e.hash {
          if current.blocks != e.blocks {
            return Err(Mismatch);
          }
          tree := tree[e.path := File(c, e.mode)];
          Commit(e);
          return Ok(Stats(0, 0, e.size));
        }
        var indexed := db.Get(id, e.path);
        if indexed.None? || indexed.value.kind != "file" || indexed.value.hash != current.hash {
          return Err(LocalChange);
        }
        old' := Some(c);
      } else {
        var indexed := db.Get(id, e.path);
        if indexed.Some? {
          return Err(LocalChange);
        }
      }
      r := Replace(e, old', fetch, nonce);
    }

    /** The directory branch. */
    method ApplyDir(e: Entry) returns (r: Result<Stats, Error>)
      requires Valid() && ValidEntry(e) && Fits(FolderIndex(), e)
      requires WellFormed(ApplyDirectory(tree, FolderIndex(), e).tree)
      modifies this`tree, db
      ensures Valid()
      ensures var o := ApplyDirectory(old(tree), old(FolderIndex()), e);
              tree == o.tree && FolderIndex() == o.index && r == o.result
      ensures OthersUnchanged(old(db.State()), db.State(), id)
    {
      hide Rows, Consistent, OthersUnchanged, Fits, ValidDb, ValidEntry, WellFormed, WithParents;
      OthersSame(db.State(), id);
      if e.path !in tree {
        var indexed := db.Get(id, e.path);
        if indexed.Some? {
          return Err(LocalChange);
        }
        tree := WithParents(tree, e.path);
        tree := tree[e.path := Dir(OwnerAccess(e.mode))];
      } else if !tree[e.path].Dir? {
        return Err(LocalChange);
      }
      Commit(e);
      return Ok(Stats(0, 0, 0));
    }

    /** Parents, temporary file, assembly, recheck, rename, commit. */
    method Replace(e: Entry, old': Option<Bytes>, fetch: Replies, nonce: string) returns (r: Result<Stats, Error>)
      requires Valid() && ValidEntry(e) && Fits(FolderIndex(), e) && ComponentsOk(tree, e.path, true)
      requires MarkerOk(tree, id) && '/' !in nonce && TempPath(e.path, nonce) !in tree
      requires old' == if e.path in tree && tree[e.path].File? then Some(tree[e.path].content) else None
      requires e.path in tree ==> tree[e.path].File? && |tree[e.path].content| <= MAX_FILE_SIZE
      modifies this`tree, db
      ensures Valid()
      ensures var o := Install(h, old(tree), old(FolderIndex()), e, old', fetch);
              tree == o.tree && FolderIndex() == o.index && r == o.result
      ensures OthersUnchanged(old(db.State()), db.State(), id)
    {
      hide Rows, Consistent, OthersUnchanged, Fits, ValidDb, ValidEntry, ValidPath, AssembleAll, WellFormed, ComponentsOk, WithParents, MarkerOk, TempPath, Fingerprint;
      OthersSame(db.State(), id);
      ghost var t := tree;
      var tmp := TempPath(e.path, nonce);
      ParentsAreFine(t, e);
      TempIsApart(t, e.path, nonce);
      tree := WithParents(tree, e.path);
      ghost var t1 := tree;
      WithParentsKeeps(t, e.path);
      tree := tree[tmp := File("", 0x180)];
      var a := AssembleFile(e, old', fetch);
      if a.Err? {
        tree := tree - {tmp};
        CreateAndRemove(t1, tmp, File("", 0x180));
        return Err(a.error);
      }
      tree := tree[tmp := File(a.value.data, e.mode)];
      assert tree == t1[tmp := File(a.value.data, e.mode)];
      // The rechecks before the rename cannot fail while nothing else touches the folder.
      Rechecks(t, e.path, tmp, File(a.value.data, e.mode), id);
      var plain := CheckComponents(tree, e.path, true);
      assert plain && MarkerOk(tree, id);
      if old'.Some? {
        var latest := FingerprintFile(h, e.path, tree[e.path].content, 0);
        assert latest.Ok? && tree[e.path].content == old'.value;
      } else {
        assert e.path !in tree;
      }
      tree := tree[e.path := tree[tmp]] - {tmp};
      Renamed(t1, tmp, e.path, File(a.value.data, e.mode));
      InstallKeepsWellFormed(t, e.path, File(a.value.data, e.mode));
      Commit(e);
      return Ok(Stats(1, a.value.received, a.value.reused));
    }

    /** The walk's callback for one name that is not skipped. */
    method ScanOne(p: string) returns (r: Result<Entry, Error>)
      requires WellFormed(tree) && p in tree
      ensures r == if Scannable(tree, p) then Ok(ScanEntry(h, tree, p)) else Err(Unsupported)
    {
      hide WellFormed, ComponentsOk, Fingerprint;
      var plain := CheckComponents(tree, p, false);
      if !plain {
        return Err(Unsupported);
      }
      assert !tree[p].Special? by { PresentComponent(tree, p); }
      if tree[p].Dir? {
        return Ok(Entry(p, "directory", 0, Perm(tree[p].mode), "", []));
      }
      r := FingerprintFile(h, p, tree[p].content, Perm(tree[p].mode));
    }

    /** The walk with its running totals. The walk order is the library's; names is any complete
        walk. */
    method Walk(names: seq<string>) returns (r: Result<seq<Entry>, Error>)
      requires WellFormed(tree) && IsWalk(tree, names)
      ensures r.Ok? <==> AllScannable(tree) && WithinLimits(Snapshot(h, tree))
      ensures r.Ok? ==> r.value == Recorded(h, tree, names)
    {
      hide WellFormed, Scannable, ScanEntry, ReservedBase, Snapshot, WithinLimits, ManifestLength, Visited, Recorded, IsWalk,
        TotalBytes, AllScannable;
      var entries: seq<Entry> := [];
      var manifestBytes := 0;
      WalkNames(tree, names);
      NothingRecorded(h, tree, names);
      for i := 0 to |names|
        invariant entries == Recorded(h, tree, names[..i])
        invariant manifestBytes == TotalBytes(entries) <= MAX_MANIFEST_BYTES - 2 && |entries| <= MAX_ENTRIES
        invariant forall j :: 0 <= j < i && !ReservedBase(names[j]) ==> Scannable(tree, names[j])
      {
        RecordedStep(h, tree, names, i);
        PartWithinLimits(h, tree, names, i + 1);
        if !ReservedBase(names[i]) {
          WalkDecides(tree, names, i);
          var e := ScanOne(names[i]);
          if e.Err? {
            return Err(e.error);
          }
          manifestBytes := manifestBytes + ManifestLength(e.value) + 1;
          if |entries| >= MAX_ENTRIES || manifestBytes > MAX_MANIFEST_BYTES - 2 {
            return Err(Budget);
          }
          entries := entries + [e.value];
        }
      }
      assert names[..|names|] == names;
      PartWithinLimits(h, tree, names, |names|);
      WalkIsAll(tree, names);
      return Ok(entries);
    }

    /** Scan of a quiet tree: the index becomes the snapshot, or nothing changes. */
    method Scan(names: seq<string>) returns (r: Result<seq<Entry>, Error>)
      requires Valid() && IsWalk(tree, names) && HexHasher(h)
      modifies db
      ensures Valid()
      ensures r.Ok? <==> MarkerOk(tree, id) && AllScannable(tree) && WithinLimits(Snapshot(h, tree))
      ensures r.Ok? ==> FolderIndex() == Snapshot(h, tree) && Override(map[], r.value) == Snapshot(h, tree)
      ensures r.Ok? ==> OthersUnchanged(old(db.State()), db.State(), id)
      ensures r.Err? ==> db.State() == old(db.State())
    {
      hide Rows, Consistent, OthersUnchanged, ValidDb, WellFormed, AllScannable, Snapshot, WithinLimits, IsWalk, MarkerOk;
      if !MarkerOk(tree, id) {
        return Err(Marker);
      }
      r := Walk(names);
      if r.Err? {
        return;
      }
      WalkGivesSnapshot(h, tree, names);
      ghost var before := db.State();
      var ok, ps := db.ReplaceFolder(id, r.value);
      SnapshotIsValid(h, tree);
      ValidAfter(before, db.State(), id, Snapshot(h, tree));
    }

    /** ReadBlock: only an exact block of the current index, and only while the file has it. It runs beside
        scans, applies and edits: `now` is what each check meets. */
    method ReadBlock(name: string, entryHash: Digest, b: Block, now: Moments) returns (r: Result<Bytes, Error>)
      requires WellFormed(now.path)
      ensures r == ServeDuring(h, id, FolderIndex(), name, entryHash, b, now)
    {
      hide Rows, WellFormed, ComponentsOk, ValidPath, ValidLayout;
      if !ValidPath(name) {
        return Err(Stale);
      }
      var found := db.Get(id, name);
      if found.None? {
        return Err(Stale);
      }
      var e := found.value;
      var valid := ValidateEntry(e);
      if !valid || e.kind != "file" || e.hash != entryHash || b.offset < 0 || b.offset % BLOCK_SIZE != 0 {
        return Err(Stale);
      }
      var i := b.offset / BLOCK_SIZE;
      if i >= |e.blocks| || e.blocks[i] != b {
        return Err(Stale);
      }
      ListedBlockInside(e, i);
      if !MarkerOk(now.marker, id) {
        return Err(Marker);
      }
      var plain := CheckComponents(now.path, name, false);
      if !plain {
        return Err(Unsupported);
      }
      if name !in now.file || !now.file[name].File? || |now.file[name].content| != e.size {
        return Err(Stale);
      }
      if b.offset + b.size > |now.content| {
        return Err(Stale);
      }
      var data := now.content[b.offset .. b.offset + b.size];
      if h(data) != b.hash {
        return Err(Stale);
      }
      return Ok(data);
    }
  }

  lemma PresentComponent(t: Tree, p: string)
    requires ComponentsOk(t, p, false)
    ensures p in t && !t[p].Special?
  {}

  lemma ListedBlockInside(e: Entry, i: nat)
    requires ValidEntry(e) && e.kind == "file" && i < |e.blocks|
    ensures 0 <= e.blocks[i].offset <= e.blocks[i].offset + e.blocks[i].size <= e.size
  {
    assert BlockAt(e.blocks[i], i, e.size);
  }

  lemma PutKeepsValid(db: Db, db': Db, f: string, e: Entry)
    requires ValidDb(db) && ValidEntry(e) && db'.entries == db.entries[Key(f, e.path) := e]
    ensures ValidDb(db')
  {}

  lemma MapExtends(bs: seq<Block>, j: nat)
    requires j < |bs|
    ensures BlockMap(bs[..j + 1]) == BlockMap(bs[..j])[bs[j].hash := bs[j]]
  {
    assert bs[..j + 1][..j] == bs[..j];
  }

  lemma OldBlocksOf(h: Hasher, path: string, c: Bytes)
    ensures Fingerprint(h, path, c, 0).blocks == OldBlocks(h, Some(c))
  {}

  lemma ParentsAreFine(t: Tree, e: Entry)
    requires WellFormed(t) && ComponentsOk(t, e.path, true) && ValidEntry(e)
    ensures ValidPath(e.path) && WellFormed(WithParents(t, e.path))
  {
    hide ValidPath, ValidLayout;
    WithParentsWellFormed(t, e.path);
  }

  lemma WithParentsKeeps(t: Tree, p: string)
    ensures forall q :: q in t ==> q in WithParents(t, p) && WithParents(t, p)[q] == t[q]
  {}
}
