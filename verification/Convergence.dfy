/** Convergence of a receiver to an unchanging source in one pass, and the silence of the next. */
module Convergence {
  import opened Model
  import opened Paths
  import opened Tree
  import opened Layout
  import opened Json
  import opened Index
  import opened Assembly
  import opened Apply
  import opened Scan
  import opened Replicate
  import opened Ledger
  import opened Store

  /** Path p of the receiver holds what the source has there. */
  ghost predicate Synced(src: Tree, t: Tree, p: string)
    requires p in src
  {
    p in t && if src[p].File? then t[p] == File(src[p].content, src[p].mode % 0x200) else t[p].Dir?
  }

  /** No local edit at p, given the entry e the source lists for it: a present object has the kind of
      e, a present file is known to the index or already has the content, and a missing one was never
      there. */
  ghost predicate Unedited(h: Hasher, u: set<Bytes>, t: Tree, index: Index, e: Entry) {
    if e.path !in t then e.path !in index
    else if e.kind == "directory" then t[e.path].Dir?
    else
      && t[e.path].File? && |t[e.path].content| <= MAX_FILE_SIZE && Covers(u, t[e.path].content)
      && (h(t[e.path].content) == e.hash
          || (e.path in index && index[e.path].kind == "file" && index[e.path].hash == h(t[e.path].content)))
  }

  /** The source as it is scanned and listed: quiet, scannable, with its marker. */
  ghost predicate QuietSource(h: Hasher, id: string, u: set<Bytes>, src: Tree) {
    && HexHasher(h) && InjectiveOn(h, u)
    && WellFormed(src) && MarkerOk(src, id) && AllScannable(src)
    && forall p :: p in src && src[p].File? ==> Covers(u, src[p].content)
  }

  /** The peer serves every request from the quiet source and its index. */
  ghost predicate ServedBy(h: Hasher, id: string, src: Tree, e: Entry, fetch: Replies) {
    forall j: nat :: j < |e.blocks| ==>
                       fetch(j) == match ServeBlock(h, id, src, Snapshot(h, src), e.path, e.hash, e.blocks[j])
                                   case Ok(data) => Some(data)
                                   case Err(_) => None
  }

  lemma ListedEntry(h: Hasher, id: string, u: set<Bytes>, src: Tree, p: string)
    requires QuietSource(h, id, u, src) && p in Snapshot(h, src)
    ensures p in src && Scannable(src, p)
    ensures ValidEntry(Snapshot(h, src)[p]) && Snapshot(h, src)[p] == ScanEntry(h, src, p) && ScanEntry(h, src, p).path == p
    ensures !src[p].Special?
  {
    hide ValidEntry, Covers, ValidPath, Shown, MarkerOk, Fingerprint;
    ScanEntryValid(h, src, p);
  }

  lemma SourceDelivers(h: Hasher, id: string, u: set<Bytes>, src: Tree, p: string, fetch: Replies)
    requires QuietSource(h, id, u, src) && p in Snapshot(h, src) && p in src && src[p].File?
    requires ServedBy(h, id, src, Snapshot(h, src)[p], fetch)
    ensures Delivers(h, src[p].content, fetch)
  {
    ListedEntry(h, id, u, src, p);
    var m := Snapshot(h, src);
    var c := src[p].content;
    hide Snapshot, Shown, Covers, ValidPath, AllScannable, WellFormed, SliceBlocks, ComponentsOk, MarkerOk, ServeBlock;
    forall i: nat | i < BlockCount(|c|) ensures fetch(i) == Some(Slice(c, i)) {
      ServeOne(h, id, src, m, p, i);
    }
  }

  lemma ServeOne(h: Hasher, id: string, src: Tree, m: Index, p: string, i: nat)
    requires HexHasher(h) && MarkerOk(src, id) && Scannable(src, p) && p in src && src[p].File?
    requires p in m && m[p] == ScanEntry(h, src, p) && i < BlockCount(|src[p].content|)
    ensures i < |m[p].blocks|
    ensures ServeBlock(h, id, src, m, p, m[p].hash, m[p].blocks[i]) == Ok(Slice(src[p].content, i))
  {
    hide ValidPath, MarkerOk, ServeBlock;
    UnchangedSourceServesSlices(h, id, src, m, p, i);
  }

  lemma ReuseCovered(h: Hasher, u: set<Bytes>, old': Option<Bytes>, b: Block)
    requires old'.Some? ==> Covers(u, old'.value)
    requires ReadOld(old', BlockMap(OldBlocks(h, old')), b).Some?
    ensures ReadOld(old', BlockMap(OldBlocks(h, old')), b).value in u
  {
    hide SliceBlocks, BlockMap, Slice, BlockCount, BytesAt;
    var c := old'.value;
    var m := BlockMap(OldBlocks(h, old'));
    var j := MappedBlock(h, c, m, b.hash);
    SliceRange(h, c, j);
  }

  /** With honest replies and no collision among the contents at hand, assembly gives the content. */
  lemma AssemblyConverges(h: Hasher, u: set<Bytes>, c: Bytes, e: Entry, old': Option<Bytes>, fetch: Replies)
    requires InjectiveOn(h, u) && Covers(u, c) && Delivers(h, c, fetch)
    requires old'.Some? ==> Covers(u, old'.value)
    requires e.blocks == SliceBlocks(h, c, BlockCount(|c|)) && e.hash == h(c)
    ensures AssembleAll(h, e, old', fetch).Ok? && AssembleAll(h, e, old', fetch).value.data == c
  {
    var m := BlockMap(OldBlocks(h, old'));
    forall b | ReadOld(old', m, b).Some? ensures ReadOld(old', m, b).value in u {
      ReuseCovered(h, u, old', b);
    }
    assert |e.blocks| == BlockCount(|c|);
    hide SliceBlocks, BlockMap, OldBlocks, ReadOld, Assemble;
    AssembleDelivers(h, c, old', m, fetch, u, BlockCount(|c|));
    assert c[..|c|] == c;
  }

  lemma ListingIsDistinct(es: seq<Entry>, m: Index)
    requires Listing(es, m)
    ensures DistinctPaths(es)
  {
    forall i, j | 0 <= i < j < |es| ensures es[i].path != es[j].path {
      LessTotal(es[i].path, es[j].path);
    }
  }

  lemma {:induction false} OverrideWithin(m: Index, es: seq<Entry>, s: set<string>)
    requires forall p :: p in m ==> p in s
    requires forall i :: 0 <= i < |es| ==> es[i].path in s
    ensures forall p :: p in Override(m, es) ==> p in s
  {
    if es != [] {
      OverrideWithin(m, es[..|es| - 1], s);
    }
  }

  lemma ListingFills(es: seq<Entry>, m: Index)
    requires Listing(es, m) && forall p :: p in m ==> m[p].path == p
    ensures Override(map[], es) == m && TotalBytes(es) == ManifestBytes(m)
  {
    hide Less, TotalBytes, ManifestBytes, Override, ManifestLength, DistinctPaths;
    ListingIsDistinct(es, m);
    FillBytes(es);
    OverrideWithin(map[], es, m.Keys);
    var o := Override(map[], es);
    forall p | p in m ensures p in o && o[p] == m[p] {
      var i :| 0 <= i < |es| && es[i] == m[p];
      OverrideDistinct(map[], es, i);
    }
    assert o == m;
  }

  /** Any part of the manifest can be committed over the old index. */
  lemma PrefixFits(index: Index, es: seq<Entry>, k: nat)
    requires RoomAlong(index, es) && k < |es|
    ensures Override(index, es[..k + 1]) == Override(index, es[..k])[es[k].path := es[k]]
    ensures Fits(Override(index, es[..k]), es[k])
  {
    hide WithinLimits;
    assert es[..k + 1][..k] == es[..k] && es[..k + 1][k] == es[k];
    assert WithinLimits(Override(index, es[..k + 1]));
  }

  /** One entry of the manifest, applied over its parents: no error, the source's content and mode,
      nothing else touched. */
  lemma EntryConverges(h: Hasher, id: string, u: set<Bytes>, src: Tree, t: Tree, index: Index, p: string, fetch: Replies)
    requires QuietSource(h, id, u, src) && p in Snapshot(h, src) && ServedBy(h, id, src, Snapshot(h, src)[p], fetch)
    requires MarkerOk(t, id) && forall a :: IsAncestor(a, p) ==> a in t && t[a].Dir?
    requires Unedited(h, u, t, index, Snapshot(h, src)[p]) && Fits(index, Snapshot(h, src)[p])
    ensures p in src
    ensures var e := Snapshot(h, src)[p];
            var o := Applied(h, id, t, index, e, fetch);
            && o.result.Ok? && Synced(src, o.tree, p) && o.tree == t[p := o.tree[p]]
            && o.index == index[p := e]
  {
    hide SliceBlocks, AssembleAll, WithinLimits, ValidPath, ServedBy, ValidLayout, MarkerOk, Applied, Covers, AllScannable,
      WellFormed, ComponentsOk;
    var e := Snapshot(h, src)[p];
    ListedEntry(h, id, u, src, p);
    assert WithParents(t, p) == t;
    hide WithParents;
    if src[p].File? {
      assert Covers(u, src[p].content);
      SourceDelivers(h, id, u, src, p, fetch);
      FileStep(h, id, u, src[p].content, t, index, e, fetch);
    } else {
      hide *;
      assert e.kind == "directory" && e.path == p && ValidEntry(e) by { DirectoryEntry(h, src, p); }
      DirectoryStep(h, id, u, t, index, e, fetch);
    }
  }

  lemma DirectoryEntry(h: Hasher, src: Tree, p: string)
    requires p in src && !src[p].File?
    ensures ScanEntry(h, src, p).kind == "directory"
  {}

  lemma DirectoryStep(h: Hasher, id: string, u: set<Bytes>, t: Tree, index: Index, e: Entry, fetch: Replies)
    requires e.kind == "directory" && ValidEntry(e) && Fits(index, e)
    requires MarkerOk(t, id) && (forall a :: IsAncestor(a, e.path) ==> a in t && t[a].Dir?) && WithParents(t, e.path) == t
    requires Unedited(h, u, t, index, e)
    ensures var o := Applied(h, id, t, index, e, fetch);
            && o.result == Ok(Stats(0, 0, 0)) && o.index == index[e.path := e]
            && e.path in o.tree && o.tree[e.path].Dir? && o.tree == t[e.path := o.tree[e.path]]
            && (e.path in t ==> o.tree == t)
  {
    hide WithinLimits, ValidPath, WithParents, MarkerOk;
    assert ComponentsOk(t, e.path, true);
  }

  lemma FileStep(h: Hasher, id: string, u: set<Bytes>, c: Bytes, t: Tree, index: Index, e: Entry, fetch: Replies)
    requires InjectiveOn(h, u) && Covers(u, c) && Delivers(h, c, fetch)
    requires e == Fingerprint(h, e.path, c, e.mode) && ValidEntry(e) && Fits(index, e)
    requires MarkerOk(t, id) && (forall a :: IsAncestor(a, e.path) ==> a in t && t[a].Dir?) && WithParents(t, e.path) == t
    requires Unedited(h, u, t, index, e)
    ensures var o := Applied(h, id, t, index, e, fetch);
            o.result.Ok? && o.tree == t[e.path := File(c, e.mode)] && o.index == index[e.path := e]
  {
    hide SliceBlocks, AssembleAll, WithinLimits, ValidPath, WithParents, ValidLayout, MarkerOk, Applied, Delivers, Covers;
    AssemblyConverges(h, u, c, e, None, fetch);
    if e.path in t && t[e.path].File? {
      AssemblyConverges(h, u, c, e, Some(t[e.path].content), fetch);
    }
    FileConverges(h, id, u, c, t, index, e, fetch);
  }

  lemma FileConverges(h: Hasher, id: string, u: set<Bytes>, c: Bytes, t: Tree, index: Index, e: Entry, fetch: Replies)
    requires InjectiveOn(h, u) && Covers(u, c)
    requires e == Fingerprint(h, e.path, c, e.mode) && ValidEntry(e) && Fits(index, e)
    requires MarkerOk(t, id) && (forall a :: IsAncestor(a, e.path) ==> a in t && t[a].Dir?) && WithParents(t, e.path) == t
    requires Unedited(h, u, t, index, e)
    requires AssembleAll(h, e, None, fetch).Ok? && AssembleAll(h, e, None, fetch).value.data == c
    requires e.path in t && t[e.path].File? ==>
               AssembleAll(h, e, Some(t[e.path].content), fetch).Ok? &&
               AssembleAll(h, e, Some(t[e.path].content), fetch).value.data == c
    ensures var o := Applied(h, id, t, index, e, fetch);
            o.result.Ok? && o.tree == t[e.path := File(c, e.mode)] && o.index == index[e.path := e]
  {
    hide SliceBlocks, AssembleAll, WithinLimits, ValidPath, WithParents, ValidLayout, MarkerOk;
    assert ComponentsOk(t, e.path, true);
  }

  /** The setting of the theorem: a quiet source, its snapshot listed and served, a receiver without
      local edits, ... */
  ghost predicate Unhindered(h: Hasher, id: string, u: set<Bytes>, src: Tree, t: Tree, index: Index,
                             es: seq<Entry>, source: Source) {
    && QuietSource(h, id, u, src) && WellFormed(t) && MarkerOk(t, id)
    && Listing(es, Snapshot(h, src))
    && forall i: nat :: i < |es| ==> ServedBy(h, id, src, es[i], source(i)) && Unedited(h, u, t, index, es[i])
  }

  /** ... and room in its index for every part of the list over the old rows. */
  ghost predicate Ready(h: Hasher, id: string, u: set<Bytes>, src: Tree, t: Tree, index: Index,
                        es: seq<Entry>, source: Source) {
    Unhindered(h, id, u, src, t, index, es, source) && RoomAlong(index, es)
  }

  ghost predicate SameAt(t: Tree, t': Tree, p: string) {
    (p in t <==> p in t') && (p in t ==> t[p] == t'[p])
  }

  /** After k entries: those are synced, everything else is as it was. */
  ghost predicate Midway(h: Hasher, src: Tree, t: Tree, index: Index, es: seq<Entry>, s: Pass, k: nat) {
    && k <= |es| && s.result.Ok? && s.applied == k
    && s.index == Override(index, es[..k])
    && (forall i :: 0 <= i < k ==> es[i].path in src && Synced(src, s.tree, es[i].path))
    && (forall p :: (forall i :: 0 <= i < k ==> es[i].path != p) ==> SameAt(t, s.tree, p))
  }

  lemma MarkerNotShown(h: Hasher, src: Tree, es: seq<Entry>, i: nat)
    requires Listing(es, Snapshot(h, src)) && AllScannable(src) && i < |es|
    ensures es[i].path != MARKER_NAME
  {
    MarkerNotValid();
    hide ValidPath, Less;
    assert Shown(src, es[i].path) && Scannable(src, es[i].path);
  }

  /** In path order every ancestor of the next entry has been synced, as a directory. */
  lemma AncestorsAreSynced(h: Hasher, src: Tree, t: Tree, index: Index, es: seq<Entry>, s: Pass, k: nat)
    requires WellFormed(src) && Listing(es, Snapshot(h, src)) && Midway(h, src, t, index, es, s, k) && k < |es|
    ensures forall a :: IsAncestor(a, es[k].path) ==> a in s.tree && s.tree[a].Dir?
  {
    SnapshotIsClosed(h, src);
    var m := Snapshot(h, src);
    forall a | IsAncestor(a, es[k].path) ensures a in s.tree && s.tree[a].Dir? {
      hide Less, Snapshot, Override, WellFormed, Fingerprint;
      assert a in m && m[a].kind == "directory";
      var j :| 0 <= j < |es| && es[j] == m[a];
      assert m[a] == ScanEntry(h, src, a) && es[j].path == a by { EntryPath(h, src, a); }
      AncestorSortsFirst(a, es[k].path);
      LessTotal(a, es[k].path);
      assert j < k && Synced(src, s.tree, es[j].path);
      assert !src[a].File? by { FileEntryKind(h, src, a); }
    }
  }

  lemma FileEntryKind(h: Hasher, src: Tree, a: string)
    requires a in src
    ensures src[a].File? <==> ScanEntry(h, src, a).kind == "file"
    ensures ScanEntry(h, src, a).kind == "directory" ==> !src[a].File?
  {}

  lemma StillUnedited(h: Hasher, u: set<Bytes>, src: Tree, t: Tree, index: Index, es: seq<Entry>, s: Pass, k: nat)
    requires Midway(h, src, t, index, es, s, k) && k < |es| && DistinctPaths(es)
    requires Unedited(h, u, t, index, es[k])
    ensures Unedited(h, u, s.tree, s.index, es[k])
  {
    OverrideElsewhere(index, es[..k], es[k].path);
    hide Override, Covers, Synced;
    assert SameAt(t, s.tree, es[k].path);
  }

  lemma {:induction false} OverrideElsewhere(m: Index, es: seq<Entry>, p: string)
    requires forall i :: 0 <= i < |es| ==> es[i].path != p
    ensures (p in Override(m, es) <==> p in m) && (p in m ==> Override(m, es)[p] == m[p])
  {
    if es != [] {
      OverrideElsewhere(m, es[..|es| - 1], p);
    }
  }

  lemma MidwayStep(h: Hasher, id: string, u: set<Bytes>, src: Tree, t: Tree, index: Index, es: seq<Entry>, source: Source, k: nat)
    requires Ready(h, id, u, src, t, index, es, source) && k < |es|
    requires Midway(h, src, t, index, es, PassOver(h, id, t, index, es, source, k), k)
    ensures Midway(h, src, t, index, es, PassOver(h, id, t, index, es, source, k + 1), k + 1)
  {
    var s := PassOver(h, id, t, index, es, source, k);
    var m := Snapshot(h, src);
    var p := es[k].path;
    ListingIsDistinct(es, m);
    SnapshotKeys(h, id, u, src);
    PrefixFits(index, es, k);
    AncestorsAreSynced(h, src, t, index, es, s, k);
    StillUnedited(h, u, src, t, index, es, s, k);
    MarkerKept(h, id, src, t, index, es, s, k);
    hide Snapshot, Override, QuietSource, Unedited, RoomAlong, ServedBy, WellFormed, Less, MarkerOk, Applied;
    EntryConverges(h, id, u, src, s.tree, s.index, p, source(k));
    MidwayAfter(h, src, t, index, es, s, PassOver(h, id, t, index, es, source, k + 1), k);
  }

  lemma SnapshotKeys(h: Hasher, id: string, u: set<Bytes>, src: Tree)
    requires QuietSource(h, id, u, src)
    ensures forall p :: p in Snapshot(h, src) ==> Snapshot(h, src)[p].path == p
  {
    hide Snapshot, ScanEntry, Shown;
    forall p | p in Snapshot(h, src) ensures Snapshot(h, src)[p].path == p {
      EntryPath(h, src, p);
    }
  }

  lemma MarkerKept(h: Hasher, id: string, src: Tree, t: Tree, index: Index, es: seq<Entry>, s: Pass, k: nat)
    requires Listing(es, Snapshot(h, src)) && AllScannable(src) && MarkerOk(t, id)
    requires Midway(h, src, t, index, es, s, k)
    ensures MarkerOk(s.tree, id)
  {
    hide Snapshot, Override, Synced, AllScannable, Listing;
    forall i | 0 <= i < k ensures es[i].path != MARKER_NAME {
      MarkerNotShown(h, src, es, i);
    }
    assert SameAt(t, s.tree, MARKER_NAME);
  }

  lemma MidwayAfter(h: Hasher, src: Tree, t: Tree, index: Index, es: seq<Entry>, s: Pass, s': Pass, k: nat)
    requires Midway(h, src, t, index, es, s, k) && k < |es| && DistinctPaths(es)
    requires s'.result.Ok? && s'.applied == k + 1 && es[k].path in src && Synced(src, s'.tree, es[k].path)
    requires s'.tree == s.tree[es[k].path := s'.tree[es[k].path]] && s'.index == s.index[es[k].path := es[k]]
    requires Override(index, es[..k + 1]) == Override(index, es[..k])[es[k].path := es[k]]
    ensures Midway(h, src, t, index, es, s', k + 1)
  {
    hide Override;
    forall i | 0 <= i < k + 1 ensures es[i].path in src && Synced(src, s'.tree, es[i].path) {
      if i < k {
        assert es[i].path != es[k].path;
      }
    }
    forall p | forall i :: 0 <= i < k + 1 ==> es[i].path != p ensures SameAt(t, s'.tree, p) {
      assert forall i :: 0 <= i < k ==> es[i].path != p;
      assert SameAt(t, s.tree, p);
      assert p != es[k].path;
    }
  }

  lemma {:induction false} ReachesMidway(h: Hasher, id: string, u: set<Bytes>, src: Tree, t: Tree, index: Index,
                                         es: seq<Entry>, source: Source, k: nat)
    requires Ready(h, id, u, src, t, index, es, source) && k <= |es|
    ensures Midway(h, src, t, index, es, PassOver(h, id, t, index, es, source, k), k)
  {
    hide Ready, Applied;
    if k > 0 {
      ReachesMidway(h, id, u, src, t, index, es, source, k - 1);
      hide PassOver, Midway;
      MidwayStep(h, id, u, src, t, index, es, source, k - 1);
    } else {
      assert es[..0] == [];
    }
  }

  /** One pass over a quiet source succeeds; afterwards every listed file has the source's bytes and
      mode, every listed directory exists, every other path is untouched, and the index is the old one
      overridden by the manifest. */
  lemma OnePassConverges(h: Hasher, id: string, u: set<Bytes>, src: Tree, t: Tree, index: Index,
                         es: seq<Entry>, source: Source)
    requires Ready(h, id, u, src, t, index, es, source)
    ensures var s := PassOver(h, id, t, index, es, source, |es|);
            && s.result.Ok? && s.applied == |es| && s.index == Override(index, es)
            && (forall p :: p in Snapshot(h, src) ==> p in src && Synced(src, s.tree, p) && p in s.index && s.index[p] == Snapshot(h, src)[p])
            && (forall p :: p !in Snapshot(h, src) ==> SameAt(t, s.tree, p))
  {
    ReachesMidway(h, id, u, src, t, index, es, source, |es|);
    var s := PassOver(h, id, t, index, es, source, |es|);
    var m := Snapshot(h, src);
    SnapshotKeys(h, id, u, src);
    ListingIsDistinct(es, m);
    assert es[..|es|] == es;
    hide PassOver, Snapshot, QuietSource, Override, Unedited, ServedBy, RoomAlong, Less, Synced, SameAt, Applied;
    forall p | p in m ensures p in src && Synced(src, s.tree, p) && p in s.index && s.index[p] == m[p] {
      var i :| 0 <= i < |es| && es[i] == m[p];
      assert es[i].path == p;
      OverrideDistinct(index, es, i);
    }
    forall p | p !in m ensures SameAt(t, s.tree, p) {
      forall i | 0 <= i < |es| ensures es[i].path != p {
        assert es[i].path in m;
      }
    }
  }

  lemma {:induction false} SuccessHadRoom(h: Hasher, id: string, t: Tree, index: Index, es: seq<Entry>, source: Source, k: nat)
    requires WellFormed(t) && WithinLimits(index) && k <= |es| && PassOver(h, id, t, index, es, source, k).result.Ok?
    ensures PassOver(h, id, t, index, es, source, k).index == Override(index, es[..k])
    ensures RoomAlong(index, es[..k])
  {
    hide Applied, WithinLimits, WellFormed;
    if k > 0 {
      var s := PassOver(h, id, t, index, es, source, k - 1);
      SuccessHadRoom(h, id, t, index, es, source, k - 1);
      PassWellFormed(h, id, t, index, es, source, k - 1);
      SuccessIsExact(h, id, s.tree, s.index, es[k - 1], source(k - 1));
      assert es[..k][..k - 1] == es[..k - 1];
      forall j | 0 <= j <= k ensures WithinLimits(Override(index, es[..k][..j])) {
        if j < k {
          assert es[..k][..j] == es[..k - 1][..j];
        } else {
          assert es[..k][..k] == es[..k];
        }
      }
    }
  }

  /** The budget decides exactly: over a quiet source and without local edits, a pass succeeds if and only
      if every part of the list can be committed over the old rows. */
  lemma RoomDecides(h: Hasher, id: string, u: set<Bytes>, src: Tree, t: Tree, index: Index, es: seq<Entry>, source: Source)
    requires Unhindered(h, id, u, src, t, index, es, source) && WithinLimits(index)
    ensures PassOver(h, id, t, index, es, source, |es|).result.Ok? <==> RoomAlong(index, es)
  {
    hide PassOver, QuietSource, RoomAlong, ServedBy, Unedited, Listing, WithinLimits;
    if RoomAlong(index, es) {
      OnePassConverges(h, id, u, src, t, index, es, source);
    }
    if PassOver(h, id, t, index, es, source, |es|).result.Ok? {
      SuccessHadRoom(h, id, t, index, es, source, |es|);
      assert es[..|es|] == es;
    }
  }

  /** The bytes of the first k listed files whose blocks are not among those of the file at their path. */
  function SumFresh(h: Hasher, t: Tree, es: seq<Entry>, k: nat): int
    requires k <= |es|
  {
    if k == 0 then 0
    else
      var e := es[k - 1];
      SumFresh(h, t, es, k - 1)
      + if e.kind == "file" then FreshBytes(e.blocks, BlockMap(OldBlocks(h, CurrentContent(t, e.path))), |e.blocks|) else 0
  }

  lemma DirectoryReceivesNothing(h: Hasher, id: string, t: Tree, index: Index, e: Entry, fetch: Replies)
    requires e.kind == "directory" && Applied(h, id, t, index, e, fetch).result.Ok?
    ensures Applied(h, id, t, index, e, fetch).result.value.received == 0
  {
    hide WithParents, MarkerOk, ComponentsOk, ValidEntry, Fits;
  }

  /** Turn k of the pass receives exactly the fresh bytes of entry k. */
  lemma TurnReceivesFresh(h: Hasher, id: string, u: set<Bytes>, src: Tree, t: Tree, index: Index, es: seq<Entry>,
                          source: Source, k: nat)
    requires Ready(h, id, u, src, t, index, es, source) && k < |es|
    ensures var r := Turn(h, id, t, index, es, source, k).result;
            && r.Ok?
            && r.value.received == SumFresh(h, t, es, k + 1) - SumFresh(h, t, es, k)
  {
    hide Applied, FreshBytes, BlockMap, OldBlocks, WellFormed, MarkerOk, RoomAlong, ServedBy, Covers, Synced, Less;
    ReachesMidway(h, id, u, src, t, index, es, source, k);
    ReachesMidway(h, id, u, src, t, index, es, source, k + 1);
    ListingIsDistinct(es, Snapshot(h, src));
    var s := PassOver(h, id, t, index, es, source, k);
    var e := es[k];
    assert SameAt(t, s.tree, e.path);
    if e.kind == "file" {
      ListedFile(h, id, u, src, es, k);
      hide PassOver, QuietSource, Listing, Snapshot;
      ReceivedIsFresh(h, id, s.tree, s.index, e, source(k), u, src[e.path].content);
    } else {
      ListedKind(h, id, u, src, es, k);
      DirectoryReceivesNothing(h, id, s.tree, s.index, e, source(k));
    }
  }

  lemma ListedFile(h: Hasher, id: string, u: set<Bytes>, src: Tree, es: seq<Entry>, k: nat)
    requires QuietSource(h, id, u, src) && Listing(es, Snapshot(h, src)) && k < |es| && es[k].kind == "file"
    ensures var e := es[k];
            && e.path in src && src[e.path].File? && e == Fingerprint(h, e.path, src[e.path].content, e.mode)
            && Covers(u, src[e.path].content) && InjectiveOn(h, u)
  {
    hide Less, Covers, ValidEntry, SliceBlocks, Shown, WellFormed, MarkerOk, InjectiveOn, HexHasher;
    ListedEntry(h, id, u, src, es[k].path);
    FileEntryKind(h, src, es[k].path);
  }

  lemma ListedKind(h: Hasher, id: string, u: set<Bytes>, src: Tree, es: seq<Entry>, k: nat)
    requires QuietSource(h, id, u, src) && Listing(es, Snapshot(h, src)) && k < |es|
    ensures es[k].kind == "file" || es[k].kind == "directory"
  {
    hide Less, ValidPath, ValidLayout, Shown, WellFormed, MarkerOk, InjectiveOn, HexHasher, Snapshot, ScanEntry;
    ListedEntry(h, id, u, src, es[k].path);
  }

  /** A converging pass transfers exactly what is new, file by file: the blocks of the list whose hash no
      block of the receiver's file at that path has. */
  lemma {:induction false} PassReceivesFresh(h: Hasher, id: string, u: set<Bytes>, src: Tree, t: Tree, index: Index, es: seq<Entry>,
                                             source: Source, k: nat)
    requires Ready(h, id, u, src, t, index, es, source) && k <= |es|
    ensures PassOver(h, id, t, index, es, source, k).result.Ok?
    ensures PassOver(h, id, t, index, es, source, k).result.value.received == SumFresh(h, t, es, k)
  {
    hide Ready, Applied, SumFresh, Midway;
    ReachesMidway(h, id, u, src, t, index, es, source, k);
    assert PassOver(h, id, t, index, es, source, k).result.Ok? by { MidwayOk(h, src, t, index, es, PassOver(h, id, t, index, es, source, k), k); }
    if k > 0 {
      PassReceivesFresh(h, id, u, src, t, index, es, source, k - 1);
      TurnReceivesFresh(h, id, u, src, t, index, es, source, k - 1);
    } else {
      assert SumFresh(h, t, es, 0) == 0 by { NothingFreshYet(h, t, es); }
    }
  }

  lemma MidwayOk(h: Hasher, src: Tree, t: Tree, index: Index, es: seq<Entry>, s: Pass, k: nat)
    requires Midway(h, src, t, index, es, s, k)
    ensures s.result.Ok?
  {
    hide Override, Synced, SameAt;
  }

  lemma NothingFreshYet(h: Hasher, t: Tree, es: seq<Entry>)
    ensures SumFresh(h, t, es, 0) == 0
  {}

  /** Sorting any arrangement of a listing gives the listing. */
  lemma {:induction false} SortedIsUnique(a: seq<Entry>, b: seq<Entry>)
    requires SortedByPath(a) && multiset(a) == multiset(b)
    requires forall i, j :: 0 <= i < j < |b| ==> Less(b[i].path, b[j].path)
    ensures a == b
  {
    hide Less, SortedByPath;
    SameLength(a, b);
    if a != [] {
      SameHead(a, b);
      SameTail(a, b);
      SortedTail(a);
      SortedIsUnique(a[1..], b[1..]);
      assert a == [a[0]] + a[1..] && b == [b[0]] + b[1..];
    }
  }

  lemma SameLength(a: seq<Entry>, b: seq<Entry>)
    requires multiset(a) == multiset(b)
    ensures |a| == |b|
  {
    assert |multiset(a)| == |a| && |multiset(b)| == |b|;
  }

  lemma SortedTail(a: seq<Entry>)
    requires a != [] && SortedByPath(a)
    ensures SortedByPath(a[1..])
  {
    hide Less;
  }

  lemma SameTail(a: seq<Entry>, b: seq<Entry>)
    requires a != [] && b != [] && a[0] == b[0] && multiset(a) == multiset(b)
    ensures multiset(a[1..]) == multiset(b[1..])
  {
    assert a == [a[0]] + a[1..] && b == [b[0]] + b[1..];
    assert multiset(a) == multiset{a[0]} + multiset(a[1..]);
    assert multiset(b) == multiset{b[0]} + multiset(b[1..]);
    assert multiset(a[1..]) == multiset(a) - multiset{a[0]};
  }

  lemma SameHead(a: seq<Entry>, b: seq<Entry>)
    requires a != [] && b != [] && SortedByPath(a) && multiset(a) == multiset(b)
    requires forall i, j :: 0 <= i < j < |b| ==> Less(b[i].path, b[j].path)
    ensures a[0] == b[0]
  {
    hide Less;
    assert a[0] in multiset(b) && b[0] in multiset(a);
    var i :| 0 <= i < |b| && b[i] == a[0];
    var j :| 0 <= j < |a| && a[j] == b[0];
    assert a[0].path == a[j].path || Less(a[0].path, a[j].path);
    assert i > 0 ==> Less(b[0].path, b[i].path);
    LessTotal(b[0].path, a[0].path);
  }

  lemma SortOfListing(listed: seq<Entry>, es: seq<Entry>, m: Index)
    requires Listing(es, m) && multiset(listed) == multiset(es)
    ensures SortByPath(listed) == es
  {
    hide SortByPath;
    SortSorts(listed);
    SortedIsUnique(SortByPath(listed), es);
  }

  /** So the program converges: replicate's loop over a quiet source, in whatever order the list comes,
      applies everything and leaves the receiver with the source's files and index. */
  method ReplicateQuiet(s: FolderStore, listed: seq<Entry>, source: Source, nonces: nat -> string,
                        ghost u: set<Bytes>, ghost src: Tree, ghost es: seq<Entry>)
    returns (applied: nat, r: Result<Stats, Error>)
    requires s.Valid() && NoTemps(s.tree, nonces) && multiset(listed) == multiset(es)
    requires Ready(s.h, s.id, u, src, s.tree, s.FolderIndex(), es, source)
    modifies s`tree, s.db
    ensures s.Valid() && r.Ok? && applied == |listed|
    ensures r.value.received == SumFresh(s.h, old(s.tree), es, |es|)
    ensures r.value.received + r.value.reused == SumSizes(es)
    ensures s.FolderIndex() == Override(old(s.FolderIndex()), es)
    ensures forall p :: p in Snapshot(s.h, src) ==> p in src && Synced(src, s.tree, p)
    ensures forall p :: p !in Snapshot(s.h, src) ==> SameAt(old(s.tree), s.tree, p)
    ensures OthersUnchanged(old(s.db.State()), s.db.State(), s.id)
  {
    hide PassOver, Snapshot, QuietSource, Override, Unedited, ServedBy, RoomAlong, Listing, NoTemps, Rows, OthersUnchanged,
      SortByPath, Synced, SameAt, Consistent, ValidDb, WellFormed;
    SortOfListing(listed, es, Snapshot(s.h, src)) by { assert Ready(s.h, s.id, u, src, s.tree, s.FolderIndex(), es, source); }
    OnePassConverges(s.h, s.id, u, src, s.tree, s.FolderIndex(), es, source);
    PassReceivesFresh(s.h, s.id, u, src, s.tree, s.FolderIndex(), es, source, |es|);
    hide Ready, SumFresh, SumSizes;
    assert |listed| == |es| by { assert |multiset(listed)| == |multiset(es)|; }
    SortKeepsSizes(listed);
    applied, r := ReplicateFolder(s, listed, source, nonces);
  }

  /** A synced entry with its own row in the index is applied without effect and without a fetch:
      whatever the peer would answer. */
  lemma SyncedEntryIsSilent(h: Hasher, id: string, u: set<Bytes>, src: Tree, t: Tree, index: Index, p: string, fetch: Replies)
    requires QuietSource(h, id, u, src) && p in Snapshot(h, src) && p in src && Synced(src, t, p)
    requires MarkerOk(t, id) && WithinLimits(index) && p in index && index[p] == Snapshot(h, src)[p]
    requires forall a :: IsAncestor(a, p) ==> a in t && t[a].Dir?
    ensures var o := Applied(h, id, t, index, Snapshot(h, src)[p], fetch);
            && o.tree == t && o.index == index && o.result.Ok?
            && o.result.value.received == 0 && o.result.value.files == 0
  {
    var e := Snapshot(h, src)[p];
    ListedEntry(h, id, u, src, p);
    assert index[p := e] == index;
    assert WithParents(t, p) == t;
    if src[p].File? {
      hide Snapshot, QuietSource, SliceBlocks, WithinLimits, ValidPath, WithParents, ValidLayout, MarkerOk, Applied, ComponentsOk;
      SilentFile(h, id, t, index, e, fetch);
    } else {
      hide *;
      assert e.kind == "directory" by { DirectoryEntry(h, src, p); }
      SilentDirectory(h, id, t, index, e, fetch) by {
        assert t[p].Dir? by { SyncedDirectory(src, t, p); }
      }
    }
  }

  lemma SilentFile(h: Hasher, id: string, t: Tree, index: Index, e: Entry, fetch: Replies)
    requires e.path in t && t[e.path].File? && |t[e.path].content| <= MAX_FILE_SIZE && t[e.path].mode == e.mode
    requires Fingerprint(h, e.path, t[e.path].content, e.mode) == e && ValidEntry(e)
    requires WithinLimits(index) && index[e.path := e] == index && MarkerOk(t, id)
    requires forall a :: IsAncestor(a, e.path) ==> a in t && t[a].Dir?
    ensures Applied(h, id, t, index, e, fetch) == Outcome(t, index, Ok(Stats(0, 0, e.size)))
  {
    hide SliceBlocks, WithinLimits, ValidPath, WithParents, ValidLayout, MarkerOk, AssembleAll;
    assert ComponentsOk(t, e.path, true);
    assert t[e.path := File(t[e.path].content, e.mode)] == t;
  }

  lemma SyncedDirectory(src: Tree, t: Tree, p: string)
    requires p in src && !src[p].File? && Synced(src, t, p)
    ensures p in t && t[p].Dir?
  {}

  lemma SilentDirectory(h: Hasher, id: string, t: Tree, index: Index, e: Entry, fetch: Replies)
    requires e.kind == "directory" && ValidEntry(e) && WithinLimits(index)
    requires e.path in t && t[e.path].Dir? && index[e.path := e] == index && MarkerOk(t, id)
    requires forall a :: IsAncestor(a, e.path) ==> a in t && t[a].Dir?
    ensures Applied(h, id, t, index, e, fetch) == Outcome(t, index, Ok(Stats(0, 0, 0)))
  {
    hide WithinLimits, ValidPath, MarkerOk;
    assert ComponentsOk(t, e.path, true);
  }

  /** Receiver and index agree with the snapshot wherever the snapshot has a row. */
  ghost predicate Converged(h: Hasher, id: string, src: Tree, t: Tree, index: Index) {
    && MarkerOk(t, id) && WellFormed(t) && WithinLimits(index)
    && forall p :: p in Snapshot(h, src) ==> p in src && Synced(src, t, p) && p in index && index[p] == Snapshot(h, src)[p]
  }

  lemma ListedEntryIsSilent(h: Hasher, id: string, u: set<Bytes>, src: Tree, t: Tree, index: Index,
                            es: seq<Entry>, i: nat, fetch: Replies)
    requires QuietSource(h, id, u, src) && Listing(es, Snapshot(h, src)) && i < |es| && Converged(h, id, src, t, index)
    ensures var o := Applied(h, id, t, index, es[i], fetch);
            && o.tree == t && o.index == index && o.result.Ok?
            && o.result.value.received == 0 && o.result.value.files == 0
  {
    hide QuietSource, Snapshot, Synced, Applied, Less, MarkerOk, WithinLimits;
    var p := es[i].path;
    SyncedPresent(src, t, p);
    SyncedEntryIsSilent(h, id, u, src, t, index, p, fetch);
  }

  /** After convergence the next pass changes nothing and receives nothing, with any peer. */
  lemma {:induction false} NextPassIsSilent(h: Hasher, id: string, u: set<Bytes>, src: Tree, t: Tree, index: Index,
                                            es: seq<Entry>, source: Source, k: nat)
    requires QuietSource(h, id, u, src) && Listing(es, Snapshot(h, src)) && k <= |es| && Converged(h, id, src, t, index)
    ensures var s := PassOver(h, id, t, index, es, source, k);
            && s.tree == t && s.index == index && s.result.Ok?
            && s.result.value.received == 0 && s.result.value.files == 0
  {
    hide QuietSource, Snapshot, Listing, Converged, Applied;
    if k > 0 {
      NextPassIsSilent(h, id, u, src, t, index, es, source, k - 1);
      ListedEntryIsSilent(h, id, u, src, t, index, es, k - 1, source(k - 1));
    }
  }

  /** The state that one pass reaches is converged, so two passes are one. */
  lemma SecondPassIsSilent(h: Hasher, id: string, u: set<Bytes>, src: Tree, t: Tree, index: Index,
                           es: seq<Entry>, source: Source, later: Source)
    requires Ready(h, id, u, src, t, index, es, source)
    ensures var s := PassOver(h, id, t, index, es, source, |es|);
            var s' := PassOver(h, id, s.tree, s.index, es, later, |es|);
            && s'.tree == s.tree && s'.index == s.index && s'.result.Ok?
            && s'.result.value.received == 0 && s'.result.value.files == 0
  {
    hide PassOver, QuietSource, Snapshot, Synced, Listing, WellFormed, WithinLimits, MarkerOk, Unedited, ServedBy, RoomAlong;
    var s := PassOver(h, id, t, index, es, source, |es|);
    OnePassConverges(h, id, u, src, t, index, es, source);
    ReachesMidway(h, id, u, src, t, index, es, source, |es|);
    PassKeepsFolder(h, id, u, src, t, index, es, source, s);
    NextPassIsSilent(h, id, u, src, s.tree, s.index, es, later, |es|);
  }

  lemma PassKeepsFolder(h: Hasher, id: string, u: set<Bytes>, src: Tree, t: Tree, index: Index,
                        es: seq<Entry>, source: Source, s: Pass)
    requires Ready(h, id, u, src, t, index, es, source) && s == PassOver(h, id, t, index, es, source, |es|)
    requires Midway(h, src, t, index, es, s, |es|)
    ensures WellFormed(s.tree) && MarkerOk(s.tree, id) && WithinLimits(s.index)
  {
    hide Snapshot, Unedited, Covers, Synced, ServedBy, Listing, WithinLimits, MarkerOk, WellFormed, PassOver, Override;
    PassWellFormed(h, id, t, index, es, source, |es|);
    MarkerKept(h, id, src, t, index, es, s, |es|);
    assert es[..|es|] == es && WithinLimits(Override(index, es[..|es|]));
  }

  lemma {:induction false} PassWellFormed(h: Hasher, id: string, t: Tree, index: Index, es: seq<Entry>, source: Source, k: nat)
    requires WellFormed(t) && k <= |es|
    ensures WellFormed(PassOver(h, id, t, index, es, source, k).tree)
  {
    hide WellFormed, Applied;
    if k > 0 {
      PassWellFormed(h, id, t, index, es, source, k - 1);
      var s := PassOver(h, id, t, index, es, source, k - 1);
      KeepsWellFormed(h, id, s.tree, s.index, es[k - 1], source(k - 1));
    }
  }

  lemma SyncedPresent(src: Tree, t: Tree, p: string)
    requires p in src && Synced(src, t, p)
    ensures p in t
  {}
}
