/** Replication over the life of a source: version after version is scanned and passed on, and the
    receiver follows (internal/daemon/daemon.go:253-300). */
module Versions {
  import opened Model
  import opened Paths
  import opened Tree
  import opened Layout
  import opened Index
  import opened Assembly
  import opened Scan
  import opened Replicate
  import opened Convergence

  /** Disk and index of a receiver agree: every row describes what is there, and nothing else is there
      under an admissible name. */
  ghost predicate InStep(h: Hasher, u: set<Bytes>, t: Tree, index: Index) {
    && (forall p :: p in index ==> Agrees(h, u, t, index[p], p))
    && (forall p :: p in t && ValidPath(p) ==> p in index)
  }

  ghost predicate Agrees(h: Hasher, u: set<Bytes>, t: Tree, e: Entry, p: string) {
    && p in t
    && if e.kind == "directory" then t[p].Dir?
       else e.kind == "file" && t[p].File? && |t[p].content| <= MAX_FILE_SIZE && Covers(u, t[p].content)
            && e.hash == h(t[p].content)
  }

  ghost predicate KindsKept(index: Index, m: Index) {
    forall p :: p in index && p in m ==> index[p].kind == m[p].kind
  }

  /** A version of the source while it is quiet: its tree, its list, and its answers. */
  datatype Version = Version(tree: Tree, listed: seq<Entry>, source: Source)

  ghost predicate Offered(h: Hasher, id: string, u: set<Bytes>, v: Version) {
    && QuietSource(h, id, u, v.tree) && Listing(v.listed, Snapshot(h, v.tree))
    && forall i: nat :: i < |v.listed| ==> ServedBy(h, id, v.tree, v.listed[i], v.source(i))
  }

  /** A receiver that is in step is ready for any version that fits and changes no path's kind. */
  lemma InStepIsReady(h: Hasher, id: string, u: set<Bytes>, t: Tree, index: Index, v: Version)
    requires WellFormed(t) && MarkerOk(t, id) && InStep(h, u, t, index) && Offered(h, id, u, v)
    requires RoomAlong(index, v.listed) && KindsKept(index, Snapshot(h, v.tree))
    ensures Ready(h, id, u, v.tree, t, index, v.listed, v.source)
  {
    hide WellFormed, MarkerOk, RoomAlong, Less, ServedBy, Covers;
    forall i: nat | i < |v.listed| ensures Unedited(h, u, t, index, v.listed[i]) {
      RowIsUnedited(h, id, u, t, index, v, i);
    }
  }

  lemma RowIsUnedited(h: Hasher, id: string, u: set<Bytes>, t: Tree, index: Index, v: Version, i: nat)
    requires InStep(h, u, t, index) && KindsKept(index, Snapshot(h, v.tree))
    requires QuietSource(h, id, u, v.tree) && Listing(v.listed, Snapshot(h, v.tree)) && i < |v.listed|
    ensures Unedited(h, u, t, index, v.listed[i])
  {
    hide Less, Covers, Snapshot, WellFormed, MarkerOk, ScanEntry, ValidPath;
    var p := v.listed[i].path;
    ListedEntry(h, id, u, v.tree, p);
    EntryPathIsValid(v.listed[i]);
  }

  lemma EntryPathIsValid(e: Entry)
    requires ValidEntry(e)
    ensures ValidPath(e.path) && (e.kind == "file" || e.kind == "directory")
  {
    hide ValidPath, ValidLayout;
  }

  /** After the pass the receiver is in step again. */
  lemma PassKeepsInStep(h: Hasher, id: string, u: set<Bytes>, t: Tree, index: Index, v: Version)
    requires WellFormed(t) && MarkerOk(t, id) && InStep(h, u, t, index)
    requires Ready(h, id, u, v.tree, t, index, v.listed, v.source)
    ensures var s := PassOver(h, id, t, index, v.listed, v.source, |v.listed|);
            WellFormed(s.tree) && MarkerOk(s.tree, id) && InStep(h, u, s.tree, s.index)
  {
    hide WellFormed, MarkerOk, PassOver, Snapshot, Agrees, Synced, QuietSource, RoomAlong, ServedBy, Unedited, Listing, ValidPath;
    var s := PassOver(h, id, t, index, v.listed, v.source, |v.listed|);
    var m := Snapshot(h, v.tree);
    OnePassConverges(h, id, u, v.tree, t, index, v.listed, v.source);
    ReachesMidway(h, id, u, v.tree, t, index, v.listed, v.source, |v.listed|);
    PassKeepsFolder(h, id, u, v.tree, t, index, v.listed, v.source, s);
    hide Ready, Midway;
    forall p | p in s.index ensures Agrees(h, u, s.tree, s.index[p], p) {
      if p in m {
        SyncedAgrees(h, id, u, v.tree, s.tree, p);
      } else {
        OldRowStays(index, v.listed, m, p);
        AgreesStays(h, u, t, s.tree, index[p], p);
      }
    }
    forall p | p in s.tree && ValidPath(p) ensures p in s.index {
      if p !in m {
        assert p in t;
        OldRowStays(index, v.listed, m, p);
      }
    }
  }

  lemma SyncedAgrees(h: Hasher, id: string, u: set<Bytes>, src: Tree, t: Tree, p: string)
    requires QuietSource(h, id, u, src) && p in Snapshot(h, src) && p in src && Synced(src, t, p)
    ensures Agrees(h, u, t, Snapshot(h, src)[p], p)
  {
    hide Covers, Snapshot, WellFormed, MarkerOk, ValidEntry, SliceBlocks, ComponentsOk;
    ListedEntry(h, id, u, src, p);
  }

  lemma AgreesStays(h: Hasher, u: set<Bytes>, t: Tree, t': Tree, e: Entry, p: string)
    requires Agrees(h, u, t, e, p) && SameAt(t, t', p)
    ensures Agrees(h, u, t', e, p)
  {
    hide Covers;
  }

  /** Rows that the list does not name stay in the index. */
  lemma OldRowStays(index: Index, es: seq<Entry>, m: Index, p: string)
    requires Listing(es, m) && p !in m
    ensures p in Override(index, es) <==> p in index
    ensures p in index ==> Override(index, es)[p] == index[p]
  {
    hide Less, Override;
    OverrideKeys(index, es);
    forall i | 0 <= i < |es| ensures es[i].path != p {
      assert es[i].path in m;
    }
  }

  /** The receiver after a pass over each of the versions. */
  ghost function Follow(h: Hasher, id: string, t: Tree, index: Index, vs: seq<Version>): (Tree, Index) {
    if vs == [] then (t, index)
    else
      var r := Follow(h, id, t, index, vs[..|vs| - 1]);
      var v := vs[|vs| - 1];
      var s := PassOver(h, id, r.0, r.1, v.listed, v.source, |v.listed|);
      (s.tree, s.index)
  }

  /** Each version fits beside what the receiver has by then, and changes no path's kind. */
  ghost predicate Followable(h: Hasher, id: string, u: set<Bytes>, t: Tree, index: Index, vs: seq<Version>) {
    vs != [] ==>
      var r := Follow(h, id, t, index, vs[..|vs| - 1]);
      var v := vs[|vs| - 1];
      && Followable(h, id, u, t, index, vs[..|vs| - 1])
      && Offered(h, id, u, v)
      && RoomAlong(r.1, v.listed) && KindsKept(r.1, Snapshot(h, v.tree))
  }

  lemma {:induction false} FollowKeepsInStep(h: Hasher, id: string, u: set<Bytes>, t: Tree, index: Index, vs: seq<Version>)
    requires WellFormed(t) && MarkerOk(t, id) && InStep(h, u, t, index) && Followable(h, id, u, t, index, vs)
    ensures var r := Follow(h, id, t, index, vs);
            WellFormed(r.0) && MarkerOk(r.0, id) && InStep(h, u, r.0, r.1)
  {
    hide WellFormed, MarkerOk, InStep, PassOver, Snapshot, RoomAlong, KindsKept, Offered, Ready;
    if vs != [] {
      var init := vs[..|vs| - 1];
      var v := vs[|vs| - 1];
      FollowKeepsInStep(h, id, u, t, index, init);
      var r := Follow(h, id, t, index, init);
      InStepIsReady(h, id, u, r.0, r.1, v);
      PassKeepsInStep(h, id, u, r.0, r.1, v);
    }
  }

  /** Convergence over any history: a receiver that starts in step and is not edited reaches every version
      in turn, whatever was added, changed, dropped and brought back before. */
  lemma EveryVersionIsReached(h: Hasher, id: string, u: set<Bytes>, t: Tree, index: Index, vs: seq<Version>, k: nat)
    requires WellFormed(t) && MarkerOk(t, id) && InStep(h, u, t, index)
    requires k < |vs| && Followable(h, id, u, t, index, vs[..k + 1])
    ensures var before := Follow(h, id, t, index, vs[..k]);
            var after := Follow(h, id, t, index, vs[..k + 1]);
            var m := Snapshot(h, vs[k].tree);
            && PassOver(h, id, before.0, before.1, vs[k].listed, vs[k].source, |vs[k].listed|).result.Ok?
            && (forall p :: p in m ==> p in vs[k].tree && Synced(vs[k].tree, after.0, p) && p in after.1 && after.1[p] == m[p])
            && (forall p :: p !in m ==> SameAt(before.0, after.0, p))
            && InStep(h, u, after.0, after.1)
  {
    hide WellFormed, MarkerOk, InStep, PassOver, Snapshot, RoomAlong, KindsKept, Offered, Ready, Synced;
    assert vs[..k + 1][..k] == vs[..k];
    FollowKeepsInStep(h, id, u, t, index, vs[..k]);
    FollowKeepsInStep(h, id, u, t, index, vs[..k + 1]);
    var r := Follow(h, id, t, index, vs[..k]);
    InStepIsReady(h, id, u, r.0, r.1, vs[k]);
    OnePassConverges(h, id, u, vs[k].tree, r.0, r.1, vs[k].listed, vs[k].source);
  }

  /** A folder that holds nothing but its marker is in step with an empty index. */
  lemma NewFolderIsInStep(h: Hasher, id: string, u: set<Bytes>)
    ensures var t := map[MARKER_NAME := File(id + "\n", 0x180)];
            WellFormed(t) && MarkerOk(t, id) && InStep(h, u, t, map[])
  {
    hide ValidPath;
    MarkerNotValid();
  }
}
