/** What a scan of a tree records (internal/store/scan.go:26-71). */
module Scan {
  import opened Model
  import opened Paths
  import opened Tree
  import opened Layout
  import opened Json
  import opened Index

  function BaseName(p: string): string {
    p[DirLength(p)..]
  }

  predicate ReservedBase(p: string) {
    ReservedName(BaseName(p))
  }

  /** The names the walk hands to its callback: it descends into every directory whose own name is
      not reserved. */
  predicate Visited(t: Tree, p: string) {
    p in t && forall a :: a in Ancestors(p) ==> !ReservedBase(a)
  }

  /** The visited names that are not skipped. */
  predicate Shown(t: Tree, p: string) {
    Visited(t, p) && !ReservedBase(p)
  }

  /** The callback's verdict on a name that is not skipped. */
  predicate Scannable(t: Tree, p: string) {
    ComponentsOk(t, p, false) && (t[p].File? ==> |t[p].content| <= MAX_FILE_SIZE)
  }

  function Perm(mode: nat): nat {
    mode % 0x200
  }

  function ScanEntry(h: Hasher, t: Tree, p: string): Entry
    requires p in t
  {
    if t[p].File? then Fingerprint(h, p, t[p].content, Perm(t[p].mode))
    else Entry(p, "directory", 0, Perm(if t[p].Dir? then t[p].mode else 0), "", [])
  }

  ghost predicate AllScannable(t: Tree) {
    forall p :: Shown(t, p) ==> Scannable(t, p)
  }

  /** The snapshot: one row for every visible object. */
  ghost function Snapshot(h: Hasher, t: Tree): (m: Index)
    ensures forall p :: p in m <==> Shown(t, p)
    ensures forall p :: p in m ==> p in t && m[p] == ScanEntry(h, t, p)
  {
    map p | p in t && Shown(t, p) :: ScanEntry(h, t, p)
  }

  /** names is a complete walk of t without repetition, as fs.WalkDir promises. */
  ghost predicate IsWalk(t: Tree, names: seq<string>) {
    && (forall i, j :: 0 <= i < j < |names| ==> names[i] != names[j])
    && (forall i :: 0 <= i < |names| ==> names[i] in t && Visited(t, names[i]))
    && (forall p :: Visited(t, p) ==> p in names)
  }

  /** The entries recorded for a part of the walk. */
  ghost function Recorded(h: Hasher, t: Tree, names: seq<string>): (es: seq<Entry>)
    requires forall i :: 0 <= i < |names| ==> names[i] in t
  {
    if names == [] then []
    else
      var last := names[|names| - 1];
      var es := Recorded(h, t, names[..|names| - 1]);
      if ReservedBase(last) then es else es + [ScanEntry(h, t, last)]
  }

  lemma {:induction false} RecordedPaths(h: Hasher, t: Tree, names: seq<string>)
    requires forall i :: 0 <= i < |names| ==> names[i] in t
    requires forall i, j :: 0 <= i < j < |names| ==> names[i] != names[j]
    ensures forall k :: 0 <= k < |Recorded(h, t, names)| ==>
              Recorded(h, t, names)[k].path in names && !ReservedBase(Recorded(h, t, names)[k].path)
              && Recorded(h, t, names)[k] == ScanEntry(h, t, Recorded(h, t, names)[k].path)
    ensures forall i :: 0 <= i < |names| && !ReservedBase(names[i]) ==> ScanEntry(h, t, names[i]) in Recorded(h, t, names)
    ensures DistinctPaths(Recorded(h, t, names))
  {
    hide ReservedBase, Fingerprint;
    if names != [] {
      var n := |names| - 1;
      var init := names[..n];
      assert forall i :: 0 <= i < |init| ==> init[i] == names[i];
      RecordedPaths(h, t, init);
      var es := Recorded(h, t, init);
      var es' := Recorded(h, t, names);
      assert ScanEntry(h, t, names[n]).path == names[n] by { EntryPath(h, t, names[n]); }
      forall k | 0 <= k < |es'|
        ensures es'[k].path in names && !ReservedBase(es'[k].path) && es'[k] == ScanEntry(h, t, es'[k].path)
      {
        if k < |es| {
          assert es'[k] == es[k];
        }
      }
      forall i | 0 <= i < |names| && !ReservedBase(names[i]) ensures ScanEntry(h, t, names[i]) in es' {
        if i < n {
          assert names[i] == init[i] && ScanEntry(h, t, init[i]) in es;
        } else {
          assert es'[|es|] == ScanEntry(h, t, names[n]);
        }
      }
      forall i, j | 0 <= i < j < |es'| ensures es'[i].path != es'[j].path {
        if j < |es| {
          assert es'[i] == es[i] && es'[j] == es[j];
        } else {
          assert es'[i] == es[i] && es[i].path in init;
        }
      }
    }
  }

  lemma EntryPath(h: Hasher, t: Tree, p: string)
    requires p in t
    ensures ScanEntry(h, t, p).path == p
  {}

  /** A recorded entry is a row of the snapshot, ... */
  lemma RowIsShown(h: Hasher, t: Tree, names: seq<string>, k: nat)
    requires IsWalk(t, names)
    requires forall i :: 0 <= i < |names| ==> names[i] in t
    requires k < |Recorded(h, t, names)|
    ensures var e := Recorded(h, t, names)[k]; e.path in t && Shown(t, e.path) && e == ScanEntry(h, t, e.path)
  {
    hide ReservedBase, ScanEntry, Visited, Recorded;
    RecordedPaths(h, t, names);
  }

  /** ... and a visible object has its entry recorded. */
  lemma ShownIsRow(h: Hasher, t: Tree, names: seq<string>, p: string) returns (k: nat)
    requires IsWalk(t, names) && Shown(t, p)
    requires forall i :: 0 <= i < |names| ==> names[i] in t
    ensures k < |Recorded(h, t, names)| && Recorded(h, t, names)[k] == ScanEntry(h, t, p) && ScanEntry(h, t, p).path == p
  {
    hide ReservedBase, ScanEntry, Visited, Recorded;
    RecordedPaths(h, t, names);
    assert p in names;
    var i :| 0 <= i < |names| && names[i] == p;
    assert ScanEntry(h, t, names[i]) in Recorded(h, t, names);
    k :| 0 <= k < |Recorded(h, t, names)| && Recorded(h, t, names)[k] == ScanEntry(h, t, p);
    EntryPath(h, t, p);
  }

  /** The entries of a complete walk, put into an empty index, are the snapshot. */
  lemma WalkGivesSnapshot(h: Hasher, t: Tree, names: seq<string>)
    requires IsWalk(t, names)
    ensures Override(map[], Recorded(h, t, names)) == Snapshot(h, t)
    ensures DistinctPaths(Recorded(h, t, names))
  {
    hide ScanEntry, Override, Shown, Recorded;
    var es := Recorded(h, t, names);
    RecordedPaths(h, t, names);
    hide IsWalk;
    OverrideKeys(map[], es);
    var m := Override(map[], es);
    var s := Snapshot(h, t);
    forall p ensures (p in m <==> p in s) && (p in m ==> m[p] == s[p]) {
      if p in m {
        var k :| 0 <= k < |es| && es[k].path == p && m[p] == es[k];
        RowIsShown(h, t, names, k);
      }
      if Shown(t, p) {
        var k := ShownIsRow(h, t, names, p);
        OverrideDistinct(map[], es, k);
      }
    }
  }

  /** The totals that the walk keeps for a list of entries are within the limits. */
  ghost predicate TotalsOk(es: seq<Entry>) {
    |es| <= MAX_ENTRIES && TotalBytes(es) <= MAX_MANIFEST_BYTES - 2
  }

  lemma TotalsAreLimits(es: seq<Entry>)
    requires DistinctPaths(es)
    ensures TotalsOk(es) <==> WithinLimits(Override(map[], es))
  {
    hide Override, TotalBytes, ManifestBytes;
    FillBytes(es);
  }

  lemma TotalsOfPrefix(part: seq<Entry>, es: seq<Entry>)
    requires part <= es && TotalsOk(es)
    ensures TotalsOk(part)
  {
    hide TotalBytes;
    TotalBytesPrefix(es, |part|);
    assert es[..|part|] == part;
  }

  /** The running totals of a walk exceed a limit only if the whole snapshot does: a part that is
      over the limit cannot come back under it. */
  lemma PartWithinLimits(h: Hasher, t: Tree, names: seq<string>, k: nat)
    requires IsWalk(t, names) && k <= |names|
    ensures WithinLimits(Snapshot(h, t)) ==> TotalsOk(Recorded(h, t, names[..k]))
    ensures WithinLimits(Snapshot(h, t)) <==> TotalsOk(Recorded(h, t, names))
  {
    WalkGivesSnapshot(h, t, names);
    RecordedPrefix(h, t, names, k);
    hide Recorded, Snapshot, IsWalk, Override, TotalsOk, WithinLimits, DistinctPaths;
    TotalsAreLimits(Recorded(h, t, names));
    if TotalsOk(Recorded(h, t, names)) {
      TotalsOfPrefix(Recorded(h, t, names[..k]), Recorded(h, t, names));
    }
  }

  lemma WalkNames(t: Tree, names: seq<string>)
    requires IsWalk(t, names)
    ensures forall i :: 0 <= i < |names| ==> names[i] in t
  {
    hide Visited;
  }

  lemma NothingRecorded(h: Hasher, t: Tree, names: seq<string>)
    ensures Recorded(h, t, names[..0]) == [] && TotalBytes([]) == 0
  {}

  lemma RecordedStep(h: Hasher, t: Tree, names: seq<string>, i: nat)
    requires i < |names| && forall j :: 0 <= j < |names| ==> names[j] in t
    ensures var es := Recorded(h, t, names[..i]);
            Recorded(h, t, names[..i + 1]) == if ReservedBase(names[i]) then es else es + [ScanEntry(h, t, names[i])]
    ensures var es := Recorded(h, t, names[..i]);
            TotalBytes(es + [ScanEntry(h, t, names[i])]) == TotalBytes(es) + ManifestLength(ScanEntry(h, t, names[i])) + 1
  {
    hide ReservedBase, ScanEntry, ManifestLength;
    assert names[..i + 1][..i] == names[..i];
    AppendBytes(Recorded(h, t, names[..i]), ScanEntry(h, t, names[i]));
  }

  /** An object that a scan must refuse keeps the tree from being scannable, ... */
  lemma WalkDecides(t: Tree, names: seq<string>, i: nat)
    requires IsWalk(t, names) && i < |names| && !ReservedBase(names[i])
    ensures AllScannable(t) ==> Scannable(t, names[i])
  {
    hide Visited, ReservedBase, Scannable;
  }

  /** ... and a complete walk without one shows that it is. */
  lemma WalkIsAll(t: Tree, names: seq<string>)
    requires IsWalk(t, names) && forall j :: 0 <= j < |names| && !ReservedBase(names[j]) ==> Scannable(t, names[j])
    ensures AllScannable(t)
  {
    hide Visited, ReservedBase, Scannable;
    forall p | Shown(t, p) ensures Scannable(t, p) {
      assert p in names;
    }
  }

  lemma {:induction false} RecordedPrefix(h: Hasher, t: Tree, names: seq<string>, k: nat)
    requires k <= |names| && forall i :: 0 <= i < |names| ==> names[i] in t
    ensures Recorded(h, t, names[..k]) <= Recorded(h, t, names)
  {
    hide ScanEntry, ReservedBase;
    if k < |names| {
      RecordedPrefix(h, t, names[..|names| - 1], k);
      assert names[..|names| - 1][..k] == names[..k];
    } else {
      assert names[..k] == names;
    }
  }

  /** Every ancestor of a recorded path is recorded, as a directory. */
  ghost predicate ParentClosed(m: Index) {
    forall p, a :: p in m && IsAncestor(a, p) ==> a in m && m[a].kind == "directory"
  }

  lemma SnapshotIsClosed(h: Hasher, t: Tree)
    requires WellFormed(t)
    ensures ParentClosed(Snapshot(h, t))
  {
    hide ReservedBase, Fingerprint;
    var m := Snapshot(h, t);
    forall p, a | p in m && IsAncestor(a, p) ensures a in m && m[a].kind == "directory" {
      forall b | b in Ancestors(a) ensures !ReservedBase(b) {
        AncestorTransitive(b, a, p);
        assert b in Ancestors(p);
      }
      assert a in Ancestors(p);
    }
  }

  /** Everything a successful scan records is acceptable to ValidateEntry. */
  lemma SnapshotIsValid(h: Hasher, t: Tree)
    requires HexHasher(h) && AllScannable(t)
    ensures ValidRows(Snapshot(h, t))
  {
    hide Shown, ValidEntry, Fingerprint, ComponentsOk;
    var m := Snapshot(h, t);
    forall p | p in m ensures m[p].path == p && ValidEntry(m[p]) {
      ScanEntryValid(h, t, p);
    }
  }

  lemma ScanEntryValid(h: Hasher, t: Tree, p: string)
    requires HexHasher(h) && Scannable(t, p)
    ensures p in t && ValidEntry(ScanEntry(h, t, p)) && ScanEntry(h, t, p).path == p
  {
    hide ValidPath;
    if t[p].File? {
      FingerprintValid(h, p, t[p].content, Perm(t[p].mode));
    }
  }

  /** The mode a scan records is the nine permission bits of what is there. */
  lemma RecordedModes(h: Hasher, t: Tree, p: string)
    requires p in Snapshot(h, t) && !t[p].Special?
    ensures Snapshot(h, t)[p].mode == t[p].mode % 0x200
    ensures t[p].mode <= 0x1FF ==> Snapshot(h, t)[p].mode == t[p].mode
  {
    hide Shown, SliceBlocks;
  }

  predicate Reserved(part: string) {
    part == ".backuply-folder" || ".backuply-tmp-" <= part
  }

  /** Every visible object is recorded, under its own name, and nothing else: p is recorded exactly if it is
      there and no element of its path is the marker's name or starts like a temporary one. */
  lemma SnapshotIsExact(h: Hasher, t: Tree, p: string)
    ensures p in Snapshot(h, t) <==> p in t && forall k :: 0 <= k < |Split(p)| ==> !Reserved(Split(p)[k])
  {
    hide ScanEntry, Split;
    PartsAreBases(p);
  }

  /** The elements of a path are the last elements of the path and of its ancestors. */
  lemma {:induction false} PartsAreBases(p: string)
    ensures (forall k :: 0 <= k < |Split(p)| ==> !Reserved(Split(p)[k])) <==>
              !ReservedBase(p) && forall a :: a in Ancestors(p) ==> !ReservedBase(a)
    decreases |p|
  {
    hide Split, Reserved, Ancestors;
    var n := DirLength(p);
    var base := BaseName(p);
    LastPart(p);
    assert ReservedBase(p) <==> Reserved(base) by { SameReserved(base); }
    if n > 0 {
      var d := p[..n - 1];
      PartsAreBases(d);
      forall a ensures a in Ancestors(p) <==> a == d || a in Ancestors(d) {
        ParentAncestors(p, a);
      }
      var parts := Split(p);
      assert parts[|parts| - 1] == base && forall k :: 0 <= k < |parts| - 1 ==> parts[k] == Split(d)[k];
    } else {
      assert Split(p) == [base] && Split(p)[0] == base;
      forall a ensures a !in Ancestors(p) {
        NoParent(p, a);
      }
    }
  }

  lemma SameReserved(part: string)
    ensures ReservedName(part) <==> Reserved(part)
  {}

  lemma LastPart(p: string)
    ensures var n := DirLength(p); Split(p) == if n == 0 then [BaseName(p)] else Split(p[..n - 1]) + [BaseName(p)]
  {
    var n := DirLength(p);
    var base := BaseName(p);
    FirstSlashAt(base, |base|);
    assert Split(base) == [base];
    if n > 0 {
      assert p == p[..n - 1] + "/" + base;
      SplitAt(p[..n - 1], base);
    } else {
      assert base == p;
    }
  }

  lemma ParentAncestors(p: string, a: string)
    requires DirLength(p) > 0
    ensures var d := p[..DirLength(p) - 1]; a in Ancestors(p) <==> a == d || a in Ancestors(d)
  {
    var n := DirLength(p);
    var d := p[..n - 1];
    if IsAncestor(a, p) {
      assert |a| < n;
      if |a| < n - 1 {
        assert d[..|a|] == a && d[|a|] == '/';
      }
    }
    if IsAncestor(a, d) {
      assert p[..|a|] == a && p[|a|] == '/';
    }
  }

  lemma NoParent(p: string, a: string)
    requires DirLength(p) == 0
    ensures a !in Ancestors(p)
  {}
}
