/** The walk of a scan as an interruptible machine: the folder may be edited between any two of its
    visits (internal/store/scan.go:26-71). */
module Walk {
  import opened Model
  import opened Paths
  import opened Tree
  import opened Layout
  import opened Json
  import opened Index
  import opened Scan

  /** A walk under way: the names that directory listings have given with their kind at that time, the
      rows recorded so far, and the directories whose listing has been read. As history, whether the
      folder has been left alone since the start (quiet). */
  datatype Draft = Draft(known: map<string, bool>, rows: Index, rooted: bool, entered: set<string>, quiet: bool)

  const FIRST: Draft := Draft(map[], map[], false, {}, true)

  /** q is an immediate child of d; of the folder itself. */
  predicate IsChild(d: string, q: string) {
    DirLength(q) == |d| + 1 && q[..|d|] == d
  }

  predicate IsTop(q: string) {
    DirLength(q) == 0
  }

  lemma ChildAncestors(d: string, q: string, a: string)
    requires IsChild(d, q) && IsAncestor(a, q)
    ensures a == d || IsAncestor(a, d)
  {
    assert q[|a|] == '/';
    assert |a| <= |d|;
    if |a| == |d| {
      assert a == d;
    }
  }

  lemma ChildHasParent(d: string, q: string)
    requires IsChild(d, q)
    ensures IsAncestor(d, q)
  {}

  function TopNames(t: Tree): (m: map<string, bool>)
    ensures forall q :: q in m <==> q in t && IsTop(q)
    ensures forall q :: q in m ==> m[q] == t[q].Dir?
  {
    map q | q in t && IsTop(q) :: t[q].Dir?
  }

  function ChildNames(t: Tree, d: string): (m: map<string, bool>)
    ensures forall q :: q in m <==> q in t && IsChild(d, q)
    ensures forall q :: q in m ==> m[q] == t[q].Dir?
  {
    map q | q in t && IsChild(d, q) :: t[q].Dir?
  }

  /** Reading the listing of d, a visited name that its own parent's listing called a directory. */
  function Enter(t: Tree, w: Draft, d: string): Option<Draft>
    requires d in w.rows && d in w.known && w.known[d]
  {
    if d in t && t[d].Dir? then Some(w.(known := ChildNames(t, d) + w.known, entered := w.entered + {d})) else None
  }

  /** The callback for one listed name; names with a reserved base are skipped. */
  ghost function Visit(h: Hasher, t: Tree, w: Draft, p: string): Option<Draft> {
    if !Scannable(t, p) then None
    else
      var rows := w.rows[p := ScanEntry(h, t, p)];
      if WithinLimits(rows) then Some(w.(rows := rows)) else None
  }

  /** Nothing that was listed is still to be visited or entered. */
  ghost predicate Complete(w: Draft) {
    && w.rooted
    && (forall p :: p in w.known && !ReservedBase(p) ==> p in w.rows && (w.known[p] ==> p in w.entered))
  }

  predicate Reached(w: Draft, p: string, d: string) {
    d in w.rows && d in w.known && w.known[d] && d in w.entered && IsChild(d, p)
  }

  ghost predicate Led(w: Draft, p: string) {
    IsTop(p) || exists d :: Reached(w, p, d)
  }

  ghost predicate RowsClosed(w: Draft) {
    forall p, a :: p in w.rows && IsAncestor(a, p) ==> a in w.rows
  }

  /** What a quiet walk has seen is what is there. */
  ghost predicate QuietInv(h: Hasher, t: Tree, w: Draft) {
    && (w.rooted ==> forall q :: q in t && IsTop(q) ==> q in w.known)
    && (forall d, q :: d in w.entered && q in t && IsChild(d, q) ==> q in w.known)
    && (forall q :: q in w.known ==> q in t && w.known[q] == t[q].Dir?)
    && (forall q :: q in w.rows ==> q in t && w.rows[q] == ScanEntry(h, t, q))
  }

  ghost predicate DraftInv(h: Hasher, t: Tree, w: Draft) {
    && ValidRows(w.rows) && WithinLimits(w.rows)
    && (forall p :: p in w.rows ==> !ReservedBase(p) && p in w.known)
    && (forall p :: p in w.known ==> Led(w, p))
    && RowsClosed(w)
    && (w.quiet ==> QuietInv(h, t, w))
  }

  lemma FirstInv(h: Hasher, t: Tree)
    ensures DraftInv(h, t, FIRST)
  {
    hide ValidEntry;
    NoRows();
  }

  lemma KeepReached(w: Draft, w': Draft, p: string)
    requires p in w.known && Led(w, p)
    requires forall d :: d in w.rows ==> d in w'.rows
    requires forall d :: d in w.known && w.known[d] && d in w.entered ==> d in w'.known && w'.known[d] && d in w'.entered
    ensures Led(w', p)
  {
    hide IsChild, IsTop;
    if !IsTop(p) {
      var d :| Reached(w, p, d);
      assert Reached(w', p, d);
    }
  }

  function Root(t: Tree, w: Draft): Draft {
    w.(known := TopNames(t) + w.known, rooted := true)
  }

  lemma RootInv(h: Hasher, t: Tree, w: Draft)
    requires DraftInv(h, t, w)
    ensures DraftInv(h, t, Root(t, w))
  {
    hide ValidEntry, WithinLimits, ReservedBase, ScanEntry, Led, IsChild;
    var w' := Root(t, w);
    forall p | p in w'.known
      ensures Led(w', p)
    {
      if p in w.known {
        KeepReached(w, w', p);
      } else {
        TopIsLed(w', p);
      }
    }
  }

  lemma TopIsLed(w: Draft, p: string)
    requires IsTop(p)
    ensures Led(w, p)
  {}

  lemma EnterInv(h: Hasher, t: Tree, w: Draft, d: string)
    requires DraftInv(h, t, w) && d in w.rows && d in w.known && w.known[d]
    ensures var r := Enter(t, w, d); r.Some? ==> DraftInv(h, t, r.value)
  {
    hide ValidEntry, WithinLimits, ReservedBase, ScanEntry, IsTop, IsChild;
    var r := Enter(t, w, d);
    if r.Some? {
      var w' := r.value;
      forall p | p in w'.known
        ensures Led(w', p)
      {
        if p in w.known {
          KeepReached(w, w', p);
        } else {
          assert Reached(w', p, d);
        }
      }
    }
  }

  lemma RowKind(w: Draft, d: string)
    requires ValidRows(w.rows) && d in w.rows
    ensures w.rows[d].kind == "file" || w.rows[d].kind == "directory"
  {
    hide ValidPath, ValidLayout;
  }

  lemma VisitClosed(w: Draft, p: string, e: Entry, w': Draft)
    requires RowsClosed(w) && w' == w.(rows := w.rows[p := e]) && p !in w.rows
    requires Led(w, p)
    ensures RowsClosed(w')
  {
    forall q, a | q in w'.rows && IsAncestor(a, q)
      ensures a in w'.rows
    {
      if q == p {
        assert !IsTop(p);
        var d :| Reached(w, p, d);
        ChildAncestors(d, p, a);
        assert a in w.rows;
      } else {
        assert a in w.rows;
      }
    }
  }

  lemma VisitInv(h: Hasher, t: Tree, w: Draft, p: string)
    requires HexHasher(h) && DraftInv(h, t, w) && p in w.known && !ReservedBase(p) && p !in w.rows
    ensures var r := Visit(h, t, w, p); r.Some? ==> DraftInv(h, t, r.value)
  {
    hide ValidEntry, WithinLimits, ReservedBase, ScanEntry, IsTop, IsChild, Scannable, Led, RowsClosed;
    var r := Visit(h, t, w, p);
    if r.Some? {
      var w' := r.value;
      ScanEntryValid(h, t, p);
      ScanEntryKind(h, t, p);
      VisitClosed(w, p, ScanEntry(h, t, p), w');
      forall q | q in w'.known
        ensures Led(w', q)
      {
        KeepReached(w, w', q);
      }
    }
  }

  lemma ScanEntryKind(h: Hasher, t: Tree, p: string)
    requires p in t
    ensures ScanEntry(h, t, p).kind == "file" <==> t[p].File?
  {}

  /** An edit of the folder during the walk. */
  function Disturb(w: Draft): Draft {
    w.(quiet := false)
  }

  lemma EditInv(h: Hasher, t: Tree, w: Draft, t': Tree)
    requires DraftInv(h, t, w)
    ensures DraftInv(h, t', Disturb(w))
  {
    hide ValidEntry, WithinLimits, ReservedBase, ScanEntry, IsTop, IsChild, Led;
    var w' := Disturb(w);
    forall q | q in w'.known
      ensures Led(w', q)
    {
      ReachedStays(w, w', q);
    }
  }

  lemma ReachedStays(w: Draft, w': Draft, q: string)
    requires q in w.known && Led(w, q)
    requires w' == w.(quiet := w'.quiet)
    ensures Led(w', q)
  {
    KeepReached(w, w', q);
  }

  /** Every listed name that is not skipped is visible while the folder is left alone. */
  lemma KnownIsShown(h: Hasher, t: Tree, w: Draft, p: string)
    requires DraftInv(h, t, w) && w.quiet && p in w.known && !ReservedBase(p)
    ensures Shown(t, p)
  {
    hide ValidRows, WithinLimits, ReservedBase, ScanEntry, IsChild, IsAncestor;
    assert p in t && Led(w, p);
    forall a | a in Ancestors(p) ensures !ReservedBase(a) {
      if IsTop(p) {
        TopHasNoAncestors(p, a);
      } else {
        var d :| Reached(w, p, d);
        ChildAncestors(d, p, a);
        assert a in w.rows;
      }
    }
  }

  lemma TopHasNoAncestors(p: string, a: string)
    requires IsTop(p)
    ensures !IsAncestor(a, p)
  {}

  /** A complete quiet walk has recorded every visible object. */
  lemma {:induction false} ShownIsRecorded(h: Hasher, t: Tree, w: Draft, p: string)
    requires WellFormed(t) && DraftInv(h, t, w) && w.quiet && Complete(w) && Shown(t, p)
    ensures p in w.rows
    decreases |p|
  {
    hide ValidRows, WithinLimits, ReservedBase, ScanEntry, IsChild;
    if !IsTop(p) {
      var d := p[..DirLength(p) - 1];
      assert IsChild(d, p) by { ParentIsChild(p); }
      ChildHasParent(d, p);
      assert Shown(t, d) by {
        forall b | b in Ancestors(d) ensures b in Ancestors(p) { AncestorTransitive(b, d, p); }
      }
      ShownIsRecorded(h, t, w, d);
      assert t[d].Dir?;
    }
  }

  lemma ParentIsChild(p: string)
    requires !IsTop(p)
    ensures IsChild(p[..DirLength(p) - 1], p)
  {}

  /** A complete walk of a folder that was left alone has recorded exactly its snapshot. */
  lemma QuietWalkIsSnapshot(h: Hasher, t: Tree, w: Draft)
    requires WellFormed(t) && DraftInv(h, t, w) && w.quiet && Complete(w)
    ensures w.rows == Snapshot(h, t)
  {
    hide ValidRows, WithinLimits, ReservedBase, ScanEntry, Complete;
    var s := Snapshot(h, t);
    forall p ensures (p in w.rows <==> p in s) && (p in w.rows ==> w.rows[p] == s[p]) {
      if p in w.rows {
        forall a | a in Ancestors(p) ensures !ReservedBase(a) {
          assert a in w.rows;
        }
      } else if p in s {
        ShownIsRecorded(h, t, w, p);
      }
    }
  }

  /** d was recorded as a file although it was listed, and later entered, as a directory. */
  predicate Flipped(w: Draft, d: string) {
    d in w.entered && d in w.rows && w.rows[d].kind == "file"
  }

  /** The child of a on the way to p. */
  lemma NextOnTheWay(a: string, p: string) returns (q: string)
    requires IsAncestor(a, p)
    ensures IsChild(a, q) && (q == p || IsAncestor(q, p))
    decreases |p|
  {
    var n := DirLength(p);
    if n == |a| + 1 {
      q := p;
      assert q[..|a|] == a;
    } else {
      var d := p[..n - 1];
      assert p[|a|] == '/' && |a| < n;
      assert IsAncestor(d, p);
      assert IsAncestor(a, d) by { assert d[..|a|] == a && d[|a|] == '/'; }
      q := NextOnTheWay(a, d);
      if q != d {
        AncestorTransitive(q, d, p);
      }
    }
  }

  lemma RecordedParentWasEntered(h: Hasher, t: Tree, w: Draft, a: string, q: string)
    requires DraftInv(h, t, w) && q in w.rows && IsChild(a, q)
    ensures a in w.entered && a in w.rows
  {
    hide ValidRows, WithinLimits, ReservedBase, QuietInv, RowsClosed;
    assert Led(w, q) && !IsTop(q);
    var d :| Reached(w, q, d);
    assert d == a;
  }

  /** The exact condition for what a walk records to be closed under directory parents, whatever was
      edited meanwhile: no directory that was recorded as a file has a recorded child. */
  lemma ClosedUnlessFlipped(h: Hasher, t: Tree, w: Draft)
    requires DraftInv(h, t, w)
    ensures ParentClosed(w.rows) <==> !exists d, q :: Flipped(w, d) && q in w.rows && IsChild(d, q)
  {
    hide WithinLimits, ReservedBase, QuietInv, ValidEntry, IsChild, Led, IsAncestor;
    forall p, a | p in w.rows && IsAncestor(a, p) && w.rows[a].kind != "directory"
      ensures exists d, q :: Flipped(w, d) && q in w.rows && IsChild(d, q)
    {
      var q := NextOnTheWay(a, p);
      assert q in w.rows;
      RecordedParentWasEntered(h, t, w, a, q);
      RowKind(w, a);
      assert Flipped(w, a);
    }
    forall d, q | Flipped(w, d) && q in w.rows && IsChild(d, q) ensures !ParentClosed(w.rows) {
      ChildHasParent(d, q);
    }
  }

  function Marked(id: string, rest: Tree): Tree {
    map[MARKER_NAME := File(id + "\n", 0)] + rest
  }

  const IS_DIR: Tree := map["a" := Dir(0)]
  const IS_FILE: Tree := map["a" := File("", 0)]
  const HAS_CHILD: Tree := map["a" := Dir(0), "a/b" := File("", 0)]

  /** The walk in which "a" is listed as a directory, looked at while it is a file, and entered when it
      is a directory again. */
  ghost function FlippedWalk(h: Hasher, id: string): Option<Draft> {
    var w1 := Disturb(Root(Marked(id, IS_DIR), FIRST));
    match Visit(h, Marked(id, IS_FILE), w1, "a")
    case None => None
    case Some(w2) =>
      var w3 := Disturb(w2);
      if !("a" in w3.rows && "a" in w3.known && w3.known["a"]) then None
      else
        match Enter(Marked(id, HAS_CHILD), w3, "a")
        case None => None
        case Some(w4) => if "a/b" in w4.known then Visit(h, Marked(id, HAS_CHILD), w4, "a/b") else None
  }

  lemma FlipNames()
    ensures ValidPath("a") && ValidPath("a/b") && IsTop("a") && IsChild("a", "a/b") && !IsTop("a/b")
    ensures !ReservedBase("a") && !ReservedBase("a/b") && ReservedBase(MARKER_NAME) && IsTop(MARKER_NAME)
    ensures !IsChild("a", "a") && !IsChild("a", MARKER_NAME)
    ensures Ancestors("a") == {} && Ancestors("a/b") == {"a"}
  {
    FirstSlashAt("a", 1);
    FirstSlashAt("b", 1);
    assert "a" + "/" + "b" == "a/b";
    SplitAt("a", "b");
    assert Split("a") == ["a"] && Split("b") == ["b"];
    assert DirLength("a") == 0 && DirLength("a/b") == 2 && DirLength(MARKER_NAME) == 0;
    assert "a/b"[2..] == "b";
    assert "a/b"[..1] == "a";
    assert !IsAncestor("", "a/b");
  }

  lemma OneMoreFits(m: Index, e: Entry)
    requires |m| <= 1 && ManifestBytes(m) <= 4000000 && ValidEntry(e)
    ensures |m[e.path := e]| <= |m| + 1 && ManifestBytes(m[e.path := e]) <= ManifestBytes(m) + 4000000
    ensures WithinLimits(m[e.path := e])
  {
    hide ValidEntry, ManifestLength, EncodeEntryMessage, ManifestBytes;
    SizeUpdate(m, e.path, e);
    ManifestBytesUpdate(m, e.path, e);
    ValidEntryFitsFrame(e);
    EntryMessageLength(e);
  }

  lemma ListedAsDirectory(id: string)
    ensures Root(Marked(id, IS_DIR), FIRST).known == map["a" := true, MARKER_NAME := false]
  {
    hide ReservedBase, IsTop, IsChild, ValidPath;
    FlipNames();
    var names := TopNames(Marked(id, IS_DIR));
    assert names == map["a" := true, MARKER_NAME := false];
  }

  lemma FileIsScannable(h: Hasher, id: string)
    requires HexHasher(h)
    ensures var t := Marked(id, IS_FILE);
            && Scannable(t, "a") && "a" in t && ScanEntry(h, t, "a").kind == "file"
            && ScanEntry(h, t, "a").path == "a" && ValidEntry(ScanEntry(h, t, "a"))
  {
    hide ReservedBase, IsTop, IsChild, ValidPath, ValidEntry, SliceBlocks;
    FlipNames();
    ScanEntryValid(h, Marked(id, IS_FILE), "a");
  }

  lemma LookedAtAsFile(h: Hasher, id: string)
    requires HexHasher(h)
    ensures var w1 := Disturb(Root(Marked(id, IS_DIR), FIRST));
            var v := Visit(h, Marked(id, IS_FILE), w1, "a");
            && v.Some? && v.value.rows.Keys == {"a"} && v.value.rows["a"].kind == "file"
            && ManifestBytes(v.value.rows) <= 4000000
            && v.value.known == map["a" := true, MARKER_NAME := false] && v.value.rooted && v.value.entered == {}
  {
    hide ReservedBase, WithinLimits, ManifestBytes, Scannable, ScanEntry, ValidEntry, Marked, TopNames;
    ListedAsDirectory(id);
    FileIsScannable(h, id);
    NoRows();
    OneMoreFits(map[], ScanEntry(h, Marked(id, IS_FILE), "a"));
  }

  lemma EnteredAsDirectory(id: string, w: Draft)
    requires w.known == map["a" := true, MARKER_NAME := false] && "a" in w.rows
    ensures var r := Enter(Marked(id, HAS_CHILD), w, "a");
            r.Some? && r.value.known == map["a" := true, MARKER_NAME := false, "a/b" := false]
            && r.value == w.(known := r.value.known, entered := w.entered + {"a"})
  {
    hide IsChild, ReservedBase, ValidPath;
    FlipNames();
    var names := ChildNames(Marked(id, HAS_CHILD), "a");
    assert names == map["a/b" := false];
  }

  lemma ChildIsRecorded(h: Hasher, id: string, w: Draft)
    requires HexHasher(h) && |w.rows| <= 1 && ManifestBytes(w.rows) <= 4000000
    ensures var v := Visit(h, Marked(id, HAS_CHILD), w, "a/b");
            v.Some? && v.value == w.(rows := v.value.rows) && "a/b" in v.value.rows
            && forall p :: p in w.rows && p != "a/b" ==> p in v.value.rows && v.value.rows[p] == w.rows[p]
  {
    hide ReservedBase, IsTop, IsChild, ValidPath, WithinLimits, ManifestBytes, SliceBlocks;
    FlipNames();
    var t := Marked(id, HAS_CHILD);
    assert Scannable(t, "a/b");
    ScanEntryValid(h, t, "a/b");
    hide Fingerprint, ValidEntry, ComponentsOk;
    OneMoreFits(w.rows, ScanEntry(h, t, "a/b"));
  }

  /** The exception is real: such a walk completes, within the limits, and records a child under a row
      of kind file. */
  lemma FlippedWalkIsNotClosed(h: Hasher, id: string)
    requires HexHasher(h)
    ensures FlippedWalk(h, id).Some?
    ensures var w := FlippedWalk(h, id).value;
            Complete(w) && "a" in w.rows && w.rows["a"].kind == "file" && "a/b" in w.rows && !ParentClosed(w.rows)
  {
    hide ReservedBase, Visit, Enter, Root, WithinLimits, ManifestBytes, IsTop, IsChild, ValidPath;
    LookedAtAsFile(h, id);
    var w1 := Disturb(Root(Marked(id, IS_DIR), FIRST));
    var w3 := Disturb(Visit(h, Marked(id, IS_FILE), w1, "a").value);
    EnteredAsDirectory(id, w3);
    var w4 := Enter(Marked(id, HAS_CHILD), w3, "a").value;
    ChildIsRecorded(h, id, w4);
    FlipNames();
    assert IsAncestor("a", "a/b") by { assert "a" in Ancestors("a/b"); }
  }
}
