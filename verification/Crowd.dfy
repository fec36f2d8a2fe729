/** A folder that the source can scan and index and that no receiver can list: the two budgets differ
    (internal/store/store.go:19-25, internal/transport/transport.go:25-27). */
module Crowd {
  import opened Model
  import opened Paths
  import opened Tree
  import opened Layout
  import opened Json
  import opened Index
  import opened Scan
  import opened Transfer
  import opened Convergence

  const LEAVES: nat := 99998

  function Pad(n: nat): (s: string)
    ensures |s| == n && forall k :: 0 <= k < n ==> s[k] == 'a'
  {
    if n == 0 then "" else "a" + Pad(n - 1)
  }

  const OUTER: string := Pad(200)
  const INNER: string := Pad(200) + "/" + Pad(200)

  /** The name of directory number i: five digits and padding. */
  function LeafName(i: nat): string
    requires i < LEAVES
  {
    [Digit(i / 10000), Digit(i / 1000 % 10), Digit(i / 100 % 10), Digit(i / 10 % 10), Digit(i % 10)] + Pad(203)
  }

  function Digit(n: nat): char
    requires n < 10
  {
    (48 + n) as char
  }

  function Leaf(i: nat): string
    requires i < LEAVES
  {
    INNER + "/" + LeafName(i)
  }

  function LeafNodes(n: nat): Tree
    requires n <= LEAVES
  {
    if n == 0 then map[] else LeafNodes(n - 1)[Leaf(n - 1) := Dir(0x1C0)]
  }

  lemma {:induction false} LeafNodesAre(n: nat)
    requires n <= LEAVES
    ensures forall i: nat :: i < n ==> Leaf(i) in LeafNodes(n)
    ensures forall p :: p in LeafNodes(n) ==> LeafNodes(n)[p] == Dir(0x1C0) && exists i: nat :: i < n && Leaf(i) == p
  {
    hide Leaf;
    if n > 0 {
      LeafNodesAre(n - 1);
      assert Leaf(n - 1) in LeafNodes(n);
    }
  }

  /** Two directories, one in the other, and many in the inner one. */
  function CrowdedTree(id: string): Tree {
    map[MARKER_NAME := File(id + "\n", 0x180), OUTER := Dir(0x1C0), INNER := Dir(0x1C0)] + LeafNodes(LEAVES)
  }

  lemma LeafNameShape(i: nat)
    requires i < LEAVES
    ensures var s := LeafName(i);
            && |s| == 208 && (forall k :: 0 <= k < |s| ==> '0' <= s[k] <= '9' || s[k] == 'a')
            && i == 10000 * (s[0] as int - 48) + 1000 * (s[1] as int - 48) + 100 * (s[2] as int - 48)
                    + 10 * (s[3] as int - 48) + (s[4] as int - 48)
  {
    var s := LeafName(i);
    assert forall k :: 5 <= k < |s| ==> s[k] == Pad(203)[k - 5];
    assert 0 <= i / 10000 < 10;
    DecimalPlaces(i);
  }

  lemma DecimalPlaces(i: nat)
    ensures i == 10000 * (i / 10000) + 1000 * (i / 1000 % 10) + 100 * (i / 100 % 10) + 10 * (i / 10 % 10) + i % 10
  {
    var a, b, c := i / 10, i / 100, i / 1000;
    assert i == 10 * a + i % 10;
    assert a == 10 * b + a % 10;
    assert b == 10 * c + b % 10;
    assert c == 10 * (i / 10000) + c % 10;
  }

  lemma LeavesDiffer(i: nat, j: nat)
    requires i < j < LEAVES
    ensures Leaf(i) != Leaf(j)
  {
    hide LeafName;
    LeafNameShape(i);
    LeafNameShape(j);
    assert Leaf(i)[402..] == LeafName(i) && Leaf(j)[402..] == LeafName(j);
  }

  /** A plain name: what any file system can hold. */
  predicate PlainName(s: string) {
    0 < |s| <= 255 && forall k :: 0 <= k < |s| ==> '0' <= s[k] <= '9' || s[k] == 'a'
  }

  lemma PlainIsGood(s: string)
    requires PlainName(s)
    ensures Split(s) == [s] && GoodPart(s) && forall k :: 0 <= k < |s| ==> GoodChar(s[k]) && s[k] != '/'
  {
    FirstSlashAt(s, |s|);
    assert s[0] != '.';
  }

  /** The paths of the tree, by depth. */
  lemma Names(p: string, d: string, name: string)
    requires p == d + "/" + name && PlainName(name) && |p| <= 4096 && ValidPath(d)
    requires forall k :: 0 <= k < |d| ==> '0' <= d[k] <= '9' || d[k] == 'a' || d[k] == '/'
    ensures ValidPath(p) && DirLength(p) == |d| + 1 && !ReservedBase(p)
    ensures forall k :: 0 <= k < |p| ==> '0' <= p[k] <= '9' || p[k] == 'a' || p[k] == '/'
    ensures forall a :: IsAncestor(a, p) <==> a == d || IsAncestor(a, d)
    ensures Split(p) == Split(d) + [name]
  {
    hide Split, ReservedName;
    PlainIsGood(name);
    SplitAt(d, name);
    assert forall k :: |d| + 1 <= k < |p| ==> p[k] == name[k - |d| - 1];
    assert p[|d|] == '/' && p[..|d|] == d;
    assert BaseName(p) == name;
    forall a ensures IsAncestor(a, p) <==> a == d || IsAncestor(a, d) {
      if IsAncestor(a, p) {
        assert |a| <= |d|;
        assert a == p[..|a|];
        if |a| < |d| {
          assert d[..|a|] == a && d[|a|] == '/';
        }
      }
      if IsAncestor(a, d) {
        assert p[..|a|] == a && p[|a|] == d[|a|];
      }
    }
  }

  lemma OuterName()
    ensures ValidPath(OUTER) && !ReservedBase(OUTER) && Split(OUTER) == [OUTER] && |OUTER| == 200
    ensures forall a :: !IsAncestor(a, OUTER)
    ensures forall k :: 0 <= k < |OUTER| ==> OUTER[k] == 'a'
  {
    PlainIsGood(OUTER);
    hide Split, ReservedName;
    assert BaseName(OUTER) == OUTER;
  }

  lemma InnerName()
    ensures ValidPath(INNER) && !ReservedBase(INNER) && Split(INNER) == [OUTER, OUTER] && |INNER| == 401
    ensures forall a :: IsAncestor(a, INNER) <==> a == OUTER
    ensures forall k :: 0 <= k < |INNER| ==> '0' <= INNER[k] <= '9' || INNER[k] == 'a' || INNER[k] == '/'
  {
    OuterName();
    Names(INNER, OUTER, OUTER);
    assert Split(INNER) == [OUTER, OUTER];
  }

  lemma LeafPath(i: nat)
    requires i < LEAVES
    ensures var p := Leaf(i);
            && ValidPath(p) && !ReservedBase(p) && Split(p) == [OUTER, OUTER, LeafName(i)] && |p| == 610
            && (forall a :: IsAncestor(a, p) <==> a == INNER || a == OUTER)
            && (forall k :: 0 <= k < |p| ==> '0' <= p[k] <= '9' || p[k] == 'a' || p[k] == '/')
  {
    hide LeafName, Split, ValidPath;
    LeafNameShape(i);
    InnerName();
    Names(Leaf(i), INNER, LeafName(i));
    assert [OUTER, OUTER] + [LeafName(i)] == [OUTER, OUTER, LeafName(i)];
  }

  /** The paths of the tree but its marker. */
  ghost predicate InCrowd(p: string) {
    p == OUTER || p == INNER || IsLeaf(p)
  }

  ghost predicate IsLeaf(p: string) {
    exists i: nat :: i < LEAVES && Leaf(i) == p
  }

  lemma LeafNode(p: string)
    ensures p in LeafNodes(LEAVES) <==> IsLeaf(p)
    ensures p in LeafNodes(LEAVES) ==> LeafNodes(LEAVES)[p] == Dir(0x1C0)
  {
    hide LeafNodes, Leaf;
    LeafNodesAre(LEAVES);
  }

  /** Every path of the crowd is admissible, made of names of at most 255 bytes, and lies below the two
      outer directories only. */
  lemma CrowdNames(p: string)
    requires InCrowd(p)
    ensures ValidPath(p) && !ReservedBase(p) && (forall k :: 0 <= k < |Split(p)| ==> |Split(p)[k]| <= 255)
    ensures forall a :: IsAncestor(a, p) ==> InCrowd(a) && !ReservedBase(a)
    ensures forall k :: 0 <= k < |p| ==> '0' <= p[k] <= '9' || p[k] == 'a' || p[k] == '/'
  {
    hide Leaf, LeafName, ValidPath, IsAncestor, ReservedBase, Split;
    OuterName();
    InnerName();
    if p != OUTER && p != INNER {
      var i: nat :| i < LEAVES && Leaf(i) == p;
      LeafPath(i);
      LeafNameShape(i);
    }
  }

  lemma NotMarker(p: string)
    requires InCrowd(p)
    ensures p != MARKER_NAME
  {
    hide InCrowd, ValidPath, Split, IsAncestor, ReservedBase;
    CrowdNames(p);
    MarkerNotValid();
  }

  lemma CrowdPaths(id: string, p: string)
    ensures var t := CrowdedTree(id);
            && (p in t <==> p == MARKER_NAME || InCrowd(p))
            && (InCrowd(p) ==> p != MARKER_NAME && t[p] == Dir(0x1C0))
            && MarkerOk(t, id)
  {
    hide LeafNodes, Leaf, IsLeaf, OUTER, INNER;
    LeafNode(p);
    LeafNode(MARKER_NAME);
    if InCrowd(p) {
      NotMarker(p);
    }
    if InCrowd(MARKER_NAME) {
      NotMarker(MARKER_NAME);
    }
  }

  lemma CrowdIsScannable(id: string)
    ensures var t := CrowdedTree(id);
            && WellFormed(t) && MarkerOk(t, id) && AllScannable(t)
            && (forall p :: Shown(t, p) <==> InCrowd(p))
  {
    hide CrowdedTree, InCrowd, ValidPath, IsAncestor, ReservedBase, MarkerOk;
    var t := CrowdedTree(id);
    CrowdPaths(id, MARKER_NAME);
    forall p ensures (p in t <==> p == MARKER_NAME || InCrowd(p)) && (InCrowd(p) ==> p != MARKER_NAME && t[p] == Dir(0x1C0)) {
      CrowdPaths(id, p);
    }
    forall p | InCrowd(p)
      ensures ValidPath(p) && !ReservedBase(p) && forall a :: IsAncestor(a, p) ==> InCrowd(a) && !ReservedBase(a)
    {
      CrowdNames(p);
    }
    MarkerIsReserved();
  }

  lemma MarkerIsReserved()
    ensures ReservedBase(MARKER_NAME) && forall a :: !IsAncestor(a, MARKER_NAME)
  {
    assert forall k :: 0 <= k < |MARKER_NAME| ==> MARKER_NAME[k] != '/';
    assert DirLength(MARKER_NAME) == 0;
  }

  function Row(p: string): Entry {
    Entry(p, "directory", 0, 0x1C0, "", [])
  }

  lemma RowLength(p: string)
    requires forall k :: 0 <= k < |p| ==> '0' <= p[k] <= '9' || p[k] == 'a' || p[k] == '/'
    ensures ManifestLength(Row(p)) == 60 + |p|
  {
    var e := Row(p);
    hide Escape, EncodeBlocks;
    EscapePlain(p);
    EscapePlain("directory");
    EscapePlain("");
    assert |Digits(0)| == 1 && |Digits(448)| == 3 by { assert |Digits(4)| == 1 && |Digits(44)| == 2; }
    assert |"{\"path\":\""| == 9 && |"\",\"kind\":\""| == 10 && |"\",\"size\":"| == 9;
    assert |",\"mode\":"| == 8 && |",\"hash\":\""| == 9;
  }

  /** The rows of the first n leaves, after those of the two outer directories. */
  function CrowdRows(n: nat): (es: seq<Entry>)
    requires n <= LEAVES
    ensures |es| == n + 2
  {
    if n == 0 then [Row(OUTER), Row(INNER)] else CrowdRows(n - 1) + [Row(Leaf(n - 1))]
  }

  lemma {:induction false} RowsAre(n: nat)
    requires n <= LEAVES
    ensures CrowdRows(n)[0] == Row(OUTER) && CrowdRows(n)[1] == Row(INNER)
    ensures forall i: nat :: i < n ==> CrowdRows(n)[i + 2] == Row(Leaf(i))
    ensures TotalBytes(CrowdRows(n)) == 723 + 671 * n
  {
    hide Leaf, Row, ManifestLength, TotalBytes, OUTER, INNER;
    if n == 0 {
      TwoRows();
    } else {
      RowsAre(n - 1);
      Lengths(n - 1);
      AppendBytes(CrowdRows(n - 1), Row(Leaf(n - 1)));
    }
  }

  lemma Lengths(i: nat)
    requires i < LEAVES
    ensures |OUTER| == 200 && |INNER| == 401 && |Leaf(i)| == 610 && ManifestLength(Row(Leaf(i))) == 670
  {
    hide Leaf, LeafName, ValidPath, IsAncestor, ReservedBase, Split, ManifestLength, OUTER, INNER;
    OuterName();
    InnerName();
    LeafPath(i);
    RowLength(Leaf(i));
  }

  lemma TwoRows()
    ensures TotalBytes([Row(OUTER), Row(INNER)]) == 723
  {
    hide ManifestLength, Row;
    OuterName();
    InnerName();
    RowLength(OUTER);
    RowLength(INNER);
    assert [Row(OUTER), Row(INNER)][..1] == [Row(OUTER)] && [Row(OUTER)][..0] == [];
    assert TotalBytes([]) == 0;
    assert TotalBytes([Row(OUTER)]) == 261;
  }

  lemma RowsDistinct()
    ensures DistinctPaths(CrowdRows(LEAVES))
  {
    hide Leaf, CrowdRows, TotalBytes, ManifestLength, OUTER, INNER;
    RowsAre(LEAVES);
    var es := CrowdRows(LEAVES);
    forall i, j | 0 <= i < j < |es| ensures es[i].path != es[j].path {
      Lengths(if j >= 2 then j - 2 else 0);
      assert j >= 2 ==> es[j] == Row(Leaf(j - 2));
      if i >= 2 {
        assert es[i] == Row(Leaf(i - 2));
        LeavesDiffer(i - 2, j - 2);
      }
    }
  }

  lemma RowIsCrowd(k: nat)
    requires k < LEAVES + 2
    ensures InCrowd(CrowdRows(LEAVES)[k].path) && CrowdRows(LEAVES)[k] == Row(CrowdRows(LEAVES)[k].path)
  {
    hide Leaf, CrowdRows, TotalBytes, OUTER, INNER;
    RowsAre(LEAVES);
    if k >= 2 {
      assert CrowdRows(LEAVES)[k] == Row(Leaf(k - 2));
      assert IsLeaf(Leaf(k - 2));
    }
  }

  lemma CrowdHasRow(p: string) returns (k: nat)
    requires InCrowd(p)
    ensures k < LEAVES + 2 && CrowdRows(LEAVES)[k] == Row(p)
  {
    hide Leaf, CrowdRows, TotalBytes, OUTER, INNER;
    RowsAre(LEAVES);
    if p == OUTER {
      k := 0;
    } else if p == INNER {
      k := 1;
    } else {
      var i: nat :| i < LEAVES && Leaf(i) == p;
      k := i + 2;
    }
  }

  /** What a scan of the tree records are these rows. */
  lemma CrowdSnapshot(h: Hasher, id: string)
    ensures Snapshot(h, CrowdedTree(id)) == Override(map[], CrowdRows(LEAVES))
  {
    hide CrowdedTree, InCrowd, Shown, Override, CrowdRows, MarkerOk, WellFormed, AllScannable, DistinctPaths;
    var t := CrowdedTree(id);
    var es := CrowdRows(LEAVES);
    var m := Override(map[], es);
    CrowdIsScannable(id);
    OverrideKeys(map[], es);
    RowsDistinct();
    forall p ensures (p in Snapshot(h, t) <==> p in m) && (p in m ==> Snapshot(h, t)[p] == m[p]) {
      CrowdPaths(id, p);
      if p in m {
        var k: nat :| k < |es| && es[k].path == p && m[p] == es[k];
        RowIsCrowd(k);
      }
      if InCrowd(p) {
        var k := CrowdHasRow(p);
        OverrideDistinct(map[], es, k);
      }
    }
  }

  /** The difference matters: this folder is in order, its names have at most 255 bytes, a scan of it succeeds
      and its index is within the store's limits; and no client ever accepts its list, wherever the reply
      is cut. */
  lemma FullStoreIsUndeliverable(h: Hasher, id: string, es: seq<Entry>, ms: seq<Message>, alive: bool, k: nat)
    requires HexHasher(h) && Listing(es, Snapshot(h, CrowdedTree(id))) && ListReply(es, ms, alive) && k <= |ms|
    ensures var t := CrowdedTree(id);
            && WellFormed(t) && MarkerOk(t, id) && AllScannable(t) && WithinLimits(Snapshot(h, t))
            && (forall p :: Shown(t, p) ==> forall i :: 0 <= i < |Split(p)| ==> |Split(p)[i]| <= 255)
            && !Acceptable(ms[..k])
  {
    hide CrowdedTree, Shown, Override, CrowdRows, MarkerOk, WellFormed, AllScannable, TotalBytes, ManifestBytes, Listing, InCrowd,
      Split, ListReply, Acceptable, Deliverable, ValidEntry, Snapshot, HexHasher;
    var t := CrowdedTree(id);
    var m := Snapshot(h, t);
    CrowdIsScannable(id);
    CrowdSnapshot(h, id);
    RowsAre(LEAVES);
    RowsDistinct();
    FillBytes(CrowdRows(LEAVES));
    forall p | Shown(t, p) ensures forall i :: 0 <= i < |Split(p)| ==> |Split(p)[i]| <= 255 {
      CrowdNames(p);
    }
    SnapshotIsValid(h, t);
    ListingFills(es, m);
    ListedAreValid(es, m);
    ListingIsDistinct(es, m);
    FillBytes(es);
    WireBudget(es);
    TransferIsExactOrFails(es, ms, alive, k);
  }

  lemma ListedAreValid(es: seq<Entry>, m: Index)
    requires Listing(es, m) && ValidRows(m)
    ensures forall i :: 0 <= i < |es| ==> ValidEntry(es[i])
  {
    hide ValidEntry, Less;
  }
}
