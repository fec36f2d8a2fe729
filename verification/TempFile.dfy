/** The temporary file beside its destination: it is no admissible path, and creating, filling and
    renaming it disturbs nothing else. */
module TempFile {
  import opened Paths
  import opened Tree

  lemma CreateAndRemove(t: Tree, tmp: string, n: Node)
    requires tmp !in t
    ensures t[tmp := n] - {tmp} == t
  {}

  lemma AncestorValidTemp(tmp: string, p: string)
    requires ValidPath(p) && !ValidPath(tmp)
    ensures !IsAncestor(tmp, p)
  {
    if IsAncestor(tmp, p) {
      AncestorValid(tmp, p);
    }
  }

  lemma Rechecks(t: Tree, p: string, tmp: string, n: Node, id: string)
    requires WellFormed(t) && ComponentsOk(t, p, true) && MarkerOk(t, id)
    requires !ValidPath(tmp) && tmp !in t && tmp != MARKER_NAME && n.File?
    requires forall a :: IsAncestor(a, tmp) <==> IsAncestor(a, p)
    ensures var t2 := WithParents(t, p)[tmp := n];
            && WellFormed(t2) && MarkerOk(t2, id) && ComponentsOk(t2, p, true)
            && (p in t2 <==> p in t) && (p in t ==> t2[p] == t[p])
  {
    hide ValidPath;
    var t1 := WithParents(t, p);
    WithParentsWellFormed(t, p);
    if tmp in t1 {
      AncestorValidTemp(tmp, p);
    }
    InstallWellFormed(t1, tmp, n);
  }

  lemma TempIsNotMarker(p: string, nonce: string)
    ensures TempPath(p, nonce) != MARKER_NAME
  {
    var n := DirLength(p);
    var tmp := TempPath(p, nonce);
    if n > 0 {
      assert tmp[n - 1] == '/' && '/' !in MARKER_NAME;
    } else {
      assert tmp[10] == 't' && MARKER_NAME[10] == 'f';
    }
  }

  lemma TempIsApart(t: Tree, p: string, nonce: string)
    requires ValidPath(p) && '/' !in nonce && TempPath(p, nonce) !in t
    ensures var tmp := TempPath(p, nonce);
            && !ValidPath(tmp) && tmp != p && tmp != MARKER_NAME && tmp !in WithParents(t, p)
            && forall a :: IsAncestor(a, tmp) <==> IsAncestor(a, p)
  {
    hide TempPath, ValidPath, IsAncestor;
    TempNotValid(p, nonce);
    TempAncestors(p, nonce);
    TempIsNotMarker(p, nonce);
    if IsAncestor(TempPath(p, nonce), p) {
      AncestorValid(TempPath(p, nonce), p);
    }
  }

  lemma Renamed(t1: Tree, tmp: string, p: string, n: Node)
    requires tmp !in t1 && tmp != p
    ensures t1[tmp := n][p := n] - {tmp} == t1[p := n]
  {}
}
