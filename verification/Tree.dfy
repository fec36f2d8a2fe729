/** The directory tree of one folder as a map from paths to nodes, with the checks and the
    parent creation of internal/store/files.go. */
module Tree {
  import opened Model
  import opened Paths

  /** Special covers symbolic links, devices, sockets and pipes. */
  datatype Node = File(content: Bytes, mode: nat) | Dir(mode: nat) | Special

  type Tree = map<string, Node>

  /** Every parent of a present object is a directory. */
  ghost predicate WellFormed(t: Tree) {
    forall p, a :: p in t && IsAncestor(a, p) ==> a in t && t[a].Dir?
  }

  predicate MarkerOk(t: Tree, id: string) {
    MARKER_NAME in t && t[MARKER_NAME].File? && t[MARKER_NAME].content == id + "\n"
  }

  /** What checkComponents promises about one existing component. */
  predicate PlainComponent(t: Tree, c: string, last: bool) {
    c in t && !t[c].Special? && (last || t[c].Dir?)
  }

  /** The meaning of checkComponents: no special object and no non-directory parent on the
      way to name, as far as the way exists. */
  predicate ComponentsOk(t: Tree, name: string, allowMissing: bool) {
    && ValidPath(name)
    && (forall a :: a in Ancestors(name) && a in t ==> t[a].Dir?)
    && (name in t ==> !t[name].Special?)
    && (allowMissing || name in t)
  }

  /** checkComponents: walk the components of name from the root. */
  method CheckComponents(t: Tree, name: string, allowMissing: bool) returns (ok: bool)
    requires WellFormed(t)
    ensures ok == ComponentsOk(t, name, allowMissing)
  {
    if !ValidPath(name) {
      return false;
    }
    var i := 0;
    while i <= |name|
      invariant 0 <= i <= |name| + 1
      invariant forall a :: IsAncestor(a, name) && |a| < i ==> PlainComponent(t, a, false)
      invariant i == |name| + 1 ==> PlainComponent(t, name, true)
    {
      if i == |name| || name[i] == '/' {
        var c := name[..i];
        assert i < |name| ==> IsAncestor(c, name);
        assert i == |name| ==> c == name;
        if c !in t {
          assert name !in t;
          assert forall a :: IsAncestor(a, name) && a in t && |a| > i ==> IsAncestor(c, a);
          return allowMissing;
        }
        if !PlainComponent(t, c, i == |name|) {
          assert i < |name| ==> c in Ancestors(name);
          if i < |name| && t[c].Dir? { assert false; }
          return false;
        }
      }
      i := i + 1;
    }
    assert forall a :: a in Ancestors(name) ==> PlainComponent(t, a, false);
    return true;
  }

  /** MkdirAll of the parent directory of p: missing ancestors appear with mode 0700. */
  function WithParents(t: Tree, p: string): (t': Tree)
    ensures forall q :: q in t' <==> q in t || IsAncestor(q, p)
    ensures forall q :: q in t' ==> t'[q] == if q in t then t[q] else Dir(0x1C0)
  {
    t + map a | a in Ancestors(p) && a !in t :: Dir(0x1C0)
  }

  lemma WithParentsWellFormed(t: Tree, p: string)
    requires WellFormed(t)
    requires forall a :: IsAncestor(a, p) && a in t ==> t[a].Dir?
    ensures WellFormed(WithParents(t, p))
  {
    var t' := WithParents(t, p);
    forall q, a | q in t' && IsAncestor(a, q) ensures a in t' && t'[a].Dir? {
      if q !in t {
        AncestorTransitive(a, q, p);
      }
    }
  }

  /** Putting a node where only directories lead keeps the tree well formed. */
  lemma InstallWellFormed(t: Tree, p: string, n: Node)
    requires WellFormed(t)
    requires forall a :: IsAncestor(a, p) ==> a in t && t[a].Dir?
    requires p !in t || (t[p].Dir? ==> n.Dir?)
    ensures WellFormed(t[p := n])
  {
    var t' := t[p := n];
    forall q, a | q in t' && IsAncestor(a, q) ensures a in t' && t'[a].Dir? {
      if q != p {
        assert a in t && t[a].Dir?;
      }
    }
  }

  /** Owner access is kept while children are installed: mode | 0700. */
  function OwnerAccess(mode: nat): nat {
    0x1C0 + mode % 0x40
  }

  function Power2(k: nat): (n: nat)
    ensures n > 0
  {
    if k == 0 then 1 else 2 * Power2(k - 1)
  }

  /** Permission bit k of a mode; bits 8 to 6 are the owner's. */
  predicate Bit(mode: nat, k: nat) {
    if k == 0 then mode % 2 == 1 else Bit(mode / 2, k - 1)
  }

  /** m has the permission bits of mode and all of the owner's, and nothing else. */
  ghost predicate WithOwnerBits(mode: nat, m: nat) {
    && m <= 0x1FF
    && forall k: nat :: k < 9 ==> (Bit(m, k) <==> Bit(mode, k) || k >= 6)
  }

  /** The bits below w of x * 2^w + r are those of r, ... */
  lemma {:induction false} LowBit(w: nat, x: nat, r: nat, k: nat)
    requires r < Power2(w) && k < w
    ensures Bit(Power2(w) * x + r, k) <==> Bit(r, k)
  {
    var y := Power2(w - 1) * x;
    assert Power2(w) * x == 2 * y;
    assert (2 * y + r) % 2 == r % 2 && (2 * y + r) / 2 == y + r / 2;
    if k > 0 {
      LowBit(w - 1, x, r / 2, k - 1);
    }
  }

  /** ... and those above are the bits of x. */
  lemma {:induction false} HighBit(w: nat, x: nat, r: nat, k: nat)
    requires r < Power2(w)
    ensures Bit(Power2(w) * x + r, w + k) <==> Bit(x, k)
  {
    if w > 0 {
      var y := Power2(w - 1) * x;
      assert Power2(w) * x == 2 * y;
      assert (2 * y + r) / 2 == y + r / 2;
      HighBit(w - 1, x, r / 2, k);
    }
  }

  lemma OwnerBits(mode: nat)
    requires mode <= 0x1FF
    ensures WithOwnerBits(mode, OwnerAccess(mode))
  {
    var x, r := mode / 0x40, mode % 0x40;
    assert Power2(6) == 0x40 by { assert Power2(3) == 8; }
    hide Power2;
    assert mode == Power2(6) * x + r && OwnerAccess(mode) == Power2(6) * 7 + r;
    forall k: nat | k < 9 ensures Bit(OwnerAccess(mode), k) <==> Bit(mode, k) || k >= 6 {
      if k < 6 {
        LowBit(6, x, r, k);
        LowBit(6, 7, r, k);
      } else {
        HighBit(6, 7, r, k - 6);
        assert Bit(7, 0) && Bit(7, 1) && Bit(7, 2);
      }
    }
  }
}
