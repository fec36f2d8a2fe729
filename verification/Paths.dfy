/** Slash-separated relative paths: ancestors, byte order, and which names are admissible
    (validPath in internal/store/files.go). */
module Paths {

  const MARKER_NAME: string := ".backuply-folder"
  const TEMP_PREFIX: string := ".backuply-tmp-"

  /** a is a proper ancestor directory of p. */
  predicate IsAncestor(a: string, p: string) {
    |a| < |p| && p[..|a|] == a && p[|a|] == '/'
  }

  function Ancestors(p: string): (s: set<string>)
    ensures forall a :: a in s <==> IsAncestor(a, p)
  {
    var s := set i | 0 <= i < |p| && p[i] == '/' :: p[..i];
    assert forall a :: IsAncestor(a, p) ==> a == p[..|a|];
    s
  }

  lemma AncestorTransitive(a: string, b: string, c: string)
    requires IsAncestor(a, b) && IsAncestor(b, c)
    ensures IsAncestor(a, c)
  {
    assert c[..|a|] == b[..|a|];
  }

  /** Byte-wise lexicographic order, the order of Go string comparison. */
  predicate Less(a: string, b: string) {
    |b| > 0 && (|a| == 0 || a[0] < b[0] || (a[0] == b[0] && Less(a[1..], b[1..])))
  }

  lemma {:induction false} LessTotal(a: string, b: string)
    ensures Less(a, b) || a == b || Less(b, a)
    ensures !(Less(a, b) && (a == b || Less(b, a)))
  {
    if |a| > 0 && |b| > 0 && a[0] == b[0] {
      LessTotal(a[1..], b[1..]);
      assert a == [a[0]] + a[1..] && b == [b[0]] + b[1..];
    } else if a == b && |a| == 0 {
    }
  }

  lemma {:induction false} LessTransitive(a: string, b: string, c: string)
    requires Less(a, b) && Less(b, c)
    ensures Less(a, c)
  {
    if |a| > 0 && a[0] == b[0] && b[0] == c[0] {
      LessTransitive(a[1..], b[1..], c[1..]);
    }
  }

  /** a and b agree on their first k bytes, and then a ends or has the smaller byte. */
  predicate SmallerAt(a: string, b: string, k: nat) {
    && k <= |a| && k < |b| && a[..k] == b[..k]
    && (k == |a| || a[k] < b[k])
  }

  /** The order is that of the first difference, with a prefix before what it begins. */
  lemma {:induction false} LessIsByteOrder(a: string, b: string)
    ensures Less(a, b) <==> exists k: nat :: SmallerAt(a, b, k)
  {
    if |a| > 0 && |b| > 0 && a[0] == b[0] {
      LessIsByteOrder(a[1..], b[1..]);
      if k: nat :| SmallerAt(a[1..], b[1..], k) {
        assert a[..k + 1] == [a[0]] + a[1..][..k] && b[..k + 1] == [b[0]] + b[1..][..k];
        assert SmallerAt(a, b, k + 1);
      }
      if k: nat :| SmallerAt(a, b, k) {
        assert k > 0;
        assert a[..k][1..] == a[1..][..k - 1] && b[..k][1..] == b[1..][..k - 1];
        assert SmallerAt(a[1..], b[1..], k - 1);
      }
    } else if Less(a, b) {
      assert SmallerAt(a, b, 0);
    } else {
      forall k: nat | SmallerAt(a, b, k) ensures k == 0 {
        SameFirstByte(a, b, k);
      }
    }
  }

  lemma SameFirstByte(a: string, b: string, k: nat)
    requires SmallerAt(a, b, k)
    ensures k > 0 ==> |a| > 0 && |b| > 0 && a[0] == b[0]
  {
    assert k > 0 ==> a[..k][0] == a[0] && b[..k][0] == b[0];
  }

  /** A directory sorts before everything inside it. */
  lemma {:induction false} AncestorSortsFirst(a: string, p: string)
    requires IsAncestor(a, p)
    ensures Less(a, p)
  {
    if |a| > 0 {
      assert p[1..][..|a[1..]|] == a[1..];
      AncestorSortsFirst(a[1..], p[1..]);
    }
  }

  /** The position of the first slash, or the length of s. */
  function FirstSlash(s: string): (i: nat)
    ensures i <= |s|
    ensures forall j :: 0 <= j < i ==> s[j] != '/'
    ensures i < |s| ==> s[i] == '/'
  {
    if s == "" || s[0] == '/' then 0 else 1 + FirstSlash(s[1..])
  }

  /** strings.Split(s, "/"). */
  function Split(s: string): (parts: seq<string>)
    ensures |parts| > 0
    decreases |s|
  {
    var i := FirstSlash(s);
    if i == |s| then [s] else [s[..i]] + Split(s[i + 1..])
  }

  predicate ReservedName(part: string) {
    part == MARKER_NAME || TEMP_PREFIX <= part
  }

  /** One path element that fs.ValidPath and the reserved-name rule both admit. */
  predicate GoodPart(part: string) {
    part != "" && part != "." && part != ".." && !ReservedName(part)
  }

  predicate GoodChar(c: char) {
    c != '\\' && c != ':' && c != '\0'
  }

  /** validPath. */
  predicate ValidPath(name: string) {
    && |name| <= 4096
    && (forall i :: 0 <= i < |name| ==> GoodChar(name[i]))
    && (forall k :: 0 <= k < |Split(name)| ==> GoodPart(Split(name)[k]))
  }

  lemma FirstSlashAt(s: string, i: nat)
    requires i <= |s| && (forall j :: 0 <= j < i ==> s[j] != '/') && (i < |s| ==> s[i] == '/')
    ensures FirstSlash(s) == i
  {}

  lemma JoinedParts(a: string, b: string, i: nat)
    requires i <= |a|
    ensures var s := a + "/" + b;
            s[..i] == a[..i] && (i == |a| ==> s[i + 1..] == b) && (i < |a| ==> s[i + 1..] == a[i + 1..] + "/" + b)
  {}

  lemma {:induction false} SplitAt(a: string, b: string)
    ensures Split(a + "/" + b) == Split(a) + Split(b)
    decreases |a|
  {
    var s := a + "/" + b;
    var i := FirstSlash(a);
    FirstSlashAt(s, i);
    JoinedParts(a, b, i);
    if i < |a| {
      SplitAt(a[i + 1..], b);
      assert Split(s) == [a[..i]] + (Split(a[i + 1..]) + Split(b));
    } else {
      assert a[..i] == a;
    }
  }

  /** Every ancestor of an admissible path is admissible. */
  lemma AncestorValid(a: string, p: string)
    requires ValidPath(p) && IsAncestor(a, p)
    ensures ValidPath(a)
  {
    assert p == a + "/" + p[|a| + 1..];
    SplitAt(a, p[|a| + 1..]);
    forall k | 0 <= k < |Split(a)| ensures GoodPart(Split(a)[k]) {
      assert Split(p)[k] == Split(a)[k];
    }
  }

  /** The length of path.Dir(p) with its trailing slash; 0 when p has no parent. */
  function DirLength(p: string): (n: nat)
    ensures n <= |p|
    ensures n > 0 ==> p[n - 1] == '/'
    ensures forall j :: n <= j < |p| ==> p[j] != '/'
  {
    if p == "" then 0
    else if p[|p| - 1] == '/' then |p|
    else DirLength(p[..|p| - 1])
  }

  /** The temporary name Apply uses beside p; nonce is the random part. */
  function TempPath(p: string, nonce: string): string {
    p[..DirLength(p)] + TEMP_PREFIX + nonce
  }

  /** A temporary file lives in the directory of its destination. */
  lemma TempAncestors(p: string, nonce: string)
    requires '/' !in nonce
    ensures forall a :: IsAncestor(a, TempPath(p, nonce)) <==> IsAncestor(a, p)
  {
    var n := DirLength(p);
    var tmp := TempPath(p, nonce);
    var tail := TEMP_PREFIX + nonce;
    assert tmp == p[..n] + tail;
    assert forall j :: 0 <= j < |tail| ==> tail[j] != '/';
    assert forall j :: n <= j < |tmp| ==> tmp[j] != '/';
    forall a ensures IsAncestor(a, tmp) <==> IsAncestor(a, p) {
      if IsAncestor(a, tmp) || IsAncestor(a, p) {
        assert |a| < n;
        assert tmp[..|a|] == p[..|a|];
      }
    }
  }

  /** A temporary name is never admissible, so no entry can name one. */
  lemma TempNotValid(p: string, nonce: string)
    requires '/' !in nonce
    ensures !ValidPath(TempPath(p, nonce))
    ensures forall q :: IsAncestor(TempPath(p, nonce), q) ==> !ValidPath(q)
  {
    var n := DirLength(p);
    var tmp := TempPath(p, nonce);
    var tail := TEMP_PREFIX + nonce;
    FirstSlashAt(tail, |tail|);
    assert Split(tail) == [tail];
    assert TEMP_PREFIX <= tail;
    if n == 0 {
      assert tmp == tail;
      assert !GoodPart(Split(tmp)[0]);
    } else {
      assert tmp == p[..n - 1] + "/" + tail;
      SplitAt(p[..n - 1], tail);
      assert !GoodPart(Split(tmp)[|Split(tmp)| - 1]);
    }
    forall q | IsAncestor(tmp, q) ensures !ValidPath(q) {
      if ValidPath(q) {
        AncestorValid(tmp, q);
      }
    }
  }

  /** The marker is not admissible either. */
  lemma MarkerNotValid()
    ensures !ValidPath(MARKER_NAME)
  {
    FirstSlashAt(MARKER_NAME, |MARKER_NAME|);
    assert Split(MARKER_NAME) == [MARKER_NAME];
    assert !GoodPart(Split(MARKER_NAME)[0]);
  }

  /** The inverse of Split: parts put together with slashes. */
  function Join(parts: seq<string>): string
    requires parts != []
  {
    if |parts| == 1 then parts[0] else parts[0] + "/" + Join(parts[1..])
  }

  lemma {:induction false} SplitJoins(s: string)
    ensures Join(Split(s)) == s && forall k :: 0 <= k < |Split(s)| ==> '/' !in Split(s)[k]
    decreases |s|
  {
    var i := FirstSlash(s);
    if i < |s| {
      SplitJoins(s[i + 1..]);
      assert s == s[..i] + "/" + s[i + 1..];
      assert Split(s)[1..] == Split(s[i + 1..]);
    }
  }

  /** Following a path from the root, element by element: whether it stays below the root, and where it
      leads. */
  function Resolve(parts: seq<string>): (r: (bool, seq<string>))
    ensures |r.1| <= |parts|
  {
    if parts == [] then (true, [])
    else
      var r := Resolve(parts[..|parts| - 1]);
      var last := parts[|parts| - 1];
      if !r.0 || last == "" || last == "." then r
      else if last == ".." then if r.1 == [] then (false, []) else (true, r.1[..|r.1| - 1])
      else (true, r.1 + [last])
  }

  lemma {:induction false} ResolveIsPlain(parts: seq<string>)
    ensures Resolve(parts) == (true, parts) <==>
              forall k :: 0 <= k < |parts| ==> parts[k] != "" && parts[k] != "." && parts[k] != ".."
  {
    if parts != [] {
      var init := parts[..|parts| - 1];
      ResolveIsPlain(init);
      assert parts == init + [parts[|parts| - 1]];
      if Resolve(parts) == (true, parts) {
        assert |Resolve(init).1| == |init|;
        assert Resolve(init).1 == init;
      }
    }
  }

  /** The accepted paths are exactly those that stay below the root and lead just where they say, have no
      reserved element, no forbidden character, and at most 4096 bytes. */
  lemma AcceptedPaths(p: string)
    ensures ValidPath(p) <==>
              && |p| <= 4096 && '\\' !in p && ':' !in p && '\0' !in p
              && Resolve(Split(p)) == (true, Split(p))
              && forall k :: 0 <= k < |Split(p)| ==> Split(p)[k] != ".backuply-folder" && !(".backuply-tmp-" <= Split(p)[k])
  {
    hide Split, Resolve;
    ResolveIsPlain(Split(p));
  }

  /** Ordinary names, hidden ones and names with dots or spaces are accepted; what leaves the folder, or is not
      in normal form, is not. */
  lemma PathExamples()
    ensures ValidPath(".gitignore") && ValidPath("my file") && ValidPath("..x") && ValidPath("a/b.txt")
    ensures !ValidPath("") && !ValidPath(".") && !ValidPath("..") && !ValidPath("a/..") && !ValidPath("/a") && !ValidPath("a/")
  {
    OneElement(".gitignore");
    OneElement("my file");
    OneElement("..x");
    TwoElements("a", "b.txt");
    OneElement("");
    OneElement(".");
    OneElement("..");
    TwoElements("a", "..");
    TwoElements("", "a");
    TwoElements("a", "");
    assert "a" + "/" + "b.txt" == "a/b.txt" && "a" + "/" + ".." == "a/.." && "" + "/" + "a" == "/a" && "a" + "/" + "" == "a/";
  }

  lemma NameExample(s: string)
    requires s == ".gitignore" || s == "my file" || s == "..x" || s == "a" || s == "b.txt"
    ensures GoodPart(s) && (forall i :: 0 <= i < |s| ==> GoodChar(s[i]))
  {
    assert ".gitignore"[1] == 'g' && MARKER_NAME[1] == 'b' && TEMP_PREFIX[1] == 'b' && "..x"[1] == '.';
  }

  lemma OneElement(s: string)
    requires s == ".gitignore" || s == "my file" || s == "..x" || s == "" || s == "." || s == ".."
    ensures ValidPath(s) <==> s == ".gitignore" || s == "my file" || s == "..x"
  {
    FirstSlashAt(s, |s|);
    assert Split(s) == [s] && Split(s)[0] == s;
    if s == ".gitignore" || s == "my file" || s == "..x" {
      NameExample(s);
    }
    hide Split, ReservedName;
  }

  lemma TwoElements(a: string, b: string)
    requires (a == "a" && (b == "b.txt" || b == ".." || b == "")) || (a == "" && b == "a")
    ensures ValidPath(a + "/" + b) <==> b == "b.txt"
  {
    FirstSlashAt(a, |a|);
    FirstSlashAt(b, |b|);
    SplitAt(a, b);
    var parts := Split(a + "/" + b);
    assert parts == [a, b] && parts[0] == a && parts[1] == b;
    hide Split, ReservedName;
    if b == "b.txt" {
      NameExample(a);
      NameExample(b);
    }
  }
}
