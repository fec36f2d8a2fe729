/** Passes over one quiet source that are killed or cut short any number of times, and then one that is
    not (internal/daemon/daemon.go:253-300). */
module Resume {
  import opened Model
  import opened Paths
  import opened Tree
  import opened Layout
  import opened Index
  import opened Assembly
  import opened Apply
  import opened Scan
  import opened TempFile
  import opened Machine
  import opened Recovery
  import opened Replicate
  import opened Convergence
  import Retry

  /** The list of a quiet source. */
  ghost predicate Listed(h: Hasher, id: string, u: set<Bytes>, src: Tree, es: seq<Entry>) {
    QuietSource(h, id, u, src) && Listing(es, Snapshot(h, src))
  }

  /** Outside the list everything is as in t0, but for names that no list can hold. */
  ghost predicate OthersKept(h: Hasher, src: Tree, t0: Tree, t: Tree) {
    forall p :: p !in Snapshot(h, src) && (p in t0 || ValidPath(p)) ==> SameAt(t0, t, p)
  }

  /** A receiver that interrupted passes have brought some way: no listed path has been edited, and the
      first k rows of the list are in the index. */
  ghost predicate OnTheWay(h: Hasher, id: string, u: set<Bytes>, src: Tree, es: seq<Entry>, t0: Tree, index0: Index,
                           t: Tree, index: Index, k: nat) {
    && WellFormed(t) && MarkerOk(t, id)
    && (forall i: nat :: i < |es| ==> Unedited(h, u, t, index, es[i]))
    && k <= |es| && index == Override(index0, es[..k])
    && OthersKept(h, src, t0, t)
  }

  /** What is known of a listed entry. */
  lemma ListedFacts(h: Hasher, id: string, u: set<Bytes>, src: Tree, es: seq<Entry>, j: nat)
    requires Listed(h, id, u, src, es) && j < |es|
    ensures var e := es[j];
            && e.path in src && ValidPath(e.path) && e.path in Snapshot(h, src) && ValidEntry(e)
            && (e.kind == "file" || e.kind == "directory")
            && (e.kind == "file" ==> src[e.path].File? && e == Fingerprint(h, e.path, src[e.path].content, e.mode)
                                     && Covers(u, src[e.path].content))
            && (forall a :: IsAncestor(a, e.path) ==> a in Snapshot(h, src) && Snapshot(h, src)[a].kind == "directory")
  {
    hide Less, Covers, ValidPath, ValidLayout, SliceBlocks, MarkerOk, Shown;
    var e := es[j];
    SnapshotIsClosed(h, src);
    hide WellFormed;
    ListedEntry(h, id, u, src, e.path);
    FileEntryKind(h, src, e.path);
  }

  lemma ListedAncestor(h: Hasher, id: string, u: set<Bytes>, src: Tree, es: seq<Entry>, i: nat, j: nat)
    requires Listed(h, id, u, src, es) && i < |es| && j < |es| && IsAncestor(es[i].path, es[j].path)
    ensures es[i].kind == "directory"
  {
    ListedFacts(h, id, u, src, es, j);
    hide QuietSource, Less, Snapshot;
  }

  /** A change that concerns listed entry j alone: parents may appear, and its own path is as it was, or as
      the source has it. */
  ghost predicate Touches(h: Hasher, u: set<Bytes>, t: Tree, index: Index, e: Entry, t': Tree, index': Index) {
    && (forall p :: p in t && p != e.path ==> p in t' && t'[p] == t[p])
    && (forall p :: p in t' && p !in t && p != e.path ==> t'[p].Dir? && IsAncestor(p, e.path))
    && ((SameAt(t, t', e.path) && index' == index)
        || (e.path in t' && Describes(h, e, t'[e.path]) && (t'[e.path].File? ==> Covers(u, t'[e.path].content))
            && (index' == index || index' == index[e.path := e])))
  }

  lemma TouchesOne(h: Hasher, id: string, u: set<Bytes>, src: Tree, es: seq<Entry>, t: Tree, index: Index, j: nat,
                   t': Tree, index': Index, i: nat)
    requires Listed(h, id, u, src, es) && i < |es| && j < |es| && Unedited(h, u, t, index, es[i])
    requires Touches(h, u, t, index, es[j], t', index')
    ensures Unedited(h, u, t', index', es[i])
  {
    hide Listed, Touches, Unedited, IsAncestor;
    ListedFacts(h, id, u, src, es, j);
    ListedDistinct(h, id, u, src, es);
    if i == j {
      TouchesItself(h, u, t, index, es[j], t', index');
    } else {
      if IsAncestor(es[i].path, es[j].path) {
        ListedAncestor(h, id, u, src, es, i, j);
      }
      TouchesAnother(h, u, t, index, es[j], t', index', es[i]);
    }
  }

  lemma TouchesItself(h: Hasher, u: set<Bytes>, t: Tree, index: Index, e: Entry, t': Tree, index': Index)
    requires Touches(h, u, t, index, e, t', index') && Unedited(h, u, t, index, e)
    requires ValidEntry(e) && (e.kind == "file" || e.kind == "directory")
    ensures Unedited(h, u, t', index', e)
  {
    hide Covers, ValidPath, ValidLayout, SliceBlocks, IsAncestor;
  }

  lemma TouchesAnother(h: Hasher, u: set<Bytes>, t: Tree, index: Index, e: Entry, t': Tree, index': Index, e2: Entry)
    requires Touches(h, u, t, index, e, t', index') && Unedited(h, u, t, index, e2) && e2.path != e.path
    requires IsAncestor(e2.path, e.path) ==> e2.kind == "directory"
    ensures Unedited(h, u, t', index', e2)
  {
    hide Covers, Describes, IsAncestor;
  }

  lemma TouchesOthers(h: Hasher, id: string, u: set<Bytes>, src: Tree, es: seq<Entry>, t0: Tree, t: Tree, index: Index, j: nat,
                      t': Tree, index': Index)
    requires Listed(h, id, u, src, es) && j < |es| && OthersKept(h, src, t0, t)
    requires Touches(h, u, t, index, es[j], t', index') && MarkerOk(t, id)
    ensures OthersKept(h, src, t0, t') && MarkerOk(t', id)
  {
    ListedFacts(h, id, u, src, es, j);
    MarkerNotValid();
    hide QuietSource, Covers, Snapshot, Less, ValidPath, Describes, IsAncestor, ValidEntry;
  }

  /** A successful Apply of a listed entry installs the source's own bytes, whatever replies of the known
      contents it got. */
  lemma AppliedTouches(h: Hasher, id: string, u: set<Bytes>, src: Tree, es: seq<Entry>, t: Tree, index: Index, j: nat,
                       fetch: Replies)
    requires Listed(h, id, u, src, es) && j < |es| && WellFormed(t) && Unedited(h, u, t, index, es[j]) && RepliesIn(u, fetch)
    ensures var o := Applied(h, id, t, index, es[j], fetch);
            && Touches(h, u, t, index, es[j], o.tree, o.index)
            && (o.result.Ok? ==> o.index == index[es[j].path := es[j]])
            && (o.result.Err? ==> o.index == index)
  {
    hide Applied, WellFormed, Listed, Unedited, RepliesIn, Touches;
    var e := es[j];
    var o := Applied(h, id, t, index, e, fetch);
    OnlyDestination(h, id, t, index, e, fetch);
    if o.result.Ok? {
      SuccessIsExact(h, id, t, index, e, fetch);
      SuccessCovered(h, id, u, src, es, t, index, j, fetch);
      SuccessTouches(h, u, t, index, e, o.tree);
    } else {
      FailureIsHarmless(h, id, t, index, e, fetch);
      FailureTouches(h, u, t, index, e, o.tree);
    }
  }

  lemma SuccessTouches(h: Hasher, u: set<Bytes>, t: Tree, index: Index, e: Entry, t': Tree)
    requires forall p :: p in t && p != e.path ==> p in t' && t'[p] == t[p]
    requires forall p :: p in t' && p !in t ==> (t'[p].Dir? && IsAncestor(p, e.path)) || p == e.path
    requires e.path in t' && Describes(h, e, t'[e.path]) && (t'[e.path].File? ==> Covers(u, t'[e.path].content))
    ensures Touches(h, u, t, index, e, t', index[e.path := e])
  {
    hide Describes, Covers, IsAncestor;
  }

  lemma FailureTouches(h: Hasher, u: set<Bytes>, t: Tree, index: Index, e: Entry, t': Tree)
    requires t' == t || t' == WithParents(t, e.path)
    ensures Touches(h, u, t, index, e, t', index)
  {
    hide IsAncestor, Describes, Covers;
    NotOwnAncestor(e.path);
  }

  lemma SuccessCovered(h: Hasher, id: string, u: set<Bytes>, src: Tree, es: seq<Entry>, t: Tree, index: Index, j: nat,
                       fetch: Replies)
    requires Listed(h, id, u, src, es) && j < |es| && WellFormed(t) && Unedited(h, u, t, index, es[j]) && RepliesIn(u, fetch)
    requires Applied(h, id, t, index, es[j], fetch).result.Ok?
    requires var o := Applied(h, id, t, index, es[j], fetch);
             es[j].path in o.tree && Describes(h, es[j], o.tree[es[j].path])
    ensures var o := Applied(h, id, t, index, es[j], fetch);
            o.tree[es[j].path].File? ==> Covers(u, o.tree[es[j].path].content)
  {
    hide Applied, Covers, WellFormed, Listed, ValidEntry, ValidPath, IsAncestor, Unedited, Fingerprint, RepliesIn, Snapshot;
    ListedFacts(h, id, u, src, es, j);
    if es[j].kind == "file" {
      QuietIsInjective(h, id, u, src, es);
      InstalledIsOriginal(h, id, u, t, index, es[j], fetch, src[es[j].path].content);
    }
  }

  lemma QuietIsInjective(h: Hasher, id: string, u: set<Bytes>, src: Tree, es: seq<Entry>)
    requires Listed(h, id, u, src, es)
    ensures InjectiveOn(h, u)
  {}

  lemma InstalledIsOriginal(h: Hasher, id: string, u: set<Bytes>, t: Tree, index: Index, e: Entry, fetch: Replies, c: Bytes)
    requires Applied(h, id, t, index, e, fetch).result.Ok? && e.kind == "file" && e == Fingerprint(h, e.path, c, e.mode)
    requires InjectiveOn(h, u) && Covers(u, c) && RepliesIn(u, fetch) && Unedited(h, u, t, index, e)
    ensures var o := Applied(h, id, t, index, e, fetch);
            e.path in o.tree && o.tree[e.path].File? && o.tree[e.path].content == c
  {
    hide Applied, InjectiveOn, Covers, RepliesIn, Fingerprint, AssembleAll;
    AssembleAllIsOriginal(h, u, e, CurrentContent(t, e.path), fetch, c);
    FingerprintHash(h, e.path, c, e.mode);
    InstalledContent(h, id, t, index, e, fetch);
    if e.path in t && t[e.path].File? {
      SameHash(h, u, t[e.path].content, c);
    }
  }

  lemma InstalledContent(h: Hasher, id: string, t: Tree, index: Index, e: Entry, fetch: Replies)
    requires Applied(h, id, t, index, e, fetch).result.Ok? && e.kind == "file"
    ensures var o := Applied(h, id, t, index, e, fetch);
            var old' := CurrentContent(t, e.path);
            && e.path in o.tree && o.tree[e.path].File?
            && ((old'.Some? && h(old'.value) == e.hash && o.tree[e.path].content == old'.value)
                || (AssembleAll(h, e, old', fetch).Ok? && o.tree[e.path].content == AssembleAll(h, e, old', fetch).value.data))
  {
    hide AssembleAll, MarkerOk, ComponentsOk, WithParents, ValidEntry, Fits, OldBlocks;
  }

  lemma SameHash(h: Hasher, u: set<Bytes>, a: Bytes, c: Bytes)
    requires InjectiveOn(h, u) && Covers(u, a) && Covers(u, c)
    ensures h(a) == h(c) ==> a == c
  {}

  lemma AssembleAllIsOriginal(h: Hasher, u: set<Bytes>, e: Entry, old': Option<Bytes>, fetch: Replies, c: Bytes)
    requires e == Fingerprint(h, e.path, c, e.mode)
    requires InjectiveOn(h, u) && Covers(u, c) && RepliesIn(u, fetch) && (old'.Some? ==> Covers(u, old'.value))
    ensures AssembleAll(h, e, old', fetch).Ok? ==> AssembleAll(h, e, old', fetch).value.data == c
  {
    hide BlockMap, Assemble, InjectiveOn, OldBlocks, ReadOld, SliceBlocks;
    var m := BlockMap(OldBlocks(h, old'));
    forall b | ReadOld(old', m, b).Some? ensures ReadOld(old', m, b).value in u {
      ReuseCovered(h, u, old', b);
    }
    AssembledIsOriginal(h, c, old', m, fetch, u, BlockCount(|c|));
    assert c[..|c|] == c;
  }

  /** One entry of a pass, the first k rows being in the index already and the first j entries being
      behind it. */
  lemma EntryOnTheWay(h: Hasher, id: string, u: set<Bytes>, src: Tree, es: seq<Entry>, t0: Tree, index0: Index,
                      t: Tree, index: Index, k: nat, j: nat, fetch: Replies) returns (k': nat)
    requires Listed(h, id, u, src, es) && OnTheWay(h, id, u, src, es, t0, index0, t, index, k) && j < |es| && j <= k
    requires RepliesIn(u, fetch)
    ensures var o := Applied(h, id, t, index, es[j], fetch);
            OnTheWay(h, id, u, src, es, t0, index0, o.tree, o.index, k') && k <= k' && (o.result.Ok? ==> j < k')
  {
    hide Applied, Listed, Unedited, Touches, OthersKept, WellFormed, MarkerOk, RepliesIn, Override;
    var o := Applied(h, id, t, index, es[j], fetch);
    AppliedTouches(h, id, u, src, es, t, index, j, fetch);
    KeepsWellFormed(h, id, t, index, es[j], fetch);
    TouchedOnTheWay(h, id, u, src, es, t0, t, index, j, o.tree, o.index);
    k' := RowCommitted(h, id, u, src, es, index0, k, j);
    if o.result.Err? {
      k' := k;
    }
  }

  lemma TouchedOnTheWay(h: Hasher, id: string, u: set<Bytes>, src: Tree, es: seq<Entry>, t0: Tree, t: Tree, index: Index, j: nat,
                        t': Tree, index': Index)
    requires Listed(h, id, u, src, es) && j < |es| && OthersKept(h, src, t0, t) && MarkerOk(t, id)
    requires forall i: nat :: i < |es| ==> Unedited(h, u, t, index, es[i])
    requires Touches(h, u, t, index, es[j], t', index')
    ensures OthersKept(h, src, t0, t') && MarkerOk(t', id) && forall i: nat :: i < |es| ==> Unedited(h, u, t', index', es[i])
  {
    hide Listed, Unedited, Touches, OthersKept, MarkerOk;
    TouchesOthers(h, id, u, src, es, t0, t, index, j, t', index');
    forall i: nat | i < |es| ensures Unedited(h, u, t', index', es[i]) {
      TouchesOne(h, id, u, src, es, t, index, j, t', index', i);
    }
  }

  /** Committing row j over the first k rows, j <= k, leaves the first k or k + 1 rows. */
  lemma RowCommitted(h: Hasher, id: string, u: set<Bytes>, src: Tree, es: seq<Entry>, index0: Index, k: nat, j: nat) returns (k': nat)
    requires Listed(h, id, u, src, es) && k <= |es| && j < |es| && j <= k
    ensures k <= k' <= |es| && j < k' && Override(index0, es[..k])[es[j].path := es[j]] == Override(index0, es[..k'])
  {
    hide Listed, Override, DistinctPaths;
    ListedDistinct(h, id, u, src, es);
    if j == k {
      k' := k + 1;
      NextRow(index0, es, k);
    } else {
      k' := k;
      DistinctPrefix(es, k);
      PrefixRow(index0, es[..k], j);
    }
  }

  lemma NextRow(m: Index, es: seq<Entry>, k: nat)
    requires k < |es|
    ensures Override(m, es[..k + 1]) == Override(m, es[..k])[es[k].path := es[k]]
  {
    assert es[..k + 1][..k] == es[..k];
  }

  lemma ListedDistinct(h: Hasher, id: string, u: set<Bytes>, src: Tree, es: seq<Entry>)
    requires Listed(h, id, u, src, es)
    ensures DistinctPaths(es)
  {
    hide QuietSource, Listing, Snapshot;
    ListingIsDistinct(es, Snapshot(h, src));
  }

  lemma DistinctPrefix(es: seq<Entry>, k: nat)
    requires DistinctPaths(es) && k <= |es|
    ensures DistinctPaths(es[..k])
  {}

  lemma PrefixRow(m: Index, es: seq<Entry>, j: nat)
    requires DistinctPaths(es) && j < |es|
    ensures Override(m, es)[es[j].path := es[j]] == Override(m, es)
  {
    hide Override;
    OverrideDistinct(m, es, j);
  }

  ghost predicate KnownReplies(u: set<Bytes>, source: Source) {
    forall i: nat :: RepliesIn(u, source(i))
  }

  /** The first n entries of a pass with any replies of known contents. */
  lemma {:induction false} PassOnTheWay(h: Hasher, id: string, u: set<Bytes>, src: Tree, es: seq<Entry>, t0: Tree, index0: Index,
                                        t: Tree, index: Index, k: nat, source: Source, n: nat) returns (k': nat)
    requires Listed(h, id, u, src, es) && OnTheWay(h, id, u, src, es, t0, index0, t, index, k) && n <= |es|
    requires KnownReplies(u, source)
    ensures var s := PassOver(h, id, t, index, es, source, n);
            OnTheWay(h, id, u, src, es, t0, index0, s.tree, s.index, k') && k <= k' && (s.result.Ok? ==> n <= k')
  {
    hide Applied, Listed, OnTheWay, RepliesIn;
    if n == 0 {
      k' := k;
    } else {
      k' := PassOnTheWay(h, id, u, src, es, t0, index0, t, index, k, source, n - 1);
      var s := PassOver(h, id, t, index, es, source, n - 1);
      if s.result.Ok? {
        k' := EntryOnTheWay(h, id, u, src, es, t0, index0, s.tree, s.index, k', n - 1, source(n - 1)) by { assert n - 1 <= k'; }
      }
    }
  }

  /** A pass that gets through its first `whole` entries, if none of them fails, and whose process is killed
      in the next one after that many events. */
  datatype Try = Try(source: Source, whole: nat, nonce: string, steps: nat)

  ghost function Through(h: Hasher, s: Folder, es: seq<Entry>, y: Try): Pass
    requires y.whole <= |es|
  {
    PassOver(h, s.id, s.tree, s.index, es, y.source, y.whole)
  }

  ghost function Moved(s: Folder, p: Pass): Folder {
    s.(tree := p.tree, index := p.index)
  }

  ghost function AfterTry(h: Hasher, s: Folder, es: seq<Entry>, y: Try): Folder
    requires y.whole <= |es|
  {
    var p := Through(h, s, es, y);
    if p.result.Err? || y.whole == |es| then Moved(s, p)
    else Crashed(h, Moved(s, p), es[y.whole], y.source(y.whole), y.nonce, y.steps)
  }

  /** The temporary name of a killed Apply is new, and the pass is over this list. */
  ghost predicate FairTry(h: Hasher, u: set<Bytes>, s: Folder, es: seq<Entry>, y: Try) {
    && y.whole <= |es| && KnownReplies(u, y.source)
    && '/' !in y.nonce && (y.whole < |es| ==> TempPath(es[y.whole].path, y.nonce) !in Through(h, s, es, y).tree)
  }

  ghost function AfterTries(h: Hasher, s: Folder, es: seq<Entry>, ys: seq<Try>): Folder
    requires forall i :: 0 <= i < |ys| ==> ys[i].whole <= |es|
  {
    if ys == [] then s else AfterTry(h, AfterTries(h, s, es, ys[..|ys| - 1]), es, ys[|ys| - 1])
  }

  ghost predicate FairTries(h: Hasher, u: set<Bytes>, s: Folder, es: seq<Entry>, ys: seq<Try>) {
    && (forall i :: 0 <= i < |ys| ==> ys[i].whole <= |es|)
    && forall i :: 0 <= i < |ys| ==> FairTry(h, u, AfterTries(h, s, es, ys[..i]), es, ys[i])
  }

  /** What a killed Apply leaves, its temporary file aside, concerns the entry alone. */
  lemma EffectTouches(h: Hasher, id: string, u: set<Bytes>, src: Tree, es: seq<Entry>, s: Folder, j: nat, fetch: Replies,
                      b: Tree, index': Index)
    requires Listed(h, id, u, src, es) && j < |es| && s.id == id && WellFormed(s.tree)
    requires Unedited(h, u, s.tree, s.index, es[j]) && RepliesIn(u, fetch)
    requires Retry.Effect(h, s, es[j], fetch, b, index')
    ensures Touches(h, u, s.tree, s.index, es[j], b, index')
    ensures index' == s.index || index' == s.index[es[j].path := es[j]]
  {
    hide Applied, WellFormed, Listed, Unedited, RepliesIn, Retry.Undertaken;
    var o := Applied(h, id, s.tree, s.index, es[j], fetch);
    AppliedTouches(h, id, u, src, es, s.tree, s.index, j, fetch);
    FailureTouches(h, u, s.tree, s.index, es[j], s.tree);
    FailureTouches(h, u, s.tree, s.index, es[j], WithParents(s.tree, es[j].path));
    if o.result.Ok? && b == o.tree {
      SuccessWithoutRow(h, id, u, src, es, s.tree, s.index, j, fetch);
    }
  }

  lemma SuccessWithoutRow(h: Hasher, id: string, u: set<Bytes>, src: Tree, es: seq<Entry>, t: Tree, index: Index, j: nat,
                          fetch: Replies)
    requires Listed(h, id, u, src, es) && j < |es| && WellFormed(t) && Unedited(h, u, t, index, es[j]) && RepliesIn(u, fetch)
    requires Applied(h, id, t, index, es[j], fetch).result.Ok?
    ensures Touches(h, u, t, index, es[j], Applied(h, id, t, index, es[j], fetch).tree, index)
  {
    hide Applied, WellFormed, Listed, Unedited, RepliesIn, Describes, Covers, IsAncestor;
    OnlyDestination(h, id, t, index, es[j], fetch);
    SuccessIsExact(h, id, t, index, es[j], fetch);
    SuccessCovered(h, id, u, src, es, t, index, j, fetch);
  }

  /** A temporary file more or less makes no difference to what is on the way. */
  lemma TempAside(h: Hasher, id: string, u: set<Bytes>, src: Tree, es: seq<Entry>, t0: Tree, t: Tree, index: Index, tmp: string)
    requires Listed(h, id, u, src, es) && !ValidPath(tmp) && tmp != MARKER_NAME && tmp !in t0
    requires OthersKept(h, src, t0, t - {tmp}) && MarkerOk(t - {tmp}, id)
    requires forall i: nat :: i < |es| ==> Unedited(h, u, t - {tmp}, index, es[i])
    ensures OthersKept(h, src, t0, t) && MarkerOk(t, id) && forall i: nat :: i < |es| ==> Unedited(h, u, t, index, es[i])
  {
    hide Listed, Unedited, OthersKept, ValidPath, IsAncestor, Snapshot, Covers, Fingerprint, ValidEntry;
    forall i: nat | i < |es| ensures Unedited(h, u, t, index, es[i]) {
      ListedFacts(h, id, u, src, es, i);
      UneditedAside(h, u, t, index, es[i], tmp);
    }
    OthersAside(h, src, t0, t, tmp);
  }

  lemma UneditedAside(h: Hasher, u: set<Bytes>, t: Tree, index: Index, e: Entry, tmp: string)
    requires e.path != tmp && Unedited(h, u, t - {tmp}, index, e)
    ensures Unedited(h, u, t, index, e)
  {
    hide Covers;
  }

  lemma OthersAside(h: Hasher, src: Tree, t0: Tree, t: Tree, tmp: string)
    requires !ValidPath(tmp) && tmp !in t0 && OthersKept(h, src, t0, t - {tmp})
    ensures OthersKept(h, src, t0, t)
  {
    hide ValidPath, Snapshot;
    forall p | p !in Snapshot(h, src) && (p in t0 || ValidPath(p)) ensures SameAt(t0, t, p) {
      assert SameAt(t0, t - {tmp}, p) && p != tmp;
    }
  }

  /** A try leaves the receiver on the way. */
  lemma TryOnTheWay(h: Hasher, id: string, u: set<Bytes>, src: Tree, es: seq<Entry>, t0: Tree, index0: Index, s: Folder, k: nat,
                    y: Try) returns (k': nat)
    requires Listed(h, id, u, src, es) && OnTheWay(h, id, u, src, es, t0, index0, s.tree, s.index, k)
    requires s.phase.Idle? && s.id == id && FairTry(h, u, s, es, y)
    ensures var c := AfterTry(h, s, es, y);
            c.phase.Idle? && c.id == id && OnTheWay(h, id, u, src, es, t0, index0, c.tree, c.index, k')
  {
    hide Listed, OnTheWay, PassOver, RepliesIn, TempPath, Crashed;
    var p := Through(h, s, es, y);
    k' := PassOnTheWay(h, id, u, src, es, t0, index0, s.tree, s.index, k, y.source, y.whole);
    if p.result.Ok? && y.whole < |es| {
      k' := KillOnTheWay(h, id, u, src, es, t0, index0, Moved(s, p), k', y);
    }
  }

  lemma KillOnTheWay(h: Hasher, id: string, u: set<Bytes>, src: Tree, es: seq<Entry>, t0: Tree, index0: Index, s: Folder, k: nat,
                     y: Try) returns (k': nat)
    requires Listed(h, id, u, src, es) && OnTheWay(h, id, u, src, es, t0, index0, s.tree, s.index, k)
    requires s.phase.Idle? && s.id == id && y.whole < |es| && y.whole <= k && RepliesIn(u, y.source(y.whole))
    requires '/' !in y.nonce && TempPath(es[y.whole].path, y.nonce) !in s.tree
    ensures var c := Crashed(h, s, es[y.whole], y.source(y.whole), y.nonce, y.steps);
            c.phase.Idle? && c.id == id && OnTheWay(h, id, u, src, es, t0, index0, c.tree, c.index, k')
  {
    hide Crashed, Applied, WellFormed, Listed, Unedited, RepliesIn, Retry.Effect, Touches, OthersKept, MarkerOk, TempPath, ValidPath,
      Override, ValidEntry, Fingerprint, Covers, IsAncestor;
    var j := y.whole;
    var e := es[j];
    var tmp := TempPath(e.path, y.nonce);
    ListedFacts(h, id, u, src, es, j);
    TempIsApart(s.tree, e.path, y.nonce);
    var a := Retry.Attempt(y.source(j), y.nonce, y.steps);
    Retry.KilledEffect(h, s, e, a);
    var c := Crashed(h, s, e, y.source(j), y.nonce, y.steps);
    EffectTouches(h, id, u, src, es, s, j, y.source(j), c.tree - {tmp}, c.index);
    TouchedOnTheWay(h, id, u, src, es, t0, s.tree, s.index, j, c.tree - {tmp}, c.index);
    NotThereBefore(h, id, u, src, es, t0, s.tree, tmp);
    TempAside(h, id, u, src, es, t0, c.tree, c.index, tmp);
    k' := RowCommitted(h, id, u, src, es, index0, k, j);
    if c.index == s.index {
      k' := k;
    }
  }

  lemma NotThereBefore(h: Hasher, id: string, u: set<Bytes>, src: Tree, es: seq<Entry>, t0: Tree, t: Tree, tmp: string)
    requires Listed(h, id, u, src, es) && OthersKept(h, src, t0, t) && tmp !in t && !ValidPath(tmp)
    ensures tmp !in t0
  {
    hide ValidPath;
  }

  lemma EarlierTries(h: Hasher, u: set<Bytes>, s: Folder, es: seq<Entry>, ys: seq<Try>)
    requires ys != [] && FairTries(h, u, s, es, ys)
    ensures FairTries(h, u, s, es, ys[..|ys| - 1])
    ensures forall i :: 0 <= i < |ys| ==> ys[i].whole <= |es|
    ensures FairTry(h, u, AfterTries(h, s, es, ys[..|ys| - 1]), es, ys[|ys| - 1])
  {
    hide AfterTries, FairTry;
    var init := ys[..|ys| - 1];
    assert forall i :: 0 <= i < |init| ==> init[..i] == ys[..i] && init[i] == ys[i];
  }

  lemma {:induction false} TriesOnTheWay(h: Hasher, id: string, u: set<Bytes>, src: Tree, es: seq<Entry>, s: Folder,
                                         ys: seq<Try>) returns (k: nat)
    requires Listed(h, id, u, src, es) && OnTheWay(h, id, u, src, es, s.tree, s.index, s.tree, s.index, 0)
    requires s.phase.Idle? && s.id == id && FairTries(h, u, s, es, ys)
    ensures var c := AfterTries(h, s, es, ys);
            c.phase.Idle? && c.id == id && OnTheWay(h, id, u, src, es, s.tree, s.index, c.tree, c.index, k)
  {
    hide Listed, OnTheWay, AfterTry, FairTry;
    if ys == [] {
      k := 0;
    } else {
      var n := |ys| - 1;
      var init := ys[..n];
      EarlierTries(h, u, s, es, ys);
      hide FairTries;
      k := TriesOnTheWay(h, id, u, src, es, s, init);
      k := TryOnTheWay(h, id, u, src, es, s.tree, s.index, AfterTries(h, s, es, init), k, ys[n]);
    }
  }

  /** Overriding what the first k rows have overridden. */
  lemma {:induction false} OverrideAgain(m: Index, es: seq<Entry>, k: nat, j: nat)
    requires DistinctPaths(es) && k <= |es| && j <= |es|
    ensures Override(Override(m, es[..k]), es[..j]) == Override(m, es[..if k < j then j else k])
  {
    hide Override, DistinctPaths;
    if j == 0 {
      assert es[..0] == [];
      NothingMore(Override(m, es[..k]));
    } else {
      OverrideAgain(m, es, k, j - 1);
      NextRow(Override(m, es[..k]), es, j - 1);
      if k < j {
        NextRow(m, es, j - 1);
      } else {
        DistinctPrefix(es, k);
        PrefixRow(m, es[..k], j - 1);
      }
    }
  }

  lemma NothingMore(m: Index)
    ensures Override(m, []) == m
  {}

  lemma RoomStays(m: Index, es: seq<Entry>, k: nat)
    requires DistinctPaths(es) && k <= |es| && RoomAlong(m, es)
    ensures RoomAlong(Override(m, es[..k]), es) && Override(Override(m, es[..k]), es) == Override(m, es)
  {
    hide Override, DistinctPaths, WithinLimits;
    forall j | 0 <= j <= |es| ensures WithinLimits(Override(Override(m, es[..k]), es[..j])) {
      OverrideAgain(m, es, k, j);
    }
    OverrideAgain(m, es, k, |es|);
    assert es[..|es|] == es;
  }

  /** However often passes over a quiet source have been cut short or killed, at whatever entry and event,
      with whatever replies of known contents: one complete pass with the source's own replies converges.
      The receiver then has the source's files and directories, the old index overridden by the whole list,
      and everything else it had. */
  lemma OnePassAfterKillsConverges(h: Hasher, id: string, u: set<Bytes>, src: Tree, es: seq<Entry>, source: Source, s: Folder,
                                   ys: seq<Try>)
    requires Ready(h, id, u, src, s.tree, s.index, es, source) && s.phase.Idle? && s.id == id
    requires FairTries(h, u, s, es, ys)
    ensures var c := AfterTries(h, s, es, ys);
            var f := PassOver(h, id, c.tree, c.index, es, source, |es|);
            && f.result.Ok? && f.applied == |es| && f.index == Override(s.index, es)
            && (forall p :: p in Snapshot(h, src) ==> p in src && Synced(src, f.tree, p) && p in f.index && f.index[p] == Snapshot(h, src)[p])
            && (forall p :: p !in Snapshot(h, src) && (p in s.tree || ValidPath(p)) ==> SameAt(s.tree, f.tree, p))
  {
    hide QuietSource, Listing, Snapshot, Unedited, ServedBy, WellFormed, MarkerOk, RoomAlong, PassOver, AfterTries, FairTry, Synced,
      ValidPath, Override;
    var c := AfterTries(h, s, es, ys);
    StartOnTheWay(h, id, u, src, es, source, s);
    var k := TriesOnTheWay(h, id, u, src, es, s, ys);
    ListedDistinct(h, id, u, src, es);
    RoomStays(s.index, es, k);
    OnePassConverges(h, id, u, src, c.tree, c.index, es, source);
    var f := PassOver(h, id, c.tree, c.index, es, source, |es|);
    forall p | p !in Snapshot(h, src) && (p in s.tree || ValidPath(p)) ensures SameAt(s.tree, f.tree, p) {
      assert SameAt(s.tree, c.tree, p) && SameAt(c.tree, f.tree, p);
    }
  }

  lemma StartOnTheWay(h: Hasher, id: string, u: set<Bytes>, src: Tree, es: seq<Entry>, source: Source, s: Folder)
    requires Ready(h, id, u, src, s.tree, s.index, es, source)
    ensures Listed(h, id, u, src, es) && OnTheWay(h, id, u, src, es, s.tree, s.index, s.tree, s.index, 0)
  {
    hide QuietSource, Listing, Snapshot, Unedited, ServedBy, WellFormed, MarkerOk, RoomAlong, ValidPath;
    assert es[..0] == [];
  }
}
