/** One replication pass over a listed manifest (internal/daemon/daemon.go:269-286): sort by path,
    apply entry by entry, stop at the first error. */
module Replicate {
  import opened Model
  import opened Paths
  import opened Tree
  import opened Layout
  import opened Index
  import opened Assembly
  import opened Apply
  import opened Ledger
  import opened Store

  /** The state of a pass: the folder, how many entries were applied, and the totals or the error. */
  datatype Pass = Pass(tree: Tree, index: Index, applied: nat, result: Result<Stats, Error>)

  /** The replies of the peer while entry number i is applied. */
  type Source = nat -> Replies

  function Add(a: Stats, b: Stats): Stats {
    Stats(a.files + b.files, a.received + b.received, a.reused + b.reused)
  }

  /** The pass over the first k entries. */
  ghost function PassOver(h: Hasher, id: string, t: Tree, index: Index, es: seq<Entry>, source: Source, k: nat): Pass
    requires k <= |es|
  {
    if k == 0 then Pass(t, index, 0, Ok(Stats(0, 0, 0)))
    else
      var s := PassOver(h, id, t, index, es, source, k - 1);
      if s.result.Err? then s
      else
        var o := Applied(h, id, s.tree, s.index, es[k - 1], source(k - 1));
        if o.result.Err? then Pass(o.tree, o.index, s.applied, Err(o.result.error))
        else Pass(o.tree, o.index, k, Ok(Add(s.result.value, o.result.value)))
  }

  function SumSizes(es: seq<Entry>): int {
    if es == [] then 0 else es[0].size + SumSizes(es[1..])
  }

  lemma {:induction false} SumSizesNext(es: seq<Entry>, k: nat)
    requires k < |es|
    ensures SumSizes(es[..k + 1]) == SumSizes(es[..k]) + es[k].size
  {
    if k > 0 {
      SumSizesNext(es[1..], k - 1);
      assert es[..k + 1][1..] == es[1..][..k] && es[..k][1..] == es[1..][..k - 1];
    } else {
      assert es[..1][1..] == [];
    }
  }

  /** What a pass does with entry j: the Apply of that entry to what the entries before it left. */
  ghost function Turn(h: Hasher, id: string, t: Tree, index: Index, es: seq<Entry>, source: Source, j: nat): Outcome
    requires j < |es|
  {
    var s := PassOver(h, id, t, index, es, source, j);
    Applied(h, id, s.tree, s.index, es[j], source(j))
  }

  /** An Apply of e to t has to put a new file in place, by a rename. */
  predicate Installs(h: Hasher, t: Tree, e: Entry) {
    e.kind == "file" && !(e.path in t && t[e.path].File? && h(t[e.path].content) == e.hash)
  }

  /** The bytes that the first k turns received, one by one. */
  ghost function SumReceived(h: Hasher, id: string, t: Tree, index: Index, es: seq<Entry>, source: Source, k: nat): int
    requires k <= |es|
  {
    if k == 0 then 0
    else
      var r := Turn(h, id, t, index, es, source, k - 1).result;
      SumReceived(h, id, t, index, es, source, k - 1) + if r.Ok? then r.value.received else 0
  }

  /** How many of the first k turns had to put a file in place. */
  ghost function CountInstalls(h: Hasher, id: string, t: Tree, index: Index, es: seq<Entry>, source: Source, k: nat): int
    requires k <= |es|
  {
    if k == 0 then 0
    else
      CountInstalls(h, id, t, index, es, source, k - 1)
      + if Installs(h, PassOver(h, id, t, index, es, source, k - 1).tree, es[k - 1]) then 1 else 0
  }

  lemma FilesCountInstalls(h: Hasher, id: string, t: Tree, index: Index, e: Entry, fetch: Replies)
    requires Applied(h, id, t, index, e, fetch).result.Ok?
    ensures Applied(h, id, t, index, e, fetch).result.value.files == if Installs(h, t, e) then 1 else 0
  {
    hide AssembleAll, WithParents, MarkerOk, ComponentsOk, ValidPath, ValidLayout, Fits, OldBlocks;
  }

  /** The totals of a pass that succeeds: what it received and reused is the size of everything listed; what
      it received is the sum of what its entries received; and its files are those it had to put in
      place. */
  lemma {:induction false} PassTotals(h: Hasher, id: string, t: Tree, index: Index, es: seq<Entry>, source: Source, k: nat)
    requires WellFormed(t) && k <= |es| && PassOver(h, id, t, index, es, source, k).result.Ok?
    ensures var r := PassOver(h, id, t, index, es, source, k).result.value;
            && r.received + r.reused == SumSizes(es[..k])
            && r.received == SumReceived(h, id, t, index, es, source, k)
            && r.files == CountInstalls(h, id, t, index, es, source, k)
    ensures WellFormed(PassOver(h, id, t, index, es, source, k).tree)
  {
    hide Applied, WellFormed, Installs, SumSizes, PassOver;
    if k == 0 {
      NothingPassed(h, id, t, index, es, source);
    } else {
      PassNext(h, id, t, index, es, source, k - 1);
      PassTotals(h, id, t, index, es, source, k - 1);
      TurnTotals(h, id, t, index, es, source, k - 1);
      SumSizesNext(es, k - 1);
    }
  }

  lemma NothingPassed(h: Hasher, id: string, t: Tree, index: Index, es: seq<Entry>, source: Source)
    ensures PassOver(h, id, t, index, es, source, 0) == Pass(t, index, 0, Ok(Stats(0, 0, 0))) && SumSizes(es[..0]) == 0
  {}

  lemma PassNext(h: Hasher, id: string, t: Tree, index: Index, es: seq<Entry>, source: Source, j: nat)
    requires j < |es| && PassOver(h, id, t, index, es, source, j + 1).result.Ok?
    ensures var s := PassOver(h, id, t, index, es, source, j);
            var o := Turn(h, id, t, index, es, source, j);
            && s.result.Ok? && o.result.Ok?
            && PassOver(h, id, t, index, es, source, j + 1).tree == o.tree
            && PassOver(h, id, t, index, es, source, j + 1).result.value == Add(s.result.value, o.result.value)
  {
    hide Applied;
  }

  lemma TurnTotals(h: Hasher, id: string, t: Tree, index: Index, es: seq<Entry>, source: Source, j: nat)
    requires j < |es| && WellFormed(PassOver(h, id, t, index, es, source, j).tree) && Turn(h, id, t, index, es, source, j).result.Ok?
    ensures var r := Turn(h, id, t, index, es, source, j).result.value;
            && r.received + r.reused == es[j].size
            && r.files == if Installs(h, PassOver(h, id, t, index, es, source, j).tree, es[j]) then 1 else 0
    ensures WellFormed(Turn(h, id, t, index, es, source, j).tree)
  {
    hide Applied, WellFormed, Installs, PassOver;
    var s := PassOver(h, id, t, index, es, source, j);
    SuccessIsExact(h, id, s.tree, s.index, es[j], source(j));
    FilesCountInstalls(h, id, s.tree, s.index, es[j], source(j));
    KeepsWellFormed(h, id, s.tree, s.index, es[j], source(j));
  }

  ghost predicate SortedByPath(es: seq<Entry>) {
    forall i, j :: 0 <= i < j < |es| ==> es[i].path == es[j].path || Less(es[i].path, es[j].path)
  }

  /** An indexed path that is gone from the disk is refused, whatever the entry says. */
  lemma DeletedPathIsRefused(h: Hasher, id: string, t: Tree, index: Index, e: Entry, fetch: Replies)
    requires e.path !in t && e.path in index
    ensures Applied(h, id, t, index, e, fetch).result.Err?
  {
    hide Install, WithinLimits, ValidEntry, ComponentsOk;
  }

  /** An entry that does not sort after a deleted indexed path leaves the path deleted. */
  lemma DeletionStep(h: Hasher, id: string, t: Tree, index: Index, e: Entry, fetch: Replies, p: string)
    requires p !in t && p in index && (e.path == p || Less(e.path, p))
    ensures var o := Applied(h, id, t, index, e, fetch);
            p !in o.tree && p in o.index && (o.result.Ok? ==> Less(e.path, p))
  {
    hide Applied;
    NothingLocalIsLost(h, id, t, index, e, fetch, p);
    KeepsRows(h, id, t, index, e, fetch);
    if e.path == p {
      DeletedPathIsRefused(h, id, t, index, e, fetch);
    }
    if IsAncestor(p, e.path) {
      AncestorSortsFirst(p, e.path);
      LessTotal(p, e.path);
    }
  }

  /** Up to the entry that names a deleted path, nothing recreates the path, and that entry fails. */
  lemma {:induction false} DeletionHolds(h: Hasher, id: string, t: Tree, index: Index, es: seq<Entry>,
                                         source: Source, d: nat, k: nat)
    requires SortedByPath(es) && d < |es| && k <= |es|
    requires es[d].path !in t && es[d].path in index
    ensures var s := PassOver(h, id, t, index, es, source, k);
            && es[d].path !in s.tree && es[d].path in s.index
            && (s.result.Ok? ==> k <= d && s.applied == k) && s.applied <= d
            && forall i :: 0 <= i < s.applied ==> Less(es[i].path, es[d].path)
  {
    hide Applied, Less;
    if k > 0 {
      DeletionHolds(h, id, t, index, es, source, d, k - 1);
      var s := PassOver(h, id, t, index, es, source, k - 1);
      if s.result.Ok? {
        assert k - 1 < d ==> es[k - 1].path == es[d].path || Less(es[k - 1].path, es[d].path);
        DeletionStep(h, id, s.tree, s.index, es[k - 1], source(k - 1), es[d].path);
        LessTotal(es[d].path, es[d].path);
      }
    }
  }

  /** A whole pass never brings back a manifest path that was deleted locally: it fails, having
      applied only entries that sort before every deleted path. */
  lemma DeletionsAreNotUndone(h: Hasher, id: string, t: Tree, index: Index, es: seq<Entry>, source: Source)
    requires SortedByPath(es)
    ensures var s := PassOver(h, id, t, index, es, source, |es|);
            forall d :: 0 <= d < |es| && es[d].path !in t && es[d].path in index ==>
              && es[d].path !in s.tree && s.result.Err? && s.applied <= d
              && forall i :: 0 <= i < s.applied ==> Less(es[i].path, es[d].path)
  {
    forall d | 0 <= d < |es| && es[d].path !in t && es[d].path in index
      ensures var s := PassOver(h, id, t, index, es, source, |es|);
              && es[d].path !in s.tree && s.result.Err? && s.applied <= d
              && forall i :: 0 <= i < s.applied ==> Less(es[i].path, es[d].path)
    {
      DeletionHolds(h, id, t, index, es, source, d, |es|);
    }
  }

  /** Alone, an entry below a deleted directory does bring the directory back, exactly when the
      checks before ensureParents let it through. Only the order of the pass prevents it. */
  lemma ChildAloneRecreatesParent(h: Hasher, id: string, t: Tree, index: Index, e: Entry, fetch: Replies, d: string)
    requires WellFormed(t) && IsAncestor(d, e.path) && d !in t && d in index
    requires ValidEntry(e) && Fits(index, e) && MarkerOk(t, id) && ComponentsOk(t, e.path, true)
    ensures d in Applied(h, id, t, index, e, fetch).tree <==> e.path !in index
  {
    assert e.path !in t;
    hide AssembleAll, WithinLimits, ValidEntry, ComponentsOk;
  }

  function InsertByPath(e: Entry, es: seq<Entry>): seq<Entry> {
    if es == [] || !Less(es[0].path, e.path) then [e] + es
    else [es[0]] + InsertByPath(e, es[1..])
  }

  /** sort.Slice by path. */
  function SortByPath(es: seq<Entry>): seq<Entry> {
    if es == [] then [] else InsertByPath(es[0], SortByPath(es[1..]))
  }

  lemma {:induction false} InsertSorts(e: Entry, es: seq<Entry>)
    requires SortedByPath(es)
    ensures SortedByPath(InsertByPath(e, es))
    ensures multiset(InsertByPath(e, es)) == multiset(es) + multiset{e}
  {
    hide Less;
    if es != [] && Less(es[0].path, e.path) {
      InsertSorts(e, es[1..]);
      var rest := InsertByPath(e, es[1..]);
      assert es == [es[0]] + es[1..];
      forall j | 0 <= j < |rest| ensures es[0].path == rest[j].path || Less(es[0].path, rest[j].path) {
        assert rest[j] in multiset(es[1..]) + multiset{e};
        if rest[j] != e {
          assert rest[j] in es[1..];
          var i :| 0 <= i < |es[1..]| && es[1..][i] == rest[j];
          assert es[i + 1] == rest[j];
        }
      }
    } else if es != [] {
      LessTotal(es[0].path, e.path);
      forall j | 0 <= j < |es| ensures e.path == es[j].path || Less(e.path, es[j].path) {
        if j > 0 && e.path != es[0].path && es[0].path != es[j].path {
          LessTransitive(e.path, es[0].path, es[j].path);
        }
      }
    }
  }

  lemma {:induction false} SortSorts(es: seq<Entry>)
    ensures SortedByPath(SortByPath(es)) && multiset(SortByPath(es)) == multiset(es)
  {
    if es != [] {
      SortSorts(es[1..]);
      InsertSorts(es[0], SortByPath(es[1..]));
      assert es == [es[0]] + es[1..];
    }
  }

  lemma {:induction false} SortKeepsSizes(es: seq<Entry>)
    ensures SumSizes(SortByPath(es)) == SumSizes(es)
  {
    if es != [] {
      SortKeepsSizes(es[1..]);
      InsertKeepsSizes(es[0], SortByPath(es[1..]));
    }
  }

  lemma {:induction false} InsertKeepsSizes(e: Entry, es: seq<Entry>)
    ensures SumSizes(InsertByPath(e, es)) == e.size + SumSizes(es)
  {
    hide Less;
    if es != [] && Less(es[0].path, e.path) {
      InsertKeepsSizes(e, es[1..]);
      assert InsertByPath(e, es)[1..] == InsertByPath(e, es[1..]);
    } else {
      assert InsertByPath(e, es)[1..] == es;
    }
  }

  /** None of the temporary names the pass will draw is taken. */
  ghost predicate NoTemps(t: Tree, nonces: nat -> string) {
    && (forall i: nat :: '/' !in nonces(i))
    && (forall i: nat, p :: TempPath(p, nonces(i)) !in t)
  }

  lemma AppliedTouchesValidPaths(h: Hasher, id: string, t: Tree, index: Index, e: Entry, fetch: Replies, q: string)
    requires !ValidPath(q) && q in Applied(h, id, t, index, e, fetch).tree
    ensures q in t
  {
    hide Install, WithinLimits, ValidPath, ValidLayout;
    OnlyDestination(h, id, t, index, e, fetch);
    if q !in t && IsAncestor(q, e.path) && ValidPath(e.path) {
      AncestorValid(q, e.path);
    }
  }

  lemma NoTempsKept(h: Hasher, id: string, t: Tree, index: Index, e: Entry, fetch: Replies, nonces: nat -> string)
    requires NoTemps(t, nonces)
    ensures NoTemps(Applied(h, id, t, index, e, fetch).tree, nonces)
  {
    hide Applied, TempPath, ValidPath;
    var o := Applied(h, id, t, index, e, fetch);
    forall i: nat, p ensures TempPath(p, nonces(i)) !in o.tree {
      assert TempPath(p, nonces(i)) !in t;
      TempNotValid(p, nonces(i));
      if TempPath(p, nonces(i)) in o.tree {
        AppliedTouchesValidPaths(h, id, t, index, e, fetch, TempPath(p, nonces(i)));
      }
    }
  }

  lemma {:induction false} PassStops(h: Hasher, id: string, t: Tree, index: Index, es: seq<Entry>, source: Source, k: nat, n: nat)
    requires k <= n <= |es| && PassOver(h, id, t, index, es, source, k).result.Err?
    ensures PassOver(h, id, t, index, es, source, n) == PassOver(h, id, t, index, es, source, k)
  {
    hide Applied;
    if k < n {
      PassStops(h, id, t, index, es, source, k, n - 1);
    }
  }

  /** The loop of replicate over one folder. */
  method ReplicateFolder(s: FolderStore, listed: seq<Entry>, source: Source, nonces: nat -> string)
    returns (applied: nat, r: Result<Stats, Error>)
    requires s.Valid() && NoTemps(s.tree, nonces)
    modifies s`tree, s.db
    ensures s.Valid()
    ensures var es := SortByPath(listed);
            Pass(s.tree, s.FolderIndex(), applied, r) ==
              PassOver(s.h, s.id, old(s.tree), old(s.FolderIndex()), es, source, |es|)
    ensures r.Ok? ==> r.value.received + r.value.reused == SumSizes(listed)
    ensures r.Ok? ==> r.value.received ==
                        SumReceived(s.h, s.id, old(s.tree), old(s.FolderIndex()), SortByPath(listed), source, |SortByPath(listed)|)
    ensures r.Ok? ==> r.value.files ==
                        CountInstalls(s.h, s.id, old(s.tree), old(s.FolderIndex()), SortByPath(listed), source, |SortByPath(listed)|)
    ensures OthersUnchanged(old(s.db.State()), s.db.State(), s.id)
  {
    hide Applied, NoTemps, SumSizes, SumReceived, CountInstalls, OthersUnchanged, Rows, SortByPath, Consistent, ValidDb, WellFormed, TempPath;
    ghost var t, index, db := s.tree, s.FolderIndex(), s.db.State();
    var es := SortByPath(listed);
    OthersSame(db, s.id);
    var total := Stats(0, 0, 0);
    for i := 0 to |es|
      invariant s.Valid() && NoTemps(s.tree, nonces) && OthersUnchanged(db, s.db.State(), s.id)
      invariant Pass(s.tree, s.FolderIndex(), i, Ok(total)) == PassOver(s.h, s.id, t, index, es, source, i)
    {
      ghost var before := s.db.State();
      NoTempsKept(s.h, s.id, s.tree, s.FolderIndex(), es[i], source(i), nonces);
      FreshName(s.tree, nonces, i, es[i].path);
      var stats := s.Apply(es[i], source(i), nonces(i));
      OthersTransitive(db, before, s.db.State(), s.id);
      if stats.Err? {
        applied, r := i, Err(stats.error);
        PassStops(s.h, s.id, t, index, es, source, i + 1, |es|);
        return;
      }
      total := Add(total, stats.value);
    }
    applied, r := |es|, Ok(total);
    PassTotals(s.h, s.id, t, index, es, source, |es|);
    SortKeepsSizes(listed);
    assert es[..|es|] == es;
  }

  lemma FreshName(t: Tree, nonces: nat -> string, i: nat, p: string)
    requires NoTemps(t, nonces)
    ensures '/' !in nonces(i) && TempPath(p, nonces(i)) !in t
  {
    hide TempPath;
  }
}
