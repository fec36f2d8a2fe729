/** The mutable index database: the statements of internal/store/store.go and the transaction of
    a scan, executed row by row with their triggers. */
module Database {
  import opened Model
  import opened Paths
  import opened Layout
  import opened Json
  import opened Index
  import opened Ledger
  import opened Transactions

  /** A non-empty set of paths has a first one. */
  lemma {:induction false} FirstPathExists(s: set<string>)
    requires s != {}
    ensures exists p :: p in s && forall q :: q in s ==> q == p || Less(p, q)
    decreases |s|
  {
    var p :| p in s;
    var rest := s - {p};
    if rest != {} {
      assert |rest| < |s|;
      FirstPathExists(rest);
      var q :| q in rest && forall r :: r in rest ==> r == q || Less(q, r);
      LessTotal(p, q);
      var first := if Less(p, q) then p else q;
      forall r | r in s ensures r == first || Less(first, r) {
        if r != p && r != q && Less(p, q) {
          LessTransitive(p, q, r);
        }
      }
    }
  }

  class IndexDb {
    var entries: map<Key, Entry>
    var usage: map<string, Usage>

    function State(): Db
      reads this
    {
      Db(entries, usage)
    }

    /** A new, empty database. */
    constructor ()
      ensures State() == EMPTY
    {
      entries, usage := map[], map[];
    }

    /** put: all or nothing; succeeds exactly when the limits allow it. */
    method Put(f: string, e: Entry) returns (ok: bool)
      requires Consistent(State())
      modifies this
      ensures Consistent(State())
      ensures ok == Fits(Rows(old(entries), f), e)
      ensures ok ==> entries == old(entries)[Key(f, e.path) := e] && OthersUnchanged(old(State()), State(), f)
      ensures ok ==> Rows(entries, f) == Rows(old(entries), f)[e.path := e]
      ensures !ok ==> State() == old(State())
    {
      hide Rows, Consistent, OthersUnchanged, Fits, ManifestLength, ManifestBytes;
      var r := PutRow(State(), f, e);
      CapacityIsExact(State(), f, e);
      if r.None? {
        return false;
      }
      PutKeepsLedger(State(), f, e);
      entries, usage := r.value.entries, r.value.usage;
      return true;
    }

    method Get(f: string, p: string) returns (e: Option<Entry>)
      ensures e == if p in Rows(entries, f) then Some(Rows(entries, f)[p]) else None
    {
      return if Key(f, p) in entries then Some(entries[Key(f, p)]) else None;
    }

    /** checkCapacity: answers exactly whether the following put will be accepted. */
    method HasCapacity(f: string, e: Entry) returns (ok: bool)
      requires Consistent(State())
      ensures ok == Fits(Rows(entries, f), e)
    {
      hide Rows, Consistent, Fits, ManifestLength, ManifestBytes;
      ok := CheckCapacity(State(), f, e);
      CapacityIsExact(State(), f, e);
    }

    /** DELETE FROM entries WHERE folder=f, one trigger per row; ps is the order in which it met them. */
    method DeleteFolder(f: string) returns (ghost ps: seq<string>)
      requires Consistent(State())
      modifies this
      ensures Enumerates(ps, old(Rows(entries, f)))
      ensures DeleteAll(old(State()), f, ps) == Some(State())
      ensures Consistent(State()) && OthersUnchanged(old(State()), State(), f)
      ensures Rows(entries, f) == map[]
    {
      hide DeleteRow, Consistent, Rows, OthersUnchanged, Deleting, DeleteAll;
      var rest := set k | k in entries && k.folder == f;
      ghost var db0 := State();
      ps := [];
      NothingDeleted(db0, f, rest);
      while rest != {}
        invariant Consistent(State()) && Deleting(db0, State(), f, rest, ps)
        decreases |rest|
      {
        var k :| k in rest;
        DeletingStep(db0, State(), f, rest, ps, k);
        var r := DeleteRow(State(), k);
        entries, usage := r.value.entries, r.value.usage;
        rest := rest - {k};
        ps := ps + [k.path];
      }
      DeletingDone(db0, State(), f, ps);
    }

    /** The transaction that replaces a folder's index, row by row; a failing statement rolls it back. */
    method ReplaceFolder(f: string, es: seq<Entry>) returns (ok: bool, ghost ps: seq<string>)
      requires Consistent(State())
      modifies this
      ensures Enumerates(ps, old(Rows(entries, f)))
      ensures ScanTx(old(State()), f, ps, es) == if ok then Some(State()) else None
      ensures Consistent(State())
      ensures ok == (DistinctPaths(es) && WithinLimits(Override(map[], es)))
      ensures ok ==> Replaced(old(State()), State(), f, Override(map[], es))
      ensures !ok ==> State() == old(State())
    {
      hide Consistent, OthersUnchanged, ManifestLength, ManifestBytes, Rows, InsertRow, DeleteAll, WithinLimits, Override, Enumerates;
      var saved := State();
      ps := DeleteFolder(f);
      ghost var emptied := State();
      ScanTxDecides(saved, f, ps, es);
      for i := 0 to |es|
        invariant InsertAll(emptied, f, es[..i]) == Some(State())
      {
        var r := InsertRow(State(), f, es[i]);
        assert es[..i + 1][..i] == es[..i];
        if r.None? {
          InsertStops(emptied, f, es, i + 1);
          entries, usage := saved.entries, saved.usage;
          return false, ps;
        }
        entries, usage := r.value.entries, r.value.usage;
      }
      assert es[..|es|] == es;
      return true, ps;
    }

    /** The recount that Open runs: GROUP BY folder, one aggregate at a time; a constraint that fails
        keeps the store from opening. */
    method Reopen() returns (ok: bool)
      modifies this
      ensures ok <==> forall f :: Rows(old(entries), f) != map[] ==> WithinLimits(Rows(old(entries), f))
      ensures State() == Recounted(old(State()))
    {
      hide ManifestLength, ManifestBytes, Rows, WithinLimits;
      var folders := set k | k in entries :: k.folder;
      var lines: map<string, Usage> := map[];
      forall f ensures Rows(entries, f) != map[] <==> f in folders {
        FolderHasRows(entries, f);
      }
      while folders != {}
        invariant State() == old(State())
        invariant forall f :: Rows(entries, f) != map[] <==> f in folders || f in lines
        invariant forall f :: f in lines ==> lines[f] == Recount(Rows(entries, f)) && WithinLimits(Rows(entries, f))
        decreases folders
      {
        var f :| f in folders;
        var u := Aggregate(f);
        LimitsAreChecks(Rows(entries, f));
        if !Checks(u) {
          return false;
        }
        lines := lines[f := u];
        folders := folders - {f};
      }
      ghost var db := State();
      usage := usage + lines;
      assert lines == map f | f in Folders(db) :: Recount(Rows(entries, f));
      return true;
    }

    /** count(*) and sum(length(manifest)+1) over one folder's rows. */
    method Aggregate(f: string) returns (u: Usage)
      ensures u == Recount(Rows(entries, f))
    {
      hide ManifestLength, ManifestBytes, Rows;
      var rest := Rows(entries, f);
      var count, bytes := 0, 0;
      assert ManifestBytes(map[]) == 0 by { NoRows(); }
      while rest != map[]
        invariant count + |rest| == |Rows(entries, f)|
        invariant bytes + ManifestBytes(rest) == ManifestBytes(Rows(entries, f))
        decreases |rest|
      {
        var p :| p in rest;
        ManifestBytesRemove(rest, p);
        assert |rest - {p}| == |rest| - 1 by { SizeRemove(rest, p); }
        count := count + 1;
        bytes := bytes + ManifestLength(rest[p]) + 1;
        rest := rest - {p};
      }
      return Usage(count, bytes);
    }

    /** List: the rows in path order, with the running totals checked before each row. */
    method List(f: string) returns (r: Result<seq<Entry>, Error>)
      requires forall k :: k in entries ==> entries[k].path == k.path
      ensures r.Ok? <==> Listable(Rows(entries, f))
      ensures r.Ok? ==> Listing(r.value, Rows(entries, f))
    {
      hide ManifestLength, ManifestBytes, Rows, ValidEntry, Listing, Less, Progress, Listable;
      var rows := Rows(entries, f);
      var rest := rows.Keys;
      var done: seq<Entry> := [];
      ghost var seen: Index := map[];
      var manifestBytes := 2;
      EmptyProgress(rows);
      while rest != {}
        invariant Progress(rows, seen, rest, done, manifestBytes)
        invariant rest <= rows.Keys
        decreases rest
      {
        FirstPathExists(rest);
        var p :| p in rest && forall q :: q in rest ==> q == p || Less(p, q);
        manifestBytes := manifestBytes + ManifestLength(rows[p]) + 1;
        ProgressStep(rows, seen, rest, done, p, manifestBytes);
        if |done| >= MAX_ENTRIES || manifestBytes > MAX_MANIFEST_BYTES {
          return Err(Budget);
        }
        var valid := ValidateEntry(rows[p]);
        if !valid {
          return Err(Invalid);
        }
        done := done + [rows[p]];
        seen := seen[p := rows[p]];
        rest := rest - {p};
      }
      ProgressDone(rows, seen, done, manifestBytes);
      return Ok(done);
    }
  }

  /** The statement's cursor: the rows ps are gone, the rows rest are still to be met. */
  ghost predicate Deleting(db0: Db, db: Db, f: string, rest: set<Key>, ps: seq<string>) {
    && DeleteAll(db0, f, ps) == Some(db)
    && (forall k :: k in rest ==> k == Key(f, k.path) && k in db.entries)
    && (forall p :: p in Rows(db0.entries, f) <==> Key(f, p) in rest || p in ps)
    && (forall i, j :: 0 <= i < j < |ps| ==> ps[i] != ps[j])
    && (forall p :: p in ps ==> Key(f, p) !in rest)
  }

  lemma NothingDeleted(db: Db, f: string, rest: set<Key>)
    requires forall k :: k in rest <==> k in db.entries && k.folder == f
    ensures Deleting(db, db, f, rest, [])
  {}

  lemma DeletingStep(db0: Db, db: Db, f: string, rest: set<Key>, ps: seq<string>, k: Key)
    requires Consistent(db) && Deleting(db0, db, f, rest, ps) && k in rest
    ensures k in db.entries && DeleteRow(db, k).Some? && Consistent(DeleteRow(db, k).value)
    ensures Deleting(db0, DeleteRow(db, k).value, f, rest - {k}, ps + [k.path])
  {
    hide Consistent, OthersUnchanged, Rows, DeleteRow, DeleteAll;
    DeleteKeepsLedger(db, f, k.path);
    DeleteLeaves(db, k);
    DeleteOneMore(db0, db, f, ps, k);
  }

  lemma DeleteOneMore(db0: Db, db: Db, f: string, ps: seq<string>, k: Key)
    requires DeleteAll(db0, f, ps) == Some(db) && k in db.entries && k == Key(f, k.path)
    ensures DeleteAll(db0, f, ps + [k.path]) == DeleteRow(db, k)
  {
    hide DeleteRow;
    assert (ps + [k.path])[..|ps|] == ps;
  }

  lemma DeleteLeaves(db: Db, k: Key)
    requires k in db.entries && DeleteRow(db, k).Some?
    ensures DeleteRow(db, k).value.entries == db.entries - {k}
  {}

  lemma DeletingDone(db0: Db, db: Db, f: string, ps: seq<string>)
    requires Consistent(db0) && Deleting(db0, db, f, {}, ps)
    ensures Enumerates(ps, Rows(db0.entries, f)) && DeleteAll(db0, f, ps) == Some(db)
    ensures Consistent(db) && Rows(db.entries, f) == map[] && OthersUnchanged(db0, db, f)
  {
    hide Consistent, OthersUnchanged, Rows, DeleteAll;
    AllDeleted(db0, f, ps);
  }

  lemma LimitsAreChecks(m: Index)
    ensures Checks(Recount(m)) <==> WithinLimits(m)
  {
    hide ManifestBytes;
  }

  lemma SizeRemove(m: Index, p: string)
    requires p in m
    ensures |m - {p}| == |m| - 1
  {
    assert (m - {p}).Keys == m.Keys - {p};
    assert |m - {p}| == |(m - {p}).Keys| && |m| == |m.Keys|;
  }

  /** The bounds under which List answers. */
  ghost predicate Listable(m: Index) {
    && |m| <= MAX_ENTRIES
    && ManifestBytes(m) + 2 <= MAX_MANIFEST_BYTES
    && forall p :: p in m ==> ValidEntry(m[p])
  }

  /** List's cursor: seen has been listed as done, rest is still to come. */
  ghost predicate Progress(rows: Index, seen: Index, rest: set<string>, done: seq<Entry>, bytes: int) {
    && (forall p :: p in rows <==> p in seen || p in rest)
    && (forall p :: p in seen ==> p !in rest)
    && (forall p :: p in rows ==> rows[p].path == p)
    && (forall p :: p in seen ==> seen[p] == rows[p] && ValidEntry(seen[p]))
    && |seen| == |done| <= MAX_ENTRIES
    && bytes == ManifestBytes(seen) + 2 <= MAX_MANIFEST_BYTES
    && Listing(done, seen)
    && (forall p, q :: p in seen && q in rest ==> Less(p, q))
  }

  lemma EmptyProgress(rows: Index)
    requires forall p :: p in rows ==> rows[p].path == p
    ensures Progress(rows, map[], rows.Keys, [], 2)
  {
    EmptyListing();
    NoRows();
  }

  lemma ProgressDone(rows: Index, seen: Index, done: seq<Entry>, bytes: int)
    requires Progress(rows, seen, {}, done, bytes)
    ensures Listable(rows) && Listing(done, rows)
  {
    assert seen == rows;
  }

  lemma ProgressExtends(rows: Index, seen: Index, rest: set<string>, done: seq<Entry>, p: string, bytes: int)
    requires p in rest && forall q :: q in rest ==> q == p || Less(p, q)
    requires p in rows && p !in seen && Progress(rows, seen, rest, done, bytes - ManifestLength(rows[p]) - 1)
    requires |done| < MAX_ENTRIES && bytes <= MAX_MANIFEST_BYTES && ValidEntry(rows[p])
    requires bytes == ManifestBytes(seen[p := rows[p]]) + 2
    requires |seen[p := rows[p]]| == |done| + 1 && Listing(done + [rows[p]], seen[p := rows[p]])
    ensures Progress(rows, seen[p := rows[p]], rest - {p}, done + [rows[p]], bytes)
  {
    hide ManifestLength, ManifestBytes, ValidEntry, Listing, Less;
  }

  lemma ProgressStep(rows: Index, seen: Index, rest: set<string>, done: seq<Entry>, p: string, bytes: int)
    requires p in rest && forall q :: q in rest ==> q == p || Less(p, q)
    requires p in rows && Progress(rows, seen, rest, done, bytes - ManifestLength(rows[p]) - 1)
    ensures |done| >= MAX_ENTRIES || bytes > MAX_MANIFEST_BYTES ==> !Listable(rows)
    ensures !ValidEntry(rows[p]) ==> !Listable(rows)
    ensures |done| < MAX_ENTRIES && bytes <= MAX_MANIFEST_BYTES && ValidEntry(rows[p]) ==>
              Progress(rows, seen[p := rows[p]], rest - {p}, done + [rows[p]], bytes)
  {
    hide ManifestLength, ManifestBytes, ValidEntry, Listing, Less;
    SeenGrows(seen, rows, p);
    ListingExtends(done, seen, rows[p]);
    if |done| < MAX_ENTRIES && bytes <= MAX_MANIFEST_BYTES && ValidEntry(rows[p]) {
      hide Progress;
      ProgressExtends(rows, seen, rest, done, p, bytes);
    }
  }

  lemma EmptyListing()
    ensures Listing([], map[])
  {}

  lemma SeenGrows(seen: Index, rows: Index, p: string)
    requires p in rows && p !in seen && forall q :: q in seen ==> q in rows && seen[q] == rows[q]
    ensures |seen[p := rows[p]]| == |seen| + 1 <= |rows|
    ensures ManifestBytes(seen[p := rows[p]]) == ManifestBytes(seen) + ManifestLength(rows[p]) + 1 <= ManifestBytes(rows)
  {
    hide ManifestLength, ManifestBytes;
    ManifestBytesUpdate(seen, p, rows[p]);
    SizeUpdate(seen, p, rows[p]);
    DominatedBytes(seen[p := rows[p]], rows);
  }

  lemma ListingExtends(es: seq<Entry>, m: Index, e: Entry)
    requires Listing(es, m) && e.path !in m
    requires forall p :: p in m ==> Less(p, e.path)
    ensures Listing(es + [e], m[e.path := e])
  {
    hide Less;
    var es' := es + [e];
    var m' := m[e.path := e];
    forall p | p in m' ensures m'[p] in es' {
      if p == e.path {
        assert es'[|es|] == e;
      } else {
        var i :| 0 <= i < |es| && es[i] == m[p];
        assert es'[i] == m[p];
      }
    }
  }

  /** A ledger in order never lets List fail: the limits of the commit, of the pre-check and of
      List are one bound. */
  lemma ConsistentIndexIsListable(db: Db, f: string)
    requires Consistent(db) && ValidDb(db)
    ensures Listable(Rows(db.entries, f))
    ensures ValidRows(Rows(db.entries, f))
  {
    hide ManifestLength, ManifestBytes, Rows;
    UsageOf(db, f);
    RowsValid(db, f);
  }

  /** So no run of the store ever reaches an index that List refuses. */
  lemma EveryRunIsListable(ss: seq<Statement>, f: string)
    requires forall i :: 0 <= i < |ss| ==> ValidStatement(ss[i])
    ensures Listable(Rows(ExecuteAll(Journal(EMPTY, None), ss).db.entries, f))
  {
    hide Consistent, ValidDb, Rows, Listable, ExecuteAll, ValidStatement;
    RunKeepsLedger(ss);
    ConsistentIndexIsListable(ExecuteAll(Journal(EMPTY, None), ss).db, f);
  }
}
