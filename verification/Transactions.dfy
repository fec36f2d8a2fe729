/** The statements of the store's life, one row at a time, with transactions, rollbacks and reopening
    (internal/store/store.go:65-84 and 132-139, internal/store/scan.go:82-107). */
module Transactions {
  import opened Model
  import opened Layout
  import opened Index
  import opened Ledger

  /** DELETE FROM entries WHERE folder=f, which meets the rows in some order ps. */
  function DeleteAll(db: Db, f: string, ps: seq<string>): Option<Db> {
    if ps == [] then Some(db)
    else
      var d := DeleteAll(db, f, ps[..|ps| - 1]);
      var k := Key(f, ps[|ps| - 1]);
      if d.None? || k !in d.value.entries then None else DeleteRow(d.value, k)
  }

  function InsertAll(db: Db, f: string, es: seq<Entry>): Option<Db> {
    if es == [] then Some(db)
    else
      var d := InsertAll(db, f, es[..|es| - 1]);
      if d.None? then None else InsertRow(d.value, f, es[|es| - 1])
  }

  /** The transaction of a scan; None when a row fails and everything is rolled back. */
  function ScanTx(db: Db, f: string, ps: seq<string>, es: seq<Entry>): Option<Db> {
    var d := DeleteAll(db, f, ps);
    if d.None? then None else InsertAll(d.value, f, es)
  }

  /** ps names every row of m once. */
  ghost predicate Enumerates(ps: seq<string>, m: Index) {
    && (forall i, j :: 0 <= i < j < |ps| ==> ps[i] != ps[j])
    && (forall p :: p in ps <==> p in m)
  }

  /** Deleting rows, one trigger each, cannot fail, removes exactly them, and keeps the ledger. */
  lemma {:induction false} DeletesKeepLedger(db: Db, f: string, ps: seq<string>)
    requires Consistent(db) && (forall i, j :: 0 <= i < j < |ps| ==> ps[i] != ps[j])
    requires forall p :: p in ps ==> p in Rows(db.entries, f)
    ensures DeleteAll(db, f, ps).Some?
    ensures var d := DeleteAll(db, f, ps).value;
            && Consistent(d) && OthersUnchanged(db, d, f) && (f in d.usage <==> f in db.usage)
            && forall p :: p in Rows(d.entries, f) <==> p in Rows(db.entries, f) && p !in ps
  {
    hide Consistent, OthersUnchanged, DeleteRow;
    if ps == [] {
      OthersSame(db, f);
    } else {
      var n := |ps| - 1;
      var p := ps[n];
      assert ps == ps[..n] + [p];
      assert p in Rows(db.entries, f) && p !in ps[..n];
      DeletesKeepLedger(db, f, ps[..n]);
      var d := DeleteAll(db, f, ps[..n]).value;
      LineExists(d, Key(f, p));
      DeleteKeepsLedger(d, f, p);
      OthersTransitive(db, d, DeleteRow(d, Key(f, p)).value, f);
    }
  }

  lemma AllDeleted(db: Db, f: string, ps: seq<string>)
    requires Consistent(db) && Enumerates(ps, Rows(db.entries, f))
    ensures DeleteAll(db, f, ps).Some?
    ensures var d := DeleteAll(db, f, ps).value;
            Consistent(d) && Rows(d.entries, f) == map[] && OthersUnchanged(db, d, f) && (f in d.usage <==> f in db.usage)
  {
    hide Consistent, OthersUnchanged, DeleteAll, Rows;
    DeletesKeepLedger(db, f, ps);
  }

  /** Inserting a list row by row into an empty folder succeeds exactly when it has no duplicate and
      fits as a whole. */
  lemma {:induction false} InsertsDecide(db: Db, f: string, es: seq<Entry>)
    requires Consistent(db) && Rows(db.entries, f) == map[]
    ensures InsertAll(db, f, es).Some? <==> DistinctPaths(es) && WithinLimits(Override(map[], es))
    ensures InsertAll(db, f, es).Some? ==>
              var d := InsertAll(db, f, es).value;
              && Consistent(d) && OthersUnchanged(db, d, f) && Rows(d.entries, f) == Override(map[], es)
              && (f in d.usage <==> f in db.usage || es != [])
  {
    hide Consistent, OthersUnchanged, InsertRow, Rows, WithinLimits, Override;
    if es == [] {
      OthersSame(db, f);
      EmptyFits();
    } else {
      var n := |es| - 1;
      var init := es[..n];
      InsertsDecide(db, f, init);
      if DistinctPaths(es) && WithinLimits(Override(map[], es)) {
        PrefixWithinLimits(es, n);
      }
      if InsertAll(db, f, init).Some? {
        var d := InsertAll(db, f, init).value;
        InsertDecides(d, f, es, n);
        InsertWorks(d, f, es[n]);
        assert es[..n + 1] == es;
        if InsertRow(d, f, es[n]).Some? {
          OthersTransitive(db, d, InsertRow(d, f, es[n]).value, f);
          assert Fits(Rows(d.entries, f), es[n]);
        }
      }
    }
  }

  /** A row that fails ends the list. */
  lemma {:induction false} InsertStops(db: Db, f: string, es: seq<Entry>, k: nat)
    requires k <= |es| && InsertAll(db, f, es[..k]).None?
    ensures InsertAll(db, f, es).None?
  {
    hide InsertRow;
    if k < |es| {
      assert es[..|es| - 1][..k] == es[..k];
      InsertStops(db, f, es[..|es| - 1], k);
    } else {
      assert es[..k] == es;
    }
  }

  lemma EmptyFits()
    ensures Override(map[], []) == map[] && WithinLimits(map[])
  {
    NoRows();
  }

  /** The scan's transaction, row by row: it goes through exactly when the list is distinct and within the
      limits, and then it has replaced the folder's rows, kept the ledger, and touched no other folder. */
  lemma ScanTxDecides(db: Db, f: string, ps: seq<string>, es: seq<Entry>)
    requires Consistent(db) && Enumerates(ps, Rows(db.entries, f))
    ensures ScanTx(db, f, ps, es).Some? <==> DistinctPaths(es) && WithinLimits(Override(map[], es))
    ensures ScanTx(db, f, ps, es).Some? ==>
              Consistent(ScanTx(db, f, ps, es).value) && Replaced(db, ScanTx(db, f, ps, es).value, f, Override(map[], es))
  {
    hide Consistent, OthersUnchanged, Rows, WithinLimits, Override, DeleteAll, InsertAll;
    AllDeleted(db, f, ps);
    var d := DeleteAll(db, f, ps).value;
    InsertsDecide(d, f, es);
    if InsertAll(d, f, es).Some? {
      OthersTransitive(db, d, InsertAll(d, f, es).value, f);
      NonEmptyList(es);
    }
  }

  lemma NonEmptyList(es: seq<Entry>)
    ensures es != [] <==> Override(map[], es) != map[]
  {
    if es != [] {
      assert es[|es| - 1].path in Override(map[], es);
    }
  }

  /** The database with the state to which an open transaction would be rolled back. */
  datatype Journal = Journal(db: Db, saved: Option<Db>)

  datatype Statement =
    | Put(folder: string, entry: Entry)
    | Begin
    | Delete(folder: string, path: string)
    | Insert(folder: string, entry: Entry)
    | Commit
    | Rollback
    | Reopen

  /** One statement. A statement that fails has no effect; outside a transaction only put writes. Reopen
      ends the process wherever it is: an unfinished transaction is undone, then Open recounts. */
  ghost function Execute(j: Journal, s: Statement): Journal {
    match s
    case Put(f, e) =>
      if j.saved.Some? || PutRow(j.db, f, e).None? then j else j.(db := PutRow(j.db, f, e).value)
    case Begin => if j.saved.Some? then j else j.(saved := Some(j.db))
    case Delete(f, p) =>
      if j.saved.None? || Key(f, p) !in j.db.entries || DeleteRow(j.db, Key(f, p)).None? then j
      else j.(db := DeleteRow(j.db, Key(f, p)).value)
    case Insert(f, e) =>
      if j.saved.None? || InsertRow(j.db, f, e).None? then j else j.(db := InsertRow(j.db, f, e).value)
    case Commit => j.(saved := None)
    case Rollback => if j.saved.Some? then Journal(j.saved.value, None) else j
    case Reopen => Journal(Recounted(if j.saved.Some? then j.saved.value else j.db), None)
  }

  ghost function ExecuteAll(j: Journal, ss: seq<Statement>): Journal {
    if ss == [] then j else Execute(ExecuteAll(j, ss[..|ss| - 1]), ss[|ss| - 1])
  }

  /** ValidateEntry accepts what is put, and fingerprint makes what is inserted. */
  ghost predicate ValidStatement(s: Statement) {
    s.Put? || s.Insert? ==> ValidEntry(s.entry)
  }

  ghost predicate Good(db: Db) {
    Consistent(db) && ValidDb(db)
  }

  ghost predicate GoodJournal(j: Journal) {
    Good(j.db) && (j.saved.Some? ==> Good(j.saved.value))
  }

  /** Rows and ledger line of g are the same. */
  ghost predicate SameFolder(a: Db, b: Db, g: string) {
    && Rows(a.entries, g) == Rows(b.entries, g)
    && (g in a.usage <==> g in b.usage) && (g in a.usage ==> a.usage[g] == b.usage[g])
  }

  predicate Names(s: Statement, g: string) {
    (s.Put? || s.Delete? || s.Insert?) && s.folder == g
  }

  lemma FolderKept(a: Db, b: Db, f: string, g: string)
    requires OthersUnchanged(a, b, f) && f != g
    ensures SameFolder(a, b, g)
  {
    RowsOfOthers(a, b, f, g);
    hide Rows;
  }

  lemma RowChangeIsGood(a: Db, b: Db, f: string, m: Index)
    requires Good(a) && Consistent(b) && OthersUnchanged(a, b, f) && Rows(b.entries, f) == m && ValidRows(m)
    ensures Good(b)
    ensures forall g :: g != f ==> SameFolder(a, b, g)
  {
    hide Consistent, Rows, OthersUnchanged, ValidRows, ValidDb, SameFolder;
    ValidAfter(a, b, f, m);
    forall g | g != f ensures SameFolder(a, b, g) {
      FolderKept(a, b, f, g);
    }
  }

  lemma RowPut(m: Index, e: Entry)
    requires ValidRows(m) && ValidEntry(e)
    ensures ValidRows(m[e.path := e])
  {
    hide ValidEntry;
  }

  lemma RowGone(m: Index, p: string)
    requires ValidRows(m)
    ensures ValidRows(m - {p})
  {
    hide ValidEntry;
  }

  /** A row statement that takes effect keeps the ledger, the validity of rows, and other folders. */
  lemma RowStatementKeeps(db: Db, s: Statement, d: Db)
    requires Good(db) && ValidStatement(s) && (s.Put? || s.Delete? || s.Insert?)
    requires s.Delete? ==> Key(s.folder, s.path) in db.entries
    requires Some(d) == match s
                        case Put(f, e) => PutRow(db, f, e)
                        case Delete(f, p) => DeleteRow(db, Key(f, p))
                        case Insert(f, e) => InsertRow(db, f, e)
                        case _ => None
    ensures Good(d) && forall g :: g != s.folder ==> SameFolder(db, d, g)
  {
    hide Consistent, Rows, OthersUnchanged, ValidRows, ValidDb, SameFolder, PutRow, DeleteRow, InsertRow, ValidEntry;
    var f := s.folder;
    RowsValid(db, f);
    match s {
      case Put(_, e) =>
        PutKeepsLedger(db, f, e);
        RowPut(Rows(db.entries, f), e);
      case Delete(_, p) =>
        DeleteKeepsLedger(db, f, p);
        RowGone(Rows(db.entries, f), p);
      case Insert(_, e) =>
        InsertWorks(db, f, e);
        RowPut(Rows(db.entries, f), e);
    }
    RowChangeIsGood(db, d, f, Rows(d.entries, f));
  }

  lemma SameSteps(a: Db, b: Db, c: Db, g: string)
    ensures SameFolder(a, a, g)
    ensures SameFolder(a, b, g) ==> SameFolder(b, a, g)
    ensures SameFolder(a, b, g) && SameFolder(b, c, g) ==> SameFolder(a, c, g)
  {
    hide Rows;
  }

  /** An open transaction, if there is one, has not touched g. */
  ghost predicate Clean(j: Journal, g: string) {
    j.saved.Some? ==> SameFolder(j.db, j.saved.value, g)
  }

  lemma StatementKeepsGood(j: Journal, s: Statement)
    requires GoodJournal(j) && ValidStatement(s)
    ensures GoodJournal(Execute(j, s))
    ensures s.Put? || s.Delete? || s.Insert? ==> forall g :: g != s.folder ==> SameFolder(j.db, Execute(j, s).db, g)
  {
    hide Good, Rows, PutRow, DeleteRow, InsertRow, Recounted, ValidEntry, SameFolder;
    var j' := Execute(j, s);
    forall g ensures SameFolder(j.db, j.db, g) {
      SameSteps(j.db, j.db, j.db, g);
    }
    if s.Reopen? {
      ReopenIsIdentity(if j.saved.Some? then j.saved.value else j.db) by { GoodIsConsistent(j); }
    } else if (s.Put? || s.Delete? || s.Insert?) && j'.db != j.db {
      RowStatementKeeps(j.db, s, j'.db);
    }
  }

  /** Every statement keeps ledger and rows in order, and a folder that it does not name. */
  lemma StatementKeepsLedger(j: Journal, s: Statement, g: string)
    requires GoodJournal(j) && ValidStatement(s)
    ensures GoodJournal(Execute(j, s))
    ensures !Names(s, g) && Clean(j, g) ==> SameFolder(j.db, Execute(j, s).db, g) && Clean(Execute(j, s), g)
  {
    hide Good, Rows, PutRow, DeleteRow, InsertRow, Recounted, ValidEntry, SameFolder;
    StatementKeepsGood(j, s);
    var j' := Execute(j, s);
    SameSteps(j.db, j'.db, j.db, g);
    if j.saved.Some? {
      SameSteps(j'.db, j.db, j.saved.value, g);
    }
    if s.Reopen? {
      ReopenIsIdentity(if j.saved.Some? then j.saved.value else j.db) by { GoodIsConsistent(j); }
    }
  }

  lemma GoodIsConsistent(j: Journal)
    requires GoodJournal(j)
    ensures Consistent(j.db) && (j.saved.Some? ==> Consistent(j.saved.value))
  {
    hide Consistent, ValidDb;
  }

  lemma {:induction false} AllKeepLedger(j: Journal, ss: seq<Statement>, g: string)
    requires GoodJournal(j) && forall i :: 0 <= i < |ss| ==> ValidStatement(ss[i])
    ensures GoodJournal(ExecuteAll(j, ss))
    ensures Clean(j, g) && (forall i :: 0 <= i < |ss| ==> !Names(ss[i], g)) ==>
              SameFolder(j.db, ExecuteAll(j, ss).db, g) && Clean(ExecuteAll(j, ss), g)
  {
    hide GoodJournal, Rows, Execute, ValidStatement, SameFolder, Clean, Names;
    if ss == [] {
      SameSteps(j.db, j.db, j.db, g);
    } else {
      var before := ExecuteAll(j, ss[..|ss| - 1]);
      AllKeepLedger(j, ss[..|ss| - 1], g);
      StatementKeepsLedger(before, ss[|ss| - 1], g);
      SameSteps(j.db, before.db, ExecuteAll(j, ss).db, g);
    }
  }

  lemma EmptyIsGood()
    ensures GoodJournal(Journal(EMPTY, None))
  {}

  /** From the empty database on, after every statement of every run, inside transactions as well as
      outside, on any number of folders: the ledger equals a recount and obeys its constraints, and every
      row is acceptable. */
  lemma RunKeepsLedger(ss: seq<Statement>)
    requires forall i :: 0 <= i < |ss| ==> ValidStatement(ss[i])
    ensures var j := ExecuteAll(Journal(EMPTY, None), ss);
            && Consistent(j.db) && ValidDb(j.db)
            && (j.saved.Some? ==> Consistent(j.saved.value) && ValidDb(j.saved.value))
  {
    hide Consistent, ValidDb, ExecuteAll, ValidStatement;
    EmptyIsGood();
    AllKeepLedger(Journal(EMPTY, None), ss, "");
  }

  lemma {:induction false} ExecuteSplit(j: Journal, a: seq<Statement>, b: seq<Statement>)
    ensures ExecuteAll(j, a + b) == ExecuteAll(ExecuteAll(j, a), b)
  {
    hide Execute;
    if b == [] {
      assert a + b == a;
    } else {
      assert (a + b)[..|a + b| - 1] == a + b[..|b| - 1];
      ExecuteSplit(j, a, b[..|b| - 1]);
    }
  }

  /** Whatever is done on other folders, rolled back or reopened, a folder that no statement names keeps
      its rows and its line. */
  lemma OtherFoldersNeverMove(ss: seq<Statement>, more: seq<Statement>, g: string)
    requires forall i :: 0 <= i < |ss| ==> ValidStatement(ss[i])
    requires forall i :: 0 <= i < |more| ==> ValidStatement(more[i]) && !Names(more[i], g)
    requires ExecuteAll(Journal(EMPTY, None), ss).saved.None?
    ensures SameFolder(ExecuteAll(Journal(EMPTY, None), ss).db, ExecuteAll(Journal(EMPTY, None), ss + more).db, g)
  {
    hide GoodJournal, ExecuteAll, ValidStatement, SameFolder;
    EmptyIsGood();
    AllKeepLedger(Journal(EMPTY, None), ss, g);
    AllKeepLedger(ExecuteAll(Journal(EMPTY, None), ss), more, g);
    ExecuteSplit(Journal(EMPTY, None), ss, more);
  }

  function Deletes(f: string, ps: seq<string>): (ss: seq<Statement>)
    ensures |ss| == |ps| && forall i :: 0 <= i < |ps| ==> ss[i] == Delete(f, ps[i])
  {
    seq(|ps|, i requires 0 <= i < |ps| => Delete(f, ps[i]))
  }

  function Inserts(f: string, es: seq<Entry>): (ss: seq<Statement>)
    ensures |ss| == |es| && forall i :: 0 <= i < |es| ==> ss[i] == Insert(f, es[i])
  {
    seq(|es|, i requires 0 <= i < |es| => Insert(f, es[i]))
  }

  lemma {:induction false} DeletesRun(j: Journal, f: string, ps: seq<string>)
    requires j.saved.Some? && DeleteAll(j.db, f, ps).Some?
    ensures ExecuteAll(j, Deletes(f, ps)) == j.(db := DeleteAll(j.db, f, ps).value)
  {
    hide DeleteRow;
    if ps != [] {
      DeletesRun(j, f, ps[..|ps| - 1]);
      assert Deletes(f, ps)[..|ps| - 1] == Deletes(f, ps[..|ps| - 1]);
    }
  }

  lemma {:induction false} InsertsRun(j: Journal, f: string, es: seq<Entry>)
    requires j.saved.Some? && InsertAll(j.db, f, es).Some?
    ensures ExecuteAll(j, Inserts(f, es)) == j.(db := InsertAll(j.db, f, es).value)
  {
    hide InsertRow;
    if es != [] {
      InsertsRun(j, f, es[..|es| - 1]);
      assert Inserts(f, es)[..|es| - 1] == Inserts(f, es[..|es| - 1]);
    }
  }

  /** The scan's transaction is a run of such statements, so all of the above holds within it too. */
  lemma ScanIsARun(db: Db, f: string, ps: seq<string>, es: seq<Entry>)
    requires ScanTx(db, f, ps, es).Some?
    ensures ExecuteAll(Journal(db, None), [Begin] + Deletes(f, ps) + Inserts(f, es) + [Commit]) ==
              Journal(ScanTx(db, f, ps, es).value, None)
  {
    hide DeleteAll, InsertAll;
    var j := Journal(db, None);
    var d := DeleteAll(db, f, ps).value;
    OneStatement(j, Begin);
    DeletesRun(Journal(db, Some(db)), f, ps);
    InsertsRun(Journal(d, Some(db)), f, es);
    hide ExecuteAll;
    ExecuteSplit(j, [Begin], Deletes(f, ps));
    ExecuteSplit(j, [Begin] + Deletes(f, ps), Inserts(f, es));
    ExecuteSplit(j, [Begin] + Deletes(f, ps) + Inserts(f, es), [Commit]);
    OneStatement(Journal(InsertAll(d, f, es).value, Some(db)), Commit);
  }

  lemma OneStatement(j: Journal, s: Statement)
    ensures ExecuteAll(j, [s]) == Execute(j, s)
  {
    hide Execute;
    assert [s][..0] == [];
  }

  lemma {:induction false} SavedStays(j: Journal, ss: seq<Statement>)
    requires j.saved.Some? && forall i :: 0 <= i < |ss| ==> ss[i].Put? || ss[i].Begin? || ss[i].Delete? || ss[i].Insert?
    ensures ExecuteAll(j, ss).saved == j.saved
  {
    hide PutRow, DeleteRow, InsertRow;
    if ss != [] {
      SavedStays(j, ss[..|ss| - 1]);
    }
  }

  /** Rolling back, or losing the process and opening again, undoes every statement of a transaction. */
  lemma UnfinishedIsUndone(db: Db, ss: seq<Statement>)
    requires Consistent(db)
    requires forall i :: 0 <= i < |ss| ==> ss[i].Put? || ss[i].Begin? || ss[i].Delete? || ss[i].Insert?
    ensures ExecuteAll(Journal(db, None), [Begin] + ss + [Rollback]) == Journal(db, None)
    ensures ExecuteAll(Journal(db, None), [Begin] + ss + [Reopen]) == Journal(db, None)
  {
    var j := Journal(db, Some(db));
    OneStatement(Journal(db, None), Begin);
    SavedStays(j, ss);
    ReopenIsIdentity(db);
    hide ExecuteAll, Consistent, Recounted;
    ExecuteSplit(Journal(db, None), [Begin], ss);
    ExecuteSplit(Journal(db, None), [Begin] + ss, [Rollback]);
    ExecuteSplit(Journal(db, None), [Begin] + ss, [Reopen]);
    OneStatement(ExecuteAll(j, ss), Rollback);
    OneStatement(ExecuteAll(j, ss), Reopen);
  }
}
