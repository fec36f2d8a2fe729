/** The SQLite index with its budget ledger (internal/store/store.go): the entries table, the
    folder_usage cache that three triggers maintain, and the statements the store issues. */
module Ledger {
  import opened Model
  import opened Layout
  import opened Json
  import opened Index

  datatype Key = Key(folder: string, path: string)

  datatype Usage = Usage(count: int, bytes: int)

  datatype Db = Db(entries: map<Key, Entry>, usage: map<string, Usage>)

  const EMPTY: Db := Db(map[], map[])

  /** The CHECK constraints of folder_usage. */
  predicate Checks(u: Usage) {
    0 <= u.count <= MAX_ENTRIES && 0 <= u.bytes <= MAX_MANIFEST_BYTES - 2
  }

  function Charge(usage: map<string, Usage>, f: string, u: Usage): Option<map<string, Usage>> {
    if Checks(u) then Some(usage[f := u]) else None
  }

  /** An INSERT with its trigger; None when a constraint aborts the statement. */
  function InsertRow(db: Db, f: string, e: Entry): Option<Db> {
    if Key(f, e.path) in db.entries then None
    else
      var u := if f in db.usage then Usage(db.usage[f].count + 1, db.usage[f].bytes + ManifestLength(e) + 1)
               else Usage(1, ManifestLength(e) + 1);
      var usage := Charge(db.usage, f, u);
      if usage.None? then None else Some(Db(db.entries[Key(f, e.path) := e], usage.value))
  }

  /** The upsert of put: an INSERT, or an UPDATE of the manifest with its trigger. */
  function PutRow(db: Db, f: string, e: Entry): Option<Db> {
    var k := Key(f, e.path);
    if k !in db.entries then InsertRow(db, f, e)
    else if f !in db.usage then Some(Db(db.entries[k := e], db.usage))
    else
      var line := db.usage[f];
      var usage := Charge(db.usage, f, Usage(line.count, line.bytes + ManifestLength(e) - ManifestLength(db.entries[k])));
      if usage.None? then None else Some(Db(db.entries[k := e], usage.value))
  }

  /** The deletion of one row with its trigger. */
  function DeleteRow(db: Db, k: Key): Option<Db>
    requires k in db.entries
  {
    if k.folder !in db.usage then Some(Db(db.entries - {k}, db.usage))
    else
      var line := db.usage[k.folder];
      var usage := Charge(db.usage, k.folder, Usage(line.count - 1, line.bytes - ManifestLength(db.entries[k]) - 1));
      if usage.None? then None else Some(Db(db.entries - {k}, usage.value))
  }

  /** checkCapacity: a constant-time prediction from the ledger. */
  predicate CheckCapacity(db: Db, f: string, e: Entry) {
    var k := Key(f, e.path);
    var used := if f in db.usage then db.usage[f] else Usage(0, 0);
    var count := used.count + 1 - if k in db.entries then 1 else 0;
    var size := used.bytes + ManifestLength(e) + 1 - if k in db.entries then ManifestLength(db.entries[k]) + 1 else 0;
    count <= MAX_ENTRIES && size <= MAX_MANIFEST_BYTES - 2
  }

  /** The rows of one folder. */
  function Rows(entries: map<Key, Entry>, f: string): (m: Index)
    ensures forall p :: p in m <==> Key(f, p) in entries
    ensures forall p :: p in m ==> m[p] == entries[Key(f, p)]
  {
    map k | k in entries && k.folder == f :: k.path := entries[k]
  }

  /** SELECT count(*), sum(length(manifest)+1) over the rows of one folder. */
  ghost function Recount(m: Index): Usage {
    Usage(|m|, ManifestBytes(m))
  }

  /** The cache agrees with a recount, folder by folder, and obeys the constraints. */
  ghost predicate Consistent(db: Db) {
    && (forall f :: f in db.usage ==> db.usage[f] == Recount(Rows(db.entries, f)) && Checks(db.usage[f]))
    && (forall k :: k in db.entries ==> k.folder in db.usage)
  }

  ghost predicate ValidDb(db: Db) {
    forall k :: k in db.entries ==> db.entries[k].path == k.path && ValidEntry(db.entries[k])
  }

  /** Rows and ledger of every folder but f are the same. */
  ghost predicate OthersUnchanged(db: Db, db': Db, f: string) {
    && (forall g :: g != f ==> (g in db.usage <==> g in db'.usage) && (g in db.usage ==> db.usage[g] == db'.usage[g]))
    && (forall k: Key :: k.folder != f ==> (k in db.entries <==> k in db'.entries) && (k in db.entries ==> db.entries[k] == db'.entries[k]))
  }

  lemma RowsOfOthers(db: Db, db': Db, f: string, g: string)
    requires OthersUnchanged(db, db', f) && g != f
    ensures Rows(db.entries, g) == Rows(db'.entries, g)
  {
    var a, b := Rows(db.entries, g), Rows(db'.entries, g);
    forall p ensures (p in a <==> p in b) && (p in a ==> a[p] == b[p]) {
      var k := Key(g, p);
      assert k in db.entries <==> k in db'.entries;
    }
  }

  lemma OthersConsistent(db: Db, db': Db, f: string)
    requires Consistent(db) && OthersUnchanged(db, db', f)
    requires f in db'.usage ==> db'.usage[f] == Recount(Rows(db'.entries, f)) && Checks(db'.usage[f])
    requires Rows(db'.entries, f) != map[] ==> f in db'.usage
    ensures Consistent(db')
  {
    forall g | g in db'.usage ensures db'.usage[g] == Recount(Rows(db'.entries, g)) && Checks(db'.usage[g]) {
      if g != f {
        RowsOfOthers(db, db', f, g);
      }
    }
    forall k | k in db'.entries ensures k.folder in db'.usage {
      if k.folder == f {
        assert k == Key(f, k.path) && k.path in Rows(db'.entries, f);
      }
    }
  }

  lemma UsageOf(db: Db, f: string)
    requires Consistent(db)
    ensures var used := if f in db.usage then db.usage[f] else Usage(0, 0);
            used == Recount(Rows(db.entries, f)) && WithinLimits(Rows(db.entries, f))
  {
    if f !in db.usage {
      assert Rows(db.entries, f) == map[];
    }
  }

  lemma RowsPut(entries: map<Key, Entry>, f: string, e: Entry)
    ensures Rows(entries[Key(f, e.path) := e], f) == Rows(entries, f)[e.path := e]
  {
  }

  /** The pre-check, the commit and the limits agree exactly, whatever the entry. */
  lemma CapacityIsExact(db: Db, f: string, e: Entry)
    requires Consistent(db)
    ensures CheckCapacity(db, f, e) <==> Fits(Rows(db.entries, f), e)
    ensures PutRow(db, f, e).Some? <==> Fits(Rows(db.entries, f), e)
  {
    hide ManifestLength, ManifestBytes, Rows;
    UsageOf(db, f);
    ManifestBytesUpdate(Rows(db.entries, f), e.path, e);
    SizeUpdate(Rows(db.entries, f), e.path, e);
  }

  /** A change to the rows of f alone, with the line of f recounted, keeps the ledger. */
  lemma LineConsistent(db: Db, entries: map<Key, Entry>, f: string)
    requires Consistent(db) && WithinLimits(Rows(entries, f))
    requires forall k: Key :: k.folder != f ==>
               (k in db.entries <==> k in entries) && (k in db.entries ==> db.entries[k] == entries[k])
    ensures var db' := Db(entries, db.usage[f := Recount(Rows(entries, f))]);
            Consistent(db') && OthersUnchanged(db, db', f)
  {
    hide ManifestLength, ManifestBytes, Rows;
    OthersConsistent(db, Db(entries, db.usage[f := Recount(Rows(entries, f))]), f);
  }

  lemma PutLine(db: Db, f: string, e: Entry)
    requires Consistent(db) && PutRow(db, f, e).Some?
    ensures PutRow(db, f, e).value ==
              Db(db.entries[Key(f, e.path) := e], db.usage[f := Recount(Rows(db.entries, f)[e.path := e])])
  {
    hide ManifestLength, ManifestBytes, Rows;
    UsageOf(db, f);
    ManifestBytesUpdate(Rows(db.entries, f), e.path, e);
    SizeUpdate(Rows(db.entries, f), e.path, e);
  }

  /** A committed put writes exactly its row, keeps the ledger, and touches no other folder. */
  lemma PutKeepsLedger(db: Db, f: string, e: Entry)
    requires Consistent(db) && PutRow(db, f, e).Some?
    ensures var db' := PutRow(db, f, e).value;
            && Consistent(db') && OthersUnchanged(db, db', f)
            && Rows(db'.entries, f) == Rows(db.entries, f)[e.path := e]
  {
    hide ManifestLength, ManifestBytes, Consistent, OthersUnchanged, PutRow, Rows, WithinLimits;
    PutLine(db, f, e);
    RowsPut(db.entries, f, e);
    CapacityIsExact(db, f, e);
    LineConsistent(db, db.entries[Key(f, e.path) := e], f) by {
      assert Fits(Rows(db.entries, f), e);
    }
  }

  lemma RowsDelete(entries: map<Key, Entry>, f: string, p: string)
    ensures Rows(entries - {Key(f, p)}, f) == Rows(entries, f) - {p}
  {
  }

  lemma DeleteLine(db: Db, f: string, p: string)
    requires Consistent(db) && Key(f, p) in db.entries
    ensures WithinLimits(Rows(db.entries, f) - {p})
    ensures DeleteRow(db, Key(f, p)) ==
              Some(Db(db.entries - {Key(f, p)}, db.usage[f := Recount(Rows(db.entries, f) - {p})]))
  {
    hide ManifestLength, ManifestBytes, Rows;
    UsageOf(db, f);
    var m := Rows(db.entries, f);
    ManifestBytesRemove(m, p);
    assert (m - {p}).Keys == m.Keys - {p} && |m| == |m.Keys| && |m - {p}| == |(m - {p}).Keys|;
  }

  /** Deleting a row can never violate a constraint. */
  lemma DeleteKeepsLedger(db: Db, f: string, p: string)
    requires Consistent(db) && Key(f, p) in db.entries
    ensures DeleteRow(db, Key(f, p)).Some?
    ensures var db' := DeleteRow(db, Key(f, p)).value;
            && Consistent(db') && OthersUnchanged(db, db', f)
            && Rows(db'.entries, f) == Rows(db.entries, f) - {p} && f in db'.usage
  {
    hide ManifestLength, ManifestBytes, Consistent, OthersUnchanged, DeleteRow, Rows, WithinLimits;
    DeleteLine(db, f, p);
    RowsDelete(db.entries, f, p);
    LineConsistent(db, db.entries - {Key(f, p)}, f);
  }

  /** The state after a committed scan: the rows of f are exactly m. */
  ghost predicate Replaced(db: Db, db': Db, f: string, m: Index) {
    && OthersUnchanged(db, db', f)
    && Rows(db'.entries, f) == m
    && (f in db'.usage <==> f in db.usage || m != map[])
  }

  lemma OthersSame(db: Db, f: string)
    ensures OthersUnchanged(db, db, f)
  {}

  lemma OthersTransitive(a: Db, b: Db, c: Db, f: string)
    requires OthersUnchanged(a, b, f) && OthersUnchanged(b, c, f)
    ensures OthersUnchanged(a, c, f)
  {
  }

  lemma LineExists(db: Db, k: Key)
    requires Consistent(db) && k in db.entries
    ensures k.folder in db.usage
  {
    hide Rows;
  }

  /** The next scanned row is accepted exactly when it is new and still fits. */
  lemma InsertWorks(db: Db, f: string, e: Entry)
    requires Consistent(db)
    ensures InsertRow(db, f, e).Some? <==> e.path !in Rows(db.entries, f) && Fits(Rows(db.entries, f), e)
    ensures InsertRow(db, f, e).Some? ==>
              var db' := InsertRow(db, f, e).value;
              && Consistent(db') && OthersUnchanged(db, db', f) && f in db'.usage
              && Rows(db'.entries, f) == Rows(db.entries, f)[e.path := e]
  {
    if e.path !in Rows(db.entries, f) {
      assert InsertRow(db, f, e) == PutRow(db, f, e);
      hide *;
      CapacityIsExact(db, f, e);
      if PutRow(db, f, e).Some? {
        PutKeepsLedger(db, f, e);
        PutLine(db, f, e);
      }
    }
  }

  lemma NewPathStaysDistinct(es: seq<Entry>, i: nat)
    requires i < |es| && DistinctPaths(es[..i])
    ensures es[i].path in Override(map[], es[..i]) ==> !DistinctPaths(es)
    ensures es[i].path !in Override(map[], es[..i]) ==> DistinctPaths(es[..i + 1])
    ensures Override(map[], es[..i + 1]) == Override(map[], es[..i])[es[i].path := es[i]]
  {
    assert es[..i + 1][..i] == es[..i];
    OverrideKeys(map[], es[..i]);
    hide Override;
    if es[i].path in Override(map[], es[..i]) {
      var j :| 0 <= j < |es[..i]| && es[..i][j].path == es[i].path;
      assert es[j].path == es[i].path;
    } else {
      forall j | 0 <= j < i ensures es[j].path != es[i].path {
        assert es[..i][j] == es[j];
      }
    }
  }

  /** A scanned list goes in row by row exactly when it has no duplicate and fits as a whole. */
  lemma InsertDecides(db: Db, f: string, es: seq<Entry>, i: nat)
    requires Consistent(db) && i < |es| && DistinctPaths(es[..i])
    requires Rows(db.entries, f) == Override(map[], es[..i])
    ensures InsertRow(db, f, es[i]).None? ==> !(DistinctPaths(es) && WithinLimits(Override(map[], es)))
    ensures InsertRow(db, f, es[i]).Some? ==>
              DistinctPaths(es[..i + 1]) && Override(map[], es[..i + 1]) == Rows(db.entries, f)[es[i].path := es[i]]
  {
    hide ManifestLength, ManifestBytes, Rows, Consistent, InsertRow, WithinLimits, Override, DistinctPaths;
    InsertWorks(db, f, es[i]);
    NewPathStaysDistinct(es, i);
    if DistinctPaths(es) && WithinLimits(Override(map[], es)) {
      PrefixWithinLimits(es, i + 1);
    }
  }

  ghost function Folders(db: Db): (fs: set<string>)
    ensures forall f :: f in fs <==> Rows(db.entries, f) != map[]
  {
    var fs := set k | k in db.entries :: k.folder;
    assert forall f :: f in fs <==> Rows(db.entries, f) != map[] by {
      forall f ensures f in fs <==> Rows(db.entries, f) != map[] {
        FolderHasRows(db.entries, f);
      }
    }
    fs
  }

  lemma FolderHasRows(entries: map<Key, Entry>, f: string)
    ensures Rows(entries, f) != map[] <==> exists k :: k in entries && k.folder == f
  {
    if k :| k in entries && k.folder == f {
      assert k == Key(f, k.path) && k.path in Rows(entries, f);
    }
    if Rows(entries, f) != map[] {
      var p :| p in Rows(entries, f);
      assert Key(f, p) in entries;
    }
  }

  /** The recount of Open; the store does not open when a constraint fails. */
  ghost function Recounted(db: Db): Db {
    if forall f :: f in Folders(db) ==> WithinLimits(Rows(db.entries, f))
    then Db(db.entries, db.usage + map f | f in Folders(db) :: Recount(Rows(db.entries, f)))
    else db
  }

  /** What the recount writes: a line for every folder that has rows. Lines of folders without rows
      stay as they are. */
  ghost predicate Rebuilt(db: Db, db': Db) {
    && db'.entries == db.entries
    && (forall f :: f in db'.usage <==> f in db.usage || Rows(db.entries, f) != map[])
    && (forall f :: f in db'.usage ==>
          db'.usage[f] == if Rows(db.entries, f) != map[] then Recount(Rows(db.entries, f)) else db.usage[f])
  }

  lemma RecountRebuilds(db: Db)
    requires forall f :: Rows(db.entries, f) != map[] ==> WithinLimits(Rows(db.entries, f))
    ensures Rebuilt(db, Recounted(db))
  {
    hide Rows, Recount, WithinLimits;
  }

  ghost predicate GoodLine(db: Db, f: string) {
    f in db.usage ==> db.usage[f] == Recount(Rows(db.entries, f)) && Checks(db.usage[f])
  }

  ghost predicate StaleLine(db: Db, f: string) {
    f in db.usage && Rows(db.entries, f) == map[] && db.usage[f] != Usage(0, 0)
  }

  lemma RebuiltLine(db: Db, db': Db, f: string)
    requires Rebuilt(db, db')
    requires Rows(db.entries, f) != map[] ==> WithinLimits(Rows(db.entries, f))
    ensures GoodLine(db', f) <==> !StaleLine(db, f)
  {
    assert Recount(map[]) == Usage(0, 0);
    hide ManifestLength, ManifestBytes, Rows;
  }

  lemma RebuiltLines(db: Db, db': Db)
    requires Rebuilt(db, db')
    ensures forall k :: k in db'.entries ==> k.folder in db'.usage
  {
    hide ManifestLength, ManifestBytes, Rows, Recount;
    forall k | k in db'.entries ensures k.folder in db'.usage {
      assert k == Key(k.folder, k.path) && k.path in Rows(db.entries, k.folder);
    }
  }

  lemma ConsistentByLines(db: Db)
    ensures Consistent(db) <==> (forall f :: GoodLine(db, f)) && (forall k :: k in db.entries ==> k.folder in db.usage)
  {
    hide Rows, Recount, Checks;
    if Consistent(db) {
      assert forall f :: GoodLine(db, f);
    }
    if forall f :: GoodLine(db, f) {
      forall f | f in db.usage ensures db.usage[f] == Recount(Rows(db.entries, f)) && Checks(db.usage[f]) {
        assert GoodLine(db, f);
      }
    }
  }

  /** Reopening repairs any ledger except a stale line of a folder without entries. */
  lemma ReopenRepairsExactly(db: Db)
    requires forall f :: Rows(db.entries, f) != map[] ==> WithinLimits(Rows(db.entries, f))
    ensures Consistent(Recounted(db)) <==> forall f :: !StaleLine(db, f)
  {
    hide *;
    var db' := Recounted(db);
    RecountRebuilds(db);
    RebuiltLines(db, db');
    ConsistentByLines(db');
    forall f ensures GoodLine(db', f) <==> !StaleLine(db, f) {
      RebuiltLine(db, db', f);
    }
  }

  /** On a consistent database reopening changes nothing. */
  lemma ReopenIsIdentity(db: Db)
    requires Consistent(db)
    ensures Recounted(db) == db
  {
    hide Rows, Consistent, Recount, WithinLimits;
    forall f | f in Folders(db) ensures f in db.usage && db.usage[f] == Recount(Rows(db.entries, f)) {
      var p :| p in Rows(db.entries, f);
      RowHasLine(db, f, p);
    }
    var lines := map f | f in Folders(db) :: Recount(Rows(db.entries, f));
    assert db.usage + lines == db.usage;
  }

  lemma RowHasLine(db: Db, f: string, p: string)
    requires Consistent(db) && p in Rows(db.entries, f)
    ensures f in db.usage && db.usage[f] == Recount(Rows(db.entries, f))
  {
    assert Key(f, p) in db.entries;
  }

  lemma ValidAfter(db: Db, db': Db, f: string, m: Index)
    requires ValidDb(db) && OthersUnchanged(db, db', f) && Rows(db'.entries, f) == m && ValidRows(m)
    ensures ValidDb(db')
  {
    hide ManifestLength, ManifestBytes, Rows, ValidEntry;
    forall k | k in db'.entries ensures db'.entries[k].path == k.path && ValidEntry(db'.entries[k]) {
      if k.folder == f {
        assert k == Key(f, k.path) && k.path in m;
      } else {
        assert k in db.entries;
      }
    }
  }

  lemma RowsValid(db: Db, f: string)
    requires ValidDb(db)
    ensures ValidRows(Rows(db.entries, f))
  {
    hide ManifestLength, ManifestBytes, Rows, ValidEntry;
  }
}
