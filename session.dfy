/** The state `SQLiteManager` (app/utils/sqliteManager.ts) keeps between
    calls, and what each call does to it, as values: the open database,
    the snapshot saved in the browser's localStorage, the change callbacks
    and the calls made to them. The class in module Manager is proved
    against these functions. */
module Session {
  import opened Wrappers
  import opened Base64
  import opened Records
  import opened Transfer

  /** A change callback, by identity (JavaScript compares functions by
      reference). */
  type CallbackId = nat

  /** What sql.js does that the model cannot see: `db.export()` turns a
      database into an image, and `new SQL.Database(image)` opens one. */
  datatype Engine = Engine(serialize: Database -> seq<bv8>, load: seq<bv8> -> Database)

  /** An engine that opens every image it exported as the database it was. */
  ghost predicate Faithful(e: Engine)
  {
    forall d :: e.load(e.serialize(d)) == d
  }

  /** `db` (none before `initDB` and after `closeDB`), the localStorage
      entry "tinyCMS_sqlite", and every callback invocation so far. */
  datatype Store = Store(db: Option<Database>, stored: Option<string>, fired: seq<CallbackId>)

  // ---------------------------------------------------------------------
  // Callbacks
  // ---------------------------------------------------------------------

  /** `Array.prototype.indexOf`: the first position holding `x`, or -1. */
  function IndexOf(s: seq<CallbackId>, x: CallbackId): (i: int)
    ensures -1 <= i < |s|
    ensures i == -1 <==> x !in s
    ensures i >= 0 ==> s[i] == x && x !in s[..i]
  {
    if s == [] then -1
    else if s[0] == x then 0
    else
      var j := IndexOf(s[1..], x);
      if j == -1 then -1 else j + 1
  }

  /** The list `removeDBChangedCallback(x)` leaves: the first occurrence of
      `x` cut out, or the list unchanged when `x` is not in it. */
  function RemoveFirst(s: seq<CallbackId>, x: CallbackId): (r: seq<CallbackId>)
    ensures x !in s ==> r == s
    ensures x in s ==> |r| == |s| - 1
    ensures multiset(r) == multiset(s) - multiset{x}
  {
    var i := IndexOf(s, x);
    if i == -1 then s
    else
      assert s == s[..i] + [s[i]] + s[i + 1..];
      s[..i] + s[i + 1..]
  }

  /** Registering a callback and removing it again restores the list. */
  lemma RemoveAfterRegister(s: seq<CallbackId>, x: CallbackId)
    requires x !in s
    ensures RemoveFirst(s + [x], x) == s
  {
    var t := s + [x];
    assert x !in t[..|s|] by { assert t[..|s|] == s; }
    assert t[|s|] == x;
    assert IndexOf(t, x) == |s|;
    assert t[..|s|] == s;
  }

  /** A callback registered twice is removed from its earlier place, so the
      later registration keeps it in the list. */
  lemma RemoveKeepsLaterDuplicate(s: seq<CallbackId>, x: CallbackId)
    requires x in s
    ensures RemoveFirst(s + [x], x) == RemoveFirst(s, x) + [x]
  {
    var t := s + [x];
    var i := IndexOf(s, x);
    assert t[..i] == s[..i] && t[i] == x;
    assert IndexOf(t, x) == i;
    assert t[i + 1..] == s[i + 1..] + [x];
    RemoveFirstAt(t, x);
    RemoveFirstAt(s, x);
  }

  lemma RemoveFirstAt(s: seq<CallbackId>, x: CallbackId)
    requires x in s
    ensures RemoveFirst(s, x) == s[..IndexOf(s, x)] + s[IndexOf(s, x) + 1..]
  {
  }

  /** `splice(indexOf(x), 1)` cuts out the first occurrence of `x`: the
      callbacks before it and after it stay, in their order. */
  lemma RemoveFirstCutsFirst(s: seq<CallbackId>, x: CallbackId)
    requires x in s
    ensures exists i :: 0 <= i < |s| && s[i] == x && x !in s[..i] && RemoveFirst(s, x) == s[..i] + s[i + 1..]
  {
    RemoveFirstAt(s, x);
    var i := IndexOf(s, x);
    assert s[i] == x && x !in s[..i];
  }

  // ---------------------------------------------------------------------
  // Saving and opening
  // ---------------------------------------------------------------------

  /** `saveDB`: with a database open, the snapshot of its image replaces the
      stored entry and every callback is called once, in registration
      order; with none, nothing happens. The entry restores to exactly the
      image that was saved. */
  function Save(e: Engine, callbacks: seq<CallbackId>, s: Store): (r: Store)
    ensures s.db.None? ==> r == s
    ensures s.db.Some? ==> r.db == s.db && r.fired == s.fired + callbacks
    ensures s.db.Some? ==> RestoredImage(r.stored) == Some(e.serialize(s.db.value))
  {
    if s.db.None? then s
    else
      SnapshotRoundTrip(e.serialize(s.db.value));
      s.(stored := Some(SnapshotText(e.serialize(s.db.value))), fired := s.fired + callbacks)
  }

  /** `initDB`: a stored entry that decodes is opened as the database it
      holds, whatever its length; otherwise a new database gets the two
      tables and is saved. */
  function Init(e: Engine, callbacks: seq<CallbackId>, s: Store): (r: Store)
    ensures r.db.Some?
    ensures RestoredImage(s.stored).Some? ==> r == s.(db := Some(e.load(RestoredImage(s.stored).value)))
    ensures RestoredImage(s.stored).None? ==>
      && r.db == Some(Ready(EmptyTables()))
      && r.fired == s.fired + callbacks
      && RestoredImage(r.stored) == Some(e.serialize(Ready(EmptyTables())))
  {
    match RestoredImage(s.stored)
    case Some(image) => s.(db := Some(e.load(image)))
    case None => Save(e, callbacks, s.(db := Some(CreateSchema(NoTables))))
  }

  /** `if (!this.db) await this.initDB();`, which every operation on the
      tables starts with. */
  function Open(e: Engine, callbacks: seq<CallbackId>, s: Store): (r: Store)
    ensures r.db.Some?
    ensures s.db.Some? ==> r == s
    ensures s.db.None? ==> r == Init(e, callbacks, s)
  {
    if s.db.Some? then s else Init(e, callbacks, s)
  }

  /** A statement changed the database to `d`, and `saveDB` followed. */
  function Commit(e: Engine, callbacks: seq<CallbackId>, s: Store, d: Database): (r: Store)
    ensures r.db == Some(d) && r.fired == s.fired + callbacks
    ensures RestoredImage(r.stored) == Some(e.serialize(d))
  {
    Save(e, callbacks, s.(db := Some(d)))
  }

  /** `closeDB`: an open database is saved, then dropped; with none open
      nothing happens. */
  function Close(e: Engine, callbacks: seq<CallbackId>, s: Store): (r: Store)
    ensures r.db == None
    ensures s.db.None? ==> r == s
    ensures s.db.Some? ==> r.fired == s.fired + callbacks
  {
    if s.db.None? then s else Save(e, callbacks, s).(db := None)
  }

  /** What was saved is what comes back: after `closeDB`, the next
      operation opens the database exactly as it was, without creating
      tables or saving again. */
  lemma ReopenAfterClose(e: Engine, callbacks: seq<CallbackId>, later: seq<CallbackId>, s: Store)
    requires Faithful(e) && s.db.Some?
    ensures var c := Close(e, callbacks, s); Open(e, later, c) == c.(db := s.db)
  {
    var c := Close(e, callbacks, s);
    assert RestoredImage(c.stored) == Some(e.serialize(s.db.value));
  }

  /** A stored entry without a comma cannot be decoded, so opening starts
      over with empty tables and saves them. */
  lemma UnreadableEntryStartsOver(e: Engine, callbacks: seq<CallbackId>, s: Store)
    requires s.db.None? && s.stored.Some? && ',' !in s.stored.value
    ensures Open(e, callbacks, s).db == Some(Ready(EmptyTables()))
    ensures Open(e, callbacks, s).fired == s.fired + callbacks
  {
    NoCommaNoImage(s.stored.value);
  }

  /** A snapshot of a zero-length image is opened as that image, not
      replaced by new tables: an empty `Uint8Array` is truthy. */
  lemma EmptyImageIsOpened(e: Engine, callbacks: seq<CallbackId>, s: Store)
    requires s.db.None? && s.stored == Some(SnapshotText([]))
    ensures Open(e, callbacks, s) == s.(db := Some(e.load([])))
  {
    SnapshotRoundTrip([]);
  }

  /** When the engine opens the zero-length image as a database without
      the two tables, as sql.js does with an empty file, opening saves
      nothing and calls no callback, later calls keep that database rather
      than starting over, and a sheet with any row to import fails without
      changing the state. */
  lemma EmptyImageHasNoTables(e: Engine, callbacks: seq<CallbackId>, later: seq<CallbackId>, s: Store,
                              rows: seq<CustomerSheetRow>, now: string, fault: Option<nat>)
    requires s.db.None? && s.stored == Some(SnapshotText([])) && e.load([]) == NoTables
    requires exists i :: 0 <= i < |rows| && CustomerAccepted(rows[i])
    ensures var o := Open(e, callbacks, s);
      && o == s.(db := Some(NoTables))
      && Open(e, later, o) == o
      && CustomerImport(e, later, o, rows, now, fault) == Step(false, o)
  {
    EmptyImageIsOpened(e, callbacks, s);
  }

  // ---------------------------------------------------------------------
  // Import
  // ---------------------------------------------------------------------

  /** The outcome of an import helper: whether it completed, and the state
      it leaves. */
  datatype Step = Step(ok: bool, store: Store)

  /** `importCustomers(rows)`: open the database, upsert every accepted row
      inside a transaction, commit and save; if an upsert fails, roll back
      to the database as it was before the transaction and save nothing. */
  function CustomerImport(e: Engine, callbacks: seq<CallbackId>, s: Store, rows: seq<CustomerSheetRow>,
                          now: string, fault: Option<nat>): (r: Step)
    ensures var o := Open(e, callbacks, s);
      && (r.ok <==> !CustomerImportFails(o.db.value, rows, fault))
      && (!r.ok ==> r.store == o)
  {
    var o := Open(e, callbacks, s);
    if CustomerImportFails(o.db.value, rows, fault) then Step(false, o)
    else Step(true, Commit(e, callbacks, o, ImportedCustomers(o.db.value, rows, now)))
  }

  /** `importInvoices(rows)`. */
  function InvoiceImport(e: Engine, callbacks: seq<CallbackId>, s: Store, rows: seq<InvoiceSheetRow>,
                         now: string, fault: Option<nat>): (r: Step)
    ensures var o := Open(e, callbacks, s);
      && (r.ok <==> !InvoiceImportFails(o.db.value, rows, fault))
      && (!r.ok ==> r.store == o)
  {
    var o := Open(e, callbacks, s);
    if InvoiceImportFails(o.db.value, rows, fault) then Step(false, o)
    else Step(true, Commit(e, callbacks, o, ImportedInvoices(o.db.value, rows, now)))
  }

  /** A completed customer import upserts exactly the accepted rows: the
      table gains their ids, the last accepted row for an id decides its
      values, every other customer stays as it was, the invoices are not
      touched, and the state is saved and every callback called once. */
  lemma CustomerImportUpserts(e: Engine, callbacks: seq<CallbackId>, s: Store, rows: seq<CustomerSheetRow>,
                              now: string, fault: Option<nat>)
    requires CustomerImport(e, callbacks, s, rows, now, fault).ok
    requires Open(e, callbacks, s).db.value.Ready?
    ensures var t := Open(e, callbacks, s).db.value.tables;
      var r := CustomerImport(e, callbacks, s, rows, now, fault).store;
      && r.db.Some? && r.db.value.Ready?
      && r.db.value.tables.customers.Keys == t.customers.Keys + AcceptedCustomerIds(rows)
      && (forall k :: k in t.customers && k !in AcceptedCustomerIds(rows) ==>
            r.db.value.tables.customers[k] == t.customers[k])
      && (forall i :: 0 <= i < |rows| && CustomerAccepted(rows[i]) && LastCustomerWithId(rows, i) ==>
            r.db.value.tables.customers[rows[i].id.value] == CustomerRowFrom(rows[i], now))
      && r.db.value.tables.invoices == t.invoices
      && r.fired == Open(e, callbacks, s).fired + callbacks
  {
    var t := Open(e, callbacks, s).db.value.tables;
    ImportCustomerRowsKeys(t, rows, now);
    ImportCustomerRowsKeeps(t, rows, now);
    ImportCustomerRowsFrame(t, rows, now);
    forall i | 0 <= i < |rows| && CustomerAccepted(rows[i]) && LastCustomerWithId(rows, i)
      ensures ImportCustomerRows(t, rows, now).customers[rows[i].id.value] == CustomerRowFrom(rows[i], now)
    {
      ImportCustomerRowsLastWins(t, rows, now, i);
    }
  }

  /** A completed invoice import upserts exactly the accepted rows. */
  lemma InvoiceImportUpserts(e: Engine, callbacks: seq<CallbackId>, s: Store, rows: seq<InvoiceSheetRow>,
                             now: string, fault: Option<nat>)
    requires InvoiceImport(e, callbacks, s, rows, now, fault).ok
    requires Open(e, callbacks, s).db.value.Ready?
    ensures var t := Open(e, callbacks, s).db.value.tables;
      var r := InvoiceImport(e, callbacks, s, rows, now, fault).store;
      && r.db.Some? && r.db.value.Ready?
      && r.db.value.tables.invoices.Keys == t.invoices.Keys + AcceptedInvoiceIds(rows)
      && (forall k :: k in t.invoices && k !in AcceptedInvoiceIds(rows) ==>
            r.db.value.tables.invoices[k] == t.invoices[k])
      && (forall i :: 0 <= i < |rows| && InvoiceAccepted(rows[i]) && LastInvoiceWithId(rows, i) ==>
            r.db.value.tables.invoices[rows[i].id.value] == InvoiceRowFrom(rows[i], now))
      && r.db.value.tables.customers == t.customers
      && r.fired == Open(e, callbacks, s).fired + callbacks
  {
    var t := Open(e, callbacks, s).db.value.tables;
    ImportInvoiceRowsKeys(t, rows, now);
    ImportInvoiceRowsKeeps(t, rows, now);
    ImportInvoiceRowsFrame(t, rows, now);
    forall i | 0 <= i < |rows| && InvoiceAccepted(rows[i]) && LastInvoiceWithId(rows, i)
      ensures ImportInvoiceRows(t, rows, now).invoices[rows[i].id.value] == InvoiceRowFrom(rows[i], now)
    {
      ImportInvoiceRowsLastWins(t, rows, now, i);
    }
  }

  /** The counts `importFromExcel` resolves with. */
  datatype ImportCounts = ImportCounts(customersImported: nat, invoicesImported: nat)

  /** `importFromExcel` on a workbook it could read: the result, and the
      state it leaves. */
  datatype ExcelOutcome = ExcelOutcome(result: Result<ImportCounts>, store: Store)

  /** The number of row objects of a sheet, 0 for a missing sheet. */
  function SheetLength<T>(sheet: Option<seq<T>>): nat
  {
    if sheet.Some? then |sheet.value| else 0
  }

  /** `importFromExcel`: the Customers sheet first, if present, then the
      Invoices sheet, if present; a failed sheet rejects the whole call at
      once. Each count is the number of row objects in its sheet, skipped
      rows included. */
  function ExcelImport(e: Engine, callbacks: seq<CallbackId>, s: Store, w: Workbook, now: string,
                       customerFault: Option<nat>, invoiceFault: Option<nat>): (r: ExcelOutcome)
    ensures r.result.Ok? ==> r.result.value == ImportCounts(SheetLength(w.customers), SheetLength(w.invoices))
    ensures w.customers.None? && w.invoices.None? ==> r == ExcelOutcome(Ok(ImportCounts(0, 0)), s)
    ensures w.customers.Some? && !CustomerImport(e, callbacks, s, w.customers.value, now, customerFault).ok ==>
      r == ExcelOutcome(Failed, CustomerImport(e, callbacks, s, w.customers.value, now, customerFault).store)
    ensures w.customers.Some? && w.invoices.None? ==>
      var c := CustomerImport(e, callbacks, s, w.customers.value, now, customerFault);
      (r.result.Ok? <==> c.ok) && r.store == c.store
    ensures w.customers.None? && w.invoices.Some? ==>
      var i := InvoiceImport(e, callbacks, s, w.invoices.value, now, invoiceFault);
      (r.result.Ok? <==> i.ok) && r.store == i.store
    ensures w.customers.Some? && w.invoices.Some? ==>
      var c := CustomerImport(e, callbacks, s, w.customers.value, now, customerFault);
      var i := InvoiceImport(e, callbacks, c.store, w.invoices.value, now, invoiceFault);
      && (r.result.Ok? <==> c.ok && i.ok)
      && (c.ok && i.ok ==> r.store == i.store)
      && (c.ok && !i.ok ==> r.store == c.store)
  {
    var first := if w.customers.Some? then CustomerImport(e, callbacks, s, w.customers.value, now, customerFault)
                 else Step(true, s);
    if !first.ok then ExcelOutcome(Failed, first.store)
    else
      var second := if w.invoices.Some? then InvoiceImport(e, callbacks, first.store, w.invoices.value, now, invoiceFault)
                    else Step(true, first.store);
      if !second.ok then ExcelOutcome(Failed, second.store)
      else ExcelOutcome(Ok(ImportCounts(SheetLength(w.customers), SheetLength(w.invoices))), second.store)
  }

  /** The workbook `exportToExcel` writes, as `importFromExcel` reads it. */
  function ExportWorkbook(t: Tables): (w: Workbook)
    ensures w.customers == Some(ExportCustomers(t)) && w.invoices == Some(ExportInvoices(t))
  {
    Workbook(Some(ExportCustomers(t)), Some(ExportInvoices(t)))
  }

  /** Export, clear, import: with every statement succeeding, the tables
      come back with every customer and invoice as they were, and the
      counts are the sizes of the tables, provided no row is one import
      skips or re-dates. */
  lemma ClearThenReimport(e: Engine, callbacks: seq<CallbackId>, s: Store, now: string)
    requires s.db.Some? && s.db.value.Ready? && Reimportable(s.db.value.tables)
    ensures var t := s.db.value.tables;
      var cleared := Commit(e, callbacks, s, Ready(ClearAll(t)));
      var r := ExcelImport(e, callbacks, cleared, ExportWorkbook(t), now, None, None);
      && r.result == Ok(ImportCounts(|t.customers|, |t.invoices|))
      && r.store.db.Some? && r.store.db.value.Ready?
      && r.store.db.value.tables.customers == t.customers
      && r.store.db.value.tables.invoices == t.invoices
  {
    var t := s.db.value.tables;
    var cleared := Commit(e, callbacks, s, Ready(ClearAll(t)));
    var w := ExportWorkbook(t);
    ExportImportRoundTrip(t, ClearAll(t), now);
    assert !CustomerImportFails(Ready(ClearAll(t)), w.customers.value, None);
    var first := CustomerImport(e, callbacks, cleared, w.customers.value, now, None);
    assert first.store.db == Some(Ready(ImportCustomerRows(ClearAll(t), ExportCustomers(t), now)));
    assert !InvoiceImportFails(first.store.db.value, w.invoices.value, None);
  }

  /** Skipped rows are counted: a sheet of two customer rows, one without
      a name, reports two customers imported while one is stored. */
  lemma SkippedRowsAreCounted(e: Engine, callbacks: seq<CallbackId>, s: Store, now: string)
    requires s.db == Some(Ready(EmptyTables()))
    ensures var rows := [CustomerSheetRow(Some(1), Some("2024-01-01"), Some("Ann"), None),
                         CustomerSheetRow(Some(2), Some("2024-01-02"), None, None)];
      var r := ExcelImport(e, callbacks, s, Workbook(Some(rows), None), now, None, None);
      && r.result == Ok(ImportCounts(2, 0))
      && r.store.db == Some(Ready(EmptyTables().(customers := map[1 := CustomerRow("2024-01-01", "Ann", "")],
                                                  customerSeq := 1)))
  {
    var rows := [CustomerSheetRow(Some(1), Some("2024-01-01"), Some("Ann"), None),
                 CustomerSheetRow(Some(2), Some("2024-01-02"), None, None)];
    var t := EmptyTables();
    assert CustomerAccepted(rows[0]) && !CustomerAccepted(rows[1]);
    assert !CustomerImportFails(Ready(t), rows, None);
    assert rows[..1] == [rows[0]] && rows[..1][..0] == [];
    var once := UpsertCustomer(t, 1, CustomerRowFrom(rows[0], now));
    assert ImportCustomerRows(t, rows[..1], now) == once;
    assert ImportCustomerRows(t, rows, now) == once;
    assert once == t.(customers := map[1 := CustomerRow("2024-01-01", "Ann", "")], customerSeq := 1);
    var step := CustomerImport(e, callbacks, s, rows, now, None);
    assert step.ok && step.store.db == Some(Ready(once));
  }
}
