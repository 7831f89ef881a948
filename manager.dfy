/** The class `SQLiteManager` of app/utils/sqliteManager.ts: its fields,
    and each of its methods as a method that updates them. Every method is
    proved to leave the state the functions of module Session describe; a
    method that fails leaves exactly the state opening the database left. */
module Manager {
  import opened Wrappers
  import opened Text
  import opened Base64
  import opened Records
  import opened Listing
  import Search
  import opened Transfer
  import opened Session

  class SQLiteManager {
    /** The sql.js library's serializer and loader. */
    const engine: Engine
    /** `db`: none before `initDB` and after `closeDB`. */
    var db: Option<Database>
    /** The localStorage entry "tinyCMS_sqlite". */
    var stored: Option<string>
    /** `dbChangedCallbacks`, in registration order. */
    var callbacks: seq<CallbackId>
    /** The calls made to callbacks so far, in order. */
    var fired: seq<CallbackId>

    function State(): Store
      reads this
    {
      Store(db, stored, fired)
    }

    /** A manager in a page whose localStorage holds `persisted`. */
    constructor (engine: Engine, persisted: Option<string>)
      ensures this.engine == engine && db == None && stored == persisted
      ensures callbacks == [] && fired == []
    {
      this.engine := engine;
      db := None;
      stored := persisted;
      callbacks := [];
      fired := [];
    }

    // -------------------------------------------------------------------
    // Callbacks
    // -------------------------------------------------------------------

    /** `notifyDBChanged`: every callback, in registration order. */
    method NotifyDbChanged()
      modifies this`fired
      ensures fired == old(fired) + callbacks
    {
      var i := 0;
      while i < |callbacks|
        invariant 0 <= i <= |callbacks|
        invariant fired == old(fired) + callbacks[..i]
      {
        assert callbacks[..i + 1] == callbacks[..i] + [callbacks[i]];
        fired := fired + [callbacks[i]];
        i := i + 1;
      }
      assert callbacks[..i] == callbacks;
    }

    /** `onDBChanged`: appended, duplicates allowed. */
    method OnDbChanged(callback: CallbackId)
      modifies this`callbacks
      ensures callbacks == old(callbacks) + [callback]
    {
      callbacks := callbacks + [callback];
    }

    /** `removeDBChangedCallback`: `indexOf`, then `splice` of one element. */
    method RemoveDbChangedCallback(callback: CallbackId)
      modifies this`callbacks
      ensures callbacks == RemoveFirst(old(callbacks), callback)
    {
      var index := IndexOf(callbacks, callback);
      if index != -1 {
        callbacks := callbacks[..index] + callbacks[index + 1..];
      }
    }

    // -------------------------------------------------------------------
    // Saving and opening
    // -------------------------------------------------------------------

    /** `saveDB`. In the code the entry is written by the FileReader's
        `onload`, after the callbacks have run; the model writes it at
        once. */
    method SaveDb()
      modifies this`stored, this`fired
      ensures State() == Save(engine, callbacks, old(State()))
    {
      if db.None? {
        return;
      }
      var image := engine.serialize(db.value);
      stored := Some(SnapshotText(image));
      NotifyDbChanged();
    }

    /** `createTables`: fails without a database, otherwise adds the tables
        the database lacks and saves. */
    method CreateTables() returns (ok: bool)
      modifies this`db, this`stored, this`fired
      ensures ok == old(db).Some?
      ensures ok ==> State() == Save(engine, callbacks, old(State()).(db := Some(CreateSchema(old(db).value))))
      ensures !ok ==> State() == old(State())
    {
      if db.None? {
        return false;
      }
      db := Some(CreateSchema(db.value));
      SaveDb();
      return true;
    }

    /** `initDB`: the stored entry is decoded byte by byte into an array; a
        missing, empty or undecodable entry gives a new database with the
        tables. */
    method InitDb()
      modifies this`db, this`stored, this`fired
      ensures State() == Init(engine, callbacks, old(State()))
    {
      var image: Option<seq<bv8>> := None;
      var binary := StoredBinary(stored);
      if binary.Some? {
        var bytes := CharCodes(binary.value);
        image := Some(bytes);
      }
      assert image == RestoredImage(old(stored));
      if image.None? {
        db := Some(NoTables);
        var _ := CreateTables();
      } else {
        db := Some(engine.load(image.value));
      }
    }

    /** The loop that stores `binary.charCodeAt(i)` into a `Uint8Array`. */
    static method CharCodes(binary: string) returns (b: seq<bv8>)
      ensures b == BinaryBytes(binary)
    {
      var bytes := new bv8[|binary|];
      for i := 0 to |binary|
        invariant forall j :: 0 <= j < i ==> bytes[j] == CharCode(binary[j])
      {
        bytes[i] := CharCode(binary[i]);
      }
      b := bytes[..];
    }

    /** `if (!this.db) await this.initDB();` */
    method EnsureOpen()
      modifies this`db, this`stored, this`fired
      ensures State() == Open(engine, callbacks, old(State()))
    {
      if db.None? {
        InitDb();
      }
    }

    /** `closeDB`. */
    method CloseDb()
      modifies this`db, this`stored, this`fired
      ensures State() == Close(engine, callbacks, old(State()))
    {
      if db.Some? {
        SaveDb();
        db := None;
      }
    }

    /** The loops that copy the engine's result rows into the array
        returned. */
    static method CopyRows<T>(rows: seq<T>) returns (out: seq<T>)
      ensures out == rows
    {
      out := [];
      for i := 0 to |rows|
        invariant out == rows[..i]
      {
        out := out + [rows[i]];
      }
    }

    // -------------------------------------------------------------------
    // Customers
    // -------------------------------------------------------------------

    /** `addCustomer`: the id of the new row, as decimal text. */
    method AddCustomer(customer: Customer) returns (r: Result<string>)
      modifies this`db, this`stored, this`fired
      ensures var o := Open(engine, callbacks, old(State()));
        match o.db.value
        case NoTables => r.Failed? && State() == o
        case Ready(t) =>
          var ins := InsertCustomer(t, CustomerRow(customer.date, customer.name, customer.phone));
          r == Ok(DecimalString(ins.id)) && State() == Commit(engine, callbacks, o, Ready(ins.tables))
    {
      EnsureOpen();
      if db.value.NoTables? {
        return Failed;
      }
      var ins := InsertCustomer(db.value.tables, CustomerRow(customer.date, customer.name, customer.phone));
      db := Some(Ready(ins.tables));
      SaveDb();
      return Ok(DecimalString(ins.id));
    }

    /** `getCustomers`: at most 50 customers, latest date first. */
    method GetCustomers() returns (r: Result<seq<Customer>>)
      modifies this`db, this`stored, this`fired
      ensures var o := Open(engine, callbacks, old(State()));
        && State() == o
        && match o.db.value
           case NoTables => r.Failed?
           case Ready(t) => r == Ok(CustomerPage(t.customers))
    {
      EnsureOpen();
      if db.value.NoTables? {
        return Failed;
      }
      var rows := CopyRows(CustomerPage(db.value.tables.customers));
      return Ok(rows);
    }

    /** `updateCustomer`: saves even when no row has the id. */
    method UpdateCustomer(customer: Customer) returns (ok: bool)
      modifies this`db, this`stored, this`fired
      ensures var o := Open(engine, callbacks, old(State()));
        match o.db.value
        case NoTables => !ok && State() == o
        case Ready(t) => ok && State() == Commit(engine, callbacks, o, Ready(Records.UpdateCustomer(t, customer)))
    {
      EnsureOpen();
      if db.value.NoTables? {
        return false;
      }
      db := Some(Ready(Records.UpdateCustomer(db.value.tables, customer)));
      SaveDb();
      return true;
    }

    /** `deleteCustomer`: the customer's invoices first, with a save, then
        the customer, with a second save; the callbacks run twice. */
    method DeleteCustomer(id: int) returns (ok: bool)
      modifies this`db, this`stored, this`fired
      ensures var o := Open(engine, callbacks, old(State()));
        match o.db.value
        case NoTables => !ok && State() == o
        case Ready(t) =>
          var withoutInvoices := DeleteInvoicesOf(t, id);
          && ok
          && State() == Commit(engine, callbacks, Commit(engine, callbacks, o, Ready(withoutInvoices)),
                               Ready(DeleteCustomerRow(withoutInvoices, id)))
    {
      EnsureOpen();
      var deleted := DeleteInvoicesByCustomerId(id);
      if !deleted {
        return false;
      }
      db := Some(Ready(DeleteCustomerRow(db.value.tables, id)));
      SaveDb();
      return true;
    }

    /** `searchCustomers`. */
    method SearchCustomers(query: Option<string>) returns (r: Result<seq<Customer>>)
      modifies this`db, this`stored, this`fired
      ensures var o := Open(engine, callbacks, old(State()));
        && State() == o
        && match o.db.value
           case NoTables => r.Failed?
           case Ready(t) => r == Ok(Search.SearchCustomers(t.customers, query))
    {
      EnsureOpen();
      if Search.IsBlankQuery(query) {
        r := GetCustomers();
        return;
      }
      var terms := Search.SearchTerms(query.value);
      if db.value.NoTables? {
        return Failed;
      }
      return Ok(CustomerPage(Search.Matching(db.value.tables.customers, terms)));
    }

    // -------------------------------------------------------------------
    // Invoices
    // -------------------------------------------------------------------

    /** `addInvoice`: the customer id is not checked. */
    method AddInvoice(invoice: Invoice) returns (r: Result<string>)
      modifies this`db, this`stored, this`fired
      ensures var o := Open(engine, callbacks, old(State()));
        match o.db.value
        case NoTables => r.Failed? && State() == o
        case Ready(t) =>
          var ins := InsertInvoice(t, InvoiceRow(invoice.date, invoice.number, invoice.customerId));
          r == Ok(DecimalString(ins.id)) && State() == Commit(engine, callbacks, o, Ready(ins.tables))
    {
      EnsureOpen();
      if db.value.NoTables? {
        return Failed;
      }
      var ins := InsertInvoice(db.value.tables, InvoiceRow(invoice.date, invoice.number, invoice.customerId));
      db := Some(Ready(ins.tables));
      SaveDb();
      return Ok(DecimalString(ins.id));
    }

    /** `getInvoices`: every invoice, by date and then number, descending. */
    method GetInvoices() returns (r: Result<seq<Invoice>>)
      modifies this`db, this`stored, this`fired
      ensures var o := Open(engine, callbacks, old(State()));
        && State() == o
        && match o.db.value
           case NoTables => r.Failed?
           case Ready(t) => r == Ok(InvoiceListing(t.invoices))
    {
      EnsureOpen();
      if db.value.NoTables? {
        return Failed;
      }
      var rows := CopyRows(InvoiceListing(db.value.tables.invoices));
      return Ok(rows);
    }

    /** `getInvoicesByCustomerId`. */
    method GetInvoicesByCustomerId(customerId: int) returns (r: Result<seq<Invoice>>)
      modifies this`db, this`stored, this`fired
      ensures var o := Open(engine, callbacks, old(State()));
        && State() == o
        && match o.db.value
           case NoTables => r.Failed?
           case Ready(t) => r == Ok(CustomerInvoiceListing(t.invoices, customerId))
    {
      EnsureOpen();
      if db.value.NoTables? {
        return Failed;
      }
      var rows := CopyRows(CustomerInvoiceListing(db.value.tables.invoices, customerId));
      return Ok(rows);
    }

    /** `updateInvoice`. */
    method UpdateInvoice(invoice: Invoice) returns (ok: bool)
      modifies this`db, this`stored, this`fired
      ensures var o := Open(engine, callbacks, old(State()));
        match o.db.value
        case NoTables => !ok && State() == o
        case Ready(t) => ok && State() == Commit(engine, callbacks, o, Ready(Records.UpdateInvoice(t, invoice)))
    {
      EnsureOpen();
      if db.value.NoTables? {
        return false;
      }
      db := Some(Ready(Records.UpdateInvoice(db.value.tables, invoice)));
      SaveDb();
      return true;
    }

    /** `deleteInvoice`. */
    method DeleteInvoice(id: int) returns (ok: bool)
      modifies this`db, this`stored, this`fired
      ensures var o := Open(engine, callbacks, old(State()));
        match o.db.value
        case NoTables => !ok && State() == o
        case Ready(t) => ok && State() == Commit(engine, callbacks, o, Ready(DeleteInvoiceRow(t, id)))
    {
      EnsureOpen();
      if db.value.NoTables? {
        return false;
      }
      db := Some(Ready(DeleteInvoiceRow(db.value.tables, id)));
      SaveDb();
      return true;
    }

    /** `deleteInvoicesByCustomerId`: no matching invoice is no error. */
    method DeleteInvoicesByCustomerId(customerId: int) returns (ok: bool)
      modifies this`db, this`stored, this`fired
      ensures var o := Open(engine, callbacks, old(State()));
        match o.db.value
        case NoTables => !ok && State() == o
        case Ready(t) => ok && State() == Commit(engine, callbacks, o, Ready(DeleteInvoicesOf(t, customerId)))
    {
      EnsureOpen();
      if db.value.NoTables? {
        return false;
      }
      db := Some(Ready(DeleteInvoicesOf(db.value.tables, customerId)));
      SaveDb();
      return true;
    }

    // -------------------------------------------------------------------
    // Export and import
    // -------------------------------------------------------------------

    /** `getAllCustomersForExport`: every customer, in rowid order. */
    method GetAllCustomersForExport() returns (r: Result<seq<Customer>>)
      modifies this`db, this`stored, this`fired
      ensures var o := Open(engine, callbacks, old(State()));
        && State() == o
        && match o.db.value
           case NoTables => r.Failed?
           case Ready(t) => r == Ok(AllCustomers(t.customers))
    {
      EnsureOpen();
      if db.value.NoTables? {
        return Failed;
      }
      var rows := CopyRows(AllCustomers(db.value.tables.customers));
      return Ok(rows);
    }

    /** `getAllInvoicesForExport`: every invoice, in rowid order. */
    method GetAllInvoicesForExport() returns (r: Result<seq<Invoice>>)
      modifies this`db, this`stored, this`fired
      ensures var o := Open(engine, callbacks, old(State()));
        && State() == o
        && match o.db.value
           case NoTables => r.Failed?
           case Ready(t) => r == Ok(AllInvoices(t.invoices))
    {
      EnsureOpen();
      if db.value.NoTables? {
        return Failed;
      }
      var rows := CopyRows(AllInvoices(db.value.tables.invoices));
      return Ok(rows);
    }

    /** `exportToExcel`, up to the workbook: its two sheets as they read
        back. */
    method ExportToExcel() returns (r: Result<Workbook>)
      modifies this`db, this`stored, this`fired
      ensures var o := Open(engine, callbacks, old(State()));
        && State() == o
        && match o.db.value
           case NoTables => r.Failed?
           case Ready(t) => r == Ok(ExportWorkbook(t))
    {
      var customers := GetAllCustomersForExport();
      if customers.Failed? {
        return Failed;
      }
      var invoices := GetAllInvoicesForExport();
      if invoices.Failed? {
        return Failed;
      }
      return Ok(Workbook(Some(CustomerSheet(customers.value)), Some(InvoiceSheet(invoices.value))));
    }

    /** `importCustomers`: one upsert per accepted row between BEGIN and
        COMMIT; the upsert of row `fault`, if accepted, is the one the
        engine rejects, upon which ROLLBACK restores the database. */
    method ImportCustomers(rows: seq<CustomerSheetRow>, now: string, fault: Option<nat>) returns (ok: bool)
      modifies this`db, this`stored, this`fired
      ensures Step(ok, State()) == CustomerImport(engine, callbacks, old(State()), rows, now, fault)
    {
      EnsureOpen();
      ok := UpsertCustomers(rows, now, fault);
      if ok {
        SaveDb();
      }
    }

    /** The transaction of `importCustomers`: BEGIN, the loop over the rows,
        then COMMIT, or ROLLBACK at the first upsert that fails. */
    method UpsertCustomers(rows: seq<CustomerSheetRow>, now: string, fault: Option<nat>) returns (ok: bool)
      requires db.Some?
      modifies this`db
      ensures ok == !CustomerImportFails(old(db).value, rows, fault)
      ensures db == if ok then Some(ImportedCustomers(old(db).value, rows, now)) else old(db)
    {
      var before := db.value;
      var i := 0;
      assert rows[..0] == [];
      while i < |rows|
        invariant 0 <= i <= |rows|
        invariant db == Some(ImportedCustomers(before, rows[..i], now))
        invariant forall j :: 0 <= j < i && CustomerAccepted(rows[j]) ==> !(before.NoTables? || fault == Some(j))
      {
        ImportedCustomersStep(before, rows, i, now);
        var row := rows[i];
        if CustomerAccepted(row) {
          if db.value.NoTables? || fault == Some(i) {
            db := Some(before);
            assert CustomerImportFails(before, rows, fault);
            return false;
          }
          db := Some(Ready(UpsertCustomer(db.value.tables, row.id.value, CustomerRowFrom(row, now))));
        }
        i := i + 1;
      }
      assert rows[..i] == rows;
      return true;
    }

    /** `importInvoices`. */
    method ImportInvoices(rows: seq<InvoiceSheetRow>, now: string, fault: Option<nat>) returns (ok: bool)
      modifies this`db, this`stored, this`fired
      ensures Step(ok, State()) == InvoiceImport(engine, callbacks, old(State()), rows, now, fault)
    {
      EnsureOpen();
      ok := UpsertInvoices(rows, now, fault);
      if ok {
        SaveDb();
      }
    }

    /** The transaction of `importInvoices`: BEGIN, the loop over the rows,
        then COMMIT, or ROLLBACK at the first upsert that fails. */
    method UpsertInvoices(rows: seq<InvoiceSheetRow>, now: string, fault: Option<nat>) returns (ok: bool)
      requires db.Some?
      modifies this`db
      ensures ok == !InvoiceImportFails(old(db).value, rows, fault)
      ensures db == if ok then Some(ImportedInvoices(old(db).value, rows, now)) else old(db)
    {
      var before := db.value;
      var i := 0;
      assert rows[..0] == [];
      while i < |rows|
        invariant 0 <= i <= |rows|
        invariant db == Some(ImportedInvoices(before, rows[..i], now))
        invariant forall j :: 0 <= j < i && InvoiceAccepted(rows[j]) ==> !(before.NoTables? || fault == Some(j))
      {
        ImportedInvoicesStep(before, rows, i, now);
        var row := rows[i];
        if InvoiceAccepted(row) {
          if db.value.NoTables? || fault == Some(i) {
            db := Some(before);
            assert InvoiceImportFails(before, rows, fault);
            return false;
          }
          db := Some(Ready(UpsertInvoice(db.value.tables, row.id.value, InvoiceRowFrom(row, now))));
        }
        i := i + 1;
      }
      assert rows[..i] == rows;
      return true;
    }

    /** `importFromExcel`, from the workbook read from the file (`None`
        when the file cannot be read or parsed). */
    method ImportFromExcel(file: Option<Workbook>, now: string, customerFault: Option<nat>,
                           invoiceFault: Option<nat>) returns (r: Result<ImportCounts>)
      modifies this`db, this`stored, this`fired
      ensures file.None? ==> r.Failed? && State() == old(State())
      ensures file.Some? ==>
        ExcelOutcome(r, State()) == ExcelImport(engine, callbacks, old(State()), file.value, now, customerFault, invoiceFault)
    {
      if file.None? {
        return Failed;
      }
      var workbook := file.value;
      var customersImported := 0;
      if workbook.customers.Some? {
        var ok := ImportCustomers(workbook.customers.value, now, customerFault);
        if !ok {
          return Failed;
        }
        customersImported := |workbook.customers.value|;
      }
      var invoicesImported := 0;
      if workbook.invoices.Some? {
        var ok := ImportInvoices(workbook.invoices.value, now, invoiceFault);
        if !ok {
          return Failed;
        }
        invoicesImported := |workbook.invoices.value|;
      }
      return Ok(ImportCounts(customersImported, invoicesImported));
    }

    /** `clearAllData`: both DELETEs in one transaction; without the tables
        the first one fails and ROLLBACK leaves the database as it was. */
    method ClearAllData() returns (ok: bool)
      modifies this`db, this`stored, this`fired
      ensures var o := Open(engine, callbacks, old(State()));
        match o.db.value
        case NoTables => !ok && State() == o
        case Ready(t) => ok && State() == Commit(engine, callbacks, o, Ready(ClearAll(t)))
    {
      EnsureOpen();
      var before := db.value;
      if db.value.NoTables? {
        db := Some(before);
        return false;
      }
      db := Some(Ready(db.value.tables.(invoices := map[])));
      db := Some(Ready(db.value.tables.(customers := map[])));
      SaveDb();
      return true;
    }
  }
}
