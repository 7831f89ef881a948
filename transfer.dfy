/** Bulk transfer (app/utils/sqliteManager.ts): the rows export hands to
    the spreadsheet writer, the rows import takes from the spreadsheet
    reader, which of those rows import accepts, and what the accepted rows
    do to the tables. The spreadsheet codec itself is not modelled: a sheet
    is the sequence of row objects it yields. */
module Transfer {
  import opened Wrappers
  import opened Records
  import opened Listing

  /** A row object read from the "Customers" sheet; any cell may be missing. */
  datatype CustomerSheetRow = CustomerSheetRow(
    id: Option<int>, date: Option<string>, name: Option<string>, phone: Option<string>)

  /** A row object read from the "Invoices" sheet. */
  datatype InvoiceSheetRow = InvoiceSheetRow(
    id: Option<int>, date: Option<string>, number: Option<string>, customerId: Option<int>)

  /** A decoded workbook: each of the two sheets is present or not. */
  datatype Workbook = Workbook(
    customers: Option<seq<CustomerSheetRow>>, invoices: Option<seq<InvoiceSheetRow>>)

  /** JavaScript truthiness of a numeric cell: present and not 0. */
  predicate IdTruthy(v: Option<int>)
  {
    v.Some? && v.value != 0
  }

  /** JavaScript truthiness of a text cell: present and not empty. */
  predicate TextTruthy(v: Option<string>)
  {
    v.Some? && v.value != ""
  }

  /** `v || fallback` for a text cell. */
  function TextOr(v: Option<string>, fallback: string): (r: string)
    ensures TextTruthy(v) ==> r == v.value
    ensures !TextTruthy(v) ==> r == fallback
  {
    if TextTruthy(v) then v.value else fallback
  }

  /** `if (!customer.id || !customer.name) continue;` lets the row through. */
  predicate CustomerAccepted(r: CustomerSheetRow)
  {
    IdTruthy(r.id) && TextTruthy(r.name)
  }

  /** `if (!invoice.id || !invoice.customerId) continue;` lets the row through. */
  predicate InvoiceAccepted(r: InvoiceSheetRow)
  {
    IdTruthy(r.id) && IdTruthy(r.customerId)
  }

  /** The values bound to `INSERT OR REPLACE INTO customers`: a missing
      date becomes the import time `now`, a missing phone the empty text. */
  function CustomerRowFrom(r: CustomerSheetRow, now: string): CustomerRow
    requires CustomerAccepted(r)
  {
    CustomerRow(TextOr(r.date, now), r.name.value, TextOr(r.phone, ""))
  }

  /** The values bound to `INSERT OR REPLACE INTO invoices`. */
  function InvoiceRowFrom(r: InvoiceSheetRow, now: string): InvoiceRow
    requires InvoiceAccepted(r)
  {
    InvoiceRow(TextOr(r.date, now), TextOr(r.number, ""), r.customerId.value)
  }

  /** The ids of the accepted rows of a sheet. */
  function AcceptedCustomerIds(rows: seq<CustomerSheetRow>): set<int>
  {
    set i | 0 <= i < |rows| && CustomerAccepted(rows[i]) :: rows[i].id.value
  }

  function AcceptedInvoiceIds(rows: seq<InvoiceSheetRow>): set<int>
  {
    set i | 0 <= i < |rows| && InvoiceAccepted(rows[i]) :: rows[i].id.value
  }

  /** No accepted row after row `i` carries its id. */
  predicate LastCustomerWithId(rows: seq<CustomerSheetRow>, i: int)
    requires 0 <= i < |rows| && CustomerAccepted(rows[i])
  {
    forall j :: i < j < |rows| && CustomerAccepted(rows[j]) ==> rows[j].id.value != rows[i].id.value
  }

  predicate LastInvoiceWithId(rows: seq<InvoiceSheetRow>, i: int)
    requires 0 <= i < |rows| && InvoiceAccepted(rows[i])
  {
    forall j :: i < j < |rows| && InvoiceAccepted(rows[j]) ==> rows[j].id.value != rows[i].id.value
  }

  // ---------------------------------------------------------------------
  // Import of one sheet
  // ---------------------------------------------------------------------

  /** The tables after the loop of `importCustomers` has run over `rows`
      with every statement succeeding: each accepted row upserted in turn. */
  function ImportCustomerRows(t: Tables, rows: seq<CustomerSheetRow>, now: string): Tables
    decreases |rows|
  {
    if rows == [] then t
    else
      var before := ImportCustomerRows(t, rows[..|rows| - 1], now);
      var row := rows[|rows| - 1];
      if CustomerAccepted(row) then UpsertCustomer(before, row.id.value, CustomerRowFrom(row, now)) else before
  }

  /** The tables after the loop of `importInvoices`. */
  function ImportInvoiceRows(t: Tables, rows: seq<InvoiceSheetRow>, now: string): Tables
    decreases |rows|
  {
    if rows == [] then t
    else
      var before := ImportInvoiceRows(t, rows[..|rows| - 1], now);
      var row := rows[|rows| - 1];
      if InvoiceAccepted(row) then UpsertInvoice(before, row.id.value, InvoiceRowFrom(row, now)) else before
  }

  /** The database after the loop of `importCustomers` in a database that
      may lack the tables; without them no upsert can have run. */
  function ImportedCustomers(d: Database, rows: seq<CustomerSheetRow>, now: string): Database
  {
    match d
    case NoTables => NoTables
    case Ready(t) => Ready(ImportCustomerRows(t, rows, now))
  }

  function ImportedInvoices(d: Database, rows: seq<InvoiceSheetRow>, now: string): Database
  {
    match d
    case NoTables => NoTables
    case Ready(t) => Ready(ImportInvoiceRows(t, rows, now))
  }

  /** One more row of the import loop. */
  lemma ImportedCustomersStep(d: Database, rows: seq<CustomerSheetRow>, i: int, now: string)
    requires 0 <= i < |rows|
    ensures ImportedCustomers(d, rows[..i + 1], now) ==
      if CustomerAccepted(rows[i]) && d.Ready?
      then Ready(UpsertCustomer(ImportedCustomers(d, rows[..i], now).tables, rows[i].id.value, CustomerRowFrom(rows[i], now)))
      else ImportedCustomers(d, rows[..i], now)
  {
    assert rows[..i + 1][..i] == rows[..i] && rows[..i + 1][i] == rows[i];
  }

  lemma ImportedInvoicesStep(d: Database, rows: seq<InvoiceSheetRow>, i: int, now: string)
    requires 0 <= i < |rows|
    ensures ImportedInvoices(d, rows[..i + 1], now) ==
      if InvoiceAccepted(rows[i]) && d.Ready?
      then Ready(UpsertInvoice(ImportedInvoices(d, rows[..i], now).tables, rows[i].id.value, InvoiceRowFrom(rows[i], now)))
      else ImportedInvoices(d, rows[..i], now)
  {
    assert rows[..i + 1][..i] == rows[..i] && rows[..i + 1][i] == rows[i];
  }

  /** An upsert of the sheet fails: every statement fails in a database
      without the tables, and `fault` names the accepted row, if any, whose
      upsert the engine rejects. The model does not compute such engine
      errors; it takes them as given. */
  predicate CustomerImportFails(d: Database, rows: seq<CustomerSheetRow>, fault: Option<nat>)
  {
    exists i :: 0 <= i < |rows| && CustomerAccepted(rows[i]) && (d.NoTables? || fault == Some(i))
  }

  predicate InvoiceImportFails(d: Database, rows: seq<InvoiceSheetRow>, fault: Option<nat>)
  {
    exists i :: 0 <= i < |rows| && InvoiceAccepted(rows[i]) && (d.NoTables? || fault == Some(i))
  }

  lemma AcceptedCustomerIdsStep(rows: seq<CustomerSheetRow>)
    requires rows != []
    ensures var last := rows[|rows| - 1];
      AcceptedCustomerIds(rows)
        == AcceptedCustomerIds(rows[..|rows| - 1]) + (if CustomerAccepted(last) then {last.id.value} else {})
  {
    var p := rows[..|rows| - 1];
    assert forall i :: 0 <= i < |p| ==> p[i] == rows[i];
  }

  lemma AcceptedInvoiceIdsStep(rows: seq<InvoiceSheetRow>)
    requires rows != []
    ensures var last := rows[|rows| - 1];
      AcceptedInvoiceIds(rows)
        == AcceptedInvoiceIds(rows[..|rows| - 1]) + (if InvoiceAccepted(last) then {last.id.value} else {})
  {
    var p := rows[..|rows| - 1];
    assert forall i :: 0 <= i < |p| ==> p[i] == rows[i];
  }

  /** Importing adds exactly the accepted ids to the table. */
  lemma {:induction false} ImportCustomerRowsKeys(t: Tables, rows: seq<CustomerSheetRow>, now: string)
    ensures ImportCustomerRows(t, rows, now).customers.Keys == t.customers.Keys + AcceptedCustomerIds(rows)
    decreases |rows|
  {
    if rows != [] {
      ImportCustomerRowsKeys(t, rows[..|rows| - 1], now);
      AcceptedCustomerIdsStep(rows);
    }
  }

  /** Importing keeps every row whose id no accepted row carries. */
  lemma {:induction false} ImportCustomerRowsKeeps(t: Tables, rows: seq<CustomerSheetRow>, now: string)
    ensures var r := ImportCustomerRows(t, rows, now);
      forall k :: k in t.customers && k !in AcceptedCustomerIds(rows) ==> k in r.customers && r.customers[k] == t.customers[k]
    decreases |rows|
  {
    if rows != [] {
      ImportCustomerRowsKeeps(t, rows[..|rows| - 1], now);
      AcceptedCustomerIdsStep(rows);
    }
  }

  /** Importing leaves the other table alone and raises the sequence entry
      to cover every imported id, so ids handed out later stay fresh. */
  lemma {:induction false} ImportCustomerRowsFrame(t: Tables, rows: seq<CustomerSheetRow>, now: string)
    ensures var r := ImportCustomerRows(t, rows, now);
      && r.invoices == t.invoices && r.invoiceSeq == t.invoiceSeq
      && r.customerSeq >= t.customerSeq
      && (forall k :: k in AcceptedCustomerIds(rows) ==> k <= r.customerSeq)
      && (Counted(t) ==> Counted(r))
    decreases |rows|
  {
    if rows != [] {
      ImportCustomerRowsFrame(t, rows[..|rows| - 1], now);
      AcceptedCustomerIdsStep(rows);
    }
  }

  /** Of several accepted rows with the same id, the last one is what the
      table ends up holding. */
  lemma {:induction false} ImportCustomerRowsLastWins(t: Tables, rows: seq<CustomerSheetRow>, now: string, i: int)
    requires 0 <= i < |rows| && CustomerAccepted(rows[i]) && LastCustomerWithId(rows, i)
    ensures var r := ImportCustomerRows(t, rows, now);
      rows[i].id.value in r.customers && r.customers[rows[i].id.value] == CustomerRowFrom(rows[i], now)
    decreases |rows|
  {
    var p := rows[..|rows| - 1];
    if i < |rows| - 1 {
      assert p[i] == rows[i];
      assert LastCustomerWithId(p, i) by {
        assert forall j :: i < j < |p| ==> p[j] == rows[j];
      }
      ImportCustomerRowsLastWins(t, p, now, i);
    }
  }

  /** Importing adds exactly the accepted ids to the table. */
  lemma {:induction false} ImportInvoiceRowsKeys(t: Tables, rows: seq<InvoiceSheetRow>, now: string)
    ensures ImportInvoiceRows(t, rows, now).invoices.Keys == t.invoices.Keys + AcceptedInvoiceIds(rows)
    decreases |rows|
  {
    if rows != [] {
      ImportInvoiceRowsKeys(t, rows[..|rows| - 1], now);
      AcceptedInvoiceIdsStep(rows);
    }
  }

  /** Importing keeps every row whose id no accepted row carries. */
  lemma {:induction false} ImportInvoiceRowsKeeps(t: Tables, rows: seq<InvoiceSheetRow>, now: string)
    ensures var r := ImportInvoiceRows(t, rows, now);
      forall k :: k in t.invoices && k !in AcceptedInvoiceIds(rows) ==> k in r.invoices && r.invoices[k] == t.invoices[k]
    decreases |rows|
  {
    if rows != [] {
      ImportInvoiceRowsKeeps(t, rows[..|rows| - 1], now);
      AcceptedInvoiceIdsStep(rows);
    }
  }

  /** Importing leaves the other table alone and raises the sequence entry
      to cover every imported id, so ids handed out later stay fresh. */
  lemma {:induction false} ImportInvoiceRowsFrame(t: Tables, rows: seq<InvoiceSheetRow>, now: string)
    ensures var r := ImportInvoiceRows(t, rows, now);
      && r.customers == t.customers && r.customerSeq == t.customerSeq
      && r.invoiceSeq >= t.invoiceSeq
      && (forall k :: k in AcceptedInvoiceIds(rows) ==> k <= r.invoiceSeq)
      && (Counted(t) ==> Counted(r))
    decreases |rows|
  {
    if rows != [] {
      ImportInvoiceRowsFrame(t, rows[..|rows| - 1], now);
      AcceptedInvoiceIdsStep(rows);
    }
  }

  lemma {:induction false} ImportInvoiceRowsLastWins(t: Tables, rows: seq<InvoiceSheetRow>, now: string, i: int)
    requires 0 <= i < |rows| && InvoiceAccepted(rows[i]) && LastInvoiceWithId(rows, i)
    ensures var r := ImportInvoiceRows(t, rows, now);
      rows[i].id.value in r.invoices && r.invoices[rows[i].id.value] == InvoiceRowFrom(rows[i], now)
    decreases |rows|
  {
    var p := rows[..|rows| - 1];
    if i < |rows| - 1 {
      assert p[i] == rows[i];
      assert LastInvoiceWithId(p, i) by {
        assert forall j :: i < j < |p| ==> p[j] == rows[j];
      }
      ImportInvoiceRowsLastWins(t, p, now, i);
    }
  }

  /** Every accepted row of the sheet carries its own date, so no clock
      read decides a stored value. */
  predicate CustomerRowsDated(rows: seq<CustomerSheetRow>)
  {
    forall i :: 0 <= i < |rows| && CustomerAccepted(rows[i]) ==> TextTruthy(rows[i].date)
  }

  /** Importing the same sheet again, at a later time `now2`, keeps the ids,
      names and phones the first import (at `now1`) left. A customer no
      accepted row names, or whose last accepted row carries a date, is
      unchanged; one whose last accepted row has no date gets the time of
      the second import. A sheet whose accepted rows all carry a date
      imports to the same customers both times. */
  lemma ImportCustomerRowsTwice(t: Tables, rows: seq<CustomerSheetRow>, now1: string, now2: string)
    ensures var once := ImportCustomerRows(t, rows, now1);
      var twice := ImportCustomerRows(once, rows, now2);
      && twice.customers.Keys == once.customers.Keys
      && (forall k :: k in once.customers ==>
            && twice.customers[k].name == once.customers[k].name
            && twice.customers[k].phone == once.customers[k].phone
            && (twice.customers[k].date == once.customers[k].date || twice.customers[k].date == now2))
      && (forall k :: k in once.customers && k !in AcceptedCustomerIds(rows) ==> twice.customers[k] == once.customers[k])
      && (forall i :: 0 <= i < |rows| && CustomerAccepted(rows[i]) && LastCustomerWithId(rows, i) ==>
            var k := rows[i].id.value;
            && k in once.customers
            && (TextTruthy(rows[i].date) ==> twice.customers[k] == once.customers[k])
            && (!TextTruthy(rows[i].date) ==> twice.customers[k].date == now2))
      && (CustomerRowsDated(rows) ==> twice.customers == once.customers)
  {
    var once := ImportCustomerRows(t, rows, now1);
    var twice := ImportCustomerRows(once, rows, now2);
    ImportCustomerRowsKeys(t, rows, now1);
    ImportCustomerRowsKeys(once, rows, now2);
    ImportCustomerRowsKeeps(once, rows, now2);
    forall i | 0 <= i < |rows| && CustomerAccepted(rows[i]) && LastCustomerWithId(rows, i)
      ensures rows[i].id.value in once.customers
      ensures TextTruthy(rows[i].date) ==> twice.customers[rows[i].id.value] == once.customers[rows[i].id.value]
      ensures !TextTruthy(rows[i].date) ==> twice.customers[rows[i].id.value].date == now2
    {
      ImportCustomerRowsLastWins(t, rows, now1, i);
      ImportCustomerRowsLastWins(once, rows, now2, i);
    }
    forall k | k in once.customers
      ensures twice.customers[k].name == once.customers[k].name
      ensures twice.customers[k].phone == once.customers[k].phone
      ensures twice.customers[k].date == once.customers[k].date || twice.customers[k].date == now2
      ensures CustomerRowsDated(rows) ==> twice.customers[k] == once.customers[k]
    {
      if k in AcceptedCustomerIds(rows) {
        var i := LastAcceptedCustomer(rows, k);
        ImportCustomerRowsLastWins(t, rows, now1, i);
        ImportCustomerRowsLastWins(once, rows, now2, i);
      }
    }
  }

  /** The position of the last accepted row carrying `id`. */
  lemma LastAcceptedCustomer(rows: seq<CustomerSheetRow>, id: int) returns (i: int)
    requires id in AcceptedCustomerIds(rows)
    ensures 0 <= i < |rows| && CustomerAccepted(rows[i]) && rows[i].id.value == id
    ensures LastCustomerWithId(rows, i)
  {
    i :| 0 <= i < |rows| && CustomerAccepted(rows[i]) && rows[i].id.value == id;
    while exists j :: i < j < |rows| && CustomerAccepted(rows[j]) && rows[j].id.value == id
      invariant 0 <= i < |rows| && CustomerAccepted(rows[i]) && rows[i].id.value == id
      decreases |rows| - i
    {
      var j :| i < j < |rows| && CustomerAccepted(rows[j]) && rows[j].id.value == id;
      i := j;
    }
  }

  // ---------------------------------------------------------------------
  // Export, and importing what was exported
  // ---------------------------------------------------------------------

  function CustomerSheetRowOf(c: Customer): CustomerSheetRow
  {
    CustomerSheetRow(Some(c.id), Some(c.date), Some(c.name), Some(c.phone))
  }

  function InvoiceSheetRowOf(i: Invoice): InvoiceSheetRow
  {
    InvoiceSheetRow(Some(i.id), Some(i.date), Some(i.number), Some(i.customerId))
  }

  /** The "Customers" sheet `exportToExcel` writes from
      `getAllCustomersForExport`, as it reads back: one row per customer,
      every cell present. */
  function ExportCustomers(t: Tables): (rows: seq<CustomerSheetRow>)
    ensures |rows| == |t.customers|
  {
    CustomerSheet(AllCustomers(t.customers))
  }

  /** `json_to_sheet` of a list of customers, as `sheet_to_json` reads it
      back: one row per record, in order. */
  function CustomerSheet(cs: seq<Customer>): (rows: seq<CustomerSheetRow>)
    ensures |rows| == |cs| && forall i :: 0 <= i < |cs| ==> rows[i] == CustomerSheetRowOf(cs[i])
  {
    seq(|cs|, i requires 0 <= i < |cs| => CustomerSheetRowOf(cs[i]))
  }

  /** The "Invoices" sheet, from `getAllInvoicesForExport`. */
  function ExportInvoices(t: Tables): (rows: seq<InvoiceSheetRow>)
    ensures |rows| == |t.invoices|
  {
    InvoiceSheet(AllInvoices(t.invoices))
  }

  /** `json_to_sheet` of a list of invoices, as it reads back. */
  function InvoiceSheet(invs: seq<Invoice>): (rows: seq<InvoiceSheetRow>)
    ensures |rows| == |invs| && forall i :: 0 <= i < |invs| ==> rows[i] == InvoiceSheetRowOf(invs[i])
  {
    seq(|invs|, i requires 0 <= i < |invs| => InvoiceSheetRowOf(invs[i]))
  }

  /** Rows import takes back unchanged: a non-zero id, a name and a date
      for customers; a non-zero id and customer id and a date for invoices.
      A row without them is skipped or gets a new date on import. */
  predicate Reimportable(t: Tables)
  {
    && (forall k :: k in t.customers ==> k != 0 && t.customers[k].name != "" && t.customers[k].date != "")
    && (forall k :: k in t.invoices ==> k != 0 && t.invoices[k].customerId != 0 && t.invoices[k].date != "")
  }

  /** Each exported customer row is accepted, carries the customer's id,
      and imports as the stored row; no later row carries the same id. */
  lemma ExportedCustomerRow(t: Tables, now: string, i: int)
    requires Reimportable(t) && 0 <= i < |ExportCustomers(t)|
    ensures var rows := ExportCustomers(t); var c := AllCustomers(t.customers)[i];
      && CustomerAccepted(rows[i]) && rows[i].id.value == c.id && c.id in t.customers
      && CustomerRowFrom(rows[i], now) == t.customers[c.id]
      && LastCustomerWithId(rows, i)
  {
    var rows := ExportCustomers(t);
    var cs := AllCustomers(t.customers);
    AllCustomersStored(t.customers);
    AllCustomersAscending(t.customers);
    assert CustomerStored(t.customers, cs[i]);
    forall j | i < j < |rows| && CustomerAccepted(rows[j])
      ensures rows[j].id.value != rows[i].id.value
    {
      assert rows[j].id.value == cs[j].id;
    }
  }

  lemma ExportedCustomerIds(t: Tables, now: string)
    requires Reimportable(t)
    ensures AcceptedCustomerIds(ExportCustomers(t)) == t.customers.Keys
  {
    var rows := ExportCustomers(t);
    var cs := AllCustomers(t.customers);
    AllCustomersStored(t.customers);
    AllCustomersComplete(t.customers);
    forall k | k in AcceptedCustomerIds(rows)
      ensures k in t.customers
    {
      var i :| 0 <= i < |rows| && CustomerAccepted(rows[i]) && rows[i].id.value == k;
      assert rows[i] == CustomerSheetRowOf(cs[i]);
      assert CustomerStored(t.customers, cs[i]);
    }
    forall k | k in t.customers
      ensures k in AcceptedCustomerIds(rows)
    {
      var i :| 0 <= i < |cs| && cs[i] == CustomerOf(k, t.customers[k]);
      assert rows[i] == CustomerSheetRowOf(cs[i]);
      assert CustomerAccepted(rows[i]);
    }
  }

  lemma ExportedCustomersImport(t: Tables, t0: Tables, now: string)
    requires Reimportable(t) && t0.customers == map[]
    ensures ImportCustomerRows(t0, ExportCustomers(t), now).customers == t.customers
  {
    var rows := ExportCustomers(t);
    var r := ImportCustomerRows(t0, rows, now);
    ImportCustomerRowsKeys(t0, rows, now);
    ExportedCustomerIds(t, now);
    assert r.customers.Keys == t0.customers.Keys + AcceptedCustomerIds(rows);
    assert r.customers.Keys == t.customers.Keys;
    forall k | k in t.customers
      ensures r.customers[k] == t.customers[k]
    {
      ExportedCustomerImported(t, t0, now, k);
    }
    SameMaps(r.customers, t.customers);
  }

  lemma ExportedCustomerImported(t: Tables, t0: Tables, now: string, k: int)
    requires Reimportable(t) && k in t.customers
    ensures var r := ImportCustomerRows(t0, ExportCustomers(t), now);
      k in r.customers && r.customers[k] == t.customers[k]
  {
    var cs := AllCustomers(t.customers);
    AllCustomersComplete(t.customers);
    var i :| 0 <= i < |cs| && cs[i] == CustomerOf(k, t.customers[k]);
    ExportedCustomerRow(t, now, i);
    ImportCustomerRowsLastWins(t0, ExportCustomers(t), now, i);
  }

  lemma ExportedInvoiceRow(t: Tables, now: string, i: int)
    requires Reimportable(t) && 0 <= i < |ExportInvoices(t)|
    ensures var rows := ExportInvoices(t); var v := AllInvoices(t.invoices)[i];
      && InvoiceAccepted(rows[i]) && rows[i].id.value == v.id && v.id in t.invoices
      && InvoiceRowFrom(rows[i], now) == t.invoices[v.id]
      && LastInvoiceWithId(rows, i)
  {
    var rows := ExportInvoices(t);
    var invs := AllInvoices(t.invoices);
    AllInvoicesStored(t.invoices);
    AllInvoicesAscending(t.invoices);
    assert InvoiceStored(t.invoices, invs[i]);
    forall j | i < j < |rows| && InvoiceAccepted(rows[j])
      ensures rows[j].id.value != rows[i].id.value
    {
      assert rows[j].id.value == invs[j].id;
    }
  }

  lemma ExportedInvoiceIds(t: Tables, now: string)
    requires Reimportable(t)
    ensures AcceptedInvoiceIds(ExportInvoices(t)) == t.invoices.Keys
  {
    var rows := ExportInvoices(t);
    var invs := AllInvoices(t.invoices);
    AllInvoicesStored(t.invoices);
    AllInvoicesComplete(t.invoices);
    forall k | k in AcceptedInvoiceIds(rows)
      ensures k in t.invoices
    {
      var i :| 0 <= i < |rows| && InvoiceAccepted(rows[i]) && rows[i].id.value == k;
      assert rows[i] == InvoiceSheetRowOf(invs[i]);
      assert InvoiceStored(t.invoices, invs[i]);
    }
    forall k | k in t.invoices
      ensures k in AcceptedInvoiceIds(rows)
    {
      var i :| 0 <= i < |invs| && invs[i] == InvoiceOf(k, t.invoices[k]);
      assert rows[i] == InvoiceSheetRowOf(invs[i]);
      assert InvoiceAccepted(rows[i]);
    }
  }

  lemma ExportedInvoicesImport(t: Tables, t0: Tables, now: string)
    requires Reimportable(t) && t0.invoices == map[]
    ensures ImportInvoiceRows(t0, ExportInvoices(t), now).invoices == t.invoices
  {
    var rows := ExportInvoices(t);
    var r := ImportInvoiceRows(t0, rows, now);
    ImportInvoiceRowsKeys(t0, rows, now);
    ExportedInvoiceIds(t, now);
    assert r.invoices.Keys == t0.invoices.Keys + AcceptedInvoiceIds(rows);
    assert r.invoices.Keys == t.invoices.Keys;
    forall k | k in t.invoices
      ensures r.invoices[k] == t.invoices[k]
    {
      ExportedInvoiceImported(t, t0, now, k);
    }
    SameMaps(r.invoices, t.invoices);
  }

  lemma ExportedInvoiceImported(t: Tables, t0: Tables, now: string, k: int)
    requires Reimportable(t) && k in t.invoices
    ensures var r := ImportInvoiceRows(t0, ExportInvoices(t), now);
      k in r.invoices && r.invoices[k] == t.invoices[k]
  {
    var invs := AllInvoices(t.invoices);
    AllInvoicesComplete(t.invoices);
    var i :| 0 <= i < |invs| && invs[i] == InvoiceOf(k, t.invoices[k]);
    ExportedInvoiceRow(t, now, i);
    ImportInvoiceRowsLastWins(t0, ExportInvoices(t), now, i);
  }

  /** Export followed by import into an empty store reproduces every
      customer and every invoice, by id and by value, provided no row is one
      the import skips or re-dates. */
  lemma ExportImportRoundTrip(t: Tables, t0: Tables, now: string)
    requires Reimportable(t) && t0.customers == map[] && t0.invoices == map[]
    ensures var afterCustomers := ImportCustomerRows(t0, ExportCustomers(t), now);
      var r := ImportInvoiceRows(afterCustomers, ExportInvoices(t), now);
      r.customers == t.customers && r.invoices == t.invoices
  {
    var afterCustomers := ImportCustomerRows(t0, ExportCustomers(t), now);
    ExportedCustomersImport(t, t0, now);
    ImportCustomerRowsFrame(t0, ExportCustomers(t), now);
    ImportInvoiceRowsFrame(afterCustomers, ExportInvoices(t), now);
    ExportedInvoicesImport(t, afterCustomers, now);
  }

  /** Without the proviso the round trip fails: a customer whose name is
      empty, which `addCustomer` stores without complaint, is skipped when
      its exported row is imported. */
  lemma EmptyNameIsNotReimported(now: string)
    ensures var t := EmptyTables().(customers := map[1 := CustomerRow("2024-01-01", "", "")]);
      ImportCustomerRows(EmptyTables(), ExportCustomers(t), now).customers == map[]
  {
    var t := EmptyTables().(customers := map[1 := CustomerRow("2024-01-01", "", "")]);
    var rows := ExportCustomers(t);
    AllCustomersCorrect(t.customers);
    assert |rows| == 1;
    assert !CustomerAccepted(rows[0]);
    assert rows[..0] == [];
  }
}
