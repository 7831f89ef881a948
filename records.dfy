/** The two tables of the store and the effect of each SQL statement the
    store issues against them (app/utils/sqliteManager.ts). The statements
    are few and fixed; each is modelled by what it does to the tables, not
    by SQL in general. */
module Records {

  /** A customer as the application passes it in and gets it back. */
  datatype Customer = Customer(id: int, date: string, name: string, phone: string)

  /** An invoice as the application passes it in and gets it back. */
  datatype Invoice = Invoice(id: int, date: string, number: string, customerId: int)

  /** The stored columns of a customer. Its id is the key the table is
      stored under: an INTEGER PRIMARY KEY column is SQLite's rowid. */
  datatype CustomerRow = CustomerRow(date: string, name: string, phone: string)

  /** The stored columns of an invoice. */
  datatype InvoiceRow = InvoiceRow(date: string, number: string, customerId: int)

  /** Both tables, with the sqlite_sequence entry AUTOINCREMENT keeps for
      each: the largest id the table has ever held. Deleting rows leaves it
      alone. */
  datatype Tables = Tables(
    customers: map<int, CustomerRow>,
    invoices: map<int, InvoiceRow>,
    customerSeq: nat,
    invoiceSeq: nat)

  /** A database the engine holds. `NoTables` is one in which `customers`
      and `invoices` do not exist (a brand-new database, or one loaded from
      an image without them); every statement on those tables fails in it. */
  datatype Database = NoTables | Ready(tables: Tables)

  function CustomerOf(id: int, row: CustomerRow): Customer
  {
    Customer(id, row.date, row.name, row.phone)
  }

  function InvoiceOf(id: int, row: InvoiceRow): Invoice
  {
    Invoice(id, row.date, row.number, row.customerId)
  }

  function CustomerRowOf(c: Customer): CustomerRow
  {
    CustomerRow(c.date, c.name, c.phone)
  }

  function InvoiceRowOf(i: Invoice): InvoiceRow
  {
    InvoiceRow(i.date, i.number, i.customerId)
  }

  /** `c` is exactly what the table holds under `c.id`. */
  predicate CustomerStored(m: map<int, CustomerRow>, c: Customer)
  {
    c.id in m && m[c.id] == CustomerRowOf(c)
  }

  predicate InvoiceStored(m: map<int, InvoiceRow>, i: Invoice)
  {
    i.id in m && m[i.id] == InvoiceRowOf(i)
  }

  /** Two maps with the same keys and the same value under each key are
      the same map. */
  lemma SameMaps<V>(a: map<int, V>, b: map<int, V>)
    requires a.Keys == b.Keys && forall k :: k in a ==> a[k] == b[k]
    ensures a == b
  {
    assert forall k :: k in b ==> k in b.Keys && k in a.Keys && k in a;
    assert forall k :: k in a ==> k in a.Keys && k in b.Keys && k in b && a[k] == b[k];
  }

  /** Every id in each table is covered by that table's sequence entry.
      Every statement keeps this; a fresh database has it. */
  predicate Counted(t: Tables)
  {
    && (forall k :: k in t.customers ==> k <= t.customerSeq)
    && (forall k :: k in t.invoices ==> k <= t.invoiceSeq)
  }

  // ---------------------------------------------------------------------
  // Keys
  // ---------------------------------------------------------------------

  /** A set other than the empty one has an element. */
  lemma Inhabited<T>(s: set<T>) returns (x: T)
    requires s != {}
    ensures x in s
  {
    x :| x in s;
  }

  lemma {:induction false} ExtremesExist(s: set<int>)
    requires s != {}
    ensures exists m :: m in s && forall k :: k in s ==> m <= k
    ensures exists m :: m in s && forall k :: k in s ==> k <= m
    decreases |s|
  {
    var x := Inhabited(s);
    if s != {x} {
      ExtremesExist(s - {x});
      var lo :| lo in s - {x} && forall k :: k in s - {x} ==> lo <= k;
      var hi :| hi in s - {x} && forall k :: k in s - {x} ==> k <= hi;
      var lo' := if x < lo then x else lo;
      var hi' := if x > hi then x else hi;
      assert forall k :: k in s ==> k == x || k in s - {x};
      assert lo' in s && forall k :: k in s ==> lo' <= k;
      assert hi' in s && forall k :: k in s ==> k <= hi';
    } else {
      assert forall k :: k in s ==> k == x;
    }
  }

  function MinKey(s: set<int>): (m: int)
    requires s != {}
    ensures m in s && forall k :: k in s ==> m <= k
  {
    ExtremesExist(s);
    var m :| m in s && forall k :: k in s ==> m <= k;
    m
  }

  function MaxKey(s: set<int>): (m: int)
    requires s != {}
    ensures m in s && forall k :: k in s ==> k <= m
  {
    ExtremesExist(s);
    var m :| m in s && forall k :: k in s ==> k <= m;
    m
  }

  /** The rowid AUTOINCREMENT picks for a row inserted without one: one more
      than both the sequence entry and the largest id in the table, and the
      least such value. */
  function NextId(keys: set<int>, counter: nat): (id: int)
    ensures id >= 1 && id > counter
    ensures forall k :: k in keys ==> k < id
    ensures id - 1 == counter || id - 1 in keys
  {
    if keys == {} then counter + 1
    else
      var top := MaxKey(keys);
      (if top > counter then top else counter) + 1
  }

  // ---------------------------------------------------------------------
  // Schema
  // ---------------------------------------------------------------------

  function EmptyTables(): (t: Tables)
    ensures t.customers == map[] && t.invoices == map[] && Counted(t)
  {
    Tables(map[], map[], 0, 0)
  }

  /** The two `CREATE TABLE IF NOT EXISTS` statements of `createTables`:
      they create empty tables in a database that lacks them and leave a
      database that has them as it is. */
  function CreateSchema(d: Database): (r: Database)
    ensures r.Ready?
    ensures d.Ready? ==> r == d
    ensures d.NoTables? ==> r.tables.customers == map[] && r.tables.invoices == map[] && Counted(r.tables)
  {
    if d.Ready? then d else Ready(EmptyTables())
  }

  // ---------------------------------------------------------------------
  // Customer statements
  // ---------------------------------------------------------------------

  datatype Inserted = Inserted(tables: Tables, id: int)

  /** `INSERT INTO customers (date, name, phone) VALUES (?, ?, ?)` followed
      by `last_insert_rowid()`: exactly one row is added, under an id larger
      than every id the table holds or has held, and nothing else changes. */
  function InsertCustomer(t: Tables, row: CustomerRow): (r: Inserted)
    ensures r.id >= 1 && r.id > t.customerSeq && forall k :: k in t.customers ==> k < r.id
    ensures r.tables.customers.Keys == t.customers.Keys + {r.id}
    ensures r.tables.customers[r.id] == row
    ensures forall k :: k in t.customers ==> r.tables.customers[k] == t.customers[k]
    ensures r.tables.invoices == t.invoices && r.tables.invoiceSeq == t.invoiceSeq
    ensures r.tables.customerSeq == r.id
    ensures Counted(t) ==> Counted(r.tables)
  {
    var id := NextId(t.customers.Keys, t.customerSeq);
    Inserted(t.(customers := t.customers[id := row], customerSeq := id), id)
  }

  /** `UPDATE customers SET date = ?, name = ?, phone = ? WHERE id = ?`:
      every column but the id of the matching row is replaced; with no
      matching row, nothing changes at all. */
  function UpdateCustomer(t: Tables, c: Customer): (r: Tables)
    ensures r.customers.Keys == t.customers.Keys
    ensures c.id in t.customers ==> r.customers[c.id] == CustomerRowOf(c)
    ensures forall k :: k in t.customers && k != c.id ==> r.customers[k] == t.customers[k]
    ensures c.id !in t.customers ==> r == t
    ensures r.invoices == t.invoices && r.customerSeq == t.customerSeq && r.invoiceSeq == t.invoiceSeq
    ensures Counted(t) ==> Counted(r)
  {
    if c.id in t.customers then t.(customers := t.customers[c.id := CustomerRowOf(c)]) else t
  }

  /** `DELETE FROM customers WHERE id = ?`. */
  function DeleteCustomerRow(t: Tables, id: int): (r: Tables)
    ensures r.customers.Keys == t.customers.Keys - {id}
    ensures forall k :: k in r.customers ==> r.customers[k] == t.customers[k]
    ensures r.invoices == t.invoices && r.customerSeq == t.customerSeq && r.invoiceSeq == t.invoiceSeq
    ensures Counted(t) ==> Counted(r)
  {
    t.(customers := t.customers - {id})
  }

  /** `INSERT OR REPLACE INTO customers (id, date, name, phone)`: the row
      under `id` becomes `row` whether or not one was there, no other row
      changes, and the sequence entry rises to `id` if `id` is larger. Other
      tables are untouched: the declared foreign key is not enforced, so
      replacing a customer leaves its invoices in place. */
  function UpsertCustomer(t: Tables, id: int, row: CustomerRow): (r: Tables)
    ensures r.customers.Keys == t.customers.Keys + {id} && r.customers[id] == row
    ensures forall k :: k in t.customers && k != id ==> r.customers[k] == t.customers[k]
    ensures r.customerSeq >= t.customerSeq && r.customerSeq >= id
    ensures r.customerSeq == t.customerSeq || r.customerSeq == id
    ensures r.invoices == t.invoices && r.invoiceSeq == t.invoiceSeq
    ensures Counted(t) ==> Counted(r)
  {
    t.(customers := t.customers[id := row], customerSeq := if id > t.customerSeq then id else t.customerSeq)
  }

  // ---------------------------------------------------------------------
  // Invoice statements
  // ---------------------------------------------------------------------

  /** `INSERT INTO invoices (date, number, customerId) VALUES (?, ?, ?)`
      followed by `last_insert_rowid()`. The customer id is not checked
      against the customers table. */
  function InsertInvoice(t: Tables, row: InvoiceRow): (r: Inserted)
    ensures r.id >= 1 && r.id > t.invoiceSeq && forall k :: k in t.invoices ==> k < r.id
    ensures r.tables.invoices.Keys == t.invoices.Keys + {r.id}
    ensures r.tables.invoices[r.id] == row
    ensures forall k :: k in t.invoices ==> r.tables.invoices[k] == t.invoices[k]
    ensures r.tables.customers == t.customers && r.tables.customerSeq == t.customerSeq
    ensures r.tables.invoiceSeq == r.id
    ensures Counted(t) ==> Counted(r.tables)
  {
    var id := NextId(t.invoices.Keys, t.invoiceSeq);
    Inserted(t.(invoices := t.invoices[id := row], invoiceSeq := id), id)
  }

  /** `UPDATE invoices SET date = ?, number = ?, customerId = ? WHERE id = ?`. */
  function UpdateInvoice(t: Tables, i: Invoice): (r: Tables)
    ensures r.invoices.Keys == t.invoices.Keys
    ensures i.id in t.invoices ==> r.invoices[i.id] == InvoiceRowOf(i)
    ensures forall k :: k in t.invoices && k != i.id ==> r.invoices[k] == t.invoices[k]
    ensures i.id !in t.invoices ==> r == t
    ensures r.customers == t.customers && r.customerSeq == t.customerSeq && r.invoiceSeq == t.invoiceSeq
    ensures Counted(t) ==> Counted(r)
  {
    if i.id in t.invoices then t.(invoices := t.invoices[i.id := InvoiceRowOf(i)]) else t
  }

  /** `DELETE FROM invoices WHERE id = ?`. */
  function DeleteInvoiceRow(t: Tables, id: int): (r: Tables)
    ensures r.invoices.Keys == t.invoices.Keys - {id}
    ensures forall k :: k in r.invoices ==> r.invoices[k] == t.invoices[k]
    ensures r.customers == t.customers && r.customerSeq == t.customerSeq && r.invoiceSeq == t.invoiceSeq
    ensures Counted(t) ==> Counted(r)
  {
    t.(invoices := t.invoices - {id})
  }

  /** `DELETE FROM invoices WHERE customerId = ?`: exactly the invoices of
      that customer go (possibly none), and the others stay as they were. */
  function DeleteInvoicesOf(t: Tables, customerId: int): (r: Tables)
    ensures forall k :: k in t.invoices ==> (k in r.invoices <==> t.invoices[k].customerId != customerId)
    ensures forall k :: k in r.invoices ==> k in t.invoices && r.invoices[k] == t.invoices[k]
    ensures r.customers == t.customers && r.customerSeq == t.customerSeq && r.invoiceSeq == t.invoiceSeq
    ensures Counted(t) ==> Counted(r)
  {
    t.(invoices := map k | k in t.invoices && t.invoices[k].customerId != customerId :: t.invoices[k])
  }

  /** `INSERT OR REPLACE INTO invoices (id, date, number, customerId)`. */
  function UpsertInvoice(t: Tables, id: int, row: InvoiceRow): (r: Tables)
    ensures r.invoices.Keys == t.invoices.Keys + {id} && r.invoices[id] == row
    ensures forall k :: k in t.invoices && k != id ==> r.invoices[k] == t.invoices[k]
    ensures r.invoiceSeq >= t.invoiceSeq && r.invoiceSeq >= id
    ensures r.invoiceSeq == t.invoiceSeq || r.invoiceSeq == id
    ensures r.customers == t.customers && r.customerSeq == t.customerSeq
    ensures Counted(t) ==> Counted(r)
  {
    t.(invoices := t.invoices[id := row], invoiceSeq := if id > t.invoiceSeq then id else t.invoiceSeq)
  }

  // ---------------------------------------------------------------------
  // Both tables
  // ---------------------------------------------------------------------

  /** `DELETE FROM invoices; DELETE FROM customers`: both tables become
      empty, and AUTOINCREMENT's sequence entries survive. */
  function ClearAll(t: Tables): (r: Tables)
    ensures r.customers == map[] && r.invoices == map[]
    ensures r.customerSeq == t.customerSeq && r.invoiceSeq == t.invoiceSeq
    ensures Counted(r)
  {
    t.(customers := map[], invoices := map[])
  }

  /** Ids are never reused: after the tables were emptied, the next customer
      and the next invoice get ids above every id the tables held before. */
  lemma IdsNotReusedAfterClear(t: Tables, c: CustomerRow, i: InvoiceRow)
    requires Counted(t)
    ensures forall k :: k in t.customers ==> k < InsertCustomer(ClearAll(t), c).id
    ensures forall k :: k in t.invoices ==> k < InsertInvoice(ClearAll(t), i).id
  {
  }

  /** Deleting a customer's invoices and then the customer leaves neither
      behind, and every other row exactly as it was. */
  lemma DeleteCascades(t: Tables, id: int)
    ensures var r := DeleteCustomerRow(DeleteInvoicesOf(t, id), id);
      && id !in r.customers
      && (forall k :: k in r.invoices ==> r.invoices[k].customerId != id)
      && (forall k :: k in t.customers && k != id ==> k in r.customers && r.customers[k] == t.customers[k])
      && (forall k :: k in t.invoices && t.invoices[k].customerId != id ==>
            k in r.invoices && r.invoices[k] == t.invoices[k])
  {
  }
}
