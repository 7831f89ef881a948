# tinyCMS record store, modelled in Dafny

tinyCMS keeps its records in an in-browser SQLite database (sql.js) run by
the class `SQLiteManager` (app/utils/sqliteManager.ts). It holds two tables,
customers and invoices, and offers:
- add, list, update and delete for both tables, where deleting a customer
  also deletes that customer's invoices;
- a multi-term customer search;
- a spreadsheet export, and a transactional insert-or-replace import that
  skips rows without their identifying fields;
- a snapshot of the database image, saved in localStorage as a base64
  `data:` URL after every change and restored on the next start;
- a list of change callbacks, called after every save.

The project models that class and proves what its operations do:

- `Wrappers` holds `Option` and `Result`.
- `Text` models the string functions the queries rely on:
  - SQLite's TEXT ordering (byte-wise lexicographic);
  - `trim` and `split(/\s+/)`;
  - ASCII `toLowerCase`;
  - `LIKE` patterns;
  - the decimal form of a row id.
- `Base64` models the snapshot:
  - `btoa`, and `atob` as the forgiving decoder of the WHATWG HTML standard;
  - the `data:application/octet-stream;base64,` text `saveDB` writes;
  - `split(",")[1]`, and the `charCodeAt` byte loop of `initDB`.
- `Records` models the rows and the two tables as maps from rowid to row:
  - each table's AUTOINCREMENT counter (`sqlite_sequence`);
  - the effect of each SQL statement the class issues: INSERT, UPDATE,
    DELETE and INSERT OR REPLACE.
- `Listing` models `ORDER BY date DESC LIMIT 50` and `ORDER BY date DESC,
  number DESC`, and the rowid-order listing used for export. A stable
  insertion sort stands in for the engine's sort.
- `Search` models the term splitting and the AND-of-ORs condition of
  `searchCustomers`.
- `Transfer` models the spreadsheet rows:
  - the row-skipping rule and the defaults of the two import loops;
  - the sheets the export produces.
- `Session` holds the state the class keeps between calls, and what each
  call does to it, as values:
  - the open database (`None` before `initDB` and after `closeDB`);
  - the stored snapshot;
  - the log of callback calls.
- `Manager` is the class itself, with the source's fields. Every method
  loops, mutates and returns as the TypeScript does, and is proved to leave
  the state the `Session` functions describe.

The parts of sql.js the model cannot see are parameters:
- `Engine(serialize, load)` stands for `db.export()` and
  `new SQL.Database(image)`;
- the current time `now` stands for `new Date().toISOString()`;
- an optional row index `fault` names the upsert the engine rejects
  during an import.

A database image without the two tables is `NoTables`. In it every
statement on the two tables fails, as SQLite's do; `CREATE TABLE IF NOT
EXISTS`, BEGIN, COMMIT and ROLLBACK still succeed.

## Model

| member | source | states |
|---|---|---|
| Manager.SQLiteManager.constructor | app/utils/sqliteManager.ts:18-23 | a new manager has no open database, no callbacks, and sees the page's stored snapshot |
| Manager.SQLiteManager.NotifyDbChanged | app/utils/sqliteManager.ts:64-66 | every registered callback is called once, in registration order |
| Manager.SQLiteManager.OnDbChanged | app/utils/sqliteManager.ts:69-71 | the callback is appended, duplicates allowed |
| Manager.SQLiteManager.RemoveDbChangedCallback | app/utils/sqliteManager.ts:74-79 | only the first occurrence is removed; an unknown callback leaves the list unchanged |
| Manager.SQLiteManager.SaveDb | app/utils/sqliteManager.ts:41-61 | with a database open, the stored entry becomes the snapshot of its image and every callback runs; with none, nothing changes |
| Manager.SQLiteManager.CreateTables | app/utils/sqliteManager.ts:118-154 | fails without a database; otherwise the missing tables are created, existing ones are kept, and the database is saved |
| Manager.SQLiteManager.InitDb | app/utils/sqliteManager.ts:81-116 | an entry that decodes is loaded byte for byte, even at zero length, without creating tables; otherwise a fresh database gets the tables and is saved |
| Manager.SQLiteManager.CharCodes | app/utils/sqliteManager.ts:93-96 | the array filled by the `charCodeAt` loop holds the low byte of each character of the decoded text |
| Manager.SQLiteManager.EnsureOpen | app/utils/sqliteManager.ts:157 | the database is initialised only when none is open |
| Manager.SQLiteManager.CloseDb | app/utils/sqliteManager.ts:680-686 | an open database is saved, then dropped; with none open nothing happens |
| Manager.SQLiteManager.CopyRows | app/utils/sqliteManager.ts:192-204 | the result-copy loop returns the engine's rows in order |
| Manager.SQLiteManager.AddCustomer | app/utils/sqliteManager.ts:156-177 | exactly one row is added, under a fresh id returned as decimal text, and the database is saved; without tables it fails and changes nothing |
| Manager.SQLiteManager.GetCustomers | app/utils/sqliteManager.ts:179-209 | returns the 50-row latest-first page of the customers and changes nothing beyond opening |
| Manager.SQLiteManager.UpdateCustomer | app/utils/sqliteManager.ts:211-227 | the row with the id gets the new fields and the database is saved; an unknown id changes no row and is no error |
| Manager.SQLiteManager.DeleteCustomer | app/utils/sqliteManager.ts:229-244 | the customer's invoices are deleted and saved, then the customer, with a second save, so the callbacks run twice |
| Manager.SQLiteManager.SearchCustomers | app/utils/sqliteManager.ts:246-286 | a blank query returns exactly `getCustomers`'s result; otherwise the page of the customers matching every term |
| Manager.SQLiteManager.AddInvoice | app/utils/sqliteManager.ts:289-309 | exactly one invoice row is added under a fresh id, whether or not its customer exists, and the database is saved |
| Manager.SQLiteManager.GetInvoices | app/utils/sqliteManager.ts:311-340 | returns every invoice ordered by date, then number, descending |
| Manager.SQLiteManager.GetInvoicesByCustomerId | app/utils/sqliteManager.ts:342-375 | returns the customer's invoices in the same order as `getInvoices` |
| Manager.SQLiteManager.UpdateInvoice | app/utils/sqliteManager.ts:377-393 | the row with the id gets the new fields and the database is saved; an unknown id changes no row |
| Manager.SQLiteManager.DeleteInvoice | app/utils/sqliteManager.ts:395-405 | exactly the row with the id is removed, and the database is saved |
| Manager.SQLiteManager.DeleteInvoicesByCustomerId | app/utils/sqliteManager.ts:407-417 | every invoice of the customer is removed, the others kept; no match is no error |
| Manager.SQLiteManager.GetAllCustomersForExport | app/utils/sqliteManager.ts:508-536 | every customer, in rowid order |
| Manager.SQLiteManager.GetAllInvoicesForExport | app/utils/sqliteManager.ts:538-566 | every invoice, in rowid order |
| Manager.SQLiteManager.ExportToExcel | app/utils/sqliteManager.ts:420-452 | the workbook's two sheets hold one row per customer and per invoice |
| Manager.SQLiteManager.ImportCustomers | app/utils/sqliteManager.ts:569-606 | succeeds exactly when no accepted row's upsert fails; then the upserts are committed and saved, else the database is as it was before BEGIN and nothing is saved |
| Manager.SQLiteManager.UpsertCustomers | app/utils/sqliteManager.ts:574-598 | the transaction loop: all accepted rows upserted in sheet order, or ROLLBACK to the exact prior database |
| Manager.SQLiteManager.ImportInvoices | app/utils/sqliteManager.ts:609-646 | the same for invoices |
| Manager.SQLiteManager.UpsertInvoices | app/utils/sqliteManager.ts:614-638 | the invoice transaction loop, with the same all-or-nothing outcome |
| Manager.SQLiteManager.ImportFromExcel | app/utils/sqliteManager.ts:454-505 | an unreadable file fails with no change; otherwise the state `Session.ExcelImport` gives: the Customers sheet, then the Invoices sheet, each counted by its full length, success exactly when both succeed, and a failed sheet rejects at once, keeping what was committed before it |
| Manager.SQLiteManager.ClearAllData | app/utils/sqliteManager.ts:649-677 | both tables are emptied in one transaction and saved; without tables it rolls back and fails |
| Session.IndexOf | app/utils/sqliteManager.ts:75 | the first position holding the callback, or -1 exactly when it is absent |
| Session.RemoveFirst | app/utils/sqliteManager.ts:74-79 | an absent callback leaves the list; otherwise the list is one shorter and its multiset loses one copy (which copy: `Session.RemoveFirstCutsFirst`) |
| Session.RemoveFirstCutsFirst | app/utils/sqliteManager.ts:75-77 | the first occurrence is the one cut out, and the callbacks before and after it stay in their order |
| Session.RemoveAfterRegister | app/utils/sqliteManager.ts:69-79 | registering a new callback, then removing it, restores the list |
| Session.RemoveKeepsLaterDuplicate | app/utils/sqliteManager.ts:69-79 | removing a callback registered twice keeps the later registration |
| Session.Save | app/utils/sqliteManager.ts:41-61 | the stored snapshot restores exactly the saved image, and the callbacks run once each; with no database it does nothing |
| Session.Init | app/utils/sqliteManager.ts:81-116 | an entry that decodes is loaded as it is; otherwise the fresh empty tables are saved and the callbacks run |
| Session.Open | app/utils/sqliteManager.ts:157 | afterwards a database is always open; an open one is untouched |
| Session.Commit | app/utils/sqliteManager.ts:171 | the new database is open, saved, and the callbacks have run |
| Session.Close | app/utils/sqliteManager.ts:680-686 | no database is left open, and an open one is saved first |
| Session.ReopenAfterClose | app/utils/sqliteManager.ts:41-61 | for an engine that opens every image it exported as the database it was (`Faithful`), after `closeDB` the next operation reopens exactly the database that was closed, without creating tables or saving |
| Session.UnreadableEntryStartsOver | app/utils/sqliteManager.ts:89-108 | a stored entry with no comma cannot be decoded, so the tables are created afresh and saved |
| Session.EmptyImageIsOpened | app/utils/sqliteManager.ts:105-111 | a snapshot of a zero-length image is loaded, not replaced by new tables |
| Session.EmptyImageHasNoTables | app/utils/sqliteManager.ts:105-111 | when the engine opens the zero-length image without tables, opening saves nothing and calls no callback, later calls keep that database instead of starting over, and an import with a row to write fails and leaves the state as it was |
| Session.CustomerImport | app/utils/sqliteManager.ts:569-606 | the import fails exactly when an accepted row's upsert fails, and then leaves the opened state unchanged |
| Session.InvoiceImport | app/utils/sqliteManager.ts:609-646 | the same for invoices |
| Session.CustomerImportUpserts | app/utils/sqliteManager.ts:576-592 | a completed import: the table gains exactly the accepted ids, the last accepted row per id wins, other customers and all invoices are unchanged, and the save runs the callbacks |
| Session.InvoiceImportUpserts | app/utils/sqliteManager.ts:616-632 | the same for invoices, with the customers unchanged |
| Session.ExcelImport | app/utils/sqliteManager.ts:466-491 | the call succeeds exactly when each present sheet's import succeeds, with counts equal to the sheet lengths; no sheets gives (0, 0) and no change; a failed Customers sheet rejects without touching the Invoices sheet; a failed Invoices sheet rejects and keeps the customer import already committed and saved |
| Session.ClearThenReimport | app/utils/sqliteManager.ts:420-505 | export, `clearAllData`, import: every customer and invoice comes back as it was, with counts equal to the table sizes, when every row has its identifying fields and a date |
| Session.SkippedRowsAreCounted | app/utils/sqliteManager.ts:474 | a two-row sheet with one nameless row reports two customers imported while one is stored |
| Records.MinKey | app/utils/sqliteManager.ts:513-514 | the smallest rowid, which a plain SELECT lists first |
| Records.MaxKey | app/utils/sqliteManager.ts:124 | the largest rowid of the table |
| Records.NextId | app/utils/sqliteManager.ts:124 | AUTOINCREMENT's next id is above both the counter and every rowid in use, and is one more than one of them |
| Records.EmptyTables | app/utils/sqliteManager.ts:122-145 | fresh tables are empty and their counters cover their rowids |
| Records.CreateSchema | app/utils/sqliteManager.ts:118-154 | `CREATE TABLE IF NOT EXISTS` leaves existing tables as they are and adds empty ones where none exist |
| Records.InsertCustomer | app/utils/sqliteManager.ts:160-167 | one new row under an id larger than any assigned before, other rows and the invoices unchanged, and the counter set to it |
| Records.UpdateCustomer | app/utils/sqliteManager.ts:215-220 | only the row with the id changes, all its fields replaced; an unknown id leaves both tables unchanged |
| Records.DeleteCustomerRow | app/utils/sqliteManager.ts:237 | only the row with the id is removed; the counter stays |
| Records.UpsertCustomer | app/utils/sqliteManager.ts:581-586 | INSERT OR REPLACE stores the row under the explicit id, keeps the others, and raises the counter to the id when it is larger |
| Records.InsertInvoice | app/utils/sqliteManager.ts:293-300 | one new invoice under a fresh id, customerId unchecked, customers unchanged |
| Records.UpdateInvoice | app/utils/sqliteManager.ts:381-386 | only the invoice with the id changes; an unknown id leaves both tables unchanged |
| Records.DeleteInvoiceRow | app/utils/sqliteManager.ts:399 | only the invoice with the id is removed |
| Records.DeleteInvoicesOf | app/utils/sqliteManager.ts:411 | an invoice is kept exactly when it belongs to another customer, and kept rows are unchanged |
| Records.UpsertInvoice | app/utils/sqliteManager.ts:621-626 | INSERT OR REPLACE of an invoice, raising the invoice counter as needed |
| Records.ClearAll | app/utils/sqliteManager.ts:657-658 | both tables are empty and the counters are kept |
| Records.IdsNotReusedAfterClear | app/utils/sqliteManager.ts:657-658 | after `clearAllData` a new customer or invoice gets an id larger than every id that was deleted |
| Records.DeleteCascades | app/utils/sqliteManager.ts:229-244 | after `deleteCustomer(id)` no customer has the id, no invoice references it, and every other row is unchanged |
| Text.LexLeReflexive | app/utils/sqliteManager.ts:186 | the TEXT order is reflexive |
| Text.LexLeTotal | app/utils/sqliteManager.ts:186 | any two dates are comparable |
| Text.LexLeAntisymmetric | app/utils/sqliteManager.ts:186 | two dates each at most the other are equal |
| Text.LexLeTransitive | app/utils/sqliteManager.ts:186 | the TEXT order is transitive |
| Text.TrimStart | app/utils/sqliteManager.ts:252 | removes exactly the leading white space |
| Text.TrimEnd | app/utils/sqliteManager.ts:252 | removes exactly the trailing white space |
| Text.Trim | app/utils/sqliteManager.ts:248 | the result starts and ends with a non-space, and is empty exactly when the input is all white space |
| Text.TrimInner | app/utils/sqliteManager.ts:248 | trimming the end after the start keeps the start trimmed |
| Text.Word | app/utils/sqliteManager.ts:252 | the longest space-free prefix |
| Text.SplitWs | app/utils/sqliteManager.ts:252 | `split(/\s+/)` yields at least one field |
| Text.SplitWsOfJoined | app/utils/sqliteManager.ts:252 | fields break exactly at runs of white space: non-empty space-free words joined by non-empty white-space separators split back into those words |
| Text.SplitWsOfSeparated | app/utils/sqliteManager.ts:252 | a word, a run of white space and a rest not starting with white space split into the word followed by the rest's fields |
| Text.WordOfPrefix | app/utils/sqliteManager.ts:252 | the first word of a space-free text followed by white space or nothing is that text |
| Text.TrimStartOfSpaces | app/utils/sqliteManager.ts:252 | trimming the start removes a leading run of white space and nothing of what follows it |
| Text.TrimEndOfSpaces | app/utils/sqliteManager.ts:252 | trimming the end removes a trailing run of white space and nothing before it |
| Text.TrimOfPadded | app/utils/sqliteManager.ts:248-252 | `trim()` of joined words with white space around them gives the joined words |
| Text.JoinedEnds | app/utils/sqliteManager.ts:252 | joined words neither start nor end with white space |
| Text.JoinedNoUpper | app/utils/sqliteManager.ts:252 | words without upper-case ASCII letters join into a text without them |
| Text.SplitWsFieldsUnspaced | app/utils/sqliteManager.ts:252 | no field of a split holds white space |
| Text.SplitWsKeepsContent | app/utils/sqliteManager.ts:252 | the fields together hold exactly the non-space characters, in order |
| Text.SplitWsFieldsNonEmpty | app/utils/sqliteManager.ts:252 | a trimmed non-empty string splits into non-empty fields |
| Text.TrimmedTail | app/utils/sqliteManager.ts:252 | after the first word of a trimmed string, the trimmed remainder is a shorter trimmed string |
| Text.LowerAscii | app/utils/sqliteManager.ts:252 | each upper-case ASCII letter becomes its lower-case letter (code plus 32), no upper-case ASCII letter remains, other characters are kept, and white space stays white space |
| Text.LowerAsciiOfLower | app/utils/sqliteManager.ts:252 | text without upper-case ASCII letters is unchanged by lower-casing |
| Text.LowerAsciiIdempotent | app/utils/sqliteManager.ts:255 | lower-casing twice is lower-casing once, as `LOWER(name)` on a lower-case term |
| Text.LikeAnything | app/utils/sqliteManager.ts:261 | the pattern `%` matches every string |
| Text.LikePrefix | app/utils/sqliteManager.ts:261 | `t%` matches exactly the strings starting with `t` |
| Text.LikeLeadingPercent | app/utils/sqliteManager.ts:261 | `%q` matches exactly when `q` matches some suffix |
| Text.LikeContains | app/utils/sqliteManager.ts:255-261 | `%t%` matches exactly the strings containing `t`, for a term without wildcards |
| Text.DecimalString | app/utils/sqliteManager.ts:167-169 | the returned id is a non-empty digit string with no leading zero |
| Text.DecimalRoundTrip | app/utils/sqliteManager.ts:167-169 | the digit string reads back as the id |
| Base64.SextetChar | app/utils/sqliteManager.ts:45-50 | each six-bit value has a base64 alphabet character |
| Base64.SextetValue | app/utils/sqliteManager.ts:92 | each alphabet character decodes to a six-bit value |
| Base64.SextetRoundTrip | app/utils/sqliteManager.ts:92 | decoding the character of a six-bit value gives the value back |
| Base64.BitsRoundTrip | app/utils/sqliteManager.ts:92 | splitting three bytes into four sextets and rejoining them is the identity |
| Base64.EncodeUnpadded | app/utils/sqliteManager.ts:45-50 | the characters are from the alphabet, and the length is fixed by the byte count |
| Base64.Encode | app/utils/sqliteManager.ts:45-50 | padded output is a multiple of four long, of alphabet characters and `=` |
| Base64.StripAsciiWhitespace | app/utils/sqliteManager.ts:92 | `atob` first removes ASCII white space |
| Base64.DecodeEncodeUnpadded | app/utils/sqliteManager.ts:92 | decoding the unpadded encoding gives back the bytes |
| Base64.DecodeEncode | app/utils/sqliteManager.ts:92 | `atob` of the encoding of any image gives back that image |
| Base64.UnpadEncoding | app/utils/sqliteManager.ts:92 | removing the padding of an encoding leaves the unpadded encoding |
| Base64.BinaryBytesOfString | app/utils/sqliteManager.ts:92-96 | reading back each character code of a binary string gives its bytes |
| Base64.AfterFirstComma | app/utils/sqliteManager.ts:92 | there is a text after a comma exactly when the entry has one |
| Base64.SecondField | app/utils/sqliteManager.ts:92 | `split(",")[1]` exists exactly when the entry holds a comma |
| Base64.SnapshotRoundTrip | app/utils/sqliteManager.ts:41-61 | the entry `saveDB` stores restores exactly the image it came from |
| Base64.NoCommaNoImage | app/utils/sqliteManager.ts:92-101 | an entry without a comma restores no image |
| Base64.EncodingHasNoComma | app/utils/sqliteManager.ts:45-50 | base64 text holds no comma, so the first comma is the header's |
| Listing.KeyLeTotal | app/utils/sqliteManager.ts:186 | any two rows are ordered one way or the other |
| Listing.KeyLeTransitive | app/utils/sqliteManager.ts:318 | the (date, number) order is transitive |
| Listing.SortDescSorted | app/utils/sqliteManager.ts:186 | the sort yields a descending sequence |
| Listing.SortDesc | app/utils/sqliteManager.ts:186 | the sort is a permutation of its input |
| Listing.AllCustomersCorrect | app/utils/sqliteManager.ts:508-536 | every customer listed is stored, every stored customer is listed, once each, in ascending rowid order |
| Listing.AllInvoicesCorrect | app/utils/sqliteManager.ts:538-566 | the same for the invoices |
| Listing.CustomerPageCorrect | app/utils/sqliteManager.ts:183-188 | the page holds at most 50 distinct stored customers, latest date first, and none omitted is later than one shown |
| Listing.CustomerPageOrdered | app/utils/sqliteManager.ts:183-188 | the page has min(count, 50) stored customers with distinct ids and dates descending |
| Listing.CustomerPageTop | app/utils/sqliteManager.ts:183-188 | a customer left off is no later than any shown, and with 50 or fewer customers all are shown |
| Listing.InvoiceListingCorrect | app/utils/sqliteManager.ts:315-319 | every invoice appears once, ordered by date, then number, descending |
| Listing.OfCustomer | app/utils/sqliteManager.ts:350 | filtering keeps only the customer's invoices |
| Listing.OfCustomerOfAll | app/utils/sqliteManager.ts:346-353 | filtering the full listing is listing the filtered table |
| Listing.OfCustomerOfSort | app/utils/sqliteManager.ts:346-353 | filtering commutes with the ordering |
| Listing.CustomerInvoiceListingCorrect | app/utils/sqliteManager.ts:346-353 | a customer's invoices are exactly theirs, in the order `getInvoices` gives them |
| Search.SearchTermsOfWords | app/utils/sqliteManager.ts:248-252 | lower-case words separated by runs of white space, with white space around them, come back as the search terms, one per word, in order |
| Search.SearchTermsShape | app/utils/sqliteManager.ts:252 | a query that is not blank yields non-empty, space-free terms that together hold the lower-cased query's non-space characters |
| Search.SearchCorrect | app/utils/sqliteManager.ts:246-286 | a blank query gives the plain page; otherwise every customer returned is stored and matches every term, in a correct page of the matching rows |
| Search.MatchingIsContaining | app/utils/sqliteManager.ts:255-261 | for terms without `%` or `_`, the LIKE condition is exactly the substring test |
| Search.SearchBySubstring | app/utils/sqliteManager.ts:246-286 | a search lists, latest first and at most 50, the customers containing every term in name or phone |
| Transfer.ImportedCustomersStep | app/utils/sqliteManager.ts:576-587 | each loop iteration upserts an accepted row and skips the others |
| Transfer.ImportedInvoicesStep | app/utils/sqliteManager.ts:616-627 | the same for invoices |
| Transfer.ImportCustomerRowsKeys | app/utils/sqliteManager.ts:576-587 | the import adds exactly the accepted ids |
| Transfer.ImportCustomerRowsKeeps | app/utils/sqliteManager.ts:576-587 | customers whose id no accepted row names are unchanged |
| Transfer.ImportCustomerRowsFrame | app/utils/sqliteManager.ts:576-587 | invoices are untouched, and the counter never goes backwards and covers every imported id |
| Transfer.ImportCustomerRowsLastWins | app/utils/sqliteManager.ts:576-587 | the last accepted row with an id decides that customer's fields |
| Transfer.ImportInvoiceRowsKeys | app/utils/sqliteManager.ts:616-627 | the import adds exactly the accepted invoice ids |
| Transfer.ImportInvoiceRowsKeeps | app/utils/sqliteManager.ts:616-627 | invoices no accepted row names are unchanged |
| Transfer.ImportInvoiceRowsFrame | app/utils/sqliteManager.ts:616-627 | customers are untouched, and the invoice counter never goes backwards |
| Transfer.ImportInvoiceRowsLastWins | app/utils/sqliteManager.ts:616-627 | the last accepted row with an id decides that invoice's fields |
| Transfer.ImportCustomerRowsTwice | app/utils/sqliteManager.ts:576-587 | importing the same sheet again at a later time keeps every id, name and phone; a customer that no accepted row names, or whose last accepted row has a date, is unchanged; one whose last accepted row has no date gets the second import's time; a sheet whose accepted rows all have dates imports to the same customers both times |
| Transfer.LastAcceptedCustomer | app/utils/sqliteManager.ts:576-587 | every accepted id has a last accepted row naming it |
| Transfer.ExportCustomers | app/utils/sqliteManager.ts:425-434 | the Customers sheet has one row per customer |
| Transfer.ExportInvoices | app/utils/sqliteManager.ts:428-435 | the Invoices sheet has one row per invoice |
| Transfer.ExportedCustomerRow | app/utils/sqliteManager.ts:425-434 | each exported row is accepted on import, re-creates the stored customer, and is the only row with its id |
| Transfer.ExportedCustomerIds | app/utils/sqliteManager.ts:425-434 | the accepted ids of the exported sheet are exactly the stored ids |
| Transfer.ExportedCustomersImport | app/utils/sqliteManager.ts:425-434 | importing the exported sheet into an empty table gives back the customers |
| Transfer.ExportedCustomerImported | app/utils/sqliteManager.ts:425-434 | each stored customer comes back unchanged |
| Transfer.ExportedInvoiceRow | app/utils/sqliteManager.ts:428-435 | each exported invoice row is accepted and re-creates the stored invoice |
| Transfer.ExportedInvoiceIds | app/utils/sqliteManager.ts:428-435 | the accepted ids of the exported invoices are exactly the stored ids |
| Transfer.ExportedInvoicesImport | app/utils/sqliteManager.ts:428-435 | importing the exported invoices into an empty table gives them back |
| Transfer.ExportedInvoiceImported | app/utils/sqliteManager.ts:428-435 | each stored invoice comes back unchanged |
| Transfer.ExportImportRoundTrip | app/utils/sqliteManager.ts:420-505 | export then import into empty tables gives back both tables |
| Transfer.EmptyNameIsNotReimported | app/utils/sqliteManager.ts:578 | a stored customer with an empty name is exported but skipped on import |

## Behaviour worth knowing

- `importFromExcel` counts every row object of a sheet, skipped rows
  included (lines 474 and 485). `Session.SkippedRowsAreCounted` shows a
  sheet of two rows reporting two customers while one is stored.
- A failed Customers sheet rejects before the Invoices sheet is read
  (line 491). A failed Invoices sheet rejects too, but the customers
  imported just before stay committed and saved (`Session.ExcelImport`).
- A snapshot whose image is zero bytes long is loaded as it is, because
  an empty `Uint8Array` is truthy (line 105), and no tables are created
  (`Session.EmptyImageIsOpened`). sql.js opens a zero-length image as a
  database without tables. Every later statement on the two tables then
  fails: `Session.EmptyImageHasNoTables` shows this for an import, and
  the class's methods fail on `NoTables`.
- Export followed by import does not restore every table. A customer with
  an empty name is exported but skipped on import
  (`Transfer.EmptyNameIsNotReimported`). A customer or invoice with id 0
  is skipped on import too (`!customer.id`, line 578; `!invoice.id`, line
  618). An empty date comes back as the import time.
  `Session.ClearThenReimport` therefore requires that no row has any of
  these. It also requires every invoice's `customerId` to be non-zero,
  which the program does not need: the column is TEXT (line 142), so a
  stored 0 is exported as the text "0", which is truthy, and the invoice
  is imported again.

## Left out

- Loading sql.js (lines 26-38) and the SQL engine are left out. The engine
  is the `Engine` parameter, and each statement's effect is a function.
  Exceptions the library could raise in `initDB` or `saveDB` are not
  modelled.
- The `CREATE INDEX` statements (lines 147-150) are left out: they affect
  speed only.
- The declared `ON DELETE CASCADE` (line 143) is not modelled: the code
  never turns foreign keys on, so it has no effect. An import that replaces
  a customer keeps that customer's invoices.
- The Blob, FileReader and localStorage plumbing of `saveDB` (lines 46-53)
  is simplified. The model writes the snapshot at once. In the code the
  callbacks (line 56) run before the asynchronous `setItem`.
- The XLSX encoding and decoding, and the `Blob` returned by
  `exportToExcel`, are left out. Sheets are sequences of row records.
  `Manager.SQLiteManager.ExportToExcel` returns the workbook.
  `Manager.SQLiteManager.ImportFromExcel` takes the parsed workbook, or
  `None` for a file that cannot be read.
- `downloadExcel` (lines 692-703) is left out: it is DOM work only.
- `new Date().toISOString()` is the `now` parameter rather than a clock
  read. One `now` value stands in for every per-row clock read of a call
  (lines 583 and 623), and for both sheets of `importFromExcel`; two
  calls take two values, as `Transfer.ImportCustomerRowsTwice` does.
- Each call is modelled as running to completion before the next starts.
  The source awaits inside `initDB` and `saveDB` and has no guard, so two
  overlapping calls on a manager without an open database both run
  `initDB`, and their saves may interleave; the model does not capture
  that interleaving.
- That sql.js opens a zero-length image as a database without tables is
  an assumption about the engine, not a fact the model proves.
  `Session.EmptyImageHasNoTables` takes it as the premise
  `e.load([]) == NoTables`.
- Engine failures other than an import upsert are not modelled: given the
  tables, every other statement succeeds. The `fault` parameter names the
  import statement that fails.
- Exceptions thrown by callbacks are not modelled, nor are console logging
  and error strings. Failures are a generic `Failed` or `false`.
- `SQLiteManager.dbName` and `SQL` are not modelled: the first is never
  read, and the second is part of the library loading.
- Row ids are integers. The TypeScript types them as strings, and SQLite's
  type affinity and string comparison of ids are not modelled; nor are
  NULL columns or the 64-bit rowid limit.
- Transfer.InvoiceAccepted: `customerId` is a TEXT column (line 142),
  typed as a string (line 15), but the model holds it as an integer with
  numeric truthiness. So the model skips an imported invoice whose
  `customerId` is 0 (line 618), which the program imports because the
  text "0" is truthy. For the same reason `Transfer.Reimportable` asks
  for a non-zero `customerId`, which the program does not need.
- Search.SearchTermsShape: lower-casing is ASCII only. The program
  lower-cases a non-ASCII query letter (`toLowerCase`) but SQLite's
  `LOWER` keeps the same letter in the name, so a query "É" never finds
  the name "É"; the model folds neither, and matches it.
- Text.LowerAscii: models ASCII letters only; `toLowerCase` also folds
  non-ASCII letters, which SQLite's built-in `LOWER` does not.
- Search.MatchingIsContaining: covers terms without `%` and `_`. The code
  does not escape those characters, so such a term acts as a pattern.
- Listing.CustomerPageCorrect: ties between customers with the same date
  have no defined order in SQLite. The model breaks them by rowid, so the
  proof covers one of the orders SQLite may choose.
- Manager.SQLiteManager.GetCustomers: returns one order for customers with
  the same date, which the engine does not promise.
- Manager.SQLiteManager.SearchCustomers: the same for the matching
  customers.
- Manager.SQLiteManager.GetInvoices: returns one order for invoices with
  the same date and number, which the engine does not
  promise.
- Manager.SQLiteManager.GetInvoicesByCustomerId: the same for one
  customer's invoices.
- app/composables/useSQLite.ts (Vue state and delegation) and
  nuxt.config.ts (build settings) are not part of this model.
