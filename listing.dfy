/** The listings the store returns: whole tables in the engine's scan
    order, and the `ORDER BY ... DESC` listings, the customer ones cut to
    `customerLimit` rows (app/utils/sqliteManager.ts). */
module Listing {
  import opened Text
  import opened Records

  /** `customerLimit`: the most customers a listing or a search returns. */
  const CustomerLimit: nat := 50

  // ---------------------------------------------------------------------
  // Sort keys
  // ---------------------------------------------------------------------

  /** The columns an `ORDER BY` names, most significant first, each
      compared with the BINARY collation. */
  datatype SortKey = SortKey(major: string, minor: string)

  predicate KeyLe(a: SortKey, b: SortKey)
  {
    LexLt(a.major, b.major) || (a.major == b.major && LexLe(a.minor, b.minor))
  }

  lemma KeyLeTotal(a: SortKey, b: SortKey)
    ensures KeyLe(a, b) || KeyLe(b, a)
  {
    LexLeTotal(a.major, b.major);
    LexLeTotal(a.minor, b.minor);
  }

  lemma KeyLeTransitive(a: SortKey, b: SortKey, c: SortKey)
    requires KeyLe(a, b) && KeyLe(b, c)
    ensures KeyLe(a, c)
  {
    LexLeReflexive(a.major);
    LexLeReflexive(b.major);
    LexLeTransitive(a.major, b.major, c.major);
    if a.major == b.major && b.major == c.major {
      LexLeTransitive(a.minor, b.minor, c.minor);
    } else if a.major == c.major {
      LexLeAntisymmetric(a.major, b.major);
    }
  }

  /** `ORDER BY date DESC`. */
  function CustomerKey(c: Customer): SortKey
  {
    SortKey(c.date, "")
  }

  /** `ORDER BY date DESC, number DESC`. */
  function InvoiceKey(i: Invoice): SortKey
  {
    SortKey(i.date, i.number)
  }

  // ---------------------------------------------------------------------
  // Descending sort
  // ---------------------------------------------------------------------

  predicate SortedDesc<T>(s: seq<T>, key: T -> SortKey)
  {
    forall i, j :: 0 <= i < j < |s| ==> KeyLe(key(s[j]), key(s[i]))
  }

  ghost predicate Distinct<T>(s: seq<T>)
  {
    forall i, j :: 0 <= i < j < |s| ==> s[i] != s[j]
  }

  /** Puts `x` before the first element whose key is not above its own. */
  function InsertDesc<T>(x: T, s: seq<T>, key: T -> SortKey): (r: seq<T>)
    ensures |r| == |s| + 1 && multiset(r) == multiset(s) + multiset{x}
  {
    if s == [] then [x]
    else if KeyLe(key(s[0]), key(x)) then [x] + s
    else
      assert s == [s[0]] + s[1..];
      [s[0]] + InsertDesc(x, s[1..], key)
  }

  /** A descending sort by `key` that keeps rows with equal keys in the
      order they were scanned. */
  function SortDesc<T>(s: seq<T>, key: T -> SortKey): (r: seq<T>)
    ensures |r| == |s| && multiset(r) == multiset(s)
  {
    if s == [] then []
    else
      assert s == [s[0]] + s[1..];
      InsertDesc(s[0], SortDesc(s[1..], key), key)
  }

  lemma {:induction false} InsertDescSorted<T>(x: T, s: seq<T>, key: T -> SortKey)
    requires SortedDesc(s, key)
    ensures SortedDesc(InsertDesc(x, s, key), key)
  {
    if s == [] {
    } else if KeyLe(key(s[0]), key(x)) {
      var r := [x] + s;
      forall i, j | 0 <= i < j < |r|
        ensures KeyLe(key(r[j]), key(r[i]))
      {
        if i == 0 && j > 1 {
          KeyLeTransitive(key(s[j - 1]), key(s[0]), key(x));
        }
      }
    } else {
      KeyLeTotal(key(s[0]), key(x));
      InsertDescSorted(x, s[1..], key);
      var t := InsertDesc(x, s[1..], key);
      var r := [s[0]] + t;
      forall i, j | 0 <= i < j < |r|
        ensures KeyLe(key(r[j]), key(r[i]))
      {
        if i == 0 {
          var e := t[j - 1];
          assert e in multiset(t);
          if e != x {
            assert e in multiset(s[1..]);
            var p :| 0 <= p < |s[1..]| && s[1..][p] == e;
            assert s[p + 1] == e;
          }
        }
      }
    }
  }

  lemma {:induction false} SortDescSorted<T>(s: seq<T>, key: T -> SortKey)
    ensures SortedDesc(SortDesc(s, key), key)
  {
    if s != [] {
      SortDescSorted(s[1..], key);
      InsertDescSorted(s[0], SortDesc(s[1..], key), key);
    }
  }

  lemma {:induction false} DistinctCount<T>(s: seq<T>, x: T)
    requires Distinct(s)
    ensures multiset(s)[x] <= 1
  {
    if s != [] {
      assert s == [s[0]] + s[1..];
      DistinctCount(s[1..], x);
      if s[0] == x {
        assert x !in s[1..];
      }
    }
  }

  lemma {:induction false} RepeatCount<T>(s: seq<T>, i: int, j: int)
    requires 0 <= i < j < |s| && s[i] == s[j]
    ensures multiset(s)[s[i]] >= 2
  {
    assert s == [s[0]] + s[1..];
    if i > 0 {
      RepeatCount(s[1..], i - 1, j - 1);
    } else {
      assert s[j] in s[1..];
    }
  }

  /** Reordering a sequence keeps its elements distinct. */
  lemma PermutationKeepsDistinct<T>(s: seq<T>, t: seq<T>)
    requires multiset(s) == multiset(t) && Distinct(s)
    ensures Distinct(t)
  {
    forall i, j | 0 <= i < j < |t|
      ensures t[i] != t[j]
    {
      if t[i] == t[j] {
        RepeatCount(t, i, j);
        DistinctCount(s, t[i]);
      }
    }
  }

  /** `LIMIT n`. */
  function Take<T>(s: seq<T>, n: nat): (r: seq<T>)
    ensures |r| == if |s| < n then |s| else n
    ensures forall i :: 0 <= i < |r| ==> r[i] == s[i]
  {
    if |s| <= n then s else s[..n]
  }

  // ---------------------------------------------------------------------
  // Whole tables
  // ---------------------------------------------------------------------

  /** `SELECT id, date, name, phone FROM customers` with no `ORDER BY`
      (getAllCustomersForExport): one record per stored row, in the rowid
      order the engine scans the table in. */
  function AllCustomers(m: map<int, CustomerRow>): (r: seq<Customer>)
    ensures |r| == |m|
    decreases |m|
  {
    if m.Keys == {} then []
    else
      var k := MinKey(m.Keys);
      var rest := m - {k};
      assert rest.Keys == m.Keys - {k};
      [CustomerOf(k, m[k])] + AllCustomers(rest)
  }

  /** One record per stored row, each row once, in ascending id order. */
  lemma AllCustomersCorrect(m: map<int, CustomerRow>)
    ensures forall i :: 0 <= i < |AllCustomers(m)| ==> CustomerStored(m, AllCustomers(m)[i])
    ensures forall k :: k in m ==> CustomerOf(k, m[k]) in AllCustomers(m)
    ensures forall i, j :: 0 <= i < j < |AllCustomers(m)| ==> AllCustomers(m)[i].id < AllCustomers(m)[j].id
  {
    AllCustomersStored(m);
    AllCustomersComplete(m);
    AllCustomersAscending(m);
  }

  lemma {:induction false} AllCustomersStored(m: map<int, CustomerRow>)
    ensures forall i :: 0 <= i < |AllCustomers(m)| ==> CustomerStored(m, AllCustomers(m)[i])
    decreases |m|
  {
    if m.Keys != {} {
      var k := MinKey(m.Keys);
      var rest := m - {k};
      assert rest.Keys == m.Keys - {k};
      AllCustomersStored(rest);
      var r := AllCustomers(m);
      var t := AllCustomers(rest);
      assert r == [CustomerOf(k, m[k])] + t;
      forall i | 0 <= i < |r|
        ensures CustomerStored(m, r[i])
      {
        if i > 0 {
          assert r[i] == t[i - 1];
        }
      }
    }
  }

  lemma {:induction false} AllCustomersComplete(m: map<int, CustomerRow>)
    ensures forall k :: k in m ==> CustomerOf(k, m[k]) in AllCustomers(m)
    decreases |m|
  {
    if m.Keys != {} {
      var k := MinKey(m.Keys);
      var rest := m - {k};
      assert rest.Keys == m.Keys - {k};
      AllCustomersComplete(rest);
      var r := AllCustomers(m);
      var t := AllCustomers(rest);
      assert r == [CustomerOf(k, m[k])] + t;
      forall j | j in m
        ensures CustomerOf(j, m[j]) in r
      {
        if j != k {
          assert j in rest;
        }
      }
    }
  }

  lemma {:induction false} AllCustomersAscending(m: map<int, CustomerRow>)
    ensures forall i, j :: 0 <= i < j < |AllCustomers(m)| ==> AllCustomers(m)[i].id < AllCustomers(m)[j].id
    decreases |m|
  {
    if m.Keys != {} {
      var k := MinKey(m.Keys);
      var rest := m - {k};
      assert rest.Keys == m.Keys - {k};
      AllCustomersAscending(rest);
      AllCustomersStored(rest);
      var r := AllCustomers(m);
      var t := AllCustomers(rest);
      assert r == [CustomerOf(k, m[k])] + t;
      forall i, j | 0 <= i < j < |r|
        ensures r[i].id < r[j].id
      {
        var e := t[j - 1];
        assert r[j] == e;
        assert CustomerStored(rest, e);
        assert e.id in m.Keys && e.id != k;
        if i > 0 {
          assert r[i] == t[i - 1];
        }
      }
    }
  }

  /** `SELECT id, date, number, customerId FROM invoices` with no
      `ORDER BY` (getAllInvoicesForExport). */
  function AllInvoices(m: map<int, InvoiceRow>): (r: seq<Invoice>)
    ensures |r| == |m|
    decreases |m|
  {
    if m.Keys == {} then []
    else
      var k := MinKey(m.Keys);
      var rest := m - {k};
      assert rest.Keys == m.Keys - {k};
      [InvoiceOf(k, m[k])] + AllInvoices(rest)
  }

  /** One record per stored row, each row once, in ascending id order. */
  lemma AllInvoicesCorrect(m: map<int, InvoiceRow>)
    ensures forall i :: 0 <= i < |AllInvoices(m)| ==> InvoiceStored(m, AllInvoices(m)[i])
    ensures forall k :: k in m ==> InvoiceOf(k, m[k]) in AllInvoices(m)
    ensures forall i, j :: 0 <= i < j < |AllInvoices(m)| ==> AllInvoices(m)[i].id < AllInvoices(m)[j].id
  {
    AllInvoicesStored(m);
    AllInvoicesComplete(m);
    AllInvoicesAscending(m);
  }

  lemma {:induction false} AllInvoicesStored(m: map<int, InvoiceRow>)
    ensures forall i :: 0 <= i < |AllInvoices(m)| ==> InvoiceStored(m, AllInvoices(m)[i])
    decreases |m|
  {
    if m.Keys != {} {
      var k := MinKey(m.Keys);
      var rest := m - {k};
      assert rest.Keys == m.Keys - {k};
      AllInvoicesStored(rest);
      var r := AllInvoices(m);
      var t := AllInvoices(rest);
      assert r == [InvoiceOf(k, m[k])] + t;
      forall i | 0 <= i < |r|
        ensures InvoiceStored(m, r[i])
      {
        if i > 0 {
          assert r[i] == t[i - 1];
        }
      }
    }
  }

  lemma {:induction false} AllInvoicesComplete(m: map<int, InvoiceRow>)
    ensures forall k :: k in m ==> InvoiceOf(k, m[k]) in AllInvoices(m)
    decreases |m|
  {
    if m.Keys != {} {
      var k := MinKey(m.Keys);
      var rest := m - {k};
      assert rest.Keys == m.Keys - {k};
      AllInvoicesComplete(rest);
      var r := AllInvoices(m);
      var t := AllInvoices(rest);
      assert r == [InvoiceOf(k, m[k])] + t;
      forall j | j in m
        ensures InvoiceOf(j, m[j]) in r
      {
        if j != k {
          assert j in rest;
        }
      }
    }
  }

  lemma {:induction false} AllInvoicesAscending(m: map<int, InvoiceRow>)
    ensures forall i, j :: 0 <= i < j < |AllInvoices(m)| ==> AllInvoices(m)[i].id < AllInvoices(m)[j].id
    decreases |m|
  {
    if m.Keys != {} {
      var k := MinKey(m.Keys);
      var rest := m - {k};
      assert rest.Keys == m.Keys - {k};
      AllInvoicesAscending(rest);
      AllInvoicesStored(rest);
      var r := AllInvoices(m);
      var t := AllInvoices(rest);
      assert r == [InvoiceOf(k, m[k])] + t;
      forall i, j | 0 <= i < j < |r|
        ensures r[i].id < r[j].id
      {
        var e := t[j - 1];
        assert r[j] == e;
        assert InvoiceStored(rest, e);
        assert e.id in m.Keys && e.id != k;
        if i > 0 {
          assert r[i] == t[i - 1];
        }
      }
    }
  }

  // ---------------------------------------------------------------------
  // Customer listing
  // ---------------------------------------------------------------------

  /** `SELECT id, date, name, phone FROM customers ORDER BY date DESC
      LIMIT 50` over the rows of `m` (getCustomers). */
  function CustomerPage(m: map<int, CustomerRow>): seq<Customer>
  {
    Take(SortDesc(AllCustomers(m), CustomerKey), CustomerLimit)
  }

  /** What such a query promises: `min(|m|, 50)` stored rows, no row twice,
      the latest date first, and no row left out whose date is later than
      one that was returned. Which of several rows with the same date is
      returned first, or at the cut, is the engine's choice. */
  ghost predicate IsCustomerPage(m: map<int, CustomerRow>, r: seq<Customer>)
  {
    && |r| == (if |m| < CustomerLimit then |m| else CustomerLimit)
    && (forall i :: 0 <= i < |r| ==> CustomerStored(m, r[i]))
    && (forall i, j :: 0 <= i < j < |r| ==> r[i].id != r[j].id)
    && (forall i, j :: 0 <= i < j < |r| ==> LexLe(r[j].date, r[i].date))
    && (forall k, i :: k in m && 0 <= i < |r| && CustomerOf(k, m[k]) !in r ==> LexLe(m[k].date, r[i].date))
    && (|m| <= CustomerLimit ==> forall k :: k in m ==> CustomerOf(k, m[k]) in r)
  }

  /** The sorted scan of the customers table, before the cut. */
  lemma SortedCustomersCorrect(m: map<int, CustomerRow>, t: seq<Customer>)
    requires t == SortDesc(AllCustomers(m), CustomerKey)
    ensures |t| == |m|
    ensures forall i :: 0 <= i < |t| ==> CustomerStored(m, t[i])
    ensures forall k :: k in m ==> CustomerOf(k, m[k]) in t
    ensures Distinct(t)
    ensures SortedDesc(t, CustomerKey)
  {
    var s := AllCustomers(m);
    AllCustomersCorrect(m);
    SortDescSorted(s, CustomerKey);
    assert Distinct(s);
    PermutationKeepsDistinct(s, t);
    forall i | 0 <= i < |t|
      ensures CustomerStored(m, t[i])
    {
      assert t[i] in multiset(s);
    }
    forall k | k in m
      ensures CustomerOf(k, m[k]) in t
    {
      assert CustomerOf(k, m[k]) in multiset(s);
    }
  }

  lemma CustomerPageCorrect(m: map<int, CustomerRow>)
    ensures IsCustomerPage(m, CustomerPage(m))
  {
    CustomerPageOrdered(m);
    CustomerPageTop(m);
  }

  lemma CustomerPageOrdered(m: map<int, CustomerRow>)
    ensures var r := CustomerPage(m);
      && |r| == (if |m| < CustomerLimit then |m| else CustomerLimit)
      && (forall i :: 0 <= i < |r| ==> CustomerStored(m, r[i]))
      && (forall i, j :: 0 <= i < j < |r| ==> r[i].id != r[j].id)
      && (forall i, j :: 0 <= i < j < |r| ==> LexLe(r[j].date, r[i].date))
  {
    var t := SortDesc(AllCustomers(m), CustomerKey);
    SortedCustomersCorrect(m, t);
    TakeOrdered(m, t);
  }

  /** The first rows of a sorted listing of distinct stored customers are
      stored, have distinct ids and non-increasing dates. */
  lemma TakeOrdered(m: map<int, CustomerRow>, t: seq<Customer>)
    requires |t| == |m| && Distinct(t) && SortedDesc(t, CustomerKey)
    requires forall i :: 0 <= i < |t| ==> CustomerStored(m, t[i])
    ensures var r := Take(t, CustomerLimit);
      && |r| == (if |m| < CustomerLimit then |m| else CustomerLimit)
      && (forall i :: 0 <= i < |r| ==> CustomerStored(m, r[i]))
      && (forall i, j :: 0 <= i < j < |r| ==> r[i].id != r[j].id)
      && (forall i, j :: 0 <= i < j < |r| ==> LexLe(r[j].date, r[i].date))
  {
    var r := Take(t, CustomerLimit);
    forall i, j | 0 <= i < j < |r|
      ensures r[i].id != r[j].id && LexLe(r[j].date, r[i].date)
    {
      assert r[i] == t[i] && r[j] == t[j];
      StoredPairOrdered(m, t[i], t[j]);
    }
  }

  /** Two different stored customers have different ids, and customers in
      descending key order have non-increasing dates. */
  lemma StoredPairOrdered(m: map<int, CustomerRow>, a: Customer, b: Customer)
    requires CustomerStored(m, a) && CustomerStored(m, b) && a != b
    requires KeyLe(CustomerKey(b), CustomerKey(a))
    ensures a.id != b.id && LexLe(b.date, a.date)
  {
    LexLeReflexive(a.date);
  }

  lemma CustomerPageTop(m: map<int, CustomerRow>)
    ensures var r := CustomerPage(m);
      && (forall k, i :: k in m && 0 <= i < |r| && CustomerOf(k, m[k]) !in r ==> LexLe(m[k].date, r[i].date))
      && (|m| <= CustomerLimit ==> forall k :: k in m ==> CustomerOf(k, m[k]) in r)
  {
    var t := SortDesc(AllCustomers(m), CustomerKey);
    var r := Take(t, CustomerLimit);
    SortedCustomersCorrect(m, t);
    forall k, i | k in m && 0 <= i < |r| && CustomerOf(k, m[k]) !in r
      ensures LexLe(m[k].date, r[i].date)
    {
      LaterRowIncluded(t, CustomerOf(k, m[k]), i);
    }
  }

  /** A row of a sorted sequence that is not among its first `CustomerLimit`
      rows has a date no later than any of them. */
  lemma LaterRowIncluded(t: seq<Customer>, c: Customer, i: int)
    requires SortedDesc(t, CustomerKey) && c in t
    requires 0 <= i < |Take(t, CustomerLimit)| && c !in Take(t, CustomerLimit)
    ensures LexLe(c.date, t[i].date)
  {
    var r := Take(t, CustomerLimit);
    var p :| 0 <= p < |t| && t[p] == c;
    if p < |r| {
      assert false;
    }
    assert KeyLe(CustomerKey(t[p]), CustomerKey(t[i]));
    LexLeReflexive(c.date);
  }

  // ---------------------------------------------------------------------
  // Invoice listings
  // ---------------------------------------------------------------------

  /** `SELECT id, date, number, customerId FROM invoices ORDER BY date DESC,
      number DESC` over the rows of `m` (getInvoices). */
  function InvoiceListing(m: map<int, InvoiceRow>): seq<Invoice>
  {
    SortDesc(AllInvoices(m), InvoiceKey)
  }

  /** Every stored invoice exactly once, latest date first and, within a
      date, the highest number first. */
  ghost predicate IsInvoiceListing(m: map<int, InvoiceRow>, r: seq<Invoice>)
  {
    && |r| == |m|
    && (forall i :: 0 <= i < |r| ==> InvoiceStored(m, r[i]))
    && (forall k :: k in m ==> InvoiceOf(k, m[k]) in r)
    && (forall i, j :: 0 <= i < j < |r| ==> KeyLe(InvoiceKey(r[j]), InvoiceKey(r[i])))
  }

  lemma InvoiceListingCorrect(m: map<int, InvoiceRow>)
    ensures IsInvoiceListing(m, InvoiceListing(m))
  {
    var s := AllInvoices(m);
    var t := SortDesc(s, InvoiceKey);
    AllInvoicesCorrect(m);
    SortDescSorted(s, InvoiceKey);
    forall i | 0 <= i < |t|
      ensures InvoiceStored(m, t[i])
    {
      assert t[i] in multiset(s);
    }
    forall k | k in m
      ensures InvoiceOf(k, m[k]) in t
    {
      assert InvoiceOf(k, m[k]) in multiset(s);
    }
  }

  /** The rows of `m` whose `customerId` is `customerId`. */
  function InvoicesOf(m: map<int, InvoiceRow>, customerId: int): (r: map<int, InvoiceRow>)
    ensures forall k :: k in r <==> k in m && m[k].customerId == customerId
    ensures forall k :: k in r ==> r[k] == m[k]
  {
    map k | k in m && m[k].customerId == customerId :: m[k]
  }

  /** `... FROM invoices WHERE customerId = ? ORDER BY date DESC, number
      DESC` (getInvoicesByCustomerId). */
  function CustomerInvoiceListing(m: map<int, InvoiceRow>, customerId: int): seq<Invoice>
  {
    InvoiceListing(InvoicesOf(m, customerId))
  }

  /** The invoices of a listing that belong to `customerId`, in order. */
  function OfCustomer(s: seq<Invoice>, customerId: int): (r: seq<Invoice>)
    ensures forall e :: e in r ==> e in s && e.customerId == customerId
  {
    if s == [] then []
    else (if s[0].customerId == customerId then [s[0]] else []) + OfCustomer(s[1..], customerId)
  }

  lemma OfCustomerCons(x: Invoice, s: seq<Invoice>, customerId: int)
    ensures OfCustomer([x] + s, customerId)
         == (if x.customerId == customerId then [x] else []) + OfCustomer(s, customerId)
  {
    assert ([x] + s)[1..] == s;
  }

  lemma {:induction false} OfCustomerOfAll(m: map<int, InvoiceRow>, customerId: int)
    ensures OfCustomer(AllInvoices(m), customerId) == AllInvoices(InvoicesOf(m, customerId))
    decreases |m|
  {
    var f := InvoicesOf(m, customerId);
    if m.Keys == {} {
      assert f.Keys == {};
    } else {
      var k := MinKey(m.Keys);
      var rest := m - {k};
      assert rest.Keys == m.Keys - {k};
      OfCustomerOfAll(rest, customerId);
      OfCustomerCons(InvoiceOf(k, m[k]), AllInvoices(rest), customerId);
      InvoicesOfWithoutMin(m, customerId);
    }
  }

  /** Taking the lowest id out of the rows commutes with keeping one
      customer's rows; that id is the lowest the customer's rows hold when
      it is one of theirs. */
  lemma InvoicesOfWithoutMin(m: map<int, InvoiceRow>, customerId: int)
    requires m.Keys != {}
    ensures var k := MinKey(m.Keys); var f := InvoicesOf(m, customerId);
      var g := InvoicesOf(m - {k}, customerId);
      && (m[k].customerId == customerId ==> f.Keys != {} && MinKey(f.Keys) == k && f - {k} == g)
      && (m[k].customerId != customerId ==> f == g)
  {
    var k := MinKey(m.Keys);
    var f := InvoicesOf(m, customerId);
    var g := InvoicesOf(m - {k}, customerId);
    if m[k].customerId == customerId {
      assert k in f;
      assert (f - {k}).Keys == g.Keys;
      SameMaps(f - {k}, g);
    } else {
      assert f.Keys == g.Keys;
      SameMaps(f, g);
    }
  }

  lemma InsertDescCons<T>(x: T, y: T, s: seq<T>, key: T -> SortKey)
    ensures InsertDesc(x, [y] + s, key)
         == if KeyLe(key(y), key(x)) then [x] + ([y] + s) else [y] + InsertDesc(x, s, key)
  {
    assert ([y] + s)[0] == y && ([y] + s)[1..] == s;
  }

  lemma SortDescCons<T>(x: T, s: seq<T>, key: T -> SortKey)
    ensures SortDesc([x] + s, key) == InsertDesc(x, SortDesc(s, key), key)
  {
    assert ([x] + s)[0] == x && ([x] + s)[1..] == s;
  }

  /** Every invoice a sorted listing keeps for one customer has a key no
      higher than the listing's first row. */
  lemma OfCustomerBelowHead(l: seq<Invoice>, customerId: int, x: Invoice)
    requires SortedDesc(l, InvoiceKey) && l != [] && KeyLe(InvoiceKey(l[0]), InvoiceKey(x))
    ensures var f := OfCustomer(l, customerId); f == [] || KeyLe(InvoiceKey(f[0]), InvoiceKey(x))
  {
    var f := OfCustomer(l, customerId);
    if f != [] {
      assert f[0] in l;
      var q :| 0 <= q < |l| && l[q] == f[0];
      if q > 0 {
        KeyLeTransitive(InvoiceKey(l[q]), InvoiceKey(l[0]), InvoiceKey(x));
      }
    }
  }

  /** Filtering for one customer commutes with inserting into a sorted
      listing. */
  lemma {:induction false} OfCustomerOfInsert(x: Invoice, l: seq<Invoice>, customerId: int)
    requires SortedDesc(l, InvoiceKey)
    ensures OfCustomer(InsertDesc(x, l, InvoiceKey), customerId)
         == if x.customerId == customerId then InsertDesc(x, OfCustomer(l, customerId), InvoiceKey)
            else OfCustomer(l, customerId)
    decreases |l|, 1
  {
    if l == [] {
      OfCustomerCons(x, [], customerId);
      assert [x] + [] == [x];
    } else if KeyLe(InvoiceKey(l[0]), InvoiceKey(x)) {
      OfCustomerInsertFront(x, l, customerId);
    } else {
      OfCustomerInsertBehind(x, l, customerId);
    }
  }

  lemma {:induction false} OfCustomerInsertFront(x: Invoice, l: seq<Invoice>, customerId: int)
    requires SortedDesc(l, InvoiceKey) && l != [] && KeyLe(InvoiceKey(l[0]), InvoiceKey(x))
    ensures OfCustomer(InsertDesc(x, l, InvoiceKey), customerId)
         == if x.customerId == customerId then InsertDesc(x, OfCustomer(l, customerId), InvoiceKey)
            else OfCustomer(l, customerId)
  {
    var fl := OfCustomer(l, customerId);
    InsertDescFront(x, l, InvoiceKey);
    OfCustomerCons(x, l, customerId);
    if x.customerId == customerId {
      OfCustomerBelowHead(l, customerId, x);
      InsertDescFront(x, fl, InvoiceKey);
    } else {
      assert [] + fl == fl;
    }
  }

  /** A row whose key is at least the first one's goes in front. */
  lemma InsertDescFront<T>(x: T, s: seq<T>, key: T -> SortKey)
    requires s == [] || KeyLe(key(s[0]), key(x))
    ensures InsertDesc(x, s, key) == [x] + s
  {
  }

  lemma {:induction false} OfCustomerInsertBehind(x: Invoice, l: seq<Invoice>, customerId: int)
    requires SortedDesc(l, InvoiceKey) && l != [] && !KeyLe(InvoiceKey(l[0]), InvoiceKey(x))
    ensures OfCustomer(InsertDesc(x, l, InvoiceKey), customerId)
         == if x.customerId == customerId then InsertDesc(x, OfCustomer(l, customerId), InvoiceKey)
            else OfCustomer(l, customerId)
    decreases |l|, 0
  {
    var y := l[0];
    var tail := l[1..];
    assert l == [y] + tail;
    var ft := OfCustomer(tail, customerId);
    var it := InsertDesc(x, tail, InvoiceKey);
    var fit := OfCustomer(it, customerId);
    OfCustomerCons(y, tail, customerId);
    InsertDescCons(x, y, tail, InvoiceKey);
    assert InsertDesc(x, l, InvoiceKey) == [y] + it;
    assert SortedDesc(tail, InvoiceKey);
    OfCustomerOfInsert(x, tail, customerId);
    OfCustomerCons(y, it, customerId);
    if y.customerId == customerId {
      if x.customerId == customerId {
        InsertDescCons(x, y, ft, InvoiceKey);
      }
    } else {
      assert [] + ft == ft;
      assert [] + fit == fit;
    }
  }

  lemma {:induction false} OfCustomerOfSort(s: seq<Invoice>, customerId: int)
    ensures OfCustomer(SortDesc(s, InvoiceKey), customerId) == SortDesc(OfCustomer(s, customerId), InvoiceKey)
  {
    if s != [] {
      var x := s[0];
      var tail := s[1..];
      assert s == [x] + tail;
      var st := SortDesc(tail, InvoiceKey);
      var ft := OfCustomer(tail, customerId);
      SortDescCons(x, tail, InvoiceKey);
      OfCustomerCons(x, tail, customerId);
      OfCustomerOfSort(tail, customerId);
      SortDescSorted(tail, InvoiceKey);
      OfCustomerOfInsert(x, st, customerId);
      if x.customerId == customerId {
        SortDescCons(x, ft, InvoiceKey);
      } else {
        assert [] + ft == ft;
      }
    }
  }

  /** A customer's invoice listing is the full invoice listing with the
      other customers' invoices taken out, so it is a correct listing of
      that customer's invoices. */
  lemma CustomerInvoiceListingCorrect(m: map<int, InvoiceRow>, customerId: int)
    ensures CustomerInvoiceListing(m, customerId) == OfCustomer(InvoiceListing(m), customerId)
    ensures IsInvoiceListing(InvoicesOf(m, customerId), CustomerInvoiceListing(m, customerId))
  {
    OfCustomerOfAll(m, customerId);
    OfCustomerOfSort(AllInvoices(m), customerId);
    InvoiceListingCorrect(InvoicesOf(m, customerId));
  }
}
