/** `searchCustomers` (app/utils/sqliteManager.ts): a query is cut into
    lower-cased terms, each term becomes a `%term%` pattern tried against
    the lower-cased name and phone, and the matching customers are listed
    like `getCustomers` lists them. */
module Search {
  import opened Wrappers
  import opened Text
  import opened Records
  import opened Listing

  /** `query.trim().toLowerCase().split(/\s+/)`. */
  function SearchTerms(query: string): seq<string>
  {
    SplitWs(LowerAscii(Trim(query)))
  }

  /** `!query || query.trim() === ""`: no query, or only white space. */
  predicate IsBlankQuery(query: Option<string>)
  {
    query.None? || Trim(query.value) == ""
  }

  /** The pattern bound for a term, once for each of the two columns. */
  function TermPattern(term: string): string
  {
    "%" + term + "%"
  }

  /** `(LOWER(name) LIKE ? OR LOWER(phone) LIKE ?)` for one term. */
  predicate TermMatches(row: CustomerRow, term: string)
  {
    Like(TermPattern(term), LowerAscii(row.name)) || Like(TermPattern(term), LowerAscii(row.phone))
  }

  /** The term conditions joined with `AND`. */
  predicate MatchesAll(row: CustomerRow, terms: seq<string>)
  {
    forall i :: 0 <= i < |terms| ==> TermMatches(row, terms[i])
  }

  /** The rows the `WHERE` clause keeps. */
  function Matching(m: map<int, CustomerRow>, terms: seq<string>): (r: map<int, CustomerRow>)
    ensures forall k :: k in r <==> k in m && MatchesAll(m[k], terms)
    ensures forall k :: k in r ==> r[k] == m[k]
  {
    map k | k in m && MatchesAll(m[k], terms) :: m[k]
  }

  /** What `searchCustomers(query)` returns over the rows of `m`: the plain
      listing for a blank query, and otherwise the matching rows listed
      `ORDER BY date DESC LIMIT 50`. */
  function SearchCustomers(m: map<int, CustomerRow>, query: Option<string>): seq<Customer>
  {
    if IsBlankQuery(query) then CustomerPage(m)
    else CustomerPage(Matching(m, SearchTerms(query.value)))
  }

  /** A query that is not blank yields at least one term; no term is empty,
      holds white space, and together the terms hold exactly the
      non-white-space characters of the lower-cased query. */
  lemma SearchTermsShape(query: string)
    requires Trim(query) != ""
    ensures var terms := SearchTerms(query);
      && |terms| >= 1
      && (forall i :: 0 <= i < |terms| ==> terms[i] != [] && NoSpace(terms[i]))
      && Concat(terms) == Unspaced(LowerAscii(Trim(query)))
  {
    var t := Trim(query);
    var l := LowerAscii(t);
    assert !IsSpace(l[0]) && !IsSpace(l[|l| - 1]);
    SplitWsFieldsNonEmpty(l);
    SplitWsFieldsUnspaced(l);
    SplitWsKeepsContent(l);
  }

  /** The terms are the words of the query: lower-case words separated by
      runs of white space, with white space around them, come back as the
      terms, one per word and in order. */
  lemma SearchTermsOfWords(pre: string, ws: seq<string>, seps: seq<string>, post: string)
    requires WordsAndSeparators(ws, seps) && forall i :: 0 <= i < |ws| ==> NoUpper(ws[i])
    requires forall j :: 0 <= j < |pre| ==> IsSpace(pre[j])
    requires forall j :: 0 <= j < |post| ==> IsSpace(post[j])
    ensures SearchTerms(pre + Joined(ws, seps) + post) == ws
  {
    TrimOfPadded(pre, ws, seps, post);
    JoinedNoUpper(ws, seps);
    LowerAsciiOfLower(Joined(ws, seps));
    SplitWsOfJoined(ws, seps);
  }

  /** Every customer a search returns matches every term in its name or
      phone, and the result is a correct listing of the matching rows:
      at most 50, latest first, none missing that is later than one shown. */
  lemma SearchCorrect(m: map<int, CustomerRow>, query: Option<string>)
    ensures IsBlankQuery(query) ==> IsCustomerPage(m, SearchCustomers(m, query))
    ensures !IsBlankQuery(query) ==>
      var terms := SearchTerms(query.value);
      var r := SearchCustomers(m, query);
      && IsCustomerPage(Matching(m, terms), r)
      && (forall i :: 0 <= i < |r| ==> CustomerStored(m, r[i]) && MatchesAll(CustomerRowOf(r[i]), terms))
  {
    if IsBlankQuery(query) {
      CustomerPageCorrect(m);
    } else {
      CustomerPageCorrect(Matching(m, SearchTerms(query.value)));
    }
  }

  /** The rows in which every term occurs in the lower-cased name or the
      lower-cased phone. */
  function Containing(m: map<int, CustomerRow>, terms: seq<string>): (r: map<int, CustomerRow>)
    ensures forall k :: k in r <==> k in m && forall i :: 0 <= i < |terms| ==>
      IsSubstring(terms[i], LowerAscii(m[k].name)) || IsSubstring(terms[i], LowerAscii(m[k].phone))
    ensures forall k :: k in r ==> r[k] == m[k]
  {
    map k | k in m && (forall i :: 0 <= i < |terms| ==>
      IsSubstring(terms[i], LowerAscii(m[k].name)) || IsSubstring(terms[i], LowerAscii(m[k].phone))) :: m[k]
  }

  /** For terms that hold neither `%` nor `_`, the `LIKE` conditions are
      exactly case-insensitive substring search, term by term, with AND
      across the terms and OR across the two columns. */
  lemma MatchingIsContaining(m: map<int, CustomerRow>, terms: seq<string>)
    requires forall i :: 0 <= i < |terms| ==> NoWildcards(terms[i])
    ensures Matching(m, terms) == Containing(m, terms)
  {
    forall k, i | k in m && 0 <= i < |terms|
      ensures TermMatches(m[k], terms[i]) <==>
        (IsSubstring(terms[i], LowerAscii(m[k].name)) || IsSubstring(terms[i], LowerAscii(m[k].phone)))
    {
      LikeContains(terms[i], LowerAscii(m[k].name));
      LikeContains(terms[i], LowerAscii(m[k].phone));
    }
    assert Matching(m, terms).Keys == Containing(m, terms).Keys;
  }

  /** A search whose terms hold no wildcard lists the rows containing every
      term. */
  lemma SearchBySubstring(m: map<int, CustomerRow>, query: string)
    requires Trim(query) != ""
    requires forall i :: 0 <= i < |SearchTerms(query)| ==> NoWildcards(SearchTerms(query)[i])
    ensures IsCustomerPage(Containing(m, SearchTerms(query)), SearchCustomers(m, Some(query)))
  {
    var terms := SearchTerms(query);
    assert !IsBlankQuery(Some(query));
    assert SearchCustomers(m, Some(query)) == CustomerPage(Matching(m, terms));
    MatchingIsContaining(m, terms);
    CustomerPageCorrect(Containing(m, terms));
  }
}
