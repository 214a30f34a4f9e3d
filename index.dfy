/**
 * The INDEX route (GET "/"): which query is sent to the listing store and
 * which response is produced, as a function of the search term, the
 * script-request flag and what the store returns.
 */
module Index {
  import opened Wrappers
  import opened Models
  import opened Escape

  /** A compiled regular expression: its source text and its flags. */
  datatype Pattern = Pattern(source: string, flags: string)

  /** The filter passed to the store's find: everything, or names matching a pattern. */
  datatype Query = MatchAll | NameMatches(pattern: Pattern)

  /** What the handler reads from the request: the search parameter and whether it is a script request. */
  datatype Request = Request(search: Option<string>, xhr: bool)

  /**
   * The listing collection: its records as one sequence, and whether a find
   * succeeds. The store promises no order; taking every find as a filter of
   * this one sequence is an assumption of the model.
   */
  datatype Collection = Collection(records: seq<Blog>, reachable: bool)

  /** The response the handler produces; NoResponse when it only logs an error. */
  datatype Response =
    | FilteredJson(status: nat, listings: seq<Blog>)
    | AllJson(listings: seq<Blog>)
    | Render(view: string, listings: seq<Blog>, page: string)
    | NoResponse

  datatype Outcome = Outcome(query: Query, response: Response)

  /** A search parameter counts as given when it is present and not the empty string. */
  predicate Truthy(search: Option<string>)
  {
    search.Some? && search.value != ""
  }

  /**
   * The query the handler issues. The search term is only used for script
   * requests, and then only after escaping, so the pattern reads back as
   * exactly the term, with case-insensitive global flags.
   */
  function IndexQuery(req: Request): (q: Query)
    ensures q.NameMatches? <==> Truthy(req.search) && req.xhr
    ensures q.NameMatches? ==>
      Unescape(q.pattern.source) == Some(req.search.value) && q.pattern.flags == "gi"
  {
    if Truthy(req.search) && req.xhr then
      UnescapeEscape(req.search.value);
      NameMatches(Pattern(EscapeRegex(req.search.value), "gi"))
    else
      MatchAll
  }

  /** Whether a record passes a query, given the regular-expression engine's verdict on names. */
  predicate Selects(q: Query, matches: (Pattern, string) -> bool, b: Blog)
  {
    q.MatchAll? || matches(q.pattern, b.name)
  }

  /** r can be obtained from s by deleting elements, keeping the order of the rest. */
  predicate IsSubsequence(r: seq<Blog>, s: seq<Blog>)
    decreases |s|
  {
    if r == [] then true
    else if s == [] then false
    else if r[0] == s[0] then IsSubsequence(r[1..], s[1..])
    else IsSubsequence(r, s[1..])
  }

  /** Allowing one more leading element keeps a subsequence a subsequence. */
  lemma {:induction false} SubsequenceCons(r: seq<Blog>, x: Blog, s: seq<Blog>)
    requires IsSubsequence(r, s)
    ensures IsSubsequence(r, [x] + s)
    decreases |s|, 1
  {
    assert ([x] + s)[1..] == s;
    if r != [] && r[0] == x {
      SubsequenceDropHead(r, s);
    }
  }

  /** Removing the first element of a subsequence leaves a subsequence. */
  lemma {:induction false} SubsequenceDropHead(r: seq<Blog>, s: seq<Blog>)
    requires r != [] && IsSubsequence(r, s)
    ensures IsSubsequence(r[1..], s)
    decreases |s|, 0
  {
    assert [s[0]] + s[1..] == s;
    if r[0] == s[0] {
      SubsequenceCons(r[1..], s[0], s[1..]);
    } else {
      SubsequenceDropHead(r, s[1..]);
      SubsequenceCons(r[1..], s[0], s[1..]);
    }
  }

  /** A subsequence holds no element more often than the sequence it is taken from. */
  lemma {:induction false} SubsequenceCounts(r: seq<Blog>, s: seq<Blog>)
    requires IsSubsequence(r, s)
    ensures multiset(r) <= multiset(s)
    decreases |s|
  {
    if r != [] {
      assert [s[0]] + s[1..] == s;
      if r[0] == s[0] {
        SubsequenceCounts(r[1..], s[1..]);
        assert [r[0]] + r[1..] == r;
      } else {
        SubsequenceCounts(r, s[1..]);
      }
    }
  }

  /** r holds each record passing q exactly as often as records does, and nothing else. */
  ghost predicate SameSelection(r: seq<Blog>, records: seq<Blog>, q: Query, matches: (Pattern, string) -> bool)
  {
    forall b :: multiset(r)[b] == if Selects(q, matches, b) then multiset(records)[b] else 0
  }

  /** The store's find: the records passing the query, each as often as it is stored, in the order of the modelled sequence. */
  function Find(records: seq<Blog>, q: Query, matches: (Pattern, string) -> bool): (r: seq<Blog>)
    ensures |r| <= |records|
    ensures IsSubsequence(r, records)
    ensures SameSelection(r, records, q, matches)
    ensures forall b :: b in r ==> b in records && Selects(q, matches, b)
    ensures forall b :: b in records && Selects(q, matches, b) ==> b in r
    ensures q.MatchAll? ==> r == records
  {
    if records == [] then []
    else
      var rest := Find(records[1..], q, matches);
      var r := if Selects(q, matches, records[0]) then [records[0]] + rest else rest;
      FindStep(records, q, matches, rest);
      SelectionMembership(r, records, q, matches);
      SubsequenceCounts(r, records);
      assert |multiset(r)| <= |multiset(records)|;
      assert q.MatchAll? ==> [records[0]] + records[1..] == records;
      r
  }

  /** One step of Find: putting the first record in front when it passes keeps both properties. */
  lemma FindStep(records: seq<Blog>, q: Query, matches: (Pattern, string) -> bool, rest: seq<Blog>)
    requires records != []
    requires IsSubsequence(rest, records[1..]) && SameSelection(rest, records[1..], q, matches)
    ensures var r := if Selects(q, matches, records[0]) then [records[0]] + rest else rest;
      IsSubsequence(r, records) && SameSelection(r, records, q, matches)
  {
    var x, s := records[0], records[1..];
    assert [x] + s == records;
    assert multiset(records) == multiset{x} + multiset(s);
    if Selects(q, matches, x) {
      assert ([x] + rest)[1..] == rest;
      assert multiset([x] + rest) == multiset{x} + multiset(rest);
    } else {
      SubsequenceCons(rest, x, s);
    }
  }

  /** A record occurs in a selection exactly when it is stored and passes. */
  lemma SelectionMembership(r: seq<Blog>, records: seq<Blog>, q: Query, matches: (Pattern, string) -> bool)
    requires SameSelection(r, records, q, matches)
    ensures forall b :: b in r ==> b in records && Selects(q, matches, b)
    ensures forall b :: b in records && Selects(q, matches, b) ==> b in r
  {
    forall b | b in r ensures b in records && Selects(q, matches, b) {
      assert multiset(r)[b] > 0;
    }
    forall b | b in records && Selects(q, matches, b) ensures b in r {
      assert multiset(records)[b] > 0;
    }
  }

  /**
   * Find's contract determines its result: the only subsequence of the
   * records that holds each passing record as often as it is stored, and
   * no other record, is Find's.
   */
  lemma {:induction false} FindUnique(records: seq<Blog>, q: Query, matches: (Pattern, string) -> bool, r: seq<Blog>)
    requires IsSubsequence(r, records)
    requires SameSelection(r, records, q, matches)
    ensures r == Find(records, q, matches)
    decreases |records|
  {
    if records == [] {
      assert r == [];
    } else if r == [] {
      FindEmptySelection(records, q, matches);
    } else {
      var x, s := records[0], records[1..];
      assert [x] + s == records;
      if r[0] == x {
        FindUniqueHead(records, q, matches, r);
        FindUnique(s, q, matches, r[1..]);
      } else {
        FindUniqueSkip(records, q, matches, r);
        FindUnique(s, q, matches, r);
      }
    }
  }

  /** When nothing passes, Find returns nothing. */
  lemma FindEmptySelection(records: seq<Blog>, q: Query, matches: (Pattern, string) -> bool)
    requires SameSelection([], records, q, matches)
    ensures Find(records, q, matches) == []
  {
    assert forall b :: multiset(Find(records, q, matches))[b] == 0;
  }

  /** Step of FindUnique where r starts with the first record. */
  lemma FindUniqueHead(records: seq<Blog>, q: Query, matches: (Pattern, string) -> bool, r: seq<Blog>)
    requires records != [] && r != [] && r[0] == records[0]
    requires IsSubsequence(r, records)
    requires SameSelection(r, records, q, matches)
    ensures Selects(q, matches, records[0])
    ensures IsSubsequence(r[1..], records[1..])
    ensures SameSelection(r[1..], records[1..], q, matches)
    ensures Find(records, q, matches) == [records[0]] + Find(records[1..], q, matches)
  {
    var x, s := records[0], records[1..];
    assert [x] + s == records;
    assert [r[0]] + r[1..] == r;
    assert multiset(records) == multiset{x} + multiset(s);
    assert multiset(r) == multiset{x} + multiset(r[1..]);
    assert multiset(r)[x] > 0;
    forall b ensures multiset(r[1..])[b] == if Selects(q, matches, b) then multiset(s)[b] else 0 {
      assert multiset(r)[b] == if Selects(q, matches, b) then multiset(records)[b] else 0;
    }
  }

  /** Step of FindUnique where r does not start with the first record. */
  lemma FindUniqueSkip(records: seq<Blog>, q: Query, matches: (Pattern, string) -> bool, r: seq<Blog>)
    requires records != [] && r != [] && r[0] != records[0]
    requires IsSubsequence(r, records)
    requires SameSelection(r, records, q, matches)
    ensures !Selects(q, matches, records[0])
    ensures IsSubsequence(r, records[1..])
    ensures SameSelection(r, records[1..], q, matches)
    ensures Find(records, q, matches) == Find(records[1..], q, matches)
  {
    var x, s := records[0], records[1..];
    assert [x] + s == records;
    assert multiset(records) == multiset{x} + multiset(s);
    SubsequenceCounts(r, s);
    assert multiset(r)[x] <= multiset(s)[x];
    assert multiset(r)[x] == if Selects(q, matches, x) then multiset(records)[x] else 0;
    forall b ensures multiset(r)[b] == if Selects(q, matches, b) then multiset(s)[b] else 0 {
      assert multiset(r)[b] == if Selects(q, matches, b) then multiset(records)[b] else 0;
    }
  }

  /**
   * The INDEX handler. A store error only gets logged, in every branch, and
   * no response is sent. Otherwise a script request with a search term gets
   * status 200 and exactly the matching listings; any other script request
   * gets every listing; a browser request gets the listings page with every
   * listing and the page tag "blogs", whether or not a term was given.
   */
  function IndexHandler(req: Request, coll: Collection, matches: (Pattern, string) -> bool): (out: Outcome)
    ensures out.query.NameMatches? <==> Truthy(req.search) && req.xhr
    ensures out.query.NameMatches? ==>
      Unescape(out.query.pattern.source) == Some(req.search.value) && out.query.pattern.flags == "gi"
    ensures out.response.NoResponse? <==> !coll.reachable
    ensures out.response.FilteredJson? <==> coll.reachable && Truthy(req.search) && req.xhr
    ensures out.response.FilteredJson? ==>
      && out.response.status == 200
      && out.response.listings == Find(coll.records, out.query, matches)
      && IsSubsequence(out.response.listings, coll.records)
      && (forall b :: multiset(out.response.listings)[b] ==
            if matches(out.query.pattern, b.name) then multiset(coll.records)[b] else 0)
    ensures out.response.AllJson? <==> coll.reachable && req.xhr && !Truthy(req.search)
    ensures out.response.Render? <==> coll.reachable && !req.xhr
    ensures (out.response.AllJson? || out.response.Render?) ==> out.response.listings == coll.records
    ensures out.response.Render? ==> out.response.view == "blogs/index" && out.response.page == "blogs"
  {
    var q := IndexQuery(req);
    var response :=
      if !coll.reachable then NoResponse
      else
        var found := Find(coll.records, q, matches);
        if q.NameMatches? then FilteredJson(200, found)
        else if req.xhr then AllJson(found)
        else Render("blogs/index", found, "blogs");
    Outcome(q, response)
  }

  /** For a browser request the search term makes no difference at all. */
  lemma BrowserIgnoresSearch(s1: Option<string>, s2: Option<string>, coll: Collection, matches: (Pattern, string) -> bool)
    ensures IndexHandler(Request(s1, false), coll, matches) == IndexHandler(Request(s2, false), coll, matches)
  {
  }

  /** Without a term, a script request gets the same listings as a browser request, in the same order. */
  lemma ScriptAndBrowserAgreeWithoutTerm(search: Option<string>, coll: Collection, matches: (Pattern, string) -> bool)
    requires !Truthy(search) && coll.reachable
    ensures IndexHandler(Request(search, true), coll, matches).response.listings
         == IndexHandler(Request(search, false), coll, matches).response.listings
  {
  }
}
