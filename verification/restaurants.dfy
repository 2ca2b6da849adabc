/**
  The two restaurant endpoints of app.py, over an abstract record store.

  The store is a sequence of records, each a map from field name to value.
  A recommendation lookup parses its query into criteria, keeps the stored
  records that agree with every criterion, and returns each one cut down to
  the six summary fields. Creating a restaurant checks that the body has the
  six fields and appends a record made of exactly those fields.
 */
module Restaurants {
  import opened Wrappers
  import opened Parser

  /** A stored document: field name to value. */
  type Record = map<string, string>

  /** The fields a new restaurant must supply, in the source's order; they
      are also exactly the fields a recommendation carries. */
  const SummaryFields: seq<string> := ["name", "style", "address", "openHour", "closeHour", "vegetarian"]

  const NoQueryMessage := "Query parameters not provided"
  const InvalidQueryMessage := "Invalid query parameters"
  const NotFoundMessage := "No restaurants found matching the criteria"
  const IncompleteMessage := "Incomplete data"
  const UnauthorizedMessage := "Unauthorized"

  /** The outcome of a request, one alternative per status the endpoints
      return: 200 with the recommendations, 201, 400, 403, 404, and 500
      from the generic error handler. */
  datatype Response =
    | Recommendations(items: seq<Record>)
    | Created
    | BadRequest(message: string)
    | Forbidden(message: string)
    | NotFound(message: string)
    | ServerError

  predicate HasSummaryFields(r: Record) {
    forall f :: f in SummaryFields ==> f in r
  }

  /** The record cut down to the six summary fields. */
  function Summary(r: Record): (s: Record)
    requires HasSummaryFields(r)
    ensures s.Keys == set f | f in SummaryFields
    ensures forall f :: f in s ==> s[f] == r[f]
  {
    map f | f in SummaryFields :: r[f]
  }

  /** Every criterion holds of the record as a field equality; a record
      without the field fails that criterion. */
  predicate Satisfies(r: Record, c: Criteria) {
    forall k :: k in c ==> k in r && r[k] == c[k]
  }

  /** The store records that satisfy the criteria: the conjunctive equality
      query `SELECT * FROM c WHERE c.k1 = 'v1' AND ...`. */
  function Matching(store: seq<Record>, c: Criteria): (m: seq<Record>)
    ensures forall r :: multiset(m)[r] == (if Satisfies(r, c) then multiset(store)[r] else 0)
  {
    if store == [] then []
    else
      assert store == [store[0]] + store[1..];
      var rest := Matching(store[1..], c);
      if Satisfies(store[0], c) then [store[0]] + rest else rest
  }

  /** A record is among the matches exactly when it is in the store and
      satisfies the criteria. */
  lemma MatchingMembers(store: seq<Record>, c: Criteria)
    ensures forall r :: r in Matching(store, c) <==> r in store && Satisfies(r, c)
  {
    var m := Matching(store, c);
    forall r
      ensures r in m <==> r in store && Satisfies(r, c)
    {
      assert r in m <==> multiset(m)[r] > 0;
      assert r in store <==> multiset(store)[r] > 0;
    }
  }

  /** The summaries of all matches, or None when a match lacks one of the
      summary fields (the source's field lookup then fails). */
  function Summaries(matches: seq<Record>): (r: Option<seq<Record>>)
    ensures r.Some? <==> forall j :: 0 <= j < |matches| ==> HasSummaryFields(matches[j])
    ensures r.Some? ==> |r.value| == |matches|
    ensures r.Some? ==> forall j :: 0 <= j < |matches| ==>
                          HasSummaryFields(matches[j]) && r.value[j] == Summary(matches[j])
  {
    if matches == [] then Some([])
    else if !HasSummaryFields(matches[0]) then None
    else
      match Summaries(matches[1..])
      case None => None
      case Some(rest) => Some([Summary(matches[0])] + rest)
  }

  /** The `q` parameter is present and not empty. */
  predicate HasQuery(q: Option<string>) {
    q.Some? && q.value != ""
  }

  /** The store side of `get_recommendations`: filter the store by the
      criteria, answer not-found when nothing matches, otherwise project
      every match onto the summary fields. */
  function Lookup(store: seq<Record>, c: Criteria): (resp: Response)
    ensures resp.Recommendations? || resp.NotFound? || resp.ServerError?
    // nothing in the store meets every criterion
    ensures resp.NotFound? <==> forall r :: r in store ==> !Satisfies(r, c)
    ensures resp.NotFound? ==> resp.message == NotFoundMessage
    // a match without all summary fields cannot be projected
    ensures resp.ServerError? <==> exists r :: r in store && Satisfies(r, c) && !HasSummaryFields(r)
    ensures resp.Recommendations? ==> |resp.items| > 0
  {
    var results := Matching(store, c);
    MatchingMembers(store, c);
    SummariesFailIff(results);
    if results == [] then
      assert forall r :: r in store ==> !Satisfies(r, c);
      NotFound(NotFoundMessage)
    else
      assert results[0] in results;
      match Summaries(results)
      case None => ServerError
      case Some(items) => Recommendations(items)
  }

  /** Projection fails exactly when some match lacks a summary field. */
  lemma SummariesFailIff(matches: seq<Record>)
    ensures Summaries(matches).None? <==> exists r :: r in matches && !HasSummaryFields(r)
  {
    if Summaries(matches).None? {
      var j :| 0 <= j < |matches| && !HasSummaryFields(matches[j]);
      assert matches[j] in matches;
    }
  }

  /** `get_recommendations`: check the query, parse it, and look the
      criteria up in the store. */
  function GetRecommendations(q: Option<string>, store: seq<Record>): (resp: Response)
    // a missing or empty query is refused before parsing, whatever the store holds
    ensures !HasQuery(q) ==> resp == BadRequest(NoQueryMessage)
    // a query with no recognised criteria is refused before the store is consulted
    ensures HasQuery(q) && ParseCriteria(q.value) == map[] ==> resp == BadRequest(InvalidQueryMessage)
    // the store is consulted only for a query with criteria, and then decides the answer
    ensures HasQuery(q) && ParseCriteria(q.value) != map[] ==> resp == Lookup(store, ParseCriteria(q.value))
    ensures resp.BadRequest? <==> !HasQuery(q) || ParseCriteria(q.value) == map[]
  {
    if !HasQuery(q) then BadRequest(NoQueryMessage)
    else
      var c := ParseCriteria(q.value);
      if c == map[] then BadRequest(InvalidQueryMessage)
      else Lookup(store, c)
  }

  /** `create_restaurant`: refuse callers without the creator role, refuse
      bodies missing a summary field, otherwise append the summary of the
      body to the store. Returns the response and the new store. */
  function CreateRestaurant(authorized: bool, data: Record, store: seq<Record>): (out: (Response, seq<Record>))
    ensures out.0 == Created <==> authorized && HasSummaryFields(data)
    ensures !authorized ==> out == (Forbidden(UnauthorizedMessage), store)
    ensures authorized && !HasSummaryFields(data) ==> out == (BadRequest(IncompleteMessage), store)
    ensures out.0 == Created ==>
              && |out.1| == |store| + 1
              && out.1[..|store|] == store
              && out.1[|store|].Keys == (set f | f in SummaryFields)
              && forall f :: f in SummaryFields ==> out.1[|store|][f] == data[f]
  {
    if !authorized then (Forbidden(UnauthorizedMessage), store)
    else if !HasSummaryFields(data) then (BadRequest(IncompleteMessage), store)
    else (Created, store + [Summary(data)])
  }

  /** The matches a successful lookup is built from: every recommendation
      is the summary of the match in the same position. */
  lemma SuccessIsSummaries(store: seq<Record>, c: Criteria)
    requires Lookup(store, c).Recommendations?
    ensures Summaries(Matching(store, c)) == Some(Lookup(store, c).items)
  {
  }

  /** Soundness: every recommendation is the summary of a stored record that
      meets every criterion. */
  lemma RecommendationsAreSound(store: seq<Record>, c: Criteria)
    requires Lookup(store, c).Recommendations?
    ensures var items := Lookup(store, c).items;
            forall j :: 0 <= j < |items| ==>
              exists r :: r in store && Satisfies(r, c) && HasSummaryFields(r) && items[j] == Summary(r)
  {
    var items := Lookup(store, c).items;
    var results := Matching(store, c);
    SuccessIsSummaries(store, c);
    MatchingMembers(store, c);
    forall j | 0 <= j < |items|
      ensures exists r :: r in store && Satisfies(r, c) && HasSummaryFields(r) && items[j] == Summary(r)
    {
      assert results[j] in results;
    }
  }

  /** Completeness: every stored record that meets every criterion is
      recommended. */
  lemma RecommendationsAreComplete(store: seq<Record>, c: Criteria)
    requires Lookup(store, c).Recommendations?
    ensures var items := Lookup(store, c).items;
            forall r :: r in store && Satisfies(r, c) ==> HasSummaryFields(r) && Summary(r) in items
  {
    var items := Lookup(store, c).items;
    var results := Matching(store, c);
    SuccessIsSummaries(store, c);
    MatchingMembers(store, c);
    forall r | r in store && Satisfies(r, c)
      ensures HasSummaryFields(r) && Summary(r) in items
    {
      var j :| 0 <= j < |results| && results[j] == r;
      assert items[j] == Summary(r);
    }
  }

  /** Every recommendation carries exactly the six summary fields and agrees
      with every criterion on the ones it carries. */
  lemma RecommendationsHaveSummaryShape(store: seq<Record>, c: Criteria)
    requires Lookup(store, c).Recommendations?
    ensures var items := Lookup(store, c).items;
            forall j :: 0 <= j < |items| ==>
              && items[j].Keys == (set f | f in SummaryFields)
              && forall k :: k in c && k in items[j] ==> items[j][k] == c[k]
  {
    var items := Lookup(store, c).items;
    var results := Matching(store, c);
    SuccessIsSummaries(store, c);
    MatchingMembers(store, c);
    forall j | 0 <= j < |items|
      ensures forall k :: k in c && k in items[j] ==> items[j][k] == c[k]
    {
      assert results[j] in results;
    }
  }

  /** A restaurant created through the endpoint holds only the summary
      fields, so no query that parses to a dietary option other than
      `vegetarian`, or to `delivery`, ever matches it. */
  lemma CreatedMissesUnprojectedCriteria(data: Record, c: Criteria)
    requires HasSummaryFields(data)
    requires exists k :: k in c && k !in SummaryFields
    ensures !Satisfies(Summary(data), c)
  {
  }

  /** When every stored record that satisfies the criteria carries the
      summary fields, criteria that some stored record satisfies are
      answered with recommendations, and that record is among them. Records
      the criteria reject may lack any field. */
  lemma SatisfyingRecordIsRecommended(store: seq<Record>, c: Criteria, r: Record)
    requires forall r' :: r' in store && Satisfies(r', c) ==> HasSummaryFields(r')
    requires r in store && Satisfies(r, c)
    ensures Lookup(store, c).Recommendations? && Summary(r) in Lookup(store, c).items
  {
    RecommendationsAreComplete(store, c);
  }

  /** A restaurant just created is recommended for any criteria it meets,
      provided every stored record that meets them can be summarised. */
  lemma CreatedIsRecommended(data: Record, store: seq<Record>, c: Criteria)
    requires HasSummaryFields(data)
    requires forall r :: r in store && Satisfies(r, c) ==> HasSummaryFields(r)
    requires Satisfies(Summary(data), c)
    ensures var resp := Lookup(CreateRestaurant(true, data, store).1, c);
            resp.Recommendations? && Summary(data) in resp.items
  {
    var store' := CreateRestaurant(true, data, store).1;
    var s := Summary(data);
    assert store' == store + [s];
    assert Summary(s) == s;
    SatisfyingRecordIsRecommended(store', c, s);
  }
}
