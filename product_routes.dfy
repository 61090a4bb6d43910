/**
 * GET dispatch inside the products router. Express tries the routes in the
 * order they were registered and hands the request to the first whose path
 * pattern matches; `/:id` matches any single non-empty path segment.
 */
module ProductRoutes {
  import opened Wrappers
  import opened Records
  import opened ProductQueries

  /** The query string of a GET request: the list parameters and the search term `name`. */
  datatype GetQuery = GetQuery(list: ListQuery, name: Option<string>)

  /** The JSON a GET route answers with, or the failure it forwards. */
  datatype Response =
    | Listed(page: Page)
    | Found(record: Record)
    | Matches(records: seq<Record>)
    | Counts(counts: map<string, nat>)
    | Failed(error: Error)

  /** The path below the router's mount point: `/` is None, `/x` is Some(x) with x a non-empty segment. */
  predicate IsPath(segment: Option<string>)
  {
    segment.Some? ==> segment.value != ""
  }

  /** The `GET /:id` handler. */
  function ById(s: seq<Record>, id: string): (r: Response)
    ensures r.Found? || r == Failed(NotFound)
    ensures r.Found? <==> exists i :: 0 <= i < |s| && HasId(s[i], id)
    ensures r.Found? ==>
      exists i :: 0 <= i < |s| && s[i] == r.record && HasId(s[i], id) && forall j :: 0 <= j < i ==> !HasId(s[j], id)
  {
    match GetById(s, id)
    case Ok(p) => Found(p)
    case Err(e) => Failed(e)
  }

  /**
   * GET dispatch as registered: `/`, then `/:id`, then `/search`, then
   * `/stats`. Every one-segment path is taken by `/:id`.
   */
  function DispatchGetAsWritten(s: seq<Record>, segment: Option<string>, q: GetQuery): (r: Response)
    requires IsPath(segment)
    ensures segment.None? <==> r.Listed?
    ensures !r.Matches? && !r.Counts?
    ensures segment.Some? ==> (r.Found? <==> exists i :: 0 <= i < |s| && HasId(s[i], segment.value))
    ensures segment.Some? && r.Found? ==>
      exists i :: 0 <= i < |s| && s[i] == r.record && HasId(s[i], segment.value) && forall j :: 0 <= j < i ==> !HasId(s[j], segment.value)
    ensures segment.Some? && !r.Found? ==> r == Failed(NotFound)
  {
    match segment
    case None => Listed(ListProducts(s, q.list))
    case Some(x) => ById(s, x)
  }

  /**
   * GET dispatch with the two fixed paths registered before `/:id`, so that
   * each handler is reached by its own path.
   */
  function DispatchGet(s: seq<Record>, segment: Option<string>, q: GetQuery): (r: Response)
    requires IsPath(segment) && AllNamed(s) && AllCategorised(s)
    requires segment == Some("search") ==> q.name.Some?
  {
    match segment
    case None => Listed(ListProducts(s, q.list))
    case Some(x) =>
      if x == "search" then Matches(SearchByName(s, q.name.value))
      else if x == "stats" then Counts(CategoryCounts(s))
      else ById(s, x)
  }

  /**
   * As registered, `/search` and `/stats` are looked up as product ids: on a
   * collection with no record of those ids (the empty one, say) both answer
   * NotFound where their own handlers would answer.
   */
  lemma SearchAndStatsShadowed(s: seq<Record>, q: GetQuery)
    requires AllNamed(s) && AllCategorised(s) && q.name.Some?
    requires forall i :: 0 <= i < |s| ==> !HasId(s[i], "search") && !HasId(s[i], "stats")
    ensures DispatchGetAsWritten(s, Some("search"), q) == Failed(NotFound)
    ensures DispatchGetAsWritten(s, Some("stats"), q) == Failed(NotFound)
    ensures DispatchGet(s, Some("search"), q) != DispatchGetAsWritten(s, Some("search"), q)
    ensures DispatchGet(s, Some("stats"), q) != DispatchGetAsWritten(s, Some("stats"), q)
  {
  }

  /**
   * With the fixed order every GET handler is reachable: `/stats` answers
   * counts that cover every record once, `/search` with an empty term answers
   * every record, and every other path is answered as before.
   */
  lemma DispatchGetReachesEveryRoute(s: seq<Record>, segment: Option<string>, q: GetQuery)
    requires IsPath(segment) && AllNamed(s) && AllCategorised(s)
    ensures var r := DispatchGet(s, Some("stats"), q);
      r.Counts? && r.counts.Keys == Categories(s) && Total(r.counts) == |s|
    ensures q.name == Some("") ==> DispatchGet(s, Some("search"), q) == Matches(s)
    ensures segment != Some("search") && segment != Some("stats") ==>
      DispatchGet(s, segment, q) == DispatchGetAsWritten(s, segment, q)
  {
    CategoryCountsSumToLength(s);
    if q.name == Some("") {
      SearchEmptyTermFindsAll(s);
    }
  }
}
