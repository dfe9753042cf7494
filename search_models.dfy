/**
 * The request models of the committee search: the bounds and validators of
 * `CommitteeSearchRequest` and of `AutoSuggestionRequest`. A request that
 * fails them is refused before any search runs (None here).
 */
module SearchModels {
  import opened Wrappers
  import Dates

  /** An argument the caller either leaves out (the default applies, unvalidated) or gives. */
  datatype Arg<T> = Absent | Passed(value: T)

  datatype SortOrder = Asc | Desc

  /** The `SortOrder` enum accepts exactly its two values. */
  function ParseSortOrder(s: string): (r: Option<SortOrder>)
    ensures r == Some(Asc) <==> s == "asc"
    ensures r == Some(Desc) <==> s == "desc"
    ensures r.None? <==> s != "asc" && s != "desc"
  {
    if s == "asc" then Some(Asc) else if s == "desc" then Some(Desc) else None
  }

  const SortFields: seq<string> := ["id", "committeeNo", "committeeDate", "committeeTitle", "committeeBossName"]

  /** `validate_dates`: None, or a string that parses as `%Y-%m-%d`, kept unchanged. */
  function ValidateDate(v: Option<string>): (r: Option<Option<string>>)
    ensures r.Some? <==> v.None? || Dates.ParseYmd(v.value).Some?
    ensures r.Some? ==> r.value == v
  {
    if v.None? then Some(None)
    else if Dates.ParseYmd(v.value).Some? then Some(v)
    else None
  }

  /** `validate_sort_by`: only the listed columns; an explicit None is not one of them. */
  function ValidateSortBy(v: Option<string>): (r: Option<string>)
    ensures r.Some? <==> v.Some? && v.value in SortFields
    ensures r.Some? ==> r.value == v.value
  {
    if v.Some? && v.value in SortFields then Some(v.value) else None
  }

  /** A `CommitteeSearchRequest` that passed validation. */
  datatype SearchRequest = SearchRequest(
    committeeNo: Option<string>, dateFrom: Option<string>, dateTo: Option<string>,
    committeeTitle: Option<string>, committeeBossName: Option<string>,
    page: int, pageSize: int, sortBy: string, sortOrder: SortOrder)

  /** What every validated request satisfies. */
  predicate ValidRequest(q: SearchRequest) {
    && q.page >= 1 && 1 <= q.pageSize <= 100
    && q.sortBy in SortFields
    && (q.dateFrom.Some? ==> Dates.ParseYmd(q.dateFrom.value).Some?)
    && (q.dateTo.Some? ==> Dates.ParseYmd(q.dateTo.value).Some?)
    && (q.committeeTitle.Some? ==> |q.committeeTitle.value| >= 1)
    && (q.committeeBossName.Some? ==> |q.committeeBossName.value| >= 1)
  }

  /** Building a `CommitteeSearchRequest` from what the caller gives. */
  function MakeSearchRequest(committeeNo: Option<string>, dateFrom: Option<string>, dateTo: Option<string>,
                             committeeTitle: Option<string>, committeeBossName: Option<string>,
                             page: Arg<int>, pageSize: Arg<int>, sortBy: Arg<Option<string>>,
                             sortOrder: Arg<string>): (r: Option<SearchRequest>)
    ensures r.Some? ==> ValidRequest(r.value)
    ensures r.Some? <==>
              && ValidateDate(dateFrom).Some? && ValidateDate(dateTo).Some?
              && (committeeTitle.Some? ==> |committeeTitle.value| >= 1)
              && (committeeBossName.Some? ==> |committeeBossName.value| >= 1)
              && (page.Passed? ==> page.value >= 1)
              && (pageSize.Passed? ==> 1 <= pageSize.value <= 100)
              && (sortBy.Passed? ==> ValidateSortBy(sortBy.value).Some?)
              && (sortOrder.Passed? ==> ParseSortOrder(sortOrder.value).Some?)
    ensures r.Some? ==>
              && r.value.page == (if page.Passed? then page.value else 1)
              && r.value.pageSize == (if pageSize.Passed? then pageSize.value else 10)
              && r.value.sortBy == (if sortBy.Passed? then sortBy.value.value else "id")
              && r.value.sortOrder == (if sortOrder.Passed? then ParseSortOrder(sortOrder.value).value else Desc)
              && r.value.committeeNo == committeeNo && r.value.dateFrom == dateFrom && r.value.dateTo == dateTo
  {
    var p := if page.Passed? then page.value else 1;
    var size := if pageSize.Passed? then pageSize.value else 10;
    var order := if sortOrder.Passed? then ParseSortOrder(sortOrder.value) else Some(Desc);
    var col := if sortBy.Passed? then ValidateSortBy(sortBy.value) else Some("id");
    if ValidateDate(dateFrom).None? || ValidateDate(dateTo).None? then None
    else if committeeTitle.Some? && |committeeTitle.value| < 1 then None
    else if committeeBossName.Some? && |committeeBossName.value| < 1 then None
    else if p < 1 || size < 1 || size > 100 then None
    else if col.None? || order.None? then None
    else Some(SearchRequest(committeeNo, dateFrom, dateTo, committeeTitle, committeeBossName, p, size, col.value, order.value))
  }

  /** With nothing given, the request is the first page of ten, newest id first. */
  lemma SearchDefaults()
    ensures MakeSearchRequest(None, None, None, None, None, Absent, Absent, Absent, Absent)
         == Some(SearchRequest(None, None, None, None, None, 1, 10, "id", Desc))
  {
  }

  /** An explicit null `sort_by` is refused, although leaving it out is not. */
  lemma ExplicitNullSortByRefused()
    ensures MakeSearchRequest(None, None, None, None, None, Absent, Absent, Passed(None), Absent).None?
  {
  }

  /** A validated `AutoSuggestionRequest`. */
  datatype SuggestionRequest = SuggestionRequest(query: string, limit: int)

  function MakeSuggestionRequest(query: string, limit: Arg<int>): (r: Option<SuggestionRequest>)
    ensures r.Some? <==> 1 <= |query| <= 100 && (limit.Passed? ==> 1 <= limit.value <= 20)
    ensures r.Some? ==> r.value.query == query && 1 <= r.value.limit <= 20
    ensures r.Some? && limit.Absent? ==> r.value.limit == 5
  {
    var l := if limit.Passed? then limit.value else 5;
    if 1 <= |query| <= 100 && 1 <= l <= 20 then Some(SuggestionRequest(query, l)) else None
  }
}
