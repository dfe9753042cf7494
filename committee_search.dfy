/**
 * The committee search service: the filters `_build_filters` appends for a
 * validated search request, the one combined filter both the count query and
 * the page query use, the page arithmetic of the response, the sort direction,
 * and the auto-suggestion lists for titles and boss names.
 *
 * The table is a sequence of records in the order the database returns them
 * for the chosen sort; what that order is, is not modelled.
 */
module CommitteeSearch {
  import opened Wrappers
  import opened Text
  import Dates
  import opened SearchModels
  import opened CommitteeService

  // ---------------------------------------------------------------------------
  // Filters (`_build_filters`)

  /** One filter of the search query. */
  datatype SearchFilter =
    | NoIs(no: string)
    | DateFrom(start: Dates.Date)
    | DateTo(end: Dates.Date)
    | TitleHas(pattern: string)
    | BossHas(pattern: string)

  /** A truthy, not blank text parameter (`x and x.strip()`). */
  predicate HasText(s: Option<string>) { s.Some? && Trim(s.value) != "" }

  function NoPart(q: SearchRequest): seq<SearchFilter> {
    if Given(q.committeeNo) then [NoIs(q.committeeNo.value)] else []
  }

  function FromPart(q: SearchRequest): seq<SearchFilter>
    requires ValidRequest(q)
  {
    if Given(q.dateFrom) then [DateFrom(Dates.ParseYmd(q.dateFrom.value).value)] else []
  }

  function ToPart(q: SearchRequest): seq<SearchFilter>
    requires ValidRequest(q)
  {
    if Given(q.dateTo) then [DateTo(Dates.ParseYmd(q.dateTo.value).value)] else []
  }

  function TitlePart(q: SearchRequest): seq<SearchFilter> {
    if HasText(q.committeeTitle) then [TitleHas(Trim(q.committeeTitle.value))] else []
  }

  function BossPart(q: SearchRequest): seq<SearchFilter> {
    if HasText(q.committeeBossName) then [BossHas(Trim(q.committeeBossName.value))] else []
  }

  /** The filters of a request, in the order they are appended: at most one per parameter. */
  function SearchFilters(q: SearchRequest): (r: seq<SearchFilter>)
    requires ValidRequest(q)
    ensures |r| <= 5
    ensures r == [] <==>
              !Given(q.committeeNo) && !Given(q.dateFrom) && !Given(q.dateTo)
              && !HasText(q.committeeTitle) && !HasText(q.committeeBossName)
  {
    NoPart(q) + FromPart(q) + ToPart(q) + TitlePart(q) + BossPart(q)
  }

  /** The step-by-step `filters.append` of `_build_filters`. */
  method BuildFilters(q: SearchRequest) returns (filters: seq<SearchFilter>)
    requires ValidRequest(q)
    ensures filters == SearchFilters(q)
  {
    filters := [];
    if Given(q.committeeNo) {
      filters := filters + [NoIs(q.committeeNo.value)];
    }
    assert filters == NoPart(q);
    if Given(q.dateFrom) {
      filters := filters + [DateFrom(Dates.ParseYmd(q.dateFrom.value).value)];
    }
    assert filters == NoPart(q) + FromPart(q);
    if Given(q.dateTo) {
      filters := filters + [DateTo(Dates.ParseYmd(q.dateTo.value).value)];
    }
    assert filters == NoPart(q) + FromPart(q) + ToPart(q);
    if HasText(q.committeeTitle) {
      filters := filters + [TitleHas(Trim(q.committeeTitle.value))];
    }
    assert filters == NoPart(q) + FromPart(q) + ToPart(q) + TitlePart(q);
    if HasText(q.committeeBossName) {
      filters := filters + [BossHas(Trim(q.committeeBossName.value))];
    }
  }

  /** Whether a row passes one filter: SQL comparisons with a NULL column fail, and
    * `ilike '%p%'` is a case-insensitive substring test. */
  predicate Matches(f: SearchFilter, row: Record) {
    match f
    case NoIs(no) => Column(row, "committeeNo") == VStr(no)
    case DateFrom(s) => Column(row, "committeeDate").VDate? && Dates.NotAfter(s, Column(row, "committeeDate").d)
    case DateTo(e) => Column(row, "committeeDate").VDate? && Dates.NotAfter(Column(row, "committeeDate").d, e)
    case TitleHas(p) => Column(row, "committeeTitle").VStr? && Contains(ToLower(Column(row, "committeeTitle").s), ToLower(p))
    case BossHas(p) => Column(row, "committeeBossName").VStr? && Contains(ToLower(Column(row, "committeeBossName").s), ToLower(p))
  }

  /** `and_(*filters)`, and no `where` at all for an empty list. */
  predicate MatchesAll(fs: seq<SearchFilter>, row: Record) {
    forall i :: 0 <= i < |fs| ==> Matches(fs[i], row)
  }

  lemma MatchesAllAppend(a: seq<SearchFilter>, b: seq<SearchFilter>, row: Record)
    ensures MatchesAll(a + b, row) <==> MatchesAll(a, row) && MatchesAll(b, row)
  {
    var ab := a + b;
    assert forall i :: 0 <= i < |a| ==> ab[i] == a[i];
    assert forall i :: 0 <= i < |b| ==> ab[|a| + i] == b[i];
    assert forall i :: |a| <= i < |ab| ==> ab[i] == b[i - |a|];
  }

  lemma MatchesAllSingle(f: SearchFilter, row: Record)
    ensures MatchesAll([f], row) <==> Matches(f, row)
  {
    assert [f][0] == f;
  }

  /** What the filter list of a request selects: each given parameter constrains its own
    * column, the two dates bound the committee date from both sides, and a request with no
    * parameter selects every row. */
  lemma {:induction false} SearchFilterMeaning(q: SearchRequest, row: Record)
    requires ValidRequest(q)
    ensures MatchesAll(SearchFilters(q), row) <==>
      && (Given(q.committeeNo) ==> Column(row, "committeeNo") == VStr(q.committeeNo.value))
      && (Given(q.dateFrom) ==>
            Column(row, "committeeDate").VDate?
            && Dates.NotAfter(Dates.ParseYmd(q.dateFrom.value).value, Column(row, "committeeDate").d))
      && (Given(q.dateTo) ==>
            Column(row, "committeeDate").VDate?
            && Dates.NotAfter(Column(row, "committeeDate").d, Dates.ParseYmd(q.dateTo.value).value))
      && (HasText(q.committeeTitle) ==> Matches(TitleHas(Trim(q.committeeTitle.value)), row))
      && (HasText(q.committeeBossName) ==> Matches(BossHas(Trim(q.committeeBossName.value)), row))
  {
    var a, b, c, d, e := NoPart(q), FromPart(q), ToPart(q), TitlePart(q), BossPart(q);
    MatchesAllAppend(a + b + c + d, e, row);
    MatchesAllAppend(a + b + c, d, row);
    MatchesAllAppend(a + b, c, row);
    MatchesAllAppend(a, b, row);
    if Given(q.committeeNo) { MatchesAllSingle(a[0], row); }
    if Given(q.dateFrom) { MatchesAllSingle(b[0], row); }
    if Given(q.dateTo) { MatchesAllSingle(c[0], row); }
    if HasText(q.committeeTitle) { MatchesAllSingle(d[0], row); }
    if HasText(q.committeeBossName) { MatchesAllSingle(e[0], row); }
  }

  /** The rows the combined filter selects, in table order. */
  function Selected(rows: seq<Record>, fs: seq<SearchFilter>): (r: seq<Record>)
    ensures |r| <= |rows|
    ensures forall x :: x in r <==> x in rows && MatchesAll(fs, x)
  {
    if rows == [] then []
    else (if MatchesAll(fs, rows[0]) then [rows[0]] else []) + Selected(rows[1..], fs)
  }

  lemma {:induction false} NoFiltersSelectAll(rows: seq<Record>)
    ensures Selected(rows, []) == rows
  {
    if rows != [] {
      NoFiltersSelectAll(rows[1..]);
    }
  }

  // ---------------------------------------------------------------------------
  // Sorting (`_apply_sorting`)

  /** The `order_by` of the page query: the requested column, descending exactly when the
    * order is "desc". */
  datatype Ordering = Ordering(column: string, descending: bool)

  function ApplySorting(sortBy: string, sortOrder: SortOrder): (o: Ordering)
    ensures o.column == sortBy
    ensures o.descending <==> sortOrder == Desc
  {
    Ordering(sortBy, sortOrder == Desc)
  }

  /** Left to its defaults, a search lists the highest id first. */
  lemma DefaultOrderingNewestFirst()
    ensures var q := MakeSearchRequest(None, None, None, None, None, Absent, Absent, Absent, Absent).value;
      ApplySorting(q.sortBy, q.sortOrder) == Ordering("id", true)
  {
    SearchDefaults();
  }

  // ---------------------------------------------------------------------------
  // The response (`search_committees`)

  datatype SearchResponse = SearchResponse(
    data: seq<Record>, total: nat, page: int, pageSize: int, totalPages: int,
    hasNext: bool, hasPrevious: bool)

  /** `query.offset(offset).limit(page_size)` over the selected rows. */
  function Window(rows: seq<Record>, offset: int, size: int): (r: seq<Record>)
    requires offset >= 0 && size >= 0
    ensures |r| <= size
    ensures offset + |r| <= |rows| || r == []
    ensures forall i :: 0 <= i < |r| ==> r[i] == rows[offset + i]
  {
    if offset >= |rows| then []
    else if offset + size <= |rows| then rows[offset..offset + size]
    else rows[offset..]
  }

  /** The response for the selected rows: the page holds the rows from the offset on, and
    * the flags say whether other pages exist. */
  function Respond(sel: seq<Record>, page: int, size: int): (r: SearchResponse)
    requires page >= 1 && size >= 1
    ensures r.total == |sel| && r.page == page && r.pageSize == size
    ensures |r.data| <= size
    ensures r.data != [] ==> 0 <= Offset(page, size) && Offset(page, size) + |r.data| <= |sel|
    ensures forall i :: 0 <= i < |r.data| ==> r.data[i] == sel[Offset(page, size) + i]
    ensures r.totalPages * size >= r.total && (r.totalPages - 1) * size < r.total
    ensures r.hasNext <==> page * size < r.total
    ensures r.hasPrevious <==> Offset(page, size) > 0
  {
    var offset := Offset(page, size);
    OffsetFromFirstPage(page, size);
    var data := Window(sel, offset, size);
    var pages := TotalPages(|sel|, size);
    HasNextMeansMoreRows(page, size, |sel|);
    SearchResponse(data, |sel|, page, size, pages, page < pages, page > 1)
  }

  /** A search: the same combined filter selects the rows counted in `total` and the rows
    * listed in `data`. */
  function Search(rows: seq<Record>, q: SearchRequest): (r: SearchResponse)
    requires ValidRequest(q)
    ensures r.total == |Selected(rows, SearchFilters(q))|
    ensures forall x :: x in r.data ==> x in rows && MatchesAll(SearchFilters(q), x)
  {
    var sel := Selected(rows, SearchFilters(q));
    var r := Respond(sel, q.page, q.pageSize);
    assert forall x :: x in r.data ==> x in sel;
    r
  }

  /** `page < total_pages` holds exactly when rows remain after this page. */
  lemma HasNextMeansMoreRows(page: int, size: int, total: nat)
    requires page >= 1 && size >= 1
    ensures page < TotalPages(total, size) <==> page * size < total
  {
    var n := TotalPages(total, size);
    if page < n {
      assert page * size <= (n - 1) * size by {
        MulMonotone(page, n - 1, size);
      }
    } else {
      assert n * size <= page * size by {
        MulMonotone(n, page, size);
      }
    }
  }

  /** Only the first page starts at offset 0. */
  lemma OffsetFromFirstPage(page: int, size: int)
    requires page >= 1 && size >= 1
    ensures Offset(page, size) >= 0
    ensures Offset(page, size) > 0 <==> page > 1
  {
    MulMonotone(0, page - 1, size);
    if page > 1 {
      MulMonotone(1, page - 1, size);
    }
  }

  lemma MulMonotone(a: int, b: int, c: int)
    requires a <= b && c >= 0
    ensures a * c <= b * c
  {
  }

  /** Every selected row is on exactly one page: the page of its index, and no other. */
  lemma {:induction false} PagesCoverSelection(sel: seq<Record>, size: int, i: int, page: int)
    requires size >= 1 && 0 <= i < |sel| && page >= 1
    ensures var w := Window(sel, Offset(page, size), size);
      (page == i / size + 1 ==> i - Offset(page, size) < |w| && w[i - Offset(page, size)] == sel[i])
      && (page != i / size + 1 ==> !(0 <= i - Offset(page, size) < |w|))
  {
    var p := i / size + 1;
    assert Offset(p, size) == (i / size) * size;
    assert Offset(p, size) <= i < Offset(p, size) + size;
    if page != p {
      if page < p {
        MulMonotone(page, p - 1, size);
        assert Offset(page, size) + size <= Offset(p, size);
      } else {
        MulMonotone(p, page - 1, size);
        assert Offset(p, size) + size <= Offset(page, size);
      }
    }
  }

  /** A page past the last one is empty, and says there is no next page. */
  lemma PastLastPageEmpty(rows: seq<Record>, q: SearchRequest)
    requires ValidRequest(q)
    requires q.page > Search(rows, q).totalPages
    ensures Search(rows, q).data == [] && !Search(rows, q).hasNext
  {
    var total := Search(rows, q).total;
    var n := Search(rows, q).totalPages;
    MulMonotone(n, q.page - 1, q.pageSize);
  }

  // ---------------------------------------------------------------------------
  // Auto-suggestions (`get_title_suggestions`, `get_boss_name_suggestions`)

  datatype SuggestionReply = SuggestionReply(suggestions: seq<string>, count: nat)

  /** One column's values, in table order: `ilike '%query%'`, not NULL, `distinct`. */
  function DistinctMatching(values: seq<Option<string>>, query: string, seen: set<string>): (r: seq<string>)
    ensures forall x :: x in r ==> x !in seen && Contains(ToLower(x), ToLower(query))
    ensures forall i, j :: 0 <= i < j < |r| ==> r[i] != r[j]
    ensures forall x :: x in r <==> x !in seen && Some(x) in values && Contains(ToLower(x), ToLower(query))
  {
    if values == [] then []
    else
      var v := values[0];
      if v.Some? && v.value !in seen && Contains(ToLower(v.value), ToLower(query)) then
        [v.value] + DistinctMatching(values[1..], query, seen + {v.value})
      else DistinctMatching(values[1..], query, seen)
  }

  /** The first `limit` of them, then `[t for t in ... if t]`, with `count=len(...)`. */
  function Suggestions(values: seq<Option<string>>, req: SuggestionRequest): (r: SuggestionReply)
    requires req.limit >= 0
    ensures r.count == |r.suggestions| <= req.limit
    ensures forall x :: x in r.suggestions ==>
              x != "" && Some(x) in values && Contains(ToLower(x), ToLower(req.query))
    ensures forall i, j :: 0 <= i < j < |r.suggestions| ==> r.suggestions[i] != r.suggestions[j]
  {
    var found := DistinctMatching(values, req.query, {});
    var limited := if |found| <= req.limit then found else found[..req.limit];
    var kept := NonEmpty(limited);
    SuggestionReply(kept, |kept|)
  }

  function NonEmpty(xs: seq<string>): (r: seq<string>)
    ensures |r| <= |xs|
    ensures forall x :: x in r <==> x in xs && x != ""
    ensures (forall i, j :: 0 <= i < j < |xs| ==> xs[i] != xs[j]) ==>
              forall i, j :: 0 <= i < j < |r| ==> r[i] != r[j]
  {
    if xs == [] then []
    else
      var rest := NonEmpty(xs[1..]);
      assert xs[0] !in xs[1..] ==> xs[0] !in rest;
      if xs[0] != "" then [xs[0]] + rest else rest
  }

  /** Under the limit, every distinct matching value is suggested exactly once. */
  lemma SuggestionsComplete(values: seq<Option<string>>, req: SuggestionRequest, x: string)
    requires req.limit >= 0 && x != ""
    requires |DistinctMatching(values, req.query, {})| <= req.limit
    ensures x in Suggestions(values, req).suggestions <==>
              Some(x) in values && Contains(ToLower(x), ToLower(req.query))
  {
  }
}
