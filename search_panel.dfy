/**
 * The search panel: pending filters edited by the inputs, active filters
 * copied from them by "search" (after a date-range check), the page and the
 * page size, the query parameters built from the active filters, and the
 * parameters each single-filter fetch sends.
 *
 * JavaScript `new Date(s)` is a parameter: the time value it yields, or None
 * for an invalid date.
 */
module SearchPanel {
  import opened Wrappers

  datatype Filters = Filters(committeeNo: string, committeeTitle: string, committeeBossName: string,
                             committeeDateFrom: string, committeeDateTo: string)

  const NoFilters := Filters("", "", "", "", "")

  datatype FilterField = CommitteeNoField | TitleField | BossField | DateFromField | DateToField

  /** The fields in the order of the `Filters` object, which `Object.entries` follows. */
  const FieldOrder: seq<FilterField> := [CommitteeNoField, TitleField, BossField, DateFromField, DateToField]

  function FieldName(f: FilterField): string {
    match f
    case CommitteeNoField => "committeeNo"
    case TitleField => "committeeTitle"
    case BossField => "committeeBossName"
    case DateFromField => "committeeDate_from"
    case DateToField => "committeeDate_to"
  }

  function Value(fs: Filters, f: FilterField): string {
    match f
    case CommitteeNoField => fs.committeeNo
    case TitleField => fs.committeeTitle
    case BossField => fs.committeeBossName
    case DateFromField => fs.committeeDateFrom
    case DateToField => fs.committeeDateTo
  }

  /** `{...prev, [field]: value}`: only the named field changes. */
  function With(fs: Filters, f: FilterField, v: string): (r: Filters)
    ensures Value(r, f) == v
    ensures forall g :: g != f ==> Value(r, g) == Value(fs, g)
  {
    match f
    case CommitteeNoField => fs.(committeeNo := v)
    case TitleField => fs.(committeeTitle := v)
    case BossField => fs.(committeeBossName := v)
    case DateFromField => fs.(committeeDateFrom := v)
    case DateToField => fs.(committeeDateTo := v)
  }

  // ---------------------------------------------------------------------------
  // Query parameters

  datatype ParamValue = Num(n: int) | Text(s: string)
  datatype Param = Param(key: string, value: ParamValue)

  function Keys(ps: seq<Param>): (ks: seq<string>)
    ensures |ks| == |ps| && forall i :: 0 <= i < |ps| ==> ks[i] == ps[i].key
  {
    if ps == [] then [] else [ps[0].key] + Keys(ps[1..])
  }

  /** The given fields whose active value is non-empty, in order, as parameters. */
  function FilterParams(fs: Filters, fields: seq<FilterField>): (r: seq<Param>)
    ensures forall p :: p in r <==> exists f :: f in fields && Value(fs, f) != "" && p == Param(FieldName(f), Text(Value(fs, f)))
  {
    if fields == [] then []
    else
      var f := fields[0];
      (if Value(fs, f) != "" then [Param(FieldName(f), Text(Value(fs, f)))] else []) + FilterParams(fs, fields[1..])
  }

  /** `queryParams`: page and limit, then exactly the non-empty active filters. */
  function QueryParams(active: Filters, page: int, limit: int): seq<Param> {
    [Param("page", Num(page)), Param("limit", Num(limit))] + FilterParams(active, FieldOrder)
  }

  /** The `forEach` that copies each truthy entry of the active filters into the parameters. */
  method BuildQueryParams(active: Filters, page: int, limit: int) returns (params: seq<Param>)
    ensures params == QueryParams(active, page, limit)
  {
    params := [Param("page", Num(page)), Param("limit", Num(limit))];
    for k := 0 to |FieldOrder|
      invariant params == [Param("page", Num(page)), Param("limit", Num(limit))] + FilterParams(active, FieldOrder[..k])
    {
      var f := FieldOrder[k];
      if Value(active, f) != "" {
        params := params + [Param(FieldName(f), Text(Value(active, f)))];
      }
      FilterParamsStep(active, FieldOrder, k);
    }
    assert FieldOrder[..|FieldOrder|] == FieldOrder;
  }

  lemma {:induction false} FilterParamsStep(fs: Filters, fields: seq<FilterField>, k: nat)
    requires k < |fields|
    ensures FilterParams(fs, fields[..k + 1]) ==
              FilterParams(fs, fields[..k]) + (if Value(fs, fields[k]) != "" then [Param(FieldName(fields[k]), Text(Value(fs, fields[k])))] else [])
  {
    if k == 0 {
      assert fields[..1] == [fields[0]];
      assert fields[..1][1..] == [];
    } else {
      FilterParamsStep(fs, fields[1..], k - 1);
      assert fields[..k + 1][1..] == fields[1..][..k];
      assert fields[..k][1..] == fields[1..][..k - 1];
    }
  }

  /** A filter is sent exactly when its active value is non-empty, and then with that value;
    * page and limit are always the first two parameters. */
  lemma QueryParamsMeaning(active: Filters, page: int, limit: int, f: FilterField, v: string)
    ensures QueryParams(active, page, limit)[..2] == [Param("page", Num(page)), Param("limit", Num(limit))]
    ensures Param(FieldName(f), Text(v)) in QueryParams(active, page, limit) <==> v == Value(active, f) && v != ""
  {
    var ps := QueryParams(active, page, limit);
    var head := [Param("page", Num(page)), Param("limit", Num(limit))];
    var p := Param(FieldName(f), Text(v));
    assert p in ps <==> p in head || p in FilterParams(active, FieldOrder);
    assert f in FieldOrder;
    FieldNameInjective(f);
  }

  lemma FieldNameInjective(f: FilterField)
    ensures forall g :: FieldName(g) == FieldName(f) ==> g == f
    ensures FieldName(f) != "page" && FieldName(f) != "limit"
  {
    assert |FieldName(CommitteeNoField)| == 11 && |FieldName(TitleField)| == 14;
    assert |FieldName(BossField)| == 17 && |FieldName(DateFromField)| == 18 && |FieldName(DateToField)| == 16;
  }

  // ---------------------------------------------------------------------------
  // The fetch

  datatype FilterType = Only(field: FilterField) | All

  /** `activeFilterType`: committee number, then title, then boss name, then the date range
    * (both bounds needed), and otherwise all. */
  function ActiveFilterType(active: Filters): (t: FilterType)
    ensures t == Only(CommitteeNoField) <==> active.committeeNo != ""
    ensures t == Only(TitleField) <==> active.committeeNo == "" && active.committeeTitle != ""
    ensures t == Only(BossField) <==>
              active.committeeNo == "" && active.committeeTitle == "" && active.committeeBossName != ""
    ensures t == Only(DateFromField) <==>
              && active.committeeNo == "" && active.committeeTitle == "" && active.committeeBossName == ""
              && active.committeeDateFrom != "" && active.committeeDateTo != ""
    ensures t != Only(DateToField)
  {
    if active.committeeNo != "" then Only(CommitteeNoField)
    else if active.committeeTitle != "" then Only(TitleField)
    else if active.committeeBossName != "" then Only(BossField)
    else if active.committeeDateFrom != "" && active.committeeDateTo != "" then Only(DateFromField)
    else All
  }

  /** `Object.assign`: a key already present keeps its place and takes the new value; a new
    * key goes at the end. */
  function Put(ps: seq<Param>, p: Param): (r: seq<Param>)
    ensures p.key !in Keys(ps) ==> r == ps + [p]
  {
    if ps == [] then [p]
    else if ps[0].key == p.key then [p] + ps[1..]
    else [ps[0]] + Put(ps[1..], p)
  }

  function Assign(ps: seq<Param>, extra: seq<Param>): seq<Param>
    decreases |extra|
  {
    if extra == [] then ps else Assign(Put(ps, extra[0]), extra[1..])
  }

  /** The parameters one fetch sends: for a single field only that filter (both dates for the
    * range, and only when both are set), and for "all" everything `queryParams` holds. */
  method FetchParams(filterType: FilterType, active: Filters, page: int, limit: int) returns (params: seq<Param>)
    ensures filterType.All? ==> params == QueryParams(active, page, limit)
    ensures filterType.Only? && filterType.field in {DateFromField, DateToField} ==>
              params == [Param("page", Num(page)), Param("limit", Num(limit))]
                        + (if active.committeeDateFrom != "" && active.committeeDateTo != ""
                           then [Param("committeeDate_from", Text(active.committeeDateFrom)),
                                 Param("committeeDate_to", Text(active.committeeDateTo))]
                           else [])
    ensures filterType.Only? && filterType.field !in {DateFromField, DateToField} ==>
              params == [Param("page", Num(page)), Param("limit", Num(limit))]
                        + (if Value(active, filterType.field) != ""
                           then [Param(FieldName(filterType.field), Text(Value(active, filterType.field)))]
                           else [])
  {
    params := [Param("page", Num(page)), Param("limit", Num(limit))];
    if filterType.Only? {
      var f := filterType.field;
      if f == DateFromField || f == DateToField {
        if active.committeeDateFrom != "" && active.committeeDateTo != "" {
          params := params + [Param("committeeDate_from", Text(active.committeeDateFrom))];
          params := params + [Param("committeeDate_to", Text(active.committeeDateTo))];
        }
      } else if Value(active, f) != "" {
        FieldNameInjective(f);
        params := Put(params, Param(FieldName(f), Text(Value(active, f))));
      }
    } else {
      var q := BuildQueryParams(active, page, limit);
      params := Assign(params, q);
      AssignQueryParams(active, page, limit);
    }
  }

  lemma AssignQueryParams(active: Filters, page: int, limit: int)
    ensures Assign([Param("page", Num(page)), Param("limit", Num(limit))], QueryParams(active, page, limit))
         == QueryParams(active, page, limit)
  {
    var head := [Param("page", Num(page)), Param("limit", Num(limit))];
    var rest := FilterParams(active, FieldOrder);
    var q := head + rest;
    assert q[1..] == [head[1]] + rest && q[1..][1..] == rest;
    assert Put(head, q[0]) == head;
    assert Assign(head, q) == Assign(head, q[1..]);
    assert Put(head, q[1..][0]) == head;
    assert Assign(head, q[1..]) == Assign(head, rest);
    FilterParamsFresh(active, head, rest);
    AssignFresh(head, rest);
  }

  /** The filter parameters have distinct keys, and none is a key of the page-and-limit head. */
  lemma FilterParamsFresh(active: Filters, head: seq<Param>, rest: seq<Param>)
    requires forall j :: 0 <= j < |head| ==> head[j].key in {"page", "limit"}
    requires rest == FilterParams(active, FieldOrder)
    ensures forall i, j :: 0 <= i < j < |rest| ==> rest[i].key != rest[j].key
    ensures forall i, j :: 0 <= i < |rest| && 0 <= j < |head| ==> rest[i].key != head[j].key
  {
    FilterParamsKeys(active, FieldOrder);
    forall i, j | 0 <= i < |rest| && 0 <= j < |head| ensures rest[i].key != head[j].key {
      assert rest[i].key == Keys(rest)[i];
    }
    forall i, j | 0 <= i < j < |rest| ensures rest[i].key != rest[j].key {
      assert rest[i].key == Keys(rest)[i] && rest[j].key == Keys(rest)[j];
    }
  }

  /** The filter parameters have distinct keys, none of them "page" or "limit". */
  lemma {:induction false} FilterParamsKeys(fs: Filters, fields: seq<FilterField>)
    requires forall i, j :: 0 <= i < j < |fields| ==> fields[i] != fields[j]
    ensures var ks := Keys(FilterParams(fs, fields));
      && (forall i, j :: 0 <= i < j < |ks| ==> ks[i] != ks[j])
      && "page" !in ks && "limit" !in ks
      && forall k :: k in ks ==> exists f :: f in fields && k == FieldName(f)
  {
    if fields != [] {
      var f := fields[0];
      FilterParamsKeys(fs, fields[1..]);
      FieldNameInjective(f);
      var head: seq<Param> := if Value(fs, f) != "" then [Param(FieldName(f), Text(Value(fs, f)))] else [];
      var tail := FilterParams(fs, fields[1..]);
      assert FilterParams(fs, fields) == head + tail;
      KeysAppend(head, tail);
      assert f !in fields[1..];
      assert FieldName(f) !in Keys(tail);
    }
  }

  lemma {:induction false} KeysAppend(a: seq<Param>, b: seq<Param>)
    ensures Keys(a + b) == Keys(a) + Keys(b)
  {
  }

  /** Putting a parameter whose key no earlier parameter has appends it. */
  lemma PutFresh(ps: seq<Param>, p: Param)
    requires forall j :: 0 <= j < |ps| ==> ps[j].key != p.key
    ensures Put(ps, p) == ps + [p]
  {
    assert p.key !in Keys(ps);
  }

  /** Assigning parameters with fresh, distinct keys appends them in order. */
  lemma {:induction false} AssignFresh(ps: seq<Param>, extra: seq<Param>)
    requires forall i, j :: 0 <= i < j < |extra| ==> extra[i].key != extra[j].key
    requires forall i, j :: 0 <= i < |extra| && 0 <= j < |ps| ==> extra[i].key != ps[j].key
    ensures Assign(ps, extra) == ps + extra
    decreases |extra|
  {
    if extra != [] {
      var next := ps + [extra[0]];
      var rest := extra[1..];
      assert next + rest == ps + extra;
      PutFresh(ps, extra[0]);
      assert Assign(ps, extra) == Assign(next, rest);
      forall i, j | 0 <= i < |rest| && 0 <= j < |next| ensures rest[i].key != next[j].key {
        assert rest[i] == extra[i + 1];
        if j == |ps| { assert next[j] == extra[0]; } else { assert next[j] == ps[j]; }
      }
      AssignFresh(next, rest);
    }
  }

  /** With several filters active, only the highest-priority one reaches the request. */
  lemma NumberHidesOtherFilters(active: Filters, page: int, limit: int)
    requires active.committeeNo != "" && active.committeeTitle != ""
    ensures ActiveFilterType(active) == Only(CommitteeNoField)
  {
  }

  /** With one date bound only, the panel fetches "all", and that request carries the single
    * bound. */
  lemma SingleDateBoundStillSent(active: Filters, page: int, limit: int)
    requires active.committeeNo == "" && active.committeeTitle == "" && active.committeeBossName == ""
    requires active.committeeDateFrom != "" && active.committeeDateTo == ""
    ensures ActiveFilterType(active) == All
    ensures QueryParams(active, page, limit)
         == [Param("page", Num(page)), Param("limit", Num(limit)), Param("committeeDate_from", Text(active.committeeDateFrom))]
  {
    var v := active.committeeDateFrom;
    var dates := [Param("committeeDate_from", Text(v))];
    assert [DateToField][1..] == [];
    assert FilterParams(active, [DateToField]) == [];
    assert [DateFromField, DateToField][1..] == [DateToField];
    assert FilterParams(active, [DateFromField, DateToField]) == dates;
    assert [BossField, DateFromField, DateToField][1..] == [DateFromField, DateToField];
    assert FilterParams(active, [BossField, DateFromField, DateToField]) == dates;
    assert [TitleField, BossField, DateFromField, DateToField][1..] == [BossField, DateFromField, DateToField];
    assert FilterParams(active, [TitleField, BossField, DateFromField, DateToField]) == dates;
    assert FieldOrder[1..] == [TitleField, BossField, DateFromField, DateToField];
    assert FilterParams(active, FieldOrder) == dates;
  }

  // ---------------------------------------------------------------------------
  // The panel's state

  const DefaultLimit := 20

  /** Whether "search" may copy the pending filters: when both dates are set, both must be
    * valid dates and the start must not be after the end. */
  predicate DateRangeAccepted(fs: Filters, parseDate: string -> Option<int>) {
    !(fs.committeeDateFrom != "" && fs.committeeDateTo != "")
    || (&& parseDate(fs.committeeDateFrom).Some? && parseDate(fs.committeeDateTo).Some?
        && parseDate(fs.committeeDateFrom).value <= parseDate(fs.committeeDateTo).value)
  }

  const InvalidDateMessage := "تنسيق التاريخ غير صالح. استخدم YYYY-MM-DD"
  const InvertedRangeMessage := "تاريخ البداية لا يمكن أن يكون بعد تاريخ النهاية"

  class Panel {
    var page: int
    var limit: int
    var pending: Filters
    var active: Filters

    constructor()
      ensures page == 1 && limit == DefaultLimit && pending == NoFilters && active == NoFilters
    {
      page := 1;
      limit := DefaultLimit;
      pending := NoFilters;
      active := NoFilters;
    }

    /** `handleSearch`: a refused date range leaves everything as it was and reports the
      * error; otherwise the pending filters become active and the first page is shown. */
    method HandleSearch(parseDate: string -> Option<int>) returns (error: Option<string>)
      modifies this
      ensures pending == old(pending) && limit == old(limit)
      ensures error.None? <==> DateRangeAccepted(old(pending), parseDate)
      ensures error.None? ==> active == old(pending) && page == 1
      ensures error.Some? ==> active == old(active) && page == old(page)
      ensures error.Some? ==> error.value in {InvalidDateMessage, InvertedRangeMessage}
    {
      if pending.committeeDateFrom != "" && pending.committeeDateTo != "" {
        var startDate := parseDate(pending.committeeDateFrom);
        var endDate := parseDate(pending.committeeDateTo);
        if startDate.None? || endDate.None? {
          return Some(InvalidDateMessage);
        }
        if startDate.value > endDate.value {
          return Some(InvertedRangeMessage);
        }
      }
      active := pending;
      page := 1;
      return None;
    }

    /** `handleReset`: every filter cleared, first page, twenty rows. */
    method HandleReset()
      modifies this
      ensures pending == NoFilters && active == NoFilters && page == 1 && limit == DefaultLimit
    {
      pending := NoFilters;
      active := NoFilters;
      page := 1;
      limit := DefaultLimit;
    }

    /** `handleSelect`: only the named pending field changes. */
    method HandleSelect(field: FilterField, value: string)
      modifies this
      ensures pending == With(old(pending), field, value)
      ensures active == old(active) && page == old(page) && limit == old(limit)
    {
      pending := With(pending, field, value);
    }

    /** `handleDateChange`: like `handleSelect`, with a missing value stored as "". */
    method HandleDateChange(field: FilterField, value: Option<string>)
      modifies this
      ensures pending == With(old(pending), field, value.GetOr(""))
      ensures active == old(active) && page == old(page) && limit == old(limit)
    {
      pending := With(pending, field, if value.Some? then value.value else "");
    }

    method HandlePageChange(newPage: int)
      modifies this
      ensures page == newPage
      ensures pending == old(pending) && active == old(active) && limit == old(limit)
    {
      page := newPage;
    }

    /** `handleLimitChange`: a size from 1 to 100 is taken and the first page shown; any other
      * changes nothing. */
    method HandleLimitChange(newLimit: int)
      modifies this
      ensures 1 <= newLimit <= 100 ==> limit == newLimit && page == 1
      ensures !(1 <= newLimit <= 100) ==> limit == old(limit) && page == old(page)
      ensures pending == old(pending) && active == old(active)
    {
      if newLimit >= 1 && newLimit <= 100 {
        limit := newLimit;
        page := 1;
      }
    }
  }
}
