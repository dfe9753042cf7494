/**
 * The printable committee report between two dates: which cell values count
 * as empty and are shown as `-`, which query makes the page fetch, and the
 * state the page is left in by its one fetch.
 */
module ReportPage {
  import opened Wrappers
  import opened Text
  import FormCommon
  import FormUrlEncoded
  import ReportUtils

  /** A cell value as the page receives it from JSON. */
  datatype JsValue = JNull | JUndefined | JStr(s: string) | JNum(n: int) | JBool(b: bool)

  /** The spellings of a missing value that a text cell may carry. */
  predicate MissingSpelling(s: string) {
    s == "null" || s == "Null" || s == "NULL" || s == "undefined"
  }

  /** `isEmptyValue`. */
  function IsEmptyValue(v: JsValue): (r: bool)
    ensures v.JNull? || v.JUndefined? ==> r
    ensures v.JStr? ==> (r <==> IsBlank(v.s) || MissingSpelling(v.s))
    ensures v.JNum? || v.JBool? ==> !r
  {
    match v
    case JNull => true
    case JUndefined => true
    case JStr(s) => s == "" || MissingSpelling(s) || Trim(s) == ""
    case _ => false
  }

  /** Only the four listed spellings are missing; numbers and booleans never are, even when
    * falsy. */
  lemma EmptySpellings()
    ensures IsEmptyValue(JStr("NULL")) && IsEmptyValue(JStr("undefined")) && IsEmptyValue(JStr(" "))
    ensures !IsEmptyValue(JStr("Undefined")) && !IsEmptyValue(JStr("nULL"))
    ensures !IsEmptyValue(JNum(0)) && !IsEmptyValue(JBool(false))
  {
    assert !IsSpace('U') && !IsSpace('n');
    assert " "[0] == ' ';
  }

  /** JavaScript `String(value)`. */
  function JsString(v: JsValue): string {
    match v
    case JNull => "null"
    case JUndefined => "undefined"
    case JStr(s) => s
    case JNum(n) => FormCommon.IntToString(n)
    case JBool(b) => if b then "true" else "false"
  }

  /** `safeDisplay`: `-` for an empty value, the value as text otherwise; so a cell is never
    * blank. */
  function SafeDisplay(v: JsValue): (r: string)
    ensures IsEmptyValue(v) ==> r == "-"
    ensures !IsEmptyValue(v) ==> r == JsString(v)
    ensures !IsBlank(r)
  {
    if IsEmptyValue(v) then
      assert "-"[0] == '-';
      "-"
    else
      match v
      case JNum(n) =>
        var s := FormCommon.IntToString(n);
        assert s[0] == '-' || IsDigit(s[0]);
        s
      case JBool(b) =>
        assert "true"[0] == 't' && "false"[0] == 'f';
        JsString(v)
      case JStr(s) => s
  }

  // ---------------------------------------------------------------------------
  // The fetch

  /** `searchParams.get(name)`: the value of the first pair with that name. */
  function Get(pairs: seq<(string, string)>, name: string): (r: Option<string>)
    ensures r.None? <==> forall p :: p in pairs ==> p.0 != name
    ensures r.Some? ==> (name, r.value) in pairs
  {
    if pairs == [] then None
    else if pairs[0].0 == name then Some(pairs[0].1)
    else Get(pairs[1..], name)
  }

  datatype FetchPlan = NoFetch | FetchReport(from: string, to: string)

  /** The effect fetches only when both dates are present and non-empty. */
  function PlanFetch(query: string): (r: FetchPlan)
    ensures r.FetchReport? <==>
              var pairs := FormUrlEncoded.Parse(query);
              Get(pairs, ReportUtils.FromKey()).Some? && Get(pairs, ReportUtils.FromKey()).value != ""
              && Get(pairs, ReportUtils.ToKey()).Some? && Get(pairs, ReportUtils.ToKey()).value != ""
    ensures r.FetchReport? ==>
              (ReportUtils.FromKey(), r.from) in FormUrlEncoded.Parse(query)
              && (ReportUtils.ToKey(), r.to) in FormUrlEncoded.Parse(query)
  {
    var pairs := FormUrlEncoded.Parse(query);
    var from, to := Get(pairs, ReportUtils.FromKey()), Get(pairs, ReportUtils.ToKey());
    if from.None? || from.value == "" || to.None? || to.value == "" then NoFetch
    else FetchReport(from.value, to.value)
  }

  /** The link the report form builds for two typed dates makes this page fetch exactly those
    * dates. */
  lemma FormLinkFetchesItsDates(from: string, to: string)
    requires !IsBlank(from) && !IsBlank(to)
    ensures PlanFetch(FormUrlEncoded.Serialize(ReportUtils.ReportPairs(ReportUtils.ReportDates(from, to))))
         == FetchReport(from, to)
  {
    var dates := ReportUtils.ReportDates(from, to);
    assert ReportUtils.FromPart(dates) == [(ReportUtils.FromKey(), from)];
    assert ReportUtils.ToPart(dates) == [(ReportUtils.ToKey(), to)];
    assert ReportUtils.ReportPairs(dates) == [(ReportUtils.FromKey(), from), (ReportUtils.ToKey(), to)];
    assert from != "" && to != "";
    BothDatesFetched(from, to);
  }

  /** A query holding a non-empty start and a non-empty end, in that order, fetches them. */
  lemma BothDatesFetched(from: string, to: string)
    requires from != "" && to != ""
    ensures PlanFetch(FormUrlEncoded.Serialize([(ReportUtils.FromKey(), from), (ReportUtils.ToKey(), to)]))
         == FetchReport(from, to)
  {
    var pairs := [(ReportUtils.FromKey(), from), (ReportUtils.ToKey(), to)];
    FormUrlEncoded.ParseSerialize(pairs);
    assert Get(pairs, ReportUtils.FromKey()) == Some(from);
    assert ReportUtils.FromKey() != ReportUtils.ToKey() by { assert |ReportUtils.FromKey()| != |ReportUtils.ToKey()|; }
    assert pairs[1..] == [(ReportUtils.ToKey(), to)];
    assert Get(pairs, ReportUtils.ToKey()) == Some(to);
  }

  /** A link with one date missing fetches nothing. */
  lemma MissingBoundNoFetch(from: string)
    ensures PlanFetch(FormUrlEncoded.Serialize([(ReportUtils.FromKey(), from)])) == NoFetch
  {
    FormUrlEncoded.ParseSerialize([(ReportUtils.FromKey(), from)]);
  }

  /** What the fetch gave: a failure (a non-OK status or a thrown error), or the JSON body's
    * `data` and `count`, each possibly missing or null. */
  datatype Response<R> = Failed | Reply(data: Option<seq<R>>, count: Option<int>)

  datatype PageState<R> = PageState(data: seq<R>, count: int, loading: bool)

  /** The page after its effect: with no fetch it keeps loading; after a fetch it stops, with
    * `result.data || []` and `result.count || 0`. */
  function AfterFetch<R>(plan: FetchPlan, response: Response<R>): (r: PageState<R>)
    ensures r.loading <==> plan.NoFetch?
    ensures plan.NoFetch? || response.Failed? ==> r.data == [] && r.count == 0
    ensures plan.FetchReport? && response.Reply? ==>
              && (response.data.Some? ==> r.data == response.data.value)
              && (response.data.None? ==> r.data == [])
              && (response.count.Some? ==> r.count == response.count.value)
              && (response.count.None? ==> r.count == 0)
  {
    if plan.NoFetch? then PageState([], 0, true)
    else match response
      case Failed => PageState([], 0, false)
      case Reply(d, c) => PageState(d.GetOr([]), c.GetOr(0), false)
  }
}
