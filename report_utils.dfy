/**
 * The helpers of the committee reports: the query strings the two report
 * selectors put after `/print/report?` and `/print/bossNameReport?`, the shape
 * test on a typed date, and the Arabic date formatter.
 */
module ReportUtils {
  import opened Text
  import Dates
  import opened FormUrlEncoded

  /** The names of the query parameters the reports read. */
  function FromKey(): string { "committeeDate_from" }
  function ToKey(): string { "committeeDate_to" }
  function BossKey(): string { "bossName" }

  /** `CommitteeReportData`: the two bounds as typed, `""` when not chosen. */
  datatype ReportDates = ReportDates(committeeDate_from: string, committeeDate_to: string)

  /** The pairs `buildQueryString` appends: each bound that is not blank, with its value as
    * typed (untrimmed), `from` before `to`. */
  function ReportPairs(data: ReportDates): (r: seq<(string, string)>)
    ensures |r| <= 2
    ensures (FromKey(), data.committeeDate_from) in r <==> !IsBlank(data.committeeDate_from)
    ensures (ToKey(), data.committeeDate_to) in r <==> !IsBlank(data.committeeDate_to)
    ensures forall p :: p in r ==>
              p == (FromKey(), data.committeeDate_from) || p == (ToKey(), data.committeeDate_to)
    ensures |r| == 2 ==> r[0].0 == FromKey()
  {
    FromPart(data) + ToPart(data)
  }

  function FromPart(data: ReportDates): seq<(string, string)> {
    if Trim(data.committeeDate_from) != [] then [(FromKey(), data.committeeDate_from)] else []
  }

  function ToPart(data: ReportDates): seq<(string, string)> {
    if Trim(data.committeeDate_to) != [] then [(ToKey(), data.committeeDate_to)] else []
  }

  /** `buildQueryString`: a `URLSearchParams` filled pair by pair, then serialized. Reading
    * the string back gives exactly the appended pairs. */
  method BuildQueryString(data: ReportDates) returns (query: string)
    ensures query == Serialize(ReportPairs(data))
    ensures Parse(query) == ReportPairs(data)
    ensures query == "" <==> IsBlank(data.committeeDate_from) && IsBlank(data.committeeDate_to)
  {
    var params: seq<(string, string)> := [];
    if Trim(data.committeeDate_from) != [] {
      params := params + [(FromKey(), data.committeeDate_from)];
    }
    assert params == FromPart(data);
    if Trim(data.committeeDate_to) != [] {
      params := params + [(ToKey(), data.committeeDate_to)];
    }
    assert params == ReportPairs(data);
    query := Serialize(params);
    ParseSerialize(params);
  }

  /** `BossNameFormData`. */
  datatype BossNameData = BossNameData(bossName: string)

  /** The one pair `buildQueryStringBossName` appends: the trimmed name, unless it is blank. */
  function BossPairs(data: BossNameData): (r: seq<(string, string)>)
    ensures r == [] <==> IsBlank(data.bossName)
    ensures r != [] ==> r == [(BossKey(), Trim(data.bossName))]
  {
    if Trim(data.bossName) != [] then [(BossKey(), Trim(data.bossName))] else []
  }

  /** `buildQueryStringBossName`. */
  method BuildQueryStringBossName(data: BossNameData) returns (query: string)
    ensures query == Serialize(BossPairs(data))
    ensures Parse(query) == BossPairs(data)
    ensures query == "" <==> IsBlank(data.bossName)
  {
    var params: seq<(string, string)> := [];
    if data.bossName != [] && Trim(data.bossName) != [] {
      params := params + [(BossKey(), Trim(data.bossName))];
    }
    query := Serialize(params);
    ParseSerialize(params);
  }

  /** The boss name read back from the query has no padding left. */
  lemma BossNameArrivesTrimmed(data: BossNameData)
    requires !IsBlank(data.bossName)
    ensures Parse(Serialize(BossPairs(data))) == [(BossKey(), Trim(data.bossName))]
    ensures Trim(Parse(Serialize(BossPairs(data)))[0].1) == Parse(Serialize(BossPairs(data)))[0].1
  {
    ParseSerialize(BossPairs(data));
    TrimIdempotent(data.bossName);
  }

  /** `validateDateFormat`: empty, or four, two and two digits separated by `-`. */
  function ValidateDateFormat(value: string): (r: bool)
    ensures r <==> value == "" || Dates.IsIsoShape(value)
  {
    |value| == 0 || Dates.IsIsoShape(value)
  }

  /** Every date the back end formats passes the test. */
  lemma FormattedDatesValid(d: Dates.Date)
    requires Dates.ValidDate(d)
    ensures ValidateDateFormat(Dates.FormatYmd(d))
  {
    Dates.FormatIsIsoShape(d);
  }

  /** The test checks the shape only: the 30th of February passes it, though no calendar has
    * that day. */
  lemma ValidateHasNoCalendar()
    ensures ValidateDateFormat("2023-02-30") && Dates.ParseYmd("2023-02-30").None?
  {
    Dates.ShapeWithoutCalendar();
  }

  /** `formatArabicDate`: the empty string stays empty; otherwise the `Intl` formatting
    * (`intl`, not modelled) with every `/` turned into `-`. */
  function FormatArabicDate(dateStr: string, intl: string -> string): (r: string)
    ensures dateStr == "" ==> r == ""
    ensures dateStr != "" ==> |r| == |intl(dateStr)| && '/' !in r
  {
    if dateStr == "" then "" else ReplaceAll(intl(dateStr), '/', '-')
  }
}
