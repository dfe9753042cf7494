/**
 * The two report selectors: the committee report between two dates and the
 * report for one committee head. Each keeps its form data and a loading flag,
 * and opens the print page in a new window; the opened URLs and the toasts are
 * kept as logs.
 */
module ReportForms {
  import opened Wrappers
  import opened Text
  import Dates
  import FormUrlEncoded
  import ReportUtils
  import ReportPage

  const DateFormatError := "يرجى إدخال التاريخ بصيغة YYYY-MM-DD"
  const MissingDatesError := "يرجى إدخال تاريخ البدء وتاريخ الانتهاء"
  const InvertedRangeError := "تاريخ البداية لا يمكن أن يكون بعد تاريخ النهاية"
  const MissingBossError := "يرجى اختيار رئيس اللجنة"
  const ResetInfo := "تم إعادة تعيين النموذج"

  const ReportPath := "/print/report?"
  const BossReportPath := "/print/bossNameReport?"

  /** `new Date(a) > new Date(b)`: an unparseable date is NaN, and a comparison with NaN is
    * false. `parseDate` stands for the browser's date parser. */
  predicate StartAfterEnd(from: string, to: string, parseDate: string -> Option<int>) {
    parseDate(from).Some? && parseDate(to).Some? && parseDate(from).value > parseDate(to).value
  }

  /** A typed date of the right shape is not blank. */
  lemma ShapedDateNotBlank(s: string)
    requires ReportUtils.ValidateDateFormat(s) && s != ""
    ensures !IsBlank(s)
  {
    assert !IsSpace(s[0]);
  }

  /** The print link for two typed dates; the page it opens fetches those dates. */
  method ReportLink(from: string, to: string) returns (url: string)
    requires ReportUtils.ValidateDateFormat(from) && from != ""
    requires ReportUtils.ValidateDateFormat(to) && to != ""
    ensures url == ReportPath + FormUrlEncoded.Serialize(ReportUtils.ReportPairs(ReportUtils.ReportDates(from, to)))
    ensures ReportPage.PlanFetch(url[|ReportPath|..]) == ReportPage.FetchReport(from, to)
  {
    var query := ReportUtils.BuildQueryString(ReportUtils.ReportDates(from, to));
    url := ReportPath + query;
    assert url[|ReportPath|..] == query;
    ShapedDateNotBlank(from);
    ShapedDateNotBlank(to);
    ReportPage.FormLinkFetchesItsDates(from, to);
  }

  /** `CommitteeReportForm`. */
  class CommitteeReportForm {
    var from: string
    var to: string
    var loading: bool
    var openedUrls: seq<string>
    var errors: seq<string>

    /** Each date is empty or has the `YYYY-MM-DD` shape: the handlers let nothing else in. */
    predicate Valid()
      reads this
    {
      ReportUtils.ValidateDateFormat(from) && ReportUtils.ValidateDateFormat(to)
    }

    constructor()
      ensures Valid()
      ensures from == "" && to == "" && !loading && openedUrls == [] && errors == []
    {
      from, to := "", "";
      loading := false;
      openedUrls, errors := [], [];
    }

    /** `handleStartDateChange`: a non-empty value of another shape is refused with an error
      * and the field keeps its value. */
    method HandleStartDateChange(value: string)
      requires Valid()
      modifies this
      ensures Valid()
      ensures ReportUtils.ValidateDateFormat(value) ==> from == value && errors == old(errors)
      ensures !ReportUtils.ValidateDateFormat(value) ==> from == old(from) && errors == old(errors) + [DateFormatError]
      ensures to == old(to) && loading == old(loading) && openedUrls == old(openedUrls)
    {
      if value != "" && !Dates.IsIsoShape(value) {
        errors := errors + [DateFormatError];
        return;
      }
      from := value;
    }

    /** `handleEndDateChange`, the same for the end date. */
    method HandleEndDateChange(value: string)
      requires Valid()
      modifies this
      ensures Valid()
      ensures ReportUtils.ValidateDateFormat(value) ==> to == value && errors == old(errors)
      ensures !ReportUtils.ValidateDateFormat(value) ==> to == old(to) && errors == old(errors) + [DateFormatError]
      ensures from == old(from) && loading == old(loading) && openedUrls == old(openedUrls)
    {
      if value != "" && !Dates.IsIsoShape(value) {
        errors := errors + [DateFormatError];
        return;
      }
      to := value;
    }

    /** `openPrintReport`: refused when a date is missing or the start is after the end;
      * otherwise the print page is opened with both dates in its query. `loading` ends false
      * either way. */
    method OpenPrintReport(parseDate: string -> Option<int>)
      requires Valid()
      modifies this
      ensures Valid() && !loading
      ensures from == old(from) && to == old(to)
      ensures from == "" || to == "" ==> openedUrls == old(openedUrls) && errors == old(errors) + [MissingDatesError]
      ensures from != "" && to != "" && StartAfterEnd(from, to, parseDate) ==>
                openedUrls == old(openedUrls) && errors == old(errors) + [InvertedRangeError]
      ensures from != "" && to != "" && !StartAfterEnd(from, to, parseDate) ==>
                errors == old(errors)
                && openedUrls == old(openedUrls) + [ReportPath + FormUrlEncoded.Serialize(ReportUtils.ReportPairs(ReportUtils.ReportDates(from, to)))]
                && ReportPage.PlanFetch(openedUrls[|openedUrls| - 1][|ReportPath|..]) == ReportPage.FetchReport(from, to)
    {
      loading := true;
      if from == "" || to == "" {
        errors := errors + [MissingDatesError];
        loading := false;
        return;
      }
      if StartAfterEnd(from, to, parseDate) {
        errors := errors + [InvertedRangeError];
        loading := false;
        return;
      }
      var url := ReportLink(from, to);
      openedUrls := openedUrls + [url];
      loading := false;
    }

    /** `resetForm`. */
    method ResetForm()
      modifies this
      ensures Valid()
      ensures from == "" && to == ""
      ensures loading == old(loading) && openedUrls == old(openedUrls) && errors == old(errors)
    {
      from, to := "", "";
    }
  }

  /** The boss-name report link for a name. */
  function BossLink(bossName: string): string {
    BossReportPath + FormUrlEncoded.Serialize(ReportUtils.BossPairs(ReportUtils.BossNameData(bossName)))
  }

  /** The boss-name report reads exactly the trimmed name back from its link. */
  lemma BossLinkReadsBack(bossName: string)
    requires !IsBlank(bossName)
    ensures FormUrlEncoded.Parse(BossLink(bossName)[|BossReportPath|..]) == [(ReportUtils.BossKey(), Trim(bossName))]
  {
    var query := FormUrlEncoded.Serialize(ReportUtils.BossPairs(ReportUtils.BossNameData(bossName)));
    assert BossLink(bossName)[|BossReportPath|..] == query;
    ReportUtils.BossNameArrivesTrimmed(ReportUtils.BossNameData(bossName));
  }

  /** The print URL for a typed name: the boss-name report path and `buildQueryStringBossName`'s
    * query. */
  method BossUrl(bossName: string) returns (url: string)
    ensures url == BossLink(bossName)
  {
    var query := ReportUtils.BuildQueryStringBossName(ReportUtils.BossNameData(bossName));
    url := BossReportPath + query;
  }

  /** `BossNameReportFormSelection`. */
  class BossNameForm {
    var bossName: string
    var loading: bool
    var openedUrls: seq<string>
    var errors: seq<string>
    var infos: seq<string>

    constructor()
      ensures bossName == "" && !loading && openedUrls == [] && errors == [] && infos == []
    {
      bossName := "";
      loading := false;
      openedUrls, errors, infos := [], [], [];
    }

    /** `handleBossNameChange`: only the name changes. */
    method HandleBossNameChange(value: string)
      modifies this
      ensures bossName == value
      ensures loading == old(loading) && openedUrls == old(openedUrls) && errors == old(errors) && infos == old(infos)
    {
      bossName := value;
    }

    /** `openPrintReport`: a blank name is refused; otherwise the boss-name report is opened
      * with the trimmed name as its one query parameter (`BossLinkReadsBack`). */
    method OpenPrintReport()
      modifies this
      ensures !loading && bossName == old(bossName) && infos == old(infos)
      ensures IsBlank(bossName) ==> openedUrls == old(openedUrls) && errors == old(errors) + [MissingBossError]
      ensures !IsBlank(bossName) ==>
                errors == old(errors)
                && openedUrls == old(openedUrls) + [BossLink(bossName)]
    {
      var name := bossName;
      loading := true;
      // `!bossName || bossName.trim() === ""`: by `Trim`'s contract, exactly a blank name
      if IsBlank(name) {
        errors := errors + [MissingBossError];
        loading := false;
        return;
      }
      var url := BossUrl(name);
      openedUrls := openedUrls + [url];
      loading := false;
    }

    /** `resetForm`. */
    method ResetForm()
      modifies this
      ensures bossName == "" && infos == old(infos) + [ResetInfo]
      ensures loading == old(loading) && openedUrls == old(openedUrls) && errors == old(errors)
    {
      bossName := "";
      infos := infos + [ResetInfo];
    }
  }
}
