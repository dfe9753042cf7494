/**
 * The committee service of the back end: the cleaned lists behind the
 * autocomplete boxes, the paged listing (its filters, its page arithmetic and
 * the grouping of PDF rows under their committees), the date-range report, and
 * `UpdateRecord`, which writes an update dictionary into a committee row and
 * optionally stores a new PDF for it.
 *
 * The database is an object holding the committee rows (each a map from column
 * name to value, so that `hasattr`/`setattr` by name can be stated) and the PDF
 * rows; a failing commit is a parameter.
 */
module CommitteeService {
  import opened Wrappers
  import opened Text
  import Dates
  import SavePdf
  import PdfService
  import FormCommon

  // ---------------------------------------------------------------------------
  // Values, rows and dictionaries

  /** A Python value as it reaches the service: from JSON, from a form or from a column. */
  datatype Value = VNone | VBool(b: bool) | VInt(i: int) | VStr(s: string) | VDate(d: Dates.CalendarDate)

  /** Python truthiness. */
  predicate Truthy(v: Value) {
    match v
    case VNone => false
    case VBool(b) => b
    case VInt(i) => i != 0
    case VStr(s) => s != ""
    case VDate(_) => true
  }

  /** Python `str(v)`. */
  function PyStr(v: Value): string {
    match v
    case VNone => "None"
    case VBool(b) => if b then "True" else "False"
    case VInt(i) => FormCommon.IntToString(i)
    case VStr(s) => s
    case VDate(d) => Dates.FormatYmd(d)
  }

  /** A dictionary entry; a dictionary keeps its entries in insertion order. */
  datatype Field = Field(key: string, value: Value)
  type Dict = seq<Field>

  function KeysOf(d: Dict): (ks: seq<string>)
    ensures |ks| == |d| && forall i :: 0 <= i < |d| ==> ks[i] == d[i].key
  {
    seq(|d|, i requires 0 <= i < |d| => d[i].key)
  }

  /** Keys of a Python dictionary are distinct. */
  predicate UniqueKeys(d: Dict) {
    forall i, j :: 0 <= i < j < |d| ==> d[i].key != d[j].key
  }

  /** `d.get(key)`: None when the key is absent. */
  function Get(d: Dict, key: string): (v: Value)
    ensures key !in KeysOf(d) ==> v == VNone
    ensures key in KeysOf(d) ==> exists i :: 0 <= i < |d| && d[i] == Field(key, v)
  {
    if d == [] then VNone
    else if d[0].key == key then d[0].value
    else
      assert forall i :: 0 <= i < |d| - 1 ==> d[1..][i] == d[i + 1];
      Get(d[1..], key)
  }

  /** In a dictionary with distinct keys, `get` returns the value stored under the key. */
  lemma GetAt(d: Dict, i: nat)
    requires UniqueKeys(d) && i < |d|
    ensures Get(d, d[i].key) == d[i].value
  {
    var v := Get(d, d[i].key);
    assert d[i].key in KeysOf(d);
    var j :| 0 <= j < |d| && d[j] == Field(d[i].key, v);
  }

  /** The columns of the committee table. */
  const Columns: seq<string> := ["id", "committeeNo", "committeeDate", "committeeTitle", "committeeBossName",
                                 "sex", "committeeCount", "sexCountPerCommittee", "notes", "currentDate", "userID"]

  /** A committee row: its columns by name. */
  type Record = map<string, Value>

  predicate IsRecord(r: Record) {
    r.Keys == set k | k in Columns
  }

  /** `record.key`, None for a column that is not there. */
  function Column(r: Record, key: string): Value {
    if key in r then r[key] else VNone
  }

  /** An `HTTPException`: its status code and detail. */
  datatype HttpError = HttpError(status: int, detail: string)

  /** The 404 for an unknown committee id. */
  function NotFound(id: int): (e: HttpError)
    ensures e.status == 404 && StartsWith(e.detail, "Committee with ID ")
    ensures |e.detail| > 28 && e.detail[|e.detail| - 10..] == " not found"
  {
    HttpError(404, "Committee with ID " + FormCommon.IntToString(id) + " not found")
  }

  // ---------------------------------------------------------------------------
  // Autocomplete lists (`getAllCommitteeNoMethod` and its siblings)

  /** The filter of the comprehension: not None, not blank once stripped, and the
    * unstripped upper-case text is neither "NULL" nor "NONE". */
  predicate Kept(v: Option<string>) {
    v.Some? && Trim(v.value) != "" && !IsNullWord(v.value)
  }

  /** `s.upper() in ['NULL', 'NONE']`, letter by letter. */
  predicate IsNullWord(s: string) {
    && |s| == 4 && UpperChar(s[0]) == 'N'
    && (|| (UpperChar(s[1]) == 'U' && UpperChar(s[2]) == 'L' && UpperChar(s[3]) == 'L')
        || (UpperChar(s[1]) == 'O' && UpperChar(s[2]) == 'N' && UpperChar(s[3]) == 'E'))
  }

  lemma IsNullWordUpper(s: string)
    ensures IsNullWord(s) <==> ToUpper(s) == "NULL" || ToUpper(s) == "NONE"
  {
    if ToUpper(s) == "NULL" || ToUpper(s) == "NONE" {
      assert |s| == 4;
      assert ToUpper(s)[0] == UpperChar(s[0]);
    }
  }

  /** `[str(v).strip() for v in values if ...]`. */
  function CleanList(values: seq<Option<string>>): (r: seq<string>)
    ensures |r| <= |values|
  {
    if values == [] then []
    else (if Kept(values[0]) then [Trim(values[0].value)] else []) + CleanList(values[1..])
  }

  /** Every listed value is stripped and non-blank. */
  lemma CleanListTrimmed(values: seq<Option<string>>, x: string)
    requires x in CleanList(values)
    ensures x != "" && Trim(x) == x
  {
    CleanListMembers(values, x);
    var i :| 0 <= i < |values| && Kept(values[i]) && x == Trim(values[i].value);
    TrimIdempotent(values[i].value);
  }

  /** A value is listed exactly when some kept input strips to it. */
  lemma {:induction false} CleanListMembers(values: seq<Option<string>>, x: string)
    ensures x in CleanList(values) <==> exists i :: 0 <= i < |values| && Kept(values[i]) && x == Trim(values[i].value)
  {
    if values != [] {
      CleanListMembers(values[1..], x);
      if exists i :: 0 <= i < |values| - 1 && Kept(values[1..][i]) && x == Trim(values[1..][i].value) {
        var i :| 0 <= i < |values| - 1 && Kept(values[1..][i]) && x == Trim(values[1..][i].value);
        assert values[i + 1] == values[1..][i];
      }
      if exists i :: 0 <= i < |values| && Kept(values[i]) && x == Trim(values[i].value) {
        var i :| 0 <= i < |values| && Kept(values[i]) && x == Trim(values[i].value);
        if i > 0 {
          assert values[1..][i - 1] == values[i];
        }
      }
    }
  }

  /** Cleaning works element by element, so the database order is kept. */
  lemma {:induction false} CleanListAppend(a: seq<Option<string>>, b: seq<Option<string>>)
    ensures CleanList(a + b) == CleanList(a) + CleanList(b)
  {
    if a == [] {
      assert a + b == b;
    } else {
      var h := if Kept(a[0]) then [Trim(a[0].value)] else [];
      assert (a + b)[0] == a[0];
      assert (a + b)[1..] == a[1..] + b;
      assert CleanList(a + b) == h + CleanList(a[1..] + b);
      CleanListAppend(a[1..], b);
      assert CleanList(a) == h + CleanList(a[1..]);
    }
  }

  /** The "NULL"/"NONE" test is made before stripping: a padded " null " survives as "null". */
  lemma PaddedNullSurvives()
    ensures CleanList([Some(" null ")]) == ["null"]
  {
    assert !IsNullWord(" null ");
    assert TrimStart(" null ") == TrimStart("null ") == "null ";
    assert TrimEnd("null ") == TrimEnd("null") == "null";
    assert [Some(" null ")][1..] == [];
  }

  /** None, blanks and the exact spellings "null" and "None" are dropped. */
  lemma NullSpellingsDropped()
    ensures !Kept(None) && !Kept(Some("  "))
    ensures !Kept(Some("null")) && !Kept(Some("None"))
  {
    assert IsNullWord("null") && IsNullWord("None");
    assert IsBlank("  ");
  }

  /** The reply of the list endpoints: the cleaned list and its length. */
  datatype ListReply = ListReply(values: seq<string>, count: nat)

  function CleanedListReply(values: seq<Option<string>>): (r: ListReply)
    ensures r.count == |r.values| <= |values|
    ensures forall x :: x in r.values ==> x != "" && Trim(x) == x
  {
    var c := CleanList(values);
    assert forall x :: x in c ==> x != "" && Trim(x) == x by {
      forall x | x in c ensures x != "" && Trim(x) == x {
        CleanListTrimmed(values, x);
      }
    }
    ListReply(c, |c|)
  }

  // ---------------------------------------------------------------------------
  // Paged listing (`getCommitteeNoBYQueryParams`)

  /** Python's `//`, which rounds toward negative infinity. */
  function FloorDiv(a: int, b: int): (q: int)
    requires b != 0
    ensures b > 0 ==> q * b <= a < q * b + b
  {
    if b > 0 then a / b else (-a) / (-b)
  }

  /** `offset = (page - 1) * limit`. */
  function Offset(page: int, limit: int): int {
    (page - 1) * limit
  }

  /** `serialNo = offset + i + 1` for the i-th row of a page. */
  function SerialNo(page: int, limit: int, i: int): int {
    Offset(page, limit) + i + 1
  }

  /** `totalPages = (total + limit - 1) // limit`: the fewest pages of `limit` rows
    * that hold `total` rows. */
  function TotalPages(total: nat, limit: int): (n: int)
    requires limit >= 1
    ensures n >= 0 && n * limit >= total && (n - 1) * limit < total
  {
    var n := FloorDiv(total + limit - 1, limit);
    assert n * limit <= total + limit - 1 < n * limit + limit;
    n
  }

  /** The serial numbers of a page continue those of the page before it, and different
    * pages never share a serial number. */
  lemma SerialNumbersContinue(page: int, limit: int, i: int, j: int)
    requires page >= 1 && limit >= 1 && 0 <= i < limit && 0 <= j < limit
    ensures SerialNo(page, limit, limit - 1) + 1 == SerialNo(page + 1, limit, 0)
    ensures SerialNo(page, limit, i) < SerialNo(page + 1, limit, j)
    ensures (page - 1) * limit < SerialNo(page, limit, i) <= page * limit
  {
    assert Offset(page + 1, limit) == Offset(page, limit) + limit;
  }

  /** One filter of the listing query. */
  datatype Filter =
    | NoEquals(no: string)
    | TitleLike(pattern: string)
    | BossLike(pattern: string)
    | DateNotNull
    | DateBetween(start: Dates.Date, end: Dates.Date)

  /** A truthy optional string parameter. */
  predicate Given(s: Option<string>) { s.Some? && s.value != "" }

  const InvalidRangeFormat := "Invalid date format. Use YYYY-MM-DD"
  const InvertedRange := "startDate cannot be after endDate"

  /** The date range both queries apply: none unless both bounds are given; a bound that
    * does not parse as `%Y-%m-%d`, or a start after the end, raises HTTP 400. */
  datatype DateFilter = AllDates | Between(start: Dates.Date, end: Dates.Date)

  function DateRange(from: Option<string>, to: Option<string>): (r: Result<DateFilter, HttpError>)
    ensures r == Ok(AllDates) <==> !(Given(from) && Given(to))
    ensures r.Ok? && r.value.Between? ==>
              Dates.ParseYmd(from.value) == Some(r.value.start) && Dates.ParseYmd(to.value) == Some(r.value.end)
              && Dates.NotAfter(r.value.start, r.value.end)
    ensures r.Err? ==> r.error.status == 400
    ensures r.Err? <==>
              && Given(from) && Given(to)
              && (|| Dates.ParseYmd(from.value).None? || Dates.ParseYmd(to.value).None?
                  || Dates.Before(Dates.ParseYmd(to.value).value, Dates.ParseYmd(from.value).value))
  {
    if !(Given(from) && Given(to)) then Ok(AllDates)
    else match (Dates.ParseYmd(from.value), Dates.ParseYmd(to.value))
      case (Some(s), Some(e)) =>
        Dates.BeforeTotal(s, e);
        if Dates.Before(e, s) then Err(HttpError(400, InvertedRange)) else Ok(Between(s, e))
      case _ => Err(HttpError(400, InvalidRangeFormat))
  }

  /** The paged listing catches every exception, its own HTTP 400 included, and answers
    * 500 with `str(e)`, which for an `HTTPException` is "status: detail". */
  function ListingError(e: HttpError): (r: HttpError)
    ensures r.status == 500
  {
    HttpError(500, "Database error: " + FormCommon.IntToString(e.status) + ": " + e.detail)
  }

  /** The filters `getCommitteeNoBYQueryParams` appends, in order, once the date range is
    * known: each text filter only for a truthy parameter, with the parameter stripped. The
    * source also lower-cases the title pattern; `ilike` ignores case, so that changes no
    * result (`LowerCasedTitleSameRows`) and the pattern is kept as given here. */
  function FiltersFor(no: Option<string>, title: Option<string>, boss: Option<string>, range: DateFilter): (r: seq<Filter>)
    ensures |r| <= 5
  {
    NoFilter(no) + TitleFilter(title) + BossFilter(boss) + RangeFilters(range)
  }

  function NoFilter(no: Option<string>): seq<Filter> {
    if Given(no) then [NoEquals(Trim(no.value))] else []
  }

  function TitleFilter(title: Option<string>): seq<Filter> {
    if Given(title) then [TitleLike(Trim(title.value))] else []
  }

  function BossFilter(boss: Option<string>): seq<Filter> {
    if Given(boss) then [BossLike(Trim(boss.value))] else []
  }

  function RangeFilters(range: DateFilter): seq<Filter> {
    if range.Between? then [DateNotNull, DateBetween(range.start, range.end)] else []
  }

  /** The whole filter list, or the error the listing answers for a bad range. */
  function ListingFilters(no: Option<string>, title: Option<string>, boss: Option<string>,
                          from: Option<string>, to: Option<string>): (r: Result<seq<Filter>, HttpError>)
    ensures r.Err? <==> DateRange(from, to).Err?
    ensures r.Err? ==> r.error == ListingError(DateRange(from, to).error)
    ensures r.Ok? ==> r.value == FiltersFor(no, title, boss, DateRange(from, to).value)
  {
    match DateRange(from, to)
    case Err(e) => Err(ListingError(e))
    case Ok(range) => Ok(FiltersFor(no, title, boss, range))
  }

  /** The step-by-step `filters.append` of the listing. */
  method BuildListingFilters(no: Option<string>, title: Option<string>, boss: Option<string>,
                             from: Option<string>, to: Option<string>) returns (r: Result<seq<Filter>, HttpError>)
    ensures r == ListingFilters(no, title, boss, from, to)
  {
    var filters: seq<Filter> := [];
    if Given(no) {
      filters := filters + [NoEquals(Trim(no.value))];
    }
    assert filters == NoFilter(no);
    if Given(title) {
      filters := filters + [TitleLike(Trim(title.value))];
    }
    assert filters == NoFilter(no) + TitleFilter(title);
    if Given(boss) {
      filters := filters + [BossLike(Trim(boss.value))];
    }
    assert filters == NoFilter(no) + TitleFilter(title) + BossFilter(boss);
    var range := DateRange(from, to);
    if range.Err? {
      return Err(ListingError(range.error));
    }
    if range.value.Between? {
      filters := filters + [DateNotNull, DateBetween(range.value.start, range.value.end)];
    }
    assert filters == FiltersFor(no, title, boss, range.value);
    return Ok(filters);
  }

  /** Whether a committee row passes a filter; `ilike` is a case-insensitive substring
    * test. */
  predicate Passes(f: Filter, row: Record) {
    match f
    case NoEquals(no) => Column(row, "committeeNo") == VStr(no)
    case TitleLike(p) => Column(row, "committeeTitle").VStr? && Contains(ToLower(Column(row, "committeeTitle").s), ToLower(p))
    case BossLike(p) => Column(row, "committeeBossName").VStr? && Contains(ToLower(Column(row, "committeeBossName").s), ToLower(p))
    case DateNotNull => Column(row, "committeeDate").VDate?
    case DateBetween(s, e) =>
      Column(row, "committeeDate").VDate?
      && Dates.NotAfter(s, Column(row, "committeeDate").d) && Dates.NotAfter(Column(row, "committeeDate").d, e)
  }

  /** `query.filter(*filters)`: a row is selected when it passes every filter. */
  predicate PassesAll(fs: seq<Filter>, row: Record) {
    forall i :: 0 <= i < |fs| ==> Passes(fs[i], row)
  }

  lemma PassesAllAppend(a: seq<Filter>, b: seq<Filter>, row: Record)
    ensures PassesAll(a + b, row) <==> PassesAll(a, row) && PassesAll(b, row)
  {
    var ab := a + b;
    assert forall i :: 0 <= i < |a| ==> ab[i] == a[i];
    assert forall i :: 0 <= i < |b| ==> ab[|a| + i] == b[i];
    assert forall i :: |a| <= i < |ab| ==> ab[i] == b[i - |a|];
  }

  /** The listing's filter list selects exactly the rows that match every given parameter
    * and lie in the date range; with no parameter it selects every row. */
  lemma {:induction false} ListingFilterMeaning(no: Option<string>, title: Option<string>, boss: Option<string>,
                                                range: DateFilter, row: Record)
    ensures PassesAll(FiltersFor(no, title, boss, range), row) <==>
      && (Given(no) ==> Column(row, "committeeNo") == VStr(Trim(no.value)))
      && (Given(title) ==> Passes(TitleLike(Trim(title.value)), row))
      && (Given(boss) ==> Passes(BossLike(Trim(boss.value)), row))
      && InRange(range, row)
  {
    var a, b, c, d := NoFilter(no), TitleFilter(title), BossFilter(boss), RangeFilters(range);
    PassesAllAppend(a + b + c, d, row);
    PassesAllAppend(a + b, c, row);
    PassesAllAppend(a, b, row);
    if Given(no) { PassesAllSingle(a[0], row); }
    if Given(title) { PassesAllSingle(b[0], row); }
    if Given(boss) { PassesAllSingle(c[0], row); }
    if range.Between? {
      assert PassesAll(d, row) <==> Passes(d[0], row) && Passes(d[1], row);
    }
  }

  lemma PassesAllSingle(f: Filter, row: Record)
    ensures PassesAll([f], row) <==> Passes(f, row)
  {
    assert [f][0] == f;
  }

  /** Lower-casing the title pattern, as the source does, selects the same rows. */
  lemma LowerCasedTitleSameRows(p: string, row: Record)
    ensures Passes(TitleLike(ToLower(p)), row) <==> Passes(TitleLike(p), row)
  {
    assert ToLower(ToLower(p)) == ToLower(p);
  }

  /** Rows of one page of the listing, numbered from the offset. */
  datatype ListedRow = ListedRow(serialNo: int, row: Record, pdfFiles: seq<PdfFile>)

  /** A PDF row joined with its uploader, and the entry the listing shows for it. */
  datatype PdfJoinRow = PdfJoinRow(id: int, committeeNo: string, pdf: string,
                                   currentDate: Option<Dates.CalendarDate>, username: Option<string>)
  datatype PdfFile = PdfFile(id: int, pdf: string, currentDate: Option<string>, username: Option<string>)

  function FormatPdf(p: PdfJoinRow): PdfFile {
    PdfFile(p.id, p.pdf, if p.currentDate.Some? then Some(Dates.FormatYmd(p.currentDate.value)) else None, p.username)
  }

  /** The committee numbers the PDF rows mention. */
  function NosOf(rows: seq<PdfJoinRow>): set<string> {
    set i | 0 <= i < |rows| :: rows[i].committeeNo
  }

  /** The entries of one committee, in row order. */
  function FilesOf(rows: seq<PdfJoinRow>, no: string): (r: seq<PdfFile>)
    ensures |r| <= |rows|
    ensures no !in NosOf(rows) ==> r == []
    ensures forall f :: f in r ==> exists i :: 0 <= i < |rows| && rows[i].committeeNo == no && f == FormatPdf(rows[i])
  {
    if rows == [] then []
    else
      var init := rows[..|rows| - 1];
      assert NosOf(init) <= NosOf(rows) by {
        forall x | x in NosOf(init) ensures x in NosOf(rows) {
          var i :| 0 <= i < |init| && init[i].committeeNo == x;
          assert rows[i] == init[i];
        }
      }
      FilesOf(init, no) + (if rows[|rows| - 1].committeeNo == no then [FormatPdf(rows[|rows| - 1])] else [])
  }

  /** `pdf_map`: every committee number mentioned, with its entries in row order. */
  function Grouped(rows: seq<PdfJoinRow>): map<string, seq<PdfFile>> {
    map no | no in NosOf(rows) :: FilesOf(rows, no)
  }

  /** `pdf_map.get(no, [])`. */
  function PdfFilesFor(m: map<string, seq<PdfFile>>, no: string): seq<PdfFile> {
    if no in m then m[no] else []
  }

  /** The listing shows every committee's own entries in row order, and `[]` for a
    * committee without PDF rows. */
  lemma PdfFilesForGrouped(rows: seq<PdfJoinRow>, no: string)
    ensures PdfFilesFor(Grouped(rows), no) == FilesOf(rows, no)
    ensures (forall i :: 0 <= i < |rows| ==> rows[i].committeeNo != no) ==> PdfFilesFor(Grouped(rows), no) == []
  {
    if no in NosOf(rows) {
      var i :| 0 <= i < |rows| && rows[i].committeeNo == no;
    }
  }

  lemma NosOfStep(rows: seq<PdfJoinRow>, i: nat)
    requires i < |rows|
    ensures NosOf(rows[..i + 1]) == NosOf(rows[..i]) + {rows[i].committeeNo}
  {
    var pre, cur := rows[..i], rows[..i + 1];
    forall x | x in NosOf(cur) ensures x in NosOf(pre) + {rows[i].committeeNo} {
      var j :| 0 <= j < |cur| && cur[j].committeeNo == x;
      if j < i { assert pre[j] == cur[j]; }
    }
    forall x | x in NosOf(pre) ensures x in NosOf(cur) {
      var j :| 0 <= j < |pre| && pre[j].committeeNo == x;
      assert cur[j] == pre[j];
    }
    assert cur[i] == rows[i];
  }

  lemma GroupedStep(rows: seq<PdfJoinRow>, i: nat)
    requires i < |rows|
    ensures var g := Grouped(rows[..i]); var p := rows[i];
      Grouped(rows[..i + 1]) == g[p.committeeNo := (if p.committeeNo in g then g[p.committeeNo] else []) + [FormatPdf(p)]]
  {
    var pre, cur := rows[..i], rows[..i + 1];
    NosOfStep(rows, i);
    var g, p := Grouped(pre), rows[i];
    var m := g[p.committeeNo := (if p.committeeNo in g then g[p.committeeNo] else []) + [FormatPdf(p)]];
    assert Grouped(cur).Keys == m.Keys;
    forall no | no in m ensures Grouped(cur)[no] == m[no] {
      FilesOfStep(rows, i, no);
    }
  }

  lemma FilesOfStep(rows: seq<PdfJoinRow>, i: nat, no: string)
    requires i < |rows|
    ensures FilesOf(rows[..i + 1], no)
         == FilesOf(rows[..i], no) + (if rows[i].committeeNo == no then [FormatPdf(rows[i])] else [])
  {
    var cur := rows[..i + 1];
    assert cur[..|cur| - 1] == rows[..i];
    assert cur[|cur| - 1] == rows[i];
  }

  /** The grouping loop over the PDF rows. */
  method GroupPdfs(rows: seq<PdfJoinRow>) returns (m: map<string, seq<PdfFile>>)
    ensures m == Grouped(rows)
  {
    m := map[];
    for i := 0 to |rows|
      invariant m == Grouped(rows[..i])
    {
      var p := rows[i];
      if p.committeeNo !in m {
        m := m[p.committeeNo := []];
      }
      m := m[p.committeeNo := m[p.committeeNo] + [FormatPdf(p)]];
      GroupedStep(rows, i);
    }
    assert rows[..|rows|] == rows;
  }

  /** The `data` of one page: serial numbers from the offset and each committee's PDFs. */
  function PageRows(rows: seq<Record>, page: int, limit: int, pdfRows: seq<PdfJoinRow>): (r: seq<ListedRow>)
    ensures |r| == |rows|
    ensures forall i :: 0 <= i < |r| ==> r[i].serialNo == SerialNo(page, limit, i) && r[i].row == rows[i]
    ensures forall i :: 0 <= i < |r| ==> r[i].pdfFiles == FilesOf(pdfRows, PyStr(Column(rows[i], "committeeNo")))
  {
    var m := Grouped(pdfRows);
    forall no ensures PdfFilesFor(m, no) == FilesOf(pdfRows, no) {
      PdfFilesForGrouped(pdfRows, no);
    }
    seq(|rows|, i requires 0 <= i < |rows| =>
      ListedRow(Offset(page, limit) + i + 1, rows[i], PdfFilesFor(m, PyStr(Column(rows[i], "committeeNo")))))
  }

  // ---------------------------------------------------------------------------
  // Date-range report (`committeeReportMethod`)

  predicate InRange(f: DateFilter, row: Record) {
    match f
    case AllDates => true
    case Between(s, e) =>
      Column(row, "committeeDate").VDate?
      && Dates.NotAfter(s, Column(row, "committeeDate").d) && Dates.NotAfter(Column(row, "committeeDate").d, e)
  }

  function FilterRange(rows: seq<Record>, f: DateFilter): (r: seq<Record>)
    ensures forall x :: x in r <==> x in rows && InRange(f, x)
    ensures |r| <= |rows|
  {
    if rows == [] then []
    else (if InRange(f, rows[0]) then [rows[0]] else []) + FilterRange(rows[1..], f)
  }

  /** The report: the rows inside the range (all rows without one); its HTTP 400 is re-raised
    * unchanged. */
  function Report(rows: seq<Record>, from: Option<string>, to: Option<string>): (r: Result<seq<Record>, HttpError>)
    ensures r.Err? <==> DateRange(from, to).Err?
    ensures r.Err? ==> r.error == DateRange(from, to).error && r.error.status == 400
    ensures r.Ok? && !(Given(from) && Given(to)) ==> r.value == rows
    ensures r.Ok? ==> forall x :: x in r.value <==> x in rows && InRange(DateRange(from, to).value, x)
  {
    match DateRange(from, to)
    case Err(e) => Err(e)
    case Ok(f) =>
      NoFilterKeepsAll(rows);
      Ok(FilterRange(rows, f))
  }

  lemma {:induction false} NoFilterKeepsAll(rows: seq<Record>)
    ensures FilterRange(rows, AllDates) == rows
  {
    if rows != [] {
      NoFilterKeepsAll(rows[1..]);
    }
  }

  /** The same inverted range is answered with 400 by the report but with 500 by the
    * paged listing, whose catch-all wraps the 400. */
  lemma InvertedRangeStatuses(from: string, to: string)
    requires from != "" && to != ""
    requires Dates.ParseYmd(from).Some? && Dates.ParseYmd(to).Some?
    requires Dates.Before(Dates.ParseYmd(to).value, Dates.ParseYmd(from).value)
    ensures Report([], Some(from), Some(to)) == Err(HttpError(400, InvertedRange))
    ensures ListingFilters(None, None, None, Some(from), Some(to)).Err?
    ensures ListingFilters(None, None, None, Some(from), Some(to)).error.status == 500
  {
  }

  // ---------------------------------------------------------------------------
  // `UpdateRecord`

  /** One `setattr` of the update loop: only keys that are columns of the row are written. */
  function SetIfColumn(r: Record, f: Field): Record {
    if f.key in r then r[f.key := f.value] else r
  }

  /** The row after `for key, value in update_data.items(): if hasattr(...): setattr(...)`. */
  function Applied(r: Record, d: Dict): Record {
    if d == [] then r else SetIfColumn(Applied(r, d[..|d| - 1]), d[|d| - 1])
  }

  /** The loop never adds or removes a column. */
  lemma {:induction false} AppliedKeys(r: Record, d: Dict)
    ensures Applied(r, d).Keys == r.Keys
  {
    if d != [] {
      AppliedKeys(r, d[..|d| - 1]);
    }
  }

  /** A column the dictionary does not mention keeps its old value. */
  lemma {:induction false} AppliedUntouched(r: Record, d: Dict, k: string)
    requires k !in KeysOf(d)
    ensures Column(Applied(r, d), k) == Column(r, k)
  {
    if d != [] {
      var init := d[..|d| - 1];
      assert k != d[|d| - 1].key;
      assert k !in KeysOf(init) by {
        assert forall i :: 0 <= i < |init| ==> init[i] == d[i];
      }
      AppliedUntouched(r, init, k);
    }
  }

  /** A column the dictionary mentions holds the dictionary's value for it. */
  lemma {:induction false} AppliedSet(r: Record, d: Dict, k: string)
    requires UniqueKeys(d) && k in r && k in KeysOf(d)
    ensures k in Applied(r, d) && Applied(r, d)[k] == Get(d, k)
  {
    AppliedKeys(r, d);
    var init := d[..|d| - 1];
    AppliedKeys(r, init);
    if k == d[|d| - 1].key {
      GetAt(d, |d| - 1);
    } else {
      var i :| 0 <= i < |d| && d[i].key == k;
      assert i < |init| && init[i] == d[i];
      assert UniqueKeys(init);
      AppliedSet(r, init, k);
      GetAt(d, i);
      GetAt(init, i);
    }
  }

  /** The `setattr` loop. */
  method ApplyUpdate(r: Record, d: Dict) returns (out: Record)
    ensures out == Applied(r, d)
  {
    out := r;
    for i := 0 to |d|
      invariant out == Applied(r, d[..i])
    {
      assert d[..i + 1][..i] == d[..i];
      out := SetIfColumn(out, d[i]);
    }
    assert d[..|d|] == d;
  }

  /** The position of a key in a dictionary. */
  function IndexOfKey(d: Dict, key: string): (i: nat)
    requires key in KeysOf(d)
    ensures i < |d| && d[i].key == key
  {
    if d[0].key == key then 0
    else
      assert KeysOf(d) == [d[0].key] + KeysOf(d[1..]);
      1 + IndexOfKey(d[1..], key)
  }

  /** `d[key] = value`: replaces the value in place, or appends a new entry. */
  function Put(d: Dict, key: string, v: Value): (r: Dict)
    ensures forall k :: k in KeysOf(r) <==> k in KeysOf(d) || k == key
    ensures UniqueKeys(d) ==> UniqueKeys(r)
  {
    if key in KeysOf(d) then
      var r := d[IndexOfKey(d, key) := Field(key, v)];
      assert KeysOf(r) == KeysOf(d);
      r
    else
      var r := d + [Field(key, v)];
      assert KeysOf(r) == KeysOf(d) + [key];
      r
  }

  /** The corrected `countPdf` of a new PDF: the count before the insert plus one, as
    * `addCommitteeDoc` records it and as the file name numbers it. */
  function NextCountPdf(count: nat): (c: nat)
    ensures c > count
  {
    count + 1
  }

  /** The `countPdf` of the update path as written: the count before the insert. */
  function UpdateCountPdfAsWritten(count: nat): nat {
    count
  }

  /** The committee's PDF rows each carry their ordinal among the committee's rows, as
    * `addCommitteeDoc` numbers its first document. */
  ghost predicate Numbered(rows: seq<PdfService.PdfRow>, committeeId: int) {
    forall i :: 0 <= i < |rows| && rows[i].committeeID == committeeId ==>
      rows[i].countPdf == PdfService.PdfCount(rows[..i + 1], committeeId)
  }

  /** A committee with PDF rows has a last one, and the rows up to it hold them all. */
  lemma {:induction false} LastPdfRow(rows: seq<PdfService.PdfRow>, committeeId: int) returns (k: nat)
    requires PdfService.PdfCount(rows, committeeId) > 0
    ensures k < |rows| && rows[k].committeeID == committeeId
    ensures PdfService.PdfCount(rows[..k + 1], committeeId) == PdfService.PdfCount(rows, committeeId)
    decreases |rows|
  {
    var n := |rows| - 1;
    var front := rows[..n];
    assert rows == front + [rows[n]];
    PdfService.PdfCountAppend(front, rows[n], committeeId);
    if rows[n].committeeID == committeeId {
      k := n;
      assert rows[..k + 1] == rows;
    } else {
      k := LastPdfRow(front, committeeId);
      assert front[..k + 1] == rows[..k + 1];
    }
  }

  /** As written, the update path gives a committee's new PDF row the `countPdf` of a row the
    * committee already has, whenever its rows so far were numbered by ordinal. */
  lemma UpdateCountPdfRepeats(rows: seq<PdfService.PdfRow>, committeeId: int)
    requires Numbered(rows, committeeId) && PdfService.PdfCount(rows, committeeId) > 0
    ensures exists k :: (0 <= k < |rows| && rows[k].committeeID == committeeId &&
                         rows[k].countPdf == UpdateCountPdfAsWritten(PdfService.PdfCount(rows, committeeId)))
  {
    var k := LastPdfRow(rows, committeeId);
    assert rows[k].countPdf == PdfService.PdfCount(rows[..k + 1], committeeId);
  }

  /** With the corrected count every new PDF row carries its ordinal among the committee's
    * PDF rows, so the numbering by ordinal is kept. */
  lemma CountPdfIsOrdinal(rows: seq<PdfService.PdfRow>, committeeId: int, id: int, path: string)
    requires Numbered(rows, committeeId)
    ensures var n := NextCountPdf(PdfService.PdfCount(rows, committeeId));
      && PdfService.PdfCount(rows + [PdfService.PdfRow(id, committeeId, n, path)], committeeId) == n
      && Numbered(rows + [PdfService.PdfRow(id, committeeId, n, path)], committeeId)
  {
    var n := NextCountPdf(PdfService.PdfCount(rows, committeeId));
    var after := rows + [PdfService.PdfRow(id, committeeId, n, path)];
    PdfService.PdfCountAppend(rows, PdfService.PdfRow(id, committeeId, n, path), committeeId);
    forall i | 0 <= i < |after| && after[i].committeeID == committeeId
      ensures after[i].countPdf == PdfService.PdfCount(after[..i + 1], committeeId)
    {
      if i < |rows| {
        assert after[..i + 1] == rows[..i + 1];
      } else {
        assert after[..i + 1] == after;
      }
    }
  }

  const NoFieldsDetail := "No fields provided for update"

  /** The committee and PDF tables. */
  class CommitteeDb {
    var committees: map<int, Record>
    var nextId: int
    var pdfs: seq<PdfService.PdfRow>
    var nextPdfId: int

    /** Every stored committee row has exactly the table's columns, and the identity
      * counter is past every id a committee or a PDF row refers to. */
    ghost predicate Valid()
      reads this
    {
      && (forall i :: i in committees ==> IsRecord(committees[i]) && i < nextId)
      && (forall j :: 0 <= j < |pdfs| ==> pdfs[j].committeeID < nextId)
    }

    constructor (committees: map<int, Record>, pdfs: seq<PdfService.PdfRow>, nextId: int, nextPdfId: int)
      requires forall i :: i in committees ==> IsRecord(committees[i]) && i < nextId
      requires forall j :: 0 <= j < |pdfs| ==> pdfs[j].committeeID < nextId
      ensures Valid()
      ensures this.committees == committees && this.pdfs == pdfs
      ensures this.nextId == nextId && this.nextPdfId == nextPdfId
    {
      this.committees := committees;
      this.pdfs := pdfs;
      this.nextId := nextId;
      this.nextPdfId := nextPdfId;
    }

    /** `insertCommitteesDocsData`: stores a new row under the next identity and returns
      * that id. */
    method InsertCommittee(row: Record) returns (id: int)
      requires Valid() && IsRecord(row)
      modifies this
      ensures Valid()
      ensures id == old(nextId) && id !in old(committees)
      ensures committees == old(committees)[id := row["id" := VInt(id)]]
      ensures nextId == old(nextId) + 1 && pdfs == old(pdfs) && nextPdfId == old(nextPdfId)
    {
      id := nextId;
      committees := committees[id := row["id" := VInt(id)]];
      nextId := nextId + 1;
    }

    /** `insert_pdf`: adds a PDF row and commits it. */
    method InsertPdf(committeeId: int, countPdf: int, path: string)
      requires Valid() && committeeId < nextId
      modifies this
      ensures Valid()
      ensures pdfs == old(pdfs) + [PdfService.PdfRow(old(nextPdfId), committeeId, countPdf, path)]
      ensures nextPdfId == old(nextPdfId) + 1
      ensures committees == old(committees) && nextId == old(nextId)
    {
      pdfs := pdfs + [PdfService.PdfRow(nextPdfId, committeeId, countPdf, path)];
      nextPdfId := nextPdfId + 1;
    }

    /**
     * The file block of `UpdateRecord`: the committee number and date come from the update
     * or else from the row; the PDF is saved under the next document number and its row
     * inserted (and committed) before the committee row is written. As written, the row
     * records the count before the insert, not the number the file name carries.
     */
    method AttachFile(id: int, d: Dict, existing: Record, content: SavePdf.Bytes, area: SavePdf.UploadArea,
                      uploadDir: string, now: SavePdf.DateTime, sep: string) returns (r: Result<string, HttpError>)
      requires SavePdf.ValidDateTime(now)
      requires Valid() && id in committees
      modifies this, area
      ensures Valid()
      ensures var no := if Truthy(Get(d, "committeeNo")) then Get(d, "committeeNo") else Column(existing, "committeeNo");
              var date := if Truthy(Get(d, "committeeDate")) then Get(d, "committeeDate") else Column(existing, "committeeDate");
        && (!Truthy(no) ==> r == Err(HttpError(400, "committeeNo is required for file upload")))
        && (Truthy(no) && !Truthy(date) ==> r == Err(HttpError(400, "committeeDate is required for file upload")))
        && (Truthy(no) && Truthy(date) ==>
              var t := SavePdf.SaveTarget(PyStr(no), PyStr(date), PdfService.PdfCount(old(pdfs), id), uploadDir, now, sep);
              && (t.None? ==> r.Err? && r.error.status == 500)
              && (t.Some? && (t.value.path in old(area.files) || t.value.path in old(area.dirs)) ==>
                    r == Err(HttpError(409, t.value.path)))
              && (r.Ok? ==> t.Some? && r.value == t.value.path && area.files == old(area.files)[t.value.path := content]))
      ensures r.Ok? ==> pdfs == old(pdfs) + [PdfService.PdfRow(old(nextPdfId), id,
                                                UpdateCountPdfAsWritten(PdfService.PdfCount(old(pdfs), id)), r.value)]
      ensures r.Ok? ==> nextPdfId == old(nextPdfId) + 1
      ensures r.Err? ==> pdfs == old(pdfs) && area.files == old(area.files)
      ensures committees == old(committees) && nextId == old(nextId)
    {
      var no := if Truthy(Get(d, "committeeNo")) then Get(d, "committeeNo") else Column(existing, "committeeNo");
      var date := if Truthy(Get(d, "committeeDate")) then Get(d, "committeeDate") else Column(existing, "committeeDate");
      if !Truthy(no) {
        return Err(HttpError(400, "committeeNo is required for file upload"));
      }
      if !Truthy(date) {
        return Err(HttpError(400, "committeeDate is required for file upload"));
      }
      var dateText := PyStr(date);
      var count := PdfService.PdfCount(pdfs, id);
      var saved := area.SavePdfToServer(content, PyStr(no), dateText, count, uploadDir, now, sep);
      if saved.Err? {
        if saved.error.AlreadyExists? {
          return Err(HttpError(409, saved.error.path));
        }
        return Err(HttpError(500, "Error saving file: "));
      }
      InsertPdf(id, UpdateCountPdfAsWritten(count), saved.value);
      return Ok(saved.value);
    }

    /**
     * `UpdateRecord(id, update_data, file)`. `commitFails` says whether the final commit
     * raises; every failure rolls the session back, so the committee rows change only on
     * success. The returned row is the stored one (`file_path` is not a column and comes
     * back as None, so it is not part of the row).
     */
    method UpdateRecord(id: int, d: Dict, file: Option<SavePdf.Bytes>, area: SavePdf.UploadArea,
                        uploadDir: string, now: SavePdf.DateTime, sep: string, commitFails: bool)
      returns (r: Result<Record, HttpError>)
      requires SavePdf.ValidDateTime(now)
      requires Valid() && UniqueKeys(d)
      modifies this, area
      ensures Valid()
      ensures d == [] && file.None? ==> r == Err(HttpError(400, NoFieldsDetail))
      ensures !(d == [] && file.None?) && id !in old(committees) ==> r.Err? && r.error.status == 404
      ensures r.Ok? ==> id in old(committees) && committees == old(committees)[id := r.value]
      ensures r.Ok? ==> RowUpdated(old(committees)[id], d, r.value)
      ensures r.Err? ==> committees == old(committees)
      ensures commitFails ==> r.Err?
      ensures file.None? ==> pdfs == old(pdfs) && area.files == old(area.files)
      ensures file.Some? && r.Ok? ==>
                exists path :: (&& pdfs == old(pdfs) + [PdfService.PdfRow(old(nextPdfId), id,
                                    UpdateCountPdfAsWritten(PdfService.PdfCount(old(pdfs), id)), path)]
                                && area.files == old(area.files)[path := file.value])
      ensures nextId == old(nextId)
    {
      if d == [] && file.None? {
        return Err(HttpError(400, NoFieldsDetail));
      }
      if id !in committees {
        return Err(NotFound(id));
      }
      if file.Some? {
        r := UpdateWithFile(id, d, file.value, area, uploadDir, now, sep, commitFails);
      } else {
        r := StoreUpdate(id, d, None, commitFails);
      }
    }

    /** `UpdateRecord` with a file: the file block, then the update with `file_path`. */
    method UpdateWithFile(id: int, d: Dict, content: SavePdf.Bytes, area: SavePdf.UploadArea,
                          uploadDir: string, now: SavePdf.DateTime, sep: string, commitFails: bool)
      returns (r: Result<Record, HttpError>)
      requires SavePdf.ValidDateTime(now)
      requires Valid() && id in committees && UniqueKeys(d)
      modifies this, area
      ensures Valid()
      ensures r.Ok? ==> committees == old(committees)[id := r.value]
      ensures r.Ok? ==> RowUpdated(old(committees)[id], d, r.value)
      ensures r.Err? ==> committees == old(committees)
      ensures commitFails ==> r.Err?
      ensures r.Ok? ==>
                exists path :: (&& pdfs == old(pdfs) + [PdfService.PdfRow(old(nextPdfId), id,
                                    UpdateCountPdfAsWritten(PdfService.PdfCount(old(pdfs), id)), path)]
                                && area.files == old(area.files)[path := content])
      ensures nextId == old(nextId)
    {
      var attached := AttachFile(id, d, committees[id], content, area, uploadDir, now, sep);
      if attached.Err? {
        return Err(attached.error);
      }
      r := StoreUpdate(id, d, Some(attached.value), commitFails);
    }

    /** The end of `UpdateRecord`: `file_path` joins the update when a file was saved, the
      * `setattr` loop runs over the row, and the commit either stores the row or fails. */
    method StoreUpdate(id: int, d: Dict, path: Option<string>, commitFails: bool)
      returns (r: Result<Record, HttpError>)
      requires Valid() && id in committees && UniqueKeys(d)
      modifies this
      ensures Valid()
      ensures r.Ok? ==> committees == old(committees)[id := r.value]
      ensures r.Ok? ==> RowUpdated(old(committees)[id], d, r.value)
      ensures r.Err? <==> commitFails
      ensures r.Err? ==> committees == old(committees)
      ensures pdfs == old(pdfs) && nextId == old(nextId) && nextPdfId == old(nextPdfId)
    {
      var existing := committees[id];
      assert "file_path" !in existing;
      var data := if path.Some? then Put(d, "file_path", VStr(path.value)) else d;
      var updated := ApplyUpdate(existing, data);
      if commitFails {
        return Err(HttpError(500, "Database error: "));
      }
      UpdateKeepsColumns(existing, d, path);
      committees := committees[id := updated];
      return Ok(updated);
    }
  }

  /** The row after an update: the same columns, those the dictionary names holding its
    * values, the others unchanged. */
  ghost predicate RowUpdated(before: Record, d: Dict, after: Record) {
    && after.Keys == before.Keys
    && (forall k :: k in after && k in KeysOf(d) ==> after[k] == Get(d, k))
    && (forall k :: k in after && k !in KeysOf(d) ==> after[k] == before[k])
  }

  /** The `setattr` loop with the update dictionary, `file_path` added or not, changes exactly
    * the columns the dictionary names and adds none. */
  lemma UpdateKeepsColumns(existing: Record, d: Dict, path: Option<string>)
    requires UniqueKeys(d) && "file_path" !in existing
    ensures var data := if path.Some? then Put(d, "file_path", VStr(path.value)) else d;
      RowUpdated(existing, d, Applied(existing, data))
  {
    var data := if path.Some? then Put(d, "file_path", VStr(path.value)) else d;
    assert UniqueKeys(data);
    AppliedKeys(existing, data);
    forall k | k in existing && k in KeysOf(d) ensures Applied(existing, data)[k] == Get(d, k) {
      if path.Some? {
        PutKeepsOthers(d, "file_path", VStr(path.value), k);
      }
      AppliedSet(existing, data, k);
    }
    forall k | k in existing && k !in KeysOf(d) ensures Applied(existing, data)[k] == existing[k] {
      if path.Some? {
        PutKeepsOthers(d, "file_path", VStr(path.value), k);
      }
      AppliedUntouched(existing, data, k);
    }
  }

  /** Putting one key leaves the others alone. */
  lemma PutKeepsOthers(d: Dict, key: string, v: Value, k: string)
    requires UniqueKeys(d) && k != key
    ensures Get(Put(d, key, v), k) == Get(d, k)
    ensures k in KeysOf(Put(d, key, v)) <==> k in KeysOf(d)
  {
    var r := Put(d, key, v);
    if k in KeysOf(d) {
      var i :| 0 <= i < |d| && d[i] == Field(k, Get(d, k));
      assert r[i] == d[i];
      GetAt(r, i);
    }
  }
}
