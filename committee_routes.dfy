/**
 * The committee routes of the back end: the whitelist that turns a JSON body
 * or a multipart form into the update dictionary, the checks the two update
 * routes make before calling the service and the way they answer, the
 * creation route's document count, the existence check for a committee number
 * within a year, and the percent-decoding of the boss-name path segment.
 *
 * The update service the routes call is an oracle: it returns a row, raises an
 * `HTTPException`, or raises anything else (carried by its message).
 */
module CommitteeRoutes {
  import opened Wrappers
  import opened Text
  import Dates
  import SavePdf
  import PdfService
  import CommitteeModel
  import opened CommitteeService

  // ---------------------------------------------------------------------------
  // The update dictionary

  /** The keys the update routes copy, in the order they copy them. */
  const UpdatableKeys: seq<string> := ["committeeNo", "committeeDate", "committeeTitle", "committeeBossName",
                                       "sex", "committeeCount", "notes", "currentDate", "userID"]

  lemma UpdatableKeysDistinct()
    ensures forall i, j :: 0 <= i < j < |UpdatableKeys| ==> UpdatableKeys[i] != UpdatableKeys[j]
  {
  }

  /** The dictionary built by copying, key by key in `keys` order, every value of `data`
    * that is not None. */
  function WhitelistOf(data: Dict, keys: seq<string>): (r: Dict)
    ensures |r| <= |keys|
  {
    if keys == [] then [] else Copy(WhitelistOf(data, keys[..|keys| - 1]), data, keys[|keys| - 1])
  }

  /** `if data.get(k) is not None: update_data[k] = data[k]` for a key not yet present. */
  function Copy(u: Dict, data: Dict, k: string): Dict {
    u + (if Get(data, k) != VNone then [Field(k, Get(data, k))] else [])
  }

  lemma WhitelistStep(data: Dict, keys: seq<string>, i: nat)
    requires i < |keys|
    ensures WhitelistOf(data, keys[..i + 1]) == Copy(WhitelistOf(data, keys[..i]), data, keys[i])
  {
    assert keys[..i + 1][..i] == keys[..i];
  }

  /** `update_data` of `updateRecordWithoutFile`. */
  function Whitelisted(data: Dict): Dict {
    WhitelistOf(data, UpdatableKeys)
  }

  /** Each entry of the whitelist copies a non-None value of a listed key, and every such
    * value is copied. */
  lemma {:induction false} WhitelistOfMembers(data: Dict, keys: seq<string>, f: Field)
    ensures f in WhitelistOf(data, keys) <==> f.key in keys && f.value == Get(data, f.key) && f.value != VNone
  {
    if keys != [] {
      var init, k := keys[..|keys| - 1], keys[|keys| - 1];
      WhitelistOfMembers(data, init, f);
      assert keys == init + [k];
      assert f.key in keys <==> f.key in init || f.key == k;
    }
  }

  /** The whitelist keeps exactly the listed keys whose value is not None, each with the
    * value the request gave it, and no key twice. */
  lemma WhitelistedMeaning(data: Dict)
    ensures var u := Whitelisted(data);
      && UniqueKeys(u)
      && (forall k :: k in KeysOf(u) <==> k in UpdatableKeys && Get(data, k) != VNone)
      && (forall k :: k in KeysOf(u) ==> Get(u, k) == Get(data, k))
  {
    var u := Whitelisted(data);
    forall k ensures k in KeysOf(u) <==> k in UpdatableKeys && Get(data, k) != VNone {
      if k in KeysOf(u) {
        var i :| 0 <= i < |u| && u[i].key == k;
        WhitelistOfMembers(data, UpdatableKeys, u[i]);
      }
      WhitelistOfMembers(data, UpdatableKeys, Field(k, Get(data, k)));
    }
    forall k | k in KeysOf(u) ensures Get(u, k) == Get(data, k) {
      var i :| 0 <= i < |u| && u[i] == Field(k, Get(u, k));
      WhitelistOfMembers(data, UpdatableKeys, u[i]);
    }
    WhitelistUnique(data, UpdatableKeys);
  }

  lemma {:induction false} WhitelistUnique(data: Dict, keys: seq<string>)
    requires forall i, j :: 0 <= i < j < |keys| ==> keys[i] != keys[j]
    ensures UniqueKeys(WhitelistOf(data, keys))
  {
    UpdatableKeysDistinct();
    if keys != [] {
      var init, k := keys[..|keys| - 1], keys[|keys| - 1];
      WhitelistUnique(data, init);
      var prev := WhitelistOf(data, init);
      forall i | 0 <= i < |prev| ensures prev[i].key != k {
        WhitelistOfMembers(data, init, prev[i]);
        var j :| 0 <= j < |init| && init[j] == prev[i].key;
      }
    }
  }

  /** Keys outside the list never reach the update: neither the stored-only
    * `sexCountPerCommittee` nor the uploader's `username`. */
  lemma UnlistedKeysDropped(data: Dict)
    ensures "sexCountPerCommittee" !in KeysOf(Whitelisted(data))
    ensures "username" !in KeysOf(Whitelisted(data))
  {
    assert forall i :: 0 <= i < |UpdatableKeys| ==> |UpdatableKeys[i]| != 8 && |UpdatableKeys[i]| != 20;
    WhitelistedMeaning(data);
  }

  /** The update is empty exactly when every listed key is missing or None. */
  lemma NoFieldsIff(data: Dict)
    ensures Whitelisted(data) == [] <==> forall k :: k in UpdatableKeys ==> Get(data, k) == VNone
  {
    WhitelistedMeaning(data);
    var u := Whitelisted(data);
    if u != [] {
      assert u[0].key in KeysOf(u);
    }
  }

  /** One statement `if data.get(k) is not None: update_data[k] = data[k]`. */
  method CopyIfPresent(u: Dict, data: Dict, k: string) returns (v: Dict)
    ensures v == Copy(u, data, k)
  {
    v := u;
    if Get(data, k) != VNone {
      v := v + [Field(k, Get(data, k))];
    }
  }

  /** The nine conditional assignments of `updateRecordWithoutFile`, one per listed key in
    * list order; a key is new each time, so an assignment appends it. */
  method UpdateDataWithoutFile(data: Dict) returns (u: Dict)
    ensures u == Whitelisted(data)
  {
    u := [];
    assert UpdatableKeys[..0] == [];
    u := CopyListed(u, data, 0);
    u := CopyListed(u, data, 1);
    u := CopyListed(u, data, 2);
    u := CopyListed(u, data, 3);
    u := CopyListed(u, data, 4);
    u := CopyListed(u, data, 5);
    u := CopyListed(u, data, 6);
    u := CopyListed(u, data, 7);
    u := CopyListed(u, data, 8);
    assert UpdatableKeys[..9] == UpdatableKeys;
  }

  /** The assignment for the `i`-th listed key extends the copy of the keys before it. */
  method CopyListed(u: Dict, data: Dict, i: nat) returns (v: Dict)
    requires i < |UpdatableKeys| && u == WhitelistOf(data, UpdatableKeys[..i])
    ensures v == WhitelistOf(data, UpdatableKeys[..i + 1])
  {
    v := CopyIfPresent(u, data, UpdatableKeys[i]);
    WhitelistStep(data, UpdatableKeys, i);
  }

  // ---------------------------------------------------------------------------
  // The two update routes

  /** What the update service does with a dictionary: returns the stored row, raises an
    * `HTTPException`, or raises any other exception, given by its message. */
  datatype Outcome = Returned(row: Record) | Raised(error: HttpError) | Crashed(message: string)

  /** The body of a successful update. */
  datatype UpdateReply = UpdateReply(message: string, data: Record)

  /** `except Exception as e`: status 500 with the message after a fixed prefix. */
  function ServerError(message: string): (e: HttpError)
    ensures e.status == 500 && StartsWith(e.detail, "Server error: ")
    ensures e.detail[|"Server error: "|..] == message
  {
    HttpError(500, "Server error: " + message)
  }

  /** `except HTTPException: raise` and `except Exception as e: raise HTTPException(500, ...)`. */
  function Answer(o: Outcome, message: string): (r: Result<UpdateReply, HttpError>)
    ensures o.Returned? <==> r.Ok?
    ensures o.Raised? ==> r == Err(o.error)
    ensures o.Crashed? ==> r.Err? && r.error.status == 500 && StartsWith(r.error.detail, "Server error: ")
  {
    match o
    case Returned(row) => Ok(UpdateReply(message, row))
    case Raised(e) => Err(e)
    case Crashed(m) => Err(ServerError(m))
  }

  /** `updateRecordWithoutFile`: an update with no usable field is refused with 400 before
    * the service is called; otherwise the service's answer is passed on. */
  method UpdateRecordWithoutFile(data: Dict, service: Dict -> Outcome) returns (r: Result<UpdateReply, HttpError>)
    ensures (exists k :: k in UpdatableKeys && Get(data, k) != VNone) ==>
              r == Answer(service(Whitelisted(data)), "Record updated successfully")
    ensures (forall k :: k in UpdatableKeys ==> Get(data, k) == VNone) ==> r == Err(HttpError(400, NoFieldsDetail))
  {
    var u := UpdateDataWithoutFile(data);
    NoFieldsIff(data);
    if u == [] {
      return Err(HttpError(400, NoFieldsDetail));
    }
    r := Answer(service(u), "Record updated successfully");
  }

  /** The multipart form of `updateRecordWithFile`; the dates arrive parsed as `date`. */
  datatype UpdateForm = UpdateForm(
    committeeNo: Option<string>, committeeDate: Option<Dates.CalendarDate>, committeeTitle: Option<string>,
    committeeBossName: Option<string>, sex: Option<string>, committeeCount: Option<int>, notes: Option<string>,
    currentDate: Option<Dates.CalendarDate>, userID: Option<int>, username: Option<string>)

  function StrValue(v: Option<string>): Value { if v.Some? then VStr(v.value) else VNone }
  function DateValue(v: Option<Dates.CalendarDate>): Value { if v.Some? then VDate(v.value) else VNone }
  function IntValue(v: Option<int>): Value { if v.Some? then VInt(v.value) else VNone }

  /** The dictionary literal the comprehension iterates over. */
  function FormDict(p: UpdateForm): (d: Dict)
    ensures KeysOf(d) == UpdatableKeys
  {
    [Field("committeeNo", StrValue(p.committeeNo)), Field("committeeDate", DateValue(p.committeeDate)),
     Field("committeeTitle", StrValue(p.committeeTitle)), Field("committeeBossName", StrValue(p.committeeBossName)),
     Field("sex", StrValue(p.sex)), Field("committeeCount", IntValue(p.committeeCount)),
     Field("notes", StrValue(p.notes)), Field("currentDate", DateValue(p.currentDate)),
     Field("userID", IntValue(p.userID))]
  }

  /** `{k: v for k, v in d.items() if v is not None}`. */
  function NonNone(d: Dict): (r: Dict)
    ensures |r| <= |d|
  {
    if d == [] then []
    else NonNone(d[..|d| - 1]) + (if d[|d| - 1].value != VNone then [d[|d| - 1]] else [])
  }

  /** Over a dictionary with distinct keys, the comprehension keeps the same entries, in the
    * same order, as copying its keys one by one. */
  lemma {:induction false} NonNoneIsWhitelist(d: Dict, n: nat)
    requires UniqueKeys(d) && n <= |d|
    ensures NonNone(d[..n]) == WhitelistOf(d, KeysOf(d)[..n])
  {
    if n > 0 {
      NonNoneIsWhitelist(d, n - 1);
      NonNoneStep(d, n);
      var ks := KeysOf(d);
      WhitelistStep(d, ks, n - 1);
      assert ks[n - 1] == d[n - 1].key;
      CopyEntry(d, WhitelistOf(d, ks[..n - 1]), n - 1);
    }
  }

  /** Copying the key of an entry of `d` copies that very entry, when its value is not None. */
  lemma CopyEntry(d: Dict, u: Dict, i: nat)
    requires UniqueKeys(d) && i < |d|
    ensures Copy(u, d, d[i].key) == u + (if d[i].value != VNone then [d[i]] else [])
  {
    GetAt(d, i);
  }

  lemma NonNoneStep(d: Dict, n: nat)
    requires 0 < n <= |d|
    ensures NonNone(d[..n]) == NonNone(d[..n - 1]) + (if d[n - 1].value != VNone then [d[n - 1]] else [])
  {
    assert d[..n][..n - 1] == d[..n - 1];
  }

  /** The with-file route builds the very dictionary the JSON route would build from the
    * same values: the non-None ones among the nine fields, and never `username`. */
  lemma WithFileUpdateIsWhitelist(p: UpdateForm)
    ensures NonNone(FormDict(p)) == Whitelisted(FormDict(p))
    ensures "username" !in KeysOf(NonNone(FormDict(p)))
    ensures forall k :: k in KeysOf(NonNone(FormDict(p))) <==> k in UpdatableKeys && Get(FormDict(p), k) != VNone
  {
    var d := FormDict(p);
    UpdatableKeysDistinct();
    assert UniqueKeys(d);
    NonNoneIsWhitelist(d, |d|);
    assert d[..|d|] == d && KeysOf(d)[..|d|] == UpdatableKeys;
    WhitelistedMeaning(d);
  }

  /** The uploaded file as the route sees it: its size (None when unknown) and its
    * declared content type. */
  datatype Upload = Upload(size: Option<nat>, contentType: Option<string>)

  const FileRequired := "File is required for this endpoint"
  const OnlyPdf := "Only PDF files are allowed"

  /** `updateRecordWithFile`: an empty file and a non-PDF type are refused with 400 before
    * the service is called with the filtered form and, separately, the user name. */
  function UpdateRecordWithFile(p: UpdateForm, file: Upload, service: (Dict, Option<string>) -> Outcome)
    : (r: Result<UpdateReply, HttpError>)
    ensures file.size == Some(0) ==> r == Err(HttpError(400, FileRequired))
    ensures file.size != Some(0) && file.contentType != Some("application/pdf") ==> r == Err(HttpError(400, OnlyPdf))
    ensures file.size != Some(0) && file.contentType == Some("application/pdf") ==>
              r == Answer(service(Whitelisted(FormDict(p)), p.username), "Record and file updated successfully")
  {
    WithFileUpdateIsWhitelist(p);
    if file.size == Some(0) then Err(HttpError(400, FileRequired))
    else if file.contentType != Some("application/pdf") then Err(HttpError(400, OnlyPdf))
    else Answer(service(NonNone(FormDict(p)), p.username), "Record and file updated successfully")
  }

  /** A refused upload never reaches the service: the answer does not depend on it. */
  lemma RefusedUploadSkipsService(p: UpdateForm, file: Upload, s1: (Dict, Option<string>) -> Outcome,
                                  s2: (Dict, Option<string>) -> Outcome)
    requires file.size == Some(0) || file.contentType != Some("application/pdf")
    ensures UpdateRecordWithFile(p, file, s1) == UpdateRecordWithFile(p, file, s2)
    ensures UpdateRecordWithFile(p, file, s1).Err? && UpdateRecordWithFile(p, file, s1).error.status == 400
  {
  }

  // ---------------------------------------------------------------------------
  // Creating a committee with its first PDF

  /** The answer of `addCommitteeDoc`: the new id and the number of its PDF. */
  datatype AddReply = AddReply(id: int, count: nat)

  /** The row `Committee(**model_dump())` stores; the date column holds the parsed date. */
  function NewRow(c: CommitteeModel.CommitteeCreate, date: Dates.CalendarDate, today: Dates.CalendarDate,
                  userID: int): (r: Record)
    ensures IsRecord(r)
  {
    map["id" := VNone, "committeeNo" := StrValue(c.committeeNo), "committeeDate" := VDate(date),
        "committeeTitle" := StrValue(c.committeeTitle), "committeeBossName" := StrValue(c.committeeBossName),
        "sex" := StrValue(c.sex), "committeeCount" := IntValue(c.committeeCount),
        "sexCountPerCommittee" := VNone, "notes" := StrValue(c.notes), "currentDate" := VDate(today),
        "userID" := VInt(userID)]
  }

  /**
   * `addCommitteeDoc`. `toInt` is the conversion of the `userID` form text to an integer
   * (None when it raises); `today` and `now` are the clock. The committee row is committed
   * before the file is saved, so a save that fails leaves the row without a PDF.
   */
  method AddCommitteeDoc(db: CommitteeDb, area: SavePdf.UploadArea,
                         committeeNo: string, committeeDate: string, committeeTitle: string,
                         committeeBossName: string, sex: Option<string>, committeeCount: Option<int>,
                         notes: Option<string>, userID: string, content: SavePdf.Bytes,
                         today: Dates.CalendarDate, now: SavePdf.DateTime, uploadDir: string, sep: string,
                         toInt: string -> Option<int>) returns (r: Result<AddReply, HttpError>)
    requires db.Valid() && SavePdf.ValidDateTime(now)
    modifies db, area
    ensures db.Valid()
    ensures r.Err? ==> r.error.status == 500 && StartsWith(r.error.detail, "Server error: ")
    ensures Dates.ParseYmd(committeeDate).None? || toInt(userID).None? ==>
              r.Err? && db.committees == old(db.committees) && db.pdfs == old(db.pdfs) && area.files == old(area.files)
    ensures Dates.ParseYmd(committeeDate).Some? && toInt(userID).Some? ==>
              db.committees.Keys == old(db.committees).Keys + {old(db.nextId)} && old(db.nextId) !in old(db.committees)
    ensures r.Ok? ==> r.value.id == old(db.nextId) && r.value.count == 1
    ensures r.Ok? ==> exists path :: db.pdfs == old(db.pdfs) + [PdfService.PdfRow(old(db.nextPdfId), r.value.id, r.value.count, path)]
    ensures r.Ok? ==> PdfService.PdfCount(db.pdfs, r.value.id) == r.value.count
    ensures r.Err? ==> db.pdfs == old(db.pdfs)
  {
    var uid := toInt(userID);
    Dates.ParseFormat(today);
    var create := CommitteeModel.MakeCreate(Some(committeeNo), CommitteeModel.DateText(committeeDate),
                                            Some(committeeTitle), Some(committeeBossName), sex, committeeCount,
                                            None, notes, CommitteeModel.DateText(Dates.FormatYmd(today)), uid);
    if create.Err? {
      return Err(ServerError(create.error));
    }
    if uid.None? {
      return Err(ServerError("invalid userID"));
    }
    var date := Dates.ParseYmd(committeeDate).value;
    r := StoreWithPdf(db, area, NewRow(create.value, date, today, uid.value), content, committeeNo, committeeDate,
                      uploadDir, now, sep);
  }

  /** The rest of `addCommitteeDoc` once the form is valid: the row is committed, then the
    * PDF is saved as the committee's first document and recorded. */
  method StoreWithPdf(db: CommitteeDb, area: SavePdf.UploadArea, row: Record, content: SavePdf.Bytes,
                      committeeNo: string, committeeDate: string, uploadDir: string, now: SavePdf.DateTime,
                      sep: string) returns (r: Result<AddReply, HttpError>)
    requires db.Valid() && IsRecord(row) && SavePdf.ValidDateTime(now) && Dates.ParseYmd(committeeDate).Some?
    modifies db, area
    ensures db.Valid()
    ensures db.committees.Keys == old(db.committees).Keys + {old(db.nextId)} && old(db.nextId) !in old(db.committees)
    ensures r.Err? ==> r.error.status == 500 && StartsWith(r.error.detail, "Server error: ")
    ensures r.Ok? ==> r.value.id == old(db.nextId) && r.value.count == 1
    ensures r.Ok? ==> exists path :: db.pdfs == old(db.pdfs) + [PdfService.PdfRow(old(db.nextPdfId), r.value.id, r.value.count, path)]
    ensures r.Ok? ==> PdfService.PdfCount(db.pdfs, r.value.id) == r.value.count
    ensures r.Err? ==> db.pdfs == old(db.pdfs)
  {
    var id := db.InsertCommittee(row);
    var count := PdfService.PdfCount(db.pdfs, id);
    NoRowsForNewId(db.pdfs, id);
    var saved := area.SavePdfToServer(content, committeeNo, committeeDate, count, uploadDir, now, sep);
    if saved.Err? {
      assert saved.error.AlreadyExists?;
      return Err(ServerError("PDF already exists at " + saved.error.path));
    }
    db.InsertPdf(id, count + 1, saved.value);
    PdfService.PdfCountAppend(old(db.pdfs), PdfService.PdfRow(old(db.nextPdfId), id, count + 1, saved.value), id);
    return Ok(AddReply(id, count + 1));
  }

  /** No PDF row refers to an id the counter has not reached yet. */
  lemma NoRowsForNewId(rows: seq<PdfService.PdfRow>, id: int)
    requires forall j :: 0 <= j < |rows| ==> rows[j].committeeID < id
    ensures PdfService.PdfCount(rows, id) == 0
  {
  }

  /**
   * A committee stored by `addCommitteeDoc` and then updated with a file: as the update path
   * is written, its two PDF rows both carry `countPdf` 1.
   */
  method StoreThenUpdateWithFile(db: CommitteeDb, area: SavePdf.UploadArea, row: Record, content: SavePdf.Bytes,
                                 committeeNo: string, committeeDate: string, uploadDir: string,
                                 now: SavePdf.DateTime, sep: string, d: Dict, update: SavePdf.Bytes,
                                 later: SavePdf.DateTime, commitFails: bool)
    returns (added: Result<AddReply, HttpError>, updated: Result<Record, HttpError>)
    requires db.Valid() && IsRecord(row) && SavePdf.ValidDateTime(now) && SavePdf.ValidDateTime(later)
    requires Dates.ParseYmd(committeeDate).Some? && UniqueKeys(d)
    modifies db, area
    ensures db.Valid()
    ensures added.Ok? && updated.Ok? ==>
              && |db.pdfs| >= 2
              && db.pdfs[|db.pdfs| - 2].committeeID == db.pdfs[|db.pdfs| - 1].committeeID == added.value.id
              && db.pdfs[|db.pdfs| - 2].countPdf == db.pdfs[|db.pdfs| - 1].countPdf == 1
  {
    added := StoreWithPdf(db, area, row, content, committeeNo, committeeDate, uploadDir, now, sep);
    if added.Err? {
      updated := Err(added.error);
      return;
    }
    var id := added.value.id;
    ghost var mid := db.pdfs;
    assert mid[|mid| - 1].committeeID == id && mid[|mid| - 1].countPdf == 1;
    updated := db.UpdateRecord(id, d, Some(update), area, uploadDir, later, sep, commitFails);
  }

  // ---------------------------------------------------------------------------
  // Does a committee number already exist in a year?

  const InvalidCheckDate := "Invalid date format. Use YYYY-MM-DD (e.g., 2025-06-08)"

  /** A row with this committee number and a committee date in this year. */
  predicate SameNoAndYear(row: Record, no: string, year: int) {
    Column(row, "committeeNo") == VStr(no) && Column(row, "committeeDate").VDate?
    && Column(row, "committeeDate").d.year == year
  }

  /** `result.scalars().first()` is a row. */
  function AnyMatch(rows: seq<Record>, no: string, year: int): (b: bool)
    ensures b <==> exists i :: 0 <= i < |rows| && SameNoAndYear(rows[i], no, year)
  {
    if rows == [] then false
    else if SameNoAndYear(rows[0], no, year) then true
    else
      var b := AnyMatch(rows[1..], no, year);
      assert b ==> exists i :: 0 <= i < |rows| && SameNoAndYear(rows[i], no, year) by {
        if b {
          var i :| 0 <= i < |rows[1..]| && SameNoAndYear(rows[1..][i], no, year);
          assert rows[i + 1] == rows[1..][i];
        }
      }
      assert (exists i :: 0 <= i < |rows| && SameNoAndYear(rows[i], no, year)) ==> b by {
        if i :| 0 <= i < |rows| && SameNoAndYear(rows[i], no, year) {
          assert i != 0;
          assert rows[1..][i - 1] == rows[i];
        }
      }
      b
  }

  /** `check_order_exists`: the date is stripped and must parse as `%Y-%m-%d` (400
    * otherwise); the answer says whether a row has the stripped number and a date in the
    * same year. `dbError` is the message of a failing query. */
  function CheckOrderExists(rows: seq<Record>, committeeNo: string, committeeDate: string,
                            dbError: Option<string>): (r: Result<bool, HttpError>)
    ensures Dates.ParseYmd(Trim(committeeDate)).None? <==> r == Err(HttpError(400, InvalidCheckDate))
    ensures r.Ok? <==> Dates.ParseYmd(Trim(committeeDate)).Some? && dbError.None?
    ensures r.Ok? ==>
              (r.value <==> exists i :: 0 <= i < |rows|
                                      && SameNoAndYear(rows[i], Trim(committeeNo), Dates.ParseYmd(Trim(committeeDate)).value.year))
  {
    match Dates.ParseYmd(Trim(committeeDate))
    case None => Err(HttpError(400, InvalidCheckDate))
    case Some(d) =>
      if dbError.Some? then Err(HttpError(500, "Database error: " + dbError.value))
      else Ok(AnyMatch(rows, Trim(committeeNo), d.year))
  }

  /** Padding around either parameter changes nothing. */
  lemma CheckIgnoresPadding(rows: seq<Record>, committeeNo: string, committeeDate: string, dbError: Option<string>)
    ensures CheckOrderExists(rows, committeeNo, committeeDate, dbError)
         == CheckOrderExists(rows, Trim(committeeNo), Trim(committeeDate), dbError)
  {
    TrimIdempotent(committeeNo);
    TrimIdempotent(committeeDate);
  }

  /** Only the year of the date matters: two dates of the same year give the same answer. */
  lemma CheckUsesYearOnly(rows: seq<Record>, committeeNo: string, d1: string, d2: string)
    requires Dates.ParseYmd(Trim(d1)).Some? && Dates.ParseYmd(Trim(d2)).Some?
    requires Dates.ParseYmd(Trim(d1)).value.year == Dates.ParseYmd(Trim(d2)).value.year
    ensures CheckOrderExists(rows, committeeNo, d1, None) == CheckOrderExists(rows, committeeNo, d2, None)
  {
  }

  // ---------------------------------------------------------------------------
  // Percent-decoding of the boss-name path segment (section 2.1 of RFC 3986)

  const Percent: bv8 := 0x25

  predicate IsHexDigit(c: bv8) {
    (0x30 <= c <= 0x39) || (0x41 <= c <= 0x46) || (0x61 <= c <= 0x66)
  }

  function HexValue(c: bv8): (v: bv8)
    requires IsHexDigit(c)
    ensures v < 16
  {
    if c <= 0x39 then c - 0x30 else if c <= 0x46 then c - 0x41 + 10 else c - 0x61 + 10
  }

  /** `urllib.parse.unquote_to_bytes`: each `%` followed by two hex digits becomes the byte
    * they spell; any other `%` stays as it is. One pass, left to right. */
  function Unquote(b: seq<bv8>): (r: seq<bv8>)
    ensures |r| <= |b|
    ensures Percent !in b ==> r == b
  {
    if b == [] then []
    else if b[0] == Percent && |b| >= 3 && IsHexDigit(b[1]) && IsHexDigit(b[2]) then
      [HexValue(b[1]) * 16 + HexValue(b[2])] + Unquote(b[3..])
    else [b[0]] + Unquote(b[1..])
  }

  /** The characters `encodeURIComponent` leaves alone. */
  predicate Unreserved(c: bv8) {
    (0x41 <= c <= 0x5A) || (0x61 <= c <= 0x7A) || (0x30 <= c <= 0x39)
    || c == 0x2D || c == 0x5F || c == 0x2E || c == 0x21 || c == 0x7E || c == 0x2A || c == 0x27 || c == 0x28 || c == 0x29
  }

  /** Upper-case hex digit. */
  function HexDigit(n: bv8): (c: bv8)
    requires n < 16
    ensures IsHexDigit(c) && HexValue(c) == n
  {
    if n < 10 then 0x30 + n else 0x41 + n - 10
  }

  /** The encoding a client applies to a path segment: every byte but the unreserved ones
    * as `%` and two upper-case hex digits. */
  function Quote(b: seq<bv8>): (r: seq<bv8>)
    ensures |r| >= |b|
  {
    if b == [] then []
    else (if Unreserved(b[0]) then [b[0]] else [Percent, HexDigit(b[0] / 16), HexDigit(b[0] % 16)]) + Quote(b[1..])
  }

  /** Decoding what was encoded gives the segment back, `%` signs included. */
  lemma {:induction false} UnquoteQuote(b: seq<bv8>)
    ensures Unquote(Quote(b)) == b
  {
    if b != [] {
      UnquoteQuote(b[1..]);
      UnquoteUnit(b[0], Quote(b[1..]));
      assert b == [b[0]] + b[1..];
    }
  }

  /** The encoding of one byte decodes to that byte, whatever follows it. */
  lemma UnquoteUnit(c: bv8, rest: seq<bv8>)
    ensures var e := if Unreserved(c) then [c] else [Percent, HexDigit(c / 16), HexDigit(c % 16)];
      Unquote(e + rest) == [c] + Unquote(rest)
  {
    if Unreserved(c) {
      assert ([c] + rest)[1..] == rest;
    } else {
      var e := [Percent, HexDigit(c / 16), HexDigit(c % 16)];
      assert (e + rest)[3..] == rest;
      HexRoundTrip(c);
    }
  }

  lemma HexRoundTrip(c: bv8)
    ensures HexValue(HexDigit(c / 16)) * 16 + HexValue(HexDigit(c % 16)) == c
  {
  }

  /** The boss name the route looks up, as written: the ASGI server percent-decodes the path
    * before routing, and the route's `unquote` decodes the parameter a second time. */
  function BossNameAsWritten(raw: seq<bv8>): (r: seq<bv8>)
    ensures |r| <= |raw|
    ensures Percent !in raw ==> r == raw
  {
    Unquote(Unquote(raw))
  }

  /** The boss name decoded once, by the server alone. */
  function BossNameDecodedOnce(raw: seq<bv8>): (r: seq<bv8>)
    ensures |r| <= |raw|
  {
    Unquote(raw)
  }

  /** As written, a boss name holding the text `%41`, sent as `%2541`, is looked up as `A`. */
  lemma DecodedTwice()
    ensures Quote([Percent, 0x34, 0x31]) == [Percent, 0x32, 0x35, 0x34, 0x31]
    ensures Unquote([Percent, 0x32, 0x35, 0x34, 0x31]) == [Percent, 0x34, 0x31]
    ensures BossNameAsWritten(Quote([Percent, 0x34, 0x31])) == [0x41]
  {
    var b: seq<bv8> := [Percent, 0x32, 0x35, 0x34, 0x31];
    assert Quote([Percent, 0x34, 0x31]) == b by {
      assert [Percent, 0x34, 0x31][1..] == [0x34 as bv8, 0x31];
      assert [0x34 as bv8, 0x31][1..] == [0x31 as bv8];
    }
    assert b[3..] == [0x34, 0x31];
    assert [0x34, 0x31][1..] == [0x31 as bv8];
    var once: seq<bv8> := [Percent, 0x34, 0x31];
    assert once[3..] == [];
  }

  /** Decoded once, every boss name comes back as the client sent it, `%` signs included. */
  lemma {:induction false} BossNameRoundTrip(b: seq<bv8>)
    ensures BossNameDecodedOnce(Quote(b)) == b
  {
    UnquoteQuote(b);
  }

  /** A boss name without `%` survives the second decode, so the double decode only shows on
    * names that contain `%`. */
  lemma {:induction false} DecodedTwiceWithoutPercent(b: seq<bv8>)
    requires Percent !in b
    ensures BossNameAsWritten(Quote(b)) == b
  {
    UnquoteQuote(b);
  }
}
