/**
 * The committee insertion form: every field is text, a PDF is mandatory, the
 * submission is a multipart POST, and a debounced existence check runs whenever
 * both the committee number and the committee date are filled in.
 */
module InsertionForm {
  import opened Wrappers
  import opened FormCommon
  import Dates
  import Dropzone

  /** The properties of the form state, in declaration order. */
  const Fields: seq<string> := ["committeeNo", "committeeDate", "committeeTitle", "committeeBossName",
                                "sex", "committeeCount", "notes", "userID"]

  /** The fields the submit handler insists on, in the order it checks them; `sex` and
    * `notes` are optional. */
  const Required: seq<string> := ["committeeNo", "committeeDate", "committeeTitle", "committeeBossName",
                                  "committeeCount", "userID"]

  /** The debounce delay of the existence check, in milliseconds. */
  const CheckDelayMs := 500

  /** The user id written into the form after a successful submission. */
  const ResetUserId := "1"

  /** The form state on mount and after a successful submission. */
  function Defaults(today: string, userID: string): (r: seq<Entry>)
    ensures Keys(r) == Fields && UniqueKeys(r)
    ensures forall i :: 0 <= i < |r| ==> r[i].value.Str?
  {
    [Entry("committeeNo", Str("")), Entry("committeeDate", Str(today)), Entry("committeeTitle", Str("")),
     Entry("committeeBossName", Str("")), Entry("sex", Str("")), Entry("committeeCount", Str("")),
     Entry("notes", Str("")), Entry("userID", Str(userID))]
  }

  /** The defaults hold no committee number and the given date. */
  lemma DefaultsText(today: string, userID: string)
    ensures TextOf(Defaults(today, userID), "committeeNo") == ""
    ensures TextOf(Defaults(today, userID), "committeeDate") == today
    ensures CheckFor(Defaults(today, userID)) == None
  {
    var r := Defaults(today, userID);
    assert |"committeeNo"| != |"committeeDate"|;
    assert Lookup(r, "committeeDate") == Lookup(r[1..], "committeeDate");
  }

  /** `payload.id?.toString() || ''`. */
  function PayloadUserId(id: Option<int>): (s: string)
    ensures s == "" <==> id.None?
    ensures id.Some? ==> JsParseInt(s) == Some(id.value)
  {
    match id
    case None => ""
    case Some(n) => ParseIntRoundTrip(n); IntToString(n)
  }

  /** Every declared property is present, each once, and every value is text. */
  predicate WellFormed(r: seq<Entry>) {
    && UniqueKeys(r)
    && (forall k :: k in Fields ==> k in Keys(r))
    && (forall i :: 0 <= i < |r| ==> r[i].value.Str?)
  }

  /** The text held under `key` ("" when absent). */
  function TextOf(r: seq<Entry>, key: string): string {
    match Lookup(r, key)
    case Some(Str(s)) => s
    case _ => ""
  }

  /** The query of one existence check. */
  datatype Query = Query(committeeNo: string, committeeDate: string)

  /** The check the debounce effect schedules for `r`, if any: only when both the number
    * and the date are non-empty. */
  function CheckFor(r: seq<Entry>): (q: Option<Query>)
    ensures q.Some? <==> TextOf(r, "committeeNo") != "" && TextOf(r, "committeeDate") != ""
    ensures q.Some? ==> q.value == Query(TextOf(r, "committeeNo"), TextOf(r, "committeeDate"))
  {
    if TextOf(r, "committeeNo") != "" && TextOf(r, "committeeDate") != "" then
      Some(Query(TextOf(r, "committeeNo"), TextOf(r, "committeeDate")))
    else None
  }

  datatype Submission = Incomplete(field: string) | NoFile | Send(request: Request)

  const PostPath := "/api/committees/post"

  /** `handleSubmit` up to the request it sends. */
  function Submit(r: seq<Entry>, selected: Option<Dropzone.File>, apiBase: string): Submission {
    match FirstMissing(r, Required)
    case Some(i) => Incomplete(Required[i])
    case None =>
      if selected.None? then NoFile
      else Send(Request(Post, apiBase + PostPath, Multipart(FieldParts(r) + [Part("file", FilePart(selected.value))])))
  }

  /** A request is built only when every required field is filled in and a file is selected;
    * a missing field is reported before a missing file. */
  lemma SubmitGuards(r: seq<Entry>, selected: Option<Dropzone.File>, apiBase: string)
    ensures var s := Submit(r, selected, apiBase);
      && (s.Incomplete? <==> exists k :: k in Required && !Truthy(Lookup(r, k)))
      && (s.NoFile? <==> (forall k :: k in Required ==> Truthy(Lookup(r, k))) && selected.None?)
      && (s.Send? <==> (forall k :: k in Required ==> Truthy(Lookup(r, k))) && selected.Some?)
  {
    FirstMissingIff(r, Required);
  }

  /** The request is a multipart POST carrying every form property as its own text, then the file. */
  lemma SubmitRequest(r: seq<Entry>, selected: Option<Dropzone.File>, apiBase: string)
    requires WellFormed(r)
    requires Submit(r, selected, apiBase).Send?
    ensures var req := Submit(r, selected, apiBase).request;
      && req.verb == Post && req.url == apiBase + "/api/committees/post" && req.body.Multipart?
      && |req.body.parts| == |r| + 1
      && (forall i :: 0 <= i < |r| ==> req.body.parts[i] == Part(r[i].key, TextPart(r[i].value.s)))
      && req.body.parts[|r|] == Part("file", FilePart(selected.value))
  {
  }

  /** Neither `sex` nor `notes` affects whether a submission goes ahead. */
  lemma OptionalFieldsNeverBlock(r: seq<Entry>, key: string, value: FormValue, selected: Option<Dropzone.File>,
                                 apiBase: string)
    requires UniqueKeys(r) && (key == "sex" || key == "notes")
    ensures Submit(Assign(r, key, value), selected, apiBase).Send? <==> Submit(r, selected, apiBase).Send?
  {
    OptionalNotRequired(key);
    forall k | k in Required ensures Lookup(Assign(r, key, value), k) == Lookup(r, k) {
      AssignLookup(r, key, value, k);
    }
    FirstMissingOnlyReadsRequired(Assign(r, key, value), r, Required);
  }

  /** `sex` and `notes` are not among the fields the submit handler checks. */
  lemma OptionalNotRequired(key: string)
    requires key == "sex" || key == "notes"
    ensures key !in Required
  {
    forall i | 0 <= i < |Required| ensures Required[i] != key {
      assert |Required[i]| > 5;
    }
  }

  class CommitteeInsertionForm {
    const apiBase: string
    const dropzone: Dropzone.DropzoneComponent?
    var formData: seq<Entry>
    var selectedFile: Option<Dropzone.File>
    var isSubmitting: bool
    var requests: seq<Request>
    /** The existence check waiting on its timer (`debouncedCheckCommitteeRef`). */
    var pendingCheck: Option<Query>
    /** Every check scheduled, and every check request sent, in order. */
    var scheduled: seq<Query>
    var checksSent: seq<Query>
    /** `GET /api/committees/lastCommitteeNo` calls and the value last stored. */
    var lastNoFetches: nat
    var lastCommitteeNo: Option<string>

    ghost predicate Valid()
      reads this
    {
      && WellFormed(formData)
      && pendingCheck == CheckFor(formData)
      && (forall q :: q in checksSent ==> q.committeeNo != "" && q.committeeDate != "")
    }

    /** Mounting: the defaults, the debounce effect's first run and the first fetch of
      * the last committee number (`lastNo` is the server's answer, None on error). */
    constructor (apiBase: string, today: string, payloadId: Option<int>, dropzone: Dropzone.DropzoneComponent?,
                 lastNo: Option<string>)
      ensures this.apiBase == apiBase && this.dropzone == dropzone
      ensures formData == Defaults(today, PayloadUserId(payloadId)) && selectedFile == None && !isSubmitting
      ensures requests == [] && checksSent == []
      ensures pendingCheck == CheckFor(formData) && scheduled == (if pendingCheck.Some? then [pendingCheck.value] else [])
      ensures lastNoFetches == 1 && lastCommitteeNo == lastNo
      ensures Valid()
    {
      this.apiBase := apiBase;
      this.dropzone := dropzone;
      formData := Defaults(today, PayloadUserId(payloadId));
      selectedFile := None;
      isSubmitting := false;
      requests := [];
      checksSent := [];
      var q := CheckFor(Defaults(today, PayloadUserId(payloadId)));
      pendingCheck := q;
      scheduled := if q.Some? then [q.value] else [];
      lastNoFetches := 1;
      lastCommitteeNo := lastNo;
    }

    /** The debounce effect, run when `committeeNo` or `committeeDate` changed: the pending
      * check is always cancelled, and a new one is scheduled only when both are non-empty. */
    method SyncExistenceCheck()
      requires WellFormed(formData) && forall q :: q in checksSent ==> q.committeeNo != "" && q.committeeDate != ""
      modifies this
      ensures pendingCheck == CheckFor(formData)
      ensures scheduled == old(scheduled) + (if pendingCheck.Some? then [pendingCheck.value] else [])
      ensures formData == old(formData) && selectedFile == old(selectedFile) && isSubmitting == old(isSubmitting)
      ensures requests == old(requests) && checksSent == old(checksSent)
      ensures lastNoFetches == old(lastNoFetches) && lastCommitteeNo == old(lastCommitteeNo)
      ensures Valid()
    {
      pendingCheck := None;
      var no, date := TextOf(formData, "committeeNo"), TextOf(formData, "committeeDate");
      if no != "" && date != "" {
        pendingCheck := Some(Query(no, date));
        scheduled := scheduled + [Query(no, date)];
      }
    }

    /** `checkCommitteeExists`: returns at once on an empty argument. */
    method CheckCommitteeExists(committeeNo: string, committeeDate: string)
      modifies this
      ensures checksSent == old(checksSent) + (if committeeNo != "" && committeeDate != "" then [Query(committeeNo, committeeDate)] else [])
      ensures formData == old(formData) && selectedFile == old(selectedFile) && isSubmitting == old(isSubmitting)
      ensures requests == old(requests) && pendingCheck == old(pendingCheck) && scheduled == old(scheduled)
      ensures lastNoFetches == old(lastNoFetches) && lastCommitteeNo == old(lastCommitteeNo)
    {
      if committeeNo == "" || committeeDate == "" {
        return;
      }
      checksSent := checksSent + [Query(committeeNo, committeeDate)];
    }

    /** The pending check's timer fires. */
    method FireExistenceCheck()
      requires Valid() && pendingCheck.Some?
      modifies this
      ensures checksSent == old(checksSent) + [old(pendingCheck).value]
      ensures formData == old(formData) && selectedFile == old(selectedFile) && isSubmitting == old(isSubmitting)
      ensures requests == old(requests) && scheduled == old(scheduled)
      ensures lastNoFetches == old(lastNoFetches) && lastCommitteeNo == old(lastCommitteeNo)
      ensures Valid()
    {
      var q := pendingCheck.value;
      CheckCommitteeExists(q.committeeNo, q.committeeDate);
    }

    /** Stores a new value and re-runs the debounce effect when its inputs changed. */
    method SetField(name: string, value: string)
      requires Valid()
      modifies this
      ensures Lookup(formData, name) == Some(Str(value))
      ensures forall k :: k != name ==> Lookup(formData, k) == Lookup(old(formData), k)
      ensures name in old(Keys(formData)) ==> Keys(formData) == old(Keys(formData))
      ensures CheckFor(formData) != CheckFor(old(formData)) ==>
                scheduled == old(scheduled) + (if pendingCheck.Some? then [pendingCheck.value] else [])
      ensures CheckFor(formData) == CheckFor(old(formData)) ==> scheduled == old(scheduled)
      ensures selectedFile == old(selectedFile) && isSubmitting == old(isSubmitting) && requests == old(requests)
      ensures checksSent == old(checksSent) && lastNoFetches == old(lastNoFetches) && lastCommitteeNo == old(lastCommitteeNo)
      ensures Valid()
    {
      var before := formData;
      var v := Str(value);
      AssignKeys(formData, name, v);
      AssignUnique(formData, name, v);
      forall k ensures k != name ==> Lookup(Assign(formData, name, v), k) == Lookup(formData, k) {
        AssignLookup(formData, name, v, k);
      }
      AssignLookup(formData, name, v, name);
      AssignTexts(formData, name, v);
      formData := Assign(formData, name, v);
      if TextOf(formData, "committeeNo") != TextOf(before, "committeeNo")
         || TextOf(formData, "committeeDate") != TextOf(before, "committeeDate") {
        SyncExistenceCheck();
      } else {
        assert CheckFor(formData) == CheckFor(before);
      }
    }

    /** `handleChange`: the raw text is stored under the input's name. */
    method HandleChange(name: string, value: string)
      requires Valid()
      modifies this
      ensures Lookup(formData, name) == Some(Str(value))
      ensures forall k :: k != name ==> Lookup(formData, k) == Lookup(old(formData), k)
      ensures pendingCheck == CheckFor(formData)
      ensures CheckFor(formData) != CheckFor(old(formData)) ==>
                scheduled == old(scheduled) + (if pendingCheck.Some? then [pendingCheck.value] else [])
      ensures CheckFor(formData) == CheckFor(old(formData)) ==> scheduled == old(scheduled) && pendingCheck == old(pendingCheck)
      ensures selectedFile == old(selectedFile) && isSubmitting == old(isSubmitting) && requests == old(requests)
      ensures checksSent == old(checksSent) && lastNoFetches == old(lastNoFetches) && lastCommitteeNo == old(lastCommitteeNo)
      ensures Valid()
    {
      SetField(name, value);
    }

    /** `handleDateChange`: a non-empty value that is not `\d{4}-\d{2}-\d{2}` is refused. */
    method HandleDateChange(value: string) returns (accepted: bool)
      requires Valid()
      modifies this
      ensures accepted <==> value == "" || Dates.IsIsoShape(value)
      ensures !accepted ==> formData == old(formData) && pendingCheck == old(pendingCheck) && scheduled == old(scheduled)
      ensures accepted ==> Lookup(formData, "committeeDate") == Some(Str(value))
                           && forall k :: k != "committeeDate" ==> Lookup(formData, k) == Lookup(old(formData), k)
      ensures accepted && CheckFor(formData) != CheckFor(old(formData)) ==>
                scheduled == old(scheduled) + (if pendingCheck.Some? then [pendingCheck.value] else [])
      ensures CheckFor(formData) == CheckFor(old(formData)) ==> scheduled == old(scheduled) && pendingCheck == old(pendingCheck)
      ensures selectedFile == old(selectedFile) && isSubmitting == old(isSubmitting) && requests == old(requests)
      ensures checksSent == old(checksSent) && lastNoFetches == old(lastNoFetches) && lastCommitteeNo == old(lastCommitteeNo)
      ensures Valid()
    {
      if value != "" && !Dates.IsIsoShape(value) {
        return false;
      }
      SetField("committeeDate", value);
      return true;
    }

    /** `handleFilesAccepted`. */
    method HandleFilesAccepted(files: seq<Dropzone.File>)
      modifies this
      ensures selectedFile == SelectionAfterAccepted(old(selectedFile), files)
      ensures formData == old(formData) && isSubmitting == old(isSubmitting) && requests == old(requests)
      ensures pendingCheck == old(pendingCheck) && checksSent == old(checksSent)
    {
      selectedFile := SelectionAfterAccepted(selectedFile, files);
    }

    /** `handleFileRemoved`. */
    method HandleFileRemoved(fileName: string)
      modifies this
      ensures selectedFile == None
      ensures formData == old(formData) && isSubmitting == old(isSubmitting) && requests == old(requests)
      ensures pendingCheck == old(pendingCheck) && checksSent == old(checksSent)
    {
      selectedFile := None;
    }

    /** `handleBookPdfLoaded`. */
    method HandleBookPdfLoaded(success: bool, file: Option<Dropzone.File>)
      modifies this
      ensures selectedFile == SelectionAfterLoaded(success, file)
      ensures formData == old(formData) && isSubmitting == old(isSubmitting) && requests == old(requests)
      ensures pendingCheck == old(pendingCheck) && checksSent == old(checksSent)
    {
      if success && file.Some? {
        selectedFile := file;
      } else {
        selectedFile := None;
      }
    }

    /** What a status 200 does: defaults with user id "1", no file, the drop zone reset
      * silently, the last committee number fetched again, and the debounce effect re-run. */
    method ResetAfterSuccess(today: string, lastNo: Option<string>)
      requires Valid()
      requires dropzone != null ==> dropzone.Valid()
      modifies this, dropzone
      ensures formData == Defaults(today, ResetUserId) && selectedFile == None
      ensures lastNoFetches == old(lastNoFetches) + 1 && lastCommitteeNo == lastNo
      ensures dropzone != null ==> dropzone.files == [] && dropzone.live == {} && dropzone.events == old(dropzone.events)
      ensures dropzone != null ==> dropzone.Valid()
      ensures requests == old(requests) && checksSent == old(checksSent) && isSubmitting == old(isSubmitting)
      ensures Valid()
    {
      ResetFormData(today);
      if dropzone != null {
        dropzone.Reset(true);
      }
      lastNoFetches := lastNoFetches + 1;
      lastCommitteeNo := lastNo;
    }

    /** The form-state half of that reset: the defaults and no file; the debounce effect
      * runs again only when the number or the date changed. */
    method ResetFormData(today: string)
      requires Valid()
      modifies this
      ensures formData == Defaults(today, ResetUserId) && selectedFile == None
      ensures requests == old(requests) && checksSent == old(checksSent) && isSubmitting == old(isSubmitting)
      ensures lastNoFetches == old(lastNoFetches) && lastCommitteeNo == old(lastCommitteeNo)
      ensures Valid()
    {
      var before := formData;
      formData := Defaults(today, ResetUserId);
      selectedFile := None;
      DefaultsText(today, ResetUserId);
      if TextOf(before, "committeeNo") != "" || TextOf(before, "committeeDate") != today {
        SyncExistenceCheck();
      }
    }

    /**
     * `handleSubmit`: `reply` is the server's answer to the POST, `today` the date the
     * reset writes and `lastNo` the answer to the re-fetch of the last committee number.
     * Only status 200 counts as success; it resets the form to its defaults with user
     * id "1", clears the file, silently resets the drop zone and re-fetches.
     */
    method HandleSubmit(reply: Reply, today: string, lastNo: Option<string>) returns (s: Submission)
      requires Valid()
      requires dropzone != null ==> dropzone.Valid()
      modifies this, dropzone
      ensures s == Submit(old(formData), old(selectedFile), apiBase)
      ensures requests == old(requests) + (if s.Send? then [s.request] else [])
      ensures !isSubmitting
      ensures s.Send? && reply == Status(200) ==>
                && formData == Defaults(today, ResetUserId) && selectedFile == None
                && lastNoFetches == old(lastNoFetches) + 1 && lastCommitteeNo == lastNo
                && pendingCheck == CheckFor(formData)
      ensures !(s.Send? && reply == Status(200)) ==>
                && formData == old(formData) && selectedFile == old(selectedFile)
                && lastNoFetches == old(lastNoFetches) && lastCommitteeNo == old(lastCommitteeNo)
                && pendingCheck == old(pendingCheck) && scheduled == old(scheduled)
      ensures dropzone != null && s.Send? && reply == Status(200) ==>
                dropzone.files == [] && dropzone.live == {} && dropzone.events == old(dropzone.events)
      ensures dropzone != null && !(s.Send? && reply == Status(200)) ==> dropzone.files == old(dropzone.files)
      ensures dropzone != null ==> dropzone.Valid()
      ensures checksSent == old(checksSent)
      ensures Valid()
    {
      isSubmitting := true;
      var missing := ScanRequired(formData, Required);
      if missing.Some? {
        isSubmitting := false;
        return Incomplete(Required[missing.value]);
      }
      if selectedFile.None? {
        isSubmitting := false;
        return NoFile;
      }
      var parts := AppendFields(formData);
      parts := parts + [Part("file", FilePart(selectedFile.value))];
      var request := Request(Post, apiBase + PostPath, Multipart(parts));
      requests := requests + [request];
      s := Send(request);
      if reply == Status(200) {
        ResetAfterSuccess(today, lastNo);
      }
      isSubmitting := false;
    }
  }

  /** Assigning text keeps every value text. */
  lemma AssignTexts(r: seq<Entry>, key: string, value: FormValue)
    requires value.Str? && forall i :: 0 <= i < |r| ==> r[i].value.Str?
    ensures forall i :: 0 <= i < |Assign(r, key, value)| ==> Assign(r, key, value)[i].value.Str?
  {
    if r != [] && r[0].key != key {
      AssignTexts(r[1..], key, value);
      assert Assign(r, key, value) == [r[0]] + Assign(r[1..], key, value);
    }
  }

}
