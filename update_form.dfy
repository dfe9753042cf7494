/**
 * The committee update form: it edits an existing committee's fields, takes an
 * optional replacement PDF from the drop zone, and sends either a multipart PATCH
 * (when a usable PDF is selected) or a JSON PATCH (otherwise).
 */
module UpdateForm {
  import opened Wrappers
  import opened Text
  import opened FormCommon
  import Dates
  import Dropzone

  /** The properties of the form state, in declaration order. */
  const Fields: seq<string> := ["committeeNo", "committeeDate", "committeeTitle", "committeeBossName",
                                "sex", "committeeCount", "sexCountPerCommittee", "notes", "userID"]

  /** The fields the submit handler insists on, in the order it checks them. */
  const Required: seq<string> := ["committeeNo", "committeeDate", "committeeTitle", "committeeBossName",
                                  "sex", "userID"]

  /** The form's fixed user id. */
  const StaticUserId := "1"

  /** The initial form state; `today` is the current date as `yyyy-MM-dd`. */
  function Defaults(today: string): (r: seq<Entry>)
    ensures Keys(r) == Fields && UniqueKeys(r)
  {
    [Entry("committeeNo", Str("")), Entry("committeeDate", Str(today)), Entry("committeeTitle", Str("")),
     Entry("committeeBossName", Str("")), Entry("sex", Str("")), Entry("committeeCount", Num(0)),
     Entry("sexCountPerCommittee", Num(0)), Entry("notes", Str("")), Entry("userID", Str(StaticUserId))]
  }

  /** Every declared property is present, each once. */
  predicate WellFormed(r: seq<Entry>) {
    UniqueKeys(r) && forall k :: k in Fields ==> k in Keys(r)
  }

  /**
   * `getDateValue`: the stored date when it is non-blank and `new Date(...)` accepts
   * it, otherwise today's date or "". `jsDateValid` stands for JavaScript's date parser.
   */
  function DateValue(dateValue: Option<string>, useCurrentAsDefault: bool, today: string,
                     jsDateValid: string -> bool): (r: string)
    ensures dateValue.Some? && !IsBlank(dateValue.value) && jsDateValid(dateValue.value) ==> r == dateValue.value
    ensures !(dateValue.Some? && !IsBlank(dateValue.value) && jsDateValid(dateValue.value)) ==>
              r == (if useCurrentAsDefault then today else "")
  {
    var fallback := if useCurrentAsDefault then today else "";
    match dateValue
    case None => fallback
    case Some(v) =>
      if v == "" || Trim(v) == "" then fallback
      else if !jsDateValid(v) then fallback
      else v
  }

  /** `hasValidFile`: a selected PDF that is not empty. */
  predicate HasValidFile(selected: Option<Dropzone.File>) {
    selected.Some? && selected.value.size > 0 && selected.value.mime == PdfType
  }

  /** `parseInt('1')`. */
  lemma StaticUserIdParses()
    ensures JsParseInt(StaticUserId) == Some(1)
  {
    assert TrimStart(StaticUserId) == StaticUserId;
    assert LeadingDigits(StaticUserId) == StaticUserId;
    assert DecimalValue(StaticUserId) == 1 by {
      assert StaticUserId[..0] == [];
    }
  }

  function Field(r: seq<Entry>, key: string): FormValue
    requires key in Keys(r)
  {
    Lookup(r, key).value
  }

  /** The value the JSON body gives property `key`: empty notes become null and the user
    * id is the number `parseInt('1')`. */
  function JsonValue(r: seq<Entry>, key: string): FormValue
    requires WellFormed(r) && key in Fields
  {
    if key == "notes" then (if Truthy(Lookup(r, "notes")) then Field(r, "notes") else Null)
    else if key == "userID" then StaticUserIdParses(); Num(JsParseInt(StaticUserId).value)
    else Field(r, key)
  }

  /** The JSON body: the declared properties in declaration order. */
  function JsonBody(r: seq<Entry>): (body: seq<Entry>)
    requires WellFormed(r)
  {
    seq(|Fields|, i requires 0 <= i < |Fields| => Entry(Fields[i], JsonValue(r, Fields[i])))
  }

  lemma FieldsDistinct()
    ensures forall i, j :: 0 <= i < j < |Fields| ==> Fields[i] != Fields[j]
  {
    var d := Defaults("");
    forall i, j | 0 <= i < j < |Fields| ensures Fields[i] != Fields[j] {
      assert Keys(d)[i] == d[i].key && Keys(d)[j] == d[j].key;
    }
  }

  /** What a submit does: stop at a missing field, or send one request. */
  datatype Submission = Incomplete(field: string) | Send(request: Request)

  function CommitteeUrl(apiBase: string, committeeId: string): string {
    apiBase + "/api/committees/" + committeeId
  }

  /** `handleSubmit` up to the request it sends. */
  function Submit(r: seq<Entry>, selected: Option<Dropzone.File>, apiBase: string, committeeId: string,
                  username: string): Submission
    requires WellFormed(r)
  {
    match FirstMissing(r, Required)
    case Some(i) => Incomplete(Required[i])
    case None =>
      if HasValidFile(selected) then
        Send(Request(Patch, CommitteeUrl(apiBase, committeeId),
                     Multipart(FieldParts(r) + [Part("file", FilePart(selected.value)), Part("username", TextPart(username))])))
      else
        Send(Request(Patch, CommitteeUrl(apiBase, committeeId) + "/json", Json(JsonBody(r))))
  }

  /** A submit stops, sending nothing, exactly when a required field is falsy, and
    * names the first such field in checking order. */
  lemma SubmitIncompleteIff(r: seq<Entry>, selected: Option<Dropzone.File>, apiBase: string,
                            committeeId: string, username: string)
    requires WellFormed(r)
    ensures var s := Submit(r, selected, apiBase, committeeId, username);
      (s.Incomplete? <==> exists k :: k in Required && !Truthy(Lookup(r, k)))
      && (s.Incomplete? ==> exists i :: 0 <= i < |Required| && s.field == Required[i] && !Truthy(Lookup(r, Required[i]))
                              && forall j :: 0 <= j < i ==> Truthy(Lookup(r, Required[j])))
  {
    FirstMissingIff(r, Required);
  }

  /** With a non-empty PDF selected, the request is a multipart PATCH to the committee's
    * URL carrying every form property as text, then the file, then the user name. */
  lemma SubmitWithFile(r: seq<Entry>, selected: Option<Dropzone.File>, apiBase: string,
                       committeeId: string, username: string)
    requires WellFormed(r) && FirstMissing(r, Required).None? && HasValidFile(selected)
    ensures var s := Submit(r, selected, apiBase, committeeId, username);
      && s.Send? && s.request.verb == Patch && s.request.url == apiBase + "/api/committees/" + committeeId
      && s.request.body.Multipart?
      && var ps := s.request.body.parts;
      && |ps| == |r| + 2
      && (forall i :: 0 <= i < |r| ==> ps[i].name == r[i].key && ps[i].value == TextPart(PartText(r[i].value)))
      && ps[|r|] == Part("file", FilePart(selected.value))
      && ps[|r| + 1] == Part("username", TextPart(username))
      && selected.value.mime == Dropzone.PdfType && selected.value.size > 0
  {
  }

  /** Without a usable file, the request is a JSON PATCH to `.../json` whose fields are the
    * declared ones in order, with empty notes as null and the user id as the number 1. */
  lemma SubmitWithoutFile(r: seq<Entry>, selected: Option<Dropzone.File>, apiBase: string,
                          committeeId: string, username: string)
    requires WellFormed(r) && FirstMissing(r, Required).None? && !HasValidFile(selected)
    ensures var s := Submit(r, selected, apiBase, committeeId, username);
      && s.Send? && s.request.verb == Patch && s.request.url == apiBase + "/api/committees/" + committeeId + "/json"
      && s.request.body.Json?
      && var body := s.request.body.fields;
      && Keys(body) == Fields
      && (forall k :: k in Fields && k != "notes" && k != "userID" ==> Lookup(body, k) == Lookup(r, k))
      && (Lookup(body, "notes") == Some(Null) <==> !Truthy(Lookup(r, "notes")))
      && (Truthy(Lookup(r, "notes")) ==> Lookup(body, "notes") == Lookup(r, "notes"))
      && Lookup(body, "userID") == Some(Num(1))
  {
    assert Submit(r, selected, apiBase, committeeId, username).request.body.fields == JsonBody(r);
    JsonBodyMeaning(r);
  }

  /** The JSON body copies every declared property but two: empty notes become null and the
    * user id is the number 1. */
  lemma JsonBodyMeaning(r: seq<Entry>)
    requires WellFormed(r)
    ensures var body := JsonBody(r);
      && Keys(body) == Fields
      && (forall k :: k in Fields && k != "notes" && k != "userID" ==> Lookup(body, k) == Lookup(r, k))
      && (Lookup(body, "notes") == Some(Null) <==> !Truthy(Lookup(r, "notes")))
      && (Truthy(Lookup(r, "notes")) ==> Lookup(body, "notes") == Lookup(r, "notes"))
      && Lookup(body, "userID") == Some(Num(1))
  {
    var body := JsonBody(r);
    JsonBodyLookup(r);
    assert "notes" in Fields && "userID" in Fields;
    forall k | k in Fields && k != "notes" && k != "userID" ensures Lookup(body, k) == Lookup(r, k) {
      assert k in Keys(r);
    }
    assert Lookup(body, "notes") == Some(JsonValue(r, "notes"));
    assert "notes" in Keys(r);
    StaticUserIdParses();
    assert Lookup(body, "userID") == Some(JsonValue(r, "userID"));
  }

  /** Each declared property is found in the JSON body with its JSON value. */
  lemma JsonBodyLookup(r: seq<Entry>)
    requires WellFormed(r)
    ensures Keys(JsonBody(r)) == Fields
    ensures forall k :: k in Fields ==> Lookup(JsonBody(r), k) == Some(JsonValue(r, k))
  {
    var body := JsonBody(r);
    FieldsDistinct();
    assert Keys(body) == Fields;
    forall i | 0 <= i < |body| ensures Lookup(body, Fields[i]) == Some(JsonValue(r, Fields[i])) {
      LookupAt(body, i);
    }
    forall k | k in Fields ensures Lookup(body, k) == Some(JsonValue(r, k)) {
      var i :| 0 <= i < |Fields| && Fields[i] == k;
    }
  }

  /** The only file a submit ever sends is a non-empty PDF. */
  lemma SentFileIsPdf(r: seq<Entry>, selected: Option<Dropzone.File>, apiBase: string,
                      committeeId: string, username: string, p: Part)
    requires WellFormed(r)
    requires var s := Submit(r, selected, apiBase, committeeId, username);
      s.Send? && s.request.body.Multipart? && p in s.request.body.parts && p.value.FilePart?
    ensures p.value.file.mime == Dropzone.PdfType && p.value.file.size > 0 && selected == Some(p.value.file)
  {
    var ps := Submit(r, selected, apiBase, committeeId, username).request.body.parts;
    var i :| 0 <= i < |ps| && ps[i] == p;
  }

  /** An update is accepted on status 200 or 201; anything else ends in the error path. */
  predicate Succeeded(reply: Reply) {
    reply.Status? && (reply.code == 200 || reply.code == 201)
  }

  class UpdateCommitteeForm {
    const committeeId: string
    const username: string
    const apiBase: string
    /** The drop zone behind `dropzoneRef.current`, or null before it mounts. */
    const dropzone: Dropzone.DropzoneComponent?
    var formData: seq<Entry>
    var selectedFile: Option<Dropzone.File>
    var isSubmitting: bool
    /** Every request sent, in order. */
    var requests: seq<Request>

    ghost predicate Valid()
      reads this
    {
      WellFormed(formData)
    }

    constructor (committeeId: string, username: string, apiBase: string, today: string,
                 dropzone: Dropzone.DropzoneComponent?)
      ensures this.committeeId == committeeId && this.username == username && this.apiBase == apiBase
      ensures this.dropzone == dropzone
      ensures formData == Defaults(today) && selectedFile == None && !isSubmitting && requests == []
      ensures Valid()
    {
      this.committeeId := committeeId;
      this.username := username;
      this.apiBase := apiBase;
      this.dropzone := dropzone;
      formData := Defaults(today);
      selectedFile := None;
      isSubmitting := false;
      requests := [];
    }

    /** `handleChange` for the input named `name`: a number input stores
      * `parseInt(value) || 0`, any other input the raw text. */
    method HandleChange(name: string, value: string, isNumber: bool)
      requires Valid()
      modifies this
      ensures Lookup(formData, name) == Some(if isNumber then Num(NumberInputValue(value)) else Str(value))
      ensures forall k :: k != name ==> Lookup(formData, k) == Lookup(old(formData), k)
      ensures name in old(Keys(formData)) ==> Keys(formData) == old(Keys(formData))
      ensures selectedFile == old(selectedFile) && isSubmitting == old(isSubmitting) && requests == old(requests)
      ensures Valid()
    {
      var v := if isNumber then Num(NumberInputValue(value)) else Str(value);
      AssignKeys(formData, name, v);
      AssignUnique(formData, name, v);
      forall k ensures k != name ==> Lookup(Assign(formData, name, v), k) == Lookup(formData, k) {
        AssignLookup(formData, name, v, k);
      }
      AssignLookup(formData, name, v, name);
      formData := Assign(formData, name, v);
    }

    /** `handleDateChange`: a non-empty value that is not `\d{4}-\d{2}-\d{2}` is refused. */
    method HandleDateChange(value: string) returns (accepted: bool)
      requires Valid()
      modifies this
      ensures accepted <==> value == "" || Dates.IsIsoShape(value)
      ensures !accepted ==> formData == old(formData)
      ensures accepted ==> Lookup(formData, "committeeDate") == Some(Str(value))
                           && Keys(formData) == old(Keys(formData))
                           && forall k :: k != "committeeDate" ==> Lookup(formData, k) == Lookup(old(formData), k)
      ensures selectedFile == old(selectedFile) && isSubmitting == old(isSubmitting) && requests == old(requests)
      ensures Valid()
    {
      if value != "" && !Dates.IsIsoShape(value) {
        return false;
      }
      HandleChange("committeeDate", value, false);
      return true;
    }

    /** `handleFilesAccepted`. */
    method HandleFilesAccepted(files: seq<Dropzone.File>)
      modifies this
      ensures selectedFile == SelectionAfterAccepted(old(selectedFile), files)
      ensures formData == old(formData) && isSubmitting == old(isSubmitting) && requests == old(requests)
    {
      selectedFile := SelectionAfterAccepted(selectedFile, files);
    }

    /** `handleFileRemoved`. */
    method HandleFileRemoved(fileName: string)
      modifies this
      ensures selectedFile == None
      ensures formData == old(formData) && isSubmitting == old(isSubmitting) && requests == old(requests)
    {
      selectedFile := None;
    }

    /** `handleCommitteePdfLoaded`. */
    method HandleCommitteePdfLoaded(success: bool, file: Option<Dropzone.File>)
      modifies this
      ensures selectedFile == SelectionAfterLoaded(success, file)
      ensures formData == old(formData) && isSubmitting == old(isSubmitting) && requests == old(requests)
    {
      if success && file.Some? {
        selectedFile := file;
      } else {
        selectedFile := None;
      }
    }

    /**
     * `handleSubmit`, with `reply` standing for the server's answer. Validation and the
     * request follow `Submit`; on 200 or 201 only the file state is reset (the drop zone
     * silently), the form fields are kept; `isSubmitting` ends false on every path.
     */
    method HandleSubmit(reply: Reply) returns (s: Submission)
      requires Valid()
      requires dropzone != null ==> dropzone.Valid()
      modifies this, dropzone
      ensures s == Submit(old(formData), old(selectedFile), apiBase, committeeId, username)
      ensures requests == old(requests) + (if s.Send? then [s.request] else [])
      ensures formData == old(formData) && !isSubmitting
      ensures selectedFile == (if s.Send? && Succeeded(reply) then None else old(selectedFile))
      ensures dropzone != null && s.Send? && Succeeded(reply) ==>
                dropzone.files == [] && dropzone.live == {} && dropzone.events == old(dropzone.events)
      ensures dropzone != null && !(s.Send? && Succeeded(reply)) ==> dropzone.files == old(dropzone.files)
      ensures dropzone != null ==> dropzone.Valid()
      ensures Valid()
    {
      isSubmitting := true;
      var missing := ScanRequired(formData, Required);
      if missing.Some? {
        isSubmitting := false;
        return Incomplete(Required[missing.value]);
      }
      var request;
      if HasValidFile(selectedFile) {
        var parts := AppendFields(formData);
        parts := parts + [Part("file", FilePart(selectedFile.value))];
        parts := parts + [Part("username", TextPart(username))];
        assert parts == FieldParts(formData) + [Part("file", FilePart(selectedFile.value)), Part("username", TextPart(username))];
        request := Request(Patch, CommitteeUrl(apiBase, committeeId), Multipart(parts));
      } else {
        request := Request(Patch, CommitteeUrl(apiBase, committeeId) + "/json", Json(JsonBody(formData)));
      }
      requests := requests + [request];
      s := Send(request);
      if Succeeded(reply) {
        selectedFile := None;
        if dropzone != null {
          dropzone.Reset(true);
        }
      }
      isSubmitting := false;
    }
  }
}
