# committeesApp — a Dafny model of its core

committeesApp is a committee-records system: a FastAPI back end over SQL
tables of committees, their scanned PDF documents and employees, and a
Next.js front end with forms to add and update committees, a searchable and
paginated table, employee pickers, printable reports and a sign-up page.

This project models the logic at the heart of both halves:

- **Scanned-PDF acquisition.** The drop zone clears its one-entry slot and
  asks a local service to move `book.pdf`. It waits 2000 ms if the move
  succeeded, then fetches the file with up to three GETs. Only a 404 is
  retried, with waits of 1500 ms and then 3000 ms. The fetched body is
  checked and published as a revocable `blob:` preview. Manual drops and
  removals use the same slot, and the model keeps a set of live object URLs.
- **The two committee forms** that consume the slot. They check the required
  fields, accept files, and choose between a multipart request and a JSON
  request.
- **Back-end file handling.**
  - The PDF file name and the no-overwrite rule (`save_pdf.py`).
  - Path containment and the delete decision sequence (`pdf.py`).
  - The update whitelist, the per-committee PDF count and the order-existence
    check (`routes/committees.py`, `services/committee.py`).
- **Listing, search and reports.**
  - List cleaning, paging arithmetic, filters and the report date range.
  - The pydantic request validators.
  - Employee search dispatch (number or name).
- **Front-end helpers.**
  - The table's pagination window and cell formatting.
  - The search panel's filter state.
  - The employee multi-select with its cap, and its dialog.
  - The report query strings (`application/x-www-form-urlencoded`, with a
    proved parse/serialize round trip) and the empty-value display of the
    print page.
  - The two comboboxes, the delete dialog, the sign-up checks, the route
    guard and the layout rule.

SQL, HTTP, the clock, timers and the browser are modelled as parameters:
- tables are sequences of rows;
- each request's result is an argument;
- the browser's date parser is a function argument;
- delays, toasts, opened windows and parent callbacks are recorded in logs.

One Dafny module per source file, plus `Text` (trimming, case, splitting,
decimals), `Dates` (the calendar and `strptime("%Y-%m-%d")`), `PosixPath`
(`path.join`), `Wrappers` (`Option`, `Result`) and `FormUrlEncoded`.

## Model

| member | source | states |
|---|---|---|
| Dropzone.BlobPreviews | frontend/src/components/ReactDropZoneComponont.tsx:77-83 | at most one URL is revoked per entry |
| Dropzone.BlobPreviewsMembers | frontend/src/components/ReactDropZoneComponont.tsx:77-83 | the URLs revoked are exactly the previews that start with `blob:`, no others |
| Dropzone.MoveBookPdfCmd | frontend/src/components/ReactDropZoneComponont.tsx:47-69 | success only for an OK response whose JSON says success; every rejection, parse failure or non-OK status becomes `success: false` with a `Network error: ` message |
| Dropzone.BookMoveParams | frontend/src/components/ReactDropZoneComponont.tsx:195-204 | the move request names `book.pdf`, the source directory as configured, and the destination joined with the username (`dest/username` for plain relative paths) |
| Dropzone.RetryShape | frontend/src/components/ReactDropZoneComponont.tsx:128-165 | a retry run is consecutive GETs, each but the last followed by the backoff wait `initialDelay * 2^(attempt-1)`; never more than `maxRetries` GETs; every GET but the last answered 404; the run ends with the last response, or with its error when that is not a 404 or is the last attempt |
| Dropzone.RetryEnds | frontend/src/components/ReactDropZoneComponont.tsx:128-165 | a run is empty exactly when no attempt is left; otherwise it has an odd number of steps, its last GET is within `maxRetries`, and that GET's response or error is the outcome; an error ends the run only when it is not a 404 or the attempt is the last |
| Dropzone.RetryGets | frontend/src/components/ReactDropZoneComponont.tsx:128-165 | the GETs are numbered consecutively from the first attempt |
| Dropzone.RetryWaits | frontend/src/components/ReactDropZoneComponont.tsx:128-165 | each GET but the last is followed by a wait of `initialDelay * 2^(attempt-1)` |
| Dropzone.RetryMisses | frontend/src/components/ReactDropZoneComponont.tsx:128-165 | every GET before the last was answered 404 |
| Dropzone.RetryLoop | frontend/src/components/ReactDropZoneComponont.tsx:128-165 | the `for` loop performs exactly the GETs and waits of `RetryFrom(maxRetries, initialDelay, server, 1)` and ends with its outcome |
| Dropzone.RetryGetsBounded | frontend/src/components/ReactDropZoneComponont.tsx:129 | every GET issued is numbered between 1 and `maxRetries` |
| Dropzone.BookFetchAllNotFound | frontend/src/components/ReactDropZoneComponont.tsx:154-157 | with `fetchWithRetry(3, 1500)` and a file that never appears: GET, wait 1500, GET, wait 3000, GET, and the last 404 is thrown |
| Dropzone.RetryStopsOnOtherErrors | frontend/src/components/ReactDropZoneComponont.tsx:150-162 | an error other than 404 on the first attempt ends the loop after one GET and is thrown |
| Dropzone.AcceptFetched | frontend/src/components/ReactDropZoneComponont.tsx:238-247 | a body is accepted iff it is present, non-empty and of type `application/pdf`; the file is then `book.pdf` of that size |
| Dropzone.AcquireConfigFirst | frontend/src/components/ReactDropZoneComponont.tsx:180-198 | a missing or empty directory variable ends the acquisition before any request |
| Dropzone.AcquireOrder | frontend/src/components/ReactDropZoneComponont.tsx:206-236 | the move request comes first and only once; the 2000 ms wait follows iff the move succeeded; the first GET follows whatever the move's result; at most three GETs |
| Dropzone.AcquireLoadedIff | frontend/src/components/ReactDropZoneComponont.tsx:236-276 | a file is loaded iff the fetch returned a non-empty PDF body; otherwise the outcome is a load failure |
| Dropzone.DropzoneComponent.constructor | frontend/src/components/ReactDropZoneComponont.tsx:73-74 | the slot starts empty, not loading, with no live URLs |
| Dropzone.BlobHandleOfUrl | frontend/src/components/ReactDropZoneComponont.tsx:248 | an object URL starts with `blob:` and names its own handle |
| Dropzone.DropzoneComponent.CreateObjectUrl | frontend/src/components/ReactDropZoneComponont.tsx:248 | `URL.createObjectURL` gives a URL that was not live, and only adds it to the live set |
| Dropzone.DropzoneComponent.RevokePreviousUrls | frontend/src/components/ReactDropZoneComponont.tsx:77-83 | the loop revokes exactly `BlobPreviews(fs)` in order, removes exactly those from the live set, and changes nothing else |
| Dropzone.DropzoneComponent.CommitFiles | frontend/src/components/ReactDropZoneComponont.tsx:322-324 | replacing the slot runs the effect cleanup, which revokes the previous slot's `blob:` previews |
| Dropzone.DropzoneComponent.Unmount | frontend/src/components/ReactDropZoneComponont.tsx:322-324 | the unmount cleanup revokes the slot's previews, and in a valid state no live URL remains |
| Dropzone.DropzoneComponent.SlotPreviewsAreBlobs | frontend/src/components/ReactDropZoneComponont.tsx:77-83 | in a valid state every preview held is a `blob:` URL, so revoking the slot revokes all of them |
| Dropzone.DropzoneComponent.MoveBook | frontend/src/components/ReactDropZoneComponont.tsx:210 | the move request is recorded once and its result is `MoveBookPdfCmd` of the reply |
| Dropzone.DropzoneComponent.FetchWithRetry | frontend/src/components/ReactDropZoneComponont.tsx:128-165 | the loop issues exactly the GETs and waits of `RetryFrom(maxRetries, initialDelay, server, 1)` and returns its outcome |
| Dropzone.DropzoneComponent.ClearSlot | frontend/src/components/ReactDropZoneComponont.tsx:169-171 | loading is on, the held previews are revoked, the slot is empty and no URL is live |
| Dropzone.DropzoneComponent.Publish | frontend/src/components/ReactDropZoneComponont.tsx:238-279 | an accepted body becomes the single slot entry `book.pdf` with a fresh preview, and the parent is told `onFilesAccepted` then `onBookPdfLoaded(true)`; otherwise the slot stays empty and the parent is told `onBookPdfLoaded(false)`; loading ends |
| Dropzone.DropzoneComponent.FetchBookPdf | frontend/src/components/ReactDropZoneComponont.tsx:168-279 | the requests made and the outcome are those of `Acquire`; missing configuration leaves loading on (the throw precedes the try/finally); the slot holds at most one entry and the live URLs are exactly its previews |
| Dropzone.DropzoneComponent.MoveAndFetch | frontend/src/components/ReactDropZoneComponont.tsx:200-279 | with both directories set: the requests are the move, the 2000 ms wait after a successful move, and the retried GETs, as `Acquire` lists them; a PDF that passes the checks becomes the one slot entry with a fresh URL and is reported to the parent, anything else reports failure with an empty slot; loading ends |
| Dropzone.DropzoneComponent.Reset | frontend/src/components/ReactDropZoneComponont.tsx:282-291 | an empty slot is left alone; otherwise the previews are revoked, the slot is emptied and, unless silent, `onFileRemoved` is called once per held name, in order |
| Dropzone.DropzoneComponent.OnDrop | frontend/src/components/ReactDropZoneComponont.tsx:296-312 | no accepted file changes nothing; otherwise the old previews are revoked, the first accepted file becomes the slot entry with a fresh URL, and the parent receives it; the single-slot invariant holds when at most one file is accepted |
| Dropzone.DropzoneComponent.CreatePreviews | frontend/src/components/ReactDropZoneComponont.tsx:300-306 | one fresh object URL per accepted file, in order |
| Dropzone.DropEntries | frontend/src/components/ReactDropZoneComponont.tsx:300-306 | one entry per accepted file, in order, the `j`-th carrying the `j`-th fresh object URL |
| Dropzone.DropzoneComponent.RemoveFile | frontend/src/components/ReactDropZoneComponont.tsx:326-337 | the first entry with that name is revoked, the slot is emptied and `onFileRemoved(name)` is called once |
| Dropzone.RemovalEvents | frontend/src/components/ReactDropZoneComponont.tsx:285-289 | one `onFileRemoved` per held entry, with its name, in slot order |
| Dropzone.FindByName | frontend/src/components/ReactDropZoneComponont.tsx:328 | `files.find` stops at the first entry with that name, or finds none |
| PosixPath.PathJoinPlain | frontend/src/components/ReactDropZoneComponont.tsx:203 | `path.join(dir, name)` for a plain relative directory and a plain name is `dir + "/" + name` |
| PosixPath.Resolve | frontend/src/components/ReactDropZoneComponont.tsx:203 | the resolved segments hold no empty or `.` segment, and no `..` when the path may not climb above its start |
| PosixPath.ResolvePlain | frontend/src/components/ReactDropZoneComponont.tsx:203 | segments that are all plain names resolve to themselves |
| PosixPath.Normalize | frontend/src/components/ReactDropZoneComponont.tsx:203 | normalizing never gives the empty path |
| PosixPath.PathJoin | frontend/src/components/ReactDropZoneComponont.tsx:203 | `path.join` never gives the empty path |
| PosixPath.WindowsDirectoryGetsSlash | frontend/src/components/ReactDropZoneComponont.tsx:203 | a Windows-style destination such as `D:\pdfScanner` is one POSIX segment, so the username is appended after `/` |
| FormCommon.Lookup | frontend/src/components/UpdateCommitteeByID/UpdateCommitteeByIDComponent.tsx:268 | reading `formData[field]` finds the property's value, or undefined when the property is absent |
| FormCommon.LookupAt | frontend/src/components/UpdateCommitteeByID/UpdateCommitteeByIDComponent.tsx:268 | with distinct keys, reading a property returns the value of the entry that holds it |
| FormCommon.AssignLookup | frontend/src/components/UpdateCommitteeByID/UpdateCommitteeByIDComponent.tsx:182-185 | after `{...prev, [name]: value}` the property reads the new value and every other property its old one |
| FormCommon.AssignKeys | frontend/src/components/UpdateCommitteeByID/UpdateCommitteeByIDComponent.tsx:182-185 | the spread keeps the key order; a new key goes last |
| FormCommon.AssignUnique | frontend/src/components/UpdateCommitteeByID/UpdateCommitteeByIDComponent.tsx:182-185 | the spread never duplicates a key |
| FormCommon.JsParseInt | frontend/src/components/UpdateCommitteeByID/UpdateCommitteeByIDComponent.tsx:184 | `parseInt` is NaN exactly when no digits follow the optional leading whitespace and sign |
| FormCommon.LeadingDigits | frontend/src/components/UpdateCommitteeByID/UpdateCommitteeByIDComponent.tsx:184 | the digits `parseInt` reads are the longest all-digit prefix of the text |
| FormCommon.AllDigitsLeading | frontend/src/components/UpdateCommitteeByID/UpdateCommitteeByIDComponent.tsx:184 | a text of digits alone is read whole |
| FormCommon.ParseIntRoundTrip | frontend/src/components/UpdateCommitteeByID/UpdateCommitteeByIDComponent.tsx:329 | `parseInt(String(n)) == n` for every integer |
| FormCommon.NumberInputValue | frontend/src/components/UpdateCommitteeByID/UpdateCommitteeByIDComponent.tsx:184 | a number input stores `parseInt(value) || 0`: 0 for NaN, the parsed integer otherwise |
| FormCommon.PartText | frontend/src/components/UpdateCommitteeByID/UpdateCommitteeByIDComponent.tsx:300 | `value?.toString() || ''`: text unchanged, null as "", a number as text that parses back to it |
| FormCommon.FirstMissing | frontend/src/components/UpdateCommitteeByID/UpdateCommitteeByIDComponent.tsx:266-273 | the index of the first required field whose value is falsy; every field before it is truthy, and none is missing when it returns nothing |
| FormCommon.FirstMissingIff | frontend/src/components/UpdateCommitteeByID/UpdateCommitteeByIDComponent.tsx:266-273 | the scan stops exactly when some required field is falsy |
| FormCommon.FirstMissingOnlyReadsRequired | frontend/src/components/CommitteeInsertionForm/CommitteeInsertionForm.tsx:228-235 | two form states that agree on the required fields are judged alike |
| FormCommon.ScanRequired | frontend/src/components/UpdateCommitteeByID/UpdateCommitteeByIDComponent.tsx:266-273 | the loop reports exactly `FirstMissing` |
| FormCommon.FieldPartsCarryFields | frontend/src/components/UpdateCommitteeByID/UpdateCommitteeByIDComponent.tsx:299-301 | every form property travels as a text part under its own name, in order; a number reads back as the same number and null as "" |
| FormCommon.FieldParts | frontend/src/components/UpdateCommitteeByID/UpdateCommitteeByIDComponent.tsx:299-301 | one part per form property |
| FormCommon.IntToString | frontend/src/components/UpdateCommitteeByID/UpdateCommitteeByIDComponent.tsx:300 | a number's text is never empty |
| FormCommon.AppendFields | frontend/src/components/UpdateCommitteeByID/UpdateCommitteeByIDComponent.tsx:299-301 | the append loop produces exactly `FieldParts` |
| FormCommon.SelectionAfterAccepted | frontend/src/components/UpdateCommitteeByID/UpdateCommitteeByIDComponent.tsx:203-218 | only the first offered file is considered; a non-PDF or one over 10 MiB leaves the selection unchanged; no file changes nothing |
| FormCommon.SelectionAfterLoaded | frontend/src/components/UpdateCommitteeByID/UpdateCommitteeByIDComponent.tsx:226-234 | the loaded file is selected only on success with a file, otherwise the selection is cleared |
| FormCommon.LoadedFileIsSelected | frontend/src/components/CommitteeInsertionForm/CommitteeInsertionForm.tsx:190-198 | the success callback selects the loaded file; the failure callback clears the selection |
| FormCommon.DroppedFileIsSelected | frontend/src/components/ReactDropZoneComponont.tsx:314-319 | a file react-dropzone lets through (a PDF of at most 10 MiB) is always selected by the form |
| UpdateForm.Defaults | frontend/src/components/UpdateCommitteeByID/UpdateCommitteeByIDComponent.tsx:131-141 | the initial state has exactly the nine declared fields, each once |
| UpdateForm.FieldsDistinct | frontend/src/components/UpdateCommitteeByID/UpdateCommitteeByIDComponent.tsx:131-141 | the nine declared fields are distinct |
| UpdateForm.DateValue | frontend/src/components/UpdateCommitteeByID/UpdateCommitteeByIDComponent.tsx:102-115 | `getDateValue` keeps a non-blank value the date parser accepts; otherwise it gives today or "", as asked |
| UpdateForm.StaticUserIdParses | frontend/src/components/UpdateCommitteeByID/UpdateCommitteeByIDComponent.tsx:129 | the static user id parses to 1 |
| UpdateForm.SubmitIncompleteIff | frontend/src/components/UpdateCommitteeByID/UpdateCommitteeByIDComponent.tsx:266-273 | a submit stops exactly when a required field is falsy, naming the first such field in checking order |
| UpdateForm.SubmitWithFile | frontend/src/components/UpdateCommitteeByID/UpdateCommitteeByIDComponent.tsx:276-316 | with a non-empty PDF selected, the request is a multipart PATCH to `/api/committees/{id}`: every property as text, then the file, then the username |
| UpdateForm.SubmitWithoutFile | frontend/src/components/UpdateCommitteeByID/UpdateCommitteeByIDComponent.tsx:318-345 | without a usable file, the request is a JSON PATCH to `.../json`: the declared fields in order, empty notes as null, the user id as the number 1 |
| UpdateForm.JsonBodyLookup | frontend/src/components/UpdateCommitteeByID/UpdateCommitteeByIDComponent.tsx:320-330 | each declared property is found in the JSON body with its JSON value |
| UpdateForm.JsonBodyMeaning | frontend/src/components/UpdateCommitteeByID/UpdateCommitteeByIDComponent.tsx:320-330 | the JSON body has exactly the declared fields in order; every property but `notes` and `userID` is copied; `notes` is null exactly when it is falsy and copied otherwise; `userID` is the number 1 |
| UpdateForm.SentFileIsPdf | frontend/src/components/UpdateCommitteeByID/UpdateCommitteeByIDComponent.tsx:276-279 | the only file a submit ever sends is the selected, non-empty PDF |
| UpdateForm.UpdateCommitteeForm.constructor | frontend/src/components/UpdateCommitteeByID/UpdateCommitteeByIDComponent.tsx:131-141 | the form starts from the defaults, with no file and not submitting |
| UpdateForm.UpdateCommitteeForm.HandleChange | frontend/src/components/UpdateCommitteeByID/UpdateCommitteeByIDComponent.tsx:179-189 | the input's property gets `parseInt(value) || 0` for a number input and the raw text otherwise; every other property is unchanged |
| UpdateForm.UpdateCommitteeForm.HandleDateChange | frontend/src/components/UpdateCommitteeByID/UpdateCommitteeByIDComponent.tsx:191-201 | a non-empty value that is not `\d{4}-\d{2}-\d{2}` is refused and changes nothing; otherwise it becomes the committee date |
| UpdateForm.UpdateCommitteeForm.HandleFilesAccepted | frontend/src/components/UpdateCommitteeByID/UpdateCommitteeByIDComponent.tsx:203-218 | the selection becomes `SelectionAfterAccepted` |
| UpdateForm.UpdateCommitteeForm.HandleFileRemoved | frontend/src/components/UpdateCommitteeByID/UpdateCommitteeByIDComponent.tsx:220-224 | the selection is cleared |
| UpdateForm.UpdateCommitteeForm.HandleCommitteePdfLoaded | frontend/src/components/UpdateCommitteeByID/UpdateCommitteeByIDComponent.tsx:226-234 | the selection becomes `SelectionAfterLoaded` |
| UpdateForm.UpdateCommitteeForm.HandleSubmit | frontend/src/components/UpdateCommitteeByID/UpdateCommitteeByIDComponent.tsx:237-389 | the request sent (if any) is `Submit` of the state before the call; on 200 or 201 only the file is cleared and the drop zone is reset silently, and the fields are kept; `isSubmitting` ends false on every path |
| InsertionForm.Defaults | frontend/src/components/CommitteeInsertionForm/CommitteeInsertionForm.tsx:47-57 | the initial state has exactly the eight declared fields, each once, all text |
| InsertionForm.DefaultsText | frontend/src/components/CommitteeInsertionForm/CommitteeInsertionForm.tsx:47-57 | the defaults have an empty committee number and today's date, so no existence check is pending |
| InsertionForm.PayloadUserId | frontend/src/components/CommitteeInsertionForm/CommitteeInsertionForm.tsx:40 | `payload.id?.toString() || ''` is "" only for a missing id, and otherwise parses back to the id |
| InsertionForm.CheckFor | frontend/src/components/CommitteeInsertionForm/CommitteeInsertionForm.tsx:123-139 | an existence check is scheduled exactly when both the committee number and the date are non-empty, and it queries those two values |
| InsertionForm.SubmitGuards | frontend/src/components/CommitteeInsertionForm/CommitteeInsertionForm.tsx:228-242 | a request is built only when every required field is truthy and a file is selected; a missing field is reported before a missing file |
| InsertionForm.SubmitRequest | frontend/src/components/CommitteeInsertionForm/CommitteeInsertionForm.tsx:244-257 | the request is a multipart POST to `/api/committees/post`: every property as its own text, then the file |
| InsertionForm.OptionalFieldsNeverBlock | frontend/src/components/CommitteeInsertionForm/CommitteeInsertionForm.tsx:205-214 | neither `sex` nor `notes` affects whether a submission goes ahead |
| InsertionForm.OptionalNotRequired | frontend/src/components/CommitteeInsertionForm/CommitteeInsertionForm.tsx:205-214 | `sex` and `notes` are not among the fields checked before submitting |
| InsertionForm.CommitteeInsertionForm.constructor | frontend/src/components/CommitteeInsertionForm/CommitteeInsertionForm.tsx:47-57 | mounting sets the defaults, schedules the first check when both keys are filled, and fetches the last committee number once |
| InsertionForm.CommitteeInsertionForm.SyncExistenceCheck | frontend/src/components/CommitteeInsertionForm/CommitteeInsertionForm.tsx:123-139 | the pending check is always cancelled; a new one is scheduled iff the number and the date are both non-empty |
| InsertionForm.CommitteeInsertionForm.CheckCommitteeExists | frontend/src/components/CommitteeInsertionForm/CommitteeInsertionForm.tsx:103-105 | an empty number or date sends no request |
| InsertionForm.CommitteeInsertionForm.FireExistenceCheck | frontend/src/components/CommitteeInsertionForm/CommitteeInsertionForm.tsx:129-131 | when the timer fires, the pending check is sent, and only that one |
| InsertionForm.CommitteeInsertionForm.SetField | frontend/src/components/CommitteeInsertionForm/CommitteeInsertionForm.tsx:142-152 | the new value is stored, and the debounce effect runs again exactly when the number or the date changed |
| InsertionForm.AssignTexts | frontend/src/components/CommitteeInsertionForm/CommitteeInsertionForm.tsx:142-152 | storing a text value keeps every property text |
| InsertionForm.CommitteeInsertionForm.HandleChange | frontend/src/components/CommitteeInsertionForm/CommitteeInsertionForm.tsx:142-152 | the raw text is stored under the input's name and every other property is unchanged; when the committee number or date changed, the pending existence check is replaced by the one the new values call for and that check is scheduled; otherwise the pending and scheduled checks stay; no check is sent and the last-number state is untouched |
| InsertionForm.CommitteeInsertionForm.HandleDateChange | frontend/src/components/CommitteeInsertionForm/CommitteeInsertionForm.tsx:155-162 | a non-empty value that is not `\d{4}-\d{2}-\d{2}` is refused and changes nothing; otherwise it becomes the committee date and the existence check is rescheduled as for `handleChange`; no check is sent and the last-number state is untouched |
| InsertionForm.CommitteeInsertionForm.HandleFilesAccepted | frontend/src/components/CommitteeInsertionForm/CommitteeInsertionForm.tsx:165-181 | the selection becomes `SelectionAfterAccepted` |
| InsertionForm.CommitteeInsertionForm.HandleFileRemoved | frontend/src/components/CommitteeInsertionForm/CommitteeInsertionForm.tsx:183-188 | the selection is cleared |
| InsertionForm.CommitteeInsertionForm.HandleBookPdfLoaded | frontend/src/components/CommitteeInsertionForm/CommitteeInsertionForm.tsx:190-198 | the selection becomes `SelectionAfterLoaded` |
| InsertionForm.CommitteeInsertionForm.ResetAfterSuccess | frontend/src/components/CommitteeInsertionForm/CommitteeInsertionForm.tsx:259-278 | the defaults with user id "1", no file, the drop zone reset silently without removal callbacks, and the last committee number fetched again |
| InsertionForm.CommitteeInsertionForm.ResetFormData | frontend/src/components/CommitteeInsertionForm/CommitteeInsertionForm.tsx:261-272 | the form state becomes the defaults with user id "1" and no file; requests, checks and the submitting flag are untouched |
| InsertionForm.CommitteeInsertionForm.HandleSubmit | frontend/src/components/CommitteeInsertionForm/CommitteeInsertionForm.tsx:200-289 | the request sent (if any) is `Submit` of the state before the call; only status 200 resets the form; any other outcome leaves the fields and the file as they were; `isSubmitting` ends false |
| SavePdf.Hour12 | backend/app/helper/save_pdf.py:37 | `%I` gives an hour between 1 and 12 equal to the hour of the day modulo 12 |
| SavePdf.Meridiem | backend/app/helper/save_pdf.py:37 | `%p` is "AM" exactly for hours before noon, otherwise "PM" |
| SavePdf.Timestamp | backend/app/helper/save_pdf.py:36-37 | the timestamp is always 22 characters long |
| SavePdf.TimestampKeepsHour | backend/app/helper/save_pdf.py:37 | the 12-hour hour and the AM/PM marker together determine the hour of the day |
| SavePdf.FileNameCountInjective | backend/app/helper/save_pdf.py:40 | for the same committee, year and timestamp, different document counts give different file names |
| SavePdf.SaveTarget | backend/app/helper/save_pdf.py:25-43 | a target exists exactly when the committee date parses as `%Y-%m-%d`; the directory is `destDir/<current year>` and the file name is `<no>.<committee year>.<count+1>-<timestamp>.pdf` inside it |
| SavePdf.DirectoryYearIsCurrentYear | backend/app/helper/save_pdf.py:26-32 | the saved path lies under `destDir/<clock year>/`, whatever the committee's year |
| SavePdf.UploadArea.constructor | backend/app/helper/save_pdf.py:8 | the upload area starts with the given directories and files |
| SavePdf.UploadArea.SavePdfToServer | backend/app/helper/save_pdf.py:8-55 | an unparsable date fails before any directory is made; otherwise the base and year directories exist afterwards; an existing destination fails with nothing written; else exactly that one file is added with the uploaded bytes and its path is returned |
| Dates.DaysInMonth | backend/app/models/committee.py:43-49 | every month has 28 to 31 days |
| Dates.BeforeTotal | backend/app/services/committee.py:153-154 | date order is total and asymmetric |
| Dates.MatchMonth | backend/app/helper/save_pdf.py:25 | `%m` takes one or two digits, reads a month 1-12 and must be followed by `-` |
| Dates.MatchDay | backend/app/helper/save_pdf.py:25 | `%d` takes one or two characters and reads a day 1-31; it fails exactly when the text starts with none of its alternatives |
| Dates.ParseYmd | backend/app/helper/save_pdf.py:25 | a parsed date is a valid calendar date whose year is the four leading digits, from a string of 8 to 10 characters |
| Dates.FormatYmd | backend/app/models/committee.py:50-52 | a formatted date is ten characters long |
| Dates.Pad2 | backend/app/models/committee.py:50-52 | `%m` and `%d` are two digits, zero-padded, reading back as the number |
| Dates.Pad4 | backend/app/models/committee.py:50-52 | `%Y` is four digits, zero-padded, reading back as the number |
| Dates.FormatIsIsoShape | backend/app/models/committee.py:50-52 | every formatted date has the `^\d{4}-\d{2}-\d{2}$` shape the front end checks |
| Dates.ParseFormat | backend/app/models/committee.py:43-52 | parsing a formatted date gives the same date back |
| Dates.ParseCanonical | backend/app/models/committee.py:43-52 | a string of the strict shape that parses is exactly the formatted form of its date |
| Dates.ParseAcceptsUnpadded | backend/app/helper/save_pdf.py:25 | "2024-2-5" parses, although the front-end shape test refuses it |
| Dates.ShapeWithoutCalendar | frontend/src/components/report/utils.ts:42-44 | "2023-02-30" has the accepted shape but does not parse |
| PdfService.PdfCount | backend/app/services/pdf.py:23-30 | the count is at most the number of rows and is zero exactly when no row belongs to the committee |
| PdfService.PdfCountAppend | backend/app/services/pdf.py:23-30 | adding a row raises the count of its own committee by one and leaves every other count alone |
| PdfService.SafeIffInside | backend/app/services/pdf.py:119-126 | a path is safe exactly when its resolved components start with the base directory's components |
| PdfService.SiblingWithSharedPrefixUnsafe | backend/app/services/pdf.py:119-126 | `D:\pdfEvil\x.pdf` is not inside `D:\pdf` |
| PdfService.FindRow | backend/app/services/pdf.py:68-70 | the first row with the id is found, and nothing is found exactly when no row has the id |
| PdfService.WithoutId | backend/app/services/pdf.py:94-96 | the remaining rows are exactly the old rows with other ids |
| PdfService.PdfStore.constructor | backend/app/services/pdf.py:47 | the store starts with the given rows and files and nothing scheduled for deletion |
| PdfService.PdfStore.DeletePdfRecord | backend/app/services/pdf.py:47-116 | HTTP 400 exactly when the path is unsafe; the answer is true exactly when the path is safe, exists on disk, the row exists, both paths resolve to the same canonical string and the commit succeeds; only then are the id's rows removed and the file scheduled for deletion; the files on disk never change |
| PdfService.DeleteRemovesOnlyThatId | backend/app/services/pdf.py:94-96 | after the delete no row has the id, and every row with another id is kept |
| CommitteeModel.ValidateDate | backend/app/models/committee.py:41-53 | the validator called on its own: no value stays None; a string is kept unchanged exactly when it parses as `%Y-%m-%d`; a date becomes a string that parses back to it; any other value is refused |
| CommitteeModel.CreateDateField | backend/app/models/committee.py:30-53 | a date field of the request model: a date or any other non-string fails the `Optional[str]` type check before the validator runs; None stays None; a string is kept exactly when it parses as `%Y-%m-%d` |
| CommitteeModel.ConvertDateToString | backend/app/models/committee.py:72-82 | never fails; None exactly for no value; strings and other values pass through as text; a date becomes a string of the strict shape that parses back to it |
| CommitteeModel.ResponseDateRoundTrip | backend/app/models/committee.py:30-82 | the string a response gives for a stored date is accepted unchanged by the request model and parses back to the date; the request model refuses the date itself, which the validator called on its own would turn into the same string |
| CommitteeModel.ValidateIdempotent | backend/app/models/committee.py:41-53 | validating what the validator kept keeps it again |
| CommitteeModel.MakeCreate | backend/app/models/committee.py:27-53 | a `CommitteeCreate` is built exactly when each date field is None or a string that parses as `%Y-%m-%d`; a date value is a string type error; the dates are kept as given and the other fields are kept |
| CommitteeModel.DefaultsAreNone | backend/app/models/committee.py:27-38 | with every argument left out, every field is None |
| SearchModels.ParseSortOrder | backend/app/models/committeeSearch.py:19-21 | the sort order accepts exactly "asc" and "desc" |
| SearchModels.ValidateDate | backend/app/models/committeeSearch.py:40-48 | a date bound is accepted exactly when it is None or parses as `%Y-%m-%d`, and is kept unchanged |
| SearchModels.ValidateSortBy | backend/app/models/committeeSearch.py:50-55 | the sort field is accepted exactly when it is one of the five listed columns; an explicit None is refused |
| SearchModels.MakeSearchRequest | backend/app/models/committeeSearch.py:23-55 | a request is built exactly when every given field passes its bound or validator; defaults are page 1, page size 10, sort by id, descending; a built request satisfies every bound |
| SearchModels.SearchDefaults | backend/app/models/committeeSearch.py:32-37 | with nothing given the request is the first page of ten, newest id first |
| SearchModels.ExplicitNullSortByRefused | backend/app/models/committeeSearch.py:36-55 | passing `sort_by=None` is refused although leaving it out is not |
| SearchModels.MakeSuggestionRequest | backend/app/models/committeeSearch.py:57-60 | a suggestion request is built exactly when the query has 1 to 100 characters and a given limit is 1 to 20; the limit defaults to 5 |
| CommitteeRoutes.UpdatableKeysDistinct | backend/app/routes/committees.py:451-469 | the nine keys the update routes copy are distinct |
| CommitteeRoutes.WhitelistOf | backend/app/routes/committees.py:450-469 | copying never yields more entries than there are listed keys |
| CommitteeRoutes.WhitelistStep | backend/app/routes/committees.py:451-469 | copying one more key is one more conditional assignment |
| CommitteeRoutes.WhitelistOfMembers | backend/app/routes/committees.py:451-469 | an entry is in the copy exactly when its key is listed and it carries the request's non-None value for that key |
| CommitteeRoutes.WhitelistedMeaning | backend/app/routes/committees.py:450-469 | the update dictionary keeps exactly the listed keys whose value is not None, each with the value the request gave, and no key twice |
| CommitteeRoutes.WhitelistUnique | backend/app/routes/committees.py:450-469 | copying distinct keys gives a dictionary with distinct keys |
| CommitteeRoutes.UnlistedKeysDropped | backend/app/routes/committees.py:450-469 | `sexCountPerCommittee` and `username` never reach the update |
| CommitteeRoutes.NoFieldsIff | backend/app/routes/committees.py:471-475 | the update is empty exactly when every listed key is missing or None |
| CommitteeRoutes.CopyIfPresent | backend/app/routes/committees.py:451-452 | one conditional assignment adds the key exactly when its value is not None |
| CommitteeRoutes.UpdateDataWithoutFile | backend/app/routes/committees.py:450-469 | the nine statements build the whitelisted dictionary |
| CommitteeRoutes.CopyListed | backend/app/routes/committees.py:451-469 | each of the nine statements extends the copy of the keys before it by the next listed key |
| CommitteeRoutes.Answer | backend/app/routes/committees.py:483-495 | a returned row is a success; an `HTTPException` is passed on unchanged; any other exception becomes a 500 whose detail starts with "Server error: " |
| CommitteeRoutes.ServerError | backend/app/routes/committees.py:112-115 | any other exception is a 500 whose detail is "Server error: " followed by the message |
| CommitteeRoutes.UpdateRecordWithoutFile | backend/app/routes/committees.py:436-495 | with at least one usable field the service gets the whitelisted dictionary and its outcome is answered; otherwise 400 "No fields provided for update" |
| CommitteeRoutes.FormDict | backend/app/routes/committees.py:603-614 | the form dictionary has exactly the nine listed keys, in order |
| CommitteeRoutes.NonNone | backend/app/routes/committees.py:602-614 | the comprehension never adds entries |
| CommitteeRoutes.NonNoneIsWhitelist | backend/app/routes/committees.py:602-614 | over distinct keys the comprehension equals copying the keys one by one |
| CommitteeRoutes.NonNoneStep | backend/app/routes/committees.py:602-614 | the comprehension over one more entry keeps that entry exactly when its value is not None |
| CommitteeRoutes.CopyEntry | backend/app/routes/committees.py:602-614 | with distinct keys, copying an entry's key copies that entry exactly when its value is not None |
| CommitteeRoutes.WithFileUpdateIsWhitelist | backend/app/routes/committees.py:602-614 | the with-file route builds the same dictionary the JSON route would from the same values, never holding `username` |
| CommitteeRoutes.UpdateRecordWithFile | backend/app/routes/committees.py:565-639 | an empty file gives 400 "File is required", then a type other than `application/pdf` gives 400 "Only PDF files"; otherwise the service gets the filtered form and the user name and its outcome is answered |
| CommitteeRoutes.RefusedUploadSkipsService | backend/app/routes/committees.py:588-598 | a refused upload gets a 400 that does not depend on the service |
| CommitteeRoutes.NewRow | backend/app/routes/committees.py:61-74 | the stored row has every committee column |
| CommitteeRoutes.AddCommitteeDoc | backend/app/routes/committees.py:43-115 | a date or user id that does not validate fails with 500 before anything is stored; otherwise the new committee takes the next id; a success answers count 1 and appends exactly one PDF row for the new id, so the new committee's PDF count equals the answer; a failure adds no PDF row |
| CommitteeRoutes.StoreWithPdf | backend/app/routes/committees.py:73-115 | the committee takes the next id; a success answers count 1 and appends one PDF row for that id, so the committee's PDF count equals the answer; a failure is a 500 "Server error: " and adds no PDF row |
| CommitteeRoutes.StoreThenUpdateWithFile | backend/app/services/committee.py:540-554 | a committee stored by `addCommitteeDoc` and then updated with a file ends with two PDF rows, both carrying `countPdf` 1 |
| CommitteeRoutes.NoRowsForNewId | backend/app/routes/committees.py:79 | a fresh id has no PDF rows yet, so the count read for it is 0 |
| CommitteeRoutes.AnyMatch | backend/app/routes/committees.py:236-239 | the check answers true exactly when some row has the number and a committee date in the year |
| CommitteeRoutes.CheckOrderExists | backend/app/routes/committees.py:210-243 | a stripped date that does not parse gives 400; a failing query gives 500; otherwise the answer is whether a row has the stripped number and a date in the same year |
| CommitteeRoutes.CheckIgnoresPadding | backend/app/routes/committees.py:221-228 | padding around either parameter changes nothing |
| CommitteeRoutes.CheckUsesYearOnly | backend/app/routes/committees.py:222-230 | two dates of the same year give the same answer |
| CommitteeRoutes.HexValue | backend/app/routes/committees.py:682 | a hex digit has a value below 16 |
| CommitteeRoutes.Unquote | backend/app/routes/committees.py:682 | `unquote` alone never lengthens the segment and leaves a segment without `%` unchanged |
| CommitteeRoutes.HexDigit | backend/app/routes/committees.py:682 | each value below 16 has an upper-case hex digit that reads back as it |
| CommitteeRoutes.Quote | backend/app/routes/committees.py:682 | the client's encoding never shortens the segment |
| CommitteeRoutes.UnquoteQuote | backend/app/routes/committees.py:682 | `unquote` alone reverses the client's encoding, `%` signs included |
| CommitteeRoutes.UnquoteUnit | backend/app/routes/committees.py:682 | the encoding of one byte decodes to that byte whatever follows |
| CommitteeRoutes.HexRoundTrip | backend/app/routes/committees.py:682 | the two hex digits of a byte read back as the byte |
| CommitteeRoutes.BossNameAsWritten | backend/app/routes/committees.py:666-682 | the boss name looked up is the path segment decoded twice, by the server and by `unquote`; it is never longer than the segment and a segment without `%` is looked up as sent |
| CommitteeRoutes.BossNameDecodedOnce | backend/app/routes/committees.py:666-682 | the segment decoded once is never longer than it |
| CommitteeRoutes.DecodedTwice | backend/app/routes/committees.py:682 | the name `%41` is sent as `%2541`; one decode gives `%41` back, the route's second decode turns it into `A` |
| CommitteeRoutes.BossNameRoundTrip | backend/app/routes/committees.py:666-682 | decoded once, every boss name comes back exactly as the client encoded it |
| CommitteeRoutes.DecodedTwiceWithoutPercent | backend/app/routes/committees.py:666-710 | a boss name without `%` comes back unchanged even after the second decode |
| CommitteeService.KeysOf | backend/app/services/committee.py:575 | the keys of a dictionary, one per entry, in order |
| CommitteeService.Get | backend/app/services/committee.py:513-514 | `get` gives None for an absent key and otherwise a value stored under the key |
| CommitteeService.GetAt | backend/app/services/committee.py:513-514 | in a dictionary with distinct keys, `get` returns the value stored under the key |
| CommitteeService.IsNullWordUpper | backend/app/services/committee.py:60 | the letter-by-letter test is exactly "upper-cased text is NULL or NONE" |
| CommitteeService.CleanList | backend/app/services/committee.py:55-61 | the cleaned list is never longer than the column values |
| CommitteeService.CleanListTrimmed | backend/app/services/committee.py:56-59 | every listed value is stripped and not empty |
| CommitteeService.CleanListMembers | backend/app/services/committee.py:55-61 | a value is listed exactly when some kept column value strips to it |
| CommitteeService.CleanListAppend | backend/app/services/committee.py:55-61 | cleaning works element by element, so the database order is kept |
| CommitteeService.PaddedNullSurvives | backend/app/services/committee.py:59-60 | the NULL/NONE test runs on the unstripped text, so " null " is listed as "null" |
| CommitteeService.NullSpellingsDropped | backend/app/services/committee.py:58-60 | None, blanks, "null" and "None" are dropped |
| CommitteeService.CleanedListReply | backend/app/services/committee.py:63-66 | the reply's count is the length of its list, which holds only stripped, non-empty values |
| CommitteeService.FloorDiv | backend/app/services/committee.py:256 | Python's `//` rounds toward negative infinity |
| CommitteeService.TotalPages | backend/app/services/committee.py:256 | the page count is the fewest pages of `limit` rows that hold all rows |
| CommitteeService.SerialNumbersContinue | backend/app/services/committee.py:173-232 | a page's serial numbers run from `(page-1)*limit+1` to `page*limit` and continue the previous page's without overlap |
| CommitteeService.DateRange | backend/app/services/committee.py:151-162 | no range unless both bounds are given; otherwise 400 exactly when a bound does not parse or the start is after the end, else the range between the parsed bounds |
| CommitteeService.ListingError | backend/app/services/committee.py:258-260 | the listing's catch-all answers every failure with 500 |
| CommitteeService.FiltersFor | backend/app/services/committee.py:144-158 | the listing appends at most five filters |
| CommitteeService.ListingFilters | backend/app/services/committee.py:144-260 | the listing fails exactly when the date range does, with the wrapped 500; otherwise its filters are those of the given parameters and the range |
| CommitteeService.BuildListingFilters | backend/app/services/committee.py:144-162 | the step-by-step appends build exactly that filter list |
| CommitteeService.PassesAllAppend | backend/app/services/committee.py:166 | passing a concatenation of filters is passing both parts |
| CommitteeService.ListingFilterMeaning | backend/app/services/committee.py:144-158 | a row is selected exactly when it has the stripped number, contains the stripped title and boss name (ignoring case) for each given parameter, and lies in the range |
| CommitteeService.PassesAllSingle | backend/app/services/committee.py:166 | one filter selects what it passes |
| CommitteeService.LowerCasedTitleSameRows | backend/app/services/committee.py:148 | lower-casing the title pattern selects the same rows under `ilike` |
| CommitteeService.FilesOf | backend/app/services/committee.py:218-228 | a committee's entries come from its own PDF rows and are empty for a committee no row mentions |
| CommitteeService.PdfFilesForGrouped | backend/app/services/committee.py:218-245 | the listing shows each committee's own PDF entries in row order, and none for a committee without PDF rows |
| CommitteeService.NosOfStep | backend/app/services/committee.py:219-221 | one more row adds its committee number to those mentioned |
| CommitteeService.GroupedStep | backend/app/services/committee.py:219-228 | one loop iteration appends the row's entry under its number |
| CommitteeService.FilesOfStep | backend/app/services/committee.py:219-228 | one more row adds its PDF entry to its own committee's list and to no other |
| CommitteeService.GroupPdfs | backend/app/services/committee.py:218-228 | the grouping loop builds the grouped map |
| CommitteeService.PageRows | backend/app/services/committee.py:229-247 | the page has one entry per row, numbered from the offset, each carrying its row and exactly the PDF entries of its committee number, in PDF row order (`[]` when it has none) |
| CommitteeService.FilterRange | backend/app/services/committee.py:319-320 | the range keeps exactly the rows with a committee date inside it |
| CommitteeService.Report | backend/app/services/committee.py:302-375 | the report fails exactly when the date range does, with that same 400; without both bounds it holds every row; otherwise exactly the rows in range |
| CommitteeService.NoFilterKeepsAll | backend/app/services/committee.py:313 | without a range every row is kept |
| CommitteeService.InvertedRangeStatuses | backend/app/services/committee.py:155-370 | an inverted range is a 400 from the report but a 500 from the paged listing |
| CommitteeService.AppliedKeys | backend/app/services/committee.py:574-576 | the `setattr` loop never adds or removes a column |
| CommitteeService.AppliedUntouched | backend/app/services/committee.py:574-576 | a column the dictionary does not name keeps its value |
| CommitteeService.AppliedSet | backend/app/services/committee.py:574-576 | a column the dictionary names holds the dictionary's value |
| CommitteeService.ApplyUpdate | backend/app/services/committee.py:574-576 | the loop computes that row |
| CommitteeService.IndexOfKey | backend/app/services/committee.py:549 | a key present in a dictionary has a position |
| CommitteeService.Put | backend/app/services/committee.py:549 | assigning a key adds exactly that key and keeps keys distinct |
| CommitteeService.NextCountPdf | backend/app/routes/committees.py:96 | the recorded document number is above the count before the insert |
| CommitteeService.UpdateCountPdfRepeats | backend/app/services/committee.py:540-554 | as written, whenever a committee's PDF rows so far carry their ordinals, the count the update path stores for the new row equals the `countPdf` of one of the committee's existing rows |
| CommitteeService.LastPdfRow | backend/app/services/pdf.py:17-27 | a committee with PDF rows has a last one, and the rows up to it hold its whole count |
| CommitteeService.CountPdfIsOrdinal | backend/app/services/committee.py:540-554 | with the corrected number each new PDF row carries its ordinal among the committee's PDF rows, so rows numbered by ordinal stay so |
| CommitteeService.CommitteeDb.constructor | backend/app/services/committee.py:29-34 | the database starts with the given rows and counters |
| CommitteeService.CommitteeDb.InsertCommittee | backend/app/services/committee.py:29-34 | a new row is stored under the next identity, which was unused, and that id is returned; nothing else changes |
| CommitteeService.CommitteeDb.InsertPdf | backend/app/services/committee.py:560 | exactly one PDF row is appended under the next PDF id |
| CommitteeService.CommitteeDb.AttachFile | backend/app/services/committee.py:511-569 | number and date come from the update or else the row; a missing one gives 400; an unparsable date 500; an existing file 409; a success writes the file and appends one PDF row whose `countPdf` is the committee's count before the insert, as written; a failure changes no file and no PDF row |
| CommitteeService.CommitteeDb.UpdateRecord | backend/app/services/committee.py:469-607 | no fields and no file gives 400; an unknown id 404; a success stores the row with exactly the named columns changed; any failure leaves the committee rows as they were; without a file no PDF row or file changes; a success with a file has written it and appended exactly one PDF row for the committee with the as-written count |
| CommitteeService.CommitteeDb.UpdateWithFile | backend/app/services/committee.py:511-607 | the file block followed by the row update: on success the row has exactly the named columns changed, the file is written and one PDF row with the as-written count is appended; a failure leaves the committee rows as they were |
| CommitteeService.NotFound | backend/app/services/committee.py:503-506 | an unknown id is a 404 whose detail reads "Committee with ID ... not found" |
| CommitteeService.CommitteeDb.StoreUpdate | backend/app/services/committee.py:573-579 | the commit fails exactly when it raises; on success the stored row has exactly the named columns changed; the PDF rows are untouched |
| CommitteeService.UpdateKeepsColumns | backend/app/services/committee.py:549-576 | the loop over the update, with or without `file_path`, changes exactly the columns the update names and adds none |
| CommitteeService.PutKeepsOthers | backend/app/services/committee.py:549 | assigning one key leaves every other key and value alone |
| CommitteeSearch.SearchFilters | backend/app/services/committeeSearch.py:84-119 | at most one filter per parameter, and none exactly when no parameter is given |
| CommitteeSearch.BuildFilters | backend/app/services/committeeSearch.py:84-119 | the step-by-step appends build exactly that filter list |
| CommitteeSearch.MatchesAllAppend | backend/app/services/committeeSearch.py:36-39 | the combined filter over a concatenation is both parts |
| CommitteeSearch.MatchesAllSingle | backend/app/services/committeeSearch.py:36-39 | one filter combines to itself |
| CommitteeSearch.SearchFilterMeaning | backend/app/services/committeeSearch.py:84-119 | a row is selected exactly when it has the given number, a committee date within the given bounds, and contains the stripped title and boss name (ignoring case); no parameter selects every row |
| CommitteeSearch.Selected | backend/app/services/committeeSearch.py:35-46 | the selection keeps exactly the rows passing every filter |
| CommitteeSearch.NoFiltersSelectAll | backend/app/services/committeeSearch.py:41-42 | without filters every row is selected |
| CommitteeSearch.ApplySorting | backend/app/services/committeeSearch.py:121-129 | the order is by the requested column, descending exactly when the order is "desc" |
| CommitteeSearch.DefaultOrderingNewestFirst | backend/app/services/committeeSearch.py:121-129 | a search left to its defaults lists the highest id first |
| CommitteeSearch.Window | backend/app/services/committeeSearch.py:53-54 | the window holds at most `size` consecutive rows starting at the offset |
| CommitteeSearch.Respond | backend/app/services/committeeSearch.py:53-75 | the response's total is the selection's size; its data are the selected rows from the offset on, at most a page; the page count holds every row; `has_next` and `has_previous` say whether rows lie after and before the page |
| CommitteeSearch.Search | backend/app/services/committeeSearch.py:22-78 | the same filter selects the rows counted in `total` and the rows listed in `data` |
| CommitteeSearch.HasNextMeansMoreRows | backend/app/services/committeeSearch.py:63-64 | `page < total_pages` exactly when rows remain after the page |
| CommitteeSearch.OffsetFromFirstPage | backend/app/services/committeeSearch.py:53-65 | the offset is never negative and is positive exactly after the first page |
| CommitteeSearch.PagesCoverSelection | backend/app/services/committeeSearch.py:53-54 | every selected row is on exactly one page, the one its index gives |
| CommitteeSearch.PastLastPageEmpty | backend/app/services/committeeSearch.py:53-64 | a page past the last one is empty and has no next page |
| CommitteeSearch.DistinctMatching | backend/app/services/committeeSearch.py:136-146 | the distinct non-null column values containing the query, ignoring case, each once |
| CommitteeSearch.Suggestions | backend/app/services/committeeSearch.py:131-154 | at most `limit` distinct, non-empty matching values, with `count` their number |
| CommitteeSearch.NonEmpty | backend/app/services/committeeSearch.py:149 | the comprehension drops exactly the empty values and keeps distinct values distinct |
| CommitteeSearch.SuggestionsComplete | backend/app/services/committeeSearch.py:131-154 | under the limit every distinct non-empty matching value is suggested |
| EmployeeService.GenderName | backend/app/services/employee.py:87-91 | gender 1 is male, 2 female, anything else has no name |
| EmployeeService.FormatAll | backend/app/services/employee.py:85-99 | one dictionary per employee, in order |
| EmployeeService.FormatEmployees | backend/app/services/employee.py:85-239 | the loop gives each employee's own fields and its gender name, in order |
| EmployeeService.InsertByName | backend/app/services/employee.py:70 | inserting adds exactly the one employee |
| EmployeeService.InsertSorted | backend/app/services/employee.py:70 | inserting into a sequence ordered by name keeps it ordered |
| EmployeeService.ConsSorted | backend/app/services/employee.py:70 | an employee ranked no higher than every element of an ordered sequence can lead it |
| EmployeeService.SortByName | backend/app/services/employee.py:70 | `ORDER BY name` gives a permutation of its input ordered by the rank of the names |
| EmployeeService.SortedMembers | backend/app/services/employee.py:70 | sorting keeps exactly the same employees |
| EmployeeService.FormatSorted | backend/app/services/employee.py:85-99 | formatting keeps the order by name and gives exactly one row per employee |
| EmployeeService.SearchFilter | backend/app/services/employee.py:36-67 | a non-blank term wins and is stripped: all digits search the number, otherwise the name; without one `employee_desc` applies; otherwise everyone |
| EmployeeService.SearchTermTakesPrecedence | backend/app/services/employee.py:37-62 | with a usable term `employee_desc` makes no difference |
| EmployeeService.Select | backend/app/services/employee.py:48-64 | the selection keeps exactly the employees satisfying the filter |
| EmployeeService.SelectEveryone | backend/app/services/employee.py:66-67 | no filter keeps the whole table |
| EmployeeService.SearchEmployees | backend/app/services/employee.py:18-107 | the result holds exactly the formatted employees the chosen filter selects, ordered by name; with no term and no `employee_desc` it is the whole table ordered by name |
| EmployeeService.GetAllEmployees | backend/app/services/employee.py:214-247 | every employee ordered by name and formatted, the same as a search with no parameter |
| EmployeeService.LeadingZerosStillFound | backend/app/services/employee.py:50-51 | "007" finds employee number 7 through the numeric comparison, though no substring of "7" matches |
| EmployeeService.GetEmployeeById | backend/app/services/employee.py:111-139 | None exactly when no employee has the id; otherwise the formatted employee with it |
| EmployeeService.AutoSelect | backend/app/services/employee.py:166-188 | the selection keeps exactly the employees whose number equals an all-digit term, or whose trimmed name starts with another term |
| EmployeeService.Take | backend/app/services/employee.py:173-187 | `limit` keeps a prefix of at most that many rows |
| EmployeeService.Autocomplete | backend/app/services/employee.py:143-206 | a missing or blank query gives no rows; otherwise at most `limit` formatted employees matching the stripped term, ordered by name for a name prefix |
| EmployeeService.AutocompleteComplete | backend/app/services/employee.py:143-206 | under the limit every matching employee is suggested |
| EmployeeService.AutocompleteFirstByName | backend/app/services/employee.py:177-187 | over the limit a name prefix suggests the first names: a matching employee whose name ranks below a suggested one is suggested too |
| EmployeeService.AutoOrdered | backend/app/services/employee.py:166-187 | the rows the limit cuts are exactly the matches, sorted by name for a name prefix |
| EmployeeService.AutocompleteWithinSearch | backend/app/services/employee.py:45-174 | an employee an all-digit autocomplete finds is found by the search with the same term |
| EmployeeService.LinkCount | backend/app/services/employee.py:281-287 | an employee is linked to the committee exactly when a junction row ties them |
| EmployeeService.Members | backend/app/services/employee.py:281-292 | the members are exactly the employees a junction row ties to the committee |
| EmployeeService.CommitteeEmployees | backend/app/services/employee.py:252-317 | a database failure gives 500; an unknown committee 404 with its id; otherwise exactly the formatted members, ordered by name |
| DynamicTable.TruncateText | frontend/src/components/DynamicTableTanStack/DynamicTableWithPagination.tsx:88-93 | empty text stays empty; text of at most `maxWords` words is kept whole; longer text is its first `maxWords` words joined by spaces, a proper prefix of the text, followed by "..." |
| DynamicTable.JoinPrefix | frontend/src/components/DynamicTableTanStack/DynamicTableWithPagination.tsx:93 | the first words joined are a prefix of all the words joined, and a shorter one when words are left out |
| DynamicTable.TruncateTwoWords | frontend/src/components/DynamicTableTanStack/DynamicTableWithPagination.tsx:88-93 | "a b" with a limit of one shows "a..." |
| DynamicTable.StatusClass | frontend/src/components/DynamicTableTanStack/DynamicTableWithPagination.tsx:107-123 | the trimmed, lower-cased status picks the green, red or grey class, a missing status counts as "", and anything else gets the default |
| DynamicTable.StatusIgnoresPadding | frontend/src/components/DynamicTableTanStack/DynamicTableWithPagination.tsx:109 | whitespace around the status never changes the colour |
| DynamicTable.LateDaysClass | frontend/src/components/DynamicTableTanStack/DynamicTableWithPagination.tsx:185-187 | red exactly above three days, yellow exactly above one up to three, green otherwise, a value that is not a number included |
| DynamicTable.ColumnWidth | frontend/src/components/DynamicTableTanStack/DynamicTableWithPagination.tsx:213-233 | truncated fields are 200 wide, then the four book fields 100, then username, late-books count and current date 150, book type 70, anything else 120 |
| DynamicTable.KeptKeys | frontend/src/components/DynamicTableTanStack/DynamicTableWithPagination.tsx:129-130 | the kept keys are exactly the first row's keys that are not excluded |
| DynamicTable.Columns | frontend/src/components/DynamicTableTanStack/DynamicTableWithPagination.tsx:125-240 | no columns for empty data; otherwise one per kept key, in order with its width, and then the actions column |
| DynamicTable.ExcludedNeverShown | frontend/src/components/DynamicTableTanStack/DynamicTableWithPagination.tsx:130 | an excluded key never becomes a data column |
| DynamicTable.Buttons | frontend/src/components/DynamicTableTanStack/DynamicTableWithPagination.tsx:375-386 | one numbered button per page from `a` to `b`, marked current for the current page |
| DynamicTable.RenderPagination | frontend/src/components/DynamicTableTanStack/DynamicTableWithPagination.tsx:345-443 | the pushes build the page items; "previous" is disabled exactly on page 1 and "next" exactly on the last page |
| DynamicTable.PushLeading | frontend/src/components/DynamicTableTanStack/DynamicTableWithPagination.tsx:359-373 | before the window: the first page and, after a gap, an ellipsis |
| DynamicTable.PushTrailing | frontend/src/components/DynamicTableTanStack/DynamicTableWithPagination.tsx:388-400 | after the window: an ellipsis after a gap, then the last page |
| DynamicTable.WindowFacts | frontend/src/components/DynamicTableTanStack/DynamicTableWithPagination.tsx:351-357 | for a page in range the window contains the page, stays in range and numbers five pages, or all pages when there are fewer |
| DynamicTable.Window | frontend/src/components/DynamicTableTanStack/DynamicTableWithPagination.tsx:351-357 | the loop-free window computation gives `StartPage` and `EndPage` |
| DynamicTable.PushButtons | frontend/src/components/DynamicTableTanStack/DynamicTableWithPagination.tsx:375-386 | the `for` loop appends exactly `Buttons(startPage, endPage, page)` |
| DynamicTable.Numbers | frontend/src/components/DynamicTableTanStack/DynamicTableWithPagination.tsx:345-402 | the page numbers shown are drawn from the items |
| DynamicTable.NumbersAppend | frontend/src/components/DynamicTableTanStack/DynamicTableWithPagination.tsx:345-402 | the numbers of concatenated items are concatenated |
| DynamicTable.NumbersOfButtons | frontend/src/components/DynamicTableTanStack/DynamicTableWithPagination.tsx:375-386 | the window's buttons number `a` to `b` |
| DynamicTable.NumbersOfLeading | frontend/src/components/DynamicTableTanStack/DynamicTableWithPagination.tsx:359-373 | the leading part shows page 1 exactly when the window starts after it |
| DynamicTable.NumbersOfTrailing | frontend/src/components/DynamicTableTanStack/DynamicTableWithPagination.tsx:388-400 | the trailing part shows the last page exactly when the window ends before it |
| DynamicTable.NumbersOfItems | frontend/src/components/DynamicTableTanStack/DynamicTableWithPagination.tsx:345-402 | for a page in range the window is not empty, and the numbers shown are page 1 if the window starts later, the window's pages, and the last page if the window ends earlier |
| DynamicTable.WindowNumbersIncreasing | frontend/src/components/DynamicTableTanStack/DynamicTableWithPagination.tsx:345-402 | those numbers rise strictly from 1 to the last page |
| DynamicTable.PageNumbersIncreasing | frontend/src/components/DynamicTableTanStack/DynamicTableWithPagination.tsx:345-402 | for a page in range the buttons run strictly upward from page 1 to the last page and include the current page |
| SearchPanel.With | frontend/src/components/SearchPanelComponent/SearchPanel.tsx:133-136 | only the named filter changes, to the new value |
| SearchPanel.Keys | frontend/src/components/SearchPanelComponent/SearchPanel.tsx:150-155 | the parameter names, one per parameter, in order |
| SearchPanel.FilterParams | frontend/src/components/SearchPanelComponent/SearchPanel.tsx:151-155 | the parameters are exactly the named filters whose value is non-empty, each with its value |
| SearchPanel.BuildQueryParams | frontend/src/components/SearchPanelComponent/SearchPanel.tsx:149-158 | the `forEach` builds page, limit and then the non-empty active filters in field order |
| SearchPanel.FilterParamsStep | frontend/src/components/SearchPanelComponent/SearchPanel.tsx:151-155 | one more `forEach` iteration adds that field's parameter when it is non-empty |
| SearchPanel.QueryParamsMeaning | frontend/src/components/SearchPanelComponent/SearchPanel.tsx:149-158 | page and limit come first, and a filter is sent exactly when its active value is non-empty, with that value |
| SearchPanel.FieldNameInjective | frontend/src/components/SearchPanelComponent/SearchPanel.tsx:60-66 | the five filter names are distinct and none is "page" or "limit" |
| SearchPanel.ActiveFilterType | frontend/src/components/SearchPanelComponent/SearchPanel.tsx:229-235 | number first, then title, then boss name, then the date range when both bounds are set, otherwise all; the "to" bound is never chosen on its own |
| SearchPanel.Put | frontend/src/components/SearchPanelComponent/SearchPanel.tsx:185 | `Object.assign` of a new key appends it |
| SearchPanel.FetchParams | frontend/src/components/SearchPanelComponent/SearchPanel.tsx:161-186 | "all" sends exactly the query parameters; the date range sends both bounds only when both are set; any other single filter sends page, limit and its own non-empty value |
| SearchPanel.AssignQueryParams | frontend/src/components/SearchPanelComponent/SearchPanel.tsx:166-185 | assigning the query parameters over page and limit gives the query parameters |
| SearchPanel.FilterParamsKeys | frontend/src/components/SearchPanelComponent/SearchPanel.tsx:151-155 | the filter parameters have distinct names, none "page" or "limit", each a filter's name |
| SearchPanel.FilterParamsFresh | frontend/src/components/SearchPanelComponent/SearchPanel.tsx:151-155 | the filter parameters have distinct names, and none is the name of the page or limit parameter |
| SearchPanel.KeysAppend | frontend/src/components/SearchPanelComponent/SearchPanel.tsx:150-155 | the names of concatenated parameters are concatenated |
| SearchPanel.AssignFresh | frontend/src/components/SearchPanelComponent/SearchPanel.tsx:185 | assigning fresh, distinct names appends them in order |
| SearchPanel.PutFresh | frontend/src/components/SearchPanelComponent/SearchPanel.tsx:185 | assigning a parameter whose name is not yet present appends it |
| SearchPanel.NumberHidesOtherFilters | frontend/src/components/SearchPanelComponent/SearchPanel.tsx:230 | with a number and a title set, only the number is fetched |
| SearchPanel.SingleDateBoundStillSent | frontend/src/components/SearchPanelComponent/SearchPanel.tsx:149-235 | with only the "from" bound set the panel fetches "all", which still sends that bound |
| SearchPanel.Panel.constructor | frontend/src/components/SearchPanelComponent/SearchPanel.tsx:71-87 | page 1, twenty rows, both filter sets empty |
| SearchPanel.Panel.HandleSearch | frontend/src/components/SearchPanelComponent/SearchPanel.tsx:90-107 | when both dates are set, an invalid date or a start after the end leaves everything as it was and reports one of the two messages; otherwise the pending filters become active and page 1 is shown; the pending filters and the limit never change |
| SearchPanel.Panel.HandleReset | frontend/src/components/SearchPanelComponent/SearchPanel.tsx:110-128 | both filter sets cleared, page 1, twenty rows |
| SearchPanel.Panel.HandleSelect | frontend/src/components/SearchPanelComponent/SearchPanel.tsx:131-137 | only the named pending filter changes |
| SearchPanel.Panel.HandleDateChange | frontend/src/components/SearchPanelComponent/SearchPanel.tsx:140-146 | only the named pending filter changes, a missing value stored as "" |
| SearchPanel.Panel.HandlePageChange | frontend/src/components/SearchPanelComponent/SearchPanel.tsx:249-253 | only the page changes |
| SearchPanel.Panel.HandleLimitChange | frontend/src/components/SearchPanelComponent/SearchPanel.tsx:256-262 | a size from 1 to 100 is taken and page 1 shown; any other size changes nothing |
| EmployeeSelect.Without | frontend/src/components/employee.tsx:134-150 | the id is gone and every other id keeps its multiplicity |
| EmployeeSelect.WithoutAbsent | frontend/src/components/employee.tsx:150 | removing an id that is not selected changes nothing |
| EmployeeSelect.WithoutAppend | frontend/src/components/employee.tsx:150 | the filter works piecewise over a concatenation, keeping the order |
| EmployeeSelect.Toggle | frontend/src/components/employee.tsx:130-145 | a selected employee is removed without clearing the search; otherwise a reached cap changes nothing, and below it the id is appended and the search cleared |
| EmployeeSelect.ToggleTwiceRestores | frontend/src/components/employee.tsx:130-145 | adding an employee and toggling it again restores the selection |
| EmployeeSelect.Step | frontend/src/components/employee.tsx:130-161 | remove takes the id out; clear-all empties the selection and the search; typing sets only the search; a toggle leaves the employee selected exactly when it was not and the cap allowed it |
| EmployeeSelect.WithoutKeepsDistinct | frontend/src/components/employee.tsx:150 | removing keeps a repeat-free selection repeat-free and no longer |
| EmployeeSelect.StepKeepsSelectionValid | frontend/src/components/employee.tsx:130-161 | from a repeat-free selection within the cap, no action creates a repeat or exceeds the cap |
| EmployeeSelect.RequestFor | frontend/src/components/employee.tsx:58-84 | no request for a blank term; otherwise the trimmed, non-blank term with limit 50 |
| EmployeeSelect.HintFor | frontend/src/components/employee.tsx:163-185 | no hint for a blank term; the exact-number hint exactly for an all-digit trimmed term |
| EmployeeSelect.HintAgreesWithEndpoint | frontend/src/components/employee.tsx:60-185 | a hint implies a request is sent, and the hint says truly whether the autocomplete endpoint matches the number exactly or the name's start |
| EmployeeSelect.LoadSelected | frontend/src/components/employee.tsx:88-127 | the chips are exactly the fetched employees of the selected ids, failed fetches dropped |
| EmployeeSelect.ButtonPlaceholder | frontend/src/components/employee.tsx:187-198 | loading text while loading; the placeholder with no selection; the one employee's name; otherwise the count followed by the "selected" suffix |
| EmployeeSelect.SelectionDialog.SaveDisabled | frontend/src/components/EmployeeSelectionDialog.tsx:140 | saving is disabled exactly when the temporary selection is empty |
| EmployeeSelect.SelectionDialog.constructor | frontend/src/components/EmployeeSelectionDialog.tsx:37-38 | closed, the temporary selection is the parent's, nothing sent |
| EmployeeSelect.SelectionDialog.HandleDialogOpen | frontend/src/components/EmployeeSelectionDialog.tsx:41-45 | opens with the parent's current selection |
| EmployeeSelect.SelectionDialog.HandleChange | frontend/src/components/EmployeeSelectionDialog.tsx:109 | only the temporary selection changes |
| EmployeeSelect.SelectionDialog.HandleSave | frontend/src/components/EmployeeSelectionDialog.tsx:48-64 | an empty selection gives only a warning and the dialog stays as it is; otherwise the selection goes to the parent once, a success toast with its size follows, and the dialog closes; nothing empty ever reaches the parent |
| EmployeeSelect.SelectionDialog.HandleCancel | frontend/src/components/EmployeeSelectionDialog.tsx:67-71 | the edits are dropped, the dialog closes and the parent hears nothing |
| EmployeeSelect.SelectionDialog.HandleOpenChange | frontend/src/components/EmployeeSelectionDialog.tsx:74 | only the open flag changes |
| FormUrlEncoded.EncodeChar | frontend/src/components/report/utils.ts:15 | UTF-8 uses one to four bytes, a single byte exactly for ASCII, and continuation-range bytes only in multi-byte forms |
| FormUrlEncoded.Utf8 | frontend/src/components/report/utils.ts:15 | the encoding has at least one byte per character |
| FormUrlEncoded.DecodeFirst | frontend/src/components/report/committeeReportByCommitteeDate.tsx:65-66 | a decoded first character consumes between one byte and the whole input |
| FormUrlEncoded.DecodeEncodedChar | frontend/src/components/report/utils.ts:15 | the encoding of one character decodes to it, whatever follows |
| FormUrlEncoded.Utf8RoundTrip | frontend/src/components/report/utils.ts:15 | decoding the UTF-8 encoding of a string gives it back |
| FormUrlEncoded.HexChar | frontend/src/components/report/utils.ts:15 | each value below 16 has an upper-case hex digit that reads back as it |
| FormUrlEncoded.HexValue | frontend/src/components/report/committeeReportByCommitteeDate.tsx:65-66 | a hex digit's value is below 16 |
| FormUrlEncoded.EncodeByte | frontend/src/components/report/utils.ts:15 | an encoded byte never produces `&` or `=` |
| FormUrlEncoded.EncodeBytes | frontend/src/components/report/utils.ts:15 | encoded bytes never contain `&` or `=` |
| FormUrlEncoded.Encode | frontend/src/components/report/utils.ts:15 | an encoded name or value never contains `&` or `=` |
| FormUrlEncoded.PairTexts | frontend/src/components/report/utils.ts:15 | each pair is written as its encoded name, `=`, and its encoded value |
| FormUrlEncoded.Serialize | frontend/src/components/report/utils.ts:15 | the serialization is empty exactly when there are no pairs |
| FormUrlEncoded.JoinNonEmpty | frontend/src/components/report/utils.ts:15 | joining texts whose first is non-empty is non-empty |
| FormUrlEncoded.ParsePieces | frontend/src/components/report/committeeReportByCommitteeDate.tsx:65-66 | parsing never yields more pairs than pieces |
| FormUrlEncoded.PlusToSpaceAppend | frontend/src/components/report/committeeReportByCommitteeDate.tsx:65-66 | reading `+` as space works piecewise |
| FormUrlEncoded.DecodeEncodedByte | frontend/src/components/report/utils.ts:15-15 | one encoded byte decodes to that byte, whatever follows (read back by the print page, frontend/src/components/report/committeeReportByCommitteeDate.tsx:65-66) |
| FormUrlEncoded.DecodeEncodedBytes | frontend/src/components/report/utils.ts:15-15 | encoded bytes decode to themselves (read back by the print page, frontend/src/components/report/committeeReportByCommitteeDate.tsx:65-66) |
| FormUrlEncoded.DecodeEncode | frontend/src/components/report/utils.ts:15-15 | decoding an encoded name or value gives it back (read back by the print page, frontend/src/components/report/committeeReportByCommitteeDate.tsx:65-66) |
| FormUrlEncoded.ParsePiecesOfTexts | frontend/src/components/report/utils.ts:15-15 | parsing the written pairs gives the pairs back (read back by the print page, frontend/src/components/report/committeeReportByCommitteeDate.tsx:65-66) |
| FormUrlEncoded.ParseSerialize | frontend/src/components/report/utils.ts:15-15 | parsing what was serialized yields exactly the appended pairs, in order (read back by the print page, frontend/src/components/report/committeeReportByCommitteeDate.tsx:65-66) |
| ReportUtils.ReportPairs | frontend/src/components/report/utils.ts:4-13 | at most two pairs: each bound that is not blank, with its value untrimmed, "from" before "to" |
| ReportUtils.BuildQueryString | frontend/src/components/report/utils.ts:4-16 | the query string reads back as exactly the appended pairs, and is empty exactly when both bounds are blank |
| ReportUtils.BossPairs | frontend/src/components/report/utils.ts:19-24 | no pair for a blank name; otherwise the one pair of the trimmed name |
| ReportUtils.BuildQueryStringBossName | frontend/src/components/report/utils.ts:19-27 | the query string reads back as exactly that pair, and is empty exactly when the name is blank |
| ReportUtils.BossNameArrivesTrimmed | frontend/src/components/report/utils.ts:22-23 | the boss name read back from the query has no padding left |
| ReportUtils.ValidateDateFormat | frontend/src/components/report/utils.ts:42-44 | accepts exactly the empty string and the four-two-two digit shape |
| ReportUtils.FormattedDatesValid | frontend/src/components/report/utils.ts:42-44 | every date the back end formats passes the test |
| ReportUtils.ValidateHasNoCalendar | frontend/src/components/report/utils.ts:42-44 | "2023-02-30" passes the test, though no calendar has that day |
| ReportUtils.FormatArabicDate | frontend/src/components/report/utils.ts:29-40 | the empty string stays empty; otherwise the formatted date, same length, with no `/` left |
| ReportPage.IsEmptyValue | frontend/src/components/report/committeeReportByCommitteeDate.tsx:13-24 | null and undefined are empty; a string is empty exactly when blank or one of the four missing-value spellings; numbers and booleans never are |
| ReportPage.EmptySpellings | frontend/src/components/report/committeeReportByCommitteeDate.tsx:13-24 | "NULL", "undefined" and " " are empty; "Undefined", "nULL", 0 and false are not |
| ReportPage.SafeDisplay | frontend/src/components/report/committeeReportByCommitteeDate.tsx:27-29 | "-" for an empty value, the value's text otherwise, so a cell is never blank |
| ReportPage.Get | frontend/src/components/report/committeeReportByCommitteeDate.tsx:65-66 | `get` finds a value exactly when some pair has the name, and it is that pair's value |
| ReportPage.PlanFetch | frontend/src/components/report/committeeReportByCommitteeDate.tsx:65-76 | the page fetches exactly when both dates are present and non-empty, and then with the dates read from the query |
| ReportPage.FormLinkFetchesItsDates | frontend/src/components/report/utils.ts:4-16 | the link the report form builds for two typed dates makes the page fetch exactly those dates (read back by the print page, frontend/src/components/report/committeeReportByCommitteeDate.tsx:65-76) |
| ReportPage.BothDatesFetched | frontend/src/components/report/committeeReportByCommitteeDate.tsx:65-76 | a query holding a non-empty start and a non-empty end fetches the report for exactly those dates |
| ReportPage.MissingBoundNoFetch | frontend/src/components/report/committeeReportByCommitteeDate.tsx:70 | a link with one date missing fetches nothing |
| ReportPage.AfterFetch | frontend/src/components/report/committeeReportByCommitteeDate.tsx:68-94 | without a fetch the page keeps loading with no rows; after one it stops loading, with the body's `data` and `count` or `[]` and 0 for missing ones and for a failure |
| ReportForms.ShapedDateNotBlank | frontend/src/components/report/utils.ts:42-44 | a non-empty date that passes the shape test is not blank, so the link keeps it |
| ReportForms.ReportLink | frontend/src/components/report/CommitteeReportFormSelection.tsx:48-49 | the print link for two typed dates makes the print page fetch exactly those dates |
| ReportForms.CommitteeReportForm.constructor | frontend/src/components/report/CommitteeReportFormSelection.tsx:10-14 | both dates start empty, nothing loading, nothing opened |
| ReportForms.CommitteeReportForm.HandleStartDateChange | frontend/src/components/report/CommitteeReportFormSelection.tsx:16-22 | a value of the right shape (or empty) becomes the start date; anything else is refused with an error and the date is kept; the shape invariant holds |
| ReportForms.CommitteeReportForm.HandleEndDateChange | frontend/src/components/report/CommitteeReportFormSelection.tsx:24-30 | the same for the end date |
| ReportForms.CommitteeReportForm.OpenPrintReport | frontend/src/components/report/CommitteeReportFormSelection.tsx:32-78 | a missing date or a start after the end is refused with its error and opens nothing; otherwise the print page is opened once with both dates, and that page fetches exactly them; loading ends off |
| ReportForms.CommitteeReportForm.ResetForm | frontend/src/components/report/CommitteeReportFormSelection.tsx:80-82 | both dates are cleared and nothing else changes |
| ReportForms.BossNameForm.constructor | frontend/src/components/BossNameReportSelection/BossNameComponent.tsx:14-17 | the name starts empty, nothing loading, nothing opened |
| ReportForms.BossNameForm.HandleBossNameChange | frontend/src/components/BossNameReportSelection/BossNameComponent.tsx:20-23 | only the name changes |
| ReportForms.BossNameForm.OpenPrintReport | frontend/src/components/BossNameReportSelection/BossNameComponent.tsx:29-73 | a blank name is refused with an error and opens nothing; otherwise the boss-name report is opened once and its query reads back as exactly the trimmed name |
| ReportForms.BossUrl | frontend/src/components/BossNameReportSelection/BossNameComponent.tsx:26-45 | the print URL is the boss-name report path followed by `buildQueryStringBossName`'s query |
| ReportForms.BossLinkReadsBack | frontend/src/components/BossNameReportSelection/BossNameComponent.tsx:26-45 | for a name that is not blank, the query of that URL reads back as the trimmed name and nothing else |
| ReportForms.BossNameForm.ResetForm | frontend/src/components/BossNameReportSelection/BossNameComponent.tsx:76-79 | the name is cleared with an info toast, nothing else changes |
| Combobox.Filtered | frontend/src/components/CommitteeBossNameComoboxComponent.tsx:44-48 | keeps exactly the items whose lower-cased text contains the lower-cased query, never more than there were (the same code is at frontend/src/components/CommitteeNoComboboxComponent.tsx:67-71) |
| Combobox.ContainsEmpty | frontend/src/components/CommitteeBossNameComoboxComponent.tsx:44-48 | every text contains the empty query |
| Combobox.EmptyQueryShowsAll | frontend/src/components/CommitteeBossNameComoboxComponent.tsx:44-48 | an empty query shows the whole list, in order (the same code is at frontend/src/components/CommitteeNoComboboxComponent.tsx:67-71) |
| Combobox.FilteredIdempotent | frontend/src/components/CommitteeBossNameComoboxComponent.tsx:44-48 | filtering an already filtered list by the same query changes nothing (the same code is at frontend/src/components/CommitteeNoComboboxComponent.tsx:67-71) |
| Combobox.Select | frontend/src/components/CommitteeBossNameComoboxComponent.tsx:101-107 | the new value is empty exactly when the current value was chosen again (or the choice is empty); otherwise it is the choice (the same code is at frontend/src/components/CommitteeNoComboboxComponent.tsx:73-77) |
| Combobox.SelectTwiceClears | frontend/src/components/CommitteeBossNameComoboxComponent.tsx:101-107 | choosing the same item twice from no selection leaves nothing selected (the same code is at frontend/src/components/CommitteeNoComboboxComponent.tsx:73-77) |
| Combobox.HeadsCombobox.constructor | frontend/src/components/CommitteeBossNameComoboxComponent.tsx:37-42 | no names, count 0, not loading, closed |
| Combobox.HeadsCombobox.FetchEffect | frontend/src/components/CommitteeBossNameComoboxComponent.tsx:62-99 | an empty query clears the list without a request; an abort keeps the list; a failed status or error clears it; a body replaces it, a non-array list as empty and a missing count as 0; loading ends off |
| Combobox.HeadsCombobox.HandleSelect | frontend/src/components/CommitteeBossNameComoboxComponent.tsx:101-107 | hands the toggled value to the parent and closes the popover, nothing else changes |
| Combobox.NumbersCombobox.constructor | frontend/src/components/CommitteeNoComboboxComponent.tsx:37-41 | no numbers, count 0, not loading, closed |
| Combobox.NumbersCombobox.FetchEffect | frontend/src/components/CommitteeNoComboboxComponent.tsx:43-65 | a failure gives an empty list and count 0; a body replaces both with the same defaults; loading ends off |
| Combobox.NumbersCombobox.HandleSelect | frontend/src/components/CommitteeNoComboboxComponent.tsx:73-77 | hands the toggled value to the parent and closes the popover, nothing else changes |
| AlertDelete.RequestBody | frontend/src/components/DynamicTableTanStack/AlertDialogDelete.tsx:31 | the body keeps the id and whether a path is present; the path keeps its length, has no `/` left, and has `\\` exactly where the original had `/` or `\\` |
| AlertDelete.RewriteIdempotent | frontend/src/components/DynamicTableTanStack/AlertDialogDelete.tsx:31 | rewriting the separators twice is the same as once |
| AlertDelete.Removed | frontend/src/components/DynamicTableTanStack/AlertDialogDelete.tsx:38 | keeps exactly the records whose id differs, never more than there were |
| AlertDelete.RemovedAppend | frontend/src/components/DynamicTableTanStack/AlertDialogDelete.tsx:38 | removal by id works piecewise over a concatenation |
| AlertDelete.RemovedAbsent | frontend/src/components/DynamicTableTanStack/AlertDialogDelete.tsx:38 | removing an id no record has changes nothing |
| AlertDelete.DeleteDialog.constructor | frontend/src/components/DynamicTableTanStack/AlertDialogDelete.tsx:15-22 | holds the given open flag and list, with no requests and no toasts |
| AlertDelete.DeleteDialog.HandleDelete | frontend/src/components/DynamicTableTanStack/AlertDialogDelete.tsx:24-48 | sends one request with the rewritten body; on success removes the record, closes and names the path (`null` when it has none); on a false result keeps the list and closes; on a thrown error keeps the list and does not close it itself; one toast each |
| RegisterForm.ValidateForm | frontend/src/components/auth/RegisterForm.tsx:30-62 | accepts exactly a non-blank alphanumeric name of at least 3 characters, a password of at least 6 and a matching confirmation; otherwise exactly one toast, the first failed rule's |
| RegisterForm.PaddedNameRefused | frontend/src/components/auth/RegisterForm.tsx:36-44 | a padded name is refused for its characters, a short one as too short, a blank one as missing |
| RegisterForm.ValidNameIsTrimmed | frontend/src/components/auth/RegisterForm.tsx:30-80 | a name that passes validation has no padding, so trimming it before sending changes nothing |
| RegisterForm.Submission | frontend/src/components/auth/RegisterForm.tsx:64-80 | a body is sent exactly when validation passes, with the name, password and permission; the name is alphanumeric of length at least 3 and the password at least 6 |
| Middleware.Decide | frontend/src/middleware.ts:4-31 | a signed-out request to a page other than login or register goes to /login; a signed-in request to login or register goes to /; every other request proceeds |
| Middleware.Handle | frontend/src/middleware.ts:34-42 | paths outside the matcher always proceed; matched paths get the decision |
| Middleware.NoRedirectLoop | frontend/src/middleware.ts:4-42 | the target of a redirect is matched and the same visitor proceeds there |
| Middleware.SignedOutReachesOnlyAuthPages | frontend/src/middleware.ts:4-42 | on a matched path a signed-out visitor proceeds exactly on login and register, a signed-in one exactly elsewhere |
| ClientLayout.ChromeFor | frontend/src/app/ClientLayout.tsx:24-41 | navbar and footer show together, exactly when the path does not start with /print and is neither /login nor /register |
| ClientLayout.PrefixAndExactTests | frontend/src/app/ClientLayout.tsx:25-27 | /printer hides the chrome by the prefix test; /login/ keeps it; no path and / keep it |
| ClientLayout.ReportPagesBare | frontend/src/app/ClientLayout.tsx:25 | both print pages the report forms open are shown without chrome |

## Left out

- Network, HTTP and the browser. Every `fetch`/axios call, the local move service, `window.open` and its popup geometry, toasts and router navigation are outside the model. Each request's outcome is a parameter, and what is opened or shown is appended to a log.
- Timers. `setTimeout` debouncing, the backoff sleeps and `asyncio.sleep` are recorded as lists of durations; no time passes. The debounced query is taken as given.
- Concurrency. Interleaved acquisitions, cancellation of an in-flight fetch and React's batching of state updates are not modelled. Each handler runs to completion on the state it was given.
- SQL and the database. Queries become filters over in-memory sequences of rows. `ORDER BY name` sorts by a `rank` function that stands for the database's collation; among equal names, whose order SQL leaves open, storage order is kept. `ilike` wildcard characters inside search terms, the order of `DISTINCT` results and the order of unordered queries are not modelled. Database failures are an optional error message or a `commitFails` flag passed in.
- File system. `Path.resolve` is a function argument, so symlinks are not modelled. `mkdir` is recorded only for the directory being created, not its parents. The file copy is a write of the whole byte sequence.
- Clock. `datetime.now()` is one `DateTime` parameter, although `save_pdf.py` reads the clock twice (for the year directory and for the timestamp).
- Dates. JavaScript's `new Date(s)` depends on the implementation, so the browser's parser is a function argument. The `Intl` formatting in the non-empty branch of `formatArabicDate` is a function argument too; the model keeps only the `/`→`-` rewrite and the empty case.
- Unicode. Trimming, `isdigit`, `\d` and case mapping are ASCII-only. Python and JavaScript also accept non-ASCII whitespace and digits, and `toLowerCase` folds non-ASCII letters.
- Text.Trim: one definition serves both sides and removes the ASCII whitespace of JavaScript's `trim()`. Python's `str.strip()` also removes U+001C to U+001F, so on back-end input holding those separators at an end (`CleanList`, the employee search and autocomplete terms) the model keeps characters the source strips.
- CommitteeService.CommitteeDb.AttachFile: the PDF row's `committeeNo`, `userID` (the update's when truthy, else the stored row's) and `currentDate` are not columns of the modelled PDF row.
- AlertDelete.DeleteDialog.HandleDelete: Radix's `AlertDialogAction` closes the dialog on every click, whatever the handler does. The model's `open` records only the handler's own `onOpenChange(false)` call, so a thrown error leaves the dialog open only as far as the handler is concerned.
- CommitteeRoutes.BossNameAsWritten: the server's decode works on the path's bytes as `unquote` does; its UTF-8 decoding of the result is not modelled.
- RegisterForm.ValidateForm: lengths count characters, whereas JavaScript's `length` counts UTF-16 code units; the two agree on the alphanumeric names the form accepts.
- FormUrlEncoded.Parse: an ill-formed UTF-8 sequence becomes one U+FFFD per bad byte. The WHATWG decoder replaces maximal ill-formed subparts, so the two can differ on malformed input. Well-formed input round-trips exactly.
- FormCommon.JsParseInt: decimal digits only. Hexadecimal (`0x`) prefixes and numbers beyond the safe-integer range are not modelled. Results are plain integers; NaN is `None`.
- PosixPath.PathJoin: models Node's POSIX `path.join`. On Windows, Node would use `path.win32`.
- Middleware.Handle: the matcher's path pattern is modelled as a prefix test of its excluded segments. The full path-to-regexp syntax is not modelled.
- DynamicTable.TruncateText: `maxWords` is a natural number; JavaScript's behaviour for a negative count is not modelled.
- Pydantic's error messages and the exact HTTP error bodies are not modelled; a rejection carries its status code and a message name.
- The second `CommitteeService` class in `services/committee.py` rebinds the name of the first. Each method is modelled from its own text, not from runtime dispatch, and the route-level `UpdateRecordWithFile`/`UpdateRecordWithoutFile` methods, which neither class defines, are modelled by `UpdateRecord`.
- Authentication is not part of this model: password hashing, JWT issuing and checking, and what the sign-up page does after its POST. The route guard sees only whether a token cookie is present.
- Rendering and styling are not part of this model, apart from the colour classes and column widths the table chooses.

## Findings

| source | as written | input that shows it | evidently intended | confidence | as-written member | corrected member |
|---|---|---|---|---|---|---|
| backend/app/services/committee.py:540-554 | `UpdateRecord` names the new file with `count + 1` but stores `countPdf = count`, while `addCommitteeDoc` (backend/app/routes/committees.py:96) stores `count + 1` | a committee that already has one PDF row (`countPdf` 1) is updated with a file: the new row gets `countPdf` 1 again, although its file name says 2 | store `count + 1`, so that each PDF row's `countPdf` is its ordinal among the committee's PDFs | medium, not executed | CommitteeRoutes.StoreThenUpdateWithFile | CommitteeService.CountPdfIsOrdinal |
| backend/app/routes/committees.py:682 | the ASGI server has already percent-decoded the path when the route calls `unquote(bossName)`, so the name is decoded twice | a boss name holding the text `%41` is sent as `%2541` and looked up as `A` | decode once, so that every boss name is looked up as the client sent it | low, not executed | CommitteeRoutes.DecodedTwice | CommitteeRoutes.BossNameRoundTrip |
