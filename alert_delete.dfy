/**
 * The dialog that confirms deleting one PDF of a committee: the request body
 * it sends (the path with Windows separators), the list of PDFs it updates
 * through the parent's setter, and when it closes.
 */
module AlertDelete {
  import opened Wrappers
  import opened Text

  /** A PDF row of the table; `pdf` may be missing. */
  datatype PdfRecord = PdfRecord(id: int, pdf: Option<string>)

  /** The JSON body of the DELETE request; a missing path is left out of the JSON. */
  datatype DeleteBody = DeleteBody(id: int, pdf: Option<string>)

  /** `{ id: pdf.id, pdf: pdf.pdf?.replace(/\//g, "\\") }`. */
  function RequestBody(record: PdfRecord): (r: DeleteBody)
    ensures r.id == record.id
    ensures r.pdf.None? <==> record.pdf.None?
    ensures r.pdf.Some? ==> |r.pdf.value| == |record.pdf.value| && '/' !in r.pdf.value
    ensures r.pdf.Some? ==> forall i :: 0 <= i < |r.pdf.value| ==>
              (r.pdf.value[i] == '\\' <==> record.pdf.value[i] == '/' || record.pdf.value[i] == '\\')
  {
    DeleteBody(record.id, if record.pdf.Some? then Some(ReplaceAll(record.pdf.value, '/', '\\')) else None)
  }

  /** The back end rewrites separators the same way, and a second rewrite changes nothing:
    * the path arrives in the form the back end compares. */
  lemma RewriteIdempotent(path: string)
    ensures ReplaceAll(ReplaceAll(path, '/', '\\'), '/', '\\') == ReplaceAll(path, '/', '\\')
  {
  }

  /** `prev.filter((p) => p.id !== pdf.id)`. */
  function Removed(pdfs: seq<PdfRecord>, id: int): (r: seq<PdfRecord>)
    ensures |r| <= |pdfs|
    ensures forall p :: p in r <==> p in pdfs && p.id != id
  {
    if pdfs == [] then []
    else (if pdfs[0].id == id then [] else [pdfs[0]]) + Removed(pdfs[1..], id)
  }

  /** The filter keeps the original order: it works piecewise over a concatenation. */
  lemma {:induction false} RemovedAppend(a: seq<PdfRecord>, b: seq<PdfRecord>, id: int)
    ensures Removed(a + b, id) == Removed(a, id) + Removed(b, id)
  {
    if a == [] {
      assert a + b == b;
    } else {
      assert (a + b)[0] == a[0] && (a + b)[1..] == a[1..] + b;
      RemovedAppend(a[1..], b, id);
    }
  }

  /** A list without the id is left as it is. */
  lemma {:induction false} RemovedAbsent(pdfs: seq<PdfRecord>, id: int)
    requires forall i :: 0 <= i < |pdfs| ==> pdfs[i].id != id
    ensures Removed(pdfs, id) == pdfs
  {
    if pdfs != [] {
      RemovedAbsent(pdfs[1..], id);
    }
  }

  /** How the request ended: the response body parsed, with its `success` flag read as a
    * truth value, or a throw (network or JSON), whose message is known when it is an
    * `Error`. */
  datatype DeleteResponse = Parsed(success: bool) | Threw(message: Option<string>)

  datatype Toast = Success(text: string) | Failure(text: string)

  const DeleteFailed := "فشل حذف الملف"
  const UnexpectedError := "حدث خطأ غير متوقع"

  /** `${pdf.pdf}`: a missing path is `null` and prints as `null`. */
  function PathText(pdf: Option<string>): string {
    if pdf.Some? then pdf.value else "null"
  }

  /** `AlertDialogDelete` with the parent's list of PDFs it updates. */
  class DeleteDialog {
    var open: bool
    var pdfs: seq<PdfRecord>
    var requests: seq<DeleteBody>
    var toasts: seq<Toast>

    constructor(open: bool, pdfs: seq<PdfRecord>)
      ensures this.open == open && this.pdfs == pdfs && requests == [] && toasts == []
    {
      this.open := open;
      this.pdfs := pdfs;
      requests, toasts := [], [];
    }

    /** `handleDelete`: the request is sent; a successful answer removes the PDF's id from the
      * list; the handler closes the dialog on any parsed answer and not on a throw. */
    method HandleDelete(pdf: PdfRecord, response: DeleteResponse)
      modifies this
      ensures requests == old(requests) + [RequestBody(pdf)]
      ensures response == Parsed(true) ==>
                pdfs == Removed(old(pdfs), pdf.id) && !open
                && toasts == old(toasts) + [Success("تم حذف الملف " + PathText(pdf.pdf))]
      ensures response == Parsed(false) ==>
                pdfs == old(pdfs) && !open && toasts == old(toasts) + [Failure(DeleteFailed)]
      ensures response.Threw? ==>
                pdfs == old(pdfs) && open == old(open)
                && toasts == old(toasts) + [Failure("فشل في حذف الملف: " + response.message.GetOr(UnexpectedError))]
    {
      requests := requests + [RequestBody(pdf)];
      match response {
        case Threw(message) =>
          var text := if message.Some? then message.value else UnexpectedError;
          toasts := toasts + [Failure("فشل في حذف الملف: " + text)];
          return;
        case Parsed(success) =>
          if success {
            toasts := toasts + [Success("تم حذف الملف " + PathText(pdf.pdf))];
            pdfs := Removed(pdfs, pdf.id);
          } else {
            toasts := toasts + [Failure(DeleteFailed)];
          }
          open := false;
      }
    }
  }
}
