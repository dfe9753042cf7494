/**
 * The PDF records of committees and their files on disk: counting a committee's
 * PDFs, the containment test that keeps deletions inside the upload directory,
 * and the guarded sequence of steps that deletes one PDF record and its file.
 *
 * A resolved path is its list of components, the anchor (`/` or `D:\`) first;
 * `Path.resolve` is an oracle that may fail.
 */
module PdfService {
  import opened Wrappers
  import opened Text

  type Components = seq<string>

  /** One row of the PDF table. */
  datatype PdfRow = PdfRow(id: int, committeeID: int, countPdf: int, pdf: string)

  /** `get_pdf_count`: the rows linked to committee `committeeID`. */
  function PdfCount(rows: seq<PdfRow>, committeeID: int): (n: nat)
    ensures n <= |rows|
    ensures n == 0 <==> forall i :: 0 <= i < |rows| ==> rows[i].committeeID != committeeID
  {
    if rows == [] then 0
    else (if rows[0].committeeID == committeeID then 1 else 0) + PdfCount(rows[1..], committeeID)
  }

  /** Adding a row for a committee raises its count by one and leaves the others alone. */
  lemma {:induction false} PdfCountAppend(rows: seq<PdfRow>, row: PdfRow, committeeID: int)
    ensures PdfCount(rows + [row], committeeID)
         == PdfCount(rows, committeeID) + (if row.committeeID == committeeID then 1 else 0)
  {
    if rows != [] {
      assert (rows + [row])[1..] == rows[1..] + [row];
      PdfCountAppend(rows[1..], row, committeeID);
    } else {
      assert [row][1..] == [];
    }
  }

  /** `base in target.parents`: a proper, non-empty prefix of the target. */
  predicate IsParent(base: Components, target: Components) {
    1 <= |base| < |target| && target[..|base|] == base
  }

  /** `is_safe_path` on the resolved paths; a failed resolution makes the path unsafe. */
  predicate IsSafePath(base: Option<Components>, target: Option<Components>) {
    base.Some? && target.Some? && (IsParent(base.value, target.value) || base.value == target.value)
  }

  /** Safety is component-wise containment: the target lies in the base directory or is it. */
  lemma SafeIffInside(base: Components, target: Components)
    requires base != []
    ensures IsSafePath(Some(base), Some(target)) <==> |base| <= |target| && target[..|base|] == base
  {
  }

  /** A sibling whose name merely starts with the base directory's name is not inside it. */
  lemma SiblingWithSharedPrefixUnsafe()
    ensures !IsSafePath(Some(["D:\\", "pdf"]), Some(["D:\\", "pdfEvil", "x.pdf"]))
  {
    assert ["D:\\", "pdf", "x"][1] != ["D:\\", "pdfEvil", "x.pdf"][1];
  }

  /** The string the comparison uses: `str(resolved).replace("/", "\\")`. */
  function Canonical(p: Components): string {
    ReplaceAll(Join(p, "/"), '/', '\\')
  }

  /** How `delete_pdf_record` ends: a boolean answer, or HTTP 400 for an unsafe path. */
  datatype DeleteOutcome = Answer(deleted: bool) | InvalidPath

  /** The first row with the given id (`.first()`). */
  function FindRow(rows: seq<PdfRow>, id: int): (r: Option<nat>)
    ensures r.Some? ==> r.value < |rows| && rows[r.value].id == id
    ensures r.None? <==> forall i :: 0 <= i < |rows| ==> rows[i].id != id
  {
    if rows == [] then None
    else if rows[0].id == id then Some(0)
    else match FindRow(rows[1..], id)
      case None => None
      case Some(i) => Some(i + 1)
  }

  /** The rows that remain after `DELETE ... WHERE id = :id`. */
  function WithoutId(rows: seq<PdfRow>, id: int): (r: seq<PdfRow>)
    ensures forall x :: x in r <==> x in rows && x.id != id
    ensures |r| <= |rows|
  {
    if rows == [] then []
    else (if rows[0].id == id then [] else [rows[0]]) + WithoutId(rows[1..], id)
  }

  /** The guards `delete_pdf_record` passes through, in order, before it deletes. */
  predicate MayDelete(rows: seq<PdfRow>, onDisk: set<string>, id: int, pdfPath: string,
                      resolve: string -> Option<Components>) {
    && pdfPath in onDisk
    && FindRow(rows, id).Some?
    && var stored := rows[FindRow(rows, id).value].pdf;
    && resolve(pdfPath).Some? && resolve(stored).Some?
    && Canonical(resolve(stored).value) == Canonical(resolve(pdfPath).value)
  }

  class PdfStore {
    var rows: seq<PdfRow>
    /** The files that exist on disk. */
    var onDisk: set<string>
    /** Files handed to the delayed-delete task, in order. */
    var scheduledDeletes: seq<string>

    constructor (rows: seq<PdfRow>, onDisk: set<string>)
      ensures this.rows == rows && this.onDisk == onDisk && scheduledDeletes == []
    {
      this.rows := rows;
      this.onDisk := onDisk;
      scheduledDeletes := [];
    }

    /**
     * `delete_pdf_record(id, pdf_path)` with the upload directory `basePath`. `resolve` is
     * `Path.resolve` (None when it raises) and `commitFails` says whether the delete
     * statement or its commit raises, in which case the session rolls back.
     */
    method DeletePdfRecord(id: int, pdfPath: string, basePath: string,
                           resolve: string -> Option<Components>, commitFails: bool) returns (r: DeleteOutcome)
      modifies this
      ensures r == InvalidPath <==> !IsSafePath(resolve(basePath), resolve(pdfPath))
      ensures r == Answer(true) <==>
                IsSafePath(resolve(basePath), resolve(pdfPath)) && MayDelete(old(rows), onDisk, id, pdfPath, resolve) && !commitFails
      ensures r == Answer(true) ==> rows == WithoutId(old(rows), id) && scheduledDeletes == old(scheduledDeletes) + [pdfPath]
      ensures r != Answer(true) ==> rows == old(rows) && scheduledDeletes == old(scheduledDeletes)
      ensures onDisk == old(onDisk)
    {
      // Step 1: containment, before any lookup.
      if !IsSafePath(resolve(basePath), resolve(pdfPath)) {
        return InvalidPath;
      }
      // Step 2: the record.
      var found := FindRow(rows, id);
      if pdfPath !in onDisk {
        return Answer(false);
      }
      if found.None? {
        return Answer(false);
      }
      // Step 3: compare the stored and requested paths.
      var stored := rows[found.value].pdf;
      if resolve(pdfPath).None? || resolve(stored).None? {
        return Answer(false);
      }
      if Canonical(resolve(stored).value) != Canonical(resolve(pdfPath).value) {
        return Answer(false);
      }
      // Step 4: delete and commit; a failure rolls the session back.
      if commitFails {
        return Answer(false);
      }
      rows := WithoutId(rows, id);
      // Step 5: schedule the file's removal.
      if pdfPath in onDisk {
        scheduledDeletes := scheduledDeletes + [pdfPath];
      } else {
        return Answer(true);
      }
      return Answer(true);
    }
  }

  /** After a successful delete no row with that id remains and every other row is kept. */
  lemma DeleteRemovesOnlyThatId(rows: seq<PdfRow>, id: int)
    ensures FindRow(WithoutId(rows, id), id).None?
    ensures forall x :: x in rows && x.id != id ==> x in WithoutId(rows, id)
  {
    var r := WithoutId(rows, id);
    forall i | 0 <= i < |r| ensures r[i].id != id {
      assert r[i] in r;
    }
  }
}
