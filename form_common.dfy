/**
 * What the two committee forms (update and insertion) share: the form state as
 * a JavaScript object with ordered keys, JavaScript truthiness and `parseInt`,
 * the serialisation FormData applies to a value, the required-field scan, and
 * the two callbacks through which the drop zone hands a file to a form.
 */
module FormCommon {
  import opened Wrappers
  import opened Text
  import Dropzone

  /** A form field value: the update form keeps numbers for its number inputs. */
  datatype FormValue = Str(s: string) | Num(n: int) | Null

  /** One property of the form-state object. */
  datatype Entry = Entry(key: string, value: FormValue)

  /** JavaScript truthiness of a property read; an absent property is undefined. */
  predicate Truthy(v: Option<FormValue>) {
    match v
    case None => false
    case Some(Str(s)) => s != ""
    case Some(Num(n)) => n != 0
    case Some(Null) => false
  }

  function Keys(r: seq<Entry>): (ks: seq<string>)
    ensures |ks| == |r| && forall i :: 0 <= i < |r| ==> ks[i] == r[i].key
  {
    seq(|r|, i requires 0 <= i < |r| => r[i].key)
  }

  predicate UniqueKeys(r: seq<Entry>) {
    forall i, j :: 0 <= i < j < |r| ==> r[i].key != r[j].key
  }

  /** `obj[key]`. */
  function Lookup(r: seq<Entry>, key: string): (v: Option<FormValue>)
    ensures v.None? <==> key !in Keys(r)
    ensures v.Some? ==> exists i :: 0 <= i < |r| && r[i] == Entry(key, v.value)
  {
    if r == [] then None
    else if r[0].key == key then Some(r[0].value)
    else
      var v := Lookup(r[1..], key);
      assert Keys(r) == [r[0].key] + Keys(r[1..]);
      if v.Some? then
        var i :| 0 <= i < |r[1..]| && r[1..][i] == Entry(key, v.value);
        assert r[i + 1] == Entry(key, v.value);
        v
      else v
  }

  /** With distinct keys, reading a property finds the entry that holds it. */
  lemma LookupAt(r: seq<Entry>, i: nat)
    requires UniqueKeys(r) && i < |r|
    ensures Lookup(r, r[i].key) == Some(r[i].value)
  {
    var v := Lookup(r, r[i].key);
    assert Keys(r)[i] == r[i].key;
    var j :| 0 <= j < |r| && r[j] == Entry(r[i].key, v.value);
  }

  /** `{...obj, [key]: value}`: an existing key keeps its position, a new key goes last. */
  function Assign(r: seq<Entry>, key: string, value: FormValue): seq<Entry>
  {
    if r == [] then [Entry(key, value)]
    else if r[0].key == key then [Entry(key, value)] + r[1..]
    else [r[0]] + Assign(r[1..], key, value)
  }

  /** Reading back after an assignment sees the new value under that key and the
    * old value under every other key. */
  lemma {:induction false} AssignLookup(r: seq<Entry>, key: string, value: FormValue, other: string)
    requires UniqueKeys(r)
    ensures Lookup(Assign(r, key, value), key) == Some(value)
    ensures other != key ==> Lookup(Assign(r, key, value), other) == Lookup(r, other)
  {
    if r != [] && r[0].key != key {
      AssignLookup(r[1..], key, value, other);
    }
  }

  /** Assignment keeps the key order; a new key is appended. */
  lemma {:induction false} AssignKeys(r: seq<Entry>, key: string, value: FormValue)
    ensures key in Keys(r) ==> Keys(Assign(r, key, value)) == Keys(r)
    ensures key !in Keys(r) ==> Keys(Assign(r, key, value)) == Keys(r) + [key]
  {
    if r != [] {
      assert r == [r[0]] + r[1..];
      KeysCons(r[0], r[1..]);
      if r[0].key != key {
        AssignKeys(r[1..], key, value);
        KeysCons(r[0], Assign(r[1..], key, value));
      } else {
        KeysCons(Entry(key, value), r[1..]);
      }
    }
  }

  lemma KeysCons(e: Entry, r: seq<Entry>)
    ensures Keys([e] + r) == [e.key] + Keys(r)
  {
  }

  lemma AssignUnique(r: seq<Entry>, key: string, value: FormValue)
    requires UniqueKeys(r)
    ensures UniqueKeys(Assign(r, key, value))
  {
    AssignKeys(r, key, value);
    var a := Assign(r, key, value);
    forall i, j | 0 <= i < j < |a| ensures a[i].key != a[j].key {
      assert Keys(a)[i] == a[i].key && Keys(a)[j] == a[j].key;
      if key in Keys(r) {
        assert Keys(r)[i] == r[i].key && Keys(r)[j] == r[j].key;
      } else if j < |r| {
        assert Keys(r)[i] == r[i].key && Keys(r)[j] == r[j].key;
      } else {
        assert Keys(r)[i] == r[i].key;
        assert a[j].key == key;
      }
    }
  }

  // ---------------------------------------------------------------------------
  // Numbers

  /** JavaScript `String(n)` for an integer. */
  function IntToString(n: int): (s: string)
    ensures s != []
  {
    if n < 0 then "-" + NatToDecimal(-n) else NatToDecimal(n)
  }

  /** The longest run of ASCII digits at the front of `s`. */
  function LeadingDigits(s: string): (d: string)
    ensures |d| <= |s| && d == s[..|d|] && AllDigits(d)
    ensures |d| < |s| ==> !IsDigit(s[|d|])
  {
    if s != [] && IsDigit(s[0]) then [s[0]] + LeadingDigits(s[1..]) else []
  }

  /** JavaScript `parseInt(s)` (radix 10): None stands for NaN. */
  function JsParseInt(s: string): (r: Option<int>)
    ensures r.None? <==> LeadingDigits(SignFree(TrimStart(s))) == []
  {
    var t := TrimStart(s);
    var negative := t != [] && t[0] == '-';
    var digits := LeadingDigits(SignFree(t));
    var magnitude: int := DecimalValue(digits);
    if digits == [] then None
    else Some(if negative then -magnitude else magnitude)
  }

  /** The text after an optional leading sign. */
  function SignFree(t: string): string {
    if t != [] && (t[0] == '-' || t[0] == '+') then t[1..] else t
  }

  /** `parseInt` reads back every integer `String` wrote. */
  lemma ParseIntRoundTrip(n: int)
    ensures JsParseInt(IntToString(n)) == Some(n)
  {
    var s := IntToString(n);
    var d := NatToDecimal(if n < 0 then -n else n);
    assert TrimStart(s) == s by {
      assert !IsSpace(s[0]);
    }
    assert SignFree(s) == d;
    AllDigitsLeading(d);
    DecimalRoundTrip(if n < 0 then -n else n);
  }

  lemma {:induction false} AllDigitsLeading(d: string)
    requires AllDigits(d)
    ensures LeadingDigits(d) == d
  {
    if d != [] {
      AllDigitsLeading(d[1..]);
    }
  }

  /** `parseInt(value) || 0`, which the update form stores for number inputs. */
  function NumberInputValue(value: string): (n: int)
    ensures JsParseInt(value).None? ==> n == 0
    ensures JsParseInt(value).Some? ==> n == JsParseInt(value).value
  {
    match JsParseInt(value)
    case None => 0
    case Some(k) => if k != 0 then k else 0
  }

  /** `value?.toString() || ''`. */
  function PartText(v: FormValue): (s: string)
    ensures v.Str? ==> s == v.s
    ensures v.Null? ==> s == ""
    ensures v.Num? ==> JsParseInt(s) == Some(v.n)
  {
    match v
    case Str(x) => x
    case Num(n) => ParseIntRoundTrip(n); IntToString(n)
    case Null => ""
  }

  // ---------------------------------------------------------------------------
  // Required fields

  /** The first of `required` whose value is falsy, scanning in order. */
  function FirstMissing(r: seq<Entry>, required: seq<string>): (m: Option<nat>)
    ensures m.Some? ==> m.value < |required| && !Truthy(Lookup(r, required[m.value]))
    ensures m.Some? ==> forall j :: 0 <= j < m.value ==> Truthy(Lookup(r, required[j]))
    ensures m.None? ==> forall j :: 0 <= j < |required| ==> Truthy(Lookup(r, required[j]))
  {
    if required == [] then None
    else if !Truthy(Lookup(r, required[0])) then Some(0)
    else
      match FirstMissing(r, required[1..])
      case None => None
      case Some(i) => Some(i + 1)
  }

  /** Some required field is missing exactly when one of them is falsy. */
  lemma FirstMissingIff(r: seq<Entry>, required: seq<string>)
    ensures FirstMissing(r, required).Some? <==> exists k :: k in required && !Truthy(Lookup(r, k))
  {
    var m := FirstMissing(r, required);
    if m.Some? {
      assert required[m.value] in required;
    } else {
      forall k | k in required ensures Truthy(Lookup(r, k)) {
        var i :| 0 <= i < |required| && required[i] == k;
      }
    }
  }

  /** The scan looks only at the required properties: two records that agree on them
    * are judged alike, whatever else they hold. */
  lemma {:induction false} FirstMissingOnlyReadsRequired(r1: seq<Entry>, r2: seq<Entry>, required: seq<string>)
    requires forall k :: k in required ==> Lookup(r1, k) == Lookup(r2, k)
    ensures FirstMissing(r1, required) == FirstMissing(r2, required)
  {
    if required != [] {
      assert required[0] in required;
      FirstMissingOnlyReadsRequired(r1, r2, required[1..]);
    }
  }

  /** The scan reports the first falsy field and no other. */
  lemma FirstMissingAt(r: seq<Entry>, required: seq<string>, i: nat)
    requires i < |required| && !Truthy(Lookup(r, required[i]))
    requires forall j :: 0 <= j < i ==> Truthy(Lookup(r, required[j]))
    ensures FirstMissing(r, required) == Some(i)
  {
  }

  /** The required-field loop of both submit handlers: the index of the first required
    * field whose value is falsy, where the handler reports it and stops. */
  method ScanRequired(r: seq<Entry>, required: seq<string>) returns (m: Option<nat>)
    ensures m == FirstMissing(r, required)
  {
    var i := 0;
    while i < |required|
      invariant 0 <= i <= |required|
      invariant forall j :: 0 <= j < i ==> Truthy(Lookup(r, required[j]))
    {
      if !Truthy(Lookup(r, required[i])) {
        FirstMissingAt(r, required, i);
        return Some(i);
      }
      i := i + 1;
    }
    return None;
  }

  // ---------------------------------------------------------------------------
  // Requests

  datatype PartValue = TextPart(text: string) | FilePart(file: Dropzone.File)

  /** One `FormData.append(name, value)`. */
  datatype Part = Part(name: string, value: PartValue)

  datatype Body = Multipart(parts: seq<Part>) | Json(fields: seq<Entry>)

  datatype Verb = Post | Patch

  datatype Request = Request(verb: Verb, url: string, body: Body)

  /** How an awaited axios call ends: with a response status, or by throwing. */
  datatype Reply = Status(code: int) | Thrown

  /** The parts `Object.entries(formData).forEach(append)` adds: one text part per
    * property, in key order. */
  function FieldParts(r: seq<Entry>): (ps: seq<Part>)
    ensures |ps| == |r|
  {
    seq(|r|, i requires 0 <= i < |r| => Part(r[i].key, TextPart(PartText(r[i].value))))
  }

  /** Every form property travels as a text part under its own name, in order, and
    * a number reads back as the same number. */
  lemma FieldPartsCarryFields(r: seq<Entry>)
    ensures forall i :: 0 <= i < |r| ==> FieldParts(r)[i].name == Keys(r)[i]
    ensures forall i :: 0 <= i < |r| && r[i].value.Str? ==> FieldParts(r)[i].value == TextPart(r[i].value.s)
    ensures forall i :: 0 <= i < |r| && r[i].value.Num? ==>
              FieldParts(r)[i].value.TextPart? && JsParseInt(FieldParts(r)[i].value.text) == Some(r[i].value.n)
    ensures forall i :: 0 <= i < |r| && r[i].value.Null? ==> FieldParts(r)[i].value == TextPart("")
  {
  }

  /** The append loop of both submit handlers. */
  method AppendFields(r: seq<Entry>) returns (ps: seq<Part>)
    ensures ps == FieldParts(r)
  {
    ps := [];
    var i := 0;
    while i < |r|
      invariant 0 <= i <= |r|
      invariant ps == FieldParts(r[..i])
    {
      ps := ps + [Part(r[i].key, TextPart(PartText(r[i].value)))];
      i := i + 1;
    }
    assert r[..i] == r;
  }

  // ---------------------------------------------------------------------------
  // Files handed over by the drop zone

  const PdfType := Dropzone.PdfType
  const MaxUploadSize := 10 * 1024 * 1024

  /** `handleFilesAccepted(files)`: the selection after the drop zone offers `files`.
    * Only the first file is inspected; a non-PDF or one over 10 MiB is refused. */
  function SelectionAfterAccepted(current: Option<Dropzone.File>, files: seq<Dropzone.File>): (r: Option<Dropzone.File>)
    ensures files == [] ==> r == current
    ensures files != [] && files[0].mime == PdfType && files[0].size <= MaxUploadSize ==> r == Some(files[0])
    ensures files != [] && (files[0].mime != PdfType || files[0].size > MaxUploadSize) ==> r == current
  {
    if |files| > 0 then
      var file := files[0];
      if file.mime != PdfType then current
      else if file.size > MaxUploadSize then current
      else Some(file)
    else current
  }

  /** `handleBookPdfLoaded` / `handleCommitteePdfLoaded`: keep the file only on success. */
  function SelectionAfterLoaded(success: bool, file: Option<Dropzone.File>): (r: Option<Dropzone.File>)
    ensures r.Some? <==> success && file.Some?
    ensures r.Some? ==> r == file
  {
    if success && file.Some? then file else None
  }

  /** The success callback selects the file `fetchBookPdf` loaded; the failure callback
    * clears the selection. */
  lemma LoadedFileIsSelected(f: Dropzone.File)
    ensures SelectionAfterLoaded(true, Some(f)) == Some(f)
    ensures SelectionAfterLoaded(false, None) == None
  {
  }

  /** A dropped file that react-dropzone let through (a PDF within `maxSize`) is selected. */
  lemma DroppedFileIsSelected(current: Option<Dropzone.File>, f: Dropzone.File)
    requires f.mime == PdfType && f.size <= Dropzone.MaxDropSize
    ensures SelectionAfterAccepted(current, [f]) == Some(f)
  {
  }
}
