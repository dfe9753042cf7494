/**
 * The committee request and response models of the back end: the date fields
 * of `CommitteeCreate`, which take only a string and keep a `%Y-%m-%d` one
 * unchanged (the validator behind the type check would also format a date), and
 * the converter of `CommitteeResponse`, which runs before the type check and
 * turns a stored date back into that string.
 */
module CommitteeModel {
  import opened Wrappers
  import Dates

  /** What reaches a date field: nothing, a string, a date, or any other value
    * (carried by its `str()` text). */
  datatype DateInput = NoDate | DateText(s: string) | DateValue(d: Dates.CalendarDate) | OtherValue(repr: string)

  /** `CommitteeCreate.validate_date`: the value the field keeps, or the `ValueError`
    * message. */
  function ValidateDate(v: DateInput): (r: Result<Option<string>, string>)
    ensures v.NoDate? ==> r == Ok(None)
    ensures v.DateText? ==> (r.Ok? <==> Dates.ParseYmd(v.s).Some?)
    ensures v.DateText? && r.Ok? ==> r.value == Some(v.s)
    ensures v.DateValue? ==> r.Ok? && r.value.Some? && Dates.ParseYmd(r.value.value) == Some(v.d)
    ensures v.OtherValue? ==> r.Err?
  {
    match v
    case NoDate => Ok(None)
    case DateText(s) =>
      if Dates.ParseYmd(s).Some? then Ok(Some(s))
      else Err("Invalid date format for " + s + "; expected YYYY-MM-DD")
    case DateValue(d) =>
      Dates.ParseFormat(d);
      Ok(Some(Dates.FormatYmd(d)))
    case OtherValue(repr) => Err("Invalid date type for " + repr + "; expected string or date")
  }

  /** `CommitteeResponse.convert_date_to_string`: never fails. */
  function ConvertDateToString(v: DateInput): (r: Option<string>)
    ensures r.None? <==> v.NoDate?
    ensures v.DateText? ==> r == Some(v.s)
    ensures v.OtherValue? ==> r == Some(v.repr)
    ensures v.DateValue? ==> Dates.IsIsoShape(r.value) && Dates.ParseYmd(r.value) == Some(v.d)
  {
    match v
    case NoDate => None
    case DateValue(d) =>
      Dates.ParseFormat(d);
      Dates.FormatIsIsoShape(d);
      Some(Dates.FormatYmd(d))
    case DateText(s) => Some(s)
    case OtherValue(repr) => Some(repr)
  }

  /** The message of pydantic's type check of an `Optional[str]` field. */
  const StringTypeError := "Input should be a valid string"

  /**
   * A date field of `CommitteeCreate`: the `Optional[str]` type check runs first and refuses
   * a date or any other non-string; `validate_date` (an after-validator) sees only None or
   * a string.
   */
  function CreateDateField(v: DateInput): (r: Result<Option<string>, string>)
    ensures r.Ok? <==> v.NoDate? || (v.DateText? && Dates.ParseYmd(v.s).Some?)
    ensures r.Ok? ==> r.value == (if v.NoDate? then None else Some(v.s))
    ensures v.DateValue? || v.OtherValue? ==> r == Err(StringTypeError)
  {
    if v.DateValue? || v.OtherValue? then Err(StringTypeError) else ValidateDate(v)
  }

  /** The string a response gives for a stored date is accepted by the request model and
    * kept unchanged, and parses back to the same date, while the request model refuses the
    * date itself; the validator called directly turns that date into the same string. */
  lemma ResponseDateRoundTrip(d: Dates.CalendarDate)
    ensures var s := ConvertDateToString(DateValue(d));
      && s.Some?
      && CreateDateField(DateText(s.value)) == Ok(s)
      && CreateDateField(DateValue(d)).Err?
      && ValidateDate(DateValue(d)) == Ok(s)
  {
    Dates.ParseFormat(d);
  }

  /** Validation is idempotent: what it keeps, it keeps again. */
  lemma ValidateIdempotent(v: DateInput)
    requires ValidateDate(v).Ok? && ValidateDate(v).value.Some?
    ensures ValidateDate(DateText(ValidateDate(v).value.value)) == ValidateDate(v)
  {
    if v.DateValue? {
      Dates.ParseFormat(v.d);
    }
  }

  /** `CommitteeCreate`: every field is optional and defaults to None. */
  datatype CommitteeCreate = CommitteeCreate(
    committeeNo: Option<string>, committeeDate: Option<string>, committeeTitle: Option<string>,
    committeeBossName: Option<string>, sex: Option<string>, committeeCount: Option<int>,
    sexCountPerCommittee: Option<int>, notes: Option<string>, currentDate: Option<string>,
    userID: Option<int>)

  /** `CommitteeCreate()` with no arguments. */
  const EmptyCreate := CommitteeCreate(None, None, None, None, None, None, None, None, None, None)

  /** Building a `CommitteeCreate`: both date fields go through the string type check and
    * then `validate_date`; the first failure is the error pydantic reports. */
  function MakeCreate(committeeNo: Option<string>, committeeDate: DateInput, committeeTitle: Option<string>,
                      committeeBossName: Option<string>, sex: Option<string>, committeeCount: Option<int>,
                      sexCountPerCommittee: Option<int>, notes: Option<string>, currentDate: DateInput,
                      userID: Option<int>): (r: Result<CommitteeCreate, string>)
    ensures r.Ok? <==> && (committeeDate.NoDate? || (committeeDate.DateText? && Dates.ParseYmd(committeeDate.s).Some?))
                       && (currentDate.NoDate? || (currentDate.DateText? && Dates.ParseYmd(currentDate.s).Some?))
    ensures committeeDate.DateValue? || committeeDate.OtherValue? ==> r == Err(StringTypeError)
    ensures r.Ok? ==>
              && r.value.committeeDate == (if committeeDate.NoDate? then None else Some(committeeDate.s))
              && r.value.currentDate == (if currentDate.NoDate? then None else Some(currentDate.s))
              && r.value.committeeNo == committeeNo && r.value.userID == userID
  {
    match (CreateDateField(committeeDate), CreateDateField(currentDate))
    case (Err(e), _) => Err(e)
    case (_, Err(e)) => Err(e)
    case (Ok(d), Ok(c)) =>
      Ok(CommitteeCreate(committeeNo, d, committeeTitle, committeeBossName, sex, committeeCount,
                         sexCountPerCommittee, notes, c, userID))
  }

  /** With every argument left out, the model is the all-None one. */
  lemma DefaultsAreNone()
    ensures MakeCreate(None, NoDate, None, None, None, None, None, None, NoDate, None) == Ok(EmptyCreate)
  {
  }
}
