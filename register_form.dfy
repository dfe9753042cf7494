/**
 * The sign-up form: the checks `validateForm` makes before anything is sent,
 * in their order, and the body the form posts to `/auth/register`.
 */
module RegisterForm {
  import opened Wrappers
  import opened Text

  const UsernameRequired := "اسم المستخدم مطلوب"
  const UsernameTooShort := "اسم المستخدم يجب أن يكون 3 أحرف على الأقل"
  const UsernameCharacters := "اسم المستخدم يجب أن يحتوي على أحرف وأرقام فقط"
  const PasswordRequired := "كلمة المرور مطلوبة"
  const PasswordTooShort := "كلمة المرور يجب أن تكون 6 أحرف على الأقل"
  const PasswordMismatch := "كلمات المرور غير متطابقة"

  predicate IsAsciiAlnum(c: char) {
    'a' <= c <= 'z' || 'A' <= c <= 'Z' || '0' <= c <= '9'
  }

  /** `/^[a-zA-Z0-9]+$/`: one or more ASCII letters or digits and nothing else. */
  predicate AlnumOnly(s: string) {
    s != [] && forall i :: 0 <= i < |s| ==> IsAsciiAlnum(s[i])
  }

  /** What `validateForm` returns, with the error toasts it raised. */
  datatype Validation = Validation(ok: bool, toasts: seq<string>)

  /** `validateForm`: the checks run in order and the first one that fails raises its toast and
    * ends the call. The length test is on the untrimmed name, and the character test refuses any
    * padding the trim check let through. */
  function ValidateForm(username: string, password: string, confirmPassword: string): (r: Validation)
    ensures r.ok <==> !IsBlank(username) && |username| >= 3 && AlnumOnly(username)
                      && password != "" && |password| >= 6 && password == confirmPassword
    ensures r.ok ==> r.toasts == []
    ensures !r.ok ==> |r.toasts| == 1
    ensures IsBlank(username) ==> r.toasts == [UsernameRequired]
    ensures !IsBlank(username) && |username| < 3 ==> r.toasts == [UsernameTooShort]
    ensures !IsBlank(username) && |username| >= 3 && !AlnumOnly(username) ==> r.toasts == [UsernameCharacters]
    ensures !IsBlank(username) && |username| >= 3 && AlnumOnly(username) ==>
              && (password == "" ==> r.toasts == [PasswordRequired])
              && (password != "" && |password| < 6 ==> r.toasts == [PasswordTooShort])
              && (|password| >= 6 && password != confirmPassword ==> r.toasts == [PasswordMismatch])
  {
    if Trim(username) == "" then Validation(false, [UsernameRequired])
    else if |username| < 3 then Validation(false, [UsernameTooShort])
    else if !AlnumOnly(username) then Validation(false, [UsernameCharacters])
    else if password == "" then Validation(false, [PasswordRequired])
    else if |password| < 6 then Validation(false, [PasswordTooShort])
    else if password != confirmPassword then Validation(false, [PasswordMismatch])
    else Validation(true, [])
  }

  /** A name with padding never passes, however long: the character test refuses the space. */
  lemma PaddedNameRefused(password: string)
    ensures ValidateForm(" admin ", password, password).toasts == [UsernameCharacters]
    ensures ValidateForm("ab", password, password).toasts == [UsernameTooShort]
    ensures ValidateForm("   ", password, password).toasts == [UsernameRequired]
  {
    assert " admin "[1] == 'a' && !IsSpace(" admin "[1]);
    assert !IsAsciiAlnum(" admin "[0]);
    assert !IsSpace("ab"[0]);
  }

  /** A name that passes the checks is its own trim: the trimmed name the form sends is the
    * name that was checked. */
  lemma {:induction false} ValidNameIsTrimmed(username: string, password: string, confirmPassword: string)
    requires ValidateForm(username, password, confirmPassword).ok
    ensures Trim(username) == username
  {
    assert IsAsciiAlnum(username[0]) && IsAsciiAlnum(username[|username| - 1]);
    TrimOfTrimmed(username);
  }

  datatype Permission = User | Admin

  /** The JSON body posted to `/auth/register`. */
  datatype RegisterBody = RegisterBody(username: string, password: string, permission: Permission)

  /** `formSubmitHandler` up to the request: nothing is sent when the checks fail; otherwise the
    * trimmed name, the password and the permission are. */
  function Submission(username: string, password: string, confirmPassword: string, permission: Permission): (r: Option<RegisterBody>)
    ensures r.None? <==> !ValidateForm(username, password, confirmPassword).ok
    ensures r.Some? ==> r.value == RegisterBody(username, password, permission)
    ensures r.Some? ==> AlnumOnly(r.value.username) && |r.value.username| >= 3 && |r.value.password| >= 6
  {
    if !ValidateForm(username, password, confirmPassword).ok then None
    else
      ValidNameIsTrimmed(username, password, confirmPassword);
      Some(RegisterBody(Trim(username), password, permission))
  }
}
