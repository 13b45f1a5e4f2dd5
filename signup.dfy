/**
 * The sign-up form (src/pages/Signup.jsx): four checks fill an error map, and
 * the account is requested only when the map stays empty. The provider's
 * `signUp` call is an input (the error it reports, if any).
 */
module Signup {
  import opened Wrappers
  import opened FormRules

  /** The keys of the error map. */
  datatype Field = UserName | Email | Password | ConfirmPassword | FormError

  datatype SignupForm = SignupForm(userName: string, email: string, password: string, confirmPassword: string)

  const EmptyForm := SignupForm("", "", "", "")

  const UserNameMessage: string := "이름은 2~8자의 한글/영어/숫자만 가능합니다."
  const EmailMessage: string := "올바른 이메일 형식을 입력하세요."
  const PasswordMessage: string := "비밀번호는 영문자+숫자 조합 6자 이상이어야 합니다."
  const ConfirmMessage: string := "비밀번호가 일치하지 않습니다."

  /** Whether the form passes the check recorded under `field`. */
  predicate Passes(form: SignupForm, field: Field) {
    match field
    case UserName => ValidUserName(form.userName)
    case Email => ValidEmail(form.email)
    case Password => ValidPassword(form.password)
    case ConfirmPassword => form.password == form.confirmPassword
    case FormError => true
  }

  /** The message `validate` records for a failed check. */
  function Message(field: Field): string {
    match field
    case UserName => UserNameMessage
    case Email => EmailMessage
    case Password => PasswordMessage
    case ConfirmPassword => ConfirmMessage
    case FormError => ""
  }

  /**
   * The local `newErrors` of `validate`: one entry per failed check, with that
   * check's message, and the verdict "no entry at all".
   */
  method CollectErrors(form: SignupForm) returns (newErrors: map<Field, string>, ok: bool)
    ensures forall field :: field in newErrors <==> !Passes(form, field)
    ensures forall field :: field in newErrors ==> newErrors[field] == Message(field)
    ensures ok <==> newErrors == map[]
    ensures ok <==>
      && ValidUserName(form.userName) && ValidEmail(form.email)
      && ValidPassword(form.password) && form.password == form.confirmPassword
  {
    newErrors := map[];
    if !ValidUserName(form.userName) {
      newErrors := newErrors[UserName := UserNameMessage];
    }
    if !ValidEmail(form.email) {
      newErrors := newErrors[Email := EmailMessage];
    }
    if !ValidPassword(form.password) {
      newErrors := newErrors[Password := PasswordMessage];
    }
    if form.password != form.confirmPassword {
      newErrors := newErrors[ConfirmPassword := ConfirmMessage];
    }
    ok := |newErrors| == 0;
    if !ok {
      var field :| field in newErrors;
      assert !Passes(form, field);
    }
  }

  /**
   * `if (error)`: the error counts as reported only when it is truthy, so a
   * missing error and an empty one both mean success.
   */
  predicate Reported(signUpError: Option<string>) {
    signUpError.Some? && signUpError.value != ""
  }

  /**
   * How `await signUp(...)` ended: it resolved with a value whose `error` may be
   * missing, or the promise rejected. Nothing catches a rejection, so it ends
   * the handler where it stands.
   */
  datatype SignUpOutcome = Resolved(error: Option<string>) | Rejected

  /** The sign-up page's form and error state. */
  class SignupPage {
    var form: SignupForm
    var errors: map<Field, string>

    constructor ()
      ensures form == EmptyForm && errors == map[]
    {
      form, errors := EmptyForm, map[];
    }

    /** `handleChange`: one field takes the typed value; the others keep theirs. */
    method Change(field: Field, value: string)
      modifies this
      ensures form == match field
        case UserName => old(form).(userName := value)
        case Email => old(form).(email := value)
        case Password => old(form).(password := value)
        case ConfirmPassword => old(form).(confirmPassword := value)
        case FormError => old(form)
      ensures errors == old(errors)
    {
      match field {
        case UserName => form := form.(userName := value);
        case Email => form := form.(email := value);
        case Password => form := form.(password := value);
        case ConfirmPassword => form := form.(confirmPassword := value);
        case FormError =>
      }
    }

    /** `validate`: the error map becomes exactly the failed checks. */
    method Validate() returns (ok: bool)
      modifies this
      ensures form == old(form)
      ensures forall field :: field in errors <==> !Passes(form, field)
      ensures forall field :: field in errors ==> errors[field] == Message(field)
      ensures ok <==> errors == map[]
      ensures ok <==>
        && ValidUserName(form.userName) && ValidEmail(form.email)
        && ValidPassword(form.password) && form.password == form.confirmPassword
    {
      var newErrors;
      newErrors, ok := CollectErrors(form);
      errors := newErrors;
    }

    /**
     * `handleSubmit`: `signUp` runs only on a valid form; a truthy error it
     * reports replaces the error map, a rejection leaves the (empty) map that
     * `validate` stored, and otherwise the page leads to login.
     */
    method HandleSubmit(outcome: SignUpOutcome) returns (signUpCalled: bool, toLogin: bool)
      modifies this
      ensures form == old(form)
      ensures signUpCalled <==>
        && ValidUserName(form.userName) && ValidEmail(form.email)
        && ValidPassword(form.password) && form.password == form.confirmPassword
      ensures !signUpCalled ==> !toLogin && errors != map[]
      ensures !signUpCalled ==> forall field :: field in errors <==> !Passes(form, field)
      ensures !signUpCalled ==> forall field :: field in errors ==> errors[field] == Message(field)
      ensures signUpCalled && outcome.Resolved? ==> toLogin == (outcome.error.None? || outcome.error.value == "")
      ensures signUpCalled && outcome.Resolved? && Reported(outcome.error) ==>
        errors == map[FormError := outcome.error.value]
      ensures signUpCalled && !(outcome.Resolved? && Reported(outcome.error)) ==> errors == map[]
      ensures signUpCalled && outcome.Rejected? ==> !toLogin
    {
      var ok := Validate();
      toLogin := false;
      signUpCalled := ok;
      if !ok {
        return;
      }
      match outcome {
        case Rejected =>
        case Resolved(error) =>
          if Reported(error) {
            errors := map[FormError := error.value];
          } else {
            toLogin := true;
          }
      }
    }
  }
}
