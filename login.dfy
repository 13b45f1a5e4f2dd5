/**
 * The e-mail login form (src/pages/Login.jsx). The provider's `login` call is
 * an input: what it returned, or that it threw. The OAuth buttons redirect to
 * the provider and are not part of this model.
 */
module Login {
  import opened Wrappers
  import opened FormRules
  import opened Accounts

  /** The keys of the error map. */
  datatype Field = Email | Password

  datatype LoginForm = LoginForm(email: string, password: string)

  const EmptyForm := LoginForm("", "")

  const EmailMessage: string := "올바른 이메일 형식을 입력하세요."
  const PasswordMessage: string := "비밀번호를 입력하세요."
  const WrongCredentialsMessage: string := "❌ 아이디나 비밀번호가 틀렸습니다."
  const DefaultErrorMessage: string := "❌ 로그인 중 오류가 발생했습니다."

  /**
   * How `login` ended: it returned a value whose `user` may be missing (the
   * optional chain `userInfo?.user` covers a missing value as well), or it threw
   * an error whose `message` may be missing.
   */
  datatype LoginResult =
    | Returned(user: Option<User>)
    | Threw(message: Option<string>)

  /** Whether the form passes the check recorded under `field`. */
  predicate Passes(form: LoginForm, field: Field) {
    match field
    case Email => ValidEmail(form.email)
    case Password => form.password != ""
  }

  function Message(field: Field): string {
    match field
    case Email => EmailMessage
    case Password => PasswordMessage
  }

  /**
   * `error?.message || default`: a missing or empty message falls back to the
   * default text, so the general error shown is never empty.
   */
  function ThrownMessage(message: Option<string>): (shown: string)
    ensures shown != ""
    ensures message.Some? && message.value != "" ==> shown == message.value
    ensures message.None? || message.value == "" ==> shown == DefaultErrorMessage
  {
    if message.Some? && message.value != "" then message.value else DefaultErrorMessage
  }

  /** The local `newErrors` of `validate` and its verdict. */
  method CollectErrors(form: LoginForm) returns (newErrors: map<Field, string>, ok: bool)
    ensures forall field :: field in newErrors <==> !Passes(form, field)
    ensures forall field :: field in newErrors ==> newErrors[field] == Message(field)
    ensures ok <==> newErrors == map[]
    ensures ok <==> ValidEmail(form.email) && form.password != ""
  {
    newErrors := map[];
    if !ValidEmail(form.email) {
      newErrors := newErrors[Email := EmailMessage];
    }
    if form.password == "" {
      newErrors := newErrors[Password := PasswordMessage];
    }
    ok := |newErrors| == 0;
    if !ok {
      var field :| field in newErrors;
      assert !Passes(form, field);
    }
  }

  /** The login page's state and the application-wide user slot it writes. */
  class LoginPage {
    var form: LoginForm
    var errors: map<Field, string>
    var generalError: string
    var user: Option<User>

    constructor (current: Option<User>)
      ensures form == EmptyForm && errors == map[] && generalError == "" && user == current
    {
      form, errors, generalError, user := EmptyForm, map[], "", current;
    }

    /** `handleChange`: one field takes the typed value; the other keeps its own. */
    method Change(field: Field, value: string)
      modifies this
      ensures form == match field
        case Email => old(form).(email := value)
        case Password => old(form).(password := value)
      ensures errors == old(errors) && generalError == old(generalError) && user == old(user)
    {
      match field {
        case Email => form := form.(email := value);
        case Password => form := form.(password := value);
      }
    }

    /** `validate`: the error map becomes exactly the failed checks. */
    method Validate() returns (ok: bool)
      modifies this
      ensures form == old(form) && generalError == old(generalError) && user == old(user)
      ensures forall field :: field in errors <==> !Passes(form, field)
      ensures forall field :: field in errors ==> errors[field] == Message(field)
      ensures ok <==> ValidEmail(form.email) && form.password != ""
    {
      var newErrors;
      newErrors, ok := CollectErrors(form);
      errors := newErrors;
    }

    /**
     * `handleSubmit`: clear both errors, validate, and only then call `login`.
     * A returned user is stored and the form reset; a return without one shows
     * the wrong-credentials text; an exception shows its message or the default.
     */
    method HandleSubmit(result: LoginResult) returns (loginCalled: bool, toHome: bool)
      modifies this
      ensures loginCalled <==> ValidEmail(old(form).email) && old(form).password != ""
      ensures forall field :: field in errors <==> !Passes(old(form), field)
      ensures forall field :: field in errors ==> errors[field] == Message(field)
      ensures toHome <==> loginCalled && result.Returned? && result.user.Some?
      ensures !loginCalled ==> form == old(form) && generalError == "" && user == old(user)
      ensures toHome ==> user == result.user && form == EmptyForm && generalError == ""
      ensures loginCalled && result.Returned? && result.user.None? ==>
        generalError == WrongCredentialsMessage && form == old(form) && user == old(user)
      ensures loginCalled && result.Threw? ==>
        generalError == ThrownMessage(result.message) && form == old(form) && user == old(user)
    {
      errors := map[];
      generalError := "";
      loginCalled := Validate();
      toHome := false;
      if !loginCalled {
        return;
      }
      match result {
        case Returned(u) =>
          if u.Some? {
            user := u;
            form := EmptyForm;
            toHome := true;
          } else {
            generalError := WrongCredentialsMessage;
          }
        case Threw(message) =>
          generalError := ThrownMessage(message);
      }
    }
  }
}
