/** The sign-up form: the client-side password check and the order in
    which `handleSubmit` validates the name, the password and its
    confirmation before it calls `onRegister`. */
module RegisterForm {
  import opened Common
  import opened Text
  import opened PasswordRules

  /** The message `validatePassword` returns for a broken rule. */
  function ClientMessage(r: Rule): string {
    match r
    case Length => "Password must be at least 8 characters long"
    case Special => "Password must contain at least one special character"
    case Upper => "Password must contain at least one uppercase letter"
    case Lower => "Password must contain at least one lowercase letter"
    case Digit => "Password must contain at least one number"
  }

  /** `validatePassword`: the guards in order, each returning its message. */
  function ValidatePassword(pwd: string): Option<string> {
    if |pwd| < 8 then Some("Password must be at least 8 characters long")
    else if !HasSpecial(pwd) then Some("Password must contain at least one special character")
    else if !HasUpper(pwd) then Some("Password must contain at least one uppercase letter")
    else if !HasLower(pwd) then Some("Password must contain at least one lowercase letter")
    else if !HasDecimal(pwd) then Some("Password must contain at least one number")
    else None
  }

  /** `validatePassword` returns null exactly for a strong password, and
      otherwise the message of the first rule the password breaks. */
  lemma ValidatePasswordRules(pwd: string)
    ensures ValidatePassword(pwd).None? <==> Strong(pwd)
    ensures ValidatePassword(pwd).Some? ==>
              FirstBrokenRule(pwd).Some? && ValidatePassword(pwd).value == ClientMessage(FirstBrokenRule(pwd).value)
  {
    FirstBrokenChain(pwd);
    NoneBrokenIffStrong(pwd);
  }

  /** The messages tell the rules apart, so the message names the rule that
      failed first. */
  lemma ClientMessageInjective(a: Rule, b: Rule)
    requires ClientMessage(a) == ClientMessage(b)
    ensures a == b
  {
  }

  /** A short password always reports the length rule. */
  lemma ShortPasswordMessage(pwd: string)
    requires |pwd| < MinLength
    ensures ValidatePassword(pwd) == Some(ClientMessage(Length))
  {
  }

  const NameMessage: string := "Please enter your name"
  const MismatchMessage: string := "Passwords do not match"
  const FallbackMessage: string := "Failed to create account"

  /** The first check of `handleSubmit` that fails, as the message it shows. */
  function SubmitError(name: string, password: string, confirmPassword: string): Option<string> {
    if IsBlank(name) then Some(NameMessage)
    else if ValidatePassword(password).Some? then ValidatePassword(password)
    else if password != confirmPassword then Some(MismatchMessage)
    else None
  }

  /** A blank name is reported before any password rule, a password rule
      before the mismatch, and the form goes ahead exactly when all three
      checks pass. */
  lemma SubmitOrder(name: string, password: string, confirmPassword: string)
    ensures IsBlank(name) ==> SubmitError(name, password, confirmPassword) == Some(NameMessage)
    ensures !IsBlank(name) && FirstBrokenRule(password).Some? ==>
              SubmitError(name, password, confirmPassword) == Some(ClientMessage(FirstBrokenRule(password).value))
    ensures SubmitError(name, password, confirmPassword).None?
            <==> !IsBlank(name) && Strong(password) && password == confirmPassword
  {
    ValidatePasswordRules(password);
  }

  /** A mismatch is reported only once the name and the password pass. */
  lemma MismatchLast(name: string, password: string, confirmPassword: string)
    requires SubmitError(name, password, confirmPassword) == Some(MismatchMessage)
    ensures !IsBlank(name) && Strong(password) && password != confirmPassword
  {
    ValidatePasswordRules(password);
  }

  /** How the `onRegister` promise settled: resolved, or rejected with an
      `Error` carrying a message or with some other value. */
  datatype RegisterOutcome = Registered | Rejected(errorMessage: Option<string>)

  /** One call of `onRegister(email, password, name)`. */
  datatype Registration = Registration(email: string, password: string, name: string)

  class RegisterFormState {
    var name: string
    var email: string
    var password: string
    var confirmPassword: string
    var error: string
    var success: bool
    var loading: bool
    ghost var log: seq<Registration>

    constructor ()
      ensures name == "" && email == "" && password == "" && confirmPassword == ""
      ensures error == "" && !success && !loading && log == []
    {
      name, email, password, confirmPassword := "", "", "", "";
      error, success, loading := "", false, false;
      log := [];
    }

    /** The three checks of `handleSubmit`, in order; the first that fails
        gives the message shown. */
    method Validate() returns (failed: Option<string>)
      ensures failed == SubmitError(name, password, confirmPassword)
    {
      if IsBlank(name) {
        return Some(NameMessage);
      }
      var passwordError := ValidatePassword(password);
      if passwordError.Some? {
        return passwordError;
      }
      if password != confirmPassword {
        return Some(MismatchMessage);
      }
      return None;
    }

    /** `handleSubmit`, with the settling of `onRegister` passed in. A failed
        check shows its message and changes nothing else; when all pass,
        `onRegister` is called once, and on success the four fields are
        cleared and success is set; `loading` ends false either way. */
    method HandleSubmit(outcome: RegisterOutcome)
      modifies this
      ensures var failed := SubmitError(old(name), old(password), old(confirmPassword));
              failed.Some? ==>
                error == failed.value && !success && log == old(log)
                && name == old(name) && email == old(email) && password == old(password)
                && confirmPassword == old(confirmPassword) && loading == old(loading)
      ensures SubmitError(old(name), old(password), old(confirmPassword)).None? ==>
                log == old(log) + [Registration(old(email), old(password), old(name))] && !loading
                && (outcome.Registered? ==>
                      success && error == "" && name == "" && email == "" && password == "" && confirmPassword == "")
                && (outcome.Rejected? ==>
                      !success && name == old(name) && email == old(email) && password == old(password)
                      && confirmPassword == old(confirmPassword)
                      && error == (if outcome.errorMessage.Some? then outcome.errorMessage.value else FallbackMessage))
    {
      error := "";
      success := false;
      var failed := Validate();
      if failed.Some? {
        error := failed.value;
        return;
      }
      loading := true;
      log := log + [Registration(email, password, name)];
      match outcome {
        case Registered =>
          success := true;
          name := "";
          email := "";
          password := "";
          confirmPassword := "";
        case Rejected(m) =>
          error := if m.Some? then m.value else FallbackMessage;
      }
      loading := false;
    }
  }
}
