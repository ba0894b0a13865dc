/** The guards of the sign-up endpoint and the bearer-token parsing of
    `verifyAuth` in the server function; the calls into the auth service
    that follow them are not part of this model. */
module Server {
  import opened Common
  import opened Text
  import opened PasswordRules
  import RegisterForm

  /** A value, or the message of the error thrown instead. */
  datatype Result<T> = Success(value: T) | Failure(error: string)

  /** The message the endpoint sends for a broken rule. */
  function ServerMessage(r: Rule): string {
    match r
    case Length => "Password must be at least 8 characters"
    case Special => "Password must contain a special character"
    case Upper => "Password must contain an uppercase letter"
    case Lower => "Password must contain a lowercase letter"
    case Digit => "Password must contain a number"
  }

  const RequiredMessage: string := "Email, password, and name are required"

  /** What the guards decide: answer 400 with an error, or go on to create
      the user with the three fields. */
  datatype SignupStep = BadRequest(status: int, error: string) | CreateUser(email: string, password: string, name: string)

  /** A field of the request body is truthy: present and not empty. */
  predicate Given(field: Option<string>) {
    field.Some? && field.value != ""
  }

  /** The guards of the `/signup` route on the fields of the request body. */
  function SignupGuards(email: Option<string>, password: Option<string>, name: Option<string>): (r: SignupStep)
    ensures r.BadRequest? ==> r.status == 400
    ensures r.CreateUser? ==> Some(r.email) == email && Some(r.password) == password && Some(r.name) == name
  {
    if !Given(email) || !Given(password) || !Given(name) then BadRequest(400, RequiredMessage)
    else
      var pwd := password.value;
      if |pwd| < 8 then BadRequest(400, "Password must be at least 8 characters")
      else if !HasSpecial(pwd) then BadRequest(400, "Password must contain a special character")
      else if !HasUpper(pwd) then BadRequest(400, "Password must contain an uppercase letter")
      else if !HasLower(pwd) then BadRequest(400, "Password must contain a lowercase letter")
      else if !HasDecimal(pwd) then BadRequest(400, "Password must contain a number")
      else CreateUser(email.value, pwd, name.value)
  }

  /** A missing or empty field is answered with the "required" error, before
      any password rule. */
  lemma MissingFieldRejected(email: Option<string>, password: Option<string>, name: Option<string>)
    ensures SignupGuards(email, password, name) == BadRequest(400, RequiredMessage)
            <==> !Given(email) || !Given(password) || !Given(name)
  {
    if Given(email) && Given(password) && Given(name) {
      var r := SignupGuards(email, password, name);
      if r.BadRequest? {
        assert r.error[0] == 'P' && RequiredMessage[0] == 'E';
      }
    }
  }

  /** With all three fields given, the endpoint fails the same rule the form
      does, so it goes on to create the user exactly when the form's
      `validatePassword` returns null. */
  lemma ServerAgreesWithClient(email: string, password: string, name: string)
    requires email != "" && password != "" && name != ""
    ensures var r := SignupGuards(Some(email), Some(password), Some(name));
            (r.CreateUser? <==> RegisterForm.ValidatePassword(password).None?)
            && (r.BadRequest? ==> FirstBrokenRule(password).Some?
                                  && r.error == ServerMessage(FirstBrokenRule(password).value)
                                  && RegisterForm.ValidatePassword(password)
                                     == Some(RegisterForm.ClientMessage(FirstBrokenRule(password).value)))
  {
    FirstBrokenChain(password);
    RegisterForm.ValidatePasswordRules(password);
  }

  const NoTokenMessage: string := "No authorization token provided"

  /** `verifyAuth` up to the user lookup: the token it looks up, or the
      error it throws for an absent header or one without the prefix. */
  function BearerToken(authHeader: Option<string>): (r: Result<string>)
    ensures r.Failure? <==> authHeader.None? || !StartsWith(authHeader.value, "Bearer ")
    ensures r.Failure? ==> r.error == NoTokenMessage
  {
    if authHeader.None? || authHeader.value == "" || !StartsWith(authHeader.value, "Bearer ") then
      Failure(NoTokenMessage)
    else
      var fields := Split(authHeader.value, ' ');
      SplitAfterPrefix(authHeader.value);
      Success(fields[1])
  }

  /** A header that starts with "Bearer " splits into at least two fields,
      the first being "Bearer". */
  lemma SplitAfterPrefix(h: string)
    requires StartsWith(h, "Bearer ")
    ensures |Split(h, ' ')| >= 2 && Split(h, ' ')[0] == "Bearer"
  {
    var rest := h[7..];
    assert h == "Bearer" + [' '] + rest;
    assert IndexOf(h, ' ') == 6;
    assert h[..6] == "Bearer";
  }

  /** The token is the second space-separated field: a header of "Bearer ",
      a token without spaces, and anything after a further space yields that
      token; in particular "Bearer " + t yields t. */
  lemma TokenIsSecondField(t: string, rest: string)
    requires ' ' !in t
    ensures BearerToken(Some("Bearer " + t)) == Success(t)
    ensures BearerToken(Some("Bearer " + t + " " + rest)) == Success(t)
  {
    assert ' ' !in "Bearer";
    SplitOnce("Bearer", t, ' ');
    assert "Bearer " + t == "Bearer" + [' '] + t;
    var h := "Bearer " + t + " " + rest;
    assert h == "Bearer" + [' '] + (t + [' '] + rest);
    SplitPrefix("Bearer", t + [' '] + rest, ' ');
    SplitPrefix(t, rest, ' ');
  }

  /** Splitting at the first separator: the part before it, then the split of
      the rest. */
  lemma SplitPrefix(a: string, b: string, sep: char)
    requires sep !in a
    ensures Split(a + [sep] + b, sep) == [a] + Split(b, sep)
  {
    var s := a + [sep] + b;
    assert s[|a|] == sep;
    assert s[..|a|] == a && s[|a| + 1..] == b;
  }
}
