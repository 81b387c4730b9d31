/** The authentication handler: login, registration and logout. Whether an address passes
    `filter_var(..., FILTER_VALIDATE_EMAIL)`, the user a login lookup returns (the password check is
    `password_verify`), whether an address is already registered and whether the insert succeeds
    are parameters. */
module AuthController {
  import opened Wrappers
  import Session
  import opened Request
  import Php
  import Helpers
  import opened Records

  /** The handlers a request can reach. */
  datatype Route = Login | Register | Logout | NoAction

  /** The file's top level: a POST is dispatched on `action` and an unknown action is an error; a
      GET logs out only for `action=logout`; nothing else does anything. */
  function Dispatch(requestMethod: string, post: Form, get: Form): (r: Verdict<Route>)
    ensures r.Err? <==> requestMethod == "POST" && FieldOr(post, "action", "") !in {"login", "register", "logout"}
    ensures r.Err? ==> r.reason == Message("Invalid action")
    ensures r == Ok(Logout) <==>
      (requestMethod == "POST" && FieldOr(post, "action", "") == "logout")
      || (requestMethod == "GET" && FieldOr(get, "action", "") == "logout")
    ensures r == Ok(Login) <==> requestMethod == "POST" && FieldOr(post, "action", "") == "login"
    ensures r == Ok(Register) <==> requestMethod == "POST" && FieldOr(post, "action", "") == "register"
  {
    if requestMethod == "POST" then
      match FieldOr(post, "action", "")
      case "login" => Ok(Login)
      case "register" => Ok(Register)
      case "logout" => Ok(Logout)
      case _ => Err(Message("Invalid action"))
    else if requestMethod == "GET" && FieldOr(get, "action", "") == "logout" then Ok(Logout)
    else Ok(NoAction)
  }

  const DoctorDashboard: string := "/CHMS/doctor_dashboard.php"

  /** A successful login: the session it leaves and the page it redirects to. */
  datatype SignedIn = SignedIn(session: Session.SessionMap, destination: string)

  /** `handleLogin`: the email is sanitized, the password taken as submitted. Both must be non-empty,
      then the email must be well formed, then the lookup (`found`: the user whose email and
      password matched, if any) must succeed. The user is logged in with a welcome message and sent
      to the doctor dashboard when a doctor and to the index page otherwise. */
  function HandleLogin(s: Session.SessionMap, post: Form, emailOk: string -> bool, found: Option<User>)
    : (r: Verdict<SignedIn>)
    ensures var email := Php.Sanitize(FieldOr(post, "email", ""));
      var password := FieldOr(post, "password", "");
      && (Php.Empty(email) || Php.Empty(password) ==> r == Err(Message("Email and password are required")))
      && (!Php.Empty(email) && !Php.Empty(password) && !emailOk(email) ==> r == Err(Message("Invalid email format")))
      && (r.Ok? <==> !Php.Empty(email) && !Php.Empty(password) && emailOk(email) && found.Some?)
    ensures r.Err? ==> r.reason.Message?
    ensures r.Ok? ==>
      Session.HasRole(r.value.session, found.value.role)
      && Session.CurrentUserId(r.value.session) == Some(found.value.userId)
    ensures r.Ok? ==> (r.value.destination == DoctorDashboard <==> found.value.role == "doctor")
    ensures r.Ok? && found.value.role != "doctor" ==> r.value.destination == Session.IndexPage
  {
    var email := Php.Sanitize(FieldOr(post, "email", ""));
    var password := FieldOr(post, "password", "");
    if Php.Empty(email) || Php.Empty(password) then Err(Message("Email and password are required"))
    else if !emailOk(email) then Err(Message("Invalid email format"))
    else if found.None? then Err(Message("Invalid email or password"))
    else
      var u := found.value;
      Session.LoginEstablishesUser(s, u);
      var signedIn := Session.SetFlashMessage(Session.LoginUser(s, u), "Welcome back, " + u.name + "!", "success");
      Ok(SignedIn(signedIn, if u.role == "doctor" then DoctorDashboard else Session.IndexPage))
  }

  /** The registration form as the handler reads it: name, email, phone and role sanitized (the
      role defaulting to 'mother' when absent), the password and its confirmation as submitted. */
  datatype Registration = Registration(
    name: string, email: string, phone: string, role: string, password: string, confirm: string)

  function ReadRegistration(post: Form): (g: Registration)
    ensures Php.SanitizedFrom(FieldOr(post, "name", ""), g.name)
    ensures Php.SanitizedFrom(FieldOr(post, "email", ""), g.email)
    ensures Php.SanitizedFrom(FieldOr(post, "phone", ""), g.phone)
    ensures Php.SanitizedFrom(FieldOr(post, "role", "mother"), g.role)
    ensures "role" !in post ==> g.role == "mother"
    ensures "password" in post ==> g.password == post["password"]
    ensures "confirm_password" in post ==> g.confirm == post["confirm_password"]
  {
    var (name, email, phone) := (FieldOr(post, "name", ""), FieldOr(post, "email", ""), FieldOr(post, "phone", ""));
    var role := FieldOr(post, "role", "mother");
    SanitizeMother();
    Registration(
      Php.Sanitize(name), Php.Sanitize(email), Php.Sanitize(phone), Php.Sanitize(role),
      FieldOr(post, "password", ""), FieldOr(post, "confirm_password", ""))
  }

  /** The default role survives `sanitize` unchanged. */
  lemma SanitizeMother()
    ensures Php.Sanitize("mother") == "mother"
  {
    Php.SanitizePlain("mother");
    Php.TrimKeeps("mother");
  }

  /** The roles a registration may choose. */
  predicate KnownRole(role: string) {
    role == "mother" || role == "doctor"
  }

  /** The checks of `handleRegister`, in order, before the uniqueness lookup. */
  function RegisterChecks(g: Registration, emailOk: string -> bool): seq<Check> {
    [ Check(!Php.Empty(g.name) && !Php.Empty(g.email) && !Php.Empty(g.password), "Name, email, and password are required"),
      Check(emailOk(g.email), "Invalid email format"),
      Check(Php.Empty(g.phone) || Helpers.ValidatePhone(g.phone), "Invalid phone number format"),
      Check(g.password == g.confirm, "Passwords do not match"),
      Check(Php.Strlen(g.password) >= 8, "Password must be at least 8 characters long"),
      Check(KnownRole(g.role), "Invalid role selected") ]
  }

  /** The user row a registration inserts (the password is stored hashed). */
  datatype NewUser = NewUser(name: string, email: string, phone: string, role: string, password: string)

  /** `handleRegister` on the read form `g`: the six checks in order, then the uniqueness of the
      email (`taken`), then the insert (`created`). A user is created only when everything passes. */
  function HandleRegister(g: Registration, emailOk: string -> bool, taken: bool, created: bool): (r: Verdict<NewUser>)
    ensures r.Ok? <==>
      !Php.Empty(g.name) && !Php.Empty(g.email) && !Php.Empty(g.password) && emailOk(g.email)
      && (Php.Empty(g.phone) || Helpers.ValidatePhone(g.phone)) && g.password == g.confirm
      && Php.Strlen(g.password) >= 8 && KnownRole(g.role) && !taken && created
    ensures r.Ok? ==> r.value == NewUser(g.name, g.email, g.phone, g.role, g.password)
    ensures r.Ok? ==> KnownRole(r.value.role) && Php.Strlen(r.value.password) >= 8
    ensures r.Err? ==> r.reason.Message?
  {
    if Php.Empty(g.name) || Php.Empty(g.email) || Php.Empty(g.password) then Err(Message("Name, email, and password are required"))
    else if !emailOk(g.email) then Err(Message("Invalid email format"))
    else if !Php.Empty(g.phone) && !Helpers.ValidatePhone(g.phone) then Err(Message("Invalid phone number format"))
    else if g.password != g.confirm then Err(Message("Passwords do not match"))
    else if Php.Strlen(g.password) < 8 then Err(Message("Password must be at least 8 characters long"))
    else if !KnownRole(g.role) then Err(Message("Invalid role selected"))
    else if taken then Err(Message("Email already registered"))
    else if !created then Err(Message("Registration failed. Please try again."))
    else Ok(NewUser(g.name, g.email, g.phone, g.role, g.password))
  }

  /** The registration chain is the first-failure rule over its six checks: the first failing one
      decides the message, and only when all pass do the uniqueness lookup and the insert matter. */
  lemma {:induction false} RegisterIsFirstFailure(g: Registration, emailOk: string -> bool, taken: bool, created: bool)
    ensures FirstFailure(RegisterChecks(g, emailOk)).Some? ==>
      HandleRegister(g, emailOk, taken, created) == Err(Message(FirstFailure(RegisterChecks(g, emailOk)).value))
    ensures FirstFailure(RegisterChecks(g, emailOk)).None? && taken ==>
      HandleRegister(g, emailOk, taken, created) == Err(Message("Email already registered"))
  {
    var checks := RegisterChecks(g, emailOk);
    assert checks == [checks[0]] + ([checks[1]] + ([checks[2]] + ([checks[3]] + ([checks[4]] + ([checks[5]] + [])))));
    FirstFailureCons(checks[5], []);
    FirstFailureCons(checks[4], [checks[5]] + []);
    FirstFailureCons(checks[3], [checks[4]] + ([checks[5]] + []));
    FirstFailureCons(checks[2], [checks[3]] + ([checks[4]] + ([checks[5]] + [])));
    FirstFailureCons(checks[1], [checks[2]] + ([checks[3]] + ([checks[4]] + ([checks[5]] + []))));
    FirstFailureCons(checks[0], [checks[1]] + ([checks[2]] + ([checks[3]] + ([checks[4]] + ([checks[5]] + [])))));
  }

  /** `sanitize` trims the role before the membership test, so a padded role is accepted. */
  lemma PaddedRoleAccepted(post: Form)
    requires "role" in post && post["role"] == " doctor"
    ensures KnownRole(ReadRegistration(post).role)
  {
    SanitizePaddedDoctor();
  }

  lemma SanitizePaddedDoctor()
    ensures Php.Sanitize(" doctor") == "doctor"
  {
    TrimPaddedDoctor();
    var d := "doctor";
    assert '\\' !in d;
    assert forall i :: 0 <= i < |d| ==> !Php.IsHtmlSpecial(d[i]);
  }

  lemma TrimPaddedDoctor()
    ensures Php.Trim(" doctor") == "doctor"
  {
    var s := " doctor";
    assert s[1..] == "doctor";
    assert Php.TrimStart("doctor") == 0;
    assert Php.TrimStart(s) == 1;
    assert Php.TrimEnd(s) == 7;
    assert s[1..7] == "doctor";
  }

  /** The password is not sanitized: a password with surrounding spaces is stored as typed, and a
      confirmation that differs only by those spaces is rejected. */
  lemma PasswordTakenAsTyped(post: Form)
    requires "password" in post && "confirm_password" in post
    ensures ReadRegistration(post).password == post["password"]
    ensures post["password"] != post["confirm_password"] ==>
      ReadRegistration(post).password != ReadRegistration(post).confirm
  {
  }

  /** `handleLogout`: every session key is cleared, then the goodbye message is set, so the session
      is left logged out holding only the flash message. */
  function HandleLogout(s: Session.SessionMap): (r: Session.SessionMap)
    ensures !Session.IsLoggedIn(r)
    ensures r.Keys == {"flash_message", "flash_type"}
    ensures Session.GetFlashMessage(r).flash
      == Some(Session.Flash(Session.StrV("You have been logged out successfully"), Some(Session.StrV("success"))))
  {
    Session.SetFlashMessage(Session.LogoutUser(s), "You have been logged out successfully", "success")
  }
}
