/** The login session as a map from `$_SESSION` keys to values: the login checks and gates, login
    and logout, and the one-shot flash message. */
module Session {
  import opened Wrappers
  import opened Records

  /** A session value: user ids are integers, everything else is text. */
  datatype Value = IntV(i: int) | StrV(s: string)

  type SessionMap = map<string, Value>

  /** `isLoggedIn`: both the user id and the role are set. */
  predicate IsLoggedIn(s: SessionMap) {
    "user_id" in s && "role" in s
  }

  /** `hasRole`: logged in, and the stored role is exactly that text (`===`). */
  predicate HasRole(s: SessionMap, role: string) {
    IsLoggedIn(s) && s["role"] == StrV(role)
  }

  /** Whether a guarded page goes on or redirects away (ending the request). */
  datatype Gate = Continue | Redirect(location: string)

  const LoginPage: string := "/CHMS/login.php"
  const IndexPage: string := "/CHMS/index.php"

  /** `requireLogin`: anonymous visitors are sent to the login page. */
  function RequireLogin(s: SessionMap): (g: Gate)
    ensures g == Continue <==> IsLoggedIn(s)
    ensures g != Continue ==> g == Redirect(LoginPage)
  {
    if !IsLoggedIn(s) then Redirect(LoginPage) else Continue
  }

  /** `requireRole`: the login gate first, then users of another role go to the index page. The
      request continues exactly when the user has the role. */
  function RequireRole(s: SessionMap, role: string): (g: Gate)
    ensures g == Continue <==> HasRole(s, role)
    ensures !IsLoggedIn(s) ==> g == Redirect(LoginPage)
    ensures IsLoggedIn(s) && !HasRole(s, role) ==> g == Redirect(IndexPage)
  {
    var first := RequireLogin(s);
    if first != Continue then first
    else if !HasRole(s, role) then Redirect(IndexPage)
    else Continue
  }

  /** `getCurrentUserId()` as the integer the queries bind; login always stores an integer, and
      anything else binds as no id. */
  function CurrentUserId(s: SessionMap): (id: Option<int>)
    ensures id.Some? <==> "user_id" in s && s["user_id"].IntV?
    ensures id.Some? ==> s["user_id"] == IntV(id.value)
  {
    if "user_id" in s && s["user_id"].IntV? then Some(s["user_id"].i) else None
  }

  /** `loginUser`: stores the user's id, role, name and email, keeping every other key. */
  function LoginUser(s: SessionMap, u: User): (r: SessionMap)
    ensures r.Keys == s.Keys + {"user_id", "role", "name", "email"}
    ensures forall k :: k in s && k !in {"user_id", "role", "name", "email"} ==> r[k] == s[k]
  {
    s["user_id" := IntV(u.userId)]["role" := StrV(u.role)]["name" := StrV(u.name)]["email" := StrV(u.email)]
  }

  /** After logging a user in, the session is logged in with that user's role and id. */
  lemma LoginEstablishesUser(s: SessionMap, u: User)
    ensures IsLoggedIn(LoginUser(s, u))
    ensures HasRole(LoginUser(s, u), u.role)
    ensures forall role :: HasRole(LoginUser(s, u), role) <==> role == u.role
    ensures Lookup(LoginUser(s, u), "user_id") == Some(IntV(u.userId))
    ensures CurrentUserId(LoginUser(s, u)) == Some(u.userId)
  {
  }

  /** `logoutUser`: `session_unset` removes every key. */
  function LogoutUser(s: SessionMap): (r: SessionMap)
    ensures |r| == 0
    ensures !IsLoggedIn(r)
    ensures forall role :: !HasRole(r, role)
  {
    map[]
  }

  /** A flash message and its kind as `getFlashMessage` returns them (the kind may be missing). */
  datatype Flash = Flash(message: Value, kind: Option<Value>)

  /** `setFlashMessage`: stores the message and its kind, keeping every other key. */
  function SetFlashMessage(s: SessionMap, message: string, kind: string): (r: SessionMap)
    ensures r.Keys == s.Keys + {"flash_message", "flash_type"}
    ensures forall k :: k in s && k !in {"flash_message", "flash_type"} ==> r[k] == s[k]
  {
    s["flash_message" := StrV(message)]["flash_type" := StrV(kind)]
  }

  /** `setFlashMessage` with the kind left at its default, 'info'. */
  function SetInfoMessage(s: SessionMap, message: string): (r: SessionMap)
    ensures "flash_type" in r && r["flash_type"] == StrV("info")
  {
    SetFlashMessage(s, message, "info")
  }

  /** The result of `getFlashMessage` and the session it leaves. */
  datatype FlashRead = FlashRead(flash: Option<Flash>, session: SessionMap)

  /** `getFlashMessage`: returns the stored message and clears both flash keys; null when none is set. */
  function GetFlashMessage(s: SessionMap): (r: FlashRead)
    ensures r.flash.Some? <==> "flash_message" in s
    ensures r.flash.Some? ==> r.flash.value.message == s["flash_message"] && r.flash.value.kind == Lookup(s, "flash_type")
    ensures r.session.Keys == if "flash_message" in s then s.Keys - {"flash_message", "flash_type"} else s.Keys
    ensures forall k :: k in r.session ==> r.session[k] == s[k]
  {
    if "flash_message" in s then
      FlashRead(Some(Flash(s["flash_message"], Lookup(s, "flash_type"))), s - {"flash_message", "flash_type"})
    else FlashRead(None, s)
  }

  /** A message set and then read comes back with its kind, and reading again yields nothing. */
  lemma FlashRoundTrip(s: SessionMap, message: string, kind: string)
    ensures GetFlashMessage(SetFlashMessage(s, message, kind)).flash == Some(Flash(StrV(message), Some(StrV(kind))))
    ensures GetFlashMessage(GetFlashMessage(SetFlashMessage(s, message, kind)).session).flash == None
  {
  }

  /** A second message set before any read replaces the first. */
  lemma FlashOverwrite(s: SessionMap, m1: string, k1: string, m2: string, k2: string)
    ensures SetFlashMessage(SetFlashMessage(s, m1, k1), m2, k2) == SetFlashMessage(s, m2, k2)
  {
  }

  /** Reading the flash message never logs anyone in or out, nor changes their role. */
  lemma FlashKeepsLogin(s: SessionMap, role: string)
    ensures IsLoggedIn(GetFlashMessage(s).session) == IsLoggedIn(s)
    ensures HasRole(GetFlashMessage(s).session, role) == HasRole(s, role)
  {
  }
}
