/** Request parameters and the shape every handler shares: guards first, then an ordered chain of
    checks where the first failing check decides the error message. */
module Request {
  import opened Wrappers
  import Session
  import Php

  /** `$_GET` or `$_POST`: submitted fields by name. */
  type Form = map<string, string>

  /** `$_POST['key'] ?? $default`: only a missing field takes the default; a submitted empty
      field stays empty. */
  function FieldOr(form: Form, key: string, default: string): (v: string)
    ensures key in form ==> v == form[key]
    ensures key !in form ==> v == default
  {
    Lookup(form, key).GetOr(default)
  }

  /** `(int)($_GET['key'] ?? 0)`: a missing field reads as 0, anything else through PHP's cast. */
  function IntParam(form: Form, key: string): (n: int)
    ensures key !in form ==> n == 0
    ensures key in form ==> n == Php.IntCast(form[key])
  {
    if key in form then Php.IntCast(form[key]) else 0
  }

  /** One validation step: whether it passes and the message shown when it does not. */
  datatype Check = Check(passes: bool, message: string)

  /** Check `k` is the first one that fails. */
  predicate FailsFirst(checks: seq<Check>, k: int) {
    0 <= k < |checks| && !checks[k].passes && forall i :: 0 <= i < k ==> checks[i].passes
  }

  /** The message of the first failing check, or none when every check passes (a run of
      `if (...) { setFlashMessage(...); redirect(...); }` blocks, each of which ends the request). */
  function FirstFailure(checks: seq<Check>): (r: Option<string>)
    ensures r.None? <==> forall i :: 0 <= i < |checks| ==> checks[i].passes
    ensures r.Some? ==> exists k :: FailsFirst(checks, k) && r.value == checks[k].message
    decreases |checks|
  {
    if |checks| == 0 then None
    else if !checks[0].passes then
      assert FailsFirst(checks, 0);
      Some(checks[0].message)
    else
      var rest := FirstFailure(checks[1..]);
      if rest.Some? then
        var k :| FailsFirst(checks[1..], k) && rest.value == checks[1..][k].message;
        assert FailsFirst(checks, k + 1);
        rest
      else
        assert forall i :: 0 < i < |checks| ==> checks[i] == checks[1..][i - 1];
        rest
  }

  /** Whatever follows it, the first failing check decides the message. */
  lemma FirstFailureDecides(checks: seq<Check>, k: int)
    requires FailsFirst(checks, k)
    ensures FirstFailure(checks) == Some(checks[k].message)
  {
    var r := FirstFailure(checks);
    var j :| FailsFirst(checks, j) && r.value == checks[j].message;
    assert j == k;
  }

  /** One check in front of a chain: it decides when it fails, and otherwise the rest does. */
  lemma FirstFailureCons(c: Check, rest: seq<Check>)
    ensures FirstFailure([c] + rest) == if !c.passes then Some(c.message) else FirstFailure(rest)
  {
    assert ([c] + rest)[1..] == rest;
  }

  /** The chain of two checks, spelled out. */
  lemma FirstFailureOfTwo(a: Check, b: Check)
    ensures FirstFailure([a, b])
      == if !a.passes then Some(a.message) else if !b.passes then Some(b.message) else None
  {
    if !a.passes {
      FirstFailureDecides([a, b], 0);
    } else if !b.passes {
      FirstFailureDecides([a, b], 1);
    }
  }

  /** The chain of three checks, spelled out. */
  lemma FirstFailureOfThree(a: Check, b: Check, c: Check)
    ensures FirstFailure([a, b, c])
      == if !a.passes then Some(a.message) else if !b.passes then Some(b.message)
         else if !c.passes then Some(c.message) else None
  {
    if !a.passes {
      FirstFailureDecides([a, b, c], 0);
    } else if !b.passes {
      FirstFailureDecides([a, b, c], 1);
    } else if !c.passes {
      FirstFailureDecides([a, b, c], 2);
    }
  }

  /** `requireLogin()` as a reason to stop, or none. */
  function LoginGuard(s: Session.SessionMap): (r: Option<Reason>)
    ensures r.None? <==> Session.IsLoggedIn(s)
    ensures r.Some? ==> r.value == LoginRequired
  {
    if Session.RequireLogin(s) == Session.Continue then None else Some(LoginRequired)
  }

  /** `requireRole($role)` as a reason to stop, or none: anonymous visitors are sent to log in and
      users of another role are turned away. */
  function RoleGuard(s: Session.SessionMap, role: string): (r: Option<Reason>)
    ensures r.None? <==> Session.HasRole(s, role)
    ensures r.Some? && Session.IsLoggedIn(s) ==> r.value == RoleRequired
    ensures r.Some? && !Session.IsLoggedIn(s) ==> r.value == LoginRequired
  {
    match Session.RequireRole(s, role)
    case Continue => None
    case Redirect(to) => if to == Session.LoginPage then Some(LoginRequired) else Some(RoleRequired)
  }

  /** The session's current role when it is text (`getCurrentUserRole() === $role`). */
  predicate RoleIs(s: Session.SessionMap, role: string) {
    "role" in s && s["role"] == Session.StrV(role)
  }
}
