/** Optional values and request verdicts shared by every part of the model. */
module Wrappers {

  /** A value that may be absent: SQL NULL, an unset array key, or PHP `false` from a fetch. */
  datatype Option<+T> = None | Some(value: T) {

    /** The wrapped value, or `default` when absent (PHP's `??`). */
    function GetOr(default: T): T {
      match this
      case Some(v) => v
      case None => default
    }
  }

  /** `$array['key'] ?? null` on a string-keyed PHP array (`$_SESSION`, `$_GET`, `$_POST`): the
      stored value, or null for a missing key. */
  function Lookup<V>(m: map<string, V>, key: string): (v: Option<V>)
    ensures v.Some? <==> key in m
    ensures v.Some? ==> v.value == m[key]
  {
    if key in m then Some(m[key]) else None
  }

  /** Why a request handler stopped before doing its work. */
  datatype Reason =
    | LoginRequired          // requireLogin(): redirect to the login page
    | RoleRequired           // requireRole(): logged in, but with another role; redirect to the index page
    | Message(text: string)  // an error flash message, then a redirect

  /** The verdict of a request handler: the work it goes on to do, or the first check that failed. */
  datatype Verdict<+T> = Ok(value: T) | Err(reason: Reason)
}
