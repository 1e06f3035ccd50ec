/**
 * The two request middlewares: a warning for accounts whose trial has run out, and the
 * last-activity stamp.  Both hand the request on to the rest of the stack, a function from
 * requests to responses, and return its response unchanged.
 */
module Middleware {
  import opened Wrappers
  import opened Text
  import opened Models
  import opened Store
  import opened Tags

  /** An incoming request: the session's account id when signed in, the path, the queued messages. */
  datatype Request = Request(user: Option<UserId>, path: string, messages: seq<string>)

  const TrialExpiredMessage := "Your trial has expired. Please upgrade to continue accessing premium features."

  /** Paths where the warning would only get in the way. */
  predicate ExemptPath(path: string) {
    StartsWith(path, "/admin/") || StartsWith(path, "/upgrade/") || StartsWith(path, "/logout/")
  }

  /** The condition of `TrialExpirationMiddleware`, evaluated left to right as the source does. */
  predicate ShowsTrialWarning(users: map<UserId, User>, req: Request, now: Time)
    requires req.user.Some? ==> req.user.value in users && users[req.user.value].HasTrialWindow()
  {
    && req.user.Some?
    && !users[req.user.value].isPaid
    && !IsTrialActive(users[req.user.value], now)
    && !ExemptPath(req.path)
  }

  /** The request `TrialExpirationMiddleware` hands on: a warning is queued exactly when the condition holds. */
  function TrialExpiration(users: map<UserId, User>, req: Request, now: Time): (fwd: Request)
    requires req.user.Some? ==> req.user.value in users && users[req.user.value].HasTrialWindow()
    ensures fwd.user == req.user && fwd.path == req.path
    ensures ShowsTrialWarning(users, req, now) ==> fwd.messages == req.messages + [TrialExpiredMessage]
    ensures !ShowsTrialWarning(users, req, now) ==> fwd.messages == req.messages
  {
    if ShowsTrialWarning(users, req, now) then req.(messages := req.messages + [TrialExpiredMessage]) else req
  }

  /**
   * `TrialExpirationMiddleware.__call__`: the warning is queued on the request, which is then handed
   * to the rest of the stack, `getResponse`; its response is returned unchanged.
   */
  method RunTrialExpiration<R>(users: map<UserId, User>, req: Request, now: Time, getResponse: Request -> R)
    returns (response: R, forwarded: Request)
    requires req.user.Some? ==> req.user.value in users && users[req.user.value].HasTrialWindow()
    ensures forwarded == TrialExpiration(users, req, now)
    ensures response == getResponse(forwarded)
  {
    forwarded := req;
    if ShowsTrialWarning(users, req, now) {
      forwarded := forwarded.(messages := forwarded.messages + [TrialExpiredMessage]);
    }
    response := getResponse(forwarded);
  }

  /**
   * The warning in terms of the account's fields: signed in, unpaid, trial end reached, and the
   * path outside the three exempt areas.  Paid accounts are never warned.
   */
  lemma TrialWarningIff(users: map<UserId, User>, req: Request, now: Time)
    requires req.user.Some? ==> req.user.value in users && users[req.user.value].HasTrialWindow()
    ensures ShowsTrialWarning(users, req, now) <==>
      && req.user.Some?
      && !users[req.user.value].isPaid
      && users[req.user.value].trialEnd.value <= now
      && !StartsWith(req.path, "/admin/") && !StartsWith(req.path, "/upgrade/") && !StartsWith(req.path, "/logout/")
    ensures req.user.Some? && users[req.user.value].isPaid ==> TrialExpiration(users, req, now) == req
  {
  }

  /** Outside the exempt paths, a signed-in account is warned exactly when its badge reads Expired. */
  lemma WarningMatchesBadge(users: map<UserId, User>, req: Request, now: Time)
    requires req.user.Some? && req.user.value in users && users[req.user.value].HasTrialWindow()
    requires !ExemptPath(req.path)
    ensures ShowsTrialWarning(users, req, now) <==> UserBadge(users[req.user.value], now) == Expired
  {
  }

  /** An exempt path is exempt whatever follows the prefix. */
  lemma ExemptPrefix(users: map<UserId, User>, user: Option<UserId>, rest: string, messages: seq<string>, now: Time)
    requires user.Some? ==> user.value in users && users[user.value].HasTrialWindow()
    ensures !ShowsTrialWarning(users, Request(user, "/upgrade/" + rest, messages), now)
    ensures !ShowsTrialWarning(users, Request(user, "/logout/" + rest, messages), now)
    ensures !ShowsTrialWarning(users, Request(user, "/admin/" + rest, messages), now)
  {
    assert ("/upgrade/" + rest)[..9] == "/upgrade/";
    assert ("/logout/" + rest)[..8] == "/logout/";
    assert ("/admin/" + rest)[..7] == "/admin/";
  }

  /**
   * `CourseProgressMiddleware`: a signed-in account's `last_login` becomes the request time, saved
   * with `update_fields=['last_login']`; nothing else is written, and nothing for anonymous requests.
   * The request is then handed to the rest of the stack, whose response is returned unchanged.
   */
  method CourseProgress<R>(lms: Lms, req: Request, now: Time, getResponse: Request -> R) returns (response: R)
    requires lms.Valid()
    requires req.user.Some? ==> req.user.value in lms.users
    modifies lms
    ensures response == getResponse(req)
    ensures lms.Valid()
    ensures req.user.None? ==> lms.users == old(lms.users)
    ensures req.user.Some? ==>
      lms.users == old(lms.users)[req.user.value := old(lms.users)[req.user.value].(lastLogin := Some(now))]
    ensures lms.answers == old(lms.answers) && lms.sectionDone == old(lms.sectionDone) && lms.roomDone == old(lms.roomDone)
    ensures lms.certificates == old(lms.certificates) && lms.enrollments == old(lms.enrollments)
    ensures lms.payments == old(lms.payments)
  {
    if req.user.Some? {
      var id := req.user.value;
      var account := lms.users[id].(lastLogin := Some(now));
      lms.SaveUser(id, account, now);
    }
    response := getResponse(req);
  }
}
