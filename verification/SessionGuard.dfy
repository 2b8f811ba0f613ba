/** The one decision every layout makes from the session state: src/lib/session-guard.ts. */
module SessionGuard {
  import opened Wrappers
  import opened Http
  import opened SessionValidation

  const LOGIN: string := "/login"
  const LOGIN_SESSION_EXPIRED: string := "/login?reason=session_expired"
  const NO_CREDENTIAL_REASONS: set<string> := {"signed_out", "no_credential", "missing_credential"}

  datatype Decision = Proceed(session: Body) | Redirect(to: string) | RenderUnavailable(state: SessionState)

  function DecideSessionGuard(state: SessionState): Decision {
    match state
    case Authenticated(session) => Proceed(session)
    case Unavailable(_, _, _, _, _) => RenderUnavailable(state)
    case Unauthenticated(_, reason) =>
      Redirect(if reason.Some? && reason.value in NO_CREDENTIAL_REASONS then LOGIN else LOGIN_SESSION_EXPIRED)
  }
  /** A session proceeds, an outage is rendered in place, and a refusal goes to the login page: the plain one exactly
      when it says that no credential was presented. */
  lemma DecisionIs(state: SessionState)
    ensures match state
      case Authenticated(session) => DecideSessionGuard(state) == Proceed(session)
      case Unavailable(_, _, _, _, _) => DecideSessionGuard(state) == RenderUnavailable(state)
      case Unauthenticated(_, reason) =>
        DecideSessionGuard(state)
        == Redirect(if reason == Some("signed_out") || reason == Some("no_credential")
                       || reason == Some("missing_credential")
                    then "/login" else "/login?reason=session_expired")
  {
  }
}
