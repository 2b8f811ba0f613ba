/** The export's session probe: the retry loop over opted-in validate reads through the boundary, then the guard.

    Each attempt is one call of the renewal protocol; the calls of one validation run among any others. */
module SessionOutage {
  import opened Wrappers
  import opened Http
  import opened BffProtocol
  import opened BffInvariant
  import BffCancellation
  import BffDecisions
  import BffOptIn
  import BffTheorems
  import V = SessionValidation
  import G = SessionGuard

  /** GET /api/v1/validate with the signed-out opt-in. */
  const PROBE: Request := VALIDATE.(optedIn := true)

  lemma ProbeIsOptedIn()
    ensures PROBE == RequestOf("/api/v1/validate", "GET", false, Some("200"))
  {
    BffDecisions.NestedReadIsValidate();
  }

  /** How a settled call looks to the loop; `readable` says whether the loop's own read of the body succeeds. */
  function ReplyOf(o: Outcome, readable: bool): V.Reply {
    match o
    case Returned(r, _) => V.Answer(r, readable)
    case Aborted => V.Rejected("AbortError")
    case NetworkError => V.Rejected("TypeError")
  }

  /** The body of a renewal's answer hangs on the renewal's own signal, not on the attempt's. */
  predicate RenewalBody(o: Outcome) {
    o.Returned? && o.source.FromRenewal?
  }

  /** An exchange of the loop plays a settled call; the body may or may not be read. */
  predicate Plays(ex: V.Exchange, o: Outcome) {
    (ex.reply == ReplyOf(o, true) || ex.reply == ReplyOf(o, false)) && (ex.signalled <==> !RenewalBody(o))
  }

  /** The attempts the loop makes are settled probes of one page. */
  ghost predicate Attempts(s: State, ids: seq<nat>, env: V.Env) {
    && |ids| == V.Validate(env).attempts
    && (forall i :: 0 <= i < |ids| ==>
          && ids[i] in s.calls && s.calls[ids[i]].req == PROBE && s.calls[ids[i]].pc.Done?
          && Plays(env.exchanges(i), s.calls[ids[i]].pc.outcome))
  }

  /** The last thing the boundary said to a settled read: the answer to the renewal it waited for, or to its
      resend, or to the probe. A call that was aborted or cut off has no last word. */
  function LastWord(s: State, call: Call): Option<Response> {
    if !call.pc.Done? || !call.pc.outcome.Returned? || call.log == [] then None
    else
      match call.log[|call.log| - 1]
      case Renewal(k, _) =>
        if k < |s.renewals| && s.renewals[k].result.Answered? then Some(s.renewals[k].result.response) else None
      case _ => if call.answers == [] then None else Some(call.answers[|call.answers| - 1])
  }

  /** A judgement about the credential: a refusal below 500 other than 429, or "signed out". */
  predicate Judgement(r: Response) {
    if r.Ok() then r.body.Json? && r.body.signedOut else r.status < 500 && r.status != 429
  }

  lemma ProbeReturnsItsLastWord(s: State, c: nat, call: Call)
    requires RenewalsOk(s) && CallOk(s, c, call) && call.req == PROBE
    requires call.pc.Done? && call.pc.outcome.Returned?
    ensures LastWord(s, call) == Some(call.pc.outcome.response)
  {
    assert AnswerOk(s, c, Main, call.log, call.answers, true, call.pc.outcome);
  }

  /** What attempt i came to: its call's outcome, read or not, or a timeout. */
  lemma AttemptPlays(s: State, ids: seq<nat>, env: V.Env, i: nat)
    requires Inv(s) && Attempts(s, ids, env) && i < |ids|
    ensures var call := s.calls[ids[i]];
      var reply := V.Attempted(env, i);
      && (reply.Rejected? || reply == ReplyOf(call.pc.outcome, reply.readable))
      && (reply.Answer? ==> LastWord(s, call) == Some(reply.response))
      && (LastWord(s, call).None? ==> reply.Rejected?)
  {
    var call := s.calls[ids[i]];
    assert CallOk(s, ids[i], call);
    if call.pc.outcome.Returned? {
      ProbeReturnsItsLastWord(s, ids[i], call);
    }
  }

  /** A redirect to the login page is the final attempt's last word, and that word judged the credential: an
      outage is never a sign-out, even when the probe itself was refused and only the renewal failed. */
  lemma RedirectIsAJudgement(acts: seq<Action>, ids: seq<nat>, env: V.Env)
    requires Attempts(Run(INITIAL, acts), ids, env)
    requires G.DecideSessionGuard(V.Validate(env).state).Redirect?
    ensures 1 <= |ids| <= 7
    ensures var s := Run(INITIAL, acts);
      var word := LastWord(s, s.calls[ids[|ids| - 1]]);
      && word.Some? && word.value.status < 500 && word.value.status != 429
      && (200 <= word.value.status <= 299 ==> word.value.body.Json? && word.value.body.signedOut)
  {
    V.OneToSevenAttempts(env);
    V.FirstVerdictDecides(env, |ids| - 1);
    BffTheorems.ReachableInv(acts);
    AttemptPlays(Run(INITIAL, acts), ids, env, |ids| - 1);
  }

  /** If the last word of the final attempt is an outage, or there is none, the page renders "unavailable" in place. */
  lemma OutageIsNeverASignOut(acts: seq<Action>, ids: seq<nat>, env: V.Env)
    requires Attempts(Run(INITIAL, acts), ids, env) && ids != []
    requires var s := Run(INITIAL, acts);
      var word := LastWord(s, s.calls[ids[|ids| - 1]]);
      word.Some? ==> word.value.Outage()
    ensures G.DecideSessionGuard(V.Validate(env).state).RenderUnavailable?
  {
    V.FirstVerdictDecides(env, |ids| - 1);
    BffTheorems.ReachableInv(acts);
    AttemptPlays(Run(INITIAL, acts), ids, env, |ids| - 1);
  }

  /** A last word that is delivered in its attempt's time decides: a judgement redirects and an ok answer proceeds with
      its session, both at once; an outage, or none, renders "unavailable" if the attempt is the final one. */
  lemma DeliveredWordDecides(acts: seq<Action>, ids: seq<nat>, env: V.Env, i: nat)
    requires Attempts(Run(INITIAL, acts), ids, env) && i < |ids|
    requires V.Attempted(env, i) == ReplyOf(Run(INITIAL, acts).calls[ids[i]].pc.outcome, true)
    ensures var word := LastWord(Run(INITIAL, acts), Run(INITIAL, acts).calls[ids[i]]);
      var decision := G.DecideSessionGuard(V.Validate(env).state);
      if word.Some? && Judgement(word.value) then |ids| == i + 1 && decision.Redirect?
      else if word.Some? && word.value.Ok() then |ids| == i + 1 && decision == G.Proceed(word.value.body)
      else |ids| == i + 1 ==> decision.RenderUnavailable?
  {
    V.FirstVerdictDecides(env, i);
    BffTheorems.ReachableInv(acts);
    AttemptPlays(Run(INITIAL, acts), ids, env, i);
  }

  // ---------------------------------------------------------------- how long

  /** The renewal's own timeout. */
  const REFRESH_TIMEOUT_MS: nat := 6000

  /** With timers up to d ms late, the export's validation ends within the cap plus d, unless the final attempt returns
      the answer of a renewal whose body is not complete by the attempt's deadline: that may run until the renewal's
      own timeout. */
  lemma ExportInTime(acts: seq<Action>, ids: seq<nat>, env: V.Env, d: nat)
    requires Attempts(Run(INITIAL, acts), ids, env) && ids != [] && V.LateByAtMost(env, d)
    requires var o := Run(INITIAL, acts).calls[ids[|ids| - 1]].pc.outcome;
      RenewalBody(o) ==> env.exchanges(|ids| - 1).body <= REFRESH_TIMEOUT_MS + d
    ensures var o, ex := Run(INITIAL, acts).calls[ids[|ids| - 1]].pc.outcome, env.exchanges(|ids| - 1);
      (RenewalBody(o) ==> ex.took + ex.body <= V.Deadline(ex, V.AttemptMs(env, |ids| - 1))) ==>
        V.Validate(env).elapsed <= V.TOTAL_CAP_MS + d
    ensures V.Validate(env).elapsed
            <= V.TOTAL_CAP_MS + d
               + if RenewalBody(Run(INITIAL, acts).calls[ids[|ids| - 1]].pc.outcome) then REFRESH_TIMEOUT_MS + d else 0
  {
    V.ValidationInTime(env, d);
    V.ExcessIsTheBody(env.exchanges(|ids| - 1), V.AttemptMs(env, |ids| - 1));
  }

  const OVERLOADED: Response := Response(503, NoJson, None, None)

  /** A probe is refused at 3.9 s; the renewal's 503 begins just before the attempt's deadline, and its body stalls
      until the renewal's own timeout. */
  const STALLED_RENEWAL: seq<Action> :=
    [Invoke(0, PROBE), Begin(0), Answer(0, BffTheorems.DEAD_TOKEN), Classify(0, true), Settle(Answered(OVERLOADED)),
     Wake(0), ReadRefusal(0, true)]

  function StalledEnv(): V.Env {
    V.Env(0, (i: nat) => V.Exchange(V.Answer(OVERLOADED, true), 3999, 5901, false, 0, 0), (s: string) => None)
  }

  /** The cap is exceeded by no timer at all, by a reachable renewal whose body no signal of the attempt cuts off. */
  lemma StalledRenewalOverruns()
    ensures Attempts(Run(INITIAL, STALLED_RENEWAL), [0], StalledEnv()) && V.LateByAtMost(StalledEnv(), 0)
    ensures V.Validate(StalledEnv()).elapsed == 9900
  {
    var a := STALLED_RENEWAL;
    var s1 := Step(INITIAL, a[0]);
    var s2 := Step(s1, a[1]);
    var s3 := Step(s2, a[2]);
    var s4 := Step(s3, a[3]);
    var s5 := Step(s4, a[4]);
    var s6 := Step(s5, a[5]);
    var s7 := Step(s6, a[6]);
    assert s3.calls[0].pc == ReadingAnswer(0, BffTheorems.DEAD_TOKEN);
    assert s4.calls[0].pc == AwaitRenewal(0, 0);
    assert s6.calls[0].pc == ReadingRefusal(0, OVERLOADED);
    assert s7.calls[0].pc == Done(Returned(OVERLOADED, FromRenewal(0)));
    assert a[1..][1..] == a[2..] && a[2..][1..] == a[3..];
    assert Run(s2, a[2..]) == Run(s3, a[3..]);
    assert Run(s3, a[3..]) == s7 by {
      BffCancellation.RunFour(s3, a[3], a[4], a[5], a[6]);
      assert a[3..] == [a[3], a[4], a[5], a[6]];
    }
    assert Run(s1, a[1..]) == s7;
    assert Run(INITIAL, a) == s7;
    StalledTiming();
  }

  lemma StalledTiming()
    ensures V.Validate(StalledEnv()).elapsed == 9900 && V.Validate(StalledEnv()).attempts == 1
  {
    V.PlannedWait(1, None, -1900);
    assert V.PlayRound(StalledEnv(), 0, 0).Ends?;
  }

  /** Where a redirect leads: the plain login page exactly when the reply is a 2xx, or its body was read and the first
      of its reason and error that is not empty says that no credential was presented. */
  lemma PlainLoginMeansNoCredential(r: Response, readable: bool)
    requires V.Verdict(V.Answer(r, readable)).Some?
    requires G.DecideSessionGuard(V.Verdict(V.Answer(r, readable)).value).Redirect?
    ensures G.DecideSessionGuard(V.Verdict(V.Answer(r, readable)).value) == G.Redirect("/login") <==>
            || 200 <= r.status <= 299
            || (&& readable && r.body.Json?
                && (|| NoCredential(r.body.reason)
                    || ((r.body.reason == None || r.body.reason == Some("")) && NoCredential(r.body.error))))
  {
    assert "/login" != "/login?reason=session_expired" by {
      assert |"/login"| != |"/login?reason=session_expired"|;
    }
  }

  predicate NoCredential(named: Option<string>) {
    named == Some("signed_out") || named == Some("no_credential") || named == Some("missing_credential")
  }

  // ---------------------------------------------------------------- opted in or not

  /** A signed-out probe whose body is not read. */
  const UNREAD_SIGN_OUT: seq<Action> :=
    [Invoke(0, PROBE), Begin(0), Answer(0, BffTheorems.SIGNED_OUT), Classify(0, false)]

  /** One attempt whose body stalls: the read of its clone fails when the attempt's signal fires, and so does the loop's
      own read after that. */
  function CutOff(o: Outcome): V.Env {
    V.Env(0, (i: nat) => V.Exchange(ReplyOf(o, true), 4000, 1, true, 0, 0), (s: string) => None)
  }

  lemma CutOffVerdict(o: Outcome)
    requires V.Verdict(ReplyOf(o, false)).Some?
    ensures V.Validate(CutOff(o)).state == V.Verdict(ReplyOf(o, false)).value
    ensures V.Validate(CutOff(o)).attempts == 1 && V.Validate(CutOff(o)).elapsed == 4000
  {
    var env := CutOff(o);
    assert V.TimeoutMs(V.TOTAL_CAP_MS) == 4000;
    assert V.Settled(env.exchanges(0), 4000) == ReplyOf(o, false) && V.Took(env.exchanges(0), 4000) == 4000;
    assert V.PlayRound(env, 0, 0) == V.Ends(V.Report(V.Verdict(ReplyOf(o, false)).value, 1, 4000));
  }

  lemma UnoptedFour(s: State, a: Action, b: Action, d: Action, e: Action)
    ensures var s1 := Step(s, a); var s2 := Step(s1, b); var s3 := Step(s2, d);
      BffOptIn.UnoptedRun(s, [a, b, d, e])
      == [BffOptIn.UnoptedAction(s, a), BffOptIn.UnoptedAction(s1, b), BffOptIn.UnoptedAction(s2, d),
          BffOptIn.UnoptedAction(s3, e)]
  {
    var s1 := Step(s, a);
    var s2 := Step(s1, b);
    var s3 := Step(s2, d);
    assert [a, b, d, e][1..] == [b, d, e] && [b, d, e][1..] == [d, e] && [d, e][1..] == [e] && [e][1..] == [];
    assert BffOptIn.UnoptedRun(s3, [e]) == [BffOptIn.UnoptedAction(s3, e)];
    assert BffOptIn.UnoptedRun(s2, [d, e]) == [BffOptIn.UnoptedAction(s2, d), BffOptIn.UnoptedAction(s3, e)];
    assert BffOptIn.UnoptedRun(s1, [b, d, e])
        == [BffOptIn.UnoptedAction(s1, b), BffOptIn.UnoptedAction(s2, d), BffOptIn.UnoptedAction(s3, e)];
  }

  const SIGNED_OUT_OUTCOME: Outcome := Returned(BffTheorems.SIGNED_OUT, FromProbe)
  const UNOPTED_OUTCOME: Outcome := Returned(BffOptIn.Unopted(BffTheorems.SIGNED_OUT), FromProbe)

  lemma UnreadSignOutRun(s: State)
    requires s == Run(INITIAL, UNREAD_SIGN_OUT)
    ensures 0 in s.calls && s.calls[0].req == PROBE && s.calls[0].pc == Done(SIGNED_OUT_OUTCOME)
  {
    var a := UNREAD_SIGN_OUT;
    BffCancellation.RunFour(INITIAL, a[0], a[1], a[2], a[3]);
    var s2 := Step(Step(INITIAL, a[0]), a[1]);
    assert s2.calls[0].pc == AwaitFirst(0);
    assert Step(s2, a[2]).calls[0].pc == ReadingAnswer(0, BffTheorems.SIGNED_OUT);
  }

  lemma UnoptedSignOutRun(u: State)
    requires u == Run(INITIAL, BffOptIn.UnoptedRun(INITIAL, UNREAD_SIGN_OUT))
    ensures 0 in u.calls && u.calls[0].pc == Done(UNOPTED_OUTCOME)
  {
    var a := UNREAD_SIGN_OUT;
    var b := [Invoke(0, VALIDATE), a[1], Answer(0, UNOPTED_OUTCOME.response), a[3]];
    assert PROBE.(optedIn := false) == VALIDATE;
    UnoptedFour(INITIAL, a[0], a[1], a[2], a[3]);
    assert BffOptIn.UnoptedRun(INITIAL, a) == b;
    BffCancellation.RunFour(INITIAL, b[0], b[1], b[2], b[3]);
    var u2 := Step(Step(INITIAL, b[0]), b[1]);
    assert u2.calls[0].pc == AwaitFirst(0);
    assert Step(u2, b[2]).calls[0].pc == ReadingAnswer(0, UNOPTED_OUTCOME.response);
  }

  /** Where the kinds part: a signed-out 200 cut off by the timeout passes for a session, while the same page not opted
      in is sent to the login page. */
  lemma UnreadSignOutIsASession()
    ensures var s, u := Run(INITIAL, UNREAD_SIGN_OUT), Run(INITIAL, BffOptIn.UnoptedRun(INITIAL, UNREAD_SIGN_OUT));
      && 0 in s.calls && s.calls[0].pc.Done? && 0 in u.calls && u.calls[0].pc.Done?
      && var o, p := s.calls[0].pc.outcome, u.calls[0].pc.outcome;
         && BffOptIn.PairedOutcome(o, p) && o != p
         && Attempts(s, [0], CutOff(o))
         && G.DecideSessionGuard(V.Validate(CutOff(o)).state) == G.Proceed(NoJson)
         && G.DecideSessionGuard(V.Validate(CutOff(p)).state) == G.Redirect(G.LOGIN_SESSION_EXPIRED)
  {
    UnreadSignOutRun(Run(INITIAL, UNREAD_SIGN_OUT));
    UnoptedSignOutRun(Run(INITIAL, BffOptIn.UnoptedRun(INITIAL, UNREAD_SIGN_OUT)));
    CutOffVerdict(SIGNED_OUT_OUTCOME);
    CutOffVerdict(UNOPTED_OUTCOME);
  }

  /** Two exchanges of equal timing that play two outcomes, the body of both read, or of neither. */
  predicate PlayBoth(x: V.Exchange, y: V.Exchange, o: Outcome, p: Outcome) {
    && x.(reply := y.reply) == y
    && (|| (x.reply == ReplyOf(o, true) && y.reply == ReplyOf(p, true))
        || (x.reply == ReplyOf(o, false) && y.reply == ReplyOf(p, false)))
  }

  lemma PairedIsReworded(x: V.Exchange, y: V.Exchange, o: Outcome, p: Outcome)
    requires PlayBoth(x, y, o, p) && BffOptIn.PairedOutcome(o, p)
    ensures V.SameExchange(x, y)
  {
  }

  /** For one attempt: the kinds of what it came to agree exactly when it was worded alike, ended without an answer, or
      had its body read. */
  lemma AttemptSameKindIff(x: V.Exchange, y: V.Exchange, o: Outcome, p: Outcome, timeoutMs: int)
    requires PlayBoth(x, y, o, p) && BffOptIn.PairedOutcome(o, p)
    ensures var reply := V.Settled(x, timeoutMs);
      V.SameReply(reply, V.Settled(y, timeoutMs)) <==> x.reply == y.reply || reply.Rejected? || reply.readable
  {
  }

  /** The first |ids| exchanges of two loops play the same settled calls of two pages. */
  ghost predicate PlayAll(s: State, u: State, ids: seq<nat>, env: V.Env, other: V.Env) {
    && env.startedAt == other.startedAt && env.dateOf == other.dateOf
    && forall i: nat :: i < |ids| ==>
         && ids[i] in s.calls && ids[i] in u.calls && s.calls[ids[i]].pc.Done? && u.calls[ids[i]].pc.Done?
         && PlayBoth(env.exchanges(i), other.exchanges(i), s.calls[ids[i]].pc.outcome, u.calls[ids[i]].pc.outcome)
  }

  lemma PairedAreTwins(s: State, u: State, ids: seq<nat>, env: V.Env, other: V.Env)
    requires BffOptIn.Paired(s, u) && PlayAll(s, u, ids, env, other)
    ensures V.Twins(env, other, |ids|)
  {
    forall i: nat | i < |ids|
      ensures V.SameExchange(env.exchanges(i), other.exchanges(i))
    {
      assert BffOptIn.PairedCall(s.calls[ids[i]], u.calls[ids[i]]);
      PairedIsReworded(env.exchanges(i), other.exchanges(i),
                       s.calls[ids[i]].pc.outcome, u.calls[ids[i]].pc.outcome);
    }
  }

  lemma PairedAttempt(s: State, u: State, ids: seq<nat>, env: V.Env, other: V.Env, i: nat, timeoutMs: int)
    requires BffOptIn.Paired(s, u) && PlayAll(s, u, ids, env, other) && i < |ids|
    ensures var reply := V.Settled(env.exchanges(i), timeoutMs);
      V.SameReply(reply, V.Settled(other.exchanges(i), timeoutMs)) <==>
      env.exchanges(i).reply == other.exchanges(i).reply || reply.Rejected? || reply.readable
  {
    assert BffOptIn.PairedCall(s.calls[ids[i]], u.calls[ids[i]]);
    AttemptSameKindIff(env.exchanges(i), other.exchanges(i),
                       s.calls[ids[i]].pc.outcome, u.calls[ids[i]].pc.outcome, timeoutMs);
  }

  /** The exact condition. A validation over opted-in probes and one over the same probes not opted in, of paired runs
      with equal timings, make as many attempts and take as long, and give the same kind of session state if and only
      if the final attempt was worded alike, ended without an answer, or had its body read. */
  lemma OptInKeepsTheVerdict(acts: seq<Action>, ids: seq<nat>, env: V.Env, other: V.Env)
    requires PlayAll(Run(INITIAL, acts), Run(INITIAL, BffOptIn.UnoptedRun(INITIAL, acts)), ids, env, other)
    requires |ids| == V.Validate(env).attempts
    ensures |ids| > 0
    ensures var a, b := V.Validate(env), V.Validate(other);
      var n := |ids| - 1;
      && a.attempts == b.attempts && a.elapsed == b.elapsed
      && (V.SameKind(a.state, b.state) <==>
            || env.exchanges(n).reply == other.exchanges(n).reply
            || V.Attempted(env, n).Rejected? || V.Attempted(env, n).readable)
  {
    var s, u := Run(INITIAL, acts), Run(INITIAL, BffOptIn.UnoptedRun(INITIAL, acts));
    BffOptIn.OptInKeepsRequests(INITIAL, INITIAL, acts);
    PairedAreTwins(s, u, ids, env, other);
    V.ValidateSameKind(env, other);
    PairedAttempt(s, u, ids, env, other, |ids| - 1, V.AttemptMs(env, |ids| - 1));
  }
}
