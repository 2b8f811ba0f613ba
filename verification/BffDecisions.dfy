/** What each step decides, in every run, in the wire's own terms: statuses, reasons and paths written out. */
module BffDecisions {
  import opened Wrappers
  import opened Http
  import opened BffProtocol
  import opened BffInvariant
  import opened BffTheorems

  /** The running invocation settles with o: the call is done with it, unless it was a nested validate answered 2xx,
      after which the mutation is still to be sent. */
  predicate Settles(call: Call, after: Call, o: Outcome) {
    && after.req == call.req && after.log == call.log && after.aborted == call.aborted
    && if call.stage == Confirming && o.Returned? && 200 <= o.response.status <= 299 then
         after.stage == Main && after.pc == Idle && after.confirmed == Some(o)
       else after.pc == Done(o) && after.stage == call.stage
  }

  /** The same page but for one call. */
  predicate OnlyCall(s: State, t: State, c: nat, call: Call) {
    && t == State(s.calls[c := call], s.refreshInFlight, s.refreshEpoch, s.renewals)
  }

  /** One more event on the call's record, and the call suspended anew. */
  predicate Goes(call: Call, after: Call, e: Event, pc: Pc) {
    after == call.(log := call.log + [e], pc := pc)
  }

  // ---------------------------------------------------------------- what is asked

  /** A call confirms first exactly when it is a protected mutation. */
  lemma ConfirmsFirstIff(path: string, method_: string, bearer: bool, loginStep: Option<string>)
    ensures var call := NewCall(RequestOf(path, method_, bearer, loginStep));
      && call.pc == Idle && !call.aborted && call.log == [] && call.answers == [] && call.confirmed == None
      && (call.stage == Confirming <==>
            && method_ != "GET" && method_ != "HEAD" && "/api/v1/" <= path && !bearer
            && path != "/api/v1/auth/login" && !("/api/v1/auth/login/" <= path)
            && path != "/api/v1/auth/organization-lookup")
      && (call.req.optedIn <==> loginStep == Some("200"))
  {
  }

  /** The nested read is GET /api/v1/validate, not opted in. */
  lemma NestedReadIsValidate()
    ensures VALIDATE == RequestOf("/api/v1/validate", "GET", false, None)
  {
    assert "/api/v1/validate"[..8] == "/api/v1/";
    assert "/api/v1/validate"[..] != "/api/v1/auth/login";
    assert "/api/v1/validate"[8] != "/api/v1/auth/login/"[8];
    assert "/api/v1/validate"[8] != "/api/v1/auth/organization-lookup"[8];
  }

  /** A live call sends with the epoch of that moment; a cancelled one sends nothing. */
  lemma BeginDecides(acts: seq<Action>, c: nat)
    requires c in Run(INITIAL, acts).calls && Run(INITIAL, acts).calls[c].pc.Idle?
    ensures var s := Run(INITIAL, acts);
      var t, call := Step(s, Begin(c)), s.calls[c];
      && c in t.calls && OnlyCall(s, t, c, t.calls[c])
      && if call.aborted then t.calls[c] == call.(pc := Done(Aborted))
         else Goes(call, t.calls[c], Sent(call.stage, s.refreshEpoch), AwaitFirst(s.refreshEpoch))
  {
  }

  // ---------------------------------------------------------------- what an answer means

  /** The answer to a resend is the invocation's; so is the first answer to a call that is no read of the API without
      its own bearer; any other first answer is read. */
  lemma AnswerDecides(acts: seq<Action>, c: nat, r: Response)
    requires c in Run(INITIAL, acts).calls
    requires Run(INITIAL, acts).calls[c].pc.AwaitFirst? || Run(INITIAL, acts).calls[c].pc.AwaitRetry?
    ensures var s := Run(INITIAL, acts);
      var t, call := Step(s, Answer(c, r)), s.calls[c];
      && c in t.calls && OnlyCall(s, t, c, t.calls[c]) && t.calls[c].answers == call.answers + [r]
      && if call.pc.AwaitRetry? then Settles(call, t.calls[c], Returned(r, FromRetry))
         else if call.stage == Main && (!call.req.readOnly || !call.req.api || call.req.explicitBearer) then
           Settles(call, t.calls[c], Returned(r, FromProbe))
         else t.calls[c].pc == ReadingAnswer(call.pc.epoch, r) && t.calls[c].log == call.log
  {
  }

  /** The answer names a dead or missing credential: to an opted-in read a 200 whose body was read as signed out, to
      any read a 401 whose body was read and gives one of three reasons. */
  predicate NamesDeadCredential(optedIn: bool, r: Response, readable: bool) {
    || (optedIn && r.status == 200 && readable && r.body.Json? && r.body.signedOut)
    || (r.status == 401 && readable && r.body.Json? &&
        (|| r.body.reason == Some("missing_credential") || r.body.reason == Some("no_credential")
         || r.body.reason == Some("token_invalid")))
  }

  lemma RenewableIff(optedIn: bool, r: Response, readable: bool)
    ensures Renewable(optedIn, r, readable) <==> NamesDeadCredential(optedIn, r, readable)
  {
  }

  /** The whole decision on a read answer, in every run. Only an answer that names a dead credential is not returned.
      Then a cancelled call ends; a call whose epoch is past resends, and starts nothing; any other joins the renewal in
      flight or starts the only one. */
  lemma ClassifyDecides(acts: seq<Action>, c: nat, readable: bool)
    requires c in Run(INITIAL, acts).calls && Run(INITIAL, acts).calls[c].pc.ReadingAnswer?
    ensures var s := Run(INITIAL, acts);
      var t, call := Step(s, Classify(c, readable)), s.calls[c];
      var epoch, r := call.pc.epoch, call.pc.answer;
      && c in t.calls && epoch <= s.refreshEpoch
      && if !NamesDeadCredential(call.stage == Main && call.req.optedIn, r, readable) then
           OnlyCall(s, t, c, t.calls[c]) && Settles(call, t.calls[c], Returned(r, FromProbe))
         else if call.aborted then OnlyCall(s, t, c, t.calls[c]) && Settles(call, t.calls[c], Aborted)
         else if epoch < s.refreshEpoch then
           OnlyCall(s, t, c, t.calls[c]) && Goes(call, t.calls[c], Resent(epoch, s.refreshEpoch), AwaitRetry)
         else
           && t.refreshEpoch == s.refreshEpoch && t.refreshInFlight.Some?
           && var k := t.refreshInFlight.value;
              && Goes(call, t.calls[c], Renewal(k, s.refreshInFlight.None?), AwaitRenewal(epoch, k))
              && (s.refreshInFlight.Some? ==> s.refreshInFlight == Some(k) && t.renewals == s.renewals)
              && (s.refreshInFlight.None? ==> t.renewals == s.renewals + [RenewalRecord(epoch, c, Pending)])
  {
    var s := Run(INITIAL, acts);
    var call := s.calls[c];
    ReachableInv(acts);
    assert CallOk(s, c, call);
    RenewableIff(call.Active().optedIn, call.pc.answer, readable);
  }

  // ---------------------------------------------------------------- what a renewal means

  /** A renewal settles once: a 204 moves the epoch by one, anything else leaves it, and the slot is free again. */
  lemma SettleDecides(acts: seq<Action>, result: Settlement)
    requires Run(INITIAL, acts).refreshInFlight.Some? && !result.Pending?
    ensures var s := Run(INITIAL, acts);
      var t, k := Step(s, Settle(result)), s.refreshInFlight.value;
      && t.calls == s.calls && t.refreshInFlight == None && k == |s.renewals| - 1
      && t.renewals == s.renewals[..k] + [RenewalRecord(s.renewals[k].epoch, s.renewals[k].starter, result)]
      && t.refreshEpoch == s.refreshEpoch + (if result.Answered? && result.response.status == 204 then 1 else 0)
  {
    ReachableInv(acts);
  }

  /** In every run a waiter whose renewal was answered 204 resends its read, once, in a strictly newer epoch; any other
      answer is read as the refusal it is, and a failure is the call's own. */
  lemma WakeDecides(acts: seq<Action>, c: nat)
    requires c in Run(INITIAL, acts).calls && Run(INITIAL, acts).calls[c].pc.AwaitRenewal?
    ensures var s := Run(INITIAL, acts);
      var t, call := Step(s, Wake(c)), s.calls[c];
      var k := call.pc.renewal;
      && k < |s.renewals| && c in t.calls && OnlyCall(s, t, c, t.calls[c])
      && match s.renewals[k].result
         case Pending => t.calls[c] == call
         case Failed => Settles(call, t.calls[c], NetworkError)
         case Answered(p) =>
           if p.status == 204 then
             && call.pc.epoch < s.refreshEpoch
             && Goes(call, t.calls[c], Resent(call.pc.epoch, s.refreshEpoch), AwaitRetry)
           else t.calls[c] == call.(pc := ReadingRefusal(k, p))
  {
    var s := Run(INITIAL, acts);
    var call := s.calls[c];
    ReachableInv(acts);
    assert CallOk(s, c, call);
    if s.renewals[call.pc.renewal].Succeeded() {
      SuccessMovesEpoch(s, call.pc.renewal);
    }
  }

  /** A refusal is returned as it is, but for a signed-out 200 that was read by a caller that did not opt in: that is a
      401 missing_refresh_credential. */
  lemma RefusalDecides(acts: seq<Action>, c: nat, readable: bool)
    requires c in Run(INITIAL, acts).calls && Run(INITIAL, acts).calls[c].pc.ReadingRefusal?
    ensures var s := Run(INITIAL, acts);
      var t, call := Step(s, ReadRefusal(c, readable)), s.calls[c];
      var p, from := call.pc.refusal, FromRenewal(call.pc.renewal);
      && c in t.calls && OnlyCall(s, t, c, t.calls[c])
      && var readAsSignedOut := readable && p.status == 200 && p.body.Json? && p.body.signedOut;
         if (call.stage == Main && call.req.optedIn) || !readAsSignedOut then
           Settles(call, t.calls[c], Returned(p, from))
         else
           var hidden := Response(401, Json(false, Some("missing_refresh_credential"), None, None), None, None);
           Settles(call, t.calls[c], Returned(hidden, from))
  {
  }

  // ---------------------------------------------------------------- how a call can end without an answer

  /** The action drops a fetch of call c, or tells it that its renewal failed. */
  predicate Fails(s: State, a: Action, c: nat) {
    && c in s.calls
    && (|| (a == Drop(c) && (s.calls[c].pc.AwaitFirst? || s.calls[c].pc.AwaitRetry?))
        || (&& a == Wake(c) && s.calls[c].pc.AwaitRenewal? && s.calls[c].pc.renewal < |s.renewals|
            && s.renewals[s.calls[c].pc.renewal].result == Failed))
  }

  /** The action cancels call c while it waits, or finds it cancelled before a send or a renewal. */
  predicate Cancels(s: State, a: Action, c: nat) {
    && c in s.calls
    && (|| (&& a == Abort(c)
            && (s.calls[c].pc.AwaitFirst? || s.calls[c].pc.AwaitRetry? || s.calls[c].pc.AwaitRenewal?))
        || (a == Begin(c) && s.calls[c].pc.Idle? && s.calls[c].aborted)
        || (&& a.Classify? && a.c == c && s.calls[c].pc.ReadingAnswer? && s.calls[c].aborted
            && NamesDeadCredential(
                 s.calls[c].stage == Main && s.calls[c].req.optedIn, s.calls[c].pc.answer, a.readable)))
  }

  predicate FailedBy(s: State, acts: seq<Action>, c: nat)
    decreases |acts|
  {
    acts != [] && (Fails(s, acts[0], c) || FailedBy(Step(s, acts[0]), acts[1..], c))
  }

  predicate CancelledBy(s: State, acts: seq<Action>, c: nat)
    decreases |acts|
  {
    acts != [] && (Cancels(s, acts[0], c) || CancelledBy(Step(s, acts[0]), acts[1..], c))
  }

  predicate EndsWith(s: State, c: nat, o: Outcome) {
    c in s.calls && s.calls[c].pc == Done(o)
  }

  lemma OwnStepEnds(s: State, a: Action, c: nat)
    requires !a.Settle? && a.c == c && c in s.calls
    ensures EndsWith(Step(s, a), c, NetworkError) <==> EndsWith(s, c, NetworkError) || Fails(s, a, c)
    ensures EndsWith(Step(s, a), c, Aborted) <==> EndsWith(s, c, Aborted) || Cancels(s, a, c)
  {
    if a.Classify? && s.calls[c].pc.ReadingAnswer? {
      RenewableIff(s.calls[c].Active().optedIn, s.calls[c].pc.answer, a.readable);
    }
  }

  lemma StepEnds(s: State, a: Action, c: nat)
    ensures EndsWith(Step(s, a), c, NetworkError) <==> EndsWith(s, c, NetworkError) || Fails(s, a, c)
    ensures EndsWith(Step(s, a), c, Aborted) <==> EndsWith(s, c, Aborted) || Cancels(s, a, c)
  {
    if a.Settle? || a.c != c {
      OthersLeaveCall(s, a, c);
    } else if c in s.calls {
      OwnStepEnds(s, a, c);
    }
  }

  lemma {:induction false} RunEnds(s: State, acts: seq<Action>, c: nat)
    ensures EndsWith(Run(s, acts), c, NetworkError) <==> EndsWith(s, c, NetworkError) || FailedBy(s, acts, c)
    ensures EndsWith(Run(s, acts), c, Aborted) <==> EndsWith(s, c, Aborted) || CancelledBy(s, acts, c)
    decreases |acts|
  {
    if acts != [] {
      StepEnds(s, acts[0], c);
      RunEnds(Step(s, acts[0]), acts[1..], c);
    }
  }

  /** In every run a call fails if and only if one of its fetches was dropped or the renewal it waited for failed, and
      is cancelled if and only if its own signal aborted it, while it waited or before it went on. */
  lemma FailureIsItsOwn(acts: seq<Action>, c: nat)
    ensures EndsWith(Run(INITIAL, acts), c, NetworkError) <==> FailedBy(INITIAL, acts, c)
    ensures EndsWith(Run(INITIAL, acts), c, Aborted) <==> CancelledBy(INITIAL, acts, c)
  {
    RunEnds(INITIAL, acts, c);
  }
}
