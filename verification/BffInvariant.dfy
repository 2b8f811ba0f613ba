/** What every step of the renewal protocol keeps. */
module BffInvariant {
  import opened Wrappers
  import opened Http
  import opened BffProtocol

  /** The number of renewals answered 204. */
  function Successes(rs: seq<RenewalRecord>): nat {
    if rs == [] then 0
    else Successes(rs[..|rs| - 1]) + (if rs[|rs| - 1].Succeeded() then 1 else 0)
  }

  /** The shared variables: the epoch counts the 204s, each renewal started in the epoch that counts the
      204s before it, and only the newest renewal can be pending. */
  ghost predicate RenewalsOk(s: State) {
    && s.refreshEpoch == Successes(s.renewals)
    && (forall j :: 0 <= j < |s.renewals| ==> s.renewals[j].epoch == Successes(s.renewals[..j]))
    && (s.refreshInFlight.Some? ==> s.refreshInFlight.value == |s.renewals| - 1)
    && (forall j :: 0 <= j < |s.renewals| ==>
          (s.renewals[j].result.Pending? <==> s.refreshInFlight == Some(j)))
  }

  /** The first send of a read, with the epoch it captured. */
  predicate LogSent(s: State, stage: Stage, l: seq<Event>) {
    |l| == 1 && l[0].Sent? && l[0].stage == stage && l[0].epoch <= s.refreshEpoch
  }

  /** Then one renewal, of the very epoch the read captured; started by this call or joined. */
  predicate LogRenewed(s: State, c: nat, stage: Stage, l: seq<Event>) {
    && |l| == 2 && l[0].Sent? && l[0].stage == stage && l[1].Renewal?
    && l[1].id < |s.renewals|
    && s.renewals[l[1].id].epoch == l[0].epoch
    && (l[1].started ==> s.renewals[l[1].id].starter == c)
  }

  /** Then one resend, in a strictly newer epoch; without a renewal of its own if another call renewed. */
  predicate LogResent(s: State, c: nat, stage: Stage, l: seq<Event>) {
    && (|l| == 2 || |l| == 3)
    && l[0].Sent? && l[0].stage == stage
    && l[|l| - 1].Resent? && l[|l| - 1].captured == l[0].epoch < l[|l| - 1].now <= s.refreshEpoch
    && (|l| == 3 ==> LogRenewed(s, c, stage, l[..2]) && s.renewals[l[1].id].Succeeded())
  }

  predicate ReadLog(s: State, c: nat, stage: Stage, l: seq<Event>) {
    l == [] || LogSent(s, stage, l) || LogRenewed(s, c, stage, l) || LogResent(s, c, stage, l)
  }

  /** The one answer heard before a renewal; a nested validate only renews after a 401. */
  predicate Refused(stage: Stage, answers: seq<Response>) {
    |answers| == 1 && (stage == Confirming ==> answers[0].status == 401)
  }

  /** Where a read's returned answer came from: the first answer it heard, the answer to its resend,
      or the renewal it waited for. */
  predicate AnswerOk(
    s: State, c: nat, stage: Stage, l: seq<Event>, answers: seq<Response>, optedIn: bool, o: Outcome)
    requires o.Returned?
  {
    match o.source
    case FromProbe => LogSent(s, stage, l) && answers == [o.response]
    case FromRetry => LogResent(s, c, stage, l) && |answers| == 2 && answers[1] == o.response
    case FromRenewal(k) =>
      && LogRenewed(s, c, stage, l) && l[1].id == k && Refused(stage, answers)
      && s.renewals[k].result.Answered? && s.renewals[k].result.response.status != 204
      && (|| o.response == s.renewals[k].result.response
          || (!optedIn && s.renewals[k].result.response.SignedOut() && o.response == MISSING_REFRESH))
  }

  /** A settled read: its log has one of four shapes and its answer has a source. */
  predicate ReadDone(s: State, c: nat, stage: Stage, call: Call, o: Outcome) {
    && ReadLog(s, c, stage, call.log)
    && (o.Returned? ==> AnswerOk(s, c, stage, call.log, call.answers, call.Active().optedIn, o))
  }

  /** A read invocation: its program counter fixes the shape of its log and the answers it has heard. */
  predicate ReadOk(s: State, c: nat, stage: Stage, call: Call) {
    var l := call.log;
    match call.pc
    case Idle => l == [] && call.answers == []
    case AwaitFirst(e) => LogSent(s, stage, l) && l[0].epoch == e && call.answers == []
    case ReadingAnswer(e, r) => LogSent(s, stage, l) && l[0].epoch == e && call.answers == [r]
    case AwaitRenewal(e, k) =>
      LogRenewed(s, c, stage, l) && l[0].epoch == e && l[1].id == k && Refused(stage, call.answers)
    case ReadingRefusal(k, p) =>
      && LogRenewed(s, c, stage, l) && l[1].id == k && Refused(stage, call.answers)
      && s.renewals[k].result == Answered(p) && p.status != 204
    case AwaitRetry => LogResent(s, c, stage, l) && |call.answers| == 1
    case Done(o) => ReadDone(s, c, stage, call, o)
  }

  /** The main stage of a call whose first answer is returned unexamined. */
  predicate PlainOk(s: State, call: Call) {
    match call.pc
    case Idle => call.log == []
    case AwaitFirst(e) => LogSent(s, Main, call.log)
    case Done(o) => (call.log == [] && !o.Returned?) || LogSent(s, Main, call.log)
    case _ => false
  }

  /** The confirmation that lets a mutation be sent: a read of this call returned ok. */
  predicate ConfirmedOk(s: State, c: nat, l: seq<Event>, answers: seq<Response>, confirmed: Option<Outcome>) {
    && confirmed.Some? && confirmed.value.Returned? && confirmed.value.response.Ok()
    && AnswerOk(s, c, Confirming, l, answers, false, confirmed.value)
  }

  /** After the confirmation, one send of the mutation. */
  predicate MutationSent(s: State, c: nat, call: Call, answers: seq<Response>) {
    && |call.log| > 0 && LogSent(s, Main, call.log[|call.log| - 1..])
    && ConfirmedOk(s, c, call.log[..|call.log| - 1], answers, call.confirmed)
  }

  /** The main stage of a protected mutation: the confirmation's log, then at most one send. */
  predicate MutationOk(s: State, c: nat, call: Call) {
    match call.pc
    case Idle => ConfirmedOk(s, c, call.log, call.answers, call.confirmed)
    case AwaitFirst(e) => MutationSent(s, c, call, call.answers)
    case Done(o) =>
      if o.Returned? then
        |call.answers| > 0 && call.answers[|call.answers| - 1] == o.response
        && MutationSent(s, c, call, call.answers[..|call.answers| - 1])
      else
        ConfirmedOk(s, c, call.log, call.answers, call.confirmed) || MutationSent(s, c, call, call.answers)
    case _ => false
  }

  /** The read invocation of a call that has not reached the stage of a plain send. */
  predicate IsRead(call: Call) {
    if call.stage == Confirming then call.req.ConfirmsFirst() && call.confirmed.None?
    else !call.req.ConfirmsFirst() && !call.req.Plain() && call.confirmed.None?
  }

  /** Which of the four kinds of running invocation a call is in. */
  predicate CallOk(s: State, c: nat, call: Call) {
    if call.stage == Confirming then
      call.req.ConfirmsFirst() && call.confirmed.None? && ReadOk(s, c, Confirming, call)
    else if call.req.ConfirmsFirst() then MutationOk(s, c, call)
    else if call.req.Plain() then call.confirmed.None? && PlainOk(s, call)
    else call.confirmed.None? && ReadOk(s, c, Main, call)
  }

  ghost predicate Inv(s: State) {
    && RenewalsOk(s)
    && (forall c :: c in s.calls ==> CallOk(s, c, s.calls[c]))
  }

  /** The shared variables only grow: a started renewal keeps its epoch and starter, a settled one its answer. */
  ghost predicate Grows(s: State, t: State) {
    && s.refreshEpoch <= t.refreshEpoch
    && |s.renewals| <= |t.renewals|
    && (forall j :: 0 <= j < |s.renewals| ==>
          && t.renewals[j].epoch == s.renewals[j].epoch
          && t.renewals[j].starter == s.renewals[j].starter
          && (!s.renewals[j].result.Pending? ==> t.renewals[j] == s.renewals[j]))
  }

  lemma ReadLogGrows(s: State, t: State, c: nat, stage: Stage, l: seq<Event>)
    requires Grows(s, t)
    ensures LogSent(s, stage, l) ==> LogSent(t, stage, l)
    ensures LogRenewed(s, c, stage, l) ==> LogRenewed(t, c, stage, l)
    ensures LogResent(s, c, stage, l) ==> LogResent(t, c, stage, l)
    ensures ReadLog(s, c, stage, l) ==> ReadLog(t, c, stage, l)
  {
  }

  lemma AnswerGrows(
    s: State, t: State, c: nat, stage: Stage, l: seq<Event>, answers: seq<Response>, optedIn: bool, o: Outcome)
    requires Grows(s, t) && o.Returned? && AnswerOk(s, c, stage, l, answers, optedIn, o)
    ensures AnswerOk(t, c, stage, l, answers, optedIn, o)
  {
    ReadLogGrows(s, t, c, stage, l);
  }

  lemma ReadGrows(s: State, t: State, c: nat, stage: Stage, call: Call)
    requires Grows(s, t) && ReadOk(s, c, stage, call)
    ensures ReadOk(t, c, stage, call)
  {
    ReadLogGrows(s, t, c, stage, call.log);
    if call.pc.Done? && call.pc.outcome.Returned? {
      AnswerGrows(s, t, c, stage, call.log, call.answers, call.Active().optedIn, call.pc.outcome);
    }
  }

  lemma ConfirmedGrows(s: State, t: State, c: nat, call: Call, answers: seq<Response>)
    requires Grows(s, t)
    ensures ConfirmedOk(s, c, call.log, answers, call.confirmed) ==>
              ConfirmedOk(t, c, call.log, answers, call.confirmed)
    ensures MutationSent(s, c, call, answers) ==> MutationSent(t, c, call, answers)
  {
    var l := call.log;
    if ConfirmedOk(s, c, l, answers, call.confirmed) {
      AnswerGrows(s, t, c, Confirming, l, answers, false, call.confirmed.value);
    }
    if MutationSent(s, c, call, answers) {
      ReadLogGrows(s, t, c, Main, l[|l| - 1..]);
      AnswerGrows(s, t, c, Confirming, l[..|l| - 1], answers, false, call.confirmed.value);
    }
  }

  lemma CallGrows(s: State, t: State, c: nat, call: Call)
    requires Grows(s, t) && CallOk(s, c, call)
    ensures CallOk(t, c, call)
  {
    if IsRead(call) {
      ReadGrows(s, t, c, call.stage, call);
    } else if call.req.ConfirmsFirst() {
      ConfirmedGrows(s, t, c, call, call.answers);
      if |call.answers| > 0 {
        ConfirmedGrows(s, t, c, call, call.answers[..|call.answers| - 1]);
      }
    } else {
      ReadLogGrows(s, t, c, Main, call.log);
    }
  }

  lemma CallsGrow(s: State, t: State)
    requires Inv(s) && Grows(s, t)
    ensures forall c :: c in s.calls ==> CallOk(t, c, s.calls[c])
  {
    forall c | c in s.calls
      ensures CallOk(t, c, s.calls[c])
    {
      CallGrows(s, t, c, s.calls[c]);
    }
  }

  lemma InvWith(s: State, t: State, c: nat, call: Call)
    requires Inv(s) && RenewalsOk(t) && Grows(s, t) && t.calls == s.calls[c := call] && CallOk(t, c, call)
    ensures Inv(t)
  {
    forall d | d in t.calls
      ensures CallOk(t, d, t.calls[d])
    {
      if d != c {
        CallGrows(s, t, d, s.calls[d]);
      }
    }
  }

  /** Replacing one call, with the shared variables untouched. */
  lemma InvLocal(s: State, c: nat, call: Call)
    requires Inv(s) && CallOk(s, c, call)
    ensures Inv(s.With(c, call))
  {
    CallGrows(s, s.With(c, call), c, call);
    InvWith(s, s.With(c, call), c, call);
  }

  lemma BeginKeeps(s: State, c: nat, call: Call)
    requires RenewalsOk(s) && CallOk(s, c, call)
    ensures CallOk(s, c, BeginCall(call, s.refreshEpoch))
  {
    var next := BeginCall(call, s.refreshEpoch);
    if call.pc.Idle? && !call.aborted {
      assert next.log[..|next.log| - 1] == call.log;
      assert next.log[|next.log| - 1..] == [Sent(call.stage, s.refreshEpoch)];
    }
  }

  lemma ReadFinishKeeps(s: State, c: nat, call: Call, o: Outcome)
    requires IsRead(call) && ReadDone(s, c, call.stage, call, o)
    ensures CallOk(s, c, call.Finish(o))
  {
  }

  lemma MutationFinishKeeps(s: State, c: nat, call: Call, o: Outcome)
    requires call.stage == Main && call.req.ConfirmsFirst() && call.pc.AwaitFirst? && MutationOk(s, c, call)
    ensures !o.Returned? ==> MutationOk(s, c, call.(pc := Done(o)))
    ensures o.Returned? ==> MutationOk(s, c, call.Hear(o.response).(pc := Done(o)))
  {
    if o.Returned? {
      assert call.Hear(o.response).answers[..|call.answers|] == call.answers;
    }
  }

  lemma ReadAnswerKeeps(s: State, c: nat, call: Call, r: Response)
    requires IsRead(call) && ReadOk(s, c, call.stage, call)
    ensures CallOk(s, c, AnswerCall(call, r))
  {
    if call.pc.AwaitRetry? {
      ReadFinishKeeps(s, c, call.Hear(r), Returned(r, FromRetry));
    } else if call.pc.AwaitFirst? {
      assert !call.Active().Plain();
    }
  }

  lemma AnswerKeeps(s: State, c: nat, call: Call, r: Response)
    requires CallOk(s, c, call)
    ensures CallOk(s, c, AnswerCall(call, r))
  {
    if IsRead(call) {
      ReadAnswerKeeps(s, c, call, r);
    } else if call.pc.AwaitFirst? && call.req.ConfirmsFirst() {
      MutationFinishKeeps(s, c, call, Returned(r, FromProbe));
    }
  }

  lemma DropKeeps(s: State, c: nat, call: Call)
    requires CallOk(s, c, call)
    ensures CallOk(s, c, DropCall(call))
  {
    if IsRead(call) && (call.pc.AwaitFirst? || call.pc.AwaitRetry?) {
      ReadFinishKeeps(s, c, call, NetworkError);
    }
  }

  /** No clause of the invariant reads the abort flag. */
  lemma FlagKeeps(s: State, c: nat, call: Call)
    requires CallOk(s, c, call)
    ensures CallOk(s, c, call.(aborted := true))
  {
  }

  lemma AbortKeeps(s: State, c: nat, call: Call)
    requires CallOk(s, c, call)
    ensures CallOk(s, c, AbortCall(call))
  {
    FlagKeeps(s, c, call);
    var flagged := call.(aborted := true);
    if call.pc.AwaitFirst? || call.pc.AwaitRetry? || call.pc.AwaitRenewal? {
      if IsRead(call) {
        ReadFinishKeeps(s, c, flagged, Aborted);
      } else if call.req.ConfirmsFirst() {
        MutationFinishKeeps(s, c, flagged, Aborted);
      }
    }
  }

  lemma RefusalKeeps(s: State, c: nat, call: Call, readable: bool)
    requires CallOk(s, c, call)
    ensures CallOk(s, c, ReadRefusalCall(call, readable))
  {
    if call.pc.ReadingRefusal? {
      var next := ReadRefusalCall(call, readable);
      var p := call.pc.refusal;
      var seen := p.Read(readable);
      var hidden := !call.Active().optedIn && p.status == 200 && seen.Json? && seen.signedOut;
      ReadFinishKeeps(s, c, call, Returned(if hidden then MISSING_REFRESH else p, FromRenewal(call.pc.renewal)));
    }
  }

  lemma {:induction false} SuccessesOf(rs: seq<RenewalRecord>, i: nat, j: nat)
    requires i <= j <= |rs|
    ensures Successes(rs[..i]) <= Successes(rs[..j])
    ensures i < j && rs[i].Succeeded() ==> Successes(rs[..i]) < Successes(rs[..j])
  {
    if i < j {
      SuccessesOf(rs, i, j - 1);
      assert rs[..j][..j - 1] == rs[..j - 1];
    }
  }

  /** A waiter of a successful renewal wakes in a strictly newer epoch. */
  lemma SuccessMovesEpoch(s: State, k: nat)
    requires RenewalsOk(s) && k < |s.renewals| && s.renewals[k].Succeeded()
    ensures s.renewals[k].epoch < s.refreshEpoch
  {
    SuccessesOf(s.renewals, k, |s.renewals|);
    assert s.renewals[..|s.renewals|] == s.renewals;
  }

  lemma WakeKeeps(s: State, c: nat, call: Call)
    requires RenewalsOk(s) && CallOk(s, c, call)
    ensures CallOk(s, c, WakeCall(s, call))
  {
    if call.pc.AwaitRenewal? {
      var r := s.renewals[call.pc.renewal];
      if r.Succeeded() {
        SuccessMovesEpoch(s, call.pc.renewal);
        assert WakeCall(s, call).log[..2] == call.log;
      } else if r.result.Failed? {
        ReadFinishKeeps(s, c, call, NetworkError);
      }
    }
  }

  lemma SettleRenewals(s: State, result: Settlement)
    requires RenewalsOk(s)
    ensures RenewalsOk(SettleStep(s, result)) && Grows(s, SettleStep(s, result))
  {
    var t := SettleStep(s, result);
    if s.refreshInFlight.Some? && !result.Pending? {
      var k := s.refreshInFlight.value;
      assert t.renewals[..k] == s.renewals[..k];
      forall j | 0 <= j < |t.renewals|
        ensures t.renewals[j].epoch == Successes(t.renewals[..j])
      {
        assert t.renewals[..j] == s.renewals[..j];
      }
    }
  }

  lemma SettleKeeps(s: State, result: Settlement)
    requires Inv(s)
    ensures Inv(SettleStep(s, result))
  {
    SettleRenewals(s, result);
    CallsGrow(s, SettleStep(s, result));
  }

  lemma StartKeeps(s: State, c: nat)
    requires RenewalsOk(s) && s.refreshInFlight.None?
    ensures var k := |s.renewals|;
      var t := s.(renewals := s.renewals + [RenewalRecord(s.refreshEpoch, c, Pending)], refreshInFlight := Some(k));
      RenewalsOk(t) && Grows(s, t)
  {
    var k := |s.renewals|;
    var rs := s.renewals + [RenewalRecord(s.refreshEpoch, c, Pending)];
    assert rs[..k] == s.renewals;
    forall j | 0 <= j < |rs|
      ensures rs[j].epoch == Successes(rs[..j])
    {
      if j < k {
        assert rs[..j] == s.renewals[..j];
      }
    }
  }

  lemma WaitingOk(s: State, t: State, c: nat, call: Call, k: nat, started: bool)
    requires CallOk(s, c, call) && call.pc.ReadingAnswer? && Grows(s, t)
    requires call.stage == Confirming ==> call.pc.answer.status == 401
    requires k < |t.renewals| && t.renewals[k].epoch == call.pc.epoch && (started ==> t.renewals[k].starter == c)
    ensures CallOk(t, c, call.Emit(Renewal(k, started)).(pc := AwaitRenewal(call.pc.epoch, k)))
  {
    ReadLogGrows(s, t, c, call.stage, call.log);
  }

  /** A renewal in flight was started in the epoch that is still current. */
  lemma InFlightIsCurrent(s: State)
    requires RenewalsOk(s) && s.refreshInFlight.Some?
    ensures s.renewals[s.refreshInFlight.value].epoch == s.refreshEpoch
  {
    var k := s.refreshInFlight.value;
    assert s.renewals[..|s.renewals| - 1] == s.renewals[..k];
  }

  lemma RefreshKeeps(s: State, c: nat, call: Call)
    requires Inv(s) && c in s.calls && s.calls[c] == call && call.pc.ReadingAnswer? && call.pc.epoch == s.refreshEpoch
    requires call.stage == Confirming ==> call.pc.answer.status == 401
    ensures Inv(RefreshSession(s, c, call, call.pc.epoch))
  {
    var t := RefreshSession(s, c, call, call.pc.epoch);
    assert CallOk(s, c, call);
    if s.refreshInFlight.None? {
      StartKeeps(s, c);
      WaitingOk(s, t, c, call, |s.renewals|, true);
    } else {
      InFlightIsCurrent(s);
      WaitingOk(s, t, c, call, s.refreshInFlight.value, false);
    }
    InvWith(s, t, c, t.calls[c]);
  }

  lemma ClassifyKeeps(s: State, c: nat, readable: bool)
    requires Inv(s) && c in s.calls
    ensures Inv(ClassifyStep(s, c, readable))
  {
    var call := s.calls[c];
    var t := ClassifyStep(s, c, readable);
    assert CallOk(s, c, call);
    if call.pc.ReadingAnswer? {
      if !Renewable(call.Active().optedIn, call.pc.answer, readable) {
        ReadFinishKeeps(s, c, call, Returned(call.pc.answer, FromProbe));
        InvLocal(s, c, call.Finish(Returned(call.pc.answer, FromProbe)));
      } else if call.aborted {
        ReadFinishKeeps(s, c, call, Aborted);
        InvLocal(s, c, call.Finish(Aborted));
      } else if call.pc.epoch == s.refreshEpoch {
        RefreshKeeps(s, c, call);
      } else {
        InvLocal(s, c, call.Emit(Resent(call.pc.epoch, s.refreshEpoch)).(pc := AwaitRetry));
      }
    }
  }

  lemma BeginStep(s: State, c: nat)
    requires Inv(s) && c in s.calls
    ensures Inv(Step(s, Begin(c)))
  {
    BeginKeeps(s, c, s.calls[c]);
    InvLocal(s, c, BeginCall(s.calls[c], s.refreshEpoch));
  }

  lemma AnswerStep(s: State, c: nat, r: Response)
    requires Inv(s) && c in s.calls
    ensures Inv(Step(s, Answer(c, r)))
  {
    AnswerKeeps(s, c, s.calls[c], r);
    InvLocal(s, c, AnswerCall(s.calls[c], r));
  }

  lemma DropStep(s: State, c: nat)
    requires Inv(s) && c in s.calls
    ensures Inv(Step(s, Drop(c)))
  {
    DropKeeps(s, c, s.calls[c]);
    InvLocal(s, c, DropCall(s.calls[c]));
  }

  lemma WakeStep(s: State, c: nat)
    requires Inv(s) && c in s.calls
    ensures Inv(Step(s, Wake(c)))
  {
    WakeKeeps(s, c, s.calls[c]);
    InvLocal(s, c, WakeCall(s, s.calls[c]));
  }

  lemma RefusalStep(s: State, c: nat, readable: bool)
    requires Inv(s) && c in s.calls
    ensures Inv(Step(s, ReadRefusal(c, readable)))
  {
    RefusalKeeps(s, c, s.calls[c], readable);
    InvLocal(s, c, ReadRefusalCall(s.calls[c], readable));
  }

  lemma AbortStep(s: State, c: nat)
    requires Inv(s) && c in s.calls
    ensures Inv(Step(s, Abort(c)))
  {
    AbortKeeps(s, c, s.calls[c]);
    InvLocal(s, c, AbortCall(s.calls[c]));
  }

  lemma StepKeeps(s: State, a: Action)
    requires Inv(s)
    ensures Inv(Step(s, a))
  {
    match a
    case Invoke(c, req) => if c !in s.calls { InvWith(s, Step(s, a), c, NewCall(req)); }
    case Begin(c) => if c in s.calls { BeginStep(s, c); }
    case Answer(c, r) => if c in s.calls { AnswerStep(s, c, r); }
    case Drop(c) => if c in s.calls { DropStep(s, c); }
    case Classify(c, readable) => if c in s.calls { ClassifyKeeps(s, c, readable); }
    case Settle(result) => SettleKeeps(s, result);
    case Wake(c) => if c in s.calls { WakeStep(s, c); }
    case ReadRefusal(c, readable) => if c in s.calls { RefusalStep(s, c, readable); }
    case Abort(c) => if c in s.calls { AbortStep(s, c); }
  }

  /** Every interleaving of any number of calls keeps the invariant. */
  lemma {:induction false} RunKeeps(s: State, acts: seq<Action>)
    requires Inv(s)
    ensures Inv(Run(s, acts))
    decreases |acts|
  {
    if acts != [] {
      StepKeeps(s, acts[0]);
      RunKeeps(Step(s, acts[0]), acts[1..]);
    }
  }
}
