/** What holds in every run of the renewal protocol, from an empty page. */
module BffTheorems {
  import opened Wrappers
  import opened Http
  import opened BffProtocol
  import opened BffInvariant

  lemma ReachableInv(acts: seq<Action>)
    ensures Inv(Run(INITIAL, acts))
  {
    RunKeeps(INITIAL, acts);
  }

  // ---------------------------------------------------------------- the shared variables

  /** An independent count of the renewals answered 204. */
  function Succeeded(rs: seq<RenewalRecord>): set<nat> {
    set j: nat | j < |rs| && rs[j].Succeeded()
  }

  lemma {:induction false} SuccessesCount(rs: seq<RenewalRecord>)
    ensures Successes(rs) == |Succeeded(rs)|
  {
    if rs != [] {
      var n := |rs| - 1;
      SuccessesCount(rs[..n]);
      assert Succeeded(rs) == Succeeded(rs[..n]) + (if rs[n].Succeeded() then {n} else {});
    }
  }

  /** In every interleaving at most one renewal is outstanding, it is the one in flight, refreshEpoch is the
      number of renewals answered 204, and of the renewals started in one epoch at most one is answered 204. */
  lemma RenewalsAreSerial(acts: seq<Action>)
    ensures var s := Run(INITIAL, acts);
      && s.refreshEpoch == |Succeeded(s.renewals)|
      && (forall j :: 0 <= j < |s.renewals| ==> (s.renewals[j].result.Pending? <==> s.refreshInFlight == Some(j)))
      && (forall i, j :: 0 <= i < j < |s.renewals| && s.renewals[i].Succeeded() ==>
            s.renewals[i].epoch < s.renewals[j].epoch)
  {
    var s := Run(INITIAL, acts);
    ReachableInv(acts);
    SuccessesCount(s.renewals);
    forall i, j | 0 <= i < j < |s.renewals| && s.renewals[i].Succeeded()
      ensures s.renewals[i].epoch < s.renewals[j].epoch
    {
      SuccessesOf(s.renewals, i, j);
    }
  }

  // ---------------------------------------------------------------- one call's requests

  /** What the log of one call says about its renewal and its resend: the renewal belongs to the epoch that the
      send before it captured, so no 204 came between; the resend goes out in a strictly newer epoch; each
      happens at most once; and a send in the main stage of a protected mutation comes last. */
  ghost predicate Disciplined(s: State, call: Call) {
    var l := call.log;
    && |l| <= (if call.req.ConfirmsFirst() then 4 else if call.req.Plain() then 1 else 3)
    && (|l| > 0 ==> l[0].Sent?)
    && (forall i, j :: 0 <= i < j < |l| && l[i].Sent? && l[j].Sent? ==>
          l[i].stage == Confirming && l[j].stage == Main && j == |l| - 1)
    && (forall i, j :: 0 <= i < |l| && 0 <= j < |l| && l[i].Renewal? && l[j].Renewal? ==> i == j)
    && (forall i, j :: 0 <= i < |l| && 0 <= j < |l| && l[i].Resent? && l[j].Resent? ==> i == j)
    && (forall i :: 0 <= i < |l| && l[i].Renewal? ==>
          l[i].id < |s.renewals| && l[0].epoch == s.renewals[l[i].id].epoch == Successes(s.renewals[..l[i].id]))
    && (forall i :: 0 <= i < |l| && l[i].Resent? ==> l[0].epoch == l[i].captured < l[i].now <= s.refreshEpoch)
  }

  lemma ReadLogDisciplined(s: State, c: nat, stage: Stage, call: Call)
    requires RenewalsOk(s) && IsRead(call) && stage == call.stage && ReadLog(s, c, stage, call.log)
    ensures Disciplined(s, call)
  {
    var l := call.log;
    assert |l| <= 3;
    if |l| == 3 {
      assert l[..2][0] == l[0] && l[..2][1] == l[1];
      assert l[1].Renewal? && l[2].Resent?;
    }
  }

  lemma MutationLogDisciplined(s: State, c: nat, call: Call)
    requires RenewalsOk(s) && call.req.ConfirmsFirst() && |call.log| > 0
    requires ReadLog(s, c, Confirming, call.log[..|call.log| - 1]) && |call.log| > 1
    requires LogSent(s, Main, call.log[|call.log| - 1..])
    ensures Disciplined(s, call)
  {
    var l := call.log;
    var m := l[..|l| - 1];
    assert forall i :: 0 <= i < |m| ==> m[i] == l[i];
    assert l[|l| - 1..][0] == l[|l| - 1];
    assert forall i :: 0 <= i < |m| && m[i].Sent? ==> i == 0;
    if |m| == 3 {
      assert m[..2][1] == m[1];
      assert m[..2][0] == m[0];
    }
  }

  /** The mutation itself is on the wire. */
  predicate Submitted(call: Call) {
    && call.req.ConfirmsFirst() && |call.log| > 0
    && call.log[|call.log| - 1].Sent? && call.log[|call.log| - 1].stage == Main
  }

  lemma ConfirmedIsUnsent(s: State, c: nat, l: seq<Event>, answers: seq<Response>, confirmed: Option<Outcome>)
    requires ConfirmedOk(s, c, l, answers, confirmed)
    ensures |l| > 0 && !(l[|l| - 1].Sent? && l[|l| - 1].stage == Main)
  {
  }

  /** A submitted mutation was sent after the confirmation that the answers heard before it give. */
  lemma SubmittedIsSent(s: State, c: nat, call: Call) returns (answers: seq<Response>)
    requires CallOk(s, c, call) && Submitted(call)
    ensures answers <= call.answers && MutationSent(s, c, call, answers)
  {
    answers := call.answers;
    if call.stage == Confirming {
      assert false;
    } else if call.pc.Done? && call.pc.outcome.Returned? {
      answers := call.answers[..|call.answers| - 1];
    } else if ConfirmedOk(s, c, call.log, call.answers, call.confirmed) {
      ConfirmedIsUnsent(s, c, call.log, call.answers, call.confirmed);
      assert false;
    }
  }

  /** Until the mutation is submitted, the call's log is its confirmation's. */
  lemma UnsubmittedLog(s: State, c: nat, call: Call)
    requires CallOk(s, c, call) && !IsRead(call) && call.req.ConfirmsFirst() && !Submitted(call)
    ensures ReadLog(s, c, Confirming, call.log)
  {
    assert ConfirmedOk(s, c, call.log, call.answers, call.confirmed);
  }

  lemma CallDisciplined(s: State, c: nat, call: Call)
    requires RenewalsOk(s) && CallOk(s, c, call)
    ensures Disciplined(s, call)
  {
    if IsRead(call) {
      ReadLogDisciplined(s, c, call.stage, call);
    } else if call.req.ConfirmsFirst() {
      if Submitted(call) {
        var answers := SubmittedIsSent(s, c, call);
        MutationLogDisciplined(s, c, call);
      } else {
        UnsubmittedLog(s, c, call);
        ReadLogDisciplined(s, c, Confirming, call.(stage := Confirming, confirmed := None));
      }
    }
  }

  /** Every call of every run is disciplined. */
  lemma RequestDiscipline(acts: seq<Action>, c: nat)
    requires c in Run(INITIAL, acts).calls
    ensures Disciplined(Run(INITIAL, acts), Run(INITIAL, acts).calls[c])
  {
    ReachableInv(acts);
    CallDisciplined(Run(INITIAL, acts), c, Run(INITIAL, acts).calls[c]);
  }

  /** Only calls to the API without their own bearer token ever start or join a renewal, and of those neither the
      sign-in steps nor the organization lookup unless they only read. */
  lemma OnlyApiCallsRenew(
    acts: seq<Action>, c: nat, path: string, method_: string, bearer: bool, loginStep: Option<string>, i: nat)
    requires c in Run(INITIAL, acts).calls
    requires Run(INITIAL, acts).calls[c].req == RequestOf(path, method_, bearer, loginStep)
    requires i < |Run(INITIAL, acts).calls[c].log| && Run(INITIAL, acts).calls[c].log[i].Renewal?
    ensures "/api/v1/" <= path && !bearer
    ensures method_ != "GET" && method_ != "HEAD" ==>
              && !("/api/v1/auth/login/" <= path)
              && path != "/api/v1/auth/login" && path != "/api/v1/auth/organization-lookup"
  {
    RequestDiscipline(acts, c);
  }

  /** The epoch a call's first send captured, and the renewal it waited for, if any. */
  ghost predicate WaitedFor(call: Call, epoch: nat, k: nat) {
    |call.log| > 1 && call.log[0].Sent? && call.log[0].epoch == epoch && call.log[1].Renewal? && call.log[1].id == k
  }

  /** A cohort of reads that all failed in one epoch rotates the credentials at most once: whichever of them
      started or joined a renewal that was answered 204, it is one and the same renewal. */
  lemma CohortRotatesOnce(acts: seq<Action>, c: nat, d: nat, epoch: nat, j: nat, k: nat)
    requires c in Run(INITIAL, acts).calls && d in Run(INITIAL, acts).calls
    requires WaitedFor(Run(INITIAL, acts).calls[c], epoch, j) && WaitedFor(Run(INITIAL, acts).calls[d], epoch, k)
    requires j < |Run(INITIAL, acts).renewals| && Run(INITIAL, acts).renewals[j].Succeeded()
    requires k < |Run(INITIAL, acts).renewals| && Run(INITIAL, acts).renewals[k].Succeeded()
    ensures j == k
  {
    RequestDiscipline(acts, c);
    RequestDiscipline(acts, d);
    RenewalsAreSerial(acts);
  }

  // ---------------------------------------------------------------- protected mutations

  predicate ResentOnce(l: seq<Event>) {
    exists i :: 0 <= i < |l| && l[i].Resent?
  }

  /** The nested validate read was itself answered ok: its first answer, or the one to its resend. */
  predicate ValidateAnsweredOk(call: Call) {
    || (|call.answers| > 0 && call.answers[0].Ok())
    || (ResentOnce(call.log) && |call.answers| > 1 && call.answers[1].Ok())
  }

  /** A confirmation came first and returned ok. Validate itself answered ok, except exactly when the confirmation
      returned the renewal's own answer: ok, but not 204. */
  ghost predicate Confirmed(s: State, call: Call) {
    && |call.log| > 1 && call.log[0].Sent? && call.log[0].stage == Confirming
    && call.confirmed.Some? && call.confirmed.value.Returned? && call.confirmed.value.response.Ok()
    && match call.confirmed.value.source
       case FromRenewal(k) =>
         && call.log[1].Renewal? && call.log[1].id == k && k < |s.renewals|
         && s.renewals[k].result == Answered(call.confirmed.value.response)
         && call.confirmed.value.response.status != 204
         && !ValidateAnsweredOk(call)
       case _ => ValidateAnsweredOk(call)
  }

  /** In every run a mutation is submitted only after its confirmation. */
  lemma MutationIsConfirmed(acts: seq<Action>, c: nat)
    requires c in Run(INITIAL, acts).calls && Submitted(Run(INITIAL, acts).calls[c])
    ensures Confirmed(Run(INITIAL, acts), Run(INITIAL, acts).calls[c])
  {
    var s := Run(INITIAL, acts);
    var call := s.calls[c];
    assert CallOk(s, c, call) by { ReachableInv(acts); }
    var answers := SubmittedIsSent(s, c, call);
    var m := call.log[..|call.log| - 1];
    assert AnswerOk(s, c, Confirming, m, answers, false, call.confirmed.value);
    assert forall i :: 0 <= i < |m| ==> m[i] == call.log[i];
  }

  /** The action reads, for call c, the refusal of its confirmation's renewal, and that refusal passes: it is ok and
      was not read as signed out. */
  predicate Passes(s: State, a: Action, c: nat) {
    && a.ReadRefusal? && a.c == c && c in s.calls && s.calls[c].stage == Confirming && s.calls[c].pc.ReadingRefusal?
    && var refusal := s.calls[c].pc.refusal;
       refusal.Ok() && !(a.readable && refusal.SignedOut())
  }

  /** Somewhere in the run a refusal passes for call c. */
  predicate PassedBy(s: State, acts: seq<Action>, c: nat)
    decreases |acts|
  {
    acts != [] && (Passes(s, acts[0], c) || PassedBy(Step(s, acts[0]), acts[1..], c))
  }

  /** The confirmation of call c was the renewal's own answer. */
  predicate ByRenewal(s: State, c: nat) {
    && c in s.calls && s.calls[c].confirmed.Some? && s.calls[c].confirmed.value.Returned?
    && s.calls[c].confirmed.value.source.FromRenewal?
  }

  lemma OwnStepConfirms(s: State, a: Action, c: nat)
    requires c in s.calls && CallOk(s, c, s.calls[c]) && !a.Settle? && a.c == c
    ensures ByRenewal(Step(s, a), c) <==> ByRenewal(s, c) || Passes(s, a, c)
  {
  }

  lemma OthersLeaveCall(s: State, a: Action, c: nat)
    requires a.Settle? || a.c != c
    ensures c in Step(s, a).calls <==> c in s.calls
    ensures c in s.calls ==> Step(s, a).calls[c] == s.calls[c]
  {
  }

  lemma StepConfirms(s: State, a: Action, c: nat)
    requires Inv(s)
    ensures ByRenewal(Step(s, a), c) <==> ByRenewal(s, c) || Passes(s, a, c)
  {
    if a.Settle? || a.c != c {
      OthersLeaveCall(s, a, c);
    } else if c in s.calls {
      assert CallOk(s, c, s.calls[c]);
      OwnStepConfirms(s, a, c);
    }
  }

  lemma {:induction false} RunConfirms(s: State, acts: seq<Action>, c: nat)
    requires Inv(s)
    ensures ByRenewal(Run(s, acts), c) <==> ByRenewal(s, c) || PassedBy(s, acts, c)
    decreases |acts|
  {
    if acts != [] {
      StepConfirms(s, acts[0], c);
      StepKeeps(s, acts[0]);
      RunConfirms(Step(s, acts[0]), acts[1..], c);
    }
  }

  /** The exact condition: a mutation that was submitted was confirmed by an ok answer to validate if and only if no
      refusal of its renewal passed. */
  lemma MutationCondition(acts: seq<Action>, c: nat)
    requires c in Run(INITIAL, acts).calls && Submitted(Run(INITIAL, acts).calls[c])
    ensures ValidateAnsweredOk(Run(INITIAL, acts).calls[c]) <==> !PassedBy(INITIAL, acts, c)
  {
    MutationIsConfirmed(acts, c);
    RunConfirms(INITIAL, acts, c);
  }

  // ---------------------------------------------------------------- against a boundary that keeps its contract

  /** What the boundary promises of a renewal: it is ok only as a 204 or as the opted-in "signed out". */
  predicate RefreshContract(result: Settlement) {
    result.Answered? && result.response.Ok() ==> result.response.status == 204 || result.response.SignedOut()
  }

  predicate KeepsContract(acts: seq<Action>) {
    forall i :: 0 <= i < |acts| && acts[i].Settle? ==> RefreshContract(acts[i].result)
  }

  /** The action fails to read the signed-out refusal of call c's confirmation. */
  predicate Misses(s: State, a: Action, c: nat) {
    && a.ReadRefusal? && a.c == c && !a.readable
    && c in s.calls && s.calls[c].stage == Confirming && s.calls[c].pc.ReadingRefusal?
    && s.calls[c].pc.refusal.SignedOut()
  }

  predicate MissedBy(s: State, acts: seq<Action>, c: nat)
    decreases |acts|
  {
    acts != [] && (Misses(s, acts[0], c) || MissedBy(Step(s, acts[0]), acts[1..], c))
  }

  ghost predicate ContractKept(s: State) {
    forall j :: 0 <= j < |s.renewals| ==> RefreshContract(s.renewals[j].result)
  }

  lemma ContractStep(s: State, a: Action)
    requires ContractKept(s) && (a.Settle? ==> RefreshContract(a.result))
    ensures ContractKept(Step(s, a))
  {
  }

  lemma {:induction false} PassedIsMissed(s: State, acts: seq<Action>, c: nat)
    requires Inv(s) && ContractKept(s) && KeepsContract(acts)
    ensures PassedBy(s, acts, c) <==> MissedBy(s, acts, c)
    decreases |acts|
  {
    if acts != [] {
      assert c in s.calls ==> CallOk(s, c, s.calls[c]);
      assert KeepsContract(acts[1..]);
      ContractStep(s, acts[0]);
      StepKeeps(s, acts[0]);
      PassedIsMissed(Step(s, acts[0]), acts[1..], c);
    }
  }

  /** Against such a boundary a submitted mutation was confirmed by an ok answer to validate if and only if no
      signed-out refusal of its renewal went unread. */
  lemma MutationNeedsValidate(acts: seq<Action>, c: nat)
    requires KeepsContract(acts)
    requires c in Run(INITIAL, acts).calls && Submitted(Run(INITIAL, acts).calls[c])
    ensures ValidateAnsweredOk(Run(INITIAL, acts).calls[c]) <==> !MissedBy(INITIAL, acts, c)
  {
    MutationCondition(acts, c);
    PassedIsMissed(INITIAL, acts, c);
  }

  const PATCH: Request := Request(false, true, false, false, false)
  const DEAD_TOKEN: Response := Response(401, Json(false, Some("no_credential"), None, None), None, None)
  const SIGNED_OUT: Response := Response(200, Json(true, None, None, None), None, None)

  /** A run in which the refusal's body cannot be read: the signed-out 200 passes for a confirmation. */
  const UNREAD_REFUSAL: seq<Action> :=
    [Invoke(0, PATCH), Begin(0), Answer(0, DEAD_TOKEN), Classify(0, true), Settle(Answered(SIGNED_OUT)),
     Wake(0), ReadRefusal(0, false), Begin(0)]

  /** A mutation is submitted although validate only ever answered 401, against a boundary that keeps its contract. */
  lemma UnreadRefusalSubmits()
    ensures 0 in Run(INITIAL, UNREAD_REFUSAL).calls
    ensures Submitted(Run(INITIAL, UNREAD_REFUSAL).calls[0])
    ensures !ValidateAnsweredOk(Run(INITIAL, UNREAD_REFUSAL).calls[0]) && KeepsContract(UNREAD_REFUSAL)
  {
    var a := UNREAD_REFUSAL;
    var s1 := Step(INITIAL, a[0]);
    var s2 := Step(s1, a[1]);
    var s3 := Step(s2, a[2]);
    var s4 := Step(s3, a[3]);
    var s5 := Step(s4, a[4]);
    var s6 := Step(s5, a[5]);
    var s7 := Step(s6, a[6]);
    var s8 := Step(s7, a[7]);
    assert s3.calls[0].pc == ReadingAnswer(0, DEAD_TOKEN);
    assert s4.calls[0].pc == AwaitRenewal(0, 0);
    assert s6.calls[0].pc == ReadingRefusal(0, SIGNED_OUT);
    assert s8.calls[0].pc == AwaitFirst(0) && s8.calls[0].answers == [DEAD_TOKEN];
    assert Run(INITIAL, a) == s8 by {
      assert a[1..][1..] == a[2..] && a[2..][1..] == a[3..] && a[3..][1..] == a[4..] && a[4..][1..] == a[5..];
      assert a[5..][1..] == a[6..] && a[6..][1..] == a[7..] && a[7..][1..] == [];
      assert Run(s7, a[7..]) == s8;
      assert Run(s6, a[6..]) == s8;
      assert Run(s5, a[5..]) == s8;
      assert Run(s4, a[4..]) == s8;
      assert Run(s3, a[3..]) == s8;
      assert Run(s2, a[2..]) == s8;
      assert Run(s1, a[1..]) == s8;
    }
  }

  // ---------------------------------------------------------------- progress

  function PcRank(pc: Pc): nat {
    match pc
    case Idle => 5
    case AwaitFirst(_) => 4
    case ReadingAnswer(_, _) => 3
    case AwaitRenewal(_, _) => 2
    case ReadingRefusal(_, _) => 1
    case AwaitRetry => 1
    case Done(_) => 0
  }

  /** What a call can still do. */
  function Rank(call: Call): nat {
    if call.pc.Done? then 0
    else PcRank(call.pc) + (if call.stage == Confirming then 5 else 0) + (if call.aborted then 0 else 1)
  }

  lemma StepRank(s: State, a: Action, c: nat)
    requires c in s.calls
    ensures c in Step(s, a).calls
    ensures Step(s, a).calls[c] == s.calls[c] || Rank(Step(s, a).calls[c]) < Rank(s.calls[c])
  {
  }

  /** The number of steps of a run that change call c. */
  function Effective(s: State, acts: seq<Action>, c: nat): nat
    requires c in s.calls
    decreases |acts|
  {
    if acts == [] then 0
    else
      StepRank(s, acts[0], c);
      var t := Step(s, acts[0]);
      (if t.calls[c] == s.calls[c] then 0 else 1) + Effective(t, acts[1..], c)
  }

  /** However long the run, a call takes at most 11 steps of its own, a read at most 6. */
  lemma {:induction false} CallsAreFinite(s: State, acts: seq<Action>, c: nat)
    requires c in s.calls
    ensures Effective(s, acts, c) <= Rank(s.calls[c]) <= 11
    ensures s.calls[c].stage == Main ==> Effective(s, acts, c) <= 6
    decreases |acts|
  {
    if acts != [] {
      StepRank(s, acts[0], c);
      CallsAreFinite(Step(s, acts[0]), acts[1..], c);
    }
  }

  lemma SettledWakes(s: State, c: nat)
    requires c in s.calls && s.calls[c].pc.AwaitRenewal? && s.calls[c].pc.renewal < |s.renewals|
    requires !s.renewals[s.calls[c].pc.renewal].result.Pending?
    ensures !Step(s, Wake(c)).calls[c].pc.AwaitRenewal?
  {
  }

  lemma SettleReaches(s: State, c: nat, result: Settlement)
    requires RenewalsOk(s) && c in s.calls && s.calls[c].pc.AwaitRenewal? && !result.Pending?
    requires s.calls[c].pc.renewal < |s.renewals| && s.renewals[s.calls[c].pc.renewal].result.Pending?
    ensures var t, k := Step(s, Settle(result)), s.calls[c].pc.renewal;
      && s.refreshInFlight == Some(k)
      && c in t.calls && t.calls[c] == s.calls[c] && k < |t.renewals| && t.renewals[k].result == result
  {
  }

  /** No waiter is stranded: the renewal it waits for is in flight or settled, and once settled it wakes. */
  lemma NoWaiterIsStranded(acts: seq<Action>, c: nat, result: Settlement)
    requires c in Run(INITIAL, acts).calls && Run(INITIAL, acts).calls[c].pc.AwaitRenewal? && !result.Pending?
    ensures var s := Run(INITIAL, acts);
      var k := s.calls[c].pc.renewal;
      && k < |s.renewals|
      && (s.renewals[k].result.Pending? ==>
            s.refreshInFlight == Some(k) && !Step(Step(s, Settle(result)), Wake(c)).calls[c].pc.AwaitRenewal?)
      && (!s.renewals[k].result.Pending? ==> !Step(s, Wake(c)).calls[c].pc.AwaitRenewal?)
  {
    var s := Run(INITIAL, acts);
    ReachableInv(acts);
    assert CallOk(s, c, s.calls[c]);
    if s.renewals[s.calls[c].pc.renewal].result.Pending? {
      SettleReaches(s, c, result);
      SettledWakes(Step(s, Settle(result)), c);
    } else {
      SettledWakes(s, c);
    }
  }

  predicate Waiting(pc: Pc) {
    pc.AwaitFirst? || pc.AwaitRetry? || pc.AwaitRenewal?
  }

  /** bff honours its signal: from the abort on, whatever the others do, the call waits for nothing but a
      body it is already reading, and it puts nothing more on the wire. */
  lemma {:induction false} AbortedIsQuiet(s: State, c: nat, acts: seq<Action>)
    requires c in s.calls && s.calls[c].aborted && !Waiting(s.calls[c].pc)
    ensures c in Run(s, acts).calls
    ensures var call := Run(s, acts).calls[c];
      call.aborted && !Waiting(call.pc) && call.log == s.calls[c].log
    decreases |acts|
  {
    if acts != [] {
      AbortedIsQuiet(Step(s, acts[0]), c, acts[1..]);
    }
  }

  lemma AbortReleases(s: State, c: nat, acts: seq<Action>)
    requires c in s.calls && !s.calls[c].pc.Done?
    ensures c in Run(Step(s, Abort(c)), acts).calls
    ensures var call := Run(Step(s, Abort(c)), acts).calls[c];
      call.aborted && !Waiting(call.pc) && call.log == s.calls[c].log
  {
    AbortedIsQuiet(Step(s, Abort(c)), c, acts);
  }
}
