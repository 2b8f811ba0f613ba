/** The signed-out opt-in changes how an answer is written, not what is sent. */
module BffOptIn {
  import opened Wrappers
  import opened Http
  import opened BffProtocol

  /** The answer the same server gives a caller that did not opt in. */
  function Unopted(r: Response): Response {
    if r.SignedOut() then r.(status := 401, body := Json(false, Some("missing_credential"), None, None)) else r
  }

  /** The same action on a page none of whose calls opted in. */
  function UnoptedAction(s: State, a: Action): Action {
    match a
    case Invoke(c, req) => Invoke(c, req.(optedIn := false))
    case Answer(c, r) => if c in s.calls && s.calls[c].Active().optedIn then Answer(c, Unopted(r)) else a
    case _ => a
  }

  function UnoptedRun(s: State, acts: seq<Action>): seq<Action>
    decreases |acts|
  {
    if acts == [] then [] else [UnoptedAction(s, acts[0])] + UnoptedRun(Step(s, acts[0]), acts[1..])
  }

  /** The answer itself, or a 401 that names the missing credential where the opted-in caller is told "signed out". */
  predicate PairedResponse(r: Response, u: Response) {
    || u == r
    || (&& r.status == 200 && r.body.Json? && r.body.signedOut && u.status == 401
        && (|| u.body == Json(false, Some("missing_credential"), None, None)
            || u.body == Json(false, Some("missing_refresh_credential"), None, None)))
  }

  predicate PairedOutcome(o: Outcome, u: Outcome) {
    if o.Returned? then u.Returned? && u.source == o.source && PairedResponse(o.response, u.response) else u == o
  }

  predicate PairedPc(optedIn: bool, p: Pc, u: Pc) {
    match p
    case ReadingAnswer(e, r) => u == ReadingAnswer(e, if optedIn then Unopted(r) else r)
    case Done(o) => u.Done? && PairedOutcome(o, u.outcome)
    case _ => u == p
  }

  /** Same requests, same epochs, same waits; only the wording of answers differs. */
  predicate PairedCall(a: Call, u: Call) {
    && u.req == a.req.(optedIn := false)
    && u.stage == a.stage && u.aborted == a.aborted && u.log == a.log && u.confirmed == a.confirmed
    && PairedPc(a.Active().optedIn, a.pc, u.pc)
  }

  ghost predicate Paired(s: State, u: State) {
    && s.refreshInFlight == u.refreshInFlight && s.refreshEpoch == u.refreshEpoch && s.renewals == u.renewals
    && s.calls.Keys == u.calls.Keys
    && (forall c :: c in s.calls ==> PairedCall(s.calls[c], u.calls[c]))
  }

  lemma SameVerdict(r: Response, readable: bool)
    ensures Renewable(true, r, readable) == Renewable(false, Unopted(r), readable)
  {
  }

  lemma PairedFinish(a: Call, u: Call, o: Outcome, p: Outcome)
    requires PairedCall(a.(pc := Idle), u.(pc := Idle))
    requires if a.stage == Confirming then p == o else PairedOutcome(o, p)
    ensures PairedCall(a.Finish(o), u.Finish(p))
  {
  }

  lemma PairedAnswer(a: Call, u: Call, r: Response)
    requires PairedCall(a, u)
    ensures PairedCall(AnswerCall(a, r), AnswerCall(u, if a.Active().optedIn then Unopted(r) else r))
  {
    var q := if a.Active().optedIn then Unopted(r) else r;
    if a.pc.AwaitFirst? {
      PairedFinish(a.Hear(r), u.Hear(q), Returned(r, FromProbe), Returned(q, FromProbe));
    } else if a.pc.AwaitRetry? {
      PairedFinish(a.Hear(r), u.Hear(q), Returned(r, FromRetry), Returned(q, FromRetry));
    }
  }

  lemma PairedRefusal(a: Call, u: Call, readable: bool)
    requires PairedCall(a, u)
    ensures PairedCall(ReadRefusalCall(a, readable), ReadRefusalCall(u, readable))
  {
    if a.pc.ReadingRefusal? {
      var p := a.pc.refusal;
      var from := FromRenewal(a.pc.renewal);
      var hidden := p.SignedOut() && readable;
      var o := Returned(if hidden && !a.Active().optedIn then MISSING_REFRESH else p, from);
      var q := Returned(if hidden then MISSING_REFRESH else p, from);
      PairedFinish(a, u, o, q);
    }
  }

  lemma PairedWake(s: State, u: State, a: Call, b: Call)
    requires s.renewals == u.renewals && s.refreshEpoch == u.refreshEpoch && PairedCall(a, b)
    ensures PairedCall(WakeCall(s, a), WakeCall(u, b))
  {
    if a.pc.AwaitRenewal? && a.pc.renewal < |s.renewals| && s.renewals[a.pc.renewal].result.Failed? {
      PairedFinish(a, b, NetworkError, NetworkError);
    }
  }

  lemma PairedDrop(a: Call, b: Call)
    requires PairedCall(a, b)
    ensures PairedCall(DropCall(a), DropCall(b))
  {
    PairedFinish(a, b, NetworkError, NetworkError);
  }

  lemma PairedAbort(a: Call, b: Call)
    requires PairedCall(a, b)
    ensures PairedCall(AbortCall(a), AbortCall(b))
  {
    if a.pc.AwaitFirst? || a.pc.AwaitRetry? || a.pc.AwaitRenewal? {
      PairedFinish(a.(aborted := true), b.(aborted := true), Aborted, Aborted);
    }
  }

  lemma PairedWith(s: State, u: State, c: nat, a: Call, b: Call)
    requires Paired(s, u) && PairedCall(a, b)
    ensures Paired(s.With(c, a), u.With(c, b))
  {
  }

  lemma PairedRefresh(s: State, u: State, c: nat, a: Call, b: Call, epoch: nat)
    requires Paired(s, u) && PairedCall(a.(pc := Idle), b.(pc := Idle))
    ensures Paired(RefreshSession(s, c, a, epoch), RefreshSession(u, c, b, epoch))
  {
  }

  lemma PairedClassify(s: State, u: State, c: nat, readable: bool)
    requires Paired(s, u) && c in s.calls
    ensures Paired(ClassifyStep(s, c, readable), ClassifyStep(u, c, readable))
  {
    var a, b := s.calls[c], u.calls[c];
    if a.pc.ReadingAnswer? {
      var epoch, r, q := a.pc.epoch, a.pc.answer, b.pc.answer;
      SameVerdict(r, readable);
      if !Renewable(a.Active().optedIn, r, readable) {
        PairedFinish(a, b, Returned(r, FromProbe), Returned(q, FromProbe));
        PairedWith(s, u, c, a.Finish(Returned(r, FromProbe)), b.Finish(Returned(q, FromProbe)));
      } else if a.aborted {
        PairedFinish(a, b, Aborted, Aborted);
        PairedWith(s, u, c, a.Finish(Aborted), b.Finish(Aborted));
      } else if epoch == s.refreshEpoch {
        PairedRefresh(s, u, c, a, b, epoch);
      } else {
        PairedWith(s, u, c, a.Emit(Resent(epoch, s.refreshEpoch)).(pc := AwaitRetry),
                   b.Emit(Resent(epoch, s.refreshEpoch)).(pc := AwaitRetry));
      }
    }
  }

  lemma PairedCallStep(s: State, u: State, a: Action, c: nat)
    requires Paired(s, u) && c in s.calls
    requires a.Begin? || a.Drop? || a.Wake? || a.Abort? || a.Answer? || a.ReadRefusal?
    requires a.c == c
    ensures Paired(Step(s, a), Step(u, UnoptedAction(s, a)))
  {
    var x, y := s.calls[c], u.calls[c];
    match a {
      case Drop(_) => PairedDrop(x, y);
      case Abort(_) => PairedAbort(x, y);
      case Answer(_, r) => PairedAnswer(x, y, r);
      case ReadRefusal(_, readable) => PairedRefusal(x, y, readable);
      case Wake(_) => PairedWake(s, u, x, y);
      case _ =>
    }
    PairedWith(s, u, c, Step(s, a).calls[c], Step(u, UnoptedAction(s, a)).calls[c]);
  }

  lemma PairedStep(s: State, u: State, a: Action)
    requires Paired(s, u)
    ensures Paired(Step(s, a), Step(u, UnoptedAction(s, a)))
  {
    match a
    case Invoke(c, req) => if c !in s.calls { PairedWith(s, u, c, NewCall(req), NewCall(req.(optedIn := false))); }
    case Settle(_) =>
    case Classify(c, readable) => if c in s.calls { PairedClassify(s, u, c, readable); }
    case _ => if a.c in s.calls { PairedCallStep(s, u, a, a.c); }
  }

  /** Paired runs: every call sends the same requests and joins the same renewals, opted in or not. */
  lemma {:induction false} OptInKeepsRequests(s: State, u: State, acts: seq<Action>)
    requires Paired(s, u)
    ensures Paired(Run(s, acts), Run(u, UnoptedRun(s, acts)))
    decreases |acts|
  {
    if acts != [] {
      var a := UnoptedAction(s, acts[0]);
      PairedStep(s, u, acts[0]);
      OptInKeepsRequests(Step(s, acts[0]), Step(u, a), acts[1..]);
      assert UnoptedRun(s, acts)[1..] == UnoptedRun(Step(s, acts[0]), acts[1..]);
    }
  }
}
