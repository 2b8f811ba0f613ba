/** The credential renewal protocol of export/src/bff.ts, as a state machine.

    A call advances from one await to the next; everything between two awaits is one step.
    The environment chooses every answer, failure, abort and settlement and the order of all
    of them: a run is any sequence of actions, and an action that does not apply is a stutter. */
module BffProtocol {
  import opened Wrappers
  import opened Http

  /** What `bff` computes from its path, method and headers before it sends anything. */
  datatype Request = Request(
    readOnly: bool, api: bool, publicCeremony: bool, explicitBearer: bool, optedIn: bool)
  {
    /** A protected mutation: a validate read runs inside the call before the mutation is sent. */
    predicate ConfirmsFirst() {
      !readOnly && api && !publicCeremony && !explicitBearer
    }

    /** The first answer is returned unexamined. */
    predicate Plain() {
      !readOnly || !api || explicitBearer
    }
  }

  predicate StartsWith(s: string, prefix: string) {
    prefix <= s
  }

  function RequestOf(path: string, method_: string, bearer: bool, loginStep: Option<string>): (r: Request) {
    Request(
      method_ == "GET" || method_ == "HEAD",
      StartsWith(path, "/api/v1/"),
      path == "/api/v1/auth/login" || StartsWith(path, "/api/v1/auth/login/")
        || path == "/api/v1/auth/organization-lookup",
      bearer,
      loginStep == Some("200"))
  }

  /** The nested read of a protected mutation: GET /api/v1/validate, not opted in. */
  const VALIDATE: Request := Request(true, true, false, false, false)

  datatype Stage = Confirming | Main

  datatype Source = FromProbe | FromRetry | FromRenewal(id: nat)

  datatype Outcome =
    | Returned(response: Response, source: Source)
    | Aborted
    | NetworkError

  /** Where a call is suspended. `epoch` is the value of refreshEpoch captured before sending. */
  datatype Pc =
    | Idle
    | AwaitFirst(epoch: nat)
    | ReadingAnswer(epoch: nat, answer: Response)
    | AwaitRenewal(epoch: nat, renewal: nat)
    | ReadingRefusal(renewal: nat, refusal: Response)
    | AwaitRetry
    | Done(outcome: Outcome)

  /** What a call put on the wire, or joined, in order. */
  datatype Event =
    | Sent(stage: Stage, epoch: nat)
    | Renewal(id: nat, started: bool)
    | Resent(captured: nat, now: nat)

  datatype Call = Call(
    req: Request, stage: Stage, pc: Pc, aborted: bool,
    log: seq<Event>, answers: seq<Response>, confirmed: Option<Outcome>)
  {
    /** The request of the bff invocation now running: the nested read, or the call itself. */
    function Active(): Request {
      if stage == Confirming then VALIDATE else req
    }

    function Emit(e: Event): Call {
      this.(log := log + [e])
    }

    function Hear(r: Response): Call {
      this.(answers := answers + [r])
    }

    /** The running invocation settles: an ok confirmation lets the mutation go on. */
    function Finish(o: Outcome): Call {
      if stage == Confirming && o.Returned? && o.response.Ok() then
        this.(stage := Main, pc := Idle, confirmed := Some(o))
      else
        this.(pc := Done(o))
    }
  }

  datatype Settlement = Pending | Answered(response: Response) | Failed

  /** One POST /session/refresh: the epoch and the call it was started in, and how it settled. */
  datatype RenewalRecord = RenewalRecord(epoch: nat, starter: nat, result: Settlement)
  {
    predicate Succeeded() {
      result.Answered? && result.response.status == 204
    }
  }

  datatype State = State(
    calls: map<nat, Call>, refreshInFlight: Option<nat>, refreshEpoch: nat, renewals: seq<RenewalRecord>)
  {
    function With(c: nat, call: Call): State {
      this.(calls := calls[c := call])
    }
  }

  const INITIAL: State := State(map[], None, 0, [])

  datatype Action =
    | Invoke(c: nat, req: Request)
    | Begin(c: nat)
    | Answer(c: nat, response: Response)
    | Drop(c: nat)
    | Classify(c: nat, readable: bool)
    | Settle(result: Settlement)
    | Wake(c: nat)
    | ReadRefusal(c: nat, readable: bool)
    | Abort(c: nat)

  /** The answer a caller that did not opt in gets for a signed-out renewal. */
  const MISSING_REFRESH: Response :=
    Response(401, Json(false, Some("missing_refresh_credential"), None, None), None, None)

  const RENEWABLE_REASONS: set<string> := {"missing_credential", "no_credential", "token_invalid"}

  /** A 401 that names a dead or missing credential, or an opted-in "signed out". */
  predicate Renewable(optedIn: bool, r: Response, readable: bool) {
    var seen := r.Read(readable);
    if optedIn && r.status == 200 && seen.Json? && seen.signedOut then true
    else r.status == 401 && seen.Json? && seen.reason.Some? && seen.reason.value in RENEWABLE_REASONS
  }

  function BeginCall(call: Call, epoch: nat): Call {
    if !call.pc.Idle? then call
    else if call.aborted then call.(pc := Done(Aborted))
    else call.Emit(Sent(call.stage, epoch)).(pc := AwaitFirst(epoch))
  }

  function AnswerCall(call: Call, r: Response): Call {
    match call.pc
    case AwaitFirst(epoch) =>
      if call.Active().Plain() then call.Hear(r).Finish(Returned(r, FromProbe))
      else call.Hear(r).(pc := ReadingAnswer(epoch, r))
    case AwaitRetry => call.Hear(r).Finish(Returned(r, FromRetry))
    case _ => call
  }

  function DropCall(call: Call): Call {
    if call.pc.AwaitFirst? || call.pc.AwaitRetry? then call.Finish(NetworkError) else call
  }

  /** An abort rejects a pending fetch and a wait for a renewal at once; elsewhere it is noticed later. */
  function AbortCall(call: Call): Call {
    match call.pc
    case Done(_) => call
    case AwaitFirst(_) => call.(aborted := true).Finish(Aborted)
    case AwaitRetry => call.(aborted := true).Finish(Aborted)
    case AwaitRenewal(_, _) => call.(aborted := true).Finish(Aborted)
    case _ => call.(aborted := true)
  }

  /** refreshSession: start the renewal unless one is in flight, and wait for it. */
  function RefreshSession(s: State, c: nat, call: Call, epoch: nat): State {
    match s.refreshInFlight
    case Some(k) => s.With(c, call.Emit(Renewal(k, false)).(pc := AwaitRenewal(epoch, k)))
    case None =>
      var k := |s.renewals|;
      s.(renewals := s.renewals + [RenewalRecord(s.refreshEpoch, c, Pending)], refreshInFlight := Some(k))
       .With(c, call.Emit(Renewal(k, true)).(pc := AwaitRenewal(epoch, k)))
  }

  function ClassifyStep(s: State, c: nat, readable: bool): State
    requires c in s.calls
  {
    var call := s.calls[c];
    if !call.pc.ReadingAnswer? then s
    else
      var epoch, r := call.pc.epoch, call.pc.answer;
      if !Renewable(call.Active().optedIn, r, readable) then s.With(c, call.Finish(Returned(r, FromProbe)))
      else if call.aborted then s.With(c, call.Finish(Aborted))
      else if epoch == s.refreshEpoch then RefreshSession(s, c, call, epoch)
      else s.With(c, call.Emit(Resent(epoch, s.refreshEpoch)).(pc := AwaitRetry))
  }

  function WakeCall(s: State, call: Call): Call {
    if !call.pc.AwaitRenewal? || call.pc.renewal >= |s.renewals| then call
    else
      var epoch := call.pc.epoch;
      match s.renewals[call.pc.renewal].result
      case Pending => call
      case Failed => call.Finish(NetworkError)
      case Answered(p) =>
        if p.status == 204 then call.Emit(Resent(epoch, s.refreshEpoch)).(pc := AwaitRetry)
        else call.(pc := ReadingRefusal(call.pc.renewal, p))
  }

  function ReadRefusalCall(call: Call, readable: bool): Call {
    if !call.pc.ReadingRefusal? then call
    else
      var p := call.pc.refusal;
      var seen := p.Read(readable);
      var hidden := !call.Active().optedIn && p.status == 200 && seen.Json? && seen.signedOut;
      call.Finish(Returned(if hidden then MISSING_REFRESH else p, FromRenewal(call.pc.renewal)))
  }

  /** The renewal settles: the epoch moves on a 204, and the slot is cleared. */
  function SettleStep(s: State, result: Settlement): State {
    if s.refreshInFlight.None? || s.refreshInFlight.value >= |s.renewals| || result.Pending? then s
    else
      var k := s.refreshInFlight.value;
      var done := s.renewals[k].(result := result);
      s.(renewals := s.renewals[k := done],
         refreshEpoch := s.refreshEpoch + (if done.Succeeded() then 1 else 0),
         refreshInFlight := None)
  }

  function NewCall(req: Request): Call {
    Call(req, if req.ConfirmsFirst() then Confirming else Main, Idle, false, [], [], None)
  }

  function Step(s: State, a: Action): State {
    match a
    case Invoke(c, req) => if c in s.calls then s else s.With(c, NewCall(req))
    case Begin(c) => if c in s.calls then s.With(c, BeginCall(s.calls[c], s.refreshEpoch)) else s
    case Answer(c, r) => if c in s.calls then s.With(c, AnswerCall(s.calls[c], r)) else s
    case Drop(c) => if c in s.calls then s.With(c, DropCall(s.calls[c])) else s
    case Classify(c, readable) => if c in s.calls then ClassifyStep(s, c, readable) else s
    case Settle(result) => SettleStep(s, result)
    case Wake(c) => if c in s.calls then s.With(c, WakeCall(s, s.calls[c])) else s
    case ReadRefusal(c, readable) => if c in s.calls then s.With(c, ReadRefusalCall(s.calls[c], readable)) else s
    case Abort(c) => if c in s.calls then s.With(c, AbortCall(s.calls[c])) else s
  }

  /** Every interleaving is a list of actions, applied left to right. */
  function Run(s: State, acts: seq<Action>): State
    decreases |acts|
  {
    if acts == [] then s else Run(Step(s, acts[0]), acts[1..])
  }
}
