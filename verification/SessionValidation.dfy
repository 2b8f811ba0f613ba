/** The session verdict engine of src/lib/session-validation.ts: a retry loop under a wall-clock budget.

    Time is in milliseconds. Only awaits take time. A timer never fires early and may fire late. */
module SessionValidation {
  import opened Wrappers
  import opened Binary
  import opened Http
  import opened Decimal
  import opened Whitespace
  import RetryAfter

  const TOTAL_CAP_MS: int := 8000
  const ATTEMPT_TIMEOUT_MS: int := 4000
  const MAX_WAIT_MS: int := 2000
  const BACKOFF_BASE_MS: int := 200
  const MIN_USEFUL_ATTEMPT_MS: int := 100

  datatype Detail = NotAttempted | AnsweredStatus(status: nat) | UnreachableBy(name: string)

  datatype SessionState =
    | Authenticated(session: Body)
    | Unauthenticated(status: Option<nat>, reason: Option<string>)
    | Unavailable(
        status: Option<nat>, correlationId: Option<string>, retryAfterSeconds: Option<nat>,
        attempts: nat, detail: Detail)

  /** How one attempt's request settles by itself: an answer whose body can or cannot be read, or a rejection. */
  datatype Reply = Answer(response: Response, readable: bool) | Rejected(name: string)

  /** One round of the loop as the environment plays it: the reply; after how long the request settles; how long its
      body then takes; whether the attempt's signal cuts that body off; and how late the attempt's timeout and the
      sleep after it fire. */
  datatype Exchange = Exchange(
    reply: Reply, took: nat, body: nat, signalled: bool, timeoutLate: nat, sleepLate: nat)

  /** The start of the run on the wall clock, the rounds, and the source's date parser. Every result holds for every
      parser. */
  datatype Env = Env(startedAt: int, exchanges: nat -> Exchange, dateOf: string -> Option<int>)

  // ---------------------------------------------------------------- waiting

  function Max(a: int, b: int): int {
    if a > b then a else b
  }

  function Min(a: int, b: int): int {
    if a < b then a else b
  }

  function PlanNextWaitMs(attempt: nat, retryAfterSeconds: Option<nat>, remainingMs: int): Option<nat> {
    var backoff := BACKOFF_BASE_MS * Pow2(Max(0, attempt - 1));
    var honored := if retryAfterSeconds.Some? then Max(backoff, retryAfterSeconds.value * 1000) else backoff;
    var wait := Min(honored, MAX_WAIT_MS);
    if remainingMs - wait < MIN_USEFUL_ATTEMPT_MS then None else Some(wait)
  }

  lemma {:induction false} Pow2Grows(n: nat)
    ensures Pow2(n) >= 1
    ensures n >= 4 ==> Pow2(n) >= 16
  {
    if n > 0 {
      Pow2Grows(n - 1);
    }
    if n == 4 {
      assert Pow2(2) == 4 && Pow2(3) == 8;
    }
  }

  /** The least wait after the given number of attempts: 200, 400, 800, 1600, then 2000. */
  function LeastWait(attempts: nat): nat {
    if attempts <= 1 then 200 else if attempts == 2 then 400 else if attempts == 3 then 800
    else if attempts == 4 then 1600 else 2000
  }

  /** A planned wait honours the backoff and the server's Retry-After up to the cap, and leaves room for a
      useful attempt; none is planned exactly when the least acceptable wait would not. */
  lemma PlannedWait(attempt: nat, retryAfterSeconds: Option<nat>, remainingMs: int)
    ensures var asked := if retryAfterSeconds.Some? then retryAfterSeconds.value * 1000 else 0;
      var least := Min(Max(LeastWait(attempt), asked), MAX_WAIT_MS);
      match PlanNextWaitMs(attempt, retryAfterSeconds, remainingMs)
      case None => remainingMs < least + MIN_USEFUL_ATTEMPT_MS
      case Some(wait) => wait == least && remainingMs >= least + MIN_USEFUL_ATTEMPT_MS
  {
    Pow2Grows(Max(0, attempt - 1));
    assert Pow2(1) == 2 && Pow2(2) == 4 && Pow2(3) == 8;
  }

  // ---------------------------------------------------------------- the loop

  datatype Last = Last(
    status: Option<nat>, correlationId: Option<string>, retryAfterSeconds: Option<nat>, detail: Detail)

  const NOTHING: Last := Last(None, None, None, NotAttempted)

  function TimeoutMs(remaining: int): int {
    Max(MIN_USEFUL_ATTEMPT_MS, Min(ATTEMPT_TIMEOUT_MS, if remaining > 0 then remaining else ATTEMPT_TIMEOUT_MS))
  }

  /** When the attempt's signal fires. */
  function Deadline(ex: Exchange, timeoutMs: int): int {
    timeoutMs + ex.timeoutLate
  }

  /** The request settled in time, its body did not, and the signal cuts it off. */
  predicate Cut(ex: Exchange, timeoutMs: int) {
    ex.reply.Answer? && ex.signalled && ex.took <= Deadline(ex, timeoutMs) < ex.took + ex.body
  }

  /** The request honours the attempt's signal; a body that is cut off reads as no JSON. */
  function Settled(ex: Exchange, timeoutMs: int): Reply {
    if ex.took > Deadline(ex, timeoutMs) then Rejected("TimeoutError")
    else if Cut(ex, timeoutMs) then Answer(ex.reply.response, false)
    else ex.reply
  }

  function Took(ex: Exchange, timeoutMs: int): int {
    if ex.took > Deadline(ex, timeoutMs) || Cut(ex, timeoutMs) then Deadline(ex, timeoutMs)
    else ex.took + (if ex.reply.Answer? then ex.body else 0)
  }

  /** How long past the attempt's deadline a body runs that its signal does not cut off. */
  function Excess(ex: Exchange, timeoutMs: int): nat {
    Max(0, Took(ex, timeoutMs) - Deadline(ex, timeoutMs))
  }

  function NonEmpty(s: Option<string>): Option<string> {
    if s == Some("") then None else s
  }

  function First(a: Option<string>, b: Option<string>): Option<string> {
    if a.Some? then a else b
  }

  /** A verdict ends the loop: an ok answer, or a refusal below 500 other than 429. */
  function Verdict(reply: Reply): Option<SessionState> {
    if reply.Rejected? then None
    else
      var r := reply.response;
      var body := r.Read(reply.readable);
      if r.Ok() then
        if body.Json? && body.signedOut then Some(Unauthenticated(Some(r.status), Some("signed_out")))
        else Some(Authenticated(body))
      else if r.status < 500 && r.status != 429 then
        Some(Unauthenticated(Some(r.status),
               if body.Json? then First(NonEmpty(body.reason), NonEmpty(body.error)) else None))
      else None
  }

  /** What an attempt without a verdict leaves for the next wait and the final report. */
  function Lasting(reply: Reply, now: int, env: Env): Last {
    match reply
    case Rejected(name) => Last(None, None, None, UnreachableBy(name))
    case Answer(r, readable) =>
      var body := r.Read(readable);
      Last(Some(r.status), First(r.requestId, if body.Json? then NonEmpty(body.correlationId) else None),
           RetryAfter.Seconds(r.retryAfter, now, env.dateOf), AnsweredStatus(r.status))
  }

  /** What the loop returns, how many requests it sent, and how long it ran. */
  datatype Report = Report(state: SessionState, attempts: nat, elapsed: int)

  function GiveUp(attempts: nat, elapsed: int, last: Last): Report {
    var state := Unavailable(last.status, last.correlationId, last.retryAfterSeconds, attempts, last.detail);
    Report(state, attempts, elapsed)
  }

  function Budget(elapsed: int): nat {
    if elapsed <= TOTAL_CAP_MS then TOTAL_CAP_MS - elapsed else 0
  }

  /** One round: it ends the loop, or leads to the next request. */
  datatype Round = Ends(report: Report) | Continues(elapsed: int, last: Last)

  function PlayRound(env: Env, attempts: nat, elapsed: int): Round {
    var ex := env.exchanges(attempts);
    var timeoutMs := TimeoutMs(TOTAL_CAP_MS - elapsed);
    var reply, now := Settled(ex, timeoutMs), elapsed + Took(ex, timeoutMs);
    match Verdict(reply)
    case Some(state) => Ends(Report(state, attempts + 1, now))
    case None =>
      var next := Lasting(reply, env.startedAt + now, env);
      match PlanNextWaitMs(attempts + 1, next.retryAfterSeconds, TOTAL_CAP_MS - now)
      case None => Ends(GiveUp(attempts + 1, now, next))
      case Some(wait) => Continues(now + wait + ex.sleepLate, next)
  }

  /** What a round costs: it ends by its deadline, but for the excess of its body; if it continues, a wait that leaves
      time has passed. */
  lemma RoundTiming(env: Env, attempts: nat, elapsed: int)
    requires 0 <= elapsed
    ensures var ex := env.exchanges(attempts);
      match PlayRound(env, attempts, elapsed)
      case Ends(report) =>
        report.attempts == attempts + 1
        && elapsed <= report.elapsed
        && report.elapsed <= elapsed + Deadline(ex, TimeoutMs(TOTAL_CAP_MS - elapsed))
                             + Excess(ex, TimeoutMs(TOTAL_CAP_MS - elapsed))
      case Continues(later, _) =>
        && elapsed + LeastWait(attempts + 1) <= later <= TOTAL_CAP_MS - MIN_USEFUL_ATTEMPT_MS + ex.sleepLate
        && elapsed + LeastWait(attempts + 1) + MIN_USEFUL_ATTEMPT_MS <= TOTAL_CAP_MS
  {
    var ex := env.exchanges(attempts);
    var timeoutMs := TimeoutMs(TOTAL_CAP_MS - elapsed);
    var reply, now := Settled(ex, timeoutMs), elapsed + Took(ex, timeoutMs);
    if Verdict(reply).None? {
      PlannedWait(attempts + 1, Lasting(reply, env.startedAt + now, env).retryAfterSeconds, TOTAL_CAP_MS - now);
    }
  }

  /** The rest of the loop, after `attempts` requests, `elapsed` ms after the start. */
  function Loop(env: Env, attempts: nat, elapsed: int, last: Last): Report
    requires 0 <= elapsed
    decreases Budget(elapsed)
  {
    if attempts > 0 && TOTAL_CAP_MS - elapsed < MIN_USEFUL_ATTEMPT_MS then GiveUp(attempts, elapsed, last)
    else
      RoundTiming(env, attempts, elapsed);
      match PlayRound(env, attempts, elapsed)
      case Ends(report) => report
      case Continues(later, next) => Loop(env, attempts + 1, later, next)
  }

  function Validate(env: Env): Report {
    Loop(env, 0, 0, NOTHING)
  }

  /** One pass through the body of the loop. */
  method RunRound(env: Env, before: nat, start: int) returns (round: Round)
    ensures round == PlayRound(env, before, start)
  {
    var ex := env.exchanges(before);
    var attempts := before + 1;
    var timeoutMs := TimeoutMs(TOTAL_CAP_MS - start);
    var reply := Settled(ex, timeoutMs);
    var elapsed := start + Took(ex, timeoutMs);
    var verdict := Verdict(reply);
    if verdict.Some? {
      return Ends(Report(verdict.value, attempts, elapsed));
    }
    var last := Lasting(reply, env.startedAt + elapsed, env);
    var wait := PlanNextWaitMs(attempts, last.retryAfterSeconds, TOTAL_CAP_MS - elapsed);
    if wait.None? {
      return Ends(GiveUp(attempts, elapsed, last));
    }
    return Continues(elapsed + wait.value + ex.sleepLate, last);
  }

  /** The loop as the source runs it. */
  method ValidateSessionResponse(env: Env) returns (report: Report)
    ensures report == Validate(env)
  {
    var elapsed := 0;
    var attempts: nat := 0;
    var last := NOTHING;
    while true
      invariant 0 <= elapsed && Loop(env, attempts, elapsed, last) == Validate(env)
      decreases Budget(elapsed)
    {
      if attempts > 0 && TOTAL_CAP_MS - elapsed < MIN_USEFUL_ATTEMPT_MS {
        break;
      }
      RoundTiming(env, attempts, elapsed);
      var round := RunRound(env, attempts, elapsed);
      if round.Ends? {
        return round.report;
      }
      attempts := attempts + 1;
      elapsed, last := round.elapsed, round.last;
    }
    return GiveUp(attempts, elapsed, last);
  }

  // ---------------------------------------------------------------- the attempts of a run

  /** When attempt i starts, counted from a later point of the loop. */
  function StartFrom(env: Env, attempts: nat, elapsed: int, i: nat): (start: int)
    requires 0 <= elapsed && attempts <= i
    ensures 0 <= start
    decreases i - attempts
  {
    RoundTiming(env, attempts, elapsed);
    if attempts == i then elapsed
    else
      match PlayRound(env, attempts, elapsed)
      case Ends(_) => elapsed
      case Continues(later, _) => StartFrom(env, attempts + 1, later, i)
  }

  function TimeoutFrom(env: Env, attempts: nat, elapsed: int, i: nat): int
    requires 0 <= elapsed && attempts <= i
  {
    TimeoutMs(TOTAL_CAP_MS - StartFrom(env, attempts, elapsed, i))
  }

  /** When attempt i starts. */
  function Start(env: Env, i: nat): int {
    StartFrom(env, 0, 0, i)
  }

  /** The timeout of attempt i. */
  function AttemptMs(env: Env, i: nat): int {
    TimeoutFrom(env, 0, 0, i)
  }

  /** What attempt i came to. */
  function Attempted(env: Env, i: nat): Reply {
    Settled(env.exchanges(i), AttemptMs(env, i))
  }

  /** How long past its deadline the final attempt's body ran. */
  function FinalExcess(env: Env): nat {
    var n := Validate(env).attempts;
    if n == 0 then 0 else Excess(env.exchanges(n - 1), AttemptMs(env, n - 1))
  }

  // ---------------------------------------------------------------- time

  ghost predicate LateByAtMost(env: Env, d: nat) {
    forall i: nat :: env.exchanges(i).timeoutLate <= d && env.exchanges(i).sleepLate <= d
  }

  lemma RoundInTime(env: Env, attempts: nat, elapsed: int, d: nat)
    requires LateByAtMost(env, d) && 0 <= elapsed
    requires if attempts == 0 then elapsed == 0 else elapsed <= TOTAL_CAP_MS - MIN_USEFUL_ATTEMPT_MS
    ensures match PlayRound(env, attempts, elapsed)
      case Ends(report) =>
        && report.attempts == attempts + 1
        && report.elapsed <= TOTAL_CAP_MS + d + Excess(env.exchanges(attempts), TimeoutMs(TOTAL_CAP_MS - elapsed))
      case Continues(later, _) => 0 <= later <= TOTAL_CAP_MS - MIN_USEFUL_ATTEMPT_MS + d
  {
    RoundTiming(env, attempts, elapsed);
  }

  lemma TimeoutUnfolds(env: Env, attempts: nat, elapsed: int, i: nat)
    requires 0 <= elapsed && attempts <= i
    ensures i == attempts ==> TimeoutFrom(env, attempts, elapsed, i) == TimeoutMs(TOTAL_CAP_MS - elapsed)
    ensures var round := PlayRound(env, attempts, elapsed);
      i > attempts && round.Continues? ==>
        round.elapsed >= 0
        && TimeoutFrom(env, attempts, elapsed, i) == TimeoutFrom(env, attempts + 1, round.elapsed, i)
  {
    RoundTiming(env, attempts, elapsed);
  }

  /** The rest of a run, in time but for the excess of its final body, if it makes another attempt. */
  ghost predicate InTime(env: Env, attempts: nat, elapsed: int, report: Report, d: nat)
    requires 0 <= elapsed
  {
    && attempts <= report.attempts
    && report.elapsed <= TOTAL_CAP_MS + d
         + if report.attempts == attempts then 0
           else Excess(env.exchanges(report.attempts - 1), TimeoutFrom(env, attempts, elapsed, report.attempts - 1))
  }

  lemma InTimeStep(env: Env, attempts: nat, elapsed: int, report: Report, d: nat)
    requires LateByAtMost(env, d) && 0 <= elapsed
    requires if attempts == 0 then elapsed == 0 else elapsed <= TOTAL_CAP_MS - MIN_USEFUL_ATTEMPT_MS
    requires match PlayRound(env, attempts, elapsed)
      case Ends(end) => report == end
      case Continues(later, _) => 0 <= later && InTime(env, attempts + 1, later, report, d)
    ensures InTime(env, attempts, elapsed, report, d)
  {
    RoundInTime(env, attempts, elapsed, d);
    TimeoutUnfolds(env, attempts, elapsed, report.attempts - 1);
  }

  lemma {:induction false} LoopInTime(env: Env, attempts: nat, elapsed: int, last: Last, d: nat)
    requires LateByAtMost(env, d) && 0 <= elapsed
    requires if attempts == 0 then elapsed == 0 else elapsed <= TOTAL_CAP_MS - MIN_USEFUL_ATTEMPT_MS + d
    ensures InTime(env, attempts, elapsed, Loop(env, attempts, elapsed, last), d)
    decreases Budget(elapsed)
  {
    if attempts == 0 || TOTAL_CAP_MS - elapsed >= MIN_USEFUL_ATTEMPT_MS {
      RoundTiming(env, attempts, elapsed);
      var round := PlayRound(env, attempts, elapsed);
      if round.Continues? {
        LoopInTime(env, attempts + 1, round.elapsed, round.last, d);
      }
      InTimeStep(env, attempts, elapsed, Loop(env, attempts, elapsed, last), d);
    }
  }

  /** With timers up to d ms late, validation ends within the cap plus d plus what the final attempt's body runs past
      its own deadline: neither lateness nor excess accumulates. */
  lemma ValidationInTime(env: Env, d: nat)
    requires LateByAtMost(env, d)
    ensures Validate(env).elapsed <= TOTAL_CAP_MS + d + FinalExcess(env)
  {
    LoopInTime(env, 0, 0, NOTHING, d);
  }

  /** A body that the signal cuts off has no excess, and one that it does not has at most its own time. */
  lemma ExcessIsTheBody(ex: Exchange, timeoutMs: int)
    ensures Excess(ex, timeoutMs) > 0 ==> ex.reply.Answer? && !ex.signalled && Excess(ex, timeoutMs) <= ex.body
  {
  }

  const NEVER: Exchange := Exchange(Rejected("never"), 1000000, 0, true, 0, 0)

  /** A server that never answers the first request, and whose second answer, when the timeout fires d ms late, has a
      body of b ms that no signal cuts off. */
  function Stalling(d: nat, b: nat): Env {
    var refusal := Answer(Response(503, NoJson, None, None), true);
    Env(0, (i: nat) => if i == 0 then NEVER else Exchange(refusal, 3800 + d, b, false, d, d), (s: string) => None)
  }

  /** The bound is reached, for every lateness and every excess. */
  lemma InTimeIsTight(d: nat, b: nat)
    ensures LateByAtMost(Stalling(d, b), d)
    ensures FinalExcess(Stalling(d, b)) == b
    ensures Validate(Stalling(d, b)).elapsed == TOTAL_CAP_MS + d + b
  {
    var env := Stalling(d, b);
    PlannedWait(1, None, 4000);
    PlannedWait(2, None, -(d + b));
    var next := Lasting(Rejected("TimeoutError"), 4000, env);
    assert PlayRound(env, 0, 0) == Continues(4200, next);
    assert PlayRound(env, 1, 4200).Ends?;
    assert Loop(env, 1, 4200, next).elapsed == TOTAL_CAP_MS + d + b;
    assert StartFrom(env, 1, 4200, 1) == 4200;
    assert AttemptMs(env, 1) == 3800;
  }

  /** The exact condition: the cap plus d holds for every environment whose final body runs at most b ms past its
      deadline if and only if b is zero. */
  lemma InTimeCondition(d: nat, b: nat)
    ensures (forall env :: LateByAtMost(env, d) && FinalExcess(env) <= b ==> Validate(env).elapsed <= TOTAL_CAP_MS + d)
            <==> b == 0
  {
    if b == 0 {
      forall env | LateByAtMost(env, d) && FinalExcess(env) <= b
        ensures Validate(env).elapsed <= TOTAL_CAP_MS + d
      {
        ValidationInTime(env, d);
      }
    } else {
      InTimeIsTight(d, b);
    }
  }

  // ---------------------------------------------------------------- attempts

  /** The least time that can have passed before the next request, from the backoff alone. */
  function LeastElapsed(attempts: nat): nat {
    if attempts == 0 then 0 else LeastElapsed(attempts - 1) + LeastWait(attempts)
  }

  lemma LeastElapsedValues()
    ensures LeastElapsed(1) == 200 && LeastElapsed(2) == 600 && LeastElapsed(3) == 1400 && LeastElapsed(4) == 3000
    ensures LeastElapsed(5) == 5000 && LeastElapsed(6) == 7000 && LeastElapsed(7) == 9000
  {
    assert LeastElapsed(3) == 1400;
    assert LeastElapsed(5) == 5000;
  }

  lemma {:induction false} LoopBounded(env: Env, attempts: nat, elapsed: int, last: Last)
    requires attempts <= 6 && elapsed >= LeastElapsed(attempts)
    ensures (if attempts == 0 then 1 else attempts) <= Loop(env, attempts, elapsed, last).attempts <= 7
    decreases Budget(elapsed)
  {
    LeastElapsedValues();
    if attempts == 0 || TOTAL_CAP_MS - elapsed >= MIN_USEFUL_ATTEMPT_MS {
      RoundTiming(env, attempts, elapsed);
      var round := PlayRound(env, attempts, elapsed);
      if round.Continues? {
        assert LeastElapsed(attempts + 1) == LeastElapsed(attempts) + LeastWait(attempts + 1);
        LoopBounded(env, attempts + 1, round.elapsed, round.last);
      }
    }
  }

  /** For every server and every Retry-After the loop sends at least 1 and at most 7 requests. */
  lemma OneToSevenAttempts(env: Env)
    ensures 1 <= Validate(env).attempts <= 7
  {
    LoopBounded(env, 0, 0, NOTHING);
  }

  const INSTANT_503: Exchange := Exchange(Answer(Response(503, NoJson, None, None), true), 0, 0, true, 0, 0)

  function Refusing(): Env {
    Env(0, (i: nat) => INSTANT_503, (s: string) => None)
  }

  lemma RefusedRound(attempts: nat)
    requires attempts <= 6
    ensures var round := PlayRound(Refusing(), attempts, LeastElapsed(attempts));
      if attempts == 6 then round.Ends? && round.report.attempts == 7
      else round.Continues? && round.elapsed == LeastElapsed(attempts + 1)
  {
    LeastElapsedValues();
    var elapsed := LeastElapsed(attempts);
    PlannedWait(attempts + 1, None, TOTAL_CAP_MS - elapsed);
    assert LeastElapsed(attempts + 1) == elapsed + LeastWait(attempts + 1);
  }

  lemma {:induction false} RefusedFrom(attempts: nat, last: Last)
    requires attempts <= 6
    ensures Loop(Refusing(), attempts, LeastElapsed(attempts), last).attempts == 7
    decreases 7 - attempts
  {
    LeastElapsedValues();
    RefusedRound(attempts);
    if attempts < 6 {
      RefusedFrom(attempts + 1, PlayRound(Refusing(), attempts, LeastElapsed(attempts)).last);
    }
  }

  /** Seven is reached, by a server that answers 503 at once. */
  lemma SevenIsTight()
    ensures Validate(Refusing()).attempts == 7
  {
    RefusedFrom(0, NOTHING);
  }

  // ---------------------------------------------------------------- verdicts

  lemma RoundDecided(env: Env, attempts: nat, elapsed: int)
    ensures var verdict := Verdict(Settled(env.exchanges(attempts), TimeoutMs(TOTAL_CAP_MS - elapsed)));
      match PlayRound(env, attempts, elapsed)
      case Ends(report) => verdict == if report.state.Unavailable? then None else Some(report.state)
      case _ => verdict == None
  {
  }

  lemma {:induction false} LoopCounts(env: Env, attempts: nat, elapsed: int, last: Last)
    requires 0 <= elapsed
    ensures var report := Loop(env, attempts, elapsed, last);
      && attempts <= report.attempts
      && (report.attempts == attempts ==> report.state.Unavailable?)
      && (report.state.Unavailable? ==> report.state.attempts == report.attempts)
    decreases Budget(elapsed)
  {
    if attempts == 0 || TOTAL_CAP_MS - elapsed >= MIN_USEFUL_ATTEMPT_MS {
      RoundTiming(env, attempts, elapsed);
      var round := PlayRound(env, attempts, elapsed);
      if round.Continues? {
        LoopCounts(env, attempts + 1, round.elapsed, round.last);
      }
    }
  }

  /** Of the attempts from some point on, exactly the one that ends the loop with a verdict came to one. */
  lemma {:induction false} LoopDecided(env: Env, attempts: nat, elapsed: int, last: Last, i: nat)
    requires 0 <= elapsed && attempts <= i < Loop(env, attempts, elapsed, last).attempts
    ensures var report := Loop(env, attempts, elapsed, last);
      Verdict(Settled(env.exchanges(i), TimeoutFrom(env, attempts, elapsed, i)))
      == if i + 1 == report.attempts && !report.state.Unavailable? then Some(report.state) else None
    decreases Budget(elapsed)
  {
    RoundTiming(env, attempts, elapsed);
    TimeoutUnfolds(env, attempts, elapsed, i);
    var round := PlayRound(env, attempts, elapsed);
    if i == attempts {
      RoundDecided(env, attempts, elapsed);
      if round.Continues? {
        LoopCounts(env, attempts + 1, round.elapsed, round.last);
      }
    } else {
      LoopDecided(env, attempts + 1, round.elapsed, round.last, i);
    }
  }

  /** The first attempt that comes to a verdict ends the loop, and its verdict is the state; without one the state is
      unavailable and counts the attempts. */
  lemma FirstVerdictDecides(env: Env, i: nat)
    requires i < Validate(env).attempts
    ensures var report := Validate(env);
      && Verdict(Attempted(env, i))
         == (if i + 1 == report.attempts && !report.state.Unavailable? then Some(report.state) else None)
      && (report.state.Unavailable? ==> report.state.attempts == report.attempts)
  {
    LoopDecided(env, 0, 0, NOTHING, i);
    LoopCounts(env, 0, 0, NOTHING);
  }

  lemma LoopGoesOn(env: Env, attempts: nat, elapsed: int, last: Last)
    requires 0 <= elapsed && (attempts == 0 || TOTAL_CAP_MS - elapsed >= MIN_USEFUL_ATTEMPT_MS)
    ensures attempts < Loop(env, attempts, elapsed, last).attempts
    ensures match PlayRound(env, attempts, elapsed)
      case Ends(report) => Loop(env, attempts, elapsed, last) == report
      case Continues(later, next) =>
        && 0 <= later && Budget(later) < Budget(elapsed)
        && Loop(env, attempts, elapsed, last) == Loop(env, attempts + 1, later, next)
  {
    RoundTiming(env, attempts, elapsed);
    var round := PlayRound(env, attempts, elapsed);
    if round.Continues? {
      LoopCounts(env, attempts + 1, round.elapsed, round.last);
    }
  }

  // ---------------------------------------------------------------- reports

  /** The timeout of an attempt: what is left of the budget, at most 4000 ms and at least 100. */
  lemma TimeoutIs(remaining: int)
    ensures 100 <= TimeoutMs(remaining) <= 4000
    ensures 100 <= remaining <= 4000 ==> TimeoutMs(remaining) == remaining
    ensures remaining > 4000 ==> TimeoutMs(remaining) == 4000
  {
  }

  /** When attempt i's reply is complete. */
  function EndFrom(env: Env, attempts: nat, elapsed: int, i: nat): int
    requires 0 <= elapsed && attempts <= i
  {
    StartFrom(env, attempts, elapsed, i) + Took(env.exchanges(i), TimeoutFrom(env, attempts, elapsed, i))
  }

  /** What the final attempt, n requests in all, left behind. */
  function LeftFrom(env: Env, attempts: nat, elapsed: int, n: nat): Last
    requires 0 <= elapsed && attempts < n
  {
    Lasting(Settled(env.exchanges(n - 1), TimeoutFrom(env, attempts, elapsed, n - 1)),
            env.startedAt + EndFrom(env, attempts, elapsed, n - 1), env)
  }

  predicate Carries(state: SessionState, last: Last) {
    && state.Unavailable? && state.status == last.status && state.correlationId == last.correlationId
    && state.retryAfterSeconds == last.retryAfterSeconds && state.detail == last.detail
  }

  lemma RoundLeaves(env: Env, attempts: nat, elapsed: int)
    requires 0 <= elapsed
    ensures match PlayRound(env, attempts, elapsed)
      case Ends(report) =>
        report.state.Unavailable? ==> Carries(report.state, LeftFrom(env, attempts, elapsed, attempts + 1))
      case Continues(_, last) => last == LeftFrom(env, attempts, elapsed, attempts + 1)
  {
    TimeoutUnfolds(env, attempts, elapsed, attempts);
  }

  lemma LeftUnfolds(env: Env, attempts: nat, elapsed: int, n: nat)
    requires 0 <= elapsed && attempts + 1 < n
    ensures var round := PlayRound(env, attempts, elapsed);
      round.Continues? ==>
        round.elapsed >= 0 && LeftFrom(env, attempts, elapsed, n) == LeftFrom(env, attempts + 1, round.elapsed, n)
  {
    RoundTiming(env, attempts, elapsed);
    TimeoutUnfolds(env, attempts, elapsed, n - 1);
  }

  lemma {:induction false} LoopCarries(env: Env, attempts: nat, elapsed: int, last: Last)
    requires 0 <= elapsed
    ensures var report := Loop(env, attempts, elapsed, last);
      && attempts <= report.attempts
      && (report.state.Unavailable? ==>
            Carries(report.state,
                    if report.attempts == attempts then last else LeftFrom(env, attempts, elapsed, report.attempts)))
    decreases Budget(elapsed)
  {
    if attempts == 0 || TOTAL_CAP_MS - elapsed >= MIN_USEFUL_ATTEMPT_MS {
      LoopGoesOn(env, attempts, elapsed, last);
      RoundLeaves(env, attempts, elapsed);
      match PlayRound(env, attempts, elapsed) {
        case Ends(_) =>
        case Continues(later, next) =>
          LoopCarries(env, attempts + 1, later, next);
          var n := Loop(env, attempts + 1, later, next).attempts;
          if n > attempts + 1 {
            LeftUnfolds(env, attempts, elapsed, n);
          }
      }
    }
  }

  /** A non-empty text, if there is one. */
  predicate Names(field: Option<string>, text: string) {
    field == Some(text) && text != ""
  }

  /** What an attempt without a verdict leaves, field by field. It was cut off by its timeout: that alone. It was
      rejected: the error's name alone. It was answered: the status; the request id, or else the correlation id of a
      body that was read; the Retry-After as of that moment. */
  predicate Leaves(last: Last, ex: Exchange, timeoutMs: int, at: int, dateOf: string -> Option<int>) {
    var deadline := timeoutMs + ex.timeoutLate;
    if ex.took > deadline then last == Last(None, None, None, UnreachableBy("TimeoutError"))
    else match ex.reply
      case Rejected(name) => last == Last(None, None, None, UnreachableBy(name))
      case Answer(r, readable) =>
        && last.detail == AnsweredStatus(r.status) && last.status == Some(r.status)
        && last.retryAfterSeconds == RetryAfter.Seconds(r.retryAfter, at, dateOf)
        && var read := readable && r.body.Json? && !(ex.signalled && ex.took + ex.body > deadline);
           match last.correlationId
           case Some(id) => r.requestId == Some(id) || (r.requestId == None && read && Names(r.body.correlationId, id))
           case None =>
             r.requestId == None && (read ==> r.body.correlationId == None || r.body.correlationId == Some(""))
  }

  lemma LastingLeaves(ex: Exchange, timeoutMs: int, at: int, env: Env)
    ensures Leaves(Lasting(Settled(ex, timeoutMs), at, env), ex, timeoutMs, at, env.dateOf)
  {
  }

  lemma LeftLeaves(env: Env, i: nat)
    ensures Leaves(LeftFrom(env, 0, 0, i + 1), env.exchanges(i), AttemptMs(env, i),
                   env.startedAt + EndFrom(env, 0, 0, i), env.dateOf)
  {
    LastingLeaves(env.exchanges(i), AttemptMs(env, i), env.startedAt + EndFrom(env, 0, 0, i), env);
  }

  /** An unavailable state reports the attempts made and what the final one left. */
  lemma UnavailableReport(env: Env)
    requires Validate(env).state.Unavailable?
    ensures Validate(env).attempts > 0
    ensures var n := Validate(env).attempts - 1;
      var state := Validate(env).state;
      && state.attempts == n + 1
      && Leaves(Last(state.status, state.correlationId, state.retryAfterSeconds, state.detail),
                env.exchanges(n), AttemptMs(env, n), env.startedAt + EndFrom(env, 0, 0, n), env.dateOf)
  {
    OneToSevenAttempts(env);
    LoopCounts(env, 0, 0, NOTHING);
    LoopCarries(env, 0, 0, NOTHING);
    LeftLeaves(env, Validate(env).attempts - 1);
  }

  lemma RoundEnds(env: Env, attempts: nat, elapsed: int)
    requires 0 <= elapsed
    ensures var round := PlayRound(env, attempts, elapsed);
      round.Ends? ==> round.report.elapsed == EndFrom(env, attempts, elapsed, attempts)
  {
    TimeoutUnfolds(env, attempts, elapsed, attempts);
  }

  lemma EndUnfolds(env: Env, attempts: nat, elapsed: int, i: nat)
    requires 0 <= elapsed && attempts < i
    ensures var round := PlayRound(env, attempts, elapsed);
      round.Continues? ==>
        round.elapsed >= 0 && EndFrom(env, attempts, elapsed, i) == EndFrom(env, attempts + 1, round.elapsed, i)
  {
    TimeoutUnfolds(env, attempts, elapsed, i);
  }

  /** A verdict ends the run with its attempt. */
  lemma {:induction false} LoopEnds(env: Env, attempts: nat, elapsed: int, last: Last)
    requires 0 <= elapsed && !Loop(env, attempts, elapsed, last).state.Unavailable?
    ensures var report := Loop(env, attempts, elapsed, last);
      && attempts < report.attempts
      && report.elapsed == EndFrom(env, attempts, elapsed, report.attempts - 1)
    decreases Budget(elapsed)
  {
    LoopGoesOn(env, attempts, elapsed, last);
    match PlayRound(env, attempts, elapsed) {
      case Ends(report) => RoundEnds(env, attempts, elapsed);
      case Continues(later, next) =>
        LoopEnds(env, attempts + 1, later, next);
        EndUnfolds(env, attempts, elapsed, Loop(env, attempts + 1, later, next).attempts - 1);
    }
  }

  /** What a verdict reports, and when: as soon as its body is complete or cut off. A 2xx answer is a session, its body
      as read, or "signed out" if it was read as that. Any other is refused with its status, and with the reason, else
      the error, that a body that was read names. */
  lemma VerdictReport(env: Env)
    requires !Validate(env).state.Unavailable?
    ensures Validate(env).attempts > 0
    ensures var n := Validate(env).attempts - 1;
      var state, ex := Validate(env).state, env.exchanges(n);
      var deadline := AttemptMs(env, n) + ex.timeoutLate;
      && ex.took <= deadline && ex.reply.Answer?
      && Validate(env).elapsed
         == Start(env, n) + (if ex.signalled && ex.took + ex.body > deadline then deadline else ex.took + ex.body)
      && var r := ex.reply.response;
         var read := ex.reply.readable && r.body.Json? && !(ex.signalled && ex.took + ex.body > deadline);
         if 200 <= r.status <= 299 then
           if read && r.body.signedOut then state == Unauthenticated(Some(r.status), Some("signed_out"))
           else state == Authenticated(if read then r.body else NoJson)
         else
           && r.status < 500 && r.status != 429 && state.Unauthenticated? && state.status == Some(r.status)
           && match state.reason
              case Some(text) =>
                read && (Names(r.body.reason, text)
                         || ((r.body.reason == None || r.body.reason == Some("")) && Names(r.body.error, text)))
              case None =>
                read ==> && (r.body.reason == None || r.body.reason == Some(""))
                         && (r.body.error == None || r.body.error == Some(""))
  {
    OneToSevenAttempts(env);
    FirstVerdictDecides(env, Validate(env).attempts - 1);
    LoopEnds(env, 0, 0, NOTHING);
  }

  /** An HTTP-date is waited for as well: the next attempt starts no earlier than the date, on the wall clock, or after
      the longest wait there is. */
  lemma DateRetryAfterIsHonoured(env: Env, attempts: nat, elapsed: int, header: string, at: int)
    requires var reply := Settled(env.exchanges(attempts), TimeoutMs(TOTAL_CAP_MS - elapsed));
      && reply.Answer? && reply.response.Outage() && reply.response.retryAfter == Some(header)
    requires header != "" && !AllDigits(Trim(header)) && env.dateOf(Trim(header)) == Some(at)
    ensures var now := elapsed + Took(env.exchanges(attempts), TimeoutMs(TOTAL_CAP_MS - elapsed));
      match PlayRound(env, attempts, elapsed)
      case Continues(later, _) => env.startedAt + later >= at || later >= now + 2000
      case Ends(report) => report.state.Unavailable? && report.state.retryAfterSeconds.Some?
  {
    var ex := env.exchanges(attempts);
    var now := elapsed + Took(ex, TimeoutMs(TOTAL_CAP_MS - elapsed));
    RetryAfter.DateIsReached(header, env.startedAt + now, at, env.dateOf);
    var seconds := RetryAfter.Seconds(Some(header), env.startedAt + now, env.dateOf);
    PlannedWait(attempts + 1, seconds, TOTAL_CAP_MS - now);
  }

  /** A printed Retry-After is honoured: the wait before the next attempt is as long as the header says, up to the cap
      of a wait and if a useful attempt still fits, else the loop ends. */
  lemma PrintedRetryAfterIsHonoured(env: Env, attempts: nat, elapsed: int, n: nat, before: string, after: string)
    requires forall i :: 0 <= i < |before| ==> IsSpace(before[i])
    requires forall i :: 0 <= i < |after| ==> IsSpace(after[i])
    requires var reply := Settled(env.exchanges(attempts), TimeoutMs(TOTAL_CAP_MS - elapsed));
      && reply.Answer? && reply.response.Outage()
      && reply.response.retryAfter == Some(before + ToText(n) + after)
    ensures var ex := env.exchanges(attempts);
      var now := elapsed + Took(ex, TimeoutMs(TOTAL_CAP_MS - elapsed));
      var wait := Min(Max(LeastWait(attempts + 1), n * 1000), MAX_WAIT_MS);
      match PlayRound(env, attempts, elapsed)
      case Continues(later, _) =>
        later == now + wait + ex.sleepLate && TOTAL_CAP_MS - now >= wait + MIN_USEFUL_ATTEMPT_MS
      case Ends(report) =>
        report.state.Unavailable? && report.state.retryAfterSeconds == Some(n)
        && TOTAL_CAP_MS - now < wait + MIN_USEFUL_ATTEMPT_MS
  {
    var ex := env.exchanges(attempts);
    var now := elapsed + Took(ex, TimeoutMs(TOTAL_CAP_MS - elapsed));
    RetryAfter.DelaySecondsRoundTrip(n, before, after, env.startedAt + now, env.dateOf);
    PlannedWait(attempts + 1, Some(n), TOTAL_CAP_MS - now);
  }

  // ---------------------------------------------------------------- opted in or not

  predicate SameKind(a: SessionState, b: SessionState) {
    (a.Authenticated? <==> b.Authenticated?) && (a.Unauthenticated? <==> b.Unauthenticated?)
  }

  predicate SameReply(x: Reply, y: Reply) {
    x == y || (Verdict(x).Some? && Verdict(y).Some? && SameKind(Verdict(x).value, Verdict(y).value))
  }

  /** The same reply, or two answers, both read or both not, that are no outage: only the wording differs. */
  predicate Reworded(x: Reply, y: Reply) {
    || x == y
    || (x.Answer? && y.Answer? && x.readable == y.readable && !x.response.Outage() && !y.response.Outage())
  }

  predicate SameExchange(x: Exchange, y: Exchange) {
    x.(reply := y.reply) == y && Reworded(x.reply, y.reply)
  }

  /** Two environments with the same clock whose first n exchanges differ in wording only. */
  ghost predicate Twins(env: Env, other: Env, n: nat) {
    && env.startedAt == other.startedAt && env.dateOf == other.dateOf
    && forall i: nat :: i < n ==> SameExchange(env.exchanges(i), other.exchanges(i))
  }

  lemma SettledReworded(x: Exchange, y: Exchange, timeoutMs: int)
    requires SameExchange(x, y)
    ensures Took(x, timeoutMs) == Took(y, timeoutMs) && Reworded(Settled(x, timeoutMs), Settled(y, timeoutMs))
  {
  }

  lemma VerdictsReworded(x: Reply, y: Reply)
    requires Reworded(x, y)
    ensures x == y || (Verdict(x).Some? && Verdict(y).Some?)
  {
  }

  /** Two rounds end or go on alike; if they end, their kinds agree exactly when those of the replies do. */
  predicate SameRound(a: Round, b: Round, x: Reply, y: Reply) {
    match a
    case Continues(_, _) => a == b && x == y
    case Ends(report) =>
      && b.Ends? && report.attempts == b.report.attempts && report.elapsed == b.report.elapsed
      && (SameKind(report.state, b.report.state) <==> SameReply(x, y))
  }

  lemma RoundReworded(env: Env, other: Env, attempts: nat, elapsed: int)
    requires Twins(env, other, attempts + 1)
    ensures var timeoutMs := TimeoutMs(TOTAL_CAP_MS - elapsed);
      SameRound(PlayRound(env, attempts, elapsed), PlayRound(other, attempts, elapsed),
                Settled(env.exchanges(attempts), timeoutMs), Settled(other.exchanges(attempts), timeoutMs))
  {
    var x, y := env.exchanges(attempts), other.exchanges(attempts);
    var timeoutMs := TimeoutMs(TOTAL_CAP_MS - elapsed);
    assert SameExchange(x, y);
    SettledReworded(x, y, timeoutMs);
    VerdictsReworded(Settled(x, timeoutMs), Settled(y, timeoutMs));
  }

  /** The two reports of the rest of the loop, n requests in all: as many attempts and as long, and of one kind exactly
      when the final replies are. */
  ghost predicate Agree(env: Env, other: Env, attempts: nat, elapsed: int, a: Report, b: Report, n: nat)
    requires 0 <= elapsed
  {
    && a.attempts == b.attempts && a.elapsed == b.elapsed
    && if n <= attempts then SameKind(a.state, b.state)
       else
         var timeoutMs := TimeoutFrom(env, attempts, elapsed, n - 1);
         SameKind(a.state, b.state) <==>
         SameReply(Settled(env.exchanges(n - 1), timeoutMs), Settled(other.exchanges(n - 1), timeoutMs))
  }

  lemma AgreeEnds(env: Env, other: Env, attempts: nat, elapsed: int, a: Report, b: Report)
    requires 0 <= elapsed
    requires Ends(a) == PlayRound(env, attempts, elapsed) && Ends(b) == PlayRound(other, attempts, elapsed)
    requires Twins(env, other, attempts + 1)
    ensures Agree(env, other, attempts, elapsed, a, b, attempts + 1)
  {
    RoundReworded(env, other, attempts, elapsed);
    TimeoutUnfolds(env, attempts, elapsed, attempts);
  }

  lemma AgreeGoesOn(env: Env, other: Env, attempts: nat, elapsed: int, a: Report, b: Report, n: nat)
    requires 0 <= elapsed && attempts < n
    requires Twins(env, other, n)
    requires PlayRound(env, attempts, elapsed).Continues? && PlayRound(env, attempts, elapsed).elapsed >= 0
    requires Agree(env, other, attempts + 1, PlayRound(env, attempts, elapsed).elapsed, a, b, n)
    ensures Agree(env, other, attempts, elapsed, a, b, n)
  {
    RoundReworded(env, other, attempts, elapsed);
    TimeoutUnfolds(env, attempts, elapsed, n - 1);
  }

  lemma {:induction false} LoopReworded(env: Env, other: Env, attempts: nat, elapsed: int, last: Last, n: nat)
    requires Twins(env, other, n) && 0 <= elapsed
    requires Loop(env, attempts, elapsed, last).attempts == n
    ensures Agree(env, other, attempts, elapsed,
                  Loop(env, attempts, elapsed, last), Loop(other, attempts, elapsed, last), n)
    decreases Budget(elapsed)
  {
    if attempts == 0 || TOTAL_CAP_MS - elapsed >= MIN_USEFUL_ATTEMPT_MS {
      LoopGoesOn(env, attempts, elapsed, last);
      LoopGoesOn(other, attempts, elapsed, last);
      RoundReworded(env, other, attempts, elapsed);
      var a, b := Loop(env, attempts, elapsed, last), Loop(other, attempts, elapsed, last);
      match PlayRound(env, attempts, elapsed) {
        case Ends(_) => AgreeEnds(env, other, attempts, elapsed, a, b);
        case Continues(later, next) =>
          LoopReworded(env, other, attempts + 1, later, next, n);
          AgreeGoesOn(env, other, attempts, elapsed, a, b, n);
      }
    }
  }

  /** Transports of equal timing that differ only in how their verdicts are worded: validation makes as many attempts
      and takes as long, and gives the same kind of state if and only if the final replies, read or cut off, are of
      one kind. */
  lemma ValidateSameKind(env: Env, other: Env)
    requires Twins(env, other, Validate(env).attempts)
    ensures Validate(other).attempts == Validate(env).attempts > 0 && Validate(other).elapsed == Validate(env).elapsed
    ensures var n := Validate(env).attempts - 1;
      SameKind(Validate(env).state, Validate(other).state) <==>
      SameReply(Attempted(env, n), Settled(other.exchanges(n), AttemptMs(env, n)))
  {
    OneToSevenAttempts(env);
    LoopReworded(env, other, 0, 0, NOTHING, Validate(env).attempts);
  }
}
