/** The module state of export/src/bff.ts on one page, updated in place by concurrent calls.

    Each method is the code between two awaits of one call, or one callback of the shared renewal. */
module BffPage {
  import opened Wrappers
  import opened Http
  import opened BffProtocol
  import opened BffInvariant

  class Page {
    var refreshInFlight: Option<nat>
    var refreshEpoch: nat
    var calls: map<nat, Call>
    var renewals: seq<RenewalRecord>

    ghost function View(): State
      reads this
    {
      State(calls, refreshInFlight, refreshEpoch, renewals)
    }

    ghost predicate Valid()
      reads this
    {
      Inv(View())
    }

    constructor ()
      ensures Valid() && View() == INITIAL
    {
      refreshInFlight, refreshEpoch, calls, renewals := None, 0, map[], [];
    }

    /** bff is called: a protected mutation starts with its nested validate read. */
    method Invoke(c: nat, req: Request)
      requires Valid() && c !in calls
      modifies `calls
      ensures Valid() && View() == Step(old(View()), Action.Invoke(c, req))
    {
      StepKeeps(View(), Action.Invoke(c, req));
      var stage := Main;
      if !req.readOnly && req.api && !req.publicCeremony && !req.explicitBearer {
        stage := Confirming;
      }
      calls := calls[c := Call(req, stage, Idle, false, [], [], None)];
    }

    /** Capture the epoch and send; a fetch whose signal is already aborted sends nothing. */
    method Fetch(c: nat)
      requires Valid() && c in calls && calls[c].pc.Idle?
      modifies `calls
      ensures Valid() && View() == Step(old(View()), Begin(c))
    {
      StepKeeps(View(), Begin(c));
      var call := calls[c];
      if call.aborted {
        calls := calls[c := call.(pc := Done(Aborted))];
      } else {
        var epochAtRequest := refreshEpoch;
        call := call.Emit(Sent(call.stage, epochAtRequest));
        calls := calls[c := call.(pc := AwaitFirst(epochAtRequest))];
      }
    }

    /** A fetch of this call is answered. */
    method OnAnswer(c: nat, response: Response)
      requires Valid() && c in calls && (calls[c].pc.AwaitFirst? || calls[c].pc.AwaitRetry?)
      modifies `calls
      ensures Valid() && View() == Step(old(View()), Answer(c, response))
    {
      StepKeeps(View(), Answer(c, response));
      var call := calls[c].Hear(response);
      if call.pc.AwaitRetry? {
        calls := calls[c := call.Finish(Returned(response, FromRetry))];
      } else {
        var request := call.Active();
        if !request.readOnly || !request.api || request.explicitBearer {
          calls := calls[c := call.Finish(Returned(response, FromProbe))];
        } else {
          calls := calls[c := call.(pc := ReadingAnswer(call.pc.epoch, response))];
        }
      }
    }

    /** Join the renewal in flight, or start one. */
    method RefreshSession(c: nat)
      requires Valid() && c in calls && calls[c].pc.ReadingAnswer? && calls[c].pc.epoch == refreshEpoch
      requires calls[c].stage == Confirming ==> calls[c].pc.answer.status == 401
      modifies this
      ensures Valid() && View() == BffProtocol.RefreshSession(old(View()), c, old(calls[c]), old(refreshEpoch))
    {
      RefreshKeeps(View(), c, calls[c]);
      var call := calls[c];
      var started := refreshInFlight.None?;
      if started {
        refreshInFlight := Some(|renewals|);
        renewals := renewals + [RenewalRecord(refreshEpoch, c, Pending)];
      }
      var shared := refreshInFlight.value;
      calls := calls[c := call.Emit(Renewal(shared, started)).(pc := AwaitRenewal(refreshEpoch, shared))];
    }

    /** The answer's body has been read: return it, renew, or resend with the current cookies. */
    method Classify(c: nat, readable: bool)
      requires Valid() && c in calls && calls[c].pc.ReadingAnswer?
      modifies this
      ensures Valid() && View() == Step(old(View()), Action.Classify(c, readable))
    {
      StepKeeps(View(), Action.Classify(c, readable));
      var call := calls[c];
      var epochAtRequest, response := call.pc.epoch, call.pc.answer;
      var body := response.Read(readable);
      if !(call.Active().optedIn && response.status == 200 && body.Json? && body.signedOut) {
        if response.status != 401 || !(body.Json? && body.reason.Some? && body.reason.value in RENEWABLE_REASONS) {
          calls := calls[c := call.Finish(Returned(response, FromProbe))];
          return;
        }
      }
      if call.aborted {
        calls := calls[c := call.Finish(Aborted)];
      } else if epochAtRequest == refreshEpoch {
        RefreshSession(c);
      } else {
        calls := calls[c := call.Emit(Resent(epochAtRequest, refreshEpoch)).(pc := AwaitRetry)];
      }
    }

    /** The shared renewal settles: bump the epoch on a 204, then clear the slot. */
    method SettleRenewal(result: Settlement)
      requires Valid() && refreshInFlight.Some? && !result.Pending?
      modifies `refreshInFlight, `refreshEpoch, `renewals
      ensures Valid() && View() == Step(old(View()), Settle(result))
    {
      StepKeeps(View(), Settle(result));
      SlotIsNewest(View());
      var k := refreshInFlight.value;
      if result.Answered? && result.response.status == 204 {
        refreshEpoch := refreshEpoch + 1;
      }
      renewals := renewals[k := renewals[k].(result := result)];
      refreshInFlight := None;
    }

    /** A waiter resumes after its renewal settled. */
    method Resume(c: nat)
      requires Valid() && c in calls && calls[c].pc.AwaitRenewal?
      requires calls[c].pc.renewal < |renewals| && !renewals[calls[c].pc.renewal].result.Pending?
      modifies `calls
      ensures Valid() && View() == Step(old(View()), Wake(c))
    {
      StepKeeps(View(), Wake(c));
      var call := calls[c];
      var result := renewals[call.pc.renewal].result;
      if result.Failed? {
        calls := calls[c := call.Finish(NetworkError)];
      } else if result.response.status != 204 {
        calls := calls[c := call.(pc := ReadingRefusal(call.pc.renewal, result.response))];
      } else {
        calls := calls[c := call.Emit(Resent(call.pc.epoch, refreshEpoch)).(pc := AwaitRetry)];
      }
    }

    /** The refusal's body has been read: it is returned, a signed-out one as a 401 unless the caller opted in. */
    method ReturnRefusal(c: nat, readable: bool)
      requires Valid() && c in calls && calls[c].pc.ReadingRefusal?
      modifies `calls
      ensures Valid() && View() == Step(old(View()), ReadRefusal(c, readable))
    {
      StepKeeps(View(), ReadRefusal(c, readable));
      var call := calls[c];
      var refreshed, from := call.pc.refusal, FromRenewal(call.pc.renewal);
      var body := refreshed.Read(readable);
      if !call.Active().optedIn && refreshed.status == 200 && body.Json? && body.signedOut {
        calls := calls[c := call.Finish(Returned(MISSING_REFRESH, from))];
      } else {
        calls := calls[c := call.Finish(Returned(refreshed, from))];
      }
    }

    /** The call's own signal aborts: its pending fetch or wait is rejected, nobody else's is. */
    method OnAbort(c: nat)
      requires Valid() && c in calls
      modifies `calls
      ensures Valid() && View() == Step(old(View()), Abort(c))
    {
      StepKeeps(View(), Abort(c));
      var call := calls[c];
      if call.pc.Done? {
        assert calls[c := call] == calls;
      } else if call.pc.AwaitFirst? || call.pc.AwaitRetry? || call.pc.AwaitRenewal? {
        calls := calls[c := call.(aborted := true).Finish(Aborted)];
      } else {
        calls := calls[c := call.(aborted := true)];
      }
    }

    /** A pending fetch of this call fails. */
    method OnNetworkFailure(c: nat)
      requires Valid() && c in calls && (calls[c].pc.AwaitFirst? || calls[c].pc.AwaitRetry?)
      modifies `calls
      ensures Valid() && View() == Step(old(View()), Drop(c))
    {
      StepKeeps(View(), Drop(c));
      calls := calls[c := calls[c].Finish(NetworkError)];
    }
  }

  lemma SlotIsNewest(s: State)
    requires Inv(s) && s.refreshInFlight.Some?
    ensures s.refreshInFlight.value == |s.renewals| - 1
  {
  }
}
