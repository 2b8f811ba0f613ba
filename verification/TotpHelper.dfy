/** The module state of e2e/helpers/totp.ts in one process, with the file it mirrors to and the clock it reads. */
module TotpHelper {
  import opened Wrappers
  import opened TotpCode
  import opened TotpLedger

  datatype Claimed = Claimed(code: Result<string, CodeError>, step: int, offset: int)

  class Helper {
    var ledger: Option<Ledger>
    var file: Ledger
    var clock: nat
    ghost var issued: seq<Issue>

    ghost function View(): World
      reads this
    {
      World(ledger, file, clock, issued)
    }

    /** Nothing issued twice so far, and no recorded step more than one ahead of the clock. */
    ghost predicate Valid()
      reads this
    {
      Inv(View()) && NearClock(View())
    }

    constructor (now: nat)
      ensures Valid() && View() == Fresh(now)
    {
      ledger, file, clock, issued := None, map[], now, [];
    }

    method LoadLedger() returns (l: Ledger)
      modifies `ledger
      ensures l == Loaded(old(View())) && View() == Apply(old(View()), Look)
    {
      if ledger.Some? {
        return ledger.value;
      }
      l := Prune(file, StepOf(clock) - 2);
      ledger := Some(l);
    }

    /** Mark a step as presented and mirror the ledger to the file, if the write succeeds. */
    method Present(key: Key, step: int, saved: bool)
      requires ledger.Some?
      modifies this
      ensures View() == Mark(old(View()), key, step, saved)
    {
      var l := ledger.value;
      ledger := Some(l[key := Steps(l, key) + {step}]);
      issued := issued + [Issue(key, step, StepOf(clock))];
      if saved {
        file := ledger.value;
      }
    }

    /** Claim the first of current, next, previous not presented yet. The step is marked when the code is issued,
        before the secret is even decoded: a malformed secret burns its step. */
    method ClaimUnconsumedTOTPWindow(secret: string, key: Key, p: Platform, saved: bool) returns (r: Option<Claimed>)
      modifies this
      ensures View() == Apply(old(View()), Claim(key, saved))
      ensures r.Some? <==> Offer(old(View()), key).Some?
      ensures r.Some? ==>
                && r.value.step == Offer(old(View()), key).value == StepOf(clock) + r.value.offset
                && IsCode(secret, r.value.step, p, r.value.code)
    {
      ghost var was := View();
      var l := LoadLedger();
      var used := Steps(l, key);
      var current := StepOf(clock);
      var offsets: seq<int> := [0, 1, -1];
      for i := 0 to |offsets|
        invariant View() == Apply(was, Look)
        invariant forall j :: 0 <= j < i ==> current + offsets[j] in used
      {
        var step := current + offsets[i];
        if step !in used {
          assert i >= 1 ==> current + offsets[0] in used;
          assert i >= 2 ==> current + offsets[1] in used;
          assert Offer(was, key) == Some(step);
          Present(key, step, saved);
          var code := TotpCodeForStep(secret, step, p);
          return Some(Claimed(code, step, offsets[i]));
        }
      }
      assert current + offsets[0] in used && current + offsets[1] in used && current + offsets[2] in used;
      return None;
    }

    /** Time passes: a sleep never ends early. */
    method Advance(ms: nat)
      modifies `clock
      ensures View() == Apply(old(View()), Tick(ms))
    {
      clock := clock + ms;
    }

    /** Sleep to the next step boundary plus the margin; a sleep may be late, never early. Then a step is free. */
    method WaitForStep(key: Key, drift: nat, late: nat)
      requires Valid()
      modifies `clock
      ensures Valid() && Offer(View(), key).Some? && Offer(View(), key).value in {StepOf(clock), StepOf(clock) + 1}
      ensures View() == Waited(old(View()), drift, late) && StepOf(clock) > StepOf(old(clock))
    {
      ghost var waiting := View();
      Advance(drift);
      var ms := MsUntilNextStep(clock);
      SleepCrossesTheBoundary(clock, clock + ms + late);
      Advance(ms + late);
      AfterTheWait(waiting, key, drift, ms + late);
    }

    /** A claim that finds a step keeps the ledger valid. */
    method ClaimFree(secret: string, key: Key, p: Platform, saved: bool) returns (claimed: Claimed)
      requires Valid() && Offer(View(), key).Some?
      modifies this
      ensures Valid() && View() == Apply(old(View()), Claim(key, saved))
      ensures claimed.step == Offer(old(View()), key).value == StepOf(clock) + claimed.offset
      ensures IsCode(secret, claimed.step, p, claimed.code)
      ensures issued == old(issued) + [Issue(key, claimed.step, StepOf(clock))]
    {
      ClaimIsValid(View(), key, saved);
      var r := ClaimUnconsumedTOTPWindow(secret, key, p, saved);
      claimed := r.value;
    }

    /** A code for a step this user has not presented: no wait unless all three steps are spent, then one wait,
        after which the current or the next step is free. It never fails to find one. */
    method UnconsumedTOTP(secret: string, key: Key, p: Platform, drift: nat, late: nat, saved: bool)
      returns (claimed: Claimed, slept: bool)
      requires Valid()
      modifies this
      ensures Valid()
      ensures slept <==> Offer(old(View()), key).None?
      ensures var w := if slept then Waited(Apply(old(View()), Look), drift, late) else old(View());
        View() == Apply(w, Claim(key, saved)) && Offer(w, key) == Some(claimed.step)
      ensures slept ==> StepOf(clock) > StepOf(old(clock)) && claimed.offset in {0, 1}
      ensures claimed.step == StepOf(clock) + claimed.offset && IsCode(secret, claimed.step, p, claimed.code)
      ensures issued == old(issued) + [Issue(key, claimed.step, StepOf(clock))]
    {
      ClaimIsValid(View(), key, saved);
      var first := ClaimUnconsumedTOTPWindow(secret, key, p, saved);
      if first.Some? {
        return first.value, false;
      }
      WaitForStep(key, drift, late);
      slept := true;
      claimed := ClaimFree(secret, key, p, saved);
    }

    /** For a retry after a refusal: wait for the next step first. One wait is enough, and the code is of the new
        current or next step, never of the previous one. */
    method UnconsumedTOTPAfterFreshStep(secret: string, key: Key, p: Platform, late: nat, saved: bool)
      returns (claimed: Claimed)
      requires Valid()
      modifies this
      ensures Valid()
      ensures View() == Apply(Waited(old(View()), 0, late), Claim(key, saved))
      ensures claimed.offset in {0, 1} && claimed.step == StepOf(clock) + claimed.offset > StepOf(old(clock))
      ensures IsCode(secret, claimed.step, p, claimed.code)
      ensures issued == old(issued) + [Issue(key, claimed.step, StepOf(clock))]
    {
      WaitForStep(key, 0, late);
      var slept;
      claimed, slept := UnconsumedTOTP(secret, key, p, 0, 0, saved);
    }

    /** The process ends; its ledger is lost, the file stays. */
    method Restart()
      requires Valid() && Covers(file, View())
      modifies `ledger
      ensures Valid() && View() == Apply(old(View()), Action.Restart)
    {
      ledger := None;
    }
  }

  /** A sleep to the next step boundary that began `drift` ms later and ended `late` ms late. */
  function Waited(w: World, drift: nat, late: nat): World {
    w.(now := w.now + drift + MsUntilNextStep(w.now + drift) + late)
  }

  lemma ClaimIsValid(w: World, key: Key, saved: bool)
    requires Inv(w) && NearClock(w)
    ensures Inv(Apply(w, Claim(key, saved))) && NearClock(Apply(w, Claim(key, saved)))
  {
    StepKeeps(w, Claim(key, saved));
    NearClockStep(w, Claim(key, saved));
  }

  lemma AfterTheWait(w: World, key: Key, a: nat, b: nat)
    requires Inv(w) && NearClock(w) && StepOf(w.now + a + b) > StepOf(w.now)
    ensures var t := Apply(Apply(w, Tick(a)), Tick(b));
      Inv(t) && NearClock(t) && Offer(t, key).Some? && Offer(t, key).value in {StepOf(t.now), StepOf(t.now) + 1}
  {
    TwoTicks(w, a, b);
    WaitFreesAStep(w, key, [Tick(a), Tick(b)]);
    StepKeeps(w, Tick(a));
    StepKeeps(Apply(w, Tick(a)), Tick(b));
    NearClockStep(w, Tick(a));
    NearClockStep(Apply(w, Tick(a)), Tick(b));
  }

  lemma TwoTicks(w: World, a: nat, b: nat)
    ensures Run(w, [Tick(a), Tick(b)]) == w.(now := w.now + a + b)
  {
    assert [Tick(a), Tick(b)][1..] == [Tick(b)] && [Tick(b)][1..] == [];
    var w1 := Apply(w, Tick(a));
    assert Run(w1, [Tick(b)]) == Apply(w1, Tick(b));
  }
}
