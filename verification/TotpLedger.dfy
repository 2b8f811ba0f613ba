/** The issued-step ledger of e2e/helpers/totp.ts: which steps each user has already presented.

    A user is its ledger key; the file is the map it holds, empty when absent or unreadable. */
module TotpLedger {
  import opened Wrappers
  import opened TotpCode

  type Key = string

  type Ledger = map<Key, set<int>>

  function Steps(l: Ledger, key: Key): set<int> {
    if key in l then l[key] else {}
  }

  /** What is kept on load: the steps from two before the current one on. */
  function Prune(file: Ledger, floor: int): Ledger {
    map key | key in file && (exists s :: s in file[key] && s >= floor) :: set s | s in file[key] && s >= floor
  }

  /** A code that was issued, and the step that was current then. */
  datatype Issue = Issue(key: Key, step: int, at: nat)

  /** The process's ledger (none until first used), the file, the clock, and every code issued so far, across
      processes. */
  datatype World = World(mem: Option<Ledger>, file: Ledger, now: nat, issued: seq<Issue>)

  function Loaded(w: World): Ledger {
    match w.mem
    case Some(l) => l
    case None => Prune(w.file, StepOf(w.now) - 2)
  }

  /** The first of current, next, previous that is not used. */
  function FirstUnused(used: set<int>, current: int): Option<int> {
    if current !in used then Some(current)
    else if current + 1 !in used then Some(current + 1)
    else if current - 1 !in used then Some(current - 1)
    else None
  }

  function Offer(w: World, key: Key): Option<int> {
    FirstUnused(Steps(Loaded(w), key), StepOf(w.now))
  }

  function Mark(w: World, key: Key, step: int, saved: bool): World {
    var l := Loaded(w)[key := Steps(Loaded(w), key) + {step}];
    World(Some(l), if saved then l else w.file, w.now, w.issued + [Issue(key, step, StepOf(w.now))])
  }

  datatype Action =
    | Claim(key: Key, saved: bool)
    | Look
    | Restart
    | Tick(ms: nat)

  function Apply(w: World, a: Action): World {
    match a
    case Claim(key, saved) =>
      (match Offer(w, key)
       case None => w.(mem := Some(Loaded(w)))
       case Some(step) => Mark(w, key, step, saved))
    case Look => w.(mem := Some(Loaded(w)))
    case Restart => w.(mem := None)
    case Tick(ms) => w.(now := w.now + ms)
  }

  function Run(w: World, acts: seq<Action>): World
    decreases |acts|
  {
    if acts == [] then w else Run(Apply(w, acts[0]), acts[1..])
  }

  /** A fresh appliance: nothing issued, nothing saved. */
  function Fresh(now: nat): World {
    World(None, map[], now, [])
  }

  /** A process that has a ledger uses it; a new one takes the file's steps from two before the current one on, no
      others, and no user without any. */
  lemma LoadedIs(w: World, key: Key, step: int)
    ensures step in Steps(Loaded(w), key) <==>
            match w.mem
            case Some(l) => key in l && step in l[key]
            case None => key in w.file && step in w.file[key] && step >= w.now / 30000 - 2
    ensures w.mem == None && key in Loaded(w) ==> Loaded(w)[key] != {}
  {
    if w.mem == None && key in Loaded(w) {
      var s :| s in w.file[key] && s >= StepOf(w.now) - 2;
      assert s in Loaded(w)[key];
    }
  }

  /** The current step if it is unused, else the next, else the previous, else none. */
  lemma OfferIs(w: World, key: Key)
    ensures var c, used := w.now / 30000, Steps(Loaded(w), key);
      match Offer(w, key)
      case Some(s) =>
        && s !in used
        && (s == c || (s == c + 1 && c in used) || (s == c - 1 && c in used && c + 1 in used))
      case None => c in used && c + 1 in used && c - 1 in used
  {
  }

  /** A claim that finds a step records it, for its user alone, in the ledger and, if the write succeeds, the whole
      ledger in the file; one that finds none only loads. */
  lemma ClaimRecords(w: World, key: Key, saved: bool, other: Key)
    ensures var t := Apply(w, Claim(key, saved));
      && t.mem.Some? && t.now == w.now
      && match Offer(w, key)
         case None => t.mem.value == Loaded(w) && t.file == w.file && t.issued == w.issued
         case Some(s) =>
           && Steps(t.mem.value, other) == Steps(Loaded(w), other) + (if other == key then {s} else {})
           && t.file == (if saved then t.mem.value else w.file)
           && t.issued == w.issued + [Issue(key, s, w.now / 30000)]
  {
  }

  // ---------------------------------------------------------------- single use

  predicate NoRepeat(issued: seq<Issue>) {
    forall i, j :: 0 <= i < j < |issued| ==> (issued[i].key, issued[i].step) != (issued[j].key, issued[j].step)
  }

  /** Every issued step that a claim could still pick is recorded. */
  predicate Covers(l: Ledger, w: World) {
    forall i :: 0 <= i < |w.issued| && w.issued[i].step >= StepOf(w.now) - 1 ==>
      w.issued[i].step in Steps(l, w.issued[i].key)
  }

  /** No step issued twice so far, and each in the window of the step that was current then. */
  predicate Lawful(w: World) {
    && NoRepeat(w.issued)
    && (forall i :: 0 <= i < |w.issued| ==>
          w.issued[i].at <= StepOf(w.now) && w.issued[i].at - 1 <= w.issued[i].step <= w.issued[i].at + 1)
  }

  predicate Inv(w: World) {
    && Lawful(w)
    && Covers(if w.mem.Some? then w.mem.value else w.file, w)
  }

  /** A process ends only when the file holds every issued step that a claim could still pick. */
  predicate Orderly(w: World, a: Action) {
    a.Restart? ==> Covers(w.file, w)
  }

  predicate OrderlyRun(w: World, acts: seq<Action>)
    decreases |acts|
  {
    acts == [] || (Orderly(w, acts[0]) && OrderlyRun(Apply(w, acts[0]), acts[1..]))
  }

  lemma LoadedCovers(w: World)
    requires Inv(w)
    ensures Covers(Loaded(w), w)
  {
  }

  lemma ClaimKeeps(w: World, key: Key, saved: bool)
    requires Inv(w)
    ensures Inv(Apply(w, Claim(key, saved)))
  {
    LoadedCovers(w);
    var offer := Offer(w, key);
    if offer.Some? {
      var t := Mark(w, key, offer.value, saved);
      assert Covers(t.mem.value, t);
      assert forall i :: 0 <= i < |w.issued| ==> t.issued[i] == w.issued[i];
      forall i | 0 <= i < |w.issued|
        ensures (w.issued[i].key, w.issued[i].step) != (key, offer.value)
      {
        assert w.issued[i].step >= StepOf(w.now) - 1 ==> w.issued[i].step in Steps(Loaded(w), w.issued[i].key);
      }
    }
  }

  lemma StepKeeps(w: World, a: Action)
    requires Inv(w) && Orderly(w, a)
    ensures Inv(Apply(w, a))
  {
    match a
    case Claim(key, saved) => ClaimKeeps(w, key, saved);
    case Look => LoadedCovers(w);
    case Restart =>
    case Tick(ms) =>
      assert StepOf(w.now) <= StepOf(w.now + ms);
  }

  lemma {:induction false} RunKeeps(w: World, acts: seq<Action>)
    requires Inv(w) && OrderlyRun(w, acts)
    ensures Inv(Run(w, acts))
    decreases |acts|
  {
    if acts != [] {
      StepKeeps(w, acts[0]);
      RunKeeps(Apply(w, acts[0]), acts[1..]);
    }
  }

  /** No (user, step) is ever issued twice, over any claims, looks, clock ticks and orderly restarts with reload,
      whatever secret a code is computed from. */
  lemma NoStepIssuedTwice(now: nat, acts: seq<Action>)
    requires OrderlyRun(Fresh(now), acts)
    ensures NoRepeat(Run(Fresh(now), acts).issued)
  {
    RunKeeps(Fresh(now), acts);
  }

  /** When every save succeeds every restart is orderly. */
  lemma {:induction false} SavedRunsAreOrderly(w: World, acts: seq<Action>)
    requires Inv(w) && Covers(w.file, w)
    requires forall i :: 0 <= i < |acts| && acts[i].Claim? ==> acts[i].saved
    ensures OrderlyRun(w, acts)
    decreases |acts|
  {
    if acts != [] {
      StepKeeps(w, acts[0]);
      SavedStep(w, acts[0]);
      SavedRunsAreOrderly(Apply(w, acts[0]), acts[1..]);
    }
  }

  /** A successful save covers for all that failed before it: it writes the whole ledger. */
  lemma SavedStep(w: World, a: Action)
    requires Inv(w) && Inv(Apply(w, a)) && (a.Claim? ==> a.saved)
    requires Covers(w.file, w) || (a.Claim? && Offer(w, a.key).Some?)
    ensures Covers(Apply(w, a).file, Apply(w, a))
  {
    if a.Tick? {
      assert StepOf(w.now) <= StepOf(w.now + a.ms);
    }
  }

  const LOST_SAVE: seq<Action> := [Claim("u", false), Restart, Claim("u", true)]

  /** A save that failed before the process ended re-issues the step at once: reading an unreadable ledger as an
      empty one does not wait for a fresh step. */
  lemma LostSaveRepeats(now: nat)
    ensures !NoRepeat(Run(Fresh(now), LOST_SAVE).issued)
    ensures !OrderlyRun(Fresh(now), LOST_SAVE)
  {
    var c := StepOf(now);
    var w1 := Apply(Fresh(now), LOST_SAVE[0]);
    var w2 := Apply(w1, LOST_SAVE[1]);
    var w3 := Apply(w2, LOST_SAVE[2]);
    assert w1.issued == [Issue("u", c, c)] && w1.issued[0].step !in Steps(w1.file, "u");
    assert w3.issued == [Issue("u", c, c), Issue("u", c, c)];
    assert LOST_SAVE[1..] == [LOST_SAVE[1], LOST_SAVE[2]] && LOST_SAVE[1..][1..] == [LOST_SAVE[2]];
    assert Run(w2, [LOST_SAVE[2]]) == w3 by {
      assert [LOST_SAVE[2]][1..] == [];
    }
    assert Run(w1, LOST_SAVE[1..]) == w3;
    assert Run(Fresh(now), LOST_SAVE) == w3;
    assert (w3.issued[0].key, w3.issued[0].step) == (w3.issued[1].key, w3.issued[1].step);
    assert !Orderly(w1, LOST_SAVE[1]);
  }

  // ---------------------------------------------------------------- the free steps of a window

  function Window(c: int): set<int> {
    {c - 1, c, c + 1}
  }

  /** The steps a claim of this user could still get now. */
  function Free(w: World, key: Key): set<int> {
    Window(StepOf(w.now)) - Steps(Loaded(w), key)
  }

  /** Claims and looks at one instant, by any users. */
  predicate Together(acts: seq<Action>) {
    forall i :: 0 <= i < |acts| ==> acts[i].Claim? || acts[i].Look?
  }

  function ClaimsOf(acts: seq<Action>, key: Key): nat {
    if acts == [] then 0
    else (if acts[0].Claim? && acts[0].key == key then 1 else 0) + ClaimsOf(acts[1..], key)
  }

  lemma OfferIsFree(w: World, key: Key)
    ensures Offer(w, key).None? <==> Free(w, key) == {}
    ensures Offer(w, key).Some? ==> Offer(w, key).value in Free(w, key)
  {
    var c: int := StepOf(w.now);
    assert forall s :: s in Free(w, key) <==> s in Window(c) && s !in Steps(Loaded(w), key);
    assert c in Window(c) && c + 1 in Window(c) && c - 1 in Window(c);
  }

  /** A claim takes the step it is offered from its own user, and nothing from anyone else. */
  lemma FreeStep(w: World, a: Action, key: Key)
    requires a.Claim? || a.Look?
    ensures Apply(w, a).now == w.now && w.issued <= Apply(w, a).issued
    ensures var free := Free(Apply(w, a), key);
      if a.Claim? && a.key == key && Offer(w, key).Some? then
        && free == Free(w, key) - {Offer(w, key).value}
        && Apply(w, a).issued == w.issued + [Issue(key, Offer(w, key).value, StepOf(w.now))]
      else free == Free(w, key)
  {
    var t := Apply(w, a);
    assert t.mem == Some(Loaded(t));
    if a.Claim? && a.key == key && Offer(w, key).Some? {
      assert Steps(Loaded(t), key) == Steps(Loaded(w), key) + {Offer(w, key).value};
    } else {
      assert Steps(Loaded(t), key) == Steps(Loaded(w), key);
    }
  }

  /** Every claim takes a free step while there is one. */
  lemma {:induction false} ClaimsTakeSteps(w: World, acts: seq<Action>, key: Key)
    requires Together(acts)
    ensures var free, claims := |Free(w, key)|, ClaimsOf(acts, key);
      |Free(Run(w, acts), key)| == if claims <= free then free - claims else 0
    decreases |acts|
  {
    if acts != [] {
      FreeStep(w, acts[0], key);
      OfferIsFree(w, key);
      ClaimsTakeSteps(Apply(w, acts[0]), acts[1..], key);
    }
  }

  /** A step that is no longer free was issued meanwhile. */
  lemma {:induction false} TakenIsIssued(w: World, acts: seq<Action>, key: Key, step: int) returns (j: nat)
    requires Together(acts) && step in Free(w, key) && step !in Free(Run(w, acts), key)
    ensures w.issued <= Run(w, acts).issued
    ensures |w.issued| <= j < |Run(w, acts).issued|
    ensures Run(w, acts).issued[j].key == key && Run(w, acts).issued[j].step == step
    decreases |acts|
  {
    FreeStep(w, acts[0], key);
    var t := Apply(w, acts[0]);
    if step in Free(t, key) {
      j := TakenIsIssued(t, acts[1..], key, step);
    } else {
      j := |w.issued|;
      IssuedGrows(t, acts[1..]);
      assert t.issued[j] == Run(t, acts[1..]).issued[j];
    }
  }

  lemma {:induction false} IssuedGrows(w: World, acts: seq<Action>)
    ensures w.issued <= Run(w, acts).issued
    decreases |acts|
  {
    if acts != [] {
      IssuedGrows(Apply(w, acts[0]), acts[1..]);
    }
  }

  function ThreeClaims(key: Key): seq<Action> {
    [Claim(key, true), Claim(key, true), Claim(key, true)]
  }

  lemma {:induction false} TogetherIsOrderly(w: World, acts: seq<Action>)
    requires Together(acts)
    ensures OrderlyRun(w, acts)
    decreases |acts|
  {
    if acts != [] {
      TogetherIsOrderly(Apply(w, acts[0]), acts[1..]);
    }
  }

  lemma ThreeClaimsSpend(w: World, key: Key)
    ensures Free(Run(w, ThreeClaims(key)), key) == {}
  {
    var acts := ThreeClaims(key);
    assert ClaimsOf(acts[1..][1..], key) == 1 + ClaimsOf(acts[1..][1..][1..], key);
    assert ClaimsOf(acts, key) == 3;
    assert |Window(StepOf(w.now))| <= 3 && |Free(w, key)| <= |Window(StepOf(w.now))|;
    ClaimsTakeSteps(w, acts, key);
  }

  /** After a restart that lost a step still in the window, three claims issue it again. */
  lemma LostStepIsReissued(w: World, i: nat)
    requires Lawful(w) && i < |w.issued|
    requires w.issued[i].step >= StepOf(w.now) - 1 && w.issued[i].step !in Steps(w.file, w.issued[i].key)
    ensures var t := Apply(w, Restart);
      var acts := ThreeClaims(w.issued[i].key);
      OrderlyRun(t, acts) && !NoRepeat(Run(t, acts).issued)
  {
    var key, step, t := w.issued[i].key, w.issued[i].step, Apply(w, Restart);
    assert step in Free(t, key);
    ThreeClaimsSpend(t, key);
    TogetherIsOrderly(t, ThreeClaims(key));
    var j := TakenIsIssued(t, ThreeClaims(key), key, step);
    var issued := Run(t, ThreeClaims(key)).issued;
    assert issued[i] == w.issued[i];
    assert (issued[i].key, issued[i].step) == (issued[j].key, issued[j].step);
  }

  /** The exact condition: after a restart no orderly continuation ever issues a step twice if and only if the file
      holds every issued step that a claim could still pick. */
  lemma RestartCondition(w: World)
    requires Lawful(w)
    ensures (forall acts :: OrderlyRun(Apply(w, Restart), acts) ==> NoRepeat(Run(Apply(w, Restart), acts).issued))
            <==> (forall i :: 0 <= i < |w.issued| && w.issued[i].step >= StepOf(w.now) - 1 ==>
                    w.issued[i].step in Steps(w.file, w.issued[i].key))
  {
    var t := Apply(w, Restart);
    if Covers(w.file, w) {
      forall acts | OrderlyRun(t, acts)
        ensures NoRepeat(Run(t, acts).issued)
      {
        RunKeeps(t, acts);
      }
    } else {
      var i :| 0 <= i < |w.issued| && w.issued[i].step >= StepOf(w.now) - 1
               && w.issued[i].step !in Steps(w.file, w.issued[i].key);
      LostStepIsReissued(w, i);
    }
  }

  // ---------------------------------------------------------------- waiting

  /** No step of this user above the bound is recorded. */
  predicate Bounded(w: World, key: Key, bound: int) {
    && (w.mem.Some? ==> forall s :: s in Steps(w.mem.value, key) ==> s <= bound)
    && (forall s :: s in Steps(w.file, key) ==> s <= bound)
  }

  /** All recorded steps of a user, whoever's claims interleave, stay at most one ahead of the clock. */
  predicate NearClock(w: World) {
    && (w.mem.Some? ==> forall k, s :: k in w.mem.value && s in w.mem.value[k] ==> s <= StepOf(w.now) + 1)
    && (forall k, s :: k in w.file && s in w.file[k] ==> s <= StepOf(w.now) + 1)
  }

  lemma NearClockStep(w: World, a: Action)
    requires NearClock(w)
    ensures NearClock(Apply(w, a))
  {
    if a.Tick? {
      assert StepOf(w.now) <= StepOf(w.now + a.ms);
    }
  }

  lemma {:induction false} NearClockRun(w: World, acts: seq<Action>)
    requires NearClock(w)
    ensures NearClock(Run(w, acts))
    decreases |acts|
  {
    if acts != [] {
      NearClockStep(w, acts[0]);
      NearClockRun(Apply(w, acts[0]), acts[1..]);
    }
  }

  /** No claim for this user. */
  predicate OthersOnly(acts: seq<Action>, key: Key) {
    forall i :: 0 <= i < |acts| && acts[i].Claim? ==> acts[i].key != key
  }

  lemma LoadedBounded(w: World, key: Key, bound: int)
    requires Bounded(w, key, bound)
    ensures forall s :: s in Steps(Loaded(w), key) ==> s <= bound
  {
    var p := Prune(w.file, StepOf(w.now) - 2);
    assert Steps(p, key) <= Steps(w.file, key);
  }

  lemma {:induction false} BoundedRun(w: World, key: Key, bound: int, acts: seq<Action>)
    requires Bounded(w, key, bound) && OthersOnly(acts, key)
    ensures Bounded(Run(w, acts), key, bound)
    decreases |acts|
  {
    if acts != [] {
      assert acts[0].Claim? ==> acts[0].key != key;
      LoadedBounded(w, key, bound);
      var t := Apply(w, acts[0]);
      assert t.mem.Some? ==> Steps(t.mem.value, key) == Steps(Loaded(w), key);
      assert Steps(t.file, key) == Steps(w.file, key) || Steps(t.file, key) == Steps(Loaded(w), key);
      assert Bounded(Apply(w, acts[0]), key, bound);
      BoundedRun(Apply(w, acts[0]), key, bound, acts[1..]);
    }
  }

  /** After a wait that began in an earlier step, with no claim of the same user in between, whatever others did: a
      step is free, it is the current or the next, never the previous. So unconsumedTOTP sleeps at most once and
      never throws, and after a fresh-step wait the code is from the new current or next step. */
  lemma WaitFreesAStep(w: World, key: Key, acts: seq<Action>)
    requires NearClock(w) && OthersOnly(acts, key) && StepOf(Run(w, acts).now) > StepOf(w.now)
    ensures var t := Run(w, acts); var c := StepOf(t.now);
      && Offer(t, key).Some?
      && Offer(t, key).value in {c, c + 1}
      && (Offer(t, key).value == c <==> c !in Steps(Loaded(t), key))
  {
    BoundedRun(w, key, StepOf(w.now) + 1, acts);
    LoadedBounded(Run(w, acts), key, StepOf(w.now) + 1);
  }

  /** The step so obtained lies beyond every step that was current or next when the wait began, unless the wait
      ended in the very next step and that step was still unused: the exact reach of the fresh-step wait. */
  lemma FreshnessCondition(w: World, key: Key, acts: seq<Action>)
    requires NearClock(w) && OthersOnly(acts, key) && StepOf(Run(w, acts).now) > StepOf(w.now)
    ensures var t := Run(w, acts); var c := StepOf(w.now);
      && Offer(t, key).Some?
      && (Offer(t, key).value > c + 1 <==> !(StepOf(t.now) == c + 1 && c + 1 !in Steps(Loaded(t), key)))
  {
    WaitFreesAStep(w, key, acts);
  }

  /** A fresh-step wait after one refused code of the current step returns the step that was then next. */
  lemma FreshStepWasNext(now: nat)
    ensures var w := Apply(Fresh(now), Claim("u", true));
      var t := Apply(w, Tick(MsUntilNextStep(now)));
      Offer(t, "u") == Some(StepOf(now) + 1)
  {
    SleepCrossesTheBoundary(now, now + MsUntilNextStep(now));
  }

  /** A wait in one process: no restart and no claim of this user. */
  predicate Waiting(acts: seq<Action>, key: Key) {
    OthersOnly(acts, key) && forall i :: 0 <= i < |acts| ==> !acts[i].Restart?
  }

  lemma {:induction false} WaitKeepsSteps(w: World, acts: seq<Action>, key: Key)
    requires w.mem.Some? && Waiting(acts, key)
    ensures var t := Run(w, acts);
      t.mem.Some? && Steps(t.mem.value, key) == Steps(w.mem.value, key) && t.now >= w.now
    decreases |acts|
  {
    if acts != [] {
      assert acts[0].Claim? ==> acts[0].key != key;
      WaitKeepsSteps(Apply(w, acts[0]), acts[1..], key);
    }
  }

  /** With the window spent, as many steps come free as the clock advances, up to the whole window. */
  lemma FreeAfter(used: set<int>, c: int, e: int)
    requires Window(c) <= used && (forall s :: s in used ==> s <= c + 1) && c <= e
    ensures |Window(e) - used| == if e - c < 3 then e - c else 3
  {
    var free := Window(e) - used;
    assert c in Window(c) && c + 1 in Window(c) && c - 1 in Window(c);
    if e == c {
      assert free == {};
    } else if e == c + 1 {
      assert free == {e + 1};
    } else if e == c + 2 {
      assert free == {e, e + 1};
    } else {
      assert free == Window(e);
    }
  }

  lemma FreeIs(w: World, key: Key, used: set<int>)
    requires w.mem.Some? && Steps(w.mem.value, key) == used
    ensures Free(w, key) == Window(StepOf(w.now)) - used
  {
  }

  lemma StepsGrow(from: nat, to: nat)
    requires from <= to
    ensures StepOf(from) <= StepOf(to)
  {
  }

  lemma SpentWindow(w: World, key: Key)
    requires NearClock(w) && w.mem.Some? && Offer(w, key).None?
    ensures Window(StepOf(w.now)) <= Steps(w.mem.value, key)
    ensures forall s :: s in Steps(w.mem.value, key) ==> s <= StepOf(w.now) + 1
  {
  }

  lemma FreeAfterWait(w: World, key: Key, wait: seq<Action>)
    requires NearClock(w) && w.mem.Some? && Offer(w, key).None? && Waiting(wait, key)
    ensures var t := Run(w, wait);
      var d := StepOf(t.now) - StepOf(w.now);
      d >= 0 && |Free(t, key)| == if d < 3 then d else 3
  {
    WaitKeepsSteps(w, wait, key);
    SpentWindow(w, key);
    StepsGrow(w.now, Run(w, wait).now);
    FreeIs(Run(w, wait), key, Steps(w.mem.value, key));
    FreeAfter(Steps(w.mem.value, key), StepOf(w.now), StepOf(Run(w, wait).now));
  }

  /** Callers of one user that wait together. When all three steps are spent and the common wait ends d steps later,
      exactly min(d, 3) of them are served, whatever other users claim: the next one finds nothing and throws. */
  lemma WaitersServed(w: World, key: Key, wait: seq<Action>, claims: seq<Action>)
    requires NearClock(w) && w.mem.Some? && Offer(w, key).None? && Waiting(wait, key) && Together(claims)
    ensures var t := Run(w, wait);
      var d := StepOf(t.now) - StepOf(w.now);
      d >= 0 && (Offer(Run(t, claims), key).None? <==> ClaimsOf(claims, key) >= if d < 3 then d else 3)
  {
    FreeAfterWait(w, key, wait);
    ClaimsTakeSteps(Run(w, wait), claims, key);
    OfferIsFree(Run(Run(w, wait), claims), key);
  }

  /** The codes issued to a user since the first `from`, of steps in the window around c. */
  function IssuedSince(issued: seq<Issue>, key: Key, from: nat, c: int): set<nat> {
    set j: nat | from <= j < |issued| && issued[j].key == key && issued[j].step in Window(c)
  }

  function StepsSince(issued: seq<Issue>, key: Key, from: nat): set<int> {
    set j: nat | from <= j < |issued| && issued[j].key == key :: issued[j].step
  }

  /** Codes issued to a user since then are of distinct steps. */
  predicate DistinctSince(issued: seq<Issue>, key: Key, from: nat) {
    forall i, j :: from <= i < j < |issued| && issued[i].key == key && issued[j].key == key ==>
      issued[i].step != issued[j].step
  }

  /** In one process since `from` codes, when the user's steps were `used`: each code issued since added a new one. */
  ghost predicate Grown(w: World, key: Key, from: nat, used: set<int>) {
    && w.mem.Some? && from <= |w.issued| && DistinctSince(w.issued, key, from)
    && Steps(w.mem.value, key) == used + StepsSince(w.issued, key, from)
    && used !! StepsSince(w.issued, key, from)
  }

  lemma AppendSince(issued: seq<Issue>, more: Issue, key: Key, from: nat)
    requires from <= |issued|
    ensures StepsSince(issued + [more], key, from)
         == StepsSince(issued, key, from) + (if more.key == key then {more.step} else {})
  {
    var all := issued + [more];
    assert forall j: nat :: j < |issued| ==> all[j] == issued[j];
    assert all[|issued|] == more;
  }

  lemma GrownClaim(w: World, claimed: Key, saved: bool, key: Key, from: nat, used: set<int>)
    requires Grown(w, key, from, used)
    ensures Grown(Apply(w, Claim(claimed, saved)), key, from, used)
  {
    var offer := Offer(w, claimed);
    if offer.Some? {
      var more := Issue(claimed, offer.value, StepOf(w.now));
      OfferIsFree(w, claimed);
      AppendSince(w.issued, more, key, from);
      assert claimed == key ==> offer.value !in Steps(w.mem.value, key);
      forall i | from <= i < |w.issued| && w.issued[i].key == key
        ensures w.issued[i].step in StepsSince(w.issued, key, from)
      {
      }
    }
  }

  lemma {:induction false} GrownRun(w: World, acts: seq<Action>, key: Key, from: nat, used: set<int>)
    requires Grown(w, key, from, used) && forall i :: 0 <= i < |acts| ==> !acts[i].Restart?
    ensures Grown(Run(w, acts), key, from, used) && w.now <= Run(w, acts).now
    decreases |acts|
  {
    if acts != [] {
      assert !acts[0].Restart?;
      if acts[0].Claim? {
        GrownClaim(w, acts[0].key, acts[0].saved, key, from, used);
      }
      GrownRun(Apply(w, acts[0]), acts[1..], key, from, used);
    }
  }

  /** As many codes as steps. */
  lemma {:induction false} ImageSize(issued: seq<Issue>, indices: set<nat>)
    requires forall j :: j in indices ==> j < |issued|
    requires forall i, j :: i in indices && j in indices && i != j ==> issued[i].step != issued[j].step
    ensures |set j | j in indices :: issued[j].step| == |indices|
  {
    if indices != {} {
      var i :| i in indices;
      ImageSize(issued, indices - {i});
      assert (set j | j in indices :: issued[j].step)
          == (set j | j in indices - {i} :: issued[j].step) + {issued[i].step};
    }
  }

  lemma CodesAreSteps(issued: seq<Issue>, key: Key, from: nat, c: int)
    requires DistinctSince(issued, key, from)
    ensures |IssuedSince(issued, key, from, c)| == |StepsSince(issued, key, from) * Window(c)|
  {
    var indices := IssuedSince(issued, key, from, c);
    ImageSize(issued, indices);
    assert (set j | j in indices :: issued[j].step) == StepsSince(issued, key, from) * Window(c);
  }

  lemma AllTaken(free: set<int>, taken: set<int>)
    requires taken <= free
    ensures free - taken == {} <==> |taken| == |free|
  {
    assert free == taken + (free - taken);
  }

  /** However the claims of one user are spread over the clock and over other users' claims: once all three steps were
      spent in the current step, and d steps later in the same process, nothing is free if and only if min(d, 3) codes
      of the present window were issued to the user since. */
  lemma WindowSpentIff(w: World, key: Key, acts: seq<Action>)
    requires NearClock(w) && w.mem.Some? && Offer(w, key).None?
    requires forall i :: 0 <= i < |acts| ==> !acts[i].Restart?
    ensures var t := Run(w, acts);
      var d := StepOf(t.now) - StepOf(w.now);
      && d >= 0
      && (Offer(t, key).None? <==>
            |IssuedSince(t.issued, key, |w.issued|, StepOf(t.now))| == if d < 3 then d else 3)
  {
    var t, used := Run(w, acts), Steps(w.mem.value, key);
    assert StepsSince(w.issued, key, |w.issued|) == {};
    GrownRun(w, acts, key, |w.issued|, used);
    SpentAgain(w, t, key, used);
  }

  lemma SpentAgain(w: World, t: World, key: Key, used: set<int>)
    requires NearClock(w) && w.mem.Some? && Offer(w, key).None? && used == Steps(w.mem.value, key)
    requires Grown(t, key, |w.issued|, used) && w.now <= t.now
    ensures var d := StepOf(t.now) - StepOf(w.now);
      && d >= 0
      && (Offer(t, key).None? <==>
            |IssuedSince(t.issued, key, |w.issued|, StepOf(t.now))| == if d < 3 then d else 3)
  {
    var c := StepOf(t.now);
    var since := StepsSince(t.issued, key, |w.issued|);
    SpentWindow(w, key);
    StepsGrow(w.now, t.now);
    FreeAfter(used, StepOf(w.now), c);
    CodesAreSteps(t.issued, key, |w.issued|, c);
    AllTaken(Window(c) - used, since * Window(c));
    FreeIs(t, key, used + since);
    assert Window(c) - (used + since) == (Window(c) - used) - (since * Window(c));
    OfferIsFree(t, key);
  }

  /** Three claims at once spend the window, so two callers that then wait together for the next boundary race: the
      first is served, the second finds nothing. */
  lemma SecondWaiterFails(now: nat, saved: bool)
    ensures var w := Run(Fresh(now), Greedy(1));
      && OrderlyRun(Fresh(now), Greedy(1)) && Offer(w, "u").None?
      && var t := Run(w, [Tick(MsUntilNextStep(now))]);
         Offer(t, "u").Some? && Offer(Run(t, [Claim("u", saved)]), "u").None?
  {
    var w, wait, claim := Run(Fresh(now), Greedy(1)), [Tick(MsUntilNextStep(now))], [Claim("u", saved)];
    GreedyOne(now);
    GreedySpends(now);
    NearClockRun(Fresh(now), Greedy(1));
    SleepCrossesTheBoundary(now, now + MsUntilNextStep(now));
    assert wait[1..] == [] && claim[1..] == [];
    assert Run(Apply(w, wait[0]), []) == Apply(w, wait[0]);
    WaitersServed(w, "u", wait, []);
    WaitersServed(w, "u", wait, claim);
    assert ClaimsOf(claim, "u") == 1 + ClaimsOf(claim[1..], "u");
  }

  // ---------------------------------------------------------------- how many codes

  /** The codes issued to a user while the clock was in the len steps from n on. */
  function IssuedWithin(issued: seq<Issue>, key: Key, n: int, len: nat): set<nat> {
    set i: nat | i < |issued| && issued[i].key == key && n <= issued[i].at < n + len
  }

  function Interval(lo: int, len: nat): (steps: set<int>)
    ensures |steps| == len && forall s :: s in steps <==> lo <= s < lo + len
  {
    if len == 0 then {} else Interval(lo, len - 1) + {lo + len - 1}
  }

  /** Distinct indices with distinct steps from a set are no more than the set has elements. */
  lemma {:induction false} Injection(issued: seq<Issue>, indices: set<nat>, steps: set<int>)
    requires forall i :: i in indices ==> i < |issued| && issued[i].step in steps
    requires forall i, j :: i in indices && j in indices && i != j ==> issued[i].step != issued[j].step
    ensures |indices| <= |steps|
  {
    if indices != {} {
      var i :| i in indices;
      Injection(issued, indices - {i}, steps - {issued[i].step});
      assert |indices| == |indices - {i}| + 1;
    }
  }

  /** In any len consecutive steps a user is issued at most len + 2 codes. */
  lemma CodesPerUser(now: nat, acts: seq<Action>, key: Key, n: int, len: nat)
    requires OrderlyRun(Fresh(now), acts)
    ensures |IssuedWithin(Run(Fresh(now), acts).issued, key, n, len)| <= len + 2
  {
    var w := Run(Fresh(now), acts);
    RunKeeps(Fresh(now), acts);
    var indices := IssuedWithin(w.issued, key, n, len);
    forall i, j | i in indices && j in indices && i != j
      ensures w.issued[i].step != w.issued[j].step
    {
      if i < j {
        assert (w.issued[i].key, w.issued[i].step) != (w.issued[j].key, w.issued[j].step);
      } else {
        assert (w.issued[j].key, w.issued[j].step) != (w.issued[i].key, w.issued[i].step);
      }
    }
    Injection(w.issued, indices, Interval(n - 1, len + 2));
  }

  /** Claim three times at once, then once in every following step. */
  function Greedy(len: nat): seq<Action> {
    if len == 0 then [Claim("u", true), Claim("u", true)]
    else if len == 1 then Greedy(0) + [Claim("u", true)]
    else Greedy(len - 1) + [Tick(PERIOD_MS), Claim("u", true)]
  }

  lemma {:induction false} RunConcat(w: World, a: seq<Action>, b: seq<Action>)
    ensures Run(w, a + b) == Run(Run(w, a), b)
    ensures OrderlyRun(w, a) && OrderlyRun(Run(w, a), b) ==> OrderlyRun(w, a + b)
    decreases |a|
  {
    if a == [] {
      assert a + b == b;
    } else {
      assert (a + b)[1..] == a[1..] + b;
      RunConcat(Apply(w, a[0]), a[1..], b);
    }
  }

  lemma RunTwo(w: World, a: Action, b: Action)
    ensures Run(w, [a, b]) == Apply(Apply(w, a), b)
    ensures Orderly(w, a) && Orderly(Apply(w, a), b) ==> OrderlyRun(w, [a, b])
  {
    assert [a, b][1..] == [b] && [b][1..] == [];
    assert Run(Apply(w, a), [b]) == Apply(Apply(w, a), b);
  }

  /** Everything issued to one user in the len steps from n on, and its newest step the next one. */
  predicate Ahead(w: World, n: int, len: nat) {
    && w.mem.Some? && |w.issued| == len + 2
    && (forall i :: 0 <= i < |w.issued| ==> w.issued[i].key == "u" && n <= w.issued[i].at < n + len)
    && StepOf(w.now) == n + len - 1
    && StepOf(w.now) in Steps(w.mem.value, "u") && StepOf(w.now) + 1 in Steps(w.mem.value, "u")
    && forall s :: s in Steps(w.mem.value, "u") ==> s <= StepOf(w.now) + 1
  }

  lemma GreedyStep(w: World, n: int, len: nat)
    requires Ahead(w, n, len)
    ensures Ahead(Apply(Apply(w, Tick(PERIOD_MS)), Claim("u", true)), n, len + 1)
  {
    var d: int := StepOf(w.now);
    var t := Apply(w, Tick(PERIOD_MS));
    assert StepOf(t.now) == d + 1;
    assert Offer(t, "u") == Some(d + 2);
    var v := Apply(t, Claim("u", true));
    assert Steps(v.mem.value, "u") == Steps(w.mem.value, "u") + {d + 2};
    assert v.issued == w.issued + [Issue("u", d + 2, d + 1)];
  }

  lemma GreedyOne(now: nat)
    ensures var claim := Claim("u", true);
      Run(Fresh(now), Greedy(1)) == Apply(Apply(Apply(Fresh(now), claim), claim), claim)
    ensures OrderlyRun(Fresh(now), Greedy(1))
  {
    RunTwo(Fresh(now), Claim("u", true), Claim("u", true));
    RunConcat(Fresh(now), Greedy(0), [Claim("u", true)]);
    var w0 := Run(Fresh(now), Greedy(0));
    assert [Claim("u", true)][1..] == [];
    assert Run(w0, [Claim("u", true)]) == Apply(w0, Claim("u", true)) && OrderlyRun(w0, [Claim("u", true)]);
  }

  lemma GreedySpends(now: nat)
    ensures var c: int := StepOf(now);
      var w := Run(Fresh(now), Greedy(1));
      && w.now == now && w.mem.Some? && Steps(w.mem.value, "u") == Window(c) && Offer(w, "u").None?
      && w.issued == [Issue("u", c, c), Issue("u", c + 1, c), Issue("u", c - 1, c)]
  {
    GreedyOne(now);
    var c: int := StepOf(now);
    var w1 := Apply(Fresh(now), Claim("u", true));
    assert Steps(w1.mem.value, "u") == {c};
    var w2 := Apply(w1, Claim("u", true));
    assert Steps(w2.mem.value, "u") == {c, c + 1};
    var w3 := Apply(w2, Claim("u", true));
    assert Steps(w3.mem.value, "u") == Window(c);
  }

  lemma GreedyStart(now: nat)
    ensures var w := Run(Fresh(now), Greedy(1)); Ahead(w, StepOf(now), 1) && OrderlyRun(Fresh(now), Greedy(1))
  {
    GreedyOne(now);
    GreedySpends(now);
  }

  lemma {:induction false} GreedyState(now: nat, len: nat)
    requires len >= 1
    ensures OrderlyRun(Fresh(now), Greedy(len))
    ensures Ahead(Run(Fresh(now), Greedy(len)), StepOf(now), len)
    decreases len
  {
    if len == 1 {
      GreedyStart(now);
    } else {
      GreedyState(now, len - 1);
      var w := Run(Fresh(now), Greedy(len - 1));
      GreedyStep(w, StepOf(now), len - 1);
      RunTwo(w, Tick(PERIOD_MS), Claim("u", true));
      RunConcat(Fresh(now), Greedy(len - 1), [Tick(PERIOD_MS), Claim("u", true)]);
    }
  }

  function Below(k: nat): (indices: set<nat>)
    ensures |indices| == k && forall i: nat :: i in indices <==> i < k
  {
    if k == 0 then {} else Below(k - 1) + {k - 1}
  }

  /** The bound is reached in every window: len + 2 codes in len consecutive steps. */
  lemma CodesPerUserIsTight(now: nat, len: nat)
    requires len >= 1
    ensures OrderlyRun(Fresh(now), Greedy(len))
    ensures |IssuedWithin(Run(Fresh(now), Greedy(len)).issued, "u", StepOf(now), len)| == len + 2
  {
    GreedyState(now, len);
    var issued := Run(Fresh(now), Greedy(len)).issued;
    assert IssuedWithin(issued, "u", StepOf(now), len) == Below(|issued|);
  }
}
