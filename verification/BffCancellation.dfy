/** Exactly which calls can be cancelled without any other call noticing. */
module BffCancellation {
  import opened BffProtocol
  import opened BffInvariant
  import BffTheorems

  /** The call can no longer start a renewal: it is aborted, its sends are returned unexamined, it already waits
      for a renewal or is past it, or the answer it heard, or will hear, is stale or names no dead credential. */
  predicate Harmless(s: State, call: Call) {
    || call.aborted
    || (call.stage == Main && call.req.Plain() && !call.pc.ReadingAnswer?)
    || match call.pc
       case Idle => false
       case AwaitFirst(epoch) => epoch < s.refreshEpoch
       case ReadingAnswer(epoch, r) => epoch < s.refreshEpoch || !Renewable(call.Active().optedIn, r, true)
       case _ => true
  }

  /** Two pages have the same renewals and, but for c, the same calls in the same states. */
  ghost predicate SameForOthers(s: State, t: State, c: nat) {
    && s.refreshInFlight == t.refreshInFlight && s.refreshEpoch == t.refreshEpoch && s.renewals == t.renewals
    && s.calls.Keys == t.calls.Keys
    && (forall d :: d in s.calls && d != c ==> s.calls[d] == t.calls[d])
  }

  /** Two pages that differ in one harmless call only. */
  ghost predicate Agree(s: State, t: State, c: nat) {
    && SameForOthers(s, t, c) && c in s.calls
    && Harmless(s, s.calls[c]) && Harmless(t, t.calls[c])
    && (s.calls[c].stage == Confirming ==> s.calls[c].req.Plain())
    && (t.calls[c].stage == Confirming ==> t.calls[c].req.Plain())
  }

  /** A step of a harmless call leaves the shared variables alone and the call harmless. */
  lemma HarmlessStep(s: State, a: Action, c: nat)
    requires c in s.calls && Harmless(s, s.calls[c])
    requires s.calls[c].stage == Confirming ==> s.calls[c].req.Plain()
    requires !a.Invoke? && !a.Settle? && a.c == c
    ensures var t := Step(s, a);
      && t == s.With(c, t.calls[c])
      && Harmless(t, t.calls[c])
      && (t.calls[c].stage == Confirming ==> t.calls[c].req.Plain())
  {
    assert s.calls[c := s.calls[c]] == s.calls;
  }

  lemma OtherClassify(s: State, t: State, c: nat, d: nat, readable: bool)
    requires SameForOthers(s, t, c) && d in s.calls && c != d
    ensures SameForOthers(ClassifyStep(s, d, readable), ClassifyStep(t, d, readable), c)
    ensures c in s.calls ==> ClassifyStep(s, d, readable).calls[c] == s.calls[c]
    ensures s.refreshEpoch == ClassifyStep(s, d, readable).refreshEpoch
  {
  }

  lemma OtherWith(s: State, t: State, c: nat, d: nat, call: Call)
    requires SameForOthers(s, t, c) && c != d
    ensures SameForOthers(s.With(d, call), t.With(d, call), c)
  {
  }

  /** A step of anyone else sees the same page in both. */
  lemma OtherStep(s: State, t: State, c: nat, a: Action)
    requires SameForOthers(s, t, c) && c in s.calls
    requires a.Settle? || a.c != c
    ensures SameForOthers(Step(s, a), Step(t, a), c)
    ensures Step(s, a).calls[c] == s.calls[c] && Step(t, a).calls[c] == t.calls[c]
    ensures s.refreshEpoch <= Step(s, a).refreshEpoch
  {
    if a.Classify? {
      if a.c in s.calls {
        OtherClassify(s, t, c, a.c, a.readable);
        OtherClassify(t, s, c, a.c, a.readable);
      }
    } else if a.Wake? {
      if a.c in s.calls {
        OtherWith(s, t, c, a.c, WakeCall(s, s.calls[a.c]));
        assert WakeCall(s, s.calls[a.c]) == WakeCall(t, s.calls[a.c]);
      }
    } else if !a.Settle? && a.c in Step(s, a).calls {
      OtherWith(s, t, c, a.c, Step(s, a).calls[a.c]);
    }
  }

  lemma HarmlessStays(s: State, t: State, call: Call)
    requires Harmless(s, call) && s.refreshEpoch <= t.refreshEpoch
    ensures Harmless(t, call)
  {
  }

  lemma OthersAgree(s: State, t: State, c: nat, a: Action)
    requires Agree(s, t, c) && (a.Settle? || a.c != c)
    ensures Agree(Step(s, a), Step(t, a), c)
  {
    OtherStep(s, t, c, a);
    HarmlessStays(s, Step(s, a), s.calls[c]);
    HarmlessStays(t, Step(t, a), t.calls[c]);
  }

  lemma AgreeStep(s: State, t: State, c: nat, a: Action)
    requires Agree(s, t, c)
    ensures Agree(Step(s, a), Step(t, a), c)
  {
    if a.Settle? || a.c != c {
      OthersAgree(s, t, c, a);
    } else if !a.Invoke? {
      HarmlessStep(s, a, c);
      HarmlessStep(t, a, c);
    }
  }

  lemma {:induction false} AgreeRun(s: State, t: State, c: nat, acts: seq<Action>)
    requires Agree(s, t, c)
    ensures Agree(Run(s, acts), Run(t, acts), c)
    decreases |acts|
  {
    if acts != [] {
      AgreeStep(s, t, c, acts[0]);
      AgreeRun(Step(s, acts[0]), Step(t, acts[0]), c, acts[1..]);
    }
  }

  /** Deleting the abort of a harmless caller from any run, at any point, changes nothing for the others. */
  lemma CancellationIsInvisible(s: State, c: nat, acts: seq<Action>)
    requires Inv(s) && c in s.calls && Harmless(s, s.calls[c])
    ensures SameForOthers(Run(Step(s, Abort(c)), acts), Run(s, acts), c)
  {
    assert CallOk(s, c, s.calls[c]);
    AgreeRun(Step(s, Abort(c)), s, c, acts);
  }

  /** A continuation in which a call that is not harmless starts a renewal, unless it was cancelled. */
  function Provoke(c: nat): seq<Action> {
    [Settle(Failed), Begin(c), Answer(c, BffTheorems.DEAD_TOKEN), Classify(c, true)]
  }

  lemma RunFour(s: State, a: Action, b: Action, d: Action, e: Action)
    ensures Run(s, [a, b, d, e]) == Step(Step(Step(Step(s, a), b), d), e)
  {
    assert [a, b, d, e][1..] == [b, d, e] && [b, d, e][1..] == [d, e] && [d, e][1..] == [e] && [e][1..] == [];
    var s3 := Step(Step(Step(s, a), b), d);
    assert Run(s3, [e]) == Step(s3, e);
    assert Run(Step(Step(s, a), b), [d, e]) == Run(s3, [e]);
    assert Run(Step(s, a), [b, d, e]) == Run(Step(Step(s, a), b), [d, e]);
  }

  /** A call that is not harmless is a live read of the current epoch. */
  predicate MayRenew(s: State, call: Call) {
    && !call.aborted && !call.Active().Plain()
    && match call.pc
       case Idle => true
       case AwaitFirst(epoch) => epoch == s.refreshEpoch
       case ReadingAnswer(epoch, r) => epoch == s.refreshEpoch && Renewable(call.Active().optedIn, r, true)
       case _ => false
  }

  lemma NotHarmless(s: State, c: nat)
    requires Inv(s) && c in s.calls && !Harmless(s, s.calls[c])
    ensures MayRenew(s, s.calls[c])
  {
    assert CallOk(s, c, s.calls[c]);
  }

  lemma MayRenewAdvances(s: State, c: nat, a: Action)
    requires c in s.calls && MayRenew(s, s.calls[c])
    requires a == Begin(c) || a == Answer(c, BffTheorems.DEAD_TOKEN)
    ensures var t := Step(s, a);
      && c in t.calls && MayRenew(t, t.calls[c]) && t.renewals == s.renewals && t.refreshInFlight == s.refreshInFlight
      && (a.Begin? ==> !t.calls[c].pc.Idle?)
      && (a.Answer? && !s.calls[c].pc.Idle? ==> t.calls[c].pc.ReadingAnswer?)
  {
  }

  lemma MayRenewStarts(s: State, c: nat)
    requires c in s.calls && MayRenew(s, s.calls[c]) && s.calls[c].pc.ReadingAnswer? && s.refreshInFlight.None?
    ensures |Step(s, Classify(c, true)).renewals| == |s.renewals| + 1
  {
  }

  lemma ProvokeStarts(s: State, c: nat)
    requires Inv(s) && c in s.calls && !Harmless(s, s.calls[c])
    ensures |Run(s, Provoke(c)).renewals| == |s.renewals| + 1
  {
    NotHarmless(s, c);
    var p := Provoke(c);
    RunFour(s, p[0], p[1], p[2], p[3]);
    var s1 := Step(s, p[0]);
    assert s1.refreshInFlight.None? && s1.calls == s.calls && MayRenew(s1, s1.calls[c]);
    MayRenewAdvances(s1, c, p[1]);
    MayRenewAdvances(Step(s1, p[1]), c, p[2]);
    MayRenewStarts(Step(Step(s1, p[1]), p[2]), c);
  }

  /** An aborted call starts no renewal. */
  lemma AbortedStartsNone(s: State, c: nat, a: Action)
    requires c in s.calls && s.calls[c].aborted
    requires !a.Invoke? && (a.Settle? || a.c == c)
    ensures c in Step(s, a).calls && Step(s, a).calls[c].aborted
    ensures |Step(s, a).renewals| == |s.renewals|
  {
  }

  lemma ProvokeAfterAbort(s: State, c: nat)
    requires c in s.calls && !s.calls[c].pc.Done?
    ensures |Run(Step(s, Abort(c)), Provoke(c)).renewals| == |s.renewals|
  {
    var t := Step(s, Abort(c));
    var p := Provoke(c);
    RunFour(t, p[0], p[1], p[2], p[3]);
    AbortedStartsNone(t, c, p[0]);
    AbortedStartsNone(Step(t, p[0]), c, p[1]);
    AbortedStartsNone(Step(Step(t, p[0]), p[1]), c, p[2]);
    AbortedStartsNone(Step(Step(Step(t, p[0]), p[1]), p[2]), c, p[3]);
  }

  /** The exact condition: cancelling c is invisible in every continuation if and only if c is harmless. */
  lemma CancellationCondition(s: State, c: nat)
    requires Inv(s) && c in s.calls
    ensures (forall acts :: SameForOthers(Run(Step(s, Abort(c)), acts), Run(s, acts), c)) <==> Harmless(s, s.calls[c])
  {
    if Harmless(s, s.calls[c]) {
      forall acts
        ensures SameForOthers(Run(Step(s, Abort(c)), acts), Run(s, acts), c)
      {
        CancellationIsInvisible(s, c, acts);
      }
    } else {
      ProvokeStarts(s, c);
      ProvokeAfterAbort(s, c);
      assert !SameForOthers(Run(Step(s, Abort(c)), Provoke(c)), Run(s, Provoke(c)), c);
    }
  }

  /** In particular every waiter for a renewal, its starter included, can be cancelled unnoticed. */
  lemma WaitersAreHarmless(s: State, c: nat, acts: seq<Action>)
    requires Inv(s) && c in s.calls && s.calls[c].pc.AwaitRenewal?
    ensures SameForOthers(Run(Step(s, Abort(c)), acts), Run(s, acts), c)
  {
    CancellationIsInvisible(s, c, acts);
  }
}
