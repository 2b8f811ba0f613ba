/** Stale-build suppression: the effect of export/src/server-route.tsx under the router of export/src/router.ts.

    A build settles whenever it likes, in any order. React commits whenever it likes; a commit sees the latest
    location and revalidation. */
module ServerRoute {
  import opened Wrappers

  datatype Outcome = Node | Redirected | Failed

  /** One run of the effect: the route key and revalidation it closed over, and how it settled, if it has. */
  datatype Build = Build(key: string, revalidation: nat, cancelled: bool, result: Option<Outcome>)

  /** The stored view: which build it came from. */
  datatype View = View(key: string, build: nat, error: bool)

  datatype Deps = Deps(key: string, revalidation: nat)

  /** `mounted` holds the effect's dependencies while ServerRoute is on the page; `stored` lists, in order, the
      builds whose result was ever stored. */
  datatype Shell = Shell(
    location: string, revalidation: nat, mounted: Option<Deps>,
    builds: seq<Build>, view: Option<View>, stored: seq<nat>)

  datatype Action =
    | Go(path: string)
    | Revalidate
    | Commit
    | Settle(build: nat, outcome: Outcome)

  /** The effect's cleanup. */
  function CancelLast(builds: seq<Build>): seq<Build> {
    if builds == [] then builds else builds[|builds| - 1 := builds[|builds| - 1].(cancelled := true)]
  }

  function CommitStep(s: Shell, server: string -> bool): Shell {
    var deps := Deps(s.location, s.revalidation);
    if !server(s.location) then
      if s.mounted.None? then s else s.(mounted := None, builds := CancelLast(s.builds), view := None)
    else if s.mounted == Some(deps) then s
    else
      var before := if s.mounted.Some? then CancelLast(s.builds) else s.builds;
      s.(mounted := Some(deps), builds := before + [Build(deps.key, deps.revalidation, false, None)])
  }

  function SettleStep(s: Shell, b: nat, outcome: Outcome): Shell {
    if b >= |s.builds| || s.builds[b].result.Some? then s
    else
      var t := s.(builds := s.builds[b := s.builds[b].(result := Some(outcome))]);
      if s.builds[b].cancelled || outcome.Redirected? then t
      else t.(view := Some(View(s.builds[b].key, b, outcome.Failed?)), stored := s.stored + [b])
  }

  /** `server` says which paths a server tree answers. */
  function Step(s: Shell, server: string -> bool, a: Action): Shell {
    match a
    case Go(path) => s.(location := path)
    case Revalidate => s.(revalidation := s.revalidation + 1)
    case Commit => CommitStep(s, server)
    case Settle(b, outcome) => SettleStep(s, b, outcome)
  }

  function Run(s: Shell, server: string -> bool, acts: seq<Action>): Shell
    decreases |acts|
  {
    if acts == [] then s else Run(Step(s, server, acts[0]), server, acts[1..])
  }

  function Opened(path: string): Shell {
    Shell(path, 0, None, [], None, [])
  }

  datatype Screen = Elsewhere | Loading | Tree(build: nat) | Alert(build: nat)

  /** What the component renders. */
  function Shown(s: Shell): Screen {
    if s.mounted.None? then Elsewhere
    else if s.view.None? || s.view.value.key != s.mounted.value.key then Loading
    else if s.view.value.error then Alert(s.view.value.build)
    else Tree(s.view.value.build)
  }

  /** If the newest build has settled with something to show, that is what is stored. */
  predicate ShowsNewest(s: Shell) {
    |s.builds| > 0 &&
    match s.builds[|s.builds| - 1].result
    case None => true
    case Some(Redirected) => true
    case Some(outcome) => s.view == Some(View(s.builds[|s.builds| - 1].key, |s.builds| - 1, outcome.Failed?))
  }

  ghost predicate Inv(s: Shell) {
    && (forall b :: 0 <= b < |s.builds| && !s.builds[b].cancelled ==> b == |s.builds| - 1 && s.mounted.Some?)
    && (s.mounted.Some? ==>
          && |s.builds| > 0
          && var last := s.builds[|s.builds| - 1];
             !last.cancelled && last.key == s.mounted.value.key && last.revalidation == s.mounted.value.revalidation)
    && (s.mounted.Some? ==> ShowsNewest(s))
    && (s.view.Some? ==>
          && s.mounted.Some? && |s.stored| > 0 && s.stored[|s.stored| - 1] == s.view.value.build
          && s.view.value.build < |s.builds| && s.builds[s.view.value.build].key == s.view.value.key)
    && (forall i :: 0 <= i < |s.stored| ==> s.stored[i] < |s.builds| && s.builds[s.stored[i]].result.Some?)
    && (forall i, j :: 0 <= i < j < |s.stored| ==> s.stored[i] < s.stored[j])
    && (forall b, d :: 0 <= b <= d < |s.builds| ==> s.builds[b].revalidation <= s.builds[d].revalidation)
    && (forall b :: 0 <= b < |s.builds| ==> s.builds[b].revalidation <= s.revalidation)
  }

  lemma LeaveKeeps(s: Shell)
    requires Inv(s)
    ensures Inv(s.(mounted := None, builds := CancelLast(s.builds), view := None))
  {
  }

  lemma MountKeeps(s: Shell)
    requires Inv(s)
    ensures var before := if s.mounted.Some? then CancelLast(s.builds) else s.builds;
      Inv(s.(mounted := Some(Deps(s.location, s.revalidation)),
             builds := before + [Build(s.location, s.revalidation, false, None)]))
  {
    var before := if s.mounted.Some? then CancelLast(s.builds) else s.builds;
    assert |before| == |s.builds|;
    assert forall b :: 0 <= b < |s.builds| ==> before[b].(cancelled := s.builds[b].cancelled) == s.builds[b];
    assert forall b :: 0 <= b < |s.builds| ==> before[b].cancelled;
  }

  lemma CommitKeeps(s: Shell, server: string -> bool)
    requires Inv(s)
    ensures Inv(CommitStep(s, server))
  {
    LeaveKeeps(s);
    MountKeeps(s);
  }

  lemma SettleKeeps(s: Shell, b: nat, outcome: Outcome)
    requires Inv(s)
    ensures Inv(SettleStep(s, b, outcome))
  {
  }

  lemma {:induction false} RunKeeps(s: Shell, server: string -> bool, acts: seq<Action>)
    requires Inv(s)
    ensures Inv(Run(s, server, acts))
    decreases |acts|
  {
    if acts != [] {
      match acts[0] {
        case Commit => CommitKeeps(s, server);
        case Settle(b, outcome) => SettleKeeps(s, b, outcome);
        case _ =>
      }
      RunKeeps(Step(s, server, acts[0]), server, acts[1..]);
    }
  }

  /** In every interleaving at most one build is both uncancelled and pending, and it is the newest. */
  lemma OnePendingBuild(path: string, server: string -> bool, acts: seq<Action>, b: nat)
    requires b < |Run(Opened(path), server, acts).builds|
    ensures var s := Run(Opened(path), server, acts);
      !s.builds[b].cancelled && s.builds[b].result.None? ==> b == |s.builds| - 1 && s.mounted.Some?
  {
    RunKeeps(Opened(path), server, acts);
  }

  /** What is shown is loading or the result of a build of the current route key; it is the newest stored build,
      and nothing older is ever stored after it. */
  lemma ShownIsCurrent(path: string, server: string -> bool, acts: seq<Action>, b: nat)
    ensures var s := Run(Opened(path), server, acts);
      Shown(s) == Tree(b) || Shown(s) == Alert(b) ==>
        && b < |s.builds| && s.builds[b].key == s.mounted.value.key && s.builds[b].result.Some?
        && |s.stored| > 0 && s.stored[|s.stored| - 1] == b
        && (forall i :: 0 <= i < |s.stored| - 1 ==> s.stored[i] < b)
  {
    RunKeeps(Opened(path), server, acts);
  }

  /** Whatever happens later, every build stored later was started later and with no older revalidation, so stale
      data never overwrites newer data. */
  lemma StoredStartsIncrease(path: string, server: string -> bool, acts: seq<Action>, i: nat, j: nat)
    requires i < j < |Run(Opened(path), server, acts).stored|
    ensures var s := Run(Opened(path), server, acts);
      && s.stored[i] < s.stored[j] < |s.builds|
      && s.builds[s.stored[i]].revalidation <= s.builds[s.stored[j]].revalidation
  {
    RunKeeps(Opened(path), server, acts);
  }

  /** The other direction, in every run: while a route is mounted the newest build is of its key and revalidation, and
      once it has settled it is what is shown, unless it redirected. A commit mounts the latest location and
      revalidation. */
  lemma NewestResultIsShown(path: string, server: string -> bool, acts: seq<Action>)
    ensures var s := Run(Opened(path), server, acts);
      s.mounted.Some? ==>
        && |s.builds| > 0
        && var newest := |s.builds| - 1;
           && s.mounted.value == Deps(s.builds[newest].key, s.builds[newest].revalidation)
           && (s.builds[newest].result == Some(Failed) ==> Shown(s) == Alert(newest))
           && (s.builds[newest].result == Some(Node) ==> Shown(s) == Tree(newest))
    ensures var s := Run(Opened(path), server, acts);
      server(s.location) ==> CommitStep(s, server).mounted == Some(Deps(s.location, s.revalidation))
  {
    RunKeeps(Opened(path), server, acts);
  }

  /** The path of the last navigation of a run. */
  function LastPath(path: string, acts: seq<Action>): string {
    if acts == [] then path
    else if acts[|acts| - 1].Go? then acts[|acts| - 1].path
    else LastPath(path, acts[..|acts| - 1])
  }

  function Revalidations(acts: seq<Action>): nat {
    if acts == [] then 0
    else Revalidations(acts[..|acts| - 1]) + (if acts[|acts| - 1].Revalidate? then 1 else 0)
  }

  lemma {:induction false} RunAppend(s: Shell, server: string -> bool, acts: seq<Action>, a: Action)
    ensures Run(s, server, acts + [a]) == Step(Run(s, server, acts), server, a)
    decreases |acts|
  {
    if acts == [] {
      assert (acts + [a])[1..] == [];
      assert Run(Step(s, server, a), server, []) == Step(s, server, a);
    } else {
      assert (acts + [a])[1..] == acts[1..] + [a];
      RunAppend(Step(s, server, acts[0]), server, acts[1..], a);
    }
  }

  /** The location is the last navigation's, and every revalidation counts. */
  lemma {:induction false} PageFollows(path: string, server: string -> bool, acts: seq<Action>)
    ensures Run(Opened(path), server, acts).location == LastPath(path, acts)
    ensures Run(Opened(path), server, acts).revalidation == Revalidations(acts)
  {
    if acts != [] {
      var n := |acts| - 1;
      PageFollows(path, server, acts[..n]);
      RunAppend(Opened(path), server, acts[..n], acts[n]);
      assert acts == acts[..n] + [acts[n]];
    }
  }

  /** In every run with a route mounted, a revalidation makes the next commit build again, once, for the present
      location, and an already shown route stays on screen until that build settles. */
  lemma RevalidationRebuilds(path: string, server: string -> bool, acts: seq<Action>)
    requires var s := Run(Opened(path), server, acts); s.mounted.Some? && server(s.location)
    ensures var s := Run(Opened(path), server, acts);
      var t := Run(Opened(path), server, acts + [Revalidate] + [Commit]);
      && |t.builds| == |s.builds| + 1
      && t.builds[|s.builds|] == Build(s.location, s.revalidation + 1, false, None)
      && (s.mounted.value.key == s.location ==> Shown(t) == Shown(s))
      && (s.view.None? || s.view.value.key != s.location ==> Shown(t) == Loading)
  {
    RunKeeps(Opened(path), server, acts);
    RunAppend(Opened(path), server, acts, Revalidate);
    RunAppend(Opened(path), server, acts + [Revalidate], Commit);
  }

  /** Whose result counts, in every run: a build that settles is stored exactly if it is the newest one of a mounted
      route and did not redirect; a superseded one changes nothing on the page, whatever it brings. */
  lemma OnlyTheNewestIsStored(path: string, server: string -> bool, acts: seq<Action>, b: nat, outcome: Outcome)
    requires b < |Run(Opened(path), server, acts).builds| && Run(Opened(path), server, acts).builds[b].result == None
    ensures var s := Run(Opened(path), server, acts);
      var t := Run(Opened(path), server, acts + [Settle(b, outcome)]);
      && t.location == s.location && t.revalidation == s.revalidation && t.mounted == s.mounted
      && t.builds == s.builds[..b]
                     + [Build(s.builds[b].key, s.builds[b].revalidation, s.builds[b].cancelled, Some(outcome))]
                     + s.builds[b + 1..]
      && if s.mounted == None || b + 1 < |s.builds| || outcome == Redirected then
           t.view == s.view && t.stored == s.stored
         else t.view == Some(View(s.mounted.value.key, b, outcome == Failed)) && t.stored == s.stored + [b]
  {
    RunKeeps(Opened(path), server, acts);
    RunAppend(Opened(path), server, acts, Settle(b, outcome));
  }

  /** Nothing is built twice for one location and revalidation: a commit without a change does nothing. */
  lemma CommitIsIdempotent(s: Shell, server: string -> bool)
    ensures CommitStep(CommitStep(s, server), server) == CommitStep(s, server)
  {
  }

  /** In every run, leaving for a path that no server tree answers cancels every build and forgets what was shown: the
      route, entered again, loads again. */
  lemma LeavingForgets(path: string, server: string -> bool, acts: seq<Action>, back: string)
    requires !server(Run(Opened(path), server, acts).location) && server(back)
    ensures var t := Run(Opened(path), server, acts + [Commit]);
      && Shown(t) == Elsewhere
      && (forall b :: 0 <= b < |t.builds| ==> t.builds[b].cancelled)
      && Shown(Run(Opened(path), server, acts + [Commit] + [Go(back)] + [Commit])) == Loading
  {
    RunKeeps(Opened(path), server, acts);
    RunKeeps(Opened(path), server, acts + [Commit]);
    RunAppend(Opened(path), server, acts, Commit);
    RunAppend(Opened(path), server, acts + [Commit], Go(back));
    RunAppend(Opened(path), server, acts + [Commit] + [Go(back)], Commit);
  }

  /** The page's location and the component's state, updated in place. */
  class Route {
    const server: string -> bool
    var location: string
    var revalidation: nat
    var mounted: Option<Deps>
    var builds: seq<Build>
    var view: Option<View>
    ghost var stored: seq<nat>

    ghost function State(): Shell
      reads this
    {
      Shell(location, revalidation, mounted, builds, view, stored)
    }

    ghost predicate Valid()
      reads this
    {
      Inv(State())
    }

    constructor (path: string, server: string -> bool)
      ensures Valid() && State() == Opened(path) && this.server == server
    {
      this.server := server;
      location, revalidation, mounted, builds, view, stored := path, 0, None, [], None, [];
    }

    method Navigate(path: string)
      requires Valid()
      modifies `location
      ensures Valid() && State() == Step(old(State()), server, Go(path))
    {
      location := path;
    }

    method MarkStale()
      requires Valid()
      modifies `revalidation
      ensures Valid() && State() == Step(old(State()), server, Revalidate)
    {
      revalidation := revalidation + 1;
    }

    /** React commits: the effect is cleaned up and run again when its dependencies changed. */
    method OnCommit()
      requires Valid()
      modifies this
      ensures Valid() && State() == Step(old(State()), server, Commit)
    {
      CommitKeeps(State(), server);
      if server(location) {
        if mounted != Some(Deps(location, revalidation)) {
          if mounted.Some? {
            Cleanup();
          }
          mounted := Some(Deps(location, revalidation));
          builds := builds + [Build(location, revalidation, false, None)];
        }
      } else if mounted.Some? {
        Cleanup();
        mounted, view := None, None;
      }
    }

    method Cleanup()
      modifies `builds
      ensures builds == CancelLast(old(builds))
    {
      if builds != [] {
        builds := builds[|builds| - 1 := builds[|builds| - 1].(cancelled := true)];
      }
    }

    /** A build settles: its own flag decides whether the result is stored. */
    method OnSettled(b: nat, outcome: Outcome)
      requires Valid() && b < |builds| && builds[b].result.None?
      modifies this
      ensures Valid() && State() == Step(old(State()), server, Settle(b, outcome))
    {
      SettleKeeps(State(), b, outcome);
      builds := builds[b := builds[b].(result := Some(outcome))];
      if builds[b].cancelled || outcome.Redirected? {
        return;
      }
      view := Some(View(builds[b].key, b, outcome.Failed?));
      stored := stored + [b];
    }
  }
}
