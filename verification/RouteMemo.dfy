/** One computation per route generation: export/src/router.ts with the memos of platform/server-session.ts and
    platform/server-runtime-state.ts. */
module RouteMemo {
  import opened Wrappers

  /** The promise a memo holds, named by its position among those ever started, and its generation. */
  datatype Entry = Entry(generation: nat, ticket: nat)

  /** A memo of one result; `started` lists the generation of every computation ever started. */
  datatype Memo = Memo(slot: Option<Entry>, started: seq<nat>)

  function Current(m: Memo, generation: nat): Memo {
    if m.slot.Some? && m.slot.value.generation == generation then m
    else Memo(Some(Entry(generation, |m.started|)), m.started + [generation])
  }

  function Ticket(m: Memo): nat
    requires m.slot.Some?
  {
    m.slot.value.ticket
  }

  /** What a caller was handed, and in which generation it asked. */
  datatype Handed = Handed(kind: Kind, generation: nat, ticket: nat)

  datatype Kind = Session | Runtime

  datatype Page = Page(generation: nat, revalidation: nat, session: Memo, runtime: Memo, handed: seq<Handed>)

  datatype Action = Navigate | HistoryStep | Revalidate | Ask(kind: Kind)

  function Step(p: Page, a: Action): Page {
    match a
    case Navigate => p.(generation := p.generation + 1)
    case HistoryStep => p.(generation := p.generation + 1)
    case Revalidate => p.(revalidation := p.revalidation + 1, generation := p.generation + 1)
    case Ask(Session) =>
      var m := Current(p.session, p.generation);
      p.(session := m, handed := p.handed + [Handed(Session, p.generation, Ticket(m))])
    case Ask(Runtime) =>
      var m := Current(p.runtime, p.generation);
      p.(runtime := m, handed := p.handed + [Handed(Runtime, p.generation, Ticket(m))])
  }

  function Run(p: Page, acts: seq<Action>): Page
    decreases |acts|
  {
    if acts == [] then p else Run(Step(p, acts[0]), acts[1..])
  }

  const LOADED: Page := Page(0, 0, Memo(None, []), Memo(None, []), [])

  // ---------------------------------------------------------------- the reference: a table that forgets nothing

  datatype Tables = Tables(generation: nat, session: map<nat, nat>, runtime: map<nat, nat>, handed: seq<Handed>)

  function Looked(table: map<nat, nat>, generation: nat): map<nat, nat> {
    if generation in table then table else table[generation := |table|]
  }

  function TableStep(t: Tables, a: Action): Tables {
    match a
    case Ask(Session) =>
      var table := Looked(t.session, t.generation);
      t.(session := table, handed := t.handed + [Handed(Session, t.generation, table[t.generation])])
    case Ask(Runtime) =>
      var table := Looked(t.runtime, t.generation);
      t.(runtime := table, handed := t.handed + [Handed(Runtime, t.generation, table[t.generation])])
    case _ => t.(generation := t.generation + 1)
  }

  function TableRun(t: Tables, acts: seq<Action>): Tables
    decreases |acts|
  {
    if acts == [] then t else TableRun(TableStep(t, acts[0]), acts[1..])
  }

  /** The slot holds the table's newest row, and no row is of a later generation than the slot. */
  ghost predicate Holds(m: Memo, table: map<nat, nat>, generation: nat) {
    && |m.started| == |table|
    && (m.slot.None? ==> table == map[])
    && (m.slot.Some? ==>
          m.slot.value.generation <= generation && m.slot.value.generation in table
          && table[m.slot.value.generation] == m.slot.value.ticket)
    && (forall g :: g in table ==>
          m.slot.Some? && g <= m.slot.value.generation && table[g] < |m.started| && m.started[table[g]] == g)
    && (forall i, j :: 0 <= i < j < |m.started| ==> m.started[i] < m.started[j])
    && (forall i :: 0 <= i < |m.started| ==> m.started[i] in table && table[m.started[i]] == i)
  }

  ghost predicate Refines(p: Page, t: Tables) {
    && p.generation == t.generation && p.handed == t.handed
    && Holds(p.session, t.session, p.generation) && Holds(p.runtime, t.runtime, p.generation)
  }

  lemma LookupRefines(m: Memo, table: map<nat, nat>, generation: nat)
    requires Holds(m, table, generation)
    ensures Holds(Current(m, generation), Looked(table, generation), generation)
    ensures Ticket(Current(m, generation)) == Looked(table, generation)[generation]
  {
    var next := Looked(table, generation);
    if generation !in table {
      assert |next| == |table| + 1;
      if m.slot.Some? {
        assert m.slot.value.generation != generation;
      }
    }
  }

  lemma StepRefines(p: Page, t: Tables, a: Action)
    requires Refines(p, t)
    ensures Refines(Step(p, a), TableStep(t, a))
  {
    match a
    case Ask(Session) => LookupRefines(p.session, t.session, p.generation);
    case Ask(Runtime) => LookupRefines(p.runtime, t.runtime, p.generation);
    case _ =>
  }

  lemma {:induction false} RunRefines(p: Page, t: Tables, acts: seq<Action>)
    requires Refines(p, t)
    ensures Refines(Run(p, acts), TableRun(t, acts))
    decreases |acts|
  {
    if acts != [] {
      StepRefines(p, t, acts[0]);
      RunRefines(Step(p, acts[0]), TableStep(t, acts[0]), acts[1..]);
    }
  }

  /** The one-slot memo hands every caller, in every run, exactly what a table over all generations would. */
  lemma MemoRefinesTable(acts: seq<Action>)
    ensures Run(LOADED, acts).handed == TableRun(Tables(0, map[], map[], []), acts).handed
  {
    RunRefines(LOADED, Tables(0, map[], map[], []), acts);
  }

  /** What was handed out of a memo was started in the generation that asked. */
  ghost predicate Genuine(m: Memo, handed: seq<Handed>, kind: Kind) {
    && (m.slot.Some? ==> m.slot.value.ticket < |m.started| && m.started[m.slot.value.ticket] == m.slot.value.generation)
    && (forall i :: 0 <= i < |handed| && handed[i].kind == kind ==>
          handed[i].ticket < |m.started| && m.started[handed[i].ticket] == handed[i].generation)
  }

  lemma AskGenuine(m: Memo, handed: seq<Handed>, kind: Kind, generation: nat)
    requires Genuine(m, handed, kind)
    ensures var next := Current(m, generation);
      Genuine(next, handed + [Handed(kind, generation, Ticket(next))], kind)
  {
  }

  lemma OtherGenuine(m: Memo, handed: seq<Handed>, kind: Kind, other: Handed)
    requires Genuine(m, handed, kind) && other.kind != kind
    ensures Genuine(m, handed + [other], kind)
  {
  }

  lemma {:induction false} RunGenuine(p: Page, acts: seq<Action>)
    requires Genuine(p.session, p.handed, Session) && Genuine(p.runtime, p.handed, Runtime)
    ensures Genuine(Run(p, acts).session, Run(p, acts).handed, Session)
    ensures Genuine(Run(p, acts).runtime, Run(p, acts).handed, Runtime)
    decreases |acts|
  {
    if acts != [] {
      var t := Step(p, acts[0]);
      match acts[0] {
        case Ask(Session) =>
          AskGenuine(p.session, p.handed, Session, p.generation);
          OtherGenuine(p.runtime, p.handed, Runtime, t.handed[|p.handed|]);
        case Ask(Runtime) =>
          AskGenuine(p.runtime, p.handed, Runtime, p.generation);
          OtherGenuine(p.session, p.handed, Session, t.handed[|p.handed|]);
        case _ =>
      }
      RunGenuine(t, acts[1..]);
    }
  }

  /** Each generation starts at most one validation and at most one discovery; two callers share a computation
      exactly when they ask in the same generation, so nobody receives another generation's result. */
  lemma OncePerGeneration(acts: seq<Action>)
    ensures var p := Run(LOADED, acts);
      && (forall i, j :: 0 <= i < j < |p.session.started| ==> p.session.started[i] < p.session.started[j])
      && (forall i, j :: 0 <= i < j < |p.runtime.started| ==> p.runtime.started[i] < p.runtime.started[j])
      && (forall i, j :: 0 <= i < |p.handed| && 0 <= j < |p.handed| && p.handed[i].kind == p.handed[j].kind ==>
            (p.handed[i].ticket == p.handed[j].ticket <==> p.handed[i].generation == p.handed[j].generation))
  {
    var t := Tables(0, map[], map[], []);
    RunRefines(LOADED, t, acts);
    RunGenuine(LOADED, acts);
    var p := Run(LOADED, acts);
    forall i, j | 0 <= i < |p.handed| && 0 <= j < |p.handed| && p.handed[i].kind == p.handed[j].kind
      ensures p.handed[i].ticket == p.handed[j].ticket <==> p.handed[i].generation == p.handed[j].generation
    {
      var started := if p.handed[i].kind == Session then p.session.started else p.runtime.started;
      var a, b := p.handed[i].ticket, p.handed[j].ticket;
      assert started[a] == p.handed[i].generation && started[b] == p.handed[j].generation;
    }
  }

  /** The actions of a run that start a new generation: navigations, history steps and revalidations. */
  function Turns(acts: seq<Action>): nat {
    if acts == [] then 0 else (if acts[0].Ask? then 0 else 1) + Turns(acts[1..])
  }

  function Revalidations(acts: seq<Action>): nat {
    if acts == [] then 0 else (if acts[0].Revalidate? then 1 else 0) + Revalidations(acts[1..])
  }

  function Asks(acts: seq<Action>): nat {
    if acts == [] then 0 else (if acts[0].Ask? then 1 else 0) + Asks(acts[1..])
  }

  /** Every navigation, history step and revalidation changes the generation, nothing else does; every revalidation is
      counted, and everyone who asks is handed a result. */
  lemma {:induction false} GenerationsCount(p: Page, acts: seq<Action>)
    ensures var t := Run(p, acts);
      && t.generation == p.generation + Turns(acts)
      && t.revalidation == p.revalidation + Revalidations(acts)
      && |t.handed| == |p.handed| + Asks(acts)
    decreases |acts|
  {
    if acts != [] {
      GenerationsCount(Step(p, acts[0]), acts[1..]);
    }
  }

  /** A caller is handed a result of its kind and of the present generation. */
  lemma AskIsCurrent(p: Page, kind: Kind)
    ensures var t := Step(p, Ask(kind));
      && |t.handed| == |p.handed| + 1 && t.handed[..|p.handed|] == p.handed
      && t.handed[|p.handed|].kind == kind && t.handed[|p.handed|].generation == p.generation
  {
  }

  /** The module variables, updated in place. */
  class Router {
    var generation: nat
    var revalidation: nat
    var sessionMemo: Option<Entry>
    var runtimeMemo: Option<Entry>
    ghost var sessions: seq<nat>
    ghost var runtimes: seq<nat>
    ghost var handed: seq<Handed>
    var validations: nat
    var discoveries: nat

    ghost predicate Valid()
      reads this
    {
      |sessions| == validations && |runtimes| == discoveries
    }

    ghost function View(): Page
      reads this
    {
      Page(generation, revalidation, Memo(sessionMemo, sessions), Memo(runtimeMemo, runtimes), handed)
    }

    constructor ()
      ensures Valid() && View() == LOADED
    {
      generation, revalidation, sessionMemo, runtimeMemo := 0, 0, None, None;
      sessions, runtimes, handed, validations, discoveries := [], [], [], 0, 0;
    }

    method NavigateTo()
      requires Valid()
      modifies `generation
      ensures Valid() && View() == Step(old(View()), Navigate)
    {
      Notify();
    }

    method Notify()
      modifies `generation
      ensures generation == old(generation) + 1
    {
      generation := generation + 1;
    }

    method OnPopState()
      requires Valid()
      modifies `generation
      ensures Valid() && View() == Step(old(View()), HistoryStep)
    {
      generation := generation + 1;
    }

    method MarkStale()
      requires Valid()
      modifies `generation, `revalidation
      ensures Valid() && View() == Step(old(View()), Revalidate)
    {
      revalidation := revalidation + 1;
      Notify();
    }

    /** The promise of this generation's validation; started on the first call of the generation. */
    method GetServerSessionState() returns (ticket: nat)
      requires Valid()
      modifies this
      ensures Valid() && View() == Step(old(View()), Ask(Session))
      ensures handed == old(handed) + [Handed(Session, generation, ticket)]
    {
      if sessionMemo.None? || sessionMemo.value.generation != generation {
        sessionMemo := Some(Entry(generation, validations));
        validations := validations + 1;
        sessions := sessions + [generation];
      }
      ticket := sessionMemo.value.ticket;
      handed := handed + [Handed(Session, generation, ticket)];
    }

    method GetServerRuntimeState() returns (ticket: nat)
      requires Valid()
      modifies this
      ensures Valid() && View() == Step(old(View()), Ask(Runtime))
      ensures handed == old(handed) + [Handed(Runtime, generation, ticket)]
    {
      if runtimeMemo.None? || runtimeMemo.value.generation != generation {
        runtimeMemo := Some(Entry(generation, discoveries));
        discoveries := discoveries + 1;
        runtimes := runtimes + [generation];
      }
      ticket := runtimeMemo.value.ticket;
      handed := handed + [Handed(Runtime, generation, ticket)];
    }
  }
}
