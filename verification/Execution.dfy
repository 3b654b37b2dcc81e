/** The execution engine: emit, replay, reset, export and import. The class keeps the
    source's fields; `EmitStep` and `EmitAll` say what each call leaves behind, and
    ExecutionRuns proves what holds after every run. */
module Execution {
  import opened Orders
  import opened Graphs
  import opened CausalGraphs
  import opened Events

  /** A reducer that answers `None` is one that throws. Its execution context is built from
      the state and the event, so it adds no argument. */
  datatype Config<!S, !P> = Config(
    initial: S,
    reducer: (S, Event<P>) -> Option<S>,
    digest: Event<P> -> string)

  datatype EngineState<S, P> = EngineState(current: S, log: seq<Event<P>>, edges: Graph)

  datatype Outcome =
    | Emitted
    | InvalidStructure
    | MissingReference
    | WouldCreateCycle
    | AlreadyExists
    | ReducerFailed

  ghost function Fresh<S, P>(cfg: Config<S, P>): EngineState<S, P> {
    EngineState(cfg.initial, [], map[])
  }

  /** Edges go in one at a time; the first that would close a cycle throws and the earlier
      ones stay. */
  ghost function AddParents(g: Graph, parents: seq<string>, id: string): (Graph, bool)
    decreases |parents|
  {
    if parents == [] then (g, true)
    else if parents[0] == id || !Reaches(g, id, parents[0]) then
      AddParents(AddArc(g, parents[0], id), parents[1..], id)
    else (g, false)
  }

  ghost predicate ReferencesKnown<P>(log: seq<Event<P>>, e: Event<P>) {
    forall p :: p in References(e) ==> p in Ids(log)
  }

  ghost function EmitStep<S, P>(cfg: Config<S, P>, st: EngineState<S, P>, e: Event<P>, now: int)
    : (EngineState<S, P>, Outcome)
  {
    if !ValidStructure(e) then (st, InvalidStructure)
    else if !ReferencesKnown(st.log, e) then (st, MissingReference)
    else
      var (edges, added) := AddParents(st.edges, EdgeParents(e), e.id);
      if !added then (st.(edges := edges), WouldCreateCycle)
      else if e.id in Ids(st.log) then (st.(edges := edges), AlreadyExists)
      else
        var log := st.log + [Stored(cfg.digest, e, now)];
        var next := cfg.reducer(st.current, e);
        if next.None? then (EngineState(st.current, log, edges), ReducerFailed)
        else (EngineState(next.value, log, edges), Emitted)
  }

  /** Emits in order and stops at the first error. `clock(i)` is the time the i-th call reads. */
  ghost function EmitAll<S, P>(cfg: Config<S, P>, st: EngineState<S, P>, events: seq<Event<P>>, clock: nat -> int)
    : (r: (EngineState<S, P>, bool))
    decreases |events|
  {
    if events == [] then (st, true)
    else
      var n := |events| - 1;
      var (before, ok) := EmitAll(cfg, st, events[..n], clock);
      if !ok then (before, false)
      else
        var (after, outcome) := EmitStep(cfg, before, events[n], clock(n));
        (after, outcome.Emitted?)
  }

  lemma {:induction false} EmitAllStops<S, P>(cfg: Config<S, P>, st: EngineState<S, P>, events: seq<Event<P>>,
                                              clock: nat -> int, k: nat)
    requires k <= |events| && !EmitAll(cfg, st, events[..k], clock).1
    ensures EmitAll(cfg, st, events, clock) == EmitAll(cfg, st, events[..k], clock)
    decreases |events|
  {
    if k == |events| {
      assert events[..k] == events;
    } else {
      assert events[..|events| - 1][..k] == events[..k];
      EmitAllStops(cfg, st, events[..|events| - 1], clock, k);
    }
  }

  /** The reducer folded over a history, as a replay does it: a throw ends it. */
  function Fold<S, P>(cfg: Config<S, P>, log: seq<Event<P>>): Option<S> {
    if log == [] then Some(cfg.initial)
    else
      var before := Fold(cfg, log[..|log| - 1]);
      if before.None? then None else cfg.reducer(before.value, log[|log| - 1])
  }

  /** The history up to and including the first event called `until`; all of it when there
      is none, or when `until` is absent or empty. */
  function Upto<P>(log: seq<Event<P>>, until: Option<string>): seq<Event<P>> {
    if until.None? || until.value == "" then log
    else UptoId(log, until.value)
  }

  function UptoId<P>(log: seq<Event<P>>, id: string): seq<Event<P>> {
    if log == [] then []
    else if log[0].id == id then log[..1]
    else [log[0]] + UptoId(log[1..], id)
  }

  class JCCompute<!S(==), !P(==)> {
    const config: Config<S, P>
    var currentState: S
    const eventStore: EventStore<P>
    const causalGraph: CausalGraph

    ghost predicate Valid()
      reads this, eventStore, causalGraph
    {
      eventStore.Valid() && causalGraph.Valid() && eventStore.digest == config.digest
    }

    ghost function Model(): EngineState<S, P>
      requires Valid()
      reads this, eventStore, causalGraph
    {
      EngineState(currentState, eventStore.Log(), causalGraph.edges)
    }

    constructor (config: Config<S, P>)
      ensures Valid() && Model() == Fresh(config) && this.config == config
      ensures fresh(eventStore) && fresh(causalGraph)
    {
      this.config := config;
      currentState := config.initial;
      eventStore := new EventStore(config.digest);
      causalGraph := new CausalGraph();
    }

    /** Refused without an identifier or a type, or with a reference in any field to an event
        that is not there; then nothing changes. A cycle or a known identifier may leave edges
        behind. A throwing reducer leaves the event in the history and the state as it was. */
    method Emit(e: Event<P>, now: int) returns (outcome: Outcome)
      requires Valid()
      modifies this, eventStore, causalGraph
      ensures Valid()
      ensures (Model(), outcome) == EmitStep(config, old(Model()), e, now)
      ensures outcome.InvalidStructure? <==> e.id == "" || e.kind == ""
      ensures outcome.MissingReference? <==>
        && e.id != "" && e.kind != ""
        && exists x :: x !in old(Ids(eventStore.Log())) &&
             ((e.parentEventId == Some(x) && x != "") || x in e.parentEventIds || x in e.causality)
      ensures outcome.InvalidStructure? || outcome.MissingReference? ==> Model() == old(Model())
      ensures outcome.AlreadyExists? ==> e.id in old(Ids(eventStore.Log()))
      ensures outcome.AlreadyExists? || outcome.WouldCreateCycle? ==>
        eventStore.Log() == old(eventStore.Log()) && currentState == old(currentState)
      ensures outcome.Emitted? || outcome.ReducerFailed? ==>
        && e.id !in old(Ids(eventStore.Log()))
        && eventStore.Log() == old(eventStore.Log()) + [Stored(config.digest, e, now)]
        && (outcome.Emitted? <==> config.reducer(old(currentState), e).Some?)
      ensures outcome.Emitted? ==> config.reducer(old(currentState), e) == Some(currentState)
      ensures outcome.ReducerFailed? ==> currentState == old(currentState)
    {
      hide AddParents, ReferencesKnown, Mirror, References, Stored;
      RefusedExactly(eventStore.Log(), e);
      if !ValidStructure(e) {
        return InvalidStructure;
      }
      var known := CheckReferences(e);
      if !known {
        return MissingReference;
      }
      var linked := LinkParents(e);
      if !linked {
        return WouldCreateCycle;
      }
      var appended := eventStore.Append(e, now);
      if !appended {
        return AlreadyExists;
      }
      var next := config.reducer(currentState, e);
      if next.None? {
        return ReducerFailed;
      }
      currentState := next.value;
      outcome := Emitted;
    }

    /** One `addEdge` per parent; the first that throws ends it. When none does, the edges that
        come in lead from the two parent fields to the event, and no others. */
    method LinkParents(e: Event<P>) returns (ok: bool)
      requires Valid()
      modifies causalGraph
      ensures causalGraph.Valid()
      ensures (causalGraph.edges, ok) == AddParents(old(causalGraph.edges), EdgeParents(e), e.id)
      ensures ok ==> forall a, b :: b in Succ(causalGraph.edges, a) <==>
        || b in Succ(old(causalGraph.edges), a)
        || (b == e.id && ((e.parentEventId == Some(a) && a != "") || a in e.parentEventIds))
      ensures forall a, b :: b in Succ(old(causalGraph.edges), a) ==> b in Succ(causalGraph.edges, a)
    {
      AddParentsExactly(causalGraph.edges, EdgeParents(e), e.id);
      hide Reaches, Mirror;
      var parents := EdgeParents(e);
      for i := 0 to |parents|
        invariant causalGraph.Valid()
        invariant AddParents(old(causalGraph.edges), parents, e.id) == AddParents(causalGraph.edges, parents[i..], e.id)
      {
        assert parents[i..][1..] == parents[i + 1..];
        var added := causalGraph.AddEdge(parents[i], e.id);
        if !added {
          return false;
        }
      }
      ok := true;
    }

    method CheckReferences(e: Event<P>) returns (known: bool)
      requires Valid()
      ensures known <==> ReferencesKnown(eventStore.Log(), e)
    {
      var parentIds := GetParentIds(e);
      DedupKeeps(References(e));
      for i := 0 to |parentIds|
        invariant forall k :: 0 <= k < i ==> parentIds[k] in eventStore.events
      {
        if !eventStore.Has(parentIds[i]) {
          assert parentIds[i] in References(e);
          return false;
        }
      }
      known := true;
    }

    method HasEvent(id: string) returns (r: bool)
      requires Valid()
      ensures r <==> id in Ids(eventStore.Log())
    {
      r := eventStore.Has(id);
    }

    method GetHistory() returns (r: seq<Event<P>>)
      requires Valid()
      ensures r == eventStore.Log()
    {
      r := eventStore.ReadAll();
    }

    /** `None` is a throw out of the reducer. */
    method Replay(until: Option<string>) returns (r: Option<S>)
      requires Valid()
      ensures r == Fold(config, Upto(eventStore.Log(), until))
    {
      var history := eventStore.ReadAll();
      r := ReplayHistory(history, until);
    }

    method ReplayHistory(history: seq<Event<P>>, until: Option<string>) returns (r: Option<S>)
      ensures r == Fold(config, Upto(history, until))
    {
      hide UptoId;
      var state := config.initial;
      for i := 0 to |history|
        invariant Fold(config, history[..i]) == Some(state)
        invariant NotBefore(history, until, i)
      {
        var event := history[i];
        assert history[..i + 1][..i] == history[..i];
        var next := config.reducer(state, event);
        if next.None? {
          UptoPrefix(history, until, i);
          FoldFails(config, Upto(history, until), i + 1);
          return None;
        }
        state := next.value;
        if until.Some? && until.value != "" && event.id == until.value {
          UptoStops(history, until.value, i);
          return Some(state);
        }
      }
      assert history[..|history|] == history;
      if until.Some? && until.value != "" { UptoAll(history, until.value); }
      r := Some(state);
    }

    /** Comparing the replayed state with the current one as values. */
    method Verify() returns (r: bool)
      requires Valid()
      ensures r <==> Fold(config, eventStore.Log()) == Some(currentState)
    {
      var replayed := Replay(None);
      r := replayed == Some(currentState);
    }

    method Reset()
      requires Valid()
      modifies this, eventStore, causalGraph
      ensures Valid() && Model() == Fresh(config)
    {
      currentState := config.initial;
      eventStore.Clear();
      causalGraph.Clear();
    }

    method Import(state: S, history: seq<Event<P>>, clock: nat -> int) returns (ok: bool)
      requires Valid()
      modifies this, eventStore, causalGraph
      ensures Valid()
      ensures (Model(), ok) ==
        var (after, emitted) := EmitAll(config, Fresh(config), history, clock);
        (after, emitted && state == after.current)
    {
      hide EmitStep;
      Reset();
      for i := 0 to |history|
        invariant Valid()
        invariant EmitAll(config, Fresh(config), history[..i], clock) == (Model(), true)
      {
        assert history[..i + 1][..i] == history[..i];
        var outcome := Emit(history[i], clock(i));
        if !outcome.Emitted? {
          EmitAllStops(config, Fresh(config), history, clock, i + 1);
          return false;
        }
      }
      assert history[..|history|] == history;
      ok := state == currentState;
    }
  }

  lemma RefusedExactly<P>(log: seq<Event<P>>, e: Event<P>)
    ensures ReferencesKnown(log, e) <==>
      !exists x :: x !in Ids(log) &&
         ((e.parentEventId == Some(x) && x != "") || x in e.parentEventIds || x in e.causality)
  {
  }

  /** What the call adds: all its arcs when no `addEdge` throws, some of them when one does. */
  lemma {:induction false} AddParentsExactly(g: Graph, parents: seq<string>, id: string)
    ensures var (after, added) := AddParents(g, parents, id);
      && (forall a, b :: b in Succ(g, a) ==> b in Succ(after, a))
      && (forall a, b :: b in Succ(after, a) ==> b in Succ(g, a) || (b == id && a in parents))
      && (added ==> forall a :: a in parents ==> id in Succ(after, a))
    decreases |parents|
  {
    hide Reaches;
    if parents != [] && (parents[0] == id || !Reaches(g, id, parents[0])) {
      AddParentsExactly(AddArc(g, parents[0], id), parents[1..], id);
      assert parents == [parents[0]] + parents[1..];
    }
  }

  /** None of the first `i` events is the one to stop at. */
  ghost predicate NotBefore<P>(log: seq<Event<P>>, until: Option<string>, i: nat)
    requires i <= |log|
  {
    until.Some? && until.value != "" ==> forall k :: 0 <= k < i ==> log[k].id != until.value
  }

  lemma {:induction false} UptoStops<P>(log: seq<Event<P>>, id: string, i: nat)
    requires i < |log| && log[i].id == id && forall k :: 0 <= k < i ==> log[k].id != id
    ensures UptoId(log, id) == log[..i + 1]
  {
    if i > 0 {
      UptoStops(log[1..], id, i - 1);
    }
  }

  lemma {:induction false} UptoAll<P>(log: seq<Event<P>>, id: string)
    requires forall k :: 0 <= k < |log| ==> log[k].id != id
    ensures UptoId(log, id) == log
  {
    if log != [] {
      UptoAll(log[1..], id);
    }
  }

  lemma UptoPrefix<P>(log: seq<Event<P>>, until: Option<string>, i: nat)
    requires i < |log| && NotBefore(log, until, i)
    ensures i + 1 <= |Upto(log, until)| <= |log| && Upto(log, until)[..i + 1] == log[..i + 1]
  {
    if until.Some? && until.value != "" {
      if j :| 0 <= j < |log| && log[j].id == until.value {
        var first := FirstWith(log, until.value, j);
        UptoStops(log, until.value, first);
      } else {
        UptoAll(log, until.value);
      }
    }
  }

  lemma FirstWith<P>(log: seq<Event<P>>, id: string, j: nat) returns (i: nat)
    requires j < |log| && log[j].id == id
    ensures i <= j && log[i].id == id && forall k :: 0 <= k < i ==> log[k].id != id
  {
    i := 0;
    while log[i].id != id
      invariant i <= j && forall k :: 0 <= k < i ==> log[k].id != id
      decreases j - i
    {
      i := i + 1;
    }
  }

  lemma {:induction false} FoldFails<S, P>(cfg: Config<S, P>, log: seq<Event<P>>, k: nat)
    requires k <= |log| && Fold(cfg, log[..k]).None?
    ensures Fold(cfg, log).None?
    decreases |log|
  {
    if k == |log| {
      assert log[..k] == log;
    } else {
      assert log[..|log| - 1][..k] == log[..k];
      FoldFails(cfg, log[..|log| - 1], k);
    }
  }
}
