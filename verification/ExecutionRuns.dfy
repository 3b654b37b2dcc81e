/** What holds after every run of the engine, failing calls included: the history is well
    formed and its parents come first, the current state is the reducer folded over it, and
    replay, verification and the causal graph agree with it under exact conditions. */
module ExecutionRuns {
  import opened Orders
  import opened Graphs
  import opened Events
  import opened Execution

  datatype Merged<S, P> = Merged(engine: EngineState<S, P>, applied: nat, ok: bool)

  /** Known identifiers are skipped, the rest emitted in order; the first throw ends it. */
  ghost function MergeAll<S, P>(cfg: Config<S, P>, st: EngineState<S, P>, events: seq<Event<P>>, clock: nat -> int)
    : Merged<S, P>
    decreases |events|
  {
    if events == [] then Merged(st, 0, true)
    else
      var n := |events| - 1;
      var before := MergeAll(cfg, st, events[..n], clock);
      if !before.ok || events[n].id in Ids(before.engine.log) then before
      else
        var (after, outcome) := EmitStep(cfg, before.engine, events[n], clock(n));
        if outcome.Emitted? then Merged(after, before.applied + 1, true)
        else Merged(after, before.applied, false)
  }

  /** What a client or a peer may do to a node. */
  datatype Op<S, P> =
    | Emit(event: Event<P>, now: int)
    | Reset
    | Import(state: S, history: seq<Event<P>>, clock: nat -> int)
    | Merge(events: seq<Event<P>>, clock: nat -> int)

  ghost function Step<S, P>(cfg: Config<S, P>, st: EngineState<S, P>, op: Op<S, P>): EngineState<S, P> {
    match op
    case Emit(e, now) => EmitStep(cfg, st, e, now).0
    case Reset => Fresh(cfg)
    case Import(_, history, clock) => EmitAll(cfg, Fresh(cfg), history, clock).0
    case Merge(events, clock) => MergeAll(cfg, st, events, clock).engine
  }

  ghost function Run<S, P>(cfg: Config<S, P>, ops: seq<Op<S, P>>): EngineState<S, P> {
    if ops == [] then Fresh(cfg) else Step(cfg, Run(cfg, ops[..|ops| - 1]), ops[|ops| - 1])
  }

  /** The reducer looks at neither field the store fills in. Emitting hands it the raw event
      and replaying the stored copy, so without this the two can differ. */
  ghost predicate Timeless<S(!new), P(!new)>(cfg: Config<S, P>) {
    forall s: S, e: Event<P> :: cfg.reducer(s, e) == cfg.reducer(s, Core(e))
  }

  function Core<P>(e: Event<P>): Event<P> {
    e.(timestamp := None, hash := None)
  }

  lemma StoredLikeRaw<S(!new), P(!new)>(cfg: Config<S, P>, s: S, e: Event<P>, now: int)
    requires Timeless(cfg)
    ensures cfg.reducer(s, Stored(cfg.digest, e, now)) == cfg.reducer(s, e)
  {
    var stored := Stored(cfg.digest, e, now);
    assert cfg.reducer(s, stored) == cfg.reducer(s, Core(stored));
    assert Core(stored) == Core(e);
  }

  /** The state after an event: as it was if the reducer throws. */
  function Next<S, P>(cfg: Config<S, P>, s: S, e: Event<P>): S {
    var next := cfg.reducer(s, e);
    if next.None? then s else next.value
  }

  /** The history folded the way `emit` does it: an event whose reducer throws stays in the
      history and leaves the state alone. */
  function Lenient<S, P>(cfg: Config<S, P>, log: seq<Event<P>>): S {
    if log == [] then cfg.initial
    else Next(cfg, Lenient(cfg, log[..|log| - 1]), log[|log| - 1])
  }

  /** No event of the history made the reducer throw. */
  ghost predicate Accepted<S, P>(cfg: Config<S, P>, log: seq<Event<P>>) {
    forall i :: 0 <= i < |log| ==> cfg.reducer(Lenient(cfg, log[..i]), log[i]).Some?
  }

  lemma AcceptedSnoc<S, P>(cfg: Config<S, P>, log: seq<Event<P>>)
    requires log != []
    ensures var n := |log| - 1;
            Accepted(cfg, log) <==> Accepted(cfg, log[..n]) && cfg.reducer(Lenient(cfg, log[..n]), log[n]).Some?
  {
    hide Lenient;
    var n := |log| - 1;
    assert forall i :: 0 <= i < n ==> log[..n][i] == log[i] && log[..n][..i] == log[..i];
  }

  lemma {:induction false} StrictMatchesLenient<S, P>(cfg: Config<S, P>, log: seq<Event<P>>)
    ensures Fold(cfg, log) == if Accepted(cfg, log) then Some(Lenient(cfg, log)) else None
  {
    if log != [] {
      hide Accepted;
      StrictMatchesLenient(cfg, log[..|log| - 1]);
      AcceptedSnoc(cfg, log);
    }
  }

  ghost predicate ParentsFirst<P>(log: seq<Event<P>>) {
    forall i, p :: 0 <= i < |log| && p in References(log[i]) ==> p in Ids(log[..i])
  }

  ghost predicate WellFormed<P>(log: seq<Event<P>>) {
    && NoDup(Ids(log))
    && (forall i :: 0 <= i < |log| ==> ValidStructure(log[i]))
    && (forall i :: 0 <= i < |log| ==> log[i].timestamp.Some? && log[i].hash.Some?)
    && ParentsFirst(log)
  }

  /** What holds of history and graph whatever the reducer does. */
  ghost predicate Inv<S, P>(st: EngineState<S, P>) {
    WellFormed(st.log) && Nodes(st.edges) <= Elems(Ids(st.log))
  }

  /** The current state is the history folded. */
  ghost predicate Folded<S, P>(cfg: Config<S, P>, st: EngineState<S, P>) {
    st.current == Lenient(cfg, st.log)
  }

  lemma AppendWellFormed<P>(log: seq<Event<P>>, e: Event<P>)
    requires WellFormed(log) && ValidStructure(e) && e.timestamp.Some? && e.hash.Some?
    requires ReferencesKnown(log, e) && e.id !in Ids(log)
    ensures WellFormed(log + [e])
  {
    IdsAppend(log, [e]);
    assert Ids([e]) == [e.id];
    NoDupAppend(Ids(log), e.id);
    AppendParentsFirst(log, e);
  }

  lemma AppendParentsFirst<P>(log: seq<Event<P>>, e: Event<P>)
    requires ParentsFirst(log) && ReferencesKnown(log, e)
    ensures ParentsFirst(log + [e])
  {
    var after := log + [e];
    forall i, p | 0 <= i < |after| && p in References(after[i]) ensures p in Ids(after[..i]) {
      if i < |log| {
        assert after[..i] == log[..i];
      } else {
        assert after[..i] == log;
      }
    }
  }

  lemma {:induction false} AddParentsNodes(g: Graph, parents: seq<string>, id: string)
    ensures Nodes(AddParents(g, parents, id).0) <= Nodes(g) + Elems(parents) + {id}
    decreases |parents|
  {
    if parents != [] {
      if parents[0] == id || !Reaches(g, id, parents[0]) {
        AddParentsNodes(AddArc(g, parents[0], id), parents[1..], id);
        assert Elems(parents[1..]) <= Elems(parents);
        ArcNodes(g, parents[0], id);
      }
    }
  }

  lemma ArcNodes(g: Graph, a: string, b: string)
    ensures Nodes(AddArc(g, a, b)) <= Nodes(g) + {a, b}
  {
  }

  lemma EmitKeepsInv<S, P>(cfg: Config<S, P>, st: EngineState<S, P>, e: Event<P>, now: int)
    requires Inv(st)
    ensures Inv(EmitStep(cfg, st, e, now).0)
  {
    hide Nodes, Reaches, WellFormed, AddParents, Stored;
    if ValidStructure(e) && ReferencesKnown(st.log, e) {
      StoredKeeps(cfg, e, now);
      EdgesKnown(st, e, Stored(cfg.digest, e, now));
      if e.id !in Ids(st.log) {
        AppendWellFormed(st.log, Stored(cfg.digest, e, now));
        FreshNeverCycles(st, e);
      }
    }
  }

  lemma FreshNeverCycles<S, P>(st: EngineState<S, P>, e: Event<P>)
    requires Nodes(st.edges) <= Elems(Ids(st.log)) && ReferencesKnown(st.log, e) && e.id !in Ids(st.log)
    ensures AddParents(st.edges, EdgeParents(e), e.id).1
  {
    assert e.id !in Nodes(st.edges);
    assert forall p :: p in EdgeParents(e) ==> p in References(e);
    AddParentsFresh(st.edges, EdgeParents(e), e.id);
  }

  lemma StoredKeeps<S, P>(cfg: Config<S, P>, e: Event<P>, now: int)
    ensures var stored := Stored(cfg.digest, e, now);
            && stored.id == e.id && stored.timestamp.Some? && stored.hash.Some?
            && References(stored) == References(e) && ValidStructure(stored) == ValidStructure(e)
  {
  }

  /** Every end of an edge the call adds is an identifier of the history or the new one. */
  lemma EdgesKnown<S, P>(st: EngineState<S, P>, e: Event<P>, stored: Event<P>)
    requires stored.id == e.id
    requires Nodes(st.edges) <= Elems(Ids(st.log)) && ReferencesKnown(st.log, e)
    ensures Nodes(AddParents(st.edges, EdgeParents(e), e.id).0) <= Elems(Ids(st.log + [stored]))
    ensures e.id in Ids(st.log) ==>
      Nodes(AddParents(st.edges, EdgeParents(e), e.id).0) <= Elems(Ids(st.log))
  {
    hide Nodes, AddParents;
    AddParentsNodes(st.edges, EdgeParents(e), e.id);
    assert forall p :: p in EdgeParents(e) ==> p in References(e);
    assert Elems(EdgeParents(e)) <= Elems(Ids(st.log));
    IdsAppend(st.log, [stored]);
    assert Ids([stored])[0] == e.id;
  }

  lemma {:induction false} EmitAllKeepsInv<S, P>(
    cfg: Config<S, P>, st: EngineState<S, P>, events: seq<Event<P>>, clock: nat -> int)
    requires Inv(st)
    ensures Inv(EmitAll(cfg, st, events, clock).0)
    decreases |events|
  {
    hide Inv, EmitStep;
    if events != [] {
      var n := |events| - 1;
      EmitAllKeepsInv(cfg, st, events[..n], clock);
      EmitKeepsInv(cfg, EmitAll(cfg, st, events[..n], clock).0, events[n], clock(n));
    }
  }

  lemma {:induction false} MergeAllKeepsInv<S, P>(
    cfg: Config<S, P>, st: EngineState<S, P>, events: seq<Event<P>>, clock: nat -> int)
    requires Inv(st)
    ensures Inv(MergeAll(cfg, st, events, clock).engine)
    decreases |events|
  {
    hide Inv, EmitStep;
    if events != [] {
      var n := |events| - 1;
      MergeAllKeepsInv(cfg, st, events[..n], clock);
      EmitKeepsInv(cfg, MergeAll(cfg, st, events[..n], clock).engine, events[n], clock(n));
    }
  }

  /** Every run of emits, merges, imports and resets, whatever its calls threw and whatever the
      reducer reads, keeps a well-formed history with parents first, and a graph over it; while
      emits are steady the current state is the history folded. */
  lemma {:induction false} RunInvariant<S, P>(cfg: Config<S, P>, ops: seq<Op<S, P>>)
    ensures Inv(Run(cfg, ops))
    ensures Steady(cfg, ops) ==> Folded(cfg, Run(cfg, ops))
  {
    assert Inv(Fresh(cfg));
    if ops != [] {
      var n := |ops| - 1;
      RunInvariant(cfg, ops[..n]);
      hide Inv, EmitStep, EmitAll, MergeAll, Lenient, Steady, FoldedThroughout;
      match ops[n] {
        case Emit(e, now) => EmitKeepsInv(cfg, Run(cfg, ops[..n]), e, now);
        case Reset =>
        case Import(_, history, clock) => EmitAllKeepsInv(cfg, Fresh(cfg), history, clock);
        case Merge(events, clock) => MergeAllKeepsInv(cfg, Run(cfg, ops[..n]), events, clock);
      }
    }
    if Steady(cfg, ops) {
      SteadyExactly(cfg, ops);
      LastFolded(cfg, ops);
    }
  }

  // ------------------------------------------------------- when the state is the fold

  /** The store takes the event, and the reducer leads elsewhere from the raw event, which
      `emit` hands it, than from the stored copy, which a replay does. */
  ghost predicate Slips<S, P>(cfg: Config<S, P>, st: EngineState<S, P>, e: Event<P>, now: int) {
    var outcome := EmitStep(cfg, st, e, now).1;
    (outcome.Emitted? || outcome.ReducerFailed?) &&
    Next(cfg, st.current, e) != Next(cfg, st.current, Stored(cfg.digest, e, now))
  }

  /** One call: from a state that is the fold, the next one is again, exactly when the call
      does not slip. */
  lemma EmitKeepsFold<S, P>(cfg: Config<S, P>, st: EngineState<S, P>, e: Event<P>, now: int)
    requires Folded(cfg, st)
    ensures Folded(cfg, EmitStep(cfg, st, e, now).0) <==> !Slips(cfg, st, e, now)
  {
    hide AddParents, ReferencesKnown, Stored;
    var after := st.log + [Stored(cfg.digest, e, now)];
    assert after[..|after| - 1] == st.log;
  }

  /** No emit inside the import slips. */
  ghost predicate SteadyEmits<S, P>(cfg: Config<S, P>, st: EngineState<S, P>, events: seq<Event<P>>, clock: nat -> int)
    decreases |events|
  {
    events != [] ==>
      var n := |events| - 1;
      var (before, ok) := EmitAll(cfg, st, events[..n], clock);
      SteadyEmits(cfg, st, events[..n], clock) && (ok ==> !Slips(cfg, before, events[n], clock(n)))
  }

  /** No emit inside the merge slips. */
  ghost predicate SteadyMerge<S, P>(cfg: Config<S, P>, st: EngineState<S, P>, events: seq<Event<P>>, clock: nat -> int)
    decreases |events|
  {
    events != [] ==>
      var n := |events| - 1;
      var m := MergeAll(cfg, st, events[..n], clock);
      && SteadyMerge(cfg, st, events[..n], clock)
      && (m.ok && events[n].id !in Ids(m.engine.log) ==> !Slips(cfg, m.engine, events[n], clock(n)))
  }

  /** No emit of the run slips. */
  ghost predicate Steady<S, P>(cfg: Config<S, P>, ops: seq<Op<S, P>>) {
    ops != [] ==>
      var before := ops[..|ops| - 1];
      && Steady(cfg, before)
      && (match ops[|ops| - 1]
          case Emit(e, now) => !Slips(cfg, Run(cfg, before), e, now)
          case Reset => true
          case Import(_, history, clock) => SteadyEmits(cfg, Fresh(cfg), history, clock)
          case Merge(events, clock) => SteadyMerge(cfg, Run(cfg, before), events, clock))
  }

  /** After every single emit of the run, inside imports and merges too, the state is the fold
      of the history. */
  ghost predicate FoldedThroughout<S, P>(cfg: Config<S, P>, ops: seq<Op<S, P>>) {
    ops != [] ==>
      var before := ops[..|ops| - 1];
      && FoldedThroughout(cfg, before)
      && (match ops[|ops| - 1]
          case Emit(_, _) => Folded(cfg, Run(cfg, ops))
          case Reset => true
          case Import(_, history, clock) =>
            forall k :: 0 <= k <= |history| ==> Folded(cfg, EmitAll(cfg, Fresh(cfg), history[..k], clock).0)
          case Merge(events, clock) =>
            forall k :: 0 <= k <= |events| ==> Folded(cfg, MergeAll(cfg, Run(cfg, before), events[..k], clock).engine))
  }

  lemma {:induction false} EmitsFolded<S, P>(
    cfg: Config<S, P>, st: EngineState<S, P>, events: seq<Event<P>>, clock: nat -> int)
    requires Folded(cfg, st)
    ensures SteadyEmits(cfg, st, events, clock) <==>
            forall k :: 0 <= k <= |events| ==> Folded(cfg, EmitAll(cfg, st, events[..k], clock).0)
    decreases |events|
  {
    hide EmitStep, Folded, Slips;
    assert events[..|events|] == events;
    if events != [] {
      var n := |events| - 1;
      EmitsFolded(cfg, st, events[..n], clock);
      assert forall k :: 0 <= k <= n ==> events[..n][..k] == events[..k];
      var (before, ok) := EmitAll(cfg, st, events[..n], clock);
      if Folded(cfg, before) { EmitKeepsFold(cfg, before, events[n], clock(n)); }
    }
  }

  lemma {:induction false} MergeFolded<S, P>(
    cfg: Config<S, P>, st: EngineState<S, P>, events: seq<Event<P>>, clock: nat -> int)
    requires Folded(cfg, st)
    ensures SteadyMerge(cfg, st, events, clock) <==>
            forall k :: 0 <= k <= |events| ==> Folded(cfg, MergeAll(cfg, st, events[..k], clock).engine)
    decreases |events|
  {
    hide EmitStep, Folded, Slips;
    assert events[..|events|] == events;
    if events != [] {
      var n := |events| - 1;
      MergeFolded(cfg, st, events[..n], clock);
      assert forall k :: 0 <= k <= n ==> events[..n][..k] == events[..k];
      var before := MergeAll(cfg, st, events[..n], clock).engine;
      if Folded(cfg, before) { EmitKeepsFold(cfg, before, events[n], clock(n)); }
    }
  }

  lemma LastFolded<S, P>(cfg: Config<S, P>, ops: seq<Op<S, P>>)
    requires FoldedThroughout(cfg, ops)
    ensures Folded(cfg, Run(cfg, ops))
  {
    if ops != [] {
      match ops[|ops| - 1] {
        case Emit(_, _) =>
        case Reset =>
        case Import(_, history, _) => assert history[..|history|] == history;
        case Merge(events, _) => assert events[..|events|] == events;
      }
    }
  }

  /** A run keeps its state equal to the fold of its history at every point exactly when no
      emit of it slips. */
  lemma {:induction false} SteadyExactly<S, P>(cfg: Config<S, P>, ops: seq<Op<S, P>>)
    ensures FoldedThroughout(cfg, ops) <==> Steady(cfg, ops)
  {
    if ops != [] {
      var before := ops[..|ops| - 1];
      SteadyExactly(cfg, before);
      if FoldedThroughout(cfg, before) {
        LastFolded(cfg, before);
        hide Slips, EmitStep, EmitAll, MergeAll, Lenient;
        match ops[|ops| - 1] {
          case Emit(e, now) => EmitKeepsFold(cfg, Run(cfg, before), e, now);
          case Reset =>
          case Import(_, history, clock) => EmitsFolded(cfg, Fresh(cfg), history, clock);
          case Merge(events, clock) => MergeFolded(cfg, Run(cfg, before), events, clock);
        }
      }
    }
  }

  ghost predicate FilledIn<P>(events: seq<Event<P>>) {
    forall i :: 0 <= i < |events| ==> events[i].timestamp.Some? && events[i].hash.Some?
  }

  /** What a caller can check before the call: events that arrive with both fields filled in
      are stored as they are. */
  ghost predicate ArriveFilled<S, P>(ops: seq<Op<S, P>>) {
    forall i :: 0 <= i < |ops| ==>
      match ops[i]
      case Emit(e, _) => FilledIn([e])
      case Reset => true
      case Import(_, history, _) => FilledIn(history)
      case Merge(events, _) => FilledIn(events)
  }

  lemma FilledDoNotSlip<S, P>(cfg: Config<S, P>, st: EngineState<S, P>, e: Event<P>, now: int)
    requires e.timestamp.Some? && e.hash.Some?
    ensures !Slips(cfg, st, e, now)
  {
    assert Stored(cfg.digest, e, now) == e;
  }

  lemma TimelessDoNotSlip<S(!new), P(!new)>(cfg: Config<S, P>, st: EngineState<S, P>, e: Event<P>, now: int)
    requires Timeless(cfg)
    ensures !Slips(cfg, st, e, now)
  {
    hide EmitStep, Stored, Timeless;
    StoredLikeRaw(cfg, st.current, e, now);
  }

  lemma {:induction false} FilledEmits<S, P>(
    cfg: Config<S, P>, st: EngineState<S, P>, events: seq<Event<P>>, clock: nat -> int)
    requires FilledIn(events)
    ensures SteadyEmits(cfg, st, events, clock) && SteadyMerge(cfg, st, events, clock)
    decreases |events|
  {
    hide Slips;
    if events != [] {
      var n := |events| - 1;
      FilledEmits(cfg, st, events[..n], clock);
      FilledDoNotSlip(cfg, EmitAll(cfg, st, events[..n], clock).0, events[n], clock(n));
      FilledDoNotSlip(cfg, MergeAll(cfg, st, events[..n], clock).engine, events[n], clock(n));
    }
  }

  lemma {:induction false} TimelessEmits<S(!new), P(!new)>(
    cfg: Config<S, P>, st: EngineState<S, P>, events: seq<Event<P>>, clock: nat -> int)
    requires Timeless(cfg)
    ensures SteadyEmits(cfg, st, events, clock) && SteadyMerge(cfg, st, events, clock)
    decreases |events|
  {
    hide Slips, Timeless;
    if events != [] {
      var n := |events| - 1;
      TimelessEmits(cfg, st, events[..n], clock);
      TimelessDoNotSlip(cfg, EmitAll(cfg, st, events[..n], clock).0, events[n], clock(n));
      TimelessDoNotSlip(cfg, MergeAll(cfg, st, events[..n], clock).engine, events[n], clock(n));
    }
  }

  /** Events that arrive filled in never slip, whatever the reducer reads. */
  lemma {:induction false} FilledRunsAreSteady<S, P>(cfg: Config<S, P>, ops: seq<Op<S, P>>)
    requires ArriveFilled(ops)
    ensures Steady(cfg, ops)
  {
    if ops != [] {
      var before := ops[..|ops| - 1];
      FilledRunsAreSteady(cfg, before);
      hide Slips, SteadyEmits, SteadyMerge;
      match ops[|ops| - 1] {
        case Emit(e, now) =>
          assert FilledIn([e]) && [e][0] == e;
          FilledDoNotSlip(cfg, Run(cfg, before), e, now);
        case Reset =>
        case Import(_, history, clock) => FilledEmits(cfg, Fresh(cfg), history, clock);
        case Merge(events, clock) => FilledEmits(cfg, Run(cfg, before), events, clock);
      }
    }
  }

  /** A reducer that reads neither field never slips, whatever arrives. */
  lemma {:induction false} TimelessRunsAreSteady<S(!new), P(!new)>(cfg: Config<S, P>, ops: seq<Op<S, P>>)
    requires Timeless(cfg)
    ensures Steady(cfg, ops)
  {
    if ops != [] {
      var before := ops[..|ops| - 1];
      TimelessRunsAreSteady(cfg, before);
      hide Slips, SteadyEmits, SteadyMerge, Timeless;
      match ops[|ops| - 1] {
        case Emit(e, now) => TimelessDoNotSlip(cfg, Run(cfg, before), e, now);
        case Reset =>
        case Import(_, history, clock) => TimelessEmits(cfg, Fresh(cfg), history, clock);
        case Merge(events, clock) => TimelessEmits(cfg, Run(cfg, before), events, clock);
      }
    }
  }

  /** `verify()` after any run: a full replay meets the current state exactly when no event of
      the history makes the reducer throw and the state is the fold; after a steady run, then,
      exactly when none makes it throw. */
  lemma VerifyExactly<S, P>(cfg: Config<S, P>, ops: seq<Op<S, P>>)
    ensures var st := Run(cfg, ops);
            && (Fold(cfg, st.log) == Some(st.current) <==> Accepted(cfg, st.log) && Folded(cfg, st))
            && (Steady(cfg, ops) ==> (Fold(cfg, st.log) == Some(st.current) <==> Accepted(cfg, st.log)))
  {
    RunInvariant(cfg, ops);
    StrictMatchesLenient(cfg, Run(cfg, ops).log);
  }

  /** A reducer that reads the filled-in timestamp: one emit slips, and replay disagrees. */
  lemma TimestampReadersDiverge()
    ensures
      var cfg := Config(0, (s: int, e: Event<int>) => Some(if e.timestamp.Some? then 1 else 2), (e: Event<int>) => "h");
      var run := Run(cfg, [Op<int, int>.Emit(Event("a", "k", 0, None, [], [], None, None), 5)]);
      run.current == 2 && Fold(cfg, run.log) == Some(1)
  {
    var cfg := Config(0, (s: int, e: Event<int>) => Some(if e.timestamp.Some? then 1 else 2), (e: Event<int>) => "h");
    var e := Event("a", "k", 0, None, [], [], None, None);
    var ops := [Op<int, int>.Emit(e, 5)];
    assert ops[..0] == [] && Run(cfg, []) == Fresh(cfg);
    assert EdgeParents(e) == [] && References(e) == [];
    var stored := Stored(cfg.digest, e, 5);
    assert Run(cfg, ops) == EngineState(2, [stored], map[]) by {
      assert [] + [stored] == [stored];
    }
    assert [stored][..0] == [];
    assert Fold(cfg, [stored]) == cfg.reducer(0, stored);
  }

  // ------------------------------------------------------- the graph and the history

  ghost predicate Declares<P>(log: seq<Event<P>>, a: string, b: string) {
    exists i :: 0 <= i < |log| && log[i].id == b && a in EdgeParents(log[i])
  }

  /** The edges are exactly the parent links of the history. */
  ghost predicate GraphExact<P>(log: seq<Event<P>>, g: Graph) {
    forall a, b :: b in Succ(g, a) <==> Declares(log, a, b)
  }

  lemma {:induction false} AddParentsFresh(g: Graph, parents: seq<string>, id: string)
    requires Succ(g, id) == {} && id !in parents
    ensures AddParents(g, parents, id).1
    ensures forall a, b :: b in Succ(AddParents(g, parents, id).0, a) <==> b in Succ(g, a) || (b == id && a in parents)
    decreases |parents|
  {
    if parents != [] {
      if Reaches(g, id, parents[0]) {
        var x := ReachFirst(g, id, parents[0]);
      }
      AddParentsFresh(AddArc(g, parents[0], id), parents[1..], id);
      assert parents == [parents[0]] + parents[1..];
    }
  }

  lemma DeclaresAppend<P>(log: seq<Event<P>>, e: Event<P>, a: string, b: string)
    ensures Declares(log + [e], a, b) <==> Declares(log, a, b) || (b == e.id && a in EdgeParents(e))
  {
    var after := log + [e];
    if Declares(log, a, b) {
      var i :| 0 <= i < |log| && log[i].id == b && a in EdgeParents(log[i]);
      assert after[i] == log[i];
    }
    if b == e.id && a in EdgeParents(e) { assert after[|log|] == e; }
  }

  /** A fresh identifier: the edges never close a cycle, and the graph stays exact. */
  lemma FreshEmitKeepsGraph<S, P>(cfg: Config<S, P>, st: EngineState<S, P>, e: Event<P>, now: int)
    requires WellFormed(st.log) && GraphExact(st.log, st.edges) && e.id !in Ids(st.log)
    ensures var (after, outcome) := EmitStep(cfg, st, e, now);
            && !outcome.WouldCreateCycle? && !outcome.AlreadyExists?
            && GraphExact(after.log, after.edges)
  {
    if ValidStructure(e) && ReferencesKnown(st.log, e) {
      assert forall p :: p in EdgeParents(e) ==> p in References(e);
      if b :| b in Succ(st.edges, e.id) {
        assert Declares(st.log, e.id, b);
        var i :| 0 <= i < |st.log| && st.log[i].id == b && e.id in EdgeParents(st.log[i]);
        EarlierIsKnown(st.log, i, e.id);
        assert false;
      }
      AddParentsFresh(st.edges, EdgeParents(e), e.id);
      var stored := Stored(cfg.digest, e, now);
      var after := AddParents(st.edges, EdgeParents(e), e.id).0;
      assert EdgeParents(stored) == EdgeParents(e);
      forall a, b ensures b in Succ(after, a) <==> Declares(st.log + [stored], a, b) {
        DeclaresAppend(st.log, stored, a, b);
      }
    }
  }

  lemma EarlierIsKnown<P>(log: seq<Event<P>>, i: nat, p: string)
    requires ParentsFirst(log) && i < |log| && p in EdgeParents(log[i])
    ensures p in Ids(log)
    ensures exists k :: 0 <= k < i && log[k].id == p
  {
    assert p in References(log[i]);
    IdsMember(log[..i], p);
    var k :| 0 <= k < |log[..i]| && log[..i][k].id == p;
    IdsMember(log, p);
    assert log[k].id == p;
  }

  /** With an exact graph, the history itself is a linear extension: every causal path leads
      from an earlier event to a later one. */
  lemma PathsGoForward<P>(log: seq<Event<P>>, g: Graph)
    requires WellFormed(log) && GraphExact(log, g)
    ensures forall i, j :: 0 <= i < |log| && 0 <= j < |log| && Reaches(g, log[i].id, log[j].id) ==> i < j
    ensures Acyclic(g)
  {
    forall i, j, p | 0 <= i < |log| && 0 <= j < |log| && Walk(g, p, log[i].id, log[j].id) ensures i < j {
      WalkForwardInLog(log, g, p, i, j);
    }
    forall x | Reaches(g, x, x) ensures false {
      var y := ReachLast(g, x, x);
    }
  }

  /** A run in which no emit repeats an identifier of the history; a merge never does. */
  ghost predicate FreshRun<S, P>(cfg: Config<S, P>, ops: seq<Op<S, P>>) {
    ops != [] ==>
      var before := ops[..|ops| - 1];
      && FreshRun(cfg, before)
      && (match ops[|ops| - 1]
          case Emit(e, _) => e.id !in Ids(Run(cfg, before).log)
          case Reset => true
          case Import(_, history, _) => NoDup(Ids(history))
          case Merge(_, _) => true)
  }

  lemma {:induction false} EmitAllFresh<S, P>(cfg: Config<S, P>, events: seq<Event<P>>, clock: nat -> int)
    requires NoDup(Ids(events))
    ensures var after := EmitAll(cfg, Fresh(cfg), events, clock).0;
            && GraphExact(after.log, after.edges)
            && forall p :: p in Ids(after.log) ==> p in Ids(events)
    decreases |events|
  {
    assert Inv(Fresh<S, P>(cfg)) && GraphExact(Fresh<S, P>(cfg).log, Fresh<S, P>(cfg).edges);
    if events != [] {
      var n := |events| - 1;
      assert Ids(events) == Ids(events[..n]) + [events[n].id];
      assert Ids(events)[..n] == Ids(events[..n]);
      hide Inv, GraphExact, WellFormed;
      EmitAllFresh(cfg, events[..n], clock);
      EmitAllKeepsInv(cfg, Fresh(cfg), events[..n], clock);
      var before := EmitAll(cfg, Fresh(cfg), events[..n], clock).0;
      forall k | 0 <= k < n ensures Ids(events[..n])[k] != events[n].id {
        assert Ids(events)[k] != Ids(events)[n];
      }
      assert events[n].id !in Ids(events[..n]);
      assert WellFormed(before.log) by { InvIsWellFormed(before); }
      FreshEmitKeepsGraph(cfg, before, events[n], clock(n));
      EmitAddsOne(cfg, before, events[n], clock(n));
    }
  }

  lemma InvIsWellFormed<S, P>(st: EngineState<S, P>)
    requires Inv(st)
    ensures WellFormed(st.log)
  {
  }

  lemma {:induction false} MergeKeepsGraph<S, P>(
    cfg: Config<S, P>, st: EngineState<S, P>, events: seq<Event<P>>, clock: nat -> int)
    requires Inv(st) && GraphExact(st.log, st.edges)
    ensures var after := MergeAll(cfg, st, events, clock).engine; GraphExact(after.log, after.edges)
    decreases |events|
  {
    if events != [] {
      hide Inv, GraphExact, WellFormed, EmitStep;
      var n := |events| - 1;
      MergeKeepsGraph(cfg, st, events[..n], clock);
      MergeAllKeepsInv(cfg, st, events[..n], clock);
      var before := MergeAll(cfg, st, events[..n], clock).engine;
      InvIsWellFormed(before);
      if events[n].id !in Ids(before.log) {
        FreshEmitKeepsGraph(cfg, before, events[n], clock(n));
      }
    }
  }

  lemma EmitAddsOne<S, P>(cfg: Config<S, P>, st: EngineState<S, P>, e: Event<P>, now: int)
    ensures forall p :: p in Ids(EmitStep(cfg, st, e, now).0.log) ==> p in Ids(st.log) || p == e.id
  {
    IdsAppend(st.log, [Stored(cfg.digest, e, now)]);
    assert Ids([Stored(cfg.digest, e, now)]) == [e.id];
  }

  /** Over every run that repeats no identifier, failing calls included, the graph is exactly
      the parent links of the history, so a causal path always leads forward in it and the
      graph is acyclic. */
  lemma FreshRunsMirrorHistory<S, P>(cfg: Config<S, P>, ops: seq<Op<S, P>>)
    requires FreshRun(cfg, ops)
    ensures var st := Run(cfg, ops);
            && GraphExact(st.log, st.edges) && Acyclic(st.edges)
            && forall i, j ::
              0 <= i < |st.log| && 0 <= j < |st.log| && Reaches(st.edges, st.log[i].id, st.log[j].id) ==> i < j
  {
    GraphOfRun(cfg, ops);
    RunInvariant(cfg, ops);
    PathsGoForward(Run(cfg, ops).log, Run(cfg, ops).edges);
  }

  lemma {:induction false} GraphOfRun<S, P>(cfg: Config<S, P>, ops: seq<Op<S, P>>)
    requires FreshRun(cfg, ops)
    ensures GraphExact(Run(cfg, ops).log, Run(cfg, ops).edges)
  {
    assert GraphExact(Fresh<S, P>(cfg).log, Fresh<S, P>(cfg).edges);
    if ops != [] {
      var before := ops[..|ops| - 1];
      GraphOfRun(cfg, before);
      match ops[|ops| - 1] {
        case Emit(e, now) =>
          RunInvariant(cfg, before);
          FreshEmitKeepsGraph(cfg, Run(cfg, before), e, now);
        case Reset =>
        case Import(_, history, clock) =>
          EmitAllFresh(cfg, history, clock);
        case Merge(events, clock) =>
          RunInvariant(cfg, before);
          MergeKeepsGraph(cfg, Run(cfg, before), events, clock);
      }
    }
  }

  lemma {:induction false} WalkForwardInLog<P>(log: seq<Event<P>>, g: Graph, p: seq<string>, i: nat, j: nat)
    requires WellFormed(log) && GraphExact(log, g)
    requires i < |log| && j < |log| && Walk(g, p, log[i].id, log[j].id)
    ensures i < j
    decreases |p|
  {
    var b := p[|p| - 2];
    assert log[j].id in Succ(g, b);
    assert Declares(log, b, log[j].id);
    var m :| 0 <= m < |log| && log[m].id == log[j].id && b in EdgeParents(log[m]);
    SameIdSameIndex(log, m, j);
    EarlierIsKnown(log, j, b);
    var k :| 0 <= k < j && log[k].id == b;
    if |p| == 2 {
      SameIdSameIndex(log, k, i);
    } else {
      assert Walk(g, p[..|p| - 1], log[i].id, log[k].id);
      WalkForwardInLog(log, g, p[..|p| - 1], i, k);
    }
  }

  lemma SameIdSameIndex<P>(log: seq<Event<P>>, i: nat, j: nat)
    requires NoDup(Ids(log)) && i < |log| && j < |log| && log[i].id == log[j].id
    ensures i == j
  {
    assert Ids(log)[i] == Ids(log)[j];
  }

  /** The first parent of `parents` that the graph does not record yet. */
  ghost function FirstNew(g: Graph, parents: seq<string>, id: string): Option<string>
    decreases |parents|
  {
    if parents == [] then None
    else if id in Succ(g, parents[0]) then FirstNew(g, parents[1..], id)
    else Some(parents[0])
  }

  lemma {:induction false} AddParentsChanges(g: Graph, parents: seq<string>, id: string)
    requires Acyclic(g)
    ensures var extra := FirstNew(g, parents, id);
            (forall a :: Succ(AddParents(g, parents, id).0, a) == Succ(g, a))
            <==> extra.None? || (extra.value != id && Reaches(g, id, extra.value))
    decreases |parents|
  {
    if parents != [] {
      var p := parents[0];
      if id in Succ(g, p) {
        ReachStep(g, p, id);
        if Reaches(g, id, p) { ReachTrans(g, p, id, p); assert false; }
        assert Succ(g, p) + {id} == g[p];
        assert AddArc(g, p, id) == g;
        AddParentsChanges(g, parents[1..], id);
      } else if p == id || !Reaches(g, id, p) {
        AddParentsGrows(AddArc(g, p, id), parents[1..], id);
        assert id in Succ(AddParents(g, parents, id).0, p);
      }
    }
  }

  lemma {:induction false} AddParentsGrows(g: Graph, parents: seq<string>, id: string)
    ensures forall a :: Succ(g, a) <= Succ(AddParents(g, parents, id).0, a)
    decreases |parents|
  {
    if parents != [] && (parents[0] == id || !Reaches(g, id, parents[0])) {
      AddParentsGrows(AddArc(g, parents[0], id), parents[1..], id);
    }
  }

  /** A repeated identifier: its edges go in before the store refuses it. The graph still
      mirrors the history exactly when the call names no unrecorded parent, or the first
      unrecorded one is a descendant, which the cycle check refuses. */
  lemma RepeatedEmitGraph<S, P>(cfg: Config<S, P>, st: EngineState<S, P>, e: Event<P>, now: int)
    requires WellFormed(st.log) && GraphExact(st.log, st.edges) && e.id in Ids(st.log)
    requires ValidStructure(e) && ReferencesKnown(st.log, e)
    ensures var (after, outcome) := EmitStep(cfg, st, e, now);
            && after.log == st.log && after.current == st.current
            && (outcome.WouldCreateCycle? || outcome.AlreadyExists?)
            && (var extra := FirstNew(st.edges, EdgeParents(e), e.id);
                GraphExact(after.log, after.edges)
                <==> extra.None? || (extra.value != e.id && Reaches(st.edges, e.id, extra.value)))
  {
    PathsGoForward(st.log, st.edges);
    AddParentsChanges(st.edges, EdgeParents(e), e.id);
    var after := AddParents(st.edges, EdgeParents(e), e.id).0;
    if GraphExact(st.log, after) {
      forall a ensures Succ(after, a) == Succ(st.edges, a) {
        assert forall b :: b in Succ(after, a) <==> Declares(st.log, a, b);
      }
    }
  }

  // ------------------------------------------------------- export and import

  /** Emitting an event that is already a stored copy onto a history it fits. */
  lemma EmitStoredCopy<S, P>(cfg: Config<S, P>, st: EngineState<S, P>, e: Event<P>, now: int)
    requires WellFormed(st.log) && GraphExact(st.log, st.edges)
    requires ValidStructure(e) && e.timestamp.Some? && e.hash.Some?
    requires ReferencesKnown(st.log, e) && e.id !in Ids(st.log)
    ensures var (after, outcome) := EmitStep(cfg, st, e, now);
            && after.log == st.log + [e] && GraphExact(after.log, after.edges)
            && outcome.Emitted? == cfg.reducer(st.current, e).Some?
            && (outcome.Emitted? ==> Some(after.current) == cfg.reducer(st.current, e))
  {
    hide GraphExact, WellFormed, AddParents, ReferencesKnown;
    FreshEmitKeepsGraph(cfg, st, e, now);
    assert Stored(cfg.digest, e, now) == e;
  }

  lemma {:induction false} PrefixWellFormed<P>(log: seq<Event<P>>, k: nat)
    requires WellFormed(log) && k < |log|
    ensures WellFormed(log[..k]) && ReferencesKnown(log[..k], log[k]) && log[k].id !in Ids(log[..k])
  {
    var before := log[..k];
    assert Ids(before) == Ids(log)[..k] && Ids(log)[k] == log[k].id;
    forall i, p | 0 <= i < k && p in References(before[i]) ensures p in Ids(before[..i]) {
      assert before[..i] == log[..i];
    }
  }

  lemma {:induction false} ReEmit<S, P>(cfg: Config<S, P>, log: seq<Event<P>>, clock: nat -> int, k: nat)
    requires WellFormed(log) && k <= |log|
    ensures var (after, ok) := EmitAll(cfg, Fresh(cfg), log[..k], clock);
            && ok == Fold(cfg, log[..k]).Some?
            && (ok ==> after.log == log[..k] && Fold(cfg, log[..k]) == Some(after.current))
            && (ok ==> GraphExact(after.log, after.edges))
  {
    hide GraphExact, WellFormed, EmitStep, ReferencesKnown, Fold, EmitAll;
    if k > 0 {
      ReEmit(cfg, log, clock, k - 1);
      var (before, ok) := EmitAll(cfg, Fresh(cfg), log[..k - 1], clock);
      OneMore(cfg, Fresh(cfg), log, clock, k);
      PrefixWellFormed(log, k - 1);
      if ok {
        ElementStored(log, k - 1);
        EmitStoredCopy(cfg, before, log[k - 1], clock(k - 1));
        assert log[..k - 1] + [log[k - 1]] == log[..k];
      }
    } else {
      EmitNone(cfg, log[..0], clock);
    }
  }

  lemma EmitNone<S, P>(cfg: Config<S, P>, events: seq<Event<P>>, clock: nat -> int)
    requires events == []
    ensures EmitAll(cfg, Fresh(cfg), events, clock) == (Fresh(cfg), true) && Fold(cfg, events) == Some(cfg.initial)
    ensures GraphExact(events, Fresh(cfg).edges)
  {
  }

  lemma OneMore<S, P>(cfg: Config<S, P>, st: EngineState<S, P>, log: seq<Event<P>>, clock: nat -> int, k: nat)
    requires 0 < k <= |log|
    ensures Fold(cfg, log[..k]) ==
            var s := Fold(cfg, log[..k - 1]); if s.None? then None else cfg.reducer(s.value, log[k - 1])
    ensures EmitAll(cfg, st, log[..k], clock) ==
            var (before, ok) := EmitAll(cfg, st, log[..k - 1], clock);
            if !ok then (before, false)
            else
              var (after, outcome) := EmitStep(cfg, before, log[k - 1], clock(k - 1));
              (after, outcome.Emitted?)
  {
    hide EmitStep;
    assert log[..k][..k - 1] == log[..k - 1];
  }

  lemma ElementStored<P>(log: seq<Event<P>>, i: nat)
    requires WellFormed(log) && i < |log|
    ensures ValidStructure(log[i]) && log[i].timestamp.Some? && log[i].hash.Some?
  {
  }

  /** Importing what any run exported goes through exactly when the exporting engine verifies;
      then history and state come back as they were, under a graph that mirrors the history
      even if the exporting engine's had stray edges. After a steady run that is exactly when
      no event of the history makes the reducer throw. */
  lemma ImportRestoresExport<S, P>(cfg: Config<S, P>, ops: seq<Op<S, P>>, clock: nat -> int)
    ensures var st := Run(cfg, ops);
            var (after, ok) := EmitAll(cfg, Fresh(cfg), st.log, clock);
            && (ok && st.current == after.current <==> Fold(cfg, st.log) == Some(st.current))
            && (ok ==> after.log == st.log && GraphExact(after.log, after.edges))
            && (Steady(cfg, ops) ==> (ok <==> Accepted(cfg, st.log)) && (ok ==> after.current == st.current))
  {
    var st := Run(cfg, ops);
    RunInvariant(cfg, ops);
    StrictMatchesLenient(cfg, st.log);
    ReEmit(cfg, st.log, clock, |st.log|);
    assert st.log[..|st.log|] == st.log;
  }
}
