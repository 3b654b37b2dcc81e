/** Nodes that exchange histories. Merging another node's history always goes through, adds
    exactly the missing events, and two nodes that merged each other agree. */
module DistributedNodes {
  import opened Orders
  import opened Events
  import opened Execution
  import opened ExecutionRuns
  import opened Convergence

  class DistributedNode<!S(==), !P(==)> {
    const engine: JCCompute<S, P>

    constructor (config: Config<S, P>)
      ensures engine.Valid() && engine.Model() == Fresh(config) && engine.config == config
    {
      engine := new JCCompute(config);
    }

    method Emit(e: Event<P>, now: int) returns (outcome: Outcome)
      requires engine.Valid()
      modifies engine, engine.eventStore, engine.causalGraph
      ensures engine.Valid()
      ensures (engine.Model(), outcome) == EmitStep(engine.config, old(engine.Model()), e, now)
    {
      outcome := engine.Emit(e, now);
    }

    method Merge(events: seq<Event<P>>, clock: nat -> int) returns (applied: nat, ok: bool)
      requires engine.Valid()
      modifies engine, engine.eventStore, engine.causalGraph
      ensures engine.Valid()
      ensures Merged(engine.Model(), applied, ok) == MergeAll(engine.config, old(engine.Model()), events, clock)
      ensures ok ==> applied == |engine.eventStore.Log()| - |old(engine.eventStore.Log())|
      ensures ok ==> forall e :: e in events ==> e.id in Ids(engine.eventStore.Log())
      ensures !ok ==> exists k :: StopsAt(engine.config, old(engine.Model()), events, clock, k, engine.Model())
    {
      hide EmitStep;
      applied := 0;
      for i := 0 to |events|
        invariant engine.Valid()
        invariant MergeAll(engine.config, old(engine.Model()), events[..i], clock) ==
          Merged(engine.Model(), applied, true)
      {
        assert events[..i + 1][..i] == events[..i];
        var known := engine.HasEvent(events[i].id);
        if known {
          continue;
        }
        var outcome := engine.Emit(events[i], clock(i));
        if !outcome.Emitted? {
          MergeStops(engine.config, old(engine.Model()), events, clock, i + 1);
          assert StopsAt(engine.config, old(engine.Model()), events, clock, i, engine.Model());
          return applied, false;
        }
        applied := applied + 1;
      }
      assert events[..|events|] == events;
      MergedAllKnown(engine.config, old(engine.Model()), events, clock);
      ok := true;
    }

    method VerifyWith(peer: DistributedNode<S, P>) returns (verified: bool, statesMatch: bool, errors: seq<string>)
      requires engine.Valid() && peer.engine.Valid()
      ensures statesMatch <==> engine.currentState == peer.engine.currentState
      ensures verified <==>
        Fold(engine.config, engine.eventStore.Log()) == Some(engine.currentState) &&
        Fold(peer.engine.config, peer.engine.eventStore.Log()) == Some(peer.engine.currentState)
      ensures errors == if statesMatch then [] else ["Node states differ"]
    {
      var mine := engine.Verify();
      var theirs := peer.engine.Verify();
      verified := mine && theirs;
      statesMatch := engine.currentState == peer.engine.currentState;
      errors := if statesMatch then [] else ["Node states differ"];
    }
  }

  /** The first `k` events go through, and the one after is new and fails; what it leaves behind
      is what is left. */
  ghost predicate StopsAt<S, P>(cfg: Config<S, P>, st: EngineState<S, P>, events: seq<Event<P>>, clock: nat -> int,
                                k: int, after: EngineState<S, P>)
  {
    && 0 <= k < |events|
    && var before := MergeAll(cfg, st, events[..k], clock);
       && before.ok && events[k].id !in Ids(before.engine.log)
       && EmitStep(cfg, before.engine, events[k], clock(k)).0 == after
       && !EmitStep(cfg, before.engine, events[k], clock(k)).1.Emitted?
  }

  /** A merge that goes through leaves every event known, one more in the history for each one
      applied. */
  lemma {:induction false} MergedAllKnown<S, P>(cfg: Config<S, P>, st: EngineState<S, P>, events: seq<Event<P>>,
                                                clock: nat -> int)
    ensures var m := MergeAll(cfg, st, events, clock);
      m.ok ==> && |m.engine.log| == |st.log| + m.applied
               && (forall id :: id in Ids(st.log) ==> id in Ids(m.engine.log))
               && forall e :: e in events ==> e.id in Ids(m.engine.log)
    decreases |events|
  {
    hide AddParents, ReferencesKnown;
    if events != [] {
      var n := |events| - 1;
      MergedAllKnown(cfg, st, events[..n], clock);
      assert events == events[..n] + [events[n]];
      var before := MergeAll(cfg, st, events[..n], clock);
      var (after, outcome) := EmitStep(cfg, before.engine, events[n], clock(n));
      if before.ok && events[n].id !in Ids(before.engine.log) && outcome.Emitted? {
        var stored := Stored(cfg.digest, events[n], clock(n));
        IdsAppend(before.engine.log, [stored]);
        assert Ids([stored])[0] == events[n].id;
      }
    }
  }

  lemma {:induction false} MergeStops<S, P>(cfg: Config<S, P>, st: EngineState<S, P>, events: seq<Event<P>>,
                                            clock: nat -> int, k: nat)
    requires k <= |events| && !MergeAll(cfg, st, events[..k], clock).ok
    ensures MergeAll(cfg, st, events, clock) == MergeAll(cfg, st, events[..k], clock)
    decreases |events|
  {
    if k == |events| {
      assert events[..k] == events;
    } else {
      assert events[..|events| - 1][..k] == events[..k];
      MergeStops(cfg, st, events[..|events| - 1], clock, k);
    }
  }

  // ------------------------------------------------------- what a merge leaves behind

  /** The events of `events` that `log` does not hold, in order. */
  function Missing<P>(log: seq<Event<P>>, events: seq<Event<P>>): seq<Event<P>> {
    if events == [] then []
    else
      var n := |events| - 1;
      Missing(log, events[..n]) + if events[n].id in Ids(log) then [] else [events[n]]
  }

  lemma {:induction false} MissingIds<P>(log: seq<Event<P>>, events: seq<Event<P>>)
    ensures forall p :: p in Ids(log + Missing(log, events)) <==> p in Ids(log) || p in Ids(events)
    decreases |events|
  {
    IdsAppend(log, Missing(log, events));
    if events != [] {
      var n := |events| - 1;
      var before := Missing(log, events[..n]);
      MissingIds(log, events[..n]);
      IdsAppend(log, before);
      assert events == events[..n] + [events[n]];
      IdsAppend(events[..n], [events[n]]);
      assert Ids([events[n]]) == [events[n].id];
      if events[n].id in Ids(log) {
        assert before + [] == before;
      } else {
        IdsAppend(before, [events[n]]);
      }
    } else {
      assert Ids(Missing(log, events)) == [];
    }
  }

  /** The reducer carried on over these events from a given state; a throw ends it. */
  function Advance<S, P>(cfg: Config<S, P>, s: S, events: seq<Event<P>>): Option<S> {
    if events == [] then Some(s)
    else
      var before := Advance(cfg, s, events[..|events| - 1]);
      if before.None? then None else cfg.reducer(before.value, events[|events| - 1])
  }

  /** A stored copy that fits the history: it goes in as it is, and only the reducer may throw. */
  lemma FittingEmit<S, P>(cfg: Config<S, P>, st: EngineState<S, P>, e: Event<P>, now: int)
    requires Inv(st) && ValidStructure(e) && e.timestamp.Some? && e.hash.Some?
    requires ReferencesKnown(st.log, e) && e.id !in Ids(st.log)
    ensures var (after, outcome) := EmitStep(cfg, st, e, now);
            && after.log == st.log + [e] && Inv(after)
            && (outcome.Emitted? <==> cfg.reducer(st.current, e).Some?)
            && (outcome.Emitted? ==> Some(after.current) == cfg.reducer(st.current, e))
            && (!outcome.Emitted? ==> after.current == st.current)
            && (Folded(cfg, st) ==> Folded(cfg, after))
            && (GraphExact(st.log, st.edges) ==> GraphExact(after.log, after.edges))
  {
    EmitKeepsInv(cfg, st, e, now);
    FilledDoNotSlip(cfg, st, e, now);
    if Folded(cfg, st) { EmitKeepsFold(cfg, st, e, now); }
    hide Inv, GraphExact, WellFormed, AddParents, ReferencesKnown, Lenient;
    NoCycleUnderInv(st, e);
    assert Stored(cfg.digest, e, now) == e;
    if GraphExact(st.log, st.edges) {
      assert WellFormed(st.log) by { InvIsWellFormed(st); }
      FreshEmitKeepsGraph(cfg, st, e, now);
    }
  }

  lemma NoCycleUnderInv<S, P>(st: EngineState<S, P>, e: Event<P>)
    requires Inv(st) && ReferencesKnown(st.log, e) && e.id !in Ids(st.log)
    ensures AddParents(st.edges, EdgeParents(e), e.id).1
  {
    FreshNeverCycles(st, e);
  }

  /** What a merge of a well-formed history comes to: it goes through exactly when the reducer
      takes every missing event in turn; if one makes it throw, that event is the last the
      history gets. */
  ghost predicate MergedAsFar<S, P>(cfg: Config<S, P>, st: EngineState<S, P>, missing: seq<Event<P>>, m: Merged<S, P>) {
    && (m.ok <==> Advance(cfg, st.current, missing).Some?)
    && (if m.ok then
          && m.applied == |missing| && m.engine.log == st.log + missing
          && Advance(cfg, st.current, missing) == Some(m.engine.current)
        else
          && m.applied < |missing| && m.engine.log == st.log + missing[..m.applied + 1]
          && Advance(cfg, st.current, missing[..m.applied]) == Some(m.engine.current)
          && Advance(cfg, st.current, missing[..m.applied + 1]) == None)
  }

  /** What a merge keeps, whether it goes through or not. */
  ghost predicate MergeKeeps<S, P>(cfg: Config<S, P>, st: EngineState<S, P>, after: EngineState<S, P>) {
    && Inv(after)
    && (Folded(cfg, st) ==> Folded(cfg, after))
    && (GraphExact(st.log, st.edges) ==> GraphExact(after.log, after.edges))
  }

  /** One more missing event, taken or thrown out. */
  lemma AdvanceSnoc<S, P>(cfg: Config<S, P>, s: S, events: seq<Event<P>>, e: Event<P>)
    ensures Advance(cfg, s, events + [e]) ==
            if Advance(cfg, s, events).None? then None else cfg.reducer(Advance(cfg, s, events).value, e)
  {
    assert (events + [e])[..|events|] == events;
  }

  lemma MergedNext<S, P>(cfg: Config<S, P>, st: EngineState<S, P>, missing: seq<Event<P>>, m: Merged<S, P>,
                         e: Event<P>, now: int)
    requires Inv(st) && MergedAsFar(cfg, st, missing, m) && MergeKeeps(cfg, st, m.engine)
    requires ValidStructure(e) && e.timestamp.Some? && e.hash.Some?
    requires m.ok ==> ReferencesKnown(m.engine.log, e) && e.id !in Ids(m.engine.log)
    ensures var next := if !m.ok then m else
                          var (after, outcome) := EmitStep(cfg, m.engine, e, now);
                          if outcome.Emitted? then Merged(after, m.applied + 1, true)
                          else Merged(after, m.applied, false);
            MergedAsFar(cfg, st, missing + [e], next) && MergeKeeps(cfg, st, next.engine)
  {
    hide Inv, GraphExact, EmitStep, ReferencesKnown, Folded, Advance;
    AdvanceSnoc(cfg, st.current, missing, e);
    var more := missing + [e];
    if m.ok {
      FittingEmit(cfg, m.engine, e, now);
      assert st.log + missing + [e] == st.log + more;
      assert more[..|missing|] == missing && more[..|missing| + 1] == more;
    } else {
      assert more[..m.applied + 1] == missing[..m.applied + 1] && more[..m.applied] == missing[..m.applied];
    }
  }

  /** One event more: what the merge does with it, and whether it was missing. */
  lemma MergeSteps<S, P>(
    cfg: Config<S, P>, st: EngineState<S, P>, remote: seq<Event<P>>, clock: nat -> int, k: nat)
    requires k < |remote|
    ensures var m := MergeAll(cfg, st, remote[..k], clock);
            MergeAll(cfg, st, remote[..k + 1], clock) ==
              if !m.ok || remote[k].id in Ids(m.engine.log) then m
              else
                var (after, outcome) := EmitStep(cfg, m.engine, remote[k], clock(k));
                if outcome.Emitted? then Merged(after, m.applied + 1, true) else Merged(after, m.applied, false)
    ensures Missing(st.log, remote[..k + 1]) ==
            Missing(st.log, remote[..k]) + if remote[k].id in Ids(st.log) then [] else [remote[k]]
  {
    hide EmitStep;
    assert remote[..k + 1][..k] == remote[..k];
  }

  lemma MergedStep<S, P>(cfg: Config<S, P>, st: EngineState<S, P>, remote: seq<Event<P>>, k: nat,
                         missing: seq<Event<P>>, m: Merged<S, P>, now: int)
    requires Inv(st) && WellFormed(remote) && k < |remote| && missing == Missing(st.log, remote[..k])
    requires MergedAsFar(cfg, st, missing, m) && MergeKeeps(cfg, st, m.engine)
    ensures var e := remote[k];
            var next := if !m.ok || e.id in Ids(m.engine.log) then m
                        else
                          var (after, outcome) := EmitStep(cfg, m.engine, e, now);
                          if outcome.Emitted? then Merged(after, m.applied + 1, true)
                          else Merged(after, m.applied, false);
            var more := if e.id in Ids(st.log) then [] else [e];
            MergedAsFar(cfg, st, missing + more, next) && MergeKeeps(cfg, st, next.engine)
  {
    hide Inv, WellFormed, EmitStep, ReferencesKnown, MergedAsFar, MergeKeeps, Ids;
    var before, e := remote[..k], remote[k];
    PrefixWellFormed(remote, k);
    ElementStored(remote, k);
    MissingIds(st.log, before);
    MergedLog(cfg, st, missing, m);
    if e.id in Ids(st.log) {
      StillThere(st.log, m.engine.log, e.id);
      assert missing + [] == missing;
    } else {
      if m.ok { KnownAlike(before, m.engine.log, e); }
      MergedNext(cfg, st, missing, m, e, now);
    }
  }

  lemma MergedNothing<S, P>(cfg: Config<S, P>, st: EngineState<S, P>, clock: nat -> int)
    requires Inv(st)
    ensures var m := MergeAll(cfg, st, [], clock);
            MergedAsFar(cfg, st, Missing(st.log, []), m) && MergeKeeps(cfg, st, m.engine)
  {
    assert st.log + [] == st.log;
  }

  lemma {:induction false} MergePrefix<S, P>(
    cfg: Config<S, P>, st: EngineState<S, P>, remote: seq<Event<P>>, clock: nat -> int, k: nat)
    requires Inv(st) && WellFormed(remote) && k <= |remote|
    ensures var m := MergeAll(cfg, st, remote[..k], clock);
            MergedAsFar(cfg, st, Missing(st.log, remote[..k]), m) && MergeKeeps(cfg, st, m.engine)
  {
    hide Inv, WellFormed, EmitStep, MergedAsFar, MergeKeeps, MergeAll, Missing;
    if k == 0 {
      MergedNothing(cfg, st, clock);
      assert remote[..0] == [];
    } else {
      MergePrefix(cfg, st, remote, clock, k - 1);
      MergedStep(cfg, st, remote, k - 1, Missing(st.log, remote[..k - 1]),
                 MergeAll(cfg, st, remote[..k - 1], clock), clock(k - 1));
      MergeSteps(cfg, st, remote, clock, k - 1);
    }
  }

  lemma StillThere<P>(log: seq<Event<P>>, longer: seq<Event<P>>, id: string)
    requires log <= longer && id in Ids(log)
    ensures id in Ids(longer)
  {
    assert longer == log + longer[|log|..];
    IdsAppend(log, longer[|log|..]);
  }

  lemma MergedLog<S, P>(cfg: Config<S, P>, st: EngineState<S, P>, missing: seq<Event<P>>, m: Merged<S, P>)
    requires MergedAsFar(cfg, st, missing, m)
    ensures st.log <= m.engine.log
    ensures m.ok ==> m.engine.log == st.log + missing
  {
  }

  /** Merging any well-formed history, and so any other node's, whatever the reducer reads: the
      local history stays as a prefix, the missing events follow in their own order, and state
      and graph keep their meaning. The merge goes through exactly when the reducer takes every
      missing event in turn, and then the identifiers are the union. */
  lemma MergeGoesThrough<S, P>(
    cfg: Config<S, P>, st: EngineState<S, P>, remote: seq<Event<P>>, clock: nat -> int)
    requires Inv(st) && WellFormed(remote)
    ensures var m := MergeAll(cfg, st, remote, clock); var missing := Missing(st.log, remote);
            && MergedAsFar(cfg, st, missing, m) && MergeKeeps(cfg, st, m.engine)
            && (m.ok ==> forall p :: p in Ids(m.engine.log) <==> p in Ids(st.log) || p in Ids(remote))
  {
    MergePrefix(cfg, st, remote, clock, |remote|);
    assert remote[..|remote|] == remote;
    MissingIds(st.log, remote);
  }

  /** A reducer that never throws takes every event. */
  lemma {:induction false} TotalAdvances<S(!new), P>(cfg: Config<S, P>, s: S, events: seq<Event<P>>)
    requires forall t: S, i :: 0 <= i < |events| ==> cfg.reducer(t, events[i]).Some?
    ensures Advance(cfg, s, events).Some?
  {
    if events != [] {
      var n := |events| - 1;
      TotalAdvances(cfg, s, events[..n]);
    }
  }

  /** Merging changes nothing exactly when every event is known already. */
  lemma {:induction false} MergeNothing<S, P>(
    cfg: Config<S, P>, st: EngineState<S, P>, events: seq<Event<P>>, clock: nat -> int)
    ensures MergeAll(cfg, st, events, clock) == Merged(st, 0, true) <==>
            forall i :: 0 <= i < |events| ==> events[i].id in Ids(st.log)
    decreases |events|
  {
    hide EmitStep;
    if events != [] {
      var n := |events| - 1;
      MergeNothing(cfg, st, events[..n], clock);
      assert forall i :: 0 <= i < n ==> events[..n][i] == events[i];
    }
  }

  lemma MissingNoDup<P>(log: seq<Event<P>>, events: seq<Event<P>>)
    requires NoDup(Ids(events))
    ensures NoDup(Ids(Missing(log, events)))
    ensures forall e :: e in Missing(log, events) ==> e.id in Ids(events) && e.id !in Ids(log)
    decreases |events|
  {
    if events != [] {
      var n := |events| - 1;
      var before := Missing(log, events[..n]);
      assert Ids(events)[..n] == Ids(events[..n]) && Ids(events)[n] == events[n].id;
      MissingNoDup(log, events[..n]);
      if events[n].id !in Ids(log) {
        IdsAppend(before, [events[n]]);
        assert Ids([events[n]]) == [events[n].id];
        forall i | 0 <= i < |before| ensures Ids(before)[i] != events[n].id {
          assert before[i] in before;
        }
        NoDupAppend(Ids(before), events[n].id);
      } else {
        assert Missing(log, events) == before + [] == before;
      }
    }
  }

  /** A second merge of the same history changes nothing, exactly when the first went through
      or stopped at the very last missing event. */
  lemma MergeIdempotent<S, P>(
    cfg: Config<S, P>, st: EngineState<S, P>, remote: seq<Event<P>>, clock: nat -> int, again: nat -> int)
    requires Inv(st) && WellFormed(remote)
    ensures var m := MergeAll(cfg, st, remote, clock);
            MergeAll(cfg, m.engine, remote, again) == Merged(m.engine, 0, true) <==>
            m.ok || m.applied + 1 == |Missing(st.log, remote)|
  {
    hide MergeAll, Advance, Inv, MergeKeeps, Missing, WellFormed;
    var m, missing := MergeAll(cfg, st, remote, clock), Missing(st.log, remote);
    MergeGoesThrough(cfg, st, remote, clock);
    MergeNothing(cfg, m.engine, remote, again);
    if m.ok || m.applied + 1 == |missing| {
      assert missing[..|missing|] == missing;
      AllKnownAfter(st.log, remote, m.engine.log);
    } else {
      NextIsNew(st.log, remote, missing, m.applied + 1);
    }
  }

  lemma AllKnownAfter<P>(log: seq<Event<P>>, remote: seq<Event<P>>, after: seq<Event<P>>)
    requires after == log + Missing(log, remote)
    ensures forall i :: 0 <= i < |remote| ==> remote[i].id in Ids(after)
  {
    MissingIds(log, remote);
    forall i | 0 <= i < |remote| ensures remote[i].id in Ids(after) {
      assert Ids(remote)[i] == remote[i].id;
    }
  }

  lemma NextIsNew<P>(log: seq<Event<P>>, remote: seq<Event<P>>, missing: seq<Event<P>>, k: nat)
    requires WellFormed(remote) && missing == Missing(log, remote) && k < |missing|
    ensures exists i :: 0 <= i < |remote| && remote[i].id !in Ids(log + missing[..k])
  {
    var e := missing[k];
    MissingNoDup(log, remote);
    MissingComesFrom(log, remote, e);
    var i :| 0 <= i < |remote| && remote[i] == e;
    IdsAppend(log, missing[..k]);
    forall j | 0 <= j < k ensures Ids(missing[..k])[j] != e.id {
      assert Ids(missing)[j] != Ids(missing)[k];
    }
  }

  /** An identifier names one event on both nodes: one stored copy, or one up to the filled-in
      fields. */
  ghost predicate IdFixesEvent<P>(whole: bool, a: seq<Event<P>>, b: seq<Event<P>>) {
    forall i, j :: 0 <= i < |a| && 0 <= j < |b| && a[i].id == b[j].id ==> Copy(whole, a[i]) == Copy(whole, b[j])
  }

  lemma {:induction false} MissingComesFrom<P>(log: seq<Event<P>>, events: seq<Event<P>>, e: Event<P>)
    ensures e in Missing(log, events) <==> e in events && e.id !in Ids(log)
    decreases |events|
  {
    if events != [] {
      var n := |events| - 1;
      MissingComesFrom(log, events[..n], e);
      assert events == events[..n] + [events[n]];
    }
  }

  lemma CopyMember<P>(whole: bool, log: seq<Event<P>>, c: Event<P>)
    ensures c in Copies(whole, log) <==> exists i :: 0 <= i < |log| && Copy(whole, log[i]) == c
  {
    if i :| 0 <= i < |log| && Copy(whole, log[i]) == c { assert Copies(whole, log)[i] == c; }
    if c in Copies(whole, log) {
      var i :| 0 <= i < |Copies(whole, log)| && Copies(whole, log)[i] == c;
      assert Copy(whole, log[i]) == c;
    }
  }

  /** The events a node holds after merging `b` into `a`. */
  lemma MergedCopies<P>(whole: bool, a: seq<Event<P>>, b: seq<Event<P>>, c: Event<P>)
    requires IdFixesEvent(whole, a, b)
    ensures c in Copies(whole, a + Missing(a, b)) <==> c in Copies(whole, a) || c in Copies(whole, b)
  {
    var m := a + Missing(a, b);
    CopyMember(whole, a, c);
    CopyMember(whole, b, c);
    CopyMember(whole, m, c);
    if i :| 0 <= i < |a| && Copy(whole, a[i]) == c { assert m[i] == a[i]; }
    if j :| 0 <= j < |b| && Copy(whole, b[j]) == c {
      MissingComesFrom(a, b, b[j]);
      IdsMember(a, b[j].id);
      if b[j].id in Ids(a) {
        var i :| 0 <= i < |a| && a[i].id == b[j].id;
        assert m[i] == a[i];
      } else {
        assert b[j] in Missing(a, b);
        var t :| 0 <= t < |Missing(a, b)| && Missing(a, b)[t] == b[j];
        assert m[|a| + t] == b[j];
      }
    }
    if t :| 0 <= t < |m| && Copy(whole, m[t]) == c {
      if t < |a| {
        assert Copy(whole, a[t]) == c;
      } else {
        assert m[t] in Missing(a, b);
        MissingComesFrom(a, b, m[t]);
        var j :| 0 <= j < |b| && b[j] == m[t];
        assert Copy(whole, b[j]) == c;
      }
    }
  }

  lemma FixesMerged<P>(whole: bool, a: seq<Event<P>>, b: seq<Event<P>>)
    requires IdFixesEvent(whole, a, b) && NoDup(Ids(b))
    ensures IdFixesEvent(whole, b, a + Missing(a, b))
  {
    var m := a + Missing(a, b);
    forall i, j | 0 <= i < |b| && 0 <= j < |m| && b[i].id == m[j].id ensures Copy(whole, b[i]) == Copy(whole, m[j]) {
      if j >= |a| {
        assert m[j] in Missing(a, b);
        MissingComesFrom(a, b, m[j]);
        var k :| 0 <= k < |b| && b[k] == m[j];
        SameIdSameIndex(b, i, k);
      }
    }
  }

  /** Two nodes, whatever runs they came from, that merge each other's history are then in
      the same state, whenever both merges go through and the reducer converges at all; and so
      they are when the second merges what the first has after its merge. The reducer may read
      timestamps and hashes where an identifier names one stored copy. */
  lemma MutualMergeConverges<S(!new), P(!new)>(
    cfg: Config<S, P>, whole: bool, a: EngineState<S, P>, b: EngineState<S, P>, clockA: nat -> int, clockB: nat -> int)
    requires (whole || Timeless(cfg)) && Converges(cfg) && Inv(a) && Inv(b) && Folded(cfg, a) && Folded(cfg, b)
    requires IdFixesEvent(whole, a.log, b.log)
    ensures var x := MergeAll(cfg, a, b.log, clockA);
            && (var y := MergeAll(cfg, b, a.log, clockB); x.ok && y.ok ==> x.engine.current == y.engine.current)
            && (var y := MergeAll(cfg, b, x.engine.log, clockB); x.ok && y.ok ==> x.engine.current == y.engine.current)
  {
    var x := MergeAll(cfg, a, b.log, clockA);
    InvIsWellFormed(b);
    MergeGoesThrough(cfg, a, b.log, clockA);
    if x.ok {
      MergedLog(cfg, a, Missing(a.log, b.log), x);
      FixesMerged(whole, a.log, b.log);
      FixesBack(whole, a.log, b.log);
      BothMerged(cfg, whole, x.engine, a, b, a.log, clockB);
      BothMerged(cfg, whole, x.engine, a, b, x.engine.log, clockB);
    }
  }

  lemma FixesBack<P>(whole: bool, a: seq<Event<P>>, b: seq<Event<P>>)
    requires IdFixesEvent(whole, a, b)
    ensures IdFixesEvent(whole, b, a)
  {
  }

  /** `x` is `a` after merging `b`; `b` merges either of the two. */
  lemma BothMerged<S(!new), P(!new)>(
    cfg: Config<S, P>, whole: bool, x: EngineState<S, P>, a: EngineState<S, P>, b: EngineState<S, P>,
    remote: seq<Event<P>>, clock: nat -> int)
    requires (whole || Timeless(cfg)) && Converges(cfg) &&
      Inv(a) && Inv(b) && Folded(cfg, b) && Inv(x) && Folded(cfg, x)
    requires x.log == a.log + Missing(a.log, b.log) && IdFixesEvent(whole, a.log, b.log)
    requires (remote == a.log || remote == x.log) && IdFixesEvent(whole, b.log, remote)
    ensures var y := MergeAll(cfg, b, remote, clock); y.ok ==> x.current == y.engine.current
  {
    hide Inv, Folded, Timeless, Converges;
    InvIsWellFormed(a);
    InvIsWellFormed(x);
    var y := MergeAll(cfg, b, remote, clock);
    MergeGoesThrough(cfg, b, remote, clock);
    if y.ok {
      MergedLog(cfg, b, Missing(b.log, remote), y);
      forall c ensures c in Copies(whole, x.log) <==> c in Copies(whole, y.engine.log) {
        MergedCopies(whole, a.log, b.log, c);
        MergedCopies(whole, b.log, remote, c);
      }
      SameEventsSameState(cfg, whole, x, y.engine);
    }
  }
}
