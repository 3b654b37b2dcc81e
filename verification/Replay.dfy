/** The replay engine and the verifier it runs: selection of a stretch of history by index or
    identifier, the fold over it, and the check of structure, hashes and parent order. */
module Replay {
  import opened Orders
  import opened Events
  import opened Execution
  import opened ExecutionRuns

  datatype Selection = Selection(
    fromEventId: Option<string>,
    toEventId: Option<string>,
    fromIndex: Option<int>,
    toIndex: Option<int>)

  datatype Complaint =
    | BadStructure(id: string)
    | MissingParent(parent: string, id: string)
    | HashMismatch(id: string)

  datatype Verification = Verification(valid: bool, mismatchedAt: Option<string>, errors: seq<Complaint>)

  datatype ReplayResult<S> = ReplayResult(
    state: S,
    eventsApplied: nat,
    lastEventId: Option<string>,
    verification: Verification)

  /** `Array.prototype.slice`: a negative position counts from the end. */
  function JsSlice<T>(s: seq<T>, from: int, to: int): seq<T> {
    var lo := if from < 0 then (if |s| + from < 0 then 0 else |s| + from) else if from < |s| then from else |s|;
    var hi := if to < 0 then (if |s| + to < 0 then 0 else |s| + to) else if to < |s| then to else |s|;
    if lo < hi then s[lo..hi] else []
  }

  /** `findIndex`: -1 when no event has the identifier. */
  function IndexOf<P>(log: seq<Event<P>>, id: string): int {
    if log == [] then -1
    else if log[0].id == id then 0
    else
      var k := IndexOf(log[1..], id);
      if k == -1 then -1 else k + 1
  }

  lemma {:induction false} IndexOfFirst<P>(log: seq<Event<P>>, id: string)
    ensures var k := IndexOf(log, id);
            if k == -1 then forall i :: 0 <= i < |log| ==> log[i].id != id
            else 0 <= k < |log| && log[k].id == id && forall i :: 0 <= i < k ==> log[i].id != id
  {
    if log != [] && log[0].id != id {
      IndexOfFirst(log[1..], id);
      assert forall i :: 0 < i < |log| ==> log[i] == log[1..][i - 1];
    }
  }

  ghost predicate HashMatches<P>(digest: Event<P> -> string, e: Event<P>) {
    e.hash.Some? && e.hash.value != "" ==> e.hash.value == HashOf(digest, e)
  }

  ghost predicate FirstMismatch<P>(digest: Event<P> -> string, events: seq<Event<P>>, i: int, id: string) {
    && 0 <= i < |events| && events[i].id == id && !HashMatches(digest, events[i])
    && forall k :: 0 <= k < i ==> HashMatches(digest, events[k])
  }

  /** The first hash mismatch ends the check. Without one, the complaints are exactly the
      ill-formed events and the references that were not seen before, and the stretch is valid
      when there is nothing to complain about. */
  ghost predicate Reports<P>(digest: Event<P> -> string, events: seq<Event<P>>, v: Verification) {
    && (v.mismatchedAt.None? <==> forall i :: 0 <= i < |events| ==> HashMatches(digest, events[i]))
    && (v.mismatchedAt.Some? ==>
          && !v.valid && v.errors == [HashMismatch(v.mismatchedAt.value)]
          && exists i :: FirstMismatch(digest, events, i, v.mismatchedAt.value))
    && (v.mismatchedAt.None? ==> Reported(events, |events|, v.errors))
    && (v.mismatchedAt.None? ==>
          (v.valid <==> ParentsFirst(events) && forall i :: 0 <= i < |events| ==> ValidStructure(events[i])))
  }

  /** What `ReplayVerifier` says about a stretch of history. */
  method VerifyEvents<P>(digest: Event<P> -> string, events: seq<Event<P>>) returns (v: Verification)
    ensures Reports(digest, events, v)
  {
    var errors: seq<Complaint> := [];
    var seen: set<string> := {};
    for i := 0 to |events|
      invariant seen == Elems(Ids(events[..i]))
      invariant forall k :: 0 <= k < i ==> HashMatches(digest, events[k])
      invariant Reported(events, i, errors)
    {
      var event := events[i];
      ghost var earlier := errors;
      if !ValidStructure(event) {
        errors := errors + [BadStructure(event.id)];
      }
      var expectedHash := HashOf(digest, event);
      if event.hash.Some? && event.hash.value != "" && event.hash.value != expectedHash {
        assert FirstMismatch(digest, events, i, event.id);
        return Verification(false, Some(event.id), [HashMismatch(event.id)]);
      }
      var missing := MissingParents(event, seen);
      ReportedNext(events, i, earlier, missing);
      errors := errors + missing;
      seen := seen + {event.id};
      assert events[..i + 1] == events[..i] + [event];
      IdsAppend(events[..i], [event]);
      assert Ids([event]) == [event.id];
    }
    ReportedAll(events, errors);
    v := Verification(|errors| == 0, None, errors);
  }

  /** The inner loop: one complaint per reference that has not been seen. */
  method MissingParents<P>(event: Event<P>, seen: set<string>) returns (missing: seq<Complaint>)
    ensures forall c :: c in missing <==>
      c.MissingParent? && c.id == event.id && c.parent in References(event) && c.parent !in seen
  {
    missing := [];
    var parentIds := GetParentIds(event);
    DedupKeeps(References(event));
    for j := 0 to |parentIds|
      invariant forall c :: c in missing <==>
        c.MissingParent? && c.id == event.id && c.parent in parentIds[..j] && c.parent !in seen
    {
      if parentIds[j] !in seen {
        missing := missing + [MissingParent(parentIds[j], event.id)];
      }
    }
    assert parentIds[..|parentIds|] == parentIds;
  }

  /** The complaints after the first `n` events. */
  ghost predicate Reported<P>(events: seq<Event<P>>, n: nat, errors: seq<Complaint>)
    requires n <= |events|
  {
    forall c :: c in errors <==> exists i :: 0 <= i < n && ComplaintAt(events, i, c)
  }

  ghost predicate ComplaintAt<P>(events: seq<Event<P>>, i: nat, c: Complaint)
    requires i < |events|
  {
    match c
    case BadStructure(id) => events[i].id == id && !ValidStructure(events[i])
    case MissingParent(p, id) => events[i].id == id && p in References(events[i]) && p !in Ids(events[..i])
    case HashMismatch(_) => false
  }

  lemma ReportedNext<P>(events: seq<Event<P>>, n: nat, errors: seq<Complaint>, missing: seq<Complaint>)
    requires n < |events| && Reported(events, n, errors)
    requires forall c :: c in missing <==>
      && c.MissingParent? && c.id == events[n].id
      && c.parent in References(events[n]) && c.parent !in Elems(Ids(events[..n]))
    ensures Reported(events, n + 1,
      (if ValidStructure(events[n]) then errors else errors + [BadStructure(events[n].id)]) + missing)
  {
    var head := if ValidStructure(events[n]) then [] else [BadStructure(events[n].id)];
    var now := (if ValidStructure(events[n]) then errors else errors + [BadStructure(events[n].id)]) + missing;
    forall c ensures c in now <==> exists i :: 0 <= i < n + 1 && ComplaintAt(events, i, c) {
      assert c in now <==> c in errors || c in head || c in missing;
      assert c in head || c in missing <==> ComplaintAt(events, n, c);
    }
  }

  lemma ReportedAll<P>(events: seq<Event<P>>, errors: seq<Complaint>)
    requires Reported(events, |events|, errors)
    ensures errors == [] <==> ParentsFirst(events) && forall i :: 0 <= i < |events| ==> ValidStructure(events[i])
  {
    if errors == [] {
      forall i | 0 <= i < |events| ensures ValidStructure(events[i]) {
        assert BadStructure(events[i].id) !in errors;
        assert !ComplaintAt(events, i, BadStructure(events[i].id));
      }
      forall i, p | 0 <= i < |events| && p in References(events[i]) ensures p in Ids(events[..i]) {
        assert MissingParent(p, events[i].id) !in errors;
        assert !ComplaintAt(events, i, MissingParent(p, events[i].id));
      }
    } else {
      assert errors[0] in errors;
      var i :| 0 <= i < |events| && ComplaintAt(events, i, errors[0]);
    }
  }

  ghost function Selected<P>(log: seq<Event<P>>, sel: Selection): seq<Event<P>> {
    var from := if sel.fromEventId.Some? && sel.fromEventId.value != "" && IndexOf(log, sel.fromEventId.value) != -1
      then IndexOf(log, sel.fromEventId.value)
      else if sel.fromIndex.Some? then sel.fromIndex.value else 0;
    var to := if sel.toEventId.Some? && sel.toEventId.value != "" && IndexOf(log, sel.toEventId.value) != -1
      then IndexOf(log, sel.toEventId.value)
      else if sel.toIndex.Some? then sel.toIndex.value else |log| - 1;
    JsSlice(log, from, to + 1)
  }

  class ReplayEngine<!S(==), !P(==)> {
    const config: Config<S, P>
    const eventStore: EventStore<P>

    constructor (config: Config<S, P>, eventStore: EventStore<P>)
      ensures this.config == config && this.eventStore == eventStore
    {
      this.config := config;
      this.eventStore := eventStore;
    }

    method SelectEvents(sel: Selection) returns (r: seq<Event<P>>)
      requires eventStore.Valid()
      ensures r == Selected(eventStore.Log(), sel)
    {
      var allEvents := eventStore.ReadAll();
      var startIndex := if sel.fromIndex.Some? then sel.fromIndex.value else 0;
      var endIndex := if sel.toIndex.Some? then sel.toIndex.value else |allEvents| - 1;
      if sel.fromEventId.Some? && sel.fromEventId.value != "" {
        var index := IndexOf(allEvents, sel.fromEventId.value);
        startIndex := if index == -1 then startIndex else index;
      }
      if sel.toEventId.Some? && sel.toEventId.value != "" {
        var index := IndexOf(allEvents, sel.toEventId.value);
        endIndex := if index == -1 then endIndex else index;
      }
      r := JsSlice(allEvents, startIndex, endIndex + 1);
    }

    /** `None` is a throw out of the reducer. */
    method Replay(sel: Selection) returns (r: Option<ReplayResult<S>>)
      requires eventStore.Valid()
      ensures var events := Selected(eventStore.Log(), sel);
        && (r.Some? <==> Fold(config, events).Some?)
        && (r.Some? ==>
          && Some(r.value.state) == Fold(config, events)
          && r.value.eventsApplied == |events|
          && r.value.lastEventId == (if events == [] then None else Some(events[|events| - 1].id))
          && Reports(config.digest, events, r.value.verification))
    {
      hide Selected, Reports;
      var events := SelectEvents(sel);
      var state := config.initial;
      var lastEventId := None;
      for i := 0 to |events|
        invariant Fold(config, events[..i]) == Some(state)
        invariant lastEventId == if i == 0 then None else Some(events[i - 1].id)
      {
        assert events[..i + 1][..i] == events[..i];
        var next := config.reducer(state, events[i]);
        if next.None? {
          FoldFails(config, events, i + 1);
          return None;
        }
        state := next.value;
        lastEventId := Some(events[i].id);
      }
      assert events[..|events|] == events;
      var verification := VerifyEvents(config.digest, events);
      r := Some(ReplayResult(state, |events|, lastEventId, verification));
    }

    method ReplayTo(eventId: string) returns (r: Option<ReplayResult<S>>)
      requires eventStore.Valid()
      ensures r.Some? <==> Fold(config, Upto(eventStore.Log(), Some(eventId))).Some?
      ensures r.Some? ==> var events := Upto(eventStore.Log(), Some(eventId));
        && Some(r.value.state) == Fold(config, events) && r.value.eventsApplied == |events|
        && Reports(config.digest, events, r.value.verification)
    {
      SelectionsAgree(eventStore.Log(), eventId);
      r := Replay(Selection(None, Some(eventId), None, None));
    }
  }

  /** The replay engine's `replayTo(id)` and the execution engine's `replay(id)` walk the same
      prefix, for every identifier: present, repeated, absent or empty. */
  lemma SelectionsAgree<P>(log: seq<Event<P>>, id: string)
    ensures Selected(log, Selection(None, Some(id), None, None)) == Upto(log, Some(id))
  {
    if id != "" {
      IndexOfFirst(log, id);
      var k := IndexOf(log, id);
      if k == -1 {
        UptoAll(log, id);
      } else {
        UptoStops(log, id, k);
      }
    }
  }

  /** What the selection means, on a history without repeated identifiers: two identifiers, or
      two positions, give the stretch between them, both ends included, and nothing when they
      are the wrong way round; an identifier that is there wins over an index. */
  lemma SelectedStretch<P>(log: seq<Event<P>>, i: nat, j: nat, other: Option<int>)
    requires NoDup(Ids(log)) && i < |log| && j < |log| && log[i].id != "" && log[j].id != ""
    ensures var stretch := if i <= j then log[i..j + 1] else [];
            && Selected(log, Selection(Some(log[i].id), Some(log[j].id), other, other)) == stretch
            && Selected(log, Selection(None, None, Some(i), Some(j))) == stretch
    ensures Selected(log, Selection(Some(log[i].id), None, other, None)) == log[i..]
    ensures Selected(log, Selection(None, Some(log[j].id), None, other)) == log[..j + 1]
  {
    hide IndexOf, NoDup;
    IndexAt(log, i);
    IndexAt(log, j);
    assert log[i..][..|log| - i] == log[i..];
  }

  lemma IndexAt<P>(log: seq<Event<P>>, i: nat)
    requires NoDup(Ids(log)) && i < |log|
    ensures IndexOf(log, log[i].id) == i
  {
    IndexOfFirst(log, log[i].id);
    SameIdSameIndex(log, IndexOf(log, log[i].id), i);
  }

  /** Positions outside the history: past the end selects nothing, a negative start counts from
      the end, and so does a negative end, one place off: -1 selects nothing at all, and -1 - n
      leaves out the last n. */
  lemma SelectedOutside<P>(log: seq<Event<P>>, n: int)
    requires n >= 0
    ensures Selected(log, Selection(None, None, None, None)) == log
    ensures Selected(log, Selection(None, None, Some(n), None)) == if n <= |log| then log[n..] else []
    ensures n > 0 ==>
      Selected(log, Selection(None, None, Some(-n), None)) == if n <= |log| then log[|log| - n..] else log
    ensures Selected(log, Selection(None, None, None, Some(-1 - n))) == if 0 < n <= |log| then log[..|log| - n] else []
  {
  }

  lemma {:induction false} PrefixParentsFirst<P>(log: seq<Event<P>>, k: nat)
    requires ParentsFirst(log) && k <= |log|
    ensures ParentsFirst(log[..k])
  {
    forall i, p | 0 <= i < k && p in References(log[..k][i]) ensures p in Ids(log[..k][..i]) {
      assert log[..k][..i] == log[..i];
    }
  }

  lemma TailIds<P>(log: seq<Event<P>>, k: nat, i: nat)
    requires k <= i <= |log|
    ensures Ids(log[..i]) == Ids(log[..k]) + Ids(log[k..][..i - k])
  {
    assert log[..i] == log[..k] + log[k..][..i - k];
    IdsAppend(log[..k], log[k..][..i - k]);
  }

  lemma TailApart<P>(log: seq<Event<P>>, k: nat, j: nat, p: string)
    requires NoDup(Ids(log)) && k + j <= |log| && p in Ids(log[k..][..j])
    ensures p !in Ids(log[..k])
  {
    var m :| 0 <= m < j && Ids(log[k..][..j])[m] == p;
    assert Ids(log)[k + m] == p;
    forall t | 0 <= t < k ensures Ids(log[..k])[t] != p {
      assert Ids(log)[t] != Ids(log)[k + m];
    }
  }

  /** In the part of a history from position `k` on, a reference is not seen before the event
      that makes it exactly when it leads before `k`. */
  lemma SeenInSuffix<P>(log: seq<Event<P>>, k: nat, j: nat, p: string)
    requires WellFormed(log) && k + j < |log| && p in References(log[k + j])
    ensures p in Ids(log[k..][..j]) <==> p !in Ids(log[..k])
  {
    hide References;
    TailIds(log, k, k + j);
    assert p in Ids(log[..k + j]);
    if p in Ids(log[k..][..j]) { TailApart(log, k, j, p); }
  }

  /** What a run's history says when a replay of its part from `k` on is verified. */
  lemma SuffixComplaints<P>(log: seq<Event<P>>, k: nat, errors: seq<Complaint>)
    requires WellFormed(log) && k <= |log| && Reported(log[k..], |log| - k, errors)
    ensures forall c :: c in errors <==> c.MissingParent? && RefersBefore(log, k, c.parent, c.id)
  {
    hide References;
    var tail := log[k..];
    assert forall j :: 0 <= j < |tail| ==> tail[j] == log[k + j];
    forall c ensures c in errors <==> c.MissingParent? && RefersBefore(log, k, c.parent, c.id) {
      if j :| 0 <= j < |tail| && ComplaintAt(tail, j, c) {
        assert ValidStructure(log[k + j]);
        SeenInSuffix(log, k, j, c.parent);
      }
      if c.MissingParent? && RefersBefore(log, k, c.parent, c.id) {
        var i :| k <= i < |log| && log[i].id == c.id && c.parent in References(log[i]) && c.parent in Ids(log[..k]);
        SeenInSuffix(log, k, i - k, c.parent);
        assert ComplaintAt(tail, i - k, c);
      }
    }
  }

  ghost predicate RefersBefore<P>(log: seq<Event<P>>, k: nat, p: string, id: string)
    requires k <= |log|
  {
    exists i :: k <= i < |log| && log[i].id == id && p in References(log[i]) && p in Ids(log[..k])
  }

  lemma UptoIsPrefix<P>(log: seq<Event<P>>, id: string) returns (n: nat)
    ensures n <= |log| && Upto(log, Some(id)) == log[..n]
  {
    n := |log|;
    assert log[..n] == log;
    if id != "" {
      IndexOfFirst(log, id);
      var k := IndexOf(log, id);
      if k == -1 {
        UptoAll(log, id);
      } else {
        UptoStops(log, id, k);
        n := k + 1;
      }
    }
  }

  /** What the replay engine reports on the history of any run. Up to any event, it never
      complains of a parent: the report is valid exactly when every hash there is matches. From
      position `k` on, if the hashes match, the complaints are exactly the references that lead
      before `k`. */
  lemma ReplayFindsParents<S, P>(cfg: Config<S, P>, ops: seq<Op<S, P>>, id: string, k: nat,
                                 v: Verification, w: Verification)
    requires k <= |Run(cfg, ops).log|
    requires Reports(cfg.digest, Selected(Run(cfg, ops).log, Selection(None, Some(id), None, None)), v)
    requires Reports(cfg.digest, Selected(Run(cfg, ops).log, Selection(None, None, Some(k), None)), w)
    ensures var log := Run(cfg, ops).log;
            && (v.valid <==> v.errors == []) && (v.valid <==> v.mismatchedAt.None?)
            && (v.mismatchedAt.None? <==> forall e :: e in Upto(log, Some(id)) ==> HashMatches(cfg.digest, e))
            && (w.valid <==> w.errors == [])
            && (w.mismatchedAt.None? ==>
                  forall c :: c in w.errors <==> c.MissingParent? && RefersBefore(log, k, c.parent, c.id))
  {
    var log := Run(cfg, ops).log;
    RunInvariant(cfg, ops);
    SelectedOutside(log, k);
    SelectionsAgree(log, id);
    var n := UptoIsPrefix(log, id);
    PrefixParentsFirst(log, n);
    ValidWithoutErrors(cfg.digest, log[..n], v);
    ValidWithoutErrors(cfg.digest, log[k..], w);
    if w.mismatchedAt.None? {
      SuffixComplaints(log, k, w.errors);
    }
  }

  lemma ValidWithoutErrors<P>(digest: Event<P> -> string, events: seq<Event<P>>, v: Verification)
    requires Reports(digest, events, v)
    ensures v.valid <==> v.errors == []
    ensures v.mismatchedAt.None? <==> forall e :: e in events ==> HashMatches(digest, e)
  {
    hide HashMatches;
    if v.mismatchedAt.None? {
      ReportedAll(events, v.errors);
    }
    assert (forall i :: 0 <= i < |events| ==> HashMatches(digest, events[i])) <==>
           forall e :: e in events ==> HashMatches(digest, e);
  }

  // ------------------------------------------------------- what the hashes are worth

  /** A stored copy passes exactly when the event came without a hash, with an empty one or with
      the right one. */
  lemma StoredPassesExactly<P>(digest: Event<P> -> string, e: Event<P>, now: int)
    ensures HashMatches(digest, Stored(digest, e, now)) <==>
            e.hash == None || e.hash == Some("")
            || e.hash == Some(HashOf(digest,
                 e.(timestamp := Some(if e.timestamp.Some? then e.timestamp.value else now))))
  {
    var s := Stored(digest, e, now);
    assert s.(hash := None) == e.(timestamp := s.timestamp, hash := None);
  }

  /** No call of the run brings in a hash that is not the right one. */
  ghost predicate HonestEvent<P>(digest: Event<P> -> string, e: Event<P>) {
    e.hash == None || e.hash == Some("") || (e.timestamp.Some? && e.hash == Some(HashOf(digest, e)))
  }

  ghost predicate HonestOp<S, P>(digest: Event<P> -> string, op: Op<S, P>) {
    match op
    case Emit(e, _) => HonestEvent(digest, e)
    case Reset => true
    case Import(_, history, _) => forall e :: e in history ==> HonestEvent(digest, e)
    case Merge(events, _) => forall e :: e in events ==> HonestEvent(digest, e)
  }

  ghost predicate AllMatch<P>(digest: Event<P> -> string, log: seq<Event<P>>) {
    forall e :: e in log ==> HashMatches(digest, e)
  }

  lemma EmitMatches<S, P>(cfg: Config<S, P>, st: EngineState<S, P>, e: Event<P>, now: int)
    requires AllMatch(cfg.digest, st.log) && HonestEvent(cfg.digest, e)
    ensures AllMatch(cfg.digest, EmitStep(cfg, st, e, now).0.log)
  {
    hide AddParents, ReferencesKnown, HashMatches;
    assert HashMatches(cfg.digest, Stored(cfg.digest, e, now)) by {
      StoredPassesExactly(cfg.digest, e, now);
      assert e.timestamp.Some? ==> e.(timestamp := Some(e.timestamp.value)) == e;
    }
  }

  lemma {:induction false} EmitAllMatches<S, P>(cfg: Config<S, P>, st: EngineState<S, P>, events: seq<Event<P>>,
                                                clock: nat -> int)
    requires AllMatch(cfg.digest, st.log) && forall e :: e in events ==> HonestEvent(cfg.digest, e)
    ensures AllMatch(cfg.digest, EmitAll(cfg, st, events, clock).0.log)
    decreases |events|
  {
    hide AllMatch, EmitStep, HonestEvent;
    if events != [] {
      var n := |events| - 1;
      EmitAllMatches(cfg, st, events[..n], clock);
      EmitMatches(cfg, EmitAll(cfg, st, events[..n], clock).0, events[n], clock(n));
    }
  }

  lemma {:induction false} MergeAllMatches<S, P>(cfg: Config<S, P>, st: EngineState<S, P>, events: seq<Event<P>>,
                                                 clock: nat -> int)
    requires AllMatch(cfg.digest, st.log) && forall e :: e in events ==> HonestEvent(cfg.digest, e)
    ensures AllMatch(cfg.digest, MergeAll(cfg, st, events, clock).engine.log)
    decreases |events|
  {
    hide AllMatch, EmitStep, HonestEvent;
    if events != [] {
      var n := |events| - 1;
      MergeAllMatches(cfg, st, events[..n], clock);
      EmitMatches(cfg, MergeAll(cfg, st, events[..n], clock).engine, events[n], clock(n));
    }
  }

  /** Over every run of emits, merges, imports and resets into which no wrong hash was brought,
      the verifier finds no mismatch; events that came without a hash never cause one. */
  lemma {:induction false} HonestRunsMatch<S, P>(cfg: Config<S, P>, ops: seq<Op<S, P>>)
    requires forall i :: 0 <= i < |ops| ==> HonestOp(cfg.digest, ops[i])
    ensures AllMatch(cfg.digest, Run(cfg, ops).log)
    ensures forall v :: Reports(cfg.digest, Run(cfg, ops).log, v) ==> v.valid && v.errors == []
    decreases |ops|
  {
    if ops != [] {
      var n := |ops| - 1;
      HonestRunsMatch(cfg, ops[..n]);
      assert HonestOp(cfg.digest, ops[n]);
      hide AllMatch, EmitStep, EmitAll, MergeAll, HonestEvent, Reports;
      assert AllMatch(cfg.digest, Fresh(cfg).log) by { EmptyMatches(cfg.digest); }
      match ops[n] {
        case Emit(e, now) => EmitMatches(cfg, Run(cfg, ops[..n]), e, now);
        case Reset =>
        case Import(_, history, clock) => EmitAllMatches(cfg, Fresh(cfg), history, clock);
        case Merge(events, clock) => MergeAllMatches(cfg, Run(cfg, ops[..n]), events, clock);
      }
    } else {
      EmptyMatches(cfg.digest);
    }
    HistoryIsValid(cfg, ops);
  }

  lemma EmptyMatches<P>(digest: Event<P> -> string)
    ensures AllMatch(digest, [])
  {
  }

  lemma HistoryIsValid<S, P>(cfg: Config<S, P>, ops: seq<Op<S, P>>)
    requires AllMatch(cfg.digest, Run(cfg, ops).log)
    ensures forall v :: Reports(cfg.digest, Run(cfg, ops).log, v) ==> v.valid && v.errors == []
  {
    var log := Run(cfg, ops).log;
    RunInvariant(cfg, ops);
    forall v | Reports(cfg.digest, log, v) ensures v.valid && v.errors == [] {
      ValidWithoutErrors(cfg.digest, log, v);
      hide HashMatches;
      assert v.mismatchedAt.None?;
    }
  }

  /** An event of a matching history is replaced by one that differs in any other field under
      the same hash: the verifier names it, and nothing else. */
  lemma TamperingShows<P>(digest: Event<P> -> string, log: seq<Event<P>>, i: nat, e: Event<P>, v: Verification)
    requires forall x, y :: digest(x) == digest(y) ==> x == y
    requires AllMatch(digest, log) && i < |log| && log[i].hash.Some? && log[i].hash.value != ""
    requires e.hash == log[i].hash && e != log[i]
    requires Reports(digest, log[i := e], v)
    ensures !v.valid && v.mismatchedAt == Some(e.id) && v.errors == [HashMismatch(e.id)]
  {
    var after := log[i := e];
    assert log[i] in log;
    HashCovers(digest, e, log[i]);
    assert !HashMatches(digest, after[i]);
    hide HashOf;
    forall k | 0 <= k < |after| && k != i ensures HashMatches(digest, after[k]) {
      assert log[k] in log;
    }
    assert !HashMatches(digest, after[i]);
    var k :| FirstMismatch(digest, after, k, v.mismatchedAt.value);
    assert k == i;
  }
}
