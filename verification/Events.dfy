/** Events, the append-only store and the validator with its depth-first cycle search. */
module Events {
  import opened Orders
  import opened Graphs

  /** `payload` stands for the payload and everything else the runtime only carries along
      (capability, principal, reducer target, metadata, signature). */
  datatype Event<P> = Event(
    id: string,
    kind: string,
    payload: P,
    parentEventId: Option<string>,
    parentEventIds: seq<string>,
    causality: seq<string>,
    timestamp: Option<int>,
    hash: Option<string>)

  /** First occurrences only, in order: how a JavaScript `Set` lists what was added. */
  function Dedup(s: seq<string>): seq<string> {
    if s == [] then [] else
      var r := Dedup(s[..|s| - 1]);
      if s[|s| - 1] in r then r else r + [s[|s| - 1]]
  }

  lemma {:induction false} DedupKeeps(s: seq<string>)
    ensures NoDup(Dedup(s))
    ensures forall x :: x in Dedup(s) <==> x in s
  {
    if s != [] {
      DedupKeeps(s[..|s| - 1]);
      assert s == s[..|s| - 1] + [s[|s| - 1]];
    }
  }

  /** The distinct elements come in the order in which they are first mentioned. */
  ghost predicate MentionedFirst(s: seq<string>, x: string, y: string) {
    exists p :: 0 <= p < |s| && s[p] == x && y !in s[..p + 1]
  }

  lemma {:induction false} DedupOrder(s: seq<string>, i: nat, j: nat)
    requires i < j < |Dedup(s)|
    ensures MentionedFirst(s, Dedup(s)[i], Dedup(s)[j])
  {
    var n := |s| - 1;
    var r := Dedup(s[..n]);
    DedupKeeps(s[..n]);
    if j < |r| {
      DedupOrder(s[..n], i, j);
      var p :| 0 <= p < n && s[..n][p] == r[i] && r[j] !in s[..n][..p + 1];
      assert s[..n][..p + 1] == s[..p + 1];
    } else {
      assert r[i] in r;
      var p :| 0 <= p < n && s[..n][p] == r[i];
      assert s[n] !in s[..n] && forall x :: x in s[..p + 1] ==> x in s[..n];
    }
  }

  /** The parents that become graph edges, in the order the engine adds them. */
  function EdgeParents<P>(e: Event<P>): seq<string> {
    (if e.parentEventId.Some? && e.parentEventId.value != "" then [e.parentEventId.value] else []) + e.parentEventIds
  }

  /** Every causal reference: the edge parents and the `causality` list. */
  function References<P>(e: Event<P>): seq<string> {
    EdgeParents(e) + e.causality
  }

  /** The identifiers in the fields of an event, in the order of the fields. */
  lemma ReferencesExactly<P>(e: Event<P>, x: string)
    ensures x in EdgeParents(e) <==> (e.parentEventId == Some(x) && x != "") || x in e.parentEventIds
    ensures x in References(e) <==>
            (e.parentEventId == Some(x) && x != "") || x in e.parentEventIds || x in e.causality
    ensures References(e) ==
            (if e.parentEventId == None || e.parentEventId == Some("") then [] else [e.parentEventId.value])
            + e.parentEventIds + e.causality
  {
  }

  predicate ValidStructure<P>(e: Event<P>) {
    e.id != "" && e.kind != ""
  }

  /** What the store keeps: the event with its timestamp and hash filled in. */
  function Stored<P>(digest: Event<P> -> string, e: Event<P>, now: int): Event<P> {
    var stamped := e.(timestamp := if e.timestamp.Some? then e.timestamp else Some(now));
    stamped.(hash := if e.hash.Some? then e.hash else Some(HashOf(digest, stamped)))
  }

  /** The hash covers every field but the hash itself. */
  function HashOf<P>(digest: Event<P> -> string, e: Event<P>): string {
    digest(e.(hash := None))
  }

  /** With a digest that tells events apart, equal hashes mean equal events, the hash field
      aside: no field can be changed under a hash. */
  lemma HashCovers<P>(digest: Event<P> -> string, a: Event<P>, b: Event<P>)
    requires forall x, y :: digest(x) == digest(y) ==> x == y
    ensures HashOf(digest, a) == HashOf(digest, b) <==>
            (a.id, a.kind, a.payload, a.parentEventId, a.parentEventIds, a.causality, a.timestamp)
            == (b.id, b.kind, b.payload, b.parentEventId, b.parentEventIds, b.causality, b.timestamp)
  {
  }

  /** What is stored is the event with the time of arrival where it had none, and with the hash
      of that where it had none. */
  lemma StoredExactly<P>(digest: Event<P> -> string, e: Event<P>, now: int)
    ensures var s := Stored(digest, e, now);
            && (s.id, s.kind, s.payload, s.parentEventId, s.parentEventIds, s.causality)
               == (e.id, e.kind, e.payload, e.parentEventId, e.parentEventIds, e.causality)
            && s.timestamp == Some(if e.timestamp.Some? then e.timestamp.value else now)
            && s.hash == (if e.hash.Some? then e.hash else Some(HashOf(digest, s)))
  {
  }

  function Ids<P>(log: seq<Event<P>>): seq<string> {
    seq(|log|, i requires 0 <= i < |log| => log[i].id)
  }

  lemma IdsMember<P>(log: seq<Event<P>>, id: string)
    ensures id in Ids(log) <==> exists i :: 0 <= i < |log| && log[i].id == id
  {
    if i :| 0 <= i < |log| && log[i].id == id { assert Ids(log)[i] == id; }
    if id in Ids(log) {
      var i :| 0 <= i < |Ids(log)| && Ids(log)[i] == id;
      assert log[i].id == id;
    }
  }

  lemma IdsAppend<P>(a: seq<Event<P>>, b: seq<Event<P>>)
    ensures Ids(a + b) == Ids(a) + Ids(b)
  {
  }

  /** Every identifier in one of the three fields once, in the order of first mention. */
  method GetParentIds<P>(e: Event<P>) returns (r: seq<string>)
    ensures r == Dedup(References(e)) && NoDup(r)
    ensures forall x ::
      x in r <==> (e.parentEventId == Some(x) && x != "") || x in e.parentEventIds || x in e.causality
    ensures forall i, j :: 0 <= i < j < |r| ==>
      MentionedFirst((if e.parentEventId == None || e.parentEventId == Some("") then [] else [e.parentEventId.value])
                     + e.parentEventIds + e.causality, r[i], r[j])
  {
    var first := if e.parentEventId.Some? && e.parentEventId.value != "" then [e.parentEventId.value] else [];
    r := AddEach([], [], first);
    r := AddEach(r, [] + first, e.parentEventIds);
    r := AddEach(r, [] + first + e.parentEventIds, e.causality);
    assert [] + first + e.parentEventIds + e.causality == References(e);
    DedupKeeps(References(e));
    forall i, j | 0 <= i < j < |r| ensures MentionedFirst(References(e), r[i], r[j]) {
      DedupOrder(References(e), i, j);
    }
  }

  method AddEach(added: seq<string>, ghost before: seq<string>, items: seq<string>) returns (r: seq<string>)
    requires added == Dedup(before)
    ensures r == Dedup(before + items)
  {
    r := added;
    assert before + items[..0] == before;
    for i := 0 to |items|
      invariant r == Dedup(before + items[..i])
    {
      assert (before + items[..i + 1])[..|before| + i] == before + items[..i];
      if items[i] !in r {
        r := r + [items[i]];
      }
    }
    assert items[..|items|] == items;
  }

  class EventStore<P> {
    const digest: Event<P> -> string
    var events: map<string, Event<P>>
    var history: seq<string>

    ghost predicate Valid()
      reads this
    {
      && NoDup(history)
      && (forall id :: id in history <==> id in events)
      && (forall id :: id in events ==> events[id].id == id)
    }

    /** The abstract value: the stored events in order of arrival. */
    ghost function Log(): (log: seq<Event<P>>)
      requires Valid()
      reads this
      ensures Ids(log) == history
    {
      seq(|history|, i requires 0 <= i < |history| reads this requires Valid() => events[history[i]])
    }

    constructor (digest: Event<P> -> string)
      ensures Valid() && Log() == [] && this.digest == digest
    {
      this.digest := digest;
      events := map[];
      history := [];
    }

    method Append(e: Event<P>, now: int) returns (ok: bool)
      requires Valid()
      modifies this
      ensures Valid()
      ensures ok <==> e.id !in old(events)
      ensures ok ==> Log() == old(Log()) + [Stored(digest, e, now)]
      ensures !ok ==> Log() == old(Log())
    {
      if e.id in events {
        return false;
      }
      var stamped := e.(timestamp := if e.timestamp.Some? then e.timestamp else Some(now));
      var storedEvent := stamped.(hash := if e.hash.Some? then e.hash else Some(HashOf(digest, stamped)));
      ghost var before := Log();
      events := events[storedEvent.id := storedEvent];
      NoDupAppend(history, storedEvent.id);
      history := history + [storedEvent.id];
      assert Log() == before + [storedEvent];
      ok := true;
    }

    method Read(id: string) returns (r: Option<Event<P>>)
      requires Valid()
      ensures r.Some? <==> id in Ids(Log())
      ensures r.Some? ==> r.value in Log() && r.value.id == id
    {
      r := if id in events then Some(events[id]) else None;
      if id in events {
        var i :| 0 <= i < |history| && history[i] == id;
        assert Log()[i] == events[id];
      }
    }

    method ReadAll() returns (r: seq<Event<P>>)
      requires Valid()
      ensures r == Log()
    {
      r := [];
      for i := 0 to |history|
        invariant r == Log()[..i]
      {
        r := r + [events[history[i]]];
      }
    }

    predicate Has(id: string)
      reads this
    {
      id in events
    }

    method Clear()
      modifies this
      ensures Valid() && Log() == []
    {
      events := map[];
      history := [];
    }
  }

  // ------------------------------------------------------- the cycle search

  /** Child to parent: the direction the search follows. */
  ghost function ParentGraph<P>(events: map<string, Event<P>>): Graph {
    map id | id in events :: set p | p in References(events[id])
  }

  /** Following edges from `x` can go round for ever. */
  ghost predicate CycleFrom(g: Graph, x: string) {
    exists c :: (c == x || Reaches(g, x, c)) && Reaches(g, c, c)
  }

  ghost function Unstored(g: Graph): set<string> {
    Nodes(g) - g.Keys
  }

  /** Finished identifiers: none leads to a cycle, and none leads outside them except to
      identifiers that are not stored. */
  ghost predicate Cleared(g: Graph, visited: set<string>) {
    && visited <= g.Keys
    && (forall v :: v in visited ==> !CycleFrom(g, v))
    && (forall v :: v in visited ==> Succ(g, v) <= visited + Unstored(g))
  }

  lemma CycleAbove(g: Graph, x: string, p: string)
    requires p in Succ(g, x) && CycleFrom(g, p)
    ensures CycleFrom(g, x)
  {
    var c :| (c == p || Reaches(g, p, c)) && Reaches(g, c, c);
    ReachStep(g, x, p);
    if c != p { ReachTrans(g, x, p, c); }
  }

  lemma UnstoredHasNoCycle(g: Graph, x: string)
    requires x !in g
    ensures !CycleFrom(g, x)
  {
    if CycleFrom(g, x) {
      var c :| (c == x || Reaches(g, x, c)) && Reaches(g, c, c);
      var b := ReachFirst(g, x, c);
    }
  }

  /** All parents finished and the identifier itself not among them: it leads to no cycle. */
  lemma NoCycleHere(g: Graph, x: string, visited: set<string>)
    requires Cleared(g, visited) && x in g && x !in visited
    requires Succ(g, x) <= visited + Unstored(g)
    ensures Cleared(g, visited + {x})
  {
    forall c | (c == x || Reaches(g, x, c)) && Reaches(g, c, c) ensures false {
      var p := ReachFirst(g, x, c);
      if p !in g { UnstoredHasNoCycle(g, p); }
      if c == x && p != c {
        ClosedTraps(g, visited + Unstored(g), p, x);
      }
    }
  }

  /** The recursive search, its two JavaScript sets threaded through as values. */
  method Visit<P>(eventId: string, events: map<string, Event<P>>, visiting0: set<string>, visited0: set<string>)
    returns (cyclic: bool, visiting: set<string>, visited: set<string>)
    requires visiting0 !! visited0 && visiting0 <= events.Keys
    requires Cleared(ParentGraph(events), visited0)
    requires forall v :: v in visiting0 ==> Reaches(ParentGraph(events), v, eventId)
    ensures cyclic ==> CycleFrom(ParentGraph(events), eventId)
    ensures !cyclic ==> visiting == visiting0 && visited0 <= visited && visiting !! visited
    ensures !cyclic ==> Cleared(ParentGraph(events), visited)
    ensures !cyclic && eventId in events ==> eventId in visited
    decreases events.Keys - visiting0 - visited0
  {
    hide Reaches, CycleFrom, Cleared, Unstored, Succ;
    visiting, visited := visiting0, visited0;
    ghost var g := ParentGraph(events);
    if eventId in visiting {
      LoopIsCycle(g, eventId);
      return true, visiting, visited;
    }
    if eventId in visited {
      return false, visiting, visited;
    }
    if eventId !in events {
      return false, visiting, visited;
    }
    var event := events[eventId];
    visiting := visiting + {eventId};
    var parents := GetParentIds(event);
    DedupKeeps(References(event));
    assert Succ(g, eventId) == set p | p in References(event) by { SuccOfStored(events, eventId); }
    for i := 0 to |parents|
      invariant visiting == visiting0 + {eventId} && visited0 <= visited && visiting !! visited
      invariant Cleared(g, visited)
      invariant forall p :: p in parents[..i] && p in events ==> p in visited
    {
      assert parents[i] in Succ(g, eventId);
      ReachThrough(g, visiting0, eventId, parents[i]);
      assert events.Keys - visiting - visited < events.Keys - visiting0 - visited0 by {
        assert eventId in events.Keys - visiting0 - visited0;
      }
      cyclic, visiting, visited := Visit(parents[i], events, visiting, visited);
      if cyclic {
        CycleAbove(g, eventId, parents[i]);
        return true, visiting, visited;
      }
    }
    assert parents[..|parents|] == parents;
    ParentsDone(g, eventId, visited);
    NoCycleHere(g, eventId, visited);
    visiting := visiting - {eventId};
    visited := visited + {eventId};
    cyclic := false;
  }

  lemma SuccOfStored<P>(events: map<string, Event<P>>, id: string)
    requires id in events
    ensures Succ(ParentGraph(events), id) == set p | p in References(events[id])
  {
  }

  lemma ParentsDone(g: Graph, x: string, visited: set<string>)
    requires forall p :: p in Succ(g, x) && p in g ==> p in visited
    ensures Succ(g, x) <= visited + Unstored(g)
  {
    SuccNodes(g, x);
  }

  lemma LoopIsCycle(g: Graph, x: string)
    requires Reaches(g, x, x)
    ensures CycleFrom(g, x)
  {
  }

  lemma ReachThrough(g: Graph, chain: set<string>, x: string, p: string)
    requires p in Succ(g, x) && forall v :: v in chain ==> Reaches(g, v, x)
    ensures forall v :: v in chain + {x} ==> Reaches(g, v, p)
  {
    ReachStep(g, x, p);
    forall v | v in chain ensures Reaches(g, v, p) { ReachTrans(g, v, x, p); }
  }

  /** For any set of stored events, causally checked or not, the search answers exactly
      whether following parents from `eventId` reaches a cycle. */
  method HasCycles<P>(eventId: string, events: map<string, Event<P>>) returns (cyclic: bool)
    ensures cyclic <==> CycleFrom(ParentGraph(events), eventId)
  {
    ghost var g := ParentGraph(events);
    var visiting, visited;
    cyclic, visiting, visited := Visit(eventId, events, {}, {});
    if eventId !in events { UnstoredHasNoCycle(g, eventId); }
  }
}
