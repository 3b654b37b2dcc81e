/** The deterministic topological sort of the ordering check. The loop works on counts and
    child lists built in arrival order; `Canonical` is the order it returns, written as a
    function of the set of arcs alone. */
module KahnSort {
  import opened Orders
  import opened Graphs
  import opened KahnFrontier

  datatype Event = Event(id: string, delta: int, parents: seq<string>)

  datatype Result =
    | Sorted(events: seq<Event>)
    | UnknownParent(event: string, parent: string)
    | CycleDetected

  function EventIds(events: seq<Event>): seq<string> {
    seq(|events|, i requires 0 <= i < |events| => events[i].id)
  }

  /** Parent-child pairs in arrival order, with their repetitions. */
  function ArcsOf(e: Event): seq<(string, string)> {
    seq(|e.parents|, i requires 0 <= i < |e.parents| => (e.parents[i], e.id))
  }

  function Arcs(events: seq<Event>): seq<(string, string)> {
    if events == [] then [] else Arcs(events[..|events| - 1]) + ArcsOf(events[|events| - 1])
  }

  ghost function Tails(arcs: seq<(string, string)>): set<string> {
    set a | a in arcs :: a.0
  }

  ghost function Heads(arcs: seq<(string, string)>, p: string): set<string> {
    set a | a in arcs && a.0 == p :: a.1
  }

  ghost function GraphOf(arcs: seq<(string, string)>): Graph {
    map p | p in Tails(arcs) :: Heads(arcs, p)
  }

  /** The child list `children[parent]`. */
  function ChildrenOf(arcs: seq<(string, string)>, parent: string): seq<string> {
    if arcs == [] then []
    else
      var last := arcs[|arcs| - 1];
      ChildrenOf(arcs[..|arcs| - 1], parent) + if last.0 == parent then [last.1] else []
  }

  /** The arcs into `child` from parents that are not done. */
  ghost function Open(arcs: seq<(string, string)>, child: string, done: set<string>): nat {
    if arcs == [] then 0
    else
      var last := arcs[|arcs| - 1];
      Open(arcs[..|arcs| - 1], child, done) + if last.1 == child && last.0 !in done then 1 else 0
  }

  lemma {:induction false} OpenZero(arcs: seq<(string, string)>, child: string, done: set<string>)
    ensures Open(arcs, child, done) == 0 <==> forall a :: a in arcs && a.1 == child ==> a.0 in done
  {
    if arcs != [] {
      var init, last := arcs[..|arcs| - 1], arcs[|arcs| - 1];
      OpenZero(init, child, done);
      assert arcs == init + [last];
      assert forall a :: a in arcs <==> a in init || a == last;
    }
  }

  lemma {:induction false} OpenDrop(arcs: seq<(string, string)>, child: string, done: set<string>, parent: string)
    requires parent !in done
    ensures Open(arcs, child, done) == Open(arcs, child, done + {parent}) + multiset(ChildrenOf(arcs, parent))[child]
  {
    if arcs != [] {
      OpenDrop(arcs[..|arcs| - 1], child, done, parent);
    }
  }

  lemma {:induction false} ChildrenMembers(arcs: seq<(string, string)>, parent: string, child: string)
    ensures child in ChildrenOf(arcs, parent) <==> (parent, child) in arcs
  {
    if arcs != [] {
      var init, last := arcs[..|arcs| - 1], arcs[|arcs| - 1];
      ChildrenMembers(init, parent, child);
      assert arcs == init + [last];
    }
  }

  lemma GraphArcs(arcs: seq<(string, string)>, p: string, c: string)
    ensures c in Succ(GraphOf(arcs), p) <==> (p, c) in arcs
    ensures p in Pred(GraphOf(arcs), c) <==> (p, c) in arcs
  {
    if (p, c) in arcs { assert (p, c).0 == p; }
  }

  lemma {:induction false} ArcsMembers(events: seq<Event>, p: string, c: string)
    ensures (p, c) in Arcs(events) <==> exists i :: 0 <= i < |events| && events[i].id == c && p in events[i].parents
  {
    if events != [] {
      var n := |events| - 1;
      ArcsMembers(events[..n], p, c);
      if (p, c) in ArcsOf(events[n]) {
        assert events[n].id == c && p in events[n].parents;
      }
      if events[n].id == c && p in events[n].parents {
        var k :| 0 <= k < |events[n].parents| && events[n].parents[k] == p;
        assert ArcsOf(events[n])[k] == (p, c);
      }
      assert forall i :: 0 <= i < n ==> events[..n][i] == events[i];
    }
  }

  // ------------------------------------------------------- the canonical order

  ghost function SortedIds(s: set<string>): seq<string> {
    SortedSet(s, StrLe)
  }

  lemma IdsSorted(listed: seq<string>, s: set<string>)
    requires NoDup(listed) && Elems(listed) == s
    ensures SortBy(listed, StrLe) == SortedIds(s)
  {
    StrLeOrder();
    SortedListing(listed, s, StrLe);
  }

  /** The children of `current` whose parents are then all done. */
  ghost function Ready(g: Graph, done: seq<string>, current: string): set<string> {
    set c | c in Succ(g, current) && Pred(g, c) <= Elems(done) + {current}
  }

  ghost function KahnLoop(g: Graph, all: set<string>, done: seq<string>, queue: seq<string>): seq<string>
    requires Nodes(g) <= all && Frontier(g, all, done, queue)
    decreases all - Elems(done)
  {
    if queue == [] then done
    else
      FrontHeadNew(g, all, done, queue);
      assert forall x :: x in SortedIds(Ready(g, done, queue[0])) <==> x in Elems(SortedIds(Ready(g, done, queue[0])));
      FrontierStep(g, all, done, queue, SortedIds(Ready(g, done, queue[0])));
      KahnLoop(g, all, done + [queue[0]], queue[1..] + SortedIds(Ready(g, done, queue[0])))
  }

  ghost function Sources(g: Graph, all: set<string>): set<string> {
    set x | x in all && Pred(g, x) == {}
  }

  lemma SourcesFrontier(g: Graph, all: set<string>)
    ensures Frontier(g, all, [], SortedIds(Sources(g, all)))
  {
    var q := SortedIds(Sources(g, all));
    assert [] + q == q;
    forall x ensures x in q <==> x in all && Pred(g, x) <= Elems([]) {
      assert x in q <==> x in Elems(q);
    }
  }

  /** Closed under arcs: every parent is an event. */
  ghost predicate ParentsKnown(events: seq<Event>) {
    forall i, p :: 0 <= i < |events| && p in events[i].parents ==> p in EventIds(events)
  }

  lemma KnownNodes(events: seq<Event>)
    requires ParentsKnown(events)
    ensures Nodes(GraphOf(Arcs(events))) <= Elems(EventIds(events))
  {
    var g := GraphOf(Arcs(events));
    forall x | x in Nodes(g) ensures x in Elems(EventIds(events)) {
      if x in g && g[x] != {} {
        var c :| c in g[x];
        GraphArcs(Arcs(events), x, c);
        ArcsMembers(events, x, c);
      } else {
        var p :| p in g && x in g[p];
        GraphArcs(Arcs(events), p, x);
        ArcsMembers(events, p, x);
        var i :| 0 <= i < |events| && events[i].id == x;
        assert EventIds(events)[i] == x;
      }
    }
  }

  ghost function CanonicalIds(events: seq<Event>): seq<string>
    requires ParentsKnown(events)
  {
    var g, all := GraphOf(Arcs(events)), Elems(EventIds(events));
    KnownNodes(events);
    SourcesFrontier(g, all);
    KahnLoop(g, all, [], SortedIds(Sources(g, all)))
  }

  /** The canonical order does not see the order of arrival. */
  lemma CanonicalIgnoresArrival(a: seq<Event>, b: seq<Event>)
    requires multiset(a) == multiset(b)
    ensures ParentsKnown(a) <==> ParentsKnown(b)
    ensures GraphOf(Arcs(a)) == GraphOf(Arcs(b)) && Elems(EventIds(a)) == Elems(EventIds(b))
    ensures ParentsKnown(a) ==> CanonicalIds(a) == CanonicalIds(b)
  {
    SameIdsAndArcs(a, b);
    SameIdsAndArcs(b, a);
    assert forall x :: x in Arcs(a) <==> x in Arcs(b);
    assert Tails(Arcs(a)) == Tails(Arcs(b));
    assert forall p :: Heads(Arcs(a), p) == Heads(Arcs(b), p);
    assert forall x :: x in EventIds(a) <==> x in EventIds(b);
  }

  lemma SameIdsAndArcs(a: seq<Event>, b: seq<Event>)
    requires multiset(a) == multiset(b)
    ensures forall x :: x in Arcs(a) ==> x in Arcs(b)
    ensures forall x :: x in EventIds(a) ==> x in EventIds(b)
    ensures ParentsKnown(b) ==> ParentsKnown(a)
  {
    forall i | 0 <= i < |a| ensures exists j :: 0 <= j < |b| && b[j] == a[i] {
      SameMembers(a, b, a[i]);
    }
    forall x | x in Arcs(a) ensures x in Arcs(b) {
      ArcsMembers(a, x.0, x.1);
      ArcsMembers(b, x.0, x.1);
      var i :| 0 <= i < |a| && a[i].id == x.1 && x.0 in a[i].parents;
      var j :| 0 <= j < |b| && b[j] == a[i];
      assert b[j].id == x.1;
    }
    forall x | x in EventIds(a) ensures x in EventIds(b) {
      var i :| 0 <= i < |EventIds(a)| && EventIds(a)[i] == x;
      var j :| 0 <= j < |b| && b[j] == a[i];
      assert EventIds(b)[j] == x;
    }
    if ParentsKnown(b) {
      forall i, p | 0 <= i < |a| && p in a[i].parents ensures p in EventIds(a) {
        var j :| 0 <= j < |b| && b[j] == a[i];
        assert p in EventIds(b);
        var k :| 0 <= k < |b| && EventIds(b)[k] == p;
        SameMembers(a, b, b[k]);
        var m :| 0 <= m < |a| && a[m] == b[k];
        assert EventIds(a)[m] == p;
      }
    }
  }

  // ------------------------------------------------------- the loop

  /** Reading and appending to a `defaultdict(list)`. */
  function Kids(children: map<string, seq<string>>, p: string): seq<string> {
    if p in children then children[p] else []
  }

  function Push(children: map<string, seq<string>>, p: string, c: string): map<string, seq<string>> {
    children[p := Kids(children, p) + [c]]
  }

  /** The dictionaries built before the loop: counts and child lists over the same arcs. */
  ghost predicate Built(arcs: seq<(string, string)>, all: set<string>, inDegree: map<string, int>,
                        children: map<string, seq<string>>)
  {
    && inDegree.Keys == all
    && (forall c :: c in all ==> inDegree[c] == Open(arcs, c, {}))
    && (forall p :: Kids(children, p) == ChildrenOf(arcs, p))
  }

  lemma OpenSnoc(arcs: seq<(string, string)>, p: string, c: string, child: string, done: set<string>)
    ensures Open(arcs + [(p, c)], child, done) == Open(arcs, child, done) + if c == child && p !in done then 1 else 0
  {
    var after := arcs + [(p, c)];
    assert after[..|after| - 1] == arcs;
  }

  lemma ChildrenSnoc(arcs: seq<(string, string)>, p: string, c: string, parent: string)
    ensures ChildrenOf(arcs + [(p, c)], parent) == ChildrenOf(arcs, parent) + if p == parent then [c] else []
  {
    var after := arcs + [(p, c)];
    assert after[..|after| - 1] == arcs;
  }

  lemma BuiltNext(arcs: seq<(string, string)>, all: set<string>, inDegree: map<string, int>,
                  children: map<string, seq<string>>, p: string, c: string)
    requires Built(arcs, all, inDegree, children) && c in all
    ensures Built(arcs + [(p, c)], all, inDegree[c := inDegree[c] + 1], Push(children, p, c))
  {
    hide Open, ChildrenOf;
    forall child | child in all
      ensures inDegree[c := inDegree[c] + 1][child] == Open(arcs + [(p, c)], child, {})
    {
      OpenSnoc(arcs, p, c, child, {});
    }
    forall q ensures Kids(Push(children, p, c), q) == ChildrenOf(arcs + [(p, c)], q) {
      ChildrenSnoc(arcs, p, c, q);
      assert Kids(children, q) == ChildrenOf(arcs, q);
    }
  }

  /** The arcs after `j` of the event's parents. */
  ghost function PartArcs(arcs: seq<(string, string)>, e: Event, j: nat): seq<(string, string)>
    requires j <= |e.parents|
  {
    arcs + ArcsOf(e)[..j]
  }

  lemma PartArcsEnds(arcs: seq<(string, string)>, e: Event)
    ensures PartArcs(arcs, e, 0) == arcs
    ensures PartArcs(arcs, e, |e.parents|) == arcs + ArcsOf(e)
  {
    assert ArcsOf(e)[..0] == [] && ArcsOf(e)[..|e.parents|] == ArcsOf(e);
  }

  lemma BuiltNextParent(arcs: seq<(string, string)>, all: set<string>, e: Event, j: nat,
                        inDegree: map<string, int>, children: map<string, seq<string>>)
    requires j < |e.parents| && e.id in all && Built(PartArcs(arcs, e, j), all, inDegree, children)
    ensures var p := e.parents[j];
            Built(PartArcs(arcs, e, j + 1), all, inDegree[e.id := inDegree[e.id] + 1],
                  Push(children, p, e.id))
  {
    hide Push;
    BuiltNext(arcs + ArcsOf(e)[..j], all, inDegree, children, e.parents[j], e.id);
    hide Built;
    assert arcs + ArcsOf(e)[..j] + [(e.parents[j], e.id)] == arcs + ArcsOf(e)[..j + 1];
  }

  ghost predicate FirstMissing(e: Event, known: set<string>, j: int, p: string) {
    && 0 <= j < |e.parents| && e.parents[j] == p && p !in known
    && forall k :: 0 <= k < j ==> e.parents[k] in known
  }

  /** The j-th parent of the i-th event is no event of the batch. */
  ghost predicate UnknownAt(events: seq<Event>, i: int, j: int) {
    0 <= i < |events| && 0 <= j < |events[i].parents| && events[i].parents[j] !in EventIds(events)
  }

  /** The first unknown parent in order of arrival, and the event that names it. */
  ghost predicate FirstUnknown(events: seq<Event>, id: string, p: string) {
    exists i, j :: UnknownAt(events, i, j) && events[i].id == id && events[i].parents[j] == p
      && forall k, m :: UnknownAt(events, k, m) ==> i < k || (i == k && j <= m)
  }

  lemma FoundUnknown(events: seq<Event>, i: nat, p: string)
    requires i < |events| && exists j :: FirstMissing(events[i], Elems(EventIds(events)), j, p)
    requires forall k, q :: 0 <= k < i && q in events[k].parents ==> q in Elems(EventIds(events))
    ensures FirstUnknown(events, events[i].id, p) && !ParentsKnown(events)
  {
    var j :| FirstMissing(events[i], Elems(EventIds(events)), j, p);
    assert UnknownAt(events, i, j);
    forall k, m | UnknownAt(events, k, m) ensures i < k || (i == k && j <= m) {
      assert events[k].parents[m] in events[k].parents;
      assert events[k].parents[m] !in Elems(EventIds(events));
    }
  }

  /** First loop over the events; stops at the first unknown parent. */
  method Build(events: seq<Event>, index: map<string, Event>)
    returns (unknown: Option<(string, string)>, inDegree: map<string, int>, children: map<string, seq<string>>)
    requires index.Keys == Elems(EventIds(events))
    ensures unknown.None? <==> ParentsKnown(events)
    ensures unknown.Some? ==> FirstUnknown(events, unknown.value.0, unknown.value.1)
    ensures unknown.None? ==> Built(Arcs(events), index.Keys, inDegree, children)
  {
    hide Built, FirstUnknown, FirstMissing;
    inDegree := map id | id in index :: 0;
    children := map[];
    BuiltEmpty(index.Keys, inDegree, children);
    assert events[..0] == [];
    for i := 0 to |events|
      invariant Built(Arcs(events[..i]), index.Keys, inDegree, children)
      invariant forall k, p :: 0 <= k < i && p in events[k].parents ==> p in index
    {
      assert EventIds(events)[i] == events[i].id;
      assert events[..i + 1][..i] == events[..i];
      var missing;
      missing, inDegree, children := AddParents(Arcs(events[..i]), index, events[i], inDegree, children);
      if missing.Some? {
        FoundUnknown(events, i, missing.value);
        return Some((events[i].id, missing.value)), inDegree, children;
      }
    }
    assert events[..|events|] == events;
    unknown := None;
    forall i, p | 0 <= i < |events| && p in events[i].parents ensures p in EventIds(events) {
      assert p in Elems(EventIds(events));
    }
  }

  /** The parents of one event. */
  method AddParents(ghost arcs: seq<(string, string)>, index: map<string, Event>, e: Event,
                    inDegree0: map<string, int>, children0: map<string, seq<string>>)
    returns (missing: Option<string>, inDegree: map<string, int>, children: map<string, seq<string>>)
    requires e.id in index && Built(arcs, index.Keys, inDegree0, children0)
    ensures missing.Some? ==> exists j :: FirstMissing(e, index.Keys, j, missing.value)
    ensures missing.None? ==> forall p :: p in e.parents ==> p in index
    ensures missing.None? ==> Built(arcs + ArcsOf(e), index.Keys, inDegree, children)
  {
    hide Built, ArcsOf, Push, PartArcs;
    BuiltKeys(arcs, index.Keys, inDegree0, children0);
    PartArcsEnds(arcs, e);
    inDegree, children := inDegree0, children0;
    for j := 0 to |e.parents|
      invariant inDegree.Keys == index.Keys
      invariant Built(PartArcs(arcs, e, j), index.Keys, inDegree, children)
      invariant forall k :: 0 <= k < j ==> e.parents[k] in index
    {
      var parent := e.parents[j];
      if parent !in index {
        assert FirstMissing(e, index.Keys, j, parent);
        return Some(parent), inDegree, children;
      }
      BuiltNextParent(arcs, index.Keys, e, j, inDegree, children);
      inDegree := inDegree[e.id := inDegree[e.id] + 1];
      children := Push(children, parent, e.id);
    }
    missing := None;
  }

  lemma BuiltKeys(arcs: seq<(string, string)>, all: set<string>,
      inDegree: map<string, int>, children: map<string, seq<string>>)
    requires Built(arcs, all, inDegree, children)
    ensures inDegree.Keys == all
  {
  }

  lemma BuiltEmpty(all: set<string>, inDegree: map<string, int>, children: map<string, seq<string>>)
    requires children == map[] && inDegree == map id | id in all :: 0
    ensures Built(Arcs([]), all, inDegree, children)
  {
  }

  /** Between two pops: every count is the number of arcs from parents not yet output. */
  ghost predicate Counting(arcs: seq<(string, string)>,
      all: set<string>, inDegree: map<string, int>, done: set<string>) {
    inDegree.Keys == all && forall c :: c in all ==> inDegree[c] == Open(arcs, c, done)
  }

  /** Inner loop of the sort: one decrement per entry of the child list; the children that
      drop to zero, each of which does so at its last entry, are ready. */
  method Release(kids: seq<string>, degrees: map<string, int>) returns (inDegree: map<string, int>, ready: seq<string>)
    requires forall c :: c in kids ==> c in degrees
    requires forall c :: c in degrees ==> degrees[c] >= multiset(kids)[c]
    ensures inDegree.Keys == degrees.Keys
    ensures forall c :: c in degrees ==> inDegree[c] == degrees[c] - multiset(kids)[c]
    ensures NoDup(ready) && forall c :: c in ready <==> c in kids && inDegree[c] == 0
  {
    inDegree := degrees;
    ready := [];
    assert kids[..0] == [];
    for j := 0 to |kids|
      invariant inDegree.Keys == degrees.Keys
      invariant forall c :: c in degrees ==> inDegree[c] == degrees[c] - multiset(kids[..j])[c]
      invariant NoDup(ready)
      invariant forall c :: c in ready <==> c in kids[..j] && inDegree[c] == 0
    {
      var child := kids[j];
      CountNext(kids, j);
      inDegree := inDegree[child := inDegree[child] - 1];
      if inDegree[child] == 0 {
        ready := ready + [child];
      }
    }
    assert kids[..|kids|] == kids;
  }

  lemma EnoughLeft(arcs: seq<(string, string)>, all: set<string>, done: set<string>, current: string,
                   degrees: map<string, int>)
    requires Counting(arcs, all, degrees, done) && current !in done
    ensures degrees.Keys == all
    ensures forall c :: c in all ==> degrees[c] >= multiset(ChildrenOf(arcs, current))[c]
  {
    forall c | c in all ensures degrees[c] >= multiset(ChildrenOf(arcs, current))[c] {
      OpenDrop(arcs, c, done, current);
    }
  }

  lemma CountsAfter(arcs: seq<(string, string)>, all: set<string>, done: set<string>, current: string,
                    degrees: map<string, int>, now: map<string, int>)
    requires Counting(arcs, all, degrees, done) && current !in done && now.Keys == all
    requires forall c :: c in all ==> now[c] == degrees[c] - multiset(ChildrenOf(arcs, current))[c]
    ensures Counting(arcs, all, now, done + {current})
  {
    forall c | c in all ensures now[c] == Open(arcs, c, done + {current}) {
      OpenDrop(arcs, c, done, current);
    }
  }

  lemma CountNext(kids: seq<string>, j: nat)
    requires j < |kids|
    ensures multiset(kids[..j + 1]) == multiset(kids[..j]) + multiset{kids[j]}
    ensures multiset(kids)[kids[j]] >= multiset(kids[..j])[kids[j]] + 1
    ensures forall c :: c in kids[..j + 1] <==> c in kids[..j] || c == kids[j]
  {
    assert kids[..j + 1] == kids[..j] + [kids[j]];
    assert kids == kids[..j] + [kids[j]] + kids[j + 1..];
  }

  lemma ReadyIsReady(arcs: seq<(string, string)>, all: set<string>, done: seq<string>, current: string,
                     inDegree: map<string, int>, ready: seq<string>)
    requires Counting(arcs, all, inDegree, Elems(done) + {current}) && Elems(ChildrenOf(arcs, current)) <= all
    requires forall c :: c in ready <==> c in ChildrenOf(arcs, current) && inDegree[c] == 0
    ensures Elems(ready) == Ready(GraphOf(arcs), done, current)
  {
    var g := GraphOf(arcs);
    forall c ensures c in Elems(ready) <==> c in Ready(g, done, current) {
      ChildrenMembers(arcs, current, c);
      GraphArcs(arcs, current, c);
      OpenZero(arcs, c, Elems(done) + {current});
      AllDone(arcs, c, Elems(done) + {current});
      assert c in ChildrenOf(arcs, current) ==> c in Elems(ChildrenOf(arcs, current));
    }
  }

  lemma AllDone(arcs: seq<(string, string)>, c: string, done: set<string>)
    ensures Pred(GraphOf(arcs), c) <= done <==> forall a :: a in arcs && a.1 == c ==> a.0 in done
  {
    forall p ensures p in Pred(GraphOf(arcs), c) <==> (p, c) in arcs {
      GraphArcs(arcs, p, c);
    }
    if Pred(GraphOf(arcs), c) <= done {
      forall a | a in arcs && a.1 == c ensures a.0 in done {
        assert (a.0, c) in arcs;
      }
    }
  }

  /** `index = {e.id: e for e in events}`: the last event under an identifier stays. */
  method Index(events: seq<Event>) returns (index: map<string, Event>)
    ensures index.Keys == Elems(EventIds(events))
    ensures forall id :: id in index ==> index[id] in events && index[id].id == id
  {
    index := map[];
    for i := 0 to |events|
      invariant index.Keys == Elems(EventIds(events[..i]))
      invariant forall id :: id in index ==> index[id] in events && index[id].id == id
    {
      index := index[events[i].id := events[i]];
      assert EventIds(events[..i + 1]) == EventIds(events[..i]) + [events[i].id];
    }
    assert events[..|events|] == events;
  }

  /** The first queue: the identifiers no arc leads to, sorted. */
  method FirstQueue(ghost arcs: seq<(string, string)>, inDegree: map<string, int>) returns (queue: seq<string>)
    requires Counting(arcs, inDegree.Keys, inDegree, {})
    ensures queue == SortedIds(Sources(GraphOf(arcs), inDegree.Keys))
  {
    hide Counting, SortedIds, Open;
    var zero: seq<string> := [];
    var rest := inDegree.Keys;
    while rest != {}
      invariant rest <= inDegree.Keys && NoDup(zero)
      invariant forall x :: x in zero <==> x in inDegree && x !in rest && inDegree[x] == 0
      decreases rest
    {
      var id :| id in rest;
      rest := rest - {id};
      if inDegree[id] == 0 {
        zero := zero + [id];
      }
    }
    ZeroIsSource(arcs, inDegree, zero);
    IdsSorted(zero, Sources(GraphOf(arcs), inDegree.Keys));
    queue := SortBy(zero, StrLe);
  }

  lemma ZeroIsSource(arcs: seq<(string, string)>, inDegree: map<string, int>, zero: seq<string>)
    requires Counting(arcs, inDegree.Keys, inDegree, {})
    requires forall x :: x in zero <==> x in inDegree && inDegree[x] == 0
    ensures Elems(zero) == Sources(GraphOf(arcs), inDegree.Keys)
  {
    forall x | x in inDegree ensures inDegree[x] == 0 <==> Pred(GraphOf(arcs), x) == {} {
      OpenZero(arcs, x, {});
      AllDone(arcs, x, {});
    }
  }

  ghost predicate KidsMatch(arcs: seq<(string, string)>, children: map<string, seq<string>>) {
    forall p :: Kids(children, p) == ChildrenOf(arcs, p)
  }

  lemma BuiltCounts(arcs: seq<(string, string)>, all: set<string>, inDegree: map<string, int>,
                    children: map<string, seq<string>>)
    requires Built(arcs, all, inDegree, children)
    ensures inDegree.Keys == all && Counting(arcs, all, inDegree, {}) && KidsMatch(arcs, children)
  {
  }

  lemma KidsOf(arcs: seq<(string, string)>, all: set<string>, children: map<string, seq<string>>, p: string)
    requires KidsMatch(arcs, children) && Nodes(GraphOf(arcs)) <= all
    ensures Kids(children, p) == ChildrenOf(arcs, p)
    ensures Elems(ChildrenOf(arcs, p)) <= all && forall c :: c in ChildrenOf(arcs, p) ==> c in all
  {
    SuccNodes(GraphOf(arcs), p);
    forall c | c in ChildrenOf(arcs, p) ensures c in all {
      ChildrenMembers(arcs, p, c);
      GraphArcs(arcs, p, c);
    }
  }

  lemma FrontierMoves(g: Graph, all: set<string>, done: seq<string>, queue: seq<string>)
    requires Nodes(g) <= all && Frontier(g, all, done, queue) && queue != []
    ensures Frontier(g, all, done + [queue[0]], queue[1..] + SortedIds(Ready(g, done, queue[0])))
    ensures KahnLoop(g, all, done, queue)
         == KahnLoop(g, all, done + [queue[0]], queue[1..] + SortedIds(Ready(g, done, queue[0])))
    ensures Elems(done + [queue[0]]) == Elems(done) + {queue[0]}
    ensures queue[0] in all && queue[0] !in Elems(done)
  {
    hide Frontier, Nodes, Pred;
    var ready := SortedIds(Ready(g, done, queue[0]));
    FrontHeadNew(g, all, done, queue);
    assert forall x :: x in ready <==> x in Elems(ready);
    FrontierStep(g, all, done, queue, ready);
  }

  lemma {:induction false} DuplicatesShrink(s: seq<string>)
    ensures |Elems(s)| <= |s|
    ensures |Elems(s)| == |s| <==> NoDup(s)
  {
    if s != [] {
      var init, last := s[..|s| - 1], s[|s| - 1];
      DuplicatesShrink(init);
      assert s == init + [last];
      assert Elems(s) == Elems(init) + {last};
      if NoDup(init) && last !in init {
        NoDupAppend(init, last);
      } else if last in init {
        var i :| 0 <= i < |init| && init[i] == last;
        assert s[i] == s[|s| - 1];
      } else {
        var i, j :| 0 <= i < j < |init| && init[i] == init[j];
        assert s[i] == s[j];
      }
    }
  }

  /** The events whose identifiers are `ids`, in that order. */
  ghost predicate Lists(events: seq<Event>, ids: seq<string>, r: seq<Event>) {
    && EventIds(r) == ids
    && forall e :: e in r ==> e in events
  }

  /** Each outcome exactly when it is due, and the canonical order when there is one. */
  ghost predicate Answers(events: seq<Event>, r: Result) {
    && (r.UnknownParent? <==> !ParentsKnown(events))
    && (r.Sorted? <==> ParentsKnown(events) && NoDup(EventIds(events)) && Acyclic(GraphOf(Arcs(events))))
    && (r.Sorted? ==> Lists(events, CanonicalIds(events), r.events))
  }

  // ------------------------------------------------------- how ties are broken

  /** Where the last of the parents of `x` stands in `order`, or -1: what it waited for. */
  ghost function LastParent(g: Graph, order: seq<string>, x: string): int {
    if order == [] then -1
    else if order[|order| - 1] in Pred(g, x) then |order| - 1
    else LastParent(g, order[..|order| - 1], x)
  }

  /** By what was waited for, and among those that waited for the same by identifier. */
  ghost predicate Ranked(g: Graph, order: seq<string>) {
    forall i, j :: 0 <= i < j < |order| ==>
      var p, q := LastParent(g, order, order[i]), LastParent(g, order, order[j]);
      p < q || (p == q && StrLe(order[i], order[j]))
  }

  lemma {:induction false} LastParentAppend(g: Graph, order: seq<string>, more: seq<string>, x: string)
    requires forall y :: y in more ==> y !in Pred(g, x)
    ensures LastParent(g, order + more, x) == LastParent(g, order, x)
    decreases |more|
  {
    if more == [] {
      assert order + more == order;
    } else {
      var both := order + more;
      assert both[..|both| - 1] == order + more[..|more| - 1];
      LastParentAppend(g, order, more[..|more| - 1], x);
    }
  }

  lemma {:induction false} LastParentAt(g: Graph, order: seq<string>, x: string)
    ensures var p := LastParent(g, order, x);
            && -1 <= p < |order| && (p >= 0 ==> order[p] in Pred(g, x))
            && forall k :: p < k < |order| ==> order[k] !in Pred(g, x)
  {
    if order != [] && order[|order| - 1] !in Pred(g, x) {
      LastParentAt(g, order[..|order| - 1], x);
    }
  }

  lemma SortedIdsAscend(s: set<string>)
    ensures SortedBy(SortedIds(s), StrLe)
  {
    StrLeOrder();
    SortSorts(SetSeq(s), StrLe);
  }

  lemma SourcesRanked(g: Graph, all: set<string>)
    ensures Ranked(g, SortedIds(Sources(g, all)))
  {
    var q := SortedIds(Sources(g, all));
    SortedIdsAscend(Sources(g, all));
    forall i | 0 <= i < |q| ensures LastParent(g, q, q[i]) == -1 {
      LastParentAt(g, q, q[i]);
      assert q[i] in Elems(q);
    }
  }

  /** The children released by the head of the queue have waited longer than all before. */
  lemma RankedStep(g: Graph, all: set<string>, done: seq<string>, queue: seq<string>)
    requires Nodes(g) <= all && Frontier(g, all, done, queue) && queue != [] && Ranked(g, done + queue)
    ensures Ranked(g, (done + [queue[0]]) + (queue[1..] + SortedIds(Ready(g, done, queue[0]))))
  {
    var w, s := done + queue, SortedIds(Ready(g, done, queue[0]));
    assert (done + [queue[0]]) + (queue[1..] + s) == w + s;
    SortedIdsAscend(Ready(g, done, queue[0]));
    hide SortedIds, Ranked;
    forall x | x in w ensures LastParent(g, w + s, x) == LastParent(g, w, x) < |done| {
      PlacedRank(g, all, done, queue, s, x);
    }
    forall x | x in s ensures LastParent(g, w + s, x) == |done| {
      assert x in Elems(s);
      ReleasedRank(g, all, done, queue, s, x);
    }
    RankedJoin(g, w, s, |done|);
  }

  lemma PlacedRank(g: Graph, all: set<string>, done: seq<string>, queue: seq<string>, s: seq<string>, x: string)
    requires Nodes(g) <= all && Frontier(g, all, done, queue) && queue != [] && x in done + queue
    requires Elems(s) == Ready(g, done, queue[0])
    ensures LastParent(g, done + queue + s, x) == LastParent(g, done + queue, x) < |done|
  {
    assert Pred(g, x) <= Elems(done);
    FrontHeadNew(g, all, done, queue);
    forall y | y in s ensures y !in Pred(g, x) {
      assert y in Elems(s);
      assert queue[0] in Pred(g, y);
      assert y in Elems(done) ==> y in done + queue;
    }
    LastParentAppend(g, done + queue, s, x);
    forall y | y in queue ensures y !in Pred(g, x) {
      QueueApart(done, queue, y);
    }
    LastParentAppend(g, done, queue, x);
    LastParentAt(g, done, x);
  }

  lemma QueueApart(done: seq<string>, queue: seq<string>, y: string)
    requires NoDup(done + queue) && y in queue
    ensures y !in Elems(done)
  {
    var w := done + queue;
    var j :| 0 <= j < |queue| && queue[j] == y;
    forall i | 0 <= i < |done| ensures done[i] != y {
      assert w[i] != w[|done| + j];
    }
  }

  lemma ReleasedRank(g: Graph, all: set<string>, done: seq<string>, queue: seq<string>, s: seq<string>, x: string)
    requires Nodes(g) <= all && Frontier(g, all, done, queue) && queue != []
    requires Elems(s) == Ready(g, done, queue[0]) && x in Elems(s)
    ensures LastParent(g, done + queue + s, x) == |done|
  {
    var head, more := done + [queue[0]], queue[1..] + s;
    Regrouped(done, queue, s);
    hide NoDup, Frontier, LastParent, SortedIds, Pred, Nodes;
    FrontierApart(g, all, done, queue);
    forall y | y in more ensures y !in Elems(done) + {queue[0]} {
      if y in queue[1..] {
        TailApart(done, queue, y);
      } else {
        assert y in Elems(s);
        ReadyIsNew(g, all, done, queue, y);
      }
    }
    forall y | y in more ensures y !in Pred(g, x) {
    }
    LastParentAppend(g, head, more, x);
    HeadIsLast(g, done, queue[0], x);
  }

  lemma Regrouped(done: seq<string>, queue: seq<string>, s: seq<string>)
    requires queue != []
    ensures done + queue + s == (done + [queue[0]]) + (queue[1..] + s)
  {
  }

  lemma FrontierApart(g: Graph, all: set<string>, done: seq<string>, queue: seq<string>)
    requires Frontier(g, all, done, queue)
    ensures NoDup(done + queue)
  {
  }

  lemma HeadIsLast(g: Graph, done: seq<string>, head: string, x: string)
    requires x in Succ(g, head)
    ensures LastParent(g, done + [head], x) == |done|
  {
    assert head in Pred(g, x);
  }

  lemma ReadyIsNew(g: Graph, all: set<string>, done: seq<string>, queue: seq<string>, y: string)
    requires Frontier(g, all, done, queue) && queue != [] && y in Ready(g, done, queue[0])
    ensures y !in Elems(done) + {queue[0]}
  {
    FrontHeadNew(g, all, done, queue);
    assert queue[0] in Pred(g, y);
    assert !(Pred(g, y) <= Elems(done));
    assert y !in done + queue;
    assert forall z :: z in Elems(done) + {queue[0]} ==> z in done + queue;
  }

  lemma TailApart(done: seq<string>, queue: seq<string>, y: string)
    requires NoDup(done + queue) && queue != [] && y in queue[1..]
    ensures y !in Elems(done) && y != queue[0]
  {
    var w := done + queue;
    QueueApart(done, queue, y);
    var j :| 0 <= j < |queue[1..]| && queue[1..][j] == y;
    assert w[|done|] != w[|done| + 1 + j];
  }

  lemma RankedJoin(g: Graph, w: seq<string>, s: seq<string>, rank: int)
    requires Ranked(g, w) && SortedBy(s, StrLe)
    requires forall x :: x in w ==> LastParent(g, w + s, x) == LastParent(g, w, x) < rank
    requires forall x :: x in s ==> LastParent(g, w + s, x) == rank
    ensures Ranked(g, w + s)
  {
    hide StrLe;
    var both := w + s;
    forall i, j | 0 <= i < j < |both|
      ensures var p, q := LastParent(g, both, both[i]), LastParent(g, both, both[j]);
              p < q || (p == q && StrLe(both[i], both[j]))
    {
      assert if i < |w| then both[i] == w[i] && w[i] in w else both[i] == s[i - |w|] && s[i - |w|] in s;
      assert if j < |w| then both[j] == w[j] && w[j] in w else both[j] == s[j - |w|] && s[j - |w|] in s;
    }
  }

  lemma {:induction false} LoopRanked(g: Graph, all: set<string>, done: seq<string>, queue: seq<string>)
    requires Nodes(g) <= all && Frontier(g, all, done, queue) && Ranked(g, done + queue)
    ensures Ranked(g, KahnLoop(g, all, done, queue))
    decreases all - Elems(done)
  {
    hide Frontier, Ranked, Nodes, SortedIds, Ready;
    if queue == [] {
      assert done + queue == done;
    } else {
      FrontierMoves(g, all, done, queue);
      RankedStep(g, all, done, queue);
      LoopRanked(g, all, done + [queue[0]], queue[1..] + SortedIds(Ready(g, done, queue[0])));
    }
  }

  /** Where the last parent of `e` stands among the first `n` of `order`, or -1. */
  ghost function LastParentOf(order: seq<Event>, e: Event, n: nat): int
    requires n <= |order|
  {
    if n == 0 then -1
    else if order[n - 1].id in e.parents then n - 1
    else LastParentOf(order, e, n - 1)
  }

  /** Events without parents come first, in ascending order; then, parent by parent in the
      order of the output, the children that waited for no other parent after it, in ascending
      order too. */
  ghost predicate TiesById(order: seq<Event>) {
    forall i, j :: 0 <= i < j < |order| ==>
      var p, q := LastParentOf(order, order[i], |order|), LastParentOf(order, order[j], |order|);
      p < q || (p == q && (order[i].id <= order[j].id || exists k: nat :: FirstDifference(order[i].id, order[j].id, k)))
  }

  lemma {:induction false} SameLastParent(g: Graph, order: seq<Event>, e: Event, n: nat)
    requires n <= |order| && forall k :: 0 <= k < n ==> (order[k].id in e.parents <==> order[k].id in Pred(g, e.id))
    ensures LastParentOf(order, e, n) == LastParent(g, EventIds(order)[..n], e.id)
  {
    if n > 0 {
      SameLastParent(g, order, e, n - 1);
      assert EventIds(order)[..n][..n - 1] == EventIds(order)[..n - 1];
    }
  }

  lemma OwnParents(events: seq<Event>, e: Event, p: string)
    requires NoDup(EventIds(events)) && e in events
    ensures p in e.parents <==> p in Pred(GraphOf(Arcs(events)), e.id)
  {
    GraphArcs(Arcs(events), p, e.id);
    ArcsMembers(events, p, e.id);
    var j :| 0 <= j < |events| && events[j] == e;
    forall i | 0 <= i < |events| && events[i].id == e.id ensures events[i] == e {
      assert EventIds(events)[i] == EventIds(events)[j];
    }
  }

  /** The canonical order in terms of the events alone. */
  lemma CanonicalTies(events: seq<Event>, order: seq<Event>)
    requires ParentsKnown(events) && NoDup(EventIds(events)) && Lists(events, CanonicalIds(events), order)
    ensures TiesById(order)
  {
    var g, all := GraphOf(Arcs(events)), Elems(EventIds(events));
    var ids := EventIds(order);
    assert Ranked(g, ids) by {
      KnownNodes(events);
      SourcesFrontier(g, all);
      SourcesRanked(g, all);
      assert [] + SortedIds(Sources(g, all)) == SortedIds(Sources(g, all));
      LoopRanked(g, all, [], SortedIds(Sources(g, all)));
    }
    hide GraphOf, Arcs, CanonicalIds, Pred, ParentsKnown, StrLe;
    forall i | 0 <= i < |order| ensures LastParentOf(order, order[i], |order|) == LastParent(g, ids, ids[i]) {
      forall k | 0 <= k < |order|
        ensures order[k].id in order[i].parents <==> order[k].id in Pred(g, order[i].id)
      {
        OwnParents(events, order[i], order[k].id);
      }
      SameLastParent(g, order, order[i], |order|);
      assert ids[..|order|] == ids;
    }
    forall i, j | 0 <= i < j < |order| ensures
      var p, q := LastParentOf(order, order[i], |order|), LastParentOf(order, order[j], |order|);
      p < q || (p == q && (order[i].id <= order[j].id || exists k: nat :: FirstDifference(order[i].id, order[j].id, k)))
    {
      StrLeExactly(ids[i], ids[j]);
    }
  }

  /** Kahn's algorithm over arrival-ordered data. It succeeds exactly when identifiers are
      distinct, parents known and the parent relation acyclic, and then it lists the events in
      the canonical order: each once, every parent before its child, ties by identifier. */
  method TopologicalSort(events: seq<Event>) returns (r: Result)
    ensures Answers(events, r)
    ensures r.UnknownParent? ==> FirstUnknown(events, r.event, r.parent)
    ensures r.Sorted? ==> TiesById(r.events)
    ensures r.Sorted? ==> LinearExtension(GraphOf(Arcs(events)), EventIds(r.events), Elems(EventIds(events)))
  {
    hide Counting, SortedIds, Built, Frontier, Acyclic, GraphOf, Arcs, LinearExtension, NoDup, Nodes, ChildrenOf;
    var index := Index(events);
    var unknown, inDegree, children := Build(events, index);
    if unknown.Some? {
      return UnknownParent(unknown.value.0, unknown.value.1);
    }
    ghost var arcs := Arcs(events);
    ghost var g := GraphOf(arcs);
    ghost var all := index.Keys;
    KnownNodes(events);
    BuiltCounts(arcs, all, inDegree, children);
    var queue := FirstQueue(arcs, inDegree);
    SourcesFrontier(g, all);
    ghost var order: seq<string> := [];
    assert Elems(order) == {};
    var result: seq<Event> := [];
    while |queue| > 0
      invariant Counting(arcs, all, inDegree, Elems(order)) && Frontier(g, all, order, queue)
      invariant KahnLoop(g, all, order, queue) == CanonicalIds(events)
      invariant Lists(events, order, result)
      decreases all - Elems(order)
    {
      var currentId := queue[0];
      FrontierMoves(g, all, order, queue);
      ListsNext(events, order, result, index[currentId]);
      result := result + [index[currentId]];
      KidsOf(arcs, all, children, currentId);
      var kids := Kids(children, currentId);
      var ready;
      EnoughLeft(arcs, all, Elems(order), currentId, inDegree);
      ghost var degrees := inDegree;
      inDegree, ready := Release(kids, inDegree);
      CountsAfter(arcs, all, Elems(order), currentId, degrees, inDegree);
      ReadyIsReady(arcs, all, order, currentId, inDegree, ready);
      IdsSorted(ready, Ready(g, order, currentId));
      order := order + [currentId];
      queue := queue[1..] + SortBy(ready, StrLe);
    }
    KahnEnds(g, all, order);
    DuplicatesShrink(EventIds(events));
    ListsSize(events, order, result, all);
    if |result| != |events| {
      return CycleDetected;
    }
    CanonicalTies(events, result);
    r := Sorted(result);
  }

  lemma ListsNext(events: seq<Event>, ids: seq<string>, r: seq<Event>, e: Event)
    requires Lists(events, ids, r) && e in events
    ensures Lists(events, ids + [e.id], r + [e])
  {
  }

  lemma ListsSize(events: seq<Event>, ids: seq<string>, r: seq<Event>, all: set<string>)
    requires Lists(events, ids, r) && NoDup(ids) && Elems(ids) <= all
    ensures |r| == |ids| <= |all|
  {
    NoDupSize(ids);
    SubsetNoLarger(Elems(ids), all);
  }

  lemma PermutedIds(a: seq<Event>, b: seq<Event>)
    requires multiset(a) == multiset(b) && NoDup(EventIds(a))
    ensures NoDup(EventIds(b))
  {
    forall i, j | 0 <= i < j < |a| ensures a[i] != a[j] { assert EventIds(a)[i] != EventIds(a)[j]; }
    PermutedNoDup(a, b);
    forall i, j | 0 <= i < j < |b| ensures EventIds(b)[i] != EventIds(b)[j] {
      SameMembers(a, b, b[i]);
      SameMembers(a, b, b[j]);
      var k :| 0 <= k < |a| && a[k] == b[i];
      var m :| 0 <= m < |a| && a[m] == b[j];
      assert EventIds(a)[k] != EventIds(a)[m];
    }
  }

  lemma SameListing(a: seq<Event>, b: seq<Event>, ids: seq<string>, x: seq<Event>, y: seq<Event>)
    requires multiset(a) == multiset(b) && NoDup(EventIds(a)) && Lists(a, ids, x) && Lists(b, ids, y)
    ensures x == y
  {
    assert |x| == |EventIds(x)| && |y| == |EventIds(y)|;
    forall i | 0 <= i < |x| ensures x[i] == y[i] {
      assert EventIds(x)[i] == EventIds(y)[i];
      assert x[i] in a && y[i] in b;
      SameMembers(a, b, y[i]);
      var j :| 0 <= j < |a| && a[j] == x[i];
      var k :| 0 <= k < |a| && a[k] == y[i];
      assert EventIds(a)[j] == EventIds(a)[k];
    }
  }

  /** A permuted batch is accepted or refused alike, with the same kind of error, and gives the
      very same list of events. */
  lemma SortIgnoresArrival(a: seq<Event>, b: seq<Event>, x: Result, y: Result)
    requires multiset(a) == multiset(b) && Answers(a, x) && Answers(b, y)
    ensures (x.UnknownParent? <==> y.UnknownParent?) && (x.CycleDetected? <==> y.CycleDetected?)
    ensures x.Sorted? ==> x == y
  {
    hide CanonicalIds, Acyclic, GraphOf, Arcs, ParentsKnown, Lists;
    CanonicalIgnoresArrival(a, b);
    if NoDup(EventIds(a)) { PermutedIds(a, b); }
    if NoDup(EventIds(b)) { PermutedIds(b, a); }
    if x.Sorted? {
      SameListing(a, b, CanonicalIds(a), x.events, y.events);
    }
  }
}
