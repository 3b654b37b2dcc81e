/** The engine's dependency graph: two edge maps kept as mirror images, breadth-first
    searches over them and Kahn's sort, each tied to strict reachability. A thrown error is
    a `false` or `None` result. JavaScript sets are read in insertion order; here every
    order is possible, so nothing below depends on it. */
module CausalGraphs {
  import opened Orders
  import opened Graphs
  import opened KahnFrontier

  class CausalGraph {
    var edges: Graph
    var reverseEdges: Graph

    ghost predicate Valid()
      reads this
    {
      Mirror(edges, reverseEdges)
    }

    constructor ()
      ensures Valid() && edges == map[] && reverseEdges == map[]
    {
      edges := map[];
      reverseEdges := map[];
    }

    method AddEdge(from: string, to: string) returns (ok: bool)
      requires Valid()
      modifies this
      ensures Valid()
      ensures ok <==> from == to || !Reaches(old(edges), to, from)
      ensures edges == AfterAddEdge(old(edges), from, to)
      ensures ok ==> edges == AddArc(old(edges), from, to)
      ensures ok ==> forall x, y ::
        y in Succ(edges, x) <==> y in Succ(old(edges), x) || (x == from && y == to)
      ensures !ok ==> edges == old(edges) && reverseEdges == old(reverseEdges)
    {
      hide Mirror, Reaches;
      var cyclic := WouldCreateCycle(from, to);
      if cyclic {
        return false;
      }
      MirrorAddArc(edges, reverseEdges, from, to);
      var out, back := edges, reverseEdges;
      if from !in out {
        out := out[from := {}];
      }
      out := out[from := out[from] + {to}];
      if to !in back {
        back := back[to := {}];
      }
      back := back[to := back[to] + {from}];
      assert out == AddArc(edges, from, to) && back == AddArc(reverseEdges, to, from);
      edges, reverseEdges := out, back;
      ok := true;
    }

    method GetParents(eventId: string) returns (r: seq<string>)
      requires Valid()
      ensures NoDup(r) && |r| == |Pred(edges, eventId)|
      ensures forall x :: x in r <==> x in Pred(edges, eventId)
    {
      MirrorPred(edges, reverseEdges, eventId);
      r := SetToSeq(if eventId in reverseEdges then reverseEdges[eventId] else {});
    }

    method GetChildren(eventId: string) returns (r: seq<string>)
      ensures NoDup(r) && |r| == |Succ(edges, eventId)|
      ensures forall x :: x in r <==> x in Succ(edges, eventId)
    {
      r := SetToSeq(if eventId in edges then edges[eventId] else {});
    }

    method IsAncestorOf(ancestor: string, descendant: string) returns (r: bool)
      ensures r <==> ancestor != descendant && Reaches(edges, ancestor, descendant)
    {
      if ancestor == descendant {
        return false;
      }
      var visited: set<string> := {};
      var queue := [ancestor];
      ghost var all := Nodes(edges) + {ancestor};
      while |queue| > 0
        invariant forall x :: x in queue ==> x in all && (x == ancestor || Reaches(edges, ancestor, x))
        invariant visited <= all && descendant !in visited
        invariant ancestor in visited || ancestor in queue
        invariant forall x, y :: x in visited && y in Succ(edges, x) ==> y in visited || y in queue
        decreases all - visited, |queue|
      {
        var current := queue[0];
        ghost var before := queue;
        queue := queue[1..];
        assert forall x :: x in before <==> x == current || x in queue;
        if current == descendant {
          return true;
        }
        if current in visited {
          continue;
        }
        visited := visited + {current};
        var children := GetChildren(current);
        forall y | y in children ensures y in all && Reaches(edges, ancestor, y) {
          ReachStep(edges, current, y);
          if current != ancestor { ReachTrans(edges, ancestor, current, y); }
          SuccNodes(edges, current);
        }
        queue := queue + children;
      }
      assert forall x :: x in visited ==> Succ(edges, x) <= visited;
      if Reaches(edges, ancestor, descendant) {
        ClosedTraps(edges, visited, ancestor, descendant);
      }
      r := false;
    }

    method WouldCreateCycle(from: string, to: string) returns (r: bool)
      ensures r <==> from != to && Reaches(edges, to, from)
    {
      r := IsAncestorOf(to, from);
    }

    method GetAncestors(eventId: string) returns (r: seq<string>)
      requires Valid()
      ensures NoDup(r)
      ensures forall x :: x in r <==> Reaches(edges, x, eventId)
    {
      ghost var g := reverseEdges;
      var ancestors: set<string> := {};
      var queue := [eventId];
      var visited: set<string> := {};
      ghost var all := Nodes(g) + {eventId};
      while |queue| > 0
        invariant forall x :: x in queue ==> x in all && (x == eventId || x in ancestors)
        invariant forall x :: x in ancestors ==> Reaches(g, eventId, x)
        invariant visited <= all
        invariant eventId in visited || eventId in queue
        invariant forall x, y :: x in visited && y in Succ(g, x) ==> y in ancestors && (y in visited || y in queue)
        decreases all - visited, |queue|
      {
        var current := queue[0];
        ghost var before := queue;
        queue := queue[1..];
        assert forall x :: x in before <==> x == current || x in queue;
        if current in visited {
          continue;
        }
        visited := visited + {current};
        MirrorPred(edges, g, current);
        var parents := GetParents(current);
        ghost var rest := queue;
        ghost var known := ancestors;
        for i := 0 to |parents|
          invariant forall x :: x in ancestors <==> x in known || x in parents[..i]
          invariant forall x :: x in queue <==> x in rest || x in parents[..i]
        {
          ancestors := ancestors + {parents[i]};
          queue := queue + [parents[i]];
        }
        assert parents[..|parents|] == parents;
        forall y | y in parents ensures y in all && Reaches(g, eventId, y) {
          ReachStep(g, current, y);
          if current != eventId { ReachTrans(g, eventId, current, y); }
          SuccNodes(g, current);
        }
      }
      forall x ensures x in ancestors <==> Reaches(edges, x, eventId) {
        MirrorReaches(edges, g, x, eventId);
        SearchIsComplete(g, eventId, visited, ancestors, x);
      }
      r := SetToSeq(ancestors);
    }

    method GetDescendants(eventId: string) returns (r: seq<string>)
      ensures NoDup(r)
      ensures forall x :: x in r <==> Reaches(edges, eventId, x)
    {
      ghost var g := edges;
      var descendants: set<string> := {};
      var queue := [eventId];
      var visited: set<string> := {};
      ghost var all := Nodes(g) + {eventId};
      while |queue| > 0
        invariant forall x :: x in queue ==> x in all && (x == eventId || x in descendants)
        invariant forall x :: x in descendants ==> Reaches(g, eventId, x)
        invariant visited <= all
        invariant eventId in visited || eventId in queue
        invariant forall x, y :: x in visited && y in Succ(g, x) ==> y in descendants && (y in visited || y in queue)
        decreases all - visited, |queue|
      {
        var current := queue[0];
        ghost var before := queue;
        queue := queue[1..];
        assert forall x :: x in before <==> x == current || x in queue;
        if current in visited {
          continue;
        }
        visited := visited + {current};
        var children := GetChildren(current);
        ghost var rest := queue;
        ghost var known := descendants;
        for i := 0 to |children|
          invariant forall x :: x in descendants <==> x in known || x in children[..i]
          invariant forall x :: x in queue <==> x in rest || x in children[..i]
        {
          descendants := descendants + {children[i]};
          queue := queue + [children[i]];
        }
        assert children[..|children|] == children;
        forall y | y in children ensures y in all && Reaches(g, eventId, y) {
          ReachStep(g, current, y);
          if current != eventId { ReachTrans(g, eventId, current, y); }
          SuccNodes(g, current);
        }
      }
      forall x ensures x in descendants <==> Reaches(g, eventId, x) {
        SearchIsComplete(g, eventId, visited, descendants, x);
      }
      r := SetToSeq(descendants);
    }

    method AllNodes() returns (r: set<string>)
      requires Valid()
      ensures r == Nodes(edges)
    {
      MirrorPred(edges, reverseEdges, "");
      r := Nodes(edges) + Nodes(reverseEdges);
    }

    /** Kahn's algorithm; `None` is the thrown "Cycle detected" error. */
    method TopologicalSort() returns (r: Option<seq<string>>)
      requires Valid()
      ensures r.Some? <==> Acyclic(edges)
      ensures r.Some? ==> LinearExtension(edges, r.value, Nodes(edges))
    {
      var allNodes := AllNodes();
      r := Kahn(edges, reverseEdges, allNodes);
    }

    static method Kahn(edges: Graph, reverseEdges: Graph, allNodes: set<string>) returns (r: Option<seq<string>>)
      requires Mirror(edges, reverseEdges) && allNodes == Nodes(edges)
      ensures r.Some? <==> Acyclic(edges)
      ensures r.Some? ==> LinearExtension(edges, r.value, allNodes)
    {
      hide Counts, Frontier, Elems, LinearExtension, Nodes, Acyclic, Mirror, NoDup, Released;
      var inDegree, queue := InitialQueue(edges, reverseEdges, allNodes);
      var result: seq<string> := [];
      while |queue| > 0
        invariant Counts(edges, allNodes, inDegree, Elems(result))
        invariant Frontier(edges, allNodes, result, queue)
        decreases allNodes - Elems(result)
      {
        var current := queue[0];
        NextIsNew(edges, allNodes, inDegree, result, queue);
        SuccNodes(edges, current);
        var ready;
        ghost var degrees := inDegree;
        inDegree, ready := Release(Succ(edges, current), inDegree);
        ReleaseCounts(edges, allNodes, degrees, Elems(result), current, inDegree);
        ReadyMeans(edges, allNodes, Elems(result) + {current}, Succ(edges, current), inDegree, ready);
        FrontierStep(edges, allNodes, result, queue, ready);
        result := result + [current];
        queue := queue[1..] + ready;
      }
      KahnEnds(edges, allNodes, result);
      if |result| != |allNodes| {
        return None;
      }
      r := Some(result);
    }

    /** Every node's parent count, and the nodes that have none. */
    static method InitialQueue(edges: Graph, reverseEdges: Graph, allNodes: set<string>)
      returns (inDegree: map<string, int>, queue: seq<string>)
      requires Mirror(edges, reverseEdges)
      ensures Counts(edges, allNodes, inDegree, Elems([]))
      ensures Frontier(edges, allNodes, [], queue)
    {
      hide Counts, Frontier, Mirror, Elems;
      inDegree := map x | x in allNodes :: |Succ(reverseEdges, x)|;
      queue := [];
      var rest := allNodes;
      while rest != {}
        invariant rest <= allNodes && NoDup(queue)
        invariant forall x :: x in queue <==> x in allNodes && x !in rest && inDegree[x] == 0
        decreases rest
      {
        var node :| node in rest;
        rest := rest - {node};
        if inDegree[node] == 0 {
          queue := queue + [node];
        }
      }
      StartFrontier(edges, reverseEdges, allNodes, inDegree, queue);
    }

    /** The inner loop of the sort: every child loses one open parent, and those left with
        none are ready. */
    static method Release(children: set<string>, degrees: map<string, int>)
      returns (inDegree: map<string, int>, ready: seq<string>)
      requires children <= degrees.Keys
      ensures Released(children, degrees, inDegree)
      ensures NoDup(ready) && forall x :: x in ready <==> x in children && inDegree[x] == 0
    {
      inDegree := degrees;
      ready := [];
      var rest := children;
      while rest != {}
        invariant rest <= children && Released(children - rest, degrees, inDegree)
        invariant NoDup(ready)
        invariant forall x :: x in ready <==> x in children && x !in rest && inDegree[x] == 0
        decreases rest
      {
        var child :| child in rest;
        rest := rest - {child};
        var newInDegree := inDegree[child] - 1;
        inDegree := inDegree[child := newInDegree];
        if newInDegree == 0 {
          ready := ready + [child];
        }
      }
    }

    method HasCycle() returns (r: bool)
      requires Valid()
      ensures r <==> !Acyclic(edges)
    {
      var order := TopologicalSort();
      r := order.None?;
    }

    method Clear()
      modifies this
      ensures Valid() && edges == map[] && reverseEdges == map[]
    {
      edges := map[];
      reverseEdges := map[];
    }
  }

  /** A finished search that collected every successor of what it visited has collected
      exactly what its start reaches. */
  lemma SearchIsComplete(g: Graph, start: string, visited: set<string>, found: set<string>, x: string)
    requires start in visited
    requires forall a, b :: a in visited && b in Succ(g, a) ==> b in found && b in visited
    requires forall a :: a in found ==> Reaches(g, start, a)
    ensures x in found <==> Reaches(g, start, x)
  {
    if Reaches(g, start, x) {
      var last := ReachLast(g, start, x);
      if last != start { ClosedTraps(g, visited, start, last); }
    }
  }

  lemma DropOne(s: set<string>, done: set<string>, x: string)
    requires x !in done
    ensures |s - (done + {x})| == |s - done| - (if x in s then 1 else 0)
  {
    assert s - (done + {x}) == if x in s then (s - done) - {x} else s - done;
  }

  lemma NoneLeft(s: set<string>, done: set<string>)
    ensures |s - done| == 0 <==> s <= done
  {
    if s <= done {
      assert s - done == {};
    } else {
      var x :| x in s && x !in done;
      assert x in s - done;
    }
  }

  lemma ReadyMeans(g: Graph, all: set<string>, done: set<string>, children: set<string>,
                   inDegree: map<string, int>, ready: seq<string>)
    requires Counts(g, all, inDegree, done) && children <= all
    requires forall x :: x in ready <==> x in children && inDegree[x] == 0
    ensures forall x :: x in ready <==> x in children && Pred(g, x) <= done
  {
    forall x | x in children ensures inDegree[x] == 0 <==> Pred(g, x) <= done {
      NoneLeft(Pred(g, x), done);
    }
  }

  ghost predicate Released(children: set<string>, degrees: map<string, int>, now: map<string, int>) {
    && now.Keys == degrees.Keys
    && forall x :: x in degrees ==> now[x] == if x in children then degrees[x] - 1 else degrees[x]
  }

  lemma ReleaseCounts(g: Graph, all: set<string>, degrees: map<string, int>, done: set<string>, x: string,
                      now: map<string, int>)
    requires Counts(g, all, degrees, done) && x !in done && Released(Succ(g, x), degrees, now)
    ensures Counts(g, all, now, done + {x})
  {
    forall y | y in all ensures now[y] == |Pred(g, y) - (done + {x})| {
      DropOne(Pred(g, y), done, x);
      assert y in Succ(g, x) <==> x in Pred(g, y);
    }
  }

  lemma StartFrontier(g: Graph, r: Graph, all: set<string>, inDegree: map<string, int>, queue: seq<string>)
    requires Mirror(g, r)
    requires inDegree == map x | x in all :: |Succ(r, x)|
    requires NoDup(queue) && forall x :: x in queue <==> x in all && inDegree[x] == 0
    ensures Counts(g, all, inDegree, Elems([]))
    ensures Frontier(g, all, [], queue)
  {
    hide Mirror, Pred, Frontier;
    forall x | x in all ensures inDegree[x] == |Pred(g, x)| {
      MirrorPred(g, r, x);
    }
    forall x | x in all ensures Pred(g, x) - Elems([]) == Pred(g, x) {
    }
    SourcesQueue(g, all, queue);
  }

  /** With nothing output yet, the queue is the nodes without parents. */
  lemma SourcesQueue(g: Graph, all: set<string>, queue: seq<string>)
    requires NoDup(queue) && forall x :: x in queue <==> x in all && |Pred(g, x)| == 0
    ensures Frontier(g, all, [], queue)
  {
    hide Pred;
    assert [] + queue == queue;
    forall x ensures |Pred(g, x)| == 0 <==> Pred(g, x) <= Elems([]) {
    }
  }

  lemma MirrorAddArc(g: Graph, r: Graph, a: string, b: string)
    requires Mirror(g, r)
    ensures Mirror(AddArc(g, a, b), AddArc(r, b, a))
  {
    forall x, y ensures y in Succ(AddArc(g, a, b), x) <==> x in Succ(AddArc(r, b, a), y) {
      assert y in Succ(g, x) <==> x in Succ(r, y);
    }
  }

  /** Each degree counts the parents that have not been output. */
  ghost predicate Counts(g: Graph, all: set<string>, inDegree: map<string, int>, done: set<string>) {
    inDegree.Keys == all && forall x :: x in all ==> inDegree[x] == |Pred(g, x) - done|
  }

  lemma NextIsNew(g: Graph, all: set<string>, inDegree: map<string, int>, result: seq<string>, queue: seq<string>)
    requires Frontier(g, all, result, queue) && queue != [] && Counts(g, all, inDegree, Elems(result))
    ensures queue[0] in all && queue[0] !in Elems(result) && inDegree.Keys == all
  {
    FrontHeadNew(g, all, result, queue);
  }

  // ------------------------------------------------------------------ whole runs

  /** What `AddEdge` leaves behind, as a function of the edges before it. */
  ghost function AfterAddEdge(g: Graph, from: string, to: string): Graph {
    if from == to || !Reaches(g, to, from) then AddArc(g, from, to) else g
  }

  ghost function AfterCalls(g: Graph, calls: seq<(string, string)>): Graph
    decreases |calls|
  {
    if calls == [] then g
    else AfterCalls(AfterAddEdge(g, calls[0].0, calls[0].1), calls[1..])
  }

  lemma LoopStays(g: Graph, a: string, calls: seq<(string, string)>)
    requires Reaches(g, a, a)
    ensures Reaches(AfterCalls(g, calls), a, a)
    decreases |calls|
  {
    if calls != [] {
      var h := AfterAddEdge(g, calls[0].0, calls[0].1);
      WalkMonotone(g, h, a, a);
      LoopStays(h, a, calls[1..]);
    }
  }

  /** Over a whole run of `addEdge` calls, rejected ones included, the graph stays acyclic
      exactly when no call passes the same identifier twice: a self-loop is the only cycle
      the check lets through. */
  lemma {:induction false} RunsStayAcyclic(g: Graph, calls: seq<(string, string)>)
    requires Acyclic(g)
    ensures Acyclic(AfterCalls(g, calls)) <==> forall i :: 0 <= i < |calls| ==> calls[i].0 != calls[i].1
    decreases |calls|
  {
    if calls != [] {
      var (a, b) := calls[0];
      var h := AfterAddEdge(g, a, b);
      ArcKeepsAcyclic(g, a, b);
      if a == b {
        ReachStep(h, a, a);
        LoopStays(h, a, calls[1..]);
        assert calls[0].0 == calls[0].1;
      } else {
        RunsStayAcyclic(h, calls[1..]);
        assert calls == [calls[0]] + calls[1..];
      }
    }
  }
}
