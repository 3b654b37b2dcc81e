/** The ancestry index: a set of ancestors per node, filled when the node is added, that must
    answer like a search over the edges; pruning and sorting by height. */
module AncestryIndex {
  import opened Orders
  import opened Graphs

  datatype DagNode = DagNode(id: string, parents: seq<string>, height: int)

  /** What the new node's ancestors are taken to be: its parents and whatever the index
      already lists for them. */
  function Inherited(index: map<string, set<string>>, parents: seq<string>): set<string> {
    if parents == [] then {}
    else
      var p := parents[|parents| - 1];
      Inherited(index, parents[..|parents| - 1]) + {p} + (if p in index then index[p] else {})
  }

  class OptimizedCausalDAG {
    var nodes: map<string, DagNode>
    var ancestryIndex: map<string, set<string>>

    constructor ()
      ensures nodes == map[] && ancestryIndex == map[]
    {
      nodes := map[];
      ancestryIndex := map[];
    }

    ghost function Model(): Dag
      reads this
    {
      Dag(nodes, ancestryIndex)
    }

    method AddNode(node: DagNode)
      modifies this
      ensures Model() == Added(old(Model()), node)
      ensures nodes == old(nodes)[node.id := node] && node.id in ancestryIndex
      ensures forall a :: a in ancestryIndex[node.id] <==>
        exists p :: p in node.parents && (a == p || (p in old(ancestryIndex) && a in old(ancestryIndex)[p]))
      ensures forall id :: id != node.id ==>
        && (id in ancestryIndex <==> id in old(ancestryIndex))
        && (id in ancestryIndex ==> ancestryIndex[id] == old(ancestryIndex)[id])
    {
      nodes := nodes[node.id := node];
      var ancestors: set<string> := {};
      for i := 0 to |node.parents|
        invariant ancestors == Inherited(ancestryIndex, node.parents[..i])
        invariant nodes == old(nodes)[node.id := node] && ancestryIndex == old(ancestryIndex)
      {
        var parent := node.parents[i];
        assert node.parents[..i + 1][..i] == node.parents[..i];
        ancestors := ancestors + {parent};
        if parent in ancestryIndex {
          ancestors := ancestors + ancestryIndex[parent];
        }
      }
      assert node.parents[..|node.parents|] == node.parents;
      forall a ensures a in ancestors <==>
        exists p :: p in node.parents && (a == p || (p in ancestryIndex && a in ancestryIndex[p]))
      {
        InheritedMembers(ancestryIndex, node.parents, a);
      }
      ancestryIndex := ancestryIndex[node.id := ancestors];
    }

    /** A look-up, and as good as a search over the edges wherever the index is exact. */
    method IsAncestor(ancestor: string, child: string) returns (r: bool)
      ensures r <==> child in ancestryIndex && ancestor in ancestryIndex[child]
      ensures forall g :: Exact(Model(), g) && child in nodes ==> (r <==> Reaches(g, child, ancestor))
    {
      hide Reaches;
      r := child in ancestryIndex && ancestor in ancestryIndex[child];
    }

    method PruneBelowHeight(height: int)
      modifies this
      ensures Model() == Pruned(old(Model()), height)
      ensures forall id :: id in nodes <==> id in old(nodes) && !(old(nodes)[id].height < height)
      ensures forall id :: id in nodes ==> nodes[id] == old(nodes)[id]
      ensures forall id :: id in ancestryIndex <==>
        id in old(ancestryIndex) && !(id in old(nodes) && old(nodes)[id].height < height)
      ensures forall id :: id in ancestryIndex ==> ancestryIndex[id] == old(ancestryIndex)[id]
    {
      hide Swept;
      ghost var start := Model();
      var entries := SetToSeq(nodes.Keys);
      NothingSwept(start, height);
      for i := 0 to |entries|
        invariant Model() == Swept(start, entries[..i], height)
      {
        var id := entries[i];
        assert id in entries;
        SweptNext(start, entries, i, height);
        if nodes[id].height < height {
          nodes := nodes - {id};
          ancestryIndex := ancestryIndex - {id};
        }
      }
      AllSwept(start, entries, height);
    }

    /** All nodes, lowest first. */
    method TopologicalAcceleration() returns (r: seq<DagNode>)
      ensures forall n :: n in r <==> n in nodes.Values
      ensures |r| == |nodes|
      ensures forall i, j :: 0 <= i < j < |r| ==> r[i].height <= r[j].height
    {
      var table := nodes;
      var ids := SetToSeq(table.Keys);
      assert forall i :: 0 <= i < |ids| ==> ids[i] in ids;
      var all := seq(|ids|, i requires 0 <= i < |ids| && ids[i] in table => table[ids[i]]);
      ListedValues(table, ids, all);
      r := SortBy(all, Lower);
      SortPermutes(all, Lower);
      SortSorts(all, Lower);
      forall n ensures n in r <==> n in nodes.Values { SameMembers(r, all, n); }
      assert forall i, j :: 0 <= i < j < |r| ==> Lower(r[i], r[j]);
    }
  }

  lemma ListedValues(table: map<string, DagNode>, ids: seq<string>, all: seq<DagNode>)
    requires |all| == |ids| && (forall x :: x in ids <==> x in table)
    requires forall i :: 0 <= i < |ids| ==> ids[i] in table && all[i] == table[ids[i]]
    ensures forall n :: n in all <==> n in table.Values
  {
    forall n | n in table.Values ensures n in all {
      var id :| id in table && table[id] == n;
      assert id in ids;
      var i :| 0 <= i < |ids| && ids[i] == id;
      assert all[i] == n;
    }
  }

  /** The nodes and index entries left after looking at `done`. */
  ghost function Swept(dag: Dag, done: seq<string>, height: int): Dag {
    Dag(map id | id in dag.nodes && (id in done ==> dag.nodes[id].height >= height) :: dag.nodes[id],
        dag.index - (set id | id in dag.nodes && id in done && dag.nodes[id].height < height))
  }

  lemma NothingSwept(dag: Dag, height: int)
    ensures Swept(dag, [], height) == dag
  {
  }

  lemma SweptNext(dag: Dag, entries: seq<string>, i: nat, height: int)
    requires i < |entries| && NoDup(entries) && entries[i] in dag.nodes
    ensures var id := entries[i];
            var before := Swept(dag, entries[..i], height);
            && id in before.nodes && before.nodes[id] == dag.nodes[id]
            && Swept(dag, entries[..i + 1], height) ==
               (if dag.nodes[id].height < height then Dag(before.nodes - {id}, before.index - {id}) else before)
  {
    assert entries[..i + 1] == entries[..i] + [entries[i]];
    assert entries[i] !in entries[..i];
  }

  lemma AllSwept(dag: Dag, entries: seq<string>, height: int)
    requires forall id :: id in entries <==> id in dag.nodes
    ensures Swept(dag, entries[..|entries|], height) == Pruned(dag, height)
  {
    assert entries[..|entries|] == entries;
  }

  predicate Lower(a: DagNode, b: DagNode) {
    a.height <= b.height
  }

  function Tall(nodes: map<string, DagNode>, height: int): map<string, DagNode> {
    map id | id in nodes && nodes[id].height >= height :: nodes[id]
  }

  // ------------------------------------------------------- the index and the edges

  datatype Dag = Dag(nodes: map<string, DagNode>, index: map<string, set<string>>)

  function Added(dag: Dag, node: DagNode): Dag {
    Dag(dag.nodes[node.id := node], dag.index[node.id := Inherited(dag.index, node.parents)])
  }

  function Pruned(dag: Dag, height: int): Dag {
    Dag(Tall(dag.nodes, height), dag.index - (set id | id in dag.nodes && dag.nodes[id].height < height))
  }

  /** Child to parent, over every node ever added. */
  function ParentArcs(g: Graph, node: DagNode): Graph {
    g[node.id := set p | p in node.parents]
  }

  /** For every node still there, the index lists exactly what a search over all edges finds. */
  ghost predicate Exact(dag: Dag, g: Graph) {
    && dag.index.Keys == dag.nodes.Keys <= g.Keys
    && (forall c, a :: c in dag.index ==> (a in dag.index[c] <==> Reaches(g, c, a)))
  }

  lemma {:induction false} InheritedMembers(index: map<string, set<string>>, parents: seq<string>, a: string)
    ensures a in Inherited(index, parents) <==> exists p :: p in parents && (a == p || (p in index && a in index[p]))
  {
    if parents != [] {
      var init, last := parents[..|parents| - 1], parents[|parents| - 1];
      InheritedMembers(index, init, a);
      assert parents == init + [last];
      assert forall p :: p in parents <==> p in init || p == last;
    }
  }

  ghost predicate Above(g: Graph, node: DagNode, a: string) {
    exists q :: q in node.parents && (a == q || Reaches(g, q, a))
  }

  lemma {:induction false} WalkWithNode(g: Graph, node: DagNode, p: seq<string>, x: string, y: string)
    requires node.id !in g && Walk(ParentArcs(g, node), p, x, y)
    ensures Reaches(g, x, y) ||
            ((x == node.id || Reaches(g, x, node.id)) && Above(g, node, y))
    decreases |p|
  {
    var h := ParentArcs(g, node);
    var m := p[1];
    assert m in Succ(h, x);
    if |p| > 2 {
      assert Walk(h, p[1..], m, y);
      WalkWithNode(g, node, p[1..], m, y);
    }
    if x != node.id {
      ReachStep(g, x, m);
      if Reaches(g, m, y) { ReachTrans(g, x, m, y); }
      if Reaches(g, m, node.id) { ReachTrans(g, x, m, node.id); }
    }
  }

  /** What the new node changes: whoever had it as an ancestor now has all that lies above it. */
  lemma ReachesWithNode(g: Graph, node: DagNode, x: string, y: string)
    requires node.id !in g
    ensures Reaches(ParentArcs(g, node), x, y) <==>
            Reaches(g, x, y) ||
            ((x == node.id || Reaches(g, x, node.id)) && Above(g, node, y))
  {
    var h := ParentArcs(g, node);
    if Reaches(h, x, y) {
      var p :| Walk(h, p, x, y);
      WalkWithNode(g, node, p, x, y);
    }
    if Reaches(g, x, y) { WalkMonotone(g, h, x, y); }
    if (x == node.id || Reaches(g, x, node.id)) && Above(g, node, y) {
      var q :| q in node.parents && (y == q || Reaches(g, q, y));
      ReachStep(h, node.id, q);
      if y != q { WalkMonotone(g, h, q, y); ReachTrans(h, node.id, q, y); }
      if x != node.id { WalkMonotone(g, h, x, node.id); ReachTrans(h, x, node.id, y); }
    }
  }

  /** What a pruned parent had above it is inherited from some other parent. */
  ghost predicate NothingForgotten(dag: Dag, g: Graph, node: DagNode) {
    forall p, a :: p in node.parents && p !in dag.nodes && Reaches(g, p, a) ==> a in Inherited(dag.index, node.parents)
  }

  /** What the node inherits lies above it, and all of that if nothing is forgotten. */
  lemma InheritedIsAbove(dag: Dag, g: Graph, node: DagNode, a: string)
    requires Exact(dag, g)
    ensures a in Inherited(dag.index, node.parents) ==> Above(g, node, a)
    ensures NothingForgotten(dag, g, node) && Above(g, node, a) ==> a in Inherited(dag.index, node.parents)
  {
    InheritedMembers(dag.index, node.parents, a);
    forall p | p in dag.nodes ensures p in dag.index && (Reaches(g, p, a) <==> a in dag.index[p]) {
    }
  }

  /** Adding a node under a new identifier keeps the index exact if and only if nothing above a
      pruned parent is forgotten and every indexed node that already names the new one as an
      ancestor also lists all that it inherits. */
  lemma AddKeepsExact(dag: Dag, g: Graph, node: DagNode)
    requires Exact(dag, g) && node.id !in g
    ensures Exact(Added(dag, node), ParentArcs(g, node)) <==>
            && NothingForgotten(dag, g, node)
            && forall c :: c in dag.index && node.id in dag.index[c] ==>
              Inherited(dag.index, node.parents) <= dag.index[c]
  {
    hide Reaches;
    var h := ParentArcs(g, node);
    var after := Added(dag, node);
    var entry := Inherited(dag.index, node.parents);
    forall a
      ensures a in entry ==> Above(g, node, a)
      ensures NothingForgotten(dag, g, node) && Above(g, node, a) ==> a in entry
      ensures !Reaches(g, node.id, a)
    {
      InheritedIsAbove(dag, g, node, a);
      if Reaches(g, node.id, a) { var m := ReachFirst(g, node.id, a); }
    }
    forall c, a | c in after.index
      ensures Reaches(h, c, a) <==>
        if c == node.id then Above(g, node, a)
        else a in dag.index[c] || (node.id in dag.index[c] && Above(g, node, a))
    {
      ReachesWithNode(g, node, c, a);
    }
    hide ParentArcs;
    if Exact(after, h) {
      forall p, a | p in node.parents && p !in dag.nodes && Reaches(g, p, a) ensures a in entry {
        assert Above(g, node, a) && Reaches(h, node.id, a);
      }
    }
  }

  // ------------------------------------------------------- whole runs

  datatype Op = Add(node: DagNode) | Prune(height: int)

  function RunDag(ops: seq<Op>): Dag {
    if ops == [] then Dag(map[], map[])
    else
      match ops[|ops| - 1]
      case Add(node) => Added(RunDag(ops[..|ops| - 1]), node)
      case Prune(height) => Pruned(RunDag(ops[..|ops| - 1]), height)
  }

  /** Every edge the run ever added. */
  function RunGraph(ops: seq<Op>): Graph {
    if ops == [] then map[]
    else
      match ops[|ops| - 1]
      case Add(node) => ParentArcs(RunGraph(ops[..|ops| - 1]), node)
      case Prune(_) => RunGraph(ops[..|ops| - 1])
  }

  /** Each node is added once. */
  ghost predicate FreshRun(ops: seq<Op>) {
    ops != [] ==>
      var before := ops[..|ops| - 1];
      FreshRun(before) && (ops[|ops| - 1].Add? ==> ops[|ops| - 1].node.id !in RunGraph(before))
  }

  /** Each node is added once and after its parents, which may have been pruned since. */
  ghost predicate ParentsFirstRun(ops: seq<Op>) {
    ops != [] ==>
      var before := ops[..|ops| - 1];
      && ParentsFirstRun(before)
      && (match ops[|ops| - 1]
          case Add(node) => node.id !in RunGraph(before) && forall p :: p in node.parents ==> p in RunGraph(before)
          case Prune(_) => true)
  }

  /** Parents are still there when a child is added. */
  ghost predicate ParentsStay(ops: seq<Op>) {
    ops != [] ==>
      var before := ops[..|ops| - 1];
      && ParentsStay(before)
      && (match ops[|ops| - 1]
          case Add(node) => forall p :: p in node.parents ==> p in RunDag(before).nodes
          case Prune(_) => true)
  }

  ghost predicate Closed(g: Graph) {
    forall c, p :: p in Succ(g, c) ==> p in g
  }

  lemma ClosedReaches(g: Graph, x: string, y: string)
    requires Closed(g) && Reaches(g, x, y)
    ensures y in g
  {
    var b := ReachLast(g, x, y);
  }

  lemma ClosedAfter(g: Graph, node: DagNode)
    requires Closed(g) && forall p :: p in node.parents ==> p in g
    ensures Closed(ParentArcs(g, node))
  {
    var h := ParentArcs(g, node);
    forall c, p | p in Succ(h, c) ensures p in h {
      if c != node.id { assert p in Succ(g, c); }
    }
  }

  lemma {:induction false} RunIsClosed(ops: seq<Op>)
    requires ParentsFirstRun(ops)
    ensures Closed(RunGraph(ops)) && FreshRun(ops)
  {
    if ops != [] {
      RunIsClosed(ops[..|ops| - 1]);
      if ops[|ops| - 1].Add? { ClosedAfter(RunGraph(ops[..|ops| - 1]), ops[|ops| - 1].node); }
    }
  }

  /** Over every parents-first run, prunes included, whose parents stay until their children are
      added, the index answers for every surviving node exactly as a search over all edges ever
      added would, pruned ancestors included. */
  lemma {:induction false} RunIsExact(ops: seq<Op>)
    requires ParentsFirstRun(ops) && ParentsStay(ops)
    ensures Exact(RunDag(ops), RunGraph(ops))
  {
    if ops != [] {
      var before := ops[..|ops| - 1];
      RunIsExact(before);
      RunIsClosed(before);
      match ops[|ops| - 1] {
        case Add(node) =>
          forall c | c in RunDag(before).index && node.id in RunDag(before).index[c] ensures false {
            ClosedReaches(RunGraph(before), c, node.id);
          }
          AddKeepsExact(RunDag(before), RunGraph(before), node);
        case Prune(_) =>
      }
    }
  }

  /** A child added before its parent: the index misses the grandparent. */
  lemma ChildFirstMisses()
    ensures var ops := [Add(DagNode("c", ["p"], 2)), Add(DagNode("p", ["g"], 1))];
            Reaches(RunGraph(ops), "c", "g") && "g" !in RunDag(ops).index["c"]
  {
    var first := [Add(DagNode("c", ["p"], 2))];
    var ops := first + [Add(DagNode("p", ["g"], 1))];
    assert ops == [Add(DagNode("c", ["p"], 2)), Add(DagNode("p", ["g"], 1))];
    assert first[..0] == [] && ops[..1] == first;
    assert ["p"][..0] == [];
    assert Inherited(map[], ["p"]) == {"p"};
    var g := RunGraph(ops);
    assert "p" in Succ(g, "c") && "g" in Succ(g, "p");
    assert Walk(g, ["c", "p", "g"], "c", "g");
  }

  /** The edges of a parents-first run never close a cycle. */
  lemma {:induction false} RunIsAcyclic(ops: seq<Op>)
    requires ParentsFirstRun(ops)
    ensures Acyclic(RunGraph(ops))
  {
    if ops != [] {
      var before := ops[..|ops| - 1];
      RunIsAcyclic(before);
      RunIsClosed(before);
      if ops[|ops| - 1].Add? {
        var g, node := RunGraph(before), ops[|ops| - 1].node;
        forall x | Reaches(ParentArcs(g, node), x, x) ensures false {
          ReachesWithNode(g, node, x, x);
          if Reaches(g, x, node.id) { ClosedReaches(g, x, node.id); }
          if q :| q in node.parents && Reaches(g, q, node.id) { ClosedReaches(g, q, node.id); }
        }
      }
    } else {
      forall x | Reaches(RunGraph([]), x, x) ensures false { var y := ReachFirst(RunGraph([]), x, x); }
    }
  }

  /** After any such run the index answers for every surviving child what the causal graph's own
      search answers on the same edges, equal identifiers included. */
  lemma IndexMatchesSearch(ops: seq<Op>, edges: Graph, ancestor: string, child: string)
    requires ParentsFirstRun(ops) && ParentsStay(ops)
    requires Mirror(edges, RunGraph(ops)) && child in RunDag(ops).nodes
    ensures child in RunDag(ops).index
    ensures ancestor in RunDag(ops).index[child] <==> ancestor != child && Reaches(edges, ancestor, child)
  {
    RunIsExact(ops);
    RunIsAcyclic(ops);
    MirrorReaches(edges, RunGraph(ops), ancestor, child);
  }

  // ------------------------------------------------------- what the index sees of any run

  /** The parents that have an entry to inherit when the child is added. */
  function LiveParents(index: map<string, set<string>>, parents: seq<string>): (r: seq<string>)
    ensures forall p :: p in r <==> p in parents && p in index
  {
    if parents == [] then []
    else
      var p := parents[|parents| - 1];
      LiveParents(index, parents[..|parents| - 1]) + if p in index then [p] else []
  }

  function Live(dag: Dag, node: DagNode): DagNode {
    node.(parents := LiveParents(dag.index, node.parents))
  }

  /** The edges to parents that had an entry when their child was added. */
  function LiveGraph(ops: seq<Op>): Graph {
    if ops == [] then map[]
    else
      var before := ops[..|ops| - 1];
      match ops[|ops| - 1]
      case Add(node) => ParentArcs(LiveGraph(before), Live(RunDag(before), node))
      case Prune(_) => LiveGraph(before)
  }

  /** `a` is found from `c` by a search that goes on only from parents that had an entry. */
  ghost predicate Sees(live: Graph, g: Graph, c: string, a: string) {
    exists b :: (b == c || Reaches(live, c, b)) && a in Succ(g, b)
  }

  lemma {:induction false} LiveWithin(ops: seq<Op>)
    requires FreshRun(ops)
    ensures LiveGraph(ops).Keys == RunGraph(ops).Keys
    ensures RunDag(ops).index.Keys == RunDag(ops).nodes.Keys <= RunGraph(ops).Keys
    ensures forall c :: Succ(LiveGraph(ops), c) <= Succ(RunGraph(ops), c)
    ensures Closed(LiveGraph(ops))
  {
    if ops != [] {
      var before := ops[..|ops| - 1];
      LiveWithin(before);
      if ops[|ops| - 1].Add? {
        var node := ops[|ops| - 1].node;
        var live := Live(RunDag(before), node);
        forall c ensures Succ(LiveGraph(ops), c) <= Succ(RunGraph(ops), c) {
          assert c != node.id ==> Succ(LiveGraph(ops), c) == Succ(LiveGraph(before), c);
          assert c != node.id ==> Succ(RunGraph(ops), c) == Succ(RunGraph(before), c);
        }
        ClosedAfter(LiveGraph(before), live);
      }
    }
  }

  /** Over every run that adds each node once, parents first or not, prunes included, the index
      answers for every surviving child exactly what such a search finds. */
  lemma {:induction false} IndexExactly(ops: seq<Op>)
    requires FreshRun(ops)
    ensures RunDag(ops).index.Keys == RunDag(ops).nodes.Keys
    ensures forall c, a :: c in RunDag(ops).index ==>
      (a in RunDag(ops).index[c] <==> Sees(LiveGraph(ops), RunGraph(ops), c, a))
  {
    if ops != [] {
      var before := ops[..|ops| - 1];
      IndexExactly(before);
      LiveWithin(before);
      if ops[|ops| - 1].Add? {
        hide Sees, Reaches;
        var node := ops[|ops| - 1].node;
        forall c, a | c in RunDag(ops).index
          ensures a in RunDag(ops).index[c] <==> Sees(LiveGraph(ops), RunGraph(ops), c, a)
        {
          SeesWithNode(RunDag(before), LiveGraph(before), RunGraph(before), node, c, a);
        }
      }
    }
  }

  lemma SeesWithNode(dag: Dag, live: Graph, g: Graph, node: DagNode, c: string, a: string)
    requires node.id !in g && dag.index.Keys <= g.Keys && live.Keys == g.Keys
    requires Closed(live)
    requires forall x, y :: x in dag.index ==> (y in dag.index[x] <==> Sees(live, g, x, y))
    requires c in dag.index || c == node.id
    ensures Sees(ParentArcs(live, Live(dag, node)), ParentArcs(g, node), c, a) <==>
            if c == node.id then a in Inherited(dag.index, node.parents) else a in dag.index[c]
  {
    hide Reaches;
    var more, h := ParentArcs(live, Live(dag, node)), ParentArcs(g, node);
    forall x ensures !Reaches(live, x, node.id) && !Reaches(live, node.id, x) {
      if Reaches(live, x, node.id) { var m := ReachLast(live, x, node.id); }
      if Reaches(live, node.id, x) { var m := ReachFirst(live, node.id, x); }
    }
    forall x, b ensures Reaches(more, x, b) <==>
      Reaches(live, x, b) || (x == node.id && Above(live, Live(dag, node), b)) {
      ReachesWithNode(live, Live(dag, node), x, b);
    }
    forall b | b != node.id ensures Succ(h, b) == Succ(g, b) {
    }
    if c == node.id {
      SeesFromNode(dag, live, g, node, a);
    } else {
      assert Sees(more, h, c, a) <==> Sees(live, g, c, a);
    }
  }

  lemma SeesFromNode(dag: Dag, live: Graph, g: Graph, node: DagNode, a: string)
    requires node.id !in g && dag.index.Keys <= g.Keys && live.Keys == g.Keys
    requires Closed(live)
    requires forall x, y :: x in dag.index ==> (y in dag.index[x] <==> Sees(live, g, x, y))
    requires forall b :: Reaches(ParentArcs(live, Live(dag, node)), node.id, b) <==> Above(live, Live(dag, node), b)
    ensures Sees(ParentArcs(live, Live(dag, node)), ParentArcs(g, node), node.id, a) <==>
            a in Inherited(dag.index, node.parents)
  {
    hide Reaches;
    var more, h := ParentArcs(live, Live(dag, node)), ParentArcs(g, node);
    InheritedMembers(dag.index, node.parents, a);
    if Sees(more, h, node.id, a) {
      var b :| (b == node.id || Reaches(more, node.id, b)) && a in Succ(h, b);
      if b != node.id {
        var p :| p in Live(dag, node).parents && (b == p || Reaches(live, p, b));
        assert a in Succ(g, b) && Sees(live, g, p, a);
      }
    }
    if p :| p in node.parents && (a == p || (p in dag.index && a in dag.index[p])) {
      if a == p {
        assert a in Succ(h, node.id);
      } else {
        var b :| (b == p || Reaches(live, p, b)) && a in Succ(g, b);
        assert b in g && Above(live, Live(dag, node), b) && a in Succ(h, b);
      }
    }
  }

  // ------------------------------------------------------- heights

  /** Every node the run ever added, pruned or not. */
  function RunNodes(ops: seq<Op>): map<string, DagNode> {
    if ops == [] then map[]
    else
      var before := RunNodes(ops[..|ops| - 1]);
      match ops[|ops| - 1]
      case Add(node) => before[node.id := node]
      case Prune(_) => before
  }

  /** Each node is added above its parents. */
  ghost predicate HeightsGrow(ops: seq<Op>) {
    ops != [] ==>
      var before := ops[..|ops| - 1];
      && HeightsGrow(before)
      && (match ops[|ops| - 1]
          case Add(node) =>
            forall p :: p in node.parents && p in RunNodes(before) ==> RunNodes(before)[p].height < node.height
          case Prune(_) => true)
  }

  ghost predicate Lifted(nodes: map<string, DagNode>, g: Graph) {
    nodes.Keys == g.Keys && forall c, p :: p in Succ(g, c) ==> p in nodes && nodes[p].height < nodes[c].height
  }

  lemma {:induction false} RunIsLifted(ops: seq<Op>)
    requires ParentsFirstRun(ops) && HeightsGrow(ops)
    ensures Lifted(RunNodes(ops), RunGraph(ops))
    ensures forall id :: id in RunDag(ops).nodes ==> id in RunNodes(ops) && RunDag(ops).nodes[id] == RunNodes(ops)[id]
  {
    if ops != [] {
      var before := ops[..|ops| - 1];
      RunIsLifted(before);
      if ops[|ops| - 1].Add? {
        var node := ops[|ops| - 1].node;
        forall c, p | p in Succ(RunGraph(ops), c)
          ensures p in RunNodes(ops) && RunNodes(ops)[p].height < RunNodes(ops)[c].height
        {
          if c != node.id { assert p in Succ(RunGraph(before), c); }
        }
      }
    }
  }

  lemma {:induction false} HeightsAlongWalk(nodes: map<string, DagNode>, g: Graph, p: seq<string>, x: string, y: string)
    requires Lifted(nodes, g) && Walk(g, p, x, y)
    ensures x in nodes && y in nodes && nodes[y].height < nodes[x].height
    decreases |p|
  {
    assert p[1] in Succ(g, x);
    if |p| > 2 {
      assert Walk(g, p[1..], p[1], y);
      HeightsAlongWalk(nodes, g, p[1..], p[1], y);
    }
  }

  lemma AncestorsLower(ops: seq<Op>)
    requires ParentsFirstRun(ops) && HeightsGrow(ops)
    ensures RunNodes(ops).Keys == RunGraph(ops).Keys
    ensures forall c, a :: Reaches(RunGraph(ops), c, a) ==>
      c in RunNodes(ops) && a in RunNodes(ops) && RunNodes(ops)[a].height < RunNodes(ops)[c].height
  {
    var g, nodes := RunGraph(ops), RunNodes(ops);
    RunIsLifted(ops);
    forall c, a | Reaches(g, c, a) ensures c in nodes && a in nodes && nodes[a].height < nodes[c].height {
      var p :| Walk(g, p, c, a);
      HeightsAlongWalk(nodes, g, p, c, a);
    }
  }

  /** With heights that grow along edges, what all the prunes of a run have removed is closed
      under ancestors: a node that is gone takes everything above it with it, however nodes
      were added in between, under pruned parents too. */
  lemma {:induction false} PrunedIsAncestorClosed(ops: seq<Op>)
    requires ParentsFirstRun(ops) && HeightsGrow(ops)
    ensures forall c, a :: c in RunGraph(ops) && c !in RunDag(ops).nodes && Reaches(RunGraph(ops), c, a) ==>
      a in RunGraph(ops) && a !in RunDag(ops).nodes
  {
    if ops != [] {
      var before := ops[..|ops| - 1];
      PrunedIsAncestorClosed(before);
      RunIsClosed(before);
      RunIsLifted(before);
      AncestorsLower(before);
      hide Reaches, Acyclic;
      var g := RunGraph(before);
      forall c, a | c in RunGraph(ops) && c !in RunDag(ops).nodes && Reaches(RunGraph(ops), c, a)
        ensures a in RunGraph(ops) && a !in RunDag(ops).nodes
      {
        if ops[|ops| - 1].Add? {
          var node := ops[|ops| - 1].node;
          ReachesWithNode(g, node, c, a);
          if Reaches(g, c, node.id) { ClosedReaches(g, c, node.id); }
          ClosedReaches(g, c, a);
        } else {
          ClosedReaches(g, c, a);
        }
      }
    }
  }

  /** A parent that is still there had an entry when its child was added. */
  lemma {:induction false} SurvivorsAreLive(ops: seq<Op>)
    requires ParentsFirstRun(ops)
    ensures forall c, p :: p in Succ(RunGraph(ops), c) && p in RunDag(ops).nodes ==> p in Succ(LiveGraph(ops), c)
  {
    if ops != [] {
      var before := ops[..|ops| - 1];
      SurvivorsAreLive(before);
      RunIsClosed(before);
      LiveWithin(before);
      if ops[|ops| - 1].Add? {
        var node := ops[|ops| - 1].node;
        forall c, p | p in Succ(RunGraph(ops), c) && p in RunDag(ops).nodes ensures p in Succ(LiveGraph(ops), c) {
          if c != node.id { assert p in Succ(RunGraph(before), c) && p in RunGraph(before); }
        }
      }
    }
  }

  lemma {:induction false} SeenAlongWalk(ops: seq<Op>, p: seq<string>, c: string, a: string)
    requires ParentsFirstRun(ops) && HeightsGrow(ops) && Walk(RunGraph(ops), p, c, a) && a in RunDag(ops).nodes
    ensures Sees(LiveGraph(ops), RunGraph(ops), c, a)
    decreases |p|
  {
    var live, g, m := LiveGraph(ops), RunGraph(ops), p[1];
    assert m in Succ(g, c);
    if |p| > 2 {
      assert Walk(g, p[1..], m, a);
      SeenAlongWalk(ops, p[1..], m, a);
      PrunedIsAncestorClosed(ops);
      RunIsClosed(ops);
      SurvivorsAreLive(ops);
      ReachStep(live, c, m);
      var b :| (b == m || Reaches(live, m, b)) && a in Succ(g, b);
      if b != m { ReachTrans(live, c, m, b); }
    }
  }

  /** After any parents-first run with growing heights, the index answers every question between
      two surviving nodes exactly as a search over all edges ever added would. */
  lemma SurvivorsExact(ops: seq<Op>, ancestor: string, child: string)
    requires ParentsFirstRun(ops) && HeightsGrow(ops)
    requires child in RunDag(ops).nodes && ancestor in RunDag(ops).nodes
    ensures child in RunDag(ops).index
    ensures ancestor in RunDag(ops).index[child] <==> Reaches(RunGraph(ops), child, ancestor)
  {
    var live, g := LiveGraph(ops), RunGraph(ops);
    RunIsClosed(ops);
    IndexExactly(ops);
    LiveWithin(ops);
    if Reaches(g, child, ancestor) {
      var p :| Walk(g, p, child, ancestor);
      SeenAlongWalk(ops, p, child, ancestor);
    }
    if Sees(live, g, child, ancestor) {
      var b :| (b == child || Reaches(live, child, b)) && ancestor in Succ(g, b);
      ReachStep(g, b, ancestor);
      if b != child {
        WalkMonotone(live, g, child, b);
        ReachTrans(g, child, b, ancestor);
      }
    }
  }

  /** One more prune on top of any such run: it removes an ancestor-closed set, and between the
      nodes that survive it every answer stays, and stays right. */
  lemma HeightsOrderAncestors(ops: seq<Op>, height: int)
    requires ParentsFirstRun(ops) && HeightsGrow(ops)
    ensures var dag, after, g := RunDag(ops), RunDag(ops + [Prune(height)]), RunGraph(ops);
            && (forall c, a :: c in dag.nodes && a in dag.nodes && Reaches(g, c, a) && c !in after.nodes ==>
              a !in after.nodes)
            && (forall c :: c in after.nodes ==> c in dag.index && c in after.index && after.index[c] == dag.index[c])
            && (forall c, a :: c in after.index && a in after.nodes ==> (a in after.index[c] <==> Reaches(g, c, a)))
  {
    var more := ops + [Prune(height)];
    assert more[..|more| - 1] == ops;
    RunIsClosed(more);
    LiveWithin(ops);
    LiveWithin(more);
    PrunedIsAncestorClosed(more);
    assert RunGraph(more) == RunGraph(ops);
    hide Reaches, Sees, ParentsFirstRun, HeightsGrow;
    forall c, a | c in RunDag(more).index && a in RunDag(more).nodes
      ensures a in RunDag(more).index[c] <==> Reaches(RunGraph(ops), c, a)
    {
      SurvivorsExact(more, a, c);
    }
  }

  /** What `topologicalAcceleration` returns after any such run, prunes included, is a
      topological order: no node comes before one of its ancestors. */
  lemma HeightOrderIsTopological(ops: seq<Op>, r: seq<DagNode>)
    requires ParentsFirstRun(ops) && HeightsGrow(ops)
    requires forall n :: n in r ==> n in RunDag(ops).nodes.Values
    requires forall i, j :: 0 <= i < j < |r| ==> r[i].height <= r[j].height
    ensures forall i, j :: 0 <= i < |r| && 0 <= j < |r| && Reaches(RunGraph(ops), r[j].id, r[i].id) ==> i < j
  {
    AncestorsLower(ops);
    RunIsLifted(ops);
    NodesUnderTheirIds(ops);
    forall i, j | 0 <= i < |r| && 0 <= j < |r| && Reaches(RunGraph(ops), r[j].id, r[i].id) ensures i < j {
      assert r[i] in r && r[j] in r;
    }
  }

  lemma AddNext(before: seq<Op>, node: DagNode)
    requires ParentsFirstRun(before) && HeightsGrow(before) && node.id !in RunGraph(before)
    requires forall p :: p in node.parents ==>
      p in RunGraph(before) && (p in RunNodes(before) ==> RunNodes(before)[p].height < node.height)
    ensures var ops := before + [Add(node)];
            && ParentsFirstRun(ops) && HeightsGrow(ops)
            && RunGraph(ops) == ParentArcs(RunGraph(before), node) && RunNodes(ops) == RunNodes(before)[node.id := node]
            && RunDag(ops) == Added(RunDag(before), node)
  {
    assert (before + [Add(node)])[..|before|] == before;
  }

  /** A child added under a pruned parent: the index knows the parent and not what was above it. */
  lemma PrunedParentForgets()
    ensures var g, p, c := DagNode("g", [], 0), DagNode("p", ["g"], 1), DagNode("c", ["p"], 2);
            var ops := [] + [Add(g)] + [Add(p)] + [Prune(2)] + [Add(c)];
            && ParentsFirstRun(ops) && HeightsGrow(ops)
            && Reaches(RunGraph(ops), "c", "g") && RunDag(ops).index == map["c" := {"p"}]
  {
    hide ParentsFirstRun, HeightsGrow, RunDag, RunGraph, RunNodes;
    var g, p, c := DagNode("g", [], 0), DagNode("p", ["g"], 1), DagNode("c", ["p"], 2);
    var two := [] + [Add(g)] + [Add(p)];
    var three := two + [Prune(2)];
    NothingYet();
    AddNext([], g);
    AddNext([Add(g)], p);
    assert [] + [Add(g)] == [Add(g)];
    PruneNext(two, 2);
    assert RunDag(three).nodes == map[] && RunDag(three).index == map[];
    AddNext(three, c);
    assert ["p"][..0] == [] && Inherited(map[], ["p"]) == {"p"};
    var edges := RunGraph(three + [Add(c)]);
    assert "p" in Succ(edges, "c") && "g" in Succ(edges, "p");
    assert Walk(edges, ["c", "p", "g"], "c", "g");
  }

  lemma NothingYet()
    ensures ParentsFirstRun([]) && HeightsGrow([])
    ensures RunGraph([]) == map[] && RunNodes([]) == map[] && RunDag([]) == Dag(map[], map[])
  {
  }

  lemma PruneNext(before: seq<Op>, height: int)
    requires ParentsFirstRun(before) && HeightsGrow(before)
    ensures var ops := before + [Prune(height)];
            && ParentsFirstRun(ops) && HeightsGrow(ops) && RunGraph(ops) == RunGraph(before)
            && RunNodes(ops) == RunNodes(before) && RunDag(ops) == Pruned(RunDag(before), height)
  {
    assert (before + [Prune(height)])[..|before|] == before;
  }

  lemma {:induction false} NodesUnderTheirIds(ops: seq<Op>)
    ensures forall id :: id in RunDag(ops).nodes ==> RunDag(ops).nodes[id].id == id
  {
    if ops != [] {
      NodesUnderTheirIds(ops[..|ops| - 1]);
    }
  }
}
