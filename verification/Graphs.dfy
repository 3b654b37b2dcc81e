/** Directed graphs as adjacency maps, strict reachability, and the two facts the causal
    structures rest on: a finite acyclic set has a source, and an order that puts every
    tail before its head rules out cycles. */
module Graphs {
  import opened Orders

  type Graph = map<string, set<string>>

  function Succ(g: Graph, x: string): set<string> {
    if x in g then g[x] else {}
  }

  ghost function Pred(g: Graph, x: string): set<string> {
    set y | y in g && x in g[y]
  }

  function AddArc(g: Graph, a: string, b: string): Graph {
    g[a := Succ(g, a) + {b}]
  }

  /** Every identifier that is an end of some edge. */
  function Nodes(g: Graph): set<string> {
    (set x | x in g && g[x] != {}) + (set x, y | x in g && y in g[x] :: y)
  }

  /** `r` holds exactly the edges of `g`, turned round. */
  ghost predicate Mirror(g: Graph, r: Graph) {
    forall a, b :: b in Succ(g, a) <==> a in Succ(r, b)
  }

  ghost predicate IsWalk(g: Graph, p: seq<string>) {
    |p| > 0 && forall i :: 0 <= i < |p| - 1 ==> p[i + 1] in Succ(g, p[i])
  }

  ghost predicate Walk(g: Graph, p: seq<string>, a: string, b: string) {
    |p| > 1 && p[0] == a && p[|p| - 1] == b && IsWalk(g, p)
  }

  /** `b` can be reached from `a` along one edge or more. */
  ghost predicate Reaches(g: Graph, a: string, b: string) {
    exists p :: Walk(g, p, a, b)
  }

  ghost predicate Acyclic(g: Graph) {
    forall x :: !Reaches(g, x, x)
  }

  lemma ReachStep(g: Graph, a: string, b: string)
    requires b in Succ(g, a)
    ensures Reaches(g, a, b)
  {
    assert Walk(g, [a, b], a, b);
  }

  lemma ReachTrans(g: Graph, a: string, b: string, c: string)
    requires Reaches(g, a, b) && Reaches(g, b, c)
    ensures Reaches(g, a, c)
  {
    var p :| Walk(g, p, a, b);
    var q :| Walk(g, q, b, c);
    assert Walk(g, p + q[1..], a, c);
  }

  lemma ReachFirst(g: Graph, a: string, c: string) returns (b: string)
    requires Reaches(g, a, c)
    ensures b in Succ(g, a) && (b == c || Reaches(g, b, c))
  {
    var p :| Walk(g, p, a, c);
    b := p[1];
    if |p| > 2 { assert Walk(g, p[1..], b, c); }
  }

  lemma ReachLast(g: Graph, a: string, c: string) returns (b: string)
    requires Reaches(g, a, c)
    ensures c in Succ(g, b) && (b == a || Reaches(g, a, b))
  {
    var p :| Walk(g, p, a, c);
    b := p[|p| - 2];
    if |p| > 2 { assert Walk(g, p[..|p| - 1], a, b); }
  }

  lemma {:induction false} WalkStays(g: Graph, p: seq<string>, s: set<string>)
    requires IsWalk(g, p) && p[0] in s
    requires forall x :: x in s ==> Succ(g, x) <= s
    ensures forall i :: 0 <= i < |p| ==> p[i] in s
  {
    if |p| > 1 {
      assert p[1] in Succ(g, p[0]);
      WalkStays(g, p[1..], s);
      assert p == [p[0]] + p[1..];
    }
  }

  /** A set that contains its own successors cannot be left. */
  lemma ClosedTraps(g: Graph, s: set<string>, a: string, b: string)
    requires forall x :: x in s ==> Succ(g, x) <= s
    requires a in s && Reaches(g, a, b)
    ensures b in s
  {
    var p :| Walk(g, p, a, b);
    WalkStays(g, p, s);
  }

  lemma ReachNodes(g: Graph, a: string, b: string)
    requires Reaches(g, a, b)
    ensures a in Nodes(g) && b in Nodes(g)
  {
    var x := ReachFirst(g, a, b);
    var y := ReachLast(g, a, b);
  }

  lemma SuccNodes(g: Graph, a: string)
    ensures Succ(g, a) <= Nodes(g)
  {
  }

  lemma ReverseWalk(g: Graph, r: Graph, p: seq<string>, a: string, b: string) returns (q: seq<string>)
    requires Mirror(g, r) && Walk(g, p, a, b)
    ensures Walk(r, q, b, a)
  {
    q := seq(|p|, i requires 0 <= i < |p| => p[|p| - 1 - i]);
    forall i | 0 <= i < |q| - 1 ensures q[i + 1] in Succ(r, q[i]) {
      var k := |p| - 2 - i;
      assert p[k + 1] in Succ(g, p[k]);
    }
  }

  lemma MirrorReaches(g: Graph, r: Graph, a: string, b: string)
    requires Mirror(g, r)
    ensures Reaches(g, a, b) <==> Reaches(r, b, a)
  {
    if Reaches(g, a, b) {
      var p :| Walk(g, p, a, b);
      var q := ReverseWalk(g, r, p, a, b);
    }
    if Reaches(r, b, a) {
      var p :| Walk(r, p, b, a);
      var q := ReverseWalk(r, g, p, b, a);
    }
  }

  lemma MirrorPred(g: Graph, r: Graph, x: string)
    requires Mirror(g, r)
    ensures Pred(g, x) == Succ(r, x)
    ensures Nodes(g) == Nodes(r)
  {
    forall y ensures y in Pred(g, x) <==> y in Succ(r, x) {
      assert x in Succ(g, y) <==> y in Succ(r, x);
    }
    NodesMirrored(g, r);
    NodesMirrored(r, g);
  }

  lemma NodesMirrored(g: Graph, r: Graph)
    requires Mirror(g, r)
    ensures Nodes(g) <= Nodes(r)
  {
    forall y | y in Nodes(g) ensures y in Nodes(r) {
      if y in g && g[y] != {} {
        var z :| z in g[y];
        assert z in Succ(g, y) && y in Succ(r, z);
      } else {
        var z :| z in g && y in g[z];
        assert y in Succ(g, z) && z in Succ(r, y);
      }
    }
  }

  /** In an acyclic graph every nonempty finite set of nodes has a member with no
      predecessor inside the set. */
  lemma {:induction false} SourceExists(g: Graph, s: set<string>, x: string) returns (m: string)
    requires Acyclic(g) && x in s
    ensures m in s && Pred(g, m) !! s
    decreases |s|
  {
    var above := set y | y in s && Reaches(g, y, x);
    if above == {} {
      m := x;
      forall y | y in Pred(g, x) ensures y !in s {
        ReachStep(g, y, x);
        assert y !in above;
      }
    } else {
      assert x !in above && above < s;
      assert |above| < |s| by { SubsetSmaller(above, s); }
      var y :| y in above;
      m := SourceExists(g, above, y);
      forall z | z in Pred(g, m) ensures z !in s {
        ReachStep(g, z, m);
        ReachTrans(g, z, m, x);
      }
    }
  }

  lemma SubsetSmaller<T>(a: set<T>, b: set<T>)
    requires a < b
    ensures |a| < |b|
  {
    assert b == a + (b - a);
    assert |b| == |a| + |b - a|;
  }

  lemma SubsetNoLarger<T>(a: set<T>, b: set<T>)
    requires a <= b
    ensures |a| <= |b|
  {
    assert b == a + (b - a);
    assert |b| == |a| + |b - a|;
  }

  /** `order` lists `nodes` once each and every edge goes forward in it. */
  ghost predicate LinearExtension(g: Graph, order: seq<string>, nodes: set<string>) {
    && NoDup(order)
    && (forall x :: x in order <==> x in nodes)
    && (forall i, j :: 0 <= i < |order| && 0 <= j < |order| && order[j] in Succ(g, order[i]) ==> i < j)
  }

  lemma {:induction false} WalkForward(g: Graph, order: seq<string>, nodes: set<string>, p: seq<string>, i: nat, j: nat)
    requires LinearExtension(g, order, nodes) && Nodes(g) <= nodes
    requires i < |order| && j < |order| && Walk(g, p, order[i], order[j])
    ensures i < j
    decreases |p|
  {
    if |p| > 2 {
      var q := p[..|p| - 1];
      var b := p[|p| - 2];
      assert order[j] in Succ(g, b);
      assert b in order;
      var k :| 0 <= k < |order| && order[k] == b;
      WalkForward(g, order, nodes, q, i, k);
    } else {
      assert order[j] in Succ(g, order[i]);
    }
  }

  lemma OrderForbidsCycles(g: Graph, order: seq<string>, nodes: set<string>)
    requires LinearExtension(g, order, nodes) && Nodes(g) <= nodes
    ensures Acyclic(g)
  {
    forall x ensures !Reaches(g, x, x) {
      if Reaches(g, x, x) {
        ReachNodes(g, x, x);
        var i :| 0 <= i < |order| && order[i] == x;
        var p :| Walk(g, p, x, x);
        WalkForward(g, order, nodes, p, i, i);
      }
    }
  }

  lemma {:induction false} WalkAvoidsArc(g: Graph, a: string, b: string, p: seq<string>, x: string, y: string)
    requires Walk(AddArc(g, a, b), p, x, y)
    ensures Reaches(g, x, y) || ((x == a || Reaches(g, x, a)) && (b == y || Reaches(g, b, y)))
    decreases |p|
  {
    var h := AddArc(g, a, b);
    var m := p[1];
    assert m in Succ(h, x);
    if |p| > 2 {
      assert Walk(h, p[1..], m, y);
      WalkAvoidsArc(g, a, b, p[1..], m, y);
    }
    if m in Succ(g, x) {
      ReachStep(g, x, m);
      if Reaches(g, m, y) { ReachTrans(g, x, m, y); }
      if Reaches(g, m, a) { ReachTrans(g, x, m, a); }
    }
  }

  lemma {:induction false} WalkMonotone(g: Graph, h: Graph, x: string, y: string)
    requires forall z :: Succ(g, z) <= Succ(h, z)
    requires Reaches(g, x, y)
    ensures Reaches(h, x, y)
  {
    var p :| Walk(g, p, x, y);
    assert Walk(h, p, x, y);
  }

  /** What one more edge changes: the new pairs are exactly those that go through it. */
  lemma ReachesAfterArc(g: Graph, a: string, b: string, x: string, y: string)
    ensures Reaches(AddArc(g, a, b), x, y) <==>
            Reaches(g, x, y) || ((x == a || Reaches(g, x, a)) && (b == y || Reaches(g, b, y)))
  {
    var h := AddArc(g, a, b);
    if Reaches(h, x, y) {
      var p :| Walk(h, p, x, y);
      WalkAvoidsArc(g, a, b, p, x, y);
    }
    if Reaches(g, x, y) { WalkMonotone(g, h, x, y); }
    if (x == a || Reaches(g, x, a)) && (b == y || Reaches(g, b, y)) {
      ReachStep(h, a, b);
      if Reaches(g, x, a) { WalkMonotone(g, h, x, a); ReachTrans(h, x, a, b); }
      if Reaches(g, b, y) { WalkMonotone(g, h, b, y); ReachTrans(h, x, b, y); }
    }
  }

  /** An edge keeps an acyclic graph acyclic exactly when it is not a loop and its head
      does not already reach its tail. */
  lemma ArcKeepsAcyclic(g: Graph, a: string, b: string)
    requires Acyclic(g)
    ensures Acyclic(AddArc(g, a, b)) <==> a != b && !Reaches(g, b, a)
  {
    ReachesAfterArc(g, a, b, a, a);
    forall x ensures Reaches(AddArc(g, a, b), x, x) ==> a == b || Reaches(g, b, a) {
      ReachesAfterArc(g, a, b, x, x);
      if Reaches(g, b, x) && Reaches(g, x, a) { ReachTrans(g, b, x, a); }
    }
  }
}
