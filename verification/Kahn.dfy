/** The state of Kahn's algorithm between two pops, and what it means for it to stop. */
module KahnFrontier {
  import opened Orders
  import opened Graphs

  /** Output and queue together hold, once each, the nodes whose parents have all been
      output, and the output respects the edges. */
  ghost predicate Frontier(g: Graph, all: set<string>, result: seq<string>, queue: seq<string>) {
    && NoDup(result + queue)
    && (forall x :: x in result + queue <==> x in all && Pred(g, x) <= Elems(result))
    && (forall i, y :: 0 <= i < |result| && y in Pred(g, result[i]) ==> y in result[..i])
  }

  lemma FrontHeadNew(g: Graph, all: set<string>, result: seq<string>, queue: seq<string>)
    requires Frontier(g, all, result, queue) && queue != []
    ensures queue[0] in all && queue[0] !in Elems(result)
  {
    assert (result + queue)[|result|] == queue[0];
    assert forall i :: 0 <= i < |result| ==> (result + queue)[i] == result[i];
    assert queue[0] in result + queue;
  }

  lemma FrontierStep(g: Graph, all: set<string>, result: seq<string>, queue: seq<string>,
                     ready: seq<string>)
    requires Nodes(g) <= all && Frontier(g, all, result, queue) && queue != [] && NoDup(ready)
    requires forall x :: x in ready <==> x in Succ(g, queue[0]) && Pred(g, x) <= Elems(result) + {queue[0]}
    ensures Frontier(g, all, result + [queue[0]], queue[1..] + ready)
    ensures Elems(result + [queue[0]]) == Elems(result) + {queue[0]}
  {
    var current := queue[0];
    var placed := result + queue;
    FrontHeadNew(g, all, result, queue);
    SuccNodes(g, current);
    var now := result + [current];
    assert now + (queue[1..] + ready) == placed + ready;
    assert Elems(now) == Elems(result) + {current};
    forall x ensures x in placed + ready <==> x in all && Pred(g, x) <= Elems(now) {
      if x in all && Pred(g, x) <= Elems(now) && !(Pred(g, x) <= Elems(result)) {
        assert current in Pred(g, x);
      }
    }
    forall x | x in ready ensures x !in placed {
      assert current in Pred(g, x);
    }
    assert forall i :: 0 <= i < |ready| ==> ready[i] in ready;
    assert forall i :: 0 <= i < |placed| ==> placed[i] in placed;
    assert NoDup(placed + ready);
    forall i, y | 0 <= i < |now| && y in Pred(g, now[i]) ensures y in now[..i] {
      if i < |result| {
        assert now[..i] == result[..i];
      } else {
        assert current in placed && now[..i] == result;
      }
    }
  }

  /** When the queue runs dry, everything was output exactly when there is no cycle. */
  lemma KahnEnds(g: Graph, all: set<string>, result: seq<string>)
    requires Nodes(g) <= all && Frontier(g, all, result, [])
    ensures |result| == |all| <==> Acyclic(g)
    ensures |result| == |all| ==> LinearExtension(g, result, all)
    ensures NoDup(result) && Elems(result) <= all
  {
    assert result + [] == result;
    NoDupSize(result);
    var done := Elems(result);
    assert done <= all by {
      forall x | x in done ensures x in all { assert x in result + []; }
    }
    if |result| == |all| {
      if done < all { SubsetSmaller(done, all); }
      forall i, j | 0 <= i < |result| && 0 <= j < |result| && result[j] in Succ(g, result[i]) ensures i < j {
        assert result[i] in Pred(g, result[j]);
        assert result[i] in result[..j];
      }
      OrderForbidsCycles(g, result, all);
    } else {
      assert done != all;
      StuckMeansCycle(g, all, done);
    }
  }

  /** Nodes that all wait for one another form a cycle. */
  lemma StuckMeansCycle(g: Graph, all: set<string>, done: set<string>)
    requires Nodes(g) <= all && done <= all && done != all
    requires forall x :: x in all && Pred(g, x) <= done ==> x in done
    ensures !Acyclic(g)
  {
    if Acyclic(g) {
      var left := all - done;
      var seed :| seed in all && seed !in done;
      var m := SourceExists(g, left, seed);
      SourceIsReady(g, all, done, m);
      assert false;
    }
  }

  lemma SourceIsReady(g: Graph, all: set<string>, done: set<string>, m: string)
    requires Nodes(g) <= all && Pred(g, m) !! (all - done)
    ensures Pred(g, m) <= done
  {
    forall y | y in Pred(g, m) ensures y in done {
      assert y in all;
    }
  }
}
