/** When do two nodes that hold the same events hold the same state? Each history is some
    linear extension of the causal order; the answer is exact: always, if and only if the
    reducer commutes on every two events that are both ready to come next. */
module Convergence {
  import opened Orders
  import opened Events
  import opened Execution
  import opened ExecutionRuns

  /** Events `emit` can take in this order: well-formed, new identifiers only, and every
      reference points back. */
  ghost predicate Causal<P>(h: seq<Event<P>>) {
    h != [] ==>
      var n := |h| - 1;
      Causal(h[..n]) && ValidStructure(h[n]) && h[n].id !in Ids(h[..n]) && ReferencesKnown(h[..n], h[n])
  }

  /** Both orders of `x` and `y` are possible after `h`, and they give the same state. */
  ghost predicate Diamond<S(!new), P(!new)>(cfg: Config<S, P>) {
    forall h: seq<Event<P>>, x: Event<P>, y: Event<P> ::
      Causal(h + [x, y]) && Causal(h + [y, x]) ==> Lenient(cfg, h + [x, y]) == Lenient(cfg, h + [y, x])
  }

  ghost predicate Converges<S(!new), P(!new)>(cfg: Config<S, P>) {
    forall h: seq<Event<P>>, k: seq<Event<P>> ::
      Causal(h) && Causal(k) && multiset(h) == multiset(k) ==> Lenient(cfg, h) == Lenient(cfg, k)
  }

  lemma {:induction false} LenientExtends<S, P>(cfg: Config<S, P>, u: seq<Event<P>>, v: seq<Event<P>>, w: seq<Event<P>>)
    requires Lenient(cfg, u) == Lenient(cfg, v)
    ensures Lenient(cfg, u + w) == Lenient(cfg, v + w)
    decreases |w|
  {
    if w == [] {
      assert u + w == u && v + w == v;
    } else {
      var n := |w| - 1;
      LenientExtends(cfg, u, v, w[..n]);
      assert (u + w)[..|u + w| - 1] == u + w[..n];
      assert (v + w)[..|v + w| - 1] == v + w[..n];
    }
  }

  lemma SameIds<P>(u: seq<Event<P>>, v: seq<Event<P>>)
    requires Elems(Ids(u)) == Elems(Ids(v))
    ensures forall p :: p in Ids(u) <==> p in Ids(v)
  {
    assert forall p :: p in Ids(u) <==> p in Elems(Ids(u));
    assert forall p :: p in Ids(v) <==> p in Elems(Ids(v));
  }

  lemma KnownAlike<P>(u: seq<Event<P>>, v: seq<Event<P>>, e: Event<P>)
    requires ReferencesKnown(u, e) && forall p :: p in Ids(u) ==> p in Ids(v)
    ensures ReferencesKnown(v, e)
  {
  }

  lemma {:induction false} CausalExtends<P>(u: seq<Event<P>>, v: seq<Event<P>>, w: seq<Event<P>>)
    requires Causal(u + w) && Causal(v)
    requires Elems(Ids(u)) == Elems(Ids(v))
    ensures Causal(v + w)
    decreases |w|
  {
    if w == [] {
      assert v + w == v;
    } else {
      hide Causal, ReferencesKnown;
      var n := |w| - 1;
      assert u + w == (u + w[..n]) + [w[n]] && v + w == (v + w[..n]) + [w[n]];
      CausalSnoc(u + w[..n], w[n]);
      CausalExtends(u, v, w[..n]);
      IdsAppend(u, w[..n]);
      IdsAppend(v, w[..n]);
      SameIds(u, v);
      KnownAlike(u + w[..n], v + w[..n], w[n]);
      CausalSnoc(v + w[..n], w[n]);
    }
  }

  lemma CausalSnoc<P>(h: seq<Event<P>>, e: Event<P>)
    ensures Causal(h + [e]) <==> Causal(h) && ValidStructure(e) && e.id !in Ids(h) && ReferencesKnown(h, e)
  {
    assert (h + [e])[..|h|] == h;
  }

  lemma {:induction false} CausalPrefix<P>(u: seq<Event<P>>, w: seq<Event<P>>)
    requires Causal(u + w)
    ensures Causal(u)
    decreases |w|
  {
    if w == [] {
      assert u + w == u;
    } else {
      assert (u + w)[..|u + w| - 1] == u + w[..|w| - 1];
      CausalPrefix(u, w[..|w| - 1]);
    }
  }

  /** Two neighbours, the second not referring to the first, may change places. */
  lemma SwapNeighbours<P>(a: seq<Event<P>>, e: Event<P>, x: Event<P>)
    requires Causal(a + [e, x]) && e.id !in References(x)
    ensures Causal(a + [x, e])
  {
    assert a + [e, x] == (a + [e]) + [x] && a + [x, e] == (a + [x]) + [e];
    CausalSnoc(a + [e], x);
    CausalSnoc(a, e);
    IdsAppend(a, [e]);
    IdsAppend(a, [x]);
    assert Ids([e]) == [e.id] && Ids([x]) == [x.id];
    CausalSnoc(a, x);
    CausalSnoc(a + [x], e);
  }

  lemma SwapShape<T>(a: seq<T>, e: T, x: T, rest: seq<T>)
    ensures a + [e] + ([x] + rest) == a + [e, x] + rest
    ensures a + [x] + [e] + rest == a + [x, e] + rest
    ensures a + [x] + rest + [e] == a + ([x] + rest) + [e]
  {
  }

  lemma DiamondAt<S(!new), P(!new)>(cfg: Config<S, P>, h: seq<Event<P>>, x: Event<P>, y: Event<P>)
    requires Diamond(cfg) && Causal(h + [x, y]) && Causal(h + [y, x])
    ensures Lenient(cfg, h + [x, y]) == Lenient(cfg, h + [y, x])
  {
  }

  lemma {:induction false} MoveToEnd<S(!new), P(!new)>(
    cfg: Config<S, P>, a: seq<Event<P>>, e: Event<P>, b: seq<Event<P>>)
    requires Diamond(cfg) && Causal(a + [e] + b)
    requires forall x :: x in b ==> e.id !in References(x)
    ensures Causal(a + b + [e]) && Lenient(cfg, a + [e] + b) == Lenient(cfg, a + b + [e])
    decreases |b|
  {
    if b == [] {
      assert a + [e] + b == a + b + [e];
    } else {
      hide Diamond, Causal, Lenient;
      var x, rest := b[0], b[1..];
      assert b == [x] + rest;
      SwapShape(a, e, x, rest);
      CausalPrefix(a + [e, x], rest);
      SwapNeighbours(a, e, x);
      IdsAppend(a, [e, x]);
      IdsAppend(a, [x, e]);
      assert Ids([e, x]) == [e.id, x.id] && Ids([x, e]) == [x.id, e.id];
      assert Elems(Ids(a + [e, x])) == Elems(Ids(a + [x, e]));
      CausalExtends(a + [e, x], a + [x, e], rest);
      DiamondAt(cfg, a, e, x);
      LenientExtends(cfg, a + [e, x], a + [x, e], rest);
      MoveToEnd(cfg, a + [x], e, rest);
    }
  }

  /** The last event of a causal history is referred to by none of the others. */
  lemma {:induction false} LastUnreferenced<P>(h: seq<Event<P>>, e: Event<P>, x: Event<P>)
    requires Causal(h) && x in h && e.id !in Ids(h)
    ensures e.id !in References(x)
    decreases |h|
  {
    var n := |h| - 1;
    assert h == h[..n] + [h[n]];
    IdsAppend(h[..n], [h[n]]);
    if x in h[..n] {
      LastUnreferenced(h[..n], e, x);
    }
  }

  lemma {:induction false} SameSetSameState<S(!new), P(!new)>(cfg: Config<S, P>, h: seq<Event<P>>, k: seq<Event<P>>)
    requires Diamond(cfg) && Causal(h) && Causal(k) && multiset(h) == multiset(k)
    ensures Lenient(cfg, h) == Lenient(cfg, k)
    decreases |h|
  {
    hide Diamond, Lenient, ReferencesKnown;
    if h == [] {
      assert |multiset(k)| == |k|;
    } else {
      var p, e := h[..|h| - 1], h[|h| - 1];
      assert h == p + [e];
      CausalSnoc(p, e);
      var a, b := TakeOut(p, e, k);
      LaterDoNotRefer(p, e, a, b);
      MoveToEnd(cfg, a, e, b);
      CausalSnoc(a + b, e);
      SameSetSameState(cfg, p, a + b);
      LenientExtends(cfg, p, a + b, [e]);
    }
  }

  lemma TakeOut<T>(p: seq<T>, e: T, k: seq<T>) returns (a: seq<T>, b: seq<T>)
    requires multiset(p + [e]) == multiset(k)
    ensures k == a + [e] + b && multiset(a + b) == multiset(p)
  {
    assert (p + [e])[|p|] == e;
    SameMembers(p + [e], k, e);
    var j :| 0 <= j < |k| && k[j] == e;
    a, b := k[..j], k[j + 1..];
    assert k == a + [e] + b;
    assert multiset(k) == multiset(a) + multiset{e} + multiset(b);
    assert multiset(k) == multiset(p) + multiset{e};
    assert multiset(a + b) == multiset(a) + multiset(b);
    assert multiset(a + b) == multiset(k) - multiset{e};
    assert multiset(p) == multiset(k) - multiset{e};
  }

  lemma LaterDoNotRefer<P>(p: seq<Event<P>>, e: Event<P>, a: seq<Event<P>>, b: seq<Event<P>>)
    requires Causal(p) && e.id !in Ids(p) && multiset(a + b) == multiset(p)
    ensures forall x :: x in b ==> e.id !in References(x)
  {
    forall x | x in b ensures e.id !in References(x) {
      assert x in a + b;
      SameMembers(a + b, p, x);
      LastUnreferenced(p, e, x);
    }
  }

  lemma PairSwapped<T>(h: seq<T>, x: T, y: T)
    ensures multiset(h + [x, y]) == multiset(h + [y, x])
  {
    assert [x, y] == [x] + [y] && [y, x] == [y] + [x];
  }

  lemma ConvergesOnPair<S(!new), P(!new)>(cfg: Config<S, P>, h: seq<Event<P>>, x: Event<P>, y: Event<P>)
    requires Converges(cfg) && Causal(h + [x, y]) && Causal(h + [y, x])
    ensures Lenient(cfg, h + [x, y]) == Lenient(cfg, h + [y, x])
  {
    hide Causal, Lenient;
    PairSwapped(h, x, y);
  }

  /** The exact condition for convergence. */
  lemma ConvergenceExactly<S(!new), P(!new)>(cfg: Config<S, P>)
    ensures Converges(cfg) <==> Diamond(cfg)
  {
    hide Causal, Lenient;
    if Diamond(cfg) {
      forall h: seq<Event<P>>, k: seq<Event<P>> | Causal(h) && Causal(k) && multiset(h) == multiset(k)
        ensures Lenient(cfg, h) == Lenient(cfg, k)
      {
        SameSetSameState(cfg, h, k);
      }
    }
    if Converges(cfg) {
      forall h: seq<Event<P>>, x: Event<P>, y: Event<P> | Causal(h + [x, y]) && Causal(h + [y, x])
        ensures Lenient(cfg, h + [x, y]) == Lenient(cfg, h + [y, x])
      {
        ConvergesOnPair(cfg, h, x, y);
      }
      assert Diamond(cfg);
    }
  }

  function Overwrite(): Config<int, int> {
    Config(0, (s: int, e: Event<int>) => Some(e.payload), (e: Event<int>) => "h")
  }

  /** A deterministic reducer that keeps the last value written: two nodes with the same two
      unrelated events, held in different orders, stay apart. */
  lemma OverwritingDiverges()
    ensures Timeless(Overwrite()) && !Converges(Overwrite())
  {
    var x := Event("x", "set", 1, None, [], [], None, None);
    var y := Event("y", "set", 2, None, [], [], None, None);
    TwoUnrelated(x, y);
    TwoUnrelated(y, x);
    SwapChanges(x, y);
  }

  lemma SwapChanges(x: Event<int>, y: Event<int>)
    requires x.payload != y.payload && Causal([x, y]) && Causal([y, x])
    ensures !Converges(Overwrite())
  {
    hide Causal, Lenient;
    LastValue([x], y);
    LastValue([y], x);
    assert [x] + [y] == [x, y] && [y] + [x] == [y, x];
    assert multiset([x, y]) == multiset([y, x]);
  }

  lemma LastValue(h: seq<Event<int>>, e: Event<int>)
    ensures Lenient(Overwrite(), h + [e]) == e.payload
  {
    assert (h + [e])[..|h|] == h;
  }

  lemma TwoUnrelated(x: Event<int>, y: Event<int>)
    requires References(x) == [] && References(y) == [] && x.id != y.id && ValidStructure(x) && ValidStructure(y)
    ensures Causal([x, y])
  {
    assert [x, y][..1] == [x] && [x][..0] == [];
    assert Ids([x]) == [x.id];
  }

  /** A reducer that commutes on every two events neither of which refers to the other. */
  ghost predicate CommutesOnUnrelated<S(!new), P(!new)>(cfg: Config<S, P>) {
    forall h: seq<Event<P>>, x: Event<P>, y: Event<P> ::
      x.id !in References(y) && y.id !in References(x) ==>
        Lenient(cfg, h + [x, y]) == Lenient(cfg, h + [y, x])
  }

  lemma CommutingConverges<S(!new), P(!new)>(cfg: Config<S, P>)
    requires CommutesOnUnrelated(cfg)
    ensures Converges(cfg)
  {
    forall h: seq<Event<P>>, x: Event<P>, y: Event<P> | Causal(h + [x, y]) && Causal(h + [y, x])
      ensures Lenient(cfg, h + [x, y]) == Lenient(cfg, h + [y, x])
    {
      Unrelated(h, x, y);
      Unrelated(h, y, x);
    }
    assert Diamond(cfg);
    ConvergenceExactly(cfg);
  }

  lemma Unrelated<P>(h: seq<Event<P>>, x: Event<P>, y: Event<P>)
    requires Causal(h + [x, y]) && Causal(h + [y, x])
    ensures y.id !in References(x)
  {
    assert h + [x, y] == (h + [x]) + [y];
    CausalSnoc(h + [x], y);
    CausalSnoc(h, x);
    IdsAppend(h, [x]);
  }

  // ------------------------------------------------------- histories of engines

  /** An event as stored, or without the fields the store fills in. */
  function Copy<P>(whole: bool, e: Event<P>): Event<P> {
    if whole then e else Core(e)
  }

  function Copies<P>(whole: bool, log: seq<Event<P>>): seq<Event<P>> {
    seq(|log|, i requires 0 <= i < |log| => Copy(whole, log[i]))
  }

  lemma {:induction false} WellFormedIsCausal<P>(whole: bool, log: seq<Event<P>>, k: nat)
    requires WellFormed(log) && k <= |log|
    ensures Causal(Copies(whole, log[..k]))
  {
    if k > 0 {
      WellFormedIsCausal(whole, log, k - 1);
      PrefixWellFormed(log, k - 1);
      ElementStored(log, k - 1);
      var h := Copies(whole, log[..k]);
      assert h[..k - 1] == Copies(whole, log[..k - 1]);
      assert Ids(h[..k - 1]) == Ids(log[..k - 1]);
      assert References(h[k - 1]) == References(log[k - 1]);
    }
  }

  lemma {:induction false} LenientOnCopies<S(!new), P(!new)>(cfg: Config<S, P>, whole: bool, log: seq<Event<P>>)
    requires whole || Timeless(cfg)
    ensures Lenient(cfg, Copies(whole, log)) == Lenient(cfg, log)
    decreases |log|
  {
    if log != [] {
      var n := |log| - 1;
      LenientOnCopies(cfg, whole, log[..n]);
      assert Copies(whole, log)[..n] == Copies(whole, log[..n]);
      var s := Lenient(cfg, log[..n]);
      assert cfg.reducer(s, log[n]) == cfg.reducer(s, Copy(whole, log[n]));
    }
  }

  /** The two histories hold the same events: the same stored copies, or the same up to the
      fields the store fills in. */
  ghost predicate SameEvents<P(!new)>(whole: bool, a: seq<Event<P>>, b: seq<Event<P>>) {
    forall e :: e in Copies(whole, a) <==> e in Copies(whole, b)
  }

  lemma NoDupIdsNoDup<P>(whole: bool, log: seq<Event<P>>)
    requires NoDup(Ids(log))
    ensures NoDup(Copies(whole, log))
  {
    forall i, j | 0 <= i < j < |log| ensures Copies(whole, log)[i] != Copies(whole, log)[j] {
      assert Ids(log)[i] != Ids(log)[j];
    }
  }

  /** Any two engines, whatever runs they went through, that hold the same events are in the
      same state, given a reducer with the diamond property. It may read timestamps and hashes
      when the stored copies are the same. */
  lemma SameEventsSameState<S(!new), P(!new)>(
    cfg: Config<S, P>, whole: bool, a: EngineState<S, P>, b: EngineState<S, P>)
    requires (whole || Timeless(cfg)) && Converges(cfg) && SameEvents(whole, a.log, b.log)
    requires Inv(a) && Inv(b) && Folded(cfg, a) && Folded(cfg, b)
    ensures a.current == b.current
  {
    hide Lenient, Timeless, Causal, WellFormed;
    CopiesOfEngine(cfg, whole, a);
    CopiesOfEngine(cfg, whole, b);
    assert (set e | e in Copies(whole, a.log)) == (set e | e in Copies(whole, b.log));
  }

  /** A history's copies are a causal history of the same state, each event once. */
  lemma CopiesOfEngine<S(!new), P(!new)>(cfg: Config<S, P>, whole: bool, a: EngineState<S, P>)
    requires (whole || Timeless(cfg)) && Inv(a) && Folded(cfg, a)
    ensures var h := Copies(whole, a.log);
            Causal(h) && Lenient(cfg, h) == a.current && multiset(h) == multiset(set e | e in h)
  {
    hide Lenient, Timeless, Causal;
    assert a.log[..|a.log|] == a.log;
    WellFormedIsCausal(whole, a.log, |a.log|);
    LenientOnCopies(cfg, whole, a.log);
    NoDupIdsNoDup(whole, a.log);
    NoDupMultiset(Copies(whole, a.log));
  }
}
