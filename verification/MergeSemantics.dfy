/** Merging a batch of events by timestamp and identifier: what comes out does not depend on
    the order the batch arrived in, even when the reducer throws or does not commute. */
module MergeSemantics {
  import opened Orders
  import opened Events

  datatype Attempt<S> = Applied(state: S) | Threw(error: string)

  datatype MergeResult<S> = MergeResult(
    success: bool,
    eventsApplied: nat,
    conflicts: seq<(string, string)>,
    finalState: S)

  function Time<P>(e: Event<P>): int {
    if e.timestamp.Some? then e.timestamp.value else 0
  }

  /** `idLe(a, b)` stands for `localeCompare` not answering more than 0: it ranks any two
      identifiers, and may rank different ones alike. */
  predicate Before<P>(idLe: (string, string) -> bool, a: Event<P>, b: Event<P>) {
    Time(a) < Time(b) || (Time(a) == Time(b) && idLe(a.id, b.id))
  }

  function EventLe<P>(idLe: (string, string) -> bool): (Event<P>, Event<P>) -> bool {
    (a: Event<P>, b: Event<P>) => Before(idLe, a, b)
  }

  function CausalOrder<P>(idLe: (string, string) -> bool, events: seq<Event<P>>): seq<Event<P>> {
    SortBy(events, EventLe(idLe))
  }

  /** One event: a throw is recorded and leaves the state alone. */
  function Take<S, P>(reducer: (S, Event<P>) -> Attempt<S>, r: MergeResult<S>, e: Event<P>): MergeResult<S> {
    match reducer(r.finalState, e)
    case Applied(s) => MergeResult(r.success, r.eventsApplied + 1, r.conflicts, s)
    case Threw(error) => MergeResult(false, r.eventsApplied, r.conflicts + [(e.id, error)], r.finalState)
  }

  function TakeAll<S, P>(reducer: (S, Event<P>) -> Attempt<S>, base: S, events: seq<Event<P>>): MergeResult<S> {
    if events == [] then MergeResult(true, 0, [], base)
    else Take(reducer, TakeAll(reducer, base, events[..|events| - 1]), events[|events| - 1])
  }

  /** What each event does: applied and counted, or recorded as a conflict with what it threw. */
  lemma {:induction false} TakenInTurn<S, P>(reducer: (S, Event<P>) -> Attempt<S>, base: S, events: seq<Event<P>>,
                                             states: seq<S>)
    requires |states| == |events| + 1 && states[0] == base
    requires forall i :: 0 <= i < |events| ==>
      states[i + 1] == match reducer(states[i], events[i]) case Applied(s) => s case Threw(_) => states[i]
    ensures TakeAll(reducer, base, events).finalState == states[|events|]
    ensures forall id, error :: (id, error) in TakeAll(reducer, base, events).conflicts <==>
      exists i :: 0 <= i < |events| && events[i].id == id && reducer(states[i], events[i]) == Threw(error)
  {
    if events != [] {
      var n := |events| - 1;
      TakenInTurn(reducer, base, events[..n], states[..n + 1]);
    }
  }

  method Merge<S, P>(idLe: (string, string) -> bool, reducer: (S, Event<P>) -> Attempt<S>, baseState: S,
                     incomingEvents: seq<Event<P>>)
    returns (r: MergeResult<S>)
    ensures r == TakeAll(reducer, baseState, CausalOrder(idLe, incomingEvents))
    ensures r.eventsApplied + |r.conflicts| == |incomingEvents|
    ensures r.success <==> r.conflicts == []
  {
    var finalState := baseState;
    var conflicts: seq<(string, string)> := [];
    var eventsApplied := 0;
    var ordered := CausalOrder(idLe, incomingEvents);
    SortPermutes(incomingEvents, EventLe(idLe));
    for i := 0 to |ordered|
      invariant TakeAll(reducer, baseState, ordered[..i]) ==
        MergeResult(|conflicts| == 0, eventsApplied, conflicts, finalState)
      invariant eventsApplied + |conflicts| == i
    {
      assert ordered[..i + 1][..i] == ordered[..i];
      match reducer(finalState, ordered[i]) {
        case Applied(s) =>
          finalState := s;
          eventsApplied := eventsApplied + 1;
        case Threw(error) =>
          conflicts := conflicts + [(ordered[i].id, error)];
      }
    }
    assert ordered[..|ordered|] == ordered;
    r := MergeResult(|conflicts| == 0, eventsApplied, conflicts, finalState);
  }

  // ---------------------------------------------- one order for every arrival order

  /** The comparison answers 0. The identifiers need not be equal for that: `localeCompare`
      ranks the composed and the decomposed form of an accented letter alike. */
  predicate SameKey<P>(idLe: (string, string) -> bool, a: Event<P>, b: Event<P>) {
    Time(a) == Time(b) && idLe(a.id, b.id) && idLe(b.id, a.id)
  }

  /** Two events of the batch that rank alike are one and the same. */
  ghost predicate KeysFixEvents<P>(idLe: (string, string) -> bool, s: seq<Event<P>>) {
    forall i, j :: 0 <= i < j < |s| && SameKey(idLe, s[i], s[j]) ==> s[i] == s[j]
  }

  ghost predicate KeySorted<P>(idLe: (string, string) -> bool, s: seq<Event<P>>) {
    forall i, j :: 0 <= i < j < |s| ==> Before(idLe, s[i], s[j])
  }

  lemma EventLePreorder<P(!new)>(idLe: (string, string) -> bool)
    requires TotalPreorder(idLe)
    ensures TotalPreorder(EventLe<P>(idLe))
  {
    forall a: Event<P>, b: Event<P> ensures Before(idLe, a, b) || Before(idLe, b, a) {
      BeforeOrder(idLe, a, b);
    }
  }

  lemma BeforeOrder<P>(idLe: (string, string) -> bool, a: Event<P>, b: Event<P>)
    requires TotalPreorder(idLe)
    ensures Before(idLe, a, b) || Before(idLe, b, a)
    ensures Before(idLe, a, b) && Before(idLe, b, a) <==> SameKey(idLe, a, b)
  {
    assert idLe(a.id, b.id) || idLe(b.id, a.id);
  }

  /** Events that rank alike compare alike with every other. */
  lemma RanksAlike<P>(idLe: (string, string) -> bool, x: Event<P>, y: Event<P>, z: Event<P>)
    requires TotalPreorder(idLe) && SameKey(idLe, x, y)
    ensures Before(idLe, x, z) <==> Before(idLe, y, z)
  {
  }

  lemma SortKeySorted<P(!new)>(idLe: (string, string) -> bool, s: seq<Event<P>>)
    requires TotalPreorder(idLe)
    ensures KeySorted(idLe, CausalOrder(idLe, s))
  {
    EventLePreorder<P>(idLe);
    SortSorts(s, EventLe(idLe));
  }

  /** The order itself: the events of the batch, timestamps not decreasing, one that is missing
      read as 0; at one timestamp no identifier after a later one; and events the comparison
      does not tell apart as they arrived. */
  lemma OrderExactly<P(!new)>(idLe: (string, string) -> bool, events: seq<Event<P>>, x: Event<P>)
    requires TotalPreorder(idLe)
    ensures var order := CausalOrder(idLe, events);
      && multiset(order) == multiset(events)
      && forall i, j :: 0 <= i < j < |order| ==>
           var s, t := order[i].timestamp, order[j].timestamp;
           var p, q := if s == None then 0 else s.value, if t == None then 0 else t.value;
           p < q || (p == q && idLe(order[i].id, order[j].id))
    ensures Alike(CausalOrder(idLe, events), x, EventLe(idLe)) == Alike(events, x, EventLe(idLe))
  {
    SortPermutes(events, EventLe(idLe));
    SortKeySorted(idLe, events);
    EventLePreorder<P>(idLe);
    SortStable(events, x, EventLe(idLe));
  }

  lemma HeadsAgree<P>(idLe: (string, string) -> bool, a: seq<Event<P>>, b: seq<Event<P>>)
    requires TotalPreorder(idLe) && KeySorted(idLe, a) && KeySorted(idLe, b)
    requires multiset(a) == multiset(b) && KeysFixEvents(idLe, a) && a != [] && b != []
    ensures a[0] == b[0]
  {
    hide TotalPreorder, Before;
    SameMembers(a, b, b[0]);
    SameMembers(a, b, a[0]);
    var i :| 0 <= i < |a| && a[i] == b[0];
    var j :| 0 <= j < |b| && b[j] == a[0];
    if i > 0 && j > 0 {
      BeforeOrder(idLe, a[0], b[0]);
    }
  }

  lemma TailSorted<P>(idLe: (string, string) -> bool, s: seq<Event<P>>)
    requires KeySorted(idLe, s) && s != []
    ensures KeySorted(idLe, s[1..])
    ensures KeysFixEvents(idLe, s) ==> KeysFixEvents(idLe, s[1..])
  {
    hide Before, SameKey;
  }

  lemma {:induction false} KeySortedUnique<P>(idLe: (string, string) -> bool, a: seq<Event<P>>, b: seq<Event<P>>)
    requires TotalPreorder(idLe) && KeySorted(idLe, a) && KeySorted(idLe, b)
    requires multiset(a) == multiset(b) && KeysFixEvents(idLe, a)
    ensures a == b
  {
    hide TotalPreorder, Before, SameKey;
    assert |multiset(a)| == |a| && |multiset(b)| == |b|;
    if a != [] {
      HeadsAgree(idLe, a, b);
      TailMultiset(a);
      TailMultiset(b);
      TailSorted(idLe, a);
      TailSorted(idLe, b);
      hide KeySorted, KeysFixEvents;
      KeySortedUnique(idLe, a[1..], b[1..]);
      assert a == [a[0]] + a[1..] && b == [b[0]] + b[1..];
    }
  }

  lemma PermutedKeys<P>(idLe: (string, string) -> bool, a: seq<Event<P>>, b: seq<Event<P>>)
    requires multiset(a) == multiset(b) && KeysFixEvents(idLe, a)
    ensures KeysFixEvents(idLe, b)
  {
    forall i, j | 0 <= i < j < |b| && SameKey(idLe, b[i], b[j]) ensures b[i] == b[j] {
      SameMembers(a, b, b[i]);
      SameMembers(a, b, b[j]);
      var k :| 0 <= k < |a| && a[k] == b[i];
      var m :| 0 <= m < |a| && a[m] == b[j];
      assert k < m ==> a[k] == a[m];
      assert m < k ==> a[m] == a[k];
    }
  }

  /** A permuted batch is put in the same order, so it gives the same final state, the same
      count and the same conflicts in the same order, whatever the reducer does. */
  lemma MergeIgnoresArrival<S, P(!new)>(idLe: (string, string) -> bool, reducer: (S, Event<P>) -> Attempt<S>, base: S,
                                  a: seq<Event<P>>, b: seq<Event<P>>)
    requires TotalPreorder(idLe) && multiset(a) == multiset(b) && KeysFixEvents(idLe, a)
    ensures CausalOrder(idLe, a) == CausalOrder(idLe, b)
    ensures TakeAll(reducer, base, CausalOrder(idLe, a)) == TakeAll(reducer, base, CausalOrder(idLe, b))
  {
    SortPermutes(a, EventLe(idLe));
    SortPermutes(b, EventLe(idLe));
    SortKeySorted(idLe, a);
    SortKeySorted(idLe, b);
    PermutedKeys(idLe, a, CausalOrder(idLe, a));
    KeySortedUnique(idLe, CausalOrder(idLe, a), CausalOrder(idLe, b));
  }

  /** Two different elements that compare alike with everything keep the order they came in. */
  lemma {:induction false} TwoInserts<T>(x: T, y: T, s: seq<T>, le: (T, T) -> bool)
    requires x != y && le(x, y) && le(y, x) && forall i :: 0 <= i < |s| ==> (le(x, s[i]) <==> le(y, s[i]))
    ensures Insert(x, Insert(y, s, le), le) != Insert(y, Insert(x, s, le), le)
  {
    if s == [] {
      assert Insert(x, [y], le) == [x] + [y] && Insert(y, [x], le) == [y] + [x];
      assert ([x] + [y])[0] == x && ([y] + [x])[0] == y;
    } else if le(x, s[0]) {
      assert le(y, s[0]);
      assert ([x] + ([y] + s))[0] == x && ([y] + ([x] + s))[0] == y;
    } else {
      TwoInserts(x, y, s[1..], le);
      var u, v := Insert(y, s[1..], le), Insert(x, s[1..], le);
      assert ([s[0]] + u)[1..] == u && ([s[0]] + v)[1..] == v;
      assert ([s[0]] + Insert(x, u, le))[1..] == Insert(x, u, le);
      assert ([s[0]] + Insert(y, v, le))[1..] == Insert(y, v, le);
    }
  }

  lemma TwoFirst<T>(a: seq<T>, i: nat, j: nat) returns (rest: seq<T>)
    requires i < j < |a|
    ensures multiset([a[i]] + ([a[j]] + rest)) == multiset(a) == multiset([a[j]] + ([a[i]] + rest))
  {
    var p, q, r := a[..i], a[i + 1..j], a[j + 1..];
    rest := p + q + r;
    assert a == p + [a[i]] + q + [a[j]] + r;
    assert multiset(a) == multiset(p) + multiset{a[i]} + multiset(q) + multiset{a[j]} + multiset(r);
    assert multiset(rest) == multiset(p) + multiset(q) + multiset(r);
  }

  lemma SortTwo<T>(x: T, y: T, rest: seq<T>, le: (T, T) -> bool)
    ensures SortBy([x] + ([y] + rest), le) == Insert(x, Insert(y, SortBy(rest, le), le), le)
  {
    assert ([x] + ([y] + rest))[1..] == [y] + rest && ([y] + rest)[1..] == rest;
  }

  /** The two orders of arrival of two different events with one key. */
  lemma KeyShared<P(!new)>(idLe: (string, string) -> bool, a: seq<Event<P>>, i: nat, j: nat)
    returns (u: seq<Event<P>>, v: seq<Event<P>>)
    requires TotalPreorder(idLe) && i < j < |a| && SameKey(idLe, a[i], a[j]) && a[i] != a[j]
    ensures multiset(u) == multiset(v) == multiset(a) && CausalOrder(idLe, u) != CausalOrder(idLe, v)
  {
    hide SortBy, Insert, TotalOrder;
    var x, y, le := a[i], a[j], EventLe<P>(idLe);
    var rest := TwoFirst(a, i, j);
    u, v := [x] + ([y] + rest), [y] + ([x] + rest);
    SortTwo(x, y, rest, le);
    SortTwo(y, x, rest, le);
    BeforeOrder(idLe, x, y);
    forall z: Event<P> ensures le(x, z) <==> le(y, z) { RanksAlike(idLe, x, y, z); }
    TwoInserts(x, y, SortBy(rest, le), le);
  }

  /** A reducer that records what it is given. */
  function Record<P>(): (seq<Event<P>>, Event<P>) -> Attempt<seq<Event<P>>> {
    (s: seq<Event<P>>, e: Event<P>) => Applied(s + [e])
  }

  lemma {:induction false} Recorded<P>(order: seq<Event<P>>)
    ensures TakeAll(Record<P>(), [], order).finalState == order
  {
    if order != [] {
      Recorded(order[..|order| - 1]);
      assert order == order[..|order| - 1] + [order[|order| - 1]];
    }
  }

  /** The exact condition: the order of arrival never shows, in the order taken or in what a
      reducer makes of it, if and only if events that rank alike are equal. A batch may well hold
      one event twice. */
  lemma MergeIgnoresArrivalExactly<P(!new)>(idLe: (string, string) -> bool, a: seq<Event<P>>)
    requires TotalPreorder(idLe)
    ensures KeysFixEvents(idLe, a) <==>
            forall b: seq<Event<P>> :: multiset(b) == multiset(a) ==> CausalOrder(idLe, b) == CausalOrder(idLe, a)
    ensures KeysFixEvents(idLe, a) <==>
            forall b: seq<Event<P>> :: multiset(b) == multiset(a) ==>
              TakeAll(Record<P>(), [], CausalOrder(idLe, b)) == TakeAll(Record<P>(), [], CausalOrder(idLe, a))
  {
    hide TotalPreorder, CausalOrder, Record;
    forall b: seq<Event<P>> | multiset(b) == multiset(a) && KeysFixEvents(idLe, a)
      ensures CausalOrder(idLe, b) == CausalOrder(idLe, a)
    {
      MergeIgnoresArrival(idLe, Record<P>(), [], a, b);
    }
    if i, j :| 0 <= i < j < |a| && SameKey(idLe, a[i], a[j]) && a[i] != a[j] {
      var u, v := KeyShared(idLe, a, i, j);
      Recorded(CausalOrder(idLe, u));
      Recorded(CausalOrder(idLe, v));
      assert CausalOrder(idLe, u) != CausalOrder(idLe, a) || CausalOrder(idLe, v) != CausalOrder(idLe, a);
      Recorded(CausalOrder(idLe, a));
    }
  }

  /** Two events of one timestamp whose identifiers rank alike, equal or not: the batch keeps
      its order of arrival, and a reducer that keeps the last value shows it. */
  lemma TiedIdsShowArrival(idLe: (string, string) -> bool, p: string, q: string)
    requires TotalPreorder(idLe) && idLe(p, q) && idLe(q, p)
    ensures exists a: seq<Event<int>>, b: seq<Event<int>>, reducer: (int, Event<int>) -> Attempt<int> ::
      && multiset(a) == multiset(b) && (forall e :: e in a ==> e.id == p || e.id == q)
      && TakeAll(reducer, 0, CausalOrder(idLe, a)) != TakeAll(reducer, 0, CausalOrder(idLe, b))
  {
    var x := Event(p, "k", 1, None, [], [], Some(0), None);
    var y := Event(q, "k", 2, None, [], [], Some(0), None);
    var reducer := (s: int, e: Event<int>) => Applied(e.payload);
    var a, b := [x, y], [y, x];
    assert multiset(a) == multiset(b);
    SortPair(idLe, x, y);
    SortPair(idLe, y, x);
    assert a[..1] == [x] && b[..1] == [y] && a[..1][..0] == [] && b[..1][..0] == [];
    assert TakeAll(reducer, 0, a).finalState == 2;
    assert TakeAll(reducer, 0, b).finalState == 1;
  }

  lemma SortPair(idLe: (string, string) -> bool, x: Event<int>, y: Event<int>)
    requires SameKey(idLe, x, y)
    ensures CausalOrder(idLe, [x, y]) == [x, y]
  {
    var le := EventLe<int>(idLe);
    assert [x, y][1..] == [y] && [y][1..] == [];
    assert SortBy([y], le) == [y];
  }

  // ---------------------------------------------- causality

  /** Every reference inside the batch is to an event with an earlier timestamp. */
  ghost predicate ClocksRespectCausality<P>(events: seq<Event<P>>) {
    forall p, c :: p in events && c in events && p.id in References(c) ==> Time(p) < Time(c)
  }

  /** No event comes before one it refers to. */
  ghost predicate ReferencesComeFirst<P>(order: seq<Event<P>>) {
    forall i, j :: 0 <= i < |order| && 0 <= j < |order| && order[i].id in References(order[j]) ==> i < j
  }

  lemma OrderRespectsCausality<P(!new)>(idLe: (string, string) -> bool, events: seq<Event<P>>)
    requires TotalPreorder(idLe) && ClocksRespectCausality(events)
    ensures ReferencesComeFirst(CausalOrder(idLe, events))
  {
    SortPermutes(events, EventLe(idLe));
    SortKeySorted(idLe, events);
    var order := CausalOrder(idLe, events);
    forall i, j | 0 <= i < |order| && 0 <= j < |order| && order[i].id in References(order[j]) ensures i < j {
      SameMembers(events, order, order[i]);
      SameMembers(events, order, order[j]);
      assert Time(order[i]) < Time(order[j]);
      assert i != j && !Before(idLe, order[j], order[i]);
    }
  }
}
