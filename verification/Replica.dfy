/** The replicas of the fault-injection simulation: set-like logs that must converge under
    reordered, duplicated, dropped and corrupted deliveries, merges and crashes. */
module Replicas {
  import opened Orders

  /** `stored` is the hash recorded before a possible corruption, if any. */
  datatype Event = Event(id: string, delta: int, parents: seq<string>, stored: Option<string>)

  function Ids(log: seq<Event>): set<string> {
    set e | e in log :: e.id
  }

  ghost predicate DistinctIds(log: seq<Event>) {
    forall i, j :: 0 <= i < j < |log| ==> log[i].id != log[j].id
  }

  /** `replay` with no initial amount. */
  function Sum(log: seq<Event>): int {
    if log == [] then 0 else Sum(log[..|log| - 1]) + log[|log| - 1].delta
  }

  predicate Corrupted(hash: Event -> string, e: Event) {
    e.stored.Some? && e.stored.value != hash(e)
  }

  datatype Node = Node(log: seq<Event>, seen: set<string>, rejected: seq<string>)

  function Received(hash: Event -> string, n: Node, e: Event, validate: bool): Node {
    if e.id in n.seen then n
    else if validate && Corrupted(hash, e) then n.(rejected := n.rejected + [e.id])
    else n.(log := n.log + [e], seen := n.seen + {e.id})
  }

  function MergedWith(hash: Event -> string, n: Node, remote: seq<Event>): Node {
    if remote == [] then n
    else Received(hash, MergedWith(hash, n, remote[..|remote| - 1]), remote[|remote| - 1], true)
  }

  function Kept(log: seq<Event>, seen: set<string>): seq<Event> {
    if log == [] then []
    else Kept(log[..|log| - 1], seen) + if log[|log| - 1].id in seen then [log[|log| - 1]] else []
  }

  class Replica {
    const hash: Event -> string
    var log: seq<Event>
    var seen: set<string>
    var rejected: seq<string>

    ghost function Model(): Node
      reads this
    {
      Node(log, seen, rejected)
    }

    constructor (hash: Event -> string)
      ensures Model() == Node([], {}, []) && this.hash == hash
    {
      this.hash := hash;
      log := [];
      seen := {};
      rejected := [];
    }

    method Receive(e: Event, validate: bool) returns (accepted: bool)
      modifies this
      ensures Model() == Received(hash, old(Model()), e, validate)
      ensures accepted <==>
        e.id !in old(seen) && !(validate && e.stored.Some? && e.stored.value != hash(e))
      ensures accepted ==> log == old(log) + [e] && seen == old(seen) + {e.id} && rejected == old(rejected)
      ensures !accepted ==>
        && log == old(log) && seen == old(seen)
        && rejected == old(rejected) + if e.id in old(seen) then [] else [e.id]
    {
      if e.id in seen {
        return false;
      }
      if validate {
        if e.stored.Some? && e.stored.value != hash(e) {
          rejected := rejected + [e.id];
          return false;
        }
      }
      log := log + [e];
      seen := seen + {e.id};
      accepted := true;
    }

    /** A replica may merge itself: every identifier of its log has been seen, so the log it
        walks does not grow under it. */
    method Merge(remote: Replica) returns (applied: nat)
      modifies this
      ensures Model() == MergedWith(hash, old(Model()), old(remote.log))
      ensures applied == |log| - |old(log)|
      ensures old(log) <= log && forall e :: e in log[|old(log)|..] ==>
        e in old(remote.log) && e.id !in old(seen) && !Corrupted(hash, e)
    {
      applied := 0;
      MergeAppends(hash, Model(), remote.log);
      var events := remote.log;
      for i := 0 to |events|
        invariant Model() == MergedWith(hash, old(Model()), events[..i])
        invariant applied == |log| - |old(log)|
      {
        assert events[..i + 1][..i] == events[..i];
        var accepted := Receive(events[i], true);
        if accepted {
          applied := applied + 1;
        }
      }
      assert events[..|events|] == events;
    }

    method State() returns (r: int)
      ensures r == Sum(log)
    {
      r := 0;
      for i := 0 to |log|
        invariant r == Sum(log[..i])
      {
        assert log[..i + 1][..i] == log[..i];
        r := r + log[i].delta;
      }
      assert log[..|log|] == log;
    }

    /** The recorded state is passed in and ignored, as in the source. */
    method RestoreFromSnapshot(state: int, seenIds: set<string>, fullLog: seq<Event>)
      modifies this
      ensures Model() == Node(Kept(fullLog, seenIds), seenIds, old(rejected))
      ensures forall e :: multiset(log)[e] == if e.id in seenIds then multiset(fullLog)[e] else 0
    {
      var kept: seq<Event> := [];
      for i := 0 to |fullLog|
        invariant kept == Kept(fullLog[..i], seenIds)
      {
        assert fullLog[..i + 1][..i] == fullLog[..i];
        if fullLog[i].id in seenIds {
          kept := kept + [fullLog[i]];
        }
      }
      assert fullLog[..|fullLog|] == fullLog;
      forall e ensures multiset(kept)[e] == if e.id in seenIds then multiset(fullLog)[e] else 0 {
        KeptCount(fullLog, seenIds, e);
      }
      log := kept;
      seen := seenIds;
    }
  }

  lemma {:induction false} KeptCount(log: seq<Event>, seen: set<string>, e: Event)
    ensures multiset(Kept(log, seen))[e] == if e.id in seen then multiset(log)[e] else 0
  {
    if log != [] {
      KeptCount(log[..|log| - 1], seen, e);
      assert log == log[..|log| - 1] + [log[|log| - 1]];
    }
  }

  /** A merge only appends, and only sound events of the remote log that were not seen. */
  lemma {:induction false} MergeAppends(hash: Event -> string, n: Node, remote: seq<Event>)
    ensures var after := MergedWith(hash, n, remote);
      && n.log <= after.log && n.seen <= after.seen
      && forall e :: e in after.log[|n.log|..] ==> e in remote && e.id !in n.seen && !Corrupted(hash, e)
  {
    if remote != [] {
      MergeAppends(hash, n, remote[..|remote| - 1]);
      assert remote == remote[..|remote| - 1] + [remote[|remote| - 1]];
    }
  }

  // ------------------------------------------------------- one replica

  ghost predicate Consistent(n: Node) {
    DistinctIds(n.log) && n.seen == Ids(n.log)
  }

  /** Every logged event is the one its identifier stands for. */
  ghost predicate Faithful(n: Node, world: map<string, int>) {
    forall e :: e in n.log ==> e.id in world && world[e.id] == e.delta
  }

  ghost function SetSum(ids: set<string>, world: map<string, int>): int
    requires ids <= world.Keys
  {
    if ids == {} then 0 else
      var x :| x in ids;
      world[x] + SetSum(ids - {x}, world)
  }

  lemma {:induction false} SetSumRemove(ids: set<string>, world: map<string, int>, x: string)
    requires ids <= world.Keys && x in ids
    ensures SetSum(ids, world) == world[x] + SetSum(ids - {x}, world)
    decreases |ids|
  {
    var y :| y in ids && SetSum(ids, world) == world[y] + SetSum(ids - {y}, world);
    if y != x {
      SetSumRemove(ids - {y}, world, x);
      SetSumRemove(ids - {x}, world, y);
      assert ids - {y} - {x} == ids - {x} - {y};
    }
  }

  /** A consistent log adds up to the sum over the set of identifiers it holds: the order of
      delivery is gone. */
  lemma {:induction false} SumIsSetSum(log: seq<Event>, world: map<string, int>)
    requires DistinctIds(log) && forall e :: e in log ==> e.id in world && world[e.id] == e.delta
    ensures Ids(log) <= world.Keys && Sum(log) == SetSum(Ids(log), world)
  {
    if log != [] {
      var init, last := log[..|log| - 1], log[|log| - 1];
      assert log == init + [last];
      SumIsSetSum(init, world);
      assert Ids(log) == Ids(init) + {last.id};
      assert last.id !in Ids(init);
      SetSumRemove(Ids(log), world, last.id);
      assert Ids(log) - {last.id} == Ids(init);
    }
  }

  lemma StateIsSetSum(n: Node, world: map<string, int>)
    requires Consistent(n) && Faithful(n, world)
    ensures n.seen <= world.Keys && Sum(n.log) == SetSum(n.seen, world)
  {
    SumIsSetSum(n.log, world);
  }

  lemma ReceiveKeeps(hash: Event -> string, n: Node, e: Event, validate: bool)
    requires Consistent(n)
    ensures Consistent(Received(hash, n, e, validate))
  {
    var after := Received(hash, n, e, validate);
    if after.log != n.log {
      assert forall x :: x in after.log <==> x in n.log || x == e;
      forall i | 0 <= i < |n.log| ensures n.log[i].id != e.id {
        assert n.log[i] in n.log;
      }
    }
  }

  lemma {:induction false} MergeKeeps(hash: Event -> string, n: Node, remote: seq<Event>)
    requires Consistent(n)
    ensures Consistent(MergedWith(hash, n, remote))
    ensures forall e :: e in MergedWith(hash, n, remote).log ==> e in n.log || e in remote
    ensures n.seen <= MergedWith(hash, n, remote).seen
    decreases |remote|
  {
    if remote != [] {
      var init := remote[..|remote| - 1];
      MergeKeeps(hash, n, init);
      ReceiveKeeps(hash, MergedWith(hash, n, init), remote[|remote| - 1], true);
      assert remote == init + [remote[|remote| - 1]];
    }
  }

  /** Merging a remote log leaves out exactly the events that fail their hash and whose
      identifier no sound copy brings in. */
  lemma {:induction false} MergeSeen(hash: Event -> string, n: Node, remote: seq<Event>)
    ensures MergedWith(hash, n, remote).seen == n.seen + (set e | e in remote && !Corrupted(hash, e) :: e.id)
    decreases |remote|
  {
    if remote != [] {
      var init, last := remote[..|remote| - 1], remote[|remote| - 1];
      MergeSeen(hash, n, init);
      assert remote == init + [last];
      var before := set e | e in init && !Corrupted(hash, e) :: e.id;
      assert (set e | e in remote && !Corrupted(hash, e) :: e.id) ==
             before + if Corrupted(hash, last) then {} else {last.id};
    }
  }

  // ------------------------------------------------------- any number of replicas

  datatype Step =
    | Deliver(to: nat, event: Event, validate: bool)
    | Pull(to: nat, from: nat)

  /** Deliveries in any order, any number of times or never; merges between any two. */
  function RunSteps(hash: Event -> string, count: nat, steps: seq<Step>): (nodes: seq<Node>)
    ensures |nodes| == count
  {
    if steps == [] then seq(count, i => Node([], {}, []))
    else
      var before := RunSteps(hash, count, steps[..|steps| - 1]);
      match steps[|steps| - 1]
      case Deliver(to, e, validate) =>
        if to < count then before[to := Received(hash, before[to], e, validate)] else before
      case Pull(to, from) =>
        if to < count && from < count then before[to := MergedWith(hash, before[to], before[from].log)] else before
  }

  /** What is delivered is the event its identifier stands for, unless the check catches it. */
  ghost predicate Sound(hash: Event -> string, steps: seq<Step>, world: map<string, int>) {
    forall i :: 0 <= i < |steps| && steps[i].Deliver? && !(steps[i].validate && Corrupted(hash, steps[i].event)) ==>
      steps[i].event.id in world && world[steps[i].event.id] == steps[i].event.delta
  }

  lemma {:induction false} RunKeeps(hash: Event -> string, count: nat, steps: seq<Step>, world: map<string, int>)
    requires Sound(hash, steps, world)
    ensures forall i :: 0 <= i < count ==>
      Consistent(RunSteps(hash, count, steps)[i]) && Faithful(RunSteps(hash, count, steps)[i], world)
    decreases |steps|
  {
    if steps != [] {
      var init := steps[..|steps| - 1];
      assert forall i :: 0 <= i < |init| ==> init[i] == steps[i];
      RunKeeps(hash, count, init, world);
      var before := RunSteps(hash, count, init);
      match steps[|steps| - 1] {
        case Deliver(to, e, validate) =>
          if to < count { ReceiveKeeps(hash, before[to], e, validate); }
        case Pull(to, from) =>
          if to < count && from < count { MergeKeeps(hash, before[to], before[from].log); }
      }
    }
  }

  /** Any schedule, any replicas: logs stay duplicate-free, and equal sets of identifiers mean
      equal states. */
  lemma SameIdsSameState(hash: Event -> string, count: nat, steps: seq<Step>, world: map<string, int>, a: nat, b: nat)
    requires Sound(hash, steps, world) && a < count && b < count
    ensures var nodes := RunSteps(hash, count, steps);
            && Consistent(nodes[a])
            && (nodes[a].seen == nodes[b].seen ==> Sum(nodes[a].log) == Sum(nodes[b].log))
  {
    RunKeeps(hash, count, steps, world);
    var nodes := RunSteps(hash, count, steps);
    StateIsSetSum(nodes[a], world);
    StateIsSetSum(nodes[b], world);
  }

  /** No logged event fails the hash check: then a merge brings in everything. */
  ghost predicate Clean(hash: Event -> string, n: Node) {
    forall e :: e in n.log ==> !Corrupted(hash, e)
  }

  /** Two replicas that merge each other hold the union and agree, after any schedule. */
  lemma MutualMergeAgrees(hash: Event -> string, count: nat, steps: seq<Step>, world: map<string, int>, a: nat, b: nat)
    requires Sound(hash, steps, world) && a < count && b < count && a != b
    requires Clean(hash, RunSteps(hash, count, steps)[a]) && Clean(hash, RunSteps(hash, count, steps)[b])
    ensures var nodes := RunSteps(hash, count, steps);
            var x := MergedWith(hash, nodes[a], nodes[b].log);
            var y := MergedWith(hash, nodes[b], x.log);
            x.seen == y.seen == nodes[a].seen + nodes[b].seen && Sum(x.log) == Sum(y.log)
  {
    var nodes := RunSteps(hash, count, steps);
    RunKeeps(hash, count, steps, world);
    var x := MergedWith(hash, nodes[a], nodes[b].log);
    var y := MergedWith(hash, nodes[b], x.log);
    MergeKeeps(hash, nodes[a], nodes[b].log);
    MergeKeeps(hash, nodes[b], x.log);
    MergeSeen(hash, nodes[a], nodes[b].log);
    MergeSeen(hash, nodes[b], x.log);
    assert (set e | e in nodes[b].log && !Corrupted(hash, e) :: e.id) == nodes[b].seen;
    assert (set e | e in x.log && !Corrupted(hash, e) :: e.id) == x.seen;
    StateIsSetSum(x, world);
    StateIsSetSum(y, world);
  }

  // ------------------------------------------------------- crash and rejoin

  lemma {:induction false} KeptMembers(log: seq<Event>, seen: set<string>, e: Event)
    ensures e in Kept(log, seen) <==> e in log && e.id in seen
  {
    if log != [] {
      KeptMembers(log[..|log| - 1], seen, e);
      assert log == log[..|log| - 1] + [log[|log| - 1]];
    }
  }

  /** How often the log holds that identifier. */
  function Occurrences(log: seq<Event>, id: string): nat {
    if log == [] then 0
    else Occurrences(log[..|log| - 1], id) + if log[|log| - 1].id == id then 1 else 0
  }

  lemma {:induction false} KeptOccurrences(log: seq<Event>, seen: set<string>, id: string)
    ensures Occurrences(Kept(log, seen), id) == if id in seen then Occurrences(log, id) else 0
  {
    if log != [] {
      var init := log[..|log| - 1];
      KeptOccurrences(init, seen, id);
      if log[|log| - 1].id in seen {
        assert (Kept(init, seen) + [log[|log| - 1]])[..|Kept(init, seen)|] == Kept(init, seen);
      } else {
        assert Kept(log, seen) == Kept(init, seen) + [] == Kept(init, seen);
      }
    }
  }

  lemma {:induction false} OccursIfHeld(log: seq<Event>, id: string)
    ensures Occurrences(log, id) > 0 <==> id in Ids(log)
  {
    if log != [] {
      OccursIfHeld(log[..|log| - 1], id);
      assert log == log[..|log| - 1] + [log[|log| - 1]];
      assert forall e :: e in log <==> e in log[..|log| - 1] || e == log[|log| - 1];
    }
  }

  ghost predicate AtMostOnce(log: seq<Event>) {
    forall id :: Occurrences(log, id) <= 1
  }

  lemma {:induction false} DistinctOccurrences(log: seq<Event>)
    ensures DistinctIds(log) <==> AtMostOnce(log)
  {
    if log != [] {
      DistinctOccurrences(log[..|log| - 1]);
      DistinctSnoc(log);
      AtMostOnceSnoc(log);
    }
  }

  lemma DistinctSnoc(log: seq<Event>)
    requires log != []
    ensures var init := log[..|log| - 1];
            DistinctIds(log) <==> DistinctIds(init) && log[|log| - 1].id !in Ids(init)
  {
    var n := |log| - 1;
    var init := log[..n];
    if DistinctIds(log) {
      forall e | e in init ensures e.id != log[n].id {
        var i :| 0 <= i < n && init[i] == e;
      }
    }
    if DistinctIds(init) && log[n].id !in Ids(init) {
      forall i, j | 0 <= i < j < |log| ensures log[i].id != log[j].id {
        assert init[i] in init;
        assert j < n ==> log[j] == init[j];
      }
    }
  }

  lemma AtMostOnceSnoc(log: seq<Event>)
    requires log != []
    ensures var init := log[..|log| - 1];
            AtMostOnce(log) <==> AtMostOnce(init) && log[|log| - 1].id !in Ids(init)
  {
    var init, last := log[..|log| - 1], log[|log| - 1];
    OccursIfHeld(init, last.id);
    if AtMostOnce(log) {
      forall id ensures Occurrences(init, id) <= 1 { assert Occurrences(log, id) <= 1; }
      assert Occurrences(log, last.id) <= 1;
    }
    if AtMostOnce(init) && last.id !in Ids(init) {
      forall id ensures Occurrences(log, id) <= 1 { assert Occurrences(init, id) <= 1; }
    }
  }

  /** A restored replica is consistent exactly when the log it is rebuilt from holds each
      identifier of the snapshot once: none missing, none repeated. */
  lemma RestoreExactly(rejected: seq<string>, seen: set<string>, fullLog: seq<Event>)
    ensures Consistent(Node(Kept(fullLog, seen), seen, rejected)) <==>
      forall id :: id in seen ==> Occurrences(fullLog, id) == 1
  {
    var kept := Kept(fullLog, seen);
    DistinctOccurrences(kept);
    forall id
      ensures Occurrences(kept, id) == if id in seen then Occurrences(fullLog, id) else 0
      ensures Occurrences(kept, id) > 0 <==> id in Ids(kept)
    {
      KeptOccurrences(fullLog, seen, id);
      OccursIfHeld(kept, id);
    }
    hide Ids, Kept, DistinctIds;
    if AtMostOnce(kept) && seen == Ids(kept) {
      forall id | id in seen ensures Occurrences(fullLog, id) == 1 {
        assert Occurrences(kept, id) <= 1;
      }
    }
    if forall id :: id in seen ==> Occurrences(fullLog, id) == 1 {
      assert AtMostOnce(kept);
      assert forall id :: id in seen <==> id in Ids(kept);
    }
  }

  lemma RestoredIsFaithful(seen: set<string>, fullLog: seq<Event>, world: map<string, int>)
    requires forall id :: id in seen ==> Occurrences(fullLog, id) == 1
    requires forall e :: e in fullLog && e.id in seen ==> e.id in world && world[e.id] == e.delta
    ensures Consistent(Node(Kept(fullLog, seen), seen, [])) && Faithful(Node(Kept(fullLog, seen), seen, []), world)
  {
    hide Consistent, Kept, Occurrences;
    RestoreExactly([], seen, fullLog);
    forall e | e in Kept(fullLog, seen) ensures e.id in world && world[e.id] == e.delta {
      KeptMembers(fullLog, seen, e);
    }
  }

  lemma CleanIds(hash: Event -> string, n: Node)
    requires Consistent(n) && Clean(hash, n)
    ensures (set e | e in n.log && !Corrupted(hash, e) :: e.id) == n.seen
  {
  }

  /** Snapshot, crash, restore, merge with the origin: the rejoined replica is in the origin's
      state when the origin holds the snapshot's events. */
  lemma RejoinReachesOrigin(hash: Event -> string, origin: Node, crashed: Node, fullLog: seq<Event>,
                            world: map<string, int>)
    requires Consistent(origin) && Faithful(origin, world) && Clean(hash, origin)
    requires Consistent(crashed) && crashed.seen <= origin.seen
    requires forall id :: id in crashed.seen ==> Occurrences(fullLog, id) == 1
    requires forall e :: e in fullLog && e.id in crashed.seen ==> e.id in world && world[e.id] == e.delta
    ensures var restored := Node(Kept(fullLog, crashed.seen), crashed.seen, []);
            var rejoined := MergedWith(hash, restored, origin.log);
            rejoined.seen == origin.seen && Sum(rejoined.log) == Sum(origin.log)
  {
    RestoredIsFaithful(crashed.seen, fullLog, world);
    CleanIds(hash, origin);
    hide Consistent, Faithful, Clean, Kept, Occurrences, MergedWith, Sum;
    var restored := Node(Kept(fullLog, crashed.seen), crashed.seen, []);
    var rejoined := MergedWith(hash, restored, origin.log);
    RejoinedIsFaithful(hash, restored, origin, world);
    MergeSeen(hash, restored, origin.log);
    StateIsSetSum(rejoined, world);
    StateIsSetSum(origin, world);
  }

  lemma RejoinedIsFaithful(hash: Event -> string, restored: Node, origin: Node, world: map<string, int>)
    requires Consistent(restored) && Faithful(restored, world)
    requires Faithful(origin, world)
    ensures var rejoined := MergedWith(hash, restored, origin.log); Consistent(rejoined) && Faithful(rejoined, world)
  {
    hide Consistent, MergedWith;
    MergeKeeps(hash, restored, origin.log);
  }

  /** A log that misses part of the snapshot: the replica counts the missing identifier as
      seen, so no merge ever brings the event back. */
  lemma UncoveredSnapshotStaysBehind()
    ensures var e := Event("e", 1, [], None);
            var origin := Node([e], {"e"}, []);
            var restored := Node(Kept([], {"e"}), {"e"}, []);
            Sum(MergedWith((x: Event) => "h", restored, origin.log).log) == 0 != Sum(origin.log)
  {
    var e := Event("e", 1, [], None);
    assert [e][..0] == [];
    assert MergedWith((x: Event) => "h", Node([], {"e"}, []), []) == Node([], {"e"}, []);
  }
}
