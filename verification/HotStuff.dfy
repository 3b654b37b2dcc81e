/** Quorum certificates and equivocation in the HotStuff-style consensus: stake sums with a
    floor, certificates cut from the pending votes, and how much equivocating stake two
    conflicting certificates are bound to expose. */
module HotStuff {
  import opened Orders

  datatype Phase = Prepare | PreCommit | Commit

  datatype Validator = Validator(id: string, stake: nat)

  /** The signature is carried by the vote; checking it is the `verify` parameter. */
  datatype Vote = Vote(blockHash: string, view: int, phase: Phase, validatorId: string, signature: string)

  datatype Certificate = Certificate(blockHash: string, view: int, phase: Phase, votes: seq<Vote>, totalStake: nat)

  type Stakes = map<string, nat>

  ghost function StakeOf(stakes: Stakes, ids: set<string>): nat {
    if ids == {} then 0 else
      var x :| x in ids;
      (if x in stakes then stakes[x] else 0) + StakeOf(stakes, ids - {x})
  }

  function VoteStake(stakes: Stakes, v: Vote): nat {
    if v.validatorId in stakes then stakes[v.validatorId] else 0
  }

  function Voters(votes: seq<Vote>): set<string> {
    set v | v in votes :: v.validatorId
  }

  function ConfigStake(validators: seq<Validator>): nat {
    if validators == [] then 0 else ConfigStake(validators[..|validators| - 1]) + validators[|validators| - 1].stake
  }

  ghost predicate DistinctValidators(validators: seq<Validator>) {
    forall i, j :: 0 <= i < j < |validators| ==> validators[i].id != validators[j].id
  }

  function Quorum(total: nat): nat {
    total * 2 / 3
  }

  class HotStuffConsensus {
    var validators: Stakes
    var totalStake: nat
    var quorumStake: nat
    var currentView: int
    var pendingVotes: map<string, map<string, Vote>>
    const verify: Vote -> bool
    // the votes since the last commit, refused ones included, in order of arrival
    ghost var received: seq<Vote>

    /** Votes are filed under their own block and validator, their validators are known, and on
        file is each validator's last verified vote on each block. */
    ghost predicate Valid()
      reads this
    {
      && quorumStake == Quorum(totalStake)
      && (forall b :: b in pendingVotes ==> WellFiled(b, pendingVotes[b], validators))
      && Tracks(pendingVotes, validators, verify, received)
    }

    constructor (config: seq<Validator>, verify: Vote -> bool)
      ensures Valid() && totalStake == ConfigStake(config) && pendingVotes == map[] && currentView == 0
      ensures received == [] && this.verify == verify
      ensures DistinctValidators(config) ==> totalStake == StakeOf(validators, validators.Keys)
      ensures forall id :: id in validators <==> exists i :: 0 <= i < |config| && config[i].id == id
    {
      this.verify := verify;
      currentView := 0;
      pendingVotes := map[];
      received := [];
      var table: Stakes := map[];
      var total := 0;
      for i := 0 to |config|
        invariant total == ConfigStake(config[..i])
        invariant forall id :: id in table <==> exists k :: 0 <= k < i && config[k].id == id
        invariant DistinctValidators(config) ==> total == StakeOf(table, table.Keys)
      {
        assert config[..i + 1][..i] == config[..i];
        if DistinctValidators(config) {
          StakeInsert(table, config[i].id, config[i].stake);
        }
        table := table[config[i].id := config[i].stake];
        total := total + config[i].stake;
      }
      assert config[..|config|] == config;
      validators := table;
      totalStake := total;
      quorumStake := total * 2 / 3;
    }

    /** Files a verified vote, replacing any earlier vote of that validator on that block, and
        looks for a quorum. `None` covers the unverified vote and the missing quorum. There is a
        certificate exactly when the validators whose last verified vote on the block, since the
        last commit, is of this vote's phase carry the quorum; it is signed by just those. */
    method OnVote(vote: Vote) returns (qc: Option<Certificate>)
      requires Valid()
      modifies this`pendingVotes, this`received
      ensures Valid() && received == old(received) + [vote]
      ensures qc.Some? <==>
        vote.validatorId in validators && verify(vote) &&
          quorumStake <= StakeOf(validators, Signers(validators, verify, received, vote.blockHash, vote.phase))
      ensures qc.Some? ==> Voters(qc.value.votes) == Signers(validators, verify, received, vote.blockHash, vote.phase)
      ensures pendingVotes == Filed(old(pendingVotes), validators, verify, vote)
      ensures qc.Some? <==>
        vote.validatorId in validators && verify(vote) &&
          quorumStake <= StakeOf(validators, PhaseVoters(pendingVotes[vote.blockHash], vote.phase))
      ensures qc.Some? ==> Certifies(qc.value, validators, quorumStake)
      ensures qc.Some? ==>
        (qc.value.blockHash, qc.value.phase, qc.value.view) == (vote.blockHash, vote.phase, currentView)
    {
      hide StakeOf, Certifies, Tracks, WellFiled, Voters;
      FiledIsLast(pendingVotes, validators, verify, received, vote);
      received := received + [vote];
      if vote.validatorId !in validators || !verify(vote) {
        return None;
      }
      var blockVotes := if vote.blockHash in pendingVotes then pendingVotes[vote.blockHash] else map[];
      blockVotes := blockVotes[vote.validatorId := vote];
      pendingVotes := pendingVotes[vote.blockHash := blockVotes];
      PhaseSigners(pendingVotes, validators, verify, received, vote.blockHash, vote.phase);
      qc := CheckQuorum(vote.blockHash, vote.phase);
    }

    /** A certificate exactly when the filed votes of this phase carry the quorum. */
    method CheckQuorum(blockHash: string, phase: Phase) returns (qc: Option<Certificate>)
      requires Valid()
      ensures qc.Some? <==>
        blockHash in pendingVotes && quorumStake <= StakeOf(validators, PhaseVoters(pendingVotes[blockHash], phase))
      ensures qc.Some? ==> Certifies(qc.value, validators, quorumStake)
      ensures qc.Some? ==> (qc.value.blockHash, qc.value.phase, qc.value.view) == (blockHash, phase, currentView)
      ensures qc.Some? ==> Voters(qc.value.votes) == PhaseVoters(pendingVotes[blockHash], phase)
    {
      hide Tracks, Certifies, StakeOf;
      if blockHash !in pendingVotes {
        return None;
      }
      var votes := pendingVotes[blockHash];
      var voters := SetToSeq(set id | id in votes && votes[id].phase == phase);
      var phaseVotes: seq<Vote> := [];
      var stake := 0;
      for i := 0 to |voters|
        invariant |phaseVotes| == i && forall k :: 0 <= k < i ==>
          voters[k] in votes && phaseVotes[k] == votes[voters[k]]
        invariant stake == SeqStake(validators, phaseVotes)
      {
        assert voters[i] in voters;
        phaseVotes := phaseVotes + [votes[voters[i]]];
        stake := stake + VoteStake(validators, votes[voters[i]]);
        assert phaseVotes[..|phaseVotes| - 1] == phaseVotes[..i];
      }
      PhaseVotesListed(validators, votes, blockHash, phase, voters, phaseVotes);
      if stake < quorumStake {
        return None;
      }
      qc := Some(Certificate(blockHash, currentView, phase, phaseVotes, stake));
    }

    /** The part of `commitBlock` that touches votes: pending votes go, the view moves on. */
    method CommitBlock()
      requires Valid()
      modifies this`pendingVotes, this`currentView, this`received
      ensures Valid() && pendingVotes == map[] && received == [] && currentView == old(currentView) + 1
    {
      pendingVotes := map[];
      received := [];
      currentView := currentView + 1;
    }

    /** The offenders in the order they are caught, with repetitions. */
    method DetectEquivocation(votes: seq<Vote>) returns (offenders: seq<string>)
      ensures forall id :: id in offenders <==> Equivocates(votes, id)
      ensures offenders == Caught(votes)
    {
      hide Equivocates, Caught, HashesUnder;
      CaughtNothing();
      var seen: map<(string, int, Phase), set<string>> := map[];
      offenders := [];
      assert votes[..0] == [];
      for i := 0 to |votes|
        invariant forall k :: (if k in seen then seen[k] else {}) == HashesUnder(votes[..i], k)
        invariant forall id :: id in offenders <==> Equivocates(votes[..i], id)
        invariant offenders == Caught(votes[..i])
      {
        var vote := votes[i];
        var key := (vote.validatorId, vote.view, vote.phase);
        var hashes := if key in seen then seen[key] else {};
        ghost var before := offenders;
        if hashes != {} && vote.blockHash !in hashes {
          offenders := offenders + [vote.validatorId];
        }
        assert votes[..i + 1] == votes[..i] + [vote];
        CaughtSnoc(votes[..i], vote);
        CaughtNext(votes[..i], vote, before);
        seen := seen[key := hashes + {vote.blockHash}];
      }
      assert votes[..|votes|] == votes;
    }
  }

  ghost predicate WellFiled(blockHash: string, votes: map<string, Vote>, validators: Stakes) {
    forall id :: id in votes ==> votes[id].blockHash == blockHash && votes[id].validatorId == id && id in validators
  }

  /** A verified vote of a known validator. */
  ghost predicate Counted(validators: Stakes, verify: Vote -> bool, v: Vote) {
    v.validatorId in validators && verify(v)
  }

  /** The i-th is that validator's last verified vote on that block. */
  ghost predicate LastAt(validators: Stakes, verify: Vote -> bool, received: seq<Vote>, i: int) {
    && 0 <= i < |received| && Counted(validators, verify, received[i])
    && forall k :: i < k < |received| && Counted(validators, verify, received[k]) ==>
         received[k].blockHash != received[i].blockHash || received[k].validatorId != received[i].validatorId
  }

  ghost predicate OnFile(pending: map<string, map<string, Vote>>, v: Vote) {
    v.blockHash in pending && v.validatorId in pending[v.blockHash] && pending[v.blockHash][v.validatorId] == v
  }

  /** On file are exactly the last votes. */
  ghost predicate Tracks(pending: map<string, map<string, Vote>>, validators: Stakes, verify: Vote -> bool,
                         received: seq<Vote>)
  {
    forall v :: OnFile(pending, v) <==> exists i :: LastAt(validators, verify, received, i) && received[i] == v
  }

  /** The validators whose last verified vote on the block is of this phase. */
  ghost function Signers(validators: Stakes, verify: Vote -> bool, received: seq<Vote>, blockHash: string, phase: Phase)
    : set<string>
  {
    set i | 0 <= i < |received| && LastAt(validators, verify, received, i)
            && received[i].blockHash == blockHash && received[i].phase == phase :: received[i].validatorId
  }

  lemma LastAtNext(validators: Stakes, verify: Vote -> bool, received: seq<Vote>, vote: Vote, i: int)
    ensures LastAt(validators, verify, received + [vote], i) <==>
            if i == |received| then Counted(validators, verify, vote)
            else && LastAt(validators, verify, received, i)
                 && !(Counted(validators, verify, vote) && vote.blockHash == received[i].blockHash
                      && vote.validatorId == received[i].validatorId)
  {
    var after := received + [vote];
    assert forall k :: 0 <= k < |received| ==> after[k] == received[k];
    assert after[|received|] == vote;
  }

  lemma FiledIsLast(pending: map<string, map<string, Vote>>, validators: Stakes, verify: Vote -> bool,
                    received: seq<Vote>, vote: Vote)
    requires Tracks(pending, validators, verify, received)
    requires forall b :: b in pending ==> WellFiled(b, pending[b], validators)
    ensures var after := Filed(pending, validators, verify, vote);
            && Tracks(after, validators, verify, received + [vote])
            && forall b :: b in after ==> WellFiled(b, after[b], validators)
  {
    var filed, after := Filed(pending, validators, verify, vote), received + [vote];
    forall v ensures OnFile(filed, v) <==> exists i :: LastAt(validators, verify, after, i) && after[i] == v {
      var replaced := Counted(validators, verify, vote) && vote.blockHash == v.blockHash
                      && vote.validatorId == v.validatorId;
      assert OnFile(filed, v) <==> if replaced then v == vote else OnFile(pending, v);
      LastAtNext(validators, verify, received, vote, |received|);
      if i :| LastAt(validators, verify, received, i) && received[i] == v {
        LastAtNext(validators, verify, received, vote, i);
        assert after[i] == v;
      }
      if i :| LastAt(validators, verify, after, i) && after[i] == v {
        LastAtNext(validators, verify, received, vote, i);
      }
    }
  }

  lemma PhaseSigners(pending: map<string, map<string, Vote>>, validators: Stakes, verify: Vote -> bool,
                     received: seq<Vote>, blockHash: string, phase: Phase)
    requires Tracks(pending, validators, verify, received) && blockHash in pending
    requires WellFiled(blockHash, pending[blockHash], validators)
    ensures PhaseVoters(pending[blockHash], phase) == Signers(validators, verify, received, blockHash, phase)
  {
    var votes := pending[blockHash];
    forall id | id in PhaseVoters(votes, phase) ensures id in Signers(validators, verify, received, blockHash, phase) {
      assert OnFile(pending, votes[id]);
    }
    forall i |
      LastAt(validators, verify, received, i) && received[i].blockHash == blockHash && received[i].phase == phase
      ensures received[i].validatorId in PhaseVoters(votes, phase)
    {
      assert OnFile(pending, received[i]);
    }
  }

  function Filed(pending: map<string, map<string, Vote>>, validators: Stakes, verify: Vote -> bool, vote: Vote)
    : map<string, map<string, Vote>>
  {
    if vote.validatorId in validators && verify(vote) then
      pending[vote.blockHash :=
        (if vote.blockHash in pending then pending[vote.blockHash] else map[])[vote.validatorId := vote]]
    else pending
  }

  function PhaseVoters(votes: map<string, Vote>, phase: Phase): set<string> {
    set id | id in votes && votes[id].phase == phase
  }

  function SeqStake(stakes: Stakes, votes: seq<Vote>): nat {
    if votes == [] then 0 else SeqStake(stakes, votes[..|votes| - 1]) + VoteStake(stakes, votes[|votes| - 1])
  }

  /** What every certificate the engine issues satisfies. */
  ghost predicate Certifies(qc: Certificate, stakes: Stakes, quorum: nat) {
    && (forall v :: v in qc.votes ==> v.blockHash == qc.blockHash && v.phase == qc.phase && v.validatorId in stakes)
    && (forall i, j :: 0 <= i < j < |qc.votes| ==> qc.votes[i].validatorId != qc.votes[j].validatorId)
    && qc.totalStake == StakeOf(stakes, Voters(qc.votes)) >= quorum
  }

  ghost function HashesUnder(votes: seq<Vote>, key: (string, int, Phase)): set<string> {
    set v | v in votes && (v.validatorId, v.view, v.phase) == key :: v.blockHash
  }

  ghost predicate Conflict(v: Vote, w: Vote) {
    v.validatorId == w.validatorId && v.view == w.view && v.phase == w.phase && v.blockHash != w.blockHash
  }

  /** Two of the validator's votes share view and phase and differ in block. */
  ghost predicate Equivocates(votes: seq<Vote>, id: string) {
    exists v, w :: v in votes && w in votes && v.validatorId == id && Conflict(v, w)
  }

  /** A vote counts when its validator has voted in its view and phase, but never for its block. */
  ghost predicate Offends(before: seq<Vote>, vote: Vote) {
    && (exists v :: v in before && Conflict(v, vote))
    && forall v :: v in before && (v.validatorId, v.view, v.phase) == (vote.validatorId, vote.view, vote.phase) ==>
         v.blockHash != vote.blockHash
  }

  /** The validators of such votes, in the order of the votes. */
  ghost function Caught(votes: seq<Vote>): seq<string> {
    if votes == [] then []
    else
      var init, last := votes[..|votes| - 1], votes[|votes| - 1];
      Caught(init) + if Offends(init, last) then [last.validatorId] else []
  }

  lemma CaughtNothing()
    ensures Caught([]) == [] && (forall id :: !Equivocates([], id)) && forall k :: HashesUnder([], k) == {}
  {
  }

  lemma CaughtSnoc(votes: seq<Vote>, vote: Vote)
    ensures var hashes := HashesUnder(votes, (vote.validatorId, vote.view, vote.phase));
            Caught(votes + [vote]) ==
              Caught(votes) + if hashes != {} && vote.blockHash !in hashes then [vote.validatorId] else []
  {
    var key := (vote.validatorId, vote.view, vote.phase);
    var hashes := HashesUnder(votes, key);
    assert (votes + [vote])[..|votes|] == votes;
    if hashes != {} && vote.blockHash !in hashes {
      var h :| h in hashes;
      var v :| v in votes && (v.validatorId, v.view, v.phase) == key && v.blockHash == h;
      assert Conflict(v, vote);
    }
    if Offends(votes, vote) {
      var v :| v in votes && Conflict(v, vote);
      assert v.blockHash in hashes;
    }
  }

  lemma CaughtNext(votes: seq<Vote>, vote: Vote, offenders: seq<string>)
    requires forall id :: id in offenders <==> Equivocates(votes, id)
    ensures var key := (vote.validatorId, vote.view, vote.phase);
            var hashes := HashesUnder(votes, key);
            var caught := if hashes != {} && vote.blockHash !in hashes then [vote.validatorId] else [];
            && (forall id :: id in offenders + caught <==> Equivocates(votes + [vote], id))
            && (forall k :: HashesUnder(votes + [vote], k) ==
                  HashesUnder(votes, k) + if k == key then {vote.blockHash} else {})
  {
    var key := (vote.validatorId, vote.view, vote.phase);
    var hashes := HashesUnder(votes, key);
    var caught := if hashes != {} && vote.blockHash !in hashes then [vote.validatorId] else [];
    var after := votes + [vote];
    assert forall v :: v in after <==> v in votes || v == vote;
    forall id ensures id in offenders + caught <==> Equivocates(after, id) {
      if Equivocates(votes, id) {
        var v, w :| v in votes && w in votes && v.validatorId == id && Conflict(v, w);
        assert v in after && w in after;
      }
      if id in caught {
        var h :| h in hashes;
        var w :| w in votes && (w.validatorId, w.view, w.phase) == key && w.blockHash == h;
        assert vote in after && w in after && Conflict(vote, w);
      }
      if Equivocates(after, id) && !Equivocates(votes, id) {
        var v, w :| v in after && w in after && v.validatorId == id && Conflict(v, w);
        var x := if v == vote then w else v;
        assert x in votes && Conflict(x, vote) && x.blockHash in hashes;
        if vote.blockHash in hashes {
          var y :| y in votes && (y.validatorId, y.view, y.phase) == key && y.blockHash == vote.blockHash;
          assert Conflict(x, y);
        }
      }
    }
  }

  // ------------------------------------------------------- stake arithmetic

  lemma {:induction false} StakeRemove(stakes: Stakes, ids: set<string>, x: string)
    requires x in ids
    ensures StakeOf(stakes, ids) == (if x in stakes then stakes[x] else 0) + StakeOf(stakes, ids - {x})
    decreases |ids|
  {
    var y :| y in ids && StakeOf(stakes, ids) == (if y in stakes then stakes[y] else 0) + StakeOf(stakes, ids - {y});
    if y != x {
      StakeRemove(stakes, ids - {y}, x);
      StakeRemove(stakes, ids - {x}, y);
      assert ids - {y} - {x} == ids - {x} - {y};
    }
  }

  lemma {:induction false} StakeSplit(stakes: Stakes, a: set<string>, b: set<string>)
    ensures StakeOf(stakes, a + b) + StakeOf(stakes, a * b) == StakeOf(stakes, a) + StakeOf(stakes, b)
    decreases |a|
  {
    if a == {} {
      assert a + b == b && a * b == {};
    } else {
      var x :| x in a;
      var r := a - {x};
      StakeSplit(stakes, r, b);
      StakeRemove(stakes, a, x);
      if x in b {
        assert a + b == r + b;
        assert a * b - {x} == r * b;
        StakeRemove(stakes, a * b, x);
      } else {
        assert a + b - {x} == r + b;
        assert a * b == r * b;
        StakeRemove(stakes, a + b, x);
      }
    }
  }

  lemma {:induction false} StakeMonotone(stakes: Stakes, a: set<string>, b: set<string>)
    requires a <= b
    ensures StakeOf(stakes, a) <= StakeOf(stakes, b)
    decreases |a|
  {
    if a != {} {
      var x :| x in a;
      StakeRemove(stakes, a, x);
      StakeRemove(stakes, b, x);
      StakeMonotone(stakes, a - {x}, b - {x});
    }
  }

  lemma {:induction false} StakeUnchanged(stakes: Stakes, other: Stakes, ids: set<string>)
    requires forall x :: x in ids ==> x in stakes && x in other && stakes[x] == other[x]
    ensures StakeOf(stakes, ids) == StakeOf(other, ids)
    decreases |ids|
  {
    if ids != {} {
      var x :| x in ids;
      StakeRemove(stakes, ids, x);
      StakeRemove(other, ids, x);
      StakeUnchanged(stakes, other, ids - {x});
    }
  }

  lemma StakeInsert(stakes: Stakes, id: string, stake: nat)
    ensures id !in stakes ==>
      StakeOf(stakes[id := stake], stakes[id := stake].Keys) == StakeOf(stakes, stakes.Keys) + stake
  {
    if id !in stakes {
      var after := stakes[id := stake];
      assert after.Keys - {id} == stakes.Keys;
      StakeRemove(after, after.Keys, id);
      StakeUnchanged(after, stakes, stakes.Keys);
    }
  }

  lemma {:induction false} SeqStakeIsSetStake(stakes: Stakes, votes: seq<Vote>)
    requires forall i, j :: 0 <= i < j < |votes| ==> votes[i].validatorId != votes[j].validatorId
    ensures SeqStake(stakes, votes) == StakeOf(stakes, Voters(votes))
  {
    if votes != [] {
      var init, last := votes[..|votes| - 1], votes[|votes| - 1];
      SeqStakeIsSetStake(stakes, init);
      LastVoter(votes);
      StakeRemove(stakes, Voters(votes), last.validatorId);
    }
  }

  lemma LastVoter(votes: seq<Vote>)
    requires votes != [] && forall i, j :: 0 <= i < j < |votes| ==> votes[i].validatorId != votes[j].validatorId
    ensures var id := votes[|votes| - 1].validatorId;
            id in Voters(votes) && Voters(votes) - {id} == Voters(votes[..|votes| - 1])
  {
    var init, last := votes[..|votes| - 1], votes[|votes| - 1];
    assert votes == init + [last];
    assert forall v :: v in votes <==> v in init || v == last;
    forall v | v in init ensures v.validatorId != last.validatorId {
      var i :| 0 <= i < |init| && init[i] == v;
      assert votes[i] == v;
    }
  }

  lemma PhaseVotesListed(stakes: Stakes, votes: map<string, Vote>, blockHash: string, phase: Phase,
                         voters: seq<string>, listed: seq<Vote>)
    requires forall id :: id in votes ==>
      votes[id].blockHash == blockHash && votes[id].validatorId == id && id in stakes
    requires NoDup(voters) && forall id :: id in voters <==> id in PhaseVoters(votes, phase)
    requires |listed| == |voters| && forall k :: 0 <= k < |voters| ==>
      voters[k] in votes && listed[k] == votes[voters[k]]
    ensures Voters(listed) == PhaseVoters(votes, phase)
    ensures SeqStake(stakes, listed) == StakeOf(stakes, Voters(listed))
    ensures forall view, quorum: nat :: quorum <= SeqStake(stakes, listed) ==>
      Certifies(Certificate(blockHash, view, phase, listed, SeqStake(stakes, listed)), stakes, quorum)
  {
    forall k | 0 <= k < |listed| ensures listed[k].phase == phase && listed[k].validatorId == voters[k] {
      assert voters[k] in voters;
    }
    forall id | id in PhaseVoters(votes, phase) ensures id in Voters(listed) {
      assert id in voters;
      var k :| 0 <= k < |voters| && voters[k] == id;
      assert listed[k] in listed;
    }
    SeqStakeIsSetStake(stakes, listed);
  }

  // ------------------------------------------------------- accountability

  ghost function Flagged(votes: seq<Vote>): set<string> {
    set v | v in votes && Equivocates(votes, v.validatorId) :: v.validatorId
  }

  /** Two certificates of one phase for different blocks, all votes cast in one view: whoever
      signed both is flagged, and together they hold at least 2 * quorum - total stake. */
  lemma ConflictingCertificatesExpose(stakes: Stakes, total: nat, a: Certificate, b: Certificate, view: int)
    requires total == StakeOf(stakes, stakes.Keys)
    requires Certifies(a, stakes, Quorum(total)) && Certifies(b, stakes, Quorum(total))
    requires a.phase == b.phase && a.blockHash != b.blockHash
    requires forall v :: v in a.votes || v in b.votes ==> v.view == view
    ensures Flagged(a.votes + b.votes) == Voters(a.votes) * Voters(b.votes)
    ensures StakeOf(stakes, Flagged(a.votes + b.votes)) >= 2 * Quorum(total) - total
  {
    var votes := a.votes + b.votes;
    assert forall v :: v in votes <==> v in a.votes || v in b.votes;
    forall id ensures id in Flagged(votes) <==> id in Voters(a.votes) * Voters(b.votes) {
      if id in Voters(a.votes) * Voters(b.votes) {
        var v :| v in a.votes && v.validatorId == id;
        var w :| w in b.votes && w.validatorId == id;
        assert v in votes && w in votes && Conflict(v, w);
      }
      if id in Flagged(votes) {
        var v, w :| v in votes && w in votes && v.validatorId == id && Conflict(v, w);
        assert v.blockHash != w.blockHash;
      }
    }
    StakeSplit(stakes, Voters(a.votes), Voters(b.votes));
    StakeMonotone(stakes, Voters(a.votes) + Voters(b.votes), stakes.Keys);
  }

  /** Unit-stake validators named by strings of growing length. */
  function Name(n: nat): string {
    seq(n, i => 'v')
  }

  ghost function Names(from: nat, end: nat): set<string> {
    set i | from <= i < end :: Name(i)
  }

  function UnitVotes(blockHash: string, from: nat, end: nat): seq<Vote>
    requires from <= end
  {
    seq(end - from, i requires 0 <= i < end - from => Vote(blockHash, 0, Prepare, Name(from + i), ""))
  }

  lemma NameInjective(m: nat, n: nat)
    ensures Name(m) == Name(n) <==> m == n
  {
    assert |Name(m)| == m && |Name(n)| == n;
  }

  lemma {:induction false} UnitStake(stakes: Stakes, from: nat, end: nat)
    requires from <= end && forall i :: from <= i < end ==> Name(i) in stakes && stakes[Name(i)] == 1
    ensures StakeOf(stakes, Names(from, end)) == end - from
    decreases end
  {
    if from < end {
      UnitStake(stakes, from, end - 1);
      forall i | from <= i < end - 1 ensures Name(i) != Name(end - 1) { NameInjective(i, end - 1); }
      assert Names(from, end) - {Name(end - 1)} == Names(from, end - 1);
      assert Name(end - 1) in Names(from, end);
      StakeRemove(stakes, Names(from, end), Name(end - 1));
    } else {
      assert Names(from, end) == {};
    }
  }

  lemma UnitCertificate(stakes: Stakes, blockHash: string, from: nat, end: nat, quorum: nat)
    requires from <= end && quorum <= end - from
    requires forall i :: from <= i < end ==> Name(i) in stakes && stakes[Name(i)] == 1
    ensures Certifies(Certificate(blockHash, 0, Prepare, UnitVotes(blockHash, from, end), end - from), stakes, quorum)
    ensures Voters(UnitVotes(blockHash, from, end)) == Names(from, end)
  {
    var votes := UnitVotes(blockHash, from, end);
    UnitVoters(blockHash, from, end);
    UnitStake(stakes, from, end);
    forall i, j | 0 <= i < j < |votes| ensures votes[i].validatorId != votes[j].validatorId {
      NameInjective(from + i, from + j);
    }
  }

  lemma UnitVoters(blockHash: string, from: nat, end: nat)
    requires from <= end
    ensures Voters(UnitVotes(blockHash, from, end)) == Names(from, end)
  {
    var votes := UnitVotes(blockHash, from, end);
    forall i | from <= i < end ensures Name(i) in Voters(votes) {
      assert votes[i - from] in votes && votes[i - from].validatorId == Name(i);
    }
  }

  lemma NamesOverlap(n: nat, q: nat)
    requires q <= n
    ensures Names(0, q) * Names(n - q, n) == Names(if n - q <= q then n - q else q, q)
  {
    var lo := if n - q <= q then n - q else q;
    forall x | x in Names(0, q) * Names(n - q, n) ensures x in Names(lo, q) {
      var i :| 0 <= i < q && Name(i) == x;
      var j :| n - q <= j < n && Name(j) == x;
      NameInjective(i, j);
    }
  }

  /** The bound is met: with `n` unit-stake validators there are two conflicting certificates
      whose common signers hold exactly what the quorums cannot avoid. */
  lemma BoundIsMet(n: nat) returns (stakes: Stakes, a: Certificate, b: Certificate)
    ensures StakeOf(stakes, stakes.Keys) == n
    ensures Certifies(a, stakes, Quorum(n)) && Certifies(b, stakes, Quorum(n))
    ensures a.phase == b.phase && a.blockHash != b.blockHash
    ensures forall v :: v in a.votes || v in b.votes ==> v.view == 0
    ensures StakeOf(stakes, Flagged(a.votes + b.votes)) == if 2 * Quorum(n) >= n then 2 * Quorum(n) - n else 0
  {
    hide Certifies, StakeOf, Flagged, Voters;
    var q := Quorum(n);
    stakes := map x | x in Names(0, n) :: 1;
    assert forall i :: 0 <= i < n ==> Name(i) in Names(0, n);
    assert stakes.Keys == Names(0, n);
    hide Names;
    UnitStake(stakes, 0, n);
    a := Certificate("a", 0, Prepare, UnitVotes("a", 0, q), q);
    b := Certificate("b", 0, Prepare, UnitVotes("b", n - q, n), q);
    UnitCertificate(stakes, "a", 0, q, q);
    UnitCertificate(stakes, "b", n - q, n, q);
    ConflictingCertificatesExpose(stakes, n, a, b, 0);
    NamesOverlap(n, q);
    UnitStake(stakes, if n - q <= q then n - q else q, q);
  }

  /** Stake that a Byzantine-tolerant protocol may find faulty: less than a third. */
  function Tolerated(total: nat): nat
    requires total > 0
  {
    (total - 1) / 3
  }

  /** Two certificates of one phase for different blocks, over validators of that total stake,
      all votes cast in one view. */
  ghost predicate Clash(total: nat, stakes: Stakes, a: Certificate, b: Certificate, view: int) {
    && StakeOf(stakes, stakes.Keys) == total
    && Certifies(a, stakes, Quorum(total)) && Certifies(b, stakes, Quorum(total))
    && a.phase == b.phase && a.blockHash != b.blockHash
    && (forall v :: v in a.votes || v in b.votes ==> v.view == view)
  }

  /** Every such pair of certificates exposes more than that much stake. */
  ghost predicate AlwaysExposes(total: nat, more: nat) {
    forall stakes, a, b, view :: Clash(total, stakes, a, b, view) ==> StakeOf(stakes, Flagged(a.votes + b.votes)) > more
  }

  lemma ExposesExactly(total: nat, more: nat)
    ensures AlwaysExposes(total, more) <==> 2 * Quorum(total) - total > more
  {
    hide Certifies, StakeOf, Flagged, Quorum;
    forall stakes, a, b, view | Clash(total, stakes, a, b, view)
      ensures StakeOf(stakes, Flagged(a.votes + b.votes)) >= 2 * Quorum(total) - total
    {
      ConflictingCertificatesExpose(stakes, total, a, b, view);
    }
    var stakes, a, b := BoundIsMet(total);
    assert Clash(total, stakes, a, b, 0);
  }

  /** The floor in the quorum has a price. Conflicting certificates are bound to expose more
      stake than may be faulty anyway exactly when three divides the total, and to expose
      anybody at all exactly when the total is neither 0, 1, 2 nor 4. */
  lemma ExposureExceedsTolerance(total: nat)
    ensures total > 0 ==> (AlwaysExposes(total, Tolerated(total)) <==> total % 3 == 0)
    ensures AlwaysExposes(total, 0) <==> total != 0 && total != 1 && total != 2 && total != 4
  {
    hide AlwaysExposes, Quorum, Tolerated;
    QuorumExcess(total);
    ExposesExactly(total, 0);
    if total > 0 {
      ExposesExactly(total, Tolerated(total));
    }
  }

  lemma QuorumExcess(total: nat)
    ensures total > 0 ==> (2 * Quorum(total) - total > Tolerated(total) <==> total % 3 == 0)
    ensures 2 * Quorum(total) - total > 0 <==> total != 0 && total != 1 && total != 2 && total != 4
  {
    var k, r := total / 3, total % 3;
    assert total == 3 * k + r;
    assert Quorum(total) == if r == 0 then 2 * k else if r == 1 then 2 * k else 2 * k + 1;
    assert total > 0 ==> Tolerated(total) == if r == 0 then k - 1 else k;
  }

  /** What the constructor's caller sees: `null` stands for the error for too few validators. */
  method Configure(config: seq<Validator>, minValidators: nat, verify: Vote -> bool) returns (r: HotStuffConsensus?)
    ensures r == null <==> |config| < minValidators
    ensures r != null ==> fresh(r) && r.Valid() && r.totalStake == ConfigStake(config) && r.pendingVotes == map[]
  {
    if |config| < minValidators {
      return null;
    }
    r := new HotStuffConsensus(config, verify);
  }
}
