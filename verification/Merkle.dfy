/** The Merkle tree of a segment and the state-root loop of the consensus engine: one tree,
    built level by level with an unpaired last node promoted. */
module Merkle {
  import opened Orders

  type Bytes = seq<bv8>

  /** `leaf` hashes a key with its value; `pair` hashes two digests set side by side. */
  datatype Hasher = Hasher(leaf: (string, Bytes) -> Bytes, pair: (Bytes, Bytes) -> Bytes)

  function NextLevel(h: Hasher, level: seq<Bytes>): (r: seq<Bytes>)
    ensures |r| == (|level| + 1) / 2
  {
    if |level| <= 1 then level
    else [h.pair(level[0], level[1])] + NextLevel(h, level[2..])
  }

  function Root(h: Hasher, level: seq<Bytes>): Bytes
    requires level != []
    decreases |level|
  {
    if |level| == 1 then level[0] else Root(h, NextLevel(h, level))
  }

  function Sibling(index: nat): nat {
    if index % 2 == 0 then index + 1 else index - 1
  }

  function Proof(h: Hasher, level: seq<Bytes>, index: nat): seq<Bytes>
    requires index < |level|
    decreases |level|
  {
    if |level| == 1 then []
    else
      (if Sibling(index) < |level| then [level[Sibling(index)]] else []) + Proof(h, NextLevel(h, level), index / 2)
  }

  /** How many siblings a proof for `index` among `n` leaves holds. */
  function ProofSize(n: nat, index: nat): nat
    requires index < n
    decreases n
  {
    if n == 1 then 0 else (if Sibling(index) < n then 1 else 0) + ProofSize((n + 1) / 2, index / 2)
  }

  /** What a verifier computes from a leaf and its proof. */
  function Climb(h: Hasher, x: Bytes, n: nat, index: nat, proof: seq<Bytes>): Bytes
    requires index < n && |proof| == ProofSize(n, index)
    decreases n
  {
    if n == 1 then x
    else if Sibling(index) >= n then Climb(h, x, (n + 1) / 2, index / 2, proof)
    else if index % 2 == 0 then Climb(h, h.pair(x, proof[0]), (n + 1) / 2, index / 2, proof[1..])
    else Climb(h, h.pair(proof[0], x), (n + 1) / 2, index / 2, proof[1..])
  }

  class MerkleTree {
    const hasher: Hasher
    var leaves: map<string, Bytes>
    var root: Option<Bytes>

    /** A cached root is the root of the leaves as they stand. */
    ghost predicate Valid()
      reads this
    {
      root.Some? ==> leaves != map[] && root.value == Root(hasher, LeafList(leaves))
    }

    constructor (hasher: Hasher)
      ensures Valid() && leaves == map[] && this.hasher == hasher
    {
      this.hasher := hasher;
      leaves := map[];
      root := None;
    }

    method Add(key: string, value: Bytes)
      requires Valid()
      modifies this
      ensures Valid() && leaves == old(leaves)[key := hasher.leaf(key, value)]
    {
      leaves := leaves[key := hasher.leaf(key, value)];
      root := None;
    }

    /** Cached or not, the answer is what a fresh build over the leaves gives; an empty tree
        answers 32 zero bytes. */
    method GetRoot() returns (r: Bytes)
      requires Valid()
      modifies this`root
      ensures Valid()
      ensures r == if leaves == map[] then seq(32, i => 0) else Root(hasher, LeafList(leaves))
      ensures leaves != map[] ==>
        exists hashes :: hashes != [] && InKeyOrder(leaves, hashes) && r == Root(hasher, hashes)
      ensures leaves != map[] ==> root == Some(r)
    {
      if root.Some? {
        return root.value;
      }
      if |leaves| == 0 {
        return seq(32, i => 0);
      }
      var hashes := SortedHashes();
      r := BuildTree(hasher, hashes);
      root := Some(r);
    }

    method SortedHashes() returns (hashes: seq<Bytes>)
      ensures hashes == LeafList(leaves)
      ensures |hashes| == |leaves|
    {
      hide InKeyOrder, StrLe, NoDup;
      var sortedKeys := SortedKeys();
      hashes := [];
      for i := 0 to |sortedKeys|
        invariant hashes == LeafList(leaves)[..i]
      {
        hashes := hashes + [leaves[sortedKeys[i]]];
      }
    }

    method SortedKeys() returns (r: seq<string>)
      ensures r == SortedSet(leaves.Keys, StrLe) && |r| == |leaves|
    {
      var listed := SetToSeq(leaves.Keys);
      StrLeOrder();
      assert Elems(listed) == leaves.Keys;
      SortedListing(listed, leaves.Keys, StrLe);
      SortPermutes(listed, StrLe);
      r := SortBy(listed, StrLe);
    }

    method GetProof(key: string) returns (r: Option<seq<Bytes>>)
      ensures r.Some? <==> key in leaves
      ensures r.Some? ==> exists i: nat :: i < |leaves| && IsProofFor(hasher, leaves, key, i, r.value)
    {
      if key !in leaves {
        return None;
      }
      var sortedKeys := SortedKeys();
      assert key in Elems(sortedKeys);
      var index := 0;
      while sortedKeys[index] != key
        invariant index < |sortedKeys| && key !in sortedKeys[..index]
        decreases |sortedKeys| - index
      {
        index := index + 1;
      }
      var hashes := SortedHashes();
      var proof := BuildProof(hasher, hashes, index);
      assert IsProofFor(hasher, leaves, key, index, proof);
      r := Some(proof);
    }
  }

  /** The key is the i-th in order and this is the proof of the i-th leaf. */
  ghost predicate IsProofFor(h: Hasher, leaves: map<string, Bytes>, key: string, i: nat, proof: seq<Bytes>)
    requires i < |leaves|
  {
    && |SortedSet(leaves.Keys, StrLe)| == |leaves| && SortedSet(leaves.Keys, StrLe)[i] == key
    && proof == Proof(h, LeafList(leaves), i)
  }

  /** Once each, and ascending: of any two the first is a prefix, or smaller where they part. */
  ghost predicate Ascends(keys: seq<string>) {
    forall i, j :: 0 <= i < j < |keys| ==>
      keys[i] != keys[j] && (keys[i] <= keys[j] || exists k: nat :: FirstDifference(keys[i], keys[j], k))
  }

  /** One hash for each key, in ascending order of the keys. */
  ghost predicate InKeyOrder(leaves: map<string, Bytes>, hashes: seq<Bytes>) {
    exists keys :: Ascends(keys) && Elems(keys) == leaves.Keys && HashesOf(leaves, keys, hashes)
  }

  ghost predicate HashesOf(leaves: map<string, Bytes>, keys: seq<string>, hashes: seq<Bytes>) {
    |hashes| == |keys| && forall i :: 0 <= i < |keys| ==> keys[i] in leaves && hashes[i] == leaves[keys[i]]
  }

  lemma KeysAscend(s: set<string>)
    ensures Ascends(SortedSet(s, StrLe))
  {
    StrLeOrder();
    SortSorts(SetSeq(s), StrLe);
    var keys := SortedSet(s, StrLe);
    forall i, j | 0 <= i < j < |keys|
      ensures keys[i] <= keys[j] || exists k: nat :: FirstDifference(keys[i], keys[j], k)
    {
      StrLeExactly(keys[i], keys[j]);
    }
  }

  /** The leaf hashes in key order: a function of the leaves, not of how they arrived. */
  ghost function LeafList(leaves: map<string, Bytes>): (r: seq<Bytes>)
    ensures |r| == |leaves| && InKeyOrder(leaves, r)
    ensures leaves != map[] ==> r != []
  {
    var keys := SortedSet(leaves.Keys, StrLe);
    KeysAscend(leaves.Keys);
    assert |keys| == |leaves| by {
      NoDupSize(keys);
      assert (set x | x in keys) == Elems(keys);
      assert |leaves| == |leaves.Keys|;
    }
    assert forall i :: 0 <= i < |keys| ==> keys[i] in Elems(keys);
    var r := seq(|keys|, i requires 0 <= i < |keys| => leaves[keys[i]]);
    assert HashesOf(leaves, keys, r);
    r
  }

  /** One level up: the loop that both the recursive build and the proof run. */
  method PairUp(h: Hasher, hashes: seq<Bytes>) returns (nextLevel: seq<Bytes>)
    ensures nextLevel == NextLevel(h, hashes)
  {
    nextLevel := [];
    var i := 0;
    while i < |hashes|
      invariant 0 <= i <= |hashes| + 1 && (i > |hashes| ==> i == |hashes| + 1)
      invariant i <= |hashes| ==> nextLevel + NextLevel(h, hashes[i..]) == NextLevel(h, hashes)
      invariant i > |hashes| ==> nextLevel == NextLevel(h, hashes)
    {
      if i + 1 < |hashes| {
        assert hashes[i..][2..] == hashes[i + 2..];
        nextLevel := nextLevel + [h.pair(hashes[i], hashes[i + 1])];
      } else {
        assert hashes[i..] == [hashes[i]];
        nextLevel := nextLevel + [hashes[i]];
      }
      i := i + 2;
    }
  }

  method BuildTree(h: Hasher, hashes: seq<Bytes>) returns (r: Bytes)
    requires hashes != []
    ensures r == Root(h, hashes)
    decreases |hashes|
  {
    if |hashes| == 1 {
      return hashes[0];
    }
    var nextLevel := PairUp(h, hashes);
    r := BuildTree(h, nextLevel);
  }

  method BuildProof(h: Hasher, hashes: seq<Bytes>, index: nat) returns (proof: seq<Bytes>)
    requires index < |hashes|
    ensures proof == Proof(h, hashes, index)
    decreases |hashes|
  {
    if |hashes| == 1 {
      return [];
    }
    proof := [];
    var pairIndex := if index % 2 == 0 then index + 1 else index - 1;
    if pairIndex < |hashes| {
      proof := proof + [hashes[pairIndex]];
    }
    var nextLevel := PairUp(h, hashes);
    var rest := BuildProof(h, nextLevel, index / 2);
    proof := proof + rest;
  }

  /** The consensus engine's state root over transaction hashes: the same tree by a loop over
      levels; no transactions give 32 zero bytes. */
  method ComputeStateRoot(h: Hasher, txHashes: seq<Bytes>) returns (r: Bytes)
    ensures r == if txHashes == [] then seq(32, i => 0) else Root(h, txHashes)
  {
    if |txHashes| == 0 {
      return seq(32, i => 0);
    }
    var hashes := txHashes;
    while |hashes| > 1
      invariant hashes != [] && Root(h, hashes) == Root(h, txHashes)
      decreases |hashes|
    {
      hashes := PairUp(h, hashes);
    }
    r := hashes[0];
  }

  // ------------------------------------------------------- what proofs prove

  lemma {:induction false} LevelAt(h: Hasher, level: seq<Bytes>, k: nat)
    requires k < (|level| + 1) / 2
    ensures NextLevel(h, level)[k] ==
      if 2 * k + 1 < |level| then h.pair(level[2 * k], level[2 * k + 1]) else level[2 * k]
    decreases |level|
  {
    if |level| > 1 && k > 0 {
      LevelAt(h, level[2..], k - 1);
    }
  }

  lemma {:induction false} ProofHasSize(h: Hasher, level: seq<Bytes>, index: nat)
    requires index < |level|
    ensures |Proof(h, level, index)| == ProofSize(|level|, index)
    decreases |level|
  {
    if |level| > 1 {
      ProofHasSize(h, NextLevel(h, level), index / 2);
    }
  }

  /** Climbing from a leaf with its own proof arrives at the root. */
  lemma {:induction false} ProofReachesRoot(h: Hasher, level: seq<Bytes>, index: nat)
    requires index < |level|
    ensures |Proof(h, level, index)| == ProofSize(|level|, index)
    ensures Climb(h, level[index], |level|, index, Proof(h, level, index)) == Root(h, level)
    decreases |level|
  {
    hide NextLevel;
    ProofHasSize(h, level, index);
    if |level| > 1 {
      var next := NextLevel(h, level);
      ProofReachesRoot(h, next, index / 2);
      LevelAt(h, level, index / 2);
      var proof := Proof(h, level, index);
      if Sibling(index) < |level| {
        assert proof[1..] == Proof(h, next, index / 2);
      } else {
        assert proof == Proof(h, next, index / 2);
      }
    }
  }

  ghost predicate Injective(h: Hasher) {
    forall a, b, c, d :: h.pair(a, b) == h.pair(c, d) ==> a == c && b == d
  }

  /** No other leaf and no other proof reach the same root from the same position. */
  lemma {:induction false} ProofBinds(h: Hasher, level: seq<Bytes>, index: nat, x: Bytes, proof: seq<Bytes>)
    requires Injective(h) && index < |level| && |proof| == ProofSize(|level|, index)
    requires Climb(h, x, |level|, index, proof) == Root(h, level)
    ensures x == level[index] && proof == Proof(h, level, index)
    decreases |level|
  {
    hide NextLevel;
    if |level| > 1 {
      var next := NextLevel(h, level);
      LevelAt(h, level, index / 2);
      if Sibling(index) >= |level| {
        ProofBinds(h, next, index / 2, x, proof);
      } else {
        var y := if index % 2 == 0 then h.pair(x, proof[0]) else h.pair(proof[0], x);
        ProofBinds(h, next, index / 2, y, proof[1..]);
        assert proof == [proof[0]] + proof[1..];
      }
    }
  }

  /** Equal roots over equally many leaves force equal leaves. */
  lemma {:induction false} RootBinds(h: Hasher, a: seq<Bytes>, b: seq<Bytes>)
    requires Injective(h) && |a| == |b| > 0 && Root(h, a) == Root(h, b)
    ensures a == b
    decreases |a|
  {
    if |a| > 1 {
      RootBinds(h, NextLevel(h, a), NextLevel(h, b));
      forall i | 0 <= i < |a| ensures a[i] == b[i] {
        LevelAt(h, a, i / 2);
        LevelAt(h, b, i / 2);
      }
    }
  }

  /** Without the leaf count the root does not bind: any two leaves share their root with the
      single leaf that is their pair hash. */
  lemma CountMatters(h: Hasher, x: Bytes, y: Bytes)
    ensures Root(h, [x, y]) == Root(h, [h.pair(x, y)])
  {
    assert NextLevel(h, [x, y]) == [h.pair(x, y)] + NextLevel(h, []);
  }
}
