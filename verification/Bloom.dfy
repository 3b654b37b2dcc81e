/** The Bloom filter at the level of its byte array. */
module Bloom {

  /** The three hash numbers of a key, unsigned 32-bit in the source; only their being a
      function of the key matters. */
  type Hashes = string -> seq<nat>

  function Mask(i: nat): bv8
    requires i < 8
  {
    1 << i
  }

  predicate BitSet(bits: seq<bv8>, idx: nat)
    requires idx < |bits| * 8
  {
    bits[idx / 8] & Mask(idx % 8) != 0
  }

  function Position(size: nat, h: nat): nat
    requires size > 0
  {
    h % (size * 8)
  }

  lemma PositionInRange(size: nat, h: nat)
    requires size > 0
    ensures Position(size, h) < size * 8
    ensures Position(size, h) / 8 < size
  {
  }

  /** Every bit the key hashes to is set. */
  predicate Covers(bits: seq<bv8>, hashes: Hashes, key: string) {
    |bits| > 0 && forall h :: h in hashes(key) ==> BitSet(bits, Position(|bits|, h))
  }

  lemma Masks(i: nat)
    requires i < 8
    ensures Mask(i) == if i == 0 then 1 else if i == 1 then 2 else if i == 2 then 4 else if i == 3 then 8
                       else if i == 4 then 16 else if i == 5 then 32 else if i == 6 then 64 else 128
  {
  }

  /** Setting one bit of a byte sets that bit and touches no other. */
  lemma OrBit(b: bv8, i: nat, j: nat)
    requires i < 8 && j < 8
    ensures (b | Mask(i)) & Mask(j) != 0 <==> b & Mask(j) != 0 || i == j
  {
    Masks(i);
    Masks(j);
  }

  lemma SetOneBit(bits: seq<bv8>, idx: nat, other: nat)
    requires idx < |bits| * 8 && other < |bits| * 8
    ensures BitSet(bits[idx / 8 := bits[idx / 8] | Mask(idx % 8)], other) <==> BitSet(bits, other) || other == idx
  {
    hide Mask;
    SameBit(idx, other);
    if idx / 8 == other / 8 {
      OrBit(bits[idx / 8], idx % 8, other % 8);
    }
  }

  lemma SameBit(a: nat, b: nat)
    ensures a == b <==> a / 8 == b / 8 && a % 8 == b % 8
  {
    assert a == 8 * (a / 8) + a % 8 && b == 8 * (b / 8) + b % 8;
  }

  class BloomFilter {
    const bits: array<bv8>
    const hashes: Hashes

    /** A filter of `size` bits, rounded up to whole bytes, all clear. */
    constructor (size: nat, hashes: Hashes)
      requires size > 0
      ensures fresh(bits) && bits.Length == (size + 7) / 8 && this.hashes == hashes
      ensures forall i :: 0 <= i < bits.Length ==> bits[i] == 0
    {
      this.hashes := hashes;
      bits := new bv8[(size + 7) / 8](i => 0);
    }

    /** `deserialize`: the saved bytes come back as they were. */
    constructor Deserialize(saved: seq<bv8>, hashes: Hashes)
      requires |saved| > 0
      ensures fresh(bits) && bits[..] == saved && this.hashes == hashes
    {
      this.hashes := hashes;
      bits := new bv8[|saved|](i requires 0 <= i < |saved| => saved[i]);
    }

    /** Sets exactly the bits the key hashes to: none is ever cleared. */
    method Add(key: string)
      requires bits.Length > 0
      modifies bits
      ensures Adds(old(bits[..]), bits[..], hashes, key)
    {
      var list := hashes(key);
      for k := 0 to |list|
        invariant forall idx :: 0 <= idx < bits.Length * 8 ==>
          (BitSet(bits[..], idx) <==>
             BitSet(old(bits[..]), idx) || exists h :: h in list[..k] && Position(bits.Length, h) == idx)
      {
        var idx := Position(bits.Length, list[k]);
        PositionInRange(bits.Length, list[k]);
        ghost var before := bits[..];
        bits[idx / 8] := bits[idx / 8] | Mask(idx % 8);
        assert bits[..] == before[idx / 8 := before[idx / 8] | Mask(idx % 8)];
        forall other | 0 <= other < bits.Length * 8
          ensures BitSet(bits[..], other) <==>
            BitSet(old(bits[..]), other) || exists h :: h in list[..k + 1] && Position(bits.Length, h) == other
        {
          SetOneBit(before, idx, other);
          assert list[..k + 1] == list[..k] + [list[k]];
          assert forall h :: h in list[..k + 1] <==> h in list[..k] || h == list[k];
        }
      }
      assert list[..|list|] == list;
    }

    method MightContain(key: string) returns (r: bool)
      requires bits.Length > 0
      ensures r <==> Covers(bits[..], hashes, key)
    {
      var list := hashes(key);
      for k := 0 to |list|
        invariant forall m :: 0 <= m < k ==> BitSet(bits[..], Position(bits.Length, list[m]))
      {
        var idx := Position(bits.Length, list[k]);
        PositionInRange(bits.Length, list[k]);
        if bits[idx / 8] & Mask(idx % 8) == 0 {
          assert list[k] in list && !BitSet(bits[..], idx);
          return false;
        }
      }
      r := true;
    }
  }

  /** What `Add` promises for keys: the new one is covered, and whatever was covered stays. */
  lemma AddCovers(before: seq<bv8>, after: seq<bv8>, hashes: Hashes, key: string, other: string)
    requires |before| == |after| > 0
    requires Adds(before, after, hashes, key)
    ensures Covers(after, hashes, key)
    ensures Covers(before, hashes, other) ==> Covers(after, hashes, other)
  {
    forall h | h in hashes(key) ensures BitSet(after, Position(|after|, h)) { PositionInRange(|after|, h); }
    forall h | h in hashes(other) && BitSet(before, Position(|before|, h)) ensures BitSet(after, Position(|after|, h)) {
      PositionInRange(|after|, h);
    }
  }

  /** What one `Add` does to the bits. */
  ghost predicate Adds(before: seq<bv8>, after: seq<bv8>, hashes: Hashes, key: string) {
    |before| == |after| && forall idx :: 0 <= idx < |after| * 8 ==>
      (BitSet(after, idx) <==> BitSet(before, idx) || exists h :: h in hashes(key) && Position(|after|, h) == idx)
  }

  /** A hash number of one of the first `n` keys falls on this bit. */
  ghost predicate Hit(keys: seq<string>, n: nat, hashes: Hashes, size: nat, idx: nat)
    requires n <= |keys| && size > 0
  {
    exists i, h :: 0 <= i < n && h in hashes(keys[i]) && h % (size * 8) == idx
  }

  lemma {:induction false} BitsAfter(states: seq<seq<bv8>>, keys: seq<string>, hashes: Hashes, n: nat, idx: nat)
    requires n <= |keys| && |states| == |keys| + 1 && |states[0]| > 0
    requires forall i :: 0 <= i < |states[0]| ==> states[0][i] == 0
    requires forall i :: 0 <= i < |keys| ==> Adds(states[i], states[i + 1], hashes, keys[i])
    requires idx < |states[0]| * 8
    ensures |states[n]| == |states[0]|
    ensures BitSet(states[n], idx) <==> Hit(keys, n, hashes, |states[0]|, idx)
  {
    if n > 0 {
      BitsAfter(states, keys, hashes, n - 1, idx);
      assert Adds(states[n - 1], states[n], hashes, keys[n - 1]);
    }
  }

  /** Which keys a filter answers for after any number of additions to a clear one: exactly those
      all of whose hash numbers meet one of an added key modulo the number of bits. */
  lemma AnswersExactly(states: seq<seq<bv8>>, keys: seq<string>, hashes: Hashes, key: string)
    requires |states| == |keys| + 1 && |states[0]| > 0
    requires forall i :: 0 <= i < |states[0]| ==> states[0][i] == 0
    requires forall i :: 0 <= i < |keys| ==> Adds(states[i], states[i + 1], hashes, keys[i])
    ensures var size := |states[0]| * 8;
      Covers(states[|keys|], hashes, key) <==>
        forall h :: h in hashes(key) ==>
          exists i, g :: 0 <= i < |keys| && g in hashes(keys[i]) && g % size == h % size
    ensures key in keys ==> Covers(states[|keys|], hashes, key)
  {
    var n := |states[0]|;
    BitsAfter(states, keys, hashes, |keys|, 0);
    forall h | h in hashes(key)
      ensures BitSet(states[|keys|], Position(n, h)) <==> Hit(keys, |keys|, hashes, n, h % (n * 8))
    {
      PositionInRange(n, h);
      BitsAfter(states, keys, hashes, |keys|, Position(n, h));
    }
    if key in keys {
      var i :| 0 <= i < |keys| && keys[i] == key;
      assert forall h :: h in hashes(keys[i]) ==> Hit(keys, |keys|, hashes, n, h % (n * 8));
    }
  }
}
