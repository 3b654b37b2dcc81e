/** A segment: its entries, the Bloom filter in front of them and their Merkle tree. */
module SSTables {
  import opened Orders
  import opened Bloom
  import opened Merkle
  import opened LsmModel

  class SSTable {
    const id: int
    const bloom: BloomFilter
    const merkle: MerkleTree
    var data: Table

    ghost function Repr(): set<object> {
      {this, bloom.bits, merkle}
    }

    /** No key of the segment is hidden by the filter, and the tree holds its entries. */
    ghost predicate Valid()
      reads this, bloom.bits, merkle
    {
      && bloom.bits.Length > 0
      && (forall key :: key in data ==> Covers(bloom.bits[..], bloom.hashes, key))
      && merkle.Valid()
      && merkle.leaves == map key | key in data :: merkle.hasher.leaf(key, data[key])
    }

    constructor (id: int, bloomSize: nat, hashes: Hashes, hasher: Hasher)
      requires bloomSize > 0
      ensures Valid() && data == map[] && this.id == id && bloom.hashes == hashes && merkle.hasher == hasher
      ensures fresh(Repr())
    {
      this.id := id;
      bloom := new BloomFilter(bloomSize, hashes);
      merkle := new MerkleTree(hasher);
      data := map[];
    }

    method Add(key: string, value: Value)
      requires Valid()
      modifies Repr()
      ensures Valid() && data == old(data)[key := value]
    {
      hide Adds, Covers, InKeyOrder, Root;
      ghost var before := bloom.bits[..];
      data := data[key := value];
      bloom.Add(key);
      merkle.Add(key, value);
      ghost var after := bloom.bits[..];
      forall k | k in data ensures Covers(after, bloom.hashes, k) {
        AddCovers(before, after, bloom.hashes, key, k);
      }
    }

    /** The filter in front never changes the answer. */
    method Get(key: string) returns (r: Option<Value>)
      requires Valid()
      ensures r == LsmModel.Get(data, key)
    {
      var maybe := bloom.MightContain(key);
      if !maybe {
        return None;
      }
      r := if key in data then Some(data[key]) else None;
    }

    method Has(key: string) returns (r: bool)
      requires Valid()
      ensures r <==> key in data
    {
      var maybe := bloom.MightContain(key);
      if !maybe {
        return false;
      }
      r := key in data;
    }

    /** The root recorded in the metadata: that of the entries, in key order. */
    method Finalize() returns (root: Bytes)
      requires Valid()
      modifies merkle`root
      ensures Valid()
      ensures root == if data == map[] then seq(32, i => 0)
                      else Root(merkle.hasher, LeafList(map key | key in data :: merkle.hasher.leaf(key, data[key])))
    {
      hide InKeyOrder, Root;
      root := merkle.GetRoot();
      assert data == map[] <==> merkle.leaves == map[] by {
        assert merkle.leaves.Keys == data.Keys;
      }
    }

    /** Reading a segment back: the saved filter is taken over, the tree is rebuilt. */
    constructor Load(id: int, entries: Table, bits: seq<bv8>, hashes: Hashes, hasher: Hasher)
      requires |bits| > 0 && forall key :: key in entries ==> Covers(bits, hashes, key)
      ensures Valid() && data == entries && this.id == id && bloom.hashes == hashes && merkle.hasher == hasher
      ensures bloom.bits[..] == bits && fresh(Repr())
    {
      this.id := id;
      bloom := new BloomFilter.Deserialize(bits, hashes);
      merkle := new MerkleTree(hasher);
      data := map[];
      new;
      Refill(entries);
    }

    method Refill(entries: Table)
      requires data == map[] && merkle.Valid() && merkle.leaves == map[]
      modifies this`data, merkle
      ensures data == entries && merkle.Valid()
      ensures merkle.leaves == map key | key in entries :: merkle.hasher.leaf(key, entries[key])
    {
      hide MerkleTree.Valid;
      var rest := entries.Keys;
      while rest != {}
        invariant rest <= entries.Keys && data == entries - rest && merkle.Valid()
        invariant merkle.leaves == map key | key in entries && key !in rest :: merkle.hasher.leaf(key, entries[key])
        decreases rest
      {
        var key :| key in rest;
        rest := rest - {key};
        data := data[key := entries[key]];
        merkle.Add(key, entries[key]);
      }
    }
  }
}
