/** The storage engine on plain values: newest-first lookup, compaction, the files a reopen
    reads, and what survives a crash. */
module LsmModel {
  import opened Orders
  import opened Bloom

  type Value = seq<bv8>

  type Table = map<string, Value>

  /** A read: an empty value is how the engine marks a deleted key, so it reads as absent. */
  function Live(v: Option<Value>): Value {
    if v.None? then [] else v.value
  }

  function Get(t: Table, key: string): Option<Value> {
    if key in t then Some(t[key]) else None
  }

  /** Segments, oldest first, read newest first. */
  function Lookup(tables: seq<Table>, key: string): Option<Value> {
    if tables == [] then None
    else if key in tables[|tables| - 1] then Some(tables[|tables| - 1][key])
    else Lookup(tables[..|tables| - 1], key)
  }

  function View(memtable: Table, tables: seq<Table>, key: string): Option<Value> {
    if key in memtable then Some(memtable[key]) else Lookup(tables, key)
  }

  /** The engine reads like the plain map `m`. */
  ghost predicate Reads(memtable: Table, tables: seq<Table>, m: Table) {
    forall key :: Live(View(memtable, tables, key)) == Live(Get(m, key))
  }

  lemma {:induction false} LookupConcat(a: seq<Table>, b: seq<Table>, key: string)
    ensures Lookup(a + b, key) == if Lookup(b, key).Some? then Lookup(b, key) else Lookup(a, key)
    decreases |b|
  {
    if b == [] {
      assert a + b == a;
    } else {
      assert (a + b)[..|a + b| - 1] == a + b[..|b| - 1];
      LookupConcat(a, b[..|b| - 1], key);
    }
  }

  // ------------------------------------------------------- compaction

  function AllKeys(tables: seq<Table>): set<string> {
    if tables == [] then {} else AllKeys(tables[..|tables| - 1]) + tables[|tables| - 1].Keys
  }

  /** The newest value of every key, without the deleted ones. */
  function Compact(tables: seq<Table>): Table {
    map key | key in AllKeys(tables) && Live(Lookup(tables, key)) != [] :: Live(Lookup(tables, key))
  }

  lemma {:induction false} LookupFindsKeys(tables: seq<Table>, key: string)
    ensures Lookup(tables, key).Some? <==> key in AllKeys(tables)
  {
    if tables != [] {
      LookupFindsKeys(tables[..|tables| - 1], key);
    }
  }

  /** Merging the oldest segments and dropping their deleted keys changes no read: nothing
      older is left for a dropped mark to hide. */
  lemma CompactOldest(oldest: seq<Table>, rest: seq<Table>, key: string)
    ensures Live(Lookup([Compact(oldest)] + rest, key)) == Live(Lookup(oldest + rest, key))
  {
    LookupConcat([Compact(oldest)], rest, key);
    LookupConcat(oldest, rest, key);
    LookupFindsKeys(oldest, key);
    assert [Compact(oldest)][..0] == [];
  }

  lemma CompactKeepsReads(memtable: Table, oldest: seq<Table>, rest: seq<Table>, m: Table)
    requires Reads(memtable, oldest + rest, m)
    ensures Reads(memtable, [Compact(oldest)] + rest, m)
  {
    forall key ensures Live(View(memtable, [Compact(oldest)] + rest, key)) == Live(Get(m, key)) {
      CompactOldest(oldest, rest, key);
    }
  }

  /** A newly pushed segment is what is read where it has an entry. */
  lemma PushedViews(memtable: Table, tables: seq<Table>, key: string)
    ensures View(map[], tables + [memtable], key) == View(memtable, tables, key)
  {
    LookupConcat(tables, [memtable], key);
    assert [memtable][..0] == [];
  }

  /** Moving the memtable to a new segment changes no read. */
  lemma FlushKeepsReads(memtable: Table, tables: seq<Table>, m: Table)
    requires Reads(memtable, tables, m)
    ensures Reads(map[], tables + [memtable], m)
    ensures Reads(memtable, tables + [memtable], m)
  {
    forall key
      ensures View(map[], tables + [memtable], key) == View(memtable, tables, key)
      ensures View(memtable, tables + [memtable], key) == View(memtable, tables, key)
    {
      PushedViews(memtable, tables, key);
    }
  }

  lemma PutReads(memtable: Table, tables: seq<Table>, m: Table, key: string, value: Value)
    requires Reads(memtable, tables, m)
    ensures Reads(memtable[key := value], tables, m[key := value])
  {
    var after, wanted := memtable[key := value], m[key := value];
    forall k ensures Live(View(after, tables, k)) == Live(Get(wanted, k)) {
      assert Live(View(memtable, tables, k)) == Live(Get(m, k));
    }
  }

  // ------------------------------------------------------- deletion marks

  /** Whatever is found was once put: nothing appears by itself. */
  ghost predicate Known(memtable: Table, tables: seq<Table>, m: Table) {
    forall key :: View(memtable, tables, key).Some? ==> key in m
  }

  /** The newest entry of the key, in the memtable or else in a segment, is the empty value. */
  predicate MarkLeft(memtable: Table, tables: seq<Table>, key: string) {
    if key in memtable then memtable[key] == []
    else exists i :: 0 <= i < |tables| && NewestIn(tables, i, key) && tables[i][key] == []
  }

  predicate NewestIn(tables: seq<Table>, i: nat, key: string)
    requires i < |tables|
  {
    key in tables[i] && forall j :: i < j < |tables| ==> key !in tables[j]
  }

  lemma {:induction false} LookupNewest(tables: seq<Table>, i: nat, key: string)
    requires i < |tables| && NewestIn(tables, i, key)
    ensures Lookup(tables, key) == Some(tables[i][key])
  {
    if i < |tables| - 1 {
      assert NewestIn(tables[..|tables| - 1], i, key);
      LookupNewest(tables[..|tables| - 1], i, key);
    }
  }

  lemma {:induction false} NewestFound(tables: seq<Table>, key: string) returns (i: nat)
    requires Lookup(tables, key).Some?
    ensures i < |tables| && NewestIn(tables, i, key)
  {
    if key in tables[|tables| - 1] {
      i := |tables| - 1;
    } else {
      i := NewestFound(tables[..|tables| - 1], key);
      assert forall j :: i < j < |tables| ==> key !in tables[j];
    }
  }

  lemma MarkSeen(memtable: Table, tables: seq<Table>, key: string)
    ensures MarkLeft(memtable, tables, key) <==> View(memtable, tables, key) == Some([])
  {
    if key !in memtable {
      if MarkLeft(memtable, tables, key) {
        var i :| 0 <= i < |tables| && NewestIn(tables, i, key) && tables[i][key] == [];
        LookupNewest(tables, i, key);
      }
      if Lookup(tables, key) == Some([]) {
        var i := NewestFound(tables, key);
        LookupNewest(tables, i, key);
      }
    }
  }

  /** Asking whether anything is found is asking whether the key is live, unless the key was
      deleted and its mark is still the newest entry for it. */
  lemma FoundExactly(memtable: Table, tables: seq<Table>, m: Table, key: string)
    requires Reads(memtable, tables, m) && Known(memtable, tables, m)
    ensures (View(memtable, tables, key).Some? <==> Live(Get(m, key)) != []) <==>
            !(key in m && m[key] == [] && MarkLeft(memtable, tables, key))
  {
    MarkSeen(memtable, tables, key);
    assert Live(View(memtable, tables, key)) == Live(Get(m, key));
  }

  /** A compaction of everything leaves no mark. */
  lemma NoMarkAfterMerge(all: seq<Table>, key: string)
    ensures !MarkLeft(map[], [Compact(all)], key)
  {
    MarkSeen(map[], [Compact(all)], key);
    assert [Compact(all)][..0] == [];
  }

  lemma KnownSwap(memtable: Table, oldest: seq<Table>, rest: seq<Table>, m: Table)
    requires Known(memtable, oldest + rest, m)
    ensures Known(memtable, [Compact(oldest)] + rest, m)
  {
    forall key | View(memtable, [Compact(oldest)] + rest, key).Some? ensures key in m {
      LookupConcat([Compact(oldest)], rest, key);
      LookupConcat(oldest, rest, key);
      LookupFindsKeys(oldest, key);
      assert [Compact(oldest)][..0] == [];
      assert View(memtable, oldest + rest, key).Some?;
    }
  }

  // ------------------------------------------------------- files and recovery

  /** Segment files by identifier. Identifiers are creation times, so `meta` is both the set
      of metadata files and the timestamps in them. */
  datatype Disk = Disk(data: map<int, Table>, bloom: map<int, seq<bv8>>, meta: set<int>)

  datatype Durable = Durable(wal: Table, disk: Disk)

  predicate IntLe(a: int, b: int) {
    a <= b
  }

  /** Segments in the order a reopen loads them. */
  ghost function LoadOrder(disk: Disk): seq<int> {
    SortedSet(disk.meta, IntLe)
  }

  /** Every metadata file has its data and filter; otherwise reading them fails and so does
      `open`. */
  predicate Complete(disk: Disk) {
    disk.meta <= disk.data.Keys && disk.meta <= disk.bloom.Keys
  }

  ghost function LoadTables(disk: Disk): seq<Table>
    requires Complete(disk)
  {
    var ids := LoadOrder(disk);
    assert forall i :: 0 <= i < |ids| ==> ids[i] in Elems(ids);
    seq(|ids|, i requires 0 <= i < |ids| => disk.data[ids[i]])
  }

  predicate FilterFits(table: Table, bits: seq<bv8>, hashes: Hashes) {
    |bits| > 0 && forall key :: key in table ==> Covers(bits, hashes, key)
  }

  /** Each saved filter is the one of its data: the file encoding is faithful. */
  ghost predicate FiltersCover(disk: Disk, hashes: Hashes)
    requires Complete(disk)
  {
    forall id :: id in disk.meta ==> FilterFits(disk.data[id], disk.bloom[id], hashes)
  }

  /** Opening from these files succeeds and reads like `m`. */
  ghost predicate RecoversTo(d: Durable, hashes: Hashes, m: Table) {
    Complete(d.disk) && FiltersCover(d.disk, hashes) && Reads(d.wal, LoadTables(d.disk), m)
  }

  lemma IntOrder()
    ensures TotalOrder(IntLe)
  {
  }

  lemma {:induction false} AscendingIsLoadOrder(disk: Disk, ids: seq<int>)
    requires Elems(ids) == disk.meta && forall i, j :: 0 <= i < j < |ids| ==> ids[i] < ids[j]
    ensures LoadOrder(disk) == ids
  {
    IntOrder();
    SortedListing(ids, disk.meta, IntLe);
    SortSorts(ids, IntLe);
    SortPermutes(ids, IntLe);
    SortedUnique(ids, SortBy(ids, IntLe), IntLe);
  }

  predicate Ascending(ids: seq<int>) {
    forall i, j :: 0 <= i < j < |ids| ==> ids[i] < ids[j]
  }

  /** Every listed segment has its files, and nothing else has metadata. */
  ghost predicate Shows(disk: Disk, ids: seq<int>, tables: seq<Table>, hashes: Hashes) {
    && |ids| == |tables|
    && disk.meta == Elems(ids)
    && Complete(disk) && FiltersCover(disk, hashes)
    && (forall i :: 0 <= i < |ids| ==> ids[i] in disk.meta && disk.data[ids[i]] == tables[i])
  }

  /** What is on disk is what is in memory, and in the order of the timestamps. */
  ghost predicate Mirrored(disk: Disk, ids: seq<int>, tables: seq<Table>, hashes: Hashes) {
    Ascending(ids) && Shows(disk, ids, tables, hashes)
  }

  lemma MirroredLoads(disk: Disk, ids: seq<int>, tables: seq<Table>, hashes: Hashes)
    requires Mirrored(disk, ids, tables, hashes)
    ensures LoadTables(disk) == tables
  {
    AscendingIsLoadOrder(disk, ids);
  }

  lemma MirroredRecovers(d: Durable, ids: seq<int>, tables: seq<Table>, hashes: Hashes, m: Table)
    requires Mirrored(d.disk, ids, tables, hashes) && Reads(d.wal, tables, m)
    ensures RecoversTo(d, hashes, m)
  {
    MirroredLoads(d.disk, ids, tables, hashes);
  }

  /** What a reopen loads mirrors the files it loaded it from. */
  lemma LoadMirrored(disk: Disk, hashes: Hashes)
    requires Complete(disk) && FiltersCover(disk, hashes)
    ensures Mirrored(disk, LoadOrder(disk), LoadTables(disk), hashes)
  {
    var ids := LoadOrder(disk);
    IntOrder();
    SetSeqLists(disk.meta);
    SortSorts(SetSeq(disk.meta), IntLe);
    assert SortedBy(ids, IntLe);
    forall i, j | 0 <= i < j < |ids| ensures ids[i] < ids[j] {
      assert IntLe(ids[i], ids[j]) && ids[i] != ids[j];
    }
    forall i | 0 <= i < |ids| ensures ids[i] in disk.meta {
      assert ids[i] in Elems(ids);
    }
  }

  /** Memtable and segments flattened into one map, deletion marks and all. */
  function Flat(all: seq<Table>): Table {
    map key | key in AllKeys(all) :: Live(Lookup(all, key))
  }

  lemma FlatReads(memtable: Table, tables: seq<Table>)
    ensures Reads(memtable, tables, Flat(tables + [memtable])) && Known(memtable, tables, Flat(tables + [memtable]))
  {
    var all := tables + [memtable];
    forall key
      ensures Live(View(memtable, tables, key)) == Live(Get(Flat(all), key))
      ensures View(memtable, tables, key).Some? ==> key in Flat(all)
    {
      LookupConcat(tables, [memtable], key);
      assert [memtable][..0] == [];
      LookupFindsKeys(all, key);
    }
  }

  function WriteData(disk: Disk, id: int, table: Table): Disk {
    disk.(data := disk.data[id := table])
  }

  function WriteBloom(disk: Disk, id: int, bits: seq<bv8>): Disk {
    disk.(bloom := disk.bloom[id := bits])
  }

  function WriteMeta(disk: Disk, id: int): Disk {
    disk.(meta := disk.meta + {id})
  }

  predicate HasFiles(disk: Disk, id: int, table: Table, bits: seq<bv8>, written: nat) {
    && (written >= 1 ==> id in disk.data && disk.data[id] == table)
    && (written >= 2 ==> id in disk.bloom && disk.bloom[id] == bits)
  }

  /** Files without metadata are invisible to a reopen. */
  lemma ShowsOrphan(disk: Disk, ids: seq<int>, tables: seq<Table>,
      hashes: Hashes, id: int, table: Table, bits: seq<bv8>)
    requires Shows(disk, ids, tables, hashes) && id !in ids
    ensures Shows(WriteData(disk, id, table), ids, tables, hashes)
    ensures Shows(WriteBloom(disk, id, bits), ids, tables, hashes)
    ensures Shows(disk.(data := disk.data - {id}), ids, tables, hashes)
    ensures Shows(disk.(bloom := disk.bloom - {id}), ids, tables, hashes)
  {
    assert id !in Elems(ids);
  }

  /** Metadata written in the middle of the list: the segment appears there. */
  lemma ShowsInsert(disk: Disk, a: seq<int>, b: seq<int>, ta: seq<Table>, tb: seq<Table>, hashes: Hashes,
                    id: int, table: Table, bits: seq<bv8>)
    requires |a| == |ta| && Shows(disk, a + b, ta + tb, hashes)
    requires HasFiles(disk, id, table, bits, 2) && FilterFits(table, bits, hashes)
    ensures Shows(WriteMeta(disk, id), a + ([id] + b), ta + ([table] + tb), hashes)
  {
    var ids, after := a + b, a + ([id] + b);
    forall x ensures x in Elems(after) <==> x in Elems(ids) + {id} {
      assert x in after <==> x in a || x == id || x in b;
    }
    forall i | 0 <= i < |after|
      ensures after[i] in disk.meta + {id} && after[i] in disk.data && disk.data[after[i]] == (ta + ([table] + tb))[i]
    {
      if i < |a| {
        assert after[i] == ids[i];
      } else if i > |a| {
        assert after[i] == ids[i - 1];
      }
    }
  }

  lemma ShowsTail(disk: Disk, v: int, ids: seq<int>, tables: seq<Table>, hashes: Hashes)
    requires tables != [] && Shows(disk, [v] + ids, tables, hashes) && v !in ids
    ensures Shows(disk.(meta := disk.meta - {v}), ids, tables[1..], hashes)
  {
    var all := [v] + ids;
    forall x ensures x in Elems(all) <==> x == v || x in Elems(ids) {
      assert x in all <==> x == v || x in ids;
    }
    assert forall i :: 0 <= i < |ids| ==> ids[i] == all[i + 1];
  }

  lemma HeadShown(disk: Disk, v: int, ids: seq<int>, tables: seq<Table>, hashes: Hashes)
    requires Shows(disk, [v] + ids, tables, hashes)
    ensures v in disk.meta
  {
    assert ([v] + ids)[0] == v;
  }

  lemma ShowsSizes(disk: Disk, ids: seq<int>, tables: seq<Table>, hashes: Hashes)
    requires Shows(disk, ids, tables, hashes)
    ensures |ids| == |tables|
  {
  }

  /** Which of the segments a compaction merges, as its guard has it: at most five. */
  function MergeCount(segments: nat): nat {
    if segments < 5 then segments else 5
  }

  // ------------------------------------------------------- a crash while compacting

  /** The files after `step` of the compaction's file operations: three writes, then three
      deletions per merged segment, oldest first, data before filter before metadata. */
  function CompactionDisk(disk: Disk, ids: seq<int>, id: int, table: Table, bits: seq<bv8>, step: nat): Disk
    requires step <= 3 + 3 * |ids|
  {
    if step == 0 then disk
    else
      var before := CompactionDisk(disk, ids, id, table, bits, step - 1);
      NextFiles(before, ids, id, table, bits, step - 1)
  }

  /** The file operation number `step`, counted from zero. */
  function NextFiles(disk: Disk, ids: seq<int>, id: int, table: Table, bits: seq<bv8>, step: nat): Disk
    requires step < 3 + 3 * |ids|
  {
    if step == 0 then WriteData(disk, id, table)
    else if step == 1 then WriteBloom(disk, id, bits)
    else if step == 2 then WriteMeta(disk, id)
    else
      var victim := ids[(step - 3) / 3];
      if step % 3 == 0 then disk.(data := disk.data - {victim})
      else if step % 3 == 1 then disk.(bloom := disk.bloom - {victim})
      else disk.(meta := disk.meta - {victim})
  }

  /** The files of a segment gone, all three of them. */
  function DropFiles(disk: Disk, id: int): Disk {
    Disk(disk.data - {id}, disk.bloom - {id}, disk.meta - {id})
  }

  lemma DropOldest(disk: Disk, ids: seq<int>, tables: seq<Table>, hashes: Hashes)
    requires Mirrored(disk, ids, tables, hashes) && ids != []
    ensures Mirrored(DropFiles(disk, ids[0]), ids[1..], tables[1..], hashes)
  {
    assert ids == [ids[0]] + ids[1..];
    var one := disk.(meta := disk.meta - {ids[0]});
    assert ids[0] !in ids[1..];
    ShowsTail(disk, ids[0], ids[1..], tables, hashes);
    ShowsOrphan(one, ids[1..], tables[1..], hashes, ids[0], map[], []);
    ShowsOrphan(one.(data := one.data - {ids[0]}), ids[1..], tables[1..], hashes, ids[0], map[], []);
    assert Ascending(ids[1..]);
  }

  lemma CompactionWrites(disk: Disk, ids: seq<int>, id: int, table: Table, bits: seq<bv8>)
    ensures CompactionDisk(disk, ids, id, table, bits, 0) == disk
    ensures CompactionDisk(disk, ids, id, table, bits, 1) == WriteData(disk, id, table)
    ensures CompactionDisk(disk, ids, id, table, bits, 2) == WriteBloom(WriteData(disk, id, table), id, bits)
    ensures CompactionDisk(disk, ids, id, table, bits, 3) ==
      WriteMeta(WriteBloom(WriteData(disk, id, table), id, bits), id)
  {
    assert CompactionDisk(disk, ids, id, table, bits, 0) == disk;
  }

  /** The three deletions of the j-th victim, one at a time. */
  lemma CompactionDeletes(disk: Disk, ids: seq<int>, id: int, table: Table, bits: seq<bv8>, j: nat)
    requires j < |ids|
    ensures var before := CompactionDisk(disk, ids, id, table, bits, 3 + 3 * j);
            && CompactionDisk(disk, ids, id, table, bits, 3 + 3 * j + 1) == before.(data := before.data - {ids[j]})
            && CompactionDisk(disk, ids, id, table, bits, 3 + 3 * j + 2)
               == before.(data := before.data - {ids[j]}, bloom := before.bloom - {ids[j]})
            && CompactionDisk(disk, ids, id, table, bits, 3 + 3 * (j + 1)) == DropFiles(before, ids[j])
  {
    var s := 3 + 3 * j;
    assert (s - 3) / 3 == j && (s + 1 - 3) / 3 == j && (s + 2 - 3) / 3 == j;
    assert s % 3 == 0 && (s + 1) % 3 == 1 && (s + 2) % 3 == 2;
    assert 3 + 3 * (j + 1) == s + 3;
  }

  /** A compaction of the `n` oldest segments about to start over files that mirror memory,
      and the map the engine reads like. */
  datatype Scene = Scene(wal: Table, disk: Disk, ids: seq<int>, tables: seq<Table>, id: int, bits: seq<bv8>)

  ghost predicate Starts(c: Scene, hashes: Hashes, n: nat, m: Table) {
    && Mirrored(c.disk, c.ids, c.tables, hashes) && (forall other :: other in c.ids ==> other < c.id)
    && n <= |c.ids| && FilterFits(Compact(c.tables[..n]), c.bits, hashes) && Reads(c.wal, c.tables, m)
  }

  /** What a crash after that many of its file operations leaves. */
  ghost function After(c: Scene, n: nat, step: nat): Durable
    requires n <= |c.ids| && n <= |c.tables| && step <= 3 + 3 * n
  {
    Durable(c.wal, CompactionDisk(c.disk, c.ids[..n], c.id, Compact(c.tables[..n]), c.bits, step))
  }

  /** Whole deletions in, the files mirror the segments still there and the merged one, which
      has the newest timestamp and so comes last. */
  lemma {:induction false} CompactionMirrored(c: Scene, hashes: Hashes, n: nat, m: Table, j: nat)
    requires Starts(c, hashes, n, m) && j <= n
    ensures |c.ids| == |c.tables|
    ensures Mirrored(After(c, n, 3 + 3 * j).disk, c.ids[j..] + [c.id], c.tables[j..] + [Compact(c.tables[..n])], hashes)
  {
    hide Starts, Mirrored, CompactionDisk, Compact;
    SceneSizes(c, hashes, n, m);
    var table := Compact(c.tables[..n]);
    if j == 0 {
      MergedListed(c, hashes, n, m);
      assert c.ids[0..] == c.ids && c.tables[0..] == c.tables;
    } else {
      CompactionMirrored(c, hashes, n, m, j - 1);
      var before := After(c, n, 3 + 3 * (j - 1)).disk;
      DropOldest(before, c.ids[j - 1..] + [c.id], c.tables[j - 1..] + [table], hashes);
      assert (c.ids[j - 1..] + [c.id])[1..] == c.ids[j..] + [c.id];
      assert (c.tables[j - 1..] + [table])[1..] == c.tables[j..] + [table];
      CompactionDeletes(c.disk, c.ids[..n], c.id, table, c.bits, j - 1);
    }
  }

  lemma SceneSizes(c: Scene, hashes: Hashes, n: nat, m: Table)
    requires Starts(c, hashes, n, m)
    ensures n <= |c.ids| == |c.tables|
  {
  }

  /** The merged segment's two other files change nothing that a reopen sees. */
  lemma MergedHidden(c: Scene, hashes: Hashes, n: nat, m: Table, step: nat)
    requires Starts(c, hashes, n, m) && step < 3
    ensures |c.ids| == |c.tables| && Mirrored(After(c, n, step).disk, c.ids, c.tables, hashes)
  {
    hide Shows, CompactionDisk, FilterFits, Compact, Reads;
    SceneSizes(c, hashes, n, m);
    var table := Compact(c.tables[..n]);
    CompactionWrites(c.disk, c.ids[..n], c.id, table, c.bits);
    assert c.id !in c.ids;
    ShowsOrphan(c.disk, c.ids, c.tables, hashes, c.id, table, c.bits);
    ShowsOrphan(WriteData(c.disk, c.id, table), c.ids, c.tables, hashes, c.id, table, c.bits);
  }

  lemma MergedListed(c: Scene, hashes: Hashes, n: nat, m: Table)
    requires Starts(c, hashes, n, m)
    ensures |c.ids| == |c.tables|
    ensures Mirrored(After(c, n, 3).disk, c.ids + [c.id], c.tables + [Compact(c.tables[..n])], hashes)
  {
    hide Shows, CompactionDisk, FilterFits, Compact, Reads;
    SceneSizes(c, hashes, n, m);
    var table := Compact(c.tables[..n]);
    MergedHidden(c, hashes, n, m, 2);
    CompactionWrites(c.disk, c.ids[..n], c.id, table, c.bits);
    assert c.ids + [] == c.ids && c.tables + [] == c.tables && [c.id] + [] == [c.id] && [table] + [] == [table];
    ShowsInsert(After(c, n, 2).disk, c.ids, [], c.tables, [], hashes, c.id, table, c.bits);
    assert forall i :: 0 <= i < |c.ids| ==> c.ids[i] in c.ids;
  }

  /** What a reopen loads then: the segments not deleted, and the merged one over them. */
  function Reloaded(tables: seq<Table>, n: nat, j: nat): seq<Table>
    requires j <= n <= |tables|
  {
    tables[j..] + [Compact(tables[..n])]
  }

  lemma LoadsReloaded(c: Scene, hashes: Hashes, n: nat, m: Table, j: nat)
    requires Starts(c, hashes, n, m) && j <= n
    ensures |c.ids| == |c.tables| && Complete(After(c, n, 3 + 3 * j).disk)
    ensures LoadTables(After(c, n, 3 + 3 * j).disk) == Reloaded(c.tables, n, j)
  {
    CompactionMirrored(c, hashes, n, m, j);
    MirroredLoads(After(c, n, 3 + 3 * j).disk, c.ids[j..] + [c.id], Reloaded(c.tables, n, j), hashes);
  }

  /** Segments that a finished part of the deletion left, read under the merged one. */
  lemma MergedOverRest(tables: seq<Table>, j: nat, key: string)
    requires j <= |tables|
    ensures Live(Lookup(tables[j..] + [Compact(tables)], key)) == Live(Lookup(tables, key))
  {
    LookupConcat(tables[j..], [Compact(tables)], key);
    LookupConcat(tables[..j], tables[j..], key);
    assert tables[..j] + tables[j..] == tables;
    assert [Compact(tables)][..0] == [];
    LookupFindsKeys(tables, key);
  }

  lemma MergedReads(wal: Table, tables: seq<Table>, j: nat, m: Table)
    requires Reads(wal, tables, m) && j <= |tables|
    ensures Reads(wal, tables[j..] + [Compact(tables)], m)
  {
    var left := tables[j..] + [Compact(tables)];
    forall key ensures Live(View(wal, left, key)) == Live(Get(m, key)) {
      MergedOverRest(tables, j, key);
      assert Live(View(wal, tables, key)) == Live(Get(m, key));
    }
  }

  /** A crash anywhere among the file operations of a compaction, of any number of segments:
      the engine opens again exactly when no segment is caught between losing its data and
      losing its metadata. Before the merged metadata is there it reads as before, and if every
      segment was taken it does so whenever it opens. */
  lemma CrashWhileCompacting(c: Scene, hashes: Hashes, n: nat, m: Table, step: nat)
    requires Starts(c, hashes, n, m) && step <= 3 + 3 * n
    ensures |c.ids| == |c.tables|
    ensures Complete(After(c, n, step).disk) <==> step <= 3 || step % 3 == 0
    ensures step < 3 || (n == |c.ids| && step % 3 == 0) ==> RecoversTo(After(c, n, step), hashes, m)
  {
    hide Starts, Mirrored, Compact, CompactionDisk, RecoversTo, Complete;
    SceneSizes(c, hashes, n, m);
    if step < 3 {
      MergedHidden(c, hashes, n, m, step);
      ReadsBefore(c, hashes, n, m);
      MirroredComplete(After(c, n, step).disk, c.ids, c.tables, hashes);
      MirroredRecovers(After(c, n, step), c.ids, c.tables, hashes, m);
    } else {
      CrashAmongDeletions(c, hashes, n, m, step);
    }
  }

  lemma ReadsBefore(c: Scene, hashes: Hashes, n: nat, m: Table)
    requires Starts(c, hashes, n, m)
    ensures Reads(c.wal, c.tables, m)
  {
  }

  lemma CrashAmongDeletions(c: Scene, hashes: Hashes, n: nat, m: Table, step: nat)
    requires Starts(c, hashes, n, m) && 3 <= step <= 3 + 3 * n
    ensures |c.ids| == |c.tables|
    ensures Complete(After(c, n, step).disk) <==> step % 3 == 0
    ensures n == |c.ids| && step % 3 == 0 ==> RecoversTo(After(c, n, step), hashes, m)
  {
    hide Starts, Mirrored, Compact, CompactionDisk, RecoversTo, Complete, Reads;
    SceneSizes(c, hashes, n, m);
    var table, j := Compact(c.tables[..n]), (step - 3) / 3;
    CompactionMirrored(c, hashes, n, m, j);
    var before := After(c, n, 3 + 3 * j).disk;
    var ids, tables := c.ids[j..] + [c.id], c.tables[j..] + [table];
    MirroredComplete(before, ids, tables, hashes);
    if step % 3 == 0 {
      assert step == 3 + 3 * j;
      if n == |c.ids| {
        assert c.tables[..n] == c.tables;
        ReadsBefore(c, hashes, n, m);
        MergedReads(c.wal, c.tables, j, m);
        MirroredRecovers(After(c, n, step), ids, tables, hashes, m);
      }
    } else {
      CompactionDeletes(c.disk, c.ids[..n], c.id, table, c.bits, j);
      assert step == 3 + 3 * j + 1 || step == 3 + 3 * j + 2;
      CaughtBetween(before, ids, tables, hashes, After(c, n, step).disk);
    }
  }

  lemma MirroredComplete(disk: Disk, ids: seq<int>, tables: seq<Table>, hashes: Hashes)
    requires Mirrored(disk, ids, tables, hashes)
    ensures Complete(disk)
  {
  }

  lemma CaughtBetween(disk: Disk, ids: seq<int>, tables: seq<Table>, hashes: Hashes, after: Disk)
    requires Mirrored(disk, ids, tables, hashes) && ids != []
    requires after.meta == disk.meta && ids[0] !in after.data
    ensures !Complete(after)
  {
    assert ids[0] in Elems(ids);
  }

  // ------------------------------------------------------- reopening after a compaction

  /** Whatever the segments hold, the files left with the merged segment listed and `j`
      victims deleted recover to what the engine read before. */
  ghost predicate ReopenFaithful(hashes: Hashes, count: nat, n: nat, j: nat)
    requires j <= n <= count
  {
    forall c: Scene, m: Table :: Starts(c, hashes, n, m) && |c.ids| == |c.tables| == count ==>
      RecoversTo(After(c, n, 3 + 3 * j), hashes, m)
  }

  lemma FullByte(h: nat)
    ensures BitSet([255], Position(1, h))
  {
    PositionInRange(1, h);
    Masks(Position(1, h));
  }

  /** An old value and a new one for the same key, in segments the compaction does and does
      not take: after a reopen the old one is read. */
  lemma StaleRead(hashes: Hashes, count: nat, n: nat, j: nat) returns (c: Scene, m: Table)
    requires 0 < n < count && j <= n
    ensures Starts(c, hashes, n, m) && |c.ids| == |c.tables| == count
    ensures Live(Get(m, "k")) == [2]
    ensures Live(View(c.wal, c.tables, "k")) == [2] && Live(View(c.wal, Reloaded(c.tables, n, j), "k")) == [1]
    ensures !RecoversTo(After(c, n, 3 + 3 * j), hashes, m)
  {
    hide Starts, Complete, CompactionDisk, RecoversTo;
    var oldest: Table := map["k" := [1]];
    var newest: Table := map["k" := [2]];
    var tables := seq(count, i => if i < n then oldest else newest);
    var ids := seq(count, i => i);
    var disk := Disk(map i | i in Elems(ids) :: tables[i], map i | i in Elems(ids) :: [255], Elems(ids));
    c := Scene(map[], disk, ids, tables, count, [255]);
    m := newest;
    forall i | 0 <= i < count ensures ids[i] == i && i in Elems(ids) && disk.data[i] == tables[i] {
      assert ids[i] in ids;
    }
    StaleStarts(c, hashes, n, m);
    StaleLookups(tables, n, j);
    ReloadShows(c, hashes, n, m, j, "k");
  }

  lemma ReloadShows(c: Scene, hashes: Hashes, n: nat, m: Table, j: nat, key: string)
    requires Starts(c, hashes, n, m) && j <= n && |c.ids| == |c.tables|
    requires Live(View(c.wal, Reloaded(c.tables, n, j), key)) != Live(Get(m, key))
    ensures !RecoversTo(After(c, n, 3 + 3 * j), hashes, m)
  {
    hide Starts, CompactionDisk, Compact, LoadTables;
    LoadsReloaded(c, hashes, n, m, j);
  }

  lemma StaleLookups(tables: seq<Table>, n: nat, j: nat)
    requires 0 < n < |tables| && j <= n
    requires forall i :: 0 <= i < |tables| ==> tables[i] == map["k" := if i < n then [1] else [2]]
    ensures Live(Lookup(tables, "k")) == [2] && Live(Lookup(Reloaded(tables, n, j), "k")) == [1]
  {
    assert tables[..n] == tables[..n - 1] + [tables[n - 1]];
    assert Lookup(tables[..n], "k") == Some([1]);
    LookupFindsKeys(tables[..n], "k");
    assert Reloaded(tables, n, j)[|Reloaded(tables, n, j)| - 1] == Compact(tables[..n]);
  }

  lemma StaleStarts(c: Scene, hashes: Hashes, n: nat, m: Table)
    requires 0 < n < |c.tables| == |c.ids| == c.id && c.wal == map[] && m == map["k" := [2]]
    requires c.disk.meta == c.disk.data.Keys == c.disk.bloom.Keys == Elems(c.ids)
    requires forall i :: 0 <= i < |c.ids| ==> c.ids[i] == i && i in Elems(c.ids) && c.disk.data[i] == c.tables[i]
    requires forall i :: 0 <= i < |c.ids| ==> c.tables[i] == if i < n then map["k" := [1]] else m
    requires (forall i :: i in c.disk.bloom ==> c.disk.bloom[i] == [255]) && c.bits == [255]
    ensures Starts(c, hashes, n, m)
  {
    forall table: Table ensures FilterFits(table, [255], hashes) {
      forall key, h: nat | key in table && h in hashes(key) ensures BitSet([255], Position(1, h)) { FullByte(h); }
    }
    hide FilterFits, Compact;
    forall key ensures Live(View(c.wal, c.tables, key)) == Live(Get(m, key)) {
      OnlyOneKey(c.tables, key);
      assert c.tables[|c.tables| - 1] == m;
    }
  }

  lemma {:induction false} OnlyOneKey(tables: seq<Table>, key: string)
    requires forall i :: 0 <= i < |tables| ==> tables[i].Keys == {"k"}
    ensures key != "k" ==> Lookup(tables, key) == None
  {
    if tables != [] {
      OnlyOneKey(tables[..|tables| - 1], key);
      assert tables[|tables| - 1].Keys == {"k"};
    }
  }

  /** Closing and reopening after a compaction, or after a crash among its deletions, keeps
      every read, whatever the segments hold, exactly when the compaction took all of them. */
  lemma ReopenExactly(hashes: Hashes, count: nat, n: nat, j: nat)
    requires 0 < n <= count && j <= n
    ensures ReopenFaithful(hashes, count, n, j) <==> n == count
  {
    hide Starts, RecoversTo, After;
    if n == count {
      forall c: Scene, m: Table | Starts(c, hashes, n, m) && |c.ids| == |c.tables| == count
        ensures RecoversTo(After(c, n, 3 + 3 * j), hashes, m)
      {
        CrashWhileCompacting(c, hashes, n, m, 3 + 3 * j);
      }
    } else {
      var c, m := StaleRead(hashes, count, n, j);
    }
  }

  /** With the engine's own count, then: exactly when at most five segments were there. The
      default threshold starts a compaction at ten. */
  lemma ReopenAfterCompaction(hashes: Hashes, count: nat, j: nat)
    requires count >= 2 && j <= MergeCount(count)
    ensures ReopenFaithful(hashes, count, MergeCount(count), j) <==> count <= 5
  {
    ReopenExactly(hashes, count, MergeCount(count), j);
  }
}
