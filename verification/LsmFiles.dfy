/** The files of the storage engine while a flush and a compaction write and delete them in
    turns, and what a reopen finds in them after a crash at any moment. */
module LsmFiles {
  import opened Orders
  import opened Bloom
  import opened LsmModel

  /** A suspended `compact` call: the segments it merges, the merged segment, how many of its
      file operations are done, and how many segments it left unmerged when it started. */
  datatype Job =
    | Idle
    | Merging(victims: seq<int>, sources: seq<Table>, id: int, bits: seq<bv8>, step: nat, swapped: bool, left: nat)

  /** A segment a flush is writing: the entries are those of the log. */
  datatype Arrival = Nothing | Arriving(id: int, bits: seq<bv8>, written: nat)

  datatype Store = Store(wal: Table, disk: Disk, ids: seq<int>, tables: seq<Table>, job: Job, arrival: Arrival)

  /** Until the swap, what is merged is the oldest part of the list; after it, the merged
      segment is the first of the list. */
  ghost predicate WellFormed(s: Store) {
    && |s.ids| == |s.tables|
    && (s.job.Merging? ==>
          && |s.job.victims| == |s.job.sources|
          && if s.job.swapped then
               && 3 <= s.job.step <= 3 + 3 * |s.job.victims|
               && s.ids != [] && s.ids[0] == s.job.id && s.tables[0] == Compact(s.job.sources)
             else
               s.job.step <= 3 && s.job.victims <= s.ids && s.job.sources <= s.tables)
    && (s.arrival.Arriving? ==> s.arrival.written <= 3)
  }

  function Victims(job: Job): seq<int> {
    if job.Merging? then job.victims else []
  }

  function Sources(job: Job): seq<Table> {
    if job.Merging? then job.sources else []
  }

  /** How many victims have lost their data. */
  function Deleted(job: Job): nat {
    if job.Merging? && job.step > 3 then (job.step - 1) / 3 else 0
  }

  /** The list as it is once the swap is done. */
  ghost function RestIds(s: Store): seq<int>
    requires WellFormed(s)
  {
    if s.job.Merging? && !s.job.swapped then [s.job.id] + s.ids[|s.job.victims|..] else s.ids
  }

  ghost function RestTables(s: Store): seq<Table>
    requires WellFormed(s)
  {
    if s.job.Merging? && !s.job.swapped then [Compact(s.job.sources)] + s.tables[|s.job.victims|..] else s.tables
  }

  function ArrivingIds(arrival: Arrival): seq<int> {
    if arrival.Arriving? then [arrival.id] else []
  }

  /** The arriving segment once its metadata is written. */
  function ListedIds(s: Store): seq<int> {
    if s.arrival.Arriving? && s.arrival.written == 3 then [s.arrival.id] else []
  }

  function ListedTables(s: Store): seq<Table> {
    if s.arrival.Arriving? && s.arrival.written == 3 then [s.wal] else []
  }

  ghost function AllIds(s: Store): seq<int>
    requires WellFormed(s)
  {
    Victims(s.job) + RestIds(s) + ArrivingIds(s.arrival)
  }

  lemma DeletedInRange(s: Store)
    requires WellFormed(s)
    ensures Deleted(s.job) <= |Victims(s.job)|
  {
  }

  /** The segments with metadata, apart from a victim whose deletion is half done. */
  ghost function ShownIds(s: Store): seq<int>
    requires WellFormed(s)
  {
    DeletedInRange(s);
    (if s.job.Merging? && s.job.step < 3 then s.ids else Victims(s.job)[Deleted(s.job)..] + RestIds(s)) + ListedIds(s)
  }

  ghost function ShownTables(s: Store): seq<Table>
    requires WellFormed(s)
  {
    DeletedInRange(s);
    (if s.job.Merging? && s.job.step < 3 then s.tables else Sources(s.job)[Deleted(s.job)..] + RestTables(s)) +
      ListedTables(s)
  }

  /** A victim is half deleted: its data is gone and its metadata is not. */
  predicate Caught(job: Job) {
    job.Merging? && job.step > 3 && job.step % 3 != 0
  }

  function Stray(job: Job): set<int> {
    if Caught(job) && (job.step - 4) / 3 < |job.victims| then {job.victims[(job.step - 4) / 3]} else {}
  }

  /** The files without the metadata of a half-deleted victim. */
  function Repaired(s: Store): Disk {
    s.disk.(meta := s.disk.meta - Stray(s.job))
  }

  /** The files written so far for a segment that has no metadata yet. */
  ghost predicate Pending(s: Store, hashes: Hashes) {
    && (s.job.Merging? ==> FilterFits(Compact(s.job.sources), s.job.bits, hashes))
    && (s.job.Merging? && s.job.step < 3 ==>
          HasFiles(s.disk, s.job.id, Compact(s.job.sources), s.job.bits, s.job.step))
    && (s.arrival.Arriving? ==> FilterFits(s.wal, s.arrival.bits, hashes))
    && (s.arrival.Arriving? && s.arrival.written < 3 ==>
          HasFiles(s.disk, s.arrival.id, s.wal, s.arrival.bits, s.arrival.written))
  }

  /** Every listed segment has its files, and a victim whose data is gone is all that may be
      left over. */
  ghost predicate Visible(s: Store, hashes: Hashes)
    requires WellFormed(s)
  {
    && Shows(Repaired(s), ShownIds(s), ShownTables(s), hashes)
    && (forall v :: v in Stray(s.job) ==> v in s.disk.meta && v !in s.disk.data)
  }

  /** What comes later has a later identifier: the merged segment than its victims, the
      arriving one than all others, and what follows the merged one than itself, unless the
      compaction left some older segment where it was. */
  ghost predicate Dated(s: Store)
    requires WellFormed(s)
  {
    && (s.job.Merging? ==> forall v :: v in s.job.victims ==> v < s.job.id)
    && (s.job.Merging? ==> (s.job.left == 0 <==> Ascending(RestIds(s))))
    && (s.arrival.Arriving? ==> forall id :: id in Victims(s.job) || id in RestIds(s) ==> id < s.arrival.id)
  }

  /** Memory and files are in step, whatever is being written or deleted. */
  ghost predicate InStep(s: Store, hashes: Hashes) {
    WellFormed(s) && NoDup(AllIds(s)) && Dated(s) && Visible(s, hashes) && Pending(s, hashes)
  }

  /** The files are listed in the order of their timestamps. */
  ghost predicate Ordered(s: Store) {
    WellFormed(s) && Ascending(ShownIds(s))
  }

  /** The metadata of a merged segment has just been written over older segments that its
      compaction left where they were. */
  predicate LosesOrder(s: Store) {
    s.job.Merging? && !s.job.swapped && s.job.step == 3 && s.job.left > 0
  }

  /** The one way the order is lost from one state to the next. */
  ghost predicate Follows(s: Store, t: Store) {
    Ordered(s) && !LosesOrder(t) ==> Ordered(t)
  }

  /** What memory and the log hold is the map `m`. */
  ghost predicate Holds(s: Store, m: Table) {
    Reads(s.wal, s.tables + ListedTables(s), m)
  }

  // ------------------------------------------------------- what a crash leaves

  /** Opening these files fails exactly when a victim is caught half deleted. */
  lemma OpensUnlessCaught(s: Store, hashes: Hashes)
    requires InStep(s, hashes)
    ensures Complete(s.disk) <==> !Caught(s.job)
  {
    if Caught(s.job) {
      var v := s.job.victims[(s.job.step - 4) / 3];
      assert v in Stray(s.job);
    } else {
      assert Repaired(s) == s.disk;
    }
  }

  /** However segments were ordered before, a compaction that left none unmerged has put them in
      order by the time its last victim's data is deleted. */
  lemma OrderComesBack(s: Store, hashes: Hashes)
    requires InStep(s, hashes) && s.job.Merging? && s.job.left == 0
    requires s.job.step > 3 && Deleted(s.job) == |s.job.victims|
    ensures Ordered(s)
  {
    hide Compact, Shows, FilterFits, NoDup;
    assert ShownIds(s) == RestIds(s) + ListedIds(s);
    AppendNewest(RestIds(s), ListedIds(s));
  }

  /** Losing the order is what it says. */
  lemma OrderIsLost(s: Store, hashes: Hashes)
    requires InStep(s, hashes) && LosesOrder(s)
    ensures !Ordered(s)
  {
    hide Compact, Shows, FilterFits, NoDup;
    var head, rest := s.job.victims, RestIds(s);
    assert head[0..] == head && ShownIds(s) == head + rest + ListedIds(s);
    hide ShownIds, RestIds;
    AscendingMiddle(head, rest, ListedIds(s));
  }

  lemma AscendingMiddle(a: seq<int>, b: seq<int>, c: seq<int>)
    ensures Ascending(a + b + c) ==> Ascending(b)
  {
    assert forall i :: 0 <= i < |b| ==> (a + b + c)[|a| + i] == b[i];
  }

  lemma AppendNewest(ids: seq<int>, last: seq<int>)
    requires |last| <= 1 && (forall x, y :: x in ids && y in last ==> x < y)
    ensures Ascending(ids + last) <==> Ascending(ids)
  {
    var all := ids + last;
    if Ascending(ids) {
      forall i, j | 0 <= i < j < |all| ensures all[i] < all[j] {
        assert all[i] in ids;
        assert j == |ids| ==> all[j] in last;
      }
    }
    if Ascending(all) {
      forall i, j | 0 <= i < j < |ids| ensures ids[i] < ids[j] {
        assert ids[i] == all[i] && ids[j] == all[j];
      }
    }
  }

  lemma SkipsOne(a: seq<int>, id: int, b: seq<int>, c: seq<int>, all: seq<int>)
    requires all == a + ([id] + b) + c
    ensures Ascending(all) ==> Ascending(a + b + c)
    ensures NoDup(all) ==> NoDup(a + b + c)
    ensures forall x :: x in a + b + c ==> x in all
  {
    var left := a + b + c;
    assert forall i :: 0 <= i < |left| ==> left[i] == all[if i < |a| then i else i + 1];
  }

  /** Victims not deleted yet, read under the merged segment and whatever came after. */
  lemma LeftoverReads(sources: seq<Table>, j: nat, later: seq<Table>, key: string)
    requires j <= |sources|
    ensures Live(Lookup(sources[j..] + ([Compact(sources)] + later), key)) ==
      Live(Lookup([Compact(sources)] + later, key))
  {
    var merged := [Compact(sources)];
    LookupConcat(sources[j..], merged + later, key);
    LookupConcat(merged, later, key);
    MergedOverRest(sources, j, key);
    LookupConcat(sources[j..], merged, key);
    CompactOldest(sources, [], key);
    assert merged + [] == merged && sources + [] == sources;
  }

  /** What the files show reads like what memory holds. */
  lemma ShownReads(s: Store, m: Table)
    requires WellFormed(s) && Holds(s, m)
    ensures Reads(s.wal, ShownTables(s), m)
  {
    hide Compact, Lookup, Reads;
    DeletedInRange(s);
    if s.job.Merging? && s.job.step >= 3 {
      var sources := s.job.sources;
      var later := (if s.job.swapped then s.tables[1..] else s.tables[|sources|..]) + ListedTables(s);
      assert ShownTables(s) == sources[Deleted(s.job)..] + ([Compact(sources)] + later);
      if s.job.swapped {
        assert s.tables + ListedTables(s) == [Compact(sources)] + later;
      } else {
        assert s.tables + ListedTables(s) == sources + later;
        CompactKeepsReads(s.wal, sources, later, m);
      }
      LeftoversKeepReads(s.wal, sources, Deleted(s.job), later, m);
    } else {
      assert ShownTables(s) == s.tables + ListedTables(s);
    }
  }

  lemma LeftoversKeepReads(wal: Table, sources: seq<Table>, j: nat, later: seq<Table>, m: Table)
    requires j <= |sources| && Reads(wal, [Compact(sources)] + later, m)
    ensures Reads(wal, sources[j..] + ([Compact(sources)] + later), m)
  {
    hide Compact, Lookup;
    forall key ensures Live(View(wal, sources[j..] + ([Compact(sources)] + later), key)) == Live(Get(m, key)) {
      LeftoverReads(sources, j, later, key);
      assert Live(View(wal, [Compact(sources)] + later, key)) == Live(Get(m, key));
    }
  }

  /** While the files are in timestamp order, they recover to what memory holds; caught half way
      through a deletion, they do so without the one stray metadata file. */
  lemma RecoversInOrder(s: Store, hashes: Hashes, m: Table)
    requires InStep(s, hashes) && Ordered(s) && Holds(s, m)
    ensures RecoversTo(Durable(s.wal, Repaired(s)), hashes, m)
    ensures !Caught(s.job) ==> RecoversTo(Durable(s.wal, s.disk), hashes, m)
  {
    hide RecoversTo, Reads, Shows, ShownIds, ShownTables;
    ShownReads(s, m);
    MirroredRecovers(Durable(s.wal, Repaired(s)), ShownIds(s), ShownTables(s), hashes, m);
    if !Caught(s.job) {
      assert s.disk.meta - Stray(s.job) == s.disk.meta;
    }
  }

  // ------------------------------------------------------- the steps

  /** One file operation of the compaction. */
  function FileStep(s: Store): Store
    requires s.job.Merging? && s.job.step < 3 + 3 * |s.job.victims|
  {
    var next := NextFiles(s.disk, s.job.victims, s.job.id, Compact(s.job.sources), s.job.bits, s.job.step);
    s.(disk := next, job := s.job.(step := s.job.step + 1))
  }

  ghost predicate CanStep(s: Store, hashes: Hashes) {
    InStep(s, hashes) && s.job.Merging? && s.job.step < 3 + 3 * |s.job.victims| && (s.job.swapped || s.job.step != 3)
  }

  lemma MergedIsNew(s: Store)
    requires WellFormed(s) && NoDup(AllIds(s)) && s.job.Merging? && s.job.step < 3
    ensures s.job.id !in ShownIds(s)
  {
    hide Compact, NoDup;
    var a, b, c := s.job.victims, s.ids[|s.job.victims|..], ArrivingIds(s.arrival);
    assert s.ids == a + b && AllIds(s) == a + [s.job.id] + b + c;
    OneOfItsKind(a, s.job.id, b, c);
    assert ShownIds(s) == a + b + ListedIds(s);
    assert forall x :: x in ListedIds(s) ==> x in c;
  }

  lemma OneOfItsKind(a: seq<int>, id: int, b: seq<int>, c: seq<int>)
    requires NoDup(a + [id] + b + c)
    ensures id !in a && id !in b && id !in c
  {
    var all := a + [id] + b + c;
    assert all[|a|] == id;
    forall i | 0 <= i < |a| ensures a[i] != id { assert all[i] == a[i]; }
    forall i | 0 <= i < |b| ensures b[i] != id { assert all[|a| + 1 + i] == b[i]; }
    forall i | 0 <= i < |c| ensures c[i] != id { assert all[|a| + 1 + |b| + i] == c[i]; }
  }

  lemma WritesKeep(s: Store, hashes: Hashes)
    requires CanStep(s, hashes) && s.job.step < 3
    ensures WellFormed(FileStep(s)) && Visible(FileStep(s), hashes)
  {
    MergedIsNew(s);
    hide Compact, FilterFits, Shows, Pending, NoDup, AllIds;
    var job, t := s.job, FileStep(s);
    var table, n := Compact(job.sources), |job.victims|;
    assert Repaired(s) == s.disk && Repaired(t) == t.disk;
    if job.step == 2 {
      ListingKeeps(s, hashes);
    } else {
      ShowsOrphan(s.disk, ShownIds(s), ShownTables(s), hashes, job.id, table, job.bits);
    }
  }

  /** The merged segment's metadata puts it between its victims and what was flushed since. */
  lemma ListingKeeps(s: Store, hashes: Hashes)
    requires CanStep(s, hashes) && s.job.step == 2
    ensures WellFormed(FileStep(s)) && Shows(FileStep(s).disk, ShownIds(FileStep(s)), ShownTables(FileStep(s)), hashes)
  {
    hide Compact, FilterFits, Shows, NoDup, AllIds, ShownIds, ShownTables;
    var job, n := s.job, |s.job.victims|;
    ListingShown(s);
    assert s.disk.meta - {} == s.disk.meta;
    ShowsInsert(s.disk, job.victims, s.ids[n..] + ListedIds(s), job.sources, s.tables[n..] + ListedTables(s), hashes,
                job.id, Compact(job.sources), job.bits);
  }

  lemma ListingShown(s: Store)
    requires WellFormed(s) && s.job.Merging? && s.job.step == 2
    ensures var t, n := FileStep(s), |s.job.victims|;
            var ids, tables := s.ids[n..] + ListedIds(s), s.tables[n..] + ListedTables(s);
            && WellFormed(t)
            && ShownIds(s) == s.job.victims + ids && ShownTables(s) == s.job.sources + tables
            && ShownIds(t) == s.job.victims + ([s.job.id] + ids)
            && ShownTables(t) == s.job.sources + ([Compact(s.job.sources)] + tables)
  {
    hide Compact, NextFiles;
    var t, n := FileStep(s), |s.job.victims|;
    assert s.ids == s.job.victims + s.ids[n..] && s.tables == s.job.sources + s.tables[n..];
    assert Deleted(t.job) == 0 && s.job.victims[0..] == s.job.victims && s.job.sources[0..] == s.job.sources;
  }

  /** A victim is none of the segments that stay. */
  lemma VictimApart(s: Store, j: nat)
    requires WellFormed(s) && NoDup(AllIds(s)) && j < |Victims(s.job)|
    ensures Victims(s.job)[j] !in Victims(s.job)[j + 1..] + RestIds(s) + ListedIds(s)
  {
    var all, v := AllIds(s), Victims(s.job)[j];
    var after := Victims(s.job)[j + 1..] + RestIds(s) + ListedIds(s);
    assert all[j] == v;
    forall i | 0 <= i < |after| ensures after[i] != v {
      assert after[i] == all[j + 1 + i];
    }
  }

  /** Which victim the next deletion is about, and what is shown before and after it. */
  lemma Deleting(s: Store, j: nat, left: seq<int>)
    requires WellFormed(s) && s.job.Merging? && s.job.swapped && j == (s.job.step - 3) / 3 < |s.job.victims|
    requires left == s.job.victims[j + 1..] + s.ids + ListedIds(s)
    ensures var t := FileStep(s); var v := s.job.victims[j];
            && WellFormed(t) && ShownIds(t) == left && Stray(t.job) == (if s.job.step % 3 == 2 then {} else {v})
            && ShownTables(t) == s.job.sources[j + 1..] + s.tables + ListedTables(s)
            && (s.job.step % 3 == 0 ==>
                  && ShownIds(s) == [v] + left && ShownTables(s) == [s.job.sources[j]] + ShownTables(t)
                  && Stray(s.job) == {})
            && (s.job.step % 3 != 0 ==> ShownIds(s) == left && ShownTables(s) == ShownTables(t) && Stray(s.job) == {v})
  {
    var t := FileStep(s);
    DeletingSteps(s.job, j);
    hide Compact, NextFiles, Deleted, Stray, Caught;
    if s.job.step % 3 == 0 {
      assert s.job.victims[j..] == [s.job.victims[j]] + s.job.victims[j + 1..];
      assert s.job.sources[j..] == [s.job.sources[j]] + s.job.sources[j + 1..];
    }
  }

  lemma DeletingSteps(job: Job, j: nat)
    requires job.Merging? && job.step >= 3 && j == (job.step - 3) / 3 < |job.victims|
    ensures var next, v := job.(step := job.step + 1), job.victims[j];
            && Deleted(next) == j + 1 && Stray(next) == (if job.step % 3 == 2 then {} else {v})
            && Deleted(job) == (if job.step % 3 == 0 then j else j + 1)
            && Stray(job) == (if job.step % 3 == 0 then {} else {v})
  {
  }

  lemma DeletionsKeep(s: Store, hashes: Hashes)
    requires CanStep(s, hashes) && s.job.step >= 3
    ensures WellFormed(FileStep(s)) && Visible(FileStep(s), hashes)
  {
    var job, t := s.job, FileStep(s);
    var j := (job.step - 3) / 3;
    var v := job.victims[j];
    var left := job.victims[j + 1..] + s.ids + ListedIds(s);
    VictimApart(s, j);
    Deleting(s, j, left);
    hide Compact, FilterFits, Shows, Deleted, Caught, Stray, ShownIds, ShownTables, AllIds, NoDup, Pending;
    if job.step % 3 == 0 {
      DataGone(s.disk, Repaired(s), v, left, ShownTables(s), hashes);
      assert Repaired(t) == DataOf(s.disk, v);
    } else {
      ShowsOrphan(Repaired(s), left, ShownTables(s), hashes, v, map[], []);
      assert job.step % 3 == 2 ==> Repaired(t) == Repaired(s);
      assert job.step % 3 == 1 ==> Repaired(t) == Repaired(s).(bloom := Repaired(s).bloom - {v});
    }
  }

  /** Without the segment's data, and without the metadata it still has. */
  function DataOf(disk: Disk, v: int): Disk {
    disk.(data := disk.data - {v}, meta := disk.meta - {v})
  }

  lemma DataGone(disk: Disk, repaired: Disk, v: int, left: seq<int>, tables: seq<Table>, hashes: Hashes)
    requires tables != [] && v !in left && repaired == disk.(meta := disk.meta - {})
    requires Shows(repaired, [v] + left, tables, hashes)
    ensures Shows(DataOf(disk, v), left, tables[1..], hashes) && v in disk.meta
  {
    hide Shows;
    assert repaired == disk;
    ShowsTail(disk, v, left, tables, hashes);
    ShowsOrphan(disk.(meta := disk.meta - {v}), left, tables[1..], hashes, v, map[], []);
    HeadShown(disk, v, left, tables, hashes);
  }

  lemma PendingKeeps(s: Store, hashes: Hashes)
    requires CanStep(s, hashes)
    ensures Pending(FileStep(s), hashes)
  {
    hide Visible, NoDup, FilterFits, Compact;
    var job := s.job;
    if job.step < 3 {
      assert RestIds(s)[0] == job.id && job.id in RestIds(s);
    } else {
      assert job.victims[(job.step - 3) / 3] in Victims(job);
    }
  }

  /** A file operation keeps memory and files in step. It keeps the order of the timestamps
      unless it lists a merged segment behind which older ones were left. */
  lemma FileStepKeeps(s: Store, hashes: Hashes)
    requires CanStep(s, hashes)
    ensures InStep(FileStep(s), hashes) && AllIds(FileStep(s)) == AllIds(s)
    ensures Follows(s, FileStep(s)) && (s.job.step != 2 && Ordered(s) ==> Ordered(FileStep(s)))
    ensures forall m :: Holds(s, m) ==> Holds(FileStep(s), m)
  {
    if s.job.step < 3 {
      WritesKeep(s, hashes);
    } else {
      DeletionsKeep(s, hashes);
    }
    PendingKeeps(s, hashes);
    FileStepOrder(s);
    hide Pending, Visible, Reads, NextFiles, Compact, Ordered;
    assert AllIds(FileStep(s)) == AllIds(s) && RestIds(FileStep(s)) == RestIds(s);
  }

  lemma FileStepOrder(s: Store)
    requires WellFormed(s) && Dated(s) && s.job.Merging? && s.job.step < 3 + 3 * |s.job.victims|
    requires s.job.swapped || s.job.step != 3
    ensures Follows(s, FileStep(s)) && (s.job.step != 2 && Ordered(s) ==> Ordered(FileStep(s)))
  {
    hide Compact, NextFiles, ShownTables;
    var job := s.job;
    if job.step == 2 {
      hide ShownIds;
      ListingShown(s);
      Between(job.victims, job.id, s.ids[|job.victims|..], ListedIds(s));
    } else if job.step > 2 {
      var j := (job.step - 3) / 3;
      hide ShownIds;
      Deleting(s, j, job.victims[j + 1..] + s.ids + ListedIds(s));
      var shown := ShownIds(s);
      if job.step % 3 == 0 { assert ShownIds(FileStep(s)) == shown[1..]; }
    }
  }

  /** Put between its victims and what follows, the merged segment is in order when it is older
      than what follows. */
  lemma Between(a: seq<int>, id: int, b: seq<int>, last: seq<int>)
    requires (forall x :: x in a ==> x < id) && |last| <= 1
    requires forall x, y :: x in [id] + b && y in last ==> x < y
    ensures Ascending(a + (b + last)) && Ascending([id] + b) ==> Ascending(a + ([id] + (b + last)))
  {
    var c := b + last;
    if Ascending(a + c) && Ascending([id] + b) {
      AppendNewest([id] + b, last);
      assert [id] + b + last == [id] + c;
      var all := a + ([id] + c);
      forall i, j | 0 <= i < j < |all| ensures all[i] < all[j] {
        if i >= |a| {
          assert all[i] == ([id] + c)[i - |a|] && all[j] == ([id] + c)[j - |a|];
        } else if j < |a| {
          assert all[i] == (a + c)[i] && all[j] == (a + c)[j];
        } else {
          assert all[i] in a;
          assert j > |a| ==> all[j] == ([id] + c)[j - |a|] && ([id] + c)[0] < ([id] + c)[j - |a|];
        }
      }
    }
  }

  /** The merged segment takes the place of those it was made from. */
  ghost function SwapStep(s: Store): Store
    requires WellFormed(s) && s.job.Merging?
  {
    s.(ids := RestIds(s), tables := RestTables(s), job := s.job.(swapped := true))
  }

  lemma SwapStepKeeps(s: Store, hashes: Hashes)
    requires InStep(s, hashes) && s.job.Merging? && !s.job.swapped && s.job.step == 3
    ensures InStep(SwapStep(s), hashes) && AllIds(SwapStep(s)) == AllIds(s)
    ensures Ordered(SwapStep(s)) <==> Ordered(s)
    ensures forall m :: Holds(s, m) ==> Holds(SwapStep(s), m)
  {
    hide Compact, Shows, NoDup;
    var t, n := SwapStep(s), |s.job.victims|;
    assert ShownIds(t) == ShownIds(s) && ShownTables(t) == ShownTables(s) && AllIds(t) == AllIds(s);
    hide InStep;
    forall m | Holds(s, m) ensures Holds(t, m) {
      SwapReads(s, m);
    }
  }

  lemma SwapReads(s: Store, m: Table)
    requires WellFormed(s) && s.job.Merging? && !s.job.swapped && Holds(s, m)
    ensures Reads(s.wal, RestTables(s) + ListedTables(s), m)
  {
    hide Compact, Reads;
    var n := |s.job.victims|;
    assert s.tables + ListedTables(s) == s.job.sources + (s.tables[n..] + ListedTables(s));
    CompactKeepsReads(s.wal, s.job.sources, s.tables[n..] + ListedTables(s), m);
    assert RestTables(s) + ListedTables(s) == [Compact(s.job.sources)] + (s.tables[n..] + ListedTables(s));
  }

  /** `compact` returns, or fails while it writes the merged segment. */
  function EndStep(s: Store): Store {
    s.(job := Idle)
  }

  lemma EndStepKeeps(s: Store, hashes: Hashes)
    requires InStep(s, hashes) && s.job.Merging?
    requires if s.job.swapped then s.job.step == 3 + 3 * |s.job.victims| else s.job.step < 3
    ensures InStep(EndStep(s), hashes)
    ensures forall id :: id in AllIds(EndStep(s)) ==> id in AllIds(s)
    ensures Ordered(EndStep(s)) <==> Ordered(s)
    ensures forall m :: Holds(s, m) ==> Holds(EndStep(s), m)
  {
    hide Compact, Shows, Reads, ShownIds, ShownTables, AllIds, Ascending, NoDup;
    EndShown(s);
    EndDated(s);
    EndAll(s);
    if s.job.swapped {
      NoDupSuffix(AllIds(s), |s.job.victims|);
    } else {
      SkipsOne(s.job.victims, s.job.id, s.ids[|s.job.victims|..], ArrivingIds(s.arrival), AllIds(s));
    }
  }

  lemma EndShown(s: Store)
    requires WellFormed(s) && s.job.Merging?
    requires if s.job.swapped then s.job.step == 3 + 3 * |s.job.victims| else s.job.step < 3
    ensures var t := EndStep(s);
            && WellFormed(t) && ShownIds(t) == ShownIds(s) && ShownTables(t) == ShownTables(s)
            && Repaired(t) == Repaired(s) == s.disk
  {
    hide Compact, AllIds;
  }

  lemma EndDated(s: Store)
    requires WellFormed(s) && s.job.Merging? && Dated(s)
    ensures Dated(EndStep(s))
  {
    hide Compact, AllIds;
    forall id | id in s.ids ensures id in Victims(s.job) || id in RestIds(s) {
      ListedSomewhere(s, id);
    }
  }

  /** A segment in the list is a victim or one of those that stay. */
  lemma ListedSomewhere(s: Store, id: int)
    requires WellFormed(s) && id in s.ids
    ensures id in Victims(s.job) || id in RestIds(s)
  {
    hide Compact, AllIds;
    if s.job.Merging? && !s.job.swapped {
      var n := |s.job.victims|;
      var i :| 0 <= i < |s.ids| && s.ids[i] == id;
      if i < n {
        assert s.job.victims[i] == id;
      } else {
        assert RestIds(s)[i - n + 1] == id;
      }
    }
  }

  lemma EndAll(s: Store)
    requires WellFormed(s) && s.job.Merging?
    ensures var t, n := EndStep(s), |s.job.victims|;
            if s.job.swapped then
              n <= |AllIds(s)| && AllIds(t) == AllIds(s)[n..]
            else
              && AllIds(s) == s.job.victims + ([s.job.id] + s.ids[n..]) + ArrivingIds(s.arrival)
              && AllIds(t) == s.job.victims + s.ids[n..] + ArrivingIds(s.arrival)
  {
    hide Compact;
    var a, b, c := s.job.victims, s.ids, ArrivingIds(s.arrival);
    if s.job.swapped {
      DropFirst(a, b, c);
      assert AllIds(EndStep(s)) == b + c;
    } else {
      assert b == a + b[|a|..];
    }
  }

  lemma DropFirst(a: seq<int>, b: seq<int>, c: seq<int>)
    ensures (a + b + c)[|a|..] == b + c
  {
    assert a + b + c == a + (b + c);
  }

  lemma NoDupSuffix(ids: seq<int>, n: nat)
    requires NoDup(ids) && n <= |ids|
    ensures NoDup(ids[n..])
  {
  }

  /** A compaction of the `n` oldest segments starts. */
  function BeginStep(s: Store, n: nat, id: int, bits: seq<bv8>): Store
    requires n <= |s.ids| && n <= |s.tables|
  {
    s.(job := Merging(s.ids[..n], s.tables[..n], id, bits, 0, false, |s.ids| - n))
  }

  ghost predicate NewId(s: Store, id: int)
    requires WellFormed(s)
  {
    forall other :: other in AllIds(s) ==> other < id
  }

  /** Starting keeps memory and files in step, and the files as they are. */
  lemma BeginStepKeeps(s: Store, hashes: Hashes, n: nat, id: int, bits: seq<bv8>)
    requires InStep(s, hashes) && s.job.Idle? && s.arrival.Nothing? && n <= |s.ids| && NewId(s, id)
    requires FilterFits(Compact(s.tables[..n]), bits, hashes)
    ensures InStep(BeginStep(s, n, id, bits), hashes)
    ensures forall other :: other in AllIds(BeginStep(s, n, id, bits)) ==> other <= id
    ensures Ordered(BeginStep(s, n, id, bits)) <==> Ordered(s)
    ensures forall m :: Holds(s, m) ==> Holds(BeginStep(s, n, id, bits), m)
  {
    hide Compact, Shows, Reads, FilterFits, NoDup, Ascending, AllIds, ShownIds, ShownTables;
    BeginShown(s, n, id, bits);
    InsertLargest(s.ids, n, id);
  }

  lemma BeginShown(s: Store, n: nat, id: int, bits: seq<bv8>)
    requires WellFormed(s) && s.job.Idle? && s.arrival.Nothing? && n <= |s.ids|
    ensures var t := BeginStep(s, n, id, bits);
            && WellFormed(t) && ShownIds(t) == ShownIds(s) && ShownTables(t) == ShownTables(s)
            && Repaired(t) == Repaired(s)
            && AllIds(s) == s.ids && AllIds(t) == s.ids[..n] + [id] + s.ids[n..] && RestIds(t) == [id] + s.ids[n..]
  {
    hide Compact;
  }

  lemma InsertLargest(ids: seq<int>, n: nat, id: int)
    requires n <= |ids| && NoDup(ids) && forall other :: other in ids ==> other < id
    ensures NoDup(ids[..n] + [id] + ids[n..])
    ensures (forall v :: v in ids[..n] ==> v < id) && (Ascending([id] + ids[n..]) <==> n == |ids|)
    ensures forall v :: v in ids[..n] + [id] + ids[n..] ==> v <= id
  {
    var all := ids[..n] + [id] + ids[n..];
    assert all[n] == id && forall v :: v in ids[..n] ==> v in ids;
    forall i | 0 <= i < |all| && i != n ensures all[i] == ids[if i < n then i else i - 1] && all[i] < id {
      assert ids[if i < n then i else i - 1] in ids;
    }
    if n < |ids| {
      var rest := [id] + ids[n..];
      assert ids[n] in ids && rest[0] == id && rest[1] == ids[n];
    }
  }

  /** The log gets an entry while no flush is under way. */
  function LogStep(s: Store, key: string, value: Value): Store {
    s.(wal := s.wal[key := value])
  }

  lemma LogStepKeeps(s: Store, hashes: Hashes, key: string, value: Value)
    requires InStep(s, hashes) && s.arrival.Nothing?
    ensures InStep(LogStep(s, key, value), hashes) && AllIds(LogStep(s, key, value)) == AllIds(s)
    ensures Ordered(LogStep(s, key, value)) <==> Ordered(s)
    ensures forall m :: Holds(s, m) ==> Holds(LogStep(s, key, value), m[key := value])
  {
    hide Compact, Shows;
    var t := LogStep(s, key, value);
    assert ShownIds(t) == ShownIds(s) && ShownTables(t) == ShownTables(s) && AllIds(t) == AllIds(s);
    forall m | Holds(s, m) ensures Holds(t, m[key := value]) {
      PutReads(s.wal, s.tables + ListedTables(s), m, key, value);
    }
  }

  /** A flush starts to write the log's entries out as a segment. */
  function ArriveStep(s: Store, id: int, bits: seq<bv8>): Store {
    s.(arrival := Arriving(id, bits, 0))
  }

  lemma ArriveStepKeeps(s: Store, hashes: Hashes, id: int, bits: seq<bv8>)
    requires InStep(s, hashes) && s.arrival.Nothing? && NewId(s, id) && FilterFits(s.wal, bits, hashes)
    ensures InStep(ArriveStep(s, id, bits), hashes) && AllIds(ArriveStep(s, id, bits)) == AllIds(s) + [id]
    ensures Ordered(ArriveStep(s, id, bits)) <==> Ordered(s)
    ensures forall m :: Holds(s, m) ==> Holds(ArriveStep(s, id, bits), m)
  {
    hide Compact, Shows, Reads, FilterFits, ShownIds, ShownTables, NoDup, AllIds;
    ArriveShown(s, id, bits);
    NoDupAppend(AllIds(s), id);
  }

  lemma ArriveShown(s: Store, id: int, bits: seq<bv8>)
    requires WellFormed(s) && s.arrival.Nothing?
    ensures var t := ArriveStep(s, id, bits);
            && WellFormed(t) && ShownIds(t) == ShownIds(s) && ShownTables(t) == ShownTables(s)
            && AllIds(t) == AllIds(s) + [id] && RestIds(t) == RestIds(s)
            && forall x :: x in Victims(s.job) || x in RestIds(s) ==> x in AllIds(s)
  {
    hide Compact;
    assert AllIds(s) == Victims(s.job) + RestIds(s);
  }

  /** One of the three files of the arriving segment, metadata last. */
  function WriteStep(s: Store): Store
    requires s.arrival.Arriving?
  {
    var a := s.arrival;
    s.(disk := if a.written == 0 then WriteData(s.disk, a.id, s.wal)
               else if a.written == 1 then WriteBloom(s.disk, a.id, a.bits)
               else WriteMeta(s.disk, a.id),
       arrival := a.(written := a.written + 1))
  }

  lemma WriteStepKeeps(s: Store, hashes: Hashes)
    requires InStep(s, hashes) && s.arrival.Arriving? && s.arrival.written < 3
    ensures InStep(WriteStep(s), hashes) && AllIds(WriteStep(s)) == AllIds(s)
    ensures Ordered(WriteStep(s)) <==> Ordered(s)
    ensures forall m :: Holds(s, m) ==> Holds(WriteStep(s), m)
  {
    hide Compact, Shows, FilterFits, AllIds, NoDup, ShownIds, ShownTables, Reads;
    var t, id := WriteStep(s), s.arrival.id;
    var ids, tables := ShownIds(s), ShownTables(s);
    ArrivalIsNew(s);
    WriteShown(s);
    if s.arrival.written == 2 {
      ShowsSizes(Repaired(s), ids, tables, hashes);
      ShowsInsert(Repaired(s), ids, [], tables, [], hashes, id, s.wal, s.arrival.bits);
      AppendNewest(ids, [id] + []);
      forall m | Holds(s, m) ensures Holds(t, m) {
        FlushKeepsReads(s.wal, s.tables, m);
      }
    } else {
      ShowsOrphan(Repaired(s), ids, tables, hashes, id, s.wal, s.arrival.bits);
    }
  }

  lemma WriteShown(s: Store)
    requires WellFormed(s) && s.arrival.Arriving? && s.arrival.written < 3 && s.arrival.id !in Stray(s.job)
    ensures var t, id, ids, tables := WriteStep(s), s.arrival.id, ShownIds(s), ShownTables(s);
            && WellFormed(t) && AllIds(t) == AllIds(s) && RestIds(t) == RestIds(s) && s.tables + [] == s.tables
            && ids + [] == ids && tables + [] == tables
            && if s.arrival.written == 2 then
                 && ShownIds(t) == ids + ([id] + []) && ShownTables(t) == tables + ([s.wal] + [])
                 && Repaired(t) == WriteMeta(Repaired(s), id)
               else
                 ShownIds(t) == ids && ShownTables(t) == tables
  {
    hide Compact;
  }

  /** Before its metadata is there, the arriving segment is newer than all that is shown. */
  lemma ArrivalIsNew(s: Store)
    requires WellFormed(s) && Dated(s) && s.arrival.Arriving?
    ensures s.arrival.written < 3 ==> forall id :: id in ShownIds(s) ==> id < s.arrival.id
    ensures s.arrival.id !in Stray(s.job) && (s.job.Merging? ==> s.arrival.id != s.job.id)
  {
    hide Compact;
    if s.job.Merging? {
      assert s.job.id == RestIds(s)[0] && s.job.id in RestIds(s);
    }
    forall v | v in Stray(s.job) ensures v in Victims(s.job) {
    }
    forall id | s.arrival.written < 3 && id in ShownIds(s) ensures id in Victims(s.job) || id in RestIds(s) {
      ShownSomewhere(s, id);
    }
  }

  lemma ShownSomewhere(s: Store, id: int)
    requires WellFormed(s) && ListedIds(s) == [] && id in ShownIds(s)
    ensures id in Victims(s.job) || id in RestIds(s)
  {
    hide Compact, RestIds;
    DeletedInRange(s);
    if s.job.Merging? && s.job.step < 3 {
      ListedSomewhere(s, id);
    } else {
      var left := Victims(s.job)[Deleted(s.job)..];
      assert id in left + RestIds(s);
      if id in left {
        var i :| 0 <= i < |left| && left[i] == id;
        assert Victims(s.job)[Deleted(s.job) + i] == id;
      }
    }
  }

  /** The flush ends: the segment joins the list and the log is cleared. */
  function FinishStep(s: Store): Store
    requires s.arrival.Arriving?
  {
    s.(wal := map[], ids := s.ids + [s.arrival.id], tables := s.tables + [s.wal], arrival := Nothing)
  }

  lemma FinishStepKeeps(s: Store, hashes: Hashes)
    requires InStep(s, hashes) && s.arrival.Arriving? && s.arrival.written == 3
    ensures InStep(FinishStep(s), hashes) && AllIds(FinishStep(s)) == AllIds(s)
    ensures Ordered(FinishStep(s)) <==> Ordered(s)
    ensures forall m :: Holds(s, m) ==> Holds(FinishStep(s), m)
  {
    hide Compact, Shows, FilterFits, AllIds, NoDup, ShownIds, ShownTables, Reads;
    FinishShown(s);
    AppendNewest(RestIds(s), [s.arrival.id]);
    forall m | Holds(s, m) ensures Holds(FinishStep(s), m) {
      LogCleared(s.wal, s.tables, m);
    }
  }

  lemma FinishShown(s: Store)
    requires WellFormed(s) && s.arrival.Arriving? && s.arrival.written == 3
    ensures var t := FinishStep(s);
            && WellFormed(t) && AllIds(t) == AllIds(s) && ShownIds(t) == ShownIds(s) && ShownTables(t) == ShownTables(s)
            && RestIds(t) == RestIds(s) + [s.arrival.id] && t.tables + [] == t.tables
  {
    hide Compact, AllIds;
    var t := FinishStep(s);
    FinishRest(s);
    var head := Victims(s.job)[Deleted(s.job)..];
    DeletedInRange(s);
    assert head + (RestIds(s) + [s.arrival.id]) == head + RestIds(s) + [s.arrival.id];
    FinishAll(s);
  }

  lemma FinishRest(s: Store)
    requires WellFormed(s) && s.arrival.Arriving? && s.arrival.written == 3
    ensures var t := FinishStep(s);
            && WellFormed(t) && RestIds(t) == RestIds(s) + [s.arrival.id] && RestTables(t) == RestTables(s) + [s.wal]
  {
    hide Compact;
    var t, n := FinishStep(s), |Victims(s.job)|;
    if s.job.Merging? && !s.job.swapped {
      assert t.ids[n..] == s.ids[n..] + [s.arrival.id] && t.tables[n..] == s.tables[n..] + [s.wal];
    }
  }

  lemma FinishAll(s: Store)
    requires WellFormed(s) && s.arrival.Arriving? && s.arrival.written == 3
    ensures WellFormed(FinishStep(s)) && AllIds(FinishStep(s)) == AllIds(s)
  {
    hide Compact, RestIds;
    FinishRest(s);
  }

  lemma LogCleared(wal: Table, tables: seq<Table>, m: Table)
    requires Reads(wal, tables + [wal], m)
    ensures Reads(map[], tables + [wal], m)
  {
    forall key ensures Live(View(map[], tables + [wal], key)) == Live(Get(m, key)) {
      assert Live(View(wal, tables + [wal], key)) == Live(Get(m, key));
    }
  }

  // ------------------------------------------------------- what the engine keeps of it

  /** Files that mirror memory, with nothing under way. */
  lemma QuietStore(s: Store, hashes: Hashes)
    requires s.job.Idle? && s.arrival.Nothing? && Mirrored(s.disk, s.ids, s.tables, hashes)
    ensures InStep(s, hashes) && Ordered(s) && AllIds(s) == s.ids
  {
    hide Complete, FiltersCover;
    assert AllIds(s) == s.ids && ShownIds(s) == s.ids && ShownTables(s) == s.tables;
    assert Repaired(s) == s.disk;
  }

  /** A moment between two steps, and the map the client's calls have built by then. */
  datatype Moment = Moment(store: Store, saved: Table)

  ghost predicate Survives(t: Moment, hashes: Hashes) {
    InStep(t.store, hashes) && Holds(t.store, t.saved)
  }

  /** What a crash then leaves: files that open exactly when no victim is caught half deleted,
      and that, in timestamp order, recover to the map; caught, they do so without the one
      metadata file too many. */
  ghost predicate Recoverable(s: Store, hashes: Hashes, m: Table) {
    && (Complete(s.disk) <==> !Caught(s.job))
    && (Ordered(s) ==>
          && RecoversTo(Durable(s.wal, Repaired(s)), hashes, m)
          && (!Caught(s.job) ==> RecoversTo(Durable(s.wal, s.disk), hashes, m)))
  }

  lemma CrashAnywhere(t: Moment, hashes: Hashes)
    requires Survives(t, hashes)
    ensures Recoverable(t.store, hashes, t.saved)
  {
    hide InStep, Holds, Ordered, RecoversTo;
    OpensUnlessCaught(t.store, hashes);
    if Ordered(t.store) {
      RecoversInOrder(t.store, hashes, t.saved);
    }
  }

  // ------------------------------------------------------- whole traces

  /** All the victims of a compaction that left nothing unmerged have lost their data. */
  predicate PutsInOrder(s: Store) {
    s.job.Merging? && s.job.left == 0 && s.job.step > 3 && Deleted(s.job) == |s.job.victims|
  }

  /** Position by position: a trace starts in timestamp order, leaves it only where a merged
      segment is listed over older ones that were left where they were, and is back in it where
      a compaction that left none has deleted its last victim's data. */
  ghost predicate OrderTrail(trace: seq<Moment>) {
    && trace != [] && Ordered(trace[0].store)
    && (forall i :: 0 < i < |trace| ==> Follows(trace[i - 1].store, trace[i].store))
    && (forall i :: 0 <= i < |trace| && PutsInOrder(trace[i].store) ==> Ordered(trace[i].store))
  }

  /** So files in order at one position are in order at every later one, up to such a listing. */
  lemma {:induction false} OrderLasts(trace: seq<Moment>, k: nat, i: nat)
    requires OrderTrail(trace) && k <= i < |trace| && Ordered(trace[k].store)
    requires forall j :: k < j <= i ==> !LosesOrder(trace[j].store)
    ensures Ordered(trace[i].store)
    decreases i
  {
    hide Ordered;
    if k < i {
      OrderLasts(trace, k, i - 1);
      assert Follows(trace[i - 1].store, trace[i].store);
    }
  }

  /** Every state of the trace survives a crash, and the current one is in order if the last
      state of the trace is. */
  ghost predicate TraceSound(trace: seq<Moment>, hashes: Hashes, now: Store) {
    && (forall t :: t in trace ==> Survives(t, hashes))
    && OrderTrail(trace)
    && (Ordered(trace[|trace| - 1].store) ==> Ordered(now))
  }

  lemma TraceStarts(s: Store, saved: Table, hashes: Hashes)
    requires Survives(Moment(s, saved), hashes) && Ordered(s)
    ensures TraceSound([Moment(s, saved)], hashes, s)
  {
    hide Survives, Ordered;
  }

  lemma TraceSnoc(trace: seq<Moment>, hashes: Hashes, s: Store, t: Store, saved: Table)
    requires TraceSound(trace, hashes, s) && Survives(Moment(t, saved), hashes) && Follows(s, t)
    ensures TraceSound(trace + [Moment(t, saved)], hashes, t)
  {
    hide Survives, Ordered, PutsInOrder;
    if PutsInOrder(t) { ComesBack(t, saved, hashes); }
    var after := trace + [Moment(t, saved)];
    forall i | 0 < i < |after| ensures Follows(after[i - 1].store, after[i].store) {
      if i < |trace| { assert Follows(trace[i - 1].store, trace[i].store); }
    }
  }

  lemma ComesBack(t: Store, saved: Table, hashes: Hashes)
    requires Survives(Moment(t, saved), hashes) && PutsInOrder(t)
    ensures Ordered(t)
  {
    hide InStep, Holds, Ordered;
    OrderComesBack(t, hashes);
  }

  lemma TraceMoves(trace: seq<Moment>, hashes: Hashes, s: Store, t: Store)
    requires TraceSound(trace, hashes, s) && (Ordered(s) ==> Ordered(t))
    ensures TraceSound(trace, hashes, t)
  {
    hide OrderTrail, Survives;
  }
}
