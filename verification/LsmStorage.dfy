/** The storage engine: memtable, write-ahead log, segments and a compactor that runs in the
    background. Client calls are awaited one at a time; at every await the compactor may take
    any number of its own steps. Whatever it does, the engine reads like one plain map. */
module LsmStorage {
  import opened Orders
  import opened Bloom
  import opened Merkle
  import opened LsmModel
  import opened LsmFiles
  import opened SSTables

  datatype Config = Config(memtableSize: nat, compactionThreshold: nat, bloomFilterSize: nat)

  // ------------------------------------------------------- lists of segments

  ghost function Footprint(segs: seq<SSTable>): set<object> {
    (set s | s in segs :: s as object) + (set s | s in segs :: s.bloom.bits as object) +
      (set s | s in segs :: s.merkle as object)
  }

  ghost function Tables(segs: seq<SSTable>): (r: seq<Table>)
    reads segs
    ensures |r| == |segs| && forall i :: 0 <= i < |segs| ==> r[i] == segs[i].data
  {
    seq(|segs|, i requires 0 <= i < |segs| reads segs => segs[i].data)
  }

  ghost function SegmentIds(segs: seq<SSTable>): (r: seq<int>)
    ensures |r| == |segs| && forall i :: 0 <= i < |segs| ==> r[i] == segs[i].id
  {
    seq(|segs|, i requires 0 <= i < |segs| => segs[i].id)
  }

  ghost predicate AllValid(segs: seq<SSTable>, hashes: Hashes)
    reads Footprint(segs)
  {
    forall s :: s in segs ==> s.Valid() && s.bloom.hashes == hashes
  }

  method IdsOf(segs: seq<SSTable>) returns (ids: seq<int>)
    ensures ids == SegmentIds(segs)
  {
    ids := [];
    for i := 0 to |segs|
      invariant ids == SegmentIds(segs)[..i]
    {
      ids := ids + [segs[i].id];
    }
  }

  /** Newest first, as both reads and the compactor look a key up. */
  method FindNewest(segs: seq<SSTable>, key: string, ghost hashes: Hashes) returns (r: Option<Value>)
    requires AllValid(segs, hashes)
    ensures r == Lookup(Tables(segs), key)
  {
    r := None;
    var i := |segs|;
    assert Tables(segs)[..|segs|] == Tables(segs);
    while i > 0
      invariant 0 <= i <= |segs| && r.None?
      invariant Lookup(Tables(segs), key) == Lookup(Tables(segs)[..i], key)
      decreases i
    {
      i := i - 1;
      assert segs[i] in segs;
      assert Tables(segs)[..i + 1][..i] == Tables(segs)[..i];
      r := segs[i].Get(key);
      if r.Some? {
        return;
      }
    }
    assert Tables(segs)[..0] == [];
  }

  method CollectKeys(segs: seq<SSTable>) returns (allKeys: set<string>)
    ensures allKeys == AllKeys(Tables(segs))
  {
    allKeys := {};
    assert Tables(segs)[..0] == [];
    for i := 0 to |segs|
      invariant allKeys == AllKeys(Tables(segs)[..i])
    {
      assert Tables(segs)[..i + 1][..i] == Tables(segs)[..i];
      allKeys := allKeys + segs[i].data.Keys;
    }
    assert Tables(segs)[..|segs|] == Tables(segs);
  }

  /** The synchronous part of `compact`: the newest value of every key, deleted keys left
      out. The source adds each one to the merged segment as it finds it. */
  method NewestValues(segs: seq<SSTable>, ghost hashes: Hashes) returns (newest: Table)
    requires AllValid(segs, hashes)
    ensures newest == Compact(Tables(segs))
  {
    ghost var tables := Tables(segs);
    hide Compact, AllKeys, Lookup, SSTable.Valid, Tables;
    var allKeys := CollectKeys(segs);
    var rest := allKeys;
    newest := map[];
    CompactNothing(tables);
    while rest != {}
      invariant rest <= allKeys == AllKeys(tables)
      invariant newest == Compact(tables) - rest
      decreases rest
    {
      var key :| key in rest;
      CompactNext(tables, rest, key);
      rest := rest - {key};
      var value := FindNewest(segs, key, hashes);
      if value.Some? && |value.value| > 0 {
        newest := newest[key := value.value];
      }
    }
  }

  /** A new segment with these entries, added one by one. */
  method BuildSegment(entries: Table, id: int, bloomSize: nat, hashes: Hashes, hasher: Hasher)
    returns (segment: SSTable)
    requires bloomSize > 0
    ensures fresh(segment.Repr()) && segment.Valid() && segment.id == id && segment.bloom.hashes == hashes
    ensures segment.data == entries
  {
    hide SSTable.Valid;
    segment := new SSTable(id, bloomSize, hashes, hasher);
    AddAll(segment, entries);
    var root := segment.Finalize();
  }

  method AddAll(segment: SSTable, entries: Table)
    requires segment.Valid() && segment.data == map[]
    modifies segment.Repr()
    ensures segment.Valid() && segment.data == entries
  {
    hide SSTable.Valid;
    var rest := entries.Keys;
    while rest != {}
      invariant rest <= entries.Keys && segment.data == entries - rest && segment.Valid()
      decreases rest
    {
      var key :| key in rest;
      rest := rest - {key};
      segment.Add(key, entries[key]);
    }
  }

  lemma CompactNothing(tables: seq<Table>)
    ensures Compact(tables) - AllKeys(tables) == map[]
  {
  }

  lemma CompactNext(tables: seq<Table>, rest: set<string>, key: string)
    requires key in rest && rest <= AllKeys(tables)
    ensures Compact(tables) - (rest - {key}) ==
            var v := Lookup(tables, key);
            if v.Some? && |v.value| > 0 then (Compact(tables) - rest)[key := v.value] else Compact(tables) - rest
  {
  }

  lemma SwapLists(segs: seq<SSTable>, merged: SSTable, n: nat, hashes: Hashes)
    requires n <= |segs| && AllValid(segs, hashes) && merged.Valid() && merged.bloom.hashes == hashes
    ensures AllValid([merged] + segs[n..], hashes)
    ensures Tables([merged] + segs[n..]) == [merged.data] + Tables(segs)[n..]
  {
    hide SSTable.Valid;
    assert forall s :: s in [merged] + segs[n..] ==> s == merged || s in segs;
  }

  lemma PushLists(segs: seq<SSTable>, segment: SSTable, hashes: Hashes)
    requires AllValid(segs, hashes) && segment.Valid() && segment.bloom.hashes == hashes
    ensures AllValid(segs + [segment], hashes)
    ensures Tables(segs + [segment]) == Tables(segs) + [segment.data]
    ensures SegmentIds(segs + [segment]) == SegmentIds(segs) + [segment.id]
  {
    hide SSTable.Valid;
  }

  // ------------------------------------------------------- what the compactor has done

  /** The segments, the merged segment of the compaction under way, and whether it still waits to
      take the place of how many of them. */
  datatype Compactor = Compactor(segments: seq<SSTable>, running: SSTable?, waiting: bool, count: nat)

  /** Only a waiting segment comes in, and in the place of those it was made from. */
  ghost predicate Moved(a: Compactor, segs: seq<SSTable>) {
    segs == a.segments ||
    (a.waiting && a.running != null && a.count <= |a.segments| && segs == [a.running] + a.segments[a.count..])
  }

  /** The compaction went on, or came to its end, and none was begun. */
  ghost predicate Ran(a: Compactor, b: Compactor) {
    && Moved(a, b.segments)
    && (b.running == a.running || b.running == null)
    && (b.waiting ==> b == a)
  }

  ghost predicate Begun(a: Compactor, b: Compactor) {
    b.running != null && b.running != a.running
  }

  /** A flush: one segment more, behind the others. A compaction is begun only when as many
      segments as the threshold are left, and two, and then always unless one is running. */
  ghost predicate Flushed(a: Compactor, b: Compactor, threshold: nat) {
    && b.segments != []
    && var grown := a.(segments := a.segments + [b.segments[|b.segments| - 1]]);
       && (Begun(a, b) ==> Moved(grown, b.segments) && b.waiting && b.count == MergeCount(|b.segments|)
                           && |b.segments| >= threshold && |b.segments| >= 2)
       && (!Begun(a, b) ==> Ran(grown, b) && (b.running == null ==> |b.segments| < threshold || |b.segments| < 2))
  }

  lemma RanNothing(a: Compactor)
    ensures Ran(a, a)
  {
  }

  lemma StepRan(a: Compactor, b: Compactor)
    requires Moved(a, b.segments) && (b.running == a.running || b.running == null) && (b.waiting ==> b == a)
    ensures Ran(a, b)
  {
  }

  lemma RanTwice(a: Compactor, b: Compactor, c: Compactor)
    requires Ran(a, b) && Ran(b, c)
    ensures Ran(a, c)
  {
  }

  lemma RanWhilePushed(a: Compactor, b: Compactor, segment: SSTable)
    requires Ran(a, b)
    ensures Ran(a.(segments := a.segments + [segment]), b.(segments := b.segments + [segment]))
  {
    if b.segments != a.segments {
      assert b.segments + [segment] == [a.running] + (a.segments + [segment])[a.count..];
    }
  }

  lemma RanAround(a: Compactor, b: Compactor, c: Compactor, segment: SSTable)
    requires Ran(a, b) && Ran(b.(segments := b.segments + [segment]), c)
    ensures Ran(a.(segments := a.segments + [segment]), c)
  {
    RanWhilePushed(a, b, segment);
    RanTwice(a.(segments := a.segments + [segment]), b.(segments := b.segments + [segment]), c);
  }

  /** The newest segment is not one the compactor took. */
  lemma LastStays(a: Compactor, b: Compactor, segment: SSTable)
    requires Ran(a, b) && a.segments != [] && a.segments[|a.segments| - 1] == segment
    requires a.waiting ==> a.count < |a.segments|
    ensures b.segments != [] && b.segments[|b.segments| - 1] == segment
  {
  }

  /** The end of a flush, whether it begins a compaction or not. */
  lemma FlushEnds(a: Compactor, b: Compactor, c: Compactor, threshold: nat)
    requires b.segments != [] && c.segments == b.segments
    requires Ran(a.(segments := a.segments + [b.segments[|b.segments| - 1]]), b)
    requires if |b.segments| >= threshold && |b.segments| >= 2 && b.running == null
             then c.running != null && c.running != a.running && c.waiting && c.count == MergeCount(|c.segments|)
             else c == b
    ensures Flushed(a, c, threshold)
    ensures Begun(a, c) ==> Begun(b, c)
  {
  }

  lemma RanThenFlushed(a: Compactor, b: Compactor, c: Compactor, threshold: nat)
    requires Ran(a, b) && Flushed(b, c, threshold)
    requires Begun(b, c) ==> c.running != a.running
    ensures Flushed(a, c, threshold)
  {
    var last := c.segments[|c.segments| - 1];
    RanWhilePushed(a, b, last);
    var u, v := a.(segments := a.segments + [last]), b.(segments := b.segments + [last]);
    if !Begun(b, c) {
      RanTwice(u, v, c);
    } else if v.segments != c.segments {
      assert b == a;
    }
  }

  // ------------------------------------------------------- sizes

  ghost function SizeOf(t: Table): int {
    if t == map[] then 0 else
      var k :| k in t;
      |k| + |t[k]| + SizeOf(t - {k})
  }

  lemma SizeEmpty()
    ensures SizeOf(map[]) == 0
  {
  }

  lemma {:induction false} SizeRemove(t: Table, k: string)
    requires k in t
    ensures SizeOf(t) == |k| + |t[k]| + SizeOf(t - {k})
    decreases |t|
  {
    var x :| x in t && SizeOf(t) == |x| + |t[x]| + SizeOf(t - {x});
    if x != k {
      SizeRemove(t - {x}, k);
      SizeRemove(t - {k}, x);
      assert t - {x} - {k} == t - {k} - {x};
    }
  }

  lemma SizePut(t: Table, k: string, v: Value)
    ensures SizeOf(t[k := v]) == SizeOf(t) + |k| + |v| - (if k in t then |k| + |t[k]| else 0)
  {
    SizeRemove(t[k := v], k);
    assert t[k := v] - {k} == t - {k};
    if k in t {
      SizeRemove(t, k);
    } else {
      assert t - {k} == t;
    }
  }

  // ------------------------------------------------------- the engine

  class LSMStorage {
    const config: Config
    const hashes: Hashes
    const hasher: Hasher
    var memtable: Table
    var memtableSize: int
    var segments: seq<SSTable>
    var wal: Table
    var disk: Disk
    var compacting: bool
    // the local variables of a suspended `compact` call, and how far it has come
    var merged: SSTable?
    var victims: seq<int>
    var step: nat
    var swapped: bool
    // no segment was created later than this
    var clock: int
    // the segments' entries, the compaction and the flush under way
    ghost var tables: seq<Table>
    ghost var job: Job
    ghost var arrival: Arrival
    // the plain map the client's calls have built, and with the entry being logged
    ghost var model: Table
    ghost var saved: Table
    // the state found on opening, and the state after every durable write since
    ghost var trace: seq<Moment>

    ghost function State(): Store
      reads this
    {
      Store(wal, disk, SegmentIds(segments), tables, job, arrival)
    }

    /** The suspended compaction is the one the files are in. */
    ghost predicate Suspended()
      reads this, if merged == null then {} else merged.Repr()
    {
      if compacting then
        && merged != null && merged.Valid() && merged.bloom.hashes == hashes
        && job.Merging? && merged.data == Compact(job.sources)
        && job == Merging(victims, job.sources, merged.id, merged.bloom.bits[..], step, swapped, job.left)
      else
        job.Idle?
    }

    ghost function Compacting(): Compactor
      reads this
    {
      Compactor(segments, if compacting then merged else null, compacting && !swapped, |victims|)
    }

    /** What holds at every await, also in the middle of a call. */
    ghost predicate Inner()
      reads this, segments, Footprint(segments), if merged == null then {} else merged.Repr()
    {
      && config.memtableSize > 0 && config.compactionThreshold > 0 && config.bloomFilterSize > 0
      && memtableSize == SizeOf(memtable)
      && AllValid(segments, hashes) && tables == Tables(segments)
      && Reads(memtable, tables, model) && Known(memtable, tables, model)
      && Suspended()
      && Sound(State(), saved, hashes, clock)
      && TraceSound(trace, hashes, State())
    }

    /** What holds between calls. */
    ghost predicate Valid()
      reads this, segments, Footprint(segments), if merged == null then {} else merged.Repr()
    {
      Inner() && wal == memtable && arrival.Nothing? && saved == model
    }

    /** The states recorded since `from` hold the map `m`. */
    ghost predicate Grown(from: seq<Moment>, m: Table)
      reads this
    {
      from <= trace && forall i :: |from| <= i < |trace| ==> trace[i].saved == m
    }

    /** A new engine over an empty directory. A config value of zero means the default, which
        is not zero, so every size is positive. */
    constructor (config: Config, hashes: Hashes, hasher: Hasher)
      requires config.memtableSize > 0 && config.compactionThreshold > 0 && config.bloomFilterSize > 0
      ensures Valid() && model == map[] && segments == [] && trace == [Moment(State(), map[])] && this.hashes == hashes
    {
      hide Sound, Reads, Known, SizeOf, TraceSound;
      EmptySound(hashes);
      this.config := config;
      this.hashes := hashes;
      this.hasher := hasher;
      memtable := map[];
      memtableSize := 0;
      segments := [];
      wal := map[];
      disk := Disk(map[], map[], {});
      compacting := false;
      merged := null;
      victims := [];
      step := 0;
      swapped := false;
      clock := 0;
      tables := [];
      job := Idle;
      arrival := Nothing;
      model := map[];
      saved := map[];
      trace := [Moment(Store(map[], Disk(map[], map[], {}), [], [], Idle, Nothing), map[])];
    }

    /** The fields after `loadSegments` and `recoverFromWAL`, from the parts they produced. */
    constructor Restored(config: Config, hashes: Hashes, hasher: Hasher, d: Durable, segments: seq<SSTable>,
                         memtable: Table, memtableSize: int)
      requires config.memtableSize > 0 && config.compactionThreshold > 0 && config.bloomFilterSize > 0
      requires AllValid(segments, hashes) && memtable == d.wal && memtableSize == SizeOf(memtable)
      requires Complete(d.disk) && FiltersCover(d.disk, hashes)
      requires Tables(segments) == LoadTables(d.disk) && SegmentIds(segments) == LoadOrder(d.disk)
      ensures Valid() && trace == [Moment(State(), model)] && this.hashes == hashes
      ensures this.memtable == d.wal && wal == d.wal && disk == d.disk && tables == LoadTables(d.disk)
    {
      hide Sound, Reads, Known, SizeOf, Flat, LoadTables, LoadOrder, Complete, FiltersCover, TraceSound;
      var newest := if |segments| == 0 then 0 else segments[|segments| - 1].id;
      RestoredSound(d, hashes, newest);
      this.config := config;
      this.hashes := hashes;
      this.hasher := hasher;
      this.memtable := memtable;
      this.memtableSize := memtableSize;
      this.segments := segments;
      wal := d.wal;
      disk := d.disk;
      compacting := false;
      merged := null;
      victims := [];
      step := 0;
      swapped := false;
      clock := newest;
      tables := Tables(segments);
      job := Idle;
      arrival := Nothing;
      model := Flat(Tables(segments) + [memtable]);
      saved := Flat(Tables(segments) + [memtable]);
      trace := [Moment(Store(d.wal, d.disk, SegmentIds(segments), Tables(segments), Idle, Nothing),
                       Flat(Tables(segments) + [memtable]))];
    }

    /** A read, with the empty value standing for an absent key, is what the plain map says. */
    method Get(key: string) returns (r: Option<Value>)
      requires Valid()
      ensures Valid() && r == View(memtable, tables, key)
      ensures Live(r) == Live(LsmModel.Get(model, key))
    {
      if key in memtable {
        r := Some(memtable[key]);
      } else {
        r := FindNewest(segments, key, hashes);
      }
    }

    /** The steps of the background compaction still to come. */
    ghost function Remaining(): nat
      reads this
    {
      if !compacting then 0
      else 1 + (if swapped then 0 else 1) + (if step <= 3 + 3 * |victims| then 3 + 3 * |victims| - step else 0)
    }

    /** One file operation of the compaction. */
    method CompactFile()
      requires Inner() && compacting && step < 3 + 3 * |victims| && (swapped || step != 3)
      modifies this`disk, this`step, this`job, this`trace
      ensures Inner() && compacting && step == old(step) + 1
      ensures disk == NextFiles(old(disk), victims, merged.id, merged.data, merged.bloom.bits[..], old(step))
      ensures trace == old(trace) + [Moment(State(), saved)]
    {
      hide Sound, NextFiles, Compact, Reads, Known, SSTable.Valid, SizeOf, Tables, TraceSound;
      FileStepSound(State(), saved, hashes, clock, trace);
      disk := NextFiles(disk, victims, merged.id, merged.data, merged.bloom.bits[..], step);
      step := step + 1;
      job := job.(step := step);
      trace := trace + [Moment(State(), saved)];
    }

    /** The merged segment takes the place of those it was made from. With nothing in the
        memtable and nothing flushed behind it, no deletion mark is left. */
    method CompactSwap()
      requires Inner() && compacting && !swapped && step == 3
      modifies this`segments, this`tables, this`swapped, this`job
      ensures Inner() && swapped
      ensures segments == [merged] + old(segments)[|victims|..] && tables == [merged.data] + old(tables)[|victims|..]
      ensures memtable == map[] && |victims| == |old(segments)| ==> RightForAll(tables, model)
    {
      hide Sound, Compact, Reads, Known, SSTable.Valid, Tables, SizeOf, TraceSound, SegmentIds, View, RightForAll;
      SwapPlan(merged);
      var n := |victims|;
      segments, tables := [merged] + segments[n..], [merged.data] + tables[n..];
      swapped := true;
      job := job.(swapped := true);
    }

    lemma SwapPlan(segment: SSTable)
      requires Inner() && compacting && !swapped && step == 3 && merged == segment
      ensures |victims| <= |segments| == |tables|
      ensures AllValid([segment] + segments[|victims|..], hashes)
      ensures Tables([segment] + segments[|victims|..]) == [segment.data] + tables[|victims|..]
      ensures Reads(memtable, [segment.data] + tables[|victims|..], model)
      ensures Known(memtable, [segment.data] + tables[|victims|..], model)
      ensures Swapped(State(), SegmentIds([segment] + segments[|victims|..]), [segment.data] + tables[|victims|..],
                      saved, hashes, clock, trace)
      ensures memtable == map[] && |victims| == |segments| ==>
        RightForAll([segment.data] + tables[|victims|..], model)
    {
      hide Sound, Compact, Reads, Known, SSTable.Valid, SizeOf, TraceSound, View;
      SwapSound(State(), saved, hashes, clock, trace);
      var n := |victims|;
      assert tables == job.sources + tables[n..];
      CompactKeepsReads(memtable, job.sources, tables[n..], model);
      KnownSwap(memtable, job.sources, tables[n..], model);
      SwapLists(segments, segment, n, hashes);
      assert SegmentIds([segment] + segments[n..]) == [segment.id] + SegmentIds(segments)[n..];
      if memtable == map[] && n == |segments| {
        assert [segment.data] + tables[n..] == [Compact(job.sources)];
        NothingMarked(job.sources, model);
      }
    }

    /** The last step, and also what a failed write comes to: the flag is cleared either way. */
    method CompactEnd()
      requires Inner() && compacting
      requires if swapped then step == 3 + 3 * |victims| else step < 3
      modifies this`compacting, this`merged, this`job
      ensures Inner() && !compacting
    {
      hide Sound, Compact, Reads, Known, SSTable.Valid, Tables, SizeOf, TraceSound;
      EndSound(State(), saved, hashes, clock, trace);
      compacting := false;
      merged := null;
      job := Idle;
    }

    /** The newest segment is not one of those being merged. */
    ghost predicate NewestStays()
      reads this
    {
      |tables| == |segments| && tables != [] && (compacting && !swapped ==> |victims| < |tables|)
    }

    /** What may happen at an `await`: any number of steps of a running compaction, which may
        also fail before the swap. */
    method Background()
      requires Inner()
      modifies this`segments, this`tables, this`disk, this`step,
        this`swapped, this`compacting, this`merged, this`job, this`trace
      ensures Inner() && Grown(old(trace), saved) && Ran(old(Compacting()), Compacting())
      ensures !old(compacting) ==>
        !compacting && State() == old(State()) && segments == old(segments) && trace == old(trace)
      ensures old(NewestStays()) ==> NewestStays() && tables[|tables| - 1] == old(tables[|tables| - 1])
    {
      hide LSMStorage.Inner, Ran;
      RanNothing(Compacting());
      while compacting
        invariant Inner() && Grown(old(trace), saved) && Ran(old(Compacting()), Compacting())
        invariant !old(compacting) ==>
          !compacting && State() == old(State()) && segments == old(segments) && trace == old(trace)
        invariant old(NewestStays()) ==> NewestStays() && tables[|tables| - 1] == old(tables[|tables| - 1])
        decreases Remaining()
      {
        if * {
          break;
        }
        ghost var here := Compacting();
        OneStep();
        RanTwice(old(Compacting()), here, Compacting());
      }
    }

    /** The next step of the compaction under way, or its failure. */
    method OneStep()
      requires Inner() && compacting
      modifies this`segments, this`tables, this`disk, this`step,
        this`swapped, this`compacting, this`merged, this`job, this`trace
      ensures Inner() && Grown(old(trace), saved) && Ran(old(Compacting()), Compacting())
      ensures Remaining() < old(Remaining())
      ensures old(NewestStays()) ==> NewestStays() && tables[|tables| - 1] == old(tables[|tables| - 1])
    {
      hide LSMStorage.Inner, Ran;
      StepRange();
      var fails: bool := *;
      if !swapped && step == 3 {
        CompactSwap();
      } else if step >= 3 + 3 * |victims| {
        CompactEnd();
      } else if !swapped && fails {
        CompactEnd();
      } else {
        CompactFile();
      }
      StepRan(old(Compacting()), Compacting());
    }

    lemma StepRange()
      requires Inner() && compacting
      ensures if swapped then 3 <= step <= 3 + 3 * |victims| else step <= 3 && |victims| <= |tables| == |segments|
      ensures merged != null
    {
    }

    /** The part of `compact` before its first await. */
    method StartCompaction()
      requires Valid()
      modifies this`clock, this`merged, this`victims, this`step, this`swapped, this`compacting, this`job
      ensures Valid()
      ensures old(compacting) || |segments| < 2 ==>
        compacting == old(compacting) && State() == old(State()) && Compacting() == old(Compacting())
      ensures !old(compacting) && |segments| >= 2 ==>
        && compacting && !swapped && step == 0 && victims == SegmentIds(segments)[..MergeCount(|segments|)]
        && merged != null && fresh(merged) && merged.data == Compact(tables[..MergeCount(|segments|)])
        && (forall s :: s in segments ==> s.id < merged.id)
        && job.Merging? && job.left == |segments| - MergeCount(|segments|)
    {
      hide Sound, Compact, SSTable.Valid, TraceSound, Reads, Known, SizeOf;
      if compacting || |segments| < 2 {
        return;
      }
      var n := MergeCount(|segments|);
      var ids := IdsOf(segments[..n]);
      var segment := MergeOldest(n);
      Suspend(segment, n, ids);
    }

    /** From here on `compact` waits for its files. */
    method Suspend(segment: SSTable, n: nat, ids: seq<int>)
      requires Valid() && !compacting && segment.Valid() && segment.bloom.hashes == hashes
      requires NewId(State(), segment.id)
      requires n <= |segments| && segment.data == Compact(tables[..n]) && ids == SegmentIds(segments)[..n]
      modifies this`clock, this`merged, this`victims, this`step, this`swapped, this`compacting, this`job
      ensures Valid() && merged == segment && victims == ids && step == 0 && !swapped && compacting
      ensures job.Merging? && job.left == |segments| - n
    {
      hide Sound, Compact, Reads, Known, SSTable.Valid, SizeOf, Tables, TraceSound, BeginStep, NewId, SegmentIds;
      BeginPlan(segment, n);
      clock := segment.id;
      SetLocals(segment, ids, tables[..n], |segments| - n);
    }

    /** The local variables of `compact` at its first await. */
    method SetLocals(segment: SSTable, ids: seq<int>, ghost sources: seq<Table>, ghost left: nat)
      requires segment.Valid() && segment.bloom.hashes == hashes && segment.data == Compact(sources)
      modifies this`merged, this`victims, this`step, this`swapped, this`compacting, this`job
      ensures merged == segment && victims == ids && step == 0 && !swapped && compacting
      ensures job == Merging(ids, sources, segment.id, segment.bloom.bits[..], 0, false, left) && Suspended()
    {
      hide SSTable.Valid, Compact;
      merged, victims, step, swapped, compacting := segment, ids, 0, false, true;
      job := Merging(ids, sources, segment.id, segment.bloom.bits[..], 0, false, left);
    }

    lemma BeginPlan(segment: SSTable, n: nat)
      requires Valid() && !compacting && segment.Valid() && segment.bloom.hashes == hashes
      requires NewId(State(), segment.id)
      requires n <= |segments| && segment.data == Compact(tables[..n])
      ensures |tables| == |segments|
      ensures var t := BeginStep(State(), n, segment.id, segment.bloom.bits[..]);
              && State().(job := Merging(SegmentIds(segments)[..n], tables[..n], segment.id, segment.bloom.bits[..],
                                         0, false, |segments| - n)) == t
              && Sound(t, saved, hashes, segment.id) && TraceSound(trace, hashes, t)
    {
      hide Sound, Compact, Reads, Known, Tables, TraceSound;
      BeginSound(State(), saved, hashes, clock, trace, n, segment.id, segment.bloom.bits[..]);
    }

    /** The merged segment, created later than any other. */
    method MergeOldest(n: nat) returns (segment: SSTable)
      requires Valid() && !compacting && n <= |segments|
      ensures fresh(segment.Repr()) && segment.Valid() && segment.bloom.hashes == hashes
      ensures segment.data == Compact(tables[..n]) && NewId(State(), segment.id)
      ensures forall s :: s in segments ==> s.id < segment.id
    {
      hide Sound, Compact, Reads, Known, SSTable.Valid, SizeOf, TraceSound;
      assert Tables(segments[..n]) == tables[..n];
      var newest := NewestValues(segments[..n], hashes);
      var now := Now();
      segment := BuildSegment(newest, now, config.bloomFilterSize, hashes, hasher);
    }

    /** A time later than that of any segment. */
    method Now() returns (now: int)
      requires Inner()
      ensures NewId(State(), now) && forall s :: s in segments ==> s.id < now
    {
      now :| now > clock;
      SoundFits(State(), saved, hashes, clock);
      SoundIds(State(), saved, hashes, clock);
      forall s | s in segments ensures s.id < now {
        var i :| 0 <= i < |segments| && segments[i] == s;
        assert SegmentIds(segments)[i] in SegmentIds(segments);
      }
    }

    /** One of the three files of the arriving segment. */
    method Save(next: Disk)
      requires Inner() && arrival.Arriving? && arrival.written < 3 && next == WriteStep(State()).disk
      modifies this`disk, this`arrival, this`trace
      ensures Inner() && State() == WriteStep(old(State()))
      ensures trace == old(trace) + [Moment(State(), saved)]
    {
      hide Sound, Compact, Reads, Known, SSTable.Valid, SizeOf, Tables, TraceSound, WriteData, WriteBloom, WriteMeta;
      WriteSound(State(), saved, hashes, clock, trace);
      disk := next;
      arrival := arrival.(written := arrival.written + 1);
      trace := trace + [Moment(State(), saved)];
    }

    /** The three files of a new segment, metadata last, with the compactor free to run at
        every await. */
    method Persist(segment: SSTable)
      requires Inner() && segment.data == wal && arrival == Arriving(segment.id, segment.bloom.bits[..], 0)
      modifies this`segments, this`tables, this`disk, this`step, this`swapped, this`compacting, this`merged, this`job,
               this`trace, this`arrival
      ensures Inner() && Grown(old(trace), saved) && arrival == old(arrival).(written := 3)
      ensures Ran(old(Compacting()), Compacting())
      ensures !old(compacting) ==>
        var one := WriteStep(old(State()));
        var two := WriteStep(one);
        && !compacting && segments == old(segments) && State() == WriteStep(two)
        && trace == old(trace) + [Moment(one, saved), Moment(two, saved), Moment(State(), saved)]
    {
      hide LSMStorage.Inner, WriteData, WriteBloom, WriteMeta;
      hide Ran;
      var id, entries, bits := segment.id, segment.data, segment.bloom.bits[..];
      ghost var before := Compacting();
      AwaitSave(WriteData(disk, id, entries));
      ghost var first := Compacting();
      AwaitSave(WriteBloom(disk, id, bits));
      RanTwice(before, first, Compacting());
      ghost var second := Compacting();
      AwaitSave(WriteMeta(disk, id));
      RanTwice(before, second, Compacting());
    }

    /** One file, and what the compactor does while it is awaited. */
    method AwaitSave(next: Disk)
      requires Inner() && arrival.Arriving? && arrival.written < 3 && next == WriteStep(State()).disk
      modifies this`segments, this`tables, this`disk, this`step, this`swapped, this`compacting, this`merged, this`job,
               this`trace, this`arrival
      ensures Inner() && Grown(old(trace), saved) && arrival == old(arrival).(written := old(arrival).written + 1)
      ensures Ran(old(Compacting()), Compacting())
      ensures !old(compacting) ==>
        && !compacting && segments == old(segments) && State() == WriteStep(old(State()))
        && trace == old(trace) + [Moment(State(), saved)]
    {
      hide LSMStorage.Inner, WriteData, WriteBloom, WriteMeta;
      Save(next);
      Background();
    }

    /** The end of `flush`: the segment joins the list, and memtable and log are cleared. */
    method Commit(segment: SSTable)
      requires Inner() && segment.Valid() && segment.bloom.hashes == hashes && segment.data == memtable == wal
      requires arrival == Arriving(segment.id, segment.bloom.bits[..], 3)
      modifies this`segments, this`tables, this`memtable, this`memtableSize, this`wal, this`arrival, this`trace
      ensures Inner() && memtable == wal == map[] && arrival.Nothing?
      ensures segments == old(segments) + [segment] && tables == old(tables) + [segment.data]
      ensures State() == FinishStep(old(State())) && trace == old(trace) + [Moment(State(), saved)]
      ensures NewestStays()
    {
      hide Sound, Compact, Reads, Known, SSTable.Valid, SizeOf, Tables, TraceSound, View, FinishStep, SegmentIds;
      CommitPlan(segment);
      PushAndClear(segment);
      trace := trace + [Moment(State(), saved)];
    }

    /** `push`, then `clear` on the memtable and on the log. */
    method PushAndClear(segment: SSTable)
      modifies this`segments, this`tables, this`memtable, this`memtableSize, this`wal, this`arrival
      ensures segments == old(segments) + [segment] && tables == old(tables) + [segment.data]
      ensures memtable == wal == map[] && memtableSize == 0 && arrival == Nothing
    {
      segments, tables := segments + [segment], tables + [segment.data];
      memtable, memtableSize := map[], 0;
      wal, arrival := map[], Nothing;
    }

    lemma CommitPlan(segment: SSTable)
      requires Inner() && segment.Valid() && segment.bloom.hashes == hashes && segment.data == memtable == wal
      requires arrival == Arriving(segment.id, segment.bloom.bits[..], 3)
      ensures var segs, left := segments + [segment], tables + [segment.data];
              && AllValid(segs, hashes) && Tables(segs) == left
              && Reads(map[], left, model) && Known(map[], left, model) && SizeOf(map[]) == 0
              && State().(wal := map[], ids := SegmentIds(segs), tables := left, arrival := Nothing) ==
                FinishStep(State())
              && Sound(FinishStep(State()), saved, hashes, clock)
              && TraceSound(trace + [Moment(FinishStep(State()), saved)], hashes, FinishStep(State()))
      ensures compacting && !swapped ==> |victims| <= |tables|
    {
      hide Sound, Compact, Reads, Known, SSTable.Valid, SizeOf, TraceSound, View;
      StepCount();
      PushLists(segments, segment, hashes);
      FlushKeepsReads(memtable, tables, model);
      KnownPush(memtable, tables, model);
      FinishSound(State(), saved, hashes, clock, trace);
      SizeEmpty();
    }

    lemma StepCount()
      requires Inner()
      ensures compacting && !swapped ==> |victims| <= |tables|
    {
    }

    /** A segment with the memtable's entries, created later than any other, and the flush that
        will write it. */
    method NewSegment() returns (segment: SSTable)
      requires Valid()
      modifies this`clock, this`arrival
      ensures Inner() && fresh(segment.Repr()) && segment.Valid() && segment.bloom.hashes == hashes
      ensures segment.data == memtable && NewId(old(State()), segment.id)
      ensures State() == ArriveStep(old(State()), segment.id, segment.bloom.bits[..])
      ensures arrival == Arriving(segment.id, segment.bloom.bits[..], 0)
    {
      hide Sound, Compact, Reads, Known, SSTable.Valid, SizeOf, Tables, TraceSound;
      var now := Now();
      segment := BuildSegment(memtable, now, config.bloomFilterSize, hashes, hasher);
      ArrivePlan(segment);
      clock := now;
      arrival := Arriving(now, segment.bloom.bits[..], 0);
    }

    lemma ArrivePlan(segment: SSTable)
      requires Valid() && segment.Valid() && segment.bloom.hashes == hashes && segment.data == memtable
      requires NewId(State(), segment.id)
      ensures var t := ArriveStep(State(), segment.id, segment.bloom.bits[..]);
              Sound(t, saved, hashes, segment.id) && TraceSound(trace, hashes, t)
    {
      hide Sound, Compact, Reads, Known, Tables, TraceSound;
      ArriveSound(State(), saved, hashes, clock, trace, segment.id, segment.bloom.bits[..]);
    }

    /** The part of `flush` before it may start a compaction. */
    method WriteOut()
      requires Valid() && memtable != map[]
      modifies this
      ensures Valid() && model == old(model) && Grown(old(trace), model)
      ensures memtable == map[] && tables != [] && tables[|tables| - 1] == old(memtable)
      ensures segments != [] && segments[|segments| - 1].data == old(memtable)
      ensures Ran(old(Compacting()).(segments := old(segments) + [segments[|segments| - 1]]), Compacting())
    {
      hide LSMStorage.Inner, SSTable.Valid, NewId, ArriveStep, AllIds, SegmentIds, Ran;
      var segment := NewSegment();
      WriteSegment(segment);
    }

    /** The files of the new segment, and then the segment itself. */
    method WriteSegment(segment: SSTable)
      requires Inner() && segment.Valid() && segment.bloom.hashes == hashes && segment.data == memtable == wal
      requires arrival == Arriving(segment.id, segment.bloom.bits[..], 0)
      modifies this`segments, this`tables, this`disk, this`step, this`swapped, this`compacting, this`merged, this`job,
               this`trace, this`memtable, this`memtableSize, this`wal, this`arrival
      ensures Inner() && memtable == wal == map[] && arrival.Nothing? && Grown(old(trace), saved)
      ensures tables != [] && tables[|tables| - 1] == old(segment.data)
      ensures segments != [] && segments[|segments| - 1] == segment
      ensures Ran(old(Compacting()).(segments := old(segments) + [segment]), Compacting())
    {
      hide LSMStorage.Inner, SSTable.Valid, WriteStep, FinishStep, SegmentIds, Ran;
      ghost var before := Compacting();
      Persist(segment);
      ghost var written := Compacting();
      AwaitCommit(segment);
      RanAround(before, written, Compacting(), segment);
    }

    /** The end of `flush`, and what the compactor does while the log is being cleared. */
    method AwaitCommit(segment: SSTable)
      requires Inner() && segment.Valid() && segment.bloom.hashes == hashes && segment.data == memtable == wal
      requires arrival == Arriving(segment.id, segment.bloom.bits[..], 3)
      modifies this`segments, this`tables, this`disk, this`step, this`swapped, this`compacting, this`merged, this`job,
               this`trace, this`memtable, this`memtableSize, this`wal, this`arrival
      ensures Inner() && memtable == wal == map[] && arrival.Nothing? && Grown(old(trace), saved)
      ensures tables != [] && tables[|tables| - 1] == old(segment.data)
      ensures segments != [] && segments[|segments| - 1] == segment
      ensures Ran(old(Compacting()).(segments := old(segments) + [segment]), Compacting())
    {
      hide LSMStorage.Inner, SSTable.Valid, FinishStep, SegmentIds, Ran;
      Commit(segment);
      ghost var pushed := Compacting();
      Background();
      LastStays(pushed, Compacting(), segment);
    }

    /** Moves the memtable, if there is anything in it, to a new segment behind the others, then
        clears it and the log, and may begin a compaction. */
    method Flush()
      requires Valid()
      modifies this
      ensures Valid() && model == old(model) && Grown(old(trace), model)
      ensures old(memtable) == map[] ==>
        Compacting() == old(Compacting()) && State() == old(State()) && trace == old(trace)
      ensures memtable == wal == map[]
      ensures old(memtable) != map[] ==>
        && segments != [] && segments[|segments| - 1].data == old(memtable)
        && Flushed(old(Compacting()), Compacting(), config.compactionThreshold)
      ensures Begun(old(Compacting()), Compacting()) ==> fresh(Compacting().running)
      ensures forall key :: key in old(memtable) ==> View(memtable, tables, key) == Some(old(memtable)[key])
    {
      hide LSMStorage.Inner, Ran, Flushed;
      if |memtable| == 0 {
        return;
      }
      ghost var before := Compacting();
      WriteOut();
      ghost var written := Compacting();
      CompactIfDue();
      FlushEnds(before, written, Compacting(), config.compactionThreshold);
    }

    /** The end of `flush`. */
    method CompactIfDue()
      requires Valid()
      modifies this`clock, this`merged, this`victims, this`step, this`swapped, this`compacting, this`job
      ensures Valid()
      ensures if |segments| >= config.compactionThreshold && |segments| >= 2 && old(Compacting()).running == null
              then && Compacting().running != null && fresh(Compacting().running)
                   && Compacting().waiting && Compacting().count == MergeCount(|segments|)
              else Compacting() == old(Compacting())
    {
      hide LSMStorage.Inner;
      StillThere();
      if |segments| >= config.compactionThreshold {
        StartCompaction();
      }
    }

    /** Every state recorded since `from` leaves files that open unless a victim is half deleted,
        and that recover to the map while they are in timestamp order. */
    ghost predicate AllRecover(from: nat, m: Table)
      reads this
    {
      forall i :: from <= i < |trace| ==> Recoverable(trace[i].store, hashes, m)
    }

    lemma GrownRecovers(from: seq<Moment>, m: Table)
      requires Inner() && Grown(from, m)
      ensures from <= trace && AllRecover(|from|, m) && OrderTrail(trace)
    {
      hide Survives, Recoverable, OrderTrail;
      forall i | |from| <= i < |trace| ensures Recoverable(trace[i].store, hashes, m) {
        assert trace[i] in trace;
        CrashAnywhere(trace[i], hashes);
      }
    }

    /** A crash before the next write: the files as they are between calls. */
    lemma Resting()
      requires Valid()
      ensures Recoverable(State(), hashes, model)
      ensures OrderTrail(trace) && (Ordered(trace[|trace| - 1].store) ==> Ordered(State()))
    {
      hide Survives, Recoverable, OrderTrail, Ordered;
      CrashAnywhere(Moment(State(), saved), hashes);
    }

    /** A put always leaves the client's map with the new entry, whatever the compactor does
        meanwhile, and the entry is what is read next. A crash before its first write finds the
        map as it was, and a crash after any write during it, the compactor's own included,
        finds the map with the entry, wherever the files are in timestamp order. They leave it
        only where `OrderTrail` says. The memtable is flushed exactly when the entry makes it
        reach the limit: then the newest segment holds it, and otherwise no segment is added and
        no compaction begun. */
    method Put(key: string, value: Value)
      requires Valid()
      modifies this
      ensures SizeOf(memtable) < config.memtableSize
      ensures SizeOf(old(memtable)[key := value]) < config.memtableSize ==>
        memtable == wal == old(memtable)[key := value] && Ran(old(Compacting()), Compacting())
      ensures SizeOf(old(memtable)[key := value]) >= config.memtableSize ==>
        && memtable == wal == map[]
        && segments != [] && segments[|segments| - 1].data == old(memtable)[key := value]
        && Flushed(old(Compacting()), Compacting(), config.compactionThreshold)
      ensures Valid() && model == old(model)[key := value] && View(memtable, tables, key) == Some(value)
      ensures Recoverable(old(State()), hashes, old(model))
      ensures old(trace) < trace && AllRecover(|old(trace)|, model) && OrderTrail(trace)
    {
      hide LSMStorage.Inner, Recoverable, OrderTrail, AllIds, SizeOf, Ran, Flushed;
      Resting();
      ghost var before, compactor := trace, Compacting();
      LogAndSet(key, value);
      Sized();
      ghost var logged := Compacting();
      if memtableSize >= config.memtableSize {
        Flush();
        RanThenFlushed(compactor, logged, Compacting(), config.compactionThreshold);
      }
      GrownRecovers(before, model);
    }

    lemma StillThere()
      requires Inner()
      ensures compacting ==> merged != null
    {
    }

    lemma Sized()
      requires Inner()
      ensures memtableSize == SizeOf(memtable) && SizeOf(map[]) == 0 < config.memtableSize
    {
    }

    /** The part of `put` before it may flush. */
    method LogAndSet(key: string, value: Value)
      requires Valid()
      modifies this
      ensures Valid() && memtable == old(memtable)[key := value] && model == old(model)[key := value]
      ensures old(trace) < trace && Grown(old(trace), model) && Ran(old(Compacting()), Compacting())
    {
      hide LSMStorage.Inner, Ran;
      Log(key, value);
      Background();
      SetEntry(key, value);
    }

    /** The write to the log. */
    method Log(key: string, value: Value)
      requires Valid()
      modifies this`wal, this`saved, this`trace
      ensures Inner() && wal == old(wal)[key := value] && saved == old(saved)[key := value]
      ensures trace == old(trace) + [Moment(State(), saved)]
    {
      hide Sound, Compact, Reads, Known, SSTable.Valid, SizeOf, Tables, TraceSound;
      LogSound(State(), saved, hashes, clock, trace, key, value);
      wal := wal[key := value];
      saved := saved[key := value];
      trace := trace + [Moment(State(), saved)];
    }

    /** The synchronous part of `put`: the memtable and its size. */
    method SetEntry(key: string, value: Value)
      requires Inner()
      modifies this`memtable, this`memtableSize, this`model
      ensures Inner() && memtable == old(memtable)[key := value] && model == old(model)[key := value]
    {
      hide Sound, Reads, Known, Compact, SSTable.Valid, SizeOf, Tables, TraceSound;
      PutReads(memtable, tables, model, key, value);
      KnownPut(memtable, tables, model, key, value);
      SizePut(memtable, key, value);
      var oldSize := if key in memtable then |key| + |memtable[key]| else 0;
      memtable := memtable[key := value];
      memtableSize := memtableSize + |key| + |value| - oldSize;
      model := model[key := value];
    }

    /** Deleting is putting the empty value, which reads as absent, and whose mark is left. */
    method Delete(key: string)
      requires Valid()
      modifies this
      ensures SizeOf(memtable) < config.memtableSize
      ensures SizeOf(old(memtable)[key := []]) < config.memtableSize ==>
        memtable == wal == old(memtable)[key := []] && Ran(old(Compacting()), Compacting())
      ensures SizeOf(old(memtable)[key := []]) >= config.memtableSize ==>
        && memtable == wal == map[]
        && segments != [] && segments[|segments| - 1].data == old(memtable)[key := []]
        && Flushed(old(Compacting()), Compacting(), config.compactionThreshold)
      ensures Valid() && model == old(model)[key := []] && MarkLeft(memtable, tables, key)
      ensures Recoverable(old(State()), hashes, old(model))
      ensures old(trace) < trace && AllRecover(|old(trace)|, model) && OrderTrail(trace)
    {
      hide LSMStorage.Inner, Recoverable, OrderTrail, SizeOf, Ran, Flushed;
      Put(key, []);
      MarkSeen(memtable, tables, key);
    }

    /** `has` asks whether anything is found, and an empty value is something. It is wrong
        exactly for a deleted key whose mark is still its newest entry. */
    method Has(key: string) returns (r: bool)
      requires Valid()
      ensures (r <==> Live(LsmModel.Get(model, key)) != []) <==>
              !(key in model && model[key] == [] && MarkLeft(memtable, tables, key))
      ensures Valid() && (Live(LsmModel.Get(model, key)) != [] ==> r)
    {
      var value := Get(key);
      FoundExactly(memtable, tables, model, key);
      r := value.Some?;
    }

    method Close()
      requires Valid()
      modifies this
      ensures Valid() && model == old(model) && old(trace) <= trace && AllRecover(|old(trace)|, model)
      ensures memtable == wal == map[]
    {
      Flush();
      GrownRecovers(old(trace), model);
    }
  }

  /** Deleted and then asked for at once: `has` says it is there. */
  method DeleteThenHas(engine: LSMStorage, key: string) returns (r: bool)
    requires engine.Valid()
    modifies engine
    ensures engine.Valid() && Live(LsmModel.Get(engine.model, key)) == [] && r
  {
    hide LSMStorage.Valid, Recoverable, OrderTrail, MarkLeft;
    engine.Delete(key);
    r := engine.Has(key);
  }

  /** With nothing in the memtable, what is found for a key is live, for every key. */
  ghost predicate RightForAll(tables: seq<Table>, m: Table) {
    forall key :: View(map[], tables, key).Some? <==> Live(LsmModel.Get(m, key)) != []
  }

  lemma NothingMarked(sources: seq<Table>, m: Table)
    requires Reads(map[], [Compact(sources)], m) && Known(map[], [Compact(sources)], m)
    ensures RightForAll([Compact(sources)], m)
  {
    hide Compact, Reads, Known, View;
    forall key ensures View(map[], [Compact(sources)], key).Some? <==> Live(LsmModel.Get(m, key)) != [] {
      NoMarkAfterMerge(sources, key);
      FoundExactly(map[], [Compact(sources)], m, key);
    }
  }

  lemma KnownPush(memtable: Table, tables: seq<Table>, m: Table)
    requires Known(memtable, tables, m)
    ensures Known(map[], tables + [memtable], m)
  {
    forall key | View(map[], tables + [memtable], key).Some? ensures key in m {
      PushedViews(memtable, tables, key);
    }
  }

  lemma KnownPut(memtable: Table, tables: seq<Table>, m: Table, key: string, value: Value)
    requires Known(memtable, tables, m)
    ensures Known(memtable[key := value], tables, m[key := value])
  {
    var after := memtable[key := value];
    forall k | View(after, tables, k).Some? ensures k in m[key := value] {
      assert k != key ==> View(memtable, tables, k).Some?;
    }
  }

  // ------------------------------------------------------- the files under the engine

  /** Memory and files are in step and hold the map; no segment is newer than the clock. */
  ghost predicate Sound(s: Store, saved: Table, hashes: Hashes, clock: int) {
    Survives(Moment(s, saved), hashes) && forall id :: id in AllIds(s) ==> id <= clock
  }

  lemma SoundFits(s: Store, saved: Table, hashes: Hashes, clock: int)
    requires Sound(s, saved, hashes, clock)
    ensures WellFormed(s)
  {
    hide AllIds, ShownIds, ShownTables;
  }

  lemma SoundIds(s: Store, saved: Table, hashes: Hashes, clock: int)
    requires Sound(s, saved, hashes, clock) && WellFormed(s)
    ensures forall id :: id in AllIds(s) ==> id <= clock
    ensures forall id :: id in s.ids ==> id <= clock
  {
    hide Survives, Compact;
    var all, n := AllIds(s), |Victims(s.job)|;
    forall i | 0 <= i < |s.ids| ensures s.ids[i] in all {
      var k := if s.job.Idle? then i else if s.job.swapped then n + i else if i < n then i else i + 1;
      assert all[k] == s.ids[i];
    }
  }

  lemma QuietSound(s: Store, saved: Table, hashes: Hashes, clock: int)
    requires s.job.Idle? && s.arrival.Nothing? && Mirrored(s.disk, s.ids, s.tables, hashes)
    requires Reads(s.wal, s.tables, saved) && forall id :: id in s.ids ==> id <= clock
    ensures Sound(s, saved, hashes, clock) && TraceSound([Moment(s, saved)], hashes, s)
  {
    hide InStep, Ordered, Mirrored, AllIds, Reads, TraceSound;
    QuietStore(s, hashes);
    assert s.tables + [] == s.tables;
    TraceStarts(s, saved, hashes);
  }

  /** The empty engine over no files. */
  lemma EmptySound(hashes: Hashes)
    ensures Reads(map[], [], map[]) && Known(map[], [], map[]) && SizeOf(map[]) == 0
    ensures var s := Store(map[], Disk(map[], map[], {}), [], [], Idle, Nothing);
            Sound(s, map[], hashes, 0) && TraceSound([Moment(s, map[])], hashes, s)
  {
    QuietSound(Store(map[], Disk(map[], map[], {}), [], [], Idle, Nothing), map[], hashes, 0);
  }

  lemma RestoredSound(d: Durable, hashes: Hashes, clock: int)
    requires Complete(d.disk) && FiltersCover(d.disk, hashes)
    requires clock == if LoadOrder(d.disk) == [] then 0 else LoadOrder(d.disk)[|LoadOrder(d.disk)| - 1]
    ensures var tables := LoadTables(d.disk); var m := Flat(tables + [d.wal]);
            var s := Store(d.wal, d.disk, LoadOrder(d.disk), tables, Idle, Nothing);
            && Reads(d.wal, tables, m) && Known(d.wal, tables, m)
            && Sound(s, m, hashes, clock) && TraceSound([Moment(s, m)], hashes, s)
  {
    var ids, tables := LoadOrder(d.disk), LoadTables(d.disk);
    FlatReads(d.wal, tables);
    LoadMirrored(d.disk, hashes);
    forall id | id in ids ensures id <= clock {
      var i :| 0 <= i < |ids| && ids[i] == id;
    }
    hide Reads, Known, Flat, Shows;
    QuietSound(Store(d.wal, d.disk, ids, tables, Idle, Nothing), Flat(tables + [d.wal]), hashes, clock);
  }

  lemma FileStepSound(s: Store, saved: Table, hashes: Hashes, clock: int, trace: seq<Moment>)
    requires Sound(s, saved, hashes, clock) && TraceSound(trace, hashes, s)
    requires s.job.Merging? && s.job.step < 3 + 3 * |s.job.victims| && (s.job.swapped || s.job.step != 3)
    ensures var t := FileStep(s);
            Sound(t, saved, hashes, clock) && TraceSound(trace + [Moment(t, saved)], hashes, t)
  {
    hide InStep, Ordered, Holds, AllIds, FileStep, TraceSound;
    FileStepKeeps(s, hashes);
    TraceSnoc(trace, hashes, s, FileStep(s), saved);
  }

  /** The state with this list in place of the merged one is sound. */
  ghost predicate Swapped(s: Store, ids: seq<int>, tables: seq<Table>, saved: Table, hashes: Hashes, clock: int,
                          trace: seq<Moment>)
  {
    s.job.Merging? &&
    var t := s.(ids := ids, tables := tables, job := s.job.(swapped := true));
    Sound(t, saved, hashes, clock) && TraceSound(trace, hashes, t)
  }

  lemma SwapSound(s: Store, saved: Table, hashes: Hashes, clock: int, trace: seq<Moment>)
    requires Sound(s, saved, hashes, clock) && TraceSound(trace, hashes, s)
    requires s.job.Merging? && !s.job.swapped && s.job.step == 3
    ensures WellFormed(s) && Swapped(s, RestIds(s), RestTables(s), saved, hashes, clock, trace)
  {
    SoundFits(s, saved, hashes, clock);
    hide InStep, Ordered, Holds, AllIds, TraceSound, WellFormed;
    SwapStepKeeps(s, hashes);
    TraceMoves(trace, hashes, s, SwapStep(s));
  }

  lemma EndSound(s: Store, saved: Table, hashes: Hashes, clock: int, trace: seq<Moment>)
    requires Sound(s, saved, hashes, clock) && TraceSound(trace, hashes, s) && s.job.Merging?
    requires if s.job.swapped then s.job.step == 3 + 3 * |s.job.victims| else s.job.step < 3
    ensures Sound(EndStep(s), saved, hashes, clock) && TraceSound(trace, hashes, EndStep(s))
  {
    hide InStep, Ordered, Holds, AllIds, EndStep, TraceSound;
    EndStepKeeps(s, hashes);
    TraceMoves(trace, hashes, s, EndStep(s));
  }

  lemma BeginSound(s: Store, saved: Table, hashes: Hashes, clock: int, trace: seq<Moment>,
                   n: nat, id: int, bits: seq<bv8>)
    requires Sound(s, saved, hashes, clock) && TraceSound(trace, hashes, s)
    requires s.job.Idle? && s.arrival.Nothing? && NewId(s, id)
    requires n <= |s.ids| == |s.tables| && FilterFits(Compact(s.tables[..n]), bits, hashes)
    ensures var t := BeginStep(s, n, id, bits); Sound(t, saved, hashes, id) && TraceSound(trace, hashes, t)
  {
    hide InStep, Ordered, Holds, AllIds, BeginStep, Compact, FilterFits, TraceSound;
    BeginStepKeeps(s, hashes, n, id, bits);
    TraceMoves(trace, hashes, s, BeginStep(s, n, id, bits));
  }

  lemma ArriveSound(s: Store, saved: Table, hashes: Hashes, clock: int, trace: seq<Moment>, id: int, bits: seq<bv8>)
    requires Sound(s, saved, hashes, clock) && TraceSound(trace, hashes, s)
    requires s.arrival.Nothing? && NewId(s, id) && FilterFits(s.wal, bits, hashes)
    ensures var t := ArriveStep(s, id, bits); Sound(t, saved, hashes, id) && TraceSound(trace, hashes, t)
  {
    hide InStep, Ordered, Holds, AllIds, ArriveStep, FilterFits, TraceSound;
    ArriveStepKeeps(s, hashes, id, bits);
    TraceMoves(trace, hashes, s, ArriveStep(s, id, bits));
  }

  lemma WriteSound(s: Store, saved: Table, hashes: Hashes, clock: int, trace: seq<Moment>)
    requires Sound(s, saved, hashes, clock) && TraceSound(trace, hashes, s)
    requires s.arrival.Arriving? && s.arrival.written < 3
    ensures var t := WriteStep(s);
            Sound(t, saved, hashes, clock) && TraceSound(trace + [Moment(t, saved)], hashes, t)
  {
    hide InStep, Ordered, Holds, AllIds, WriteStep, TraceSound;
    WriteStepKeeps(s, hashes);
    TraceSnoc(trace, hashes, s, WriteStep(s), saved);
  }

  lemma FinishSound(s: Store, saved: Table, hashes: Hashes, clock: int, trace: seq<Moment>)
    requires Sound(s, saved, hashes, clock) && TraceSound(trace, hashes, s)
    requires s.arrival.Arriving? && s.arrival.written == 3
    ensures var t := FinishStep(s);
            Sound(t, saved, hashes, clock) && TraceSound(trace + [Moment(t, saved)], hashes, t)
  {
    hide InStep, Ordered, Holds, AllIds, FinishStep, TraceSound;
    FinishStepKeeps(s, hashes);
    TraceSnoc(trace, hashes, s, FinishStep(s), saved);
  }

  lemma LogSound(s: Store, saved: Table, hashes: Hashes, clock: int, trace: seq<Moment>, key: string, value: Value)
    requires Sound(s, saved, hashes, clock) && TraceSound(trace, hashes, s) && s.arrival.Nothing?
    ensures var t, m := LogStep(s, key, value), saved[key := value];
            Sound(t, m, hashes, clock) && TraceSound(trace + [Moment(t, m)], hashes, t)
  {
    hide InStep, Ordered, Holds, AllIds, LogStep, TraceSound;
    LogStepKeeps(s, hashes, key, value);
    TraceSnoc(trace, hashes, s, LogStep(s, key, value), saved[key := value]);
  }

  // ------------------------------------------------------- reopening

  /** `loadSegments`: by timestamp, oldest first. */
  method LoadSegments(disk: Disk, hashes: Hashes, hasher: Hasher) returns (segs: seq<SSTable>)
    requires Complete(disk) && FiltersCover(disk, hashes)
    ensures AllValid(segs, hashes) && Tables(segs) == LoadTables(disk) && SegmentIds(segs) == LoadOrder(disk)
    ensures forall s :: s in segs ==> fresh(s.Repr())
  {
    var ids := LoadIds(disk);
    hide SSTable.Valid, LoadOrder, LoadTables, FilterFits;
    segs := [];
    for i := 0 to |ids|
      invariant AllValid(segs, hashes) && |segs| == i
      invariant forall k :: 0 <= k < i ==> segs[k].id == ids[k] && segs[k].data == disk.data[ids[k]]
      invariant forall s :: s in segs ==> fresh(s.Repr())
    {
      var segment := LoadOne(disk, ids[i], hashes, hasher);
      segs := segs + [segment];
    }
    LoadedAll(disk, segs);
  }

  method LoadIds(disk: Disk) returns (ids: seq<int>)
    ensures ids == LoadOrder(disk) && forall i :: 0 <= i < |ids| ==> ids[i] in disk.meta
  {
    var listed := SetToSeq(disk.meta);
    IntOrder();
    assert Elems(listed) == disk.meta;
    SortedListing(listed, disk.meta, IntLe);
    ids := SortBy(listed, IntLe);
    assert forall i :: 0 <= i < |ids| ==> ids[i] in Elems(ids);
  }

  method LoadOne(disk: Disk, id: int, hashes: Hashes, hasher: Hasher) returns (segment: SSTable)
    requires Complete(disk) && FiltersCover(disk, hashes) && id in disk.meta
    ensures segment.Valid() && segment.id == id && segment.data == disk.data[id] && segment.bloom.hashes == hashes
    ensures fresh(segment.Repr())
  {
    segment := new SSTable.Load(id, disk.data[id], disk.bloom[id], hashes, hasher);
  }

  lemma LoadedAll(disk: Disk, segs: seq<SSTable>)
    requires Complete(disk) && |segs| == |LoadOrder(disk)|
    requires forall k :: 0 <= k < |segs| ==>
      LoadOrder(disk)[k] in disk.meta && segs[k].id == LoadOrder(disk)[k] &&
        segs[k].data == disk.data[LoadOrder(disk)[k]]
    ensures Tables(segs) == LoadTables(disk) && SegmentIds(segs) == LoadOrder(disk)
  {
  }

  /** `recoverFromWAL`: each logged key once, so the sizes add up. */
  method RecoverFromWAL(wal: Table) returns (memtable: Table, memtableSize: int)
    ensures memtable == wal && memtableSize == SizeOf(memtable)
  {
    memtable := map[];
    memtableSize := 0;
    var rest := wal.Keys;
    while rest != {}
      invariant rest <= wal.Keys && memtable == wal - rest && memtableSize == SizeOf(memtable)
      decreases rest
    {
      var key :| key in rest;
      rest := rest - {key};
      SizePut(memtable, key, wal[key]);
      memtable := memtable[key := wal[key]];
      memtableSize := memtableSize + |key| + |wal[key]|;
    }
  }

  /** Opening a directory. `null` stands for the error of a segment whose metadata is there and
      whose data or filter is not; otherwise the engine reads like every map the files
      recover to. */
  method Open(config: Config, hashes: Hashes, hasher: Hasher, d: Durable) returns (r: LSMStorage?)
    requires config.memtableSize > 0 && config.compactionThreshold > 0 && config.bloomFilterSize > 0
    requires Complete(d.disk) ==> FiltersCover(d.disk, hashes)
    ensures r == null <==> !Complete(d.disk)
    ensures r != null ==>
      fresh(r) && r.Valid() && r.trace == [Moment(r.State(), r.model)] && r.wal == d.wal && r.disk == d.disk
    ensures r != null ==> forall m, key :: RecoversTo(d, hashes, m) ==>
      Live(LsmModel.Get(r.model, key)) == Live(LsmModel.Get(m, key))
  {
    if !Complete(d.disk) {
      return null;
    }
    var segments := LoadSegments(d.disk, hashes, hasher);
    var memtable, memtableSize := RecoverFromWAL(d.wal);
    r := new LSMStorage.Restored(config, hashes, hasher, d, segments, memtable, memtableSize);
    SameReads(r, d, hashes);
  }

  lemma SameReads(r: LSMStorage, d: Durable, hashes: Hashes)
    requires r.Valid() && Complete(d.disk) && r.memtable == d.wal && r.tables == LoadTables(d.disk)
    ensures forall m, key :: RecoversTo(d, hashes, m) ==> Live(LsmModel.Get(r.model, key)) == Live(LsmModel.Get(m, key))
  {
    assert Reads(r.memtable, r.tables, r.model);
    hide LSMStorage.Valid, LoadTables, Compact;
    forall m, key | RecoversTo(d, hashes, m) ensures Live(LsmModel.Get(r.model, key)) == Live(LsmModel.Get(m, key)) {
      assert Live(View(r.memtable, r.tables, key)) == Live(LsmModel.Get(m, key));
    }
  }

  // ------------------------------------------------------- whole runs of client calls

  datatype Request = PutValue(key: string, value: Value) | DeleteKey(key: string) | GetValue(key: string)

  /** What one plain map would answer, absent keys reading as empty. */
  function PlainAnswers(m: Table, requests: seq<Request>): seq<Value>
    decreases |requests|
  {
    if requests == [] then []
    else
      match requests[0]
      case PutValue(key, value) => PlainAnswers(m[key := value], requests[1..])
      case DeleteKey(key) => PlainAnswers(m[key := []], requests[1..])
      case GetValue(key) => [Live(LsmModel.Get(m, key))] + PlainAnswers(m, requests[1..])
  }

  /** The plain map after these calls. */
  function PlainMap(m: Table, requests: seq<Request>): Table {
    if requests == [] then m
    else
      var before := PlainMap(m, requests[..|requests| - 1]);
      match requests[|requests| - 1]
      case PutValue(key, value) => before[key := value]
      case DeleteKey(key) => before[key := []]
      case GetValue(_) => before
  }

  /** One call's part of the trace: every state recovers to the map before or after the call. */
  ghost predicate BeforeOrAfter(trace: seq<Moment>, from: nat, to: nat, hashes: Hashes, before: Table, after: Table) {
    from <= to <= |trace| && forall i :: from <= i < to ==>
      Recoverable(trace[i].store, hashes, before) || Recoverable(trace[i].store, hashes, after)
  }

  /** Any awaited sequence of client calls, the compactor taking any of its steps before,
      between and inside them, is answered as by one plain map. A crash after any durable write
      of the run leaves files that open unless a merged segment is caught half deleted, and
      that, wherever they are in timestamp order, recover to the map just before or just after
      the call in flight. `OrderTrail` says where in the trace they leave that order and where
      they are back in it; `marks`, which part of the trace belongs to which call. A memtable under its
      limit stays so. */
  method Serve(engine: LSMStorage, requests: seq<Request>) returns (answers: seq<Value>, ghost marks: seq<nat>)
    requires engine.Valid()
    modifies engine
    ensures engine.Valid() && engine.model == PlainMap(old(engine.model), requests)
    ensures answers == PlainAnswers(old(engine.model), requests)
    ensures |marks| == |requests| + 1 && marks[0] == |old(engine.trace)| && marks[|requests|] == |engine.trace|
    ensures old(engine.trace) <= engine.trace
    ensures forall k :: 0 <= k < |requests| ==>
      BeforeOrAfter(engine.trace, marks[k], marks[k + 1], engine.hashes,
                    PlainMap(old(engine.model), requests[..k]), PlainMap(old(engine.model), requests[..k + 1]))
    ensures OrderTrail(engine.trace)
    ensures SizeOf(old(engine.memtable)) < engine.config.memtableSize ==>
      SizeOf(engine.memtable) < engine.config.memtableSize
  {
    hide SizeOf, LSMStorage.Valid, OrderTrail, BeforeOrAfter, PlainAnswers, PlainMap;
    answers, marks := [], [|engine.trace|];
    ServeNothing(engine.model, requests);
    for i := 0 to |requests|
      invariant engine.Valid() && engine.model == PlainMap(old(engine.model), requests[..i])
      invariant answers + PlainAnswers(engine.model, requests[i..]) == PlainAnswers(old(engine.model), requests)
      invariant |marks| == i + 1 && marks[0] == |old(engine.trace)| && marks[i] == |engine.trace|
      invariant old(engine.trace) <= engine.trace
      invariant SizeOf(old(engine.memtable)) < engine.config.memtableSize ==>
        SizeOf(engine.memtable) < engine.config.memtableSize
      invariant forall k :: 0 <= k < i ==>
        BeforeOrAfter(engine.trace, marks[k], marks[k + 1], engine.hashes,
                      PlainMap(old(engine.model), requests[..k]), PlainMap(old(engine.model), requests[..k + 1]))
    {
      ghost var before := engine.trace;
      ServeNext(old(engine.model), requests, i);
      var answer := ServeOne(engine, requests[i]);
      answers := answers + answer;
      marks := marks + [|engine.trace|];
      StillBeforeOrAfter(before, engine.trace, engine.hashes);
    }
    ServeAll(engine.model, requests);
    engine.Resting();
  }

  lemma ServeNothing(m: Table, requests: seq<Request>)
    ensures PlainMap(m, requests[..0]) == m && requests[0..] == requests
  {
  }

  lemma ServeNext(m: Table, requests: seq<Request>, i: nat)
    requires i < |requests|
    ensures var before := PlainMap(m, requests[..i]);
            && PlainMap(m, requests[..i + 1]) == PlainMap(before, [requests[i]])
            && PlainAnswers(before, requests[i..]) ==
               Answer(before, requests[i]) + PlainAnswers(PlainMap(before, [requests[i]]), requests[i + 1..])
  {
    assert requests[..i + 1][..i] == requests[..i] && [requests[i]][..0] == [];
    assert requests[i..][1..] == requests[i + 1..];
  }

  lemma ServeAll(m: Table, requests: seq<Request>)
    ensures PlainAnswers(m, requests[|requests|..]) == [] && requests[..|requests|] == requests
  {
  }

  /** The answer of one call, if it has one. */
  function Answer(m: Table, request: Request): seq<Value> {
    match request
    case GetValue(key) => [Live(LsmModel.Get(m, key))]
    case _ => []
  }

  /** A longer trace has the same states where it was. */
  lemma StillBeforeOrAfter(short: seq<Moment>, long: seq<Moment>, hashes: Hashes)
    requires short <= long
    ensures forall from: nat, to: nat, a, b ::
      BeforeOrAfter(short, from, to, hashes, a, b) ==> BeforeOrAfter(long, from, to, hashes, a, b)
  {
    hide Recoverable;
  }

  method ServeOne(engine: LSMStorage, request: Request) returns (answer: seq<Value>)
    requires engine.Valid()
    modifies engine
    ensures engine.Valid() && engine.model == PlainMap(old(engine.model), [request])
    ensures answer == Answer(old(engine.model), request)
    ensures old(engine.trace) <= engine.trace
    ensures BeforeOrAfter(engine.trace, |old(engine.trace)|, |engine.trace|, engine.hashes,
                          old(engine.model), engine.model)
    ensures SizeOf(old(engine.memtable)) < engine.config.memtableSize ==>
      SizeOf(engine.memtable) < engine.config.memtableSize
  {
    hide LSMStorage.Inner, Recoverable, OrderTrail, SizeOf, Flushed, Ran;
    assert [request][..0] == [];
    answer := [];
    ghost var first, before := engine.trace, engine.model;
    engine.Background();
    engine.GrownRecovers(first, before);
    ghost var second := engine.trace;
    match request {
      case PutValue(key, value) =>
        engine.Put(key, value);
      case DeleteKey(key) =>
        engine.Delete(key);
      case GetValue(key) =>
        var found := engine.Get(key);
        answer := [Live(found)];
    }
  }

  /** Crash after any durable write that left the files in timestamp order, and open again: that
      fails exactly when a merged segment is caught half deleted, and otherwise the new engine
      reads like the map the client had built by then. */
  method CrashAndOpen(engine: LSMStorage, d: Durable, ghost i: nat) returns (r: LSMStorage?)
    requires engine.Valid() && i < |engine.trace| && Ordered(engine.trace[i].store)
    requires d == Durable(engine.trace[i].store.wal, engine.trace[i].store.disk)
    ensures r == null <==> Caught(engine.trace[i].store.job)
    ensures r != null ==> fresh(r) && r.Valid()
    ensures r != null ==>
      forall key :: Live(LsmModel.Get(r.model, key)) == Live(LsmModel.Get(engine.trace[i].saved, key))
  {
    assert engine.trace[i] in engine.trace;
    CrashAnywhere(engine.trace[i], engine.hashes);
    hide LSMStorage.Valid, Reads, Survives, Ordered;
    r := Open(engine.config, engine.hashes, engine.hasher, d);
  }
}
