/** The write path (hbasedb.py, `__archive_update_many` and `__propagate`,
    and the calls `update_many` makes). Points handed to an archive are
    aligned to its step, de-duplicated through a dict (the last value per
    aligned timestamp wins), and written, each overwriting its slot. Then
    the first coarser archive gets a rollup per touched interval when enough
    of the interval is known. `__propagate` returns nothing, so the cascade
    never reaches a second coarser archive. */
module WritePath {
  import opened Base
  import opened Codec
  import opened Ring
  import opened Schema
  import opened Partition
  import opened ReadPath

  /** `util.aggregate(aggregationMethod, values)`: supplied from outside,
      never interpreted here. */
  type Aggregator = (string, seq<DoubleBits>) -> DoubleBits

  /** `[(timestamp - (timestamp % step), value) for (timestamp, value) in points]` */
  function AlignedPairs(points: seq<Point>, step: int): seq<(int, DoubleBits)>
    requires step > 0
  {
    seq(|points|, i requires 0 <= i < |points| => (Align(points[i].timestamp, step), points[i].value))
  }

  /** `dict(alignedPoints).items()`, in first-insertion order. */
  function AlignedItems(points: seq<Point>, step: int): seq<(int, DoubleBits)>
    requires step > 0
  {
    DictItems(AlignedPairs(points, step))
  }

  /** Every aligned timestamp still fits the 32-bit timestamp field. */
  predicate TimestampsFit(items: seq<(int, DoubleBits)>) {
    forall i :: 0 <= i < |items| ==> 0 <= items[i].0 < 0x1_0000_0000
  }

  /** Point `j` is the last of `points` aligning to `ts`. */
  predicate LastAligning(points: seq<Point>, step: int, j: int, ts: int)
    requires step > 0
  {
    0 <= j < |points| && Align(points[j].timestamp, step) == ts &&
    forall j' :: j < j' < |points| ==> Align(points[j'].timestamp, step) != ts
  }

  /** The items a batch writes: one per aligned timestamp (no timestamp
      twice), each timestamp a multiple of the step that fits the 32-bit
      field, and every point's aligned timestamp is among them. */
  lemma AlignedItemsFacts(points: seq<Point>, step: int)
    requires step > 0
    ensures var items := AlignedItems(points, step);
            && TimestampsFit(items)
            && Distinct(Firsts(items))
            && (forall i :: 0 <= i < |items| ==> items[i].0 % step == 0)
            && (forall j :: 0 <= j < |points| ==> Align(points[j].timestamp, step) in Firsts(items))
  {
    var pairs := AlignedPairs(points, step);
    var items := AlignedItems(points, step);
    forall i | 0 <= i < |items|
      ensures 0 <= items[i].0 < 0x1_0000_0000 && items[i].0 % step == 0
    {
      assert items[i].0 == Firsts(items)[i];
      assert items[i].0 in Firsts(pairs);
    }
    forall j | 0 <= j < |points| ensures Align(points[j].timestamp, step) in Firsts(items) {
      assert Firsts(pairs)[j] == Align(points[j].timestamp, step);
    }
  }

  /** Each written value is that of the LAST point in the batch aligning to
      the written timestamp: a later duplicate overrides an earlier one. */
  lemma AlignedItemsLast(points: seq<Point>, step: int, i: int)
    requires step > 0 && 0 <= i < |AlignedItems(points, step)|
    ensures var item := AlignedItems(points, step)[i];
            exists j :: LastAligning(points, step, j, item.0) && points[j].value == item.1
  {
    var pairs := AlignedPairs(points, step);
    var items := AlignedItems(points, step);
    var keys := Dedup(Firsts(pairs));
    assert items[i] == (keys[i], LastValue(pairs, keys[i]).value);
    assert keys[i] in Firsts(pairs);
    LastValueIsLast(pairs, keys[i], items[i].1);
    var j :| 0 <= j < |pairs| && pairs[j] == (keys[i], items[i].1) &&
             forall j' :: j < j' < |pairs| ==> pairs[j'].0 != keys[i];
    assert pairs[j] == (Align(points[j].timestamp, step), points[j].value);
    forall j' | j < j' < |points| ensures Align(points[j'].timestamp, step) != items[i].0 {
      assert pairs[j'].0 == Align(points[j'].timestamp, step);
    }
    assert LastAligning(points, step, j, items[i].0);
  }

  /** The slot writes of one batch, in order: each item overwrites the slot
      of its timestamp, whatever it held. */
  function WriteSlots(t: DataTable, a: Archive, items: seq<(int, DoubleBits)>): DataTable
    requires WellFormedArchive(a) && TimestampsFit(items)
  {
    if |items| == 0 then t
    else
      var ts := items[|items| - 1].0;
      WriteSlots(t, a, items[..|items| - 1])[DataKey(a.archiveId, SlotOf(ts, a.secondsPerPoint, a.points)) := SlotRecord(ts, items[|items| - 1].1)]
  }

  /** The key item `i` of a batch is written to. */
  function ItemKey(a: Archive, items: seq<(int, DoubleBits)>, i: int): DataKey
    requires WellFormedArchive(a) && TimestampsFit(items) && 0 <= i < |items|
  {
    DataKey(a.archiveId, SlotOf(items[i].0, a.secondsPerPoint, a.points))
  }

  /** No item of the batch is written to key `k`. */
  predicate Untouched(a: Archive, items: seq<(int, DoubleBits)>, k: DataKey)
    requires WellFormedArchive(a) && TimestampsFit(items)
  {
    forall i :: 0 <= i < |items| ==> ItemKey(a, items, i) != k
  }

  /** Item `i` is the last of the batch written to key `k`. */
  predicate LastWrite(a: Archive, items: seq<(int, DoubleBits)>, i: int, k: DataKey)
    requires WellFormedArchive(a) && TimestampsFit(items)
  {
    0 <= i < |items| && ItemKey(a, items, i) == k &&
    forall i' :: i < i' < |items| ==> ItemKey(a, items, i') != k
  }

  /** A key no item is written to keeps its record, or stays absent. */
  lemma {:induction false} WriteSlotsUntouched(t: DataTable, a: Archive, items: seq<(int, DoubleBits)>, k: DataKey)
    requires WellFormedArchive(a) && TimestampsFit(items) && Untouched(a, items, k)
    ensures var r := WriteSlots(t, a, items);
            (k in r <==> k in t) && (k in t ==> r[k] == t[k])
  {
    if |items| > 0 {
      var n := |items| - 1;
      var init := items[..n];
      assert TimestampsFit(init);
      assert forall i :: 0 <= i < n ==> ItemKey(a, init, i) == ItemKey(a, items, i);
      assert ItemKey(a, items, n) != k;
      WriteSlotsUntouched(t, a, init, k);
    }
  }

  /** A written key holds the last item written to it, whatever it held
      before. */
  lemma {:induction false} WriteSlotsLast(t: DataTable, a: Archive, items: seq<(int, DoubleBits)>, i: int, k: DataKey)
    requires WellFormedArchive(a) && TimestampsFit(items) && LastWrite(a, items, i, k)
    ensures var r := WriteSlots(t, a, items);
            k in r && r[k] == SlotRecord(items[i].0, items[i].1)
  {
    var n := |items| - 1;
    if i < n {
      var init := items[..n];
      assert TimestampsFit(init);
      assert forall i' :: 0 <= i' < n ==> ItemKey(a, init, i') == ItemKey(a, items, i');
      assert ItemKey(a, items, n) != k;
      assert LastWrite(a, init, i, k);
      WriteSlotsLast(t, a, init, i, k);
    }
  }

  /** `[v for v in higherResData if v is not None]` */
  function Known(s: Series): (r: seq<DoubleBits>)
    ensures |r| <= |s|
    ensures forall v :: v in r <==> Some(v) in s
  {
    if |s| == 0 then []
    else (if s[0].Some? then [s[0].value] else []) + Known(s[1..])
  }

  /** `len(known_datapts) / len(higherResData) > xff` under Python 2:
      the division is on integers, and None compares below every number. */
  predicate Exceeds(known: nat, total: nat, xff: Option<real>)
    requires total > 0
  {
    xff.None? || (known / total) as real > xff.value
  }

  /** Integer division turns the threshold into all-or-nothing: with a
      threshold in [0, 1) a rollup needs EVERY slot of the interval known,
      a threshold of 1 or more never lets one through, a negative one
      always does, and None always does. */
  lemma ExceedsMeaning(known: nat, total: nat, xff: Option<real>)
    requires 0 < total && known <= total
    ensures Exceeds(known, total, xff) <==>
            xff.None? || xff.value < 0.0 || (known == total && xff.value < 1.0)
  {
    if known < total {
      DivModUnique(known, total, 0, known);
    } else {
      DivModUnique(known, total, 1, 0);
    }
  }

  /** Three known values out of four do not propagate under a threshold of
      0.5 (the integer ratio is 0); four out of four do. */
  lemma ThresholdExample()
    ensures !Exceeds(3, 4, Some(0.5)) && !Exceeds(2, 4, Some(0.5)) && Exceeds(4, 4, Some(0.5))
  {
    ExceedsMeaning(3, 4, Some(0.5));
    ExceedsMeaning(2, 4, Some(0.5));
    ExceedsMeaning(4, 4, Some(0.5));
  }

  /** The window [intervalStart, intervalStart + lowerStep], aligned to the
      finer step, covers at least one finer slot. */
  lemma IntervalWindowNonEmpty(higher: Archive, intervalStart: int, lowerStep: int)
    requires WellFormedArchive(higher) && lowerStep >= higher.secondsPerPoint
    ensures WindowStart(higher, intervalStart) < WindowEnd(higher, intervalStart + lowerStep)
  {
  }

  /** The key a rollup for `timestamp` is written to. */
  function RollupKey(lower: Archive, timestamp: int): DataKey
    requires WellFormedArchive(lower)
  {
    DataKey(lower.archiveId, SlotOf(timestamp, lower.secondsPerPoint, lower.points))
  }

  /** The finer archive's read over an interval of the coarser one
      succeeds with at least one point. */
  lemma IntervalFetchNonEmpty(t: DataTable, higher: Archive, lower: Archive, intervalStart: int)
    requires WellFormedArchive(higher) && WellFormedArchive(lower)
    requires higher.secondsPerPoint < lower.secondsPerPoint
    ensures var f := ArchiveFetch(t, higher, intervalStart, intervalStart + lower.secondsPerPoint);
            f.Ok? && |f.value| > 0
  {
    IntervalWindowNonEmpty(higher, intervalStart, lower.secondsPerPoint);
    FetchOk(t, higher, intervalStart, intervalStart + lower.secondsPerPoint);
    QuotientOfMultiples(WindowStart(higher, intervalStart), WindowEnd(higher, intervalStart + lower.secondsPerPoint), higher.secondsPerPoint);
  }

  /** The finer archive's values over the interval starting at `intervalStart`. */
  function IntervalData(t: DataTable, higher: Archive, lower: Archive, intervalStart: int): (r: Series)
    requires WellFormedArchive(higher) && WellFormedArchive(lower)
    requires higher.secondsPerPoint < lower.secondsPerPoint
    ensures |r| > 0
  {
    IntervalFetchNonEmpty(t, higher, lower, intervalStart);
    ArchiveFetch(t, higher, intervalStart, intervalStart + lower.secondsPerPoint).value
  }


  /** The finer data of an interval is the read of the finer archive over it, which succeeds. */
  lemma IntervalDataIsFetch(t: DataTable, higher: Archive, lower: Archive, intervalStart: int)
    requires WellFormedArchive(higher) && WellFormedArchive(lower)
    requires higher.secondsPerPoint < lower.secondsPerPoint
    ensures ArchiveFetch(t, higher, intervalStart, intervalStart + lower.secondsPerPoint) ==
            Ok(IntervalData(t, higher, lower, intervalStart))
  {
    IntervalWindowNonEmpty(higher, intervalStart, lower.secondsPerPoint);
    FetchOk(t, higher, intervalStart, intervalStart + lower.secondsPerPoint);
  }

  /** `__propagate(info, timestamp, higher, lower)`, with the archive
      record (not its id) handed to the read and the lower archive's
      `points` used for the slot. */
  function Propagate(t: DataTable, info: Info, timestamp: int, higher: Archive, lower: Archive, aggregate: Aggregator): DataTable
    requires WellFormedArchive(higher) && WellFormedArchive(lower)
    requires higher.secondsPerPoint < lower.secondsPerPoint
    requires 0 <= timestamp < 0x1_0000_0000
  {
    var intervalStart := Align(timestamp, lower.secondsPerPoint);
    var data := IntervalData(t, higher, lower, intervalStart);
    var known := Known(data);
    if Exceeds(|known|, |data|, info.xFilesFactor) then
      t[RollupKey(lower, timestamp) := SlotRecord(timestamp, aggregate(info.aggregationMethod, known))]
    else t
  }

  /** A rollup touches one key of the coarser archive, the slot of the
      interval's start, and only when the known fraction of the finer data
      over the interval passes the threshold; it then holds the interval's
      start and the aggregate of the known values. */
  lemma PropagateEffect(t: DataTable, info: Info, timestamp: int, higher: Archive, lower: Archive, aggregate: Aggregator)
    requires WellFormedArchive(higher) && WellFormedArchive(lower)
    requires higher.secondsPerPoint < lower.secondsPerPoint
    requires 0 <= timestamp < 0x1_0000_0000 && timestamp % lower.secondsPerPoint == 0
    ensures var r := Propagate(t, info, timestamp, higher, lower, aggregate);
            var intervalStart := Align(timestamp, lower.secondsPerPoint);
            var data := IntervalData(t, higher, lower, intervalStart);
            var key := DataKey(lower.archiveId, SlotOf(intervalStart, lower.secondsPerPoint, lower.points));
            && intervalStart == timestamp
            && (forall k :: k != key ==> (k in r <==> k in t) && (k in t ==> r[k] == t[k]))
            && (Exceeds(|Known(data)|, |data|, info.xFilesFactor) ==>
                  key in r && r[key] == SlotRecord(intervalStart, aggregate(info.aggregationMethod, Known(data))))
            && (!Exceeds(|Known(data)|, |data|, info.xFilesFactor) ==> r == t)
  {
    AlignUnique(timestamp, lower.secondsPerPoint, timestamp);
  }

  /** The first argument `__archive_fetch` receives: an archive record, or
      an archive id, which is what `__propagate` hands it. */
  datatype FetchArg = IdArg(id: int) | RecordArg(archive: Archive)

  /** `__archive_fetch(arg, ...)` for either kind of argument: its first
      line, `archive['secondsPerPoint']`, raises TypeError on an integer. */
  function ArchiveFetchArg(t: DataTable, arg: FetchArg, startTime: int, endTime: int): Result<Series>
    requires arg.RecordArg? ==> WellFormedArchive(arg.archive)
  {
    match arg
      case IdArg(_) => Err(TypeError)
      case RecordArg(a) => ArchiveFetch(t, a, startTime, endTime)
  }

  /** `archive[name]` on an archive record: the four keys `create` writes. */
  function ArchiveField(a: Archive, name: string): Result<int> {
    if name == "archiveId" then Ok(a.archiveId as int)
    else if name == "secondsPerPoint" then Ok(a.secondsPerPoint)
    else if name == "points" then Ok(a.points)
    else if name == "retention" then Ok(a.retention)
    else Err(KeyError(name))
  }

  /** `__propagate(info, timestamp, higher, lower)` exactly as written: the
      read is handed `higher['archiveId']`. */
  function PropagateAsWritten(t: DataTable, info: Info, timestamp: int, higher: Archive, lower: Archive, aggregate: Aggregator): Result<DataTable>
    requires WellFormedArchive(lower)
  {
    var intervalStart := Align(timestamp, lower.secondsPerPoint);
    match ArchiveFetchArg(t, IdArg(higher.archiveId), intervalStart, intervalStart + lower.secondsPerPoint)
      case Err(e) => Err(e)
      case Ok(data) => RollupAsWritten(t, info, timestamp, lower, data, aggregate)
  }

  /** The rest of `__propagate` as written, once the finer data is read:
      the ratio test, then the slot computed from `lower['numPoints']`. */
  function RollupAsWritten(t: DataTable, info: Info, timestamp: int, lower: Archive, data: Series, aggregate: Aggregator): Result<DataTable> {
    var known := Known(data);
    if |data| == 0 then Err(ZeroDivision)
    else if !Exceeds(|known|, |data|, info.xFilesFactor) then Ok(t)
    else match ArchiveField(lower, "numPoints")
      case Err(e) => Err(e)
      case Ok(n) => WriteRollupAsWritten(t, info, timestamp, lower, n, known, aggregate)
  }

  /** `lowerSlot = timestamp / lower['secondsPerPoint'] % numPoints` and the write. */
  function WriteRollupAsWritten(t: DataTable, info: Info, timestamp: int, lower: Archive, n: int, known: seq<DoubleBits>, aggregate: Aggregator): Result<DataTable> {
    if lower.secondsPerPoint <= 0 || n <= 0 then Err(ZeroDivision)
    else
      var slot := (timestamp / lower.secondsPerPoint) % n;
      if 0 <= lower.archiveId < 0x1_0000_0000 && slot < 0x1_0000_0000 && 0 <= timestamp < 0x1_0000_0000 then
        Ok(t[DataKey(lower.archiveId, slot) := SlotRecord(timestamp, aggregate(info.aggregationMethod, known))])
      else Err(PackError)
  }

  /** As written, every `__propagate` call raises: the archive id it passes
      is not subscriptable, and archive records have no `numPoints` key, so
      the slot lookup would raise next. `Propagate` is the evidently
      intended call, reading the finer archive's record and its `points`. */
  lemma PropagateAsWrittenRaises(t: DataTable, info: Info, timestamp: int, higher: Archive, lower: Archive, aggregate: Aggregator)
    requires WellFormedArchive(higher) && WellFormedArchive(lower)
    ensures PropagateAsWritten(t, info, timestamp, higher, lower, aggregate) == Err(TypeError)
    ensures ArchiveFetchArg(t, RecordArg(higher), timestamp, timestamp + lower.secondsPerPoint).Err? ==>
              ArchiveFetchArg(t, RecordArg(higher), timestamp, timestamp + lower.secondsPerPoint) == Err(IndexError)
    ensures ArchiveField(lower, "numPoints") == Err(KeyError("numPoints"))
    ensures ArchiveField(lower, "points") == Ok(lower.points)
  {
  }

  /** One `__propagate` call per interval, in order. */
  function PropagateAll(t: DataTable, info: Info, intervals: seq<int>, higher: Archive, lower: Archive, aggregate: Aggregator): DataTable
    requires WellFormedArchive(higher) && WellFormedArchive(lower)
    requires higher.secondsPerPoint < lower.secondsPerPoint
    requires forall i :: 0 <= i < |intervals| ==> 0 <= intervals[i] < 0x1_0000_0000
  {
    if |intervals| == 0 then t
    else Propagate(PropagateAll(t, info, intervals[..|intervals| - 1], higher, lower, aggregate),
                   info, intervals[|intervals| - 1], higher, lower, aggregate)
  }

  /** `PropagateAll` one interval at a time. */
  lemma PropagateAllNext(t: DataTable, info: Info, intervals: seq<int>, q: nat, higher: Archive, lower: Archive, aggregate: Aggregator)
    requires WellFormedArchive(higher) && WellFormedArchive(lower)
    requires higher.secondsPerPoint < lower.secondsPerPoint
    requires forall i :: 0 <= i < |intervals| ==> 0 <= intervals[i] < 0x1_0000_0000
    requires q < |intervals|
    ensures PropagateAll(t, info, intervals[..q + 1], higher, lower, aggregate) ==
            Propagate(PropagateAll(t, info, intervals[..q], higher, lower, aggregate), info, intervals[q], higher, lower, aggregate)
  {
    assert intervals[..q + 1][..q] == intervals[..q];
  }

  /** `[arc for arc in info['archives'] if arc['secondsPerPoint'] > step]` */
  function Coarser(archives: seq<Archive>, step: int): (r: seq<Archive>)
    ensures forall x :: x in r <==> x in archives && x.secondsPerPoint > step
    ensures forall i :: 0 <= i < |r| ==> r[i].secondsPerPoint > step
  {
    if |archives| == 0 then []
    else (if archives[0].secondsPerPoint > step then [archives[0]] else []) + Coarser(archives[1..], step)
  }

  /** Archive `i` is the first, in list order, whose step exceeds `step`. */
  predicate FirstCoarser(archives: seq<Archive>, step: int, i: int) {
    0 <= i < |archives| && archives[i].secondsPerPoint > step &&
    forall j :: 0 <= j < i ==> archives[j].secondsPerPoint <= step
  }

  /** The first coarser archive is the first archive, in list order, whose
      step is strictly larger. */
  lemma {:induction false} CoarserFirst(archives: seq<Archive>, step: int)
    requires |Coarser(archives, step)| > 0
    ensures exists k :: FirstCoarser(archives, step, k) && archives[k] == Coarser(archives, step)[0]
  {
    if archives[0].secondsPerPoint <= step {
      CoarserFirst(archives[1..], step);
      var k :| FirstCoarser(archives[1..], step, k) && archives[1..][k] == Coarser(archives[1..], step)[0];
      assert FirstCoarser(archives, step, k + 1);
    }
  }

  /** `set([fit(p[0]) for p in alignedPoints])`, iterated in first-insertion order. */
  function Intervals(items: seq<(int, DoubleBits)>, lowerStep: int): seq<int>
    requires lowerStep > 0
  {
    Dedup(seq(|items|, i requires 0 <= i < |items| => Align(items[i].0, lowerStep)))
  }

  lemma IntervalsFit(items: seq<(int, DoubleBits)>, lowerStep: int)
    requires lowerStep > 0 && TimestampsFit(items)
    ensures var iv := Intervals(items, lowerStep);
            forall i :: 0 <= i < |iv| ==> 0 <= iv[i] < 0x1_0000_0000 && iv[i] % lowerStep == 0
  {
    var all := seq(|items|, i requires 0 <= i < |items| => Align(items[i].0, lowerStep));
    var iv := Intervals(items, lowerStep);
    forall i | 0 <= i < |iv| ensures 0 <= iv[i] < 0x1_0000_0000 && iv[i] % lowerStep == 0 {
      assert iv[i] in all;
    }
  }

  /** `__archive_update_many(info, archive, points)`: the slot writes, then
      rollups into the first coarser archive only. */
  function ArchiveUpdate(t: DataTable, info: Info, a: Archive, points: seq<Point>, aggregate: Aggregator): DataTable
    requires WellFormed(info) && WellFormedArchive(a)
  {
    var items := AlignedItems(points, a.secondsPerPoint);
    AlignedItemsFacts(points, a.secondsPerPoint);
    var written := WriteSlots(t, a, items);
    var lowers := Coarser(info.archives, a.secondsPerPoint);
    if |lowers| == 0 then written
    else
      var lower := lowers[0];
      assert lower in info.archives;
      IntervalsFit(items, lower.secondsPerPoint);
      PropagateAll(written, info, Intervals(items, lower.secondsPerPoint), a, lower, aggregate)
  }

  lemma {:induction false} PropagateAllFrame(t: DataTable, info: Info, intervals: seq<int>, higher: Archive, lower: Archive, aggregate: Aggregator, k: DataKey)
    requires WellFormedArchive(higher) && WellFormedArchive(lower)
    requires higher.secondsPerPoint < lower.secondsPerPoint
    requires forall i :: 0 <= i < |intervals| ==> 0 <= intervals[i] < 0x1_0000_0000
    requires k.archiveId != lower.archiveId
    ensures var r := PropagateAll(t, info, intervals, higher, lower, aggregate);
            (k in r <==> k in t) && (k in t ==> r[k] == t[k])
  {
    if |intervals| > 0 {
      PropagateAllFrame(t, info, intervals[..|intervals| - 1], higher, lower, aggregate, k);
    }
  }

  /** The cascade stops after the first coarser archive: a batch changes
      only keys of the archive written to and of the first archive, in list
      order, with a strictly larger step. */
  lemma ArchiveUpdateFrame(t: DataTable, info: Info, a: Archive, points: seq<Point>, aggregate: Aggregator, k: DataKey)
    requires WellFormed(info) && WellFormedArchive(a)
    requires k.archiveId != a.archiveId
    requires forall i :: FirstCoarser(info.archives, a.secondsPerPoint, i) ==> k.archiveId != info.archives[i].archiveId
    ensures var r := ArchiveUpdate(t, info, a, points, aggregate);
            (k in r <==> k in t) && (k in t ==> r[k] == t[k])
  {
    var items := AlignedItems(points, a.secondsPerPoint);
    AlignedItemsFacts(points, a.secondsPerPoint);
    WriteSlotsUntouched(t, a, items, k);
    var written := WriteSlots(t, a, items);
    var lowers := Coarser(info.archives, a.secondsPerPoint);
    if |lowers| > 0 {
      CoarserFirst(info.archives, a.secondsPerPoint);
      assert lowers[0] in info.archives;
      IntervalsFit(items, lowers[0].secondsPerPoint);
      PropagateAllFrame(written, info, Intervals(items, lowers[0].secondsPerPoint), a, lowers[0], aggregate, k);
    }
  }

  /** Every batch names an archive of the metric. */
  predicate Committable(info: Info, batches: seq<Batch>) {
    forall i :: 0 <= i < |batches| ==> batches[i].archive < |info.archives|
  }

  /** The batches, applied in order. */
  function ApplyBatches(t: DataTable, info: Info, batches: seq<Batch>, aggregate: Aggregator): DataTable
    requires WellFormed(info) && Committable(info, batches)
    decreases |batches|, 1
  {
    if |batches| == 0 then t else ApplyLast(t, info, batches, aggregate)
  }

  /** A non-empty list of batches: the table after the others, then the
      last batch's `__archive_update_many`. */
  function ApplyLast(t: DataTable, info: Info, batches: seq<Batch>, aggregate: Aggregator): DataTable
    requires WellFormed(info) && Committable(info, batches) && |batches| > 0
    decreases |batches|, 0
  {
    var b := batches[|batches| - 1];
    ArchiveUpdate(ApplyBatches(t, info, batches[..|batches| - 1], aggregate), info, info.archives[b.archive], b.points, aggregate)
  }

  /** Committing one more batch applies its `__archive_update_many` last. */
  lemma ApplyBatchesNext(t: DataTable, info: Info, committed: seq<Batch>, b: Batch, aggregate: Aggregator)
    requires WellFormed(info) && b.archive < |info.archives| && Committable(info, committed)
    ensures ApplyBatches(t, info, committed + [b], aggregate) ==
            ArchiveUpdate(ApplyBatches(t, info, committed, aggregate), info, info.archives[b.archive], b.points, aggregate)
  {
    assert (committed + [b])[..|committed|] == committed;
  }

  /** The data table after `update_many(metric, points)` at time `now`, or
      StopIteration when the metric has no archive. */
  function UpdateMany(t: DataTable, info: Info, now: int, points: seq<Point>, aggregate: Aggregator): Result<DataTable>
    requires WellFormed(info)
  {
    if |info.archives| == 0 then Err(StopIteration)
    else
      PlanFacts(info.archives, now, points);
      Ok(ApplyBatches(t, info, Plan(info.archives, now, points), aggregate))
  }

  /** What a write that can raise midway leaves behind: the table as the
      mutations made before the exception left it, and the exception, if
      any. */
  datatype Outcome = Outcome(table: DataTable, error: Option<Error>)

  /** The loop over `uniqueLowerIntervals` as written: it stops at the
      first `__propagate` call that raises. */
  function PropagateAllAsWritten(t: DataTable, info: Info, intervals: seq<int>, higher: Archive, lower: Archive, aggregate: Aggregator): Outcome
    requires WellFormedArchive(lower)
    decreases |intervals|, 0
  {
    if |intervals| == 0 then Outcome(t, None)
    else ContinueAsWritten(t, PropagateAsWritten(t, info, intervals[0], higher, lower, aggregate), info, intervals[1..], higher, lower, aggregate)
  }

  /** After one `__propagate` call: the exception it raised, or the
      remaining intervals. */
  function ContinueAsWritten(t: DataTable, step: Result<DataTable>, info: Info, rest: seq<int>, higher: Archive, lower: Archive, aggregate: Aggregator): Outcome
    requires WellFormedArchive(lower)
    decreases |rest|, 1
  {
    match step
      case Err(e) => Outcome(t, Some(e))
      case Ok(t') => PropagateAllAsWritten(t', info, rest, higher, lower, aggregate)
  }

  /** `__archive_update_many` as written: the slot writes, then the
      rollups into the first coarser archive, each through the
      `__propagate` that raises. */
  function ArchiveUpdateAsWritten(t: DataTable, info: Info, a: Archive, points: seq<Point>, aggregate: Aggregator): Outcome
    requires WellFormed(info) && WellFormedArchive(a)
  {
    var items := AlignedItems(points, a.secondsPerPoint);
    var written := WriteSlots(t, a, items);
    var lowers := Coarser(info.archives, a.secondsPerPoint);
    if |lowers| == 0 then Outcome(written, None)
    else
      assert lowers[0] in info.archives;
      PropagateAllAsWritten(written, info, Intervals(items, lowers[0].secondsPerPoint), a, lowers[0], aggregate)
  }

  /** As written, the rollup loop leaves the table as it was and raises
      TypeError as soon as there is an interval. */
  lemma {:induction false} PropagateAllAsWrittenRaises(t: DataTable, info: Info, intervals: seq<int>, higher: Archive, lower: Archive, aggregate: Aggregator)
    requires WellFormedArchive(higher) && WellFormedArchive(lower)
    ensures PropagateAllAsWritten(t, info, intervals, higher, lower, aggregate) ==
            Outcome(t, if |intervals| == 0 then None else Some(TypeError))
  {
    if |intervals| > 0 {
      PropagateAsWrittenRaises(t, info, intervals[0], higher, lower, aggregate);
    }
  }

  /** A batch whose archive has a coarser one and which holds a point:
      as written, committing it raises. */
  predicate RaisesAsWritten(info: Info, b: Batch)
    requires b.archive < |info.archives|
  {
    HasCoarser(info.archives, info.archives[b.archive].secondsPerPoint) && |b.points| > 0
  }

  /** Some archive of the list has a step larger than `step`. */
  predicate HasCoarser(archives: seq<Archive>, step: int) {
    exists i :: 0 <= i < |archives| && archives[i].secondsPerPoint > step
  }

  /** `lowerArchives` is non-empty exactly when there is a coarser archive. */
  lemma CoarserNonEmpty(archives: seq<Archive>, step: int)
    ensures |Coarser(archives, step)| > 0 <==> HasCoarser(archives, step)
  {
    var r := Coarser(archives, step);
    if HasCoarser(archives, step) {
      var i :| 0 <= i < |archives| && archives[i].secondsPerPoint > step;
      assert archives[i] in r;
    }
  }

  /** The intervals a batch touches are there exactly when it holds a point. */
  lemma IntervalsNonEmpty(points: seq<Point>, step: int, lowerStep: int)
    requires step > 0 && lowerStep > 0
    ensures |Intervals(AlignedItems(points, step), lowerStep)| > 0 <==> |points| > 0
  {
    var pairs := AlignedPairs(points, step);
    var items := AlignedItems(points, step);
    if |points| > 0 {
      assert Firsts(pairs)[0] in Dedup(Firsts(pairs));
      assert |items| > 0;
      var all := seq(|items|, i requires 0 <= i < |items| => Align(items[i].0, lowerStep));
      assert all[0] in Dedup(all);
    }
  }

  /** As written, `__archive_update_many` writes its slots and then raises
      TypeError exactly when the archive has a coarser one and the batch
      holds a point; otherwise it does what `ArchiveUpdate` does. */
  lemma ArchiveUpdateAsWrittenRaises(t: DataTable, info: Info, a: Archive, points: seq<Point>, aggregate: Aggregator)
    requires WellFormed(info) && WellFormedArchive(a)
    ensures var r := ArchiveUpdateAsWritten(t, info, a, points, aggregate);
            && r.table == WriteSlots(t, a, AlignedItems(points, a.secondsPerPoint))
            && (r.error.Some? <==> |Coarser(info.archives, a.secondsPerPoint)| > 0 && |points| > 0)
            && (r.error.Some? ==> r.error == Some(TypeError))
            && (r.error.None? ==> r.table == ArchiveUpdate(t, info, a, points, aggregate))
  {
    var items := AlignedItems(points, a.secondsPerPoint);
    var lowers := Coarser(info.archives, a.secondsPerPoint);
    if |lowers| > 0 {
      var lower := lowers[0];
      assert lower in info.archives;
      IntervalsNonEmpty(points, a.secondsPerPoint, lower.secondsPerPoint);
      var iv := Intervals(items, lower.secondsPerPoint);
      PropagateAllAsWrittenRaises(WriteSlots(t, a, items), info, iv, a, lower, aggregate);
      if |iv| == 0 {
        AlignedItemsFacts(points, a.secondsPerPoint);
        IntervalsFit(items, lower.secondsPerPoint);
        assert PropagateAll(WriteSlots(t, a, items), info, iv, a, lower, aggregate) == WriteSlots(t, a, items);
      }
    }
  }

  /** `update_many`'s commits as written: each batch in order, stopping at
      the first that raises. */
  function ApplyBatchesAsWritten(t: DataTable, info: Info, batches: seq<Batch>, aggregate: Aggregator): Outcome
    requires WellFormed(info) && Committable(info, batches)
  {
    if |batches| == 0 then Outcome(t, None)
    else
      var prev := ApplyBatchesAsWritten(t, info, batches[..|batches| - 1], aggregate);
      var b := batches[|batches| - 1];
      if prev.error.Some? then prev
      else ArchiveUpdateAsWritten(prev.table, info, info.archives[b.archive], b.points, aggregate)
  }

  /** Batch `k` is the first that raises as written. */
  predicate FirstRaising(info: Info, batches: seq<Batch>, k: int)
    requires Committable(info, batches)
  {
    0 <= k < |batches| && RaisesAsWritten(info, batches[k]) &&
    forall j :: 0 <= j < k ==> !RaisesAsWritten(info, batches[j])
  }

  /** The index of the first batch that raises as written, or -1. */
  function RaisingIndex(info: Info, batches: seq<Batch>): (k: int)
    requires Committable(info, batches)
    ensures -1 <= k < |batches|
    ensures k == -1 <==> forall j :: 0 <= j < |batches| ==> !RaisesAsWritten(info, batches[j])
    ensures k >= 0 ==> FirstRaising(info, batches, k)
  {
    if |batches| == 0 then -1
    else
      var n := |batches| - 1;
      assert Committable(info, batches[..n]);
      var k := RaisingIndex(info, batches[..n]);
      assert forall j :: 0 <= j < n ==> batches[..n][j] == batches[j];
      if k >= 0 then k
      else if RaisesAsWritten(info, batches[n]) then n
      else -1
  }

  /** The table when batch `k` raises as written: the batches before it
      applied, then its own slot writes. */
  function RaisedAt(t: DataTable, info: Info, batches: seq<Batch>, k: int, aggregate: Aggregator): DataTable
    requires WellFormed(info) && Committable(info, batches) && 0 <= k < |batches|
  {
    var b := batches[k];
    var a := info.archives[b.archive];
    assert Committable(info, batches[..k]);
    WriteSlots(ApplyBatches(t, info, batches[..k], aggregate), a, AlignedItems(b.points, a.secondsPerPoint))
  }

  /** As written, `update_many` commits the batches as the corrected code
      does until the first batch whose archive has a coarser one; that
      batch's slots are written and then TypeError ends the call, so no
      later batch is written. */
  lemma {:induction false} ApplyBatchesAsWrittenRaises(t: DataTable, info: Info, batches: seq<Batch>, aggregate: Aggregator)
    requires WellFormed(info) && Committable(info, batches)
    ensures var k := RaisingIndex(info, batches);
            ApplyBatchesAsWritten(t, info, batches, aggregate) ==
              if k < 0 then Outcome(ApplyBatches(t, info, batches, aggregate), None)
              else Outcome(RaisedAt(t, info, batches, k, aggregate), Some(TypeError))
  {
    if |batches| > 0 {
      var n := |batches| - 1;
      var front := batches[..n];
      assert Committable(info, front);
      ApplyBatchesAsWrittenRaises(t, info, front, aggregate);
      var k := RaisingIndex(info, front);
      if k >= 0 {
        RaisedFrontStep(t, info, batches, k, aggregate);
      } else {
        QuietFrontStep(t, info, batches, aggregate);
      }
    }
  }

  /** The induction step of `ApplyBatchesAsWrittenRaises` when no earlier
      batch raised: the last batch decides. */
  lemma QuietFrontStep(t: DataTable, info: Info, batches: seq<Batch>, aggregate: Aggregator)
    requires WellFormed(info) && Committable(info, batches) && |batches| > 0
    requires ApplyBatchesAsWritten(t, info, batches[..|batches| - 1], aggregate) ==
             Outcome(ApplyBatches(t, info, batches[..|batches| - 1], aggregate), None)
    ensures var r := ApplyBatchesAsWritten(t, info, batches, aggregate);
            var b := batches[|batches| - 1];
            && (!RaisesAsWritten(info, b) ==> r == Outcome(ApplyBatches(t, info, batches, aggregate), None))
            && (RaisesAsWritten(info, b) ==> r == Outcome(RaisedAt(t, info, batches, |batches| - 1, aggregate), Some(TypeError)))
  {
    var n := |batches| - 1;
    var b := batches[n];
    var a := info.archives[b.archive];
    var prev := ApplyBatches(t, info, batches[..n], aggregate);
    ArchiveUpdateAsWrittenRaises(prev, info, a, b.points, aggregate);
    CoarserNonEmpty(info.archives, a.secondsPerPoint);
  }

  /** The induction step of `ApplyBatchesAsWrittenRaises` when an earlier
      batch raised: the outcome carries over. */
  lemma RaisedFrontStep(t: DataTable, info: Info, batches: seq<Batch>, k: int, aggregate: Aggregator)
    requires WellFormed(info) && Committable(info, batches) && 0 <= k < |batches| - 1
    requires ApplyBatchesAsWritten(t, info, batches[..|batches| - 1], aggregate) ==
             Outcome(RaisedAt(t, info, batches[..|batches| - 1], k, aggregate), Some(TypeError))
    ensures ApplyBatchesAsWritten(t, info, batches, aggregate) == Outcome(RaisedAt(t, info, batches, k, aggregate), Some(TypeError))
  {
    var front := batches[..|batches| - 1];
    assert front[..k] == batches[..k];
  }

  /** `update_many(metric, points)` at time `now` as written. */
  function UpdateManyAsWritten(t: DataTable, info: Info, now: int, points: seq<Point>, aggregate: Aggregator): Result<Outcome>
    requires WellFormed(info)
  {
    if |info.archives| == 0 then Err(StopIteration)
    else
      PlanFacts(info.archives, now, points);
      Ok(ApplyBatchesAsWritten(t, info, Plan(info.archives, now, points), aggregate))
  }

  /** As written, `update_many` matches `UpdateMany` when no committed batch
      reaches an archive with a coarser one, and otherwise raises TypeError
      after writing the slots of the first batch that does. */
  lemma UpdateManyAsWrittenRaises(t: DataTable, info: Info, now: int, points: seq<Point>, aggregate: Aggregator)
    requires WellFormed(info) && |info.archives| > 0
    ensures (PlanFacts(info.archives, now, points);
            var plan := Plan(info.archives, now, points);
            var k := RaisingIndex(info, plan);
            UpdateManyAsWritten(t, info, now, points, aggregate) ==
              if k < 0 then Ok(Outcome(UpdateMany(t, info, now, points, aggregate).value, None))
              else Ok(Outcome(RaisedAt(t, info, plan, k, aggregate), Some(TypeError))))
  {
    PlanFacts(info.archives, now, points);
    ApplyBatchesAsWrittenRaises(t, info, Plan(info.archives, now, points), aggregate);
  }

  /** Because every pending list is reversed before it is written, the value
      that reaches a slot is that of the EARLIEST point, in `update_many`'s
      input order, among those of a batch aligning to the same timestamp. */
  lemma EarliestPointWins(run: seq<Point>, step: int, i: int)
    requires step > 0 && 0 <= i < |AlignedItems(Reverse(run), step)|
    ensures var item := AlignedItems(Reverse(run), step)[i];
            exists j :: 0 <= j < |run| && Align(run[j].timestamp, step) == item.0 &&
              run[j].value == item.1 &&
              forall j' :: 0 <= j' < j ==> Align(run[j'].timestamp, step) != item.0
  {
    var rev := Reverse(run);
    var item := AlignedItems(rev, step)[i];
    AlignedItemsLast(rev, step, i);
    var j :| LastAligning(rev, step, j, item.0) && rev[j].value == item.1;
    var m := |run| - 1 - j;
    assert run[m] == rev[j];
    forall j' | 0 <= j' < m ensures Align(run[j'].timestamp, step) != item.0 {
      assert run[j'] == rev[|run| - 1 - j'];
    }
  }
}
