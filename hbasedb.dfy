/** The storage object (hbasedb.py, class `HbaseTSDB`). Its state is the
    two HBase tables it talks to over Thrift, held here as maps the methods
    update: the namespace table (rows by key, with the `CTR` counter cell
    kept apart) and the data table (decoded slot records by decoded key).
    The clock is a parameter, and `util.aggregate` is a function supplied
    when the object is built. */
module HbaseDB {
  import opened Base
  import opened Codec
  import opened Ring
  import opened Text
  import opened Glob
  import opened Schema
  import opened Partition
  import opened ReadPath
  import opened WritePath
  import opened Namespace
  import opened Tree

  /** `create` writes a well-formed info record and leaves the others alone,
      so every info record in the table stays well formed. */
  lemma CreatedInfosWellFormed(meta: MetaTable, metric: string, info: Info)
    requires forall key :: key in meta && meta[key].info.Some? ==> WellFormed(meta[key].info.value)
    requires WellFormed(info)
    ensures var r := Created(meta, metric, info);
            forall key :: key in r && r[key].info.Some? ==> WellFormed(r[key].info.value)
  {
    var r := Created(meta, metric, info);
    CreatedFacts(meta, metric, info);
    forall key | key in r && r[key].info.Some?
      ensures WellFormed(r[key].info.value)
    {
      assert GetRow(r, key) == r[key];
      if key != MetricKey(metric) {
        assert GetRow(meta, key).info == r[key].info;
        assert key in meta;
      }
    }
  }

  class HbaseTSDB {
    /** The namespace table, `<prefix>META`, without its `CTR` row. */
    var meta: MetaTable
    /** The `cf:CTR` cell of the `CTR` row: the last archive id handed out. */
    var counter: int
    /** The data table, `<prefix>DATA`. */
    var data: DataTable
    /** `util.aggregate` */
    const aggregate: Aggregator

    /** Every info record stored is one the arithmetic accepts. */
    ghost predicate Valid()
      reads this`meta, this`counter
    {
      && 0 <= counter
      && forall key :: key in meta && meta[key].info.Some? ==> WellFormed(meta[key].info.value)
    }

    /** Connecting to an installation whose tables do not exist yet: both
        are created, and the counter is incremented once. */
    constructor (aggregate: Aggregator)
      ensures Valid()
      ensures meta == map[] && data == map[] && counter == 1 && this.aggregate == aggregate
      ensures LinksResolve(meta) && CanonicalLinks(meta)
    {
      meta := map[];
      data := map[];
      counter := 1;
      this.aggregate := aggregate;
      EmptyTree();
    }

    /** `info(metric)`: the record in the metric's `cf:INFO` cell. */
    method MetricInfo(metric: string) returns (r: Result<Info>)
      ensures var key := MetricKey(metric);
              r.Ok? <==> key in meta && meta[key].info.Some?
      ensures r.Ok? ==> r.value == meta[MetricKey(metric)].info.value
      ensures r.Err? ==> r.error == NoMetric(metric)
    {
      var key := "m_" + metric;
      if key in meta && meta[key].info.Some? {
        r := Ok(meta[key].info.value);
      } else {
        r := Err(NoMetric(metric));
      }
    }

    /** `setAggregationMethod(metric, aggregationMethod, xFilesFactor)`:
        both fields are overwritten, the threshold even when it is None,
        and the archives are kept. */
    method SetAggregationMethod(metric: string, aggregationMethod: string, xFilesFactor: Option<real>) returns (r: Result<()>)
      requires Valid()
      modifies this`meta
      ensures Valid()
      ensures var key := MetricKey(metric);
              if key in old(meta) && old(meta)[key].info.Some? then
                var info := old(meta)[key].info.value;
                && r == Ok(())
                && meta == old(meta)[key := old(meta)[key].(info := Some(info.(aggregationMethod := aggregationMethod, xFilesFactor := xFilesFactor)))]
              else
                r == Err(NoMetric(metric)) && meta == old(meta)
      ensures LinksResolve(old(meta)) ==> LinksResolve(meta)
      ensures CanonicalLinks(old(meta)) ==> CanonicalLinks(meta)
    {
      var currInfo := MetricInfo(metric);
      if currInfo.Err? {
        return Err(currInfo.error);
      }
      var info := currInfo.value.(aggregationMethod := aggregationMethod, xFilesFactor := xFilesFactor);
      var key := "m_" + metric;
      SetInfoKeepsTree(meta, key, info);
      meta := meta[key := meta[key].(info := Some(info))];
      r := Ok(());
    }

    /** `create(metric, archiveList, xFilesFactor, aggregationMethod, ...)`:
        one counter increment per archive, the info cell written, then a
        link from each path segment's parent to it, added only where the
        parent has no link of that name yet. */
    method Create(metric: string, archiveList: seq<(int, int)>, xFilesFactor: Option<real>, aggregationMethod: string)
      returns (r: Result<()>)
      requires Valid() && ValidArchiveList(counter, archiveList)
      modifies this`meta, this`counter
      ensures Valid()
      ensures |archiveList| == 0 ==> r == Err(EmptyArchiveList) && meta == old(meta) && counter == old(counter)
      ensures |archiveList| > 0 ==>
                && r == Ok(())
                && counter == old(counter) + |archiveList|
                && meta == Created(old(meta), metric, CreatedInfo(old(counter), archiveList, xFilesFactor, aggregationMethod))
      ensures Segments(metric)[0] != "" && LinksResolve(old(meta)) ==> LinksResolve(meta)
      ensures PlainMetric(metric) && CanonicalLinks(old(meta)) ==> CanonicalLinks(meta)
    {
      var archiveMapList := AllocateArchives(archiveList);
      if |archiveList| == 0 {
        // max() of an empty list raises before anything is written
        return Err(EmptyArchiveList);
      }
      var info := Info(aggregationMethod, MaxRetention(archiveList), xFilesFactor, archiveMapList);
      CreatedInfoWellFormed(old(counter), archiveList, xFilesFactor, aggregationMethod);
      meta := WriteInfo(meta, "m_" + metric, info);
      LinkPath(metric);
      CreatedFacts(old(meta), metric, info);
      if Segments(metric)[0] != "" && LinksResolve(old(meta)) {
        CreatedLinksResolve(old(meta), metric, info);
      }
      if PlainMetric(metric) && CanonicalLinks(old(meta)) {
        CreatedCanonical(old(meta), metric, info);
      }
      CreatedInfosWellFormed(old(meta), metric, info);
      r := Ok(());
    }

    /** `create`'s list of archive records: one `atomicIncrement` of the
        counter per archive, its new value the archive's id. */
    method AllocateArchives(archiveList: seq<(int, int)>) returns (archiveMapList: seq<Archive>)
      modifies this`counter
      ensures counter == old(counter) + |archiveList|
      ensures archiveMapList == CreatedArchives(old(counter), archiveList)
    {
      archiveMapList := [];
      var i := 0;
      while i < |archiveList|
        invariant 0 <= i <= |archiveList|
        invariant counter == old(counter) + i
        invariant archiveMapList == CreatedArchives(old(counter), archiveList[..i])
      {
        counter := counter + 1;
        var secondsPerPoint, points := archiveList[i].0, archiveList[i].1;
        archiveMapList := archiveMapList + [Archive(counter, secondsPerPoint, points, secondsPerPoint * points)];
        assert archiveList[..i + 1][..i] == archiveList[..i];
        i := i + 1;
      }
      assert archiveList[..i] == archiveList;
    }

    /** `create`'s link loop: walking the path's segments, the parent of
        each gets a `cf:c_<segment>` column naming the child's row, unless
        it already has one. */
    method LinkPath(metric: string)
      modifies this`meta
      ensures meta == EnsureLinks(old(meta), Links(Segments(metric)))
    {
      var metricParts := Split(metric, '.');
      ghost var m0 := meta;
      var priorParts := "";
      var j := 0;
      while j < |metricParts|
        invariant 0 <= j <= |metricParts|
        invariant priorParts == Prior(metricParts, j)
        invariant meta == LinkedUpTo(m0, metricParts, j)
      {
        priorParts := LinkSegment(metricParts, j, priorParts);
        j := j + 1;
      }
      LinkedUpToLinks(m0, metricParts, j);
      assert Links(metricParts)[..j] == Links(metricParts);
    }

    /** One pass of the link loop, for segment `j`: the parent row gets the
        `cf:c_<segment>` column naming the child row unless it has one
        already, and the segment is appended to `priorParts`. */
    method LinkSegment(metricParts: seq<string>, j: nat, priorParts: string) returns (next: string)
      requires j < |metricParts| && priorParts == Prior(metricParts, j)
      modifies this`meta
      ensures next == Prior(metricParts, j + 1)
      ensures meta == AddLink(old(meta), LinkAt(metricParts, j))
    {
      var part := metricParts[j];
      var metricParentKey, metricKey;
      if priorParts == "" {
        metricParentKey := RootKey;
        metricKey := "m_" + part;
        next := part;
      } else {
        metricParentKey := "m_" + priorParts;
        metricKey := "m_" + priorParts + "." + part;
        next := priorParts + "." + part;
      }
      var parentLink := if metricParentKey in meta then meta[metricParentKey] else Row(None, map[]);
      if LinkPrefix + part !in parentLink.cells {
        meta := meta[metricParentKey := parentLink.(cells := parentLink.cells[LinkPrefix + part := metricKey])];
      }
    }

    /** `exists(metric)`: the metric's row has at least one cell. */
    method Exists(metric: string) returns (b: bool)
      ensures b <==> MetricKey(metric) in meta && (meta[MetricKey(metric)].info.Some? || meta[MetricKey(metric)].cells != map[])
    {
      var key := "m_" + metric;
      b := key in meta && (meta[key].info.Some? || meta[key].cells != map[]);
    }

    /** `update_many(metric, points)` at time `now`: the points are walked
        once, committed in batches to the first archive (from the current
        one on) whose retention covers their age, and dropped once no
        archive is left. */
    method UpdateMany(metric: string, points: seq<Point>, now: int) returns (r: Result<()>)
      requires Valid()
      modifies this`data
      ensures var key := MetricKey(metric);
              if key in old(meta) && old(meta)[key].info.Some? then
                match WritePath.UpdateMany(old(data), old(meta)[key].info.value, now, points, aggregate)
                  case Ok(t) => r == Ok(()) && data == t
                  case Err(e) => r == Err(e) && data == old(data)
              else
                r == Err(NoMetric(metric)) && data == old(data)
    {
      var found := MetricInfo(metric);
      if found.Err? {
        return Err(found.error);
      }
      var info := found.value;
      var archives := info.archives;
      if |archives| == 0 {
        // archives.next() raises StopIteration
        return Err(StopIteration);
      }
      var cur, currentPoints, c := WalkPoints(info, points, now);
      ghost var plan := c.committed + (if cur < |archives| then Flush(c) else []);
      if cur < |archives| {
        // the points still pending after the loop
        CommitPending(info, cur, currentPoints, old(data), c);
      } else {
        assert plan == c.committed;
      }
      assert plan == Plan(archives, now, points);
      assert data == ApplyBatches(old(data), info, plan, aggregate);
      r := Ok(());
    }

    /** `update_many`'s `for point in points` loop: each point first skips
        the archives too short for its age, then joins the pending list;
        once no archive is left the remaining points are dropped. */
    method WalkPoints(info: Info, points: seq<Point>, now: int)
      returns (cur: nat, currentPoints: seq<Point>, ghost c: Cursor)
      requires WellFormed(info) && |info.archives| > 0
      modifies this`data
      ensures c == Walk(info.archives, now, points, Cursor(0, [], []))
      ensures cur == c.archive && currentPoints == c.current
      ensures Committable(info, c.committed)
      ensures data == ApplyBatches(old(data), info, c.committed, aggregate)
    {
      var archives := info.archives;
      cur, currentPoints := 0, [];
      c := Cursor(0, [], []);
      ghost var final := Walk(archives, now, points, c);
      var k := 0;
      while k < |points|
        invariant 0 <= k <= |points|
        invariant cur < |archives| && c.archive == cur && c.current == currentPoints
        invariant Walk(archives, now, points[k..], c) == final
        invariant Committable(info, c.committed)
        invariant data == ApplyBatches(old(data), info, c.committed, aggregate)
      {
        var point := points[k];
        var age := now - point.timestamp;
        cur, currentPoints, c := SkipArchives(info, age, cur, currentPoints, old(data), c);
        assert points[k..][0] == point && points[k..][1..] == points[k + 1..];
        if cur == |archives| {
          // drop the remaining points
          return;
        }
        currentPoints := currentPoints + [point];
        c := c.(current := currentPoints);
        k := k + 1;
      }
      assert points[k..] == [];
    }

    /** `update_many`'s inner `while`: while the current archive is too short
        for a point of age `age`, the pending points are committed to it and
        the next archive is taken; running out of archives stands for
        `currentArchive = None`. */
    method SkipArchives(info: Info, age: int, cur0: nat, pending: seq<Point>, ghost d0: DataTable, ghost c0: Cursor)
      returns (cur: nat, currentPoints: seq<Point>, ghost c: Cursor)
      requires WellFormed(info) && cur0 < |info.archives|
      requires c0.archive == cur0 && c0.current == pending && Committable(info, c0.committed)
      requires data == ApplyBatches(d0, info, c0.committed, aggregate)
      modifies this`data
      ensures c == Advance(info.archives, age, c0) && cur == c.archive && currentPoints == c.current
      ensures Committable(info, c.committed)
      ensures data == ApplyBatches(d0, info, c.committed, aggregate)
    {
      var archives := info.archives;
      cur, currentPoints, c := cur0, pending, c0;
      while cur < |archives| && archives[cur].retention < age
        invariant cur <= |archives| && c.archive == cur && c.current == currentPoints
        invariant cur < |archives| ==> Advance(archives, age, c) == Advance(archives, age, c0)
        invariant cur == |archives| ==> c == Advance(archives, age, c0)
        invariant Committable(info, c.committed)
        invariant data == ApplyBatches(d0, info, c.committed, aggregate)
        decreases |archives| - cur
      {
        CommitPending(info, cur, currentPoints, d0, c);
        AdvanceSkip(archives, age, c);
        currentPoints := [];
        // archives.next(); running out leaves currentArchive = None
        cur := cur + 1;
        c := Cursor(cur, [], c.committed + Flush(c));
      }
    }

    /** `if currentPoints: currentPoints.reverse(); self.__archive_update_many(...)`:
        the pending points, if any, committed to the current archive. */
    method CommitPending(info: Info, cur: nat, currentPoints: seq<Point>, ghost d0: DataTable, ghost c: Cursor)
      requires WellFormed(info) && cur < |info.archives|
      requires c.archive == cur && c.current == currentPoints && Committable(info, c.committed)
      requires data == ApplyBatches(d0, info, c.committed, aggregate)
      modifies this`data
      ensures Committable(info, c.committed + Flush(c))
      ensures data == ApplyBatches(d0, info, c.committed + Flush(c), aggregate)
    {
      if |currentPoints| > 0 {
        var reversed := Reverse(currentPoints);
        assert c.committed + Flush(c) == c.committed + [Batch(cur, reversed)];
        ApplyBatchesNext(d0, info, c.committed, Batch(cur, reversed), aggregate);
        ArchiveUpdateMany(info, info.archives[cur], reversed);
      } else {
        assert c.committed + Flush(c) == c.committed;
      }
    }

    /** `__archive_update_many(info, archive, points)` */
    method ArchiveUpdateMany(info: Info, archive: Archive, points: seq<Point>)
      requires WellFormed(info) && WellFormedArchive(archive)
      modifies this`data
      ensures data == WritePath.ArchiveUpdate(old(data), info, archive, points, aggregate)
    {
      var step := archive.secondsPerPoint;
      var alignedPoints := AlignedItems(points, step);
      AlignedItemsFacts(points, step);
      WriteAligned(archive, alignedPoints);
      var lowerArchives := Coarser(info.archives, step);
      // `__propagate` returns None, so `propagateFurther` stays False and
      // the loop over `lowerArchives` breaks after its first pass.
      if |lowerArchives| > 0 {
        var lower := lowerArchives[0];
        assert lower in info.archives;
        var uniqueLowerIntervals := Intervals(alignedPoints, lower.secondsPerPoint);
        IntervalsFit(alignedPoints, lower.secondsPerPoint);
        PropagateIntervals(info, uniqueLowerIntervals, archive, lower);
      }
    }

    /** `__archive_update_many`'s write loop: each aligned point goes to the
        row of its slot, a later one overwriting an earlier one. */
    method WriteAligned(archive: Archive, alignedPoints: seq<(int, DoubleBits)>)
      requires WellFormedArchive(archive) && TimestampsFit(alignedPoints)
      modifies this`data
      ensures data == WriteSlots(old(data), archive, alignedPoints)
    {
      var step := archive.secondsPerPoint;
      var i := 0;
      while i < |alignedPoints|
        invariant 0 <= i <= |alignedPoints|
        invariant data == WriteSlots(old(data), archive, alignedPoints[..i])
      {
        var timestamp, value := alignedPoints[i].0, alignedPoints[i].1;
        var slot := (timestamp / step) % archive.points;
        data := data[DataKey(archive.archiveId, slot) := SlotRecord(timestamp, value)];
        assert alignedPoints[..i + 1][..i] == alignedPoints[..i];
        i := i + 1;
      }
      assert alignedPoints[..i] == alignedPoints;
    }

    /** `__archive_update_many`'s loop over the coarser archive's intervals,
        one `__propagate` each. */
    method PropagateIntervals(info: Info, uniqueLowerIntervals: seq<int>, archive: Archive, lower: Archive)
      requires WellFormedArchive(archive) && WellFormedArchive(lower)
      requires archive.secondsPerPoint < lower.secondsPerPoint
      requires forall i :: 0 <= i < |uniqueLowerIntervals| ==> 0 <= uniqueLowerIntervals[i] < 0x1_0000_0000
      modifies this`data
      ensures data == PropagateAll(old(data), info, uniqueLowerIntervals, archive, lower, aggregate)
    {
      var q := 0;
      while q < |uniqueLowerIntervals|
        invariant 0 <= q <= |uniqueLowerIntervals|
        invariant data == PropagateAll(old(data), info, uniqueLowerIntervals[..q], archive, lower, aggregate)
      {
        PropagateAllNext(old(data), info, uniqueLowerIntervals, q, archive, lower, aggregate);
        Propagate(info, uniqueLowerIntervals[q], archive, lower);
        q := q + 1;
      }
      assert uniqueLowerIntervals[..q] == uniqueLowerIntervals;
    }

    /** `__propagate(info, timestamp, higher, lower)` */
    method Propagate(info: Info, timestamp: int, higher: Archive, lower: Archive)
      requires WellFormedArchive(higher) && WellFormedArchive(lower)
      requires higher.secondsPerPoint < lower.secondsPerPoint
      requires 0 <= timestamp < 0x1_0000_0000
      modifies this`data
      ensures data == WritePath.Propagate(old(data), info, timestamp, higher, lower, aggregate)
    {
      var intervalStart := timestamp - timestamp % lower.secondsPerPoint;
      var intervalEnd := intervalStart + lower.secondsPerPoint;
      var fetched := ArchiveFetch(higher, intervalStart, intervalEnd);
      IntervalDataIsFetch(data, higher, lower, intervalStart);
      assert intervalStart == Align(timestamp, lower.secondsPerPoint);
      var higherResData := fetched.value;
      var knownDatapts := Known(higherResData);
      if Exceeds(|knownDatapts|, |higherResData|, info.xFilesFactor) {
        var aggregateValue := aggregate(info.aggregationMethod, knownDatapts);
        var lowerSlot := timestamp / lower.secondsPerPoint % lower.points;
        data := data[DataKey(lower.archiveId, lowerSlot) := SlotRecord(timestamp, aggregateValue)];
      }
    }

    /** `__archive_fetch(archive, startTime, endTime)`: for each slot range,
        a fresh output list filled from that range's scan. */
    method ArchiveFetch(archive: Archive, startTime: int, endTime: int) returns (r: Result<Series>)
      requires WellFormedArchive(archive)
      ensures r == ReadPath.ArchiveFetch(data, archive, startTime, endTime)
    {
      var step := archive.secondsPerPoint;
      var start := startTime - startTime % step;
      var end := endTime - endTime % step;
      var startSlot := (start / step) % archive.points;
      var endSlot := (end / step) % archive.points;
      var ranges := if startSlot > endSlot then [(0, endSlot + 1), (startSlot, archive.points)]
                    else [(startSlot, endSlot + 1)];
      assert start == WindowStart(archive, startTime) && end == WindowEnd(archive, endTime);
      assert ranges == FetchRanges(archive, startTime, endTime);
      r := Ok([]);
      var k := 0;
      while k < |ranges|
        invariant 0 <= k <= |ranges| <= 2
        invariant k >= 1 ==> r.Ok?
        invariant k == 1 ==> Fill(data, archive, ranges[0].0, ranges[0].1, start, end) == r
        invariant k == 2 ==> Fill(data, archive, ranges[0].0, ranges[0].1, start, end).Ok? &&
                             Fill(data, archive, ranges[1].0, ranges[1].1, start, end) == r
      {
        r := ScanRange(archive, ranges[k].0, ranges[k].1, start, end);
        if r.Err? {
          return;
        }
        k := k + 1;
      }
    }

    /** One pass of `__archive_fetch`'s loop over the slot ranges: scan the
        range, then store each row inside the window into a fresh list of
        `numSlots` gaps, at the row's `returnslot`. */
    method ScanRange(archive: Archive, lo: nat, hi: nat, start: int, end: int) returns (r: Result<Series>)
      requires WellFormedArchive(archive) && hi <= archive.points
      ensures r == Fill(data, archive, lo, hi, start, end)
    {
      var rows := ReadPath.Batch(ScanSlots(data, archive.archiveId, lo, hi));
      r := PlaceRows(rows, start, end, archive.secondsPerPoint);
    }

    /** A fresh `ret = [None] * numSlots` filled from the scanned rows: each
        row inside the window goes to `returnslot`, read as a Python index. */
    static method PlaceRows(rows: seq<SlotRecord>, start: int, end: int, step: int) returns (r: Result<Series>)
      requires step > 0
      ensures r == Place(EmptySeries(start, end, step), rows, start, end, step)
    {
      var numSlots := (end - start) / step;
      var ret := new Option<DoubleBits>[if numSlots < 0 then 0 else numSlots](_ => None);
      ghost var empty := ret[..];
      assert empty == EmptySeries(start, end, step);
      var j := 0;
      while j < |rows|
        invariant 0 <= j <= |rows|
        invariant Place(empty, rows[..j], start, end, step) == Ok(ret[..])
      {
        var row := rows[j];
        ghost var acc := ret[..];
        PlaceNext(empty, rows, start, end, step, j, acc);
        if row.timestamp >= start && row.timestamp <= end {
          var returnslot := (row.timestamp - start) / step - 1;
          var index := PyIndex(returnslot, ret.Length);
          if index.None? {
            return Err(IndexError);
          }
          ret[index.value] := Some(row.value);
          assert ret[..] == acc[index.value := Some(row.value)];
        }
        j := j + 1;
      }
      assert rows[..j] == rows;
      r := Ok(ret[..]);
    }

    /** `fetch(info, fromTime, untilTime)` at time `now`. */
    method Fetch(info: Info, fromTime: int, untilTime: Option<int>, now: int) returns (r: Result<Option<Series>>)
      requires WellFormed(info)
      ensures r == ReadPath.Fetch(data, info, now, fromTime, untilTime)
    {
      var until := if untilTime.None? then now else untilTime.value;
      if until > now {
        until := now;
      }
      if fromTime > until {
        return Err(InvalidInterval(fromTime, until));
      }
      if fromTime > now {
        return Ok(None);
      }
      var from := fromTime;
      var oldestTime := now - info.maxRetention;
      if from < oldestTime {
        from := oldestTime;
      }
      var diff := now - from;
      if |info.archives| == 0 {
        // the loop variable `archive` is never bound
        return Err(UnboundLocal("archive"));
      }
      var archive := SelectArchive(info.archives, diff);
      assert FetchWindow(info, now, fromTime, untilTime) == Ok(Some(Window(archive, from, until)));
      var values := ArchiveFetch(archive, from, until);
      if values.Err? {
        return Err(values.error);
      }
      r := Ok(Some(values.value));
    }

    /** `fetch`'s `for archive in info['archives']: if archive['retention']
        >= diff: break`: the archive the loop variable is left holding. */
    static method SelectArchive(archives: seq<Archive>, diff: int) returns (archive: Archive)
      requires |archives| > 0
      ensures archive == archives[ChooseArchive(archives, diff)]
    {
      archive := archives[0];
      var i := 0;
      while i < |archives|
        invariant 0 <= i <= |archives|
        invariant forall j :: 0 <= j < i ==> archives[j].retention < diff
        invariant i > 0 ==> archive == archives[i - 1]
      {
        archive := archives[i];
        if archive.retention >= diff {
          break;
        }
        i := i + 1;
      }
      ChooseArchiveIs(archives, diff, if i == |archives| then i - 1 else i);
    }

    /** `find_nodes(query)` */
    method FindNodes(pattern: string) returns (r: Found)
      ensures r == Namespace.FindNodes(meta, pattern)
    {
      var cleanPattern := RemoveChar(pattern, '\\');
      var patternParts := Split(cleanPattern, '.');
      r := FindPaths(RootKey, patternParts);
    }

    /** `_find_paths(currNodeRowKey, patterns)`, run to the end: the nodes
        it yields and the exception that stops it, if any. */
    method FindPaths(currNodeRowKey: string, patterns: seq<string>) returns (r: Found)
      requires |patterns| > 0
      ensures r == Namespace.FindPaths(meta, currNodeRowKey, patterns)
      decreases |patterns|, 0, 0
    {
      var pattern := patterns[0];
      var rest := patterns[1..];
      if !(currNodeRowKey in meta && (meta[currNodeRowKey].info.Some? || meta[currNodeRowKey].cells != map[])) {
        return Nothing;
      }
      var subnodes := ChildLinks(meta[currNodeRowKey]);
      var keys := Dedup(Firsts(subnodes));
      var matchingSubnodes := CollectMatches(keys, pattern);
      assert forall q :: 0 <= q < |matchingSubnodes| ==> matchingSubnodes[q] in Firsts(subnodes) by {
        assert forall x :: x in matchingSubnodes ==> x in keys;
      }
      if |rest| > 0 {
        r := DescendAll(subnodes, matchingSubnodes, rest);
      } else {
        r := LeavesAll(subnodes, matchingSubnodes);
      }
    }

    /** `_find_paths`' column loop: for each column of the row a `cf:c_<name>`
        column adds `subnodes[name]`. Python walks the columns in dict order;
        the model's choice is ascending column name. */
    static method ChildLinks(nodeRow: Row) returns (subnodes: seq<(string, string)>)
      ensures subnodes == Subnodes(nodeRow)
    {
      var columns := SortSet(nodeRow.cells.Keys);
      subnodes := [];
      var i := 0;
      while i < |columns|
        invariant 0 <= i <= |columns|
        invariant subnodes == LinkPairs(columns[..i], nodeRow.cells)
      {
        var k := columns[i];
        LinkPairsNext(columns, nodeRow.cells, i);
        if StartsWith(k, LinkPrefix) {
          subnodes := subnodes + [(SecondField(k).value, nodeRow.cells[k])];
        }
        i := i + 1;
      }
      assert columns[..i] == columns;
    }

    /** `_find_paths`' loop over the matching children while patterns
        remain: descend into each branch child, stopping at the first
        exception. */
    method DescendAll(subnodes: seq<(string, string)>, matchingSubnodes: seq<string>, rest: seq<string>) returns (r: Found)
      requires |rest| > 0
      requires forall q :: 0 <= q < |matchingSubnodes| ==> matchingSubnodes[q] in Firsts(subnodes)
      ensures r == Descend(meta, subnodes, matchingSubnodes, rest)
      decreases |rest|, 1, 0
    {
      r := Nothing;
      var q := 0;
      while q < |matchingSubnodes|
        invariant 0 <= q <= |matchingSubnodes|
        invariant r.error.None?
        invariant Then(r, Descend(meta, subnodes, matchingSubnodes[q..], rest)) ==
                  Descend(meta, subnodes, matchingSubnodes, rest)
      {
        var rowKey := Lookup(subnodes, matchingSubnodes[q]);
        DescendStep(meta, subnodes, matchingSubnodes, rest, q);
        var here := VisitChild(rowKey, rest);
        ThenAssociative(r, here, Descend(meta, subnodes, matchingSubnodes[q + 1..], rest));
        r := Then(r, here);
        if r.error.Some? {
          return;
        }
        q := q + 1;
      }
    }

    /** One pass of that loop: a missing child row raises IndexError, a
        leaf is passed over, a branch is searched with the remaining
        patterns. */
    method VisitChild(rowKey: string, rest: seq<string>) returns (here: Found)
      requires |rest| > 0
      ensures here == Visit(meta, rowKey, rest)
      decreases |rest|, 0, 1
    {
      here := Nothing;
      if !(rowKey in meta && (meta[rowKey].info.Some? || meta[rowKey].cells != map[])) {
        // subNodeContents[0] raises IndexError
        here := Found([], Some(IndexError));
      } else if meta[rowKey].info.None? {
        here := FindPaths(rowKey, rest);
      }
    }

    /** `_find_paths`' loop over the matching children at the last pattern:
        each existing child row yields a leaf or a branch node. */
    method LeavesAll(subnodes: seq<(string, string)>, matchingSubnodes: seq<string>) returns (r: Found)
      requires forall q :: 0 <= q < |matchingSubnodes| ==> matchingSubnodes[q] in Firsts(subnodes)
      ensures r == Leaves(meta, subnodes, matchingSubnodes)
    {
      r := Nothing;
      var q := 0;
      while q < |matchingSubnodes|
        invariant 0 <= q <= |matchingSubnodes|
        invariant r.error.None?
        invariant Then(r, Leaves(meta, subnodes, matchingSubnodes[q..])) ==
                  Leaves(meta, subnodes, matchingSubnodes)
      {
        var rowKey := Lookup(subnodes, matchingSubnodes[q]);
        assert matchingSubnodes[q..][1..] == matchingSubnodes[q + 1..];
        var here := Nothing;
        if rowKey in meta && (meta[rowKey].info.Some? || meta[rowKey].cells != map[]) {
          here := NodeOf(meta, rowKey);
        }
        ThenAssociative(r, here, Leaves(meta, subnodes, matchingSubnodes[q + 1..]));
        r := Then(r, here);
        if r.error.Some? {
          return;
        }
        q := q + 1;
      }
    }
  }
}
