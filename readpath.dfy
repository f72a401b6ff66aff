/** The read path (hbasedb.py, `__archive_fetch` and `fetch`). Reading an
    archive aligns the window to the archive's step, scans one slot range
    (or two when the window wraps round the ring), and places every scanned
    record whose stored timestamp lies inside the window. As written, the
    second scan's output list replaces the first one's, and a record is
    placed one position early (a record at the window's start lands, by
    Python's negative indexing, in the last position). */
module ReadPath {
  import opened Base
  import opened Codec
  import opened Ring
  import opened Schema

  /** `scannerGetList(scannerId, 100000)`: the most rows one scan returns. */
  const ScanBatch := 100000

  type Series = seq<Option<DoubleBits>>

  /** The records of archive `id` in the slots [lo, hi), in ascending slot
      order: what `scannerOpenWithStop(pack(id, lo), pack(id, hi))` returns,
      since packed keys sort like (archive id, slot) pairs
      (Codec.ScanRangeIsSlotRange). */
  function ScanSlots(t: DataTable, id: u32, lo: nat, hi: nat): (rows: seq<SlotRecord>)
    requires hi <= 0x1_0000_0000
    decreases hi - lo
  {
    if lo >= hi then []
    else (if DataKey(id, lo) in t then [t[DataKey(id, lo)]] else []) + ScanSlots(t, id, lo + 1, hi)
  }

  /** A scan returns a record exactly when it is stored in one of the scanned slots. */
  lemma {:induction false} ScanSlotsContents(t: DataTable, id: u32, lo: nat, hi: nat, r: SlotRecord)
    requires hi <= 0x1_0000_0000
    ensures r in ScanSlots(t, id, lo, hi) <==>
            exists s: u32 :: lo <= s < hi && DataKey(id, s) in t && t[DataKey(id, s)] == r
    decreases hi - lo
  {
    if lo < hi {
      ScanSlotsContents(t, id, lo + 1, hi, r);
      var here: seq<SlotRecord> := if DataKey(id, lo) in t then [t[DataKey(id, lo)]] else [];
      assert ScanSlots(t, id, lo, hi) == here + ScanSlots(t, id, lo + 1, hi);
      if exists s: u32 :: lo <= s < hi && DataKey(id, s) in t && t[DataKey(id, s)] == r {
        var s: u32 :| lo <= s < hi && DataKey(id, s) in t && t[DataKey(id, s)] == r;
        if s > lo {
          assert r in ScanSlots(t, id, lo + 1, hi);
        }
      }
    }
  }

  /** The first `ScanBatch` rows of a scan. */
  function Batch(rows: seq<SlotRecord>): (r: seq<SlotRecord>)
    ensures |rows| <= ScanBatch ==> r == rows
  {
    if |rows| <= ScanBatch then rows else rows[..ScanBatch]
  }

  predicate InWindow(r: SlotRecord, start: int, end: int) {
    start <= r.timestamp <= end
  }

  /** `(timestamp - startTime) / step - 1`, the list index a record is stored at. */
  function ReturnSlot(timestamp: int, start: int, step: int): int
    requires step > 0
  {
    (timestamp - start) / step - 1
  }

  /** Row `j` of `rows` is placed at output position `i`. */
  predicate Hits(rows: seq<SlotRecord>, j: int, i: int, len: nat, start: int, end: int, step: int)
    requires step > 0
  {
    0 <= j < |rows| && InWindow(rows[j], start, end) &&
    PyIndex(ReturnSlot(rows[j].timestamp, start, step), len) == Some(i)
  }

  /** The loop over the scanned rows, applied to the output list `ret`:
      every row inside the window overwrites the position its timestamp
      maps to; an index outside the list raises IndexError. */
  function Place(ret: Series, rows: seq<SlotRecord>, start: int, end: int, step: int): (r: Result<Series>)
    requires step > 0
    ensures r.Ok? ==> |r.value| == |ret|
    ensures r.Err? ==> r.error == IndexError
    decreases |rows|
  {
    if |rows| == 0 then Ok(ret)
    else match Place(ret, rows[..|rows| - 1], start, end, step)
      case Err(e) => Err(e)
      case Ok(acc) =>
        var row := rows[|rows| - 1];
        if !InWindow(row, start, end) then Ok(acc)
        else match PyIndex(ReturnSlot(row.timestamp, start, step), |acc|)
          case None => Err(IndexError)
          case Some(i) => Ok(acc[i := Some(row.value)])
  }

  lemma PlacePrefixOk(ret: Series, rows: seq<SlotRecord>, start: int, end: int, step: int, n: nat)
    requires step > 0 && n <= |rows| && Place(ret, rows, start, end, step).Ok?
    ensures Place(ret, rows[..n], start, end, step).Ok?
    decreases |rows| - n
  {
    if n < |rows| {
      PlacePrefixOk(ret, rows[..|rows| - 1], start, end, step, n);
      assert rows[..|rows| - 1][..n] == rows[..n];
    } else {
      assert rows[..n] == rows;
    }
  }

  /** A position holds the value of the last row placed there. */
  lemma {:induction false} PlaceHit(ret: Series, rows: seq<SlotRecord>, start: int, end: int, step: int, i: int, j: int)
    requires step > 0 && Place(ret, rows, start, end, step).Ok?
    requires Hits(rows, j, i, |ret|, start, end, step)
    requires forall k :: j < k < |rows| ==> !Hits(rows, k, i, |ret|, start, end, step)
    ensures 0 <= i < |ret| && Place(ret, rows, start, end, step).value[i] == Some(rows[j].value)
    decreases |rows|
  {
    var n := |rows| - 1;
    var init := rows[..n];
    PlacePrefixOk(ret, rows, start, end, step, n);
    var acc := Place(ret, init, start, end, step).value;
    if j < n {
      assert forall k :: 0 <= k < n ==> init[k] == rows[k];
      assert forall k :: 0 <= k < n ==> Hits(init, k, i, |ret|, start, end, step) == Hits(rows, k, i, |ret|, start, end, step);
      PlaceHit(ret, init, start, end, step, i, j);
      assert !Hits(rows, n, i, |ret|, start, end, step);
    }
  }

  /** A position no row maps to keeps its initial content. */
  lemma {:induction false} PlaceMiss(ret: Series, rows: seq<SlotRecord>, start: int, end: int, step: int, i: int)
    requires step > 0 && Place(ret, rows, start, end, step).Ok? && 0 <= i < |ret|
    requires forall k :: 0 <= k < |rows| ==> !Hits(rows, k, i, |ret|, start, end, step)
    ensures Place(ret, rows, start, end, step).value[i] == ret[i]
    decreases |rows|
  {
    if |rows| > 0 {
      var n := |rows| - 1;
      var init := rows[..n];
      PlacePrefixOk(ret, rows, start, end, step, n);
      assert forall k :: 0 <= k < n ==> init[k] == rows[k];
      assert forall k :: 0 <= k < n ==> Hits(init, k, i, |ret|, start, end, step) == Hits(rows, k, i, |ret|, start, end, step);
      PlaceMiss(ret, init, start, end, step, i);
      assert !Hits(rows, n, i, |ret|, start, end, step);
    }
  }

  /** Placing never fails when every in-window row has a valid index. */
  lemma {:induction false} PlaceOk(ret: Series, rows: seq<SlotRecord>, start: int, end: int, step: int)
    requires step > 0
    requires forall k :: 0 <= k < |rows| && InWindow(rows[k], start, end) ==>
               PyIndex(ReturnSlot(rows[k].timestamp, start, step), |ret|).Some?
    ensures Place(ret, rows, start, end, step).Ok?
    decreases |rows|
  {
    if |rows| > 0 {
      var n := |rows| - 1;
      assert forall k :: 0 <= k < n ==> rows[..n][k] == rows[k];
      PlaceOk(ret, rows[..n], start, end, step);
    }
  }

  /** One more row: inside the window it is stored at its index, and an
      index outside the list raises. */
  lemma PlaceNext(ret: Series, rows: seq<SlotRecord>, start: int, end: int, step: int, j: nat, acc: Series)
    requires step > 0 && j < |rows| && Place(ret, rows[..j], start, end, step) == Ok(acc)
    ensures !InWindow(rows[j], start, end) ==> Place(ret, rows[..j + 1], start, end, step) == Ok(acc)
    ensures InWindow(rows[j], start, end) ==>
              var index := PyIndex(ReturnSlot(rows[j].timestamp, start, step), |acc|);
              && (index.None? ==> Place(ret, rows, start, end, step) == Err(IndexError))
              && (index.Some? ==> Place(ret, rows[..j + 1], start, end, step) == Ok(acc[index.value := Some(rows[j].value)]))
  {
    assert rows[..j + 1][..j] == rows[..j];
    if InWindow(rows[j], start, end) && PyIndex(ReturnSlot(rows[j].timestamp, start, step), |acc|).None? {
      PlaceErrSticks(ret, rows, start, end, step, j + 1);
    }
  }

  /** Once a prefix of the rows raises, the whole loop raises. */
  lemma PlaceErrSticks(ret: Series, rows: seq<SlotRecord>, start: int, end: int, step: int, n: nat)
    requires step > 0 && n <= |rows| && Place(ret, rows[..n], start, end, step).Err?
    ensures Place(ret, rows, start, end, step) == Err(IndexError)
  {
    if Place(ret, rows, start, end, step).Ok? {
      PlacePrefixOk(ret, rows, start, end, step, n);
    }
  }

  /** `[None] * numSlots`, with numSlots = (end - start) / step. */
  function EmptySeries(start: int, end: int, step: int): (r: Series)
    requires step > 0
  {
    var n := (end - start) / step;
    seq(if n < 0 then 0 else n, _ => None)
  }

  /** One pass of the outer loop: a fresh output list filled from one scan. */
  function Fill(t: DataTable, a: Archive, lo: nat, hi: nat, start: int, end: int): Result<Series>
    requires WellFormedArchive(a) && hi <= a.points
  {
    var step := a.secondsPerPoint;
    Place(EmptySeries(start, end, step), Batch(ScanSlots(t, a.archiveId, lo, hi)), start, end, step)
  }

  /** The slot ranges [lo, hi) scanned for the window from slot `startSlot`
      to slot `endSlot`: two when the window wraps round the ring. */
  function Ranges(startSlot: nat, endSlot: nat, points: nat): (r: seq<(nat, nat)>)
    requires startSlot < points && endSlot < points
    ensures |r| == (if startSlot > endSlot then 2 else 1)
    ensures forall k :: 0 <= k < |r| ==> r[k].0 <= r[k].1 <= points
  {
    if startSlot > endSlot then [(0, endSlot + 1), (startSlot, points)]
    else [(startSlot, endSlot + 1)]
  }

  /** The window `__archive_fetch` reads: both bounds aligned down to the step. */
  function WindowStart(a: Archive, startTime: int): int
    requires WellFormedArchive(a)
  {
    Align(startTime, a.secondsPerPoint)
  }

  function WindowEnd(a: Archive, endTime: int): int
    requires WellFormedArchive(a)
  {
    Align(endTime, a.secondsPerPoint)
  }

  function FetchRanges(a: Archive, startTime: int, endTime: int): seq<(nat, nat)>
    requires WellFormedArchive(a)
  {
    var step := a.secondsPerPoint;
    Ranges(SlotOf(WindowStart(a, startTime), step, a.points), SlotOf(WindowEnd(a, endTime), step, a.points), a.points)
  }

  /** `__archive_fetch(archive, startTime, endTime)`: every scan fills its own
      fresh list, so only the last scan's list is returned; an IndexError in
      any scan is raised. */
  function ArchiveFetch(t: DataTable, a: Archive, startTime: int, endTime: int): Result<Series>
    requires WellFormedArchive(a)
  {
    var start, end := WindowStart(a, startTime), WindowEnd(a, endTime);
    var ranges := FetchRanges(a, startTime, endTime);
    var first := Fill(t, a, ranges[0].0, ranges[0].1, start, end);
    if |ranges| == 1 || first.Err? then first
    else Fill(t, a, ranges[1].0, ranges[1].1, start, end)
  }

  /** Within the window, a record's index lies in [-1, numSlots - 1]: the
      record at the window's start gets -1. */
  lemma ReturnSlotRange(timestamp: int, start: int, end: int, step: int)
    requires step > 0 && start % step == 0 && end % step == 0 && start <= timestamp <= end
    ensures -1 <= ReturnSlot(timestamp, start, step) <= (end - start) / step - 1
    ensures timestamp == start ==> ReturnSlot(timestamp, start, step) == -1
  {
    DivModUnique(end - start, step, end / step - start / step, 0);
    var d := timestamp - start;
    assert 0 <= d <= end - start;
    if d / step > (end - start) / step {
      MulSign(d / step - (end - start) / step, step);
      assert d / step * step - (end - start) / step * step >= step;
    }
  }

  /** The read of one archive fails only when the aligned window is empty:
      with at least one output position, every in-window record has an index. */
  lemma FetchOk(t: DataTable, a: Archive, startTime: int, endTime: int)
    requires WellFormedArchive(a)
    requires WindowStart(a, startTime) < WindowEnd(a, endTime)
    ensures ArchiveFetch(t, a, startTime, endTime).Ok?
    ensures |ArchiveFetch(t, a, startTime, endTime).value| ==
            (WindowEnd(a, endTime) - WindowStart(a, startTime)) / a.secondsPerPoint
  {
    var step := a.secondsPerPoint;
    var start, end := WindowStart(a, startTime), WindowEnd(a, endTime);
    var len := (end - start) / step;
    DivModUnique(end - start, step, end / step - start / step, 0);
    MulSign(end / step - start / step, step);
    assert len >= 1;
    var ranges := FetchRanges(a, startTime, endTime);
    forall k | 0 <= k < |ranges|
      ensures Fill(t, a, ranges[k].0, ranges[k].1, start, end).Ok?
    {
      var rows := Batch(ScanSlots(t, a.archiveId, ranges[k].0, ranges[k].1));
      forall m | 0 <= m < |rows| && InWindow(rows[m], start, end)
        ensures PyIndex(ReturnSlot(rows[m].timestamp, start, step), len).Some?
      {
        ReturnSlotRange(rows[m].timestamp, start, end, step);
      }
      PlaceOk(EmptySeries(start, end, step), rows, start, end, step);
    }
  }

  /** The rows of the last scan `__archive_fetch` makes. */
  function LastScan(t: DataTable, a: Archive, startTime: int, endTime: int): seq<SlotRecord>
    requires WellFormedArchive(a)
  {
    var ranges := FetchRanges(a, startTime, endTime);
    Batch(ScanSlots(t, a.archiveId, ranges[|ranges| - 1].0, ranges[|ranges| - 1].1))
  }

  /** Row `j` is the last of `rows` placed at position `i`. */
  predicate LastHitAt(rows: seq<SlotRecord>, j: int, i: int, len: nat, start: int, end: int, step: int)
    requires step > 0
  {
    Hits(rows, j, i, len, start, end, step) &&
    forall k :: j < k < |rows| ==> !Hits(rows, k, i, len, start, end, step)
  }

  /** No row of `rows` is placed at position `i`. */
  predicate NoHitAt(rows: seq<SlotRecord>, i: int, len: nat, start: int, end: int, step: int)
    requires step > 0
  {
    forall k :: 0 <= k < |rows| ==> !Hits(rows, k, i, len, start, end, step)
  }

  lemma FetchIsLastFill(t: DataTable, a: Archive, startTime: int, endTime: int)
    requires WellFormedArchive(a) && ArchiveFetch(t, a, startTime, endTime).Ok?
    ensures var start, end := WindowStart(a, startTime), WindowEnd(a, endTime);
            ArchiveFetch(t, a, startTime, endTime) ==
            Place(EmptySeries(start, end, a.secondsPerPoint), LastScan(t, a, startTime, endTime), start, end, a.secondsPerPoint)
  {
  }

  /** What the read returns, position by position: the value of the last
      record, in the last scan, whose stored timestamp lies in the aligned
      window and whose index is that position; a gap where there is none.
      A record from an earlier pass over the ring that sits in a scanned
      slot has a timestamp outside the window, so it leaves a gap. */
  lemma FetchAt(t: DataTable, a: Archive, startTime: int, endTime: int, i: int)
    requires WellFormedArchive(a)
    requires ArchiveFetch(t, a, startTime, endTime).Ok?
    requires 0 <= i < |ArchiveFetch(t, a, startTime, endTime).value|
    ensures var rows := LastScan(t, a, startTime, endTime);
            var ret := ArchiveFetch(t, a, startTime, endTime).value;
            var start, end := WindowStart(a, startTime), WindowEnd(a, endTime);
            && (forall j :: LastHitAt(rows, j, i, |ret|, start, end, a.secondsPerPoint) ==> ret[i] == Some(rows[j].value))
            && (NoHitAt(rows, i, |ret|, start, end, a.secondsPerPoint) ==> ret[i] == None)
  {
    var rows := LastScan(t, a, startTime, endTime);
    var start, end := WindowStart(a, startTime), WindowEnd(a, endTime);
    var step := a.secondsPerPoint;
    var init := EmptySeries(start, end, step);
    FetchIsLastFill(t, a, startTime, endTime);
    forall j | LastHitAt(rows, j, i, |init|, start, end, step)
      ensures Place(init, rows, start, end, step).value[i] == Some(rows[j].value)
    {
      PlaceHit(init, rows, start, end, step, i, j);
    }
    if NoHitAt(rows, i, |init|, start, end, step) {
      PlaceMiss(init, rows, start, end, step, i);
    }
  }

  /** When the window wraps round the ring, the slots [0, endSlot] are
      scanned but their records never reach the result: every value
      returned comes from a slot in [startSlot, points). */
  lemma WrapKeepsOnlyUpperSlots(t: DataTable, a: Archive, startTime: int, endTime: int, i: int)
    requires WellFormedArchive(a)
    requires |FetchRanges(a, startTime, endTime)| == 2
    requires ArchiveFetch(t, a, startTime, endTime).Ok?
    requires 0 <= i < |ArchiveFetch(t, a, startTime, endTime).value|
    requires ArchiveFetch(t, a, startTime, endTime).value[i].Some?
    ensures var startSlot := SlotOf(WindowStart(a, startTime), a.secondsPerPoint, a.points);
            exists s: u32 :: startSlot <= s < a.points && DataKey(a.archiveId, s) in t &&
              t[DataKey(a.archiveId, s)].value == ArchiveFetch(t, a, startTime, endTime).value[i].value
  {
    var ranges := FetchRanges(a, startTime, endTime);
    var rows := LastScan(t, a, startTime, endTime);
    var all := ScanSlots(t, a.archiveId, ranges[1].0, ranges[1].1);
    var start, end := WindowStart(a, startTime), WindowEnd(a, endTime);
    var step := a.secondsPerPoint;
    var ret := ArchiveFetch(t, a, startTime, endTime).value;
    FetchAt(t, a, startTime, endTime, i);
    assert !NoHitAt(rows, i, |ret|, start, end, step);
    var j := LastHit(rows, i, |ret|, start, end, step);
    assert ret[i] == Some(rows[j].value);
    assert rows[j] in all by {
      if |all| > ScanBatch { assert rows[j] == all[j]; }
    }
    ScanSlotsContents(t, a.archiveId, ranges[1].0, ranges[1].1, rows[j]);
  }

  /** The last row placed at position `i`, when there is one. */
  lemma LastHit(rows: seq<SlotRecord>, i: int, len: nat, start: int, end: int, step: int) returns (j: int)
    requires step > 0
    requires exists k :: Hits(rows, k, i, len, start, end, step)
    ensures LastHitAt(rows, j, i, len, start, end, step)
  {
    j := |rows| - 1;
    while !Hits(rows, j, i, len, start, end, step)
      invariant 0 <= j < |rows|
      invariant forall k :: j < k < |rows| ==> !Hits(rows, k, i, len, start, end, step)
      invariant exists k :: 0 <= k <= j && Hits(rows, k, i, len, start, end, step)
      decreases j
    {
      j := j - 1;
    }
  }

  /** The window and archive `fetch` reads. */
  datatype Window = Window(archive: Archive, fromTime: int, untilTime: int)

  /** The archive left in the loop variable by `for archive in
      info['archives']: if archive['retention'] >= diff: break`. */
  function ChooseArchive(archives: seq<Archive>, diff: int): (k: nat)
    requires |archives| > 0
    ensures k < |archives|
  {
    if archives[0].retention >= diff || |archives| == 1 then 0
    else 1 + ChooseArchive(archives[1..], diff)
  }

  /** The chosen archive is the first, in list order, whose retention
      covers `diff`, or the last archive when none does. */
  lemma {:induction false} ChooseArchiveFirstCovering(archives: seq<Archive>, diff: int)
    requires |archives| > 0
    ensures var k := ChooseArchive(archives, diff);
            && (forall i :: 0 <= i < k ==> archives[i].retention < diff)
            && (archives[k].retention >= diff || k == |archives| - 1)
  {
    if !(archives[0].retention >= diff || |archives| == 1) {
      ChooseArchiveFirstCovering(archives[1..], diff);
      var k := ChooseArchive(archives[1..], diff);
      assert forall i :: 1 <= i < k + 1 ==> archives[i] == archives[1..][i - 1];
    }
  }

  /** The archive the loop stops at is determined by the two facts above. */
  lemma {:induction false} ChooseArchiveIs(archives: seq<Archive>, diff: int, k: nat)
    requires k < |archives|
    requires forall i :: 0 <= i < k ==> archives[i].retention < diff
    requires archives[k].retention >= diff || k == |archives| - 1
    ensures ChooseArchive(archives, diff) == k
  {
    if k > 0 {
      assert forall i :: 0 <= i < k - 1 ==> archives[1..][i] == archives[i + 1];
      ChooseArchiveIs(archives[1..], diff, k - 1);
    }
  }

  /** `fetch(info, fromTime, untilTime)` up to the archive read: `untilTime`
      defaults to `now` and is clamped to it, an interval that starts after
      it ends raises, a start in the future gives None, a start older than
      the metric's retention is raised to it, and the archive is chosen by
      the age of the start. */
  function FetchWindow(info: Info, now: int, fromTime: int, untilTime: Option<int>): Result<Option<Window>> {
    var until0 := if untilTime.None? then now else untilTime.value;
    var until := if until0 > now then now else until0;
    if fromTime > until then Err(InvalidInterval(fromTime, until))
    else if fromTime > now then Ok(None)
    else
      var oldest := now - info.maxRetention;
      var from := if fromTime < oldest then oldest else fromTime;
      if |info.archives| == 0 then Err(UnboundLocal("archive"))
      else Ok(Some(Window(info.archives[ChooseArchive(info.archives, now - from)], from, until)))
  }

  /** `fetch(info, fromTime, untilTime)` at time `now`: the chosen
      archive's read over the window, None for a start in the future. */
  function Fetch(t: DataTable, info: Info, now: int, fromTime: int, untilTime: Option<int>): Result<Option<Series>>
    requires WellFormed(info)
  {
    match FetchWindow(info, now, fromTime, untilTime)
      case Err(e) => Err(e)
      case Ok(None) => Ok(None)
      case Ok(Some(w)) =>
        assert w.archive in info.archives;
        match ArchiveFetch(t, w.archive, w.fromTime, w.untilTime)
          case Err(e) => Err(e)
          case Ok(s) => Ok(Some(s))
  }

  /** What `fetch` promises about its window: it raises exactly when the
      start lies after the clamped end; the "start in the future" answer is
      never given (the earlier check already covers it); otherwise the end
      is at most `now`, the start is at least the requested one and at least
      `now - maxRetention`, and the archive is the first whose retention
      covers the age of the start. */
  lemma FetchWindowFacts(info: Info, now: int, fromTime: int, untilTime: Option<int>)
    ensures var until := if untilTime.None? || untilTime.value > now then now else untilTime.value;
            var r := FetchWindow(info, now, fromTime, untilTime);
            && (r.Err? && r.error.InvalidInterval? <==> fromTime > until)
            && r != Ok(None)
            && (r.Ok? ==>
                  var w := r.value.value;
                  && w.untilTime == until && w.untilTime <= now
                  && w.fromTime >= fromTime && w.fromTime >= now - info.maxRetention
                  && (w.fromTime == fromTime || w.fromTime == now - info.maxRetention)
                  && exists k :: 0 <= k < |info.archives| && w.archive == info.archives[k]
                       && (forall i :: 0 <= i < k ==> info.archives[i].retention < now - w.fromTime)
                       && (w.archive.retention >= now - w.fromTime || k == |info.archives| - 1))
  {
    var r := FetchWindow(info, now, fromTime, untilTime);
    if r.Ok? {
      var w := r.value.value;
      ChooseArchiveFirstCovering(info.archives, now - w.fromTime);
      var k := ChooseArchive(info.archives, now - w.fromTime);
      assert w.archive == info.archives[k];
    }
  }

  /** When maxRetention is the retention of one of the archives, as `create`
      records it, the archive `fetch` reads covers the whole window. */
  lemma FetchArchiveCovers(info: Info, now: int, fromTime: int, untilTime: Option<int>)
    requires exists i :: 0 <= i < |info.archives| && info.archives[i].retention == info.maxRetention
    requires FetchWindow(info, now, fromTime, untilTime).Ok?
    ensures var w := FetchWindow(info, now, fromTime, untilTime).value.value;
            w.archive.retention >= now - w.fromTime
  {
    var from := if fromTime < now - info.maxRetention then now - info.maxRetention else fromTime;
    var k := ChooseArchive(info.archives, now - from);
    assert FetchWindow(info, now, fromTime, untilTime).value.value.archive == info.archives[k];
    assert FetchWindow(info, now, fromTime, untilTime).value.value.fromTime == from;
    ChooseArchiveFirstCovering(info.archives, now - from);
    var i :| 0 <= i < |info.archives| && info.archives[i].retention == info.maxRetention;
    // archive i covers the window, so the first covering one comes no later
    assert k <= i;
  }
}
