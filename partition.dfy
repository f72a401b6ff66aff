/** How `update_many` (hbasedb.py) splits a list of points across a metric's
    archives: a cursor walks forward through the archives, and a point goes
    to the first archive, from the cursor on, whose retention covers the
    point's age. Pending points are committed, reversed, whenever the cursor
    moves on, and once the cursor runs past the last archive the remaining
    points are dropped. */
module Partition {
  import opened Base
  import opened Schema

  /** One `__archive_update_many` call: an archive index and the points
      handed to it (the pending list after its `reverse()`). */
  datatype Batch = Batch(archive: nat, points: seq<Point>)

  /** The loop state: the archive cursor, the pending points in arrival
      order, and the batches committed so far. */
  datatype Cursor = Cursor(archive: nat, current: seq<Point>, committed: seq<Batch>)

  function Age(now: int, p: Point): int {
    now - p.timestamp
  }

  /** Committing the pending points, if there are any. */
  function Flush(c: Cursor): seq<Batch> {
    if |c.current| == 0 then [] else [Batch(c.archive, Reverse(c.current))]
  }

  /** The inner `while`: skip every archive whose retention is shorter than
      `age`, committing the pending points before each move. Reaching the
      end of the archive list stands for `currentArchive = None`. */
  function Advance(archives: seq<Archive>, age: int, c: Cursor): (r: Cursor)
    requires c.archive < |archives|
    ensures c.archive <= r.archive <= |archives|
    decreases |archives| - c.archive
  {
    if archives[c.archive].retention >= age then c
    else
      var next := Cursor(c.archive + 1, [], c.committed + Flush(c));
      if next.archive == |archives| then next else Advance(archives, age, next)
  }

  /** One turn of the inner loop: the pending points are flushed and the
      next archive is taken. */
  lemma AdvanceSkip(archives: seq<Archive>, age: int, c: Cursor)
    requires c.archive < |archives| && archives[c.archive].retention < age
    ensures var next := Cursor(c.archive + 1, [], c.committed + Flush(c));
            Advance(archives, age, c) == if next.archive == |archives| then next else Advance(archives, age, next)
  {
  }

  /** The outer `for point in points` loop, from cursor `c` on. */
  function Walk(archives: seq<Archive>, now: int, points: seq<Point>, c: Cursor): (r: Cursor)
    requires c.archive < |archives|
    ensures r.archive <= |archives|
    decreases |points|, 1
  {
    if |points| == 0 then c else WalkTurn(archives, now, points, c)
  }

  /** One turn of that loop: the point's archive is found, then either the
      walk ends or the point joins the pending list. */
  function WalkTurn(archives: seq<Archive>, now: int, points: seq<Point>, c: Cursor): (r: Cursor)
    requires c.archive < |archives| && |points| > 0
    ensures r.archive <= |archives|
    decreases |points|, 0
  {
    var next := Advance(archives, Age(now, points[0]), c);
    if next.archive == |archives| then next
    else Walk(archives, now, points[1..], next.(current := next.current + [points[0]]))
  }

  /** Every `__archive_update_many` call `update_many` makes, in order. */
  function Plan(archives: seq<Archive>, now: int, points: seq<Point>): seq<Batch>
    requires |archives| > 0
  {
    var c := Walk(archives, now, points, Cursor(0, [], []));
    c.committed + (if c.archive < |archives| then Flush(c) else [])
  }

  /** The committed points in input order (each batch's reverse undone). */
  function Flatten(batches: seq<Batch>): seq<Point> {
    if |batches| == 0 then []
    else Flatten(batches[..|batches| - 1]) + Reverse(batches[|batches| - 1].points)
  }

  predicate Fits(archives: seq<Archive>, now: int, a: nat, pts: seq<Point>) {
    a < |archives| && forall i :: 0 <= i < |pts| ==> Age(now, pts[i]) <= archives[a].retention
  }

  /** Batches go to strictly increasing archives below `bound`, none is
      empty, and every point fits the retention of its batch's archive. */
  predicate Orderly(archives: seq<Archive>, now: int, batches: seq<Batch>, bound: nat) {
    && (forall i, j :: 0 <= i < j < |batches| ==> batches[i].archive < batches[j].archive)
    && (forall i :: 0 <= i < |batches| ==>
          batches[i].archive < bound && |batches[i].points| > 0 &&
          Fits(archives, now, batches[i].archive, batches[i].points))
  }

  /** The loop invariant of `update_many` after consuming `consumed`. */
  predicate Inv(archives: seq<Archive>, now: int, c: Cursor, consumed: seq<Point>) {
    && c.archive < |archives|
    && Orderly(archives, now, c.committed, c.archive)
    && Fits(archives, now, c.archive, c.current)
    && Flatten(c.committed) + c.current == consumed
  }

  lemma FlattenAppend(batches: seq<Batch>, b: Batch)
    ensures Flatten(batches + [b]) == Flatten(batches) + Reverse(b.points)
  {
    assert (batches + [b])[..|batches|] == batches;
  }

  /** Committing keeps the invariant's shape: the pending points move into
      a batch for the cursor's archive. */
  lemma FlushFacts(archives: seq<Archive>, now: int, c: Cursor, consumed: seq<Point>)
    requires Inv(archives, now, c, consumed)
    ensures Flatten(c.committed + Flush(c)) == consumed
    ensures Orderly(archives, now, c.committed + Flush(c), c.archive + 1)
  {
    if |c.current| > 0 {
      var b := Batch(c.archive, Reverse(c.current));
      FlattenAppend(c.committed, b);
      ReverseReverse(c.current);
      FlushOrderly(archives, now, c.committed, b, c.archive + 1);
    } else {
      assert c.committed + Flush(c) == c.committed;
    }
  }

  lemma FlushOrderly(archives: seq<Archive>, now: int, committed: seq<Batch>, b: Batch, bound: nat)
    requires Orderly(archives, now, committed, b.archive)
    requires b.archive < bound && |b.points| > 0 && Fits(archives, now, b.archive, b.points)
    ensures Orderly(archives, now, committed + [b], bound)
  {
    var bs := committed + [b];
    assert forall i :: 0 <= i < |committed| ==> bs[i] == committed[i];
  }

  /** Skipping archives keeps the invariant: the cursor stops at an archive
      long enough for `age`, or runs out of archives with everything
      consumed so far committed, the last archive being too short. */
  lemma AdvanceFacts(archives: seq<Archive>, now: int, age: int, c: Cursor, consumed: seq<Point>)
    requires Inv(archives, now, c, consumed)
    ensures var r := Advance(archives, age, c);
            && (r.archive < |archives| ==> Inv(archives, now, r, consumed) && age <= archives[r.archive].retention)
            && (r.archive == |archives| ==>
                  && r.current == []
                  && Flatten(r.committed) == consumed
                  && Orderly(archives, now, r.committed, r.archive)
                  && age > archives[|archives| - 1].retention)
  {
    AdvanceStops(archives, now, age, c, consumed);
    AdvanceRunsOut(archives, now, age, c, consumed);
  }

  lemma {:induction false} AdvanceStops(archives: seq<Archive>, now: int, age: int, c: Cursor, consumed: seq<Point>)
    requires Inv(archives, now, c, consumed)
    ensures var r := Advance(archives, age, c);
            r.archive < |archives| ==> Inv(archives, now, r, consumed) && age <= archives[r.archive].retention
    decreases |archives| - c.archive
  {
    if archives[c.archive].retention < age {
      var next := Cursor(c.archive + 1, [], c.committed + Flush(c));
      if next.archive < |archives| {
        FlushFacts(archives, now, c, consumed);
        assert Advance(archives, age, c) == Advance(archives, age, next);
        assert Flatten(next.committed) + next.current == consumed;
        AdvanceStops(archives, now, age, next, consumed);
      }
    }
  }

  lemma {:induction false} AdvanceRunsOut(archives: seq<Archive>, now: int, age: int, c: Cursor, consumed: seq<Point>)
    requires Inv(archives, now, c, consumed)
    ensures var r := Advance(archives, age, c);
            r.archive == |archives| ==>
              && r.current == []
              && Flatten(r.committed) == consumed
              && Orderly(archives, now, r.committed, r.archive)
              && age > archives[|archives| - 1].retention
    decreases |archives| - c.archive
  {
    if archives[c.archive].retention < age {
      var next := Cursor(c.archive + 1, [], c.committed + Flush(c));
      FlushFacts(archives, now, c, consumed);
      if next.archive < |archives| {
        assert Advance(archives, age, c) == Advance(archives, age, next);
        assert Flatten(next.committed) + next.current == consumed;
        AdvanceRunsOut(archives, now, age, next, consumed);
      } else {
        assert Advance(archives, age, c) == next && c.archive == |archives| - 1;
      }
    }
  }

  /** Appending a point that fits the cursor's archive keeps the invariant. */
  lemma AppendPoint(archives: seq<Archive>, now: int, c: Cursor, consumed: seq<Point>, p: Point)
    requires Inv(archives, now, c, consumed)
    requires Age(now, p) <= archives[c.archive].retention
    ensures Inv(archives, now, c.(current := c.current + [p]), consumed + [p])
  {
    var c' := c.(current := c.current + [p]);
    assert Flatten(c'.committed) + c'.current == (Flatten(c.committed) + c.current) + [p];
    assert forall i :: 0 <= i < |c.current| ==> c'.current[i] == c.current[i];
  }

  lemma StoppedPrefix(consumed: seq<Point>, points: seq<Point>, kept: nat)
    requires 0 < |points| && kept < |points| - 1
    ensures consumed + [points[0]] + points[1..][..kept] == consumed + points[..kept + 1]
  {
    assert points[..kept + 1] == [points[0]] + points[1..][..kept];
  }

  lemma {:induction false} WalkFacts(archives: seq<Archive>, now: int, points: seq<Point>, c: Cursor, consumed: seq<Point>)
    requires Inv(archives, now, c, consumed)
    ensures var r := Walk(archives, now, points, c);
            var kept := |Flatten(r.committed)| - |consumed|;
            && (r.archive < |archives| ==> Inv(archives, now, r, consumed + points))
            && (r.archive == |archives| ==>
                  && r.current == []
                  && Orderly(archives, now, r.committed, r.archive)
                  && 0 <= kept < |points|
                  && Flatten(r.committed) == consumed + points[..kept]
                  && Age(now, points[kept]) > archives[|archives| - 1].retention)
  {
    if |points| == 0 {
      assert consumed + points == consumed;
      return;
    }
    var next := Advance(archives, Age(now, points[0]), c);
    AdvanceFacts(archives, now, Age(now, points[0]), c, consumed);
    if next.archive == |archives| {
      assert Walk(archives, now, points, c) == next;
      assert consumed + points[..0] == consumed;
      return;
    }
    var c' := next.(current := next.current + [points[0]]);
    AppendPoint(archives, now, next, consumed, points[0]);
    WalkFacts(archives, now, points[1..], c', consumed + [points[0]]);
    var r := Walk(archives, now, points[1..], c');
    assert r == Walk(archives, now, points, c);
    if r.archive < |archives| {
      assert consumed + [points[0]] + points[1..] == consumed + points;
    } else {
      var kept := |Flatten(r.committed)| - |consumed| - 1;
      StoppedPrefix(consumed, points, kept);
      assert points[1..][kept] == points[kept + 1];
    }
  }

  /** What `update_many` promises about its commits: the archives of the
      batches strictly increase (the cursor never moves back), every
      committed point's age is within its archive's retention, the
      committed points are exactly a prefix of the input (each batch is a
      contiguous run, reversed), and when a point is dropped its age exceeds
      the last archive's retention; every later point is dropped with it,
      whether it would fit or not. */
  lemma PlanFacts(archives: seq<Archive>, now: int, points: seq<Point>)
    requires |archives| > 0
    ensures var plan := Plan(archives, now, points);
            var kept := |Flatten(plan)|;
            && Orderly(archives, now, plan, |archives|)
            && kept <= |points|
            && Flatten(plan) == points[..kept]
            && (kept < |points| ==> Age(now, points[kept]) > archives[|archives| - 1].retention)
  {
    var c0 := Cursor(0, [], []);
    assert Inv(archives, now, c0, []);
    WalkFacts(archives, now, points, c0, []);
    var r := Walk(archives, now, points, c0);
    var plan := Plan(archives, now, points);
    AppendEmpty(points);
    if r.archive < |archives| {
      FlushFacts(archives, now, r, points);
      assert plan == r.committed + Flush(r);
      OrderlyWeaken(archives, now, plan, r.archive + 1, |archives|);
    } else {
      assert plan == r.committed;
      AppendEmpty(points[..|Flatten(plan)|]);
    }
  }

  lemma OrderlyWeaken(archives: seq<Archive>, now: int, batches: seq<Batch>, bound: nat, bound': nat)
    requires Orderly(archives, now, batches, bound) && bound <= bound'
    ensures Orderly(archives, now, batches, bound')
  {
  }

}
