/** The records the backend keeps (hbasedb.py, the `info` layout described
    above `HbaseTSDB.info`, and `ArchiveConfig`), the data table, and the
    metadata written by `create`. */
module Schema {
  import opened Base
  import opened Codec

  /** One archive of a metric: `{'archiveId', 'secondsPerPoint', 'points', 'retention'}`. */
  datatype Archive = Archive(archiveId: int, secondsPerPoint: int, points: int, retention: int)

  /** The info record stored in a metric's `cf:INFO` column. `xFilesFactor`
      is whatever the caller passed, possibly None. */
  datatype Info = Info(aggregationMethod: string, maxRetention: int, xFilesFactor: Option<real>, archives: seq<Archive>)

  /** A sample handed to `update_many`: (timestamp, value). */
  datatype Point = Point(timestamp: u32, value: DoubleBits)

  /** What the arithmetic and the key format demand of an archive: a
      positive step, a positive number of points, and an id and slots that
      fit the unsigned 32-bit key fields. */
  predicate WellFormedArchive(a: Archive) {
    0 <= a.archiveId < 0x1_0000_0000 && a.secondsPerPoint > 0 && 0 < a.points < 0x1_0000_0000
  }

  predicate WellFormed(info: Info) {
    forall i :: 0 <= i < |info.archives| ==> WellFormedArchive(info.archives[i])
  }

  /** The data table, its row keys and `cf:d` cells held decoded: the
      codec lemmas show the packing is lossless and keeps the key order. */
  type DataTable = map<DataKey, SlotRecord>

  /** The archive records `create` builds: ids drawn from the counter one
      per archive in declaration order, and retention = step * points. */
  function CreatedArchives(counter: int, archiveList: seq<(int, int)>): (r: seq<Archive>)
    ensures |r| == |archiveList|
    ensures forall i :: 0 <= i < |r| ==>
              r[i] == Archive(counter + 1 + i, archiveList[i].0, archiveList[i].1, archiveList[i].0 * archiveList[i].1)
  {
    if |archiveList| == 0 then []
    else CreatedArchives(counter, archiveList[..|archiveList| - 1])
         + [Archive(counter + |archiveList|, archiveList[|archiveList| - 1].0, archiveList[|archiveList| - 1].1,
                    archiveList[|archiveList| - 1].0 * archiveList[|archiveList| - 1].1)]
  }

  /** max(secondsPerPoint * points for each archive). */
  function MaxRetention(archiveList: seq<(int, int)>): (r: int)
    requires |archiveList| > 0
    ensures forall i :: 0 <= i < |archiveList| ==> archiveList[i].0 * archiveList[i].1 <= r
    ensures exists i :: 0 <= i < |archiveList| && archiveList[i].0 * archiveList[i].1 == r
  {
    var last := archiveList[|archiveList| - 1].0 * archiveList[|archiveList| - 1].1;
    if |archiveList| == 1 then last
    else
      var m := MaxRetention(archiveList[..|archiveList| - 1]);
      assert forall i :: 0 <= i < |archiveList| - 1 ==> archiveList[..|archiveList| - 1][i] == archiveList[i];
      if m >= last then m else last
  }

  /** The info record `create` writes. */
  function CreatedInfo(counter: int, archiveList: seq<(int, int)>, xFilesFactor: Option<real>, aggregationMethod: string): Info
    requires |archiveList| > 0
  {
    Info(aggregationMethod, MaxRetention(archiveList), xFilesFactor, CreatedArchives(counter, archiveList))
  }

  /** The archive ids of a created metric are distinct and increase in
      declaration order, and every archive's retention is at most the
      metric's maxRetention, which one of them attains. */
  lemma CreatedInfoFacts(counter: int, archiveList: seq<(int, int)>, xff: Option<real>, aggregationMethod: string)
    requires |archiveList| > 0
    ensures var info := CreatedInfo(counter, archiveList, xff, aggregationMethod);
            && |info.archives| == |archiveList|
            && (forall i, j :: 0 <= i < j < |info.archives| ==> info.archives[i].archiveId < info.archives[j].archiveId)
            && (forall i :: 0 <= i < |info.archives| ==> counter < info.archives[i].archiveId <= counter + |archiveList|)
            && (forall i :: 0 <= i < |info.archives| ==> info.archives[i].retention <= info.maxRetention)
            && (exists i :: 0 <= i < |info.archives| && info.archives[i].retention == info.maxRetention)
  {
    var info := CreatedInfo(counter, archiveList, xff, aggregationMethod);
    var i :| 0 <= i < |archiveList| && archiveList[i].0 * archiveList[i].1 == info.maxRetention;
    assert info.archives[i].retention == info.maxRetention;
  }

  /** Positive steps and point counts below 2^32, and ids that stay below
      2^32: the archive lists this model accepts. */
  predicate ValidArchiveList(counter: int, archiveList: seq<(int, int)>) {
    && 0 <= counter
    && counter + |archiveList| < 0x1_0000_0000
    && forall i :: 0 <= i < |archiveList| ==> archiveList[i].0 > 0 && 0 < archiveList[i].1 < 0x1_0000_0000
  }

  lemma CreatedInfoWellFormed(counter: int, archiveList: seq<(int, int)>, xff: Option<real>, aggregationMethod: string)
    requires |archiveList| > 0 && ValidArchiveList(counter, archiveList)
    ensures WellFormed(CreatedInfo(counter, archiveList, xff, aggregationMethod))
  {
  }
}
