/** The data table's binary layout (hbasedb.py, `dataKeyFmt = ">LL"` and
    `dataValFmt = ">Ld"`): a row key is the archive id and the slot as two
    big-endian unsigned 32-bit integers, a cell value is the timestamp as a
    big-endian unsigned 32-bit integer followed by the 8 bytes of an IEEE
    double, which this model keeps opaque. */
module Codec {
  import opened Base

  /** The 8 bytes `struct.pack(">d", v)` produces; never interpreted here. */
  type DoubleBits = b: seq<byte> | |b| == 8 witness [0, 0, 0, 0, 0, 0, 0, 0]

  /** A decoded data-table row key. */
  datatype DataKey = DataKey(archiveId: u32, slot: u32)

  /** A decoded data-table cell: the aligned timestamp the slot was written for and its value. */
  datatype SlotRecord = SlotRecord(timestamp: u32, value: DoubleBits)

  /** struct.pack(">L", x) */
  function PackU32(x: u32): (b: seq<byte>)
    ensures |b| == 4
  {
    [x / 0x100_0000, x / 0x1_0000 % 0x100, x / 0x100 % 0x100, x % 0x100]
  }

  /** struct.unpack(">L", b)[0] */
  function UnpackU32(b: seq<byte>): u32
    requires |b| == 4
  {
    b[0] as int * 0x100_0000 + b[1] as int * 0x1_0000 + b[2] as int * 0x100 + b[3]
  }

  lemma UnpackPackU32(x: u32)
    ensures UnpackU32(PackU32(x)) == x
  {
    var q1 := x / 0x100;
    DivModUnique(x, 0x1_0000, q1 / 0x100, q1 % 0x100 * 0x100 + x % 0x100);
    var q2 := x / 0x1_0000;
    DivModUnique(x, 0x100_0000, q2 / 0x100, q2 % 0x100 * 0x1_0000 + q1 % 0x100 * 0x100 + x % 0x100);
  }

  lemma PackUnpackU32(b: seq<byte>)
    requires |b| == 4
    ensures PackU32(UnpackU32(b)) == b
  {
    var x := UnpackU32(b);
    var hi, mid := b[0] as int * 0x100 + b[1], b[0] as int * 0x1_0000 + b[1] as int * 0x100 + b[2];
    DivModUnique(x, 0x100_0000, b[0], b[1] as int * 0x1_0000 + b[2] as int * 0x100 + b[3]);
    DivModUnique(x, 0x1_0000, hi, b[2] as int * 0x100 + b[3]);
    DivModUnique(hi, 0x100, b[0], b[1]);
    DivModUnique(x, 0x100, mid, b[3]);
    DivModUnique(mid, 0x100, hi, b[2]);
  }

  /** struct.pack(dataKeyFmt, archiveId, slot) */
  function PackKey(k: DataKey): (b: seq<byte>)
    ensures |b| == 8
  {
    PackU32(k.archiveId) + PackU32(k.slot)
  }

  function UnpackKey(b: seq<byte>): DataKey
    requires |b| == 8
  {
    DataKey(UnpackU32(b[..4]), UnpackU32(b[4..]))
  }

  /** struct.pack(dataValFmt, timestamp, value) */
  function PackValue(r: SlotRecord): (b: seq<byte>)
    ensures |b| == 12
  {
    PackU32(r.timestamp) + r.value
  }

  /** struct.unpack(dataValFmt, b) */
  function UnpackValue(b: seq<byte>): SlotRecord
    requires |b| == 12
  {
    SlotRecord(UnpackU32(b[..4]), b[4..])
  }

  /** Unpacking a packed key restores the archive id and the slot. */
  lemma UnpackPackKey(k: DataKey)
    ensures UnpackKey(PackKey(k)) == k
  {
    var b := PackKey(k);
    assert b[..4] == PackU32(k.archiveId) && b[4..] == PackU32(k.slot);
    UnpackPackU32(k.archiveId);
    UnpackPackU32(k.slot);
  }

  /** Every 8-byte row key is the packing of exactly one key. */
  lemma PackUnpackKey(b: seq<byte>)
    requires |b| == 8
    ensures PackKey(UnpackKey(b)) == b
  {
    PackUnpackU32(b[..4]);
    PackUnpackU32(b[4..]);
    assert b == b[..4] + b[4..];
  }

  /** Unpacking a packed value restores the timestamp and the value. */
  lemma UnpackPackValue(r: SlotRecord)
    ensures UnpackValue(PackValue(r)) == r
  {
    var b := PackValue(r);
    assert b[..4] == PackU32(r.timestamp) && b[4..] == r.value;
    UnpackPackU32(r.timestamp);
  }

  lemma PackUnpackValue(b: seq<byte>)
    requires |b| == 12
    ensures PackValue(UnpackValue(b)) == b
  {
    PackUnpackU32(b[..4]);
    assert b == b[..4] + b[4..];
  }

  /** HBase's row-key order: unsigned bytes, lexicographic, a proper prefix first. */
  predicate BytesLess(a: seq<byte>, b: seq<byte>) {
    |b| > 0 && (|a| == 0 || a[0] < b[0] || (a[0] == b[0] && BytesLess(a[1..], b[1..])))
  }

  /** The order of keys in the data table, as pairs. */
  predicate KeyLess(a: DataKey, b: DataKey) {
    a.archiveId < b.archiveId || (a.archiveId == b.archiveId && a.slot < b.slot)
  }

  lemma {:induction false} BytesLessConcat(a1: seq<byte>, a2: seq<byte>, b1: seq<byte>, b2: seq<byte>)
    requires |a1| == |b1| && |a2| == |b2|
    ensures BytesLess(a1 + a2, b1 + b2) <==> BytesLess(a1, b1) || (a1 == b1 && BytesLess(a2, b2))
  {
    if |a1| > 0 {
      BytesLessConcat(a1[1..], a2, b1[1..], b2);
      assert (a1 + a2)[1..] == a1[1..] + a2 && (b1 + b2)[1..] == b1[1..] + b2;
      assert a1 == b1 <==> a1[0] == b1[0] && a1[1..] == b1[1..] by {
        assert a1 == [a1[0]] + a1[1..] && b1 == [b1[0]] + b1[1..];
      }
    } else {
      assert a1 + a2 == a2 && b1 + b2 == b2;
    }
  }

  lemma BytesLessU32(x: u32, y: u32)
    ensures BytesLess(PackU32(x), PackU32(y)) <==> x < y
  {
    var a, b := PackU32(x), PackU32(y);
    UnpackPackU32(x);
    UnpackPackU32(y);
    var a1, b1 := a[1..], b[1..];
    var a2, b2 := a1[1..], b1[1..];
    var a3, b3 := a2[1..], b2[1..];
    assert BytesLess(a3, b3) <==> a[3] < b[3];
    assert BytesLess(a2, b2) <==> a[2] < b[2] || (a[2] == b[2] && BytesLess(a3, b3));
    assert BytesLess(a1, b1) <==> a[1] < b[1] || (a[1] == b[1] && BytesLess(a2, b2));
    assert BytesLess(a, b) <==>
      a[0] < b[0] || (a[0] == b[0] && (a[1] < b[1] || (a[1] == b[1] &&
        (a[2] < b[2] || (a[2] == b[2] && a[3] < b[3])))));
  }

  /** Packing preserves order, so a range scan over packed keys visits
      keys in (archive id, slot) order. */
  lemma PackKeyOrder(a: DataKey, b: DataKey)
    ensures BytesLess(PackKey(a), PackKey(b)) <==> KeyLess(a, b)
  {
    BytesLessConcat(PackU32(a.archiveId), PackU32(a.slot), PackU32(b.archiveId), PackU32(b.slot));
    BytesLessU32(a.archiveId, b.archiveId);
    BytesLessU32(a.slot, b.slot);
    if PackU32(a.archiveId) == PackU32(b.archiveId) {
      UnpackPackU32(a.archiveId);
      UnpackPackU32(b.archiveId);
    }
  }

  /** `scannerOpenWithStop(pack(id, lo), pack(id, hi))` returns exactly the
      keys of archive `id` whose slot lies in [lo, hi). */
  lemma ScanRangeIsSlotRange(k: DataKey, id: u32, lo: u32, hi: u32)
    ensures !BytesLess(PackKey(k), PackKey(DataKey(id, lo))) && BytesLess(PackKey(k), PackKey(DataKey(id, hi)))
            <==> k.archiveId == id && lo <= k.slot < hi
  {
    PackKeyOrder(k, DataKey(id, lo));
    PackKeyOrder(k, DataKey(id, hi));
  }
}
