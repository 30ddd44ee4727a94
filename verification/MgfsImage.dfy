/** An MGFS image: 4096-byte blocks, the region layout, the two bitmaps, the
    record table, and the extent chains that give each record its payload. */
module MgfsImage {
  import opened MgfsBytes

  type Block = b: seq<byte> | |b| == 4096 witness Zeros(4096)
  type Image = seq<Block>

  datatype Result<+T> = Ok(value: T) | Err

  const METADATA_CHECKSUM := 16
  const BITS_PER_BLOCK := 32576
  const RECORDS_PER_BLOCK := 21
  const LIST_MAGIC: u64 := 0x3154_5845_5346_474D
  const LIST_MAX := 126

  datatype Layout = Layout(
    allocStart: nat, allocBlocks: nat,
    recordBitmapStart: nat, recordBitmapBlocks: nat,
    tableStart: nat, tableBlocks: nat, recordCount: nat,
    dataStart: nat, dataBlocks: nat)

  /** The regions follow each other, end with the image, and the bitmaps are
      large enough for what they index. */
  ghost predicate Geometry(l: Layout, total: nat) {
    && total < 0x10_0000_0000_0000
    && l.allocStart == 1
    && l.recordBitmapStart == l.allocStart + l.allocBlocks
    && l.tableStart == l.recordBitmapStart + l.recordBitmapBlocks
    && l.dataStart == l.tableStart + l.tableBlocks
    && l.dataStart + l.dataBlocks == total
    && l.recordCount == RECORDS_PER_BLOCK * l.tableBlocks
    && l.dataBlocks <= BITS_PER_BLOCK * l.allocBlocks
    && l.recordCount <= BITS_PER_BLOCK * l.recordBitmapBlocks
  }

  predicate InData(l: Layout, p: int) {
    l.dataStart <= p < l.dataStart + l.dataBlocks
  }

  /** The images agree on every block outside [lo, hi). */
  ghost predicate SameOutside(a: Image, b: Image, lo: nat, hi: nat) {
    |a| == |b| && forall i :: 0 <= i < |a| && !(lo <= i < hi) ==> a[i] == b[i]
  }

  // ----- bitmaps -----

  predicate BitmapBit(img: Image, start: nat, bit: nat)
    requires start + bit / BITS_PER_BLOCK < |img|
  {
    Bit(img[start + bit / BITS_PER_BLOCK][24 + bit % BITS_PER_BLOCK / 8], bit % 8)
  }

  function WithBitmapBit(img: Image, start: nat, bit: nat, v: bool): (r: Image)
    requires start + bit / BITS_PER_BLOCK < |img|
    ensures |r| == |img|
  {
    var at, k := start + bit / BITS_PER_BLOCK, 24 + bit % BITS_PER_BLOCK / 8;
    img[at := img[at][k := WithBit(img[at][k], bit % 8, v)]]
  }

  lemma BitPosition(bit: nat, other: nat)
    requires bit / BITS_PER_BLOCK == other / BITS_PER_BLOCK
    requires bit % BITS_PER_BLOCK / 8 == other % BITS_PER_BLOCK / 8
    requires bit % 8 == other % 8
    ensures bit == other
  {
    ModOfMod(bit);
    ModOfMod(other);
  }

  lemma ModOfMod(bit: nat)
    ensures bit % BITS_PER_BLOCK % 8 == bit % 8
  {
    var q, r := bit / BITS_PER_BLOCK, bit % BITS_PER_BLOCK;
    assert bit == 8 * (4072 * q) + r;
  }

  /** Setting one bit changes that bit and nothing else: no other bit of any
      bitmap starting at the same block, and no byte of any other block. */
  lemma BitmapBitSet(img: Image, start: nat, bit: nat, v: bool, other: nat)
    requires start + bit / BITS_PER_BLOCK < |img| && start + other / BITS_PER_BLOCK < |img|
    ensures BitmapBit(WithBitmapBit(img, start, bit, v), start, other)
            == if other == bit then v else BitmapBit(img, start, other)
  {
    var at, k := start + bit / BITS_PER_BLOCK, 24 + bit % BITS_PER_BLOCK / 8;
    var at', k' := start + other / BITS_PER_BLOCK, 24 + other % BITS_PER_BLOCK / 8;
    if at == at' && k == k' {
      BitOfPutBit(img[at][k], bit % 8, v, other % 8);
      if other % 8 == bit % 8 {
        BitPosition(bit, other);
      }
    }
  }

  predicate IsAllocated(img: Image, l: Layout, p: int)
    requires Geometry(l, |img|) && InData(l, p)
  {
    DataBitInRange(l, |img|, p);
    BitmapBit(img, l.allocStart, p - l.dataStart)
  }

  lemma DataBitInRange(l: Layout, total: nat, p: int)
    requires Geometry(l, total) && InData(l, p)
    ensures (p - l.dataStart) / BITS_PER_BLOCK < l.allocBlocks
    ensures l.allocStart + (p - l.dataStart) / BITS_PER_BLOCK < total
  {
  }

  function WithAllocated(img: Image, l: Layout, p: int, v: bool): (r: Image)
    requires Geometry(l, |img|) && InData(l, p)
    ensures |r| == |img|
  {
    DataBitInRange(l, |img|, p);
    WithBitmapBit(img, l.allocStart, p - l.dataStart, v)
  }

  lemma AllocatedAfter(img: Image, l: Layout, p: int, v: bool)
    requires Geometry(l, |img|) && InData(l, p)
    ensures var r := WithAllocated(img, l, p, v);
            && SameOutside(img, r, l.allocStart, l.recordBitmapStart)
            && forall q :: InData(l, q) ==> IsAllocated(r, l, q) == if q == p then v else IsAllocated(img, l, q)
  {
    var r := WithAllocated(img, l, p, v);
    DataBitInRange(l, |img|, p);
    forall q | InData(l, q)
      ensures IsAllocated(r, l, q) == if q == p then v else IsAllocated(img, l, q)
    {
      DataBitInRange(l, |img|, q);
      BitmapBitSet(img, l.allocStart, p - l.dataStart, v, q - l.dataStart);
    }
  }

  // ----- records -----

  /** The slot is marked in the record bitmap. */
  predicate RecordBit(img: Image, l: Layout, slot: nat)
    requires Geometry(l, |img|) && slot < l.recordCount
  {
    SlotInMap(l, slot);
    BitmapBit(img, l.recordBitmapStart, slot)
  }

  lemma SlotInMap(l: Layout, slot: nat)
    requires l.recordCount <= BITS_PER_BLOCK * l.recordBitmapBlocks && slot < l.recordCount
    ensures slot / BITS_PER_BLOCK < l.recordBitmapBlocks
  {
  }

  function RecordAt(img: Image, l: Layout, slot: nat): (r: seq<byte>)
    requires Geometry(l, |img|) && slot < l.recordCount
    ensures |r| == RECORD_BYTES
  {
    var at := 24 + slot % RECORDS_PER_BLOCK * RECORD_BYTES;
    img[l.tableStart + slot / RECORDS_PER_BLOCK][at..at + RECORD_BYTES]
  }

  function WithRecord(img: Image, l: Layout, slot: nat, rec: seq<byte>): (r: Image)
    requires Geometry(l, |img|) && slot < l.recordCount && |rec| == RECORD_BYTES
    ensures |r| == |img|
  {
    var b, at := l.tableStart + slot / RECORDS_PER_BLOCK, 24 + slot % RECORDS_PER_BLOCK * RECORD_BYTES;
    img[b := img[b][..at] + rec + img[b][at + RECORD_BYTES..]]
  }

  lemma RecordAfter(img: Image, l: Layout, slot: nat, rec: seq<byte>, other: nat)
    requires Geometry(l, |img|) && slot < l.recordCount && |rec| == RECORD_BYTES && other < l.recordCount
    ensures RecordAt(WithRecord(img, l, slot, rec), l, other) == if other == slot then rec else RecordAt(img, l, other)
    ensures SameOutside(img, WithRecord(img, l, slot, rec), l.tableStart, l.dataStart)
  {
    var b, at := l.tableStart + slot / RECORDS_PER_BLOCK, 24 + slot % RECORDS_PER_BLOCK * RECORD_BYTES;
    var b', at' := l.tableStart + other / RECORDS_PER_BLOCK, 24 + other % RECORDS_PER_BLOCK * RECORD_BYTES;
    var blk := img[b][..at] + rec + img[b][at + RECORD_BYTES..];
    if b == b' {
      if other == slot {
        assert blk[at..at + RECORD_BYTES] == rec;
      } else {
        assert at' + RECORD_BYTES <= at || at + RECORD_BYTES <= at';
        Spliced(img[b], at, rec, at', RECORD_BYTES);
      }
    }
  }

  lemma Spliced(s: seq<byte>, at: nat, mid: seq<byte>, p: nat, n: nat)
    requires at + |mid| <= |s| && p + n <= |s|
    requires p + n <= at || at + |mid| <= p
    ensures (s[..at] + mid + s[at + |mid|..])[p..p + n] == s[p..p + n]
  {
  }

  // Byte offsets of the fields of a record.
  const TYPE := 0
  const FLAGS := 8
  const ID := 16
  const GENERATION := 24
  const SIZE := 32
  const EXTENT_COUNT := 40
  const INLINE_COUNT := 48
  const LIST_HEAD := 56
  const INLINE_EXTENTS := 64
  const RECORD_CHECKSUM := 184

  // ----- extents -----

  datatype Extent = Extent(logical: u64, physical: u64, count: u64, flags: u64)

  function ExtentAt(buf: seq<byte>, at: nat): Extent
    requires at + 32 <= |buf|
  {
    Extent(U64(buf, at), U64(buf, at + 8), U64(buf, at + 16), U64(buf, at + 24))
  }

  /** The physical blocks first, first + 1, ..., first + n - 1. */
  function Range(first: nat, n: nat): (s: seq<nat>)
    ensures |s| == n
  {
    seq(n, i => first + i)
  }

  function DataBlocks(es: seq<Extent>): seq<nat> {
    if es == [] then [] else Range(es[0].physical, es[0].count) + DataBlocks(es[1..])
  }

  function ListEntries(blk: Block): seq<Extent>
    requires U64(blk, 24) <= LIST_MAX
  {
    seq(U64(blk, 24), i requires 0 <= i < U64(blk, 24) => ExtentAt(blk, 64 + 32 * i))
  }

  predicate ListBlockOk(blk: Block) {
    U64(blk, 0) == LIST_MAGIC && 1 <= U64(blk, 24) <= LIST_MAX
  }

  function UpTo(n: nat): (s: set<nat>)
    ensures forall i :: i in s <==> 0 <= i < n
  {
    if n == 0 then {} else UpTo(n - 1) + {n - 1}
  }

  /** The extent-list chain from `list`: the extents in order and the list
      blocks visited; an error for a repeated, unreadable or malformed block. */
  function Chain(img: Image, list: nat, seen: set<nat>): Result<(seq<Extent>, seq<nat>)>
    decreases UpTo(|img|) - seen
  {
    if list == 0 then Ok(([], []))
    else if list in seen || list >= |img| || !ListBlockOk(img[list]) then Err
    else
      var rest := Chain(img, U64(img[list], 16), seen + {list});
      if rest.Err? then Err
      else Ok((ListEntries(img[list]) + rest.value.0, [list] + rest.value.1))
  }

  function InlineExtents(rec: seq<byte>): seq<Extent>
    requires |rec| == RECORD_BYTES && U64(rec, INLINE_COUNT) <= 4
  {
    var n := U64(rec, INLINE_COUNT);
    seq(n, i requires 0 <= i < n => ExtentAt(rec, INLINE_EXTENTS + 32 * i))
  }

  /** All extents of a record, inline ones first, and its list blocks. */
  function RecordExtents(img: Image, rec: seq<byte>): Result<(seq<Extent>, seq<nat>)>
    requires |rec| == RECORD_BYTES
  {
    if U64(rec, INLINE_COUNT) > 4 then Err
    else
      var chain := Chain(img, U64(rec, LIST_HEAD), {});
      if chain.Err? || |InlineExtents(rec) + chain.value.0| != U64(rec, EXTENT_COUNT) then Err
      else Ok((InlineExtents(rec) + chain.value.0, chain.value.1))
  }

  function BlockBytes(img: Image, bs: seq<nat>): seq<byte> {
    if bs == [] then [] else (if bs[0] < |img| then img[bs[0]] else []) + BlockBytes(img, bs[1..])
  }

  function Prefix(s: seq<byte>, n: nat): seq<byte> {
    if n < |s| then s[..n] else s
  }

  /** The bytes of a record as the updater reads them back. */
  function Payload(img: Image, rec: seq<byte>): Result<seq<byte>>
    requires |rec| == RECORD_BYTES
  {
    var ext := RecordExtents(img, rec);
    if ext.Err? || exists e :: e in ext.value.0 && e.flags !in {1, 2} then Err
    else Ok(Prefix(BlockBytes(img, DataBlocks(ext.value.0)), U64(rec, SIZE)))
  }

  /** Every block a record owns: its data blocks and its list blocks. */
  function Footprint(img: Image, rec: seq<byte>): seq<nat>
    requires |rec| == RECORD_BYTES
  {
    var ext := RecordExtents(img, rec);
    if ext.Err? then [] else DataBlocks(ext.value.0) + ext.value.1
  }
}
