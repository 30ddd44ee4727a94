/** Opening a volume: the boot reader's validation of the superblock, the record
    bitmap, every table block and every allocated record. */
module MgfsBootInit {
  import opened Options
  import opened MgfsBytes
  import opened MgfsImage
  import opened MgfsFormat
  import opened MgfsLayout
  import opened MgfsBootReader
  import opened MgfsBitmapCheck
  import opened MgfsOwnerCheck
  import opened MgfsFormatter

  /** The layout words stored in a superblock. */
  function StoredLayout(b: Block): (ws: seq<nat>)
    ensures |ws| == 9
  {
    [U64(b, 104), U64(b, 112), U64(b, 120), U64(b, 128), U64(b, 136), U64(b, 144), U64(b, 152), U64(b, 160),
     U64(b, 168)]
  }

  predicate HeaderOk(b: Block) {
    && U64(b, 0) == SUPER_MAGIC && U64(b, 8) == 1 && (U64(b, 16) == 2 || U64(b, 16) == 1)
    && U64(b, 24) == 200 && U64(b, 32) == 4096 && Checked(b[..200], SUPER_CHECKSUM)
  }

  /** The superblock checks, on a partition of `blocks` readable blocks. */
  predicate SuperblockOk(b: Block, blocks: nat) {
    && HeaderOk(b) && 64 <= U64(b, 40) <= blocks
    && BootLayout(U64(b, 40), StoredLayout(b)).Ok?
    && U64(b, 48) == 0 && U64(b, 56) == 0 && U64(b, 96) >= 2
    && 1 <= U64(b, 88) <= BootLayout(U64(b, 40), StoredLayout(b)).value.recordCount
    && forall i :: 200 <= i < 4096 ==> b[i] == 0
  }

  predicate TableOk(b: Block, index: nat) {
    U64(b, 0) == 3 && U64(b, 8) == index && Checked(b, METADATA_CHECKSUM)
  }

  ghost predicate TablesOk(img: Image, l: Layout)
    requires Geometry(l, |img|)
  {
    forall p :: l.tableStart <= p < l.dataStart ==> TableOk(img[p], p - l.tableStart)
  }

  ghost predicate RecordsOk(img: Image, l: Layout, minor: u64, n: nat)
    requires Geometry(l, |img|) && n <= l.recordCount
  {
    forall slot :: 0 <= slot < n && RecordBit(img, l, slot) ==> RecordAccepted(RecordAt(img, l, slot), minor)
  }

  ghost predicate RootOk(img: Image, l: Layout, root: u64)
    requires Geometry(l, |img|)
  {
    SlotOf(img, l, root, 0).Some? && U64(RecordAt(img, l, SlotOf(img, l, root, 0).value), TYPE) == 2
  }

  /** The volume passes every check behind the superblock. */
  ghost predicate VolumeOk(img: Image, l: Layout, minor: u64, root: u64)
    requires Geometry(l, |img|)
  {
    && BitmapOk(img, l.recordBitmapStart, l.recordBitmapBlocks, 2)
    && TablesOk(img, l) && RecordsOk(img, l, minor, l.recordCount) && RootOk(img, l, root)
  }

  /** The volume described by the superblock of a partition passes every check. */
  ghost predicate Accepted(disk: Image)
    requires |disk| < 0x10_0000_0000_0000
  {
    && |disk| >= 1 && SuperblockOk(disk[0], |disk|)
    && var total, l := U64(disk[0], 40), BootLayout(U64(disk[0], 40), StoredLayout(disk[0])).value;
    && Geometry(l, total) && VolumeOk(disk[..total], l, U64(disk[0], 16), U64(disk[0], 88))
  }

  // ----- the record bitmap -----

  predicate PlainBit(s: seq<byte>, n: nat)
    requires n / 8 < |s|
  {
    Bit(s[n / 8], n % 8)
  }

  lemma PlainSet(s: seq<byte>, n: nat, other: nat)
    requires n / 8 < |s| && other / 8 < |s|
    ensures PlainBit(s[n / 8 := WithBit(s[n / 8], n % 8, true)], other) == (other == n || PlainBit(s, other))
  {
    if other / 8 == n / 8 {
      BitOfPutBit(s[n / 8], n % 8, true, other % 8);
    }
  }

  /** The slots before n are packed into the in-memory bitmap. */
  ghost predicate SlotsPacked(img: Image, l: Layout, packed: seq<byte>, n: nat)
    requires Geometry(l, |img|) && n <= l.recordCount
  {
    && |packed| == (l.recordCount + 7) / 8
    && forall slot :: 0 <= slot < l.recordCount ==> (PlainBit(packed, slot) <==> slot < n && RecordBit(img, l, slot))
  }

  lemma PackStep(img: Image, l: Layout, packed: seq<byte>, packed': seq<byte>, slot: nat)
    requires Geometry(l, |img|) && slot < l.recordCount && SlotsPacked(img, l, packed, slot)
    requires packed' == if RecordBit(img, l, slot) then packed[slot / 8 := WithBit(packed[slot / 8], slot % 8, true)]
             else packed
    ensures SlotsPacked(img, l, packed', slot + 1)
  {
    hide RecordBit;
    forall other | 0 <= other < l.recordCount ensures PlainBit(packed', other) <==>
      other < slot + 1 && RecordBit(img, l, other) {
      if RecordBit(img, l, slot) {
        PlainSet(packed, slot, other);
      }
    }
  }

  lemma SlotBit(img: Image, l: Layout, i: nat, k: nat)
    requires Geometry(l, |img|) && k < BITS_PER_BLOCK && i * BITS_PER_BLOCK + k < l.recordCount
    ensures l.recordBitmapStart + i < |img|
    ensures RecordBit(img, l, i * BITS_PER_BLOCK + k) == Bit(img[l.recordBitmapStart + i][24 + k / 8], k % 8)
  {
    var slot := i * BITS_PER_BLOCK + k;
    assert slot / BITS_PER_BLOCK == i && slot % BITS_PER_BLOCK == k;
    ModOfMod(slot);
  }

  /** Pack the bits of one bitmap block. */
  method PackBlock(img: Image, l: Layout, i: nat, packed: array<byte>)
    requires Geometry(l, |img|) && i * BITS_PER_BLOCK <= l.recordCount && l.recordBitmapStart + i < |img|
    requires SlotsPacked(img, l, packed[..], i * BITS_PER_BLOCK)
    modifies packed
    ensures SlotsPacked(img, l, packed[..], if l.recordCount < (i + 1) * BITS_PER_BLOCK then l.recordCount
                        else (i + 1) * BITS_PER_BLOCK)
  {
    hide RecordBit;
    var block, first := img[l.recordBitmapStart + i], i * BITS_PER_BLOCK;
    var slots := if l.recordCount - first > BITS_PER_BLOCK then BITS_PER_BLOCK else l.recordCount - first;
    for k := 0 to slots
      invariant SlotsPacked(img, l, packed[..], first + k)
    {
      ghost var before := packed[..];
      SlotBit(img, l, i, k);
      if Bit(block[24 + k / 8], k % 8) {
        var target := first + k;
        packed[target / 8] := WithBit(packed[target / 8], target % 8, true);
        assert packed[..] == before[target / 8 := WithBit(before[target / 8], target % 8, true)];
      }
      PackStep(img, l, before, packed[..], first + k);
    }
  }

  method LoadRecordBitmap(img: Image, l: Layout) returns (ok: bool, packed: array<byte>)
    requires Geometry(l, |img|) && (l.recordBitmapBlocks - 1) * BITS_PER_BLOCK < l.recordCount
    ensures ok <==> BitmapOk(img, l.recordBitmapStart, l.recordBitmapBlocks, 2)
    ensures ok ==> SlotsPacked(img, l, packed[..], l.recordCount)
  {
    hide BitmapBlockOk, RecordBit;
    packed := new byte[(l.recordCount + 7) / 8](_ => 0);
    NothingPacked(img, l, packed[..]);
    for i := 0 to l.recordBitmapBlocks
      invariant BitmapOk(img, l.recordBitmapStart, i, 2)
      invariant SlotsPacked(img, l, packed[..], if l.recordCount < i * BITS_PER_BLOCK then l.recordCount
                            else i * BITS_PER_BLOCK)
    {
      if !BitmapBlockOk(img[l.recordBitmapStart + i], 2, i) {
        return false, packed;
      }
      PackBlock(img, l, i, packed);
    }
    ok := true;
  }

  lemma NothingPacked(img: Image, l: Layout, packed: seq<byte>)
    requires Geometry(l, |img|) && |packed| == (l.recordCount + 7) / 8 && forall i :: 0 <= i < |packed| ==>
             packed[i] == 0
    ensures SlotsPacked(img, l, packed, 0)
  {
    hide RecordBit;
    forall slot | 0 <= slot < l.recordCount ensures !PlainBit(packed, slot) {
      NoBits(slot % 8);
    }
  }

  // ----- tables and records -----

  /** Every table block and every allocated record in it. */
  method ValidateTables(img: Image, l: Layout, packed: array<byte>, minor: u64) returns (ok: bool)
    requires Geometry(l, |img|) && SlotsPacked(img, l, packed[..], l.recordCount)
    ensures ok <==> TablesOk(img, l) && RecordsOk(img, l, minor, l.recordCount)
  {
    hide TableOk, RecordAccepted, RecordBit, RecordAt;
    for table := 0 to l.tableBlocks
      invariant forall p :: l.tableStart <= p < l.tableStart + table ==> TableOk(img[p], p - l.tableStart)
      invariant RecordsOk(img, l, minor, 21 * table)
    {
      if !TableOk(img[l.tableStart + table], table) {
        return false;
      }
      for k := 0 to 21
        invariant RecordsOk(img, l, minor, 21 * table + k)
      {
        var slot := table * 21 + k;
        assert PlainBit(packed[..], slot) == RecordBit(img, l, slot);
        if Bit(packed[slot / 8], slot % 8) && !RecordAccepted(RecordAt(img, l, slot), minor) {
          return false;
        }
      }
    }
    ok := true;
  }

  /** The first allocated record with the ID, table by table. */
  method ReadRecord(img: Image, l: Layout, packed: array<byte>, id: u64) returns (r: Option<seq<byte>>)
    requires Geometry(l, |img|) && SlotsPacked(img, l, packed[..], l.recordCount)
    ensures r == if SlotOf(img, l, id, 0).Some? then Some(RecordAt(img, l, SlotOf(img, l, id, 0).value)) else None
  {
    hide RecordBit, RecordAt, U64;
    for table := 0 to l.tableBlocks
      invariant SlotOf(img, l, id, 0) == SlotOf(img, l, id, 21 * table)
    {
      for k := 0 to 21
        invariant SlotOf(img, l, id, 0) == SlotOf(img, l, id, 21 * table + k)
      {
        var slot := table * 21 + k;
        assert PlainBit(packed[..], slot) == RecordBit(img, l, slot);
        if Bit(packed[slot / 8], slot % 8) && U64(RecordAt(img, l, slot), ID) == id {
          return Some(RecordAt(img, l, slot));
        }
      }
    }
    r := None;
  }

  /** Open a volume; it succeeds exactly on an accepted one. */
  method Init(disk: Image) returns (ok: bool)
    requires |disk| < 0x10_0000_0000_0000
    ensures ok <==> Accepted(disk)
  {
    if |disk| == 0 || !SuperblockOk(disk[0], |disk|) {
      return false;
    }
    var total := U64(disk[0], 40);
    BootLayoutOnly(total, StoredLayout(disk[0]));
    LayoutPartitions(total);
    var l := BootLayout(total, StoredLayout(disk[0])).value;
    assert (l.recordBitmapBlocks - 1) * BITS_PER_BLOCK < l.recordCount;
    hide *;
    ok := InitVolume(disk[..total], l, U64(disk[0], 16), U64(disk[0], 88));
  }

  method InitVolume(img: Image, l: Layout, minor: u64, root: u64) returns (ok: bool)
    requires Geometry(l, |img|) && (l.recordBitmapBlocks - 1) * BITS_PER_BLOCK < l.recordCount
    ensures ok <==> VolumeOk(img, l, minor, root)
  {
    hide BitmapOk, TablesOk, RecordsOk, SlotOf, RecordAt, U64, SlotsPacked;
    var packed;
    ok, packed := LoadRecordBitmap(img, l);
    if ok {
      ok := ValidateTables(img, l, packed, minor);
    }
    if ok {
      var rec := ReadRecord(img, l, packed, root);
      ok := rec.Some? && U64(rec.value, TYPE) == 2;
    }
  }
}
