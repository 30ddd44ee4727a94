/** An update as the boot reader sees it: a volume that opens still opens after a
    record is rewritten and the checksums are renewed, and reading the record by its
    ID gives the new payload. */
module MgfsUpdateBoot {
  import opened Options
  import opened MgfsBytes
  import opened MgfsImage
  import opened MgfsOwnership
  import opened MgfsFormat
  import opened MgfsLayout
  import opened MgfsUpdater
  import opened MgfsBootReader
  import opened MgfsOwnerCheck
  import opened MgfsBootInit
  import opened MgfsDirectory
  import opened MgfsBootLookup

  // ----- renewing checksums -----

  lemma RenewedKeeps(b: Block)
    ensures Renewed(b)[24..] == b[24..] && U64(Renewed(b), 0) == U64(b, 0) && U64(Renewed(b), 8) == U64(b, 8)
    ensures Checked(Renewed(b), METADATA_CHECKSUM)
  {
    hide Crc, U64, Checked;
    var crc := Crc(W64(b, METADATA_CHECKSUM, 0));
    ChecksummedIsChecked(b, METADATA_CHECKSUM);
    ReadAfterWrite(b, METADATA_CHECKSUM, crc, 0);
    ReadAfterWrite(b, METADATA_CHECKSUM, crc, 8);
    assert W64(b, METADATA_CHECKSUM, crc)[24..] == b[24..];
  }

  lemma RenewedSame(b: Block)
    requires Checked(b, METADATA_CHECKSUM)
    ensures Renewed(b) == b
  {
    hide Crc, Checked, Checksummed;
    CheckedIsCanonical(b, METADATA_CHECKSUM);
  }

  /** The image as every caller leaves it: the rewritten table block, the record bitmap
      and the allocation bitmap with new checksums. */
  function Finished(img: Image, l: Layout, table: nat): (r: Image)
    ensures |r| == |img|
  {
    var tables := Refreshed(img, l.tableStart + table, l.tableStart + table + 1);
    Refreshed(Refreshed(tables, l.recordBitmapStart, l.tableStart), l.allocStart, l.recordBitmapStart)
  }

  /** The images differ in block headers before the data area only. */
  ghost predicate SameContent(img: Image, img': Image, l: Layout)
    requires Geometry(l, |img|)
  {
    && |img'| == |img|
    && (forall p :: 0 <= p < l.dataStart ==> img'[p][24..] == img[p][24..])
    && forall p :: l.dataStart <= p < |img| ==> img'[p] == img[p]
  }

  lemma FinishedBlock(img: Image, l: Layout, table: nat, p: nat)
    requires Geometry(l, |img|) && table < l.tableBlocks && p < |img|
    ensures Finished(img, l, table)[p]
         == if l.allocStart <= p < l.tableStart || p == l.tableStart + table then Renewed(img[p]) else img[p]
  {
    hide Renewed;
  }

  lemma FinishedContent(img: Image, l: Layout, table: nat)
    requires Geometry(l, |img|) && table < l.tableBlocks
    ensures SameContent(img, Finished(img, l, table), l)
  {
    hide Renewed, Finished;
    forall p: nat | p < |img| ensures Finished(img, l, table)[p][24..] == img[p][24..] {
      FinishedBlock(img, l, table, p);
      RenewedKeeps(img[p]);
    }
    forall p: nat | l.dataStart <= p < |img| ensures Finished(img, l, table)[p] == img[p] {
      FinishedBlock(img, l, table, p);
    }
  }

  lemma SameRecord(img: Image, img': Image, l: Layout, slot: nat)
    requires Geometry(l, |img|) && SameContent(img, img', l) && slot < l.recordCount
    ensures RecordAt(img', l, slot) == RecordAt(img, l, slot)
  {
    var t, at := l.tableStart + slot / RECORDS_PER_BLOCK, 24 + slot % RECORDS_PER_BLOCK * RECORD_BYTES;
    assert t < l.dataStart;
    BehindHeader(img[t], at);
    BehindHeader(img'[t], at);
  }

  lemma BehindHeader(b: Block, at: nat)
    requires 24 <= at && at + RECORD_BYTES <= 4096
    ensures b[at..at + RECORD_BYTES] == b[24..][at - 24..at - 24 + RECORD_BYTES]
  {
  }

  lemma SameBitmapBit(img: Image, img': Image, l: Layout, start: nat, bit: nat)
    requires Geometry(l, |img|) && SameContent(img, img', l) && start + bit / BITS_PER_BLOCK < l.dataStart
    ensures BitmapBit(img', start, bit) == BitmapBit(img, start, bit)
  {
    var b, k := start + bit / BITS_PER_BLOCK, bit % BITS_PER_BLOCK / 8;
    assert img'[b][24 + k] == img'[b][24..][k] && img[b][24 + k] == img[b][24..][k];
  }

  lemma SameBits(img: Image, img': Image, l: Layout)
    requires Geometry(l, |img|) && SameContent(img, img', l)
    ensures forall p :: InData(l, p) ==> IsAllocated(img', l, p) == IsAllocated(img, l, p)
    ensures forall t :: 0 <= t < l.recordCount ==> RecordBit(img', l, t) == RecordBit(img, l, t)
  {
    hide BitmapBit, SameContent;
    assert |img'| == |img| by { SameLength(img, img', l); }
    forall p | InData(l, p) ensures IsAllocated(img', l, p) == IsAllocated(img, l, p) {
      DataBitInRange(l, |img|, p);
      SameBitmapBit(img, img', l, l.allocStart, p - l.dataStart);
    }
    forall t | 0 <= t < l.recordCount ensures RecordBit(img', l, t) == RecordBit(img, l, t) {
      SlotInMap(l, t);
      SameBitmapBit(img, img', l, l.recordBitmapStart, t);
    }
  }

  lemma SameLength(img: Image, img': Image, l: Layout)
    requires Geometry(l, |img|) && SameContent(img, img', l)
    ensures |img'| == |img|
  {
  }

  // ----- the rewrite survives -----

  /** New checksums change nothing that a rewrite promises. */
  lemma RewrittenSame(a: Image, b: Image, c: Image, l: Layout, slot: nat, kind: u64, id: u64, payload: seq<byte>)
    requires Geometry(l, |a|) && |b| == |a| && Rewritten(a, b, l, slot, kind, id, payload) && SameContent(b, c, l)
    ensures |c| == |a| && Rewritten(a, c, l, slot, kind, id, payload)
  {
    hide RecordAt, Payload, RecordExtents, WellWritten, RecordUpdated, IsAllocated, Crc, OwnsCleanly, Consistent,
      RecordBit, Rewrites;
    forall t | 0 <= t < l.recordCount ensures RecordAt(c, l, t) == RecordAt(b, l, t) {
      SameRecord(b, c, l, t);
    }
    var rec := RecordAt(b, l, slot);
    WellWrittenFrame(b, c, l, rec, kind, id);
    CleanRecord(b, l, slot);
    RecordFrame(b, c, rec);
    StillConsistent(b, c, l, slot);
  }

  lemma CleanRecord(img: Image, l: Layout, slot: nat)
    requires Consistent(img, l) && slot < l.recordCount
    ensures RecordExtents(img, RecordAt(img, l, slot)).Ok?
    ensures forall b :: b in Footprint(img, RecordAt(img, l, slot)) ==> InData(l, b)
  {
    hide RecordExtents, IsAllocated;
    assert OwnsCleanly(img, l, RecordAt(img, l, slot));
  }

  lemma StillConsistent(b: Image, c: Image, l: Layout, slot: nat)
    requires Consistent(b, l) && Geometry(l, |b|) && SameContent(b, c, l) && slot < l.recordCount
    requires forall t :: 0 <= t < l.recordCount ==> RecordAt(c, l, t) == RecordAt(b, l, t)
    ensures Consistent(c, l)
    ensures forall t :: 0 <= t < l.recordCount && t != slot ==>
            Payload(c, RecordAt(c, l, t)) == Payload(b, RecordAt(b, l, t))
  {
    hide RecordAt, Payload, RecordExtents, IsAllocated, RecordBit;
    var rec := RecordAt(b, l, slot);
    assert OwnsCleanly(b, l, rec);
    RecordFrame(b, c, rec);
    SameBits(b, c, l);
    forall p | InData(l, p) ensures p in Footprint(b, rec) ==> IsAllocated(b, l, p) {
      assert p in Footprint(b, rec) ==> Owns(b, l, slot, p);
    }
    RewriteKeepsImage(b, c, l, slot, Footprint(b, rec));
  }

  // ----- the boot reader's lookup -----

  /** The record the updater names by an ID is the first one with that ID. */
  lemma {:induction false} NamedFirst(img: Image, l: Layout, id: u64, from: nat)
    requires Geometry(l, |img|) && from <= l.recordCount && RecordSlot(img, l, id, from).Ok?
    ensures var slot := RecordSlot(img, l, id, from).value;
            forall t :: from <= t < slot ==> U64(RecordAt(img, l, t), ID) != id
    decreases l.recordCount - from
  {
    hide RecordAt, U64, Geometry;
    if from < l.recordCount && U64(RecordAt(img, l, from), ID) != id {
      NamedFirst(img, l, id, from + 1);
    }
  }

  /** After the rewrite the boot reader finds the record under its ID. */
  lemma FoundById(a: Image, c: Image, l: Layout, kind: u64, id: u64, payload: seq<byte>)
    requires Geometry(l, |a|) && |c| == |a| && RecordSlot(a, l, id, 0).Ok?
    requires var slot := RecordSlot(a, l, id, 0).value;
             Rewritten(a, c, l, slot, kind, id, payload) && RecordBit(c, l, slot)
    ensures SlotOf(c, l, id, 0) == Some(RecordSlot(a, l, id, 0).value)
  {
    hide RecordAt, U64, RecordBit, Payload, WellWritten, Consistent, RecordSlot, SlotOf;
    var slot := RecordSlot(a, l, id, 0).value;
    NamedFirst(a, l, id, 0);
    forall t | 0 <= t < slot ensures U64(RecordAt(c, l, t), ID) != id {
      assert RecordAt(c, l, t) == RecordAt(a, l, t);
    }
    SlotFound(c, l, id, slot, 0);
  }

  /** The rewrite does not put another ID into the root's slot. */
  predicate RootSafe(img: Image, l: Layout, id: u64, root: u64)
    requires Geometry(l, |img|) && RecordSlot(img, l, id, 0).Ok?
  {
    SlotOf(img, l, root, 0) == Some(RecordSlot(img, l, id, 0).value) ==> id == root
  }

  /** The root is still found, and still a directory. */
  lemma RootStays(a: Image, c: Image, l: Layout, kind: u64, id: u64, payload: seq<byte>, root: u64)
    requires Geometry(l, |a|) && |c| == |a| && RecordSlot(a, l, id, 0).Ok? && RootOk(a, l, root)
    requires Rewritten(a, c, l, RecordSlot(a, l, id, 0).value, kind, id, payload)
    requires forall t :: 0 <= t < l.recordCount ==> RecordBit(c, l, t) == RecordBit(a, l, t)
    requires kind == 2 || SlotOf(a, l, root, 0).value != RecordSlot(a, l, id, 0).value
    requires RootSafe(a, l, id, root)
    ensures RootOk(c, l, root)
  {
    hide RecordAt, U64, RecordBit, Payload, WellWritten, Consistent, RecordSlot, SlotOf;
    var slot, old' := RecordSlot(a, l, id, 0).value, SlotOf(a, l, root, 0).value;
    NamedFirst(a, l, id, 0);
    SlotHolds(a, l, id, 0);
    SlotIs(a, l, root, 0);
    if slot == old' {
      SlotFound(c, l, root, old', 0);
    } else {
      assert RecordAt(c, l, old') == RecordAt(a, l, old');
      SlotFound(c, l, root, old', 0);
    }
  }

  /** Otherwise the root is gone, unless its ID is in the table twice. */
  lemma RootGone(a: Image, c: Image, l: Layout, kind: u64, id: u64, payload: seq<byte>, root: u64)
    requires Geometry(l, |a|) && |c| == |a| && RecordSlot(a, l, id, 0).Ok?
    requires Rewritten(a, c, l, RecordSlot(a, l, id, 0).value, kind, id, payload)
    requires !RootSafe(a, l, id, root) && !HasId(a, l, root, RecordSlot(a, l, id, 0).value)
    ensures !RootOk(c, l, root)
  {
    hide RecordAt, U64, RecordBit, Payload, WellWritten, Consistent, RecordSlot, SlotOf;
    if SlotOf(c, l, root, 0).Some? {
      SlotIs(c, l, root, 0);
    }
  }

  // ----- the volume still opens -----

  /** Every check behind the superblock still passes. */
  lemma VolumeStays(a: Image, b: Image, l: Layout, kind: u64, id: u64, payload: seq<byte>, minor: u64, root: u64)
    requires Geometry(l, |a|) && |b| == |a| && id != 0 && kind in {1, 2} && RecordSlot(a, l, id, 0).Ok?
    requires Replaced(a, b, l, RecordSlot(a, l, id, 0).value, kind, id, payload)
    requires VolumeOk(a, l, minor, root) && RootSafe(a, l, id, root)
    requires kind == 2 || SlotOf(a, l, root, 0).value != RecordSlot(a, l, id, 0).value
    ensures VolumeOk(Finished(b, l, RecordSlot(a, l, id, 0).value / RECORDS_PER_BLOCK), l, minor, root)
  {
    hide RecordAt, U64, RecordBit, Rewritten, MetadataKept, RecordSlot, SlotOf, Finished, SameContent, RecordsOk,
      TablesOk, BitmapOk, RootOk;
    var slot := RecordSlot(a, l, id, 0).value;
    var c := Finished(b, l, slot / RECORDS_PER_BLOCK);
    FinishedContent(b, l, slot / RECORDS_PER_BLOCK);
    RewrittenSame(a, b, c, l, slot, kind, id, payload);
    BitsStay(a, b, c, l, slot, kind, id, payload);
    HeadersStay(a, b, l, slot, kind, id, payload);
    RecordsStay(a, c, l, slot, kind, id, payload, minor);
    RootStays(a, c, l, kind, id, payload, root);
  }

  lemma BitsStay(a: Image, b: Image, c: Image, l: Layout, slot: nat, kind: u64, id: u64, payload: seq<byte>)
    requires Geometry(l, |a|) && |b| == |a| && slot < l.recordCount && MetadataKept(a, b, l, slot)
             && SameContent(b, c, l)
    ensures |c| == |a| && forall t :: 0 <= t < l.recordCount ==> RecordBit(c, l, t) == RecordBit(a, l, t)
  {
    SameBits(b, c, l);
    forall t | 0 <= t < l.recordCount ensures RecordBit(b, l, t) == RecordBit(a, l, t) {
      SlotInMap(l, t);
    }
  }

  lemma HeadersStay(a: Image, b: Image, l: Layout, slot: nat, kind: u64, id: u64, payload: seq<byte>)
    requires Geometry(l, |a|) && |b| == |a| && slot < l.recordCount && MetadataKept(a, b, l, slot)
    requires BitmapOk(a, l.recordBitmapStart, l.recordBitmapBlocks, 2) && TablesOk(a, l)
    ensures var c := Finished(b, l, slot / RECORDS_PER_BLOCK);
            BitmapOk(c, l.recordBitmapStart, l.recordBitmapBlocks, 2) && TablesOk(c, l) && c[0] == a[0]
  {
    hide Renewed, Checked, U64, Finished;
    var t := slot / RECORDS_PER_BLOCK;
    var c := Finished(b, l, t);
    forall p: nat | l.recordBitmapStart <= p < l.tableStart ensures BitmapBlockOk(c[p], 2, p - l.recordBitmapStart) {
      FinishedBlock(b, l, t, p);
      assert BitmapBlockOk(a[p], 2, p - l.recordBitmapStart);
      RenewedSame(a[p]);
    }
    forall p: nat | l.tableStart <= p < l.dataStart ensures TableOk(c[p], p - l.tableStart) {
      FinishedBlock(b, l, t, p);
      assert TableOk(a[p], p - l.tableStart);
      if p == l.tableStart + t {
        RenewedKeeps(b[p]);
        SameHeader(a[p], b[p]);
      }
    }
    FinishedBlock(b, l, t, 0);
  }

  lemma SameHeader(a: Block, b: Block)
    requires a[..24] == b[..24]
    ensures U64(a, 0) == U64(b, 0) && U64(a, 8) == U64(b, 8)
  {
    assert a[0..8] == a[..24][0..8] && b[0..8] == b[..24][0..8];
    assert a[8..16] == a[..24][8..16] && b[8..16] == b[..24][8..16];
  }

  lemma RecordsStay(a: Image, c: Image, l: Layout, slot: nat, kind: u64, id: u64, payload: seq<byte>, minor: u64)
    requires Geometry(l, |a|) && |c| == |a| && id != 0 && kind in {1, 2} && Rewritten(a, c, l, slot, kind, id, payload)
    requires RecordsOk(a, l, minor, l.recordCount)
    requires forall t :: 0 <= t < l.recordCount ==> RecordBit(c, l, t) == RecordBit(a, l, t)
    ensures RecordsOk(c, l, minor, l.recordCount)
  {
    hide RecordAt, RecordBit, WellWritten, RecordUpdated, Consistent, Payload, RecordAccepted;
    forall t | 0 <= t < l.recordCount && RecordBit(c, l, t) ensures RecordAccepted(RecordAt(c, l, t), minor) {
      assert RecordAccepted(RecordAt(a, l, t), minor);
      if t == slot {
        AcceptedHas(RecordAt(a, l, t), minor);
        WrittenRecordAccepted(c, l, RecordAt(a, l, t), RecordAt(c, l, t), kind, id, |payload|, minor);
      }
    }
  }

  lemma AcceptedHas(rec: seq<byte>, minor: u64)
    requires |rec| == RECORD_BYTES && RecordAccepted(rec, minor)
    ensures Permissions(rec) != 0 && !(minor == 1 && Restricted(rec))
  {
  }

  /** The image is a whole volume that opens, laid out as the updater has it. */
  ghost predicate Opens(img: Image, l: Layout) {
    && 64 <= |img| < 0x10_0000_0000_0000 && CalculateLayout(|img|) == Ok(l)
    && SuperblockOk(img[0], |img|) && U64(img[0], 40) == |img|
    && Geometry(l, |img|) && VolumeOk(img, l, U64(img[0], 16), U64(img[0], 88))
  }

  lemma OpensAccepted(img: Image, l: Layout)
    requires Opens(img, l)
    ensures Accepted(img)
  {
    hide VolumeOk, HeaderOk, U64;
    BootLayoutOnly(|img|, StoredLayout(img[0]));
    LayoutPartitions(|img|);
    BootLayoutIs(|img|, StoredLayout(img[0]), l);
    assert img[..|img|] == img;
  }

  lemma BootLayoutIs(total: u64, words: seq<nat>, l: Layout)
    requires 64 <= total < 0x10_0000_0000_0000 && |words| == 9 && BootLayout(total, words).Ok?
             && CalculateLayout(total) == Ok(l)
    ensures BootLayout(total, words) == Ok(l)
  {
    LayoutsAgree(total);
  }

  /** The boot reader finds the record by its ID and reads the payload. */
  ghost predicate ReadsBack(img: Image, l: Layout, id: u64, kind: u64, payload: seq<byte>)
    requires Geometry(l, |img|)
  {
    && SlotOf(img, l, id, 0).Some?
    && var rec := RecordAt(img, l, SlotOf(img, l, id, 0).value);
    && RecordAccepted(rec, 2) && U64(rec, TYPE) == kind && U64(rec, SIZE) == |payload|
    && (payload != [] ==>
          var bytes := if kind == 1 then FileBytes(img, l, rec) else MappedBytes(img, l, rec, kind);
          bytes.Some? && |payload| <= |bytes.value| && bytes.value[..|payload|] == payload)
  }

  /** A rewrite with renewed checksums leaves a consistent volume that opens. */
  lemma StillOpens(a: Image, b: Image, l: Layout, kind: u64, id: u64, payload: seq<byte>)
    requires Opens(a, l) && id != 0 && kind in {1, 2} && RecordSlot(a, l, id, 0).Ok?
    requires Replaced(a, b, l, RecordSlot(a, l, id, 0).value, kind, id, payload)
    requires RootSafe(a, l, id, U64(a[0], 88))
    requires kind == 2 || U64(RecordAt(a, l, RecordSlot(a, l, id, 0).value), TYPE) == 1
    ensures var slot := RecordSlot(a, l, id, 0).value;
            var c := Finished(b, l, slot / RECORDS_PER_BLOCK);
            && slot / RECORDS_PER_BLOCK < l.tableBlocks && |b| == |a|
            && Opens(c, l) && Consistent(c, l) && Rewritten(a, c, l, slot, kind, id, payload)
            && RecordBit(c, l, slot) == RecordBit(a, l, slot)
  {
    hide VolumeOk, SuperblockOk, MetadataKept, Rewritten, RecordSlot, RecordAt, U64, Finished, SlotOf, RecordBit,
      SameContent, Consistent;
    var slot := RecordSlot(a, l, id, 0).value;
    var c := Finished(b, l, slot / RECORDS_PER_BLOCK);
    RewrittenLength(a, b, l, slot, kind, id, payload);
    VolumeParts(a, l, U64(a[0], 16), U64(a[0], 88));
    VolumeStays(a, b, l, kind, id, payload, U64(a[0], 16), U64(a[0], 88));
    HeadersStay(a, b, l, slot, kind, id, payload);
    FinishedContent(b, l, slot / RECORDS_PER_BLOCK);
    RewrittenSame(a, b, c, l, slot, kind, id, payload);
    RewrittenLength(a, c, l, slot, kind, id, payload);
    BitsStay(a, b, c, l, slot, kind, id, payload);
  }

  lemma RewrittenLength(a: Image, b: Image, l: Layout, slot: nat, kind: u64, id: u64, payload: seq<byte>)
    requires Rewritten(a, b, l, slot, kind, id, payload)
    ensures |b| == |a| && Consistent(b, l)
  {
  }

  lemma VolumeParts(a: Image, l: Layout, minor: u64, root: u64)
    requires Geometry(l, |a|) && VolumeOk(a, l, minor, root)
    ensures BitmapOk(a, l.recordBitmapStart, l.recordBitmapBlocks, 2) && TablesOk(a, l)
    ensures SlotOf(a, l, root, 0).Some? && U64(RecordAt(a, l, SlotOf(a, l, root, 0).value), TYPE) == 2
  {
  }

  /** A file is never the root. */
  lemma FileRootSafe(a: Image, l: Layout, id: u64)
    requires Opens(a, l) && RecordSlot(a, l, id, 0).Ok? && U64(RecordAt(a, l, RecordSlot(a, l, id, 0).value), TYPE) == 1
    ensures RootSafe(a, l, id, U64(a[0], 88))
  {
    hide VolumeOk, SuperblockOk, U64, RecordAt, SlotOf, RecordSlot;
    VolumeParts(a, l, U64(a[0], 16), U64(a[0], 88));
  }

  lemma RecordReadsBack(a: Image, c: Image, l: Layout, id: u64, kind: u64, payload: seq<byte>)
    requires Opens(a, l) && Opens(c, l) && id != 0 && kind in {1, 2} && |c| == |a| && RecordSlot(a, l, id, 0).Ok?
    requires var slot := RecordSlot(a, l, id, 0).value;
             Rewritten(a, c, l, slot, kind, id, payload) && RecordBit(a, l, slot) && RecordBit(c, l, slot)
    ensures ReadsBack(c, l, id, kind, payload)
  {
    hide SuperblockOk, U64, RecordAt, SlotOf, RecordSlot, RecordBit, Rewritten, RecordAccepted, TablesOk, BitmapOk,
      RootOk, MappedBytes;
    var slot := RecordSlot(a, l, id, 0).value;
    AcceptedHas(RecordAt(a, l, slot), U64(a[0], 16));
    FoundById(a, c, l, kind, id, payload);
    BootReadsPayload(a, c, l, slot, kind, id, payload);
    AcceptedInline(RecordAt(c, l, slot));
  }

  lemma AcceptedInline(rec: seq<byte>)
    requires |rec| == RECORD_BYTES && RecordAccepted(rec, 2)
    ensures U64(rec, INLINE_COUNT) <= 2
  {
  }

  /** When a file can be rewritten it is one. */
  lemma FittingFile(a: Image, l: Layout, reserved: set<nat>, slot: nat, size: nat)
    requires Geometry(l, |a|) && slot < l.recordCount && FileFits(a, l, reserved, slot, size)
    ensures U64(RecordAt(a, l, slot), TYPE) == 1
  {
  }

  lemma FileFinishes(a: Image, b: Image, l: Layout, reserved: set<nat>, id: u64, payload: seq<byte>)
    requires Opens(a, l) && Geometry(l, |a|) && id != 0 && RecordSlot(a, l, id, 0).Ok?
    requires Replaced(a, b, l, RecordSlot(a, l, id, 0).value, 1, id, payload)
    requires FileFits(a, l, reserved, RecordSlot(a, l, id, 0).value, |payload|)
    ensures var slot := RecordSlot(a, l, id, 0).value;
            var c := Finished(b, l, slot / RECORDS_PER_BLOCK);
            && slot / RECORDS_PER_BLOCK < l.tableBlocks && |b| == |a| && Geometry(l, |c|)
            && Opens(c, l) && Consistent(c, l) && (RecordBit(a, l, slot) ==> ReadsBack(c, l, id, 1, payload))
  {
    hide Opens, Geometry, Replaced, Rewritten, FileFits, RecordSlot, RecordAt, RecordBit, Finished, ReadsBack,
      RootSafe, Consistent, U64;
    FittingFile(a, l, reserved, RecordSlot(a, l, id, 0).value, |payload|);
    FileRootSafe(a, l, id);
    StillOpens(a, b, l, 1, id, payload);
    if RecordBit(a, l, RecordSlot(a, l, id, 0).value) {
      RecordReadsBack(a, Finished(b, l, RecordSlot(a, l, id, 0).value / RECORDS_PER_BLOCK), l, id, 1, payload);
    }
  }

  /** Rewriting a file and renewing the checksums, as the callers of the updater do:
      the volume opens again, and reading the ID gives the payload. */
  method RewriteFile(u: Updater, id: u64, payload: seq<byte>) returns (ok: bool)
    requires Consistent(u.img, u.l) && Opens(u.img, u.l) && id != 0
    modifies u
    ensures ok <==>
              var slot := RecordSlot(old(u.img), u.l, id, 0);
              slot.Ok? && FileFits(old(u.img), u.l, old(u.reserved), slot.value, |payload|)
    ensures ok ==>
              && Consistent(u.img, u.l) && Opens(u.img, u.l)
              && (RecordBit(old(u.img), u.l, RecordSlot(old(u.img), u.l, id, 0).value) ==>
                  ReadsBack(u.img, u.l, id, 1, payload))
  {
    hide Consistent, Opens, Geometry, Replaced, FileFits, RecordSlot, Refreshed, ReadsBack, RecordBit;
    HasGeometry(u.img, u.l);
    ghost var a := u.img;
    var table := u.ReplaceFilePayload(id, payload);
    if table.Err? {
      return false;
    }
    ghost var b := u.img;
    FileFinishes(a, b, u.l, old(u.reserved), id, payload);
    FinishTable(u, table.value);
    ok := true;
  }

  /** What every caller of the updater does last. */
  method FinishTable(u: Updater, table: nat)
    requires Geometry(u.l, |u.img|) && table < u.l.tableBlocks
    modifies u`img
    ensures u.img == Finished(old(u.img), u.l, table)
  {
    u.RefreshTable(table);
    u.RefreshRecordBitmap();
    u.RefreshAllocation();
  }

  /** The same for a directory; here the ID must not be missing from the table while
      the root is in the slot numbered by it. */
  method RewriteDirectory(u: Updater, id: u64, payload: seq<byte>) returns (ok: bool)
    requires Consistent(u.img, u.l) && Opens(u.img, u.l) && id != 0
    modifies u
    ensures ok <==>
              var slot := RecordSlot(old(u.img), u.l, id, 0);
              slot.Ok? && DirectoryFits(old(u.img), u.l, old(u.reserved), slot.value, |payload|)
    ensures ok && RootSafe(old(u.img), u.l, id, U64(old(u.img)[0], 88)) ==>
              && Consistent(u.img, u.l) && Opens(u.img, u.l)
              && (RecordBit(old(u.img), u.l, RecordSlot(old(u.img), u.l, id, 0).value) ==>
                  ReadsBack(u.img, u.l, id, 2, payload) && Lists(u.img, u.l, id, payload))
  {
    hide Consistent, Opens, Geometry, Replaced, DirectoryFits, RecordSlot, Refreshed, RootSafe, Finished, U64,
      ReadsBack, Lists, RecordBit;
    OpensSome(u.img, u.l);
    HasGeometry(u.img, u.l);
    ghost var a := u.img;
    var table := u.ReplaceDirectoryPayload(id, payload);
    if table.Err? {
      return false;
    }
    ghost var b := u.img;
    DirectoryFinishes(a, b, u.l, id, payload);
    FinishTable(u, table.value);
    ok := true;
  }

  lemma OpensSome(img: Image, l: Layout)
    requires Opens(img, l)
    ensures |img| >= 64
  {
  }

  lemma DirectoryFinishes(a: Image, b: Image, l: Layout, id: u64, payload: seq<byte>)
    requires Opens(a, l) && Geometry(l, |a|) && |a| >= 64 && id != 0 && RecordSlot(a, l, id, 0).Ok?
    requires Replaced(a, b, l, RecordSlot(a, l, id, 0).value, 2, id, payload)
    ensures var slot := RecordSlot(a, l, id, 0).value;
            var c := Finished(b, l, slot / RECORDS_PER_BLOCK);
            && slot / RECORDS_PER_BLOCK < l.tableBlocks && |b| == |a| && Geometry(l, |c|)
            && (RootSafe(a, l, id, U64(a[0], 88)) ==>
                  && Opens(c, l) && Consistent(c, l)
                  && (RecordBit(a, l, slot) ==> ReadsBack(c, l, id, 2, payload) && Lists(c, l, id, payload)))
  {
    hide VolumeOk, SuperblockOk, MetadataKept, RecordSlot, RecordAt, U64, Finished, SlotOf, RecordBit, Consistent,
      RootSafe, Opens, ReadsBack, Lists;
    var c := Finished(b, l, RecordSlot(a, l, id, 0).value / RECORDS_PER_BLOCK);
    if RootSafe(a, l, id, U64(a[0], 88)) {
      StillOpens(a, b, l, 2, id, payload);
      if RecordBit(a, l, RecordSlot(a, l, id, 0).value) {
        RecordReadsBack(a, c, l, id, 2, payload);
        ReadIsListed(c, l, id, payload);
      }
    }
  }

  /** Looking up a name in the directory on the volume is looking it up in the payload. */
  ghost predicate Lists(img: Image, l: Layout, id: u64, payload: seq<byte>)
    requires Geometry(l, |img|)
  {
    forall name: Name ::
      ChildOf(img, l, id, name) == RecordNamed(img, l, if |name| > 255 then None else BootLookup(payload, name))
  }

  lemma ReadIsListed(img: Image, l: Layout, id: u64, payload: seq<byte>)
    requires Geometry(l, |img|) && ReadsBack(img, l, id, 2, payload)
    ensures Lists(img, l, id, payload)
  {
    hide U64, RecordAt, SlotOf, BootLookup, MappedBytes, RecordAccepted;
    var rec := RecordAt(img, l, SlotOf(img, l, id, 0).value);
    AcceptedInline(rec);
    assert DirectoryStream(img, l, rec) == payload;
    forall name: Name
      ensures ChildOf(img, l, id, name)
              == RecordNamed(img, l, if |name| > 255 then None else BootLookup(payload, name)) {
    }
  }

  /** So a rewritten directory of acceptable entries is, on the volume, the finite map its
      payload is: each name leads to the record bound to it, if that is on the volume. */
  lemma ListsMap(img: Image, l: Layout, id: u64, payload: seq<byte>, name: Name)
    requires Geometry(l, |img|) && Lists(img, l, id, payload)
    requires Split(payload).Ok? && AllBootOk(Split(payload).value)
    ensures ChildOf(img, l, id, name)
            == RecordNamed(img, l, if |name| <= 255 && name in MapOf(payload) then Some(MapOf(payload)[name]) else None)
  {
    hide ChildOf, RecordNamed, BootLookup, MapOf, Split;
    LookupsAgree(payload, name);
    MapMember(payload, name);
  }
}
