/** A newly formatted image is accepted: by the checker whatever its label, by
    the boot reader exactly when it has none. */
module MgfsFresh {
  import opened Options
  import opened MgfsBytes
  import opened MgfsImage
  import opened MgfsFormat
  import opened MgfsLayout
  import opened MgfsBootReader
  import opened MgfsBitmapCheck
  import opened MgfsOwnerCheck
  import opened MgfsFormatter
  import opened MgfsBootInit
  import opened MgfsGraphVolume
  import G = MgfsGraphCheck

  // ----- the checker's superblock test -----

  /** All zero, or a label of at most 63 bytes with zeros behind it and its own checksum. */
  predicate LabelOk(b: Block) {
    || (forall i :: 200 <= i < 288 ==> b[i] == 0)
    || (&& U64(b, 200) == LABEL_MAGIC && U64(b, 208) <= 63 && b[279] == 0
        && (forall i :: 216 + U64(b, 208) <= i < 279 ==> b[i] == 0)
        && Checked(b[200..288], 80))
  }

  predicate CheckerSuperOk(b: Block) {
    LabelOk(b) && HeaderOk(b)
  }

  // ----- the superblock -----

  lemma SuperFields(b: Block, total: u64, uuid: (u64, u64), time: u64, l: Layout, name: seq<byte>)
    requires FreshSuper(b, total, uuid, time, l, name)
    ensures HeaderOk(b) && U64(b, 16) == 2 && U64(b, 40) == total && U64(b, 48) == 0 && U64(b, 56) == 0
    ensures U64(b, 88) == ROOT && U64(b, 96) == 2 && StoredLayout(b) == LayoutWords(l)
    ensures b[200..288] == LabelArea(name) && forall i :: 288 <= i < 4096 ==> b[i] == 0
  {
    hide Crc, U64, Superblock, LabelArea, Checked;
    var ws := SuperWords(total, uuid, time, l);
    SuperReads(b, ws, LabelArea(name));
    assert U64(b, 8 * 0) == ws[0] && U64(b, 8 * 1) == ws[1] && U64(b, 8 * 2) == ws[2] && U64(b, 8 * 3) == ws[3]
           && U64(b, 8 * 4) == ws[4];
    assert U64(b, 8 * 5) == ws[5] && U64(b, 8 * 6) == ws[6] && U64(b, 8 * 7) == ws[7] && U64(b, 8 * 11) == ws[11]
           && U64(b, 8 * 12) == ws[12];
    assert U64(b, 8 * 13) == ws[13] && U64(b, 8 * 14) == ws[14] && U64(b, 8 * 15) == ws[15] && U64(b, 8 * 16) == ws[16]
           && U64(b, 8 * 17) == ws[17];
    assert U64(b, 8 * 18) == ws[18] && U64(b, 8 * 19) == ws[19] && U64(b, 8 * 20) == ws[20] && U64(b, 8 * 21) == ws[21];
  }

  lemma ExtensionReads(ext: seq<byte>, magic: u64, length: u64, name: seq<byte>)
    requires |name| <= 63 && ext == PutWord(magic) + PutWord(length) + name + Zeros(64 - |name|) + Zeros(8)
    ensures U64(ext, 0) == magic && U64(ext, 8) == length && ext[0] == magic % 256
    ensures forall i :: 16 + |name| <= i < 80 ==> ext[i] == 0
  {
    assert ext[0..8] == PutWord(magic) && ext[8..16] == PutWord(length);
    ReadWord(ext, 0, magic);
    ReadWord(ext, 8, length);
    assert ext[0] == PutWord(magic)[0];
  }

  /** The label extension as the checker reads it. */
  lemma LabelReads(area: seq<byte>, name: seq<byte>)
    requires ValidLabel(name) && name != [] && area == LabelArea(name)
    ensures U64(area, 0) == LABEL_MAGIC && U64(area, 8) == |name| && area[79] == 0 && area[0] != 0 && Checked(area, 80)
    ensures forall i :: 16 + |name| <= i < 80 ==> area[i] == 0
  {
    hide Crc, PutWord, U64;
    var ext := PutWord(LABEL_MAGIC) + PutWord(|name|) + name + Zeros(64 - |name|) + Zeros(8);
    var crc := Crc(W64(ext, 80, 0));
    ExtensionReads(ext, LABEL_MAGIC, |name|, name);
    ChecksummedIsChecked(ext, 80);
    ReadAfterWrite(ext, 80, crc, 0);
    ReadAfterWrite(ext, 80, crc, 8);
    assert area[..80] == ext[..80];
    forall i | 0 <= i < 80 ensures area[i] == ext[i] {
      assert area[..80][i] == ext[..80][i];
    }
  }

  lemma Shifted(b: Block, area: seq<byte>, at: nat)
    requires b[200..288] == area && at + 8 <= 88
    ensures U64(b, 200 + at) == U64(area, at)
  {
    assert b[200 + at..200 + at + 8] == area[at..at + 8];
  }

  lemma AreaByte(b: Block, area: seq<byte>, i: nat)
    requires b[200..288] == area && 200 <= i < 288
    ensures b[i] == area[i - 200]
  {
    assert b[i] == b[200..288][i - 200];
  }

  lemma NamedAccepted(b: Block, area: seq<byte>, name: seq<byte>)
    requires ValidLabel(name) && name != [] && area == LabelArea(name) && b[200..288] == area
    ensures LabelOk(b) && b[200] != 0
  {
    hide LabelArea, Crc, U64, Checked;
    LabelReads(area, name);
    Shifted(b, area, 0);
    Shifted(b, area, 8);
    AreaByte(b, area, 200);
    AreaByte(b, area, 279);
    forall i | 216 + U64(b, 208) <= i < 279 ensures b[i] == 0 {
      AreaByte(b, area, i);
    }
  }

  lemma LabelAccepted(b: Block, name: seq<byte>)
    requires ValidLabel(name) && b[200..288] == LabelArea(name)
    ensures LabelOk(b)
    ensures (forall i :: 200 <= i < 288 ==> b[i] == 0) <==> name == []
  {
    hide Crc, U64, Checked;
    if name != [] {
      NamedAccepted(b, LabelArea(name), name);
    } else {
      forall i | 200 <= i < 288 ensures b[i] == 0 {
        AreaByte(b, Zeros(88), i);
      }
    }
  }

  /** The checker accepts every label. */
  lemma CheckerAcceptsSuper(b: Block, total: u64, uuid: (u64, u64), time: u64, l: Layout, name: seq<byte>)
    requires FreshSuper(b, total, uuid, time, l, name)
    ensures CheckerSuperOk(b) && U64(b, 16) == 2 && U64(b, 88) == ROOT
  {
    hide U64, HeaderOk, LabelOk, Superblock, LabelArea;
    SuperFields(b, total, uuid, time, l, name);
    LabelAccepted(b, name);
  }

  /** The boot reader accepts exactly the empty one. */
  lemma BootAcceptsSuper(b: Block, total: u64, blocks: nat, uuid: (u64, u64), time: u64, l: Layout, name: seq<byte>)
    requires FreshSuper(b, total, uuid, time, l, name) && CalculateLayout(total) == Ok(l) && 64 <= total <= blocks
             && l.tableBlocks >= 1
    requires total < 0x10_0000_0000_0000
    ensures SuperblockOk(b, blocks) <==> name == []
    ensures name == [] ==> BootLayout(U64(b, 40), StoredLayout(b)) == Ok(l)
  {
    hide U64, HeaderOk, LabelOk, Superblock, LabelArea, CalculateLayout, BootLayout;
    SuperFields(b, total, uuid, time, l, name);
    LayoutsAgree(total);
    LabelAccepted(b, name);
    if name == [] {
      forall i | 200 <= i < 4096 ensures b[i] == 0 {
      }
    }
  }

  // ----- behind the superblock -----

  lemma RootAt(img: Image, l: Layout)
    requires Geometry(l, |img|) && FreshTable(img, l) && l.tableBlocks >= 1
    ensures IsRoot(RecordAt(img, l, 0))
  {
    hide U64, Checked, IsRecord;
    assert IsTable(img[l.tableStart], 0);
  }

  lemma RootAccepted(rec: seq<byte>, l: Layout)
    requires IsRoot(rec) && l.recordCount >= 1
    ensures RecordAccepted(rec, 2) && SlotFine(l, rec, 2) && !Inline(rec) && ExtentKind(rec) == 2
  {
    hide Crc, U64, Checked;
  }

  lemma {:induction false} NoOtherSlot(img: Image, l: Layout, id: nat, from: nat)
    requires Geometry(l, |img|) && FreshBitmaps(img, l) && 1 <= from <= l.recordCount
    ensures SlotOf(img, l, id, from).None?
    decreases l.recordCount - from
  {
    hide U64, RecordAt, RecordBit, FreshBitmaps;
    if from < l.recordCount {
      FreshBits(img, l, from);
      NoOtherSlot(img, l, id, from + 1);
    }
  }

  lemma OnlyRoot(img: Image, l: Layout, id: nat)
    requires Geometry(l, |img|) && FreshBitmaps(img, l) && FreshTable(img, l) && l.tableBlocks >= 1
    ensures SlotOf(img, l, id, 0) == if id == ROOT then Some(0) else None
  {
    hide U64, RecordAt, RecordBit, FreshBitmaps, FreshTable;
    RootAt(img, l);
    FreshBits(img, l, 0);
    NoOtherSlot(img, l, id, 1);
  }

  lemma RootFine(img: Image, l: Layout, rec: seq<byte>)
    requires Geometry(l, |img|) && IsRoot(rec) && l.recordCount >= 1
    ensures RecordFine(img, l, rec, ROOT) && RecordClaims(img, l, rec, ROOT) == {}
  {
    hide Crc, U64, Checked;
    RootAccepted(rec, l);
    assert InlineExtents(rec) == [];
    var none: seq<Extent> := [];
    assert none + none == none;
    assert Covered(none) == 0 && Placed(l, none, 0, 2);
    assert ChainExtents(img, l, U64(rec, LIST_HEAD), ROOT, 2, 0, 0, 0) == Some(([], []));
    assert CheckedExtents(img, l, rec, ROOT, 2) == Some(([], []));
    NoClaims(ROOT);
  }

  lemma IdIsFine(img: Image, l: Layout, id: u64)
    requires Geometry(l, |img|) && FreshBitmaps(img, l) && FreshTable(img, l) && l.tableBlocks >= 1
    ensures IdFine(img, l, id) && IdClaims(img, l, id) == {}
  {
    hide U64, RecordAt, RecordBit, FreshBitmaps, FreshTable, RecordFine, RecordClaims, SlotOf;
    OnlyRoot(img, l, id);
    RootAt(img, l);
    RootFine(img, l, RecordAt(img, l, 0));
  }

  lemma {:induction false} NothingClaimed(img: Image, l: Layout, n: u64)
    requires Geometry(l, |img|) && FreshBitmaps(img, l) && FreshTable(img, l) && l.tableBlocks >= 1
    ensures AllClaims(img, l, n) == {}
  {
    hide FreshBitmaps, FreshTable, IdFine, IdClaims;
    if n > 0 {
      NothingClaimed(img, l, n - 1);
      IdIsFine(img, l, n);
    }
  }

  lemma FreshSlots(img: Image, l: Layout)
    requires Geometry(l, |img|) && FreshBitmaps(img, l) && FreshTable(img, l) && l.tableBlocks >= 1
    ensures SlotsFine(img, l, 2, l.recordCount) && RecordsOk(img, l, 2, l.recordCount)
  {
    hide U64, RecordAt, RecordBit, FreshBitmaps, FreshTable, RecordAccepted, SlotFine;
    RootAt(img, l);
    RootAccepted(RecordAt(img, l, 0), l);
    forall slot | 0 <= slot < l.recordCount ensures RecordBit(img, l, slot) == (slot == 0) {
      FreshBits(img, l, slot);
    }
  }

  lemma FreshMetadata(img: Image, l: Layout)
    requires Geometry(l, |img|) && FreshBitmaps(img, l) && FreshTable(img, l)
    ensures BitmapOk(img, l.allocStart, l.allocBlocks, 1)
            && BitmapOk(img, l.recordBitmapStart, l.recordBitmapBlocks, 2) && TablesOk(img, l)
  {
    hide U64, Checked, ValidBits, BlockBit;
  }

  lemma IdsAreFine(img: Image, l: Layout)
    requires Geometry(l, |img|) && FreshBitmaps(img, l) && FreshTable(img, l) && l.tableBlocks >= 1
    ensures IdsFine(img, l, l.recordCount)
  {
    hide FreshBitmaps, FreshTable, IdFine;
    forall id: u64 | 1 <= id <= l.recordCount ensures IdFine(img, l, id) {
      IdIsFine(img, l, id);
    }
  }

  // ----- the checker's directory pass -----

  lemma EmptyGraph(v: G.Volume)
    requires v.root in v.records && forall id :: id in v.records ==> id == v.root && v.records[id] == G.Dir([], true)
    ensures G.Sound(v)
  {
    assert G.Descends(v, map[]);
  }

  lemma RootVolume(img: Image, l: Layout)
    requires Geometry(l, |img|) && l.recordCount >= 1
    requires forall id: nat :: SlotOf(img, l, id, 0) == if id == ROOT then Some(0) else None
    requires var rec := RecordAt(img, l, 0); Readable(rec) && U64(rec, TYPE) == 2 && U64(rec, SIZE) == 0
    ensures var v := VolumeOf(img, l, ROOT);
            && v.root == ROOT && v.root in v.records
            && forall id :: id in v.records ==> id == v.root && v.records[id] == G.Dir([], true)
  {
    hide U64, RecordAt, SlotOf, Readable, Decoded, StreamOk;
    DecodedNothing();
  }

  lemma DecodedNothing()
    ensures Decoded([]) == ([], true)
  {
  }

  lemma FreshGraph(img: Image, l: Layout)
    requires Geometry(l, |img|) && FreshBitmaps(img, l) && FreshTable(img, l) && l.tableBlocks >= 1
    ensures G.Sound(VolumeOf(img, l, ROOT))
  {
    hide U64, RecordAt, RecordBit, FreshBitmaps, FreshTable, SlotOf;
    RootAt(img, l);
    RootAccepted(RecordAt(img, l, 0), l);
    forall id: nat ensures SlotOf(img, l, id, 0) == if id == ROOT then Some(0) else None {
      OnlyRoot(img, l, id);
    }
    RootVolume(img, l);
    hide VolumeOf;
    EmptyGraph(VolumeOf(img, l, ROOT));
  }

  lemma CheckerAcceptsFresh(img: Image, l: Layout)
    requires Geometry(l, |img|) && FreshBitmaps(img, l) && FreshTable(img, l) && l.tableBlocks >= 1
    ensures Sound(img, l, 2)
  {
    hide FreshBitmaps, FreshTable, AllClaims, SlotsFine, BitmapOk, IdsFine;
    FreshMetadata(img, l);
    FreshSlots(img, l);
    IdsAreFine(img, l);
    NothingClaimed(img, l, l.recordCount);
  }

  lemma BootAcceptsFresh(img: Image, l: Layout, uuid: (u64, u64), time: u64, name: seq<byte>)
    requires 64 <= |img| < 0x10_0000_0000_0000 && CalculateLayout(|img|) == Ok(l) && Geometry(l, |img|)
             && IsFresh(img, l, uuid, time, name)
    requires l.tableBlocks >= 1
    ensures Accepted(img) <==> name == []
  {
    hide U64, SuperblockOk, CalculateLayout, BootLayout, FreshSuper, FreshBitmaps, FreshTable, VolumeOk;
    BootAcceptsSuper(img[0], |img|, |img|, uuid, time, l, name);
    FreshOpens(img, l);
    if name == [] {
      SuperTotal(img[0], |img|, uuid, time, l, name);
      assert img[..|img|] == img;
    }
  }

  /** A newly formatted image of any size has nothing for the checker to report,
      and the boot reader opens it exactly when it has no label. */
  lemma FreshAccepted(img: Image, l: Layout, uuid: (u64, u64), time: u64, name: seq<byte>)
    requires 64 <= |img| < 0x10_0000_0000_0000 && CalculateLayout(|img|) == Ok(l) && Geometry(l, |img|)
             && IsFresh(img, l, uuid, time, name)
    ensures CheckerSuperOk(img[0]) && U64(img[0], 16) == 2 && U64(img[0], 88) == ROOT
    ensures Sound(img, l, 2) && G.Sound(VolumeOf(img, l, ROOT))
    ensures Accepted(img) <==> name == []
  {
    assert l.tableBlocks >= 1;
    hide *;
    assert FreshSuper(img[0], |img|, uuid, time, l, name) && FreshBitmaps(img, l) && FreshTable(img, l) by {
      FreshParts(img, l, uuid, time, name);
    }
    CheckerAcceptsSuper(img[0], |img|, uuid, time, l, name);
    CheckerAcceptsFresh(img, l);
    BootAcceptsFresh(img, l, uuid, time, name);
    FreshGraph(img, l);
  }

  lemma FreshParts(img: Image, l: Layout, uuid: (u64, u64), time: u64, name: seq<byte>)
    requires Geometry(l, |img|) && IsFresh(img, l, uuid, time, name)
    ensures |img| > 0 && FreshSuper(img[0], |img|, uuid, time, l, name) && FreshBitmaps(img, l) && FreshTable(img, l)
  {
  }

  lemma SuperTotal(b: Block, total: u64, uuid: (u64, u64), time: u64, l: Layout, name: seq<byte>)
    requires FreshSuper(b, total, uuid, time, l, name)
    ensures U64(b, 40) == total && U64(b, 16) == 2 && U64(b, 88) == ROOT
  {
    SuperFields(b, total, uuid, time, l, name);
  }

  lemma FreshOpens(img: Image, l: Layout)
    requires Geometry(l, |img|) && FreshBitmaps(img, l) && FreshTable(img, l) && l.tableBlocks >= 1
    ensures VolumeOk(img, l, 2, ROOT)
  {
    hide U64, FreshBitmaps, FreshTable, SlotOf, RecordAt, BitmapOk, TablesOk, RecordsOk;
    FreshMetadata(img, l);
    FreshSlots(img, l);
    OnlyRoot(img, l, ROOT);
    RootAt(img, l);
  }
}
