/** The formatter: superblock, bitmaps and record table of a new image, and why
    the boot reader and the checker accept what it writes. */
module MgfsFormatter {
  import opened MgfsBytes
  import opened MgfsImage
  import opened MgfsFormat
  import opened MgfsLayout
  import opened MgfsBootReader
  import opened MgfsBitmapCheck
  import opened MgfsOwnerCheck

  // ----- bitmap blocks -----

  predicate BlockBit(b: seq<byte>, bit: nat)
    requires |b| == 4096 && bit < BITS_PER_BLOCK
  {
    Bit(b[24 + bit / 8], bit % 8)
  }

  /** A bitmap block whose first `valid` bits are clear, the very first set if
      reserved, and every bit past them set. */
  ghost predicate IsBitmap(b: Block, kind: u64, index: u64, valid: nat, reserve: bool) {
    && U64(b, 0) == kind && U64(b, 8) == index && Checked(b, METADATA_CHECKSUM)
    && forall bit :: 0 <= bit < BITS_PER_BLOCK ==> (BlockBit(b, bit) <==> bit >= valid || (reserve && bit == 0))
  }

  lemma {:induction false} FullByte(b: nat, n: nat, k: nat)
    requires b == Pow2(n) - 1 && k < n
    ensures Bit(b, k)
  {
    assert Pow2(n) == 2 * Pow2(n - 1);
    if k > 0 {
      assert b / 2 == Pow2(n - 1) - 1;
      FullByte(b / 2, n - 1, k - 1);
    }
  }

  ghost predicate Cleared(b: seq<byte>, n: nat)
    requires |b| == 4096
  {
    forall bit :: 0 <= bit < BITS_PER_BLOCK ==> (BlockBit(b, bit) <==> bit >= n)
  }

  lemma BitChanged(b: seq<byte>, bit: nat, v: bool, other: nat)
    requires |b| == 4096 && bit < BITS_PER_BLOCK && other < BITS_PER_BLOCK
    ensures BlockBit(b[24 + bit / 8 := WithBit(b[24 + bit / 8], bit % 8, v)], other) == if other == bit then v
            else BlockBit(b, other)
  {
    if other / 8 == bit / 8 {
      BitOfPutBit(b[24 + bit / 8], bit % 8, v, other % 8);
    }
  }

  lemma ClearStep(b: seq<byte>, bit: nat)
    requires |b| == 4096 && bit < BITS_PER_BLOCK && Cleared(b, bit)
    ensures Cleared(b[24 + bit / 8 := WithBit(b[24 + bit / 8], bit % 8, false)], bit + 1)
  {
    var b' := b[24 + bit / 8 := WithBit(b[24 + bit / 8], bit % 8, false)];
    forall other | 0 <= other < BITS_PER_BLOCK ensures BlockBit(b', other) <==> other >= bit + 1 {
      BitChanged(b, bit, false, other);
    }
  }

  /** A zeroed block with its kind and index, then ones, then the valid bits
      cleared one by one, and the checksum last. */
  method InitializeBitmapBlock(kind: u64, index: u64, valid: nat, reserve: bool) returns (b: Block)
    requires valid <= BITS_PER_BLOCK
    ensures IsBitmap(b, kind, index, valid, reserve)
  {
    hide Crc;
    var header := PutHeader(3, [kind, index]);
    var block := new byte[4096];
    for i := 0 to 4096
      invariant forall j :: 0 <= j < i ==> block[j] == if j < 24 then header[j] else 255
    {
      block[i] := if i < 24 then header[i] else 255;
    }
    AllOnes(block[..]);
    for bit := 0 to valid
      invariant block[..24] == header && Cleared(block[..], bit)
    {
      ghost var before := block[..];
      block[24 + bit / 8] := WithBit(block[24 + bit / 8], bit % 8, false);
      assert block[..] == before[24 + bit / 8 := WithBit(before[24 + bit / 8], bit % 8, false)];
      ClearStep(before, bit);
    }
    ghost var cleared := block[..];
    if reserve {
      block[24] := WithBit(block[24], 0, true);
      assert block[..] == cleared[24 := WithBit(cleared[24], 0, true)];
      forall bit | 0 <= bit < BITS_PER_BLOCK ensures BlockBit(block[..], bit) == (bit == 0 || BlockBit(cleared, bit)) {
        BitChanged(cleared, 0, true, bit);
      }
    }
    b := Checksummed(block[..], METADATA_CHECKSUM);
    Finalized(block[..], kind, index);
    SameBits(b, block[..]);
  }

  lemma SameBits(b: seq<byte>, c: seq<byte>)
    requires |b| == |c| == 4096 && b[24..] == c[24..]
    ensures forall bit :: 0 <= bit < BITS_PER_BLOCK ==> BlockBit(b, bit) == BlockBit(c, bit)
  {
    forall bit | 0 <= bit < BITS_PER_BLOCK ensures BlockBit(b, bit) == BlockBit(c, bit) {
      assert b[24..][bit / 8] == c[24..][bit / 8];
    }
  }

  lemma AllOnes(b: seq<byte>)
    requires |b| == 4096 && forall j :: 24 <= j < 4096 ==> b[j] == 255
    ensures Cleared(b, 0)
  {
    forall bit | 0 <= bit < BITS_PER_BLOCK ensures BlockBit(b, bit) {
      Pow2Of8(Eight(bit));
      FullByte(b[24 + bit / 8], Eight(bit), bit % 8);
    }
  }

  /** The checksum goes into the header and changes nothing behind it. */
  lemma Finalized(block: seq<byte>, kind: u64, index: u64)
    requires |block| == 4096 && block[..24] == Words([kind, index] + ZeroWords(1))
    ensures var b := Checksummed(block, METADATA_CHECKSUM);
            U64(b, 0) == kind && U64(b, 8) == index && Checked(b, METADATA_CHECKSUM) && b[24..] == block[24..]
  {
    hide Crc, Words;
    var crc := Crc(W64(block, METADATA_CHECKSUM, 0));
    ChecksummedIsChecked(block, METADATA_CHECKSUM);
    ReadAfterWrite(block, METADATA_CHECKSUM, crc, 0);
    ReadAfterWrite(block, METADATA_CHECKSUM, crc, 8);
    var ws := [kind, index] + ZeroWords(1);
    WordAt(ws, 0);
    WordAt(ws, 1);
    assert block[0..8] == Words(ws)[0..8];
    assert block[8..16] == Words(ws)[8..16];
  }

  // ----- the record table -----

  const ROOT: u64 := 1
  const ROOT_FLAGS: u64 := 0xE_0000_0000

  /** The empty root directory. */
  ghost predicate IsRoot(rec: seq<byte>) {
    IsRecord(rec, 2, ROOT_FLAGS, ROOT, 1, 0, [], 0)
  }

  ghost predicate IsTable(b: Block, index: u64) {
    && U64(b, 0) == 3 && U64(b, 8) == index && Checked(b, METADATA_CHECKSUM)
    && (index == 0 ==> IsRoot(b[24..24 + RECORD_BYTES]))
  }

  method BuildTableBlock(index: u64) returns (b: Block)
    ensures IsTable(b, index)
  {
    hide Crc, Record, Words;
    var header := PutHeader(3, [3, index]);
    var body := Zeros(4072);
    if index == 0 {
      var root := BuildRecord(2, ROOT_FLAGS, ROOT, 1, 0, [], 0);
      RecordReads(2, ROOT_FLAGS, ROOT, 1, 0, [], 0);
      body := root + body[RECORD_BYTES..];
      assert body[..RECORD_BYTES] == root;
    }
    var block := header + body;
    b := Checksummed(block, METADATA_CHECKSUM);
    assert block[..24] == header && block[24..] == body;
    Finalized(block, 3, index);
    assert b[24..24 + RECORD_BYTES] == b[24..][..RECORD_BYTES];
  }

  // ----- the superblock -----

  const SUPER_MAGIC: u64 := 0x3176_5346_474D
  const LABEL_MAGIC: u64 := 0x314C_4542_414C_474D
  const SUPER_CHECKSUM := 192

  /** The 24 words before the checksum. */
  function SuperWords(total: u64, uuid: (u64, u64), time: u64, l: Layout): (ws: seq<u64>)
    requires Geometry(l, total)
    ensures |ws| == 24
  {
    [SUPER_MAGIC, 1, 2, 200, 4096, total, 0, 0, 1, uuid.0, uuid.1, ROOT, 2,
     l.allocStart, l.allocBlocks, l.recordBitmapStart, l.recordBitmapBlocks, l.tableStart, l.tableBlocks, l.recordCount,
     l.dataStart, l.dataBlocks, time, 0]
  }

  /** A label of at most 63 bytes, none of them zero. */
  predicate ValidLabel(name: seq<byte>) {
    |name| <= 63 && forall i :: 0 <= i < |name| ==> name[i] != 0
  }

  /** What follows the header: nothing, or the 88-byte label extension. */
  function LabelArea(name: seq<byte>): (s: seq<byte>)
    requires ValidLabel(name)
    ensures |s| == 88
  {
    if name == [] then Zeros(88)
    else Checksummed(PutWord(LABEL_MAGIC) + PutWord(|name|) + name + Zeros(64 - |name|) + Zeros(8), 80)
  }

  function Superblock(ws: seq<u64>, area: seq<byte>): (b: Block)
    requires |ws| == 24 && |area| == 88
  {
    SuperHeader(ws) + area + Zeros(3808)
  }

  function SuperHeader(ws: seq<u64>): (s: seq<byte>)
    requires |ws| == 24
    ensures |s| == 200
  {
    Checksummed(Words(ws + [0]), SUPER_CHECKSUM)
  }

  method BuildSuperblock(total: u64, uuid: (u64, u64), time: u64, l: Layout, name: seq<byte>) returns (b: Block)
    requires Geometry(l, total) && ValidLabel(name)
    ensures b == Superblock(SuperWords(total, uuid, time, l), LabelArea(name))
  {
    hide Crc, Words;
    var block := PutHeader(512, SuperWords(total, uuid, time, l));
    HeaderThenZeros(SuperWords(total, uuid, time, l));
    var header, rest := block[..200], block[200..];
    if name != [] {
      var ext := PutWord(LABEL_MAGIC) + PutWord(|name|) + name + Zeros(64 - |name|) + Zeros(8);
      rest := Checksummed(ext, 80) + rest[88..];
    }
    header := Checksummed(header, SUPER_CHECKSUM);
    b := header + rest;
    assert Zeros(3896)[88..] == Zeros(3808);
    assert Zeros(3896) == Zeros(88) + Zeros(3808);
  }

  lemma HeaderThenZeros(ws: seq<u64>)
    requires |ws| == 24
    ensures Words(ws + ZeroWords(488))[..200] == Words(ws + [0]) && Words(ws + ZeroWords(488))[200..] == Zeros(3896)
  {
    assert ws + ZeroWords(488) == (ws + [0]) + ZeroWords(487);
    WordsSplit(ws + [0], ZeroWords(487));
    ZerosAreWords(487);
  }

  // ----- the whole image -----

  /** The bits of block `index` of a bitmap for `count` things that are in use as bits. */
  function ValidBits(count: nat, index: nat): (n: nat)
    ensures n <= BITS_PER_BLOCK
  {
    var first := index * BITS_PER_BLOCK;
    if first >= count then 0 else if count - first < BITS_PER_BLOCK then count - first else BITS_PER_BLOCK
  }

  ghost predicate FreshSuper(b: Block, total: u64, uuid: (u64, u64), time: u64, l: Layout, name: seq<byte>) {
    Geometry(l, total) && ValidLabel(name) && b == Superblock(SuperWords(total, uuid, time, l), LabelArea(name))
  }

  ghost predicate FreshBitmaps(img: Image, l: Layout)
    requires Geometry(l, |img|)
  {
    && (forall p :: l.allocStart <= p < l.recordBitmapStart ==>
          IsBitmap(img[p], 1, p - l.allocStart, ValidBits(l.dataBlocks, p - l.allocStart), false))
    && (forall p :: l.recordBitmapStart <= p < l.tableStart ==>
          IsBitmap(img[p], 2, p - l.recordBitmapStart, ValidBits(l.recordCount, p - l.recordBitmapStart),
                   p == l.recordBitmapStart))
  }

  ghost predicate FreshTable(img: Image, l: Layout)
    requires Geometry(l, |img|)
  {
    forall p :: l.tableStart <= p < l.dataStart ==> IsTable(img[p], p - l.tableStart)
  }

  /** Everything the formatter writes; the data area is left as it was. */
  ghost predicate IsFresh(img: Image, l: Layout, uuid: (u64, u64), time: u64, name: seq<byte>)
    requires Geometry(l, |img|)
  {
    FreshSuper(img[0], |img|, uuid, time, l, name) && FreshBitmaps(img, l) && FreshTable(img, l)
  }

  class Formatter {
    var img: Image

    method WriteBitmaps(l: Layout)
      requires Geometry(l, |img|)
      modifies this
      ensures |img| == old(|img|)
      ensures SameOutside(old(img), img, l.allocStart, l.tableStart) && FreshBitmaps(img, l)
    {
      hide IsBitmap, ValidBits;
      for index := 0 to l.allocBlocks
        invariant |img| == old(|img|)
        invariant forall p :: 0 <= p < |img| && !(l.allocStart <= p < l.tableStart) ==> img[p] == old(img[p])
        invariant forall p :: l.allocStart <= p < l.allocStart + index ==>
                    IsBitmap(img[p], 1, p - l.allocStart, ValidBits(l.dataBlocks, p - l.allocStart), false)
      {
        var block := InitializeBitmapBlock(1, index, ValidBits(l.dataBlocks, index), false);
        img := img[l.allocStart + index := block];
      }
      for index := 0 to l.recordBitmapBlocks
        invariant |img| == old(|img|)
        invariant forall p :: 0 <= p < |img| && !(l.allocStart <= p < l.tableStart) ==> img[p] == old(img[p])
        invariant forall p :: l.allocStart <= p < l.recordBitmapStart ==>
                    IsBitmap(img[p], 1, p - l.allocStart, ValidBits(l.dataBlocks, p - l.allocStart), false)
        invariant forall p :: l.recordBitmapStart <= p < l.recordBitmapStart + index ==>
                    IsBitmap(img[p], 2, p - l.recordBitmapStart, ValidBits(l.recordCount, p - l.recordBitmapStart),
                             p == l.recordBitmapStart)
      {
        var block := InitializeBitmapBlock(2, index, ValidBits(l.recordCount, index), index == 0);
        img := img[l.recordBitmapStart + index := block];
      }
    }

    method WriteRecordTable(l: Layout)
      requires Geometry(l, |img|)
      modifies this
      ensures |img| == old(|img|)
      ensures SameOutside(old(img), img, l.tableStart, l.dataStart) && FreshTable(img, l)
    {
      hide IsTable;
      for index := 0 to l.tableBlocks
        invariant |img| == old(|img|)
        invariant forall p :: 0 <= p < |img| && !(l.tableStart <= p < l.dataStart) ==> img[p] == old(img[p])
        invariant forall p :: l.tableStart <= p < l.tableStart + index ==> IsTable(img[p], p - l.tableStart)
      {
        var block := BuildTableBlock(index);
        img := img[l.tableStart + index := block];
      }
    }

    /** Format an image of at least 64 blocks; anything smaller is refused. */
    method Format(uuid: (u64, u64), time: u64, name: seq<byte>) returns (r: Result<Layout>)
      requires |img| <= 0x7_FFFF_FFFF_FFFF && ValidLabel(name)
      modifies this
      ensures |img| == |old(img)| && (r.Ok? <==> |img| >= 64)
      ensures r.Ok? ==>
                && r == CalculateLayout(|img|) && Geometry(r.value, |img|) && IsFresh(img, r.value, uuid, time, name)
                && forall p :: r.value.dataStart <= p < |img| ==> img[p] == old(img[p])
      ensures r.Err? ==> img == old(img)
    {
      r := CalculateLayout(|img|);
      if r.Ok? {
        LayoutPartitions(|img|);
        hide *;
        FormatAs(r.value, uuid, time, name);
      } else {
        assert |img| < 64 by {
          if |img| >= 64 {
            LayoutPartitions(|img|);
          }
        }
      }
    }

    method FormatAs(l: Layout, uuid: (u64, u64), time: u64, name: seq<byte>)
      requires Geometry(l, |img|) && ValidLabel(name)
      modifies this
      ensures |img| == |old(img)| && IsFresh(img, l, uuid, time, name)
      ensures forall p :: l.dataStart <= p < |img| ==> img[p] == old(img[p])
    {
      hide Superblock, SuperWords, LabelArea, IsBitmap, IsTable, FreshBitmaps, FreshTable;
      WriteBitmaps(l);
      ghost var one := img;
      WriteRecordTable(l);
      ghost var two := img;
      var block := BuildSuperblock(|img|, uuid, time, l, name);
      img := img[0 := block];
      FreshKept(one, two, img, l);
    }
  }

  lemma FreshKept(one: Image, two: Image, three: Image, l: Layout)
    requires Geometry(l, |one|) && |three| == |two| == |one| && FreshBitmaps(one, l) && FreshTable(two, l)
    requires SameOutside(one, two, l.tableStart, l.dataStart) && SameOutside(two, three, 0, 1)
    ensures FreshBitmaps(three, l) && FreshTable(three, l)
  {
    hide IsBitmap, IsTable;
    forall p | l.allocStart <= p < l.tableStart ensures three[p] == one[p] {
      assert two[p] == one[p];
    }
  }

  // ----- what a fresh image reads as -----

  lemma ValidBit(count: nat, n: nat)
    requires n < count
    ensures n % BITS_PER_BLOCK < ValidBits(count, n / BITS_PER_BLOCK)
  {
  }

  /** No data block is allocated, and of the record slots only the first. */
  lemma FreshBits(img: Image, l: Layout, n: nat)
    requires Geometry(l, |img|) && FreshBitmaps(img, l)
    ensures n < l.dataBlocks ==> n / BITS_PER_BLOCK < l.allocBlocks && !BitmapBit(img, l.allocStart, n)
    ensures n < l.recordCount ==> RecordBit(img, l, n) == (n == 0)
  {
    hide Crc;
    var q, r := n / BITS_PER_BLOCK, n % BITS_PER_BLOCK;
    ModOfMod(n);
    if n < l.dataBlocks {
      ValidBit(l.dataBlocks, n);
      var b := img[l.allocStart + q];
      assert IsBitmap(b, 1, q, ValidBits(l.dataBlocks, q), false);
      assert BlockBit(b, r) == BitmapBit(img, l.allocStart, n);
    }
    if n < l.recordCount {
      ValidBit(l.recordCount, n);
      var b := img[l.recordBitmapStart + q];
      assert IsBitmap(b, 2, q, ValidBits(l.recordCount, q), q == 0);
      assert BlockBit(b, r) == RecordBit(img, l, n);
    }
  }

  /** The words of the header, its checksum, and what follows it. */
  lemma SuperReads(b: Block, ws: seq<u64>, area: seq<byte>)
    requires |ws| == 24 && |area| == 88 && b == Superblock(ws, area)
    ensures forall i :: 0 <= i < 24 ==> U64(b, 8 * i) == ws[i]
    ensures Checked(b[..200], SUPER_CHECKSUM) && b[200..288] == area && forall i :: 288 <= i < 4096 ==> b[i] == 0
  {
    hide Crc, Words;
    var raw := ws + [0];
    var crc := Crc(W64(Words(raw), SUPER_CHECKSUM, 0));
    var header := SuperHeader(ws);
    WordSet(raw, 24, crc);
    ChecksummedIsChecked(Words(raw), SUPER_CHECKSUM);
    assert b[..200] == header;
    forall i | 0 <= i < 24 ensures U64(b, 8 * i) == ws[i] {
      WordAt(raw[24 := crc], i);
      assert b[8 * i..8 * i + 8] == header[8 * i..8 * i + 8];
    }
  }
}
