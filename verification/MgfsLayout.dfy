/** The region layout as the formatter, the boot reader and the checker each
    compute it from the number of blocks. */
module MgfsLayout {
  import opened MgfsBytes
  import opened MgfsImage

  const U64_MAX: nat := 0xFFFF_FFFF_FFFF_FFFF

  // ----- the formatter -----

  function CeilDivU64(dividend: nat, divisor: nat): (q: nat)
    requires divisor > 0
    ensures q * divisor >= dividend && (q == 0 || (q - 1) * divisor < dividend)
  {
    dividend / divisor + (if dividend % divisor != 0 then 1 else 0)
  }

  function TableBlocks(total: nat): (t: nat)
    ensures t >= 1
  {
    if total / 320 == 0 then 1 else total / 320
  }

  /** The formatter's computation, with each of its rejections. */
  function CalculateLayout(total: u64): (r: Result<Layout>)
  {
    if total < 64 then Err
    else
      var table := TableBlocks(total);
      if table > U64_MAX / 21 then Err
      else
        var records := table * 21;
        var recordBitmap := CeilDivU64(records, BITS_PER_BLOCK);
        var allocBitmap := CeilDivU64(total, BITS_PER_BLOCK);
        if allocBitmap > U64_MAX - 1 || recordBitmap > U64_MAX - 1 - allocBitmap
           || table > U64_MAX - 1 - allocBitmap - recordBitmap then Err
        else if 1 + allocBitmap + recordBitmap + table >= total then Err
        else
          var data := 1 + allocBitmap + recordBitmap + table;
          Ok(Layout(1, allocBitmap, 1 + allocBitmap, recordBitmap, 1 + allocBitmap + recordBitmap, table, records,
                    data, total - data))
  }

  // ----- the boot reader -----

  /** The nine layout words of a superblock, from word 13 on. */
  function LayoutWords(l: Layout): seq<nat> {
    [l.allocStart, l.allocBlocks, l.recordBitmapStart, l.recordBitmapBlocks, l.tableStart, l.tableBlocks,
     l.recordCount, l.dataStart, l.dataBlocks]
  }

  function AddU64(a: nat, b: nat): Result<nat> {
    if a > U64_MAX - b then Err else Ok(a + b)
  }

  /** The boot reader recomputes the layout and compares it with the stored words. */
  function BootLayout(total: u64, words: seq<nat>): (r: Result<Layout>)
    requires |words| == 9
  {
    var table := TableBlocks(total);
    if table > U64_MAX / 21 then Err
    else
      var records := table * 21;
      var recordBitmap, allocBitmap := CeilDivU64(records, BITS_PER_BLOCK), CeilDivU64(total, BITS_PER_BLOCK);
      var a := AddU64(1, allocBitmap);
      if a.Err? then Err else
      var b := AddU64(a.value, recordBitmap);
      if b.Err? then Err else
      var c := AddU64(b.value, table);
      if c.Err? || c.value >= total then Err
      else if words[0] != 1 || words[1] != allocBitmap || words[2] != 1 + allocBitmap || words[3] != recordBitmap
              || words[4] != 1 + allocBitmap + recordBitmap || words[5] != table || words[6] != records
              || words[7] != c.value || words[8] != total - c.value then Err
      else Ok(Layout(1, allocBitmap, 1 + allocBitmap, recordBitmap, words[4], table, records, c.value, total - c.value))
  }

  // ----- the checker -----

  /** The checker's computation; its only rejection is an empty data area. */
  function CheckerLayout(total: nat): (r: Result<Layout>) {
    var t := if total / 320 == 0 then 1 else total / 320;
    var alloc := (total + BITS_PER_BLOCK - 1) / BITS_PER_BLOCK;
    var records := t * 21;
    var recordBlocks := (records + BITS_PER_BLOCK - 1) / BITS_PER_BLOCK;
    var table := 1 + alloc + recordBlocks;
    if table + t < total
      then Ok(Layout(1, alloc, 1 + alloc, recordBlocks, table, t, records, table + t, total - (table + t)))
    else Err
  }

  // ----- agreement -----

  lemma CeilDivForms(n: nat)
    ensures (n + BITS_PER_BLOCK - 1) / BITS_PER_BLOCK == CeilDivU64(n, BITS_PER_BLOCK)
  {
  }

  /** For every size of at least 64 blocks there is a layout: its regions
      partition the image and its bitmaps are large enough. */
  lemma LayoutPartitions(total: u64)
    requires 64 <= total < 0x10_0000_0000_0000
    ensures CalculateLayout(total).Ok?
    ensures var l := CalculateLayout(total).value;
            && Geometry(l, total) && l.dataBlocks > 0
            && 1 + l.allocBlocks + l.recordBitmapBlocks + l.tableBlocks + l.dataBlocks == total
            && total <= BITS_PER_BLOCK * l.allocBlocks
  {
    var table := TableBlocks(total);
    var records := table * 21;
    var recordBitmap, allocBitmap := CeilDivU64(records, BITS_PER_BLOCK), CeilDivU64(total, BITS_PER_BLOCK);
    assert allocBitmap <= total / 32576 + 1;
    assert recordBitmap <= records / 32576 + 1;
    assert 1 + allocBitmap + recordBitmap + table < total;
  }

  /** The three independent computations agree on every image size. */
  lemma LayoutsAgree(total: u64)
    requires 64 <= total < 0x10_0000_0000_0000
    ensures CalculateLayout(total).Ok?
    ensures CheckerLayout(total) == CalculateLayout(total)
    ensures BootLayout(total, LayoutWords(CalculateLayout(total).value)) == CalculateLayout(total)
  {
    LayoutPartitions(total);
    CeilDivForms(total);
    CeilDivForms(TableBlocks(total) * 21);
  }

  /** The boot reader accepts no other layout words. */
  lemma BootLayoutOnly(total: u64, words: seq<nat>)
    requires 64 <= total < 0x10_0000_0000_0000 && |words| == 9
    ensures BootLayout(total, words).Ok? <==>
            CalculateLayout(total).Ok? && words == LayoutWords(CalculateLayout(total).value)
  {
    LayoutsAgree(total);
  }

  /** The boot reader allows as many list blocks as there are record slots;
      126 extents a block, that is enough for any chain in the data area. */
  lemma ListCapSuffices(total: u64, extents: nat)
    requires 64 <= total < 0x10_0000_0000_0000 && CalculateLayout(total).Ok?
             && extents <= CalculateLayout(total).value.dataBlocks
    ensures (extents + 125) / 126 <= CalculateLayout(total).value.recordCount
  {
    if total / 320 > 0 {
      assert total < 320 * (total / 320) + 320;
    }
  }
}
