/** What the updater writes, structure by structure, and that each structure
    reads back as what it was written from: extent lists, records, payload
    chunks and the extents computed from a list of blocks. */
module MgfsFormat {
  import opened MgfsBytes
  import opened MgfsImage
  import opened MgfsOwnership

  // ----- extents from blocks -----

  /** The extents cover consecutive logical blocks from `from`, none empty. */
  ghost predicate Laid(es: seq<Extent>, from: nat) {
    es == [] || (es[0].logical == from && es[0].count >= 1 && Laid(es[1..], from + es[0].count))
  }

  ghost predicate Ascending(bs: seq<nat>) {
    forall i, j :: 0 <= i < j < |bs| ==> bs[i] < bs[j]
  }

  /** No extent starts before its predecessor ends. */
  ghost predicate PhysicallyAscending(es: seq<Extent>) {
    forall i :: 0 < i < |es| ==> es[i - 1].physical + es[i - 1].count <= es[i].physical
  }

  /** No two neighbouring extents could have been one. */
  ghost predicate Maximal(es: seq<Extent>) {
    forall i :: 0 < i < |es| ==> es[i - 1].physical + es[i - 1].count != es[i].physical
  }

  function Covered(es: seq<Extent>): nat {
    if es == [] then 0 else es[0].count + Covered(es[1..])
  }

  lemma {:induction false} DataBlocksAppend(es: seq<Extent>, e: Extent)
    ensures DataBlocks(es + [e]) == DataBlocks(es) + Range(e.physical, e.count)
    ensures Covered(es + [e]) == Covered(es) + e.count
  {
    if es == [] {
      assert es + [e] == [e];
      assert [e][1..] == [];
    } else {
      DataBlocksAppend(es[1..], e);
      assert (es + [e])[1..] == es[1..] + [e];
    }
  }

  lemma {:induction false} LaidAppend(es: seq<Extent>, e: Extent, from: nat)
    requires Laid(es, from) && e.logical == from + Covered(es) && e.count >= 1
    ensures Laid(es + [e], from)
  {
    if es == [] {
      assert es + [e] == [e];
      assert [e][1..] == [];
    } else {
      LaidAppend(es[1..], e, from + es[0].count);
      assert (es + [e])[1..] == es[1..] + [e];
    }
  }

  lemma {:induction false} CoveredIsLength(es: seq<Extent>)
    ensures |DataBlocks(es)| == Covered(es)
  {
    if es != [] {
      CoveredIsLength(es[1..]);
    }
  }

  lemma RangeSnoc(first: nat, n: nat)
    ensures Range(first, n + 1) == Range(first, n) + [first + n]
  {
  }

  /** Extents of ascending blocks are physically ascending. */
  lemma {:induction false} AscendingExtents(es: seq<Extent>)
    requires Ascending(DataBlocks(es)) && forall e :: e in es ==> e.count >= 1
    ensures PhysicallyAscending(es)
  {
    if |es| >= 2 {
      var head, rest := Range(es[0].physical, es[0].count), DataBlocks(es[1..]);
      var bs := DataBlocks(es);
      forall i, j | 0 <= i < j < |rest| ensures rest[i] < rest[j] {
        assert bs[|head| + i] < bs[|head| + j];
      }
      AscendingExtents(es[1..]);
      assert bs[|head| - 1] < bs[|head|];
      assert rest[0] == es[1].physical;
    }
  }

  lemma {:induction false} LaidCounts(es: seq<Extent>, from: nat)
    requires Laid(es, from)
    ensures forall e :: e in es ==> e.count >= 1
  {
    if es != [] {
      LaidCounts(es[1..], from + es[0].count);
    }
  }

  /** What the grouping loop has built: closed extents, then one open run. */
  ghost predicate Grouped(es: seq<Extent>, flags: u64, start: nat, run: nat, done: seq<nat>) {
    && DataBlocks(es) + Range(start, run) == done
    && Laid(es, 0) && Maximal(es)
    && (es != [] ==> es[|es| - 1].physical + es[|es| - 1].count != start)
    && forall e :: e in es ==> e.flags == flags
  }

  lemma GroupedClose(es: seq<Extent>, flags: u64, start: u64, run: u64, done: seq<nat>)
    requires Grouped(es, flags, start, run, done) && run >= 1 && Covered(es) < 0x1_0000_0000_0000_0000
    ensures var e := Extent(Covered(es), start, run, flags);
            && DataBlocks(es + [e]) == done && Laid(es + [e], 0) && Maximal(es + [e])
            && (forall x :: x in es + [e] ==> x.flags == flags)
            && Covered(es + [e]) == Covered(es) + run
  {
    var e := Extent(Covered(es), start, run, flags);
    DataBlocksAppend(es, e);
    LaidAppend(es, e, 0);
  }

  lemma GroupedExtend(es: seq<Extent>, flags: u64, start: nat, run: nat, blocks: seq<nat>, k: nat)
    requires k < |blocks| && Grouped(es, flags, start, run, blocks[..k]) && blocks[k] == start + run
    ensures Grouped(es, flags, start, run + 1, blocks[..k + 1])
  {
    RangeSnoc(start, run);
    assert blocks[..k + 1] == blocks[..k] + [blocks[k]];
  }

  lemma GroupedSplit(es: seq<Extent>, flags: u64, start: u64, run: u64, blocks: seq<nat>, k: nat)
    requires k < |blocks| && Grouped(es, flags, start, run, blocks[..k]) && blocks[k] != start + run
    requires run >= 1 && Covered(es) < 0x1_0000_0000_0000_0000
    ensures var es' := es + [Extent(Covered(es), start, run, flags)];
            Grouped(es', flags, blocks[k], 1, blocks[..k + 1]) && Covered(es') == Covered(es) + run
  {
    GroupedClose(es, flags, start, run, blocks[..k]);
    assert Range(blocks[k], 1) == [blocks[k]];
    assert blocks[..k + 1] == blocks[..k] + [blocks[k]];
  }

  lemma GroupedStart(blocks: seq<nat>, flags: u64)
    requires blocks != []
    ensures Grouped([], flags, blocks[0], 1, blocks[..1]) && Covered([]) == 0
  {
    assert blocks[..1] == Range(blocks[0], 1);
  }

  /** How many runs of consecutive blocks a list falls into. */
  function Runs(blocks: seq<nat>): nat {
    var last := |blocks| - 1;
    if blocks == [] then 0
    else if last > 0 && blocks[last] == blocks[last - 1] + 1 then Runs(blocks[..last])
    else Runs(blocks[..last]) + 1
  }

  lemma RunsStart(blocks: seq<nat>)
    requires blocks != []
    ensures Runs(blocks[..1]) == 1
  {
    assert blocks[..1][..0] == [];
  }

  lemma RunsStep(blocks: seq<nat>, k: nat)
    requires 0 < k < |blocks|
    ensures Runs(blocks[..k + 1]) == Runs(blocks[..k]) + if blocks[k] == blocks[k - 1] + 1 then 0 else 1
  {
    assert blocks[..k + 1][..k] == blocks[..k];
  }

  /** The extents that `MakeExtents` promises. */
  ghost predicate Extents(es: seq<Extent>, blocks: seq<nat>, flags: u64) {
    && DataBlocks(es) == blocks
    && Laid(es, 0) && Maximal(es)
    && (forall e :: e in es ==> e.flags == flags)
    && (Ascending(blocks) ==> PhysicallyAscending(es))
  }

  lemma GroupedFinish(es: seq<Extent>, flags: u64, start: u64, run: u64, blocks: seq<nat>)
    requires Grouped(es, flags, start, run, blocks[..|blocks|])
    requires run >= 1 && Covered(es) < 0x1_0000_0000_0000_0000
    ensures Extents(es + [Extent(Covered(es), start, run, flags)], blocks, flags)
  {
    var es' := es + [Extent(Covered(es), start, run, flags)];
    assert blocks[..|blocks|] == blocks;
    GroupedClose(es, flags, start, run, blocks);
    LaidCounts(es', 0);
    if Ascending(blocks) {
      AscendingExtents(es');
    }
  }

  lemma NoExtents(flags: u64)
    ensures Extents([], [], flags) && Runs([]) == 0
  {
  }

  /** Group a list of blocks into extents: the extents flatten back to exactly
      the given blocks, they are logically consecutive and as long as possible,
      and ascending blocks give extents the boot reader's order check accepts. */
  method MakeExtents(blocks: seq<nat>, flags: u64) returns (es: seq<Extent>)
    requires |blocks| < 0x1_0000_0000_0000_0000
    requires forall i :: 0 <= i < |blocks| ==> blocks[i] < 0x10_0000_0000_0000
    ensures Extents(es, blocks, flags) && |es| == Runs(blocks)
  {
    hide *;
    es := [];
    if blocks == [] {
      NoExtents(flags);
      return;
    }
    var start: u64, previous: nat, logical: nat := blocks[0], blocks[0], 0;
    GroupedStart(blocks, flags);
    RunsStart(blocks);
    for k := 1 to |blocks|
      invariant start <= previous && previous == blocks[k - 1]
      invariant logical == Covered(es) && logical + (previous - start + 1) == k
      invariant Grouped(es, flags, start, previous - start + 1, blocks[..k]) && |es| + 1 == Runs(blocks[..k])
    {
      var block, run: u64 := blocks[k], previous - start + 1;
      RunsStep(blocks, k);
      if block == previous + 1 {
        GroupedExtend(es, flags, start, run, blocks, k);
        previous := block;
      } else {
        GroupedSplit(es, flags, start, run, blocks, k);
        es := es + [Extent(logical, start, run, flags)];
        logical := logical + run;
        start, previous := block, block;
      }
    }
    GroupedFinish(es, flags, start, previous - start + 1, blocks);
    assert blocks[..|blocks|] == blocks;
    es := es + [Extent(logical, start, previous - start + 1, flags)];
  }

  // ----- extent-list blocks -----

  function ExtentWords(es: seq<Extent>): (ws: seq<u64>)
    ensures |ws| == 4 * |es|
  {
    if es == [] then []
    else [es[0].logical, es[0].physical, es[0].count, es[0].flags] + ExtentWords(es[1..])
  }

  lemma {:induction false} ExtentWordAt(es: seq<Extent>, i: nat)
    requires i < |es|
    ensures var ws := ExtentWords(es);
            ws[4 * i] == es[i].logical && ws[4 * i + 1] == es[i].physical
            && ws[4 * i + 2] == es[i].count && ws[4 * i + 3] == es[i].flags
  {
    if i > 0 {
      ExtentWordAt(es[1..], i - 1);
    }
  }

  function ListWords(id: u64, next: u64, entries: seq<Extent>, crc: u64): (ws: seq<u64>)
    requires |entries| <= LIST_MAX
    ensures |ws| == 512
  {
    [LIST_MAGIC, id, next, |entries|, crc, 0, 0, 0] + ExtentWords(entries) + ZeroWords(504 - 4 * |entries|)
  }

  /** The bytes of a list block before its checksum, and the finished block. */
  function ListBlock(id: u64, next: u64, entries: seq<Extent>): (b: Block)
    requires |entries| <= LIST_MAX
  {
    Checksummed(Words(ListWords(id, next, entries, 0)), 32)
  }

  /** A list block of `id` holding `entries` and pointing at `next`, in every
      detail any reader checks. */
  ghost predicate IsListBlock(b: Block, id: u64, next: u64, entries: seq<Extent>) {
    && ListBlockOk(b) && Checked(b, 32)
    && U64(b, 8) == id && U64(b, 16) == next && U64(b, 24) == |entries|
    && (forall i :: 40 <= i < 64 ==> b[i] == 0)
    && ListEntries(b) == entries
  }

  function ListCrc(id: u64, next: u64, entries: seq<Extent>): u64
    requires |entries| <= LIST_MAX
  {
    Crc(W64(Words(ListWords(id, next, entries, 0)), 32, 0))
  }

  lemma ListWordsWithCrc(id: u64, next: u64, entries: seq<Extent>, crc: u64)
    requires |entries| <= LIST_MAX
    ensures ListWords(id, next, entries, 0)[4 := crc] == ListWords(id, next, entries, crc)
  {
  }

  lemma ListBlockIsWords(id: u64, next: u64, entries: seq<Extent>)
    requires |entries| <= LIST_MAX
    ensures ListBlock(id, next, entries) == Words(ListWords(id, next, entries, ListCrc(id, next, entries)))
  {
    var crc := ListCrc(id, next, entries);
    WordSet(ListWords(id, next, entries, 0), 4, crc);
    ListWordsWithCrc(id, next, entries, crc);
  }

  lemma ListWordsReserved(id: u64, next: u64, entries: seq<Extent>, crc: u64)
    requires |entries| <= LIST_MAX
    ensures forall i :: 40 <= i < 64 ==> Words(ListWords(id, next, entries, crc))[i] == 0
  {
    var a, b, c := [LIST_MAGIC, id, next, |entries| as u64, crc], ZeroWords(3),
      ExtentWords(entries) + ZeroWords(504 - 4 * |entries|);
    assert ListWords(id, next, entries, crc) == a + (b + c);
    WordsSlice(a, b, c);
    ZerosAreWords(3);
    var s := Words(a + (b + c));
    assert s[40..64] == Zeros(24);
    forall i | 40 <= i < 64 ensures s[i] == 0 { assert s[i] == s[40..64][i - 40]; }
  }

  lemma ListWordsEntry(id: u64, next: u64, entries: seq<Extent>, crc: u64, i: nat)
    requires |entries| <= LIST_MAX && i < |entries|
    ensures ExtentAt(Words(ListWords(id, next, entries, crc)), 64 + 32 * i) == entries[i]
  {
    hide Words, U64, ExtentWords;
    var ws := ListWords(id, next, entries, crc);
    ExtentWordAt(entries, i);
    WordAt(ws, 8 + 4 * i);
    WordAt(ws, 8 + 4 * i + 1);
    WordAt(ws, 8 + 4 * i + 2);
    WordAt(ws, 8 + 4 * i + 3);
  }

  lemma ListWordsHeader(id: u64, next: u64, entries: seq<Extent>, crc: u64)
    requires |entries| <= LIST_MAX
    ensures var b := Words(ListWords(id, next, entries, crc));
            U64(b, 0) == LIST_MAGIC && U64(b, 8) == id && U64(b, 16) == next && U64(b, 24) == |entries|
  {
    var ws := ListWords(id, next, entries, crc);
    WordAt(ws, 0);
    WordAt(ws, 1);
    WordAt(ws, 2);
    WordAt(ws, 3);
  }

  lemma ListWordsEntries(b: Block, id: u64, next: u64, entries: seq<Extent>, crc: u64)
    requires |entries| <= LIST_MAX && b == Words(ListWords(id, next, entries, crc)) && U64(b, 24) == |entries|
    ensures ListEntries(b) == entries
  {
    hide Words, U64, ListWords, ExtentAt, Crc;
    forall i | 0 <= i < |entries| ensures ListEntries(b)[i] == entries[i] {
      ListWordsEntry(id, next, entries, crc, i);
    }
  }

  lemma ListBlockChecked(id: u64, next: u64, entries: seq<Extent>)
    requires |entries| <= LIST_MAX
    ensures Checked(ListBlock(id, next, entries), 32)
  {
    ChecksummedIsChecked(Words(ListWords(id, next, entries, 0)), 32);
  }

  /** What is written as a list block is read as that list block. */
  lemma ListBlockReads(id: u64, next: u64, entries: seq<Extent>)
    requires 1 <= |entries| <= LIST_MAX
    ensures IsListBlock(ListBlock(id, next, entries), id, next, entries)
  {
    var crc := ListCrc(id, next, entries);
    ListBlockIsWords(id, next, entries);
    ListBlockChecked(id, next, entries);
    ListWordsHeader(id, next, entries, crc);
    ListWordsReserved(id, next, entries, crc);
    ListWordsEntries(ListBlock(id, next, entries), id, next, entries, crc);
  }

  // ----- records -----

  function Flags(owner: u64, permissions: u64, inline: bool, restricted: bool): (f: nat) {
    (if inline then 1 else 0) + owner * 2 + permissions * 0x2_0000_0000
    + (if restricted then 0x200_0000_0000 else 0)
  }

  function Owner(rec: seq<byte>): u64
    requires |rec| == RECORD_BYTES
  {
    U64(rec, FLAGS) / 2 % 0x1_0000_0000
  }

  function Permissions(rec: seq<byte>): u64
    requires |rec| == RECORD_BYTES
  {
    U64(rec, FLAGS) / 0x2_0000_0000 % 16
  }

  predicate Restricted(rec: seq<byte>)
    requires |rec| == RECORD_BYTES
  {
    U64(rec, FLAGS) / 0x200_0000_0000 % 2 == 1
  }

  predicate Inline(rec: seq<byte>)
    requires |rec| == RECORD_BYTES
  {
    U64(rec, FLAGS) % 2 == 1
  }

  /** No bits but inline, owner, permissions and the mutation policy. */
  predicate FlagsKnown(flags: u64) {
    flags / 0x20_0000_0000 % 16 == 0 && flags / 0x400_0000_0000 == 0
  }

  function InlineWords(es: seq<Extent>): (ws: seq<u64>)
    ensures |ws| == 8
  {
    if |es| == 0 then ZeroWords(8)
    else if |es| == 1 then ExtentWords(es) + ZeroWords(4)
    else ExtentWords(es[..2])
  }

  function RecordWords(kind: u64, flags: u64, id: u64, generation: u64, size: u64,
                       es: seq<Extent>, head: u64, crc: u64): (ws: seq<u64>)
    requires |es| < 0x1_0000_0000_0000_0000
    ensures |ws| == 24
  {
    [kind, flags, id, generation, size, |es|, if |es| < 2 then |es| else 2, head]
    + InlineWords(es) + ZeroWords(7) + [crc]
  }

  function Record(kind: u64, flags: u64, id: u64, generation: u64, size: u64,
                  es: seq<Extent>, head: u64): (rec: seq<byte>)
    requires |es| < 0x1_0000_0000_0000_0000
    ensures |rec| == RECORD_BYTES
  {
    Checksummed(Words(RecordWords(kind, flags, id, generation, size, es, head, 0)), RECORD_CHECKSUM)
  }

  /** The record fields, as any reader finds them. */
  ghost predicate IsRecord(rec: seq<byte>, kind: u64, flags: u64, id: u64, generation: u64, size: u64,
                           es: seq<Extent>, head: u64) {
    && |rec| == RECORD_BYTES && Checked(rec, RECORD_CHECKSUM)
    && U64(rec, TYPE) == kind && U64(rec, FLAGS) == flags && U64(rec, ID) == id
    && U64(rec, GENERATION) == generation && U64(rec, SIZE) == size
    && U64(rec, EXTENT_COUNT) == |es| && U64(rec, INLINE_COUNT) == (if |es| < 2 then |es| else 2)
    && U64(rec, LIST_HEAD) == head
    && forall i :: 0 <= i < 2 && i < |es| ==> ExtentAt(rec, INLINE_EXTENTS + 32 * i) == es[i]
  }

  lemma InlineWordAt(es: seq<Extent>, i: nat)
    requires i < 2 && i < |es|
    ensures var ws := InlineWords(es);
            ws[4 * i] == es[i].logical && ws[4 * i + 1] == es[i].physical
            && ws[4 * i + 2] == es[i].count && ws[4 * i + 3] == es[i].flags
  {
    if |es| == 1 {
      ExtentWordAt(es, i);
    } else {
      ExtentWordAt(es[..2], i);
    }
  }

  lemma RecordWordsReads(ws: seq<u64>)
    requires |ws| == 24
    ensures var rec := Words(ws);
            U64(rec, TYPE) == ws[0] && U64(rec, FLAGS) == ws[1] && U64(rec, ID) == ws[2]
            && U64(rec, GENERATION) == ws[3] && U64(rec, SIZE) == ws[4] && U64(rec, EXTENT_COUNT) == ws[5]
            && U64(rec, INLINE_COUNT) == ws[6] && U64(rec, LIST_HEAD) == ws[7]
  {
    WordAt(ws, 0);
    WordAt(ws, 1);
    WordAt(ws, 2);
    WordAt(ws, 3);
    WordAt(ws, 4);
    WordAt(ws, 5);
    WordAt(ws, 6);
    WordAt(ws, 7);
  }

  lemma RecordExtentReads(ws: seq<u64>, i: nat)
    requires |ws| == 24 && i < 2
    ensures ExtentAt(Words(ws), INLINE_EXTENTS + 32 * i)
            == Extent(ws[8 + 4 * i], ws[9 + 4 * i], ws[10 + 4 * i], ws[11 + 4 * i])
  {
    WordAt(ws, 8 + 4 * i);
    WordAt(ws, 9 + 4 * i);
    WordAt(ws, 10 + 4 * i);
    WordAt(ws, 11 + 4 * i);
  }

  lemma RecordWordsAt(kind: u64, flags: u64, id: u64, generation: u64, size: u64, es: seq<Extent>, head: u64, crc: u64)
    requires |es| < 0x1_0000_0000_0000_0000
    ensures var ws := RecordWords(kind, flags, id, generation, size, es, head, crc);
            && ws[0] == kind && ws[1] == flags && ws[2] == id && ws[3] == generation && ws[4] == size
            && ws[5] == |es| && ws[6] == (if |es| < 2 then |es| else 2) && ws[7] == head
            && forall k :: 0 <= k < 8 ==> ws[8 + k] == InlineWords(es)[k]
  {
  }

  lemma RecordInlineReads(es: seq<Extent>, ws: seq<u64>)
    requires |ws| == 24 && forall k :: 0 <= k < 8 ==> ws[8 + k] == InlineWords(es)[k]
    ensures forall i :: 0 <= i < 2 && i < |es| ==> ExtentAt(Words(ws), INLINE_EXTENTS + 32 * i) == es[i]
  {
    forall i | 0 <= i < 2 && i < |es|
      ensures ExtentAt(Words(ws), INLINE_EXTENTS + 32 * i) == es[i]
    {
      InlineWordAt(es, i);
      RecordExtentReads(ws, i);
    }
  }

  lemma RecordIsWords(raw: seq<u64>, crc: u64)
    requires |raw| == 24 && crc == Crc(W64(Words(raw), RECORD_CHECKSUM, 0))
    ensures Checksummed(Words(raw), RECORD_CHECKSUM) == Words(raw[23 := crc])
    ensures Checked(Words(raw[23 := crc]), RECORD_CHECKSUM)
  {
    WordSet(raw, 23, crc);
    ChecksummedIsChecked(Words(raw), RECORD_CHECKSUM);
  }

  /** What is written as a record is read as that record. */
  lemma RecordReads(kind: u64, flags: u64, id: u64, generation: u64, size: u64, es: seq<Extent>, head: u64)
    requires |es| < 0x1_0000_0000_0000_0000
    ensures IsRecord(Record(kind, flags, id, generation, size, es, head), kind, flags, id, generation, size, es, head)
  {
    var raw := RecordWords(kind, flags, id, generation, size, es, head, 0);
    var crc := Crc(W64(Words(raw), RECORD_CHECKSUM, 0));
    RecordIsWords(raw, crc);
    RecordWordsAt(kind, flags, id, generation, size, es, head, 0);
    RecordWordsReads(raw[23 := crc]);
    RecordInlineReads(es, raw[23 := crc]);
  }

  lemma {:induction false} ExtentWordsAppend(es: seq<Extent>, e: Extent)
    ensures ExtentWords(es + [e]) == ExtentWords(es) + [e.logical, e.physical, e.count, e.flags]
  {
    if es == [] {
      assert es + [e] == [e];
      assert [e][1..] == [];
    } else {
      ExtentWordsAppend(es[1..], e);
      assert (es + [e])[1..] == es[1..] + [e];
    }
  }

  /** Store one extent as four consecutive words. */
  method PutExtent(buf: seq<byte>, ghost ws: seq<u64>, i: nat, e: Extent) returns (r: seq<byte>)
    requires buf == Words(ws) && i + 4 <= |ws|
    ensures r == Words(ws[i := e.logical][i + 1 := e.physical][i + 2 := e.count][i + 3 := e.flags])
  {
    WordSet(ws, i, e.logical);
    r := W64(buf, 8 * i, e.logical);
    ghost var ws1 := ws[i := e.logical];
    WordSet(ws1, i + 1, e.physical);
    r := W64(r, 8 * (i + 1), e.physical);
    ghost var ws2 := ws1[i + 1 := e.physical];
    WordSet(ws2, i + 2, e.count);
    r := W64(r, 8 * (i + 2), e.count);
    WordSet(ws2[i + 2 := e.count], i + 3, e.flags);
    r := W64(r, 8 * (i + 3), e.flags);
  }

  /** Store eight header words in a zeroed buffer of n words. */
  method PutHeader(n: nat, hs: seq<u64>) returns (r: seq<byte>)
    requires |hs| <= n
    ensures r == Words(hs + ZeroWords(n - |hs|))
  {
    hide *;
    r := Zeros(8 * n);
    ZerosAreWords(n);
    assert hs[..0] + ZeroWords(n) == ZeroWords(n);
    for i := 0 to |hs|
      invariant r == Words(hs[..i] + ZeroWords(n - i))
    {
      HeaderStep(n, hs, i);
      r := W64(r, 8 * i, hs[i]);
    }
    assert hs[..|hs|] == hs;
  }

  lemma HeaderStep(n: nat, hs: seq<u64>, i: nat)
    requires i < |hs| <= n
    ensures var ws := Words(hs[..i] + ZeroWords(n - i));
            8 * i + 8 <= |ws| && W64(ws, 8 * i, hs[i]) == Words(hs[..i + 1] + ZeroWords(n - (i + 1)))
  {
    hide Words, W64;
    var ws := hs[..i] + ZeroWords(n - i);
    WordSet(ws, i, hs[i]);
    assert ws[i := hs[i]] == hs[..i + 1] + ZeroWords(n - (i + 1));
  }

  function ListBody(hs: seq<u64>, entries: seq<Extent>, k: nat): (ws: seq<u64>)
    requires |hs| == 8 && k <= |entries| <= LIST_MAX
    ensures |ws| == 512
  {
    hs + ExtentWords(entries[..k]) + ZeroWords(504 - 4 * k)
  }

  lemma ListBodyStep(hs: seq<u64>, entries: seq<Extent>, k: nat)
    requires |hs| == 8 && k < |entries| <= LIST_MAX
    ensures var i, e := 8 + 4 * k, entries[k];
            ListBody(hs, entries, k)[i := e.logical][i + 1 := e.physical][i + 2 := e.count][i + 3 := e.flags]
            == ListBody(hs, entries, k + 1)
  {
    assert entries[..k + 1] == entries[..k] + [entries[k]];
    ExtentWordsAppend(entries[..k], entries[k]);
    ListWordsStep(hs, ExtentWords(entries[..k]), 504 - 4 * k, entries[k]);
  }

  lemma ListBodyStart(hs: seq<u64>, entries: seq<Extent>)
    requires |hs| == 8 && |entries| <= LIST_MAX
    ensures ListBody(hs, entries, 0) == hs + ZeroWords(504)
  {
    var none := entries[..0];
    assert ExtentWords(none) == [];
    assert hs + ExtentWords(none) == hs;
  }

  lemma ListBodyEnd(hs: seq<u64>, entries: seq<Extent>)
    requires |hs| == 8 && |entries| <= LIST_MAX
    ensures ListBody(hs, entries, |entries|) == hs + ExtentWords(entries) + ZeroWords(504 - 4 * |entries|)
  {
    assert entries[..|entries|] == entries;
  }

  method BuildListBlock(id: u64, next: u64, entries: seq<Extent>) returns (b: Block)
    requires |entries| <= LIST_MAX
    ensures b == ListBlock(id, next, entries)
  {
    hide Words, W64, Crc, Checksummed;
    var hs: seq<u64> := [LIST_MAGIC, id, next, |entries|, 0, 0, 0, 0];
    ListBodyStart(hs, entries);
    ListBodyEnd(hs, entries);
    var buf := PutHeader(512, hs);
    for k := 0 to |entries|
      invariant buf == Words(ListBody(hs, entries, k))
    {
      buf := PutExtent(buf, ListBody(hs, entries, k), 8 + 4 * k, entries[k]);
      ListBodyStep(hs, entries, k);
    }
    b := Checksummed(buf, 32);
  }

  lemma ListWordsStep(hs: seq<u64>, ews: seq<u64>, n: nat, e: Extent)
    requires n >= 4
    ensures var i := |hs| + |ews|;
            (hs + ews + ZeroWords(n))[i := e.logical][i + 1 := e.physical][i + 2 := e.count][i + 3 := e.flags]
            == hs + (ews + [e.logical, e.physical, e.count, e.flags]) + ZeroWords(n - 4)
  {
  }

  method BuildRecord(kind: u64, flags: u64, id: u64, generation: u64, size: u64, es: seq<Extent>, head: u64)
    returns (rec: seq<byte>)
    requires |es| < 0x1_0000_0000_0000_0000
    ensures rec == Record(kind, flags, id, generation, size, es, head)
  {
    hide Words, W64, Crc, Checksummed;
    var hs: seq<u64> := [kind, flags, id, generation, size, |es|, if |es| < 2 then |es| else 2, head];
    var buf := PutHeader(24, hs);
    ghost var ws := hs + ZeroWords(16);
    if |es| >= 1 {
      buf := PutExtent(buf, ws, 8, es[0]);
      ws := ws[8 := es[0].logical][9 := es[0].physical][10 := es[0].count][11 := es[0].flags];
    }
    if |es| >= 2 {
      buf := PutExtent(buf, ws, 12, es[1]);
      ws := ws[12 := es[1].logical][13 := es[1].physical][14 := es[1].count][15 := es[1].flags];
    }
    RecordWordsBuilt(hs, es, ws);
    rec := Checksummed(buf, RECORD_CHECKSUM);
  }

  predicate HoldsExtent(ws: seq<u64>, k: nat, e: Extent)
    requires k + 4 <= |ws|
  {
    ws[k] == e.logical && ws[k + 1] == e.physical && ws[k + 2] == e.count && ws[k + 3] == e.flags
  }

  lemma RecordWordsBuilt(hs: seq<u64>, es: seq<Extent>, ws: seq<u64>)
    requires |hs| == 8 && |ws| == 24 && ws[..8] == hs && ws[16..] == ZeroWords(8)
    requires HoldsExtent(ws, 8, if |es| >= 1 then es[0] else Extent(0, 0, 0, 0))
    requires HoldsExtent(ws, 12, if |es| >= 2 then es[1] else Extent(0, 0, 0, 0))
    ensures ws == hs + InlineWords(es) + ZeroWords(7) + [0]
  {
    if |es| >= 1 { InlineWordAt(es, 0); }
    if |es| >= 2 { InlineWordAt(es, 1); }
    assert ws[8..16] == InlineWords(es);
    assert ZeroWords(8) == ZeroWords(7) + [0];
  }

  // ----- payload chunks -----

  function Chunk(payload: seq<byte>, i: nat): (b: Block) {
    var from := i * 4096;
    if from >= |payload| then Zeros(4096)
    else if from + 4096 <= |payload| then payload[from..from + 4096]
    else payload[from..] + Zeros(from + 4096 - |payload|)
  }

  function CeilDiv(n: nat, d: nat): (q: nat)
    requires d > 0
    ensures (q - 1) * d < n <= q * d || (n == 0 && q == 0)
  {
    (n + d - 1) / d
  }

  /** Blocks holding the chunks of a payload read back as the payload. */
  lemma {:induction false} ChunksRead(img: Image, bs: seq<nat>, payload: seq<byte>)
    requires |payload| <= 4096 * |bs|
    requires forall i :: 0 <= i < |bs| ==> bs[i] < |img| && img[bs[i]] == Chunk(payload, i)
    ensures |BlockBytes(img, bs)| == 4096 * |bs|
    ensures Prefix(BlockBytes(img, bs), |payload|) == payload
  {
    if bs != [] {
      var rest := if |payload| <= 4096 then [] else payload[4096..];
      forall i | 0 <= i < |bs[1..]| ensures img[bs[1..][i]] == Chunk(rest, i) {
        ChunkTail(payload, rest, i);
      }
      ChunksRead(img, bs[1..], rest);
      var head, tail := img[bs[0]], BlockBytes(img, bs[1..]);
      if |payload| <= 4096 {
        assert Prefix(head + tail, |payload|) == payload;
      } else {
        assert payload == head + rest;
        assert Prefix(head + tail, |payload|) == head + Prefix(tail, |rest|);
      }
    }
  }

  lemma ChunkTail(payload: seq<byte>, rest: seq<byte>, i: nat)
    requires rest == if |payload| <= 4096 then [] else payload[4096..]
    ensures Chunk(payload, i + 1) == Chunk(rest, i)
  {
  }
}
