/** The boot reader: an independent, stricter reader of the same records. It
    validates every extent it passes on the way to the block it wants. */
module MgfsBootReader {
  import opened Options
  import opened MgfsBytes
  import opened MgfsImage
  import opened MgfsOwnership
  import opened MgfsFormat
  import opened MgfsUpdater
  import opened MgfsLayout

  const DATA: u64 := 1
  const DIRECTORY: u64 := 2

  // ----- records -----

  /** The record checks of the boot reader. */
  predicate RecordAccepted(rec: seq<byte>, minor: u64)
    requires |rec| == RECORD_BYTES
  {
    var kind, count, inl, list := U64(rec, TYPE), U64(rec, EXTENT_COUNT), U64(rec, INLINE_COUNT), U64(rec, LIST_HEAD);
    && Checked(rec, RECORD_CHECKSUM)
    && U64(rec, ID) != 0 && U64(rec, GENERATION) != 0
    && (kind == 1 || kind == 2)
    && FlagsKnown(U64(rec, FLAGS)) && Permissions(rec) != 0
    && !(kind == 1 && Restricted(rec)) && !(minor == 1 && Restricted(rec))
    && inl <= 2 && inl <= count
    && !(count <= 2 && list != 0)
    && (Inline(rec) ==> kind == 1 && count == 0 && inl == 0 && list == 0 && U64(rec, SIZE) <= 56)
  }

  // ----- extents -----

  predicate ExtentOk(l: Layout, e: Extent, expected: nat, flags: u64) {
    && e.count != 0 && e.logical == expected && e.flags == flags
    && e.logical + e.count < 0x1_0000_0000_0000_0000
    && l.dataStart <= e.physical < l.dataStart + l.dataBlocks
    && e.count <= l.dataBlocks - (e.physical - l.dataStart)
  }

  /** Every extent is in place, in the data area, and data extents ascend. */
  ghost predicate ExtentsOk(l: Layout, es: seq<Extent>, flags: u64) {
    && (forall i :: 0 <= i < |es| ==> ExtentOk(l, es[i], Covered(es[..i]), flags))
    && (flags == DATA ==> PhysicallyAscending(es))
  }

  predicate ReservedZero(blk: Block) {
    forall i :: 40 <= i < 64 ==> blk[i] == 0
  }

  predicate BootListOk(l: Layout, blk: Block, list: nat, id: u64) {
    && ListBlockOk(blk) && U64(blk, 8) == id && Checked(blk, 32) && ReservedZero(blk)
    && U64(blk, 16) != list && l.dataStart <= list < l.dataStart + l.dataBlocks
  }

  /** The boot reader's chain walk: at most `cap` list blocks and `room` extents. */
  function BootChain(img: Image, l: Layout, list: nat, id: u64, cap: nat, room: int): Option<seq<Extent>>
    decreases cap
  {
    if list == 0 then Some([])
    else if cap == 0 || list >= |img| || !BootListOk(l, img[list], list, id) || U64(img[list], 24) > room then None
    else
      var rest := BootChain(img, l, U64(img[list], 16), id, cap - 1, room - U64(img[list], 24));
      if rest.None? then None else Some(ListEntries(img[list]) + rest.value)
  }

  /** All extents of a record, provided the boot reader accepts every one. */
  ghost function BootExtents(img: Image, l: Layout, rec: seq<byte>, flags: u64): Option<seq<Extent>>
    requires |rec| == RECORD_BYTES && U64(rec, INLINE_COUNT) <= 2
  {
    var chain := BootChain(img, l, U64(rec, LIST_HEAD), U64(rec, ID), l.recordCount,
                           U64(rec, EXTENT_COUNT) - U64(rec, INLINE_COUNT));
    if chain.None? then None
    else
      var es := InlineExtents(rec) + chain.value;
      if |es| == U64(rec, EXTENT_COUNT) && ExtentsOk(l, es, flags) then Some(es) else None
  }

  /** A logical block of a record, through the validated extents. */
  ghost function MappedBlock(img: Image, l: Layout, rec: seq<byte>, wanted: nat, flags: u64): Option<Block>
    requires |rec| == RECORD_BYTES && U64(rec, INLINE_COUNT) <= 2
  {
    var es := BootExtents(img, l, rec, flags);
    if es.None? || wanted >= |DataBlocks(es.value)| || DataBlocks(es.value)[wanted] >= |img| then None
    else Some(img[DataBlocks(es.value)[wanted]])
  }

  // ----- the scan -----

  /** What the scan knows after the extents `done`. */
  ghost predicate Scanned(img: Image, l: Layout, done: seq<Extent>, flags: u64, wanted: nat,
                          expected: nat, previousEnd: nat, found: bool, output: Block) {
    && ExtentsOk(l, done, flags) && expected == Covered(done)
    && previousEnd == (if done == [] then 0 else done[|done| - 1].physical + done[|done| - 1].count)
    && (found <==> wanted < expected)
    && (found ==>
          wanted < |DataBlocks(done)| && DataBlocks(done)[wanted] < |img| && output == img[DataBlocks(done)[wanted]])
  }

  lemma ScanExtent(img: Image, l: Layout, done: seq<Extent>, e: Extent, flags: u64, wanted: nat,
                   expected: nat, previousEnd: nat, found: bool, output: Block)
    requires Geometry(l, |img|)
    requires Scanned(img, l, done, flags, wanted, expected, previousEnd, found, output)
    requires ExtentOk(l, e, expected, flags) && !(flags == DATA && done != [] && e.physical < previousEnd)
    ensures var here := expected <= wanted < expected + e.count;
            && (here ==> e.physical + (wanted - expected) < |img|)
            && Scanned(img, l, done + [e], flags, wanted, expected + e.count, e.physical + e.count, found || here,
                       if here then img[e.physical + (wanted - expected)] else output)
  {
    hide DataBlocks, Covered, ExtentsOk;
    DataBlocksAppend(done, e);
    CoveredIsLength(done);
    ExtentsOkAppend(l, done, e, flags);
  }

  lemma ExtentsOkAppend(l: Layout, done: seq<Extent>, e: Extent, flags: u64)
    requires ExtentsOk(l, done, flags) && ExtentOk(l, e, Covered(done), flags)
    requires flags == DATA && done != [] ==> e.physical >= done[|done| - 1].physical + done[|done| - 1].count
    ensures ExtentsOk(l, done + [e], flags)
  {
    hide Covered, ExtentOk;
    var es := done + [e];
    assert es[..|done|] == done;
    forall i | 0 <= i < |es| ensures ExtentOk(l, es[i], Covered(es[..i]), flags) {
      if i < |done| {
        assert es[..i] == done[..i];
      }
    }
  }

  /** A bad extent makes every continuation unacceptable. */
  lemma ScanRejects(l: Layout, done: seq<Extent>, e: Extent, rest: seq<Extent>, flags: u64)
    requires !ExtentOk(l, e, Covered(done), flags)
             || (flags == DATA && done != [] && e.physical < done[|done| - 1].physical + done[|done| - 1].count)
    ensures !ExtentsOk(l, done + [e] + rest, flags)
  {
    var es := done + [e] + rest;
    assert es[|done|] == e && es[..|done|] == done;
    if done != [] {
      assert es[|done| - 1] == done[|done| - 1];
    }
  }

  lemma ExtentsOkPrefix(l: Layout, a: seq<Extent>, b: seq<Extent>, flags: u64)
    requires ExtentsOk(l, a + b, flags)
    ensures ExtentsOk(l, a, flags)
  {
    assert forall i :: 0 <= i < |a| ==> (a + b)[i] == a[i] && (a + b)[..i] == a[..i];
  }

  /** Scan a run of extents after `done`, stopping at the first bad one. */
  method ScanRun(img: Image, l: Layout, ghost done: seq<Extent>, run: seq<Extent>, flags: u64, wanted: nat,
                 count: nat, expected: nat, previousEnd: nat, found: bool, output: Block)
    returns (ok: bool, expected': nat, previousEnd': nat, found': bool, output': Block)
    requires Geometry(l, |img|) && count == |done|
    requires Scanned(img, l, done, flags, wanted, expected, previousEnd, found, output)
    ensures ok <==> ExtentsOk(l, done + run, flags)
    ensures ok ==> Scanned(img, l, done + run, flags, wanted, expected', previousEnd', found', output')
  {
    hide ExtentsOk, DataBlocks;
    expected', previousEnd', found', output' := expected, previousEnd, found, output;
    assert done + run[..0] == done;
    for k := 0 to |run|
      invariant Scanned(img, l, done + run[..k], flags, wanted, expected', previousEnd', found', output')
    {
      var e := run[k];
      ghost var before := done + run[..k];
      assert before + [e] == done + run[..k + 1];
      assert before + [e] + run[k + 1..] == done + run;
      if !ExtentOk(l, e, expected', flags) || (flags == DATA && count + k != 0 && e.physical < previousEnd') {
        ScanRejects(l, before, e, run[k + 1..], flags);
        return false, expected', previousEnd', found', output';
      }
      ScanExtent(img, l, before, e, flags, wanted, expected', previousEnd', found', output');
      if expected' <= wanted < expected' + e.count {
        output' := img[e.physical + (wanted - expected')];
        found' := true;
      }
      expected', previousEnd' := expected' + e.count, e.physical + e.count;
    }
    assert run[..|run|] == run;
    ok := true;
  }

  function Joined(a: seq<Extent>, r: Option<seq<Extent>>): Option<seq<Extent>> {
    if r.None? then None else Some(a + r.value)
  }

  lemma JoinedTwice(a: seq<Extent>, b: seq<Extent>, r: Option<seq<Extent>>)
    ensures Joined(a, Joined(b, r)) == Joined(a + b, r)
  {
    if r.Some? {
      assert a + (b + r.value) == a + b + r.value;
    }
  }

  lemma BootChainStep(img: Image, l: Layout, list: nat, id: u64, cap: nat, room: int, a: seq<Extent>)
    requires list != 0 && cap > 0 && list < |img| && BootListOk(l, img[list], list, id) && U64(img[list], 24) <= room
    ensures Joined(a, BootChain(img, l, list, id, cap, room))
            == Joined(a + ListEntries(img[list]),
                      BootChain(img, l, U64(img[list], 16), id, cap - 1, room - U64(img[list], 24)))
  {
    hide U64;
    JoinedTwice(a, ListEntries(img[list]),
                BootChain(img, l, U64(img[list], 16), id, cap - 1, room - U64(img[list], 24)));
  }

  /** The parts of a scan that has followed the chain to `list`. */
  ghost predicate Following(img: Image, l: Layout, rec: seq<byte>, done: seq<Extent>, list: nat, cap: nat)
    requires |rec| == RECORD_BYTES && U64(rec, INLINE_COUNT) <= 2
  {
    Joined(InlineExtents(rec), BootChain(img, l, U64(rec, LIST_HEAD), U64(rec, ID), l.recordCount,
                                         U64(rec, EXTENT_COUNT) - U64(rec, INLINE_COUNT)))
    == Joined(done, BootChain(img, l, list, U64(rec, ID), cap, U64(rec, EXTENT_COUNT) - |done|))
  }

  lemma FollowingFails(img: Image, l: Layout, rec: seq<byte>, done: seq<Extent>, list: nat, cap: nat, flags: u64,
                       wanted: nat)
    requires |rec| == RECORD_BYTES && U64(rec, INLINE_COUNT) <= 2
    requires Following(img, l, rec, done, list, cap)
    requires BootChain(img, l, list, U64(rec, ID), cap, U64(rec, EXTENT_COUNT) - |done|).None?
             || !ExtentsOk(l, done, flags)
    ensures MappedBlock(img, l, rec, wanted, flags) == None
  {
    hide ExtentsOk, BootChain, U64, DataBlocks;
    var rest := BootChain(img, l, list, U64(rec, ID), cap, U64(rec, EXTENT_COUNT) - |done|);
    if rest.Some? && ExtentsOk(l, done + rest.value, flags) {
      ExtentsOkPrefix(l, done, rest.value, flags);
    }
  }

  lemma FollowingEnds(img: Image, l: Layout, rec: seq<byte>, done: seq<Extent>, cap: nat, flags: u64, wanted: nat,
                      expected: nat, previousEnd: nat, found: bool, output: Block)
    requires |rec| == RECORD_BYTES && U64(rec, INLINE_COUNT) <= 2
    requires Following(img, l, rec, done, 0, cap)
    requires Scanned(img, l, done, flags, wanted, expected, previousEnd, found, output)
    ensures MappedBlock(img, l, rec, wanted, flags)
            == if found && |done| == U64(rec, EXTENT_COUNT) then Some(output) else None
  {
    hide ExtentsOk, U64;
    CoveredIsLength(done);
    assert done + [] == done;
  }

  /** Read one logical block of a record. */
  method ReadMappedBlock(img: Image, l: Layout, rec: seq<byte>, wanted: nat, flags: u64) returns (r: Option<Block>)
    requires Geometry(l, |img|) && |rec| == RECORD_BYTES && U64(rec, INLINE_COUNT) <= 2
    ensures r == MappedBlock(img, l, rec, wanted, flags)
  {
    hide Scanned, ExtentsOk, DataBlocks, MappedBlock, Checked, U64, ExtentAt;
    var total, id: u64 := U64(rec, EXTENT_COUNT), U64(rec, ID);
    var run := InlineExtents(rec);
    StartScan(img, l, flags, wanted, Zeros(4096));
    assert [] + run == run;
    var ok, expected, previousEnd, found,
      output := ScanRun(img, l, [], run, flags, wanted, 0, 0, 0, false, Zeros(4096));
    var list: nat, lists: nat, count: nat := U64(rec, LIST_HEAD), 0, |run|;
    ghost var done := run;
    if !ok {
      FollowingFails(img, l, rec, done, list, l.recordCount, flags, wanted);
      return None;
    }
    while list != 0
      invariant lists <= l.recordCount && count == |done|
      invariant Following(img, l, rec, done, list, l.recordCount - lists)
      invariant Scanned(img, l, done, flags, wanted, expected, previousEnd, found, output)
      decreases l.recordCount - lists
    {
      if lists == l.recordCount || list >= |img| || !BootListOk(l, img[list], list, id)
        || U64(img[list], 24) > total - count {
        FollowingFails(img, l, rec, done, list, l.recordCount - lists, flags, wanted);
        return None;
      }
      BootChainStep(img, l, list, id, l.recordCount - lists, total - count, done);
      run := ListEntries(img[list]);
      ok, expected, previousEnd, found, output :=
        ScanRun(img, l, done, run, flags, wanted, count, expected, previousEnd, found, output);
      done := done + run;
      list, lists, count := U64(img[list], 16), lists + 1, count + |run|;
      if !ok {
        FollowingFails(img, l, rec, done, list, l.recordCount - lists, flags, wanted);
        return None;
      }
    }
    FollowingEnds(img, l, rec, done, l.recordCount - lists, flags, wanted, expected, previousEnd, found, output);
    return if found && count == total then Some(output) else None;
  }

  lemma StartScan(img: Image, l: Layout, flags: u64, wanted: nat, output: Block)
    ensures Scanned(img, l, [], flags, wanted, 0, 0, false, output)
  {
  }

  // ----- what the updater wrote, the boot reader accepts -----

  lemma {:induction false} ChainLength(img: Image, id: u64, es: seq<Extent>, lists: seq<nat>)
    requires ChainWritten(img, id, es, lists)
    ensures |lists| == (|es| + 125) / 126
    decreases |lists|
  {
    if es != [] {
      ChainLength(img, id, Drop(es), lists[1..]);
    }
  }

  lemma ListBlockAccepted(l: Layout, b: Block, list: nat, id: u64, next: u64, entries: seq<Extent>)
    requires IsListBlock(b, id, next, entries) && next != list && InData(l, list)
    ensures BootListOk(l, b, list, id) && U64(b, 16) == next && U64(b, 24) == |entries| && ListEntries(b) == entries
  {
  }

  lemma {:induction false} BootChainReads(img: Image, l: Layout, id: u64, es: seq<Extent>, lists: seq<nat>, cap: nat,
                                          room: nat)
    requires ChainWritten(img, id, es, lists) && NoDup(lists) && |lists| <= cap && |es| <= room
    requires forall i :: 0 <= i < |lists| ==> InData(l, lists[i])
    ensures BootChain(img, l, Head(lists), id, cap, room) == Some(es)
    decreases |lists|
  {
    hide Crc, U64, IsListBlock, BootListOk, ListEntries, InData, BootChain;
    BootChainEnds(img, l, id, cap, room);
    if es != [] {
      var rest := lists[1..];
      assert forall i :: 0 <= i < |rest| ==> rest[i] == lists[i + 1];
      ListBlockAccepted(l, img[lists[0]], lists[0], id, Head(rest), Take(es));
      BootChainReads(img, l, id, Drop(es), rest, cap - 1, room - |Take(es)|);
      BootChainNext(img, l, lists[0], id, cap, room, Drop(es));
      assert Take(es) + Drop(es) == es;
    }
  }

  lemma BootChainEnds(img: Image, l: Layout, id: u64, cap: nat, room: nat)
    ensures BootChain(img, l, 0, id, cap, room) == Some([])
  {
  }

  lemma BootChainNext(img: Image, l: Layout, list: nat, id: u64, cap: nat, room: nat, rest: seq<Extent>)
    requires 0 < list < |img| && cap > 0 && BootListOk(l, img[list], list, id) && U64(img[list], 24) <= room
    requires BootChain(img, l, U64(img[list], 16), id, cap - 1, room - U64(img[list], 24)) == Some(rest)
    ensures BootChain(img, l, list, id, cap, room) == Some(ListEntries(img[list]) + rest)
  {
    hide Crc, U64, BootListOk, ListEntries;
  }

  lemma {:induction false} LaidAt(es: seq<Extent>, from: nat, i: nat)
    requires Laid(es, from) && i < |es|
    ensures es[i].logical == from + Covered(es[..i]) && es[i].count >= 1
  {
    if i > 0 {
      LaidAt(es[1..], from + es[0].count, i - 1);
      assert es[..i][1..] == es[1..][..i - 1];
    }
  }

  /** Block k of extent i, found in the flattened list. */
  lemma {:induction false} ExtentBlock(es: seq<Extent>, i: nat, k: nat)
    requires i < |es| && k < es[i].count
    ensures Covered(es[..i]) + k < |DataBlocks(es)|
    ensures DataBlocks(es)[Covered(es[..i]) + k] == es[i].physical + k
  {
    if i > 0 {
      ExtentBlock(es[1..], i - 1, k);
      assert es[..i][1..] == es[1..][..i - 1];
      var head, tail := Range(es[0].physical, es[0].count), DataBlocks(es[1..]);
      var at := Covered(es[1..][..i - 1]) + k;
      assert (head + tail)[|head| + at] == tail[at];
    }
  }

  lemma ExtentsAccepted(l: Layout, total: nat, es: seq<Extent>, flags: u64)
    requires Geometry(l, total) && Extents(es, DataBlocks(es), flags) && (flags == DATA ==> PhysicallyAscending(es))
    requires NoDup(DataBlocks(es)) && forall i :: 0 <= i < |DataBlocks(es)| ==> InData(l, DataBlocks(es)[i])
    ensures ExtentsOk(l, es, flags)
  {
    hide DataBlocks;
    DistinctBound(DataBlocks(es), total);
    forall i | 0 <= i < |es| ensures ExtentOk(l, es[i], Covered(es[..i]), flags) {
      LaidAt(es, 0, i);
      ExtentBlock(es, i, 0);
      ExtentBlock(es, i, es[i].count - 1);
      assert es[i] in es;
    }
  }

  lemma FootprintParts(l: Layout, data: seq<nat>, lists: seq<nat>)
    requires NoDup(data + lists) && forall p :: p in data + lists ==> InData(l, p)
    ensures NoDup(data) && NoDup(lists)
    ensures forall i :: 0 <= i < |data| ==> InData(l, data[i])
    ensures forall i :: 0 <= i < |lists| ==> InData(l, lists[i])
  {
    var foot := data + lists;
    assert forall i :: 0 <= i < |data| ==> foot[i] == data[i] && foot[i] in foot;
    assert forall i :: 0 <= i < |lists| ==> foot[|data| + i] == lists[i] && foot[|data| + i] in foot;
  }

  /** Every record the updater wrote is read by the boot reader through the
      same extents: order check, list format, checksums and list cap included. */
  lemma WrittenIsAccepted(img: Image, l: Layout, rec: seq<byte>, kind: u64, id: u64)
    requires 64 <= |img| < 0x10_0000_0000_0000 && CalculateLayout(|img|) == Ok(l)
    requires WellWritten(img, l, rec, kind, id) && U64(rec, ID) == id && NoDup(Footprint(img, rec))
    ensures BootExtents(img, l, rec, kind) == Some(RecordExtents(img, rec).value.0)
  {
    hide Crc, U64, Chain, CalculateLayout, ExtentsOk, ChainWritten, BootChain, DataBlocks;
    LayoutPartitions(|img|);
    var (es, lists) := RecordExtents(img, rec).value;
    FootprintParts(l, DataBlocks(es), lists);
    ExtentsAccepted(l, |img|, es, kind);
    var tail := es[InlineCount(es)..];
    ChainLength(img, id, tail, lists);
    LaidLength(es, 0);
    CapHolds(img, l, es, lists);
    BootChainReads(img, l, id, tail, lists, l.recordCount, |tail|);
    InlineRead(rec, es);
    assert es[..InlineCount(es)] + tail == es;
  }

  lemma CapHolds(img: Image, l: Layout, es: seq<Extent>, lists: seq<nat>)
    requires 64 <= |img| < 0x10_0000_0000_0000 && CalculateLayout(|img|) == Ok(l) && Geometry(l, |img|)
    requires |es| <= |DataBlocks(es)| && NoDup(DataBlocks(es))
    requires forall i :: 0 <= i < |DataBlocks(es)| ==> InData(l, DataBlocks(es)[i])
    requires |lists| == (|es| - InlineCount(es) + 125) / 126
    ensures |lists| <= l.recordCount
  {
    var shifted := seq(|DataBlocks(es)|, i requires 0 <= i < |DataBlocks(es)| => DataBlocks(es)[i] - l.dataStart);
    DistinctBound(shifted, l.dataBlocks);
    ListCapSuffices(|img|, |es|);
  }

  // ----- reading a file -----

  /** The bytes of the blocks of a record, through the validated extents. */
  ghost function MappedBytes(img: Image, l: Layout, rec: seq<byte>, flags: u64): Option<seq<byte>>
    requires |rec| == RECORD_BYTES && U64(rec, INLINE_COUNT) <= 2
  {
    var es := BootExtents(img, l, rec, flags);
    if es.None? then None else Some(BlockBytes(img, DataBlocks(es.value)))
  }

  /** The bytes behind a file record. */
  ghost function FileBytes(img: Image, l: Layout, rec: seq<byte>): Option<seq<byte>>
    requires |rec| == RECORD_BYTES && U64(rec, INLINE_COUNT) <= 2
  {
    if Inline(rec) then Some(rec[128..184]) else MappedBytes(img, l, rec, DATA)
  }

  lemma {:induction false} BlockAt(img: Image, bs: seq<nat>, k: nat)
    requires k < |bs| && forall i :: 0 <= i < |bs| ==> bs[i] < |img|
    ensures |BlockBytes(img, bs)| == 4096 * |bs|
    ensures BlockBytes(img, bs)[4096 * k..4096 * k + 4096] == img[bs[k]]
  {
    BlockBytesLength(img, bs);
    if k > 0 {
      BlockAt(img, bs[1..], k - 1);
      var head: seq<byte>, tail: seq<byte> := img[bs[0]], BlockBytes(img, bs[1..]);
      assert (head + tail)[4096 + 4096 * (k - 1)..4096 + 4096 * (k - 1) + 4096]
             == tail[4096 * (k - 1)..4096 * (k - 1) + 4096];
    }
  }

  lemma {:induction false} BlockBytesLength(img: Image, bs: seq<nat>)
    requires forall i :: 0 <= i < |bs| ==> bs[i] < |img|
    ensures |BlockBytes(img, bs)| == 4096 * |bs|
  {
    if bs != [] {
      BlockBytesLength(img, bs[1..]);
    }
  }

  lemma {:induction false} ExtentsInImage(l: Layout, total: nat, es: seq<Extent>, flags: u64)
    requires Geometry(l, total) && ExtentsOk(l, es, flags)
    ensures forall i :: 0 <= i < |DataBlocks(es)| ==> DataBlocks(es)[i] < total
    decreases |es|
  {
    if es != [] {
      var front, last := es[..|es| - 1], es[|es| - 1];
      assert es == front + [last];
      ExtentsOkPrefix(l, front, [last], flags);
      ExtentsInImage(l, total, front, flags);
      DataBlocksAppend(front, last);
    }
  }

  lemma SliceOfSlice(s: seq<byte>, base: nat, len: nat, w: nat, n: nat)
    requires base + len <= |s| && w + n <= len
    ensures s[base..base + len][w..w + n] == s[base + w..base + w + n]
  {
    var mid, result := s[base..base + len][w..w + n], s[base + w..base + w + n];
    assert forall i :: 0 <= i < n ==> mid[i] == result[i];
  }

  lemma ChunkExists(img: Image, l: Layout, rec: seq<byte>, flags: u64, position: nat, n: nat)
    requires Geometry(l, |img|) && |rec| == RECORD_BYTES && U64(rec, INLINE_COUNT) <= 2
    requires position % 4096 + n <= 4096 && n > 0
    ensures var bytes := MappedBytes(img, l, rec, flags);
            MappedBlock(img, l, rec, position / 4096, flags).Some? <==> bytes.Some? && position + n <= |bytes.value|
  {
    hide Crc, U64, BootChain, ExtentsOk, InlineExtents, DataBlocks, BlockBytes;
    var es := BootExtents(img, l, rec, flags);
    if es.Some? {
      ExtentsInImage(l, |img|, es.value, flags);
      BlockBytesLength(img, DataBlocks(es.value));
    }
  }

  lemma BytesChunk(img: Image, bs: seq<nat>, position: nat, n: nat)
    requires forall i :: 0 <= i < |bs| ==> bs[i] < |img|
    requires position / 4096 < |bs| && position % 4096 + n <= 4096
    ensures position + n <= |BlockBytes(img, bs)|
    ensures BlockBytes(img, bs)[position..position + n]
            == img[bs[position / 4096]][position % 4096..position % 4096 + n]
  {
    hide BlockBytes;
    var k, w := position / 4096, position % 4096;
    BlockAt(img, bs, k);
    SliceOfSlice(BlockBytes(img, bs), 4096 * k, 4096, w, n);
  }

  /** The chunk of a record's bytes inside one block. */
  lemma Chunk(img: Image, l: Layout, rec: seq<byte>, flags: u64, position: nat, n: nat)
    requires Geometry(l, |img|) && |rec| == RECORD_BYTES && U64(rec, INLINE_COUNT) <= 2
    requires position % 4096 + n <= 4096 && n > 0
    requires MappedBlock(img, l, rec, position / 4096, flags).Some?
    ensures var bytes := MappedBytes(img, l, rec, flags);
            && bytes.Some? && position + n <= |bytes.value|
            && bytes.value[position..position + n]
               == MappedBlock(img, l, rec, position / 4096, flags).value[position % 4096..position % 4096 + n]
  {
    var es := BootExtents(img, l, rec, flags);
    ExtentsInImage(l, |img|, es.value, flags);
    hide Crc, U64, BootExtents, DataBlocks, BlockBytes;
    BytesChunk(img, DataBlocks(es.value), position, n);
  }

  class BootFile {
    const img: Image
    const l: Layout
    const rec: seq<byte>
    const size: nat
    var position: nat

    constructor (img: Image, l: Layout, rec: seq<byte>)
      requires |rec| == RECORD_BYTES
      ensures this.img == img && this.l == l && this.rec == rec && size == U64(rec, SIZE) && position == 0
    {
      this.img, this.l, this.rec := img, l, rec;
      size, position := U64(rec, SIZE), 0;
    }

    ghost predicate Open() {
      Geometry(l, |img|) && |rec| == RECORD_BYTES && RecordAccepted(rec, 2) && size == U64(rec, SIZE)
    }

    /** Read up to `requested` bytes at the position: exactly that slice of the
        file, short only at end of file, and a successful read moves past it. */
    method Read(requested: nat) returns (r: Option<seq<byte>>)
      requires Open()
      modifies this
      ensures old(position) >= size ==> r == Some([]) && position == old(position)
      ensures old(position) < size ==>
                var n := if requested < size - old(position) then requested else size - old(position);
                var bytes := FileBytes(img, l, rec);
                && (r.Some? <==> n == 0 || (bytes.Some? && old(position) + n <= |bytes.value|))
                && (r.Some? ==> position == old(position) + n)
                && (r.Some? && n > 0 ==> r.value == bytes.value[old(position)..old(position) + n])
                && (r.Some? && n == 0 ==> r.value == [])
    {
      hide Checked, FlagsKnown, MappedBlock;
      if position >= size {
        return Some([]);
      }
      var remaining := if requested < size - position then requested else size - position;
      if Inline(rec) {
        r := Some(rec[128 + position..128 + position + remaining]);
        SliceOfSlice(rec, 128, 56, position, remaining);
        position := position + remaining;
        return;
      }
      r := ReadBlocks(img, l, rec, DATA, position, remaining);
      position := position + remaining;
    }
  }

  lemma SliceJoin(s: seq<byte>, a: nat, b: nat, c: nat)
    requires a <= b <= c <= |s|
    ensures s[a..b] + s[b..c] == s[a..c]
  {
  }

  /** The block-by-block copy loop of a read. */
  method ReadBlocks(img: Image, l: Layout, rec: seq<byte>, flags: u64, start: nat, n: nat)
    returns (r: Option<seq<byte>>)
    requires Geometry(l, |img|) && |rec| == RECORD_BYTES && U64(rec, INLINE_COUNT) <= 2
    ensures var bytes := MappedBytes(img, l, rec, flags);
            && (r.Some? <==> n == 0 || (bytes.Some? && start + n <= |bytes.value|))
            && (r.Some? ==> r.value == if n == 0 then [] else bytes.value[start..start + n])
  {
    hide MappedBytes, MappedBlock, U64;
    ghost var bytes := MappedBytes(img, l, rec, flags);
    var position: nat, remaining: nat, output: seq<byte> := start, n, [];
    while remaining > 0
      invariant start <= position && position + remaining == start + n
      invariant position > start ==> bytes.Some? && position <= |bytes.value| && output == bytes.value[start..position]
      invariant position == start ==> output == []
    {
      var within := position % 4096;
      var chunk := if 4096 - within > remaining then remaining else 4096 - within;
      ChunkExists(img, l, rec, flags, position, chunk);
      var block := ReadMappedBlock(img, l, rec, position / 4096, flags);
      if block.None? {
        return None;
      }
      Chunk(img, l, rec, flags, position, chunk);
      SliceJoin(bytes.value, start, position, position + chunk);
      output := output + block.value[within..within + chunk];
      position := position + chunk;
      remaining := remaining - chunk;
    }
    return Some(output);
  }

  /** Read part of a directory's entries. */
  method ReadDirectoryBytes(img: Image, l: Layout, rec: seq<byte>, offset: nat, size: nat)
    returns (r: Option<seq<byte>>)
    requires Geometry(l, |img|) && |rec| == RECORD_BYTES && U64(rec, INLINE_COUNT) <= 2
    ensures var bytes := MappedBytes(img, l, rec, DIRECTORY);
            && (r.Some? <==> offset + size <= U64(rec, SIZE)
                             && (size == 0 || (bytes.Some? && offset + size <= |bytes.value|)))
            && (r.Some? ==> r.value == if size == 0 then [] else bytes.value[offset..offset + size])
  {
    hide MappedBytes, U64;
    if offset + size > U64(rec, SIZE) {
      return None;
    }
    r := ReadBlocks(img, l, rec, DIRECTORY, offset, size);
  }

  /** A record the updater wrote in place of one with permissions passes the boot reader's record checks. */
  lemma WrittenRecordAccepted(img: Image, l: Layout, old': seq<byte>, rec: seq<byte>, kind: u64, id: u64, size: nat,
                              minor: u64)
    requires kind in {1, 2} && id != 0 && RecordUpdated(old', rec, kind, id, size) && WellWritten(img, l, rec, kind, id)
    requires Permissions(old') != 0 && !(minor == 1 && Restricted(old'))
    ensures RecordAccepted(rec, minor)
  {
    hide Crc, U64, Chain, Checked, ChainWritten, FlagsKnown;
    var (es, lists) := RecordExtents(img, rec).value;
    if |es| <= 2 {
      assert es[InlineCount(es)..] == [];
      ShortChain(img, id, es[InlineCount(es)..], lists);
    }
  }

  lemma ShortChain(img: Image, id: u64, es: seq<Extent>, lists: seq<nat>)
    requires ChainWritten(img, id, es, lists) && es == []
    ensures lists == []
  {
  }

  /** Whatever payload the updater wrote over a record with permissions, the boot reader
      accepts the record and finds exactly the payload's bytes. */
  lemma BootReadsPayload(img: Image, img': Image, l: Layout, slot: nat, kind: u64, id: u64, payload: seq<byte>)
    requires 64 <= |img'| < 0x10_0000_0000_0000 && CalculateLayout(|img'|) == Ok(l) && id != 0 && kind in {1, 2}
    requires Rewritten(img, img', l, slot, kind, id, payload) && Permissions(RecordAt(img, l, slot)) != 0
    ensures var rec := RecordAt(img', l, slot);
            && RecordAccepted(rec, 2) && U64(rec, TYPE) == kind && U64(rec, SIZE) == |payload|
            && (payload != [] ==>
                  && !Inline(rec) && MappedBytes(img', l, rec, kind).Some?
                  && |payload| <= |MappedBytes(img', l, rec, kind).value|
                  && MappedBytes(img', l, rec, kind).value[..|payload|] == payload)
  {
    hide U64, CalculateLayout, WellWritten, MappedBytes, RecordAccepted, RecordAt, Payload, OwnsCleanly;
    var rec := RecordAt(img', l, slot);
    assert OwnsCleanly(img', l, rec);
    WrittenRecordAccepted(img', l, RecordAt(img, l, slot), rec, kind, id, |payload|, 2);
    WrittenBytes(img', l, rec, kind, id, payload);
  }

  lemma WrittenBytes(img: Image, l: Layout, rec: seq<byte>, kind: u64, id: u64, payload: seq<byte>)
    requires 64 <= |img| < 0x10_0000_0000_0000 && CalculateLayout(|img|) == Ok(l) && Geometry(l, |img|)
    requires WellWritten(img, l, rec, kind, id) && U64(rec, ID) == id && OwnsCleanly(img, l, rec)
    requires Payload(img, rec) == Ok(payload) && U64(rec, SIZE) == |payload|
    ensures U64(rec, INLINE_COUNT) <= 2
    ensures payload != [] ==>
              && !Inline(rec) && MappedBytes(img, l, rec, kind).Some?
              && |payload| <= |MappedBytes(img, l, rec, kind).value|
              && MappedBytes(img, l, rec, kind).value[..|payload|] == payload
  {
    hide Crc, U64, Chain, CalculateLayout, ChainWritten, BootExtents, IsAllocated, Checked;
    WrittenIsAccepted(img, l, rec, kind, id);
    var es := RecordExtents(img, rec).value.0;
    if payload != [] {
      assert es != [];
      DataBlocksBytes(img, l, rec);
      assert Prefix(BlockBytes(img, DataBlocks(es)), |payload|) == payload;
    }
  }

  lemma DataBlocksBytes(img: Image, l: Layout, rec: seq<byte>)
    requires Geometry(l, |img|) && |rec| == RECORD_BYTES && OwnsCleanly(img, l, rec)
    ensures |BlockBytes(img, DataBlocks(RecordExtents(img, rec).value.0))|
            == 4096 * |DataBlocks(RecordExtents(img, rec).value.0)|
  {
    hide RecordExtents, DataBlocks, BlockBytes, Crc;
    var (es, lists) := RecordExtents(img, rec).value;
    FootprintParts(l, DataBlocks(es), lists);
    BlockBytesLength(img, DataBlocks(es));
  }
}
