/** The image updater: block allocation, extent-list chains, and the two
    payload replacements, each changing the image in place. */
module MgfsUpdater {
  import opened Options
  import opened MgfsBytes
  import opened MgfsImage
  import opened MgfsOwnership
  import opened MgfsFormat

  // ----- list chains -----

  function Head(lists: seq<nat>): nat {
    if lists == [] then 0 else lists[0]
  }

  function Take(es: seq<Extent>): (r: seq<Extent>)
    ensures |r| <= LIST_MAX
  {
    if |es| <= LIST_MAX then es else es[..LIST_MAX]
  }

  function Drop(es: seq<Extent>): seq<Extent> {
    if |es| <= LIST_MAX then [] else es[LIST_MAX..]
  }

  /** The list blocks hold the extents `es`, 126 at a time, each pointing at the next. */
  ghost predicate ChainWritten(img: Image, id: u64, es: seq<Extent>, lists: seq<nat>)
    decreases |lists|
  {
    if es == [] then lists == []
    else
      && lists != [] && 0 < lists[0] < |img| && Head(lists[1..]) < 0x10_0000_0000_0000
      && IsListBlock(img[lists[0]], id, Head(lists[1..]), Take(es))
      && ChainWritten(img, id, Drop(es), lists[1..])
  }

  /** A written chain reads back as the extents and the list blocks. */
  lemma {:induction false} ChainReads(img: Image, id: u64, es: seq<Extent>, lists: seq<nat>, seen: set<nat>)
    requires ChainWritten(img, id, es, lists) && NoDup(lists)
    requires forall b :: b in lists ==> b !in seen
    ensures Chain(img, Head(lists), seen) == Ok((es, lists))
    decreases |lists|
  {
    hide Crc, U64;
    if es != [] {
      var b := lists[0];
      assert lists == [b] + lists[1..];
      forall x | x in lists[1..] ensures x !in seen + {b} {
      }
      ChainReads(img, id, Drop(es), lists[1..], seen + {b});
      assert Take(es) + Drop(es) == es;
    }
  }

  function InlineCount(es: seq<Extent>): (n: nat)
    ensures n <= 2 && n <= |es|
  {
    if |es| < 2 then |es| else 2
  }

  lemma InlineRead(rec: seq<byte>, es: seq<Extent>)
    requires |rec| == RECORD_BYTES && U64(rec, INLINE_COUNT) == InlineCount(es)
    requires forall i :: 0 <= i < 2 && i < |es| ==> ExtentAt(rec, INLINE_EXTENTS + 32 * i) == es[i]
    ensures InlineExtents(rec) == es[..InlineCount(es)]
  {
  }

  /** A written record and its chain read back as the extents and lists they were made of. */
  lemma RecordExtentsRead(img: Image, rec: seq<byte>, id: u64, es: seq<Extent>, lists: seq<nat>)
    requires |rec| == RECORD_BYTES && U64(rec, INLINE_COUNT) == InlineCount(es)
    requires U64(rec, EXTENT_COUNT) == |es| && U64(rec, LIST_HEAD) == Head(lists)
    requires forall i :: 0 <= i < 2 && i < |es| ==> ExtentAt(rec, INLINE_EXTENTS + 32 * i) == es[i]
    requires ChainWritten(img, id, es[InlineCount(es)..], lists) && NoDup(lists)
    ensures RecordExtents(img, rec) == Ok((es, lists))
  {
    hide U64, ExtentAt, Chain, ChainWritten, InlineExtents, NoDup, Head;
    InlineRead(rec, es);
    ChainReads(img, id, es[InlineCount(es)..], lists, {});
    assert es[..InlineCount(es)] + es[InlineCount(es)..] == es;
  }

  // ----- the phases of a replacement -----

  /** Between the images only allocation bits changed, and exactly as `after` says. */
  ghost predicate Marked(img: Image, img': Image, l: Layout, bs: seq<nat>, value: bool) {
    && Geometry(l, |img|)
    && SameOutside(img, img', l.allocStart, l.recordBitmapStart)
    && (forall b :: b in bs ==> InData(l, b))
    && forall p :: InData(l, p) ==> IsAllocated(img', l, p) == if p in bs then value else IsAllocated(img, l, p)
  }

  lemma MarkedOne(img: Image, img': Image, l: Layout, bs: seq<nat>, value: bool, b: nat)
    requires Marked(img, img', l, bs, value) && InData(l, b)
    ensures Marked(img, WithAllocated(img', l, b, value), l, bs + [b], value)
  {
    AllocatedAfter(img', l, b, value);
  }

  lemma MarkedTrans(a: Image, b: Image, c: Image, l: Layout, bs: seq<nat>, cs: seq<nat>, value: bool)
    requires Marked(a, b, l, bs, value) && Marked(b, c, l, cs, value)
    ensures Marked(a, c, l, bs + cs, value)
  {
  }

  ghost predicate SameExcept(img: Image, img': Image, bs: seq<nat>) {
    |img| == |img'| && forall i :: 0 <= i < |img| && i !in bs ==> img[i] == img'[i]
  }

  lemma AllocationFrame(img: Image, img': Image, l: Layout)
    requires Geometry(l, |img|) && |img'| == |img|
    requires forall i :: l.allocStart <= i < l.recordBitmapStart ==> img[i] == img'[i]
    ensures forall p :: InData(l, p) ==> IsAllocated(img', l, p) == IsAllocated(img, l, p)
  {
    forall p | InData(l, p) ensures IsAllocated(img', l, p) == IsAllocated(img, l, p) {
      DataBitInRange(l, |img|, p);
    }
  }

  lemma TableFrame(img: Image, img': Image, l: Layout)
    requires Geometry(l, |img|) && |img'| == |img|
    requires forall i :: l.tableStart <= i < l.dataStart ==> img[i] == img'[i]
    ensures forall s :: 0 <= s < l.recordCount ==> RecordAt(img', l, s) == RecordAt(img, l, s)
  {
  }

  lemma TableAfter(img: Image, img': Image, l: Layout, slot: nat, rec: seq<byte>)
    requires Geometry(l, |img|) && slot < l.recordCount && |rec| == RECORD_BYTES
    requires img' == WithRecord(img, l, slot, rec)
    ensures SameOutside(img, img', l.tableStart, l.dataStart)
    ensures forall s :: 0 <= s < l.recordCount ==> RecordAt(img', l, s) == if s == slot then rec
            else RecordAt(img, l, s)
  {
    forall s | 0 <= s < l.recordCount
      ensures RecordAt(img', l, s) == if s == slot then rec else RecordAt(img, l, s)
    {
      RecordAfter(img, l, slot, rec, s);
    }
    RecordAfter(img, l, slot, rec, slot);
  }

  /** The four phases in order: mark new blocks (a to b), write blocks of `now`
      (b to c), write the record (c to d), unmark released blocks (d to e). */
  ghost predicate Phases(a: Image, b: Image, c: Image, d: Image, e: Image, l: Layout, slot: nat, rec: seq<byte>,
                         fresh': seq<nat>, now: seq<nat>, released: seq<nat>) {
    && Geometry(l, |a|) && slot < l.recordCount && |rec| == RECORD_BYTES
    && Marked(a, b, l, fresh', true)
    && (forall p :: p in now ==> InData(l, p))
    && SameExcept(b, c, now)
    && d == WithRecord(c, l, slot, rec)
    && Marked(d, e, l, released, false)
  }

  lemma PhasesTable(a: Image, b: Image, c: Image, d: Image, e: Image, l: Layout, slot: nat, rec: seq<byte>,
                    fresh': seq<nat>, now: seq<nat>, released: seq<nat>)
    requires Phases(a, b, c, d, e, l, slot, rec, fresh', now, released)
    ensures |e| == |a|
    ensures forall s :: 0 <= s < l.recordCount ==> RecordAt(e, l, s) == if s == slot then rec else RecordAt(a, l, s)
  {
    TableFrame(a, b, l);
    TableFrame(b, c, l);
    TableAfter(c, d, l, slot, rec);
    TableFrame(d, e, l);
  }

  lemma PhasesBlocks(a: Image, b: Image, c: Image, d: Image, e: Image, l: Layout, slot: nat, rec: seq<byte>,
                     fresh': seq<nat>, now: seq<nat>, released: seq<nat>)
    requires Phases(a, b, c, d, e, l, slot, rec, fresh', now, released)
    ensures |e| == |a| == |c|
    ensures forall i :: l.dataStart <= i < |a| ==> e[i] == c[i]
    ensures forall i :: l.dataStart <= i < |a| && i !in now ==> e[i] == a[i]
  {
    TableAfter(c, d, l, slot, rec);
  }

  lemma PhasesAllocation(a: Image, b: Image, c: Image, d: Image, e: Image, l: Layout, slot: nat, rec: seq<byte>,
                         fresh': seq<nat>, now: seq<nat>, released: seq<nat>)
    requires Phases(a, b, c, d, e, l, slot, rec, fresh', now, released)
    ensures |e| == |a|
    ensures forall p :: InData(l, p) ==>
              (IsAllocated(e, l, p) <==> (IsAllocated(a, l, p) || p in fresh') && p !in released)
  {
    AllocationFrame(b, c, l);
    TableAfter(c, d, l, slot, rec);
    AllocationFrame(c, d, l);
  }

  /** The phases rewrite one record, when the new footprint is what the record
      kept plus what was fresh, and what it did not keep was released. */
  lemma PhasesRewrite(a: Image, b: Image, c: Image, d: Image, e: Image, l: Layout, slot: nat, rec: seq<byte>,
                      fresh': seq<nat>, now: seq<nat>, released: seq<nat>)
    requires Phases(a, b, c, d, e, l, slot, rec, fresh', now, released)
    requires Consistent(a, l)
    requires RecordExtents(c, rec).Ok? && Footprint(c, rec) == now && NoDup(now)
    requires forall p :: p in fresh' ==> p in now && !IsAllocated(a, l, p)
    requires forall p :: p in now ==> p in fresh' || Owns(a, l, slot, p)
    requires forall p: nat :: p in released <==> Owns(a, l, slot, p) && p !in now
    ensures Rewrites(a, e, l, slot, now)
    ensures RecordAt(e, l, slot) == rec
    ensures RecordExtents(e, rec) == RecordExtents(c, rec)
    ensures Payload(e, rec) == Payload(c, rec)
  {
    PhasesTable(a, b, c, d, e, l, slot, rec, fresh', now, released);
    PhasesBlocks(a, b, c, d, e, l, slot, rec, fresh', now, released);
    PhasesAllocation(a, b, c, d, e, l, slot, rec, fresh', now, released);
    RecordFrame(c, e, rec);
    forall p | InData(l, p)
      ensures IsAllocated(e, l, p) <==> p in now || (IsAllocated(a, l, p) && !Owns(a, l, slot, p))
    {
      if Owns(a, l, slot, p) {
        assert IsAllocated(a, l, p);
      }
    }
  }

  // ----- distinct blocks fit the area -----

  lemma {:induction false} DistinctBound(s: seq<nat>, n: nat)
    requires NoDup(s) && forall i :: 0 <= i < |s| ==> s[i] < n
    ensures |s| <= n
    decreases n
  {
    if s != [] {
      assert s[0] < n;
      if k :| 0 <= k < |s| && s[k] == n - 1 {
        var t := s[..k] + s[k + 1..];
        assert forall i :: 0 <= i < |t| ==> t[i] == if i < k then s[i] else s[i + 1];
        DistinctBound(t, n - 1);
      } else {
        DistinctBound(s, n - 1);
      }
    }
  }

  lemma AscendingNoDup(bs: seq<nat>)
    requires Ascending(bs)
    ensures NoDup(bs)
  {
  }

  lemma NoDupConcat(a: seq<nat>, b: seq<nat>)
    requires NoDup(a) && NoDup(b) && forall i, j :: 0 <= i < |a| && 0 <= j < |b| ==> a[i] != b[j]
    ensures NoDup(a + b)
  {
  }

  // ----- from list blocks to a chain -----

  function Suffix(es: seq<Extent>, k: nat): seq<Extent> {
    if k * LIST_MAX <= |es| then es[k * LIST_MAX..] else []
  }

  lemma SuffixStep(es: seq<Extent>, k: nat)
    ensures Suffix(es, k + 1) == Drop(Suffix(es, k))
  {
  }

  ghost predicate InImage(lists: seq<nat>, img: Image) {
    |img| < 0x10_0000_0000_0000 && forall i :: 0 <= i < |lists| ==> 0 < lists[i] < |img|
  }

  /** The contents of the list blocks from number k on, each with its slice of the extents. */
  ghost predicate ListContents(contents: seq<Block>, id: u64, es: seq<Extent>, lists: seq<nat>, k: nat)
    decreases |contents|
  {
    if contents == [] then k >= |lists|
    else
      && k < |lists| && Head(lists[k + 1..]) < 0x10_0000_0000_0000
      && contents[0] == ListBlock(id, Head(lists[k + 1..]), Take(Suffix(es, k)))
      && ListContents(contents[1..], id, es, lists, k + 1)
  }

  /** Blocks written one by one, each with its slice of the extents, form the chain. */
  lemma {:induction false} ChainFromBlocks(img: Image, id: u64, es: seq<Extent>, lists: seq<nat>, k: nat,
                                           contents: seq<Block>)
    requires |lists| == CeilDiv(|es|, LIST_MAX) && k <= |lists| && InImage(lists, img)
    requires ListContents(contents, id, es, lists, k) && |contents| == |lists| - k
    requires forall i :: 0 <= i < |contents| ==> img[lists[k + i]] == contents[i]
    ensures ChainWritten(img, id, Suffix(es, k), lists[k..])
    decreases |lists| - k
  {
    hide ListBlock, Take, Drop, ChainWritten, Head, Suffix;
    SuffixEnds(es, |lists|, k);
    if k < |lists| {
      forall i | 0 <= i < |contents[1..]| ensures img[lists[k + 1 + i]] == contents[1..][i] {
        assert contents[1..][i] == contents[i + 1];
      }
      ChainFromBlocks(img, id, es, lists, k + 1, contents[1..]);
      SuffixStep(es, k);
      assert img[lists[k + 0]] == contents[0];
      assert lists[k..][1..] == lists[k + 1..];
      ChainLink(img, id, Suffix(es, k), lists[k..]);
    } else {
      EmptyChain(img, id);
      assert lists[k..] == [];
    }
  }

  lemma SuffixEnds(es: seq<Extent>, n: nat, k: nat)
    requires n == CeilDiv(|es|, LIST_MAX) && k <= n
    ensures Suffix(es, k) == [] <==> k == n
  {
  }

  lemma EmptyChain(img: Image, id: u64)
    ensures ChainWritten(img, id, [], [])
  {
  }

  /** One more list block in front of a chain. */
  lemma ChainLink(img: Image, id: u64, es: seq<Extent>, lists: seq<nat>)
    requires es != [] && lists != [] && 0 < lists[0] < |img| && Head(lists[1..]) < 0x10_0000_0000_0000
    requires img[lists[0]] == ListBlock(id, Head(lists[1..]), Take(es))
    requires ChainWritten(img, id, Drop(es), lists[1..])
    ensures ChainWritten(img, id, es, lists)
  {
    hide ListBlock, IsListBlock, Crc;
    ListBlockReads(id, Head(lists[1..]), Take(es));
  }

  lemma {:induction false} ChainWrittenFrame(img: Image, img': Image, id: u64, es: seq<Extent>, lists: seq<nat>)
    requires ChainWritten(img, id, es, lists) && |img'| == |img|
    requires forall b :: b in lists && b < |img| ==> img'[b] == img[b]
    ensures ChainWritten(img', id, es, lists)
    decreases |lists|
  {
    if es != [] {
      ChainWrittenFrame(img, img', id, Drop(es), lists[1..]);
    }
  }

  function Prepend(es: seq<Extent>, ls: seq<nat>, r: Result<(seq<Extent>, seq<nat>)>): Result<(seq<Extent>, seq<nat>)> {
    if r.Err? then Err else Ok((es + r.value.0, ls + r.value.1))
  }

  ghost function Elements(s: seq<nat>): set<nat> {
    set b | b in s
  }

  lemma PrependTwice(es: seq<Extent>, ls: seq<nat>, fs: seq<Extent>, ms: seq<nat>, r: Result<(seq<Extent>, seq<nat>)>)
    ensures Prepend(es, ls, Prepend(fs, ms, r)) == Prepend(es + fs, ls + ms, r)
  {
    if r.Ok? {
      assert es + (fs + r.value.0) == es + fs + r.value.0;
      assert ls + (ms + r.value.1) == ls + ms + r.value.1;
    }
  }

  lemma ChainUnfold(img: Image, list: nat, seen: set<nat>)
    requires list != 0 && list !in seen && list < |img| && ListBlockOk(img[list])
    ensures Chain(img, list, seen)
            == Prepend(ListEntries(img[list]), [list], Chain(img, U64(img[list], 16), seen + {list}))
  {
  }

  lemma ChainStep(img: Image, es: seq<Extent>, ls: seq<nat>, list: nat)
    requires list != 0 && list !in ls && list < |img| && ListBlockOk(img[list])
    ensures Prepend(es, ls, Chain(img, list, Elements(ls)))
            == Prepend(es + ListEntries(img[list]), ls + [list], Chain(img, U64(img[list], 16), Elements(ls + [list])))
  {
    assert Elements(ls + [list]) == Elements(ls) + {list};
    ChainUnfold(img, list, Elements(ls));
    PrependTwice(es, ls, ListEntries(img[list]), [list], Chain(img, U64(img[list], 16), Elements(ls) + {list}));
  }

  lemma ChainEnds(es: seq<Extent>, ls: seq<nat>, r: Result<(seq<Extent>, seq<nat>)>)
    ensures Prepend([], [], r) == r
    ensures Prepend(es, ls, Ok(([], []))) == Ok((es, ls))
  {
    if r.Ok? {
      assert [] + r.value.0 == r.value.0;
      assert [] + r.value.1 == r.value.1;
    }
    assert es + [] == es;
    assert ls + [] == ls;
  }

  lemma ChainComplete(img: Image, id: u64, es: seq<Extent>, lists: seq<nat>, contents: seq<Block>)
    requires |lists| == CeilDiv(|es|, LIST_MAX) && InImage(lists, img)
    requires ListContents(contents, id, es, lists, 0) && |contents| == |lists|
    requires forall i :: 0 <= i < |lists| ==> img[lists[i]] == contents[i]
    ensures ChainWritten(img, id, es, lists)
  {
    ChainFromBlocks(img, id, es, lists, 0, contents);
    assert lists[0..] == lists && Suffix(es, 0) == es;
  }

  /** Fill the list blocks from the last to the first, each naming its successor. */
  method BuildLists(id: u64, es: seq<Extent>, lists: seq<nat>) returns (contents: seq<Block>)
    requires forall i :: 0 <= i < |lists| ==> lists[i] < 0x10_0000_0000_0000
    ensures |contents| == |lists| && ListContents(contents, id, es, lists, 0)
  {
    hide Crc;
    contents := [];
    for k := |lists| downto 0
      invariant |contents| == |lists| - k && ListContents(contents, id, es, lists, k)
    {
      var block := BuildListBlock(id, Head(lists[k + 1..]), Take(Suffix(es, k)));
      assert ([block] + contents)[1..] == contents;
      contents := [block] + contents;
    }
  }

  // ----- what a replacement leaves behind -----

  lemma FlagsRoundTrip(owner: nat, permissions: nat, inline: bool, restricted: bool)
    requires owner < 0x1_0000_0000 && permissions < 16
    ensures var f := Flags(owner, permissions, inline, restricted);
            && f < 0x1_0000_0000_0000_0000
            && f / 2 % 0x1_0000_0000 == owner
            && f / 0x2_0000_0000 % 16 == permissions
            && (f / 0x200_0000_0000 % 2 == 1) == restricted
            && (f % 2 == 1) == inline
            && FlagsKnown(f)
  {
    var r := if restricted then 1 else 0;
    var f := Flags(owner, permissions, inline, restricted);
    assert f / 2 == owner + permissions * 0x1_0000_0000 + r * 0x100_0000_0000;
    assert f / 0x2_0000_0000 == permissions + r * 256;
    assert f / 0x200_0000_0000 == r;
    assert f / 0x20_0000_0000 == r * 16;
  }

  /** The new record keeps the identity of the old one: same owner and
      permissions, next generation; a directory also keeps its mutation policy. */
  ghost predicate RecordUpdated(old': seq<byte>, rec: seq<byte>, kind: u64, id: u64, size: nat) {
    && |old'| == |rec| == RECORD_BYTES
    && U64(rec, TYPE) == kind && U64(rec, ID) == id && U64(rec, SIZE) == size
    && U64(rec, GENERATION) == U64(old', GENERATION) + 1
    && Owner(rec) == Owner(old') && Permissions(rec) == Permissions(old')
    && Restricted(rec) == (kind == 2 && Restricted(old')) && FlagsKnown(U64(rec, FLAGS))
    && Checked(rec, RECORD_CHECKSUM)
  }

  /** The on-disk shape of a record the updater wrote, as a stricter reader checks it. */
  ghost predicate WellWritten(img: Image, l: Layout, rec: seq<byte>, kind: u64, id: u64) {
    && |rec| == RECORD_BYTES && RecordExtents(img, rec).Ok?
    && var (es, lists) := RecordExtents(img, rec).value;
    && U64(rec, INLINE_COUNT) == InlineCount(es) && U64(rec, EXTENT_COUNT) == |es| && U64(rec, LIST_HEAD) == Head(lists)
    && (forall i :: 0 <= i < 2 && i < |es| ==> ExtentAt(rec, INLINE_EXTENTS + 32 * i) == es[i])
    && ChainWritten(img, id, es[InlineCount(es)..], lists)
    && Extents(es, DataBlocks(es), kind) && (kind == 1 ==> PhysicallyAscending(es))
    && NoDup(lists)
    && U64(rec, SIZE) <= 4096 * |DataBlocks(es)| < U64(rec, SIZE) + 4096
    && Inline(rec) == (kind == 1 && es == [])
    && (forall p :: p in Footprint(img, rec) ==> InData(l, p))
  }

  /** Replacing the payload of the record in `slot`: it reads back as the new
      payload, every other record keeps its bytes and its payload, and the
      allocated blocks are again exactly the owned ones. */
  ghost predicate Replaced(img: Image, img': Image, l: Layout, slot: nat, kind: u64, id: u64, payload: seq<byte>) {
    Rewritten(img, img', l, slot, kind, id, payload) && MetadataKept(img, img', l, slot)
  }

  ghost predicate Rewritten(img: Image, img': Image, l: Layout, slot: nat, kind: u64, id: u64, payload: seq<byte>) {
    && Consistent(img, l) && Consistent(img', l) && |img'| == |img| && slot < l.recordCount
    && RecordUpdated(RecordAt(img, l, slot), RecordAt(img', l, slot), kind, id, |payload|)
    && WellWritten(img', l, RecordAt(img', l, slot), kind, id)
    && Payload(img', RecordAt(img', l, slot)) == Ok(payload)
    && forall t :: 0 <= t < l.recordCount && t != slot ==>
         && RecordAt(img', l, t) == RecordAt(img, l, t)
         && Payload(img', RecordAt(img', l, t)) == Payload(img, RecordAt(img, l, t))
  }

  /** Before the data area, only allocation bits and the slot's table block change,
      and that block keeps its header. */
  ghost predicate MetadataKept(img: Image, img': Image, l: Layout, slot: nat)
    requires Geometry(l, |img|) && |img'| == |img| && slot < l.recordCount
  {
    var t := l.tableStart + slot / RECORDS_PER_BLOCK;
    && img'[t][..24] == img[t][..24]
    && forall p :: 0 <= p < l.dataStart && !(l.allocStart <= p < l.recordBitmapStart) && p != t ==> img'[p] == img[p]
  }

  lemma PhasesMetadata(a: Image, b: Image, c: Image, d: Image, e: Image, l: Layout, slot: nat, rec: seq<byte>,
                       fresh': seq<nat>, now: seq<nat>, released: seq<nat>)
    requires Phases(a, b, c, d, e, l, slot, rec, fresh', now, released)
    ensures |e| == |a| && MetadataKept(a, e, l, slot)
  {
    hide IsAllocated;
    var t := l.tableStart + slot / RECORDS_PER_BLOCK;
    assert t < l.dataStart;
    assert d[t][..24] == c[t][..24];
  }

  /** The state after storing a payload into `selected` and fresh list blocks. */
  ghost predicate Stored(before: Image, marked: Image, written: Image, after: Image, l: Layout, slot: nat,
                         rec: seq<byte>, kind: u64, id: u64, selected: seq<nat>, lists: seq<nat>, payload: seq<byte>) {
    && Geometry(l, |before|) && slot < l.recordCount && |rec| == RECORD_BYTES
    && Marked(before, marked, l, lists, true)
    && NoDup(lists) && AllFree(before, l, lists)
    && SameExcept(marked, written, selected + lists)
    && after == WithRecord(written, l, slot, rec)
    && RecordExtents(written, rec).Ok?
    && DataBlocks(RecordExtents(written, rec).value.0) == selected && RecordExtents(written, rec).value.1 == lists
    && WellWritten(written, l, rec, kind, id)
    && Payload(written, rec) == Ok(payload)
  }

  lemma WellWrittenFrame(img: Image, img': Image, l: Layout, rec: seq<byte>, kind: u64, id: u64)
    requires WellWritten(img, l, rec, kind, id) && |img| == |img'|
    requires Geometry(l, |img|) && forall i :: l.dataStart <= i < |img| ==> img'[i] == img[i]
    ensures WellWritten(img', l, rec, kind, id)
  {
    hide Crc, RecordExtents, ChainWritten, Extents, PhysicallyAscending, Payload, U64, ExtentAt, Inline, NoDup,
      DataBlocks;
    var (es, lists) := RecordExtents(img, rec).value;
    RecordFrame(img, img', rec);
    assert forall b :: b in lists ==> b in Footprint(img, rec);
    ChainWrittenFrame(img, img', id, es[InlineCount(es)..], lists);
  }

  function Chunks(payload: seq<byte>, n: nat): (cs: seq<Block>)
    ensures |cs| == n && forall i :: 0 <= i < n ==> cs[i] == Chunk(payload, i)
  {
    seq(n, i requires 0 <= i < n => Chunk(payload, i))
  }

  /** The record, its chain and its chunks make a payload that reads back. */
  lemma StoredPayload(img: Image, rec: seq<byte>, kind: u64, id: u64, es: seq<Extent>, lists: seq<nat>,
                      selected: seq<nat>, payload: seq<byte>)
    requires |rec| == RECORD_BYTES && U64(rec, SIZE) == |payload| && kind in {1, 2}
    requires RecordExtents(img, rec) == Ok((es, lists)) && Extents(es, selected, kind)
    requires |payload| <= 4096 * |selected|
    requires forall i: nat :: i < |selected| ==> selected[i] < |img| && img[selected[i]] == Chunk(payload, i)
    ensures Payload(img, rec) == Ok(payload)
  {
    hide Crc, Chunk, U64;
    ChunksRead(img, selected, payload);
  }

  lemma StoredWell(img: Image, l: Layout, rec: seq<byte>, kind: u64, flags: u64, id: u64, generation: u64,
                   es: seq<Extent>, lists: seq<nat>, selected: seq<nat>, payload: seq<byte>)
    requires Geometry(l, |img|) && |payload| < 0x1_0000_0000_0000_0000
    requires Head(lists) < 0x1_0000_0000_0000_0000
    requires IsRecord(rec, kind, flags, id, generation, |payload|, es, Head(lists))
    requires ChainWritten(img, id, es[InlineCount(es)..], lists) && NoDup(lists)
    requires Extents(es, selected, kind) && |selected| == CeilDiv(|payload|, 4096)
    requires kind == 1 ==> Ascending(selected)
    requires (flags % 2 == 1) == (kind == 1 && es == [])
    requires forall p :: p in selected + lists ==> InData(l, p)
    ensures RecordExtents(img, rec) == Ok((es, lists)) && WellWritten(img, l, rec, kind, id)
  {
    hide Crc, U64, ExtentAt, ChainWritten, Laid, Chain, InlineExtents;
    RecordExtentsRead(img, rec, id, es, lists);
  }

  ghost predicate AllAllocated(img: Image, l: Layout, bs: seq<nat>)
    requires Geometry(l, |img|)
  {
    forall i :: 0 <= i < |bs| ==> InData(l, bs[i]) && IsAllocated(img, l, bs[i])
  }

  ghost predicate AllFree(img: Image, l: Layout, bs: seq<nat>)
    requires Geometry(l, |img|)
  {
    forall i :: 0 <= i < |bs| ==> InData(l, bs[i]) && !IsAllocated(img, l, bs[i])
  }

  ghost predicate HoldsChunks(img: Image, bs: seq<nat>, payload: seq<byte>) {
    forall i :: 0 <= i < |bs| ==> bs[i] < |img| && img[bs[i]] == Chunk(payload, i)
  }

  lemma ChunksSurvive(img: Image, img': Image, bs: seq<nat>, lists: seq<nat>, payload: seq<byte>)
    requires HoldsChunks(img, bs, payload) && SameExcept(img, img', lists)
    requires forall i :: 0 <= i < |bs| ==> bs[i] !in lists
    ensures HoldsChunks(img', bs, payload)
  {
    hide Chunk;
  }

  /** The new record: owner, permissions and policy of the old one, one generation on. */
  method MakeRecord(old': seq<byte>, id: u64, kind: u64, payload: seq<byte>, es: seq<Extent>, lists: seq<nat>)
    returns (rec: seq<byte>)
    requires |old'| == RECORD_BYTES && U64(old', GENERATION) < 0xFFFF_FFFF_FFFF_FFFF && kind in {1, 2}
    requires |payload| < 0x1_0000_0000_0000_0000 && |es| < 0x1_0000_0000_0000_0000
             && Head(lists) < 0x1_0000_0000_0000_0000
    ensures RecordUpdated(old', rec, kind, id, |payload|)
    ensures IsRecord(rec, kind, U64(rec, FLAGS), id, U64(rec, GENERATION), |payload|, es, Head(lists))
    ensures Inline(rec) == (kind == 1 && es == [])
  {
    hide Crc;
    var inline, restricted := kind == 1 && es == [], kind == 2 && Restricted(old');
    var flags, generation := Flags(Owner(old'), Permissions(old'), inline, restricted), U64(old', GENERATION) + 1;
    FlagsRoundTrip(Owner(old'), Permissions(old'), inline, restricted);
    rec := BuildRecord(kind, flags, id, generation, |payload|, es, Head(lists));
    RecordReads(kind, flags, id, generation, |payload|, es, Head(lists));
  }

  lemma {:induction false} LaidLength(es: seq<Extent>, from: nat)
    requires Laid(es, from)
    ensures |es| <= |DataBlocks(es)|
  {
    if es != [] {
      LaidLength(es[1..], from + es[0].count);
    }
  }

  lemma StoreBounds(img: Image, l: Layout, kind: u64, es: seq<Extent>, lists: seq<nat>, selected: seq<nat>, size: nat)
    requires Geometry(l, |img|) && NoDup(selected) && AllAllocated(img, l, selected) && AllFree(img, l, lists)
    requires |selected| == CeilDiv(size, 4096) && Extents(es, selected, kind)
    ensures size < 0x1_0000_0000_0000_0000 && |es| < 0x1_0000_0000_0000_0000 && Head(lists) < 0x1_0000_0000_0000_0000
  {
    DistinctBound(selected, |img|);
    LaidLength(es, 0);
  }

  lemma StoredState(before: Image, marked: Image, written: Image, l: Layout, slot: nat, rec: seq<byte>, kind: u64,
                    id: u64,
                    es: seq<Extent>, lists: seq<nat>, selected: seq<nat>, payload: seq<byte>)
    requires Geometry(l, |before|) && slot < l.recordCount && kind in {1, 2}
    requires |payload| < 0x1_0000_0000_0000_0000 && |selected| == CeilDiv(|payload|, 4096)
    requires AllAllocated(before, l, selected) && (kind == 1 ==> Ascending(selected))
    requires Extents(es, selected, kind) && Marked(before, marked, l, lists, true)
    requires NoDup(lists) && AllFree(before, l, lists) && SameExcept(marked, written, selected + lists)
    requires HoldsChunks(written, selected, payload) && ChainWritten(written, id, es[InlineCount(es)..], lists)
    requires |rec| == RECORD_BYTES && Head(lists) < 0x1_0000_0000_0000_0000
    requires IsRecord(rec, kind, U64(rec, FLAGS), id, U64(rec, GENERATION), |payload|, es, Head(lists))
    requires Inline(rec) == (kind == 1 && es == [])
    ensures Stored(before, marked, written, WithRecord(written, l, slot, rec), l, slot, rec, kind, id, selected, lists,
                   payload)
  {
    hide Crc, IsAllocated, ChainWritten, Laid, U64, ExtentAt, Chunk;
    StoredWell(written, l, rec, kind, U64(rec, FLAGS), id, U64(rec, GENERATION), es, lists, selected, payload);
    StoredPayload(written, rec, kind, id, es, lists, selected, payload);
  }

  /** The images and block lists of one replacement: mark `extra` (a to m),
      store the payload in `selected` (m to d), release what is no longer used (d to e). */
  ghost predicate Replacement(a: Image, m: Image, marked: Image, written: Image, d: Image, e: Image, l: Layout,
                              slot: nat,
                              rec: seq<byte>, kind: u64, id: u64, extra: seq<nat>, selected: seq<nat>, lists: seq<nat>,
                              released: seq<nat>, payload: seq<byte>) {
    && Consistent(a, l)
    && Marked(a, m, l, extra, true) && AllFree(a, l, extra)
    && AllAllocated(m, l, selected) && NoDup(selected)
    && Stored(m, marked, written, d, l, slot, rec, kind, id, selected, lists, payload)
    && Marked(d, e, l, released, false)
    && (forall p :: p in extra ==> p in selected)
    && (forall p :: p in selected ==> p in extra || Owns(a, l, slot, p))
    && (forall p: nat :: p in released <==> Owns(a, l, slot, p) && p !in selected)
  }

  lemma ReplacementPhases(a: Image, m: Image, marked: Image, written: Image, d: Image, e: Image, l: Layout, slot: nat,
                          rec: seq<byte>, kind: u64, id: u64, extra: seq<nat>, selected: seq<nat>, lists: seq<nat>,
                          released: seq<nat>, payload: seq<byte>)
    requires Replacement(a, m, marked, written, d, e, l, slot, rec, kind, id, extra, selected, lists, released, payload)
    ensures Phases(a, marked, written, d, e, l, slot, rec, extra + lists, selected + lists, released)
    ensures NoDup(selected + lists)
    ensures forall p :: p in extra + lists ==> InData(l, p) && !IsAllocated(a, l, p)
    ensures forall p: nat :: p in released <==> Owns(a, l, slot, p) && p !in selected + lists
  {
    hide Crc, IsAllocated, WellWritten, Payload, RecordExtents, Footprint, WithRecord;
    MarkedTrans(a, m, marked, l, extra, lists, true);
    NoDupConcat(selected, lists);
    forall p | p in extra + lists ensures InData(l, p) && !IsAllocated(a, l, p) {
      if p in extra {
        var i :| 0 <= i < |extra| && extra[i] == p;
      } else {
        var i :| 0 <= i < |lists| && lists[i] == p;
      }
    }
    forall p: nat | Owns(a, l, slot, p) ensures p !in lists {
      assert OwnsCleanly(a, l, RecordAt(a, l, slot));
      assert InData(l, p) && IsAllocated(a, l, p);
    }
  }

  /** A replacement does what it promises, for every image and every payload. */
  lemma ReplacementReplaces(a: Image, m: Image, marked: Image, written: Image, d: Image, e: Image, l: Layout, slot: nat,
                            rec: seq<byte>, kind: u64, id: u64, extra: seq<nat>, selected: seq<nat>, lists: seq<nat>,
                            released: seq<nat>, payload: seq<byte>)
    requires Replacement(a, m, marked, written, d, e, l, slot, rec, kind, id, extra, selected, lists, released, payload)
    requires RecordUpdated(RecordAt(m, l, slot), rec, kind, id, |payload|)
    ensures Replaced(a, e, l, slot, kind, id, payload)
  {
    hide Crc, IsAllocated, WellWritten, Payload, RecordExtents, WithRecord, RecordUpdated, OwnsCleanly, MetadataKept;
    ReplacementPhases(a, m, marked, written, d, e, l, slot, rec, kind, id, extra, selected, lists, released, payload);
    PhasesRewrite(a, marked, written, d, e, l, slot, rec, extra + lists, selected + lists, released);
    RewriteKeepsImage(a, e, l, slot, selected + lists);
    PhasesBlocks(a, marked, written, d, e, l, slot, rec, extra + lists, selected + lists, released);
    PhasesMetadata(a, marked, written, d, e, l, slot, rec, extra + lists, selected + lists, released);
    WellWrittenFrame(written, e, l, rec, kind, id);
    TableFrame(a, m, l);
  }

  lemma FreshAllocated(a: Image, m: Image, l: Layout, bs: seq<nat>)
    requires Marked(a, m, l, bs, true)
    ensures AllAllocated(m, l, bs)
  {
  }

  /** The blocks of the record in `slot`: its data and list blocks, all in the data area. */
  lemma OwnedBlocks(img: Image, l: Layout, slot: nat)
    requires Consistent(img, l) && slot < l.recordCount
    ensures RecordExtents(img, RecordAt(img, l, slot)).Ok?
    ensures var ext := RecordExtents(img, RecordAt(img, l, slot)).value;
            && (forall p: nat :: p in DataBlocks(ext.0) + ext.1 <==> Owns(img, l, slot, p))
            && (forall p :: p in DataBlocks(ext.0) ==> InData(l, p))
            && (forall p :: p in ext.1 ==> InData(l, p))
            && NoDup(DataBlocks(ext.0) + ext.1)
            && AllAllocated(img, l, DataBlocks(ext.0))
            && Footprint(img, RecordAt(img, l, slot)) == DataBlocks(ext.0) + ext.1
  {
    hide IsAllocated, RecordExtents, Crc;
    var rec := RecordAt(img, l, slot);
    assert OwnsCleanly(img, l, rec);
    var ext := RecordExtents(img, rec).value;
    assert forall p :: p in ext.1 ==> p in DataBlocks(ext.0) + ext.1;
    forall i | 0 <= i < |DataBlocks(ext.0)|
      ensures InData(l, DataBlocks(ext.0)[i]) && IsAllocated(img, l, DataBlocks(ext.0)[i])
    {
      assert (DataBlocks(ext.0) + ext.1)[i] == DataBlocks(ext.0)[i];
      assert Owns(img, l, slot, DataBlocks(ext.0)[i]);
    }
  }

  lemma FileReplacement(a: Image, m: Image, marked: Image, written: Image, d: Image, e: Image, l: Layout, slot: nat,
                        rec: seq<byte>, id: u64, data: seq<nat>, lists: seq<nat>, payload: seq<byte>)
    requires Consistent(a, l) && slot < l.recordCount
    requires Marked(a, m, l, data, true) && AllFree(a, l, data) && Ascending(data)
    requires Stored(m, marked, written, d, l, slot, rec, 1, id, data, lists, payload)
    requires Marked(d, e, l, Footprint(a, RecordAt(a, l, slot)), false)
    ensures Replacement(a, m, marked, written, d, e, l, slot, rec, 1, id, data, data, lists,
                        Footprint(a, RecordAt(a, l, slot)), payload)
  {
    hide IsAllocated, RecordExtents, Crc, Stored;
    FreshAllocated(a, m, l, data);
    assert OwnsCleanly(a, l, RecordAt(a, l, slot));
    forall p: nat | Owns(a, l, slot, p) ensures p !in data {
      assert IsAllocated(a, l, p);
    }
  }

  /** Which blocks a directory keeps: its old data blocks first, then extra ones. */
  ghost predicate Selection(a: Image, m: Image, l: Layout, slot: nat, extra: seq<nat>, selected: seq<nat>,
                            released: seq<nat>)
    requires Consistent(a, l) && |m| == |a|
  {
    && NoDup(selected) && AllAllocated(m, l, selected)
    && (forall p :: p in extra ==> p in selected)
    && (forall p :: p in selected ==> p in extra || Owns(a, l, slot, p))
    && (forall p: nat :: p in released <==> Owns(a, l, slot, p) && p !in selected)
    && (forall p: nat :: p in released ==> InData(l, p))
  }

  lemma DirectorySelection(a: Image, m: Image, l: Layout, slot: nat, data: seq<nat>, lists: seq<nat>, extra: seq<nat>,
                           needed: nat, kept: nat)
    requires Consistent(a, l) && slot < l.recordCount
    requires Marked(a, m, l, extra, true) && AllFree(a, l, extra) && Ascending(extra)
    requires RecordExtents(a, RecordAt(a, l, slot)).Ok?
    requires data == DataBlocks(RecordExtents(a, RecordAt(a, l, slot)).value.0)
    requires lists == RecordExtents(a, RecordAt(a, l, slot)).value.1
    requires needed <= |data| + |extra| && (extra != [] ==> needed == |data| + |extra|)
    requires kept == if needed < |data| then needed else |data|
    ensures Selection(a, m, l, slot, extra, (data + extra)[..needed], data[kept..] + lists)
  {
    hide IsAllocated, RecordExtents, Crc, Footprint, RecordAt, OwnsCleanly, DataBlocks;
    OwnedBlocks(a, l, slot);
    var selected := (data + extra)[..needed];
    DataAndExtraDistinct(a, l, slot, data, lists, extra);
    forall i | 0 <= i < |selected| ensures InData(l, selected[i]) && IsAllocated(m, l, selected[i]) {
      assert selected[i] == (data + extra)[i];
    }
    if extra != [] {
      assert selected == data + extra;
    }
    SplitFootprint(data, lists, extra, kept, selected);
  }

  lemma SelectionParts(a: Image, m: Image, l: Layout, slot: nat, extra: seq<nat>, selected: seq<nat>,
                       surplus: seq<nat>, lists: seq<nat>)
    requires Consistent(a, l) && |m| == |a| && Selection(a, m, l, slot, extra, selected, surplus + lists)
    ensures NoDup(selected) && AllAllocated(m, l, selected)
    ensures forall p :: p in surplus ==> InData(l, p)
    ensures forall p :: p in lists ==> InData(l, p)
  {
    assert forall p :: p in surplus ==> p in surplus + lists;
    assert forall p :: p in lists ==> p in surplus + lists;
  }

  lemma DirectoryReplacement(a: Image, m: Image, marked: Image, written: Image, d: Image, e: Image, l: Layout,
                             slot: nat,
                             rec: seq<byte>, id: u64, extra: seq<nat>, selected: seq<nat>, lists: seq<nat>,
                             released: seq<nat>, payload: seq<byte>)
    requires Consistent(a, l) && slot < l.recordCount
    requires Marked(a, m, l, extra, true) && AllFree(a, l, extra)
    requires Selection(a, m, l, slot, extra, selected, released)
    requires Stored(m, marked, written, d, l, slot, rec, 2, id, selected, lists, payload)
    requires Marked(d, e, l, released, false)
    requires RecordUpdated(RecordAt(m, l, slot), rec, 2, id, |payload|)
    ensures Replaced(a, e, l, slot, 2, id, payload)
  {
    hide IsAllocated, RecordExtents, Crc, Stored, Replaced, RecordUpdated, Marked;
    ReplacementReplaces(a, m, marked, written, d, e, l, slot, rec, 2, id, extra, selected, lists, released, payload);
  }

  lemma DataAndExtraDistinct(a: Image, l: Layout, slot: nat, data: seq<nat>, lists: seq<nat>, extra: seq<nat>)
    requires Consistent(a, l) && slot < l.recordCount && NoDup(data + lists) && Ascending(extra)
    requires AllFree(a, l, extra) && forall p: nat :: p in data + lists ==> InData(l, p) && IsAllocated(a, l, p)
    ensures NoDup(data + extra)
    ensures forall p :: p in data + lists ==> p !in extra
  {
    hide IsAllocated;
    assert forall i :: 0 <= i < |data| ==> (data + lists)[i] == data[i];
    NoDupConcat(data, extra);
  }

  lemma NoDupDisjoint(a: seq<nat>, b: seq<nat>)
    requires NoDup(a + b)
    ensures forall p :: p in b ==> p !in a
  {
    forall p | p in b ensures p !in a {
      var j :| 0 <= j < |b| && b[j] == p;
      assert forall i :: 0 <= i < |a| ==> (a + b)[i] == a[i] && (a + b)[i] != (a + b)[|a| + j];
    }
  }

  lemma SplitFootprint(data: seq<nat>, lists: seq<nat>, extra: seq<nat>, kept: nat, selected: seq<nat>)
    requires kept <= |data| && NoDup(data + lists) && forall p :: p in data + lists ==> p !in extra
    requires selected == data[..kept] || (kept == |data| && selected == data + extra)
    ensures forall p: nat :: p in data[kept..] + lists <==> p in data + lists && p !in selected
  {
    var front, rest := data[..kept], data[kept..] + lists;
    assert data + lists == front + rest;
    NoDupDisjoint(front, rest);
    assert kept == |data| ==> front == data;
  }

  /** The byte the record-slot helpers address, counted from the start of the
      record bitmap: they skip one block header only. */
  function SlotByte(slot: nat): nat {
    24 + slot / 8
  }

  /** The helpers address a slot's own bit exactly when it lies in the first bitmap block. */
  lemma SlotByteCorrect(slot: nat)
    ensures SlotByte(slot) == slot / BITS_PER_BLOCK * BLOCK_BYTES + 24 + slot % BITS_PER_BLOCK / 8
            <==> slot < BITS_PER_BLOCK
  {
    var q, r := slot / BITS_PER_BLOCK, slot % BITS_PER_BLOCK;
    assert slot == 8 * (4072 * q) + r;
    assert slot / 8 == 4072 * q + r / 8;
  }

  lemma SlotInRange(l: Layout, total: nat, slot: nat)
    requires Geometry(l, total) && slot < l.recordCount
    ensures l.recordBitmapStart + slot / BITS_PER_BLOCK < l.tableStart <= total
    ensures l.recordBitmapStart + SlotByte(slot) / BLOCK_BYTES < l.tableStart
  {
    assert slot < BITS_PER_BLOCK * l.recordBitmapBlocks;
    assert slot / 8 < 4072 * l.recordBitmapBlocks;
    assert SlotByte(slot) < BLOCK_BYTES * l.recordBitmapBlocks;
  }

  /** Set a slot's bit as the helpers do. */
  function WithSlotBit(img: Image, l: Layout, slot: nat, v: bool): (r: Image)
    requires Geometry(l, |img|) && slot < l.recordCount
    ensures |r| == |img| && SameOutside(img, r, l.recordBitmapStart, l.tableStart)
  {
    SlotInRange(l, |img|, slot);
    var at, k := l.recordBitmapStart + SlotByte(slot) / BLOCK_BYTES, SlotByte(slot) % BLOCK_BYTES;
    img[at := img[at][k := WithBit(img[at][k], slot % 8, v)]]
  }

  /** The slot whose bit the helpers address, or none: they then address a block header. */
  function SlotHit(slot: nat): Option<nat> {
    var at, k := SlotByte(slot) / BLOCK_BYTES, SlotByte(slot) % BLOCK_BYTES;
    if k < 24 then None else Some(at * BITS_PER_BLOCK + 8 * (k - 24) + slot % 8)
  }

  /** That slot lies 192 before the one meant for each block header passed, so it is the one
      meant exactly in the first bitmap block. */
  lemma SlotHitExactly(slot: nat)
    ensures SlotHit(slot) == Some(slot) <==> slot < BITS_PER_BLOCK
    ensures SlotHit(slot).Some? ==> SlotHit(slot).value == slot - 192 * (SlotByte(slot) / BLOCK_BYTES)
  {
    var at, k := SlotByte(slot) / BLOCK_BYTES, SlotByte(slot) % BLOCK_BYTES;
    assert slot / 8 == at * BLOCK_BYTES + k - 24;
    assert slot == 8 * (slot / 8) + slot % 8;
    if k >= 24 {
      assert SlotHit(slot).value == slot - 192 * at;
    } else {
      assert at >= 1;
    }
    SlotByteCorrect(slot);
  }

  lemma SlotHitPlace(slot: nat)
    requires SlotHit(slot).Some?
    ensures var t := SlotHit(slot).value;
            && t / BITS_PER_BLOCK == SlotByte(slot) / BLOCK_BYTES && t % 8 == slot % 8
            && 24 + t % BITS_PER_BLOCK / 8 == SlotByte(slot) % BLOCK_BYTES
  {
    var at, k := SlotByte(slot) / BLOCK_BYTES, SlotByte(slot) % BLOCK_BYTES;
    var r := 8 * (k - 24) + slot % 8;
    assert r / 8 == k - 24 && r % 8 == slot % 8;
    Places(at, r);
  }

  lemma Places(at: nat, r: nat)
    requires r < BITS_PER_BLOCK
    ensures (at * BITS_PER_BLOCK + r) / BITS_PER_BLOCK == at && (at * BITS_PER_BLOCK + r) % BITS_PER_BLOCK == r
    ensures (at * BITS_PER_BLOCK + r) % 8 == r % 8
  {
    assert at * BITS_PER_BLOCK == 8 * (4072 * at);
  }

  /** The helpers change the bit of the slot they address and no other slot's. */
  lemma SlotBitHits(img: Image, l: Layout, slot: nat, v: bool)
    requires Geometry(l, |img|) && slot < l.recordCount
    ensures var r := WithSlotBit(img, l, slot, v);
            forall t :: 0 <= t < l.recordCount ==>
              RecordBit(r, l, t) == if SlotHit(slot) == Some(t) then v else RecordBit(img, l, t)
  {
    SlotInRange(l, |img|, slot);
    hide WithBit, SlotHit, SameOutside;
    var r := WithSlotBit(img, l, slot, v);
    if SlotHit(slot).Some? {
      SlotHitPlace(slot);
      assert r == WithBitmapBit(img, l.recordBitmapStart, SlotHit(slot).value, v);
    }
    forall t | 0 <= t < l.recordCount
      ensures RecordBit(r, l, t) == if SlotHit(slot) == Some(t) then v else RecordBit(img, l, t)
    {
      SlotInRange(l, |img|, t);
      if SlotHit(slot).Some? {
        BitmapBitSet(img, l.recordBitmapStart, SlotHit(slot).value, v, t);
      } else {
        HeaderHit(slot);
      }
    }
  }

  lemma HeaderHit(slot: nat)
    requires SlotHit(slot).None?
    ensures SlotByte(slot) % BLOCK_BYTES < 24
  {
  }

  /** In the first bitmap block that is the slot's own bit. Past it the slot's own bit stays as
      it was; another slot's changes, or a byte of a block header and no slot's bit. */
  lemma SlotBitBeyond(img: Image, l: Layout, slot: nat, v: bool)
    requires Geometry(l, |img|) && slot < l.recordCount
    ensures var r, at := WithSlotBit(img, l, slot, v), l.recordBitmapStart + SlotByte(slot) / BLOCK_BYTES;
            && at < |img| && |r| == |img|
            && (slot >= BITS_PER_BLOCK ==> RecordBit(r, l, slot) == RecordBit(img, l, slot))
            && (SlotHit(slot).None? ==>
                  var k := SlotByte(slot) % BLOCK_BYTES;
                  k < 24 && r == img[at := img[at][k := WithBit(img[at][k], slot % 8, v)]])
  {
    SlotInRange(l, |img|, slot);
    SlotHitExactly(slot);
    SlotBitHits(img, l, slot, v);
  }

  lemma RecordBitFrame(img: Image, img': Image, l: Layout)
    requires Geometry(l, |img|) && |img'| == |img|
    requires forall i :: l.recordBitmapStart <= i < l.tableStart ==> img[i] == img'[i]
    ensures forall t :: 0 <= t < l.recordCount ==> RecordBit(img', l, t) == RecordBit(img, l, t)
  {
    forall t | 0 <= t < l.recordCount ensures RecordBit(img', l, t) == RecordBit(img, l, t) {
      SlotInRange(l, |img|, t);
    }
  }

  /** Unmark a record's blocks (a to b), clear its slot bit (b to c), clear the record (c to d). */
  ghost predicate Releases(a: Image, b: Image, c: Image, d: Image, l: Layout, slot: nat) {
    && Consistent(a, l) && slot < l.recordCount
    && Marked(a, b, l, Footprint(a, RecordAt(a, l, slot)), false)
    && c == WithSlotBit(b, l, slot, false)
    && d == WithRecord(c, l, slot, Zeros(RECORD_BYTES))
  }

  lemma ReleaseTable(a: Image, b: Image, c: Image, d: Image, l: Layout, slot: nat)
    requires Releases(a, b, c, d, l, slot)
    ensures |d| == |a|
    ensures forall t :: 0 <= t < l.recordCount ==>
              RecordAt(d, l, t) == if t == slot then Zeros(RECORD_BYTES) else RecordAt(a, l, t)
    ensures forall i :: l.dataStart <= i < |a| ==> d[i] == a[i]
  {
    hide IsAllocated, RecordBit, Footprint, Crc, WithSlotBit;
    TableAfter(c, d, l, slot, Zeros(RECORD_BYTES));
    TableFrame(a, b, l);
    TableFrame(b, c, l);
  }

  /** What a release does to the marks. */
  ghost predicate Unmarked(a: Image, d: Image, l: Layout, slot: nat)
    requires Consistent(a, l) && |d| == |a| && slot < l.recordCount
  {
    && (forall t :: 0 <= t < l.recordCount ==> RecordBit(d, l, t) == (SlotHit(slot) != Some(t) && RecordBit(a, l, t)))
    && forall p :: InData(l, p) ==> (IsAllocated(d, l, p) <==> IsAllocated(a, l, p) && !Owns(a, l, slot, p))
  }

  lemma ReleaseBits(a: Image, b: Image, c: Image, d: Image, l: Layout, slot: nat)
    requires Releases(a, b, c, d, l, slot)
    ensures |d| == |a| && Unmarked(a, d, l, slot)
  {
    hide IsAllocated, RecordBit, Crc, WithSlotBit, WithRecord, RecordAt, Footprint, Consistent, Owns, SlotHit;
    HasGeometry(a, l);
    TableAfter(c, d, l, slot, Zeros(RECORD_BYTES));
    SlotBitHits(b, l, slot, false);
    RecordBitFrame(a, b, l);
    RecordBitFrame(c, d, l);
    AllocationFrame(b, c, l);
    AllocationFrame(c, d, l);
    OwnsIs(a, l, slot);
  }

  lemma OwnsIs(a: Image, l: Layout, slot: nat)
    requires Geometry(l, |a|) && slot < l.recordCount
    ensures forall p: nat :: Owns(a, l, slot, p) <==> p in Footprint(a, RecordAt(a, l, slot))
  {
  }

  lemma ReleaseRewrites(a: Image, b: Image, c: Image, d: Image, l: Layout, slot: nat)
    requires Releases(a, b, c, d, l, slot)
    ensures Rewrites(a, d, l, slot, [])
  {
    hide IsAllocated, Crc, WithRecord, WithSlotBit, RecordBit, RecordExtents, Footprint, RecordAt;
    ReleaseTable(a, b, c, d, l, slot);
    ReleaseBits(a, b, c, d, l, slot);
    ZeroRecordIsEmpty(d);
  }

  /** What releasing a record keeps. */
  lemma ReleaseKeeps(a: Image, b: Image, c: Image, d: Image, l: Layout, slot: nat, owned: seq<nat>)
    requires Consistent(a, l) && slot < l.recordCount && Footprint(a, RecordAt(a, l, slot)) == owned
    requires Marked(a, b, l, owned, false) && |b| == |a|
    requires c == WithSlotBit(b, l, slot, false) && |c| == |a| && d == WithRecord(c, l, slot, Zeros(RECORD_BYTES))
    ensures |d| == |a| && Consistent(d, l) && Unmarked(a, d, l, slot)
    ensures forall t :: 0 <= t < l.recordCount ==>
              && RecordAt(d, l, t) == (if t == slot then Zeros(RECORD_BYTES) else RecordAt(a, l, t))
              && (t != slot ==> Payload(d, RecordAt(d, l, t)) == Payload(a, RecordAt(a, l, t)))
  {
    hide IsAllocated, RecordBit, Crc, RecordExtents, Payload, RecordAt, WithSlotBit, WithRecord, Unmarked, Footprint,
      Marked;
    ReleaseTable(a, b, c, d, l, slot);
    ReleaseBits(a, b, c, d, l, slot);
    ReleaseRewrites(a, b, c, d, l, slot);
    RewriteKeepsImage(a, d, l, slot, []);
  }

  lemma ZeroWordAt(n: nat, at: nat)
    requires at + 8 <= n
    ensures U64(Zeros(n), at) == 0
  {
    assert Zeros(n)[at..at + 8] == Zeros(Eight(at));
    PutZero(Eight(at));
    ReadWord(Zeros(n), at, 0);
  }

  lemma ZeroRecordIsEmpty(img: Image)
    ensures RecordExtents(img, Zeros(RECORD_BYTES)) == Ok(([], []))
    ensures Footprint(img, Zeros(RECORD_BYTES)) == []
  {
    ZeroWordAt(RECORD_BYTES, INLINE_COUNT);
    ZeroWordAt(RECORD_BYTES, LIST_HEAD);
    ZeroWordAt(RECORD_BYTES, EXTENT_COUNT);
  }

  lemma HasGeometry(img: Image, l: Layout)
    requires Consistent(img, l)
    ensures Geometry(l, |img|)
  {
  }

  // ----- room -----

  /** The data blocks that may be taken. */
  ghost function Spare(img: Image, l: Layout, reserved: set<nat>): set<nat>
    requires Geometry(l, |img|)
  {
    set p: nat | l.dataStart <= p < l.dataStart + l.dataBlocks && !IsAllocated(img, l, p) && p !in reserved
  }

  /** The lowest `count` of some blocks, or all of them. */
  ghost function Lowest(spare: set<nat>, from: nat, end: nat, count: nat): seq<nat>
    requires from <= end
    decreases end - from
  {
    if count == 0 || from == end then []
    else if from in spare then [from] + Lowest(spare, from + 1, end, count - 1)
    else Lowest(spare, from + 1, end, count)
  }

  ghost function FirstFit(l: Layout, spare: set<nat>, count: nat): seq<nat> {
    Lowest(spare, l.dataStart, l.dataStart + l.dataBlocks, count)
  }

  ghost function Above(spare: set<nat>, from: nat): set<nat> {
    set p | p in spare && from <= p
  }

  lemma {:induction false} LowestCount(spare: set<nat>, from: nat, end: nat, count: nat)
    requires from <= end && forall p :: p in spare ==> p < end
    ensures |Lowest(spare, from, end, count)| == if count <= |Above(spare, from)| then count else |Above(spare, from)|
    decreases end - from
  {
    if from == end {
      assert Above(spare, from) == {};
    } else if count > 0 {
      if from in spare {
        assert Above(spare, from) == Above(spare, from + 1) + {from};
        LowestCount(spare, from + 1, end, count - 1);
      } else {
        assert Above(spare, from) == Above(spare, from + 1);
        LowestCount(spare, from + 1, end, count);
      }
    }
  }

  /** There is room for as many blocks as are spare. */
  lemma FitCount(img: Image, l: Layout, reserved: set<nat>, count: nat)
    requires Geometry(l, |img|)
    ensures var spare := Spare(img, l, reserved); |FirstFit(l, spare, count)| == count <==> count <= |spare|
  {
    hide IsAllocated;
    var spare := Spare(img, l, reserved);
    LowestCount(spare, l.dataStart, l.dataStart + l.dataBlocks, count);
    assert Above(spare, l.dataStart) == spare;
  }

  /** Taken blocks are not spare any more. */
  lemma SpareAfter(img: Image, img': Image, l: Layout, reserved: set<nat>, taken: seq<nat>)
    requires Marked(img, img', l, taken, true) && |img'| == |img| && NoDup(taken)
    requires forall b :: b in taken ==> b in Spare(img, l, reserved)
    ensures |Spare(img', l, reserved + Elements(taken))| == |Spare(img, l, reserved)| - |taken|
  {
    hide IsAllocated;
    var s, t := Spare(img, l, reserved), Elements(taken);
    assert Spare(img', l, reserved + t) == s - t;
    NoDupCard(taken);
    assert t <= s;
    assert |s - t| == |s| - |t|;
  }

  lemma {:induction false} NoDupCard(s: seq<nat>)
    requires NoDup(s)
    ensures |Elements(s)| == |s|
  {
    if s != [] {
      var rest := s[1..];
      NoDupCard(rest);
      assert Elements(s) == {s[0]} + Elements(rest);
      assert s[0] !in Elements(rest);
    }
  }

  /** First fit up to `physical`: from image `a` with `kept` reserved. */
  ghost predicate Taken(a: Image, b: Image, l: Layout, kept: set<nat>, reserved: set<nat>, blocks: seq<nat>,
                        physical: nat, count: nat)
    requires Geometry(l, |a|) && |b| == |a| && l.dataStart <= physical <= l.dataStart + l.dataBlocks
  {
    && |blocks| <= count && Ascending(blocks) && Marked(a, b, l, blocks, true) && AllFree(a, l, blocks)
    && (forall x :: x in blocks ==> x < physical && x !in kept)
    && reserved == kept + Elements(blocks)
    && (forall p :: InData(l, p) && p < physical && p !in blocks ==> IsAllocated(a, l, p) || p in kept)
    && FirstFit(l, Spare(a, l, kept), count)
       == blocks + Lowest(Spare(a, l, kept), physical, l.dataStart + l.dataBlocks, count - |blocks|)
  }

  lemma TakenNone(a: Image, l: Layout, kept: set<nat>, count: nat)
    requires Geometry(l, |a|)
    ensures Taken(a, a, l, kept, kept, [], l.dataStart, count)
  {
    hide IsAllocated, Lowest;
    assert kept == kept + Elements([]);
  }

  lemma TakeOne(a: Image, b: Image, l: Layout, kept: set<nat>, reserved: set<nat>, blocks: seq<nat>, physical: nat,
                count: nat)
    requires Geometry(l, |a|) && |b| == |a| && l.dataStart <= physical < l.dataStart + l.dataBlocks && |blocks| < count
    requires Taken(a, b, l, kept, reserved, blocks, physical, count)
    requires physical !in reserved && !IsAllocated(b, l, physical)
    ensures Taken(a, WithAllocated(b, l, physical, true), l, kept, reserved + {physical}, blocks + [physical],
                  physical + 1, count)
  {
    hide IsAllocated, WithAllocated;
    MarkedOne(a, b, l, blocks, true, physical);
    assert physical !in blocks && physical in Spare(a, l, kept);
    assert Elements(blocks + [physical]) == Elements(blocks) + {physical};
  }

  lemma SkipOne(a: Image, b: Image, l: Layout, kept: set<nat>, reserved: set<nat>, blocks: seq<nat>, physical: nat,
                count: nat)
    requires Geometry(l, |a|) && |b| == |a| && l.dataStart <= physical < l.dataStart + l.dataBlocks && |blocks| < count
    requires Taken(a, b, l, kept, reserved, blocks, physical, count)
    requires physical in reserved || IsAllocated(b, l, physical)
    ensures Taken(a, b, l, kept, reserved, blocks, physical + 1, count)
  {
    hide IsAllocated;
    assert physical !in blocks;
    assert physical !in Spare(a, l, kept);
  }

  /** Enough blocks have been found. */
  lemma TakenEnough(a: Image, b: Image, l: Layout, kept: set<nat>, reserved: set<nat>, blocks: seq<nat>, physical: nat,
                    count: nat)
    requires Geometry(l, |a|) && |b| == |a| && l.dataStart <= physical <= l.dataStart + l.dataBlocks
             && |blocks| == count
    requires Taken(a, b, l, kept, reserved, blocks, physical, count)
    ensures Ascending(blocks) && Marked(a, b, l, blocks, true) && AllFree(a, l, blocks)
    ensures (forall x :: x in blocks ==> x !in kept) && reserved == kept + Elements(blocks)
    ensures forall p :: InData(l, p) && p !in blocks && blocks != [] && p < blocks[|blocks| - 1] ==>
              IsAllocated(a, l, p) || p in kept
    ensures blocks == FirstFit(l, Spare(a, l, kept), count)
  {
    hide IsAllocated;
    if blocks != [] {
      assert blocks[|blocks| - 1] in blocks;
    }
  }

  /** The whole data area has been searched. */
  lemma TakenAll(a: Image, b: Image, l: Layout, kept: set<nat>, reserved: set<nat>, blocks: seq<nat>, count: nat)
    requires Geometry(l, |a|) && |b| == |a|
    requires Taken(a, b, l, kept, reserved, blocks, l.dataStart + l.dataBlocks, count)
    ensures forall p :: InData(l, p) ==> IsAllocated(b, l, p) || p in reserved
    ensures FirstFit(l, Spare(a, l, kept), count) == blocks
  {
    hide IsAllocated;
  }

  const MAX_GENERATION: u64 := 0xFFFF_FFFF_FFFF_FFFF

  /** The list blocks a payload in these blocks takes. */
  function ListsNeeded(blocks: seq<nat>): nat {
    var n := Runs(blocks);
    CeilDiv(if n < 2 then 0 else n - 2, LIST_MAX)
  }

  /** Every extent of a record has the flags. */
  ghost predicate AllFlagged(img: Image, rec: seq<byte>, flags: u64)
    requires |rec| == RECORD_BYTES
  {
    RecordExtents(img, rec).Ok? && forall e :: e in RecordExtents(img, rec).value.0 ==> e.flags == flags
  }

  /** When a file's payload can be replaced: it is a file made of plain extents,
      its generation can be stepped, and there are spare blocks for the new data
      and the list blocks that data needs. */
  ghost predicate FileFits(img: Image, l: Layout, reserved: set<nat>, slot: nat, size: nat)
    requires Geometry(l, |img|) && slot < l.recordCount
  {
    var rec, spare, needed := RecordAt(img, l, slot), Spare(img, l, reserved), CeilDiv(size, 4096);
    && U64(rec, TYPE) == 1 && AllFlagged(img, rec, 1) && U64(rec, GENERATION) != MAX_GENERATION
    && needed + ListsNeeded(FirstFit(l, spare, needed)) <= |spare|
  }

  /** How many blocks a directory's new payload needs beside the old ones. */
  function Extra(data: seq<nat>, size: nat): nat {
    var needed := CeilDiv(size, 4096);
    if |data| < needed then needed - |data| else 0
  }

  /** The same for a directory, whose data blocks are used again. */
  ghost predicate DirectoryFits(img: Image, l: Layout, reserved: set<nat>, slot: nat, size: nat)
    requires Geometry(l, |img|) && slot < l.recordCount
  {
    var rec, spare := RecordAt(img, l, slot), Spare(img, l, reserved);
    && AllFlagged(img, rec, 2) && U64(rec, GENERATION) != MAX_GENERATION
    && var data := DataBlocks(RecordExtents(img, rec).value.0);
    && var extra := Extra(data, size);
    && extra <= |spare|
    && extra + ListsNeeded(Selected(data, FirstFit(l, spare, extra), size)) <= |spare|
  }

  /** Old blocks first, then new ones. */
  function Selected(data: seq<nat>, extra: seq<nat>, size: nat): seq<nat> {
    var needed := CeilDiv(size, 4096);
    if needed <= |data + extra| then (data + extra)[..needed] else data + extra
  }

  lemma SelectedIs(data: seq<nat>, extra: seq<nat>, size: nat)
    requires |extra| == Extra(data, size)
    ensures CeilDiv(size, 4096) <= |data + extra|
            && Selected(data, extra, size) == (data + extra)[..CeilDiv(size, 4096)]
    ensures |extra| == if |data| < CeilDiv(size, 4096) then CeilDiv(size, 4096) - |data| else 0
  {
  }

  lemma FlaggedIs(img: Image, rec: seq<byte>, flags: u64)
    requires |rec| == RECORD_BYTES && RecordExtents(img, rec).Ok?
    ensures AllFlagged(img, rec, flags) <==> !exists e :: e in RecordExtents(img, rec).value.0 && e.flags != flags
  {
  }

  /** What is left for list blocks once the data blocks are taken. */
  lemma RoomLeft(a: Image, m: Image, l: Layout, reserved: set<nat>, slot: nat, taken: seq<nat>)
    requires Geometry(l, |a|) && slot < l.recordCount && |m| == |a|
    requires Marked(a, m, l, taken, true) && Ascending(taken) && AllFree(a, l, taken)
    requires forall b :: b in taken ==> b !in reserved
    ensures |Spare(m, l, reserved + Elements(taken))| == |Spare(a, l, reserved)| - |taken|
    ensures RecordAt(m, l, slot) == RecordAt(a, l, slot)
  {
    hide IsAllocated, RecordAt;
    AscendingNoDup(taken);
    forall b | b in taken ensures b in Spare(a, l, reserved) {
      assert InData(l, b);
    }
    SpareAfter(a, m, l, reserved, taken);
    TableFrame(a, m, l);
  }

  /** Whether a file fits, seen after its data blocks are taken. */
  lemma FileRoom(a: Image, m: Image, l: Layout, reserved: set<nat>, slot: nat, taken: seq<nat>, size: nat)
    requires Geometry(l, |a|) && slot < l.recordCount && |m| == |a|
    requires Marked(a, m, l, taken, true) && Ascending(taken) && AllFree(a, l, taken)
    requires forall b :: b in taken ==> b !in reserved
    requires |taken| == CeilDiv(size, 4096) && taken == FirstFit(l, Spare(a, l, reserved), |taken|)
    requires U64(RecordAt(a, l, slot), TYPE) == 1 && AllFlagged(a, RecordAt(a, l, slot), 1)
    ensures FileFits(a, l, reserved, slot, size) <==>
              && ListsNeeded(taken) <= |Spare(m, l, reserved + Elements(taken))|
              && U64(RecordAt(m, l, slot), GENERATION) != MAX_GENERATION
  {
    hide IsAllocated, RecordAt, Marked, AllFree, Spare, FirstFit, ListsNeeded, AllFlagged, Elements;
    RoomLeft(a, m, l, reserved, slot, taken);
  }

  lemma FileNoRoom(a: Image, l: Layout, reserved: set<nat>, slot: nat, size: nat)
    requires Geometry(l, |a|) && slot < l.recordCount
    requires CeilDiv(size, 4096) > |Spare(a, l, reserved)|
             || U64(RecordAt(a, l, slot), TYPE) != 1 || !AllFlagged(a, RecordAt(a, l, slot), 1)
    ensures !FileFits(a, l, reserved, slot, size)
  {
  }

  lemma DirectoryRoom(a: Image, m: Image, l: Layout, reserved: set<nat>, slot: nat, data: seq<nat>, taken: seq<nat>,
                      size: nat)
    requires Geometry(l, |a|) && slot < l.recordCount && |m| == |a|
    requires Marked(a, m, l, taken, true) && Ascending(taken) && AllFree(a, l, taken)
    requires forall b :: b in taken ==> b !in reserved
    requires AllFlagged(a, RecordAt(a, l, slot), 2)
             && data == DataBlocks(RecordExtents(a, RecordAt(a, l, slot)).value.0)
    requires |taken| == Extra(data, size) && taken == FirstFit(l, Spare(a, l, reserved), |taken|)
    ensures DirectoryFits(a, l, reserved, slot, size) <==>
              && ListsNeeded(Selected(data, taken, size)) <= |Spare(m, l, reserved + Elements(taken))|
              && U64(RecordAt(m, l, slot), GENERATION) != MAX_GENERATION
  {
    hide IsAllocated, RecordAt, Marked, AllFree, Spare, FirstFit, ListsNeeded, AllFlagged, Elements, Extra, Selected,
      RecordExtents;
    RoomLeft(a, m, l, reserved, slot, taken);
  }

  lemma DirectoryNoRoom(a: Image, l: Layout, reserved: set<nat>, slot: nat, size: nat)
    requires Geometry(l, |a|) && slot < l.recordCount
    requires AllFlagged(a, RecordAt(a, l, slot), 2) ==>
               Extra(DataBlocks(RecordExtents(a, RecordAt(a, l, slot)).value.0), size) > |Spare(a, l, reserved)|
    ensures !DirectoryFits(a, l, reserved, slot, size)
  {
  }

  // ----- the updater -----

  /** The slot a record ID names: its first slot in the table, otherwise the
      slot numbered by the ID itself. */
  function RecordSlot(img: Image, l: Layout, id: u64, from: nat): (r: Result<nat>)
    requires Geometry(l, |img|) && from <= l.recordCount
    ensures r.Ok? ==> r.value < l.recordCount
    decreases l.recordCount - from
  {
    if from == l.recordCount then (if 0 < id <= l.recordCount then Ok(id - 1) else Err)
    else if U64(RecordAt(img, l, from), ID) == id then Ok(from)
    else RecordSlot(img, l, id, from + 1)
  }

  /** A slot other than `except` has the ID. */
  ghost predicate HasId(img: Image, l: Layout, id: u64, except: int)
    requires Geometry(l, |img|)
  {
    exists t :: 0 <= t < l.recordCount && t != except && U64(RecordAt(img, l, t), ID) == id
  }

  lemma {:induction false} SlotHolds(img: Image, l: Layout, id: u64, from: nat)
    requires Geometry(l, |img|) && from <= l.recordCount && RecordSlot(img, l, id, from).Ok?
    ensures var slot := RecordSlot(img, l, id, from).value;
            && (U64(RecordAt(img, l, slot), ID) == id
                || (slot == id - 1 && forall t :: from <= t < l.recordCount ==> U64(RecordAt(img, l, t), ID) != id))
    decreases l.recordCount - from
  {
    hide RecordAt, U64, Geometry;
    if from < l.recordCount && U64(RecordAt(img, l, from), ID) != id {
      SlotHolds(img, l, id, from + 1);
    }
  }

  /** Rewriting a record by ID loses another record's ID exactly when the table does not
      have the ID and the slot numbered by it holds another one found nowhere else. */
  lemma RewriteKeepsIds(a: Image, b: Image, l: Layout, kind: u64, id: u64, payload: seq<byte>)
    requires Geometry(l, |a|) && RecordSlot(a, l, id, 0).Ok?
    requires Replaced(a, b, l, RecordSlot(a, l, id, 0).value, kind, id, payload)
    ensures var slot := RecordSlot(a, l, id, 0).value;
            var was := U64(RecordAt(a, l, slot), ID);
            (forall x: u64 :: x != 0 && HasId(a, l, x, -1) ==> HasId(b, l, x, -1))
            <==> HasId(a, l, id, -1) || was == 0 || HasId(a, l, was, slot)
  {
    hide RecordSlot, RecordAt, U64, Payload, WellWritten, Consistent;
    var slot := RecordSlot(a, l, id, 0).value;
    var was := U64(RecordAt(a, l, slot), ID);
    SlotHolds(a, l, id, 0);
    IdsAfter(a, b, l, slot, kind, id, payload);
    assert was == id <==> HasId(a, l, id, -1);
    assert HasId(a, l, was, -1);
    forall x: u64 | HasId(a, l, x, -1) ensures x == was || HasId(a, l, x, slot) {
      var t :| 0 <= t < l.recordCount && U64(RecordAt(a, l, t), ID) == x;
      assert t != slot ==> HasId(a, l, x, slot);
    }
  }

  lemma IdsAfter(a: Image, b: Image, l: Layout, slot: nat, kind: u64, id: u64, payload: seq<byte>)
    requires Geometry(l, |a|) && Replaced(a, b, l, slot, kind, id, payload)
    ensures forall x: u64 :: HasId(b, l, x, -1) <==> x == id || HasId(a, l, x, slot)
  {
    hide RecordAt, U64, Payload, WellWritten, Consistent;
    forall x: u64 ensures HasId(b, l, x, -1) <==> x == id || HasId(a, l, x, slot) {
      if HasId(b, l, x, -1) {
        var t :| 0 <= t < l.recordCount && U64(RecordAt(b, l, t), ID) == x;
        assert t == slot || U64(RecordAt(a, l, t), ID) == x;
      }
      if HasId(a, l, x, slot) {
        var t :| 0 <= t < l.recordCount && t != slot && U64(RecordAt(a, l, t), ID) == x;
        assert U64(RecordAt(b, l, t), ID) == x;
      }
      assert U64(RecordAt(b, l, slot), ID) == id;
    }
  }

  function Renewed(b: Block): Block {
    Checksummed(b, METADATA_CHECKSUM)
  }

  /** The image with the checksums of [lo, hi) renewed. */
  function Refreshed(img: Image, lo: nat, hi: nat): (r: Image)
    ensures |r| == |img|
  {
    seq(|img|, i requires 0 <= i < |img| => if lo <= i < hi then Renewed(img[i]) else img[i])
  }

  class Updater {
    const l: Layout
    var img: Image
    var reserved: set<nat>

    constructor (l: Layout, img: Image)
      ensures this.l == l && this.img == img && reserved == {}
    {
      this.l := l;
      this.img := img;
      reserved := {};
    }

    /** First fit over the data area: the lowest blocks that are neither marked
        nor reserved, in ascending order; an error only once none is left. */
    method AllocateBlocks(count: nat) returns (r: Result<seq<nat>>)
      requires Geometry(l, |img|)
      modifies this
      ensures |img| == old(|img|)
      ensures r.Ok? ==>
                && |r.value| == count && Ascending(r.value)
                && Marked(old(img), img, l, r.value, true)
                && AllFree(old(img), l, r.value) && (forall b :: b in r.value ==> b !in old(reserved))
                && (forall p :: InData(l, p) && p !in r.value && r.value != [] && p < r.value[|r.value| - 1]
                      ==> IsAllocated(old(img), l, p) || p in old(reserved))
                && reserved == old(reserved) + Elements(r.value)
                && r.value == FirstFit(l, Spare(old(img), l, old(reserved)), count)
      ensures r.Ok? <==> count <= |Spare(old(img), l, old(reserved))|
      ensures r.Err? ==> forall p :: InData(l, p) ==> IsAllocated(img, l, p) || p in reserved
    {
      hide Taken, IsAllocated, WithAllocated, Marked, AllFree, Ascending, Spare, FirstFit, Geometry, Elements;
      var blocks: seq<nat> := [];
      FitCount(img, l, reserved, count);
      TakenNone(img, l, reserved, count);
      var physical := l.dataStart;
      if count == 0 {
        TakenEnough(img, img, l, reserved, reserved, blocks, physical, count);
        return Ok(blocks);
      }
      while physical < l.dataStart + l.dataBlocks
        invariant l.dataStart <= physical <= l.dataStart + l.dataBlocks && |img| == old(|img|)
        invariant |blocks| < count && Taken(old(img), img, l, old(reserved), reserved, blocks, physical, count)
      {
        if physical !in reserved && !IsAllocated(img, l, physical) {
          TakeOne(old(img), img, l, old(reserved), reserved, blocks, physical, count);
          img := WithAllocated(img, l, physical, true);
          reserved := reserved + {physical};
          blocks := blocks + [physical];
          if |blocks| == count {
            TakenEnough(old(img), img, l, old(reserved), reserved, blocks, physical + 1, count);
            return Ok(blocks);
          }
        } else {
          SkipOne(old(img), img, l, old(reserved), reserved, blocks, physical, count);
        }
        physical := physical + 1;
      }
      TakenAll(old(img), img, l, old(reserved), reserved, blocks, count);
      return Err;
    }

    /** Renew the checksums of blocks of metadata. */
    method Refresh(lo: nat, hi: nat)
      requires lo <= hi <= |img|
      modifies this`img
      ensures img == Refreshed(old(img), lo, hi)
    {
      hide Crc;
      for p := lo to hi
        invariant |img| == old(|img|)
        invariant forall i :: 0 <= i < |img| ==> img[i] == if lo <= i < p then Renewed(old(img)[i]) else old(img)[i]
      {
        img := img[p := Renewed(img[p])];
      }
    }

    method RefreshTable(table: nat)
      requires Geometry(l, |img|) && table < l.tableBlocks
      modifies this`img
      ensures img == Refreshed(old(img), l.tableStart + table, l.tableStart + table + 1)
    {
      Refresh(l.tableStart + table, l.tableStart + table + 1);
    }

    method RefreshRecordBitmap()
      requires Geometry(l, |img|)
      modifies this`img
      ensures img == Refreshed(old(img), l.recordBitmapStart, l.tableStart)
    {
      Refresh(l.recordBitmapStart, l.tableStart);
    }

    method RefreshAllocation()
      requires Geometry(l, |img|)
      modifies this`img
      ensures img == Refreshed(old(img), l.allocStart, l.recordBitmapStart)
    {
      Refresh(l.allocStart, l.recordBitmapStart);
    }

    /** Unmark blocks of the data area. */
    method ReleaseBlocks(blocks: seq<nat>)
      requires Geometry(l, |img|) && forall b :: b in blocks ==> InData(l, b)
      modifies this`img
      ensures |img| == old(|img|) && Marked(old(img), img, l, blocks, false)
    {
      for i := 0 to |blocks|
        invariant |img| == old(|img|) && Marked(old(img), img, l, blocks[..i], false)
      {
        MarkedOne(old(img), img, l, blocks[..i], false, blocks[i]);
        img := WithAllocated(img, l, blocks[i], false);
        assert blocks[..i + 1] == blocks[..i] + [blocks[i]];
      }
      assert blocks[..|blocks|] == blocks;
    }

    method WriteBlocks(blocks: seq<nat>, contents: seq<Block>)
      requires |contents| == |blocks| && NoDup(blocks) && forall i :: 0 <= i < |blocks| ==> blocks[i] < |img|
      modifies this`img
      ensures SameExcept(old(img), img, blocks)
      ensures forall i :: 0 <= i < |blocks| ==> img[blocks[i]] == contents[i]
    {
      for k := 0 to |blocks|
        invariant SameExcept(old(img), img, blocks)
        invariant forall i :: 0 <= i < k ==> img[blocks[i]] == contents[i]
      {
        img := img[blocks[k] := contents[k]];
      }
    }

    method FindSlot(id: u64) returns (r: Result<nat>)
      requires Geometry(l, |img|)
      ensures r == RecordSlot(img, l, id, 0)
    {
      for slot := 0 to l.recordCount
        invariant RecordSlot(img, l, id, 0) == RecordSlot(img, l, id, slot)
      {
        if U64(RecordAt(img, l, slot), ID) == id {
          return Ok(slot);
        }
      }
      return if 0 < id <= l.recordCount then Ok(id - 1) else Err;
    }

    /** Read a record's extents and list blocks, following the chain. */
    method ReadExtents(rec: seq<byte>) returns (r: Result<(seq<Extent>, seq<nat>)>)
      requires |rec| == RECORD_BYTES
      ensures r == RecordExtents(img, rec)
    {
      if U64(rec, INLINE_COUNT) > 4 {
        return Err;
      }
      var extents := InlineExtents(rec);
      var es: seq<Extent>, lists: seq<nat> := [], [];
      var list: nat := U64(rec, LIST_HEAD);
      assert Elements([]) == {};
      ChainEnds(es, lists, Chain(img, list, {}));
      while list != 0
        invariant Chain(img, U64(rec, LIST_HEAD), {}) == Prepend(es, lists, Chain(img, list, Elements(lists)))
        decreases UpTo(|img|) - Elements(lists)
      {
        if list in lists || list >= |img| || !ListBlockOk(img[list]) {
          return Err;
        }
        ChainStep(img, es, lists, list);
        assert Elements(lists + [list]) == Elements(lists) + {list};
        es := es + ListEntries(img[list]);
        lists := lists + [list];
        list := U64(img[list], 16);
      }
      ChainEnds(es, lists, Ok(([], [])));
      return if |extents + es| != U64(rec, EXTENT_COUNT) then Err else Ok((extents + es, lists));
    }

    /** Write the extents after the first two into the list blocks. */
    method WriteExtentLists(id: u64, es: seq<Extent>, lists: seq<nat>)
      requires NoDup(lists) && InImage(lists, img)
      requires |lists| == CeilDiv(|es| - InlineCount(es), LIST_MAX)
      modifies this`img
      ensures SameExcept(old(img), img, lists)
      ensures ChainWritten(img, id, es[InlineCount(es)..], lists)
    {
      hide Crc;
      var contents := BuildLists(id, es[InlineCount(es)..], lists);
      WriteBlocks(lists, contents);
      ChainComplete(img, id, es[InlineCount(es)..], lists, contents);
    }

    /** The blocks of a stored payload: chunks in `selected`, then a chain of
        fresh list blocks for the extents past the first two. */
    method StoreBlocks(id: u64, kind: u64, payload: seq<byte>, selected: seq<nat>)
      returns (r: Result<(seq<Extent>, seq<nat>)>, ghost marked: Image)
      requires Geometry(l, |img|) && NoDup(selected) && AllAllocated(img, l, selected)
      modifies this
      ensures |img| == old(|img|)
      ensures r.Ok? ==>
                var (es, lists) := r.value;
                && Extents(es, selected, kind)
                && Marked(old(img), marked, l, lists, true)
                && NoDup(lists) && AllFree(old(img), l, lists)
                && SameExcept(marked, img, selected + lists)
                && HoldsChunks(img, selected, payload)
                && ChainWritten(img, id, es[InlineCount(es)..], lists)
      ensures r.Ok? <==> ListsNeeded(selected) <= |Spare(old(img), l, old(reserved))|
    {
      marked := img;
      hide Crc, Spare, Runs;
      DistinctBound(selected, |img|);
      var es := MakeExtents(selected, kind);
      var got := AllocateBlocks(CeilDiv(|es| - InlineCount(es), LIST_MAX));
      if got.Err? {
        return Err, marked;
      }
      var lists := got.value;
      marked := img;
      WriteBlocks(selected, Chunks(payload, |selected|));
      ghost var chunked := img;
      WriteExtentLists(id, es, lists);
      ChunksSurvive(chunked, img, selected, lists, payload);
      r := Ok((es, lists));
    }

    /** Store a payload and the record that describes it. */
    method Store(slot: nat, id: u64, kind: u64, payload: seq<byte>, selected: seq<nat>)
      returns (r: Result<seq<nat>>, ghost marked: Image, ghost written: Image)
      requires Geometry(l, |img|) && slot < l.recordCount && kind in {1, 2}
      requires NoDup(selected) && |selected| == CeilDiv(|payload|, 4096) && AllAllocated(img, l, selected)
      requires kind == 1 ==> Ascending(selected)
      modifies this
      ensures |img| == old(|img|)
      ensures r.Ok? ==>
                && Stored(old(img), marked, written, img, l, slot, RecordAt(img, l, slot), kind, id, selected, r.value,
                          payload)
                && RecordUpdated(RecordAt(old(img), l, slot), RecordAt(img, l, slot), kind, id, |payload|)
      ensures r.Ok? <==>
                && ListsNeeded(selected) <= |Spare(old(img), l, old(reserved))|
                && U64(RecordAt(old(img), l, slot), GENERATION) != MAX_GENERATION
    {
      hide Crc, IsAllocated, ChainWritten, Extents, HoldsChunks, Spare, ListsNeeded;
      var old' := RecordAt(img, l, slot);
      written := img;
      var stored;
      stored, marked := StoreBlocks(id, kind, payload, selected);
      if stored.Err? || U64(old', GENERATION) == MAX_GENERATION {
        return Err, marked, written;
      }
      var (es, lists) := stored.value;
      written := img;
      StoreBounds(old(img), l, kind, es, lists, selected, |payload|);
      var rec := MakeRecord(old', id, kind, payload, es, lists);
      StoredState(old(img), marked, written, l, slot, rec, kind, id, es, lists, selected, payload);
      img := WithRecord(img, l, slot, rec);
      RecordAfter(written, l, slot, rec, slot);
      r := Ok(lists);
    }

    /** Replace a file's payload by freshly allocated blocks. */
    method ReplaceFilePayload(id: u64, payload: seq<byte>) returns (r: Result<nat>)
      requires Consistent(img, l) && id != 0
      modifies this
      ensures r.Ok? <==>
                var slot := RecordSlot(old(img), l, id, 0);
                slot.Ok? && FileFits(old(img), l, old(reserved), slot.value, |payload|)
      ensures r.Ok? ==>
                var slot := RecordSlot(old(img), l, id, 0).value;
                r.value == slot / RECORDS_PER_BLOCK && Replaced(old(img), img, l, slot, 1, id, payload)
    {
      hide Consistent, Geometry, Replaced, FileFits, AllFlagged, RecordExtents, Footprint, Payload, RecordAt,
        RecordSlot, U64,
        AllAllocated, DataBlocks;
      HasGeometry(img, l);
      var found := FindSlot(id);
      if found.Err? {
        return Err;
      }
      var slot := found.value;
      OwnedBlocks(img, l, slot);
      var extents := ReadExtents(RecordAt(img, l, slot));
      FlaggedIs(img, RecordAt(img, l, slot), 1);
      if U64(RecordAt(img, l, slot), TYPE) != 1 || exists e :: e in extents.value.0 && e.flags != 1 {
        FileNoRoom(img, l, reserved, slot, |payload|);
        return Err;
      }
      var ok := ReplaceFileAt(slot, id, payload, DataBlocks(extents.value.0), extents.value.1);
      return if ok then Ok(slot / RECORDS_PER_BLOCK) else Err;
    }

    method ReplaceFileAt(slot: nat, id: u64, payload: seq<byte>, oldData: seq<nat>, oldLists: seq<nat>)
      returns (ok: bool)
      requires Consistent(img, l) && Geometry(l, |img|) && slot < l.recordCount && id != 0
      requires RecordExtents(img, RecordAt(img, l, slot)).Ok?
      requires var ext := RecordExtents(img, RecordAt(img, l, slot)).value;
               oldData == DataBlocks(ext.0) && oldLists == ext.1
      requires (forall p :: p in oldData ==> InData(l, p)) && forall p :: p in oldLists ==> InData(l, p)
      requires Footprint(img, RecordAt(img, l, slot)) == oldData + oldLists
      requires U64(RecordAt(img, l, slot), TYPE) == 1 && AllFlagged(img, RecordAt(img, l, slot), 1)
      modifies this
      ensures ok <==> FileFits(old(img), l, old(reserved), slot, |payload|)
      ensures ok ==> Replaced(old(img), img, l, slot, 1, id, payload)
    {
      hide *;
      var data := AllocateBlocks(CeilDiv(|payload|, 4096));
      if data.Err? {
        FileNoRoom(old(img), l, old(reserved), slot, |payload|);
        return false;
      }
      ghost var m := img;
      FileRoom(old(img), m, l, old(reserved), slot, data.value, |payload|);
      FreshAllocated(old(img), m, l, data.value);
      AscendingNoDup(data.value);
      var lists;
      ghost var marked, written;
      lists, marked, written := Store(slot, id, 1, payload, data.value);
      if lists.Err? {
        return false;
      }
      ghost var d := img;
      ReleaseBlocks(oldData);
      ghost var half := img;
      ReleaseBlocks(oldLists);
      MarkedTrans(d, half, img, l, oldData, oldLists, false);
      FileReplacement(old(img), m, marked, written, d, img, l, slot, RecordAt(d, l, slot), id, data.value, lists.value,
                      payload);
      ReplacementReplaces(old(img), m, marked, written, d, img, l, slot, RecordAt(d, l, slot), 1, id,
                          data.value, data.value, lists.value, Footprint(old(img), RecordAt(old(img), l, slot)),
                            payload);
      return true;
    }

    /** Replace a directory's payload, reusing its data blocks first. */
    method ReplaceDirectoryPayload(id: u64, payload: seq<byte>) returns (r: Result<nat>)
      requires Consistent(img, l) && id != 0
      modifies this
      ensures r.Ok? <==>
                var slot := RecordSlot(old(img), l, id, 0);
                slot.Ok? && DirectoryFits(old(img), l, old(reserved), slot.value, |payload|)
      ensures r.Ok? ==>
                var slot := RecordSlot(old(img), l, id, 0).value;
                r.value == slot / RECORDS_PER_BLOCK && Replaced(old(img), img, l, slot, 2, id, payload)
    {
      hide Consistent, Geometry, Replaced, DirectoryFits, AllFlagged, RecordExtents, Footprint, Payload, RecordAt,
        RecordSlot, U64,
        AllAllocated, DataBlocks, Extra;
      HasGeometry(img, l);
      var found := FindSlot(id);
      if found.Err? {
        return Err;
      }
      var slot := found.value;
      OwnedBlocks(img, l, slot);
      var extents := ReadExtents(RecordAt(img, l, slot));
      FlaggedIs(img, RecordAt(img, l, slot), 2);
      if exists e :: e in extents.value.0 && e.flags != 2 {
        DirectoryNoRoom(img, l, reserved, slot, |payload|);
        return Err;
      }
      var ok := ReplaceDirectoryAt(slot, id, payload, DataBlocks(extents.value.0), extents.value.1);
      return if ok then Ok(slot / RECORDS_PER_BLOCK) else Err;
    }

    method ReplaceDirectoryAt(slot: nat, id: u64, payload: seq<byte>, oldData: seq<nat>, oldLists: seq<nat>)
      returns (ok: bool)
      requires Consistent(img, l) && Geometry(l, |img|) && slot < l.recordCount && id != 0
      requires RecordExtents(img, RecordAt(img, l, slot)).Ok?
      requires var ext := RecordExtents(img, RecordAt(img, l, slot)).value;
               oldData == DataBlocks(ext.0) && oldLists == ext.1
      requires (forall p :: p in oldData ==> InData(l, p)) && forall p :: p in oldLists ==> InData(l, p)
      requires AllFlagged(img, RecordAt(img, l, slot), 2)
      modifies this
      ensures ok <==> DirectoryFits(old(img), l, old(reserved), slot, |payload|)
      ensures ok ==> Replaced(old(img), img, l, slot, 2, id, payload)
    {
      hide *;
      var needed := CeilDiv(|payload|, 4096);
      var extra := AllocateBlocks(Extra(oldData, |payload|));
      if extra.Err? {
        DirectoryNoRoom(old(img), l, old(reserved), slot, |payload|);
        return false;
      }
      ghost var m := img;
      DirectoryRoom(old(img), m, l, old(reserved), slot, oldData, extra.value, |payload|);
      SelectedIs(oldData, extra.value, |payload|);
      var selected := (oldData + extra.value)[..needed];
      var kept := if needed < |oldData| then needed else |oldData|;
      DirectorySelection(old(img), m, l, slot, oldData, oldLists, extra.value, needed, kept);
      SelectionParts(old(img), m, l, slot, extra.value, selected, oldData[kept..], oldLists);
      var lists;
      ghost var marked, written;
      lists, marked, written := Store(slot, id, 2, payload, selected);
      if lists.Err? {
        return false;
      }
      ghost var d := img;
      ReleaseBlocks(oldData[kept..]);
      ghost var half := img;
      ReleaseBlocks(oldLists);
      MarkedTrans(d, half, img, l, oldData[kept..], oldLists, false);
      DirectoryReplacement(old(img), m, marked, written, d, img, l, slot, RecordAt(d, l, slot), id,
                           extra.value, selected, lists.value, oldData[kept..] + oldLists, payload);
      return true;
    }

    /** Free a record: its blocks, its bytes and the slot bit the helper addresses, and
        nothing else. */
    method ReleaseRecord(id: u64) returns (r: Result<nat>)
      requires Consistent(img, l) && id != 0
      modifies this`img
      ensures r.Ok? <==> RecordSlot(old(img), l, id, 0).Ok?
      ensures r.Ok? ==>
                var slot := RecordSlot(old(img), l, id, 0).value;
                && r.value == slot / RECORDS_PER_BLOCK
                && Consistent(img, l) && |img| == old(|img|)
                && (forall t :: 0 <= t < l.recordCount ==>
                      && RecordAt(img, l, t) == (if t == slot then Zeros(RECORD_BYTES) else RecordAt(old(img), l, t))
                      && (t != slot ==>
                            Payload(img, RecordAt(img, l, t)) == Payload(old(img), RecordAt(old(img), l, t))))
                && Unmarked(old(img), img, l, slot)
    {
      hide *;
      HasGeometry(img, l);
      var found := FindSlot(id);
      if found.Err? {
        return Err;
      }
      var slot := found.value;
      OwnedBlocks(img, l, slot);
      var extents := ReadExtents(RecordAt(img, l, slot));
      var data, lists := DataBlocks(extents.value.0), extents.value.1;
      ReleaseBlocks(data);
      ghost var half := img;
      ReleaseBlocks(lists);
      MarkedTrans(old(img), half, img, l, data, lists, false);
      ghost var b := img;
      img := WithSlotBit(img, l, slot, false);
      ghost var c := img;
      img := WithRecord(img, l, slot, Zeros(RECORD_BYTES));
      ReleaseKeeps(old(img), b, c, img, l, slot, data + lists);
      return Ok(slot / RECORDS_PER_BLOCK);
    }
  }
}
