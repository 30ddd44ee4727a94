/** The checker's ownership passes: every block a record's extents claim is
    entered in a list of owners, then compared with the allocation bitmap. With
    no error counted no block has two owners and every owned block is marked. */
module MgfsOwnerCheck {
  import opened Options
  import opened MgfsBytes
  import opened MgfsImage
  import opened MgfsFormat
  import opened MgfsBootReader
  import opened MgfsBitmapCheck

  datatype Kind = DataExtent | ListBlock
  datatype Claim = Claim(block: nat, record: nat, kind: Kind)

  // ----- what a record claims -----

  /** The extents follow each other from logical block `next`, inside the data area. */
  predicate Placed(l: Layout, es: seq<Extent>, next: nat, flags: u64) {
    es == [] || (ExtentOk(l, es[0], next, flags) && Placed(l, es[1..], next + es[0].count, flags))
  }

  predicate CheckerListOk(img: Image, l: Layout, list: nat, id: u64)
    requires Geometry(l, |img|)
  {
    && InData(l, list) && U64(img[list], 0) == LIST_MAGIC && U64(img[list], 8) == id && Checked(img[list], 32)
    && 1 <= U64(img[list], 24) <= LIST_MAX
  }

  /** The rest of a chain, after `count` extents covering `next` blocks: its
      extents, its list blocks and the number of blocks covered at the end. */
  function ChainExtents(img: Image, l: Layout, list: nat, id: u64, flags: u64, total: nat, count: nat, next: nat)
    : Option<(seq<Extent>, seq<nat>)>
    requires Geometry(l, |img|) && count <= total
    decreases total - count
  {
    if list == 0 then (if count == total then Some(([], [])) else None)
    else if !ListBlockFits(img, l, list, id, flags, total, count, next) then None
    else
      var es := ListEntries(img[list]);
      var rest := ChainExtents(img, l, U64(img[list], 16), id, flags, total, count + |es|, next + Covered(es));
      if rest.None? then None else Some((es + rest.value.0, [list] + rest.value.1))
  }

  /** The list block is well formed and its extents continue those before. */
  predicate ListBlockFits(img: Image, l: Layout, list: nat, id: u64, flags: u64, total: nat, count: nat, next: nat)
    requires Geometry(l, |img|)
  {
    CheckerListOk(img, l, list, id) && count + |ListEntries(img[list])| <= total
      && Placed(l, ListEntries(img[list]), next, flags)
  }

  /** All extents and list blocks of a record with no inline payload. */
  function CheckedExtents(img: Image, l: Layout, rec: seq<byte>, id: u64, flags: u64): Option<(seq<Extent>, seq<nat>)>
    requires Geometry(l, |img|) && |rec| == RECORD_BYTES
  {
    var total, inl := U64(rec, EXTENT_COUNT), U64(rec, INLINE_COUNT);
    if inl > 2 || inl > total || !Placed(l, InlineExtents(rec), 0, flags) then None
    else
      var chain := ChainExtents(img, l, U64(rec, LIST_HEAD), id, flags, total, inl, Covered(InlineExtents(rec)));
      if chain.None? then None else Some((InlineExtents(rec) + chain.value.0, chain.value.1))
  }

  // ----- records by ID -----

  /** The first allocated slot that carries the ID. */
  function SlotOf(img: Image, l: Layout, id: nat, from: nat): (r: Option<nat>)
    requires Geometry(l, |img|) && from <= l.recordCount
    ensures r.Some? ==> r.value < l.recordCount
    decreases l.recordCount - from
  {
    if from == l.recordCount then None
    else if RecordBit(img, l, from) && U64(RecordAt(img, l, from), ID) == id then Some(from)
    else SlotOf(img, l, id, from + 1)
  }

  predicate Readable(rec: seq<byte>)
    requires |rec| == RECORD_BYTES
  {
    U64(rec, ID) != 0 && Checked(rec, RECORD_CHECKSUM) && FlagsKnown(U64(rec, FLAGS)) && Permissions(rec) != 0
  }

  /** What the checker demands of every allocated slot. */
  predicate SlotFine(l: Layout, rec: seq<byte>, minor: u64)
    requires |rec| == RECORD_BYTES
  {
    && Readable(rec) && U64(rec, ID) <= l.recordCount && (U64(rec, TYPE) == 1 || U64(rec, TYPE) == 2)
    && !(Restricted(rec) && (U64(rec, TYPE) == 1 || minor == 1))
  }

  function ExtentKind(rec: seq<byte>): u64
    requires |rec| == RECORD_BYTES
  {
    if U64(rec, TYPE) == 2 then 2 else 1
  }

  /** The extents are good and the blocks they cover hold the size; an inline
      payload counts as 56 blocks. */
  predicate RecordFine(img: Image, l: Layout, rec: seq<byte>, id: u64)
    requires Geometry(l, |img|) && |rec| == RECORD_BYTES
  {
    && Readable(rec) && (Inline(rec) || CheckedExtents(img, l, rec, id, ExtentKind(rec)).Some?)
    && var capacity := if Inline(rec) then 56 else Covered(CheckedExtents(img, l, rec, id, ExtentKind(rec)).value.0);
    && capacity <= 0xFFFF_FFFF_FFFF_FFFF / 4096 && U64(rec, SIZE) <= capacity * 4096
  }

  ghost function RecordClaims(img: Image, l: Layout, rec: seq<byte>, id: u64): set<Claim>
    requires Geometry(l, |img|) && |rec| == RECORD_BYTES && RecordFine(img, l, rec, id)
  {
    if Inline(rec) then {} else
    var found := CheckedExtents(img, l, rec, id, ExtentKind(rec)).value;
    ClaimsOf(id, found.0, found.1)
  }

  /** The record with this ID is fine, if there is one. */
  ghost predicate IdFine(img: Image, l: Layout, id: u64)
    requires Geometry(l, |img|)
  {
    SlotOf(img, l, id, 0).Some? ==> RecordFine(img, l, RecordAt(img, l, SlotOf(img, l, id, 0).value), id)
  }

  ghost function IdClaims(img: Image, l: Layout, id: u64): set<Claim>
    requires Geometry(l, |img|)
  {
    if SlotOf(img, l, id, 0).Some? && IdFine(img, l, id) then
      RecordClaims(img, l, RecordAt(img, l, SlotOf(img, l, id, 0).value), id)
    else {}
  }

  /** Everything claimed by the records with IDs up to n. */
  ghost function AllClaims(img: Image, l: Layout, n: u64): set<Claim>
    requires Geometry(l, |img|)
  {
    if n == 0 then {} else AllClaims(img, l, n - 1) + IdClaims(img, l, n)
  }

  predicate BitmapBlockOk(b: Block, kind: u64, index: nat) {
    U64(b, 0) == kind && U64(b, 8) == index && Checked(b, 16)
  }

  ghost predicate BitmapOk(img: Image, start: nat, blocks: nat, kind: u64)
    requires start + blocks <= |img|
  {
    forall p :: start <= p < start + blocks ==> BitmapBlockOk(img[p], kind, p - start)
  }

  /** The blocks of a bitmap one after another. */
  ghost function Blocks(img: Image, start: nat, blocks: nat): (s: seq<byte>)
    requires start + blocks <= |img|
    ensures |s| == 4096 * blocks
  {
    if blocks == 0 then [] else Blocks(img, start, blocks - 1) + img[start + blocks - 1]
  }

  lemma {:induction false} BlocksAt(img: Image, start: nat, blocks: nat, i: nat, k: nat)
    requires start + blocks <= |img| && i < blocks && k < 4096
    ensures 4096 * i + k < |Blocks(img, start, blocks)| && Blocks(img, start, blocks)[4096 * i + k] == img[start + i][k]
  {
    if i < blocks - 1 {
      BlocksAt(img, start, blocks - 1, i, k);
    }
  }

  /** So a bit of the loaded map is the bit on disk. */
  lemma BlocksBit(img: Image, start: nat, blocks: nat, n: nat)
    requires start + blocks <= |img| && n < BITS_PER_BLOCK * blocks
    ensures n / BITS_PER_BLOCK < blocks && HeadedBit(Blocks(img, start, blocks), n) == BitmapBit(img, start, n)
  {
    PackedPosition(n, blocks);
    BlocksAt(img, start, blocks, n / BITS_PER_BLOCK, 24 + n % BITS_PER_BLOCK / 8);
  }

  ghost predicate Marked(img: Image, l: Layout, claims: set<Claim>)
    requires Geometry(l, |img|)
  {
    forall c :: c in claims ==> InData(l, c.block) && IsAllocated(img, l, c.block)
  }

  /** The allocated slots before n hold well-formed records. */
  ghost predicate SlotsFine(img: Image, l: Layout, minor: u64, n: nat)
    requires Geometry(l, |img|) && n <= l.recordCount
  {
    forall slot :: 0 <= slot < n && RecordBit(img, l, slot) ==> SlotFine(l, RecordAt(img, l, slot), minor)
  }

  ghost predicate SlotMapped(img: Image, l: Layout, packed: seq<byte>, slot: nat)
    requires Geometry(l, |img|) && slot < l.recordCount && |packed| == 4096 * l.recordBitmapBlocks
  {
    SlotInPacked(l, slot);
    PackedBit(packed, slot) == RecordBit(img, l, slot)
  }

  lemma SlotInPacked(l: Layout, slot: nat)
    requires l.recordCount <= BITS_PER_BLOCK * l.recordBitmapBlocks && slot < l.recordCount
    ensures 24 + slot / 8 < 4096 * l.recordBitmapBlocks
  {
    PackedPosition(slot, l.recordBitmapBlocks);
  }

  ghost predicate IdsFine(img: Image, l: Layout, n: nat)
    requires Geometry(l, |img|)
  {
    forall id: u64 :: 1 <= id <= n ==> IdFine(img, l, id)
  }

  lemma IdsFineStep(img: Image, l: Layout, n: nat)
    requires Geometry(l, |img|) && n + 1 < 0x1_0000_0000_0000_0000
    ensures IdsFine(img, l, n + 1) <==> IdsFine(img, l, n) && IdFine(img, l, n + 1)
  {
  }

  /** The owned blocks before n are marked in the map of physical blocks. */
  ghost predicate OwnersMarked(l: Layout, owners: seq<Claim>, bitmap: seq<byte>, n: nat)
    requires Covers(l, |bitmap|) && n <= l.dataStart + l.dataBlocks
  {
    forall i :: 0 <= i < |owners| && owners[i].block < n ==>
      (InMap(l, |bitmap|, owners[i].block); HeadedBit(bitmap, owners[i].block))
  }

  /** What the ownership passes certify. */
  ghost predicate Sound(img: Image, l: Layout, minor: u64)
    requires Geometry(l, |img|)
  {
    && BitmapOk(img, l.allocStart, l.allocBlocks, 1) && BitmapOk(img, l.recordBitmapStart, l.recordBitmapBlocks, 2)
    && SlotsFine(img, l, minor, l.recordCount)
    && IdsFine(img, l, l.recordCount)
    && Unshared(AllClaims(img, l, l.recordCount)) && Marked(img, l, AllClaims(img, l, l.recordCount))
  }

  // ----- claims as sets -----

  ghost function ClaimsOf(id: nat, es: seq<Extent>, lists: seq<nat>): set<Claim> {
    DataClaims(id, es) + ListClaims(id, lists)
  }

  ghost function DataClaims(id: nat, es: seq<Extent>): set<Claim> {
    set b | b in DataBlocks(es) :: Claim(b, id, DataExtent)
  }

  ghost function ListClaims(id: nat, lists: seq<nat>): set<Claim> {
    set b | b in lists :: Claim(b, id, ListBlock)
  }

  /** No block is claimed by two records, or in two ways. */
  ghost predicate Unshared(claims: set<Claim>) {
    forall a, b :: a in claims && b in claims && a.block == b.block ==> a == b
  }

  lemma DataClaimsJoin(id: nat, a: seq<Extent>, b: seq<Extent>)
    ensures DataClaims(id, a + b) == DataClaims(id, a) + DataClaims(id, b)
  {
    DataBlocksJoin(a, b);
  }

  lemma {:induction false} DataBlocksJoin(a: seq<Extent>, b: seq<Extent>)
    ensures DataBlocks(a + b) == DataBlocks(a) + DataBlocks(b)
  {
    if a == [] {
      assert a + b == b;
    } else {
      assert (a + b)[1..] == a[1..] + b;
      DataBlocksJoin(a[1..], b);
    }
  }

  // ----- the owners list -----

  /** The owners as a set of claims; one entry a block. */
  ghost predicate OneEach(owners: seq<Claim>) {
    forall i, j :: 0 <= i < j < |owners| ==> owners[i].block != owners[j].block
  }

  ghost function Entered(owners: seq<Claim>): set<Claim> {
    set c | c in owners
  }

  class OwnerCheck {
    const img: Image
    const l: Layout
    var owners: seq<Claim>
    var errors: nat
    ghost var claims: set<Claim>

    ghost predicate Valid()
      reads this
    {
      && Geometry(l, |img|) && OneEach(owners)
      && (errors == 0 ==> claims == Entered(owners))
      && forall c :: c in owners ==> c in claims
    }

    /** From one state to a later one: claims are added, and an error appears
        only for a shared block or where `fine` fails. */
    twostate predicate Later(added: set<Claim>, fine: bool)
      reads this
    {
      && errors >= old(errors) && claims == old(claims) + added
      && (old(errors) == 0 && fine && Unshared(claims) ==> errors == 0)
    }

    /** Enter an owner unless the block has one; a different one is an error. */
    method AddOwner(block: nat, record: nat, kind: Kind)
      requires Valid()
      modifies this
      ensures Valid() && Later({Claim(block, record, kind)}, true)
    {
      ghost var c := Claim(block, record, kind);
      claims := claims + {c};
      for i := 0 to |owners|
        invariant forall j :: 0 <= j < i ==> owners[j].block != block
        invariant owners == old(owners) && errors == old(errors) && claims == old(claims) + {c}
      {
        if owners[i].block == block {
          assert owners[i] in owners;
          if owners[i].record != record || owners[i].kind != kind {
            errors := errors + 1;
          }
          return;
        }
      }
      owners := owners + [Claim(block, record, kind)];
    }
  
    /** A scan that stopped early: whatever it entered stays. */
    twostate predicate Stopped()
      reads this
    {
      errors >= old(errors) && old(claims) <= claims
    }

    /** Check one extent and enter its blocks. */
    method AddExtent(id: nat, e: Extent, flags: u64, next: nat) returns (ok: bool)
      requires Valid()
      modifies this
      ensures Valid() && ok == ExtentOk(l, e, next, flags)
      ensures if ok then Later(DataClaims(id, [e]), true) else Stopped()
    {
      ok := ExtentOk(l, e, next, flags);
      if !ok {
        errors := errors + 1;
        return;
      }
      ghost var done: set<Claim> := {};
      for i := 0 to e.count
        invariant Valid() && Later(done, true)
        invariant done == set b | b in Range(e.physical, i) :: Claim(b, id, DataExtent)
      {
        AddOwner(e.physical + i, id, DataExtent);
        RangeGrows(e.physical, i);
        done := done + {Claim(e.physical + i, id, DataExtent)};
      }
      OneExtent(e);
    }

    /** Check a run of extents in turn. */
    method ScanRun(id: nat, es: seq<Extent>, flags: u64, next: nat, count: nat, total: nat)
      returns (ok: bool, next': nat, count': nat)
      requires Valid() && count <= total
      modifies this
      ensures Valid() && (ok <==> count + |es| <= total && Placed(l, es, next, flags))
      ensures if ok then Later(DataClaims(id, es), true) && next' == next + Covered(es) && count' == count + |es|
              else Stopped()
    {
      hide DataClaims, ExtentOk, Covered, DataBlocks;
      NoRun(id);
      assert es[..0] == [] && es[0..] == es;
      next', count' := next, count;
      for i := 0 to |es|
        invariant Valid() && Later(DataClaims(id, es[..i]), true)
        invariant next' == next + Covered(es[..i]) && count' == count + i <= total
        invariant Placed(l, es, next, flags) <==> Placed(l, es[i..], next', flags)
      {
        RunStep(l, id, es, i, next, next', flags);
        if count' >= total {
          return false, next', count';
        }
        ok := AddExtent(id, es[i], flags, next');
        if !ok {
          return false, next', count';
        }
        next', count' := next' + es[i].count, count' + 1;
      }
      assert es[..|es|] == es;
      ok := true;
    }

    /** Check one extent-list block, enter it and scan its extents. */
    method ScanListBlock(id: u64, list: nat, flags: u64, next: nat, count: nat, total: nat)
      returns (ok: bool, next': nat, count': nat)
      requires Valid() && count <= total && list != 0
      modifies this
      ensures Valid() && (ok <==> ListBlockFits(img, l, list, id, flags, total, count, next))
      ensures if ok then
                && Later({Claim(list, id, ListBlock)} + DataClaims(id, ListEntries(img[list])), true)
                && next' == next + Covered(ListEntries(img[list])) && count' == count + |ListEntries(img[list])|
              else Stopped()
    {
      hide Crc, Placed, U64;
      next', count' := next, count;
      if !InData(l, list) || U64(img[list], 0) != LIST_MAGIC || U64(img[list], 8) != id || !Checked(img[list], 32) {
        errors := errors + 1;
        return false, next', count';
      }
      AddOwner(list, id, ListBlock);
      if !(1 <= U64(img[list], 24) <= LIST_MAX) {
        return false, next', count';
      }
      ok, next', count' := ScanRun(id, ListEntries(img[list]), flags, next, count, total);
    }

    /** Follow the extent-list chain. */
    method ScanChain(id: u64, head: nat, flags: u64, start: nat, inl: nat, total: nat)
      returns (ok: bool, next: nat, ghost es: seq<Extent>, ghost lists: seq<nat>)
      requires Valid() && inl <= total
      modifies this
      ensures Valid() && (ok <==> ChainExtents(img, l, head, id, flags, total, inl, start).Some?)
      ensures ok ==>
                ChainExtents(img, l, head, id, flags, total, inl, start) == Some((es, lists)) && next
                == start + Covered(es)
      ensures if ok then Later(ClaimsOf(id, es, lists), true) else Stopped()
    {
      hide Crc, Placed, U64, ListEntries, Behind, ClaimsOf, DataClaims, Covered, ExtentAt, Checked;
      NoRun(id);
      var list: nat, count: nat := head, inl;
      next, es, lists := start, [], [];
      ghost var spec := ChainExtents(img, l, head, id, flags, total, inl, start);
      BehindNothing(spec);
      NoClaims(id);
      while list != 0
        invariant Valid() && inl <= count <= total && next == start + Covered(es)
        invariant spec == Behind(es, lists, ChainExtents(img, l, list, id, flags, total, count, next))
        invariant Later(ClaimsOf(id, es, lists), true)
        decreases total - count
      {
        var next': nat, count': nat;
        ok, next', count' := ScanListBlock(id, list, flags, next, count, total);
        BehindStep(img, l, list, id, flags, total, count, next, es, lists);
        if !ok {
          return false, next, es, lists;
        }
        ghost var run := ListEntries(img[list]);
        ClaimsStep(id, es, lists, run, list);
        CoveredJoin(es, run);
        next, count, es, lists := next', count', es + run, lists + [list];
        list := U64(img[list], 16);
      }
      ok := count == total;
      BehindEnd(es, lists);
    }

    /** Enter everything a record claims. */
    method ScanExtents(id: u64, rec: seq<byte>) returns (ok: bool, capacity: nat)
      requires Valid() && |rec| == RECORD_BYTES
      modifies this
      ensures Valid()
      ensures Inline(rec) ==> ok && capacity == 56 && Later({}, true)
      ensures !Inline(rec) ==>
                var found := CheckedExtents(img, l, rec, id, ExtentKind(rec));
                && ok == found.Some?
                && if ok then capacity == Covered(found.value.0)
                   && Later(ClaimsOf(id, found.value.0, found.value.1), true)
                   else capacity == 0 && Stopped()
    {
      hide Crc, Placed, U64, Range, DataBlocks, DataClaims, ListClaims, ChainExtents, Covered;
      if Inline(rec) {
        return true, 56;
      }
      var total: nat, inl: nat := U64(rec, EXTENT_COUNT), U64(rec, INLINE_COUNT);
      if inl > 2 || inl > total {
        return false, 0;
      }
      var next: nat, count: nat;
      ok, next, count := ScanRun(id, InlineExtents(rec), ExtentKind(rec), 0, 0, total);
      if !ok {
        return false, 0;
      }
      ghost var es, lists;
      ok, next, es, lists := ScanChain(id, U64(rec, LIST_HEAD), ExtentKind(rec), next, count, total);
      if !ok {
        return false, 0;
      }
      capacity := next;
      CoveredJoin(InlineExtents(rec), es);
      DataClaimsJoin(id, InlineExtents(rec), es);
    }

    /** Copy one block into place. */
    method CopyBlock(map': array<byte>, at: nat, b: Block)
      requires at + 4096 <= map'.Length
      modifies map'
      ensures map'[..] == old(map'[..at]) + b + old(map'[at + 4096..])
    {
      for k := 0 to 4096
        invariant forall i :: 0 <= i < map'.Length ==> map'[i] == if at <= i < at + k then b[i - at] else old(map'[i])
      {
        map'[at + k] := b[k];
      }
    }

    /** Load a bitmap; a block that fails its checks is an error and stays zero. */
    method LoadBitmap(start: nat, blocks: nat, kind: u64) returns (map': array<byte>)
      requires Valid() && start + blocks <= |img|
      modifies this`errors
      ensures Valid() && errors >= old(errors) && fresh(map') && map'.Length == 4096 * blocks
      ensures errors == old(errors) <==> BitmapOk(img, start, blocks, kind)
      ensures errors == old(errors) ==> map'[..] == Blocks(img, start, blocks)
    {
      hide BitmapBlockOk;
      map' := new byte[4096 * blocks](_ => 0);
      for i := 0 to blocks
        invariant Valid() && errors >= old(errors)
        invariant errors == old(errors) <==> BitmapOk(img, start, i, kind)
        invariant errors == old(errors) ==> map'[..4096 * i] == Blocks(img, start, i)
      {
        var b := img[start + i];
        if !BitmapBlockOk(b, kind, i) {
          errors := errors + 1;
        } else {
          CopyBlock(map', 4096 * i, b);
        }
      }
    }

    /** The packed record bitmap agrees with the disk, as far as no error has been counted. */
    ghost predicate Slots(packed: array<byte>)
      reads this, packed
    {
      && Valid() && packed.Length == 4096 * l.recordBitmapBlocks
      && (errors == 0 ==> forall slot :: 0 <= slot < l.recordCount ==> SlotMapped(img, l, packed[..], slot))
    }

    /** Every allocated slot must hold a well-formed record. */
    method ValidateSlots(packed: array<byte>, minor: u64)
      requires Slots(packed)
      modifies this`errors
      ensures Slots(packed)
      ensures errors == 0 <==> old(errors) == 0 && SlotsFine(img, l, minor, l.recordCount)
    {
      hide SlotFine, RecordBit, RecordAt;
      for slot := 0 to l.recordCount
        invariant Slots(packed)
        invariant errors == 0 <==> old(errors) == 0 && SlotsFine(img, l, minor, slot)
      {
        SlotInPacked(l, slot);
        assert errors == 0 ==> SlotMapped(img, l, packed[..], slot);
        if Bit(packed[24 + slot / 8], slot % 8) && !SlotFine(l, RecordAt(img, l, slot), minor) {
          errors := errors + 1;
        }
      }
    }

    /** The first allocated slot with the ID. */
    method FindSlot(packed: array<byte>, id: nat) returns (r: Option<nat>)
      requires Slots(packed)
      ensures r.Some? ==> r.value < l.recordCount
      ensures errors == 0 ==> r == SlotOf(img, l, id, 0)
    {
      hide RecordBit, RecordAt, U64;
      for slot := 0 to l.recordCount
        invariant errors == 0 ==> SlotOf(img, l, id, 0) == SlotOf(img, l, id, slot)
      {
        SlotInPacked(l, slot);
        assert errors == 0 ==> SlotMapped(img, l, packed[..], slot);
        if Bit(packed[24 + slot / 8], slot % 8) && U64(RecordAt(img, l, slot), ID) == id {
          return Some(slot);
        }
      }
      r := None;
    }

    /** Check the record with one ID, if there is one. */
    method CheckRecord(packed: array<byte>, id: u64)
      requires Slots(packed)
      modifies this
      ensures Slots(packed) && errors >= old(errors)
      ensures errors == 0 ==> IdFine(img, l, id)
      ensures old(errors) == 0 && IdFine(img, l, id) ==> Later(IdClaims(img, l, id), true)
    {
      hide SlotOf, RecordAt, Readable, CheckedExtents, ClaimsOf, SlotMapped;
      var slot := FindSlot(packed, id);
      if slot.None? {
        return;
      }
      var rec := RecordAt(img, l, slot.value);
      if !Readable(rec) {
        errors := errors + 1;
        return;
      }
      var ok: bool, capacity: nat;
      ok, capacity := ScanExtents(id, rec);
      if !ok {
        errors := errors + 1;
      }
      if capacity > 0xFFFF_FFFF_FFFF_FFFF / 4096 || U64(rec, SIZE) > capacity * 4096 {
        errors := errors + 1;
      }
    }

    /** The pass over record IDs. */
    method CheckRecords(packed: array<byte>)
      requires Slots(packed) && claims == {} && l.recordCount < 0x1_0000_0000_0000_0000
      modifies this
      ensures Slots(packed) && errors >= old(errors)
      ensures errors == 0 ==> IdsFine(img, l, l.recordCount) && claims == AllClaims(img, l, l.recordCount)
      ensures old(errors) == 0 && IdsFine(img, l, l.recordCount) && Unshared(AllClaims(img, l, l.recordCount)) ==>
              errors == 0
    {
      hide IdFine, IdClaims;
      for id: nat := 0 to l.recordCount
        invariant Slots(packed) && errors >= old(errors)
        invariant errors == 0 ==> IdsFine(img, l, id) && claims == AllClaims(img, l, id)
        invariant old(errors) == 0 && IdsFine(img, l, id) && Unshared(AllClaims(img, l, id)) ==> errors == 0
      {
        CheckRecord(packed, id + 1);
        IdsFineStep(img, l, id);
      }
    }

    /** Every owned block must be marked in the normalised bitmap. */
    method CheckMarked(bitmap: array<byte>)
      requires Valid() && Covers(l, bitmap.Length)
      modifies this`errors
      ensures Valid() && errors >= old(errors)
      ensures errors == 0 <==> old(errors) == 0 && OwnersMarked(l, owners, bitmap[..], l.dataStart + l.dataBlocks)
    {
      for n: nat := 0 to l.dataStart + l.dataBlocks
        invariant Valid() && errors >= old(errors)
        invariant errors == 0 <==> old(errors) == 0 && OwnersMarked(l, owners, bitmap[..], n)
      {
        InMap(l, bitmap.Length, n);
        var marked := Bit(bitmap[n / BITS_PER_BLOCK * 4096 + 24 + n % BITS_PER_BLOCK / 8], n % BITS_PER_BLOCK % 8);
        ModOfMod(n);
        var owned := false;
        for j := 0 to |owners|
          invariant owned <==> exists k :: 0 <= k < j && owners[k].block == n
        {
          if owners[j].block == n {
            owned := true;
            break;
          }
        }
        if owned && !marked {
          errors := errors + 1;
        }
      }
    }

    constructor (image: Image, layout: Layout)
      requires Geometry(layout, |image|)
      ensures img == image && l == layout && Valid() && errors == 0 && claims == {}
    {
      img, l, owners, errors, claims := image, layout, [], 0, {};
    }

    /** The ownership passes count no error exactly when the image is sound. */
    method Check(minor: u64)
      requires Valid() && errors == 0 && claims == {} && Covers(l, 4096 * l.allocBlocks)
      modifies this
      ensures errors == 0 <==> Sound(img, l, minor)
    {
      hide BitmapOk, SlotsFine, IdsFine, AllClaims, Unshared, SlotMapped, Normalized, Marked, OwnersMarked;
      var bitmap := LoadBitmap(l.allocStart, l.allocBlocks, 1);
      var packed := LoadBitmap(l.recordBitmapStart, l.recordBitmapBlocks, 2);
      FlattenBitmap(packed, l.recordBitmapBlocks);
      if errors == 0 {
        SlotsAfterLoad(img, l, packed[..]);
      }
      CheckLoaded(bitmap, packed, minor);
    }

    method CheckLoaded(bitmap: array<byte>, packed: array<byte>, minor: u64)
      requires Slots(packed) && bitmap != packed && claims == {} && Covers(l, bitmap.Length)
      requires errors == 0 ==> bitmap[..] == Blocks(img, l.allocStart, l.allocBlocks)
      modifies this, bitmap
      ensures errors == 0 <==>
                && old(errors) == 0 && SlotsFine(img, l, minor, l.recordCount) && IdsFine(img, l, l.recordCount)
                && Unshared(AllClaims(img, l, l.recordCount)) && Marked(img, l, AllClaims(img, l, l.recordCount))
    {
      hide SlotsFine, IdsFine, AllClaims, SlotMapped, Normalized, Marked, OwnersMarked;
      ghost var headed := bitmap[..];
      NormalizeBitmap(bitmap, l);
      ghost var moved := bitmap[..];
      ValidateSlots(packed, minor);
      CheckRecords(packed);
      if errors == 0 {
        AllClaimsInData(img, l, l.recordCount);
        MarkedAsOwned(img, l, owners, claims, headed, moved);
        EachOnce(owners);
      }
      CheckMarked(bitmap);
    }
  }

  // ----- the chain, one list block at a time -----

  /** `es` and `lists` have been read, and `rest` is what remains. */
  ghost function Behind(es: seq<Extent>, lists: seq<nat>, rest: Option<(seq<Extent>, seq<nat>)>): Option<(seq<Extent>,
      seq<nat>)> {
    if rest.None? then None else Some((es + rest.value.0, lists + rest.value.1))
  }

  lemma BehindStep(img: Image, l: Layout, list: nat, id: u64, flags: u64, total: nat, count: nat, next: nat,
                   es: seq<Extent>, lists: seq<nat>)
    requires Geometry(l, |img|) && count <= total && list != 0
    ensures Behind(es, lists, ChainExtents(img, l, list, id, flags, total, count, next))
            == if !ListBlockFits(img, l, list, id, flags, total, count, next) then None
               else
                 var run := ListEntries(img[list]);
                 Behind(es + run, lists + [list],
                        ChainExtents(img, l, U64(img[list], 16), id, flags, total, count + |run|, next + Covered(run)))
    ensures ListBlockFits(img, l, list, id, flags, total, count, next) ==> |ListEntries(img[list])| >= 1
  {
    hide Crc, Placed;
    if ListBlockFits(img, l, list, id, flags, total, count, next) {
      var run := ListEntries(img[list]);
      var rest := ChainExtents(img, l, U64(img[list], 16), id, flags, total, count + |run|, next + Covered(run));
      if rest.Some? {
        assert es + (run + rest.value.0) == es + run + rest.value.0;
        assert lists + ([list] + rest.value.1) == lists + [list] + rest.value.1;
      }
    }
  }

  lemma NoClaims(id: nat)
    ensures ClaimsOf(id, [], []) == {}
  {
  }

  lemma ClaimsStep(id: nat, es: seq<Extent>, lists: seq<nat>, run: seq<Extent>, list: nat)
    ensures ClaimsOf(id, es + run, lists + [list])
            == ClaimsOf(id, es, lists) + {Claim(list, id, ListBlock)} + DataClaims(id, run)
    ensures ClaimsOf(id, es, []) == DataClaims(id, es)
  {
    DataClaimsJoin(id, es, run);
    assert ListClaims(id, lists + [list]) == ListClaims(id, lists) + {Claim(list, id, ListBlock)};
  }

  lemma {:induction false} CoveredJoin(a: seq<Extent>, b: seq<Extent>)
    ensures Covered(a + b) == Covered(a) + Covered(b)
  {
    if a == [] {
      assert a + b == b;
    } else {
      assert (a + b)[1..] == a[1..] + b;
      CoveredJoin(a[1..], b);
    }
  }

  lemma BehindNothing(rest: Option<(seq<Extent>, seq<nat>)>)
    ensures Behind([], [], rest) == rest
  {
    if rest.Some? {
      assert [] + rest.value.0 == rest.value.0 && [] + rest.value.1 == rest.value.1;
    }
  }

  lemma BehindEnd(es: seq<Extent>, lists: seq<nat>)
    ensures Behind(es, lists, Some(([], []))) == Some((es, lists)) && Behind(es, lists, None) == None
  {
    assert es + [] == es && lists + [] == lists;
  }

  // ----- the bitmaps as loaded -----

  lemma EachOnce(owners: seq<Claim>)
    requires OneEach(owners)
    ensures Unshared(Entered(owners))
  {
  }

  lemma SlotsAfterLoad(img: Image, l: Layout, packed: seq<byte>)
    requires Geometry(l, |img|)
             && Packed(Blocks(img, l.recordBitmapStart, l.recordBitmapBlocks), packed, l.recordBitmapBlocks)
    ensures forall slot :: 0 <= slot < l.recordCount ==> SlotMapped(img, l, packed, slot)
  {
    forall slot | 0 <= slot < l.recordCount ensures SlotMapped(img, l, packed, slot) {
      PackedBits(Blocks(img, l.recordBitmapStart, l.recordBitmapBlocks), packed, l.recordBitmapBlocks, slot);
      BlocksBit(img, l.recordBitmapStart, l.recordBitmapBlocks, slot);
    }
  }

  /** Being marked in the normalised map is being allocated on disk. */
  lemma MarkedAsOwned(img: Image, l: Layout, owners: seq<Claim>, claims: set<Claim>, headed: seq<byte>,
                      moved: seq<byte>)
    requires Geometry(l, |img|) && Covers(l, |headed|) && |moved| == |headed| && claims == Entered(owners)
    requires headed == Blocks(img, l.allocStart, l.allocBlocks)
    requires forall p: nat :: p < l.dataStart + l.dataBlocks ==> Normalized(headed, moved, l, p)
    requires AllInData(l, claims)
    ensures OwnersMarked(l, owners, moved, l.dataStart + l.dataBlocks) <==> Marked(img, l, claims)
  {
    hide Normalized, HeadedBit, IsAllocated, Geometry, Covers, Blocks;
    forall p: nat | InData(l, p) ensures (InMap(l, |moved|, p); HeadedBit(moved, p)) == IsAllocated(img, l, p) {
      MarkAt(img, l, headed, moved, p);
    }
    forall i | 0 <= i < |owners| ensures owners[i] in claims {
    }
  }

  lemma MarkAt(img: Image, l: Layout, headed: seq<byte>, moved: seq<byte>, p: nat)
    requires Geometry(l, |img|) && Covers(l, |headed|) && |moved| == |headed| && InData(l, p)
    requires headed == Blocks(img, l.allocStart, l.allocBlocks) && Normalized(headed, moved, l, p)
    ensures (InMap(l, |moved|, p); HeadedBit(moved, p)) == IsAllocated(img, l, p)
  {
    hide Range;
    BlocksBit(img, l.allocStart, l.allocBlocks, p - l.dataStart);
  }

  lemma {:induction false} PlacedInData(l: Layout, es: seq<Extent>, next: nat, flags: u64, b: nat)
    requires Placed(l, es, next, flags) && b in DataBlocks(es)
    ensures InData(l, b)
  {
    if b !in Range(es[0].physical, es[0].count) {
      PlacedInData(l, es[1..], next + es[0].count, flags, b);
    }
  }

  ghost predicate AllInData(l: Layout, claims: set<Claim>) {
    forall c :: c in claims ==> InData(l, c.block)
  }

  lemma PlacedClaims(l: Layout, id: nat, es: seq<Extent>, next: nat, flags: u64)
    requires Placed(l, es, next, flags)
    ensures AllInData(l, DataClaims(id, es))
  {
    forall c | c in DataClaims(id, es) ensures InData(l, c.block) {
      PlacedInData(l, es, next, flags, c.block);
    }
  }

  lemma NoRun(id: nat)
    ensures DataClaims(id, []) == {} && Covered([]) == 0
  {
  }

  lemma {:induction false} ChainClaims(img: Image, l: Layout, list: nat, id: u64, flags: u64, total: nat, count: nat,
                                       next: nat)
    requires Geometry(l, |img|) && count <= total
    requires ChainExtents(img, l, list, id, flags, total, count, next).Some?
    ensures var r :=
            ChainExtents(img, l, list, id, flags, total, count, next).value; AllInData(l, ClaimsOf(id, r.0, r.1))
    decreases total - count
  {
    hide Crc, Placed, DataClaims, ListClaims, Covered, Checked, DataBlocks, ExtentAt;
    if list == 0 {
      NoClaims(id);
    } else {
      var run := ListEntries(img[list]);
      ChainClaims(img, l, U64(img[list], 16), id, flags, total, count + |run|, next + Covered(run));
      PlacedClaims(l, id, run, next, flags);
      var rest := ChainExtents(img, l, U64(img[list], 16), id, flags, total, count + |run|, next + Covered(run)).value;
      ClaimsBefore(id, run, list, rest.0, rest.1);
    }
  }

  lemma ClaimsBefore(id: nat, run: seq<Extent>, list: nat, es: seq<Extent>, lists: seq<nat>)
    ensures ClaimsOf(id, run + es, [list] + lists)
            == DataClaims(id, run) + {Claim(list, id, ListBlock)} + ClaimsOf(id, es, lists)
  {
    DataClaimsJoin(id, run, es);
    assert ListClaims(id, [list] + lists) == {Claim(list, id, ListBlock)} + ListClaims(id, lists);
  }

  lemma RecordClaimsInData(img: Image, l: Layout, rec: seq<byte>, id: u64)
    requires Geometry(l, |img|) && |rec| == RECORD_BYTES && RecordFine(img, l, rec, id)
    ensures AllInData(l, RecordClaims(img, l, rec, id))
  {
    hide Crc, Placed, DataClaims, ListClaims, ChainExtents, U64, Readable;
    if !Inline(rec) {
      var inl := InlineExtents(rec);
      ChainClaims(img, l, U64(rec, LIST_HEAD), id, ExtentKind(rec), U64(rec, EXTENT_COUNT), U64(rec, INLINE_COUNT),
                  Covered(inl));
      PlacedClaims(l, id, inl, 0, ExtentKind(rec));
      DataClaimsJoin(id, inl,
                     ChainExtents(img, l, U64(rec, LIST_HEAD), id, ExtentKind(rec), U64(rec, EXTENT_COUNT),
                                  U64(rec, INLINE_COUNT), Covered(inl)).value.0);
    }
  }

  lemma {:induction false} AllClaimsInData(img: Image, l: Layout, n: u64)
    requires Geometry(l, |img|)
    ensures AllInData(l, AllClaims(img, l, n))
  {
    hide RecordFine, RecordClaims, SlotOf, RecordAt;
    if n > 0 {
      AllClaimsInData(img, l, n - 1);
      if SlotOf(img, l, n, 0).Some? && IdFine(img, l, n) {
        RecordClaimsInData(img, l, RecordAt(img, l, SlotOf(img, l, n, 0).value), n);
      }
    }
  }

  lemma RangeGrows(first: nat, n: nat)
    ensures Range(first, n + 1) == Range(first, n) + [first + n]
  {
  }

  lemma OneExtent(e: Extent)
    ensures DataBlocks([e]) == Range(e.physical, e.count)
  {
    assert [e][1..] == [];
  }

  lemma RunStep(l: Layout, id: nat, es: seq<Extent>, i: nat, next: nat, at: nat, flags: u64)
    requires i < |es| && at == next + Covered(es[..i])
    ensures DataClaims(id, es[..i + 1]) == DataClaims(id, es[..i]) + DataClaims(id, [es[i]])
    ensures Covered(es[..i + 1]) == Covered(es[..i]) + es[i].count
    ensures Placed(l, es[i..], at, flags) <==>
            ExtentOk(l, es[i], at, flags) && Placed(l, es[i + 1..], at + es[i].count, flags)
  {
    assert es[..i + 1] == es[..i] + [es[i]];
    DataClaimsJoin(id, es[..i], [es[i]]);
    DataBlocksAppend(es[..i], es[i]);
    assert es[i..][1..] == es[i + 1..];
  }

  // ----- soundness slot by slot -----

  lemma {:induction false} SlotFound(img: Image, l: Layout, id: u64, slot: nat, from: nat)
    requires Geometry(l, |img|) && from <= slot < l.recordCount
    requires RecordBit(img, l, slot) && U64(RecordAt(img, l, slot), ID) == id
    requires forall t :: from <= t < slot ==> !(RecordBit(img, l, t) && U64(RecordAt(img, l, t), ID) == id)
    ensures SlotOf(img, l, id, from) == Some(slot)
    decreases slot - from
  {
    hide RecordBit, RecordAt, U64, Geometry;
    if from < slot {
      SlotFound(img, l, id, slot, from + 1);
    }
  }

  lemma {:induction false} SlotIs(img: Image, l: Layout, id: u64, from: nat)
    requires Geometry(l, |img|) && from <= l.recordCount && SlotOf(img, l, id, from).Some?
    ensures var slot := SlotOf(img, l, id, from).value;
            && from <= slot && RecordBit(img, l, slot) && U64(RecordAt(img, l, slot), ID) == id
            && forall t :: from <= t < slot ==> !(RecordBit(img, l, t) && U64(RecordAt(img, l, t), ID) == id)
    decreases l.recordCount - from
  {
    hide RecordBit, RecordAt, U64, Geometry;
    if !(RecordBit(img, l, from) && U64(RecordAt(img, l, from), ID) == id) {
      SlotIs(img, l, id, from + 1);
    }
  }

  /** Allocated slots carry different IDs. */
  ghost predicate IdsApart(img: Image, l: Layout)
    requires Geometry(l, |img|)
  {
    forall s, t :: 0 <= s < t < l.recordCount && RecordBit(img, l, s) && RecordBit(img, l, t) ==>
      U64(RecordAt(img, l, s), ID) != U64(RecordAt(img, l, t), ID)
  }

  ghost predicate SlotRecordFine(img: Image, l: Layout, slot: nat)
    requires Geometry(l, |img|) && slot < l.recordCount
  {
    RecordFine(img, l, RecordAt(img, l, slot), U64(RecordAt(img, l, slot), ID))
  }

  /** The record in an allocated slot claims a block. */
  ghost predicate SlotClaims(img: Image, l: Layout, slot: nat, c: Claim)
    requires Geometry(l, |img|)
  {
    && slot < l.recordCount && RecordBit(img, l, slot) && SlotRecordFine(img, l, slot)
    && c in RecordClaims(img, l, RecordAt(img, l, slot), U64(RecordAt(img, l, slot), ID))
  }

  /** Every allocated slot holds a record in order; each block is claimed by one slot, in one
      way, and marked. */
  ghost predicate SlotsSound(img: Image, l: Layout, minor: u64)
    requires Geometry(l, |img|)
  {
    && BitmapOk(img, l.allocStart, l.allocBlocks, 1) && BitmapOk(img, l.recordBitmapStart, l.recordBitmapBlocks, 2)
    && SlotsFine(img, l, minor, l.recordCount) && SlotRecordsFine(img, l)
    && SlotsUnshared(img, l) && SlotsMarked(img, l)
  }

  ghost predicate SlotRecordsFine(img: Image, l: Layout)
    requires Geometry(l, |img|)
  {
    forall s :: 0 <= s < l.recordCount && RecordBit(img, l, s) ==> SlotRecordFine(img, l, s)
  }

  ghost predicate SlotsUnshared(img: Image, l: Layout)
    requires Geometry(l, |img|)
  {
    forall s: nat, t: nat, a, b :: SlotClaims(img, l, s, a) && SlotClaims(img, l, t, b) && a.block == b.block ==>
      s == t && a == b
  }

  ghost predicate SlotsMarked(img: Image, l: Layout)
    requires Geometry(l, |img|)
  {
    forall s: nat, c :: SlotClaims(img, l, s, c) ==> InData(l, c.block) && IsAllocated(img, l, c.block)
  }

  /** An allocated slot is the one its ID names. */
  lemma SlotNamed(img: Image, l: Layout, minor: u64, s: nat)
    requires Geometry(l, |img|) && SlotsFine(img, l, minor, l.recordCount) && IdsApart(img, l)
    requires s < l.recordCount && RecordBit(img, l, s)
    ensures var id := U64(RecordAt(img, l, s), ID); 1 <= id <= l.recordCount && SlotOf(img, l, id, 0) == Some(s)
  {
    hide RecordBit, RecordAt, U64, Checked;
    SlotFound(img, l, U64(RecordAt(img, l, s), ID), s, 0);
  }

  lemma {:induction false} ClaimedById(img: Image, l: Layout, n: u64, c: Claim)
    requires Geometry(l, |img|)
    ensures c in AllClaims(img, l, n) <==> exists id: u64 :: 1 <= id <= n && c in IdClaims(img, l, id)
  {
    hide IdClaims;
    if n > 0 {
      ClaimedById(img, l, n - 1, c);
    }
  }

  lemma FineById(img: Image, l: Layout, minor: u64)
    requires Geometry(l, |img|) && SlotsFine(img, l, minor, l.recordCount) && IdsApart(img, l)
    ensures IdsFine(img, l, l.recordCount) <==> SlotRecordsFine(img, l)
  {
    hide RecordBit, RecordAt, U64, RecordFine, SlotOf, SlotsFine, IdsApart;
    if IdsFine(img, l, l.recordCount) {
      forall s | 0 <= s < l.recordCount && RecordBit(img, l, s) ensures SlotRecordFine(img, l, s) {
        SlotNamed(img, l, minor, s);
        assert IdFine(img, l, U64(RecordAt(img, l, s), ID));
      }
    }
    if SlotRecordsFine(img, l) {
      forall id: u64 | 1 <= id <= l.recordCount && SlotOf(img, l, id, 0).Some? ensures IdFine(img, l, id) {
        SlotIs(img, l, id, 0);
        assert SlotRecordFine(img, l, SlotOf(img, l, id, 0).value);
      }
    }
  }

  /** The claims by ID are the claims by slot. */
  lemma ClaimedBySlot(img: Image, l: Layout, minor: u64, c: Claim)
    requires Geometry(l, |img|) && SlotsFine(img, l, minor, l.recordCount) && IdsApart(img, l)
    requires IdsFine(img, l, l.recordCount)
    ensures c in AllClaims(img, l, l.recordCount) <==> exists s: nat :: SlotClaims(img, l, s, c)
  {
    hide RecordBit, RecordAt, U64, RecordFine, RecordClaims, SlotOf, SlotsFine, IdsApart, AllClaims;
    ClaimedById(img, l, l.recordCount, c);
    if c in AllClaims(img, l, l.recordCount) {
      var id: u64 :| 1 <= id <= l.recordCount && c in IdClaims(img, l, id);
      SlotIs(img, l, id, 0);
      assert SlotClaims(img, l, SlotOf(img, l, id, 0).value, c);
    }
    if s: nat :| SlotClaims(img, l, s, c) {
      SlotNamed(img, l, minor, s);
      assert c in IdClaims(img, l, U64(RecordAt(img, l, s), ID));
    }
  }

  lemma ClaimNames(img: Image, l: Layout, s: nat, c: Claim)
    requires Geometry(l, |img|) && SlotClaims(img, l, s, c)
    ensures c.record == U64(RecordAt(img, l, s), ID)
  {
    hide RecordBit, RecordAt, U64, RecordFine, CheckedExtents;
  }

  lemma OneSlot(img: Image, l: Layout, s: nat, t: nat, c: Claim)
    requires Geometry(l, |img|) && IdsApart(img, l) && SlotClaims(img, l, s, c) && SlotClaims(img, l, t, c)
    ensures s == t
  {
    hide RecordBit, RecordAt, U64, RecordFine, RecordClaims;
    ClaimNames(img, l, s, c);
    ClaimNames(img, l, t, c);
  }

  /** Where allocated slots carry different IDs, what the checker certifies ID by ID holds
      slot by slot, and nothing less does. */
  lemma SoundBySlots(img: Image, l: Layout, minor: u64)
    requires Geometry(l, |img|) && IdsApart(img, l)
    ensures Sound(img, l, minor) <==> SlotsSound(img, l, minor)
  {
    hide BitmapOk, SlotsFine, IdsFine, SlotRecordsFine, SlotsUnshared, SlotsMarked, Unshared, Marked, AllClaims,
      IdsApart;
    if SlotsFine(img, l, minor, l.recordCount) {
      FineById(img, l, minor);
      if IdsFine(img, l, l.recordCount) {
        UnsharedBySlots(img, l, minor);
        MarkedBySlots(img, l, minor);
      }
    }
  }

  lemma UnsharedBySlots(img: Image, l: Layout, minor: u64)
    requires Geometry(l, |img|) && SlotsFine(img, l, minor, l.recordCount) && IdsApart(img, l)
    requires IdsFine(img, l, l.recordCount)
    ensures Unshared(AllClaims(img, l, l.recordCount)) <==> SlotsUnshared(img, l)
  {
    hide SlotClaims, AllClaims, SlotsFine, IdsApart, IdsFine;
    var claims := AllClaims(img, l, l.recordCount);
    forall c ensures c in claims <==> exists s: nat :: SlotClaims(img, l, s, c) {
      ClaimedBySlot(img, l, minor, c);
    }
    if Unshared(claims) {
      forall s: nat, t: nat, a, b | SlotClaims(img, l, s, a) && SlotClaims(img, l, t, b) && a.block == b.block
        ensures s == t && a == b {
        assert a in claims && b in claims;
        OneSlot(img, l, s, t, a);
      }
    }
    if SlotsUnshared(img, l) {
      forall a, b | a in claims && b in claims && a.block == b.block ensures a == b {
        var s: nat :| SlotClaims(img, l, s, a);
        var t: nat :| SlotClaims(img, l, t, b);
      }
    }
  }

  lemma MarkedBySlots(img: Image, l: Layout, minor: u64)
    requires Geometry(l, |img|) && SlotsFine(img, l, minor, l.recordCount) && IdsApart(img, l)
    requires IdsFine(img, l, l.recordCount)
    ensures Marked(img, l, AllClaims(img, l, l.recordCount)) <==> SlotsMarked(img, l)
  {
    hide SlotClaims, AllClaims, SlotsFine, IdsApart, IdsFine, IsAllocated;
    var claims := AllClaims(img, l, l.recordCount);
    forall c ensures c in claims <==> exists s: nat :: SlotClaims(img, l, s, c) {
      ClaimedBySlot(img, l, minor, c);
    }
  }
}
