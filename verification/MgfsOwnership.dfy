/** Who owns which block: the consistency the updater relies on, and the
    argument that rewriting one record keeps it for the whole image. */
module MgfsOwnership {
  import opened MgfsBytes
  import opened MgfsImage

  ghost predicate NoDup<T>(s: seq<T>) {
    forall i, j :: 0 <= i < j < |s| ==> s[i] != s[j]
  }

  ghost predicate Disjoint(a: seq<nat>, b: seq<nat>) {
    forall p :: p in a ==> p !in b
  }

  /** The extents of the record parse, and it owns distinct blocks of the data area. */
  ghost predicate OwnsCleanly(img: Image, l: Layout, rec: seq<byte>)
    requires |rec| == RECORD_BYTES
  {
    && RecordExtents(img, rec).Ok?
    && NoDup(Footprint(img, rec))
    && forall p :: p in Footprint(img, rec) ==> InData(l, p)
  }

  ghost predicate Owns(img: Image, l: Layout, slot: nat, p: nat)
    requires Geometry(l, |img|)
  {
    slot < l.recordCount && p in Footprint(img, RecordAt(img, l, slot))
  }

  /** Each allocated data block has exactly one owner, and nothing else is allocated. */
  ghost predicate Consistent(img: Image, l: Layout) {
    && Geometry(l, |img|)
    && (forall s :: 0 <= s < l.recordCount ==> OwnsCleanly(img, l, RecordAt(img, l, s)))
    && (forall s, t :: 0 <= s < t < l.recordCount ==>
          Disjoint(Footprint(img, RecordAt(img, l, s)), Footprint(img, RecordAt(img, l, t))))
    && (forall p :: InData(l, p) ==> (IsAllocated(img, l, p) <==> exists s :: Owns(img, l, s, p)))
  }

  /** A chain depends only on the list blocks it visits. */
  lemma {:induction false} ChainFrame(img: Image, img': Image, list: nat, seen: set<nat>)
    requires |img| == |img'| && Chain(img, list, seen).Ok?
    requires forall b :: b in Chain(img, list, seen).value.1 ==> b < |img| && img[b] == img'[b]
    ensures Chain(img', list, seen) == Chain(img, list, seen)
    decreases UpTo(|img|) - seen
  {
    if list != 0 {
      var rest := Chain(img, U64(img[list], 16), seen + {list});
      assert list in [list] + rest.value.1;
      assert forall b :: b in rest.value.1 ==> b in [list] + rest.value.1;
      ChainFrame(img, img', U64(img[list], 16), seen + {list});
    }
  }

  lemma {:induction false} BlockBytesFrame(img: Image, img': Image, bs: seq<nat>)
    requires |img| == |img'| && forall b :: b in bs && b < |img| ==> img[b] == img'[b]
    ensures BlockBytes(img', bs) == BlockBytes(img, bs)
  {
    if bs != [] {
      BlockBytesFrame(img, img', bs[1..]);
    }
  }

  /** A record whose blocks are untouched reads back unchanged. */
  lemma RecordFrame(img: Image, img': Image, rec: seq<byte>)
    requires |rec| == RECORD_BYTES && |img| == |img'| && RecordExtents(img, rec).Ok?
    requires forall b :: b in Footprint(img, rec) ==> b < |img| && img[b] == img'[b]
    ensures RecordExtents(img', rec) == RecordExtents(img, rec)
    ensures Footprint(img', rec) == Footprint(img, rec)
    ensures Payload(img', rec) == Payload(img, rec)
  {
    var ext := RecordExtents(img, rec).value;
    assert forall b :: b in ext.1 ==> b in Footprint(img, rec);
    assert forall b :: b in DataBlocks(ext.0) ==> b in Footprint(img, rec);
    ChainFrame(img, img', U64(rec, LIST_HEAD), {});
    BlockBytesFrame(img, img', DataBlocks(ext.0));
  }

  /** Rewriting the record in `slot` so that it owns `now`, where every block of
      `now` was its own before or was free, touching only blocks of `now`, and
      leaving allocated exactly `now` and what the other records own. */
  ghost predicate Rewrites(img: Image, img': Image, l: Layout, slot: nat, now: seq<nat>) {
    && Consistent(img, l) && |img'| == |img| && slot < l.recordCount
    && (forall i :: l.dataStart <= i < |img| && i !in now ==> img'[i] == img[i])
    && (forall t :: 0 <= t < l.recordCount && t != slot ==> RecordAt(img', l, t) == RecordAt(img, l, t))
    && OwnsCleanly(img', l, RecordAt(img', l, slot))
    && Footprint(img', RecordAt(img', l, slot)) == now
    && (forall p :: p in now && InData(l, p) ==> Owns(img, l, slot, p) || !IsAllocated(img, l, p))
    && (forall p :: InData(l, p) ==>
          (IsAllocated(img', l, p) <==> p in now || (IsAllocated(img, l, p) && !Owns(img, l, slot, p))))
  }

  lemma OthersAvoid(img: Image, img': Image, l: Layout, slot: nat, now: seq<nat>, t: nat)
    requires Rewrites(img, img', l, slot, now) && t < l.recordCount && t != slot
    ensures Disjoint(Footprint(img, RecordAt(img, l, t)), now)
  {
    forall p | p in Footprint(img, RecordAt(img, l, t))
      ensures p !in now
    {
      assert OwnsCleanly(img, l, RecordAt(img, l, t));
      assert InData(l, p) && Owns(img, l, t, p);
      assert IsAllocated(img, l, p);
      assert !Owns(img, l, slot, p);
    }
  }

  lemma OthersKept(img: Image, img': Image, l: Layout, slot: nat, now: seq<nat>, t: nat)
    requires Rewrites(img, img', l, slot, now) && t < l.recordCount && t != slot
    ensures RecordExtents(img', RecordAt(img', l, t)) == RecordExtents(img, RecordAt(img, l, t))
    ensures Footprint(img', RecordAt(img', l, t)) == Footprint(img, RecordAt(img, l, t))
    ensures Payload(img', RecordAt(img', l, t)) == Payload(img, RecordAt(img, l, t))
    ensures OwnsCleanly(img', l, RecordAt(img', l, t))
    ensures Disjoint(Footprint(img', RecordAt(img', l, t)), now)
  {
    OthersAvoid(img, img', l, slot, now, t);
    assert OwnsCleanly(img, l, RecordAt(img, l, t));
    RecordFrame(img, img', RecordAt(img, l, t));
  }

  lemma RewriteAllocation(img: Image, img': Image, l: Layout, slot: nat, now: seq<nat>, p: nat)
    requires Rewrites(img, img', l, slot, now) && InData(l, p)
    ensures IsAllocated(img', l, p) <==> exists s :: Owns(img', l, s, p)
  {
    hide IsAllocated, RecordExtents, Footprint, OwnsCleanly, NoDup, RecordAt;
    if p in now {
      assert Owns(img', l, slot, p);
    } else if IsAllocated(img, l, p) && !Owns(img, l, slot, p) {
      var s :| Owns(img, l, s, p);
      OthersKept(img, img', l, slot, now, s);
      assert Owns(img', l, s, p);
    } else if exists s :: Owns(img', l, s, p) {
      var s :| Owns(img', l, s, p);
      OthersKept(img, img', l, slot, now, s);
      assert Owns(img, l, s, p);
    }
  }

  /** Rewriting one record keeps the whole image consistent: allocated blocks
      again equal owned blocks, and every other record reads back unchanged. */
  lemma RewriteKeepsImage(img: Image, img': Image, l: Layout, slot: nat, now: seq<nat>)
    requires Rewrites(img, img', l, slot, now)
    ensures Consistent(img', l)
    ensures forall t :: 0 <= t < l.recordCount && t != slot ==>
              Payload(img', RecordAt(img', l, t)) == Payload(img, RecordAt(img, l, t))
  {
    forall t | 0 <= t < l.recordCount && t != slot
      ensures Payload(img', RecordAt(img', l, t)) == Payload(img, RecordAt(img, l, t))
      ensures OwnsCleanly(img', l, RecordAt(img', l, t))
    {
      OthersKept(img, img', l, slot, now, t);
    }
    forall s, t | 0 <= s < t < l.recordCount
      ensures Disjoint(Footprint(img', RecordAt(img', l, s)), Footprint(img', RecordAt(img', l, t)))
    {
      if s != slot { OthersKept(img, img', l, slot, now, s); }
      if t != slot { OthersKept(img, img', l, slot, now, t); }
    }
    forall p | InData(l, p)
      ensures IsAllocated(img', l, p) <==> exists s :: Owns(img', l, s, p)
    {
      RewriteAllocation(img, img', l, slot, now, p);
    }
  }
}
