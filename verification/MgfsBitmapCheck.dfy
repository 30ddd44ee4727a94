/** The checker's view of the bitmaps: each on-disk block carries a 24-byte
    header, so the bits are first packed into one stream and the allocation bits
    then moved to their physical block numbers. */
module MgfsBitmapCheck {
  import opened MgfsBytes
  import opened MgfsImage

  const PAYLOAD := 4072

  /** Bit n of a map made of headed blocks. */
  predicate HeadedBit(s: seq<byte>, n: nat)
    requires (n / BITS_PER_BLOCK + 1) * 4096 <= |s|
  {
    Bit(s[n / BITS_PER_BLOCK * 4096 + 24 + n % BITS_PER_BLOCK / 8], n % 8)
  }

  /** Bit n of a packed stream behind one header. */
  predicate PackedBit(s: seq<byte>, n: nat)
    requires 24 + n / 8 < |s|
  {
    Bit(s[24 + n / 8], n % 8)
  }

  /** Where byte k of block i's payload lies in either form. */
  function HeadedAt(i: nat, k: nat): nat {
    4096 * i + 24 + k
  }

  function PackedAt(i: nat, k: nat): nat {
    24 + PAYLOAD * i + k
  }

  /** Byte k of every block's payload has moved to its place in the packed stream. */
  ghost predicate Packed(headed: seq<byte>, packed: seq<byte>, blocks: nat) {
    && |headed| == |packed| == 4096 * blocks
    && forall i: nat, k: nat :: i < blocks && k < PAYLOAD ==> packed[PackedAt(i, k)] == headed[HeadedAt(i, k)]
  }

  lemma PackedPosition(n: nat, blocks: nat)
    requires n < BITS_PER_BLOCK * blocks
    ensures n / BITS_PER_BLOCK < blocks && 0 <= n % BITS_PER_BLOCK / 8 < PAYLOAD
    ensures n / 8 == PAYLOAD * (n / BITS_PER_BLOCK) + n % BITS_PER_BLOCK / 8
  {
    var q, r := n / BITS_PER_BLOCK, n % BITS_PER_BLOCK;
    assert n == 8 * (PAYLOAD * q) + r;
  }

  /** Packing keeps the number of every bit. */
  lemma PackedBits(headed: seq<byte>, packed: seq<byte>, blocks: nat, n: nat)
    requires Packed(headed, packed, blocks) && n < BITS_PER_BLOCK * blocks
    ensures n / BITS_PER_BLOCK < blocks && 24 + n / 8 < |packed|
    ensures PackedBit(packed, n) == HeadedBit(headed, n)
  {
    PackedPosition(n, blocks);
    var i, k := n / BITS_PER_BLOCK, n % BITS_PER_BLOCK / 8;
    assert packed[PackedAt(i, k)] == headed[HeadedAt(i, k)];
  }

  method CopyPayload(flat: array<byte>, to: nat, bitmap: array<byte>, from: nat)
    requires to + PAYLOAD <= flat.Length && from + PAYLOAD <= bitmap.Length && flat != bitmap
    modifies flat
    ensures forall i :: 0 <= i < flat.Length ==> flat[i] == if to <= i < to + PAYLOAD then bitmap[from + (i - to)]
            else old(flat[i])
  {
    for k := 0 to PAYLOAD
      invariant forall i :: 0 <= i < flat.Length ==> flat[i] == if to <= i < to + k then bitmap[from + (i - to)]
                else old(flat[i])
    {
      flat[to + k] := bitmap[from + k];
    }
  }

  /** Pack a bitmap in place, through a fresh buffer. */
  method FlattenBitmap(bitmap: array<byte>, blocks: nat)
    requires bitmap.Length == 4096 * blocks
    modifies bitmap
    ensures Packed(old(bitmap[..]), bitmap[..], blocks)
  {
    var flat := new byte[4096 * blocks](_ => 0);
    for index := 0 to blocks
      invariant bitmap[..] == old(bitmap[..])
      invariant forall i: nat, k: nat :: i < index && k < PAYLOAD ==> flat[PackedAt(i, k)] == bitmap[HeadedAt(i, k)]
    {
      CopyPayload(flat, PackedAt(index, 0), bitmap, HeadedAt(index, 0));
    }
    ghost var headed := bitmap[..];
    for i := 0 to bitmap.Length
      invariant forall j :: 0 <= j < i ==> bitmap[j] == flat[j]
      invariant forall i: nat, k: nat :: i < blocks && k < PAYLOAD ==> flat[PackedAt(i, k)] == headed[HeadedAt(i, k)]
    {
      bitmap[i] := flat[i];
    }
  }

  // ----- moving the data-relative bits to physical block numbers -----

  lemma HeadedSet(s: seq<byte>, n: nat, other: nat)
    requires (n / BITS_PER_BLOCK + 1) * 4096 <= |s| && (other / BITS_PER_BLOCK + 1) * 4096 <= |s|
    ensures var at := n / BITS_PER_BLOCK * 4096 + 24 + n % BITS_PER_BLOCK / 8;
            HeadedBit(s[at := WithBit(s[at], n % BITS_PER_BLOCK % 8, true)], other)
              == (other == n || HeadedBit(s, other))
  {
    var at := n / BITS_PER_BLOCK * 4096 + 24 + n % BITS_PER_BLOCK / 8;
    var at' := other / BITS_PER_BLOCK * 4096 + 24 + other % BITS_PER_BLOCK / 8;
    ModOfMod(n);
    if at == at' {
      assert n / BITS_PER_BLOCK == other / BITS_PER_BLOCK;
      BitOfPutBit(s[at], n % 8, true, other % 8);
      if n % 8 == other % 8 {
        BitPosition(n, other);
      }
    }
  }

  /** The map covers every block of the image, and the stream every data block. */
  ghost predicate Covers(l: Layout, size: nat) {
    && size == 4096 * l.allocBlocks && l.allocBlocks >= 1
    && l.dataStart + l.dataBlocks <= BITS_PER_BLOCK * l.allocBlocks
  }

  lemma InMap(l: Layout, size: nat, p: nat)
    requires Covers(l, size) && p < l.dataStart + l.dataBlocks
    ensures (p / BITS_PER_BLOCK + 1) * 4096 <= size
    ensures 24 + p / 8 < size
  {
    PackedPosition(p, l.allocBlocks);
  }

  /** The allocation bits before data block n, each at its physical number. */
  ghost predicate Moved(moved: seq<byte>, raw: seq<byte>, l: Layout, n: nat)
    requires Covers(l, |moved|) && |raw| == |moved|
  {
    forall p: nat :: p < l.dataStart + l.dataBlocks ==> MovedBit(moved, raw, l, n, p)
  }

  ghost predicate MovedBit(moved: seq<byte>, raw: seq<byte>, l: Layout, n: nat, p: nat)
    requires Covers(l, |moved|) && |raw| == |moved| && p < l.dataStart + l.dataBlocks
  {
    InMap(l, |moved|, p);
    HeadedBit(moved, p) <==>
        l.dataStart <= p < l.dataStart + n && (InMap(l, |moved|, p - l.dataStart); PackedBit(raw, p - l.dataStart))
  }

  lemma MoveStep(moved: seq<byte>, raw: seq<byte>, l: Layout, n: nat, moved': seq<byte>)
    requires Covers(l, |moved|) && |raw| == |moved| == |moved'| && n < l.dataBlocks && Moved(moved, raw, l, n)
    requires 24 + n / 8 < |raw|
    requires var p := l.dataStart + n;
             var at := p / BITS_PER_BLOCK * 4096 + 24 + p % BITS_PER_BLOCK / 8;
             if PackedBit(raw, n) then at < |moved|
               && moved' == moved[at := WithBit(moved[at], p % BITS_PER_BLOCK % 8, true)]
             else moved' == moved
    ensures Moved(moved', raw, l, n + 1)
  {
    InMap(l, |moved|, l.dataStart + n);
    var m := n + 1;
    forall p: nat | p < l.dataStart + l.dataBlocks ensures MovedBit(moved', raw, l, m, p) {
      assert MovedBit(moved, raw, l, n, p);
      InMap(l, |moved|, p);
      if PackedBit(raw, n) {
        HeadedSet(moved, l.dataStart + n, p);
      }
    }
  }

  lemma {:induction false} NoBits(k: nat)
    ensures !Bit(0, k)
  {
    if k > 0 {
      NoBits(k - 1);
    }
  }

  /** The checker's normalisation, in place: bit n of the on-disk, data-relative
      map ends up at exactly physical block dataStart + n. */
  method NormalizeBitmap(bitmap: array<byte>, l: Layout)
    requires Covers(l, bitmap.Length)
    modifies bitmap
    ensures forall p: nat :: p < l.dataStart + l.dataBlocks ==> Normalized(old(bitmap[..]), bitmap[..], l, p)
  {
    FlattenBitmap(bitmap, l.allocBlocks);
    ghost var headed := old(bitmap[..]);
    var raw := new byte[bitmap.Length];
    for i := 0 to bitmap.Length
      invariant forall j :: 0 <= j < i ==> raw[j] == bitmap[j]
      invariant Packed(headed, bitmap[..], l.allocBlocks)
    {
      raw[i] := bitmap[i];
    }
    assert raw[..] == bitmap[..];
    for i := 0 to bitmap.Length
      invariant forall j :: 0 <= j < i ==> bitmap[j] == 0
      invariant Packed(headed, raw[..], l.allocBlocks)
    {
      bitmap[i] := 0;
    }
    NothingMoved(bitmap[..], raw[..], l);
    MoveBits(bitmap, raw, l);
    forall p: nat | p < l.dataStart + l.dataBlocks ensures Normalized(headed, bitmap[..], l, p) {
      NormalizedBit(headed, raw[..], bitmap[..], l, p);
    }
  }

  lemma NothingMoved(moved: seq<byte>, raw: seq<byte>, l: Layout)
    requires Covers(l, |moved|) && |raw| == |moved| && forall j :: 0 <= j < |moved| ==> moved[j] == 0
    ensures Moved(moved, raw, l, 0)
  {
    forall p: nat | p < l.dataStart + l.dataBlocks ensures MovedBit(moved, raw, l, 0, p) {
      InMap(l, |moved|, p);
      NoBits(p % 8);
    }
  }

  method MoveBits(bitmap: array<byte>, raw: array<byte>, l: Layout)
    requires bitmap != raw && bitmap.Length == raw.Length && Covers(l, bitmap.Length)
             && Moved(bitmap[..], raw[..], l, 0)
    modifies bitmap
    ensures Moved(bitmap[..], raw[..], l, l.dataBlocks)
  {
    hide Moved, Bit, WithBit;
    for n := 0 to l.dataBlocks
      invariant Moved(bitmap[..], raw[..], l, n)
    {
      InMap(l, bitmap.Length, n);
      InMap(l, bitmap.Length, l.dataStart + n);
      ghost var before := bitmap[..];
      if Bit(raw[24 + n / 8], n % 8) {
        var p := l.dataStart + n;
        var bi, bb := p / BITS_PER_BLOCK, p % BITS_PER_BLOCK;
        var at := bi * 4096 + 24 + bb / 8;
        bitmap[at] := WithBit(bitmap[at], bb % 8, true);
        assert bitmap[..] == before[at := WithBit(before[at], bb % 8, true)];
      }
      MoveStep(before, raw[..], l, n, bitmap[..]);
    }
  }

  /** Physical block p is marked exactly when it is a data block whose on-disk bit is set. */
  ghost predicate Normalized(headed: seq<byte>, bitmap: seq<byte>, l: Layout, p: nat)
    requires Covers(l, |headed|) && |bitmap| == |headed| && p < l.dataStart + l.dataBlocks
  {
    InMap(l, |headed|, p);
    HeadedBit(bitmap, p) <==>
        p >= l.dataStart && (InMap(l, |headed|, p - l.dataStart); HeadedBit(headed, p - l.dataStart))
  }

  lemma NormalizedBit(headed: seq<byte>, raw: seq<byte>, bitmap: seq<byte>, l: Layout, p: nat)
    requires Covers(l, |headed|) && |bitmap| == |headed| && p < l.dataStart + l.dataBlocks
    requires Packed(headed, raw, l.allocBlocks) && Moved(bitmap, raw, l, l.dataBlocks)
    ensures Normalized(headed, bitmap, l, p)
  {
    assert MovedBit(bitmap, raw, l, l.dataBlocks, p);
    if p >= l.dataStart {
      PackedBits(headed, raw, l.allocBlocks, p - l.dataStart);
    }
  }
}
