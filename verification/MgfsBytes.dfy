/** The byte-level vocabulary every MGFS structure is written in: little-endian
    64-bit words, packed word sequences, and the CRC-64/ECMA-182 checksum that
    treats its own field as zero. */
module MgfsBytes {

  type byte = x: int | 0 <= x < 256
  type u64 = x: int | 0 <= x < 0x1_0000_0000_0000_0000

  const BLOCK_BYTES := 4096
  const RECORD_BYTES := 192

  // ----- little-endian integers -----

  /** The number of bytes in a word and of bits in a byte, as a value that is
      not a literal: recursion over it is unfolded one step at a time. */
  function Eight<T>(of: T): (n: nat)
    ensures n == 8
  {
    8
  }

  function Put(v: nat, n: nat): (s: seq<byte>)
    ensures |s| == n
  {
    if n == 0 then [] else [v % 256] + Put(v / 256, n - 1)
  }

  function Get(s: seq<byte>): nat {
    if s == [] then 0 else s[0] + 256 * Get(s[1..])
  }

  function Pow256(n: nat): (p: nat)
    ensures p >= 1
  {
    if n == 0 then 1 else 256 * Pow256(n - 1)
  }

  lemma Pow256Of8(n: nat)
    requires n == 8
    ensures Pow256(n) == 0x1_0000_0000_0000_0000
  {
    assert Pow256(n - 6) == 65536;
    assert Pow256(n - 4) == 0x1_0000_0000;
    assert Pow256(n - 2) == 0x1_0000_0000_0000;
  }

  /** A value that fits is read back from what was written. */
  lemma {:induction false} GetPut(v: nat, n: nat)
    requires v < Pow256(n)
    ensures Get(Put(v, n)) == v
  {
    if n > 0 {
      GetPut(v / 256, n - 1);
      assert Put(v, n)[1..] == Put(v / 256, n - 1);
    }
  }

  lemma {:induction false} PutGet(s: seq<byte>)
    ensures Put(Get(s), |s|) == s
    ensures Get(s) < Pow256(|s|)
  {
    if s != [] {
      PutGet(s[1..]);
      assert s == [s[0]] + s[1..];
    }
  }

  function PutWord(v: u64): (s: seq<byte>)
    ensures |s| == 8
  {
    Put(v, Eight(v))
  }

  lemma GetPutWord(v: u64)
    ensures Get(PutWord(v)) == v
  {
    Pow256Of8(Eight(v));
    GetPut(v, Eight(v));
  }

  // ----- words inside a buffer -----

  function U64(buf: seq<byte>, at: nat): (v: u64)
    requires at + 8 <= |buf|
  {
    PutGet(buf[at..at + 8]);
    Pow256Of8(|buf[at..at + 8]|);
    Get(buf[at..at + 8])
  }

  function W64(buf: seq<byte>, at: nat, v: u64): (r: seq<byte>)
    requires at + 8 <= |buf|
    ensures |r| == |buf|
  {
    buf[..at] + PutWord(v) + buf[at + 8..]
  }

  /** What a word write means: the word reads back, and every disjoint word keeps its value. */
  lemma ReadAfterWrite(buf: seq<byte>, at: nat, v: u64, p: nat)
    requires at + 8 <= |buf| && p + 8 <= |buf|
    ensures p == at ==> U64(W64(buf, at, v), p) == v
    ensures p + 8 <= at || at + 8 <= p ==> U64(W64(buf, at, v), p) == U64(buf, p)
  {
    var r := W64(buf, at, v);
    if p == at {
      assert r[p..p + 8] == PutWord(v);
      GetPutWord(v);
    } else if p + 8 <= at || at + 8 <= p {
      assert r[p..p + 8] == buf[p..p + 8];
    }
  }

  lemma WriteTwice(buf: seq<byte>, at: nat, v: u64, w: u64)
    requires at + 8 <= |buf|
    ensures W64(W64(buf, at, v), at, w) == W64(buf, at, w)
  {
    var once := W64(buf, at, v);
    assert once[..at] == buf[..at];
    assert once[at + 8..] == buf[at + 8..];
  }

  lemma WriteSame(buf: seq<byte>, at: nat)
    requires at + 8 <= |buf|
    ensures W64(buf, at, U64(buf, at)) == buf
  {
    PutGet(buf[at..at + 8]);
    assert buf == buf[..at] + buf[at..at + 8] + buf[at + 8..];
  }

  // ----- packed word sequences -----

  function Words(ws: seq<u64>): (s: seq<byte>)
    ensures |s| == 8 * |ws|
  {
    if ws == [] then [] else PutWord(ws[0]) + Words(ws[1..])
  }

  lemma WordsCons(h: u64, t: seq<u64>)
    ensures Words([h] + t) == PutWord(h) + Words(t)
  {
    assert ([h] + t)[1..] == t;
  }

  lemma {:induction false} WordsSplit(a: seq<u64>, b: seq<u64>)
    ensures Words(a + b) == Words(a) + Words(b)
  {
    if a == [] {
      assert a + b == b;
    } else {
      var h, t := a[0], a[1..];
      assert a == [h] + t;
      assert a + b == [h] + (t + b);
      WordsCons(h, t);
      WordsCons(h, t + b);
      WordsSplit(t, b);
    }
  }

  lemma ReadWord(buf: seq<byte>, at: nat, v: u64)
    requires at + 8 <= |buf| && buf[at..at + 8] == PutWord(v)
    ensures U64(buf, at) == v
  {
    GetPutWord(v);
  }

  lemma OneWord(w: u64)
    ensures Words([w]) == PutWord(w)
  {
    assert [w][1..] == [];
  }

  /** A slice of a packed sequence on word boundaries is the packed slice. */
  lemma WordsSlice(a: seq<u64>, b: seq<u64>, c: seq<u64>)
    ensures Words(a + (b + c))[8 * |a|..8 * |a| + 8 * |b|] == Words(b)
  {
    WordsSplit(a, b + c);
    WordsSplit(b, c);
    SliceMiddle(Words(a), Words(b), Words(c));
  }

  lemma SliceMiddle(a: seq<byte>, b: seq<byte>, c: seq<byte>)
    ensures (a + (b + c))[|a|..|a| + |b|] == b
  {
  }

  lemma ReadShifted(p: seq<byte>, s: seq<byte>, at: nat)
    requires at + 8 <= |s|
    ensures U64(p + s, |p| + at) == U64(s, at)
  {
    assert (p + s)[|p| + at..|p| + at + 8] == s[at..at + 8];
  }

  /** Word i of a packed sequence is what a reader finds at byte 8*i. */
  lemma {:induction false} WordAt(ws: seq<u64>, i: nat)
    requires i < |ws|
    ensures U64(Words(ws), 8 * i) == ws[i]
  {
    var h, t := PutWord(ws[0]), Words(ws[1..]);
    assert Words(ws) == h + t;
    if i == 0 {
      assert (h + t)[0..8] == h;
      ReadWord(h + t, 0, ws[0]);
    } else {
      WordAt(ws[1..], i - 1);
      ReadShifted(h, t, 8 * (i - 1));
    }
  }

  /** Writing word i in place is updating the word sequence. */
  lemma WordSet(ws: seq<u64>, i: nat, v: u64)
    requires i < |ws|
    ensures W64(Words(ws), 8 * i, v) == Words(ws[i := v])
  {
    var a, w, b := ws[..i], [ws[i]], ws[i + 1..];
    assert ws == a + (w + b);
    assert ws[i := v] == a + ([v] + b);
    WordsSplit(a, w + b);
    WordsSplit(w, b);
    WordsSplit(a, [v] + b);
    WordsSplit([v], b);
    OneWord(v);
    Overwrite(Words(a), Words(w), Words(b), v);
  }

  lemma Overwrite(a: seq<byte>, w: seq<byte>, b: seq<byte>, v: u64)
    requires |w| == 8
    ensures W64(a + (w + b), |a|, v) == a + (PutWord(v) + b)
  {
    var s := a + (w + b);
    assert s[..|a|] == a;
    assert s[|a| + 8..] == b;
  }

  function Zeros(n: nat): (z: seq<byte>)
    ensures |z| == n && forall i :: 0 <= i < n ==> z[i] == 0
  {
    seq(n, i => 0)
  }

  function ZeroWords(n: nat): (z: seq<u64>)
    ensures |z| == n && forall i :: 0 <= i < n ==> z[i] == 0
  {
    seq(n, i => 0)
  }

  lemma {:induction false} ZerosAreWords(n: nat)
    ensures Words(ZeroWords(n)) == Zeros(8 * n)
  {
    if n > 0 {
      ZerosAreWords(n - 1);
      assert ZeroWords(n)[1..] == ZeroWords(n - 1);
      PutZero(Eight(0));
      assert Zeros(8 * n) == Zeros(8) + Zeros(8 * (n - 1));
    }
  }

  lemma {:induction false} PutZero(n: nat)
    ensures Put(0, n) == Zeros(n)
  {
    if n > 0 {
      PutZero(n - 1);
    }
  }

  // ----- bits inside a byte -----

  function Pow2(n: nat): (p: nat)
    ensures p >= 1
  {
    if n == 0 then 1 else 2 * Pow2(n - 1)
  }

  predicate Bit(b: nat, k: nat)
    decreases k
  {
    if k == 0 then b % 2 == 1 else Bit(b / 2, k - 1)
  }

  /** b | (1 << k) when v holds, b & ~(1 << k) otherwise. */
  function PutBit(b: nat, k: nat, v: bool): nat
    decreases k
  {
    if k == 0 then b / 2 * 2 + (if v then 1 else 0) else PutBit(b / 2, k - 1, v) * 2 + b % 2
  }

  lemma {:induction false} BitOfPutBit(b: nat, k: nat, v: bool, j: nat)
    ensures Bit(PutBit(b, k, v), j) == if j == k then v else Bit(b, j)
    decreases k
  {
    if k > 0 && j > 0 {
      assert PutBit(b, k, v) / 2 == PutBit(b / 2, k - 1, v);
      BitOfPutBit(b / 2, k - 1, v, j - 1);
    } else if j > 0 {
      assert PutBit(b, k, v) / 2 == b / 2;
    }
  }

  lemma {:induction false} PutBitFits(b: nat, k: nat, v: bool, n: nat)
    requires k < n && b < Pow2(n)
    ensures PutBit(b, k, v) < Pow2(n)
    decreases k
  {
    var half := Pow2(n - 1);
    assert Pow2(n) == 2 * half;
    assert b / 2 < half;
    if k > 0 {
      PutBitFits(b / 2, k - 1, v, n - 1);
    }
  }

  lemma Pow2Of8(n: nat)
    requires n == 8
    ensures Pow2(n) == 256
  {
    assert Pow2(n - 6) == 4;
    assert Pow2(n - 4) == 16;
    assert Pow2(n - 2) == 64;
  }

  function WithBit(b: byte, k: nat, v: bool): (r: byte)
    requires k < 8
    ensures Bit(r, k) == v
  {
    Pow2Of8(Eight(b));
    PutBitFits(b, k, v, Eight(b));
    BitOfPutBit(b, k, v, k);
    PutBit(b, k, v)
  }

  // ----- CRC-64/ECMA-182 -----

  function CrcBit(c: bv64): bv64 {
    if c & 0x8000_0000_0000_0000 != 0 then (c << 1) ^ 0x42F0_E1EB_A9EA_3693 else c << 1
  }

  function CrcBits(c: bv64, n: nat): bv64
    decreases n
  {
    if n == 0 then c else CrcBits(CrcBit(c), n - 1)
  }

  function CrcByte(c: bv64, b: byte): bv64 {
    CrcBits(c ^ ((b as bv64) << 56), Eight(b))
  }

  function CrcFrom(c: bv64, data: seq<byte>): bv64
    decreases data
  {
    if data == [] then c else CrcFrom(CrcByte(c, data[0]), data[1..])
  }

  function Crc(data: seq<byte>): u64 {
    CrcFrom(0, data) as int
  }

  lemma {:induction false} CrcAppend(c: bv64, a: seq<byte>, b: byte)
    ensures CrcFrom(c, a + [b]) == CrcByte(CrcFrom(c, a), b)
    decreases a
  {
    if a == [] {
      assert a + [b] == [b];
      assert [b][1..] == [];
    } else {
      CrcAppend(CrcByte(c, a[0]), a[1..], b);
      assert (a + [b])[1..] == a[1..] + [b];
    }
  }

  lemma CrcPrefix(data: seq<byte>, i: nat)
    requires i < |data|
    ensures CrcFrom(0, data[..i + 1]) == CrcByte(CrcFrom(0, data[..i]), data[i])
  {
    assert data[..i + 1] == data[..i] + [data[i]];
    CrcAppend(0, data[..i], data[i]);
  }

  method CrcShift(c: bv64, b: byte) returns (r: bv64)
    ensures r == CrcByte(c, b)
  {
    r := c ^ ((b as bv64) << 56);
    ghost var start, eight := r, Eight(b);
    for bit := 0 to 8
      invariant CrcBits(start, eight) == CrcBits(r, eight - bit)
    {
      r := CrcBit(r);
    }
  }

  /** The plain CRC loop of the formatter, the checker and the image tools. */
  lemma CrcOfNothing(c: bv64)
    ensures CrcFrom(c, []) == c
  {
  }

  method Crc64(data: seq<byte>) returns (crc: u64)
    ensures crc == Crc(data)
  {
    hide CrcFrom, CrcByte;
    var c: bv64 := 0;
    CrcOfNothing(0);
    assert data[..0] == [];
    for i := 0 to |data|
      invariant c == CrcFrom(0, data[..i])
    {
      c := CrcShift(c, data[i]);
      CrcPrefix(data, i);
    }
    assert data[..|data|] == data;
    crc := c as int;
  }

  lemma ClearedAt(data: seq<byte>, field: nat, i: nat)
    requires field + 8 <= |data| && i < |data|
    ensures W64(data, field, 0)[i] == if field <= i < field + 8 then 0 else data[i]
  {
    PutZero(Eight(0));
  }

  lemma ClearedPrefix(data: seq<byte>, field: nat, i: nat)
    requires field + 8 <= |data| && i < |data|
    ensures var cleared := W64(data, field, 0);
            CrcFrom(0, cleared[..i + 1])
            == CrcByte(CrcFrom(0, cleared[..i]), if field <= i < field + 8 then 0 else data[i])
  {
    ClearedAt(data, field, i);
    CrcPrefix(W64(data, field, 0), i);
  }

  /** The boot reader's CRC loop: it skips the checksum field instead of
      clearing it, and that is the CRC of the buffer with the field cleared. */
  method BootCrc64(data: seq<byte>, field: nat) returns (crc: u64)
    requires field + 8 <= |data|
    ensures crc == Crc(W64(data, field, 0))
  {
    hide CrcFrom, CrcByte, W64;
    ghost var cleared := W64(data, field, 0);
    var c: bv64 := 0;
    CrcOfNothing(0);
    assert cleared[..0] == [];
    for i := 0 to |data|
      invariant c == CrcFrom(0, cleared[..i])
    {
      var value: byte := if field <= i < field + 8 then 0 else data[i];
      c := CrcShift(c, value);
      ClearedPrefix(data, field, i);
    }
    assert cleared[..|data|] == cleared;
    crc := c as int;
  }

  /** The stored checksum equals the CRC of the buffer with the field cleared. */
  predicate Checked(data: seq<byte>, field: nat)
    requires field + 8 <= |data|
  {
    U64(data, field) == Crc(W64(data, field, 0))
  }

  /** Clear the field, then store the CRC of the whole buffer in it. */
  function Checksummed(data: seq<byte>, field: nat): (r: seq<byte>)
    requires field + 8 <= |data|
    ensures |r| == |data|
  {
    W64(data, field, Crc(W64(data, field, 0)))
  }

  /** Every buffer a writer checksums is accepted by every reader, and all
      other words of it are untouched. */
  lemma ChecksummedIsChecked(data: seq<byte>, field: nat)
    requires field + 8 <= |data|
    ensures Checked(Checksummed(data, field), field)
  {
    var crc := Crc(W64(data, field, 0));
    WriteTwice(data, field, crc, 0);
    ReadAfterWrite(data, field, crc, field);
  }

  /** Only the checksum word itself decides: a buffer has exactly one valid checksum. */
  lemma CheckedIsCanonical(data: seq<byte>, field: nat)
    requires field + 8 <= |data|
    ensures Checked(data, field) <==> Checksummed(data, field) == data
  {
    WriteSame(data, field);
    if Checksummed(data, field) == data {
      ReadAfterWrite(data, field, Crc(W64(data, field, 0)), field);
    }
  }
}
