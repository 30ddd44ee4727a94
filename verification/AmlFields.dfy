/** Fields of an operation region: any run of bits, reached only through whole
    access units of one, two, four or eight bytes. */
module AmlFields {
  // ----- machine words and bytes, bit 0 first -----

  type Word = w: seq<bool> | |w| == 64 witness seq(64, _ => false)
  type Byte = b: seq<bool> | |b| == 8 witness seq(8, _ => false)

  const ZERO: Word := seq(64, _ => false)

  function And(a: Word, b: Word): Word { seq(64, i requires 0 <= i < 64 => a[i] && b[i]) }
  function Or(a: Word, b: Word): Word { seq(64, i requires 0 <= i < 64 => a[i] || b[i]) }
  function Not(a: Word): Word { seq(64, i requires 0 <= i < 64 => !a[i]) }
  function ShiftLeft(a: Word, n: nat): Word { seq(64, i requires 0 <= i < 64 => n <= i && a[i - n]) }
  function ShiftRight(a: Word, n: nat): Word { seq(64, i requires 0 <= i < 64 => i + n < 64 && a[i + n]) }

  /** The low `bits` bits set. */
  function MaskBits(bits: nat): Word { seq(64, i requires 0 <= i < 64 => i < bits) }

  // ----- values -----

  /** What a field can be written with, bit by bit. */
  datatype FieldValue = Integer(word: Word) | Buffer(bytes: seq<Byte>) | String(bytes: seq<Byte>) | Other

  predicate Writable(v: FieldValue) {
    !v.Other?
  }

  /** A value's k-th bit; past its end a value is zero. */
  function ValueBit(v: FieldValue, k: nat): bool
    requires Writable(v)
  {
    if v.Integer? then k < 64 && v.word[k] else k < 8 * |v.bytes| && v.bytes[k / 8][k % 8]
  }

  // ----- fields -----

  datatype Rule = Preserve | WriteOnes | WriteZeros
  datatype Field = Field(bitOffset: nat, bitLength: nat, access: nat, accessLength: nat, rule: Rule, locked: bool)

  function AccessBytes(f: Field): (n: nat)
    ensures n == 1 || n == 2 || n == 4 || n == 8
  {
    if f.accessLength == 1 || f.accessLength == 2 || f.accessLength == 4 || f.accessLength == 8 then f.accessLength
    else if f.access == 2 then 2
    else if f.access == 3 then 4
    else if f.access == 4 then 8
    else 1
  }

  function AccessBits(f: Field): (n: nat)
    ensures n == 8 || n == 16 || n == 32 || n == 64
  {
    8 * AccessBytes(f)
  }

  /** The access unit a bit is in. */
  function UnitOf(f: Field, bit: nat): (u: nat)
    ensures u <= bit < u + AccessBits(f)
  {
    bit - bit % AccessBits(f)
  }

  lemma UnitIs(f: Field, bit: nat)
    ensures UnitOf(f, bit) == AccessBits(f) * (bit / AccessBits(f))
    ensures UnitOf(f, bit) % 8 == 0
  {
    assert AccessBits(f) * (bit / AccessBits(f)) == 8 * (AccessBytes(f) * (bit / AccessBits(f)));
  }

  /** A bit between two multiples of the unit is in the unit that starts at the first. */
  lemma UnitFound(f: Field, bit: nat, k: nat)
    requires AccessBits(f) * k <= bit < AccessBits(f) * k + AccessBits(f)
    ensures UnitOf(f, bit) == AccessBits(f) * k
  {
    hide UnitOf, AccessBits;
    var n, q := AccessBits(f), bit / AccessBits(f);
    UnitIs(f, bit);
    if q < k {
      Multiples(n, q, k);
    } else if k < q {
      Multiples(n, k, q);
    }
  }

  lemma UnitSame(f: Field, bit: nat, other: nat)
    requires UnitOf(f, bit) <= other < UnitOf(f, bit) + AccessBits(f)
    ensures UnitOf(f, other) == UnitOf(f, bit)
  {
    UnitIs(f, bit);
    UnitFound(f, other, bit / AccessBits(f));
  }

  lemma UnitNext(f: Field, bit: nat)
    ensures UnitOf(f, UnitOf(f, bit) + AccessBits(f)) == UnitOf(f, bit) + AccessBits(f)
  {
    hide UnitOf, AccessBits;
    UnitIs(f, bit);
    var n, q := AccessBits(f), bit / AccessBits(f);
    assert n * (q + 1) == n * q + n;
    UnitFound(f, UnitOf(f, bit) + n, q + 1);
  }

  lemma UnitLater(f: Field, bit: nat, other: nat)
    requires bit <= other
    ensures UnitOf(f, bit) == UnitOf(f, other) || UnitOf(f, bit) + AccessBits(f) <= UnitOf(f, other)
  {
    hide UnitOf, AccessBits;
    UnitIs(f, bit);
    UnitIs(f, other);
    var n, p, q := AccessBits(f), bit / AccessBits(f), other / AccessBits(f);
    if p < q {
      Multiples(n, p, q);
    } else if q < p {
      Multiples(n, q, p);
    }
  }

  lemma Multiples(n: nat, p: nat, q: nat)
    requires p < q
    ensures n * p + n <= n * q
    decreases q
  {
    if p + 1 < q {
      Multiples(n, p, q - 1);
    }
    Distribute(n, q - 1, 1);
  }

  lemma Distribute(n: nat, a: nat, b: nat)
    ensures n * (a + b) == n * a + n * b
  {
  }

  function FirstUnit(f: Field): nat {
    UnitOf(f, f.bitOffset)
  }

  /** The end of the last unit a field touches. */
  function UnitEnd(f: Field): nat {
    if f.bitLength == 0 then FirstUnit(f) else UnitOf(f, f.bitOffset + f.bitLength - 1) + AccessBits(f)
  }

  predicate Inside(f: Field, i: nat) {
    f.bitOffset <= i < f.bitOffset + f.bitLength
  }

  /** What a bit becomes: the value's bit inside the field; beside it in the same
      units, what the update rule says; elsewhere, what it was. */
  ghost function NewBit(f: Field, v: FieldValue, i: nat, was: bool): bool
    requires Writable(v)
  {
    if Inside(f, i) then ValueBit(v, i - f.bitOffset)
    else if f.rule == Preserve || i < FirstUnit(f) || UnitEnd(f) <= i then was
    else f.rule == WriteOnes
  }

  function Bits(m: seq<Byte>): (s: seq<bool>)
    ensures |s| == 8 * |m|
  {
    seq(8 * |m|, i requires 0 <= i < 8 * |m| => m[i / 8][i % 8])
  }

  ghost function Written(s: seq<bool>, f: Field, v: FieldValue): (r: seq<bool>)
    requires Writable(v)
  {
    seq(|s|, i requires 0 <= i < |s| => NewBit(f, v, i, s[i]))
  }

  /** Whether a write can succeed. */
  predicate Fits(f: Field, size: nat) {
    f.bitLength == 0 || UnitEnd(f) <= 8 * size
  }

  // ----- one unit -----

  predicate Loads(m: seq<Byte>, offset: nat, width: nat) {
    (width == 1 || width == 2 || width == 4 || width == 8) && offset <= |m| && width <= |m| - offset
  }

  /** A little-endian load: bit i of the word is bit i of the bytes in order. */
  function Load(m: seq<Byte>, offset: nat, width: nat): (w: Word)
    requires Loads(m, offset, width)
    ensures forall i :: 0 <= i < 64 ==> w[i] == (i < 8 * width && Bits(m)[8 * offset + i])
  {
    seq(64, i requires 0 <= i < 64 => i < 8 * width && m[offset + i / 8][i % 8])
  }

  method ReadUnit(m: array<Byte>, offset: nat, width: nat) returns (ok: bool, w: Word)
    ensures ok <==> Loads(m[..], offset, width)
    ensures ok ==> forall i :: 0 <= i < 64 ==> w[i] == (i < 8 * width && Bits(m[..])[8 * offset + i])
  {
    ok := Loads(m[..], offset, width);
    w := ZERO;
    if ok {
      w := Load(m[..], offset, width);
    }
  }

  /** Store the low bytes of a word, lowest first. */
  method WriteUnit(m: array<Byte>, offset: nat, width: nat, w: Word) returns (ok: bool)
    modifies m
    ensures ok <==> Loads(old(m[..]), offset, width)
    ensures !ok ==> m[..] == old(m[..])
    ensures ok ==> Stored(Bits(m[..]), old(Bits(m[..])), w, 8 * offset, 8 * width)
  {
    hide Bits, WordByte;
    ok := Loads(m[..], offset, width);
    if !ok { return; }
    for k := 0 to width
      invariant forall j :: 0 <= j < m.Length ==>
                  m[j] == if offset <= j < offset + k then WordByte(w, j - offset) else old(m[j])
    {
      m[offset + k] := WordByte(w, k);
    }
    BytesStored(m[..], old(m[..]), w, offset, width);
  }

  function WordByte(w: Word, k: nat): (b: Byte)
    requires k < 8
  {
    w[8 * k..8 * k + 8]
  }

  ghost predicate Stored(s: seq<bool>, was: seq<bool>, w: Word, start: nat, bits: nat)
    requires bits <= 64
  {
    |s| == |was| && forall i :: 0 <= i < |s| ==> s[i] == if start <= i < start + bits then w[i - start] else was[i]
  }

  lemma BytesStored(m: seq<Byte>, was: seq<Byte>, w: Word, offset: nat, width: nat)
    requires |m| == |was| && Loads(was, offset, width)
    requires forall j :: 0 <= j < |m| ==>
               m[j] == if offset <= j < offset + width then WordByte(w, j - offset) else was[j]
    ensures Stored(Bits(m), Bits(was), w, 8 * offset, 8 * width)
  {
    forall i | 0 <= i < 8 * |m|
      ensures Bits(m)[i] == if 8 * offset <= i < 8 * offset + 8 * width then w[i - 8 * offset] else Bits(was)[i]
    {
      var j := i / 8;
      assert i == 8 * j + i % 8 && Bits(m)[i] == m[j][i % 8] && Bits(was)[i] == was[j][i % 8];
    }
  }

  // ----- fragments -----

  /** The next bits of the value, as a word. */
  method InputBits(v: FieldValue, offset: nat, bits: nat) returns (ok: bool, fragment: Word)
    requires bits <= 64
    ensures ok <==> Writable(v)
    ensures ok ==> forall i :: 0 <= i < 64 ==> fragment[i] == (i < bits && ValueBit(v, offset + i))
  {
    fragment := ZERO;
    match v
    case Integer(word) =>
      if offset < 64 {
        fragment := And(ShiftRight(word, offset), MaskBits(bits));
      }
      ok := true;
    case Other => ok := false;
    case _ =>
      ok := true;
      for bit := 0 to bits
        invariant forall i :: 0 <= i < 64 ==> fragment[i] == (i < bit && ValueBit(v, offset + i))
      {
        var source := offset + bit;
        if source < 8 * |v.bytes| && v.bytes[source / 8][source % 8] {
          fragment := fragment[bit := true];
        }
      }
  }

  lemma BitSet(bytes: seq<Byte>, at: nat)
    requires at < 8 * |bytes|
    ensures forall k: nat :: ValueBit(Buffer(bytes[at / 8 := bytes[at / 8][at % 8 := true]]), k)
                             == (k == at || ValueBit(Buffer(bytes), k))
  {
    forall k: nat
      ensures ValueBit(Buffer(bytes[at / 8 := bytes[at / 8][at % 8 := true]]), k)
              == (k == at || ValueBit(Buffer(bytes), k))
    {
      assert k == 8 * (k / 8) + k % 8 && at == 8 * (at / 8) + at % 8;
    }
  }

  /** Put a fragment into the value being read. */
  method OutputBits(v: FieldValue, offset: nat, bits: nat, fragment: Word, mode: nat) returns (ok: bool, r: FieldValue)
    requires v.Integer? || v.Buffer?
    requires mode == 32 || mode == 64
    requires v.Integer? ==> offset + bits <= mode && forall i :: mode <= i < 64 ==> !v.word[i]
    requires v.Buffer? ==> bits <= 64
    requires forall k :: offset <= k < offset + bits ==> !ValueBit(v, k)
    ensures ok <==> v.Integer? || offset + bits <= 8 * |v.bytes|
    ensures ok ==> r.Integer? == v.Integer? && r.Buffer? == v.Buffer? && (v.Buffer? ==> |r.bytes| == |v.bytes|)
    ensures ok ==> forall k: nat :: ValueBit(r, k) ==
                     if offset <= k < offset + bits then fragment[k - offset] else ValueBit(v, k)
  {
    if v.Integer? {
      var word := Or(v.word, ShiftLeft(And(fragment, MaskBits(bits)), offset));
      r := Integer(And(word, MaskBits(mode)));
      forall k: nat | k < 64
        ensures r.word[k] == if offset <= k < offset + bits then fragment[k - offset] else v.word[k]
      {
        assert offset <= k < offset + bits ==> !ValueBit(v, k);
      }
      return true, r;
    }
    if offset + bits > 8 * |v.bytes| { return false, v; }
    var bytes := v.bytes;
    for bit := 0 to bits
      invariant |bytes| == |v.bytes|
      invariant forall k: nat :: ValueBit(Buffer(bytes), k) ==
                  if offset <= k < offset + bit then fragment[k - offset] else ValueBit(v, k)
    {
      var at := offset + bit;
      ghost var was := bytes;
      assert !ValueBit(v, at);
      if fragment[bit] {
        BitSet(bytes, at);
        bytes := bytes[at / 8 := bytes[at / 8][at % 8 := true]];
      }
      forall k: nat
        ensures ValueBit(Buffer(bytes), k) == if offset <= k < at + 1 then fragment[k - offset] else ValueBit(v, k)
      {
        assert ValueBit(Buffer(bytes), k) == (ValueBit(Buffer(was), k) || (k == at && fragment[bit]));
      }
    }
    ok, r := true, Buffer(bytes);
  }

  // ----- writing -----

  /** A bit of a touched unit outside the field. */
  function Beside(f: Field, was: bool): bool {
    if f.rule == Preserve then was else f.rule == WriteOnes
  }

  /** The bits of one unit after its part of the field is merged in. */
  lemma Merged(unit: Word, fragment: Word, within: nat, count: nat)
    requires within + count <= 64
    ensures var mask := ShiftLeft(MaskBits(count), within);
            var merged := Or(And(unit, Not(mask)), And(ShiftLeft(fragment, within), mask));
            forall i :: 0 <= i < 64 ==> merged[i] == if within <= i < within + count then fragment[i - within]
              else unit[i]
  {
  }

  lemma FullMask(access: nat, within: nat, count: nat)
    requires 0 < count && within + count <= access <= 64
    ensures ShiftLeft(MaskBits(count), within) == MaskBits(access) <==> within == 0 && count == access
  {
    var mask := ShiftLeft(MaskBits(count), within);
    assert mask[within] && (within > 0 ==> !mask[0]);
    assert within + count < access ==> !mask[access - 1] && MaskBits(access)[access - 1];
    assert within > 0 ==> MaskBits(access)[0];
  }

  /** The value's bits the unit at `completed` takes. */
  function Count(f: Field, completed: nat): (n: nat)
    requires completed < f.bitLength
    ensures 0 < n <= 64 && completed + n <= f.bitLength
  {
    var absolute := f.bitOffset + completed;
    var room := UnitOf(f, absolute) + AccessBits(f) - absolute;
    if room > f.bitLength - completed then f.bitLength - completed else room
  }

  ghost predicate UnitWritten(s: seq<bool>, was: seq<bool>, f: Field, v: FieldValue, completed: nat)
    requires Writable(v) && completed < f.bitLength && |s| == |was|
  {
    var absolute := f.bitOffset + completed;
    var unit := UnitOf(f, absolute);
    forall i :: 0 <= i < |s| ==>
      s[i] == if absolute <= i < absolute + Count(f, completed) then ValueBit(v, i - f.bitOffset)
              else if unit <= i < unit + AccessBits(f) then Beside(f, was[i]) else was[i]
  }

  /** What the rest of a unit is to be: nothing matters if the field covers it all. */
  method BaseUnit(m: array<Byte>, f: Field, unitBit: nat, within: nat, count: nat) returns (ok: bool, base: Word)
    requires unitBit % 8 == 0 && 0 < count && within + count <= AccessBits(f)
    ensures !ok ==> unitBit + AccessBits(f) > 8 * m.Length
    ensures ok && count < AccessBits(f) && unitBit + AccessBits(f) <= 8 * m.Length ==>
              forall i :: 0 <= i < AccessBits(f) ==> base[i] == Beside(f, Bits(m[..])[unitBit + i])
  {
    hide AccessBytes;
    var access := AccessBits(f);
    ok := true;
    FullMask(access, within, count);
    if ShiftLeft(MaskBits(count), within) == MaskBits(access) {
      base := ZERO;
    } else if f.rule == WriteOnes {
      base := MaskBits(access);
    } else if f.rule == WriteZeros {
      base := ZERO;
    } else {
      ok, base := ReadUnit(m, unitBit / 8, AccessBytes(f));
    }
  }

  /** The unit with the next part of the value merged in. */
  method MergeUnit(m: array<Byte>, f: Field, v: FieldValue, completed: nat) returns (ok: bool, unit: Word)
    requires completed < f.bitLength
    ensures !ok ==> !Writable(v) || UnitOf(f, f.bitOffset + completed) + AccessBits(f) > 8 * m.Length
    ensures ok ==> Writable(v)
    ensures ok && UnitOf(f, f.bitOffset + completed) + AccessBits(f) <= 8 * m.Length ==>
              UnitMerged(unit, Bits(m[..]), f, v, completed)
  {
    hide Bits, UnitOf, AccessBits, UnitMerged, ValueBit, Beside, And, Or, Not, ShiftLeft, MaskBits;
    var absolute := f.bitOffset + completed;
    var unitBit := UnitOf(f, absolute);
    UnitIs(f, absolute);
    var within := absolute - unitBit;
    var count := Count(f, completed);
    var fragment, base;
    ok, fragment := InputBits(v, completed, count);
    unit := fragment;
    if !ok { return; }
    ok, base := BaseUnit(m, f, unitBit, within, count);
    if !ok { return; }
    var mask := ShiftLeft(MaskBits(count), within);
    Merged(base, fragment, within, count);
    unit := Or(And(base, Not(mask)), And(ShiftLeft(fragment, within), mask));
    if unitBit + AccessBits(f) <= 8 * m.Length {
      MergedIs(unit, base, fragment, Bits(m[..]), f, v, completed);
    }
  }

  lemma MergedIs(unit: Word, base: Word, fragment: Word, s: seq<bool>, f: Field, v: FieldValue, completed: nat)
    requires Writable(v) && completed < f.bitLength
    requires UnitOf(f, f.bitOffset + completed) + AccessBits(f) <= |s|
    requires var count := Count(f, completed);
             var u := UnitOf(f, f.bitOffset + completed);
             var within := f.bitOffset + completed - u;
             && (forall i :: 0 <= i < 64 ==> fragment[i] == (i < count && ValueBit(v, completed + i)))
             && (forall i :: 0 <= i < 64 ==> unit[i] == if within <= i < within + count then fragment[i - within]
                 else base[i])
             && (count < AccessBits(f) ==> forall i :: 0 <= i < AccessBits(f) ==> base[i] == Beside(f, s[u + i]))
    ensures UnitMerged(unit, s, f, v, completed)
  {
    hide UnitOf, AccessBits, ValueBit, Beside;
    var count, u := Count(f, completed), UnitOf(f, f.bitOffset + completed);
    var within := f.bitOffset + completed - u;
    forall i | 0 <= i < AccessBits(f)
      ensures unit[i] == if within <= i < within + count then ValueBit(v, u + i - f.bitOffset) else Beside(f, s[u + i])
    {
      if within <= i < within + count {
        assert completed + (i - within) == u + i - f.bitOffset;
      }
    }
  }

  ghost predicate UnitMerged(unit: Word, s: seq<bool>, f: Field, v: FieldValue, completed: nat)
    requires Writable(v) && completed < f.bitLength
    requires UnitOf(f, f.bitOffset + completed) + AccessBits(f) <= |s|
  {
    var absolute := f.bitOffset + completed;
    var unitBit := UnitOf(f, absolute);
    forall i :: 0 <= i < AccessBits(f) ==>
      unit[i] == if absolute - unitBit <= i < absolute - unitBit + Count(f, completed)
                 then ValueBit(v, unitBit + i - f.bitOffset) else Beside(f, s[unitBit + i])
  }

  lemma UnitStored(s: seq<bool>, was: seq<bool>, unit: Word, f: Field, v: FieldValue, completed: nat)
    requires Writable(v) && completed < f.bitLength && |s| == |was|
    requires UnitOf(f, f.bitOffset + completed) + AccessBits(f) <= |s| && UnitMerged(unit, was, f, v, completed)
    requires Stored(s, was, unit, UnitOf(f, f.bitOffset + completed), AccessBits(f))
    ensures UnitWritten(s, was, f, v, completed)
  {
    hide UnitOf, AccessBits, ValueBit, Beside;
    var u := UnitOf(f, f.bitOffset + completed);
    assert u + AccessBits(f) >= f.bitOffset + completed + Count(f, completed);
    hide Count;
    forall i | 0 <= i < |s| && u <= i < u + AccessBits(f)
      ensures s[i] == unit[i - u] && was[u + (i - u)] == was[i]
    {
    }
  }

  /** Merge the next part of the value into its unit. */
  method WriteStep(m: array<Byte>, f: Field, v: FieldValue, completed: nat) returns (ok: bool)
    requires completed < f.bitLength
    modifies m
    ensures ok <==> Writable(v) && UnitOf(f, f.bitOffset + completed) + AccessBits(f) <= 8 * m.Length
    ensures !ok ==> m[..] == old(m[..])
    ensures ok ==> UnitWritten(Bits(m[..]), old(Bits(m[..])), f, v, completed)
  {
    hide Bits, UnitOf, AccessBytes, Count;
    var unit;
    ok, unit := MergeUnit(m, f, v, completed);
    if !ok { return; }
    var unitBit := UnitOf(f, f.bitOffset + completed);
    UnitIs(f, f.bitOffset + completed);
    assert 8 * (unitBit / 8) == unitBit;
    ghost var was := Bits(m[..]);
    ok := WriteUnit(m, unitBit / 8, AccessBytes(f), unit);
    if ok {
      UnitStored(Bits(m[..]), was, unit, f, v, completed);
    }
  }

  /** The units below `front` are written, the rest is as it was. */
  ghost predicate WrittenTo(s: seq<bool>, was: seq<bool>, f: Field, v: FieldValue, front: nat)
    requires Writable(v)
  {
    |s| == |was| && forall i :: 0 <= i < |s| ==> s[i] == if i < front then NewBit(f, v, i, was[i]) else was[i]
  }

  /** Where the next unit starts when `completed` bits are done. */
  ghost predicate At(f: Field, completed: nat, front: nat) {
    && FirstUnit(f) <= front
    && (if completed < f.bitLength then UnitOf(f, f.bitOffset + completed) == front
        && front + AccessBits(f) <= UnitEnd(f)
        else completed == f.bitLength && front == UnitEnd(f))
    && (0 < completed < f.bitLength ==> f.bitOffset + completed == front)
  }

  lemma AtStart(f: Field)
    ensures At(f, 0, FirstUnit(f))
  {
    if f.bitLength > 0 {
      UnitLater(f, f.bitOffset, f.bitOffset + f.bitLength - 1);
    }
  }

  lemma NothingWritten(was: seq<bool>, f: Field, v: FieldValue)
    requires Writable(v)
    ensures WrittenTo(was, was, f, v, FirstUnit(f))
  {
    hide UnitOf;
  }

  lemma AtUnit(f: Field, completed: nat, front: nat)
    requires completed <= f.bitLength && At(f, completed, front)
    ensures if completed < f.bitLength
            then UnitOf(f, f.bitOffset + completed) == front && front + AccessBits(f) <= UnitEnd(f)
            else front == UnitEnd(f)
  {
  }

  lemma AtNext(f: Field, completed: nat, front: nat)
    requires completed < f.bitLength && At(f, completed, front)
    ensures At(f, completed + Count(f, completed), front + AccessBits(f))
  {
    var absolute, last := f.bitOffset + completed, f.bitOffset + f.bitLength - 1;
    hide UnitOf;
    UnitNext(f, absolute);
    if completed + Count(f, completed) < f.bitLength {
      UnitLater(f, front + AccessBits(f), last);
    } else {
      UnitSame(f, absolute, last);
    }
  }

  lemma StepWrites(s: seq<bool>, before: seq<bool>, was: seq<bool>, f: Field, v: FieldValue, completed: nat, front: nat)
    requires Writable(v) && completed < f.bitLength && At(f, completed, front)
    requires WrittenTo(before, was, f, v, front) && |s| == |before| && UnitWritten(s, before, f, v, completed)
    ensures WrittenTo(s, was, f, v, front + AccessBits(f))
  {
    hide UnitOf, AccessBits;
  }

  method WriteField(m: array<Byte>, f: Field, v: FieldValue, lockWorks: bool) returns (ok: bool)
    modifies m
    ensures ok <==> (f.locked ==> lockWorks) && (f.bitLength == 0 || (Writable(v) && Fits(f, m.Length)))
    ensures Writable(v) && ok ==> Bits(m[..]) == Written(old(Bits(m[..])), f, v)
    ensures Writable(v) && !ok ==> exists front: nat :: WrittenTo(Bits(m[..]), old(Bits(m[..])), f, v, front)
    ensures !Writable(v) ==> m[..] == old(m[..])
  {
    hide Bits, UnitOf, AccessBits, UnitWritten, WrittenTo, Written, At;
    ghost var front: nat, was := FirstUnit(f), Bits(m[..]);
    if Writable(v) {
      NothingWritten(was, f, v);
    }
    if f.locked && !lockWorks { return false; }
    var completed: nat := 0;
    AtStart(f);
    while completed < f.bitLength
      invariant completed <= f.bitLength && At(f, completed, front)
      invariant Writable(v) ==> WrittenTo(Bits(m[..]), was, f, v, front)
      invariant completed > 0 ==> Writable(v) && front <= 8 * m.Length
      invariant !Writable(v) ==> m[..] == old(m[..])
    {
      ghost var before := Bits(m[..]);
      AtUnit(f, completed, front);
      ok := WriteStep(m, f, v, completed);
      if !ok { return; }
      StepWrites(Bits(m[..]), before, was, f, v, completed, front);
      AtNext(f, completed, front);
      completed := completed + Count(f, completed);
      front := front + AccessBits(f);
    }
    ok := true;
    AtUnit(f, completed, front);
    if Writable(v) {
      AllWritten(Bits(m[..]), was, f, v);
    }
  }

  lemma AllWritten(s: seq<bool>, was: seq<bool>, f: Field, v: FieldValue)
    requires Writable(v) && WrittenTo(s, was, f, v, UnitEnd(f))
    ensures s == Written(was, f, v)
  {
    hide UnitOf;
  }

  // ----- reading -----

  /** An integer if the field fits one, else a buffer just large enough. */
  predicate Sized(v: FieldValue, length: nat, mode: nat) {
    if length <= mode then v.Integer? else v.Buffer? && |v.bytes| == (length + 7) / 8
  }

  /** The value is the first `done` bits of the field, zero above. */
  ghost predicate Reads(v: FieldValue, s: seq<bool>, f: Field, mode: nat, done: nat) {
    && Sized(v, f.bitLength, mode)
    && forall k: nat :: ValueBit(v, k) == (k < done && FieldBit(s, f, k))
  }

  function FieldBit(s: seq<bool>, f: Field, k: nat): bool {
    f.bitOffset + k < |s| && s[f.bitOffset + k]
  }

  method NewValue(length: nat, mode: nat) returns (v: FieldValue)
    requires mode == 32 || mode == 64
    ensures Sized(v, length, mode) && forall k: nat :: !ValueBit(v, k)
  {
    if length <= mode {
      v := Integer(ZERO);
    } else {
      var zero: Byte := seq(8, _ => false);
      v := Buffer(seq((length + 7) / 8, _ => zero));
    }
  }

  /** Read the next part of the field out of its unit. */
  method ReadStep(m: array<Byte>, f: Field, v: FieldValue, mode: nat, completed: nat) returns (ok: bool, r: FieldValue)
    requires mode == 32 || mode == 64
    requires completed < f.bitLength && Reads(v, Bits(m[..]), f, mode, completed)
    ensures ok <==> UnitOf(f, f.bitOffset + completed) + AccessBits(f) <= 8 * m.Length
    ensures ok ==> Reads(r, Bits(m[..]), f, mode, completed + Count(f, completed))
  {
    hide Bits, UnitOf, AccessBytes, ValueBit, ShiftRight, MaskBits, And;
    var absolute := f.bitOffset + completed;
    var unitBit := UnitOf(f, absolute);
    UnitIs(f, absolute);
    var within := absolute - unitBit;
    var count := Count(f, completed);
    r := v;
    var unit;
    ok, unit := ReadUnit(m, unitBit / 8, AccessBytes(f));
    if !ok { return; }
    var fragment := And(ShiftRight(unit, within), MaskBits(count));
    FragmentIs(unit, within, count);
    IntegerHigh(v, mode, f.bitLength);
    ok, r := OutputBits(v, completed, count, fragment, mode);
    forall i | 0 <= i < count
      ensures fragment[i] == FieldBit(Bits(m[..]), f, completed + i)
    {
      assert 8 * (unitBit / 8) + (i + within) == f.bitOffset + completed + i;
    }
  }

  lemma FragmentIs(unit: Word, within: nat, count: nat)
    requires within + count <= 64
    ensures forall i :: 0 <= i < 64 ==>
              And(ShiftRight(unit, within), MaskBits(count))[i] == (i < count && unit[i + within])
  {
  }

  lemma IntegerHigh(v: FieldValue, mode: nat, length: nat)
    requires (mode == 32 || mode == 64) && Sized(v, length, mode)
    requires forall k: nat :: k >= length ==> !ValueBit(v, k)
    ensures v.Integer? ==> forall i :: mode <= i < 64 ==> !v.word[i]
  {
    if v.Integer? {
      forall i | mode <= i < 64
        ensures !v.word[i]
      {
        assert !ValueBit(v, i);
      }
    }
  }

  method ReadField(m: array<Byte>, f: Field, mode: nat, lockWorks: bool) returns (ok: bool, v: FieldValue)
    requires mode == 32 || mode == 64
    ensures ok <==> (f.locked ==> lockWorks) && (f.bitLength == 0 || Fits(f, m.Length))
    ensures ok ==> Reads(v, Bits(m[..]), f, mode, f.bitLength)
  {
    hide Bits, UnitOf, AccessBits, Count, At, ValueBit;
    v := NewValue(f.bitLength, mode);
    if f.locked && !lockWorks { return false, v; }
    var completed: nat := 0;
    ghost var front: nat := FirstUnit(f);
    AtStart(f);
    while completed < f.bitLength
      invariant completed <= f.bitLength && At(f, completed, front)
      invariant completed > 0 ==> front <= 8 * m.Length
      invariant Reads(v, Bits(m[..]), f, mode, completed)
    {
      AtUnit(f, completed, front);
      AtNext(f, completed, front);
      ok, v := ReadStep(m, f, v, mode, completed);
      if !ok { return; }
      completed := completed + Count(f, completed);
      front := front + AccessBits(f);
    }
    AtUnit(f, completed, front);
    ok := true;
  }

  // ----- reading what was written -----

  /** A value cut or zero-extended to a field's length. */
  function Fitted(v: FieldValue, length: nat, mode: nat): (r: FieldValue)
    requires Writable(v) && (mode == 32 || mode == 64)
  {
    if length <= mode then Integer(seq(64, k requires 0 <= k < 64 => k < length && ValueBit(v, k)))
    else Buffer(seq((length + 7) / 8, j requires 0 <= j < (length + 7) / 8 => FittedByte(v, length, j)))
  }

  function FittedByte(v: FieldValue, length: nat, j: nat): Byte
    requires Writable(v)
  {
    seq(8, b requires 0 <= b < 8 => 8 * j + b < length && ValueBit(v, 8 * j + b))
  }

  /** A read after a write gives the value back, fitted to the field. */
  lemma ReadsWritten(s: seq<bool>, f: Field, v: FieldValue, r: FieldValue, mode: nat)
    requires Writable(v) && (mode == 32 || mode == 64) && Fits(f, |s| / 8) && |s| % 8 == 0
    requires Reads(r, Written(s, f, v), f, mode, f.bitLength)
    ensures r == Fitted(v, f.bitLength, mode)
  {
    hide UnitOf;
    forall k: nat
      ensures ValueBit(r, k) == (k < f.bitLength && ValueBit(v, k))
    {
      assert k < f.bitLength ==> f.bitOffset + k < UnitEnd(f);
      assert k < f.bitLength ==> Inside(f, f.bitOffset + k);
    }
    SameBits(r, v, f.bitLength, mode);
  }

  lemma SameBits(r: FieldValue, v: FieldValue, length: nat, mode: nat)
    requires Writable(v) && (mode == 32 || mode == 64) && Sized(r, length, mode)
    requires forall k: nat :: ValueBit(r, k) == (k < length && ValueBit(v, k))
    ensures r == Fitted(v, length, mode)
  {
    if length <= mode {
      forall k | 0 <= k < 64
        ensures r.word[k] == (k < length && ValueBit(v, k))
      {
        assert r.word[k] == ValueBit(r, k);
      }
      assert r.word == Fitted(v, length, mode).word;
    } else {
      forall j | 0 <= j < |r.bytes|
        ensures r.bytes[j] == FittedByte(v, length, j)
      {
        forall b | 0 <= b < 8
          ensures r.bytes[j][b] == FittedByte(v, length, j)[b]
        {
          assert (8 * j + b) / 8 == j && (8 * j + b) % 8 == b;
          assert r.bytes[j][b] == ValueBit(r, 8 * j + b);
        }
      }
      assert r.bytes == Fitted(v, length, mode).bytes;
    }
  }

  /** Under the Preserve rule a write is invisible to every field beside it. */
  lemma WriteKeepsOthers(s: seq<bool>, f: Field, v: FieldValue, g: Field, r: FieldValue, mode: nat)
    requires Writable(v) && f.rule == Preserve
    requires g.bitOffset + g.bitLength <= f.bitOffset || f.bitOffset + f.bitLength <= g.bitOffset
    ensures Reads(r, Written(s, f, v), g, mode, g.bitLength) <==> Reads(r, s, g, mode, g.bitLength)
  {
    hide ValueBit, UnitOf;
    forall k: nat | k < g.bitLength
      ensures FieldBit(Written(s, f, v), g, k) == FieldBit(s, g, k)
    {
      assert !Inside(f, g.bitOffset + k);
    }
  }

  /** A later write to a field hides an earlier one. */
  lemma WriteTwice(s: seq<bool>, f: Field, u: FieldValue, v: FieldValue)
    requires Writable(u) && Writable(v)
    ensures Written(Written(s, f, u), f, v) == Written(s, f, v)
  {
    hide ValueBit, UnitOf;
  }
}
