/** The values AML computes with, 32 or 64 bits wide. */
module AmlValues {
  import opened Options
  import opened AmlNamespace
  import opened AmlTerms

  const MASK32: bv64 := 0xffff_ffff
  const MASK64: bv64 := 0xffff_ffff_ffff_ffff

  datatype Value = Nothing
                 | Integer(n: bv64)
                 | Text(bytes: Bytes)
                 | Buffer(bytes: Bytes)
                 | Package(elements: seq<Value>)
                 | Reference(node: nat)

  /** No integer in the value is wider than the mode. */
  predicate Masked(v: Value, mask: bv64) {
    match v
    case Integer(n) => n & mask == n
    case Package(elements) => forall i :: 0 <= i < |elements| ==> Masked(elements[i], mask)
    case _ => true
  }

  predicate AllMasked(vs: seq<Value>, mask: bv64) {
    forall i :: 0 <= i < |vs| ==> Masked(vs[i], mask)
  }

  function Cut(n: bv64, mask: bv64): (v: Value)
    ensures Masked(v, mask)
  {
    MaskTwice(n, mask);
    Integer(n & mask)
  }

  lemma MaskTwice(n: bv64, mask: bv64)
    ensures (n & mask) & mask == n & mask
  {
  }

  function Word(bytes: Bytes): bv64 {
    if bytes == [] then 0 else (bytes[0] as bv64) | (Word(bytes[1..]) << 8)
  }

  /** The value of an integer constant. */
  function Literal(aml: Bytes, mask: bv64): bv64
    requires LiteralSpan(aml).Some?
  {
    if aml[0] == 0x00 then 0
    else if aml[0] == 0x01 then 1
    else if aml[0] == 0xff then mask
    else Word(aml[1..LiteralSpan(aml).value])
  }

  function Width(mask: bv64): nat {
    if mask == MASK32 then 4 else 8
  }

  function Digit(c: byte, base: nat): (d: nat)
    ensures d <= 16
  {
    if 48 <= c <= 57 then c - 48
    else if base == 16 && 65 <= c <= 70 then c - 55
    else if base == 16 && 97 <= c <= 102 then c - 87
    else 16
  }

  /** Digits up to the first byte that is not one. */
  function Digits(text: Bytes, base: nat, mask: bv64, sum: bv64): bv64
    requires base == 10 || base == 16
  {
    if text == [] || Digit(text[0], base) == 16 then sum
    else Digits(text[1..], base, mask, (sum * (base as bv64) + (Digit(text[0], base) as bv64)) & mask)
  }

  function TextInteger(text: Bytes, mask: bv64): bv64 {
    if |text| >= 2 && text[0] == 48 && (text[1] == 120 || text[1] == 88) then Digits(text[2..], 16, mask, 0)
    else Digits(text, 10, mask, 0)
  }

  function ToInteger(v: Value, mask: bv64): Option<bv64> {
    match v
    case Integer(n) => Some(n & mask)
    case Buffer(bytes) => Some(Word(if |bytes| < Width(mask) then bytes else bytes[..Width(mask)]) & mask)
    case Text(text) => Some(TextInteger(text, mask))
    case _ => None
  }

  predicate IsArithmetic(op: byte) {
    op in {0x72, 0x74, 0x77, 0x79, 0x7a, 0x7b, 0x7c, 0x7d, 0x7e, 0x7f, 0x85}
  }

  predicate IsLogical(op: byte) {
    op in {0x90, 0x91, 0x93, 0x94, 0x95}
  }

  function ShiftedLeft(a: bv64, b: bv64): bv64 {
    if b >= 64 then 0 else a << b
  }

  function ShiftedRight(a: bv64, b: bv64): bv64 {
    if b >= 64 then 0 else a >> b
  }

  function Truth(b: bool): bv64 {
    if b then 1 else 0
  }

  function Complement(n: bv64): bv64 {
    !n
  }

  /** One more or one less. */
  function Stepped(n: bv64, up: bool): bv64 {
    if up then n + 1 else n - 1
  }

  /** A two-operand operator on machine words; only a remainder by zero fails. */
  function Combine(op: byte, a: bv64, b: bv64): Option<bv64> {
    match op
    case 0x72 => Some(a + b)
    case 0x74 => Some(a - b)
    case 0x77 => Some(a * b)
    case 0x79 => Some(ShiftedLeft(a, b))
    case 0x7a => Some(ShiftedRight(a, b))
    case 0x7b => Some(a & b)
    case 0x7c => Some(!(a & b))
    case 0x7d => Some(a | b)
    case 0x7e => Some(!(a | b))
    case 0x7f => Some(a ^ b)
    case 0x85 => if b == 0 then None else Some(a % b)
    case 0x90 => Some(Truth(a != 0 && b != 0))
    case 0x91 => Some(Truth(a != 0 || b != 0))
    case 0x93 => Some(Truth(a == b))
    case 0x94 => Some(Truth(a > b))
    case 0x95 => Some(Truth(a < b))
    case _ => None
  }

  function WordBytes(n: bv64, count: nat): (bytes: Bytes)
    ensures |bytes| == count
  {
    if count == 0 then [] else [(n & 0xff) as nat] + WordBytes(n >> 8, count - 1)
  }

  /** A length as a word. */
  function Low(n: nat): bv64 {
    (n % 0x1_0000_0000) as bv64
  }

  function Quotient(a: bv64, b: bv64): bv64
    requires b != 0
  {
    a / b
  }

  function Remainder(a: bv64, b: bv64): bv64
    requires b != 0
  {
    a % b
  }

  /** The bytes given, cut or padded with zeros. */
  function Filled(bytes: Bytes, size: nat): (r: Bytes)
    ensures |r| == size
  {
    if |bytes| >= size then bytes[..size] else bytes + seq(size - |bytes|, _ => 0)
  }
}
