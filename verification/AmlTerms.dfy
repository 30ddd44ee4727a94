/** The length of an AML term, found without evaluating it. */
module AmlTerms {
  import opened Options
  import opened AmlNamespace

  type Bytes = seq<byte>

  const MAX_DEPTH: nat := 16

  // ----- encodings -----

  /** PkgLength: how many bytes encode it and what it says. */
  function PackageLength(aml: Bytes): (r: Option<(nat, nat)>)
    ensures r.Some? ==> 0 < r.value.0 <= 4 && r.value.0 <= |aml|
  {
    if aml == [] then None
    else
      var follow := aml[0] / 64;
      if |aml| < follow + 1 then None
      else if follow == 0 then Some((1, aml[0] % 64))
      else Some((follow + 1, aml[0] % 16 + 16 * LittleEndian(aml[1..follow + 1])))
  }

  function LittleEndian(bytes: Bytes): nat {
    if bytes == [] then 0 else bytes[0] as nat + 256 * LittleEndian(bytes[1..])
  }

  /** A package that covers its own length and lies within the bytes. */
  function PackageSpan(aml: Bytes): (r: Option<(nat, nat)>)
    ensures r.Some? ==> 0 < r.value.0 <= r.value.1 <= |aml|
  {
    var p := PackageLength(aml);
    if p.Some? && p.value.0 <= p.value.1 <= |aml| then p else None
  }

  predicate NameLead(b: byte) {
    65 <= b <= 90 || b == 95
  }

  predicate NameTail(b: byte) {
    NameLead(b) || 48 <= b <= 57
  }

  predicate SegmentValid(b: Bytes)
    requires |b| == 4
  {
    NameLead(b[0]) && NameTail(b[1]) && NameTail(b[2]) && NameTail(b[3])
  }

  /** So many name segments at the front of the bytes, packed. */
  function Segments(aml: Bytes, count: nat): (r: Option<seq<u32>>)
    ensures r.Some? ==> 4 * count <= |aml| && |r.value| == count
  {
    if count == 0 then Some([])
    else if |aml| < 4 || !SegmentValid(aml[..4]) then None
    else
      var rest := Segments(aml[4..], count - 1);
      if rest.None? then None else Some([Pack(aml[..4])] + rest.value)
  }

  function Carets(aml: Bytes): (n: nat)
    ensures n <= |aml|
  {
    if aml == [] || aml[0] != 94 then 0 else 1 + Carets(aml[1..])
  }

  /** NameString: a root or parent prefix, then no, one, two or many segments. */
  function ParseName(aml: Bytes): (r: Option<(Path, nat)>)
    ensures r.Some? ==> 0 < r.value.1 <= |aml|
  {
    if aml == [] then None
    else if aml == [92] then Some((Path(true, false, 0, []), 1))
    else
      var start := if aml[0] == 92 then 1 else 0;
      var carets := Carets(aml[start..]);
      var offset := start + carets;
      if carets > 255 || offset == |aml| then None
      else if aml[offset] == 0 then Some((Path(start == 1, true, carets, []), offset + 1))
      else
        var (count, first) :=
          if aml[offset] == 0x2e then (2, offset + 1)
          else if aml[offset] == 0x2f then (if offset + 1 < |aml| then aml[offset + 1] as nat else 0, offset + 2)
          else (1, offset);
        if count == 0 || count > MAX_SEGMENTS then None
        else
          var segments := Segments(aml[first..], count);
          if segments.None? then None else Some((Path(start == 1, false, carets, segments.value), first + 4 * count))
  }

  predicate NameStarts(aml: Bytes) {
    aml != [] && (aml[0] == 92 || aml[0] == 94 || aml[0] == 0x2e || aml[0] == 0x2f || NameLead(aml[0]))
  }

  /** The bytes an integer constant takes, if the term is one. */
  function LiteralSpan(aml: Bytes): (r: Option<nat>)
    ensures r.Some? ==> 0 < r.value <= |aml|
  {
    if aml == [] then None
    else
      var n := match aml[0]
        case 0x00 => 1
        case 0x01 => 1
        case 0x0a => 2
        case 0x0b => 3
        case 0x0c => 5
        case 0x0e => 9
        case 0xff => 1
        case _ => 0;
      if n == 0 || n > |aml| then None else Some(n)
  }

  function StringSpan(aml: Bytes, from: nat): (r: Option<nat>)
    ensures r.Some? ==> from < r.value <= |aml|
    decreases |aml| - from
  {
    if from >= |aml| then None
    else if aml[from] == 0 then Some(from + 1)
    else StringSpan(aml, from + 1)
  }

  // ----- opcodes -----

  predicate IsSlot(b: byte) {
    0x60 <= b <= 0x6e
  }

  /** Terms whose length is the package they open with. */
  predicate IsPackaged(b: byte) {
    b in {0x10, 0x11, 0x12, 0x13, 0x14, 0xa0, 0xa1, 0xa2}
  }

  predicate IsPackagedExt(b: byte) {
    b in {0x81, 0x82, 0x83, 0x84, 0x85, 0x86, 0x87}
  }

  /** What follows an opcode, piece by piece. */
  datatype Part = Term | Target | NameString | OneByte

  function Shape(b: byte): (r: Option<seq<Part>>) {
    if b == 0x70 then Some([Term, Target])
    else if b in {0x71, 0x75, 0x76, 0x87} then Some([Target])
    else if b in {0x72, 0x74, 0x77, 0x79, 0x7a, 0x7b, 0x7c, 0x7d, 0x7e, 0x7f, 0x85, 0x88, 0x9c}
      then Some([Term, Term, Target])
    else if b in {0x80, 0x96, 0x99} then Some([Term, Target])
    else if b == 0x78 then Some([Term, Term, Target, Target])
    else if b in {0x83, 0x92} then Some([Term])
    else if b in {0x90, 0x91, 0x93, 0x94, 0x95} then Some([Term, Term])
    else if b == 0x86 then Some([Target, Term])
    else if b in {0x8a, 0x8b, 0x8c, 0x8d, 0x8f} then Some([Term, Term, NameString])
    else if b in {0xa3, 0xa5, 0x9f} then Some([])
    else None
  }

  function ShapeExt(b: byte): (r: Option<seq<Part>>) {
    if b == 0x01 then Some([NameString, OneByte])
    else if b == 0x02 then Some([NameString])
    else if b == 0x12 then Some([Target, Target])
    else if b == 0x13 then Some([Term, Term, Term, NameString])
    else if b in {0x21, 0x22} then Some([Term])
    else if b == 0x23 then Some([Target, OneByte, OneByte])
    else if b == 0x27 then Some([Target])
    else if b == 0x80 then Some([NameString, OneByte, Term, Term])
    else None
  }

  // ----- the scanner -----

  predicate IsMethod(n: Node) {
    n.kind == Method || n.kind == NativeMethod
  }

  function Arity(t: Nodes, h: nat): nat {
    if h < |t| && IsMethod(t[h]) && t[h].content.MethodObject? then t[h].content.arguments else 0
  }

  function TargetSpan(t: Nodes, scope: nat, aml: Bytes, depth: nat): (r: Option<nat>)
    requires Ordered(t) && IsScope(t, scope)
    ensures r.Some? ==> 0 < r.value <= |aml|
    decreases |aml|, 2
  {
    if aml == [] || depth > MAX_DEPTH then None
    else if aml[0] == 0 || IsSlot(aml[0]) then Some(1)
    else if NameStarts(aml) && ParseName(aml).Some? then Some(ParseName(aml).value.1)
    else if aml[0] == 0x88 then TermSpan(t, scope, aml, depth + 1)
    else None
  }

  function TermSpan(t: Nodes, scope: nat, aml: Bytes, depth: nat): (r: Option<nat>)
    requires Ordered(t) && IsScope(t, scope)
    ensures r.Some? ==> 0 < r.value <= |aml|
    decreases |aml|, 1
  {
    if aml == [] || depth > MAX_DEPTH then None
    else if LiteralSpan(aml).Some? then LiteralSpan(aml)
    else if aml[0] == 0x0d then StringSpan(aml, 1)
    else if IsPackaged(aml[0]) then Packaged(aml, 1)
    else if IsSlot(aml[0]) then Some(1)
    else if Shape(aml[0]).Some? then PartsSpan(t, scope, aml, 1, Shape(aml[0]).value, depth)
    else if aml[0] == 0xa4 then if |aml| == 1 then Some(1) else PartsSpan(t, scope, aml, 1, [Term], depth)
    else if aml[0] == 0x5b then
      if |aml| < 2 then None
      else if IsPackagedExt(aml[1]) then Packaged(aml, 2)
      else if ShapeExt(aml[1]).Some? then PartsSpan(t, scope, aml, 2, ShapeExt(aml[1]).value, depth)
      else None
    else if NameStarts(aml) && ParseName(aml).Some? then
      var (path, used) := ParseName(aml).value;
      PartsSpan(t, scope, aml, used, Terms(Arity(t, Resolved(t, scope, path))), depth)
    else None
  }

  function Packaged(aml: Bytes, start: nat): (r: Option<nat>)
    requires start <= |aml|
    ensures r.Some? ==> start < r.value <= |aml|
  {
    var p := PackageSpan(aml[start..]);
    if p.None? then None else Some(start + p.value.1)
  }

  function Terms(n: nat): (parts: seq<Part>)
    ensures |parts| == n && forall i :: 0 <= i < n ==> parts[i] == Term
  {
    seq(n, _ => Term)
  }

  /** The pieces one after another, the first at `offset`. */
  function PartsSpan(t: Nodes, scope: nat, aml: Bytes, offset: nat, parts: seq<Part>, depth: nat): (r: Option<nat>)
    requires Ordered(t) && IsScope(t, scope) && 0 < offset <= |aml|
    ensures r.Some? ==> offset <= r.value <= |aml|
    decreases |aml|, 0, |parts|
  {
    if parts == [] then Some(offset)
    else
      var rest := aml[offset..];
      var used := match parts[0]
        case Term => TermSpan(t, scope, rest, depth + 1)
        case Target => TargetSpan(t, scope, rest, depth + 1)
        case NameString => if ParseName(rest).Some? then Some(ParseName(rest).value.1) else None
        case OneByte => if rest == [] then None else Some(1);
      if used.None? then None else PartsSpan(t, scope, aml, offset + used.value, parts[1..], depth)
  }

  // ----- what the depth limit does -----

  /** A smaller depth never changes a length, it only allows more of them. */
  lemma {:induction false} TermDepth(t: Nodes, scope: nat, aml: Bytes, d: nat, e: nat)
    requires Ordered(t) && IsScope(t, scope) && e <= d && TermSpan(t, scope, aml, d).Some?
    ensures TermSpan(t, scope, aml, e) == TermSpan(t, scope, aml, d)
    decreases |aml|, 1
  {
    hide Shape, ShapeExt, ParseName, Resolved, PackageSpan, StringSpan, LiteralSpan, IsPackaged, IsPackagedExt,
      NameStarts;
    if LiteralSpan(aml).Some? || aml[0] == 0x0d || IsPackaged(aml[0]) || IsSlot(aml[0]) {
    } else if Shape(aml[0]).Some? {
      PartsDepth(t, scope, aml, 1, Shape(aml[0]).value, d, e);
    } else if aml[0] == 0xa4 {
      if |aml| > 1 {
        PartsDepth(t, scope, aml, 1, [Term], d, e);
      }
    } else if aml[0] == 0x5b {
      if ShapeExt(aml[1]).Some? && !IsPackagedExt(aml[1]) {
        PartsDepth(t, scope, aml, 2, ShapeExt(aml[1]).value, d, e);
      }
    } else {
      var (path, used) := ParseName(aml).value;
      PartsDepth(t, scope, aml, used, Terms(Arity(t, Resolved(t, scope, path))), d, e);
    }
  }

  lemma {:induction false} TargetDepth(t: Nodes, scope: nat, aml: Bytes, d: nat, e: nat)
    requires Ordered(t) && IsScope(t, scope) && e <= d && TargetSpan(t, scope, aml, d).Some?
    ensures TargetSpan(t, scope, aml, e) == TargetSpan(t, scope, aml, d)
    decreases |aml|, 2
  {
    hide ParseName, TermSpan, NameStarts;
    if !IsSlot(aml[0]) && aml[0] == 0x88 && !(NameStarts(aml) && ParseName(aml).Some?) {
      TermDepth(t, scope, aml, d + 1, e + 1);
    }
  }

  lemma {:induction false} PartsDepth(t: Nodes, scope: nat, aml: Bytes, offset: nat, parts: seq<Part>, d: nat, e: nat)
    requires Ordered(t) && IsScope(t, scope) && 0 < offset <= |aml|
    requires e <= d && PartsSpan(t, scope, aml, offset, parts, d).Some?
    ensures PartsSpan(t, scope, aml, offset, parts, e) == PartsSpan(t, scope, aml, offset, parts, d)
    decreases |aml|, 0, |parts|
  {
    hide ParseName, TermSpan, TargetSpan;
    if parts != [] {
      var rest := aml[offset..];
      if parts[0].Term? {
        TermDepth(t, scope, rest, d + 1, e + 1);
        PartsDepth(t, scope, aml, offset + TermSpan(t, scope, rest, d + 1).value, parts[1..], d, e);
      } else if parts[0].Target? {
        TargetDepth(t, scope, rest, d + 1, e + 1);
        PartsDepth(t, scope, aml, offset + TargetSpan(t, scope, rest, d + 1).value, parts[1..], d, e);
      } else if parts[0].NameString? {
        PartsDepth(t, scope, aml, offset + ParseName(rest).value.1, parts[1..], d, e);
      } else {
        PartsDepth(t, scope, aml, offset + 1, parts[1..], d, e);
      }
    }
  }

  // ----- consuming a term piece by piece -----

  /** A consumer that took `used` bytes for a piece agrees with the scanner. */
  ghost predicate Takes(t: Nodes, scope: nat, aml: Bytes, part: Part, used: nat)
    requires Ordered(t) && IsScope(t, scope)
  {
    && used <= |aml|
    && match part
       case Term => TermSpan(t, scope, aml, 0).Some? ==> TermSpan(t, scope, aml, 0).value == used
       case Target => TargetSpan(t, scope, aml, 0).Some? ==> TargetSpan(t, scope, aml, 0).value == used
       case NameString => ParseName(aml).Some? ==> ParseName(aml).value.1 == used
       case OneByte => used == 1
  }

  function Sum(uses: seq<nat>): nat {
    if uses == [] then 0 else uses[0] + Sum(uses[1..])
  }

  ghost predicate AllTake(t: Nodes, scope: nat, aml: Bytes, offset: nat, parts: seq<Part>, uses: seq<nat>)
    requires Ordered(t) && IsScope(t, scope)
    decreases |parts|
  {
    && |parts| == |uses| && offset <= |aml|
    && (parts != [] ==>
          Takes(t, scope, aml[offset..], parts[0], uses[0])
            && AllTake(t, scope, aml, offset + uses[0], parts[1..], uses[1..]))
  }

  /** Agreeing on every piece is agreeing on the whole. */
  lemma {:induction false} PartsTaken(t: Nodes, scope: nat, aml: Bytes, offset: nat, parts: seq<Part>, uses: seq<nat>,
                                      d: nat)
    requires Ordered(t) && IsScope(t, scope) && 0 < offset && AllTake(t, scope, aml, offset, parts, uses)
    ensures PartsSpan(t, scope, aml, offset, parts, d).Some? ==>
              PartsSpan(t, scope, aml, offset, parts, d).value == offset + Sum(uses)
    decreases |parts|
  {
    hide ParseName, TermSpan, TargetSpan;
    if parts != [] {
      var rest := aml[offset..];
      if parts[0].Term? && TermSpan(t, scope, rest, d + 1).Some? {
        TermDepth(t, scope, rest, d + 1, 0);
      } else if parts[0].Target? && TargetSpan(t, scope, rest, d + 1).Some? {
        TargetDepth(t, scope, rest, d + 1, 0);
      }
      PartsTaken(t, scope, aml, offset + uses[0], parts[1..], uses[1..], d);
    }
  }

  lemma {:induction false} TakesMore(t: Nodes, scope: nat, aml: Bytes, offset: nat, parts: seq<Part>, uses: seq<nat>,
                                     part: Part, used: nat)
    requires Ordered(t) && IsScope(t, scope) && AllTake(t, scope, aml, offset, parts, uses)
    requires offset + Sum(uses) + used <= |aml| && Takes(t, scope, aml[offset + Sum(uses)..], part, used)
    ensures AllTake(t, scope, aml, offset, parts + [part], uses + [used])
    ensures Sum(uses + [used]) == Sum(uses) + used
    decreases |parts|
  {
    hide Takes;
    if parts == [] {
      assert AllTake(t, scope, aml, offset + used, [], []);
      assert [part][1..] == [] && [used][1..] == [];
      assert parts + [part] == [part] && uses + [used] == [used];
    } else {
      assert (parts + [part])[1..] == parts[1..] + [part] && (uses + [used])[1..] == uses[1..] + [used];
      TakesMore(t, scope, aml, offset + uses[0], parts[1..], uses[1..], part, used);
    }
  }
}
