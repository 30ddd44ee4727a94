/** What AML means, without budgets, frames or a machine: a reference for the evaluator.
    `fuel` bounds calls, loop turns and first reads; an answer that needs more is None. */
module AmlMeaning {
  import opened Options
  import opened AmlNamespace
  import opened AmlTerms
  import opened AmlValues

  const MAX_CALLS: nat := 16
  const MAX_DYNAMIC: nat := 48
  const MAX_BUFFER: bv64 := 0x10_0000
  const MAX_PACKAGE: bv64 := 1024
  const LINUX: Bytes := [76, 105, 110, 117, 120]

  // ----- aliases -----

  /** A namespace whose nodes hold what their kinds promise. */
  ghost predicate WellFormed(t: Nodes) {
    && Ordered(t) && t[0].kind == Root
    && forall i :: 0 <= i < |t| ==>
         && (t[i].kind == Alias ==> t[i].content.AliasObject? && IsScope(t, t[i].content.target))
         && (IsMethod(t[i]) ==> t[i].content.MethodObject? && t[i].content.arguments <= 7)
         && (t[i].kind == NativeMethod ==> t[i].content.arguments == 1)
         && (t[i].kind == Name ==> t[i].content.NameObject?)
  }

  function ResolveEncoded(t: Nodes, scope: nat, source: Bytes): (h: nat)
    requires Ordered(t) && IsScope(t, scope)
    ensures IsScope(t, h)
  {
    var p := ParseName(source);
    if p.None? || p.value.1 != |source| then INVALID else Resolved(t, scope, p.value.0)
  }

  /** Follow aliases, but not for ever. */
  function AliasTarget(t: Nodes, h: nat, hops: nat): (r: nat)
    requires WellFormed(t) && IsScope(t, h)
    ensures IsScope(t, r)
    decreases hops
  {
    if hops == 0 then INVALID
    else if h >= |t| || t[h].kind != Alias then h
    else
      var alias := t[h].content;
      var target := if alias.target != INVALID then alias.target
                    else ResolveEncoded(t, t[h].parent, alias.source);
      if target == INVALID then INVALID else AliasTarget(t, target, hops - 1)
  }

  function Real(t: Nodes, h: nat): (r: nat)
    requires WellFormed(t) && IsScope(t, h)
    ensures IsScope(t, r)
  {
    AliasTarget(t, h, MAX_CALLS)
  }

  // ----- states -----

  /** Where names are looked up, and how wide integers are. */
  datatype Env = Env(t: Nodes, mask: bv64, scope: nat)

  ghost predicate EnvValid(e: Env) {
    WellFormed(e.t) && Ordered(e.t) && e.scope < |e.t|
  }

  /** One method's slots and local objects, and the named objects all methods share. */
  datatype State = State(locals: seq<Value>, arguments: seq<Value>, dynamic: map<u32, Value>, objects: map<nat, Value>)

  predicate Sized(st: State) {
    |st.locals| == 8 && |st.arguments| == 7
  }

  function Fresh(objects: map<nat, Value>): (st: State)
    ensures Sized(st)
  {
    State(seq(8, _ => Nothing), seq(7, _ => Nothing), map[], objects)
  }

  datatype Outcome = Outcome(value: Value, used: nat, state: State)

  /** How a block ends. */
  datatype Flow = Next | Return(value: Value) | Break | Continue

  // ----- places -----

  /** Where a result goes. */
  datatype Place = Nowhere | Local(i: nat) | Argument(i: nat) | Dynamic(name: u32) | AtNode(h: nat)

  function TargetOf(e: Env, names: set<u32>, aml: Bytes): (r: Option<(Place, nat)>)
    requires EnvValid(e)
    ensures r.Some? ==> 0 < r.value.1 <= |aml| && IsPlace(e, names, r.value.0)
  {
    if aml == [] then None
    else if aml[0] == 0 then Some((Nowhere, 1))
    else if 0x60 <= aml[0] <= 0x67 then Some((Local(aml[0] - 0x60), 1))
    else if 0x68 <= aml[0] <= 0x6e then Some((Argument(aml[0] - 0x68), 1))
    else if aml[0] == 0x88 then None
    else
      var p :- ParseName(aml);
      if IsSingle(p.0) && p.0.segments[0] in names then Some((Dynamic(p.0.segments[0]), p.1))
      else
        var h := Resolved(e.t, e.scope, p.0);
        if h == INVALID then None else Some((AtNode(h), p.1))
  }

  predicate IsPlace(e: Env, names: set<u32>, place: Place) {
    match place
    case Nowhere => true
    case Local(i) => i < 8
    case Argument(i) => i < 7
    case Dynamic(n) => n in names
    case AtNode(h) => h < |e.t|
  }

  function Put(e: Env, st: State, place: Place, v: Value): (r: Option<State>)
    requires EnvValid(e) && Sized(st) && IsPlace(e, st.dynamic.Keys, place)
    ensures r.Some? ==> Sized(r.value) && r.value.dynamic.Keys == st.dynamic.Keys
  {
    match place
    case Nowhere => Some(st)
    case Local(i) => Some(st.(locals := st.locals[i := v]))
    case Argument(i) => Some(st.(arguments := st.arguments[i := v]))
    case Dynamic(n) => Some(st.(dynamic := st.dynamic[n := v]))
    case AtNode(h) =>
      var node := Real(e.t, h);
      if node == INVALID || e.t[node].kind != Name then None else Some(st.(objects := st.objects[node := v]))
  }

  function Get(e: Env, st: State, place: Place, fuel: nat): (r: Option<(Value, State)>)
    requires EnvValid(e) && Sized(st) && IsPlace(e, st.dynamic.Keys, place)
    ensures r.Some? ==> SameFrame(r.value.1, st)
    decreases fuel, 0, 2
  {
    match place
    case Nowhere => None
    case Local(i) => Some((st.locals[i], st))
    case Argument(i) => Some((st.arguments[i], st))
    case Dynamic(n) => Some((st.dynamic[n], st))
    case AtNode(h) =>
      var r :- NodeValue(e, h, st.objects, fuel);
      Some((r.0, st.(objects := r.1)))
  }

  predicate SameFrame(a: State, b: State) {
    a.locals == b.locals && a.arguments == b.arguments && a.dynamic == b.dynamic
  }

  /** A named object is given its value when first read; any other node stands for itself. */
  function NodeValue(e: Env, h: nat, objects: map<nat, Value>, fuel: nat): Option<(Value, map<nat, Value>)>
    requires EnvValid(e) && IsScope(e.t, h)
    decreases fuel, 0, 1
  {
    var node := Real(e.t, h);
    if node == INVALID || e.t[node].kind in {Field, IndexField, BankField} then None
    else if e.t[node].kind != Name then Some((Reference(node), objects))
    else if node in objects then Some((objects[node], objects))
    else Initial(e, node, objects, fuel)
  }

  /** The value of a named object that has none yet. */
  function Initial(e: Env, node: nat, objects: map<nat, Value>, fuel: nat): Option<(Value, map<nat, Value>)>
    requires EnvValid(e) && node < |e.t| && e.t[node].kind == Name
    decreases fuel, 0, 0
  {
    var expression := e.t[node].content.expression;
    if expression == [] || fuel == 0 then None
    else
      var m :- Meaning(e.(scope := e.t[node].parent), expression, Fresh(objects), fuel - 1);
      if m.used != |expression| then None else Some((m.value, m.state.objects[node := m.value]))
  }

  function Follow(e: Env, v: Value, st: State, fuel: nat): (r: Option<(Value, State)>)
    requires EnvValid(e)
    ensures r.Some? ==> SameFrame(r.value.1, st)
    decreases fuel, 0, 2
  {
    if !v.Reference? then Some((v, st))
    else if v.node >= |e.t| then None
    else
      var r :- NodeValue(e, v.node, st.objects, fuel);
      Some((r.0, st.(objects := r.1)))
  }

  function Number(e: Env, v: Value, st: State, fuel: nat): (r: Option<(bv64, State)>)
    requires EnvValid(e)
    ensures r.Some? ==> SameFrame(r.value.1, st)
    decreases fuel, 0, 3
  {
    var d :- Follow(e, v, st, fuel);
    var n :- ToInteger(d.0, e.mask);
    Some((n, d.1))
  }

  // ----- terms -----

  predicate IsData(aml: Bytes) {
    LiteralSpan(aml).Some? || (aml != [] && (IsSlot(aml[0]) || aml[0] == 0x0d))
  }

  /** A meaning takes bytes that are there, and local objects are never dropped. */
  ghost predicate Fits(r: Option<Outcome>, aml: Bytes, st: State) {
    r.Some? ==> 0 < r.value.used <= |aml| && Sized(r.value.state) && Grows(st, r.value.state)
  }

  predicate Grows(a: State, b: State) {
    a.dynamic.Keys <= b.dynamic.Keys
  }

  function Data(e: Env, aml: Bytes, st: State): (r: Option<Outcome>)
    requires Sized(st) && IsData(aml)
    ensures Fits(r, aml, st)
  {
    if LiteralSpan(aml).Some? then Some(Outcome(Cut(Literal(aml, e.mask), e.mask), LiteralSpan(aml).value, st))
    else if 0x60 <= aml[0] <= 0x67 then Some(Outcome(st.locals[aml[0] - 0x60], 1, st))
    else if IsSlot(aml[0]) then Some(Outcome(st.arguments[aml[0] - 0x68], 1, st))
    else
      var end :- StringSpan(aml, 1);
      Some(Outcome(Text(aml[1..end - 1]), end, st))
  }

  function Meaning(e: Env, aml: Bytes, st: State, fuel: nat): (r: Option<Outcome>)
    requires EnvValid(e) && Sized(st)
    ensures Fits(r, aml, st)
    decreases fuel, |aml|, 9
  {
    if aml == [] then None
    else if IsData(aml) then Data(e, aml, st)
    else if aml[0] == 0x11 then BufferTerm(e, aml, st, fuel)
    else if aml[0] == 0x12 || aml[0] == 0x13 then PackageTerm(e, aml, st, fuel)
    else if aml[0] == 0x08 then NameTerm(e, aml, st, fuel)
    else if aml[0] == 0xa3 then Some(Outcome(Cut(0, e.mask), 1, st))
    else if NameStarts(aml) then NamedTerm(e, aml, st, fuel)
    else OperatorTerm(e, aml, st, fuel)
  }

  function OperatorTerm(e: Env, aml: Bytes, st: State, fuel: nat): (r: Option<Outcome>)
    requires EnvValid(e) && Sized(st) && aml != []
    ensures Fits(r, aml, st)
    decreases fuel, |aml|, 8
  {
    var op := aml[0];
    if op == 0x70 || op == 0x9d then StoreTerm(e, aml, st, fuel)
    else if op == 0x83 then DereferenceTerm(e, aml, st, fuel)
    else if op == 0x75 || op == 0x76 then CountTerm(e, aml, st, fuel)
    else if IsArithmetic(op) then ArithmeticTerm(e, aml, st, fuel)
    else if IsLogical(op) then LogicalTerm(e, aml, st, fuel)
    else if op == 0x78 then DivideTerm(e, aml, st, fuel)
    else if op == 0x80 then NotTerm(e, aml, st, fuel)
    else if op == 0x92 then LogicalNotTerm(e, aml, st, fuel)
    else if op == 0x87 then SizeTerm(e, aml, st, fuel)
    else if op == 0x96 || op == 0x99 then ConversionTerm(e, aml, st, fuel)
    else None
  }

  /** Put a result where the target at `at` says. */
  function Stored(e: Env, aml: Bytes, at: nat, st: State, v: Value): (r: Option<Outcome>)
    requires EnvValid(e) && Sized(st) && 0 < at <= |aml|
    ensures Fits(r, aml, st)
  {
    var p :- TargetOf(e, st.dynamic.Keys, aml[at..]);
    var w :- Put(e, st, p.0, v);
    Some(Outcome(v, at + p.1, w))
  }

  function StoreTerm(e: Env, aml: Bytes, st: State, fuel: nat): (r: Option<Outcome>)
    requires EnvValid(e) && Sized(st) && aml != []
    ensures Fits(r, aml, st)
    decreases fuel, |aml|, 7
  {
    var s :- Meaning(e, aml[1..], st, fuel);
    var d :- Follow(e, s.value, s.state, fuel);
    Stored(e, aml, 1 + s.used, d.1, d.0)
  }

  function DereferenceTerm(e: Env, aml: Bytes, st: State, fuel: nat): (r: Option<Outcome>)
    requires EnvValid(e) && Sized(st) && aml != []
    ensures Fits(r, aml, st)
    decreases fuel, |aml|, 7
  {
    var s :- Meaning(e, aml[1..], st, fuel);
    var d :- Follow(e, s.value, s.state, fuel);
    Some(Outcome(d.0, 1 + s.used, d.1))
  }

  function CountTerm(e: Env, aml: Bytes, st: State, fuel: nat): (r: Option<Outcome>)
    requires EnvValid(e) && Sized(st) && aml != []
    ensures Fits(r, aml, st)
    decreases fuel, |aml|, 7
  {
    var p :- TargetOf(e, st.dynamic.Keys, aml[1..]);
    var g :- Get(e, st, p.0, fuel);
    var n :- Number(e, g.0, g.1, fuel);
    var v := Cut(Stepped(n.0, aml[0] == 0x75), e.mask);
    var w :- Put(e, n.1, p.0, v);
    Some(Outcome(v, 1 + p.1, w))
  }

  /** Two integer operands: the values, the bytes they took, and the state after. */
  function Operands(e: Env, aml: Bytes, st: State, fuel: nat): (r: Option<(bv64, bv64, nat, nat, State)>)
    requires EnvValid(e) && Sized(st) && aml != []
    ensures r.Some? ==>
              0 < r.value.2 && 0 < r.value.3 && 1 + r.value.2 + r.value.3 <= |aml| && Sized(r.value.4)
              && Grows(st, r.value.4)
    decreases fuel, |aml|, 6
  {
    var s :- Meaning(e, aml[1..], st, fuel);
    var a :- Number(e, s.value, s.state, fuel);
    var u :- Meaning(e, aml[1 + s.used..], a.1, fuel);
    var b :- Number(e, u.value, u.state, fuel);
    Some((a.0, b.0, s.used, u.used, b.1))
  }

  function ArithmeticTerm(e: Env, aml: Bytes, st: State, fuel: nat): (r: Option<Outcome>)
    requires EnvValid(e) && Sized(st) && aml != []
    ensures Fits(r, aml, st)
    decreases fuel, |aml|, 7
  {
    var o :- Operands(e, aml, st, fuel);
    var n :- Combine(aml[0], o.0, o.1);
    Stored(e, aml, 1 + o.2 + o.3, o.4, Cut(n, e.mask))
  }

  function LogicalTerm(e: Env, aml: Bytes, st: State, fuel: nat): (r: Option<Outcome>)
    requires EnvValid(e) && Sized(st) && aml != []
    ensures Fits(r, aml, st)
    decreases fuel, |aml|, 7
  {
    var o :- Operands(e, aml, st, fuel);
    var n :- Combine(aml[0], o.0, o.1);
    Some(Outcome(Cut(n, e.mask), 1 + o.2 + o.3, o.4))
  }

  function PutBoth(e: Env, st: State, p: Place, v: Value, q: Place, u: Value): (r: Option<State>)
    requires EnvValid(e) && Sized(st) && IsPlace(e, st.dynamic.Keys, p) && IsPlace(e, st.dynamic.Keys, q)
    ensures r.Some? ==> Sized(r.value) && r.value.dynamic.Keys == st.dynamic.Keys
  {
    var w :- Put(e, st, p, v);
    Put(e, w, q, u)
  }

  /** The first place takes the remainder, the second the quotient. */
  function DivideTerm(e: Env, aml: Bytes, st: State, fuel: nat): (r: Option<Outcome>)
    requires EnvValid(e) && Sized(st) && aml != []
    ensures Fits(r, aml, st)
    decreases fuel, |aml|, 7
  {
    var o :- Operands(e, aml, st, fuel);
    if o.1 == 0 then None
    else
      var names, at := o.4.dynamic.Keys, 1 + o.2 + o.3;
      var p :- TargetOf(e, names, aml[at..]);
      var q :- TargetOf(e, names, aml[at + p.1..]);
      var x :- PutBoth(e, o.4, p.0, Cut(Remainder(o.0, o.1), e.mask), q.0, Cut(Quotient(o.0, o.1), e.mask));
      Some(Outcome(Cut(Quotient(o.0, o.1), e.mask), at + p.1 + q.1, x))
  }

  function NotTerm(e: Env, aml: Bytes, st: State, fuel: nat): (r: Option<Outcome>)
    requires EnvValid(e) && Sized(st) && aml != []
    ensures Fits(r, aml, st)
    decreases fuel, |aml|, 7
  {
    var s :- Meaning(e, aml[1..], st, fuel);
    var n :- Number(e, s.value, s.state, fuel);
    Stored(e, aml, 1 + s.used, n.1, Cut(Complement(n.0), e.mask))
  }

  function LogicalNotTerm(e: Env, aml: Bytes, st: State, fuel: nat): (r: Option<Outcome>)
    requires EnvValid(e) && Sized(st) && aml != []
    ensures Fits(r, aml, st)
    decreases fuel, |aml|, 7
  {
    var s :- Meaning(e, aml[1..], st, fuel);
    var n :- Number(e, s.value, s.state, fuel);
    Some(Outcome(Cut(Truth(n.0 == 0), e.mask), 1 + s.used, n.1))
  }

  function Size(v: Value, mask: bv64): Option<bv64> {
    match v
    case Nothing => None
    case Text(bytes) => Some(Low(|bytes|))
    case Buffer(bytes) => Some(Low(|bytes|))
    case Package(elements) => Some(Low(|elements|))
    case Integer(_) => Some(if mask == MASK32 then 4 else 8)
    case Reference(_) => Some(0)
  }

  function SizeTerm(e: Env, aml: Bytes, st: State, fuel: nat): (r: Option<Outcome>)
    requires EnvValid(e) && Sized(st) && aml != []
    ensures Fits(r, aml, st)
    decreases fuel, |aml|, 7
  {
    var p :- TargetOf(e, st.dynamic.Keys, aml[1..]);
    var g :- Get(e, st, p.0, fuel);
    var d :- Follow(e, g.0, g.1, fuel);
    var n :- Size(d.0, e.mask);
    Some(Outcome(Cut(n, e.mask), 1 + p.1, d.1))
  }

  /** To an integer, or to a buffer of a value's bytes; text keeps its terminator. */
  function Converted(v: Value, toInteger: bool, mask: bv64): (r: Option<Value>)
    ensures r.Some? ==> Masked(r.value, mask)
  {
    if toInteger then
      var n :- ToInteger(v, mask);
      Some(Cut(n, mask))
    else
      match v
      case Buffer(_) => Some(v)
      case Integer(n) => Some(Buffer(WordBytes(n, Width(mask))))
      case Text(bytes) => Some(Buffer(bytes + [0]))
      case _ => None
  }

  function ConversionTerm(e: Env, aml: Bytes, st: State, fuel: nat): (r: Option<Outcome>)
    requires EnvValid(e) && Sized(st) && aml != []
    ensures Fits(r, aml, st)
    decreases fuel, |aml|, 7
  {
    var s :- Meaning(e, aml[1..], st, fuel);
    var d :- Follow(e, s.value, s.state, fuel);
    var v :- Converted(d.0, aml[0] == 0x99, e.mask);
    Stored(e, aml, 1 + s.used, d.1, v)
  }

  function NameTerm(e: Env, aml: Bytes, st: State, fuel: nat): (r: Option<Outcome>)
    requires EnvValid(e) && Sized(st) && aml != []
    ensures Fits(r, aml, st)
    decreases fuel, |aml|, 7
  {
    var p :- ParseName(aml[1..]);
    if !IsSingle(p.0) || p.0.segments[0] == 0 then None
    else
      var s :- Meaning(e, aml[1 + p.1..], st, fuel);
      Some(Outcome(Cut(0, e.mask), 1 + p.1 + s.used, s.state.(dynamic := s.state.dynamic[p.0.segments[0] := s.value])))
  }

  function BufferTerm(e: Env, aml: Bytes, st: State, fuel: nat): (r: Option<Outcome>)
    requires EnvValid(e) && Sized(st) && aml != []
    ensures Fits(r, aml, st)
    decreases fuel, |aml|, 7
  {
    var p :- PackageSpan(aml[1..]);
    var start, end := 1 + p.0, 1 + p.1;
    var s :- Meaning(e, aml[start..end], st, fuel);
    var n :- Number(e, s.value, s.state, fuel);
    if n.0 > MAX_BUFFER then None
    else Some(Outcome(Buffer(Filled(aml[start + s.used..end], n.0 as nat)), end, n.1))
  }

  function PackageTerm(e: Env, aml: Bytes, st: State, fuel: nat): (r: Option<Outcome>)
    requires EnvValid(e) && Sized(st) && aml != []
    ensures Fits(r, aml, st)
    decreases fuel, |aml|, 7
  {
    var p :- PackageSpan(aml[1..]);
    var start, end := 1 + p.0, 1 + p.1;
    var c :- PackageCount(e, aml[..end], start, st, fuel);
    if c.0 > MAX_PACKAGE then None
    else
      var x :- Elements(e, aml[c.1..end], c.2, c.0 as nat, fuel);
      Some(Outcome(Package(x.0), end, x.1))
  }

  function PackageCount(e: Env, aml: Bytes, start: nat, st: State, fuel: nat): (r: Option<(bv64, nat, State)>)
    requires EnvValid(e) && Sized(st) && 0 < start <= |aml|
    ensures r.Some? ==> start < r.value.1 <= |aml| && Sized(r.value.2) && Grows(st, r.value.2)
    decreases fuel, |aml|, 5
  {
    if aml[0] == 0x12 then
      if start == |aml| then None else Some((aml[start] as bv64, start + 1, st))
    else
      var s :- Meaning(e, aml[start..], st, fuel);
      var n :- Number(e, s.value, s.state, fuel);
      Some((n.0, start + s.used, n.1))
  }

  /** Elements while there are bytes and room; the rest are empty. */
  function Elements(e: Env, aml: Bytes, st: State, room: nat, fuel: nat): (r: Option<(seq<Value>, State)>)
    requires EnvValid(e) && Sized(st)
    ensures r.Some? ==> |r.value.0| == room && Sized(r.value.1) && Grows(st, r.value.1)
    decreases fuel, |aml|, 10
  {
    if room == 0 || aml == [] then Some((seq(room, _ => Nothing), st))
    else
      var s :- Meaning(e, aml, st, fuel);
      var x :- Elements(e, aml[s.used..], s.state, room - 1, fuel);
      Some(([s.value] + x.0, x.1))
  }

  // ----- names and methods -----

  function NamedTerm(e: Env, aml: Bytes, st: State, fuel: nat): (r: Option<Outcome>)
    requires EnvValid(e) && Sized(st) && aml != []
    ensures Fits(r, aml, st)
    decreases fuel, |aml|, 8
  {
    var p :- ParseName(aml);
    if IsSingle(p.0) && p.0.segments[0] in st.dynamic then Some(Outcome(st.dynamic[p.0.segments[0]], p.1, st))
    else
      var h := Real(e.t, Resolved(e.t, e.scope, p.0));
      if h == INVALID then None
      else if IsMethod(e.t[h]) then
        var a :- Arguments(e, aml, p.1, Arity(e.t, h), st, fuel);
        var c :- Call(e, h, a.0, a.2.objects, fuel);
        Some(Outcome(c.0, a.1, a.2.(objects := c.1)))
      else
        var v :- NodeValue(e, h, st.objects, fuel);
        Some(Outcome(v.0, p.1, st.(objects := v.1)))
  }

  function Arguments(e: Env, aml: Bytes, start: nat, count: nat, st: State,
                     fuel: nat): (r: Option<(seq<Value>, nat, State)>)
    requires EnvValid(e) && Sized(st) && 0 < start <= |aml|
    ensures r.Some? ==> |r.value.0| == count && start <= r.value.1 <= |aml| && Sized(r.value.2) && Grows(st, r.value.2)
    decreases fuel, |aml|, 7, count
  {
    if count == 0 then Some(([], start, st))
    else
      var s :- Meaning(e, aml[start..], st, fuel);
      var x :- Arguments(e, aml, start + s.used, count - 1, s.state, fuel);
      Some(([s.value] + x.0, x.1, x.2))
  }

  /** A method runs on slots of its own; only the named objects come back changed. */
  function Call(e: Env, h: nat, arguments: seq<Value>, objects: map<nat, Value>, fuel: nat): Option<(Value, map<nat,
      Value>)>
    requires EnvValid(e) && h < |e.t| && IsMethod(e.t[h]) && |arguments| == Arity(e.t, h)
    decreases fuel, 0, 4
  {
    if e.t[h].kind == NativeMethod then
      var v :- Supported(arguments, e.mask);
      Some((v, objects))
    else if fuel == 0 || |arguments| > 7 then None
    else
      var inner := e.(scope := h);
      var b :- Block(inner, Body(e.t, h), Fresh(objects).(arguments := Padded(arguments)), fuel - 1);
      if b.1.Return? then
        var d :- Follow(inner, b.1.value, b.0, fuel - 1);
        Some((d.0, d.1.objects))
      else Some((Cut(0, e.mask), b.0.objects))
  }

  function Padded(arguments: seq<Value>): (r: seq<Value>)
    requires |arguments| <= 7
    ensures |r| == 7
  {
    arguments + seq(7 - |arguments|, _ => Nothing)
  }

  function Body(t: Nodes, h: nat): Bytes
    requires h < |t|
  {
    if t[h].content.MethodObject? then t[h].content.body else []
  }

  /** The one operating system this claims to be. */
  function Supported(arguments: seq<Value>, mask: bv64): (v: Option<Value>)
    ensures v.Some? ==> Masked(v.value, mask)
  {
    if arguments == [] || !arguments[0].Text? then None
    else Some(Cut(if arguments[0].bytes == LINUX then mask else 0, mask))
  }

  // ----- blocks -----

  /** A condition at the front of a body: whether it holds, and the statements behind it. */
  function Condition(e: Env, body: Bytes, st: State, fuel: nat): (r: Option<(bool, Bytes, State)>)
    requires EnvValid(e) && Sized(st)
    ensures r.Some? ==> |r.value.1| < |body| && Sized(r.value.2)
    decreases fuel, |body|, 10
  {
    var s :- Meaning(e, body, st, fuel);
    var n :- Number(e, s.value, s.state, fuel);
    Some((n.0 != 0, body[s.used..], n.1))
  }

  function Block(e: Env, code: Bytes, st: State, fuel: nat): (r: Option<(State, Flow)>)
    requires EnvValid(e) && Sized(st)
    ensures r.Some? ==> Sized(r.value.0)
    decreases fuel, |code|, 11
  {
    if code == [] then Some((st, Next))
    else if code[0] == 0xa4 then
      if |code| == 1 then Some((st, Return(Cut(0, e.mask))))
      else
        var s :- Meaning(e, code[1..], st, fuel);
        Some((s.state, Return(s.value)))
    else if code[0] == 0xa5 then Some((st, Break))
    else if code[0] == 0x9f then Some((st, Continue))
    else if code[0] == 0xa1 then None
    else
      var s :- Statement(e, code, st, fuel);
      if s.1 != Next then Some((s.0, s.1)) else Block(e, code[s.2..], s.0, fuel)
  }

  /** One statement that does not itself end the block: the state, the flow and the bytes taken. */
  function Statement(e: Env, code: Bytes, st: State, fuel: nat): (r: Option<(State, Flow, nat)>)
    requires EnvValid(e) && Sized(st) && code != []
    ensures r.Some? ==> Sized(r.value.0) && 0 < r.value.2 <= |code|
    decreases fuel, |code|, 10
  {
    if code[0] == 0xa0 then IfStatement(e, code, st, fuel)
    else if code[0] == 0xa2 then
      var p :- PackageSpan(code[1..]);
      var x :- Loop(e, code[1 + p.0..1 + p.1], st, fuel);
      Some((x.0, x.1, 1 + p.1))
    else
      var s :- Meaning(e, code, st, fuel);
      Some((s.state, Next, s.used))
  }

  function IfStatement(e: Env, code: Bytes, st: State, fuel: nat): (r: Option<(State, Flow, nat)>)
    requires EnvValid(e) && Sized(st) && code != []
    ensures r.Some? ==> Sized(r.value.0) && 0 < r.value.2 <= |code|
    decreases fuel, |code|, 9
  {
    var p :- PackageSpan(code[1..]);
    var c :- Condition(e, code[1 + p.0..1 + p.1], st, fuel);
    var x :- if c.0 then Block(e, c.1, c.2, fuel) else Some((c.2, Next));
    var end := 1 + p.1;
    if end == |code| || code[end] != 0xa1 then Some((x.0, x.1, end))
    else
      var q :- PackageSpan(code[end + 1..]);
      var y :- if c.0 then Some(x) else Block(e, code[end + 1 + q.0..end + 1 + q.1], c.2, fuel);
      Some((y.0, y.1, end + 1 + q.1))
  }

  /** Test, run, and test again. */
  function Loop(e: Env, body: Bytes, st: State, fuel: nat): (r: Option<(State, Flow)>)
    requires EnvValid(e) && Sized(st)
    ensures r.Some? ==> Sized(r.value.0) && (r.value.1.Next? || r.value.1.Return?)
    decreases fuel, |body|, 12
  {
    var c :- Condition(e, body, st, fuel);
    if !c.0 then Some((c.2, Next))
    else
      var x :- Block(e, c.1, c.2, fuel);
      if x.1.Return? then Some(x)
      else if x.1.Break? then Some((x.0, Next))
      else if fuel == 0 then None
      else Loop(e, body, x.0, fuel - 1)
  }
}
