/** Evaluating AML: terms, method bodies, and the budgets that end every run. */
module AmlEval {
  import opened Options
  import opened AmlNamespace
  import opened AmlTerms
  import opened AmlValues
  import opened AmlMeaning
  import opened AmlAgreement

  const MAX_OPERATIONS: nat := 1_000_000
  const MAX_LOOPS: nat := 250_000

  // ----- the machine -----

  datatype Result = Failed | Done(value: Value, used: nat)

  /** One method's execution. */
  class Frame {
    const scope: nat
    var locals: seq<Value>
    var arguments: seq<Value>
    var dynamic: map<u32, Value>
    var returned: bool
    var broke: bool
    var continued: bool
    var result: Value

    constructor (scope: nat)
      ensures this.scope == scope && !returned && !broke && !continued && dynamic == map[]
      ensures locals == seq(8, _ => Nothing) && arguments == seq(7, _ => Nothing) && result == Nothing
    {
      this.scope := scope;
      locals := seq(8, _ => Nothing);
      arguments := seq(7, _ => Nothing);
      dynamic := map[];
      returned, broke, continued := false, false, false;
      result := Nothing;
    }

    ghost predicate Valid(mask: bv64)
      reads this`locals, this`arguments, this`dynamic, this`result
    {
      && |locals| == 8 && |arguments| == 7 && |dynamic| <= MAX_DYNAMIC
      && AllMasked(locals, mask) && AllMasked(arguments, mask) && Masked(result, mask)
      && forall n :: n in dynamic ==> Masked(dynamic[n], mask)
    }

    /** Nothing has asked for the block being run to end. */
    ghost predicate Going()
      reads this`returned, this`broke, this`continued
    {
      !returned && !broke && !continued
    }

    /** At most one thing has. */
    ghost predicate Orderly()
      reads this`returned, this`broke, this`continued
    {
      !(returned && broke) && !(returned && continued) && !(broke && continued)
    }

    /** How the block being run is to end. */
    ghost function Ending(): Flow
      reads this`returned, this`broke, this`continued, this`result
    {
      if returned then Return(result) else if broke then Break else if continued then Continue else Next
    }
  }

  class Machine {
    const nodes: Nodes
    const mask: bv64
    /** The named objects that have a value, and those being given one. */
    var values: map<nat, Value>
    var initializing: set<nat>
    var operations: nat
    var loops: nat
    var depth: nat

    ghost predicate Valid()
      reads this`values, this`depth
    {
      && WellFormed(nodes) && Ordered(nodes) && depth <= MAX_CALLS && (mask == MASK32 || mask == MASK64)
      && forall h :: h in values ==> Masked(values[h], mask)
    }

    function EnvOf(frame: Frame): Env {
      Env(nodes, mask, frame.scope)
    }

    /** The state the meaning of a term is about. */
    ghost function Snap(frame: Frame): State
      reads this`values, frame`locals, frame`arguments, frame`dynamic
    {
      State(frame.locals, frame.arguments, frame.dynamic, values)
    }

    ghost predicate Ready(frame: Frame): (ready: bool)
      reads this`values, this`depth, frame`locals, frame`arguments, frame`dynamic, frame`result
      ensures ready ==>
                Valid() && frame.Valid(mask) && EnvValid(EnvOf(frame)) && frame.scope < |nodes| && Sized(Snap(frame))
    {
      Valid() && frame.Valid(mask) && EnvValid(EnvOf(frame)) && frame.scope < |nodes| && Sized(Snap(frame))
    }

    ghost function Names(frame: Frame): set<u32>
      reads frame`dynamic
    {
      frame.dynamic.Keys
    }

    /** The operations left. */
    function Left(): nat
      reads this`operations
    {
      if operations >= MAX_OPERATIONS then 0 else MAX_OPERATIONS - operations
    }

    /** Evaluation spends budget, may add local objects, and leaves control flow alone. */
    twostate predicate Ran(frame: Frame)
      reads this, frame
    {
      && RanBlock(frame) && frame.result == old(frame.result)
      && frame.returned == old(frame.returned) && frame.broke == old(frame.broke)
         && frame.continued == old(frame.continued)
    }

    twostate predicate RanBlock(frame: Frame)
      reads this, frame
    {
      Ready(frame) && Spent() && old(Names(frame)) <= Names(frame)
    }

    twostate predicate Spent()
      reads this
    {
      depth == old(depth) && operations >= old(operations) && loops >= old(loops)
    }

    /** A successful evaluation gives a value of the table's width and took bytes that are there. */
    ghost predicate Fitting(aml: Bytes, r: Result) {
      r.Done? ==> Masked(r.value, mask) && 0 < r.used <= |aml|
    }

    method Step() returns (ok: bool)
      modifies this`operations
      ensures operations == old(operations) + 1
      ensures ok <==> operations <= MAX_OPERATIONS
      ensures ok ==> Left() < old(Left())
    {
      operations := operations + 1;
      ok := operations <= MAX_OPERATIONS;
    }

    // ----- places -----

    method WritePlace(frame: Frame, place: Place, v: Value) returns (ok: bool)
      requires Ready(frame) && IsPlace(EnvOf(frame), Names(frame), place) && Masked(v, mask)
      modifies this`values, this`initializing, frame`locals, frame`arguments, frame`dynamic
      ensures Ran(frame) && Names(frame) == old(Names(frame))
      ensures ok ==> old(Put(EnvOf(frame), Snap(frame), place, v)) == Some(Snap(frame))
      ensures !ok ==> old(Put(EnvOf(frame), Snap(frame), place, v)).None?
    {
      hide Real, WellFormed, Ordered, Masked, Frame.Valid, EnvValid;
      ok := true;
      match place
      case Nowhere =>
      case Local(i) => SetLocal(frame, i, v);
      case Argument(i) => SetArgument(frame, i, v);
      case Dynamic(n) => SetDynamic(frame, n, v);
      case AtNode(h) => ok := WriteNode(h, v);
    }

    method SetLocal(frame: Frame, i: nat, v: Value)
      requires Ready(frame) && i < 8 && Masked(v, mask)
      modifies frame`locals
      ensures Ready(frame) && frame.locals == old(frame.locals)[i := v]
    {
      hide Masked, EnvValid, WellFormed, Ordered;
      frame.locals := frame.locals[i := v];
    }

    method SetArgument(frame: Frame, i: nat, v: Value)
      requires Ready(frame) && i < 7 && Masked(v, mask)
      modifies frame`arguments
      ensures Ready(frame) && frame.arguments == old(frame.arguments)[i := v]
    {
      hide Masked, EnvValid, WellFormed, Ordered;
      frame.arguments := frame.arguments[i := v];
    }

    method SetDynamic(frame: Frame, name: u32, v: Value)
      requires Ready(frame) && name in frame.dynamic && Masked(v, mask)
      modifies frame`dynamic
      ensures Ready(frame) && frame.dynamic == old(frame.dynamic)[name := v]
    {
      hide Masked, EnvValid, WellFormed, Ordered;
      frame.dynamic := frame.dynamic[name := v];
    }

    /** Only a named object can be written. */
    method WriteNode(h: nat, v: Value) returns (ok: bool)
      requires Valid() && h < |nodes| && Masked(v, mask)
      modifies this`values, this`initializing
      ensures Valid()
      ensures var node := Real(nodes, h);
              && (ok <==> node != INVALID && nodes[node].kind == Name)
              && values == if ok then old(values)[node := v] else old(values)
    {
      hide Real, WellFormed, Ordered;
      var node := Real(nodes, h);
      ok := node != INVALID && nodes[node].kind == Name;
      if ok {
        values := values[node := v];
        initializing := initializing - {node};
      }
    }

    method ReadPlace(frame: Frame, place: Place, ghost fuel: nat) returns (v: Option<Value>)
      requires Ready(frame) && IsPlace(EnvOf(frame), Names(frame), place) && fuel > Left()
      modifies this
      ensures Ready(frame) && Spent()
      ensures v.Some? ==>
                Masked(v.value, mask) && old(Get(EnvOf(frame), Snap(frame), place, fuel))
                == Some((v.value, Snap(frame)))
      decreases Left(), 6
    {
      hide WellFormed, Ordered, NodeValue;
      match place
      case Nowhere => v := None;
      case Local(i) => v := Some(frame.locals[i]);
      case Argument(i) => v := Some(frame.arguments[i]);
      case Dynamic(n) => v := Some(frame.dynamic[n]);
      case AtNode(h) => v := ReadNode(h, frame.scope, fuel);
    }

    /** A named object's value, computed when first read; anything else is a reference to itself. */
    method ReadNode(h: nat, ghost scope: nat, ghost fuel: nat) returns (v: Option<Value>)
      requires Valid() && IsScope(nodes, h) && scope < |nodes| && fuel > Left()
      modifies this
      ensures Valid() && Spent()
      ensures v.Some? ==>
                Masked(v.value, mask) && NodeValue(Env(nodes, mask, scope), h, old(values), fuel)
                == Some((v.value, values))
      decreases Left(), 5, 1
    {
      hide Meaning, Real, WellFormed, Ordered, Frame.Valid, Fits, Grows, Masked;
      var node := Real(nodes, h);
      if node == INVALID { return None; }
      if nodes[node].kind in {Field, IndexField, BankField} { return None; }
      if nodes[node].kind != Name {
        MaskedReference(node, mask);
        return Some(Reference(node));
      }
      NameFacts(nodes, node);
      if node !in values {
        var ok := Initialize(node, fuel);
        if !ok { return None; }
      }
      v := Some(values[node]);
    }

    /** Compute the value of a named object. */
    method Initialize(node: nat, ghost fuel: nat) returns (ok: bool)
      requires Valid() && node < |nodes| && nodes[node].kind == Name && nodes[node].content.NameObject?
               && nodes[node].parent < node
      requires node !in values && fuel > Left()
      modifies this
      ensures Valid() && Spent()
      ensures ok ==>
                && node in values && nodes[node].content.expression != []
                && var aml := nodes[node].content.expression;
                && var m := Meaning(Env(nodes, mask, nodes[node].parent), aml, Fresh(old(values)), fuel - 1);
                && m.Some? && m.value.used == |aml| && values == m.value.state.objects[node := m.value.value]
      decreases Left(), 5, 0
    {
      hide Meaning, WellFormed, Ordered, Fits, Grows, Masked, EnvValid;
      var expression := nodes[node].content.expression;
      if node in initializing || expression == [] { return false; }
      initializing := initializing + {node};
      var r := EvalAlone(nodes[node].parent, expression, fuel - 1);
      initializing := initializing - {node};
      if r.Failed? || r.used != |expression| { return false; }
      values := values[node := r.value];
      ok := true;
    }

    /** Evaluate a term in a frame of its own. */
    method EvalAlone(scope: nat, aml: Bytes, ghost fuel: nat) returns (r: Result)
      requires Valid() && scope < |nodes| && fuel >= Left()
      modifies this
      ensures Valid() && Spent() && (r.Done? ==> Masked(r.value, mask))
      ensures r.Done? ==>
                var m := Meaning(Env(nodes, mask, scope), aml, Fresh(old(values)), fuel);
                m.Some? && m.value.value == r.value && m.value.used == r.used && m.value.state.objects == values
      decreases Left(), 4, 3
    {
      hide Meaning, WellFormed, Ordered, Frame.Valid, Fits, Grows, Masked, Machine.Ready, Machine.Valid, EnvValid;
      var frame := NewFrame(scope);
      r := EvalTerm(frame, aml, fuel);
    }

    method NewFrame(scope: nat) returns (frame: Frame)
      requires Valid() && scope < |nodes|
      ensures fresh(frame) && Ready(frame) && frame.scope == scope && Snap(frame) == Fresh(values) && frame.Going()
      ensures frame.result == Nothing
    {
      frame := new Frame(scope);
    }

    method Dereference(frame: Frame, v: Value, ghost fuel: nat) returns (r: Option<Value>)
      requires Ready(frame) && Masked(v, mask) && fuel > Left()
      modifies this
      ensures Ready(frame) && Spent()
      ensures r.Some? ==>
                Masked(r.value, mask) && old(Follow(EnvOf(frame), v, Snap(frame), fuel)) == Some((r.value, Snap(frame)))
      decreases Left(), 6
    {
      hide WellFormed, Ordered, NodeValue, Frame.Valid;
      if v.Reference? {
        if v.node >= |nodes| { return None; }
        r := ReadNode(v.node, frame.scope, fuel);
      } else {
        r := Some(v);
      }
    }

    method AsInteger(frame: Frame, v: Value, ghost fuel: nat) returns (r: Option<bv64>)
      requires Ready(frame) && Masked(v, mask) && fuel > Left()
      modifies this
      ensures Ready(frame) && Spent()
      ensures r.Some? ==> old(Number(EnvOf(frame), v, Snap(frame), fuel)) == Some((r.value, Snap(frame)))
      decreases Left(), 7
    {
      hide WellFormed, Ordered, EnvValid, Follow, Frame.Valid, Machine.Valid, Machine.Ready, Masked, Fits, Grows,
        ToInteger;
      var d := Dereference(frame, v, fuel);
      r := if d.None? then None else ToInteger(d.value, mask);
    }

    // ----- terms -----

    method EvalTerm(frame: Frame, aml: Bytes, ghost fuel: nat) returns (r: Result)
      requires Ready(frame) && fuel >= Left()
      modifies this, frame
      ensures Ran(frame) && Fitting(aml, r)
      ensures r.Done? ==> Left() < old(Left())
      ensures r.Done? ==>
                old(Meaning(EnvOf(frame), aml, Snap(frame), fuel)) == Some(Outcome(r.value, r.used, Snap(frame)))
      ensures r.Done? && Plain(nodes, frame.scope, Names(frame)) ==> Takes(nodes, frame.scope, aml, Term, r.used)
      decreases Left(), 4, 0
    {
      hide EnvValid, Frame.Valid, Machine.Ready, Masked, Fits, Grows, Meaning, WellFormed, Ordered, Plain, Takes;
      if aml == [] { return Failed; }
      var ok := Step();
      if !ok { return Failed; }
      r := EvalOpcode(frame, aml, fuel);
      if r.Done? && Plain(nodes, frame.scope, Names(frame)) {
        MeaningTakes(EnvOf(frame), aml, old(Snap(frame)), fuel);
      }
    }

    /** Put a result where a target says. */
    method StoreAt(frame: Frame, aml: Bytes, at: nat, v: Value) returns (r: Result)
      requires Ready(frame) && 0 < at <= |aml| && Masked(v, mask)
      modifies this`values, this`initializing, frame`locals, frame`arguments, frame`dynamic
      ensures Ran(frame) && Names(frame) == old(Names(frame))
      ensures r.Done? ==>
                && r.value == v && at < r.used <= |aml|
                && old(Stored(EnvOf(frame), aml, at, Snap(frame), v)) == Some(Outcome(v, r.used, Snap(frame)))
    {
      hide Put, Frame.Valid, Machine.Valid, Machine.Ready, Masked, Fits, Grows, TargetOf, WellFormed, Ordered;
      var p := TargetOf(EnvOf(frame), frame.dynamic.Keys, aml[at..]);
      if p.None? { return Failed; }
      var ok := WritePlace(frame, p.value.0, v);
      if !ok { return Failed; }
      r := Done(v, at + p.value.1);
    }

    /** A term, and the integer it stands for. */
    method EvalNumber(frame: Frame, aml: Bytes, ghost fuel: nat) returns (n: Option<bv64>, used: nat, ghost m: Outcome)
      requires Ready(frame) && fuel > Left()
      modifies this, frame
      ensures Ran(frame)
      ensures n.Some? ==>
                && Left() < old(Left()) && 0 < used <= |aml| && used == m.used
                && old(Meaning(EnvOf(frame), aml, Snap(frame), fuel)) == Some(m)
                && Number(EnvOf(frame), m.value, m.state, fuel) == Some((n.value, Snap(frame)))
      decreases Left(), 7, 0
    {
      hide EnvValid, Frame.Valid, Machine.Valid, Machine.Ready, Masked, Fits, Grows, Meaning, Number, WellFormed,
        Ordered;
      n, used, m := None, 0, Outcome(Nothing, 0, Snap(frame));
      var s := EvalTerm(frame, aml, fuel);
      if s.Failed? { return; }
      m := Outcome(s.value, s.used, Snap(frame));
      used := s.used;
      n := AsInteger(frame, s.value, fuel);
    }

    /** A term, and what it refers to. */
    method EvalFollowed(frame: Frame, aml: Bytes, ghost fuel: nat)
      returns (v: Option<Value>, used: nat, ghost m: Outcome)
      requires Ready(frame) && fuel > Left()
      modifies this, frame
      ensures Ran(frame)
      ensures v.Some? ==>
                && Masked(v.value, mask) && 0 < used <= |aml| && used == m.used
                && old(Meaning(EnvOf(frame), aml, Snap(frame), fuel)) == Some(m)
                && Follow(EnvOf(frame), m.value, m.state, fuel) == Some((v.value, Snap(frame)))
      decreases Left(), 7, 0
    {
      hide EnvValid, Frame.Valid, Machine.Valid, Machine.Ready, Masked, Fits, Grows, Meaning, Follow, WellFormed,
        Ordered;
      v, used, m := None, 0, Outcome(Nothing, 0, Snap(frame));
      var s := EvalTerm(frame, aml, fuel);
      if s.Failed? { return; }
      m := Outcome(s.value, s.used, Snap(frame));
      used := s.used;
      v := Dereference(frame, s.value, fuel);
    }

    method EvalStore(frame: Frame, aml: Bytes, ghost fuel: nat) returns (r: Result)
      requires Ready(frame) && aml != [] && (aml[0] == 0x70 || aml[0] == 0x9d) && fuel > Left()
      modifies this, frame
      ensures Ran(frame) && Fitting(aml, r)
      ensures r.Done? ==>
                old(StoreTerm(EnvOf(frame), aml, Snap(frame), fuel)) == Some(Outcome(r.value, r.used, Snap(frame)))
      decreases Left(), 9
    {
      hide EnvValid, Frame.Valid, Machine.Valid, Machine.Ready, Masked, Fits, Grows, Meaning, Follow, WellFormed,
        Ordered, Stored;
      ghost var m;
      var d, used;
      d, used, m := EvalFollowed(frame, aml[1..], fuel);
      if d.None? { return Failed; }
      r := StoreAt(frame, aml, 1 + used, d.value);
    }

    /** Two integer operands. */
    method EvalPair(frame: Frame, aml: Bytes, ghost fuel: nat) returns (a: Option<bv64>, b: bv64, u: nat, v: nat)
      requires Ready(frame) && aml != [] && fuel > Left()
      modifies this, frame
      ensures Ran(frame)
      ensures a.Some? ==> 1 + u + v <= |aml| && 0 < u && 0 < v
      ensures a.Some? ==> old(Operands(EnvOf(frame), aml, Snap(frame), fuel)) == Some((a.value, b, u, v, Snap(frame)))
      decreases Left(), 8
    {
      hide EnvValid, Frame.Valid, Machine.Valid, Machine.Ready, Masked, Fits, Grows, Meaning, Number, WellFormed,
        Ordered;
      a, b, u, v := None, 0, 0, 0;
      ghost var m;
      var left, i, right, j;
      left, i, m := EvalNumber(frame, aml[1..], fuel);
      if left.None? { return; }
      right, j, m := EvalNumber(frame, aml[1 + i..], fuel);
      if right.None? { return; }
      a, b, u, v := left, right.value, i, j;
    }

    method EvalArithmetic(frame: Frame, aml: Bytes, ghost fuel: nat) returns (r: Result)
      requires Ready(frame) && aml != [] && IsArithmetic(aml[0]) && fuel > Left()
      modifies this, frame
      ensures Ran(frame) && Fitting(aml, r)
      ensures r.Done? ==>
                old(ArithmeticTerm(EnvOf(frame), aml, Snap(frame), fuel)) == Some(Outcome(r.value, r.used, Snap(frame)))
      decreases Left(), 9
    {
      hide EnvValid, Frame.Valid, Machine.Valid, Machine.Ready, Masked, Fits, Grows, Meaning, Follow, Number, Put, Get,
        TargetOf, WellFormed, Ordered, Combine, Stored, Operands;
      var a, b, u, v := EvalPair(frame, aml, fuel);
      if a.None? { return Failed; }
      var n := Combine(aml[0], a.value, b);
      if n.None? { return Failed; }
      r := StoreAt(frame, aml, 1 + u + v, Cut(n.value, mask));
    }

    method EvalLogical(frame: Frame, aml: Bytes, ghost fuel: nat) returns (r: Result)
      requires Ready(frame) && aml != [] && IsLogical(aml[0]) && fuel > Left()
      modifies this, frame
      ensures Ran(frame) && Fitting(aml, r)
      ensures r.Done? ==>
                old(LogicalTerm(EnvOf(frame), aml, Snap(frame), fuel)) == Some(Outcome(r.value, r.used, Snap(frame)))
      decreases Left(), 9
    {
      hide EnvValid, Frame.Valid, Machine.Valid, Machine.Ready, Masked, Fits, Grows, Meaning, Follow, Number, Put, Get,
        TargetOf, WellFormed, Ordered, Combine, Operands;
      var a, b, u, v := EvalPair(frame, aml, fuel);
      if a.None? { return Failed; }
      var n := Combine(aml[0], a.value, b);
      if n.None? { return Failed; }
      r := Done(Cut(n.value, mask), 1 + u + v);
    }

    /** Quotient and remainder go to two places, the remainder's first. */
    method EvalDivide(frame: Frame, aml: Bytes, ghost fuel: nat) returns (r: Result)
      requires Ready(frame) && aml != [] && aml[0] == 0x78 && fuel > Left()
      modifies this, frame
      ensures Ran(frame) && Fitting(aml, r)
      ensures r.Done? ==>
                old(DivideTerm(EnvOf(frame), aml, Snap(frame), fuel)) == Some(Outcome(r.value, r.used, Snap(frame)))
      decreases Left(), 9
    {
      hide EnvValid, Frame.Valid, Machine.Valid, Machine.Ready, Masked, Fits, Grows, Meaning, Follow, Number, Put, Get,
        TargetOf, WellFormed, Ordered, Quotient, Remainder, Operands;
      var a, b, u, v := EvalPair(frame, aml, fuel);
      if a.None? || b == 0 { return Failed; }
      var p := TargetOf(EnvOf(frame), frame.dynamic.Keys, aml[1 + u + v..]);
      if p.None? { return Failed; }
      var w := p.value.1;
      var q := TargetOf(EnvOf(frame), frame.dynamic.Keys, aml[1 + u + v + w..]);
      if q.None? { return Failed; }
      var ok := WritePlace(frame, p.value.0, Cut(Remainder(a.value, b), mask));
      if !ok { return Failed; }
      ok := WritePlace(frame, q.value.0, Cut(Quotient(a.value, b), mask));
      if !ok { return Failed; }
      r := Done(Cut(Quotient(a.value, b), mask), 1 + u + v + w + q.value.1);
    }

    method EvalNot(frame: Frame, aml: Bytes, ghost fuel: nat) returns (r: Result)
      requires Ready(frame) && aml != [] && aml[0] == 0x80 && fuel > Left()
      modifies this, frame
      ensures Ran(frame) && Fitting(aml, r)
      ensures r.Done? ==>
                old(NotTerm(EnvOf(frame), aml, Snap(frame), fuel)) == Some(Outcome(r.value, r.used, Snap(frame)))
      decreases Left(), 9
    {
      hide EnvValid, Frame.Valid, Machine.Valid, Machine.Ready, Masked, Fits, Grows, Meaning, Number, WellFormed,
        Ordered, Stored, Complement;
      ghost var m;
      var n, used;
      n, used, m := EvalNumber(frame, aml[1..], fuel);
      if n.None? { return Failed; }
      r := StoreAt(frame, aml, 1 + used, Cut(Complement(n.value), mask));
    }

    method EvalConversion(frame: Frame, aml: Bytes, ghost fuel: nat) returns (r: Result)
      requires Ready(frame) && aml != [] && (aml[0] == 0x96 || aml[0] == 0x99) && fuel > Left()
      modifies this, frame
      ensures Ran(frame) && Fitting(aml, r)
      ensures r.Done? ==>
                old(ConversionTerm(EnvOf(frame), aml, Snap(frame), fuel)) == Some(Outcome(r.value, r.used, Snap(frame)))
      decreases Left(), 9
    {
      hide EnvValid, Frame.Valid, Machine.Valid, Machine.Ready, Masked, Fits, Grows, Meaning, Follow, WellFormed,
        Ordered, Stored, Converted;
      ghost var m;
      var d, used;
      d, used, m := EvalFollowed(frame, aml[1..], fuel);
      if d.None? { return Failed; }
      var v := Converted(d.value, aml[0] == 0x99, mask);
      if v.None? { return Failed; }
      r := StoreAt(frame, aml, 1 + used, v.value);
    }

    method EvalLogicalNot(frame: Frame, aml: Bytes, ghost fuel: nat) returns (r: Result)
      requires Ready(frame) && aml != [] && aml[0] == 0x92 && fuel > Left()
      modifies this, frame
      ensures Ran(frame) && Fitting(aml, r)
      ensures r.Done? ==>
                old(LogicalNotTerm(EnvOf(frame), aml, Snap(frame), fuel)) == Some(Outcome(r.value, r.used, Snap(frame)))
      decreases Left(), 9
    {
      hide EnvValid, Frame.Valid, Machine.Valid, Machine.Ready, Masked, Fits, Grows, Meaning, Number, WellFormed,
        Ordered;
      ghost var m;
      var n, used;
      n, used, m := EvalNumber(frame, aml[1..], fuel);
      if n.None? { return Failed; }
      r := Done(Cut(Truth(n.value == 0), mask), 1 + used);
    }

    method EvalDereference(frame: Frame, aml: Bytes, ghost fuel: nat) returns (r: Result)
      requires Ready(frame) && aml != [] && aml[0] == 0x83 && fuel > Left()
      modifies this, frame
      ensures Ran(frame) && Fitting(aml, r)
      ensures r.Done? ==>
                old(DereferenceTerm(EnvOf(frame), aml, Snap(frame), fuel))
                == Some(Outcome(r.value, r.used, Snap(frame)))
      decreases Left(), 9
    {
      hide EnvValid, Frame.Valid, Machine.Valid, Machine.Ready, Masked, Fits, Grows, Meaning, Follow, WellFormed,
        Ordered;
      ghost var m;
      var d, used;
      d, used, m := EvalFollowed(frame, aml[1..], fuel);
      if d.None? { return Failed; }
      r := Done(d.value, 1 + used);
    }

    /** Add or subtract one in place. */
    method EvalCount(frame: Frame, aml: Bytes, ghost fuel: nat) returns (r: Result)
      requires Ready(frame) && aml != [] && (aml[0] == 0x75 || aml[0] == 0x76) && fuel > Left()
      modifies this, frame
      ensures Ran(frame) && Fitting(aml, r)
      ensures r.Done? ==>
                old(CountTerm(EnvOf(frame), aml, Snap(frame), fuel)) == Some(Outcome(r.value, r.used, Snap(frame)))
      decreases Left(), 9
    {
      hide EnvValid, Frame.Valid, Machine.Valid, Machine.Ready, Masked, Fits, Grows, Meaning, Follow, Number, Put, Get,
        TargetOf, WellFormed, Ordered, Stepped;
      var p := TargetOf(EnvOf(frame), frame.dynamic.Keys, aml[1..]);
      if p.None? { return Failed; }
      var s := ReadPlace(frame, p.value.0, fuel);
      if s.None? { return Failed; }
      var n := AsInteger(frame, s.value, fuel);
      if n.None? { return Failed; }
      var v := Cut(Stepped(n.value, aml[0] == 0x75), mask);
      var ok := WritePlace(frame, p.value.0, v);
      if !ok { return Failed; }
      r := Done(v, 1 + p.value.1);
    }

    method EvalSizeOf(frame: Frame, aml: Bytes, ghost fuel: nat) returns (r: Result)
      requires Ready(frame) && aml != [] && aml[0] == 0x87 && fuel > Left()
      modifies this, frame
      ensures Ran(frame) && Fitting(aml, r)
      ensures r.Done? ==>
                old(SizeTerm(EnvOf(frame), aml, Snap(frame), fuel)) == Some(Outcome(r.value, r.used, Snap(frame)))
      decreases Left(), 9
    {
      hide EnvValid, Frame.Valid, Machine.Valid, Machine.Ready, Masked, Fits, Grows, Meaning, Follow, Number, Put, Get,
        TargetOf, WellFormed, Ordered, Size;
      var p := TargetOf(EnvOf(frame), frame.dynamic.Keys, aml[1..]);
      if p.None? { return Failed; }
      var s := ReadPlace(frame, p.value.0, fuel);
      if s.None? { return Failed; }
      var d := Dereference(frame, s.value, fuel);
      if d.None? { return Failed; }
      var n := Size(d.value, mask);
      if n.None? { return Failed; }
      r := Done(Cut(n.value, mask), 1 + p.value.1);
    }

    /** Give a local object a value, making it if it is new and there is room. */
    method EvalNameOp(frame: Frame, aml: Bytes, ghost fuel: nat) returns (r: Result)
      requires Ready(frame) && aml != [] && aml[0] == 0x08 && fuel > Left()
      modifies this, frame
      ensures Ran(frame) && Fitting(aml, r)
      ensures r.Done? ==>
                old(NameTerm(EnvOf(frame), aml, Snap(frame), fuel)) == Some(Outcome(r.value, r.used, Snap(frame)))
      decreases Left(), 9
    {
      hide EnvValid, Frame.Valid, Machine.Valid, Machine.Ready, Masked, Fits, Grows, Meaning, WellFormed, Ordered,
        ParseName, NameTerm;
      var p := ParseName(aml[1..]);
      if p.None? || !IsSingle(p.value.0) { return Failed; }
      ghost var m;
      var ok, used;
      ok, used, m := Define(frame, p.value.0.segments[0], aml[1 + p.value.1..], fuel);
      if !ok { return Failed; }
      NameMeans(EnvOf(frame), aml, old(Snap(frame)), fuel, p.value, m);
      r := Done(Cut(0, mask), 1 + p.value.1 + used);
    }

    /** Evaluate a term and give a local object its value. */
    method Define(frame: Frame, name: u32, aml: Bytes, ghost fuel: nat) returns (ok: bool, used: nat, ghost m: Outcome)
      requires Ready(frame) && fuel > Left()
      modifies this, frame
      ensures Ran(frame)
      ensures ok ==>
                && name != 0 && 0 < used <= |aml| && used == m.used
                && old(Meaning(EnvOf(frame), aml, Snap(frame), fuel)) == Some(m)
                && (name in m.state.dynamic || |m.state.dynamic| < MAX_DYNAMIC)
                && Snap(frame) == m.state.(dynamic := m.state.dynamic[name := m.value])
      decreases Left(), 7, 0
    {
      hide EnvValid, Frame.Valid, Machine.Valid, Machine.Ready, Masked, Fits, Grows, Meaning, WellFormed, Ordered;
      ok, used, m := false, 0, Outcome(Nothing, 0, Snap(frame));
      var s := EvalTerm(frame, aml, fuel);
      if s.Failed? { return; }
      m := Outcome(s.value, s.used, Snap(frame));
      used := s.used;
      ok := AddDynamic(frame, name, s.value);
    }

    method AddDynamic(frame: Frame, name: u32, v: Value) returns (ok: bool)
      requires Ready(frame) && Masked(v, mask)
      modifies frame`dynamic
      ensures Ran(frame)
      ensures ok <==> name != 0 && (name in old(frame.dynamic) || |old(frame.dynamic)| < MAX_DYNAMIC)
      ensures frame.dynamic == if ok then old(frame.dynamic)[name := v] else old(frame.dynamic)
      ensures ok ==> Snap(frame) == old(Snap(frame)).(dynamic := old(frame.dynamic)[name := v])
    {
      hide Masked, EnvValid, WellFormed, Ordered;
      ok := name != 0 && (name in frame.dynamic || |frame.dynamic| < MAX_DYNAMIC);
      if ok {
        frame.dynamic := frame.dynamic[name := v];
      }
    }

    method EvalBuffer(frame: Frame, aml: Bytes, ghost fuel: nat) returns (r: Result)
      requires Ready(frame) && aml != [] && aml[0] == 0x11 && fuel > Left()
      modifies this, frame
      ensures Ran(frame) && Fitting(aml, r)
      ensures r.Done? ==>
                old(BufferTerm(EnvOf(frame), aml, Snap(frame), fuel)) == Some(Outcome(r.value, r.used, Snap(frame)))
      decreases Left(), 9
    {
      hide EnvValid, Frame.Valid, Machine.Valid, Machine.Ready, Masked, Fits, Grows, Meaning, Number, WellFormed,
        Ordered, PackageSpan, Filled, BufferTerm;
      var p := PackageSpan(aml[1..]);
      if p.None? { return Failed; }
      var start, end := 1 + p.value.0, 1 + p.value.1;
      ghost var m;
      var n, used;
      n, used, m := EvalNumber(frame, aml[start..end], fuel);
      if n.None? || n.value > MAX_BUFFER { return Failed; }
      var bytes := Filled(aml[start + used..end], n.value as nat);
      BufferMeans(EnvOf(frame), aml, old(Snap(frame)), fuel, p.value, m, (n.value, Snap(frame)));
      MaskedBuffer(bytes, mask);
      r := Done(Buffer(bytes), end);
    }

    /** A byte or a term for the size, then as many elements as are there. */
    method EvalPackage(frame: Frame, aml: Bytes, ghost fuel: nat) returns (r: Result)
      requires Ready(frame) && aml != [] && (aml[0] == 0x12 || aml[0] == 0x13) && fuel > Left()
      modifies this, frame
      ensures Ran(frame) && Fitting(aml, r)
      ensures r.Done? ==>
                old(PackageTerm(EnvOf(frame), aml, Snap(frame), fuel)) == Some(Outcome(r.value, r.used, Snap(frame)))
      decreases Left(), 9
    {
      hide EnvValid, Frame.Valid, Machine.Valid, Machine.Ready, Masked, Fits, Grows, Meaning, Follow, Number, Put, Get,
        TargetOf, WellFormed, Ordered, PackageSpan, PackageCount, Elements;
      var p := PackageSpan(aml[1..]);
      if p.None? { return Failed; }
      var start, end := 1 + p.value.0, 1 + p.value.1;
      var count, cursor := EvalPackageCount(frame, aml[..end], start, fuel);
      if count.None? || count.value > MAX_PACKAGE { return Failed; }
      var elements := EvalElements(frame, aml[cursor..end], count.value as nat, fuel);
      if elements.None? { return Failed; }
      MaskedPackage(elements.value, mask);
      r := Done(Package(elements.value), end);
    }

    method EvalPackageCount(frame: Frame, aml: Bytes, start: nat, ghost fuel: nat)
      returns (count: Option<bv64>, cursor: nat)
      requires Ready(frame) && 0 < start <= |aml| && fuel > Left()
      modifies this, frame
      ensures Ran(frame)
      ensures count.Some? ==>
                && start < cursor <= |aml|
                && old(PackageCount(EnvOf(frame), aml, start, Snap(frame), fuel))
                   == Some((count.value, cursor, Snap(frame)))
      decreases Left(), 8
    {
      hide EnvValid, Frame.Valid, Machine.Valid, Machine.Ready, Masked, Fits, Grows, Meaning, Number, WellFormed,
        Ordered;
      count, cursor := None, start;
      if aml[0] == 0x12 {
        if start < |aml| {
          count, cursor := Some(aml[start] as bv64), start + 1;
        }
        return;
      }
      ghost var m;
      var used;
      count, used, m := EvalNumber(frame, aml[start..], fuel);
      cursor := start + used;
    }

    /** The elements found, and those still to be found from `at` on. */
    ghost function RestOf(frame: Frame, aml: Bytes, at: nat, left: nat, front: seq<Value>,
                          fuel: nat): Option<(seq<Value>, State)>
      requires Ready(frame) && at <= |aml|
      reads this`values, this`depth, frame`locals, frame`arguments, frame`dynamic, frame`result
    {
      Behind(front, Elements(EnvOf(frame), aml[at..], Snap(frame), left, fuel))
    }

    method NextElement(frame: Frame, aml: Bytes, at: nat, ghost left: nat, ghost front: seq<Value>, ghost fuel: nat)
      returns (e: Result)
      requires Ready(frame) && at < |aml| && left > 0 && AllMasked(front, mask) && fuel > Left()
      modifies this, frame
      ensures Ran(frame)
      ensures e.Done? ==> 0 < e.used && at + e.used <= |aml| && AllMasked(front + [e.value], mask)
      ensures e.Done? ==>
                old(RestOf(frame, aml, at, left, front, fuel))
                  == RestOf(frame, aml, at + e.used, left - 1, front + [e.value], fuel)
      decreases Left(), 6
    {
      hide EnvValid, Frame.Valid, Machine.Valid, Machine.Ready, Masked, Fits, Grows, Meaning, WellFormed, Ordered,
        Elements, Behind, AllMasked;
      e := EvalTerm(frame, aml[at..], fuel);
      if e.Done? {
        ElementsMore(EnvOf(frame), aml, at, left, old(Snap(frame)), fuel, Outcome(e.value, e.used, Snap(frame)), front);
        MaskedMore(front, e.value, mask);
      }
    }

    method EvalElements(frame: Frame, aml: Bytes, count: nat, ghost fuel: nat) returns (r: Option<seq<Value>>)
      requires Ready(frame) && fuel > Left()
      modifies this, frame
      ensures Ran(frame)
      ensures r.Some? ==>
                && |r.value| == count && AllMasked(r.value, mask)
                && old(Elements(EnvOf(frame), aml, Snap(frame), count, fuel)) == Some((r.value, Snap(frame)))
      decreases Left(), 7
    {
      hide EnvValid, Frame.Valid, Machine.Valid, Machine.Ready, Masked, Fits, Grows, Meaning, WellFormed, Ordered,
        Elements, Behind, AllMasked;
      var elements, cursor: nat := [], 0;
      ghost var whole := Elements(EnvOf(frame), aml, Snap(frame), count, fuel);
      BehindNothing(whole);
      MaskedNone(mask);
      assert aml[0..] == aml;
      while |elements| < count && cursor < |aml|
        invariant |elements| <= count && cursor <= |aml| && Ran(frame) && AllMasked(elements, mask)
        invariant whole == RestOf(frame, aml, cursor, count - |elements|, elements, fuel)
        decreases |aml| - cursor
      {
        var e := NextElement(frame, aml, cursor, count - |elements|, elements, fuel);
        if e.Failed? { return None; }
        elements := elements + [e.value];
        cursor := cursor + e.used;
      }
      MaskedPadding(elements, count - |elements|, mask);
      ElementsAll(EnvOf(frame), aml[cursor..], count - |elements|, Snap(frame), fuel, elements);
      elements := elements + seq(count - |elements|, _ => Nothing);
      r := Some(elements);
    }

    // ----- names and methods -----

    /** A local object, a named object, or a method with its arguments. */
    method EvalName(frame: Frame, aml: Bytes, ghost fuel: nat) returns (r: Result)
      requires Ready(frame) && NameStarts(aml) && fuel > Left()
      modifies this, frame
      ensures Ran(frame) && Fitting(aml, r)
      ensures r.Done? ==>
                old(NamedTerm(EnvOf(frame), aml, Snap(frame), fuel)) == Some(Outcome(r.value, r.used, Snap(frame)))
      decreases Left(), 9
    {
      hide EnvValid, Frame.Valid, Fits, Grows, Meaning, Resolved, Real, ParseName, WellFormed, Ordered, Arguments,
        Call, NodeValue;
      var p := ParseName(aml);
      if p.None? { return Failed; }
      var (path, used) := p.value;
      if IsSingle(path) && path.segments[0] in frame.dynamic {
        r := Done(LocalObject(frame, path.segments[0]), used);
        return;
      }
      var h := Real(nodes, Resolved(nodes, frame.scope, path));
      if h == INVALID { return Failed; }
      var end: nat := used;
      var v;
      if IsMethod(nodes[h]) {
        var found;
        found, end := EvalArguments(frame, aml, used, Arity(nodes, h), fuel);
        if found.None? { return Failed; }
        ghost var st := Snap(frame);
        v := Invoke(h, found.value, frame.scope, fuel);
        if v.Some? {
          NamedCalls(EnvOf(frame), aml, old(Snap(frame)), fuel, (found.value, end, st), (v.value, values));
        }
      } else {
        v := ReadNode(h, frame.scope, fuel);
      }
      if v.None? { return Failed; }
      r := Done(v.value, end);
    }

    function LocalObject(frame: Frame, name: u32): (v: Value)
      requires frame.Valid(mask) && name in frame.dynamic
      reads frame
      ensures Masked(v, mask)
    {
      frame.dynamic[name]
    }

    /** The arguments found, and those still to be found from `at` on. */
    ghost function CallFrom(frame: Frame, aml: Bytes, at: nat, left: nat, front: seq<Value>,
                            fuel: nat): Option<(seq<Value>, nat, State)>
      requires Ready(frame) && 0 < at <= |aml|
      reads this`values, this`depth, frame`locals, frame`arguments, frame`dynamic, frame`result
    {
      Before(front, Arguments(EnvOf(frame), aml, at, left, Snap(frame), fuel))
    }

    method NextArgument(frame: Frame, aml: Bytes, at: nat, ghost left: nat, ghost front: seq<Value>, ghost fuel: nat)
      returns (e: Result)
      requires Ready(frame) && 0 < at < |aml| && left > 0 && AllMasked(front, mask) && fuel > Left()
      modifies this, frame
      ensures Ran(frame)
      ensures e.Done? ==> 0 < e.used && at + e.used <= |aml| && AllMasked(front + [e.value], mask)
      ensures e.Done? ==>
                old(CallFrom(frame, aml, at, left, front, fuel))
                  == CallFrom(frame, aml, at + e.used, left - 1, front + [e.value], fuel)
      decreases Left(), 6
    {
      hide EnvValid, Frame.Valid, Machine.Valid, Machine.Ready, Masked, Fits, Grows, Meaning, WellFormed, Ordered,
        Arguments, Before, AllMasked;
      e := EvalTerm(frame, aml[at..], fuel);
      if e.Done? {
        ArgumentsMore(EnvOf(frame), aml, at, left, old(Snap(frame)), fuel, Outcome(e.value, e.used, Snap(frame)),
                      front);
        MaskedMore(front, e.value, mask);
      }
    }

    method EvalArguments(frame: Frame, aml: Bytes, start: nat, count: nat, ghost fuel: nat)
      returns (r: Option<seq<Value>>, end: nat)
      requires Ready(frame) && 0 < start <= |aml| && fuel > Left()
      modifies this, frame
      ensures Ran(frame)
      ensures r.Some? ==>
                && |r.value| == count && AllMasked(r.value, mask) && start <= end <= |aml|
                && old(Arguments(EnvOf(frame), aml, start, count, Snap(frame), fuel))
                   == Some((r.value, end, Snap(frame)))
      decreases Left(), 7
    {
      hide EnvValid, Frame.Valid, Machine.Valid, Machine.Ready, Masked, Fits, Grows, Meaning, WellFormed, Ordered,
        Arguments, Before, AllMasked;
      var arguments := [];
      MaskedNone(mask);
      end := start;
      ghost var whole := Arguments(EnvOf(frame), aml, start, count, Snap(frame), fuel);
      BeforeNothing(whole);
      for i := 0 to count
        invariant Ran(frame) && |arguments| == i && AllMasked(arguments, mask) && start <= end <= |aml|
        invariant whole == CallFrom(frame, aml, end, count - i, arguments, fuel)
      {
        if end >= |aml| { return None, end; }
        var e := NextArgument(frame, aml, end, count - i, arguments, fuel);
        if e.Failed? { return None, end; }
        arguments := arguments + [e.value];
        end := end + e.used;
      }
      ArgumentsAll(EnvOf(frame), aml, end, Snap(frame), fuel, arguments);
      r := Some(arguments);
    }

    /** Run a method in a frame of its own; the caller's frame is out of its reach. */
    method Invoke(h: nat, arguments: seq<Value>, ghost scope: nat, ghost fuel: nat) returns (v: Option<Value>)
      requires Valid() && h < |nodes| && IsMethod(nodes[h]) && scope < |nodes| && fuel > Left()
      requires |arguments| == Arity(nodes, h) && AllMasked(arguments, mask)
      modifies this
      ensures Valid() && Spent()
      ensures v.Some? ==>
                Masked(v.value, mask) && Call(Env(nodes, mask, scope), h, arguments, old(values), fuel)
                == Some((v.value, values))
      decreases Left(), 8
    {
      hide WellFormed, Ordered, Block, Follow, Body, Supported, Frame.Valid;
      if depth >= MAX_CALLS { return None; }
      ArityBound(nodes, h);
      if nodes[h].kind == NativeMethod {
        v := Supported(arguments, mask);
        return;
      }
      hide Call, Ended;
      var frame := NewFrame(h);
      Pass(frame, arguments);
      depth := depth + 1;
      v := RunMethod(frame, h, fuel - 1);
      depth := depth - 1;
      if v.Some? {
        CallRuns(Env(nodes, mask, scope), h, arguments, old(values), fuel, v.value, values);
      }
    }

    method Pass(frame: Frame, arguments: seq<Value>)
      requires Ready(frame) && |arguments| <= 7 && AllMasked(arguments, mask)
      modifies frame`arguments
      ensures Ready(frame) && Snap(frame) == old(Snap(frame)).(arguments := Padded(arguments))
    {
      frame.arguments := Padded(arguments);
    }

    method RunMethod(frame: Frame, h: nat, ghost fuel: nat) returns (v: Option<Value>)
      requires Ready(frame) && h == frame.scope && frame.Going() && fuel >= Left()
      modifies this, frame
      ensures Valid() && Spent()
      ensures v.Some? ==>
                Masked(v.value, mask) && Ended(EnvOf(frame), Body(nodes, h), old(Snap(frame)), fuel, v.value, values)
      decreases Left(), 3
    {
      hide WellFormed, Ordered, Block, Follow, Body, Frame.Valid, EnvValid;
      var ok := ExecuteBlock(frame, Body(nodes, h), fuel);
      if !ok { return None; }
      if frame.returned {
        v := Dereference(frame, Returned(frame), fuel);
      } else {
        v := Some(Cut(0, mask));
      }
    }

    function Returned(frame: Frame): (v: Value)
      requires frame.Valid(mask)
      reads frame
      ensures Masked(v, mask)
    {
      frame.result
    }

    /** Evaluate a handle from outside, on a fresh budget: a success is what the
        reference gives when it may call, loop and initialize that often. */
    method Evaluate(handle: nat, arguments: seq<Value>) returns (v: Option<Value>)
      requires Valid() && AllMasked(arguments, mask) && depth == 0
      modifies this
      ensures Valid() && depth == 0
      ensures v.Some? ==>
                && handle < |nodes| && Real(nodes, handle) != INVALID
                && var h := Real(nodes, handle);
                && var e := Env(nodes, mask, ROOT);
                && if IsMethod(nodes[h])
                   then |arguments| == Arity(nodes, h)
                        && Call(e, h, arguments, old(values), MAX_OPERATIONS + 1) == Some((v.value, values))
                   else arguments == [] && NodeValue(e, h, old(values), MAX_OPERATIONS + 1) == Some((v.value, values))
    {
      hide WellFormed, Ordered, Call, NodeValue, Real;
      if handle >= |nodes| { return None; }
      var h := Real(nodes, handle);
      if h == INVALID { return None; }
      operations, loops := 0, 0;
      if IsMethod(nodes[h]) {
        if |arguments| != Arity(nodes, h) { return None; }
        v := Invoke(h, arguments, ROOT, MAX_OPERATIONS + 1);
      } else if arguments == [] {
        v := ReadNode(h, ROOT, MAX_OPERATIONS + 1);
      } else {
        v := None;
      }
    }

    // ----- blocks -----

    /** Run statements until the end, or until a return, break or continue is asked for. */
    method ExecuteBlock(frame: Frame, code: Bytes, ghost fuel: nat) returns (ok: bool)
      requires Ready(frame) && frame.Going() && fuel >= Left()
      modifies this, frame
      ensures RanBlock(frame)
      ensures ok ==> old(Block(EnvOf(frame), code, Snap(frame), fuel)) == Some((Snap(frame), frame.Ending()))
      ensures ok ==> frame.Orderly() && (!frame.Going() ==> Left() < old(Left()))
      decreases Left(), 2
    {
      hide EnvValid, Frame.Valid, Machine.Valid, Machine.Ready, Masked, Fits, Grows, WellFormed, Ordered, Meaning,
        Statement;
      ghost var whole := Block(EnvOf(frame), code, Snap(frame), fuel);
      var cursor: nat := 0;
      assert code[0..] == code;
      while cursor < |code|
        invariant cursor <= |code| && RanBlock(frame) && frame.Going()
        invariant whole == Block(EnvOf(frame), code[cursor..], Snap(frame), fuel)
        decreases |code| - cursor
      {
        ok := Step();
        if !ok { return; }
        var op := code[cursor];
        if op == 0xa4 {
          assert code[cursor..][1..] == code[cursor + 1..];
          ok := RunReturn(frame, code[cursor + 1..], fuel);
          return;
        }
        if op == 0xa5 {
          frame.broke := true;
          return true;
        }
        if op == 0x9f {
          frame.continued := true;
          return true;
        }
        if op == 0xa1 { return false; }
        var next;
        ok, next := RunStatement(frame, code[cursor..], fuel);
        if !ok || frame.returned || frame.broke || frame.continued { return; }
        assert code[cursor..][next..] == code[cursor + next..];
        cursor := cursor + next;
      }
      ok := true;
    }

    method RunReturn(frame: Frame, code: Bytes, ghost fuel: nat) returns (ok: bool)
      requires Ready(frame) && frame.Going() && fuel > Left()
      modifies this, frame
      ensures RanBlock(frame) && !frame.broke && !frame.continued
      ensures ok ==> frame.returned
      ensures ok && code == [] ==> Snap(frame) == old(Snap(frame)) && frame.result == Cut(0, mask)
      ensures ok && code != [] ==>
                var m := old(Meaning(EnvOf(frame), code, Snap(frame), fuel));
                m.Some? && m.value.state == Snap(frame) && m.value.value == frame.result
      decreases Left(), 8
    {
      hide EnvValid, WellFormed, Ordered, Meaning, Frame.Valid, Machine.Valid, Machine.Ready, Masked, Fits, Grows;
      if code == [] {
        SetResult(frame, Cut(0, mask));
      } else {
        var r := EvalTerm(frame, code, fuel);
        if r.Failed? { return false; }
        SetResult(frame, r.value);
      }
      frame.returned := true;
      ok := true;
    }

    method SetResult(frame: Frame, v: Value)
      requires Ready(frame) && Masked(v, mask)
      modifies frame`result
      ensures Ready(frame) && frame.result == v
    {
      frame.result := v;
    }

    /** If, While, or a term evaluated for what it does. */
    method RunStatement(frame: Frame, code: Bytes, ghost fuel: nat) returns (ok: bool, used: nat)
      requires Ready(frame) && frame.Going() && code != [] && fuel > Left()
      modifies this, frame
      ensures RanBlock(frame) && (ok ==> 0 < used <= |code| && frame.Orderly())
      ensures ok ==> old(Statement(EnvOf(frame), code, Snap(frame), fuel)) == Some((Snap(frame), frame.Ending(), used))
      decreases Left(), 10
    {
      hide EnvValid, Frame.Valid, Machine.Valid, Machine.Ready, Masked, Fits, Grows, WellFormed, Ordered, Meaning,
        IfStatement, Loop;
      if code[0] == 0xa0 {
        ok, used := RunIf(frame, code, fuel);
      } else if code[0] == 0xa2 {
        ok, used := RunWhile(frame, code, fuel);
      } else {
        var r := EvalTerm(frame, code, fuel);
        ok := r.Done?;
        used := if ok then r.used else 0;
      }
    }

    /** A condition at the front of a body, and the statements behind it. */
    method EvalCondition(frame: Frame, body: Bytes, ghost fuel: nat) returns (r: Option<(bool, Bytes)>)
      requires Ready(frame) && fuel > Left()
      modifies this, frame
      ensures Ran(frame) && (r.Some? ==> Left() < old(Left()))
      ensures r.Some? ==>
                old(Condition(EnvOf(frame), body, Snap(frame), fuel)) == Some((r.value.0, r.value.1, Snap(frame)))
      decreases Left(), 7, 1
    {
      hide EnvValid, Frame.Valid, Machine.Valid, Machine.Ready, Masked, Fits, Grows, WellFormed, Ordered, Meaning,
        Number;
      ghost var m;
      var n, used;
      n, used, m := EvalNumber(frame, body, fuel);
      if n.None? { return None; }
      r := Some((n.value != 0, body[used..]));
    }

    /** If, with the Else that may follow it. */
    method RunIf(frame: Frame, code: Bytes, ghost fuel: nat) returns (ok: bool, used: nat)
      requires Ready(frame) && frame.Going() && code != [] && fuel > Left()
      modifies this, frame
      ensures RanBlock(frame) && (ok ==> 0 < used <= |code| && frame.Orderly())
      ensures ok ==>
                old(IfStatement(EnvOf(frame), code, Snap(frame), fuel)) == Some((Snap(frame), frame.Ending(), used))
      decreases Left(), 9
    {
      hide EnvValid, Frame.Valid, Machine.Valid, Machine.Ready, Masked, Fits, Grows, WellFormed, Ordered, Condition,
        Block, PackageSpan;
      ok, used := false, 0;
      var p := PackageSpan(code[1..]);
      if p.None? { return; }
      var c := EvalCondition(frame, code[1 + p.value.0..1 + p.value.1], fuel);
      if c.None? { return; }
      if c.value.0 {
        ok := ExecuteBlock(frame, c.value.1, fuel);
        if !ok { return; }
      }
      used := 1 + p.value.1;
      if used < |code| && code[used] == 0xa1 {
        var q := PackageSpan(code[used + 1..]);
        if q.None? { return false, used; }
        if !c.value.0 {
          ok := ExecuteBlock(frame, code[used + 1 + q.value.0..used + 1 + q.value.1], fuel);
          if !ok { return; }
        }
        used := used + 1 + q.value.1;
      }
      ok := true;
    }

    /** While; every turn counts against the loop budget. */
    method RunWhile(frame: Frame, code: Bytes, ghost fuel: nat) returns (ok: bool, used: nat)
      requires Ready(frame) && frame.Going() && code != [] && fuel > Left()
      modifies this, frame
      ensures RanBlock(frame) && (ok ==> 0 < used <= |code| && !frame.broke && !frame.continued)
      ensures ok ==>
                var p := PackageSpan(code[1..]);
                && p.Some? && used == 1 + p.value.1
                && old(Loop(EnvOf(frame), code[1 + p.value.0..used], Snap(frame), fuel))
                   == Some((Snap(frame), frame.Ending()))
      decreases Left(), 9
    {
      hide EnvValid, Frame.Valid, Machine.Valid, Machine.Ready, Masked, Fits, Grows, WellFormed, Ordered, PackageSpan,
        Loop;
      ok, used := false, 0;
      var p := PackageSpan(code[1..]);
      if p.None? { return; }
      used := 1 + p.value.1;
      var body := code[1 + p.value.0..used];
      ghost var whole, left := Loop(EnvOf(frame), body, Snap(frame), fuel), fuel;
      var running := true;
      while running
        invariant RanBlock(frame) && frame.Going() && left > Left()
        invariant whole == if running then Loop(EnvOf(frame), body, Snap(frame), left) else Some((Snap(frame), Next))
        decreases running, if loops > MAX_LOOPS then 0 else MAX_LOOPS + 1 - loops
      {
        loops := loops + 1;
        if loops > MAX_LOOPS { return false, used; }
        ok, running := RunTurn(frame, body, left);
        if !ok || frame.returned { return; }
        left := left - 1;
      }
      ok := true;
    }

    /** One turn of a loop, and whether there is to be another. */
    method RunTurn(frame: Frame, body: Bytes, ghost fuel: nat) returns (ok: bool, again: bool)
      requires Ready(frame) && frame.Going() && fuel > Left()
      modifies this, frame
      ensures RanBlock(frame)
      ensures ok ==> !frame.broke && !frame.continued && (frame.returned ==> !again) && fuel - 1 > Left()
      ensures ok ==>
                old(Loop(EnvOf(frame), body, Snap(frame), fuel))
                == if again then Loop(EnvOf(frame), body, Snap(frame), fuel - 1)
                  else Some((Snap(frame), frame.Ending()))
      decreases Left(), 8
    {
      hide EnvValid, Frame.Valid, Machine.Valid, Machine.Ready, Masked, Fits, Grows, WellFormed, Ordered, Condition,
        Block, Loop;
      ghost var st := Snap(frame);
      var c := EvalCondition(frame, body, fuel);
      if c.None? { return false, false; }
      LoopTurns(EnvOf(frame), body, st, fuel, (c.value.0, c.value.1, Snap(frame)));
      ok, again := true, c.value.0;
      if again {
        ok := ExecuteBlock(frame, c.value.1, fuel);
        if !ok || frame.returned { return ok, false; }
        again := !frame.broke;
        frame.broke, frame.continued := false, false;
      }
    }

    // ----- choosing by opcode -----

    /** A constant, a slot or a string is its own value. */
    method EvalData(frame: Frame, aml: Bytes) returns (r: Result)
      requires Ready(frame) && IsData(aml)
      ensures Fitting(aml, r)
      ensures r.Done? ==> Data(EnvOf(frame), aml, Snap(frame)) == Some(Outcome(r.value, r.used, Snap(frame)))
    {
      hide WellFormed, Ordered, Literal;
      var n := LiteralSpan(aml);
      if n.Some? { return Done(Cut(Literal(aml, mask), mask), n.value); }
      if 0x60 <= aml[0] <= 0x67 { return Done(frame.locals[aml[0] - 0x60], 1); }
      if 0x68 <= aml[0] <= 0x6e { return Done(frame.arguments[aml[0] - 0x68], 1); }
      var end := StringSpan(aml, 1);
      if end.None? { return Failed; }
      r := Done(Text(aml[1..end.value - 1]), end.value);
    }

    /** The operators. */
    method EvalOperator(frame: Frame, aml: Bytes, ghost fuel: nat) returns (r: Result)
      requires Ready(frame) && aml != [] && fuel > Left()
      modifies this, frame
      ensures Ran(frame) && Fitting(aml, r)
      ensures r.Done? ==>
                old(OperatorTerm(EnvOf(frame), aml, Snap(frame), fuel)) == Some(Outcome(r.value, r.used, Snap(frame)))
      decreases Left(), 10
    {
      hide EnvValid, Frame.Valid, Machine.Valid, Machine.Ready, Masked, Fits, Grows, WellFormed, Ordered, IsArithmetic,
        IsLogical, StoreTerm, DereferenceTerm,
        CountTerm, ArithmeticTerm, LogicalTerm, DivideTerm, NotTerm, LogicalNotTerm, SizeTerm, ConversionTerm;
      var op := aml[0];
      if op == 0x70 || op == 0x9d {
        r := EvalStore(frame, aml, fuel);
      } else if op == 0x83 {
        r := EvalDereference(frame, aml, fuel);
      } else if op == 0x75 || op == 0x76 {
        r := EvalCount(frame, aml, fuel);
      } else if IsArithmetic(op) {
        r := EvalArithmetic(frame, aml, fuel);
      } else if IsLogical(op) {
        r := EvalLogical(frame, aml, fuel);
      } else if op == 0x78 {
        r := EvalDivide(frame, aml, fuel);
      } else if op == 0x80 {
        r := EvalNot(frame, aml, fuel);
      } else if op == 0x92 {
        r := EvalLogicalNot(frame, aml, fuel);
      } else if op == 0x87 {
        r := EvalSizeOf(frame, aml, fuel);
      } else if op == 0x96 || op == 0x99 {
        r := EvalConversion(frame, aml, fuel);
      } else {
        r := Failed;
      }
    }

    /** Everything a term can be. */
    method EvalOpcode(frame: Frame, aml: Bytes, ghost fuel: nat) returns (r: Result)
      requires Ready(frame) && aml != [] && fuel > Left()
      modifies this, frame
      ensures Ran(frame) && Fitting(aml, r)
      ensures r.Done? ==>
                old(Meaning(EnvOf(frame), aml, Snap(frame), fuel)) == Some(Outcome(r.value, r.used, Snap(frame)))
      decreases Left(), 11
    {
      hide EnvValid, Frame.Valid, Machine.Valid, Machine.Ready, Masked, Fits, Grows, WellFormed, Ordered, IsData,
        NameStarts, Data, BufferTerm, PackageTerm, NameTerm,
        NamedTerm, OperatorTerm;
      var op := aml[0];
      if IsData(aml) {
        r := EvalData(frame, aml);
      } else if op == 0x11 {
        r := EvalBuffer(frame, aml, fuel);
      } else if op == 0x12 || op == 0x13 {
        r := EvalPackage(frame, aml, fuel);
      } else if op == 0x08 {
        r := EvalNameOp(frame, aml, fuel);
      } else if op == 0xa3 {
        r := Done(Cut(0, mask), 1);
      } else if NameStarts(aml) {
        r := EvalName(frame, aml, fuel);
      } else {
        r := EvalOperator(frame, aml, fuel);
      }
    }
  }

  /** Elements found before the rest of them. */
  function Behind(front: seq<Value>, x: Option<(seq<Value>, State)>): Option<(seq<Value>, State)> {
    if x.None? then None else Some((front + x.value.0, x.value.1))
  }

  function Before(front: seq<Value>, x: Option<(seq<Value>, nat, State)>): Option<(seq<Value>, nat, State)> {
    if x.None? then None else Some((front + x.value.0, x.value.1, x.value.2))
  }

  lemma BehindNothing(x: Option<(seq<Value>, State)>)
    ensures Behind([], x) == x
  {
    assert x.Some? ==> [] + x.value.0 == x.value.0;
  }

  lemma BeforeNothing(x: Option<(seq<Value>, nat, State)>)
    ensures Before([], x) == x
  {
    assert x.Some? ==> [] + x.value.0 == x.value.0;
  }

  lemma BeforeMore(front: seq<Value>, v: Value, x: Option<(seq<Value>, nat, State)>)
    ensures Before(front, if x.None? then None else Some(([v] + x.value.0, x.value.1, x.value.2)))
            == Before(front + [v], x)
  {
    assert x.Some? ==> front + ([v] + x.value.0) == front + [v] + x.value.0;
  }

  lemma MaskedNone(mask: bv64)
    ensures AllMasked([], mask)
  {
  }

  lemma MaskedMore(front: seq<Value>, v: Value, mask: bv64)
    requires AllMasked(front, mask) && Masked(v, mask)
    ensures AllMasked(front + [v], mask)
  {
  }

  /** One more element. */
  lemma ElementsMore(e: Env, aml: Bytes, cursor: nat, left: nat, st: State, fuel: nat, m: Outcome, front: seq<Value>)
    requires EnvValid(e) && Sized(st) && cursor < |aml| && left > 0
    requires Meaning(e, aml[cursor..], st, fuel) == Some(m)
    ensures cursor + m.used <= |aml| && Sized(m.state)
    ensures Behind(front, Elements(e, aml[cursor..], st, left, fuel))
         == Behind(front + [m.value], Elements(e, aml[cursor + m.used..], m.state, left - 1, fuel))
  {
    hide Meaning, EnvValid;
    assert aml[cursor..][m.used..] == aml[cursor + m.used..];
    var x := Elements(e, aml[cursor + m.used..], m.state, left - 1, fuel);
    assert x.Some? ==> front + ([m.value] + x.value.0) == front + [m.value] + x.value.0;
  }

  /** No more elements: the rest is left empty. */
  lemma ElementsAll(e: Env, aml: Bytes, left: nat, st: State, fuel: nat, front: seq<Value>)
    requires EnvValid(e) && Sized(st) && (left == 0 || aml == [])
    ensures Behind(front, Elements(e, aml, st, left, fuel)) == Some((front + seq(left, _ => Nothing), st))
  {
    hide Meaning, EnvValid;
  }

  /** What naming a value says. */
  lemma NameMeans(e: Env, aml: Bytes, st: State, fuel: nat, p: (Path, nat), m: Outcome)
    requires EnvValid(e) && Sized(st) && aml != [] && ParseName(aml[1..]) == Some(p)
    requires IsSingle(p.0) && p.0.segments[0] != 0 && Meaning(e, aml[1 + p.1..], st, fuel) == Some(m)
    requires p.0.segments[0] in m.state.dynamic || |m.state.dynamic| < MAX_DYNAMIC
    ensures NameTerm(e, aml, st, fuel)
            == Some(Outcome(Cut(0, e.mask), 1 + p.1 + m.used,
                            m.state.(dynamic := m.state.dynamic[p.0.segments[0] := m.value])))
  {
    hide Meaning, ParseName, EnvValid, Cut;
  }

  /** What the size of a buffer says about it. */
  lemma BufferMeans(e: Env, aml: Bytes, st: State, fuel: nat, p: (nat, nat), s: Outcome, n: (bv64, State))
    requires EnvValid(e) && Sized(st) && aml != [] && PackageSpan(aml[1..]) == Some(p) && n.0 <= MAX_BUFFER
    requires Meaning(e, aml[1 + p.0..1 + p.1], st, fuel) == Some(s) && Number(e, s.value, s.state, fuel) == Some(n)
    ensures BufferTerm(e, aml, st, fuel)
            == Some(Outcome(Buffer(Filled(aml[1 + p.0 + s.used..1 + p.1], n.0 as nat)), 1 + p.1, n.1))
  {
    hide Meaning, Number, PackageSpan, Filled, EnvValid;
  }

  lemma MaskedBuffer(bytes: Bytes, mask: bv64)
    ensures Masked(Buffer(bytes), mask)
  {
  }

  lemma MaskedReference(node: nat, mask: bv64)
    ensures Masked(Reference(node), mask)
  {
  }

  lemma MaskedPackage(elements: seq<Value>, mask: bv64)
    requires AllMasked(elements, mask)
    ensures Masked(Package(elements), mask)
  {
  }

  lemma MaskedPadding(elements: seq<Value>, count: nat, mask: bv64)
    requires AllMasked(elements, mask)
    ensures AllMasked(elements + seq(count, _ => Nothing), mask)
  {
  }

  lemma NameFacts(t: Nodes, h: nat)
    requires WellFormed(t) && h < |t| && t[h].kind == Name
    ensures t[h].content.NameObject? && t[h].parent < h
  {
  }

  lemma ArityBound(t: Nodes, h: nat)
    requires WellFormed(t)
    ensures Arity(t, h) <= 7
  {
  }

  /** One more argument. */
  lemma ArgumentsMore(e: Env, aml: Bytes, end: nat, left: nat, st: State, fuel: nat, m: Outcome, front: seq<Value>)
    requires EnvValid(e) && Sized(st) && 0 < end <= |aml| && left > 0
    requires Meaning(e, aml[end..], st, fuel) == Some(m)
    ensures Before(front, Arguments(e, aml, end, left, st, fuel))
         == Before(front + [m.value], Arguments(e, aml, end + m.used, left - 1, m.state, fuel))
  {
    hide Meaning, EnvValid;
    BeforeMore(front, m.value, Arguments(e, aml, end + m.used, left - 1, m.state, fuel));
  }

  /** No more arguments. */
  lemma ArgumentsAll(e: Env, aml: Bytes, end: nat, st: State, fuel: nat, front: seq<Value>)
    requires EnvValid(e) && Sized(st) && 0 < end <= |aml|
    ensures Before(front, Arguments(e, aml, end, 0, st, fuel)) == Some((front, end, st))
  {
    hide Meaning, EnvValid;
    assert front + [] == front;
  }

  /** One turn of a loop. */
  lemma LoopTurns(e: Env, body: Bytes, st: State, fuel: nat, c: (bool, Bytes, State))
    requires EnvValid(e) && Sized(st) && Condition(e, body, st, fuel) == Some(c)
    ensures Loop(e, body, st, fuel) ==
            if !c.0 then Some((c.2, Next))
            else
              var x :- Block(e, c.1, c.2, fuel);
              if x.1.Return? then Some(x)
              else if x.1.Break? then Some((x.0, Next))
              else if fuel == 0 then None
              else Loop(e, body, x.0, fuel - 1)
  {
    hide Condition, Block, EnvValid;
  }

  /** What running a method's body says about calling it. */
  lemma CallRuns(e: Env, h: nat, arguments: seq<Value>, objects: map<nat, Value>, fuel: nat, v: Value, after: map<nat,
                 Value>)
    requires EnvValid(e) && h < |e.t| && e.t[h].kind == Method && |arguments| == Arity(e.t, h) && |arguments| <= 7
             && fuel > 0
    requires Ended(e.(scope := h), Body(e.t, h), Fresh(objects).(arguments := Padded(arguments)), fuel - 1, v, after)
    ensures Call(e, h, arguments, objects, fuel) == Some((v, after))
  {
    hide Block, Follow, Body, WellFormed, Ordered;
  }

  /** A method's body ran from a state and gave a value and the named objects after. */
  ghost predicate Ended(e: Env, code: Bytes, st: State, fuel: nat, v: Value, objects: map<nat, Value>)
    requires EnvValid(e) && Sized(st)
  {
    var b := Block(e, code, st, fuel);
    && b.Some?
    && if b.value.1.Return? then Followed(e, b.value.1.value, b.value.0, fuel, v, objects)
       else v == Cut(0, e.mask) && objects == b.value.0.objects
  }

  /** What calling a method says about its name. */
  lemma NamedCalls(e: Env, aml: Bytes, st: State, fuel: nat, a: (seq<Value>, nat, State), c: (Value, map<nat, Value>))
    requires EnvValid(e) && Sized(st) && aml != [] && ParseName(aml).Some?
    requires var p := ParseName(aml).value;
             var h := Real(e.t, Resolved(e.t, e.scope, p.0));
             && !(IsSingle(p.0) && p.0.segments[0] in st.dynamic) && h != INVALID && IsMethod(e.t[h])
             && Arguments(e, aml, p.1, Arity(e.t, h), st, fuel) == Some(a)
             && Call(e, h, a.0, a.2.objects, fuel) == Some(c)
    ensures NamedTerm(e, aml, st, fuel) == Some(Outcome(c.0, a.1, a.2.(objects := c.1)))
  {
    hide ParseName, Real, Resolved, Arguments, Call, WellFormed, Ordered;
  }

  ghost predicate Followed(e: Env, v: Value, st: State, fuel: nat, value: Value, objects: map<nat, Value>)
    requires EnvValid(e)
  {
    var d := Follow(e, v, st, fuel);
    d.Some? && d.value.0 == value && d.value.1.objects == objects
  }
}
