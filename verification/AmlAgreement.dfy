/** Where the length scanner and the meaning of a term take the same bytes. */
module AmlAgreement {
  import opened Options
  import opened AmlNamespace
  import opened AmlTerms
  import opened AmlValues
  import opened AmlMeaning

  /** The scanner sees what the evaluator sees: no alias leads to a method that
      takes arguments, and no local object hides one. */
  ghost predicate Plain(t: Nodes, scope: nat, names: set<u32>)
    requires WellFormed(t) && scope < |t|
  {
    && (forall h :: 0 <= h < |t| && t[h].kind == Alias ==> Arity(t, Real(t, h)) == 0)
    && (forall n :: n in names ==> Arity(t, SearchUp(t, scope, n)) == 0)
  }

  lemma PlainLess(t: Nodes, scope: nat, names: set<u32>, more: set<u32>)
    requires WellFormed(t) && scope < |t| && names <= more && Plain(t, scope, more)
    ensures Plain(t, scope, names)
  {
  }

  // ----- how many arguments a name takes -----

  function ScannedArity(t: Nodes, scope: nat, path: Path): nat
    requires Ordered(t) && scope < |t|
  {
    Arity(t, Resolved(t, scope, path))
  }

  // ----- pieces of a term -----

  lemma ShapeTaken(t: Nodes, scope: nat, aml: Bytes, parts: seq<Part>, uses: seq<nat>)
    requires Ordered(t) && IsScope(t, scope) && aml != [] && Shape(aml[0]) == Some(parts)
    requires AllTake(t, scope, aml, 1, parts, uses) && 1 + Sum(uses) <= |aml|
    ensures Takes(t, scope, aml, Term, 1 + Sum(uses))
  {
    hide AllTake, PartsSpan, Sum, ParseName, PackageSpan, StringSpan, Resolved, Ordered, Arity;
    PartsTaken(t, scope, aml, 1, parts, uses, 0);
  }

  lemma OneTaken(t: Nodes, scope: nat, aml: Bytes, p: Part, u: nat)
    requires Ordered(t) && IsScope(t, scope) && aml != [] && Shape(aml[0]) == Some([p])
    requires Takes(t, scope, aml[1..], p, u)
    ensures Takes(t, scope, aml, Term, 1 + u)
  {
    hide Takes, Shape;
    assert u <= |aml[1..]| by { assert Takes(t, scope, aml[1..], p, u); TakesBound(t, scope, aml[1..], p, u); }
    TakesMore(t, scope, aml, 1, [], [], p, u);
    assert [] + [p] == [p] && [] + [u] == [u];
    ShapeTaken(t, scope, aml, [p], [u]);
  }

  lemma TakesBound(t: Nodes, scope: nat, aml: Bytes, p: Part, u: nat)
    requires Ordered(t) && IsScope(t, scope) && Takes(t, scope, aml, p, u)
    ensures u <= |aml|
  {
  }

  lemma TwoTaken(t: Nodes, scope: nat, aml: Bytes, p: Part, q: Part, u: nat, v: nat)
    requires Ordered(t) && IsScope(t, scope) && aml != [] && Shape(aml[0]) == Some([p, q])
    requires 1 + u <= |aml| && Takes(t, scope, aml[1..], p, u) && Takes(t, scope, aml[1 + u..], q, v)
    ensures Takes(t, scope, aml, Term, 1 + u + v)
  {
    hide Takes, Shape;
    TakesBound(t, scope, aml[1 + u..], q, v);
    TakesMore(t, scope, aml, 1, [], [], p, u);
    assert [] + [p] == [p] && [] + [u] == [u] && Sum([u]) == u;
    TakesMore(t, scope, aml, 1, [p], [u], q, v);
    assert [p] + [q] == [p, q] && [u] + [v] == [u, v];
    ShapeTaken(t, scope, aml, [p, q], [u, v]);
  }

  lemma ThreeTaken(t: Nodes, scope: nat, aml: Bytes, p: Part, q: Part, r: Part, u: nat, v: nat, w: nat)
    requires Ordered(t) && IsScope(t, scope) && aml != [] && Shape(aml[0]) == Some([p, q, r])
    requires 1 + u + v <= |aml| && Takes(t, scope, aml[1..], p, u) && Takes(t, scope, aml[1 + u..], q, v)
    requires Takes(t, scope, aml[1 + u + v..], r, w)
    ensures Takes(t, scope, aml, Term, 1 + u + v + w)
  {
    hide Takes, Shape, AllTake, Sum;
    TakesBound(t, scope, aml[1 + u + v..], r, w);
    ThreePieces(t, scope, aml, p, q, r, u, v, w);
    ShapeTaken(t, scope, aml, [p, q, r], [u, v, w]);
  }

  lemma TwoPieces(t: Nodes, scope: nat, aml: Bytes, p: Part, q: Part, u: nat, v: nat)
    requires Ordered(t) && IsScope(t, scope) && aml != []
    requires 1 + u + v <= |aml| && Takes(t, scope, aml[1..], p, u) && Takes(t, scope, aml[1 + u..], q, v)
    ensures AllTake(t, scope, aml, 1, [p, q], [u, v]) && Sum([u, v]) == u + v
  {
    hide Takes;
    TakesMore(t, scope, aml, 1, [], [], p, u);
    assert [] + [p] == [p] && [] + [u] == [u] && Sum([u]) == u;
    TakesMore(t, scope, aml, 1, [p], [u], q, v);
    assert [p] + [q] == [p, q] && [u] + [v] == [u, v];
  }

  lemma ThreePieces(t: Nodes, scope: nat, aml: Bytes, p: Part, q: Part, r: Part, u: nat, v: nat, w: nat)
    requires Ordered(t) && IsScope(t, scope) && aml != []
    requires 1 + u + v + w <= |aml| && Takes(t, scope, aml[1..], p, u) && Takes(t, scope, aml[1 + u..], q, v)
    requires Takes(t, scope, aml[1 + u + v..], r, w)
    ensures AllTake(t, scope, aml, 1, [p, q, r], [u, v, w]) && Sum([u, v, w]) == u + v + w
  {
    hide Takes, AllTake, Sum;
    TwoPieces(t, scope, aml, p, q, u, v);
    assert aml[1 + (u + v)..] == aml[1 + u + v..];
    TakesMore(t, scope, aml, 1, [p, q], [u, v], r, w);
    assert [p, q] + [r] == [p, q, r] && [u, v] + [w] == [u, v, w];
  }

  lemma FourTaken(t: Nodes, scope: nat, aml: Bytes, p: seq<Part>, u: nat, v: nat, w: nat, x: nat)
    requires Ordered(t) && IsScope(t, scope) && aml != [] && |p| == 4 && Shape(aml[0]) == Some(p)
    requires 1 + u + v + w <= |aml| && Takes(t, scope, aml[1..], p[0], u) && Takes(t, scope, aml[1 + u..], p[1], v)
    requires Takes(t, scope, aml[1 + u + v..], p[2], w) && Takes(t, scope, aml[1 + u + v + w..], p[3], x)
    ensures Takes(t, scope, aml, Term, 1 + u + v + w + x)
  {
    hide Takes, Shape, AllTake, Sum;
    TakesBound(t, scope, aml[1 + u + v + w..], p[3], x);
    ThreePieces(t, scope, aml, p[0], p[1], p[2], u, v, w);
    assert aml[1 + (u + v + w)..] == aml[1 + u + v + w..];
    TakesMore(t, scope, aml, 1, [p[0], p[1], p[2]], [u, v, w], p[3], x);
    assert [p[0], p[1], p[2]] + [p[3]] == p && [u, v, w] + [x] == [u, v, w, x];
    ShapeTaken(t, scope, aml, p, [u, v, w, x]);
  }

  lemma PackagedTaken(t: Nodes, scope: nat, aml: Bytes)
    requires Ordered(t) && IsScope(t, scope) && aml != [] && IsPackaged(aml[0]) && PackageSpan(aml[1..]).Some?
    ensures Takes(t, scope, aml, Term, 1 + PackageSpan(aml[1..]).value.1)
  {
    hide PackageSpan;
  }

  lemma NoneTaken(t: Nodes, scope: nat, aml: Bytes, offset: nat)
    requires Ordered(t) && IsScope(t, scope) && offset <= |aml|
    ensures AllTake(t, scope, aml, offset, Terms(0), [])
  {
  }

  /** Terms only the evaluator knows. */
  lemma Unscanned(t: Nodes, scope: nat, aml: Bytes, used: nat)
    requires Ordered(t) && IsScope(t, scope) && aml != [] && used <= |aml| && (aml[0] == 0x08 || aml[0] == 0x9d)
    ensures Takes(t, scope, aml, Term, used)
  {
    assert TermSpan(t, scope, aml, 0).None?;
  }

  /** The evaluator takes what the scanner takes for a target. */
  lemma TargetTaken(e: Env, names: set<u32>, aml: Bytes)
    requires EnvValid(e) && TargetOf(e, names, aml).Some?
    ensures Takes(e.t, e.scope, aml, Target, TargetOf(e, names, aml).value.1)
  {
    hide ParseName, Resolved, TermSpan;
  }

  lemma NoOpTaken(t: Nodes, scope: nat, aml: Bytes)
    requires Ordered(t) && IsScope(t, scope) && aml != [] && aml[0] == 0xa3
    ensures Takes(t, scope, aml, Term, 1)
  {
    Shapes();
    NoneTaken(t, scope, aml, 1);
    ShapeTaken(t, scope, aml, [], []);
  }

  lemma Shapes()
    ensures Shape(0x70) == Shape(0x80) == Shape(0x96) == Shape(0x99) == Some([Term, Target])
    ensures Shape(0x83) == Shape(0x92) == Some([Term])
    ensures Shape(0x75) == Shape(0x76) == Shape(0x87) == Some([Target])
    ensures Shape(0x78) == Some([Term, Term, Target, Target])
    ensures Shape(0xa3) == Some([])
  {
  }

  lemma ArithmeticShape(op: byte)
    requires IsArithmetic(op)
    ensures Shape(op) == Some([Term, Term, Target])
  {
  }

  lemma LogicalShape(op: byte)
    requires IsLogical(op)
    ensures Shape(op) == Some([Term, Term])
  {
  }

  // ----- names, exactly -----

  /** The arguments from `start` on are each taken as the scanner takes them. */
  ghost predicate InStep(e: Env, aml: Bytes, start: nat, count: nat, st: State, fuel: nat)
    requires EnvValid(e) && Sized(st)
    decreases count
  {
    count == 0 ||
    (start <= |aml|
     && var s := Meaning(e, aml[start..], st, fuel);
        && s.Some? && Takes(e.t, e.scope, aml[start..], Term, s.value.used)
        && InStep(e, aml, start + s.value.used, count - 1, s.value.state, fuel))
  }

  /** Arguments in step end where the scanner says. */
  lemma {:induction false} InStepEnds(e: Env, aml: Bytes, start: nat, count: nat, st: State, fuel: nat, d: nat)
    requires EnvValid(e) && Sized(st) && 0 < start <= |aml| && InStep(e, aml, start, count, st, fuel)
    ensures Arguments(e, aml, start, count, st, fuel).Some?
    ensures var k := PartsSpan(e.t, e.scope, aml, start, Terms(count), d);
            k.Some? ==> k.value == Arguments(e, aml, start, count, st, fuel).value.1
    decreases count
  {
    hide Meaning, TermSpan, TargetSpan, ParseName, WellFormed, Ordered;
    if count > 0 {
      var rest := aml[start..];
      var s := Meaning(e, rest, st, fuel).value;
      OneMoreTerm(count);
      if TermSpan(e.t, e.scope, rest, d + 1).Some? {
        TermDepth(e.t, e.scope, rest, d + 1, 0);
      }
      InStepEnds(e, aml, start + s.used, count - 1, s.state, fuel, d);
    }
  }

  lemma OneMoreTerm(count: nat)
    requires count > 0
    ensures Terms(count)[0] == Term && Terms(count)[1..] == Terms(count - 1) && Terms(count) != []
  {
  }

  /** Every argument takes at least a byte, for the scanner and for the evaluator. */
  lemma {:induction false} ScanGrows(t: Nodes, scope: nat, aml: Bytes, start: nat, count: nat, d: nat)
    requires Ordered(t) && IsScope(t, scope) && 0 < start <= |aml|
    ensures var k := PartsSpan(t, scope, aml, start, Terms(count), d); k.Some? ==> k.value >= start + count
    decreases count
  {
    hide TermSpan, TargetSpan, ParseName;
    if count > 0 {
      OneMoreTerm(count);
      var s := TermSpan(t, scope, aml[start..], d + 1);
      if s.Some? {
        ScanGrows(t, scope, aml, start + s.value, count - 1, d);
      }
    }
  }

  lemma {:induction false} ArgumentsGrow(e: Env, aml: Bytes, start: nat, count: nat, st: State, fuel: nat)
    requires EnvValid(e) && Sized(st) && 0 < start <= |aml| && Arguments(e, aml, start, count, st, fuel).Some?
    ensures Arguments(e, aml, start, count, st, fuel).value.1 >= start + count
    ensures count == 0 ==> Arguments(e, aml, start, count, st, fuel).value.1 == start
    decreases count
  {
    hide Meaning, EnvValid;
    if count > 0 {
      var s := Meaning(e, aml[start..], st, fuel).value;
      ArgumentsGrow(e, aml, start + s.used, count - 1, s.state, fuel);
    }
  }

  /** The scanner's length of a term that is a name. */
  lemma NameSpan(t: Nodes, scope: nat, aml: Bytes, d: nat)
    requires Ordered(t) && scope < |t| && NameStarts(aml) && ParseName(aml).Some? && d <= MAX_DEPTH
    ensures var (path, used) := ParseName(aml).value;
            TermSpan(t, scope, aml, d) == PartsSpan(t, scope, aml, used, Terms(ScannedArity(t, scope, path)), d)
  {
    hide PartsSpan, ParseName, Resolved;
  }

  lemma NameMeaning(e: Env, aml: Bytes, st: State, fuel: nat)
    requires EnvValid(e) && Sized(st) && NameStarts(aml)
    ensures Meaning(e, aml, st, fuel) == NamedTerm(e, aml, st, fuel)
  {
    NameIsName(aml);
    hide NamedTerm, EnvValid, IsData, NameStarts, BufferTerm, PackageTerm, NameTerm, OperatorTerm, Data, Fits;
  }

  /** No other term starts like a name. */
  lemma NameIsName(aml: Bytes)
    requires NameStarts(aml)
    ensures aml != [] && !IsData(aml) && aml[0] != 0x08 && aml[0] != 0x11 && aml[0] != 0x12 && aml[0] != 0x13
            && aml[0] != 0xa3
  {
  }

  /** A local object of the frame has the name. */
  predicate Hidden(names: set<u32>, path: Path) {
    IsSingle(path) && path.segments[0] in names
  }

  ghost predicate IsAlias(e: Env, path: Path)
    requires EnvValid(e)
  {
    var h := Resolved(e.t, e.scope, path);
    h < |e.t| && e.t[h].kind == Alias
  }

  /** Neither difference between the two shows for this name: it hides no method that
      takes arguments, and is no alias of one. */
  ghost predicate SameView(e: Env, names: set<u32>, path: Path)
    requires EnvValid(e)
  {
    if Hidden(names, path) then Arity(e.t, SearchUp(e.t, e.scope, path.segments[0])) == 0
    else IsAlias(e, path) ==> Arity(e.t, Real(e.t, Resolved(e.t, e.scope, path))) == 0
  }

  /** A name that is a local object is taken without arguments, whatever it hides. */
  lemma HiddenTakes(e: Env, aml: Bytes, st: State, fuel: nat)
    requires EnvValid(e) && Sized(st) && NameStarts(aml) && ParseName(aml).Some?
    requires Hidden(st.dynamic.Keys, ParseName(aml).value.0) && TermSpan(e.t, e.scope, aml, 0).Some?
    ensures NamedTerm(e, aml, st, fuel).Some? && NamedTerm(e, aml, st, fuel).value.used == ParseName(aml).value.1
    ensures TermSpan(e.t, e.scope, aml, 0).value == ParseName(aml).value.1
            <==> Arity(e.t, SearchUp(e.t, e.scope, ParseName(aml).value.0.segments[0])) == 0
  {
    hide ParseName, TermSpan;
    var (path, used) := ParseName(aml).value;
    NameSpan(e.t, e.scope, aml, 0);
    ScanGrows(e.t, e.scope, aml, used, ScannedArity(e.t, e.scope, path), 0);
  }

  /** A name that is an alias is scanned without arguments, whatever it leads to. */
  lemma AliasTakes(e: Env, aml: Bytes, st: State, fuel: nat)
    requires EnvValid(e) && Sized(st) && NameStarts(aml) && ParseName(aml).Some? && NamedTerm(e, aml, st, fuel).Some?
    requires !Hidden(st.dynamic.Keys, ParseName(aml).value.0) && IsAlias(e, ParseName(aml).value.0)
    ensures TermSpan(e.t, e.scope, aml, 0) == Some(ParseName(aml).value.1)
    ensures NamedTerm(e, aml, st, fuel).value.used == ParseName(aml).value.1
            <==> Arity(e.t, Real(e.t, Resolved(e.t, e.scope, ParseName(aml).value.0))) == 0
  {
    hide ParseName, TermSpan, Resolved, Real, Arguments, Call, NodeValue;
    var (path, used) := ParseName(aml).value;
    NameSpan(e.t, e.scope, aml, 0);
    var h := Real(e.t, Resolved(e.t, e.scope, path));
    if IsMethod(e.t[h]) {
      ArgumentsGrow(e, aml, used, Arity(e.t, h), st, fuel);
    }
  }

  /** Any other name takes as many arguments for one as for the other. */
  lemma DirectTakes(e: Env, aml: Bytes, st: State, fuel: nat)
    requires EnvValid(e) && Sized(st) && NameStarts(aml) && ParseName(aml).Some? && NamedTerm(e, aml, st, fuel).Some?
    requires !Hidden(st.dynamic.Keys, ParseName(aml).value.0) && !IsAlias(e, ParseName(aml).value.0)
    requires InStep(e, aml, ParseName(aml).value.1, ScannedArity(e.t, e.scope, ParseName(aml).value.0), st, fuel)
    ensures Takes(e.t, e.scope, aml, Term, NamedTerm(e, aml, st, fuel).value.used)
  {
    hide ParseName, TermSpan, Resolved, Arguments, Call, NodeValue, InStep;
    var (path, used) := ParseName(aml).value;
    var h := Resolved(e.t, e.scope, path);
    assert Real(e.t, h) == h;
    NameSpan(e.t, e.scope, aml, 0);
    InStepEnds(e, aml, used, Arity(e.t, h), st, fuel, 0);
    NoArguments(e, aml, used, st, fuel);
  }

  lemma NoArguments(e: Env, aml: Bytes, start: nat, st: State, fuel: nat)
    requires EnvValid(e) && Sized(st) && 0 < start <= |aml|
    ensures Arguments(e, aml, start, 0, st, fuel) == Some(([], start, st))
  {
  }

  /** On a name on which both succeed, with arguments, if both take them, in step:
      scanner and evaluator take the same bytes if and only if the name hides no
      method that takes arguments and is no alias of one. */
  lemma NameAgreesExactly(e: Env, aml: Bytes, st: State, fuel: nat, n: nat, m: Outcome)
    requires EnvValid(e) && Sized(st) && NameStarts(aml) && ParseName(aml).Some?
    requires TermSpan(e.t, e.scope, aml, 0) == Some(n) && Meaning(e, aml, st, fuel) == Some(m)
    requires var (path, used) := ParseName(aml).value;
             Hidden(st.dynamic.Keys, path) || IsAlias(e, path)
             || InStep(e, aml, used, ScannedArity(e.t, e.scope, path), st, fuel)
    ensures n == m.used <==> SameView(e, st.dynamic.Keys, ParseName(aml).value.0)
  {
    hide Meaning, NamedTerm, TermSpan, ParseName, Resolved, Real, InStep, EnvValid, ScannedArity;
    NameMeaning(e, aml, st, fuel);
    var path := ParseName(aml).value.0;
    if Hidden(st.dynamic.Keys, path) {
      HiddenTakes(e, aml, st, fuel);
    } else if IsAlias(e, path) {
      AliasTakes(e, aml, st, fuel);
    } else {
      DirectTakes(e, aml, st, fuel);
    }
  }

  // ----- the meaning of a term takes the scanner's bytes -----

  /** What is left of a term after its operands goes to a target. */
  lemma StoredTakes(e: Env, aml: Bytes, at: nat, st: State, v: Value)
    requires EnvValid(e) && Sized(st) && 0 < at <= |aml| && Stored(e, aml, at, st, v).Some?
    ensures Stored(e, aml, at, st, v).value.used > at
    ensures Takes(e.t, e.scope, aml[at..], Target, Stored(e, aml, at, st, v).value.used - at)
  {
    hide Takes, TargetOf, Put, EnvValid;
    TargetTaken(e, st.dynamic.Keys, aml[at..]);
  }

  lemma {:induction false} StoreTakes(e: Env, aml: Bytes, st: State, fuel: nat)
    requires EnvValid(e) && Sized(st) && aml != [] && (aml[0] == 0x70 || aml[0] == 0x9d)
             && StoreTerm(e, aml, st, fuel).Some?
    requires Plain(e.t, e.scope, StoreTerm(e, aml, st, fuel).value.state.dynamic.Keys)
    ensures Takes(e.t, e.scope, aml, Term, StoreTerm(e, aml, st, fuel).value.used)
    decreases fuel, |aml|, 7
  {
    hide Takes, Plain, WellFormed, Ordered, Meaning, Follow, Number, Put, Get, TargetOf, Stored, Shape;
    var s := Meaning(e, aml[1..], st, fuel).value;
    PlainLess(e.t, e.scope, s.state.dynamic.Keys, StoreTerm(e, aml, st, fuel).value.state.dynamic.Keys);
    MeaningTakes(e, aml[1..], st, fuel);
    var d := Follow(e, s.value, s.state, fuel).value;
    StoredTakes(e, aml, 1 + s.used, d.1, d.0);
    var used := Stored(e, aml, 1 + s.used, d.1, d.0).value.used;
    if aml[0] == 0x9d {
      Unscanned(e.t, e.scope, aml, used);
    } else {
      Shapes();
      TwoTaken(e.t, e.scope, aml, Term, Target, s.used, used - 1 - s.used);
    }
  }

  lemma {:induction false} NotTakes(e: Env, aml: Bytes, st: State, fuel: nat)
    requires EnvValid(e) && Sized(st) && aml != [] && aml[0] == 0x80 && NotTerm(e, aml, st, fuel).Some?
    requires Plain(e.t, e.scope, NotTerm(e, aml, st, fuel).value.state.dynamic.Keys)
    ensures Takes(e.t, e.scope, aml, Term, NotTerm(e, aml, st, fuel).value.used)
    decreases fuel, |aml|, 7
  {
    hide Takes, Plain, WellFormed, Ordered, Meaning, Follow, Number, Put, Get, TargetOf, Stored, Shape, Complement;
    var s := Meaning(e, aml[1..], st, fuel).value;
    PlainLess(e.t, e.scope, s.state.dynamic.Keys, NotTerm(e, aml, st, fuel).value.state.dynamic.Keys);
    MeaningTakes(e, aml[1..], st, fuel);
    var n := Number(e, s.value, s.state, fuel).value;
    StoredTakes(e, aml, 1 + s.used, n.1, Cut(Complement(n.0), e.mask));
    Shapes();
    TwoTaken(e.t, e.scope, aml, Term, Target, s.used, NotTerm(e, aml, st, fuel).value.used - 1 - s.used);
  }

  lemma {:induction false} ConversionTakes(e: Env, aml: Bytes, st: State, fuel: nat)
    requires EnvValid(e) && Sized(st) && aml != [] && (aml[0] == 0x96 || aml[0] == 0x99)
             && ConversionTerm(e, aml, st, fuel).Some?
    requires Plain(e.t, e.scope, ConversionTerm(e, aml, st, fuel).value.state.dynamic.Keys)
    ensures Takes(e.t, e.scope, aml, Term, ConversionTerm(e, aml, st, fuel).value.used)
    decreases fuel, |aml|, 7
  {
    hide Takes, Plain, WellFormed, Ordered, Meaning, Follow, Number, Put, Get, TargetOf, Stored, Shape, Converted;
    var s := Meaning(e, aml[1..], st, fuel).value;
    PlainLess(e.t, e.scope, s.state.dynamic.Keys, ConversionTerm(e, aml, st, fuel).value.state.dynamic.Keys);
    MeaningTakes(e, aml[1..], st, fuel);
    var d := Follow(e, s.value, s.state, fuel).value;
    StoredTakes(e, aml, 1 + s.used, d.1, Converted(d.0, aml[0] == 0x99, e.mask).value);
    Shapes();
    TwoTaken(e.t, e.scope, aml, Term, Target, s.used, ConversionTerm(e, aml, st, fuel).value.used - 1 - s.used);
  }

  lemma {:induction false} LogicalNotTakes(e: Env, aml: Bytes, st: State, fuel: nat)
    requires EnvValid(e) && Sized(st) && aml != [] && aml[0] == 0x92 && LogicalNotTerm(e, aml, st, fuel).Some?
    requires Plain(e.t, e.scope, LogicalNotTerm(e, aml, st, fuel).value.state.dynamic.Keys)
    ensures Takes(e.t, e.scope, aml, Term, LogicalNotTerm(e, aml, st, fuel).value.used)
    decreases fuel, |aml|, 7
  {
    hide Takes, Plain, WellFormed, Ordered, Meaning, Follow, Number, Put, Get, TargetOf, Shape;
    var s := Meaning(e, aml[1..], st, fuel).value;
    PlainLess(e.t, e.scope, s.state.dynamic.Keys, LogicalNotTerm(e, aml, st, fuel).value.state.dynamic.Keys);
    MeaningTakes(e, aml[1..], st, fuel);
    Shapes();
    OneTaken(e.t, e.scope, aml, Term, s.used);
  }

  lemma {:induction false} DereferenceTakes(e: Env, aml: Bytes, st: State, fuel: nat)
    requires EnvValid(e) && Sized(st) && aml != [] && aml[0] == 0x83 && DereferenceTerm(e, aml, st, fuel).Some?
    requires Plain(e.t, e.scope, DereferenceTerm(e, aml, st, fuel).value.state.dynamic.Keys)
    ensures Takes(e.t, e.scope, aml, Term, DereferenceTerm(e, aml, st, fuel).value.used)
    decreases fuel, |aml|, 7
  {
    hide Takes, Plain, WellFormed, Ordered, Meaning, Follow, Number, Put, Get, TargetOf, Shape;
    var s := Meaning(e, aml[1..], st, fuel).value;
    PlainLess(e.t, e.scope, s.state.dynamic.Keys, DereferenceTerm(e, aml, st, fuel).value.state.dynamic.Keys);
    MeaningTakes(e, aml[1..], st, fuel);
    Shapes();
    OneTaken(e.t, e.scope, aml, Term, s.used);
  }

  lemma {:induction false} CountTakes(e: Env, aml: Bytes, st: State, fuel: nat)
    requires EnvValid(e) && Sized(st) && aml != [] && (aml[0] == 0x75 || aml[0] == 0x76)
             && CountTerm(e, aml, st, fuel).Some?
    requires Plain(e.t, e.scope, CountTerm(e, aml, st, fuel).value.state.dynamic.Keys)
    ensures Takes(e.t, e.scope, aml, Term, CountTerm(e, aml, st, fuel).value.used)
    decreases fuel, |aml|, 7
  {
    hide Takes, Plain, WellFormed, Ordered, Meaning, Follow, Number, Put, Get, TargetOf, Shape, Stepped;
    Shapes();
    TargetTaken(e, st.dynamic.Keys, aml[1..]);
    OneTaken(e.t, e.scope, aml, Target, TargetOf(e, st.dynamic.Keys, aml[1..]).value.1);
  }

  lemma {:induction false} SizeTakes(e: Env, aml: Bytes, st: State, fuel: nat)
    requires EnvValid(e) && Sized(st) && aml != [] && aml[0] == 0x87 && SizeTerm(e, aml, st, fuel).Some?
    requires Plain(e.t, e.scope, SizeTerm(e, aml, st, fuel).value.state.dynamic.Keys)
    ensures Takes(e.t, e.scope, aml, Term, SizeTerm(e, aml, st, fuel).value.used)
    decreases fuel, |aml|, 7
  {
    hide Takes, Plain, WellFormed, Ordered, Meaning, Follow, Number, Put, Get, TargetOf, Shape, Size;
    Shapes();
    TargetTaken(e, st.dynamic.Keys, aml[1..]);
    OneTaken(e.t, e.scope, aml, Target, TargetOf(e, st.dynamic.Keys, aml[1..]).value.1);
  }

  lemma {:induction false} OperandsTake(e: Env, aml: Bytes, st: State, fuel: nat)
    requires EnvValid(e) && Sized(st) && aml != [] && Operands(e, aml, st, fuel).Some?
    requires Plain(e.t, e.scope, Operands(e, aml, st, fuel).value.4.dynamic.Keys)
    ensures var o := Operands(e, aml, st, fuel).value;
            Takes(e.t, e.scope, aml[1..], Term, o.2) && Takes(e.t, e.scope, aml[1 + o.2..], Term, o.3)
    decreases fuel, |aml|, 6
  {
    hide Takes, Plain, WellFormed, Ordered, Meaning, Follow, Number;
    var s := Meaning(e, aml[1..], st, fuel).value;
    var a := Number(e, s.value, s.state, fuel).value;
    var u := Meaning(e, aml[1 + s.used..], a.1, fuel).value;
    PlainLess(e.t, e.scope, u.state.dynamic.Keys, Operands(e, aml, st, fuel).value.4.dynamic.Keys);
    PlainLess(e.t, e.scope, s.state.dynamic.Keys, u.state.dynamic.Keys);
    MeaningTakes(e, aml[1..], st, fuel);
    MeaningTakes(e, aml[1 + s.used..], a.1, fuel);
  }

  lemma {:induction false} ArithmeticTakes(e: Env, aml: Bytes, st: State, fuel: nat)
    requires EnvValid(e) && Sized(st) && aml != [] && IsArithmetic(aml[0]) && ArithmeticTerm(e, aml, st, fuel).Some?
    requires Plain(e.t, e.scope, ArithmeticTerm(e, aml, st, fuel).value.state.dynamic.Keys)
    ensures Takes(e.t, e.scope, aml, Term, ArithmeticTerm(e, aml, st, fuel).value.used)
    decreases fuel, |aml|, 7
  {
    hide Takes, Plain, WellFormed, Ordered, Meaning, Follow, Number, Put, Get, TargetOf, Stored, Shape, Operands,
      Combine;
    var o := Operands(e, aml, st, fuel).value;
    PlainLess(e.t, e.scope, o.4.dynamic.Keys, ArithmeticTerm(e, aml, st, fuel).value.state.dynamic.Keys);
    OperandsTake(e, aml, st, fuel);
    StoredTakes(e, aml, 1 + o.2 + o.3, o.4, Cut(Combine(aml[0], o.0, o.1).value, e.mask));
    ArithmeticShape(aml[0]);
    ThreeTaken(e.t, e.scope, aml, Term, Term, Target, o.2, o.3,
               ArithmeticTerm(e, aml, st, fuel).value.used - 1 - o.2 - o.3);
  }

  lemma {:induction false} LogicalTakes(e: Env, aml: Bytes, st: State, fuel: nat)
    requires EnvValid(e) && Sized(st) && aml != [] && IsLogical(aml[0]) && LogicalTerm(e, aml, st, fuel).Some?
    requires Plain(e.t, e.scope, LogicalTerm(e, aml, st, fuel).value.state.dynamic.Keys)
    ensures Takes(e.t, e.scope, aml, Term, LogicalTerm(e, aml, st, fuel).value.used)
    decreases fuel, |aml|, 7
  {
    hide Takes, Plain, WellFormed, Ordered, Meaning, Follow, Number, Put, Get, TargetOf, Shape, Operands, Combine;
    var o := Operands(e, aml, st, fuel).value;
    PlainLess(e.t, e.scope, o.4.dynamic.Keys, LogicalTerm(e, aml, st, fuel).value.state.dynamic.Keys);
    OperandsTake(e, aml, st, fuel);
    LogicalShape(aml[0]);
    TwoTaken(e.t, e.scope, aml, Term, Term, o.2, o.3);
  }

  lemma {:induction false} DivideTakes(e: Env, aml: Bytes, st: State, fuel: nat)
    requires EnvValid(e) && Sized(st) && aml != [] && aml[0] == 0x78 && DivideTerm(e, aml, st, fuel).Some?
    requires Plain(e.t, e.scope, DivideTerm(e, aml, st, fuel).value.state.dynamic.Keys)
    ensures Takes(e.t, e.scope, aml, Term, DivideTerm(e, aml, st, fuel).value.used)
    decreases fuel, |aml|, 7
  {
    hide Takes, Plain, WellFormed, Ordered, Meaning, Follow, Number, Put, Get, TargetOf, Shape, Operands, Quotient,
      Remainder;
    var o := Operands(e, aml, st, fuel).value;
    PlainLess(e.t, e.scope, o.4.dynamic.Keys, DivideTerm(e, aml, st, fuel).value.state.dynamic.Keys);
    OperandsTake(e, aml, st, fuel);
    var names, at := o.4.dynamic.Keys, 1 + o.2 + o.3;
    var w := TargetOf(e, names, aml[at..]).value.1;
    var x := TargetOf(e, names, aml[at + w..]).value.1;
    TargetTaken(e, names, aml[at..]);
    TargetTaken(e, names, aml[at + w..]);
    Shapes();
    FourTaken(e.t, e.scope, aml, [Term, Term, Target, Target], o.2, o.3, w, x);
  }

  lemma {:induction false} OperatorTakes(e: Env, aml: Bytes, st: State, fuel: nat)
    requires EnvValid(e) && Sized(st) && aml != [] && OperatorTerm(e, aml, st, fuel).Some?
    requires Plain(e.t, e.scope, OperatorTerm(e, aml, st, fuel).value.state.dynamic.Keys)
    ensures Takes(e.t, e.scope, aml, Term, OperatorTerm(e, aml, st, fuel).value.used)
    decreases fuel, |aml|, 8
  {
    hide Takes, Plain, EnvValid, StoreTerm, DereferenceTerm, CountTerm, ArithmeticTerm, LogicalTerm, DivideTerm,
      NotTerm,
      LogicalNotTerm, SizeTerm, ConversionTerm, IsArithmetic, IsLogical;
    var op := aml[0];
    if op == 0x70 || op == 0x9d {
      StoreTakes(e, aml, st, fuel);
    } else if op == 0x83 {
      DereferenceTakes(e, aml, st, fuel);
    } else if op == 0x75 || op == 0x76 {
      CountTakes(e, aml, st, fuel);
    } else if IsArithmetic(op) {
      ArithmeticTakes(e, aml, st, fuel);
    } else if IsLogical(op) {
      LogicalTakes(e, aml, st, fuel);
    } else if op == 0x78 {
      DivideTakes(e, aml, st, fuel);
    } else if op == 0x80 {
      NotTakes(e, aml, st, fuel);
    } else if op == 0x92 {
      LogicalNotTakes(e, aml, st, fuel);
    } else if op == 0x87 {
      SizeTakes(e, aml, st, fuel);
    } else {
      ConversionTakes(e, aml, st, fuel);
    }
  }

  lemma DataTakes(e: Env, aml: Bytes, st: State)
    requires EnvValid(e) && Sized(st) && IsData(aml) && Data(e, aml, st).Some?
    ensures Takes(e.t, e.scope, aml, Term, Data(e, aml, st).value.used)
  {
    hide WellFormed, Ordered, Literal, PartsSpan;
  }

  lemma BufferTakes(e: Env, aml: Bytes, st: State, fuel: nat)
    requires EnvValid(e) && Sized(st) && aml != [] && aml[0] == 0x11 && BufferTerm(e, aml, st, fuel).Some?
    ensures Takes(e.t, e.scope, aml, Term, BufferTerm(e, aml, st, fuel).value.used)
  {
    hide Takes, Meaning, Number, PackageSpan, WellFormed, Ordered, Filled;
    PackagedTaken(e.t, e.scope, aml);
  }

  lemma PackageTakes(e: Env, aml: Bytes, st: State, fuel: nat)
    requires EnvValid(e) && Sized(st) && aml != [] && (aml[0] == 0x12 || aml[0] == 0x13)
             && PackageTerm(e, aml, st, fuel).Some?
    ensures Takes(e.t, e.scope, aml, Term, PackageTerm(e, aml, st, fuel).value.used)
  {
    hide Takes, PackageCount, Elements, PackageSpan, WellFormed, Ordered;
    PackagedTaken(e.t, e.scope, aml);
  }

  lemma {:induction false} ArgumentsInStep(e: Env, aml: Bytes, start: nat, count: nat, st: State, fuel: nat)
    requires EnvValid(e) && Sized(st) && 0 < start <= |aml| && Arguments(e, aml, start, count, st, fuel).Some?
    requires Plain(e.t, e.scope, Arguments(e, aml, start, count, st, fuel).value.2.dynamic.Keys)
    ensures InStep(e, aml, start, count, st, fuel)
    decreases fuel, |aml|, 7, count
  {
    hide Meaning, Takes, Plain, WellFormed, Ordered;
    if count > 0 {
      var s := Meaning(e, aml[start..], st, fuel).value;
      ArgumentsInStep(e, aml, start + s.used, count - 1, s.state, fuel);
      PlainLess(e.t, e.scope, s.state.dynamic.Keys, Arguments(e, aml, start, count, st, fuel).value.2.dynamic.Keys);
      MeaningTakes(e, aml[start..], st, fuel);
    }
  }

  lemma {:induction false} NamedTakes(e: Env, aml: Bytes, st: State, fuel: nat)
    requires EnvValid(e) && Sized(st) && NameStarts(aml) && NamedTerm(e, aml, st, fuel).Some?
    requires Plain(e.t, e.scope, NamedTerm(e, aml, st, fuel).value.state.dynamic.Keys)
    ensures Takes(e.t, e.scope, aml, Term, NamedTerm(e, aml, st, fuel).value.used)
    decreases fuel, |aml|, 8
  {
    hide ParseName, TermSpan, Resolved, Real, Arguments, Call, NodeValue, InStep, WellFormed, Ordered;
    var (path, used) := ParseName(aml).value;
    if Hidden(st.dynamic.Keys, path) {
      if TermSpan(e.t, e.scope, aml, 0).Some? {
        HiddenTakes(e, aml, st, fuel);
      }
    } else if IsAlias(e, path) {
      AliasTakes(e, aml, st, fuel);
    } else {
      DirectInStep(e, aml, st, fuel);
      DirectTakes(e, aml, st, fuel);
    }
  }

  lemma {:induction false} DirectInStep(e: Env, aml: Bytes, st: State, fuel: nat)
    requires EnvValid(e) && Sized(st) && NameStarts(aml) && ParseName(aml).Some? && NamedTerm(e, aml, st, fuel).Some?
    requires !Hidden(st.dynamic.Keys, ParseName(aml).value.0) && !IsAlias(e, ParseName(aml).value.0)
    requires Plain(e.t, e.scope, NamedTerm(e, aml, st, fuel).value.state.dynamic.Keys)
    ensures InStep(e, aml, ParseName(aml).value.1, ScannedArity(e.t, e.scope, ParseName(aml).value.0), st, fuel)
    decreases fuel, |aml|, 7, 8
  {
    hide ParseName, Resolved, Arguments, Call, NodeValue, Plain, Meaning;
    var (path, used) := ParseName(aml).value;
    var h := Resolved(e.t, e.scope, path);
    assert Real(e.t, h) == h;
    if IsMethod(e.t[h]) {
      ArgumentsInStep(e, aml, used, Arity(e.t, h), st, fuel);
    }
  }

  /** Every term takes the scanner's bytes, as long as no alias leads to a method that
      takes arguments and no local object of the frame hides one. */
  lemma {:induction false} MeaningTakes(e: Env, aml: Bytes, st: State, fuel: nat)
    requires EnvValid(e) && Sized(st) && Meaning(e, aml, st, fuel).Some?
    requires Plain(e.t, e.scope, Meaning(e, aml, st, fuel).value.state.dynamic.Keys)
    ensures Takes(e.t, e.scope, aml, Term, Meaning(e, aml, st, fuel).value.used)
    decreases fuel, |aml|, 9
  {
    hide Takes, Plain, Data, BufferTerm, PackageTerm, NameTerm, NamedTerm, OperatorTerm, WellFormed, Ordered, IsData,
      NameStarts;
    if IsData(aml) {
      DataTakes(e, aml, st);
    } else if aml[0] == 0x11 {
      BufferTakes(e, aml, st, fuel);
    } else if aml[0] == 0x12 || aml[0] == 0x13 {
      PackageTakes(e, aml, st, fuel);
    } else if aml[0] == 0x08 {
      Unscanned(e.t, e.scope, aml, Meaning(e, aml, st, fuel).value.used);
    } else if aml[0] == 0xa3 {
      NoOpTaken(e.t, e.scope, aml);
    } else if NameStarts(aml) {
      NamedTakes(e, aml, st, fuel);
    } else {
      OperatorTakes(e, aml, st, fuel);
    }
  }

  // ----- bytes on which they differ -----

  /** FOO_ and BAR_. */
  const FOO: Bytes := [70, 79, 79, 95]
  const BAR: Bytes := [66, 65, 82, 95]

  /** A method FOO_ of one argument that does nothing, and an alias BAR_ of it. */
  function AliasSample(): Nodes {
    [Node(0, INVALID, 2, INVALID, Root, 0, 0, Empty),
     Node(Pack(FOO), ROOT, INVALID, INVALID, Method, 0, 0, MethodObject([], 1)),
     Node(Pack(BAR), ROOT, INVALID, 1, Alias, 0, 0, AliasObject([], 1))]
  }

  function SampleEnv(): Env {
    Env(AliasSample(), MASK64, ROOT)
  }

  lemma SampleValid()
    ensures EnvValid(SampleEnv())
    ensures SearchUp(AliasSample(), ROOT, Pack(FOO)) == 1 && SearchUp(AliasSample(), ROOT, Pack(BAR)) == 2
    ensures Real(AliasSample(), 2) == 1
  {
    SampleTree();
    SampleNames();
    hide EnvValid, SearchUp, Real;
  }

  lemma SampleTree()
    ensures EnvValid(SampleEnv())
  {
  }

  lemma SampleNames()
    ensures SearchUp(AliasSample(), ROOT, Pack(FOO)) == 1 && SearchUp(AliasSample(), ROOT, Pack(BAR)) == 2
    ensures Real(AliasSample(), 2) == 1
  {
    var t := AliasSample();
    assert Pack(FOO) == 0x5f4f4f46 && Pack(BAR) == 0x5f524142;
    assert ChildBelow(t, ROOT, Pack(FOO), 3) == ChildBelow(t, ROOT, Pack(FOO), 2) == 1;
    assert ChildBelow(t, ROOT, Pack(BAR), 3) == 2;
    assert AliasTarget(t, 2, MAX_CALLS) == AliasTarget(t, 1, MAX_CALLS - 1) == 1;
  }

  lemma OneSegment(name: Bytes, rest: Bytes)
    requires |name| == 4 && SegmentValid(name)
    ensures NameStarts(name + rest)
    ensures ParseName(name + rest) == Some((Path(false, false, 0, [Pack(name)]), 4))
  {
    var aml := name + rest;
    assert aml[0..] == aml && aml[..4] == name;
    assert Carets(aml[0..]) == 0 && aml != [92];
    assert Segments(aml[4..], 0) == Some([]);
    assert Segments(aml[0..], 1) == Some([Pack(name)] + []);
    assert [Pack(name)] + [] == [Pack(name)];
  }

  /** The constant One. */
  lemma OneMeans(e: Env, st: State, fuel: nat)
    requires EnvValid(e) && Sized(st)
    ensures Meaning(e, [1], st, fuel) == Some(Outcome(Cut(1, e.mask), 1, st))
  {
    hide WellFormed, Ordered;
  }

  lemma OneArgument(e: Env, aml: Bytes, st: State)
    requires EnvValid(e) && Sized(st) && |aml| == 5 && aml[4..] == [1]
    ensures Arguments(e, aml, 4, 1, st, 1) == Some(([Cut(1, e.mask)], 5, st))
  {
    OneMeans(e, st, 1);
    NoArguments(e, aml, 5, st, 1);
    hide Meaning, WellFormed, Ordered;
    assert [Cut(1, e.mask)] + [] == [Cut(1, e.mask)];
  }

  /** A method with an empty body returns zero. */
  lemma EmptyCall(e: Env, h: nat, arguments: seq<Value>, objects: map<nat, Value>)
    requires EnvValid(e) && h < |e.t| && e.t[h].kind == Method && |arguments| == Arity(e.t, h) <= 7
             && Body(e.t, h) == []
    ensures Call(e, h, arguments, objects, 1) == Some((Cut(0, e.mask), objects))
  {
    var st := Fresh(objects).(arguments := Padded(arguments));
    assert Block(e.(scope := h), [], st, 0) == Some((st, Next));
  }

  /** `BAR_ One`: the scanner stops after the name, the evaluator takes the argument
      of the method behind the alias. */
  lemma AliasDiffers(st: State)
    requires Sized(st) && st.dynamic == map[]
    ensures EnvValid(SampleEnv())
    ensures TermSpan(AliasSample(), ROOT, BAR + [1], 0) == Some(4)
    ensures Meaning(SampleEnv(), BAR + [1], st, 1).Some? && Meaning(SampleEnv(), BAR + [1], st, 1).value.used == 5
  {
    hide ParseName, SearchUp, Real, TermSpan, Meaning, NamedTerm, WellFormed, Ordered, Cut, Fits;
    SampleValid();
    OneSegment(BAR, [1]);
    AliasEvaluated(st);
    NameMeaning(SampleEnv(), BAR + [1], st, 1);
    AliasTakes(SampleEnv(), BAR + [1], st, 1);
  }

  /** The evaluator calls the method behind the alias. */
  lemma AliasEvaluated(st: State)
    requires Sized(st) && st.dynamic == map[] && EnvValid(SampleEnv())
    requires SearchUp(AliasSample(), ROOT, Pack(BAR)) == 2 && Real(AliasSample(), 2) == 1
    ensures NamedTerm(SampleEnv(), BAR + [1], st, 1).Some?
    ensures NamedTerm(SampleEnv(), BAR + [1], st, 1).value.used == 5
  {
    hide ParseName, SearchUp, Real, Arguments, Call, NodeValue, WellFormed, Ordered, Cut, Fits, Meaning;
    OneSegment(BAR, [1]);
    var e, aml := SampleEnv(), BAR + [1];
    OneArgument(e, aml, st);
    EmptyCall(e, 1, [Cut(1, e.mask)], st.objects);
  }

  /** `FOO_ One` where the frame has its own FOO_: the scanner takes an argument for the
      method, the evaluator reads the local object. */
  lemma LocalDiffers(st: State)
    requires Sized(st) && Pack(FOO) in st.dynamic
    ensures EnvValid(SampleEnv())
    ensures TermSpan(AliasSample(), ROOT, FOO + [1], 0) == Some(5)
    ensures Meaning(SampleEnv(), FOO + [1], st, 0).Some? && Meaning(SampleEnv(), FOO + [1], st, 0).value.used == 4
  {
    SampleValid();
    OneSegment(FOO, [1]);
    var e, aml := SampleEnv(), FOO + [1];
    NameMeaning(e, aml, st, 0);
    NameSpan(e.t, ROOT, aml, 0);
    OneSpanAt(e.t, aml, 0);
    hide ParseName, SearchUp, Real, TermSpan, Meaning, PartsSpan, WellFormed, Ordered;
    HiddenTakes(e, aml, st, 0);
  }

  lemma OneSpanAt(t: Nodes, aml: Bytes, d: nat)
    requires Ordered(t) && |aml| == 5 && aml[4..] == [1] && d < MAX_DEPTH
    ensures PartsSpan(t, ROOT, aml, 4, Terms(1), d) == Some(5)
  {
    OneMoreTerm(1);
    assert TermSpan(t, ROOT, [1], d + 1) == Some(1);
    assert PartsSpan(t, ROOT, aml, 5, Terms(0), d) == Some(5);
  }

  /** `LAnd BAR_ FOO_ One` with a local FOO_. */
  function Cancelling(): Bytes {
    [0x90] + (BAR + (FOO + [1]))
  }

  /** Two differences can make up for each other: in `LAnd BAR_ FOO_ One` the scanner
      gives One to FOO_, the evaluator gives FOO_ to BAR_, and both take ten bytes. So
      the exact condition is one on each name, not on the term around them. */
  lemma DifferencesCancel(st: State)
    requires Sized(st) && Pack(FOO) in st.dynamic && Pack(BAR) !in st.dynamic
    requires st.dynamic[Pack(FOO)] == Integer(0)
    ensures EnvValid(SampleEnv())
    ensures TermSpan(AliasSample(), ROOT, Cancelling(), 0) == Some(10)
    ensures Meaning(SampleEnv(), Cancelling(), st, 1).Some?
            && Meaning(SampleEnv(), Cancelling(), st, 1).value.used == 10
  {
    SampleValid();
    CancellingScanned();
    CancellingEvaluated(st);
  }

  /** The scanner reads LAnd as two terms. */
  lemma AndSpan(t: Nodes, aml: Bytes, u: nat, v: nat)
    requires Ordered(t) && t != [] && aml != [] && aml[0] == 0x90 && 1 + u <= |aml|
    requires TermSpan(t, ROOT, aml[1..], 1) == Some(u) && TermSpan(t, ROOT, aml[1 + u..], 1) == Some(v)
    ensures TermSpan(t, ROOT, aml, 0) == Some(1 + u + v)
  {
    LogicalShape(0x90);
    AndParts(t, aml, u, v);
    hide PartsSpan, Shape, NameStarts, Ordered;
  }

  lemma AndParts(t: Nodes, aml: Bytes, u: nat, v: nat)
    requires Ordered(t) && t != [] && 1 + u <= |aml|
    requires TermSpan(t, ROOT, aml[1..], 1) == Some(u) && TermSpan(t, ROOT, aml[1 + u..], 1) == Some(v)
    ensures PartsSpan(t, ROOT, aml, 1, [Term, Term], 0) == Some(1 + u + v)
  {
    hide TermSpan, Ordered;
    assert [Term, Term][1..] == [Term] && [Term][1..] == [];
    assert PartsSpan(t, ROOT, aml, 1 + u + v, [], 0) == Some(1 + u + v);
    assert PartsSpan(t, ROOT, aml, 1 + u, [Term], 0) == Some(1 + u + v);
  }

  lemma CancellingScanned()
    requires EnvValid(SampleEnv())
    requires SearchUp(AliasSample(), ROOT, Pack(FOO)) == 1 && SearchUp(AliasSample(), ROOT, Pack(BAR)) == 2
    ensures TermSpan(AliasSample(), ROOT, Cancelling(), 0) == Some(10)
  {
    var t, aml := AliasSample(), Cancelling();
    assert aml[1..] == BAR + (FOO + [1]) && aml[5..] == FOO + [1];
    hide ParseName, SearchUp, TermSpan, PartsSpan, WellFormed, Ordered;
    assert TermSpan(t, ROOT, aml[1..], 1) == Some(4) by {
      OneSegment(BAR, FOO + [1]);
      NameSpan(t, ROOT, aml[1..], 1);
      NoSpan(t, aml[1..], 4, 1);
    }
    assert TermSpan(t, ROOT, aml[5..], 1) == Some(5) by {
      OneSegment(FOO, [1]);
      NameSpan(t, ROOT, aml[5..], 1);
      OneSpanAt(t, aml[5..], 1);
    }
    AndSpan(t, aml, 4, 5);
  }

  lemma NoSpan(t: Nodes, aml: Bytes, at: nat, d: nat)
    requires Ordered(t) && t != [] && 0 < at <= |aml|
    ensures PartsSpan(t, ROOT, aml, at, Terms(0), d) == Some(at)
  {
  }

  /** The evaluator's LAnd of two numbers. */
  lemma AndMeans(e: Env, aml: Bytes, st: State, fuel: nat, a: bv64, b: bv64, u: nat, v: nat)
    requires EnvValid(e) && Sized(st) && 0 < u && 0 < v && 1 + u + v <= |aml| && aml[0] == 0x90
    requires Meaning(e, aml[1..], st, fuel) == Some(Outcome(Integer(a), u, st))
    requires Meaning(e, aml[1 + u..], st, fuel) == Some(Outcome(Integer(b), v, st))
    ensures Meaning(e, aml, st, fuel).Some? && Meaning(e, aml, st, fuel).value.used == 1 + u + v
  {
    AndDispatch(e, aml, st, fuel);
    AndOperands(e, aml, st, fuel, a, b, u, v);
    var o := Operands(e, aml, st, fuel).value;
    AndCombines(o.0, o.1);
    hide Meaning, Operands, EnvValid, Combine;
  }

  lemma AndDispatch(e: Env, aml: Bytes, st: State, fuel: nat)
    requires EnvValid(e) && Sized(st) && aml != [] && aml[0] == 0x90
    ensures Meaning(e, aml, st, fuel) == LogicalTerm(e, aml, st, fuel)
  {
    hide LogicalTerm, EnvValid;
  }

  lemma AndOperands(e: Env, aml: Bytes, st: State, fuel: nat, a: bv64, b: bv64, u: nat, v: nat)
    requires EnvValid(e) && Sized(st) && 0 < u && 0 < v && 1 + u + v <= |aml|
    requires Meaning(e, aml[1..], st, fuel) == Some(Outcome(Integer(a), u, st))
    requires Meaning(e, aml[1 + u..], st, fuel) == Some(Outcome(Integer(b), v, st))
    ensures var o := Operands(e, aml, st, fuel); o.Some? && o.value.2 == u && o.value.3 == v
  {
    hide Meaning, EnvValid, Number, Fits, Grows;
    NumberMeans(e, a, st, fuel);
    NumberMeans(e, b, st, fuel);
  }

  lemma NumberMeans(e: Env, n: bv64, st: State, fuel: nat)
    requires EnvValid(e)
    ensures Number(e, Integer(n), st, fuel).Some? && Number(e, Integer(n), st, fuel).value.1 == st
  {
    assert Follow(e, Integer(n), st, fuel) == Some((Integer(n), st));
    hide EnvValid, NodeValue, Follow;
  }

  lemma AndCombines(a: bv64, b: bv64)
    ensures Combine(0x90, a, b).Some?
  {
  }

  lemma CancellingEvaluated(st: State)
    requires Sized(st) && Pack(FOO) in st.dynamic && Pack(BAR) !in st.dynamic && st.dynamic[Pack(FOO)] == Integer(0)
    requires EnvValid(SampleEnv()) && SearchUp(AliasSample(), ROOT, Pack(BAR)) == 2 && Real(AliasSample(), 2) == 1
    ensures Meaning(SampleEnv(), Cancelling(), st, 1).Some?
    ensures Meaning(SampleEnv(), Cancelling(), st, 1).value.used == 10
  {
    var e, aml := SampleEnv(), Cancelling();
    assert aml[1..] == BAR + (FOO + [1]) && aml[9..] == [1];
    BothNames(st);
    OneMeans(e, st, 1);
    hide Meaning, ParseName, SearchUp, Real, WellFormed, Ordered;
    AndMeans(e, aml, st, 1, 0, 1, 8, 1);
  }

  lemma LocalMeans(st: State, fuel: nat)
    requires Sized(st) && Pack(FOO) in st.dynamic && st.dynamic[Pack(FOO)] == Integer(0) && EnvValid(SampleEnv())
    ensures Meaning(SampleEnv(), FOO + [1], st, fuel) == Some(Outcome(Integer(0), 4, st))
  {
    OneSegment(FOO, [1]);
    NameMeaning(SampleEnv(), FOO + [1], st, fuel);
    hide Meaning, ParseName, SearchUp, Real, WellFormed, Ordered;
  }

  lemma BothNames(st: State)
    requires Sized(st) && Pack(FOO) in st.dynamic && Pack(BAR) !in st.dynamic && st.dynamic[Pack(FOO)] == Integer(0)
    requires EnvValid(SampleEnv()) && SearchUp(AliasSample(), ROOT, Pack(BAR)) == 2 && Real(AliasSample(), 2) == 1
    ensures Meaning(SampleEnv(), BAR + (FOO + [1]), st, 1) == Some(Outcome(Integer(0), 8, st))
  {
    var e, aml := SampleEnv(), BAR + (FOO + [1]);
    assert aml[4..] == FOO + [1];
    LocalMeans(st, 1);
    hide Meaning;
    NoArguments(e, aml, 8, st, 1);
    assert [Integer(0)] + [] == [Integer(0)];
    assert Arguments(e, aml, 4, 1, st, 1) == Some(([Integer(0)], 8, st)) by {
      hide Meaning, WellFormed, Ordered;
    }
    EmptyCall(e, 1, [Integer(0)], st.objects);
    OneSegment(BAR, FOO + [1]);
    NameMeaning(e, aml, st, 1);
    hide ParseName, SearchUp, Real, Arguments, Call, NodeValue, WellFormed, Ordered;
  }
}
