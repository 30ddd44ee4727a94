/** The re-entrant gate around block I/O: an owner, a depth, and a queue of
    threads to wake. Barging is allowed: a woken thread has to try again. */
module IoGate {
  import opened Options

  /** Who asks: a thread, or a context without one. */
  datatype Ctx = NoThread | Thread(t: nat)

  datatype Gate = Gate(busy: bool, owner: Ctx, depth: nat, waiters: seq<nat>)

  const WAITERS := 32

  const OPEN := Gate(false, NoThread, 0, [])

  predicate MayEnter(g: Gate, c: Ctx) {
    !g.busy || (c.Thread? && g.owner == c)
  }

  function Entered(g: Gate, c: Ctx): Gate {
    g.(busy := true, owner := c, depth := g.depth + 1)
  }

  /** A waiter goes to the end of the queue unless it is there already. */
  function Queued(ws: seq<nat>, t: nat): seq<nat> {
    if ws == [] || ws[|ws| - 1] != t then ws + [t] else ws
  }

  /** The queue without the first occurrence of t. */
  function Without(ws: seq<nat>, t: nat): seq<nat> {
    if ws == [] then [] else if ws[0] == t then ws[1..] else [ws[0]] + Without(ws[1..], t)
  }

  function Released(g: Gate): Gate {
    if g.depth == 0 then g
    else if g.depth > 1 then g.(depth := g.depth - 1)
    else Gate(false, NoThread, 0, if g.waiters == [] then [] else g.waiters[1..])
  }

  /** Whom a release wakes. */
  function Woken(g: Gate): Option<nat> {
    if g.depth == 1 && g.waiters != [] then Some(g.waiters[0]) else None
  }

  // ----- the code -----

  /** What putting the caller to sleep does: it sleeps until woken, or the call fails. */
  datatype Sleep = Sleeps | Fails

  datatype Attempt = Granted | Refused | Waits

  class BlockGate {
    var busy: bool
    var owner: Ctx
    var depth: nat
    const waiters: array<nat>
    var count: nat

    ghost predicate Valid()
      reads this
    {
      waiters.Length == WAITERS && count <= WAITERS
    }

    ghost function Now(): Gate
      requires Valid()
      reads this, waiters
    {
      Gate(busy, owner, depth, waiters[..count])
    }

    constructor ()
      ensures Valid() && Now() == OPEN && fresh(waiters)
    {
      waiters := new nat[WAITERS](_ => 0);
      busy, owner, depth, count := false, NoThread, 0, 0;
    }

    /** Close the gap at position `at`. */
    method Shift(at: nat)
      requires Valid() && at < count
      modifies this`count, waiters
      ensures Valid() && waiters[..count] == old(waiters[..at]) + old(waiters[at + 1..count])
    {
      var i := at;
      while i + 1 < count
        invariant at <= i < count && count == old(count)
        invariant forall k :: 0 <= k < count ==> waiters[k] == if at <= k < i then old(waiters[k + 1])
                  else old(waiters[k])
      {
        waiters[i] := waiters[i + 1];
        i := i + 1;
      }
      count := count - 1;
      waiters[count] := 0;
    }

    method RemoveWaiter(t: nat)
      requires Valid()
      modifies this`count, waiters
      ensures Valid() && waiters[..count] == Without(old(waiters[..count]), t)
    {
      ghost var ws := waiters[..count];
      for i := 0 to count
        invariant count == old(count) && waiters[..count] == ws && t !in ws[..i]
      {
        if waiters[i] == t {
          WithoutAt(ws, i, t);
          Shift(i);
          return;
        }
      }
      WithoutNone(ws, t);
    }

    /** One round of acquiring: enter, or queue and sleep, or give up. */
    method Try(c: Ctx, sleep: Sleep) returns (r: Attempt)
      requires Valid()
      modifies this, waiters
      ensures Valid()
      ensures Now() == AfterTry(old(Now()), c, sleep) && r == Tried(old(Now()), c, sleep)
    {
      if !busy || (c.Thread? && owner == c) {
        busy, owner, depth := true, c, depth + 1;
        return Granted;
      }
      if c.NoThread? || count >= WAITERS {
        return Refused;
      }
      if count == 0 || waiters[count - 1] != c.t {
        waiters[count] := c.t;
        count := count + 1;
      }
      ghost var g := old(Now());
      assert waiters[..count] == Queued(g.waiters, c.t);
      if sleep == Fails {
        RemoveWaiter(c.t);
        return Refused;
      }
      r := Waits;
    }

    /** A try that never waits. */
    method BeginQuiesce(c: Ctx) returns (ok: bool)
      requires Valid()
      modifies this
      ensures Valid()
      ensures ok <==> !old(busy) || old(owner) == c
      ensures Now() == if ok then Entered(old(Now()), c) else old(Now())
    {
      if busy && owner != c {
        return false;
      }
      busy, owner, depth := true, c, depth + 1;
      ok := true;
    }

    /** Leave once; the last leave opens the gate and wakes the first waiter. */
    method Release() returns (woken: Option<nat>)
      requires Valid()
      modifies this, waiters
      ensures Valid() && Now() == Released(old(Now())) && woken == Woken(old(Now()))
    {
      woken := None;
      if depth == 0 {
        return;
      }
      depth := depth - 1;
      if depth != 0 {
        return;
      }
      busy, owner := false, NoThread;
      if count != 0 {
        woken := Some(waiters[0]);
        Shift(0);
      }
    }
  }

  lemma {:induction false} WithoutAt(ws: seq<nat>, i: nat, t: nat)
    requires i < |ws| && ws[i] == t && t !in ws[..i]
    ensures Without(ws, t) == ws[..i] + ws[i + 1..]
  {
    if i > 0 {
      assert ws[0] == ws[..i][0];
      assert ws[1..][..i - 1] == ws[..i][1..];
      WithoutAt(ws[1..], i - 1, t);
      assert ws[..i] == [ws[0]] + ws[1..][..i - 1];
    }
  }

  lemma {:induction false} WithoutNone(ws: seq<nat>, t: nat)
    requires t !in ws
    ensures Without(ws, t) == ws
  {
    if ws != [] {
      WithoutNone(ws[1..], t);
    }
  }

  function Tried(g: Gate, c: Ctx, sleep: Sleep): Attempt {
    if MayEnter(g, c) then Granted
    else if c.NoThread? || |g.waiters| >= WAITERS || sleep == Fails then Refused
    else Waits
  }

  function AfterTry(g: Gate, c: Ctx, sleep: Sleep): Gate {
    if MayEnter(g, c) then Entered(g, c)
    else if c.NoThread? || |g.waiters| >= WAITERS then g
    else if sleep == Fails then g.(waiters := Without(Queued(g.waiters, c.t), c.t))
    else g.(waiters := Queued(g.waiters, c.t))
  }

  // ----- threads and runs -----

  /** A thread outside the gate's queueing, asleep in the queue, or woken and about to try again. */
  datatype Status = Outside | Asleep | Retry

  datatype State = State(gate: Gate, status: map<nat, Status>, held: map<Ctx, nat>)

  function StatusOf(s: State, t: nat): Status {
    if t in s.status then s.status[t] else Outside
  }

  function HeldBy(s: State, c: Ctx): nat {
    if c in s.held then s.held[c] else 0
  }

  predicate Awake(s: State, c: Ctx) {
    c.Thread? ==> StatusOf(s, c.t) != Asleep
  }

  /** `Stray` is a wakeup of a sleeping thread by something other than the gate. */
  datatype Step = Try(c: Ctx, sleep: Sleep) | Quiesce(c: Ctx) | Leave(c: Ctx) | Stray(t: nat)

  predicate Enabled(s: State, e: Step) {
    match e
    case Try(c, _) => Awake(s, c)
    case Quiesce(c) => Awake(s, c)
    case Leave(c) => HeldBy(s, c) > 0
    case Stray(t) => StatusOf(s, t) == Asleep
  }

  function WithStatus(s: State, c: Ctx, st: Status): State {
    if c.Thread? then s.(status := s.status[c.t := st]) else s
  }

  function Apply(s: State, e: Step): State {
    match e
    case Try(c, sleep) =>
      var s' := s.(gate := AfterTry(s.gate, c, sleep));
      (match Tried(s.gate, c, sleep)
       case Granted => WithStatus(s'.(held := s.held[c := HeldBy(s, c) + 1]), c, Outside)
       case Refused => WithStatus(s', c, Outside)
       case Waits => WithStatus(s', c, Asleep))
    case Quiesce(c) =>
      if s.gate.busy && s.gate.owner != c then s
      else s.(gate := Entered(s.gate, c), held := s.held[c := HeldBy(s, c) + 1])
    case Leave(c) =>
      var s' := s.(gate := Released(s.gate), held := s.held[c := if HeldBy(s, c) == 0 then 0 else HeldBy(s, c) - 1]);
      (match Woken(s.gate)
       case None => s'
       case Some(w) => if StatusOf(s, w) == Asleep then WithStatus(s', Thread(w), Retry) else s')
    case Stray(t) => WithStatus(s, Thread(t), Retry)
  }

  predicate Run(s: State, es: seq<Step>)
    decreases es
  {
    es == [] || (Enabled(s, es[0]) && Run(Apply(s, es[0]), es[1..]))
  }

  function After(s: State, es: seq<Step>): State
    decreases es
  {
    if es == [] then s else After(Apply(s, es[0]), es[1..])
  }

  const START := State(OPEN, map[], map[])

  // ----- one owner -----

  /** The gate's depth is what its owner holds, nobody else holds anything, and
      it is busy exactly while the depth is positive. */
  ghost predicate Exclusive(s: State) {
    && (s.gate.busy <==> s.gate.depth > 0)
    && (forall c: Ctx :: HeldBy(s, c) == if s.gate.busy && c == s.gate.owner then s.gate.depth else 0)
  }

  lemma StepExclusive(s: State, e: Step)
    requires Exclusive(s) && Enabled(s, e)
    ensures Exclusive(Apply(s, e))
  {
    var s' := Apply(s, e);
    forall c: Ctx ensures HeldBy(s', c) == if s'.gate.busy && c == s'.gate.owner then s'.gate.depth else 0 {
      assert HeldBy(s, c) == if s.gate.busy && c == s.gate.owner then s.gate.depth else 0;
    }
  }

  /** In every run at most one context holds the gate. */
  lemma {:induction false} RunExclusive(s: State, es: seq<Step>)
    requires Exclusive(s) && Run(s, es)
    ensures Exclusive(After(s, es))
    decreases es
  {
    if es != [] {
      StepExclusive(s, es[0]);
      RunExclusive(Apply(s, es[0]), es[1..]);
    }
  }

  // ----- no lost wakeup -----

  /** Somebody queued means the gate is busy or a woken thread is about to try. */
  ghost predicate NoneLost(s: State) {
    s.gate.waiters != [] ==> s.gate.busy || exists t: nat :: StatusOf(s, t) == Retry
  }

  ghost predicate Distinct(ws: seq<nat>) {
    forall i, j :: 0 <= i < j < |ws| ==> ws[i] != ws[j]
  }

  /** The queue is exactly the threads asleep. */
  ghost predicate QueueIsAsleep(s: State) {
    Distinct(s.gate.waiters) && forall t: nat :: t in s.gate.waiters <==> StatusOf(s, t) == Asleep
  }

  ghost predicate Attended(s: State) {
    QueueIsAsleep(s) && NoneLost(s) && (s.gate.busy <==> s.gate.depth > 0)
  }

  /** A step in which every return from sleep is a wakeup by the gate. */
  predicate Genuine(e: Step) {
    !e.Stray?
  }

  predicate AllGenuine(es: seq<Step>) {
    forall i :: 0 <= i < |es| ==> Genuine(es[i])
  }

  lemma {:induction false} WithoutAdded(ws: seq<nat>, t: nat)
    requires t !in ws
    ensures Without(ws + [t], t) == ws
  {
    if ws == [] {
      assert [t][1..] == [];
    } else {
      assert (ws + [t])[1..] == ws[1..] + [t];
      WithoutAdded(ws[1..], t);
    }
  }

  lemma TryAttended(s: State, c: Ctx, sleep: Sleep)
    requires Attended(s) && Awake(s, c)
    ensures Attended(Apply(s, Try(c, sleep)))
  {
    var s' := Apply(s, Try(c, sleep));
    if Tried(s.gate, c, sleep) != Granted && c.Thread? && |s.gate.waiters| < WAITERS {
      assert c.t !in s.gate.waiters;
      WithoutAdded(s.gate.waiters, c.t);
      assert Queued(s.gate.waiters, c.t) == s.gate.waiters + [c.t];
    }
    forall t: nat ensures t in s'.gate.waiters <==> StatusOf(s', t) == Asleep {
      assert t in s.gate.waiters <==> StatusOf(s, t) == Asleep;
    }
  }

  lemma LeaveAttended(s: State, c: Ctx)
    requires Attended(s) && HeldBy(s, c) > 0 && s.gate.busy
    ensures Attended(Apply(s, Leave(c)))
  {
    var s' := Apply(s, Leave(c));
    var ws := s.gate.waiters;
    if Woken(s.gate).Some? {
      assert ws[0] in ws;
      assert StatusOf(s', ws[0]) == Retry;
      TailOf(ws);
    }
    forall t: nat ensures t in s'.gate.waiters <==> StatusOf(s', t) == Asleep {
      assert t in ws <==> StatusOf(s, t) == Asleep;
    }
  }

  lemma TailOf(ws: seq<nat>)
    requires ws != [] && Distinct(ws)
    ensures Distinct(ws[1..]) && forall t :: t in ws[1..] <==> t in ws && t != ws[0]
  {
    forall t | t in ws && t != ws[0] ensures t in ws[1..] {
      var i :| 0 <= i < |ws| && ws[i] == t;
      assert ws[1..][i - 1] == t;
    }
  }

  lemma QuiesceAttended(s: State, c: Ctx)
    requires Attended(s)
    ensures Attended(Apply(s, Quiesce(c)))
  {
    var s' := Apply(s, Quiesce(c));
    forall t: nat ensures StatusOf(s', t) == StatusOf(s, t) {
    }
  }

  /** In every run without stale wakeups none is lost, at any point. */
  lemma {:induction false} RunAttended(s: State, es: seq<Step>)
    requires Attended(s) && Exclusive(s) && Run(s, es) && AllGenuine(es)
    ensures Attended(After(s, es))
    decreases es
  {
    if es != [] {
      match es[0] {
        case Try(c, sleep) => TryAttended(s, c, sleep);
        case Quiesce(c) => QuiesceAttended(s, c);
        case Leave(c) => LeaveAttended(s, c);
      }
      StepExclusive(s, es[0]);
      RunAttended(Apply(s, es[0]), es[1..]);
    }
  }

  /** With a stray wakeup one can be lost: thread 2, asleep behind 3, is woken by
      something else; the release wakes 3, but 2 barges in and stays queued; 3
      queues again behind 2's old place, which the next release wakes in vain. */
  const LOSING: seq<Step> := [
    Try(Thread(1), Sleeps), Try(Thread(3), Sleeps), Try(Thread(2), Sleeps), Stray(2), Leave(Thread(1)),
    Try(Thread(2), Sleeps), Try(Thread(3), Sleeps), Leave(Thread(2))]

  /** After the first release: 2 is queued but awake, 3 has been woken. */
  ghost predicate HalfLost(s: State) {
    s.gate == Gate(false, NoThread, 0, [2]) && StatusOf(s, 2) == Retry && StatusOf(s, 3) == Retry
    && forall t: nat :: t != 2 && t != 3 ==> StatusOf(s, t) == Outside
  }

  /** 3 and 2 asleep behind 1, in that order. */
  ghost predicate BothAsleep(s: State) {
    s.gate == Gate(true, Thread(1), 1, [3, 2]) && HeldBy(s, Thread(1)) == 1
    && forall t: nat :: StatusOf(s, t) == if t == 2 || t == 3 then Asleep else Outside
  }

  lemma LosingSleep()
    ensures Run(START, LOSING[..3]) && BothAsleep(After(START, LOSING[..3]))
  {
    var es := LOSING[..3];
    var s1 := Apply(START, es[0]);
    var s2 := Apply(s1, es[1]);
    var s3 := Apply(s2, es[2]);
    assert s1.gate == Gate(true, Thread(1), 1, []) && s2.gate == Gate(true, Thread(1), 1, [3]);
    Unroll(START, es);
    Unroll(s1, es[1..]);
    Unroll(s2, es[2..]);
    assert After(START, es) == s3;
  }

  lemma LosingWake(s: State)
    requires BothAsleep(s)
    ensures Run(s, LOSING[3..5]) && HalfLost(After(s, LOSING[3..5]))
  {
    var es := LOSING[3..5];
    var s1 := Apply(s, es[0]);
    var s2 := Apply(s1, es[1]);
    assert StatusOf(s, 2) == Asleep && StatusOf(s, 3) == Asleep;
    assert s1.gate == s.gate && s2.gate == Gate(false, NoThread, 0, [2]);
    Unroll(s, es);
    Unroll(s1, es[1..]);
    assert After(s, es) == s2;
    forall t: nat ensures StatusOf(s2, t) == if t == 2 || t == 3 then Retry else Outside {
      assert StatusOf(s, t) == if t == 2 || t == 3 then Asleep else Outside;
    }
  }

  lemma LosingHalf()
    ensures Run(START, LOSING[..5]) && HalfLost(After(START, LOSING[..5]))
  {
    LosingSleep();
    LosingWake(After(START, LOSING[..3]));
    RunJoin(START, LOSING[..3], LOSING[3..5]);
    assert LOSING[..5] == LOSING[..3] + LOSING[3..5];
  }

  lemma LosingRest(s: State)
    requires HalfLost(s)
    ensures Run(s, LOSING[5..]) && !NoneLost(After(s, LOSING[5..]))
  {
    var es := LOSING[5..];
    var s1 := Apply(s, es[0]);
    var s2 := Apply(s1, es[1]);
    var s3 := Apply(s2, es[2]);
    assert s2.gate == Gate(true, Thread(2), 1, [2, 3]);
    assert s3.gate == Gate(false, NoThread, 0, [3]);
    Unroll(s, es);
    Unroll(s1, es[1..]);
    Unroll(s2, es[2..]);
    assert After(s, es) == s3;
    forall t: nat ensures StatusOf(s3, t) != Retry {
      assert StatusOf(s, t) == if t == 2 || t == 3 then Retry else Outside;
    }
  }

  lemma LosingRun()
    ensures Run(START, LOSING) && !NoneLost(After(START, LOSING))
  {
    LosingHalf();
    LosingRest(After(START, LOSING[..5]));
    RunJoin(START, LOSING[..5], LOSING[5..]);
    assert LOSING == LOSING[..5] + LOSING[5..];
  }

  lemma {:induction false} RunJoin(s: State, a: seq<Step>, b: seq<Step>)
    requires Run(s, a) && Run(After(s, a), b)
    ensures Run(s, a + b) && After(s, a + b) == After(After(s, a), b)
    decreases a
  {
    if a == [] {
      assert a + b == b;
    } else {
      assert (a + b)[1..] == a[1..] + b;
      RunJoin(Apply(s, a[0]), a[1..], b);
    }
  }

  lemma Unroll(s: State, es: seq<Step>)
    requires es != []
    ensures Run(s, es) <==> Enabled(s, es[0]) && Run(Apply(s, es[0]), es[1..])
    ensures After(s, es) == After(Apply(s, es[0]), es[1..])
  {
  }

  /** Over all runs from the open gate, no wakeup is ever lost if and only if
      nothing but the gate wakes its waiters. */
  lemma NoneLostExactly(stray: bool)
    ensures (forall es :: Run(START, es) && (stray || AllGenuine(es)) ==> NoneLost(After(START, es))) <==> !stray
  {
    if stray {
      LosingRun();
      var es := LOSING;
      assert Run(START, es) && !NoneLost(After(START, es));
    } else {
      forall es | Run(START, es) && AllGenuine(es) ensures NoneLost(After(START, es)) {
        RunAttended(START, es);
      }
    }
  }

  // ----- the branch that loses it -----

  /** The step is an acquire that returns, granted or refused, with its thread still queued. */
  predicate LeavesQueued(s: State, e: Step) {
    e.Try? && e.c.Thread? && Tried(s.gate, e.c, e.sleep) != Waits && e.c.t in AfterTry(s.gate, e.c, e.sleep).waiters
  }

  predicate NeverLeavesQueued(s: State, es: seq<Step>)
    decreases es
  {
    es == [] || (!LeavesQueued(s, es[0]) && NeverLeavesQueued(Apply(s, es[0]), es[1..]))
  }

  /** Whoever is queued is still inside its acquire. */
  ghost predicate QueuedInside(s: State) {
    (s.gate.busy <==> s.gate.depth > 0) && forall i :: 0 <= i < |s.gate.waiters| ==>
      StatusOf(s, s.gate.waiters[i]) != Outside
  }

  lemma {:induction false} WithoutKeeps(ws: seq<nat>, t: nat, i: nat)
    requires i < |Without(ws, t)|
    ensures Without(ws, t)[i] in ws
  {
    if ws[0] != t && i > 0 {
      WithoutKeeps(ws[1..], t, i - 1);
    }
  }

  lemma TryInside(s: State, c: Ctx, sleep: Sleep)
    requires QueuedInside(s) && Awake(s, c) && !LeavesQueued(s, Try(c, sleep))
    ensures QueuedInside(Apply(s, Try(c, sleep))) && Apply(s, Try(c, sleep)).gate.busy
  {
    var s' := Apply(s, Try(c, sleep));
    var ws, ws' := s.gate.waiters, s'.gate.waiters;
    forall i | 0 <= i < |ws'| ensures StatusOf(s', ws'[i]) != Outside {
      if c.Thread? && sleep == Fails && !MayEnter(s.gate, c) && |ws| < WAITERS {
        WithoutKeeps(Queued(ws, c.t), c.t, i);
      }
      assert ws'[i] in ws || (c.Thread? && ws'[i] == c.t);
    }
  }

  lemma LeaveInside(s: State, c: Ctx)
    requires QueuedInside(s) && NoneLost(s)
    ensures QueuedInside(Apply(s, Leave(c))) && NoneLost(Apply(s, Leave(c)))
  {
    var s' := Apply(s, Leave(c));
    if Woken(s.gate).Some? {
      assert StatusOf(s', s.gate.waiters[0]) == Retry;
    } else {
      assert s'.status == s.status;
      assert forall t: nat :: StatusOf(s', t) == StatusOf(s, t);
    }
  }

  lemma StepInside(s: State, e: Step)
    requires QueuedInside(s) && NoneLost(s) && Enabled(s, e) && !LeavesQueued(s, e)
    ensures QueuedInside(Apply(s, e)) && NoneLost(Apply(s, e))
  {
    match e {
      case Try(c, sleep) => TryInside(s, c, sleep);
      case Quiesce(c) => assert forall t: nat :: StatusOf(Apply(s, e), t) == StatusOf(s, t);
      case Leave(c) => LeaveInside(s, c);
      case Stray(t) => assert StatusOf(Apply(s, e), t) == Retry;
    }
  }

  /** No run loses a wakeup as long as nobody leaves an acquire while still queued,
      however threads are woken. */
  lemma {:induction false} RunInside(s: State, es: seq<Step>)
    requires QueuedInside(s) && NoneLost(s) && Run(s, es) && NeverLeavesQueued(s, es)
    ensures QueuedInside(After(s, es)) && NoneLost(After(s, es))
    decreases es
  {
    if es != [] {
      StepInside(s, es[0]);
      RunInside(Apply(s, es[0]), es[1..]);
    }
  }

  ghost predicate NobodyRetries(s: State) {
    forall t: nat :: StatusOf(s, t) != Retry
  }

  lemma Prefixed(s: State, e: Step, es: seq<Step>)
    requires Enabled(s, e) && Run(Apply(s, e), es)
    ensures Run(s, [e] + es) && After(s, [e] + es) == After(Apply(s, e), es)
  {
    assert ([e] + es)[1..] == es;
    Unroll(s, [e] + es);
  }

  /** A thread nobody has heard of. */
  lemma Newcomer(s: State) returns (t: nat)
    ensures t !in s.status && t !in s.gate.waiters && s.gate.owner != Thread(t)
  {
    var used := s.status.Keys + (set i | 0 <= i < |s.gate.waiters| :: s.gate.waiters[i])
      + (if s.gate.owner.Thread? then {s.gate.owner.t} else {});
    t := Above(used);
    assert forall i :: 0 <= i < |s.gate.waiters| ==> s.gate.waiters[i] in used;
  }

  lemma {:induction false} Above(used: set<nat>) returns (t: nat)
    ensures t !in used && forall u :: u in used ==> u < t
    decreases |used|
  {
    if used == {} {
      t := 0;
    } else {
      var u :| u in used;
      var v := Above(used - {u});
      t := if u < v then v else u + 1;
      forall w | w in used ensures w < t {
        assert w == u || w in used - {u};
      }
    }
  }

  /** With the gate held, nobody about to retry, and a thread queued that is not
      inside its acquire, the gate's own steps end with somebody asleep for good. */
  lemma {:induction false} Strands(s: State, k: nat) returns (es: seq<Step>)
    requires Exclusive(s) && s.gate.busy && NobodyRetries(s)
    requires k < |s.gate.waiters| && StatusOf(s, s.gate.waiters[k]) == Outside
    ensures Run(s, es) && !NoneLost(After(s, es)) && AllGenuine(es)
    decreases k, s.gate.depth, WAITERS - |s.gate.waiters|
  {
    var g := s.gate;
    var e: Step;
    if g.depth > 1 {
      e := Leave(g.owner);
    } else if |g.waiters| == 1 {
      var t := Newcomer(s);
      e := Try(Thread(t), Sleeps);
    } else {
      e := Leave(g.owner);
    }
    StepExclusive(s, e);
    var s' := Apply(s, e);
    if g.depth > 1 || |g.waiters| == 1 {
      StrandStep(s, e);
      var more := Strands(s', k);
      Prefixed(s, e, more);
      es := [e] + more;
    } else if StatusOf(s, g.waiters[0]) == Outside {
      assert s'.gate.waiters == g.waiters[1..] && s'.status == s.status;
      assert forall t: nat :: StatusOf(s', t) == StatusOf(s, t);
      Prefixed(s, e, []);
      es := [e];
      assert [e] + [] == [e];
    } else {
      var w := g.waiters[0];
      var f := Try(Thread(w), Sleeps);
      StepExclusive(s', f);
      var s'' := Apply(s', f);
      assert s''.gate.waiters == g.waiters[1..];
      forall t: nat ensures StatusOf(s'', t) == if t == w then Outside else StatusOf(s, t) {
      }
      var more := Strands(s'', k - 1);
      Prefixed(s', f, more);
      Prefixed(s, e, [f] + more);
      es := [e] + ([f] + more);
    }
  }

  /** Threads about to retry find the gate held and sleep again, or leave. */
  lemma {:induction false} Loses(s: State, k: nat) returns (es: seq<Step>)
    requires Exclusive(s) && s.gate.busy
    requires k < |s.gate.waiters| && StatusOf(s, s.gate.waiters[k]) == Outside
    ensures Run(s, es) && !NoneLost(After(s, es)) && AllGenuine(es)
    decreases |Retrying(s)|
  {
    if Retrying(s) == {} {
      forall t: nat ensures StatusOf(s, t) != Retry {
        assert t !in Retrying(s);
      }
      es := Strands(s, k);
    } else {
      var t :| t in Retrying(s);
      var e := Try(Thread(t), Sleeps);
      var s' := Apply(s, e);
      StepExclusive(s, e);
      assert s.gate.waiters <= s'.gate.waiters;
      assert Retrying(s') == Retrying(s) - {t};
      var more := Loses(s', k);
      Prefixed(s, e, more);
      es := [e] + more;
    }
  }

  ghost function Retrying(s: State): set<nat> {
    set t | t in s.status && s.status[t] == Retry
  }

  /** And whenever somebody does leave an acquire while still queued, the run can
      go on, with no further stray wakeup, until a wakeup is lost. */
  lemma LeavingQueuedLoses(s: State, e: Step) returns (es: seq<Step>)
    requires Exclusive(s) && Enabled(s, e) && LeavesQueued(s, e)
    ensures Run(s, [e] + es) && !NoneLost(After(s, [e] + es)) && AllGenuine(es)
  {
    var s' := Apply(s, e);
    StepExclusive(s, e);
    var k :| 0 <= k < |s'.gate.waiters| && s'.gate.waiters[k] == e.c.t;
    es := Loses(s', k);
    Prefixed(s, e, es);
  }

  lemma StrandStep(s: State, e: Step)
    requires Exclusive(s) && s.gate.busy && NobodyRetries(s) && Enabled(s, e)
    requires (e == Leave(s.gate.owner) && s.gate.depth > 1)
          || (e.Try? && e.sleep == Sleeps && e.c.Thread? && e.c.t !in s.status && e.c.t !in s.gate.waiters
              && s.gate.owner != e.c && |s.gate.waiters| < WAITERS)
    ensures var s' := Apply(s, e);
            && s'.gate.busy && NobodyRetries(s') && s.gate.waiters <= s'.gate.waiters
            && (forall i :: 0 <= i < |s.gate.waiters| ==>
                StatusOf(s', s.gate.waiters[i]) == StatusOf(s, s.gate.waiters[i]))
  {
    var s' := Apply(s, e);
    forall t: nat ensures StatusOf(s', t) == StatusOf(s, t) || (e.Try? && t == e.c.t && StatusOf(s', t) == Asleep) {
    }
  }
}
