/** Allocations, frees and growth by any number of threads. The heap lock makes
    each search, split, merge and publication one step; growth holds a mutex of
    its own and releases the heap lock while it maps pages. */
module HeapGrowth {
  import opened Options
  import opened HeapBlocks

  // ----- rounding -----

  const WORD := 0x1_0000_0000_0000_0000

  /** The size a request is rounded to, in 64-bit arithmetic. */
  function Rounded(request: nat): (n: nat)
    requires request < WORD
    ensures n % 16 == 0
  {
    (request + 15) % WORD / 16 * 16
  }

  /** A payload is as large as was asked for, except for the fifteen largest
      requests, whose rounding wraps to nothing. */
  lemma RoundingHolds(request: nat)
    requires request < WORD
    ensures Rounded(request) >= request <==> request <= WORD - 16
    ensures request > WORD - 16 ==> Rounded(request) == 0
  {
  }

  // ----- the state -----

  /** The frames of one growth, and how many of them have been mapped. */
  type Frames = fs: seq<nat> | |fs| == 4 witness [0, 0, 0, 0]
  type Count = n: nat | n <= 4

  /** Where a thread is inside an allocation that found nothing. */
  datatype Pc =
    | Idle
    | Wanting(size: nat)
    | Taking(size: nat, frames: seq<nat>)
    | Checked(size: nat, full: Frames)
    | Mapping(size: nat, full: Frames, mapped: Count, oldEnd: nat)
    | Mapped(size: nat, full: Frames, mapped: Count, oldEnd: nat)

  datatype State = State(row: Row, end: nat, pages: map<nat, nat>, pool: set<nat>, holder: Option<nat>, pcs: map<nat,
                         Pc>, panicked: bool)

  /** The number of a page of the heap, `pages` being indexed by it. */
  function PageNumber(a: nat): nat {
    if a < START then 0 else (a - START) / PAGE
  }

  function PcOf(s: State, t: nat): Pc {
    if t in s.pcs then s.pcs[t] else Idle
  }

  predicate Growing(p: Pc) {
    !p.Idle? && !p.Wanting?
  }

  function FirstFit(bs: Row, size: nat): (i: nat)
    ensures i <= |bs| && (i < |bs| ==> Fits(bs[i], size))
  {
    if bs == [] then 0 else if Fits(bs[0], size) then 0 else 1 + FirstFit(bs[1..], size)
  }

  datatype Step =
    | Allocate(t: nat, request: nat)
    | Release(t: nat, ptr: nat, size: nat)
    | Lock(t: nat)
    | GiveUp(t: nat)
    | TakeFrame(t: nat, frame: nat)
    | NoFrame(t: nat)
    | Recheck(t: nat)
    | ReadEnd(t: nat)
    | MapPage(t: nat)
    | MapFails(t: nat)
    | Publish(t: nat)

  ghost predicate Enabled(s: State, e: Step) {
    var p := PcOf(s, e.t);
    !s.panicked &&
    match e
    case Allocate(_, request) => p.Idle? && request < WORD
    case Release(_, ptr, size) => p.Idle? && (ptr, size) in Lives(START, s.row)
    case Lock(t) => p.Wanting? && s.holder == None
    case GiveUp(_) => p.Wanting?
    case TakeFrame(_, frame) => p.Taking? && |p.frames| < 4 && frame in s.pool
    case NoFrame(_) => p.Taking? && |p.frames| < 4
    case Recheck(_) => p.Taking? && |p.frames| == 4
    case ReadEnd(_) => p.Checked?
    case MapPage(_) => p.Mapping? && p.mapped < 4
    case MapFails(_) => p.Mapping? && p.mapped < 4
    case Publish(_) => p.Mapped?
  }

  function Elements(fs: seq<nat>): set<nat> {
    set f | f in fs
  }

  /** Leave growth: what is still held goes back, the mutex is released. */
  function Leave(s: State, t: nat, rest: seq<nat>): State {
    s.(pool := s.pool + Elements(rest), holder := None, pcs := s.pcs[t := Idle])
  }

  ghost function Apply(s: State, e: Step): State
    requires Enabled(s, e) && s.row != []
  {
    var p := PcOf(s, e.t);
    match e
    case Allocate(t, request) =>
      var size := Rounded(request);
      var i := FirstFit(s.row, size);
      if i == |s.row| then s.(pcs := s.pcs[t := Wanting(size)])
      else s.(row := s.row[..i] + Taken(s.row[i], size) + s.row[i + 1..])
    case Release(_, ptr, size) => s.(row := WithoutLive(s.row, ptr, size))
    case Lock(t) => s.(holder := Some(t), pcs := s.pcs[t := Taking(p.size, [])])
    case GiveUp(t) => s.(pcs := s.pcs[t := Idle])
    case TakeFrame(t, frame) => s.(pool := s.pool - {frame}, pcs := s.pcs[t := Taking(p.size, p.frames + [frame])])
    case NoFrame(t) => Leave(s, t, p.frames)
    case Recheck(t) =>
      if FirstFit(s.row, p.size) < |s.row| then Leave(s, t, p.frames)
        else s.(pcs := s.pcs[t := Checked(p.size, p.frames)])
    case ReadEnd(t) =>
      if s.end > LIMIT - GROWTH then Leave(s, t, p.full)
      else s.(pcs := s.pcs[t := Mapping(p.size, p.full, 0, s.end)])
    case MapPage(t) =>
      var m: Count := p.mapped + 1;
      s.(pages := s.pages[PageNumber(p.oldEnd) + p.mapped := p.full[p.mapped]],
         pcs := s.pcs[t := if m == 4 then Mapped(p.size, p.full, m, p.oldEnd)
                      else Mapping(p.size, p.full, m, p.oldEnd)])
    case MapFails(t) => s.(pcs := s.pcs[t := Mapped(p.size, p.full, p.mapped, p.oldEnd)])
    case Publish(t) =>
      if s.end != p.oldEnd then s.(panicked := true)
      else
        Leave(s.(end := s.end + p.mapped * PAGE, row := if p.mapped == 0 then s.row else Grown(s.row, p.mapped * PAGE)),
              t, p.full[p.mapped..])
  }

  /** The row after freeing a live payload. */
  ghost function WithoutLive(bs: Row, ptr: nat, size: nat): Row
    requires (ptr, size) in Lives(START, bs)
  {
    var i := LiveIndex(START, bs, ptr, size);
    Freed(bs[..i], bs[i], bs[i + 1..])
  }

  ghost function LiveIndex(base: nat, bs: Row, ptr: nat, size: nat): (i: nat)
    requires (ptr, size) in Lives(base, bs)
    ensures i < |bs| && !bs[i].free && bs[i].size == size && ptr == base + Span(bs[..i]) + HEADER
    decreases bs
  {
    if !bs[0].free && (ptr, size) == (base + HEADER, bs[0].size) then 0
    else
      var k := LiveIndex(base + HEADER + bs[0].size, bs[1..], ptr, size);
      assert bs[..k + 1][1..] == bs[1..][..k];
      1 + k
  }

  // ----- the invariant -----

  /** What a growing thread holds and has not mapped. */
  function Held(p: Pc): seq<nat> {
    match p
    case Taking(_, frames) => frames
    case Checked(_, full) => full
    case Mapping(_, full, mapped, _) => full[mapped..]
    case Mapped(_, full, mapped, _) => full[mapped..]
    case _ => []
  }

  /** How many pages past the end are mapped already. */
  function Ahead(p: Pc): nat {
    if p.Mapping? || p.Mapped? then p.mapped else 0
  }

  function HolderPc(s: State): Pc {
    if s.holder == None then Idle else PcOf(s, s.holder.value)
  }

  ghost predicate NoDup(fs: seq<nat>) {
    forall i, j :: 0 <= i < j < |fs| ==> fs[i] != fs[j]
  }

  /** Exactly the first n pages of the heap are mapped, each to a frame of its own. */
  ghost predicate PagesUpTo(pages: map<nat, nat>, n: nat) {
    && (forall k: nat :: k in pages <==> k < n)
    && (forall a, b :: a in pages && b in pages && pages[a] == pages[b] ==> a == b)
  }

  /** Every frame is in the pool, held by the growing thread, or mapped; never two of these. */
  ghost predicate Conserved(pages: map<nat, nat>, pool: set<nat>, held: seq<nat>, total: set<nat>) {
    && NoDup(held) && pool + Elements(held) + pages.Values == total
    && pool !! Elements(held) && pool !! pages.Values && Elements(held) !! pages.Values
  }

  /** Only the holder of the mutex is growing, and every size is a whole number of units. */
  ghost predicate Exclusive(s: State) {
    forall t: nat :: (Growing(PcOf(s, t)) <==> s.holder == Some(t))
      && (PcOf(s, t).Wanting? || PcOf(s, t).Taking? ==> PcOf(s, t).size % 16 == 0)
  }

  /** The pages and frames, and what the growing thread knows. */
  ghost predicate Backed(s: State, total: set<nat>) {
    var p := HolderPc(s);
    && (p.Mapping? || p.Mapped? ==> p.oldEnd == s.end && s.end + GROWTH <= LIMIT)
    && PagesUpTo(s.pages, PageNumber(s.end) + Ahead(p)) && Conserved(s.pages, s.pool, Held(p), total)
  }

  ghost predicate Inv(s: State, total: set<nat>) {
    && !s.panicked && Sound(s.row, s.end) && s.end <= LIMIT && (s.end - START) % PAGE == 0
    && Exclusive(s) && Backed(s, total)
  }

  // ----- the parts of a step -----

  /** A thread moves on, taking or leaving the mutex if it starts or stops growing. */
  ghost predicate Moves(s: State, s': State, t: nat, p: Pc) {
    && s'.pcs == s.pcs[t := p] && (p.Wanting? || p.Taking? ==> p.size % 16 == 0)
    && s'.holder == (if Growing(p) then Some(t) else if s.holder == Some(t) then None else s.holder)
    && (Growing(p) ==> s.holder == None || s.holder == Some(t))
  }

  lemma MoveKeeps(s: State, s': State, t: nat, p: Pc)
    requires Exclusive(s) && Moves(s, s', t, p)
    ensures Exclusive(s')
    ensures Growing(p) ==> HolderPc(s') == p
    ensures s.holder == Some(t) ==> HolderPc(s) == PcOf(s, t)
    ensures s.holder == Some(t) && !Growing(p) ==> HolderPc(s') == Idle
    ensures s.holder != Some(t) && !Growing(p) ==> HolderPc(s') == HolderPc(s)
  {
    forall u: nat ensures PcOf(s', u) == if u == t then p else PcOf(s, u) {
    }
  }

  lemma HolderIs(s: State, t: nat)
    requires Exclusive(s)
    ensures Growing(PcOf(s, t)) <==> s.holder == Some(t)
    ensures PcOf(s, t).Wanting? || PcOf(s, t).Taking? ==> PcOf(s, t).size % 16 == 0
  {
  }

  /** Frames go back to the pool, or on to the pages. */
  lemma GiveBack(pages: map<nat, nat>, pool: set<nat>, held: seq<nat>, total: set<nat>)
    requires Conserved(pages, pool, held, total)
    ensures Conserved(pages, pool + Elements(held), [], total)
  {
    assert Elements([]) == {};
  }

  lemma TakeOne(pages: map<nat, nat>, pool: set<nat>, held: seq<nat>, f: nat, total: set<nat>)
    requires Conserved(pages, pool, held, total) && f in pool
    ensures Conserved(pages, pool - {f}, held + [f], total)
  {
    assert Elements(held + [f]) == Elements(held) + {f};
  }

  lemma MapOne(pages: map<nat, nat>, pool: set<nat>, held: seq<nat>, n: nat, total: set<nat>)
    requires Conserved(pages, pool, held, total) && held != [] && PagesUpTo(pages, n)
    ensures Conserved(pages[n := held[0]], pool, held[1..], total) && PagesUpTo(pages[n := held[0]], n + 1)
  {
    var f := held[0];
    assert f in Elements(held);
    ElementsTail(held);
    NewValue(pages, n, f);
    forall k | k in pages ensures pages[k] != f {
      assert pages[k] in pages.Values;
    }
  }

  lemma ElementsTail(fs: seq<nat>)
    requires fs != [] && NoDup(fs)
    ensures Elements(fs[1..]) == Elements(fs) - {fs[0]} && NoDup(fs[1..])
  {
    forall f ensures f in Elements(fs[1..]) <==> f in Elements(fs) - {fs[0]} {
      if f in Elements(fs) && f != fs[0] {
        var i :| 0 <= i < |fs| && fs[i] == f;
        assert fs[1..][i - 1] == f;
      }
    }
  }

  lemma NewValue(pages: map<nat, nat>, k: nat, f: nat)
    requires k !in pages
    ensures pages[k := f].Values == pages.Values + {f}
  {
    var m := pages[k := f];
    assert m[k] == f;
    forall v | v in pages.Values ensures v in m.Values {
      var a :| a in pages && pages[a] == v;
      assert m[a] == v;
    }
  }

  // ----- every step keeps it -----

  lemma LeaveKeeps(s: State, t: nat, total: set<nat>)
    requires Inv(s, total) && s.holder == Some(t) && Ahead(PcOf(s, t)) == 0
    ensures Inv(Leave(s, t, Held(PcOf(s, t))), total)
  {
    hide Sound, Exclusive, PagesUpTo, Conserved;
    var s' := Leave(s, t, Held(PcOf(s, t)));
    MoveKeeps(s, s', t, Idle);
    GiveBack(s.pages, s.pool, Held(PcOf(s, t)), total);
  }

  lemma TakeFrameKeeps(s: State, t: nat, f: nat, total: set<nat>)
    requires Inv(s, total) && Enabled(s, TakeFrame(t, f))
    ensures Inv(Apply(s, TakeFrame(t, f)), total)
  {
    assert s.row != [];
    hide Sound, Exclusive, PagesUpTo, Conserved;
    HolderIs(s, t);
    var p := PcOf(s, t);
    MoveKeeps(s, Apply(s, TakeFrame(t, f)), t, Taking(p.size, p.frames + [f]));
    TakeOne(s.pages, s.pool, p.frames, f, total);
  }

  lemma MapPageKeeps(s: State, t: nat, total: set<nat>)
    requires Inv(s, total) && Enabled(s, MapPage(t))
    ensures Inv(Apply(s, MapPage(t)), total)
  {
    hide Sound, Exclusive, PagesUpTo, Conserved, PageNumber;
    SoundSome(s.row, s.end);
    HolderIs(s, t);
    var p := PcOf(s, t);
    var s' := Apply(s, MapPage(t));
    MoveKeeps(s, s', t, PcOf(s', t));
    MapOne(s.pages, s.pool, Held(p), PageNumber(s.end) + p.mapped, total);
    assert Held(p)[1..] == p.full[p.mapped + 1..];
  }

  lemma WholePages(end: nat, n: nat)
    requires end >= START && (end - START) % PAGE == 0
    ensures n * PAGE % 16 == 0 && (end + n * PAGE - START) % PAGE == 0
    ensures PageNumber(end + n * PAGE) == PageNumber(end) + n
    ensures n > 0 ==> n * PAGE >= PAGE
  {
    assert n * PAGE == 16 * (256 * n);
    var k := (end - START) / PAGE;
    assert end - START == PAGE * k && end + n * PAGE - START == PAGE * (k + n);
  }

  lemma PublishKeeps(s: State, t: nat, total: set<nat>)
    requires Inv(s, total) && Enabled(s, Publish(t))
    ensures Inv(Apply(s, Publish(t)), total)
  {
    hide Sound, Exclusive, PagesUpTo, Conserved, Grown, PageNumber;
    SoundSome(s.row, s.end);
    HolderIs(s, t);
    var p := PcOf(s, t);
    WholePages(s.end, p.mapped);
    if p.mapped > 0 {
      GrowSound(s.row, s.end, p.mapped * PAGE);
    }
    MoveKeeps(s, Apply(s, Publish(t)), t, Idle);
    GiveBack(s.pages, s.pool, Held(p), total);
  }

  lemma AllocateKeeps(s: State, t: nat, request: nat, total: set<nat>)
    requires Inv(s, total) && Enabled(s, Allocate(t, request))
    ensures Inv(Apply(s, Allocate(t, request)), total)
  {
    assert s.row != [];
    var size := Rounded(request);
    var i := FirstFit(s.row, size);
    hide Sound, Exclusive, PagesUpTo, Conserved, Taken, Rounded, FirstFit;
    HolderIs(s, t);
    if i < |s.row| {
      assert s.row == s.row[..i] + [s.row[i]] + s.row[i + 1..];
      TakeSound(s.row[..i], s.row[i], s.row[i + 1..], size, s.end);
      RowOnly(s, Apply(s, Allocate(t, request)), total);
    } else {
      MoveKeeps(s, Apply(s, Allocate(t, request)), t, Wanting(size));
    }
  }

  lemma RowOnly(s: State, s': State, total: set<nat>)
    requires Inv(s, total) && s' == s.(row := s'.row) && Sound(s'.row, s'.end)
    ensures Inv(s', total)
  {
    hide Sound, PagesUpTo, Conserved;
    forall t: nat ensures PcOf(s', t) == PcOf(s, t) {
    }
  }

  lemma ReleaseKeeps(s: State, t: nat, ptr: nat, size: nat, total: set<nat>)
    requires Inv(s, total) && Enabled(s, Release(t, ptr, size))
    ensures Inv(Apply(s, Release(t, ptr, size)), total)
  {
    assert s.row != [];
    hide Sound, Exclusive, Backed, Freed;
    var i := LiveIndex(START, s.row, ptr, size);
    assert s.row == s.row[..i] + [s.row[i]] + s.row[i + 1..];
    FreeSound(s.row[..i], s.row[i], s.row[i + 1..], s.end);
    RowOnly(s, Apply(s, Release(t, ptr, size)), total);
  }

  /** Steps that only move a thread's position. */
  lemma QuietKeeps(s: State, s': State, t: nat, p: Pc, total: set<nat>)
    requires Inv(s, total) && s' == s.(holder := s'.holder, pcs := s'.pcs) && Moves(s, s', t, p)
    requires s.holder == Some(t) && Growing(p) ==> Held(p) == Held(PcOf(s, t)) && Ahead(p) == Ahead(PcOf(s, t))
    requires s.holder == Some(t) ==> Growing(p)
    requires s.holder != Some(t) && Growing(p) ==> Held(p) == [] && Ahead(p) == 0
    requires p.Mapping? || p.Mapped? ==> p.oldEnd == s.end && s.end + GROWTH <= LIMIT
    ensures Inv(s', total)
  {
    hide Sound, Exclusive, PagesUpTo, Conserved;
    MoveKeeps(s, s', t, p);
  }

  lemma GrowthKeeps(s: State, e: Step, total: set<nat>)
    requires Inv(s, total) && Enabled(s, e) && (e.Recheck? || e.ReadEnd? || e.MapFails? || e.NoFrame?)
    ensures Inv(Apply(s, e), total)
  {
    assert s.row != [];
    hide Sound, Exclusive, PagesUpTo, Conserved, FirstFit;
    HolderIs(s, e.t);
    var p, s' := PcOf(s, e.t), Apply(s, e);
    if Growing(PcOf(s', e.t)) {
      QuietKeeps(s, s', e.t, PcOf(s', e.t), total);
    } else {
      LeaveKeeps(s, e.t, total);
    }
  }

  /** Every step of every thread keeps the invariant; in particular none panics. */
  lemma StepKeeps(s: State, e: Step, total: set<nat>)
    requires Inv(s, total) && Enabled(s, e)
    ensures Inv(Apply(s, e), total)
  {
    assert s.row != [];
    hide Sound, Exclusive, Backed;
    match e
    case Allocate(t, request) => AllocateKeeps(s, t, request, total);
    case Release(t, ptr, size) => ReleaseKeeps(s, t, ptr, size, total);
    case TakeFrame(t, f) => TakeFrameKeeps(s, t, f, total);
    case MapPage(t) => MapPageKeeps(s, t, total);
    case Publish(t) => PublishKeeps(s, t, total);
    case Lock(t) => HolderIs(s, t); QuietKeeps(s, Apply(s, e), t, Taking(PcOf(s, t).size, []), total);
    case GiveUp(t) => HolderIs(s, t); QuietKeeps(s, Apply(s, e), t, Idle, total);
    case _ => GrowthKeeps(s, e, total);
  }

  /** A step allocates exactly one payload, of the rounded size at least and
      where none was, or frees exactly one, or leaves all live payloads alone. */
  lemma StepLives(s: State, e: Step, total: set<nat>)
    requires Inv(s, total) && Enabled(s, e)
    ensures var before, after := Lives(START, s.row), Lives(START, Apply(s, e).row);
            if e.Release? then after == before - {(e.ptr, e.size)}
            else if e.Allocate? && FirstFit(s.row, Rounded(e.request)) < |s.row| then
              exists x :: x !in before && after == before + {x} && x.1 >= Rounded(e.request)
            else after == before
  {
    hide Sound, Exclusive, Backed, Lives, Grown, FirstFit, Rounded, Taken, Freed, PageNumber;
    SoundSome(s.row, s.end);
    match e
    case Allocate(t, request) =>
      if FirstFit(s.row, Rounded(request)) < |s.row| {
        TakeLives(s.row, s.end, FirstFit(s.row, Rounded(request)), Rounded(request));
      }
    case Release(t, ptr, size) =>
      ReleaseLives(s.row, s.end, ptr, size);
    case Publish(t) =>
      var p := PcOf(s, t);
      WholePages(s.end, p.mapped);
      if p.mapped > 0 {
        GrowSound(s.row, s.end, p.mapped * PAGE);
      }
    case _ =>
  }

  lemma TakeLives(bs: Row, end: nat, i: nat, size: nat)
    requires Sound(bs, end) && i < |bs| && Fits(bs[i], size) && size % 16 == 0
    ensures exists x :: x !in Lives(START, bs) && x.1 >= size
              && Lives(START, bs[..i] + Taken(bs[i], size) + bs[i + 1..]) == Lives(START, bs) + {x}
  {
    hide Sound, Lives, Span, Taken;
    var a, b, c := bs[..i], bs[i], bs[i + 1..];
    assert bs == a + [b] + c;
    TakeSound(a, b, c, size, end);
    var x := (START + Span(a) + HEADER, Taken(b, size)[0].size);
    FreeNotLive(a, b, c, x.1);
    assert x !in Lives(START, bs);
  }

  lemma ReleaseLives(bs: Row, end: nat, ptr: nat, size: nat)
    requires Sound(bs, end) && (ptr, size) in Lives(START, bs)
    ensures Lives(START, WithoutLive(bs, ptr, size)) == Lives(START, bs) - {(ptr, size)}
  {
    hide Sound, Lives, Span, Freed;
    var i := LiveIndex(START, bs, ptr, size);
    assert bs == bs[..i] + [bs[i]] + bs[i + 1..];
    FreeSound(bs[..i], bs[i], bs[i + 1..], end);
  }

  lemma FreeNotLive(a: Row, b: Block, c: Row, n: nat)
    requires b.free
    ensures (START + Span(a) + HEADER, n) !in Lives(START, a + [b] + c)
  {
    var x := (START + Span(a) + HEADER, n);
    Parts(START, a, b, c);
    if x in Lives(START, a) {
      LiveInside(START, a, x);
    }
    if x in Lives(START + Span(a) + HEADER + b.size, c) {
      LiveInside(START + Span(a) + HEADER + b.size, c, x);
    }
  }

  // ----- runs -----

  ghost predicate Run(s: State, es: seq<Step>)
    decreases es
  {
    es == [] || (Enabled(s, es[0]) && s.row != [] && Run(Apply(s, es[0]), es[1..]))
  }

  ghost function After(s: State, es: seq<Step>): State
    requires Run(s, es)
    decreases es
  {
    if es == [] then s else After(Apply(s, es[0]), es[1..])
  }

  /** In every run of any threads: the blocks tile the heap with no two free
      neighbours, no step panics, only one thread grows, the mapped pages are
      those up to the end, and no frame is lost or used twice. */
  lemma {:induction false} RunKeeps(s: State, es: seq<Step>, total: set<nat>)
    requires Inv(s, total) && Run(s, es)
    ensures Inv(After(s, es), total)
    decreases es
  {
    if es != [] {
      StepKeeps(s, es[0], total);
      RunKeeps(Apply(s, es[0]), es[1..], total);
    }
  }

  /** With nobody growing, every frame is in the pool or mapped. */
  lemma FramesReturned(s: State, total: set<nat>)
    requires Inv(s, total) && s.holder == None
    ensures s.pool + s.pages.Values == total && s.pool !! s.pages.Values
    ensures forall k: nat :: k in s.pages <==> START + k * PAGE < s.end
  {
    assert Elements([]) == {};
  }

  /** The heap as it starts: four pages, one free block. */
  lemma Initially(frames: Frames, pool: set<nat>)
    requires NoDup(frames) && Elements(frames) !! pool
    ensures var pages := map[0 := frames[0], 1 := frames[1], 2 := frames[2], 3 := frames[3]];
            Inv(State([Block(GROWTH - HEADER, true)], START + GROWTH, pages, pool, None, map[], false),
                pool + Elements(frames))
  {
    var pages := map[0 := frames[0], 1 := frames[1], 2 := frames[2], 3 := frames[3]];
    SpanOne(Block(GROWTH - HEADER, true));
    assert Elements([]) == {};
    assert frames == [frames[0], frames[1], frames[2], frames[3]];
    forall k | 0 <= k < 4 ensures frames[k] in pages.Values {
      assert pages[k] == frames[k];
    }
    assert pages.Values == Elements(frames);
  }
}
