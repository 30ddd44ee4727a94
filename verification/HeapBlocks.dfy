/** The kernel heap as a row of blocks that tile it, each a 32-byte header and a
    payload: what allocating, freeing and growing do to the row. */
module HeapBlocks {

  const HEADER := 32
  const PAGE := 4096
  const START: nat := 0xFFFF_C000_0000_0000
  const LIMIT: nat := 0xFFFF_C080_0000_0000
  const GROWTH := 4 * PAGE

  datatype Block = Block(size: nat, free: bool)
  type Row = seq<Block>

  /** The bytes a row takes, headers included. */
  function Span(bs: Row): nat {
    if bs == [] then 0 else HEADER + bs[0].size + Span(bs[1..])
  }

  /** The live payloads of a row starting at `base`: address and size. */
  ghost function Lives(base: nat, bs: Row): set<(nat, nat)>
    decreases bs
  {
    if bs == [] then {}
    else (if bs[0].free then {} else {(base + HEADER, bs[0].size)}) + Lives(base + HEADER + bs[0].size, bs[1..])
  }

  ghost predicate Units(bs: Row) {
    forall i :: 0 <= i < |bs| ==> bs[i].size % 16 == 0
  }

  ghost predicate NoFreeNeighbours(bs: Row) {
    forall i, j :: 0 <= i < |bs| && j == i + 1 < |bs| ==> !(bs[i].free && bs[j].free)
  }

  /** The row tiles [START, end), payloads are whole units of 16, and no two
      neighbours are both free. */
  ghost predicate Sound(bs: Row, end: nat) {
    |bs| >= 1 && START + Span(bs) == end && Units(bs) && NoFreeNeighbours(bs)
  }

  // ----- rows in parts -----

  lemma {:induction false} SpanJoin(a: Row, b: Row)
    ensures Span(a + b) == Span(a) + Span(b)
  {
    if a == [] {
      assert a + b == b;
    } else {
      assert (a + b)[1..] == a[1..] + b;
      SpanJoin(a[1..], b);
    }
  }

  lemma {:induction false} LivesJoin(base: nat, a: Row, b: Row)
    ensures Lives(base, a + b) == Lives(base, a) + Lives(base + Span(a), b)
    decreases a
  {
    if a == [] {
      assert a + b == b;
    } else {
      assert (a + b)[1..] == a[1..] + b;
      LivesJoin(base + HEADER + a[0].size, a[1..], b);
    }
  }

  lemma SoundSome(bs: Row, end: nat)
    requires Sound(bs, end)
    ensures |bs| >= 1 && end >= START
  {
  }

  lemma SpanNone()
    ensures Span([]) == 0
  {
  }

  lemma SpanOne(b: Block)
    ensures Span([b]) == HEADER + b.size
  {
    assert [b][1..] == [];
  }

  lemma LivesOne(base: nat, b: Block)
    ensures Lives(base, [b]) == if b.free then {} else {(base + HEADER, b.size)}
  {
    assert [b][1..] == [];
  }

  /** A row with one block singled out. */
  lemma Parts(base: nat, a: Row, b: Block, c: Row)
    ensures Span(a + [b] + c) == Span(a) + HEADER + b.size + Span(c)
    ensures Lives(base, a + [b] + c)
            == Lives(base, a) + (if b.free then {}
                                 else {(base + Span(a) + HEADER, b.size)}) + Lives(base + Span(a) + HEADER + b.size, c)
  {
    SpanJoin(a + [b], c);
    SpanJoin(a, [b]);
    SpanOne(b);
    LivesJoin(base, a + [b], c);
    LivesJoin(base, a, [b]);
    LivesOne(base + Span(a), b);
  }

  // ----- live payloads -----

  /** Live payloads lie inside the row, aligned if the row is. */
  lemma {:induction false} LiveInside(base: nat, bs: Row, x: (nat, nat))
    requires x in Lives(base, bs)
    ensures base + HEADER <= x.0 && x.0 + x.1 <= base + Span(bs)
    ensures base % 16 == 0 && Units(bs) ==> x.0 % 16 == 0
    decreases bs
  {
    if bs[0].free || x != (base + HEADER, bs[0].size) {
      LiveInside(base + HEADER + bs[0].size, bs[1..], x);
    }
  }

  /** Two live payloads at one address are the same; at different addresses they
      are disjoint, with a header between them. */
  lemma {:induction false} LiveApart(base: nat, bs: Row, x: (nat, nat), y: (nat, nat))
    requires x in Lives(base, bs) && y in Lives(base, bs) && x.0 <= y.0
    ensures x == y || x.0 + x.1 + HEADER <= y.0
    decreases bs
  {
    var next := base + HEADER + bs[0].size;
    var first := (base + HEADER, bs[0].size);
    if !bs[0].free && x == first {
      if y != first {
        LiveInside(next, bs[1..], y);
      }
    } else {
      LiveInside(next, bs[1..], x);
      LiveApart(next, bs[1..], x, y);
    }
  }

  lemma {:induction false} NoLives(base: nat, bs: Row)
    requires Lives(base, bs) == {}
    ensures forall i :: 0 <= i < |bs| ==> bs[i].free
    decreases bs
  {
    if bs != [] {
      var x := (base + HEADER, bs[0].size);
      assert !bs[0].free ==> x in Lives(base, bs);
      NoLives(base + HEADER + bs[0].size, bs[1..]);
      assert forall i :: 1 <= i < |bs| ==> bs[i] == bs[1..][i - 1];
    }
  }

  lemma OneUsed(bs: Row)
    requires NoFreeNeighbours(bs) && |bs| >= 2
    ensures !bs[0].free || !bs[1].free
  {
  }

  /** Once everything has been freed one block is left, of everything. */
  lemma AllFreed(bs: Row, end: nat)
    requires Sound(bs, end) && Lives(START, bs) == {}
    ensures bs == [Block(end - START - HEADER, true)]
  {
    NoLives(START, bs);
    if |bs| >= 2 {
      OneUsed(bs);
      assert false;
    }
    assert bs == [bs[0]];
    SpanOne(bs[0]);
  }

  // ----- allocating -----

  predicate Fits(b: Block, size: nat) {
    b.free && b.size >= size
  }

  /** What becomes of a block taken for `size` bytes: the rest is split off if it is worth a block. */
  function Taken(b: Block, size: nat): (r: Row)
    requires Fits(b, size)
    ensures 1 <= |r| <= 2
  {
    var rest := b.size - size;
    if rest > HEADER + 16 then [Block(size, false), Block(rest - HEADER, true)] else [Block(b.size, false)]
  }

  lemma TakenParts(base: nat, b: Block, size: nat)
    requires Fits(b, size)
    ensures var r := Taken(b, size);
            Span(r) == HEADER + b.size && r[0].size >= size && !r[0].free
              && Lives(base, r) == {(base + HEADER, r[0].size)}
  {
    var r := Taken(b, size);
    SpanOne(r[0]);
    LivesOne(base, r[0]);
    if |r| == 2 {
      SpanOne(r[1]);
      SpanJoin([r[0]], [r[1]]);
      LivesOne(base + Span([r[0]]), r[1]);
      LivesJoin(base, [r[0]], [r[1]]);
      assert r == [r[0]] + [r[1]];
    } else {
      assert r == [r[0]];
    }
  }

  /** Allocating keeps the heap sound and adds exactly one live payload, of at
      least the size asked for and at an address that was not live. */
  lemma TakeSound(a: Row, b: Block, c: Row, size: nat, end: nat)
    requires Sound(a + [b] + c, end) && Fits(b, size) && size % 16 == 0
    ensures var bs', r := a + Taken(b, size) + c, Taken(b, size);
            && Sound(bs', end)
            && Lives(START, bs') == Lives(START, a + [b] + c) + {(START + Span(a) + HEADER, r[0].size)}
            && r[0].size >= size
  {
    hide Span, Lives, Units, NoFreeNeighbours, Taken;
    var bs, r := a + [b] + c, Taken(b, size);
    Parts(START, a, b, c);
    TakenParts(START + Span(a), b, size);
    SpanJoin(a + r, c);
    SpanJoin(a, r);
    LivesJoin(START, a + r, c);
    LivesJoin(START, a, r);
    TakeShape(a, b, c, size);
  }

  lemma TakeShape(a: Row, b: Block, c: Row, size: nat)
    requires Units(a + [b] + c) && NoFreeNeighbours(a + [b] + c) && Fits(b, size) && size % 16 == 0
    ensures Units(a + Taken(b, size) + c) && NoFreeNeighbours(a + Taken(b, size) + c)
  {
    var bs, r := a + [b] + c, Taken(b, size);
    var bs' := a + r + c;
    assert bs[|a|] == b;
    assert forall i :: 0 <= i < |a| ==> bs'[i] == bs[i] == a[i];
    assert forall i :: |a| + |r| <= i < |bs'| ==> bs'[i] == bs[i - |r| + 1];
    assert bs'[|a|] == r[0] && (|r| == 2 ==> bs'[|a| + 1] == r[1]);
  }

  // ----- freeing -----

  /** A freed block absorbs a free block behind it. */
  function MergedRight(b: Block, c: Row): (Block, Row) {
    if c != [] && c[0].free then (Block(b.size + HEADER + c[0].size, true), c[1..]) else (Block(b.size, true), c)
  }

  /** And is absorbed by a free block before it. */
  function MergedLeft(a: Row, m: Block, c: Row): Row {
    if a != [] && a[|a| - 1].free then a[..|a| - 1] + [Block(a[|a| - 1].size + HEADER + m.size, true)] + c
      else a + [m] + c
  }

  function Freed(a: Row, b: Block, c: Row): (bs: Row) {
    var (m, c1) := MergedRight(b, c);
    MergedLeft(a, m, c1)
  }

  lemma MergeRight(base: nat, a: Row, b: Block, c: Row)
    requires c != [] && c[0].free && b.free
    ensures var m := Block(b.size + HEADER + c[0].size, true);
            Span(a + [m] + c[1..]) == Span(a + [b] + c) && Lives(base, a + [m] + c[1..]) == Lives(base, a + [b] + c)
  {
    var m := Block(b.size + HEADER + c[0].size, true);
    Parts(base, a, b, c);
    Parts(base, a, m, c[1..]);
  }

  /** Freeing keeps the heap sound and removes exactly that payload. */
  lemma FreeSound(a: Row, b: Block, c: Row, end: nat)
    requires Sound(a + [b] + c, end) && !b.free
    ensures Sound(Freed(a, b, c), end)
    ensures Lives(START, Freed(a, b, c)) == Lives(START, a + [b] + c) - {(START + Span(a) + HEADER, b.size)}
  {
    hide Span, Lives, Units, NoFreeNeighbours;
    var f := Block(b.size, true);
    FreeMark(a, b, c);
    FreedShape(a, b, c);
    var (m, c1) := MergedRight(b, c);
    if c != [] && c[0].free {
      MergeRight(START, a, f, c);
    }
    if a != [] && a[|a| - 1].free {
      var a1, last := a[..|a| - 1], a[|a| - 1];
      assert a1 + [last] + ([m] + c1) == a + [m] + c1;
      MergeRight(START, a1, last, [m] + c1);
      assert ([m] + c1)[1..] == c1;
    }
  }

  lemma FreeMark(a: Row, b: Block, c: Row)
    requires !b.free
    ensures var f := Block(b.size, true);
            Span(a + [f] + c) == Span(a + [b] + c)
            && Lives(START, a + [f] + c) == Lives(START, a + [b] + c) - {(START + Span(a) + HEADER, b.size)}
  {
    hide Span, Lives;
    var f, at := Block(b.size, true), START + Span(a);
    Parts(START, a, b, c);
    Parts(START, a, f, c);
    var x := (at + HEADER, b.size);
    assert x !in Lives(START, a) by {
      if x in Lives(START, a) { LiveInside(START, a, x); }
    }
    assert x !in Lives(at + HEADER + b.size, c) by {
      if x in Lives(at + HEADER + b.size, c) { LiveInside(at + HEADER + b.size, c, x); }
    }
  }

  /** A block between two rows that do not touch it with a free block. */
  lemma ShapeJoin(a: Row, m: Block, c: Row)
    requires Units(a) && Units(c) && m.size % 16 == 0 && NoFreeNeighbours(a) && NoFreeNeighbours(c)
    requires (a == [] || !a[|a| - 1].free) && (c == [] || !c[0].free)
    ensures Units(a + [m] + c) && NoFreeNeighbours(a + [m] + c)
  {
    var bs := a + [m] + c;
    assert forall i :: 0 <= i < |a| ==> bs[i] == a[i];
    assert bs[|a|] == m;
    assert forall i :: |a| < i < |bs| ==> bs[i] == c[i - |a| - 1];
  }

  lemma ShapeSplit(a: Row, b: Block, c: Row)
    requires Units(a + [b] + c) && NoFreeNeighbours(a + [b] + c)
    ensures Units(a) && Units(c) && b.size % 16 == 0 && NoFreeNeighbours(a) && NoFreeNeighbours(c)
  {
    var bs := a + [b] + c;
    assert bs[|a|] == b;
    assert forall i :: 0 <= i < |a| ==> bs[i] == a[i];
    assert forall i :: 0 <= i < |c| ==> c[i] == bs[|a| + 1 + i];
  }

  /** Dropping a free end leaves a used one. */
  lemma ShapeEnds(a: Row)
    requires Units(a) && NoFreeNeighbours(a) && a != []
    ensures Units(a[..|a| - 1]) && NoFreeNeighbours(a[..|a| - 1]) && Units(a[1..]) && NoFreeNeighbours(a[1..])
    ensures a[|a| - 1].free && |a| > 1 ==> !a[..|a| - 1][|a| - 2].free
    ensures a[0].free && |a| > 1 ==> !a[1..][0].free
    ensures a[0].size % 16 == 0 && a[|a| - 1].size % 16 == 0
  {
    assert forall i :: 0 <= i < |a| - 1 ==> a[1..][i] == a[i + 1];
  }

  lemma RightShape(b: Block, c: Row)
    requires Units(c) && NoFreeNeighbours(c) && b.size % 16 == 0
    ensures var (m, c1) := MergedRight(b, c);
            m.size % 16 == 0 && Units(c1) && NoFreeNeighbours(c1) && (c1 == [] || !c1[0].free)
  {
    if c != [] {
      ShapeEnds(c);
    }
    hide Units, NoFreeNeighbours;
  }

  lemma LeftShape(a: Row, m: Block, c: Row)
    requires Units(a) && NoFreeNeighbours(a) && Units(c) && NoFreeNeighbours(c) && m.size % 16 == 0
             && (c == [] || !c[0].free)
    ensures Units(MergedLeft(a, m, c)) && NoFreeNeighbours(MergedLeft(a, m, c))
  {
    if a != [] {
      ShapeEnds(a);
    }
    hide Units, NoFreeNeighbours;
    if a != [] && a[|a| - 1].free {
      ShapeJoin(a[..|a| - 1], Block(a[|a| - 1].size + HEADER + m.size, true), c);
    } else {
      ShapeJoin(a, m, c);
    }
  }

  lemma FreedShape(a: Row, b: Block, c: Row)
    requires Units(a + [b] + c) && NoFreeNeighbours(a + [b] + c)
    ensures Units(Freed(a, b, c)) && NoFreeNeighbours(Freed(a, b, c))
  {
    ShapeSplit(a, b, c);
    hide Units, NoFreeNeighbours, MergedRight, MergedLeft;
    var (m, c1) := MergedRight(b, c);
    RightShape(b, c);
    LeftShape(a, m, c1);
  }

  // ----- growing -----

  /** New pages extend a free last block, or become a block of their own. */
  function Grown(bs: Row, bytes: nat): (r: Row)
    requires bs != [] && bytes >= HEADER
  {
    var last := bs[|bs| - 1];
    if last.free then bs[..|bs| - 1] + [Block(last.size + bytes, true)] else bs + [Block(bytes - HEADER, true)]
  }

  lemma GrowSound(bs: Row, end: nat, bytes: nat)
    requires Sound(bs, end) && bytes >= HEADER && bytes % 16 == 0
    ensures Sound(Grown(bs, bytes), end + bytes) && Lives(START, Grown(bs, bytes)) == Lives(START, bs)
  {
    var a, last := bs[..|bs| - 1], bs[|bs| - 1];
    var r := Grown(bs, bytes);
    ShapeEnds(bs);
    ShapeNone();
    hide Units, NoFreeNeighbours;
    assert bs == a + [last] + [];
    Parts(START, a, last, []);
    if last.free {
      var m := Block(last.size + bytes, true);
      Parts(START, a, m, []);
      ShapeJoin(a, m, []);
      assert r == a + [m] + [];
    } else {
      var m := Block(bytes - HEADER, true);
      Parts(START, bs, m, []);
      ShapeJoin(bs, m, []);
      assert r == bs + [m] + [];
    }
  }

  lemma ShapeNone()
    ensures Units([]) && NoFreeNeighbours([])
  {
  }
}
