/** The heap in memory: headers linked both ways at the addresses where the
    blocks of the row lie. */
module HeapLists {
  import opened HeapBlocks

  const NULL := 0

  datatype Header = Header(size: nat, free: bool, next: nat, prev: nat)
  type Headers = map<nat, Header>

  /** The headers of a row from `at` on, its first block's prev and its last block's next given. */
  ghost predicate Linked(hs: Headers, at: nat, bs: Row, prev: nat, next: nat)
    decreases bs
  {
    bs == [] ||
    (&& at in hs
     && var after := at + HEADER + bs[0].size;
     && hs[at] == Header(bs[0].size, bs[0].free, if |bs| == 1 then next else after, prev)
     && Linked(hs, after, bs[1..], at, next))
  }

  /** Where the first block of what follows is, or what follows it all. */
  function Head(at: nat, bs: Row, next: nat): nat {
    if bs == [] then next else at
  }

  ghost function LastAt(at: nat, bs: Row, prev: nat): nat
    decreases bs
  {
    if bs == [] then prev else LastAt(at + HEADER + bs[0].size, bs[1..], at)
  }

  /** A linked row is two linked rows. */
  lemma {:induction false} LinkedJoin(hs: Headers, at: nat, a: Row, b: Row, prev: nat, next: nat)
    ensures Linked(hs, at, a + b, prev, next)
            <==> && Linked(hs, at, a, prev, Head(at + Span(a), b, next))
                 && Linked(hs, at + Span(a), b, LastAt(at, a, prev), next)
    decreases a
  {
    if a == [] {
      assert a + b == b;
    } else {
      assert (a + b)[1..] == a[1..] + b;
      var after := at + HEADER + a[0].size;
      LinkedJoin(hs, after, a[1..], b, at, next);
      if |a| == 1 {
        assert a[1..] == [];
      }
    }
  }

  /** Headers outside a row's addresses do not matter to it. */
  lemma {:induction false} LinkedFrame(hs: Headers, hs': Headers, at: nat, bs: Row, prev: nat, next: nat)
    requires Linked(hs, at, bs, prev, next)
    requires forall x :: at <= x < at + Span(bs) && x in hs ==> x in hs' && hs'[x] == hs[x]
    ensures Linked(hs', at, bs, prev, next)
    decreases bs
  {
    if bs != [] {
      LinkedFrame(hs, hs', at + HEADER + bs[0].size, bs[1..], at, next);
    }
  }

  lemma LinkedOne(hs: Headers, at: nat, b: Block, prev: nat, next: nat)
    ensures Linked(hs, at, [b], prev, next) <==> at in hs && hs[at] == Header(b.size, b.free, next, prev)
  {
    assert [b][1..] == [];
  }

  /** The three parts around one block. */
  ghost predicate Around(hs: Headers, a: Row, b: Block, c: Row) {
    var at := START + Span(a);
    var after := at + HEADER + b.size;
    && Linked(hs, START, a, NULL, at)
    && at in hs && hs[at] == Header(b.size, b.free, Head(after, c, NULL), LastAt(START, a, NULL))
    && Linked(hs, after, c, at, NULL)
  }

  lemma SplitAround(hs: Headers, a: Row, b: Block, c: Row)
    ensures Linked(hs, START, a + [b] + c, NULL, NULL) <==> Around(hs, a, b, c)
  {
    var at := START + Span(a);
    assert a + [b] + c == a + ([b] + c);
    LinkedJoin(hs, START, a, [b] + c, NULL, NULL);
    LinkedJoin(hs, at, [b], c, LastAt(START, a, NULL), NULL);
    SpanOne(b);
    LinkedOne(hs, at, b, LastAt(START, a, NULL), Head(at + HEADER + b.size, c, NULL));
    LastOne(at, b, LastAt(START, a, NULL));
  }

  lemma LastOne(at: nat, b: Block, prev: nat)
    ensures LastAt(at, [b], prev) == at
  {
    assert [b][1..] == [];
  }

  // ----- relinking -----

  /** Making the row behind a block point back to another header. */
  lemma Repointed(hs: Headers, at: nat, c: Row, prev: nat, prev': nat, next: nat)
    requires Linked(hs, at, c, prev, next) && c != []
    ensures Linked(hs[at := hs[at].(prev := prev')], at, c, prev', next)
  {
    var hs' := hs[at := hs[at].(prev := prev')];
    LinkedFrame(hs, hs', at + HEADER + c[0].size, c[1..], at, next);
  }

  /** The block's header with its next and the back link of what follows. */
  function Relink(hs: Headers, at: nat, h: Header): Headers {
    var hs' := hs[at := h];
    if h.next != NULL && h.next in hs' then hs'[h.next := hs'[h.next].(prev := at)] else hs'
  }

  /** A header written together with the back link behind it carries the row on. */
  lemma Relinked(hs: Headers, a: Row, b: Block, c: Row, prev: nat)
    requires var at := START + Span(a);
             && Linked(hs, START, a, NULL, at) && Linked(hs, at + HEADER + b.size, c, prev, NULL)
    ensures var at := START + Span(a);
            Around(Relink(hs, at, Header(b.size, b.free, Head(at + HEADER + b.size, c, NULL), LastAt(START, a, NULL))),
                   a, b, c)
  {
    var at := START + Span(a);
    var after := at + HEADER + b.size;
    var h := Header(b.size, b.free, Head(after, c, NULL), LastAt(START, a, NULL));
    var hs1 := hs[at := h];
    LinkedFrame(hs, hs1, START, a, NULL, at);
    LinkedFrame(hs, hs1, after, c, prev, NULL);
    if c != [] {
      Repointed(hs1, after, c, prev, at, NULL);
      LinkedFrame(hs1, Relink(hs, at, h), START, a, NULL, at);
    }
  }

  class Heap {
    var headers: Headers
    var first: nat
    var end: nat
    ghost var row: Row

    ghost predicate Valid()
      reads this
    {
      Sound(row, end) && first == START && end <= LIMIT && Linked(headers, START, row, NULL, NULL)
    }

    constructor ()
      ensures Valid() && row == [Block(GROWTH - HEADER, true)] && end == START + GROWTH
    {
      first, end := START, START + GROWTH;
      headers := map[START := Header(GROWTH - HEADER, true, NULL, NULL)];
      row := [Block(GROWTH - HEADER, true)];
      new;
      SpanOne(row[0]);
      LinkedOne(headers, START, row[0], NULL, NULL);
    }

    /** First fit: the lock-held part of an allocation. */
    method TryAllocate(size: nat) returns (ptr: nat, ghost i: nat)
      requires Valid() && size % 16 == 0
      modifies this
      ensures Valid() && end == old(end)
      ensures ptr == NULL <==> i == |old(row)|
      ensures i <= |old(row)| && forall k :: 0 <= k < i ==> !Fits(old(row)[k], size)
      ensures ptr == NULL ==> row == old(row)
      ensures ptr != NULL ==>
                && Fits(old(row)[i], size) && row == old(row)[..i] + Taken(old(row)[i], size) + old(row)[i + 1..]
                && ptr == START + Span(old(row)[..i]) + HEADER && row[i].size >= size
                && Lives(START, row) == Lives(START, old(row)) + {(ptr, row[i].size)}
    {
      hide Linked, Span, Lives, Units, NoFreeNeighbours, Sound;
      var current := first;
      i := 0;
      SpanNone();
      SoundSome(row, end);
      assert row[..0] == [] && row[0..] == row;
      while current != NULL
        invariant Valid() && row == old(row) && headers == old(headers) && end == old(end)
        invariant 0 <= i <= |row| && forall k :: 0 <= k < i ==> !Fits(row[k], size)
        invariant current == Head(START + Span(row[..i]), row[i..], NULL)
        decreases |row| - i
      {
        ghost var a, b, c := row[..i], row[i], row[i + 1..];
        assert row == a + [b] + c;
        SplitAround(headers, a, b, c);
        var h := headers[current];
        if h.free && h.size >= size {
          TakeBlock(current, size, a, b, c);
          assert row[i] == Taken(b, size)[0];
          return current + HEADER, i;
        }
        assert row[..i + 1] == a + [b];
        SpanJoin(a, [b]);
        SpanOne(b);
        current := h.next;
        i := i + 1;
      }
      ptr := NULL;
    }

    /** Merge the block at `at` with the one its header leads to. */
    method AbsorbNext(at: nat, ghost a: Row, ghost b: Block, ghost c: Row)
      requires Around(headers, a, b, c) && at == START + Span(a) && c != []
      modifies this`headers
      ensures Around(headers, a, Block(b.size + HEADER + c[0].size, b.free), c[1..])
    {
      var h := headers[at];
      var n := headers[h.next];
      AbsorbLinked(headers, a, b, c);
      headers := Relink(headers, at, Header(h.size + HEADER + n.size, h.free, n.next, h.prev));
    }

    /** Give a live payload back: its block merges with a free one behind it,
        then with a free one before it. */
    method Free(ptr: nat, ghost size: nat)
      requires Valid() && (ptr == NULL || (ptr, size) in Lives(START, row))
      modifies this`headers, this`row
      ensures Valid() && Lives(START, row) == Lives(START, old(row)) - (if ptr == NULL then {} else {(ptr, size)})
    {
      if ptr != NULL {
        FreeBlock(ptr, size);
      }
    }

    method FreeBlock(ptr: nat, ghost size: nat)
      requires Valid() && (ptr, size) in Lives(START, row)
      modifies this`headers, this`row
      ensures Valid() && Lives(START, row) == Lives(START, old(row)) - {(ptr, size)}
    {
      hide Linked, Span, Lives, Units, NoFreeNeighbours, Sound;
      ghost var a, b, c := FindLive(START, row, ptr, size);
      SplitAround(headers, a, b, c);
      FreeSound(a, b, c, end);
      var block := ptr - HEADER;
      ghost var f, m, c1 := Block(b.size, true), MergedRight(b, c).0, MergedRight(b, c).1;
      MarkLinked(headers, a, b, c);
      headers := headers[block := headers[block].(free := true)];
      var next := headers[block].next;
      NextHeader(headers, a, f, c);
      if next != NULL && headers[next].free {
        AbsorbNext(block, a, f, c);
      }
      var prev := headers[block].prev;
      assert Around(headers, a, m, c1);
      LastHeader(headers, a, m, c1);
      if prev != NULL && headers[prev].free {
        ghost var a1, last := a[..|a| - 1], a[|a| - 1];
        AbsorbNext(prev, a1, last, [m] + c1);
        SplitAround(headers, a1, Block(last.size + HEADER + m.size, true), c1);
        assert ([m] + c1)[1..] == c1;
      } else {
        SplitAround(headers, a, m, c1);
      }
      row := Freed(a, b, c);
    }

    /** Publish mapped pages: they extend a free last block or become a new one. */
    method Commit(pages: nat)
      requires Valid() && end + pages * PAGE <= LIMIT
      modifies this
      ensures Valid() && end == old(end) + pages * PAGE
      ensures row == if pages == 0 then old(row) else Grown(old(row), pages * PAGE)
      ensures Lives(START, row) == Lives(START, old(row))
    {
      if pages != 0 {
        var bytes := pages * PAGE;
        assert bytes >= PAGE && bytes % 16 == 0 by { assert bytes == 16 * (256 * pages); }
        hide Linked, Span, Lives, Sound, Grown;
        GrowSound(row, end, bytes);
        Publish(bytes);
      }
    }

    method Publish(bytes: nat)
      requires Valid() && bytes >= HEADER && bytes % 16 == 0 && end + bytes <= LIMIT
      modifies this
      ensures Valid() && end == old(end) + bytes && row == Grown(old(row), bytes)
    {
      hide Linked, Span, Lives, Units, NoFreeNeighbours;
      var oldEnd := end;
      GrowSound(row, oldEnd, bytes);
      end := end + bytes;
      var last, h := LastBlock();
      ghost var a, b := row[..|row| - 1], row[|row| - 1];
      assert row == a + [b] + [];
      SplitAround(headers, a, b, []);
      Parts(START, a, b, []);
      assert row == a + [b];
      SpanJoin(a, [b]);
      SpanOne(b);
      if h.free {
        headers := headers[last := h.(size := h.size + bytes)];
        ExtendLinked(old(headers), headers, a, b, bytes);
      } else {
        headers := headers[oldEnd := Header(bytes - HEADER, true, NULL, last)];
        headers := headers[last := h.(next := oldEnd)];
        AppendLinked(old(headers), headers, a, b, bytes);
      }
      row := Grown(row, bytes);
    }

    /** Walk to the last block. */
    method LastBlock() returns (last: nat, h: Header)
      requires Sound(row, START + Span(row)) && first == START && Linked(headers, START, row, NULL, NULL)
      ensures last in headers && h == headers[last] && h.next == NULL
      ensures last == START + Span(row[..|row| - 1]) && h.size == row[|row| - 1].size && h.free == row[|row| - 1].free
    {
      hide Linked, Span, Lives, Units, NoFreeNeighbours;
      last := first;
      ghost var i := 0;
      SpanNone();
      assert row[..0] == [];
      assert row == [] + [row[0]] + row[1..];
      SplitAround(headers, [], row[0], row[1..]);
      while headers[last].next != NULL
        invariant 0 <= i < |row| && last == START + Span(row[..i]) && last in headers
        invariant headers[last].size == row[i].size && headers[last].free == row[i].free
        invariant headers[last].next == Head(last + HEADER + row[i].size, row[i + 1..], NULL)
        decreases |row| - i
      {
        last := headers[last].next;
        ghost var a, b := row[..i], row[i];
        assert row[..i + 1] == a + [b];
        SpanJoin(a, [b]);
        SpanOne(b);
        i := i + 1;
        assert row == row[..i] + [row[i]] + row[i + 1..];
        SplitAround(headers, row[..i], row[i], row[i + 1..]);
      }
      h := headers[last];
    }

    /** The size counters: everything, what is in use, what is free. */
    method Sizes() returns (total: nat, used: nat, unused: nat)
      requires Valid()
      ensures total == used + unused && total + HEADER * |row| == end - START
      ensures used == UsedBytes(row)
    {
      total, used, unused := 0, 0, 0;
      var current := first;
      ghost var i := 0;
      assert row[..0] == [] && row[0..] == row;
      while current != NULL
        invariant 0 <= i <= |row| && current == Head(START + Span(row[..i]), row[i..], NULL)
        invariant total == used + unused && total + HEADER * i == Span(row[..i]) && used == UsedBytes(row[..i])
        decreases |row| - i
      {
        ghost var a, b, c := row[..i], row[i], row[i + 1..];
        assert row == a + [b] + c;
        SplitAround(headers, a, b, c);
        var h := headers[current];
        total := total + h.size;
        if h.free { unused := unused + h.size; } else { used := used + h.size; }
        assert row[..i + 1] == a + [b];
        SpanJoin(a, [b]);
        SpanOne(b);
        UsedAppend(a, b);
        current := h.next;
        i := i + 1;
      }
      assert row[..|row|] == row;
    }

    /** Take the block at `current`, splitting it if the rest is worth a block. */
    method TakeBlock(current: nat, size: nat, ghost a: Row, ghost b: Block, ghost c: Row)
      requires Valid() && row == a + [b] + c && current == START + Span(a) && Fits(b, size) && size % 16 == 0
      modifies this`headers, this`row
      ensures Valid() && row == a + Taken(b, size) + c && Taken(b, size)[0].size >= size
      ensures Lives(START, row) == Lives(START, old(row)) + {(current + HEADER, Taken(b, size)[0].size)}
    {
      SplitAround(headers, a, b, c);
      TakeSound(a, b, c, size, end);
      var h := headers[current];
      var remaining := h.size - size;
      if remaining > HEADER + 16 {
        var fresh' := current + HEADER + size;
        headers := Relink(headers, fresh', Header(remaining - HEADER, true, h.next, current));
        headers := headers[current := Header(size, false, fresh', h.prev)];
      } else {
        headers := headers[current := h.(free := false)];
      }
      row := a + Taken(b, size) + c;
      assert Linked(headers, START, row, NULL, NULL) by {
        TakeLinked(old(headers), headers, a, b, c, size);
      }
    }
  }

  lemma TakeLinked(hs: Headers, hs': Headers, a: Row, b: Block, c: Row, size: nat)
    requires Around(hs, a, b, c) && Fits(b, size)
    requires var at := START + Span(a);
             var rest := b.size - size;
             hs' == if rest > HEADER + 16 then
                      var new' := at + HEADER + size;
                      Relink(hs, new', Header(rest - HEADER, true, hs[at].next, at))[at :=
                          Header(size, false, new', hs[at].prev)]
                    else hs[at := hs[at].(free := false)]
    ensures Linked(hs', START, a + Taken(b, size) + c, NULL, NULL)
  {
    if b.size - size > HEADER + 16 {
      SplitLinked(hs, hs', a, b, c, size);
      assert a + [Block(size, false)] + [Block(b.size - size - HEADER, true)] + c == a + Taken(b, size) + c;
    } else {
      var at := START + Span(a);
      hide Linked;
      LinkedFrame(hs, hs', START, a, NULL, at);
      LinkedFrame(hs, hs', at + HEADER + b.size, c, at, NULL);
      SplitAround(hs', a, Block(b.size, false), c);
    }
  }

  lemma SplitLinked(hs: Headers, hs': Headers, a: Row, b: Block, c: Row, size: nat)
    requires Around(hs, a, b, c) && b.size >= size + HEADER
    requires var at := START + Span(a);
             var new' := at + HEADER + size;
             hs' == Relink(hs, new', Header(b.size - size - HEADER, true, hs[at].next, at))[at :=
                 Header(size, false, new', hs[at].prev)]
    ensures Linked(hs', START, a + [Block(size, false)] + [Block(b.size - size - HEADER, true)] + c, NULL, NULL)
  {
    hide Linked, Span;
    var at := START + Span(a);
    var after := at + HEADER + b.size;
    var used, rest, new' := Block(size, false), Block(b.size - size - HEADER, true), at + HEADER + size;
    var hs1 := hs[at := Header(size, false, new', hs[at].prev)];
    AppendUsed(hs, hs1, a, used, new');
    LinkedFrame(hs, hs1, after, c, at, NULL);
    Relinked(hs1, a + [used], rest, c, at);
    assert hs' == Relink(hs1, new', Header(rest.size, true, Head(after, c, NULL), at));
    SplitAround(hs', a + [used], rest, c);
  }

  lemma {:induction false} LastAppend(at: nat, a: Row, b: Block, prev: nat)
    ensures LastAt(at, a + [b], prev) == at + Span(a)
    decreases a
  {
    if a == [] {
      assert a + [b] == [b];
      LastOne(at, b, prev);
    } else {
      assert (a + [b])[1..] == a[1..] + [b];
      LastAppend(at + HEADER + a[0].size, a[1..], b, at);
    }
  }

  lemma AppendUsed(hs: Headers, hs1: Headers, a: Row, used: Block, next: nat)
    requires var at := START + Span(a);
             Linked(hs, START, a, NULL, at)
               && hs1 == hs[at := Header(used.size, used.free, next, LastAt(START, a, NULL))]
    ensures Linked(hs1, START, a + [used], NULL, next) && Span(a + [used]) == Span(a) + HEADER + used.size
    ensures LastAt(START, a + [used], NULL) == START + Span(a)
  {
    var at := START + Span(a);
    LinkedFrame(hs, hs1, START, a, NULL, at);
    LinkedJoin(hs1, START, a, [used], NULL, next);
    LinkedOne(hs1, at, used, LastAt(START, a, NULL), next);
    SpanJoin(a, [used]);
    SpanOne(used);
    LastAppend(START, a, used, NULL);
  }

  lemma AbsorbLinked(hs: Headers, a: Row, b: Block, c: Row)
    requires Around(hs, a, b, c) && c != []
    ensures var at := START + Span(a);
            && hs[at].next in hs
            && var n := hs[hs[at].next];
            && n.size == c[0].size && n.free == c[0].free
            && Around(Relink(hs, at, Header(b.size + HEADER + c[0].size, b.free, n.next, hs[at].prev)), a,
                      Block(b.size + HEADER + c[0].size, b.free), c[1..])
  {
    var at := START + Span(a);
    var after := at + HEADER + b.size;
    Relinked(hs, a, Block(b.size + HEADER + c[0].size, b.free), c[1..], after);
  }

  lemma MarkLinked(hs: Headers, a: Row, b: Block, c: Row)
    requires Around(hs, a, b, c)
    ensures var at := START + Span(a); Around(hs[at := hs[at].(free := true)], a, Block(b.size, true), c)
  {
    var at := START + Span(a);
    var hs' := hs[at := hs[at].(free := true)];
    LinkedFrame(hs, hs', START, a, NULL, at);
    LinkedFrame(hs, hs', at + HEADER + b.size, c, at, NULL);
  }

  /** The back link leads to the last block of the row before, from where the row can be seen the same way. */
  /** The header after a block is that of the first block behind it. */
  lemma NextHeader(hs: Headers, a: Row, b: Block, c: Row)
    requires Around(hs, a, b, c)
    ensures var next := hs[START + Span(a)].next;
            && (next == NULL <==> c == [])
            && (c != [] ==> next in hs && hs[next].free == c[0].free && next == START + Span(a) + HEADER + b.size)
  {
    hide Span, LastAt;
  }

  lemma LastHeader(hs: Headers, a: Row, b: Block, c: Row)
    requires Around(hs, a, b, c)
    ensures var prev := hs[START + Span(a)].prev;
            && (prev == NULL <==> a == [])
            && (a != [] ==>
                  && prev in hs && hs[prev].free == a[|a| - 1].free && prev == START + Span(a[..|a| - 1])
                  && Around(hs, a[..|a| - 1], a[|a| - 1], [b] + c))
  {
    hide Linked, Span, LastAt;
    if a == [] {
      NoLast();
    } else {
      var a1, last := a[..|a| - 1], a[|a| - 1];
      assert a == a1 + [last];
      StepBack(hs, a1, last, b, c);
    }
  }

  lemma NoLast()
    ensures LastAt(START, [], NULL) == NULL
  {
  }

  lemma StepBack(hs: Headers, a: Row, last: Block, b: Block, c: Row)
    requires Around(hs, a + [last], b, c)
    ensures Around(hs, a, last, [b] + c) && hs[START + Span(a + [last])].prev == START + Span(a)
  {
    hide Linked, Span, LastAt;
    LastAppend(START, a, last, NULL);
    SplitAround(hs, a + [last], b, c);
    Regroup(a, last, b, c);
    SplitAround(hs, a, last, [b] + c);
  }

  lemma Regroup(a: Row, last: Block, b: Block, c: Row)
    ensures (a + [last]) + [b] + c == a + [last] + ([b] + c)
  {
  }

  /** The block of a live payload, and the rows around it. */
  lemma {:induction false} FindLive(base: nat, bs: Row, ptr: nat, size: nat) returns (a: Row, b: Block, c: Row)
    requires (ptr, size) in Lives(base, bs)
    ensures bs == a + [b] + c && !b.free && b.size == size && ptr == base + Span(a) + HEADER
    decreases bs
  {
    if !bs[0].free && (ptr, size) == (base + HEADER, bs[0].size) {
      a, b, c := [], bs[0], bs[1..];
    } else {
      var a1;
      a1, b, c := FindLive(base + HEADER + bs[0].size, bs[1..], ptr, size);
      a := [bs[0]] + a1;
      assert a[1..] == a1;
    }
  }

  lemma ExtendLinked(hs: Headers, hs': Headers, a: Row, b: Block, bytes: nat)
    requires Around(hs, a, b, [])
    requires var at := START + Span(a); hs' == hs[at := hs[at].(size := b.size + bytes)]
    ensures Linked(hs', START, a + [Block(b.size + bytes, b.free)], NULL, NULL)
  {
    hide Linked;
    LinkedFrame(hs, hs', START, a, NULL, START + Span(a));
    var m := Block(b.size + bytes, b.free);
    assert Linked(hs', START + Span(a) + HEADER + m.size, [], START + Span(a),
                  NULL) by { LinkedNone(hs', START + Span(a) + HEADER + m.size, START + Span(a), NULL); }
    SplitAround(hs', a, m, []);
    assert a + [m] + [] == a + [m];
  }

  lemma LinkedNone(hs: Headers, at: nat, prev: nat, next: nat)
    ensures Linked(hs, at, [], prev, next)
  {
  }

  lemma AppendLinked(hs: Headers, hs': Headers, a: Row, b: Block, bytes: nat)
    requires Around(hs, a, b, []) && bytes >= HEADER
    requires var at := START + Span(a);
             var new' := at + HEADER + b.size;
             hs' == hs[new' := Header(bytes - HEADER, true, NULL, at)][at := hs[at].(next := new')]
    ensures Linked(hs', START, a + [b] + [Block(bytes - HEADER, true)], NULL, NULL)
  {
    hide Linked, Span;
    var at := START + Span(a);
    var m, new' := Block(bytes - HEADER, true), at + HEADER + b.size;
    var hs1 := hs[at := hs[at].(next := new')];
    AppendUsed(hs, hs1, a, b, new');
    LinkedNone(hs1, new' + HEADER + m.size, at, NULL);
    Relinked(hs1, a + [b], m, [], at);
    assert hs' == Relink(hs1, new', Header(m.size, true, NULL, at));
    SplitAround(hs', a + [b], m, []);
    assert a + [b] + [m] + [] == a + [b] + [m];
  }

  function UsedBytes(bs: Row): nat {
    if bs == [] then 0 else (if bs[0].free then 0 else bs[0].size) + UsedBytes(bs[1..])
  }

  lemma {:induction false} UsedAppend(a: Row, b: Block)
    ensures UsedBytes(a + [b]) == UsedBytes(a) + if b.free then 0 else b.size
  {
    if a == [] {
      assert a + [b] == [b];
      assert [b][1..] == [];
    } else {
      assert (a + [b])[1..] == a[1..] + [b];
      UsedAppend(a[1..], b);
    }
  }
}
