/** The bootstrap page tables: four levels in memory, with 2 MiB and 4 KiB
    leaves, refining a flat map from virtual to physical pages. */
module PageTables {
  import opened Options

  type u64 = x: int | 0 <= x < 0x1_0000_0000_0000_0000

  const PAGE := 4096
  const HUGE := 0x20_0000
  const FRAMES := 0x100_0000_0000      // 2^40 physical pages
  const PAGES := 0x10_0000_0000        // 2^36 virtual pages
  const NX: u64 := 0x8000_0000_0000_0000

  // ----- entries -----

  datatype Flags = Flags(writable: bool, noExecute: bool)

  function Bits(f: Flags): (b: u64) {
    (if f.writable then 2 else 0) + (if f.noExecute then NX else 0)
  }

  predicate Present(e: u64) { e % 2 == 1 }
  predicate Large(e: u64) { e / 128 % 2 == 1 }
  function Frame(e: u64): nat { e / PAGE % FRAMES }

  function Link(frame: nat): (e: u64)
    requires frame < FRAMES
  {
    frame * PAGE + 2 + 1
  }

  function SmallLeaf(frame: nat, f: Flags): (e: u64)
    requires frame < FRAMES
  {
    frame * PAGE + Bits(f) + 1
  }

  function LargeLeaf(frame: nat, f: Flags): (e: u64)
    requires frame < FRAMES
  {
    frame * PAGE + Bits(f) + 128 + 1
  }

  lemma DividePage(q: nat, r: nat)
    requires r < PAGE
    ensures (q * PAGE + r) / PAGE == q && (q * PAGE + r) % PAGE == r
  {
  }

  lemma Divide128(q: nat, r: nat)
    requires r < 128
    ensures (q * 128 + r) / 128 == q
  {
  }

  lemma Parity(q: nat, r: nat)
    ensures (q * 2 + r) % 2 == r % 2
  {
  }

  lemma LowBits(page: nat, low: nat)
    requires low < PAGE
    ensures (page * PAGE + low) / PAGE == page && (page * PAGE + low) % 2 == low % 2
            && (page * PAGE + low) / 128 % 2 == low / 128 % 2
  {
    var a, b := low / 128, low % 128;
    DividePage(page, low);
    Parity(2048 * page, low);
    Divide128(32 * page + a, b);
    Parity(16 * page, a);
    assert page * PAGE + low == (32 * page + a) * 128 + b;
  }

  lemma HighBits(frame: nat, k: nat)
    requires frame < FRAMES
    ensures (frame + k * FRAMES) % FRAMES == frame
  {
    if k > 0 {
      HighBits(frame, k - 1);
      assert frame + k * FRAMES == (frame + (k - 1) * FRAMES) + FRAMES;
    }
  }

  lemma EntryFields(frame: nat, low: nat, high: bool)
    requires frame < FRAMES && low < PAGE
    ensures var e := frame * PAGE + low + (if high then NX else 0);
            Frame(e) == frame && e % 2 == low % 2 && e / 128 % 2 == low / 128 % 2
  {
    var k := if high then 2048 else 0;
    var page := frame + k * FRAMES;
    assert frame * PAGE + low + (if high then NX else 0) == page * PAGE + low;
    LowBits(page, low);
    HighBits(frame, k);
  }

  lemma LinkReads(frame: nat)
    requires frame < FRAMES
    ensures Present(Link(frame)) && !Large(Link(frame)) && Frame(Link(frame)) == frame && !Present(0) && !Large(0)
  {
    EntryFields(frame, 3, false);
  }

  /** Each kind of entry reads back as what it was made from. */
  lemma EntriesRead(frame: nat, f: Flags)
    requires frame < FRAMES
    ensures Present(Link(frame)) && !Large(Link(frame)) && Frame(Link(frame)) == frame
    ensures Present(SmallLeaf(frame, f)) && !Large(SmallLeaf(frame, f)) && Frame(SmallLeaf(frame, f)) == frame
    ensures Present(LargeLeaf(frame, f)) && Large(LargeLeaf(frame, f)) && Frame(LargeLeaf(frame, f)) == frame
  {
    EntryFields(frame, 3, false);
    var low := if f.writable then 3 else 1;
    EntryFields(frame, low, f.noExecute);
    EntryFields(frame, low + 128, f.noExecute);
  }

  // ----- the walk -----

  /** The four table indices of a virtual page. */
  function Index(n: nat, level: nat): (i: nat)
    requires level < 4
    ensures i < 512
  {
    if level == 0 then n / 0x800_0000 % 512 else if level == 1 then n / 0x4_0000 % 512
      else if level == 2 then n / 512 % 512 else n % 512
  }

  type Memory = map<nat, seq<u64>>

  predicate IsTable(mem: Memory, t: nat) {
    t in mem && |mem[t]| == 512
  }

  /** A leaf: its entry, and whether it is one of 2 MiB. */
  datatype Leaf = Leaf(entry: u64, large: bool)

  /** What the walk from a table of the given level finds for page n. */
  function Walk(mem: Memory, t: nat, level: nat, n: nat): Option<Leaf>
    requires level < 4
    decreases 4 - level
  {
    if !IsTable(mem, t) then None
    else
      var e := mem[t][Index(n, level)];
      if !Present(e) then None
      else if level == 3 then Some(Leaf(e, false))
      else if level == 2 && Large(e) then Some(Leaf(e, true))
      else Walk(mem, Frame(e), level + 1, n)
  }

  /** The physical page a leaf gives page n. */
  function Translate(w: Option<Leaf>, n: nat): Option<nat> {
    if w.None? then None
    else if w.value.large then Some(Frame(w.value.entry) / 512 * 512 + n % 512)
    else Some(Frame(w.value.entry))
  }

  /** The entry for page n in its page directory, zero without one. */
  function Pde(mem: Memory, t: nat, level: nat, n: nat): u64
    requires level < 3
    decreases 3 - level
  {
    if !IsTable(mem, t) then 0
    else
      var e := mem[t][Index(n, level)];
      if level == 2 then e
      else if !Present(e) || Large(e) then 0
      else Pde(mem, Frame(e), level + 1, n)
  }

  /** How many tables are missing on the way to the one of level `goal` for page n;
      none behind a 2 MiB leaf. */
  function Missing(mem: Memory, t: nat, level: nat, n: nat, goal: nat): nat
    requires level <= goal <= 3
    decreases goal - level
  {
    if level == goal then 0
    else if !IsTable(mem, t) then goal - level
    else
      var e := mem[t][Index(n, level)];
      if !Present(e) then goal - level
      else if Large(e) then 0
      else Missing(mem, Frame(e), level + 1, n, goal)
  }

  // ----- the shape of the tables -----

  /** Where each table hangs: the indices that lead to it from the root. */
  type Paths = map<nat, seq<nat>>

  /** An entry is empty, a leaf of its level, or a link to the table for its place. */
  ghost predicate EntryOk(mem: Memory, path: Paths, t: nat, i: nat)
    requires t in path && IsTable(mem, t) && i < 512
  {
    var e := mem[t][i];
    && (e == 0 || Present(e))
    && (Present(e) && Large(e) ==> |path[t]| == 2 && Frame(e) % 512 == 0)
    && (Present(e) && !Large(e) && |path[t]| < 3 ==> Frame(e) in path && path[Frame(e)] == path[t] + [i])
  }

  ghost predicate Shape(mem: Memory, path: Paths, root: nat) {
    && root in path && path[root] == []
    && (forall t :: t in path ==> IsTable(mem, t) && |path[t]| <= 3 && t < FRAMES)
    && Apart(path)
    && (forall t, i :: t in path && 0 <= i < 512 ==> EntryOk(mem, path, t, i))
    && (forall t :: t in path && path[t] != [] ==> exists p :: Linked(mem, path, p, t))
  }

  /** No two tables hang in the same place. */
  ghost predicate Apart(path: Paths) {
    forall t, u :: t in path && u in path && path[t] == path[u] ==> t == u
  }

  lemma PathsStayDistinct(path: Paths, q: seq<nat>, child: nat)
    requires Apart(path) && child !in path && forall u :: u in path ==> path[u] != q
    ensures Apart(path[child := q])
  {
  }

  /** Table p holds the link to t. */
  ghost predicate Linked(mem: Memory, path: Paths, p: nat, t: nat)
    requires t in path && path[t] != []
  {
    var q := path[t];
    && p in path && path[p] == q[..|q| - 1] && IsTable(mem, p) && q[|q| - 1] < 512
    && var e := mem[p][q[|q| - 1]];
    && Present(e) && !Large(e) && Frame(e) == t
  }

  /** Page n's indices begin with p. */
  ghost predicate Leads(p: seq<nat>, n: nat) {
    |p| <= 4 && forall k :: 0 <= k < |p| ==> p[k] == Index(n, k)
  }

  /** Changing one entry only changes the pages whose indices lead to it. */
  lemma {:induction false} WalkFrame(mem: Memory, path: Paths, root: nat, mem': Memory, t: nat, i: nat, at: nat, n: nat)
    requires Shape(mem, path, root) && t in path && i < 512
    requires at in path && Leads(path[at], n) && !Leads(path[t] + [i], n)
    requires forall u :: u in mem ==> u in mem' && |mem'[u]| == |mem[u]|
    requires forall u, k :: u in path && 0 <= k < 512 && !(u == t && k == i) ==> mem'[u][k] == mem[u][k]
    ensures Walk(mem', at, |path[at]|, n) == Walk(mem, at, |path[at]|, n)
    decreases 4 - |path[at]|
  {
    hide Index, Frame, Apart, Linked;
    var level := |path[at]|;
    var k := Index(n, level);
    assert at == t ==> k != i;
    assert EntryOk(mem, path, at, k);
    var e := mem[at][k];
    if Present(e) && level < 3 && !Large(e) {
      WalkFrame(mem, path, root, mem', t, i, Frame(e), n);
    }
  }

  /** The walk for a page arrives at every table its indices lead to. */
  lemma {:induction false} Arrives(mem: Memory, path: Paths, root: nat, t: nat, n: nat)
    requires Shape(mem, path, root) && t in path && Leads(path[t], n)
    ensures Walk(mem, root, 0, n) == Walk(mem, t, |path[t]|, n)
    decreases |path[t]|
  {
    if path[t] != [] {
      var p :| Linked(mem, path, p, t);
      assert Leads(path[p], n);
      Arrives(mem, path, root, p, n);
    }
  }

  lemma Digits(n: nat)
    ensures n == n / 512 * 512 + Index(n, 3)
    ensures n / 512 == n / 0x4_0000 * 512 + Index(n, 2)
    ensures n / 0x4_0000 == n / 0x800_0000 * 512 + Index(n, 1)
    ensures n < PAGES ==> n / 0x800_0000 == Index(n, 0)
  {
    assert n / 0x4_0000 == n / 512 / 512;
    assert n / 0x800_0000 == n / 0x4_0000 / 512;
  }

  lemma SamePage(n: nat, page: nat)
    requires n < PAGES && page < PAGES
    requires Index(n, 0) == Index(page, 0) && Index(n, 1) == Index(page, 1) && Index(n, 2) == Index(page, 2)
    ensures n / 512 == page / 512
    ensures Index(n, 3) == Index(page, 3) ==> n == page
  {
    Digits(n);
    Digits(page);
    hide Index;
  }

  // ----- the three writes -----

  function WithEntry(mem: Memory, t: nat, i: nat, e: u64): (r: Memory)
    requires IsTable(mem, t) && i < 512
    ensures r.Keys == mem.Keys
  {
    var row: seq<u64> := mem[t][i := e];
    mem[t := row]
  }

  lemma WriteFrame(mem: Memory, path: Paths, root: nat, t: nat, i: nat, e: u64, n: nat)
    requires Shape(mem, path, root) && t in path && i < 512 && |path[t]| <= 3 && !Leads(path[t] + [i], n)
    ensures Walk(WithEntry(mem, t, i, e), root, 0, n) == Walk(mem, root, 0, n)
  {
    WalkFrame(mem, path, root, WithEntry(mem, t, i, e), t, i, root, n);
  }

  /** A leaf may replace an empty entry or another leaf of its level. */
  lemma LeafShape(mem: Memory, path: Paths, root: nat, t: nat, i: nat, e: u64)
    requires Shape(mem, path, root) && t in path && i < 512 && Present(e)
    requires if Large(e) then |path[t]| == 2 && Frame(e) % 512 == 0 && (mem[t][i] == 0 || mem[t][i] == e)
             else |path[t]| == 3
    ensures Shape(WithEntry(mem, t, i, e), path, root)
  {
    var mem' := WithEntry(mem, t, i, e);
    LinkOldEntry(mem, path, root, t, i);
    hide Large, Present, Frame, Apart, EntryOk, Linked;
    forall u, k | u in path && 0 <= k < 512 ensures IsTable(mem', u) && EntryOk(mem', path, u, k) {
      LinkOldEntry(mem, path, root, u, k);
      LeafEntry(mem, path, t, i, e, u, k);
    }
    forall u | u in path && path[u] != [] ensures exists p :: Linked(mem', path, p, u) {
      LeafLinked(mem, path, root, t, i, e, u);
    }
  }

  lemma LeafEntry(mem: Memory, path: Paths, t: nat, i: nat, e: u64, u: nat, k: nat)
    requires t in path && i < 512 && Present(e) && IsTable(mem, t) && u in path && k < 512 && IsTable(mem, u)
             && EntryOk(mem, path, u, k)
    requires if Large(e) then |path[t]| == 2 && Frame(e) % 512 == 0 else |path[t]| == 3
    ensures EntryOk(WithEntry(mem, t, i, e), path, u, k)
  {
    hide Large, Present, Frame;
  }

  lemma LeafLinked(mem: Memory, path: Paths, root: nat, t: nat, i: nat, e: u64, u: nat)
    requires Shape(mem, path, root) && t in path && i < 512 && u in path && path[u] != [] && IsTable(mem, t)
    requires if |path[t]| == 2 then mem[t][i] == 0 || mem[t][i] == e else |path[t]| == 3
    ensures exists p :: Linked(WithEntry(mem, t, i, e), path, p, u)
  {
    var p := ParentOf(mem, path, root, u);
    hide Large, Frame, Shape;
    assert Linked(WithEntry(mem, t, i, e), path, p, u);
  }

  /** A 4 KiB leaf maps exactly one page. */
  lemma SmallWrite(mem: Memory, path: Paths, root: nat, t: nat, page: nat, e: u64, n: nat)
    requires Shape(mem, path, root) && t in path && |path[t]| == 3 && Leads(path[t], page) && page < PAGES && n < PAGES
    requires Present(e) && !Large(e)
    ensures Walk(WithEntry(mem, t, Index(page, 3), e), root, 0, n) == if n == page then Some(Leaf(e, false))
            else Walk(mem, root, 0, n)
  {
    var i := Index(page, 3);
    var mem' := WithEntry(mem, t, i, e);
    if n == page {
      LeafShape(mem, path, root, t, i, e);
      Arrives(mem', path, root, t, n);
    } else {
      var q := path[t] + [i];
      if Leads(q, n) {
        assert q[0] == Index(n, 0) && q[1] == Index(n, 1) && q[2] == Index(n, 2) && q[3] == Index(n, 3);
        SamePage(n, page);
      }
      WriteFrame(mem, path, root, t, i, e, n);
    }
  }

  /** A 2 MiB leaf maps exactly the 512 pages of its unit. */
  lemma LargeWrite(mem: Memory, path: Paths, root: nat, t: nat, page: nat, e: u64, n: nat)
    requires Shape(mem, path, root) && t in path && |path[t]| == 2 && Leads(path[t], page) && page < PAGES && n < PAGES
    requires Present(e) && Large(e) && Frame(e) % 512 == 0
             && (mem[t][Index(page, 2)] == 0 || mem[t][Index(page, 2)] == e)
    ensures Walk(WithEntry(mem, t, Index(page, 2), e), root, 0, n)
            == if n / 512 == page / 512 then Some(Leaf(e, true)) else Walk(mem, root, 0, n)
  {
    var i := Index(page, 2);
    var mem' := WithEntry(mem, t, i, e);
    var q := path[t] + [i];
    if n / 512 == page / 512 {
      SameUnit(n, page);
      assert Leads(path[t], n);
      LeafShape(mem, path, root, t, i, e);
      Arrives(mem', path, root, t, n);
    } else {
      if Leads(q, n) {
        assert q[0] == Index(n, 0) && q[1] == Index(n, 1) && q[2] == Index(n, 2);
        SamePage(n, page);
      }
      WriteFrame(mem, path, root, t, i, e, n);
    }
  }

  lemma SameUnit(n: nat, page: nat)
    requires n / 512 == page / 512
    ensures Index(n, 0) == Index(page, 0) && Index(n, 1) == Index(page, 1) && Index(n, 2) == Index(page, 2)
  {
    assert n / 0x4_0000 == n / 512 / 512 && page / 0x4_0000 == page / 512 / 512;
    assert n / 0x800_0000 == n / 512 / 0x4_0000 && page / 0x800_0000 == page / 512 / 0x4_0000;
  }

  function EmptyTable(): (s: seq<u64>)
    ensures |s| == 512 && forall i :: 0 <= i < 512 ==> s[i] == 0
  {
    seq(512, i => 0)
  }

  lemma PathUnused(mem: Memory, path: Paths, root: nat, t: nat, i: nat)
    requires Shape(mem, path, root) && t in path && i < 512 && mem[t][i] == 0
    ensures forall u :: u in path ==> path[u] != path[t] + [i]
  {
    var q := path[t] + [i];
    assert q[..|q| - 1] == path[t];
    forall u | u in path ensures path[u] != q {
      if path[u] != [] {
        var p :| Linked(mem, path, p, u);
        assert path[p] == path[t] ==> p == t;
      }
    }
  }

  /** A fresh, empty table takes the place of an empty entry. */
  ghost predicate NewLink(mem: Memory, path: Paths, root: nat, t: nat, i: nat, child: nat, mem': Memory, path': Paths) {
    && Shape(mem, path, root) && t in path && i < 512 && |path[t]| < 3 && mem[t][i] == 0
    && child < FRAMES && child !in mem && child !in path
    && mem' == WithEntry(mem[child := EmptyTable()], t, i, Link(child)) && path' == path[child := path[t] + [i]]
  }

  /** The entries after the link. */
  lemma LinkEntryAt(mem: Memory, path: Paths, root: nat, t: nat, i: nat, child: nat, mem': Memory, path': Paths,
                    u: nat, k: nat)
    requires NewLink(mem, path, root, t, i, child, mem', path') && u in path' && k < 512
    ensures IsTable(mem', u) && (u != child ==> u in path && path'[u] == path[u] && IsTable(mem, u))
    ensures mem'[u][k] == if u == child then 0 else if u == t && k == i then Link(child) else mem[u][k]
    ensures child in path' && path'[child] == path[t] + [i] && forall x :: x in path ==>
            x in path' && path'[x] == path[x]
  {
    hide EntryOk, Linked, Apart, Link;
  }

  lemma LinkEntries(mem: Memory, path: Paths, root: nat, t: nat, i: nat, child: nat, mem': Memory, path': Paths,
                    u: nat, k: nat)
    requires NewLink(mem, path, root, t, i, child, mem', path') && u in path' && k < 512
    ensures IsTable(mem', u) && EntryOk(mem', path', u, k)
  {
    LinkReads(child);
    LinkEntryAt(mem, path, root, t, i, child, mem', path', u, k);
    if u != child {
      LinkOldEntry(mem, path, root, u, k);
    }
    hide NewLink, Shape, Link, Frame, Present, Large, WithEntry;
    NewLinkLevel(mem, path, root, t, i, child, mem', path');
  }

  lemma NewLinkLevel(mem: Memory, path: Paths, root: nat, t: nat, i: nat, child: nat, mem': Memory, path': Paths)
    requires NewLink(mem, path, root, t, i, child, mem', path')
    ensures t in path && |path[t]| < 3
  {
  }

  lemma LinkOldEntry(mem: Memory, path: Paths, root: nat, u: nat, k: nat)
    requires Shape(mem, path, root) && u in path && k < 512
    ensures IsTable(mem, u) && EntryOk(mem, path, u, k)
  {
    hide EntryOk, Linked, Apart;
  }

  lemma LinkLinked(mem: Memory, path: Paths, root: nat, t: nat, i: nat, child: nat, mem': Memory, path': Paths, u: nat)
    returns (p: nat)
    requires NewLink(mem, path, root, t, i, child, mem', path') && u in path' && path'[u] != []
    ensures Linked(mem', path', p, u)
  {
    LinkReads(child);
    hide Link, Frame, Present, Large, Shape, WithEntry, EmptyTable;
    if u == child {
      LinkEntryAt(mem, path, root, t, i, child, mem', path', t, i);
      assert path'[u][..|path'[u]| - 1] == path[t];
      p := t;
    } else {
      p := ParentOf(mem, path, root, u);
      LinkEntryAt(mem, path, root, t, i, child, mem', path', p, path[u][|path[u]| - 1]);
    }
  }

  lemma ParentOf(mem: Memory, path: Paths, root: nat, u: nat) returns (p: nat)
    requires Shape(mem, path, root) && u in path && path[u] != []
    ensures Linked(mem, path, p, u)
  {
    hide EntryOk, Apart, Linked;
    p :| Linked(mem, path, p, u);
  }

  /** What the entry for a child table can be. */
  lemma ChildEntry(mem: Memory, path: Paths, root: nat, t: nat, i: nat)
    requires Shape(mem, path, root) && t in path && |path[t]| < 3 && i < 512
    ensures t in mem && |mem[t]| == 512 && EntryAt(mem, t, i) == mem[t][i]
    ensures var e := mem[t][i];
            && (!Present(e) ==> e == 0)
            && (Present(e) && !Large(e) ==> Frame(e) in path && path[Frame(e)] == path[t] + [i])
  {
    assert EntryOk(mem, path, t, i);
  }

  /** Linking a table not used so far. */
  lemma NewChild(mem: Memory, path: Paths, root: nat, t: nat, i: nat, child: nat)
    requires Shape(mem, path, root) && t in path && |path[t]| < 3 && i < 512 && t in mem && |mem[t]| == 512
    requires mem[t][i] == 0 && child < FRAMES && child !in mem && child !in path
    ensures IsTable(mem[child := EmptyTable()], t)
    ensures var mem' := WithEntry(mem[child := EmptyTable()], t, i, Link(child));
            && NewLink(mem, path, root, t, i, child, mem', path[child := path[t] + [i]])
            && mem'.Keys == mem.Keys + {child} && IsTable(mem', child) && mem'[child] == EmptyTable()
  {
    hide Shape, Link, EmptyTable;
  }

  lemma LinkTables(mem: Memory, path: Paths, root: nat, t: nat, i: nat, child: nat, mem': Memory, path': Paths)
    requires NewLink(mem, path, root, t, i, child, mem', path')
    ensures root in path' && path'[root] == []
    ensures forall u :: u in path' ==> IsTable(mem', u) && |path'[u]| <= 3 && u < FRAMES
  {
    hide Link, EntryOk, Linked;
  }

  lemma LinkShape(mem: Memory, path: Paths, root: nat, t: nat, i: nat, child: nat, mem': Memory, path': Paths)
    requires NewLink(mem, path, root, t, i, child, mem', path')
    ensures Shape(mem', path', root)
  {
    PathUnused(mem, path, root, t, i);
    PathsStayDistinct(path, path[t] + [i], child);
    LinkTables(mem, path, root, t, i, child, mem', path');
    hide Link, EmptyTable, EntryOk, Linked, Apart, IsTable, WithEntry;
    forall u, k | u in path' && 0 <= k < 512 ensures EntryOk(mem', path', u, k) {
      LinkEntries(mem, path, root, t, i, child, mem', path', u, k);
    }
    forall u | u in path' && path'[u] != [] ensures exists p :: Linked(mem', path', p, u) {
      var p := LinkLinked(mem, path, root, t, i, child, mem', path', u);
    }
  }

  lemma LeadsPrefix(p: seq<nat>, i: nat, n: nat)
    requires Leads(p + [i], n)
    ensures Leads(p, n) && |p| < 4 && i == Index(n, |p|)
  {
    hide Index;
    var q := p + [i];
    assert q[|p|] == i;
    forall k | 0 <= k < |p| ensures p[k] == Index(n, k) {
      assert q[k] == p[k];
    }
  }

  /** An empty entry maps nothing. */
  lemma NothingThere(mem: Memory, t: nat, level: nat, n: nat)
    requires level < 4 && IsTable(mem, t) && mem[t][Index(n, level)] == 0
    ensures Walk(mem, t, level, n) == None
  {
    hide Index;
  }

  lemma LinkFrame(mem: Memory, path: Paths, root: nat, t: nat, i: nat, child: nat, mem': Memory, path': Paths)
    requires NewLink(mem, path, root, t, i, child, mem', path')
    ensures root in path && path[root] == [] && t in path && i < 512
    ensures forall u :: u in mem ==> u in mem' && |mem'[u]| == |mem[u]|
    ensures forall u, k :: u in path && 0 <= k < 512 && !(u == t && k == i) ==>
            u in mem && u in mem' && |mem[u]| == 512 && mem'[u][k] == mem[u][k]
  {
    hide EntryOk, Linked, Apart, Link;
  }

  lemma LinkWalks(mem: Memory, path: Paths, root: nat, t: nat, i: nat, child: nat, mem': Memory, path': Paths)
    requires NewLink(mem, path, root, t, i, child, mem', path') && Shape(mem', path', root)
    ensures forall n: nat :: Walk(mem', root, 0, n) == Walk(mem, root, 0, n)
  {
    hide NewLink, Shape, Walk;
    forall n: nat ensures Walk(mem', root, 0, n) == Walk(mem, root, 0, n) {
      LinkWalk(mem, path, root, t, i, child, mem', path', n);
    }
  }

  /** Linking an empty table into an empty entry changes no translation. */
  lemma LinkWalk(mem: Memory, path: Paths, root: nat, t: nat, i: nat, child: nat, mem': Memory, path': Paths, n: nat)
    requires NewLink(mem, path, root, t, i, child, mem', path') && Shape(mem', path', root)
    ensures Walk(mem', root, 0, n) == Walk(mem, root, 0, n)
  {
    hide Index, Shape, Link, Frame, Large, EntryOk, Linked;
    NewLinkLevel(mem, path, root, t, i, child, mem', path');
    if Leads(path[t] + [i], n) {
      LeadsPrefix(path[t], i, n);
      Tabled(mem, path, root, t);
      Arrives(mem, path, root, t, n);
      Arrives(mem', path', root, child, n);
      NothingThere(mem, t, |path[t]|, n);
      NothingThere(mem', child, |path[t]| + 1, n);
    } else {
      LinkFrame(mem, path, root, t, i, child, mem', path');
      WalkFrame(mem, path, root, mem', t, i, root, n);
    }
  }

  // ----- what a call changes -----

  /** The comparison for a 2 MiB leaf that is there; bits above the frame take part,
      so a leaf with its no-execute bit set never passes. */
  predicate Agrees(e: u64, virt: u64, phys: u64) {
    e / HUGE * HUGE + virt % HUGE == phys
  }

  /** A 2 MiB leaf that does not pass. */
  predicate Refuses(w: Option<Leaf>, virt: u64, phys: u64) {
    w.Some? && w.value.large && !Agrees(w.value.entry, virt, phys)
  }

  /** Page n has a leaf for the physical page: one with the flags asked for, or the
      2 MiB leaf that was there. */
  ghost predicate Mapped(was: Option<Leaf>, now: Option<Leaf>, n: nat, frame: nat, f: Flags) {
    && frame < FRAMES && Translate(now, n) == Some(frame)
    && (now == Some(Leaf(SmallLeaf(frame, f), false)) || now == Some(Leaf(LargeLeaf(frame / 512 * 512, f), true))
        || (now == was && now.Some? && now.value.large))
  }

  /** mem' maps `count` pages from `page` to the frames from `frame`, and every other page as mem does. */
  ghost predicate Remapped(mem: Memory, mem': Memory, root: nat, page: nat, frame: nat, count: nat, f: Flags) {
    forall n: nat :: n < PAGES ==>
      if page <= n < page + count then Mapped(Walk(mem, root, 0, n), Walk(mem', root, 0, n), n, frame + (n - page), f)
      else Walk(mem', root, 0, n) == Walk(mem, root, 0, n)
  }

  function EntryAt(mem: Memory, t: nat, i: nat): u64 {
    if IsTable(mem, t) && i < 512 then mem[t][i] else 0
  }

  // ----- the code -----

  datatype Status = Success | Unsupported | OutOfResources

  class Tables {
    const root: nat
    var mem: Memory
    var supply: seq<nat>
    ghost var path: Paths

    /** The tables have their shape, and the pages still to be handed out are unused. */
    ghost predicate Valid()
      reads this
    {
      && Shape(mem, path, root)
      && (forall i :: 0 <= i < |supply| ==> supply[i] < FRAMES && supply[i] !in mem && supply[i] !in path)
      && (forall i, j :: 0 <= i < j < |supply| ==> supply[i] != supply[j])
    }

    /** The flat map the tables stand for. */
    ghost function Maps(n: nat): Option<nat>
      reads this
    {
      Translate(Walk(mem, root, 0, n), n)
    }

    ghost predicate Unchanged(before: Memory)
      reads this
    {
      forall n: nat :: Walk(mem, root, 0, n) == Walk(before, root, 0, n)
    }

    constructor (frame: nat, pages: seq<nat>)
      requires frame < FRAMES && forall i :: 0 <= i < |pages| ==> pages[i] < FRAMES && pages[i] != frame
      requires forall i, j :: 0 <= i < j < |pages| ==> pages[i] != pages[j]
      ensures root == frame && Valid() && forall n: nat :: Maps(n) == None
    {
      root := frame;
      supply := pages;
      mem := map[frame := EmptyTable()];
      path := map[frame := []];
    }

    /** The table behind an entry, created if the entry is empty. */
    method ChildTable(parent: nat, index: nat) returns (status: Status, child: nat)
      requires Valid() && parent in path && |path[parent]| < 3 && index < 512
      modifies this
      ensures Valid() && Unchanged(old(mem))
      ensures forall t :: t in old(path) ==> t in path && path[t] == old(path)[t]
      ensures status == Success ==> child in path && path[child] == path[parent] + [index]
      ensures var e := EntryAt(old(mem), parent, index);
              && (status == Unsupported <==> Present(e) && Large(e))
              && (status == OutOfResources <==> !Present(e) && old(supply) == [])
              && (if Present(e) then mem == old(mem) && supply == old(supply)
                  && (status == Success ==> child == Frame(e))
                  else if old(supply) == [] then supply == [] && mem == old(mem)
                  else supply == old(supply)[1..] && IsTable(mem, child) && mem[child] == EmptyTable())
      ensures status == Success ==> Opened(old(mem), mem, root, old(path)[parent] + [index])
    {
      hide Missing, Opened, Shape, Walk, Present, Large, Frame, Link, EmptyTable, WithEntry, IsTable, NewLink;
      ChildEntry(mem, path, root, parent, index);
      var e := mem[parent][index];
      child := 0;
      if Present(e) {
        if Large(e) {
          return Unsupported, child;
        }
        OpenAlready(mem, path, root, Frame(e));
        return Success, Frame(e);
      }
      if supply == [] {
        return OutOfResources, child;
      }
      child, supply := supply[0], supply[1..];
      ghost var mem0, path0 := mem, path;
      NewChild(mem, path, root, parent, index, child);
      mem := mem[child := EmptyTable()];
      mem := WithEntry(mem, parent, index, Link(child));
      path := path[child := path[parent] + [index]];
      LinkShape(mem0, path0, root, parent, index, child, mem, path);
      LinkWalks(mem0, path0, root, parent, index, child, mem, path);
      LinkOpens(mem0, path0, root, parent, index, child, mem, path);
      status := Success;
    }

    /** The page directory for an address. */
    method Directory(virt: u64) returns (status: Status, pd: nat)
      requires Valid()
      modifies this
      ensures Valid() && Unchanged(old(mem))
      ensures status == Success ==> pd in path && path[pd] == [Index(PageOf(virt), 0), Index(PageOf(virt), 1)]
      ensures status != Unsupported
      ensures status == OutOfResources ==> supply == [] && Missing(mem, root, 0, PageOf(virt), 2) > 0
      ensures var missing := Missing(old(mem), root, 0, PageOf(virt), 2);
              && (status == OutOfResources <==> missing > |old(supply)|)
              && (status == Success ==> |supply| == |old(supply)| - missing)
              && (missing == 0 ==> mem == old(mem) && supply == old(supply))
      ensures status == Success ==> Reached(old(mem), mem, root, PageOf(virt), 2)
      ensures status == Success ==> EntryAt(mem, pd, Index(PageOf(virt), 2)) == Pde(old(mem), root, 0, PageOf(virt))
    {
      hide Index, PageOf, Walk, Shape, Missing, Pde, EntryAt, EmptyTable, Present, Large, IsTable, Frame, Opened,
        Reached;
      ghost var n := PageOf(virt);
      Indices(virt);
      RootPlace(mem, path, root);
      DirectoryMissing(mem, path, root, n);
      pd := 0;
      var pdpt: nat;
      status, pdpt := ChildTable(root, virt / 0x80_0000_0000 % 512);
      if status == Success {
        ghost var mem1 := mem;
        NewTable(mem, pdpt, Index(n, 1));
        StillMissing(mem, path, root, pdpt, n);
        status, pd := ChildTable(pdpt, virt / 0x4000_0000 % 512);
        NewTable(mem, pd, Index(n, 2));
        if status == Success {
          ReachTwo(old(mem), mem1, mem, root, n);
        }
      }
    }

    /** Afterwards the `count` pages from virt on map to those from phys on, and
        every other page maps as before. */
    ghost predicate MapsAlso(before: Memory, virt: u64, phys: u64, count: nat, f: Flags)
      reads this
    {
      Remapped(before, mem, root, PageOf(virt), phys / PAGE, count, f)
    }

    /** Map one 4 KiB page. A 2 MiB leaf already there is kept if it passes the comparison. */
    method MapPage(virt: u64, phys: u64, f: Flags) returns (status: Status)
      requires Valid() && virt % PAGE == 0 && phys % PAGE == 0 && phys / PAGE < FRAMES
      modifies this
      ensures Valid()
      ensures if status == Success then MapsAlso(old(mem), virt, phys, 1, f) else Unchanged(old(mem))
      ensures status == Unsupported <==> Refuses(Walk(old(mem), root, 0, PageOf(virt)), virt, phys)
      ensures status == OutOfResources <==> Missing(old(mem), root, 0, PageOf(virt), 3) > |old(supply)|
      ensures status == OutOfResources ==> supply == []
      ensures status == Success ==>
                && |supply| == |old(supply)| - Missing(old(mem), root, 0, PageOf(virt), 3)
                && Reached(old(mem), mem, root, PageOf(virt), 3)
    {
      hide Index, PageOf, Walk, Shape, Large, Frame, SmallLeaf, Missing, Pde, Present, Agrees, Remapped, IsTable,
        EmptyTable, WithEntry, Opened, Reached;
      var pd: nat, pt: nat;
      MissingThree(mem, path, root, PageOf(virt));
      PdeWalk(mem, path, root, PageOf(virt));
      status, pd := Directory(virt);
      if status != Success { return; }
      var i := virt / HUGE % 512;
      Indices(virt);
      Tabled(mem, path, root, pd);
      ghost var mem1 := mem;
      if Large(EntryAt(mem, pd, i)) {
        if Agrees(EntryAt(mem, pd, i), virt, phys) {
          KeptRemaps(old(mem), mem, root, virt, phys, f);
          LeafOpen(mem, path, root, pd, i);
          ReachThree(old(mem), mem, mem, root, PageOf(virt));
          return Success;
        }
        return Unsupported;
      }
      status, pt := ChildTable(pd, i);
      if status != Success { return; }
      Tabled(mem, path, root, pt);
      ReachThree(old(mem), mem1, mem, root, PageOf(virt));
      var e := SmallLeaf(phys / PAGE % FRAMES, f);
      SmallNews(old(mem), mem, path, root, pt, virt / PAGE % 512, e, PageOf(virt));
      SmallMapped(mem, path, root, pt, virt, phys, f);
      RemapAfter(old(mem), mem, WithEntry(mem, pt, virt / PAGE % 512, e), root, PageOf(virt), phys / PAGE, 1, f);
      mem := WithEntry(mem, pt, virt / PAGE % 512, e);
    }

    /** Map 2 MiB at once, unless something else is there. */
    method MapHuge(virt: u64, phys: u64, f: Flags) returns (status: Status)
      requires Valid() && virt % HUGE == 0 && phys % HUGE == 0 && phys / PAGE < FRAMES
      modifies this
      ensures Valid()
      ensures if status == Success then MapsAlso(old(mem), virt, phys, 512, f) else Unchanged(old(mem))
      ensures var e, pde := LargeLeaf(phys / HUGE * 512, f), Pde(old(mem), root, 0, PageOf(virt));
              && (status == Unsupported <==> pde != 0 && pde != e)
              && (status == OutOfResources <==> Missing(old(mem), root, 0, PageOf(virt), 2) > |old(supply)|)
      ensures status == Success ==>
                && |supply| == |old(supply)| - Missing(old(mem), root, 0, PageOf(virt), 2)
                && Reached(old(mem), mem, root, PageOf(virt), 3)
      ensures status == Unsupported ==> mem == old(mem) && supply == old(supply)
      ensures status == OutOfResources ==> supply == [] && Missing(mem, root, 0, PageOf(virt), 2) > 0
    {
      hide Index, PageOf, Walk, Shape, Large, Frame, LargeLeaf, Missing, Pde, Present, Remapped, IsTable, EmptyTable,
        WithEntry, Opened, Reached;
      var pd: nat;
      MissingThree(mem, path, root, PageOf(virt));
      status, pd := Directory(virt);
      if status != Success { return; }
      var i := virt / HUGE % 512;
      Indices(virt);
      Tabled(mem, path, root, pd);
      var e := LargeLeaf(phys / HUGE * 512, f);
      if EntryAt(mem, pd, i) != 0 && EntryAt(mem, pd, i) != e {
        return Unsupported;
      }
      LargeMapped(mem, path, root, pd, virt, phys, f);
      LargeOpens(mem, path, root, pd, virt, phys, f);
      ReachThree(old(mem), mem, WithEntry(mem, pd, i, e), root, PageOf(virt));
      RemapAfter(old(mem), mem, WithEntry(mem, pd, i, e), root, PageOf(virt), phys / PAGE, 512, f);
      mem := WithEntry(mem, pd, i, e);
    }

    /** What stopped a range after `done` pages. */
    ghost predicate StoppedAt(before: Memory, virt: u64, phys: u64, size: u64, f: Flags, done: nat, status: Status)
      reads this
    {
      && MapsAlso(before, virt, phys, done, f) && Clear(before, root, virt, phys, size, f, done)
      && if status == OutOfResources then supply == [] else Blocked(before, root, virt, phys, size, f, done)
    }

    /** The next 2 MiB or, where that is not possible, the next page. */
    method MapNext(virt: u64, phys: u64, left: nat, f: Flags) returns (status: Status, pages: nat)
      requires Valid() && virt % PAGE == 0 && phys % PAGE == 0 && phys / PAGE < FRAMES
      modifies this
      ensures Valid() && (pages == 1 || (pages == 512 && AtUnit(virt, phys, left)))
      ensures if status == Success then MapsAlso(old(mem), virt, phys, pages, f) else Unchanged(old(mem))
      ensures status == OutOfResources ==> supply == []
      ensures var needed := StepCost(old(mem), root, PageOf(virt), AtUnit(virt, phys, left));
              && (status == OutOfResources <==> needed > |old(supply)|)
              && (status == Success ==>
                    |supply| == |old(supply)| - needed && Reached(old(mem), mem, root, PageOf(virt), 3))
      ensures status == Unsupported ==> pages == 1
      ensures pages == 1 && status != OutOfResources ==>
                && (status == Unsupported <==> Refuses(Walk(old(mem), root, 0, PageOf(virt)), virt, phys))
                && (AtUnit(virt, phys, left) ==> !HasUnit(old(mem), root, PageOf(virt), phys, f))
      ensures pages == 512 ==>
                forall n: nat :: n < PAGES && n / 512 == PageOf(virt) / 512 && Walk(old(mem), root, 0, n).Some? ==>
                                   HasUnit(old(mem), root, n, phys, f)
    {
      hide Index, PageOf, Walk, Shape, Frame, LargeLeaf, Missing, Pde, Remapped, Refuses, Present, Large, Reached, New;
      pages := 1;
      ghost var mem0, path0 := mem, path;
      UnitPdes(mem0, path0, root, PageOf(virt));
      StepCostIs(mem0, path0, root, PageOf(virt));
      if virt % HUGE == 0 && phys % HUGE == 0 && left >= HUGE {
        UnitStart(virt, phys);
        EntriesRead(phys / HUGE * 512, f);
        status := MapHuge(virt, phys, f);
        if status == Success {
          pages := 512;
          return;
        }
        MissingThree(mem0, path0, root, PageOf(virt));
        MissingThree(mem, path, root, PageOf(virt));
      }
      ghost var between := mem;
      status := MapPage(virt, phys, f);
      if status == Success {
        RemapAfter(mem0, between, mem, root, PageOf(virt), phys / PAGE, 1, f);
      }
    }

    /** Map a range with 2 MiB leaves where both addresses allow it and 4 KiB
        leaves elsewhere. If it stops early, the pages before that point are
        mapped and every other page is as it was; it stops at the first blocked
        page, or before it where the tables needed so far are more than the pages
        there are for them. */
    method MapRange(virt: u64, phys: u64, size: u64, f: Flags) returns (status: Status)
      requires Valid() && virt % PAGE == 0 && phys % PAGE == 0
      requires PageOf(virt) + PageCount(size) <= PAGES && phys / PAGE + PageCount(size) <= FRAMES
      modifies this
      ensures Valid()
      ensures status == Success ==>
                MapsAlso(old(mem), virt, phys, PageCount(size), f)
                  && Clear(old(mem), root, virt, phys, size, f, PageCount(size))
      ensures status != Success ==>
                exists done: nat :: done < PageCount(size) && StoppedAt(old(mem), virt, phys, size, f, done, status)
      ensures status != OutOfResources ==>
                (status == Unsupported <==>
                       exists k: nat :: k < PageCount(size) && Blocked(old(mem), root, virt, phys, size, f, k))
      ensures status == Success <==>
                && Clear(old(mem), root, virt, phys, size, f, PageCount(size))
                && Needed(old(mem), root, virt, phys, size, PageCount(size)) <= |old(supply)|
      ensures status == OutOfResources <==> RunsShort(old(mem), root, virt, phys, size, f, |old(supply)|)
    {
      hide Index, PageOf, Walk, Shape, Remapped, Clear, Blocked, Tried, PageCount, Progress, Reached, Cost, StepCost,
        RunsShort, Needed;
      var v: nat, p: nat, end: nat := virt, phys, phys + size;
      ghost var done: nat := 0;
      RemapNone(mem, root, PageOf(virt), phys / PAGE, f);
      NoneYet(mem, root, virt, phys, size, f);
      NoProgress(mem, root, virt, phys, size);
      while p < end
        invariant Valid() && v == virt + PAGE * done && p == phys + PAGE * done && done <= PageCount(size)
        invariant MapsAlso(old(mem), virt, phys, done, f)
        invariant Clear(old(mem), root, virt, phys, size, f, done) && Tried(old(mem), root, virt, phys, size, f, done)
        invariant Progress(old(mem), mem, root, PageOf(virt), done)
        invariant |supply| == |old(supply)| - Needed(old(mem), root, virt, phys, size, done)
        decreases end - p
      {
        InRange(virt, phys, size, done);
        ghost var before := mem;
        var pages;
        CostIs(old(mem), before, path, root, virt, phys, size, done);
        status, pages := MapNext(v, p, end - p, f);
        NotYet(old(mem), before, root, virt, phys, done, f);
        if status != Success {
          RemapKept(old(mem), before, mem, root, PageOf(virt), phys / PAGE, done, f);
          if status == Unsupported {
            StopsBlocked(old(mem), before, root, virt, phys, size, f, done);
          }
          Stops(old(mem), root, virt, phys, size, f, done, |old(supply)|);
          assert StoppedAt(old(mem), virt, phys, size, f, done, status);
          return;
        }
        RemapTwice(old(mem), before, mem, root, PageOf(virt), phys / PAGE, done, pages, f);
        StepNeeds(old(mem), root, virt, phys, size, done, pages);
        Progresses(old(mem), before, mem, root, PageOf(virt), done, pages);
        if pages == 512 {
          UnitDone(old(mem), before, root, virt, phys, size, f, done);
        } else {
          PageDone(old(mem), before, root, virt, phys, size, f, done);
        }
        v, p, done := v + PAGE * pages, p + PAGE * pages, done + pages;
      }
      RangeEnds(phys, size, done);
      ClearIs(old(mem), root, virt, phys, size, f, done);
      NeverShort(old(mem), root, virt, phys, size, f, |old(supply)|);
      status := Success;
    }
  }

  // ----- tables needed -----

  /** Whether the table of level g for page n is still missing behind those above it. */
  function New(mem: Memory, root: nat, n: nat, g: nat): nat
    requires 1 <= g <= 3
  {
    if Missing(mem, root, 0, n, g) > Missing(mem, root, 0, n, g - 1) then 1 else 0
  }

  /** The tables a page or a unit needs by itself. */
  function StepCost(mem: Memory, root: nat, n: nat, unit: bool): nat {
    Missing(mem, root, 0, n, 2) + (if unit then 0 else New(mem, root, n, 3))
  }

  /** How many pages a table of each level serves. */
  function Span(g: nat): nat
    requires 1 <= g <= 3
  {
    if g == 1 then 0x800_0000 else if g == 2 then 0x4_0000 else 512
  }

  /** The tables page k of a range adds to those of the pages before it: those missing where
      a span begins, but no table of 4 KiB leaves where a 2 MiB leaf will do. */
  function Cost(mem: Memory, root: nat, virt: u64, phys: u64, size: u64, k: nat): nat {
    var n := PageOf(virt) + k;
    (if k == 0 || n % Span(1) == 0 then New(mem, root, n, 1) else 0)
    + (if k == 0 || n % Span(2) == 0 then New(mem, root, n, 2) else 0)
    + (if (k == 0 || n % Span(3) == 0) && !AtUnit(virt + PAGE * k, phys + PAGE * k, size - PAGE * k)
       then New(mem, root, n, 3) else 0)
  }

  /** The tables the first pages of a range need. */
  function Needed(mem: Memory, root: nat, virt: u64, phys: u64, size: u64, done: nat): nat {
    if done == 0 then 0
    else Needed(mem, root, virt, phys, size, done - 1) + Cost(mem, root, virt, phys, size, done - 1)
  }

  /** Before any blocked page the tables needed are more than there are pages for. */
  ghost predicate RunsShort(mem: Memory, root: nat, virt: u64, phys: u64, size: u64, f: Flags, supply: nat) {
    exists k: nat :: k < PageCount(size) && Clear(mem, root, virt, phys, size, f, k)
                     && Needed(mem, root, virt, phys, size, k + 1) > supply
  }

  /** The two pages share the first g indices. */
  ghost predicate Same(n: nat, m: nat, g: nat)
    requires g <= 3
  {
    forall k :: 0 <= k < g ==> Index(n, k) == Index(m, k)
  }

  /** The table at q is there now, and no other has come. */
  ghost predicate Opened(mem: Memory, mem': Memory, root: nat, q: seq<nat>) {
    forall n: nat, g: nat :: 1 <= g <= 3 ==>
      New(mem', root, n, g) == if g == |q| && Leads(q, n) then 0 else New(mem, root, n, g)
  }

  /** The first `depth` tables for the page are there now, and no other has come. */
  ghost predicate Reached(mem: Memory, mem': Memory, root: nat, page: nat, depth: nat) {
    forall n: nat, g: nat :: 1 <= g <= 3 ==>
      New(mem', root, n, g) == if g <= depth && Same(n, page, g) then 0 else New(mem, root, n, g)
  }

  /** Of the tables for the pages still to come, those shared with the last page are there. */
  ghost predicate Progress(mem: Memory, now: Memory, root: nat, page: nat, done: nat) {
    forall n: nat, g: nat :: page + done <= n < PAGES && 1 <= g <= 3 ==>
      New(now, root, n, g) == if done > 0 && Same(n, page + done - 1, g) then 0 else New(mem, root, n, g)
  }

  lemma {:induction false} MissingFrame(mem: Memory, path: Paths, root: nat, mem': Memory, t: nat, i: nat, at: nat,
                                        n: nat, goal: nat)
    requires Shape(mem, path, root) && t in path && i < 512
    requires at in path && Leads(path[at], n) && |path[at]| <= goal <= 3
    requires !Leads(path[t] + [i], n) || |path[t]| >= goal
    requires forall u :: u in mem ==> u in mem' && |mem'[u]| == |mem[u]|
    requires forall u, k :: u in path && 0 <= k < 512 && !(u == t && k == i) ==> mem'[u][k] == mem[u][k]
    ensures Missing(mem', at, |path[at]|, n, goal) == Missing(mem, at, |path[at]|, n, goal)
    decreases 4 - |path[at]|
  {
    hide Index, Frame, Apart, Linked;
    var level := |path[at]|;
    if level < goal {
      var k := Index(n, level);
      assert at == t ==> k != i;
      assert EntryOk(mem, path, at, k);
      var e := mem[at][k];
      if Present(e) && !Large(e) {
        MissingFrame(mem, path, root, mem', t, i, Frame(e), n, goal);
      }
    }
  }

  /** What is missing behind a table that is there. */
  lemma {:induction false} MissingFrom(mem: Memory, path: Paths, root: nat, t: nat, n: nat, goal: nat)
    requires Shape(mem, path, root) && t in path && Leads(path[t], n) && goal <= 3
    ensures Missing(mem, root, 0, n, goal) == if |path[t]| <= goal then Missing(mem, t, |path[t]|, n, goal) else 0
    decreases |path[t]|
  {
    hide EntryOk, Index;
    if path[t] != [] {
      var p := ParentOf(mem, path, root, t);
      assert Leads(path[p], n);
      MissingFrom(mem, path, root, p, n, goal);
    }
  }

  lemma {:induction false} MissingGrows(mem: Memory, path: Paths, root: nat, t: nat, n: nat, goal: nat)
    requires Shape(mem, path, root) && t in path && |path[t]| < goal <= 3
    ensures Missing(mem, t, |path[t]|, n, goal - 1) <= Missing(mem, t, |path[t]|, n, goal)
            <= Missing(mem, t, |path[t]|, n, goal - 1) + 1
    decreases goal - |path[t]|
  {
    hide Index, Frame, Apart, Linked;
    var level := |path[t]|;
    assert EntryOk(mem, path, t, Index(n, level));
    var e := mem[t][Index(n, level)];
    if Present(e) && !Large(e) && level + 1 < goal {
      MissingGrows(mem, path, root, Frame(e), n, goal);
    }
  }

  /** What is missing, level by level. */
  lemma MissingSum(mem: Memory, path: Paths, root: nat, n: nat)
    requires Shape(mem, path, root)
    ensures Missing(mem, root, 0, n, 1) == New(mem, root, n, 1)
    ensures Missing(mem, root, 0, n, 2) == New(mem, root, n, 1) + New(mem, root, n, 2)
    ensures Missing(mem, root, 0, n, 3) == New(mem, root, n, 1) + New(mem, root, n, 2) + New(mem, root, n, 3)
  {
    hide Shape;
    RootPlace(mem, path, root);
    MissingGrows(mem, path, root, root, n, 1);
    MissingGrows(mem, path, root, root, n, 2);
    MissingGrows(mem, path, root, root, n, 3);
  }

  /** What a new link does to the tables missing for a page. */
  lemma LinkMissing(mem: Memory, path: Paths, root: nat, t: nat, i: nat, child: nat, mem': Memory, path': Paths, n: nat,
                    goal: nat)
    requires NewLink(mem, path, root, t, i, child, mem', path') && Shape(mem', path', root) && goal <= 3
    ensures var q, m, m' := path[t] + [i], Missing(mem, root, 0, n, goal), Missing(mem', root, 0, n, goal);
            if !Leads(q, n) then m' == m
            else if goal < |q| then m == m' == 0 else m == goal - |q| + 1 && m' == goal - |q|
  {
    hide Index, Shape, Link, Frame, Large, EntryOk, Linked;
    NewLinkLevel(mem, path, root, t, i, child, mem', path');
    if Leads(path[t] + [i], n) {
      LeadsPrefix(path[t], i, n);
      Tabled(mem, path, root, t);
      MissingFrom(mem, path, root, t, n, goal);
      MissingFrom(mem', path', root, child, n, goal);
      if goal > 0 {
        MissingFrom(mem', path', root, t, n, goal);
      }
      Vacant(mem, t, |path[t]|, n, goal);
      Vacant(mem', child, |path[t]| + 1, n, goal);
    } else {
      LinkFrame(mem, path, root, t, i, child, mem', path');
      MissingFrame(mem, path, root, mem', t, i, root, n, goal);
    }
  }

  /** Behind an empty entry all tables are missing. */
  lemma Vacant(mem: Memory, t: nat, level: nat, n: nat, goal: nat)
    requires level <= 3 && goal <= 3 && IsTable(mem, t) && mem[t][Index(n, level)] == 0
    ensures level <= goal ==> Missing(mem, t, level, n, goal) == goal - level
  {
    hide Index;
  }

  lemma LinkOpens(mem: Memory, path: Paths, root: nat, t: nat, i: nat, child: nat, mem': Memory, path': Paths)
    requires NewLink(mem, path, root, t, i, child, mem', path') && Shape(mem', path', root)
    ensures Opened(mem, mem', root, path[t] + [i])
  {
    hide NewLink, Shape, Missing, Leads;
    NewLinkLevel(mem, path, root, t, i, child, mem', path');
    forall n: nat, g: nat | 1 <= g <= 3
      ensures New(mem', root, n, g)
              == if g == |path[t] + [i]| && Leads(path[t] + [i], n) then 0 else New(mem, root, n, g) {
      LinkMissing(mem, path, root, t, i, child, mem', path', n, g);
      LinkMissing(mem, path, root, t, i, child, mem', path', n, g - 1);
    }
  }

  lemma OpenAlready(mem: Memory, path: Paths, root: nat, t: nat)
    requires Shape(mem, path, root) && t in path && 1 <= |path[t]| <= 3
    ensures Opened(mem, mem, root, path[t])
  {
    hide Shape, Leads;
    forall n: nat | Leads(path[t], n) ensures New(mem, root, n, |path[t]|) == 0 {
      MissingFrom(mem, path, root, t, n, |path[t]|);
    }
  }

  /** What an entry of a page directory does to the tables missing for a page. */
  lemma LeafMissing(mem: Memory, path: Paths, root: nat, pd: nat, i: nat, n: nat, goal: nat)
    requires Shape(mem, path, root) && pd in path && |path[pd]| == 2 && i < 512 && goal <= 3
    requires IsTable(mem, pd) && Leads(path[pd] + [i], n)
    ensures goal <= 2 ==> Missing(mem, root, 0, n, goal) == 0
    ensures Present(mem[pd][i]) && Large(mem[pd][i]) ==> Missing(mem, root, 0, n, goal) == 0
  {
    hide Index, Shape, Large, Present, Frame;
    LeadsPrefix(path[pd], i, n);
    MissingFrom(mem, path, root, pd, n, goal);
  }

  lemma LeafOpen(mem: Memory, path: Paths, root: nat, pd: nat, i: nat)
    requires Shape(mem, path, root) && pd in path && |path[pd]| == 2 && i < 512 && IsTable(mem, pd)
    requires Present(mem[pd][i]) && Large(mem[pd][i])
    ensures Opened(mem, mem, root, path[pd] + [i])
  {
    hide Shape, Leads, Missing, Large, Present;
    forall n: nat | Leads(path[pd] + [i], n) ensures New(mem, root, n, 3) == 0 {
      LeafMissing(mem, path, root, pd, i, n, 3);
      LeafMissing(mem, path, root, pd, i, n, 2);
    }
  }

  lemma LargeOpens(mem: Memory, path: Paths, root: nat, pd: nat, virt: u64, phys: u64, f: Flags)
    requires Shape(mem, path, root) && pd in path && |path[pd]| == 2 && phys / PAGE < FRAMES && IsTable(mem, pd)
    requires var mem' := WithEntry(mem, pd, virt / HUGE % 512, LargeLeaf(phys / HUGE * 512, f));
             Shape(mem', path, root)
    ensures var i := virt / HUGE % 512;
            Opened(mem, WithEntry(mem, pd, i, LargeLeaf(phys / HUGE * 512, f)), root, path[pd] + [i])
  {
    hide Leads, Missing, Large, Present, LargeLeaf, Frame;
    var i, e := virt / HUGE % 512, LargeLeaf(phys / HUGE * 512, f);
    var mem' := WithEntry(mem, pd, i, e);
    EntriesRead(phys / HUGE * 512, f);
    hide Shape;
    forall n: nat, g: nat | 1 <= g <= 3
      ensures New(mem', root, n, g) == if g == |path[pd] + [i]| && Leads(path[pd] + [i], n) then 0
              else New(mem, root, n, g) {
      if Leads(path[pd] + [i], n) {
        LeafMissing(mem', path, root, pd, i, n, g);
        LeafMissing(mem', path, root, pd, i, n, g - 1);
        LeafMissing(mem, path, root, pd, i, n, g);
        LeafMissing(mem, path, root, pd, i, n, g - 1);
      } else {
        OtherMissing(mem, path, root, pd, i, e, n, g);
        OtherMissing(mem, path, root, pd, i, e, n, g - 1);
      }
    }
  }

  lemma OtherMissing(mem: Memory, path: Paths, root: nat, t: nat, i: nat, e: u64, n: nat, goal: nat)
    requires Shape(mem, path, root) && t in path && i < 512 && IsTable(mem, t) && goal <= 3
    requires !Leads(path[t] + [i], n) || |path[t]| >= goal
    ensures Missing(WithEntry(mem, t, i, e), root, 0, n, goal) == Missing(mem, root, 0, n, goal)
  {
    hide Missing;
    MissingFrame(mem, path, root, WithEntry(mem, t, i, e), t, i, root, n, goal);
  }

  /** A 4 KiB leaf is no table. */
  lemma SmallNews(mem: Memory, now: Memory, path: Paths, root: nat, pt: nat, i: nat, e: u64, page: nat)
    requires Shape(now, path, root) && pt in path && |path[pt]| == 3 && i < 512 && IsTable(now, pt)
    requires Reached(mem, now, root, page, 3)
    ensures Reached(mem, WithEntry(now, pt, i, e), root, page, 3)
  {
    hide Shape, Missing, Same, WithEntry, IsTable;
    forall n: nat, g: nat | 1 <= g <= 3 ensures New(WithEntry(now, pt, i, e), root, n, g) == New(now, root, n, g) {
      OtherMissing(now, path, root, pt, i, e, n, g);
      OtherMissing(now, path, root, pt, i, e, n, g - 1);
    }
  }

  lemma LeadsSame(q: seq<nat>, page: nat, n: nat)
    requires Leads(q, page) && |q| <= 3
    ensures Leads(q, n) <==> Same(n, page, |q|)
  {
    hide Index;
  }

  lemma ReachTwo(mem: Memory, mem1: Memory, mem2: Memory, root: nat, page: nat)
    requires Opened(mem, mem1, root, [] + [Index(page, 0)])
    requires Opened(mem1, mem2, root, [] + [Index(page, 0)] + [Index(page, 1)])
    ensures Reached(mem, mem2, root, page, 2)
  {
    hide Index, New, Leads, Same;
    var p, q := [] + [Index(page, 0)], [] + [Index(page, 0)] + [Index(page, 1)];
    assert Leads(p, page) by { LeadsOne(p, page); }
    LeadsTwo(q, page);
    forall n: nat, g: nat | 1 <= g <= 3
      ensures New(mem2, root, n, g) == if g <= 2 && Same(n, page, g) then 0 else New(mem, root, n, g) {
      LeadsSame(p, page, n);
      LeadsSame(q, page, n);
    }
  }

  lemma LeadsOne(p: seq<nat>, n: nat)
    requires p == [Index(n, 0)]
    ensures |p| == 1 && Leads(p, n)
  {
    hide Index;
  }

  lemma ReachThree(mem: Memory, mem1: Memory, mem2: Memory, root: nat, page: nat)
    requires Reached(mem, mem1, root, page, 2)
    requires Opened(mem1, mem2, root, [Index(page, 0), Index(page, 1)] + [Index(page, 2)])
    ensures Reached(mem, mem2, root, page, 3)
  {
    hide Index, New, Leads, Same;
    var q := [Index(page, 0), Index(page, 1)] + [Index(page, 2)];
    LeadsThree(q, page);
    forall n: nat, g: nat | 1 <= g <= 3
      ensures New(mem2, root, n, g) == if g <= 3 && Same(n, page, g) then 0 else New(mem, root, n, g) {
      LeadsSame(q, page, n);
    }
  }

  /** A table that is missing now is missing on the way to the directory. */
  lemma StillMissing(mem: Memory, path: Paths, root: nat, t: nat, n: nat)
    requires Shape(mem, path, root) && t in path && path[t] == [] + [Index(n, 0)]
    ensures !Present(EntryAt(mem, t, Index(n, 1))) ==> Missing(mem, root, 0, n, 2) > 0
  {
    hide Index, Shape, Frame, Large, Present;
    LeadsOne(path[t], n);
    Tabled(mem, path, root, t);
    MissingFrom(mem, path, root, t, n, 2);
  }

  lemma StepCostIs(mem: Memory, path: Paths, root: nat, n: nat)
    requires Shape(mem, path, root)
    ensures Missing(mem, root, 0, n, 3) == Missing(mem, root, 0, n, 2) + New(mem, root, n, 3)
  {
    hide Shape, Missing, New;
    MissingSum(mem, path, root, n);
  }

  // ----- adding up a range -----

  lemma SameSpan(n: nat, m: nat, g: nat)
    requires n < PAGES && m < PAGES && 1 <= g <= 3
    ensures Same(n, m, g) <==> n / Span(g) == m / Span(g)
  {
    Digits(n);
    Digits(m);
    assert Same(n, m, 1) <==> Index(n, 0) == Index(m, 0);
    assert Same(n, m, 2) <==> Index(n, 0) == Index(m, 0) && Index(n, 1) == Index(m, 1);
    assert Same(n, m, 3) <==> Index(n, 0) == Index(m, 0) && Index(n, 1) == Index(m, 1) && Index(n, 2) == Index(m, 2);
    hide Index, Same;
    if g == 2 {
      SplitTwo(n / 0x800_0000, Index(n, 1), m / 0x800_0000, Index(m, 1));
    } else if g == 3 {
      SplitTwo(n / 0x800_0000, Index(n, 1), m / 0x800_0000, Index(m, 1));
      SplitTwo(n / 0x4_0000, Index(n, 2), m / 0x4_0000, Index(m, 2));
    }
  }

  lemma SplitTwo(a: nat, i: nat, b: nat, j: nat)
    requires i < 512 && j < 512
    ensures a * 512 + i == b * 512 + j <==> a == b && i == j
  {
  }

  /** A page shares a span with the one before it unless a span begins there. */
  lemma SameBefore(n: nat, g: nat)
    requires 1 <= n < PAGES && 1 <= g <= 3
    ensures Same(n, n - 1, g) <==> n % Span(g) != 0
  {
    hide Same;
    SameSpan(n, n - 1, g);
  }

  lemma Between(n: nat, m: nat, k: nat, g: nat)
    requires k <= m <= n < PAGES && 1 <= g <= 3 && Same(n, k, g)
    ensures Same(n, m, g)
  {
    hide Same;
    SameSpan(n, k, g);
    SameSpan(n, m, g);
  }

  lemma NoProgress(mem: Memory, root: nat, virt: u64, phys: u64, size: u64)
    ensures Progress(mem, mem, root, PageOf(virt), 0) && Needed(mem, root, virt, phys, size, 0) == 0
  {
  }

  lemma Progresses(mem: Memory, before: Memory, now: Memory, root: nat, page: nat, done: nat, pages: nat)
    requires Progress(mem, before, root, page, done) && Reached(before, now, root, page + done, 3)
    requires pages == 1 || (pages == 512 && (page + done) % 512 == 0)
    requires page + done + pages <= PAGES
    ensures Progress(mem, now, root, page, done + pages)
  {
    hide Same, New;
    var at, last := page + done, page + done + pages - 1;
    forall n: nat, g: nat | last < n < PAGES && 1 <= g <= 3
      ensures New(now, root, n, g) == if Same(n, last, g) then 0 else New(mem, root, n, g) {
      SameSpan(n, at, g);
      SameSpan(n, last, g);
      UnitSpan(at, last, g);
      if done > 0 && Same(n, at - 1, g) {
        Between(n, at, at - 1, g);
      }
    }
  }

  lemma UnitSpan(at: nat, last: nat, g: nat)
    requires last == at || (at % 512 == 0 && last == at + 511)
    requires 1 <= g <= 3
    ensures at / Span(g) == last / Span(g)
  {
    if last != at {
      InUnit(at, 511);
      assert at / 0x4_0000 == at / 512 / 512 && last / 0x4_0000 == last / 512 / 512;
      assert at / 0x800_0000 == at / 512 / 0x4_0000 && last / 0x800_0000 == last / 512 / 0x4_0000;
    }
  }

  /** What the next step needs is what its page adds. */
  lemma CostIs(mem: Memory, now: Memory, path: Paths, root: nat, virt: u64, phys: u64, size: u64, done: nat)
    requires Shape(now, path, root) && Progress(mem, now, root, PageOf(virt), done) && PageOf(virt) + done < PAGES
    ensures StepCost(now, root, PageOf(virt) + done, AtUnit(virt + PAGE * done, phys + PAGE * done, size - PAGE * done))
            == Cost(mem, root, virt, phys, size, done)
  {
    hide Shape, New, Missing, Same, PageOf, AtUnit;
    var n := PageOf(virt) + done;
    MissingSum(now, path, root, n);
    forall g: nat | 1 <= g <= 3
      ensures New(now, root, n, g) == if done == 0 || n % Span(g) == 0 then New(mem, root, n, g) else 0 {
      if done > 0 {
        SameBefore(n, g);
      }
    }
  }

  lemma {:induction false} NeededGrows(mem: Memory, root: nat, virt: u64, phys: u64, size: u64, a: nat, b: nat)
    requires a <= b
    ensures Needed(mem, root, virt, phys, size, a) <= Needed(mem, root, virt, phys, size, b)
    decreases b - a
  {
    hide Cost;
    if a < b {
      NeededGrows(mem, root, virt, phys, size, a, b - 1);
    }
  }

  /** Inside a unit mapped at once no page adds a table. */
  lemma {:induction false} NeededUnit(mem: Memory, root: nat, virt: u64, phys: u64, size: u64, done: nat, j: nat)
    requires 1 <= j <= 512 && (PageOf(virt) + done) % 512 == 0
    ensures Needed(mem, root, virt, phys, size, done + j) == Needed(mem, root, virt, phys, size, done + 1)
  {
    hide PageOf, New, AtUnit;
    if j > 1 {
      NeededUnit(mem, root, virt, phys, size, done, j - 1);
      InUnit(PageOf(virt) + done, j - 1);
      NoSpan(PageOf(virt) + done + j - 1);
      assert Cost(mem, root, virt, phys, size, done + j - 1) == 0;
    }
  }

  lemma NoSpan(n: nat)
    requires n % 512 != 0
    ensures n % Span(1) != 0 && n % Span(2) != 0 && n % Span(3) != 0
  {
    Divide512(n / Span(1) * 0x4_0000, 0);
    Divide512(n / Span(2) * 512, 0);
  }

  lemma StepNeeds(mem: Memory, root: nat, virt: u64, phys: u64, size: u64, done: nat, pages: nat)
    requires virt % PAGE == 0
    requires pages == 1 || (pages == 512 && AtUnit(virt + PAGE * done, phys + PAGE * done, size - PAGE * done))
    ensures Needed(mem, root, virt, phys, size, done + pages)
            == Needed(mem, root, virt, phys, size, done) + Cost(mem, root, virt, phys, size, done)
    ensures pages == 512 ==> (PageOf(virt) + done) % 512 == 0
  {
    hide Cost, PageOf;
    if pages == 512 {
      var a := virt / PAGE + done;
      assert virt + PAGE * done == a * PAGE;
      UnitStarts(a);
      PageUnit(virt, done);
      NeededUnit(mem, root, virt, phys, size, done, 512);
    }
  }

  lemma NeededNext(mem: Memory, root: nat, virt: u64, phys: u64, size: u64, done: nat)
    ensures Needed(mem, root, virt, phys, size, done + 1)
            == Needed(mem, root, virt, phys, size, done) + Cost(mem, root, virt, phys, size, done)
  {
    hide Cost;
  }

  /** Stopped at page `done`, for want of a table or because it is blocked. */
  lemma Stops(mem: Memory, root: nat, virt: u64, phys: u64, size: u64, f: Flags, done: nat, supply: nat)
    requires done < PageCount(size) && Clear(mem, root, virt, phys, size, f, done)
    ensures Needed(mem, root, virt, phys, size, done + 1)
            == Needed(mem, root, virt, phys, size, done) + Cost(mem, root, virt, phys, size, done)
    ensures Needed(mem, root, virt, phys, size, done + 1) > supply ==>
              && RunsShort(mem, root, virt, phys, size, f, supply)
              && Needed(mem, root, virt, phys, size, PageCount(size)) > supply
    ensures Needed(mem, root, virt, phys, size, done + 1) <= supply && Blocked(mem, root, virt, phys, size, f, done) ==>
              && !RunsShort(mem, root, virt, phys, size, f, supply)
              && !Clear(mem, root, virt, phys, size, f, PageCount(size))
  {
    hide Cost, Blocked, PageCount, Needed, Clear;
    NeededNext(mem, root, virt, phys, size, done);
    NeededGrows(mem, root, virt, phys, size, done + 1, PageCount(size));
    if Needed(mem, root, virt, phys, size, done + 1) <= supply && Blocked(mem, root, virt, phys, size, f, done) {
      BlockedFirst(mem, root, virt, phys, size, f, done, supply);
    }
  }

  /** With tables enough up to a blocked page, there are enough for every page before it. */
  lemma BlockedFirst(mem: Memory, root: nat, virt: u64, phys: u64, size: u64, f: Flags, done: nat, supply: nat)
    requires done < PageCount(size) && Blocked(mem, root, virt, phys, size, f, done)
    requires Needed(mem, root, virt, phys, size, done + 1) <= supply
    ensures !RunsShort(mem, root, virt, phys, size, f, supply)
    ensures !Clear(mem, root, virt, phys, size, f, PageCount(size))
  {
    hide Cost, Blocked, PageCount, Needed;
    forall k: nat | k < PageCount(size) && Clear(mem, root, virt, phys, size, f, k)
      ensures Needed(mem, root, virt, phys, size, k + 1) <= supply {
      NeededGrows(mem, root, virt, phys, size, k + 1, done + 1);
    }
  }

  lemma NeverShort(mem: Memory, root: nat, virt: u64, phys: u64, size: u64, f: Flags, supply: nat)
    requires Needed(mem, root, virt, phys, size, PageCount(size)) <= supply
    ensures !RunsShort(mem, root, virt, phys, size, f, supply)
  {
    hide Needed, Clear, PageCount;
    forall k: nat | k < PageCount(size) && Clear(mem, root, virt, phys, size, f, k)
      ensures Needed(mem, root, virt, phys, size, k + 1) <= supply {
      NeededGrows(mem, root, virt, phys, size, k + 1, PageCount(size));
    }
  }

  // ----- blocked pages -----

  /** A 2 MiB leaf can be tried at these addresses. */
  predicate AtUnit(virt: nat, phys: nat, left: int) {
    virt % HUGE == 0 && phys % HUGE == 0 && left >= HUGE
  }

  /** Page n is under the very leaf that mapping the unit around phys would write. */
  ghost predicate HasUnit(mem: Memory, root: nat, n: nat, phys: u64, f: Flags) {
    phys / HUGE * 512 < FRAMES && Walk(mem, root, 0, n) == Some(Leaf(LargeLeaf(phys / HUGE * 512, f), true))
  }

  /** The whole 2 MiB unit of page k of a range is in the range, equally placed on both sides. */
  predicate Whole(virt: u64, phys: u64, size: u64, k: nat) {
    var u := (virt / PAGE + k) % 512;
    virt / PAGE % 512 == phys / PAGE % 512 && u <= k && PAGE * (k - u) + HUGE <= size
  }

  /** Page k of a range cannot be mapped: it is under a 2 MiB leaf that does not pass the
      comparison, and not one that the range would write itself. */
  ghost predicate Blocked(mem: Memory, root: nat, virt: u64, phys: u64, size: u64, f: Flags, k: nat) {
    var v, p := virt + PAGE * k, phys + PAGE * k;
    && v < 0x1_0000_0000_0000_0000 && p < 0x1_0000_0000_0000_0000
    && Refuses(Walk(mem, root, 0, PageOf(virt) + k), v, p)
    && !(Whole(virt, phys, size, k) && HasUnit(mem, root, PageOf(virt) + k, p, f))
  }

  ghost predicate Clear(mem: Memory, root: nat, virt: u64, phys: u64, size: u64, f: Flags, done: nat) {
    forall k: nat :: k < done ==> !Blocked(mem, root, virt, phys, size, f, k)
  }

  /** In the middle of a whole unit the leaf for all of it has been tried. */
  ghost predicate Tried(mem: Memory, root: nat, virt: u64, phys: u64, size: u64, f: Flags, done: nat) {
    (virt / PAGE + done) % 512 != 0 && Whole(virt, phys, size, done) && phys + PAGE * done < 0x1_0000_0000_0000_0000 ==>
      !HasUnit(mem, root, PageOf(virt) + done, phys + PAGE * done, f)
  }

  lemma NoneYet(mem: Memory, root: nat, virt: u64, phys: u64, size: u64, f: Flags)
    ensures Clear(mem, root, virt, phys, size, f, 0) && Tried(mem, root, virt, phys, size, f, 0)
  {
  }

  lemma ClearIs(mem: Memory, root: nat, virt: u64, phys: u64, size: u64, f: Flags, done: nat)
    requires Clear(mem, root, virt, phys, size, f, done)
    ensures !exists k: nat :: k < done && Blocked(mem, root, virt, phys, size, f, k)
  {
    hide Blocked;
  }

  /** Pages from `done` on are still as they were. */
  lemma NotYet(mem: Memory, before: Memory, root: nat, virt: u64, phys: u64, done: nat, f: Flags)
    requires Remapped(mem, before, root, PageOf(virt), phys / PAGE, done, f)
    ensures forall n: nat :: PageOf(virt) + done <= n < PAGES ==> Walk(before, root, 0, n) == Walk(mem, root, 0, n)
  {
    hide Walk, Mapped, PageOf;
  }

  lemma StopsBlocked(mem: Memory, before: Memory, root: nat, virt: u64, phys: u64, size: u64, f: Flags, done: nat)
    requires Stepping(mem, before, root, virt, phys, size, f, done)
    requires Refuses(Walk(before, root, 0, PageOf(virt + PAGE * done)), virt + PAGE * done, phys + PAGE * done)
    requires AtUnit(virt + PAGE * done, phys + PAGE * done, size - PAGE * done) ==>
               !HasUnit(before, root, PageOf(virt + PAGE * done), phys + PAGE * done, f)
    ensures Blocked(mem, root, virt, phys, size, f, done)
  {
    hide Walk, Refuses, PageOf, LargeLeaf;
    if Whole(virt, phys, size, done) && (virt / PAGE + done) % 512 == 0 {
      WholeAligned(virt, phys, size, done);
    }
  }

  /** The state of a range after `done` pages. */
  ghost predicate Stepping(mem: Memory, before: Memory, root: nat, virt: u64, phys: u64, size: u64, f: Flags,
                           done: nat) {
    && virt % PAGE == 0 && phys % PAGE == 0 && PAGE * done < size
    && PageOf(virt) + PageCount(size) <= PAGES && phys / PAGE + PageCount(size) <= FRAMES && done < PageCount(size)
    && virt + PAGE * done < 0x1_0000_0000_0000_0000 && phys + PAGE * done < 0x1_0000_0000_0000_0000
    && PageOf(virt + PAGE * done) == PageOf(virt) + done
    && (forall n: nat :: PageOf(virt) + done <= n < PAGES ==> Walk(before, root, 0, n) == Walk(mem, root, 0, n))
    && Clear(mem, root, virt, phys, size, f, done) && Tried(mem, root, virt, phys, size, f, done)
  }

  lemma PageDone(mem: Memory, before: Memory, root: nat, virt: u64, phys: u64, size: u64, f: Flags, done: nat)
    requires Stepping(mem, before, root, virt, phys, size, f, done)
    requires !Refuses(Walk(before, root, 0, PageOf(virt + PAGE * done)), virt + PAGE * done, phys + PAGE * done)
    requires AtUnit(virt + PAGE * done, phys + PAGE * done, size - PAGE * done) ==>
               !HasUnit(before, root, PageOf(virt + PAGE * done), phys + PAGE * done, f)
    ensures Clear(mem, root, virt, phys, size, f, done + 1) && Tried(mem, root, virt, phys, size, f, done + 1)
  {
    hide Walk, Refuses, PageOf, LargeLeaf, Whole, HasUnit;
    assert !Blocked(mem, root, virt, phys, size, f, done);
    NextTried(mem, before, root, virt, phys, size, f, done);
  }

  lemma NextTried(mem: Memory, before: Memory, root: nat, virt: u64, phys: u64, size: u64, f: Flags, done: nat)
    requires Stepping(mem, before, root, virt, phys, size, f, done)
    requires AtUnit(virt + PAGE * done, phys + PAGE * done, size - PAGE * done) ==>
               !HasUnit(before, root, PageOf(virt + PAGE * done), phys + PAGE * done, f)
    ensures Tried(mem, root, virt, phys, size, f, done + 1)
  {
    hide Walk, Refuses, PageOf, LargeLeaf, Clear;
    if (virt / PAGE + done + 1) % 512 != 0 && Whole(virt, phys, size, done + 1)
      && phys + PAGE * (done + 1) < 0x1_0000_0000_0000_0000 {
      WholeNext(virt, phys, size, done);
      if (virt / PAGE + done) % 512 == 0 {
        WholeAligned(virt, phys, size, done);
      }
      if HasUnit(mem, root, PageOf(virt) + done + 1, phys + PAGE * (done + 1), f) {
        SameLeaf(mem, root, PageOf(virt) + done, PageOf(virt) + done + 1);
      }
    }
  }

  lemma UnitDone(mem: Memory, before: Memory, root: nat, virt: u64, phys: u64, size: u64, f: Flags, done: nat)
    requires Stepping(mem, before, root, virt, phys, size, f, done) && done + 512 <= PageCount(size)
    requires AtUnit(virt + PAGE * done, phys + PAGE * done, size - PAGE * done)
    requires forall n: nat ::
               n < PAGES && n / 512 == PageOf(virt + PAGE * done) / 512 && Walk(before, root, 0, n).Some? ==>
               HasUnit(before, root, n, phys + PAGE * done, f)
    ensures Clear(mem, root, virt, phys, size, f, done + 512) && Tried(mem, root, virt, phys, size, f, done + 512)
  {
    hide Walk, Agrees, PageOf, LargeLeaf;
    forall k: nat | k < done + 512 ensures !Blocked(mem, root, virt, phys, size, f, k) {
      if done <= k {
        WholeUnit(virt, phys, size, done, k);
      } else {
        assert Clear(mem, root, virt, phys, size, f, done);
      }
    }
    WholeUnit(virt, phys, size, done, done);
  }

  // ----- units of 512 pages -----

  lemma Divide512(q: int, r: nat)
    requires r < 512
    ensures (512 * q + r) % 512 == r && (512 * q + r) / 512 == q
  {
  }

  lemma Congruent(x: nat, y: nat, k: nat)
    requires x % 512 == y % 512
    ensures (x + k) % 512 == (y + k) % 512
  {
    var t, s := (y + k) / 512, (y + k) % 512;
    Divide512(t + x / 512 - y / 512, s);
    assert x + k == 512 * (t + x / 512 - y / 512) + s;
  }

  lemma NextInUnit(a: nat)
    requires (a + 1) % 512 != 0
    ensures (a + 1) % 512 == a % 512 + 1 && (a + 1) / 512 == a / 512
  {
    var q, r := a / 512, a % 512;
    assert r < 511;
    Divide512(q, r + 1);
    assert a + 1 == 512 * q + (r + 1);
  }

  lemma HugeMultiple(z: nat)
    ensures z * HUGE % HUGE == 0
  {
  }

  lemma WholeAligned(virt: u64, phys: u64, size: u64, done: nat)
    requires virt % PAGE == 0 && phys % PAGE == 0 && Whole(virt, phys, size, done) && (virt / PAGE + done) % 512 == 0
    requires virt + PAGE * done < 0x1_0000_0000_0000_0000 && phys + PAGE * done < 0x1_0000_0000_0000_0000
    ensures AtUnit(virt + PAGE * done, phys + PAGE * done, size - PAGE * done)
  {
    var a, b := virt / PAGE + done, phys / PAGE + done;
    Congruent(phys / PAGE, virt / PAGE, done);
    HugeMultiple(a / 512);
    HugeMultiple(b / 512);
    assert virt + PAGE * done == a * PAGE == a / 512 * HUGE;
    assert phys + PAGE * done == b * PAGE == b / 512 * HUGE;
  }

  lemma WholeNext(virt: u64, phys: u64, size: u64, done: nat)
    requires virt % PAGE == 0 && phys % PAGE == 0 && Whole(virt, phys, size, done + 1)
             && (virt / PAGE + done + 1) % 512 != 0
    ensures Whole(virt, phys, size, done)
    ensures (phys + PAGE * (done + 1)) / HUGE == (phys + PAGE * done) / HUGE
    ensures (PageOf(virt) + done + 1) / 512 == (PageOf(virt) + done) / 512
  {
    var a, b := virt / PAGE + done, phys / PAGE + done;
    NextInUnit(a);
    Congruent(phys / PAGE, virt / PAGE, done + 1);
    NextInUnit(b);
    PageUnit(virt, done + 1);
    hide PageOf;
    NextInUnit(PageOf(virt) + done);
    UnitOfPage(b);
    UnitOfPage(b + 1);
    assert phys + PAGE * done == b * PAGE && phys + PAGE * (done + 1) == (b + 1) * PAGE;
  }

  lemma UnitOfPage(b: nat)
    ensures b * PAGE / HUGE == b / 512
  {
  }

  /** Cutting an address to 48 bits keeps its place in its unit. */
  lemma PageUnit(virt: u64, k: nat)
    ensures (PageOf(virt) + k) % 512 == (virt / PAGE + k) % 512
  {
    var p := virt / PAGE;
    assert p == PageOf(virt) + p / PAGES * PAGES;
    assert p + k == PageOf(virt) + k + p / PAGES * 0x800_0000 * 512;
  }

  lemma WholeUnit(virt: u64, phys: u64, size: u64, done: nat, k: nat)
    requires virt % PAGE == 0 && phys % PAGE == 0 && done <= k < done + 512
    requires (virt + PAGE * done) % HUGE == 0 && (phys + PAGE * done) % HUGE == 0 && size - PAGE * done >= HUGE
    ensures Whole(virt, phys, size, k) && (phys + PAGE * k) / HUGE == (phys + PAGE * done) / HUGE
    ensures (PageOf(virt) + k) / 512 == (PageOf(virt) + done) / 512 && (virt / PAGE + done + 512) % 512 == 0
  {
    var a, b, j := virt / PAGE + done, phys / PAGE + done, k - done;
    assert virt + PAGE * done == a * PAGE && phys + PAGE * done == b * PAGE && phys + PAGE * k == (b + j) * PAGE;
    UnitStarts(a);
    UnitStarts(b);
    InUnit(a, j);
    InUnit(b, j);
    UnitOfPage(b);
    UnitOfPage(b + j);
    PageUnit(virt, done);
    InUnit(PageOf(virt) + done, j);
    SamePlace(virt / PAGE, phys / PAGE, done);
  }

  lemma UnitStarts(a: nat)
    requires a * PAGE % HUGE == 0
    ensures a % 512 == 0
  {
  }

  lemma InUnit(a: nat, j: nat)
    requires a % 512 == 0 && j < 512
    ensures (a + j) % 512 == j && (a + j) / 512 == a / 512 && (a + 512) % 512 == 0
  {
  }

  lemma SamePlace(a: nat, b: nat, done: nat)
    requires (a + done) % 512 == 0 && (b + done) % 512 == 0
    ensures a % 512 == b % 512
  {
    var x, y := (a + done) / 512, (b + done) / 512;
    Divide512(b / 512 + x - y, b % 512);
    assert a == 512 * (b / 512 + x - y) + b % 512;
  }

  /** A 2 MiB leaf is the same for all pages of its unit. */
  lemma SameLeaf(mem: Memory, root: nat, n: nat, m: nat)
    requires n / 512 == m / 512 && Walk(mem, root, 0, m).Some? && Walk(mem, root, 0, m).value.large
    ensures Walk(mem, root, 0, n) == Walk(mem, root, 0, m)
  {
    SameUnit(n, m);
    LargeSame(mem, root, 0, n, m);
  }

  lemma {:induction false} LargeSame(mem: Memory, t: nat, level: nat, n: nat, m: nat)
    requires level <= 2 && Index(n, 0) == Index(m, 0) && Index(n, 1) == Index(m, 1) && Index(n, 2) == Index(m, 2)
    requires Walk(mem, t, level, m).Some? && Walk(mem, t, level, m).value.large
    ensures Walk(mem, t, level, n) == Walk(mem, t, level, m)
    decreases 3 - level
  {
    hide Index, Frame, Large, Present;
    var e := mem[t][Index(m, level)];
    if level < 2 {
      LargeSame(mem, Frame(e), level + 1, n, m);
    }
  }

  // ----- what is there before a call -----

  /** What the walk and the page-directory entry have to do with each other. */
  ghost predicate Linked2(w: Option<Leaf>, e: u64) {
    && (e == 0 || Present(e)) && (e == 0 ==> w == None) && (Large(e) ==> w == Some(Leaf(e, true)))
    && (w.Some? && w.value.large ==> Large(e))
  }

  lemma PdeWalk(mem: Memory, path: Paths, root: nat, n: nat)
    requires Shape(mem, path, root)
    ensures Linked2(Walk(mem, root, 0, n), Pde(mem, root, 0, n))
  {
    PdeWalkFrom(mem, path, root, root, n);
  }

  lemma {:induction false} PdeWalkFrom(mem: Memory, path: Paths, root: nat, t: nat, n: nat)
    requires Shape(mem, path, root) && t in path && |path[t]| <= 2
    ensures Linked2(Walk(mem, t, |path[t]|, n), Pde(mem, t, |path[t]|, n))
    decreases 3 - |path[t]|
  {
    hide Index, Frame, Apart, Linked;
    var level := |path[t]|;
    assert EntryOk(mem, path, t, Index(n, level));
    var e := mem[t][Index(n, level)];
    if Present(e) && level < 2 {
      PdeWalkFrom(mem, path, root, Frame(e), n);
    }
  }

  /** For every page of a unit: nothing is mapped below an empty entry, and a leaf in it is found. */
  lemma UnitPdes(mem: Memory, path: Paths, root: nat, page: nat)
    requires Shape(mem, path, root)
    ensures forall n: nat :: n / 512 == page / 512 ==> Linked2(Walk(mem, root, 0, n), Pde(mem, root, 0, page))
  {
    hide Shape, Walk, Linked2;
    forall n: nat | n / 512 == page / 512 ensures Linked2(Walk(mem, root, 0, n), Pde(mem, root, 0, page)) {
      PdeWalk(mem, path, root, n);
      SameUnit(n, page);
      PdeSame(mem, root, n, page);
    }
  }

  lemma PdeSame(mem: Memory, root: nat, n: nat, page: nat)
    requires Index(n, 0) == Index(page, 0) && Index(n, 1) == Index(page, 1) && Index(n, 2) == Index(page, 2)
    ensures Pde(mem, root, 0, n) == Pde(mem, root, 0, page)
  {
    hide Index, Frame, Large, Present;
    var e := EntryAt(mem, root, Index(page, 0));
    assert Pde(mem, Frame(e), 1, n) == Pde(mem, Frame(e), 1, page);
  }

  /** The tables missing on the way to a page directory, and its entry, from the two entries above. */
  lemma DirectoryMissing(mem: Memory, path: Paths, root: nat, n: nat)
    requires Shape(mem, path, root)
    ensures var e := EntryAt(mem, root, Index(n, 0));
            && (!Present(e) ==> Missing(mem, root, 0, n, 2) == 2 && Pde(mem, root, 0, n) == 0)
            && (Present(e) ==>
                  && var d := EntryAt(mem, Frame(e), Index(n, 1));
                  && !Large(e)
                  && (!Present(d) ==> Missing(mem, root, 0, n, 2) == 1 && Pde(mem, root, 0, n) == 0)
                  && (Present(d) ==>
                        && !Large(d) && Missing(mem, root, 0, n, 2) == 0
                        && Pde(mem, root, 0, n) == EntryAt(mem, Frame(d), Index(n, 2))))
  {
    hide Index, Apart, Linked;
    assert EntryOk(mem, path, root, Index(n, 0));
    var e := mem[root][Index(n, 0)];
    if Present(e) {
      assert EntryOk(mem, path, Frame(e), Index(n, 1));
    }
  }

  /** One table more for a 4 KiB leaf, unless it is there or a 2 MiB leaf is. */
  lemma MissingThree(mem: Memory, path: Paths, root: nat, n: nat)
    requires Shape(mem, path, root)
    ensures var e := Pde(mem, root, 0, n);
            && (e == 0 || Present(e)) && (e != 0 ==> Missing(mem, root, 0, n, 2) == 0)
            && Missing(mem, root, 0, n, 3)
               == if Large(e) then 0 else Missing(mem, root, 0, n, 2) + (if Present(e) then 0 else 1)
  {
    MissingThreeFrom(mem, path, root, root, n);
  }

  lemma {:induction false} MissingThreeFrom(mem: Memory, path: Paths, root: nat, t: nat, n: nat)
    requires Shape(mem, path, root) && t in path && |path[t]| <= 2
    ensures var level := |path[t]|;
            var e := Pde(mem, t, level, n);
            && (e == 0 || Present(e)) && (e != 0 ==> Missing(mem, t, level, n, 2) == 0)
            && Missing(mem, t, level, n, 3)
               == if Large(e) then 0 else Missing(mem, t, level, n, 2) + (if Present(e) then 0 else 1)
    decreases 3 - |path[t]|
  {
    hide Index, Frame, Apart, Linked;
    var level := |path[t]|;
    assert EntryOk(mem, path, t, Index(n, level));
    var e := mem[t][Index(n, level)];
    if Present(e) && level < 2 {
      MissingThreeFrom(mem, path, root, Frame(e), n);
    }
  }

  lemma RootPlace(mem: Memory, path: Paths, root: nat)
    requires Shape(mem, path, root)
    ensures root in path && path[root] == [] && |path[root]| == 0
  {
  }

  /** A table just made has no entries. */
  lemma NewTable(mem: Memory, t: nat, i: nat)
    requires i < 512
    ensures IsTable(mem, t) && mem[t] == EmptyTable() ==> EntryAt(mem, t, i) == 0 && !Present(0)
  {
  }

  lemma Tabled(mem: Memory, path: Paths, root: nat, t: nat)
    requires Shape(mem, path, root) && t in path
    ensures IsTable(mem, t) && t in mem && |mem[t]| == 512
    ensures forall i: nat :: i < 512 ==> EntryAt(mem, t, i) == mem[t][i]
  {
  }

  // ----- composing changes -----

  lemma RemapSame(mem: Memory, mem': Memory, root: nat, page: nat, frame: nat, f: Flags)
    requires (forall n: nat :: Walk(mem', root, 0, n) == Walk(mem, root, 0, n))
    requires frame < FRAMES && Translate(Walk(mem', root, 0, page), page) == Some(frame)
             && Walk(mem', root, 0, page).value.large
    ensures Remapped(mem, mem', root, page, frame, 1, f)
  {
    hide Walk, Frame, SmallLeaf, LargeLeaf;
  }

  lemma RemapAfter(mem: Memory, mem': Memory, mem'': Memory, root: nat, page: nat, frame: nat, count: nat, f: Flags)
    requires (forall n: nat :: Walk(mem', root, 0, n) == Walk(mem, root, 0, n))
             && Remapped(mem', mem'', root, page, frame, count, f)
    ensures Remapped(mem, mem'', root, page, frame, count, f)
  {
    hide Walk, Mapped;
  }

  /** The number of pages a range touches. */
  function PageCount(size: nat): nat {
    (size + PAGE - 1) / PAGE
  }

  /** The page after `done` others is still in range, on both sides. */
  lemma InRange(virt: u64, phys: u64, size: u64, done: nat)
    requires virt % PAGE == 0 && phys % PAGE == 0 && phys + PAGE * done < phys + size
    requires PageOf(virt) + PageCount(size) <= PAGES && phys / PAGE + PageCount(size) <= FRAMES
    ensures done < PageCount(size) && (size - PAGE * done >= HUGE ==> done + 512 <= PageCount(size))
    ensures virt + PAGE * done < 0x1_0000_0000_0000_0000 && (virt + PAGE * done) % PAGE == 0
    ensures PageOf(virt + PAGE * done) == PageOf(virt) + done
    ensures phys + PAGE * done < 0x1_0000_0000_0000_0000 && (phys + PAGE * done) % PAGE == 0
    ensures (phys + PAGE * done) / PAGE == phys / PAGE + done < FRAMES
  {
  }

  lemma RangeEnds(phys: u64, size: u64, done: nat)
    requires phys + PAGE * done >= phys + size && done <= PageCount(size)
    ensures done == PageCount(size)
  {
  }

  lemma RemapNone(mem: Memory, root: nat, page: nat, frame: nat, f: Flags)
    ensures Remapped(mem, mem, root, page, frame, 0, f)
  {
    hide Walk, Mapped;
  }

  lemma RemapTwice(mem: Memory, mem': Memory, mem'': Memory, root: nat, page: nat, frame: nat, a: nat, b: nat, f: Flags)
    requires Remapped(mem, mem', root, page, frame, a, f) && Remapped(mem', mem'', root, page + a, frame + a, b, f)
    ensures Remapped(mem, mem'', root, page, frame, a + b, f)
  {
    hide Walk, Mapped;
    forall n: nat | n < PAGES
      ensures if page <= n < page + (a + b)
              then Mapped(Walk(mem, root, 0, n), Walk(mem'', root, 0, n), n, frame + (n - page), f)
              else Walk(mem'', root, 0, n) == Walk(mem, root, 0, n)
    {
      assert if page <= n < page + a
             then Mapped(Walk(mem, root, 0, n), Walk(mem', root, 0, n), n, frame + (n - page), f)
             else Walk(mem', root, 0, n) == Walk(mem, root, 0, n);
    }
  }

  lemma RemapKept(mem: Memory, mem': Memory, mem'': Memory, root: nat, page: nat, frame: nat, a: nat, f: Flags)
    requires Remapped(mem, mem', root, page, frame, a, f) && forall n: nat ::
             Walk(mem'', root, 0, n) == Walk(mem', root, 0, n)
    ensures Remapped(mem, mem'', root, page, frame, a, f)
  {
    hide Walk, Mapped;
  }

  // ----- the leaves written -----

  lemma LargeMapped(mem: Memory, path: Paths, root: nat, pd: nat, virt: u64, phys: u64, f: Flags)
    requires Shape(mem, path, root) && pd in path && virt % HUGE == 0 && phys % HUGE == 0 && phys / PAGE < FRAMES
    requires path[pd] == [Index(PageOf(virt), 0), Index(PageOf(virt), 1)] && IsTable(mem, pd)
    requires var e := LargeLeaf(phys / HUGE * 512, f);
             mem[pd][virt / HUGE % 512] == 0 || mem[pd][virt / HUGE % 512] == e
    ensures var mem' := WithEntry(mem, pd, virt / HUGE % 512, LargeLeaf(phys / HUGE * 512, f));
            Shape(mem', path, root) && Remapped(mem, mem', root, PageOf(virt), phys / PAGE, 512, f)
  {
    hide PageOf, Large, Frame, LargeLeaf, Present, Index, Walk, Shape, Mapped, WithEntry, IsTable;
    var page, frame := PageOf(virt), phys / PAGE;
    Indices(virt);
    UnitStart(virt, phys);
    EntriesRead(frame, f);
    var e := LargeLeaf(frame, f);
    LeadsTwo(path[pd], page);
    InUnitFrom(page);
    LeafShape(mem, path, root, pd, Index(page, 2), e);
    forall n: nat | n < PAGES
      ensures var w := Walk(WithEntry(mem, pd, Index(page, 2), e), root, 0, n);
              if page <= n < page + 512 then Mapped(Walk(mem, root, 0, n), w, n, frame + (n - page), f)
              else w == Walk(mem, root, 0, n)
    {
      LargeWrite(mem, path, root, pd, page, e, n);
      if page <= n < page + 512 {
        UnitMaps(Walk(mem, root, 0, n), page, frame, n, f);
      }
    }
  }

  lemma InUnitFrom(page: nat)
    requires page % 512 == 0
    ensures forall n: nat :: page <= n < page + 512 <==> n / 512 == page / 512
  {
    forall n: nat ensures page <= n < page + 512 <==> n / 512 == page / 512 {
      assert page == 512 * (page / 512) && n == 512 * (n / 512) + n % 512;
    }
  }

  lemma UnitMaps(was: Option<Leaf>, page: nat, frame: nat, n: nat, f: Flags)
    requires page % 512 == 0 && frame % 512 == 0 && frame < FRAMES && page <= n < page + 512
    ensures Mapped(was, Some(Leaf(LargeLeaf(frame, f), true)), n, frame + (n - page), f)
  {
    EntriesRead(frame, f);
    hide LargeLeaf, Frame, SmallLeaf;
    assert (frame + (n - page)) / 512 * 512 == frame && n % 512 == n - page;
    assert frame / 512 * 512 == frame;
  }

  lemma UnitStart(virt: u64, phys: u64)
    requires virt % HUGE == 0 && phys % HUGE == 0 && phys / PAGE < FRAMES
    ensures phys / HUGE * 512 == phys / PAGE && phys / PAGE % 512 == 0 && PageOf(virt) % 512 == 0
  {
    assert virt / PAGE == virt / HUGE * 512;
    IndexLow(virt / PAGE);
  }

  /** A 2 MiB leaf that passes the comparison maps the page as asked. */
  lemma KeptRemaps(mem: Memory, mem': Memory, root: nat, virt: u64, phys: u64, f: Flags)
    requires virt % PAGE == 0 && phys % PAGE == 0 && phys / PAGE < FRAMES
    requires forall n: nat :: Walk(mem', root, 0, n) == Walk(mem, root, 0, n)
    requires var w := Walk(mem', root, 0, PageOf(virt)); w.Some? && w.value.large && Agrees(w.value.entry, virt, phys)
    ensures Remapped(mem, mem', root, PageOf(virt), phys / PAGE, 1, f)
  {
    LargeAgrees(Walk(mem', root, 0, PageOf(virt)).value.entry, virt, phys);
    hide Walk, PageOf, Frame, Agrees;
    RemapSame(mem, mem', root, PageOf(virt), phys / PAGE, f);
  }

  lemma SmallMapped(mem: Memory, path: Paths, root: nat, pt: nat, virt: u64, phys: u64, f: Flags)
    requires Shape(mem, path, root) && pt in path && phys / PAGE < FRAMES && IsTable(mem, pt)
    requires path[pt] == [Index(PageOf(virt), 0), Index(PageOf(virt), 1)] + [Index(PageOf(virt), 2)]
    ensures var mem' := WithEntry(mem, pt, virt / PAGE % 512, SmallLeaf(phys / PAGE % FRAMES, f));
            Shape(mem', path, root) && Remapped(mem, mem', root, PageOf(virt), phys / PAGE, 1, f)
  {
    hide Index, PageOf, Walk, Shape, Large, Frame, SmallLeaf, Present, LargeLeaf, WithEntry, Mapped, IsTable;
    var page, frame := PageOf(virt), phys / PAGE;
    Indices(virt);
    EntriesRead(frame, f);
    SmallFrameSame(frame);
    var e := SmallLeaf(frame, f);
    LeadsThree(path[pt], page);
    LeafShape(mem, path, root, pt, Index(page, 3), e);
    forall n: nat | n < PAGES
      ensures var w := Walk(WithEntry(mem, pt, Index(page, 3), e), root, 0, n);
              if n == page then Mapped(Walk(mem, root, 0, n), w, n, frame, f) else w == Walk(mem, root, 0, n)
    {
      SmallWrite(mem, path, root, pt, page, e, n);
      SmallMaps(Walk(mem, root, 0, n), frame, n, f);
    }
  }

  lemma SmallFrameSame(frame: nat)
    requires frame < FRAMES
    ensures frame % FRAMES == frame
  {
  }

  lemma LeadsThree(p: seq<nat>, n: nat)
    requires p == [Index(n, 0), Index(n, 1)] + [Index(n, 2)]
    ensures |p| == 3 && Leads(p, n)
  {
    hide Index;
  }

  lemma LeadsTwo(p: seq<nat>, n: nat)
    requires p == [Index(n, 0), Index(n, 1)]
    ensures |p| == 2 && Leads(p, n)
  {
    hide Index;
  }

  lemma SmallMaps(was: Option<Leaf>, frame: nat, n: nat, f: Flags)
    requires frame < FRAMES
    ensures Mapped(was, Some(Leaf(SmallLeaf(frame, f), false)), n, frame, f)
  {
    EntriesRead(frame, f);
    hide SmallLeaf, LargeLeaf, Frame;
  }

  /** The virtual page of a 48-bit address; the bits above repeat bit 47. */
  function PageOf(virt: u64): (n: nat)
    ensures n < PAGES
  {
    virt / PAGE % PAGES
  }

  lemma Indices(virt: u64)
    ensures virt / 0x80_0000_0000 % 512 == Index(PageOf(virt), 0) && virt / 0x4000_0000 % 512 == Index(PageOf(virt), 1)
    ensures virt / HUGE % 512 == Index(PageOf(virt), 2) && virt / PAGE % 512 == Index(PageOf(virt), 3)
  {
    var p := virt / PAGE;
    assert virt / HUGE == p / 512 && virt / 0x4000_0000 == p / 0x4_0000 && virt / 0x80_0000_0000 == p / 0x800_0000;
    IndexLow(p);
    IndexHigh(p);
  }

  lemma IndexLow(p: nat)
    ensures p % 512 == p % PAGES % 512 && p / 512 % 512 == p % PAGES / 512 % 512
  {
    var n, k := p % PAGES, p / PAGES;
    assert p == n + k * 0x800_0000 * 512;
    SecondIndex(n, k);
  }

  lemma SecondIndex(n: nat, k: nat)
    ensures (n + k * 0x10_0000_0000) / 512 % 512 == n / 512 % 512
  {
    assert (n + k * 0x10_0000_0000) / 512 == n / 512 + k * 0x4_0000 * 512;
  }

  lemma ThirdIndex(n: nat, k: nat)
    ensures (n + k * 0x10_0000_0000) / 0x4_0000 % 512 == n / 0x4_0000 % 512
  {
    assert (n + k * 0x10_0000_0000) / 0x4_0000 == n / 0x4_0000 + k * 512 * 512;
  }

  lemma FourthIndex(n: nat, k: nat)
    ensures (n + k * 0x10_0000_0000) / 0x800_0000 % 512 == n / 0x800_0000 % 512
  {
    assert (n + k * 0x10_0000_0000) / 0x800_0000 == n / 0x800_0000 + k * 512;
  }

  lemma IndexHigh(p: nat)
    ensures p / 0x4_0000 % 512 == p % PAGES / 0x4_0000 % 512 && p / 0x800_0000 % 512 == p % PAGES / 0x800_0000 % 512
  {
    var n, k := p % PAGES, p / PAGES;
    assert p == n + k * 0x10_0000_0000;
    ThirdIndex(n, k);
    FourthIndex(n, k);
  }

  lemma HugeRemainder(p: nat)
    ensures p * PAGE % HUGE == p % 512 * PAGE
  {
    var q, r := p / 512, p % 512;
    assert p * PAGE == q * HUGE + r * PAGE;
  }

  lemma EntryUnit(e: u64)
    ensures e / PAGE / 512 == e / HUGE
  {
  }

  /** An existing 2 MiB leaf that passes the comparison translates the page to exactly phys. */
  lemma LargeAgrees(e: u64, virt: u64, phys: u64)
    requires virt % PAGE == 0 && phys % PAGE == 0 && phys / PAGE < FRAMES && Agrees(e, virt, phys)
    ensures Frame(e) / 512 * 512 + PageOf(virt) % 512 == phys / PAGE
  {
    var p, q, s := virt / PAGE, e / HUGE, e / PAGE % 512;
    assert virt == p * PAGE;
    HugeRemainder(p);
    PageUnit(virt, 0);
    EntryUnit(e);
    hide PageOf;
    assert phys == (512 * q + p % 512) * PAGE;
    DividePage(512 * q + p % 512, 0);
    assert e / PAGE == 512 * q + s;
    SmallFrame(q, s);
    Divide512(q, s);
  }

  /** A 2 MiB leaf with its no-execute bit set never passes the comparison, not even on the
      right frame. */
  lemma NoExecuteRefused(frame: nat, f: Flags, virt: u64, phys: u64)
    requires frame < FRAMES && f.noExecute && phys / PAGE < FRAMES
    ensures Large(LargeLeaf(frame, f)) && Frame(LargeLeaf(frame, f)) == frame
    ensures !Agrees(LargeLeaf(frame, f), virt, phys)
  {
    EntriesRead(frame, f);
    var e := LargeLeaf(frame, f);
    assert e >= NX && phys < FRAMES * PAGE;
    assert e == e / HUGE * HUGE + e % HUGE;
  }

  lemma SmallFrame(q: nat, s: nat)
    requires 512 * q < FRAMES && s < 512
    ensures (512 * q + s) % FRAMES == 512 * q + s
  {
  }
}
