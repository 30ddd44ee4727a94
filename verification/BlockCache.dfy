/** The block layer's cache: entries keyed by descriptor, sector and length,
    kept in step with the devices through reads, writes, removals and slot reuse. */
module BlockCache {
  import opened Options

  const MAX_DEVICES := 32
  const ENTRIES := 64
  const ENTRY_BYTES := 4096
  const U64_MAX: nat := 0xFFFF_FFFF_FFFF_FFFF

  type Sector = seq<nat>

  // ----- devices -----

  /** A descriptor's address: one a driver keeps, or a slot of the registry. */
  datatype Ptr = Source(n: nat) | Slot(k: nat)

  /** A device: `count` sectors of a store from `first` on. A whole disk begins at zero, a
      partition inside its parent's store. */
  datatype Desc = Desc(id: nat, sectorSize: nat, store: nat, first: nat, count: nat,
                       readable: bool, writable: bool, readOnly: bool, registered: bool)

  const NO_DESC := Desc(0, 0, 0, 0, 0, false, false, false, false)

  /** A slot of the registry: a copy of a driver's descriptor, and which one it was
      copied from, as its driver data tells. */
  datatype Registration = Registration(desc: Desc, online: bool, origin: nat)

  const FREE := Registration(NO_DESC, false, 0)

  /** The registry, the drivers' descriptors and what the devices hold. */
  datatype World = World(slots: seq<Registration>, sources: map<nat, Desc>, stores: map<nat, seq<Sector>>)

  function DescOf(w: World, p: Ptr): Desc {
    match p
    case Source(n) => if n in w.sources then w.sources[n] else NO_DESC
    case Slot(k) => if k < |w.slots| then w.slots[k].desc else NO_DESC
  }

  predicate Holds(r: Registration, id: nat) {
    r.desc.registered && r.desc.id == id
  }

  ghost predicate Registered(w: World, id: nat) {
    exists k :: 0 <= k < |w.slots| && Holds(w.slots[k], id)
  }

  ghost predicate IdLive(w: World, id: nat) {
    exists k :: 0 <= k < |w.slots| && Holds(w.slots[k], id) && w.slots[k].online
  }

  ghost predicate Live(w: World, p: Ptr) {
    DescOf(w, p).registered && IdLive(w, DescOf(w, p).id)
  }

  predicate CopyOf(r: Registration, n: nat) {
    r.desc.registered && r.origin == n
  }

  /** An instance of the driver's descriptor is still in the registry, online or not. */
  ghost predicate Remains(w: World, n: nat) {
    exists k :: 0 <= k < |w.slots| && CopyOf(w.slots[k], n)
  }

  /** Entries may be keyed by the descriptor: one in the registry, or the original of one. */
  ghost predicate Anchored(w: World, p: Ptr) {
    match p
    case Source(n) => Remains(w, n)
    case Slot(_) => DescOf(w, p).registered
  }

  /** The store has all sectors of the device. */
  predicate Backed(stores: map<nat, seq<Sector>>, d: Desc) {
    d.store in stores && d.first + d.count <= |stores[d.store]|
  }

  function Stored(w: World, p: Ptr): seq<Sector> {
    var d := DescOf(w, p);
    if Backed(w.stores, d) then w.stores[d.store][d.first..d.first + d.count] else []
  }

  /** Registered instances have distinct IDs, none of them used up again later. */
  ghost predicate Identified(w: World, nextId: nat) {
    && |w.slots| == MAX_DEVICES
    && (forall k :: 0 <= k < |w.slots| && w.slots[k].desc.registered ==> w.slots[k].desc.id < nextId)
    && (forall n :: n in w.sources && w.sources[n].registered ==> w.sources[n].id < nextId)
    && (forall j, k ::
          && 0 <= j < |w.slots| && 0 <= k < |w.slots|
          && w.slots[j].desc.registered && Holds(w.slots[k], w.slots[j].desc.id)
          ==> j == k)
    && (forall n, k ::
          && n in w.sources && w.sources[n].registered && 0 <= k < |w.slots| && Holds(w.slots[k], w.sources[n].id)
          ==> w.slots[k].origin == n)
  }

  // ----- the cache -----

  datatype Entry = Entry(device: Ptr, lba: nat, sectors: nat, age: nat, valid: bool, data: seq<Sector>)

  const EMPTY := Entry(Source(0), 0, 0, 0, false, [])

  type Cache = seq<Entry>

  /** The entry holds what its device holds. */
  ghost predicate Matches(w: World, e: Entry) {
    e.lba + e.sectors <= |Stored(w, e.device)| && e.data == Stored(w, e.device)[e.lba..e.lba + e.sectors]
  }

  ghost predicate EntryOk(w: World, e: Entry) {
    e.valid ==>
      && e.sectors >= 1 && Anchored(w, e.device)
      && (Live(w, e.device) ==> Matches(w, e))
  }

  ghost predicate Coherent(w: World, cache: Cache) {
    forall i :: 0 <= i < |cache| ==> EntryOk(w, cache[i])
  }

  predicate SameKey(e: Entry, p: Ptr, lba: nat, sectors: nat) {
    e.valid && e.device == p && e.lba == lba && e.sectors == sectors
  }

  ghost predicate HasKey(cache: Cache, p: Ptr, lba: nat, sectors: nat) {
    exists i :: 0 <= i < |cache| && SameKey(cache[i], p, lba, sectors)
  }

  ghost predicate UniqueKeys(cache: Cache) {
    forall i, j ::
      && 0 <= i < |cache| && 0 <= j < |cache|
      && cache[i].valid && SameKey(cache[j], cache[i].device, cache[i].lba, cache[i].sectors)
      ==> i == j
  }

  /** The age of an entry is the time of its last use, the log being all uses since the cache was last emptied. */
  ghost predicate Dated(cache: Cache, log: seq<nat>) {
    forall i :: 0 <= i < |cache| && cache[i].valid ==> LastUse(log, i, cache[i].age)
  }

  /** The last use of entry i is at position a - 1. */
  ghost predicate LastUse(log: seq<nat>, i: nat, a: nat) {
    1 <= a <= |log| && log[a - 1] == i && forall k :: a <= k < |log| ==> log[k] != i
  }

  /** Entry v was last used before every other one. */
  ghost predicate LeastRecent(log: seq<nat>, cache: Cache, v: nat)
    requires v < |cache|
  {
    forall j :: 0 <= j < |cache| && j != v ==> UsedSince(log, v, cache[j], j)
  }

  /** Entry j has been used since the last use of entry v. */
  ghost predicate UsedSince(log: seq<nat>, v: nat, e: Entry, j: nat) {
    exists k :: 0 <= k < |log| && log[k] == j && v !in log[k..]
  }

  /** The entry a new one replaces: the first invalid one; if all are valid, the least recently used. */
  ghost predicate IsVictim(cache: Cache, log: seq<nat>, v: nat) {
    && v < |cache|
    && if cache[v].valid then (forall i :: 0 <= i < |cache| ==> cache[i].valid) && LeastRecent(log, cache, v)
       else forall i :: 0 <= i < v ==> cache[i].valid
  }

  /** What a request was answered with is in the cache: where it was found and taken from,
      or in place of the victim. Nothing else changed. */
  ghost predicate Served(before: Cache, log: seq<nat>, after: Cache, p: Ptr, lba: nat, sectors: nat,
                         buffer: seq<Sector>) {
    exists v :: 0 <= v < |before| && ServedAt(before, log, after, v, p, lba, sectors, buffer)
  }

  ghost predicate ServedAt(before: Cache, log: seq<nat>, after: Cache, v: nat, p: Ptr, lba: nat, sectors: nat,
                           buffer: seq<Sector>)
    requires v < |before|
  {
    && after == before[v := Entry(p, lba, sectors, |log| + 1, true, buffer)]
    && if HasKey(before, p, lba, sectors) then SameKey(before[v], p, lba, sectors) && before[v].data == buffer
       else IsVictim(before, log, v)
  }

  /** No answer to the request can be wrong: no entry is, or none has its key. */
  ghost predicate Trusted(w: World, cache: Cache, p: Ptr, lba: nat, sectors: nat) {
    Coherent(w, cache) || !HasKey(cache, p, lba, sectors) || !Cacheable(DescOf(w, p), sectors)
  }

  /** The cache has what was read under the key of the request. */
  ghost predicate KeepsRead(cache: Cache, p: Ptr, lba: nat, sectors: nat, buffer: seq<Sector>) {
    exists i :: 0 <= i < |cache| && SameKey(cache[i], p, lba, sectors) && cache[i].data == buffer
  }

  /** Ranges that may share a sector; a range that would overflow counts as sharing. */
  predicate Overlaps(e: Entry, p: Ptr, lba: nat, sectors: nat) {
    && e.valid && e.device == p
    && (e.lba > U64_MAX - e.sectors || lba > U64_MAX - sectors || (e.lba < lba + sectors && lba < e.lba + e.sectors))
  }

  predicate Cacheable(d: Desc, sectors: nat) {
    sectors > 0 && d.sectorSize > 0 && sectors * d.sectorSize <= ENTRY_BYTES
  }

  // ----- writing -----

  /** What a write callback may do to a store: on success exactly the write, on
      failure anything within its range. */
  ghost predicate MayBecome(before: seq<Sector>, after: seq<Sector>, at: nat, data: seq<Sector>, ok: bool) {
    && |after| == |before|
    && (forall i :: 0 <= i < |before| && !(at <= i < at + |data|) ==> after[i] == before[i])
    && (ok ==> at + |data| <= |before| && after[at..at + |data|] == data)
  }

  /** The entries a write leaves valid. */
  function AfterInvalidation(cache: Cache, p: Ptr, lba: nat, sectors: nat): (r: Cache)
    ensures |r| == |cache|
    ensures forall i :: 0 <= i < |cache| ==>
            r[i] == if Overlaps(cache[i], p, lba, sectors) then cache[i].(valid := false) else cache[i]
  {
    seq(|cache|, i requires 0 <= i < |cache| => if Overlaps(cache[i], p, lba, sectors) then cache[i].(valid := false)
        else cache[i])
  }

  /** A live entry of another descriptor holds one of the sectors [at, at + n) of a store. */
  ghost predicate Exposed(w: World, cache: Cache, s: nat, at: nat, n: nat, p: Ptr) {
    n >= 1 && exists i :: 0 <= i < |cache| && cache[i].device != p && Reaches(w, cache[i], s, at, n)
  }

  /** A live entry holds one of the sectors [at, at + n) of a store. */
  ghost predicate Reaches(w: World, e: Entry, s: nat, at: nat, n: nat) {
    var d := DescOf(w, e.device);
    e.valid && Live(w, e.device) && d.store == s && d.first + e.lba < at + n && at < d.first + e.lba + e.sectors
  }

  function WithStore(w: World, s: nat, content: seq<Sector>): World {
    w.(stores := w.stores[s := content])
  }

  lemma SliceKept(before: seq<Sector>, after: seq<Sector>, lba: nat, n: nat, at: nat, m: nat)
    requires |after| == |before| && at + m <= |before| && (at + m <= lba || lba + n <= at || n == 0)
    requires forall i :: 0 <= i < |before| && !(lba <= i < lba + n) ==> after[i] == before[i]
    ensures after[at..at + m] == before[at..at + m]
  {
  }

  lemma SliceOfSlice(store: seq<Sector>, first: nat, count: nat, lba: nat, n: nat)
    requires first + count <= |store| && lba + n <= count
    ensures store[first..first + count][lba..lba + n] == store[first + lba..first + lba + n]
  {
    var a, b := store[first..first + count][lba..lba + n], store[first + lba..first + lba + n];
    forall i | 0 <= i < n ensures a[i] == b[i] {
      assert a[i] == store[first..first + count][lba + i];
    }
  }

  /** A matching entry holds sectors of the store. */
  lemma MatchesStore(w: World, e: Entry)
    requires e.sectors >= 1
    ensures var d := DescOf(w, e.device);
            Matches(w, e) <==> Backed(w.stores, d) && e.lba + e.sectors <= d.count
                               && e.data == w.stores[d.store][d.first + e.lba..d.first + e.lba + e.sectors]
  {
    var d := DescOf(w, e.device);
    if Backed(w.stores, d) && e.lba + e.sectors <= d.count {
      SliceOfSlice(w.stores[d.store], d.first, d.count, e.lba, e.sectors);
    }
  }

  lemma SameDescs(w: World, w': World, p: Ptr)
    requires w'.slots == w.slots && w'.sources == w.sources
    ensures DescOf(w', p) == DescOf(w, p) && Live(w', p) == Live(w, p)
    ensures Anchored(w', p) == Anchored(w, p)
  {
  }

  /** Whatever a write does within its range, the entries it leaves stay right. */
  lemma WriteCoherent(w: World, cache: Cache, p: Ptr, lba: nat, data: seq<Sector>, after: seq<Sector>, ok: bool)
    requires Coherent(w, cache) && DescOf(w, p).store in w.stores
    requires !Exposed(w, cache, DescOf(w, p).store, DescOf(w, p).first + lba, |data|, p)
    requires MayBecome(w.stores[DescOf(w, p).store], after, DescOf(w, p).first + lba, data, ok)
    ensures Coherent(WithStore(w, DescOf(w, p).store, after), AfterInvalidation(cache, p, lba, |data|))
  {
    hide EntryOk, Live, Matches, DescOf, MayBecome;
    var d := DescOf(w, p);
    var w', cache' := WithStore(w, d.store, after), AfterInvalidation(cache, p, lba, |data|);
    forall i | 0 <= i < |cache'| ensures EntryOk(w', cache'[i]) {
      assert EntryOk(w, cache[i]);
      if cache[i] == cache'[i] {
        EntryKept(w, cache[i], d.store, after, d.first + lba, data, ok);
      } else {
        EntryDropped(w', cache'[i]);
      }
    }
  }

  lemma EntryDropped(w: World, e: Entry)
    requires !e.valid
    ensures EntryOk(w, e)
  {
  }

  /** An entry that a write does not reach stays right. */
  lemma EntryKept(w: World, e: Entry, s: nat, after: seq<Sector>, at: nat, data: seq<Sector>, ok: bool)
    requires EntryOk(w, e) && s in w.stores && MayBecome(w.stores[s], after, at, data, ok)
    requires |data| >= 1 ==> !Reaches(w, e, s, at, |data|)
    ensures EntryOk(WithStore(w, s, after), e)
  {
    hide Live, Matches, DescOf, Anchored;
    var w' := WithStore(w, s, after);
    SameDescs(w, w', e.device);
    if e.valid && Live(w, e.device) {
      MatchesStore(w, e);
      MatchesStore(w', e);
      var d := DescOf(w, e.device);
      if d.store == s {
        SliceKept(w.stores[s], after, at, |data|, d.first + e.lba, e.sectors);
      }
    }
  }

  /** Every write that can happen keeps the cache right exactly when no live
      entry of another descriptor holds a sector of the range. */
  lemma WriteCoherentExactly(w: World, cache: Cache, p: Ptr, lba: nat, n: nat)
    requires Coherent(w, cache) && Backed(w.stores, DescOf(w, p)) && lba + n <= DescOf(w, p).count
    ensures var d := DescOf(w, p);
            (forall data, after :: |data| == n && MayBecome(w.stores[d.store], after, d.first + lba, data, true) ==>
               Coherent(WithStore(w, d.store, after), AfterInvalidation(cache, p, lba, n)))
            <==> !Exposed(w, cache, d.store, d.first + lba, n, p)
  {
    hide Coherent, MayBecome, Exposed, DescOf;
    var d := DescOf(w, p);
    if !Exposed(w, cache, d.store, d.first + lba, n, p) {
      forall data, after | |data| == n && MayBecome(w.stores[d.store], after, d.first + lba, data, true)
        ensures Coherent(WithStore(w, d.store, after), AfterInvalidation(cache, p, lba, n))
      {
        WriteCoherent(w, cache, p, lba, data, after, true);
      }
    } else {
      var data, after := StaleWrite(w, cache, p, lba, n);
    }
  }

  /** A write that leaves an entry of another descriptor stale. */
  lemma StaleWrite(w: World, cache: Cache, p: Ptr, lba: nat, n: nat) returns (data: seq<Sector>, after: seq<Sector>)
    requires Coherent(w, cache) && Backed(w.stores, DescOf(w, p)) && lba + n <= DescOf(w, p).count
    requires Exposed(w, cache, DescOf(w, p).store, DescOf(w, p).first + lba, n, p)
    ensures |data| == n && MayBecome(w.stores[DescOf(w, p).store], after, DescOf(w, p).first + lba, data, true)
    ensures !Coherent(WithStore(w, DescOf(w, p).store, after), AfterInvalidation(cache, p, lba, n))
  {
    hide EntryOk, Live, Matches, DescOf, MayBecome;
    var d := DescOf(w, p);
    var at := d.first + lba;
    var i :| 0 <= i < |cache| && cache[i].device != p && Reaches(w, cache[i], d.store, at, n);
    var e := cache[i];
    assert EntryOk(w, e);
    LiveMatches(w, e);
    var first := DescOf(w, e.device).first + e.lba;
    var x := if first < at then at else first;
    data, after := Overwrite(w.stores[d.store], at, n, x);
    EntryStale(w, e, d.store, after, x);
    assert AfterInvalidation(cache, p, lba, n)[i] == e;
    SomeStale(WithStore(w, d.store, after), AfterInvalidation(cache, p, lba, n), i);
  }

  lemma LiveMatches(w: World, e: Entry)
    requires EntryOk(w, e) && e.valid && Live(w, e.device)
    ensures Matches(w, e) && e.sectors >= 1
  {
  }

  lemma SomeStale(w: World, cache: Cache, i: nat)
    requires i < |cache| && !EntryOk(w, cache[i])
    ensures !Coherent(w, cache)
  {
  }

  lemma EntryStale(w: World, e: Entry, s: nat, after: seq<Sector>, x: nat)
    requires e.valid && e.sectors >= 1 && Live(w, e.device) && DescOf(w, e.device).store == s && s in w.stores
             && Matches(w, e)
    requires |after| == |w.stores[s]|
             && DescOf(w, e.device).first + e.lba <= x < DescOf(w, e.device).first + e.lba + e.sectors
    requires x < |after| && after[x] != w.stores[s][x]
    ensures !EntryOk(WithStore(w, s, after), e)
  {
    hide Live, DescOf, Matches, Anchored;
    var w' := WithStore(w, s, after);
    SameDescs(w, w', e.device);
    MatchesStore(w, e);
    MatchesStore(w', e);
    SlicesDiffer(w.stores[s], after, DescOf(w, e.device).first + e.lba, e.sectors, x);
  }

  lemma Overwrite(store: seq<Sector>, lba: nat, n: nat, x: nat) returns (data: seq<Sector>, after: seq<Sector>)
    requires lba <= x < lba + n <= |store|
    ensures |data| == n && |after| == |store| && MayBecome(store, after, lba, data, true) && after[x] != store[x]
  {
    var other := store[x] + [0];
    data := seq(n, _ => other);
    after := store[..lba] + data + store[lba + n..];
    assert after[lba..lba + n] == data;
    assert |other| != |store[x]|;
  }

  lemma SlicesDiffer(a: seq<Sector>, b: seq<Sector>, at: nat, n: nat, x: nat)
    requires |a| == |b| && at <= x < at + n <= |a| && a[x] != b[x]
    ensures a[at..at + n] != b[at..at + n]
  {
    assert a[at..at + n][x - at] == a[x] && b[at..at + n][x - at] == b[x];
  }

  // ----- what the other operations keep -----

  /** The world after the instance in slot k has gone. */
  function Silenced(w: World, k: nat): World
    requires k < |w.slots|
  {
    w.(slots := w.slots[k := w.slots[k].(online := false)])
  }

  lemma GoneCoherent(w: World, cache: Cache, k: nat)
    requires Coherent(w, cache) && k < |w.slots|
    ensures Coherent(Silenced(w, k), cache)
  {
    hide Anchored, Live, DescOf, Stored;
    forall i | 0 <= i < |cache| ensures EntryOk(Silenced(w, k), cache[i]) {
      assert EntryOk(w, cache[i]);
      GoneLive(w, k, cache[i].device);
    }
  }

  lemma GoneLive(w: World, k: nat, p: Ptr)
    requires k < |w.slots|
    ensures var w' := Silenced(w, k);
            && DescOf(w', p) == DescOf(w, p) && Stored(w', p) == Stored(w, p)
            && (Anchored(w, p) ==> Anchored(w', p)) && (Live(w', p) ==> Live(w, p))
  {
    var w', id := Silenced(w, k), DescOf(w, p).id;
    if p.Source? && Remains(w, p.n) {
      var j :| 0 <= j < |w.slots| && CopyOf(w.slots[j], p.n);
      assert CopyOf(w'.slots[j], p.n);
    }
    if IdLive(w', id) {
      var j :| 0 <= j < |w'.slots| && Holds(w'.slots[j], id) && w'.slots[j].online;
      assert Holds(w.slots[j], id) && w.slots[j].online;
    }
  }

  lemma GoneShrinks(w: World, k: nat)
    requires k < |w.slots|
    ensures Shrinks(w, Silenced(w, k))
  {
    hide Live, DescOf, Anchored, Stored;
    forall p: Ptr ensures DescOf(Silenced(w, k), p) == DescOf(w, p) && (Live(Silenced(w, k), p) ==> Live(w, p)) {
      GoneLive(w, k, p);
    }
  }

  /** The world after registering source n in slot k under a new ID. */
  function Joined(w: World, n: nat, k: nat, id: nat): World
    requires n in w.sources && k < |w.slots|
  {
    var d := w.sources[n].(id := id, registered := true);
    w.(slots := w.slots[k := Registration(d, true, n)], sources := w.sources[n := d])
  }

  ghost predicate FirstFree(slots: seq<Registration>, k: nat) {
    k < |slots| && !slots[k].desc.registered && forall j :: 0 <= j < k ==> slots[j].desc.registered
  }

  /** The entries of a descriptor hold what its device holds. */
  ghost predicate AllMatch(w: World, cache: Cache, p: Ptr) {
    forall i :: 0 <= i < |cache| && cache[i].valid && cache[i].device == p ==> Matches(w, cache[i])
  }

  /** Registering a descriptor makes its entries live; so the cache stays right exactly
      when those left from an earlier registration are. */
  lemma JoinCoherentExactly(w: World, cache: Cache, n: nat, k: nat, id: nat)
    requires Coherent(w, cache) && Identified(w, id) && n in w.sources && k < |w.slots| && !w.slots[k].desc.registered
    ensures Identified(Joined(w, n, k, id), id + 1)
    ensures Coherent(Joined(w, n, k, id), cache) <==> AllMatch(w, cache, Source(n))
  {
    hide EntryOk, Live, Matches, Anchored, IdLive;
    var w' := Joined(w, n, k, id);
    JoinIdentified(w, n, k, id);
    forall i | 0 <= i < |cache| && cache[i].device != Source(n) ensures EntryOk(w', cache[i]) {
      assert EntryOk(w, cache[i]);
      JoinOther(w, n, k, id, cache[i]);
    }
    forall i | 0 <= i < |cache| && cache[i].device == Source(n) && cache[i].valid ensures EntryOk(w', cache[i]) <==>
      Matches(w, cache[i]) {
      assert EntryOk(w, cache[i]);
      JoinOwn(w, n, k, id, cache[i]);
    }
    forall i | 0 <= i < |cache| && !cache[i].valid ensures EntryOk(w', cache[i]) {
      EntryDropped(w', cache[i]);
    }
  }

  lemma JoinIdentified(w: World, n: nat, k: nat, id: nat)
    requires Identified(w, id) && n in w.sources && k < |w.slots| && !w.slots[k].desc.registered
    ensures Identified(Joined(w, n, k, id), id + 1)
  {
  }

  lemma JoinOwn(w: World, n: nat, k: nat, id: nat, e: Entry)
    requires n in w.sources && k < |w.slots| && e.device == Source(n) && e.valid && EntryOk(w, e)
    ensures EntryOk(Joined(w, n, k, id), e) <==> Matches(w, e)
  {
    var w' := Joined(w, n, k, id);
    assert Holds(w'.slots[k], id) && w'.slots[k].online && CopyOf(w'.slots[k], n);
    assert Stored(w', e.device) == Stored(w, e.device);
  }

  lemma JoinOther(w: World, n: nat, k: nat, id: nat, e: Entry)
    requires Identified(w, id) && n in w.sources && k < |w.slots| && !w.slots[k].desc.registered
    requires e.device != Source(n) && EntryOk(w, e)
    ensures EntryOk(Joined(w, n, k, id), e)
  {
    if e.valid {
      JoinLive(w, n, k, id, e.device);
    }
  }

  lemma JoinLive(w: World, n: nat, k: nat, id: nat, p: Ptr)
    requires Identified(w, id) && n in w.sources && k < |w.slots| && !w.slots[k].desc.registered && p != Source(n)
    requires Anchored(w, p)
    ensures var w' := Joined(w, n, k, id);
            && DescOf(w', p) == DescOf(w, p) && Anchored(w', p)
            && (Live(w', p) ==> Live(w, p)) && Stored(w', p) == Stored(w, p)
  {
    var w' := Joined(w, n, k, id);
    if p.Source? {
      var j :| 0 <= j < |w.slots| && CopyOf(w.slots[j], p.n);
      assert j != k && CopyOf(w'.slots[j], p.n);
    }
    var own := DescOf(w, p).id;
    IdBelow(w, id, p);
    hide Identified;
    if DescOf(w, p).registered && IdLive(w', own) {
      var m :| 0 <= m < |w'.slots| && Holds(w'.slots[m], own) && w'.slots[m].online;
      assert m != k;
      assert Holds(w.slots[m], own) && w.slots[m].online;
    }
  }

  lemma IdBelow(w: World, nextId: nat, p: Ptr)
    requires Identified(w, nextId)
    ensures DescOf(w, p).registered ==> DescOf(w, p).id < nextId
  {
  }

  /** Nothing live uses the store. */
  ghost predicate Unused(w: World, s: nat) {
    forall p: Ptr :: Live(w, p) ==> DescOf(w, p).store != s
  }

  ghost predicate NoEntries(cache: Cache, p: Ptr) {
    forall i :: 0 <= i < |cache| && cache[i].valid ==> cache[i].device != p
  }

  /** A driver that registers its descriptor again, with a medium nothing live uses, leaves
      the cache right whatever the medium holds exactly when the descriptor has no entries. */
  lemma ReuseCoherentExactly(w: World, cache: Cache, n: nat, k: nat, id: nat)
    requires Coherent(w, cache) && Identified(w, id) && n in w.sources && k < |w.slots| && !w.slots[k].desc.registered
    requires Unused(w, w.sources[n].store)
    ensures var d := w.sources[n];
            (forall content :: d.first + d.count <= |content| ==>
               Coherent(Joined(WithStore(w, d.store, content), n, k, id), cache))
            <==> NoEntries(cache, Source(n))
  {
    hide Coherent, Identified, Unused, Matches, DescOf;
    var d := w.sources[n];
    forall content ensures Coherent(Joined(WithStore(w, d.store, content), n, k, id), cache) <==>
                           AllMatch(WithStore(w, d.store, content), cache, Source(n)) {
      OutsideCoherent(w, cache, d.store, content);
      SameIdentified(w, WithStore(w, d.store, content), id);
      JoinCoherentExactly(WithStore(w, d.store, content), cache, n, k, id);
    }
    if i :| 0 <= i < |cache| && cache[i].valid && cache[i].device == Source(n) {
      EntrySectors(w, cache, i);
      var content := OtherMedium(w, n, cache[i]);
      assert !AllMatch(WithStore(w, d.store, content), cache, Source(n));
    }
  }

  /** A medium of the device's size that an entry of it does not match. */
  lemma OtherMedium(w: World, n: nat, e: Entry) returns (content: seq<Sector>)
    requires n in w.sources && e.device == Source(n) && e.sectors >= 1
    ensures |content| == w.sources[n].first + w.sources[n].count
    ensures !Matches(WithStore(w, w.sources[n].store, content), e)
  {
    var d := w.sources[n];
    var other: Sector := if |e.data| > 0 then e.data[0] + [0] else [];
    content := seq(d.first + d.count, _ => other);
    var w' := WithStore(w, d.store, content);
    MatchesStore(w', e);
    if e.lba + e.sectors <= d.count {
      assert content[d.first + e.lba..d.first + e.lba + e.sectors][0] == other;
      assert |e.data| > 0 ==> |other| == |e.data[0]| + 1;
    }
  }

  lemma EntrySectors(w: World, cache: Cache, i: nat)
    requires Coherent(w, cache) && i < |cache| && cache[i].valid
    ensures cache[i].sectors >= 1 && Anchored(w, cache[i].device)
  {
    assert EntryOk(w, cache[i]);
  }

  /** So it does for every cache there can be exactly when no instance of the descriptor is
      left in the registry: when the driver unregistered it before. */
  lemma RegisterSafeExactly(w: World, n: nat, k: nat, id: nat)
    requires Identified(w, id) && n in w.sources && k < |w.slots| && !w.slots[k].desc.registered
    requires Unused(w, w.sources[n].store)
    ensures var d := w.sources[n];
            (forall cache, content :: Coherent(w, cache) && d.first + d.count <= |content| ==>
               Coherent(Joined(WithStore(w, d.store, content), n, k, id), cache))
            <==> !Remains(w, n)
  {
    hide Coherent, Identified, Unused, Remains, DescOf;
    var d := w.sources[n];
    forall cache: Cache | Coherent(w, cache)
      ensures (forall content :: d.first + d.count <= |content| ==>
                 Coherent(Joined(WithStore(w, d.store, content), n, k, id), cache))
              <==> NoEntries(cache, Source(n)) {
      ReuseCoherentExactly(w, cache, n, k, id);
    }
    if Remains(w, n) {
      var cache := [Entry(Source(n), 0, 1, 0, true, [])];
      LeftOver(w, n, cache[0]);
      assert Coherent(w, cache) by {
        OneEntry(w, cache);
      }
      assert !NoEntries(cache, Source(n)) by {
        assert cache[0].valid;
      }
    } else {
      forall cache: Cache | Coherent(w, cache) ensures NoEntries(cache, Source(n)) {
        forall i | 0 <= i < |cache| && cache[i].valid ensures cache[i].device != Source(n) {
          EntrySectors(w, cache, i);
        }
      }
    }
  }

  /** An entry of a descriptor that is in the registry but not live may hold anything. */
  lemma LeftOver(w: World, n: nat, e: Entry)
    requires Remains(w, n) && n in w.sources && Unused(w, w.sources[n].store)
    requires e.device == Source(n) && e.sectors >= 1
    ensures EntryOk(w, e)
  {
    hide Live, Remains;
    assert DescOf(w, Source(n)) == w.sources[n];
  }

  lemma OneEntry(w: World, cache: Cache)
    requires |cache| == 1 && EntryOk(w, cache[0])
    ensures Coherent(w, cache)
  {
  }

  /** Refilling a descriptor makes nothing live. */
  lemma RefillCoherent(w: World, cache: Cache, n: nat, d: Desc)
    requires Coherent(w, cache) && !d.registered
    ensures Coherent(w.(sources := w.sources[n := d]), cache)
  {
    var w' := w.(sources := w.sources[n := d]);
    forall i | 0 <= i < |cache| ensures EntryOk(w', cache[i]) {
      assert EntryOk(w, cache[i]);
    }
  }

  /** A store nobody live uses may change by itself. */
  lemma OutsideCoherent(w: World, cache: Cache, s: nat, content: seq<Sector>)
    requires Coherent(w, cache) && Unused(w, s)
    ensures Coherent(WithStore(w, s, content), cache)
  {
    hide Live, Anchored, DescOf;
    forall i | 0 <= i < |cache| ensures EntryOk(WithStore(w, s, content), cache[i]) {
      assert EntryOk(w, cache[i]);
      SameDescs(w, WithStore(w, s, content), cache[i].device);
    }
  }

  /** A use of entry i, dated by the log it is appended to. */
  lemma Touched(cache: Cache, log: seq<nat>, i: nat, e: Entry)
    requires Dated(cache, log) && i < |cache| && e.age == |log| + 1
    ensures Dated(cache[i := e], log + [i])
  {
    var cache', log' := cache[i := e], log + [i];
    forall j | 0 <= j < |cache'| && cache'[j].valid ensures LastUse(log', j, cache'[j].age) {
      if j != i {
        assert LastUse(log, j, cache[j].age);
      }
    }
  }

  /** The oldest age is the least recent use. */
  lemma OldestIsLeastRecent(cache: Cache, log: seq<nat>, v: nat)
    requires Dated(cache, log) && v < |cache| && forall i :: 0 <= i < |cache| ==>
             cache[i].valid && cache[v].age <= cache[i].age
    ensures LeastRecent(log, cache, v)
  {
    assert LastUse(log, v, cache[v].age);
    forall j | 0 <= j < |cache| && j != v ensures UsedSince(log, v, cache[j], j) {
      assert LastUse(log, j, cache[j].age);
      var k := cache[j].age - 1;
      assert log[k] == j && v !in log[k..];
    }
  }

  lemma InvalidationCoherent(w: World, cache: Cache, p: Ptr, lba: nat, sectors: nat)
    requires Coherent(w, cache)
    ensures Coherent(w, AfterInvalidation(cache, p, lba, sectors))
  {
    var cache' := AfterInvalidation(cache, p, lba, sectors);
    forall i | 0 <= i < |cache'| ensures EntryOk(w, cache'[i]) {
      assert EntryOk(w, cache[i]);
    }
  }

  lemma InvalidationKeeps(cache: Cache, log: seq<nat>, p: Ptr, lba: nat, sectors: nat)
    requires UniqueKeys(cache) && Dated(cache, log)
    ensures UniqueKeys(AfterInvalidation(cache, p, lba, sectors))
            && Dated(AfterInvalidation(cache, p, lba, sectors), log)
  {
  }

  // ----- the code -----

  /** What can happen around a request: whether the gate admits it, whether the
      device disappears before or during it, and whether its callback succeeds. */
  datatype Circumstances = Circumstances(admitted: bool, goneBefore: bool, succeeds: bool, goneDuring: bool)

  const UNDISTURBED := Circumstances(true, false, true, false)

  class BlockLayer {
    const cache: array<Entry>
    const slots: array<Registration>
    var sources: map<nat, Desc>
    var stores: map<nat, seq<Sector>>
    var age: nat
    var nextId: nat
    ghost var log: seq<nat>

    ghost function Now(): World
      reads this, slots
    {
      World(slots[..], sources, stores)
    }

    /** What every operation keeps whatever happens to the media. */
    ghost predicate Formed()
      reads this, cache, slots
    {
      && cache.Length == ENTRIES && slots.Length == MAX_DEVICES
      && Identified(Now(), nextId) && UniqueKeys(cache[..]) && Dated(cache[..], log) && age == |log|
    }

    /** And no live entry is wrong. */
    ghost predicate Valid()
      reads this, cache, slots
    {
      Formed() && Coherent(Now(), cache[..])
    }

    /** Entries that were right stay right. */
    twostate predicate StaysRight()
      reads this, cache, slots
    {
      old(Coherent(Now(), cache[..])) ==> Coherent(Now(), cache[..])
    }

    constructor (drivers: map<nat, Desc>, content: map<nat, seq<Sector>>)
      requires forall n :: n in drivers ==> !drivers[n].registered
      ensures Valid() && sources == drivers && stores == content && fresh(cache) && fresh(slots)
      ensures nextId == 0 && (forall k :: 0 <= k < MAX_DEVICES ==> slots[k] == FREE)
      ensures forall i :: 0 <= i < ENTRIES ==> cache[i] == EMPTY
    {
      cache := new Entry[ENTRIES](_ => EMPTY);
      slots := new Registration[MAX_DEVICES](_ => FREE);
      sources, stores, age, nextId, log := drivers, content, 0, 0, [];
    }

    function Descriptor(p: Ptr): (d: Desc)
      reads this, slots
      ensures d == DescOf(Now(), p)
    {
      match p
      case Source(n) => if n in sources then sources[n] else NO_DESC
      case Slot(k) => if k < slots.Length then slots[k].desc else NO_DESC
    }

    /** The slot an ID is registered in, or MAX_DEVICES. */
    method FindSlot(id: nat) returns (k: nat)
      ensures k <= slots.Length && (k < slots.Length <==> Registered(Now(), id))
      ensures k < slots.Length ==> Holds(slots[k], id)
    {
      k := 0;
      while k < slots.Length
        invariant 0 <= k <= slots.Length && forall j :: 0 <= j < k ==> !Holds(slots[j], id)
      {
        if Holds(slots[k], id) {
          assert Holds(Now().slots[k], id);
          return;
        }
        k := k + 1;
      }
    }

    method IsLive(p: Ptr) returns (live: bool)
      requires Identified(Now(), nextId)
      ensures live == Live(Now(), p)
    {
      var d := Descriptor(p);
      if !d.registered {
        return false;
      }
      var k := FindSlot(d.id);
      live := k < slots.Length && slots[k].online;
      LiveSlot(Now(), nextId, d.id, k);
    }

    /** The valid entry with the key, if there is one. */
    method Find(p: Ptr, lba: nat, sectors: nat) returns (i: nat)
      requires cache.Length == ENTRIES
      ensures i <= ENTRIES && (i < ENTRIES ==> SameKey(cache[i], p, lba, sectors))
      ensures i < ENTRIES <==> HasKey(cache[..], p, lba, sectors)
    {
      i := 0;
      while i < ENTRIES
        invariant 0 <= i <= ENTRIES && forall j :: 0 <= j < i ==> !SameKey(cache[j], p, lba, sectors)
      {
        if SameKey(cache[i], p, lba, sectors) {
          assert SameKey(cache[..][i], p, lba, sectors);
          return;
        }
        i := i + 1;
      }
    }

    /** The first invalid entry; if all are valid, the one used least recently. */
    method Victim() returns (v: nat)
      requires Formed()
      ensures IsVictim(cache[..], log, v)
    {
      hide Identified, UniqueKeys;
      v := 0;
      for i := 0 to ENTRIES
        invariant v < ENTRIES && (if i == 0 then v == 0 else v < i)
        invariant forall j :: 0 <= j < i ==> cache[j].valid && cache[v].age <= cache[j].age
      {
        if !cache[i].valid {
          return i;
        }
        if cache[i].age < cache[v].age {
          v := i;
        }
      }
      OldestIsLeastRecent(cache[..], log, v);
    }

    /** An instance goes away: it is never live again. */
    method MarkGone(id: nat) returns (found: bool)
      requires Formed()
      modifies slots
      ensures Formed() && StaysRight() && found == old(Registered(Now(), id)) && !IdLive(Now(), id)
      ensures Shrinks(old(Now()), Now())
      ensures forall k :: 0 <= k < MAX_DEVICES ==>
              slots[k] == if Holds(old(slots[k]), id) then old(slots[k]).(online := false) else old(slots[k])
    {
      hide Coherent, Identified, UniqueKeys, Dated, Live;
      var k := FindSlot(id);
      ghost var w := Now();
      found := k < slots.Length;
      if found {
        OneHolds(w, nextId, id, k);
        slots[k] := slots[k].(online := false);
        assert Now() == Silenced(w, k);
        GoneFor(w, nextId, id, k);
        GoneShrinks(w, k);
        if Coherent(w, cache[..]) {
          GoneCoherent(w, cache[..], k);
        }
      } else {
        NoneHolds(w, id);
        ShrinksSame(w);
      }
    }

    /** Enter a driver's device under a new ID, in the first free slot. The descriptor may
        have been registered before; the cache stays right exactly when the entries left
        from then are, and so it does if no instance of it is left in the registry. */
    method Register(n: nat) returns (ok: bool)
      requires Formed() && n in sources
      modifies this`nextId, this`sources, slots
      ensures Formed() && (ok <==> old(exists k :: 0 <= k < slots.Length && !slots[k].desc.registered))
      ensures ok ==> old(Coherent(Now(), cache[..])) ==>
                (Coherent(Now(), cache[..]) <==> old(AllMatch(Now(), cache[..], Source(n))))
      ensures !old(Remains(Now(), n)) ==> StaysRight()
      ensures ok ==> nextId == old(nextId) + 1 && Live(Now(), Source(n))
                     && exists k :: FirstFree(old(slots[..]), k) && Now() == Joined(old(Now()), n, k, old(nextId))
      ensures !ok ==> Now() == old(Now()) && nextId == old(nextId)
    {
      hide Coherent, Identified, UniqueKeys, Dated, AllMatch, Live, Remains;
      var k := 0;
      while k < slots.Length && slots[k].desc.registered
        invariant 0 <= k <= slots.Length && forall j :: 0 <= j < k ==> slots[j].desc.registered
      {
        k := k + 1;
      }
      ok := k < slots.Length;
      if ok {
        ghost var w := Now();
        assert FirstFree(w.slots, k);
        Joins(w, cache[..], n, k, nextId);
        var d := sources[n].(id := nextId, registered := true);
        nextId := nextId + 1;
        slots[k] := Registration(d, true, n);
        sources := sources[n := d];
        assert Now() == Joined(w, n, k, nextId - 1);
      }
    }

    /** A driver clears and refills its own descriptor, whatever instances of it are left. */
    method Refill(n: nat, d: Desc)
      requires Formed() && !d.registered
      modifies this`sources
      ensures Formed() && StaysRight() && sources == old(sources)[n := d]
    {
      hide Coherent, UniqueKeys, Dated;
      ghost var w := Now();
      sources := sources[n := d];
      assert Now() == w.(sources := w.sources[n := d]);
      if Coherent(w, cache[..]) {
        RefillCoherent(w, cache[..], n, d);
      }
    }

    /** Empty the cache. */
    method InvalidateAll()
      requires cache.Length == ENTRIES
      modifies this`age, this`log, cache
      ensures age == 0 && log == [] && forall i :: 0 <= i < ENTRIES ==> cache[i] == EMPTY
    {
      for i := 0 to ENTRIES
        invariant forall j :: 0 <= j < i ==> cache[j] == EMPTY
      {
        cache[i] := EMPTY;
      }
      age, log := 0, [];
    }

    /** Remove an instance: its slot is cleared for reuse and the cache emptied, which rights
        it whatever it held. */
    method Unregister(id: nat) returns (found: bool)
      requires Formed()
      modifies this`age, this`log, cache, slots
      ensures Formed() && StaysRight() && found == old(Registered(Now(), id)) && !Registered(Now(), id)
      ensures found ==> Valid() && forall i :: 0 <= i < ENTRIES ==> cache[i] == EMPTY
      ensures forall k :: 0 <= k < MAX_DEVICES ==>
              slots[k] == if Holds(old(slots[k]), id) then FREE else old(slots[k])
    {
      hide Coherent, Identified, UniqueKeys, Dated, Live, Registered, IdLive, Shrinks;
      var k := FindSlot(id);
      if k == slots.Length {
        NoneHolds(Now(), id);
        return false;
      }
      OneHolds(Now(), nextId, id, k);
      var gone := MarkGone(id);
      ghost var w := Now();
      slots[k] := FREE;
      InvalidateAll();
      assert Now().slots == w.slots[k := FREE];
      Cleared(w, Now(), nextId, id, k);
      EmptyCache(Now(), cache[..]);
      found := true;
    }

    /** A medium changes by itself; no entry becomes wrong if nothing live uses it. */
    method Outside(s: nat, content: seq<Sector>)
      requires Formed()
      modifies this`stores
      ensures Formed() && stores == old(stores)[s := content]
      ensures old(Unused(Now(), s)) ==> StaysRight()
    {
      hide Coherent, Identified, UniqueKeys, Dated, Unused;
      ghost var w := Now();
      stores := stores[s := content];
      assert Now() == WithStore(w, s, content);
      SameIdentified(w, Now(), nextId);
      if Unused(w, s) && Coherent(w, cache[..]) {
        OutsideCoherent(w, cache[..], s, content);
      }
    }

    /** Use entry i: its age is renewed. */
    method Use(i: nat, e: Entry)
      requires Formed() && i < ENTRIES && e.age == age + 1
      requires e.valid && forall j :: 0 <= j < ENTRIES && j != i ==> !SameKey(cache[j], e.device, e.lba, e.sectors)
      modifies this`age, this`log, cache
      ensures Formed() && cache[..] == old(cache[..])[i := e] && log == old(log) + [i]
      ensures EntryOk(Now(), e) ==> StaysRight()
    {
      hide Identified, EntryOk;
      ghost var before := cache[..];
      age := age + 1;
      cache[i] := e;
      Touched(before, log, i, e);
      log := log + [i];
      assert cache[..] == before[i := e];
    }

    /** Read sectors: from the cache if the exact request is there, else from the
        device, keeping the result in place of the victim. As long as no entry is wrong,
        a read that succeeds returns what the device holds. */
    method Read(p: Ptr, lba: nat, sectors: nat, c: Circumstances) returns (ok: bool, buffer: seq<Sector>)
      requires Formed()
      modifies this`age, this`log, cache, slots
      ensures Formed() && Calm(p) && StaysRight()
      ensures ok ==> Live(Now(), p)
      ensures ok && old(Trusted(Now(), cache[..], p, lba, sectors)) ==> ReadsRight(Now(), p, lba, sectors, buffer)
      ensures ok && Cacheable(old(DescOf(Now(), p)), sectors) ==>
                Served(old(cache[..]), old(log), cache[..], p, lba, sectors, buffer)
      ensures cache[..] == old(cache[..]) || (Cacheable(old(DescOf(Now(), p)), sectors) &&
                                              Served(old(cache[..]), old(log), cache[..], p, lba, sectors, buffer))
      ensures !c.goneBefore && !c.goneDuring ==> Now() == old(Now())
      ensures c == UNDISTURBED && old(Readable(Now(), p, lba, sectors)) ==> ok || sectors == 0
    {
      hide Coherent, Identified, UniqueKeys, Dated, Live, DescOf, ReadsRight, Shrinks, Stored, Served, HasKey;
      buffer := [];
      var admitted := Admit(p, Descriptor(p).readable, c);
      ShrinksDesc(old(Now()), Now(), p);
      if !admitted {
        return false, buffer;
      }
      ghost var w := Now();
      if Cacheable(Descriptor(p), sectors) {
        var hit;
        hit, buffer := Lookup(p, lba, sectors);
        ShrinksTrans(old(Now()), w, Now());
        w := Now();
        if hit {
          ok := StaysLive(p, c);
          ShrinksTrans(old(Now()), w, Now());
          ShrinksReads(w, Now(), p, lba, sectors, buffer);
          return;
        }
      }
      ok, buffer := ReadDevice(p, lba, sectors, c);
      ShrinksTrans(old(Now()), w, Now());
    }

    /** A request was let in, its descriptor live until then. */
    method Admit(p: Ptr, allowed: bool, c: Circumstances) returns (ok: bool)
      requires Formed()
      modifies slots
      ensures Formed() && StaysRight() && cache[..] == old(cache[..]) && Shrinks(old(Now()), Now())
      ensures ok ==> allowed && Live(Now(), p)
      ensures !c.goneBefore ==> Now() == old(Now())
      ensures c == UNDISTURBED && allowed && old(Live(Now(), p)) ==> ok
    {
      hide Coherent, UniqueKeys, Dated, Live, DescOf, Shrinks;
      ShrinksSame(Now());
      if !allowed {
        return false;
      }
      ok := IsLive(p);
      if !ok || !c.admitted {
        return false;
      }
      if c.goneBefore {
        var gone := MarkGone(Descriptor(p).id);
      }
      ok := IsLive(p);
    }

    /** Whether the descriptor is live after a request during which it may have gone. */
    method StaysLive(p: Ptr, c: Circumstances) returns (ok: bool)
      requires Formed()
      modifies slots
      ensures Formed() && StaysRight() && cache[..] == old(cache[..]) && Shrinks(old(Now()), Now())
      ensures ok == Live(Now(), p)
      ensures !c.goneDuring ==> Now() == old(Now())
    {
      hide Coherent, UniqueKeys, Dated, Live, DescOf, Shrinks;
      ShrinksSame(Now());
      if c.goneDuring {
        var gone := MarkGone(Descriptor(p).id);
      }
      ok := IsLive(p);
    }

    /** The data of the entry with the exact key, used once more. */
    method Lookup(p: Ptr, lba: nat, sectors: nat) returns (hit: bool, buffer: seq<Sector>)
      requires Formed() && Live(Now(), p)
      modifies this`age, this`log, cache
      ensures Formed() && Calm(p) && StaysRight() && hit == old(HasKey(cache[..], p, lba, sectors))
      ensures hit ==> Served(old(cache[..]), old(log), cache[..], p, lba, sectors, buffer)
      ensures hit && old(Coherent(Now(), cache[..])) ==> ReadsRight(Now(), p, lba, sectors, buffer)
      ensures !hit ==> cache[..] == old(cache[..]) && log == old(log)
    {
      hide Coherent, Identified, Dated, UniqueKeys, Live, DescOf, EntryOk, Shrinks, ReadsRight, HasKey, Served;
      buffer := [];
      ShrinksSame(Now());
      var i := Find(p, lba, sectors);
      hit := i < ENTRIES;
      if hit {
        ghost var w, before := Now(), cache[..];
        var e := cache[i].(age := age + 1);
        KeysApart(before, i);
        Use(i, e);
        buffer := e.data;
        HitServed(before, old(log), i, p, lba, sectors);
        HitRight(w, before, i, e);
      }
    }

    /** Nothing but the liveness of slots and the entries of p changed. */
    twostate predicate Calm(p: Ptr)
      reads this, cache, slots
    {
      && stores == old(stores) && Shrinks(old(Now()), Now())
      && cache.Length == ENTRIES
      && forall j :: 0 <= j < ENTRIES ==> cache[j] == old(cache[j]) || cache[j].device == p
    }

    /** The part of a read that reaches the device. */
    method ReadDevice(p: Ptr, lba: nat, sectors: nat, c: Circumstances) returns (ok: bool, buffer: seq<Sector>)
      requires Formed() && Live(Now(), p)
      requires Cacheable(DescOf(Now(), p), sectors) ==> !HasKey(cache[..], p, lba, sectors)
      modifies this`age, this`log, cache, slots
      ensures Formed() && Calm(p) && StaysRight()
      ensures ok ==> Live(Now(), p) && ReadsRight(Now(), p, lba, sectors, buffer)
      ensures if ok && Cacheable(old(DescOf(Now(), p)), sectors)
              then Served(old(cache[..]), old(log), cache[..], p, lba, sectors, buffer)
              else cache[..] == old(cache[..])
      ensures !c.goneDuring ==> Now() == old(Now())
      ensures c == UNDISTURBED && lba + sectors <= old(|Stored(Now(), p)|) ==> ok || sectors == 0
    {
      hide Coherent, Identified, UniqueKeys, Dated, Live, DescOf, HasKey, Served;
      buffer := [];
      var d := Descriptor(p);
      if !c.succeeds || !Backed(stores, d) || lba + sectors > d.count {
        return false, buffer;
      }
      buffer := stores[d.store][d.first..d.first + d.count][lba..lba + sectors];
      ok := StaysLive(p, c);
      if ok {
        Keep(p, lba, sectors, buffer);
      }
    }

    /** Enter what was read in place of the victim, if it is small enough. */
    method Keep(p: Ptr, lba: nat, sectors: nat, buffer: seq<Sector>)
      requires Formed() && Live(Now(), p)
      requires Cacheable(DescOf(Now(), p), sectors) ==> !HasKey(cache[..], p, lba, sectors)
      modifies this`age, this`log, cache
      ensures Formed() && Calm(p)
      ensures ReadsRight(Now(), p, lba, sectors, buffer) ==> StaysRight()
      ensures if Cacheable(DescOf(Now(), p), sectors)
              then Served(old(cache[..]), old(log), cache[..], p, lba, sectors, buffer)
              else cache[..] == old(cache[..]) && log == old(log)
    {
      hide Coherent, Identified, UniqueKeys, Dated, Live, DescOf, Shrinks, Served;
      ShrinksSame(Now());
      if Cacheable(Descriptor(p), sectors) {
        var v := Victim();
        ghost var before := cache[..];
        var e := Entry(p, lba, sectors, age + 1, true, buffer);
        AnchoredIfLive(Now(), nextId, p);
        Use(v, e);
        MissServed(before, old(log), v, p, lba, sectors, buffer);
      }
    }

    /** Read from a partition: as from any device, except that its callback reads its
        parent, whose entries serve it too. */
    method ReadPartition(p: Ptr, parent: Ptr, lba: nat, sectors: nat, c: Circumstances, inner: Circumstances)
      returns (ok: bool, buffer: seq<Sector>)
      requires Formed() && p != parent && Within(DescOf(Now(), p), DescOf(Now(), parent))
      modifies this`age, this`log, cache, slots
      ensures Formed() && StaysRight() && Shrinks(old(Now()), Now())
      ensures ok ==> Live(Now(), p) && (old(Coherent(Now(), cache[..])) ==> ReadsRight(Now(), p, lba, sectors, buffer))
      ensures ok && Cacheable(old(DescOf(Now(), p)), sectors) ==> KeepsRead(cache[..], p, lba, sectors, buffer)
    {
      hide Coherent, Identified, UniqueKeys, Dated, Live, DescOf, ReadsRight, Shrinks, Stored, Within, Served,
        KeepsRead;
      buffer := [];
      var admitted := Admit(p, Descriptor(p).readable, c);
      ShrinksDesc(old(Now()), Now(), p);
      ShrinksDesc(old(Now()), Now(), parent);
      if !admitted {
        return false, buffer;
      }
      ghost var w := Now();
      if Cacheable(Descriptor(p), sectors) {
        var hit;
        hit, buffer := Lookup(p, lba, sectors);
        ShrinksTrans(old(Now()), w, Now());
        w := Now();
        if hit {
          ServedKept(old(cache[..]), old(log), cache[..], p, lba, sectors, buffer);
          ok := StaysLive(p, c);
          ShrinksTrans(old(Now()), w, Now());
          ShrinksReads(w, Now(), p, lba, sectors, buffer);
          return;
        }
      }
      ok, buffer := ReadParent(p, parent, lba, sectors, c, inner);
      ShrinksTrans(old(Now()), w, Now());
    }

    /** The part of a partition's read that reaches its parent. */
    method ReadParent(p: Ptr, parent: Ptr, lba: nat, sectors: nat, c: Circumstances, inner: Circumstances)
      returns (ok: bool, buffer: seq<Sector>)
      requires Formed() && p != parent && Within(DescOf(Now(), p), DescOf(Now(), parent))
      requires Cacheable(DescOf(Now(), p), sectors) ==> !HasKey(cache[..], p, lba, sectors)
      modifies this`age, this`log, cache, slots
      ensures Formed() && StaysRight() && Shrinks(old(Now()), Now())
      ensures ok ==> Live(Now(), p) && (old(Coherent(Now(), cache[..])) ==> ReadsRight(Now(), p, lba, sectors, buffer))
      ensures ok && Cacheable(old(DescOf(Now(), p)), sectors) ==> KeepsRead(cache[..], p, lba, sectors, buffer)
    {
      hide Coherent, Identified, UniqueKeys, Dated, Live, DescOf, ReadsRight, Shrinks, Stored, Served, KeepsRead;
      buffer := [];
      var d, q := Descriptor(p), Descriptor(parent);
      ShrinksSame(Now());
      if lba + sectors > d.count {
        return false, buffer;
      }
      ok, buffer := Read(parent, d.first - q.first + lba, sectors, inner);
      if !ok {
        return;
      }
      ShrinksDesc(old(Now()), Now(), p);
      ShrinksDesc(old(Now()), Now(), parent);
      if ReadsRight(Now(), parent, d.first - q.first + lba, sectors, buffer) {
        WindowReads(Now(), p, parent, lba, sectors, buffer);
      }
      ghost var w := Now();
      ok := StaysLive(p, c);
      ShrinksTrans(old(Now()), w, Now());
      ShrinksDesc(w, Now(), p);
      ShrinksReads(w, Now(), p, lba, sectors, buffer);
      if ok {
        w := Now();
        if Cacheable(d, sectors) {
          OthersKeys(old(cache[..]), cache[..], p, parent, lba, sectors);
        }
        ghost var entries, uses := cache[..], log;
        Keep(p, lba, sectors, buffer);
        ShrinksTrans(old(Now()), w, Now());
        ShrinksReads(w, Now(), p, lba, sectors, buffer);
        if Cacheable(d, sectors) {
          ServedKept(entries, uses, cache[..], p, lba, sectors, buffer);
        }
      }
    }

    /** Drop every entry of the device that the range may touch. */
    method Invalidate(p: Ptr, lba: nat, sectors: nat)
      requires cache.Length == ENTRIES
      modifies cache
      ensures cache[..] == AfterInvalidation(old(cache[..]), p, lba, sectors)
    {
      for i := 0 to ENTRIES
        invariant forall j :: 0 <= j < ENTRIES ==>
                    cache[j] == if j < i && Overlaps(old(cache[j]), p, lba, sectors)
                      then old(cache[j]).(valid := false) else old(cache[j])
      {
        if Overlaps(cache[i], p, lba, sectors) {
          cache[i] := cache[i].(valid := false);
        }
      }
    }

    /** Write sectors. Whether the callback succeeds or fails half way, leaving
        `after`, no entry that stays valid becomes wrong, given that no live entry
        of another descriptor holds a sector of the range. */
    method Write(p: Ptr, lba: nat, data: seq<Sector>, c: Circumstances, after: seq<Sector>) returns (ok: bool)
      requires Formed()
      requires DescOf(Now(), p).store in stores ==>
                 MayBecome(stores[DescOf(Now(), p).store], after, DescOf(Now(), p).first + lba, data, c.succeeds)
      modifies this`stores, cache, slots
      ensures Formed() && Dims(old(Now()), Now()) && (ok ==> Live(Now(), p) && c.succeeds)
      ensures !c.goneBefore && !c.goneDuring ==> slots[..] == old(slots[..])
      ensures old(!Exposed(Now(), cache[..], DescOf(Now(), p).store, DescOf(Now(), p).first + lba, |data|, p)) ==>
                StaysRight()
      ensures var d := old(DescOf(Now(), p));
              && (ok ==> d.store in old(stores) && Changed(p, lba, |data|, after))
              && (Changed(p, lba, |data|, after) || (stores == old(stores) && cache[..] == old(cache[..])))
              && (c == UNDISTURBED && old(Live(Now(), p)) && d.writable && !d.readOnly && d.store in old(stores) ==> ok)
    {
      hide Coherent, Identified, UniqueKeys, Dated, Live, DescOf, Exposed, MayBecome, Shrinks, Dims, AfterInvalidation;
      var d := Descriptor(p);
      ghost var w := Now();
      var admitted := Admit(p, d.writable && !d.readOnly, c);
      ShrinksDesc(w, Now(), p);
      ShrinksDims(w, Now());
      if !admitted {
        return false;
      }
      NotExposedLater(w, Now(), cache[..], d.store, d.first + lba, |data|, p);
      ok := c.succeeds && d.store in stores;
      ghost var before := Now();
      Change(p, lba, data, c.succeeds, after);
      ghost var changed := Now();
      var live := StaysLive(p, c);
      ChangeDims(w, before, changed, Now(), p);
      ok := ok && live;
    }

    /** The entries of the range went, and the store holds what the callback left. */
    twostate predicate Changed(p: Ptr, lba: nat, sectors: nat, after: seq<Sector>)
      reads this, cache, slots
    {
      var s := old(DescOf(Now(), p)).store;
      && stores == (if s in old(stores) then old(stores)[s := after] else old(stores))
      && cache[..] == AfterInvalidation(old(cache[..]), p, lba, sectors)
    }

    /** Drop the entries of the range, then let the callback change the store. */
    method Change(p: Ptr, lba: nat, data: seq<Sector>, succeeds: bool, after: seq<Sector>)
      requires Formed()
      requires DescOf(Now(), p).store in stores ==>
                 MayBecome(stores[DescOf(Now(), p).store], after, DescOf(Now(), p).first + lba, data, succeeds)
      modifies this`stores, cache
      ensures Formed() && Changed(p, lba, |data|, after)
      ensures old(!Exposed(Now(), cache[..], DescOf(Now(), p).store, DescOf(Now(), p).first + lba, |data|, p)) ==>
                StaysRight()
    {
      hide Coherent, Identified, UniqueKeys, Dated, Live, DescOf, Exposed, MayBecome;
      var d := Descriptor(p);
      ghost var w, entries := Now(), cache[..];
      InvalidationKeeps(entries, log, p, lba, |data|);
      if Coherent(w, entries) {
        InvalidationCoherent(w, entries, p, lba, |data|);
      }
      Invalidate(p, lba, |data|);
      if d.store in stores {
        if Coherent(w, entries) && !Exposed(w, entries, d.store, d.first + lba, |data|, p) {
          WriteCoherent(w, entries, p, lba, data, after, succeeds);
        }
        stores := stores[d.store := after];
        assert Now() == WithStore(w, d.store, after);
        SameIdentified(w, Now(), nextId);
      }
    }

    /** Write to a partition: its entries are dropped, then its callback writes its parent,
        which drops the parent's. */
    method WritePartition(p: Ptr, parent: Ptr, lba: nat, data: seq<Sector>, c: Circumstances, inner: Circumstances,
                          after: seq<Sector>)
      returns (ok: bool)
      requires Formed() && p != parent && Within(DescOf(Now(), p), DescOf(Now(), parent))
      requires DescOf(Now(), p).store in stores ==>
                 MayBecome(stores[DescOf(Now(), p).store], after, DescOf(Now(), p).first + lba, data, inner.succeeds)
      modifies this`stores, cache, slots
      ensures Formed()
      ensures old(!ExposedBeyond(Now(), cache[..], DescOf(Now(), p), lba, |data|, p, parent)) ==> StaysRight()
      ensures ok ==> Live(Now(), p) && old(DescOf(Now(), p)).store in old(stores) && inner.succeeds
                     && stores == old(stores)[old(DescOf(Now(), p)).store := after]
    {
      hide Coherent, Identified, UniqueKeys, Dated, Live, DescOf, Exposed, MayBecome, ExposedBeyond, Shrinks, Dims;
      var d, q := Descriptor(p), Descriptor(parent);
      ghost var w := Now();
      var admitted := Admit(p, d.writable && !d.readOnly, c);
      if !admitted {
        return false;
      }
      ShrinksDesc(w, Now(), p);
      ShrinksDesc(w, Now(), parent);
      ghost var entries := cache[..];
      if !ExposedBeyond(w, entries, d, lba, |data|, p, parent) {
        DroppedUnexposed(w, Now(), entries, p, parent, lba, |data|);
      }
      InvalidationKeeps(entries, log, p, lba, |data|);
      if Coherent(Now(), entries) {
        InvalidationCoherent(Now(), entries, p, lba, |data|);
      }
      Invalidate(p, lba, |data|);
      if lba + |data| > d.count {
        return false;
      }
      ok := Write(parent, d.first - q.first + lba, data, inner, after);
      var live := StaysLive(p, c);
      ok := ok && live;
    }
  }

  // ----- two runs that end in a wrong answer -----

  /** A disk of one sector. */
  const DISK := Desc(0, 512, 0, 0, 1, true, true, false, false)

  /** The registry has that disk as its only live device, under the given ID in the given slot. */
  ghost predicate Plugged(w: World, id: nat, k: nat, sector: Sector) {
    var d := DISK.(id := id, registered := true);
    && k < |w.slots| == MAX_DEVICES && w.slots[k] == Registration(d, true, 0)
    && (forall j :: 0 <= j < |w.slots| && j != k ==> !w.slots[j].online)
    && (forall j :: k < j < |w.slots| ==> w.slots[j] == FREE)
    && w.sources == map[0 := d] && w.stores == map[0 := [sector]]
  }

  lemma PluggedReads(w: World, id: nat, k: nat, sector: Sector)
    requires Plugged(w, id, k, sector)
    ensures DescOf(w, Source(0)) == DescOf(w, Slot(k)) == DISK.(id := id, registered := true)
    ensures Live(w, Source(0)) && Live(w, Slot(k)) && Stored(w, Source(0)) == [sector] && Readable(w, Source(0), 0, 1)
  {
    assert Holds(w.slots[k], id) && w.slots[k].online;
  }

  /** The disk is registered and its sector read through the driver's descriptor. */
  method PlugAndRead(sector: Sector) returns (layer: BlockLayer)
    ensures fresh(layer) && fresh(layer.cache) && fresh(layer.slots) && layer.Valid() && layer.nextId == 1
    ensures Plugged(layer.Now(), 0, 0, sector) && KeepsRead(layer.cache[..], Source(0), 0, 1, [sector])
  {
    hide Coherent, Identified, UniqueKeys, Dated, Live, DescOf, Served, ReadsRight, Stored, Remains, AllMatch,
         Shrinks, Readable, KeepsRead, HasKey;
    layer := new BlockLayer(map[0 := DISK], map[0 := [sector]]);
    ghost var w := layer.Now();
    NoneRemains(w, 0);
    assert !layer.slots[0].desc.registered;
    var registered := layer.Register(0);
    PluggedFirst(w, layer.Now(), sector);
    PluggedReads(layer.Now(), 0, 0, sector);
    ghost var before, log := layer.cache[..], layer.log;
    var ok, buffer := layer.Read(Source(0), 0, 1, UNDISTURBED);
    ReadsSector(layer.Now(), 0, 0, sector, buffer);
    ServedKept(before, log, layer.cache[..], Source(0), 0, 1, buffer);
  }

  lemma NoneRemains(w: World, n: nat)
    requires forall k :: 0 <= k < |w.slots| ==> w.slots[k] == FREE
    ensures !Remains(w, n)
  {
  }

  lemma PluggedFirst(w: World, w': World, sector: Sector)
    requires |w.slots| == MAX_DEVICES && forall k :: 0 <= k < |w.slots| ==> w.slots[k] == FREE
    requires w.sources == map[0 := DISK] && w.stores == map[0 := [sector]]
    requires exists k :: FirstFree(w.slots, k) && w' == Joined(w, 0, k, 0)
    ensures Plugged(w', 0, 0, sector)
  {
    var k :| FirstFree(w.slots, k) && w' == Joined(w, 0, k, 0);
    assert w.slots[0] == FREE;
  }

  lemma ReadsSector(w: World, id: nat, k: nat, sector: Sector, buffer: seq<Sector>)
    requires Plugged(w, id, k, sector) && ReadsRight(w, Source(0), 0, 1, buffer)
    ensures buffer == [sector]
  {
    PluggedReads(w, id, k, sector);
  }

  /** A disk read through its driver's descriptor, as partitions read their parent, and written
      through its slot in the registry, as requests by ID do, is read again as it was before. */
  method AliasRun(was: Sector, becomes: Sector) returns (layer: BlockLayer, ok: bool, buffer: seq<Sector>)
    ensures fresh(layer) && ok && Live(layer.Now(), Source(0)) && Stored(layer.Now(), Source(0)) == [becomes]
    ensures buffer == [was]
  {
    hide Coherent, Identified, UniqueKeys, Dated, Live, DescOf, Served, ReadsRight, Stored, Remains, AllMatch,
         Shrinks, Readable, KeepsRead, HasKey, Exposed, MayBecome, Dims;
    layer := PlugAndRead(was);
    PluggedReads(layer.Now(), 0, 0, was);
    Overwrites(was, becomes);
    ghost var entries := layer.cache[..];
    var written := layer.Write(Slot(0), 0, [becomes], UNDISTURBED, [becomes]);
    KeptByOther(entries, Slot(0), 0, 1, Source(0), 0, 1, [was]);
    PluggedReads(layer.Now(), 0, 0, becomes);
    ghost var before, log := layer.cache[..], layer.log;
    ok, buffer := layer.Read(Source(0), 0, 1, UNDISTURBED);
    AnsweredFromCache(before, log, layer.cache[..], Source(0), 0, 1, [was], buffer);
  }

  lemma Overwrites(was: Sector, becomes: Sector)
    ensures MayBecome([was], [becomes], 0, [becomes], true)
  {
  }

  lemma KeptByOther(cache: Cache, q: Ptr, at: nat, n: nat, p: Ptr, lba: nat, sectors: nat, buffer: seq<Sector>)
    requires KeepsRead(cache, p, lba, sectors, buffer) && q != p
    ensures KeepsRead(AfterInvalidation(cache, q, at, n), p, lba, sectors, buffer)
  {
    var i :| 0 <= i < |cache| && SameKey(cache[i], p, lba, sectors) && cache[i].data == buffer;
    assert AfterInvalidation(cache, q, at, n)[i] == cache[i];
  }

  /** A request the cache has an entry for is answered with its data. */
  lemma AnsweredFromCache(before: Cache, log: seq<nat>, after: Cache, p: Ptr, lba: nat, sectors: nat,
                          data: seq<Sector>, buffer: seq<Sector>)
    requires UniqueKeys(before) && KeepsRead(before, p, lba, sectors, data)
    requires Served(before, log, after, p, lba, sectors, buffer)
    ensures buffer == data
  {
    var i :| 0 <= i < |before| && SameKey(before[i], p, lba, sectors) && before[i].data == data;
    var v :| 0 <= v < |before| && ServedAt(before, log, after, v, p, lba, sectors, buffer);
    KeysApart(before, i);
  }

  /** A stick is pulled out during a request: its instance goes but stays in the registry. The
      driver refills the same descriptor for the next stick and registers it again: reads
      return what the first one held. */
  method ReplugRun(was: Sector, becomes: Sector) returns (layer: BlockLayer, ok: bool, buffer: seq<Sector>)
    ensures fresh(layer) && ok && Live(layer.Now(), Source(0)) && Stored(layer.Now(), Source(0)) == [becomes]
    ensures buffer == [was]
  {
    hide Coherent, Identified, UniqueKeys, Dated, Live, DescOf, Served, ReadsRight, Stored, Remains, AllMatch,
         Shrinks, Readable, KeepsRead, HasKey, Unused;
    layer := PlugAndRead(was);
    ghost var w := layer.Now();
    var gone := layer.MarkGone(0);
    layer.Outside(0, [becomes]);
    layer.Refill(0, DISK);
    ghost var v := layer.Now();
    assert v.stores == map[0 := [becomes]] && v.sources == map[0 := DISK];
    assert !layer.slots[1].desc.registered;
    var registered := layer.Register(0);
    PluggedAgain(v, layer.Now(), becomes);
    PluggedReads(layer.Now(), 1, 1, becomes);
    ghost var before, log := layer.cache[..], layer.log;
    ok, buffer := layer.Read(Source(0), 0, 1, UNDISTURBED);
    AnsweredFromCache(before, log, layer.cache[..], Source(0), 0, 1, [was], buffer);
  }

  lemma PluggedAgain(w: World, w': World, sector: Sector)
    requires |w.slots| == MAX_DEVICES && w.slots[0].desc.registered && !w.slots[0].online
    requires forall k :: 1 <= k < |w.slots| ==> w.slots[k] == FREE
    requires w.sources == map[0 := DISK] && w.stores == map[0 := [sector]]
    requires exists k :: FirstFree(w.slots, k) && w' == Joined(w, 0, k, 1)
    ensures Plugged(w', 1, 1, sector)
  {
    var k :| FirstFree(w.slots, k) && w' == Joined(w, 0, k, 1);
    assert w.slots[1] == FREE;
  }

  // ----- what the methods rest on -----

  /** The registry and the drivers' descriptors are the same, except that instances may have gone. */
  ghost predicate Shrinks(w: World, w': World) {
    && w'.stores == w.stores && w'.sources == w.sources
    && forall p: Ptr :: DescOf(w', p) == DescOf(w, p) && (Live(w', p) ==> Live(w, p))
  }

  ghost predicate Dims(w: World, w': World) {
    forall p: Ptr :: DescOf(w', p) == DescOf(w, p) && (Live(w', p) ==> Live(w, p))
  }

  lemma ShrinksDims(w: World, w': World)
    requires Shrinks(w, w')
    ensures Dims(w, w')
  {
    hide DescOf, Live;
  }

  /** Instances go, a store changes, more instances go. */
  lemma ChangeDims(w: World, before: World, changed: World, w': World, p: Ptr)
    requires Shrinks(w, before) && changed.slots == before.slots && changed.sources == before.sources
    requires Shrinks(changed, w')
    ensures Dims(w, w') && (Live(before, p) <==> Live(changed, p))
  {
    hide DescOf, Live;
    SameDims(before, changed);
  }

  lemma SameDims(w: World, w': World)
    requires w'.slots == w.slots && w'.sources == w.sources
    ensures forall p: Ptr :: DescOf(w', p) == DescOf(w, p) && Live(w', p) == Live(w, p)
  {
    hide Live;
    forall p: Ptr ensures DescOf(w', p) == DescOf(w, p) && Live(w', p) == Live(w, p) {
      SameDescs(w, w', p);
    }
  }

  ghost predicate ReadsRight(w: World, p: Ptr, lba: nat, sectors: nat, buffer: seq<Sector>) {
    lba + sectors <= |Stored(w, p)| && buffer == Stored(w, p)[lba..lba + sectors]
  }

  ghost predicate Readable(w: World, p: Ptr, lba: nat, sectors: nat) {
    Live(w, p) && DescOf(w, p).readable && lba + sectors <= |Stored(w, p)|
  }

  /** A partition lies in its parent. */
  predicate Within(d: Desc, parent: Desc) {
    d.store == parent.store && parent.first <= d.first && d.first + d.count <= parent.first + parent.count
  }

  /** A live entry of a third descriptor holds a sector of the range. */
  ghost predicate ExposedBeyond(w: World, cache: Cache, d: Desc, lba: nat, n: nat, p: Ptr, parent: Ptr) {
    n >= 1 && exists i :: 0 <= i < |cache| && cache[i].device != p && cache[i].device != parent
                          && Reaches(w, cache[i], d.store, d.first + lba, n)
  }

  lemma WindowReads(w: World, p: Ptr, parent: Ptr, lba: nat, sectors: nat, buffer: seq<Sector>)
    requires Within(DescOf(w, p), DescOf(w, parent)) && lba + sectors <= DescOf(w, p).count
    requires ReadsRight(w, parent, DescOf(w, p).first - DescOf(w, parent).first + lba, sectors, buffer)
    ensures ReadsRight(w, p, lba, sectors, buffer)
  {
    hide DescOf, ReadsRight;
    ReadsStore(w, p, lba, sectors, buffer);
    ReadsStore(w, parent, DescOf(w, p).first - DescOf(w, parent).first + lba, sectors, buffer);
  }

  /** Reading a device right is reading its store right. */
  lemma ReadsStore(w: World, p: Ptr, lba: nat, sectors: nat, buffer: seq<Sector>)
    ensures var d := DescOf(w, p);
            ReadsRight(w, p, lba, sectors, buffer) <==>
            if Backed(w.stores, d)
            then lba + sectors <= d.count && buffer == w.stores[d.store][d.first + lba..d.first + lba + sectors]
            else lba == 0 && sectors == 0 && buffer == []
  {
    hide DescOf;
    var d := DescOf(w, p);
    if Backed(w.stores, d) && lba + sectors <= d.count {
      SliceOfSlice(w.stores[d.store], d.first, d.count, lba, sectors);
    }
  }

  lemma ShrinksReads(w: World, w': World, p: Ptr, lba: nat, sectors: nat, buffer: seq<Sector>)
    requires Shrinks(w, w')
    ensures ReadsRight(w', p, lba, sectors, buffer) <==> ReadsRight(w, p, lba, sectors, buffer)
  {
    hide DescOf, Live;
  }

  lemma ShrinksSame(w: World)
    ensures Shrinks(w, w)
  {
  }

  lemma ShrinksTrans(w: World, w': World, w'': World)
    requires Shrinks(w, w') && Shrinks(w', w'')
    ensures Shrinks(w, w'')
  {
    hide DescOf, Live;
  }

  lemma ShrinksDesc(w: World, w': World, p: Ptr)
    requires Shrinks(w, w')
    ensures DescOf(w', p) == DescOf(w, p) && w'.stores == w.stores && (Live(w', p) ==> Live(w, p))
  {
    hide DescOf, Live;
  }

  /** Once a partition's entries are dropped, only third descriptors could expose its parent's write. */
  lemma DroppedUnexposed(w: World, w': World, cache: Cache, p: Ptr, parent: Ptr, lba: nat, n: nat)
    requires Shrinks(w, w') && Within(DescOf(w, p), DescOf(w, parent)) && p != parent
    requires !ExposedBeyond(w, cache, DescOf(w, p), lba, n, p, parent)
    ensures !Exposed(w', AfterInvalidation(cache, p, lba, n), DescOf(w, p).store, DescOf(w, p).first + lba, n, parent)
  {
    hide DescOf, Live;
    var d := DescOf(w, p);
    var cache' := AfterInvalidation(cache, p, lba, n);
    forall i | 0 <= i < |cache'| && cache'[i].device != parent && n >= 1
      ensures !Reaches(w', cache'[i], d.store, d.first + lba, n) {
      assert DescOf(w', cache[i].device) == DescOf(w, cache[i].device);
      assert Reaches(w', cache[i], d.store, d.first + lba, n) ==> Reaches(w, cache[i], d.store, d.first + lba, n);
    }
  }

  lemma KeysApart(cache: Cache, i: nat)
    requires UniqueKeys(cache) && i < |cache| && cache[i].valid
    ensures forall j :: 0 <= j < |cache| && j != i ==>
            !SameKey(cache[j], cache[i].device, cache[i].lba, cache[i].sectors)
  {
  }

  lemma JoinsLive(w: World, n: nat, k: nat, id: nat)
    requires n in w.sources && k < |w.slots|
    ensures Live(Joined(w, n, k, id), Source(n))
  {
    var w' := Joined(w, n, k, id);
    assert Holds(w'.slots[k], id) && w'.slots[k].online;
  }

  /** What registering does, in one place. */
  lemma Joins(w: World, cache: Cache, n: nat, k: nat, id: nat)
    requires Identified(w, id) && n in w.sources && k < |w.slots| && !w.slots[k].desc.registered
    ensures Identified(Joined(w, n, k, id), id + 1) && Live(Joined(w, n, k, id), Source(n))
    ensures Coherent(w, cache) ==>
              && (Coherent(Joined(w, n, k, id), cache) <==> AllMatch(w, cache, Source(n)))
              && (!Remains(w, n) ==> AllMatch(w, cache, Source(n)))
  {
    hide Coherent, Identified, AllMatch, Live, Remains;
    JoinIdentified(w, n, k, id);
    JoinsLive(w, n, k, id);
    if Coherent(w, cache) {
      JoinCoherentExactly(w, cache, n, k, id);
      if !Remains(w, n) {
        NoneWrong(w, cache, Source(n));
      }
    }
  }

  /** Taking the answer from the entry that has it. */
  lemma HitServed(before: Cache, log: seq<nat>, i: nat, p: Ptr, lba: nat, sectors: nat)
    requires i < |before| && SameKey(before[i], p, lba, sectors)
    ensures Served(before, log, before[i := before[i].(age := |log| + 1)], p, lba, sectors, before[i].data)
  {
    assert ServedAt(before, log, before[i := before[i].(age := |log| + 1)], i, p, lba, sectors, before[i].data);
  }

  lemma HitRight(w: World, before: Cache, i: nat, e: Entry)
    requires i < |before| && before[i].valid && Live(w, before[i].device) && e == before[i].(age := e.age)
    ensures Coherent(w, before) ==> EntryOk(w, e) && ReadsRight(w, e.device, e.lba, e.sectors, e.data)
  {
    hide Live, Anchored, DescOf;
    assert Coherent(w, before) ==> EntryOk(w, before[i]);
  }

  /** Entering the answer in place of the victim. */
  lemma MissServed(before: Cache, log: seq<nat>, v: nat, p: Ptr, lba: nat, sectors: nat, buffer: seq<Sector>)
    requires IsVictim(before, log, v) && !HasKey(before, p, lba, sectors)
    ensures Served(before, log, before[v := Entry(p, lba, sectors, |log| + 1, true, buffer)], p, lba, sectors, buffer)
  {
    assert ServedAt(before, log, before[v := Entry(p, lba, sectors, |log| + 1, true, buffer)], v, p, lba, sectors,
                    buffer);
  }

  lemma ServedKept(before: Cache, log: seq<nat>, after: Cache, p: Ptr, lba: nat, sectors: nat, buffer: seq<Sector>)
    requires Served(before, log, after, p, lba, sectors, buffer)
    ensures KeepsRead(after, p, lba, sectors, buffer)
  {
    var v :| 0 <= v < |before| && ServedAt(before, log, after, v, p, lba, sectors, buffer);
    assert SameKey(after[v], p, lba, sectors) && after[v].data == buffer;
  }

  lemma OthersKeys(before: Cache, after: Cache, p: Ptr, parent: Ptr, lba: nat, sectors: nat)
    requires |after| == |before| && p != parent && !HasKey(before, p, lba, sectors)
    requires forall j :: 0 <= j < |before| ==> after[j] == before[j] || after[j].device == parent
    ensures !HasKey(after, p, lba, sectors)
  {
  }

  lemma EmptyCache(w: World, cache: Cache)
    requires forall i :: 0 <= i < |cache| ==> cache[i] == EMPTY
    ensures Coherent(w, cache) && UniqueKeys(cache) && Dated(cache, [])
  {
  }

  lemma SameIdentified(w: World, w': World, nextId: nat)
    requires Identified(w, nextId) && w'.slots == w.slots && w'.sources == w.sources
    ensures Identified(w', nextId)
  {
  }

  /** A descriptor of which no instance is left, or which is live, has no wrong entries. */
  lemma NoneWrong(w: World, cache: Cache, p: Ptr)
    requires Coherent(w, cache) && (!Anchored(w, p) || Live(w, p))
    ensures AllMatch(w, cache, p)
  {
    hide Live, Anchored, Matches;
    forall i | 0 <= i < |cache| && cache[i].valid && cache[i].device == p ensures Matches(w, cache[i]) {
      assert EntryOk(w, cache[i]);
    }
  }

  lemma LiveSlot(w: World, nextId: nat, id: nat, k: nat)
    requires Identified(w, nextId) && (k < |w.slots| ==> Holds(w.slots[k], id))
             && (k < |w.slots| <==> Registered(w, id))
    ensures IdLive(w, id) <==> k < |w.slots| && w.slots[k].online
  {
    if IdLive(w, id) {
      var j :| 0 <= j < |w.slots| && Holds(w.slots[j], id) && w.slots[j].online;
      assert j == k;
    }
  }

  lemma GoneFor(w: World, nextId: nat, id: nat, k: nat)
    requires Identified(w, nextId) && k < |w.slots| && Holds(w.slots[k], id)
    ensures Identified(Silenced(w, k), nextId) && !IdLive(Silenced(w, k), id)
  {
    var w' := Silenced(w, k);
    assert forall j :: 0 <= j < |w.slots| ==> w'.slots[j].desc == w.slots[j].desc;
    forall j | 0 <= j < |w'.slots| && Holds(w'.slots[j], id) ensures j == k {
      assert Holds(w.slots[j], id);
    }
  }

  lemma OneHolds(w: World, nextId: nat, id: nat, k: nat)
    requires Identified(w, nextId) && k < |w.slots| && Holds(w.slots[k], id)
    ensures forall j :: 0 <= j < |w.slots| ==> (Holds(w.slots[j], id) <==> j == k)
  {
    forall j | 0 <= j < |w.slots| && Holds(w.slots[j], id) ensures j == k {
      assert Holds(w.slots[j], w.slots[k].desc.id);
    }
  }

  lemma NoneHolds(w: World, id: nat)
    requires !Registered(w, id)
    ensures !IdLive(w, id) && forall j :: 0 <= j < |w.slots| ==> !Holds(w.slots[j], id)
  {
  }

  lemma AnchoredIfLive(w: World, nextId: nat, p: Ptr)
    requires Identified(w, nextId) && Live(w, p)
    ensures Anchored(w, p)
  {
    var k :| 0 <= k < |w.slots| && Holds(w.slots[k], DescOf(w, p).id) && w.slots[k].online;
    assert p.Source? ==> CopyOf(w.slots[k], p.n);
  }

  lemma NotExposedLater(w: World, w': World, cache: Cache, s: nat, at: nat, n: nat, p: Ptr)
    requires Shrinks(w, w')
    ensures !Exposed(w, cache, s, at, n, p) ==> !Exposed(w', cache, s, at, n, p)
  {
    hide Live, DescOf;
    if n >= 1 {
      forall i | 0 <= i < |cache| && Reaches(w', cache[i], s, at, n) ensures Reaches(w, cache[i], s, at, n) {
      }
    }
  }

  /** Clearing a slot leaves the other instances identified. */
  lemma Cleared(w: World, w': World, nextId: nat, id: nat, k: nat)
    requires Identified(w, nextId) && k < |w.slots| && Holds(w.slots[k], id) && w'.sources == w.sources
    requires w'.slots == w.slots[k := FREE]
    ensures Identified(w', nextId) && !Registered(w', id)
  {
    forall j | 0 <= j < |w'.slots| ensures !Holds(w'.slots[j], id) {
      assert Holds(w.slots[j], w.slots[k].desc.id) ==> j == k;
    }
  }
}
