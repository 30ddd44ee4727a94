/** Directory payloads: packed entries that behave as a finite map from live
    names to record IDs, for the updater and for the boot reader alike. */
module MgfsDirectory {
  import opened Options
  import opened MgfsBytes
  import opened MgfsImage

  type Name = seq<byte>
  type Raw = seq<byte>

  const LIVE: u64 := 1
  const TOMBSTONE: u64 := 2

  // ----- entries as byte strings -----

  /** The aligned size of an entry with an n-byte name. */
  function EntrySize(n: nat): (s: nat)
    ensures 32 + n <= s < 32 + n + 8 && s % 8 == 0
  {
    (32 + n + 7) / 8 * 8
  }

  predicate RawOk(raw: Raw) {
    |raw| >= 32 && U64(raw, 8) >= 1 && |raw| == EntrySize(U64(raw, 8))
  }

  function NameOf(raw: Raw): Name
    requires RawOk(raw)
  {
    raw[32..32 + U64(raw, 8)]
  }

  function IdOf(raw: Raw): u64
    requires RawOk(raw)
  {
    U64(raw, 0)
  }

  predicate IsLive(raw: Raw)
    requires RawOk(raw)
  {
    U64(raw, 16) == LIVE
  }

  /** Cut a payload into its entries; an error for a truncated or empty-named entry. */
  function Split(p: seq<byte>): (r: Result<seq<Raw>>)
    ensures r.Ok? ==> forall i :: 0 <= i < |r.value| ==> RawOk(r.value[i])
    decreases |p|
  {
    if p == [] then Ok([])
    else if |p| < 32 || U64(p, 8) == 0 || EntrySize(U64(p, 8)) > |p| then Err
    else
      var size := EntrySize(U64(p, 8));
      var rest := Split(p[size..]);
      if rest.Err? then Err else HeadEntry(p); Ok([p[..size]] + rest.value)
  }

  lemma HeadEntry(p: seq<byte>)
    requires |p| >= 32 && U64(p, 8) >= 1 && EntrySize(U64(p, 8)) <= |p|
    ensures RawOk(p[..EntrySize(U64(p, 8))])
  {
    var raw := p[..EntrySize(U64(p, 8))];
    assert raw[8..16] == p[8..16];
  }

  function Flatten(rs: seq<Raw>): seq<byte> {
    if rs == [] then [] else rs[0] + Flatten(rs[1..])
  }

  predicate AllOk(rs: seq<Raw>) {
    forall i :: 0 <= i < |rs| ==> RawOk(rs[i])
  }

  lemma {:induction false} FlattenSplit(p: seq<byte>)
    requires Split(p).Ok?
    ensures Flatten(Split(p).value) == p && AllOk(Split(p).value)
    decreases |p|
  {
    if p != [] {
      var size := EntrySize(U64(p, 8));
      FlattenSplit(p[size..]);
      assert p == p[..size] + p[size..];
    }
  }

  /** Packed entries are cut exactly where they were joined. */
  lemma {:induction false} SplitFlatten(rs: seq<Raw>)
    requires AllOk(rs)
    ensures Split(Flatten(rs)) == Ok(rs)
  {
    if rs != [] {
      SplitFlatten(rs[1..]);
      var p := Flatten(rs);
      assert p[8..16] == rs[0][8..16];
      assert U64(p, 8) == U64(rs[0], 8);
      assert p[..|rs[0]|] == rs[0] && p[|rs[0]|..] == Flatten(rs[1..]);
      assert rs == [rs[0]] + rs[1..];
    }
  }

  lemma FlattenHead(rs: seq<Raw>)
    requires rs != []
    ensures Flatten(rs) == rs[0] + Flatten(rs[1..])
  {
  }

  lemma HeadOfConcat(a: seq<Raw>, b: seq<Raw>)
    requires a != []
    ensures (a + b)[0] == a[0] && (a + b)[1..] == a[1..] + b
  {
  }

  lemma Associate<T>(a: seq<T>, b: seq<T>, c: seq<T>)
    ensures a + (b + c) == a + b + c
  {
  }

  lemma {:induction false} FlattenConcat(a: seq<Raw>, b: seq<Raw>)
    ensures Flatten(a + b) == Flatten(a) + Flatten(b)
  {
    if a == [] {
      assert a + b == b;
    } else {
      hide Flatten;
      FlattenConcat(a[1..], b);
      FlattenHead(a);
      FlattenHead(a + b);
      HeadOfConcat(a, b);
      Associate(a[0], Flatten(a[1..]), Flatten(b));
    }
  }

  // ----- the map -----

  /** The first live entry with the name. */
  function Lookup(rs: seq<Raw>, name: Name): Option<u64>
    requires AllOk(rs)
  {
    if rs == [] then None
    else if IsLive(rs[0]) && NameOf(rs[0]) == name then Some(IdOf(rs[0]))
    else Lookup(rs[1..], name)
  }

  predicate Matches(raw: Raw, name: Name)
    requires RawOk(raw)
  {
    IsLive(raw) && NameOf(raw) == name
  }

  lemma {:induction false} LookupConcat(a: seq<Raw>, b: seq<Raw>, name: Name)
    requires AllOk(a) && AllOk(b)
    ensures AllOk(a + b)
    ensures Lookup(a + b, name) == if Lookup(a, name).Some? then Lookup(a, name) else Lookup(b, name)
  {
    if a == [] {
      assert a + b == b;
    } else {
      LookupConcat(a[1..], b, name);
      assert (a + b)[1..] == a[1..] + b;
    }
  }

  lemma {:induction false} LookupNone(rs: seq<Raw>, name: Name)
    requires AllOk(rs)
    ensures Lookup(rs, name) == None <==> forall i :: 0 <= i < |rs| ==> !Matches(rs[i], name)
  {
    if rs != [] {
      LookupNone(rs[1..], name);
      assert forall i :: 0 <= i < |rs[1..]| ==> rs[1..][i] == rs[i + 1];
      if Matches(rs[0], name) {
        assert Lookup(rs, name).Some?;
      } else {
        assert forall i :: 0 < i < |rs| ==> rs[i] == rs[1..][i - 1];
      }
    }
  }

  function LiveNames(rs: seq<Raw>): set<Name>
    requires AllOk(rs)
  {
    if rs == [] then {} else (if IsLive(rs[0]) then {NameOf(rs[0])} else {}) + LiveNames(rs[1..])
  }

  lemma {:induction false} LiveNamesLookup(rs: seq<Raw>, name: Name)
    requires AllOk(rs)
    ensures name in LiveNames(rs) <==> Lookup(rs, name).Some?
  {
    if rs != [] {
      LiveNamesLookup(rs[1..], name);
    }
  }

  /** The directory as a map from live names to record IDs. */
  ghost function MapOf(p: seq<byte>): map<Name, u64>
    requires Split(p).Ok?
  {
    var rs := Split(p).value;
    map name | name in LiveNames(rs) :: (LiveNamesLookup(rs, name); Lookup(rs, name).value)
  }

  lemma MapMember(p: seq<byte>, name: Name)
    requires Split(p).Ok?
    ensures name in MapOf(p) <==> Lookup(Split(p).value, name).Some?
    ensures name in MapOf(p) ==> MapOf(p)[name] == Lookup(Split(p).value, name).value
  {
    LiveNamesLookup(Split(p).value, name);
  }

  // ----- building entries -----

  /** The bytes of a live entry: header, name, zero padding, checksum at 24. */
  function EntryBytes(id: u64, name: Name): (raw: Raw)
    requires 1 <= |name| < 0x1_0000_0000_0000_0000
    ensures |raw| == EntrySize(|name|)
  {
    Checksummed(Words([id, |name|, LIVE, 0]) + name + Zeros(EntrySize(|name|) - 32 - |name|), 24)
  }

  /** The directory-entry checks of the boot reader. */
  predicate BootOk(raw: Raw) {
    && RawOk(raw) && U64(raw, 8) <= 255 && Checked(raw, 24)
    && (forall i :: 32 + U64(raw, 8) <= i < |raw| ==> raw[i] == 0)
    && (U64(raw, 16) == LIVE || U64(raw, 16) == TOMBSTONE)
  }

  lemma EntryHeader(id: u64, name: Name)
    requires 1 <= |name| < 0x1_0000_0000_0000_0000
    ensures var raw := EntryBytes(id, name);
            U64(raw, 0) == id && U64(raw, 8) == |name| && U64(raw, 16) == LIVE
  {
    hide Crc;
    var ws: seq<u64> := [id, |name|, LIVE, 0];
    var plain := Words(ws) + name + Zeros(EntrySize(|name|) - 32 - |name|);
    var crc := Crc(W64(plain, 24, 0));
    ReadAfterWrite(plain, 24, crc, 0);
    ReadAfterWrite(plain, 24, crc, 8);
    ReadAfterWrite(plain, 24, crc, 16);
    WordAt(ws, 0);
    WordAt(ws, 1);
    WordAt(ws, 2);
    assert plain[0..8] == Words(ws)[0..8];
    assert plain[8..16] == Words(ws)[8..16];
    assert plain[16..24] == Words(ws)[16..24];
  }

  lemma EntryTail(id: u64, name: Name)
    requires 1 <= |name| < 0x1_0000_0000_0000_0000
    ensures var raw := EntryBytes(id, name);
            && raw[32..32 + |name|] == name
            && forall i :: 32 + |name| <= i < |raw| ==> raw[i] == 0
  {
    hide Crc, Words;
    var plain := Words([id, |name| as u64, LIVE, 0]) + name + Zeros(EntrySize(|name|) - 32 - |name|);
    assert EntryBytes(id, name)[32..] == plain[32..];
    assert plain[32..32 + |name|] == name;
  }

  /** What is written as an entry reads back as that entry, and passes the boot reader's checks. */
  lemma EntryReads(id: u64, name: Name)
    requires 1 <= |name| < 0x1_0000_0000_0000_0000
    ensures var raw := EntryBytes(id, name);
            && RawOk(raw) && IdOf(raw) == id && NameOf(raw) == name && IsLive(raw)
            && (|name| <= 255 ==> BootOk(raw))
  {
    hide Crc, U64;
    EntryHeader(id, name);
    EntryTail(id, name);
    ChecksummedIsChecked(Words([id, |name| as u64, LIVE, 0]) + name + Zeros(EntrySize(|name|) - 32 - |name|), 24);
  }

  // ----- operations -----

  datatype Entry = Entry(offset: nat, size: nat, id: u64, flags: u64, name: Name)

  function EntryOf(raw: Raw, offset: nat): Entry
    requires RawOk(raw)
  {
    Entry(offset, |raw|, IdOf(raw), U64(raw, 16), NameOf(raw))
  }

  function EntriesOf(rs: seq<Raw>, offset: nat): (es: seq<Entry>)
    requires AllOk(rs)
    ensures |es| == |rs|
  {
    if rs == [] then [] else [EntryOf(rs[0], offset)] + EntriesOf(rs[1..], offset + |rs[0]|)
  }

  lemma {:induction false} EntryAt(rs: seq<Raw>, offset: nat, i: nat)
    requires AllOk(rs) && i < |rs|
    ensures EntriesOf(rs, offset)[i] == EntryOf(rs[i], offset + |Flatten(rs[..i])|)
    ensures |Flatten(rs[..i])| + |rs[i]| <= |Flatten(rs)|
    ensures Flatten(rs)[|Flatten(rs[..i])|..|Flatten(rs[..i])| + |rs[i]|] == rs[i]
  {
    EntryBytesAt(rs, i);
    EntryPlace(rs, offset, i);
  }

  /** Entry i of a payload begins behind the i entries before it. */
  lemma {:induction false} EntryBytesAt(rs: seq<Raw>, i: nat)
    requires i < |rs|
    ensures |Flatten(rs[..i])| + |rs[i]| <= |Flatten(rs)|
    ensures Flatten(rs)[|Flatten(rs[..i])|..|Flatten(rs[..i])| + |rs[i]|] == rs[i]
  {
    FlattenHead(rs);
    if i == 0 {
      assert rs[..0] == [];
    } else {
      EntryBytesAt(rs[1..], i - 1);
      FlattenHead(rs[..i]);
      hide Flatten;
      assert rs[..i][0] == rs[0] && rs[..i][1..] == rs[1..][..i - 1];
      SliceBehind(rs[0], Flatten(rs[1..]), |Flatten(rs[1..][..i - 1])|, |rs[i]|);
    }
  }

  lemma {:induction false} EntryPlace(rs: seq<Raw>, offset: nat, i: nat)
    requires AllOk(rs) && i < |rs|
    ensures EntriesOf(rs, offset)[i] == EntryOf(rs[i], offset + |Flatten(rs[..i])|)
  {
    hide U64;
    if i == 0 {
      assert rs[..0] == [];
    } else {
      EntryPlace(rs[1..], offset + |rs[0]|, i - 1);
      FlattenHead(rs[..i]);
      hide Flatten, RawOk, EntryOf;
      assert rs[..i][0] == rs[0] && rs[..i][1..] == rs[1..][..i - 1];
    }
  }

  lemma SliceBehind(head: seq<byte>, tail: seq<byte>, k: nat, n: nat)
    requires k + n <= |tail|
    ensures (head + tail)[|head| + k..|head| + k + n] == tail[k..k + n]
  {
  }

  /** Parse a payload into its entries, with their offsets. */
  method DirectoryEntries(payload: seq<byte>) returns (r: Result<seq<Entry>>)
    ensures r == if Split(payload).Err? then Err else Ok(EntriesOf(Split(payload).value, 0))
  {
    hide U64;
    var entries: seq<Entry>, offset := [], 0;
    ghost var done: seq<Raw> := [];
    assert payload[0..] == payload;
    assert Split(payload).Ok? ==> done + Split(payload).value == Split(payload).value;
    while offset < |payload|
      invariant 0 <= offset <= |payload| && AllOk(done) && offset == |Flatten(done)|
      invariant entries == EntriesOf(done, 0)
      invariant Split(payload) == Joined(done, Split(payload[offset..]))
      decreases |payload| - offset
    {
      var rest := payload[offset..];
      if |rest| < 32 || U64(rest, 8) == 0 || EntrySize(U64(rest, 8)) > |rest| {
        return Err;
      }
      var size := EntrySize(U64(rest, 8));
      HeadEntry(rest);
      var raw := rest[..size];
      SplitStep(rest, done);
      EntriesAppend(done, raw, 0);
      FlattenAppend(done, raw);
      entries := entries + [EntryOf(raw, offset)];
      done := done + [raw];
      assert payload[offset + size..] == rest[size..];
      offset := offset + size;
    }
    assert payload[offset..] == [];
    assert done + [] == done;
    r := Ok(entries);
  }

  function Joined(a: seq<Raw>, r: Result<seq<Raw>>): Result<seq<Raw>> {
    if r.Err? then Err else Ok(a + r.value)
  }

  lemma SplitStep(p: seq<byte>, done: seq<Raw>)
    requires |p| >= 32 && U64(p, 8) >= 1 && EntrySize(U64(p, 8)) <= |p|
    ensures var size := EntrySize(U64(p, 8));
            Joined(done, Split(p)) == Joined(done + [p[..size]], Split(p[size..]))
  {
    hide U64;
    var size := EntrySize(U64(p, 8));
    var rest := Split(p[size..]);
    if rest.Ok? {
      assert done + ([p[..size]] + rest.value) == done + [p[..size]] + rest.value;
    }
  }

  lemma {:induction false} EntriesAppend(rs: seq<Raw>, raw: Raw, offset: nat)
    requires AllOk(rs) && RawOk(raw)
    ensures AllOk(rs + [raw])
    ensures EntriesOf(rs + [raw], offset) == EntriesOf(rs, offset) + [EntryOf(raw, offset + |Flatten(rs)|)]
  {
    hide U64;
    if rs == [] {
      assert rs + [raw] == [raw];
      assert [raw][1..] == [];
    } else {
      EntriesAppend(rs[1..], raw, offset + |rs[0]|);
      assert (rs + [raw])[1..] == rs[1..] + [raw];
    }
  }

  lemma FlattenAppend(rs: seq<Raw>, raw: Raw)
    ensures Flatten(rs + [raw]) == Flatten(rs) + raw
  {
    FlattenConcat(rs, [raw]);
    assert [raw][1..] == [];
  }

  /** The first live entry with the name, if any. */
  method DirectoryFind(payload: seq<byte>, name: Name) returns (r: Result<Option<u64>>)
    ensures r == if Split(payload).Err? then Err else Ok(Lookup(Split(payload).value, name))
  {
    hide U64;
    var parsed := DirectoryEntries(payload);
    if parsed.Err? {
      return Err;
    }
    ghost var rs := Split(payload).value;
    assert rs[0..] == rs;
    for i := 0 to |parsed.value|
      invariant Lookup(rs, name) == Lookup(rs[i..], name)
    {
      EntryAt(rs, 0, i);
      assert rs[i..][1..] == rs[i + 1..];
      if parsed.value[i].flags == LIVE && parsed.value[i].name == name {
        return Ok(Some(parsed.value[i].id));
      }
    }
    return Ok(None);
  }

  /** The only live entry with the name is entry i. */
  ghost predicate OnlyMatch(rs: seq<Raw>, name: Name, i: nat)
    requires AllOk(rs)
  {
    i < |rs| && Matches(rs[i], name) && forall j :: 0 <= j < |rs| && j != i ==> !Matches(rs[j], name)
  }

  ghost predicate HasOnlyMatch(rs: seq<Raw>, name: Name)
    requires AllOk(rs)
  {
    exists i: nat :: OnlyMatch(rs, name, i)
  }

  /** Every entry but those live with the name, byte for byte. */
  function Without(rs: seq<Raw>, name: Name): (out: seq<Raw>)
    requires AllOk(rs)
    ensures AllOk(out)
  {
    if rs == [] then []
    else (if Matches(rs[0], name) then [] else [rs[0]]) + Without(rs[1..], name)
  }

  lemma WithoutHead(rs: seq<Raw>, name: Name)
    requires AllOk(rs) && rs != []
    ensures Without(rs, name) == (if Matches(rs[0], name) then [] else [rs[0]]) + Without(rs[1..], name)
  {
    hide Matches, RawOk;
  }

  lemma WithoutOne(raw: Raw, name: Name)
    requires RawOk(raw)
    ensures Without([raw], name) == if Matches(raw, name) then [] else [raw]
  {
    hide Matches, RawOk;
    assert [raw][1..] == [];
  }

  lemma {:induction false} WithoutAppend(rs: seq<Raw>, raw: Raw, name: Name)
    requires AllOk(rs) && RawOk(raw)
    ensures AllOk(rs + [raw])
    ensures Without(rs + [raw], name) == Without(rs, name) + (if Matches(raw, name) then [] else [raw])
  {
    hide U64, Matches, RawOk, Without;
    if rs == [] {
      assert rs + [raw] == [raw];
      WithoutOne(raw, name);
      WithoutNone(name);
      var kept := if Matches(raw, name) then [] else [raw];
      assert [] + kept == kept && Without(rs, name) == [];
    } else {
      WithoutAppend(rs[1..], raw, name);
      WithoutHead(rs, name);
      WithoutHead(rs + [raw], name);
      HeadOfConcat(rs, [raw]);
      Associate(if Matches(rs[0], name) then [] else [rs[0]], Without(rs[1..], name),
                if Matches(raw, name) then [] else [raw]);
    }
  }

  lemma {:induction false} LookupWithout(rs: seq<Raw>, name: Name, other: Name)
    requires AllOk(rs)
    ensures Lookup(Without(rs, name), other) == if other == name then None else Lookup(rs, other)
  {
    hide U64;
    if rs != [] {
      LookupWithout(rs[1..], name, other);
      if !Matches(rs[0], name) {
        assert Without(rs, name)[1..] == Without(rs[1..], name);
      } else {
        assert Without(rs, name) == Without(rs[1..], name);
      }
    }
  }

  /** Remove one live entry, preserving all other directory bytes; refused when
      the name is missing or live twice. */
  method DirectoryRemove(payload: seq<byte>, name: Name) returns (r: Result<seq<byte>>)
    ensures r.Ok? <==> Split(payload).Ok? && HasOnlyMatch(Split(payload).value, name)
    ensures r.Ok? ==> r.value == Flatten(Without(Split(payload).value, name))
  {
    hide U64, Without, Flatten, EntriesOf, Split;
    var parsed := DirectoryEntries(payload);
    if parsed.Err? {
      return Err;
    }
    FlattenSplit(payload);
    WithoutNone(name);
    ghost var rs := Split(payload).value;
    ghost var at: nat := 0;
    var result: seq<byte>, found := [], false;
    assert rs[..0] == [];
    for i := 0 to |parsed.value|
      invariant result == Flatten(Without(rs[..i], name))
      invariant found ==> at < i && Matches(rs[at], name)
      invariant forall j :: 0 <= j < i && !(found && j == at) ==> !Matches(rs[j], name)
    {
      EntryAt(rs, 0, i);
      RemoveStep(rs, name, i);
      var e := parsed.value[i];
      if e.flags == LIVE && e.name == name {
        if found {
          TwoMatches(rs, name, at, i);
          return Err;
        }
        found, at := true, i;
      } else {
        result := result + payload[e.offset..e.offset + e.size];
      }
    }
    assert rs[..|rs|] == rs;
    if !found {
      NoMatches(rs, name);
      return Err;
    }
    assert OnlyMatch(rs, name, at);
    r := Ok(result);
  }

  lemma WithoutNone(name: Name)
    ensures Without([], name) == [] && Flatten(Without([], name)) == []
  {
  }

  lemma RemoveStep(rs: seq<Raw>, name: Name, i: nat)
    requires AllOk(rs) && i < |rs|
    ensures Flatten(Without(rs[..i + 1], name))
            == Flatten(Without(rs[..i], name)) + (if Matches(rs[i], name) then [] else rs[i])
  {
    hide U64;
    assert rs[..i + 1] == rs[..i] + [rs[i]];
    WithoutAppend(rs[..i], rs[i], name);
    if Matches(rs[i], name) {
      assert Without(rs[..i], name) + [] == Without(rs[..i], name);
    } else {
      FlattenAppend(Without(rs[..i], name), rs[i]);
    }
  }

  lemma NoMatches(rs: seq<Raw>, name: Name)
    requires AllOk(rs) && forall j :: 0 <= j < |rs| ==> !Matches(rs[j], name)
    ensures !HasOnlyMatch(rs, name)
  {
  }

  lemma TwoMatches(rs: seq<Raw>, name: Name, i: nat, j: nat)
    requires AllOk(rs) && i < j < |rs| && Matches(rs[i], name) && Matches(rs[j], name)
    ensures !HasOnlyMatch(rs, name)
  {
  }

  /** Removing is deleting the name from the map. */
  lemma RemoveIsMapDelete(p: seq<byte>, name: Name)
    requires Split(p).Ok?
    ensures Split(Flatten(Without(Split(p).value, name))) == Ok(Without(Split(p).value, name))
    ensures MapOf(Flatten(Without(Split(p).value, name))) == MapOf(p) - {name}
  {
    hide U64, Split;
    var rs := Split(p).value;
    SplitFlatten(Without(rs, name));
    var q := Flatten(Without(rs, name));
    forall n: Name ensures n in MapOf(q) <==> n in MapOf(p) - {name}
      ensures n in MapOf(q) && n in MapOf(p) ==> MapOf(q)[n] == MapOf(p)[n]
    {
      MapMember(p, n);
      MapMember(q, n);
      LookupWithout(rs, name, n);
    }
  }

  /** Appending an entry for a name that is not live adds it to the map; the
      old bytes stay in front, untouched. */
  lemma AppendIsMapInsert(p: seq<byte>, id: u64, name: Name)
    requires Split(p).Ok? && 1 <= |name| < 0x1_0000_0000_0000_0000 && name !in MapOf(p)
    ensures Split(p + EntryBytes(id, name)) == Ok(Split(p).value + [EntryBytes(id, name)])
    ensures MapOf(p + EntryBytes(id, name)) == MapOf(p)[name := id]
  {
    hide U64, Split, EntryBytes, Flatten, MapOf, LiveNames;
    var rs, raw := Split(p).value, EntryBytes(id, name);
    EntryReads(id, name);
    FlattenSplit(p);
    FlattenAppend(rs, raw);
    SplitFlatten(rs + [raw]);
    var q := p + raw;
    forall n: Name ensures n in MapOf(q) <==> n in MapOf(p) || n == name
      ensures n in MapOf(q) ==> MapOf(q)[n] == if n == name then id else MapOf(p)[n]
    {
      MapMember(p, n);
      MapMember(q, n);
      LookupConcat(rs, [raw], n);
    }
  }

  // ----- renaming in place -----

  /** Entry i carries the old name, no live entry carries the new one, and the sizes agree. */
  ghost predicate Renames(rs: seq<Raw>, old': Name, new': Name, i: nat)
    requires AllOk(rs)
  {
    && OnlyMatch(rs, old', i) && EntrySize(|new'|) == |rs[i]|
    && forall j :: 0 <= j < |rs| ==> !Matches(rs[j], new')
  }

  lemma {:induction false} FlattenUpdate(rs: seq<Raw>, i: nat, raw: Raw)
    requires i < |rs| && |raw| == |rs[i]|
    ensures var at := |Flatten(rs[..i])|;
            && at + |raw| <= |Flatten(rs)|
            && Flatten(rs[i := raw]) == Flatten(rs)[..at] + raw + Flatten(rs)[at + |raw|..]
  {
    var a, b := rs[..i], rs[i + 1..];
    assert rs == a + ([rs[i]] + b);
    assert rs[i := raw] == a + ([raw] + b);
    FlattenConcat(a, [rs[i]] + b);
    FlattenConcat([rs[i]], b);
    FlattenConcat(a, [raw] + b);
    FlattenConcat([raw], b);
    FlattenOne(raw);
    FlattenOne(rs[i]);
    Overlay(Flatten(a), rs[i], Flatten(b), raw);
  }

  lemma FlattenOne(raw: Raw)
    ensures Flatten([raw]) == raw
  {
    assert [raw][1..] == [];
  }

  lemma Overlay(a: seq<byte>, x: seq<byte>, b: seq<byte>, y: seq<byte>)
    requires |x| == |y|
    ensures var s := a + (x + b);
            s[..|a|] + y + s[|a| + |y|..] == a + (y + b)
  {
    var s := a + (x + b);
    assert s[..|a|] == a && s[|a| + |y|..] == b;
  }

  /** Rename one live entry in place, without changing its record ID. */
  method DirectoryRename(payload: seq<byte>, old': Name, new': Name) returns (r: Result<seq<byte>>)
    requires 1 <= |new'| < 0x1_0000_0000_0000_0000
    ensures r.Ok? <==> Split(payload).Ok? && exists i: nat :: Renames(Split(payload).value, old', new', i)
    ensures r.Ok? ==> exists i: nat ::
              && Renames(Split(payload).value, old', new', i)
              && r.value == Flatten(Split(payload).value[i := EntryBytes(IdOf(Split(payload).value[i]), new')])
  {
    hide U64, Split, Flatten, EntriesOf, EntryBytes;
    var parsed := DirectoryEntries(payload);
    if parsed.Err? {
      return Err;
    }
    FlattenSplit(payload);
    ghost var rs := Split(payload).value;
    var chosen := -1;
    for i := 0 to |parsed.value|
      invariant -1 <= chosen < i && (chosen >= 0 ==> Matches(rs[chosen], old'))
      invariant forall j :: 0 <= j < i ==> !Matches(rs[j], new') && (j != chosen ==> !Matches(rs[j], old'))
    {
      EntryAt(rs, 0, i);
      var e := parsed.value[i];
      if e.flags == LIVE {
        if e.name == new' {
          return Err;
        }
        if e.name == old' {
          if chosen >= 0 {
            return Err;
          }
          chosen := i;
        }
      }
    }
    if chosen < 0 {
      return Err;
    }
    assert OnlyMatch(rs, old', chosen);
    EntryAt(rs, 0, chosen);
    var e := parsed.value[chosen];
    var replacement := EntryBytes(e.id, new');
    if |replacement| != e.size {
      return Err;
    }
    assert Renames(rs, old', new', chosen);
    FlattenUpdate(rs, chosen, replacement);
    r := Ok(payload[..e.offset] + replacement + payload[e.offset + e.size..]);
  }

  lemma {:induction false} LookupUpdate(rs: seq<Raw>, old': Name, i: nat, raw: Raw, name: Name)
    requires AllOk(rs) && OnlyMatch(rs, old', i) && RawOk(raw) && IsLive(raw)
    requires Lookup(rs, NameOf(raw)) == None && NameOf(raw) != old'
    ensures AllOk(rs[i := raw])
    ensures Lookup(rs[i := raw], name)
            == if name == NameOf(raw) then Some(IdOf(raw)) else if name == old' then None else Lookup(rs, name)
    decreases i
  {
    hide U64;
    var rs' := rs[i := raw];
    LookupNone(rs, NameOf(raw));
    if i == 0 {
      assert rs'[1..] == rs[1..];
      LookupNone(rs[1..], old');
      LookupNone(rs[1..], NameOf(raw));
    } else {
      assert !Matches(rs[0], old');
      assert rs'[1..] == rs[1..][i - 1 := raw];
      LookupUpdate(rs[1..], old', i - 1, raw, name);
    }
  }

  lemma {:induction false} LookupOnly(rs: seq<Raw>, name: Name, i: nat)
    requires AllOk(rs) && OnlyMatch(rs, name, i)
    ensures Lookup(rs, name) == Some(IdOf(rs[i]))
    decreases i
  {
    hide U64;
    if i > 0 {
      assert !Matches(rs[0], name);
      LookupOnly(rs[1..], name, i - 1);
    }
  }

  /** Renaming moves one binding and keeps every other one; every other entry
      keeps its bytes and its place. */
  lemma RenameIsMapMove(p: seq<byte>, old': Name, new': Name, i: nat)
    requires Split(p).Ok? && 1 <= |new'| < 0x1_0000_0000_0000_0000
    requires Renames(Split(p).value, old', new', i)
    ensures var q := Flatten(Split(p).value[i := EntryBytes(IdOf(Split(p).value[i]), new')]);
            && |q| == |p| && old' in MapOf(p)
            && Split(q) == Ok(Split(p).value[i := EntryBytes(IdOf(Split(p).value[i]), new')])
            && MapOf(q) == (MapOf(p) - {old'})[new' := MapOf(p)[old']]
  {
    hide U64, Split, EntryBytes, Flatten, Lookup, MapOf, LiveNames;
    var rs := Split(p).value;
    var id := IdOf(rs[i]);
    var raw := EntryBytes(id, new');
    EntryReads(id, new');
    FlattenSplit(p);
    FlattenUpdate(rs, i, raw);
    LookupNone(rs, new');
    LookupOnly(rs, old', i);
    var rs' := rs[i := raw];
    LookupUpdate(rs, old', i, raw, old');
    SplitFlatten(rs');
    var q := Flatten(rs');
    MapMember(p, old');
    forall n: Name ensures n in MapOf(q) <==> n == new' || (n in MapOf(p) && n != old')
      ensures n in MapOf(q) ==> MapOf(q)[n] == if n == new' then id else MapOf(p)[n]
    {
      MapMember(p, n);
      MapMember(q, n);
      LookupUpdate(rs, old', i, raw, n);
    }
  }

  // ----- the boot reader's lookup -----

  /** All entries pass the boot reader's checks. */
  predicate AllBootOk(rs: seq<Raw>) {
    forall i :: 0 <= i < |rs| ==> BootOk(rs[i])
  }

  /** What the boot reader's scan finds from the start of p. */
  function BootLookup(p: seq<byte>, name: Name): Option<u64>
    decreases |p|
  {
    if |p| < 32 || U64(p, 8) == 0 || U64(p, 8) > 255 || EntrySize(U64(p, 8)) > |p| then None
    else
      var size := EntrySize(U64(p, 8));
      if !BootOk(p[..size]) then None
      else if Matches(p[..size], name) then Some(IdOf(p[..size]))
      else BootLookup(p[size..], name)
  }

  /** Both readers agree on every payload of well-formed entries; and whatever
      the boot reader finds in a parsable payload, the updater finds too. */
  lemma {:induction false} LookupsAgree(p: seq<byte>, name: Name)
    requires Split(p).Ok?
    ensures AllBootOk(Split(p).value) ==> BootLookup(p, name) == Lookup(Split(p).value, name)
    ensures BootLookup(p, name).Some? ==> BootLookup(p, name) == Lookup(Split(p).value, name)
    decreases |p|
  {
    if p != [] {
      SplitHead(p, name);
      hide U64, BootOk;
      var size := EntrySize(U64(p, 8));
      LookupsAgree(p[size..], name);
      var rs, rest := Split(p).value, Split(p[size..]).value;
      assert forall i :: 0 <= i < |rest| ==> rest[i] == rs[i + 1];
      if AllBootOk(rs) {
        BootAccepts(p);
      }
    }
  }

  lemma BootAccepts(rest: seq<byte>)
    requires |rest| >= 32 && Split(rest).Ok? && AllBootOk(Split(rest).value)
    ensures 1 <= U64(rest, 8) <= 255 && EntrySize(U64(rest, 8)) <= |rest| && BootOk(rest[..EntrySize(U64(rest, 8))])
  {
    hide Checked;
    var raw := Split(rest).value[0];
    assert raw == rest[..EntrySize(U64(rest, 8))];
    assert raw[8..16] == rest[8..16];
    assert U64(raw, 8) == U64(rest, 8);
  }

  lemma SplitHead(rest: seq<byte>, name: Name)
    requires |rest| >= 32 && U64(rest, 8) >= 1 && EntrySize(U64(rest, 8)) <= |rest|
    ensures var size := EntrySize(U64(rest, 8));
            && RawOk(rest[..size]) && U64(rest[..size], 8) == U64(rest, 8)
            && (Split(rest).Ok? ==>
                  && Split(rest[size..]).Ok?
                  && Split(rest).value == [rest[..size]] + Split(rest[size..]).value
                  && Lookup(Split(rest).value, name)
                     == if Matches(rest[..size], name) then Some(IdOf(rest[..size]))
                       else Lookup(Split(rest[size..]).value, name))
  {
    HeadEntry(rest);
    var size := EntrySize(U64(rest, 8));
    assert rest[..size][8..16] == rest[8..16];
    if Split(rest).Ok? {
      assert Split(rest).value[1..] == Split(rest[size..]).value;
    }
  }

  /** Append, remove and rename keep every entry acceptable to the boot reader. */
  lemma OperationsKeepBootOk(p: seq<byte>, id: u64, name: Name, i: nat)
    requires Split(p).Ok? && AllBootOk(Split(p).value) && 1 <= |name| <= 255 && i < |Split(p).value|
    ensures AllBootOk(Split(p).value + [EntryBytes(id, name)])
    ensures AllBootOk(Without(Split(p).value, name))
    ensures AllBootOk(Split(p).value[i := EntryBytes(id, name)])
  {
    hide U64, Split, EntryBytes, BootOk;
    EntryReads(id, name);
    WithoutBootOk(Split(p).value, name);
  }

  lemma {:induction false} WithoutBootOk(rs: seq<Raw>, name: Name)
    requires AllOk(rs) && AllBootOk(rs)
    ensures AllBootOk(Without(rs, name))
  {
    hide U64, BootOk;
    if rs != [] {
      WithoutBootOk(rs[1..], name);
    }
  }
}
