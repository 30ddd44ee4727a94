/** What the checker's directory traversal reads from an image: directory streams
    decoded entry by entry, names and checksums included. A directory it finds nothing
    wrong with is a finite map for the updater and for the boot reader. */
module MgfsGraphVolume {
  import opened Options
  import opened MgfsBytes
  import opened MgfsImage
  import opened MgfsFormat
  import opened MgfsOwnerCheck
  import opened MgfsDirectory
  import G = MgfsGraphCheck

  // ----- names -----

  /** How many bytes follow the first byte of a character. */
  function Following(first: byte): Option<nat> {
    if first < 0x80 then Some(0)
    else if 0xC2 <= first <= 0xDF then Some(1)
    else if 0xE0 <= first <= 0xEF then Some(2)
    else if 0xF0 <= first <= 0xF4 then Some(3)
    else None
  }

  /** The second byte rules out overlong forms, surrogates and what is past the last character. */
  predicate SecondOk(first: byte, second: byte) {
    && (first == 0xE0 ==> second >= 0xA0) && (first == 0xED ==> second <= 0x9F)
    && (first == 0xF0 ==> second >= 0x90) && (first == 0xF4 ==> second <= 0x8F)
  }

  /** Well-formed UTF-8 without zero bytes and slashes. */
  predicate Utf8(s: seq<byte>)
    decreases |s|
  {
    s == [] ||
    (&& s[0] != 0 && s[0] != 47
     && var n := Following(s[0]);
     && n.Some? && n.value < |s|
     && (forall j :: 1 <= j <= n.value ==> 0x80 <= s[j] <= 0xBF)
     && (n.value > 0 ==> SecondOk(s[0], s[1]))
     && Utf8(s[1 + n.value..]))
  }

  predicate NameAllowed(s: seq<byte>) {
    1 <= |s| <= 255 && s != [46] && s != [46, 46] && Utf8(s)
  }

  // ----- entries -----

  predicate EntryOk(raw: Raw) {
    && RawOk(raw) && U64(raw, 8) <= 255 && Checked(raw, 24) && NameAllowed(NameOf(raw))
    && forall i :: 32 + U64(raw, 8) <= i < |raw| ==> raw[i] == 0
  }

  /** The entry is acceptable and its flags are known. */
  predicate Decodes(raw: Raw) {
    EntryOk(raw) && (U64(raw, 16) == LIVE || U64(raw, 16) == TOMBSTONE)
  }

  function DirentOf(raw: Raw): G.Dirent
    requires RawOk(raw)
  {
    G.Dirent(IsLive(raw), IdOf(raw), NameOf(raw))
  }

  /** The entries up to the first bad one, and whether there is none. */
  function Decoded(p: seq<byte>): (seq<G.Dirent>, bool)
    decreases |p|
  {
    if p == [] then ([], true)
    else if |p| < 32 || U64(p, 8) == 0 || U64(p, 8) > 255 || EntrySize(U64(p, 8)) > |p| then ([], false)
    else
      var size := EntrySize(U64(p, 8));
      if !Decodes(p[..size]) then ([], false)
      else
        var rest := Decoded(p[size..]);
        ([DirentOf(p[..size])] + rest.0, rest.1)
  }

  /** The scan's loop over a stream. */
  method DecodeEntries(p: seq<byte>) returns (entries: seq<G.Dirent>, ok: bool)
    ensures (entries, ok) == Decoded(p)
  {
    hide U64, Decodes, Behind;
    var offset := 0;
    entries := [];
    assert p[0..] == p;
    BehindNothing(Decoded(p));
    while offset < |p|
      invariant 0 <= offset <= |p|
      invariant Decoded(p) == Behind(entries, Decoded(p[offset..]))
    {
      var rest := p[offset..];
      BehindEnd(entries, false);
      if |rest| < 32 {
        return entries, false;
      }
      var n := U64(rest, 8);
      if n == 0 || n > 255 || EntrySize(n) > |rest| || !Decodes(rest[..EntrySize(n)]) {
        return entries, false;
      }
      DecodedStep(rest, entries);
      DecodesRaw(rest[..EntrySize(n)]);
      entries := entries + [DirentOf(rest[..EntrySize(n)])];
      assert p[offset + EntrySize(n)..] == rest[EntrySize(n)..];
      offset := offset + EntrySize(n);
    }
    assert p[offset..] == [];
    BehindEnd(entries, true);
    ok := true;
  }

  function Behind(front: seq<G.Dirent>, r: (seq<G.Dirent>, bool)): (seq<G.Dirent>, bool) {
    (front + r.0, r.1)
  }

  lemma BehindNothing(r: (seq<G.Dirent>, bool))
    ensures Behind([], r) == r
  {
    assert [] + r.0 == r.0;
  }

  lemma BehindEnd(front: seq<G.Dirent>, ok: bool)
    ensures Behind(front, ([], ok)) == (front, ok)
  {
    assert front + [] == front;
  }

  lemma DecodesRaw(raw: Raw)
    requires Decodes(raw)
    ensures RawOk(raw)
  {
  }

  lemma DecodedStep(p: seq<byte>, front: seq<G.Dirent>)
    requires |p| >= 32 && 1 <= U64(p, 8) <= 255 && EntrySize(U64(p, 8)) <= |p| && Decodes(p[..EntrySize(U64(p, 8))])
    ensures var size := EntrySize(U64(p, 8));
            RawOk(p[..size]) && Behind(front, Decoded(p)) == Behind(front + [DirentOf(p[..size])], Decoded(p[size..]))
  {
    hide U64, Checked, NameAllowed;
    var size := EntrySize(U64(p, 8));
    var rest := Decoded(p[size..]);
    assert front + ([DirentOf(p[..size])] + rest.0) == front + [DirentOf(p[..size])] + rest.0;
  }

  /** Every entry of the payload passes the scan's checks. */
  predicate AllDecode(rs: seq<Raw>) {
    forall i :: 0 <= i < |rs| ==> Decodes(rs[i])
  }

  function Dirents(rs: seq<Raw>): seq<G.Dirent>
    requires AllOk(rs)
  {
    seq(|rs|, i requires 0 <= i < |rs| => DirentOf(rs[i]))
  }

  /** A stream is well formed exactly when the updater can parse it and every entry
      passes; then the scan sees the entries the updater does. */
  lemma {:induction false} DecodedExactly(p: seq<byte>)
    ensures Decoded(p).1 <==> Split(p).Ok? && AllDecode(Split(p).value)
    ensures Decoded(p).1 ==> AllOk(Split(p).value) && Decoded(p).0 == Dirents(Split(p).value)
    decreases |p|
  {
    if |p| >= 32 && 1 <= U64(p, 8) && EntrySize(U64(p, 8)) <= |p| {
      var size := EntrySize(U64(p, 8));
      DecodedExactly(p[size..]);
      SplitHead(p, []);
      DecodesLength(p, size);
      hide U64, Decodes;
      if Split(p[size..]).Ok? {
        SplitCons(p);
        var rest := Split(p[size..]).value;
        assert Split(p).value == [p[..size]] + rest;
        AllDecodeCons(p[..size], rest);
      }
    } else if p != [] {
      assert Split(p).Err?;
    }
  }

  lemma SplitCons(p: seq<byte>)
    requires |p| >= 32 && 1 <= U64(p, 8) && EntrySize(U64(p, 8)) <= |p| && Split(p[EntrySize(U64(p, 8))..]).Ok?
    ensures Split(p) == Ok([p[..EntrySize(U64(p, 8))]] + Split(p[EntrySize(U64(p, 8))..]).value)
  {
    HeadEntry(p);
  }

  lemma DecodesLength(p: seq<byte>, size: nat)
    requires |p| >= 32 && 1 <= U64(p, 8) && size == EntrySize(U64(p, 8)) <= |p|
    ensures Decodes(p[..size]) ==> U64(p, 8) <= 255
  {
    hide Checked, NameAllowed;
    assert p[..size][8..16] == p[8..16];
  }

  lemma AllDecodeCons(raw: Raw, rest: seq<Raw>)
    requires RawOk(raw) && AllOk(rest)
    ensures AllOk([raw] + rest) && (AllDecode([raw] + rest) <==> Decodes(raw) && AllDecode(rest))
    ensures Dirents([raw] + rest) == [DirentOf(raw)] + Dirents(rest)
  {
    hide Decodes, RawOk;
    var all := [raw] + rest;
    assert all[0] == raw && all[1..] == rest;
    assert forall i :: 0 <= i < |rest| ==> all[i + 1] == rest[i];
    assert AllDecode(all) ==> AllDecode(rest) by {
      if AllDecode(all) {
        forall i | 0 <= i < |rest| ensures Decodes(rest[i]) {
          assert Decodes(all[i + 1]);
        }
      }
    }
    assert forall i :: 0 < i < |all| ==> all[i] == rest[i - 1];
  }

  // ----- streams -----

  predicate Overlap(e: Extent, f: Extent) {
    e.physical < f.physical + f.count && f.physical < e.physical + e.count
  }

  /** A directory's extents as the scan collects them. */
  predicate StreamOk(img: Image, l: Layout, rec: seq<byte>, id: u64)
    requires Geometry(l, |img|) && |rec| == RECORD_BYTES
  {
    && CheckedExtents(img, l, rec, id, 2).Some?
    && var (es, lists) := CheckedExtents(img, l, rec, id, 2).value;
    && |lists| <= U64(rec, EXTENT_COUNT) && U64(rec, SIZE) <= 4096 * Covered(es)
    && (forall i, j :: 0 <= i < j < |es| ==> !Overlap(es[i], es[j]))
    && forall k, i :: 0 <= k < |lists| && 40 <= i < 64 && lists[k] < |img| ==> img[lists[k]][i] == 0
  }

  /** The bytes of a directory; none if its extents cannot be collected. */
  function StreamOf(img: Image, l: Layout, rec: seq<byte>, id: u64): Option<seq<byte>>
    requires Geometry(l, |img|) && |rec| == RECORD_BYTES
  {
    if U64(rec, SIZE) == 0 then Some([])
    else if !StreamOk(img, l, rec, id) then None
    else Some(Prefix(BlockBytes(img, DataBlocks(CheckedExtents(img, l, rec, id, 2).value.0)), U64(rec, SIZE)))
  }

  function RecOf(img: Image, l: Layout, rec: seq<byte>, id: u64): G.Rec
    requires Geometry(l, |img|) && |rec| == RECORD_BYTES
  {
    if U64(rec, TYPE) == 1 then G.File
    else if U64(rec, TYPE) == 2 then
      var stream := StreamOf(img, l, rec, id);
      if stream.None? then G.Dir([], false)
      else G.Dir(Decoded(stream.value).0, Decoded(stream.value).1)
    else G.Unknown
  }

  /** The record with the ID can be read. */
  predicate HasRecord(img: Image, l: Layout, id: nat)
    requires Geometry(l, |img|)
  {
    SlotOf(img, l, id, 0).Some? && Readable(RecordAt(img, l, SlotOf(img, l, id, 0).value))
  }

  function RecordOf(img: Image, l: Layout, id: nat): (rec: seq<byte>)
    requires Geometry(l, |img|) && HasRecord(img, l, id)
    ensures |rec| == RECORD_BYTES
  {
    RecordAt(img, l, SlotOf(img, l, id, 0).value)
  }

  /** What the traversal sees of an image. */
  function VolumeOf(img: Image, l: Layout, root: u64): G.Volume
    requires Geometry(l, |img|)
  {
    G.Volume(l.recordCount, root,
      map id: nat | 1 <= id <= l.recordCount && HasRecord(img, l, id) :: RecOf(img, l, RecordOf(img, l, id), id))
  }

  /** The traversal over an image. */
  method CheckDirectories(img: Image, l: Layout, root: u64) returns (errors: nat)
    requires Geometry(l, |img|)
    ensures errors == 0 <==> G.Sound(VolumeOf(img, l, root))
  {
    var check := new G.GraphCheck(VolumeOf(img, l, root));
    check.Check();
    errors := check.errors;
  }

  // ----- what a sound graph means for the other readers -----

  /** A directory of a sound volume is a finite map: both other readers find the child
      under each of its live names, and every child is a readable record. */
  lemma SoundIsMap(img: Image, l: Layout, root: u64, d: u64, name: Name)
    requires Geometry(l, |img|) && G.Sound(VolumeOf(img, l, root)) && G.IsDir(VolumeOf(img, l, root), d)
    ensures StreamOf(img, l, RecordOf(img, l, d), d).Some?
    ensures var p := StreamOf(img, l, RecordOf(img, l, d), d).value;
            && Split(p).Ok? && AllBootOk(Split(p).value)
            && (name in MapOf(p) ==>
                  && BootLookup(p, name) == Some(MapOf(p)[name])
                  && MapOf(p)[name] != root && HasRecord(img, l, MapOf(p)[name]))
  {
    hide *;
    var v := VolumeOf(img, l, root);
    SoundDir(v, d);
    DirOf(img, l, root, d);
    var p := StreamOf(img, l, RecordOf(img, l, d), d).value;
    DecodedExactly(p);
    DecodeBootOk(Split(p).value);
    LookupsAgree(p, name);
    MapMember(p, name);
    if name in MapOf(p) {
      ChildOf(v, d, Split(p).value, name);
      InVolume(img, l, root, MapOf(p)[name]);
    }
  }

  /** What a live name leads to is a child of the directory. */
  lemma ChildOf(v: G.Volume, d: nat, rs: seq<Raw>, name: Name)
    requires G.Sound(v) && d in v.records && AllOk(rs) && v.records[d] == G.Dir(Dirents(rs), true)
             && Lookup(rs, name).Some?
    ensures Lookup(rs, name).value in v.records && Lookup(rs, name).value != v.root
  {
    hide Lookup, RawOk, G.Sound;
    var i := LookupIndex(rs, name);
    assert Dirents(rs)[i] == DirentOf(rs[i]);
    SoundEntry(v, d, i);
  }

  lemma DirOf(img: Image, l: Layout, root: u64, d: u64)
    requires Geometry(l, |img|) && G.IsDir(VolumeOf(img, l, root), d) && VolumeOf(img, l, root).records[d].wellFormed
    ensures HasRecord(img, l, d) && d <= l.recordCount && StreamOf(img, l, RecordOf(img, l, d), d).Some?
    ensures var r := Decoded(StreamOf(img, l, RecordOf(img, l, d), d).value);
            r.1 && VolumeOf(img, l, root).records[d] == G.Dir(r.0, true)
  {
    hide U64, HasRecord, RecordOf, StreamOf, Decoded;
  }

  lemma InVolume(img: Image, l: Layout, root: u64, id: nat)
    requires Geometry(l, |img|) && id in VolumeOf(img, l, root).records
    ensures HasRecord(img, l, id) && VolumeOf(img, l, root).root == root
  {
    hide U64, HasRecord, RecordOf, RecOf;
  }

  lemma SoundDir(v: G.Volume, d: nat)
    requires G.Sound(v) && G.IsDir(v, d)
    ensures d in v.records && v.records[d].Dir? && v.records[d].wellFormed
  {
  }

  lemma SoundEntry(v: G.Volume, d: nat, i: nat)
    requires G.Sound(v) && G.LiveEntry(v, d, i)
    ensures G.Child(v, d, i) in v.records && G.Child(v, d, i) != v.root
  {
  }

  lemma DecodeBootOk(rs: seq<Raw>)
    requires AllDecode(rs)
    ensures AllBootOk(rs)
  {
    hide Checked, NameAllowed, U64;
    forall i | 0 <= i < |rs| ensures BootOk(rs[i]) {
      assert Decodes(rs[i]);
    }
  }

  /** Where the first live entry with a name is. */
  lemma {:induction false} LookupIndex(rs: seq<Raw>, name: Name) returns (i: nat)
    requires AllOk(rs) && Lookup(rs, name).Some?
    ensures i < |rs| && IsLive(rs[i]) && IdOf(rs[i]) == Lookup(rs, name).value
  {
    hide U64;
    if IsLive(rs[0]) && NameOf(rs[0]) == name {
      i := 0;
    } else {
      var k := LookupIndex(rs[1..], name);
      i := k + 1;
    }
  }
}
