/** Looking up a name in a directory of an opened volume, as the boot reader does for
    each component of a path. */
module MgfsBootLookup {
  import opened Options
  import opened MgfsBytes
  import opened MgfsImage
  import opened MgfsFormat
  import opened MgfsDirectory
  import opened MgfsBootReader
  import opened MgfsOwnerCheck
  import opened MgfsBootInit

  /** What a name leads to. */
  datatype Child = Child(id: u64, kind: u64, size: u64)

  /** The entries of a directory as far as its record and its blocks go. */
  ghost function DirectoryStream(img: Image, l: Layout, rec: seq<byte>): seq<byte>
    requires |rec| == RECORD_BYTES && U64(rec, INLINE_COUNT) <= 2
  {
    var bytes := MappedBytes(img, l, rec, DIRECTORY);
    if bytes.None? then []
    else if U64(rec, SIZE) <= |bytes.value| then bytes.value[..U64(rec, SIZE)]
    else bytes.value
  }

  /** The record an entry's ID stands for. */
  ghost function RecordNamed(img: Image, l: Layout, id: Option<u64>): Option<Child>
    requires Geometry(l, |img|)
  {
    if id.None? || SlotOf(img, l, id.value, 0).None? then None
    else
      var rec := RecordAt(img, l, SlotOf(img, l, id.value, 0).value);
      Some(Child(id.value, U64(rec, TYPE), U64(rec, SIZE)))
  }

  /** What a name in a directory leads to. */
  ghost function ChildOf(img: Image, l: Layout, parent: u64, name: Name): Option<Child>
    requires Geometry(l, |img|)
  {
    var slot := SlotOf(img, l, parent, 0);
    if slot.None? then None
    else
      var rec := RecordAt(img, l, slot.value);
      if U64(rec, TYPE) != 2 || U64(rec, INLINE_COUNT) > 2 || |name| > 255 then None
      else RecordNamed(img, l, BootLookup(DirectoryStream(img, l, rec), name))
  }

  lemma FoundAccepted(img: Image, l: Layout, minor: u64, id: u64)
    requires Geometry(l, |img|) && RecordsOk(img, l, minor, l.recordCount) && SlotOf(img, l, id, 0).Some?
    ensures U64(RecordAt(img, l, SlotOf(img, l, id, 0).value), INLINE_COUNT) <= 2
  {
    hide SlotOf, RecordAt, RecordBit, U64;
    SlotIs(img, l, id, 0);
  }

  /** A read inside the stream is a slice of it; one past it fails. */
  lemma StreamSlice(img: Image, l: Layout, rec: seq<byte>, offset: nat, n: nat)
    requires |rec| == RECORD_BYTES && U64(rec, INLINE_COUNT) <= 2 && n > 0 && offset + n <= U64(rec, SIZE)
    ensures var bytes, stream := MappedBytes(img, l, rec, DIRECTORY), DirectoryStream(img, l, rec);
            && (bytes.Some? && offset + n <= |bytes.value| <==> offset + n <= |stream|)
            && (offset + n <= |stream| ==> bytes.value[offset..offset + n] == stream[offset..offset + n])
  {
    hide MappedBytes, U64;
    var bytes, stream := MappedBytes(img, l, rec, DIRECTORY), DirectoryStream(img, l, rec);
    if offset + n <= |stream| {
      assert stream == bytes.value[0..0 + |stream|];
      SliceOfSlice(bytes.value, 0, |stream|, offset, n);
    }
  }

  /** The scan of a directory for a name: each entry is read and checked in turn. */
  method ScanDirectory(img: Image, l: Layout, rec: seq<byte>, name: Name) returns (r: Option<u64>)
    requires Geometry(l, |img|) && |rec| == RECORD_BYTES && U64(rec, INLINE_COUNT) <= 2
    ensures r == BootLookup(DirectoryStream(img, l, rec), name)
  {
    hide U64, Checked, BootOk, DirectoryStream, MappedBytes;
    ghost var stream := DirectoryStream(img, l, rec);
    StreamBound(img, l, rec);
    var size := U64(rec, SIZE);
    var offset := 0;
    assert stream[0..] == stream;
    while offset < size
      invariant 0 <= offset <= |stream| <= size
      invariant BootLookup(stream, name) == BootLookup(stream[offset..], name)
    {
      var entry := ReadEntry(img, l, rec, offset);
      LookupStep(stream[offset..], name);
      if entry.None? || !BootOk(entry.value) {
        return None;
      }
      if Matches(entry.value, name) {
        return Some(IdOf(entry.value));
      }
      assert stream[offset + |entry.value|..] == stream[offset..][|entry.value|..];
      offset := offset + |entry.value|;
    }
    LookupStep(stream[offset..], name);
    r := None;
  }

  /** The bytes of the entry at the front of a stream, if it is whole and its name fits. */
  function FirstEntry(p: seq<byte>): (r: Option<Raw>)
    ensures r.Some? ==> RawOk(r.value) && |r.value| <= |p|
  {
    if |p| < 32 || U64(p, 8) == 0 || U64(p, 8) > 255 || EntrySize(U64(p, 8)) > |p| then None
    else
      SplitHead(p, []);
      Some(p[..EntrySize(U64(p, 8))])
  }

  lemma LookupStep(p: seq<byte>, name: Name)
    ensures BootLookup(p, name)
            == var entry := FirstEntry(p);
               if entry.None? || !BootOk(entry.value) then None
               else if Matches(entry.value, name) then Some(IdOf(entry.value))
               else BootLookup(p[|entry.value|..], name)
  {
    hide U64, Checked, BootOk, Matches;
  }

  /** Read one entry: its header first, then as much as its name needs. */
  method ReadEntry(img: Image, l: Layout, rec: seq<byte>, offset: nat) returns (r: Option<Raw>)
    requires Geometry(l, |img|) && |rec| == RECORD_BYTES && U64(rec, INLINE_COUNT) <= 2
    requires offset <= |DirectoryStream(img, l, rec)|
    ensures r == FirstEntry(DirectoryStream(img, l, rec)[offset..])
  {
    hide U64, DirectoryStream, MappedBytes;
    ghost var rest := DirectoryStream(img, l, rec)[offset..];
    StreamBound(img, l, rec);
    var size := U64(rec, SIZE);
    if size - offset < 32 {
      return None;
    }
    StreamSlice(img, l, rec, offset, 32);
    var header := ReadDirectoryBytes(img, l, rec, offset, 32);
    if header.None? {
      return None;
    }
    HeaderWord(rest, header.value);
    var n := U64(header.value, 8);
    var length := EntrySize(n);
    if n == 0 || n > 255 || length > size - offset {
      return None;
    }
    StreamSlice(img, l, rec, offset, length);
    var entry := ReadDirectoryBytes(img, l, rec, offset, length);
    if entry.None? {
      return None;
    }
    SplitHead(rest, []);
    assert entry.value == rest[..length];
    r := Some(entry.value);
  }

  lemma StreamBound(img: Image, l: Layout, rec: seq<byte>)
    requires |rec| == RECORD_BYTES && U64(rec, INLINE_COUNT) <= 2
    ensures |DirectoryStream(img, l, rec)| <= U64(rec, SIZE)
  {
    hide MappedBytes, U64;
  }

  lemma HeaderWord(rest: seq<byte>, header: seq<byte>)
    requires |rest| >= 32 && header == rest[..32]
    ensures U64(header, 8) == U64(rest, 8)
  {
    assert header[8..16] == rest[8..16];
  }

  /** Find a child by its name and read its record. */
  method FindChild(img: Image, l: Layout, packed: array<byte>, minor: u64, parent: u64, name: Name)
    returns (r: Option<Child>)
    requires Geometry(l, |img|) && SlotsPacked(img, l, packed[..], l.recordCount)
    requires RecordsOk(img, l, minor, l.recordCount)
    ensures r == ChildOf(img, l, parent, name)
  {
    hide SlotOf, RecordAt, U64, SlotsPacked, RecordsOk, BootLookup, DirectoryStream;
    var rec := ReadRecord(img, l, packed, parent);
    if rec.None? || U64(rec.value, TYPE) != 2 || |name| > 255 {
      return None;
    }
    FoundAccepted(img, l, minor, parent);
    var id := ScanDirectory(img, l, rec.value, name);
    if id.None? {
      return None;
    }
    var child := ReadRecord(img, l, packed, id.value);
    if child.None? {
      return None;
    }
    r := Some(Child(id.value, U64(child.value, TYPE), U64(child.value, SIZE)));
  }
}
