/** The printer and the parser as they run: a bounded buffer filled step by step,
    and positions moving through the text. */
module IdentityCode {
  import opened Options
  import opened Identity
  import opened IdentityText
  import opened IdentityDatabase

  // ----- printing into a buffer -----

  /** A bounded buffer. The appends are chained: once one does not fit the rest
      do nothing, `ok` being the outcome so far and `wanted` all that was asked for. */
  class Writer {
    const buffer: array<char>
    var position: nat
    ghost var wanted: string

    /** The outcome tells whether everything asked for is there. */
    ghost predicate Tells(ok: bool)
      reads this, buffer
    {
      position <= buffer.Length && if ok then buffer[..position] == wanted else |wanted| > buffer.Length
    }

    constructor (capacity: nat)
      ensures buffer.Length == capacity && wanted == "" && Tells(true) && fresh(buffer)
    {
      buffer := new char[capacity];
      position, wanted := 0, "";
    }

    method AppendText(ok: bool, text: string) returns (ok': bool)
      requires Tells(ok)
      modifies this, buffer
      ensures Tells(ok') && wanted == old(wanted) + text
    {
      wanted := wanted + text;
      if !ok || |text| > buffer.Length - position {
        return false;
      }
      for i := 0 to |text|
        invariant position == old(position) && buffer[..position + i] == old(buffer[..position]) + text[..i]
        invariant wanted == old(wanted) + text
      {
        buffer[position + i] := text[i];
      }
      position := position + |text|;
      ok' := true;
    }

    /** The decimal digits, produced from the last and written from the first. */
    method AppendU32(ok: bool, value: u32) returns (ok': bool)
      requires Tells(ok)
      modifies this, buffer
      ensures Tells(ok') && wanted == old(wanted) + Decimal(value)
    {
      var digits := DigitsOf(value);
      var count := |digits|;
      ok' := ok;
      assert digits[..|digits|] == digits;
      while count != 0
        invariant 0 <= count <= |digits| && Tells(ok')
        invariant wanted + Reversed(digits[..count]) == old(wanted) + Reversed(digits)
      {
        count := count - 1;
        assert digits[..count + 1] == digits[..count] + [digits[count]];
        ReversedAppend(digits[..count], digits[count]);
        ghost var before := wanted;
        ok' := AppendText(ok', [digits[count]]);
        assert before + ([digits[count]] + Reversed(digits[..count])) == wanted + Reversed(digits[..count]);
      }
      assert digits[..0] == "";
    }

    method AppendHex(ok: bool, bytes: seq<byte>) returns (ok': bool)
      requires Tells(ok)
      modifies this, buffer
      ensures Tells(ok') && wanted == old(wanted) + Hex(bytes)
    {
      ok' := ok;
      assert bytes[..0] == [] && Hex([]) == "";
      for i := 0 to |bytes|
        invariant Tells(ok') && wanted == old(wanted) + Hex(bytes[..i])
      {
        HexAppend(bytes[..i], bytes[i]);
        assert bytes[..i + 1] == bytes[..i] + [bytes[i]];
        ok' := AppendText(ok', [HexChar(bytes[i] / 16), HexChar(bytes[i] % 16)]);
      }
      assert bytes[..|bytes|] == bytes;
    }

    method AppendKey(ok: bool, k: Key) returns (ok': bool)
      requires Tells(ok)
      modifies this, buffer
      ensures Tells(ok') && wanted == old(wanted) + KeyText(k)
    {
      ok' := AppendText(ok, " " + Name(k) + "=");
    }

    method AppendNames(ok: bool, u: User) returns (ok': bool)
      requires Tells(ok)
      modifies this, buffer
      ensures Tells(ok') && wanted == old(wanted) + NameText(u)
    {
      hide KeyText, Decimal, RoleName, Name;
      ghost var w := wanted;
      ok' := AppendText(ok, "account");
      ok' := AppendKey(ok', Uid);
      ok' := AppendU32(ok', u.uid);
      assert wanted == w + ("account" + KeyText(Uid) + Decimal(u.uid));
      ok' := AppendKey(ok', Username);
      ok' := AppendText(ok', u.username);
      assert wanted == w + ("account" + KeyText(Uid) + Decimal(u.uid) + KeyText(Username) + u.username);
      ok' := AppendKey(ok', RoleKey);
      ok' := AppendText(ok', RoleName(u.role));
      assert wanted == w + ("account" + KeyText(Uid) + Decimal(u.uid) + KeyText(Username) + u.username
          + KeyText(RoleKey) + RoleName(u.role));
    }

    /** The part of an account's line that every account has. */
    method AppendUser(ok: bool, u: User) returns (ok': bool)
      requires Tells(ok)
      modifies this, buffer
      ensures Tells(ok') && wanted == old(wanted) + UserText(u)
    {
      hide KeyText, Decimal, RoleName, FlagsName, Name, NameText;
      ghost var w := wanted;
      ok' := AppendNames(ok, u);
      ghost var part := NameText(u);
      ok' := AppendKey(ok', Home);
      ok' := AppendText(ok', u.home);
      assert wanted == w + (part + KeyText(Home) + u.home);
      ok' := AppendKey(ok', FlagsKey);
      ok' := AppendText(ok', FlagsName(u.initial));
      assert wanted == w + (part + KeyText(Home) + u.home + KeyText(FlagsKey) + FlagsName(u.initial));
    }

    method AppendAuth(ok: bool, a: Auth) returns (ok': bool)
      requires Tells(ok)
      modifies this, buffer
      ensures Tells(ok') && wanted == old(wanted) + AuthText(a)
    {
      hide KeyText, Decimal, Hex, AlgorithmName, Name;
      ghost var w := wanted;
      ok' := AppendKey(ok, AuthKey);
      ok' := AppendText(ok', AlgorithmName(a.algorithm));
      ghost var part := KeyText(AuthKey) + AlgorithmName(a.algorithm);
      assert wanted == w + part;
      if a.algorithm == Pbkdf2 {
        ok' := AppendSecret(ok', a);
        assert wanted == w + (part + KeyText(Salt) + Hex(a.salt)
            + KeyText(Iterations) + Decimal(a.iterations) + KeyText(HashKey) + Hex(a.hash));
      }
    }

    /** Salt, iterations and hash of a password. */
    method AppendSecret(ok: bool, a: Auth) returns (ok': bool)
      requires Tells(ok)
      modifies this, buffer
      ensures Tells(ok')
      ensures wanted == old(wanted) + (KeyText(Salt) + Hex(a.salt) + (KeyText(Iterations) + Decimal(a.iterations))
                                       + (KeyText(HashKey) + Hex(a.hash)))
    {
      hide KeyText, Decimal, Hex, Name;
      ghost var w := wanted;
      ok' := AppendKey(ok, Salt);
      ok' := AppendHex(ok', a.salt);
      ghost var part := KeyText(Salt) + Hex(a.salt);
      assert wanted == w + part;
      ok' := AppendKey(ok', Iterations);
      ok' := AppendU32(ok', a.iterations);
      ghost var more := part + (KeyText(Iterations) + Decimal(a.iterations));
      assert wanted == w + more;
      ok' := AppendKey(ok', HashKey);
      ok' := AppendHex(ok', a.hash);
      assert wanted == w + (more + (KeyText(HashKey) + Hex(a.hash)));
    }

    /** One account's line. */
    method AppendAccount(ok: bool, u: User, a: Auth) returns (ok': bool)
      requires Tells(ok)
      modifies this, buffer
      ensures Tells(ok') && wanted == old(wanted) + (AccountLine(u, a) + "\n")
    {
      hide UserText, AuthText, AccountLine;
      ghost var w := wanted;
      ok' := AppendUser(ok, u);
      ok' := AppendAuth(ok', a);
      LineText(u, a);
      assert wanted == w + AccountLine(u, a);
      ok' := AppendText(ok', "\n");
    }

    /** Print a registry, if it is valid and fits. */
    method Serialize(r: Registry) returns (ok: bool)
      requires |r.users| == |r.auths| && Tells(true) && wanted == ""
      modifies this, buffer
      ensures ok <==> RegistryValid(r) && |Print(r)| <= buffer.Length
      ensures ok ==> position <= buffer.Length && buffer[..position] == Print(r)
    {
      hide RegistryValid, Print;
      ok := CheckRegistry(r);
      if ok {
        ok := AppendRegistry(r);
      }
    }

    method AppendRegistry(r: Registry) returns (ok: bool)
      requires |r.users| == |r.auths| && Tells(true) && wanted == ""
      modifies this, buffer
      ensures Tells(ok) && wanted == Print(r)
    {
      hide HeadText, PrintAccounts, Print;
      ok := AppendHead(true, r.nextUid);
      ok := AppendAccounts(ok, r);
      PrintText(r);
      assert wanted == HeadText(r.nextUid) + PrintAccounts(r.users, r.auths);
    }

    method AppendHead(ok: bool, nextUid: u32) returns (ok': bool)
      requires Tells(ok)
      modifies this, buffer
      ensures Tells(ok') && wanted == old(wanted) + HeadText(nextUid)
    {
      hide Decimal;
      ghost var w := wanted;
      ok' := AppendText(ok, "version=2\n");
      ok' := AppendText(ok', "next_uid=");
      assert wanted == w + ("version=2\n" + "next_uid=");
      ok' := AppendU32(ok', nextUid);
      ok' := AppendText(ok', "\n\n");
      assert wanted == w + ("version=2\n" + "next_uid=" + Decimal(nextUid) + "\n\n");
    }

    method AppendAccounts(ok: bool, r: Registry) returns (ok': bool)
      requires Tells(ok) && |r.users| == |r.auths|
      modifies this, buffer
      ensures Tells(ok') && wanted == old(wanted) + PrintAccounts(r.users, r.auths)
    {
      hide AccountLine;
      ok' := ok;
      ghost var total := wanted + PrintAccounts(r.users, r.auths);
      assert r.users[0..] == r.users && r.auths[0..] == r.auths;
      for i := 0 to |r.users|
        invariant Tells(ok') && wanted + PrintAccounts(r.users[i..], r.auths[i..]) == total
      {
        ghost var before, rest := wanted, PrintAccounts(r.users[i + 1..], r.auths[i + 1..]);
        assert r.users[i..][1..] == r.users[i + 1..] && r.auths[i..][1..] == r.auths[i + 1..];
        ok' := AppendAccount(ok', r.users[i], r.auths[i]);
        assert before + (AccountLine(r.users[i], r.auths[i]) + "\n" + rest) == wanted + rest;
      }
      assert PrintAccounts(r.users[|r.users|..], r.auths[|r.users|..]) == "";
    }
  }

  function HeadText(nextUid: u32): string {
    "version=2\n" + "next_uid=" + Decimal(nextUid) + "\n\n"
  }

  lemma PrintText(r: Registry)
    requires |r.users| == |r.auths|
    ensures Print(r) == HeadText(r.nextUid) + PrintAccounts(r.users, r.auths)
  {
  }

  function KeyText(k: Key): string {
    " " + Name(k) + "="
  }

  function NameText(u: User): string {
    "account" + KeyText(Uid) + Decimal(u.uid) + KeyText(Username) + u.username + KeyText(RoleKey) + RoleName(u.role)
  }

  function UserText(u: User): string {
    NameText(u) + KeyText(Home) + u.home + KeyText(FlagsKey) + FlagsName(u.initial)
  }

  function AuthText(a: Auth): string {
    var part := KeyText(AuthKey) + AlgorithmName(a.algorithm);
    if a.algorithm == NoPassword then part
    else
      part + KeyText(Salt) + Hex(a.salt) + KeyText(Iterations) + Decimal(a.iterations) + KeyText(HashKey) + Hex(a.hash)
  }

  lemma {:induction false} PrintAppend(fs: seq<Field>, k: Key, v: string)
    ensures PrintFields(fs + [Field(Name(k), v)]) == PrintFields(fs) + KeyText(k) + v
  {
    var f := Field(Name(k), v);
    if fs == [] {
      assert fs + [f] == [f];
      assert [f][1..] == [];
    } else {
      assert (fs + [f])[1..] == fs[1..] + [f];
      PrintAppend(fs[1..], k, v);
    }
  }

  function UserPart(u: User): seq<Field> {
    [] + [Field(Name(Uid), Decimal(u.uid))] + [Field(Name(Username), u.username)] + [Field(Name(RoleKey),
        RoleName(u.role))]
    + [Field(Name(Home), u.home)] + [Field(Name(FlagsKey), FlagsName(u.initial))]
  }

  lemma UserPartText(u: User)
    ensures UserText(u) == "account" + PrintFields(UserPart(u))
  {
    hide PrintFields, Name, KeyText, Decimal, RoleName, FlagsName;
    var f1, f2, f3 := Field(Name(Uid), Decimal(u.uid)), Field(Name(Username), u.username),
      Field(Name(RoleKey), RoleName(u.role));
    var f4 := Field(Name(Home), u.home);
    PrintNothing();
    PrintAppend([], Uid, Decimal(u.uid));
    PrintAppend([] + [f1], Username, u.username);
    PrintAppend([] + [f1] + [f2], RoleKey, RoleName(u.role));
    PrintAppend([] + [f1] + [f2] + [f3], Home, u.home);
    PrintAppend([] + [f1] + [f2] + [f3] + [f4], FlagsKey, FlagsName(u.initial));
  }

  /** The pieces make up the account's line. */
  lemma LineText(u: User, a: Auth)
    ensures UserText(u) + AuthText(a) == AccountLine(u, a)
  {
    hide PrintFields, Name, KeyText, Decimal, Hex, AlgorithmName, RoleName, FlagsName, UserText;
    UserPartText(u);
    var five, f6 := UserPart(u), Field(Name(AuthKey), AlgorithmName(a.algorithm));
    PrintAppend(five, AuthKey, AlgorithmName(a.algorithm));
    if a.algorithm == NoPassword {
      assert AccountFields(u, a) == five + [f6];
    } else {
      var f7, f8, f9 := Field(Name(Salt), Hex(a.salt)), Field(Name(Iterations), Decimal(a.iterations)),
        Field(Name(HashKey), Hex(a.hash));
      PrintAppend(five + [f6], Salt, Hex(a.salt));
      PrintAppend(five + [f6] + [f7], Iterations, Decimal(a.iterations));
      PrintAppend(five + [f6] + [f7] + [f8], HashKey, Hex(a.hash));
      assert AccountFields(u, a) == five + [f6] + [f7] + [f8] + [f9];
      hide UserPart;
    }
  }

  lemma PrintNothing()
    ensures PrintFields([]) == ""
  {
  }

  /** The digits of a number, the last one first. */
  method DigitsOf(value: u32) returns (digits: string)
    ensures Reversed(digits) == Decimal(value)
  {
    digits := "";
    var v: nat := value;
    if v == 0 {
      digits := [DigitChar(0)];
      ReversedAppend("", DigitChar(0));
      assert "" + digits == digits;
      return;
    }
    while v != 0
      invariant Decimal(value) == if v == 0 then Reversed(digits) else Decimal(v) + Reversed(digits)
    {
      ghost var before := digits;
      digits := digits + [DigitChar(v % 10)];
      ReversedAppend(before, DigitChar(v % 10));
      if v >= 10 {
        assert Decimal(v) + Reversed(before) == Decimal(v / 10) + ([DigitChar(v % 10)] + Reversed(before));
      }
      v := v / 10;
    }
  }

  function Reversed(s: string): string {
    if s == "" then "" else Reversed(s[1..]) + [s[0]]
  }

  lemma {:induction false} ReversedAppend(s: string, c: char)
    ensures Reversed(s + [c]) == [c] + Reversed(s)
  {
    if s == "" {
      assert s + [c] == [c];
      assert [c][1..] == "";
    } else {
      assert (s + [c])[1..] == s[1..] + [c];
      ReversedAppend(s[1..], c);
    }
  }

  lemma {:induction false} HexAppend(bs: seq<byte>, b: byte)
    ensures Hex(bs + [b]) == Hex(bs) + [HexChar(b / 16), HexChar(b % 16)]
  {
    if bs == [] {
      assert bs + [b] == [b];
      assert [b][1..] == [];
    } else {
      assert (bs + [b])[1..] == bs[1..] + [b];
      HexAppend(bs[1..], b);
    }
  }

  // ----- parsing -----

  method ParseNumber(text: string) returns (r: Option<u32>)
    ensures r == ParseU32(text)
  {
    if text == "" {
      return None;
    }
    var value: nat := 0;
    assert text[0..] == text;
    for i := 0 to |text|
      invariant value <= U32_MAX && Number(text, 0) == Number(text[i..], value)
    {
      assert text[i..][1..] == text[i + 1..];
      if !Digit(text[i]) {
        return None;
      }
      var digit := DigitValue(text[i]);
      if value > (U32_MAX - digit) / 10 {
        return None;
      }
      value := value * 10 + digit;
    }
    r := Some(value);
  }

  method ParseHexDigits(text: string, n: nat) returns (r: Option<seq<byte>>)
    ensures r == ParseHex(text, n)
  {
    if |text| != 2 * n {
      return None;
    }
    var output: seq<byte> := [];
    assert text[0..] == text;
    BytesBeforeNothing(ParseHex(text, n));
    for i := 0 to n
      invariant |output| == i && ParseHex(text, n) == BytesBefore(output, ParseHex(text[2 * i..], n - i))
    {
      var high, low := HexValue(text[2 * i]), HexValue(text[2 * i + 1]);
      assert text[2 * i..][2..] == text[2 * (i + 1)..];
      if high.None? || low.None? {
        return None;
      }
      BytesBeforeStep(output, high.value * 16 + low.value, ParseHex(text[2 * (i + 1)..], n - (i + 1)));
      output := output + [high.value * 16 + low.value];
    }
    r := Some(output);
    assert output + [] == output;
  }

  ghost function BytesBefore(done: seq<byte>, rest: Option<seq<byte>>): Option<seq<byte>> {
    if rest.None? then None else Some(done + rest.value)
  }

  lemma BytesBeforeNothing(rest: Option<seq<byte>>)
    ensures BytesBefore([], rest) == rest
  {
    if rest.Some? {
      assert [] + rest.value == rest.value;
    }
  }

  lemma BytesBeforeStep(done: seq<byte>, b: byte, rest: Option<seq<byte>>)
    ensures BytesBefore(done, if rest.None? then None else Some([b] + rest.value)) == BytesBefore(done + [b], rest)
  {
    if rest.Some? {
      assert done + ([b] + rest.value) == done + [b] + rest.value;
    }
  }

  /** Trim the line between two positions and cut its comment. */
  method TrimSpan(text: string, start: nat, end: nat) returns (left: nat, right: nat)
    requires start <= end <= |text|
    ensures start <= left <= right <= end && text[left..right] == TrimLine(text[start..end])
  {
    left, right := TrimSides(text, start, end);
    hide TrimLeft, TrimRight, CommentAt, TrimBlanksRight;
    right := CutComment(text, left, right);
  }

  method TrimSides(text: string, start: nat, end: nat) returns (left: nat, right: nat)
    requires start <= end <= |text|
    ensures start <= left <= right <= end && text[left..right] == TrimRight(TrimLeft(text[start..end]))
  {
    left := start;
    while left < end && Space(text[left])
      invariant start <= left <= end && TrimLeft(text[start..end]) == TrimLeft(text[left..end])
    {
      assert text[left..end][1..] == text[left + 1..end];
      left := left + 1;
    }
    assert TrimLeft(text[start..end]) == text[left..end];
    hide TrimLeft;
    right := TrimEnd(text, left, end);
  }

  method TrimEnd(text: string, left: nat, end: nat) returns (right: nat)
    requires left <= end <= |text|
    ensures left <= right <= end && text[left..right] == TrimRight(text[left..end])
  {
    right := end;
    while right > left && Space(text[right - 1])
      invariant left <= right <= end && TrimRight(text[left..end]) == TrimRight(text[left..right])
    {
      assert text[left..right][..right - left - 1] == text[left..right - 1];
      right := right - 1;
    }
  }

  method TrimBlanksEnd(text: string, left: nat, end: nat) returns (right: nat)
    requires left <= end <= |text|
    ensures left <= right <= end && text[left..right] == TrimBlanksRight(text[left..end])
  {
    right := end;
    while right > left && Blank(text[right - 1])
      invariant left <= right <= end && TrimBlanksRight(text[left..end]) == TrimBlanksRight(text[left..right])
    {
      assert text[left..right][..right - left - 1] == text[left..right - 1];
      right := right - 1;
    }
  }

  method CutComment(text: string, left: nat, end: nat) returns (right: nat)
    requires left <= end <= |text|
    ensures left <= right <= end
    ensures var t := text[left..end];
            var n := CommentAt(t, 0, false);
            text[left..right] == if n < |t| then TrimBlanksRight(t[..n]) else t
  {
    hide TrimBlanksRight;
    var quote := false;
    var i := left;
    ghost var t := text[left..end];
    while i + 1 < end
      invariant left <= i <= end
      invariant i - left <= |t| && CommentAt(t, 0, false) == CommentAt(t, i - left, quote)
    {
      if text[i] == '"' {
        quote := !quote;
      }
      if !quote && text[i] == '/' && text[i + 1] == '/' {
        assert t[..i - left] == text[left..i];
        right := TrimBlanksEnd(text, left, i);
        return;
      }
      i := i + 1;
    }
    right := end;
  }

  /** What a line's remaining text makes of a draft. */
  ghost function Remaining(d: Draft, rest: string, version: nat): Option<Draft> {
    var fs := Fields(rest);
    if fs.None? then None else SetFields(d, fs.value, version)
  }

  lemma RemainingStep(d: Draft, rest: string, version: nat)
    ensures var s := SkipBlanks(rest);
            var k := KeyLength(s);
            Remaining(d, rest, version)
            == if s == "" then Some(d)
               else if k == 0 || k >= |s| || s[k] != '=' || ValueLength(s[k + 1..]) == 0 then None
               else
                 var n := ValueLength(s[k + 1..]);
                 var d1 := SetField(d, Field(s[..k], s[k + 1..][..n]), version);
                 if d1.None? then None else Remaining(d1.value, s[k + 1..][n..], version)
  {
    hide SetField, SkipBlanks, KeyLength, ValueLength;
    var s := SkipBlanks(rest);
    var k := KeyLength(s);
    if s != "" && 0 < k < |s| && s[k] == '=' && ValueLength(s[k + 1..]) != 0 {
      var n := ValueLength(s[k + 1..]);
      var more := Fields(s[k + 1..][n..]);
      if more.Some? {
        assert Fields(rest) == Some([Field(s[..k], s[k + 1..][..n])] + more.value);
        SetFieldsStep(d, Field(s[..k], s[k + 1..][..n]), more.value, version);
      }
    }
  }

  method SkipBlanksAt(line: string, position: nat) returns (p: nat)
    requires position <= |line|
    ensures position <= p <= |line| && line[p..] == SkipBlanks(line[position..])
  {
    p := position;
    while p < |line| && Blank(line[p])
      invariant position <= p <= |line| && SkipBlanks(line[position..]) == SkipBlanks(line[p..])
    {
      assert line[p..][1..] == line[p + 1..];
      p := p + 1;
    }
  }

  method KeyEnd(line: string, position: nat) returns (p: nat)
    requires position <= |line|
    ensures position <= p <= |line| && p - position == KeyLength(line[position..])
  {
    p := position;
    while p < |line| && line[p] != '=' && !Blank(line[p])
      invariant position <= p <= |line| && KeyLength(line[position..]) == p - position + KeyLength(line[p..])
    {
      assert line[p..][1..] == line[p + 1..];
      p := p + 1;
    }
  }

  method ValueEnd(line: string, position: nat) returns (p: nat)
    requires position <= |line|
    ensures position <= p <= |line| && p - position == ValueLength(line[position..])
  {
    p := position;
    while p < |line| && !Blank(line[p])
      invariant position <= p <= |line| && ValueLength(line[position..]) == p - position + ValueLength(line[p..])
    {
      assert line[p..][1..] == line[p + 1..];
      p := p + 1;
    }
  }

  /** Read the fields of an account line from a position on. */
  method ReadFields(line: string, start: nat, version: nat) returns (r: Option<Draft>)
    requires start <= |line|
    ensures r == Remaining(BLANK, line[start..], version)
  {
    hide SetField, SkipBlanks, KeyLength, ValueLength, Remaining;
    var position := start;
    var draft := BLANK;
    while true
      invariant start <= position <= |line|
                && Remaining(BLANK, line[start..], version) == Remaining(draft, line[position..], version)
      decreases |line| - position
    {
      RemainingStep(draft, line[position..], version);
      var key := SkipBlanksAt(line, position);
      if key == |line| {
        return Some(draft);
      }
      ghost var s := line[key..];
      var equals := KeyEnd(line, key);
      if equals == key || equals == |line| || line[equals] != '=' {
        return None;
      }
      var value := equals + 1;
      assert s[equals - key] == line[equals] && s[equals - key + 1..] == line[value..];
      var end := ValueEnd(line, value);
      if end == value {
        return None;
      }
      assert s[..equals - key] == line[key..equals] && line[value..][..end - value] == line[value..end];
      assert line[value..][end - value..] == line[end..];
      var next := SetField(draft, Field(line[key..equals], line[value..end]), version);
      if next.None? {
        return None;
      }
      draft, position := next.value, end;
    }
  }

  method ReadAccount(line: string, version: nat) returns (r: Option<(User, Auth)>)
    ensures r == ParseAccount(line, version)
  {
    hide SkipBlanks, Remaining, Finish, Fields, SetFields;
    var position := SkipBlanksAt(line, 0);
    assert line[0..] == line;
    ghost var s := SkipBlanks(line);
    if position + 7 > |line| || line[position..position + 7] != "account"
      || (position + 7 < |line| && !Blank(line[position + 7])) {
      assert |s| >= 7 ==> s[..7] == line[position..position + 7];
      return None;
    }
    assert s[..7] == line[position..position + 7] && s[7..] == line[position + 7..];
    var draft := ReadFields(line, position + 7, version);
    RemainingIs(BLANK, s[7..], version);
    if draft.None? {
      return None;
    }
    r := Finish(draft.value, version);
  }

  lemma RemainingIs(d: Draft, rest: string, version: nat)
    ensures Remaining(d, rest, version) == if Fields(rest).None? then None
            else SetFields(d, Fields(rest).value, version)
  {
  }

  /** Whether an earlier account has the UID or the name. */
  method FindSame(users: seq<User>, u: User) returns (found: bool)
    ensures found <==> Known(users, u)
  {
    for i := 0 to |users|
      invariant forall k :: 0 <= k < i ==> !Same(users[k], u)
    {
      if Same(users[i], u) {
        return true;
      }
    }
    found := false;
  }

  /** Take one trimmed line. */
  method ReadLine(db: Db, line: string) returns (r: Option<Db>)
    ensures r == if line == "" then Some(db) else TakeTrimmed(db, line)
  {
    hide ParseAccount, ParseU32;
    if line == "" {
      return Some(db);
    }
    if db.version == 0 {
      var v := ParseVersion(line);
      return if v.None? then None else Some(db.(version := v.value));
    }
    if db.nextUid.None? {
      var separator := EqualsAt(line);
      if separator == |line| || line[..separator] != "next_uid" {
        return None;
      }
      var n := ParseNumber(line[separator + 1..]);
      return if n.None? then None else Some(db.(nextUid := n));
    }
    if |db.users| >= MAX_RECORDS {
      return None;
    }
    var account := ReadAccount(line, db.version);
    if account.None? {
      return None;
    }
    var known := FindSame(db.users, account.value.0);
    r := if known then None else TakeAccount(db, account);
  }

  /** Parse a database: line by line, then the checks on the whole. */
  method ReadDatabase(text: string) returns (r: Option<(Registry, bool)>)
    ensures r == ParseDatabase(text)
  {
    if text == "" || |text| > MAX_BYTES {
      return None;
    }
    hide TakeLines, Lines, Complete;
    var db := EMPTY;
    var position := 0;
    assert text[0..] == text;
    while position < |text|
      invariant position <= |text| && TakeLines(EMPTY, Lines(text)) == TakeLines(db, Lines(text[position..]))
    {
      var taken, next := ReadNextLine(db, text, position);
      if taken.None? {
        return None;
      }
      db, position := taken.value, next;
    }
    assert text[|text|..] == "";
    NothingLeft(db);
    if !Complete(db) {
      return None;
    }
    CompleteParts(db);
    r := Some((Registry(db.users, db.auths, db.nextUid.value), db.version == 1));
  }

  lemma NothingLeft(db: Db)
    ensures TakeLines(db, Lines("")) == Some(db)
  {
  }

  lemma CompleteParts(db: Db)
    requires Complete(db)
    ensures db.nextUid.Some?
  {
  }

  /** Trim and take the line at a position. */
  method ReadNextLine(db: Db, text: string, position: nat) returns (taken: Option<Db>, next: nat)
    requires position < |text|
    ensures position < next <= |text|
    ensures TakeLines(db, Lines(text[position..])) == if taken.None? then None
            else TakeLines(taken.value, Lines(text[next..]))
  {
    hide TrimLine, TakeTrimmed, LineLength, TakeLines, Lines;
    ghost var rest := text[position..];
    var end := LineEnd(text, position);
    LineSome(rest);
    next := if end < |text| then end + 1 else end;
    assert rest[..end - position] == text[position..end];
    assert end < |text| ==> rest[end - position + 1..] == text[end + 1..];
    LinesStep(db, rest, end - position, text[next..]);
    var left, right := TrimSpan(text, position, end);
    taken := ReadLine(db, text[left..right]);
  }

  lemma LineSome(rest: string)
    ensures rest != "" && LineLength(rest) == 0 ==> rest[0] == '\n'
  {
  }

  method LineEnd(text: string, position: nat) returns (p: nat)
    requires position <= |text|
    ensures position <= p <= |text| && p - position == LineLength(text[position..])
  {
    p := position;
    while p < |text| && text[p] != '\n'
      invariant position <= p <= |text| && LineLength(text[position..]) == p - position + LineLength(text[p..])
    {
      assert text[p..][1..] == text[p + 1..];
      p := p + 1;
    }
  }

  lemma LinesStep(db: Db, rest: string, n: nat, after: string)
    requires rest != "" && n == LineLength(rest) && after == if n < |rest| then rest[n + 1..] else ""
    ensures TakeLines(db, Lines(rest)) == var d := TakeLine(db, rest[..n]); if d.None? then None
            else TakeLines(d.value, Lines(after))
  {
    hide TakeLine, LineLength;
    assert Lines(rest) == [rest[..n]] + Lines(after);
    assert ([rest[..n]] + Lines(after))[1..] == Lines(after);
  }
}
