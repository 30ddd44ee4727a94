/** The account database as text: what is printed for a registry, and what a
    text means to the parser. */
module IdentityText {
  import opened Options
  import opened Identity

  // ----- numbers -----

  function DigitChar(d: nat): (c: char)
    requires d < 10
    ensures Digit(c)
  {
    '0' + d as char
  }

  function DigitValue(c: char): (d: nat)
    requires Digit(c)
    ensures d < 10
  {
    (c - '0') as nat
  }

  function Decimal(v: nat): (s: string)
    ensures s != "" && forall i :: 0 <= i < |s| ==> Digit(s[i])
  {
    if v < 10 then [DigitChar(v)] else Decimal(v / 10) + [DigitChar(v % 10)]
  }

  /** Read digits behind the value so far; too large a value is refused. */
  function Number(s: string, value: nat): Option<u32>
    requires value <= U32_MAX
    decreases s
  {
    if s == "" then Some(value)
    else if !Digit(s[0]) || value * 10 + DigitValue(s[0]) > U32_MAX then None
    else Number(s[1..], value * 10 + DigitValue(s[0]))
  }

  function ParseU32(s: string): Option<u32> {
    if s == "" then None else Number(s, 0)
  }

  lemma {:induction false} NumberAppend(s: string, c: char, value: nat)
    requires value <= U32_MAX && Digit(c)
    ensures Number(s + [c], value)
            == (match Number(s, value)
                case None => None
                case Some(v) => if v * 10 + DigitValue(c) > U32_MAX then None else Some(v * 10 + DigitValue(c)))
    decreases s
  {
    if s == "" {
      assert s + [c] == [c];
      assert [c][1..] == "";
    } else {
      assert (s + [c])[1..] == s[1..] + [c];
      if Digit(s[0]) && value * 10 + DigitValue(s[0]) <= U32_MAX {
        NumberAppend(s[1..], c, value * 10 + DigitValue(s[0]));
      }
    }
  }

  lemma DigitRoundTrip(d: nat)
    requires d < 10
    ensures DigitValue(DigitChar(d)) == d
  {
  }

  /** A printed number is read back. */
  lemma {:induction false} NumberRoundTrip(v: nat)
    requires v <= U32_MAX
    ensures ParseU32(Decimal(v)) == Some(v)
  {
    if v < 10 {
      DigitRoundTrip(v);
      var s := [DigitChar(v)];
      assert s[1..] == "";
      assert Number(s[1..], v) == Some(v);
    } else {
      NumberRoundTrip(v / 10);
      DigitRoundTrip(v % 10);
      NumberAppend(Decimal(v / 10), DigitChar(v % 10), 0);
    }
  }

  // ----- hexadecimal -----

  function HexChar(d: nat): (c: char)
    requires d < 16
    ensures Digit(c) || 'a' <= c <= 'f'
  {
    if d < 10 then '0' + d as char else 'a' + (d - 10) as char
  }

  function HexValue(c: char): (d: Option<nat>)
    ensures d.Some? ==> d.value < 16
  {
    if Digit(c) then Some((c - '0') as nat)
    else if 'a' <= c <= 'f' then Some((c - 'a') as nat + 10)
    else if 'A' <= c <= 'F' then Some((c - 'A') as nat + 10)
    else None
  }

  function Hex(bs: seq<byte>): (s: string)
    ensures |s| == 2 * |bs|
    ensures forall i :: 0 <= i < |s| ==> Digit(s[i]) || 'a' <= s[i] <= 'f'
  {
    if bs == [] then "" else [HexChar(bs[0] / 16), HexChar(bs[0] % 16)] + Hex(bs[1..])
  }

  function ParseHex(s: string, n: nat): (r: Option<seq<byte>>)
    ensures r.Some? ==> |r.value| == n
    decreases n
  {
    if |s| != 2 * n then None
    else if n == 0 then Some([])
    else
      var high, low, rest := HexValue(s[0]), HexValue(s[1]), ParseHex(s[2..], n - 1);
      if high.None? || low.None? || rest.None? then None else Some([high.value * 16 + low.value] + rest.value)
  }

  lemma HexDigitRoundTrip(d: nat)
    requires d < 16
    ensures HexValue(HexChar(d)) == Some(d)
  {
  }

  lemma {:induction false} HexRoundTrip(bs: seq<byte>)
    ensures ParseHex(Hex(bs), |bs|) == Some(bs)
  {
    if bs != [] {
      HexDigitRoundTrip(bs[0] / 16);
      HexDigitRoundTrip(bs[0] % 16);
      HexRoundTrip(bs[1..]);
      assert Hex(bs)[2..] == Hex(bs[1..]);
      assert bs == [bs[0]] + bs[1..];
    }
  }

  // ----- fields -----

  predicate Blank(c: char) { c == ' ' || c == '\t' }

  function SkipBlanks(s: string): (r: string)
    ensures |r| <= |s| && (r == "" || !Blank(r[0]))
  {
    if s != "" && Blank(s[0]) then SkipBlanks(s[1..]) else s
  }

  /** The length of a key: up to an equals sign or a blank. */
  function KeyLength(s: string): (n: nat)
    ensures n <= |s|
  {
    if s == "" || s[0] == '=' || Blank(s[0]) then 0 else 1 + KeyLength(s[1..])
  }

  function ValueLength(s: string): (n: nat)
    ensures n <= |s|
  {
    if s == "" || Blank(s[0]) then 0 else 1 + ValueLength(s[1..])
  }

  datatype Field = Field(key: string, value: string)

  /** The key=value fields of a line. */
  function Fields(line: string): Option<seq<Field>>
    decreases |line|
  {
    var s := SkipBlanks(line);
    if s == "" then Some([])
    else
      var k := KeyLength(s);
      if k == 0 || k >= |s| || s[k] != '=' then None
      else
        var rest := s[k + 1..];
        var n := ValueLength(rest);
        if n == 0 then None
        else
          var more := Fields(rest[n..]);
          if more.None? then None else Some([Field(s[..k], rest[..n])] + more.value)
  }

  predicate PlainKey(s: string) {
    s != "" && forall i :: 0 <= i < |s| ==> s[i] != '=' && !Blank(s[i])
  }

  predicate PlainValue(s: string) {
    s != "" && forall i :: 0 <= i < |s| ==> !Blank(s[i])
  }

  function PrintFields(fs: seq<Field>): string {
    if fs == [] then "" else " " + fs[0].key + "=" + fs[0].value + PrintFields(fs[1..])
  }

  lemma {:induction false} KeyLengthOf(key: string, rest: string)
    requires forall i :: 0 <= i < |key| ==> key[i] != '=' && !Blank(key[i])
    requires rest != "" && rest[0] == '='
    ensures KeyLength(key + rest) == |key|
  {
    if key == "" {
      assert key + rest == rest;
    } else {
      assert (key + rest)[1..] == key[1..] + rest;
      KeyLengthOf(key[1..], rest);
    }
  }

  lemma {:induction false} ValueLengthOf(value: string, rest: string)
    requires forall i :: 0 <= i < |value| ==> !Blank(value[i])
    requires rest == "" || Blank(rest[0])
    ensures ValueLength(value + rest) == |value|
  {
    if value == "" {
      assert value + rest == rest;
    } else {
      assert (value + rest)[1..] == value[1..] + rest;
      ValueLengthOf(value[1..], rest);
    }
  }

  /** Printed fields are read back. */
  lemma {:induction false} FieldsRoundTrip(fs: seq<Field>)
    requires forall i :: 0 <= i < |fs| ==> PlainKey(fs[i].key) && PlainValue(fs[i].value)
    ensures Fields(PrintFields(fs)) == Some(fs)
  {
    if fs != [] {
      var f, rest := fs[0], PrintFields(fs[1..]);
      FieldsRoundTrip(fs[1..]);
      assert fs == [f] + fs[1..];
      OneField(f, rest);
    }
  }

  lemma OneField(f: Field, rest: string)
    requires PlainKey(f.key) && PlainValue(f.value) && (rest == "" || Blank(rest[0]))
    ensures Fields(" " + f.key + "=" + f.value + rest)
            == if Fields(rest).None? then None else Some([f] + Fields(rest).value)
  {
    var tail := f.value + rest;
    var s := f.key + ("=" + tail);
    var line := " " + s;
    assert " " + f.key + "=" + f.value + rest == line;
    KeyLengthOf(f.key, "=" + tail);
    ValueLengthOf(f.value, rest);
    assert SkipBlanks(line) == s by {
      assert line[1..] == s && s[0] == f.key[0];
    }
    hide SkipBlanks, KeyLength, ValueLength, Fields;
    FieldsStep(line, s, tail, f, rest);
  }

  lemma FieldsStep(line: string, s: string, tail: string, f: Field, rest: string)
    requires SkipBlanks(line) == s && s == f.key + ("=" + tail) && tail == f.value + rest
    requires KeyLength(s) == |f.key| > 0 && ValueLength(tail) == |f.value| > 0
    ensures Fields(line) == if Fields(rest).None? then None else Some([f] + Fields(rest).value)
  {
    hide SkipBlanks, KeyLength, ValueLength;
    assert s[|f.key|] == '=';
    assert s[|f.key| + 1..] == tail;
    assert tail[|f.value|..] == rest;
    assert s[..|f.key|] == f.key;
    assert tail[..|f.value|] == f.value;
  }

  // ----- accounts -----

  datatype Key = Uid | Username | RoleKey | Home | FlagsKey | AuthKey | Salt | Iterations | HashKey

  function Name(k: Key): string {
    match k
    case Uid => "uid" case Username => "username" case RoleKey => "role" case Home => "home" case FlagsKey => "flags"
    case AuthKey => "auth" case Salt => "salt" case Iterations => "iterations" case HashKey => "hash"
  }

  function KeyOf(s: string): Option<Key> {
    if s == "uid" then Some(Uid) else if s == "username" then Some(Username) else if s == "role" then Some(RoleKey)
    else if s == "home" then Some(Home) else if s == "flags" then Some(FlagsKey) else if s == "auth" then Some(AuthKey)
    else if s == "salt" then Some(Salt) else if s == "iterations" then Some(Iterations)
      else if s == "hash" then Some(HashKey)
    else None
  }

  lemma KeyNames(k: Key)
    ensures KeyOf(Name(k)) == Some(k) && PlainKey(Name(k))
  {
    var n := Name(k);
    assert n[0]
           == (match k case Uid => 'u' case Username => 'u' case RoleKey => 'r' case Home => 'h' case FlagsKey => 'f'
                            case AuthKey => 'a' case Salt => 's' case Iterations => 'i' case HashKey => 'h');
    assert k.Home? ==> n[1] == 'o';
    assert k.HashKey? ==> n[1] == 'a';
    assert "uid"[0] == 'u' && "role"[0] == 'r' && "home"[1] == 'o' && "auth"[0] == 'a' && "salt"[0] == 's'
           && "hash"[1] == 'a';
  }

  /** A C string: what comes before the first zero byte. */
  function CString(s: string): (r: string)
    ensures |r| <= |s|
  {
    if s == "" || s[0] == 0 as char then "" else [s[0]] + CString(s[1..])
  }

  lemma {:induction false} CStringPlain(s: string)
    requires forall i :: 0 <= i < |s| ==> s[i] != 0 as char
    ensures CString(s) == s
  {
    if s != "" {
      CStringPlain(s[1..]);
    }
  }

  function CopySpan(value: string, capacity: nat): Option<string> {
    if value == "" || |value| >= capacity then None else Some(CString(value))
  }

  function RoleName(r: Role): string {
    if r == Admin then "admin" else "regular"
  }

  function ParseRole(s: string): Option<Role> {
    if s == "regular" then Some(Regular) else if s == "admin" then Some(Admin) else None
  }

  function FlagsName(initial: bool): string {
    if initial then "initial" else "none"
  }

  function ParseFlags(s: string): Option<bool> {
    if s == "none" then Some(false) else if s == "initial" then Some(true) else None
  }

  function AlgorithmName(a: Algorithm): string {
    match a
    case NoPassword => "none"
    case Pbkdf2 => "pbkdf2-sha256"
  }

  /** What has been seen of an account line. */
  datatype Draft = Draft(uid: Option<u32>, username: Option<string>, role: Option<Role>, home: Option<string>,
                         initial: Option<bool>,
                         auth: Option<string>, salt: Option<seq<byte>>, iterations: Option<u32>,
                           hash: Option<seq<byte>>)

  const BLANK := Draft(None, None, None, None, None, None, None, None, None)

  /** One field: refused if unknown, repeated or malformed. */
  function SetField(d: Draft, f: Field, version: nat): Option<Draft> {
    match KeyOf(f.key)
    case None => None
    case Some(Uid) => var v := ParseU32(f.value); if d.uid.Some? || v.None? then None else Some(d.(uid := v))
    case Some(Username) => var v := CopySpan(f.value, USERNAME_CAPACITY); if d.username.Some? || v.None? then None
      else Some(d.(username := v))
    case Some(RoleKey) => var v := ParseRole(f.value); if d.role.Some? || v.None? then None else Some(d.(role := v))
    case Some(Home) => var v := CopySpan(f.value, HOME_CAPACITY); if d.home.Some? || v.None? then None
      else Some(d.(home := v))
    case Some(FlagsKey) => var v := ParseFlags(f.value); if d.initial.Some? || v.None? then None
      else Some(d.(initial := v))
    case Some(AuthKey) =>
      var v := CopySpan(f.value, 32); if version != 2 || d.auth.Some? || v.None? then None else Some(d.(auth := v))
    case Some(Salt) =>
      var v := ParseHex(f.value, 16); if version != 2 || d.salt.Some? || v.None? then None else Some(d.(salt := v))
    case Some(Iterations) =>
      var v := ParseU32(f.value); if version != 2 || d.iterations.Some? || v.None? then None
        else Some(d.(iterations := v))
    case Some(HashKey) =>
      var v := ParseHex(f.value, 32); if version != 2 || d.hash.Some? || v.None? then None else Some(d.(hash := v))
  }

  function SetFields(d: Draft, fs: seq<Field>, version: nat): Option<Draft>
    decreases fs
  {
    if fs == [] then Some(d)
    else
      var d1 := SetField(d, fs[0], version);
      if d1.None? then None else SetFields(d1.value, fs[1..], version)
  }

  function ZeroBytes(n: nat): (s: seq<byte>)
    ensures |s| == n && Zeros(s)
  {
    seq(n, _ => 0)
  }

  const NO_AUTH := Auth(NoPassword, 0, ZeroBytes(16), ZeroBytes(32))

  /** The account a complete line stands for. */
  function Finish(d: Draft, version: nat): Option<(User, Auth)> {
    if d.uid.None? || d.username.None? || d.role.None? || d.home.None? || d.initial.None? then None
    else
      var u := User(d.uid.value, d.username.value, d.role.value, d.home.value, d.initial.value);
      if !UserValid(u) then None
      else if version == 1 then Some((u, NO_AUTH))
      else if d.auth == Some(AlgorithmName(NoPassword))
        then (if d.salt.Some? || d.iterations.Some? || d.hash.Some? then None else Some((u, NO_AUTH)))
      else if d.auth != Some(AlgorithmName(Pbkdf2)) || d.salt.None? || d.iterations.None? || d.hash.None? then None
      else
        var a := Auth(Pbkdf2, d.iterations.value, d.salt.value, d.hash.value);
        if AuthValid(a) then Some((u, a)) else None
  }

  /** A line with a leading word "account" and fields. */
  function ParseAccount(line: string, version: nat): Option<(User, Auth)> {
    var s := SkipBlanks(line);
    if |s| < 7 || s[..7] != "account" || (|s| > 7 && !Blank(s[7])) then None
    else
      var fs := Fields(s[7..]);
      if fs.None? then None
      else
        var d := SetFields(BLANK, fs.value, version);
        if d.None? then None else Finish(d.value, version)
  }

  /** The fields printed for an account. */
  function AccountFields(u: User, a: Auth): seq<Field> {
    [Field(Name(Uid), Decimal(u.uid)), Field(Name(Username), u.username), Field(Name(RoleKey), RoleName(u.role)),
     Field(Name(Home), u.home), Field(Name(FlagsKey), FlagsName(u.initial))]
    + [Field(Name(AuthKey), AlgorithmName(a.algorithm))]
    + (if a.algorithm == NoPassword then []
       else [Field(Name(Salt), Hex(a.salt)), Field(Name(Iterations), Decimal(a.iterations)),
             Field(Name(HashKey), Hex(a.hash))])
  }

  function AccountLine(u: User, a: Auth): string {
    "account" + PrintFields(AccountFields(u, a))
  }

  // ----- an account's line is read back -----

  lemma SetFieldsStep(d: Draft, f: Field, rest: seq<Field>, version: nat)
    ensures SetFields(d, [f] + rest, version)
            == if SetField(d, f, version).None? then None else SetFields(SetField(d, f, version).value, rest, version)
  {
    assert ([f] + rest)[1..] == rest;
  }

  lemma PlainNames(u: User)
    requires UserValid(u)
    ensures CopySpan(u.username, USERNAME_CAPACITY) == Some(u.username)
            && CopySpan(u.home, HOME_CAPACITY) == Some(u.home)
    ensures PlainValue(u.username) && PlainValue(u.home)
  {
    CStringPlain(u.username);
    assert forall i :: 0 <= i < |u.home| ==> u.home[i] != 0 as char && !Blank(u.home[i]) by {
      assert u.home == "/home/" + u.username;
    }
    CStringPlain(u.home);
  }

  /** The common fields. */
  lemma UserFields(u: User, rest: seq<Field>)
    requires UserValid(u)
    ensures SetFields(BLANK,
                      [Field(Name(Uid), Decimal(u.uid)), Field(Name(Username), u.username),
                       Field(Name(RoleKey), RoleName(u.role)),
                              Field(Name(Home), u.home), Field(Name(FlagsKey), FlagsName(u.initial))] + rest, 2)
            == SetFields(Draft(Some(u.uid), Some(u.username), Some(u.role), Some(u.home), Some(u.initial), None, None,
                               None, None), rest, 2)
  {
    var f1, f2, f3 := Field(Name(Uid), Decimal(u.uid)), Field(Name(Username), u.username),
      Field(Name(RoleKey), RoleName(u.role));
    var f4, f5 := Field(Name(Home), u.home), Field(Name(FlagsKey), FlagsName(u.initial));
    NumberRoundTrip(u.uid);
    PlainNames(u);
    WordsRoundTrip(u.role, u.initial);
    KeyNames(Uid);
    KeyNames(Username);
    KeyNames(RoleKey);
    KeyNames(Home);
    KeyNames(FlagsKey);
    hide SetFields, Name, KeyOf, ParseU32, Decimal, ParseRole, RoleName, ParseFlags, FlagsName, CopySpan;
    var d1 := BLANK.(uid := Some(u.uid));
    var d2 := d1.(username := Some(u.username));
    var d3 := d2.(role := Some(u.role));
    var d4 := d3.(home := Some(u.home));
    assert [f1, f2, f3, f4, f5] + rest == [f1] + ([f2] + ([f3] + ([f4] + ([f5] + rest))));
    SetFieldsStep(BLANK, f1, [f2] + ([f3] + ([f4] + ([f5] + rest))), 2);
    SetFieldsStep(d1, f2, [f3] + ([f4] + ([f5] + rest)), 2);
    SetFieldsStep(d2, f3, [f4] + ([f5] + rest), 2);
    SetFieldsStep(d3, f4, [f5] + rest, 2);
    SetFieldsStep(d4, f5, rest, 2);
  }

  lemma WordsRoundTrip(r: Role, initial: bool)
    ensures ParseRole(RoleName(r)) == Some(r) && ParseFlags(FlagsName(initial)) == Some(initial)
    ensures PlainValue(RoleName(r)) && Tidy(RoleName(r)) && NoDoubleSlash(RoleName(r))
    ensures PlainValue(FlagsName(initial)) && Tidy(FlagsName(initial)) && NoDoubleSlash(FlagsName(initial))
  {
    assert "admin"[0] != "regular"[0] && "initial"[0] != "none"[0];
  }

  lemma ZerosUnique(s: seq<byte>, n: nat)
    requires |s| == n && Zeros(s)
    ensures s == ZeroBytes(n)
  {
  }

  /** Lower-case letters, digits and dashes only. */
  predicate Wordy(s: string) {
    forall i :: 0 <= i < |s| ==> 'a' <= s[i] <= 'z' || Digit(s[i]) || s[i] == '-'
  }

  lemma WordyIsTidy(s: string)
    requires Wordy(s) && s != ""
    ensures PlainValue(s) && Tidy(s) && NoDoubleSlash(s) && CString(s) == s
  {
    hide CString;
    CStringPlain(s);
  }

  lemma AlgorithmNames(a: Algorithm)
    ensures CopySpan(AlgorithmName(a), 32) == Some(AlgorithmName(a))
            && (AlgorithmName(a) == AlgorithmName(NoPassword) <==> a == NoPassword)
    ensures PlainValue(AlgorithmName(a)) && Tidy(AlgorithmName(a)) && NoDoubleSlash(AlgorithmName(a))
  {
    AlgorithmLengths(a);
    hide AlgorithmName, CString, PlainValue, Tidy, NoDoubleSlash, Wordy;
    AlgorithmLengths(NoPassword);
    WordyIsTidy(AlgorithmName(a));
  }

  lemma AlgorithmLengths(a: Algorithm)
    ensures Wordy(AlgorithmName(a)) && |AlgorithmName(a)| == if a == NoPassword then 4 else 13
  {
  }

  lemma AuthFields(d: Draft, a: Auth)
    requires AuthValid(a) && a.algorithm == Pbkdf2 && d.salt.None? && d.iterations.None? && d.hash.None?
    ensures SetFields(d,
                      [Field(Name(Salt), Hex(a.salt)), Field(Name(Iterations), Decimal(a.iterations)),
                       Field(Name(HashKey), Hex(a.hash))], 2)
            == Some(d.(salt := Some(a.salt), iterations := Some(a.iterations), hash := Some(a.hash)))
  {
    hide SetFields, Name, KeyOf, ParseU32, Decimal, ParseHex, Hex;
    var f2, f3, f4 := Field(Name(Salt), Hex(a.salt)), Field(Name(Iterations), Decimal(a.iterations)),
      Field(Name(HashKey), Hex(a.hash));
    NumberRoundTrip(a.iterations);
    HexRoundTrip(a.salt);
    HexRoundTrip(a.hash);
    KeyNames(Salt);
    KeyNames(Iterations);
    KeyNames(HashKey);
    var d2 := d.(salt := Some(a.salt));
    var d3 := d2.(iterations := Some(a.iterations));
    assert [f2, f3, f4] == [f2] + ([f3] + ([f4] + []));
    SetFieldsStep(d, f2, [f3] + ([f4] + []), 2);
    SetFieldsStep(d2, f3, [f4] + [], 2);
    SetFieldsStep(d3, f4, [], 2);
    NoFields(d3.(hash := Some(a.hash)));
  }

  lemma NoFields(d: Draft)
    ensures SetFields(d, [], 2) == Some(d)
  {
  }

  lemma AuthField(d: Draft, a: Algorithm, rest: seq<Field>)
    requires d.auth.None?
    ensures SetFields(d, [Field(Name(AuthKey), AlgorithmName(a))] + rest, 2)
            == SetFields(d.(auth := Some(AlgorithmName(a))), rest, 2)
  {
    hide SetFields, Name, KeyOf, AlgorithmName, CopySpan;
    KeyNames(AuthKey);
    AlgorithmNames(a);
    SetFieldsStep(d, Field(Name(AuthKey), AlgorithmName(a)), rest, 2);
  }

  /** The fields of an account give the account back. */
  lemma AccountFieldsRoundTrip(u: User, a: Auth)
    requires UserValid(u) && AuthValid(a)
    ensures var d := SetFields(BLANK, AccountFields(u, a), 2); d.Some? && Finish(d.value, 2) == Some((u, a))
  {
    hide SetFields, Decimal, Hex, Name, RoleName, FlagsName, UserValid, AlgorithmName;
    var d := Draft(Some(u.uid), Some(u.username), Some(u.role), Some(u.home), Some(u.initial), None, None, None, None);
    var auth := [Field(Name(AuthKey), AlgorithmName(a.algorithm))];
    var five :=
      [Field(Name(Uid), Decimal(u.uid)), Field(Name(Username), u.username), Field(Name(RoleKey), RoleName(u.role)),
                 Field(Name(Home), u.home), Field(Name(FlagsKey), FlagsName(u.initial))];
    var more := if a.algorithm == NoPassword then []
                else [Field(Name(Salt), Hex(a.salt)), Field(Name(Iterations), Decimal(a.iterations)),
                      Field(Name(HashKey), Hex(a.hash))];
    assert AccountFields(u, a) == five + (auth + more);
    UserFields(u, auth + more);
    AuthField(d, a.algorithm, more);
    AlgorithmNames(a.algorithm);
    if a.algorithm == NoPassword {
      NoFields(d.(auth := Some(AlgorithmName(a.algorithm))));
      ZerosUnique(a.salt, 16);
      ZerosUnique(a.hash, 32);
    } else {
      AuthFields(d.(auth := Some(AlgorithmName(a.algorithm))), a);
    }
  }

  // ----- plain text -----

  /** No blank, quote or line break. */
  predicate Tidy(s: string) {
    forall i :: 0 <= i < |s| ==> !Blank(s[i]) && s[i] != '\r' && s[i] != '\n' && s[i] != '"'
  }

  predicate NoDoubleSlash(s: string) {
    forall i, j :: 0 <= i < |s| && j == i + 1 < |s| ==> !(s[i] == '/' && s[j] == '/')
  }

  predicate OneLine(s: string) {
    forall i :: 0 <= i < |s| ==> s[i] != '\n'
  }

  lemma DoubleSlashJoin(a: string, b: string)
    requires NoDoubleSlash(a) && NoDoubleSlash(b) && (a == "" || b == "" || a[|a| - 1] != '/' || b[0] != '/')
    ensures NoDoubleSlash(a + b)
  {
    var s := a + b;
    forall i, j | 0 <= i < |s| && j == i + 1 < |s| ensures !(s[i] == '/' && s[j] == '/') {
      if j < |a| {
        assert s[i] == a[i] && s[j] == a[j];
      } else if i >= |a| {
        assert s[i] == b[i - |a|] && s[j] == b[j - |a|];
      }
    }
  }

  predicate TidyField(f: Field) {
    PlainKey(f.key) && PlainValue(f.value) && Tidy(f.key) && Tidy(f.value) && NoDoubleSlash(f.value)
    && forall i :: 0 <= i < |f.key| ==> f.key[i] != '/'
  }

  /** Printed fields are one line without "//", not ending in a blank. */
  lemma {:induction false} PrintedTidy(fs: seq<Field>)
    requires forall i :: 0 <= i < |fs| ==> TidyField(fs[i])
    ensures var s := PrintFields(fs);
            && NoDoubleSlash(s) && OneLine(s) && (forall i :: 0 <= i < |s| ==> s[i] != '"' && s[i] != '\r')
            && (fs != [] ==> s != "" && s[0] == ' ' && !Blank(s[|s| - 1]))
  {
    if fs != [] {
      var f, rest := fs[0], PrintFields(fs[1..]);
      PrintedTidy(fs[1..]);
      var one := " " + f.key + "=" + f.value;
      assert PrintFields(fs) == one + rest;
      DoubleSlashJoin(" " + f.key + "=", f.value);
      DoubleSlashJoin(one, rest);
    }
  }

  lemma FieldTidy(k: Key, v: string)
    requires PlainValue(v) && Tidy(v) && NoDoubleSlash(v)
    ensures TidyField(Field(Name(k), v))
  {
    hide Name, Tidy, NoDoubleSlash, PlainValue;
    KeyTidy(k);
  }

  lemma NumbersTidy(v: nat, bs: seq<byte>)
    ensures PlainValue(Decimal(v)) && Tidy(Decimal(v)) && NoDoubleSlash(Decimal(v))
    ensures bs != [] ==> PlainValue(Hex(bs)) && Tidy(Hex(bs)) && NoDoubleSlash(Hex(bs))
  {
    hide Decimal, Hex;
  }

  lemma AccountTidy(u: User, a: Auth)
    requires UserValid(u) && AuthValid(a)
    ensures forall i :: 0 <= i < |AccountFields(u, a)| ==> TidyField(AccountFields(u, a)[i])
  {
    hide Name, UserValid, Decimal, Hex, TidyField, PlainValue, Tidy, NoDoubleSlash, AlgorithmName, RoleName, FlagsName,
      CopySpan;
    PlainNames(u);
    HomeTidy(u);
    WordsRoundTrip(u.role, u.initial);
    NumbersTidy(u.uid, a.salt);
    NumbersTidy(a.iterations, a.hash);
    AlgorithmNames(a.algorithm);
    FieldTidy(Uid, Decimal(u.uid));
    FieldTidy(Username, u.username);
    FieldTidy(RoleKey, RoleName(u.role));
    FieldTidy(Home, u.home);
    FieldTidy(FlagsKey, FlagsName(u.initial));
    FieldTidy(AuthKey, AlgorithmName(a.algorithm));
    FieldTidy(Salt, Hex(a.salt));
    FieldTidy(Iterations, Decimal(a.iterations));
    FieldTidy(HashKey, Hex(a.hash));
  }

  lemma KeyTidy(k: Key)
    ensures PlainKey(Name(k)) && Tidy(Name(k)) && forall i :: 0 <= i < |Name(k)| ==> Name(k)[i] != '/'
  {
  }

  lemma HomeTidy(u: User)
    requires UserValid(u)
    ensures Tidy(u.home) && NoDoubleSlash(u.home) && Tidy(u.username) && NoDoubleSlash(u.username)
  {
    DoubleSlashJoin("/home/", u.username);
  }
}
