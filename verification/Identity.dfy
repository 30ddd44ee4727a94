/** Accounts: users, their authentication records, and what makes a registry of
    them valid. */
module Identity {
  import opened Options

  type byte = x: int | 0 <= x < 256
  type u32 = x: int | 0 <= x < 0x1_0000_0000

  const U32_MAX: nat := 0xFFFF_FFFF
  const SYSTEM_UID: u32 := 0
  const FIRST_UID := 1001
  const MAX_RECORDS := 64
  const USERNAME_CAPACITY := 32
  const HOME_CAPACITY := 256
  const PASSWORD_MAX := 128

  datatype Role = Regular | Admin

  datatype User = User(uid: u32, username: string, role: Role, home: string, initial: bool)

  datatype Algorithm = NoPassword | Pbkdf2

  datatype Auth = Auth(algorithm: Algorithm, iterations: u32, salt: seq<byte>, hash: seq<byte>)

  datatype Registry = Registry(users: seq<User>, auths: seq<Auth>, nextUid: u32)

  // ----- users -----

  predicate Lower(c: char) { 'a' <= c <= 'z' }
  predicate Digit(c: char) { '0' <= c <= '9' }

  predicate UsernameValid(s: string) {
    && 1 <= |s| < USERNAME_CAPACITY && Lower(s[0])
    && forall i :: 0 <= i < |s| ==> Lower(s[i]) || Digit(s[i]) || s[i] == '_' || s[i] == '-'
  }

  predicate HomeChar(c: char) {
    Lower(c) || 'A' <= c <= 'Z' || Digit(c) || c == '_' || c == '-' || c == '.'
  }

  predicate ComponentOk(s: string) {
    s != "" && s != "." && s != ".." && forall i :: 0 <= i < |s| ==> HomeChar(s[i])
  }

  /** The path components after a slash, the first being `s` so far. */
  predicate ComponentsOk(first: string, rest: string)
    decreases rest
  {
    if rest == "" then ComponentOk(first)
    else if rest[0] == '/' then ComponentOk(first) && ComponentsOk("", rest[1..])
    else ComponentsOk(first + [rest[0]], rest[1..])
  }

  /** An absolute path of plain components, none of them empty, "." or "..". */
  predicate HomePathValid(h: string) {
    2 <= |h| < HOME_CAPACITY && h[0] == '/' && ComponentsOk("", h[1..])
  }

  predicate UserValid(u: User) {
    u.uid != SYSTEM_UID && UsernameValid(u.username) && HomePathValid(u.home) && u.home == "/home/" + u.username
  }

  lemma {:induction false} PlainComponent(first: string, rest: string)
    requires forall i :: 0 <= i < |rest| ==> HomeChar(rest[i])
    ensures ComponentsOk(first, rest) <==> ComponentOk(first + rest)
    decreases rest
  {
    if rest == "" {
      assert first + rest == first;
    } else {
      assert first + [rest[0]] + rest[1..] == first + rest;
      PlainComponent(first + [rest[0]], rest[1..]);
    }
  }

  lemma {:induction false} SlashComponent(first: string, a: string, b: string)
    requires forall i :: 0 <= i < |a| ==> HomeChar(a[i])
    ensures ComponentsOk(first, a + "/" + b) <==> ComponentOk(first + a) && ComponentsOk("", b)
    decreases a
  {
    var rest := a + "/" + b;
    if a == "" {
      assert rest[0] == '/' && rest[1..] == b;
      assert first + a == first;
    } else {
      assert rest[0] == a[0] && rest[1..] == a[1..] + "/" + b;
      assert first + [a[0]] + a[1..] == first + a;
      SlashComponent(first + [a[0]], a[1..], b);
    }
  }

  /** The home of every valid username is a valid path, so of the two home
      checks only the comparison decides. */
  lemma HomeIsPath(username: string)
    requires UsernameValid(username)
    ensures HomePathValid("/home/" + username)
  {
    var h := "/home/" + username;
    assert h[1..] == "home" + "/" + username;
    SlashComponent("", "home", username);
    PlainComponent("", username);
    assert "" + username == username && "" + "home" == "home";
    assert "home"[0] == 'h' && "."[0] == '.';
  }

  // ----- authentication -----

  predicate Zeros(s: seq<byte>) {
    forall i :: 0 <= i < |s| ==> s[i] == 0
  }

  predicate AuthValid(a: Auth) {
    && |a.salt| == 16 && |a.hash| == 32
    && match a.algorithm
       case NoPassword => a.iterations == 0 && Zeros(a.salt) && Zeros(a.hash)
       case Pbkdf2 => 10000 <= a.iterations <= 1000000
  }

  // ----- registries -----

  function InitialCount(users: seq<User>): nat {
    if users == [] then 0 else (if users[0].initial then 1 else 0) + InitialCount(users[1..])
  }

  predicate Same(u: User, v: User) {
    u.uid == v.uid || u.username == v.username
  }

  ghost predicate Unique(users: seq<User>) {
    forall i, j :: 0 <= i < j < |users| ==> !Same(users[i], users[j])
  }

  /** Every account is well formed and paired with a well-formed authentication
      record; UIDs are below the next one; UIDs and names are unique; exactly
      one account is the initial one. */
  ghost predicate RegistryValid(r: Registry) {
    && 1 <= |r.users| <= MAX_RECORDS && |r.auths| == |r.users| && r.nextUid >= FIRST_UID
    && (forall i :: 0 <= i < |r.users| ==> UserValid(r.users[i]) && r.users[i].uid < r.nextUid && AuthValid(r.auths[i]))
    && Unique(r.users) && InitialCount(r.users) == 1
  }

  lemma {:induction false} InitialJoin(a: seq<User>, b: seq<User>)
    ensures InitialCount(a + b) == InitialCount(a) + InitialCount(b)
  {
    if a == [] {
      assert a + b == b;
    } else {
      assert (a + b)[1..] == a[1..] + b;
      InitialJoin(a[1..], b);
    }
  }

  lemma InitialOne(u: User)
    ensures InitialCount([u]) == if u.initial then 1 else 0
  {
    assert [u][1..] == [];
  }

  /** The registry check: a loop over the accounts, each compared with those before it. */
  method CheckRegistry(r: Registry) returns (ok: bool)
    requires |r.users| == |r.auths|
    ensures ok <==> RegistryValid(r)
  {
    hide UserValid, AuthValid;
    if |r.users| == 0 || |r.users| > MAX_RECORDS || r.nextUid < FIRST_UID {
      return false;
    }
    var initial := 0;
    for i := 0 to |r.users|
      invariant initial == InitialCount(r.users[..i]) && Unique(r.users[..i])
      invariant forall k :: 0 <= k < i ==> UserValid(r.users[k]) && r.users[k].uid < r.nextUid && AuthValid(r.auths[k])
    {
      var u := r.users[i];
      if !UserValid(u) || u.uid >= r.nextUid || !AuthValid(r.auths[i]) {
        return false;
      }
      assert r.users[..i + 1] == r.users[..i] + [u];
      InitialJoin(r.users[..i], [u]);
      InitialOne(u);
      if u.initial {
        initial := initial + 1;
      }
      for j := 0 to i
        invariant forall k :: 0 <= k < j ==> !Same(r.users[k], u)
      {
        if Same(r.users[j], u) {
          return false;
        }
      }
    }
    assert r.users[..|r.users|] == r.users;
    ok := initial == 1;
  }
}
