/** The whole account database: lines, trimming and comments, the registry a text
    stands for, and the round trip. */
module IdentityDatabase {
  import opened Options
  import opened Identity
  import opened IdentityText

  const MAX_BYTES := 16384

  // ----- lines -----

  function LineLength(s: string): (n: nat)
    ensures n <= |s| && (n < |s| ==> s[n] == '\n')
  {
    if s == "" || s[0] == '\n' then 0 else 1 + LineLength(s[1..])
  }

  function Lines(s: string): seq<string>
    decreases |s|
  {
    if s == "" then []
    else
      var n := LineLength(s);
      [s[..n]] + Lines(if n < |s| then s[n + 1..] else "")
  }

  lemma {:induction false} LineLengthOf(line: string, rest: string)
    requires OneLine(line)
    ensures LineLength(line + "\n" + rest) == |line|
  {
    var s := line + "\n" + rest;
    if line != "" {
      assert s[0] == line[0] && s[1..] == line[1..] + "\n" + rest;
      LineLengthOf(line[1..], rest);
    }
  }

  lemma LinesCons(line: string, rest: string)
    requires OneLine(line)
    ensures Lines(line + "\n" + rest) == [line] + Lines(rest)
  {
    LineLengthOf(line, rest);
    hide LineLength;
    var s := line + "\n" + rest;
    assert s[..|line|] == line && s[|line| + 1..] == rest;
  }

  predicate Space(c: char) { Blank(c) || c == '\r' }

  function TrimLeft(s: string): (r: string)
    ensures |r| <= |s|
  {
    if s != "" && Space(s[0]) then TrimLeft(s[1..]) else s
  }

  function TrimRight(s: string): (r: string)
    ensures |r| <= |s|
  {
    if s != "" && Space(s[|s| - 1]) then TrimRight(s[..|s| - 1]) else s
  }

  function TrimBlanksRight(s: string): (r: string)
    ensures |r| <= |s|
  {
    if s != "" && Blank(s[|s| - 1]) then TrimBlanksRight(s[..|s| - 1]) else s
  }

  /** Where a comment starts: the first "//" outside quotes, or the end. */
  function CommentAt(s: string, i: nat, quoted: bool): (n: nat)
    requires i <= |s|
    ensures i <= n <= |s|
    decreases |s| - i
  {
    if i + 1 >= |s| then |s|
    else
      var q := if s[i] == '"' then !quoted else quoted;
      if !q && s[i] == '/' && s[i + 1] == '/' then i else CommentAt(s, i + 1, q)
  }

  function TrimLine(line: string): string {
    var t := TrimRight(TrimLeft(line));
    var n := CommentAt(t, 0, false);
    if n < |t| then TrimBlanksRight(t[..n]) else t
  }

  lemma {:induction false} NoComment(s: string, i: nat, quoted: bool)
    requires i <= |s| && NoDoubleSlash(s)
    ensures CommentAt(s, i, quoted) == |s|
    decreases |s| - i
  {
    if i + 1 < |s| {
      NoComment(s, i + 1, if s[i] == '"' then !quoted else quoted);
    }
  }

  /** A line with nothing to trim and no comment is itself. */
  lemma TrimPlain(s: string)
    requires s != "" && !Space(s[0]) && !Space(s[|s| - 1]) && NoDoubleSlash(s)
    ensures TrimLine(s) == s
  {
    NoComment(s, 0, false);
  }

  // ----- what a text stands for -----

  /** The lines read so far. */
  datatype Db = Db(version: nat, nextUid: Option<u32>, users: seq<User>, auths: seq<Auth>, initial: nat)

  const EMPTY := Db(0, None, [], [], 0)

  function EqualsAt(s: string): (n: nat)
    ensures n <= |s| && (n < |s| ==> s[n] == '=')
  {
    if s == "" || s[0] == '=' then 0 else 1 + EqualsAt(s[1..])
  }

  function ParseVersion(t: string): Option<nat> {
    if t == "version=1" then Some(1) else if t == "version=2" then Some(2) else None
  }

  function ParseNext(t: string): Option<u32> {
    var n := EqualsAt(t);
    if n == |t| || t[..n] != "next_uid" then None else ParseU32(t[n + 1..])
  }

  predicate Known(users: seq<User>, u: User) {
    exists i :: 0 <= i < |users| && Same(users[i], u)
  }

  /** Blank lines are skipped; the first line is the version, the second the next UID, the others accounts. */
  function TakeLine(db: Db, line: string): Option<Db> {
    var t := TrimLine(line);
    if t == "" then Some(db) else TakeTrimmed(db, t)
  }

  function TakeTrimmed(db: Db, t: string): Option<Db> {
    if db.version == 0 then
      var v := ParseVersion(t);
      if v.None? then None else Some(db.(version := v.value))
    else if db.nextUid.None? then
      var n := ParseNext(t);
      if n.None? then None else Some(db.(nextUid := n))
    else if |db.users| >= MAX_RECORDS then None
    else TakeAccount(db, ParseAccount(t, db.version))
  }

  function TakeAccount(db: Db, account: Option<(User, Auth)>): Option<Db> {
    if account.None? || Known(db.users, account.value.0) then None
    else
      Some(db.(users := db.users + [account.value.0], auths := db.auths + [account.value.1],
               initial := db.initial + if account.value.0.initial then 1 else 0))
  }

  function TakeLines(db: Db, lines: seq<string>): Option<Db>
    decreases lines
  {
    if lines == [] then Some(db)
    else
      var d := TakeLine(db, lines[0]);
      if d.None? then None else TakeLines(d.value, lines[1..])
  }

  predicate Complete(db: Db) {
    && db.version != 0 && db.nextUid.Some? && |db.users| != 0 && db.initial == 1 && db.nextUid.value >= FIRST_UID
    && forall i :: 0 <= i < |db.users| ==> db.users[i].uid < db.nextUid.value
  }

  /** The registry and whether it has to be migrated from the first version. */
  function ParseDatabase(text: string): Option<(Registry, bool)> {
    if text == "" || |text| > MAX_BYTES then None
    else
      var db := TakeLines(EMPTY, Lines(text));
      if db.None? || !Complete(db.value) then None
      else Some((Registry(db.value.users, db.value.auths, db.value.nextUid.value), db.value.version == 1))
  }

  // ----- every accepted text is a valid registry -----

  ghost predicate Sound(db: Db) {
    && |db.auths| == |db.users| <= MAX_RECORDS && Unique(db.users) && db.initial == InitialCount(db.users)
    && forall i :: 0 <= i < |db.users| ==> UserValid(db.users[i]) && AuthValid(db.auths[i])
  }

  lemma AccountSound(line: string, version: nat)
    ensures var r := ParseAccount(line, version); r.Some? ==> UserValid(r.value.0) && AuthValid(r.value.1)
  {
    hide SkipBlanks, Fields, SetFields, UserValid;
  }

  lemma TakeLineSound(db: Db, line: string)
    requires Sound(db) && TakeLine(db, line).Some?
    ensures Sound(TakeLine(db, line).value)
  {
    hide TrimLine, ParseVersion, ParseNext, ParseAccount, UserValid, AuthValid;
    var t := TrimLine(line);
    AccountSound(t, db.version);
    var account := ParseAccount(t, db.version);
    if account.Some? {
      InitialJoin(db.users, [account.value.0]);
      InitialOne(account.value.0);
    }
  }

  lemma {:induction false} TakeLinesSound(db: Db, lines: seq<string>)
    requires Sound(db) && TakeLines(db, lines).Some?
    ensures Sound(TakeLines(db, lines).value)
    decreases lines
  {
    hide TakeLine, Sound;
    if lines != [] {
      TakeLineSound(db, lines[0]);
      TakeLinesSound(TakeLine(db, lines[0]).value, lines[1..]);
    }
  }

  /** Whatever text is accepted, the registry passes the registry check. */
  lemma AcceptedIsValid(text: string)
    requires ParseDatabase(text).Some?
    ensures RegistryValid(ParseDatabase(text).value.0)
  {
    hide TakeLines, Lines, UserValid, AuthValid;
    TakeLinesSound(EMPTY, Lines(text));
  }

  // ----- printing -----

  function PrintAccounts(users: seq<User>, auths: seq<Auth>): string
    requires |users| == |auths|
  {
    if users == [] then "" else AccountLine(users[0], auths[0]) + "\n" + PrintAccounts(users[1..], auths[1..])
  }

  function Print(r: Registry): string
    requires |r.users| == |r.auths|
  {
    "version=2\n" + "next_uid=" + Decimal(r.nextUid) + "\n\n" + PrintAccounts(r.users, r.auths)
  }

  /** An account's line is read back. */
  lemma AccountRoundTrip(u: User, a: Auth)
    requires UserValid(u) && AuthValid(a)
    ensures OneLine(AccountLine(u, a)) && TrimLine(AccountLine(u, a)) == AccountLine(u, a) && AccountLine(u, a) != ""
    ensures ParseAccount(AccountLine(u, a), 2) == Some((u, a))
  {
    hide UserValid, AuthValid, TrimLine, AccountFields, PrintFields, Fields, SetFields, Finish;
    var fs := AccountFields(u, a);
    var printed := PrintFields(fs);
    var line := "account" + printed;
    AccountTidy(u, a);
    AccountNonempty(u, a);
    PrintedTidy(fs);
    assert forall i :: 0 <= i < |fs| ==> TidyField(fs[i]);
    DoubleSlashJoin("account", printed);
    TrimPlain(line);
    FieldsRoundTrip(fs);
    AccountFieldsRoundTrip(u, a);
    assert line[..7] == "account" && line[7..] == printed && line[7] == printed[0];
  }

  lemma AccountNonempty(u: User, a: Auth)
    ensures AccountFields(u, a) != []
  {
  }

  function AccountLines(users: seq<User>, auths: seq<Auth>): seq<string>
    requires |users| == |auths|
  {
    if users == [] then [] else [AccountLine(users[0], auths[0])] + AccountLines(users[1..], auths[1..])
  }

  ghost predicate AllValid(users: seq<User>, auths: seq<Auth>) {
    |users| == |auths| && forall i :: 0 <= i < |users| ==> UserValid(users[i]) && AuthValid(auths[i])
  }

  lemma {:induction false} AccountsPrinted(users: seq<User>, auths: seq<Auth>)
    requires AllValid(users, auths)
    ensures Lines(PrintAccounts(users, auths)) == AccountLines(users, auths)
  {
    hide AccountLine, UserValid, AuthValid, Lines;
    if users == [] {
      NoLines();
    } else {
      AccountRoundTrip(users[0], auths[0]);
      LinesCons(AccountLine(users[0], auths[0]), PrintAccounts(users[1..], auths[1..]));
      AccountsPrinted(users[1..], auths[1..]);
    }
  }

  lemma NoLines()
    ensures Lines("") == []
  {
  }

  /** Accounts read after others join them, in order and still paired. */
  lemma {:induction false} AccountsTaken(next: u32, a: seq<User>, b: seq<Auth>, count: nat, c: seq<User>, d: seq<Auth>)
    requires AllValid(c, d) && Unique(a + c) && |a + c| <= MAX_RECORDS
    ensures TakeLines(Db(2, Some(next), a, b, count), AccountLines(c, d))
            == Some(Db(2, Some(next), a + c, b + d, count + InitialCount(c)))
    decreases c
  {
    hide AccountLine, TakeLine, UserValid, AuthValid, Unique;
    if c == [] {
      assert a + c == a && b + d == b;
    } else {
      OneTaken(next, a, b, count, c, d[0]);
      assert a + [c[0]] + c[1..] == a + c && b + [d[0]] + d[1..] == b + d;
      LinesTaken(Db(2, Some(next), a, b, count), AccountLine(c[0], d[0]), AccountLines(c[1..], d[1..]));
      AccountsTaken(next, a + [c[0]], b + [d[0]], count + (if c[0].initial then 1 else 0), c[1..], d[1..]);
    }
  }

  lemma OneTaken(next: u32, a: seq<User>, b: seq<Auth>, count: nat, c: seq<User>, auth: Auth)
    requires c != [] && UserValid(c[0]) && AuthValid(auth) && Unique(a + c) && |a + c| <= MAX_RECORDS
    ensures TakeLine(Db(2, Some(next), a, b, count), AccountLine(c[0], auth))
            == Some(Db(2, Some(next), a + [c[0]], b + [auth], count + if c[0].initial then 1 else 0))
  {
    hide AccountLine, TrimLine, ParseAccount, UserValid, AuthValid, Known, Unique, OneLine;
    AccountRoundTrip(c[0], auth);
    NotKnown(a, c);
    assert |a| < MAX_RECORDS;
  }

  lemma NotKnown(a: seq<User>, c: seq<User>)
    requires c != [] && Unique(a + c)
    ensures !Known(a, c[0])
  {
    var all := a + c;
    assert all[|a|] == c[0];
    assert forall i :: 0 <= i < |a| ==> all[i] == a[i];
  }

  const VERSION := "version=2"

  lemma VersionTaken()
    ensures OneLine(VERSION) && TakeLine(EMPTY, VERSION) == Some(EMPTY.(version := 2))
  {
    TrimPlain(VERSION);
    assert VERSION[8] == '2' && "version=1"[8] == '1';
    hide TrimLine;
  }

  function NextLine(n: u32): string {
    "next_uid=" + Decimal(n)
  }

  lemma EqualsAfter(key: string, rest: string)
    requires forall i :: 0 <= i < |key| ==> key[i] != '='
    ensures EqualsAt(key + "=" + rest) == |key|
  {
    var s := key + "=" + rest;
    if key != "" {
      assert s[0] == key[0] && s[1..] == key[1..] + "=" + rest;
      EqualsAfter(key[1..], rest);
    }
  }

  lemma NextTaken(n: u32)
    ensures OneLine(NextLine(n)) && TakeLine(Db(2, None, [], [], 0), NextLine(n)) == Some(Db(2, Some(n), [], [], 0))
  {
    var line, key := NextLine(n), "next_uid";
    hide Decimal;
    assert line == key + "=" + Decimal(n);
    EqualsAfter(key, Decimal(n));
    NumberRoundTrip(n);
    TrimPlain(line);
    assert line[..8] == key && line[9..] == Decimal(n);
    hide TrimLine, EqualsAt, ParseU32;
    assert ParseNext(line) == Some(n);
  }

  lemma BlankTaken(db: Db)
    ensures TakeLine(db, "") == Some(db)
  {
  }

  lemma LinesTaken(db: Db, line: string, rest: seq<string>)
    requires TakeLine(db, line).Some?
    ensures TakeLines(db, [line] + rest) == TakeLines(TakeLine(db, line).value, rest)
  {
    hide TakeLine;
    assert ([line] + rest)[1..] == rest;
  }

  lemma PrintedLines(r: Registry)
    requires AllValid(r.users, r.auths)
    ensures Lines(Print(r)) == [VERSION] + ([NextLine(r.nextUid)] + ([""] + AccountLines(r.users, r.auths)))
  {
    var accounts := PrintAccounts(r.users, r.auths);
    var tail := "" + "\n" + accounts;
    var middle := NextLine(r.nextUid) + "\n" + tail;
    hide Lines, PrintAccounts, Decimal;
    Regrouped(Decimal(r.nextUid), accounts);
    assert Print(r) == VERSION + "\n" + middle;
    VersionTaken();
    NextTaken(r.nextUid);
    LinesCons(VERSION, middle);
    LinesCons(NextLine(r.nextUid), tail);
    LinesCons("", accounts);
    AccountsPrinted(r.users, r.auths);
  }

  lemma Regrouped(digits: string, accounts: string)
    ensures "version=2\n" + "next_uid=" + digits + "\n\n" + accounts
            == "version=2" + "\n" + ("next_uid=" + digits + "\n" + ("" + "\n" + accounts))
  {
  }

  lemma PrintNonempty(r: Registry)
    requires |r.users| == |r.auths|
    ensures Print(r) != ""
  {
    hide Decimal, PrintAccounts;
    assert Print(r)[0] == 'v';
  }

  /** Printing a valid registry that fits and parsing it gives the registry back:
      every account, its authentication record, their order and the next UID. */
  lemma RoundTrip(r: Registry)
    requires RegistryValid(r) && |Print(r)| <= MAX_BYTES
    ensures ParseDatabase(Print(r)) == Some((r, false))
  {
    hide Print, Lines, AccountLines, TakeLine, TakeLines, UserValid, AuthValid, NextLine;
    PrintNonempty(r);
    PrintedLines(r);
    VersionTaken();
    NextTaken(r.nextUid);
    var db := Db(2, Some(r.nextUid), [], [], 0);
    BlankTaken(db);
    LinesTaken(EMPTY, VERSION, [NextLine(r.nextUid)] + ([""] + AccountLines(r.users, r.auths)));
    LinesTaken(EMPTY.(version := 2), NextLine(r.nextUid), [""] + AccountLines(r.users, r.auths));
    LinesTaken(db, "", AccountLines(r.users, r.auths));
    assert [] + r.users == r.users && [] + r.auths == r.auths;
    AccountsTaken(r.nextUid, [], [], 0, r.users, r.auths);
  }
}
