/** Creating, removing and changing accounts: what every operation keeps over
    the whole life of the registry. */
module IdentityAccounts {
  import opened Options
  import opened Identity
  import opened IdentityDatabase
  import opened IdentityStore

  // ----- counting and finding -----

  function AdminCount(users: seq<User>): nat {
    if users == [] then 0 else (if users[0].role == Admin then 1 else 0) + AdminCount(users[1..])
  }

  lemma {:induction false} AdminJoin(a: seq<User>, b: seq<User>)
    ensures AdminCount(a + b) == AdminCount(a) + AdminCount(b)
  {
    if a == [] {
      assert a + b == b;
    } else {
      assert (a + b)[1..] == a[1..] + b;
      AdminJoin(a[1..], b);
    }
  }

  lemma AdminOne(u: User)
    ensures AdminCount([u]) == if u.role == Admin then 1 else 0
  {
    assert [u][1..] == [];
  }

  method CountAdmins(users: seq<User>) returns (n: nat)
    ensures n == AdminCount(users)
  {
    n := 0;
    for i := 0 to |users|
      invariant n == AdminCount(users[..i])
    {
      assert users[..i + 1] == users[..i] + [users[i]];
      AdminJoin(users[..i], [users[i]]);
      AdminOne(users[i]);
      if users[i].role == Admin {
        n := n + 1;
      }
    }
    assert users[..|users|] == users;
  }

  predicate Named(users: seq<User>, i: int, name: string) {
    0 <= i < |users| && users[i].username == name
  }

  /** The first account with the name, or -1. */
  function IndexOf(users: seq<User>, name: string): (i: int)
    ensures if i < 0 then i == -1 && forall k :: 0 <= k < |users| ==> users[k].username != name
            else Named(users, i, name)
  {
    if users == [] then -1
    else if users[0].username == name then 0
    else
      var k := IndexOf(users[1..], name);
      if k < 0 then -1 else k + 1
  }

  method Find(users: seq<User>, name: string) returns (i: int)
    ensures i == IndexOf(users, name)
  {
    i := 0;
    assert users[0..] == users;
    while i < |users|
      invariant 0 <= i <= |users|
      invariant IndexOf(users, name) == var k := IndexOf(users[i..], name); if k < 0 then -1 else i + k
    {
      if users[i].username == name {
        return;
      }
      assert users[i..][1..] == users[i + 1..];
      i := i + 1;
    }
    i := -1;
  }

  // ----- replacing one element, dropping one element -----

  function Drop<T>(s: seq<T>, i: nat): (r: seq<T>)
    requires i < |s|
    ensures |r| == |s| - 1
    ensures forall k :: 0 <= k < |r| ==> r[k] == if k < i then s[k] else s[k + 1]
  {
    s[..i] + s[i + 1..]
  }

  lemma CountsAt(users: seq<User>, i: nat)
    requires i < |users|
    ensures InitialCount(users)
            == InitialCount(users[..i]) + (if users[i].initial then 1 else 0) + InitialCount(users[i + 1..])
    ensures AdminCount(users)
            == AdminCount(users[..i]) + (if users[i].role == Admin then 1 else 0) + AdminCount(users[i + 1..])
  {
    var a, u, b := users[..i], users[i], users[i + 1..];
    assert users == a + [u] + b;
    InitialJoin(a + [u], b);
    InitialJoin(a, [u]);
    InitialOne(u);
    AdminJoin(a + [u], b);
    AdminJoin(a, [u]);
    AdminOne(u);
  }

  lemma CountsSet(users: seq<User>, i: nat, u: User)
    requires i < |users|
    ensures InitialCount(users[i := u])
            == InitialCount(users) - (if users[i].initial then 1 else 0) + (if u.initial then 1 else 0)
    ensures AdminCount(users[i := u])
            == AdminCount(users) - (if users[i].role == Admin then 1 else 0) + (if u.role == Admin then 1 else 0)
  {
    CountsAt(users, i);
    CountsAt(users[i := u], i);
    assert users[i := u][..i] == users[..i] && users[i := u][i + 1..] == users[i + 1..];
  }

  lemma CountsDrop(users: seq<User>, i: nat)
    requires i < |users|
    ensures InitialCount(Drop(users, i)) == InitialCount(users) - (if users[i].initial then 1 else 0)
    ensures AdminCount(Drop(users, i)) == AdminCount(users) - (if users[i].role == Admin then 1 else 0)
  {
    CountsAt(users, i);
    InitialJoin(users[..i], users[i + 1..]);
    AdminJoin(users[..i], users[i + 1..]);
  }

  lemma OneInitial(users: seq<User>, i: nat, j: nat)
    requires InitialCount(users) == 1 && i < |users| && j < |users| && users[i].initial && users[j].initial
    ensures i == j
  {
    if i != j {
      CountsDrop(users, i);
      var k := if j < i then j else j - 1;
      CountsAt(Drop(users, i), k);
    }
  }

  // ----- the registries the operations make -----

  function Created(r: Registry, name: string, auth: Auth): Registry
    requires r.nextUid < U32_MAX
  {
    Registry(r.users + [User(r.nextUid, name, Regular, "/home/" + name, false)], r.auths + [auth], r.nextUid + 1)
  }

  lemma CreatedValid(r: Registry, name: string, auth: Auth)
    requires RegistryValid(r) && |r.users| < MAX_RECORDS && r.nextUid < U32_MAX && UsernameValid(name)
             && AuthValid(auth)
    requires forall k :: 0 <= k < |r.users| ==> r.users[k].username != name
    ensures RegistryValid(Created(r, name, auth))
    ensures AdminCount(Created(r, name, auth).users) == AdminCount(r.users)
  {
    var u := User(r.nextUid, name, Regular, "/home/" + name, false);
    HomeIsPath(name);
    InitialJoin(r.users, [u]);
    InitialOne(u);
    AdminJoin(r.users, [u]);
    AdminOne(u);
    hide HomePathValid, AuthValid, UsernameValid;
    assert UserValid(u);
    hide UserValid;
  }

  function WithRole(r: Registry, i: nat, role: Role): Registry
    requires i < |r.users|
  {
    r.(users := r.users[i := r.users[i].(role := role)])
  }

  lemma WithRoleValid(r: Registry, i: nat, role: Role)
    requires RegistryValid(r) && i < |r.users|
    ensures RegistryValid(WithRole(r, i, role))
    ensures AdminCount(WithRole(r, i, role).users)
            == AdminCount(r.users) - (if r.users[i].role == Admin then 1 else 0) + (if role == Admin then 1 else 0)
  {
    var u := r.users[i].(role := role);
    CountsSet(r.users, i, u);
    hide HomePathValid, AuthValid, UsernameValid;
    assert UserValid(u);
  }

  function WithAuth(r: Registry, i: nat, auth: Auth): Registry
    requires i < |r.auths|
  {
    r.(auths := r.auths[i := auth])
  }

  /** Who becomes the initial account when account i goes: the first other
      administrator, else the first other account. */
  ghost predicate Replaces(users: seq<User>, i: nat, k: int) {
    && 0 <= k < |users| && k != i
    && if users[k].role == Admin then forall j :: 0 <= j < k && j != i ==> users[j].role != Admin
       else (forall j :: 0 <= j < |users| && j != i ==> users[j].role != Admin) && k == if i == 0 then 1 else 0
  }

  /** That account; i itself if there is no other. */
  ghost function Heir(users: seq<User>, i: nat): (k: nat)
    requires i < |users|
    ensures k < |users|
  {
    if exists k: nat :: Replaces(users, i, k) then var k: nat :| Replaces(users, i, k); k else i
  }

  lemma OneHeir(users: seq<User>, i: nat, k: nat)
    requires i < |users| && Replaces(users, i, k)
    ensures Heir(users, i) == k
  {
  }

  method FindReplacement(users: seq<User>, i: nat) returns (k: int)
    requires i < |users|
    ensures k == -1 <==> |users| == 1
    ensures k != -1 ==> Replaces(users, i, k)
  {
    k := -1;
    for j := 0 to |users|
      invariant k == -1 <==> (j == 0 || (j == 1 && i == 0))
      invariant forall m :: 0 <= m < j && m != i ==> users[m].role != Admin
      invariant k != -1 ==> k < j && k == if i == 0 then 1 else 0
    {
      if j == i {
        continue;
      }
      if users[j].role == Admin {
        k := j;
        return;
      }
      if k < 0 {
        k := j;
      }
    }
  }

  /** The registry without account i, its initial mark passed on to account k. */
  function Removed(r: Registry, i: nat, k: nat): Registry
    requires i < |r.users| == |r.auths| && k < |r.users|
  {
    var users := if r.users[i].initial then r.users[k := r.users[k].(initial := true)] else r.users;
    Registry(Drop(users, i), Drop(r.auths, i), r.nextUid)
  }

  /** The registry without account i. */
  ghost function Removal(r: Registry, i: nat): Registry
    requires i < |r.users| == |r.auths|
  {
    Removed(r, i, if r.users[i].initial then Heir(r.users, i) else i)
  }

  lemma RemovedValid(r: Registry, i: nat, k: nat)
    requires RegistryValid(r) && i < |r.users| && k < |r.users| && (r.users[i].initial ==> k != i)
    ensures RegistryValid(Removed(r, i, k))
    ensures AdminCount(Removed(r, i, k).users) == AdminCount(r.users) - (if r.users[i].role == Admin then 1 else 0)
  {
    MarkedValid(r, i, k);
    var users := if r.users[i].initial then r.users[k := r.users[k].(initial := true)] else r.users;
    CountsDrop(users, i);
    DroppedValid(users, r.auths, r.nextUid, i);
  }

  ghost predicate Members(users: seq<User>, auths: seq<Auth>, nextUid: u32) {
    && |users| == |auths| && Unique(users)
    && forall i :: 0 <= i < |users| ==> UserValid(users[i]) && users[i].uid < nextUid && AuthValid(auths[i])
  }

  lemma DroppedValid(users: seq<User>, auths: seq<Auth>, nextUid: u32, i: nat)
    requires Members(users, auths, nextUid) && i < |users|
    ensures Members(Drop(users, i), Drop(auths, i), nextUid)
  {
    hide UserValid, AuthValid;
  }

  /** Passing the initial mark on: the other accounts and all counts but that one stay. */
  lemma MarkedValid(r: Registry, i: nat, k: nat)
    requires RegistryValid(r) && i < |r.users| && k < |r.users| && (r.users[i].initial ==> k != i)
    ensures var users := if r.users[i].initial then r.users[k := r.users[k].(initial := true)] else r.users;
            && Members(users, r.auths, r.nextUid) && AdminCount(users) == AdminCount(r.users) && users[i] == r.users[i]
            && InitialCount(users) == if r.users[i].initial then 2 else 1
  {
    if r.users[i].initial {
      var u := r.users[k].(initial := true);
      if r.users[k].initial {
        OneInitial(r.users, i, k);
      }
      CountsSet(r.users, k, u);
      assert UserValid(u);
      hide UserValid, AuthValid;
    }
  }

  // ----- the operations -----

  datatype Outcome = Done | Denied | NotFound | AlreadyExists | Busy | BadArgument | Unavailable | Failed

  /** What the surroundings decide: the caller's UID and authority, whether the action
      is confirmed, whether there is entropy and what the generator draws until it fails,
      whether the directory of homes is there, whether a home can be made, taken back or
      purged, and how saving, and saving back after a failed purge, fare. */
  datatype Surroundings = Surroundings(caller: u32, manager: bool, confirmed: bool, entropy: bool, drawn: seq<Auth>,
                                       rootThere: bool, homeMade: bool, homeUndone: bool, faults: Faults,
                                       purged: bool, undo: Faults)

  predicate PasswordOk(password: string) {
    1 <= |password| <= PASSWORD_MAX
  }

  // ----- credentials -----

  /** No other account with a password has the salt. */
  predicate SaltFree(auths: seq<Auth>, target: nat, salt: seq<byte>) {
    forall k :: 0 <= k < |auths| && k != target && auths[k].algorithm == Pbkdf2 ==> auths[k].salt != salt
  }

  /** No two accounts share a salt. */
  ghost predicate SaltsApart(auths: seq<Auth>) {
    forall j, k :: 0 <= j < k < |auths| && auths[j].algorithm == Pbkdf2 && auths[k].algorithm == Pbkdf2 ==>
      auths[j].salt != auths[k].salt
  }

  datatype Draft = Made(auth: Auth) | Refused(outcome: Outcome)

  /** The first of eight draws from position i on whose salt is free. */
  function Draw(auths: seq<Auth>, target: nat, drawn: seq<Auth>, i: nat): Draft
    decreases 8 - i
  {
    if i >= 8 then Refused(Busy)
    else if i >= |drawn| then Refused(Unavailable)
    else if SaltFree(auths, target, drawn[i].salt) then Made(drawn[i])
    else Draw(auths, target, drawn, i + 1)
  }

  function MadePassword(auths: seq<Auth>, target: nat, c: Surroundings): Draft {
    if !c.entropy then Refused(Unavailable) else Draw(auths, target, c.drawn, 0)
  }

  /** What is made was drawn and has a free salt. */
  lemma MadeFree(auths: seq<Auth>, target: nat, c: Surroundings)
    ensures var d := MadePassword(auths, target, c);
            if d.Made? then d.auth in c.drawn && SaltFree(auths, target, d.auth.salt)
            else d.outcome == Busy || d.outcome == Unavailable
  {
    hide SaltFree;
    DrawnFree(auths, target, c.drawn, 0);
  }

  lemma {:induction false} DrawnFree(auths: seq<Auth>, target: nat, drawn: seq<Auth>, i: nat)
    ensures var d := Draw(auths, target, drawn, i);
            if d.Made? then d.auth in drawn && SaltFree(auths, target, d.auth.salt)
            else d.outcome == Busy || d.outcome == Unavailable
    decreases 8 - i
  {
    hide SaltFree;
    if i < 8 && i < |drawn| {
      DrawnFree(auths, target, drawn, i + 1);
    }
  }

  /** Compare a salt with those of the other accounts. */
  method SaltUnique(auths: seq<Auth>, target: nat, salt: seq<byte>) returns (ok: bool)
    ensures ok <==> SaltFree(auths, target, salt)
  {
    for i := 0 to |auths|
      invariant forall k :: 0 <= k < i && k != target && auths[k].algorithm == Pbkdf2 ==> auths[k].salt != salt
    {
      if i != target && auths[i].algorithm == Pbkdf2 && auths[i].salt == salt {
        return false;
      }
    }
    ok := true;
  }

  /** Draw new credentials until their salt is free, eight times at most. */
  method MakePassword(auths: seq<Auth>, target: nat, c: Surroundings) returns (d: Draft)
    ensures d == MadePassword(auths, target, c)
  {
    hide SaltFree;
    if !c.entropy {
      return Refused(Unavailable);
    }
    for i := 0 to 8
      invariant Draw(auths, target, c.drawn, 0) == Draw(auths, target, c.drawn, i)
    {
      if i >= |c.drawn| {
        return Refused(Unavailable);
      }
      var free := SaltUnique(auths, target, c.drawn[i].salt);
      if free {
        return Made(c.drawn[i]);
      }
    }
    d := Refused(Busy);
  }

  // ----- homes -----

  /** A home that may be purged: the account's own directory, not the one above it. */
  predicate HomeSafe(u: User) {
    UsernameValid(u.username) && u.home == "/home/" + u.username && u.home != "/home" && u.home != "/"
  }

  /** Every home of a valid registry may be. */
  lemma HomesSafe(r: Registry, i: nat)
    requires RegistryValid(r) && i < |r.users|
    ensures HomeSafe(r.users[i])
  {
    assert UserValid(r.users[i]);
    assert |r.users[i].home| == 6 + |r.users[i].username|;
  }

  /** Purging works on a directory of the account's own. */
  function PurgeOutcome(homes: map<string, u32>, u: User, c: Surroundings): Outcome {
    if !c.rootThere then Failed
    else if u.username !in homes || homes[u.username] != u.uid then Denied
    else if !c.purged then Failed
    else Done
  }

  // ----- the disk -----

  ghost predicate Persists(d: Directory, r: Registry, f: Faults)
    requires |r.users| == |r.auths|
  {
    Reaches(r, f) && Succeeds(d, f, |Print(r)|)
  }

  /** Saving leaves the database only under the backup name. */
  ghost predicate Stranding(d: Directory, r: Registry, f: Faults)
    requires |r.users| == |r.auths|
  {
    Reaches(r, f) && Strands(d, f, |Print(r)|)
  }

  /** What an attempt to save a registry leaves on disk. */
  ghost predicate Attempted(d: Directory, was: Directory, r: Registry, f: Faults)
    requires |r.users| == |r.auths|
  {
    Swapped(d, was, Print(r), Persists(was, r, f), Stranding(was, r, f))
  }

  /** The disk has this registry. */
  ghost predicate OnDisk(d: Directory, r: Registry)
    requires |r.users| == |r.auths|
  {
    Users in d && d[Users] == File(Print(r))
  }

  /** An attempt puts the new registry on disk exactly when it persists; failing, it
      keeps the old one there exactly when it does not strand it. */
  lemma DiskAfter(d: Directory, was: Directory, r: Registry, f: Faults, old': Registry)
    requires |r.users| == |r.auths| && |old'.users| == |old'.auths| && Attempted(d, was, r, f)
    ensures Persists(was, r, f) ==> OnDisk(d, r)
    ensures !Persists(was, r, f) && OnDisk(was, old') ==> (OnDisk(d, old') <==> !Stranding(was, r, f))
  {
    hide Reaches, Succeeds, Strands, Print;
  }

  /** Everyone's credentials are their own, and every UID was issued once, below the next one. */
  ghost predicate Accounted(r: Registry, issued: set<u32>, creds: map<u32, Auth>) {
    && RegistryValid(r)
    && (forall uid :: uid in issued ==> uid < r.nextUid)
    && (forall i :: 0 <= i < |r.users| ==>
        r.users[i].uid in issued && r.users[i].uid in creds && r.auths[i] == creds[r.users[i].uid])
  }

  class Accounts {
    var active: Registry
    var homes: map<string, u32>
    const store: Store
    ghost var issued: set<u32>
    ghost var creds: map<u32, Auth>

    ghost predicate Valid()
      reads this
    {
      Accounted(active, issued, creds) && Paired(active)
    }

    constructor (loaded: Registry, there: map<string, u32>, disk: Store)
      requires RegistryValid(loaded)
      ensures Valid() && active == loaded && homes == there && store == disk
    {
      active, homes, store := loaded, there, disk;
      issued, creds := UidsOf(loaded), CredsOf(loaded);
      new;
      LoadedPaired(loaded);
      hide RegistryValid, UidsOf, CredsOf, Accounted;
    }

    /** What every operation keeps: the next UID and the issued ones only grow,
        the last administrator stays, and salts stay different. */
    twostate predicate Keeps()
      reads this
    {
      && active.nextUid >= old(active.nextUid) && old(issued) <= issued
      && (AdminCount(old(active).users) >= 1 ==> AdminCount(active.users) >= 1)
      && (SaltsApart(old(active).auths) ==> SaltsApart(active.auths))
    }

    /** Write a registry to disk. */
    method Save(r: Registry, f: Faults) returns (ok: bool)
      requires Paired(r)
      modifies store
      ensures ok <==> Persists(old(store.dir), r, f)
      ensures Attempted(store.dir, old(store.dir), r, f)
    {
      hide Reaches, Succeeds, Strands, Print, ParseDatabase, Swapped;
      ghost var steps;
      ok, steps := store.Persist(r, f);
    }

    /** Create an account with the next UID, never issued before, and its home. */
    method Create(name: string, password: string, c: Surroundings) returns (out: Outcome)
      requires Valid() && Drawable(c)
      modifies this, store
      ensures Valid() && Keeps()
      ensures out == CreateOutcome(old(active), name, password, old(homes), c, old(store.dir))
      ensures out == Done ==>
                && Adds(old(active), active, name, c)
                && old(active.nextUid) !in old(issued) && issued == old(issued) + {old(active.nextUid)}
      ensures out != Done ==> active == old(active) && issued == old(issued)
      ensures if CreateSaves(old(active), name, password, old(homes), c)
              then CreationWritten(out, store.dir, old(store.dir), old(active), name, old(homes), homes, c)
              else store.dir == old(store.dir) && homes == old(homes)
    {
      hide Persists, Attempted, SaltFree, SaltsApart, MadePassword, RegistryValid, AuthValid;
      if !c.manager { return Denied; }
      if !UsernameValid(name) || !PasswordOk(password) { return BadArgument; }
      if |active.users| >= MAX_RECORDS || active.nextUid == U32_MAX { return Busy; }
      var i := Find(active.users, name);
      if i >= 0 { return AlreadyExists; }
      if !c.confirmed { return Denied; }
      MadeFree(active.auths, |active.users|, c);
      var made := MakePassword(active.auths, |active.users|, c);
      if made.Refused? { return made.outcome; }
      if !c.rootThere { return Failed; }
      if name in homes { return AlreadyExists; }
      if !c.homeMade { return Failed; }
      out := CreateWith(name, made.auth, c);
    }

    /** The part of a creation that changes something. */
    method CreateWith(name: string, auth: Auth, c: Surroundings) returns (out: Outcome)
      requires Valid() && |active.users| < MAX_RECORDS && active.nextUid < U32_MAX && UsernameValid(name)
      requires AuthValid(auth) && SaltFree(active.auths, |active.users|, auth.salt) && IndexOf(active.users, name) < 0
      modifies this, store
      ensures Valid() && Keeps()
      ensures out == if Persists(old(store.dir), Created(old(active), name, auth), c.faults) then Done else Failed
      ensures out == Done ==>
                && active == Created(old(active), name, auth)
                && old(active.nextUid) !in old(issued) && issued == old(issued) + {old(active.nextUid)}
      ensures out != Done ==> active == old(active) && issued == old(issued)
      ensures Attempted(store.dir, old(store.dir), Created(old(active), name, auth), c.faults)
      ensures homes == if out != Done && c.homeUndone then old(homes) else old(homes)[name := old(active.nextUid)]
    {
      hide Persists, Attempted, SaltFree, SaltsApart;
      CreatedAccounted(active, name, auth, issued, creds);
      CreatedSalts(active, name, auth);
      hide RegistryValid, UsernameValid, IndexOf;
      var had := homes;
      homes := homes[name := active.nextUid];
      var r := Created(active, name, auth);
      var ok := Save(r, c.faults);
      if !ok {
        if c.homeUndone {
          homes := had;
        }
        return Failed;
      }
      ghost var uid := active.nextUid;
      active := r;
      issued := issued + {uid};
      creds := creds[uid := auth];
      out := Done;
    }

    /** Remove an account, passing the initial mark on and closing both gaps. */
    method Remove(name: string, purge: bool, c: Surroundings) returns (out: Outcome)
      requires Valid()
      modifies this`active, this`homes, store
      ensures Valid() && Keeps()
      ensures out == Done ==> IndexOf(old(active).users, name) >= 0
                              && active == Removal(old(active), IndexOf(old(active).users, name))
      ensures out != Done ==> active == old(active)
      ensures var refusal := RemoveRefusal(old(active), name, purge, c);
              if refusal.Some? then out == refusal.value && store.dir == old(store.dir)
              else RemovalEnds(out, store.dir, old(store.dir), old(active), IndexOf(old(active).users, name), purge,
                               old(homes), c)
      ensures homes == if out == Done && purge then old(homes) - {name} else old(homes)
    {
      hide Persists, Attempted, RemovalEnds, RegistryValid, UsernameValid, Removal, Heir, HomeSafe;
      if !c.manager { return Denied; }
      if !UsernameValid(name) { return BadArgument; }
      var i := Find(active.users, name);
      if i < 0 { return NotFound; }
      var admins := CountAdmins(active.users);
      if c.caller == active.users[i].uid || (active.users[i].role == Admin && admins <= 1) { return Denied; }
      if purge && !HomeSafe(active.users[i]) { return BadArgument; }
      if !c.confirmed { return Denied; }
      var k: int := i;
      if active.users[i].initial {
        k := FindReplacement(active.users, i);
        if k < 0 { return Denied; }
        OneHeir(active.users, i, k);
      }
      hide Replaces, IndexOf;
      out := RemoveAt(i, k, purge, c);
    }

    /** The part of a removal that changes something. */
    method RemoveAt(i: nat, k: nat, purge: bool, c: Surroundings) returns (out: Outcome)
      requires Valid() && i < |active.users| && k < |active.users| && (active.users[i].initial ==> k != i)
      requires k == if active.users[i].initial then Heir(active.users, i) else i
      requires active.users[i].role == Admin ==> AdminCount(active.users) > 1
      modifies this`active, this`homes, store
      ensures Valid() && Keeps()
      ensures out == Done ==> active == Removal(old(active), i)
      ensures out != Done ==> active == old(active)
      ensures RemovalEnds(out, store.dir, old(store.dir), old(active), i, purge, old(homes), c)
      ensures homes == if out == Done && purge then old(homes) - {old(active).users[i].username} else old(homes)
    {
      hide RegistryValid, Removed, Heir, Persists, Attempted, AdminCount, SaltsApart;
      var r := Without(active, i, k);
      RemovedShape(active, i, k);
      RemovedValid(active, i, k);
      RemovedPaired(active, i, k, issued, creds);
      RemovedSalts(active, i, k);
      assert r == Removal(active, i);
      var ok := Save(r, c.faults);
      if !ok { return Failed; }
      if purge {
        out := PurgeOutcome(homes, active.users[i], c);
        if out != Done {
          ghost var mid := store.dir;
          ok := Save(active, c.undo);
          assert Attempted(store.dir, mid, active, c.undo);
          return if ok then out else Failed;
        }
        homes := homes - {active.users[i].username};
      }
      active := r;
      out := Done;
    }

    /** Change a role; the last administrator cannot be demoted. */
    method SetRole(name: string, role: Role, c: Surroundings) returns (out: Outcome)
      requires Valid()
      modifies this`active, store
      ensures Valid() && Keeps()
      ensures out == RoleOutcome(old(active), name, role, c, old(store.dir))
      ensures out == Done ==> active == WithRole(old(active), IndexOf(old(active).users, name), role)
      ensures out != Done ==> active == old(active)
      ensures if RoleSaves(old(active), name, role, c)
              then Attempted(store.dir, old(store.dir), WithRole(old(active), IndexOf(old(active).users, name), role),
                             c.faults)
              else store.dir == old(store.dir)
    {
      hide Persists, Attempted, RegistryValid, UsernameValid, AdminCount;
      if !c.manager { return Denied; }
      if !UsernameValid(name) { return BadArgument; }
      var i := Find(active.users, name);
      if i < 0 { return NotFound; }
      if active.users[i].role == role {
        assert active == WithRole(active, i, role);
        return Done;
      }
      var admins := CountAdmins(active.users);
      if role == Regular && active.users[i].role == Admin && admins <= 1 { return Denied; }
      if !c.confirmed { return Denied; }
      out := SetRoleAt(i, role, c);
    }

    method SetRoleAt(i: nat, role: Role, c: Surroundings) returns (out: Outcome)
      requires Valid() && i < |active.users|
               && (role == Regular && active.users[i].role == Admin ==> AdminCount(active.users) > 1)
      modifies this`active, store
      ensures Valid() && Keeps()
      ensures out == if Persists(old(store.dir), WithRole(old(active), i, role), c.faults) then Done else Failed
      ensures active == if out == Done then WithRole(old(active), i, role) else old(active)
      ensures Attempted(store.dir, old(store.dir), WithRole(old(active), i, role), c.faults)
    {
      hide RegistryValid, Persists, Attempted, AdminCount;
      WithRoleValid(active, i, role);
      var r := WithRole(active, i, role);
      var ok := Save(r, c.faults);
      if !ok { return Failed; }
      active := r;
      out := Done;
    }

    /** Set a password: one's own, or with authority someone else's. */
    method SetPassword(name: string, password: string, c: Surroundings) returns (out: Outcome)
      requires Valid() && Drawable(c)
      modifies this`active, this`creds, store
      ensures Valid() && Keeps()
      ensures out == PasswordOutcome(old(active), name, password, c, old(store.dir))
      ensures out == Done ==>
                var i := IndexOf(old(active).users, name);
                && 0 <= i < |old(active).auths| && MadePassword(old(active).auths, i, c).Made?
                && active == WithAuth(old(active), i, MadePassword(old(active).auths, i, c).auth)
      ensures out != Done ==> active == old(active) && creds == old(creds)
      ensures if PasswordSaves(old(active), name, password, c)
              then
                var i := IndexOf(old(active).users, name);
                Attempted(store.dir, old(store.dir),
                          WithAuth(old(active), i, MadePassword(old(active).auths, i, c).auth), c.faults)
              else store.dir == old(store.dir)
    {
      hide Persists, Attempted, SaltFree, SaltsApart, MadePassword, RegistryValid, AuthValid;
      if !UsernameValid(name) || !PasswordOk(password) { return BadArgument; }
      var i := Find(active.users, name);
      if i < 0 { return NotFound; }
      var own := c.caller == active.users[i].uid;
      if !own && !c.manager { return Denied; }
      if !own && !c.confirmed { return Denied; }
      MadeFree(active.auths, i, c);
      var made := MakePassword(active.auths, i, c);
      if made.Refused? { return made.outcome; }
      out := SetPasswordAt(i, made.auth, c);
    }

    /** The part of a password change that saves. */
    method SetPasswordAt(i: nat, auth: Auth, c: Surroundings) returns (out: Outcome)
      requires Valid() && i < |active.users| && AuthValid(auth) && SaltFree(active.auths, i, auth.salt)
      modifies this`active, this`creds, store
      ensures Valid() && Keeps()
      ensures out == if Persists(old(store.dir), WithAuth(old(active), i, auth), c.faults) then Done else Failed
      ensures active == if out == Done then WithAuth(old(active), i, auth) else old(active)
      ensures out != Done ==> creds == old(creds)
      ensures Attempted(store.dir, old(store.dir), WithAuth(old(active), i, auth), c.faults)
    {
      hide Persists, Attempted, SaltFree, SaltsApart;
      WithAuthAccounted(active, i, auth, issued, creds);
      WithAuthSalts(active.auths, i, auth);
      hide RegistryValid;
      var r := WithAuth(active, i, auth);
      var ok := Save(r, c.faults);
      if !ok { return Failed; }
      creds := creds[active.users[i].uid := auth];
      active := r;
      out := Done;
    }
  }

  ghost predicate Paired(r: Registry) {
    |r.users| == |r.auths|
  }

  // ----- which requests reach the disk, and what comes of them -----

  /** What the generator draws are credentials. */
  ghost predicate Drawable(c: Surroundings) {
    forall i :: 0 <= i < |c.drawn| ==> AuthValid(c.drawn[i]) && c.drawn[i].algorithm == Pbkdf2
  }

  /** The credentials a new account gets. */
  function NewAuth(r: Registry, c: Surroundings): Auth
    requires MadePassword(r.auths, |r.users|, c).Made?
  {
    MadePassword(r.auths, |r.users|, c).auth
  }

  /** The registry gains exactly the new account. */
  ghost predicate Adds(r: Registry, r': Registry, name: string, c: Surroundings) {
    r.nextUid < U32_MAX && MadePassword(r.auths, |r.users|, c).Made? && r' == Created(r, name, NewAuth(r, c))
  }

  /** The disk and the homes after a creation that got as far as saving: the new registry is
      written, and the home made for it stays unless it is taken back after a failure. */
  ghost predicate CreationWritten(out: Outcome, d: Directory, was: Directory, r: Registry, name: string,
                                  homes: map<string, u32>, homes': map<string, u32>, c: Surroundings)
    requires Paired(r) && r.nextUid < U32_MAX && MadePassword(r.auths, |r.users|, c).Made?
  {
    && Attempted(d, was, Created(r, name, NewAuth(r, c)), c.faults)
    && homes' == if out != Done && c.homeUndone then homes else homes[name := r.nextUid]
  }

  predicate CreateSaves(r: Registry, name: string, password: string, homes: map<string, u32>, c: Surroundings) {
    && c.manager && UsernameValid(name) && PasswordOk(password) && |r.users| < MAX_RECORDS && r.nextUid < U32_MAX
    && IndexOf(r.users, name) < 0 && c.confirmed && MadePassword(r.auths, |r.users|, c).Made?
    && c.rootThere && name !in homes && c.homeMade
  }

  /** The outcome of a creation, check by check. */
  ghost function CreateOutcome(r: Registry, name: string, password: string, homes: map<string, u32>, c: Surroundings,
                               d: Directory): Outcome
    requires Paired(r)
  {
    if !c.manager then Denied
    else if !UsernameValid(name) || !PasswordOk(password) then BadArgument
    else if |r.users| >= MAX_RECORDS || r.nextUid == U32_MAX then Busy
    else if IndexOf(r.users, name) >= 0 then AlreadyExists
    else if !c.confirmed then Denied
    else if MadePassword(r.auths, |r.users|, c).Refused? then MadePassword(r.auths, |r.users|, c).outcome
    else if !c.rootThere then Failed
    else if name in homes then AlreadyExists
    else if !c.homeMade || !Persists(d, Created(r, name, NewAuth(r, c)), c.faults) then Failed
    else Done
  }

  /** Why a removal is refused before anything is saved: nobody removes themselves, the last
      administrator, or the last account. */
  function RemoveRefusal(r: Registry, name: string, purge: bool, c: Surroundings): (o: Option<Outcome>)
    ensures o.None? ==> IndexOf(r.users, name) >= 0
  {
    var i := IndexOf(r.users, name);
    if !c.manager then Some(Denied)
    else if !UsernameValid(name) then Some(BadArgument)
    else if i < 0 then Some(NotFound)
    else if c.caller == r.users[i].uid || (r.users[i].role == Admin && AdminCount(r.users) <= 1) then Some(Denied)
    else if purge && !HomeSafe(r.users[i]) then Some(BadArgument)
    else if !c.confirmed then Some(Denied)
    else if r.users[i].initial && |r.users| == 1 then Some(Denied)
    else None
  }

  /** How a removal ends: the smaller registry is written; after a failed purge the old one
      is written back, and the failure reported is the purge's unless that fails too. */
  ghost predicate RemovalEnds(out: Outcome, d: Directory, was: Directory, r: Registry, i: nat, purge: bool,
                              homes: map<string, u32>, c: Surroundings)
    requires Paired(r) && i < |r.users|
  {
    if Persists(was, Removal(r, i), c.faults) && purge && PurgeOutcome(homes, r.users[i], c) != Done
    then exists mid ::
           && Attempted(mid, was, Removal(r, i), c.faults) && Attempted(d, mid, r, c.undo)
           && out == if Persists(mid, r, c.undo) then PurgeOutcome(homes, r.users[i], c) else Failed
    else
      && Attempted(d, was, Removal(r, i), c.faults)
      && out == if Persists(was, Removal(r, i), c.faults) then Done else Failed
  }

  predicate RoleSaves(r: Registry, name: string, role: Role, c: Surroundings) {
    var i := IndexOf(r.users, name);
    && c.manager && UsernameValid(name) && i >= 0 && r.users[i].role != role
    && (role == Regular ==> AdminCount(r.users) > 1) && c.confirmed
  }

  ghost function RoleOutcome(r: Registry, name: string, role: Role, c: Surroundings, d: Directory): Outcome
    requires Paired(r)
  {
    var i := IndexOf(r.users, name);
    if !c.manager then Denied
    else if !UsernameValid(name) then BadArgument
    else if i < 0 then NotFound
    else if r.users[i].role == role then Done
    else if (role == Regular && AdminCount(r.users) <= 1) || !c.confirmed then Denied
    else if !Persists(d, WithRole(r, i, role), c.faults) then Failed
    else Done
  }

  predicate PasswordSaves(r: Registry, name: string, password: string, c: Surroundings) {
    var i := IndexOf(r.users, name);
    && UsernameValid(name) && PasswordOk(password) && 0 <= i < |r.auths|
    && (c.caller == r.users[i].uid || (c.manager && c.confirmed)) && MadePassword(r.auths, i, c).Made?
  }

  ghost function PasswordOutcome(r: Registry, name: string, password: string, c: Surroundings, d: Directory): Outcome
    requires Paired(r)
  {
    var i := IndexOf(r.users, name);
    if !UsernameValid(name) || !PasswordOk(password) then BadArgument
    else if i < 0 then NotFound
    else if c.caller != r.users[i].uid && !(c.manager && c.confirmed) then Denied
    else if MadePassword(r.auths, i, c).Refused? then MadePassword(r.auths, i, c).outcome
    else if !Persists(d, WithAuth(r, i, MadePassword(r.auths, i, c).auth), c.faults) then Failed
    else Done
  }

  /** Copy a registry, pass the initial mark on if need be, and shift both arrays over the gap. */
  method Without(r: Registry, i: nat, k: nat) returns (r': Registry)
    requires |r.users| == |r.auths| && i < |r.users| && k < |r.users|
    ensures r' == Removed(r, i, k)
  {
    var users := new User[|r.users|](j requires 0 <= j < |r.users| => r.users[j]);
    var auths := new Auth[|r.auths|](j requires 0 <= j < |r.auths| => r.auths[j]);
    if r.users[i].initial {
      users[k] := users[k].(initial := true);
    }
    ghost var marked := if r.users[i].initial then r.users[k := r.users[k].(initial := true)] else r.users;
    assert users[..] == marked && auths[..] == r.auths;
    Shift(users, i);
    Shift(auths, i);
    r' := Registry(users[..users.Length - 1], auths[..auths.Length - 1], r.nextUid);
  }

  method Shift<T>(a: array<T>, at: nat)
    requires at < a.Length
    modifies a
    ensures a[..a.Length - 1] == Drop(old(a[..]), at)
  {
    var i := at;
    while i + 1 < a.Length
      invariant at <= i < a.Length
      invariant forall k :: 0 <= k < a.Length ==> a[k] == if at <= k < i then old(a[k + 1]) else old(a[k])
    {
      a[i] := a[i + 1];
      i := i + 1;
    }
  }

  lemma CreatedSalts(r: Registry, name: string, auth: Auth)
    requires |r.users| == |r.auths| && r.nextUid < U32_MAX && SaltFree(r.auths, |r.users|, auth.salt)
    ensures SaltsApart(r.auths) ==> SaltsApart(Created(r, name, auth).auths)
  {
  }

  lemma WithAuthSalts(auths: seq<Auth>, i: nat, auth: Auth)
    requires i < |auths| && SaltFree(auths, i, auth.salt)
    ensures SaltsApart(auths) ==> SaltsApart(auths[i := auth])
  {
  }

  lemma RemovedSalts(r: Registry, i: nat, k: nat)
    requires i < |r.users| == |r.auths| && k < |r.users|
    ensures SaltsApart(r.auths) ==> SaltsApart(Removed(r, i, k).auths)
  {
  }

  lemma CreatedAccounted(r: Registry, name: string, auth: Auth, issued: set<u32>, creds: map<u32, Auth>)
    requires Accounted(r, issued, creds) && |r.users| < MAX_RECORDS && r.nextUid < U32_MAX && UsernameValid(name)
             && AuthValid(auth)
    requires forall k :: 0 <= k < |r.users| ==> r.users[k].username != name
    ensures Accounted(Created(r, name, auth), issued + {r.nextUid}, creds[r.nextUid := auth]) && r.nextUid !in issued
    ensures AdminCount(Created(r, name, auth).users) == AdminCount(r.users)
    ensures Created(r, name, auth).nextUid > r.nextUid
  {
    CreatedValid(r, name, auth);
    hide RegistryValid;
  }

  ghost function UidsOf(r: Registry): set<u32> {
    set i | 0 <= i < |r.users| :: r.users[i].uid
  }

  ghost function CredsOf(r: Registry): map<u32, Auth>
    requires RegistryValid(r)
  {
    UniqueUids(r.users);
    map i | 0 <= i < |r.users| :: r.users[i].uid := r.auths[i]
  }

  lemma UniqueUids(users: seq<User>)
    requires Unique(users)
    ensures forall i, j :: 0 <= i < |users| && 0 <= j < |users| && users[i].uid == users[j].uid ==> i == j
  {
    forall i, j | 0 <= i < |users| && 0 <= j < |users| && i != j ensures users[i].uid != users[j].uid {
      if i < j {
        assert !Same(users[i], users[j]);
      } else {
        assert !Same(users[j], users[i]);
      }
    }
  }

  lemma LoadedPaired(r: Registry)
    requires RegistryValid(r)
    ensures Accounted(r, UidsOf(r), CredsOf(r))
  {
    UniqueUids(r.users);
    hide UserValid, AuthValid, Unique;
  }

  lemma RemovedAt(r: Registry, i: nat, k: nat, m: nat)
    requires i < |r.users| == |r.auths| && k < |r.users| && m < |r.users| - 1
    ensures var j := if m < i then m else m + 1;
            Removed(r, i, k).users[m].uid == r.users[j].uid && Removed(r, i, k).auths[m] == r.auths[j]
  {
  }

  /** After a removal everyone left still has their own credentials. */
  lemma RemovedShape(r: Registry, i: nat, k: nat)
    requires Paired(r) && i < |r.users| && k < |r.users|
    ensures Paired(Removed(r, i, k)) && Removed(r, i, k).nextUid == r.nextUid
  {
  }

  lemma RemovedPaired(r: Registry, i: nat, k: nat, issued: set<u32>, creds: map<u32, Auth>)
    requires Accounted(r, issued, creds) && i < |r.users| && k < |r.users| && (r.users[i].initial ==> k != i)
    ensures Accounted(Removed(r, i, k), issued, creds)
  {
    RemovedValid(r, i, k);
    var r' := Removed(r, i, k);
    assert |r'.users| == |r'.auths| == |r.users| - 1 && r'.nextUid == r.nextUid;
    hide RegistryValid, Removed;
    forall m | 0 <= m < |r'.users|
      ensures r'.users[m].uid in issued && r'.users[m].uid in creds && r'.auths[m] == creds[r'.users[m].uid] {
      RemovedAt(r, i, k, m);
    }
  }

  lemma WithAuthAccounted(r: Registry, i: nat, auth: Auth, issued: set<u32>, creds: map<u32, Auth>)
    requires Accounted(r, issued, creds) && i < |r.users| && AuthValid(auth)
    ensures Accounted(WithAuth(r, i, auth), issued, creds[r.users[i].uid := auth])
  {
    hide UserValid, AuthValid;
    UniqueUids(r.users);
  }
}
