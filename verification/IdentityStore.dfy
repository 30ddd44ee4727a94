/** Replacing the account database on disk: a new file, two renames and an unlink,
    any of which may fail, with the machine allowed to stop between any two. */
module IdentityStore {
  import opened Options
  import opened Identity
  import opened IdentityDatabase
  import opened IdentityCode

  datatype Entry = File(text: string) | Folder

  /** `users`, `.users.new`, `.users.old` and every other name. */
  datatype Name = Users | Fresh | Backup | Other(name: string)
  type Directory = map<Name, Entry>

  /** Which file-system calls work, and how much of the text is written. */
  datatype Faults = Faults(located: bool, dropFresh: bool, dropBackup: bool, make: bool, open: bool,
                           written: nat, clear: bool, move: bool, publish: bool, restore: bool, tidy: bool)

  /** A text the account parser accepts. */
  ghost predicate Whole(text: string) {
    ParseDatabase(text).Some?
  }

  ghost predicate Holds(d: Directory, name: Name) {
    name in d && d[name].File? && Whole(d[name].text)
  }

  /** Some one of the three names holds a complete database. */
  ghost predicate Recoverable(d: Directory) {
    Holds(d, Users) || Holds(d, Fresh) || Holds(d, Backup)
  }

  ghost predicate AllRecoverable(steps: seq<Directory>) {
    forall i :: 0 <= i < |steps| ==> Recoverable(steps[i])
  }

  /** Only `users` is ever loaded: wherever it is there, it is complete. */
  ghost predicate AllLoadable(steps: seq<Directory>) {
    forall i :: 0 <= i < |steps| && Users in steps[i] ==> Holds(steps[i], Users)
  }

  /** Everything but the three names is as it was. */
  ghost predicate OthersKept(d: Directory, was: Directory) {
    d - {Users, Fresh, Backup} == was - {Users, Fresh, Backup}
  }

  /** Where the old file or the new text is: still in place, moved aside, or replaced. */
  ghost predicate Kept(d: Directory, was: Directory, text: string) {
    && OthersKept(d, was)
    && (Users in was ==>
          || (Users in d && d[Users] == was[Users])
          || (Users !in d && Backup in d && d[Backup] == was[Users])
          || (Users in d && d[Users] == File(text)))
  }

  lemma SameKept(d: Directory, was: Directory, text: string)
    requires OthersKept(d, was) && SameUsers(d, was)
    ensures Kept(d, was, text)
  {
  }

  ghost predicate AllKept(steps: seq<Directory>, was: Directory, text: string) {
    forall i :: 0 <= i < |steps| ==> Kept(steps[i], was, text)
  }

  /** Neither of the other names is in use, and the database is in place. */
  ghost predicate Cleared(d: Directory, was: Directory) {
    OthersKept(d, was) && Fresh !in d && Backup !in d && SameUsers(d, was)
  }

  ghost predicate SameUsers(d: Directory, was: Directory) {
    if Users in was then Users in d && d[Users] == was[Users] else Users !in d
  }

  method Printed(r: Registry) returns (ok: bool, text: string)
    requires |r.users| == |r.auths|
    ensures ok <==> RegistryValid(r) && |Print(r)| <= MAX_BYTES
    ensures ok ==> text == Print(r) && Whole(text) && ParseDatabase(text) == Some((r, false))
  {
    hide RegistryValid, Print, ParseDatabase;
    var writer := new Writer(MAX_BYTES);
    ok := writer.Serialize(r);
    text := "";
    if ok {
      text := writer.buffer[..writer.position];
      RoundTrip(r);
    }
  }

  /** There is something to write and a directory to write it in. */
  ghost predicate Reaches(r: Registry, f: Faults)
    requires |r.users| == |r.auths|
  {
    RegistryValid(r) && |Print(r)| <= MAX_BYTES && f.located
  }

  lemma ReachesIs(r: Registry, f: Faults)
    requires |r.users| == |r.auths|
    ensures Reaches(r, f) <==> RegistryValid(r) && |Print(r)| <= MAX_BYTES && f.located
  {
  }

  /** Each method also gives the states the directory goes through, oldest first,
      without the one it starts from. */
  class Store {
    var dir: Directory

    constructor (d: Directory)
      ensures dir == d
    {
      dir := d;
    }

    method Unlink(name: Name, works: bool) returns (ok: bool, ghost steps: seq<Directory>)
      modifies this
      ensures ok <==> works && name in old(dir) && old(dir)[name].File?
      ensures dir == (if ok then old(dir) - {name} else old(dir)) && steps == [dir]
    {
      ok := works && name in dir && dir[name].File?;
      if ok {
        dir := dir - {name};
      }
      steps := [dir];
    }

    method Rename(from: Name, to: Name, works: bool) returns (ok: bool, ghost steps: seq<Directory>)
      requires from in dir && to !in dir
      modifies this
      ensures ok == works
      ensures dir == (if ok then (old(dir) - {from})[to := old(dir)[from]] else old(dir)) && steps == [dir]
    {
      ok := works;
      if ok {
        dir := (dir - {from})[to := dir[from]];
      }
      steps := [dir];
    }

    /** Write a file from its start; a stop half way leaves any prefix. */
    method WriteFile(name: Name, text: string, written: nat) returns (ok: bool, ghost steps: seq<Directory>)
      requires name in dir && written <= |text|
      modifies this
      ensures ok <==> written == |text|
      ensures dir == old(dir)[name := File(text[..written])]
      ensures steps == seq(written + 1, i requires 0 <= i <= written => old(dir)[name := File(text[..i])])
    {
      steps := seq(written + 1, i requires 0 <= i <= written => old(dir)[name := File(text[..i])]);
      dir := dir[name := File(text[..written])];
      ok := written == |text|;
    }

    /** Remove what an earlier attempt may have left. */
    method ClearStale(f: Faults, ghost text: string) returns (ok: bool, ghost steps: seq<Directory>)
      modifies this
      ensures AllKept(steps, old(dir), text) && SameUsers(dir, old(dir)) && OthersKept(dir, old(dir))
      ensures ok <==> Clearable(old(dir), Fresh, f.dropFresh) && Clearable(old(dir), Backup, f.dropBackup)
      ensures ok ==> Cleared(dir, old(dir))
      ensures AllInPlace(steps, old(dir))
      ensures FolderAt(old(dir), Fresh) ==> !ok && dir == old(dir) && steps == []
      ensures f.dropFresh && f.dropBackup && !FolderAt(old(dir), Fresh) ==> Bare([old(dir)] + steps, old(dir))
    {
      hide Kept;
      ok, steps := true, [];
      ghost var more;
      if Fresh in dir {
        if dir[Fresh].Folder? { return false, steps; }
        ok, steps := Unlink(Fresh, f.dropFresh);
        SameKept(dir, old(dir), text);
        if !ok { return; }
      }
      if Backup in dir {
        if dir[Backup].Folder? {
          assert Unhelped(([old(dir)] + steps)[|steps|], old(dir));
          return false, steps;
        }
        ok, more := Unlink(Backup, f.dropBackup);
        SameKept(dir, old(dir), text);
        steps := steps + more;
      }
      assert ok ==> Unhelped(([old(dir)] + steps)[|steps|], old(dir));
    }

    /** Write the new database beside the old one. */
    method WriteFresh(text: string, f: Faults) returns (ok: bool, ghost steps: seq<Directory>)
      requires Fresh !in dir && f.written <= |text|
      modifies this
      ensures Beside(steps, old(dir)) && dir - {Fresh} == old(dir) - {Fresh}
      ensures ok <==> f.make && f.open && f.written == |text|
      ensures ok ==> dir == old(dir)[Fresh := File(text)]
    {
      if !f.make { return false, []; }
      ghost var was, more := dir, [];
      dir := dir[Fresh := File("")];
      steps := [dir];
      ok := f.open;
      if ok {
        ok, more := WriteFile(Fresh, text, f.written);
        steps := steps + more;
        assert text[..|text|] == text;
        assert dir == was[Fresh := File(text[..f.written])];
      }
      assert dir - {Fresh} == was - {Fresh};
      if !ok {
        var cleared;
        cleared, more := Unlink(Fresh, f.clear);
        steps := steps + more;
      }
    }

    /** Put the new file in place of the old one. */
    method Swap(text: string, f: Faults) returns (ok: bool, ghost steps: seq<Directory>)
      requires Fresh in dir && dir[Fresh] == File(text) && Backup !in dir
      modifies this
      ensures AllKept(steps, old(dir), text)
      ensures ok <==> Clearable(old(dir), Users, f.move) && f.publish
      ensures Swapped(dir, old(dir), text, ok, MovesAside(old(dir), f) && !f.publish && !f.restore)
      ensures Users in old(dir) ==>
                GapFrom(steps, 0, if !MovesAside(old(dir), f) then 0 else if f.publish then 1 else if f.restore then 2
                        else 4)
    {
      var moved := false;
      steps := [];
      ghost var more;
      if Users in dir {
        moved := dir[Users].File?;
        if moved {
          moved, steps := Rename(Users, Backup, f.move);
        }
        if !moved {
          var done;
          done, more := Unlink(Fresh, f.clear);
          return false, steps + more;
        }
      }
      ok, more := Publish(old(dir), moved, text, f);
      steps := steps + more;
    }

    /** The second rename, and undoing the first if it fails. */
    method Publish(ghost was: Directory, moved: bool, text: string, f: Faults)
      returns (ok: bool, ghost steps: seq<Directory>)
      requires Fresh in dir && dir[Fresh] == File(text) && Users !in dir && OthersKept(dir, was)
      requires if moved then MovedAside(dir, was) else Users !in was && Backup !in dir
      modifies this
      ensures AllKept(steps, was, text) && ok == f.publish
      ensures Swapped(dir, was, text, ok, moved && !f.publish && !f.restore)
      ensures moved ==> GapFrom(steps, 0, if f.publish then 0 else if f.restore then 1 else 3)
    {
      var done;
      ghost var more;
      ok, steps := Rename(Fresh, Users, f.publish);
      if !ok {
        if moved {
          done, more := Rename(Backup, Users, f.restore);
          steps := steps + more;
        }
        done, more := Unlink(Fresh, f.clear);
        steps := steps + more;
      } else if moved {
        done, more := Unlink(Backup, f.tidy);
        steps := steps + more;
      }
    }

    /** Replace the database file. */
    method Save(text: string, f: Faults) returns (ok: bool, ghost steps: seq<Directory>)
      requires f.written <= |text|
      modifies this
      ensures ok <==> Succeeds(old(dir), f, |text|)
      ensures AllKept(steps, old(dir), text) && Swapped(dir, old(dir), text, ok, Strands(old(dir), f, |text|))
      ensures Users in old(dir) ==> HasGap(steps, GapSize(old(dir), f, |text|))
      ensures f.dropFresh && f.dropBackup && !FolderAt(old(dir), Fresh) ==> Bare([old(dir)] + steps, old(dir))
      ensures FolderAt(old(dir), Fresh) ==> !ok && dir == old(dir) && steps == []
    {
      ok, steps := ClearStale(f, text);
      ghost var was, more := dir, [];
      hide Kept, OthersKept, SameUsers, Unhelped, Bare;
      if ok {
        ok, more := WriteFresh(text, f);
        BesideKept(more, was, old(dir), text);
        BesideSame(dir, was, old(dir));
        SameClearable(dir, old(dir), f.move);
        BareJoin([old(dir)], steps, more, old(dir));
        BesideInPlace(more, was, old(dir));
        steps := steps + more;
        if ok {
          ghost var ready := dir;
          ok, more := Swap(text, f);
          KeptFrom(more, ready, old(dir), text);
          SwappedFrom(dir, ready, old(dir), text, ok, MovesAside(ready, f) && !f.publish && !f.restore);
          if Users in old(dir) {
            GapAfter(steps, more, old(dir), GapSize(old(dir), f, |text|));
          }
          BareJoin([old(dir)], steps, more, old(dir));
          steps := steps + more;
          return;
        }
      }
      NoGap(steps, old(dir));
    }

    /** Replace it by a complete one. */
    method SaveDatabase(text: string, f: Faults) returns (ok: bool, ghost steps: seq<Directory>)
      requires f.written <= |text| && Whole(text)
      modifies this
      ensures ok <==> Succeeds(old(dir), f, |text|)
      ensures Swapped(dir, old(dir), text, ok, Strands(old(dir), f, |text|))
      ensures Users in old(dir) ==> HasGap(steps, GapSize(old(dir), f, |text|))
      ensures Holds(old(dir), Users) ==> AllRecoverable([old(dir)] + steps) && AllLoadable([old(dir)] + steps)
      ensures f.dropFresh && f.dropBackup ==> (AllRecoverable([old(dir)] + steps) <==> Survives(old(dir)))
    {
      KeptStart(dir, text);
      hide Whole, Kept, OthersKept, Swapped, Bare, HasGap;
      ok, steps := Save(text, f);
      RecoverableExactly([old(dir)] + steps, old(dir), text);
      StartRecoverable(old(dir));
    }

    /** Print a registry and replace the database file with it. */
    method Persist(r: Registry, f: Faults) returns (ok: bool, ghost steps: seq<Directory>)
      requires |r.users| == |r.auths|
      modifies this
      ensures ok <==> Reaches(r, f) && Succeeds(old(dir), f, |Print(r)|)
      ensures Swapped(dir, old(dir), Print(r), ok, Reaches(r, f) && Strands(old(dir), f, |Print(r)|))
      ensures Users in old(dir) ==> HasGap(steps, if Reaches(r, f) then GapSize(old(dir), f, |Print(r)|) else 0)
      ensures ok ==> ParseDatabase(Print(r)) == Some((r, false))
      ensures Holds(old(dir), Users) ==> AllRecoverable([old(dir)] + steps) && AllLoadable([old(dir)] + steps)
      ensures Reaches(r, f) && f.dropFresh && f.dropBackup ==>
                (AllRecoverable([old(dir)] + steps) <==> Survives(old(dir)))
    {
      hide *;
      KeptStart(dir, Print(r));
      ReachesIs(r, f);
      StartRecoverable(dir);
      NoGap([], dir);
      var text;
      ok, text := Printed(r);
      if !ok || !f.located {
        return false, [];
      }
      CutFaults(dir, f, |text|);
      ok, steps := SaveDatabase(text, Cut(f, |text|));
    }
  }

  /** Only the new file's own name differs. */
  ghost predicate Beside(steps: seq<Directory>, was: Directory) {
    forall i :: 0 <= i < |steps| ==> steps[i] - {Fresh} == was - {Fresh}
  }

  /** The new text is the database; a backup left behind is the old one. */
  ghost predicate Saved(d: Directory, was: Directory, text: string) {
    && OthersKept(d, was) && Users in d && d[Users] == File(text) && Fresh !in d
    && (Backup in d ==> Users in was && d[Backup] == was[Users])
  }

  /** The old database is only under the backup name. */
  ghost predicate MovedAside(d: Directory, was: Directory) {
    Users in was && Users !in d && Backup in d && d[Backup] == was[Users]
  }

  /** What an attempt leaves: the new database; if `stranded`, the old one under the
      backup name; else the old one where it was. */
  ghost predicate Swapped(d: Directory, was: Directory, text: string, ok: bool, stranded: bool) {
    && OthersKept(d, was)
    && if ok then Saved(d, was, text)
       else if stranded then MovedAside(d, was) && !FolderAt(d, Fresh)
       else SameUsers(d, was)
  }

  ghost predicate FolderAt(d: Directory, name: Name) {
    name in d && d[name].Folder?
  }

  /** The starts from which every state stays recoverable. */
  ghost predicate Survives(was: Directory) {
    Holds(was, Users) || (FolderAt(was, Fresh) && Holds(was, Backup))
  }

  /** Neither other name holds anything that could stand in for the database. */
  ghost predicate Unhelped(d: Directory, was: Directory) {
    SameUsers(d, was) && Fresh !in d && (Backup in d ==> d[Backup].Folder?)
  }

  predicate Clearable(d: Directory, name: Name, works: bool) {
    name in d ==> d[name].File? && works
  }

  /** The attempts that get the new file written. */
  ghost predicate Prepares(d: Directory, f: Faults, length: nat) {
    && Clearable(d, Fresh, f.dropFresh) && Clearable(d, Backup, f.dropBackup)
    && f.make && f.open && f.written >= length
  }

  /** The attempts that succeed: every call on the way works, and no name is a directory. */
  ghost predicate Succeeds(d: Directory, f: Faults, length: nat) {
    Prepares(d, f, length) && Clearable(d, Users, f.move) && f.publish
  }

  predicate MovesAside(d: Directory, f: Faults) {
    Users in d && d[Users].File? && f.move
  }

  /** The attempts that leave the old database under the backup name: both the second
      rename and the one that should undo the first fail. */
  ghost predicate Strands(d: Directory, f: Faults, length: nat) {
    Prepares(d, f, length) && MovesAside(d, f) && !f.publish && !f.restore
  }

  /** How many states in a row have no `users`. */
  ghost function GapSize(d: Directory, f: Faults, length: nat): nat {
    if !(Prepares(d, f, length) && MovesAside(d, f)) then 0 else if f.publish then 1 else if f.restore then 2 else 4
  }

  /** The states without `users` are exactly the `n` from the i-th on. */
  ghost predicate GapFrom(steps: seq<Directory>, i: nat, n: nat) {
    i + n <= |steps| && forall k :: 0 <= k < |steps| ==> (Users !in steps[k] <==> i <= k < i + n)
  }

  ghost predicate HasGap(steps: seq<Directory>, n: nat) {
    exists i: nat :: GapFrom(steps, i, n)
  }

  ghost predicate AllInPlace(steps: seq<Directory>, was: Directory) {
    forall k :: 0 <= k < |steps| ==> SameUsers(steps[k], was)
  }

  lemma GapAfter(a: seq<Directory>, b: seq<Directory>, was: Directory, n: nat)
    requires Users in was && AllInPlace(a, was) && GapFrom(b, 0, n)
    ensures HasGap(a + b, n)
  {
    assert GapFrom(a + b, |a|, n);
  }

  ghost predicate Bare(steps: seq<Directory>, was: Directory) {
    exists i :: 0 <= i < |steps| && Unhelped(steps[i], was)
  }

  lemma BareJoin(start: seq<Directory>, steps: seq<Directory>, more: seq<Directory>, was: Directory)
    ensures Bare(start + steps, was) ==> Bare(start + (steps + more), was)
  {
    if i :| 0 <= i < |start + steps| && Unhelped((start + steps)[i], was) {
      assert (start + (steps + more))[i] == (start + steps)[i];
    }
  }

  lemma StartRecoverable(d: Directory)
    ensures AllRecoverable([d] + []) <==> Recoverable(d)
    ensures Holds(d, Users) ==> Recoverable(d) && AllLoadable([d] + [])
  {
    hide Whole;
    assert ([d] + [])[0] == d;
  }

  /** No more can be written than there is. */
  function Cut(f: Faults, length: nat): (g: Faults)
    ensures g.written <= length && g == f.(written := g.written)
  {
    if f.written <= length then f else f.(written := length)
  }

  lemma CutFaults(d: Directory, f: Faults, length: nat)
    ensures Prepares(d, Cut(f, length), length) <==> Prepares(d, f, length)
    ensures Succeeds(d, Cut(f, length), length) <==> Succeeds(d, f, length)
    ensures Strands(d, Cut(f, length), length) <==> Strands(d, f, length)
    ensures GapSize(d, Cut(f, length), length) == GapSize(d, f, length)
  {
    hide Clearable, MovesAside;
    var g := Cut(f, length);
    assert g.written >= length <==> f.written >= length;
    assert MovesAside(d, g) == MovesAside(d, f) by { SameMoves(d, f, g); }
  }

  lemma SameMoves(d: Directory, f: Faults, g: Faults)
    requires f.move == g.move
    ensures MovesAside(d, f) == MovesAside(d, g)
  {
  }

  lemma BesideKept(steps: seq<Directory>, cleared: Directory, was: Directory, text: string)
    requires Beside(steps, cleared) && Cleared(cleared, was)
    ensures AllKept(steps, was, text)
  {
    forall i | 0 <= i < |steps|
      ensures Kept(steps[i], was, text)
    {
      BesideSame(steps[i], cleared, was);
    }
  }

  lemma BesideInPlace(steps: seq<Directory>, cleared: Directory, was: Directory)
    requires Beside(steps, cleared) && Cleared(cleared, was)
    ensures AllInPlace(steps, was)
  {
    forall i | 0 <= i < |steps|
      ensures SameUsers(steps[i], was)
    {
      BesideSame(steps[i], cleared, was);
    }
  }

  lemma NoGap(steps: seq<Directory>, was: Directory)
    requires AllInPlace(steps, was)
    ensures Users in was ==> HasGap(steps, 0)
  {
    assert Users in was ==> GapFrom(steps, 0, 0);
  }

  lemma BesideSame(d: Directory, cleared: Directory, was: Directory)
    requires d - {Fresh} == cleared - {Fresh} && Cleared(cleared, was)
    ensures OthersKept(d, was) && SameUsers(d, was) && Backup !in d
  {
    assert d - {Users, Fresh, Backup} == (d - {Fresh}) - {Users, Backup};
    assert cleared - {Users, Fresh, Backup} == (cleared - {Fresh}) - {Users, Backup};
    assert Users in d - {Fresh} <==> Users in cleared - {Fresh};
    assert Backup in d - {Fresh} <==> Backup in cleared - {Fresh};
  }

  lemma SameClearable(d: Directory, was: Directory, works: bool)
    requires SameUsers(d, was)
    ensures Clearable(d, Users, works) <==> Clearable(was, Users, works)
    ensures Users in d && d[Users].File? <==> Users in was && was[Users].File?
  {
  }

  lemma KeptStart(was: Directory, text: string)
    ensures Kept(was, was, text) && Swapped(was, was, text, false, false)
  {
  }

  lemma SwappedFrom(d: Directory, ready: Directory, was: Directory, text: string, ok: bool, stranded: bool)
    requires Swapped(d, ready, text, ok, stranded) && OthersKept(ready, was) && SameUsers(ready, was)
    ensures Swapped(d, was, text, ok, stranded)
  {
  }

  lemma KeptFrom(steps: seq<Directory>, ready: Directory, was: Directory, text: string)
    requires AllKept(steps, ready, text) && OthersKept(ready, was) && SameUsers(ready, was)
    ensures AllKept(steps, was, text)
  {
  }

  /** A run that keeps the old file or the new text, and at some point has nothing
      else, is recoverable throughout just when the old file was complete. */
  lemma RecoverableExactly(steps: seq<Directory>, was: Directory, text: string)
    requires AllKept(steps, was, text) && Whole(text)
    ensures Holds(was, Users) ==> AllRecoverable(steps) && AllLoadable(steps)
    ensures Bare(steps, was) ==> (AllRecoverable(steps) ==> Holds(was, Users))
  {
    if i :| 0 <= i < |steps| && Unhelped(steps[i], was) && AllRecoverable(steps) {
      assert Recoverable(steps[i]);
    }
  }

  /** After a stranded attempt the only database is the backup, which the next attempt
      begins by unlinking: whatever else happens, it passes through a state with none. */
  method StrandedThenLost(store: Store, r: Registry, f: Faults, next: Registry, g: Faults)
    returns (ghost first: seq<Directory>, ghost second: seq<Directory>)
    requires |r.users| == |r.auths| && Reaches(r, f) && |next.users| == |next.auths| && Reaches(next, g)
    requires Holds(store.dir, Users) && Strands(store.dir, f, |Print(r)|) && g.dropFresh && g.dropBackup
    modifies store
    ensures AllRecoverable([old(store.dir)] + first) && !AllRecoverable(second)
  {
    hide RegistryValid, Print, ParseDatabase, Reaches, Whole, AllRecoverable, HasGap, Prepares;
    var ok;
    ok, first := store.Persist(r, f);
    ghost var between := store.dir;
    ok, second := store.Persist(next, g);
    second := [between] + second;
  }
}
