/** The checker's directory traversal: a recursive scan over shared arrays that
    counts errors. With none counted, the live directory graph is a forest and
    `reachable` is exactly what the root reaches. */
module MgfsGraphCheck {

  /** A directory entry as the scan decodes it; only live ones matter. */
  datatype Dirent = Dirent(live: bool, child: nat, name: seq<int>)

  /** A readable record: a file, a directory with the entries that decode and
      whether its stream is well formed to the end, or a record of unknown type. */
  datatype Rec = File | Dir(entries: seq<Dirent>, wellFormed: bool) | Unknown

  /** What the checker can read: records by ID, and the root's ID. */
  datatype Volume = Volume(recordCount: nat, root: nat, records: map<nat, Rec>)

  ghost predicate IdsInRange(v: Volume) {
    forall id :: id in v.records ==> 1 <= id <= v.recordCount
  }

  predicate IsDir(v: Volume, id: nat) {
    id in v.records && v.records[id].Dir?
  }

  /** Entry j of directory d is live. */
  ghost predicate LiveEntry(v: Volume, d: nat, j: nat) {
    IsDir(v, d) && j < |v.records[d].entries| && v.records[d].entries[j].live
  }

  ghost function Child(v: Volume, d: nat, j: nat): nat
    requires LiveEntry(v, d, j)
  {
    v.records[d].entries[j].child
  }

  ghost predicate Edge(v: Volume, d: nat, c: nat) {
    exists j: nat :: LiveEntry(v, d, j) && Child(v, d, j) == c && c in v.records
  }

  /** A chain of live entries starting at the root. */
  ghost predicate Path(v: Volume, p: seq<nat>) {
    |p| >= 1 && p[0] == v.root && forall i :: 0 < i < |p| ==> Edge(v, p[i - 1], p[i])
  }

  ghost predicate Reaches(v: Volume, c: nat) {
    exists p :: Path(v, p) && p[|p| - 1] == c
  }

  lemma ReachesRoot(v: Volume)
    ensures Reaches(v, v.root)
  {
    assert Path(v, [v.root]);
  }

  lemma ReachesStep(v: Volume, d: nat, c: nat)
    requires Reaches(v, d) && Edge(v, d, c)
    ensures Reaches(v, c)
  {
    var p :| Path(v, p) && p[|p| - 1] == d;
    var q := p + [c];
    assert forall i :: 0 <= i < |p| ==> q[i] == p[i];
    assert Path(v, q) && q[|q| - 1] == c;
  }

  /** A set that holds the root and is closed under live entries holds everything reachable. */
  lemma {:induction false} ReachesClosed(v: Volume, r: set<nat>, p: seq<nat>)
    requires v.root in r && Path(v, p)
    requires forall d, c :: d in r && Edge(v, d, c) ==> c in r
    ensures p[|p| - 1] in r
    decreases |p|
  {
    if |p| > 1 {
      var q := p[..|p| - 1];
      assert forall i :: 0 <= i < |q| ==> q[i] == p[i];
      ReachesClosed(v, r, q);
      assert Edge(v, p[|p| - 2], p[|p| - 1]);
    }
  }

  /** What zero errors certify about the directories in `rank`: the order in
      which they were finished. */
  ghost predicate DirChecked(v: Volume, d: nat, rank: map<nat, nat>, referrer: map<nat, (nat, nat)>) {
    && d in rank && IsDir(v, d) && v.records[d].wellFormed
    && (forall j: nat :: LiveEntry(v, d, j) ==>
          var c := Child(v, d, j);
          && c in v.records && c != v.root
          && c in referrer && referrer[c] == (d, j)
          && (IsDir(v, c) ==> c in rank && rank[c] < rank[d]))
    && UniqueNames(v, d)
  }

  ghost predicate UniqueNames(v: Volume, d: nat) {
    forall i, j :: 0 <= i < j && LiveEntry(v, d, i) && LiveEntry(v, d, j) ==>
      v.records[d].entries[i].name != v.records[d].entries[j].name
  }

  ghost predicate AllKnown(v: Volume) {
    forall id :: id in v.records ==> !v.records[id].Unknown?
  }

  /** The verdict: every directory's entries resolve, names are unique, nothing
      is referenced twice, the root not at all, and there is no cycle. */
  ghost predicate Sound(v: Volume) {
    && IsDir(v, v.root) && AllKnown(v) && Acyclic(v)
    && (forall d, j :: LiveEntry(v, d, j) ==> Child(v, d, j) in v.records && Child(v, d, j) != v.root)
    && (forall d :: IsDir(v, d) ==> UniqueNames(v, d) && v.records[d].wellFormed)
    && (forall d, j, d', j' :: LiveEntry(v, d, j) && LiveEntry(v, d', j') && Child(v, d, j) == Child(v, d', j') ==>
        d == d' && j == j')
  }

  /** Directories can be numbered so that every directory entry goes down. */
  ghost predicate Acyclic(v: Volume) {
    exists rank: map<nat, nat> :: Descends(v, rank)
  }

  ghost predicate Descends(v: Volume, rank: map<nat, nat>) {
    forall d, c :: IsDir(v, d) && IsDir(v, c) && Edge(v, d, c) ==> d in rank && c in rank && rank[c] < rank[d]
  }

  /** So no chain of directory entries ever returns to where it started. */
  lemma {:induction false} NoCycle(v: Volume, rank: map<nat, nat>, p: seq<nat>)
    requires Descends(v, rank) && |p| >= 2 && forall i :: 0 <= i < |p| ==> IsDir(v, p[i])
    requires forall i :: 0 < i < |p| ==> Edge(v, p[i - 1], p[i])
    ensures p[0] in rank && p[|p| - 1] in rank && rank[p[|p| - 1]] < rank[p[0]]
    ensures p[0] != p[|p| - 1]
    decreases |p|
  {
    assert Edge(v, p[|p| - 2], p[|p| - 1]);
    if |p| > 2 {
      var q := p[..|p| - 1];
      assert forall i :: 0 <= i < |q| ==> q[i] == p[i];
      NoCycle(v, rank, q);
    }
  }

  // ----- the invariant of an error-free scan -----

  type Rank = map<nat, nat>
  type Referrer = map<nat, (nat, nat)>

  /** A record's progress: not visited, being scanned, finished. */
  datatype Color = White | Gray | Black

  /** A snapshot of the checker's arrays and counters. `rank` numbers the
      finished directories; `referrer` names the live entry met for each
      referenced record. */
  datatype Scan = Scan(state: seq<Color>, incoming: seq<nat>, reachable: seq<bool>, rank: Rank, referrer: Referrer,
                       errors: nat)

  ghost predicate Shaped(v: Volume, s: Scan) {
    IdsInRange(v) && |s.state| == |s.incoming| == |s.reachable| == v.recordCount + 1
  }

  /** What holds as long as no error has been counted. */
  ghost predicate Clean(v: Volume, s: Scan) {
    && Shaped(v, s)
    && (forall d :: d in s.rank ==> DirChecked(v, d, s.rank, s.referrer) && s.rank[d] < |s.rank|)
    && (forall d: nat :: d in s.rank <==> d < |s.state| && s.state[d] == Black)
    && (forall c :: c in s.referrer ==> Referred(v, s, c))
    && (forall c :: 0 <= c < |s.incoming| ==> (s.incoming[c] > 0 <==> c in s.referrer))
    && (forall c :: 0 <= c < |s.reachable| && s.reachable[c] ==> Reaches(v, c) && (IsDir(v, c) ==> s.state[c] != White))
    && (forall d :: d in s.rank && s.reachable[d] ==> ChildrenMarked(v, d, s.reachable))
  }

  ghost predicate Referred(v: Volume, s: Scan, c: nat)
    requires c in s.referrer
  {
    var (d, j) := s.referrer[c];
    LiveEntry(v, d, j) && Child(v, d, j) == c && c in v.records && c != v.root && d < |s.state| && s.state[d] != White
  }

  ghost predicate ChildrenMarked(v: Volume, d: nat, reachable: seq<bool>) {
    forall j: nat :: LiveEntry(v, d, j) ==> Child(v, d, j) < |reachable| && reachable[Child(v, d, j)]
  }

  /** The part of directory d before entry i has been scanned without error. */
  ghost predicate Prefix(v: Volume, d: nat, i: nat, context: bool, s: Scan) {
    && (forall j :: 0 <= j < i && LiveEntry(v, d, j) ==> EntryDone(v, d, j, context, s))
    && (forall c :: c in s.referrer && s.referrer[c].0 == d ==> s.referrer[c].1 < i)
    && (forall j, k :: 0 <= j < k < i && LiveEntry(v, d, j) && LiveEntry(v, d, k) ==>
          v.records[d].entries[j].name != v.records[d].entries[k].name)
  }

  ghost predicate EntryDone(v: Volume, d: nat, j: nat, context: bool, s: Scan)
    requires LiveEntry(v, d, j)
  {
    var c := Child(v, d, j);
    && c in v.records && c != v.root && c in s.referrer && s.referrer[c] == (d, j)
    && (IsDir(v, c) ==> c in s.rank)
    && (context ==> c < |s.reachable| && s.reachable[c])
  }

  /** In the pass from the root, every finished directory was found through an entry. */
  ghost predicate Found(v: Volume, s: Scan) {
    forall x :: x in s.rank ==> x in s.referrer || x == v.root
  }

  /** Clean, with the root a directory and every record of a known type; in the
      pass from the root (context) everything finished was found through an entry. */
  ghost predicate Good(v: Volume, context: bool, s: Scan) {
    Clean(v, s) && AllKnown(v) && IsDir(v, v.root) && (context ==> Found(v, s))
  }

  /** Directory d is being scanned and its entries before i are done. */
  ghost predicate At(v: Volume, d: nat, i: nat, context: bool, s: Scan) {
    && Shaped(v, s) && IsDir(v, d) && d < |s.state| && s.state[d] == Gray
    && (s.errors == 0 ==>
          && Good(v, context, s) && s.reachable[d] == context && Prefix(v, d, i, context, s)
          && (context ==> d in s.referrer || d == v.root))
  }

  // ----- steps of an error-free scan -----

  /** Meeting a live entry for the first time. */
  lemma EdgeTo(v: Volume, d: nat, j: nat)
    requires LiveEntry(v, d, j) && Child(v, d, j) in v.records
    ensures Edge(v, d, Child(v, d, j))
  {
  }

  lemma ReferStep(v: Volume, s: Scan, d: nat, j: nat, context: bool, t: Scan)
    requires Good(v, context, s) && LiveEntry(v, d, j)
    requires var c := Child(v, d, j);
             && c in v.records && c != v.root && c < |s.incoming| && s.incoming[c] == 0 && d < |s.state|
                && s.state[d] == Gray
             && t == s.(incoming := s.incoming[c := 1], referrer := s.referrer[c := (d, j)])
    ensures Good(v, context, t)
  {
    var c := Child(v, d, j);
    forall x | x in t.rank ensures DirChecked(v, x, t.rank, t.referrer) {
      assert DirChecked(v, x, s.rank, s.referrer);
    }
    forall x | x in t.referrer ensures Referred(v, t, x) {
      if x != c {
        assert Referred(v, s, x);
      }
    }
  }

  /** Marking a record reached from a marked directory. */
  lemma MarkStep(v: Volume, s: Scan, d: nat, c: nat, context: bool, t: Scan)
    requires Good(v, context, s)
    requires d < |s.reachable| && s.reachable[d] && Edge(v, d, c) && c < |s.reachable|
    requires IsDir(v, c) ==> s.state[c] == Gray
    requires t == s.(reachable := s.reachable[c := true])
    ensures Good(v, context, t)
  {
    ReachesStep(v, d, c);
    forall x | x in s.rank && t.reachable[x] ensures ChildrenMarked(v, x, t.reachable) {
      assert DirChecked(v, x, s.rank, s.referrer);
      assert ChildrenMarked(v, x, s.reachable);
    }
    ReferredLater(v, s, t);
  }

  /** A white record turns gray. */
  lemma VisitStep(v: Volume, s: Scan, c: nat, context: bool, t: Scan)
    requires Good(v, context, s) && c < |s.state| && s.state[c] == White
    requires t == s.(state := s.state[c := Gray])
    ensures Good(v, context, t)
    ensures forall x :: x in s.referrer ==> s.referrer[x].0 != c
  {
    forall x | x in s.referrer ensures Referred(v, t, x) && s.referrer[x].0 != c {
      assert Referred(v, s, x);
    }
  }

  lemma DirFinished(v: Volume, d: nat, context: bool, s: Scan)
    requires IsDir(v, d) && v.records[d].wellFormed && d !in s.rank && Prefix(v, d, |v.records[d].entries|, context, s)
    requires forall x :: x in s.rank ==> s.rank[x] < |s.rank|
    ensures DirChecked(v, d, s.rank[d := |s.rank|], s.referrer)
    ensures context ==> ChildrenMarked(v, d, s.reachable)
  {
    var rank := s.rank[d := |s.rank|];
    forall j: nat | LiveEntry(v, d, j)
      ensures var c := Child(v, d, j);
              c in v.records && c != v.root && c in s.referrer && s.referrer[c] == (d, j)
              && (IsDir(v, c) ==> c in rank && rank[c] < rank[d])
      ensures context ==> Child(v, d, j) < |s.reachable| && s.reachable[Child(v, d, j)]
    {
      assert EntryDone(v, d, j, context, s);
    }
  }

  lemma DirCheckedLater(v: Volume, x: nat, d: nat, rank: Rank, referrer: Referrer)
    requires DirChecked(v, x, rank, referrer) && d !in rank
    ensures DirChecked(v, x, rank[d := |rank|], referrer)
  {
  }

  lemma ReferredLater(v: Volume, s: Scan, t: Scan)
    requires t.referrer == s.referrer && |t.state| == |s.state|
    requires forall i :: 0 <= i < |s.state| && s.state[i] != White ==> t.state[i] != White
    requires forall c :: c in s.referrer ==> Referred(v, s, c)
    ensures forall c :: c in t.referrer ==> Referred(v, t, c)
  {
    forall c | c in t.referrer ensures Referred(v, t, c) {
      assert Referred(v, s, c);
    }
  }

  lemma RanksFinished(v: Volume, d: nat, s: Scan, rank: Rank)
    requires d !in s.rank && rank == s.rank[d := |s.rank|] && DirChecked(v, d, rank, s.referrer)
    requires forall x :: x in s.rank ==> DirChecked(v, x, s.rank, s.referrer) && s.rank[x] < |s.rank|
    ensures forall x :: x in rank ==> DirChecked(v, x, rank, s.referrer) && rank[x] < |rank|
  {
    hide DirChecked;
    assert rank.Keys == s.rank.Keys + {d};
    assert |rank| == |s.rank| + 1;
    forall x | x in rank ensures DirChecked(v, x, rank, s.referrer) && rank[x] < |rank| {
      if x != d {
        DirCheckedLater(v, x, d, s.rank, s.referrer);
      }
    }
  }

  /** A directory whose every entry has been scanned turns black. */
  lemma FinishStep(v: Volume, d: nat, context: bool, s: Scan, t: Scan)
    requires IsDir(v, d) && v.records[d].wellFormed && At(v, d, |v.records[d].entries|, context, s) && s.errors == 0
    requires t == s.(state := s.state[d := Black], rank := s.rank[d := |s.rank|])
    ensures Good(v, context, t) && d !in s.rank
  {
    hide Prefix, DirChecked, Reaches, LiveEntry, ChildrenMarked, Referred;
    assert d !in s.rank;
    DirFinished(v, d, context, s);
    RanksFinished(v, d, s, t.rank);
    ReferredLater(v, s, t);
  }

  lemma SkipEntry(v: Volume, d: nat, i: nat, context: bool, s: Scan)
    requires At(v, d, i, context, s) && !LiveEntry(v, d, i)
    ensures At(v, d, i + 1, context, s)
  {
  }

  lemma Recount(v: Volume, d: nat, i: nat, context: bool, s: Scan, t: Scan)
    requires At(v, d, i, context, s) && t == s.(errors := t.errors) && t.errors >= s.errors
    ensures At(v, d, i, context, t)
  {
    if t.errors == 0 {
      assert t == s;
    }
  }

  // ----- how a scan changes things -----

  /** Nothing that was visited changes, except possibly d. */
  ghost predicate Advances(before: seq<Color>, after: seq<Color>, d: nat) {
    |before| == |after| && forall i :: 0 <= i < |before| && i != d && before[i] != White ==> after[i] == before[i]
  }

  ghost predicate Grows(before: seq<bool>, after: seq<bool>) {
    |before| == |after| && forall i :: 0 <= i < |before| && before[i] ==> after[i]
  }

  /** The certificate only grows, and only by entries of d and of records that were unvisited. */
  ghost predicate Extends(d: nat, s: Scan, t: Scan) {
    && (forall x :: x in s.rank ==> x in t.rank && t.rank[x] == s.rank[x])
    && (forall c :: c in s.referrer ==> c in t.referrer && t.referrer[c] == s.referrer[c])
    && (forall c :: c in t.referrer && c !in s.referrer ==>
          t.referrer[c].0 == d || (t.referrer[c].0 < |s.state| && s.state[t.referrer[c].0] == White))
  }

  ghost function Whites(state: seq<Color>): set<nat> {
    set i | 0 <= i < |state| && state[i] == White
  }

  ghost function Unvisited(state: seq<Color>): nat {
    |Whites(state)|
  }

  ghost function Grays(state: seq<Color>): set<nat> {
    set i | 0 <= i < |state| && state[i] == Gray
  }

  /** Every scan begun in between has been finished, d's own apart. */
  ghost predicate Settled(before: seq<Color>, after: seq<Color>, d: nat) {
    Grays(after) - {d} == Grays(before) - {d}
  }

  /** How a scan within directory d leaves things. */
  ghost predicate Later(v: Volume, ideal: Rank, d: nat, context: bool, s: Scan, t: Scan) {
    && t.errors >= s.errors
    && Advances(s.state, t.state, d) && Settled(s.state, t.state, d)
    && Grows(s.reachable, t.reachable) && (!context ==> t.reachable == s.reachable)
    && (t.errors == 0 ==> Extends(d, s, t))
    && Exact(v, ideal, d, s, t)
  }

  /** The records being scanned are directories, as many as the depth says. */
  ghost predicate Open(v: Volume, state: seq<Color>, k: nat) {
    |Grays(state)| == k && forall i :: i in Grays(state) ==> IsDir(v, i)
  }

  ghost function UpTo(n: nat): (r: set<nat>)
    ensures |r| == n && forall i :: i in r <==> 1 <= i <= n
  {
    if n == 0 then {} else UpTo(n - 1) + {n}
  }

  lemma {:induction false} SubsetSize(a: set<nat>, b: set<nat>)
    requires a <= b
    ensures |a| <= |b|
  {
    if x :| x in a {
      SubsetSize(a - {x}, b - {x});
    }
  }

  /** So the traversal is never deeper than there are records. */
  lemma OpenBound(v: Volume, state: seq<Color>, k: nat)
    requires IdsInRange(v) && Open(v, state, k)
    ensures k <= v.recordCount
  {
    SubsetSize(Grays(state), UpTo(v.recordCount));
  }

  lemma OpenStep(v: Volume, state: seq<Color>, k: nat, c: nat)
    requires Open(v, state, k) && c < |state| && state[c] == White && IsDir(v, c)
    ensures Open(v, state[c := Gray], k + 1)
    ensures Unvisited(state[c := Gray]) < Unvisited(state)
  {
    assert Grays(state[c := Gray]) == Grays(state) + {c};
    assert Whites(state) == Whites(state[c := Gray]) + {c};
  }

  // ----- a volume with nothing to report -----

  /** Nothing is wrong anywhere, `ideal` being a numbering that shows there is no cycle. */
  ghost predicate Ideal(v: Volume, ideal: Rank) {
    && IsDir(v, v.root) && AllKnown(v) && Descends(v, ideal)
    && (forall d, j :: LiveEntry(v, d, j) ==> Child(v, d, j) in v.records && Child(v, d, j) != v.root)
    && (forall d :: IsDir(v, d) ==> UniqueNames(v, d) && v.records[d].wellFormed)
    && (forall d, j, d', j' :: LiveEntry(v, d, j) && LiveEntry(v, d', j') && Child(v, d, j) == Child(v, d', j') ==>
        d == d' && j == j')
  }

  ghost function Height(ideal: Rank, d: nat): nat {
    if d in ideal then ideal[d] else 0
  }

  /** Everything being scanned lies above d. */
  ghost predicate Below(ideal: Rank, state: seq<Color>, d: nat) {
    forall i :: 0 <= i < |state| && state[i] == Gray ==> Height(ideal, d) <= Height(ideal, i)
  }

  /** No error is counted where there is none. */
  ghost predicate Exact(v: Volume, ideal: Rank, d: nat, s: Scan, t: Scan) {
    s.errors == 0 && Ideal(v, ideal) && Below(ideal, s.state, d) ==> t.errors == 0
  }

  lemma StillBelow(ideal: Rank, before: seq<Color>, after: seq<Color>, d: nat)
    requires Settled(before, after, d) && Below(ideal, before, d)
    ensures Below(ideal, after, d)
  {
    forall i | 0 <= i < |after| && after[i] == Gray ensures Height(ideal, d) <= Height(ideal, i) {
      if i != d {
        assert i in Grays(after) - {d};
      }
    }
  }

  /** In such a volume an entry's child has not been referenced before. */
  lemma IdealEntry(v: Volume, ideal: Rank, d: nat, j: nat, context: bool, s: Scan)
    requires Ideal(v, ideal) && At(v, d, j, context, s) && s.errors == 0 && LiveEntry(v, d, j)
    ensures Child(v, d, j) in v.records && Child(v, d, j) != v.root && s.incoming[Child(v, d, j)] == 0
  {
    var c := Child(v, d, j);
    assert c in s.referrer ==> Referred(v, s, c);
  }

  lemma IdealNames(v: Volume, ideal: Rank, d: nat, j: nat)
    requires Ideal(v, ideal) && LiveEntry(v, d, j)
    ensures Distinct(v, d, j)
  {
    assert UniqueNames(v, d);
  }

  /** Nor is it being scanned. */
  lemma IdealBelow(v: Volume, ideal: Rank, d: nat, j: nat, state: seq<Color>)
    requires Ideal(v, ideal) && LiveEntry(v, d, j) && IsDir(v, Child(v, d, j)) && Below(ideal, state, d)
    ensures var c := Child(v, d, j); c < |state| ==> state[c] != Gray && Below(ideal, state[c := Gray], c)
  {
    assert Edge(v, d, Child(v, d, j));
  }

  ghost predicate Distinct(v: Volume, d: nat, j: nat)
    requires LiveEntry(v, d, j)
  {
    forall k :: 0 <= k < j && LiveEntry(v, d, k) ==> v.records[d].entries[k].name != v.records[d].entries[j].name
  }

  /** Directory d has been scanned to its end. */
  ghost predicate Scanned(v: Volume, ideal: Rank, d: nat, context: bool, s: Scan, t: Scan) {
    && Shaped(v, t) && Later(v, ideal, d, context, s, t) && d < |t.state| && t.state[d] == Black
    && (t.errors == 0 ==> Good(v, context, t))
  }

  // ----- composing steps -----

  lemma LaterTwice(v: Volume, ideal: Rank, d: nat, context: bool, s: Scan, t: Scan, u: Scan)
    requires Later(v, ideal, d, context, s, t) && Later(v, ideal, d, context, t, u)
    ensures Later(v, ideal, d, context, s, u)
  {
    if s.errors == 0 && Ideal(v, ideal) && Below(ideal, s.state, d) {
      StillBelow(ideal, s.state, t.state, d);
    }
    hide Ideal, Below, Grays;
  }

  /** The entry's child has been referenced and, if a directory, its scan is over. */
  ghost predicate ChildDone(v: Volume, d: nat, j: nat, context: bool, s: Scan, t: Scan)
    requires LiveEntry(v, d, j)
  {
    var c := Child(v, d, j);
    && c !in s.referrer && c in v.records && c != v.root && c != d && c < |s.state|
    && (IsDir(v, c) ==> c in t.rank) && (context ==> c < |t.reachable| && t.reachable[c])
    && c in t.referrer && t.referrer[c] == (d, j)
    && (forall x :: x in s.rank ==> x in t.rank && t.rank[x] == s.rank[x])
    && (forall x :: x in s.referrer ==> x in t.referrer && t.referrer[x] == s.referrer[x])
    && (forall x :: x in t.referrer && x !in s.referrer && x != c ==>
          t.referrer[x].0 < |s.state| && s.state[t.referrer[x].0] == White)
  }

  lemma PrefixGrows(v: Volume, d: nat, j: nat, context: bool, s: Scan, t: Scan)
    requires Prefix(v, d, j, context, s) && LiveEntry(v, d, j) && Distinct(v, d, j)
    requires Grows(s.reachable, t.reachable) && d < |s.state| && s.state[d] != White
             && ChildDone(v, d, j, context, s, t)
    ensures Prefix(v, d, j + 1, context, t)
  {
    forall k | 0 <= k < j + 1 && LiveEntry(v, d, k) ensures EntryDone(v, d, k, context, t) {
      if k < j {
        assert EntryDone(v, d, k, context, s);
      }
    }
  }

  /** Entry j of d has been scanned, after whatever its child's own scan added. */
  lemma EntryScanned(v: Volume, d: nat, j: nat, context: bool, s: Scan, t: Scan)
    requires At(v, d, j, context, s) && s.errors == 0 && LiveEntry(v, d, j) && Distinct(v, d, j)
    requires Good(v, context, t) && Grows(s.reachable, t.reachable) && (!context ==> t.reachable == s.reachable)
    requires d < |t.state| && t.state[d] == Gray && ChildDone(v, d, j, context, s, t)
    ensures At(v, d, j + 1, context, t) && Extends(d, s, t)
  {
    assert Shaped(v, t) && Shaped(v, s);
    hide Clean, Prefix, Found, Distinct;
    PrefixGrows(v, d, j, context, s, t);
  }

  /** A file's entry has been referenced and its file marked. */
  lemma FileStep(v: Volume, ideal: Rank, d: nat, j: nat, context: bool, s: Scan, t: Scan)
    requires At(v, d, j, context, s) && LiveEntry(v, d, j) && Child(v, d, j) in v.records
             && v.records[Child(v, d, j)].File?
    requires s.errors == 0 ==> Distinct(v, d, j)
    requires Shaped(v, t) && t.state == s.state && t.rank == s.rank
    requires var c := Child(v, d, j);
             && t.errors == s.errors + (if s.incoming[c] == 0 then 0 else 1)
             && t.reachable == (if context then s.reachable[c := true] else s.reachable)
             && (t.errors == 0 ==> Good(v, context, t) && c !in s.referrer && t.referrer == s.referrer[c := (d, j)])
    ensures At(v, d, j + 1, context, t) && Later(v, ideal, d, context, s, t)
  {
    hide Clean, Found, Ideal, Below, Grays, Prefix, Distinct, Extends;
    if s.errors == 0 && Ideal(v, ideal) {
      IdealEntry(v, ideal, d, j, context, s);
    }
    if t.errors == 0 {
      EntryScanned(v, d, j, context, s, t);
    }
  }

  /** A directory's entry has been referenced, leading to r; then the child is
      found to be being scanned (a cycle), finished, or is visited. */
  ghost predicate DirReferred(v: Volume, d: nat, j: nat, context: bool, s: Scan, r: Scan) {
    && At(v, d, j, context, s) && LiveEntry(v, d, j) && IsDir(v, Child(v, d, j))
       && (s.errors == 0 ==> Distinct(v, d, j))
    && Shaped(v, r) && r.state == s.state && r.rank == s.rank && r.reachable == s.reachable
    && var c := Child(v, d, j);
    && r.errors == s.errors + (if c == v.root then 1 else 0) + (if s.incoming[c] == 0 then 0 else 1)
    && (r.errors == 0 ==> Good(v, context, r) && c !in s.referrer && r.referrer == s.referrer[c := (d, j)])
  }

  lemma CycleStep(v: Volume, ideal: Rank, d: nat, j: nat, context: bool, s: Scan, r: Scan, t: Scan)
    requires DirReferred(v, d, j, context, s, r) && s.state[Child(v, d, j)] == Gray && t == r.(errors := r.errors + 1)
    ensures At(v, d, j + 1, context, t) && Later(v, ideal, d, context, s, t)
  {
    if Ideal(v, ideal) && Below(ideal, s.state, d) {
      IdealBelow(v, ideal, d, j, s.state);
    }
  }

  lemma BlackStep(v: Volume, ideal: Rank, d: nat, j: nat, context: bool, s: Scan, r: Scan)
    requires DirReferred(v, d, j, context, s, r) && s.state[Child(v, d, j)] == Black
    ensures At(v, d, j + 1, context, r) && Later(v, ideal, d, context, s, r)
  {
    hide Good, Found, Ideal, Below, Grays, Prefix, Distinct, Extends, ChildDone;
    var c := Child(v, d, j);
    if s.errors == 0 && Ideal(v, ideal) {
      IdealEntry(v, ideal, d, j, context, s);
    }
    if r.errors == 0 {
      BlackChild(v, d, j, context, s, r);
      EntryScanned(v, d, j, context, s, r);
    }
  }

  lemma BlackChild(v: Volume, d: nat, j: nat, context: bool, s: Scan, r: Scan)
    requires DirReferred(v, d, j, context, s, r) && s.state[Child(v, d, j)] == Black && r.errors == 0
    ensures ChildDone(v, d, j, context, s, r)
  {
    hide Clean, Prefix, Distinct, Found;
    BlackIsRanked(v, context, s, Child(v, d, j));
  }

  ghost function Entered(r: Scan, c: nat, context: bool): Scan
    requires c < |r.state| == |r.reachable|
  {
    r.(state := r.state[c := Gray], reachable := if context then r.reachable[c := true] else r.reachable)
  }

  lemma WhiteStep(v: Volume, ideal: Rank, d: nat, j: nat, context: bool, s: Scan, r: Scan, t: Scan)
    requires DirReferred(v, d, j, context, s, r) && s.state[Child(v, d, j)] == White
             && Scanned(v, ideal, Child(v, d, j), context, Entered(r, Child(v, d, j), context), t)
    ensures At(v, d, j + 1, context, t) && Later(v, ideal, d, context, s, t)
  {
    hide Clean, Found, Ideal, Below, Grays, Prefix, Distinct, Extends, ChildDone, Exact, Settled;
    var c := Child(v, d, j);
    WhiteSettled(s.state, t.state, c, d);
    WhiteExact(v, ideal, d, j, context, s, r, t);
    if t.errors == 0 {
      BlackIsRanked(v, context, t, c);
      WhiteChild(v, d, j, context, s, r, t);
      EntryScanned(v, d, j, context, s, t);
    }
  }

  lemma WhiteChild(v: Volume, d: nat, j: nat, context: bool, s: Scan, r: Scan, t: Scan)
    requires LiveEntry(v, d, j) && |s.state| == |s.reachable| && r.state == s.state && r.rank == s.rank
             && r.reachable == s.reachable
    requires var c := Child(v, d, j);
             && c in v.records && c != v.root && c != d && c < |s.state| && s.state[c] == White && c in t.rank
             && c !in s.referrer && r.referrer == s.referrer[c := (d, j)]
             && Extends(c, Entered(r, c, context), t) && Grows(Entered(r, c, context).reachable, t.reachable)
    ensures ChildDone(v, d, j, context, s, t)
  {
  }

  lemma BlackIsRanked(v: Volume, context: bool, s: Scan, c: nat)
    requires Good(v, context, s) && c < |s.state| && s.state[c] == Black
    ensures c in s.rank && (context ==> c in s.referrer || c == v.root)
  {
  }

  lemma WhiteSettled(before: seq<Color>, after: seq<Color>, c: nat, d: nat)
    requires |before| == |after| && c < |before| && before[c] == White && after[c] == Black
             && Settled(before[c := Gray], after, c)
    ensures Settled(before, after, d)
  {
    assert Grays(after) == Grays(after) - {c};
    assert Grays(before) == Grays(before[c := Gray]) - {c};
  }

  lemma WhiteExact(v: Volume, ideal: Rank, d: nat, j: nat, context: bool, s: Scan, r: Scan, t: Scan)
    requires DirReferred(v, d, j, context, s, r) && s.state[Child(v, d, j)] == White
             && Exact(v, ideal, Child(v, d, j), Entered(r, Child(v, d, j), context), t)
    ensures Exact(v, ideal, d, s, t)
  {
    if s.errors == 0 && Ideal(v, ideal) && Below(ideal, s.state, d) {
      IdealEntry(v, ideal, d, j, context, s);
      IdealBelow(v, ideal, d, j, s.state);
    }
  }

  /** d's entries are done (t), then it is finished (u). */
  lemma ScannedStep(v: Volume, ideal: Rank, d: nat, context: bool, s: Scan, t: Scan, u: Scan)
    requires Later(v, ideal, d, context, s, t) && IsDir(v, d) && At(v, d, |v.records[d].entries|, context, t)
    requires u
             == t.(state := t.state[d := Black], rank := u.rank, errors := if v.records[d].wellFormed then t.errors
                   else t.errors + 1)
    requires u.errors == 0 ==> Good(v, context, u) && d !in t.rank && u.rank == t.rank[d := |t.rank|]
    ensures Scanned(v, ideal, d, context, s, u)
  {
    hide Good, Below, Prefix;
    assert Grays(u.state) == Grays(t.state) - {d};
  }

  /** `names` holds exactly the live names before entry i. */
  ghost predicate NamesBefore(v: Volume, d: nat, i: nat, names: seq<seq<int>>)
    requires IsDir(v, d)
  {
    && (forall k :: 0 <= k < i && LiveEntry(v, d, k) ==> v.records[d].entries[k].name in names)
    && (forall n :: n in names ==> exists k :: 0 <= k < i && LiveEntry(v, d, k) && v.records[d].entries[k].name == n)
  }

  lemma NameStep(v: Volume, ideal: Rank, d: nat, i: nat, names: seq<seq<int>>)
    requires LiveEntry(v, d, i) && NamesBefore(v, d, i, names)
    ensures NamesBefore(v, d, i + 1, names + [v.records[d].entries[i].name])
    ensures v.records[d].entries[i].name !in names <==> Distinct(v, d, i)
    ensures Ideal(v, ideal) ==> Distinct(v, d, i)
  {
    if Ideal(v, ideal) {
      IdealNames(v, ideal, d, i);
    }
    hide Ideal;
    var name := v.records[d].entries[i].name;
    forall n | n in names + [name]
      ensures exists k :: 0 <= k < i + 1 && LiveEntry(v, d, k) && v.records[d].entries[k].name == n {
      if n !in names {
        assert LiveEntry(v, d, i) && v.records[d].entries[i].name == n;
      }
    }
  }

  lemma NameSkip(v: Volume, d: nat, i: nat, names: seq<seq<int>>)
    requires IsDir(v, d) && !LiveEntry(v, d, i) && NamesBefore(v, d, i, names)
    ensures NamesBefore(v, d, i + 1, names)
  {
  }

  lemma StillOpen(v: Volume, ideal: Rank, d: nat, i: nat, context: bool, s: Scan, t: Scan, k: nat)
    requires At(v, d, i, context, s) && At(v, d, i + 1, context, t) && Later(v, ideal, d, context, s, t)
             && Open(v, s.state, k)
    ensures Open(v, t.state, k) && Unvisited(t.state) <= Unvisited(s.state)
  {
    hide Good, Prefix, Exact;
    assert Grays(t.state) == Grays(t.state) - {d} + {d};
    assert Grays(s.state) == Grays(s.state) - {d} + {d};
    assert Grays(t.state) == Grays(s.state);
    SubsetSize(Whites(t.state), Whites(s.state));
  }

  lemma LaterSame(v: Volume, ideal: Rank, d: nat, context: bool, s: Scan)
    ensures Later(v, ideal, d, context, s, s)
  {
  }

  lemma Counted(v: Volume, ideal: Rank, d: nat, i: nat, context: bool, s: Scan, t: Scan)
    requires At(v, d, i, context, s) && t == s.(errors := t.errors) && t.errors >= s.errors
    requires Ideal(v, ideal) ==> t.errors == s.errors
    ensures At(v, d, i, context, t) && Later(v, ideal, d, context, s, t)
  {
    Recount(v, d, i, context, s, t);
    hide At, Ideal;
  }

  /** How many earlier live names equal this one. */
  method CountRepeats(names: seq<seq<int>>, name: seq<int>) returns (n: nat)
    ensures n == 0 <==> name !in names
  {
    n := 0;
    for k := 0 to |names|
      invariant n == 0 <==> name !in names[..k]
    {
      assert names[..k + 1] == names[..k] + [names[k]];
      if names[k] == name {
        n := n + 1;
      }
    }
    assert names[..|names|] == names;
  }

  /** Between two top-level scans: nothing is being scanned. */
  ghost predicate Between(v: Volume, s: Scan) {
    && Shaped(v, s) && Open(v, s.state, 0)
    && (s.errors == 0 ==> Good(v, false, s) && v.root < |s.reachable| && s.reachable[v.root])
  }

  lemma RootStep(v: Volume, ideal: Rank, s: Scan, t: Scan)
    requires At(v, v.root, 0, true, s) && s.reachable[v.root] && Scanned(v, ideal, v.root, true, s, t)
    requires forall i :: 0 <= i < |s.state| && i != v.root ==> s.state[i] == White
    ensures Between(v, t)
    ensures s.errors == 0 && Ideal(v, ideal) ==> t.errors == 0
  {
    hide Clean, Found, Prefix;
    assert Grays(s.state) == {v.root};
    assert Grays(t.state) == Grays(t.state) - {v.root};
  }

  lemma OrphanStep(v: Volume, ideal: Rank, d: nat, s: Scan, t: Scan)
    requires Between(v, s) && d < |s.state| && s.state[d] == White
             && Scanned(v, ideal, d, false, Entered(s, d, false), t)
    ensures Between(v, t) && t.errors >= s.errors && t.state[d] == Black && Advances(s.state, t.state, d)
    ensures s.errors == 0 && Ideal(v, ideal) ==> t.errors == 0
  {
    hide Clean, Found, Prefix, Ideal;
    assert Grays(s.state) == {};
    assert Grays(s.state[d := Gray]) == {d};
    var state := s.state[d := Gray];
    forall i | 0 <= i < |state| && state[i] == Gray ensures i == d {
      assert i in Grays(state);
    }
    assert Grays(t.state) == Grays(t.state) - {d};
    assert Grays(t.state) == {};
  }

  ghost function Numbering(v: Volume): Rank {
    if Acyclic(v) then (var r: Rank :| Descends(v, r); r) else map[]
  }

  /** A sound graph is one with nothing to report. */
  lemma IdealIfSound(v: Volume)
    ensures Sound(v) <==> Ideal(v, Numbering(v))
  {
    hide UniqueNames, LiveEntry, Edge;
  }

  ghost function MarkedIn(s: Scan): set<nat> {
    set i | 0 <= i < |s.reachable| && s.reachable[i]
  }

  /** Every directory finished without an error: the graph is sound. */
  lemma SoundIfClean(v: Volume, s: Scan)
    requires Between(v, s) && s.errors == 0 && forall d: nat :: IsDir(v, d) ==> s.state[d] == Black
    ensures Sound(v)
    ensures forall c: nat :: c in MarkedIn(s) <==> Reaches(v, c)
  {
    forall d: nat | IsDir(v, d) ensures DirChecked(v, d, s.rank, s.referrer) {
      assert d in s.rank;
    }
    assert Descends(v, s.rank) by {
      forall d, c | IsDir(v, d) && IsDir(v, c) && Edge(v, d, c)
        ensures d in s.rank && c in s.rank && s.rank[c] < s.rank[d] {
        assert DirChecked(v, d, s.rank, s.referrer);
      }
    }
    forall d, c | d in MarkedIn(s) && Edge(v, d, c) ensures c in MarkedIn(s) {
      assert d in s.rank && ChildrenMarked(v, d, s.reachable);
    }
    forall c: nat ensures c in MarkedIn(s) <==> Reaches(v, c) {
      if Reaches(v, c) {
        var p :| Path(v, p) && p[|p| - 1] == c;
        ReachesClosed(v, MarkedIn(s), p);
      }
    }
  }

  class GraphCheck {
    const v: Volume
    const state: array<Color>
    const incoming: array<nat>
    const reachable: array<bool>
    var errors: nat
    var depth: nat
    ghost var rank: Rank
    ghost var referrer: Referrer
    ghost const ideal: Rank

    ghost function Now(): Scan
      reads this, state, incoming, reachable
    {
      Scan(state[..], incoming[..], reachable[..], rank, referrer, errors)
    }

    /** A live entry's child is referenced: an error unless it is the first time. */
    method Refer(d: nat, j: nat, context: bool)
      requires At(v, d, j, context, Now()) && LiveEntry(v, d, j) && Child(v, d, j) in v.records
      requires errors == 0 ==> Child(v, d, j) != v.root
      modifies this`errors, this`referrer, incoming
      ensures errors == old(errors) + if old(incoming[Child(v, d, j)]) == 0 then 0 else 1
      ensures Shaped(v, Now()) && Now() == old(Now()).(incoming := incoming[..], referrer := referrer, errors := errors)
      ensures errors == 0 ==>
                && var c := Child(v, d, j);
                && Good(v, context, Now()) && c !in old(referrer)
                && Now() == old(Now()).(incoming := old(incoming[..])[c := 1], referrer := old(referrer)[c := (d, j)])
    {
      ghost var s := Now();
      var c := v.records[d].entries[j].child;
      if incoming[c] == 0 {
        incoming[c] := 1;
        referrer := referrer[c := (d, j)];
        assert incoming[..] == s.incoming[c := 1];
        if errors == 0 {
          ReferStep(v, s, d, j, context, Now());
        }
      } else {
        incoming[c] := incoming[c] + 1;
        errors := errors + 1;
      }
    }

    method Mark(d: nat, c: nat, context: bool)
      requires Shaped(v, Now()) && c < reachable.Length && d < reachable.Length
      requires errors == 0 ==>
                 && Good(v, context, Now()) && reachable[d] == context && Edge(v, d, c)
                 && (IsDir(v, c) ==> state[c] == Gray)
      modifies reachable
      ensures Now() == old(Now()).(reachable := if context then old(reachable[..])[c := true] else old(reachable[..]))
      ensures errors == 0 ==> Good(v, context, Now())
    {
      ghost var s := Now();
      if context && !reachable[c] {
        reachable[c] := true;
        assert Now() == s.(reachable := s.reachable[c := true]);
        if errors == 0 {
          MarkStep(v, s, d, c, context, Now());
        }
      }
    }

    /** A live entry for a file. */
    method ScanFile(d: nat, j: nat, context: bool)
      requires At(v, d, j, context, Now()) && LiveEntry(v, d, j) && Child(v, d, j) in v.records
               && v.records[Child(v, d, j)].File?
      requires errors == 0 ==> Distinct(v, d, j)
      modifies this, state, incoming, reachable
      ensures At(v, d, j + 1, context, Now()) && Later(v, ideal, d, context, old(Now()), Now())
      ensures depth == old(depth)
    {
      ghost var s := Now();
      var c := v.records[d].entries[j].child;
      assert Edge(v, d, c);
      hide Clean, Edge, Prefix, Later, Distinct, Found;
      Refer(d, j, context);
      Mark(d, c, context);
      FileStep(v, ideal, d, j, context, s, Now());
    }

    /** A directory met for the first time turns gray and is marked if its parent is. */
    method Enter(d: nat, c: nat, context: bool)
      requires Shaped(v, Now()) && d < state.Length && c < state.Length && state[c] == White && IsDir(v, c) && d != c
      requires errors == 0 ==> Good(v, context, Now()) && reachable[d] == context && Edge(v, d, c)
      requires errors == 0 && context ==> c in referrer
      modifies state, reachable
      ensures Now() == Entered(old(Now()), c, context)
      ensures At(v, c, 0, context, Now())
    {
      ghost var s := Now();
      state[c] := Gray;
      assert state[..] == s.state[c := Gray];
      if errors == 0 {
        assert !reachable[c];
        VisitStep(v, s, c, context, Now());
      }
      hide Clean, Edge, Found;
      Mark(d, c, context);
    }

    /** Scan a directory not seen before. */
    method Visit(d: nat, c: nat, context: bool)
      requires Shaped(v, Now()) && d < state.Length && c < state.Length && state[c] == White && IsDir(v, c) && d != c
      requires errors == 0 ==> Good(v, context, Now()) && reachable[d] == context && Edge(v, d, c)
      requires errors == 0 && context ==> c in referrer
      requires Open(v, Now().state, depth)
      modifies this, state, incoming, reachable
      ensures Scanned(v, ideal, c, context, Entered(old(Now()), c, context), Now())
      ensures depth == old(depth)
      decreases Unvisited(Now().state), 0
    {
      hide Good, Edge, Scanned, At, Open, Unvisited;
      OpenStep(v, state[..], depth, c);
      Enter(d, c, context);
      ScanDirectory(c, context);
    }

    /** A live entry for a directory: descend if it has not been seen before. */
    method ScanSubdirectory(d: nat, j: nat, context: bool)
      requires At(v, d, j, context, Now()) && LiveEntry(v, d, j) && IsDir(v, Child(v, d, j))
      requires errors == 0 ==> Distinct(v, d, j)
      requires Open(v, Now().state, depth)
      modifies this, state, incoming, reachable
      ensures At(v, d, j + 1, context, Now()) && Later(v, ideal, d, context, old(Now()), Now())
      ensures depth == old(depth)
      decreases Unvisited(Now().state), 1, 1
    {
      hide Clean, Edge, Prefix, Later, Distinct, Found, Open, Unvisited, Scanned;
      ghost var s := Now();
      var c := v.records[d].entries[j].child;
      EdgeTo(v, d, j);
      if c == v.root {
        errors := errors + 1;
      }
      Recount(v, d, j, context, s, Now());
      Refer(d, j, context);
      Descend(d, j, c, context, s);
    }

    /** The child's color decides: a cycle, a directory to scan, or one that is finished. */
    method Descend(d: nat, j: nat, c: nat, context: bool, ghost s: Scan)
      requires DirReferred(v, d, j, context, s, Now()) && c == Child(v, d, j) && Edge(v, d, c)
      requires Open(v, Now().state, depth)
      modifies this, state, incoming, reachable
      ensures At(v, d, j + 1, context, Now()) && Later(v, ideal, d, context, s, Now())
      ensures depth == old(depth)
      decreases Unvisited(Now().state), 1, 0
    {
      hide Clean, Edge, Prefix, Later, Distinct, Found, Open, Unvisited, Scanned;
      ghost var r := Now();
      match state[c] {
        case Gray =>
          errors := errors + 1;
          CycleStep(v, ideal, d, j, context, s, r, Now());
        case White =>
          Visit(d, c, context);
          WhiteStep(v, ideal, d, j, context, s, r, Now());
        case Black =>
          BlackStep(v, ideal, d, j, context, s, r);
      }
    }

    /** Scan one live entry: its child must be readable and referenced nowhere
        else; a directory not seen before is scanned in turn. */
    method ScanEntry(d: nat, j: nat, context: bool)
      requires At(v, d, j, context, Now()) && LiveEntry(v, d, j)
      requires errors == 0 ==> Distinct(v, d, j)
      requires Open(v, Now().state, depth)
      modifies this, state, incoming, reachable
      ensures At(v, d, j + 1, context, Now()) && Later(v, ideal, d, context, old(Now()), Now())
      ensures depth == old(depth)
      decreases Unvisited(Now().state), 2
    {
      ghost var s := Now();
      hide Clean, Prefix, Distinct, Found, Open, Unvisited, Ideal, Extends;
      var c := v.records[d].entries[j].child;
      if errors == 0 && Ideal(v, ideal) {
        IdealEntry(v, ideal, d, j, context, s);
      }
      if c !in v.records {
        errors := errors + 1;
        return;
      }
      match v.records[c] {
        case Unknown =>
        case File =>
          ScanFile(d, j, context);
        case Dir(_, _) =>
          ScanSubdirectory(d, j, context);
      }
    }

    /** Everything in d has been scanned: it turns black. */
    method Finish(d: nat, context: bool)
      requires IsDir(v, d) && At(v, d, |v.records[d].entries|, context, Now())
               && (errors == 0 ==> v.records[d].wellFormed)
      modifies this`rank, state
      ensures Now() == old(Now()).(state := old(state[..])[d := Black], rank := rank)
      ensures errors == 0 ==> Good(v, context, Now()) && d !in old(rank) && rank == old(rank)[d := |old(rank)|]
    {
      ghost var s := Now();
      state[d] := Black;
      rank := rank[d := |rank|];
      assert state[..] == s.state[d := Black];
      hide Clean, Found, Prefix;
      if errors == 0 {
        FinishStep(v, d, context, s, Now());
      }
    }

    /** Scan a directory: each live entry in turn, then finish it. The traversal
        depth stays below the record count, so the depth limit is never met. */
    method ScanDirectory(d: nat, context: bool)
      requires At(v, d, 0, context, Now())
      requires Open(v, Now().state, depth + 1)
      modifies this, state, incoming, reachable
      ensures Scanned(v, ideal, d, context, old(Now()), Now())
      ensures depth == old(depth)
      decreases Unvisited(Now().state), 5
    {
      OpenBound(v, state[..], depth + 1);
      assert depth < v.recordCount;
      hide Good, Later, Scanned, Open, Unvisited, Prefix;
      ghost var s := Now();
      depth := depth + 1;
      ScanEntries(d, context);
      ghost var t := Now();
      if !v.records[d].wellFormed {
        errors := errors + 1;
      }
      depth := depth - 1;
      Finish(d, context);
      ScannedStep(v, ideal, d, context, s, t, Now());
    }

    /** Scan the entries of a directory, checking live names against those before. */
    method ScanEntries(d: nat, context: bool)
      requires At(v, d, 0, context, Now())
      requires Open(v, Now().state, depth)
      modifies this, state, incoming, reachable
      ensures IsDir(v, d) && At(v, d, |v.records[d].entries|, context, Now())
              && Later(v, ideal, d, context, old(Now()), Now())
      ensures depth == old(depth)
      decreases Unvisited(Now().state), 4
    {
      assert IsDir(v, d) && NamesBefore(v, d, 0, []);
      hide At, Later, Open, Unvisited, NamesBefore, Now;
      ghost var s := Now();
      var i := 0;
      var names: seq<seq<int>> := [];
      LaterSame(v, ideal, d, context, s);
      while i < |v.records[d].entries|
        invariant 0 <= i <= |v.records[d].entries| && At(v, d, i, context, Now())
                  && Later(v, ideal, d, context, s, Now())
        invariant Open(v, Now().state, depth) && Unvisited(Now().state) <= Unvisited(s.state) && depth == old(depth)
        invariant NamesBefore(v, d, i, names)
      {
        ghost var t := Now();
        names := ScanNext(d, i, context, names);
        LaterTwice(v, ideal, d, context, s, t, Now());
        StillOpen(v, ideal, d, i, context, t, Now(), depth);
        i := i + 1;
      }
    }

    method ScanNext(d: nat, i: nat, context: bool, names: seq<seq<int>>) returns (names': seq<seq<int>>)
      requires IsDir(v, d) && i < |v.records[d].entries| && At(v, d, i, context, Now()) && NamesBefore(v, d, i, names)
      requires Open(v, Now().state, depth)
      modifies this, state, incoming, reachable
      ensures At(v, d, i + 1, context, Now()) && NamesBefore(v, d, i + 1, names')
              && Later(v, ideal, d, context, old(Now()), Now())
      ensures depth == old(depth)
      decreases Unvisited(Now().state), 3
    {
      hide At, Later, Open, Unvisited, Distinct, Ideal, NamesBefore;
      ghost var t := Now();
      if v.records[d].entries[i].live {
        var repeated := CountRepeats(names, v.records[d].entries[i].name);
        NameStep(v, ideal, d, i, names);
        errors := errors + repeated;
        names' := names + [v.records[d].entries[i].name];
        ghost var u := Now();
        Counted(v, ideal, d, i, context, t, u);
        ScanEntry(d, i, context);
        LaterTwice(v, ideal, d, context, t, u, Now());
      } else {
        names' := names;
        SkipEntry(v, d, i, context, t);
        NameSkip(v, d, i, names);
        LaterSame(v, ideal, d, context, t);
      }
    }

    constructor (volume: Volume)
      requires IdsInRange(volume)
      ensures v == volume && Fresh() && fresh(state) && fresh(incoming) && fresh(reachable)
    {
      v := volume;
      state := new Color[volume.recordCount + 1](_ => White);
      incoming := new nat[volume.recordCount + 1](_ => 0);
      reachable := new bool[volume.recordCount + 1](_ => false);
      errors, depth, rank, referrer := 0, 0, map[], map[];
      ideal := Numbering(volume);
    }

    /** Nothing visited, nothing counted. */
    ghost predicate Fresh()
      reads this, state, incoming, reachable
    {
      && Shaped(v, Now()) && errors == 0 && depth == 0 && rank == map[] && referrer == map[] && ideal == Numbering(v)
      && (forall i :: 0 <= i < state.Length ==> state[i] == White && incoming[i] == 0 && !reachable[i])
    }

    ghost function Marked(): set<nat>
      reads reachable
    {
      set i: nat | i < reachable.Length && reachable[i]
    }

    /** The checker's passes over the directory graph count no error exactly when
        the graph is sound; then what is marked is exactly what the root reaches. */
    method Check()
      requires Fresh()
      modifies this, state, incoming, reachable
      ensures errors == 0 <==> Sound(v)
      ensures errors == 0 ==> forall c :: c in Marked() <==> Reaches(v, c)
    {
      hide Good, Ideal, Sound, Reaches, Open, AllKnown;
      CheckTypes();
      ScanRoot();
      ScanRest();
      if errors == 0 {
        SoundIfClean(v, Now());
        assert Marked() == MarkedIn(Now());
      }
      IdealIfSound(v);
    }

    /** Every allocated record must be a file or a directory. */
    method CheckTypes()
      requires Fresh()
      modifies this`errors
      ensures errors == 0 <==> AllKnown(v)
    {
      var id := 1;
      while id <= v.recordCount
        invariant 1 <= id <= v.recordCount + 1
        invariant errors == 0 <==> forall x :: x in v.records && x < id ==> !v.records[x].Unknown?
      {
        if id in v.records && v.records[id].Unknown? {
          errors := errors + 1;
        }
        id := id + 1;
      }
    }

    method ScanRoot()
      requires Shaped(v, Now()) && (errors == 0 <==> AllKnown(v)) && depth == 0 && rank == map[] && referrer == map[]
      requires forall i :: 0 <= i < state.Length ==> state[i] == White && incoming[i] == 0 && !reachable[i]
      modifies this, state, incoming, reachable
      ensures Between(v, Now()) && depth == 0
      ensures Ideal(v, ideal) ==> errors == 0
    {
      hide Good;
      if v.root !in v.records || !v.records[v.root].Dir? {
        errors := errors + 1;
        assert Grays(state[..]) == {};
        return;
      }
      EnterRoot();
      ghost var s := Now();
      assert Grays(state[..]) == {v.root};
      ScanDirectory(v.root, true);
      RootStep(v, ideal, s, Now());
    }

    method EnterRoot()
      requires Shaped(v, Now()) && (errors == 0 ==> AllKnown(v)) && IsDir(v, v.root) && rank == map[]
               && referrer == map[]
      requires forall i :: 0 <= i < state.Length ==> state[i] == White && incoming[i] == 0 && !reachable[i]
      modifies state, reachable
      ensures At(v, v.root, 0, true, Now()) && errors == old(errors)
      ensures reachable[v.root] && state[v.root] == Gray && forall i :: 0 <= i < state.Length && i != v.root ==>
              state[i] == White
    {
      state[v.root] := Gray;
      reachable[v.root] := true;
      ReachesRoot(v);
      hide Reaches, DirChecked, Referred;
    }

    /** A directory no scan has met yet. */
    method ScanOrphan(id: nat)
      requires Between(v, Now()) && IsDir(v, id) && state[id] == White && depth == 0
      modifies this, state, incoming, reachable
      ensures Between(v, Now()) && depth == 0 && errors >= old(errors)
      ensures state[id] == Black && Advances(old(state[..]), state[..], id)
      ensures old(errors) == 0 && Ideal(v, ideal) ==> errors == 0
    {
      hide Good, At, Scanned;
      ghost var s := Now();
      OpenStep(v, state[..], 0, id);
      EnterOrphan(id);
      ScanDirectory(id, false);
      OrphanStep(v, ideal, id, s, Now());
    }

    method EnterOrphan(id: nat)
      requires Between(v, Now()) && IsDir(v, id) && state[id] == White
      modifies state
      ensures At(v, id, 0, false, Now()) && Now() == Entered(old(Now()), id, false)
    {
      ghost var s := Now();
      state[id] := Gray;
      assert Now() == s.(state := s.state[id := Gray]);
      if errors == 0 {
        assert !reachable[id];
        VisitStep(v, s, id, false, Now());
      }
      hide Clean, Found;
    }

    /** Directories the root does not reach. */
    method ScanRest()
      requires Between(v, Now()) && depth == 0
      modifies this, state, incoming, reachable
      ensures Between(v, Now()) && errors >= old(errors)
      ensures forall d: nat :: IsDir(v, d) ==> state[d] == Black
      ensures old(errors) == 0 && Ideal(v, ideal) ==> errors == 0
    {
      hide Good, Ideal;
      var id := 1;
      while id <= v.recordCount
        invariant 1 <= id <= v.recordCount + 1 && Between(v, Now()) && depth == 0 && errors >= old(errors)
        invariant old(errors) == 0 && Ideal(v, ideal) ==> errors == 0
        invariant forall d: nat :: 1 <= d < id && IsDir(v, d) ==> state[d] == Black
      {
        assert id !in Grays(state[..]);
        if id in v.records && v.records[id].Dir? && state[id] == White {
          ScanOrphan(id);
        }
        id := id + 1;
      }
    }
  }
}
