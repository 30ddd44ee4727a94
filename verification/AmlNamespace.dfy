/** The ACPI namespace: an array of nodes linked into a tree, grown only at the end. */
module AmlNamespace {
  type byte = b: nat | b < 256
  type u32 = n: nat | n < 0x1_0000_0000

  const INVALID: nat := 0xffff
  const ROOT: nat := 0
  const MAX_NODES: nat := 6144
  const MAX_SEGMENTS: nat := 32

  datatype Kind = Root | Scope | Device | ThermalZone | Name | Method | Alias | Region | Field | IndexField
                | BankField | Mutex | Event | External | NativeMethod

  /** What a node holds beside its place in the tree. */
  datatype Object = Empty
                  | NameObject(expression: seq<byte>)
                  | MethodObject(body: seq<byte>, arguments: nat)
                  | AliasObject(source: seq<byte>, target: nat)

  datatype Node = Node(name: u32, parent: nat, firstChild: nat, nextSibling: nat, kind: Kind,
                       tableIndex: nat, tableOffset: nat, content: Object)

  datatype Path = Path(absolute: bool, nullName: bool, parentPrefixes: nat, segments: seq<u32>)

  type Nodes = seq<Node>

  // ----- the tree an array of nodes stands for -----

  predicate IsChild(t: Nodes, i: nat, p: nat) {
    0 < i < |t| && t[i].parent == p
  }

  /** The last child of `p` among the first `n` nodes. */
  ghost function LastChild(t: Nodes, p: nat, n: nat): (c: nat)
    requires n <= |t| <= MAX_NODES
  {
    if n <= 1 then INVALID
    else if t[n - 1].parent == p then n - 1
    else LastChild(t, p, n - 1)
  }

  ghost predicate IsLast(t: Nodes, c: nat, p: nat, n: nat) {
    && (c == INVALID || (c < n && IsChild(t, c, p)))
    && forall i: nat :: IsChild(t, i, p) && i < n ==> c != INVALID && i <= c
  }

  lemma {:induction false} LastChildIs(t: Nodes, p: nat, n: nat)
    requires n <= |t| <= MAX_NODES
    ensures IsLast(t, LastChild(t, p, n), p, n)
  {
    if n > 1 {
      LastChildIs(t, p, n - 1);
    }
  }

  /** Parents come before their children. */
  ghost predicate Ordered(t: Nodes) {
    1 <= |t| <= MAX_NODES && t[0].parent == INVALID && forall i :: 0 < i < |t| ==> t[i].parent < i
  }

  /** The links list each node's children, newest first. */
  ghost predicate Linked(t: Nodes)
    requires |t| <= MAX_NODES
  {
    && (forall i :: 0 <= i < |t| ==> t[i].firstChild == LastChild(t, i, |t|))
    && (forall i :: 0 < i < |t| ==> t[i].nextSibling == LastChild(t, t[i].parent, i))
  }

  /** No two children of one node share a name. */
  ghost predicate UniqueNames(t: Nodes) {
    forall i, j :: 0 < i < j < |t| && t[i].parent == t[j].parent ==> t[i].name != t[j].name
  }

  ghost predicate Tree(t: Nodes) {
    Ordered(t) && Linked(t) && UniqueNames(t)
  }

  ghost predicate HasChild(t: Nodes, p: nat, name: u32, c: nat) {
    IsChild(t, c, p) && t[c].name == name
  }

  /** The child with the name among the first `n` nodes, or INVALID. */
  function ChildBelow(t: Nodes, p: nat, name: u32, n: nat): (c: nat)
    requires n <= |t| <= MAX_NODES
    ensures if c == INVALID then forall i: nat :: i < n ==> !HasChild(t, p, name, i)
            else c < n && HasChild(t, p, name, c)
  {
    if n <= 1 then INVALID
    else if t[n - 1].parent == p && t[n - 1].name == name then n - 1
    else ChildBelow(t, p, name, n - 1)
  }

  function Child(t: Nodes, p: nat, name: u32): (c: nat)
    requires |t| <= MAX_NODES
    ensures if c == INVALID then forall i: nat :: !HasChild(t, p, name, i) else HasChild(t, p, name, c)
  {
    ChildBelow(t, p, name, |t|)
  }

  lemma ChildIs(t: Nodes, p: nat, name: u32, c: nat)
    requires UniqueNames(t) && |t| <= MAX_NODES && HasChild(t, p, name, c)
    ensures Child(t, p, name) == c
  {
  }

  /** The k-th enclosing scope, or INVALID above the root. */
  function Ancestor(t: Nodes, h: nat, k: nat): (a: nat)
    decreases k
  {
    if k == 0 then h
    else if h == ROOT || h >= |t| then INVALID
    else Ancestor(t, t[h].parent, k - 1)
  }

  lemma {:induction false} AncestorNext(t: Nodes, h: nat, k: nat)
    requires Ordered(t) && h < |t|
    ensures Ancestor(t, h, k) == INVALID || Ancestor(t, h, k) < |t|
    ensures Ancestor(t, h, k + 1) ==
            if Ancestor(t, h, k) == INVALID || Ancestor(t, h, k) == ROOT then INVALID else t[Ancestor(t, h, k)].parent
  {
    if k > 0 && h != ROOT {
      AncestorNext(t, t[h].parent, k - 1);
    }
  }

  /** Following child names one by one. */
  function FollowNames(t: Nodes, p: nat, names: seq<u32>): (h: nat)
    requires |t| <= MAX_NODES
    ensures h == INVALID || h < |t| || (names == [] && h == p)
    decreases |names|
  {
    if names == [] then p
    else
      var c := Child(t, p, names[0]);
      if c == INVALID then INVALID else FollowNames(t, c, names[1..])
  }

  lemma {:induction false} FollowMore(t: Nodes, p: nat, names: seq<u32>, name: u32)
    requires |t| <= MAX_NODES
    ensures FollowNames(t, p, names + [name]) ==
            if names != [] && FollowNames(t, p, names) == INVALID then INVALID
            else Child(t, FollowNames(t, p, names), name)
    decreases |names|
  {
    if names == [] {
      assert names + [name] == [name];
    } else {
      var c := Child(t, p, names[0]);
      assert (names + [name])[1..] == names[1..] + [name];
      if c != INVALID {
        FollowMore(t, c, names[1..], name);
      }
    }
  }

  // ----- the names on the way from the root -----

  ghost function PathOf(t: Nodes, h: nat): (names: seq<u32>)
    requires Ordered(t) && h < |t|
    decreases h
  {
    if h == ROOT then [] else PathOf(t, t[h].parent) + [t[h].name]
  }

  /** The path of a node leads from the root back to it. */
  lemma {:induction false} PathLeadsBack(t: Nodes, h: nat)
    requires Ordered(t) && UniqueNames(t) && h < |t|
    ensures FollowNames(t, ROOT, PathOf(t, h)) == h
    decreases h
  {
    if h != ROOT {
      var p := t[h].parent;
      PathLeadsBack(t, p);
      FollowMore(t, ROOT, PathOf(t, p), t[h].name);
      ChildIs(t, p, t[h].name, h);
    }
  }

  /** And no other path does: following names from a node adds them to its path. */
  lemma {:induction false} FollowAddsPath(t: Nodes, p: nat, names: seq<u32>)
    requires Ordered(t) && p < |t|
    ensures var h := FollowNames(t, p, names);
            h == INVALID || (h < |t| && PathOf(t, h) == PathOf(t, p) + names)
    decreases |names|
  {
    if names != [] {
      var c := Child(t, p, names[0]);
      if c != INVALID {
        FollowAddsPath(t, c, names[1..]);
        assert PathOf(t, p) + [names[0]] + names[1..] == PathOf(t, p) + names;
      }
    }
  }

  // ----- name resolution -----

  /** The k-th enclosing scope is the nearest that has the name, and `h` is its child. */
  ghost predicate NearestAt(t: Nodes, scope: nat, name: u32, h: nat, k: nat)
    requires |t| <= MAX_NODES
  {
    && HasChild(t, Ancestor(t, scope, k), name, h)
    && forall j: nat :: j < k ==> Child(t, Ancestor(t, scope, j), name) == INVALID
  }

  /** The name is visible from the scope as `h`; INVALID if no enclosing scope has it. */
  ghost predicate Nearest(t: Nodes, scope: nat, name: u32, h: nat)
    requires |t| <= MAX_NODES
  {
    if h == INVALID then forall j: nat ::
        Ancestor(t, scope, j) == INVALID || Child(t, Ancestor(t, scope, j), name) == INVALID
    else exists k: nat :: NearestAt(t, scope, name, h, k)
  }

  /** At most one node is the nearest. */
  lemma NearestIsOne(t: Nodes, scope: nat, name: u32, a: nat, b: nat)
    requires Ordered(t) && UniqueNames(t) && Nearest(t, scope, name, a) && Nearest(t, scope, name, b)
    ensures a == b
  {
    if a != INVALID && b != INVALID {
      var j: nat :| NearestAt(t, scope, name, a, j);
      var k: nat :| NearestAt(t, scope, name, b, k);
      ChildIs(t, Ancestor(t, scope, j), name, a);
      ChildIs(t, Ancestor(t, scope, k), name, b);
    } else if a != INVALID {
      var j: nat :| NearestAt(t, scope, name, a, j);
      ChildIs(t, Ancestor(t, scope, j), name, a);
    } else if b != INVALID {
      var k: nat :| NearestAt(t, scope, name, b, k);
      ChildIs(t, Ancestor(t, scope, k), name, b);
    }
  }

  /** Search a scope and then the ones around it. */
  function SearchUp(t: Nodes, scope: nat, name: u32): (h: nat)
    requires Ordered(t) && scope < |t|
    ensures h == INVALID || h < |t|
    decreases scope
  {
    var c := Child(t, scope, name);
    if c != INVALID || scope == ROOT then c else SearchUp(t, t[scope].parent, name)
  }

  /** A name is found in the nearest enclosing scope that has it. */
  lemma {:induction false} SearchIsNearest(t: Nodes, scope: nat, name: u32)
    requires Ordered(t) && scope < |t|
    ensures Nearest(t, scope, name, SearchUp(t, scope, name))
    decreases scope
  {
    hide Child;
    var h := SearchUp(t, scope, name);
    if Child(t, scope, name) != INVALID {
      assert Ancestor(t, scope, 0) == scope;
      assert NearestAt(t, scope, name, h, 0);
    } else if scope == ROOT {
      assert forall j: nat :: j > 0 ==> Ancestor(t, scope, j) == INVALID;
    } else {
      var p := t[scope].parent;
      SearchIsNearest(t, p, name);
      if h == INVALID {
        forall j: nat
          ensures Ancestor(t, scope, j) == INVALID || Child(t, Ancestor(t, scope, j), name) == INVALID
        {
          assert j > 0 ==> Ancestor(t, scope, j) == Ancestor(t, p, j - 1);
        }
      } else {
        var k: nat :| NearestAt(t, p, name, h, k);
        assert Ancestor(t, scope, k + 1) == Ancestor(t, p, k);
        forall j: nat | j < k + 1
          ensures Child(t, Ancestor(t, scope, j), name) == INVALID
        {
          assert j > 0 ==> Ancestor(t, scope, j) == Ancestor(t, p, j - 1);
        }
        assert NearestAt(t, scope, name, h, k + 1);
      }
    }
  }

  predicate IsScope(t: Nodes, scope: nat) {
    scope == INVALID || scope < |t|
  }

  /** Where a path starts: the root, or so many levels up. */
  function StartOf(t: Nodes, scope: nat, path: Path): (h: nat)
    requires Ordered(t) && IsScope(t, scope)
    ensures IsScope(t, h)
  {
    if path.absolute then ROOT
    else if scope == INVALID then Ancestor(t, scope, path.parentPrefixes)
    else
      AncestorNext(t, scope, path.parentPrefixes);
      Ancestor(t, scope, path.parentPrefixes)
  }

  predicate IsSingle(path: Path) {
    !path.nullName && !path.absolute && path.parentPrefixes == 0 && |path.segments| == 1
  }

  /** What a name in a table means from a scope: an unprefixed single segment is
      searched for outwards, anything else is followed from where it starts. */
  function Resolved(t: Nodes, scope: nat, path: Path): (h: nat)
    requires Ordered(t) && IsScope(t, scope)
    ensures IsScope(t, h)
  {
    if path.nullName || (IsSingle(path) && scope == INVALID) then INVALID
    else if IsSingle(path) then SearchUp(t, scope, path.segments[0])
    else if StartOf(t, scope, path) == INVALID then INVALID
    else FollowNames(t, StartOf(t, scope, path), path.segments)
  }

  // ----- inserting -----

  ghost function Inserted(t: Nodes, p: nat, name: u32, kind: Kind, tableIndex: nat, tableOffset: nat): (s: Nodes)
    requires p < |t| < MAX_NODES
  {
    t[p := t[p].(firstChild := |t|)]
      + [Node(name, p, INVALID, t[p].firstChild, kind, tableIndex, tableOffset, Empty)]
  }

  lemma {:induction false} LastChildSame(t: Nodes, s: Nodes, q: nat, n: nat)
    requires n <= |t| <= MAX_NODES && n <= |s| <= MAX_NODES && forall i :: 0 <= i < n ==> s[i].parent == t[i].parent
    ensures LastChild(s, q, n) == LastChild(t, q, n)
    decreases n
  {
    if n > 1 {
      LastChildSame(t, s, q, n - 1);
    }
  }

  lemma InsertLinks(t: Nodes, s: Nodes, p: nat, name: u32, kind: Kind, ti: nat, off: nat)
    requires Ordered(t) && Linked(t) && p < |t| < MAX_NODES && s == Inserted(t, p, name, kind, ti, off)
    ensures Linked(s)
  {
    hide Ordered, Linked, LastChild, Inserted;
    InsertedAt(t, s, p, name, kind, ti, off);
    forall i: nat | i < |s| ensures s[i].firstChild == LastChild(s, i, |s|) {
      InsertFirst(t, s, p, name, kind, ti, off, i);
    }
    forall i: nat | 0 < i < |s| ensures s[i].nextSibling == LastChild(s, s[i].parent, i) {
      InsertNext(t, s, p, name, kind, ti, off, i);
    }
    LinkedIf(s);
  }

  lemma LinkedIf(s: Nodes)
    requires |s| <= MAX_NODES && forall i: nat :: i < |s| ==> s[i].firstChild == LastChild(s, i, |s|)
    requires forall i: nat :: 0 < i < |s| ==> s[i].nextSibling == LastChild(s, s[i].parent, i)
    ensures Linked(s)
  {
    hide LastChild;
  }

  lemma InsertedAt(t: Nodes, s: Nodes, p: nat, name: u32, kind: Kind, ti: nat, off: nat)
    requires p < |t| < MAX_NODES && s == Inserted(t, p, name, kind, ti, off)
    ensures |s| == |t| + 1 && s[|t|].parent == p && s[|t|].firstChild == INVALID
            && s[|t|].nextSibling == t[p].firstChild
    ensures forall i :: 0 <= i < |t| ==> s[i] == if i == p then t[p].(firstChild := |t|) else t[i]
  {
  }

  lemma InsertFirst(t: Nodes, s: Nodes, p: nat, name: u32, kind: Kind, ti: nat, off: nat, i: nat)
    requires Ordered(t) && Linked(t) && p < |t| < MAX_NODES && s == Inserted(t, p, name, kind, ti, off) && i < |s|
    ensures s[i].firstChild == LastChild(s, i, |s|)
  {
    hide Ordered, Inserted, LastChild, Linked;
    InsertedAt(t, s, p, name, kind, ti, off);
    LastChildSame(t, s, i, |t|);
    LastChildStep(s, i, |t|);
    if i == |t| {
      NoChildren(t, i);
    } else {
      LinksAt(t, i);
    }
  }

  lemma LinksAt(t: Nodes, i: nat)
    requires |t| <= MAX_NODES && Linked(t) && i < |t|
    ensures t[i].firstChild == LastChild(t, i, |t|) && (i > 0 ==> t[i].nextSibling == LastChild(t, t[i].parent, i))
  {
    hide LastChild;
  }

  lemma LastChildStep(s: Nodes, q: nat, n: nat)
    requires 1 <= n < |s| <= MAX_NODES
    ensures LastChild(s, q, n + 1) == if s[n].parent == q then n else LastChild(s, q, n)
  {
  }

  lemma InsertNext(t: Nodes, s: Nodes, p: nat, name: u32, kind: Kind, ti: nat, off: nat, i: nat)
    requires Ordered(t) && Linked(t) && p < |t| < MAX_NODES && s == Inserted(t, p, name, kind, ti, off) && 0 < i < |s|
    ensures s[i].nextSibling == LastChild(s, s[i].parent, i)
  {
    hide Ordered, Inserted, LastChild, Linked;
    InsertedAt(t, s, p, name, kind, ti, off);
    LastChildSame(t, s, s[i].parent, i);
    LinksAt(t, if i < |t| then i else p);
  }

  lemma NoChildren(t: Nodes, p: nat)
    requires Ordered(t) && p >= |t|
    ensures LastChild(t, p, |t|) == INVALID
  {
    LastChildIs(t, p, |t|);
  }

  /** A new name under a node keeps the tree. */
  lemma InsertKeepsTree(t: Nodes, p: nat, name: u32, kind: Kind, ti: nat, off: nat)
    requires Tree(t) && p < |t| < MAX_NODES && Child(t, p, name) == INVALID
    ensures Tree(Inserted(t, p, name, kind, ti, off))
  {
    var s := Inserted(t, p, name, kind, ti, off);
    InsertLinks(t, s, p, name, kind, ti, off);
    hide Linked;
    assert Ordered(s);
    InsertUnique(t, s, p, name, kind, ti, off);
  }

  lemma InsertUnique(t: Nodes, s: Nodes, p: nat, name: u32, kind: Kind, ti: nat, off: nat)
    requires Ordered(t) && UniqueNames(t) && p < |t| < MAX_NODES && Child(t, p, name) == INVALID
    requires s == Inserted(t, p, name, kind, ti, off)
    ensures UniqueNames(s)
  {
    forall i, j | 0 < i < j < |s| && s[i].parent == s[j].parent
      ensures s[i].name != s[j].name
    {
      assert j == |t| ==> !HasChild(t, p, name, i);
    }
  }

  /** It keeps every path already there and gives the new node its own. */
  lemma {:induction false} InsertKeepsPaths(t: Nodes, p: nat, name: u32, kind: Kind, ti: nat, off: nat, h: nat)
    requires Ordered(t) && p < |t| < MAX_NODES && h <= |t|
    ensures Ordered(Inserted(t, p, name, kind, ti, off))
    ensures PathOf(Inserted(t, p, name, kind, ti, off), h) == if h < |t| then PathOf(t, h) else PathOf(t, p) + [name]
    decreases h
  {
    if h != ROOT {
      InsertKeepsPaths(t, p, name, kind, ti, off, if h < |t| then t[h].parent else p);
    }
  }

  /** What a change may do to the tree: grow it, keeping every handle's path. */
  ghost predicate Extends(s: Nodes, t: Nodes) {
    && Ordered(t) && Ordered(s) && |t| <= |s|
    && forall h :: 0 <= h < |t| ==> PathOf(s, h) == PathOf(t, h)
  }

  lemma ExtendsMore(r: Nodes, s: Nodes, t: Nodes)
    requires Extends(r, s) && Extends(s, t)
    ensures Extends(r, t)
  {
    forall h | 0 <= h < |t|
      ensures PathOf(r, h) == PathOf(t, h)
    {
      assert PathOf(r, h) == PathOf(s, h);
    }
  }

  /** Changing what a node holds leaves the tree alone. */
  lemma RetypeKeepsTree(t: Nodes, h: nat, n: Node)
    requires Tree(t) && h < |t|
    requires n.name == t[h].name && n.parent == t[h].parent
    requires n.firstChild == t[h].firstChild && n.nextSibling == t[h].nextSibling
    ensures Tree(t[h := n]) && Extends(t[h := n], t)
  {
    var s := t[h := n];
    RetypeLinked(t, h, n);
    hide Linked, LastChild;
    RetypeKeepsPath(t, h, n, 0);
    forall i | 0 <= i < |t|
      ensures PathOf(s, i) == PathOf(t, i)
    {
      RetypeKeepsPath(t, h, n, i);
    }
  }

  lemma RetypeLinked(t: Nodes, h: nat, n: Node)
    requires Ordered(t) && Linked(t) && h < |t| && n.parent == t[h].parent
    requires n.firstChild == t[h].firstChild && n.nextSibling == t[h].nextSibling
    ensures Linked(t[h := n])
  {
    hide LastChild;
    var s := t[h := n];
    forall i: nat | i < |s|
      ensures s[i].firstChild == LastChild(s, i, |s|)
      ensures i > 0 ==> s[i].nextSibling == LastChild(s, s[i].parent, i)
    {
      LastChildSame(t, s, i, |t|);
      if i > 0 {
        LastChildSame(t, s, t[i].parent, i);
      }
    }
    hide Linked;
    LinkedIf(s);
  }

  lemma {:induction false} RetypeKeepsPath(t: Nodes, h: nat, n: Node, i: nat)
    requires Ordered(t) && h < |t| && n.name == t[h].name && n.parent == t[h].parent && i < |t|
    ensures Ordered(t[h := n]) && PathOf(t[h := n], i) == PathOf(t, i)
    decreases i
  {
    if i != ROOT {
      RetypeKeepsPath(t, h, n, t[i].parent);
    }
  }

  lemma InsertExtends(t: Nodes, p: nat, name: u32, kind: Kind, ti: nat, off: nat)
    requires Ordered(t) && p < |t| < MAX_NODES
    ensures Extends(Inserted(t, p, name, kind, ti, off), t)
    ensures PathOf(Inserted(t, p, name, kind, ti, off), |t|) == PathOf(t, p) + [name]
  {
    forall h | 0 <= h <= |t|
      ensures Ordered(Inserted(t, p, name, kind, ti, off))
      ensures PathOf(Inserted(t, p, name, kind, ti, off), h) == if h < |t| then PathOf(t, h) else PathOf(t, p) + [name]
    {
      InsertKeepsPaths(t, p, name, kind, ti, off, h);
    }
  }

  /** No node can be added or found there: no such parent, no name, or no room. */
  ghost predicate Blocked(t: Nodes, p: nat, name: u32)
    requires |t| <= MAX_NODES
  {
    p >= |t| || name == 0 || (Child(t, p, name) == INVALID && |t| == MAX_NODES)
  }

  /** A declared name found again takes its real kind; anything else stays as it is. */
  function Retyped(t: Nodes, h: nat, kind: Kind, tableIndex: nat, tableOffset: nat): Nodes
    requires h < |t|
  {
    if (t[h].kind == External || t[h].kind == Scope) && kind != Scope
    then t[h := t[h].(kind := kind, tableIndex := tableIndex, tableOffset := tableOffset)]
    else t
  }

  lemma RetypedIsTree(t: Nodes, h: nat, kind: Kind, ti: nat, off: nat)
    requires Tree(t) && h < |t|
    ensures Tree(Retyped(t, h, kind, ti, off)) && Extends(Retyped(t, h, kind, ti, off), t)
  {
    RetypeKeepsTree(t, h, t[h].(kind := kind, tableIndex := ti, tableOffset := off));
  }

  /** The list of children from a node on. */
  lemma Links(t: Nodes, i: nat)
    requires Ordered(t) && Linked(t) && i < |t|
    ensures IsLast(t, t[i].firstChild, i, |t|)
    ensures i > 0 ==> IsLast(t, t[i].nextSibling, t[i].parent, i)
  {
    LastChildIs(t, i, |t|);
    if i > 0 {
      LastChildIs(t, t[i].parent, i);
    }
  }

  /** Searching a list of children from `child` on covers whatever can have the name. */
  ghost predicate Passed(t: Nodes, child: nat, p: nat, name: u32) {
    forall i: nat :: IsChild(t, i, p) && (child == INVALID || i > child) ==> t[i].name != name
  }

  lemma PassNone(t: Nodes, p: nat, name: u32)
    requires Ordered(t) && Linked(t) && p < |t|
    ensures var c := t[p].firstChild; (c == INVALID || IsChild(t, c, p)) && Passed(t, c, p, name)
  {
    Links(t, p);
  }

  lemma PassOne(t: Nodes, child: nat, p: nat, name: u32)
    requires Ordered(t) && Linked(t) && IsChild(t, child, p) && Passed(t, child, p, name) && t[child].name != name
    ensures var c := t[child].nextSibling;
            (c == INVALID || (IsChild(t, c, p) && c < child)) && Passed(t, c, p, name)
  {
    Links(t, child);
  }

  lemma NoneLeft(t: Nodes, p: nat, name: u32)
    requires Ordered(t) && (p >= |t| || Passed(t, INVALID, p, name))
    ensures Child(t, p, name) == INVALID
  {
    if p >= |t| {
      assert forall i: nat :: !IsChild(t, i, p);
    }
  }

  class Namespace {
    const nodes: array<Node>
    var count: nat

    ghost predicate Valid()
      reads this, nodes
    {
      nodes.Length == MAX_NODES && count <= MAX_NODES && Tree(nodes[..count])
    }

    constructor ()
      ensures Valid() && fresh(nodes)
      ensures nodes[..count] == [Node(0, INVALID, INVALID, INVALID, Root, 0, 0, Empty)]
    {
      var root := Node(0, INVALID, INVALID, INVALID, Root, 0, 0, Empty);
      nodes := new Node[MAX_NODES](_ => root);
      count := 1;
      new;
      assert nodes[..1] == [root];
      assert LastChild([root], 0, 1) == INVALID;
    }

    /** Walk one node's list of children for a name. */
    method FindChild(parent: nat, name: u32) returns (child: nat)
      requires Valid()
      ensures child == Child(nodes[..count], parent, name)
    {
      hide Ordered, Linked, UniqueNames, Child, Passed;
      ghost var t := nodes[..count];
      if parent >= count {
        NoneLeft(t, parent, name);
        return INVALID;
      }
      PassNone(t, parent, name);
      child := nodes[parent].firstChild;
      while child != INVALID
        invariant child == INVALID || IsChild(t, child, parent)
        invariant Passed(t, child, parent, name)
        decreases if child == INVALID then 0 else child + 1
      {
        if nodes[child].name == name {
          ChildIs(t, parent, name, child);
          return;
        }
        PassOne(t, child, parent, name);
        child := nodes[child].nextSibling;
      }
      NoneLeft(t, parent, name);
    }

    method Ascend(scope: nat, levels: nat) returns (a: nat)
      requires Valid()
      ensures a == Ancestor(nodes[..count], scope, levels)
    {
      hide Linked, UniqueNames;
      a := scope;
      var left := levels;
      while left > 0
        invariant Ancestor(nodes[..count], scope, levels) == Ancestor(nodes[..count], a, left)
      {
        if a == ROOT || a >= count { return INVALID; }
        a := nodes[a].parent;
        left := left - 1;
      }
    }

    method Follow(scope: nat, path: Path) returns (h: nat)
      requires Valid() && IsScope(nodes[..count], scope)
      ensures h == if path.nullName || StartOf(nodes[..count], scope, path) == INVALID then INVALID
                   else FollowNames(nodes[..count], StartOf(nodes[..count], scope, path), path.segments)
    {
      hide Linked, UniqueNames, Child;
      if path.nullName { return INVALID; }
      h := ROOT;
      if !path.absolute {
        h := Ascend(scope, path.parentPrefixes);
      }
      if h == INVALID { return; }
      h := FollowSegments(h, path.segments);
    }

    method FollowSegments(start: nat, segments: seq<u32>) returns (h: nat)
      requires Valid()
      ensures h == FollowNames(nodes[..count], start, segments)
    {
      hide Linked, UniqueNames, Child;
      h := start;
      for i := 0 to |segments|
        invariant FollowNames(nodes[..count], start, segments) == FollowNames(nodes[..count], h, segments[i..])
      {
        h := FindChild(h, segments[i]);
        assert segments[i..][1..] == segments[i + 1..];
        if h == INVALID { return; }
      }
    }

    method Resolve(scope: nat, path: Path) returns (h: nat)
      requires Valid() && IsScope(nodes[..count], scope)
      ensures h == Resolved(nodes[..count], scope, path)
    {
      hide Linked, UniqueNames, Child;
      if path.nullName { return INVALID; }
      if path.absolute || path.parentPrefixes != 0 || |path.segments| != 1 {
        h := Follow(scope, path);
        return;
      }
      ghost var t := nodes[..count];
      var at := scope;
      while at != INVALID
        invariant IsScope(t, at) && (scope == INVALID ==> at == INVALID)
        invariant scope != INVALID ==>
                  at != INVALID && SearchUp(t, scope, path.segments[0]) == SearchUp(t, at, path.segments[0])
        decreases at
      {
        h := FindChild(at, path.segments[0]);
        if h != INVALID { return; }
        if at == ROOT { break; }
        at := nodes[at].parent;
      }
      h := INVALID;
    }

    /** Add a node, or find the one already there and give it its kind. */
    method CreateNode(parent: nat, name: u32, kind: Kind, tableIndex: nat, tableOffset: nat) returns (h: nat)
      requires Valid()
      modifies this`count, nodes
      ensures Valid() && Extends(nodes[..count], old(nodes[..count]))
      ensures h == INVALID <==> Blocked(old(nodes[..count]), parent, name)
      ensures h == INVALID ==> nodes[..count] == old(nodes[..count])
      ensures h != INVALID ==>
                HasChild(nodes[..count], parent, name, h) && PathOf(nodes[..count], h)
                == PathOf(old(nodes[..count]), parent) + [name]
      ensures h != INVALID && Child(old(nodes[..count]), parent, name) == INVALID ==>
                nodes[..count] == Inserted(old(nodes[..count]), parent, name, kind, tableIndex, tableOffset)
      ensures h != INVALID && Child(old(nodes[..count]), parent, name) != INVALID ==>
                && h == Child(old(nodes[..count]), parent, name)
                && nodes[..count] == Retyped(old(nodes[..count]), h, kind, tableIndex, tableOffset)
    {
      hide Linked, UniqueNames, Child;
      ghost var t := nodes[..count];
      if parent >= count || name == 0 { return INVALID; }
      h := FindChild(parent, name);
      if h != INVALID {
        RetypedIsTree(t, h, kind, tableIndex, tableOffset);
        if (nodes[h].kind == External || nodes[h].kind == Scope) && kind != Scope {
          nodes[h] := nodes[h].(kind := kind, tableIndex := tableIndex, tableOffset := tableOffset);
        }
        assert nodes[..count] == Retyped(t, h, kind, tableIndex, tableOffset);
        return;
      }
      if count >= MAX_NODES { return INVALID; }
      InsertKeepsTree(t, parent, name, kind, tableIndex, tableOffset);
      InsertExtends(t, parent, name, kind, tableIndex, tableOffset);
      h := count;
      nodes[h] := Node(name, parent, INVALID, nodes[parent].firstChild, kind, tableIndex, tableOffset, Empty);
      count := count + 1;
      nodes[parent] := nodes[parent].(firstChild := h);
      assert nodes[..count] == Inserted(t, parent, name, kind, tableIndex, tableOffset);
    }

    /** Add a node at a path whose other segments exist. */
    method CreatePath(scope: nat, path: Path, kind: Kind, tableIndex: nat, tableOffset: nat) returns (h: nat)
      requires Valid() && IsScope(nodes[..count], scope)
      modifies this`count, nodes
      ensures Valid() && Extends(nodes[..count], old(nodes[..count]))
      ensures h == INVALID ==> nodes[..count] == old(nodes[..count])
      ensures h == INVALID <==>
                (path.nullName || path.segments == [] || StartOf(old(nodes[..count]), scope, path) == INVALID
                 || Blocked(old(nodes[..count]),
                            FollowNames(old(nodes[..count]), StartOf(old(nodes[..count]), scope, path),
                                        path.segments[..|path.segments| - 1]),
                            path.segments[|path.segments| - 1]))
      ensures h != INVALID ==>
                && h < count && StartOf(old(nodes[..count]), scope, path) < old(count)
                && PathOf(nodes[..count], h)
                   == PathOf(old(nodes[..count]), StartOf(old(nodes[..count]), scope, path)) + path.segments
    {
      hide Linked, UniqueNames, Child, PathOf, FollowNames, Ancestor;
      if path.nullName || path.segments == [] { return INVALID; }
      var start: nat := ROOT;
      if !path.absolute {
        start := AscendFrom(scope, path.parentPrefixes);
      }
      if start == INVALID { return INVALID; }
      var last := |path.segments| - 1;
      var parent := FollowSegments(start, path.segments[..last]);
      if parent == INVALID { return INVALID; }
      FollowAddsPath(nodes[..count], start, path.segments[..last]);
      h := CreateNode(parent, path.segments[last], kind, tableIndex, tableOffset);
      assert path.segments == path.segments[..last] + [path.segments[last]];
    }

    /** Levels up from a real scope stay within the tree. */
    method AscendFrom(scope: nat, levels: nat) returns (a: nat)
      requires Valid() && IsScope(nodes[..count], scope)
      ensures a == Ancestor(nodes[..count], scope, levels) && (a == INVALID || a < count)
    {
      hide Linked, UniqueNames;
      a := Ascend(scope, levels);
      if scope != INVALID {
        AncestorNext(nodes[..count], scope, levels);
      }
    }

    /** Find a scope, adding whatever part of its path is missing. */
    method EnsureScopePath(scope: nat, path: Path, tableIndex: nat, tableOffset: nat) returns (h: nat)
      requires Valid() && IsScope(nodes[..count], scope)
      modifies this`count, nodes
      ensures Valid() && Extends(nodes[..count], old(nodes[..count]))
      ensures path.nullName ==> h == if path.absolute && path.parentPrefixes == 0 then ROOT else INVALID
      ensures !path.nullName && h == INVALID ==>
                StartOf(old(nodes[..count]), scope, path) == INVALID || 0 in path.segments || count == MAX_NODES
      ensures !path.nullName && h != INVALID ==>
                && h < count && StartOf(old(nodes[..count]), scope, path) < old(count)
                && PathOf(nodes[..count], h)
                   == PathOf(old(nodes[..count]), StartOf(old(nodes[..count]), scope, path)) + path.segments
    {
      hide Linked, UniqueNames, Child, PathOf;
      if path.nullName {
        return if path.absolute && path.parentPrefixes == 0 then ROOT else INVALID;
      }
      var start: nat := ROOT;
      if !path.absolute {
        start := AscendFrom(scope, path.parentPrefixes);
      }
      h := start;
      if h == INVALID { return; }
      ghost var t := nodes[..count];
      for i := 0 to |path.segments|
        invariant Valid() && Extends(nodes[..count], t)
        invariant h < count && PathOf(nodes[..count], h) == PathOf(t, start) + path.segments[..i]
      {
        ghost var s := nodes[..count];
        h := Descend(h, path.segments[i], tableIndex, tableOffset);
        ExtendsMore(nodes[..count], s, t);
        if h == INVALID { return; }
        assert path.segments[..i + 1] == path.segments[..i] + [path.segments[i]];
      }
      assert path.segments[..|path.segments|] == path.segments;
    }

    /** One segment of it. */
    method Descend(parent: nat, name: u32, tableIndex: nat, tableOffset: nat) returns (child: nat)
      requires Valid() && parent < count
      modifies this`count, nodes
      ensures Valid() && Extends(nodes[..count], old(nodes[..count]))
      ensures child == INVALID ==> name == 0 || count == MAX_NODES
      ensures child != INVALID ==>
                child < count && PathOf(nodes[..count], child) == PathOf(old(nodes[..count]), parent) + [name]
    {
      hide Linked, UniqueNames, Child;
      child := FindChild(parent, name);
      if child == INVALID {
        child := CreateNode(parent, name, Scope, tableIndex, tableOffset);
      }
    }

    /** The names from a node up to the root, if there are few enough. */
    method Collect(handle: nat) returns (ok: bool, segments: array<u32>, n: nat)
      requires Valid() && handle < count
      ensures fresh(segments)
      ensures ok <==> |PathOf(nodes[..count], handle)| <= MAX_SEGMENTS
      ensures ok ==> n == |PathOf(nodes[..count], handle)| && n <= segments.Length
      ensures ok ==> forall j :: 0 <= j < n ==> segments[j] == PathOf(nodes[..count], handle)[n - 1 - j]
    {
      hide Linked, UniqueNames;
      segments := new u32[MAX_SEGMENTS];
      n := 0;
      var h: nat := handle;
      ghost var tail: seq<u32> := [];
      while h != ROOT
        invariant h < count && n == |tail| <= MAX_SEGMENTS == segments.Length
        invariant PathOf(nodes[..count], handle) == PathOf(nodes[..count], h) + tail
        invariant forall j :: 0 <= j < n ==> segments[j] == tail[n - 1 - j]
      {
        if n >= MAX_SEGMENTS { return false, segments, n; }
        segments[n] := nodes[h].name;
        n := n + 1;
        tail := [nodes[h].name] + tail;
        h := nodes[h].parent;
      }
      ok := true;
    }

    /** Print a node's path, if it is short enough and fits with its terminator. */
    method HandlePath(handle: nat, path: array<byte>) returns (ok: bool, ghost length: nat)
      requires Valid()
      modifies path
      ensures ok <==> (path.Length >= 2 && handle < count && |PathOf(nodes[..count], handle)| <= MAX_SEGMENTS
                       && |PathText(PathOf(nodes[..count], handle))| < path.Length)
      ensures ok ==> length < path.Length && path[length] == 0
      ensures ok ==> path[..length] == PathText(PathOf(nodes[..count], handle))
      ensures ok ==> FollowNames(nodes[..count], ROOT, TextNames(path[..length])) == handle
    {
      length := 0;
      if path.Length < 2 || handle >= count { return false, 0; }
      var segments, n;
      ok, segments, n := Collect(handle);
      if !ok { return; }
      ghost var names := PathOf(nodes[..count], handle);
      PathLeadsBack(nodes[..count], handle);
      TextReadsBack(names);
      hide Linked, UniqueNames, PathOf, FollowNames, TextNames;
      ok, length := PrintNames(segments, n, names, path);
    }
  }

  // ----- the printed path -----

  function Pack(b: seq<byte>): (n: u32)
    requires |b| == 4
  {
    b[0] as nat + 0x100 * b[1] as nat + 0x1_0000 * b[2] as nat + 0x100_0000 * b[3] as nat
  }

  function Unpack(n: u32): (b: seq<byte>)
    ensures |b| == 4
  {
    [n % 0x100, n / 0x100 % 0x100, n / 0x1_0000 % 0x100, n / 0x100_0000 % 0x100]
  }

  lemma UnpackPacks(n: u32)
    ensures Pack(Unpack(n)) == n
  {
    assert n / 0x1_0000 == n / 0x100 / 0x100;
    assert n / 0x100_0000 == n / 0x1_0000 / 0x100;
  }

  /** A backslash, then the segments with dots between them. */
  function PathText(names: seq<u32>): (text: seq<byte>)
    ensures |text| == if names == [] then 1 else 5 * |names|
  {
    if names == [] then [92]
    else
      var front := names[..|names| - 1];
      PathText(front) + (if front == [] then [] else [46]) + Unpack(names[|names| - 1])
  }

  /** The segments a printed path names. */
  function TextNames(text: seq<byte>): seq<u32> {
    seq(|text| / 5, i requires 0 <= i < |text| / 5 => Pack(text[5 * i + 1..5 * i + 5]))
  }

  lemma {:induction false} TextAt(names: seq<u32>, i: nat)
    requires i < |names|
    ensures PathText(names)[5 * i + 1..5 * i + 5] == Unpack(names[i])
    decreases |names|
  {
    var front := names[..|names| - 1];
    var head := PathText(front) + (if front == [] then [] else [46]);
    var last := Unpack(names[|names| - 1]);
    assert PathText(names) == head + last;
    if i == |names| - 1 {
      assert (head + last)[5 * i + 1..] == last;
    } else {
      TextAt(front, i);
      assert (head + last)[5 * i + 1..5 * i + 5] == PathText(front)[5 * i + 1..5 * i + 5];
    }
  }

  lemma TextReadsBack(names: seq<u32>)
    ensures TextNames(PathText(names)) == names
  {
    var text := PathText(names);
    assert |text| / 5 == |names|;
    forall i | 0 <= i < |names|
      ensures TextNames(text)[i] == names[i]
    {
      TextAt(names, i);
      UnpackPacks(names[i]);
    }
  }

  method PutName(path: array<byte>, offset: nat, name: u32)
    requires offset + 4 <= path.Length
    modifies path
    ensures path[..offset + 4] == old(path[..offset]) + Unpack(name)
  {
    path[offset] := name % 0x100;
    path[offset + 1] := name / 0x100 % 0x100;
    path[offset + 2] := name / 0x1_0000 % 0x100;
    path[offset + 3] := name / 0x100_0000 % 0x100;
    assert path[offset..offset + 4] == Unpack(name);
    assert path[..offset] == old(path[..offset]);
    assert path[..offset + 4] == path[..offset] + path[offset..offset + 4];
  }

  /** Print the names, which come in reverse, while they fit. */
  method PrintNames(segments: array<u32>, n: nat, ghost names: seq<u32>, path: array<byte>)
    returns (ok: bool, offset: nat)
    requires n == |names| <= segments.Length && path.Length >= 2
    requires forall j :: 0 <= j < n ==> segments[j] == names[n - 1 - j]
    modifies path
    ensures ok <==> |PathText(names)| < path.Length
    ensures ok ==> offset < path.Length && path[offset] == 0 && path[..offset] == PathText(names)
  {
    hide PathText, Unpack;
    path[0] := 92;
    offset := 1;
    var i: nat := n;
    PathTextNone();
    assert names[..0] == [] && path[..1] == [92];
    while i > 0
      invariant i <= n && offset < path.Length
      invariant path[..offset] == PathText(names[..n - i])
    {
      PathTextMore(names, n - i);
      ok, offset := PutNext(path, offset, segments[i - 1]);
      if !ok {
        return;
      }
      i := i - 1;
    }
    assert names[..n] == names;
    path[offset] := 0;
    ok := true;
  }

  lemma PathTextNone()
    ensures PathText([]) == [92]
  {
  }

  lemma PathTextMore(names: seq<u32>, k: nat)
    requires k < |names|
    ensures PathText(names[..k + 1]) == PathText(names[..k]) + (if k == 0 then [] else [46]) + Unpack(names[k])
    ensures |PathText(names[..k])| == (if k == 0 then 1 else 5 * k) && |PathText(names)| == 5 * |names|
  {
    hide Unpack;
    assert names[..k + 1][..k] == names[..k];
  }

  /** A name behind what has been printed, with a dot between two names. */
  method PutNext(path: array<byte>, from: nat, name: u32) returns (ok: bool, offset: nat)
    requires 1 <= from < path.Length
    modifies path
    ensures ok <==> from + (if from > 1 then 5 else 4) < path.Length
    ensures ok ==> offset == from + (if from > 1 then 5 else 4)
    ensures ok ==> path[..offset] == old(path[..from]) + (if from > 1 then [46] else []) + Unpack(name)
    ensures !ok ==> offset <= path.Length
  {
    hide Unpack;
    offset := from;
    if offset > 1 {
      if offset + 1 >= path.Length { return false, offset; }
      path[offset] := 46;
      offset := offset + 1;
      assert path[..offset] == old(path[..from]) + [46];
    }
    if offset + 4 >= path.Length { return false, offset; }
    PutName(path, offset, name);
    offset := offset + 4;
    ok := true;
  }
}
