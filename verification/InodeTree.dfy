/**
The fileserver's inode table: parent links, child lists, cached paths, and the
four structural edits (add, move, drop, resize) that every operation is made of.

Subtrees are described by path prefix, so each edit has a closed form; what the
code computes by recursive walks is proved equal to these forms elsewhere.
*/
module InodeTree {
  import opened Paths

  type Id = nat

  const TRASH_DIR: Name := ".trash"

  datatype Inode = Inode(
    isDir: bool,
    name: Name,
    path: Path,
    owner: string,
    parent: Id,
    children: seq<Id>,
    size: nat)

  type Tree = map<Id, Inode>

  // ---------------------------------------------------------------- child lists

  ghost predicate NoDup<T>(s: seq<T>) {
    forall a, b :: 0 <= a < b < |s| ==> s[a] != s[b]
  }

  function Without(s: seq<Id>, x: Id): seq<Id> {
    if s == [] then []
    else if s[0] == x then Without(s[1..], x)
    else [s[0]] + Without(s[1..], x)
  }

  lemma {:induction false} WithoutMembers(s: seq<Id>, x: Id)
    ensures forall c :: c in Without(s, x) <==> c in s && c != x
  {
    if s == [] {
    } else {
      WithoutMembers(s[1..], x);
      assert s == [s[0]] + s[1..];
      assert forall c :: c in s <==> c == s[0] || c in s[1..];
    }
  }

  lemma {:induction false} WithoutNoDup(s: seq<Id>, x: Id)
    requires NoDup(s)
    ensures NoDup(Without(s, x))
  {
    if s == [] {
    } else {
      var rest := Without(s[1..], x);
      WithoutNoDup(s[1..], x);
      WithoutMembers(s[1..], x);
      assert s[0] !in s[1..];
      assert forall a :: 0 <= a < |rest| ==> rest[a] in s[1..];
    }
  }

  lemma {:induction false} WithoutAbsent(s: seq<Id>, x: Id)
    requires x !in s
    ensures Without(s, x) == s
  {
    if s == [] {
    } else {
      WithoutAbsent(s[1..], x);
      assert s == [s[0]] + s[1..];
    }
  }

  // ---------------------------------------------------------------- invariants

  predicate IsRoot(t: Tree, i: Id)
    requires i in t
  {
    t[i].parent == i
  }

  /** A user's trash directory: the child of a user root named ".trash". */
  predicate IsTrash(t: Tree, i: Id) {
    && i in t
    && t[i].name == TRASH_DIR
    && !IsRoot(t, i)
    && t[i].parent in t
    && IsRoot(t, t[i].parent)
  }

  /** Inode `i` agrees with its parent, its children and its cached path. */
  ghost predicate NodeOk(t: Tree, i: Id)
    requires i in t
  {
    var n := t[i];
    && n.parent in t
    && t[n.parent].isDir
    && (IsRoot(t, i) ==> n.path == [n.name] && n.owner == n.name)
    && (!IsRoot(t, i) ==>
          && n.path == t[n.parent].path + [n.name]
          && i in t[n.parent].children
          && n.owner == t[n.parent].owner)
    && (!n.isDir ==> n.children == [])
    && NoDup(n.children)
    && (forall c :: c in n.children ==> c in t && t[c].parent == i && c != i)
  }

  ghost predicate Linked(t: Tree) {
    forall i {:trigger NodeOk(t, i)} :: i in t ==> NodeOk(t, i)
  }

  ghost predicate Rooted(t: Tree, users: map<string, Id>) {
    && (forall u :: u in users ==> users[u] in t && t[users[u]].name == u && IsRoot(t, users[u]))
    && (forall i :: i in t && IsRoot(t, i) ==> t[i].name in users && users[t[i].name] == i)
  }

  /** The index maps exactly the live paths, each to its inode; every id was handed out. */
  ghost predicate Indexed(t: Tree, index: map<Path, Id>, next: Id) {
    && (forall i :: i in t ==> i < next && t[i].path in index && index[t[i].path] == i)
    && (forall p :: p in index ==> index[p] in t && t[index[p]].path == p)
  }

  /** Every parent that is not a trash directory is older than its child. */
  ghost predicate Aged(t: Tree) {
    forall i {:trigger Older(t, i)} :: i in t ==> Older(t, i)
  }

  ghost predicate Older(t: Tree, i: Id)
    requires i in t
  {
    IsRoot(t, i) || (t[i].parent in t && (IsTrash(t, t[i].parent) || t[i].parent < i))
  }

  /** Every inode belongs to a registered user and is no older than that user's root. */
  ghost predicate Founded(t: Tree, users: map<string, Id>) {
    forall i {:trigger HasFounder(t, users, i)} :: i in t ==> HasFounder(t, users, i)
  }

  ghost predicate HasFounder(t: Tree, users: map<string, Id>, i: Id)
    requires i in t
  {
    t[i].owner in users && users[t[i].owner] <= i
  }

  /** Each directory's size is the sum of its children's sizes. */
  ghost predicate Summed(t: Tree)
    requires Linked(t)
  {
    forall i {:trigger SumsUp(t, i)} :: i in t && t[i].isDir ==> SumsUp(t, i)
  }

  ghost predicate SumsUp(t: Tree, i: Id)
    requires Linked(t) && i in t
  {
    assert NodeOk(t, i);
    t[i].size == SumOf(t, t[i].children)
  }

  function SumOf(t: Tree, cs: seq<Id>): nat
    requires forall c :: c in cs ==> c in t
  {
    if cs == [] then 0 else t[cs[0]].size + SumOf(t, cs[1..])
  }

  // ---------------------------------------------------------------- consequences

  lemma PathNonEmpty(t: Tree, i: Id)
    requires Linked(t) && i in t
    ensures |t[i].path| >= 1
    ensures !IsRoot(t, i) ==> |t[i].path| >= 2
  {
    assert NodeOk(t, i);
    assert NodeOk(t, t[i].parent);
  }

  lemma SamePath(t: Tree, index: map<Path, Id>, next: Id, i: Id, j: Id)
    requires Indexed(t, index, next) && i in t && j in t && t[i].path == t[j].path
    ensures i == j
  {
  }

  /** Siblings have different names. */
  lemma SiblingsDiffer(t: Tree, index: map<Path, Id>, next: Id, i: Id, j: Id)
    requires Linked(t) && Indexed(t, index, next)
    requires i in t && j in t && i != j && !IsRoot(t, i) && !IsRoot(t, j) && t[i].parent == t[j].parent
    ensures t[i].name != t[j].name
  {
    assert NodeOk(t, i) && NodeOk(t, j);
  }

  /** A proper descendant's parent is a descendant too; a stranger's parent is a stranger. */
  lemma ParentUnder(t: Tree, index: map<Path, Id>, next: Id, i: Id, j: Id)
    requires Linked(t) && Indexed(t, index, next) && i in t && j in t && i != j
    ensures !IsRoot(t, j) && t[j].parent in t ==> (Under(t[j].path, t[i].path) <==> Under(t[t[j].parent].path, t[i].path))
    ensures IsRoot(t, j) ==> !Under(t[j].path, t[i].path)
  {
    assert NodeOk(t, j) && NodeOk(t, i);
    PathNonEmpty(t, i);
    if t[i].path == t[j].path { SamePath(t, index, next, i, j); assert false; }
    if !IsRoot(t, j) {
      var q := t[j].parent;
      assert t[j].path == t[q].path + [t[j].name];
      if Under(t[j].path, t[i].path) {
        assert |t[i].path| < |t[j].path|;
        assert t[i].path == t[j].path[..|t[i].path|] == t[q].path[..|t[i].path|];
      }
    }
  }

  /** Everything strictly below a non-root, non-trash inode is younger than it. */
  lemma {:induction false} DescendantsYounger(t: Tree, index: map<Path, Id>, next: Id, i: Id, j: Id)
    requires Linked(t) && Indexed(t, index, next) && Aged(t)
    requires i in t && j in t && i != j && !IsRoot(t, i) && !IsTrash(t, i)
    requires Under(t[j].path, t[i].path)
    ensures i < j
    decreases |t[j].path|
  {
    ParentUnder(t, index, next, i, j);
    assert NodeOk(t, j) && Older(t, j);
    var q := t[j].parent;
    if q == i {
    } else {
      if IsTrash(t, q) {
        // the only thing above a trash directory is a root
        ParentUnder(t, index, next, i, q);
        if t[q].parent != i { ParentUnder(t, index, next, i, t[q].parent); }
        assert false;
      }
      DescendantsYounger(t, index, next, i, q);
    }
  }

  /** If anything lives at or below `to`/name then `to` has a child of that name. */
  lemma {:induction false} OccupiedBy(t: Tree, index: map<Path, Id>, next: Id, to: Id, name: Name, j: Id) returns (c: Id)
    requires Linked(t) && Indexed(t, index, next) && to in t && j in t
    requires Under(t[j].path, t[to].path + [name])
    ensures c in t && c in t[to].children && t[c].name == name && t[c].path == t[to].path + [name]
    decreases |t[j].path|
  {
    var dst := t[to].path + [name];
    assert NodeOk(t, j);
    PathNonEmpty(t, to);
    var q := t[j].parent;
    assert !IsRoot(t, j);
    if t[j].path == dst {
      assert t[q].path == t[j].path[..|dst| - 1] == t[to].path;
      SamePath(t, index, next, q, to);
      c := j;
    } else {
      assert |dst| < |t[j].path|;
      assert t[j].path[..|dst|] == t[q].path[..|dst|];
      c := OccupiedBy(t, index, next, to, name, q);
    }
  }

  ghost predicate NameFree(t: Tree, d: Id, name: Name)
    requires d in t
  {
    forall c :: c in t[d].children && c in t ==> t[c].name != name
  }

  lemma FreeMeansVacant(t: Tree, index: map<Path, Id>, next: Id, d: Id, name: Name)
    requires Linked(t) && Indexed(t, index, next) && d in t && NameFree(t, d, name)
    ensures Vacant(index, t[d].path + [name])
  {
    forall p | p in index ensures !Under(p, t[d].path + [name]) {
      if Under(p, t[d].path + [name]) {
        var c := OccupiedBy(t, index, next, d, name, index[p]);
        assert false;
      }
    }
  }

  // ---------------------------------------------------------------- move

  function MovedNode(t: Tree, i: Id, to: Id, name: Name, j: Id): Inode
    requires i in t && to in t && j in t
  {
    var n := t[j];
    Inode(
      n.isDir,
      if j == i then name else n.name,
      Rebase(n.path, t[i].path, t[to].path + [name]),
      n.owner,
      if j == i then to else n.parent,
      (if j == t[i].parent then Without(n.children, i) else n.children) + (if j == to then [i] else []),
      n.size)
  }

  /** Re-parent `i` under `to` as `name`: names, links and the paths of the whole subtree. */
  function Moved(t: Tree, i: Id, to: Id, name: Name): Tree
    requires i in t && to in t
  {
    map j | j in t :: MovedNode(t, i, to, name, j)
  }

  ghost predicate CanMove(t: Tree, i: Id, to: Id) {
    && i in t && to in t
    && !IsRoot(t, i) && t[to].isDir
    && t[to].owner == t[i].owner
    && !Under(t[to].path, t[i].path)
  }

  lemma RebaseChild(p: Path, name: Name, src: Path, dst: Path)
    requires Under(p, src) <==> Under(p + [name], src)
    ensures Rebase(p + [name], src, dst) == Rebase(p, src, dst) + [name]
  {
    if Under(p, src) {
      assert (p + [name])[|src|..] == p[|src|..] + [name];
    }
  }

  lemma MovePath(t: Tree, index: map<Path, Id>, next: Id, i: Id, to: Id, name: Name, j: Id)
    requires Linked(t) && Indexed(t, index, next) && CanMove(t, i, to) && j in t && !IsRoot(t, j)
    ensures
      var n, up := MovedNode(t, i, to, name, j), if j == i then to else t[j].parent;
      up in t && n.parent == up && n.path == MovedNode(t, i, to, name, up).path + [n.name]
  {
    assert NodeOk(t, j);
    if j != i {
      ParentUnder(t, index, next, i, j);
      RebaseChild(t[t[j].parent].path, t[j].name, t[i].path, t[to].path + [name]);
    }
  }

  /** Child lists are exactly the inodes pointing back. */
  lemma ChildrenAre(t: Tree, j: Id)
    requires Linked(t) && j in t
    ensures forall c :: c in t[j].children <==> c in t && !IsRoot(t, c) && t[c].parent == j
  {
    assert NodeOk(t, j);
    forall c | c in t && !IsRoot(t, c) && t[c].parent == j ensures c in t[j].children {
      assert NodeOk(t, c);
    }
  }

  lemma MoveChildren(t: Tree, i: Id, to: Id, name: Name, j: Id)
    requires Linked(t) && CanMove(t, i, to) && j in t
    ensures
      var cs := MovedNode(t, i, to, name, j).children;
      && NoDup(cs)
      && (!t[j].isDir ==> cs == [])
      && forall c :: c in cs <==>
                     c in t && !IsRoot(t, c) && (if c == i then j == to else t[c].parent == j)
  {
    assert NodeOk(t, j);
    var base := if j == t[i].parent then Without(t[j].children, i) else t[j].children;
    WithoutMembers(t[j].children, i);
    WithoutNoDup(t[j].children, i);
    ChildrenAre(t, j);
    assert i !in base;
    assert NoDup(base);
  }

  lemma MoveLinked(t: Tree, index: map<Path, Id>, next: Id, i: Id, to: Id, name: Name)
    requires Linked(t) && Indexed(t, index, next) && CanMove(t, i, to)
    ensures Linked(Moved(t, i, to, name))
  {
    forall j | j in t ensures NodeOk(Moved(t, i, to, name), j) {
      MoveNodeOk(t, index, next, i, to, name, j);
    }
  }

  lemma MoveNodeOk(t: Tree, index: map<Path, Id>, next: Id, i: Id, to: Id, name: Name, j: Id)
    requires Linked(t) && Indexed(t, index, next) && CanMove(t, i, to) && j in t
    ensures NodeOk(Moved(t, i, to, name), j)
  {
    assert NodeOk(t, j);
    MoveChildren(t, i, to, name, j);
    if IsRoot(t, j) {
      ParentUnder(t, index, next, i, j);
    } else {
      MovePath(t, index, next, i, to, name, j);
      MoveChildren(t, i, to, name, if j == i then to else t[j].parent);
    }
  }

  lemma MoveIndexed(t: Tree, index: map<Path, Id>, next: Id, i: Id, to: Id, name: Name)
    requires Linked(t) && Indexed(t, index, next) && CanMove(t, i, to) && NameFree(t, to, name)
    ensures Indexed(Moved(t, i, to, name), RenamePrefix(index, t[i].path, t[to].path + [name]), next)
  {
    var t' := Moved(t, i, to, name);
    var src, dst := t[i].path, t[to].path + [name];
    var index' := RenamePrefix(index, src, dst);
    FreeMeansVacant(t, index, next, to, name);
    forall j | j in t' ensures t'[j].path in index' && index'[t'[j].path] == j {
      RenameKeeps(index, src, dst, t[j].path);
    }
    forall q | q in index' ensures index'[q] in t' && t'[index'[q]].path == q {
      var p := RenameOrigin(index, src, dst, q);
    }
  }

  lemma MoveAged(t: Tree, i: Id, to: Id, name: Name)
    requires Linked(t) && Aged(t) && CanMove(t, i, to) && !IsTrash(t, i)
    requires IsTrash(t, to) || to < i
    ensures Aged(Moved(t, i, to, name))
  {
    var t' := Moved(t, i, to, name);
    forall j | j in t' ensures Older(t', j) {
      assert Older(t, j);
    }
  }

  lemma MoveRooted(t: Tree, users: map<string, Id>, i: Id, to: Id, name: Name)
    requires Rooted(t, users) && CanMove(t, i, to)
    ensures Rooted(Moved(t, i, to, name), users)
  {
    var t' := Moved(t, i, to, name);
    assert forall j :: j in t' ==> (IsRoot(t', j) <==> IsRoot(t, j));
  }

  // ---------------------------------------------------------------- add

  /** A new empty inode `id` under directory `p`. */
  function Added(t: Tree, p: Id, id: Id, name: Name, isDir: bool): Tree
    requires p in t
  {
    t[p := t[p].(children := t[p].children + [id])]
     [id := Inode(isDir, name, t[p].path + [name], t[p].owner, p, [], 0)]
  }

  /** A new user root. */
  function AddedRoot(t: Tree, id: Id, user: string): Tree {
    t[id := Inode(true, user, [user], user, id, [], 0)]
  }

  lemma AddLinked(t: Tree, p: Id, id: Id, name: Name, isDir: bool)
    requires Linked(t) && p in t && t[p].isDir && id !in t
    ensures Linked(Added(t, p, id, name, isDir))
  {
    var t' := Added(t, p, id, name, isDir);
    assert NodeOk(t, p);
    forall j | j in t' ensures NodeOk(t', j) {
      if j != id {
        assert NodeOk(t, j);
        assert id !in t[j].children;
      }
    }
  }

  lemma AddIndexed(t: Tree, index: map<Path, Id>, p: Id, id: Id, name: Name, isDir: bool)
    requires Linked(t) && Indexed(t, index, id) && p in t && NameFree(t, p, name)
    ensures t[p].path + [name] !in index
    ensures Indexed(Added(t, p, id, name, isDir), index[t[p].path + [name] := id], id + 1)
  {
    FreeMeansVacant(t, index, id, p, name);
    assert Under(t[p].path + [name], t[p].path + [name]);
  }

  lemma AddAged(t: Tree, p: Id, id: Id, name: Name, isDir: bool)
    requires Linked(t) && Aged(t) && p in t && id !in t && p < id
    ensures Aged(Added(t, p, id, name, isDir))
  {
    var t' := Added(t, p, id, name, isDir);
    forall j | j in t' ensures Older(t', j) {
      if j != id {
        assert Older(t, j) && NodeOk(t, j) && NodeOk(t, t[j].parent);
      }
    }
  }

  lemma AddRooted(t: Tree, users: map<string, Id>, p: Id, id: Id, name: Name, isDir: bool)
    requires Rooted(t, users) && p in t && id !in t
    ensures Rooted(Added(t, p, id, name, isDir), users)
  {
    var t' := Added(t, p, id, name, isDir);
    assert forall j :: j in t ==> (IsRoot(t', j) <==> IsRoot(t, j)) && t'[j].name == t[j].name;
    assert !IsRoot(t', id);
  }

  lemma RootPathFresh(t: Tree, users: map<string, Id>, index: map<Path, Id>, next: Id, user: string)
    requires Linked(t) && Indexed(t, index, next) && Rooted(t, users) && user !in users
    ensures [user] !in index
  {
    if [user] in index {
      var j := index[[user]];
      assert NodeOk(t, j);
      PathNonEmpty(t, j);
      assert false;
    }
  }

  lemma AddRootIndexed(t: Tree, index: map<Path, Id>, id: Id, user: string)
    requires Indexed(t, index, id) && [user] !in index
    ensures Indexed(AddedRoot(t, id, user), index[[user] := id], id + 1)
  {
  }

  lemma AddRootRooted(t: Tree, users: map<string, Id>, id: Id, user: string)
    requires Rooted(t, users) && user !in users && id !in t
    ensures Rooted(AddedRoot(t, id, user), users[user := id])
  {
    var t' := AddedRoot(t, id, user);
    assert forall j :: j in t ==> t'[j] == t[j];
  }

  lemma AddRootLinked(t: Tree, id: Id, user: string)
    requires Linked(t) && Aged(t) && id !in t
    ensures Linked(AddedRoot(t, id, user)) && Aged(AddedRoot(t, id, user))
  {
    var t' := AddedRoot(t, id, user);
    forall j | j in t' ensures NodeOk(t', j) && Older(t', j) {
      if j != id {
        assert NodeOk(t, j) && Older(t, j) && NodeOk(t, t[j].parent);
      }
    }
  }

  // ---------------------------------------------------------------- resize

  /** `t'` differs from `t` in sizes only. */
  ghost predicate SameShape(t: Tree, t': Tree) {
    && t.Keys == t'.Keys
    && forall i :: i in t ==> t'[i] == t[i].(size := t'[i].size)
  }

  lemma ShapeKeeps(t: Tree, t': Tree, users: map<string, Id>, index: map<Path, Id>, next: Id)
    requires SameShape(t, t')
    ensures Linked(t) ==> Linked(t')
    ensures Rooted(t, users) ==> Rooted(t', users)
    ensures Indexed(t, index, next) ==> Indexed(t', index, next)
    ensures Aged(t) ==> Aged(t')
  {
    if Linked(t) {
      forall i | i in t' ensures NodeOk(t', i) { assert NodeOk(t, i); }
    }
    if Aged(t) {
      forall i | i in t' ensures Older(t', i) { assert Older(t, i); }
    }
  }

  /** Add `d` to `i` and to everything above it. */
  function Grown(t: Tree, i: Id, d: nat): Tree
    requires i in t
  {
    map j | j in t :: if Under(t[i].path, t[j].path) then t[j].(size := t[j].size + d) else t[j]
  }

  // ---------------------------------------------------------------- drop

  function Less(size: nat, d: nat): nat {
    if size >= d then size - d else 0
  }

  /** Remove the subtree at `i`: unlink it and charge its size to everything above. */
  function Dropped(t: Tree, i: Id): Tree
    requires i in t
  {
    map j | j in t && !Under(t[j].path, t[i].path) ::
      t[j].(children := if j == t[i].parent then Without(t[j].children, i) else t[j].children,
            size := if Under(t[i].path, t[j].path) then Less(t[j].size, t[i].size) else t[j].size)
  }

  lemma DropLinked(t: Tree, index: map<Path, Id>, next: Id, i: Id)
    requires Linked(t) && Indexed(t, index, next) && i in t && !IsRoot(t, i)
    ensures Linked(Dropped(t, i))
  {
    var t' := Dropped(t, i);
    assert NodeOk(t, i);
    forall j | j in t' ensures NodeOk(t', j) {
      assert Under(t[i].path, t[i].path);
      assert NodeOk(t, j);
      if !IsRoot(t, j) { ParentUnder(t, index, next, i, j); }
      WithoutMembers(t[j].children, i);
      WithoutNoDup(t[j].children, i);
      WithoutMembers(t[t[j].parent].children, i);
      forall c | c in t'[j].children ensures c in t' && t'[c].parent == j && c != j {
        assert NodeOk(t, c);
        assert c != i;
        ParentUnder(t, index, next, i, c);
      }
    }
  }

  function IndexWithout<V>(index: map<Path, V>, base: Path): map<Path, V> {
    map p | p in index && !Under(p, base) :: index[p]
  }

  lemma DropIndexed(t: Tree, index: map<Path, Id>, next: Id, i: Id)
    requires Indexed(t, index, next) && i in t
    ensures Indexed(Dropped(t, i), IndexWithout(index, t[i].path), next)
  {
  }

  lemma DropRooted(t: Tree, users: map<string, Id>, index: map<Path, Id>, next: Id, i: Id)
    requires Linked(t) && Indexed(t, index, next) && Rooted(t, users) && i in t && !IsRoot(t, i)
    ensures Rooted(Dropped(t, i), users)
  {
    var t' := Dropped(t, i);
    forall j | j in t && IsRoot(t, j) ensures j in t' { ParentUnder(t, index, next, i, j); }
    assert forall j :: j in t' ==> IsRoot(t', j) == IsRoot(t, j) && t'[j].name == t[j].name;
  }

  lemma DropKeepsParent(t: Tree, index: map<Path, Id>, next: Id, i: Id, j: Id)
    requires Linked(t) && Indexed(t, index, next) && i in t && j in t && !Under(t[j].path, t[i].path)
    ensures t[j].parent in t && !Under(t[t[j].parent].path, t[i].path)
  {
    assert NodeOk(t, j);
    if i != j { ParentUnder(t, index, next, i, j); }
  }

  lemma DropAged(t: Tree, index: map<Path, Id>, next: Id, i: Id)
    requires Linked(t) && Indexed(t, index, next) && Aged(t) && i in t && !IsRoot(t, i)
    ensures Aged(Dropped(t, i))
  {
    var t' := Dropped(t, i);
    forall j | j in t' ensures Older(t', j) {
      assert Older(t, j);
      DropKeepsParent(t, index, next, i, j);
      DropKeepsParent(t, index, next, i, t[j].parent);
      DropKeepsTrash(t, i, t[j].parent);
    }
  }

  lemma DropKeepsTrash(t: Tree, i: Id, q: Id)
    requires i in t && q in Dropped(t, i) && t[q].parent in Dropped(t, i)
    ensures IsTrash(Dropped(t, i), q) <==> IsTrash(t, q)
  {
  }
}
