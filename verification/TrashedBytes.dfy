/**
What deleting from the trash leaves behind: the bytes of a file that was trashed and then
deleted stay counted in every directory between the user's root and the place it left.
*/
module TrashedBytes {
  import opened Options
  import opened Paths
  import opened InodeTree
  import opened FileOps
  import opened FileSafety
  import opened FileSizes
  import opened RoundTrip

  const OK := Io(true, true, true)

  /** The inode `j` after `n` bytes were written to the file `c`, `c` was moved to the trash `tr` and deleted there. */
  function Haunted(t: Tree, c: Id, tr: Id, n: nat, j: Id): Inode
    requires c in t && tr in t && j in t
  {
    t[j].(children := if j == t[c].parent then Without(t[j].children, c) else t[j].children,
          size := Less(t[j].size + (if Under(t[c].path, t[j].path) then n else 0),
                       if Under(t[tr].path, t[j].path) then n else 0))
  }

  lemma GoneTree(t: Tree, index: map<Path, Id>, next: Id, c: Id, tr: Id, name: Name, n: nat, j: Id)
    requires Linked(t) && Indexed(t, index, next) && CanMove(t, c, tr) && NameFree(t, tr, name) && !t[c].isDir && t[c].size == 0 && t[c].parent != tr
    requires j in t && !IsRoot(t, c)
    ensures
      var t3 := Dropped(Moved(Grown(t, c, n), c, tr, name), c);
      (j in t3 <==> j != c) && (j != c ==> t3[j] == Haunted(t, c, tr, n, j))
  {
    hide Grown, Moved, Dropped, Haunted, NameFree;
    GoneFacts(t, index, next, c, tr, name, j);
    GoneNode(t, c, tr, name, n, j);
  }

  lemma GoneFacts(t: Tree, index: map<Path, Id>, next: Id, c: Id, tr: Id, name: Name, j: Id)
    requires Linked(t) && Indexed(t, index, next) && CanMove(t, c, tr) && NameFree(t, tr, name) && !t[c].isDir && t[c].parent != tr && j in t
    ensures Without(t[tr].children + [c], c) == t[tr].children && t[c].parent != c
    ensures j != c ==> !Under(t[j].path, t[c].path) && !Under(t[j].path, t[tr].path + [name])
  {
    FreeMeansVacant(t, index, next, tr, name);
    assert t[j].path in index;
    assert NodeOk(t, tr) && NodeOk(t, c);
    WithoutAppended(t[tr].children, c);
    if j != c && Under(t[j].path, t[c].path) { FilesAreLeaves(t, index, next, j, c); }
  }

  lemma GoneNode(t: Tree, c: Id, tr: Id, name: Name, n: nat, j: Id)
    requires c in t && tr in t && j in t && t[c].size == 0 && t[c].parent != tr && t[c].parent != c && tr != c
    requires Without(t[tr].children + [c], c) == t[tr].children
    requires j != c ==> !Under(t[j].path, t[c].path) && !Under(t[j].path, t[tr].path + [name])
    ensures
      var t3 := Dropped(Moved(Grown(t, c, n), c, tr, name), c);
      (j in t3 <==> j != c) && (j != c ==> t3[j] == Haunted(t, c, tr, n, j))
  {
    hide Grown, Moved, Dropped, Without, Rebase;
    MovedFileNode(t, c, tr, name, n);
    var t2 := Moved(Grown(t, c, n), c, tr, name);
    if j == c {
      DroppedItself(t2, c);
    } else {
      MovedOtherNode(t, c, tr, name, n, j);
      InTrash(t[tr].path, name, t[j].path);
      DroppedNode(t2, c, j);
    }
  }

  lemma MovedFileNode(t: Tree, c: Id, tr: Id, name: Name, n: nat)
    requires c in t && tr in t && t[c].size == 0 && tr != c
    ensures
      c in Grown(t, c, n) && tr in Grown(t, c, n)
      && var t2 := Moved(Grown(t, c, n), c, tr, name);
      c in t2 && t2[c].path == t[tr].path + [name] && t2[c].size == n && t2[c].parent == tr
  {
    var dst := t[tr].path + [name];
    assert Rebase(t[c].path, t[c].path, dst) == dst;
  }

  lemma MovedOtherNode(t: Tree, c: Id, tr: Id, name: Name, n: nat, j: Id)
    requires c in t && tr in t && j in t && tr != c && j != c && !Under(t[j].path, t[c].path) && t[c].parent != tr
    ensures
      c in Grown(t, c, n) && tr in Grown(t, c, n)
      && var t2 := Moved(Grown(t, c, n), c, tr, name);
      && j in t2 && t2[j].path == t[j].path
      && t2[j] == t[j].(size := t[j].size + (if Under(t[c].path, t[j].path) then n else 0), children := t2[j].children)
      && t2[j].children == if j == t[c].parent then Without(t[j].children, c) else if j == tr then t[j].children + [c] else t[j].children
  {
  }

  lemma DroppedItself(t: Tree, c: Id)
    requires c in t
    ensures c !in Dropped(t, c)
  {
  }

  lemma InTrash(p: Path, name: Name, q: Path)
    requires !Under(q, p + [name])
    ensures Under(p + [name], q) <==> Under(p, q)
  {
    if Under(p + [name], q) { BelowChild(p, name, q); }
  }

  lemma DroppedNode(t: Tree, c: Id, j: Id)
    requires c in t && j in t && !Under(t[j].path, t[c].path)
    ensures j in Dropped(t, c)
    ensures Dropped(t, c)[j] ==
      t[j].(children := if j == t[c].parent then Without(t[j].children, c) else t[j].children,
            size := if Under(t[c].path, t[j].path) then Less(t[j].size, t[c].size) else t[j].size)
  {
  }

  lemma BelowChild(p: Path, name: Name, q: Path)
    requires Under(p + [name], q)
    ensures q == p + [name] || Under(p, q)
  {
    if |q| <= |p| {
      assert q == (p + [name])[..|q|] == p[..|q|];
    } else {
      assert q == (p + [name])[..|p| + 1];
    }
  }

  /** An empty file with room for `n` bytes and a free name in its owner's trash. */
  ghost predicate CanCycle(s: FS, p: Id, name: Name, c: Id, n: nat, user: string, tr: Id) {
    && WF(s) && p in s.inodes && s.inodes[p].isDir && FindChild(s.inodes, s.inodes[p].children, name) == Some(c)
    && !s.inodes[c].isDir && s.inodes[c].size == 0 && s.inodes[c].path in s.disk && s.disk[s.inodes[c].path] == File(0)
    && s.inodes[c].owner == user && TrashOf(s, user, tr) && p != tr && NameFree(s.inodes, tr, name)
    && 0 < n <= MAX_INT64 && Fits(s.inodes, c, n)
    && var root := s.inodes[RootOf(s.inodes, c)];
    !OverQuota(root.size, QuotaOf(s.quotas, root.name), n)
  }

  lemma CycleFile(s: FS, p: Id, name: Name, c: Id, n: nat, user: string, tr: Id)
    requires CanCycle(s, p, name, c, n, user, tr)
    ensures s.inodes[c].parent == p && s.inodes[c].name == name && !IsRoot(s.inodes, c) && !IsTrash(s.inodes, c)
    ensures CanMove(s.inodes, c, tr) && s.inodes[c].children == []
  {
    hide Rooted, Indexed, Aged, Founded, OnDisk, TrashOk, OverQuota, Fits, NameFree;
    assert NodeOk(s.inodes, p) && NodeOk(s.inodes, c);
    NoFileIsTrash(s, c, user, tr);
    TrashCanMove(s, c, user, tr);
  }

  lemma NoFileIsTrash(s: FS, c: Id, user: string, tr: Id)
    requires WF(s) && TrashOf(s, user, tr) && c in s.inodes && !s.inodes[c].isDir && s.inodes[c].owner == user
    ensures !IsTrash(s.inodes, c)
  {
    hide Rooted, Indexed, Aged, Founded, OnDisk, TrashOk;
    if IsTrash(s.inodes, c) { TrashUnique(s, c, tr); assert false; }
  }

  lemma CycleWrites(s: FS, p: Id, name: Name, c: Id, n: nat, user: string, tr: Id) returns (s1: FS)
    requires CanCycle(s, p, name, c, n, user, tr)
    ensures Write(s, p, name, 0, n, true, OK) == (s1, Done) && WF(s1)
    ensures s1 == s.(inodes := Grown(s.inodes, c, n), disk := s.disk[s.inodes[c].path := File(n)])
  {
    hide WF, NameFree, TrashOf, RootOf, QuotaOf, OverQuota, Fits;
    s1 := WriteAt(s, c, 0, n, n);
    DiffExact(0, 0, n);
    ResizedIsGrown(s.inodes, c, n);
    WriteAtWF(s, c, 0, n, n);
  }

  lemma GrownShape(t: Tree, c: Id, n: nat)
    requires c in t
    ensures SameShape(t, Grown(t, c, n)) && Grown(t, c, n)[c].size == t[c].size + n
  {
  }

  lemma CycleTrashes(s: FS, c: Id, n: nat, user: string, tr: Id) returns (s2: FS)
    requires WF(s) && c in s.inodes && TrashOf(s, user, tr) && s.inodes[c].owner == user && !IsRoot(s.inodes, c) && !IsTrash(s.inodes, c)
    requires s.inodes[c].parent != tr && s.inodes[c].children == [] && NameFree(s.inodes, tr, s.inodes[c].name) && Refresh(s, c) == s
    ensures Trash(s, c, user, false, OK) == (s2, Placed(s.inodes[c].name)) && s2 == TrashMove(s, c, tr, s.inodes[c].name)
    ensures WF(s2) && TrashNameFree(s, c, user) && Refresh(s2, c) == s2 && TrashOf(s2, user, tr)
  {
    hide WF, Refresh, TrashMove, NameFree, EnsureTrash;
    s2 := TrashMove(s, c, tr, s.inodes[c].name);
    GuardAdmits(s, c, user);
    TrashFound(s, user, tr, OK);
    FreeIsPicked(s.inodes, tr, s.inodes[c].name, c);
    TrashMoveWF(s, c, user, tr, s.inodes[c].name);
    TrashCanMove(s, c, user, tr);
    MoveKeepsRefreshed(s, c, tr, s.inodes[c].name);
    MovedTrashOf(s, c, user, tr, s.inodes[c].name);
    forall x | TrashOf(s, user, x) ensures x == tr { TrashUnique(s, x, tr); }
  }

  lemma MoveKeepsRefreshed(s: FS, c: Id, tr: Id, name: Name)
    requires WF(s) && CanMove(s.inodes, c, tr) && NameFree(s.inodes, tr, name) && Refresh(s, c) == s
    ensures Refresh(TrashMove(s, c, tr, name), c) == TrashMove(s, c, tr, name)
  {
    hide Linked, Indexed, OnDisk, NameFree, CanMove, Refresh, TrashMove;
    RefreshAfterMove(s, c, tr, name);
  }

  lemma FreeIsPicked(t: Tree, d: Id, name: Name, i: Id)
    requires d in t && NameFree(t, d, name)
    ensures UniqueName(t, d, name, i) == name
  {
  }

  lemma GuardAdmits(s: FS, c: Id, user: string)
    requires WF(s) && c in s.inodes && s.inodes[c].owner == user && !IsRoot(s.inodes, c) && !IsTrash(s.inodes, c) && s.inodes[c].children == []
    ensures Guard(s, c, user, false).None?
  {
    assert NodeOk(s.inodes, c);
  }

  lemma CycleDeletes(s: FS, c: Id, user: string) returns (s3: FS)
    requires WF(s) && c in s.inodes && s.inodes[c].owner == user && !IsRoot(s.inodes, c) && !IsTrash(s.inodes, c) && s.inodes[c].children == []
    requires Refresh(s, c) == s
    ensures Delete(s, c, user, false, OK) == (s3, Done) && s3 == DropNode(s, c) && WF(s3)
  {
    hide WF, Refresh, Guard;
    s3 := DropNode(s, c);
    GuardAdmits(s, c, user);
    DropNodeWF(s, c);
  }

  lemma CycleDisk(s: FS, c: Id, tr: Id, name: Name, n: nat, q: Path)
    requires WF(s) && CanMove(s.inodes, c, tr) && !s.inodes[c].isDir && NameFree(s.inodes, tr, name) && q in s.disk && q != s.inodes[c].path
    ensures
      var src, dst := s.inodes[c].path, s.inodes[tr].path + [name];
      var disk := IndexWithout(RenamePrefix(s.disk[src := File(n)], src, dst), dst);
      q in disk && disk[q] == s.disk[q]
  {
    hide Rooted, Aged, Founded, TrashOk, RenamePrefix;
    var t, src, dst := s.inodes, s.inodes[c].path, s.inodes[tr].path + [name];
    FreeMeansVacant(t, s.index, s.next, tr, name);
    var j := s.index[q];
    if Under(q, src) { FilesAreLeaves(t, s.index, s.next, j, c); }
    assert src in s.disk.Keys;
    RenameKeeps(s.disk[src := File(n)], src, dst, q);
  }

  /** `s'` is `s` without the file `c`, but every directory between the root and the place it left has `n` bytes more. */
  ghost predicate Leaves(s: FS, s': FS, c: Id, tr: Id, n: nat) {
    && c in s.inodes && tr in s.inodes && s'.inodes.Keys == s.inodes.Keys - {c} && s'.users == s.users && s'.quotas == s.quotas
    && s'.disk == s.disk - {s.inodes[c].path}
    && forall j :: j in s'.inodes ==> s'.inodes[j] == Haunted(s.inodes, c, tr, n, j)
  }

  lemma CycleLeaves(s: FS, c: Id, tr: Id, name: Name, n: nat, s': FS)
    requires WF(s) && CanMove(s.inodes, c, tr) && !s.inodes[c].isDir && s.inodes[c].size == 0 && s.inodes[c].parent != tr
    requires NameFree(s.inodes, tr, name) && WF(s') && s'.users == s.users && s'.quotas == s.quotas
    requires s'.inodes == Dropped(Moved(Grown(s.inodes, c, n), c, tr, name), c)
    requires var src, dst := s.inodes[c].path, s.inodes[tr].path + [name];
      s'.disk == IndexWithout(RenamePrefix(s.disk[src := File(n)], src, dst), dst)
    ensures Leaves(s, s', c, tr, n)
  {
    hide Rooted, Aged, Founded, TrashOk, RenamePrefix, NameFree, Dropped, Moved, IndexWithout, OnDisk;
    forall j | j in s.inodes ensures (j in s'.inodes <==> j != c) && (j != c ==> s'.inodes[j] == Haunted(s.inodes, c, tr, n, j)) {
      GoneTree(s.inodes, s.index, s.next, c, tr, name, n, j);
    }
    KeysShrink(s.inodes, c, tr, name, n);
    forall q | q in s.disk && q != s.inodes[c].path ensures q in s'.disk && s'.disk[q] == s.disk[q] { CycleDisk(s, c, tr, name, n, q); }
    LeftOnDisk(s, s', c);
  }

  lemma LeftOnDisk(s: FS, s': FS, c: Id)
    requires WF(s) && WF(s') && c in s.inodes && s'.inodes.Keys == s.inodes.Keys - {c}
    requires forall j :: j in s'.inodes ==> s'.inodes[j].path == s.inodes[j].path
    requires forall q :: q in s.disk && q != s.inodes[c].path ==> q in s'.disk && s'.disk[q] == s.disk[q]
    ensures s'.disk == s.disk - {s.inodes[c].path}
  {
    hide Linked, Rooted, Aged, Founded, TrashOk;
    forall q | q in s'.disk ensures q in s.disk && q != s.inodes[c].path {
      var j := s'.index[q];
      assert s'.inodes[j].path == q && s.inodes[j].path in s.index;
    }
  }

  lemma KeysShrink(t: Tree, c: Id, tr: Id, name: Name, n: nat)
    requires c in t && tr in t
    ensures Dropped(Moved(Grown(t, c, n), c, tr, name), c).Keys <= t.Keys
  {
  }

  /** Writing `n` bytes to a file, trashing it and deleting it from the trash takes the file away, but its bytes stay
      counted in every directory between the user's root and the place it left, for good. */
  lemma CycleHaunts(s: FS, p: Id, name: Name, c: Id, n: nat, user: string, tr: Id) returns (s1: FS, s2: FS, s3: FS)
    requires CanCycle(s, p, name, c, n, user, tr)
    ensures Write(s, p, name, 0, n, true, OK) == (s1, Done) && WF(s1)
    ensures c in s1.inodes && TrashNameFree(s1, c, user) && Trash(s1, c, user, false, OK) == (s2, Placed(name)) && WF(s2)
    ensures Delete(s2, c, user, false, OK) == (s3, Done) && WF(s3)
    ensures Leaves(s, s3, c, tr, n)
  {
    hide WF, NameFree, TrashOf, RootOf, QuotaOf, OverQuota, Fits, Write, Trash, Delete, Grown, Leaves, IsTrash, TrashNameFree, Dropped, Moved, RenamePrefix, IndexWithout;
    CycleFile(s, p, name, c, n, user, tr);
    s1 := CycleWrites(s, p, name, c, n, user, tr);
    GrownFacts(s, s1, c, n, user, tr, name);
    s2 := CycleTrashes(s1, c, n, user, tr);
    MovedFile(s1, s2, c, user, tr, name);
    s3 := CycleDeletes(s2, c, user);
    CycleLeaves(s, c, tr, name, n, s3);
  }

  lemma GrownFacts(s: FS, s1: FS, c: Id, n: nat, user: string, tr: Id, name: Name)
    requires WF(s) && c in s.inodes && TrashOf(s, user, tr) && NameFree(s.inodes, tr, name) && s.inodes[c].size == 0 && !s.inodes[c].isDir
    requires !IsTrash(s.inodes, c) && !IsRoot(s.inodes, c)
    requires s1 == s.(inodes := Grown(s.inodes, c, n), disk := s.disk[s.inodes[c].path := File(n)])
    ensures c in s1.inodes && s1.inodes[c] == s.inodes[c].(size := n) && TrashOf(s1, user, tr) && NameFree(s1.inodes, tr, name)
    ensures !IsTrash(s1.inodes, c) && !IsRoot(s1.inodes, c) && Refresh(s1, c) == s1 && s1.inodes[tr].path == s.inodes[tr].path
  {
    hide Aged, Founded, OnDisk, TrashOk, Indexed, Rooted;
    GrownShape(s.inodes, c, n);
    assert NodeOk(s.inodes, c);
    assert s1.inodes[c := s1.inodes[c]] == s1.inodes;
  }

  lemma MovedFile(s1: FS, s2: FS, c: Id, user: string, tr: Id, name: Name)
    requires WF(s1) && WF(s2) && c in s1.inodes && TrashOf(s1, user, tr) && s1.inodes[c].owner == user && s2 == TrashMove(s1, c, tr, name)
    requires !s1.inodes[c].isDir && s1.inodes[c].children == [] && s1.inodes[c].parent != tr && tr != c && TrashOf(s2, user, tr)
    ensures c in s2.inodes && s2.inodes[c].owner == user && s2.inodes[c].children == [] && !IsRoot(s2.inodes, c) && !IsTrash(s2.inodes, c)
    ensures s2.inodes[c].path == s1.inodes[tr].path + [name]
  {
    hide Aged, Founded, OnDisk, TrashOk, Indexed, Rooted;
    assert Rebase(s1.inodes[c].path, s1.inodes[c].path, s1.inodes[tr].path + [name]) == s1.inodes[tr].path + [name];
    assert NodeOk(s1.inodes, c) && NodeOk(s1.inodes, tr);
    assert s2.inodes[c].children == [];
    NoFileIsTrash(s2, c, user, tr);
  }
}
