/**
Restoring at the end of a run: calls that keep away from a trashed subtree leave it
as it was, and share lists stay distinct, so it comes back as the trash found it.
*/
module TrashRuns {
  import opened Options
  import opened Paths
  import opened InodeTree
  import opened FileOps
  import opened FileSafety
  import opened FileRuns
  import opened Rescan
  import opened RoundTrip
  import opened Shelf

  // ---------------------------------------------------------------- edits elsewhere

  lemma StillMade(s: FS, s': FS, i: Id)
    requires i in s.inodes && i in s'.inodes && s'.inodes[i].path == s.inodes[i].path
    requires i in s.trash ==> i in s'.trash && s'.trash[i] == s.trash[i]
    requires forall j :: j in s.inodes && Under(s.inodes[j].path, s.inodes[i].path) ==> StillNode(s, s', j)
    requires forall j :: j in s'.inodes && Under(s'.inodes[j].path, s.inodes[i].path) ==> j in s.inodes && Under(s.inodes[j].path, s.inodes[i].path)
    ensures Still(s, s', i)
  {
    forall j | Inside(s.inodes, j, i) ensures Inside(s'.inodes, j, i) && StillNode(s, s', j) { assert StillNode(s, s', j); }
  }

  lemma EntryHere(s: FS, j: Id)
    requires WF(s) && j in s.inodes
    ensures s.inodes[j].path in s.index && s.inodes[j].path in s.disk && s.index[s.inodes[j].path] == j
  {
  }

  lemma StillReflexive(s: FS, i: Id)
    requires WF(s) && i in s.inodes
    ensures Still(s, s, i)
  {
    hide WF;
    forall j | Inside(s.inodes, j, i) ensures StillNode(s, s, j) { EntryHere(s, j); }
  }

  /** A lookup outside the subtree. */
  lemma RefreshStill(s: FS, j: Id, i: Id)
    requires WF(s) && j in s.inodes && i in s.inodes && !Inside(s.inodes, j, i)
    ensures Still(s, Refresh(s, j), i) && WF(Refresh(s, j)) && j in Refresh(s, j).inodes && !Inside(Refresh(s, j).inodes, j, i)
  {
    hide WF;
    RefreshWF(s, j);
    forall k | k in s.inodes && Under(s.inodes[k].path, s.inodes[i].path) ensures StillNode(s, Refresh(s, j), k) { EntryHere(s, k); }
    InsideItself(s.inodes, i);
    StillMade(s, Refresh(s, j), i);
  }

  /** A new inode outside the subtree. */
  lemma AddStill(s: FS, p: Id, name: Name, isDir: bool, i: Id)
    requires WF(s) && p in s.inodes && i in s.inodes && !Inside(s.inodes, p, i) && NameFree(s.inodes, p, name)
    ensures Still(s, AddNode(s, p, name, isDir), i)
  {
    var s', path := AddNode(s, p, name, isDir), s.inodes[p].path + [name];
    FreeMeansVacant(s.inodes, s.index, s.next, p, name);
    EntryHere(s, i);
    OutsideChild(s.inodes[p].path, name, s.inodes[i].path);
    forall k | k in s.inodes && Under(s.inodes[k].path, s.inodes[i].path) ensures StillNode(s, s', k) { EntryHere(s, k); }
    StillMade(s, s', i);
  }

  lemma OutsideChild(p: Path, name: Name, base: Path)
    requires !Under(p, base)
    ensures Under(p + [name], base) ==> base == p + [name]
  {
  }

  /** A new user's root. */
  lemma NewRootStill(s: FS, user: string, i: Id)
    requires WF(s) && i in s.inodes && !IsRoot(s.inodes, i) && user !in s.users
    ensures Still(s, NewRoot(s, user), i)
  {
    hide Aged, Founded, OnDisk, TrashOk;
    var s' := NewRoot(s, user);
    PathNonEmpty(s.inodes, i);
    RootPathFresh(s.inodes, s.users, s.index, s.next, user);
    forall k | k in s.inodes && Under(s.inodes[k].path, s.inodes[i].path) ensures StillNode(s, s', k) { EntryHere(s, k); }
    StillMade(s, s', i);
  }

  /** Making sure of a trash directory. */
  lemma EnsureTrashStill(s: FS, user: string, io: Io, i: Id)
    requires WF(s) && i in s.inodes && !IsRoot(s.inodes, i)
    ensures Still(s, EnsureTrash(s, user, io).0, i)
  {
    hide Aged, Founded, OnDisk, TrashOk, AddNode;
    StillReflexive(s, i);
    if user in s.users {
      var root := s.users[user];
      ParentUnder(s.inodes, s.index, s.next, i, root);
      if FindChild(s.inodes, s.inodes[root].children, TRASH_DIR).None? { AddStill(s, root, TRASH_DIR, true, i); }
    }
  }

  /** Two inodes neither of which lies inside the other share no descendant. */
  ghost predicate Apart(t: Tree, j: Id, i: Id) {
    !Inside(t, j, i) && !Inside(t, i, j)
  }

  /** Only a trash directory and a root lie above a trashed inode. */
  lemma NotAboveTrashed(s: FS, j: Id, i: Id)
    requires WF(s) && i in s.trash && j in s.inodes && !IsRoot(s.inodes, j) && !IsTrash(s.inodes, j) && !Inside(s.inodes, j, i)
    ensures i in s.inodes && Apart(s.inodes, j, i)
  {
    hide Aged, Founded, OnDisk, Rooted;
    var t := s.inodes;
    TrashEntryHolds(s, i);
    InsideItself(t, i);
    if Inside(t, i, j) {
      var tr := t[i].parent;
      ParentUnder(t, s.index, s.next, j, i);
      ParentUnder(t, s.index, s.next, j, tr);
      ParentUnder(t, s.index, s.next, j, t[tr].parent);
      assert false;
    }
  }

  /** Moving something else, and not into the subtree. */
  lemma MoveStillNode(s: FS, j: Id, to: Id, name: Name, i: Id, k: Id)
    requires WF(s) && CanMove(s.inodes, j, to) && NameFree(s.inodes, to, name) && i in s.inodes
    requires Apart(s.inodes, j, i) && !Inside(s.inodes, to, i) && Inside(s.inodes, k, i)
    ensures StillNode(s, MoveNode(s, j, to, name), k)
  {
    hide Aged, Founded, OnDisk, Rooted, RenamePrefix, TrashOk;
    var t, dst := s.inodes, s.inodes[to].path + [name];
    FreeMeansVacant(t, s.index, s.next, to, name);
    DiskIsIndex(s);
    EntryHere(s, k);
    RenameKeeps(s.disk, t[j].path, dst, t[k].path);
    if Under(t[k].path, t[j].path) { BothUnder(t[k].path, t[i].path, t[j].path); }
    ParentUnder(t, s.index, s.next, i, j);
    assert NodeOk(t, j);
  }

  lemma DiskIsIndex(s: FS)
    requires WF(s)
    ensures s.disk.Keys == s.index.Keys
  {
  }

  /** ... and nothing comes to lie inside it. */
  lemma MoveNotInto(s: FS, j: Id, to: Id, name: Name, i: Id, k: Id)
    requires WF(s) && CanMove(s.inodes, j, to) && NameFree(s.inodes, to, name) && i in s.inodes
    requires Apart(s.inodes, j, i) && !Inside(s.inodes, to, i) && k in s.inodes
    ensures Under(Moved(s.inodes, j, to, name)[k].path, s.inodes[i].path) ==> Inside(s.inodes, k, i)
  {
    hide Aged, Founded, OnDisk, Rooted, TrashOk;
    var t, dst := s.inodes, s.inodes[to].path + [name];
    FreeMeansVacant(t, s.index, s.next, to, name);
    EntryHere(s, i);
    OutsideChild(t[to].path, name, t[i].path);
    if Under(t[k].path, t[j].path) && Under(dst + t[k].path[|t[j].path|..], t[i].path) {
      BothUnder(dst + t[k].path[|t[j].path|..], dst, t[i].path);
    }
  }

  lemma MoveStill(s: FS, j: Id, to: Id, name: Name, i: Id, s': FS)
    requires WF(s) && CanMove(s.inodes, j, to) && NameFree(s.inodes, to, name) && i in s.inodes && i != j
    requires Apart(s.inodes, j, i) && !Inside(s.inodes, to, i)
    requires s' == MoveNode(s, j, to, name).(trash := s'.trash, shared := s'.shared)
    requires i in s.trash ==> i in s'.trash && s'.trash[i] == s.trash[i]
    ensures Still(s, s', i)
  {
    hide WF, CanMove, NameFree, Apart, Rebase, RenamePrefix;
    InsideItself(s.inodes, i);
    MoveStillNode(s, j, to, name, i, i);
    forall k | k in s.inodes && Under(s.inodes[k].path, s.inodes[i].path) ensures StillNode(s, s', k) {
      MoveStillNode(s, j, to, name, i, k);
    }
    forall k | k in s'.inodes && Under(s'.inodes[k].path, s.inodes[i].path) ensures k in s.inodes && Under(s.inodes[k].path, s.inodes[i].path) {
      MoveNotInto(s, j, to, name, i, k);
    }
    StillMade(s, s', i);
  }

  /** Deleting something else. */
  lemma DropStill(s: FS, j: Id, i: Id)
    requires WF(s) && j in s.inodes && !IsRoot(s.inodes, j) && i in s.inodes && Apart(s.inodes, j, i)
    ensures Still(s, DropNode(s, j), i)
  {
    hide Aged, Founded, OnDisk, Rooted, TrashOk;
    var t, s' := s.inodes, DropNode(s, j);
    InsideItself(t, i);
    ParentUnder(t, s.index, s.next, i, j);
    assert NodeOk(t, j);
    forall k | k in t && Under(t[k].path, t[i].path) ensures StillNode(s, s', k) {
      EntryHere(s, k);
      if Under(t[k].path, t[j].path) { BothUnder(t[k].path, t[i].path, t[j].path); }
    }
    assert StillNode(s, s', i);
    StillMade(s, s', i);
  }

  /** Writing to something else. */
  lemma WriteStill(s: FS, c: Id, offset: nat, len: nat, diff: int, i: Id)
    requires WF(s) && c in s.inodes && i in s.inodes && !Inside(s.inodes, c, i)
    ensures Still(s, WriteAt(s, c, offset, len, diff), i)
  {
    hide WF, NewSize;
    var t, s' := s.inodes, WriteAt(s, c, offset, len, diff);
    forall k | k in t && Under(t[k].path, t[i].path) ensures StillNode(s, s', k) { EntryHere(s, k); }
    StillMade(s, s', i);
  }

  // ---------------------------------------------------------------- calls elsewhere

  /** The call looks up, changes, creates or restores nothing inside the subtree at `i`. */
  ghost predicate Aside(s: FS, op: Op, i: Id) {
    match op
    case OpOpen(_, _) => true
    case OpCreate(p, _, _, _, _) => !Inside(s.inodes, p, i)
    case OpTrash(j, _, _, _) => !Inside(s.inodes, j, i)
    case OpRestore(j, _, _, _) => !Inside(s.inodes, j, i) && (j in s.trash ==> !Inside(s.inodes, s.trash[j].parent, i))
    case OpDelete(j, _, _, _) => !Inside(s.inodes, j, i)
    case OpWrite(p, name, _, _, _, _) =>
      !Inside(s.inodes, p, i) && (p in s.inodes ==> FindChild(s.inodes, s.inodes[p].children, name) != Some(i))
    case OpSetQuota(_, _, _) => true
    case OpShare(j, _, _, _) => !Inside(s.inodes, j, i)
    case OpUnshare(j, _, _, _) => !Inside(s.inodes, j, i)
  }

  lemma TrashedNotRoot(s: FS, i: Id)
    requires WF(s) && i in s.trash
    ensures i in s.inodes && !IsRoot(s.inodes, i)
  {
    TrashEntryHolds(s, i);
  }

  lemma OpenStill(s: FS, user: string, io: Io, i: Id)
    requires WF(s) && i in s.trash
    ensures Still(s, OpenRoot(s, user, io).0, i)
  {
    hide WF, EnsureTrash, NewRoot, Still, IsRoot;
    TrashedNotRoot(s, i);
    StillReflexive(s, i);
    EnsureTrashStill(s, user, io, i);
    if user !in s.users && io.act {
      var s0 := NewRoot(s, user);
      NewRootWF(s, user);
      NewRootStill(s, user, i);
      TrashStill(s, s0, i);
      EnsureTrashStill(s0, user, io, i);
      StillTrans(s, s0, EnsureTrash(s0, user, io).0, i);
    }
  }

  lemma TrashStill(s: FS, s': FS, i: Id)
    requires WF(s') && i in s.trash && Still(s, s', i)
    ensures i in s'.trash && i in s'.inodes && !IsRoot(s'.inodes, i)
    ensures forall j :: Inside(s'.inodes, j, i) <==> Inside(s.inodes, j, i)
  {
    hide WF;
    TrashedNotRoot(s', i);
  }

  lemma CreateStill(s: FS, p: Id, name: Name, user: string, isDir: bool, io: Io, i: Id)
    requires WF(s) && i in s.trash && !Inside(s.inodes, p, i)
    ensures Still(s, Create(s, p, name, user, isDir, io).0, i)
  {
    hide WF, EnsureTrash, AddNode, Still, IsRoot, ValidName, Under, Refresh, NameFree;
    TrashedNotRoot(s, i);
    StillReflexive(s, i);
    if p in s.inodes {
      RefreshStill(s, p, i);
      var s1 := EnsureTrash(s, user, io).0;
      EnsureTrashStill(s, user, io, i);
      EnsureTrashWF(s, user, io);
      TrashStill(s, s1, i);
      if FindChild(s.inodes, s.inodes[p].children, name).None? && !Reserved(name) {
        NoneIsFree(s.inodes, p, name);
        StillFree(s, user, io, p, name);
        AddStill(s1, p, name, isDir, i);
        StillTrans(s, s1, AddNode(s1, p, name, isDir), i);
      }
    }
  }

  lemma NoneIsFree(t: Tree, p: Id, name: Name)
    requires p in t && FindChild(t, t[p].children, name).None?
    ensures NameFree(t, p, name)
  {
  }

  lemma TrashMoveStill(s: FS, j: Id, user: string, tr: Id, name: Name, i: Id)
    requires WF(s) && i in s.trash && j in s.inodes && TrashOf(s, user, tr) && s.inodes[j].owner == user
    requires !IsRoot(s.inodes, j) && !IsTrash(s.inodes, j) && !Inside(s.inodes, j, i) && NameFree(s.inodes, tr, name)
    ensures Still(s, TrashMove(s, j, tr, name), i)
  {
    hide WF, NameFree, CanMove, MoveNode;
    TrashCanMove(s, j, user, tr);
    NotAboveTrashed(s, j, i);
    InsideItself(s.inodes, i);
    TrashNotInside(s, user, tr, i);
    MoveStill(s, j, tr, name, i, TrashMove(s, j, tr, name));
  }

  /** No trash directory lies inside a trashed inode. */
  lemma TrashNotInside(s: FS, user: string, tr: Id, i: Id)
    requires WF(s) && i in s.trash && TrashOf(s, user, tr)
    ensures !Inside(s.inodes, tr, i) && !Inside(s.inodes, s.users[user], i)
  {
    hide Aged, Founded, OnDisk;
    var t := s.inodes;
    TrashEntryHolds(s, i);
    assert NodeOk(t, i) && NodeOk(t, t[i].parent);
    ParentUnder(t, s.index, s.next, i, t[tr].parent);
    if tr != i { ParentUnder(t, s.index, s.next, i, tr); }
  }

  lemma CallTrashStill(s: FS, j: Id, user: string, recursive: bool, io: Io, i: Id)
    requires WF(s) && i in s.trash && !Inside(s.inodes, j, i) && (j in s.inodes ==> TrashNameFree(s, j, user))
    ensures Still(s, Trash(s, j, user, recursive, io).0, i)
  {
    hide WF, EnsureTrash, TrashMove, Still, IsRoot, Inside, Refresh, TrashNameFree, NameFree, UniqueName, TrashOf, Guard;
    TrashedNotRoot(s, i);
    StillReflexive(s, i);
    if j in s.inodes {
      var s0 := Refresh(s, j);
      RefreshStill(s, j, i);
      TrashStill(s, s0, i);
      var s1 := EnsureTrash(s0, user, io).0;
      EnsureTrashStill(s0, user, io, i);
      EnsureTrashWF(s0, user, io);
      TrashStill(s0, s1, i);
      StillTrans(s, s0, s1, i);
      if Trash(s, j, user, recursive, io).1.Placed? {
        TrashSucceeded(s, j, user, recursive, io);
        TrashNameAfterRefresh(s, j, user);
        FromFreshStill(s0, j, user, io, i);
        StillTrans(s, s1, Trash(s, j, user, recursive, io).0, i);
      }
    }
  }

  lemma FromFreshStill(s0: FS, j: Id, user: string, io: Io, i: Id)
    requires WF(s0) && i in s0.trash && j in s0.inodes && s0.inodes[j].owner == user && !Inside(s0.inodes, j, i)
    requires !IsRoot(s0.inodes, j) && !IsTrash(s0.inodes, j) && TrashNameFree(s0, j, user)
    requires EnsureTrash(s0, user, io).1.Some?
    ensures
      var (s1, tr) := EnsureTrash(s0, user, io);
      Still(s1, TrashMove(s1, j, tr.value, UniqueName(s1.inodes, tr.value, s1.inodes[j].name, j)), i)
  {
    hide WF, EnsureTrash, TrashMove, Inside, TrashNameFree, NameFree, UniqueName, TrashOf;
    var (s1, tr) := EnsureTrash(s0, user, io);
    EnsureTrashWF(s0, user, io);
    TrashedNotRoot(s0, i);
    EnsureTrashStill(s0, user, io, i);
    TrashNameNow(s0, j, user, io);
    ParentAlive(s0, j);
    ExtendsKind(s0, s1, j);
    TrashMoveStill(s1, j, user, tr.value, UniqueName(s1.inodes, tr.value, s1.inodes[j].name, j), i);
  }

  lemma ParentAlive(s: FS, j: Id)
    requires WF(s) && j in s.inodes
    ensures s.inodes[j].parent in s.inodes
  {
    assert NodeOk(s.inodes, j);
  }

  lemma RestoreMoveStill(s: FS, j: Id, user: string, tr: Id, name: Name, i: Id)
    requires WF(s) && i in s.trash && j in s.trash && j in s.inodes && TrashOf(s, user, tr) && s.inodes[j].parent == tr
    requires !Inside(s.inodes, j, i) && !Inside(s.inodes, s.trash[j].parent, i)
    requires RestoreTarget(s, j, user) in s.inodes && NameFree(s.inodes, RestoreTarget(s, j, user), name)
    ensures Still(s, RestoreMove(s, j, RestoreTarget(s, j, user), name), i)
  {
    hide WF, NameFree, MoveNode, Reattach, IsTrash;
    var to := RestoreTarget(s, j, user);
    RestoreCanMove(s, j, user, tr);
    NotAboveTrashed(s, j, i);
    InsideItself(s.inodes, i);
    TrashNotInside(s, user, tr, i);
    MoveStill(s, j, to, name, i, RestoreMove(s, j, to, name));
  }

  lemma CallRestoreStill(s: FS, j: Id, user: string, mayAccess: bool, io: Io, i: Id)
    requires WF(s) && i in s.trash && !Inside(s.inodes, j, i) && (j in s.trash ==> !Inside(s.inodes, s.trash[j].parent, i))
    requires j in s.trash && user in s.users && s.users[user] in s.inodes ==> RestoreNameFree(s, j, user)
    ensures Still(s, Restore(s, j, user, mayAccess, io).0, i)
  {
    hide WF, EnsureTrash, RestoreMove, Still, IsRoot, Inside, Refresh, RestoreNameFree, UniqueName, TrashOf;
    TrashedNotRoot(s, i);
    StillReflexive(s, i);
    if j in s.inodes {
      var s0 := Refresh(s, j);
      RefreshShape(s, j);
      RefreshStill(s, j, i);
      TrashStill(s, s0, i);
      var s1 := EnsureTrash(s0, user, io).0;
      EnsureTrashStill(s0, user, io, i);
      StillTrans(s, s0, s1, i);
      RestoreGuarded(s0, j, user, io);
      if Restore(s, j, user, mayAccess, io).1.Placed? {
        RestoreNameAfterRefresh(s, j, user);
        RestoredStill(s0, j, user, io, i);
        StillTrans(s, s0, Restore(s, j, user, mayAccess, io).0, i);
      }
    }
  }

  lemma RestoredStill(s0: FS, j: Id, user: string, io: Io, i: Id)
    requires WF(s0) && i in s0.trash && j in s0.trash && j in s0.inodes && !Inside(s0.inodes, j, i) && !Inside(s0.inodes, s0.trash[j].parent, i)
    requires EnsureTrash(s0, user, io).0 == s0 && EnsureTrash(s0, user, io).1 == Some(s0.inodes[j].parent)
    requires user in s0.users && s0.users[user] in s0.inodes && RestoreNameFree(s0, j, user)
    ensures
      var to := RestoreTarget(s0, j, user);
      to in s0.inodes && Still(s0, RestoreMove(s0, j, to, UniqueName(s0.inodes, to, s0.trash[j].name, j)), i)
  {
    hide WF, EnsureTrash, RestoreMove, Inside, NameFree, UniqueName, TrashOf, Still;
    EnsureTrashWF(s0, user, io);
    RestoreMoveStill(s0, j, user, s0.inodes[j].parent, UniqueName(s0.inodes, RestoreTarget(s0, j, user), s0.trash[j].name, j), i);
  }

  lemma DeleteStill(s: FS, j: Id, user: string, recursive: bool, io: Io, i: Id)
    requires WF(s) && i in s.trash && !Inside(s.inodes, j, i)
    ensures Still(s, Delete(s, j, user, recursive, io).0, i)
  {
    hide WF, DropNode, Still, IsRoot, Inside, Refresh, Guard, IsTrash;
    TrashedNotRoot(s, i);
    StillReflexive(s, i);
    if j in s.inodes {
      var s0 := Refresh(s, j);
      RefreshStill(s, j, i);
      TrashStill(s, s0, i);
      if Guard(s0, j, user, recursive).None? {
        GuardPasses(s0, j, user, recursive);
        NotAboveTrashed(s0, j, i);
        DropStill(s0, j, i);
        StillTrans(s, s0, DropNode(s0, j), i);
      }
    }
  }

  lemma CallWriteStill(s: FS, p: Id, name: Name, offset: nat, len: nat, room: bool, io: Io, i: Id)
    requires WF(s) && i in s.trash && offset <= MAX_UINT64 && len <= MAX_UINT64 && !Inside(s.inodes, p, i)
    requires p in s.inodes ==> FindChild(s.inodes, s.inodes[p].children, name) != Some(i)
    ensures Still(s, Write(s, p, name, offset, len, room, io).0, i)
  {
    hide WF, WriteChild, Still, Inside, Refresh;
    TrashedNotRoot(s, i);
    StillReflexive(s, i);
    if p in s.inodes {
      var s0 := Refresh(s, p);
      RefreshShape(s, p);
      RefreshStill(s, p, i);
      TrashStill(s, s0, i);
      FindChildAgrees(s.inodes, s0.inodes, s.inodes[p].children, name);
      var found := FindChild(s0.inodes, s0.inodes[p].children, name);
      if found.Some? {
        ChildOutside(s0, p, found.value, i);
        WriteChildStill(s0, found.value, offset, len, room, io, i);
        StillTrans(s, s0, WriteChild(s0, found.value, offset, len, room, io).0, i);
      }
    }
  }

  lemma ChildOutside(s: FS, p: Id, c: Id, i: Id)
    requires WF(s) && p in s.inodes && c in s.inodes[p].children && i in s.inodes && c != i && !Inside(s.inodes, p, i)
    ensures !Inside(s.inodes, c, i)
  {
    assert NodeOk(s.inodes, p);
    ParentUnder(s.inodes, s.index, s.next, i, c);
  }

  lemma WriteChildStill(s: FS, c: Id, offset: nat, len: nat, room: bool, io: Io, i: Id)
    requires WF(s) && c in s.inodes && i in s.inodes && offset <= MAX_UINT64 && len <= MAX_UINT64 && !Inside(s.inodes, c, i)
    ensures Still(s, WriteChild(s, c, offset, len, room, io).0, i)
  {
    hide WF, SizeDiff, OverQuota, QuotaOf, Addressable, RootOf, WriteAt, Still;
    StillReflexive(s, i);
    WriteStill(s, c, offset, len, SizeDiff(s.inodes[c].size, offset, len), i);
  }

  lemma ShareStill(s: FS, j: Id, user: string, grantee: string, hasAccess: bool, i: Id)
    requires WF(s) && i in s.inodes && !Inside(s.inodes, j, i)
    ensures Still(s, Share(s, j, user, grantee, hasAccess).0, i) && Still(s, Unshare(s, j, user, grantee, hasAccess).0, i)
  {
    hide WF, Refresh, Granted, Revoked, Inside;
    StillReflexive(s, i);
    if j in s.inodes {
      RefreshStill(s, j, i);
      SameShapeAt(s, j);
    }
  }

  /** A call elsewhere leaves the trashed subtree, its disk entries and its metadata as they are. */
  lemma AsideStill(s: FS, op: Op, i: Id)
    requires WF(s) && WireOk(op) && NameTrusted(s, op) && i in s.trash && Aside(s, op, i)
    ensures Still(s, Do(s, op).0, i)
  {
    hide WF, OpenRoot, Create, Trash, Restore, Delete, Write, Share, Unshare, Inside, TrashNameFree, RestoreNameFree, IsRoot;
    TrashedNotRoot(s, i);
    match op
    case OpOpen(user, io) => OpenStill(s, user, io, i);
    case OpCreate(p, name, user, isDir, io) => CreateStill(s, p, name, user, isDir, io, i);
    case OpTrash(j, user, recursive, io) => CallTrashStill(s, j, user, recursive, io, i);
    case OpRestore(j, user, mayAccess, io) => CallRestoreStill(s, j, user, mayAccess, io, i);
    case OpDelete(j, user, recursive, io) => DeleteStill(s, j, user, recursive, io, i);
    case OpWrite(p, name, offset, len, room, io) => CallWriteStill(s, p, name, offset, len, room, io, i);
    case OpSetQuota(user, bytes, saved) => StillReflexive(s, i);
    case OpShare(j, user, grantee, hasAccess) => ShareStill(s, j, user, grantee, hasAccess, i);
    case OpUnshare(j, user, grantee, hasAccess) => ShareStill(s, j, user, grantee, hasAccess, i);
  }

  // ---------------------------------------------------------------- share lists over runs

  lemma {:induction false} WithoutUserDistinct(users: seq<string>, user: string)
    requires NoDup(users)
    ensures NoDup(WithoutUser(users, user)) && forall u :: u in WithoutUser(users, user) <==> u in users && u != user
  {
    if users == [] {
    } else {
      WithoutUserDistinct(users[1..], user);
      var rest := WithoutUser(users[1..], user);
      assert forall u :: u in users <==> u == users[0] || u in users[1..];
      assert users[0] !in users[1..];
      assert forall a :: 0 <= a < |rest| ==> rest[a] in users[1..];
    }
  }

  lemma ReattachDistinct(shared: map<Path, seq<string>>, snaps: map<Path, seq<string>>, src: Path, dst: Path)
    requires AllDistinct(shared) && AllDistinct(snaps)
    ensures AllDistinct(Reattach(shared, snaps, src, dst))
  {
    var shared' := Reattach(shared, snaps, src, dst);
    forall q | q in shared' ensures NoDup(shared'[q]) {
      var back := RenamePrefix(snaps, src, dst);
      if q in back { MergeDistinct(ListAt(shared, q), back[q]); }
    }
  }

  /** Neither the share table nor the restore metadata changes. */
  ghost predicate SameShares(s: FS, s': FS) {
    s'.shared == s.shared && s'.trash == s.trash
  }

  lemma OpenSameShares(s: FS, user: string, io: Io)
    requires WF(s)
    ensures SameShares(s, OpenRoot(s, user, io).0)
  {
    hide WF;
    NewRootWF(s, user);
    if user in s.users { EnsureTrashWF(s, user, io); }
    else if io.act { EnsureTrashWF(NewRoot(s, user), user, io); }
  }

  lemma CreateSameShares(s: FS, p: Id, name: Name, user: string, isDir: bool, io: Io)
    requires WF(s)
    ensures SameShares(s, Create(s, p, name, user, isDir, io).0)
  {
    hide WF, EnsureTrash, ValidName, Reserved, Under;
    EnsureTrashWF(s, user, io);
  }

  lemma WriteSameShares(s: FS, p: Id, name: Name, offset: nat, len: nat, room: bool, io: Io)
    requires WF(s) && offset <= MAX_UINT64 && len <= MAX_UINT64
    ensures SameShares(s, Write(s, p, name, offset, len, room, io).0)
  {
    hide WF, SizeDiff, OverQuota, QuotaOf, Addressable, RootOf;
    if p in s.inodes { RefreshWF(s, p); }
  }

  lemma TrashDistinct(s: FS, i: Id, user: string, recursive: bool, io: Io)
    requires WF(s) && ListsDistinct(s)
    ensures ListsDistinct(Trash(s, i, user, recursive, io).0)
  {
    hide WF, EnsureTrash, Guard, UniqueName, MoveNode;
    if i in s.inodes {
      RefreshWF(s, i);
      EnsureTrashWF(Refresh(s, i), user, io);
    }
  }

  lemma RestoreDistinct(s: FS, i: Id, user: string, mayAccess: bool, io: Io)
    requires WF(s) && ListsDistinct(s)
    ensures ListsDistinct(Restore(s, i, user, mayAccess, io).0)
  {
    hide WF, EnsureTrash, UniqueName, MoveNode, Reattach;
    if i in s.inodes {
      RefreshWF(s, i);
      EnsureTrashWF(Refresh(s, i), user, io);
      if Restore(s, i, user, mayAccess, io).1.Placed? {
        var s1 := EnsureTrash(Refresh(s, i), user, io).0;
        var to, m := RestoreTarget(s1, i, user), s1.trash[i];
        ReattachDistinct(s1.shared, m.snapshots, m.relPath, s1.inodes[to].path + [UniqueName(s1.inodes, to, m.name, i)]);
      }
    }
  }

  lemma GrantedDistinct(shared: map<Path, seq<string>>, p: Path, grantee: string)
    requires AllDistinct(shared)
    ensures AllDistinct(Granted(shared, p, grantee)) && AllDistinct(Revoked(shared, p, grantee))
  {
    if p in shared { WithoutUserDistinct(shared[p], grantee); }
  }

  lemma ShareDistinct(s: FS, i: Id, user: string, grantee: string, hasAccess: bool)
    requires ListsDistinct(s)
    ensures ListsDistinct(Share(s, i, user, grantee, hasAccess).0) && ListsDistinct(Unshare(s, i, user, grantee, hasAccess).0)
  {
    hide AllDistinct, Refresh, Granted, Revoked;
    if i in s.inodes {
      SameShapeAt(s, i);
      GrantedDistinct(s.shared, s.inodes[i].path, grantee);
    }
  }

  lemma DeleteDistinct(s: FS, i: Id, user: string, recursive: bool, io: Io)
    requires WF(s) && ListsDistinct(s)
    ensures ListsDistinct(Delete(s, i, user, recursive, io).0)
  {
    hide WF, Guard, Dropped;
  }

  lemma StepDistinct(s: FS, e: Event, s': FS)
    requires WF(s) && ListsDistinct(s) && StepTo(s, e, s')
    ensures ListsDistinct(s')
  {
    hide WF, OpenRoot, Create, Trash, Restore, Delete, Write, Share, Unshare, NameTrusted, AllDistinct, Scannable;
    match e
    case Restart =>
    case Call(op) =>
      match op
      case OpOpen(user, io) => OpenSameShares(s, user, io);
      case OpCreate(p, name, user, isDir, io) => CreateSameShares(s, p, name, user, isDir, io);
      case OpTrash(i, user, recursive, io) => TrashDistinct(s, i, user, recursive, io);
      case OpRestore(i, user, mayAccess, io) => RestoreDistinct(s, i, user, mayAccess, io);
      case OpDelete(i, user, recursive, io) => DeleteDistinct(s, i, user, recursive, io);
      case OpWrite(p, name, offset, len, room, io) => WriteSameShares(s, p, name, offset, len, room, io);
      case OpSetQuota(user, bytes, saved) =>
      case OpShare(i, user, grantee, hasAccess) => ShareDistinct(s, i, user, grantee, hasAccess);
      case OpUnshare(i, user, grantee, hasAccess) => ShareDistinct(s, i, user, grantee, hasAccess);
  }

  /** Along every run, restarts included, no share list and no snapshot of one names a user twice. */
  lemma {:induction false} RunKeepsListsDistinct(ss: seq<FS>, es: seq<Event>, k: nat)
    requires IsRun(ss, es) && WF(ss[0]) && ListsDistinct(ss[0]) && k < |ss|
    ensures ListsDistinct(ss[k])
  {
    hide WF, StepTo, ListsDistinct;
    if k == 0 {
    } else {
      RunKeepsListsDistinct(ss, es, k - 1);
      RunKeepsAgreement(ss, es, k - 1);
      assert StepTo(ss[k - 1], es[k - 1], ss[k]);
      StepDistinct(ss[k - 1], es[k - 1], ss[k]);
    }
  }

  // ---------------------------------------------------------------- trash ... restore

  /** Making sure of the trash directory does not touch the subtree, so the move shelves what the lookup found. */
  lemma MoveShelves(s0: FS, s1: FS, i: Id, user: string, tr: Id, name: Name)
    requires WF(s1) && Still(s0, s1, i) && s1.shared == s0.shared && TrashOf(s1, user, tr) && s1.inodes[i].owner == user
    requires !IsRoot(s1.inodes, i) && !IsTrash(s1.inodes, i) && NameFree(s1.inodes, tr, name)
    ensures Shelved(s0, TrashMove(s1, i, tr, name), i)
  {
    hide WF, NameFree, CanMove, HungNode, StillNode, Inside, TrashOf, IsTrash, IsRoot, RenamePrefix;
    TrashCanMove(s1, i, user, tr);
    var s', dst := TrashMove(s1, i, tr, name), s1.inodes[tr].path + [name];
    MovedHung(s1, i, tr, name, s');
    InsideItself(s0.inodes, i);
    StillIsHung(s0, s1, i);
    HungTwice(s0, s1, s', i, s0.inodes[i].parent, s0.inodes[i].name, s0.inodes[i].path, tr, name, dst);
    assert HungNode(s0, s', i, tr, name, dst, i);
    HungTop(s0, s', i, tr, name, dst);
  }

  lemma StillIsHung(s: FS, s': FS, i: Id)
    requires Still(s, s', i)
    ensures Hung(s, s', i, s.inodes[i].parent, s.inodes[i].name, s.inodes[i].path) && s'.inodes[i] == s.inodes[i]
  {
    InsideItself(s.inodes, i);
    assert StillNode(s, s', i);
    forall j | Inside(s.inodes, j, i) ensures HungNode(s, s', i, s.inodes[i].parent, s.inodes[i].name, s.inodes[i].path, j) {
      assert StillNode(s, s', j);
      RebaseInPlace(s.inodes[j].path, s.inodes[i].path);
    }
  }

  /** A successful trash shelves the subtree its lookup found. */
  lemma TrashShelves(s: FS, i: Id, user: string, recursive: bool, io: Io)
    requires WF(s) && i in s.inodes && TrashNameFree(s, i, user) && Trash(s, i, user, recursive, io).1.Placed?
    ensures Shelved(Refresh(s, i), Trash(s, i, user, recursive, io).0, i) && s.inodes[i].owner == user
  {
    hide WF, EnsureTrash, TrashMove, Refresh, TrashNameFree, NameFree, UniqueName, TrashOf, Guard, Still, IsTrash;
    TrashSucceeded(s, i, user, recursive, io);
    TrashNameAfterRefresh(s, i, user);
    SameShapeAt(s, i);
    var s0 := Refresh(s, i);
    var (s1, tr) := EnsureTrash(s0, user, io);
    EnsureTrashWF(s0, user, io);
    EnsureTrashStill(s0, user, io, i);
    TrashNameNow(s0, i, user, io);
    ParentAlive(s0, i);
    ExtendsKind(s0, s1, i);
    MoveShelves(s0, s1, i, user, tr.value, UniqueName(s1.inodes, tr.value, s1.inodes[i].name, i));
  }

  /** Event `a` of the run trashes `i`, and up to state `b` there are only calls elsewhere. */
  ghost predicate TrashedThenAside(ss: seq<FS>, es: seq<Event>, a: nat, b: nat, i: Id, user: string) {
    && |ss| == |es| + 1 && a < b < |ss| && WF(ss[a])
    && es[a].Call? && es[a].op.OpTrash? && es[a].op.i == i && es[a].op.user == user && i in ss[a].inodes
    && Do(ss[a], es[a].op).1.Placed?
    && forall k :: a < k < b ==> es[k].Call? && Aside(ss[k], es[k].op, i)
  }

  lemma {:induction false} StaysShelved(ss: seq<FS>, es: seq<Event>, a: nat, b: nat, i: Id, user: string)
    requires IsRun(ss, es) && WF(ss[0]) && TrashedThenAside(ss, es, a, b, i, user)
    ensures WF(ss[b]) && Shelved(Refresh(ss[a], i), ss[b], i) && ss[b].inodes[i].owner == user
    decreases b
  {
    hide WF, Shelved, TrashNameFree, Aside;
    RunKeepsAgreement(ss, es, b);
    if b == a + 1 {
      assert StepTo(ss[a], es[a], ss[b]);
      TrashShelves(ss[a], i, user, es[a].op.recursive, es[a].op.io);
      ShelvedOwner(Refresh(ss[a], i), ss[b], i);
      SameShapeAt(ss[a], i);
    } else {
      StaysShelved(ss, es, a, b - 1, i, user);
      assert StepTo(ss[b - 1], es[b - 1], ss[b]);
      ShelvedEntry(Refresh(ss[a], i), ss[b - 1], i);
      AsideStill(ss[b - 1], es[b - 1].op, i);
      ShelvedStays(Refresh(ss[a], i), ss[b - 1], ss[b], i);
      ShelvedOwner(Refresh(ss[a], i), ss[b], i);
      ShelvedOwner(Refresh(ss[a], i), ss[b - 1], i);
    }
  }

  lemma ShelvedOwner(s0: FS, s: FS, i: Id)
    requires Shelved(s0, s, i)
    ensures i in s0.inodes && i in s.inodes && s.inodes[i].owner == s0.inodes[i].owner
  {
    InsideItself(s0.inodes, i);
    assert HungNode(s0, s, i, s.inodes[i].parent, s.inodes[i].name, s.inodes[i].path, i);
  }

  /** Trash, any calls elsewhere, restore: the subtree is back as the trash found it, in name, path, parent,
      index and disk entry, if and only if the old parent is alive at its old path and the old name is
      free there; its explicit shares are back too if and only if the lists found there begin the recorded ones. */
  lemma RestoreAfterRun(ss: seq<FS>, es: seq<Event>, a: nat, b: nat, i: Id, user: string, io: Io)
    requires IsRun(ss, es) && WF(ss[0]) && ListsDistinct(ss[0]) && TrashedThenAside(ss, es, a, b, i, user)
    requires io.act
    ensures
      && WF(ss[b])
      && var s0 := Refresh(ss[a], i);
      && var (s', r) := Restore(ss[b], i, user, true, io);
      && (Returned(s0, s', i) <==> PlaceFree(s0, ss[b], i))
      && var base := s0.inodes[i].path;
      PlaceFree(s0, ss[b], i) ==>
        && WF(s') && r == Placed(ss[a].inodes[i].name) && i !in s'.trash
        && (SharesUnder(s'.shared, base) == SharesUnder(ss[a].shared, base) <==> BeginsBelow(ss[b].shared, ss[a].shared, base))
  {
    hide WF, Shelved, ListsDistinct, RestoreNameFree, PlaceFree, Returned, BeginsBelow, SharesUnder, TrashOf, Restore, Refresh;
    StaysShelved(ss, es, a, b, i, user);
    RunKeepsListsDistinct(ss, es, b);
    var s0 := Refresh(ss[a], i);
    RefreshTwice(ss[a], i);
    SameShapeAt(ss[a], i);
    ShelvedEntry(s0, ss[b], i);
    RestoreReturnsIff(s0, ss[b], i, user, io);
  }

  /** A restart forgets the restore metadata: what lay in the trash can then no longer be restored. */
  lemma RestartForgets(s: FS, s': FS, i: Id, user: string, mayAccess: bool, io: Io)
    requires WF(s) && Scannable(s) && Rescanned(s, s')
    ensures WF(s') && !Restore(s', i, user, mayAccess, io).1.Placed?
  {
    hide WF, EnsureTrash;
    RescanRecovers(s, s');
    if i in s'.inodes {
      RefreshWF(s', i);
      EnsureTrashWF(Refresh(s', i), user, io);
    }
  }
}
