/**
Every operation keeps the tree, the index, the trash metadata and the disk in
agreement; trash and restore do so exactly when the name they pick is free.
*/
module FileSafety {
  import opened Options
  import opened Paths
  import opened InodeTree
  import opened FileOps

  // ---------------------------------------------------------------- add

  lemma AddNodeWF(s: FS, p: Id, name: Name, isDir: bool)
    requires WF(s) && p in s.inodes && s.inodes[p].isDir && NameFree(s.inodes, p, name)
    ensures WF(AddNode(s, p, name, isDir))
  {
    var t := s.inodes;
    AddLinked(t, p, s.next, name, isDir);
    AddIndexed(t, s.index, p, s.next, name, isDir);
    AddAged(t, p, s.next, name, isDir);
    AddRooted(t, s.users, p, s.next, name, isDir);
    AddNodeDisk(s, p, name, isDir);
    AddNodeTrash(s, p, name, isDir);
  }

  lemma AddNodeTrash(s: FS, p: Id, name: Name, isDir: bool)
    requires TrashOk(s) && Linked(s.inodes) && p in s.inodes && forall j :: j in s.inodes ==> j < s.next
    ensures TrashOk(AddNode(s, p, name, isDir))
  {
    TrashKept(s, AddNode(s, p, name, isDir));
  }

  lemma AddNodeDisk(s: FS, p: Id, name: Name, isDir: bool)
    requires OnDisk(s) && Founded(s.inodes, s.users) && Indexed(s.inodes, s.index, s.next) && p in s.inodes
    requires s.inodes[p].path + [name] !in s.index
    ensures OnDisk(AddNode(s, p, name, isDir))
    ensures Founded(AddNode(s, p, name, isDir).inodes, s.users)
  {
    var t' := AddNode(s, p, name, isDir).inodes;
    forall i | i in t' ensures HasFounder(t', s.users, i) {
      assert HasFounder(s.inodes, s.users, p);
      if i != s.next { assert HasFounder(s.inodes, s.users, i); }
    }
  }

  // ---------------------------------------------------------------- the trash directory

  lemma TrashUnique(s: FS, a: Id, b: Id)
    requires WF(s) && a in s.inodes && b in s.inodes && IsTrash(s.inodes, a) && IsTrash(s.inodes, b)
    requires s.inodes[a].owner == s.inodes[b].owner
    ensures a == b
  {
    var t := s.inodes;
    assert NodeOk(t, a) && NodeOk(t, b) && NodeOk(t, t[a].parent) && NodeOk(t, t[b].parent);
  }

  /** The inodes of `s` are those of `s'` except that roots may have gained children. */
  ghost predicate Extends(s: FS, s': FS) {
    && (forall j :: j in s.inodes ==> j in s'.inodes && s'.inodes[j].(children := s.inodes[j].children) == s.inodes[j])
    && (forall j :: j in s.inodes && !IsRoot(s.inodes, j) ==> s'.inodes[j] == s.inodes[j])
    && s'.shared == s.shared && s'.trash == s.trash && s'.users == s.users && s'.quotas == s.quotas
  }

  lemma AddExtends(s: FS, p: Id, name: Name, isDir: bool)
    requires p in s.inodes && IsRoot(s.inodes, p) && s.next !in s.inodes
    ensures Extends(s, AddNode(s, p, name, isDir))
  {
  }

  lemma NewTrash(s: FS, user: string)
    requires WF(s) && user in s.users && NameFree(s.inodes, s.users[user], TRASH_DIR)
    ensures
      var s' := AddNode(s, s.users[user], TRASH_DIR, true);
      WF(s') && Extends(s, s') && TrashOf(s', user, s.next)
  {
    var root := s.users[user];
    assert NodeOk(s.inodes, root);
    AddExtends(s, root, TRASH_DIR, true);
    AddNodeWF(s, root, TRASH_DIR, true);
  }

  /** Making sure of the trash directory keeps the agreement and touches no other inode. */
  lemma EnsureTrashWF(s: FS, user: string, io: Io)
    requires WF(s)
    ensures WF(EnsureTrash(s, user, io).0) && Extends(s, EnsureTrash(s, user, io).0)
    ensures EnsureTrash(s, user, io).1.Some? ==> TrashOf(EnsureTrash(s, user, io).0, user, EnsureTrash(s, user, io).1.value)
  {
    if user in s.users {
      var root := s.users[user];
      var found := FindChild(s.inodes, s.inodes[root].children, TRASH_DIR);
      assert NodeOk(s.inodes, root);
      if found.Some? {
        assert NodeOk(s.inodes, found.value);
      } else if io.mkTrash {
        NewTrash(s, user);
      }
    }
  }

  ghost predicate TrashOf(s: FS, user: string, tr: Id) {
    && tr in s.inodes && IsTrash(s.inodes, tr) && s.inodes[tr].isDir && s.inodes[tr].owner == user
    && user in s.users && s.inodes[tr].parent == s.users[user]
  }

  // ---------------------------------------------------------------- move

  lemma MoveNodeDisk(s: FS, i: Id, to: Id, name: Name)
    requires OnDisk(s) && Indexed(s.inodes, s.index, s.next) && i in s.inodes && to in s.inodes
    requires Vacant(s.index, s.inodes[to].path + [name])
    ensures OnDisk(MoveNode(s, i, to, name))
  {
    var src, dst := s.inodes[i].path, s.inodes[to].path + [name];
    var s' := MoveNode(s, i, to, name);
    forall q | q in s'.disk && s'.index[q] in s'.inodes
      ensures s'.disk[q].Dir? <==> s'.inodes[s'.index[q]].isDir
    {
      var p := RenameOrigin(s.disk, src, dst, q);
      RenameKeeps(s.index, src, dst, p);
    }
  }

  lemma MoveFounded(s: FS, i: Id, to: Id, name: Name)
    requires Founded(s.inodes, s.users) && i in s.inodes && to in s.inodes
    ensures Founded(Moved(s.inodes, i, to, name), s.users)
  {
    var t' := Moved(s.inodes, i, to, name);
    forall j | j in t' ensures HasFounder(t', s.users, j) { assert HasFounder(s.inodes, s.users, j); }
  }

  /** Metadata of other inodes survives a move. */
  lemma MoveTrashEntry(s: FS, i: Id, to: Id, name: Name, j: Id)
    requires TrashOk(s) && Linked(s.inodes) && CanMove(s.inodes, i, to) && !IsTrash(s.inodes, i) && j in s.trash && j != i
    requires !(IsRoot(s.inodes, to) && name == TRASH_DIR)
    ensures TrashEntryOk(Moved(s.inodes, i, to, name), j, s.trash[j])
  {
    assert TrashEntryOk(s.inodes, j, s.trash[j]);
    var p := s.trash[j].parent;
    if p in s.inodes { assert NodeOk(s.inodes, p); }
  }

  /** Everything except the metadata, for both directions of a move. */
  lemma MoveNodeWF(s: FS, i: Id, to: Id, name: Name, trash': map<Id, TrashEntry>, shared': map<Path, seq<string>>)
    requires WF(s) && CanMove(s.inodes, i, to) && !IsTrash(s.inodes, i)
    requires IsTrash(s.inodes, to) || to < i
    requires NameFree(s.inodes, to, name)
    requires TrashOk(MoveNode(s, i, to, name).(trash := trash'))
    ensures WF(MoveNode(s, i, to, name).(trash := trash', shared := shared'))
  {
    var t := s.inodes;
    FreeMeansVacant(t, s.index, s.next, to, name);
    MoveLinked(t, s.index, s.next, i, to, name);
    MoveIndexed(t, s.index, s.next, i, to, name);
    MoveAged(t, i, to, name);
    MoveRooted(t, s.users, i, to, name);
    MoveFounded(s, i, to, name);
    MoveNodeDisk(s, i, to, name);
  }

  /** Two siblings with one name cannot both be indexed. */
  lemma MoveTaken(s: FS, i: Id, to: Id, name: Name, index': map<Path, Id>)
    requires WF(s) && CanMove(s.inodes, i, to) && s.inodes[i].parent != to && !NameFree(s.inodes, to, name)
    ensures !Indexed(Moved(s.inodes, i, to, name), index', s.next)
  {
    var t, t' := s.inodes, Moved(s.inodes, i, to, name);
    var c :| c in t[to].children && c in t && t[c].name == name;
    assert NodeOk(t, to) && NodeOk(t, c);
    ParentUnder(t, s.index, s.next, i, c);
    assert t'[c].path == t[to].path + [name];
    assert t'[i].path == t[to].path + [name];
    if Indexed(t', index', s.next) {
      SamePath(t', index', s.next, c, i);
      assert false;
    }
  }

  // ---------------------------------------------------------------- first login, create

  lemma OpenRootWF(s: FS, user: string, io: Io)
    requires WF(s)
    ensures WF(OpenRoot(s, user, io).0)
  {
    NewRootWF(s, user);
    if user in s.users || io.act {
      EnsureTrashWF(if user in s.users then s else NewRoot(s, user), user, io);
    }
  }

  lemma CreateWF(s: FS, p: Id, name: Name, user: string, isDir: bool, io: Io)
    requires WF(s)
    ensures WF(Create(s, p, name, user, isDir, io).0)
  {
    if p in s.inodes {
      RefreshWF(s, p);
      if s.inodes[p].isDir && FindChild(s.inodes, s.inodes[p].children, name).None? && !Reserved(name) {
        EnsureTrashWF(s, user, io);
        var s1 := EnsureTrash(s, user, io).0;
        StillFree(s, user, io, p, name);
        AddNodeWF(s1, p, name, isDir);
      }
    }
  }

  /** Creating the trash directory takes no name other than ".trash". */
  lemma StillFree(s: FS, user: string, io: Io, p: Id, name: Name)
    requires WF(s) && p in s.inodes && NameFree(s.inodes, p, name) && name != TRASH_DIR
    ensures p in EnsureTrash(s, user, io).0.inodes && NameFree(EnsureTrash(s, user, io).0.inodes, p, name)
  {
  }

  // ---------------------------------------------------------------- trash

  /** What passes the guard is neither a root nor a trash directory. */
  lemma GuardPasses(s: FS, i: Id, user: string, recursive: bool)
    requires WF(s) && i in s.inodes && Guard(s, i, user, recursive).None?
    ensures !IsRoot(s.inodes, i) && !IsTrash(s.inodes, i) && s.inodes[i].owner == user
  {
    assert NodeOk(s.inodes, i);
    assert NodeOk(s.inodes, s.inodes[i].parent);
  }

  lemma TrashCanMove(s: FS, i: Id, user: string, tr: Id)
    requires WF(s) && i in s.inodes && TrashOf(s, user, tr) && s.inodes[i].owner == user
    requires !IsRoot(s.inodes, i) && !IsTrash(s.inodes, i)
    ensures CanMove(s.inodes, i, tr)
    ensures s.inodes[i].parent != tr ==> s.inodes[i].parent < i && !IsTrash(s.inodes, s.inodes[i].parent)
  {
    var t := s.inodes;
    ParentUnder(t, s.index, s.next, i, tr);
    ParentUnder(t, s.index, s.next, i, t[tr].parent);
    assert NodeOk(t, i) && Older(t, i);
    if s.inodes[i].parent != tr && IsTrash(t, t[i].parent) {
      TrashUnique(s, t[i].parent, tr);
      assert false;
    }
  }

  lemma TrashMoveWF(s: FS, i: Id, user: string, tr: Id, name: Name)
    requires WF(s) && i in s.inodes && TrashOf(s, user, tr) && s.inodes[i].owner == user
    requires !IsRoot(s.inodes, i) && !IsTrash(s.inodes, i) && s.inodes[i].parent != tr
    ensures WF(TrashMove(s, i, tr, name)) <==> NameFree(s.inodes, tr, name)
  {
    TrashCanMove(s, i, user, tr);
    var s' := TrashMove(s, i, tr, name);
    if NameFree(s.inodes, tr, name) {
      TrashMoveEntries(s, i, tr, name);
      MoveNodeWF(s, i, tr, name, s'.trash, s'.shared);
    } else {
      MoveTaken(s, i, tr, name, s'.index);
    }
  }

  lemma TrashMoveEntries(s: FS, i: Id, tr: Id, name: Name)
    requires TrashOk(s) && Linked(s.inodes) && CanMove(s.inodes, i, tr) && !IsTrash(s.inodes, i) && IsTrash(s.inodes, tr)
    requires s.inodes[i].parent < i && !IsTrash(s.inodes, s.inodes[i].parent)
    ensures TrashOk(MoveNode(s, i, tr, name).(trash := TrashMove(s, i, tr, name).trash))
  {
    var t', trash' := Moved(s.inodes, i, tr, name), TrashMove(s, i, tr, name).trash;
    forall j | j in trash' ensures TrashEntryOk(t', j, trash'[j]) {
      if j != i { MoveTrashEntry(s, i, tr, name, j); }
      else { assert NodeOk(s.inodes, i) && NodeOk(s.inodes, s.inodes[i].parent); }
    }
  }

  lemma {:induction false} FindChildAgrees(t: Tree, t': Tree, cs: seq<Id>, name: Name)
    requires forall c :: c in cs ==> (c in t <==> c in t') && (c in t ==> t[c].name == t'[c].name)
    ensures FindChild(t, cs, name) == FindChild(t', cs, name)
  {
    if cs == [] {
    } else {
      FindChildAgrees(t, t', cs[1..], name);
    }
  }

  /** Refreshing a size changes no name. */
  lemma RefreshNames(s: FS, i: Id, d: Id, desired: Name, x: Id)
    requires i in s.inodes && d in s.inodes
    ensures UniqueName(Refresh(s, i).inodes, d, desired, x) == UniqueName(s.inodes, d, desired, x)
    ensures forall name :: NameFree(Refresh(s, i).inodes, d, name) <==> NameFree(s.inodes, d, name)
  {
    RefreshShape(s, i);
    FindChildAgrees(s.inodes, Refresh(s, i).inodes, s.inodes[d].children, desired);
  }

  /** The name trashing `i` would give it is not taken in the user's trash directory (if there is one). */
  ghost predicate TrashNameFree(s: FS, i: Id, user: string)
    requires i in s.inodes
  {
    forall tr :: TrashOf(s, user, tr) ==>
      NameFree(s.inodes, tr, UniqueName(s.inodes, tr, s.inodes[i].name, i))
  }

  lemma TrashListed(s: FS, user: string, x: Id)
    requires Linked(s.inodes) && TrashOf(s, user, x)
    ensures s.users[user] in s.inodes && x in s.inodes[s.users[user]].children
  {
    assert NodeOk(s.inodes, x);
  }

  /** Where the trash directory comes from: it is the one already there, or it is new and empty. */
  lemma TrashOrigin(s: FS, user: string, io: Io)
    requires WF(s) && EnsureTrash(s, user, io).1.Some?
    ensures
      var (s1, tr) := EnsureTrash(s, user, io);
      || (s1 == s && TrashOf(s, user, tr.value) && forall x :: TrashOf(s, user, x) ==> x == tr.value)
      || (s1.inodes[tr.value].children == [] && tr.value !in s.inodes && forall x :: !TrashOf(s, user, x))
  {
    var root := s.users[user];
    EnsureTrashWF(s, user, io);
    if FindChild(s.inodes, s.inodes[root].children, TRASH_DIR).Some? {
      forall x | TrashOf(s, user, x) ensures x == EnsureTrash(s, user, io).1.value {
        TrashUnique(s, x, EnsureTrash(s, user, io).1.value);
      }
    } else {
      forall x ensures !TrashOf(s, user, x) {
        if TrashOf(s, user, x) { TrashListed(s, user, x); }
      }
    }
  }

  lemma TrashNameAfterRefresh(s: FS, i: Id, user: string)
    requires i in s.inodes
    ensures TrashNameFree(Refresh(s, i), i, user) <==> TrashNameFree(s, i, user)
  {
    RefreshShape(s, i);
    forall tr ensures TrashOf(Refresh(s, i), user, tr) <==> TrashOf(s, user, tr) {
    }
    forall tr | TrashOf(s, user, tr)
      ensures
        NameFree(s.inodes, tr, UniqueName(s.inodes, tr, s.inodes[i].name, i)) <==>
        NameFree(Refresh(s, i).inodes, tr, UniqueName(Refresh(s, i).inodes, tr, s.inodes[i].name, i))
    {
      RefreshNames(s, i, tr, s.inodes[i].name, i);
    }
  }

  /** The name picked in the directory at hand is free exactly when `TrashNameFree` said so beforehand. */
  lemma TrashNameNow(s: FS, i: Id, user: string, io: Io)
    requires WF(s) && i in s.inodes && EnsureTrash(s, user, io).1.Some?
    ensures
      var (s1, tr) := EnsureTrash(s, user, io);
      TrashNameFree(s, i, user) <==>
      NameFree(s1.inodes, tr.value, UniqueName(s1.inodes, tr.value, s.inodes[i].name, i))
  {
    TrashOrigin(s, user, io);
  }

  /** Trashing keeps everything in agreement exactly when the chosen name is free in
      the trash directory: the suffixed name is not checked again by the code. */
  lemma TrashKeepsAgreementIff(s: FS, i: Id, user: string, recursive: bool, io: Io)
    requires WF(s)
    ensures
      var (s', r) := Trash(s, i, user, recursive, io);
      if r.Placed? then i in s.inodes && (WF(s') <==> TrashNameFree(s, i, user)) else WF(s')
  {
    hide WF, TrashNameFree, TrashMove, UniqueName;
    if i in s.inodes {
      var s0 := Refresh(s, i);
      RefreshWF(s, i);
      if Guard(s0, i, user, recursive).None? {
        GuardPasses(s0, i, user, recursive);
        TrashGuarded(s0, i, user, recursive, io);
        TrashNameAfterRefresh(s, i, user);
      }
    }
  }

  lemma TrashGuarded(s0: FS, i: Id, user: string, recursive: bool, io: Io)
    requires WF(s0) && i in s0.inodes && s0.inodes[i].owner == user
    requires !IsRoot(s0.inodes, i) && !IsTrash(s0.inodes, i)
    ensures
      var (s1, tr) := EnsureTrash(s0, user, io);
      && WF(s1)
      && (tr.Some? && s1.inodes[i].parent != tr.value ==>
            var name := UniqueName(s1.inodes, tr.value, s1.inodes[i].name, i);
            WF(TrashMove(s1, i, tr.value, name)) <==> TrashNameFree(s0, i, user))
  {
    EnsureTrashWF(s0, user, io);
    var (s1, tr) := EnsureTrash(s0, user, io);
    if tr.Some? && s1.inodes[i].parent != tr.value {
      TrashNameNow(s0, i, user, io);
      assert NodeOk(s0.inodes, i);
      ExtendsKind(s0, s1, i);
      TrashMoveWF(s1, i, user, tr.value, UniqueName(s1.inodes, tr.value, s1.inodes[i].name, i));
    }
  }

  lemma ExtendsKind(s: FS, s1: FS, i: Id)
    requires Extends(s, s1) && i in s.inodes && s.inodes[i].parent in s.inodes
    ensures IsRoot(s1.inodes, i) <==> IsRoot(s.inodes, i)
    ensures IsTrash(s1.inodes, i) <==> IsTrash(s.inodes, i)
  {
  }

  // ---------------------------------------------------------------- restore

  /** The name restoring `i` would give it is not taken where it goes back to. */
  ghost predicate RestoreNameFree(s: FS, i: Id, user: string)
    requires i in s.trash && user in s.users && s.users[user] in s.inodes
  {
    var to := RestoreTarget(s, i, user);
    NameFree(s.inodes, to, UniqueName(s.inodes, to, s.trash[i].name, i))
  }

  /** Restore never puts an inode inside its own subtree: its old parent is older than
      the inode, everything below the inode is younger. */
  lemma RestoreCanMove(s: FS, i: Id, user: string, tr: Id)
    requires WF(s) && i in s.trash && i in s.inodes && TrashOf(s, user, tr) && s.inodes[i].parent == tr
    ensures
      var to := RestoreTarget(s, i, user);
      && CanMove(s.inodes, i, to) && to < i && to != tr
      && !IsTrash(s.inodes, i)
  {
    var t := s.inodes;
    var to := RestoreTarget(s, i, user);
    assert TrashEntryOk(t, i, s.trash[i]);
    assert NodeOk(t, i) && NodeOk(t, to) && NodeOk(t, s.users[user]) && HasFounder(t, s.users, i);
    if Under(t[to].path, t[i].path) {
      if to != i {
        DescendantsYounger(t, s.index, s.next, i, to);
      }
      assert false;
    }
  }

  lemma RestoreMoveWF(s: FS, i: Id, user: string, tr: Id, name: Name)
    requires WF(s) && i in s.trash && i in s.inodes && TrashOf(s, user, tr) && s.inodes[i].parent == tr
    ensures
      var to := RestoreTarget(s, i, user);
      to in s.inodes && (WF(RestoreMove(s, i, to, name)) <==> NameFree(s.inodes, to, name))
  {
    var to := RestoreTarget(s, i, user);
    RestoreCanMove(s, i, user, tr);
    var s' := RestoreMove(s, i, to, name);
    if NameFree(s.inodes, to, name) {
      TrashListed(s, user, tr);
      RestoreName(s, i, user, tr, name);
      RestoreEntries(s, i, to, name);
      MoveNodeWF(s, i, to, name, s'.trash, s'.shared);
    } else {
      MoveTaken(s, i, to, name, s'.index);
    }
  }

  /** At the root the name ".trash" is taken. */
  lemma RestoreName(s: FS, i: Id, user: string, tr: Id, name: Name)
    requires WF(s) && i in s.trash && TrashOf(s, user, tr) && i in s.inodes && s.inodes[i].parent == tr
    requires var to := RestoreTarget(s, i, user); to in s.inodes && NameFree(s.inodes, to, name)
    ensures !(IsRoot(s.inodes, RestoreTarget(s, i, user)) && name == TRASH_DIR)
  {
    var t := s.inodes;
    var to := RestoreTarget(s, i, user);
    assert TrashEntryOk(t, i, s.trash[i]);
    assert NodeOk(t, i) && NodeOk(t, to) && NodeOk(t, tr);
    TrashListed(s, user, tr);
  }

  lemma RestoreEntries(s: FS, i: Id, to: Id, name: Name)
    requires TrashOk(s) && Linked(s.inodes) && CanMove(s.inodes, i, to) && !IsTrash(s.inodes, i)
    requires !(IsRoot(s.inodes, to) && name == TRASH_DIR)
    ensures TrashOk(MoveNode(s, i, to, name).(trash := s.trash - {i}))
  {
    var t', trash' := Moved(s.inodes, i, to, name), s.trash - {i};
    forall j | j in trash' ensures TrashEntryOk(t', j, trash'[j]) {
      MoveTrashEntry(s, i, to, name, j);
    }
  }

  lemma RestoreNameAfterRefresh(s: FS, i: Id, user: string)
    requires i in s.inodes && i in s.trash && user in s.users && s.users[user] in s.inodes
    ensures RestoreNameFree(Refresh(s, i), i, user) <==> RestoreNameFree(s, i, user)
  {
    RefreshShape(s, i);
    RefreshNames(s, i, RestoreTarget(s, i, user), s.trash[i].name, i);
  }

  lemma RestoreGuarded(s0: FS, i: Id, user: string, io: Io)
    requires WF(s0) && i in s0.inodes
    ensures
      var (s1, tr) := EnsureTrash(s0, user, io);
      && WF(s1)
      && (tr.Some? && s1.inodes[i].parent == tr.value && i in s1.trash ==>
            var to := RestoreTarget(s1, i, user);
            && s1 == s0 && user in s0.users && s0.users[user] in s0.inodes
            && to in s1.inodes
            && (WF(RestoreMove(s1, i, to, UniqueName(s1.inodes, to, s1.trash[i].name, i))) <==> RestoreNameFree(s0, i, user)))
  {
    EnsureTrashWF(s0, user, io);
    var (s1, tr) := EnsureTrash(s0, user, io);
    if tr.Some? && s1.inodes[i].parent == tr.value && i in s1.trash {
      TrashOrigin(s0, user, io);
      assert NodeOk(s0.inodes, i);
      RestoreCanMove(s1, i, user, tr.value);
      var to := RestoreTarget(s1, i, user);
      RestoreMoveWF(s1, i, user, tr.value, UniqueName(s1.inodes, to, s1.trash[i].name, i));
    }
  }

  /** Restoring keeps everything in agreement exactly when the chosen name is free at the target. */
  lemma RestoreKeepsAgreementIff(s: FS, i: Id, user: string, mayAccess: bool, io: Io)
    requires WF(s)
    ensures
      var (s', r) := Restore(s, i, user, mayAccess, io);
      if r.Placed? then
        && i in s.inodes && i in s.trash && user in s.users && s.users[user] in s.inodes
        && (WF(s') <==> RestoreNameFree(s, i, user))
      else WF(s')
  {
    hide WF, RestoreNameFree, EnsureTrash, RestoreMove, UniqueName;
    if i in s.inodes {
      RefreshWF(s, i);
      RefreshShape(s, i);
      RestoreGuarded(Refresh(s, i), i, user, io);
      if i in s.trash && user in s.users && s.users[user] in s.inodes {
        RestoreNameAfterRefresh(s, i, user);
      }
    }
  }

  // ---------------------------------------------------------------- delete

  lemma DropNodeWF(s: FS, i: Id)
    requires WF(s) && i in s.inodes && !IsRoot(s.inodes, i)
    ensures WF(DropNode(s, i))
  {
    var t := s.inodes;
    DropLinked(t, s.index, s.next, i);
    DropIndexed(t, s.index, s.next, i);
    DropRooted(t, s.users, s.index, s.next, i);
    DropAged(t, s.index, s.next, i);
    DropDisk(s, i);
    DropTrash(s, i);
  }

  lemma DropDisk(s: FS, i: Id)
    requires OnDisk(s) && Founded(s.inodes, s.users) && Indexed(s.inodes, s.index, s.next) && i in s.inodes
    ensures OnDisk(DropNode(s, i)) && Founded(Dropped(s.inodes, i), s.users)
  {
    var t' := Dropped(s.inodes, i);
    forall j | j in t' ensures HasFounder(t', s.users, j) { assert HasFounder(s.inodes, s.users, j); }
  }

  lemma DropTrash(s: FS, i: Id)
    requires TrashOk(s) && Linked(s.inodes) && Indexed(s.inodes, s.index, s.next) && i in s.inodes && !IsRoot(s.inodes, i)
    ensures TrashOk(DropNode(s, i))
  {
    var t, t', trash' := s.inodes, Dropped(s.inodes, i), DropNode(s, i).trash;
    forall j | j in trash' ensures TrashEntryOk(t', j, trash'[j]) {
      var p := t[j].parent;
      assert TrashEntryOk(t, j, s.trash[j]);
      DropKeepsParent(t, s.index, s.next, i, j);
      DropKeepsParent(t, s.index, s.next, i, p);
      DropKeepsTrash(t, i, p);
      var q := s.trash[j].parent;
      if q in t' {
        DropKeepsParent(t, s.index, s.next, i, q);
        DropKeepsTrash(t, i, q);
      }
    }
  }

  lemma DeleteWF(s: FS, i: Id, user: string, recursive: bool, io: Io)
    requires WF(s)
    ensures WF(Delete(s, i, user, recursive, io).0)
  {
    if i in s.inodes {
      RefreshWF(s, i);
      var s0 := Refresh(s, i);
      if Guard(s0, i, user, recursive).None? {
        GuardPasses(s0, i, user, recursive);
        DropNodeWF(s0, i);
      }
    }
  }

  // ---------------------------------------------------------------- write

  lemma WriteWF(s: FS, p: Id, name: Name, offset: nat, len: nat, room: bool, io: Io)
    requires WF(s) && offset <= MAX_UINT64 && len <= MAX_UINT64
    ensures WF(Write(s, p, name, offset, len, room, io).0)
  {
    hide WF, WriteChild;
    if p in s.inodes {
      RefreshWF(s, p);
      var s0 := Refresh(s, p);
      var found := FindChild(s0.inodes, s0.inodes[p].children, name);
      if found.Some? { WriteChildWF(s0, found.value, offset, len, room, io); }
    }
  }

  lemma WriteChildWF(s: FS, c: Id, offset: nat, len: nat, room: bool, io: Io)
    requires WF(s) && c in s.inodes && offset <= MAX_UINT64 && len <= MAX_UINT64
    ensures WF(WriteChild(s, c, offset, len, room, io).0)
  {
    hide WF, WriteAt, SizeDiff, OverQuota, QuotaOf, Addressable, RootOf;
    if !s.inodes[c].isDir { WriteAtWF(s, c, offset, len, SizeDiff(s.inodes[c].size, offset, len)); }
  }

  lemma WriteAtWF(s: FS, c: Id, offset: nat, len: nat, d: int)
    requires WF(s) && c in s.inodes && !s.inodes[c].isDir
    ensures WF(WriteAt(s, c, offset, len, d))
  {
    var s' := WriteAt(s, c, offset, len, d);
    assert SameShape(s.inodes, s'.inodes);
    ShapeWF(s, s'.inodes);
  }
}
