/**
What the fileserver's callers are told, and when: the exact condition of every answer, in
terms of the request and the state alone, and what each accepted request leaves behind.
*/
module FileAnswers {
  import opened Options
  import opened Paths
  import opened InodeTree
  import opened FileOps
  import opened FileSafety
  import opened FileSizes
  import opened RoundTrip
  import opened Shelf

  // ---------------------------------------------------------------- the trash directory

  /** A child of the user's root with the name of the trash. */
  ghost predicate NamedTrash(s: FS, user: string, c: Id) {
    && user in s.users && s.users[user] in s.inodes
    && c in s.inodes && c in s.inodes[s.users[user]].children && s.inodes[c].name == ".trash"
  }

  /** The user's trash directory is there, or can be made. */
  ghost predicate TrashAvailable(s: FS, user: string, io: Io) {
    && user in s.users
    && if exists c :: NamedTrash(s, user, c) then exists c :: NamedTrash(s, user, c) && s.inodes[c].isDir else io.mkTrash
  }

  /** The inode lies directly in the user's trash. */
  ghost predicate LiesInTrash(s: FS, user: string, i: Id) {
    i in s.inodes && NamedTrash(s, user, s.inodes[i].parent)
  }

  /** There is at most one. */
  lemma OneTrash(s: FS, user: string, a: Id, b: Id)
    requires WF(s) && NamedTrash(s, user, a) && NamedTrash(s, user, b)
    ensures a == b
  {
    hide Aged, Founded, OnDisk, TrashOk;
    assert NodeOk(s.inodes, s.users[user]);
    assert NodeOk(s.inodes, a) && NodeOk(s.inodes, b);
    if a != b { SiblingsDiffer(s.inodes, s.index, s.next, a, b); }
  }

  /** What making sure of the trash directory comes to. */
  lemma EnsureTrashIs(s: FS, user: string, io: Io)
    requires WF(s)
    ensures var (s1, tr) := EnsureTrash(s, user, io);
      && (tr.Some? <==> TrashAvailable(s, user, io))
      && (tr.Some? ==> (NamedTrash(s, user, tr.value) && s1 == s) || ((forall c :: !NamedTrash(s, user, c)) && tr.value == s.next && tr.value !in s.inodes))
  {
    hide Aged, Founded, OnDisk, TrashOk, AddNode;
    if user in s.users {
      var root := s.users[user];
      var found := FindChild(s.inodes, s.inodes[root].children, ".trash");
      if found.Some? {
        assert NamedTrash(s, user, found.value);
        forall c | NamedTrash(s, user, c) ensures c == found.value { OneTrash(s, user, c, found.value); }
      }
    }
  }

  lemma InTrashIs(s: FS, user: string, io: Io, i: Id)
    requires WF(s) && i in s.inodes && EnsureTrash(s, user, io).1.Some? && !IsRoot(s.inodes, i)
    ensures var (s1, tr) := EnsureTrash(s, user, io);
      i in s1.inodes && s1.inodes[i] == s.inodes[i] && (s1.inodes[i].parent == tr.value <==> LiesInTrash(s, user, i))
  {
    hide Aged, Founded, OnDisk, TrashOk, EnsureTrash, Indexed;
    EnsureTrashIs(s, user, io);
    EnsureTrashWF(s, user, io);
    assert NodeOk(s.inodes, i);
    if LiesInTrash(s, user, i) && NamedTrash(s, user, EnsureTrash(s, user, io).1.value) {
      OneTrash(s, user, s.inodes[i].parent, EnsureTrash(s, user, io).1.value);
    }
  }

  // ---------------------------------------------------------------- trash and delete

  predicate IsOwnRoot(s: FS, i: Id, user: string) {
    user in s.users && s.users[user] == i
  }

  predicate IsOwnTrash(s: FS, i: Id, user: string)
    requires i in s.inodes
  {
    s.inodes[i].name == ".trash" && user in s.users && s.inodes[i].parent == s.users[user]
  }

  /** The inode is the caller's, an ordinary one, and empty unless everything below may go too. */
  predicate MayRemove(s: FS, i: Id, user: string, recursive: bool) {
    && i in s.inodes && !IsOwnRoot(s, i, user) && !IsOwnTrash(s, i, user)
    && s.inodes[i].owner == user && (s.inodes[i].children == [] || recursive)
  }

  /** The refusals trash and delete have in common, each with its exact condition. */
  ghost predicate RemovalRefused(s: FS, i: Id, user: string, recursive: bool, r: Reply) {
    && (r == Failed(NotFound) <==> i !in s.inodes)
    && (r == Failed(IsUserRoot) <==> i in s.inodes && IsOwnRoot(s, i, user))
    && (r == Failed(IsTrashDir) <==> i in s.inodes && !IsOwnRoot(s, i, user) && IsOwnTrash(s, i, user))
    && (r == Failed(PermissionDenied) <==>
          i in s.inodes && !IsOwnRoot(s, i, user) && !IsOwnTrash(s, i, user) && s.inodes[i].owner != user)
    && (r == Failed(NotEmpty) <==>
          i in s.inodes && !IsOwnRoot(s, i, user) && !IsOwnTrash(s, i, user) && s.inodes[i].owner == user
          && s.inodes[i].children != [] && !recursive)
  }

  /** A delete succeeds if and only if the inode may be removed and the disk does its part. */
  lemma DeleteAnswers(s: FS, i: Id, user: string, recursive: bool, io: Io)
    requires WF(s)
    ensures var r := Delete(s, i, user, recursive, io).1;
      && (r.Done? <==> MayRemove(s, i, user, recursive) && io.act)
      && (r == Failed(DiskFailure) <==> MayRemove(s, i, user, recursive) && !io.act)
      && (r.Done? || r.Failed?) && RemovalRefused(s, i, user, recursive, r)
  {
    hide WF, DropNode;
  }

  /** A trash succeeds if and only if the inode may be removed, is not in the trash already, the trash
      directory is there or can be made, and the disk does its part. */
  lemma TrashAnswers(s: FS, i: Id, user: string, recursive: bool, io: Io)
    requires WF(s)
    ensures var r := Trash(s, i, user, recursive, io).1; var may := MayRemove(s, i, user, recursive);
      && (r.Placed? <==> may && TrashAvailable(s, user, io) && !LiesInTrash(s, user, i) && io.act)
      && (r == Failed(TrashIsNotADirectory) <==> may && !TrashAvailable(s, user, io))
      && (r == Failed(AlreadyInTrash) <==> may && TrashAvailable(s, user, io) && LiesInTrash(s, user, i))
      && (r == Failed(DiskFailure) <==> may && TrashAvailable(s, user, io) && !LiesInTrash(s, user, i) && !io.act)
      && (r.Placed? || r.Failed?) && RemovalRefused(s, i, user, recursive, r)
  {
    hide WF, EnsureTrash, TrashMove, Refresh, UniqueName, LiesInTrash, TrashAvailable, IsTrash, IsRoot;
    if i in s.inodes {
      var s0 := Refresh(s, i);
      RefreshWF(s, i);
      RefreshedTrash(s, i, user, io, i);
      if Guard(s0, i, user, recursive).None? {
        GuardPasses(s0, i, user, recursive);
        EnsureTrashIs(s0, user, io);
        if EnsureTrash(s0, user, io).1.Some? { InTrashIs(s0, user, io, i); }
      }
    }
  }

  /** Looking an inode up changes nothing these conditions speak of. */
  lemma RefreshedTrash(s: FS, i: Id, user: string, io: Io, j: Id)
    requires i in s.inodes && j in s.inodes
    ensures var s0 := Refresh(s, i);
      && (TrashAvailable(s0, user, io) <==> TrashAvailable(s, user, io)) && (LiesInTrash(s0, user, j) <==> LiesInTrash(s, user, j))
      && s0.users == s.users && s0.trash == s.trash && s0.inodes.Keys == s.inodes.Keys
      && s0.inodes[j] == s.inodes[j].(size := s0.inodes[j].size)
  {
    hide Refresh;
    RefreshShape(s, i);
    forall c ensures NamedTrash(Refresh(s, i), user, c) <==> NamedTrash(s, user, c) { }
  }

  // ---------------------------------------------------------------- restore

  /** A restore succeeds if and only if the caller has access, the inode lies in the user's trash and has restore metadata,
      and the disk does its part; each refusal has its exact condition. */
  lemma RestoreAnswers(s: FS, i: Id, user: string, mayAccess: bool, io: Io)
    requires WF(s)
    ensures var r := Restore(s, i, user, mayAccess, io).1; var asked := i in s.inodes && mayAccess && TrashAvailable(s, user, io);
      && (r.Placed? <==> asked && LiesInTrash(s, user, i) && i in s.trash && io.act)
      && (r == Failed(NotFound) <==> i !in s.inodes)
      && (r == Failed(PermissionDenied) <==> i in s.inodes && !mayAccess)
      && (r == Failed(TrashIsNotADirectory) <==> i in s.inodes && mayAccess && !TrashAvailable(s, user, io))
      && (r == Failed(NotInTrash) <==> asked && !LiesInTrash(s, user, i))
      && (r == Failed(NoRestoreMetadata) <==> asked && LiesInTrash(s, user, i) && i !in s.trash)
      && (r == Failed(DiskFailure) <==> asked && LiesInTrash(s, user, i) && i in s.trash && !io.act)
      && (r.Placed? || r.Failed?)
  {
    hide WF, EnsureTrash, RestoreMove, Refresh, NamedTrash, UniqueName, RestoreTarget, TrashOf;
    if i in s.inodes && mayAccess {
      var s0 := Refresh(s, i);
      RefreshWF(s, i);
      RefreshedTrash(s, i, user, io, i);
      EnsureTrashIs(s0, user, io);
      if EnsureTrash(s0, user, io).1.Some? {
        NotItsOwnTrash(s0, user, io, i);
        RestoreTargetIsDir(s0, i, user, io);
      }
    }
  }

  /** No root lies in a trash directory. */
  lemma NotItsOwnTrash(s: FS, user: string, io: Io, i: Id)
    requires WF(s) && i in s.inodes && EnsureTrash(s, user, io).1.Some?
    ensures var (s1, tr) := EnsureTrash(s, user, io);
      i in s1.inodes && (s1.inodes[i].parent == tr.value <==> LiesInTrash(s, user, i))
  {
    hide Aged, Founded, OnDisk, TrashOk, EnsureTrash, Indexed;
    EnsureTrashWF(s, user, io);
    EnsureTrashIs(s, user, io);
    if IsRoot(s.inodes, i) {
      assert IsTrash(EnsureTrash(s, user, io).0.inodes, EnsureTrash(s, user, io).1.value);
      RootIsNoTrash(s, user, i);
    } else {
      InTrashIs(s, user, io, i);
    }
  }

  lemma RootIsNoTrash(s: FS, user: string, i: Id)
    requires WF(s) && i in s.inodes && IsRoot(s.inodes, i)
    ensures !NamedTrash(s, user, i)
  {
    if user in s.users { assert NodeOk(s.inodes, s.users[user]); }
  }

  lemma RestoreTargetIsDir(s: FS, i: Id, user: string, io: Io)
    requires WF(s) && i in s.inodes && EnsureTrash(s, user, io).1.Some?
    ensures var (s1, tr) := EnsureTrash(s, user, io);
      i in s1.inodes && (s1.inodes[i].parent == tr.value && i in s1.trash ==>
        RestoreTarget(s1, i, user) in s1.inodes && s1.inodes[RestoreTarget(s1, i, user)].isDir)
  {
    hide Aged, Founded, OnDisk, Indexed, EnsureTrash;
    EnsureTrashWF(s, user, io);
    var (s1, tr) := EnsureTrash(s, user, io);
    if s1.inodes[i].parent == tr.value && i in s1.trash {
      RestoreCanMove(s1, i, user, tr.value);
    }
  }

  /** The decimal digits are those of the number. */
  function ValueOf(d: string): int {
    if d == "" then 0 else ValueOf(d[..|d| - 1]) * 10 + (d[|d| - 1] as int - '0' as int)
  }

  lemma {:induction false} DigitsExact(n: nat)
    ensures ValueOf(Digits(n)) == n && Digits(n) != "" && (n > 0 ==> Digits(n)[0] != '0')
    ensures forall c :: c in Digits(n) ==> '0' <= c <= '9'
  {
    if n < 10 {
      assert Digits(n)[..0] == "";
    } else {
      DigitsExact(n / 10);
      assert Digits(n)[..|Digits(n)| - 1] == Digits(n / 10);
    }
  }

  ghost predicate HasChild(s: FS, d: Id, name: Name) {
    d in s.inodes && exists c :: c in s.inodes[d].children && c in s.inodes && s.inodes[c].name == name
  }

  /** The wanted name or, if the directory has a child of that name, the name with the inode's number. */
  lemma UniqueNameExact(s: FS, d: Id, wanted: Name, i: Id)
    requires d in s.inodes
    ensures UniqueName(s.inodes, d, wanted, i) == if HasChild(s, d, wanted) then wanted + "__" + Digits(i) else wanted
  {
  }

  /** A restored inode hangs under the parent the trash remembers, or under the user's root once that is gone, under its
      old name or, if that is taken there, with its number appended. */
  lemma RestorePlace(s: FS, i: Id, user: string, mayAccess: bool, io: Io)
    requires WF(s) && Restore(s, i, user, mayAccess, io).1.Placed?
    ensures i in s.trash && user in s.users
    ensures var (s', r) := Restore(s, i, user, mayAccess, io); var m := s.trash[i];
      var to := if m.parent in s.inodes then m.parent else s.users[user];
      && i in s'.inodes && s'.inodes[i].parent == to && s'.inodes[i].name == r.name
      && r.name == (if HasChild(s, to, m.name) then m.name + "__" + Digits(i) else m.name)
  {
    hide WF, EnsureTrash, Refresh, Digits, UniqueName, Reattach, RenamePrefix, TrashAvailable, LiesInTrash;
    RestoreAnswers(s, i, user, mayAccess, io);
    var s0 := Refresh(s, i);
    RefreshWF(s, i);
    SameShapeHere(s, i);
    EnsureTrashWF(s0, user, io);
    var (s1, tr) := EnsureTrash(s0, user, io);
    RestoreGuarded(s0, i, user, io);
    var to := RestoreTarget(s1, i, user);
    UniqueNameExact(s1, to, s1.trash[i].name, i);
    RefreshedChildren(s, i, to, s.trash[i].name);
  }

  lemma SameShapeHere(s: FS, i: Id)
    requires i in s.inodes
    ensures var s0 := Refresh(s, i);
      s0.inodes.Keys == s.inodes.Keys && s0.trash == s.trash && s0.users == s.users && s0.shared == s.shared && s0.next == s.next
  {
  }

  lemma RefreshedChildren(s: FS, i: Id, d: Id, name: Name)
    requires i in s.inodes && d in s.inodes
    ensures HasChild(Refresh(s, i), d, name) <==> HasChild(s, d, name)
  {
    hide Refresh;
    RefreshShape(s, i);
  }

  // ---------------------------------------------------------------- create

  predicate GoodName(name: Name) {
    name != "" && name != "." && name != ".." && '/' !in name && '\\' !in name
  }

  predicate KeptName(name: Name) {
    name == ".trash" || name == ".dvfs_inodes_index.json" || name == "quota_config.json" || ".dvfs_" <= name
  }

  /** The directory is the user's trash, or lies in it. */
  ghost predicate InsideTrashOf(s: FS, user: string, p: Id)
    requires p in s.inodes
  {
    exists c :: NamedTrash(s, user, c) && s.inodes[c].isDir && Under(s.inodes[p].path, s.inodes[c].path)
  }

  /** A create answers the child that is already there; otherwise it makes one unless the name is unfit, the place is no
      directory or lies in the trash, or the disk refuses. Each refusal has its exact condition. */
  lemma CreateAnswers(s: FS, p: Id, name: Name, user: string, isDir: bool, io: Io)
    requires WF(s)
    ensures var (s', r) := Create(s, p, name, user, isDir, io);
      var place := GoodName(name) && !KeptName(name) && p in s.inodes && s.inodes[p].isDir;
      && (r == Failed(InvalidName) <==> !GoodName(name))
      && (r == Failed(ReservedName) <==> GoodName(name) && KeptName(name))
      && (r == Failed(NotFound) <==> GoodName(name) && !KeptName(name) && p !in s.inodes)
      && (r == Failed(NotADirectory) <==> GoodName(name) && !KeptName(name) && p in s.inodes && !s.inodes[p].isDir)
      && (r == Failed(InsideTrash) <==> place && !HasChild(s, p, name) && InsideTrashOf(s, user, p))
      && (r == Failed(DiskFailure) <==> place && !HasChild(s, p, name) && !InsideTrashOf(s, user, p) && !io.act)
      && (r.Created? <==> place && (HasChild(s, p, name) || (!InsideTrashOf(s, user, p) && io.act)))
      && (r.Created? && HasChild(s, p, name) ==>
            s' == s && r.id in s.inodes[p].children && r.id in s.inodes && s.inodes[r.id].name == name)
      && (r.Created? && !HasChild(s, p, name) ==> Made(s, s', p, name, isDir, r.id))
  {
    hide WF, EnsureTrash, Refresh, NamedTrash, AddNode, Made;
    if p in s.inodes && s.inodes[p].isDir {
      var found := FindChild(s.inodes, s.inodes[p].children, name);
      assert found.Some? <==> HasChild(s, p, name);
      if found.None? {
        InsideIs(s, user, io, p);
        MadeIs(s, p, name, user, isDir, io);
      }
    }
  }

  lemma InsideIs(s: FS, user: string, io: Io, p: Id)
    requires WF(s) && p in s.inodes
    ensures var (s1, tr) := EnsureTrash(s, user, io);
      p in s1.inodes && (tr.Some? && Under(s.inodes[p].path, s1.inodes[tr.value].path) <==> InsideTrashOf(s, user, p))
  {
    hide Aged, Founded, OnDisk, TrashOk, Rooted;
    EnsureTrashIs(s, user, io);
    var (s1, tr) := EnsureTrash(s, user, io);
    if tr.Some? && s1 == s && NamedTrash(s, user, tr.value) {
      forall c | NamedTrash(s, user, c) ensures c == tr.value { OneTrash(s, user, c, tr.value); }
    } else if tr.Some? {
      NewTrashHoldsNothing(s, user, io, p);
    } else {
      NoTrashThere(s, user, io);
    }
  }

  lemma NoTrashThere(s: FS, user: string, io: Io)
    requires !TrashAvailable(s, user, io)
    ensures forall c :: NamedTrash(s, user, c) ==> !s.inodes[c].isDir
  {
  }

  lemma NewTrashHoldsNothing(s: FS, user: string, io: Io, p: Id)
    requires WF(s) && p in s.inodes && EnsureTrash(s, user, io).1.Some? && EnsureTrash(s, user, io).1.value !in s.inodes
    ensures var (s1, tr) := EnsureTrash(s, user, io); !Under(s.inodes[p].path, s1.inodes[tr.value].path)
  {
    hide Aged, Founded, OnDisk, TrashOk;
    var root := s.users[user];
    FreeMeansVacant(s.inodes, s.index, s.next, root, ".trash");
    assert s.inodes[p].path in s.index;
  }

  /** A new empty inode in the directory; apart from it, and the trash directory made on the way, nothing has changed. */
  ghost predicate Made(s: FS, s': FS, p: Id, name: Name, isDir: bool, id: Id) {
    && p in s.inodes && id !in s.inodes && id in s'.inodes && p in s'.inodes
    && s'.inodes[id] == Inode(isDir, name, s.inodes[p].path + [name], s.inodes[p].owner, p, [], 0)
    && s'.inodes[id].path in s'.disk && s'.disk[s'.inodes[id].path] == (if isDir then Dir else File(0))
    && s'.inodes[id].path in s'.index && s'.index[s'.inodes[id].path] == id
    && id in s'.inodes[p].children
    && (forall j :: j in s.inodes ==> j in s'.inodes && s'.inodes[j] == s.inodes[j].(children := s'.inodes[j].children))
    && (forall j :: j in s.inodes && j != p && !IsRoot(s.inodes, j) ==> s'.inodes[j] == s.inodes[j])
    && (forall j :: j in s'.inodes && j !in s.inodes && j != id ==> s'.inodes[j].name == ".trash" && s'.inodes[j].isDir)
    && s'.shared == s.shared && s'.trash == s.trash && s'.users == s.users && s'.quotas == s.quotas
  }

  lemma MadeIs(s: FS, p: Id, name: Name, user: string, isDir: bool, io: Io)
    requires WF(s) && p in s.inodes
    ensures var (s', r) := CreateIn(s, p, name, user, isDir, io); r.Created? ==> Made(s, s', p, name, isDir, r.id)
  {
    hide WF, EnsureTrash, AddNode, Under;
    EnsureTrashWF(s, user, io);
    EnsureTrashAdds(s, user, io);
    AddedIs(s, EnsureTrash(s, user, io).0, p, name, isDir);
  }

  /** Making sure of the trash directory adds at most that. */
  lemma EnsureTrashAdds(s: FS, user: string, io: Io)
    requires WF(s)
    ensures var s1 := EnsureTrash(s, user, io).0;
      forall j :: j in s1.inodes && j !in s.inodes ==> s1.inodes[j].name == ".trash" && s1.inodes[j].isDir
  {
    hide Linked, Indexed, Aged, Founded, OnDisk, TrashOk;
  }

  lemma AddedIs(s: FS, s1: FS, p: Id, name: Name, isDir: bool)
    requires p in s.inodes && WF(s1) && Extends(s, s1)
    requires forall j :: j in s1.inodes && j !in s.inodes ==> s1.inodes[j].name == ".trash" && s1.inodes[j].isDir
    ensures p in s1.inodes && Made(s, AddNode(s1, p, name, isDir), p, name, isDir, s1.next)
  {
    hide WF;
    NewIdIsFresh(s1);
  }

  lemma NewIdIsFresh(s: FS)
    requires WF(s)
    ensures s.next !in s.inodes
  {
  }

  // ---------------------------------------------------------------- first login

  /** A user's root is answered if and only if it is there, or the disk lets it be made, and the trash is there or can be made. */
  lemma OpenAnswers(s: FS, user: string, io: Io)
    requires WF(s)
    ensures var (s', r) := OpenRoot(s, user, io);
      && (r == Failed(DiskFailure) <==> user !in s.users && !io.act)
      && (r == Failed(TrashIsNotADirectory) <==>
            if user in s.users then !TrashAvailable(s, user, io) else io.act && !io.mkTrash)
      && (r.Created? || r.Failed?)
      && (r.Created? ==> user in s'.users && r.id == s'.users[user] && r.id in s'.inodes && exists c :: NamedTrash(s', user, c) && s'.inodes[c].isDir)
      && (r.Created? && user in s.users ==> r.id == s.users[user])
      && (r.Created? && user !in s.users ==>
            r.id !in s.inodes && s'.inodes[r.id] == Inode(true, user, [user], user, r.id, s'.inodes[r.id].children, 0))
  {
    hide Aged, Founded, OnDisk, TrashOk, Rooted, Linked, Indexed;
    NewRootWF(s, user);
    NewIdIsFresh(s);
    var s0 := if user in s.users then s else NewRoot(s, user);
    if user in s.users || io.act {
      EnsureTrashIs(s0, user, io);
      EnsureTrashWF(s0, user, io);
      if user !in s.users { NewRootHasNoTrash(s, user, io); }
      var (s1, tr) := EnsureTrash(s0, user, io);
      if tr.Some? { TrashIsThere(s1, user, tr.value); }
    }
  }

  lemma NewRootHasNoTrash(s: FS, user: string, io: Io)
    requires WF(s) && user !in s.users
    ensures WF(NewRoot(s, user)) && (TrashAvailable(NewRoot(s, user), user, io) <==> io.mkTrash)
  {
    hide WF;
    NewRootWF(s, user);
    assert NewRoot(s, user).inodes[s.next].children == [];
  }

  lemma TrashIsThere(s: FS, user: string, tr: Id)
    requires WF(s) && TrashOf(s, user, tr)
    ensures NamedTrash(s, user, tr) && s.inodes[tr].isDir
  {
    TrashListed(s, user, tr);
  }

  // ---------------------------------------------------------------- write

  /** The child a write goes to. */
  ghost predicate Addresses(s: FS, p: Id, name: Name, c: Id) {
    p in s.inodes && c in s.inodes[p].children && c in s.inodes && s.inodes[c].name == name
  }

  /** How many bytes longer the file becomes. */
  function Growth(size: nat, offset: nat, len: nat): nat {
    if offset + len > size then offset + len - size else 0
  }

  /** The user's own quota, or sixteen gibibytes. */
  function Allowance(s: FS, user: string): nat {
    if user in s.quotas && s.quotas[user] > 0 then s.quotas[user] else 17_179_869_184
  }

  /** The growth counts as one: it fits the signed 64-bit range it is computed in. */
  predicate Charged(size: nat, offset: nat, len: nat) {
    0 < Growth(size, offset, len) <= 0x7FFF_FFFF_FFFF_FFFF
  }

  /** The growth would take the user's root above the quota. */
  ghost predicate TooMuch(s: FS, c: Id, offset: nat, len: nat)
    requires c in s.inodes && s.inodes[c].owner in s.users && s.users[s.inodes[c].owner] in s.inodes
  {
    var owner, size := s.inodes[c].owner, s.inodes[c].size;
    Charged(size, offset, len) && s.inodes[s.users[owner]].size + Growth(size, offset, len) > Allowance(s, owner)
  }

  /** An offset the operating system can address, and an end too unless nothing is written. */
  predicate InRange(offset: nat, len: nat) {
    offset <= 0x7FFF_FFFF_FFFF_FFFF && (len > 0 ==> offset + len <= 0x7FFF_FFFF_FFFF_FFFF)
  }

  lemma OwnerHasRoot(s: FS, c: Id)
    requires WF(s) && c in s.inodes
    ensures s.inodes[c].owner in s.users && s.users[s.inodes[c].owner] in s.inodes
    ensures RootOf(s.inodes, c) == s.users[s.inodes[c].owner] && s.inodes[RootOf(s.inodes, c)].name == s.inodes[c].owner
  {
    hide Aged, OnDisk, TrashOk, RootOf;
    var r := RootOf(s.inodes, c);
    assert NodeOk(s.inodes, r);
    assert HasFounder(s.inodes, s.users, c);
  }

  /** The signed difference is the growth, or negative where that does not fit. */
  lemma DiffIs(size: nat, offset: nat, len: nat)
    requires size <= MAX_INT64 && offset + len <= MAX_UINT64
    ensures var d := SizeDiff(size, offset, len);
      (d > 0 <==> Charged(size, offset, len)) && (d > 0 ==> d == Growth(size, offset, len)) && (Growth(size, offset, len) == 0 ==> d == 0)
  {
    hide WrapInt64;
    var g := Growth(size, offset, len);
    WrapIs(AsInt64(NewSize(size, offset, len)) - AsInt64(size));
  }

  lemma WrapIs(x: int)
    requires -0x1_0000_0000_0000_0000 < x < 0x1_0000_0000_0000_0000
    ensures WrapInt64(x) == if x < -0x8000_0000_0000_0000 then x + 0x1_0000_0000_0000_0000
                            else if x <= 0x7FFF_FFFF_FFFF_FFFF then x else x - 0x1_0000_0000_0000_0000
  {
  }

  /** Each answer of a write to a file, with its exact condition. */
  lemma WriteChildAnswers(s: FS, c: Id, offset: nat, len: nat, room: bool, io: Io)
    requires WF(s) && c in s.inodes && (s.inodes[c].isDir || s.inodes[c].size <= MAX_INT64) && offset <= MAX_UINT64 && len <= MAX_UINT64
    ensures s.inodes[c].owner in s.users && s.users[s.inodes[c].owner] in s.inodes
    ensures var r := WriteChild(s, c, offset, len, room, io).1;
      var asked := !s.inodes[c].isDir && io.open;
      var fits := offset + len <= 0xFFFF_FFFF_FFFF_FFFF;
      var granted := asked && fits && !TooMuch(s, c, offset, len) && (Charged(s.inodes[c].size, offset, len) ==> room);
      && (r == Failed(NotAFile) <==> s.inodes[c].isDir)
      && (r == Failed(OffsetOverflow) <==> asked && !fits)
      && (r == Failed(QuotaExceeded) <==> asked && fits && TooMuch(s, c, offset, len))
      && (r == Failed(DiskFull) <==> asked && fits && !TooMuch(s, c, offset, len) && Charged(s.inodes[c].size, offset, len) && !room)
      && (r == Failed(DiskFailure) <==> !s.inodes[c].isDir && (!io.open || (granted && !(io.act && InRange(offset, len)))))
      && (r.Done? <==> granted && io.act && InRange(offset, len))
  {
    hide WF, SizeDiff, WriteAt, RootOf, Charged;
    OwnerHasRoot(s, c);
    if !s.inodes[c].isDir && offset + len <= MAX_UINT64 { DiffIs(s.inodes[c].size, offset, len); }
  }

  /** What an accepted write leaves: the file as long as the old end or the end of the write, whichever is
      further, everything above it larger by the difference, in 64-bit arithmetic, and the rest untouched. */
  ghost predicate Written(s: FS, s': FS, c: Id, offset: nat, len: nat) {
    && c in s.inodes && s'.inodes.Keys == s.inodes.Keys
    && var g, p := Growth(s.inodes[c].size, offset, len), s.inodes[c].path;
    && (forall j :: j in s.inodes ==> s'.inodes[j] == s.inodes[j].(size := Enlarged(s.inodes, c, g, j)))
    && s'.disk.Keys == s.disk.Keys
    && (forall q :: q in s.disk && q != p ==> s'.disk[q] == s.disk[q])
    && (p in s.disk && s.disk[p].File? && len > 0 ==> s'.disk[p] == File(s.disk[p].bytes + Growth(s.disk[p].bytes, offset, len)))
    && (p in s.disk && !(s.disk[p].File? && len > 0) ==> s'.disk[p] == s.disk[p])
    && s'.index == s.index && s'.users == s.users && s'.trash == s.trash && s'.shared == s.shared && s'.quotas == s.quotas && s'.next == s.next
  }

  /** The size of `j` once `c` has grown by `g` bytes. */
  function Enlarged(t: Tree, c: Id, g: nat, j: Id): nat
    requires c in t && j in t
  {
    if g > 0 && Under(t[c].path, t[j].path) then (t[j].size + g) % 0x1_0000_0000_0000_0000 else t[j].size
  }

  lemma WriteChildLeaves(s: FS, c: Id, offset: nat, len: nat, room: bool, io: Io)
    requires WF(s) && c in s.inodes && s.inodes[c].size <= MAX_INT64 && offset <= MAX_UINT64 && len <= MAX_UINT64
    requires WriteChild(s, c, offset, len, room, io).1.Done?
    ensures Written(s, WriteChild(s, c, offset, len, room, io).0, c, offset, len)
  {
    hide WF, SizeDiff, RootOf, Charged, OverQuota, QuotaOf;
    DiffIs(s.inodes[c].size, offset, len);
    SmallGrowth(s.inodes[c].size, offset, len);
  }

  /** From sizes as on disk, a file that bytes were written to is, in the cache and on the disk, as long as its old end or the
      end of the write, whichever is further; everything above it has grown by the difference, where that fits. */
  lemma WrittenSizes(s: FS, s': FS, c: Id, offset: nat, len: nat)
    requires Written(s, s', c, offset, len) && SizesOnDisk(s) && Bounded(s) && !s.inodes[c].isDir && len > 0 && InRange(offset, len)
    ensures var p, size := s.inodes[c].path, s.inodes[c].size;
      var longer := if offset + len > size then offset + len else size;
      && p in s'.disk && s'.disk[p] == File(longer) && s'.inodes[c].size == longer
      && forall j :: j in s.inodes && Under(p, s.inodes[j].path) && s.inodes[j].size + (longer - size) <= 0xFFFF_FFFF_FFFF_FFFF ==>
           s'.inodes[j].size == s.inodes[j].size + (longer - size)
  {
    var size := s.inodes[c].size;
    assert Under(s.inodes[c].path, s.inodes[c].path);
    hide Enlarged;
    var g := Growth(size, offset, len);
    forall j | j in s.inodes && Under(s.inodes[c].path, s.inodes[j].path) && s.inodes[j].size + g <= MAX_UINT64
      ensures s'.inodes[j].size == s.inodes[j].size + g
    {
      EnlargedFits(s.inodes, c, g, j);
    }
  }

  lemma EnlargedFits(t: Tree, c: Id, g: nat, j: Id)
    requires c in t && j in t && Under(t[c].path, t[j].path) && t[j].size + g <= MAX_UINT64
    ensures Enlarged(t, c, g, j) == t[j].size + g
  {
    SmallMod(t[j].size + g);
  }

  lemma SmallGrowth(size: nat, offset: nat, len: nat)
    requires InRange(offset, len)
    ensures Growth(size, offset, len) > 0 ==> Charged(size, offset, len)
  {
  }

  /** Each answer of a write, with its exact condition; an accepted one leaves what `Written` says. */
  lemma WriteAnswers(s: FS, p: Id, name: Name, offset: nat, len: nat, room: bool, io: Io, c: Id)
    requires WF(s) && Bounded(s) && offset <= MAX_UINT64 && len <= MAX_UINT64
    ensures !HasChild(s, p, name) <==> Write(s, p, name, offset, len, room, io).1 == Failed(NotFound)
    ensures Addresses(s, p, name, c) ==>
      && s.inodes[c].owner in s.users && s.users[s.inodes[c].owner] in s.inodes
      && var (s', r) := Write(s, p, name, offset, len, room, io);
      var asked := !s.inodes[c].isDir && io.open;
      var fits := offset + len <= 0xFFFF_FFFF_FFFF_FFFF;
      var granted := asked && fits && !TooMuch(s, c, offset, len) && (Charged(s.inodes[c].size, offset, len) ==> room);
      && (r == Failed(NotAFile) <==> s.inodes[c].isDir)
      && (r == Failed(OffsetOverflow) <==> asked && !fits)
      && (r == Failed(QuotaExceeded) <==> asked && fits && TooMuch(s, c, offset, len))
      && (r == Failed(DiskFull) <==> asked && fits && !TooMuch(s, c, offset, len) && Charged(s.inodes[c].size, offset, len) && !room)
      && (r == Failed(DiskFailure) <==> !s.inodes[c].isDir && (!io.open || (granted && !(io.act && InRange(offset, len)))))
      && (r.Done? <==> granted && io.act && InRange(offset, len))
      && (r.Done? ==> Written(s, s', c, offset, len)) && (r.Failed? ==> s' == s)
  {
    hide WF, Bounded, WriteChild, Written, TooMuch, Charged;
    if p in s.inodes {
      RefreshedChildren(s, p, p, name);
      RefreshWF(s, p);
      var found := FindChild(s.inodes, s.inodes[p].children, name);
      if found.Some? {
        HoldsChildren(s, p);
        if Addresses(s, p, name, c) {
          OneChild(s, p, name, c, found.value);
          FileBounded(s, c);
          WriteChildAnswers(s, c, offset, len, room, io);
          if WriteChild(s, c, offset, len, room, io).1.Done? { WriteChildLeaves(s, c, offset, len, room, io); }
          RefusedWrite(s, c, offset, len, room, io);
        }
        NeverNotFound(s, found.value, offset, len, room, io);
      }
    }
  }

  lemma NeverNotFound(s: FS, c: Id, offset: nat, len: nat, room: bool, io: Io)
    requires WF(s) && c in s.inodes && offset <= MAX_UINT64 && len <= MAX_UINT64
    ensures WriteChild(s, c, offset, len, room, io).1 != Failed(NotFound)
  {
    hide WF, SizeDiff, WriteAt, RootOf, OverQuota, QuotaOf;
  }

  lemma RefusedWrite(s: FS, c: Id, offset: nat, len: nat, room: bool, io: Io)
    requires WF(s) && c in s.inodes && offset <= MAX_UINT64 && len <= MAX_UINT64
    ensures WriteChild(s, c, offset, len, room, io).1.Failed? ==> WriteChild(s, c, offset, len, room, io).0 == s
  {
    hide WF, SizeDiff, WriteAt, RootOf, OverQuota, QuotaOf;
  }

  /** What holds children is a directory, which a lookup leaves as it is. */
  lemma HoldsChildren(s: FS, p: Id)
    requires WF(s) && p in s.inodes && s.inodes[p].children != []
    ensures Refresh(s, p) == s
  {
    assert NodeOk(s.inodes, p);
  }

  lemma OneChild(s: FS, p: Id, name: Name, a: Id, b: Id)
    requires WF(s) && Addresses(s, p, name, a) && Addresses(s, p, name, b)
    ensures a == b
  {
    hide Aged, Founded, OnDisk, TrashOk;
    assert NodeOk(s.inodes, p) && NodeOk(s.inodes, a) && NodeOk(s.inodes, b);
    if a != b { SiblingsDiffer(s.inodes, s.index, s.next, a, b); }
  }

  lemma FileBounded(s: FS, c: Id)
    requires Bounded(s) && c in s.inodes
    ensures s.inodes[c].isDir || s.inodes[c].size <= MAX_INT64
  {
  }

  // ---------------------------------------------------------------- what trash and delete leave elsewhere

  /** The inode hangs in the user's trash under the name told, its metadata records where it came from with the shares
      of its subtree, which are gone from the share table; whatever lies outside the subtree has only lost or gained a child. */
  ghost predicate Trashed(s: FS, s': FS, i: Id, user: string, name: Name) {
    && i in s.inodes && i in s'.inodes
    && var n, base := s.inodes[i], s.inodes[i].path;
    && NamedTrash(s', user, s'.inodes[i].parent) && s'.inodes[i].name == name
    && name == (if HasChild(s, s'.inodes[i].parent, n.name) then n.name + "__" + Digits(i) else n.name)
    && (forall j :: j in s'.trash <==> j == i || j in s.trash)
    && (forall j :: j in s.trash && j != i ==> s'.trash[j] == s.trash[j])
    && s'.trash[i].parent == n.parent && s'.trash[i].name == n.name && s'.trash[i].relPath == base
    && (forall q :: q in s'.trash[i].snapshots <==> q in s.shared && Under(q, base))
    && (forall q :: q in s'.trash[i].snapshots ==> s'.trash[i].snapshots[q] == s.shared[q])
    && (forall q :: q in s'.shared <==> q in s.shared && !Under(q, base))
    && (forall q :: q in s'.shared ==> s'.shared[q] == s.shared[q])
    && (forall j :: j in s.inodes && !Under(s.inodes[j].path, base) ==> Around(s, s', i, j))
  }

  ghost predicate Around(s: FS, s': FS, i: Id, j: Id) {
    && i in s.inodes && j in s.inodes && j in s'.inodes && i in s'.inodes && s'.inodes[i].parent in s'.inodes
    && s'.inodes[j] == s.inodes[j].(children := s'.inodes[j].children)
    && forall c :: c in s'.inodes[j].children <==>
         (c in s.inodes[j].children && c != i) || (c == i && j == s'.inodes[i].parent) || (c == s'.inodes[i].parent && c !in s.inodes && j == s'.inodes[c].parent)
  }

  lemma TrashLeaves(s: FS, i: Id, user: string, recursive: bool, io: Io)
    requires WF(s) && Trash(s, i, user, recursive, io).1.Placed?
    ensures var (s', r) := Trash(s, i, user, recursive, io); Trashed(s, s', i, user, r.name)
  {
    hide WF, EnsureTrash, TrashMove, Refresh, Trashed, UniqueName, Digits, Guard, NamedTrash, LiesInTrash, TrashAvailable;
    TrashAnswers(s, i, user, recursive, io);
    TrashSucceeded(s, i, user, recursive, io);
    var s0 := Refresh(s, i);
    SameShapeHere(s, i);
    var (s1, tr) := EnsureTrash(s0, user, io);
    var name := UniqueName(s1.inodes, tr.value, s1.inodes[i].name, i);
    assert Trash(s, i, user, recursive, io).1 == Placed(name);
    EnsuredForTrash(s, i, user, io);
    TrashMoveLeaves(s, s1, i, user, tr.value, name);
  }

  /** The state the move starts from: the caller's, but for the size looked up and the trash directory made. */
  ghost predicate Ready(s: FS, s1: FS, i: Id, user: string, tr: Id) {
    && WF(s) && i in s.inodes && i in s1.inodes && tr in s1.inodes && NamedTrash(s1, user, tr) && s1.inodes[i].parent != tr && tr != i && s1.shared == s.shared && s1.trash == s.trash
    && s1.inodes[i] == s.inodes[i].(size := s1.inodes[i].size) && !Under(s1.inodes[tr].path, s.inodes[i].path)
    && s1.inodes[i].parent in s.inodes && !Under(s.inodes[s1.inodes[i].parent].path, s.inodes[i].path)
    && (forall j :: j in s.inodes && j != i ==> j in s1.inodes && s1.inodes[j] == s.inodes[j].(children := s1.inodes[j].children))
    && (forall j :: j in s.inodes ==> Gained(s, s1, tr, j))
    && (forall name :: HasChild(s1, tr, name) <==> HasChild(s, tr, name))
  }

  /** The only child a directory may have gained is a trash directory that was not there. */
  ghost predicate Gained(s: FS, s1: FS, tr: Id, j: Id) {
    && j in s.inodes && j in s1.inodes && tr in s1.inodes
    && forall c :: c in s1.inodes[j].children <==> c in s.inodes[j].children || (c == tr && c !in s.inodes && j == s1.inodes[tr].parent)
  }

  lemma EnsuredForTrash(s: FS, i: Id, user: string, io: Io)
    requires WF(s) && i in s.inodes && WF(Refresh(s, i)) && EnsureTrash(Refresh(s, i), user, io).1.Some?
    requires var s0 := Refresh(s, i); !IsRoot(s0.inodes, i) && !IsTrash(s0.inodes, i) && s0.inodes[i].owner == user
    requires var (s1, tr) := EnsureTrash(Refresh(s, i), user, io); i in s1.inodes && s1.inodes[i].parent != tr.value
    ensures var (s1, tr) := EnsureTrash(Refresh(s, i), user, io); Ready(s, s1, i, user, tr.value)
  {
    hide WF, EnsureTrash, Refresh, IsTrash, IsRoot;
    var s0 := Refresh(s, i);
    var (s1, tr) := EnsureTrash(s0, user, io);
    RefreshShape(s, i);
    SameShapeHere(s, i);
    RefreshedOthers(s, i);
    ParentStands(s, i);
    EnsureTrashWF(s0, user, io);
    ParentStands(s0, i);
    ExtendsKind(s0, s1, i);
    TrashIsThere(s1, user, tr.value);
    assert s1.inodes[i] == s0.inodes[i] by { NoRootExtended(s0, s1, i); }
    TrashCanMove(s1, i, user, tr.value);
    ParentOutside(s1, i);
    EnsuredChildren(s0, user, io);
    forall name ensures HasChild(s1, tr.value, name) <==> HasChild(s, tr.value, name) {
      if tr.value in s.inodes { RefreshedChildren(s, i, tr.value, name); }
    }
    forall j | j in s.inodes ensures Gained(s, s1, tr.value, j) {
      assert Gained(s0, s1, tr.value, j);
      assert s0.inodes[j] == s.inodes[j].(size := s0.inodes[j].size);
    }
    forall j | j in s.inodes && j != i ensures j in s1.inodes && s1.inodes[j] == s.inodes[j].(children := s1.inodes[j].children) { assert s0.inodes[j] == s.inodes[j]; }
  }

  lemma RefreshedOthers(s: FS, i: Id)
    requires i in s.inodes
    ensures forall j :: j in s.inodes && j != i ==> j in Refresh(s, i).inodes && Refresh(s, i).inodes[j] == s.inodes[j]
  {
  }

  lemma NoRootExtended(s: FS, s1: FS, i: Id)
    requires Extends(s, s1) && i in s.inodes && !IsRoot(s.inodes, i)
    ensures i in s1.inodes && s1.inodes[i] == s.inodes[i]
  {
  }

  lemma ParentStands(s: FS, i: Id)
    requires WF(s) && i in s.inodes
    ensures s.inodes[i].parent in s.inodes
  {
    assert NodeOk(s.inodes, i);
  }

  lemma ParentOutside(s: FS, i: Id)
    requires WF(s) && i in s.inodes && !IsRoot(s.inodes, i)
    ensures s.inodes[i].parent in s.inodes && !Under(s.inodes[s.inodes[i].parent].path, s.inodes[i].path)
  {
    ParentPathShorter(s.inodes, i);
  }

  /** The trash directory made on the way is the only new child, and it has none. */
  lemma EnsuredChildren(s: FS, user: string, io: Io)
    requires WF(s) && EnsureTrash(s, user, io).1.Some?
    ensures var (s1, tr) := EnsureTrash(s, user, io);
      && tr.value in s1.inodes
      && (forall j :: j in s.inodes ==> Gained(s, s1, tr.value, j))
      && (forall name :: HasChild(s1, tr.value, name) <==> HasChild(s, tr.value, name))
  {
    hide Aged, Founded, OnDisk, TrashOk, Linked;
    EnsureTrashIs(s, user, io);
  }

  lemma TrashMoveLeaves(s: FS, s1: FS, i: Id, user: string, tr: Id, name: Name)
    requires Ready(s, s1, i, user, tr) && name == UniqueName(s1.inodes, tr, s1.inodes[i].name, i)
    ensures Trashed(s, TrashMove(s1, i, tr, name), i, user, name)
  {
    hide WF, Digits, UniqueName, RenamePrefix, NamedTrash, HasChild;
    var s' := TrashMove(s1, i, tr, name);
    UniqueNameExact(s1, tr, s1.inodes[i].name, i);
    TrashStays(s1, i, user, tr, name);
    forall j | j in s.inodes && !Under(s.inodes[j].path, s.inodes[i].path) ensures Around(s, s', i, j) { AroundIs(s, s1, i, user, tr, name, j); }
  }

  lemma TrashStays(s1: FS, i: Id, user: string, tr: Id, name: Name)
    requires NamedTrash(s1, user, tr) && i in s1.inodes && s1.inodes[i].parent != tr && tr != i
    ensures NamedTrash(TrashMove(s1, i, tr, name), user, tr)
  {
    hide RenamePrefix;
    WithoutMembers(s1.inodes[s1.users[user]].children, i);
  }

  lemma AroundIs(s: FS, s1: FS, i: Id, user: string, tr: Id, name: Name, j: Id)
    requires Ready(s, s1, i, user, tr) && j in s.inodes && !Under(s.inodes[j].path, s.inodes[i].path)
    ensures Around(s, TrashMove(s1, i, tr, name), i, j)
  {
    hide Ready, WF;
    ReadyWF(s, s1, i, user, tr);
    assert Under(s.inodes[i].path, s.inodes[i].path);
    ReadyChildren(s, s1, i, user, tr, j);
    if i in s.inodes[j].children { ListedAtParent(s, i, j); }
    TrashedNode(s1, i, tr, name, j);
    WithoutMembers(s1.inodes[j].children, i);
  }

  lemma ReadyWF(s: FS, s1: FS, i: Id, user: string, tr: Id)
    requires Ready(s, s1, i, user, tr)
    ensures WF(s) && i in s.inodes
  {
  }

  /** One inode outside the subtree after the move. */
  lemma TrashedNode(s1: FS, i: Id, tr: Id, name: Name, j: Id)
    requires i in s1.inodes && tr in s1.inodes && j in s1.inodes && tr != i && j != i && !Under(s1.inodes[j].path, s1.inodes[i].path)
    ensures var t' := TrashMove(s1, i, tr, name).inodes;
      && i in t' && t'[i].parent == tr && tr in t' && t'[tr].parent == s1.inodes[tr].parent && j in t'
      && t'[j] == s1.inodes[j].(children := t'[j].children)
      && t'[j].children == (if j == s1.inodes[i].parent then Without(s1.inodes[j].children, i) else s1.inodes[j].children) + (if j == tr then [i] else [])
  {
  }

  lemma ListedAtParent(s: FS, i: Id, j: Id)
    requires WF(s) && j in s.inodes && i in s.inodes[j].children
    ensures i in s.inodes && s.inodes[i].parent == j
  {
    assert NodeOk(s.inodes, j);
  }

  lemma ReadyChildren(s: FS, s1: FS, i: Id, user: string, tr: Id, j: Id)
    requires Ready(s, s1, i, user, tr) && j in s.inodes && j != i
    ensures j in s1.inodes && tr in s1.inodes
    ensures s1.inodes[j] == s.inodes[j].(children := s1.inodes[j].children) && Gained(s, s1, tr, j)
    ensures s1.inodes[i].parent == s.inodes[i].parent && s1.inodes[i].path == s.inodes[i].path && s1.inodes[i].parent != tr && tr != i && i in s.inodes && i in s1.inodes
  {
  }

  /** A successful delete takes the deleted inode's size, as the lookup found it, off everything above it, down to nothing at worst. */
  lemma DeleteCharges(s: FS, i: Id, user: string, recursive: bool, io: Io, j: Id)
    requires WF(s) && Delete(s, i, user, recursive, io).1.Done? && j in Delete(s, i, user, recursive, io).0.inodes
    ensures i in s.inodes && j in s.inodes
    ensures var n := s.inodes[i];
      var size := if !n.isDir && n.path in s.disk && s.disk[n.path].File? then s.disk[n.path].bytes else n.size;
      Delete(s, i, user, recursive, io).0.inodes[j].size ==
        if !Under(n.path, s.inodes[j].path) then s.inodes[j].size
        else if s.inodes[j].size >= size then s.inodes[j].size - size else 0
  {
    hide WF, Guard, IndexWithout, TrashWithin, Without, Refresh;
    SameShapeHere(s, i);
    RefreshedOthers(s, i);
    RefreshedSize(s, i);
    assert Under(s.inodes[i].path, s.inodes[i].path);
  }

  lemma RefreshedSize(s: FS, i: Id)
    requires i in s.inodes
    ensures var n := s.inodes[i];
      i in Refresh(s, i).inodes
      && Refresh(s, i).inodes[i] == n.(size := if !n.isDir && n.path in s.disk && s.disk[n.path].File? then s.disk[n.path].bytes else n.size)
  {
  }

  // ---------------------------------------------------------------- explicit shares

  /** The share table but for what it says at `p`. */
  ghost predicate SharesElsewhere(s: FS, s': FS, p: Path) {
    && (forall q :: q != p ==> (q in s'.shared <==> q in s.shared))
    && (forall q :: q != p && q in s.shared ==> s'.shared[q] == s.shared[q])
  }

  /** A share succeeds if and only if the owner shares a directory with somebody else who has no access yet; that user is then
      on the directory's list, once, behind those already there, and no other list has changed. */
  lemma ShareAnswers(s: FS, i: Id, user: string, grantee: string, hasAccess: bool)
    ensures var (s', r) := Share(s, i, user, grantee, hasAccess);
      && (r == Failed(NotFound) <==> i !in s.inodes)
      && (r == Failed(NotADirectory) <==> i in s.inodes && !s.inodes[i].isDir)
      && (r == Failed(PermissionDenied) <==> i in s.inodes && s.inodes[i].isDir && s.inodes[i].owner != user)
      && (r == Failed(SelfShare) <==> i in s.inodes && s.inodes[i].isDir && s.inodes[i].owner == user && grantee == user)
      && (r == Failed(AlreadyShared) <==> i in s.inodes && s.inodes[i].isDir && s.inodes[i].owner == user && grantee != user && hasAccess)
      && (r == Done <==> i in s.inodes && s.inodes[i].isDir && s.inodes[i].owner == user && grantee != user && !hasAccess)
      && (r.Failed? ==> s'.shared == s.shared)
      && (r == Done ==>
            var p := s.inodes[i].path; var old_ := if p in s.shared then s.shared[p] else [];
            && s'.(shared := s.shared) == s && SharesElsewhere(s, s', p)
            && p in s'.shared && s'.shared[p] == if grantee in old_ then old_ else old_ + [grantee])
  {
  }

  lemma {:induction false} WithoutUserHas(users: seq<string>, user: string)
    ensures forall u :: u in WithoutUser(users, user) <==> u in users && u != user
    ensures user !in users ==> WithoutUser(users, user) == users
  {
    if users == [] {
    } else {
      WithoutUserHas(users[1..], user);
      assert forall u :: u in users <==> u == users[0] || u in users[1..];
      assert users == [users[0]] + users[1..];
    }
  }

  /** Taking a share back succeeds if and only if the owner takes it from somebody else who has access; that user is then on no
      list at the directory's path, the others there still are, and no other list has changed. */
  lemma UnshareAnswers(s: FS, i: Id, user: string, grantee: string, hasAccess: bool)
    ensures var (s', r) := Unshare(s, i, user, grantee, hasAccess);
      && (r == Failed(NotFound) <==> i !in s.inodes)
      && (r == Failed(PermissionDenied) <==> i in s.inodes && s.inodes[i].owner != user)
      && (r == Failed(SelfShare) <==> i in s.inodes && s.inodes[i].owner == user && grantee == user)
      && (r == Failed(NotShared) <==> i in s.inodes && s.inodes[i].owner == user && grantee != user && !hasAccess)
      && (r == Done <==> i in s.inodes && s.inodes[i].owner == user && grantee != user && hasAccess)
      && (r.Failed? ==> s'.shared == s.shared)
      && (r == Done ==>
            var p := s.inodes[i].path; var old_ := if p in s.shared then s.shared[p] else [];
            && SharesElsewhere(s, s', p)
            && (p in s'.shared <==> exists u :: u in old_ && u != grantee)
            && (p in s'.shared ==> forall u :: u in s'.shared[p] <==> u in old_ && u != grantee))
  {
    hide WithoutUser;
    if i in s.inodes {
      var p := s.inodes[i].path;
      if p in s.shared {
        WithoutUserHas(s.shared[p], grantee);
        var w := WithoutUser(s.shared[p], grantee);
        if w != [] { assert w[0] in w; }
      }
    }
  }
}
