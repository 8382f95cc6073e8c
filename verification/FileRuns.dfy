/**
Whole runs of the fileserver: any sequence of operations and restarts.
*/
module FileRuns {
  import opened Paths
  import opened InodeTree
  import opened FileOps
  import opened FileSafety
  import opened FileSizes
  import opened Rescan

  datatype Op =
    | OpOpen(user: string, io: Io)
    | OpCreate(p: Id, name: Name, user: string, isDir: bool, io: Io)
    | OpTrash(i: Id, user: string, recursive: bool, io: Io)
    | OpRestore(i: Id, user: string, mayAccess: bool, io: Io)
    | OpDelete(i: Id, user: string, recursive: bool, io: Io)
    | OpWrite(p: Id, name: Name, offset: nat, len: nat, room: bool, io: Io)
    | OpSetQuota(user: string, bytes: nat, saved: bool)
    | OpShare(i: Id, user: string, grantee: string, hasAccess: bool)
    | OpUnshare(i: Id, user: string, grantee: string, hasAccess: bool)

  /** Arguments fit the wire types. */
  predicate WireOk(op: Op) {
    match op
    case OpWrite(_, _, offset, len, _, _) => offset <= MAX_UINT64 && len <= MAX_UINT64
    case OpSetQuota(_, bytes, _) => bytes <= MAX_UINT64
    case _ => true
  }

  function Do(s: FS, op: Op): (FS, Reply)
    requires WF(s) && WireOk(op)
  {
    match op
    case OpOpen(user, io) => OpenRoot(s, user, io)
    case OpCreate(p, name, user, isDir, io) => Create(s, p, name, user, isDir, io)
    case OpTrash(i, user, recursive, io) => Trash(s, i, user, recursive, io)
    case OpRestore(i, user, mayAccess, io) => Restore(s, i, user, mayAccess, io)
    case OpDelete(i, user, recursive, io) => Delete(s, i, user, recursive, io)
    case OpWrite(p, name, offset, len, room, io) => Write(s, p, name, offset, len, room, io)
    case OpSetQuota(user, bytes, saved) =>
      if user == "" || bytes == 0 then (s, Failed(UnknownUser))
      else (s.(quotas := s.quotas[user := bytes]), if saved then Done else Failed(DiskFailure))
    case OpShare(i, user, grantee, hasAccess) => Share(s, i, user, grantee, hasAccess)
    case OpUnshare(i, user, grantee, hasAccess) => Unshare(s, i, user, grantee, hasAccess)
  }

  /** The one thing the code takes on trust: the name a trash or restore picks is free. */
  ghost predicate NameTrusted(s: FS, op: Op) {
    match op
    case OpTrash(i, user, _, _) => i in s.inodes ==> TrashNameFree(s, i, user)
    case OpRestore(i, user, _, _) =>
      i in s.trash && user in s.users && s.users[user] in s.inodes ==> RestoreNameFree(s, i, user)
    case _ => true
  }

  /** One operation keeps tree, paths, index, trash metadata and disk in agreement,
      and never hands out an id again. */
  lemma DoKeepsAgreement(s: FS, op: Op, s': FS)
    requires WF(s) && WireOk(op) && NameTrusted(s, op) && s' == Do(s, op).0
    ensures WF(s')
  {
    match op
    case OpOpen(user, io) => OpenRootWF(s, user, io);
    case OpCreate(p, name, user, isDir, io) => CreateWF(s, p, name, user, isDir, io);
    case OpTrash(i, user, recursive, io) => TrashKeepsAgreementIff(s, i, user, recursive, io);
    case OpRestore(i, user, mayAccess, io) => RestoreKeepsAgreementIff(s, i, user, mayAccess, io);
    case OpDelete(i, user, recursive, io) => DeleteWF(s, i, user, recursive, io);
    case OpWrite(p, name, offset, len, room, io) => WriteWF(s, p, name, offset, len, room, io);
    case OpSetQuota(user, bytes, saved) =>
    case OpShare(i, user, grantee, hasAccess) => ShareKeepsAgreement(s, i, user, grantee, hasAccess);
    case OpUnshare(i, user, grantee, hasAccess) => ShareKeepsAgreement(s, i, user, grantee, hasAccess);
  }

  /** Sharing touches nothing but the share table, apart from the size lookup. */
  lemma ShareKeepsAgreement(s: FS, i: Id, user: string, grantee: string, hasAccess: bool)
    requires WF(s)
    ensures WF(Share(s, i, user, grantee, hasAccess).0) && WF(Unshare(s, i, user, grantee, hasAccess).0)
  {
    hide WF, Granted, Revoked, SameShape;
    if i in s.inodes {
      RefreshWF(s, i);
      RefreshShape(s, i);
      SameShapeAt(s, i);
      OnlySharesChange(Refresh(s, i), Granted(s.shared, s.inodes[i].path, grantee));
      OnlySharesChange(Refresh(s, i), Revoked(s.shared, s.inodes[i].path, grantee));
    }
  }

  lemma SameShapeAt(s: FS, i: Id)
    requires i in s.inodes
    ensures var s0 := Refresh(s, i);
      s0.inodes[i] == s.inodes[i].(size := s0.inodes[i].size) && s0.shared == s.shared && s0.trash == s.trash
      && s0.next == s.next && s0.inodes.Keys == s.inodes.Keys
  {
  }

  lemma OnlySharesChange(s: FS, shared: map<Path, seq<string>>)
    requires WF(s)
    ensures WF(s.(shared := shared))
  {
    var s' := s.(shared := shared);
    forall j | j in s'.trash ensures TrashEntryOk(s'.inodes, j, s'.trash[j]) { assert TrashEntryOk(s.inodes, j, s.trash[j]); }
  }

  /** Ids below the counter never come (back) to life. */
  ghost predicate NoReuse(s: FS, s': FS) {
    s.next <= s'.next && forall i :: i in s'.inodes && i < s.next ==> i in s.inodes
  }

  lemma EnsureTrashNoReuse(s: FS, user: string, io: Io)
    requires WF(s)
    ensures NoReuse(s, EnsureTrash(s, user, io).0)
  {
  }

  lemma OpenNoReuse(s: FS, user: string, io: Io)
    requires WF(s)
    ensures NoReuse(s, OpenRoot(s, user, io).0)
  {
    hide WF;
    NewRootWF(s, user);
    if user in s.users { EnsureTrashNoReuse(s, user, io); }
    else if io.act { EnsureTrashNoReuse(NewRoot(s, user), user, io); }
  }

  lemma CreateNoReuse(s: FS, p: Id, name: Name, user: string, isDir: bool, io: Io)
    requires WF(s)
    ensures NoReuse(s, Create(s, p, name, user, isDir, io).0)
  {
    hide WF, EnsureTrash, ValidName, Reserved, Under;
    EnsureTrashNoReuse(s, user, io);
  }

  lemma TrashNoReuse(s: FS, i: Id, user: string, recursive: bool, io: Io)
    requires WF(s)
    ensures NoReuse(s, Trash(s, i, user, recursive, io).0)
  {
    hide WF;
    if i in s.inodes {
      RefreshWF(s, i);
      EnsureTrashNoReuse(Refresh(s, i), user, io);
    }
  }

  lemma RestoreNoReuse(s: FS, i: Id, user: string, mayAccess: bool, io: Io)
    requires WF(s)
    ensures NoReuse(s, Restore(s, i, user, mayAccess, io).0)
  {
    hide WF;
    if i in s.inodes {
      RefreshWF(s, i);
      EnsureTrashNoReuse(Refresh(s, i), user, io);
    }
  }

  lemma DeleteNoReuse(s: FS, i: Id, user: string, recursive: bool, io: Io)
    requires WF(s)
    ensures NoReuse(s, Delete(s, i, user, recursive, io).0)
  {
    hide WF;
  }

  lemma WriteNoReuse(s: FS, p: Id, name: Name, offset: nat, len: nat, room: bool, io: Io)
    requires WF(s) && offset <= MAX_UINT64 && len <= MAX_UINT64
    ensures NoReuse(s, Write(s, p, name, offset, len, room, io).0)
  {
    hide WF, WriteChild;
    if p in s.inodes {
      RefreshWF(s, p);
      var s0 := Refresh(s, p);
      var found := FindChild(s0.inodes, s0.inodes[p].children, name);
      if found.Some? { WriteChildNoReuse(s0, found.value, offset, len, room, io); }
    }
  }

  lemma WriteChildNoReuse(s: FS, c: Id, offset: nat, len: nat, room: bool, io: Io)
    requires WF(s) && c in s.inodes && offset <= MAX_UINT64 && len <= MAX_UINT64
    ensures WriteChild(s, c, offset, len, room, io).0.inodes.Keys == s.inodes.Keys && WriteChild(s, c, offset, len, room, io).0.next == s.next
  {
    hide WF, SizeDiff, OverQuota, QuotaOf, Addressable, RootOf;
  }

  lemma ShareNoReuse(s: FS, i: Id, user: string, grantee: string, hasAccess: bool)
    ensures NoReuse(s, Share(s, i, user, grantee, hasAccess).0) && NoReuse(s, Unshare(s, i, user, grantee, hasAccess).0)
  {
    hide Refresh, Granted, Revoked;
    if i in s.inodes { SameShapeAt(s, i); }
  }

  lemma DoNoReuse(s: FS, op: Op, s': FS)
    requires WF(s) && WireOk(op) && s' == Do(s, op).0
    ensures NoReuse(s, s')
  {
    hide WF, OpenRoot, Create, Trash, Restore, Delete, Write, Share, Unshare;
    match op
    case OpOpen(user, io) => OpenNoReuse(s, user, io);
    case OpCreate(p, name, user, isDir, io) => CreateNoReuse(s, p, name, user, isDir, io);
    case OpTrash(i, user, recursive, io) => TrashNoReuse(s, i, user, recursive, io);
    case OpRestore(i, user, mayAccess, io) => RestoreNoReuse(s, i, user, mayAccess, io);
    case OpDelete(i, user, recursive, io) => DeleteNoReuse(s, i, user, recursive, io);
    case OpWrite(p, name, offset, len, room, io) => WriteNoReuse(s, p, name, offset, len, room, io);
    case OpSetQuota(user, bytes, saved) =>
    case OpShare(i, user, grantee, hasAccess) => ShareNoReuse(s, i, user, grantee, hasAccess);
    case OpUnshare(i, user, grantee, hasAccess) => ShareNoReuse(s, i, user, grantee, hasAccess);
  }

  // ---------------------------------------------------------------- runs

  datatype Event = Call(op: Op) | Restart

  /** One event. From a well-formed state a call does what the operation does and picks a
      free name; a restart falls between operations and finds nothing it would skip. */
  ghost predicate StepTo(s: FS, e: Event, s': FS) {
    match e
    case Call(op) => WireOk(op) && (WF(s) ==> NameTrusted(s, op) && s' == Do(s, op).0)
    case Restart => Scannable(s) && Rescanned(s, s')
  }

  ghost predicate IsRun(ss: seq<FS>, es: seq<Event>) {
    |ss| == |es| + 1 && forall k :: 0 <= k < |es| ==> StepTo(ss[k], es[k], ss[k + 1])
  }

  lemma StepKeeps(s: FS, e: Event, s': FS)
    requires WF(s) && StepTo(s, e, s')
    ensures WF(s') && NoReuse(s, s')
  {
    match e
    case Call(op) => {
      DoKeepsAgreement(s, op, s');
      DoNoReuse(s, op, s');
    }
    case Restart => RescanRecovers(s, s');
  }

  /** Every run of opens, creates, writes, trashes, restores, deletes and restarts keeps
      the tree, the paths, the index and the disk in agreement. */
  lemma {:induction false} RunKeepsAgreement(ss: seq<FS>, es: seq<Event>, k: nat)
    requires IsRun(ss, es) && WF(ss[0]) && k < |ss|
    ensures WF(ss[k])
  {
    hide WF, StepTo;
    if k == 0 {
    } else {
      RunKeepsAgreement(ss, es, k - 1);
      assert StepTo(ss[k - 1], es[k - 1], ss[k]);
      StepKeeps(ss[k - 1], es[k - 1], ss[k]);
    }
  }

  /** An id that has been handed out and is dead stays dead for the rest of the run. */
  lemma {:induction false} RunNeverReusesIds(ss: seq<FS>, es: seq<Event>, j: nat, k: nat, i: Id)
    requires IsRun(ss, es) && WF(ss[0]) && j <= k < |ss|
    requires i < ss[j].next && i !in ss[j].inodes
    ensures i < ss[k].next && i !in ss[k].inodes
    decreases k - j
  {
    hide WF, StepTo;
    if j == k {
    } else {
      RunNeverReusesIds(ss, es, j, k - 1, i);
      RunKeepsAgreement(ss, es, k - 1);
      assert StepTo(ss[k - 1], es[k - 1], ss[k]);
      StepKeeps(ss[k - 1], es[k - 1], ss[k]);
    }
  }

  /** The `k`-th ancestor. */
  function Climb(t: Tree, i: Id, k: nat): Id
    requires Linked(t) && i in t
    decreases k
  {
    assert NodeOk(t, i);
    if k == 0 then i else Climb(t, t[i].parent, k - 1)
  }

  lemma {:induction false} ClimbPath(t: Tree, i: Id, k: nat)
    requires Linked(t) && i in t && k < |t[i].path|
    ensures Climb(t, i, k) in t && t[Climb(t, i, k)].path == t[i].path[..|t[i].path| - k]
    decreases k
  {
    assert NodeOk(t, i);
    if k == 0 {
    } else {
      var p := t[i].parent;
      ClimbPath(t, p, k - 1);
      assert t[p].path == t[i].path[..|t[i].path| - 1];
    }
  }

  /** At every point of every run parent links are acyclic and lead to the user's root. */
  lemma RunAcyclic(ss: seq<FS>, es: seq<Event>, k: nat, i: Id, up: nat)
    requires IsRun(ss, es) && WF(ss[0]) && k < |ss| && i in ss[k].inodes && 0 < up < |ss[k].inodes[i].path|
    ensures WF(ss[k]) && ss[k].inodes[i].owner in ss[k].users
    ensures Climb(ss[k].inodes, i, up) != i
    ensures Climb(ss[k].inodes, i, |ss[k].inodes[i].path| - 1) == ss[k].users[ss[k].inodes[i].owner]
  {
    RunKeepsAgreement(ss, es, k);
    ReachesRoot(ss[k], i, up);
  }

  lemma ReachesRoot(s: FS, i: Id, up: nat)
    requires WF(s) && i in s.inodes && 0 < up < |s.inodes[i].path|
    ensures s.inodes[i].owner in s.users
    ensures Climb(s.inodes, i, up) != i
    ensures Climb(s.inodes, i, |s.inodes[i].path| - 1) == s.users[s.inodes[i].owner]
  {
    var t := s.inodes;
    ClimbPath(t, i, up);
    ClimbPath(t, i, |t[i].path| - 1);
    OwnerIsFirst(t, i);
    assert HasFounder(t, s.users, i);
    var r := s.users[t[i].owner];
    assert NodeOk(t, r);
    SamePath(t, s.index, s.next, Climb(t, i, |t[i].path| - 1), r);
  }
}
