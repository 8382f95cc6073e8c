/**
Sizes over whole runs: exact sums without trashing, the quota with it, and what
trashing does to the sums.
*/
module QuotaRuns {
  import opened Paths
  import opened InodeTree
  import opened FileOps
  import opened FileSafety
  import opened FileSizes
  import opened FileRuns

  // ---------------------------------------------------------------- trash-free runs

  /** A call of a trash-free run: no trash, no restore, no empty write beyond the end. */
  ghost predicate Plain(s: FS, op: Op) {
    match op
    case OpTrash(_, _, _, _) => false
    case OpRestore(_, _, _, _) => false
    case OpWrite(p, name, offset, len, _, _) =>
      p in s.inodes ==>
        var c := FindChild(s.inodes, s.inodes[p].children, name);
        c.Some? ==> !EmptyExtension(s.inodes[c.value].size, offset, len)
    case _ => true
  }

  lemma PlainKeepsExact(s: FS, op: Op, s': FS)
    requires Exact(s) && WireOk(op) && Plain(s, op) && s' == Do(s, op).0
    ensures Exact(s')
  {
    hide WF, Summed, SizesOnDisk, Bounded, OpenRoot, Create, Delete, Write, Share, Unshare;
    match op
    case OpOpen(user, io) => OpenRootExact(s, user, io);
    case OpCreate(p, name, user, isDir, io) => CreateExact(s, p, name, user, isDir, io);
    case OpDelete(i, user, recursive, io) => DeleteExact(s, i, user, recursive, io);
    case OpWrite(p, name, offset, len, room, io) => WriteKeepsExact(s, p, name, offset, len, room, io, s');
    case OpSetQuota(user, bytes, saved) => QuotaExact(s, user, bytes);
    case OpShare(i, user, grantee, hasAccess) => ShareExact(s, i, user, grantee, hasAccess);
    case OpUnshare(i, user, grantee, hasAccess) => ShareExact(s, i, user, grantee, hasAccess);
  }

  lemma QuotaExact(s: FS, user: string, bytes: nat)
    requires Exact(s) && bytes <= MAX_UINT64
    ensures Exact(s.(quotas := s.quotas[user := bytes]))
  {
  }

  lemma ShareExact(s: FS, i: Id, user: string, grantee: string, hasAccess: bool)
    requires Exact(s)
    ensures Exact(Share(s, i, user, grantee, hasAccess).0) && Exact(Unshare(s, i, user, grantee, hasAccess).0)
  {
    hide WF, Refresh, Granted, Revoked;
    ShareKeepsAgreement(s, i, user, grantee, hasAccess);
    if i in s.inodes { RefreshExact(s, i); }
  }

  lemma WriteKeepsExact(s: FS, p: Id, name: Name, offset: nat, len: nat, room: bool, io: Io, s': FS)
    requires Exact(s) && offset <= MAX_UINT64 && len <= MAX_UINT64
    requires Plain(s, OpWrite(p, name, offset, len, room, io)) && s' == Write(s, p, name, offset, len, room, io).0
    ensures Exact(s')
  {
    hide WF, Write, Summed, SizesOnDisk, Bounded;
    var r := Write(s, p, name, offset, len, room, io).1;
    if r.Done? {
      var c := WriteKeepsSizesIff(s, p, name, offset, len, room, io, s');
    } else {
      WriteRefused(s, p, name, offset, len, room, io);
    }
  }

  ghost predicate IsPlainRun(ss: seq<FS>, ops: seq<Op>) {
    && |ss| == |ops| + 1
    && forall k :: 0 <= k < |ops| ==> PlainStep(ss[k], ops[k], ss[k + 1])
  }

  ghost predicate PlainStep(s: FS, op: Op, s': FS) {
    WireOk(op) && (WF(s) ==> Plain(s, op) && s' == Do(s, op).0)
  }

  /** Over every run without trashing each directory's size is exactly the sum of its
      children's and every file's size is the one on disk. */
  lemma {:induction false} PlainRunExact(ss: seq<FS>, ops: seq<Op>, k: nat)
    requires IsPlainRun(ss, ops) && Exact(ss[0]) && k < |ss|
    ensures Exact(ss[k])
  {
    hide WF, Summed, SizesOnDisk, Bounded, Plain;
    if k == 0 {
    } else {
      PlainRunExact(ss, ops, k - 1);
      assert PlainStep(ss[k - 1], ops[k - 1], ss[k]);
      PlainKeepsExact(ss[k - 1], ops[k - 1], ss[k]);
    }
  }

  /** No accepted write of such a run wraps a size on the way to the root: the additions are exact, and when
      the file grows every directory above it stays within the user's quota. */
  lemma PlainRunNoWrap(ss: seq<FS>, ops: seq<Op>, k: nat) returns (c: Id, d: nat)
    requires IsPlainRun(ss, ops) && Exact(ss[0]) && k < |ops| && ops[k].OpWrite? && WF(ss[k]) && WireOk(ops[k]) && Do(ss[k], ops[k]).1.Done?
    ensures c in ss[k].inodes && d == NewSize(ss[k].inodes[c].size, ops[k].offset, ops[k].len) - ss[k].inodes[c].size
    ensures ss[k + 1].inodes == Grown(ss[k].inodes, c, d)
    ensures d > 0 ==> Fits(ss[k].inodes, c, d) && AncestorsWithin(ss[k].inodes, c, d, QuotaOf(ss[k].quotas, ss[k].inodes[c].owner))
  {
    hide WF, Summed, SizesOnDisk, Bounded, Plain, Write, QuotaOf, WriteAt, NewSize, Fits, AncestorsWithin;
    PlainRunExact(ss, ops, k);
    assert PlainStep(ss[k], ops[k], ss[k + 1]);
    match ops[k]
    case OpWrite(p, name, offset, len, room, io) =>
      c, d := WriteEffect(ss[k], p, name, offset, len, room, io, ss[k + 1]);
      if d > 0 { WriteFits(ss[k], c, d); }
  }

  /** Everything at or above `c` has room for `d` more below `limit`. */
  ghost predicate AncestorsWithin(t: Tree, c: Id, d: nat, limit: nat)
    requires c in t
  {
    forall j :: j in t && Under(t[c].path, t[j].path) ==> t[j].size + d <= limit
  }

  lemma WriteFits(s: FS, c: Id, d: nat)
    requires Exact(s) && c in s.inodes
    requires var root := s.inodes[RootOf(s.inodes, c)]; root.size + d <= QuotaOf(s.quotas, root.name)
    ensures Fits(s.inodes, c, d) && AncestorsWithin(s.inodes, c, d, QuotaOf(s.quotas, s.inodes[c].owner))
  {
    hide Aged, Founded, OnDisk, TrashOk, SizesOnDisk, Rooted;
    var t := s.inodes;
    var r := RootOf(t, c);
    assert NodeOk(t, r);
    QuotaFits(s.quotas, t[r].name);
    forall j | j in t && Under(t[c].path, t[j].path) ensures t[j].size + d <= QuotaOf(s.quotas, t[c].owner) {
      RootBigger(s, c, j);
    }
  }

  // ---------------------------------------------------------------- quota, trashing included

  ghost predicate QuotaSafe(s: FS) {
    Bounded(s) && WithinQuota(s.inodes, s.quotas)
  }

  lemma AddQuota(s: FS, p: Id, name: Name, isDir: bool)
    requires QuotaSafe(s) && p in s.inodes && s.next !in s.inodes
    ensures QuotaSafe(AddNode(s, p, name, isDir))
  {
  }

  lemma EnsureTrashQuota(s: FS, user: string, io: Io)
    requires WF(s) && QuotaSafe(s)
    ensures QuotaSafe(EnsureTrash(s, user, io).0) && EnsureTrash(s, user, io).0.quotas == s.quotas
  {
    if user in s.users { AddQuota(s, s.users[user], TRASH_DIR, true); }
  }

  lemma NewRootQuota(s: FS, user: string)
    requires QuotaSafe(s) && s.next !in s.inodes
    ensures QuotaSafe(NewRoot(s, user))
  {
  }

  lemma MoveQuota(s: FS, i: Id, to: Id, name: Name)
    requires QuotaSafe(s) && Linked(s.inodes) && CanMove(s.inodes, i, to)
    ensures QuotaSafe(MoveNode(s, i, to, name))
  {
    var s' := MoveNode(s, i, to, name);
    forall q | q in s'.disk && s'.disk[q].File? ensures s'.disk[q].bytes <= MAX_INT64 {
      var p := RenameValues(s.disk, s.inodes[i].path, s.inodes[to].path + [name], q);
    }
    assert forall x :: x in s'.inodes && IsRoot(s'.inodes, x) ==> IsRoot(s.inodes, x) && s'.inodes[x].name == s.inodes[x].name;
  }

  lemma DropQuota(s: FS, i: Id)
    requires QuotaSafe(s) && i in s.inodes
    ensures QuotaSafe(DropNode(s, i))
  {
  }

  lemma OpenQuota(s: FS, user: string, io: Io)
    requires WF(s) && QuotaSafe(s)
    ensures QuotaSafe(OpenRoot(s, user, io).0)
  {
    NewRootWF(s, user);
    NewRootQuota(s, user);
    if user in s.users { EnsureTrashQuota(s, user, io); }
    else if io.act { EnsureTrashQuota(NewRoot(s, user), user, io); }
  }

  lemma CreateQuota(s: FS, p: Id, name: Name, user: string, isDir: bool, io: Io)
    requires WF(s) && QuotaSafe(s)
    ensures QuotaSafe(Create(s, p, name, user, isDir, io).0)
  {
    hide WF, EnsureTrash, QuotaSafe, ValidName, Reserved, Under;
    if p in s.inodes {
      RefreshSafe(s, p);
      EnsureTrashQuota(s, user, io);
      EnsureTrashWF(s, user, io);
      NextIsFresh(EnsureTrash(s, user, io).0);
      AddQuota(EnsureTrash(s, user, io).0, p, name, isDir);
    }
  }

  lemma NextIsFresh(s: FS)
    requires WF(s)
    ensures s.next !in s.inodes
  {
  }

  lemma TrashQuota(s: FS, i: Id, user: string, recursive: bool, io: Io, s': FS, r: Reply)
    requires WF(s) && QuotaSafe(s) && Trash(s, i, user, recursive, io) == (s', r)
    ensures QuotaSafe(s') && s'.quotas == s.quotas
  {
    hide WF, EnsureTrash, QuotaSafe, Guard, UniqueName, Extends, TrashOf;
    if i in s.inodes {
      var s0 := Refresh(s, i);
      RefreshSafe(s, i);
      RefreshWF(s, i);
      EnsureTrashQuota(s0, user, io);
      if r.Placed? {
        EnsureTrashWF(s0, user, io);
        GuardPasses(s0, i, user, recursive);
        var (s1, tr) := EnsureTrash(s0, user, io);
        TrashMoveQuota(s0, s1, i, user, tr.value, r.name);
      }
    }
  }

  lemma TrashMoveQuota(s0: FS, s1: FS, i: Id, user: string, tr: Id, name: Name)
    requires WF(s0) && WF(s1) && QuotaSafe(s1) && Extends(s0, s1) && i in s0.inodes
    requires TrashOf(s1, user, tr) && s0.inodes[i].owner == user
    requires !IsRoot(s0.inodes, i) && !IsTrash(s0.inodes, i)
    ensures i in s1.inodes && tr in s1.inodes && QuotaSafe(TrashMove(s1, i, tr, name))
  {
    assert NodeOk(s0.inodes, i);
    ExtendsKind(s0, s1, i);
    TrashCanMove(s1, i, user, tr);
    MoveQuota(s1, i, tr, name);
  }

  lemma RestoreMoveQuota(s: FS, i: Id, user: string, tr: Id, name: Name)
    requires WF(s) && QuotaSafe(s) && i in s.trash && i in s.inodes && TrashOf(s, user, tr) && s.inodes[i].parent == tr
    ensures
      user in s.users && RestoreTarget(s, i, user) in s.inodes
      && QuotaSafe(RestoreMove(s, i, RestoreTarget(s, i, user), name))
  {
    RestoreCanMove(s, i, user, tr);
    MoveQuota(s, i, RestoreTarget(s, i, user), name);
  }

  lemma RestoreQuota(s: FS, i: Id, user: string, mayAccess: bool, io: Io, s': FS, r: Reply)
    requires WF(s) && QuotaSafe(s) && Restore(s, i, user, mayAccess, io) == (s', r)
    ensures QuotaSafe(s') && s'.quotas == s.quotas
  {
    hide WF, EnsureTrash, QuotaSafe, UniqueName, Extends, TrashOf;
    if i in s.inodes {
      var s0 := Refresh(s, i);
      RefreshSafe(s, i);
      RefreshWF(s, i);
      EnsureTrashQuota(s0, user, io);
      if r.Placed? {
        EnsureTrashWF(s0, user, io);
        var (s1, tr) := EnsureTrash(s0, user, io);
        RestoreMoveQuota(s1, i, user, tr.value, r.name);
      }
    }
  }

  lemma DeleteQuota(s: FS, i: Id, user: string, recursive: bool, io: Io)
    requires WF(s) && QuotaSafe(s)
    ensures QuotaSafe(Delete(s, i, user, recursive, io).0)
  {
    hide WF, QuotaSafe, Guard;
    if i in s.inodes {
      RefreshSafe(s, i);
      DropQuota(Refresh(s, i), i);
    }
  }

  lemma RefreshSafe(s: FS, i: Id)
    requires WF(s) && QuotaSafe(s) && i in s.inodes
    ensures QuotaSafe(Refresh(s, i)) && i in Refresh(s, i).inodes
  {
    RefreshQuota(s, i);
  }

  lemma WriteAtBounded(s: FS, c: Id, offset: nat, len: nat)
    requires Linked(s.inodes) && Indexed(s.inodes, s.index, s.next) && Bounded(s)
    requires c in s.inodes && !s.inodes[c].isDir && Addressable(offset, len)
    ensures Bounded(WriteAt(s, c, offset, len, SizeDiff(s.inodes[c].size, offset, len)))
  {
    DiffExact(s.inodes[c].size, offset, len);
    var d := SizeDiff(s.inodes[c].size, offset, len);
    var t, t' := s.inodes, Resized(s.inodes, c, d);
    SmallMod(t[c].size + d);
    forall j | j in t' && !t'[j].isDir ensures t'[j].size <= MAX_INT64 {
      if Under(t[c].path, t[j].path) { FilesAreLeaves(t, s.index, s.next, c, j); }
    }
  }

  lemma WriteAtSafe(s: FS, c: Id, offset: nat, len: nat)
    requires WF(s) && QuotaSafe(s) && c in s.inodes && !s.inodes[c].isDir && Addressable(offset, len)
    requires
      var root := s.inodes[RootOf(s.inodes, c)];
      !OverQuota(root.size, QuotaOf(s.quotas, root.name), SizeDiff(s.inodes[c].size, offset, len))
    ensures QuotaSafe(WriteAt(s, c, offset, len, SizeDiff(s.inodes[c].size, offset, len)))
  {
    WriteQuotaStep(s, c, offset, len);
    WriteAtBounded(s, c, offset, len);
  }

  lemma WriteQuota(s: FS, p: Id, name: Name, offset: nat, len: nat, room: bool, io: Io, s': FS, r: Reply)
    requires WF(s) && QuotaSafe(s) && offset <= MAX_UINT64 && len <= MAX_UINT64
    requires Write(s, p, name, offset, len, room, io) == (s', r)
    ensures QuotaSafe(s')
  {
    hide WF, QuotaSafe, OverQuota, SizeDiff, WriteAt, QuotaOf, Addressable;
    if p in s.inodes {
      RefreshWF(s, p);
      RefreshSafe(s, p);
      if r.Done? {
        var s0 := Refresh(s, p);
        WriteAtSafe(s0, FindChild(s0.inodes, s0.inodes[p].children, name).value, offset, len);
      }
    }
  }

  lemma DoQuota(s: FS, op: Op, s': FS)
    requires WF(s) && QuotaSafe(s) && WireOk(op) && !op.OpSetQuota? && s' == Do(s, op).0
    ensures QuotaSafe(s')
  {
    hide WF, QuotaSafe, OpenRoot, Create, Trash, Restore, Delete, Write, Share, Unshare;
    match op
    case OpOpen(user, io) => OpenQuota(s, user, io);
    case OpCreate(p, name, user, isDir, io) => CreateQuota(s, p, name, user, isDir, io);
    case OpTrash(i, user, recursive, io) =>
      TrashQuota(s, i, user, recursive, io, s', Trash(s, i, user, recursive, io).1);
    case OpRestore(i, user, mayAccess, io) =>
      RestoreQuota(s, i, user, mayAccess, io, s', Restore(s, i, user, mayAccess, io).1);
    case OpDelete(i, user, recursive, io) => DeleteQuota(s, i, user, recursive, io);
    case OpWrite(p, name, offset, len, room, io) =>
      WriteQuota(s, p, name, offset, len, room, io, s', Write(s, p, name, offset, len, room, io).1);
    case OpShare(i, user, grantee, hasAccess) => ShareQuota(s, i, user, grantee, hasAccess);
    case OpUnshare(i, user, grantee, hasAccess) => ShareQuota(s, i, user, grantee, hasAccess);
  }

  lemma ShareQuota(s: FS, i: Id, user: string, grantee: string, hasAccess: bool)
    requires WF(s) && QuotaSafe(s)
    ensures QuotaSafe(Share(s, i, user, grantee, hasAccess).0) && QuotaSafe(Unshare(s, i, user, grantee, hasAccess).0)
  {
    hide WF, Refresh, Granted, Revoked;
    if i in s.inodes {
      RefreshSafe(s, i);
      SameShapeAt(s, i);
    }
  }

  /** With quotas fixed, no run of operations (trashing included) takes a user's root above its quota. */
  lemma {:induction false} RunWithinQuota(ss: seq<FS>, es: seq<Event>, k: nat)
    requires IsRun(ss, es) && WF(ss[0]) && QuotaSafe(ss[0]) && k < |ss|
    requires forall j :: 0 <= j < |es| ==> es[j].Call? && !es[j].op.OpSetQuota?
    ensures WF(ss[k]) && QuotaSafe(ss[k])
  {
    hide WF, QuotaSafe, Do, NameTrusted;
    RunKeepsAgreement(ss, es, k);
    if k == 0 {
    } else {
      RunWithinQuota(ss, es, k - 1);
      assert StepTo(ss[k - 1], es[k - 1], ss[k]);
      DoQuota(ss[k - 1], es[k - 1].op, ss[k]);
    }
  }

  // ---------------------------------------------------------------- what trashing does to the sums

  lemma MoveSumAt(t: Tree, i: Id, to: Id, name: Name, j: Id)
    requires Linked(t) && Summed(t) && CanMove(t, i, to) && t[i].parent != to && Linked(Moved(t, i, to, name))
    requires j in t && t[j].isDir
    ensures
      SumsUp(Moved(t, i, to, name), j) <==>
      (if j == t[i].parent || j == to then t[i].size == 0 else true)
  {
    var t' := Moved(t, i, to, name);
    assert NodeOk(t, j) && NodeOk(t', j) && NodeOk(t, i) && SumsUp(t, j);
    SumSame(t, t', t[j].children);
    if j == t[i].parent {
      SumWithout(t, t[j].children, i);
      SumSame(t, t', Without(t[j].children, i));
      assert t'[j].children == Without(t[j].children, i);
    } else if j == to {
      SumAppended(t', t[j].children, i);
      assert t'[j].children == t[j].children + [i];
    } else {
      assert t'[j].children == t[j].children;
    }
  }

  /** Moving an inode to the trash (or back) does not move its size: the sums stay exact
      exactly when there is no size to move. */
  lemma MoveKeepsSumsIff(t: Tree, index: map<Path, Id>, next: Id, i: Id, to: Id, name: Name)
    requires Linked(t) && Indexed(t, index, next) && Summed(t) && CanMove(t, i, to) && t[i].parent != to
    ensures Linked(Moved(t, i, to, name))
    ensures Summed(Moved(t, i, to, name)) <==> t[i].size == 0
  {
    var t' := Moved(t, i, to, name);
    MoveLinked(t, index, next, i, to, name);
    assert NodeOk(t, i);
    MoveSumAt(t, i, to, name, t[i].parent);
    forall j | j in t' && t'[j].isDir && t[i].size == 0 ensures SumsUp(t', j) {
      MoveSumAt(t, i, to, name, j);
    }
  }
}
