/**
Size accounting: directory sums, the quota, and 64-bit arithmetic on the way to the root.
*/
module FileSizes {
  import opened Options
  import opened Paths
  import opened InodeTree
  import opened FileOps
  import opened FileSafety

  // ---------------------------------------------------------------- sums over child lists

  ghost predicate Present(t: Tree, cs: seq<Id>) {
    forall c :: c in cs ==> c in t
  }

  lemma {:induction false} SumSame(t: Tree, t': Tree, cs: seq<Id>)
    requires Present(t, cs) && Present(t', cs) && forall c :: c in cs ==> t'[c].size == t[c].size
    ensures SumOf(t', cs) == SumOf(t, cs)
  {
    if cs == [] {
    } else {
      SumSame(t, t', cs[1..]);
    }
  }

  lemma {:induction false} SumOneChanged(t: Tree, t': Tree, cs: seq<Id>, x: Id, d: int)
    requires Present(t, cs) && Present(t', cs) && NoDup(cs) && x in cs
    requires t'[x].size == t[x].size + d
    requires forall c :: c in cs && c != x ==> t'[c].size == t[c].size
    ensures SumOf(t', cs) == SumOf(t, cs) + d
  {
    if cs[0] == x {
      assert x !in cs[1..];
      SumSame(t, t', cs[1..]);
    } else {
      SumOneChanged(t, t', cs[1..], x, d);
    }
  }

  lemma {:induction false} SumWithout(t: Tree, cs: seq<Id>, x: Id)
    requires Present(t, cs) && NoDup(cs) && x in cs
    ensures Present(t, Without(cs, x)) && SumOf(t, cs) == t[x].size + SumOf(t, Without(cs, x))
  {
    WithoutMembers(cs, x);
    if cs[0] == x {
      assert x !in cs[1..];
      WithoutAbsent(cs[1..], x);
    } else {
      SumWithout(t, cs[1..], x);
      assert Without(cs, x)[1..] == Without(cs[1..], x);
    }
  }

  lemma {:induction false} SumAppended(t: Tree, cs: seq<Id>, x: Id)
    requires Present(t, cs + [x]) && x in t && Present(t, cs)
    ensures SumOf(t, cs + [x]) == SumOf(t, cs) + t[x].size
  {
    if cs == [] {
      assert cs + [x] == [x] && [x][1..] == [];
    } else {
      assert (cs + [x])[1..] == cs[1..] + [x];
      SumAppended(t, cs[1..], x);
    }
  }

  // ---------------------------------------------------------------- the chain above an inode

  /** The one child of `j` that lies on the way down to `i`. */
  lemma {:induction false} ChainChild(t: Tree, index: map<Path, Id>, next: Id, j: Id, i: Id) returns (c: Id)
    requires Linked(t) && Indexed(t, index, next) && i in t && j in t && i != j && Under(t[i].path, t[j].path)
    ensures c in t && c in t[j].children && Under(t[i].path, t[c].path)
    ensures forall c' :: c' in t[j].children && c' in t && Under(t[i].path, t[c'].path) ==> c' == c
    decreases |t[i].path|
  {
    ParentUnder(t, index, next, j, i);
    assert NodeOk(t, i) && NodeOk(t, j);
    var p := t[i].parent;
    if p == j {
      c := i;
    } else {
      c := ChainChild(t, index, next, j, p);
    }
    forall c' | c' in t[j].children && c' in t && Under(t[i].path, t[c'].path) ensures c' == c {
      OneStepBelow(t, index, next, i, j, c, c');
    }
  }

  lemma OneStepBelow(t: Tree, index: map<Path, Id>, next: Id, i: Id, j: Id, c: Id, c': Id)
    requires Linked(t) && Indexed(t, index, next) && i in t && j in t && c in t && c' in t
    requires c in t[j].children && c' in t[j].children
    requires Under(t[i].path, t[c].path) && Under(t[i].path, t[c'].path)
    ensures c == c'
  {
    assert NodeOk(t, j) && NodeOk(t, c) && NodeOk(t, c');
    assert t[c].path == t[i].path[..|t[j].path| + 1] == t[c'].path;
    SamePath(t, index, next, c, c');
  }

  /** A child on the chain means its parent is on the chain. */
  lemma ChainUp(t: Tree, i: Id, j: Id, c: Id)
    requires Linked(t) && i in t && j in t && c in t[j].children && c in t && Under(t[i].path, t[c].path)
    ensures Under(t[i].path, t[j].path)
  {
    assert NodeOk(t, j) && NodeOk(t, c);
  }

  // ---------------------------------------------------------------- sums dominate

  lemma {:induction false} AncestorsBigger(t: Tree, index: map<Path, Id>, next: Id, i: Id, j: Id)
    requires Linked(t) && Indexed(t, index, next) && Summed(t) && i in t && j in t && Under(t[i].path, t[j].path)
    ensures t[i].size <= t[j].size
    decreases |t[i].path|
  {
    if i == j {
    } else {
      ParentUnder(t, index, next, j, i);
      assert NodeOk(t, i);
      var p := t[i].parent;
      assert NodeOk(t, p) && SumsUp(t, p);
      SumWithout(t, t[p].children, i);
      AncestorsBigger(t, index, next, p, j);
    }
  }

  // ---------------------------------------------------------------- growing

  lemma GrowSummed(t: Tree, index: map<Path, Id>, next: Id, i: Id, d: nat)
    requires Linked(t) && Indexed(t, index, next) && Summed(t) && i in t && !t[i].isDir
    ensures Linked(Grown(t, i, d)) && Summed(Grown(t, i, d))
  {
    var t' := Grown(t, i, d);
    assert SameShape(t, t');
    ShapeKeeps(t, t', map[], index, next);
    forall j | j in t' && t'[j].isDir ensures SumsUp(t', j) {
      GrowSumAt(t, index, next, i, d, j);
    }
  }

  lemma GrowSumAt(t: Tree, index: map<Path, Id>, next: Id, i: Id, d: nat, j: Id)
    requires Linked(t) && Indexed(t, index, next) && Summed(t) && i in t && !t[i].isDir && j in t && t[j].isDir
    requires Linked(Grown(t, i, d))
    ensures SumsUp(Grown(t, i, d), j)
  {
    var t' := Grown(t, i, d);
    var cs := t[j].children;
    assert NodeOk(t, j) && SumsUp(t, j);
    assert NodeOk(t', j);
    if Under(t[i].path, t[j].path) {
      var c := ChainChild(t, index, next, j, i);
      SumOneChanged(t, t', cs, c, d);
    } else {
      forall c | c in cs ensures t'[c].size == t[c].size {
        if Under(t[i].path, t[c].path) { ChainUp(t, i, j, c); assert false; }
      }
      SumSame(t, t', cs);
    }
  }

  // ---------------------------------------------------------------- dropping

  /** Deleting never reaches the clamp to zero, and the sums stay exact. */
  lemma DropSummed(t: Tree, index: map<Path, Id>, next: Id, i: Id)
    requires Linked(t) && Indexed(t, index, next) && Summed(t) && i in t && !IsRoot(t, i)
    ensures forall j :: j in t && Under(t[i].path, t[j].path) ==> t[j].size >= t[i].size
    ensures Linked(Dropped(t, i)) && Summed(Dropped(t, i))
  {
    var t' := Dropped(t, i);
    forall j | j in t && Under(t[i].path, t[j].path) ensures t[j].size >= t[i].size {
      AncestorsBigger(t, index, next, i, j);
    }
    DropLinked(t, index, next, i);
    forall j | j in t' && t'[j].isDir ensures SumsUp(t', j) {
      DropSumAt(t, index, next, i, j);
    }
  }

  lemma DropSumAt(t: Tree, index: map<Path, Id>, next: Id, i: Id, j: Id)
    requires Linked(t) && Indexed(t, index, next) && Summed(t) && i in t && !IsRoot(t, i)
    requires Linked(Dropped(t, i)) && j in Dropped(t, i) && t[j].isDir
    ensures SumsUp(Dropped(t, i), j)
  {
    var t' := Dropped(t, i);
    assert NodeOk(t, j) && NodeOk(t, i) && NodeOk(t', j) && SumsUp(t, j);
    var cs := t'[j].children;
    WithoutMembers(t[j].children, i);
    if j == t[i].parent {
      SumWithout(t, t[j].children, i);
      AncestorsBigger(t, index, next, i, j);
      forall c | c in cs ensures t'[c].size == t[c].size {
        if Under(t[i].path, t[c].path) { OneStepBelow(t, index, next, i, j, i, c); assert false; }
      }
      SumSame(t, t', cs);
    } else if Under(t[i].path, t[j].path) {
      AncestorsBigger(t, index, next, i, j);
      var c := ChainChild(t, index, next, j, i);
      AncestorsBigger(t, index, next, i, c);
      SumOneChanged(t, t', cs, c, -(t[i].size as int));
    } else {
      forall c | c in cs ensures t'[c].size == t[c].size {
        if Under(t[i].path, t[c].path) { ChainUp(t, i, j, c); assert false; }
      }
      SumSame(t, t', cs);
    }
  }

  // ---------------------------------------------------------------- adding

  lemma AddSummed(t: Tree, p: Id, id: Id, name: Name, isDir: bool)
    requires Linked(t) && Summed(t) && p in t && t[p].isDir && id !in t
    ensures Linked(Added(t, p, id, name, isDir)) && Summed(Added(t, p, id, name, isDir))
  {
    var t' := Added(t, p, id, name, isDir);
    AddLinked(t, p, id, name, isDir);
    forall j | j in t' && t'[j].isDir ensures SumsUp(t', j) {
      assert NodeOk(t', j);
      if j != id {
        assert NodeOk(t, j) && SumsUp(t, j);
        SumSame(t, t', t[j].children);
        if j == p { SumAppended(t', t[j].children, id); }
      }
    }
  }

  lemma AddRootSummed(t: Tree, id: Id, user: string)
    requires Linked(t) && Aged(t) && Summed(t) && id !in t
    ensures Linked(AddedRoot(t, id, user)) && Summed(AddedRoot(t, id, user))
  {
    var t' := AddedRoot(t, id, user);
    AddRootLinked(t, id, user);
    forall j | j in t' && t'[j].isDir ensures SumsUp(t', j) {
      assert NodeOk(t', j);
      if j != id {
        assert NodeOk(t, j) && SumsUp(t, j);
        SumSame(t, t', t[j].children);
      }
    }
  }

  // ---------------------------------------------------------------- the operations

  /** File sizes fit a signed 64-bit offset; quotas are unsigned 64-bit values. */
  ghost predicate Bounded(s: FS) {
    && (forall i :: i in s.inodes && !s.inodes[i].isDir ==> s.inodes[i].size <= MAX_INT64)
    && (forall p :: p in s.disk && s.disk[p].File? ==> s.disk[p].bytes <= MAX_INT64)
    && (forall u :: u in s.quotas ==> s.quotas[u] <= MAX_UINT64)
  }

  ghost predicate WithinQuota(t: Tree, quotas: map<string, nat>) {
    forall i :: i in t && IsRoot(t, i) ==> t[i].size <= QuotaOf(quotas, t[i].name)
  }

  /** Sums are exact, file sizes are those on disk. */
  ghost predicate Exact(s: FS) {
    WF(s) && Summed(s.inodes) && SizesOnDisk(s) && Bounded(s)
  }

  lemma RefreshExact(s: FS, i: Id)
    requires SizesOnDisk(s) && i in s.inodes
    ensures Refresh(s, i) == s
  {
    assert s.inodes[i := s.inodes[i]] == s.inodes;
  }

  lemma AddNodeExact(s: FS, p: Id, name: Name, isDir: bool)
    requires Exact(s) && p in s.inodes && s.inodes[p].isDir && NameFree(s.inodes, p, name)
    ensures Exact(AddNode(s, p, name, isDir))
  {
    AddNodeWF(s, p, name, isDir);
    AddSummed(s.inodes, p, s.next, name, isDir);
    AddIndexed(s.inodes, s.index, p, s.next, name, isDir);
  }

  lemma EnsureTrashExact(s: FS, user: string, io: Io)
    requires Exact(s)
    ensures Exact(EnsureTrash(s, user, io).0)
  {
    if user in s.users {
      var root := s.users[user];
      assert NodeOk(s.inodes, root);
      if FindChild(s.inodes, s.inodes[root].children, TRASH_DIR).None? { AddNodeExact(s, root, TRASH_DIR, true); }
    }
  }

  lemma OpenRootExact(s: FS, user: string, io: Io)
    requires Exact(s)
    ensures Exact(OpenRoot(s, user, io).0)
  {
    NewRootWF(s, user);
    if user in s.users {
      EnsureTrashExact(s, user, io);
    } else {
      RootPathFresh(s.inodes, s.users, s.index, s.next, user);
      AddRootSummed(s.inodes, s.next, user);
      EnsureTrashExact(NewRoot(s, user), user, io);
    }
  }

  lemma CreateExact(s: FS, p: Id, name: Name, user: string, isDir: bool, io: Io)
    requires Exact(s)
    ensures Exact(Create(s, p, name, user, isDir, io).0)
  {
    if p in s.inodes {
      RefreshExact(s, p);
      if s.inodes[p].isDir && FindChild(s.inodes, s.inodes[p].children, name).None? && !Reserved(name) {
        EnsureTrashWF(s, user, io);
        EnsureTrashExact(s, user, io);
        StillFree(s, user, io, p, name);
        AddNodeExact(EnsureTrash(s, user, io).0, p, name, isDir);
      }
    }
  }

  /** Deleting keeps sums exact; the code's clamp to zero is never taken (see DropSummed). */
  lemma DeleteExact(s: FS, i: Id, user: string, recursive: bool, io: Io)
    requires Exact(s)
    ensures Exact(Delete(s, i, user, recursive, io).0)
  {
    if i in s.inodes {
      RefreshExact(s, i);
      if Guard(s, i, user, recursive).None? {
        GuardPasses(s, i, user, recursive);
        DropNodeWF(s, i);
        DropSummed(s.inodes, s.index, s.next, i);
        DropSizes(s, i);
      }
    }
  }

  lemma DropSizes(s: FS, i: Id)
    requires Linked(s.inodes) && Indexed(s.inodes, s.index, s.next) && SizesOnDisk(s) && Bounded(s)
    requires i in s.inodes && !IsRoot(s.inodes, i)
    ensures SizesOnDisk(DropNode(s, i)) && Bounded(DropNode(s, i))
  {
    var t, t' := s.inodes, Dropped(s.inodes, i);
    forall j | j in t' && !t'[j].isDir ensures t'[j].size == t[j].size {
      if Under(t[i].path, t[j].path) {
        FilesAreLeaves(t, s.index, s.next, i, j);
      }
    }
  }

  /** Nothing lies below a file. */
  lemma FilesAreLeaves(t: Tree, index: map<Path, Id>, next: Id, c: Id, j: Id)
    requires Linked(t) && Indexed(t, index, next) && c in t && j in t && !t[j].isDir && Under(t[c].path, t[j].path)
    ensures c == j
  {
    assert NodeOk(t, j);
    if c != j {
      var x := ChainChild(t, index, next, j, c);
      assert false;
    }
  }

  // ---------------------------------------------------------------- write

  lemma {:induction false} RootAbove(t: Tree, i: Id)
    requires Linked(t) && i in t
    ensures Under(t[i].path, t[RootOf(t, i)].path) && |t[RootOf(t, i)].path| == 1
    decreases |t[i].path|
  {
    assert NodeOk(t, i);
    if IsRoot(t, i) {
    } else {
      RootAbove(t, t[i].parent);
    }
  }

  /** The 64-bit difference is the true one for sizes a file can have. */
  lemma DiffExact(size: nat, offset: nat, len: nat)
    requires size <= MAX_INT64 && Addressable(offset, len)
    ensures SizeDiff(size, offset, len) == NewSize(size, offset, len) - size
    ensures 0 <= NewSize(size, offset, len) - size && NewSize(size, offset, len) <= MAX_INT64
  {
    var d := NewSize(size, offset, len) - size;
    assert 0 <= d + (MAX_INT64 + 1) < MAX_UINT64 + 1;
  }

  lemma RootBigger(s: FS, c: Id, j: Id)
    requires Linked(s.inodes) && Indexed(s.inodes, s.index, s.next) && Summed(s.inodes) && c in s.inodes && j in s.inodes
    requires Under(s.inodes[c].path, s.inodes[j].path)
    ensures s.inodes[j].size <= s.inodes[RootOf(s.inodes, c)].size
  {
    var t := s.inodes;
    RootAbove(t, c);
    PathNonEmpty(t, j);
    AncestorsBigger(t, s.index, s.next, j, RootOf(t, c));
  }

  /** No addition on the way to the root overflows, once the quota check has passed. */
  lemma NoOverflow(s: FS, c: Id, d: nat)
    requires Linked(s.inodes) && Indexed(s.inodes, s.index, s.next) && Summed(s.inodes) && c in s.inodes
    requires s.inodes[RootOf(s.inodes, c)].size + d <= MAX_UINT64
    ensures Fits(s.inodes, c, d) && Resized(s.inodes, c, d) == Grown(s.inodes, c, d)
  {
    var t := s.inodes;
    forall j | j in t && Under(t[c].path, t[j].path) ensures t[j].size + d <= MAX_UINT64 {
      RootBigger(s, c, j);
    }
    ResizedIsGrown(t, c, d);
  }

  lemma ResizedIsGrown(t: Tree, c: Id, d: nat)
    requires c in t && Fits(t, c, d)
    ensures Resized(t, c, d) == Grown(t, c, d)
  {
    forall j | j in t ensures Resized(t, c, d)[j] == Grown(t, c, d)[j] {
      if Under(t[c].path, t[j].path) { SmallMod(t[j].size + d); }
    }
  }

  /** The 64-bit additions of a write are the true ones if and only if none of them, from the file to the root, passes the maximum. */
  lemma ResizedExactIff(t: Tree, c: Id, d: nat)
    requires c in t
    ensures Resized(t, c, d) == Grown(t, c, d) <==> Fits(t, c, d)
  {
    if Fits(t, c, d) { ResizedIsGrown(t, c, d); }
    if Resized(t, c, d) == Grown(t, c, d) {
      forall j | j in t && Under(t[c].path, t[j].path) ensures t[j].size + d <= MAX_UINT64 {
        assert Resized(t, c, d)[j].size == Grown(t, c, d)[j].size;
      }
    }
  }

  /** No inode at or above `c` passes the 64-bit maximum when it grows by `d`. */
  ghost predicate Fits(t: Tree, c: Id, d: nat)
    requires c in t
  {
    forall j :: j in t && Under(t[c].path, t[j].path) ==> t[j].size + d <= MAX_UINT64
  }

  lemma SmallMod(x: nat)
    requires x <= MAX_UINT64
    ensures x % (MAX_UINT64 + 1) == x
  {
  }

  /** The write grows an empty range beyond the end: the only case in which the cached size leaves the disk. */
  predicate EmptyExtension(size: nat, offset: nat, len: nat) {
    len == 0 && offset > size
  }

  /** Everything a successful write does, in exact arithmetic. */
  lemma WriteEffect(s: FS, p: Id, name: Name, offset: nat, len: nat, room: bool, io: Io, s': FS) returns (c: Id, d: nat)
    requires Exact(s) && offset <= MAX_UINT64 && len <= MAX_UINT64
    requires Write(s, p, name, offset, len, room, io) == (s', Done)
    ensures p in s.inodes && FindChild(s.inodes, s.inodes[p].children, name) == Some(c)
    ensures c in s.inodes && !s.inodes[c].isDir
    ensures d == NewSize(s.inodes[c].size, offset, len) - s.inodes[c].size && s.inodes[c].size + d <= MAX_INT64
    ensures s' == WriteAt(s, c, offset, len, d) && s'.inodes == Grown(s.inodes, c, d)
    ensures var root := s.inodes[RootOf(s.inodes, c)]; d > 0 ==> root.size + d <= QuotaOf(s.quotas, root.name)
  {
    RefreshExact(s, p);
    c := FindChild(s.inodes, s.inodes[p].children, name).value;
    DiffExact(s.inodes[c].size, offset, len);
    d := SizeDiff(s.inodes[c].size, offset, len);
    if d > 0 {
      NoOverflow(s, c, d);
    } else {
      assert Grown(s.inodes, c, 0) == s.inodes;
    }
  }

  lemma WriteRefused(s: FS, p: Id, name: Name, offset: nat, len: nat, room: bool, io: Io)
    requires Exact(s) && offset <= MAX_UINT64 && len <= MAX_UINT64
    requires !Write(s, p, name, offset, len, room, io).1.Done?
    ensures Write(s, p, name, offset, len, room, io).0 == s
  {
    if p in s.inodes { RefreshExact(s, p); }
  }

  /** Writing keeps the sums exact; it keeps cached sizes equal to those on disk exactly
      when it is not an empty write beyond the end of the file. */
  lemma WriteKeepsSizesIff(s: FS, p: Id, name: Name, offset: nat, len: nat, room: bool, io: Io, s': FS)
    returns (c: Id)
    requires Exact(s) && offset <= MAX_UINT64 && len <= MAX_UINT64
    requires Write(s, p, name, offset, len, room, io) == (s', Done)
    ensures p in s.inodes && FindChild(s.inodes, s.inodes[p].children, name) == Some(c)
    ensures WF(s') && Summed(s'.inodes) && Bounded(s')
    ensures c in s.inodes && (SizesOnDisk(s') <==> !EmptyExtension(s.inodes[c].size, offset, len))
  {
    var d;
    c, d := WriteEffect(s, p, name, offset, len, room, io, s');
    WriteAtExact(s, c, offset, len, d);
  }

  lemma WriteAtExact(s: FS, c: Id, offset: nat, len: nat, d: nat)
    requires Exact(s) && c in s.inodes && !s.inodes[c].isDir
    requires d == NewSize(s.inodes[c].size, offset, len) - s.inodes[c].size && s.inodes[c].size + d <= MAX_INT64
    requires WriteAt(s, c, offset, len, d).inodes == Grown(s.inodes, c, d)
    ensures
      var s' := WriteAt(s, c, offset, len, d);
      && WF(s') && Summed(s'.inodes) && Bounded(s')
      && (SizesOnDisk(s') <==> !EmptyExtension(s.inodes[c].size, offset, len))
  {
    WriteSizes(s, c, offset, len, d);
    WriteAtWF(s, c, offset, len, d);
  }

  lemma OnlyFileGrown(t: Tree, index: map<Path, Id>, next: Id, c: Id, d: nat, j: Id)
    requires Linked(t) && Indexed(t, index, next) && c in t && j in t && !t[j].isDir && j != c
    ensures Grown(t, c, d)[j] == t[j]
  {
    if Under(t[c].path, t[j].path) { FilesAreLeaves(t, index, next, c, j); }
  }

  lemma WriteSizes(s: FS, c: Id, offset: nat, len: nat, d: nat)
    requires Linked(s.inodes) && Indexed(s.inodes, s.index, s.next) && Summed(s.inodes) && SizesOnDisk(s) && Bounded(s)
    requires c in s.inodes && !s.inodes[c].isDir
    requires d == NewSize(s.inodes[c].size, offset, len) - s.inodes[c].size && s.inodes[c].size + d <= MAX_INT64
    requires WriteAt(s, c, offset, len, d).inodes == Grown(s.inodes, c, d)
    ensures Linked(WriteAt(s, c, offset, len, d).inodes) && Summed(WriteAt(s, c, offset, len, d).inodes)
    ensures Bounded(WriteAt(s, c, offset, len, d))
    ensures SizesOnDisk(WriteAt(s, c, offset, len, d)) <==> !EmptyExtension(s.inodes[c].size, offset, len)
  {
    var s' := WriteAt(s, c, offset, len, d);
    var t, t' := s.inodes, s'.inodes;
    GrowSummed(t, s.index, s.next, c, d);
    assert Under(t[c].path, t[c].path);
    forall j | j in t && !t[j].isDir && j != c
      ensures t'[j] == t[j] && t[j].path in s'.disk && s'.disk[t[j].path] == s.disk[t[j].path]
    {
      OnlyFileGrown(t, s.index, s.next, c, d, j);
      if t[j].path == t[c].path { SamePath(t, s.index, s.next, j, c); assert false; }
    }
    assert t'[c].size == NewSize(t[c].size, offset, len);
    assert s'.disk[t[c].path] == File(if len > 0 then NewSize(t[c].size, offset, len) else t[c].size);
  }

  // ---------------------------------------------------------------- quota

  lemma QuotaFits(quotas: map<string, nat>, user: string)
    requires forall u :: u in quotas ==> quotas[u] <= MAX_UINT64
    ensures QuotaOf(quotas, user) <= MAX_UINT64
  {
  }

  /** The root's own addition cannot overflow and stays within the quota, whatever
      earlier trashing did to the directories in between. */
  lemma ResizeWithinQuota(s: FS, c: Id, d: nat)
    requires Linked(s.inodes) && Indexed(s.inodes, s.index, s.next) && c in s.inodes
    requires forall u :: u in s.quotas ==> s.quotas[u] <= MAX_UINT64
    requires WithinQuota(s.inodes, s.quotas) && d > 0
    requires var root := s.inodes[RootOf(s.inodes, c)]; !OverQuota(root.size, QuotaOf(s.quotas, root.name), d)
    ensures WithinQuota(Resized(s.inodes, c, d), s.quotas)
  {
    var t := s.inodes;
    var r := RootOf(t, c);
    QuotaFits(s.quotas, t[r].name);
    forall x | x in t && IsRoot(t, x) && Under(t[c].path, t[x].path) ensures x == r { RootIsAbove(s, c, x); }
    ResizeOneRoot(t, s.quotas, c, d, r);
  }

  lemma ResizeOneRoot(t: Tree, quotas: map<string, nat>, c: Id, d: nat, r: Id)
    requires c in t && r in t && WithinQuota(t, quotas)
    requires forall x :: x in t && IsRoot(t, x) && Under(t[c].path, t[x].path) ==> x == r
    requires t[r].size + d <= QuotaOf(quotas, t[r].name) <= MAX_UINT64
    ensures WithinQuota(Resized(t, c, d), quotas)
  {
    SmallMod(t[r].size + d);
    var t' := Resized(t, c, d);
    forall x | x in t' && IsRoot(t', x) ensures t'[x].size <= QuotaOf(quotas, t'[x].name) {
      if x != r { assert t'[x] == t[x]; }
    }
  }

  lemma WriteQuotaStep(s: FS, c: Id, offset: nat, len: nat)
    requires Linked(s.inodes) && Indexed(s.inodes, s.index, s.next) && Bounded(s) && WithinQuota(s.inodes, s.quotas)
    requires c in s.inodes && !s.inodes[c].isDir && Addressable(offset, len)
    requires
      var root := s.inodes[RootOf(s.inodes, c)];
      !OverQuota(root.size, QuotaOf(s.quotas, root.name), SizeDiff(s.inodes[c].size, offset, len))
    ensures WithinQuota(WriteAt(s, c, offset, len, SizeDiff(s.inodes[c].size, offset, len)).inodes, s.quotas)
  {
    DiffExact(s.inodes[c].size, offset, len);
    var d := SizeDiff(s.inodes[c].size, offset, len);
    if d > 0 { ResizeWithinQuota(s, c, d); }
  }

  lemma RefreshQuota(s: FS, p: Id)
    requires Linked(s.inodes) && Bounded(s) && WithinQuota(s.inodes, s.quotas) && p in s.inodes
    ensures Bounded(Refresh(s, p)) && WithinQuota(Refresh(s, p).inodes, s.quotas)
  {
    assert NodeOk(s.inodes, p);
    RefreshShape(s, p);
  }

  lemma RootIsAbove(s: FS, c: Id, x: Id)
    requires Linked(s.inodes) && Indexed(s.inodes, s.index, s.next) && c in s.inodes && x in s.inodes
    requires IsRoot(s.inodes, x) && Under(s.inodes[c].path, s.inodes[x].path)
    ensures x == RootOf(s.inodes, c)
  {
    var t := s.inodes;
    RootAbove(t, c);
    assert NodeOk(t, x);
    SamePath(t, s.index, s.next, x, RootOf(t, c));
  }
}
