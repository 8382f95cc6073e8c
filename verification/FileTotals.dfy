/**
Conservation: a user root's cached total is the number of bytes that user has on disk.
Creates, writes, trashes, restores and restarts keep it; a delete keeps it exactly when
the deleted inode's cached size is the bytes below it.
*/
module FileTotals {
  import opened Options
  import opened Paths
  import opened InodeTree
  import opened FileOps
  import opened FileSafety
  import opened FileSizes
  import opened Rescan
  import opened FileRuns
  import opened QuotaRuns
  import opened Walks

  // ---------------------------------------------------------------- weight of a set of inodes

  ghost function Weight(t: Tree, ids: set<Id>): nat
    requires ids <= t.Keys
    decreases |ids|
  {
    if ids == {} then 0
    else
      var x :| x in ids;
      t[x].size + Weight(t, ids - {x})
  }

  /** It does not matter which inode is counted first. */
  lemma {:induction false} WeightTake(t: Tree, ids: set<Id>, x: Id)
    requires ids <= t.Keys && x in ids
    ensures Weight(t, ids) == t[x].size + Weight(t, ids - {x})
    decreases |ids|
  {
    var y :| y in ids && Weight(t, ids) == t[y].size + Weight(t, ids - {y});
    if y == x {
    } else {
      WeightTake(t, ids - {y}, x);
      WeightTake(t, ids - {x}, y);
      assert ids - {y} - {x} == ids - {x} - {y};
    }
  }

  lemma {:induction false} WeightSame(t: Tree, t': Tree, ids: set<Id>)
    requires ids <= t.Keys && ids <= t'.Keys && forall x :: x in ids ==> t'[x].size == t[x].size
    ensures Weight(t', ids) == Weight(t, ids)
    decreases |ids|
  {
    if ids != {} {
      var x :| x in ids;
      WeightTake(t, ids, x);
      WeightTake(t', ids, x);
      WeightSame(t, t', ids - {x});
    }
  }

  lemma {:induction false} WeightUnion(t: Tree, a: set<Id>, b: set<Id>)
    requires a <= t.Keys && b <= t.Keys && a !! b
    ensures Weight(t, a + b) == Weight(t, a) + Weight(t, b)
    decreases |a|
  {
    if a == {} {
      assert a + b == b;
    } else {
      var x :| x in a;
      WeightTake(t, a, x);
      WeightTake(t, a + b, x);
      assert a + b - {x} == (a - {x}) + b;
      WeightUnion(t, a - {x}, b);
    }
  }

  // ---------------------------------------------------------------- totals

  ghost function FilesOf(t: Tree, user: string): set<Id> {
    set j | j in t && !t[j].isDir && t[j].owner == user
  }

  ghost function FilesUnder(t: Tree, base: Path): set<Id> {
    set j | j in t && !t[j].isDir && Under(t[j].path, base)
  }

  ghost predicate TotalOk(t: Tree, r: Id)
    requires r in t
  {
    IsRoot(t, r) ==> t[r].size == Weight(t, FilesOf(t, t[r].name))
  }

  /** Each root's size is the sum of its user's file sizes. */
  ghost predicate Totals(t: Tree) {
    forall r {:trigger TotalOk(t, r)} :: r in t ==> TotalOk(t, r)
  }

  /** And those are the sizes on disk. */
  ghost predicate Conserved(s: FS) {
    Totals(s.inodes) && SizesOnDisk(s)
  }

  /** Same files with the same sizes and owners, same roots with the same totals. */
  ghost predicate SameFiles(t: Tree, t': Tree) {
    && (forall j :: j in t' && !t'[j].isDir ==> j in t && !t[j].isDir)
    && (forall j :: j in t && !t[j].isDir ==> j in t' && !t'[j].isDir && t'[j].owner == t[j].owner && t'[j].size == t[j].size)
    && (forall r :: r in t' && IsRoot(t', r) ==> r in t && IsRoot(t, r) && t'[r].name == t[r].name && t'[r].size == t[r].size)
  }

  lemma SameFilesTotals(t: Tree, t': Tree)
    requires Totals(t) && SameFiles(t, t')
    ensures Totals(t')
  {
    forall r | r in t' ensures TotalOk(t', r) {
      if IsRoot(t', r) {
        assert TotalOk(t, r);
        assert FilesOf(t', t'[r].name) == FilesOf(t, t[r].name);
        WeightSame(t, t', FilesOf(t, t[r].name));
      }
    }
  }

  /** Trash and restore move no bytes between users, and change no cached size. */
  lemma MoveTotals(t: Tree, i: Id, to: Id, name: Name)
    requires Totals(t) && Linked(t) && CanMove(t, i, to)
    ensures Totals(Moved(t, i, to, name)) && forall r :: r in t ==> Moved(t, i, to, name)[r].size == t[r].size
  {
    assert NodeOk(t, i);
    SameFilesTotals(t, Moved(t, i, to, name));
  }

  /** A new inode weighs nothing. */
  lemma AddTotals(t: Tree, p: Id, id: Id, name: Name, isDir: bool)
    requires Totals(t) && p in t && id !in t && p != id
    ensures Totals(Added(t, p, id, name, isDir))
  {
    var t' := Added(t, p, id, name, isDir);
    forall r | r in t' ensures TotalOk(t', r) {
      if IsRoot(t', r) {
        assert TotalOk(t, r);
        var u := t[r].name;
        var more := if !isDir && t[p].owner == u then {id} else {};
        assert FilesOf(t', u) == FilesOf(t, u) + more;
        WeightUnion(t', FilesOf(t, u), more);
        WeightSame(t, t', FilesOf(t, u));
        if more == {id} { WeightTake(t', more, id); assert more - {id} == {}; }
      }
    }
  }

  lemma NewRootTotals(s: FS, user: string)
    requires Totals(s.inodes) && Founded(s.inodes, s.users) && user !in s.users && s.next !in s.inodes
    ensures Totals(NewRoot(s, user).inodes)
  {
    var t, t' := s.inodes, NewRoot(s, user).inodes;
    forall r | r in t' ensures TotalOk(t', r) {
      if r != s.next {
        assert TotalOk(t, r);
        assert FilesOf(t', t[r].name) == FilesOf(t, t[r].name);
        WeightSame(t, t', FilesOf(t, t[r].name));
      } else {
        forall j | j in t ensures t[j].owner != user { assert HasFounder(t, s.users, j); }
        assert FilesOf(t', user) == {};
      }
    }
  }

  /** A write adds as much to the root as to the file, whatever happened to the directories in between. */
  lemma GrowTotals(s: FS, c: Id, d: nat)
    requires Linked(s.inodes) && Indexed(s.inodes, s.index, s.next) && Rooted(s.inodes, s.users) && Totals(s.inodes)
    requires c in s.inodes && !s.inodes[c].isDir && s.inodes[c].size + d <= MAX_UINT64
    requires s.inodes[RootOf(s.inodes, c)].size + d <= MAX_UINT64
    ensures Totals(Resized(s.inodes, c, d))
  {
    hide Linked, Indexed, Rooted;
    var t, t' := s.inodes, Resized(s.inodes, c, d);
    forall x | x in t' ensures TotalOk(t', x) {
      if IsRoot(t', x) {
        assert TotalOk(t, x);
        GrowTotalAt(s, c, d, x);
      }
    }
  }

  lemma OtherFilesKept(s: FS, c: Id, d: nat, j: Id)
    requires Linked(s.inodes) && Indexed(s.inodes, s.index, s.next) && c in s.inodes
    requires j in s.inodes && !s.inodes[j].isDir && j != c
    ensures Resized(s.inodes, c, d)[j] == s.inodes[j]
  {
    if Under(s.inodes[c].path, s.inodes[j].path) { FilesAreLeaves(s.inodes, s.index, s.next, c, j); }
  }

  lemma ResizedSelf(t: Tree, c: Id, d: nat)
    requires c in t && t[c].size + d <= MAX_UINT64
    ensures Resized(t, c, d).Keys == t.Keys && Resized(t, c, d)[c].size == t[c].size + d
  {
    assert Under(t[c].path, t[c].path);
    SmallMod(t[c].size + d);
  }

  lemma GrownWeight(s: FS, c: Id, d: nat, files: set<Id>)
    requires Linked(s.inodes) && Indexed(s.inodes, s.index, s.next) && c in s.inodes && s.inodes[c].size + d <= MAX_UINT64
    requires files <= s.inodes.Keys && forall j :: j in files ==> !s.inodes[j].isDir
    ensures Weight(Resized(s.inodes, c, d), files) == Weight(s.inodes, files) + if c in files then d else 0
  {
    hide Linked, Indexed, Resized, Under;
    var t, t' := s.inodes, Resized(s.inodes, c, d);
    ResizedSelf(t, c, d);
    forall j | j in files && j != c ensures t'[j].size == t[j].size { OtherFilesKept(s, c, d, j); }
    if c in files {
      WeightTake(t, files, c);
      WeightTake(t', files, c);
      WeightSame(t, t', files - {c});
    } else {
      WeightSame(t, t', files);
    }
  }

  /** Of the roots, a write touches only the one above. */
  lemma GrowRootAt(s: FS, c: Id, d: nat, x: Id)
    requires Linked(s.inodes) && Indexed(s.inodes, s.index, s.next) && c in s.inodes && x in s.inodes && IsRoot(s.inodes, x)
    requires s.inodes[RootOf(s.inodes, c)].size + d <= MAX_UINT64
    ensures var t, t' := s.inodes, Resized(s.inodes, c, d);
      t'[x].size == t[x].size + if x == RootOf(t, c) then d else 0
  {
    var t := s.inodes;
    RootAbove(t, c);
    SmallMod(t[RootOf(t, c)].size + d);
    if Under(t[c].path, t[x].path) { RootIsAbove(s, c, x); }
  }

  lemma GrowTotalAt(s: FS, c: Id, d: nat, x: Id)
    requires Linked(s.inodes) && Indexed(s.inodes, s.index, s.next) && Rooted(s.inodes, s.users)
    requires c in s.inodes && !s.inodes[c].isDir && s.inodes[c].size + d <= MAX_UINT64
    requires s.inodes[RootOf(s.inodes, c)].size + d <= MAX_UINT64
    requires x in s.inodes && IsRoot(s.inodes, x) && TotalOk(s.inodes, x)
    ensures TotalOk(Resized(s.inodes, c, d), x)
  {
    hide Linked, Indexed, Rooted, RootOf;
    var t, t' := s.inodes, Resized(s.inodes, c, d);
    var files := FilesOf(t, t[x].name);
    assert FilesOf(t', t[x].name) == files;
    GrownWeight(s, c, d, files);
    GrowRootAt(s, c, d, x);
    RootNamed(s, c, x);
  }

  /** The bytes below an inode. */
  ghost function BytesBelow(t: Tree, i: Id): nat
    requires i in t
  {
    Weight(t, FilesUnder(t, t[i].path))
  }

  /** Deleting `i` takes as much off the root as it takes off the disk: its cached size is the bytes
      below it, or exceeds the root's, which is clamped to zero, and everything lies below it. */
  ghost predicate Accounted(t: Tree, i: Id)
    requires Linked(t) && i in t
  {
    var total := t[RootOf(t, i)].size;
    t[i].size == BytesBelow(t, i) || (t[i].size > total && total == BytesBelow(t, i))
  }

  /** The weight of what a user keeps is what they had less the bytes below `i`. */
  lemma DropWeight(s: FS, i: Id)
    requires WF(s) && i in s.inodes && !IsRoot(s.inodes, i)
    ensures var t, t', u := s.inodes, Dropped(s.inodes, i), s.inodes[i].owner;
      Weight(t', FilesOf(t', u)) + BytesBelow(t, i) == Weight(t, FilesOf(t, u))
  {
    hide Aged, Founded, OnDisk, TrashOk, Rooted, Indexed, Linked;
    var t, t', u := s.inodes, Dropped(s.inodes, i), s.inodes[i].owner;
    var files, gone := FilesOf(t, u), FilesUnder(t, t[i].path);
    SubtreeOwner(s, i);
    assert gone <= files;
    assert FilesOf(t', u) == files - gone;
    WeightUnion(t, files - gone, gone);
    assert files - gone + gone == files;
    forall j | j in files - gone ensures t'[j].size == t[j].size { LeafKept(s, i, j); }
    WeightSame(t, t', files - gone);
  }

  lemma DropOtherWeight(s: FS, i: Id, u: string)
    requires WF(s) && i in s.inodes && !IsRoot(s.inodes, i) && u != s.inodes[i].owner
    ensures var t, t' := s.inodes, Dropped(s.inodes, i); Weight(t', FilesOf(t', u)) == Weight(t, FilesOf(t, u))
  {
    hide Aged, Founded, OnDisk, TrashOk, Rooted, Indexed, Linked;
    var t, t' := s.inodes, Dropped(s.inodes, i);
    SubtreeOwner(s, i);
    assert FilesOf(t', u) == FilesOf(t, u);
    forall j | j in FilesOf(t, u) ensures t'[j].size == t[j].size { LeafKept(s, i, j); }
    WeightSame(t, t', FilesOf(t, u));
  }

  /** Of the roots, a delete touches only the one above. */
  lemma DropRootAt(s: FS, i: Id, x: Id)
    requires WF(s) && i in s.inodes && !IsRoot(s.inodes, i) && x in s.inodes && IsRoot(s.inodes, x)
    ensures var t, t' := s.inodes, Dropped(s.inodes, i);
      && x in t' && IsRoot(t', x) && t'[x].name == t[x].name
      && t'[x].size == (if x == RootOf(t, i) then Less(t[x].size, t[i].size) else t[x].size)
  {
    hide Aged, Founded, OnDisk, TrashOk, Rooted;
    var t := s.inodes;
    ParentUnder(t, s.index, s.next, i, x);
    RootAbove(t, i);
    if Under(t[i].path, t[x].path) { RootIsAbove(s, i, x); }
  }

  /** A root is named after the owner of everything below it. */
  lemma RootNamed(s: FS, i: Id, x: Id)
    requires Linked(s.inodes) && Rooted(s.inodes, s.users) && i in s.inodes && x in s.inodes && IsRoot(s.inodes, x)
    ensures x == RootOf(s.inodes, i) <==> s.inodes[x].name == s.inodes[i].owner
  {
    hide RootOf;
    assert NodeOk(s.inodes, RootOf(s.inodes, i));
  }

  lemma DropTotalAt(s: FS, i: Id, x: Id)
    requires WF(s) && i in s.inodes && !IsRoot(s.inodes, i) && x in s.inodes && IsRoot(s.inodes, x) && TotalOk(s.inodes, x)
    ensures x in Dropped(s.inodes, i)
    ensures TotalOk(Dropped(s.inodes, i), x) <==> (x == RootOf(s.inodes, i) ==> Accounted(s.inodes, i))
  {
    hide Linked, Rooted, Indexed, Aged, Founded, OnDisk, TrashOk, FilesOf, BytesBelow, Dropped, RootOf;
    DropRootAt(s, i, x);
    RootNamed(s, i, x);
    if x == RootOf(s.inodes, i) {
      DropWeight(s, i);
    } else {
      DropOtherWeight(s, i, s.inodes[x].name);
    }
  }

  /** A file outside the subtree is no ancestor of it, so its size stays. */
  lemma LeafKept(s: FS, i: Id, j: Id)
    requires WF(s) && i in s.inodes && j in s.inodes && !s.inodes[j].isDir && !Under(s.inodes[j].path, s.inodes[i].path)
    ensures j in Dropped(s.inodes, i) && Dropped(s.inodes, i)[j].size == s.inodes[j].size
  {
    hide Aged, Founded, OnDisk, TrashOk, Rooted;
    if Under(s.inodes[i].path, s.inodes[j].path) { FilesAreLeaves(s.inodes, s.index, s.next, i, j); }
  }

  /** A delete conserves the totals exactly when it is accounted for. */
  lemma DropConservesIff(s: FS, i: Id)
    requires WF(s) && i in s.inodes && !IsRoot(s.inodes, i) && Totals(s.inodes)
    ensures Totals(Dropped(s.inodes, i)) <==> Accounted(s.inodes, i)
  {
    hide Linked, Rooted, Indexed, Aged, Founded, OnDisk, TrashOk, Accounted, RootOf;
    var t, t' := s.inodes, Dropped(s.inodes, i);
    var r := RootOf(t, i);
    assert TotalOk(t, r);
    DropTotalAt(s, i, r);
    forall x | x in t' && Accounted(t, i) ensures TotalOk(t', x) {
      if IsRoot(t', x) {
        assert TotalOk(t, x);
        DropTotalAt(s, i, x);
      }
    }
  }

  // ---------------------------------------------------------------- sizes on disk

  lemma AddConserves(s: FS, p: Id, name: Name, isDir: bool)
    requires WF(s) && Conserved(s) && p in s.inodes && s.inodes[p].isDir && NameFree(s.inodes, p, name)
    ensures Conserved(AddNode(s, p, name, isDir))
  {
    hide Aged, Founded, OnDisk, TrashOk, Rooted, Totals;
    AddTotals(s.inodes, p, s.next, name, isDir);
    AddIndexed(s.inodes, s.index, p, s.next, name, isDir);
  }

  lemma MoveConserves(s: FS, i: Id, to: Id, name: Name)
    requires WF(s) && Conserved(s) && CanMove(s.inodes, i, to) && NameFree(s.inodes, to, name)
    ensures Conserved(MoveNode(s, i, to, name))
  {
    hide Aged, Founded, TrashOk, Rooted, Totals, Linked;
    assert Totals(Moved(s.inodes, i, to, name)) by { MoveTotals(s.inodes, i, to, name); }
    FreeMeansVacant(s.inodes, s.index, s.next, to, name);
    var src, dst := s.inodes[i].path, s.inodes[to].path + [name];
    assert Vacant(s.disk, dst);
    forall j | j in s.inodes && !s.inodes[j].isDir
      ensures Rebase(s.inodes[j].path, src, dst) in RenamePrefix(s.disk, src, dst)
        && RenamePrefix(s.disk, src, dst)[Rebase(s.inodes[j].path, src, dst)] == File(s.inodes[j].size)
    {
      RenameKeeps(s.disk, src, dst, s.inodes[j].path);
    }
  }

  lemma WriteAtConserves(s: FS, c: Id, offset: nat, len: nat)
    requires WF(s) && QuotaSafe(s) && Conserved(s) && c in s.inodes && !s.inodes[c].isDir && Addressable(offset, len)
    requires !EmptyExtension(s.inodes[c].size, offset, len)
    requires
      var root := s.inodes[RootOf(s.inodes, c)];
      !OverQuota(root.size, QuotaOf(s.quotas, root.name), SizeDiff(s.inodes[c].size, offset, len))
    ensures Conserved(WriteAt(s, c, offset, len, SizeDiff(s.inodes[c].size, offset, len)))
  {
    hide Aged, Founded, TrashOk, OnDisk, Totals, SizesOnDisk, RootOf, SizeDiff, Addressable, Resized, WriteAt;
    DiffExact(s.inodes[c].size, offset, len);
    var d := SizeDiff(s.inodes[c].size, offset, len);
    QuotaFits(s.quotas, s.inodes[RootOf(s.inodes, c)].name);
    if d > 0 { GrowTotals(s, c, d); }
    WrittenTree(s, c, offset, len, d);
    WriteAtSizes(s, c, offset, len, d);
  }

  lemma WrittenTree(s: FS, c: Id, offset: nat, len: nat, d: int)
    requires c in s.inodes
    ensures WriteAt(s, c, offset, len, d).inodes == if d != 0 then Resized(s.inodes, c, d) else s.inodes
  {
  }

  lemma WriteAtSizes(s: FS, c: Id, offset: nat, len: nat, d: nat)
    requires WF(s) && SizesOnDisk(s) && c in s.inodes && !s.inodes[c].isDir && !EmptyExtension(s.inodes[c].size, offset, len)
    requires d == NewSize(s.inodes[c].size, offset, len) - s.inodes[c].size && s.inodes[c].size + d <= MAX_INT64
    ensures SizesOnDisk(WriteAt(s, c, offset, len, d))
  {
    hide Aged, Founded, TrashOk, OnDisk, Rooted, Linked;
    var s' := WriteAt(s, c, offset, len, d);
    var t, t' := s.inodes, s'.inodes;
    assert Under(t[c].path, t[c].path);
    SmallMod(t[c].size + d);
    forall j | j in t && !t[j].isDir && j != c
      ensures t'[j] == t[j] && t[j].path in s'.disk && s'.disk[t[j].path] == s.disk[t[j].path]
    {
      OtherFilesKept(s, c, d, j);
      if t[j].path == t[c].path { SamePath(t, s.index, s.next, j, c); assert false; }
    }
  }

  // ---------------------------------------------------------------- the operations

  lemma EnsureTrashConserves(s: FS, user: string, io: Io)
    requires WF(s) && Conserved(s)
    ensures Conserved(EnsureTrash(s, user, io).0)
  {
    hide Indexed, Aged, Founded, TrashOk, OnDisk, Conserved;
    if user in s.users {
      var root := s.users[user];
      assert NodeOk(s.inodes, root);
      if FindChild(s.inodes, s.inodes[root].children, TRASH_DIR).None? { AddConserves(s, root, TRASH_DIR, true); }
    }
  }

  lemma OpenConserves(s: FS, user: string, io: Io)
    requires WF(s) && Conserved(s)
    ensures Conserved(OpenRoot(s, user, io).0)
  {
    hide EnsureTrash;
    NewRootWF(s, user);
    if user in s.users {
      EnsureTrashConserves(s, user, io);
    } else if io.act {
      RootPathFresh(s.inodes, s.users, s.index, s.next, user);
      NewRootTotals(s, user);
      EnsureTrashConserves(NewRoot(s, user), user, io);
    }
  }

  lemma CreateConserves(s: FS, p: Id, name: Name, user: string, isDir: bool, io: Io)
    requires WF(s) && Conserved(s)
    ensures Conserved(Create(s, p, name, user, isDir, io).0)
  {
    hide WF, EnsureTrash, ValidName, Under, AddNode, Totals, SizesOnDisk;
    if p in s.inodes {
      RefreshExact(s, p);
      EnsureTrashWF(s, user, io);
      EnsureTrashConserves(s, user, io);
      if s.inodes[p].isDir && FindChild(s.inodes, s.inodes[p].children, name).None? && !Reserved(name) {
        StillFree(s, user, io, p, name);
        AddConserves(EnsureTrash(s, user, io).0, p, name, isDir);
      }
    }
  }

  lemma TrashConserves(s: FS, i: Id, user: string, recursive: bool, io: Io, s': FS, r: Reply)
    requires WF(s) && Conserved(s) && Trash(s, i, user, recursive, io) == (s', r)
    requires i in s.inodes ==> TrashNameFree(s, i, user)
    ensures Conserved(s')
  {
    hide WF, EnsureTrash, Guard, UniqueName, Extends, TrashOf, TrashNameFree, Totals, SizesOnDisk, MoveNode, NameFree, CanMove;
    if i in s.inodes {
      RefreshExact(s, i);
      EnsureTrashConserves(s, user, io);
      if r.Placed? {
        EnsureTrashWF(s, user, io);
        GuardPasses(s, i, user, recursive);
        var (s1, tr) := EnsureTrash(s, user, io);
        TrashNameNow(s, i, user, io);
        MovesIntoTrash(s, s1, i, user, tr.value);
        MoveConserves(s1, i, tr.value, r.name);
        OnlyTables(MoveNode(s1, i, tr.value, r.name), s');
      }
    }
  }

  lemma OnlyTables(s: FS, s': FS)
    requires Conserved(s) && s'.inodes == s.inodes && s'.disk == s.disk
    ensures Conserved(s')
  {
  }

  lemma MovesIntoTrash(s0: FS, s1: FS, i: Id, user: string, tr: Id)
    requires WF(s0) && WF(s1) && Extends(s0, s1) && i in s0.inodes && TrashOf(s1, user, tr) && s0.inodes[i].owner == user
    requires !IsRoot(s0.inodes, i) && !IsTrash(s0.inodes, i)
    ensures CanMove(s1.inodes, i, tr)
  {
    assert NodeOk(s0.inodes, i);
    ExtendsKind(s0, s1, i);
    TrashCanMove(s1, i, user, tr);
  }

  lemma RestoreConserves(s: FS, i: Id, user: string, mayAccess: bool, io: Io, s': FS, r: Reply)
    requires WF(s) && Conserved(s) && Restore(s, i, user, mayAccess, io) == (s', r)
    requires i in s.trash && user in s.users && s.users[user] in s.inodes ==> RestoreNameFree(s, i, user)
    ensures Conserved(s')
  {
    hide WF, EnsureTrash, UniqueName, Extends, TrashOf, Totals, SizesOnDisk, MoveNode, NameFree, CanMove;
    if i in s.inodes {
      RefreshExact(s, i);
      EnsureTrashConserves(s, user, io);
      if r.Placed? {
        EnsureTrashWF(s, user, io);
        RestoreGuarded(s, i, user, io);
        var (s1, tr) := EnsureTrash(s, user, io);
        RestoreCanMove(s1, i, user, tr.value);
        var to := RestoreTarget(s1, i, user);
        MoveConserves(s1, i, to, r.name);
        OnlyTables(MoveNode(s1, i, to, r.name), s');
      }
    }
  }

  /** A successful delete conserves the totals if and only if it is accounted for. */
  lemma DeleteConservesIff(s: FS, i: Id, user: string, recursive: bool, io: Io, s': FS, r: Reply)
    requires WF(s) && QuotaSafe(s) && Conserved(s) && Delete(s, i, user, recursive, io) == (s', r)
    ensures r.Done? ==> i in s.inodes && (Conserved(s') <==> Accounted(s.inodes, i))
    ensures !r.Done? ==> s' == s
  {
    hide Linked, Rooted, Indexed, Aged, Founded, OnDisk, TrashOk, Guard, Totals, SizesOnDisk, Accounted, WithinQuota, QuotaOf;
    if i in s.inodes {
      RefreshExact(s, i);
      if r.Done? {
        GuardPasses(s, i, user, recursive);
        DropConservesIff(s, i);
        DropSizes(s, i);
      }
    }
  }

  lemma WriteConserves(s: FS, p: Id, name: Name, offset: nat, len: nat, room: bool, io: Io, s': FS, r: Reply)
    requires WF(s) && QuotaSafe(s) && Conserved(s) && offset <= MAX_UINT64 && len <= MAX_UINT64
    requires Plain(s, OpWrite(p, name, offset, len, room, io)) && Write(s, p, name, offset, len, room, io) == (s', r)
    ensures Conserved(s')
  {
    hide WF, QuotaSafe, OverQuota, SizeDiff, WriteAt, QuotaOf, Addressable, RootOf, Totals, SizesOnDisk, EmptyExtension;
    if p in s.inodes {
      RefreshExact(s, p);
      if r.Done? { WriteAtConserves(s, FindChild(s.inodes, s.inodes[p].children, name).value, offset, len); }
    }
  }

  // ---------------------------------------------------------------- exact sums give exact totals

  /** The files below one of the listed children. */
  ghost function FilesBelow(t: Tree, cs: seq<Id>): set<Id>
    requires forall c :: c in cs ==> c in t
  {
    set j, c | j in t && !t[j].isDir && c in cs && Under(t[j].path, t[c].path) :: j
  }

  /** When every directory is the sum of its children, every inode's size is the bytes below it. */
  lemma {:induction false} SizeIsWeight(s: FS, i: Id)
    requires WF(s) && Summed(s.inodes) && i in s.inodes
    ensures s.inodes[i].size == BytesBelow(s.inodes, i)
    decreases Subtree(s.inodes, i)
  {
    hide Rooted, Aged, Founded, OnDisk, TrashOk;
    var t := s.inodes;
    assert NodeOk(t, i);
    if !t[i].isDir {
      LeafBelow(s, i);
      WeightTake(t, {i}, i);
      assert {i} - {i} == {};
    } else {
      assert SumsUp(t, i);
      var cs := t[i].children;
      forall c | c in cs ensures c in t && t[c].size == BytesBelow(t, c) {
        SubtreeShrinks(s, i, c);
        SizeIsWeight(s, c);
      }
      ChildrenWeight(s, i, |cs|);
      assert cs[..|cs|] == cs;
      BelowChildren(s, i);
    }
  }

  lemma LeafBelow(s: FS, i: Id)
    requires WF(s) && i in s.inodes && !s.inodes[i].isDir
    ensures FilesUnder(s.inodes, s.inodes[i].path) == {i}
  {
    hide Rooted, Aged, Founded, OnDisk, TrashOk;
    forall j | j in FilesUnder(s.inodes, s.inodes[i].path) ensures j == i { FilesAreLeaves(s.inodes, s.index, s.next, j, i); }
  }

  lemma {:induction false} ChildrenWeight(s: FS, i: Id, k: nat)
    requires WF(s) && i in s.inodes && k <= |s.inodes[i].children| && Present(s.inodes, s.inodes[i].children)
    requires forall c :: c in s.inodes[i].children ==> s.inodes[c].size == BytesBelow(s.inodes, c)
    ensures Present(s.inodes, s.inodes[i].children[..k])
    ensures Weight(s.inodes, FilesBelow(s.inodes, s.inodes[i].children[..k])) == SumOf(s.inodes, s.inodes[i].children[..k])
    decreases k
  {
    hide Rooted, Aged, Founded, OnDisk, TrashOk, Linked, Indexed, SumOf;
    var t, cs := s.inodes, s.inodes[i].children;
    NothingBelow(t);
    if k == 0 {
    } else {
      var c := cs[k - 1];
      ChildrenWeight(s, i, k - 1);
      assert cs[..k] == cs[..k - 1] + [c];
      SumAppended(t, cs[..k - 1], c);
      var before, here := FilesBelow(t, cs[..k - 1]), FilesUnder(t, t[c].path);
      BelowOneMore(t, cs[..k - 1], c);
      ApartFromEarlier(s, i, k);
      WeightUnion(t, before, here);
    }
  }

  lemma NothingBelow(t: Tree)
    ensures FilesBelow(t, []) == {} && SumOf(t, []) == 0 && Weight(t, {}) == 0
  {
  }

  lemma BelowOneMore(t: Tree, cs: seq<Id>, c: Id)
    requires Present(t, cs) && c in t
    ensures Present(t, cs + [c]) && FilesBelow(t, cs + [c]) == FilesBelow(t, cs) + FilesUnder(t, t[c].path)
  {
  }

  lemma ApartFromEarlier(s: FS, i: Id, k: nat)
    requires WF(s) && i in s.inodes && 0 < k <= |s.inodes[i].children| && Present(s.inodes, s.inodes[i].children)
    requires Present(s.inodes, s.inodes[i].children[..k - 1])
    ensures FilesBelow(s.inodes, s.inodes[i].children[..k - 1]) !! FilesUnder(s.inodes, s.inodes[s.inodes[i].children[k - 1]].path)
  {
    hide Rooted, Aged, Founded, OnDisk, TrashOk;
    var t, cs := s.inodes, s.inodes[i].children;
    assert NodeOk(t, i);
    forall j | j in FilesBelow(t, cs[..k - 1]) ensures !Under(t[j].path, t[cs[k - 1]].path) {
      var c :| c in cs[..k - 1] && Under(t[j].path, t[c].path);
      var a :| 0 <= a < k - 1 && cs[a] == c;
      if Under(t[j].path, t[cs[k - 1]].path) { OneStepBelow(t, s.index, s.next, j, i, cs[a], cs[k - 1]); assert false; }
    }
  }

  lemma BelowChildren(s: FS, i: Id)
    requires WF(s) && i in s.inodes && s.inodes[i].isDir && Present(s.inodes, s.inodes[i].children)
    ensures FilesBelow(s.inodes, s.inodes[i].children) == FilesUnder(s.inodes, s.inodes[i].path)
  {
    hide Rooted, Aged, Founded, OnDisk, TrashOk;
    var t := s.inodes;
    assert NodeOk(t, i);
    forall j | j in FilesUnder(t, t[i].path) ensures j in FilesBelow(t, t[i].children) {
      var c := ChainChild(t, s.index, s.next, i, j);
    }
    forall j | j in FilesBelow(t, t[i].children) ensures j in FilesUnder(t, t[i].path) {
      var c :| c in t[i].children && Under(t[j].path, t[c].path);
      assert NodeOk(t, c);
      assert t[c].path == t[i].path + [t[c].name];
    }
  }

  /** So exact sums give exact totals, and every delete is accounted for. */
  lemma SummedTotals(s: FS)
    requires WF(s) && Summed(s.inodes)
    ensures Totals(s.inodes) && forall i :: i in s.inodes ==> Accounted(s.inodes, i)
  {
    hide Aged, Founded, OnDisk, TrashOk, RootOf, BytesBelow, Summed;
    var t := s.inodes;
    forall r | r in t ensures TotalOk(t, r) {
      SizeIsWeight(s, r);
      if IsRoot(t, r) { RootFiles(s, r); }
    }
    forall i | i in t ensures Accounted(t, i) { SizeIsWeight(s, i); }
  }

  lemma RootFiles(s: FS, r: Id)
    requires WF(s) && r in s.inodes && IsRoot(s.inodes, r)
    ensures BytesBelow(s.inodes, r) == Weight(s.inodes, FilesOf(s.inodes, s.inodes[r].name))
  {
    hide Aged, Founded, OnDisk, TrashOk;
    var t := s.inodes;
    assert NodeOk(t, r);
    forall j | j in t ensures Under(t[j].path, t[r].path) <==> t[j].owner == t[r].name { OwnerIsFirst(t, j); PathNonEmpty(t, j); }
    assert FilesUnder(t, t[r].path) == FilesOf(t, t[r].name);
  }

  // ---------------------------------------------------------------- runs

  ghost predicate Sound(s: FS) {
    WF(s) && QuotaSafe(s) && Conserved(s)
  }

  /** A restart recomputes every size; the roots' totals come out as they were. */
  lemma RestartSound(s: FS, s': FS)
    requires Sound(s) && Scannable(s) && Rescanned(s, s')
    ensures Sound(s')
    ensures forall r :: r in s.inodes && IsRoot(s.inodes, r) ==> r in s'.inodes && s'.inodes[r].size == s.inodes[r].size
  {
    hide Linked, Rooted, Indexed, Aged, Founded, OnDisk, TrashOk, Summed, Totals, Accounted, Scannable;
    RescanRecovers(s, s');
    SummedTotals(s');
    forall r | r in s.inodes && IsRoot(s.inodes, r) ensures r in s'.inodes && s'.inodes[r].size == s.inodes[r].size {
      TotalSurvives(s, s', r);
    }
    RestartQuota(s, s');
  }

  lemma TotalSurvives(s: FS, s': FS, r: Id)
    requires WF(s) && SameTree(s.inodes, s'.inodes) && Totals(s.inodes) && Totals(s'.inodes) && r in s.inodes && IsRoot(s.inodes, r)
    requires forall i :: i in s.inodes && !s.inodes[i].isDir ==> i in s'.inodes && s'.inodes[i].size == s.inodes[i].size
    ensures r in s'.inodes && s'.inodes[r].size == s.inodes[r].size
  {
    hide Rooted, Indexed, Aged, Founded, OnDisk, TrashOk, Linked;
    var t, t' := s.inodes, s'.inodes;
    assert SameInode(t[r], t'[r]) && TotalOk(t, r) && TotalOk(t', r);
    var u := t[r].name;
    forall j | j in t ensures t'[j].isDir == t[j].isDir && t'[j].owner == t[j].owner { assert SameInode(t[j], t'[j]); }
    assert FilesOf(t', u) == FilesOf(t, u);
    WeightSame(t, t', FilesOf(t, u));
  }

  lemma RestartQuota(s: FS, s': FS)
    requires QuotaSafe(s) && s'.quotas == s.quotas && s'.disk == s.disk && SameTree(s.inodes, s'.inodes) && SizesOnDisk(s')
    requires forall r :: r in s.inodes && IsRoot(s.inodes, r) ==> r in s'.inodes && s'.inodes[r].size == s.inodes[r].size
    ensures QuotaSafe(s')
  {
    forall r | r in s'.inodes && IsRoot(s'.inodes, r) ensures s'.inodes[r].size <= QuotaOf(s'.quotas, s'.inodes[r].name) {
      assert SameInode(s.inodes[r], s'.inodes[r]);
    }
  }

  /** Calls after which the books still balance: no empty write beyond the end, and only accounted-for deletes. */
  ghost predicate Balanced(s: FS, op: Op) {
    match op
    case OpWrite(_, _, _, _, _, _) => Plain(s, op)
    case OpDelete(i, user, recursive, io) =>
      WF(s) && i in s.inodes && Delete(s, i, user, recursive, io).1.Done? ==> Accounted(s.inodes, i)
    case OpSetQuota(_, _, _) => false
    case _ => true
  }

  lemma DoConserves(s: FS, op: Op, s': FS)
    requires Sound(s) && WireOk(op) && NameTrusted(s, op) && Balanced(s, op) && s' == Do(s, op).0
    ensures Conserved(s')
  {
    hide QuotaSafe, Conserved, OpenRoot, Create, Trash, Restore, Delete, Write, Share, Unshare, Plain, Accounted, TrashNameFree, RestoreNameFree;
    hide Rooted, Indexed, Aged, Founded, OnDisk, TrashOk;
    match op
    case OpOpen(user, io) => OpenConserves(s, user, io);
    case OpCreate(p, name, user, isDir, io) => CreateConserves(s, p, name, user, isDir, io);
    case OpTrash(i, user, recursive, io) => TrashConserves(s, i, user, recursive, io, s', Trash(s, i, user, recursive, io).1);
    case OpRestore(i, user, mayAccess, io) => RestoreConserves(s, i, user, mayAccess, io, s', Restore(s, i, user, mayAccess, io).1);
    case OpDelete(i, user, recursive, io) => DeleteConservesIff(s, i, user, recursive, io, s', Delete(s, i, user, recursive, io).1);
    case OpWrite(p, name, offset, len, room, io) =>
      WriteConserves(s, p, name, offset, len, room, io, s', Write(s, p, name, offset, len, room, io).1);
    case OpShare(i, user, grantee, hasAccess) => ShareConserves(s, i, user, grantee, hasAccess);
    case OpUnshare(i, user, grantee, hasAccess) => ShareConserves(s, i, user, grantee, hasAccess);
  }

  lemma ShareConserves(s: FS, i: Id, user: string, grantee: string, hasAccess: bool)
    requires Conserved(s)
    ensures Conserved(Share(s, i, user, grantee, hasAccess).0) && Conserved(Unshare(s, i, user, grantee, hasAccess).0)
  {
    hide Conserved;
    if i in s.inodes {
      ConservedLookup(s, i);
      OnlyTables(s, Share(s, i, user, grantee, hasAccess).0);
      OnlyTables(s, Unshare(s, i, user, grantee, hasAccess).0);
    }
  }

  lemma ConservedLookup(s: FS, i: Id)
    requires Conserved(s) && i in s.inodes
    ensures Refresh(s, i) == s
  {
    RefreshExact(s, i);
  }

  lemma StepConserves(s: FS, e: Event, s': FS)
    requires Sound(s) && StepTo(s, e, s') && (e.Call? ==> Balanced(s, e.op))
    ensures Sound(s')
  {
    hide WF, QuotaSafe, Conserved, Do, NameTrusted, Scannable, Rescanned;
    match e
    case Call(op) =>
      DoConserves(s, op, s');
      DoKeepsAgreement(s, op, s');
      DoQuota(s, op, s');
    case Restart => RestartSound(s, s');
  }

  /** Over every run of opens, creates, writes, trashes, restores, accounted-for deletes and restarts,
      each root's total is the bytes its user has on disk, and is within the quota. */
  lemma {:induction false} RunConserves(ss: seq<FS>, es: seq<Event>, k: nat)
    requires IsRun(ss, es) && Sound(ss[0]) && k < |ss|
    requires forall j :: 0 <= j < |es| && es[j].Call? && WF(ss[j]) ==> Balanced(ss[j], es[j].op)
    ensures Sound(ss[k])
  {
    hide WF, QuotaSafe, Conserved, StepTo, Balanced;
    if k == 0 {
    } else {
      RunConserves(ss, es, k - 1);
      assert StepTo(ss[k - 1], es[k - 1], ss[k]);
      StepConserves(ss[k - 1], es[k - 1], ss[k]);
    }
  }
}
