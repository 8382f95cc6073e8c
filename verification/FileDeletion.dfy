/**
What a recursive delete takes with it, told by parent links rather than by paths.
*/
module FileDeletion {
  import opened Paths
  import opened InodeTree
  import opened FileOps
  import opened FileSafety
  import opened FileRuns

  /** `j` is `i` or has it among its ancestors. */
  ghost predicate Descends(t: Tree, j: Id, i: Id) {
    Linked(t) && j in t && exists k :: 0 <= k < |t[j].path| && Climb(t, j, k) == i
  }

  /** Lying below a path is the same as reaching its inode by parent links. */
  lemma UnderIffDescends(s: FS, j: Id, i: Id)
    requires WF(s) && i in s.inodes && j in s.inodes
    ensures Under(s.inodes[j].path, s.inodes[i].path) <==> Descends(s.inodes, j, i)
  {
    hide Founded, OnDisk, TrashOk, Aged, Rooted;
    var t := s.inodes;
    if Under(t[j].path, t[i].path) {
      var k := |t[j].path| - |t[i].path|;
      PathNonEmpty(t, i);
      ClimbPath(t, j, k);
      SamePath(t, s.index, s.next, Climb(t, j, k), i);
    }
    if Descends(t, j, i) {
      var k :| 0 <= k < |t[j].path| && Climb(t, j, k) == i;
      ClimbPath(t, j, k);
    }
  }

  /** What survives is unchanged but for the parent's child list and the sizes above. */
  ghost predicate Untouched(t: Tree, t': Tree, i: Id, j: Id) {
    && i in t && j in t && j in t'
    && t'[j] == t[j].(children := t'[j].children, size := t'[j].size)
    && t'[j].children == (if j == t[i].parent then Without(t[j].children, i) else t[j].children)
    && (!Descends(t, i, j) ==> t'[j].size == t[j].size)
  }

  /** A successful delete removes exactly the target and its descendants from the inode
      table, the index, the trash metadata and the disk, and their shares, and keeps the rest. */
  lemma DeleteRemovesExactly(s: FS, i: Id, user: string, recursive: bool, io: Io, s': FS)
    requires WF(s) && Delete(s, i, user, recursive, io) == (s', Done)
    ensures WF(s') && i in s.inodes && s'.users == s.users && s'.next == s.next
    ensures forall j :: j in s'.inodes <==> j in s.inodes && !Descends(s.inodes, j, i)
    ensures forall j :: j in s'.inodes ==> Untouched(s.inodes, s'.inodes, i, j)
    ensures forall p :: p in s'.index <==> p in s.index && !Descends(s.inodes, s.index[p], i)
    ensures forall p :: p in s'.index ==> p in s.index && s'.index[p] == s.index[p]
    ensures forall j :: j in s'.trash <==> j in s.trash && j in s.inodes && !Descends(s.inodes, j, i)
    ensures forall j :: j in s'.trash ==> j in s.trash && s'.trash[j] == s.trash[j]
    ensures s'.shared == IndexWithout(s.shared, s.inodes[i].path) && s'.disk == IndexWithout(s.disk, s.inodes[i].path)
  {
    hide Linked, Rooted, Aged, Founded, OnDisk, TrashOk, Descends, DropNode, Under, Indexed;
    DeleteWF(s, i, user, recursive, io);
    DeletedParts(s, i, s');
    forall j | j in s.inodes ensures Under(s.inodes[j].path, s.inodes[i].path) <==> Descends(s.inodes, j, i) {
      UnderIffDescends(s, j, i);
    }
    forall j | j in s'.inodes ensures Untouched(s.inodes, s'.inodes, i, j) { UnderIffDescends(s, i, j); }
    forall p | p in s.index ensures s.index[p] in s.inodes && s.inodes[s.index[p]].path == p { IndexHolds(s, p); }
  }

  lemma IndexHolds(s: FS, p: Path)
    requires WF(s) && p in s.index
    ensures s.index[p] in s.inodes && s.inodes[s.index[p]].path == p
  {
  }

  lemma DeletedParts(s: FS, i: Id, s': FS)
    requires i in s.inodes && s' == DropNode(Refresh(s, i), i)
    ensures forall j :: j in s'.inodes <==> j in s.inodes && !Under(s.inodes[j].path, s.inodes[i].path)
    ensures forall j :: j in s'.inodes ==> DroppedAs(s.inodes, s'.inodes, i, j)
    ensures s'.index == IndexWithout(s.index, s.inodes[i].path) && s'.users == s.users && s'.next == s.next
    ensures s'.shared == IndexWithout(s.shared, s.inodes[i].path) && s'.disk == IndexWithout(s.disk, s.inodes[i].path)
    ensures s'.trash == TrashWithin(s.trash, s'.inodes)
  {
    hide IndexWithout, TrashWithin, Without, Less, Dropped;
    SameShapeAt(s, i);
    RefreshShape(s, i);
    DroppedPart(Refresh(s, i).inodes, i, i);
    forall j | j in s.inodes
      ensures (j in s'.inodes <==> !Under(s.inodes[j].path, s.inodes[i].path)) && (j in s'.inodes ==> DroppedAs(s.inodes, s'.inodes, i, j))
    {
      DroppedPart(Refresh(s, i).inodes, i, j);
    }
  }

  ghost predicate DroppedAs(t: Tree, t': Tree, i: Id, j: Id)
    requires i in t && j in t && j in t'
  {
    && t'[j] == t[j].(children := t'[j].children, size := t'[j].size)
    && t'[j].children == (if j == t[i].parent then Without(t[j].children, i) else t[j].children)
    && (!Under(t[i].path, t[j].path) ==> t'[j].size == t[j].size)
  }

  lemma DroppedPart(t: Tree, i: Id, j: Id)
    requires i in t && j in t
    ensures j in Dropped(t, i) <==> !Under(t[j].path, t[i].path)
    ensures Dropped(t, i).Keys <= t.Keys
    ensures j in Dropped(t, i) ==> DroppedAs(t, Dropped(t, i), i, j)
  {
  }
}
