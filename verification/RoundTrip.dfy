/**
Trash followed by restore is the identity, apart from the position of the inode
among its siblings, even when the name in the trash had to be suffixed.
*/
module RoundTrip {
  import opened Options
  import opened Paths
  import opened InodeTree
  import opened FileOps
  import opened FileSafety

  lemma {:induction false} WithoutAppended(s: seq<Id>, x: Id)
    requires x !in s
    ensures Without(s + [x], x) == s
  {
    if s == [] {
    } else {
      assert (s + [x])[1..] == s[1..] + [x];
      WithoutAppended(s[1..], x);
      assert s == [s[0]] + s[1..];
    }
  }

  lemma {:induction false} MergeAll(have: seq<string>, more: seq<string>)
    requires NoDup(have + more)
    ensures Merge(have, more) == have + more
    decreases more
  {
    if more == [] {
      assert have + more == have;
    } else {
      assert have + more == (have + [more[0]]) + more[1..];
      assert forall a :: 0 <= a < |have| ==> have[a] == (have + more)[a] && more[0] == (have + more)[|have|];
      MergeAll(have + [more[0]], more[1..]);
    }
  }

  /** The tree with `i` listed last among its siblings. */
  function Relisted(t: Tree, i: Id): Tree
    requires i in t && t[i].parent in t
  {
    var p := t[i].parent;
    t[p := t[p].(children := Without(t[p].children, i) + [i])]
  }

  /** One inode after the move out and the move back. */
  lemma MoveBackNode(t: Tree, i: Id, tr: Id, name: Name, j: Id)
    requires i in t && tr in t && j in t && t[i].parent in t
    requires t[i].parent != tr && tr != i && t[i].parent != i && i !in t[tr].children
    requires t[i].path == t[t[i].parent].path + [t[i].name]
    requires !Under(t[t[i].parent].path, t[i].path)
    requires !Under(t[j].path, t[tr].path + [name])
    ensures MovedNode(Moved(t, i, tr, name), i, t[i].parent, t[i].name, j) == Relisted(t, i)[j]
  {
    RebaseBack(t[j].path, t[i].path, t[tr].path + [name]);
    WithoutAppended(t[tr].children, i);
    assert Rebase(t[i].path, t[i].path, t[tr].path + [name]) == t[tr].path + [name];
  }

  lemma MoveBack(t: Tree, index: map<Path, Id>, next: Id, i: Id, tr: Id, name: Name)
    requires Linked(t) && Indexed(t, index, next) && CanMove(t, i, tr)
    requires NameFree(t, tr, name) && t[i].parent != tr
    ensures
      var t' := Moved(t, i, tr, name);
      t[i].parent in t && Moved(t', i, t[i].parent, t[i].name) == Relisted(t, i)
  {
    hide MovedNode, Without;
    var t' := Moved(t, i, tr, name);
    assert NodeOk(t, tr);
    FreeMeansVacant(t, index, next, tr, name);
    ParentPathShorter(t, i);
    forall j | j in t ensures MovedNode(t', i, t[i].parent, t[i].name, j) == Relisted(t, i)[j] {
      assert t[j].path in index;
      MoveBackNode(t, i, tr, name, j);
    }
  }

  lemma ParentPathShorter(t: Tree, i: Id)
    requires Linked(t) && i in t && !IsRoot(t, i)
    ensures t[i].parent in t && !Under(t[t[i].parent].path, t[i].path)
    ensures t[i].path == t[t[i].parent].path + [t[i].name]
  {
    assert NodeOk(t, i);
  }

  lemma NotIntoItself(t: Tree, index: map<Path, Id>, next: Id, i: Id, tr: Id, name: Name)
    requires Indexed(t, index, next) && CanMove(t, i, tr) && Vacant(index, t[tr].path + [name])
    ensures !Under(t[tr].path + [name], t[i].path)
  {
  }

  /** Merging appends what is missing, once: it keeps a list distinct. */
  lemma {:induction false} MergeDistinct(have: seq<string>, more: seq<string>)
    requires NoDup(have)
    ensures NoDup(Merge(have, more))
    decreases more
  {
    if more == [] {
    } else {
      MergeDistinct(if more[0] in have then have else have + [more[0]], more[1..]);
    }
  }

  /** What is there stays in front, and exactly the two lists' users are listed. */
  lemma {:induction false} MergeHas(have: seq<string>, more: seq<string>)
    ensures have <= Merge(have, more)
    ensures forall u :: u in Merge(have, more) <==> u in have || u in more
    decreases more
  {
    if more == [] {
    } else {
      assert forall u :: u in more <==> u == more[0] || u in more[1..];
      MergeHas(if more[0] in have then have else have + [more[0]], more[1..]);
    }
  }

  /** A distinct list merged over another gives that list exactly if it is its beginning. */
  lemma MergePrefixIff(have: seq<string>, more: seq<string>)
    requires NoDup(have) && NoDup(more)
    ensures Merge(have, more) == more <==> have <= more
  {
    MergeHas(have, more);
    if have <= more { MergePrefix(have, more, |have|); }
  }

  lemma {:induction false} MergePrefix(have: seq<string>, more: seq<string>, k: nat)
    requires have <= more && NoDup(more) && k <= |have|
    ensures Merge(have, more[|have| - k..]) == more
    decreases k
  {
    var rest := more[|have| - k..];
    if k == 0 {
      assert have + rest == more;
      MergeAll(have, rest);
    } else {
      assert rest[0] == have[|have| - k] && rest[1..] == more[|have| - (k - 1)..];
      MergePrefix(have, more, k - 1);
    }
  }

  /** No list at or below `base` names a user twice. */
  ghost predicate DistinctBelow(shared: map<Path, seq<string>>, base: Path) {
    forall p :: p in shared && Under(p, base) ==> NoDup(shared[p])
  }

  lemma RebaseInPlace(p: Path, base: Path)
    ensures Rebase(p, base, base) == p
  {
    if Under(p, base) { assert base + p[|base|..] == p; }
  }

  /** Re-keying in place changes nothing. */
  lemma RenameInPlace<V>(m: map<Path, V>, base: Path)
    ensures RenamePrefix(m, base, base) == m
  {
    forall p ensures Rebase(p, base, base) == p { RebaseInPlace(p, base); }
    forall q | q in m && Under(q, base) ensures base + q[|base|..] == q { }
  }

  /** Detaching and reattaching in place brings the share table back if and only if no list there names a user twice. */
  lemma SharesBackIff(shared: map<Path, seq<string>>, base: Path)
    ensures Reattach(IndexWithout(shared, base), SharesUnder(shared, base), base, base) == shared <==> DistinctBelow(shared, base)
  {
    var snaps := SharesUnder(shared, base);
    RenameInPlace(snaps, base);
    var back := Reattach(IndexWithout(shared, base), snaps, base, base);
    forall p | p in snaps ensures p in back && back[p] == Merge([], shared[p]) && (Merge([], shared[p]) == shared[p] <==> NoDup(shared[p])) {
      MergeDistinct([], shared[p]);
      if NoDup(shared[p]) { MergePrefixIff([], shared[p]); }
    }
    if back == shared {
      forall p | p in shared && Under(p, base) ensures NoDup(shared[p]) { assert p in snaps; }
    }
  }

  /** Moving to the trash and back, on the whole state. */
  lemma MovesCancel(s: FS, i: Id, user: string, tr: Id, name: Name)
    requires WF(s)
    requires i in s.inodes && TrashOf(s, user, tr) && s.inodes[i].owner == user
    requires !IsRoot(s.inodes, i) && !IsTrash(s.inodes, i) && s.inodes[i].parent != tr
    requires NameFree(s.inodes, tr, name)
    ensures
      var s1, p := TrashMove(s, i, tr, name), s.inodes[i].parent;
      && p in s1.inodes && i in s1.inodes && i in s1.trash
      && Undone(s, RestoreMove(s1, i, p, s.inodes[i].name), i)
  {
    hide Linked, Indexed, OnDisk, Rooted, Aged, Founded, TrashOk, IsTrash, NameFree, DistinctBelow;
    TrashCanMove(s, i, user, tr);
    NotYetTrashed(s, i);
    FieldsCancel(s, i, tr, name);
  }

  /** `s'` is `s` again, with `i` listed last among its siblings; so are the shares if no list below `i` has a duplicate. */
  ghost predicate Undone(s: FS, s': FS, i: Id)
    requires i in s.inodes && s.inodes[i].parent in s.inodes
  {
    && s'.(shared := s.shared) == s.(inodes := Relisted(s.inodes, i))
    && (s'.shared == s.shared <==> DistinctBelow(s.shared, s.inodes[i].path))
  }

  lemma FieldsCancel(s: FS, i: Id, tr: Id, name: Name)
    requires Linked(s.inodes) && Indexed(s.inodes, s.index, s.next) && OnDisk(s)
    requires CanMove(s.inodes, i, tr) && NameFree(s.inodes, tr, name) && s.inodes[i].parent != tr && i !in s.trash
    ensures s.inodes[i].parent in s.inodes
    ensures Undone(s, RestoreMove(TrashMove(s, i, tr, name), i, s.inodes[i].parent, s.inodes[i].name), i)
  {
    hide Linked, Indexed, OnDisk, DistinctBelow, Reattach, RenamePrefix, Relisted, MovedNode, SharesUnder, IndexWithout, NameFree, Under, Undone;
    ParentPathShorter(s.inodes, i);
    RestoreFields(s, i, tr, name);
    MoveBack(s.inodes, s.index, s.next, i, tr, name);
    MapsBack(s, i, tr, name);
    SharesBackIff(s.shared, s.inodes[i].path);
    FieldsUndone(s, RestoreMove(TrashMove(s, i, tr, name), i, s.inodes[i].parent, s.inodes[i].name), i);
  }

  lemma FieldsUndone(s: FS, s': FS, i: Id)
    requires i in s.inodes && s.inodes[i].parent in s.inodes
    requires s'.inodes == Relisted(s.inodes, i) && s'.index == s.index && s'.disk == s.disk && s'.trash == s.trash
    requires s'.users == s.users && s'.next == s.next && s'.quotas == s.quotas
    requires s'.shared == s.shared <==> DistinctBelow(s.shared, s.inodes[i].path)
    ensures Undone(s, s', i)
  {
  }

  lemma NotYetTrashed(s: FS, i: Id)
    requires TrashOk(s) && i in s.inodes && !IsTrash(s.inodes, s.inodes[i].parent)
    ensures i !in s.trash
  {
    if i in s.trash {
      TrashEntryHolds(s, i);
      assert false;
    }
  }

  lemma TrashEntryHolds(s: FS, i: Id)
    requires TrashOk(s) && i in s.trash
    ensures TrashEntryOk(s.inodes, i, s.trash[i])
  {
  }

  lemma MapsBack(s: FS, i: Id, tr: Id, name: Name)
    requires Linked(s.inodes) && Indexed(s.inodes, s.index, s.next) && OnDisk(s) && CanMove(s.inodes, i, tr)
    requires NameFree(s.inodes, tr, name)
    ensures
      var src, dst := s.inodes[i].path, s.inodes[tr].path + [name];
      && RenamePrefix(RenamePrefix(s.index, src, dst), dst, src) == s.index
      && RenamePrefix(RenamePrefix(s.disk, src, dst), dst, src) == s.disk
  {
    var src, dst := s.inodes[i].path, s.inodes[tr].path + [name];
    FreeMeansVacant(s.inodes, s.index, s.next, tr, name);
    NotIntoItself(s.inodes, s.index, s.next, i, tr, name);
    RenameRoundTrip(s.index, src, dst);
    RenameRoundTrip(s.disk, src, dst);
  }

  /** The paths the restore computes are the ones the trash left from. */
  lemma RestoreFields(s: FS, i: Id, tr: Id, name: Name)
    requires i in s.inodes && tr in s.inodes && s.inodes[i].parent in s.inodes && i !in s.trash
    requires s.inodes[i].path == s.inodes[s.inodes[i].parent].path + [s.inodes[i].name]
    requires !Under(s.inodes[s.inodes[i].parent].path, s.inodes[i].path)
    ensures
      var s1, p, n := TrashMove(s, i, tr, name), s.inodes[i].parent, s.inodes[i];
      var s2 := RestoreMove(s1, i, p, n.name);
      && s2.trash == s.trash
      && s2.shared == Reattach(IndexWithout(s.shared, n.path), SharesUnder(s.shared, n.path), n.path, n.path)
      && s2.index == RenamePrefix(s1.index, s.inodes[tr].path + [name], n.path)
      && s2.disk == RenamePrefix(s1.disk, s.inodes[tr].path + [name], n.path)
      && s2.inodes == Moved(s1.inodes, i, p, n.name)
  {
    var n := s.inodes[i];
    assert Rebase(n.path, n.path, s.inodes[tr].path + [name]) == s.inodes[tr].path + [name];
    var s1 := TrashMove(s, i, tr, name);
    assert s1.trash - {i} == s.trash;
  }

  // ---------------------------------------------------------------- the operations

  lemma TrashFound(s: FS, user: string, tr: Id, io: Io)
    requires WF(s) && TrashOf(s, user, tr)
    ensures EnsureTrash(s, user, io) == (s, Some(tr))
  {
    TrashListed(s, user, tr);
    var root := s.users[user];
    assert NodeOk(s.inodes, root);
    var c := FindChild(s.inodes, s.inodes[root].children, TRASH_DIR).value;
    assert NodeOk(s.inodes, c);
    TrashUnique(s, c, tr);
  }

  /** The name left behind is free again. */
  lemma NameFreedByMove(s: FS, i: Id, tr: Id, name: Name)
    requires Linked(s.inodes) && Indexed(s.inodes, s.index, s.next) && CanMove(s.inodes, i, tr)
    requires s.inodes[i].parent != tr && s.inodes[i].parent in s.inodes
    ensures UniqueName(Moved(s.inodes, i, tr, name), s.inodes[i].parent, s.inodes[i].name, i) == s.inodes[i].name
  {
    var t, p := s.inodes, s.inodes[i].parent;
    var t' := Moved(t, i, tr, name);
    assert NodeOk(t, p) && NodeOk(t, i);
    WithoutMembers(t[p].children, i);
    forall c | c in t'[p].children && c in t' ensures t'[c].name != t[i].name {
      assert NodeOk(t, c);
      SiblingsDiffer(t, s.index, s.next, c, i);
    }
    assert FindChild(t', t'[p].children, t[i].name).None?;
  }

  lemma MovedTrashOf(s: FS, i: Id, user: string, tr: Id, name: Name)
    requires WF(s) && CanMove(s.inodes, i, tr) && TrashOf(s, user, tr)
    ensures TrashOf(TrashMove(s, i, tr, name), user, tr)
  {
    assert NodeOk(s.inodes, tr);
  }

  /** The file's size on disk travels with it. */
  lemma RefreshAfterMove(s: FS, i: Id, tr: Id, name: Name)
    requires Linked(s.inodes) && Indexed(s.inodes, s.index, s.next) && OnDisk(s) && CanMove(s.inodes, i, tr)
    requires NameFree(s.inodes, tr, name) && Refresh(s, i) == s
    ensures Refresh(TrashMove(s, i, tr, name), i) == TrashMove(s, i, tr, name)
  {
    var src, dst := s.inodes[i].path, s.inodes[tr].path + [name];
    FreeMeansVacant(s.inodes, s.index, s.next, tr, name);
    assert src in s.index;
    RenameKeeps(s.disk, src, dst, src);
    var s1 := TrashMove(s, i, tr, name);
    assert s.inodes[i := s.inodes[i]] == s.inodes;
    if !s.inodes[i].isDir {
      assert s.inodes[i].size == s.disk[src].bytes by {
        assert Refresh(s, i).inodes[i].size == s.inodes[i].size;
      }
    }
    assert s1.inodes[i := s1.inodes[i]] == s1.inodes;
  }

  lemma RefreshTwice(s: FS, i: Id)
    requires i in s.inodes
    ensures Refresh(Refresh(s, i), i) == Refresh(s, i)
  {
  }

  lemma RestoreSucceeds(s: FS, i: Id, user: string, tr: Id, io: Io)
    requires WF(s) && i in s.inodes && i in s.trash && Refresh(s, i) == s && io.act
    requires EnsureTrash(s, user, io) == (s, Some(tr)) && s.inodes[i].parent == tr
    requires s.trash[i].parent in s.inodes && s.inodes[s.trash[i].parent].isDir
    ensures
      var to := s.trash[i].parent;
      var name := UniqueName(s.inodes, to, s.trash[i].name, i);
      Restore(s, i, user, true, io) == (RestoreMove(s, i, to, name), Placed(name))
  {
  }

  /** Restoring right after `TrashMove` undoes it. */
  lemma RestoreUndoes(s: FS, i: Id, user: string, tr: Id, name: Name, io: Io)
    requires WF(s) && i in s.inodes && TrashOf(s, user, tr) && s.inodes[i].owner == user
    requires !IsRoot(s.inodes, i) && !IsTrash(s.inodes, i) && s.inodes[i].parent != tr
    requires NameFree(s.inodes, tr, name) && Refresh(s, i) == s && io.act
    ensures WF(TrashMove(s, i, tr, name)) && s.inodes[i].parent in s.inodes
    ensures var (s', r) := Restore(TrashMove(s, i, tr, name), i, user, true, io);
      r == Placed(s.inodes[i].name) && Undone(s, s', i)
  {
    var s1, p := TrashMove(s, i, tr, name), s.inodes[i].parent;
    assert NodeOk(s.inodes, i);
    TrashMoveWF(s, i, user, tr, name);
    TrashCanMove(s, i, user, tr);
    RefreshAfterMove(s, i, tr, name);
    MovedTrashOf(s, i, user, tr, name);
    TrashFound(s1, user, tr, io);
    RestoreSucceeds(s1, i, user, tr, io);
    NameFreedByMove(s, i, tr, name);
    MovesCancel(s, i, user, tr, name);
  }

  /** Trash followed at once by restore is the identity on inodes, paths, index, disk and trash
      metadata, except that the inode is listed last among its siblings (and that the trash
      directory, if it was missing, now exists); it is the identity on the shares if and only if
      no list at or below the path names a user twice. */
  lemma TrashRestoreIdentity(s: FS, i: Id, user: string, recursive: bool, io: Io, io': Io)
    requires WF(s)
    requires Trash(s, i, user, recursive, io).1.Placed? && io'.act
    requires i in s.inodes && TrashNameFree(s, i, user)
    ensures WF(Trash(s, i, user, recursive, io).0) && WF(Refresh(s, i))
    ensures
      var sT := EnsureTrash(Refresh(s, i), user, io).0;
      var (s', r) := Restore(Trash(s, i, user, recursive, io).0, i, user, true, io');
      sT.inodes[i].parent in sT.inodes && r == Placed(s.inodes[i].name) && Undone(sT, s', i)
  {
    TrashSucceeded(s, i, user, recursive, io);
    RefreshTwice(s, i);
    TrashNameAfterRefresh(s, i, user);
    TrashRestoreFromFresh(Refresh(s, i), i, user, io, io');
  }

  /** What a successful trash has passed and what it did. */
  lemma TrashSucceeded(s: FS, i: Id, user: string, recursive: bool, io: Io)
    requires WF(s) && i in s.inodes && Trash(s, i, user, recursive, io).1.Placed?
    ensures
      var s0 := Refresh(s, i);
      && WF(s0) && !IsRoot(s0.inodes, i) && !IsTrash(s0.inodes, i) && s0.inodes[i].owner == user
      && s0.inodes[i].name == s.inodes[i].name && s0.inodes[i].parent == s.inodes[i].parent && s0.shared == s.shared
      && var (sT, tr) := EnsureTrash(s0, user, io);
      && tr.Some? && sT.inodes[i].parent != tr.value
      && Trash(s, i, user, recursive, io).0 == TrashMove(sT, i, tr.value, UniqueName(sT.inodes, tr.value, sT.inodes[i].name, i))
  {
    RefreshWF(s, i);
    RefreshShape(s, i);
    GuardPasses(Refresh(s, i), i, user, recursive);
  }

  lemma TrashRestoreFromFresh(s0: FS, i: Id, user: string, io: Io, io': Io)
    requires WF(s0) && i in s0.inodes && s0.inodes[i].owner == user
    requires !IsRoot(s0.inodes, i) && !IsTrash(s0.inodes, i) && Refresh(s0, i) == s0
    requires EnsureTrash(s0, user, io).1.Some? && TrashNameFree(s0, i, user) && io'.act
    requires var (sT, tr) := EnsureTrash(s0, user, io); sT.inodes[i].parent != tr.value
    ensures
      var (sT, tr) := EnsureTrash(s0, user, io);
      var s1 := TrashMove(sT, i, tr.value, UniqueName(sT.inodes, tr.value, sT.inodes[i].name, i));
      && WF(s1) && sT.inodes[i].parent in sT.inodes
      && sT.inodes[i].name == s0.inodes[i].name && sT.inodes[i].parent == s0.inodes[i].parent
      && var (s', r) := Restore(s1, i, user, true, io');
      r == Placed(s0.inodes[i].name) && Undone(sT, s', i)
  {
    var (sT, tr) := EnsureTrash(s0, user, io);
    EnsureTrashWF(s0, user, io);
    TrashNameNow(s0, i, user, io);
    assert NodeOk(s0.inodes, i);
    ExtendsKind(s0, sT, i);
    RefreshInExtension(s0, user, io, i);
    RestoreUndoes(sT, i, user, tr.value, UniqueName(sT.inodes, tr.value, sT.inodes[i].name, i), io');
  }

  lemma RefreshInExtension(s: FS, user: string, io: Io, i: Id)
    requires WF(s) && i in s.inodes && Refresh(s, i) == s
    ensures Refresh(EnsureTrash(s, user, io).0, i) == EnsureTrash(s, user, io).0
  {
    hide Aged, Founded, TrashOk, Refresh, OnDisk;
    var sT := EnsureTrash(s, user, io).0;
    EnsureTrashWF(s, user, io);
    assert NodeOk(s.inodes, i);
    assert s.inodes[i].path in s.index;
    RefreshStable(s, sT, i);
  }

  /** A lookup that changes nothing here changes nothing where the inode and its disk entry are the same. */
  lemma RefreshStable(s: FS, s': FS, i: Id)
    requires i in s.inodes && i in s'.inodes && Refresh(s, i) == s && s'.inodes[i].isDir == s.inodes[i].isDir
    requires !s.inodes[i].isDir ==>
      var p := s.inodes[i].path;
      s'.inodes[i] == s.inodes[i] && (p in s.disk <==> p in s'.disk) && (p in s.disk ==> s'.disk[p] == s.disk[p])
    ensures Refresh(s', i) == s'
  {
    if !s.inodes[i].isDir { assert Refresh(s, i).inodes[i].size == s.inodes[i].size; }
    assert s'.inodes[i := s'.inodes[i]] == s'.inodes;
  }
}
