/**
Restoring from any later state: a subtree that still lies in the trash as the trash
operation left it comes back as it was found, whatever has changed elsewhere.
*/
module Shelf {
  import opened Options
  import opened Paths
  import opened InodeTree
  import opened FileOps
  import opened FileSafety
  import opened RoundTrip

  // ---------------------------------------------------------------- subtrees

  /** `j` is `i` or lies below it. */
  ghost predicate Inside(t: Tree, j: Id, i: Id) {
    i in t && j in t && Under(t[j].path, t[i].path)
  }

  /** `n` as it looks once the subtree at `base` hangs under `to` as `name`, at `dst`. */
  function Replaced(n: Inode, top: bool, base: Path, to: Id, name: Name, dst: Path): Inode {
    n.(name := if top then name else n.name,
       parent := if top then to else n.parent,
       path := Rebase(n.path, base, dst))
  }

  /** The subtree that hung at `i` in `s0` now hangs under `to` as `name`, at `dst`: the same inodes
      with the same contents on disk, and nothing else. */
  ghost predicate Hung(s0: FS, s: FS, i: Id, to: Id, name: Name, dst: Path) {
    && i in s0.inodes && i in s.inodes && s.inodes[i].path == dst
    && (forall j :: Inside(s.inodes, j, i) <==> Inside(s0.inodes, j, i))
    && (forall j :: Inside(s0.inodes, j, i) ==> HungNode(s0, s, i, to, name, dst, j))
  }

  ghost predicate HungNode(s0: FS, s: FS, i: Id, to: Id, name: Name, dst: Path, j: Id)
    requires i in s0.inodes
  {
    && j in s0.inodes && j in s.inodes
    && s.inodes[j] == Replaced(s0.inodes[j], j == i, s0.inodes[i].path, to, name, dst)
    && SameEntry(s0.disk, s0.inodes[j].path, s.disk, s.inodes[j].path)
  }

  ghost predicate SameEntry(disk0: map<Path, Entry>, p0: Path, disk: map<Path, Entry>, p: Path) {
    p0 in disk0 && p in disk && disk[p] == disk0[p0]
  }

  /** `i` lies in the trash as the trash operation left it when it found the state `s0`. */
  ghost predicate Shelved(s0: FS, s: FS, i: Id) {
    && i in s0.inodes && i in s.inodes && i in s.trash
    && var n := s0.inodes[i];
    && s.trash[i] == TrashEntry(n.parent, n.name, n.path, SharesUnder(s0.shared, n.path))
    && Hung(s0, s, i, s.inodes[i].parent, s.inodes[i].name, s.inodes[i].path)
  }

  /** The subtree at `i`, its entries on disk and its restore metadata are as before. */
  ghost predicate Still(s: FS, s': FS, i: Id) {
    && i in s.inodes && i in s'.inodes
    && (i in s.trash ==> i in s'.trash && s'.trash[i] == s.trash[i])
    && (forall j :: Inside(s'.inodes, j, i) <==> Inside(s.inodes, j, i))
    && (forall j :: Inside(s.inodes, j, i) ==> StillNode(s, s', j))
  }

  ghost predicate StillNode(s: FS, s': FS, j: Id) {
    && j in s.inodes && j in s'.inodes && s'.inodes[j] == s.inodes[j]
    && SameEntry(s.disk, s.inodes[j].path, s'.disk, s.inodes[j].path)
  }

  lemma InsideItself(t: Tree, i: Id)
    requires i in t
    ensures Inside(t, i, i)
  {
  }

  lemma StillTrans(s: FS, s1: FS, s2: FS, i: Id)
    requires Still(s, s1, i) && Still(s1, s2, i)
    ensures Still(s, s2, i)
  {
    forall j | Inside(s.inodes, j, i) ensures StillNode(s, s2, j) {
      assert StillNode(s, s1, j) && Inside(s1.inodes, j, i) && StillNode(s1, s2, j);
    }
  }

  lemma ShelvedStays(s0: FS, s: FS, s': FS, i: Id)
    requires Shelved(s0, s, i) && Still(s, s', i)
    ensures Shelved(s0, s', i)
  {
    InsideItself(s.inodes, i);
    assert StillNode(s, s', i);
    forall j | Inside(s0.inodes, j, i)
      ensures HungNode(s0, s', i, s.inodes[i].parent, s.inodes[i].name, s.inodes[i].path, j)
    {
      assert Inside(s.inodes, j, i) && StillNode(s, s', j);
      assert HungNode(s0, s, i, s.inodes[i].parent, s.inodes[i].name, s.inodes[i].path, j);
    }
  }

  // ---------------------------------------------------------------- a moved subtree

  lemma RebaseTwice(p: Path, a: Path, b: Path, c: Path)
    requires Under(p, a)
    ensures Rebase(Rebase(p, a, b), b, c) == Rebase(p, a, c)
  {
    assert (b + p[|a|..])[|b|..] == p[|a|..];
  }

  /** Who is inside is the same after the move: nothing else gets below the new place. */
  lemma MovedInside(s: FS, i: Id, to: Id, name: Name, j: Id)
    requires WF(s) && CanMove(s.inodes, i, to) && NameFree(s.inodes, to, name) && j in s.inodes
    ensures Inside(Moved(s.inodes, i, to, name), j, i) <==> Inside(s.inodes, j, i)
  {
    var t, dst := s.inodes, s.inodes[to].path + [name];
    FreeMeansVacant(t, s.index, s.next, to, name);
    assert t[j].path in s.index;
    assert Rebase(t[i].path, t[i].path, dst) == dst;
    if Inside(t, j, i) { RebaseInverse(t[j].path, t[i].path, dst); }
  }

  lemma MovedHungNode(s: FS, i: Id, to: Id, name: Name, j: Id, s': FS)
    requires WF(s) && CanMove(s.inodes, i, to) && NameFree(s.inodes, to, name)
    requires s'.inodes == Moved(s.inodes, i, to, name) && s'.disk == RenamePrefix(s.disk, s.inodes[i].path, s.inodes[to].path + [name])
    requires Inside(s.inodes, j, i)
    ensures HungNode(s, s', i, to, name, s.inodes[to].path + [name], j)
  {
    hide Linked, Rooted, Aged, Founded, TrashOk, RenamePrefix, NameFree;
    var t, dst := s.inodes, s.inodes[to].path + [name];
    FreeMeansVacant(t, s.index, s.next, to, name);
    ParentPathShorter(t, i);
    assert t[j].path in s.index;
    RenameKeeps(s.disk, t[i].path, dst, t[j].path);
  }

  /** A move hangs the subtree elsewhere. */
  lemma MovedHung(s: FS, i: Id, to: Id, name: Name, s': FS)
    requires WF(s) && CanMove(s.inodes, i, to) && NameFree(s.inodes, to, name)
    requires s'.inodes == Moved(s.inodes, i, to, name) && s'.disk == RenamePrefix(s.disk, s.inodes[i].path, s.inodes[to].path + [name])
    ensures Hung(s, s', i, to, name, s.inodes[to].path + [name])
  {
    hide WF, NameFree, HungNode, RenamePrefix, Inside;
    assert Rebase(s.inodes[i].path, s.inodes[i].path, s.inodes[to].path + [name]) == s.inodes[to].path + [name];
    forall j ensures Inside(s'.inodes, j, i) <==> Inside(s.inodes, j, i) {
      if j in s.inodes { MovedInside(s, i, to, name, j); } else { NotInside(s.inodes, j, i); NotInside(s'.inodes, j, i); }
    }
    forall j | Inside(s.inodes, j, i) ensures HungNode(s, s', i, to, name, s.inodes[to].path + [name], j) {
      MovedHungNode(s, i, to, name, j, s');
    }
  }

  lemma NotInside(t: Tree, j: Id, i: Id)
    requires j !in t
    ensures !Inside(t, j, i)
  {
  }

  lemma HungTwiceNode(s0: FS, s: FS, s': FS, i: Id, a: Id, x: Name, p: Path, b: Id, y: Name, q: Path, j: Id)
    requires i in s0.inodes && i in s.inodes && s.inodes[i].path == p && Inside(s0.inodes, j, i)
    requires HungNode(s0, s, i, a, x, p, j) && HungNode(s, s', i, b, y, q, j)
    ensures HungNode(s0, s', i, b, y, q, j)
  {
    RebaseTwice(s0.inodes[j].path, s0.inodes[i].path, p, q);
  }

  /** Hung elsewhere twice is hung where the second move put it. */
  lemma HungTwice(s0: FS, s: FS, s': FS, i: Id, a: Id, x: Name, p: Path, b: Id, y: Name, q: Path)
    requires Hung(s0, s, i, a, x, p) && Hung(s, s', i, b, y, q)
    ensures Hung(s0, s', i, b, y, q)
  {
    hide HungNode, Inside;
    forall j | Inside(s0.inodes, j, i) ensures HungNode(s0, s', i, b, y, q, j) {
      assert Inside(s.inodes, j, i) && HungNode(s0, s, i, a, x, p, j) && HungNode(s, s', i, b, y, q, j);
      HungTwiceNode(s0, s, s', i, a, x, p, b, y, q, j);
    }
  }

  // ---------------------------------------------------------------- explicit shares

  ghost predicate AllDistinct(shared: map<Path, seq<string>>) {
    forall p :: p in shared ==> NoDup(shared[p])
  }

  /** No share list, kept or snapshotted, names a user twice. */
  ghost predicate ListsDistinct(s: FS) {
    AllDistinct(s.shared) && forall i :: i in s.trash ==> AllDistinct(s.trash[i].snapshots)
  }

  /** What the share table says at each path after snapshots come back. */
  lemma ReattachAt(shared: map<Path, seq<string>>, snaps: map<Path, seq<string>>, src: Path, dst: Path, q: Path)
    requires forall p :: p in snaps ==> Under(p, src)
    ensures
      var s' := Reattach(shared, snaps, src, dst);
      if Under(q, dst) then
        && ListAt(s', q) == Merge(ListAt(shared, q), ListAt(snaps, src + q[|dst|..]))
        && (q in s' <==> q in shared || src + q[|dst|..] in snaps)
      else ListAt(s', q) == ListAt(shared, q) && (q in s' <==> q in shared)
  {
    var back := RenamePrefix(snaps, src, dst);
    if q in back {
      var p :| p in snaps && Rebase(p, src, dst) == q;
      RebaseInverse(p, src, dst);
    }
    if Under(q, dst) && src + q[|dst|..] in snaps {
      assert Rebase(src + q[|dst|..], src, dst) == q;
    }
  }

  /** Every list at or below `base` is the beginning of the one recorded there. */
  ghost predicate BeginsBelow(shared: map<Path, seq<string>>, recorded: map<Path, seq<string>>, base: Path) {
    forall p :: p in shared && Under(p, base) ==> p in recorded && shared[p] <= recorded[p]
  }

  /** Merged over what is found there, the recorded shares are there again if and only if the lists found begin them. */
  lemma SharesReturnIff(shared: map<Path, seq<string>>, shared0: map<Path, seq<string>>, shared': map<Path, seq<string>>, base: Path)
    requires AllDistinct(shared) && DistinctBelow(shared0, base)
    requires forall q :: Under(q, base) ==>
      && (q in shared' <==> q in shared || q in shared0)
      && ListAt(shared', q) == Merge(ListAt(shared, q), ListAt(shared0, q))
    ensures SharesUnder(shared', base) == SharesUnder(shared0, base) <==> BeginsBelow(shared, shared0, base)
  {
    forall q | q in shared0 && Under(q, base)
      ensures q in shared ==> (Merge(shared[q], shared0[q]) == shared0[q] <==> shared[q] <= shared0[q])
      ensures Merge([], shared0[q]) == shared0[q]
    {
      if q in shared { MergePrefixIff(shared[q], shared0[q]); }
      MergePrefixIff([], shared0[q]);
    }
    SameBelowIff(shared, shared0, shared', base);
  }

  lemma SameBelowIff(shared: map<Path, seq<string>>, shared0: map<Path, seq<string>>, shared': map<Path, seq<string>>, base: Path)
    requires forall q :: Under(q, base) ==>
      && (q in shared' <==> q in shared || q in shared0)
      && ListAt(shared', q) == Merge(ListAt(shared, q), ListAt(shared0, q))
    requires forall q :: q in shared && q in shared0 && Under(q, base) ==> (Merge(shared[q], shared0[q]) == shared0[q] <==> shared[q] <= shared0[q])
    requires forall q :: q in shared0 && Under(q, base) ==> Merge([], shared0[q]) == shared0[q]
    ensures SharesUnder(shared', base) == SharesUnder(shared0, base) <==> BeginsBelow(shared, shared0, base)
  {
    var now, was := SharesUnder(shared', base), SharesUnder(shared0, base);
    if now == was {
      forall p | p in shared && Under(p, base) ensures p in shared0 && shared[p] <= shared0[p] {
        assert p in now && now[p] == ListAt(shared', p);
      }
    }
    if BeginsBelow(shared, shared0, base) {
      forall p | p in now ensures p in was && now[p] == was[p] { assert now[p] == ListAt(shared', p); }
      forall p | p in was ensures p in now { }
    }
  }

  // ---------------------------------------------------------------- restoring what is shelved

  /** What a restore has done: the subtree found by the trash hangs at the target, everyone else is as
      before but for two child lists, and the shares recorded by the trash are merged in under the new path. */
  ghost predicate BroughtBack(s0: FS, s: FS, s': FS, i: Id, to: Id, name: Name)
    requires i in s0.inodes && to in s.inodes && i in s.inodes
  {
    var dst := s.inodes[to].path + [name];
    && Hung(s0, s', i, to, name, dst)
    && s'.inodes.Keys == s.inodes.Keys && s'.trash == s.trash - {i}
    && (forall j :: j in s.inodes && !Inside(s.inodes, j, i) ==> Elsewhere(s.inodes, s'.inodes, i, to, j))
    && (forall q :: SharedAt(s0, s, s', i, dst, q))
  }

  ghost predicate Elsewhere(t: Tree, t': Tree, i: Id, to: Id, j: Id) {
    && i in t && j in t && j in t'
    && t'[j] == t[j].(children := t'[j].children)
    && t'[j].children == (if j == to then t[j].children + [i] else if j == t[i].parent then Without(t[j].children, i) else t[j].children)
  }

  ghost predicate SharedAt(s0: FS, s: FS, s': FS, i: Id, dst: Path, q: Path)
    requires i in s0.inodes
  {
    if Under(q, dst) then
      var q0 := s0.inodes[i].path + q[|dst|..];
      && ListAt(s'.shared, q) == Merge(ListAt(s.shared, q), ListAt(s0.shared, q0))
      && (q in s'.shared <==> q in s.shared || q0 in s0.shared)
    else ListAt(s'.shared, q) == ListAt(s.shared, q) && (q in s'.shared <==> q in s.shared)
  }

  /** Restore metadata says in whose trash the inode lies. */
  lemma TrashHolds(s: FS, i: Id)
    requires WF(s) && i in s.trash
    ensures i in s.inodes && TrashOf(s, s.inodes[i].owner, s.inodes[i].parent)
  {
    hide Aged, Founded, Indexed, OnDisk;
    var t := s.inodes;
    TrashEntryHolds(s, i);
    var tr := t[i].parent;
    assert NodeOk(t, i) && NodeOk(t, tr) && NodeOk(t, t[tr].parent);
  }

  lemma ShelvedRefreshed(s0: FS, s: FS, i: Id)
    requires Shelved(s0, s, i) && Refresh(s0, i) == s0
    ensures Refresh(s, i) == s
  {
    InsideItself(s0.inodes, i);
    var n0, n := s0.inodes[i], s.inodes[i];
    assert HungNode(s0, s, i, n.parent, n.name, n.path, i);
    if !n.isDir && s.disk[n.path].File? { assert Refresh(s0, i).inodes[i].size == n0.size; }
    assert s.inodes[i := n] == s.inodes;
  }

  lemma RestoreSharesAt(s0: FS, s: FS, i: Id, to: Id, name: Name, q: Path)
    requires Shelved(s0, s, i) && to in s.inodes
    ensures SharedAt(s0, s, RestoreMove(s, i, to, name), i, s.inodes[to].path + [name], q)
  {
    hide Reattach, Merge, Hung;
    var base, dst := s0.inodes[i].path, s.inodes[to].path + [name];
    ReattachAt(s.shared, SharesUnder(s0.shared, base), base, dst, q);
    if Under(q, dst) { assert Under(base + q[|dst|..], base); }
  }

  lemma RestoreElsewhere(s: FS, i: Id, to: Id, name: Name, j: Id)
    requires Linked(s.inodes) && i in s.inodes && to in s.inodes && s.inodes[i].parent != to
    requires j in s.inodes && !Inside(s.inodes, j, i)
    ensures Elsewhere(s.inodes, Moved(s.inodes, i, to, name), i, to, j)
  {
  }

  lemma ShelvedComesBack(s0: FS, s: FS, i: Id, name: Name)
    requires WF(s) && Shelved(s0, s, i)
    requires var user := s.inodes[i].owner;
      user in s.users && RestoreTarget(s, i, user) in s.inodes && NameFree(s.inodes, RestoreTarget(s, i, user), name)
    ensures
      var to := RestoreTarget(s, i, s.inodes[i].owner);
      BroughtBack(s0, s, RestoreMove(s, i, to, name), i, to, name)
  {
    hide WF, NameFree, Hung, SharedAt, Elsewhere, Reattach, RenamePrefix, TrashOf;
    TrashHolds(s, i);
    RestoreCanMove(s, i, s.inodes[i].owner, s.inodes[i].parent);
    var to := RestoreTarget(s, i, s.inodes[i].owner);
    var s', dst := RestoreMove(s, i, to, name), s.inodes[to].path + [name];
    MovedHung(s, i, to, name, s');
    HungTwice(s0, s, s', i, s.inodes[i].parent, s.inodes[i].name, s.inodes[i].path, to, name, dst);
    forall q ensures SharedAt(s0, s, s', i, dst, q) { RestoreSharesAt(s0, s, i, to, name, q); }
    LinkedOf(s);
    forall j | j in s.inodes && !Inside(s.inodes, j, i) ensures Elsewhere(s.inodes, s'.inodes, i, to, j) {
      RestoreElsewhere(s, i, to, name, j);
    }
  }

  lemma LinkedOf(s: FS)
    requires WF(s)
    ensures Linked(s.inodes)
  {
  }

  /** What a restore of a shelved inode does. */
  lemma RestoreMoves(s0: FS, s: FS, i: Id, user: string, io: Io)
    requires WF(s) && Shelved(s0, s, i) && Refresh(s0, i) == s0 && s.inodes[i].owner == user && io.act
    ensures user in s.users && s.users[user] in s.inodes
    ensures
      var to := RestoreTarget(s, i, user);
      && to in s.inodes && TrashOf(s, user, s.inodes[i].parent)
      && var name := UniqueName(s.inodes, to, s0.inodes[i].name, i);
      Restore(s, i, user, true, io) == (RestoreMove(s, i, to, name), Placed(name))
  {
    hide WF, Shelved, UniqueName, Refresh, EnsureTrash, RestoreMove;
    ShelvedEntry(s0, s, i);
    TrashHolds(s, i);
    ShelvedRefreshed(s0, s, i);
    TrashFound(s, user, s.inodes[i].parent, io);
    RestoreCanMove(s, i, user, s.inodes[i].parent);
  }

  /** Whatever else has changed, restoring a shelved inode brings its subtree back: under the parent the
      trash remembers (or the user's root once that is gone), at that directory's path of today. */
  lemma RestoreBringsBack(s0: FS, s: FS, i: Id, user: string, io: Io)
    requires WF(s) && Shelved(s0, s, i) && Refresh(s0, i) == s0 && s.inodes[i].owner == user && io.act
    requires user in s.users && s.users[user] in s.inodes && RestoreNameFree(s, i, user)
    ensures
      var to := RestoreTarget(s, i, user);
      var name := UniqueName(s.inodes, to, s0.inodes[i].name, i);
      var (s', r) := Restore(s, i, user, true, io);
      WF(s') && to in s.inodes && r == Placed(name) && BroughtBack(s0, s, s', i, to, name)
  {
    hide WF, Shelved, NameFree, BroughtBack, UniqueName, Refresh, Restore, TrashOf;
    ShelvedEntry(s0, s, i);
    RestoreMoves(s0, s, i, user, io);
    var name := UniqueName(s.inodes, RestoreTarget(s, i, user), s0.inodes[i].name, i);
    RestoreMoveWF(s, i, user, s.inodes[i].parent, name);
    ShelvedComesBack(s0, s, i, name);
  }

  lemma ShelvedEntry(s0: FS, s: FS, i: Id)
    requires Shelved(s0, s, i)
    ensures i in s0.inodes && i in s.inodes && i in s.trash && s.trash[i].name == s0.inodes[i].name
    ensures s.trash[i].parent == s0.inodes[i].parent && s.trash[i].relPath == s0.inodes[i].path
    ensures s.trash[i].snapshots == SharesUnder(s0.shared, s0.inodes[i].path)
  {
  }

  /** Every inode of the subtree is the one the trash found, with its index and disk entries, and nothing
      else lies below its path. */
  ghost predicate Returned(s0: FS, s': FS, i: Id) {
    && i in s0.inodes && i in s'.inodes
    && (forall j :: Inside(s'.inodes, j, i) <==> Inside(s0.inodes, j, i))
    && (forall j :: Inside(s0.inodes, j, i) ==> ReturnedNode(s0, s', j))
  }

  ghost predicate ReturnedNode(s0: FS, s': FS, j: Id) {
    && StillNode(s0, s', j)
    && var p := s0.inodes[j].path;
    p in s'.index && s'.index[p] == j
  }

  /** The old parent is alive at its old path and has nothing of the old name. */
  ghost predicate PlaceFree(s0: FS, s: FS, i: Id)
    requires i in s0.inodes
  {
    var n := s0.inodes[i];
    n.parent in s.inodes && s.inodes[n.parent].path + [n.name] == n.path && NameFree(s.inodes, n.parent, n.name)
  }

  lemma HungInPlace(s0: FS, s': FS, i: Id)
    requires WF(s') && i in s0.inodes && Hung(s0, s', i, s0.inodes[i].parent, s0.inodes[i].name, s0.inodes[i].path)
    ensures Returned(s0, s', i)
  {
    hide Linked, Rooted, Aged, Founded, TrashOk, OnDisk;
    var n := s0.inodes[i];
    forall j | Inside(s0.inodes, j, i) ensures ReturnedNode(s0, s', j) {
      assert HungNode(s0, s', i, n.parent, n.name, n.path, j);
      RebaseInPlace(s0.inodes[j].path, n.path);
      assert s'.inodes[j].path in s'.index;
    }
  }

  lemma SuffixedDiffers(name: Name, i: Id)
    ensures name + "__" + Digits(i) != name
  {
    assert |name + "__" + Digits(i)| >= |name| + 2;
  }

  lemma PickedNameIff(t: Tree, d: Id, desired: Name, i: Id)
    requires d in t
    ensures UniqueName(t, d, desired, i) == desired <==> NameFree(t, d, desired)
  {
    SuffixedDiffers(desired, i);
  }

  lemma TargetIsParentIff(s: FS, i: Id, user: string)
    requires i in s.trash && user in s.users && s.users[user] in s.inodes
    ensures RestoreTarget(s, i, user) == s.trash[i].parent <==> s.trash[i].parent in s.inodes
  {
  }

  /** Back in its place only by way of the old name under the old parent. */
  lemma PlaceNeeded(s0: FS, s: FS, i: Id, user: string)
    requires i in s0.inodes && i in s.inodes && i in s.trash && s.trash[i].parent == s0.inodes[i].parent
    requires user in s.users && s.users[user] in s.inodes && RestoreTarget(s, i, user) in s.inodes
    ensures
      var to := RestoreTarget(s, i, user);
      Returned(s0, RestoreMove(s, i, to, UniqueName(s.inodes, to, s0.inodes[i].name, i)), i) ==> PlaceFree(s0, s, i)
  {
    hide UniqueName, NameFree, Reattach, RenamePrefix;
    var to := RestoreTarget(s, i, user);
    var name := UniqueName(s.inodes, to, s0.inodes[i].name, i);
    var s' := RestoreMove(s, i, to, name);
    TargetIsParentIff(s, i, user);
    PickedNameIff(s.inodes, to, s0.inodes[i].name, i);
    InsideItself(s0.inodes, i);
    assert Rebase(s.inodes[i].path, s.inodes[i].path, s.inodes[to].path + [name]) == s.inodes[to].path + [name];
    if Returned(s0, s', i) { assert ReturnedNode(s0, s', i); }
  }

  /** A free place is the one picked. */
  lemma PlacePicked(s0: FS, s: FS, i: Id, user: string)
    requires i in s0.inodes && i in s.inodes && i in s.trash
    requires s.trash[i].parent == s0.inodes[i].parent && s.trash[i].name == s0.inodes[i].name
    requires user in s.users && s.users[user] in s.inodes && PlaceFree(s0, s, i)
    ensures
      var to := RestoreTarget(s, i, user);
      && RestoreNameFree(s, i, user) && to == s0.inodes[i].parent
      && UniqueName(s.inodes, to, s0.inodes[i].name, i) == s0.inodes[i].name
  {
    hide UniqueName, NameFree;
    PickedNameIff(s.inodes, s0.inodes[i].parent, s0.inodes[i].name, i);
  }

  lemma HungTop(s0: FS, s': FS, i: Id, to: Id, name: Name, dst: Path)
    requires i in s0.inodes && HungNode(s0, s', i, to, name, dst, i)
    ensures i in s'.inodes && s'.inodes[i].parent == to && s'.inodes[i].name == name && s'.inodes[i].path == dst
  {
    assert Rebase(s0.inodes[i].path, s0.inodes[i].path, dst) == dst;
  }

  /** Restoring a shelved inode gives every inode of the subtree back its name, path, parent, index and disk
      entry if and only if the old parent is alive at its old path and the old name is free there; the
      explicit shares at and below the path are then the recorded ones if and only if the lists found there begin them. */
  lemma RestoreReturnsIff(s0: FS, s: FS, i: Id, user: string, io: Io)
    requires WF(s) && ListsDistinct(s) && Shelved(s0, s, i) && Refresh(s0, i) == s0 && s.inodes[i].owner == user && io.act
    ensures
      var (s', r) := Restore(s, i, user, true, io);
      && (Returned(s0, s', i) <==> PlaceFree(s0, s, i))
      && var base := s0.inodes[i].path;
      PlaceFree(s0, s, i) ==>
        && WF(s') && r == Placed(s0.inodes[i].name) && i !in s'.trash
        && (SharesUnder(s'.shared, base) == SharesUnder(s0.shared, base) <==> BeginsBelow(s.shared, s0.shared, base))
  {
    hide WF, Shelved, ListsDistinct, BroughtBack, UniqueName, NameFree, Returned, RestoreMove, Refresh, Restore, TrashOf, RestoreNameFree, BeginsBelow, SharesUnder;
    ShelvedEntry(s0, s, i);
    RestoreMoves(s0, s, i, user, io);
    PlaceNeeded(s0, s, i, user);
    if PlaceFree(s0, s, i) {
      PlacePicked(s0, s, i, user);
      RestoreBringsBack(s0, s, i, user, io);
      var s', n := Restore(s, i, user, true, io).0, s0.inodes[i];
      BackIsHung(s0, s, s', i, n.parent, n.name);
      HungInPlace(s0, s', i);
      SharesInPlace(s0, s, s', i, n.parent, n.name);
    }
  }

  lemma BackIsHung(s0: FS, s: FS, s': FS, i: Id, to: Id, name: Name)
    requires i in s0.inodes && to in s.inodes && i in s.inodes && BroughtBack(s0, s, s', i, to, name)
    ensures Hung(s0, s', i, to, name, s.inodes[to].path + [name])
  {
  }

  lemma SharesInPlace(s0: FS, s: FS, s': FS, i: Id, to: Id, name: Name)
    requires ListsDistinct(s) && i in s0.inodes && i in s.inodes && i in s.trash && to in s.inodes
    requires s.trash[i].snapshots == SharesUnder(s0.shared, s0.inodes[i].path)
    requires BroughtBack(s0, s, s', i, to, name) && s.inodes[to].path + [name] == s0.inodes[i].path
    ensures i !in s'.trash
    ensures SharesUnder(s'.shared, s0.inodes[i].path) == SharesUnder(s0.shared, s0.inodes[i].path) <==> BeginsBelow(s.shared, s0.shared, s0.inodes[i].path)
  {
    hide Hung, Elsewhere, Merge;
    var base := s0.inodes[i].path;
    forall q | Under(q, base)
      ensures q in s'.shared <==> q in s.shared || q in s0.shared
      ensures ListAt(s'.shared, q) == Merge(ListAt(s.shared, q), ListAt(s0.shared, q))
    {
      assert base + q[|base|..] == q;
      assert SharedAt(s0, s, s', i, base, q);
    }
    forall p | p in s0.shared && Under(p, base) ensures NoDup(s0.shared[p]) {
      assert s.trash[i].snapshots[p] == s0.shared[p];
    }
    SharesReturnIff(s.shared, s0.shared, s'.shared, base);
  }
}
