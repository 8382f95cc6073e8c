/**
The fileserver object: its maps change in place, step by step, through loops and
recursive walks. Every method is proved to take the state to the one the
corresponding function of `FileOps` gives.
*/
module FileServerImpl {
  import opened Options
  import opened Paths
  import opened InodeTree
  import opened FileOps
  import opened FileSafety
  import opened FileSizes
  import opened Walks
  import opened FileRuns
  import opened InodeStoreImpl

  class FileServer {
    var inodes: Tree
    var users: map<string, Id>
    var trashMeta: map<Id, TrashEntry>
    var shared: map<Path, seq<string>>
    var disk: map<Path, Entry>
    var quotas: map<string, nat>
    const inodeStore: InodeStore

    constructor ()
      ensures Valid() && fresh(inodeStore)
      ensures State() == FS(map[], map[], map[], 0, map[], map[], map[], map[])
    {
      inodes, users, trashMeta, shared, disk, quotas := map[], map[], map[], map[], map[], map[];
      inodeStore := new InodeStore();
    }

    ghost function State(): FS
      reads this, inodeStore
    {
      FS(inodes, users, inodeStore.pathToID, inodeStore.nextInodeID, trashMeta, shared, disk, quotas)
    }

    ghost predicate Valid()
      reads this, inodeStore
    {
      WF(State())
    }

    // -------------------------------------------------------------- reading

    /** First child with the name, scanning the child list. */
    method GetChildInodeByName(d: Id, name: Name) returns (r: Option<Id>)
      requires d in inodes
      ensures r == FindChild(inodes, inodes[d].children, name)
    {
      var cs := inodes[d].children;
      var k := 0;
      while k < |cs|
        invariant 0 <= k <= |cs|
        invariant FindChild(inodes, cs, name) == FindChild(inodes, cs[k..], name)
      {
        if cs[k] in inodes && inodes[cs[k]].name == name {
          return Some(cs[k]);
        }
        k := k + 1;
      }
      r := None;
    }

    method UniqueNameInDir(d: Id, desired: Name, i: Id) returns (name: Name)
      requires d in inodes
      ensures name == UniqueName(inodes, d, desired, i)
    {
      var found := GetChildInodeByName(d, desired);
      name := if found.None? then desired else desired + "__" + Digits(i);
    }

    /** Climbs the parent pointers looking for `tr`. */
    method IsUnder(i: Id, tr: Id) returns (r: bool)
      requires Valid() && i in inodes && tr in inodes
      ensures r <==> Under(inodes[i].path, inodes[tr].path)
    {
      var n := i;
      while true
        invariant n in inodes
        invariant Under(inodes[i].path, inodes[tr].path) <==> Under(inodes[n].path, inodes[tr].path)
        decreases |inodes[n].path|
      {
        if n == tr {
          return true;
        }
        ParentUnder(inodes, inodeStore.pathToID, inodeStore.nextInodeID, tr, n);
        if inodes[n].parent == n {
          return false;
        }
        assert NodeOk(inodes, n);
        n := inodes[n].parent;
      }
    }

    /** The user root above `i`. */
    method FindRoot(i: Id) returns (r: Id)
      requires Valid() && i in inodes
      ensures r == RootOf(inodes, i)
    {
      r := i;
      while inodes[r].parent != r
        invariant r in inodes && RootOf(inodes, r) == RootOf(inodes, i)
        decreases |inodes[r].path|
      {
        assert NodeOk(inodes, r);
        r := inodes[r].parent;
      }
    }

    /** Post-order list of everything strictly below `i`: each descendant once, children before parents. */
    method CollectInodesToDelete(i: Id) returns (r: seq<Id>)
      requires Valid() && i in inodes
      ensures Collected(inodes, i, r)
      decreases Subtree(inodes, i)
    {
      hide WF, Collected, CollectedSome;
      r := [];
      var cs := inodes[i].children;
      var k := 0;
      CollectNone(inodes, cs);
      while k < |cs|
        invariant 0 <= k <= |cs|
        invariant CollectedSome(inodes, cs[..k], r)
      {
        var c := cs[k];
        SubtreeShrinks(State(), i, c);
        var below := CollectInodesToDelete(c);
        CollectOne(State(), i, k, r, below);
        r := r + below + [c];
        k := k + 1;
      }
      assert cs[..|cs|] == cs;
      CollectAll(State(), i, r);
    }

    /** Ownership of the whole subtree, checked child by child. */
    method ValidateDelete(i: Id, user: string, recursive: bool) returns (e: Option<Error>)
      requires Valid() && i in inodes
      ensures e == (if inodes[i].owner != user then Some(PermissionDenied)
                    else if inodes[i].children != [] && !recursive then Some(NotEmpty)
                    else None)
      ensures e.None? ==> forall j :: j in inodes && Under(inodes[j].path, inodes[i].path) ==> inodes[j].owner == user
      decreases Subtree(inodes, i)
    {
      if inodes[i].owner != user {
        return Some(PermissionDenied);
      }
      SubtreeOwner(State(), i);
      if inodes[i].children != [] && !recursive {
        return Some(NotEmpty);
      }
      var cs := inodes[i].children;
      var k := 0;
      while k < |cs|
        invariant 0 <= k <= |cs|
      {
        assert NodeOk(inodes, i) && NodeOk(inodes, cs[k]);
        SubtreeShrinks(State(), i, cs[k]);
        var sub := ValidateDelete(cs[k], user, recursive);
        if sub.Some? {
          return sub;
        }
        k := k + 1;
      }
      e := None;
    }
  
    // -------------------------------------------------------------- in-place walks

    /** Rewrites the paths of a subtree, top down. */
    method UpdateSubtreePaths(i: Id, newPath: Path, ghost s0: FS)
      requires WF(s0) && SameBelow(s0.inodes, inodes, i)
      modifies this`inodes
      ensures inodes == Repathed(old(inodes), s0.inodes, i, newPath)
      decreases Subtree(s0.inodes, i)
    {
      hide WF, SameBelow, Repathed, RepathedSome;
      ghost var t, t0 := inodes, s0.inodes;
      BelowFacts(s0, t, i);
      var cs := inodes[i].children;
      RepathStart(s0, t, i, newPath, cs);
      inodes := inodes[i := inodes[i].(path := newPath)];
      var k := 0;
      while k < |cs|
        invariant 0 <= k <= |cs|
        invariant inodes == RepathedSome(t, t0, i, newPath, cs[..k])
      {
        var c := cs[k];
        SubtreeShrinks(s0, i, c);
        RepathStep(s0, t, i, newPath, k, c);
        BelowFacts(s0, inodes, c);
        ChildName(s0, t, i, newPath, k, c);
        UpdateSubtreePaths(c, newPath + [inodes[c].name], s0);
        k := k + 1;
      }
      assert cs[..|cs|] == cs;
      RepathDone(s0, t, i, newPath);
    }
  
    /** Takes the inode out of its parent's child list or, if it is not listed there, out of that of any
        directory that lists it; a root stays where it is, and an inode nobody lists is an error. */
    method RemoveFromParent(i: Id, p: Id) returns (ok: bool)
      requires p in inodes
      modifies this`inodes
      ensures p == i ==> ok && inodes == old(inodes)
      ensures p != i && i in old(inodes)[p].children ==> ok && inodes == Unlisted(old(inodes), p, i)
      ensures p != i && i !in old(inodes)[p].children ==>
        if ok then exists d :: ListsChild(old(inodes), d, i) && inodes == Unlisted(old(inodes), d, i)
        else inodes == old(inodes) && forall d :: !ListsChild(old(inodes), d, i)
    {
      if p == i { return true; }
      var kept, removed := FilterChild(inodes[p].children, i);
      if !removed { WithoutAbsent(inodes[p].children, i); }
      assert i !in inodes[p].children ==> Unlisted(inodes, p, i) == inodes;
      inodes := inodes[p := inodes[p].(children := kept)];
      if removed { return true; }
      var todo := inodes.Keys;
      while todo != {}
        invariant todo <= inodes.Keys && inodes == old(inodes)
        invariant forall d :: d in inodes && d !in todo ==> !ListsChild(inodes, d, i)
        decreases |todo|
      {
        var d :| d in todo;
        todo := todo - {d};
        if inodes[d].isDir && d != i {
          kept, removed := FilterChild(inodes[d].children, i);
          if removed {
            assert ListsChild(old(inodes), d, i);
            inodes := inodes[d := inodes[d].(children := kept)];
            return true;
          }
        }
      }
      ok := false;
    }

    /** The child list without `i`, and whether `i` was on it. */
    method FilterChild(cs: seq<Id>, i: Id) returns (kept: seq<Id>, removed: bool)
      ensures kept == Without(cs, i) && (removed <==> i in cs)
    {
      kept, removed := [], false;
      var k := 0;
      while k < |cs|
        invariant 0 <= k <= |cs|
        invariant kept == Without(cs[..k], i)
        invariant removed <==> i in cs[..k]
      {
        WithoutSnoc(cs[..k], cs[k], i);
        assert cs[..k + 1] == cs[..k] + [cs[k]];
        if cs[k] != i {
          kept := kept + [cs[k]];
        } else {
          removed := true;
        }
        k := k + 1;
      }
      assert cs[..|cs|] == cs;
    }

    /** Adds `d`, in 64-bit arithmetic, to `i` and everything above it. */
    method AddToSizes(i: Id, d: int)
      requires Valid() && i in inodes
      modifies this`inodes
      ensures inodes == Resized(old(inodes), i, d)
    {
      hide WF, Changed, Resized;
      ghost var s := State();
      ghost var f := (x: nat) => (x + d) % (MAX_UINT64 + 1);
      ghost var hi := |inodes[i].path| + 1;
      ChangedNone(inodes, i, f, hi);
      var node := i;
      while true
        invariant node in s.inodes && Under(s.inodes[i].path, s.inodes[node].path) && |s.inodes[node].path| < hi
        invariant inodes == Changed(s.inodes, i, f, |s.inodes[node].path| + 1, hi)
        decreases |s.inodes[node].path|
      {
        ChangedStep(s, i, f, node, hi);
        ClimbOne(s, i, node);
        inodes := inodes[node := inodes[node].(size := (inodes[node].size + d) % (MAX_UINT64 + 1))];
        if inodes[node].parent == node {
          break;
        }
        node := inodes[node].parent;
      }
      ChangedAll(s, i, f, d);
    }

    /** Takes the size of `i` off everything above it, clamping at zero. */
    method DeductSize(i: Id, ghost s: FS)
      requires WF(s) && s.inodes == inodes && i in inodes && !IsRoot(inodes, i)
      modifies this`inodes
      ensures inodes == Deducted(old(inodes), i)
    {
      hide WF, Changed, Deducted;
      if inodes[i].size == 0 {
        DeductNothing(inodes, i);
        return;
      }
      var deleted := inodes[i].size;
      ghost var f := (x: nat) => Less(x, deleted);
      ghost var hi := |inodes[i].path|;
      ChangedNone(inodes, i, f, hi);
      assert Under(inodes[i].path, inodes[i].path);
      ClimbOne(s, i, i);
      var p := inodes[i].parent;
      while true
        invariant p in s.inodes && Under(s.inodes[i].path, s.inodes[p].path) && |s.inodes[p].path| < hi
        invariant inodes == Changed(s.inodes, i, f, |s.inodes[p].path| + 1, hi)
        decreases |s.inodes[p].path|
      {
        ChangedStep(s, i, f, p, hi);
        ClimbOne(s, i, p);
        if inodes[p].size >= deleted {
          inodes := inodes[p := inodes[p].(size := inodes[p].size - deleted)];
        } else {
          inodes := inodes[p := inodes[p].(size := 0)];
        }
        if inodes[p].parent == p {
          break;
        }
        p := inodes[p].parent;
      }
      ChangedAbove(s, i, f);
    }
  
    /** Takes every share at or below `base` out of the table and returns it. */
    method DetachShares(base: Path) returns (snapshots: map<Path, seq<string>>)
      modifies this`shared
      ensures snapshots == SharesUnder(old(shared), base) && shared == IndexWithout(old(shared), base)
    {
      snapshots := map[];
      var todo := shared.Keys;
      ghost var all := shared;
      while todo != {}
        invariant todo <= all.Keys
        invariant snapshots == map p | p in all && p !in todo && Under(p, base) :: all[p]
        invariant shared == map p | p in all && (p in todo || !Under(p, base)) :: all[p]
        decreases todo
      {
        var p :| p in todo;
        if Under(p, base) {
          snapshots := snapshots[p := shared[p]];
          shared := shared - {p};
        }
        todo := todo - {p};
      }
    }

    /** Puts snapshots back below `dst`, user by user, without duplicates. */
    method ReattachShares(snapshots: map<Path, seq<string>>, src: Path, dst: Path)
      requires forall p :: p in snapshots ==> Under(p, src)
      modifies this`shared
      ensures shared == Reattach(old(shared), snapshots, src, dst)
    {
      hide Reattaching;
      var todo := snapshots.Keys;
      ghost var all := shared;
      ReattachNone(all, snapshots, src, dst);
      while todo != {}
        invariant todo <= snapshots.Keys
        invariant Reattaching(all, shared, snapshots, src, dst, todo)
        decreases todo
      {
        var p :| p in todo;
        var mapped := Rebase(p, src, dst);
        var have := if mapped in shared then shared[mapped] else [];
        ReattachStep(all, shared, snapshots, src, dst, todo, p);
        var merged := MergeUsers(have, snapshots[p]);
        shared := shared[mapped := merged];
        todo := todo - {p};
      }
      ReattachDone(all, shared, snapshots, src, dst);
    }

    method MergeUsers(have: seq<string>, more: seq<string>) returns (merged: seq<string>)
      ensures merged == Merge(have, more)
    {
      merged := have;
      var k := 0;
      while k < |more|
        invariant 0 <= k <= |more|
        invariant Merge(merged, more[k..]) == Merge(have, more)
      {
        if more[k] !in merged {
          merged := merged + [more[k]];
        }
        k := k + 1;
      }
    }

    // -------------------------------------------------------------- operations

    method RefreshSize(i: Id)
      requires i in inodes
      modifies this`inodes
      ensures State() == Refresh(old(State()), i)
    {
      var n := inodes[i];
      if !n.isDir && n.path in disk && disk[n.path].File? {
        inodes := inodes[i := n.(size := disk[n.path].bytes)];
      }
    }

    /** A new inode under `p`: disk entry, index entry, table entry, child list. */
    method AddInode(p: Id, name: Name, isDir: bool) returns (id: Id)
      requires Valid() && p in inodes && inodes[p].isDir && NameFree(inodes, p, name)
      modifies this, inodeStore
      ensures id == old(inodeStore.nextInodeID) && State() == AddNode(old(State()), p, name, isDir) && Valid()
    {
      hide WF;
      AddNodeWF(State(), p, name, isDir);
      ChildIsNew(State(), p, name);
      var path := inodes[p].path + [name];
      disk := disk[path := if isDir then Dir else File(0)];
      id := inodeStore.GetOrAssign(path);
      inodes := inodes[p := inodes[p].(children := inodes[p].children + [id])]
                      [id := Inode(isDir, name, path, inodes[p].owner, p, [], 0)];
    }

    /** The user's trash directory, created on first use. */
    method GetOrCreateTrashDir(user: string, io: Io) returns (tr: Option<Id>)
      requires Valid()
      modifies this, inodeStore
      ensures (State(), tr) == EnsureTrash(old(State()), user, io) && Valid()
    {
      hide WF, NodeOk;
      EnsureTrashWF(State(), user, io);
      if user !in users {
        return None;
      }
      var root := users[user];
      RootIsDir(State(), user);
      var found := GetChildInodeByName(root, TRASH_DIR);
      if found.Some? {
        return if inodes[found.value].isDir then found else None;
      }
      if !io.mkTrash {
        return None;
      }
      var id := AddInode(root, TRASH_DIR, true);
      return Some(id);
    }
  
    /** Re-parents `i`: child lists, parent pointer, name, the paths below it, and the index. */
    method MoveInode(i: Id, to: Id, name: Name, ghost s0: FS)
      requires WF(s0) && s0.inodes == inodes && s0.index == inodeStore.pathToID && s0.next == inodeStore.nextInodeID
      requires CanMove(inodes, i, to) && inodes[i].parent != to
      modifies this`inodes, inodeStore
      ensures inodes == Moved(s0.inodes, i, to, name) && inodeStore.nextInodeID == s0.next
      ensures NameFree(s0.inodes, to, name) ==>
                inodeStore.pathToID == RenamePrefix(s0.index, s0.inodes[i].path, s0.inodes[to].path + [name])
    {
      hide WF;
      RelinkSameBelow(s0, i, to, name);
      RelinkThenRepath(s0.inodes, i, to, name);
      ChildListed(s0, i);
      var src := inodes[i].path;
      var p := inodes[i].parent;
      var newPath := inodes[to].path + [name];
      var listed := RemoveFromParent(i, p);
      inodes := inodes[i := inodes[i].(parent := to, name := name)];
      inodes := inodes[to := inodes[to].(children := inodes[to].children + [i])];
      UpdateSubtreePaths(i, newPath, s0);
      MoveVacancy(s0, i, to, name);
      inodeStore.RenamePrefix(src, newPath);
    }

    method TrashFile(i: Id, user: string, recursive: bool, io: Io) returns (r: Reply)
      requires Valid()
      modifies this, inodeStore
      ensures old(i in inodes ==> TrashNameFree(State(), i, user)) ==>
                (State(), r) == Trash(old(State()), i, user, recursive, io) && Valid()
      ensures r == Trash(old(State()), i, user, recursive, io).1
    {
      hide WF, TrashNameFree, EnsureTrash, Refresh, Moved;
      if i !in inodes {
        return Failed(NotFound);
      }
      ghost var s := State();
      TrashKeepsAgreementIff(s, i, user, recursive, io);
      RefreshWF(s, i);
      RefreshShape(s, i);
      RefreshSize(i);
      ghost var s0 := State();
      if user in users && users[user] == i {
        return Failed(IsUserRoot);
      }
      if inodes[i].name == TRASH_DIR && user in users && inodes[i].parent == users[user] {
        return Failed(IsTrashDir);
      }
      var denied := ValidateDelete(i, user, recursive);
      if denied.Some? {
        return Failed(denied.value);
      }
      GuardPasses(s0, i, user, recursive);
      EnsureTrashWF(s0, user, io);
      var tr := GetOrCreateTrashDir(user, io);
      ghost var s1 := State();
      if tr.None? {
        return Failed(TrashIsNotADirectory);
      }
      if inodes[i].parent == tr.value {
        return Failed(AlreadyInTrash);
      }
      if !io.act {
        return Failed(DiskFailure);
      }
      TrashReady(s0, s1, i, user, tr.value);
      var name := MoveToTrash(i, tr.value);
      TrashNameUsed(s, i, user, recursive, io);
      r := Placed(name);
    }

    /** The disk move, the shares, the restore metadata and the tree, in the order of the code. */
    method MoveToTrash(i: Id, tr: Id) returns (name: Name)
      requires Valid() && CanMove(inodes, i, tr) && inodes[i].parent != tr
      modifies this, inodeStore
      ensures name == UniqueName(old(inodes), tr, old(inodes)[i].name, i)
      ensures NameFree(old(inodes), tr, name) ==> State() == TrashMove(old(State()), i, tr, name)
    {
      hide WF, Moved;
      ghost var s1 := State();
      name := UniqueNameInDir(tr, inodes[i].name, i);
      var n := inodes[i];
      disk := RenamePrefix(disk, n.path, inodes[tr].path + [name]);
      var snapshots := DetachShares(n.path);
      trashMeta := trashMeta[i := TrashEntry(n.parent, n.name, n.path, snapshots)];
      MoveInode(i, tr, name, s1);
    }

    method RestoreFile(i: Id, user: string, mayAccess: bool, io: Io) returns (r: Reply)
      requires Valid()
      modifies this, inodeStore
      ensures
        old(i in trashMeta && user in users && users[user] in inodes ==> RestoreNameFree(State(), i, user)) ==>
          (State(), r) == Restore(old(State()), i, user, mayAccess, io) && Valid()
      ensures r == Restore(old(State()), i, user, mayAccess, io).1
    {
      hide WF, RestoreNameFree, EnsureTrash, Refresh, TrashOf;
      if i !in inodes {
        return Failed(NotFound);
      }
      ghost var s := State();
      RestoreKeepsAgreementIff(s, i, user, mayAccess, io);
      RefreshWF(s, i);
      RefreshShape(s, i);
      RefreshSize(i);
      ghost var s0 := State();
      if !mayAccess {
        return Failed(PermissionDenied);
      }
      EnsureTrashWF(s0, user, io);
      var tr := GetOrCreateTrashDir(user, io);
      ghost var s1 := State();
      if tr.None? {
        return Failed(TrashIsNotADirectory);
      }
      if inodes[i].parent != tr.value {
        return Failed(NotInTrash);
      }
      if i !in trashMeta {
        return Failed(NoRestoreMetadata);
      }
      RestoreReady(s1, i, user, tr.value);
      var to := if trashMeta[i].parent in inodes then trashMeta[i].parent else users[user];
      if !inodes[to].isDir {
        return Failed(NotADirectory);
      }
      if !io.act {
        return Failed(DiskFailure);
      }
      var name := MoveOutOfTrash(i, to);
      RestoreNameUsed(s, i, user, io);
      r := Placed(name);
    }

    method MoveOutOfTrash(i: Id, to: Id) returns (name: Name)
      requires Valid() && CanMove(inodes, i, to) && inodes[i].parent != to && i in trashMeta
      modifies this, inodeStore
      ensures name == UniqueName(old(inodes), to, old(trashMeta)[i].name, i)
      ensures NameFree(old(inodes), to, name) ==> State() == RestoreMove(old(State()), i, to, name)
    {
      hide WF, Moved;
      ghost var s1 := State();
      SnapshotsBelow(s1, i);
      var meta := trashMeta[i];
      name := UniqueNameInDir(to, meta.name, i);
      var newPath := inodes[to].path + [name];
      disk := RenamePrefix(disk, inodes[i].path, newPath);
      MoveInode(i, to, name, s1);
      ReattachShares(meta.snapshots, meta.relPath, newPath);
      trashMeta := trashMeta - {i};
    }

    /** Post-order removal from disk, deduction up to the root, removal from the tables. */
    method DeleteFile(i: Id, user: string, recursive: bool, io: Io) returns (r: Reply)
      requires Valid()
      modifies this, inodeStore
      ensures (State(), r) == Delete(old(State()), i, user, recursive, io) && Valid()
    {
      hide WF, Refresh;
      if i !in inodes {
        return Failed(NotFound);
      }
      ghost var s := State();
      DeleteWF(s, i, user, recursive, io);
      RefreshWF(s, i);
      RefreshShape(s, i);
      RefreshSize(i);
      ghost var s0 := State();
      if user in users && users[user] == i {
        return Failed(IsUserRoot);
      }
      if inodes[i].name == TRASH_DIR && user in users && inodes[i].parent == users[user] {
        return Failed(IsTrashDir);
      }
      var denied := ValidateDelete(i, user, recursive);
      if denied.Some? {
        return Failed(denied.value);
      }
      GuardPasses(s0, i, user, recursive);
      if !io.act {
        return Failed(DiskFailure);
      }
      DropInode(i);
      r := Done;
    }

    method DropInode(i: Id)
      requires Valid() && i in inodes && !IsRoot(inodes, i)
      modifies this, inodeStore
      ensures State() == DropNode(old(State()), i)
    {
      hide WF, Collected, Deducted, Dropped, SharesUnder, IndexWithout, PathsOf, NoDup, Without, Survivors, TrashWithin;
      ghost var s := State();
      var p, base := inodes[i].parent, inodes[i].path;
      ChildListed(s, i);
      var toDelete := CollectInodesToDelete(i);
      toDelete := toDelete + [i];
      DeleteList(s, i, toDelete);
      RemoveFromDisk(toDelete, i);
      DeductSize(i, s);
      DeductedShape(s.inodes, i);
      RemoveFromTables(toDelete);
      var snapshots := DetachShares(base);
      TablesAfter(s, i, toDelete);
      DropInSteps(s, i, inodes);
      var listed := RemoveFromParent(i, p);
    }

    /** Removes each listed path with everything below it; the target comes last. */
    method RemoveFromDisk(list: seq<Id>, i: Id)
      requires i in inodes && list != [] && list[|list| - 1] == i
      requires forall x :: x in list ==> x in inodes && Under(inodes[x].path, inodes[i].path)
      modifies this`disk
      ensures disk == IndexWithout(old(disk), inodes[i].path)
    {
      var k := 0;
      while k < |list|
        invariant 0 <= k <= |list|
        invariant forall p :: p in disk ==> p in old(disk) && disk[p] == old(disk)[p]
        invariant forall p :: p in old(disk) && !Under(p, inodes[i].path) ==> p in disk
        invariant k == |list| ==> forall p :: p in disk ==> !Under(p, inodes[i].path)
      {
        disk := IndexWithout(disk, inodes[list[k]].path);
        k := k + 1;
      }
    }

    /** Drops each listed inode from the table, the trash metadata and the index. */
    method RemoveFromTables(list: seq<Id>)
      requires NoDup(list) && forall x :: x in list ==> x in inodes
      modifies this`inodes, this`trashMeta, inodeStore`pathToID
      ensures inodes == old(inodes) - (set x | x in list)
      ensures trashMeta == old(trashMeta) - (set x | x in list)
      ensures inodeStore.pathToID == old(inodeStore.pathToID) - PathsOf(old(inodes), list)
    {
      var k := 0;
      while k < |list|
        invariant 0 <= k <= |list|
        invariant inodes == old(inodes) - (set x | x in list[..k])
        invariant trashMeta == old(trashMeta) - (set x | x in list[..k])
        invariant inodeStore.pathToID == old(inodeStore.pathToID) - PathsOf(old(inodes), list[..k])
      {
        var x := list[k];
        assert list[..k + 1] == list[..k] + [x];
        assert x !in list[..k];
        inodeStore.Remove(inodes[x].path);
        inodes := inodes - {x};
        trashMeta := trashMeta - {x};
        k := k + 1;
      }
      assert list[..|list|] == list;
    }

    /** Whether `p` lies in the user's trash, which is made if need be. */
    method InUserTrash(p: Id, user: string, io: Io) returns (inside: bool)
      requires Valid() && p in inodes
      modifies this, inodeStore
      ensures var (s1, tr) := EnsureTrash(old(State()), user, io);
        State() == s1 && Valid() && p in s1.inodes && (inside <==> tr.Some? && Under(s1.inodes[p].path, s1.inodes[tr.value].path))
    {
      hide WF, EnsureTrash, Under;
      var tr := GetOrCreateTrashDir(user, io);
      inside := false;
      if tr.Some? { inside := IsUnder(p, tr.value); }
    }

    /** Creates a file or directory, or returns the one that is already there. */
    method CreateFile(p: Id, name: Name, user: string, isDir: bool, io: Io) returns (r: Reply)
      requires Valid()
      modifies this, inodeStore
      ensures (State(), r) == Create(old(State()), p, name, user, isDir, io) && Valid()
    {
      hide WF, Refresh, ValidName, CreateIn;
      ghost var s := State();
      CreateWF(s, p, name, user, isDir, io);
      if !ValidName(name) {
        return Failed(InvalidName);
      }
      if Reserved(name) {
        return Failed(ReservedName);
      }
      if p !in inodes {
        return Failed(NotFound);
      }
      RefreshDirectory(s, p);
      RefreshSize(p);
      if !inodes[p].isDir {
        return Failed(NotADirectory);
      }
      var existing := GetChildInodeByName(p, name);
      if existing.Some? {
        return Created(existing.value);
      }
      r := CreateChild(p, name, user, isDir, io);
    }

    /** A new child of `p`, unless `p` lies in the user's trash. */
    method CreateChild(p: Id, name: Name, user: string, isDir: bool, io: Io) returns (r: Reply)
      requires Valid() && p in inodes && inodes[p].isDir && name != TRASH_DIR && NameFree(inodes, p, name)
      modifies this, inodeStore
      ensures (State(), r) == CreateIn(old(State()), p, name, user, isDir, io)
    {
      hide WF, EnsureTrash, TrashOf, AddNode, Under;
      EnsureTrashWF(State(), user, io);
      StillFree(State(), user, io, p, name);
      var inside := InUserTrash(p, user, io);
      if inside {
        return Failed(InsideTrash);
      }
      if !io.act {
        return Failed(DiskFailure);
      }
      var id := AddInode(p, name, isDir);
      r := Created(id);
    }

    /** The signed change of size, in 64-bit arithmetic. */
    static method SizeChange(size: nat, offset: nat, len: nat) returns (diff: int)
      ensures diff == SizeDiff(size, offset, len)
    {
      var newSize := if offset + len > size then offset + len else size;
      diff := WrapInt64(AsInt64(newSize) - AsInt64(size));
    }

    /** The pre-flight quota check against the root above `c`. */
    method ExceedsQuota(c: Id, diff: int) returns (over: bool)
      requires Valid() && c in inodes
      ensures var root := inodes[RootOf(inodes, c)]; over == OverQuota(root.size, QuotaOf(quotas, root.name), diff)
    {
      hide Linked, Rooted, Indexed, Aged, Founded, OnDisk, TrashOk, RootOf;
      over := false;
      if diff > 0 {
        var root := FindRoot(c);
        var quota := QuotaOf(quotas, inodes[root].name);
        over := diff > quota || inodes[root].size > quota - diff;
      }
    }

    /** Writes `len` bytes at `offset`, within the quota, and updates sizes up to the root. */
    method WriteFile(p: Id, name: Name, offset: nat, len: nat, roomOnDisk: bool, io: Io) returns (r: Reply)
      requires Valid() && offset <= MAX_UINT64 && len <= MAX_UINT64
      modifies this, inodeStore
      ensures (State(), r) == Write(old(State()), p, name, offset, len, roomOnDisk, io) && Valid()
    {
      hide WF, Refresh, WriteChild, SameShape;
      ghost var s := State();
      WriteWF(s, p, name, offset, len, roomOnDisk, io);
      if p !in inodes {
        return Failed(NotFound);
      }
      RefreshWF(s, p);
      RefreshShape(s, p);
      RefreshSize(p);
      var found := GetChildInodeByName(p, name);
      if found.None? {
        return Failed(NotFound);
      }
      r := WriteChildFile(found.value, offset, len, roomOnDisk, io);
    }

    method WriteChildFile(c: Id, offset: nat, len: nat, roomOnDisk: bool, io: Io) returns (r: Reply)
      requires Valid() && c in inodes && offset <= MAX_UINT64 && len <= MAX_UINT64
      modifies this`disk, this`inodes
      ensures (State(), r) == WriteChild(old(State()), c, offset, len, roomOnDisk, io)
    {
      hide WF, WriteAt, SizeDiff, OverQuota, QuotaOf, Addressable, RootOf;
      if inodes[c].isDir {
        return Failed(NotAFile);
      }
      if !io.open {
        return Failed(DiskFailure);
      }
      if MAX_UINT64 - offset < len {
        return Failed(OffsetOverflow);
      }
      var diff := SizeChange(inodes[c].size, offset, len);
      var over := ExceedsQuota(c, diff);
      if over {
        return Failed(QuotaExceeded);
      }
      if diff > 0 && !roomOnDisk {
        return Failed(DiskFull);
      }
      if !io.act || !Addressable(offset, len) {
        return Failed(DiskFailure);
      }
      ApplyWrite(c, offset, len, diff);
      r := Done;
    }

    /** The disk write and the new sizes. */
    method ApplyWrite(c: Id, offset: nat, len: nat, diff: int)
      requires Valid() && c in inodes
      modifies this`disk, this`inodes
      ensures State() == WriteAt(old(State()), c, offset, len, diff)
    {
      hide WF, Resized;
      var path := inodes[c].path;
      if diff != 0 {
        AddToSizes(c, diff);
      }
      if path in disk && disk[path].File? && len > 0 {
        disk := disk[path := File(NewSize(disk[path].bytes, offset, len))];
      }
    }

    /** Only a named user can be given a quota, and only a positive one, so the default never shadows it. */
    method SetUserQuota(user: string, bytes: nat, saved: bool) returns (r: Reply)
      requires Valid()
      modifies this`quotas
      ensures r == if user == "" || bytes == 0 then Failed(UnknownUser) else if saved then Done else Failed(DiskFailure)
      ensures Valid() && State() == old(State()).(quotas := quotas)
      ensures forall u :: QuotaOf(quotas, u) == if user != "" && bytes != 0 && u == user then bytes else QuotaOf(old(quotas), u)
    {
      if user == "" || bytes == 0 {
        return Failed(UnknownUser);
      }
      quotas := quotas[user := bytes];
      r := if saved then Done else Failed(DiskFailure);
    }

    /** Records an explicit share of a directory, once per user. */
    method ShareDirectory(i: Id, user: string, grantee: string, hasAccess: bool) returns (r: Reply)
      requires Valid()
      modifies this`inodes, this`shared
      ensures (State(), r) == Share(old(State()), i, user, grantee, hasAccess) && Valid()
    {
      hide WF, Refresh;
      ghost var s := State();
      ShareKeepsAgreement(s, i, user, grantee, hasAccess);
      if i !in inodes {
        return Failed(NotFound);
      }
      SameShapeAt(s, i);
      RefreshSize(i);
      if !inodes[i].isDir {
        return Failed(NotADirectory);
      }
      if inodes[i].owner != user {
        return Failed(PermissionDenied);
      }
      if grantee == inodes[i].owner {
        return Failed(SelfShare);
      }
      if hasAccess {
        return Failed(AlreadyShared);
      }
      var path := inodes[i].path;
      if path !in shared {
        shared := shared[path := []];
      }
      if grantee !in shared[path] {
        shared := shared[path := shared[path] + [grantee]];
      }
      assert shared == Granted(old(shared), path, grantee);
      r := Done;
    }

    /** Takes an explicit share back; other directories' shares stay. */
    method UnshareDirectory(i: Id, user: string, grantee: string, hasAccess: bool) returns (r: Reply)
      requires Valid()
      modifies this`inodes, this`shared
      ensures (State(), r) == Unshare(old(State()), i, user, grantee, hasAccess) && Valid()
    {
      hide WF, Refresh;
      ghost var s := State();
      ShareKeepsAgreement(s, i, user, grantee, hasAccess);
      if i !in inodes {
        return Failed(NotFound);
      }
      SameShapeAt(s, i);
      RefreshSize(i);
      if inodes[i].owner != user {
        return Failed(PermissionDenied);
      }
      if grantee == inodes[i].owner {
        return Failed(SelfShare);
      }
      if !hasAccess {
        return Failed(NotShared);
      }
      var path := inodes[i].path;
      if path in shared {
        var kept := FilterUser(shared[path], grantee);
        if kept == [] {
          shared := shared - {path};
        } else {
          shared := shared[path := kept];
        }
      }
      r := Done;
    }

    static method FilterUser(users: seq<string>, user: string) returns (kept: seq<string>)
      ensures kept == WithoutUser(users, user)
    {
      kept := [];
      for k := 0 to |users|
        invariant kept + WithoutUser(users[k..], user) == WithoutUser(users, user)
      {
        assert users[k..][1..] == users[k + 1..];
        if users[k] != user {
          kept := kept + [users[k]];
        }
      }
    }

    /** The user's root and trash directory, created on first contact. */
    method EnsureUserRoot(user: string, io: Io) returns (r: Reply)
      requires Valid()
      modifies this, inodeStore
      ensures (State(), r) == OpenRoot(old(State()), user, io) && Valid()
      ensures if r.Created? then user in users && r.id == users[user] else r.Failed?
    {
      hide WF, EnsureTrash;
      ghost var s := State();
      OpenRootWF(s, user, io);
      NewRootWF(s, user);
      if user !in users {
        if !io.act {
          return Failed(DiskFailure);
        }
        RootIsNew(s, user);
        disk := disk[[user] := Dir];
        var id := inodeStore.GetOrAssign([user]);
        inodes := inodes[id := Inode(true, user, [user], user, id, [], 0)];
        users := users[user := id];
      }
      var tr := GetOrCreateTrashDir(user, io);
      r := if tr.Some? then Created(users[user]) else Failed(TrashIsNotADirectory);
    }

    /** Descends by name from the user's root, skipping empty and dot components: it arrives exactly where the
        index has the path. Only a file in the way is looked at more closely. */
    method WalkDown(user: string, components: seq<Name>) returns (r: Reply)
      requires Valid() && user in users
      modifies this`inodes
      ensures r.Created? || r.Failed?
      ensures
        var path := [user] + Significant(components);
        && (r.Created? <==> path in inodeStore.pathToID)
        && (r.Created? ==> r.id == inodeStore.pathToID[path])
      ensures if r == Failed(NotADirectory) then exists x :: x in old(inodes) && State() == Refresh(old(State()), x)
              else State() == old(State())
    {
      hide WF;
      ghost var s := State();
      var cur := users[user];
      AtRoot(s, user);
      var k := 0;
      while k < |components|
        invariant 0 <= k <= |components| && State() == s
        invariant cur in inodes && inodes[cur].path == [user] + Significant(components[..k])
      {
        var name := components[k];
        SignificantSnoc(components[..k], name);
        assert components[..k + 1] == components[..k] + [name];
        if name != "" && name != "." {
          SignificantSplit(components, k);
          RefreshSize(cur);
          if !inodes[cur].isDir {
            NothingBelowFile(s, cur, name, [user] + Significant(components));
            return Failed(NotADirectory);
          }
          assert State() == s;
          var found := GetChildInodeByName(cur, name);
          if found.None? {
            NothingOfThatName(s, cur, name, [user] + Significant(components));
            return Failed(NotFound);
          }
          ChildPath(s, cur, found.value);
          cur := found.value;
        }
        k := k + 1;
      }
      assert components[..|components|] == components;
      PathIsIndexed(s, cur);
      return Created(cur);
    }

    /** Opens the user's root and, if the request names a directory below it, descends to that. */
    method GetUserRoot(user: string, components: seq<Name>, io: Io) returns (r: Reply)
      requires Valid()
      modifies this, inodeStore
      ensures r.Created? || r.Failed?
      ensures
        var (s, reply) := OpenRoot(old(State()), user, io);
        if reply.Failed? then (State(), r) == (s, reply)
        else
          var path := [user] + Significant(if components != [] && components[0] == user then components[1..] else components);
          && (r.Created? <==> path in s.index) && (r.Created? ==> r.id == s.index[path])
          && if r == Failed(NotADirectory) then exists x :: x in s.inodes && State() == Refresh(s, x) else State() == s
    {
      hide WF, OpenRoot;
      r := EnsureUserRoot(user, io);
      if r.Created? {
        r := WalkDown(user, if components != [] && components[0] == user then components[1..] else components);
      }
    }
  }
}
