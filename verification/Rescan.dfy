/**
What the boot-time scanner rebuilds from the disk and the persistent index, and
why a restart between operations loses nothing but the restore metadata.
*/
module Rescan {
  import opened Paths
  import opened InodeTree
  import opened FileOps
  import opened FileSizes

  predicate HiddenName(name: Name) {
    "." <= name
  }

  /** The scanner skips hidden user directories and every entry called ".acl" below them. */
  predicate Visible(p: Path) {
    && |p| >= 1
    && !HiddenName(p[0])
    && forall k :: 1 <= k < |p| ==> p[k] != ".acl"
  }

  function ParentPath(p: Path): Path {
    if |p| <= 1 then p else p[..|p| - 1]
  }

  /** Every entry below the top lies in a directory; the top level holds only directories. */
  ghost predicate DiskTree(disk: map<Path, Entry>) {
    forall p {:trigger InDirectory(disk, p)} :: p in disk ==> InDirectory(disk, p)
  }

  ghost predicate InDirectory(disk: map<Path, Entry>, p: Path) {
    |p| >= 1 && ParentPath(p) in disk && disk[ParentPath(p)].Dir?
  }

  ghost predicate IndexOk(index: map<Path, Id>, next: Id) {
    && (forall p :: p in index ==> index[p] < next)
    && (forall p, q :: p in index && q in index && index[p] == index[q] ==> p == q)
  }

  /** The inode at `p`, apart from its child list and, for a directory, its size. */
  ghost predicate Scanned(t: Tree, index: map<Path, Id>, disk: map<Path, Entry>, p: Path) {
    && |p| >= 1 && p in disk && p in index && ParentPath(p) in index && index[p] in t
    && var n := t[index[p]];
       && n.path == p && n.name == p[|p| - 1] && n.owner == p[0]
       && n.parent == index[ParentPath(p)]
       && (n.isDir <==> disk[p].Dir?)
       && (disk[p].File? ==> n.size == disk[p].bytes && n.children == [])
  }

  /** The child list of `p` names exactly the entries `kids`, each once. */
  ghost predicate Lists(t: Tree, index: map<Path, Id>, p: Path, kids: set<Path>) {
    && p in index && index[p] in t
    && (forall q :: q in kids ==> q in index)
    && NoDup(t[index[p]].children)
    && (forall q :: q in kids ==> index[q] in t[index[p]].children)
    && (forall c :: c in t[index[p]].children ==> exists q :: q in kids && index[q] == c)
  }

  /** The entries the scanner sees directly inside `p`. */
  function Kids(disk: map<Path, Entry>, p: Path): set<Path> {
    set q | q in disk && Visible(q) && |q| == |p| + 1 && ParentPath(q) == p
  }

  ghost predicate SizeOk(t: Tree, i: Id) {
    i in t && Present(t, t[i].children) && t[i].size == SumOf(t, t[i].children)
  }

  /** `s'` is what a restart builds from the disk, the index and the persisted shares and quotas of `s`. */
  ghost predicate Rescanned(s: FS, s': FS) {
    && s'.disk == s.disk && s'.shared == s.shared && s'.quotas == s.quotas && s'.trash == map[]
    && (forall p :: p in s.index ==> p in s'.index && s'.index[p] == s.index[p])
    && (forall p :: p in s'.index && p !in s.index ==> p in s.disk && Visible(p) && s'.index[p] >= s.next)
    && s'.next >= s.next && (s'.index == s.index ==> s'.next == s.next)
    && (forall p :: p in s.disk && Visible(p) ==> Scanned(s'.inodes, s'.index, s.disk, p))
    && (forall p :: p in s.disk && Visible(p) && s.disk[p].Dir? ==> Lists(s'.inodes, s'.index, p, Kids(s.disk, p)))
    && (forall i :: i in s'.inodes ==>
          && s'.inodes[i].path in s.disk && Visible(s'.inodes[i].path)
          && s'.inodes[i].path in s'.index && s'.index[s'.inodes[i].path] == i)
    && (forall i :: i in s'.inodes && s'.inodes[i].isDir ==>
          SizeOk(s'.inodes, i))
    && (forall u :: u in s'.users <==> [u] in s.disk && Visible([u]))
    && (forall u :: u in s'.users ==> [u] in s'.index && s'.users[u] == s'.index[[u]])
  }

  /** Nothing the scanner would skip: no user starts with a dot, no inode is called ".acl". */
  ghost predicate Scannable(s: FS) {
    forall i :: i in s.inodes ==> Visible(s.inodes[i].path)
  }

  ghost predicate Permutation(a: seq<Id>, b: seq<Id>) {
    NoDup(a) && NoDup(b) && forall c :: c in a <==> c in b
  }

  /** Same inode: everything but the order of children and a directory's size. */
  ghost predicate SameInode(n: Inode, n': Inode) {
    && n' == n.(children := n'.children, size := n'.size)
    && Permutation(n.children, n'.children)
  }

  /** Every agreeing state meets what the boot scan needs of the disk and the index. */
  lemma TreeOnDisk(s: FS)
    requires WF(s)
    ensures DiskTree(s.disk) && IndexOk(s.index, s.next)
  {
    forall p | p in s.disk ensures InDirectory(s.disk, p) {
      var i := s.index[p];
      PathNonEmpty(s.inodes, i);
      assert NodeOk(s.inodes, i);
      var q := s.inodes[i].parent;
      assert ParentPath(p) == s.inodes[q].path;
      assert s.inodes[q].path in s.index;
    }
  }

  /** One inode survives the restart. */
  lemma InodeSurvives(s: FS, s': FS, i: Id)
    requires WF(s) && Scannable(s) && Rescanned(s, s') && i in s.inodes
    ensures i in s'.inodes && SameInode(s.inodes[i], s'.inodes[i])
    ensures !s.inodes[i].isDir ==> s.disk[s.inodes[i].path] == File(s'.inodes[i].size)
  {
    var n, p := s.inodes[i], s.inodes[i].path;
    assert NodeOk(s.inodes, i);
    assert p in s.index && p in s.disk;
    assert Scanned(s'.inodes, s'.index, s.disk, p);
    PathNonEmpty(s.inodes, i);
    var q := n.parent;
    assert ParentPath(p) == s.inodes[q].path;
    assert s.inodes[q].path in s.index;
    OwnerIsFirst(s.inodes, i);
    if n.isDir {
      assert Lists(s'.inodes, s'.index, p, Kids(s.disk, p));
      ChildrenSurvive(s, s', i);
    }
  }

  lemma {:induction false} OwnerIsFirst(t: Tree, i: Id)
    requires Linked(t) && i in t
    ensures |t[i].path| >= 1 && t[i].path[0] == t[i].owner && t[i].path[|t[i].path| - 1] == t[i].name
    decreases |t[i].path|
  {
    assert NodeOk(t, i);
    if IsRoot(t, i) {
    } else {
      OwnerIsFirst(t, t[i].parent);
    }
  }

  /** The entries inside a directory are the paths of its children. */
  lemma KidsAre(s: FS, i: Id)
    requires WF(s) && Scannable(s) && i in s.inodes
    ensures |s.inodes[i].path| >= 1
    ensures forall q :: q in Kids(s.disk, s.inodes[i].path) <==>
                        q in s.index && s.index[q] in s.inodes[i].children
  {
    var t := s.inodes;
    PathNonEmpty(t, i);
    assert NodeOk(t, i);
    forall q | q in Kids(s.disk, t[i].path) ensures q in s.index && s.index[q] in t[i].children {
      var c := s.index[q];
      assert NodeOk(t, c);
      PathNonEmpty(t, c);
      SamePath(t, s.index, s.next, t[c].parent, i);
    }
    forall q | q in s.index && s.index[q] in t[i].children ensures q in Kids(s.disk, t[i].path) {
      var c := s.index[q];
      assert NodeOk(t, c);
      assert ParentPath(q) == t[i].path;
    }
  }

  lemma ChildrenSurvive(s: FS, s': FS, i: Id)
    requires WF(s) && Scannable(s) && i in s.inodes && i in s'.inodes && |s.inodes[i].path| >= 1
    requires forall p :: p in s.index ==> p in s'.index && s'.index[p] == s.index[p]
    requires Lists(s'.inodes, s'.index, s.inodes[i].path, Kids(s.disk, s.inodes[i].path))
    ensures Permutation(s.inodes[i].children, s'.inodes[i].children)
  {
    var t, t' := s.inodes, s'.inodes;
    KidsAre(s, i);
    assert NodeOk(t, i);
    forall c | c in t[i].children ensures c in t'[i].children {
      assert t[c].path in Kids(s.disk, t[i].path);
    }
    forall c | c in t'[i].children ensures c in t[i].children {
      var q :| q in Kids(s.disk, t[i].path) && s'.index[q] == c;
    }
  }

  /** After a restart the same inodes exist, under the same ids and paths, in the same tree. */
  lemma NothingElse(s: FS, s': FS, i: Id)
    requires WF(s) && Rescanned(s, s') && i in s'.inodes
    ensures i in s.inodes && s'.inodes[i].path == s.inodes[i].path
  {
    var p := s'.inodes[i].path;
    assert p in s.index;
  }

  /** What the scanner passes over: the directory of a user whose name starts with a dot, and anything called ".acl". */
  ghost predicate PassedOver(p: Path) {
    p == [] || "." <= p[0] || exists k :: 1 <= k < |p| && p[k] == ".acl"
  }

  /** The scan recovers every inode exactly when there is nothing it skips. */
  lemma RescanCompleteIff(s: FS, s': FS)
    requires WF(s) && Rescanned(s, s')
    ensures s'.inodes.Keys <= s.inodes.Keys
    ensures s'.inodes.Keys == s.inodes.Keys <==> Scannable(s)
    ensures Scannable(s) <==> forall i :: i in s.inodes ==> !PassedOver(s.inodes[i].path)
  {
    forall i | i in s'.inodes ensures i in s.inodes && Visible(s.inodes[i].path) { NothingElse(s, s', i); }
    if Scannable(s) {
      forall i | i in s.inodes ensures i in s'.inodes { InodeSurvives(s, s', i); }
    }
  }

  lemma IndexSurvives(s: FS, s': FS)
    requires WF(s) && Rescanned(s, s')
    ensures s'.index == s.index
  {
    assert forall p :: p in s'.index ==> p in s.index;
  }

  ghost predicate SameTree(t: Tree, t': Tree) {
    t'.Keys == t.Keys && forall i {:trigger SameInode(t[i], t'[i])} :: i in t ==> SameInode(t[i], t'[i])
  }

  lemma Member(b: seq<Id>)
    requires b != []
    ensures exists c :: c in b
  {
    assert b[0] in b;
  }

  lemma EmptyPermutation(a: seq<Id>, b: seq<Id>)
    requires Permutation(a, b) && a == []
    ensures b == []
  {
    if b != [] { Member(b); }
  }

  lemma SameTreeLinked(t: Tree, t': Tree)
    requires Linked(t) && SameTree(t, t')
    ensures Linked(t')
  {
    forall i | i in t' ensures NodeOk(t', i) {
      assert NodeOk(t, i) && SameInode(t[i], t'[i]) && SameInode(t[t[i].parent], t'[t[i].parent]);
      if !t[i].isDir { EmptyPermutation(t[i].children, t'[i].children); }
      forall c | c in t'[i].children ensures c in t' && t'[c].parent == i && c != i {
        assert SameInode(t[c], t'[c]);
      }
    }
  }

  /** Child order and sizes aside, the two tables are equal. */
  ghost predicate SameLinks(t: Tree, t': Tree) {
    t'.Keys == t.Keys && forall i :: i in t ==> t'[i] == t[i].(children := t'[i].children, size := t'[i].size)
  }

  lemma SameLinksKeep(t: Tree, t': Tree, users: map<string, Id>, index: map<Path, Id>, next: Id)
    requires SameLinks(t, t')
    ensures Indexed(t, index, next) ==> Indexed(t', index, next)
    ensures Rooted(t, users) ==> Rooted(t', users)
  {
  }

  lemma SameLinksAged(t: Tree, t': Tree, users: map<string, Id>)
    requires Linked(t) && SameLinks(t, t') && Aged(t) && Founded(t, users)
    ensures Aged(t') && Founded(t', users)
  {
    forall i | i in t' ensures Older(t', i) && HasFounder(t', users, i) {
      assert Older(t, i) && HasFounder(t, users, i) && NodeOk(t, i) && NodeOk(t, t[i].parent);
    }
  }

  lemma UsersSurvive(s: FS, s': FS)
    requires WF(s) && Scannable(s) && Rescanned(s, s')
    ensures s'.users == s.users
  {
    IndexSurvives(s, s');
    forall u | u in s.users ensures u in s'.users && s'.users[u] == s.users[u] {
      assert NodeOk(s.inodes, s.users[u]);
      assert [u] in s.index;
    }
    forall u | u in s'.users ensures u in s.users {
      var i := s.index[[u]];
      assert NodeOk(s.inodes, i);
      PathNonEmpty(s.inodes, i);
    }
  }

  /** A restart between operations gives every path its old inode id, the same parents and
      children and exact directory sums; only the restore metadata is gone. */
  lemma RescanRecovers(s: FS, s': FS)
    requires WF(s) && Scannable(s) && Rescanned(s, s')
    ensures SameTree(s.inodes, s'.inodes) && s'.index == s.index && s'.users == s.users && s'.trash == map[]
    ensures WF(s') && Summed(s'.inodes) && SizesOnDisk(s')
    ensures SizesOnDisk(s) ==> forall i :: i in s.inodes && !s.inodes[i].isDir ==> s'.inodes[i].size == s.inodes[i].size
  {
    RescanCompleteIff(s, s');
    forall i | i in s.inodes
      ensures SameInode(s.inodes[i], s'.inodes[i])
      ensures !s.inodes[i].isDir ==> s.inodes[i].path in s.disk && s.disk[s.inodes[i].path] == File(s'.inodes[i].size)
    {
      InodeSurvives(s, s', i);
    }
    IndexSurvives(s, s');
    UsersSurvive(s, s');
    RescanWF(s, s');
  }

  lemma RescanWF(s: FS, s': FS)
    requires WF(s) && SameTree(s.inodes, s'.inodes) && s'.index == s.index && s'.users == s.users
    requires s'.trash == map[] && s'.disk == s.disk && s'.next == s.next
    requires forall i :: i in s'.inodes && s'.inodes[i].isDir ==>
          SizeOk(s'.inodes, i)
    requires forall i :: i in s.inodes && !s.inodes[i].isDir ==>
          s.inodes[i].path in s.disk && s.disk[s.inodes[i].path] == File(s'.inodes[i].size)
    ensures WF(s') && Summed(s'.inodes) && SizesOnDisk(s')
  {
    SameTreeLinked(s.inodes, s'.inodes);
    assert forall i :: i in s.inodes ==> SameInode(s.inodes[i], s'.inodes[i]);
    SameLinksKeep(s.inodes, s'.inodes, s.users, s.index, s.next);
    SameLinksAged(s.inodes, s'.inodes, s.users);
    forall i | i in s'.inodes && s'.inodes[i].isDir ensures SumsUp(s'.inodes, i) {
      assert NodeOk(s'.inodes, i);
    }
  }
}
