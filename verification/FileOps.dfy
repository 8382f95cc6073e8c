/**
The fileserver's operations on its whole state: inode table, persistent
path-to-id index, trash metadata, explicit shares and the disk below them.
Each operation is a function from the old state to the new state and a reply,
with the branches of the code in the code's order.
*/
module FileOps {
  import opened Options
  import opened Paths
  import opened InodeTree

  datatype Entry = Dir | File(bytes: nat)

  datatype TrashEntry = TrashEntry(parent: Id, name: Name, relPath: Path, snapshots: map<Path, seq<string>>)

  datatype FS = FS(
    inodes: Tree,
    users: map<string, Id>,
    index: map<Path, Id>,
    next: Id,
    trash: map<Id, TrashEntry>,
    shared: map<Path, seq<string>>,
    disk: map<Path, Entry>,
    quotas: map<string, nat>)

  datatype Error =
    | InvalidName | ReservedName | NotFound | NotADirectory | NotAFile | InsideTrash
    | IsUserRoot | IsTrashDir | PermissionDenied | NotEmpty | AlreadyInTrash | NotInTrash
    | NoRestoreMetadata | UnknownUser | TrashIsNotADirectory | DiskFailure
    | OffsetOverflow | QuotaExceeded | DiskFull | SelfShare | AlreadyShared | NotShared

  datatype Reply = Done | Created(id: Id) | Placed(name: Name) | Failed(error: Error)

  /** What the operating system answers: may `.trash` be made, does the main disk call succeed, and
      does a file open for writing. */
  datatype Io = Io(mkTrash: bool, act: bool, open: bool)

  const MAX_UINT64: nat := 0xFFFF_FFFF_FFFF_FFFF
  const MAX_INT64: nat := 0x7FFF_FFFF_FFFF_FFFF
  const DEFAULT_QUOTA: nat := 16 * 1024 * 1024 * 1024

  // ---------------------------------------------------------------- invariant

  ghost predicate OnDisk(s: FS) {
    && s.disk.Keys == s.index.Keys
    && forall p :: p in s.disk && s.index[p] in s.inodes ==> (s.disk[p].Dir? <==> s.inodes[s.index[p]].isDir)
  }

  /** Restore metadata belongs to inodes lying directly in a trash directory; the
      remembered parent is older than the inode, and if alive is a directory of the same user
      other than its trash. */
  ghost predicate TrashOk(s: FS) {
    forall i {:trigger TrashEntryOk(s.inodes, i, s.trash[i])} :: i in s.trash ==> TrashEntryOk(s.inodes, i, s.trash[i])
  }

  ghost predicate TrashEntryOk(t: Tree, i: Id, m: TrashEntry) {
    && i in t && t[i].parent in t && IsTrash(t, t[i].parent)
    && m.parent < i
    && (forall p :: p in m.snapshots ==> Under(p, m.relPath))
    && (m.parent in t ==> t[m.parent].isDir && t[m.parent].owner == t[i].owner && !IsTrash(t, m.parent))
  }

  /** The tree, its paths, the index, the users, the trash metadata and the disk agree. */
  ghost predicate WF(s: FS) {
    && Linked(s.inodes)
    && Rooted(s.inodes, s.users)
    && Indexed(s.inodes, s.index, s.next)
    && Aged(s.inodes)
    && Founded(s.inodes, s.users)
    && OnDisk(s)
    && TrashOk(s)
  }

  /** Every file's cached size is its size on disk. */
  ghost predicate SizesOnDisk(s: FS) {
    forall i :: i in s.inodes && !s.inodes[i].isDir ==>
      s.inodes[i].path in s.disk && s.disk[s.inodes[i].path] == File(s.inodes[i].size)
  }

  // ---------------------------------------------------------------- lookups

  /** The first listed child with this name. */
  function FindChild(t: Tree, cs: seq<Id>, name: Name): (r: Option<Id>)
    ensures r.Some? ==> r.value in cs && r.value in t && t[r.value].name == name
    ensures r.None? ==> forall c :: c in cs && c in t ==> t[c].name != name
  {
    if cs == [] then None
    else if cs[0] in t && t[cs[0]].name == name then Some(cs[0])
    else FindChild(t, cs[1..], name)
  }

  function Digits(n: nat): string {
    if n < 10 then [('0' as int + n) as char] else Digits(n / 10) + [('0' as int + n % 10) as char]
  }

  /** The name itself if free in `d`, otherwise the name suffixed with the inode id. */
  function UniqueName(t: Tree, d: Id, desired: Name, i: Id): Name
    requires d in t
  {
    if FindChild(t, t[d].children, desired).None? then desired else desired + "__" + Digits(i)
  }

  function RootOf(t: Tree, i: Id): (r: Id)
    requires Linked(t) && i in t
    ensures r in t && IsRoot(t, r) && t[r].owner == t[i].owner
    decreases |t[i].path|
  {
    assert NodeOk(t, i);
    if IsRoot(t, i) then i else RootOf(t, t[i].parent)
  }

  function QuotaOf(quotas: map<string, nat>, user: string): nat {
    if user in quotas && quotas[user] > 0 then quotas[user] else DEFAULT_QUOTA
  }

  /** Looking an inode up re-reads a file's size from disk. */
  function Refresh(s: FS, i: Id): FS
    requires i in s.inodes
  {
    var n := s.inodes[i];
    if !n.isDir && n.path in s.disk && s.disk[n.path].File?
    then s.(inodes := s.inodes[i := n.(size := s.disk[n.path].bytes)])
    else s
  }

  lemma RefreshShape(s: FS, i: Id)
    requires i in s.inodes
    ensures SameShape(s.inodes, Refresh(s, i).inodes)
    ensures Refresh(s, i) == s.(inodes := Refresh(s, i).inodes)
  {
  }

  lemma RefreshWF(s: FS, i: Id)
    requires WF(s) && i in s.inodes
    ensures WF(Refresh(s, i))
  {
    RefreshShape(s, i);
    ShapeWF(s, Refresh(s, i).inodes);
  }

  /** Sizes play no part in the agreement of tree, index and disk. */
  lemma ShapeWF(s: FS, t': Tree)
    requires WF(s) && SameShape(s.inodes, t')
    ensures WF(s.(inodes := t'))
  {
    ShapeKeeps(s.inodes, t', s.users, s.index, s.next);
    TrashKept(s, s.(inodes := t'));
    DiskShape(s, t');
  }

  lemma DiskShape(s: FS, t': Tree)
    requires OnDisk(s) && Founded(s.inodes, s.users) && SameShape(s.inodes, t')
    ensures OnDisk(s.(inodes := t')) && Founded(t', s.users)
  {
    forall i | i in t' ensures HasFounder(t', s.users, i) { assert HasFounder(s.inodes, s.users, i); }
  }

  /** Metadata survives any change that keeps the nodes it talks about. */
  lemma TrashKept(s: FS, s': FS)
    requires TrashOk(s) && Linked(s.inodes) && s'.trash == s.trash
    requires forall j :: j in s.inodes ==> j in s'.inodes && Kept(s.inodes[j], s'.inodes[j])
    requires forall j :: j in s'.inodes && j !in s.inodes ==> j >= s.next
    requires forall j :: j in s.inodes ==> j < s.next
    ensures TrashOk(s')
  {
    forall j | j in s'.trash ensures TrashEntryOk(s'.inodes, j, s'.trash[j]) {
      assert TrashEntryOk(s.inodes, j, s.trash[j]);
      var p := s.trash[j].parent;
      if p in s.inodes { assert NodeOk(s.inodes, p); }
    }
  }

  ghost predicate Kept(n: Inode, n': Inode) {
    n'.isDir == n.isDir && n'.name == n.name && n'.owner == n.owner && n'.parent == n.parent
  }

  // ---------------------------------------------------------------- building blocks

  /** The id of a path, the index and the counter: a known path keeps its id, a new one takes the next. */
  function Assign(index: map<Path, Id>, next: Id, path: Path): (Id, map<Path, Id>, Id) {
    if path in index then (index[path], index, next) else (next, index[path := next], next + 1)
  }

  function AddNode(s: FS, p: Id, name: Name, isDir: bool): FS
    requires p in s.inodes
  {
    var path := s.inodes[p].path + [name];
    s.(inodes := Added(s.inodes, p, s.next, name, isDir),
       index := s.index[path := s.next],
       next := s.next + 1,
       disk := s.disk[path := if isDir then Dir else File(0)])
  }

  function MoveNode(s: FS, i: Id, to: Id, name: Name): FS
    requires i in s.inodes && to in s.inodes
  {
    var src, dst := s.inodes[i].path, s.inodes[to].path + [name];
    s.(inodes := Moved(s.inodes, i, to, name),
       index := RenamePrefix(s.index, src, dst),
       disk := RenamePrefix(s.disk, src, dst))
  }

  /** The metadata of inodes that are still there. */
  function TrashWithin(trash: map<Id, TrashEntry>, t: Tree): map<Id, TrashEntry> {
    map j | j in trash && j in t :: trash[j]
  }

  function DropNode(s: FS, i: Id): FS
    requires i in s.inodes
  {
    var base := s.inodes[i].path;
    var t := Dropped(s.inodes, i);
    s.(inodes := t,
       index := IndexWithout(s.index, base),
       disk := IndexWithout(s.disk, base),
       trash := TrashWithin(s.trash, t),
       shared := IndexWithout(s.shared, base))
  }

  /** The user's trash directory, created on first use. */
  function EnsureTrash(s: FS, user: string, io: Io): (r: (FS, Option<Id>))
    requires WF(s)
    ensures s.inodes.Keys <= r.0.inodes.Keys && r.0.trash == s.trash && r.0.users == s.users
    ensures r.1.Some? ==> r.1.value in r.0.inodes && user in s.users && s.users[user] in r.0.inodes
  {
    if user !in s.users then (s, None)
    else
      var root := s.users[user];
      match FindChild(s.inodes, s.inodes[root].children, TRASH_DIR)
      case Some(c) => (s, if s.inodes[c].isDir then Some(c) else None)
      case None => if io.mkTrash then (AddNode(s, root, TRASH_DIR, true), Some(s.next)) else (s, None)
  }

  // ---------------------------------------------------------------- first login

  function OpenRoot(s: FS, user: string, io: Io): (FS, Reply)
    requires WF(s)
  {
    if user !in s.users && !io.act then (s, Failed(DiskFailure))
    else
      var s0 := if user in s.users then s else NewRoot(s, user);
      NewRootWF(s, user);
      var (s1, tr) := EnsureTrash(s0, user, io);
      (s1, if tr.Some? then Created(s1.users[user]) else Failed(TrashIsNotADirectory))
  }

  function NewRoot(s: FS, user: string): FS {
    s.(inodes := AddedRoot(s.inodes, s.next, user),
       users := s.users[user := s.next],
       index := s.index[[user] := s.next],
       next := s.next + 1,
       disk := s.disk[[user] := Dir])
  }

  lemma NewRootWF(s: FS, user: string)
    requires WF(s)
    ensures user !in s.users ==> WF(NewRoot(s, user))
  {
    if user !in s.users {
      var t, t' := s.inodes, NewRoot(s, user).inodes;
      RootPathFresh(t, s.users, s.index, s.next, user);
      AddRootIndexed(t, s.index, s.next, user);
      AddRootRooted(t, s.users, s.next, user);
      AddRootLinked(t, s.next, user);
      AddRootDisk(s, user);
      TrashKept(s, NewRoot(s, user));
    }
  }

  lemma AddRootDisk(s: FS, user: string)
    requires OnDisk(s) && Founded(s.inodes, s.users) && user !in s.users && s.next !in s.inodes
    requires forall p :: p in s.index ==> s.index[p] in s.inodes
    ensures Founded(NewRoot(s, user).inodes, NewRoot(s, user).users)
    ensures OnDisk(NewRoot(s, user))
  {
    var s' := NewRoot(s, user);
    forall i | i in s'.inodes ensures HasFounder(s'.inodes, s'.users, i) {
      if i != s.next { assert HasFounder(s.inodes, s.users, i); }
    }
  }

  // ---------------------------------------------------------------- create

  predicate ValidName(name: Name) {
    name != "" && name != "." && name != ".." && '/' !in name && '\\' !in name
  }

  predicate Reserved(name: Name) {
    name == TRASH_DIR || name == ".dvfs_inodes_index.json" || name == "quota_config.json" || ".dvfs_" <= name
  }

  function Create(s: FS, p: Id, name: Name, user: string, isDir: bool, io: Io): (FS, Reply)
    requires WF(s)
  {
    if !ValidName(name) then (s, Failed(InvalidName))
    else if Reserved(name) then (s, Failed(ReservedName))
    else if p !in s.inodes then (s, Failed(NotFound))
    else
      var s0 := Refresh(s, p);
      if !s.inodes[p].isDir then (s0, Failed(NotADirectory))
      else
        match FindChild(s.inodes, s.inodes[p].children, name)
        case Some(c) => (s, Created(c))
        case None => CreateIn(s, p, name, user, isDir, io)
  }

  function CreateIn(s: FS, p: Id, name: Name, user: string, isDir: bool, io: Io): (FS, Reply)
    requires WF(s) && p in s.inodes
  {
    var (s1, tr) := EnsureTrash(s, user, io);
    if tr.Some? && Under(s.inodes[p].path, s1.inodes[tr.value].path) then (s1, Failed(InsideTrash))
    else if !io.act then (s1, Failed(DiskFailure))
    else (AddNode(s1, p, name, isDir), Created(s1.next))
  }

  // ---------------------------------------------------------------- trash

  predicate IsTrashFor(s: FS, i: Id, user: string)
    requires i in s.inodes
  {
    s.inodes[i].name == TRASH_DIR && user in s.users && s.inodes[i].parent == s.users[user]
  }

  /** Checks shared by trash and delete, in order. */
  function Guard(s: FS, i: Id, user: string, recursive: bool): Option<Error>
    requires i in s.inodes
  {
    if user in s.users && s.users[user] == i then Some(IsUserRoot)
    else if IsTrashFor(s, i, user) then Some(IsTrashDir)
    else if s.inodes[i].owner != user then Some(PermissionDenied)
    else if s.inodes[i].children != [] && !recursive then Some(NotEmpty)
    else None
  }

  function SharesUnder(shared: map<Path, seq<string>>, base: Path): map<Path, seq<string>> {
    map p | p in shared && Under(p, base) :: shared[p]
  }

  function Trash(s: FS, i: Id, user: string, recursive: bool, io: Io): (FS, Reply)
    requires WF(s)
  {
    if i !in s.inodes then (s, Failed(NotFound))
    else
      var s0 := Refresh(s, i);
      match Guard(s0, i, user, recursive)
      case Some(e) => (s0, Failed(e))
      case None =>
        RefreshWF(s, i);
        var (s1, tr) := EnsureTrash(s0, user, io);
        if tr.None? then (s1, Failed(TrashIsNotADirectory))
        else if s1.inodes[i].parent == tr.value then (s1, Failed(AlreadyInTrash))
        else if !io.act then (s1, Failed(DiskFailure))
        else
          var name := UniqueName(s1.inodes, tr.value, s1.inodes[i].name, i);
          (TrashMove(s1, i, tr.value, name), Placed(name))
  }

  function TrashMove(s: FS, i: Id, tr: Id, name: Name): FS
    requires i in s.inodes && tr in s.inodes
  {
    var n := s.inodes[i];
    MoveNode(s, i, tr, name).(
      trash := s.trash[i := TrashEntry(n.parent, n.name, n.path, SharesUnder(s.shared, n.path))],
      shared := IndexWithout(s.shared, n.path))
  }

  // ---------------------------------------------------------------- restore

  /** Append the users not already listed. */
  function Merge(have: seq<string>, more: seq<string>): seq<string>
    decreases more
  {
    if more == [] then have
    else Merge(if more[0] in have then have else have + [more[0]], more[1..])
  }

  /** Snapshots come back under the new path, joined with what is already shared there. */
  function Reattach(shared: map<Path, seq<string>>, snapshots: map<Path, seq<string>>, src: Path, dst: Path): map<Path, seq<string>> {
    var back := RenamePrefix(snapshots, src, dst);
    map p | p in shared.Keys + back.Keys ::
      if p in back then Merge(if p in shared then shared[p] else [], back[p]) else shared[p]
  }

  /** The remembered parent if it is alive, otherwise the user's root. */
  function RestoreTarget(s: FS, i: Id, user: string): Id
    requires i in s.trash && user in s.users
  {
    if s.trash[i].parent in s.inodes then s.trash[i].parent else s.users[user]
  }

  function Restore(s: FS, i: Id, user: string, mayAccess: bool, io: Io): (FS, Reply)
    requires WF(s)
  {
    if i !in s.inodes then (s, Failed(NotFound))
    else
      var s0 := Refresh(s, i);
      if !mayAccess then (s0, Failed(PermissionDenied))
      else
        RefreshWF(s, i);
        var (s1, tr) := EnsureTrash(s0, user, io);
        if tr.None? then (s1, Failed(TrashIsNotADirectory))
        else if s1.inodes[i].parent != tr.value then (s1, Failed(NotInTrash))
        else if i !in s1.trash then (s1, Failed(NoRestoreMetadata))
        else
          var to := RestoreTarget(s1, i, user);
          if !s1.inodes[to].isDir then (s1, Failed(NotADirectory))
          else if !io.act then (s1, Failed(DiskFailure))
          else
            var name := UniqueName(s1.inodes, to, s1.trash[i].name, i);
            (RestoreMove(s1, i, to, name), Placed(name))
  }

  function RestoreMove(s: FS, i: Id, to: Id, name: Name): FS
    requires i in s.inodes && to in s.inodes && i in s.trash
  {
    var m := s.trash[i];
    MoveNode(s, i, to, name).(
      trash := s.trash - {i},
      shared := Reattach(s.shared, m.snapshots, m.relPath, s.inodes[to].path + [name]))
  }

  // ---------------------------------------------------------------- delete

  function Delete(s: FS, i: Id, user: string, recursive: bool, io: Io): (FS, Reply)
    requires WF(s)
  {
    if i !in s.inodes then (s, Failed(NotFound))
    else
      var s0 := Refresh(s, i);
      match Guard(s0, i, user, recursive)
      case Some(e) => (s0, Failed(e))
      case None => if !io.act then (s0, Failed(DiskFailure)) else (DropNode(s0, i), Done)
  }

  // ---------------------------------------------------------------- explicit shares

  function ListAt(shared: map<Path, seq<string>>, p: Path): seq<string> {
    if p in shared then shared[p] else []
  }

  function WithoutUser(users: seq<string>, user: string): seq<string> {
    if users == [] then []
    else if users[0] == user then WithoutUser(users[1..], user)
    else [users[0]] + WithoutUser(users[1..], user)
  }

  /** The share table with one more explicit share, without duplicates. */
  function Granted(shared: map<Path, seq<string>>, p: Path, grantee: string): map<Path, seq<string>> {
    shared[p := if grantee in ListAt(shared, p) then ListAt(shared, p) else ListAt(shared, p) + [grantee]]
  }

  /** Without it; a directory shared with nobody has no entry. */
  function Revoked(shared: map<Path, seq<string>>, p: Path, grantee: string): map<Path, seq<string>> {
    if p !in shared then shared
    else if WithoutUser(shared[p], grantee) == [] then shared - {p}
    else shared[p := WithoutUser(shared[p], grantee)]
  }

  /** `hasAccess` says whether the grantee is on the directory's access list. */
  function Share(s: FS, i: Id, user: string, grantee: string, hasAccess: bool): (FS, Reply) {
    if i !in s.inodes then (s, Failed(NotFound))
    else
      var s0 := Refresh(s, i);
      var n := s0.inodes[i];
      if !n.isDir then (s0, Failed(NotADirectory))
      else if n.owner != user then (s0, Failed(PermissionDenied))
      else if grantee == n.owner then (s0, Failed(SelfShare))
      else if hasAccess then (s0, Failed(AlreadyShared))
      else (s0.(shared := Granted(s0.shared, n.path, grantee)), Done)
  }

  function Unshare(s: FS, i: Id, user: string, grantee: string, hasAccess: bool): (FS, Reply) {
    if i !in s.inodes then (s, Failed(NotFound))
    else
      var s0 := Refresh(s, i);
      var n := s0.inodes[i];
      if n.owner != user then (s0, Failed(PermissionDenied))
      else if grantee == n.owner then (s0, Failed(SelfShare))
      else if !hasAccess then (s0, Failed(NotShared))
      else (s0.(shared := Revoked(s0.shared, n.path, grantee)), Done)
  }

  // ---------------------------------------------------------------- write

  function AsInt64(x: nat): int {
    if x <= MAX_INT64 then x else x - (MAX_UINT64 + 1)
  }

  /** Two's-complement wrap-around of a 64-bit signed result. */
  function WrapInt64(x: int): int {
    (x + (MAX_INT64 + 1)) % (MAX_UINT64 + 1) - (MAX_INT64 + 1)
  }

  /** Add `d` to the size of `i` and of everything above it, in 64-bit arithmetic. */
  function Resized(t: Tree, i: Id, d: int): Tree
    requires i in t
  {
    map j | j in t ::
      if Under(t[i].path, t[j].path) then t[j].(size := (t[j].size + d) % (MAX_UINT64 + 1)) else t[j]
  }

  /** The offsets the operating system can address; an empty write touches nothing. */
  predicate Addressable(offset: nat, len: nat) {
    offset <= MAX_INT64 && (len > 0 ==> offset + len <= MAX_INT64)
  }

  function NewSize(size: nat, offset: nat, len: nat): nat {
    if offset + len > size then offset + len else size
  }

  /** The change of size, computed in signed 64-bit arithmetic. */
  function SizeDiff(size: nat, offset: nat, len: nat): int {
    WrapInt64(AsInt64(NewSize(size, offset, len)) - AsInt64(size))
  }

  /** The pre-flight check of a write that adds `diff` bytes. */
  predicate OverQuota(rootSize: nat, quota: nat, diff: int) {
    diff > 0 && (diff > quota || rootSize > quota - diff)
  }

  function Write(s: FS, p: Id, name: Name, offset: nat, len: nat, roomOnDisk: bool, io: Io): (FS, Reply)
    requires WF(s) && offset <= MAX_UINT64 && len <= MAX_UINT64
  {
    if p !in s.inodes then (s, Failed(NotFound))
    else
      var s0 := Refresh(s, p);
      match FindChild(s0.inodes, s0.inodes[p].children, name)
      case None => (s0, Failed(NotFound))
      case Some(c) => RefreshWF(s, p); WriteChild(s0, c, offset, len, roomOnDisk, io)
  }

  function WriteChild(s: FS, c: Id, offset: nat, len: nat, roomOnDisk: bool, io: Io): (FS, Reply)
    requires WF(s) && c in s.inodes && offset <= MAX_UINT64 && len <= MAX_UINT64
  {
    var diff := SizeDiff(s.inodes[c].size, offset, len);
    var root := s.inodes[RootOf(s.inodes, c)];
    if s.inodes[c].isDir then (s, Failed(NotAFile))
    else if !io.open then (s, Failed(DiskFailure))
    else if MAX_UINT64 - offset < len then (s, Failed(OffsetOverflow))
    else if OverQuota(root.size, QuotaOf(s.quotas, root.name), diff) then (s, Failed(QuotaExceeded))
    else if diff > 0 && !roomOnDisk then (s, Failed(DiskFull))
    else if !io.act || !Addressable(offset, len) then (s, Failed(DiskFailure))
    else (WriteAt(s, c, offset, len, diff), Done)
  }

  function WriteAt(s: FS, c: Id, offset: nat, len: nat, diff: int): FS
    requires c in s.inodes
  {
    var path := s.inodes[c].path;
    s.(inodes := if diff != 0 then Resized(s.inodes, c, diff) else s.inodes,
       disk := if path in s.disk && s.disk[path].File? && len > 0
               then s.disk[path := File(NewSize(s.disk[path].bytes, offset, len))]
               else s.disk)
  }
}
