/**
Where the fileserver's guarantees stop: for each condition the other modules prove
necessary, a concrete state and call that violates it.
*/
module FileLimits {
  import opened Options
  import opened Paths
  import opened InodeTree
  import opened FileOps
  import opened FileSafety
  import opened FileSizes
  import opened Rescan
  import opened QuotaRuns
  import opened FileTotals
  import opened FileRuns
  import opened TrashedBytes

  /** One user, an empty trash directory, and one file of `n` bytes. */
  function Small(n: nat): FS {
    FS(map[0 := Inode(true, "u", ["u"], "u", 0, [1, 2], n),
           1 := Inode(true, ".trash", ["u", ".trash"], "u", 0, [], 0),
           2 := Inode(false, "a", ["u", "a"], "u", 0, [], n)],
       map["u" := 0],
       map[["u"] := 0, ["u", ".trash"] := 1, ["u", "a"] := 2],
       3, map[], map[],
       map[["u"] := Dir, ["u", ".trash"] := Dir, ["u", "a"] := File(n)],
       map[])
  }

  lemma SmallWF(n: nat)
    ensures WF(Small(n))
  {
    var s := Small(n);
    assert s.inodes[1].path == s.inodes[0].path + [".trash"];
    assert s.inodes[2].path == s.inodes[0].path + ["a"];
    forall i | i in s.inodes ensures NodeOk(s.inodes, i) && Older(s.inodes, i) && HasFounder(s.inodes, s.users, i) { }
    SmallIndexed(n);
  }

  lemma SmallIndexed(n: nat)
    ensures var s := Small(n); Indexed(s.inodes, s.index, s.next) && OnDisk(s)
  {
    var s := Small(n);
    assert s.index.Keys == {["u"], ["u", ".trash"], ["u", "a"]};
    assert s.disk.Keys == {["u"], ["u", ".trash"], ["u", "a"]};
    assert ["u", ".trash"][1] != ["u", "a"][1];
    assert |["u"]| == 1;
  }

  lemma SmallExact(n: nat)
    requires n <= MAX_INT64
    ensures Exact(Small(n))
  {
    SmallWF(n);
    var s := Small(n);
    hide Linked, Rooted, Indexed, Aged, Founded, OnDisk, TrashOk;
    SmallSums(n);
  }

  lemma SmallSums(n: nat)
    requires WF(Small(n))
    ensures Summed(Small(n).inodes)
  {
    hide Rooted, Indexed, Aged, Founded, OnDisk, TrashOk;
    var t := Small(n).inodes;
    assert [1, 2][1..] == [2] && [2][1..] == [];
    assert SumOf(t, [2]) == n;
    assert SumOf(t, [1, 2]) == n;
    forall i | i in t && t[i].isDir ensures SumsUp(t, i) { }
  }

  lemma SmallLookup(s: FS)
    requires s == Small(0) && WF(s)
    ensures FindChild(s.inodes, [1, 2], "a") == Some(2) && RootOf(s.inodes, 2) == 0
  {
    hide Rooted, Indexed, Aged, Founded, OnDisk, TrashOk;
    assert [1, 2][1..] == [2];
    assert |".trash"| != |"a"|;
    assert NodeOk(s.inodes, 0);
  }

  /** An empty write one byte past the end is accepted and grows the cached size, not the file. */
  lemma EmptyWriteLeavesDisk() returns (s: FS, s': FS)
    ensures Exact(s) && Write(s, 0, "a", 1, 0, true, OK) == (s', Done) && !SizesOnDisk(s')
  {
    s := Small(0);
    SmallExact(0);
    hide Rooted, Indexed, Aged, Founded, OnDisk, TrashOk, SizesOnDisk, Summed;
    SmallLookup(s);
    s' := Write(s, 0, "a", 1, 0, true, OK).0;
    var c := WriteKeepsSizesIff(s, 0, "a", 1, 0, true, OK, s');
  }

  /** A file in the trash still counts where it was: the trash directory's size misses it. */
  lemma TrashBreaksSums() returns (s: FS, i: Id, to: Id)
    ensures Exact(s) && i in s.inodes && to in s.inodes
    ensures Linked(Moved(s.inodes, i, to, "a")) && !Summed(Moved(s.inodes, i, to, "a"))
  {
    s, i, to := Small(1), 2, 1;
    SmallExact(1);
    assert ["u", ".trash"][1] != ["u", "a"][1];
    assert CanMove(s.inodes, 2, 1);
    MoveKeepsSumsIff(s.inodes, s.index, s.next, 2, 1, "a");
  }

  lemma OnlyVisible(s: FS, s': FS, i: Id)
    requires Rescanned(s, s') && i in s'.inodes
    ensures Visible(s'.inodes[i].path)
  {
  }

  /** A file may be called ".acl", and no rescan finds it again. */
  lemma AclFileIsLost(s: FS, s': FS, i: Id)
    requires WF(s) && i in s.inodes && s.inodes[i].name == ".acl" && !IsRoot(s.inodes, i) && Rescanned(s, s')
    ensures ValidName(".acl") && !Reserved(".acl") && i !in s'.inodes
  {
    hide Rescanned, Rooted, Aged, Founded, OnDisk, TrashOk;
    assert NodeOk(s.inodes, i);
    PathNonEmpty(s.inodes, i);
    var p := s.inodes[i].path;
    assert p[|p| - 1] == ".acl";
    assert !Visible(p);
    if i in s'.inodes { NothingElse(s, s', i); OnlyVisible(s, s', i); assert false; }
    assert ".acl"[1] != ".dvfs_"[1];
  }

  /** A trash in which both the plain and the suffixed name of inode 4 are taken. */
  function Crowded(): FS {
    FS(map[0 := Inode(true, "u", ["u"], "u", 0, [1, 4], 0),
           1 := Inode(true, ".trash", ["u", ".trash"], "u", 0, [2, 3], 0),
           2 := Inode(false, "a", ["u", ".trash", "a"], "u", 1, [], 0),
           3 := Inode(false, "a__4", ["u", ".trash", "a__4"], "u", 1, [], 0),
           4 := Inode(false, "a", ["u", "a"], "u", 0, [], 0)],
       map["u" := 0],
       map[["u"] := 0, ["u", ".trash"] := 1, ["u", ".trash", "a"] := 2, ["u", ".trash", "a__4"] := 3, ["u", "a"] := 4],
       5, map[], map[],
       map[["u"] := Dir, ["u", ".trash"] := Dir, ["u", ".trash", "a"] := File(0), ["u", ".trash", "a__4"] := File(0), ["u", "a"] := File(0)],
       map[])
  }

  lemma CrowdedNode(i: Id)
    requires i in Crowded().inodes
    ensures NodeOk(Crowded().inodes, i)
  {
    var t := Crowded().inodes;
    if i != 0 { assert t[i].path == t[t[i].parent].path + [t[i].name]; }
  }

  lemma CrowdedWF()
    ensures WF(Crowded())
  {
    var s := Crowded();
    CrowdedIndexed();
    CrowdedOnDisk();
    hide Indexed, OnDisk;
    forall i | i in s.inodes ensures NodeOk(s.inodes, i) { CrowdedNode(i); }
    CrowdedAges();
  }

  lemma CrowdedAges()
    ensures var s := Crowded(); Aged(s.inodes) && Founded(s.inodes, s.users) && Rooted(s.inodes, s.users)
  {
  }

  lemma CrowdedKeys()
    ensures Crowded().index.Keys == {["u"], ["u", ".trash"], ["u", ".trash", "a"], ["u", ".trash", "a__4"], ["u", "a"]}
    ensures Crowded().disk.Keys == Crowded().index.Keys
  {
  }

  lemma CrowdedIndexed()
    ensures var s := Crowded(); Indexed(s.inodes, s.index, s.next)
  {
    var s := Crowded();
    CrowdedKeys();
    forall i | i in s.inodes ensures i < s.next && s.inodes[i].path in s.index && s.index[s.inodes[i].path] == i { CrowdedListed(i); }
  }

  lemma CrowdedListed(i: Id)
    requires i in Crowded().inodes
    ensures var s := Crowded(); i < s.next && s.inodes[i].path in s.index && s.index[s.inodes[i].path] == i
  {
    assert ["u", ".trash"][1] != ["u", "a"][1];
    assert ["u", ".trash", "a"][2] != ["u", ".trash", "a__4"][2];
  }

  lemma CrowdedOnDisk()
    ensures OnDisk(Crowded())
  {
    CrowdedKeys();
  }

  lemma CrowdedName()
    ensures var t := Crowded().inodes; UniqueName(t, 1, "a", 4) == "a__4" && !NameFree(t, 1, "a__4")
  {
    var t := Crowded().inodes;
    assert Digits(4) == "4";
    assert FindChild(t, [2, 3], "a") == Some(2);
    assert 3 in t[1].children;
  }

  lemma CrowdedTrashes()
    requires WF(Crowded())
    ensures Trash(Crowded(), 4, "u", false, OK).1 == Placed("a__4")
  {
    hide WF;
    var s := Crowded();
    assert Refresh(s, 4) == s;
    assert FindChild(s.inodes, [1, 4], ".trash") == Some(1);
    CrowdedName();
  }

  /** The suffixed name is not looked up again: trashing inode 4 puts two files under one path. */
  lemma SuffixedNameClash() returns (s: FS, s': FS)
    ensures WF(s) && Trash(s, 4, "u", false, OK) == (s', Placed("a__4")) && !WF(s')
  {
    hide WF, Trash, TrashNameFree;
    s := Crowded();
    CrowdedWF();
    s' := Trash(s, 4, "u", false, OK).0;
    CrowdedTrashes();
    CrowdedTaken();
    TrashKeepsAgreementIff(s, 4, "u", false, OK);
  }

  lemma CrowdedTaken()
    ensures 4 in Crowded().inodes && !TrashNameFree(Crowded(), 4, "u")
  {
    hide UniqueName, NameFree;
    CrowdedName();
    assert TrashOf(Crowded(), "u", 1);
  }

  /** A directory whose one file has been trashed: the byte is still counted in the directory. */
  function Emptied(): FS {
    FS(map[0 := Inode(true, "u", ["u"], "u", 0, [1, 2], 1),
           1 := Inode(true, ".trash", ["u", ".trash"], "u", 0, [3], 0),
           2 := Inode(true, "d", ["u", "d"], "u", 0, [], 1),
           3 := Inode(false, "f", ["u", ".trash", "f"], "u", 1, [], 1)],
       map["u" := 0],
       map[["u"] := 0, ["u", ".trash"] := 1, ["u", "d"] := 2, ["u", ".trash", "f"] := 3],
       4, map[3 := TrashEntry(2, "f", ["u", "d", "f"], map[])], map[],
       map[["u"] := Dir, ["u", ".trash"] := Dir, ["u", "d"] := Dir, ["u", ".trash", "f"] := File(1)],
       map[])
  }

  lemma EmptiedNode(i: Id)
    requires i in Emptied().inodes
    ensures NodeOk(Emptied().inodes, i)
  {
    var t := Emptied().inodes;
    if i != 0 { assert t[i].path == t[t[i].parent].path + [t[i].name]; }
  }

  lemma EmptiedListed(i: Id)
    requires i in Emptied().inodes
    ensures var s := Emptied(); i < s.next && s.inodes[i].path in s.index && s.index[s.inodes[i].path] == i
  {
    assert ["u", ".trash"][1] != ["u", "d"][1];
  }

  lemma EmptiedIndexed()
    ensures var s := Emptied(); Indexed(s.inodes, s.index, s.next) && OnDisk(s)
  {
    var s := Emptied();
    assert s.index.Keys == {["u"], ["u", ".trash"], ["u", "d"], ["u", ".trash", "f"]} == s.disk.Keys;
    forall i | i in s.inodes ensures i < s.next && s.inodes[i].path in s.index && s.index[s.inodes[i].path] == i { EmptiedListed(i); }
  }

  lemma EmptiedWF()
    ensures WF(Emptied())
  {
    var s := Emptied();
    EmptiedIndexed();
    hide Indexed, OnDisk;
    forall i | i in s.inodes ensures NodeOk(s.inodes, i) { EmptiedNode(i); }
    EmptiedAges();
  }

  lemma EmptiedAges()
    ensures var s := Emptied(); Aged(s.inodes) && Founded(s.inodes, s.users) && Rooted(s.inodes, s.users) && TrashOk(s)
  {
    var s := Emptied();
    assert TrashEntryOk(s.inodes, 3, s.trash[3]);
  }

  lemma EmptiedSound()
    ensures Sound(Emptied()) && !Accounted(Emptied().inodes, 2)
  {
    EmptiedWF();
    hide Indexed, OnDisk, Rooted, Aged, Founded, TrashOk, RootOf, Totals;
    var t := Emptied().inodes;
    EmptiedTotals();
    assert ["u", ".trash", "f"][1] != ["u", "d"][1];
    assert FilesUnder(t, ["u", "d"]) == {};
    OnlyRoot(Emptied());
  }

  lemma EmptiedTotals()
    ensures Totals(Emptied().inodes)
  {
    var t := Emptied().inodes;
    assert FilesOf(t, "u") == {3};
    WeightTake(t, {3}, 3);
    assert {3} - {3} == {};
    forall r | r in t ensures TotalOk(t, r) { }
  }

  lemma OnlyRoot(s: FS)
    requires s == Emptied() && Linked(s.inodes)
    ensures RootOf(s.inodes, 2) == 0
  {
    assert NodeOk(s.inodes, 0);
  }

  /** Deleting the emptied directory takes the trashed byte off the root's total, though it is still on disk. */
  lemma DeleteAfterTrashUndercounts() returns (s: FS, s': FS)
    ensures Sound(s) && Delete(s, 2, "u", false, OK) == (s', Done) && !Conserved(s')
  {
    s := Emptied();
    EmptiedSound();
    hide Linked, Indexed, OnDisk, Rooted, Aged, Founded, TrashOk, Conserved, QuotaSafe, Accounted, DropNode;
    s' := Delete(s, 2, "u", false, OK).0;
    DeleteConservesIff(s, 2, "u", false, OK, s', Delete(s, 2, "u", false, OK).1);
  }

  /** A user with the largest quota, and a directory with three empty files. */
  function Roomy(): FS {
    FS(map[0 := Inode(true, "u", ["u"], "u", 0, [1, 2], 0),
           1 := Inode(true, ".trash", ["u", ".trash"], "u", 0, [], 0),
           2 := Inode(true, "d", ["u", "d"], "u", 0, [3, 4, 5], 0),
           3 := Inode(false, "f", ["u", "d", "f"], "u", 2, [], 0),
           4 := Inode(false, "g", ["u", "d", "g"], "u", 2, [], 0),
           5 := Inode(false, "h", ["u", "d", "h"], "u", 2, [], 0)],
       map["u" := 0],
       map[["u"] := 0, ["u", ".trash"] := 1, ["u", "d"] := 2, ["u", "d", "f"] := 3, ["u", "d", "g"] := 4, ["u", "d", "h"] := 5],
       6, map[], map[],
       map[["u"] := Dir, ["u", ".trash"] := Dir, ["u", "d"] := Dir, ["u", "d", "f"] := File(0), ["u", "d", "g"] := File(0), ["u", "d", "h"] := File(0)],
       map["u" := MAX_UINT64])
  }

  lemma RoomyNode(i: Id)
    requires i in Roomy().inodes
    ensures NodeOk(Roomy().inodes, i)
  {
    var t := Roomy().inodes;
    if i != 0 { assert t[i].path == t[t[i].parent].path + [t[i].name]; }
  }

  lemma RoomyKeys()
    ensures Roomy().index.Keys == {["u"], ["u", ".trash"], ["u", "d"], ["u", "d", "f"], ["u", "d", "g"], ["u", "d", "h"]}
    ensures Roomy().disk.Keys == Roomy().index.Keys
  {
  }

  lemma RoomyListed(i: Id)
    requires i in Roomy().inodes
    ensures var s := Roomy(); i < s.next && s.inodes[i].path in s.index && s.index[s.inodes[i].path] == i
  {
    assert ["u", ".trash"][1] != ["u", "d"][1];
    assert ["u", "d", "f"][2] != ["u", "d", "g"][2] && ["u", "d", "g"][2] != ["u", "d", "h"][2] && ["u", "d", "f"][2] != ["u", "d", "h"][2];
  }

  lemma RoomyFound(p: Path)
    requires p in Roomy().index
    ensures var s := Roomy(); s.index[p] in s.inodes && s.inodes[s.index[p]].path == p
  {
    RoomyKeys();
  }

  lemma RoomyIndexed()
    ensures var s := Roomy(); Indexed(s.inodes, s.index, s.next)
  {
    hide Roomy;
    var s := Roomy();
    forall i | i in s.inodes ensures i < s.next && s.inodes[i].path in s.index && s.index[s.inodes[i].path] == i { RoomyListed(i); }
    forall p | p in s.index ensures s.index[p] in s.inodes && s.inodes[s.index[p]].path == p { RoomyFound(p); }
  }

  lemma RoomyOnDisk()
    ensures OnDisk(Roomy())
  {
    RoomyKeys();
  }

  lemma RoomyAges()
    ensures var s := Roomy(); Aged(s.inodes) && Founded(s.inodes, s.users) && Rooted(s.inodes, s.users)
  {
  }

  lemma RoomyWF()
    ensures WF(Roomy())
  {
    var s := Roomy();
    RoomyIndexed();
    RoomyOnDisk();
    hide Indexed, OnDisk;
    forall i | i in s.inodes ensures NodeOk(s.inodes, i) { RoomyNode(i); }
    RoomyAges();
  }

  function NameOf(c: Id): Name {
    if c == 3 then "f" else if c == 4 then "g" else "h"
  }

  /** The inodes of `Roomy` once the directory lists `files`, all empty, and has the cached size `x`. */
  function HollowNode(x: nat, files: seq<Id>, j: Id): Inode {
    if j == 0 then Inode(true, "u", ["u"], "u", 0, [1, 2], 0)
    else if j == 1 then Inode(true, ".trash", ["u", ".trash"], "u", 0, [], 0)
    else if j == 2 then Inode(true, "d", ["u", "d"], "u", 0, files, x)
    else Inode(false, NameOf(j), ["u", "d", NameOf(j)], "u", 2, [], 0)
  }

  ghost predicate IsHollow(t: Tree, x: nat, files: seq<Id>) {
    && 0 in t && 1 in t && 2 in t
    && (forall j :: j in t ==> j <= 2 || j in files)
    && (forall c :: c in files ==> c in t && 3 <= c <= 5)
    && (forall j :: j in t ==> t[j] == HollowNode(x, files, j))
  }

  /** The directory's cached size is `x`, though the disk has only `files` in it, all of them empty. */
  ghost predicate Hollow(s: FS, x: nat, files: seq<Id>) {
    && WF(s) && s.users == map["u" := 0] && s.quotas == map["u" := MAX_UINT64] && IsHollow(s.inodes, x, files)
    && forall c :: c in files ==> EmptyOnDisk(s.disk, c)
  }

  ghost predicate EmptyOnDisk(disk: map<Path, Entry>, c: Id) {
    var p := ["u", "d", NameOf(c)];
    p in disk && disk[p] == File(0)
  }

  lemma HollowStart()
    ensures Hollow(Roomy(), 0, [3, 4, 5])
  {
    hide WF, Roomy, EmptyOnDisk, IsHollow;
    RoomyWF();
    RoomyDisk();
    RoomyIsHollow();
    RoomyUsers();
  }

  lemma RoomyUsers()
    ensures Roomy().users == map["u" := 0] && Roomy().quotas == map["u" := MAX_UINT64]
  {
  }

  lemma RoomyIsHollow()
    ensures IsHollow(Roomy().inodes, 0, [3, 4, 5])
  {
    var t := Roomy().inodes;
    forall j | j in t ensures t[j] == HollowNode(0, [3, 4, 5], j) { }
  }

  lemma RoomyDisk()
    ensures forall c :: c in [3, 4, 5] ==> EmptyOnDisk(Roomy().disk, c)
  {
  }

  lemma HollowRoot(s: FS, x: nat, files: seq<Id>, c: Id)
    requires Hollow(s, x, files) && c in files
    ensures RootOf(s.inodes, c) == 0
  {
    hide Indexed, OnDisk, Aged, Founded, TrashOk, RootOf;
    var r := RootOf(s.inodes, c);
    assert s.inodes[r].name in s.users;
  }

  lemma HollowCanCycle(s: FS, x: nat, c: Id, rest: seq<Id>, n: nat)
    requires Hollow(s, x, [c] + rest) && 0 < n <= MAX_INT64 && x + n <= MAX_UINT64
    ensures CanCycle(s, 2, NameOf(c), c, n, "u", 1)
  {
    hide WF, RootOf, NameOf;
    var files := [c] + rest;
    assert c in files && files[0] == c;
    HollowRoot(s, x, files, c);
    forall j | j in s.inodes ensures s.inodes[j].size <= x { }
  }

  /** One more round of write, trash and delete. */
  lemma HollowCycle(s: FS, x: nat, c: Id, rest: seq<Id>, n: nat) returns (s1: FS, s2: FS, s3: FS)
    requires Hollow(s, x, [c] + rest) && c !in rest && 0 < n <= MAX_INT64 && x + n <= MAX_UINT64 && WF(s)
    ensures Write(s, 2, NameOf(c), 0, n, true, OK) == (s1, Done) && WF(s1)
    ensures c in s1.inodes && TrashNameFree(s1, c, "u") && Trash(s1, c, "u", false, OK) == (s2, Placed(NameOf(c))) && WF(s2)
    ensures Delete(s2, c, "u", false, OK) == (s3, Done) && WF(s3) && Hollow(s3, x + n, rest)
  {
    hide Write, Trash, Delete, TrashNameFree, Hollow, Leaves, CanCycle, NameOf, WF;
    HollowCanCycle(s, x, c, rest, n);
    s1, s2, s3 := CycleHaunts(s, 2, NameOf(c), c, n, "u", 1);
    HollowLeft(s, s3, x, c, rest, n);
  }

  lemma NamesDiffer(c: Id, k: Id)
    requires 3 <= c <= 5 && 3 <= k <= 5 && c != k
    ensures ["u", "d", NameOf(c)] != ["u", "d", NameOf(k)]
  {
    assert ["u", "d", NameOf(c)][2] != ["u", "d", NameOf(k)][2];
  }

  lemma HollowLeftNode(t: Tree, x: nat, c: Id, rest: seq<Id>, n: nat, j: Id)
    requires IsHollow(t, x, [c] + rest) && 3 <= c <= 5 && c in t && c !in rest && j in t && j != c
    ensures Haunted(t, c, 1, n, j) == HollowNode(x + n, rest, j)
  {
    hide NameOf;
    var files := [c] + rest;
    assert files[1..] == rest && files[0] == c;
    WithoutAbsent(rest, c);
    assert ["u", ".trash"][1] != ["u", "d", NameOf(c)][1] && ["u", ".trash"][1] != ["u", "d"][1];
    if j > 2 {
      assert j in files;
      NamesDiffer(c, j);
    }
  }

  lemma HollowLeft(s: FS, s3: FS, x: nat, c: Id, rest: seq<Id>, n: nat)
    requires Hollow(s, x, [c] + rest) && c !in rest && WF(s3) && Leaves(s, s3, c, 1, n)
    ensures Hollow(s3, x + n, rest)
  {
    hide WF, HollowNode, NameOf, Haunted;
    var files := [c] + rest;
    assert c in files;
    assert forall k :: k in rest ==> k in files;
    assert forall k :: k in files ==> k == c || k in rest;
    HollowPath(s, x, files, c);
    forall j | j in s3.inodes ensures s3.inodes[j] == HollowNode(x + n, rest, j) { HollowLeftNode(s.inodes, x, c, rest, n, j); }
    forall k | k in rest ensures EmptyOnDisk(s3.disk, k) {
      assert EmptyOnDisk(s.disk, k);
      NamesDiffer(c, k);
    }
  }

  lemma HollowPath(s: FS, x: nat, files: seq<Id>, c: Id)
    requires Hollow(s, x, files) && c in files
    ensures s.inodes[c].path == ["u", "d", NameOf(c)]
  {
    hide WF;
  }

  lemma HollowWraps(s: FS, x: nat) returns (s': FS)
    requires Hollow(s, x, [5]) && x == MAX_UINT64 - 1 && WF(s)
    ensures Write(s, 2, "h", 0, 2, true, OK) == (s', Done) && 2 in s'.inodes && s'.inodes[2].size == 0
  {
    hide WF, RootOf, Resized, SizeDiff;
    assert 5 in [5];
    HollowRoot(s, x, [5], 5);
    DiffExact(0, 0, 2);
    s' := Write(s, 2, "h", 0, 2, true, OK).0;
    WrapsAt(s.inodes, 5, 2, x);
  }

  lemma WrapsAt(t: Tree, c: Id, d: Id, x: nat)
    requires c in t && d in t && Under(t[c].path, t[d].path) && t[d].size == x == MAX_UINT64 - 1
    ensures d in Resized(t, c, 2) && Resized(t, c, 2)[d].size == 0
  {
  }

  /** From exact sizes, seven calls that the server accepts take the cached size of a directory past the 64-bit
      maximum: two files of 2^63 - 1 bytes are written, trashed and deleted, and two more bytes wrap it to zero. */
  lemma CachedSizeWraps() returns (ss: seq<FS>, es: seq<Event>)
    ensures IsRun(ss, es) && |es| == 7 && Exact(ss[0]) && QuotaSafe(ss[0])
    ensures es[6] == Call(OpWrite(2, "h", 0, 2, true, OK)) && WF(ss[6]) && Do(ss[6], es[6].op).1 == Done
    ensures 2 in ss[6].inodes && ss[6].inodes[2].size == MAX_UINT64 - 1 && 2 in ss[7].inodes && ss[7].inodes[2].size == 0
  {
    hide WF, Write, Trash, Delete, TrashNameFree, Hollow, Exact, QuotaSafe, Roomy;
    HollowStart();
    RoomyWF();
    RoomyExact();
    var a0 := Roomy();
    assert [3] + [4, 5] == [3, 4, 5] && [4] + [5] == [4, 5];
    var a1, a2, a3 := HollowCycle(a0, 0, 3, [4, 5], MAX_INT64);
    var b1, b2, b3 := HollowCycle(a3, MAX_INT64, 4, [5], MAX_INT64);
    var c1 := HollowWraps(b3, MAX_INT64 + MAX_INT64);
    ss := [a0, a1, a2, a3, b1, b2, b3, c1];
    es := [Call(OpWrite(2, "f", 0, MAX_INT64, true, OK)), Call(OpTrash(3, "u", false, OK)), Call(OpDelete(3, "u", false, OK)),
           Call(OpWrite(2, "g", 0, MAX_INT64, true, OK)), Call(OpTrash(4, "u", false, OK)), Call(OpDelete(4, "u", false, OK)),
           Call(OpWrite(2, "h", 0, 2, true, OK))];
    HollowSize(b3, MAX_INT64 + MAX_INT64, [5]);
  }

  lemma HollowSize(s: FS, x: nat, files: seq<Id>)
    requires Hollow(s, x, files)
    ensures 2 in s.inodes && s.inodes[2].size == x
  {
  }

  lemma RoomyExact()
    ensures Exact(Roomy()) && QuotaSafe(Roomy())
  {
    RoomyWF();
    hide Linked, Rooted, Indexed, Aged, Founded, OnDisk, TrashOk;
    RoomySums();
    RoomySizes();
  }

  lemma RoomySizes()
    ensures SizesOnDisk(Roomy()) && Bounded(Roomy()) && WithinQuota(Roomy().inodes, Roomy().quotas)
  {
    RoomyKeys();
  }

  lemma RoomySums()
    requires WF(Roomy())
    ensures Summed(Roomy().inodes)
  {
    hide Rooted, Indexed, Aged, Founded, OnDisk, TrashOk;
    var t := Roomy().inodes;
    assert [1, 2][1..] == [2] && [2][1..] == [] && [3, 4, 5][1..] == [4, 5] && [4, 5][1..] == [5] && [5][1..] == [];
    assert SumOf(t, [2]) == 0;
    assert SumOf(t, [1, 2]) == 0;
    assert SumOf(t, [5]) == 0;
    assert SumOf(t, [4, 5]) == 0;
    assert SumOf(t, [3, 4, 5]) == 0;
    forall i | i in t && t[i].isDir ensures SumsUp(t, i) { }
  }
}
