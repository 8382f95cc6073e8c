/**
The boot-time scanner: a breadth-first walk over the disk that fills the inode
table from the index, followed by a recursive pass that sums directory sizes.
*/
module Scanner {
  import opened Paths
  import opened InodeTree
  import opened FileOps
  import opened FileSizes
  import opened Rescan
  import opened Walks

  // ---------------------------------------------------------------- what the walk maintains

  /** The index has only grown, by entries for paths already seen. */
  ghost predicate IndexGrown(index0: map<Path, Id>, next0: Id, index: map<Path, Id>, next: Id, seen: set<Path>) {
    && IndexOk(index, next) && next0 <= next
    && (forall p :: p in index0 ==> p in index && index[p] == index0[p])
    && (forall p :: p in index && p !in index0 ==> p in seen && index[p] >= next0)
    && (index == index0 ==> next == next0)
  }

  /** The table holds exactly the paths seen, each directory listing those of its entries that have been seen. */
  ghost predicate ScanInv(disk: map<Path, Entry>, t: Tree, index: map<Path, Id>, seen: set<Path>) {
    && (forall p {:trigger SeenOk(disk, t, index, seen, p)} :: p in seen ==> SeenOk(disk, t, index, seen, p))
    && (forall i {:trigger IdOk(t, index, seen, i)} :: i in t ==> IdOk(t, index, seen, i))
  }

  ghost predicate SeenOk(disk: map<Path, Entry>, t: Tree, index: map<Path, Id>, seen: set<Path>, p: Path) {
    && Visible(p) && Scanned(t, index, disk, p) && ParentPath(p) in seen
    && (disk[p].Dir? ==> Lists(t, index, p, Kids(disk, p) * seen))
  }

  ghost predicate IdOk(t: Tree, index: map<Path, Id>, seen: set<Path>, i: Id) {
    i in t && t[i].path in seen && t[i].path in index && index[t[i].path] == i
  }

  lemma SeenFact(disk: map<Path, Entry>, t: Tree, index: map<Path, Id>, seen: set<Path>, p: Path)
    requires ScanInv(disk, t, index, seen) && p in seen
    ensures SeenOk(disk, t, index, seen, p)
  {
  }

  lemma IdFact(disk: map<Path, Entry>, t: Tree, index: map<Path, Id>, seen: set<Path>, i: Id)
    requires ScanInv(disk, t, index, seen) && i in t
    ensures IdOk(t, index, seen, i)
  {
  }

  /** One entry: an id from the index, an inode, a place in the parent's list. */
  function ScanOne(t: Tree, disk: map<Path, Entry>, id: Id, parent: Id, q: Path): Tree
    requires q in disk && |q| >= 1 && (|q| > 1 ==> parent in t)
  {
    var n := Inode(disk[q].Dir?, q[|q| - 1], q, q[0], parent, [], if disk[q].File? then disk[q].bytes else 0);
    if |q| == 1 then t[id := n] else t[id := n][parent := t[parent].(children := t[parent].children + [id])]
  }

  /** Index entries keep their ids and stay distinct. */
  ghost predicate Widened(index: map<Path, Id>, index': map<Path, Id>) {
    && (forall p :: p in index ==> p in index' && index'[p] == index[p])
    && (forall p, p' :: p in index' && p' in index' && index'[p] == index'[p'] ==> p == p')
  }

  lemma ScanFresh(disk: map<Path, Entry>, t: Tree, index: map<Path, Id>, seen: set<Path>, index': map<Path, Id>, q: Path)
    requires ScanInv(disk, t, index, seen) && q !in seen && q in index' && Widened(index, index')
    ensures index'[q] !in t
  {
    if index'[q] in t {
      IdFact(disk, t, index, seen, index'[q]);
      assert false;
    }
  }

  lemma ListsMore(t: Tree, t': Tree, index: map<Path, Id>, index': map<Path, Id>, p: Path, kids: set<Path>, q: Path)
    requires Lists(t, index, p, kids) && Widened(index, index') && q in index' && index[p] in t'
    requires index'[q] !in t[index[p]].children && t'[index[p]].children == t[index[p]].children + [index'[q]]
    ensures Lists(t', index', p, kids + {q})
  {
    var cs, cs' := t[index[p]].children, t'[index[p]].children;
    forall c | c in cs' ensures exists k :: k in kids + {q} && k in index' && index'[k] == c {
      if c == index'[q] {
        assert q in kids + {q};
      } else {
        var k :| k in kids && index[k] == c;
        assert k in kids + {q};
      }
    }
  }

  lemma ListsKept(t: Tree, t': Tree, index: map<Path, Id>, index': map<Path, Id>, p: Path, kids: set<Path>)
    requires Lists(t, index, p, kids) && Widened(index, index') && index[p] in t'
    requires t'[index[p]].children == t[index[p]].children
    ensures Lists(t', index', p, kids)
  {
    forall c | c in t'[index[p]].children ensures exists k :: k in kids && k in index' && index'[k] == c {
      var k :| k in kids && index[k] == c;
    }
  }

  lemma KidsOfAdded(disk: map<Path, Entry>, seen: set<Path>, q: Path, p: Path)
    requires q !in seen && q in disk && Visible(q) && p != q
    ensures Kids(disk, p) * (seen + {q}) ==
            if |q| > 1 && ParentPath(q) == p then Kids(disk, p) * seen + {q} else Kids(disk, p) * seen
  {
  }

  /** What the walk needs to know before adding `q`. */
  ghost predicate CanScan(disk: map<Path, Entry>, t: Tree, index: map<Path, Id>, seen: set<Path>,
                          index': map<Path, Id>, q: Path)
  {
    && ScanInv(disk, t, index, seen) && Widened(index, index')
    && q in disk && Visible(q) && q !in seen && (|q| > 1 ==> ParentPath(q) in seen)
    && ParentPath(q) in disk && disk[ParentPath(q)].Dir?
    && q in index' && index'[q] !in t && ParentPath(q) in index'
    && (|q| > 1 ==> index'[ParentPath(q)] in t)
  }

  lemma ChildrenAlive(disk: map<Path, Entry>, t: Tree, index: map<Path, Id>, seen: set<Path>, p: Path, id: Id)
    requires ScanInv(disk, t, index, seen) && p in seen && p in disk && disk[p].Dir? && id !in t
    ensures p in index && index[p] in t && id !in t[index[p]].children
  {
    assert SeenOk(disk, t, index, seen, p);
    if id in t[index[p]].children {
      var k := KidOf(t, index, p, Kids(disk, p) * seen, id);
      SeenFact(disk, t, index, seen, k);
      assert false;
    }
  }

  lemma KidOf(t: Tree, index: map<Path, Id>, p: Path, kids: set<Path>, c: Id) returns (k: Path)
    requires Lists(t, index, p, kids) && c in t[index[p]].children
    ensures k in kids && k in index && index[k] == c
  {
    k :| k in kids && index[k] == c;
  }

  lemma ScanKeepsOld(disk: map<Path, Entry>, t: Tree, index: map<Path, Id>, seen: set<Path>,
                     index': map<Path, Id>, q: Path, p: Path)
    requires CanScan(disk, t, index, seen, index', q) && p in seen
    ensures SeenOk(disk, ScanOne(t, disk, index'[q], index'[ParentPath(q)], q), index', seen + {q}, p)
  {
    var id, up := index'[q], index'[ParentPath(q)];
    var t' := ScanOne(t, disk, id, up, q);
    assert SeenOk(disk, t, index, seen, p);
    if disk[p].Dir? {
      var kids := Kids(disk, p) * seen;
      KidsOfAdded(disk, seen, q, p);
      ChildrenAlive(disk, t, index, seen, p, id);
      if |q| > 1 && ParentPath(q) == p {
        ListsMore(t, t', index, index', p, kids, q);
      } else {
        ListsKept(t, t', index, index', p, kids);
      }
    }
  }

  lemma NoKidsYet(disk: map<Path, Entry>, t: Tree, index: map<Path, Id>, seen: set<Path>, q: Path)
    requires ScanInv(disk, t, index, seen) && q !in seen
    ensures Kids(disk, q) * (seen + {q}) == {}
  {
    if k :| k in Kids(disk, q) * (seen + {q}) {
      if k in seen { SeenFact(disk, t, index, seen, k); }
      assert false;
    }
  }

  lemma ScanAddsNew(disk: map<Path, Entry>, t: Tree, index: map<Path, Id>, seen: set<Path>, index': map<Path, Id>, q: Path)
    requires CanScan(disk, t, index, seen, index', q)
    ensures SeenOk(disk, ScanOne(t, disk, index'[q], index'[ParentPath(q)], q), index', seen + {q}, q)
  {
    NoKidsYet(disk, t, index, seen, q);
  }

  lemma ScanAdd(disk: map<Path, Entry>, t: Tree, index: map<Path, Id>, seen: set<Path>, index': map<Path, Id>, q: Path)
    requires CanScan(disk, t, index, seen, index', q)
    ensures ScanInv(disk, ScanOne(t, disk, index'[q], index'[ParentPath(q)], q), index', seen + {q})
  {
    hide SeenOk;
    var t' := ScanOne(t, disk, index'[q], index'[ParentPath(q)], q);
    forall p | p in seen + {q} ensures SeenOk(disk, t', index', seen + {q}, p) {
      if p in seen { ScanKeepsOld(disk, t, index, seen, index', q, p); }
      else { ScanAddsNew(disk, t, index, seen, index', q); }
    }
    forall i | i in t' ensures IdOk(t', index', seen + {q}, i) {
      if i in t { assert IdOk(t, index, seen, i); }
    }
  }

  // ---------------------------------------------------------------- from the walk to a tree

  /** Every entry of every directory seen has been seen. */
  ghost predicate Closed(disk: map<Path, Entry>, seen: set<Path>) {
    forall p {:trigger Kids(disk, p)} :: p in seen && p in disk && disk[p].Dir? ==> Kids(disk, p) <= seen
  }

  lemma VisibleParent(p: Path)
    requires Visible(p)
    ensures Visible(ParentPath(p))
  {
    if |p| > 1 {
      assert forall k :: 1 <= k < |p| - 1 ==> p[..|p| - 1][k] == p[k];
    }
  }

  /** Once all user directories are in and nothing is missing below them, the walk is complete. */
  lemma {:induction false} ClosedComplete(disk: map<Path, Entry>, seen: set<Path>, p: Path)
    requires DiskTree(disk) && Closed(disk, seen) && p in disk && Visible(p)
    requires forall u :: [u] in disk && Visible([u]) ==> [u] in seen
    ensures p in seen
    decreases |p|
  {
    assert InDirectory(disk, p);
    if |p| == 1 {
      assert p == [p[0]];
    } else {
      VisibleParent(p);
      ClosedComplete(disk, seen, ParentPath(p));
      assert p in Kids(disk, ParentPath(p));
    }
  }

  /** The index restricted to what is in the table. */
  function Part(index: map<Path, Id>, seen: set<Path>): map<Path, Id> {
    map p | p in index && p in seen :: index[p]
  }

  lemma ScanLinked(disk: map<Path, Entry>, t: Tree, index: map<Path, Id>, next: Id, seen: set<Path>)
    requires ScanInv(disk, t, index, seen) && IndexOk(index, next) && DiskTree(disk)
    ensures Linked(t)
  {
    forall i | i in t ensures NodeOk(t, i) {
      ScanNodeOk(disk, t, index, next, seen, i);
    }
  }

  lemma ScanNodeOk(disk: map<Path, Entry>, t: Tree, index: map<Path, Id>, next: Id, seen: set<Path>, i: Id)
    requires ScanInv(disk, t, index, seen) && IndexOk(index, next) && DiskTree(disk) && i in t
    ensures NodeOk(t, i)
  {
    IdFact(disk, t, index, seen, i);
    var p := t[i].path;
    SeenFact(disk, t, index, seen, p);
    var up := ParentPath(p);
    SeenFact(disk, t, index, seen, up);
    assert InDirectory(disk, p);
    if |p| > 1 {
      assert p in Kids(disk, up) * seen;
      assert p == up + [p[|p| - 1]];
    }
    forall c | c in t[i].children ensures c in t && t[c].parent == i && c != i {
      var k := KidOf(t, index, p, Kids(disk, p) * seen, c);
      SeenFact(disk, t, index, seen, k);
    }
  }

  lemma ScanIndexed(disk: map<Path, Entry>, t: Tree, index: map<Path, Id>, next: Id, seen: set<Path>)
    requires ScanInv(disk, t, index, seen) && IndexOk(index, next)
    ensures Indexed(t, Part(index, seen), next)
  {
    forall i | i in t ensures i < next && t[i].path in Part(index, seen) && Part(index, seen)[t[i].path] == i {
      IdFact(disk, t, index, seen, i);
    }
    forall p | p in Part(index, seen) ensures Part(index, seen)[p] in t && t[Part(index, seen)[p]].path == p {
      SeenFact(disk, t, index, seen, p);
    }
  }

  // ---------------------------------------------------------------- the walk

  /** Assigning an id to one more path keeps the index one-to-one below its counter. */
  lemma AssignKeepsIndex(index: map<Path, Id>, next: Id, q: Path)
    requires IndexOk(index, next)
    ensures var (id, index', next') := Assign(index, next, q);
      IndexOk(index', next') && next <= next' && Widened(index, index') && q in index' && id == index'[q]
  {
  }

  /** A directory waiting in the queue: none of its entries has been seen. */
  ghost predicate Queued(disk: map<Path, Entry>, seen: set<Path>, user: string, done: set<Path>, p: Path) {
    && p in seen && p in disk && disk[p].Dir? && p !in done && Under(p, [user])
    && Kids(disk, p) * seen == {}
  }

  /** Between two entries: directories that are neither queued nor being read are complete. */
  ghost predicate Walk(disk: map<Path, Entry>, t: Tree, index: map<Path, Id>, seen: set<Path>, user: string,
                       queue: seq<Path>, done: set<Path>, busy: set<Path>)
  {
    && ScanInv(disk, t, index, seen) && done <= seen && NoDup(queue)
    && (forall p {:trigger Queued(disk, seen, user, done, p)} :: p in queue ==> Queued(disk, seen, user, done, p))
    && (forall p {:trigger Kids(disk, p)} :: p in seen && p in disk && disk[p].Dir? && p !in queue && p !in busy ==>
          Kids(disk, p) <= seen)
  }

  lemma WalkPop(disk: map<Path, Entry>, t: Tree, index: map<Path, Id>, seen: set<Path>, user: string,
                queue: seq<Path>, done: set<Path>)
    requires Walk(disk, t, index, seen, user, queue, done, {}) && queue != []
    ensures Queued(disk, seen, user, done, queue[0]) && queue[0] !in queue[1..]
    ensures Walk(disk, t, index, seen, user, queue[1..], done + {queue[0]}, {queue[0]})
  {
    assert Queued(disk, seen, user, done, queue[0]);
    forall p | p in queue[1..] ensures Queued(disk, seen, user, done + {queue[0]}, p) {
      assert Queued(disk, seen, user, done, p);
    }
  }

  /** Reading one entry `q` of the directory `d` being read. */
  lemma WalkStep(disk: map<Path, Entry>, t: Tree, index: map<Path, Id>, seen: set<Path>, user: string,
                 queue: seq<Path>, done: set<Path>, d: Path, index': map<Path, Id>, q: Path)
    requires Walk(disk, t, index, seen, user, queue, done, {d}) && d !in queue
    requires CanScan(disk, t, index, seen, index', q) && |q| > 1 && ParentPath(q) == d && Under(d, [user])
    ensures
      Walk(disk, ScanOne(t, disk, index'[q], index'[ParentPath(q)], q), index', seen + {q}, user,
           if disk[q].Dir? then queue + [q] else queue, done, {d})
  {
    hide ScanInv, CanScan, Visible;
    CanScanFacts(disk, t, index, seen, index', q);
    var seen' := seen + {q};
    var queue' := if disk[q].Dir? then queue + [q] else queue;
    ScanAdd(disk, t, index, seen, index', q);
    assert q !in queue by {
      if q in queue { QueuedSeen(disk, t, index, seen, user, queue, done, d, q); }
    }
    forall p | p in queue' ensures Queued(disk, seen', user, done, p) {
      if p == q {
        NoKidsYet(disk, t, index, seen, q);
      } else {
        assert Queued(disk, seen, user, done, p);
      }
    }
  }

  lemma QueuedSeen(disk: map<Path, Entry>, t: Tree, index: map<Path, Id>, seen: set<Path>, user: string,
                   queue: seq<Path>, done: set<Path>, d: Path, q: Path)
    requires Walk(disk, t, index, seen, user, queue, done, {d}) && q in queue
    ensures q in seen
  {
    assert Queued(disk, seen, user, done, q);
  }

  lemma CanScanFacts(disk: map<Path, Entry>, t: Tree, index: map<Path, Id>, seen: set<Path>, index': map<Path, Id>, q: Path)
    requires CanScan(disk, t, index, seen, index', q)
    ensures q in disk && q !in seen && q in index' && ParentPath(q) in index' && |q| >= 1
    ensures ScanInv(disk, t, index, seen) && (|q| > 1 ==> index'[ParentPath(q)] in t)
  {
  }

  lemma WalkCan(disk: map<Path, Entry>, t: Tree, index: map<Path, Id>, seen: set<Path>, user: string,
                queue: seq<Path>, done: set<Path>, d: Path, index': map<Path, Id>, q: Path)
    requires Walk(disk, t, index, seen, user, queue, done, {d}) && Widened(index, index')
    requires d in seen && d in disk && disk[d].Dir? && q in disk && |q| == |d| + 1 && ParentPath(q) == d
    requires q !in seen && q[|q| - 1] != ".acl" && q in index'
    ensures |q| > 1 && CanScan(disk, t, index, seen, index', q)
  {
    SeenFact(disk, t, index, seen, d);
    ScanFresh(disk, t, index, seen, index', q);
    assert q == d + [q[|q| - 1]];
  }

  lemma GrownStep(index0: map<Path, Id>, next0: Id, index: map<Path, Id>, next: Id, seen: set<Path>,
                  q: Path, index': map<Path, Id>, next': Id)
    requires IndexGrown(index0, next0, index, next, seen) && IndexOk(index', next')
    requires if q in index then index' == index && next' == next else index' == index[q := next] && next' == next + 1
    ensures IndexGrown(index0, next0, index', next', seen + {q})
  {
  }

  /** Inodes outside the user's directory are untouched. */
  ghost predicate KeptOthers(t0: Tree, t: Tree, user: string) {
    forall i :: i in t0 && !Under(t0[i].path, [user]) ==> i in t && t[i] == t0[i]
  }

  lemma KeptStep(t0: Tree, t: Tree, user: string, disk: map<Path, Entry>, id: Id, up: Id, q: Path)
    requires KeptOthers(t0, t, user) && q in disk && |q| > 1 && id !in t && up in t && Under(t[up].path, [user])
    ensures KeptOthers(t0, ScanOne(t, disk, id, up, q), user)
  {
  }

  lemma TodoUnseen(disk: map<Path, Entry>, t: Tree, index: map<Path, Id>, seen: set<Path>, d: Path, q: Path)
    requires ScanInv(disk, t, index, seen) && Kids(disk, d) * seen == {}
    requires q in disk && |q| == |d| + 1 && ParentPath(q) == d
    ensures q !in seen
  {
    if Visible(q) {
      IsKid(disk, d, q);
      NotInBoth(Kids(disk, d), seen, q);
    } else if q in seen {
      SeenFact(disk, t, index, seen, q);
      assert false;
    }
  }

  lemma NotInBoth(a: set<Path>, b: set<Path>, x: Path)
    requires a * b == {} && x in a
    ensures x !in b
  {
    assert x !in a * b;
  }

  lemma IsKid(disk: map<Path, Entry>, d: Path, q: Path)
    requires q in disk && Visible(q) && |q| == |d| + 1 && ParentPath(q) == d
    ensures q in Kids(disk, d)
  {
  }

  /** All entries directly inside `d`, including those the scanner skips. */
  function Entries(disk: map<Path, Entry>, d: Path): set<Path> {
    set q | q in disk && |q| == |d| + 1 && ParentPath(q) == d
  }

  lemma EntriesUnseen(disk: map<Path, Entry>, t: Tree, index: map<Path, Id>, seen: set<Path>, user: string, queue: seq<Path>,
                      done: set<Path>, d: Path)
    requires Walk(disk, t, index, seen, user, queue, done, {d}) && Kids(disk, d) * seen == {}
    ensures Entries(disk, d) !! seen && Kids(disk, d) <= Entries(disk, d)
  {
    forall q | q in Entries(disk, d) ensures q !in seen { TodoUnseen(disk, t, index, seen, d, q); }
  }

  lemma WalkFacts(disk: map<Path, Entry>, t: Tree, index: map<Path, Id>, seen: set<Path>, user: string, queue: seq<Path>,
                  done: set<Path>, d: Path)
    requires Walk(disk, t, index, seen, user, queue, done, {d}) && d in seen
    ensures d in index && index[d] in t && t[index[d]].path == d && |d| >= 1 && done <= seen
    ensures ScanInv(disk, t, index, seen)
  {
    SeenFact(disk, t, index, seen, d);
  }

  lemma WalkEnd(disk: map<Path, Entry>, t: Tree, index: map<Path, Id>, seen: set<Path>, user: string, queue: seq<Path>,
                done: set<Path>, d: Path)
    requires Walk(disk, t, index, seen, user, queue, done, {d}) && Kids(disk, d) <= seen
    ensures Walk(disk, t, index, seen, user, queue, done, {})
  {
  }

  lemma WalkOver(disk: map<Path, Entry>, t: Tree, index: map<Path, Id>, seen: set<Path>, user: string, done: set<Path>)
    requires Walk(disk, t, index, seen, user, [], done, {})
    ensures ScanInv(disk, t, index, seen) && Closed(disk, seen)
  {
  }

  /** Breadth-first over one user's directory tree; the entries of a directory come in any order. */
  method ScanUserDirectory(disk: map<Path, Entry>, user: string, t0: Tree, index0: map<Path, Id>, next0: Id, ghost seen0: set<Path>)
    returns (t: Tree, index: map<Path, Id>, next: Id, ghost seen: set<Path>)
    requires IndexOk(index0, next0) && IndexGrown(index0, next0, index0, next0, seen0)
    requires Walk(disk, t0, index0, seen0, user, [[user]], {}, {})
    ensures ScanInv(disk, t, index, seen) && Closed(disk, seen) && seen0 <= seen
    ensures IndexGrown(index0, next0, index, next, seen) && IndexOk(index, next)
    ensures KeptOthers(t0, t, user)
    ensures forall p :: p in seen && p !in seen0 ==> Under(p, [user])
  {
    hide Walk, ScanInv, CanScan, IndexGrown, IndexOk, Widened, ScanOne, KeptOthers, Closed;
    t, index, next, seen := t0, index0, next0, seen0;
    var queue := [[user]];
    ghost var done: set<Path> := {};
    assert KeptOthers(t0, t, user) by { KeptSame(t0, user); }
    while queue != []
      invariant Walk(disk, t, index, seen, user, queue, done, {})
      invariant IndexGrown(index0, next0, index, next, seen) && IndexOk(index, next)
      invariant KeptOthers(t0, t, user) && seen0 <= seen
      invariant forall p :: p in seen && p !in seen0 ==> Under(p, [user])
      decreases disk.Keys - done
    {
      var d := queue[0];
      WalkPop(disk, t, index, seen, user, queue, done);
      queue := queue[1..];
      done := done + {d};
      EntriesUnseen(disk, t, index, seen, user, queue, done, d);
      var todo := Entries(disk, d);
      while todo != {}
        invariant Walk(disk, t, index, seen, user, queue, done, {d}) && d !in queue && d in seen
        invariant todo <= Entries(disk, d) && todo !! seen && Kids(disk, d) - todo <= seen
        invariant IndexGrown(index0, next0, index, next, seen) && IndexOk(index, next)
        invariant KeptOthers(t0, t, user) && seen0 <= seen
        invariant forall p :: p in seen && p !in seen0 ==> Under(p, [user])
        decreases todo
      {
        var q :| q in todo;
        WalkFacts(disk, t, index, seen, user, queue, done, d);
        if q[|q| - 1] != ".acl" {
          AssignKeepsIndex(index, next, q);
          var (id, index', next') := Assign(index, next, q);
          WalkCan(disk, t, index, seen, user, queue, done, d, index', q);
          WalkStep(disk, t, index, seen, user, queue, done, d, index', q);
          CanScanFacts(disk, t, index, seen, index', q);
          ScanFresh(disk, t, index, seen, index', q);
          GrownStep(index0, next0, index, next, seen, q, index', next');
          SameId(index, index', d);
          KeptStep(t0, t, user, disk, id, index'[d], q);
          t := ScanOne(t, disk, id, index'[d], q);
          index, next := index', next';
          seen := seen + {q};
          if disk[q].Dir? {
            queue := queue + [q];
          }
        } else {
          SkippedIsNoKid(disk, d, q);
        }
        todo := todo - {q};
      }
      WalkEnd(disk, t, index, seen, user, queue, done, d);
    }
    WalkOver(disk, t, index, seen, user, done);
  }

  lemma KeptSame(t: Tree, user: string)
    ensures KeptOthers(t, t, user)
  {
  }

  lemma SameId(index: map<Path, Id>, index': map<Path, Id>, d: Path)
    requires Widened(index, index') && d in index
    ensures d in index' && index'[d] == index[d]
  {
  }

  lemma SkippedIsNoKid(disk: map<Path, Entry>, d: Path, q: Path)
    requires |d| >= 1 && |q| == |d| + 1 && q[|q| - 1] == ".acl"
    ensures q !in Kids(disk, d)
  {
  }

  // ---------------------------------------------------------------- directory sizes

  ghost predicate FilesKept(t: Tree, t': Tree) {
    SameShape(t, t') && forall j :: j in t && !t[j].isDir ==> t'[j] == t[j]
  }

  /** Every directory at or below `i` has the sum of its children. */
  ghost predicate SummedBelow(t: Tree, i: Id)
    requires Linked(t) && i in t
  {
    forall j {:trigger SumsUp(t, j)} :: j in t && t[j].isDir && Under(t[j].path, t[i].path) ==> SumsUp(t, j)
  }

  ghost predicate SameOutside(t: Tree, t': Tree, i: Id)
    requires i in t
  {
    forall j :: j in t && j in t' && !Under(t[j].path, t[i].path) ==> t'[j] == t[j]
  }

  lemma ShapeSubtree(t: Tree, t': Tree, i: Id, c: Id)
    requires Linked(t) && SameShape(t, t') && i in t && c in t[i].children
    ensures c in t' && Subtree(t', c) < Subtree(t, i)
  {
    assert NodeOk(t, i) && NodeOk(t, c);
    assert i in Subtree(t, i) && i !in Subtree(t', c);
  }

  /** Children of a directory outside `c`'s subtree, other than `c`, are outside it too. */
  lemma ChildOutside(t: Tree, index: map<Path, Id>, next: Id, c: Id, j: Id, x: Id)
    requires Linked(t) && Indexed(t, index, next) && c in t && j in t && x in t[j].children && x != c
    requires !Under(t[j].path, t[c].path)
    ensures x in t && !Under(t[x].path, t[c].path)
  {
    assert NodeOk(t, j);
    assert NodeOk(t, x);
    ParentUnder(t, index, next, c, x);
  }

  /** Changing sizes inside one subtree leaves the sums of directories that do not contain it. */
  lemma SumsElsewhere(t: Tree, t': Tree, index: map<Path, Id>, next: Id, c: Id, j: Id)
    requires Linked(t) && Linked(t') && Indexed(t, index, next) && SameShape(t, t') && c in t && SameOutside(t, t', c)
    requires j in t && t[j].isDir && !Under(t[j].path, t[c].path) && c !in t[j].children
    ensures SumsUp(t, j) ==> SumsUp(t', j)
  {
    assert NodeOk(t, j) && NodeOk(t', j);
    forall x | x in t[j].children ensures t'[x].size == t[x].size {
      ChildOutside(t, index, next, c, j, x);
    }
    SumSame(t, t', t[j].children);
  }

  /** The sizes of earlier children do not change while a later one is summed. */
  lemma EarlierKept(t: Tree, t': Tree, index: map<Path, Id>, next: Id, i: Id, k: nat)
    requires Linked(t) && Linked(t') && Indexed(t, index, next) && SameShape(t, t') && i in t && k < |t[i].children|
    requires t[i].children[k] in t && SameOutside(t, t', t[i].children[k])
    requires forall a :: 0 <= a < k && t[i].children[a] in t ==> SummedBelow(t, t[i].children[a])
    ensures forall a :: 0 <= a < k ==> t[i].children[a] in t' && SummedBelow(t', t[i].children[a])
    ensures Present(t, t[i].children[..k]) && Present(t', t[i].children[..k])
    ensures SumOf(t', t[i].children[..k]) == SumOf(t, t[i].children[..k])
  {
    var cs := t[i].children;
    var c := cs[k];
    assert NodeOk(t, i);
    forall a | 0 <= a < k ensures cs[a] in t && t'[cs[a]] == t[cs[a]] && SummedBelow(t', cs[a]) {
      assert cs[a] in cs && c in cs;
      forall j | j in t && Under(t[j].path, t[cs[a]].path) ensures !Under(t[j].path, t[c].path) && c !in t[j].children {
        if Under(t[j].path, t[c].path) { OneStepBelow(t, index, next, j, i, cs[a], c); }
        NotAbove(t, i, cs[a], j, c);
      }
      forall j | j in t' && t'[j].isDir && Under(t'[j].path, t'[cs[a]].path) ensures SumsUp(t', j) {
        assert SumsUp(t, j);
        SumsElsewhere(t, t', index, next, c, j);
      }
      assert Under(t[cs[a]].path, t[cs[a]].path);
    }
    assert forall x :: x in cs[..k] ==> x in cs;
    SumSame(t, t', cs[..k]);
  }

  lemma NotAbove(t: Tree, i: Id, c': Id, j: Id, c: Id)
    requires Linked(t) && i in t && c in t[i].children && c' in t[i].children && c' in t && j in t
    requires Under(t[j].path, t[c'].path)
    ensures c !in t[j].children
  {
    assert NodeOk(t, i);
    assert NodeOk(t, j) && NodeOk(t, c');
  }

  /** The first `k` children of `i` are summed; everything else is as it was. */
  ghost predicate Summing(t0: Tree, t: Tree, index: map<Path, Id>, next: Id, i: Id, k: nat) {
    && Linked(t) && Indexed(t, index, next) && FilesKept(t0, t) && i in t0 && i in t && t[i] == t0[i]
    && SameOutside(t0, t, i) && k <= |t[i].children|
    && (forall a :: 0 <= a < |t[i].children| ==> t[i].children[a] in t)
    && (forall a :: 0 <= a < k ==> SummedBelow(t, t[i].children[a]))
  }

  lemma SummingStart(t0: Tree, index: map<Path, Id>, next: Id, i: Id)
    requires Linked(t0) && Indexed(t0, index, next) && i in t0
    ensures Summing(t0, t0, index, next, i, 0) && Present(t0, t0[i].children[..0])
  {
    assert NodeOk(t0, i);
  }

  lemma SummingFacts(t0: Tree, t: Tree, index: map<Path, Id>, next: Id, i: Id, k: nat)
    requires Linked(t0) && Summing(t0, t, index, next, i, k) && k < |t0[i].children|
    ensures Linked(t) && Indexed(t, index, next) && t0[i].children[k] in t
    ensures Subtree(t, t0[i].children[k]) < Subtree(t0, i)
  {
    ShapeSubtree(t0, t, i, t0[i].children[k]);
  }

  lemma SummingStep(t0: Tree, t: Tree, t': Tree, index: map<Path, Id>, next: Id, i: Id, k: nat)
    requires Linked(t0) && Summing(t0, t, index, next, i, k) && k < |t0[i].children|
    requires Linked(t') && FilesKept(t, t') && t0[i].children[k] in t && SameOutside(t, t', t0[i].children[k])
    requires t0[i].children[k] in t' && SummedBelow(t', t0[i].children[k])
    ensures Summing(t0, t', index, next, i, k + 1)
    ensures Present(t, t0[i].children[..k]) && Present(t', t0[i].children[..k + 1])
    ensures SumOf(t', t0[i].children[..k + 1]) == SumOf(t, t0[i].children[..k]) + t'[t0[i].children[k]].size
  {
    hide SumOf, SummedBelow, Under;
    var cs := t0[i].children;
    var c := cs[k];
    ShapeKeeps(t, t', map[], index, next);
    assert NodeOk(t, i);
    assert c in cs;
    EarlierKept(t, t', index, next, i, k);
    assert cs[..k + 1] == cs[..k] + [c];
    SumAppended(t', cs[..k], c);
    OutsideChild(t0, t, t', i, c);
  }

  /** What changes only below a child of `i` changes only below `i`, and leaves `i` itself. */
  lemma OutsideChild(t0: Tree, t: Tree, t': Tree, i: Id, c: Id)
    requires Linked(t) && i in t0 && i in t && t[i] == t0[i] && c in t[i].children && c in t && SameShape(t0, t) && i in t'
    requires SameOutside(t0, t, i) && SameOutside(t, t', c)
    ensures SameOutside(t0, t', i) && t'[i] == t[i]
  {
    assert NodeOk(t, i) && NodeOk(t, c);
    assert t[c].path == t[i].path + [t[c].name];
    assert !Under(t[i].path, t[c].path);
  }

  /** Writing the total into `i` itself completes its subtree. */
  lemma SummingEnd(t0: Tree, t: Tree, index: map<Path, Id>, next: Id, i: Id, total: nat)
    requires Linked(t0) && i in t0 && t0[i].isDir && Summing(t0, t, index, next, i, |t0[i].children|)
    requires Present(t, t0[i].children) && total == SumOf(t, t0[i].children)
    ensures i in t
    ensures
      var t' := t[i := t[i].(size := total)];
      Linked(t') && FilesKept(t0, t') && SameOutside(t0, t', i) && SummedBelow(t', i)
  {
    hide SumOf;
    var t' := t[i := t[i].(size := total)];
    var cs := t[i].children;
    assert SameShape(t, t');
    ShapeKeeps(t, t', map[], index, next);
    assert NodeOk(t, i) && NodeOk(t', i);
    assert Under(t0[i].path, t0[i].path);
    assert i !in cs;
    SumSame(t, t', cs);
    assert SumsUp(t', i);
    forall j | j in t' && t'[j].isDir && Under(t'[j].path, t'[i].path) ensures SumsUp(t', j) {
      if j != i { SummingBelow(t, t', index, next, i, total, j); }
    }
  }

  lemma SummingBelow(t: Tree, t': Tree, index: map<Path, Id>, next: Id, i: Id, total: nat, j: Id)
    requires Linked(t) && Indexed(t, index, next) && i in t && j in t && j != i && t[j].isDir && Under(t[j].path, t[i].path)
    requires t' == t[i := t[i].(size := total)] && Linked(t')
    requires forall a :: 0 <= a < |t[i].children| ==> t[i].children[a] in t && SummedBelow(t, t[i].children[a])
    ensures SumsUp(t', j)
  {
    var cs := t[i].children;
    var c := ChainChild(t, index, next, i, j);
    var a :| 0 <= a < |cs| && cs[a] == c;
    assert SummedBelow(t, cs[a]);
    assert SumsUp(t, j);
    assert NodeOk(t, j) && NodeOk(t', j);
    NotItsOwnAncestor(t, i, j);
    SumSame(t, t', t[j].children);
  }

  lemma NotItsOwnAncestor(t: Tree, i: Id, j: Id)
    requires Linked(t) && i in t && j in t && Under(t[j].path, t[i].path)
    ensures i !in t[j].children
  {
    assert NodeOk(t, j);
    assert NodeOk(t, i);
  }

  lemma FileSummed(t: Tree, index: map<Path, Id>, next: Id, i: Id)
    requires Linked(t) && Indexed(t, index, next) && i in t && !t[i].isDir
    ensures FilesKept(t, t) && SameOutside(t, t, i) && SummedBelow(t, i)
  {
    forall j | j in t && Under(t[j].path, t[i].path) ensures !t[j].isDir {
      FilesAreLeaves(t, index, next, j, i);
    }
  }

  /** Sums sizes bottom-up below `i` and writes them into the directories. */
  method CalculateSizes(t0: Tree, i: Id, ghost index: map<Path, Id>, ghost next: Id) returns (t: Tree, total: nat)
    requires Linked(t0) && Indexed(t0, index, next) && i in t0
    ensures Linked(t) && FilesKept(t0, t) && SameOutside(t0, t, i)
    ensures SummedBelow(t, i) && total == t[i].size
    decreases Subtree(t0, i)
  {
    hide Linked, Indexed, SummedBelow, SameOutside, Summing;
    t := t0;
    if !t0[i].isDir {
      FileSummed(t0, index, next, i);
      total := t0[i].size;
      return;
    }
    var cs := t0[i].children;
    total := 0;
    var k := 0;
    SummingStart(t0, index, next, i);
    while k < |cs|
      invariant 0 <= k <= |cs|
      invariant Summing(t0, t, index, next, i, k)
      invariant Present(t, cs[..k]) && total == SumOf(t, cs[..k])
    {
      SummingFacts(t0, t, index, next, i, k);
      var t', size := CalculateSizes(t, cs[k], index, next);
      SummingStep(t0, t, t', index, next, i, k);
      t := t';
      total := total + size;
      k := k + 1;
    }
    assert cs[..|cs|] == cs;
    SummingEnd(t0, t, index, next, i, total);
    t := t[i := t[i].(size := total)];
  }

  // ---------------------------------------------------------------- the whole scan

  /** A new user directory: its root inode is in, its entries are not, everything else is complete. */
  lemma WalkBegin(disk: map<Path, Entry>, t: Tree, index: map<Path, Id>, seen: set<Path>, user: string, index': map<Path, Id>)
    requires DiskTree(disk) && ScanInv(disk, t, index, seen) && Closed(disk, seen)
    requires [user] in disk && !HiddenName(user) && [user] !in seen && [user] in index' && Widened(index, index')
    ensures
      Walk(disk, ScanOne(t, disk, index'[[user]], index'[[user]], [user]), index', seen + {[user]}, user, [[user]], {}, {})
  {
    hide ScanInv;
    ScanFresh(disk, t, index, seen, index', [user]);
    assert InDirectory(disk, [user]);
    assert CanScan(disk, t, index, seen, index', [user]);
    ScanAdd(disk, t, index, seen, index', [user]);
    NoKidsYet(disk, t, index, seen, [user]);
    assert Queued(disk, seen + {[user]}, user, {}, [user]);
  }

  lemma ShapeScanInv(disk: map<Path, Entry>, t: Tree, t': Tree, index: map<Path, Id>, seen: set<Path>)
    requires ScanInv(disk, t, index, seen) && FilesKept(t, t')
    ensures ScanInv(disk, t', index, seen)
  {
    forall p | p in seen ensures SeenOk(disk, t', index, seen, p) { SeenFact(disk, t, index, seen, p); }
    forall i | i in t' ensures IdOk(t', index, seen, i) { IdFact(disk, t, index, seen, i); }
  }

  /** Sums outside the new user's directory survive its scan; sums inside have just been written. */
  lemma SumsComplete(t0: Tree, t1: Tree, t2: Tree, user: string, root: Id)
    requires Linked(t0) && Summed(t0) && Linked(t1) && Linked(t2) && KeptOthers(t0, t1, user)
    requires root in t1 && t1[root].path == [user] && FilesKept(t1, t2) && SameOutside(t1, t2, root) && SummedBelow(t2, root)
    requires forall i :: i in t1 && !Under(t1[i].path, [user]) ==> i in t0 && t1[i] == t0[i]
    ensures Summed(t2)
  {
    forall j | j in t2 && t2[j].isDir ensures SumsUp(t2, j) {
      if !Under(t1[j].path, [user]) {
        assert NodeOk(t0, j) && NodeOk(t2, j) && SumsUp(t0, j);
        forall c | c in t0[j].children ensures c in t2 && t2[c] == t0[c] {
          SameUser(t0, j, c, user);
        }
        SumSame(t0, t2, t0[j].children);
      }
    }
  }

  lemma SameUser(t: Tree, j: Id, c: Id, user: string)
    requires Linked(t) && j in t && c in t[j].children
    ensures c in t && (Under(t[c].path, [user]) <==> Under(t[j].path, [user]))
  {
    assert NodeOk(t, j);
    assert NodeOk(t, c);
    PathNonEmpty(t, j);
  }

  lemma GrownTrans(index0: map<Path, Id>, next0: Id, index1: map<Path, Id>, next1: Id, seen1: set<Path>,
                   index2: map<Path, Id>, next2: Id, seen2: set<Path>)
    requires IndexGrown(index0, next0, index1, next1, seen1) && IndexGrown(index1, next1, index2, next2, seen2)
    requires seen1 <= seen2
    ensures IndexGrown(index0, next0, index2, next2, seen2)
  {
    if index2 == index0 { assert index1 == index0; }
  }

  lemma GrownSame(index: map<Path, Id>, next: Id, seen: set<Path>)
    requires IndexOk(index, next)
    ensures IndexGrown(index, next, index, next, seen)
  {
  }

  /** Nothing outside the user's directory is new after its scan. */
  lemma OthersOnly(disk: map<Path, Entry>, t0: Tree, index0: map<Path, Id>, seen0: set<Path>,
                   t: Tree, index: map<Path, Id>, seen: set<Path>, user: string)
    requires ScanInv(disk, t0, index0, seen0) && ScanInv(disk, t, index, seen) && KeptOthers(t0, t, user)
    requires forall p :: p in index0 ==> p in index && index[p] == index0[p]
    requires forall p :: p in seen && p !in seen0 ==> Under(p, [user])
    ensures forall i :: i in t && !Under(t[i].path, [user]) ==> i in t0 && t[i] == t0[i]
  {
    forall i | i in t && !Under(t[i].path, [user]) ensures i in t0 && t[i] == t0[i] {
      IdFact(disk, t, index, seen, i);
      SeenFact(disk, t0, index0, seen0, t[i].path);
    }
  }

  lemma KeptThrough(tA: Tree, tB: Tree, t: Tree, user: string)
    requires KeptOthers(tB, t, user)
    requires forall i :: i in tA ==> i in tB && tB[i] == tA[i]
    requires forall i :: i in tB && i !in tA ==> Under(tB[i].path, [user])
    requires forall i :: i in t && !Under(t[i].path, [user]) ==> i in tB && t[i] == tB[i]
    ensures KeptOthers(tA, t, user)
    ensures forall i :: i in t && !Under(t[i].path, [user]) ==> i in tA && t[i] == tA[i]
  {
  }

  /** Everything the loop over user directories maintains. */
  ghost predicate Loading(disk: map<Path, Entry>, index0: map<Path, Id>, next0: Id, t: Tree, index: map<Path, Id>, next: Id,
                          seen: set<Path>, users: map<string, Id>)
  {
    && ScanInv(disk, t, index, seen) && Closed(disk, seen)
    && IndexOk(index, next) && IndexGrown(index0, next0, index, next, seen)
    && Linked(t) && Summed(t)
    && (forall u :: u in users <==> [u] in seen)
    && (forall u :: u in users ==> [u] in index && users[u] == index[[u]])
  }

  /** One user directory: root inode, breadth-first scan, sizes. */
  method LoadUser(disk: map<Path, Entry>, user: string, ghost index0: map<Path, Id>, ghost next0: Id,
                  tA: Tree, indexA: map<Path, Id>, nextA: Id, ghost seenA: set<Path>, usersA: map<string, Id>)
    returns (t: Tree, index: map<Path, Id>, next: Id, ghost seen: set<Path>, users: map<string, Id>)
    requires DiskTree(disk) && Loading(disk, index0, next0, tA, indexA, nextA, seenA, usersA)
    requires [user] in disk && !HiddenName(user) && [user] !in seenA
    ensures Loading(disk, index0, next0, t, index, next, seen, users)
    ensures users.Keys == usersA.Keys + {user} && seenA <= seen && [user] in seen
  {
    hide ScanInv, Closed, IndexOk, IndexGrown, Linked, Summed, Walk, ScanOne, KeptOthers, SummedBelow, SameOutside, FilesKept, Widened;
    AssignKeepsIndex(indexA, nextA, [user]);
    var (id, indexB, nextB) := Assign(indexA, nextA, [user]);
    ghost var seenB := seenA + {[user]};
    GrownStep(index0, next0, indexA, nextA, seenA, [user], indexB, nextB);
    WalkBegin(disk, tA, indexA, seenA, user, indexB);
    ScanFresh(disk, tA, indexA, seenA, indexB, [user]);
    var tB := ScanOne(tA, disk, id, id, [user]);
    GrownSame(indexB, nextB, seenB);
    t, index, next, seen := ScanUserDirectory(disk, user, tB, indexB, nextB, seenB);
    GrownTrans(index0, next0, indexB, nextB, seenB, index, next, seen);
    ScanLinked(disk, t, index, next, seen);
    ScanIndexed(disk, t, index, next, seen);
    RootInTable(disk, t, index, seen, user, indexB, nextB, next, id);
    ghost var t1 := t;
    var total;
    t, total := CalculateSizes(t, id, Part(index, seen), next);
    ShapeScanInv(disk, t1, t, index, seen);
    WalkInvFact(disk, tB, indexB, seenB, user);
    GrownFact(indexB, nextB, index, next, seen);
    OthersOnly(disk, tB, indexB, seenB, t1, index, seen, user);
    RootOnlyNew(tA, tB, disk, id, user);
    KeptThrough(tA, tB, t1, user);
    SumsComplete(tA, t1, t, user, id);
    users := usersA[user := id];
    UsersAfter(indexA, indexB, nextA, nextB, index, next, seenA, seen, usersA, user, id);
  }

  lemma RootInTable(disk: map<Path, Entry>, t: Tree, index: map<Path, Id>, seen: set<Path>, user: string,
                    indexB: map<Path, Id>, nextB: Id, next: Id, id: Id)
    requires ScanInv(disk, t, index, seen) && [user] in seen && IndexGrown(indexB, nextB, index, next, seen)
    requires [user] in indexB && indexB[[user]] == id
    ensures id in t && t[id].path == [user] && [user] in index && index[[user]] == id
  {
    SeenFact(disk, t, index, seen, [user]);
  }

  lemma WalkInvFact(disk: map<Path, Entry>, t: Tree, index: map<Path, Id>, seen: set<Path>, user: string)
    requires Walk(disk, t, index, seen, user, [[user]], {}, {})
    ensures ScanInv(disk, t, index, seen)
  {
  }

  lemma GrownFact(index0: map<Path, Id>, next0: Id, index: map<Path, Id>, next: Id, seen: set<Path>)
    requires IndexGrown(index0, next0, index, next, seen)
    ensures forall p :: p in index0 ==> p in index && index[p] == index0[p]
  {
  }

  lemma RootOnlyNew(tA: Tree, tB: Tree, disk: map<Path, Entry>, id: Id, user: string)
    requires [user] in disk && id !in tA && tB == ScanOne(tA, disk, id, id, [user])
    ensures forall i :: i in tA ==> i in tB && tB[i] == tA[i]
    ensures forall i :: i in tB && i !in tA ==> Under(tB[i].path, [user])
  {
  }

  lemma UsersAfter(indexA: map<Path, Id>, indexB: map<Path, Id>, nextA: Id, nextB: Id, index: map<Path, Id>, next: Id,
                   seenA: set<Path>, seen: set<Path>, usersA: map<string, Id>, user: string, id: Id)
    requires Widened(indexA, indexB) && IndexGrown(indexB, nextB, index, next, seen)
    requires [user] in indexB && indexB[[user]] == id && [user] in seen && seenA <= seen
    requires forall p :: p in seen && p !in seenA + {[user]} ==> Under(p, [user])
    requires forall u :: u in usersA <==> [u] in seenA
    requires forall u :: u in usersA ==> [u] in indexA && usersA[u] == indexA[[u]]
    ensures
      var users := usersA[user := id];
      && (forall u :: u in users <==> [u] in seen)
      && (forall u :: u in users ==> [u] in index && users[u] == index[[u]])
  {
    forall u | [u] in seen && [u] !in seenA ensures u == user {
      assert [u][0] == u && [user][0] == user;
    }
  }

  /** The whole boot-time scan, user directories in any order. */
  method LoadExistingData(disk: map<Path, Entry>, index0: map<Path, Id>, next0: Id, ghost s: FS)
    returns (t: Tree, users: map<string, Id>, index: map<Path, Id>, next: Id)
    requires DiskTree(disk) && IndexOk(index0, next0)
    requires s.disk == disk && s.index == index0 && s.next == next0
    ensures Rescanned(s, FS(t, users, index, next, map[], s.shared, disk, s.quotas))
  {
    hide Loading, IndexOk, DiskTree, Rescanned;
    t, users, index, next := map[], map[], index0, next0;
    ghost var seen: set<Path> := {};
    LoadingStart(disk, index0, next0);
    var all := set p | p in disk && |p| == 1 && !HiddenName(p[0]) :: p[0];
    var todo := all;
    while todo != {}
      invariant todo <= all && users.Keys == all - todo
      invariant Loading(disk, index0, next0, t, index, next, seen, users)
      decreases todo
    {
      var user :| user in todo;
      TopLevel(disk, user);
      LoadingFact(disk, index0, next0, t, index, next, seen, users, user);
      t, index, next, seen, users := LoadUser(disk, user, index0, next0, t, index, next, seen, users);
      todo := todo - {user};
    }
    LoadingDone(s, t, index, next, seen, users);
  }

  lemma LoadingStart(disk: map<Path, Entry>, index0: map<Path, Id>, next0: Id)
    requires IndexOk(index0, next0)
    ensures Loading(disk, index0, next0, map[], index0, next0, {}, map[])
  {
  }

  lemma TopLevel(disk: map<Path, Entry>, user: string)
    requires user in set p | p in disk && |p| == 1 && !HiddenName(p[0]) :: p[0]
    ensures [user] in disk && !HiddenName(user)
  {
    var p :| p in disk && |p| == 1 && p[0] == user;
    assert p == [user];
  }

  lemma LoadingFact(disk: map<Path, Entry>, index0: map<Path, Id>, next0: Id, t: Tree, index: map<Path, Id>, next: Id,
                    seen: set<Path>, users: map<string, Id>, user: string)
    requires Loading(disk, index0, next0, t, index, next, seen, users) && user !in users
    ensures [user] !in seen
  {
  }

  lemma SeenAll(disk: map<Path, Entry>, t: Tree, index: map<Path, Id>, seen: set<Path>, p: Path)
    requires DiskTree(disk) && ScanInv(disk, t, index, seen) && Closed(disk, seen)
    requires forall u :: [u] in disk && Visible([u]) ==> [u] in seen
    ensures p in disk && Visible(p) <==> p in seen
  {
    if p in disk && Visible(p) { ClosedComplete(disk, seen, p); }
    if p in seen { SeenFact(disk, t, index, seen, p); }
  }

  lemma UsersAll(disk: map<Path, Entry>, seen: set<Path>, users: map<string, Id>, u: string)
    requires users.Keys == set p | p in disk && |p| == 1 && !HiddenName(p[0]) :: p[0]
    requires forall u :: u in users <==> [u] in seen
    ensures [u] in disk && Visible([u]) ==> [u] in seen
    ensures u in users ==> [u] in disk && Visible([u])
  {
    if [u] in disk && Visible([u]) {
      assert [u][0] == u;
      assert u in users;
    }
    if u in users { TopLevel(disk, u); }
  }

  lemma NodeDone(disk: map<Path, Entry>, t: Tree, index: map<Path, Id>, seen: set<Path>, p: Path)
    requires ScanInv(disk, t, index, seen) && Closed(disk, seen) && p in seen
    ensures Scanned(t, index, disk, p) && (disk[p].Dir? ==> Lists(t, index, p, Kids(disk, p)))
  {
    SeenFact(disk, t, index, seen, p);
    if disk[p].Dir? { assert Kids(disk, p) * seen == Kids(disk, p); }
  }

  lemma SizeDone(t: Tree, i: Id)
    requires Linked(t) && Summed(t) && i in t && t[i].isDir
    ensures SizeOk(t, i)
  {
    assert NodeOk(t, i) && SumsUp(t, i);
  }

  lemma LoadingDone(s: FS, t: Tree, index: map<Path, Id>, next: Id, seen: set<Path>, users: map<string, Id>)
    requires DiskTree(s.disk) && Loading(s.disk, s.index, s.next, t, index, next, seen, users)
    requires users.Keys == set p | p in s.disk && |p| == 1 && !HiddenName(p[0]) :: p[0]
    ensures Rescanned(s, FS(t, users, index, next, map[], s.shared, s.disk, s.quotas))
  {
    hide ScanInv, Closed, Linked, Summed, Scanned, Lists, Visible, Kids, DiskTree, IndexOk, SizeOk, HiddenName;
    var disk := s.disk;
    forall u ensures [u] in disk && Visible([u]) ==> [u] in seen
             ensures u in users ==> [u] in disk && Visible([u]) {
      UsersAll(disk, seen, users, u);
    }
    forall p ensures p in disk && Visible(p) <==> p in seen { SeenAll(disk, t, index, seen, p); }
    forall p | p in seen ensures Scanned(t, index, disk, p) && (disk[p].Dir? ==> Lists(t, index, p, Kids(disk, p))) {
      NodeDone(disk, t, index, seen, p);
    }
    forall i | i in t ensures IdOk(t, index, seen, i) { IdFact(disk, t, index, seen, i); }
    forall i | i in t && t[i].isDir ensures SizeOk(t, i) {
      SizeDone(t, i);
    }
  }
}
