/**
Facts about recursive walks over a well-formed tree: what a subtree is, and when a
list of inodes is a complete post-order of it.
*/
module Walks {
  import opened Paths
  import opened InodeTree
  import opened FileOps
  import opened FileSizes
  import opened FileSafety
  import opened RoundTrip

  ghost function Subtree(t: Tree, i: Id): set<Id>
    requires i in t
  {
    set j | j in t && Under(t[j].path, t[i].path)
  }

  lemma SubtreeShrinks(s: FS, i: Id, c: Id)
    requires WF(s) && i in s.inodes && c in s.inodes[i].children
    ensures c in s.inodes && Subtree(s.inodes, c) < Subtree(s.inodes, i)
  {
    var t := s.inodes;
    assert NodeOk(t, i) && NodeOk(t, c);
    assert i in Subtree(t, i) && i !in Subtree(t, c);
  }

  lemma {:induction false} OwnedAll(s: FS, i: Id, j: Id)
    requires WF(s) && i in s.inodes && j in s.inodes && Under(s.inodes[j].path, s.inodes[i].path)
    ensures s.inodes[j].owner == s.inodes[i].owner
    decreases |s.inodes[j].path|
  {
    if i == j {
    } else {
      ParentUnder(s.inodes, s.index, s.next, i, j);
      assert NodeOk(s.inodes, j);
      OwnedAll(s, i, s.inodes[j].parent);
    }
  }

  lemma SubtreeOwner(s: FS, i: Id)
    requires WF(s) && i in s.inodes
    ensures forall j :: j in s.inodes && Under(s.inodes[j].path, s.inodes[i].path) ==> s.inodes[j].owner == s.inodes[i].owner
  {
    forall j | j in s.inodes && Under(s.inodes[j].path, s.inodes[i].path)
      ensures s.inodes[j].owner == s.inodes[i].owner
    {
      OwnedAll(s, i, j);
    }
  }

  // ---------------------------------------------------------------- post-order lists

  /** No entry lies above a later one: children come before their parents. */
  ghost predicate ChildrenFirst(t: Tree, r: seq<Id>) {
    && (forall a :: 0 <= a < |r| ==> r[a] in t)
    && forall a, b :: 0 <= a < b < |r| ==> !Under(t[r[b]].path, t[r[a]].path)
  }

  /** `r` lists everything strictly below `i`, once each, children first. */
  ghost predicate Collected(t: Tree, i: Id, r: seq<Id>) {
    && i in t && NoDup(r) && ChildrenFirst(t, r)
    && forall j :: j in r <==> j in t && j != i && Under(t[j].path, t[i].path)
  }

  /** `r` lists everything at or below one of `cs`. */
  ghost predicate CollectedSome(t: Tree, cs: seq<Id>, r: seq<Id>) {
    && NoDup(r) && ChildrenFirst(t, r)
    && (forall j :: j in r ==> j in t && exists c :: c in cs && c in t && Under(t[j].path, t[c].path))
    && (forall j, c :: j in t && c in cs && c in t && Under(t[j].path, t[c].path) ==> j in r)
  }

  lemma SiblingsApart(s: FS, i: Id, c: Id, c': Id, j: Id)
    requires WF(s) && i in s.inodes && c in s.inodes[i].children && c' in s.inodes[i].children && j in s.inodes
    requires c in s.inodes && c' in s.inodes
    requires Under(s.inodes[j].path, s.inodes[c].path) && Under(s.inodes[j].path, s.inodes[c'].path)
    ensures c == c'
  {
    OneStepBelow(s.inodes, s.index, s.next, j, i, c, c');
  }

  /** The collected subtrees of earlier siblings share nothing with that of `c`. */
  lemma CollectApart(s: FS, i: Id, cs: seq<Id>, c: Id, r: seq<Id>, a: Id, b: Id)
    requires WF(s) && i in s.inodes && c in s.inodes[i].children && c !in cs && c in s.inodes
    requires forall x :: x in cs ==> x in s.inodes[i].children
    requires CollectedSome(s.inodes, cs, r) && a in r && b in s.inodes && Under(s.inodes[b].path, s.inodes[c].path)
    ensures a in s.inodes && !Under(s.inodes[b].path, s.inodes[a].path)
  {
    var c' :| c' in cs && c' in s.inodes && Under(s.inodes[a].path, s.inodes[c'].path);
    if Under(s.inodes[b].path, s.inodes[a].path) {
      SiblingsApart(s, i, c, c', b);
      assert false;
    }
  }

  lemma OrderedNoDup(t: Tree, r: seq<Id>)
    requires ChildrenFirst(t, r)
    ensures NoDup(r)
  {
    forall a, b | 0 <= a < b < |r| ensures r[a] != r[b] {
      assert Under(t[r[a]].path, t[r[a]].path);
    }
  }

  lemma OrderedConcat(t: Tree, r: seq<Id>, r': seq<Id>)
    requires ChildrenFirst(t, r) && ChildrenFirst(t, r')
    requires forall x, y :: x in r && y in r' ==> x in t && y in t && !Under(t[y].path, t[x].path)
    ensures ChildrenFirst(t, r + r')
  {
    var all := r + r';
    forall a, b | 0 <= a < b < |all| ensures !Under(t[all[b]].path, t[all[a]].path) {
      if a < |r| <= b { assert all[a] in r && all[b] in r'; }
    }
  }

  lemma BelowThenSelf(s: FS, c: Id, below: seq<Id>)
    requires WF(s) && Collected(s.inodes, c, below)
    ensures ChildrenFirst(s.inodes, below + [c])
    ensures forall y :: y in below + [c] ==> y in s.inodes && Under(s.inodes[y].path, s.inodes[c].path)
  {
    var t := s.inodes;
    var all := below + [c];
    forall a, b | 0 <= a < b < |all| ensures !Under(t[all[b]].path, t[all[a]].path) {
      if b == |below| {
        var x := below[a];
        assert x in below;
        if t[x].path == t[c].path { SamePath(t, s.index, s.next, x, c); }
      }
    }
  }

  lemma CollectOrder(s: FS, i: Id, cs: seq<Id>, c: Id, r: seq<Id>, r': seq<Id>)
    requires WF(s) && i in s.inodes && c in s.inodes[i].children && c !in cs && c in s.inodes
    requires forall x :: x in cs ==> x in s.inodes[i].children
    requires CollectedSome(s.inodes, cs, r) && ChildrenFirst(s.inodes, r) && ChildrenFirst(s.inodes, r')
    requires forall y :: y in r' ==> y in s.inodes && Under(s.inodes[y].path, s.inodes[c].path)
    ensures ChildrenFirst(s.inodes, r + r')
  {
    hide WF, CollectedSome, ChildrenFirst;
    var t := s.inodes;
    forall x, y | x in r && y in r' ensures x in t && y in t && !Under(t[y].path, t[x].path) {
      CollectApart(s, i, cs, c, r, x, y);
    }
    OrderedConcat(t, r, r');
  }

  lemma CollectNone(t: Tree, cs: seq<Id>)
    ensures CollectedSome(t, cs[..0], [])
  {
  }

  lemma CollectOne(s: FS, i: Id, k: nat, r: seq<Id>, below: seq<Id>)
    requires WF(s) && i in s.inodes && k < |s.inodes[i].children|
    requires CollectedSome(s.inodes, s.inodes[i].children[..k], r)
    requires Collected(s.inodes, s.inodes[i].children[k], below)
    ensures CollectedSome(s.inodes, s.inodes[i].children[..k + 1], r + below + [s.inodes[i].children[k]])
  {
    var t, cs := s.inodes, s.inodes[i].children;
    var c := cs[k];
    assert NodeOk(t, i);
    assert c in cs;
    assert c !in cs[..k];
    BelowThenSelf(s, c, below);
    CollectOrder(s, i, cs[..k], c, r, below + [c]);
    var all := r + below + [c];
    assert all == r + (below + [c]);
    OrderedNoDup(t, all);
    assert cs[..k + 1] == cs[..k] + [c];
    forall j | j in all ensures j in t && exists x :: x in cs[..k + 1] && x in t && Under(t[j].path, t[x].path) {
      if j in r {
        var x :| x in cs[..k] && x in t && Under(t[j].path, t[x].path);
        assert x in cs[..k + 1];
      } else {
        assert c in cs[..k + 1];
      }
    }
  }

  lemma CollectAll(s: FS, i: Id, r: seq<Id>)
    requires WF(s) && i in s.inodes && CollectedSome(s.inodes, s.inodes[i].children, r)
    ensures Collected(s.inodes, i, r)
  {
    var t := s.inodes;
    assert NodeOk(t, i);
    forall j | j in t && j != i && Under(t[j].path, t[i].path) ensures j in r {
      var c := ChainChild(t, s.index, s.next, i, j);
    }
    forall j | j in r ensures j in t && j != i && Under(t[j].path, t[i].path) {
      var c :| c in t[i].children && c in t && Under(t[j].path, t[c].path);
      assert NodeOk(t, c);
    }
  }

  // ---------------------------------------------------------------- repathing a subtree

  /** `t` with the paths of everything below `i` (as `t0` has it) moved to `newPath`. */
  ghost function Repathed(t: Tree, t0: Tree, i: Id, newPath: Path): Tree
    requires i in t0 && t.Keys == t0.Keys
  {
    map j | j in t ::
      if Under(t0[j].path, t0[i].path) then t[j].(path := newPath + t0[j].path[|t0[i].path|..]) else t[j]
  }

  /** The same for `i` itself and the subtrees of some of its children. */
  ghost function RepathedSome(t: Tree, t0: Tree, i: Id, newPath: Path, cs: seq<Id>): Tree
    requires i in t0 && t.Keys == t0.Keys
  {
    map j | j in t ::
      if Under(t0[j].path, t0[i].path) && (j == i || BelowOne(t0, j, cs))
      then t[j].(path := newPath + t0[j].path[|t0[i].path|..]) else t[j]
  }

  ghost predicate BelowOne(t0: Tree, j: Id, cs: seq<Id>)
    requires j in t0
  {
    exists c :: c in cs && c in t0 && Under(t0[j].path, t0[c].path)
  }

  /** Below `i` the working table has the lists, kinds and names of `t0`. */
  ghost predicate SameBelow(t0: Tree, t: Tree, i: Id) {
    && t.Keys == t0.Keys && i in t0
    && forall j :: j in t0 && Under(t0[j].path, t0[i].path) ==>
         && t[j].children == t0[j].children && t[j].isDir == t0[j].isDir
         && (j != i ==> t[j].name == t0[j].name)
  }

  lemma RepathStart(s: FS, t: Tree, i: Id, newPath: Path, cs: seq<Id>)
    requires WF(s) && SameBelow(s.inodes, t, i)
    ensures t[i := t[i].(path := newPath)] == RepathedSome(t, s.inodes, i, newPath, cs[..0])
  {
    var t0 := s.inodes;
    assert t0[i].path[|t0[i].path|..] == [];
    assert forall j :: j in t0 ==> !BelowOne(t0, j, cs[..0]);
    assert newPath + [] == newPath;
  }

  lemma RepathTail(base: Path, name: Name, p: Path, newPath: Path)
    requires Under(p, base + [name])
    ensures Under(p, base)
    ensures (newPath + [name]) + p[|base| + 1..] == newPath + p[|base|..]
  {
    assert p[..|base| + 1] == base + [name];
    assert p[|base|] == name;
    assert p[|base|..] == [name] + p[|base| + 1..];
  }

  lemma ChildPath(s: FS, i: Id, c: Id)
    requires WF(s) && i in s.inodes && c in s.inodes[i].children
    ensures c in s.inodes && c != i && s.inodes[c].path == s.inodes[i].path + [s.inodes[c].name]
  {
    assert NodeOk(s.inodes, i);
    assert NodeOk(s.inodes, c);
  }

  lemma RepathNode(t0: Tree, t: Tree, i: Id, newPath: Path, k: nat, j: Id)
    requires i in t0 && t.Keys == t0.Keys && j in t0 && k < |t0[i].children|
    requires t0[i].children[k] in t0 && t0[t0[i].children[k]].path == t0[i].path + [t0[t0[i].children[k]].name]
    ensures
      var c, t1 := t0[i].children[k], RepathedSome(t, t0, i, newPath, t0[i].children[..k]);
      Repathed(t1, t0, c, newPath + [t0[c].name])[j]
      == RepathedSome(t, t0, i, newPath, t0[i].children[..k + 1])[j]
  {
    var c := t0[i].children[k];
    BelowOneMore(t0, j, t0[i].children, k);
    if Under(t0[j].path, t0[c].path) { RepathTail(t0[i].path, t0[c].name, t0[j].path, newPath); }
  }

  lemma RepathStepSame(s: FS, t: Tree, i: Id, newPath: Path, k: nat, c: Id)
    requires WF(s) && SameBelow(s.inodes, t, i) && k < |s.inodes[i].children| && c == s.inodes[i].children[k]
    ensures c in s.inodes && c != i
    ensures SameBelow(s.inodes, RepathedSome(t, s.inodes, i, newPath, s.inodes[i].children[..k]), c)
  {
    hide WF, BelowOne;
    var t0 := s.inodes;
    ChildPath(s, i, c);
    forall j | j in t0 && Under(t0[j].path, t0[c].path) ensures Under(t0[j].path, t0[i].path) && (j != c ==> j != i) {
      RepathTail(t0[i].path, t0[c].name, t0[j].path, newPath);
      assert |t0[j].path| > |t0[i].path|;
    }
  }

  lemma RepathStep(s: FS, t: Tree, i: Id, newPath: Path, k: nat, c: Id)
    requires WF(s) && SameBelow(s.inodes, t, i) && k < |s.inodes[i].children| && c == s.inodes[i].children[k]
    ensures c in s.inodes && c != i
    ensures SameBelow(s.inodes, RepathedSome(t, s.inodes, i, newPath, s.inodes[i].children[..k]), c)
    ensures
      var t1 := RepathedSome(t, s.inodes, i, newPath, s.inodes[i].children[..k]);
      Repathed(t1, s.inodes, c, newPath + [s.inodes[c].name])
      == RepathedSome(t, s.inodes, i, newPath, s.inodes[i].children[..k + 1])
  {
    hide WF, BelowOne;
    var t0 := s.inodes;
    ChildPath(s, i, c);
    RepathStepSame(s, t, i, newPath, k, c);
    forall j | j in t0
      ensures Repathed(RepathedSome(t, t0, i, newPath, t0[i].children[..k]), t0, c, newPath + [t0[c].name])[j]
           == RepathedSome(t, t0, i, newPath, t0[i].children[..k + 1])[j]
    {
      RepathNode(t0, t, i, newPath, k, j);
    }
  }

  lemma BelowOneMore(t0: Tree, j: Id, cs: seq<Id>, k: nat)
    requires j in t0 && k < |cs| && cs[k] in t0
    ensures BelowOne(t0, j, cs[..k + 1]) <==> BelowOne(t0, j, cs[..k]) || Under(t0[j].path, t0[cs[k]].path)
  {
    assert cs[..k + 1] == cs[..k] + [cs[k]];
    if BelowOne(t0, j, cs[..k]) {
      var c :| c in cs[..k] && c in t0 && Under(t0[j].path, t0[c].path);
      assert c in cs[..k + 1];
    }
    if Under(t0[j].path, t0[cs[k]].path) { assert cs[k] in cs[..k + 1]; }
  }

  lemma RepathDone(s: FS, t: Tree, i: Id, newPath: Path)
    requires WF(s) && SameBelow(s.inodes, t, i)
    ensures RepathedSome(t, s.inodes, i, newPath, s.inodes[i].children) == Repathed(t, s.inodes, i, newPath)
  {
    var t0 := s.inodes;
    forall j | j in t0 && j != i && Under(t0[j].path, t0[i].path) ensures BelowOne(t0, j, t0[i].children) {
      var c := ChainChild(t0, s.index, s.next, i, j);
    }
  }

  /** Links first, then paths: together exactly a move. */
  ghost function Relinked(t: Tree, i: Id, to: Id, name: Name): Tree
    requires i in t && to in t && t[i].parent in t
  {
    var p := t[i].parent;
    var t1 := t[p := t[p].(children := Without(t[p].children, i))];
    var t2 := t1[i := t1[i].(parent := to, name := name)];
    t2[to := t2[to].(children := t2[to].children + [i])]
  }

  lemma RelinkThenRepath(t: Tree, i: Id, to: Id, name: Name)
    requires i in t && to in t && t[i].parent in t && t[i].parent != i && to != i && t[i].parent != to
    ensures Relinked(t, i, to, name).Keys == t.Keys
    ensures Repathed(Relinked(t, i, to, name), t, i, t[to].path + [name]) == Moved(t, i, to, name)
  {
    var p := t[i].parent;
    var t' := Relinked(t, i, to, name);
    var dst := t[to].path + [name];
    forall j | j in t ensures Repathed(t', t, i, dst)[j] == MovedNode(t, i, to, name, j) {
      var cs := if j == p then Without(t[j].children, i) else t[j].children;
      assert cs + [] == cs;
    }
  }

  lemma RelinkSameBelow(s: FS, i: Id, to: Id, name: Name)
    requires WF(s) && CanMove(s.inodes, i, to) && s.inodes[i].parent != to
    ensures s.inodes[i].parent in s.inodes && s.inodes[i].parent != i && to != i
    ensures SameBelow(s.inodes, Relinked(s.inodes, i, to, name), i)
  {
    var t := s.inodes;
    assert NodeOk(t, i);
    var t' := Relinked(t, i, to, name);
    ParentUnder(t, s.index, s.next, i, t[i].parent);
    assert !Under(t[t[i].parent].path, t[i].path);
    assert forall j :: j in t && j != t[i].parent && j != i && j != to ==> t'[j] == t[j];
  }

  lemma BelowFacts(s: FS, t: Tree, i: Id)
    requires WF(s) && SameBelow(s.inodes, t, i)
    ensures i in t && i in s.inodes && t[i].children == s.inodes[i].children && t.Keys == s.inodes.Keys
  {
    assert Under(s.inodes[i].path, s.inodes[i].path);
  }

  lemma ChildName(s: FS, t: Tree, i: Id, newPath: Path, k: nat, c: Id)
    requires WF(s) && SameBelow(s.inodes, t, i) && k < |s.inodes[i].children| && c == s.inodes[i].children[k]
    ensures
      var t1 := RepathedSome(t, s.inodes, i, newPath, s.inodes[i].children[..k]);
      c in t1 && t1[c].name == s.inodes[c].name
  {
    assert NodeOk(s.inodes, i);
    assert c in s.inodes[i].children;
    assert NodeOk(s.inodes, c);
  }

  // ---------------------------------------------------------------- climbing to the root

  /** The sizes of the ancestors of `i` at depths `lo` to `hi` passed through `f`. */
  ghost function Changed(t: Tree, i: Id, f: nat -> nat, lo: int, hi: int): Tree
    requires i in t
  {
    map j | j in t ::
      if Under(t[i].path, t[j].path) && lo <= |t[j].path| < hi then t[j].(size := f(t[j].size)) else t[j]
  }

  lemma ChangedNone(t: Tree, i: Id, f: nat -> nat, lo: int)
    requires i in t
    ensures Changed(t, i, f, lo, lo) == t
  {
  }

  /** One more ancestor. */
  lemma ChangedStep(s: FS, i: Id, f: nat -> nat, n: Id, hi: int)
    requires WF(s) && i in s.inodes && n in s.inodes && Under(s.inodes[i].path, s.inodes[n].path)
    requires |s.inodes[n].path| < hi
    ensures
      var t1 := Changed(s.inodes, i, f, |s.inodes[n].path| + 1, hi);
      && n in t1 && t1[n] == s.inodes[n]
      && t1[n := t1[n].(size := f(t1[n].size))] == Changed(s.inodes, i, f, |s.inodes[n].path|, hi)
  {
    var t := s.inodes;
    forall j | j in t && Under(t[i].path, t[j].path) && |t[j].path| == |t[n].path| ensures j == n {
      assert t[j].path == t[i].path[..|t[n].path|] == t[n].path;
      SamePath(t, s.index, s.next, j, n);
    }
  }

  /** Climbing one step from a non-root ancestor reaches an ancestor one segment shorter. */
  lemma ClimbOne(s: FS, i: Id, n: Id)
    requires WF(s) && i in s.inodes && n in s.inodes && Under(s.inodes[i].path, s.inodes[n].path)
    ensures
      var p := s.inodes[n].parent;
      p in s.inodes && Under(s.inodes[i].path, s.inodes[p].path)
      && (if p == n then |s.inodes[n].path| == 1 else |s.inodes[p].path| + 1 == |s.inodes[n].path|)
  {
    assert NodeOk(s.inodes, n);
  }

  lemma ChangedAll(s: FS, i: Id, f: nat -> nat, d: int)
    requires WF(s) && i in s.inodes && forall x: nat :: f(x) == (x + d) % (MAX_UINT64 + 1)
    ensures Changed(s.inodes, i, f, 1, |s.inodes[i].path| + 1) == Resized(s.inodes, i, d)
  {
    var t := s.inodes;
    forall j | j in t && Under(t[i].path, t[j].path) ensures 1 <= |t[j].path| <= |t[i].path| {
      PathNonEmpty(t, j);
    }
  }

  /** The tree after a deletion's size deduction, before anything is removed. */
  ghost function Deducted(t: Tree, i: Id): Tree
    requires i in t
  {
    map j | j in t :: if j != i && Under(t[i].path, t[j].path) then t[j].(size := Less(t[j].size, t[i].size)) else t[j]
  }

  lemma ChangedAbove(s: FS, i: Id, f: nat -> nat)
    requires WF(s) && i in s.inodes && forall x: nat :: f(x) == Less(x, s.inodes[i].size)
    ensures Changed(s.inodes, i, f, 1, |s.inodes[i].path|) == Deducted(s.inodes, i)
  {
    var t := s.inodes;
    forall j | j in t && Under(t[i].path, t[j].path) ensures 1 <= |t[j].path| && (j != i ==> |t[j].path| < |t[i].path|) {
      PathNonEmpty(t, j);
      if |t[j].path| == |t[i].path| { SamePath(t, s.index, s.next, i, j); }
    }
  }

  lemma DeductNothing(t: Tree, i: Id)
    requires i in t && t[i].size == 0
    ensures Deducted(t, i) == t
  {
  }

  ghost function Survivors(t: Tree, i: Id): Tree
    requires i in t
  {
    map j | j in t && !Under(t[j].path, t[i].path) :: Deducted(t, i)[j]
  }

  /** Deducting, removing the subtree and unlinking it is the closed form of a deletion. */
  lemma DropInSteps(s: FS, i: Id, t': Tree)
    requires WF(s) && i in s.inodes && !IsRoot(s.inodes, i)
    requires t' == Survivors(s.inodes, i)
    ensures s.inodes[i].parent in t'
    ensures var p := s.inodes[i].parent;
      t'[p := t'[p].(children := Without(t'[p].children, i))] == Dropped(s.inodes, i)
  {
    hide WF;
    ParentStays(s, i);
    assert Under(s.inodes[i].path, s.inodes[i].path);
    UnlinkSurvivors(s.inodes, i);
  }

  lemma UnlinkSurvivors(t: Tree, i: Id)
    requires i in t && t[i].parent in t && !Under(t[t[i].parent].path, t[i].path) && Under(t[i].path, t[i].path)
    ensures var t', p := Survivors(t, i), t[i].parent;
      t'[p := t'[p].(children := Without(t'[p].children, i))] == Dropped(t, i)
  {
    hide Under, Less, Without;
    var t', p := Survivors(t, i), t[i].parent;
    var u := t'[p := t'[p].(children := Without(t'[p].children, i))];
    assert u.Keys == Dropped(t, i).Keys;
    assert forall j :: j in t' && j != i ==> t'[j] == t[j].(size := if Under(t[i].path, t[j].path) then Less(t[j].size, t[i].size) else t[j].size);
  }

  lemma ParentStays(s: FS, i: Id)
    requires WF(s) && i in s.inodes && !IsRoot(s.inodes, i)
    ensures s.inodes[i].parent in s.inodes && !Under(s.inodes[s.inodes[i].parent].path, s.inodes[i].path)
  {
    assert NodeOk(s.inodes, i);
  }

  /** A directory that lists `i` among its children. */
  predicate ListsChild(t: Tree, d: Id, i: Id) {
    d in t && t[d].isDir && d != i && i in t[d].children
  }

  function Unlisted(t: Tree, d: Id, i: Id): Tree
    requires d in t
  {
    t[d := t[d].(children := Without(t[d].children, i))]
  }

  lemma {:induction false} WithoutSnoc(s: seq<Id>, x: Id, y: Id)
    ensures Without(s + [x], y) == Without(s, y) + (if x == y then [] else [x])
  {
    if s == [] {
      assert s + [x] == [x];
    } else {
      assert (s + [x])[1..] == s[1..] + [x];
      WithoutSnoc(s[1..], x, y);
    }
  }

  // ---------------------------------------------------------------- shares, one snapshot at a time

  /** The snapshot that lands on `x`, if there is one outside `todo`. */
  predicate Landed(snapshots: map<Path, seq<string>>, src: Path, dst: Path, todo: set<Path>, x: Path) {
    Under(x, dst) && Rebase(x, dst, src) in snapshots && Rebase(x, dst, src) !in todo
  }

  /** Snapshots outside `todo` are merged in, everything else is as before. */
  ghost predicate Reattaching(all: map<Path, seq<string>>, now: map<Path, seq<string>>,
                              snapshots: map<Path, seq<string>>, src: Path, dst: Path, todo: set<Path>)
  {
    && (forall x :: x in now <==> x in all || Landed(snapshots, src, dst, todo, x))
    && (forall x :: x in now && Landed(snapshots, src, dst, todo, x) ==>
          now[x] == Merge(ListAt(all, x), snapshots[Rebase(x, dst, src)]))
    && (forall x :: x in now && !Landed(snapshots, src, dst, todo, x) ==> now[x] == all[x])
  }

  lemma ReattachStep(all: map<Path, seq<string>>, now: map<Path, seq<string>>, snapshots: map<Path, seq<string>>,
                     src: Path, dst: Path, todo: set<Path>, p: Path)
    requires Reattaching(all, now, snapshots, src, dst, todo)
    requires p in todo && p in snapshots && Under(p, src)
    ensures
      var at := Rebase(p, src, dst);
      Reattaching(all, now[at := Merge(ListAt(now, at), snapshots[p])], snapshots, src, dst, todo - {p})
  {
    var at := Rebase(p, src, dst);
    RebaseInverse(p, src, dst);
    forall x ensures Landed(snapshots, src, dst, todo - {p}, x) <==> Landed(snapshots, src, dst, todo, x) || x == at {
      if Under(x, dst) { RebaseInverse(x, dst, src); }
    }
    assert !Landed(snapshots, src, dst, todo, at);
  }

  lemma ReattachDone(all: map<Path, seq<string>>, now: map<Path, seq<string>>, snapshots: map<Path, seq<string>>,
                     src: Path, dst: Path)
    requires Reattaching(all, now, snapshots, src, dst, {}) && forall q :: q in snapshots ==> Under(q, src)
    ensures now == Reattach(all, snapshots, src, dst)
  {
    forall x ensures x in RenamePrefix(snapshots, src, dst) <==> Landed(snapshots, src, dst, {}, x) {
      if Landed(snapshots, src, dst, {}, x) {
        RebaseInverse(x, dst, src);
      } else if x in RenamePrefix(snapshots, src, dst) {
        var q :| q in snapshots && Rebase(q, src, dst) == x;
        RebaseInverse(q, src, dst);
      }
    }
    forall x | Landed(snapshots, src, dst, {}, x)
      ensures RenamePrefix(snapshots, src, dst)[x] == snapshots[Rebase(x, dst, src)]
    {
      RebaseInverse(x, dst, src);
    }
  }

  lemma ReattachNone(all: map<Path, seq<string>>, snapshots: map<Path, seq<string>>, src: Path, dst: Path)
    ensures Reattaching(all, all, snapshots, src, dst, snapshots.Keys)
  {
  }

  // ---------------------------------------------------------------- moving, in steps

  lemma ChildListed(s: FS, i: Id)
    requires WF(s) && i in s.inodes && !IsRoot(s.inodes, i)
    ensures s.inodes[i].parent in s.inodes && i in s.inodes[s.inodes[i].parent].children && s.inodes[i].path != []
  {
    assert NodeOk(s.inodes, i);
  }

  lemma MoveVacancy(s: FS, i: Id, to: Id, name: Name)
    requires WF(s) && CanMove(s.inodes, i, to)
    ensures NameFree(s.inodes, to, name) ==>
              Vacant(s.index, s.inodes[to].path + [name]) && !Under(s.inodes[to].path + [name], s.inodes[i].path)
  {
    if NameFree(s.inodes, to, name) {
      FreeMeansVacant(s.inodes, s.index, s.next, to, name);
      NotIntoItself(s.inodes, s.index, s.next, i, to, name);
    }
  }

  /** After the checks and the trash directory, the move is possible. */
  lemma TrashReady(s0: FS, s1: FS, i: Id, user: string, tr: Id)
    requires WF(s0) && WF(s1) && Extends(s0, s1) && i in s0.inodes && TrashOf(s1, user, tr)
    requires !IsRoot(s0.inodes, i) && !IsTrash(s0.inodes, i) && s0.inodes[i].owner == user
    ensures i in s1.inodes && CanMove(s1.inodes, i, tr) && s1.inodes[i].path != []
  {
    assert NodeOk(s0.inodes, i);
    ExtendsKind(s0, s1, i);
    TrashCanMove(s1, i, user, tr);
    assert NodeOk(s1.inodes, i);
  }

  /** The name a successful trash used is free exactly when it was free beforehand. */
  lemma TrashNameUsed(s: FS, i: Id, user: string, recursive: bool, io: Io)
    requires WF(s) && i in s.inodes && Trash(s, i, user, recursive, io).1.Placed?
    ensures WF(Refresh(s, i))
    ensures
      var (s1, tr) := EnsureTrash(Refresh(s, i), user, io);
      && tr.Some?
      && (TrashNameFree(s, i, user) <==>
          NameFree(s1.inodes, tr.value, UniqueName(s1.inodes, tr.value, s1.inodes[i].name, i)))
  {
    RefreshWF(s, i);
    RefreshShape(s, i);
    TrashNameAfterRefresh(s, i, user);
    var s0 := Refresh(s, i);
    EnsureTrashWF(s0, user, io);
    TrashNameNow(s0, i, user, io);
  }

  lemma RestoreReady(s: FS, i: Id, user: string, tr: Id)
    requires WF(s) && i in s.trash && i in s.inodes && TrashOf(s, user, tr) && s.inodes[i].parent == tr
    ensures
      && user in s.users && s.users[user] in s.inodes && RestoreTarget(s, i, user) != tr
      && CanMove(s.inodes, i, RestoreTarget(s, i, user))
  {
    RestoreCanMove(s, i, user, tr);
  }

  lemma SnapshotsBelow(s: FS, i: Id)
    requires WF(s) && i in s.trash
    ensures forall p :: p in s.trash[i].snapshots ==> Under(p, s.trash[i].relPath)
  {
    assert TrashEntryOk(s.inodes, i, s.trash[i]);
  }

  lemma RestoreNameUsed(s: FS, i: Id, user: string, io: Io)
    requires WF(s) && i in s.inodes && i in s.trash && WF(Refresh(s, i))
    requires var (s1, tr) := EnsureTrash(Refresh(s, i), user, io); tr.Some? && s1.inodes[i].parent == tr.value
    ensures user in s.users && s.users[user] in s.inodes
    ensures
      var s1 := EnsureTrash(Refresh(s, i), user, io).0;
      var to := RestoreTarget(s1, i, user);
      to in s1.inodes &&
      (RestoreNameFree(s, i, user) <==> NameFree(s1.inodes, to, UniqueName(s1.inodes, to, s1.trash[i].name, i)))
  {
    RefreshShape(s, i);
    var s0 := Refresh(s, i);
    RestoreNameAfterRefresh(s, i, user);
    EnsureTrashWF(s0, user, io);
    TrashOrigin(s0, user, io);
    assert NodeOk(s0.inodes, i);
    RestoreReady(s0, i, user, EnsureTrash(s0, user, io).1.value);
  }

  // ---------------------------------------------------------------- deleting, in steps

  ghost function PathsOf(t: Tree, list: seq<Id>): set<Path>
    requires forall x :: x in list ==> x in t
  {
    set x | x in list :: t[x].path
  }

  lemma DeleteList(s: FS, i: Id, list: seq<Id>)
    requires WF(s) && list != [] && list[|list| - 1] == i && Collected(s.inodes, i, list[..|list| - 1])
    ensures NoDup(list) && forall j :: j in list <==> j in s.inodes && Under(s.inodes[j].path, s.inodes[i].path)
  {
    var r := list[..|list| - 1];
    assert list == r + [i];
    assert i !in r;
  }

  lemma DeductedShape(t: Tree, i: Id)
    requires i in t
    ensures Deducted(t, i).Keys == t.Keys && forall j :: j in t ==> Deducted(t, i)[j] == t[j].(size := Deducted(t, i)[j].size)
  {
  }

  lemma TablesAfter(s: FS, i: Id, list: seq<Id>)
    requires WF(s) && i in s.inodes
    requires forall j :: j in list <==> j in s.inodes && Under(s.inodes[j].path, s.inodes[i].path)
    ensures Deducted(s.inodes, i) - (set x | x in list) == Survivors(s.inodes, i)
    ensures Deducted(s.inodes, i).Keys == s.inodes.Keys
    ensures s.index - PathsOf(Deducted(s.inodes, i), list) == IndexWithout(s.index, s.inodes[i].path)
    ensures s.trash - (set x | x in list) == TrashWithin(s.trash, Dropped(s.inodes, i))
  {
    var t := s.inodes;
    DeductedShape(t, i);
    forall p | p in s.index ensures p in PathsOf(Deducted(t, i), list) <==> Under(p, t[i].path) {
      if Under(p, t[i].path) { assert s.index[p] in list; }
    }
    forall j | j in s.trash ensures j in list <==> j !in Dropped(t, i) {
      assert TrashEntryOk(t, j, s.trash[j]);
    }
  }

  // ---------------------------------------------------------------- small facts for the methods

  lemma RefreshDirectory(s: FS, p: Id)
    requires p in s.inodes
    ensures s.inodes[p].isDir ==> Refresh(s, p) == s
    ensures p in Refresh(s, p).inodes && Refresh(s, p).inodes[p].isDir == s.inodes[p].isDir
  {
  }

  lemma RootIsNew(s: FS, user: string)
    requires WF(s) && user !in s.users
    ensures [user] !in s.index
  {
    RootPathFresh(s.inodes, s.users, s.index, s.next, user);
  }

  // ---------------------------------------------------------------- descending by name

  /** The components a walk follows. */
  function Significant(components: seq<Name>): Path {
    if components == [] then []
    else if components[0] == "" || components[0] == "." then Significant(components[1..])
    else [components[0]] + Significant(components[1..])
  }

  lemma {:induction false} SignificantConcat(a: seq<Name>, b: seq<Name>)
    ensures Significant(a + b) == Significant(a) + Significant(b)
  {
    if a == [] {
      assert a + b == b;
    } else {
      assert (a + b)[1..] == a[1..] + b;
      SignificantConcat(a[1..], b);
    }
  }

  lemma SignificantSnoc(a: seq<Name>, name: Name)
    ensures Significant(a + [name]) == if name == "" || name == "." then Significant(a) else Significant(a) + [name]
  {
    SignificantConcat(a, [name]);
    assert [name][1..] == [];
  }

  lemma SignificantSplit(components: seq<Name>, k: nat)
    requires k < |components| && components[k] != "" && components[k] != "."
    ensures Under(Significant(components), Significant(components[..k]) + [components[k]])
  {
    hide Significant;
    SignificantConcat(components[..k + 1], components[k + 1..]);
    assert components == components[..k + 1] + components[k + 1..];
    SignificantSnoc(components[..k], components[k]);
    assert components[..k + 1] == components[..k] + [components[k]];
  }

  lemma RootIsDir(s: FS, user: string)
    requires WF(s) && user in s.users
    ensures s.users[user] in s.inodes && s.inodes[s.users[user]].isDir
  {
    assert NodeOk(s.inodes, s.users[user]);
  }

  lemma ChildIsNew(s: FS, p: Id, name: Name)
    requires WF(s) && p in s.inodes && NameFree(s.inodes, p, name)
    ensures s.inodes[p].path + [name] !in s.index && s.next !in s.inodes
  {
    hide Rooted, Aged, Founded, OnDisk, TrashOk;
    AddIndexed(s.inodes, s.index, p, s.next, name, true);
  }

  lemma AtRoot(s: FS, user: string)
    requires WF(s) && user in s.users
    ensures s.users[user] in s.inodes && s.inodes[s.users[user]].path == [user] + Significant([])
  {
    assert NodeOk(s.inodes, s.users[user]);
  }

  lemma PathIsIndexed(s: FS, i: Id)
    requires WF(s) && i in s.inodes
    ensures s.inodes[i].path in s.index && s.index[s.inodes[i].path] == i
  {
  }

  lemma NothingBelowFile(s: FS, d: Id, name: Name, p: Path)
    requires WF(s) && d in s.inodes && !s.inodes[d].isDir && Under(p, s.inodes[d].path + [name])
    ensures p !in s.index
  {
    hide Rooted, Aged, Founded, OnDisk, TrashOk;
    assert NodeOk(s.inodes, d);
    FreeMeansVacant(s.inodes, s.index, s.next, d, name);
  }

  lemma NothingOfThatName(s: FS, d: Id, name: Name, p: Path)
    requires WF(s) && d in s.inodes && Under(p, s.inodes[d].path + [name])
    requires FindChild(s.inodes, s.inodes[d].children, name).None?
    ensures p !in s.index
  {
    hide Rooted, Aged, Founded, OnDisk, TrashOk;
    FreeMeansVacant(s.inodes, s.index, s.next, d, name);
  }
}
