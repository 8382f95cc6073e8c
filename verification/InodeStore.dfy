/**
The persistent path-to-id index as an object updated in place.
*/
module InodeStoreImpl {
  import opened Options
  import opened Paths
  import opened InodeTree
  import opened FileOps

  class InodeStore {
    var pathToID: map<Path, Id>
    var nextInodeID: Id

    constructor ()
      ensures pathToID == map[] && nextInodeID == 0
    {
      pathToID := map[];
      nextInodeID := 0;
    }

    /** The id of a known path, or a fresh one. */
    method GetOrAssign(path: Path) returns (id: Id)
      modifies this
      ensures (id, pathToID, nextInodeID) == Assign(old(pathToID), old(nextInodeID), path)
    {
      if path in pathToID {
        return pathToID[path];
      }
      id := nextInodeID;
      nextInodeID := nextInodeID + 1;
      pathToID := pathToID[path := id];
    }

    method Get(path: Path) returns (id: Option<Id>)
      ensures id == (if path in pathToID then Some(pathToID[path]) else None)
    {
      id := if path in pathToID then Some(pathToID[path]) else None;
    }

    method Remove(path: Path)
      modifies this`pathToID
      ensures pathToID == old(pathToID) - {path}
    {
      pathToID := pathToID - {path};
    }

    /** Re-keys, one entry at a time and in any order, every entry at or below `src`. When the
        destination is vacant and not inside the source the order does not matter and the result
        is the closed form; entries inserted on the way are not below `src`, so visiting them
        again would change nothing. */
    method RenamePrefix(src: Path, dst: Path)
      modifies this`pathToID
      ensures
        Vacant(old(pathToID), dst) && !Under(dst, src) && src != [] && dst != [] ==>
          pathToID == Paths.RenamePrefix(old(pathToID), src, dst)
    {
      if src == [] || dst == [] || src == dst {
        return;
      }
      ghost var before := pathToID;
      ghost var good := Vacant(before, dst) && !Under(dst, src);
      var todo := pathToID.Keys;
      while todo != {}
        invariant todo <= before.Keys
        invariant good ==> pathToID.Keys >= todo
        invariant good ==> Partial(before, pathToID, src, dst, todo)
        decreases todo
      {
        var path :| path in todo;
        if path in pathToID && Under(path, src) {
          var id := pathToID[path];
          if good { PartialStep(before, pathToID, src, dst, todo, path); }
          pathToID := (pathToID - {path})[Rebase(path, src, dst) := id];
        }
        todo := todo - {path};
      }
      if good { PartialDone(before, pathToID, src, dst); }
    }
  }

  /** Entries still to visit are untouched, the others have been re-keyed. */
  ghost predicate Partial(before: map<Path, Id>, now: map<Path, Id>, src: Path, dst: Path, todo: set<Path>) {
    && (forall p :: p in todo ==> p in before && p in now && now[p] == before[p])
    && (forall p :: p in before && p !in todo ==> Rebase(p, src, dst) in now && now[Rebase(p, src, dst)] == before[p])
    && (forall q :: q in now ==> Explained(before, src, dst, todo, q))
  }

  /** A key is a visited entry at its new place or an entry that has not moved. */
  ghost predicate Explained(before: map<Path, Id>, src: Path, dst: Path, todo: set<Path>, q: Path) {
    if Under(q, dst) then Rebase(q, dst, src) in before && Rebase(q, dst, src) !in todo
    else q in before && (q in todo || !Under(q, src))
  }

  lemma PartialStep(before: map<Path, Id>, now: map<Path, Id>, src: Path, dst: Path, todo: set<Path>, path: Path)
    requires Vacant(before, dst) && Partial(before, now, src, dst, todo)
    requires path in todo && Under(path, src)
    ensures Partial(before, (now - {path})[Rebase(path, src, dst) := now[path]], src, dst, todo - {path})
  {
    var moved := Rebase(path, src, dst);
    var now' := (now - {path})[moved := now[path]];
    var todo' := todo - {path};
    RebaseInverse(path, src, dst);
    assert !Under(path, dst);
    forall p | p in todo' ensures p in before && p in now' && now'[p] == before[p] {
    }
    forall p | p in before && p !in todo'
      ensures Rebase(p, src, dst) in now' && now'[Rebase(p, src, dst)] == before[p]
    {
      if p != path { VisitedElsewhere(before, src, dst, p, path); }
    }
    forall q | q in now' ensures Explained(before, src, dst, todo', q) {
      if q != moved { assert Explained(before, src, dst, todo, q); MovedOnce(before, src, dst, q, path); }
    }
  }

  lemma VisitedElsewhere(before: map<Path, Id>, src: Path, dst: Path, p: Path, path: Path)
    requires Vacant(before, dst) && p in before && path in before && Under(path, src) && p != path
    ensures Rebase(p, src, dst) != path && Rebase(p, src, dst) != Rebase(path, src, dst)
  {
    RebaseInverse(path, src, dst);
    RebaseBack(p, src, dst);
    if Under(p, src) { RebaseInverse(p, src, dst); }
  }

  lemma MovedOnce(before: map<Path, Id>, src: Path, dst: Path, q: Path, path: Path)
    requires Vacant(before, dst) && path in before && Under(path, src) && q != Rebase(path, src, dst)
    ensures Under(q, dst) ==> Rebase(q, dst, src) != path
  {
    if Under(q, dst) { RebaseInverse(q, dst, src); }
  }

  lemma PartialDone(before: map<Path, Id>, now: map<Path, Id>, src: Path, dst: Path)
    requires Vacant(before, dst) && Partial(before, now, src, dst, {})
    ensures now == Paths.RenamePrefix(before, src, dst)
  {
    var after := Paths.RenamePrefix(before, src, dst);
    forall q | q in now ensures q in after && after[q] == now[q] {
      assert Explained(before, src, dst, {}, q);
      var p := if Under(q, dst) then Rebase(q, dst, src) else q;
      if Under(q, dst) { RebaseInverse(q, dst, src); }
      RenameKeeps(before, src, dst, p);
    }
    forall q | q in after ensures q in now {
      var p := RenameOrigin(before, src, dst, q);
    }
  }
}
