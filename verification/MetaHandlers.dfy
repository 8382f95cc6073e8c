/**
Whole requests against the in-process store: the critical section on the tables, then
the writes it owes, in order. Each leaves tables and store in full agreement.
*/
module MetaHandlers {
  import opened Options
  import opened SharePath
  import opened MetaStore
  import opened MetaTables
  import opened MetaAgreement
  import opened MetaCommits
  import opened MetaProtocol
  import opened MemoryStore
  import opened MetaServerImpl
  import opened MetaAnswers

  /** Nobody holds the write-order lock. */
  ghost function Quiescent(m: Mem, s: Store): Sys {
    Sys(m, s, Writing([]))
  }

  /** A listing of a set, in some order. */
  method Elements<T(==)>(s: set<T>) returns (q: seq<T>)
    ensures (set x | x in q) == s
  {
    q := [];
    var todo := s;
    while todo != {}
      invariant forall x :: x in q <==> x in s && x !in todo
      invariant todo <= s
      decreases |todo|
    {
      var x :| x in todo;
      q := q + [x];
      todo := todo - {x};
    }
  }

  method Records(who: set<string>, home: string) returns (recs: seq<UserRecord>)
    ensures Names(recs) == who && forall i :: 0 <= i < |recs| ==> recs[i].home == home
  {
    recs := [];
    var todo := who;
    while todo != {}
      invariant todo <= who && Names(recs) == who - todo
      invariant forall i :: 0 <= i < |recs| ==> recs[i].home == home
      decreases |todo|
    {
      var u :| u in todo;
      ghost var before := recs;
      recs := recs + [UserRecord(u, home)];
      assert recs[..|recs| - 1] == before;
      todo := todo - {u};
    }
  }

  method AssignAll(store: MemStore, who: set<string>, home: string)
    modifies store
    ensures store.Contents() == Apply(old(store.Contents()), Assign(who, home))
  {
    hide Apply, Assigned, Names;
    var recs := Records(who, home);
    AssignedIsAssign(store.Contents(), recs, home);
    store.AssignUsers(recs);
  }

  /** One write a handler may owe. */
  predicate Issuable(w: Write) {
    !w.MoveUsers? && !w.InsertNode?
  }

  method IssueOne(store: MemStore, w: Write)
    requires Issuable(w)
    modifies store
    ensures store.Contents() == Apply(old(store.Contents()), w)
  {
    hide Apply;
    match w
    case Upsert(node, address) => var _ := store.UpsertFileServer(node, address);
    case RemoveNode(node) => store.RemoveFileServer(node);
    case Rename(from, to) => var _ := store.RenameFileServer(from, to);
    case Assign(who, home) => AssignAll(store, who, home);
    case RemoveUsers(who) => var q := Elements(who); store.RemoveUsers(q);
    case AddShares(gs) => var q := Elements(gs); store.AddShares(q);
    case RemoveShare(g) => store.RemoveShare(g);
    case RemoveSharesInvolving(who) => var q := Elements(who); store.RemoveSharesInvolving(q);
    case RemoveSharesByOwner(who) => var q := Elements(who); store.RemoveSharesByOwner(q);
  }

  method Issue(store: MemStore, ws: seq<Write>)
    requires forall w :: w in ws ==> Issuable(w)
    modifies store
    ensures store.Contents() == ApplyAll(old(store.Contents()), ws)
  {
    hide Apply;
    ghost var s := store.Contents();
    EmptyWrites(s);
    for i := 0 to |ws|
      invariant store.Contents() == ApplyAll(s, ws[..i])
    {
      assert ws[i] in ws;
      IssueOne(store, ws[i]);
      assert ws[..i + 1] == ws[..i] + [ws[i]];
      ApplyAllConcat(s, ws[..i], [ws[i]]);
      ApplyOne(ApplyAll(s, ws[..i]), ws[i]);
    }
    assert ws[..|ws|] == ws;
  }

  /** Once its writes are issued, an operation is over. */
  lemma WritesSettle(m: Mem, s: Store, ws: seq<Write>)
    requires Inv(Sys(m, s, Writing(ws)))
    ensures Inv(Quiescent(m, ApplyAll(s, ws)))
  {
    hide MemInv, Agree, StoreInv;
    SafeEnd(s, ws);
    EmptyWrites(ApplyAll(s, ws));
  }

  lemma {:induction false} SafeEnd(s: Store, ws: seq<Write>)
    requires Safe(s, ws)
    ensures StoreInv(ApplyAll(s, ws)) && Safe(ApplyAll(s, ws), [])
    decreases |ws|
  {
    hide StoreInv;
    if ws == [] {
    } else {
      SafeEnd(Apply(s, ws[0]), ws[1..]);
    }
  }

  lemma RegisterWritesIssuable(m: Mem, req: Req, num: nat, adoptFrom: Option<string>)
    ensures forall w :: w in RegisterWrites(m, req, num, adoptFrom) ==> Issuable(w)
  {
    hide Missing, Incoming, Grants, ResolveNodeID;
  }

  lemma InvHasIds(m: Mem, s: Store)
    requires Inv(Quiescent(m, s))
    ensures IdsDistinct(m)
  {
  }

  /** A registration, with the allocation of a number in between if the node is new. A refusal, each for
      its exact reason, changes neither the tables nor the store; acceptance leaves them in agreement, with the
      entry, every user's home and every grant as the request asks. */
  method RegisterFileServer(ms: MetaServer, store: MemStore, req: Req, now: int) returns (r: Outcome, ghost num: nat, ghost pick: Option<nat>)
    requires Inv(Quiescent(ms.Model(), store.Contents()))
    modifies ms, store
    ensures Inv(Quiescent(ms.Model(), store.Contents()))
    ensures r.Refused? || r.Done?
    ensures r.Refused? ==> ms.Model() == old(ms.Model()) && store.Contents() == old(store.Contents())
    ensures FoundAt(old(ms.Model()), req.address, pick)
    ensures r == Refused(Bad(EmptyAddress)) <==> req.address == ""
    ensures r == Refused(Bad(IdInUse)) <==> req.address != "" && HeldElsewhere(old(ms.Model()), req, now)
    ensures r == Refused(Bad(UserElsewhere)) <==>
      req.address != "" && !HeldElsewhere(old(ms.Model()), req, now) && SomeElsewhere(old(ms.Model()), req, pick)
    ensures r.Done? <==>
      req.address != "" && !HeldElsewhere(old(ms.Model()), req, now) && !SomeElsewhere(old(ms.Model()), req, pick)
    ensures r.Done? ==> if exists n: nat :: Takes(old(ms.Model()), req, pick, n) then Takes(old(ms.Model()), req, pick, num) else num == old(store.Contents()).next
    ensures r.Done? ==> ms.Model() == Commit(old(ms.Model()), req, num, now)
    ensures r.Done? ==> RegistrationLeft(old(ms.Model()), old(store.Contents()), ms.Model(), store.Contents(), req, num, now)
  {
    hide Inv, Commit, RegisterWrites, ApplyAll, Begin, IdsDistinct, Conflict, Apply, HeldElsewhere, SomeElsewhere, Takes, RegistrationLeft, FoundAt;
    ghost var m, s := ms.Model(), store.Contents();
    num := 0;
    InvHasIds(m, s);
    var start, found := ms.BeginRegister(req, now);
    pick := found;
    RegisterExactly(m, s, req, now, pick);
    RegisterKeepsInv(Quiescent(m, s), req, now, pick);
    match start
    case Refuse(why) => r := Refused(Bad(why));
    case Proceed(n, adoptFrom) =>
      num := n;
      ProceedLeaves(m, s, req, now, pick, n, adoptFrom);
      RegisterWritesIssuable(m, req, n, adoptFrom);
      var ws := ms.CommitRegister(req, n, adoptFrom, now);
      WritesSettle(ms.Model(), s, ws);
      Issue(store, ws);
      r := Done;
    case Allocate =>
      ghost var waiting := Sys(m, s, Allocating(req));
      AllocKeepsInv(waiting);
      var nodeId := ResolveNodeID(req.fsId, req.address);
      var n := store.UpsertFileServer(nodeId, req.address);
      num := n;
      ghost var holding := Sys(m, store.Contents(), Allocated(req, n));
      assert holding == DoAlloc(waiting).0;
      FinishSucceeds(holding, now);
      FinishKeepsInv(holding, now);
      FinishClear(holding, now);
      if n in ms.fileservers {
        assert false;
      }
      var conflict := ms.RegistrationConflict(nodeId, Some(n), req.users);
      if conflict {
        assert false;
      }
      RegisterWritesIssuable(m, req, n, None);
      ghost var t := store.Contents();
      AllocatedLeaves(m, s, req, n, now);
      var ws := ms.CommitRegister(req, n, None, now);
      WritesSettle(ms.Model(), t, ws);
      Issue(store, ws);
      r := Done;
  }

  lemma RegisterExactly(m: Mem, s: Store, req: Req, now: int, pick: Option<nat>)
    requires Inv(Quiescent(m, s)) && FoundAt(m, req.address, pick)
    ensures MemInv(m)
    ensures var r := Begin(m, req, now, pick);
      var fine := req.address != "" && !HeldElsewhere(m, req, now);
      && (r == Refuse(EmptyAddress) <==> req.address == "")
      && (r == Refuse(IdInUse) <==> req.address != "" && HeldElsewhere(m, req, now))
      && (r == Refuse(UserElsewhere) <==> fine && SomeElsewhere(m, req, pick))
      && (r.Refuse? ==> r.why == EmptyAddress || r.why == IdInUse || r.why == UserElsewhere)
      && (r == Allocate ==> forall n: nat :: !Takes(m, req, pick, n))
      && (r.Proceed? ==> Takes(m, req, pick, r.num))
  {
    hide Begin, HeldElsewhere, SomeElsewhere, Takes, FoundAt, StoreInv, PhaseInv, Agree;
    RegisterExact(m, req, now, pick);
  }

  lemma ProceedLeaves(m: Mem, s: Store, req: Req, now: int, pick: Option<nat>, num: nat, adoptFrom: Option<string>)
    requires Inv(Quiescent(m, s)) && FoundAt(m, req.address, pick) && Begin(m, req, now, pick) == Proceed(num, adoptFrom)
    ensures RegistrationLeft(m, s, Commit(m, req, num, now), ApplyAll(s, RegisterWrites(m, req, num, adoptFrom)), req, num, now)
  {
    hide Begin, FoundAt, StoreInv, MemInv, Agree, Commit, RegisterWrites, RegistrationLeft, MayCommit, Entry;
    BeginProceeds(m, req, now, pick, num, adoptFrom);
    EmptyWrites(s);
    CommitLeaves(m, s, req, num, adoptFrom, now);
  }

  lemma AllocatedLeaves(m: Mem, s: Store, req: Req, num: nat, now: int)
    requires Inv(Quiescent(m, s)) && Inv(Sys(m, s, Allocating(req))) && num !in m.nodes
    requires DoAlloc(Sys(m, s, Allocating(req))).0.phase == Allocated(req, num)
    ensures num == s.next
    ensures var t := Apply(s, Upsert(ResolveNodeID(req.fsId, req.address), req.address));
      RegistrationLeft(m, s, Commit(m, req, num, now), ApplyAll(t, RegisterWrites(m, req, num, None)), req, num, now)
  {
    hide Inv, Commit, RegisterWrites, RegistrationLeft, MayCommit, Entry, Agree, ResolveNodeID, Apply, ApplyAll, WithFresh;
    var t := Apply(s, Upsert(ResolveNodeID(req.fsId, req.address), req.address));
    AllocatedDocuments(m, s, req, num);
    FreshMayCommit(m, req, num, now);
    FreshAgrees(m, t, req, num, now);
    FreshIrrelevant(m, req, num, now);
    CommitLeaves(WithFresh(m, req, num, now), t, req, num, None, now);
    FreshLeaves(m, s, t, req, num, now, Commit(m, req, num, now), ApplyAll(t, RegisterWrites(m, req, num, None)));
  }

  lemma AllocatedDocuments(m: Mem, s: Store, req: Req, num: nat)
    requires Inv(Quiescent(m, s)) && Inv(Sys(m, s, Allocating(req))) && num !in m.nodes
    requires DoAlloc(Sys(m, s, Allocating(req))).0.phase == Allocated(req, num)
    ensures MemInv(m) && Admissible(m, req) && num == s.next && IdOf(req) == ResolveNodeID(req.fsId, req.address)
    ensures IdOf(req) !in s.nodes && forall a :: a in s.nodes ==> s.nodes[a].num != num
    ensures var t := Apply(s, Upsert(IdOf(req), req.address));
      && t.users == s.users && t.shares == s.shares && t.nodes == s.nodes[IdOf(req) := NodeRec(num, req.address)]
      && Agree(m, Apply(t, RemoveNode(IdOf(req))))
  {
    hide Conflict, MemInv, StoreInv, SameNodes, SameHomes, SharesRecorded, Safe;
    var nodeId := ResolveNodeID(req.fsId, req.address);
    EmptyWrites(s);
    NumbersUnused(s);
    IdIs(req);
    if nodeId in s.nodes { StoredIsRegistered(m, s, nodeId); assert false; }
    SameDocuments(m, s, Apply(Apply(s, Upsert(nodeId, req.address)), RemoveNode(nodeId)));
  }

  lemma NumbersUnused(s: Store)
    requires StoreInv(s)
    ensures forall a :: a in s.nodes ==> s.nodes[a].num != s.next
  {
  }

  /** The two checks after the allocation always pass. */
  lemma FinishClear(sys: Sys, now: int)
    requires Inv(sys) && sys.phase.Allocated?
    ensures sys.phase.num !in sys.mem.nodes
    ensures !Conflict(sys.mem, ResolveNodeID(sys.phase.req.fsId, sys.phase.req.address), Some(sys.phase.num), sys.phase.req.users)
    ensures DoFinish(sys, now).0.phase == Writing(RegisterWrites(sys.mem, sys.phase.req, sys.phase.num, None))
  {
    hide MemInv, StoreInv, Agree, Commit, RegisterWrites;
    FinishSucceeds(sys, now);
  }

  /** A login. Once it has returned the roots, the user is at home on a node in the tables and in the store. */
  method GetRoots(ms: MetaServer, store: MemStore, user: string, now: int) returns (r: Outcome)
    requires Inv(Quiescent(ms.Model(), store.Contents()))
    modifies ms, store
    ensures Inv(Quiescent(ms.Model(), store.Contents()))
    ensures r.Refused? || r.Roots?
    ensures r.Refused? ==> ms.Model() == old(ms.Model()) && store.Contents() == old(store.Contents())
    ensures r.Roots? ==> user in ms.users && user in store.users && HomeOf(ms.Model(), user) == Some(store.users[user])
    ensures r == Refused(NameMissing) <==> user == ""
    ensures forall home :: r == Refused(HomeAway(home)) <==>
      user != "" && user !in old(ms.users) && user in old(ms.orphanedUsers) && old(ms.orphanedUsers)[user] == home
    ensures r == Refused(NoHealthyNode) <==>
      IsNewcomer(old(ms.Model()), user) && forall n :: n in old(ms.fileservers) ==> !Alive(old(ms.Model()), n, now)
    ensures r.Refused? ==> r.reason == NameMissing || r.reason == NoHealthyNode || r.reason.HomeAway?
    ensures user != "" && user in old(ms.users) ==>
      && ms.Model() == old(ms.Model()) && store.Contents() == old(store.Contents())
      && r == Roots([Visible(user, user)] + (if user in old(ms.shared) then old(ms.shared)[user] else []))
    ensures IsNewcomer(old(ms.Model()), user) && r.Roots? ==>
      && r.entries == [Visible(user, user)]
      && exists n :: FewestUsers(old(ms.Model()), n, now) && PlacedOn(old(ms.Model()), ms.Model(), user, n)
                  && store.Contents() == old(store.Contents()).(users := old(store.users)[user := old(ms.fileservers)[n].id])
  {
    hide ApplyAll, MemInv, SameNodes, SharesRecorded, StoreInv, Login, FewestUsers, PlacedOn, IsHealthy, DoGetRoots, SameHomes, HomeOf;
    ghost var m, s := ms.Model(), store.Contents();
    var ws;
    ghost var choice;
    r, ws, choice := ms.GetRoots(user, now, s);
    GetRootsKeepsInv(Quiescent(m, s), user, now, choice);
    WritesSettle(ms.Model(), s, ws);
    LoggedIn(m, s, user, choice);
    LoginExact(Quiescent(m, s), user, now, choice);
    EmptyWrites(s);
    Issue(store, ws);
    if IsNewcomer(m, user) && r.Roots? { ApplyOne(s, ws[0]); }
    if r.Roots? { Housed(ms.Model(), store.Contents(), user); }
  }

  lemma LoggedIn(m: Mem, s: Store, user: string, choice: Option<nat>)
    requires choice.Some? ==> choice.value in m.nodes
    ensures var (t, r) := DoGetRoots(Quiescent(m, s), user, choice); r.Roots? ==> user in t.mem.users
    ensures forall w :: w in DoGetRoots(Quiescent(m, s), user, choice).0.phase.ws ==> Issuable(w)
  {
  }

  /** Named, and neither routed nor waiting. */
  predicate IsNewcomer(m: Mem, user: string) {
    user != "" && user !in m.users && user !in m.orphans
  }

  lemma Housed(m: Mem, s: Store, user: string)
    requires Inv(Quiescent(m, s)) && user in m.users
    ensures user in s.users && HomeOf(m, user) == Some(s.users[user])
  {
    assert HomeOf(m, user) == StoredHome(s, user);
  }

  /** Publishing one directory. Afterwards the grant, under the path's normal form, is visible and recorded, and no other has changed. */
  method Share(ms: MetaServer, store: MemStore, owner: string, grantee: string, path: string) returns (r: Outcome)
    requires Inv(Quiescent(ms.Model(), store.Contents()))
    modifies ms, store
    ensures Inv(Quiescent(ms.Model(), store.Contents()))
    ensures r.Refused? || r.Done?
    ensures r.Done? <==> owner in old(ms.users) && grantee in old(ms.users)
    ensures r.Refused? ==>
      && r == Refused(NoSuchUser(if owner !in old(ms.users) then owner else grantee))
      && ms.Model() == old(ms.Model()) && store.Contents() == old(store.Contents())
    ensures ms.Model() == old(ms.Model()).(shared := ms.shared) && store.Contents() == old(store.Contents()).(shares := store.Contents().shares)
    ensures r.Done? ==> forall g ::
      && (InMem(ms.shared, g) <==> InMem(old(ms.shared), g) || g == Grant(grantee, owner, Normalize(path)))
      && (g in store.Contents().shares <==> g in old(store.Contents()).shares || g == Grant(grantee, owner, Normalize(path)))
  {
    hide ApplyAll, MemInv, Agree, StoreInv, Normalize, InMem, DoShare;
    ghost var m, s := ms.Model(), store.Contents();
    var ws;
    r, ws := ms.RootShare(owner, grantee, path, s);
    ShareKeepsInv(Quiescent(m, s), owner, grantee, path);
    ShareExact(Quiescent(m, s), owner, grantee, path);
    WritesSettle(ms.Model(), s, ws);
    ghost var g := Grant(grantee, owner, Normalize(path));
    NormalizeIdempotent(path);
    EmptyWrites(s);
    if InMem(m.shared, g) { VisibleIsRecorded(m, s, g); }
    Issue(store, ws);
    if r.Done? && !InMem(m.shared, g) { ApplyOne(s, AddShares({g})); }
  }

  lemma VisibleIsRecorded(m: Mem, s: Store, g: Grant)
    requires Inv(Quiescent(m, s)) && InMem(m.shared, g)
    ensures g in s.shares
  {
    EmptyWrites(s);
  }

  /** Revoking one directory. A successful revocation is gone from the tables and the store, and no other grant is. */
  method Unshare(ms: MetaServer, store: MemStore, owner: string, grantee: string, path: string) returns (r: Outcome)
    requires Inv(Quiescent(ms.Model(), store.Contents()))
    modifies ms, store
    ensures Inv(Quiescent(ms.Model(), store.Contents()))
    ensures r.Refused? ==> ms.Model() == old(ms.Model()) && store.Contents() == old(store.Contents())
    ensures r.Done? <==> owner in old(ms.users) && grantee in old(ms.users)
    ensures r.Refused? ==> r == Refused(NoSuchUser(if owner !in old(ms.users) then owner else grantee))
    ensures ms.Model() == old(ms.Model()).(shared := ms.shared) && store.Contents() == old(store.Contents()).(shares := store.Contents().shares)
    ensures r.Done? ==> forall g ::
      && (InMem(ms.shared, g) <==> InMem(old(ms.shared), g) && g != Grant(grantee, owner, Normalize(path)))
      && (g in store.Contents().shares <==> g in old(store.Contents()).shares && g != Grant(grantee, owner, Normalize(path)))
  {
    hide ApplyAll, MemInv, Agree, StoreInv, Normalize, InMem, MetaCommits.Unshare, DoUnshare;
    ghost var m, s := ms.Model(), store.Contents();
    var ws;
    r, ws := ms.RootUnshare(owner, grantee, path, s);
    ShareKeepsInv(Quiescent(m, s), owner, grantee, path);
    UnshareExact(Quiescent(m, s), owner, grantee, path);
    WritesSettle(ms.Model(), s, ws);
    ghost var g := Grant(grantee, owner, Normalize(path));
    NormalizeIdempotent(path);
    Issue(store, ws);
    EmptyWrites(s);
    if r.Done? { ApplyOne(s, RemoveShare(g)); }
  }

  /** Removing a node: nobody is left assigned to it, and everybody else's assignment stands. */
  method DeregisterFileServer(ms: MetaServer, store: MemStore, fsId: string, address: string) returns (r: Outcome, ghost id: string)
    requires Inv(Quiescent(ms.Model(), store.Contents()))
    modifies ms, store
    ensures Inv(Quiescent(ms.Model(), store.Contents()))
    ensures r.Refused? ==> ms.Model() == old(ms.Model()) && store.Contents() == old(store.Contents())
    ensures r.Done? || r == Refused(NameMissing)
    ensures r.Refused? <==> fsId == "" && address == ""
    ensures NodeMeant(old(ms.Model()), fsId, address, id)
    ensures r.Done? ==> DeregistrationLeft(old(ms.Model()), old(store.Contents()), ms.Model(), store.Contents(), id)
  {
    hide ApplyAll, MemInv, Agree, StoreInv, Deregister, Released, DeregisterWrites, DoDeregister, DeregistrationLeft, NodeMeant;
    ghost var m, s := ms.Model(), store.Contents();
    InvHasIds(m, s);
    var ws;
    ghost var pick;
    r, ws, pick := ms.DeregisterFileServer(fsId, address, s);
    id := Target(m, fsId, pick).1;
    DeregisterKeepsInv(Quiescent(m, s), fsId, address, pick);
    WritesSettle(ms.Model(), s, ws);
    DeregisterLeaves(m, s, fsId, address, pick);
    DeregisterIssuable(m, Target(m, fsId, pick).0, id);
    WritesOwed(m, s, fsId, address, pick);
    EmptyWrites(s);
    Issue(store, ws);
  }

  lemma WritesOwed(m: Mem, s: Store, fsId: string, address: string, pick: Option<nat>)
    requires FoundAt(m, address, pick)
    ensures var (num, id) := Target(m, fsId, pick);
      var ws := DoDeregister(Quiescent(m, s), fsId, address, pick).0.phase.ws;
      ws == [] || ws == DeregisterWrites(m, num, id)
  {
  }

  lemma DeregisterIssuable(m: Mem, num: Option<nat>, nodeId: string)
    ensures forall w :: w in DeregisterWrites(m, num, nodeId) ==> Issuable(w)
  {
    hide Released;
  }

  lemma DeregisterLeaves(m: Mem, s: Store, fsId: string, address: string, pick: Option<nat>)
    requires Inv(Quiescent(m, s)) && FoundAt(m, address, pick)
    ensures NodeMeant(m, fsId, address, Target(m, fsId, pick).1)
    ensures var (sys, r) := DoDeregister(Quiescent(m, s), fsId, address, pick);
      && (r == Done || r == Refused(NameMissing)) && (r == Refused(NameMissing) <==> fsId == "" && address == "")
      && (r.Refused? ==> sys == Quiescent(m, s))
      && (r == Done ==> DeregistrationLeft(m, s, sys.mem, ApplyAll(s, sys.phase.ws), Target(m, fsId, pick).1))
  {
    hide ApplyAll, MemInv, StoreInv, Deregister, Released, DeregisterWrites, DoDeregister, DeregistrationLeft, SameNodes, SameHomes, SharesRecorded;
    EmptyWrites(s);
    var (num, id) := Target(m, fsId, pick);
    MeantIs(m, fsId, address, pick);
    DeregisterExact(Quiescent(m, s), fsId, address, pick);
    DeregisterKeepsInv(Quiescent(m, s), fsId, address, pick);
    if fsId != "" || address != "" { DeregistrationIs(m, s, fsId, address, pick); }
  }
}
