/**
What every run of the metaserver guarantees: restarts rebuild the routing tables,
refusals change nothing, homes are sticky, revocations are final, and interrupted
deregistrations and legacy renames recover.
*/
module MetaRuns {
  import opened Options
  import opened SharePath
  import opened MetaStore
  import opened MetaTables
  import opened MetaAgreement
  import opened MetaCommits
  import opened MetaProtocol

  ghost predicate CanRun(sys: Sys, es: seq<Event>)
    decreases |es|
  {
    es == [] || (Enabled(sys, es[0]) && CanRun(Step(sys, es[0]).0, es[1..]))
  }

  ghost function After(sys: Sys, es: seq<Event>): Sys
    requires CanRun(sys, es)
    decreases |es|
  {
    if es == [] then sys else After(Step(sys, es[0]).0, es[1..])
  }

  /** Every reachable state satisfies the invariant: memory equals the store plus the writes still owed. */
  lemma {:induction false} RunKeepsInv(sys: Sys, es: seq<Event>)
    requires Inv(sys) && CanRun(sys, es)
    ensures Inv(After(sys, es))
    decreases |es|
  {
    hide Inv, Enabled, Step;
    if es == [] {
    } else {
      StepKeepsInv(sys, es[0]);
      RunKeepsInv(Step(sys, es[0]).0, es[1..]);
    }
  }

  /** A restart between operations rebuilds the same routing tables and loses no visible grant. */
  lemma RestartRebuilds(sys: Sys, es: seq<Event>, live: map<string, Live>, order: seq<Grant>, now: int, allowPurge: bool, timeout: int)
    requires Inv(sys) && CanRun(sys, es) && Idle(After(sys, es)) && Lists(After(sys, es).store.shares, order)
    ensures var m := After(sys, es).mem;
      var h := Hydrate(After(sys, es).store, live, order, now, allowPurge, timeout);
      && h.users == m.users && h.orphans == m.orphans && h.nodes.Keys == m.nodes.Keys
      && (forall n :: n in m.nodes ==>
           h.nodes[n].id == m.nodes[n].id && h.nodes[n].address == m.nodes[n].address && h.nodes[n].load == m.nodes[n].load)
      && (forall g :: InMem(m.shared, g) ==> InMem(h.shared, g))
  {
    hide MemInv, StoreInv, Hydrate, Lists, InMem, SameNodes, SameHomes;
    RunKeepsInv(sys, es);
    var end := After(sys, es);
    var h := HydrateAgrees(end.store, live, order, now, allowPurge, timeout);
    AgreeDeterminesRouting(end.mem, h, end.store);
  }

  /** A refusal leaves memory, store and pending writes as they were, in every reachable state. */
  lemma RefusalsChangeNothing(sys: Sys, e: Event)
    requires Inv(sys) && Enabled(sys, e) && Step(sys, e).1.Refused?
    ensures Step(sys, e).0 == sys
  {
    hide Inv, DoWrite, Hydrate, Login, Share, Unshare, Deregister, Commit, RegisterWrites, Begin;
    if e.Finish? { FinishSucceeds(sys, e.now); }
  }

  // ---------------------------------------------------------------- homes are sticky

  predicate KeepsHome(w: Write, u: string, id: string) {
    match w
    case RemoveUsers(who) => u !in who
    case Assign(who, home) => u in who ==> home == id
    case Rename(from, _) => from != id
    case MoveUsers(from, _) => from != id
    case _ => true
  }

  /** The store has `u` at home on `id`, and nothing under way changes that. */
  ghost predicate Pinned(sys: Sys, u: string, id: string) {
    && u in sys.store.users && sys.store.users[u] == id
    && match sys.phase
       case Writing(ws) => forall w :: w in ws ==> KeepsHome(w, u, id)
       case Allocating(req) => u in req.users ==> ResolveNodeID(req.fsId, req.address) == id
       case Allocated(req, _) => u in req.users ==> ResolveNodeID(req.fsId, req.address) == id
  }

  /** The three ways to lose a home: its node is deregistered, is adopted under a new
      identity, or re-registers without the user while purging is on. */
  ghost predicate Releases(sys: Sys, e: Event, u: string, id: string)
    requires Enabled(sys, e)
  {
    match e
    case DeregisterNode(fsId, _, pick) => Target(sys.mem, fsId, pick).1 == id
    case Register(req, now, pick) =>
      || (sys.mem.allowPurge && ResolveNodeID(req.fsId, req.address) == id && u !in req.users)
      || (exists n :: Begin(sys.mem, req, now, pick) == Proceed(n, Some(id)))
    case _ => false
  }

  lemma {:induction false} WritesKeepHome(s: Store, ws: seq<Write>, u: string, id: string)
    requires StoredHome(s, u) == Some(id) && forall w :: w in ws ==> KeepsHome(w, u, id)
    ensures StoredHome(ApplyAll(s, ws), u) == Some(id)
    decreases |ws|
  {
    if ws == [] {
    } else {
      assert KeepsHome(ws[0], u, id);
      WritesKeepHome(Apply(s, ws[0]), ws[1..], u, id);
    }
  }

  /** A pinned user is assigned to that node in memory too. */
  lemma PinnedInMemory(sys: Sys, u: string, id: string)
    requires Inv(sys) && Pinned(sys, u, id)
    ensures HomeOf(sys.mem, u) == Some(id)
  {
    hide MemInv, StoreInv, SameNodes, SharesRecorded, HomeOf, KeepsHome, Safe, Admissible;
    if sys.phase.Writing? { WritesKeepHome(sys.store, sys.phase.ws, u, id); }
    assert HomeOf(sys.mem, u) == StoredHome(Settled(sys), u);
  }

  lemma RegisterKeepsPin(sys: Sys, req: Req, now: int, pick: Option<nat>, u: string, id: string)
    requires Inv(sys) && Enabled(sys, Register(req, now, pick)) && Pinned(sys, u, id)
    requires !Releases(sys, Register(req, now, pick), u, id)
    ensures Pinned(DoRegister(sys, req, now, pick).0, u, id)
  {
    hide StoreInv, Agree, PhaseInv, Commit, IdsDistinct, OrphansApart, LoadsExact, Grants;
    var m := sys.mem;
    PinnedInMemory(sys, u, id);
    var nodeId := ResolveNodeID(req.fsId, req.address);
    match Begin(m, req, now, pick)
    case Refuse(_) =>
    case Allocate =>
    case Proceed(num, adoptFrom) =>
      assert u in Incoming(req) <==> u in req.users;
      if adoptFrom.Some? { assert adoptFrom.value != id; }
  }

  lemma FinishKeepsPin(sys: Sys, now: int, u: string, id: string)
    requires Inv(sys) && sys.phase.Allocated? && Pinned(sys, u, id)
    ensures Pinned(DoFinish(sys, now).0, u, id)
  {
    hide StoreInv, Agree, Commit, IdsDistinct, OrphansApart, LoadsExact, Grants, Conflict, Admissible;
    FinishSucceeds(sys, now);
    assert u in Incoming(sys.phase.req) <==> u in sys.phase.req.users;
    assert Hosted(sys.mem.users, sys.phase.num) == {};
  }

  lemma DeregisterKeepsPin(sys: Sys, fsId: string, address: string, pick: Option<nat>, u: string, id: string)
    requires MemInv(sys.mem) && (pick.Some? ==> pick.value in sys.mem.nodes)
    requires Pinned(sys, u, id) && HomeOf(sys.mem, u) == Some(id) && Target(sys.mem, fsId, pick).1 != id
    ensures Pinned(DoDeregister(sys, fsId, address, pick).0, u, id)
  {
    hide Deregister, IdsDistinct, OrphansApart, LoadsExact, FindNode;
    var (num, nodeId) := Target(sys.mem, fsId, pick);
    assert u !in Released(sys.mem, num, nodeId);
  }

  lemma StepKeepsPin(sys: Sys, e: Event, u: string, id: string)
    requires Inv(sys) && Enabled(sys, e) && Pinned(sys, u, id) && !Releases(sys, e, u, id)
    ensures Pinned(Step(sys, e).0, u, id)
  {
    hide MemInv, StoreInv, Agree, PhaseInv, DoRegister, DoFinish, DoDeregister, Hydrate, Login, Share, Unshare, Normalize, DoNavigate, Swept, DoHeartbeat, Placement, Lists, IsHealthy;
    PinnedInMemory(sys, u, id);
    match e
    case Register(req, now, pick) => RegisterKeepsPin(sys, req, now, pick, u, id);
    case Finish(now) => FinishKeepsPin(sys, now, u, id);
    case WriteStep => WriteKeepsPin(sys, u, id);
    case MoveOne(_) => assert KeepsHome(sys.phase.ws[0], u, id);
    case DeregisterNode(fsId, address, pick) => DeregisterKeepsPin(sys, fsId, address, pick, u, id);
    case _ =>
  }

  lemma WriteKeepsPin(sys: Sys, u: string, id: string)
    requires sys.phase.Writing? && sys.phase.ws != [] && Pinned(sys, u, id)
    ensures Pinned(DoWrite(sys), u, id)
  {
    assert KeepsHome(sys.phase.ws[0], u, id);
  }

  ghost predicate NeverReleased(sys: Sys, es: seq<Event>, u: string, id: string)
    requires CanRun(sys, es)
    decreases |es|
  {
    es == [] || (!Releases(sys, es[0], u, id) && NeverReleased(Step(sys, es[0]).0, es[1..], u, id))
  }

  /** Through logins, registrations, shares, writes and crashes alike, an assigned user keeps the home the store recorded. */
  lemma {:induction false} HomesAreSticky(sys: Sys, es: seq<Event>, u: string, id: string)
    requires Inv(sys) && CanRun(sys, es) && Pinned(sys, u, id) && NeverReleased(sys, es, u, id)
    ensures Pinned(After(sys, es), u, id) && HomeOf(After(sys, es).mem, u) == Some(id)
    decreases |es|
  {
    hide Inv, Enabled, Step, Pinned, Releases, HomeOf;
    if es == [] {
      PinnedInMemory(sys, u, id);
    } else {
      StepKeepsInv(sys, es[0]);
      StepKeepsPin(sys, es[0], u, id);
      HomesAreSticky(Step(sys, es[0]).0, es[1..], u, id);
    }
  }

  /** A first login pins its user as soon as its one write is done. */
  lemma LoginPins(sys: Sys, user: string, now: int, n: nat)
    requires Inv(sys) && Idle(sys) && Enabled(sys, GetRoots(user, now, Some(n)))
    requires user != "" && user !in sys.mem.users && user !in sys.mem.orphans
    ensures var mid := Step(sys, GetRoots(user, now, Some(n))).0;
      Enabled(mid, WriteStep) && Pinned(Step(mid, WriteStep).0, user, sys.mem.nodes[n].id)
  {
    hide Inv, Login, LeastLoaded;
    var mid := Step(sys, GetRoots(user, now, Some(n))).0;
    assert mid.phase.ws[1..] == [];
  }

  // ---------------------------------------------------------------- revocations are final

  /** The write puts no such grant into the store. */
  predicate NotGranting(w: Write, g: Grant) {
    w.AddShares? ==> forall h :: h in w.grants ==> Canonical(h) != g
  }

  /** The grant is neither visible nor recorded, and nothing under way brings it back. */
  ghost predicate Absent(sys: Sys, g: Grant) {
    && !InMem(sys.mem.shared, g) && g !in sys.store.shares
    && match sys.phase
       case Writing(ws) => forall w :: w in ws ==> NotGranting(w, g)
       case Allocating(req) => !Published(req, g)
       case Allocated(req, _) => !Published(req, g)
  }

  /** A later share or registration grants it again. */
  ghost predicate Regrants(e: Event, g: Grant) {
    match e
    case RootShare(owner, grantee, path) => g == Grant(grantee, owner, Normalize(path))
    case Register(req, _, _) => Published(req, g)
    case _ => false
  }

  lemma CommitStaysAbsent(m: Mem, req: Req, num: nat, adoptFrom: Option<string>, now: int, g: Grant)
    requires !InMem(m.shared, g) && !Published(req, g)
    ensures !InMem(Commit(m, req, num, now).shared, g)
    ensures forall w :: w in RegisterWrites(m, req, num, adoptFrom) ==> NotGranting(w, g)
  {
    hide Grants, CommitShared, CommitUsers, InMem, Published;
    GrantsAre(req, g);
    CommitSharedBy(m, req, num, ResolveNodeID(req.fsId, req.address), g);
    forall h | h in Grants(req) ensures Canonical(h) == h { GrantIsNormal(req, h); }
  }

  lemma RegisterStaysAbsent(sys: Sys, req: Req, now: int, pick: Option<nat>, g: Grant)
    requires FoundAt(sys.mem, req.address, pick) && Absent(sys, g) && !Published(req, g)
    ensures Absent(DoRegister(sys, req, now, pick).0, g)
  {
    hide Grants, Commit, RegisterWrites, InMem, Published;
    match Begin(sys.mem, req, now, pick)
    case Refuse(_) =>
    case Allocate =>
    case Proceed(num, adoptFrom) => CommitStaysAbsent(sys.mem, req, num, adoptFrom, now, g);
  }

  lemma WriteStaysAbsent(sys: Sys, g: Grant)
    requires sys.phase.Writing? && sys.phase.ws != [] && Absent(sys, g)
    ensures Absent(DoWrite(sys), g)
  {
    hide InMem;
    assert NotGranting(sys.phase.ws[0], g);
  }

  lemma CrashStaysAbsent(sys: Sys, live: map<string, Live>, order: seq<Grant>, now: int, allowPurge: bool, timeout: int, g: Grant)
    requires Inv(sys) && Lists(sys.store.shares, order) && g !in sys.store.shares
    ensures Absent(Sys(Hydrate(sys.store, live, order, now, allowPurge, timeout), sys.store, Writing([])), g)
  {
    hide MemInv, Agree, PhaseInv, StoreInv, Hydrate, InMem, Lists;
    var m := HydrateAgrees(sys.store, live, order, now, allowPurge, timeout);
  }

  lemma StepStaysAbsent(sys: Sys, e: Event, g: Grant)
    requires Inv(sys) && Enabled(sys, e) && Absent(sys, g) && !Regrants(e, g)
    ensures Absent(Step(sys, e).0, g)
  {
    hide Inv, DoRegister, DoWrite, Hydrate, Commit, RegisterWrites, Normalize, DoNavigate, Placement, Lists, DropOwners, Released, Published;
    match e
    case Register(req, now, pick) => RegisterStaysAbsent(sys, req, now, pick, g);
    case Finish(now) =>
      FinishSucceeds(sys, now);
      CommitStaysAbsent(sys.mem, sys.phase.req, sys.phase.num, None, now, g);
    case WriteStep => WriteStaysAbsent(sys, g);
    case RootUnshare(owner, grantee, path) => UnshareHas(sys.mem, Grant(grantee, owner, Normalize(path)), g);
    case RootShare(owner, grantee, path) => NormalizeIdempotent(path);
    case DeregisterNode(fsId, _, pick) =>
      DeregisterShare(sys.mem, Target(sys.mem, fsId, pick).0, Target(sys.mem, fsId, pick).1, g);
    case Crash(live, order, now, allowPurge, timeout) => CrashStaysAbsent(sys, live, order, now, allowPurge, timeout, g);
    case _ =>
  }

  /** An unshare under any spelling of the path removes the grant from memory and, once written, from the store. */
  lemma UnshareRemoves(sys: Sys, owner: string, grantee: string, path: string, spelling: string)
    requires Inv(sys) && Idle(sys) && owner in sys.mem.users && grantee in sys.mem.users
    requires Normalize(spelling) == Normalize(path)
    ensures var mid := Step(sys, RootUnshare(owner, grantee, spelling)).0;
      Enabled(mid, WriteStep) && Absent(Step(mid, WriteStep).0, Grant(grantee, owner, Normalize(path)))
  {
    hide Inv, Normalize, InMem, Unshare;
    var g := Grant(grantee, owner, Normalize(path));
    var mid := Step(sys, RootUnshare(owner, grantee, spelling)).0;
    NormalizeIdempotent(path);
    UnshareHas(sys.mem, g, g);
    assert mid.phase.ws[1..] == [];
  }

  /** A share under any spelling of the path makes the grant visible at once and, once written, recorded; no other
      grant comes or goes. */
  lemma ShareAppears(sys: Sys, owner: string, grantee: string, path: string, spelling: string)
    requires Inv(sys) && Idle(sys) && owner in sys.mem.users && grantee in sys.mem.users
    requires Normalize(spelling) == Normalize(path)
    ensures var g := Grant(grantee, owner, Normalize(path));
      var (mid, r) := Step(sys, RootShare(owner, grantee, spelling));
      && r == Done && (Idle(mid) || Enabled(mid, WriteStep))
      && var end := if Idle(mid) then mid else Step(mid, WriteStep).0;
      && Idle(end) && end.store.shares == sys.store.shares + {g}
      && (forall h :: InMem(mid.mem.shared, h) <==> InMem(sys.mem.shared, h) || h == g)
      && end.mem == mid.mem
  {
    hide MemInv, StoreInv, SameNodes, SameHomes, Normalize;
    var g := Grant(grantee, owner, Normalize(path));
    NormalizeIdempotent(path);
    EmptyWrites(sys.store);
    var mid := Step(sys, RootShare(owner, grantee, spelling)).0;
    if InMem(sys.mem.shared, g) {
      assert g in sys.store.shares;
    } else {
      assert mid.phase.ws[1..] == [];
    }
  }

  /** From then on no event other than a later share or registration of that very grant, and no crash, brings it back. */
  lemma {:induction false} RevocationsAreFinal(sys: Sys, es: seq<Event>, g: Grant)
    requires Inv(sys) && CanRun(sys, es) && Absent(sys, g) && forall e :: e in es ==> !Regrants(e, g)
    ensures Absent(After(sys, es), g)
    decreases |es|
  {
    hide Inv, Enabled, Step, Absent, Regrants;
    if es == [] {
    } else {
      StepKeepsInv(sys, es[0]);
      StepStaysAbsent(sys, es[0], g);
      RevocationsAreFinal(Step(sys, es[0]).0, es[1..], g);
    }
  }
}
