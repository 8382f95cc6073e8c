/**
Heartbeats, sweeps and placement. The sweep that marks silent nodes stale cannot be
observed by any decision; a node's address moves only after its old one has been
silent for longer than the timeout; and placement keeps the load spread.
*/
module Liveness {
  import opened Options
  import opened SharePath
  import opened MetaStore
  import opened MetaTables
  import opened MetaAgreement
  import opened MetaCommits
  import opened MetaProtocol
  import opened MetaRuns

  // ---------------------------------------------------------------- time

  /** The clock reading an event takes, if it takes one. */
  function Clock(clock: int, e: Event): int {
    match e
    case Register(_, now, _) => now
    case Finish(now) => now
    case GetRoots(_, now, _) => now
    case Heartbeat(_, _, now) => now
    case Sweep(now) => now
    case Navigate(_, _, now) => now
    case _ => clock
  }

  /** One server lifetime: no crash, and the clock never goes back. */
  predicate Lifetime(es: seq<Event>, clock: int)
    decreases |es|
  {
    es == [] || (!es[0].Crash? && clock <= Clock(clock, es[0]) && Lifetime(es[1..], Clock(clock, es[0])))
  }

  /** Silent for longer than the timeout, or never heard of. */
  predicate Silent(m: Mem, n: Node, clock: int) {
    n.lastSeen == 0 || (m.timeout > 0 && clock - n.lastSeen > m.timeout / SECOND)
  }

  // ---------------------------------------------------------------- sweeps are unobservable

  /** Equal but for the status of nodes that are silent anyway. */
  predicate SameHealth(m: Mem, a: Node, b: Node, clock: int) {
    a == b.(status := a.status) && (a.status == b.status || Silent(m, a, clock))
  }

  ghost predicate Alike(m: Mem, k: Mem, clock: int) {
    && k == m.(nodes := k.nodes) && k.nodes.Keys == m.nodes.Keys
    && forall n :: n in m.nodes ==> SameHealth(m, m.nodes[n], k.nodes[n], clock)
  }

  ghost predicate AlikeSys(a: Sys, b: Sys, clock: int) {
    Alike(a.mem, b.mem, clock) && b.store == a.store && b.phase == a.phase
  }

  lemma AlikeHealth(m: Mem, k: Mem, clock: int, n: nat, now: int)
    requires Alike(m, k, clock) && clock <= now && n in m.nodes
    ensures IsHealthy(m, m.nodes[n], now) == IsHealthy(k, k.nodes[n], now)
  {
  }

  lemma AlikeLater(m: Mem, k: Mem, clock: int, now: int)
    requires Alike(m, k, clock) && clock <= now
    ensures Alike(m, k, now)
  {
  }

  lemma SweepAlike(m: Mem, k: Mem, clock: int, now: int)
    requires Alike(m, k, clock) && clock <= now
    ensures Alike(Swept(m, now), k, now)
  {
  }

  lemma FindUnique(m: Mem, id: string, n: nat)
    requires IdsDistinct(m) && n in m.nodes && m.nodes[n].id == id
    ensures FindNode(m, id) == Some(n)
  {
    assert Registered(m, id);
  }

  lemma AlikeFind(m: Mem, k: Mem, clock: int, id: string)
    requires IdsDistinct(m) && Alike(m, k, clock)
    ensures FindNode(m, id) == FindNode(k, id)
  {
    hide Silent;
    if FindNode(m, id).Some? {
      FindUnique(k, id, FindNode(m, id).value);
    } else if FindNode(k, id).Some? {
      FindUnique(m, id, FindNode(k, id).value);
      assert false;
    }
  }

  lemma AlikeFound(m: Mem, k: Mem, clock: int, address: string, pick: Option<nat>)
    requires Alike(m, k, clock)
    ensures FoundAt(m, address, pick) <==> FoundAt(k, address, pick)
  {
    hide Silent;
  }

  lemma AlikePlacement(m: Mem, k: Mem, clock: int, now: int, choice: Option<nat>)
    requires Alike(m, k, clock) && clock <= now
    ensures Placement(m, now, choice) <==> Placement(k, now, choice)
  {
    hide IsHealthy, Silent;
    forall n | n in m.nodes ensures IsHealthy(m, m.nodes[n], now) == IsHealthy(k, k.nodes[n], now) && m.nodes[n].load == k.nodes[n].load {
      AlikeHealth(m, k, clock, n, now);
    }
  }

  lemma AlikeEnabled(a: Sys, b: Sys, clock: int, e: Event)
    requires AlikeSys(a, b, clock) && clock <= Clock(clock, e)
    ensures Enabled(a, e) <==> Enabled(b, e)
  {
    hide FoundAt, Placement, Silent, SameHealth;
    match e
    case Register(req, _, pick) => AlikeFound(a.mem, b.mem, clock, req.address, pick);
    case DeregisterNode(_, address, pick) => AlikeFound(a.mem, b.mem, clock, address, pick);
    case GetRoots(_, now, choice) => AlikePlacement(a.mem, b.mem, clock, now, choice);
    case _ =>
  }

  lemma AlikeBegin(m: Mem, k: Mem, clock: int, req: Req, now: int, pick: Option<nat>)
    requires IdsDistinct(m) && Alike(m, k, clock) && clock <= now && FoundAt(m, req.address, pick) && FoundAt(k, req.address, pick)
    ensures Begin(m, req, now, pick) == Begin(k, req, now, pick)
  {
    hide IsHealthy, Silent, IsLegacy, ResolveNodeID;
    var nodeId := ResolveNodeID(req.fsId, req.address);
    AlikeFind(m, k, clock, nodeId);
    if FindNode(m, nodeId).Some? { AlikeHealth(m, k, clock, FindNode(m, nodeId).value, now); }
    var num := if FindNode(m, nodeId).Some? then FindNode(m, nodeId) else pick;
    assert Conflict(m, nodeId, num, req.users) == Conflict(k, nodeId, num, req.users);
    assert Conflict(m, nodeId, None, req.users) == Conflict(k, nodeId, None, req.users);
  }

  lemma AlikeCommit(m: Mem, k: Mem, clock: int, req: Req, num: nat, now: int, adoptFrom: Option<string>)
    requires Alike(m, k, clock) && clock <= now
    ensures Alike(Commit(m, req, num, now), Commit(k, req, num, now), now)
    ensures RegisterWrites(m, req, num, adoptFrom) == RegisterWrites(k, req, num, adoptFrom)
  {
    hide Hosted, Incoming, Grants, Missing, Claimed, CommitUsers, CommitShared;
    SameRegistration(m, k, req, num, ResolveNodeID(req.fsId, req.address));
  }

  lemma AlikeRegister(a: Sys, b: Sys, clock: int, req: Req, now: int, pick: Option<nat>)
    requires MemInv(a.mem) && AlikeSys(a, b, clock) && clock <= now
    requires FoundAt(a.mem, req.address, pick) && FoundAt(b.mem, req.address, pick)
    ensures AlikeSys(DoRegister(a, req, now, pick).0, DoRegister(b, req, now, pick).0, now)
    ensures DoRegister(a, req, now, pick).1 == DoRegister(b, req, now, pick).1
  {
    hide Begin, Commit, RegisterWrites, Alike, FoundAt;
    AlikeBegin(a.mem, b.mem, clock, req, now, pick);
    AlikeLater(a.mem, b.mem, clock, now);
    match Begin(a.mem, req, now, pick)
    case Refuse(_) =>
    case Allocate =>
    case Proceed(num, adoptFrom) => AlikeCommit(a.mem, b.mem, clock, req, num, now, adoptFrom);
  }

  lemma AlikeFinish(a: Sys, b: Sys, clock: int, now: int)
    requires AlikeSys(a, b, clock) && clock <= now && a.phase.Allocated?
    ensures AlikeSys(DoFinish(a, now).0, DoFinish(b, now).0, now) && DoFinish(a, now).1 == DoFinish(b, now).1
  {
    hide Commit, RegisterWrites, Silent, ResolveNodeID;
    var req, num := a.phase.req, a.phase.num;
    AlikeLater(a.mem, b.mem, clock, now);
    AlikeCommit(a.mem, b.mem, clock, req, num, now, None);
    assert Conflict(a.mem, ResolveNodeID(req.fsId, req.address), Some(num), req.users)
      == Conflict(b.mem, ResolveNodeID(req.fsId, req.address), Some(num), req.users);
  }

  lemma AlikeDeregister(a: Sys, b: Sys, clock: int, fsId: string, address: string, pick: Option<nat>)
    requires MemInv(a.mem) && AlikeSys(a, b, clock) && (pick.Some? ==> pick.value in a.mem.nodes && pick.value in b.mem.nodes)
    ensures AlikeSys(DoDeregister(a, fsId, address, pick).0, DoDeregister(b, fsId, address, pick).0, clock)
    ensures DoDeregister(a, fsId, address, pick).1 == DoDeregister(b, fsId, address, pick).1
  {
    hide Silent, DropOwners, FindNode, Deregister, DeregisterWrites, Released;
    AlikeFind(a.mem, b.mem, clock, fsId);
    var (num, nodeId) := Target(a.mem, fsId, pick);
    assert Target(b.mem, fsId, pick) == (num, nodeId);
    AlikeRelease(a.mem, b.mem, clock, num, nodeId);
  }

  lemma AlikeRelease(m: Mem, k: Mem, clock: int, num: Option<nat>, nodeId: string)
    requires Alike(m, k, clock)
    ensures Released(m, num, nodeId) == Released(k, num, nodeId)
    ensures DeregisterWrites(m, num, nodeId) == DeregisterWrites(k, num, nodeId)
    ensures Alike(Deregister(m, num, nodeId), Deregister(k, num, nodeId), clock)
  {
    hide DropOwners;
    assert Released(m, num, nodeId) == Released(k, num, nodeId);
  }

  lemma AlikeHeartbeat(m: Mem, k: Mem, clock: int, fsId: string, address: string, now: int)
    requires IdsDistinct(m) && Alike(m, k, clock) && clock <= now
    ensures Alike(DoHeartbeat(m, fsId, address, now).0, DoHeartbeat(k, fsId, address, now).0, now)
    ensures DoHeartbeat(m, fsId, address, now).1 == DoHeartbeat(k, fsId, address, now).1
  {
    hide FindNode, ResolveNodeID;
    AlikeFind(m, k, clock, ResolveNodeID(fsId, address));
    AlikeLater(m, k, clock, now);
  }

  lemma AlikeNavigate(m: Mem, k: Mem, clock: int, user: string, root: string, now: int)
    requires Alike(m, k, clock) && clock <= now
    ensures DoNavigate(m, user, root, now) == DoNavigate(k, user, root, now)
  {
    hide IsHealthy, Silent;
    if root in m.users && m.users[root] in m.nodes { AlikeHealth(m, k, clock, m.users[root], now); }
    assert VisibleTo(m, user) == VisibleTo(k, user);
  }

  /** One event, in two states that differ only in what sweeps have marked, has one outcome. */
  lemma AlikeStep(a: Sys, b: Sys, clock: int, e: Event)
    requires Inv(a) && AlikeSys(a, b, clock) && clock <= Clock(clock, e) && !e.Crash?
    requires Enabled(a, e) && Enabled(b, e)
    ensures Step(a, e).1 == Step(b, e).1 && AlikeSys(Step(a, e).0, Step(b, e).0, Clock(clock, e))
  {
    hide StoreInv, PhaseInv, Agree, UsersRouted, OrphansApart, LoadsExact, DoRegister, DoFinish, DoDeregister, DoHeartbeat, DoNavigate, IsHealthy, Expand, Apply;
    hide Share, Unshare, Normalize, VisibleTo;
    AlikeLater(a.mem, b.mem, clock, Clock(clock, e));
    match e
    case Register(req, now, pick) => AlikeRegister(a, b, clock, req, now, pick);
    case Finish(now) => AlikeFinish(a, b, clock, now);
    case DeregisterNode(fsId, address, pick) => AlikeDeregister(a, b, clock, fsId, address, pick);
    case Heartbeat(fsId, address, now) => AlikeHeartbeat(a.mem, b.mem, clock, fsId, address, now);
    case Navigate(user, root, now) => AlikeNavigate(a.mem, b.mem, clock, user, root, now);
    case Sweep(now) => AlikeSweeps(a.mem, b.mem, clock, now);
    case RootShare(owner, grantee, path) => AlikeShares(a, b, clock, owner, grantee, path);
    case RootUnshare(owner, grantee, path) => AlikeShares(a, b, clock, owner, grantee, path);
    case GetRoots(user, now, choice) => AlikeRoots(a, b, clock, user, now, choice);
    case _ =>
  }

  lemma AlikeSweeps(m: Mem, k: Mem, clock: int, now: int)
    requires Alike(m, k, clock) && clock <= now
    ensures Alike(Swept(m, now), Swept(k, now), now)
  {
  }

  lemma AlikeShares(a: Sys, b: Sys, clock: int, owner: string, grantee: string, path: string)
    requires AlikeSys(a, b, clock)
    ensures DoShare(a, owner, grantee, path).1 == DoShare(b, owner, grantee, path).1
    ensures DoUnshare(a, owner, grantee, path).1 == DoUnshare(b, owner, grantee, path).1
    ensures AlikeSys(DoShare(a, owner, grantee, path).0, DoShare(b, owner, grantee, path).0, clock)
    ensures AlikeSys(DoUnshare(a, owner, grantee, path).0, DoUnshare(b, owner, grantee, path).0, clock)
  {
    hide Normalize;
  }

  lemma AlikeRoots(a: Sys, b: Sys, clock: int, user: string, now: int, choice: Option<nat>)
    requires AlikeSys(a, b, clock) && clock <= now && (choice.Some? ==> choice.value in a.mem.nodes && choice.value in b.mem.nodes)
    ensures DoGetRoots(a, user, choice).1 == DoGetRoots(b, user, choice).1
    ensures AlikeSys(DoGetRoots(a, user, choice).0, DoGetRoots(b, user, choice).0, now)
  {
    AlikeLater(a.mem, b.mem, clock, now);
  }

  function NoSweeps(es: seq<Event>): seq<Event>
    decreases |es|
  {
    if es == [] then [] else (if es[0].Sweep? then [] else [es[0]]) + NoSweeps(es[1..])
  }

  /** What callers learn in the course of a run. */
  ghost function Outcomes(sys: Sys, es: seq<Event>): seq<Outcome>
    requires CanRun(sys, es)
    decreases |es|
  {
    if es == [] then []
    else (if es[0].Sweep? then [] else [Step(sys, es[0]).1]) + Outcomes(Step(sys, es[0]).0, es[1..])
  }

  lemma {:induction false} SweepsDropOut(a: Sys, b: Sys, clock: int, es: seq<Event>)
    requires Inv(a) && AlikeSys(a, b, clock) && Lifetime(es, clock)
    ensures CanRun(a, es) <==> CanRun(b, NoSweeps(es))
    ensures CanRun(a, es) ==> Outcomes(a, es) == Outcomes(b, NoSweeps(es))
    decreases |es|
  {
    hide Inv, Enabled, Step, AlikeSys, Alike;
    if es == [] {
    } else {
      var e, rest := es[0], es[1..];
      if e.Sweep? {
        assert NoSweeps(es) == NoSweeps(rest);
        SweepStep(a, b, clock, e.now);
        SweepsDropOut(Step(a, e).0, b, e.now, rest);
      } else {
        var lean := NoSweeps(es);
        assert lean == [e] + NoSweeps(rest);
        assert lean[0] == e && lean[1..] == NoSweeps(rest);
        AlikeEnabled(a, b, clock, e);
        if Enabled(a, e) {
          StepKeepsInv(a, e);
          AlikeStep(a, b, clock, e);
          SweepsDropOut(Step(a, e).0, Step(b, e).0, Clock(clock, e), rest);
        }
      }
    }
  }

  lemma SweepStep(a: Sys, b: Sys, clock: int, now: int)
    requires Inv(a) && AlikeSys(a, b, clock) && clock <= now
    ensures Enabled(a, Sweep(now)) && Inv(Step(a, Sweep(now)).0) && AlikeSys(Step(a, Sweep(now)).0, b, now)
  {
    hide Inv, Alike, Swept;
    SweepAlike(a.mem, b.mem, clock, now);
    StepKeepsInv(a, Sweep(now));
  }

  /** Two runs of one lifetime that differ only in their sweeps are both possible or neither,
      and no routing, placement, registration or other answer differs between them. */
  lemma SweepsAreUnobservable(sys: Sys, clock: int, es: seq<Event>, fs: seq<Event>)
    requires Inv(sys) && Lifetime(es, clock) && Lifetime(fs, clock) && NoSweeps(es) == NoSweeps(fs)
    ensures CanRun(sys, es) <==> CanRun(sys, fs)
    ensures CanRun(sys, es) ==> Outcomes(sys, es) == Outcomes(sys, fs)
  {
    hide Inv, CanRun, Outcomes;
    assert AlikeSys(sys, sys, clock);
    SweepsDropOut(sys, sys, clock, es);
    SweepsDropOut(sys, sys, clock, fs);
  }

  // ---------------------------------------------------------------- addresses move only after silence

  datatype Contact = Contact(id: string, address: string, time: int)

  /** The accepted heartbeat or registration an event stands for. */
  ghost function ContactIn(sys: Sys, e: Event): Option<Contact>
    requires Enabled(sys, e)
  {
    match e
    case Heartbeat(fsId, address, now) =>
      if Step(sys, e).1.Done? then Some(Contact(ResolveNodeID(fsId, address), address, now)) else None
    case Register(req, now, _) =>
      if Step(sys, e).1.Done? then Some(Contact(ResolveNodeID(req.fsId, req.address), req.address, now)) else None
    case Finish(now) =>
      if Step(sys, e).1.Done? then Some(Contact(ResolveNodeID(sys.phase.req.fsId, sys.phase.req.address), sys.phase.req.address, now)) else None
    case _ => None
  }

  /** If the node is still at the address of contact `c`, it was last seen at that contact or
      later, and is marked stale only if it has been silent too long since. */
  ghost predicate SeenSince(m: Mem, c: Contact, clock: int) {
    forall n :: n in m.nodes && m.nodes[n].id == c.id && m.nodes[n].address == c.address ==>
      m.nodes[n].lastSeen >= c.time && (m.nodes[n].status == Stale ==> Silent(m, m.nodes[n], clock))
  }

  lemma ContactSeen(sys: Sys, e: Event, c: Contact)
    requires Inv(sys) && Enabled(sys, e) && ContactIn(sys, e) == Some(c)
    ensures SeenSince(Step(sys, e).0.mem, c, c.time)
  {
    hide StoreInv, PhaseInv, Agree, OrphansApart, LoadsExact, UsersRouted, CommitUsers, CommitShared, RegisterWrites, Conflict, IsLegacy, IsHealthy;
    match e
    case Heartbeat(fsId, address, now) => FindUniqueAll(sys.mem, ResolveNodeID(fsId, address));
    case Register(req, now, pick) => CommitEntry(sys, req, now, pick);
    case Finish(now) => FinishEntry(sys, now);
  }

  lemma FindUniqueAll(m: Mem, id: string)
    requires IdsDistinct(m)
    ensures forall n :: n in m.nodes && m.nodes[n].id == id ==> FindNode(m, id) == Some(n)
  {
    hide FindNode;
    forall n | n in m.nodes && m.nodes[n].id == id ensures FindNode(m, id) == Some(n) { FindUnique(m, id, n); }
  }

  lemma CommitEntry(sys: Sys, req: Req, now: int, pick: Option<nat>)
    requires Inv(sys) && Enabled(sys, Register(req, now, pick)) && DoRegister(sys, req, now, pick).1.Done?
    ensures forall n :: n in DoRegister(sys, req, now, pick).0.mem.nodes ==>
      var node := DoRegister(sys, req, now, pick).0.mem.nodes[n];
      node.id == ResolveNodeID(req.fsId, req.address) ==> node.lastSeen == now && node.status == Healthy
  {
    hide MemInv, StoreInv, PhaseInv, Agree, CommitUsers, CommitShared, RegisterWrites, Begin, FoundAt;
    var m := sys.mem;
    var b := Begin(m, req, now, pick);
    BeginProceeds(m, req, now, pick, b.num, b.adoptFrom);
    MayCommitOnly(m, req, b.num);
  }

  lemma MayCommitOnly(m: Mem, req: Req, num: nat)
    requires MayCommit(m, req, num)
    ensures forall n :: n in m.nodes && n != num ==> m.nodes[n].id != ResolveNodeID(req.fsId, req.address)
  {
  }

  lemma FinishEntry(sys: Sys, now: int)
    requires Inv(sys) && sys.phase.Allocated?
    ensures forall n :: n in DoFinish(sys, now).0.mem.nodes ==>
      var node := DoFinish(sys, now).0.mem.nodes[n];
      node.id == ResolveNodeID(sys.phase.req.fsId, sys.phase.req.address) ==> node.lastSeen == now && node.status == Healthy
  {
    hide StoreInv, Agree, CommitUsers, CommitShared, Conflict, LoadsExact, OrphansApart, UsersRouted, DoFinish;
    FinishSucceeds(sys, now);
    FindUniqueAll(sys.mem, ResolveNodeID(sys.phase.req.fsId, sys.phase.req.address));
  }

  lemma RootsKeepLiveness(sys: Sys, user: string, now: int, choice: Option<nat>)
    requires Enabled(sys, GetRoots(user, now, choice))
    ensures var k := DoGetRoots(sys, user, choice).0.mem;
      k.timeout == sys.mem.timeout && k.nodes.Keys == sys.mem.nodes.Keys
      && forall n :: n in k.nodes ==> k.nodes[n] == sys.mem.nodes[n].(load := k.nodes[n].load)
  {
    hide IsHealthy;
  }

  lemma StepKeepsSeen(sys: Sys, e: Event, c: Contact, clock: int)
    requires Inv(sys) && Enabled(sys, e) && !e.Crash? && 0 < c.time <= clock <= Clock(clock, e) && SeenSince(sys.mem, c, clock)
    ensures SeenSince(Step(sys, e).0.mem, c, Clock(clock, e))
  {
    hide MemInv, StoreInv, PhaseInv, Agree, CommitUsers, CommitShared, RegisterWrites, Conflict, IsLegacy, Begin, DoShare, DoUnshare, DoGetRoots, DoNavigate, Placement, FoundAt, Released, DropOwners, DoHeartbeat, Swept, DoDeregister;
    match e
    case Register(req, now, pick) => if DoRegister(sys, req, now, pick).1.Done? { CommitEntry(sys, req, now, pick); }
    case Finish(now) => FinishSucceeds(sys, now);
    case RootShare(owner, grantee, path) => SharesKeepNodes(sys, owner, grantee, path);
    case RootUnshare(owner, grantee, path) => SharesKeepNodes(sys, owner, grantee, path);
    case GetRoots(user, now, choice) => RootsKeepLiveness(sys, user, now, choice);
    case Heartbeat(fsId, address, now) => HeartbeatKeepsSeen(sys.mem, fsId, address, now, c, clock);
    case Sweep(now) => SweepKeepsSeen(sys.mem, now, c, clock);
    case DeregisterNode(fsId, address, pick) => ReleaseKeepsLiveness(sys, fsId, address, pick);
    case _ =>
  }

  lemma HeartbeatKeepsSeen(m: Mem, fsId: string, address: string, now: int, c: Contact, clock: int)
    requires 0 < c.time <= clock <= now && SeenSince(m, c, clock)
    ensures SeenSince(DoHeartbeat(m, fsId, address, now).0, c, now)
  {
    hide FindNode, ResolveNodeID;
  }

  lemma SweepKeepsSeen(m: Mem, now: int, c: Contact, clock: int)
    requires 0 < c.time <= clock <= now && SeenSince(m, c, clock)
    ensures SeenSince(Swept(m, now), c, now)
  {
  }

  lemma ReleaseKeepsLiveness(sys: Sys, fsId: string, address: string, pick: Option<nat>)
    requires Enabled(sys, DeregisterNode(fsId, address, pick))
    ensures var k := DoDeregister(sys, fsId, address, pick).0.mem;
      k.timeout == sys.mem.timeout && forall n :: n in k.nodes ==> n in sys.mem.nodes && k.nodes[n] == sys.mem.nodes[n]
  {
    hide DropOwners, Released, FindNode;
  }

  lemma SharesKeepNodes(sys: Sys, owner: string, grantee: string, path: string)
    ensures var k := DoShare(sys, owner, grantee, path).0.mem; k == sys.mem.(shared := k.shared)
    ensures var k := DoUnshare(sys, owner, grantee, path).0.mem; k == sys.mem.(shared := k.shared)
  {
  }

  /** Some entry keeps its identity across the step but not its address. */
  ghost predicate Readdresses(m: Mem, k: Mem, id: string, was: string) {
    exists n :: n in m.nodes && n in k.nodes && m.nodes[n].id == id && m.nodes[n].address == was
      && k.nodes[n].id == id && k.nodes[n].address != was
  }

  lemma RegisterMoves(sys: Sys, req: Req, now: int, pick: Option<nat>, id: string, n: nat)
    requires MemInv(sys.mem) && FoundAt(sys.mem, req.address, pick)
    requires n in sys.mem.nodes && sys.mem.nodes[n].id == id
    requires var after := DoRegister(sys, req, now, pick).0.mem;
      n in after.nodes && after.nodes[n].id == id && after.nodes[n].address != sys.mem.nodes[n].address
    ensures !IsHealthy(sys.mem, sys.mem.nodes[n], now)
  {
    hide OrphansApart, LoadsExact, UsersRouted, CommitUsers, CommitShared, RegisterWrites, Conflict, IsLegacy, IsHealthy;
    FindUnique(sys.mem, id, n);
  }

  /** Only a registration moves an address, and only of a node it finds unhealthy. */
  lemma OnlyRegistrationMoves(sys: Sys, e: Event, id: string, was: string)
    requires Inv(sys) && Enabled(sys, e) && !e.Crash? && Readdresses(sys.mem, Step(sys, e).0.mem, id, was)
    ensures e.Register?
    ensures exists n :: n in sys.mem.nodes && sys.mem.nodes[n].id == id && sys.mem.nodes[n].address == was && !IsHealthy(sys.mem, sys.mem.nodes[n], e.now)
  {
    hide StoreInv, PhaseInv, Agree, OrphansApart, LoadsExact, UsersRouted, CommitUsers, CommitShared, RegisterWrites, Conflict, IsLegacy, IsHealthy, DoRegister, DoShare, DoUnshare, DoNavigate, Placement, FoundAt, Released, DropOwners;
    var n :| n in sys.mem.nodes && n in Step(sys, e).0.mem.nodes && sys.mem.nodes[n].id == id && sys.mem.nodes[n].address == was
      && Step(sys, e).0.mem.nodes[n].id == id && Step(sys, e).0.mem.nodes[n].address != was;
    match e
    case Register(req, now, pick) => RegisterMoves(sys, req, now, pick, id, n);
    case Finish(now) => FinishSucceeds(sys, now); assert false;
    case RootShare(owner, grantee, path) => SharesKeepNodes(sys, owner, grantee, path); assert false;
    case RootUnshare(owner, grantee, path) => SharesKeepNodes(sys, owner, grantee, path); assert false;
    case _ => assert false;
  }

  lemma {:induction false} RunKeepsSeen(sys: Sys, es: seq<Event>, c: Contact, clock: int)
    requires Inv(sys) && CanRun(sys, es) && Lifetime(es, clock) && 0 < c.time <= clock && SeenSince(sys.mem, c, clock)
    ensures Inv(After(sys, es)) && exists last :: clock <= last && Ends(es, clock, last) && SeenSince(After(sys, es).mem, c, last)
    decreases |es|
  {
    hide Inv, Enabled, Step, SeenSince;
    if es == [] {
      assert Ends(es, clock, clock);
    } else {
      StepKeepsInv(sys, es[0]);
      StepKeepsSeen(sys, es[0], c, clock);
      RunKeepsSeen(Step(sys, es[0]).0, es[1..], c, Clock(clock, es[0]));
      var last :| Clock(clock, es[0]) <= last && Ends(es[1..], Clock(clock, es[0]), last) && SeenSince(After(Step(sys, es[0]).0, es[1..]).mem, c, last);
      assert Ends(es, clock, last);
    }
  }

  /** `last` is the clock when the run is over. */
  predicate Ends(es: seq<Event>, clock: int, last: int)
    decreases |es|
  {
    if es == [] then last == clock else Ends(es[1..], Clock(clock, es[0]), last)
  }

  /** Within one lifetime, when a node's address changes, more than the timeout has passed
      since every earlier accepted heartbeat or registration from the old address. */
  lemma AddressMovesAfterSilence(sys: Sys, first: Event, es: seq<Event>, e: Event, c: Contact, last: int)
    requires Inv(sys) && Enabled(sys, first) && ContactIn(sys, first) == Some(c) && 0 < c.time
    requires CanRun(Step(sys, first).0, es) && Lifetime(es, c.time) && Ends(es, c.time, last)
    requires var end := After(Step(sys, first).0, es);
      Enabled(end, e) && !e.Crash? && last <= Clock(last, e) && Readdresses(end.mem, Step(end, e).0.mem, c.id, c.address)
    ensures var end := After(Step(sys, first).0, es);
      e.Register? && end.mem.timeout > 0 && e.now - c.time > end.mem.timeout / SECOND
  {
    hide Inv, Enabled, Step, ContactIn, Readdresses;
    var start := Step(sys, first).0;
    StepKeepsInv(sys, first);
    ContactSeen(sys, first, c);
    RunKeepsSeen(start, es, c, c.time);
    var end := After(start, es);
    var l :| c.time <= l && Ends(es, c.time, l) && SeenSince(end.mem, c, l);
    EndsUnique(es, c.time, l, last);
    OnlyRegistrationMoves(end, e, c.id, c.address);
  }

  lemma {:induction false} EndsUnique(es: seq<Event>, clock: int, a: int, b: int)
    requires Ends(es, clock, a) && Ends(es, clock, b)
    ensures a == b
    decreases |es|
  {
    if es == [] {
    } else {
      EndsUnique(es[1..], Clock(clock, es[0]), a, b);
    }
  }

  // ---------------------------------------------------------------- placement keeps the spread

  ghost function HealthySet(m: Mem, now: int): set<nat> {
    set n | n in m.nodes && IsHealthy(m, m.nodes[n], now)
  }

  /** No node of `nodes` has more than `b` users above another. */
  ghost predicate Spread(m: Mem, nodes: set<nat>, b: nat) {
    forall i, j :: i in nodes && j in nodes ==> |Hosted(m.users, i)| <= |Hosted(m.users, j)| + b
  }

  lemma LoginSpread(m: Mem, user: string, n: nat, now: int, b: nat)
    requires LoadsExact(m) && LeastLoaded(m, now, n) && user !in m.users && Spread(m, HealthySet(m, now), b) && b >= 1
    ensures Spread(Login(m, user, n), HealthySet(m, now), b)
  {
    hide IsHealthy;
    var k := Login(m, user, n);
    assert Hosted(k.users, n) == Hosted(m.users, n) + {user};
    forall i | i in m.nodes && i != n ensures Hosted(k.users, i) == Hosted(m.users, i) { }
    forall i | i in HealthySet(m, now) ensures |Hosted(m.users, n)| <= |Hosted(m.users, i)| {
      assert m.nodes[n].load <= m.nodes[i].load;
    }
  }

  /** A run in which nodes neither come nor go and every login sees the same healthy set. */
  ghost predicate SteadyNodes(sys: Sys, es: seq<Event>, nodes: set<nat>)
    requires CanRun(sys, es)
    decreases |es|
  {
    es == [] || (
      && !es[0].Register? && !es[0].Finish? && !es[0].DeregisterNode? && !es[0].Crash?
      && (es[0].GetRoots? ==> HealthySet(sys.mem, es[0].now) == nodes)
      && SteadyNodes(Step(sys, es[0]).0, es[1..], nodes))
  }

  lemma StepSpread(sys: Sys, e: Event, nodes: set<nat>, b: nat)
    requires Inv(sys) && Enabled(sys, e) && Spread(sys.mem, nodes, b) && b >= 1
    requires !e.Register? && !e.Finish? && !e.DeregisterNode? && !e.Crash? && (e.GetRoots? ==> HealthySet(sys.mem, e.now) == nodes)
    ensures Spread(Step(sys, e).0.mem, nodes, b)
  {
    hide StoreInv, PhaseInv, Agree, IdsDistinct, UsersRouted, OrphansApart, DoShare, DoUnshare, DoWrite, HealthySet, IsHealthy, Hosted, Swept, DoHeartbeat, LoadsExact, Login, LeastLoaded;
    match e
    case RootShare(owner, grantee, path) => SharesKeepNodes(sys, owner, grantee, path);
    case RootUnshare(owner, grantee, path) => SharesKeepNodes(sys, owner, grantee, path);
    case GetRoots(user, now, choice) =>
      if choice.Some? && user !in sys.mem.users { LoginSpread(sys.mem, user, choice.value, now, b); }
    case WriteStep => WriteKeepsMem(sys);
    case Heartbeat(fsId, address, now) => LivenessKeepsUsers(sys.mem, fsId, address, now);
    case Sweep(now) => LivenessKeepsUsers(sys.mem, "", "", now);
    case _ =>
  }

  lemma WriteKeepsMem(sys: Sys)
    requires sys.phase.Writing? && sys.phase.ws != []
    ensures DoWrite(sys).mem == sys.mem
  {
  }

  lemma LivenessKeepsUsers(m: Mem, fsId: string, address: string, now: int)
    ensures DoHeartbeat(m, fsId, address, now).0.users == m.users && Swept(m, now).users == m.users
  {
  }

  /** First logins over an unchanging healthy set never raise the spread above the larger of one and what it was. */
  lemma {:induction false} PlacementKeepsSpread(sys: Sys, es: seq<Event>, nodes: set<nat>, b: nat)
    requires Inv(sys) && CanRun(sys, es) && SteadyNodes(sys, es, nodes) && Spread(sys.mem, nodes, b)
    ensures Spread(After(sys, es).mem, nodes, if b > 1 then b else 1)
    decreases |es|
  {
    hide Inv, Enabled, Step, HealthySet, Hosted;
    var c := if b > 1 then b else 1;
    assert Spread(sys.mem, nodes, c);
    if es == [] {
    } else {
      StepKeepsInv(sys, es[0]);
      StepSpread(sys, es[0], nodes, c);
      PlacementKeepsSpread(Step(sys, es[0]).0, es[1..], nodes, c);
    }
  }
}
